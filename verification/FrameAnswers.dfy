/** What the readers of a failed channel get (`src/browser-host/channel.ts`). */
module FrameAnswers {
  import opened Bytes
  import opened FrameChannels

  // ----- What the readers of a failed channel get -----

  /** Every read is settled: the first ones with these frames, all others with the failure. */
  ghost predicate Answered(c: Channel, frames: seq<bytes>, e: Failure) {
    && |frames| <= c.calls
    && (forall i :: i in c.settled <==> 0 <= i < c.calls)
    && (forall i :: 0 <= i < |frames| ==> i in c.settled && c.settled[i] == Delivered(frames[i]))
    && (forall i :: |frames| <= i < c.calls ==> i in c.settled && c.settled[i] == Rejected(e))
  }

  lemma FailAnswers(c: Channel, frames: seq<bytes>, e: Failure)
    requires c.failure.None? && Matches(c, frames)
    ensures Answered(Fail(c, e), frames, e) && Fail(c, e).calls == c.calls && Fail(c, e).failure == Some(e)
  {
    forall i | |frames| <= i < c.calls ensures i in c.pending {
      assert c.pending[i - |frames|] == i;
    }
  }

  lemma {:induction false} DrainAnswers(f: Format, c: Channel, frames: seq<bytes>)
    requires Bounded(f) && c.failure.None? && Matches(c, frames) && Drain(f, c).failure.Some?
    ensures Drain(f, c).failure == Some(InvalidLength) && Drain(f, c).calls == c.calls
    ensures Answered(Drain(f, c), frames + Split(f, c.buffer, |c.pending|).0, InvalidLength)
    decreases |c.pending|
  {
    var r := f.front(c.buffer);
    if !Fits(r, c.buffer) {
      SplitStops(f, c.buffer, |c.pending|);
      assert frames + [] == frames;
      FailAnswers(c, frames, InvalidLength);
    } else {
      MatchesNext(c, Deliver(c, r), frames, Payload(c.buffer, r));
      DrainStep(f, c, r);
      DrainAnswers(f, Deliver(c, r), frames + [Payload(c.buffer, r)]);
      SplitStep(f, c.buffer, |c.pending|, r);
      AppendCons(frames, Payload(c.buffer, r), Split(f, c.buffer[r.total..], |c.pending| - 1).0);
    }
  }

  predicate Overfull(f: Format, before: seq<Event>, chunk: bytes) { |Undelivered(f, before)| + |chunk| > f.limit }

  /** The frames that have been delivered when this event fails the channel. */
  function DeliveredAt(f: Format, before: seq<Event>, e: Event): seq<bytes> {
    match e
    case Close => Split(f, Received(before), Reads(before)).0
    case Data(chunk) => Split(f, Received(before) + (if Overfull(f, before, chunk) then [] else chunk), Reads(before)).0
    case ReadCall => Split(f, Received(before), Reads(before) + 1).0
  }

  /** The failure with which this event fails it. */
  function FailureAt(f: Format, before: seq<Event>, e: Event): Failure {
    match e
    case Close => Closed
    case Data(chunk) => if Overfull(f, before, chunk) then TooLarge else InvalidLength
    case ReadCall => InvalidLength
  }

  lemma OverfullAnswers(f: Format, c: Channel, chunk: bytes, stream: bytes)
    requires Follows(f, c, stream) && |c.buffer| + |chunk| > f.limit
    ensures Receive(f, c, chunk).failure == Some(TooLarge) && Receive(f, c, chunk).calls == c.calls
    ensures Answered(Receive(f, c, chunk), Split(f, stream, c.calls).0, TooLarge)
  {
    FailAnswers(c.(buffer := c.buffer + chunk), Split(f, stream, c.calls).0, TooLarge);
  }

  lemma DataAnswers(f: Format, c: Channel, chunk: bytes, stream: bytes)
    requires Bounded(f) && Stable(f) && Follows(f, c, stream) && Receive(f, c, chunk).failure.Some?
    requires |c.buffer| + |chunk| <= f.limit
    ensures Receive(f, c, chunk).failure == Some(InvalidLength) && Receive(f, c, chunk).calls == c.calls
    ensures Answered(Receive(f, c, chunk), Split(f, stream + chunk, c.calls).0, InvalidLength)
  {
    var frames := Split(f, stream, c.calls).0;
    SplitContinues(f, stream, chunk, c.calls, c.calls);
    DrainAnswers(f, c.(buffer := c.buffer + chunk), frames);
  }

  lemma ReadAnswers(f: Format, c: Channel, stream: bytes)
    requires Bounded(f) && Stable(f) && Follows(f, c, stream) && Read(f, c).failure.Some?
    ensures Read(f, c).failure == Some(InvalidLength) && Read(f, c).calls == c.calls + 1
    ensures Answered(Read(f, c), Split(f, stream, c.calls + 1).0, InvalidLength)
  {
    var (frames, rest) := Split(f, stream, c.calls);
    assert stream + [] == stream && rest + [] == rest;
    SplitContinues(f, stream, [], c.calls, c.calls + 1);
    DrainAnswers(f, c.(pending := c.pending + [c.calls], calls := c.calls + 1), frames);
  }

  lemma FailingAnswers(f: Format, before: seq<Event>, e: Event)
    requires Bounded(f) && Stable(f) && Run(f, before).failure.None? && Step(f, Run(f, before), e).failure.Some?
    ensures var d := Step(f, Run(f, before), e);
            && d.failure == Some(FailureAt(f, before, e)) && d.calls == Reads(before) + (if e.ReadCall? then 1 else 0)
            && Answered(d, DeliveredAt(f, before, e), FailureAt(f, before, e))
  {
    RunFollows(f, before);
    match e
    case Close => FailAnswers(Run(f, before), Split(f, Received(before), Reads(before)).0, Closed);
    case Data(chunk) =>
      if Overfull(f, before, chunk) {
        assert Received(before) + [] == Received(before);
        OverfullAnswers(f, Run(f, before), chunk, Received(before));
      } else {
        DataAnswers(f, Run(f, before), chunk, Received(before));
      }
    case ReadCall => ReadAnswers(f, Run(f, before), Received(before));
  }

  lemma FailedAnswers(f: Format, before: seq<Event>, e: Event)
    requires Bounded(f) && Stable(f) && Run(f, before).failure.None? && Run(f, before + [e]).failure.Some?
    ensures var d := Run(f, before + [e]);
            && d.failure == Some(FailureAt(f, before, e)) && d.pending == [] && d.buffer == []
            && d.calls == Reads(before + [e]) && Answered(d, DeliveredAt(f, before, e), FailureAt(f, before, e))
  {
    RunNext(f, before, e);
    ReadsNext(before, e);
    FailingAnswers(f, before, e);
    FailingClears(f, Run(f, before), e);
  }

  lemma AnsweredNext(f: Format, c: Channel, e: Event, frames: seq<bytes>, failure: Failure)
    requires c.failure == Some(failure) && c.pending == [] && Answered(c, frames, failure)
    ensures Answered(Step(f, c, e), frames, failure)
    ensures Step(f, c, e).calls == c.calls + (if e.ReadCall? then 1 else 0)
  {
  }

  lemma {:induction false} LaterAnswered(f: Format, failed: seq<Event>, later: seq<Event>, frames: seq<bytes>,
                                         e: Failure)
    requires Run(f, failed).failure == Some(e) && Run(f, failed).pending == [] && Run(f, failed).buffer == []
    requires Answered(Run(f, failed), frames, e) && Run(f, failed).calls == Reads(failed)
    ensures Answered(Run(f, failed + later), frames, e) && Run(f, failed + later).calls == Reads(failed + later)
    decreases |later|
  {
    if later == [] {
      assert failed + later == failed;
    } else {
      var before, last := later[..|later| - 1], later[|later| - 1];
      LaterAnswered(f, failed, before, frames, e);
      FailedRun(f, failed, before);
      RunNext(f, failed + before, last);
      ReadsNext(failed + before, last);
      assert failed + before + [last] == failed + later;
      AnsweredNext(f, Run(f, failed + before), last, frames, e);
    }
  }

  lemma ReadsNext(before: seq<Event>, e: Event)
    ensures Reads(before + [e]) == Reads(before) + (if e.ReadCall? then 1 else 0)
  {
    assert (before + [e])[..|before|] == before;
  }

  /** In every run in which event `k` is the first to fail the channel, nobody is left waiting: the reads are
      settled, in order, with the frames delivered until then, and all others, before and after the failure,
      are rejected with exactly that failure. */
  lemma EveryReadIsAnswered(f: Format, events: seq<Event>, k: nat)
    requires Bounded(f) && Stable(f)
    requires k < |events| && Run(f, events[..k]).failure.None? && Run(f, events[..k + 1]).failure.Some?
    ensures Run(f, events).failure == Some(FailureAt(f, events[..k], events[k]))
    ensures Run(f, events).calls == Reads(events)
    ensures Answered(Run(f, events), DeliveredAt(f, events[..k], events[k]), FailureAt(f, events[..k], events[k]))
  {
    CutAt(events, k);
    AnsweredEver(f, events[..k], events[k], events[k + 1..]);
  }

  lemma AnsweredEver(f: Format, before: seq<Event>, e: Event, later: seq<Event>)
    requires Bounded(f) && Stable(f) && Run(f, before).failure.None? && Run(f, before + [e]).failure.Some?
    ensures var c := Run(f, before + [e] + later);
            && c.failure == Some(FailureAt(f, before, e)) && c.calls == Reads(before + [e] + later)
            && Answered(c, DeliveredAt(f, before, e), FailureAt(f, before, e))
  {
    FailedAnswers(f, before, e);
    FailedRun(f, before + [e], later);
    LaterAnswered(f, before + [e], later, DeliveredAt(f, before, e), FailureAt(f, before, e));
  }

  lemma CutAt(events: seq<Event>, k: nat)
    requires k < |events|
    ensures events[..k] + [events[k]] == events[..k + 1] && events[..k] + [events[k]] + events[k + 1..] == events
  {
  }
}
