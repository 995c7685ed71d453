/** Incremental frame channels: `ChromeNativeChannel` and `JsonLineChannel` of
    `src/browser-host/channel.ts`, and the length-prefixed framing of `framing.rs`.

    The two classes share everything but the frame format, so the format is a parameter.  What a
    reader's promise settles with is a function of the frame's bytes; JSON decoding is abstract.
 */
module FrameChannels {
  import opened Bytes

  // ----- Frame formats -----

  /** What the front of a buffer holds: where the payload starts, its size, and the whole length. */
  datatype Front = NeedMore | BadLength | Complete(skip: nat, size: nat, total: nat)

  /** A frame format: how to read the front of a buffer, how to write a payload, which payloads can be
      written, and how many buffered bytes fail the channel. */
  datatype Format = Format(front: bytes -> Front, encode: bytes -> bytes, sendable: bytes -> bool, limit: nat)

  predicate Fits(r: Front, b: bytes) {
    r.Complete? && r.skip + r.size <= r.total <= |b|
  }

  function Payload(b: bytes, r: Front): bytes
    requires Fits(r, b)
  {
    b[r.skip..r.skip + r.size]
  }

  /** A complete frame lies inside the buffer. */
  ghost predicate Bounded(f: Format) {
    forall b: bytes :: f.front(b).Complete? ==> Fits(f.front(b), b)
  }

  /** More bytes never change a decision that has been made. */
  ghost predicate Stable(f: Format) {
    forall b: bytes, more: bytes {:trigger f.front(b + more)} ::
      !f.front(b).NeedMore? ==> f.front(b + more) == f.front(b)
  }

  /** What is read as a frame is what writing its payload would give. */
  ghost predicate Exact(f: Format) {
    forall b: bytes :: Fits(f.front(b), b) ==> b == f.encode(Payload(b, f.front(b))) + b[f.front(b).total..]
  }

  /** A written frame is recognised at the front of whatever follows it. */
  ghost predicate Recognised(f: Format, payload: bytes, more: bytes) {
    var b := f.encode(payload) + more;
    Fits(f.front(b), b) && Payload(b, f.front(b)) == payload && b[f.front(b).total..] == more
  }

  ghost predicate Accepting(f: Format) {
    forall payload: bytes, more: bytes {:trigger Recognised(f, payload, more)} ::
      f.sendable(payload) ==> Recognised(f, payload, more)
  }

  /** Nothing is decided before the first byte. */
  ghost predicate Starting(f: Format) { f.front([]).NeedMore? }

  ghost predicate Lawful(f: Format) {
    Bounded(f) && Stable(f) && Exact(f) && Accepting(f) && Starting(f)
  }

  // ----- The two formats -----

  const MAX_NATIVE_BYTES := 1024 * 1024
  const MAX_LINE_BYTES := 256 * 1024

  /** A four-byte little-endian length and the payload. */
  function NativeFront(b: bytes): Front {
    if |b| < 4 then NeedMore
    else
      var length := LittleEndian(b[..4]);
      if length == 0 || length > MAX_NATIVE_BYTES then BadLength
      else if |b| < length + 4 then NeedMore
      else Complete(4, length, length + 4)
  }

  function NativeEncode(payload: bytes): bytes { ToLittleEndian(|payload|, 4) + payload }

  predicate NativeSendable(payload: bytes) { 0 < |payload| <= MAX_NATIVE_BYTES }

  const NATIVE := Format(b => NativeFront(b), p => NativeEncode(p), p => NativeSendable(p), MAX_NATIVE_BYTES + 4)

  function NewlineAt(b: bytes): (i: nat)
    ensures i <= |b| && (i < |b| ==> b[i] == 10) && forall j :: 0 <= j < i ==> b[j] != 10
  {
    if b == [] || b[0] == 10 then 0
    else
      var i := NewlineAt(b[1..]);
      assert forall j :: 1 <= j < i + 1 ==> b[j] == b[1..][j - 1];
      i + 1
  }

  /** The payload up to a newline. */
  function LineFront(b: bytes): Front {
    var i := NewlineAt(b);
    if i == |b| then NeedMore else Complete(0, i, i + 1)
  }

  function LineEncode(payload: bytes): bytes { payload + [10] }

  predicate LineSendable(payload: bytes) {
    |payload| + 1 <= MAX_LINE_BYTES && forall i :: 0 <= i < |payload| ==> payload[i] != 10
  }

  const LINES := Format(b => LineFront(b), p => LineEncode(p), p => LineSendable(p), MAX_LINE_BYTES)

  lemma NativeStable(b: bytes, more: bytes)
    requires !NativeFront(b).NeedMore?
    ensures NativeFront(b + more) == NativeFront(b)
  {
    assert (b + more)[..4] == b[..4];
  }

  lemma NativeExact(b: bytes)
    requires NativeFront(b).Complete?
    ensures var r := NativeFront(b); Fits(r, b) && b == NativeEncode(Payload(b, r)) + b[r.total..]
  {
    LittleEndianInverse(b[..4]);
    var n := LittleEndian(b[..4]);
    assert b == b[..4] + b[4..n + 4] + b[n + 4..];
  }

  lemma NativeRecognised(payload: bytes, more: bytes)
    requires NativeSendable(payload)
    ensures var b := NativeEncode(payload) + more;
            Fits(NativeFront(b), b) && Payload(b, NativeFront(b)) == payload && b[NativeFront(b).total..] == more
  {
    var b := NativeEncode(payload) + more;
    Pow256Values();
    LittleEndianRoundTrip(|payload|, 4);
    assert b[..4] == ToLittleEndian(|payload|, 4);
  }

  /** What is on the wire: four bytes of length, the least significant first, and the payload. */
  lemma NativeLayout(payload: bytes)
    requires |payload| < Pow256(4)
    ensures var b := NativeEncode(payload);
            && |b| == 4 + |payload| && b[4..] == payload
            && |payload| == b[0] as int + 0x100 * b[1] as int + 0x1_0000 * b[2] as int + 0x100_0000 * b[3] as int
  {
    var header := ToLittleEndian(|payload|, 4);
    LittleEndianRoundTrip(|payload|, 4);
    FourBytes(header);
    assert NativeEncode(payload)[..4] == header;
  }

  lemma LittleEndianStep(h: bytes, i: nat)
    requires i < |h|
    ensures LittleEndian(h[i..]) == h[i] as int + 256 * LittleEndian(h[i + 1..])
    ensures h[0..] == h && LittleEndian(h[|h|..]) == 0
  {
    assert h[i..][1..] == h[i + 1..];
  }

  lemma FourBytes(h: bytes)
    requires |h| == 4
    ensures LittleEndian(h) == h[0] as int + 0x100 * h[1] as int + 0x1_0000 * h[2] as int + 0x100_0000 * h[3] as int
  {
    LittleEndianStep(h, 0);
    LittleEndianStep(h, 1);
    LittleEndianStep(h, 2);
    LittleEndianStep(h, 3);
  }

  lemma {:induction false} NewlineStable(b: bytes, more: bytes)
    requires NewlineAt(b) < |b|
    ensures NewlineAt(b + more) == NewlineAt(b)
    decreases |b|
  {
    if b[0] == 10 {
    } else {
      assert (b + more)[1..] == b[1..] + more;
      NewlineStable(b[1..], more);
    }
  }

  lemma {:induction false} NewlineBehind(payload: bytes, more: bytes)
    requires forall i :: 0 <= i < |payload| ==> payload[i] != 10
    ensures NewlineAt(payload + ([10] + more)) == |payload|
    decreases |payload|
  {
    if payload == [] {
    } else {
      assert (payload + ([10] + more))[1..] == payload[1..] + ([10] + more);
      NewlineBehind(payload[1..], more);
    }
  }

  lemma LineRecognised(payload: bytes, more: bytes)
    requires LineSendable(payload)
    ensures var b := LineEncode(payload) + more;
            Fits(LineFront(b), b) && Payload(b, LineFront(b)) == payload && b[LineFront(b).total..] == more
  {
    assert LineEncode(payload) + more == payload + ([10] + more);
    NewlineBehind(payload, more);
  }

  lemma LineExact(b: bytes)
    requires LineFront(b).Complete?
    ensures var r := LineFront(b); Fits(r, b) && b == LineEncode(Payload(b, r)) + b[r.total..]
  {
    var i := NewlineAt(b);
    assert b == b[..i] + [b[i]] + b[i + 1..];
  }

  lemma NativeIsLawful()
    ensures Lawful(NATIVE)
  {
    forall b: bytes, more: bytes | !NATIVE.front(b).NeedMore? ensures NATIVE.front(b + more) == NATIVE.front(b) {
      NativeStable(b, more);
    }
    forall b: bytes | Fits(NATIVE.front(b), b)
      ensures b == NATIVE.encode(Payload(b, NATIVE.front(b))) + b[NATIVE.front(b).total..]
    {
      NativeExact(b);
    }
    forall payload: bytes, more: bytes | NATIVE.sendable(payload) ensures Recognised(NATIVE, payload, more) {
      NativeRecognised(payload, more);
    }
  }

  lemma LinesAreExact()
    ensures Bounded(LINES) && Exact(LINES) && Starting(LINES)
  {
    forall b: bytes | Fits(LINES.front(b), b)
      ensures b == LINES.encode(Payload(b, LINES.front(b))) + b[LINES.front(b).total..]
    {
      LineExact(b);
    }
  }

  lemma LinesAreLawful()
    ensures Lawful(LINES)
  {
    LinesAreExact();
    forall b: bytes, more: bytes | !LINES.front(b).NeedMore? ensures LINES.front(b + more) == LINES.front(b) {
      NewlineStable(b, more);
    }
    forall payload: bytes, more: bytes | LINES.sendable(payload) ensures Recognised(LINES, payload, more) {
      LineRecognised(payload, more);
    }
  }

  // ----- The frames of a byte stream -----

  /** The bytes of several frames, followed by `tail`. */
  function Wire(f: Format, frames: seq<bytes>, tail: bytes): bytes {
    if frames == [] then tail else f.encode(frames[0]) + Wire(f, frames[1..], tail)
  }

  /** The first `n` frames of a stream, or as many as it holds, and the bytes behind them. */
  function Split(f: Format, stream: bytes, n: nat): (r: (seq<bytes>, bytes))
    ensures |r.0| <= n
    decreases n
  {
    var front := f.front(stream);
    if n == 0 || !Fits(front, stream) then ([], stream)
    else
      var (frames, rest) := Split(f, stream[front.total..], n - 1);
      ([Payload(stream, front)] + frames, rest)
  }

  lemma SplitStep(f: Format, stream: bytes, n: nat, r: Front)
    requires n > 0 && r == f.front(stream) && Fits(r, stream)
    ensures var (frames, rest) := Split(f, stream[r.total..], n - 1);
            Split(f, stream, n) == ([Payload(stream, r)] + frames, rest)
  {
  }

  lemma SplitStops(f: Format, stream: bytes, n: nat)
    requires n == 0 || !Fits(f.front(stream), stream)
    ensures Split(f, stream, n) == ([], stream)
  {
  }

  lemma WireCons(f: Format, payload: bytes, more: seq<bytes>, tail: bytes)
    ensures Wire(f, [payload] + more, tail) == f.encode(payload) + Wire(f, more, tail)
  {
    assert ([payload] + more)[1..] == more;
  }

  /** The same frame is at the front when more bytes have arrived. */
  lemma FrontGrows(f: Format, stream: bytes, more: bytes, r: Front)
    requires Stable(f) && r == f.front(stream) && Fits(r, stream)
    ensures f.front(stream + more) == r && (stream + more)[r.total..] == stream[r.total..] + more
    ensures Payload(stream + more, r) == Payload(stream, r)
  {
  }

  /** Nothing is lost: the frames and the rest make up the stream. */
  lemma {:induction false} SplitConserves(f: Format, stream: bytes, n: nat)
    requires Exact(f)
    ensures var (frames, rest) := Split(f, stream, n); Wire(f, frames, rest) == stream
    decreases n
  {
    var r := f.front(stream);
    if n == 0 || !Fits(r, stream) {
      SplitStops(f, stream, n);
    } else {
      var (more, rest) := Split(f, stream[r.total..], n - 1);
      SplitConserves(f, stream[r.total..], n - 1);
      WireCons(f, Payload(stream, r), more, rest);
      SplitStep(f, stream, n, r);
    }
  }

  /** What `SplitContinues` says of one split. */
  ghost predicate Continues(f: Format, split: (seq<bytes>, bytes), more: bytes, m: nat, whole: (seq<bytes>, bytes)) {
    && |split.0| <= m
    && var (frames, rest) := Split(f, split.1 + more, m - |split.0|);
    whole == (split.0 + frames, rest)
  }

  lemma ContinuesCons(f: Format, payload: bytes, split: (seq<bytes>, bytes), more: bytes, m: nat,
                      whole: (seq<bytes>, bytes))
    requires Continues(f, split, more, m, whole)
    ensures Continues(f, ([payload] + split.0, split.1), more, m + 1, ([payload] + whole.0, whole.1))
  {
    var (frames, rest) := Split(f, split.1 + more, m - |split.0|);
    assert [payload] + (split.0 + frames) == [payload] + split.0 + frames;
  }

  /** Splitting can be continued with more bytes and more readers. */
  lemma {:induction false} SplitContinues(f: Format, stream: bytes, more: bytes, n: nat, m: nat)
    requires Stable(f) && n <= m
    ensures Continues(f, Split(f, stream, n), more, m, Split(f, stream + more, m))
    decreases n
  {
    var r := f.front(stream);
    if n == 0 || !Fits(r, stream) {
      SplitStops(f, stream, n);
      ContinuesNothing(f, stream, more, m, Split(f, stream + more, m));
    } else {
      SplitContinues(f, stream[r.total..], more, n - 1, m - 1);
      FrontGrows(f, stream, more, r);
      ContinuesFront(f, stream, stream + more, stream[r.total..], more, n, m, r);
    }
  }

  lemma ContinuesNothing(f: Format, stream: bytes, more: bytes, m: nat, whole: (seq<bytes>, bytes))
    requires whole == Split(f, stream + more, m)
    ensures Continues(f, ([], stream), more, m, whole)
  {
    assert [] + whole.0 == whole.0;
  }

  lemma ContinuesFront(f: Format, stream: bytes, longer: bytes, tail: bytes, more: bytes, n: nat, m: nat, r: Front)
    requires 0 < n <= m && r == f.front(stream) == f.front(longer) && Fits(r, stream) && Fits(r, longer)
    requires tail == stream[r.total..] && tail + more == longer[r.total..] && Payload(stream, r) == Payload(longer, r)
    requires Continues(f, Split(f, tail, n - 1), more, m - 1, Split(f, tail + more, m - 1))
    ensures Continues(f, Split(f, stream, n), more, m, Split(f, longer, m))
  {
    ContinuesCons(f, Payload(stream, r), Split(f, tail, n - 1), more, m - 1, Split(f, tail + more, m - 1));
    SplitStep(f, stream, n, r);
    SplitStep(f, longer, m, r);
  }

  /** Sent frames come back, in order. */
  lemma {:induction false} SplitSent(f: Format, frames: seq<bytes>, tail: bytes, n: nat)
    requires Accepting(f) && |frames| <= n && forall i :: 0 <= i < |frames| ==> f.sendable(frames[i])
    ensures frames <= Split(f, Wire(f, frames, tail), n).0
    decreases n
  {
    if frames == [] {
    } else {
      var others := frames[1..];
      SplitSent(f, others, tail, n - 1);
      SentFirst(f, frames[0], Wire(f, others, tail), n);
      assert frames == [frames[0]] + others;
    }
  }

  lemma SentFirst(f: Format, payload: bytes, more: bytes, n: nat)
    requires Accepting(f) && f.sendable(payload) && n > 0
    ensures Split(f, f.encode(payload) + more, n).0 == [payload] + Split(f, more, n - 1).0
  {
    var stream := f.encode(payload) + more;
    assert Recognised(f, payload, more);
    SplitStep(f, stream, n, f.front(stream));
  }

  // ----- The channel -----

  datatype Failure = TooLarge | InvalidLength | Closed

  /** What a reader's promise settles with. */
  datatype Outcome = Delivered(frame: bytes) | Rejected(failure: Failure)

  datatype Channel = Channel(buffer: bytes, pending: seq<nat>, settled: map<nat, Outcome>, calls: nat,
                             failure: Option<Failure>)

  const NEW_CHANNEL := Channel([], [], map[], 0, None)

  function RejectAll(pending: seq<nat>, e: Failure): map<nat, Outcome> {
    map id | id in pending :: Rejected(e)
  }

  /** `fail`: the first failure rejects every waiting reader and drops the buffer. */
  function Fail(c: Channel, e: Failure): Channel {
    if c.failure.Some? then c
    else Channel([], [], c.settled + RejectAll(c.pending, e), c.calls, Some(e))
  }

  /** One turn of the drain loop. */
  function Deliver(c: Channel, r: Front): Channel
    requires c.pending != [] && Fits(r, c.buffer)
  {
    c.(buffer := c.buffer[r.total..], pending := c.pending[1..],
       settled := c.settled[c.pending[0] := Delivered(Payload(c.buffer, r))])
  }

  /** `drain`: hand complete frames to waiting readers. */
  function Drain(f: Format, c: Channel): Channel
    decreases |c.pending|
  {
    if c.pending == [] then c
    else
      var r := f.front(c.buffer);
      if r.BadLength? then Fail(c, InvalidLength)
      else if Fits(r, c.buffer) then Drain(f, Deliver(c, r))
      else c
  }

  /** `read` */
  function Read(f: Format, c: Channel): Channel {
    match c.failure
    case Some(e) => c.(settled := c.settled[c.calls := Rejected(e)], calls := c.calls + 1)
    case None => Drain(f, c.(pending := c.pending + [c.calls], calls := c.calls + 1))
  }

  /** `onData`.  After a failure the bytes are still appended, and never dropped again. */
  function Receive(f: Format, c: Channel, chunk: bytes): Channel {
    var d := c.(buffer := c.buffer + chunk);
    if |d.buffer| > f.limit then Fail(d, TooLarge) else Drain(f, d)
  }

  // ----- Every interleaving of chunks and reads -----

  datatype Event = Data(chunk: bytes) | ReadCall | Close

  function Step(f: Format, c: Channel, e: Event): Channel {
    match e
    case Data(chunk) => Receive(f, c, chunk)
    case ReadCall => Read(f, c)
    case Close => Fail(c, Closed)
  }

  function Run(f: Format, events: seq<Event>): Channel {
    if events == [] then NEW_CHANNEL else Step(f, Run(f, events[..|events| - 1]), events[|events| - 1])
  }

  /** All bytes received, whatever the chunks were. */
  function Received(events: seq<Event>): bytes {
    if events == [] then []
    else
      var e := events[|events| - 1];
      Received(events[..|events| - 1]) + (if e.Data? then e.chunk else [])
  }

  function Reads(events: seq<Event>): nat {
    if events == [] then 0
    else Reads(events[..|events| - 1]) + (if events[|events| - 1].ReadCall? then 1 else 0)
  }

  /** Reader `i` got frame `i`; the readers behind the delivered frames wait in call order, and only
      while no complete frame is buffered. */
  ghost predicate Matches(c: Channel, frames: seq<bytes>) {
    && |frames| <= c.calls
    && (forall i :: i in c.settled <==> 0 <= i < |frames|)
    && (forall i :: 0 <= i < |frames| ==> i in c.settled && c.settled[i] == Delivered(frames[i]))
    && |c.pending| == c.calls - |frames|
    && (forall j :: 0 <= j < |c.pending| ==> c.pending[j] == |frames| + j)
  }

  ghost predicate Settled(f: Format, c: Channel) {
    c.pending != [] ==> f.front(c.buffer).NeedMore?
  }

  ghost predicate Drained(f: Format, c: Channel, d: Channel, frames: seq<bytes>) {
    var (more, rest) := Split(f, c.buffer, |c.pending|);
    d.buffer == rest && d.calls == c.calls && Matches(d, frames + more) && Settled(f, d)
  }

  lemma DrainStep(f: Format, c: Channel, r: Front)
    requires c.pending != [] && r == f.front(c.buffer) && Fits(r, c.buffer)
    ensures Drain(f, c) == Drain(f, Deliver(c, r))
  {
  }

  lemma DrainStops(f: Format, c: Channel)
    requires Bounded(f) && c.failure.None? && Drain(f, c).failure.None?
    requires c.pending == [] || !Fits(f.front(c.buffer), c.buffer)
    ensures Drain(f, c) == c && Settled(f, c)
  {
  }

  lemma DrainedStep(f: Format, c: Channel, r: Front, d: Channel, frames: seq<bytes>)
    requires c.pending != [] && r == f.front(c.buffer) && Fits(r, c.buffer)
    requires Drained(f, Deliver(c, r), d, frames + [Payload(c.buffer, r)])
    ensures Drained(f, c, d, frames)
  {
    SplitStep(f, c.buffer, |c.pending|, r);
    var more := Split(f, c.buffer[r.total..], |c.pending| - 1).0;
    AppendCons(frames, Payload(c.buffer, r), more);
  }

  lemma AppendCons(a: seq<bytes>, x: bytes, b: seq<bytes>)
    ensures a + [x] + b == a + ([x] + b)
  {
  }

  lemma {:induction false} DrainSplits(f: Format, c: Channel, frames: seq<bytes>)
    requires Bounded(f) && c.failure.None? && Matches(c, frames) && Drain(f, c).failure.None?
    ensures Drained(f, c, Drain(f, c), frames)
    decreases |c.pending|
  {
    var r := f.front(c.buffer);
    if c.pending == [] || !Fits(r, c.buffer) {
      DrainStops(f, c);
      SplitStops(f, c.buffer, |c.pending|);
      assert frames + [] == frames;
    } else {
      MatchesNext(c, Deliver(c, r), frames, Payload(c.buffer, r));
      DrainStep(f, c, r);
      DrainSplits(f, Deliver(c, r), frames + [Payload(c.buffer, r)]);
      DrainedStep(f, c, r, Drain(f, c), frames);
    }
  }

  lemma MatchesNext(c: Channel, d: Channel, frames: seq<bytes>, payload: bytes)
    requires Matches(c, frames) && c.pending != []
    requires d.calls == c.calls && d.pending == c.pending[1..]
             && d.settled == c.settled[c.pending[0] := Delivered(payload)]
    ensures Matches(d, frames + [payload])
  {
    assert c.pending[0] == |frames|;
  }

  lemma FailedStaysFailed(f: Format, c: Channel, e: Event)
    requires c.failure.Some?
    ensures Step(f, c, e).failure == c.failure
  {
    if e.Data? { DrainFailed(f, c.(buffer := c.buffer + e.chunk)); }
  }

  lemma {:induction false} DrainFailed(f: Format, c: Channel)
    ensures c.failure.Some? ==> Drain(f, c).failure == c.failure
    decreases |c.pending|
  {
    if c.pending == [] || !Fits(f.front(c.buffer), c.buffer) {
    } else {
      DrainFailed(f, Deliver(c, f.front(c.buffer)));
    }
  }

  /** The state of a channel that was given `stream`. */
  ghost predicate Follows(f: Format, c: Channel, stream: bytes) {
    var (frames, rest) := Split(f, stream, c.calls);
    c.failure.None? && c.buffer == rest && Matches(c, frames) && Settled(f, c)
  }

  lemma DataFollows(f: Format, c: Channel, chunk: bytes, stream: bytes)
    requires Bounded(f) && Stable(f) && Follows(f, c, stream) && Receive(f, c, chunk).failure.None?
    ensures Receive(f, c, chunk).calls == c.calls && Follows(f, Receive(f, c, chunk), stream + chunk)
  {
    var frames := Split(f, stream, c.calls).0;
    SplitContinues(f, stream, chunk, c.calls, c.calls);
    DrainSplits(f, c.(buffer := c.buffer + chunk), frames);
  }

  lemma ReadFollows(f: Format, c: Channel, stream: bytes)
    requires Bounded(f) && Stable(f) && Follows(f, c, stream) && Read(f, c).failure.None?
    ensures Read(f, c).calls == c.calls + 1 && Follows(f, Read(f, c), stream)
  {
    var (frames, rest) := Split(f, stream, c.calls);
    assert stream + [] == stream && rest + [] == rest;
    SplitContinues(f, stream, [], c.calls, c.calls + 1);
    DrainSplits(f, c.(pending := c.pending + [c.calls], calls := c.calls + 1), frames);
  }

  lemma {:induction false} RunFollows(f: Format, events: seq<Event>)
    requires Bounded(f) && Stable(f) && Run(f, events).failure.None?
    ensures Run(f, events).calls == Reads(events) && Follows(f, Run(f, events), Received(events))
    decreases |events|
  {
    if events == [] {
    } else {
      var before, e := events[..|events| - 1], events[|events| - 1];
      var c := Run(f, before);
      if c.failure.Some? { FailedStaysFailed(f, c, e); }
      RunFollows(f, before);
      match e
      case Data(chunk) => DataFollows(f, c, chunk, Received(before));
      case ReadCall => assert Received(before) + [] == Received(before); ReadFollows(f, c, Received(before));
      case Close =>
    }
  }

  /** What the channel has done depends only on the bytes and the number of reads, not on how they
      were interleaved: the i-th read settled with the i-th frame of the byte stream, the buffer
      holds exactly the bytes behind the delivered frames, and nobody waits for a buffered frame. */
  lemma RunIsSplit(f: Format, events: seq<Event>)
    requires Lawful(f) && Run(f, events).failure.None?
    ensures var c := Run(f, events);
            var (frames, rest) := Split(f, Received(events), Reads(events));
            c.calls == Reads(events) && c.buffer == rest && Matches(c, frames) && Settled(f, c)
  {
    RunFollows(f, events);
  }

  /** Messages written by a peer reach the readers in order, however the bytes are cut into chunks
      and however reads are interleaved with them. */
  lemma WrittenMessagesAreRead(f: Format, events: seq<Event>, messages: seq<bytes>, tail: bytes, i: nat)
    requires Lawful(f) && Run(f, events).failure.None?
    requires forall k :: 0 <= k < |messages| ==> f.sendable(messages[k])
    requires Received(events) == Wire(f, messages, tail)
    requires i < |messages| && |messages| <= Reads(events)
    ensures i in Run(f, events).settled && Run(f, events).settled[i] == Delivered(messages[i])
  {
    RunIsSplit(f, events);
    SplitSent(f, messages, tail, Reads(events));
    var frames := Split(f, Received(events), Reads(events)).0;
    assert frames[i] == messages[i];
  }

  /** Delivered frames, encoded again, and the buffer are all the bytes received. */
  lemma NothingIsLost(f: Format, events: seq<Event>)
    requires Lawful(f) && Run(f, events).failure.None?
    ensures var frames := Split(f, Received(events), Reads(events)).0;
            Wire(f, frames, Run(f, events).buffer) == Received(events)
  {
    RunIsSplit(f, events);
    SplitConserves(f, Received(events), Reads(events));
  }

  // ----- When a channel fails -----

  /** A reader waits behind the frames of the stream, and what follows them can be no frame. */
  ghost predicate Hitch(f: Format, stream: bytes, n: nat) {
    Stuck(f, Split(f, stream, n), n)
  }

  ghost predicate Stuck(f: Format, split: (seq<bytes>, bytes), n: nat) {
    |split.0| < n && f.front(split.1).BadLength?
  }

  lemma {:induction false} DrainFailsExactly(f: Format, c: Channel)
    requires Bounded(f) && c.failure.None?
    ensures Drain(f, c).failure.Some? <==> Hitch(f, c.buffer, |c.pending|)
    decreases |c.pending|
  {
    var r := f.front(c.buffer);
    if c.pending == [] || !Fits(r, c.buffer) {
      SplitStops(f, c.buffer, |c.pending|);
    } else {
      SplitStep(f, c.buffer, |c.pending|, r);
      DrainStep(f, c, r);
      DrainFailsExactly(f, Deliver(c, r));
    }
  }

  /** A hitch behind the delivered frames is a hitch of the whole stream. */
  lemma StuckContinues(f: Format, split: (seq<bytes>, bytes), more: bytes, m: nat, whole: (seq<bytes>, bytes))
    requires Continues(f, split, more, m, whole)
    ensures Hitch(f, split.1 + more, m - |split.0|) <==> Stuck(f, whole, m)
  {
  }

  /** Bytes that have arrived and belong to no frame that was read. */
  function Undelivered(f: Format, events: seq<Event>): bytes { Split(f, Received(events), Reads(events)).1 }

  /** The event lets the channel go on: it is not the end, a chunk leaves no more undelivered bytes than
      the limit, and no reader waits for an impossible frame. */
  ghost predicate Accepts(f: Format, before: seq<Event>, e: Event) {
    match e
    case Close => false
    case Data(chunk) =>
      |Undelivered(f, before)| + |chunk| <= f.limit && !Hitch(f, Received(before) + chunk, Reads(before))
    case ReadCall => !Hitch(f, Received(before), Reads(before) + 1)
  }

  lemma DataFailsExactly(f: Format, c: Channel, chunk: bytes, stream: bytes)
    requires Bounded(f) && Stable(f) && Follows(f, c, stream)
    ensures Receive(f, c, chunk).failure.None?
       <==> |c.buffer| + |chunk| <= f.limit && !Hitch(f, stream + chunk, c.calls)
  {
    var split := Split(f, stream, c.calls);
    SplitContinues(f, stream, chunk, c.calls, c.calls);
    StuckContinues(f, split, chunk, c.calls, Split(f, stream + chunk, c.calls));
    DrainFailsExactly(f, c.(buffer := c.buffer + chunk));
  }

  lemma ReadFailsExactly(f: Format, c: Channel, stream: bytes)
    requires Bounded(f) && Stable(f) && Follows(f, c, stream)
    ensures Read(f, c).failure.None? <==> !Hitch(f, stream, c.calls + 1)
  {
    var split := Split(f, stream, c.calls);
    assert stream + [] == stream && split.1 + [] == split.1;
    SplitContinues(f, stream, [], c.calls, c.calls + 1);
    StuckContinues(f, split, [], c.calls + 1, Split(f, stream, c.calls + 1));
    DrainFailsExactly(f, c.(pending := c.pending + [c.calls], calls := c.calls + 1));
  }

  lemma StepFailsExactly(f: Format, before: seq<Event>, e: Event)
    requires Bounded(f) && Stable(f) && Run(f, before).failure.None?
    ensures Step(f, Run(f, before), e).failure.None? <==> Accepts(f, before, e)
  {
    RunFollows(f, before);
    match e
    case Close =>
    case Data(chunk) => DataFailsExactly(f, Run(f, before), chunk, Received(before));
    case ReadCall => ReadFailsExactly(f, Run(f, before), Received(before));
  }

  ghost predicate AllAccepted(f: Format, events: seq<Event>) {
    forall k :: 0 <= k < |events| ==> Accepts(f, events[..k], events[k])
  }

  lemma AcceptedNext(f: Format, before: seq<Event>, e: Event)
    ensures AllAccepted(f, before + [e]) <==> AllAccepted(f, before) && Accepts(f, before, e)
  {
    var events := before + [e];
    forall k | 0 <= k < |before| ensures events[..k] == before[..k] && events[k] == before[k] {}
    assert events[..|before|] == before && events[|before|] == e;
  }

  /** For every sequence of events, the channel is alive exactly when each event was acceptable. */
  lemma {:induction false} ChannelFailsExactly(f: Format, events: seq<Event>)
    requires Bounded(f) && Stable(f)
    ensures Run(f, events).failure.None? <==> AllAccepted(f, events)
    decreases |events|
  {
    if events == [] {
    } else {
      var before, e := events[..|events| - 1], events[|events| - 1];
      ChannelFailsExactly(f, before);
      AcceptedNext(f, before, e);
      assert before + [e] == events;
      if Run(f, before).failure.None? {
        StepFailsExactly(f, before, e);
      } else {
        FailedStaysFailed(f, Run(f, before), e);
      }
    }
  }

  lemma WrittenFront(f: Format, stream: bytes, payload: bytes, more: bytes)
    requires Stable(f) && Accepting(f) && f.sendable(payload) && stream <= f.encode(payload) + more
    ensures !f.front(stream).BadLength?
    ensures Fits(f.front(stream), stream) ==> stream[f.front(stream).total..] <= more
  {
    var r, whole := f.front(stream), f.encode(payload) + more;
    assert Recognised(f, payload, more);
    var rest := whole[|stream|..];
    assert whole == stream + rest;
    assert !r.NeedMore? ==> f.front(stream + rest) == r;
  }

  /** A stream of written messages, cut off anywhere, never holds an impossible frame. */
  lemma {:induction false} WrittenHasNoHitch(f: Format, stream: bytes, messages: seq<bytes>, n: nat)
    requires Lawful(f) && stream <= Wire(f, messages, []) && forall k :: 0 <= k < |messages| ==> f.sendable(messages[k])
    ensures !Hitch(f, stream, n)
    decreases n
  {
    var r := f.front(stream);
    if messages == [] {
      SplitStops(f, stream, n);
    } else {
      WrittenFront(f, stream, messages[0], Wire(f, messages[1..], []));
      if n == 0 || !Fits(r, stream) {
        SplitStops(f, stream, n);
      } else {
        SplitStep(f, stream, n, r);
        WrittenHasNoHitch(f, stream[r.total..], messages[1..], n - 1);
      }
    }
  }

  /** No end, and no chunk that leaves more undelivered bytes than the limit. */
  ghost predicate Uncrowded(f: Format, events: seq<Event>) {
    forall k :: 0 <= k < |events| ==> Fitting(f, events[..k], events[k])
  }

  ghost predicate Fitting(f: Format, before: seq<Event>, e: Event) {
    !e.Close? && (e.Data? ==> |Undelivered(f, before)| + |e.chunk| <= f.limit)
  }

  lemma WrittenIsAccepted(f: Format, before: seq<Event>, e: Event, messages: seq<bytes>)
    requires Lawful(f) && forall k :: 0 <= k < |messages| ==> f.sendable(messages[k])
    requires Received(before) <= Wire(f, messages, []) && Received(before + [e]) <= Wire(f, messages, [])
    ensures Accepts(f, before, e) <==> Fitting(f, before, e)
  {
    RunNext(f, before, e);
    match e
    case Close =>
    case Data(chunk) => WrittenHasNoHitch(f, Received(before) + chunk, messages, Reads(before));
    case ReadCall => WrittenHasNoHitch(f, Received(before), messages, Reads(before) + 1);
  }

  lemma {:induction false} ReceivedPrefix(events: seq<Event>, k: nat)
    requires k <= |events|
    ensures Received(events[..k]) <= Received(events)
    decreases |events|
  {
    if k == |events| {
      assert events[..k] == events;
    } else {
      ReceivedPrefix(events[..|events| - 1], k);
      assert events[..|events| - 1][..k] == events[..k];
    }
  }

  /** What the receiver is sent is written messages, possibly cut off: then the channel fails exactly at
      its end or at a chunk that leaves too much undelivered. */
  lemma WrittenTrafficFailsExactly(f: Format, events: seq<Event>, messages: seq<bytes>, missing: bytes)
    requires Lawful(f) && forall k :: 0 <= k < |messages| ==> f.sendable(messages[k])
    requires Received(events) + missing == Wire(f, messages, [])
    ensures Run(f, events).failure.None? <==> Uncrowded(f, events)
  {
    ChannelFailsExactly(f, events);
    forall k | 0 <= k < |events| ensures Accepts(f, events[..k], events[k]) <==> Fitting(f, events[..k], events[k]) {
      WrittenEvent(f, events, messages, missing, k);
    }
  }

  lemma WrittenEvent(f: Format, events: seq<Event>, messages: seq<bytes>, missing: bytes, k: nat)
    requires Lawful(f) && (forall k :: 0 <= k < |messages| ==> f.sendable(messages[k])) && k < |events|
    requires Received(events) + missing == Wire(f, messages, [])
    ensures Accepts(f, events[..k], events[k]) <==> Fitting(f, events[..k], events[k])
  {
    ReceivedPrefix(events, k);
    ReceivedPrefix(events, k + 1);
    PrefixOfPrefix(Received(events[..k]), Received(events), missing);
    PrefixOfPrefix(Received(events[..k + 1]), Received(events), missing);
    assert events[..k] + [events[k]] == events[..k + 1];
    WrittenIsAccepted(f, events[..k], events[k], messages);
  }

  lemma PrefixOfPrefix(a: bytes, b: bytes, more: bytes)
    requires a <= b
    ensures a <= b + more
  {
  }

  /** Hence all messages reach the readers, in order, on a condition that speaks of the traffic alone. */
  lemma WrittenTrafficArrives(f: Format, events: seq<Event>, messages: seq<bytes>, i: nat)
    requires Lawful(f) && forall k :: 0 <= k < |messages| ==> f.sendable(messages[k])
    requires Received(events) == Wire(f, messages, []) && Uncrowded(f, events)
    requires i < |messages| <= Reads(events)
    ensures i in Run(f, events).settled && Run(f, events).settled[i] == Delivered(messages[i])
  {
    assert Received(events) + [] == Received(events);
    WrittenTrafficFailsExactly(f, events, messages, []);
    WrittenMessagesAreRead(f, events, messages, [], i);
  }

  // ----- What a failed channel holds -----

  lemma {:induction false} DrainClears(f: Format, c: Channel)
    requires c.failure.None? && Drain(f, c).failure.Some?
    ensures Drain(f, c).buffer == [] && Drain(f, c).pending == []
    decreases |c.pending|
  {
    if !Fits(f.front(c.buffer), c.buffer) {
    } else {
      DrainClears(f, Deliver(c, f.front(c.buffer)));
    }
  }

  lemma FailingClears(f: Format, c: Channel, e: Event)
    requires c.failure.None? && Step(f, c, e).failure.Some?
    ensures Step(f, c, e).buffer == [] && Step(f, c, e).pending == []
  {
    match e
    case Data(chunk) => if |c.buffer + chunk| <= f.limit { DrainClears(f, c.(buffer := c.buffer + chunk)); }
    case ReadCall => DrainClears(f, c.(pending := c.pending + [c.calls], calls := c.calls + 1));
    case Close =>
  }

  lemma FailedStep(f: Format, c: Channel, e: Event)
    requires c.failure.Some? && c.pending == []
    ensures var d := Step(f, c, e);
            d.failure == c.failure && d.pending == [] && d.buffer == c.buffer + (if e.Data? then e.chunk else [])
  {
    assert c.buffer + [] == c.buffer;
  }

  lemma RunNext(f: Format, before: seq<Event>, e: Event)
    ensures Run(f, before + [e]) == Step(f, Run(f, before), e)
    ensures Received(before + [e]) == Received(before) + (if e.Data? then e.chunk else [])
  {
    assert (before + [e])[..|before|] == before;
  }

  lemma {:induction false} FailedRun(f: Format, failed: seq<Event>, later: seq<Event>)
    requires Run(f, failed).failure.Some? && Run(f, failed).pending == [] && Run(f, failed).buffer == []
    ensures var c := Run(f, failed + later);
            c.failure == Run(f, failed).failure && c.pending == [] && c.buffer == Received(later)
    decreases |later|
  {
    if later == [] {
      assert failed + later == failed;
    } else {
      var before, e := later[..|later| - 1], later[|later| - 1];
      FailedRun(f, failed, before);
      FailedNext(f, failed, before, e);
      assert before + [e] == later;
    }
  }

  lemma FailedNext(f: Format, failed: seq<Event>, before: seq<Event>, e: Event)
    requires var c := Run(f, failed + before);
             c.failure.Some? && c.pending == [] && c.buffer == Received(before)
    ensures var c := Run(f, failed + (before + [e]));
            c.failure == Run(f, failed + before).failure && c.pending == [] && c.buffer == Received(before + [e])
  {
    RunNext(f, failed + before, e);
    RunNext(f, before, e);
    assert failed + before + [e] == failed + (before + [e]);
    FailedStep(f, Run(f, failed + before), e);
  }

  /** In every run, a channel whose first failure is event `k` holds exactly the bytes that arrived after
      it, and nobody waits: it keeps appending, without a limit. */
  lemma FailedChannelKeepsLaterBytes(f: Format, events: seq<Event>, k: nat)
    requires k < |events| && Run(f, events[..k]).failure.None? && Run(f, events[..k + 1]).failure.Some?
    ensures var c := Run(f, events);
            c.failure == Run(f, events[..k + 1]).failure && c.pending == [] && c.buffer == Received(events[k + 1..])
  {
    RunNext(f, events[..k], events[k]);
    assert events[..k] + [events[k]] == events[..k + 1];
    FailingClears(f, Run(f, events[..k]), events[k]);
    FailedRun(f, events[..k + 1], events[k + 1..]);
    assert events[..k + 1] + events[k + 1..] == events;
  }

  lemma {:induction false} DrainShrinks(f: Format, c: Channel)
    ensures |Drain(f, c).buffer| <= |c.buffer|
    decreases |c.pending|
  {
    if c.pending == [] || !Fits(f.front(c.buffer), c.buffer) {
    } else {
      DrainShrinks(f, Deliver(c, f.front(c.buffer)));
    }
  }

  lemma StepBounded(f: Format, c: Channel, e: Event)
    requires Step(f, c, e).failure.None? && (c.failure.None? ==> |c.buffer| <= f.limit)
    ensures |Step(f, c, e).buffer| <= f.limit
  {
    if c.failure.Some? {
      FailedStaysFailed(f, c, e);
    } else {
      match e
      case Data(chunk) => DrainShrinks(f, c.(buffer := c.buffer + chunk));
      case ReadCall => DrainShrinks(f, c.(pending := c.pending + [c.calls], calls := c.calls + 1));
      case Close =>
    }
  }

  /** A channel that has not failed stays within the limit. */
  lemma {:induction false} LiveChannelIsBounded(f: Format, events: seq<Event>)
    ensures Run(f, events).failure.None? ==> |Run(f, events).buffer| <= f.limit
    decreases |events|
  {
    if events == [] || Run(f, events).failure.Some? {
    } else {
      var before, e := events[..|events| - 1], events[|events| - 1];
      LiveChannelIsBounded(f, before);
      StepBounded(f, Run(f, before), e);
    }
  }

  /** So the buffer of a run stays within the limit exactly when the channel is alive or no more than that
      arrived after its first failure; any amount can. */
  lemma BufferIsBoundedExactly(f: Format, events: seq<Event>, k: nat, chunk: bytes)
    requires k < |events| && Run(f, events[..k]).failure.None?
    ensures Run(f, events).failure.None? ==> |Run(f, events).buffer| <= f.limit
    ensures Run(f, events[..k + 1]).failure.Some? ==>
              (|Run(f, events).buffer| <= f.limit <==> |Received(events[k + 1..])| <= f.limit)
    ensures Run(f, [Close, Data(chunk)]).buffer == chunk
  {
    LiveChannelIsBounded(f, events);
    if Run(f, events[..k + 1]).failure.Some? { FailedChannelKeepsLaterBytes(f, events, k); }
    var two := [Close, Data(chunk)];
    assert two[..0] == [] && two[..1] == [Close] && two[1..] == [Data(chunk)] && [Close][..0] == [];
    FailedChannelKeepsLaterBytes(f, two, 0);
    assert [Data(chunk)][..0] == [] && [] + chunk == chunk;
  }

  // ----- The channel objects -----

  /** Zero a region in place (`frame.fill(0)`). */
  method Wipe(a: array<byte>, lo: nat, hi: nat)
    requires lo <= hi <= a.Length
    modifies a
    ensures forall i :: lo <= i < hi ==> a[i] == 0
    ensures forall i :: 0 <= i < a.Length && !(lo <= i < hi) ==> a[i] == old(a[i])
  {
    for i := lo to hi
      invariant forall j :: lo <= j < i ==> a[j] == 0
      invariant forall j :: 0 <= j < a.Length && !(lo <= j < i) ==> a[j] == old(a[j])
    {
      a[i] := 0;
    }
  }

  /** The buffer is a view into an allocated block: delivering a frame moves the view past the frame,
      and the frame's own bytes, which lie in the same block, are wiped. */
  class FrameChannel {
    const format: Format
    var store: array<byte>
    var start: nat
    var pending: seq<nat>
    var settled: map<nat, Outcome>
    var calls: nat
    var failure: Option<Failure>

    ghost predicate Valid()
      reads this
    {
      start <= store.Length && Bounded(format)
    }

    ghost function View(): Channel
      requires Valid()
      reads this, store
    {
      Channel(store[start..], pending, settled, calls, failure)
    }

    constructor (format: Format)
      requires Bounded(format)
      ensures Valid() && fresh(store) && this.format == format && View() == NEW_CHANNEL
    {
      this.format := format;
      store := new byte[0];
      start, pending, settled, calls, failure := 0, [], map[], 0, None;
    }

    method FailWith(e: Failure)
      requires Valid()
      modifies this, store
      ensures Valid() && (store == old(store) || fresh(store))
      ensures View() == Fail(old(View()), e)
      ensures old(failure).None? ==> forall i :: old(start) <= i < old(store).Length ==> old(store)[i] == 0
    {
      if failure.Some? { return; }
      failure := Some(e);
      settled := settled + RejectAll(pending, e);
      pending := [];
      Wipe(store, start, store.Length);
      store := new byte[0];
      start := 0;
    }

    /** Hand the frame at the front to the first waiting reader, and wipe it. */
    method DeliverFrame(r: Front)
      requires Valid() && pending != []
      requires Fits(r, store[start..])
      modifies this, store
      ensures Valid() && store == old(store)
      ensures View() == Deliver(old(View()), r)
      ensures forall i :: old(start) + r.skip <= i < old(start) + r.skip + r.size ==> store[i] == 0
    {
      var lo := start + r.skip;
      var frame := store[lo..lo + r.size];
      ghost var before := store[start..];
      assert frame == before[r.skip..r.skip + r.size];
      start := start + r.total;
      settled := settled[pending[0] := Delivered(frame)];
      pending := pending[1..];
      Wipe(store, lo, lo + r.size);
      assert store[start..] == before[r.total..];
    }

    method DrainFrames()
      requires Valid()
      modifies this, store
      ensures Valid() && (store == old(store) || fresh(store))
      ensures View() == Drain(format, old(View()))
    {
      while |pending| > 0
        invariant Valid() && store == old(store)
        invariant Drain(format, View()) == Drain(format, old(View()))
        decreases |pending|
      {
        var r := format.front(store[start..]);
        if r.NeedMore? { return; }
        if r.BadLength? {
          FailWith(InvalidLength);
          return;
        }
        DrainStep(format, View(), r);
        DeliverFrame(r);
      }
    }

    method ReadNext() returns (id: nat)
      requires Valid()
      modifies this, store
      ensures Valid() && (store == old(store) || fresh(store))
      ensures id == old(calls) && View() == Read(format, old(View()))
    {
      id := calls;
      calls := calls + 1;
      if failure.Some? {
        settled := settled[id := Rejected(failure.value)];
      } else {
        pending := pending + [id];
        DrainFrames();
      }
    }

    method OnData(chunk: bytes)
      requires Valid()
      modifies this, store
      ensures Valid() && (store == old(store) || fresh(store))
      ensures View() == Receive(format, old(View()), chunk)
    {
      var joined := store[start..] + chunk;
      store := new byte[|joined|](i requires 0 <= i < |joined| => joined[i]);
      start := 0;
      assert store[..] == joined;
      if store.Length > format.limit {
        FailWith(TooLarge);
      } else {
        DrainFrames();
      }
    }
  }

  // ----- Framing of the native host -----

  datatype FramingError = InvalidFrame | Transport

  /** A byte stream that ends after `left`. */
  class ByteStream {
    var left: bytes

    constructor (left: bytes)
      ensures this.left == left
    {
      this.left := left;
    }

    method ReadExact(n: nat) returns (r: Option<bytes>)
      modifies this
      ensures n <= |old(left)| ==> r == Some(old(left)[..n]) && left == old(left)[n..]
      ensures n > |old(left)| ==> r == None && left == []
    {
      if n <= |left| {
        r := Some(left[..n]);
        left := left[n..];
      } else {
        r := None;
        left := [];
      }
    }

    method WriteAll(b: bytes)
      modifies this
      ensures left == old(left) + b
    {
      left := left + b;
    }
  }

  /** `read_message`, up to JSON decoding: it accepts exactly the frames that the channel accepts. */
  method ReadMessage(input: ByteStream) returns (r: Result<bytes, FramingError>)
    modifies input
    ensures var b := old(input.left);
            match NativeFront(b)
            case NeedMore => r == Result.Failure(Transport)
            case BadLength => r == Result.Failure(InvalidFrame)
            case Complete(skip, size, total) =>
              r == Success(b[skip..skip + size]) && input.left == b[total..]
  {
    var header := input.ReadExact(4);
    if header.None? { return Result.Failure(Transport); }
    var length := LittleEndian(header.value);
    if length == 0 || length > MAX_NATIVE_BYTES { return Result.Failure(InvalidFrame); }
    ghost var rest := input.left;
    var body := input.ReadExact(length);
    assert length <= |rest| ==> rest[..length] == old(input.left)[4..4 + length]
                                && rest[length..] == old(input.left)[length + 4..];
    if body.None? { return Result.Failure(Transport); }
    return Success(body.value);
  }

  /** `write_message` after serialisation. */
  method WriteMessage(output: ByteStream, message: bytes) returns (r: Result<(), FramingError>)
    modifies output
    ensures if NativeSendable(message) then r == Success(()) && output.left == old(output.left) + NativeEncode(message)
            else r == Result.Failure(InvalidFrame) && output.left == old(output.left)
  {
    if |message| == 0 || |message| > MAX_NATIVE_BYTES { return Result.Failure(InvalidFrame); }
    output.WriteAll(ToLittleEndian(|message|, 4));
    output.WriteAll(message);
    return Success(());
  }
}
