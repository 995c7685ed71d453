/** Waiting for a pending grant: `resolveWaitPolicy` and `awaitGrant` of
    `src/credential/await-grant.ts`, and the schedule that `SemanticVectors.cs` replays.

    Time is counted in whole milliseconds.  What the backend answers, what the wall clock says and
    when the caller cancels are arguments.
 */
module GrantWait {
  import opened Bytes

  // ----- Policy -----

  datatype Policy = Policy(waitMs: nat, pollMs: nat, heartbeatMs: nat, pollTimeoutMs: nat)

  datatype PolicyError = InvalidWait | WaitTooLong

  function Max(a: int, b: int): int { if a < b then b else a }
  function Min(a: int, b: int): int { if a < b then a else b }
  function Or(a: Option<int>, b: int): int { if a.Some? then a.value else b }

  /** Command line over backend hint over default. */
  function ResolvePolicy(cliWait: Option<int>, cliPoll: Option<int>, hintWait: Option<int>, hintPoll: Option<int>)
    : (r: Result<Policy, PolicyError>)
    ensures r.Success? ==> Sound(r.value)
    ensures r.Success? <==> 0 <= Or(cliWait, Or(hintWait, 180_000)) <= 300_000
  {
    var waitMs := Or(cliWait, Or(hintWait, 180_000));
    if waitMs < 0 then Failure(InvalidWait)
    else if waitMs > 300_000 then Failure(WaitTooLong)
    else
      var pollMs := Max(5_000, Or(cliPoll, Or(hintPoll, 30_000)));
      var heartbeatMs := Max(1_000, Min(10_000, pollMs));
      Success(Policy(waitMs, pollMs, heartbeatMs, Min(10_000, heartbeatMs)))
  }

  /** What every resolved policy satisfies. */
  predicate Sound(p: Policy) {
    && p.waitMs <= 300_000 && p.pollMs >= 5_000
    && 1_000 <= p.heartbeatMs <= p.pollMs && p.heartbeatMs <= 10_000
    && p.pollTimeoutMs <= p.heartbeatMs
  }

  /** What is chosen: the command line before the backend's hint before the default.  A poll interval of at
      least five seconds is taken as it is; heartbeats come every ten seconds, or as often as polls if these
      are more frequent; and one poll may not outlast a heartbeat. */
  lemma PolicyIsChosen(cliWait: Option<int>, cliPoll: Option<int>, hintWait: Option<int>, hintPoll: Option<int>)
    requires ResolvePolicy(cliWait, cliPoll, hintWait, hintPoll).Success?
    ensures var p := ResolvePolicy(cliWait, cliPoll, hintWait, hintPoll).value;
            && (cliWait.Some? ==> p.waitMs == cliWait.value)
            && (cliWait.None? && hintWait.Some? ==> p.waitMs == hintWait.value)
            && (cliWait.None? && hintWait.None? ==> p.waitMs == 180_000)
            && (cliPoll.Some? ==> p.pollMs == if cliPoll.value >= 5_000 then cliPoll.value else 5_000)
            && (cliPoll.None? && hintPoll.Some? ==>
                  p.pollMs == if hintPoll.value >= 5_000 then hintPoll.value else 5_000)
            && (cliPoll.None? && hintPoll.None? ==> p.pollMs == 30_000)
            && p.heartbeatMs == (if p.pollMs >= 10_000 then 10_000 else p.pollMs) && p.pollTimeoutMs == p.heartbeatMs
  {
  }

  // ----- The environment -----

  datatype Access = Pending(grantId: Option<string>) | Answer(text: string)

  datatype Reply = TimedOut | Threw | Replied(access: Access)

  datatype Abort = Never | BeforeSleep | DuringSleep

  /** The reply to the k-th poll, the wall clock before it, and cancellation in the k-th turn. */
  datatype Env = Env(reply: nat -> Reply, wall: nat -> int, abort: nat -> Abort)

  datatype Event =
    | Slept(ms: nat)
    | Beat(at: nat, grantId: Option<string>, scheduled: bool)
    | Polled(at: nat, timeoutMs: nat)

  datatype Outcome = Returned(access: Access) | Cancelled | Failed

  // ----- The schedule -----

  /** p + p + ... + p, k times. */
  function Multiple(p: nat, k: nat): nat {
    if k == 0 then 0 else p + Multiple(p, k - 1)
  }

  datatype State = State(waited: nat, nextPoll: nat, nextBeat: nat, turns: nat, polls: nat, beats: nat, last: Access,
                         grantId: Option<string>)

  function Start(p: Policy, initial: Access): (s: State)
    ensures p.pollMs > 0 && p.heartbeatMs > 0 ==> OnGrid(p, s)
  {
    assert Multiple(p.pollMs, 1) == p.pollMs + Multiple(p.pollMs, 0);
    assert Multiple(p.heartbeatMs, 1) == p.heartbeatMs + Multiple(p.heartbeatMs, 0);
    State(0, p.pollMs, p.heartbeatMs, 0, 0, 0, initial, GrantOf(initial, None))
  }

  function GrantOf(a: Access, before: Option<string>): Option<string> {
    if a.Pending? && a.grantId.Some? then a.grantId else before
  }

  /** The next poll and the next heartbeat lie ahead, on their grids. */
  ghost predicate OnGrid(p: Policy, s: State) {
    && p.pollMs > 0 && p.heartbeatMs > 0
    && s.waited <= p.waitMs && s.waited < s.nextPoll && s.waited < s.nextBeat
    && s.nextPoll == Multiple(p.pollMs, s.polls + 1) && s.nextBeat == Multiple(p.heartbeatMs, s.beats + 1)
    && s.nextPoll <= s.waited + p.pollMs && s.nextBeat <= s.waited + p.heartbeatMs
  }

  datatype Turn = Go(next: State) | Stop(outcome: Outcome)

  function WakeAt(p: Policy, s: State): nat { Min(Min(s.nextPoll, s.nextBeat), p.waitMs) }

  /** After the sleep: the heartbeat, if it is due. */
  function AfterBeat(p: Policy, s: State, now: nat): (seq<Event>, State) {
    if now >= s.nextBeat
    then ([Beat(now, s.grantId, true)], s.(waited := now, nextBeat := s.nextBeat + p.heartbeatMs, beats := s.beats + 1))
    else ([], s.(waited := now))
  }

  /** Then the poll, if it is due. */
  function AfterPoll(p: Policy, env: Env, s: State): (seq<Event>, Turn) {
    if s.waited < s.nextPoll then ([], Go(s))
    else
      var wallRemaining := p.waitMs - env.wall(s.polls);
      if wallRemaining <= 0 then ([], Stop(Returned(s.last)))
      else
        var poll := Polled(s.waited, Max(1, Min(Min(p.pollTimeoutMs, p.waitMs - s.waited), wallRemaining)));
        var next := s.(nextPoll := s.nextPoll + p.pollMs, polls := s.polls + 1);
        match env.reply(s.polls)
        case TimedOut => ([poll, Beat(s.waited, s.grantId, false)], Go(next))
        case Threw => ([poll], Stop(Failed))
        case Replied(access) =>
          if access.Answer? then ([poll], Stop(Returned(access)))
          else ([poll], Go(next.(last := access, grantId := GrantOf(access, s.grantId))))
  }

  /** One turn of the loop. */
  function TakeTurn(p: Policy, env: Env, s: State): (seq<Event>, Turn)
    requires s.waited <= WakeAt(p, s)
  {
    match env.abort(s.turns)
    case BeforeSleep => ([], Stop(Cancelled))
    case DuringSleep => ([], Stop(Cancelled))
    case Never =>
      var now := WakeAt(p, s);
      var (beat, t) := AfterBeat(p, s.(turns := s.turns + 1), now);
      var (poll, turn) := AfterPoll(p, env, t);
      ([Slept(now - s.waited)] + beat + poll, turn)
  }

  lemma TurnKeepsGrid(p: Policy, env: Env, s: State)
    requires OnGrid(p, s) && s.waited < p.waitMs
    ensures TakeTurn(p, env, s).1.Go? ==>
              var t := TakeTurn(p, env, s).1.next; OnGrid(p, t) && t.waited > s.waited
  {
  }

  /** The whole wait from a state on: everything that happens, and how it ends. */
  function Follow(p: Policy, env: Env, s: State): (seq<Event>, Outcome)
    requires OnGrid(p, s)
    decreases p.waitMs - s.waited
  {
    if s.waited >= p.waitMs then ([], Returned(s.last))
    else
      TurnKeepsGrid(p, env, s);
      var (events, turn) := TakeTurn(p, env, s);
      match turn
      case Stop(outcome) => (events, outcome)
      case Go(next) =>
        var (more, outcome) := Follow(p, env, next);
        (events + more, outcome)
  }

  lemma FollowEnds(p: Policy, env: Env, s: State)
    requires OnGrid(p, s) && s.waited >= p.waitMs
    ensures Follow(p, env, s) == ([], Returned(s.last))
  {
  }

  lemma FollowTurns(p: Policy, env: Env, s: State)
    requires OnGrid(p, s) && s.waited < p.waitMs
    ensures var (events, turn) := TakeTurn(p, env, s);
            && (turn.Stop? ==> Follow(p, env, s) == (events, turn.outcome))
            && (turn.Go? ==> OnGrid(p, turn.next) && turn.next.waited > s.waited
                             && Follow(p, env, s)
                                == (events + Follow(p, env, turn.next).0, Follow(p, env, turn.next).1))
  {
    TurnKeepsGrid(p, env, s);
  }

  /** The body of the `awaitGrant` loop. */
  method OneTurn(p: Policy, env: Env, s: State) returns (events: seq<Event>, turn: Turn, waited: nat)
    requires OnGrid(p, s) && s.waited < p.waitMs
    ensures (events, turn) == TakeTurn(p, env, s)
    ensures waited == if env.abort(s.turns) == Never then WakeAt(p, s) else s.waited
    ensures turn.Go? ==> waited == turn.next.waited
  {
    waited := s.waited;
    if env.abort(s.turns) != Never { return [], Stop(Cancelled), waited; }
    var t := s.(turns := s.turns + 1);
    var nextEvent := Min(Min(t.nextPoll, t.nextBeat), p.waitMs);
    events := [Slept(nextEvent - t.waited)];
    ghost var beaten := AfterBeat(p, t, nextEvent);
    t := t.(waited := nextEvent);
    waited := t.waited;
    if t.waited >= t.nextBeat {
      events := events + [Beat(t.waited, t.grantId, true)];
      t := t.(nextBeat := t.nextBeat + p.heartbeatMs, beats := t.beats + 1);
    }
    assert t == beaten.1 && events == [Slept(nextEvent - s.waited)] + beaten.0;
    assert events + [] == events;
    ghost var polled, awake := AfterPoll(p, env, t), events;
    if t.waited >= t.nextPoll {
      var wallRemaining := p.waitMs - env.wall(t.polls);
      if wallRemaining <= 0 { return events, Stop(Returned(t.last)), waited; }
      var timeoutMs := Max(1, Min(Min(p.pollTimeoutMs, p.waitMs - t.waited), wallRemaining));
      events := events + [Polled(t.waited, timeoutMs)];
      var reply := env.reply(t.polls);
      t := t.(polls := t.polls + 1, nextPoll := t.nextPoll + p.pollMs);
      if reply.Threw? { return events, Stop(Failed), waited; }
      if reply.TimedOut? {
        events := events + [Beat(t.waited, t.grantId, false)];
      } else if reply.access.Answer? {
        return events, Stop(Returned(reply.access)), waited;
      } else {
        t := t.(last := reply.access, grantId := GrantOf(reply.access, t.grantId));
      }
    }
    assert events == awake + polled.0;
    return events, Go(t), waited;
  }

  /** `awaitGrant`; `waited` is its variable when the wait ends. */
  method AwaitGrant(p: Policy, env: Env, initial: Access) returns (events: seq<Event>, outcome: Outcome, waited: nat)
    requires p.pollMs > 0 && p.heartbeatMs > 0
    ensures (events, outcome) == Follow(p, env, Start(p, initial))
    ensures waited == Sum(Sleeps(events))
  {
    events, waited := [], 0;
    var s := Start(p, initial);
    ghost var whole := Follow(p, env, s);
    assert [] + whole.0 == whole.0;
    while s.waited < p.waitMs
      invariant OnGrid(p, s) && SoFar(s.waited, events, waited, Follow(p, env, s), whole)
      decreases p.waitMs - s.waited
    {
      FollowTurns(p, env, s);
      TurnSleeps(p, env, s);
      var now, turn, later := OneTurn(p, env, s);
      assert now + [] == now;
      SoFarNext(s.waited, events, waited, now, later,
                if turn.Go? then Follow(p, env, turn.next) else ([], turn.outcome), whole);
      events, waited := events + now, later;
      match turn {
        case Stop(o) =>
          assert events + [] == events;
          return events, o, waited;
        case Go(next) => s := next;
      }
    }
    FollowEnds(p, env, s);
    assert events + [] == events;
    outcome := Returned(s.last);
  }

  /** What has happened and what is still to come make up the whole; the sleeps sum to `waited`. */
  ghost predicate SoFar(at: nat, events: seq<Event>, waited: nat, rest: (seq<Event>, Outcome),
                        whole: (seq<Event>, Outcome)) {
    at == waited == Sum(Sleeps(events)) && (events + rest.0, rest.1) == whole
  }

  lemma SoFarNext(at: nat, events: seq<Event>, waited: nat, now: seq<Event>, later: nat,
                  rest: (seq<Event>, Outcome), whole: (seq<Event>, Outcome))
    requires SoFar(at, events, waited, (now + rest.0, rest.1), whole) && later == at + Sum(Sleeps(now))
    ensures SoFar(later, events + now, later, rest, whole)
  {
    SleepsAdd(events, now);
    Associates(events, now, rest.0);
  }

  /** The scenario as an environment: no cutoff, no cancellation outside a poll. */
  function Scenario(cancelDuringPoll: bool, hungPoll: bool, responses: seq<Access>): Env {
    Env((k: nat) => if cancelDuringPoll then Threw else if hungPoll then TimedOut
             else if k < |responses| then Replied(responses[k]) else Threw,
        k => 0, k => Never)
  }

  /** The values of the replay loop that a turn changes. */
  datatype Replay = Replay(waited: nat, nextPoll: nat, nextHeartbeat: nat, responseIndex: nat, access: Access)

  ghost predicate Agrees(r: Replay, s: State) {
    && r.waited == s.waited && r.nextPoll == s.nextPoll && r.nextHeartbeat == s.nextBeat
    && r.responseIndex == s.polls && r.access.Pending? && s.last.Pending?
  }

  /** The body of the `ValidateWaitScenario` loop, which counts hung polls as answered here. */
  method ReplayTurn(waitMs: nat, pollMs: nat, heartbeatMs: nat, cancelDuringPoll: bool, hungPoll: bool,
                    responses: seq<Access>, r: Replay, ghost s: State)
    returns (sleep: nat, heartbeats: seq<nat>, next: Replay, stop: Option<Outcome>)
    requires OnGrid(Policy(waitMs, pollMs, heartbeatMs, 0), s) && r.waited < waitMs && Agrees(r, s)
    ensures var (events, turn) :=
            TakeTurn(Policy(waitMs, pollMs, heartbeatMs, 0), Scenario(cancelDuringPoll, hungPoll, responses), s);
            && Sleeps(events) == [sleep] && Beats(events) == heartbeats
            && (turn.Stop? <==> stop.Some?)
            && (turn.Stop? ==> turn.outcome == stop.value)
            && (turn.Go? ==> Agrees(next, turn.next))
  {
    TurnTrace(Policy(waitMs, pollMs, heartbeatMs, 0), Scenario(cancelDuringPoll, hungPoll, responses), s);
    next, heartbeats, stop := r, [], None;
    var nextEvent := Min(Min(r.nextPoll, r.nextHeartbeat), waitMs);
    sleep := nextEvent - r.waited;
    next := next.(waited := nextEvent);
    if nextEvent >= r.nextHeartbeat {
      heartbeats := heartbeats + [nextEvent];
      next := next.(nextHeartbeat := r.nextHeartbeat + heartbeatMs);
    }
    if nextEvent < r.nextPoll { return; }
    if cancelDuringPoll { stop := Some(Failed); return; }
    next := next.(nextPoll := r.nextPoll + pollMs, responseIndex := r.responseIndex + 1);
    if hungPoll {
      heartbeats := heartbeats + [nextEvent];
      return;
    }
    if r.responseIndex >= |responses| { stop := Some(Failed); return; }
    if responses[r.responseIndex].Answer? { stop := Some(Returned(responses[r.responseIndex])); return; }
    next := next.(access := responses[r.responseIndex]);
  }

  /** The loop of `ValidateWaitScenario`: the schedule of sleeps and heartbeats, and how it ends. */
  method ReplaySchedule(waitMs: nat, pollMs: nat, heartbeatMs: nat, cancelDuringPoll: bool, hungPoll: bool,
                        responses: seq<Access>)
    returns (sleeps: seq<nat>, heartbeats: seq<nat>, outcome: Outcome)
    requires pollMs > 0 && heartbeatMs > 0
    ensures var p := Policy(waitMs, pollMs, heartbeatMs, 0);
            var (events, o) := Follow(p, Scenario(cancelDuringPoll, hungPoll, responses), Start(p, Pending(None)));
            sleeps == Sleeps(events) && heartbeats == Beats(events) && Same(outcome, o)
  {
    ghost var p, env := Policy(waitMs, pollMs, heartbeatMs, 0), Scenario(cancelDuringPoll, hungPoll, responses);
    ghost var s := Start(p, Pending(None));
    ghost var whole := Follow(p, env, s);
    sleeps, heartbeats := [], [];
    var r := Replay(0, pollMs, heartbeatMs, 0, Pending(None));
    while r.waited < waitMs
      invariant OnGrid(p, s) && Agrees(r, s)
      invariant Rest(whole, sleeps, heartbeats, Follow(p, env, s))
      decreases waitMs - r.waited
    {
      FollowTurns(p, env, s);
      ghost var turn := TakeTurn(p, env, s);
      var sleep, now, next, stop :=
        ReplayTurn(waitMs, pollMs, heartbeatMs, cancelDuringPoll, hungPoll, responses, r, s);
      assert turn.0 + [] == turn.0;
      RestNext(whole, sleeps, heartbeats, turn.0,
               if turn.1.Go? then Follow(p, env, turn.1.next) else ([], turn.1.outcome));
      sleeps := sleeps + [sleep];
      heartbeats := heartbeats + now;
      if stop.Some? { return sleeps, heartbeats, stop.value; }
      s := turn.1.next;
      r := next;
    }
    FollowEnds(p, env, s);
    assert sleeps + [] == sleeps && heartbeats + [] == heartbeats;
    outcome := Returned(r.access);
  }

  /** What has been replayed and what is still to come make up the whole. */
  ghost predicate Rest(whole: (seq<Event>, Outcome), sleeps: seq<nat>, beats: seq<nat>, rest: (seq<Event>, Outcome)) {
    sleeps + Sleeps(rest.0) == Sleeps(whole.0) && beats + Beats(rest.0) == Beats(whole.0) && rest.1 == whole.1
  }

  lemma RestNext(whole: (seq<Event>, Outcome), sleeps: seq<nat>, beats: seq<nat>, now: seq<Event>,
                 rest: (seq<Event>, Outcome))
    requires Rest(whole, sleeps, beats, (now + rest.0, rest.1))
    ensures Rest(whole, sleeps + Sleeps(now), beats + Beats(now), rest)
  {
    SplitTrace(now, rest.0);
    Associates(sleeps, Sleeps(now), Sleeps(rest.0));
    Associates(beats, Beats(now), Beats(rest.0));
  }

  /** The replay does not keep grant ids. */
  ghost predicate Same(a: Outcome, b: Outcome) {
    a == b || (a.Returned? && b.Returned? && a.access.Pending? && b.access.Pending?)
  }

  // ----- Reading a trace -----

  /** The values that `f` finds in the events, in order. */
  function Pick(events: seq<Event>, f: Event -> Option<nat>): seq<nat> {
    if events == [] then []
    else Found(events[0], f) + Pick(events[1..], f)
  }

  function Found(e: Event, f: Event -> Option<nat>): seq<nat> {
    if f(e).Some? then [f(e).value] else []
  }

  function SleepOf(e: Event): Option<nat> { if e.Slept? then Some(e.ms) else None }
  function BeatOf(e: Event): Option<nat> { if e.Beat? then Some(e.at) else None }
  function ScheduledOf(e: Event): Option<nat> { if e.Beat? && e.scheduled then Some(e.at) else None }
  function PollOf(e: Event): Option<nat> { if e.Polled? then Some(e.at) else None }

  function Sleeps(events: seq<Event>): seq<nat> { Pick(events, SleepOf) }
  function Beats(events: seq<Event>): seq<nat> { Pick(events, BeatOf) }
  function Scheduled(events: seq<Event>): seq<nat> { Pick(events, ScheduledOf) }
  function Polls(events: seq<Event>): seq<nat> { Pick(events, PollOf) }

  lemma {:induction false} SplitPick(a: seq<Event>, b: seq<Event>, f: Event -> Option<nat>)
    ensures Pick(a + b, f) == Pick(a, f) + Pick(b, f)
    decreases |a|
  {
    if a == [] {
      assert a + b == b;
    } else {
      assert (a + b)[1..] == a[1..] + b;
      SplitPick(a[1..], b, f);
      assert (a + b)[0] == a[0];
      Associates(Found(a[0], f), Pick(a[1..], f), Pick(b, f));
    }
  }

  lemma SplitTrace(a: seq<Event>, b: seq<Event>)
    ensures Sleeps(a + b) == Sleeps(a) + Sleeps(b) && Beats(a + b) == Beats(a) + Beats(b)
    ensures Scheduled(a + b) == Scheduled(a) + Scheduled(b) && Polls(a + b) == Polls(a) + Polls(b)
  {
    SplitPick(a, b, SleepOf);
    SplitPick(a, b, BeatOf);
    SplitPick(a, b, ScheduledOf);
    SplitPick(a, b, PollOf);
  }

  lemma PickOne(e: Event, f: Event -> Option<nat>)
    ensures Pick([e], f) == Found(e, f)
  {
    assert [e][1..] == [];
    assert Found(e, f) + [] == Found(e, f);
  }

  lemma PickTwo(d: Event, e: Event, f: Event -> Option<nat>)
    ensures Pick([d, e], f) == Found(d, f) + Found(e, f)
  {
    assert [d, e] == [d] + [e];
    SplitPick([d], [e], f);
    PickOne(d, f);
    PickOne(e, f);
  }

  /** A poll happens in this turn: it is due and the wall clock has not run out. */
  ghost predicate PollDue(p: Policy, env: Env, s: State, now: nat) {
    now >= s.nextPoll && env.wall(s.polls) < p.waitMs
  }

  function PollEvent(p: Policy, env: Env, s: State): Event
    requires env.wall(s.polls) < p.waitMs
  {
    Polled(s.waited, Max(1, Min(Min(p.pollTimeoutMs, p.waitMs - s.waited), p.waitMs - env.wall(s.polls))))
  }

  lemma PollPick(p: Policy, env: Env, t: State, f: Event -> Option<nat>)
    ensures var (events, _) := AfterPoll(p, env, t);
            Pick(events, f) == if !PollDue(p, env, t, t.waited) then []
                               else Found(PollEvent(p, env, t), f)
                                    + (if env.reply(t.polls).TimedOut? then Found(Beat(t.waited, t.grantId, false), f)
                                       else [])
  {
    if PollDue(p, env, t, t.waited) {
      var poll := PollEvent(p, env, t);
      if env.reply(t.polls).TimedOut? {
        PickTwo(poll, Beat(t.waited, t.grantId, false), f);
      } else {
        PickOne(poll, f);
        assert Found(poll, f) + [] == Found(poll, f);
      }
    }
  }

  lemma TurnPick(p: Policy, env: Env, s: State, f: Event -> Option<nat>)
    requires s.waited <= WakeAt(p, s) && env.abort(s.turns) == Never
    ensures var now := WakeAt(p, s);
            var (beat, t) := AfterBeat(p, s.(turns := s.turns + 1), now);
            Pick(TakeTurn(p, env, s).0, f)
              == Found(Slept(now - s.waited), f)
                + (if now >= s.nextBeat then Found(Beat(now, s.grantId, true), f) else [])
                 + Pick(AfterPoll(p, env, t).0, f)
  {
    var now := WakeAt(p, s);
    var (beat, t) := AfterBeat(p, s.(turns := s.turns + 1), now);
    var poll := AfterPoll(p, env, t).0;
    SplitPick([Slept(now - s.waited)] + beat, poll, f);
    SplitPick([Slept(now - s.waited)], beat, f);
    PickOne(Slept(now - s.waited), f);
    PickOne(Beat(now, s.grantId, true), f);
  }

  lemma WholeTurnPick(p: Policy, env: Env, s: State, f: Event -> Option<nat>)
    requires s.waited <= WakeAt(p, s) && env.abort(s.turns) == Never
    ensures var now := WakeAt(p, s);
            Pick(TakeTurn(p, env, s).0, f)
              == Found(Slept(now - s.waited), f)
                + (if now >= s.nextBeat then Found(Beat(now, s.grantId, true), f) else [])
                 + if !PollDue(p, env, s, now) then []
                   else Found(PollEvent(p, env, s.(waited := now)), f)
                        + (if env.reply(s.polls).TimedOut? then Found(Beat(now, s.grantId, false), f) else [])
  {
    var t := AfterBeat(p, s.(turns := s.turns + 1), WakeAt(p, s)).1;
    TurnPick(p, env, s, f);
    PollPick(p, env, t, f);
  }

  /** What one turn that is not cancelled adds to the trace. */
  lemma TurnTrace(p: Policy, env: Env, s: State)
    requires s.waited <= WakeAt(p, s) && env.abort(s.turns) == Never
    ensures var now := WakeAt(p, s);
            var (events, _) := TakeTurn(p, env, s);
            && Sleeps(events) == [now - s.waited]
            && Scheduled(events) == (if now >= s.nextBeat then [now] else [])
            && Polls(events) == (if PollDue(p, env, s, now) then [now] else [])
            && Beats(events) == (if now >= s.nextBeat then [now] else [])
                                + (if PollDue(p, env, s, now) && env.reply(s.polls).TimedOut? then [now] else [])
  {
    TurnTimes(p, env, s);
    TurnBeats(p, env, s);
  }

  lemma TurnTimes(p: Policy, env: Env, s: State)
    requires s.waited <= WakeAt(p, s) && env.abort(s.turns) == Never
    ensures var now, events := WakeAt(p, s), TakeTurn(p, env, s).0;
            Sleeps(events) == [now - s.waited] && Polls(events) == (if PollDue(p, env, s, now) then [now] else [])
  {
    WholeTurnPick(p, env, s, SleepOf);
    WholeTurnPick(p, env, s, PollOf);
  }

  lemma TurnBeats(p: Policy, env: Env, s: State)
    requires s.waited <= WakeAt(p, s) && env.abort(s.turns) == Never
    ensures var now, events := WakeAt(p, s), TakeTurn(p, env, s).0;
            && Scheduled(events) == (if now >= s.nextBeat then [now] else [])
            && Beats(events) == (if now >= s.nextBeat then [now] else [])
                                + (if PollDue(p, env, s, now) && env.reply(s.polls).TimedOut? then [now] else [])
  {
    WholeTurnPick(p, env, s, BeatOf);
    WholeTurnPick(p, env, s, ScheduledOf);
  }

  // ----- What every wait does -----

  function Sum(xs: seq<nat>): nat { if xs == [] then 0 else xs[0] + Sum(xs[1..]) }

  /** The values are the multiples of `p` that follow the `from`-th, none left out. */
  ghost predicate Grid(xs: seq<nat>, p: nat, from: nat) {
    forall i :: 0 <= i < |xs| ==> xs[i] == Multiple(p, from + 1 + i)
  }

  lemma GridCons(x: nat, xs: seq<nat>, p: nat, from: nat)
    requires x == Multiple(p, from + 1) && Grid(xs, p, from + 1)
    ensures Grid([x] + xs, p, from)
  {
    forall i | 0 <= i < |[x] + xs| ensures ([x] + xs)[i] == Multiple(p, from + 1 + i) {
      if i > 0 { assert xs[i - 1] == Multiple(p, from + 1 + 1 + (i - 1)); }
    }
  }

  lemma SumCons(x: nat, xs: seq<nat>)
    ensures Sum([x] + xs) == x + Sum(xs)
  {
    assert ([x] + xs)[1..] == xs;
  }

  lemma {:induction false} SumJoin(a: seq<nat>, b: seq<nat>)
    ensures Sum(a + b) == Sum(a) + Sum(b)
  {
    if a == [] {
      assert a + b == b;
    } else {
      SumJoin(a[1..], b);
      assert (a + b)[1..] == a[1..] + b;
    }
  }

  lemma SleepsAdd(a: seq<Event>, b: seq<Event>)
    ensures Sum(Sleeps(a + b)) == Sum(Sleeps(a)) + Sum(Sleeps(b))
  {
    SplitPick(a, b, SleepOf);
    SumJoin(Sleeps(a), Sleeps(b));
  }

  /** A turn sleeps until the moment it acts at; a cancelled one does not sleep. */
  lemma TurnSleeps(p: Policy, env: Env, s: State)
    requires s.waited <= WakeAt(p, s)
    ensures s.waited + Sum(Sleeps(TakeTurn(p, env, s).0))
         == if env.abort(s.turns) == Never then WakeAt(p, s) else s.waited
  {
    if env.abort(s.turns) == Never {
      TurnTrace(p, env, s);
      SumCons(WakeAt(p, s) - s.waited, []);
      assert [WakeAt(p, s) - s.waited] + [] == [WakeAt(p, s) - s.waited];
    }
  }

  /** A reply that lets the wait go on. */
  predicate KeepsWaiting(r: Reply) { r.TimedOut? || (r.Replied? && r.access.Pending?) }

  /** How a reply that does not ends it. */
  function EndsWith(r: Reply): Outcome {
    if r.Replied? then Returned(r.access) else Failed
  }

  /** The sleeps add up to at most the budget; the polls and the scheduled heartbeats fall on every
      multiple of their period, in order, and no heartbeat is overdue when the wait ends. */
  ghost predicate OnSchedule(p: Policy, s: State, events: seq<Event>) {
    OnTime(p, s, Sleeps(events), Scheduled(events), Polls(events))
  }

  ghost predicate OnTime(p: Policy, s: State, sleeps: seq<nat>, scheduled: seq<nat>, polls: seq<nat>) {
    && s.waited + Sum(sleeps) <= p.waitMs
    && Grid(polls, p.pollMs, s.polls)
    && Grid(scheduled, p.heartbeatMs, s.beats)
    && s.waited + Sum(sleeps) < Multiple(p.heartbeatMs, s.beats + |scheduled| + 1)
  }

  lemma NothingHappened(p: Policy, s: State)
    requires OnGrid(p, s)
    ensures OnSchedule(p, s, [])
  {
  }

  lemma JoinTimes(p: Policy, s: State, t: State, sleeps: seq<nat>, scheduled: seq<nat>, polls: seq<nat>, beat: bool,
                  poll: bool)
    requires s.waited <= t.waited
    requires t.beats == (if beat then s.beats + 1 else s.beats) && t.polls == (if poll then s.polls + 1 else s.polls)
    requires beat ==> t.waited == Multiple(p.heartbeatMs, s.beats + 1)
    requires poll ==> t.waited == Multiple(p.pollMs, s.polls + 1)
    requires OnTime(p, t, sleeps, scheduled, polls)
    ensures OnTime(p, s, [t.waited - s.waited] + sleeps, (if beat then [t.waited] else []) + scheduled,
                   (if poll then [t.waited] else []) + polls)
  {
    SumCons(t.waited - s.waited, sleeps);
    GridOptional(beat, t.waited, scheduled, p.heartbeatMs, s.beats);
    GridOptional(poll, t.waited, polls, p.pollMs, s.polls);
  }

  /** What happens at one moment, put before a trace on schedule. */
  lemma JoinSchedule(p: Policy, s: State, t: State, events: seq<Event>, more: seq<Event>, beat: bool, poll: bool)
    requires s.waited <= t.waited && Sleeps(events) == [t.waited - s.waited]
    requires Scheduled(events) == (if beat then [t.waited] else [])
             && Polls(events) == (if poll then [t.waited] else [])
    requires t.beats == (if beat then s.beats + 1 else s.beats) && t.polls == (if poll then s.polls + 1 else s.polls)
    requires beat ==> t.waited == Multiple(p.heartbeatMs, s.beats + 1)
    requires poll ==> t.waited == Multiple(p.pollMs, s.polls + 1)
    requires OnSchedule(p, t, more)
    ensures OnSchedule(p, s, events + more)
  {
    SplitTrace(events, more);
    JoinTimes(p, s, t, Sleeps(more), Scheduled(more), Polls(more), beat, poll);
  }

  lemma StoppedOnSchedule(p: Policy, env: Env, s: State)
    requires OnGrid(p, s) && s.waited < p.waitMs && TakeTurn(p, env, s).1.Stop?
    ensures OnSchedule(p, s, TakeTurn(p, env, s).0)
  {
    if env.abort(s.turns) == Never {
      TurnTrace(p, env, s);
      var now := WakeAt(p, s);
      var beat, poll := now >= s.nextBeat, PollDue(p, env, s, now);
      var t := s.(waited := now, beats := if beat then s.beats + 1 else s.beats,
                  polls := if poll then s.polls + 1 else s.polls);
      var events := TakeTurn(p, env, s).0;
      StoppedHere(p, t);
      JoinSchedule(p, s, t, events, [], beat, poll);
      assert events + [] == events;
    }
  }

  lemma StoppedHere(p: Policy, t: State)
    requires t.waited <= p.waitMs && t.waited < Multiple(p.heartbeatMs, t.beats + 1)
    ensures OnSchedule(p, t, [])
  {
  }

  /** How a turn that goes on moves the counters. */
  lemma TurnNumbers(p: Policy, env: Env, s: State)
    requires OnGrid(p, s) && s.waited < p.waitMs && TakeTurn(p, env, s).1.Go?
    ensures var now, t := WakeAt(p, s), TakeTurn(p, env, s).1.next;
            && env.abort(s.turns) == Never && t.turns == s.turns + 1 && t.waited == now
            && (now >= s.nextPoll ==> PollDue(p, env, s, now))
            && t.beats == (if now >= s.nextBeat then s.beats + 1 else s.beats)
            && t.polls == (if now >= s.nextPoll then s.polls + 1 else s.polls)
  {
  }

  lemma TurnOnSchedule(p: Policy, env: Env, s: State, more: seq<Event>)
    requires OnGrid(p, s) && s.waited < p.waitMs && TakeTurn(p, env, s).1.Go?
    requires OnSchedule(p, TakeTurn(p, env, s).1.next, more)
    ensures OnSchedule(p, s, TakeTurn(p, env, s).0 + more)
  {
    TurnNumbers(p, env, s);
    TurnTrace(p, env, s);
    var now := WakeAt(p, s);
    JoinSchedule(p, s, TakeTurn(p, env, s).1.next, TakeTurn(p, env, s).0, more, now >= s.nextBeat, now >= s.nextPoll);
  }

  lemma GridOptional(due: bool, x: nat, xs: seq<nat>, p: nat, from: nat)
    requires if due then x == Multiple(p, from + 1) && Grid(xs, p, from + 1) else Grid(xs, p, from)
    ensures Grid((if due then [x] else []) + xs, p, from)
  {
    if due { GridCons(x, xs, p, from); } else { assert [] + xs == xs; }
  }

  lemma {:induction false} FollowOnSchedule(p: Policy, env: Env, s: State)
    requires OnGrid(p, s)
    ensures OnSchedule(p, s, Follow(p, env, s).0)
    decreases p.waitMs - s.waited
  {
    if s.waited >= p.waitMs {
      FollowEnds(p, env, s);
      NothingHappened(p, s);
    } else {
      FollowTurns(p, env, s);
      var (events, turn) := TakeTurn(p, env, s);
      if turn.Stop? {
        StoppedOnSchedule(p, env, s);
      } else {
        FollowOnSchedule(p, env, turn.next);
        TurnOnSchedule(p, env, s, Follow(p, env, turn.next).0);
      }
    }
  }

  lemma {:induction false} MultipleGrows(p: nat, k: nat)
    requires p >= 5_000
    ensures Multiple(p, k) >= 5_000 * k
  {
    if k == 0 {
    } else {
      MultipleGrows(p, k - 1);
    }
  }

  lemma {:induction false} MultipleIsProduct(p: nat, k: nat)
    ensures Multiple(p, k) == p * k
  {
    if k == 0 {
    } else {
      MultipleIsProduct(p, k - 1);
    }
  }

  lemma {:induction false} PollsWithinBudget(p: Policy, env: Env, s: State, t: nat)
    requires OnGrid(p, s) && t in Polls(Follow(p, env, s).0)
    ensures t <= p.waitMs
    decreases p.waitMs - s.waited
  {
    if s.waited >= p.waitMs {
      FollowEnds(p, env, s);
    } else {
      FollowTurns(p, env, s);
      var (events, turn) := TakeTurn(p, env, s);
      if env.abort(s.turns) == Never { TurnTrace(p, env, s); }
      if turn.Go? {
        SplitTrace(events, Follow(p, env, turn.next).0);
        if t in Polls(Follow(p, env, turn.next).0) { PollsWithinBudget(p, env, turn.next, t); }
      }
    }
  }

  /** The wall clock ends the wait at the moment its next poll is due. */
  ghost predicate CutOff(p: Policy, env: Env, polls: nat, waited: nat) {
    waited == Multiple(p.pollMs, polls + 1) && env.wall(polls) >= p.waitMs
  }

  /** How long the wait lasts: without a cutoff no poll is overdue when it ends, and it ends pending
      only when the whole budget is spent; it goes on through every turn that is not cancelled, and is
      cancelled only in the turn in which the caller cancels. */
  ghost predicate Lasts(p: Policy, env: Env, s: State, events: seq<Event>, outcome: Outcome) {
    && LastsAt(p, env, s.waited + Sum(Sleeps(events)), s.polls + |Polls(events)|, outcome)
    && CancelledInTurn(env, s.turns, |Sleeps(events)|, outcome)
  }

  /** The first `n` turns from `turn` on were not cancelled; a cancelled wait was cancelled in the next. */
  ghost predicate CancelledInTurn(env: Env, turn: nat, n: nat, outcome: Outcome) {
    && (forall k :: turn <= k < turn + n ==> env.abort(k) == Never)
    && (outcome.Cancelled? ==> env.abort(turn + n) != Never)
  }

  ghost predicate LastsAt(p: Policy, env: Env, waited: nat, polls: nat, outcome: Outcome) {
    && (waited < Multiple(p.pollMs, polls + 1) || CutOff(p, env, polls, waited))
    && (CutOff(p, env, polls, waited) ==> outcome.Returned? && outcome.access.Pending?)
    && (outcome.Returned? && outcome.access.Pending? ==> waited == p.waitMs || CutOff(p, env, polls, waited))
    && (outcome.Cancelled? ==> waited < p.waitMs)
  }

  lemma StoppedLasts(p: Policy, env: Env, s: State)
    requires OnGrid(p, s) && s.waited < p.waitMs && s.last.Pending? && TakeTurn(p, env, s).1.Stop?
    ensures Lasts(p, env, s, TakeTurn(p, env, s).0, TakeTurn(p, env, s).1.outcome)
  {
    TurnSleeps(p, env, s);
    if env.abort(s.turns) == Never {
      TurnTrace(p, env, s);
      assert Multiple(p.pollMs, s.polls + 2) == p.pollMs + Multiple(p.pollMs, s.polls + 1);
    }
  }

  lemma TurnLasts(p: Policy, env: Env, s: State, t: State, events: seq<Event>, more: seq<Event>, outcome: Outcome)
    requires Lasts(p, env, t, more, outcome) && t.turns == s.turns + 1 && env.abort(s.turns) == Never
    requires |Sleeps(events)| == 1
    requires t.waited == s.waited + Sum(Sleeps(events)) && t.polls == s.polls + |Polls(events)|
    ensures Lasts(p, env, s, events + more, outcome)
  {
    TraceAdds(events, more);
    CancelledLater(env, s.turns, |Sleeps(more)|, outcome);
  }

  lemma TraceAdds(a: seq<Event>, b: seq<Event>)
    ensures Sum(Sleeps(a + b)) == Sum(Sleeps(a)) + Sum(Sleeps(b)) && |Polls(a + b)| == |Polls(a)| + |Polls(b)|
    ensures |Sleeps(a + b)| == |Sleeps(a)| + |Sleeps(b)|
  {
    SleepsAdd(a, b);
    SplitPick(a, b, SleepOf);
    SplitPick(a, b, PollOf);
  }

  lemma CancelledLater(env: Env, turn: nat, n: nat, outcome: Outcome)
    requires env.abort(turn) == Never && CancelledInTurn(env, turn + 1, n, outcome)
    ensures CancelledInTurn(env, turn, n + 1, outcome)
  {
    assert turn + 1 + n == turn + (n + 1);
  }

  lemma {:induction false} FollowLasts(p: Policy, env: Env, s: State)
    requires OnGrid(p, s) && s.last.Pending?
    ensures Lasts(p, env, s, Follow(p, env, s).0, Follow(p, env, s).1)
    decreases p.waitMs - s.waited
  {
    if s.waited >= p.waitMs {
      FollowEnds(p, env, s);
    } else {
      FollowTurns(p, env, s);
      var (events, turn) := TakeTurn(p, env, s);
      if turn.Stop? {
        StoppedLasts(p, env, s);
      } else {
        FollowLasts(p, env, turn.next);
        TurnSleeps(p, env, s);
        TurnNumbers(p, env, s);
        TurnTrace(p, env, s);
        TurnLasts(p, env, s, turn.next, events, Follow(p, env, turn.next).0, Follow(p, env, turn.next).1);
      }
    }
  }

  /** For every policy and every environment, a wait that the caller does not cancel and the wall clock
      does not cut off ends at its answer, with no poll overdue, or with the whole budget slept; a cutoff
      happens only at a due poll and returns a pending grant; and a wait of `turns` sleeps was cancelled in
      none of these turns, and is cancelled only if the caller cancels in the next. */
  lemma WaitLasts(p: Policy, env: Env, initial: Access)
    requires p.pollMs > 0 && p.heartbeatMs > 0 && initial.Pending?
    ensures var (events, outcome) := Follow(p, env, Start(p, initial));
            var waited, n, turns := Sum(Sleeps(events)), |Polls(events)|, |Sleeps(events)|;
            && (waited < p.pollMs * (n + 1) || (waited == p.pollMs * (n + 1) && env.wall(n) >= p.waitMs))
            && (outcome.Returned? && outcome.access.Pending? ==>
                  waited == p.waitMs || (waited == p.pollMs * (n + 1) && env.wall(n) >= p.waitMs))
            && (waited == p.pollMs * (n + 1) && env.wall(n) >= p.waitMs ==>
                  outcome.Returned? && outcome.access.Pending?)
            && (forall k :: 0 <= k < turns ==> env.abort(k) == Never)
            && (outcome.Cancelled? ==> env.abort(turns) != Never && waited < p.waitMs)
  {
    var s := Start(p, initial);
    FollowLasts(p, env, s);
    MultipleIsProduct(p.pollMs, |Polls(Follow(p, env, s).0)| + 1);
  }

  /** For every resolved policy and every environment: the wait ends, its sleeps fit the budget, the
      i-th poll is at i times the poll interval, there are at most sixty polls, and the i-th
      scheduled heartbeat is at i times the heartbeat interval with none overdue at the end.  Unless the
      wall clock cuts it off at a due poll, no poll is overdue at the end either, and a wait that ends
      still pending has slept its whole budget. */
  lemma WaitKeepsSchedule(p: Policy, env: Env, initial: Access)
    requires Sound(p)
    ensures var (events, outcome) := Follow(p, env, Start(p, initial));
            && Sum(Sleeps(events)) <= p.waitMs
            && (forall i :: 0 <= i < |Polls(events)| ==> Polls(events)[i] == p.pollMs * (i + 1))
            && |Polls(events)| <= 60
            && (forall i :: 0 <= i < |Scheduled(events)| ==> Scheduled(events)[i] == p.heartbeatMs * (i + 1))
            && Sum(Sleeps(events)) < p.heartbeatMs * (|Scheduled(events)| + 1)
            && (initial.Pending? && env.wall(|Polls(events)|) < p.waitMs ==>
                  && Sum(Sleeps(events)) < p.pollMs * (|Polls(events)| + 1)
                  && (outcome.Returned? && outcome.access.Pending? ==> Sum(Sleeps(events)) == p.waitMs))
  {
    var s := Start(p, initial);
    var events := Follow(p, env, s).0;
    FollowOnSchedule(p, env, s);
    if initial.Pending? { WaitLasts(p, env, initial); }
    var n := |Polls(events)|;
    forall i | 0 <= i < n ensures Polls(events)[i] == p.pollMs * (i + 1) { MultipleIsProduct(p.pollMs, i + 1); }
    forall i | 0 <= i < |Scheduled(events)| ensures Scheduled(events)[i] == p.heartbeatMs * (i + 1) {
      MultipleIsProduct(p.heartbeatMs, i + 1);
    }
    MultipleIsProduct(p.heartbeatMs, |Scheduled(events)| + 1);
    if n > 0 {
      PollsWithinBudget(p, env, s, Polls(events)[n - 1]);
      MultipleGrows(p.pollMs, n);
    }
  }

  /** Only the last poll can have ended the wait, and then its reply is the result. */
  ghost predicate StopsAtFirstAnswer(env: Env, s: State, events: seq<Event>, outcome: Outcome) {
    var n := |Polls(events)|;
    && (forall k :: s.polls <= k < s.polls + n - 1 ==> KeepsWaiting(env.reply(k)))
    && (outcome.Failed? || (outcome.Returned? && outcome.access.Answer?) ==>
          n > 0 && !KeepsWaiting(env.reply(s.polls + n - 1)))
    && (n > 0 && !KeepsWaiting(env.reply(s.polls + n - 1)) ==> outcome == EndsWith(env.reply(s.polls + n - 1)))
  }

  lemma {:induction false} FollowStopsAtFirstAnswer(p: Policy, env: Env, s: State)
    requires OnGrid(p, s) && s.last.Pending?
    ensures StopsAtFirstAnswer(env, s, Follow(p, env, s).0, Follow(p, env, s).1)
    decreases p.waitMs - s.waited
  {
    if s.waited >= p.waitMs {
      FollowEnds(p, env, s);
    } else {
      FollowTurns(p, env, s);
      var (events, turn) := TakeTurn(p, env, s);
      if env.abort(s.turns) == Never { TurnTrace(p, env, s); }
      if turn.Go? {
        var (more, outcome) := Follow(p, env, turn.next);
        FollowStopsAtFirstAnswer(p, env, turn.next);
        SplitTrace(events, more);
        ShiftReplies(env, s, turn.next, events, more, outcome);
      }
    }
  }

  lemma ShiftReplies(env: Env, s: State, t: State, events: seq<Event>, more: seq<Event>, outcome: Outcome)
    requires StopsAtFirstAnswer(env, t, more, outcome)
    requires |Polls(events + more)| == |Polls(events)| + |Polls(more)|
    requires t.polls == s.polls + |Polls(events)| && |Polls(events)| <= 1
    requires |Polls(events)| == 1 ==> KeepsWaiting(env.reply(s.polls))
    ensures StopsAtFirstAnswer(env, s, events + more, outcome)
  {
    assert s.polls + |Polls(events + more)| - 1 == t.polls + |Polls(more)| - 1;
  }

  /** The first answer that is not pending is returned, and no poll follows it. */
  lemma FirstAnswerIsReturned(p: Policy, env: Env, initial: Access)
    requires p.pollMs > 0 && p.heartbeatMs > 0 && initial.Pending?
    ensures var s := Start(p, initial);
            StopsAtFirstAnswer(env, s, Follow(p, env, s).0, Follow(p, env, s).1)
  {
    FollowStopsAtFirstAnswer(p, env, Start(p, initial));
  }

  // ----- Two environments with the same schedule -----

  ghost predicate SameKind(a: Reply, b: Reply) {
    a == b || (a.Replied? && b.Replied? && a.access.Pending? && b.access.Pending?)
  }

  /** The `k`-th poll can happen: it falls within the budget and no earlier reply ends the wait. */
  ghost predicate CanPoll(p: Policy, e: Env, k: nat) {
    Multiple(p.pollMs, k + 1) <= p.waitMs && forall j :: 0 <= j < k ==> KeepsWaiting(e.reply(j))
  }

  /** Neither is cancelled or, at a poll that can happen, cut off by the wall clock; and the replies
      to these polls are alike.  Nothing is asked of replies that are never used. */
  ghost predicate Alike(p: Policy, e: Env, f: Env) {
    && (forall k: nat :: CanPoll(p, e, k) ==>
          SameKind(e.reply(k), f.reply(k)) && e.wall(k) < p.waitMs && f.wall(k) < p.waitMs)
    && (forall k: nat :: k < p.waitMs ==> e.abort(k) == Never && f.abort(k) == Never)
  }

  /** What the polls so far have shown: they kept the wait going, and each turn took some time. */
  ghost predicate Underway(e: Env, s: State, t: State) {
    s.turns <= s.waited && t.turns <= t.waited && forall j :: 0 <= j < s.polls ==> KeepsWaiting(e.reply(j))
  }

  ghost predicate SameTimes(s: State, t: State) {
    && s.waited == t.waited && s.nextPoll == t.nextPoll && s.nextBeat == t.nextBeat && s.polls == t.polls
    && s.beats == t.beats && s.last.Pending? && t.last.Pending?
  }

  lemma SameTurn(p: Policy, q: Policy, e: Env, f: Env, s: State, t: State)
    requires q == p.(pollTimeoutMs := q.pollTimeoutMs) && Alike(p, e, f) && SameTimes(s, t) && Underway(e, s, t)
    requires OnGrid(p, s) && s.waited < p.waitMs
    ensures var (a, x) := TakeTurn(p, e, s);
            var (b, y) := TakeTurn(q, f, t);
            && Sleeps(a) == Sleeps(b) && Beats(a) == Beats(b)
            && (if x.Stop? then y.Stop? && Same(x.outcome, y.outcome)
                else y.Go? && SameTimes(x.next, y.next) && Underway(e, x.next, y.next))
  {
    SameTrace(p, q, e, f, s, t);
    SameEnd(p, q, e, f, s, t);
  }

  lemma SameTrace(p: Policy, q: Policy, e: Env, f: Env, s: State, t: State)
    requires q == p.(pollTimeoutMs := q.pollTimeoutMs) && Alike(p, e, f) && SameTimes(s, t) && Underway(e, s, t)
    requires OnGrid(p, s) && s.waited < p.waitMs
    ensures var a, b := TakeTurn(p, e, s).0, TakeTurn(q, f, t).0; Sleeps(a) == Sleeps(b) && Beats(a) == Beats(b)
  {
    assert e.abort(s.turns) == Never && f.abort(t.turns) == Never;
    if WakeAt(p, s) >= s.nextPoll { assert CanPoll(p, e, s.polls); }
    TurnTrace(p, e, s);
    TurnTrace(q, f, t);
  }

  lemma SameEnd(p: Policy, q: Policy, e: Env, f: Env, s: State, t: State)
    requires q == p.(pollTimeoutMs := q.pollTimeoutMs) && Alike(p, e, f) && SameTimes(s, t) && Underway(e, s, t)
    requires OnGrid(p, s) && s.waited < p.waitMs
    ensures var x, y := TakeTurn(p, e, s).1, TakeTurn(q, f, t).1;
            if x.Stop? then y.Stop? && Same(x.outcome, y.outcome)
            else y.Go? && SameTimes(x.next, y.next) && Underway(e, x.next, y.next)
  {
    assert e.abort(s.turns) == Never && f.abort(t.turns) == Never;
    if WakeAt(p, s) >= s.nextPoll { assert CanPoll(p, e, s.polls); }
  }

  lemma {:induction false} SameFollow(p: Policy, q: Policy, e: Env, f: Env, s: State, t: State)
    requires q == p.(pollTimeoutMs := q.pollTimeoutMs) && Alike(p, e, f) && SameTimes(s, t) && Underway(e, s, t)
    requires OnGrid(p, s) && OnGrid(q, t)
    ensures var (a, x) := Follow(p, e, s);
            var (b, y) := Follow(q, f, t);
            Sleeps(a) == Sleeps(b) && Beats(a) == Beats(b) && Same(x, y)
    decreases p.waitMs - s.waited
  {
    if s.waited >= p.waitMs {
      FollowEnds(p, e, s);
      FollowEnds(q, f, t);
    } else {
      FollowTurns(p, e, s);
      FollowTurns(q, f, t);
      SameTurn(p, q, e, f, s, t);
      var (a, x) := TakeTurn(p, e, s);
      var (b, y) := TakeTurn(q, f, t);
      if x.Go? {
        SameFollow(p, q, e, f, x.next, y.next);
        SplitTrace(a, Follow(p, e, x.next).0);
        SplitTrace(b, Follow(q, f, y.next).0);
      }
    }
  }

  /** Without cutoff or cancellation the wait sleeps and beats exactly as the replayed schedule does,
      and ends alike. */
  lemma WaitMatchesReplay(p: Policy, env: Env, initial: Access, cancelDuringPoll: bool, hungPoll: bool,
                          responses: seq<Access>)
    requires p.pollMs > 0 && p.heartbeatMs > 0 && initial.Pending?
    requires Alike(p, env, Scenario(cancelDuringPoll, hungPoll, responses))
    ensures var q := p.(pollTimeoutMs := 0);
            var (a, x) := Follow(p, env, Start(p, initial));
            var (b, y) := Follow(q, Scenario(cancelDuringPoll, hungPoll, responses), Start(q, Pending(None)));
            Sleeps(a) == Sleeps(b) && Beats(a) == Beats(b) && Same(x, y)
  {
    var q := p.(pollTimeoutMs := 0);
    SameFollow(p, q, env, Scenario(cancelDuringPoll, hungPoll, responses), Start(p, initial), Start(q, Pending(None)));
  }

  /** For one: a backend that stays pending matches the scenario that lists a pending response for
      every poll within the budget. */
  lemma PendingBackendMatches(p: Policy, env: Env, initial: Access, responses: seq<Access>)
    requires p.pollMs > 0 && p.heartbeatMs > 0 && initial.Pending? && p.waitMs < p.pollMs * (|responses| + 1)
    requires forall k :: 0 <= k < |responses| ==> responses[k].Pending?
    requires forall k: nat :: env.reply(k).Replied? && env.reply(k).access.Pending?
                              && env.wall(k) < p.waitMs && env.abort(k) == Never
    ensures Alike(p, env, Scenario(false, false, responses))
    ensures Sum(Sleeps(Follow(p, env, Start(p, initial)).0)) == p.waitMs
  {
    var f := Scenario(false, false, responses);
    forall k: nat | CanPoll(p, env, k) ensures k < |responses| {
      MultipleIsProduct(p.pollMs, k + 1);
      if k >= |responses| { ProductGrows(p.pollMs, |responses| + 1, k + 1); }
    }
    WaitLasts(p, env, initial);
    FirstAnswerIsReturned(p, env, initial);
    assert KeepsWaiting(env.reply(0));
  }

  lemma ProductGrows(p: nat, a: nat, b: nat)
    requires a <= b
    ensures p * a <= p * b
  {
  }
}
