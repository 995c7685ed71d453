/** What a wait for a grant reports on the way (`awaitGrant` of `src/credential/await-grant.ts`): the grant that
    each heartbeat names, the time that each poll is given, and the pending result at the end.
 */
module GrantReports {
  import opened Bytes
  import opened GrantWait

  /** The newest grant id among the pending grant at the start and the first `n` replies. */
  function LatestGrant(env: Env, initial: Access, n: nat): Option<string> {
    if n == 0 then (match initial case Pending(Some(id)) => Some(id) case _ => None)
    else
      match env.reply(n - 1)
      case Replied(Pending(Some(id))) => Some(id)
      case _ => LatestGrant(env, initial, n - 1)
  }

  /** The newest pending answer among them. */
  function LatestPending(env: Env, initial: Access, n: nat): Access {
    if n == 0 then initial
    else
      match env.reply(n - 1)
      case Replied(Pending(id)) => Pending(id)
      case _ => LatestPending(env, initial, n - 1)
  }

  /** The time given to the `k`-th poll: within the poll's own limit, the rest of the budget and the rest of the
      wall clock as far as these leave a millisecond, and as long as they allow. */
  ghost predicate Fits(p: Policy, env: Env, k: nat, at: nat, ms: nat) {
    && ms >= 1 && env.wall(k) < p.waitMs && at <= p.waitMs
    && (ms == 1 || (ms <= p.pollTimeoutMs && ms <= p.waitMs - at && ms <= p.waitMs - env.wall(k)))
    && (ms >= p.pollTimeoutMs || ms >= p.waitMs - at || ms >= p.waitMs - env.wall(k))
  }

  predicate LateBeat(e: Event, at: nat) { e.Beat? && !e.scheduled && e.at == at }

  /** What the `i`-th event says, when `n` polls came before the events. */
  ghost predicate TellsAt(p: Policy, env: Env, initial: Access, n: nat, events: seq<Event>, i: nat) {
    i < |events| &&
    var k := n + |Polls(events[..i])|;
    match events[i]
    case Slept(_) => true
    case Beat(at, grantId, scheduled) =>
      && grantId == LatestGrant(env, initial, k)
      && (!scheduled ==> i > 0 && k > 0 && PollAt(events[i - 1], at) && env.reply(k - 1).TimedOut?)
    case Polled(at, ms) =>
      && Fits(p, env, k, at, ms)
      && (env.reply(k).TimedOut? ==> i + 1 < |events| && LateBeat(events[i + 1], at))
  }

  predicate PollAt(e: Event, at: nat) { e.Polled? && e.at == at }

  ghost predicate Tells(p: Policy, env: Env, initial: Access, n: nat, events: seq<Event>) {
    forall i: nat :: i < |events| ==> TellsAt(p, env, initial, n, events, i)
  }

  lemma PollsBefore(a: seq<Event>, b: seq<Event>, i: nat)
    requires |a| <= i <= |a + b|
    ensures |Polls((a + b)[..i])| == |Polls(a)| + |Polls(b[..i - |a|])|
  {
    assert (a + b)[..i] == a + b[..i - |a|];
    SplitPick(a, b[..i - |a|], PollOf);
  }

  lemma TellsJoin(p: Policy, env: Env, initial: Access, n: nat, a: seq<Event>, b: seq<Event>)
    requires Tells(p, env, initial, n, a) && Tells(p, env, initial, n + |Polls(a)|, b)
    ensures Tells(p, env, initial, n, a + b)
  {
    forall i: nat | i < |a + b| ensures TellsAt(p, env, initial, n, a + b, i) {
      if i < |a| {
        TellsLeft(p, env, initial, n, a, b, i);
      } else {
        TellsRight(p, env, initial, n, a, b, i);
      }
    }
  }

  lemma TellsLeft(p: Policy, env: Env, initial: Access, n: nat, a: seq<Event>, b: seq<Event>, i: nat)
    requires TellsAt(p, env, initial, n, a, i)
    ensures TellsAt(p, env, initial, n, a + b, i)
  {
    assert (a + b)[..i] == a[..i];
  }

  lemma TellsRight(p: Policy, env: Env, initial: Access, n: nat, a: seq<Event>, b: seq<Event>, i: nat)
    requires |a| <= i < |a + b| && Tells(p, env, initial, n + |Polls(a)|, b)
    ensures TellsAt(p, env, initial, n, a + b, i)
  {
    assert TellsAt(p, env, initial, n + |Polls(a)|, b, i - |a|);
    PollsBefore(a, b, i);
  }

  /** The state remembers the newest grant id and the newest pending answer. */
  ghost predicate Remembers(env: Env, initial: Access, s: State) {
    s.grantId == LatestGrant(env, initial, s.polls) && s.last == LatestPending(env, initial, s.polls)
  }

  lemma OneTells(p: Policy, env: Env, initial: Access, n: nat, e: Event)
    requires match e
             case Slept(_) => true
             case Beat(_, grantId, scheduled) => scheduled && grantId == LatestGrant(env, initial, n)
             case Polled(at, ms) => Fits(p, env, n, at, ms) && !env.reply(n).TimedOut?
    ensures Tells(p, env, initial, n, [e])
  {
    assert [e][..0] == [];
  }

  lemma LateTells(p: Policy, env: Env, initial: Access, n: nat, at: nat, ms: nat, grantId: Option<string>)
    requires Fits(p, env, n, at, ms) && env.reply(n).TimedOut? && grantId == LatestGrant(env, initial, n)
    ensures Tells(p, env, initial, n, [Polled(at, ms), Beat(at, grantId, false)])
  {
    var events := [Polled(at, ms), Beat(at, grantId, false)];
    assert events[..0] == [] && events[..1] == [Polled(at, ms)];
    PickOne(Polled(at, ms), PollOf);
    assert TellsAt(p, env, initial, n, events, 0) && TellsAt(p, env, initial, n, events, 1);
  }

  lemma PollTells(p: Policy, env: Env, initial: Access, s: State)
    requires s.waited <= p.waitMs && Remembers(env, initial, s)
    ensures Tells(p, env, initial, s.polls, AfterPoll(p, env, s).0)
    ensures AfterPoll(p, env, s).1.Go? ==> Remembers(env, initial, AfterPoll(p, env, s).1.next)
  {
    if PollDue(p, env, s, s.waited) {
      var poll := PollEvent(p, env, s);
      assert Fits(p, env, s.polls, s.waited, poll.timeoutMs);
      if env.reply(s.polls).TimedOut? {
        LateTells(p, env, initial, s.polls, s.waited, poll.timeoutMs, s.grantId);
      } else {
        OneTells(p, env, initial, s.polls, poll);
      }
    }
  }

  lemma BeatTells(p: Policy, env: Env, initial: Access, s: State, now: nat)
    requires Remembers(env, initial, s)
    ensures Tells(p, env, initial, s.polls, AfterBeat(p, s, now).0) && Polls(AfterBeat(p, s, now).0) == []
    ensures Remembers(env, initial, AfterBeat(p, s, now).1)
  {
    OneTells(p, env, initial, s.polls, Beat(now, s.grantId, true));
    PickOne(Beat(now, s.grantId, true), PollOf);
  }

  lemma TurnTells(p: Policy, env: Env, initial: Access, s: State)
    requires s.waited <= WakeAt(p, s) && Remembers(env, initial, s)
    ensures Tells(p, env, initial, s.polls, TakeTurn(p, env, s).0)
    ensures TakeTurn(p, env, s).1.Go? ==> Remembers(env, initial, TakeTurn(p, env, s).1.next)
  {
    if env.abort(s.turns) == Never {
      var now, r := WakeAt(p, s), s.(turns := s.turns + 1);
      var (beat, t) := AfterBeat(p, r, now);
      var sleep := [Slept(now - s.waited)];
      OneTells(p, env, initial, s.polls, sleep[0]);
      PickOne(sleep[0], PollOf);
      BeatTells(p, env, initial, r, now);
      TellsJoin(p, env, initial, s.polls, sleep, beat);
      SplitPick(sleep, beat, PollOf);
      PollTells(p, env, initial, t);
      TellsJoin(p, env, initial, s.polls, sleep + beat, AfterPoll(p, env, t).0);
    }
  }

  /** A wait that ends pending returns the newest pending answer. */
  ghost predicate EndsPending(env: Env, initial: Access, n: nat, outcome: Outcome) {
    outcome.Returned? && outcome.access.Pending? ==> outcome.access == LatestPending(env, initial, n)
  }

  lemma StopTells(p: Policy, env: Env, initial: Access, s: State)
    requires OnGrid(p, s) && s.waited < p.waitMs && Remembers(env, initial, s)
    requires TakeTurn(p, env, s).1.Stop?
    ensures EndsPending(env, initial, s.polls + |Polls(TakeTurn(p, env, s).0)|, TakeTurn(p, env, s).1.outcome)
  {
    if env.abort(s.turns) == Never { TurnTrace(p, env, s); }
  }

  lemma TurnPolls(p: Policy, env: Env, s: State)
    requires OnGrid(p, s) && s.waited < p.waitMs && TakeTurn(p, env, s).1.Go?
    ensures TakeTurn(p, env, s).1.next.polls == s.polls + |Polls(TakeTurn(p, env, s).0)|
  {
    TurnNumbers(p, env, s);
    TurnTrace(p, env, s);
  }

  /** Everything that a wait says from some poll on, and how it ends. */
  ghost predicate Reported(p: Policy, env: Env, initial: Access, n: nat, rest: (seq<Event>, Outcome)) {
    Tells(p, env, initial, n, rest.0) && EndsPending(env, initial, n + |Polls(rest.0)|, rest.1)
  }

  lemma ReportedJoin(p: Policy, env: Env, initial: Access, n: nat, now: seq<Event>, rest: (seq<Event>, Outcome))
    requires Tells(p, env, initial, n, now) && Reported(p, env, initial, n + |Polls(now)|, rest)
    ensures Reported(p, env, initial, n, (now + rest.0, rest.1))
  {
    TellsJoin(p, env, initial, n, now, rest.0);
    SplitPick(now, rest.0, PollOf);
  }

  lemma {:induction false} FollowTells(p: Policy, env: Env, initial: Access, s: State)
    requires OnGrid(p, s) && Remembers(env, initial, s)
    ensures Reported(p, env, initial, s.polls, Follow(p, env, s))
    decreases p.waitMs - s.waited
  {
    if s.waited >= p.waitMs {
      FollowEnds(p, env, s);
    } else {
      FollowTurns(p, env, s);
      TurnTells(p, env, initial, s);
      if TakeTurn(p, env, s).1.Stop? {
        StopTells(p, env, initial, s);
      } else {
        var next := TakeTurn(p, env, s).1.next;
        TurnPolls(p, env, s);
        FollowTells(p, env, initial, next);
        ReportedJoin(p, env, initial, s.polls, TakeTurn(p, env, s).0, Follow(p, env, next));
      }
    }
  }

  /** For every policy and every environment: each heartbeat names the newest grant known by then, an extra
      heartbeat follows exactly the polls that time out, each poll is given as long as its limit, the budget and
      the wall clock allow, and a wait that ends pending returns the newest pending answer. */
  lemma WaitReports(p: Policy, env: Env, initial: Access)
    requires p.pollMs > 0 && p.heartbeatMs > 0
    ensures var (events, outcome) := Follow(p, env, Start(p, initial));
            && (forall i: nat :: i < |events| ==> TellsAt(p, env, initial, 0, events, i))
            && (outcome.Returned? && outcome.access.Pending? ==>
                  outcome.access == LatestPending(env, initial, |Polls(events)|))
  {
    FollowTells(p, env, initial, Start(p, initial));
  }
}
