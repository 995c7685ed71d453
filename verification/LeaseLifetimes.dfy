/** When the leases of `src/runtime/windows-runtime-cache.ts` are in place: from creation to release, through
    the passes of every collector.
 */
module LeaseLifetimes {
  import opened Bytes
  import opened RuntimeCache

  // ----- When a lease is in place -----

  /** The launch is not released, and this is its lease, or its child's during a hand-off. */
  ghost predicate Holds(w: World, id: nat, l: Lease, dir: string) {
    && id in w.launches && !w.launches[id].released && w.launches[id].directory == dir
    && (w.launches[id].lease == l || w.launches[id].child == Some(l))
  }

  /** The pass deletes this file: it examines the directory, and the file names a process that looks dead. */
  ghost predicate Drops(sha: string -> string, w: World, event: Event, dir: string, name: string) {
    && event.Pass? && DeadLease(event.o, name)
    && exists e :: e in w.cache.entries && e != event.current && Identity(sha, e) == dir
  }

  /** The lease file that a step creates or deletes, other than a pass or a foreign hand. */
  ghost function Touched(w: World, event: Event): Option<string>
    requires Allowed(w, event)
  {
    match event
    case TakeLease(_, _, _, _, pid, randomId) => Some(LeaseName(Launcher, pid, randomId))
    case BindChild(_, pid, randomId) => Some(LeaseName(Child, pid, randomId))
    case FinishBind(id, _) => Some(w.launches[id].lease.name)
    case Release(id, _) => if w.launches[id].released then None else Some(w.launches[id].lease.name)
    case _ => None
  }

  lemma StepOnFile(sha: string -> string, w: World, event: Event, dir: string, name: string)
    requires Allowed(w, event) && Touched(w, event) != Some(name) && event != PlaceFile(dir, name)
    ensures name in Files(Step(sha, w, event).cache.leases, dir)
       <==> name in Files(w.cache.leases, dir) && !Drops(sha, w, event, dir, name)
  {
    if event.Pass? { DeadLeaseExactly(event.o, name); }
  }

  /** A launch that keeps its lease, and every other launch, leave the lease file alone. */
  lemma HeldIsNotTouched(sha: string -> string, w: World, event: Event, id: nat, l: Lease, dir: string)
    requires Inv(sha, w) && Allowed(w, event) && Holds(w, id, l, dir) && Holds(Step(sha, w, event), id, l, dir)
    ensures Touched(w, event) != Some(l.name)
  {
    match event
    case TakeLease(_, _, _, _, pid, randomId) => HeldNameIsOld(sha, w, id, l, dir, Launcher, pid, randomId);
    case BindChild(_, pid, randomId) => HeldNameIsOld(sha, w, id, l, dir, Child, pid, randomId);
    case FinishBind(other, _) => HeldIsNotFinished(sha, w, id, l, dir, other);
    case Release(other, _) => HeldIsNotOfOther(sha, w, id, l, dir, other);
    case _ =>
  }

  lemma HeldNameIsOld(sha: string -> string, w: World, id: nat, l: Lease, dir: string, k: Kind, pid: nat,
                      randomId: string)
    requires Inv(sha, w) && Holds(w, id, l, dir) && RandomIdOk(randomId) && randomId !in w.randomIds
    ensures l.name != LeaseName(k, pid, randomId)
  {
    assert GoodLaunch(sha, w, w.launches[id]);
    NewNameIsNew(w, l, k, pid, randomId);
  }

  lemma HeldIsNotOfOther(sha: string -> string, w: World, id: nat, l: Lease, dir: string, other: nat)
    requires Inv(sha, w) && Holds(w, id, l, dir) && other in w.launches
    ensures other != id ==> l.name != w.launches[other].lease.name
  {
    assert l.name in Owned(w.launches[id]) && w.launches[other].lease.name in Owned(w.launches[other]);
  }

  lemma HeldIsNotFinished(sha: string -> string, w: World, id: nat, l: Lease, dir: string, other: nat)
    requires Inv(sha, w) && Holds(w, id, l, dir) && other in w.launches && w.launches[other].child.Some?
    requires other == id ==> l == w.launches[id].child.value
    ensures l.name != w.launches[other].lease.name
  {
    HeldIsNotOfOther(sha, w, id, l, dir, other);
  }

  ghost predicate There(worlds: seq<World>, dir: string, name: string, k: nat) {
    k < |worlds| && name in Files(worlds[k].cache.leases, dir)
  }

  /** While a launch keeps a lease, only a pass takes it away, unless someone places a file of its name. */
  lemma StepOnLease(sha: string -> string, events: seq<Event>, worlds: seq<World>, k: nat, id: nat, l: Lease,
                    dir: string)
    requires Run(sha, events, worlds) && k < |events| && Holds(worlds[k], id, l, dir)
             && Holds(worlds[k + 1], id, l, dir)
    requires events[k] != PlaceFile(dir, l.name)
    ensures There(worlds, dir, l.name, k + 1)
       <==> There(worlds, dir, l.name, k) && !DropsAt(sha, events, worlds, dir, l.name, k)
  {
    assert LeadsAt(sha, events, worlds, k);
    RunKeepsInv(sha, events, worlds, k);
    HeldIsNotTouched(sha, worlds[k], events[k], id, l, dir);
    StepOnFile(sha, worlds[k], events[k], dir, l.name);
  }

  lemma CreatedIsThere(sha: string -> string, events: seq<Event>, worlds: seq<World>, a: nat, id: nat, l: Lease,
                       dir: string)
    requires Run(sha, events, worlds) && a < |events| && Creates(events[a], id, l) && Holds(worlds[a + 1], id, l, dir)
    ensures There(worlds, dir, l.name, a + 1)
  {
    assert LeadsAt(sha, events, worlds, a);
  }

  /** The event creates this lease, for the launcher or for its child. */
  ghost predicate Creates(event: Event, id: nat, l: Lease) {
    || (event.TakeLease? && event.id == id && l == Lease(event.pid, LeaseName(Launcher, event.pid, event.randomId)))
    || (event.BindChild? && event.id == id && l == Lease(event.pid, LeaseName(Child, event.pid, event.randomId)))
  }

  /** The launch has kept the lease since event `a` created it. */
  ghost predicate HeldSince(worlds: seq<World>, a: nat, b: nat, id: nat, l: Lease, dir: string) {
    b < |worlds| && forall k :: a < k <= b ==> Holds(worlds[k], id, l, dir)
  }

  /** No pass since then has deleted the file. */
  ghost predicate NeverDropped(sha: string -> string, events: seq<Event>, worlds: seq<World>, a: nat, b: nat,
                               dir: string, name: string) {
    forall k: nat :: a < k < b ==> !DropsAt(sha, events, worlds, dir, name, k)
  }

  ghost predicate DropsAt(sha: string -> string, events: seq<Event>, worlds: seq<World>, dir: string, name: string,
                          k: nat) {
    k < |events| && k < |worlds| && Drops(sha, worlds[k], events[k], dir, name)
  }

  /** What is there, and is lost exactly by a drop, is there as long as nothing dropped it. */
  lemma {:induction false} Chain(there: nat -> bool, drops: nat -> bool, a: nat, b: nat)
    requires a < b && there(a + 1) && forall k: nat :: a < k < b ==> (there(k + 1) <==> there(k) && !drops(k))
    ensures there(b) <==> forall k: nat :: a < k < b ==> !drops(k)
    decreases b
  {
    if a + 1 == b {
    } else {
      Chain(there, drops, a, b - 1);
      assert there(b - 1 + 1) <==> there(b - 1) && !drops(b - 1);
    }
  }

  /** In every run, from its creation at `a` on and as long as the launch keeps it unreleased, a lease is in
      place exactly when no pass has examined its directory while its process looked dead. */
  lemma LeaseIsThereExactly(sha: string -> string, events: seq<Event>, worlds: seq<World>, a: nat, b: nat, id: nat,
                            l: Lease, dir: string)
    requires Run(sha, events, worlds) && a < b <= |events| && Creates(events[a], id, l)
    requires HeldSince(worlds, a, b, id, l, dir)
    requires forall k :: a < k < b ==> events[k] != PlaceFile(dir, l.name)
    ensures l.name in Files(worlds[b].cache.leases, dir) <==> NeverDropped(sha, events, worlds, a, b, dir, l.name)
  {
    CreatedIsThere(sha, events, worlds, a, id, l, dir);
    forall k: nat | a < k < b
      ensures There(worlds, dir, l.name, k + 1)
         <==> There(worlds, dir, l.name, k) && !DropsAt(sha, events, worlds, dir, l.name, k)
    {
      StepOnLease(sha, events, worlds, k, id, l, dir);
    }
    ThereExactly(sha, events, worlds, a, b, dir, l.name);
  }

  lemma ThereExactly(sha: string -> string, events: seq<Event>, worlds: seq<World>, a: nat, b: nat, dir: string,
                     name: string)
    requires a < b && There(worlds, dir, name, a + 1)
    requires forall k: nat :: a < k < b ==>
               (There(worlds, dir, name, k + 1)
                <==> There(worlds, dir, name, k) && !DropsAt(sha, events, worlds, dir, name, k))
    ensures There(worlds, dir, name, b) <==> NeverDropped(sha, events, worlds, a, b, dir, name)
  {
    var drops := (k: nat) => DropsAt(sha, events, worlds, dir, name, k);
    Chain((k: nat) => There(worlds, dir, name, k), drops, a, b);
    NeverDroppedIs(sha, events, worlds, a, b, dir, name, drops);
  }

  lemma NeverDroppedIs(sha: string -> string, events: seq<Event>, worlds: seq<World>, a: nat, b: nat, dir: string,
                       name: string, drops: nat -> bool)
    requires forall k: nat :: drops(k) <==> DropsAt(sha, events, worlds, dir, name, k)
    ensures NeverDropped(sha, events, worlds, a, b, dir, name) <==> forall k: nat :: a < k < b ==> !drops(k)
  {
    if NeverDropped(sha, events, worlds, a, b, dir, name) {
      forall k: nat | a < k < b ensures !drops(k) {
        assert !DropsAt(sha, events, worlds, dir, name, k);
      }
    }
  }

  // ----- Giving a lease up -----

  /** The event gives up the lease with this name: a release, or the launcher's half of a hand-off, whose
      deletion the file system allows. */
  ghost predicate GivesUp(w: World, event: Event, dir: string, name: string) {
    && ((event.Release? && event.deleted) || (event.FinishBind? && event.deleted))
    && event.id in w.launches && !w.launches[event.id].released
    && w.launches[event.id].directory == dir && w.launches[event.id].lease.name == name
  }

  lemma {:induction false} RandomIdsGrow(sha: string -> string, events: seq<Event>, worlds: seq<World>, a: nat, b: nat)
    requires Run(sha, events, worlds) && a <= b <= |events|
    ensures worlds[a].randomIds <= worlds[b].randomIds
    decreases b
  {
    if a == b {
    } else {
      RandomIdsGrow(sha, events, worlds, a, b - 1);
      assert LeadsAt(sha, events, worlds, b - 1);
    }
  }

  /** No step brings back a lease file that is gone, since every new lease has a new random id. */
  lemma GoneStaysGone(sha: string -> string, w: World, event: Event, l: Lease, dir: string)
    requires Allowed(w, event) && LeaseOk(w, l) && l.name !in Files(w.cache.leases, dir)
    requires event != PlaceFile(dir, l.name)
    ensures l.name !in Files(Step(sha, w, event).cache.leases, dir)
  {
    match event
    case TakeLease(_, _, _, _, pid, randomId) => NewNameIsNew(w, l, Launcher, pid, randomId);
    case BindChild(_, pid, randomId) => NewNameIsNew(w, l, Child, pid, randomId);
    case _ =>
  }

  /** In every run, a lease that its launch gives up is gone at every later moment, unless someone places a
      file of that name. */
  lemma {:induction false} GivenUpLeaseIsGone(sha: string -> string, events: seq<Event>, worlds: seq<World>, a: nat,
                                              b: nat, dir: string, name: string)
    requires Run(sha, events, worlds) && a < b <= |events| && GivesUp(worlds[a], events[a], dir, name)
    requires forall k :: a < k < b ==> events[k] != PlaceFile(dir, name)
    ensures name !in Files(worlds[b].cache.leases, dir)
    decreases b
  {
    assert LeadsAt(sha, events, worlds, b - 1);
    if a + 1 == b {
    } else {
      GivenUpLeaseIsGone(sha, events, worlds, a, b - 1, dir, name);
      LeaseStaysOk(sha, events, worlds, a, b - 1, events[a].id);
      GoneStaysGone(sha, worlds[b - 1], events[b - 1], worlds[a].launches[events[a].id].lease, dir);
    }
  }

  lemma LeaseStaysOk(sha: string -> string, events: seq<Event>, worlds: seq<World>, a: nat, b: nat, id: nat)
    requires Run(sha, events, worlds) && a <= b <= |events| && id in worlds[a].launches
    ensures LeaseOk(worlds[b], worlds[a].launches[id].lease)
  {
    RunKeepsInv(sha, events, worlds, a);
    assert GoodLaunch(sha, worlds[a], worlds[a].launches[id]);
    RandomIdsGrow(sha, events, worlds, a, b);
    LeaseOkGrows(worlds[a], worlds[b], worlds[a].launches[id].lease);
  }

  lemma CollectOne(sha: string -> string, e: Entry, current: Entry, o: Outside, files: set<string>)
    requires e != current && !o.locked(e)
    ensures Collect(sha, Cache({e}, map[Identity(sha, e) := files]), current, o)
         == Cache(if HasActive(o, files) then {e} else {}, map[Identity(sha, e) := Kept(o, files)])
  {
    var id := Identity(sha, e);
    assert Examined(sha, {e}, current, id) by { assert e in {e}; }
    var d := Collect(sha, Cache({e}, map[id := files]), current, o);
    assert d.leases == map[id := Kept(o, files)];
    assert d.entries == if HasActive(o, files) then {e} else {};
  }

  /** The worlds of a hand-off to child 2, which has exited, by launcher 1. */
  function HandOffWorlds(e: Entry, dir: string, r: string, q: string): seq<World> {
    var mine, childs := LeaseName(Launcher, 1, r), LeaseName(Child, 2, q);
    var held := Launch(e, dir, Lease(1, mine), None, false, true);
    var done := held.(lease := Lease(2, childs));
    [World(Cache({}, map[]), map[], {1}, {}),
     World(Cache({e}, map[]), map[], {1}, {}),
     World(Cache({e}, map[dir := {mine}]), map[0 := held], {1}, {r}),
     World(Cache({e}, map[dir := {mine, childs}]), map[0 := held.(child := Some(Lease(2, childs)))], {1}, {r, q}),
     World(Cache({e}, map[dir := {mine}]), map[0 := held.(child := Some(Lease(2, childs)))], {1}, {r, q}),
     World(Cache({e}, map[dir := {}]), map[0 := done], {1}, {r, q}),
     World(Cache({}, map[dir := {}]), map[0 := done], {1}, {r, q})]
  }

  lemma HandOffPasses(sha: string -> string, e: Entry, current: Entry, o: Outside, r: string, q: string)
    requires RandomIdOk(r) && RandomIdOk(q) && e != current
    requires o == Outside(pid => pid == 1, file => false, entry => false)
    ensures var ws := HandOffWorlds(e, Identity(sha, e), r, q);
            && Leads(sha, ws[3], Pass(current, o), ws[4]) && Leads(sha, ws[5], Pass(current, o), ws[6])
  {
    var mine, childs := LeaseName(Launcher, 1, r), LeaseName(Child, 2, q);
    LeaseIsRecognised(Launcher, 1, r);
    LeaseIsRecognised(Child, 2, q);
    assert Keeps(o, mine) && !Keeps(o, childs);
    assert Kept(o, {mine, childs}) == {mine} && HasActive(o, {mine, childs});
    assert Kept(o, {}) == {} && !HasActive(o, {});
    CollectOne(sha, e, current, o, {mine, childs});
    CollectOne(sha, e, current, o, {});
  }

  lemma HandOffTakes(sha: string -> string, packageName: string, e: Entry, r: string, q: string)
    requires PackageSegment(packageName) == Some(e.platform) && RandomIdOk(r)
    ensures var ws := HandOffWorlds(e, Identity(sha, e), r, q);
            && Leads(sha, ws[0], Install(e), ws[1])
            && Leads(sha, ws[1], TakeLease(0, packageName, e.version, e.hash, 1, r), ws[2])
  {
    var ws, event := HandOffWorlds(e, Identity(sha, e), r, q), TakeLease(0, packageName, e.version, e.hash, 1, r);
    IdentitiesAgree(sha, packageName, e.version, e.hash);
    var v, dir, mine := Step(sha, ws[1], event), Identity(sha, e), LeaseName(Launcher, 1, r);
    assert Files(map[], dir) + {mine} == {mine} && {} + {r} == {r};
    assert v.cache.leases == map[dir := {mine}];
    assert v.launches == ws[2].launches;
  }

  lemma HandOffBinds(sha: string -> string, e: Entry, r: string, q: string)
    requires RandomIdOk(q) && r != q
    ensures var ws := HandOffWorlds(e, Identity(sha, e), r, q); Leads(sha, ws[2], BindChild(0, 2, q), ws[3])
  {
    var ws := HandOffWorlds(e, Identity(sha, e), r, q);
    var v, dir := Step(sha, ws[2], BindChild(0, 2, q)), Identity(sha, e);
    var mine, childs := LeaseName(Launcher, 1, r), LeaseName(Child, 2, q);
    assert {mine} + {childs} == {mine, childs} && {r} + {q} == {r, q};
    assert v.cache.leases == map[dir := {mine, childs}];
    assert v.launches == ws[3].launches;
  }

  lemma HandOffFinishes(sha: string -> string, e: Entry, r: string, q: string)
    ensures var ws := HandOffWorlds(e, Identity(sha, e), r, q); Leads(sha, ws[4], FinishBind(0, true), ws[5])
  {
    var ws := HandOffWorlds(e, Identity(sha, e), r, q);
    var v, dir, mine := Step(sha, ws[4], FinishBind(0, true)), Identity(sha, e), LeaseName(Launcher, 1, r);
    assert {mine} - {mine} == {};
    assert v.cache.leases == map[dir := {}];
    assert v.launches == ws[5].launches;
  }

  lemma SixSteps(sha: string -> string, events: seq<Event>, worlds: seq<World>)
    requires |events| == 6 && |worlds| == 7 && worlds[0].launches == map[]
    requires Leads(sha, worlds[0], events[0], worlds[1]) && Leads(sha, worlds[1], events[1], worlds[2])
    requires Leads(sha, worlds[2], events[2], worlds[3]) && Leads(sha, worlds[3], events[3], worlds[4])
    requires Leads(sha, worlds[4], events[4], worlds[5]) && Leads(sha, worlds[5], events[5], worlds[6])
    ensures Run(sha, events, worlds)
  {
    forall i: nat | i < 6 ensures LeadsAt(sha, events, worlds, i) {
      assert i == 0 || i == 1 || i == 2 || i == 3 || i == 4 || i == 5;
    }
  }

  /** Install, lease, start the hand-off; a foreign pass; finish the hand-off; a foreign pass.  The child, which
      has exited, looks dead. */
  function HandOffEvents(packageName: string, e: Entry, current: Entry, r: string, q: string): seq<Event> {
    var o := Outside(pid => pid == 1, file => false, entry => false);
    [Install(e), TakeLease(0, packageName, e.version, e.hash, 1, r), BindChild(0, 2, q), Pass(current, o),
     FinishBind(0, true), Pass(current, o)]
  }

  /** A hand-off to a child that has already exited leaves the launch without a lease: a pass deletes the
      child's lease, the launcher deletes its own, and the next pass takes the entry, all while the launch
      is unreleased and its launcher runs. */
  lemma HandOffCanLoseLease(sha: string -> string, packageName: string, e: Entry, current: Entry, r: string, q: string)
    requires PackageSegment(packageName) == Some(e.platform) && e != current
    requires RandomIdOk(r) && RandomIdOk(q) && r != q
    ensures Run(sha, HandOffEvents(packageName, e, current, r, q), HandOffWorlds(e, Identity(sha, e), r, q))
    ensures var w := HandOffWorlds(e, Identity(sha, e), r, q)[6];
            && 0 in w.launches && w.launches[0].entry == e && !w.launches[0].released && 1 in w.running
            && Files(w.cache.leases, w.launches[0].directory) == {} && e !in w.cache.entries
  {
    var events, worlds := HandOffEvents(packageName, e, current, r, q), HandOffWorlds(e, Identity(sha, e), r, q);
    HandOffTakes(sha, packageName, e, r, q);
    HandOffBinds(sha, e, r, q);
    HandOffFinishes(sha, e, r, q);
    HandOffPasses(sha, e, current, events[3].o, r, q);
    SixSteps(sha, events, worlds);
  }
}
