/** The lease-protected runtime cache of `src/runtime/windows-runtime-cache.ts`.

    Many launchers share one cache.  Installing an entry, taking a lease, each half of the hand-off
    to the child, releasing, and one whole collection pass are separate steps that interleave in
    any order.  SHA-256 is an arbitrary function, and any file or directory may refuse deletion.
 */
module RuntimeCache {
  import opened Bytes
  import opened Decimals

  // ----- Identities -----

  /** A cached runtime: the package directory, the version and the executable's hash. */
  datatype Entry = Entry(platform: string, version: string, hash: string)

  const ARM := "win32-arm64"
  const X64 := "win32-x64"

  /** `packageSegment`: the directory of a package name. */
  function PackageSegment(packageName: string): Option<string> {
    if packageName == "@palladin/runtime-win32-arm64" then Some(ARM)
    else if packageName == "@palladin/runtime-win32-x64" then Some(X64)
    else None
  }

  /** `entryIdentity`: where a launcher keeps its leases. */
  function LauncherIdentity(sha: string -> string, packageName: string, version: string, hash: string): string {
    sha(packageName + "\0" + version + "\0" + hash)
  }

  /** Where the collector looks for the leases of a directory. */
  function Identity(sha: string -> string, e: Entry): string {
    sha("@palladin/runtime-" + e.platform + "\0" + e.version + "\0" + e.hash)
  }

  /** The collector looks where the launcher leases. */
  lemma IdentitiesAgree(sha: string -> string, packageName: string, version: string, hash: string)
    requires PackageSegment(packageName).Some?
    ensures LauncherIdentity(sha, packageName, version, hash)
            == Identity(sha, Entry(PackageSegment(packageName).value, version, hash))
  {
    assert "@palladin/runtime-" + ARM == "@palladin/runtime-win32-arm64";
    assert "@palladin/runtime-" + X64 == "@palladin/runtime-win32-x64";
  }

  // ----- Lease file names -----

  datatype Kind = Launcher | Child

  predicate RandomIdOk(r: string) {
    |r| == 36 && forall i :: 0 <= i < 36 ==> IsDigit(r[i]) || 'a' <= r[i] <= 'f' || r[i] == '-'
  }

  function Prefix(k: Kind): string { match k case Launcher => "launcher-" case Child => "child-" }

  const SUFFIX := ".lease"

  function LeaseName(k: Kind, pid: nat, randomId: string): string {
    Prefix(k) + (Decimal(pid) + ("-" + (randomId + SUFFIX)))
  }

  /** The process id of what follows the prefix, if it has the form of a lease. */
  function ParseTail(t: string): Option<nat> {
    if |t| < 44 then None
    else
      var digits, rest := t[..|t| - 43], t[|t| - 43..];
      if && Digits(digits)
         && rest[0] == '-' && RandomIdOk(rest[1..37]) && rest[37..] == SUFFIX
      then Some(Number(digits)) else None
  }

  /** The expression `LEASE`: the process id that a file name carries. */
  function ParseLease(name: string): Option<nat> {
    if Prefix(Launcher) <= name then ParseTail(name[|Prefix(Launcher)|..])
    else if Prefix(Child) <= name then ParseTail(name[|Prefix(Child)|..])
    else None
  }

  lemma TailRoundTrip(pid: nat, randomId: string)
    requires RandomIdOk(randomId)
    ensures ParseTail(Decimal(pid) + ("-" + (randomId + SUFFIX))) == Some(pid)
  {
    var end := "-" + (randomId + SUFFIX);
    var t := Decimal(pid) + end;
    assert |end| == 43;
    assert t[..|t| - 43] == Decimal(pid) && t[|t| - 43..] == end;
    assert end[1..37] == randomId && end[37..] == SUFFIX;
    DecimalRoundTrip(pid);
  }

  /** A created lease is recognised, with the process id it was created for. */
  lemma LeaseIsRecognised(k: Kind, pid: nat, randomId: string)
    requires RandomIdOk(randomId)
    ensures ParseLease(LeaseName(k, pid, randomId)) == Some(pid)
  {
    var t := Decimal(pid) + ("-" + (randomId + SUFFIX));
    var name := Prefix(k) + t;
    assert name[|Prefix(k)|..] == t;
    assert k == Child ==> name[0] == 'c' && Prefix(Launcher)[0] == 'l';
    TailRoundTrip(pid, randomId);
  }

  /** The file names that count as leases: a kind, a process id in digits, and a random id. */
  ghost predicate IsLeaseFile(name: string, k: Kind, digits: string, r: string) {
    && digits != "" && Digits(digits) && RandomIdOk(r)
    && name == Prefix(k) + (digits + ("-" + (r + SUFFIX)))
  }

  lemma TailParses(digits: string, r: string)
    requires digits != "" && Digits(digits) && RandomIdOk(r)
    ensures ParseTail(digits + ("-" + (r + SUFFIX))) == Some(Number(digits))
  {
    var end := "-" + (r + SUFFIX);
    var t := digits + end;
    assert |end| == 43;
    assert t[..|t| - 43] == digits && t[|t| - 43..] == end;
    assert end[1..37] == r && end[37..] == SUFFIX;
  }

  lemma LeaseFileParses(name: string, k: Kind, digits: string, r: string)
    requires IsLeaseFile(name, k, digits, r)
    ensures ParseLease(name) == Some(Number(digits))
  {
    assert name[|Prefix(k)|..] == digits + ("-" + (r + SUFFIX));
    assert k == Child ==> name[0] == 'c' && Prefix(Launcher)[0] == 'l';
    TailParses(digits, r);
  }

  lemma ParsedTail(t: string) returns (digits: string, r: string)
    requires ParseTail(t).Some?
    ensures digits != "" && Digits(digits) && RandomIdOk(r) && t == digits + ("-" + (r + SUFFIX))
    ensures ParseTail(t) == Some(Number(digits))
  {
    var rest := t[|t| - 43..];
    digits, r := t[..|t| - 43], rest[1..37];
    assert rest == [rest[0]] + (rest[1..37] + rest[37..]);
    assert t == digits + rest;
  }

  lemma ParsedIsLeaseFile(name: string) returns (k: Kind, digits: string, r: string)
    requires ParseLease(name).Some?
    ensures IsLeaseFile(name, k, digits, r) && ParseLease(name) == Some(Number(digits))
  {
    k := if Prefix(Launcher) <= name then Launcher else Child;
    digits, r := ParsedTail(name[|Prefix(k)|..]);
    assert name == Prefix(k) + name[|Prefix(k)|..];
  }

  /** A file name is recognised exactly when it has the form of a lease, with the number that it carries. */
  lemma ParseLeaseExactly(name: string, pid: nat)
    ensures ParseLease(name) == Some(pid)
       <==> exists k: Kind, digits: string, r: string :: IsLeaseFile(name, k, digits, r) && Number(digits) == pid
  {
    if ParseLease(name).Some? {
      var k, digits, r := ParsedIsLeaseFile(name);
      assert IsLeaseFile(name, k, digits, r);
    }
    if k: Kind, digits: string, r: string :| IsLeaseFile(name, k, digits, r) && Number(digits) == pid {
      LeaseFileParses(name, k, digits, r);
    }
  }

  /** Lease names with different random ids differ. */
  lemma LeaseNamesDiffer(k: Kind, pid: nat, r: string, k': Kind, pid': nat, r': string)
    requires |r| == |r'| == 36 && r != r'
    ensures LeaseName(k, pid, r) != LeaseName(k', pid', r')
  {
    EndsInRandomId(k, pid, r);
    EndsInRandomId(k', pid', r');
  }

  lemma EndsInRandomId(k: Kind, pid: nat, r: string)
    requires |r| == 36
    ensures var n := LeaseName(k, pid, r); |n| >= 42 && n[|n| - 42..|n| - 6] == r
  {
    var n := LeaseName(k, pid, r);
    assert n[|n| - 42..] == r + SUFFIX;
    assert n[|n| - 42..|n| - 6] == (r + SUFFIX)[..36];
  }

  // ----- One collection pass -----

  type Leases = map<string, set<string>>

  function Files(leases: Leases, id: string): set<string> { if id in leases then leases[id] else {} }

  /** How the outside answers during a pass: which processes look alive, which lease files cannot be
      deleted, and which entries are locked. */
  datatype Outside = Outside(alive: nat -> bool, stuck: string -> bool, locked: Entry -> bool)

  /** A file that keeps its entry: unrecognised, of a live process, or undeletable. */
  predicate Keeps(o: Outside, file: string) {
    var pid := ParseLease(file);
    pid.None? || o.alive(pid.value) || o.stuck(file)
  }

  predicate HasActive(o: Outside, files: set<string>) { exists f :: f in files && Keeps(o, f) }

  function Kept(o: Outside, files: set<string>): set<string> { set f | f in files && Keeps(o, f) }

  datatype Cache = Cache(entries: set<Entry>, leases: Leases)

  /** The entries whose lease directory a pass examines. */
  predicate Examined(sha: string -> string, entries: set<Entry>, current: Entry, id: string) {
    exists e :: e in entries && e != current && Identity(sha, e) == id
  }

  /** `collectInactiveEntries` as one step. */
  function Collect(sha: string -> string, c: Cache, current: Entry, o: Outside): Cache {
    Cache(set e | e in c.entries && (e == current || HasActive(o, Files(c.leases, Identity(sha, e))) || o.locked(e)),
          map id | id in c.leases ::
            if Examined(sha, c.entries, current, id) then Kept(o, c.leases[id]) else c.leases[id])
  }

  /** The cache directory; a pass deletes lease files and entries one by one. */
  class CacheDirectory {
    const sha: string -> string
    var entries: set<Entry>
    var leases: Leases

    ghost function View(): Cache
      reads this
    {
      Cache(entries, leases)
    }

    constructor (sha: string -> string, entries: set<Entry>, leases: Leases)
      ensures this.sha == sha && View() == Cache(entries, leases)
    {
      this.sha, this.entries, this.leases := sha, entries, leases;
    }

    /** `hasActiveLease`: looks at every file and deletes those of dead processes. */
    method HasActiveLease(id: string, o: Outside) returns (active: bool)
      modifies this`leases
      ensures active == HasActive(o, old(Files(leases, id)))
      ensures Files(leases, id) == Kept(o, old(Files(leases, id)))
      ensures leases.Keys == old(leases.Keys) && forall i :: i in leases && i != id ==> leases[i] == old(leases)[i]
    {
      if id !in leases { return false; }
      active := false;
      var files := leases[id];
      var todo := files;
      while todo != {}
        invariant todo <= files && id in leases
        invariant leases.Keys == old(leases.Keys) && forall i :: i in leases && i != id ==> leases[i] == old(leases)[i]
        invariant leases[id] == todo + Kept(o, files - todo)
        invariant active == HasActive(o, files - todo)
        decreases todo
      {
        var file :| file in todo;
        ghost var done := files - todo;
        var pid := ParseLease(file);
        if pid.None? || o.alive(pid.value) || o.stuck(file) {
          active := true;
        } else {
          leases := leases[id := leases[id] - {file}];
        }
        todo := todo - {file};
        assert files - todo == done + {file};
        assert HasActive(o, done + {file}) == (HasActive(o, done) || Keeps(o, file));
      }
      assert files - todo == files;
    }

    /** `collectInactiveEntries` */
    method CollectInactive(current: Entry, o: Outside)
      modifies this
      ensures View() == Collect(sha, old(View()), current, o)
    {
      ghost var start := View();
      var todo := entries;
      ghost var done: set<Entry> := {};
      while todo != {}
        invariant todo !! done && todo + done == start.entries
        invariant Progress(sha, start, current, o, done, View())
        decreases todo
      {
        var e :| e in todo;
        todo := todo - {e};
        ghost var before := View();
        if e != current {
          var id := Identity(sha, e);
          var active := HasActiveLease(id, o);
          if !active && !o.locked(e) { entries := entries - {e}; }
          PassEntry(sha, start, current, o, done, before, View(), e);
        } else {
          PassCurrent(sha, start, current, o, done, before);
        }
        done := done + {e};
      }
      PassEnds(sha, start, current, o, View());
    }
  }

  /** A pass that has been over the entries `done`. */
  ghost predicate Progress(sha: string -> string, start: Cache, current: Entry, o: Outside, done: set<Entry>,
                           c: Cache) {
    && c.leases.Keys == start.leases.Keys
    && (forall id :: id in start.leases ==>
          c.leases[id] == if Examined(sha, done, current, id) then Kept(o, start.leases[id]) else start.leases[id])
    && (forall e :: e in c.entries <==> e in start.entries && (e !in done || Survives(sha, start, current, o, e)))
  }

  predicate Survives(sha: string -> string, c: Cache, current: Entry, o: Outside, e: Entry) {
    e == current || HasActive(o, Files(c.leases, Identity(sha, e))) || o.locked(e)
  }

  lemma KeptTwice(o: Outside, files: set<string>)
    ensures Kept(o, Kept(o, files)) == Kept(o, files) && HasActive(o, Kept(o, files)) == HasActive(o, files)
  {
    if f :| f in files && Keeps(o, f) { assert f in Kept(o, files); }
  }

  lemma ExaminedMore(sha: string -> string, done: set<Entry>, current: Entry, e: Entry, id: string)
    ensures Examined(sha, done + {e}, current, id)
            == (Examined(sha, done, current, id) || (e != current && Identity(sha, e) == id))
  {
    if x :| x in done && x != current && Identity(sha, x) == id { assert x in done + {e}; }
    if e != current && Identity(sha, e) == id { assert e in done + {e}; }
  }

  lemma PassCurrent(sha: string -> string, start: Cache, current: Entry, o: Outside, done: set<Entry>, c: Cache)
    requires Progress(sha, start, current, o, done, c)
    ensures Progress(sha, start, current, o, done + {current}, c)
  {
    forall id | id in start.leases
      ensures Examined(sha, done + {current}, current, id) == Examined(sha, done, current, id)
    {
      ExaminedMore(sha, done, current, current, id);
    }
  }

  lemma PassEntry(sha: string -> string, start: Cache, current: Entry, o: Outside, done: set<Entry>, c: Cache,
                  d: Cache, e: Entry)
    requires Progress(sha, start, current, o, done, c) && e in start.entries && e !in done && e != current
    requires var id := Identity(sha, e);
             && d.leases.Keys == c.leases.Keys && (forall i :: i in d.leases && i != id ==> d.leases[i] == c.leases[i])
             && Files(d.leases, id) == Kept(o, Files(c.leases, id))
             && d.entries == if HasActive(o, Files(c.leases, id)) || o.locked(e) then c.entries else c.entries - {e}
    ensures Progress(sha, start, current, o, done + {e}, d)
  {
    var id := Identity(sha, e);
    KeptTwice(o, Files(start.leases, id));
    forall i | i in start.leases
      ensures d.leases[i] == if Examined(sha, done + {e}, current, i) then Kept(o, start.leases[i]) else start.leases[i]
    {
      ExaminedMore(sha, done, current, e, i);
    }
    assert HasActive(o, Files(c.leases, id)) == HasActive(o, Files(start.leases, id));
  }

  lemma PassEnds(sha: string -> string, start: Cache, current: Entry, o: Outside, c: Cache)
    requires Progress(sha, start, current, o, start.entries, c)
    ensures c == Collect(sha, start, current, o)
  {
    var d := Collect(sha, start, current, o);
    assert c.entries == d.entries;
    assert c.leases.Keys == d.leases.Keys;
    assert c.leases == d.leases;
  }

  // ----- Launches -----

  datatype Lease = Lease(pid: nat, name: string)

  /** The launcher's lease directory, the lease that protects a launch now, the child's lease during a
      hand-off, and whether the entry was there when the first lease was taken. */
  datatype Launch = Launch(entry: Entry, directory: string, lease: Lease, child: Option<Lease>, released: bool,
                           installed: bool)

  datatype World = World(cache: Cache, launches: map<nat, Launch>, running: set<nat>, randomIds: set<string>)

  datatype Event =
    | Install(e: Entry)
    | TakeLease(id: nat, packageName: string, version: string, hash: string, pid: nat, randomId: string)
    | Pass(current: Entry, o: Outside)
    | BindChild(id: nat, pid: nat, randomId: string)
    | FinishBind(id: nat, deleted: bool)
    | Release(id: nat, deleted: bool)
    | PlaceFile(dir: string, name: string)
    | Exit(pid: nat)
    | Spawn(pid: nat)

  function AddFile(leases: Leases, dir: string, name: string): Leases { leases[dir := Files(leases, dir) + {name}] }

  function DropFile(leases: Leases, dir: string, name: string): Leases { leases[dir := Files(leases, dir) - {name}] }

  /** Random ids are new, a running process never looks dead, a process id is not used again while an
      unreleased launch still names it, and a hand-off starts while the holder of the lease runs. */
  ghost predicate Allowed(w: World, e: Event) {
    match e
    case Install(_) => true
    case TakeLease(id, packageName, _, _, pid, randomId) =>
      id !in w.launches && PackageSegment(packageName).Some? && pid > 0 && RandomIdOk(randomId)
        && randomId !in w.randomIds
    case Pass(_, o) => forall pid :: pid in w.running ==> o.alive(pid)
    case BindChild(id, pid, randomId) =>
      id in w.launches && !w.launches[id].released && w.launches[id].child.None? && pid > 0
      && w.launches[id].lease.pid in w.running && RandomIdOk(randomId) && randomId !in w.randomIds
    case FinishBind(id, _) => id in w.launches && !w.launches[id].released && w.launches[id].child.Some?
    case Release(id, _) => id in w.launches && w.launches[id].child.None?
    case PlaceFile(_, _) => true
    case Exit(_) => true
    case Spawn(pid) => forall id :: id in w.launches && !w.launches[id].released ==> !Names(w.launches[id], pid)
  }

  predicate Names(l: Launch, pid: nat) { l.lease.pid == pid || (l.child.Some? && l.child.value.pid == pid) }

  function Step(sha: string -> string, w: World, e: Event): World
    requires Allowed(w, e)
  {
    match e
    case Install(entry) => w.(cache := w.cache.(entries := w.cache.entries + {entry}))
    case TakeLease(id, packageName, version, hash, pid, randomId) =>
      var entry := Entry(PackageSegment(packageName).value, version, hash);
      var directory := LauncherIdentity(sha, packageName, version, hash);
      var name := LeaseName(Launcher, pid, randomId);
      w.(cache := w.cache.(leases := AddFile(w.cache.leases, directory, name)),
         launches := w.launches[id := Launch(entry, directory, Lease(pid, name), None, false,
                                             entry in w.cache.entries)],
         randomIds := w.randomIds + {randomId})
    case Pass(current, o) => w.(cache := Collect(sha, w.cache, current, o))
    case BindChild(id, pid, randomId) =>
      var l := w.launches[id];
      var name := LeaseName(Child, pid, randomId);
      w.(cache := w.cache.(leases := AddFile(w.cache.leases, l.directory, name)),
         launches := w.launches[id := l.(child := Some(Lease(pid, name)))],
         randomIds := w.randomIds + {randomId})
    case FinishBind(id, deleted) =>
      var l := w.launches[id];
      w.(cache := if deleted then w.cache.(leases := DropFile(w.cache.leases, l.directory, l.lease.name)) else w.cache,
         launches := w.launches[id := l.(lease := l.child.value, child := None)])
    case Release(id, deleted) =>
      var l := w.launches[id];
      if l.released then w
      else w.(cache := if !deleted then w.cache
                       else w.cache.(leases := DropFile(w.cache.leases, l.directory, l.lease.name)),
              launches := w.launches[id := l.(released := true)])
    case PlaceFile(dir, name) => w.(cache := w.cache.(leases := AddFile(w.cache.leases, dir, name)))
    case Exit(pid) => w.(running := w.running - {pid})
    case Spawn(pid) => w.(running := w.running + {pid})
  }

  // ----- What every step keeps -----

  /** A lease file that names this process and carries a random id of the run. */
  ghost predicate LeaseOk(w: World, l: Lease) {
    exists k: Kind, r: string :: l.name == LeaseName(k, l.pid, r) && RandomIdOk(r) && r in w.randomIds
  }

  /** The lease is in place, and so is the entry if it ever was. */
  ghost predicate Protected(sha: string -> string, w: World, launch: Launch, l: Lease) {
    l.pid in w.running ==>
      && l.name in Files(w.cache.leases, Identity(sha, launch.entry))
      && (launch.installed ==> launch.entry in w.cache.entries)
  }

  ghost predicate GoodLaunch(sha: string -> string, w: World, launch: Launch) {
    && launch.directory == Identity(sha, launch.entry)
    && LeaseOk(w, launch.lease) && (launch.child.Some? ==> LeaseOk(w, launch.child.value))
    && (!launch.released ==>
          Protected(sha, w, launch, launch.lease)
            && (launch.child.Some? ==> Protected(sha, w, launch, launch.child.value)))
  }

  /** The lease files that a launch owns. */
  function Owned(l: Launch): set<string> {
    {l.lease.name} + (if l.child.Some? then {l.child.value.name} else {})
  }

  ghost predicate Inv(sha: string -> string, w: World) {
    && (forall id :: id in w.launches ==> GoodLaunch(sha, w, w.launches[id]))
    && (forall id :: id in w.launches && w.launches[id].child.Some? ==>
          w.launches[id].lease.name != w.launches[id].child.value.name)
    && (forall i, j :: i in w.launches && j in w.launches && i != j ==> Owned(w.launches[i]) !! Owned(w.launches[j]))
  }

  lemma LeaseOkGrows(w: World, v: World, l: Lease)
    requires LeaseOk(w, l) && w.randomIds <= v.randomIds
    ensures LeaseOk(v, l)
  {
    var k: Kind, r: string :| l.name == LeaseName(k, l.pid, r) && RandomIdOk(r) && r in w.randomIds;
    assert l.name == LeaseName(k, l.pid, r) && RandomIdOk(r) && r in v.randomIds;
  }

  /** A lease with a new random id has a new name. */
  lemma NewNameIsNew(w: World, l: Lease, k: Kind, pid: nat, randomId: string)
    requires LeaseOk(w, l) && RandomIdOk(randomId) && randomId !in w.randomIds
    ensures l.name != LeaseName(k, pid, randomId)
  {
    var k': Kind, r: string :| l.name == LeaseName(k', l.pid, r) && RandomIdOk(r) && r in w.randomIds;
    LeaseNamesDiffer(k', l.pid, r, k, pid, randomId);
  }

  lemma NewLeaseOk(w: World, k: Kind, pid: nat, randomId: string)
    requires RandomIdOk(randomId) && randomId in w.randomIds
    ensures LeaseOk(w, Lease(pid, LeaseName(k, pid, randomId)))
  {
  }

  /** The lease of a running process survives a pass, and so does the entry it protects. */
  lemma PassKeepsLease(sha: string -> string, w: World, current: Entry, o: Outside, launch: Launch, l: Lease)
    requires LeaseOk(w, l) && Protected(sha, w, launch, l) && forall pid :: pid in w.running ==> o.alive(pid)
    ensures Protected(sha, w.(cache := Collect(sha, w.cache, current, o)), launch, l)
  {
    if l.pid in w.running {
      var k: Kind, r: string :| l.name == LeaseName(k, l.pid, r) && RandomIdOk(r) && r in w.randomIds;
      LeaseIsRecognised(k, l.pid, r);
      assert Keeps(o, l.name);
      assert HasActive(o, Files(w.cache.leases, Identity(sha, launch.entry)));
    }
  }

  lemma PassKeepsInv(sha: string -> string, w: World, current: Entry, o: Outside)
    requires Inv(sha, w) && forall pid :: pid in w.running ==> o.alive(pid)
    ensures Inv(sha, w.(cache := Collect(sha, w.cache, current, o)))
  {
    var v := w.(cache := Collect(sha, w.cache, current, o));
    forall id | id in v.launches ensures GoodLaunch(sha, v, v.launches[id]) {
      var l := w.launches[id];
      assert GoodLaunch(sha, w, l);
      LeaseOkGrows(w, v, l.lease);
      if l.child.Some? { LeaseOkGrows(w, v, l.child.value); }
      if !l.released {
        PassKeepsLease(sha, w, current, o, l, l.lease);
        if l.child.Some? { PassKeepsLease(sha, w, current, o, l, l.child.value); }
      }
    }
  }

  /** Steps that only add to the cache, or that end or start processes, keep a launch good. */
  lemma MoreKeepsGood(sha: string -> string, w: World, v: World, l: Launch)
    requires GoodLaunch(sha, w, l) && w.randomIds <= v.randomIds && w.cache.entries <= v.cache.entries
    requires forall dir :: Files(w.cache.leases, dir) <= Files(v.cache.leases, dir)
    requires forall pid :: pid in v.running && pid !in w.running && !l.released ==> !Names(l, pid)
    ensures GoodLaunch(sha, v, l)
  {
    LeaseOkGrows(w, v, l.lease);
    if l.child.Some? { LeaseOkGrows(w, v, l.child.value); }
  }

  lemma AddKeepsInv(sha: string -> string, w: World, v: World)
    requires Inv(sha, w) && v.launches == w.launches && v.randomIds == w.randomIds && w.cache.entries <= v.cache.entries
    requires forall dir :: Files(w.cache.leases, dir) <= Files(v.cache.leases, dir)
    requires forall pid, id :: pid in v.running && pid !in w.running && id in w.launches && !w.launches[id].released
               ==> !Names(w.launches[id], pid)
    ensures Inv(sha, v)
  {
    forall id | id in v.launches ensures GoodLaunch(sha, v, v.launches[id]) {
      MoreKeepsGood(sha, w, v, w.launches[id]);
    }
  }

  lemma TakeLeaseKeepsInv(sha: string -> string, w: World, id: nat, packageName: string, version: string, hash: string,
                          pid: nat, randomId: string)
    requires Inv(sha, w) && Allowed(w, TakeLease(id, packageName, version, hash, pid, randomId))
    ensures Inv(sha, Step(sha, w, TakeLease(id, packageName, version, hash, pid, randomId)))
  {
    var v := Step(sha, w, TakeLease(id, packageName, version, hash, pid, randomId));
    IdentitiesAgree(sha, packageName, version, hash);
    var name := LeaseName(Launcher, pid, randomId);
    NewLeaseOk(v, Launcher, pid, randomId);
    forall i | i in w.launches ensures GoodLaunch(sha, v, v.launches[i]) && name !in Owned(w.launches[i]) {
      var l := w.launches[i];
      MoreKeepsGood(sha, w, v, l);
      NewNameIsNew(w, l.lease, Launcher, pid, randomId);
      if l.child.Some? { NewNameIsNew(w, l.child.value, Launcher, pid, randomId); }
    }
  }

  lemma BindKeepsOther(sha: string -> string, w: World, v: World, l: Launch, pid: nat, randomId: string)
    requires GoodLaunch(sha, w, l) && RandomIdOk(randomId) && randomId !in w.randomIds
    requires w.randomIds <= v.randomIds && v.running == w.running && v.cache.entries == w.cache.entries
    requires forall dir :: Files(w.cache.leases, dir) <= Files(v.cache.leases, dir)
    ensures GoodLaunch(sha, v, l) && LeaseName(Child, pid, randomId) !in Owned(l)
  {
    MoreKeepsGood(sha, w, v, l);
    NewNameIsNew(w, l.lease, Child, pid, randomId);
    if l.child.Some? { NewNameIsNew(w, l.child.value, Child, pid, randomId); }
  }

  lemma BindKeepsInv(sha: string -> string, w: World, id: nat, pid: nat, randomId: string)
    requires Inv(sha, w) && Allowed(w, BindChild(id, pid, randomId))
    ensures Inv(sha, Step(sha, w, BindChild(id, pid, randomId)))
  {
    var v := Step(sha, w, BindChild(id, pid, randomId));
    var name := LeaseName(Child, pid, randomId);
    NewLeaseOk(v, Child, pid, randomId);
    forall i | i in w.launches ensures GoodLaunch(sha, v, w.launches[i]) && name !in Owned(w.launches[i]) {
      BindKeepsOther(sha, w, v, w.launches[i], pid, randomId);
    }
    BoundLaunch(sha, v, w.launches[id], pid, name);
    assert Owned(v.launches[id]) == Owned(w.launches[id]) + {name};
  }

  lemma BoundLaunch(sha: string -> string, v: World, l: Launch, pid: nat, name: string)
    requires GoodLaunch(sha, v, l) && !l.released && l.child.None? && l.lease.pid in v.running
    requires LeaseOk(v, Lease(pid, name)) && name in Files(v.cache.leases, Identity(sha, l.entry))
    ensures GoodLaunch(sha, v, l.(child := Some(Lease(pid, name))))
  {
    var m := l.(child := Some(Lease(pid, name)));
    assert Protected(sha, v, l, l.lease);
    assert Protected(sha, v, m, m.lease) && Protected(sha, v, m, m.child.value);
  }

  // ----- Deleting one's own lease -----

  /** Deleting a file that a launch does not own keeps it good. */
  lemma DropKeepsGood(sha: string -> string, w: World, v: World, l: Launch, dir: string, name: string)
    requires GoodLaunch(sha, w, l) && name !in Owned(l)
    requires v.cache == w.cache || v.cache == w.cache.(leases := DropFile(w.cache.leases, dir, name))
    requires v.running == w.running && v.randomIds == w.randomIds
    ensures GoodLaunch(sha, v, l)
  {
    LeaseOkGrows(w, v, l.lease);
    if l.child.Some? { LeaseOkGrows(w, v, l.child.value); }
  }

  /** Deleting the lease of one launch keeps the other launches good. */
  lemma OthersKeepTheirs(sha: string -> string, w: World, v: World, id: nat)
    requires Inv(sha, w) && id in w.launches
    requires var l := w.launches[id];
             v.cache == w.cache || v.cache == w.cache.(leases := DropFile(w.cache.leases, l.directory, l.lease.name))
    requires v.running == w.running && v.randomIds == w.randomIds
    ensures forall i :: i in w.launches && i != id ==> GoodLaunch(sha, v, w.launches[i])
  {
    var l := w.launches[id];
    assert l.lease.name in Owned(l);
    forall i | i in w.launches && i != id ensures GoodLaunch(sha, v, w.launches[i]) {
      DropKeepsGood(sha, w, v, w.launches[i], l.directory, l.lease.name);
    }
  }

  lemma FinishKeepsInv(sha: string -> string, w: World, id: nat, deleted: bool)
    requires Inv(sha, w) && Allowed(w, FinishBind(id, deleted))
    ensures Inv(sha, Step(sha, w, FinishBind(id, deleted)))
  {
    var v := Step(sha, w, FinishBind(id, deleted));
    var l := w.launches[id];
    var m := v.launches[id];
    OthersKeepTheirs(sha, w, v, id);
    assert GoodLaunch(sha, w, l);
    LeaseOkGrows(w, v, m.lease);
    assert Protected(sha, w, l, l.child.value);
    assert Protected(sha, v, m, m.lease);
    assert Owned(m) <= Owned(l);
  }

  lemma ReleaseKeepsInv(sha: string -> string, w: World, id: nat, deleted: bool)
    requires Inv(sha, w) && Allowed(w, Release(id, deleted))
    ensures Inv(sha, Step(sha, w, Release(id, deleted)))
  {
    var v := Step(sha, w, Release(id, deleted));
    var l := w.launches[id];
    if !l.released {
      OthersKeepTheirs(sha, w, v, id);
      ReleasedIsGood(sha, w, v, l);
      ReleasedOwnsTheSame(w, v, id);
    }
  }

  lemma ReleasedIsGood(sha: string -> string, w: World, v: World, l: Launch)
    requires GoodLaunch(sha, w, l) && l.child.None? && w.randomIds <= v.randomIds
    ensures GoodLaunch(sha, v, l.(released := true))
  {
    LeaseOkGrows(w, v, l.lease);
  }

  lemma ReleasedOwnsTheSame(w: World, v: World, id: nat)
    requires id in w.launches && v.launches == w.launches[id := w.launches[id].(released := true)]
    requires forall i, j :: i in w.launches && j in w.launches && i != j ==>
               Owned(w.launches[i]) !! Owned(w.launches[j])
    ensures forall i, j :: i in v.launches && j in v.launches && i != j ==> Owned(v.launches[i]) !! Owned(v.launches[j])
  {
    assert forall i :: i in v.launches ==> Owned(v.launches[i]) == Owned(w.launches[i]);
  }

  lemma StepKeepsInv(sha: string -> string, w: World, e: Event)
    requires Inv(sha, w) && Allowed(w, e)
    ensures Inv(sha, Step(sha, w, e))
  {
    match e
    case Install(_) => AddKeepsInv(sha, w, Step(sha, w, e));
    case TakeLease(id, packageName, version, hash, pid, randomId) =>
      TakeLeaseKeepsInv(sha, w, id, packageName, version, hash, pid, randomId);
    case Pass(current, o) => PassKeepsInv(sha, w, current, o);
    case BindChild(id, pid, randomId) => BindKeepsInv(sha, w, id, pid, randomId);
    case FinishBind(id, deleted) => FinishKeepsInv(sha, w, id, deleted);
    case Release(id, deleted) => ReleaseKeepsInv(sha, w, id, deleted);
    case PlaceFile(_, _) => AddKeepsInv(sha, w, Step(sha, w, e));
    case Exit(_) => AddKeepsInv(sha, w, Step(sha, w, e));
    case Spawn(_) => AddKeepsInv(sha, w, Step(sha, w, e));
  }

  // ----- Whole runs -----

  ghost predicate LeadsAt(sha: string -> string, events: seq<Event>, worlds: seq<World>, i: nat) {
    i < |events| && i + 1 < |worlds| && Leads(sha, worlds[i], events[i], worlds[i + 1])
  }

  ghost predicate Leads(sha: string -> string, w: World, e: Event, v: World) {
    Allowed(w, e) && v == Step(sha, w, e)
  }

  /** A run starts with any cache contents and any running processes, and no launches. */
  ghost predicate Run(sha: string -> string, events: seq<Event>, worlds: seq<World>) {
    && |worlds| == |events| + 1 && worlds[0].launches == map[]
    && forall i: nat :: i < |events| ==> LeadsAt(sha, events, worlds, i)
  }

  lemma {:induction false} RunKeepsInv(sha: string -> string, events: seq<Event>, worlds: seq<World>, i: nat)
    requires Run(sha, events, worlds) && i <= |events|
    ensures Inv(sha, worlds[i])
    decreases i
  {
    if i == 0 {
    } else {
      RunKeepsInv(sha, events, worlds, i - 1);
      assert LeadsAt(sha, events, worlds, i - 1);
      StepKeepsInv(sha, worlds[i - 1], events[i - 1]);
    }
  }

  /** At every moment of every run, an unreleased launch whose lease holder runs has its lease in
      place, before, during and after the hand-off to the child; and its entry is there if it was
      there when the launch took its first lease. */
  lemma LiveLaunchIsProtected(sha: string -> string, events: seq<Event>, worlds: seq<World>, i: nat, id: nat)
    requires Run(sha, events, worlds) && i <= |events| && id in worlds[i].launches && !worlds[i].launches[id].released
    ensures var w := worlds[i];
            var l := w.launches[id];
            && Protected(sha, w, l, l.lease)
            && (l.child.Some? ==> Protected(sha, w, l, l.child.value))
  {
    RunKeepsInv(sha, events, worlds, i);
  }

  /** An unrecognised file in its lease directory protects an entry against every pass. */
  ghost predicate Guarded(sha: string -> string, w: World, e: Entry, file: string) {
    e in w.cache.entries && file in Files(w.cache.leases, Identity(sha, e)) && ParseLease(file).None?
  }

  lemma GuardSurvivesStep(sha: string -> string, w: World, e: Event, entry: Entry, file: string)
    requires Inv(sha, w) && Allowed(w, e) && Guarded(sha, w, entry, file)
    ensures Guarded(sha, Step(sha, w, e), entry, file)
  {
    match e
    case Pass(current, o) =>
      assert Keeps(o, file);
      assert HasActive(o, Files(w.cache.leases, Identity(sha, entry)));
    case FinishBind(id, _) => OwnedIsRecognised(sha, w, id);
    case Release(id, _) => OwnedIsRecognised(sha, w, id);
    case _ =>
  }

  lemma OwnedIsRecognised(sha: string -> string, w: World, id: nat)
    requires Inv(sha, w) && id in w.launches
    ensures ParseLease(w.launches[id].lease.name).Some?
  {
    var l := w.launches[id].lease;
    assert GoodLaunch(sha, w, w.launches[id]);
    var k: Kind, r: string :| l.name == LeaseName(k, l.pid, r) && RandomIdOk(r) && r in w.randomIds;
    LeaseIsRecognised(k, l.pid, r);
  }

  /** In every run, once guarded an entry stays guarded. */
  lemma {:induction false} GuardedEntrySurvives(sha: string -> string, events: seq<Event>, worlds: seq<World>,
                                                i: nat, j: nat, entry: Entry, file: string)
    requires Run(sha, events, worlds) && i <= j <= |events| && Guarded(sha, worlds[i], entry, file)
    ensures Guarded(sha, worlds[j], entry, file)
    decreases j
  {
    if i == j {
    } else {
      GuardedEntrySurvives(sha, events, worlds, i, j - 1, entry, file);
      RunKeepsInv(sha, events, worlds, j - 1);
      assert LeadsAt(sha, events, worlds, j - 1);
      GuardSurvivesStep(sha, worlds[j - 1], events[j - 1], entry, file);
    }
  }

  /** A lease by its name, of a process that looks dead, which the file system lets go. */
  ghost predicate DeadLease(o: Outside, file: string) {
    exists k: Kind, digits: string, r: string ::
      IsLeaseFile(file, k, digits, r) && !o.alive(Number(digits)) && !o.stuck(file)
  }

  lemma DeadLeaseExactly(o: Outside, file: string)
    ensures DeadLease(o, file) <==> !Keeps(o, file)
  {
    if k: Kind, digits: string, r: string :|
      IsLeaseFile(file, k, digits, r) && !o.alive(Number(digits)) && !o.stuck(file) {
      LeaseFileParses(file, k, digits, r);
    }
    if !Keeps(o, file) {
      var k, digits, r := ParsedIsLeaseFile(file);
      assert IsLeaseFile(file, k, digits, r) && !o.alive(Number(digits)) && !o.stuck(file);
    }
  }

  /** The pass removes this entry if it is there: it is not the collector's own, the file system lets it go,
      and every file in its lease directory is the lease of a dead process. */
  ghost predicate Removes(sha: string -> string, w: World, event: Event, e: Entry) {
    && event.Pass? && e != event.current && !event.o.locked(e)
    && forall file :: file in Files(w.cache.leases, Identity(sha, e)) ==> DeadLease(event.o, file)
  }

  /** In every run, an installed entry that is not installed again is there exactly as long as no pass
      has removed it. */
  lemma {:induction false} EntryIsThereExactly(sha: string -> string, events: seq<Event>, worlds: seq<World>, a: nat,
                                               b: nat, e: Entry)
    requires Run(sha, events, worlds) && a < b <= |events| && events[a] == Install(e)
    requires forall k :: a < k < b ==> events[k] != Install(e)
    ensures e in worlds[b].cache.entries <==> forall k :: a < k < b ==> !Removes(sha, worlds[k], events[k], e)
    decreases b
  {
    assert LeadsAt(sha, events, worlds, b - 1);
    if a + 1 == b {
    } else {
      EntryIsThereExactly(sha, events, worlds, a, b - 1, e);
      StepOnEntry(sha, worlds[b - 1], events[b - 1], e);
    }
  }

  lemma StepOnEntry(sha: string -> string, w: World, event: Event, e: Entry)
    requires Allowed(w, event) && event != Install(e)
    ensures e in Step(sha, w, event).cache.entries <==> e in w.cache.entries && !Removes(sha, w, event, e)
  {
    if event.Pass? { RemovesExactly(sha, w, event.current, event.o, e); }
  }

  lemma RemovesExactly(sha: string -> string, w: World, current: Entry, o: Outside, e: Entry)
    ensures Removes(sha, w, Pass(current, o), e) <==> !Survives(sha, w.cache, current, o, e)
  {
    forall file ensures DeadLease(o, file) <==> !Keeps(o, file) {
      DeadLeaseExactly(o, file);
    }
  }

  lemma {:induction false} LaunchStays(sha: string -> string, events: seq<Event>, worlds: seq<World>, b: nat, i: nat,
                                       id: nat)
    requires Run(sha, events, worlds) && b <= i <= |events| && id in worlds[b].launches
    ensures id in worlds[i].launches && worlds[i].launches[id].entry == worlds[b].launches[id].entry
    ensures worlds[i].launches[id].installed == worlds[b].launches[id].installed
    decreases i
  {
    if b == i {
    } else {
      LaunchStays(sha, events, worlds, b, i - 1, id);
      assert LeadsAt(sha, events, worlds, i - 1);
    }
  }

  /** So a launch whose entry was installed at `a` and leased at `b` has it at every later moment at which
      its holder runs, exactly when no pass in between removed it. */
  lemma LaunchHasItsEntryExactly(sha: string -> string, events: seq<Event>, worlds: seq<World>, a: nat, b: nat,
                                 i: nat, e: Entry)
    requires Run(sha, events, worlds) && a < b < i <= |events| && events[a] == Install(e)
    requires forall k :: a < k < i ==> events[k] != Install(e)
    requires events[b].TakeLease? && PackageSegment(events[b].packageName) == Some(e.platform)
             && events[b].version == e.version && events[b].hash == e.hash
    ensures events[b].id in worlds[i].launches
    ensures var l := worlds[i].launches[events[b].id];
            !l.released && l.lease.pid in worlds[i].running ==>
              (e in worlds[i].cache.entries <==> forall k :: a < k < b ==> !Removes(sha, worlds[k], events[k], e))
  {
    var id := events[b].id;
    assert LeadsAt(sha, events, worlds, b);
    assert worlds[b + 1].launches[id].entry == e
           && worlds[b + 1].launches[id].installed == (e in worlds[b].cache.entries);
    LaunchStays(sha, events, worlds, b + 1, i, id);
    EntryIsThereExactly(sha, events, worlds, a, b, e);
    EntryIsThereExactly(sha, events, worlds, a, i, e);
    if !worlds[i].launches[id].released { LiveLaunchIsProtected(sha, events, worlds, i, id); }
  }

  /** A pass of another launcher between installing an entry and leasing it can take the entry away:
      the lease alone does not bring it back. */
  lemma PassBeforeLeaseLosesEntry(sha: string -> string, packageName: string, version: string, hash: string,
                                  current: Entry, randomId: string)
    returns (events: seq<Event>, worlds: seq<World>)
    requires PackageSegment(packageName).Some? && RandomIdOk(randomId)
    requires current != Entry(PackageSegment(packageName).value, version, hash)
    ensures Run(sha, events, worlds) && |events| == 3
    ensures var e, w := Entry(PackageSegment(packageName).value, version, hash), worlds[3];
            && 0 in w.launches && w.launches[0].entry == e && !w.launches[0].released
            && w.launches[0].lease.pid in w.running && e !in w.cache.entries
  {
    var e := Entry(PackageSegment(packageName).value, version, hash);
    var o := Outside(pid => true, file => true, entry => false);
    var w0 := World(Cache({}, map[]), map[], {1}, {});
    events := [Install(e), Pass(current, o), TakeLease(0, packageName, version, hash, 1, randomId)];
    var w1 := Step(sha, w0, events[0]);
    var w2 := Step(sha, w1, events[1]);
    var w3 := Step(sha, w2, events[2]);
    worlds := [w0, w1, w2, w3];
    assert Leads(sha, w0, events[0], w1) && Leads(sha, w1, events[1], w2) && Leads(sha, w2, events[2], w3);
    assert !HasActive(o, Files(w1.cache.leases, Identity(sha, e)));
  }
}
