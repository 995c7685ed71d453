/** Which C library an executable asks for: `detectLinuxLibcFromElf` of
    `src/runtime/native-dispatch.ts`, on the bytes of an ELF file.
 */
module ElfInterpreter {
  import opened Bytes

  datatype Libc = Glibc | Musl | Unsupported

  const PT_INTERP := 3

  /** The little-endian number in `width` bytes at `at`. */
  function Field(b: bytes, at: nat, width: nat): nat
    requires at + width <= |b|
  {
    LittleEndian(b[at..at + width])
  }

  /** The loader path of an architecture, for the two C libraries. */
  function LoaderPath(architecture: string, libc: Libc): Option<bytes> {
    match (architecture, libc)
    case ("x64", Glibc) => Some(Ascii("/lib64/ld-linux-x86-64.so.2"))
    case ("x64", Musl) => Some(Ascii("/lib/ld-musl-x86_64.so.1"))
    case ("arm64", Glibc) => Some(Ascii("/lib/ld-linux-aarch64.so.1"))
    case ("arm64", Musl) => Some(Ascii("/lib/ld-musl-aarch64.so.1"))
    case _ => None
  }

  /** `classifyLinuxInterpreter` */
  function Classify(path: bytes, architecture: string): Libc {
    if LoaderPath(architecture, Glibc) == Some(path) then Glibc
    else if LoaderPath(architecture, Musl) == Some(path) then Musl
    else Unsupported
  }

  // ----- What the answer means -----

  predicate Magic(b: bytes) {
    |b| >= 64 && b[0] == 0x7f && b[1] == 0x45 && b[2] == 0x4c && b[3] == 0x46 && b[4] == 2 && b[5] == 1
  }

  /** The program header table: where it starts, the entry size and the number of entries. */
  datatype Table = Table(offset: nat, size: nat, count: nat)

  function TableOf(b: bytes): Table
    requires |b| >= 64
  {
    Table(Field(b, 32, 8), Field(b, 54, 2), Field(b, 56, 2))
  }

  predicate TableOk(b: bytes, t: Table) {
    t.offset <= |b| && t.size >= 56 && 0 < t.count <= 128 && t.offset + t.size * t.count <= |b|
  }

  function EntryAt(t: Table, i: nat): nat { t.offset + i * t.size }

  lemma EntryInside(b: bytes, t: Table, i: nat)
    requires TableOk(b, t) && i < t.count
    ensures EntryAt(t, i) + 56 <= |b|
  {
    assert (i + 1) * t.size <= t.count * t.size;
  }

  predicate IsInterp(b: bytes, t: Table, i: nat)
    requires TableOk(b, t) && i < t.count
  {
    EntryInside(b, t, i);
    Field(b, EntryAt(t, i), 4) == PT_INTERP
  }

  /** Entry `i` points at exactly `path` and one final NUL, inside the file. */
  predicate PointsAt(b: bytes, t: Table, i: nat, path: bytes)
    requires TableOk(b, t) && i < t.count
  {
    EntryInside(b, t, i);
    var at, length := Field(b, EntryAt(t, i) + 8, 8), Field(b, EntryAt(t, i) + 32, 8);
    at + length <= |b| && b[at..at + length] == path + [0] && 0 !in path
  }

  /** There is exactly one interpreter entry, and it names the loader of this C library. */
  ghost predicate Names(b: bytes, architecture: string, libc: Libc) {
    && Magic(b) && TableOk(b, TableOf(b))
    && LoaderPath(architecture, libc).Some?
    && exists i :: 0 <= i < TableOf(b).count && OnlyInterp(b, TableOf(b), i)
                   && PointsAt(b, TableOf(b), i, LoaderPath(architecture, libc).value)
  }

  ghost predicate OnlyInterp(b: bytes, t: Table, i: nat)
    requires TableOk(b, t) && i < t.count
  {
    IsInterp(b, t, i) && forall j :: 0 <= j < t.count && j != i ==> !IsInterp(b, t, j)
  }

  // ----- The detector -----

  /** The checks on one interpreter entry: the loader path it names, if it is well formed. */
  method ReadInterpreter(b: bytes, t: Table, i: nat) returns (path: Option<bytes>)
    requires TableOk(b, t) && i < t.count
    ensures forall p: bytes :: 0 < |p| < 256 ==> (PointsAt(b, t, i, p) <==> path == Some(p))
  {
    EntryInside(b, t, i);
    var entry := EntryAt(t, i);
    var at := Field(b, entry + 8, 8);
    var length := Field(b, entry + 32, 8);
    if at > |b| || length > 256 || length < 2 || at + length > |b| { return None; }
    var interpreter := b[at..at + length];
    if interpreter[length - 1] != 0 || 0 in interpreter[..length - 1] {
      forall p: bytes | 0 !in p ensures interpreter != p + [0] { EndsInNul(p); }
      return None;
    }
    assert interpreter == interpreter[..length - 1] + [0];
    forall p: bytes ensures interpreter == p + [0] <==> p == interpreter[..length - 1] { EndsInNul(p); }
    return Some(interpreter[..length - 1]);
  }

  lemma EndsInNul(p: bytes)
    ensures (p + [0])[..|p|] == p && (p + [0])[|p|] == 0 && |p + [0]| == |p| + 1
  {
  }

  lemma LoaderPathsAreShort(architecture: string, libc: Libc)
    ensures LoaderPath(architecture, libc).Some? ==> 0 < |LoaderPath(architecture, libc).value| < 256
  {
  }

  lemma LoadersDiffer(architecture: string)
    ensures LoaderPath(architecture, Glibc).Some? ==> LoaderPath(architecture, Glibc) != LoaderPath(architecture, Musl)
  {
    assert |"/lib64/ld-linux-x86-64.so.2"| != |"/lib/ld-musl-x86_64.so.1"|;
    assert |"/lib/ld-linux-aarch64.so.1"| != |"/lib/ld-musl-aarch64.so.1"|;
  }

  /** What a single interpreter entry means for the answer. */
  ghost predicate Answers(b: bytes, t: Table, i: nat, architecture: string, answer: Libc)
    requires TableOk(b, t) && i < t.count
  {
    forall l: Libc :: l != Unsupported ==>
      (answer == l <==> LoaderPath(architecture, l).Some? && PointsAt(b, t, i, LoaderPath(architecture, l).value))
  }

  /** The loop over the program headers. */
  method FindInterpreter(b: bytes, t: Table, architecture: string) returns (r: Libc)
    requires TableOk(b, t)
    ensures forall l: Libc :: l != Unsupported ==>
              (r == l <==> LoaderPath(architecture, l).Some?
                           && exists i :: 0 <= i < t.count && OnlyInterp(b, t, i)
                                          && PointsAt(b, t, i, LoaderPath(architecture, l).value))
  {
    var detected: Option<Libc> := None;
    ghost var found: nat := 0;
    for i := 0 to t.count
      invariant detected.None? ==> forall j :: 0 <= j < i ==> !IsInterp(b, t, j)
      invariant detected.Some? ==>
                  found < i && IsInterp(b, t, found) && Answers(b, t, found, architecture, detected.value)
      invariant detected.Some? ==> forall j :: 0 <= j < i && j != found ==> !IsInterp(b, t, j)
    {
      EntryInside(b, t, i);
      if Field(b, EntryAt(t, i), 4) != PT_INTERP { continue; }
      assert IsInterp(b, t, i);
      if detected.Some? {
        assert forall k :: 0 <= k < t.count ==> !OnlyInterp(b, t, k);
        return Unsupported;
      }
      var path := ReadInterpreter(b, t, i);
      InterpreterAnswers(b, t, i, architecture, path);
      if path.None? {
        assert forall k :: 0 <= k < t.count && OnlyInterp(b, t, k) ==> k == i;
        return Unsupported;
      }
      detected := Some(Classify(path.value, architecture));
      found := i;
    }
    if detected.None? { return Unsupported; }
    assert OnlyInterp(b, t, found);
    assert forall k :: 0 <= k < t.count && OnlyInterp(b, t, k) ==> k == found;
    return detected.value;
  }

  lemma InterpreterAnswers(b: bytes, t: Table, i: nat, architecture: string, path: Option<bytes>)
    requires TableOk(b, t) && i < t.count
    requires forall p: bytes :: 0 < |p| < 256 ==> (PointsAt(b, t, i, p) <==> path == Some(p))
    ensures Answers(b, t, i, architecture, if path.None? then Unsupported else Classify(path.value, architecture))
  {
    LoaderPathsAreShort(architecture, Glibc);
    LoaderPathsAreShort(architecture, Musl);
    LoadersDiffer(architecture);
  }

  /** `detectLinuxLibcFromElf`: for every byte string and architecture the answer is a C library
      exactly when the file names its loader, and every read is in bounds. */
  method Detect(b: bytes, architecture: string) returns (r: Libc)
    ensures forall l: Libc :: l != Unsupported ==> (r == l <==> Names(b, architecture, l))
  {
    if |b| < 64 || b[0] != 0x7f || b[1] != 0x45 || b[2] != 0x4c || b[3] != 0x46 || b[4] != 2 || b[5] != 1 {
      return Unsupported;
    }
    var t := TableOf(b);
    if t.offset > |b| || t.size < 56 || t.count == 0 || t.count > 128 || t.offset + t.size * t.count > |b| {
      return Unsupported;
    }
    r := FindInterpreter(b, t, architecture);
  }
}
