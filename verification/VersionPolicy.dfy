/** The signed release manifest of `src/runtime/version-policy.ts`: which payloads are valid, the
    canonical text that is signed, and the choice of one artifact.

    Payloads are already typed; an absent optional key is `None`.
 */
module VersionPolicy {
  import opened Bytes
  import opened Decimals

  datatype Artifact = Artifact(
    packageName: string, version: string, sourceSha: string,
    executableSha256: string, workerExecutableSha256: string,
    publisher: Option<string>, thumbprint: Option<string>)

  datatype Payload = Payload(schemaVersion: nat, artifacts: seq<Artifact>)

  // ----- Validation -----

  predicate All(s: string, ok: char -> bool) { forall i :: 0 <= i < |s| ==> ok(s[i]) }

  predicate IsLowerHex(c: char) { IsDigit(c) || 'a' <= c <= 'f' }
  predicate IsUpperHex(c: char) { IsDigit(c) || 'A' <= c <= 'F' }
  predicate IsPrintable(c: char) { ' ' <= c <= '~' }

  const WINDOWS_PREFIX := "@palladin/runtime-win32-"

  predicate HasPlatform(name: string, prefix: string) {
    prefix <= name && |prefix| < |name| && All(name[|prefix|..], c => IsDigit(c) || 'a' <= c <= 'z' || c == '-')
  }

  predicate PackageNameOk(name: string) {
    || name == "@palladin/agent" || HasPlatform(name, "@palladin/runtime-darwin-")
    || HasPlatform(name, "@palladin/runtime-linux-") || HasPlatform(name, WINDOWS_PREFIX)
  }

  function DotAt(s: string): (i: nat)
    ensures i <= |s|
  {
    if s == "" || s[0] == '.' then 0 else DotAt(s[1..]) + 1
  }

  function SplitDots(s: string): seq<string>
    decreases |s|
  {
    var i := DotAt(s);
    if i == |s| then [s] else [s[..i]] + SplitDots(s[i + 1..])
  }

  predicate VersionPart(s: string) {
    IsCanonical(s) && Number(s) <= 0x1F_FFFF_FFFF_FFFF
  }

  predicate VersionOk(version: string) {
    var parts := SplitDots(version);
    |parts| == 3 && VersionPart(parts[0]) && VersionPart(parts[1]) && VersionPart(parts[2])
  }

  predicate PublisherOk(p: string) {
    All(p, IsPrintable) && |p| <= 256 && exists i :: 0 <= i < |p| && p[i] != ' '
  }

  predicate ThumbprintOk(t: string) { (|t| == 40 || |t| == 64) && All(t, IsUpperHex) }

  predicate ArtifactOk(a: Artifact) {
    var windows := WINDOWS_PREFIX <= a.packageName;
    && PackageNameOk(a.packageName) && VersionOk(a.version)
    && |a.sourceSha| == 40 && All(a.sourceSha, IsLowerHex) && (exists i :: 0 <= i < 40 && a.sourceSha[i] != '0')
    && |a.executableSha256| == 64 && All(a.executableSha256, IsLowerHex)
    && |a.workerExecutableSha256| == 64 && All(a.workerExecutableSha256, IsLowerHex)
    && windows == a.publisher.Some? && windows == a.thumbprint.Some?
    && (windows ==> PublisherOk(a.publisher.value) && ThumbprintOk(a.thumbprint.value))
  }

  function Identity(a: Artifact): string { a.packageName + "@" + a.version }

  /** Strict lexicographic order of code units (`<` on strings). */
  predicate Less(a: string, b: string)
    decreases |a|
  {
    b != "" && (a == "" || a[0] < b[0] || (a[0] == b[0] && Less(a[1..], b[1..])))
  }

  predicate Ascending(artifacts: seq<Artifact>) {
    forall i :: 0 < i < |artifacts| ==> Less(Identity(artifacts[i - 1]), Identity(artifacts[i]))
  }

  predicate PayloadOk(p: Payload) {
    && p.schemaVersion == 2 && p.artifacts != []
    && (forall i :: 0 <= i < |p.artifacts| ==> ArtifactOk(p.artifacts[i]))
    && Ascending(p.artifacts)
  }

  lemma IdentityIsNotEmpty(a: Artifact)
    ensures Less("", Identity(a))
  {
    assert Identity(a)[|a.packageName|] == '@';
  }

  /** The loop of `validatePayloadShape`, for any check of one artifact. */
  method CheckArtifacts(valid: Artifact -> bool, artifacts: seq<Artifact>) returns (ok: bool)
    ensures ok == ((forall i :: 0 <= i < |artifacts| ==> valid(artifacts[i])) && Ascending(artifacts))
  {
    var previous := "";
    for i := 0 to |artifacts|
      invariant forall j :: 0 <= j < i ==> valid(artifacts[j])
      invariant forall j :: 0 < j < i ==> Less(Identity(artifacts[j - 1]), Identity(artifacts[j]))
      invariant previous == if i == 0 then "" else Identity(artifacts[i - 1])
    {
      if !valid(artifacts[i]) { return false; }
      var identity := Identity(artifacts[i]);
      IdentityIsNotEmpty(artifacts[i]);
      if !Less(previous, identity) { return false; }
      previous := identity;
    }
    return true;
  }

  /** `validatePayloadShape` */
  method ValidatePayload(p: Payload) returns (ok: bool)
    ensures ok == PayloadOk(p)
  {
    if p.schemaVersion != 2 || |p.artifacts| == 0 { return false; }
    ok := CheckArtifacts(ArtifactOk, p.artifacts);
  }

  // ----- Choosing an artifact -----

  lemma {:induction false} LessTransitive(a: string, b: string, c: string)
    requires Less(a, b) && Less(b, c)
    ensures Less(a, c)
    decreases |a|
  {
    if a != "" && a[0] == b[0] == c[0] { LessTransitive(a[1..], b[1..], c[1..]); }
  }

  lemma {:induction false} LessIrreflexive(a: string)
    ensures !Less(a, a)
    decreases |a|
  {
    if a == "" {
    } else {
      LessIrreflexive(a[1..]);
    }
  }

  lemma {:induction false} IdentitiesIncrease(artifacts: seq<Artifact>, i: nat, j: nat)
    requires Ascending(artifacts) && i < j < |artifacts|
    ensures Less(Identity(artifacts[i]), Identity(artifacts[j]))
    decreases j
  {
    assert Less(Identity(artifacts[j - 1]), Identity(artifacts[j]));
    if i == j - 1 {
    } else {
      IdentitiesIncrease(artifacts, i, j - 1);
      LessTransitive(Identity(artifacts[i]), Identity(artifacts[j - 1]), Identity(artifacts[j]));
    }
  }

  predicate Wanted(a: Artifact, name: string, version: string) { a.packageName == name && a.version == version }

  function Matching(artifacts: seq<Artifact>, name: string, version: string): seq<Artifact> {
    if artifacts == [] then []
    else (if Wanted(artifacts[0], name, version) then [artifacts[0]] else []) + Matching(artifacts[1..], name, version)
  }

  /** `selectArtifact` */
  function Select(p: Payload, name: string, version: string): Option<Artifact> {
    var matches := Matching(p.artifacts, name, version);
    if |matches| == 1 then Some(matches[0]) else None
  }

  lemma {:induction false} MatchingNone(artifacts: seq<Artifact>, name: string, version: string)
    requires forall i :: 0 <= i < |artifacts| ==> !Wanted(artifacts[i], name, version)
    ensures Matching(artifacts, name, version) == []
  {
    if artifacts == [] {
    } else {
      MatchingNone(artifacts[1..], name, version);
    }
  }

  lemma {:induction false} MatchingOne(artifacts: seq<Artifact>, name: string, version: string, i: nat)
    requires i < |artifacts| && Wanted(artifacts[i], name, version)
    requires forall j :: 0 <= j < |artifacts| && j != i ==> !Wanted(artifacts[j], name, version)
    ensures Matching(artifacts, name, version) == [artifacts[i]]
  {
    if i == 0 {
      MatchingNone(artifacts[1..], name, version);
    } else {
      MatchingOne(artifacts[1..], name, version, i - 1);
    }
  }

  /** In a valid payload the choice succeeds exactly when a matching artifact exists, and returns
      the only one. */
  lemma SelectIsExact(p: Payload, name: string, version: string)
    requires PayloadOk(p)
    ensures Select(p, name, version).Some?
       <==> exists i :: 0 <= i < |p.artifacts| && Wanted(p.artifacts[i], name, version)
    ensures forall i :: 0 <= i < |p.artifacts| && Wanted(p.artifacts[i], name, version)
              ==> Select(p, name, version) == Some(p.artifacts[i])
  {
    if i :| 0 <= i < |p.artifacts| && Wanted(p.artifacts[i], name, version) {
      forall j | 0 <= j < |p.artifacts| && j != i ensures !Wanted(p.artifacts[j], name, version) {
        if j < i { IdentitiesIncrease(p.artifacts, j, i); } else { IdentitiesIncrease(p.artifacts, i, j); }
        LessIrreflexive(Identity(p.artifacts[i]));
      }
      MatchingOne(p.artifacts, name, version, i);
    } else {
      MatchingNone(p.artifacts, name, version);
    }
  }

  // ----- Canonical text -----

  function HexDigit(n: nat): char
    requires n < 16
  {
    if n < 10 then '0' + n as char else 'a' + (n - 10) as char
  }

  /** How `JSON.stringify` writes one character (section 7 of RFC 8259). */
  function Escape(c: char): (e: string)
    ensures e != "" && e[0] != '\"'
  {
    if c == '\"' then "\\\""
    else if c == '\\' then "\\\\"
    else if c == '\U{0008}' then "\\b"
    else if c == '\U{000C}' then "\\f"
    else if c == '\n' then "\\n"
    else if c == '\r' then "\\r"
    else if c == '\t' then "\\t"
    else if c < ' ' then "\\u00" + [HexDigit(c as nat / 16), HexDigit(c as nat % 16)]
    else [c]
  }

  /** The characters of a string up to its closing quote, followed by `rest`. */
  function Characters(s: string, rest: string): string {
    if s == "" then ['\"'] + rest else Escape(s[0]) + Characters(s[1..], rest)
  }

  /** The text of a string value, followed by `rest`. */
  function Quoted(s: string, rest: string): string { ['\"'] + Characters(s, rest) }

  lemma HexDigitInjective(m: nat, n: nat)
    requires m < 16 && n < 16 && HexDigit(m) == HexDigit(n)
    ensures m == n
  {
  }

  /** Short escapes, long escapes and plain characters differ in their first two characters. */
  lemma EscapeKinds(c: char)
    ensures c < ' ' && |Escape(c)| > 2 ==> Escape(c) == "\\u00" + [HexDigit(c as nat / 16), HexDigit(c as nat % 16)]
    ensures |Escape(c)| == 1 ==> Escape(c) == [c] && c != '\\'
    ensures |Escape(c)| == 2 ==> Escape(c)[0] == '\\' && Escape(c)[1] != 'u'
    ensures |Escape(c)| > 2 ==> c < ' ' && |Escape(c)| == 6 && Escape(c)[0] == '\\' && Escape(c)[1] == 'u'
    ensures 0 < |Escape(c)|
  {
  }

  lemma ShortEscapes(c: char, d: char)
    requires |Escape(c)| == 2 && |Escape(d)| == 2 && Escape(c)[1] == Escape(d)[1]
    ensures c == d
  {
  }

  lemma LongEscapes(c: char, d: char)
    requires |Escape(c)| == 6 && |Escape(d)| == 6 && Escape(c)[4] == Escape(d)[4] && Escape(c)[5] == Escape(d)[5]
    ensures c == d
  {
    HexDigitInjective(c as nat / 16, d as nat / 16);
    HexDigitInjective(c as nat % 16, d as nat % 16);
  }

  /** An escaped character can be split off the front in one way only. */
  lemma EscapeSplits(c: char, d: char, x: string, y: string)
    requires Escape(c) + x == Escape(d) + y
    ensures c == d && x == y
  {
    var e, g := Escape(c), Escape(d);
    var l, r := e + x, g + y;
    EscapeKinds(c);
    EscapeKinds(d);
    assert e[0] == l[0] == r[0] == g[0];
    if |e| > 1 {
      assert |g| > 1;
      assert e[1] == l[1] == r[1] == g[1];
      if |e| == 2 {
        ShortEscapes(c, d);
      } else {
        assert e[4] == l[4] == r[4] == g[4] && e[5] == l[5] == r[5] == g[5];
        LongEscapes(c, d);
      }
    }
    assert l[|e|..] == x && r[|g|..] == y;
  }

  lemma CharactersStart(s: string, x: string)
    ensures Characters(s, x) != "" && (Characters(s, x)[0] == '\"' <==> s == "")
  {
  }

  lemma {:induction false} CharactersSplit(s: string, t: string, x: string, y: string)
    requires Characters(s, x) == Characters(t, y)
    ensures s == t && x == y
    decreases |s|
  {
    CharactersStart(s, x);
    CharactersStart(t, y);
    if s == "" {
      DropFirst(['\"'], x, y);
    } else {
      EscapeSplits(s[0], t[0], Characters(s[1..], x), Characters(t[1..], y));
      CharactersSplit(s[1..], t[1..], x, y);
      assert s == [s[0]] + s[1..] && t == [t[0]] + t[1..];
    }
  }

  lemma QuotedSplits(s: string, t: string, x: string, y: string)
    requires Quoted(s, x) == Quoted(t, y)
    ensures s == t && x == y
  {
    DropFirst(['\"'], Characters(s, x), Characters(t, y));
    CharactersSplit(s, t, x, y);
  }

  type Fields = seq<(string, string)>

  /** What follows an element: the closing character and the rest, or a comma and more elements. */
  function After(last: bool, close: char, more: string): string {
    [if last then close else ','] + more
  }

  lemma AfterSplits(k: bool, l: bool, close: char, x: string, y: string)
    requires close != ',' && After(k, close, x) == After(l, close, y)
    ensures k == l && x == y
  {
    assert After(k, close, x)[0] == After(l, close, y)[0];
    assert After(k, close, x)[1..] == x && After(l, close, y)[1..] == y;
  }

  /** Elements written one after the other, a closing character, and `rest`. */
  function List<T>(put: (T, string) -> string, close: char, xs: seq<T>, rest: string): string
    requires xs != []
  {
    put(xs[0], After(|xs| == 1, close, if |xs| == 1 then rest else List(put, close, xs[1..], rest)))
  }

  /** An element can be split off the front of a text in one way only. */
  ghost predicate SplitsOff<T(!new)>(put: (T, string) -> string, ok: T -> bool) {
    forall a: T, b: T, x: string, y: string :: ok(a) && ok(b) && put(a, x) == put(b, y) ==> a == b && x == y
  }

  lemma {:induction false} ListSplits<T(!new)>(put: (T, string) -> string, ok: T -> bool, close: char,
                                               f: seq<T>, g: seq<T>, x: string, y: string)
    requires SplitsOff(put, ok) && close != ',' && f != [] && g != []
    requires (forall i :: 0 <= i < |f| ==> ok(f[i])) && (forall i :: 0 <= i < |g| ==> ok(g[i]))
    requires List(put, close, f, x) == List(put, close, g, y)
    ensures f == g && x == y
    decreases |f|
  {
    var a := if |f| == 1 then x else List(put, close, f[1..], x);
    var b := if |g| == 1 then y else List(put, close, g[1..], y);
    assert put(f[0], After(|f| == 1, close, a)) == put(g[0], After(|g| == 1, close, b));
    AfterSplits(|f| == 1, |g| == 1, close, a, b);
    if |f| <= 1 {
    } else {
      ListSplits(put, ok, close, f[1..], g[1..], x, y);
    }
    assert f == [f[0]] + f[1..] && g == [g[0]] + g[1..];
  }

  function Member(field: (string, string), rest: string): string {
    Quoted(field.0, ":" + Quoted(field.1, rest))
  }

  lemma MemberSplits(f: (string, string), g: (string, string), x: string, y: string)
    requires Member(f, x) == Member(g, y)
    ensures f == g && x == y
  {
    QuotedSplits(f.0, g.0, ":" + Quoted(f.1, x), ":" + Quoted(g.1, y));
    DropFirst(":", Quoted(f.1, x), Quoted(g.1, y));
    QuotedSplits(f.1, g.1, x, y);
  }

  lemma MembersSplitOff()
    ensures SplitsOff(Member, f => true)
  {
    forall f, g, x, y | Member(f, x) == Member(g, y) ensures f == g && x == y { MemberSplits(f, g, x, y); }
  }

  lemma DropFirst(c: string, x: string, y: string)
    requires |c| == 1 && c + x == c + y
    ensures x == y
  {
    assert (c + x)[1..] == x && (c + y)[1..] == y;
  }

  /** The object that is written for an artifact, keys in order. */
  function FieldsOf(a: Artifact): (f: Fields)
    ensures f != []
  {
    var common := [("executableSha256", a.executableSha256), ("packageName", a.packageName),
                   ("sourceSha", a.sourceSha), ("version", a.version),
                   ("workerExecutableSha256", a.workerExecutableSha256)];
    match a.publisher
    case None => common
    case Some(publisher) =>
      [("authenticodePublisher", publisher),
       ("authenticodeThumbprint", if a.thumbprint.Some? then a.thumbprint.value else "")] + common
  }

  lemma FieldsDetermine(a: Artifact, b: Artifact)
    requires BothOrNeither(a) && BothOrNeither(b)
    requires FieldsOf(a) == FieldsOf(b)
    ensures a == b
  {
    var f, g := FieldsOf(a), FieldsOf(b);
    var n := |f| - 5;
    assert f[n] == g[n] && f[n + 1] == g[n + 1] && f[n + 2] == g[n + 2] && f[n + 3] == g[n + 3] && f[n + 4] == g[n + 4];
    if n == 2 { assert f[0] == g[0] && f[1] == g[1]; }
  }

  /** The object of one artifact, followed by `rest`. */
  function Item(a: Artifact, rest: string): string { "{" + List(Member, '}', FieldsOf(a), rest) }

  predicate BothOrNeither(a: Artifact) { a.publisher.Some? == a.thumbprint.Some? }

  lemma ItemSplits(a: Artifact, b: Artifact, x: string, y: string)
    requires BothOrNeither(a) && BothOrNeither(b) && Item(a, x) == Item(b, y)
    ensures a == b && x == y
  {
    DropFirst("{", List(Member, '}', FieldsOf(a), x), List(Member, '}', FieldsOf(b), y));
    MembersSplitOff();
    ListSplits(Member, f => true, '}', FieldsOf(a), FieldsOf(b), x, y);
    FieldsDetermine(a, b);
  }

  lemma ItemsSplitOff()
    ensures SplitsOff(Item, BothOrNeither)
  {
    forall a, b, x, y | BothOrNeither(a) && BothOrNeither(b) && Item(a, x) == Item(b, y) ensures a == b && x == y {
      ItemSplits(a, b, x, y);
    }
  }

  /** An object with the artifacts under one key and the version under the other, followed by `rest`. */
  function PayloadText(listKey: string, versionKey: string, artifacts: seq<Artifact>, rest: string): string
    requires artifacts != []
  {
    "{" + Quoted(listKey, ":[" + List(Item, ']', artifacts, "," + Quoted(versionKey, ":2}" + rest)))
  }

  /** `canonicalizeVersionPolicyPayload` followed by `rest`; invalid payloads have no canonical text. */
  function Canonical(p: Payload, rest: string): Option<string> {
    if PayloadOk(p) then Some(PayloadText("artifacts", "schemaVersion", p.artifacts, rest)) else None
  }

  lemma ValidIsConsistent(p: Payload)
    requires PayloadOk(p)
    ensures forall i :: 0 <= i < |p.artifacts| ==> BothOrNeither(p.artifacts[i])
  {
    forall i | 0 <= i < |p.artifacts| ensures BothOrNeither(p.artifacts[i]) { assert ArtifactOk(p.artifacts[i]); }
  }

  lemma CanonicalSplits(p: Payload, q: Payload, x: string, y: string)
    requires PayloadOk(p) && PayloadOk(q) && Canonical(p, x) == Canonical(q, y)
    ensures p == q && x == y
  {
    ValidIsConsistent(p);
    ValidIsConsistent(q);
    PayloadSplits("artifacts", "schemaVersion", p.artifacts, q.artifacts, x, y);
  }

  lemma PayloadSplits(k: string, l: string, f: seq<Artifact>, g: seq<Artifact>, x: string, y: string)
    requires f != [] && g != [] && PayloadText(k, l, f, x) == PayloadText(k, l, g, y)
    requires (forall i :: 0 <= i < |f| ==> BothOrNeither(f[i])) && (forall i :: 0 <= i < |g| ==> BothOrNeither(g[i]))
    ensures f == g && x == y
  {
    var t, u := "," + Quoted(l, ":2}" + x), "," + Quoted(l, ":2}" + y);
    var a, b := List(Item, ']', f, t), List(Item, ']', g, u);
    DropFirst("{", Quoted(k, ":[" + a), Quoted(k, ":[" + b));
    QuotedSplits(k, k, ":[" + a, ":[" + b);
    assert (":[" + a)[2..] == a && (":[" + b)[2..] == b;
    ItemsSplitOff();
    ListSplits(Item, BothOrNeither, ']', f, g, t, u);
    DropFirst(",", Quoted(l, ":2}" + x), Quoted(l, ":2}" + y));
    QuotedSplits(l, l, ":2}" + x, ":2}" + y);
    assert (":2}" + x)[3..] == x && (":2}" + y)[3..] == y;
  }

  /** The text that is signed determines the payload. */
  lemma CanonicalInjective(p: Payload, q: Payload)
    requires PayloadOk(p) && PayloadOk(q) && Canonical(p, "") == Canonical(q, "")
    ensures p == q
  {
    CanonicalSplits(p, q, "", "");
  }

  /** `canonicalizeVersionPolicyEnvelope` */
  function Envelope(signature: string, p: Payload): Option<string> {
    match Canonical(p, "}")
    case None => None
    case Some(text) => Some(EnvelopeText("signature", "signed", signature, text))
  }

  /** An object with a string under one key and a given text under the other. */
  function EnvelopeText(textKey: string, key: string, value: string, text: string): string {
    "{" + Quoted(textKey, ":" + Quoted(value, "," + Quoted(key, ":" + text)))
  }

  /** The envelope's text determines the signature and the payload. */
  lemma EnvelopeInjective(s: string, p: Payload, t: string, q: Payload)
    requires PayloadOk(p) && PayloadOk(q) && Envelope(s, p) == Envelope(t, q)
    ensures s == t && p == q
  {
    EnvelopeSplits("signature", "signed", s, t, Canonical(p, "}").value, Canonical(q, "}").value);
    CanonicalSplits(p, q, "}", "}");
  }

  lemma EnvelopeSplits(k: string, l: string, s: string, t: string, a: string, b: string)
    requires EnvelopeText(k, l, s, a) == EnvelopeText(k, l, t, b)
    ensures s == t && a == b
  {
    var x, y := Quoted(l, ":" + a), Quoted(l, ":" + b);
    DropFirst("{", Quoted(k, ":" + Quoted(s, "," + x)), Quoted(k, ":" + Quoted(t, "," + y)));
    QuotedSplits(k, k, ":" + Quoted(s, "," + x), ":" + Quoted(t, "," + y));
    DropFirst(":", Quoted(s, "," + x), Quoted(t, "," + y));
    QuotedSplits(s, t, "," + x, "," + y);
    DropFirst(",", x, y);
    QuotedSplits(l, l, ":" + a, ":" + b);
    DropFirst(":", a, b);
  }
}
