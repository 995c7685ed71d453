/** Reading the canonical text of a release manifest back, by key name.

    The reader follows the grammar of RFC 8259 for the strings, objects and arrays that occur; it knows
    nothing of the printer in `VersionPolicy` and takes each member by its key.
 */
module ManifestReader {
  import opened Bytes
  import opened VersionPolicy

  // ----- Strings (section 7 of RFC 8259) -----

  function HexValue(c: char): Option<nat> {
    if '0' <= c <= '9' then Some((c - '0') as nat)
    else if 'a' <= c <= 'f' then Some((c - 'a') as nat + 10)
    else None
  }

  /** The character of a two-character escape. */
  function ShortEscape(c: char): Option<char> {
    match c
    case '\"' => Some('\"')
    case '\\' => Some('\\')
    case 'b' => Some('\U{0008}')
    case 'f' => Some('\U{000C}')
    case 'n' => Some('\n')
    case 'r' => Some('\r')
    case 't' => Some('\t')
    case _ => None
  }

  /** The first character that a text denotes, and how many characters denote it. */
  function ReadCharacter(s: string): (r: Option<(char, nat)>)
    ensures r.Some? ==> 0 < r.value.1 <= |s|
  {
    if s == "" || s[0] == '\"' || s[0] < ' ' then None
    else if s[0] != '\\' then Some((s[0], 1))
    else if |s| >= 2 && ShortEscape(s[1]).Some? then Some((ShortEscape(s[1]).value, 2))
    else if |s| >= 6 && s[1..4] == "u00" && HexValue(s[4]).Some? && HexValue(s[5]).Some? then
      Some(((16 * HexValue(s[4]).value + HexValue(s[5]).value) as char, 6))
    else None
  }

  /** The characters up to the closing quote, and what follows it. */
  function ReadCharacters(s: string): (r: Option<(string, string)>)
    ensures r.Some? ==> |r.value.1| < |s|
    decreases |s|
  {
    if s != "" && s[0] == '\"' then Some(("", s[1..]))
    else
      match ReadCharacter(s)
      case None => None
      case Some((c, n)) =>
        match ReadCharacters(s[n..])
        case None => None
        case Some((text, rest)) => Some(([c] + text, rest))
  }

  function ReadString(s: string): (r: Option<(string, string)>)
    ensures r.Some? ==> |r.value.1| < |s|
  {
    if s != "" && s[0] == '\"' then ReadCharacters(s[1..]) else None
  }

  lemma HexRoundTrip(n: nat)
    requires n < 16
    ensures HexValue(HexDigit(n)) == Some(n)
  {
  }

  lemma ReadsCharacter(c: char, x: string)
    ensures ReadCharacter(Escape(c) + x) == Some((c, |Escape(c)|)) && (Escape(c) + x)[|Escape(c)|..] == x
  {
    var e, s := Escape(c), Escape(c) + x;
    EscapeKinds(c);
    assert s[0] == e[0] && s[|e|..] == x;
    if |e| >= 2 { assert s[1] == e[1]; }
    if |e| > 2 {
      var n := c as nat;
      assert s[1..4] == e[1..4] == "u00" && s[4] == e[4] && s[5] == e[5];
      HexRoundTrip(n / 16);
      HexRoundTrip(n % 16);
      assert 16 * (n / 16) + n % 16 == n;
    }
  }

  lemma {:induction false} ReadsCharacters(s: string, rest: string)
    ensures ReadCharacters(Characters(s, rest)) == Some((s, rest))
    decreases |s|
  {
    if s == "" {
      assert (['\"'] + rest)[1..] == rest;
    } else {
      var more := Characters(s[1..], rest);
      ReadsCharacters(s[1..], rest);
      ReadsCharacter(s[0], more);
      assert (Escape(s[0]) + more)[0] == Escape(s[0])[0];
      assert [s[0]] + s[1..] == s;
    }
  }

  /** Reading undoes printing, for every string. */
  lemma ReadsString(s: string, rest: string)
    ensures ReadString(Quoted(s, rest)) == Some((s, rest))
  {
    assert Quoted(s, rest)[1..] == Characters(s, rest);
    ReadsCharacters(s, rest);
  }

  // ----- Lists -----

  /** The text after a character that must come first. */
  function After1(c: char, s: string): (r: Option<string>)
    ensures r.Some? ==> |r.value| < |s|
  {
    if s != "" && s[0] == c then Some(s[1..]) else None
  }

  /** Elements with commas between them, up to the closing character. */
  function ReadList<T>(get: string -> Option<(T, string)>, close: char, s: string): Option<(seq<T>, string)>
    decreases |s|
  {
    match get(s)
    case None => None
    case Some((x, more)) =>
      if more == "" || |more| > |s| then None
      else if more[0] == close then Some(([x], more[1..]))
      else if more[0] != ',' then None
      else
        match ReadList(get, close, more[1..])
        case None => None
        case Some((xs, rest)) => Some(([x] + xs, rest))
  }

  /** The reader undoes the printer of one element. */
  ghost predicate Undoes<T(!new)>(get: string -> Option<(T, string)>, put: (T, string) -> string, ok: T -> bool) {
    forall a: T, x: string :: ok(a) ==> get(put(a, x)) == Some((a, x)) && |x| <= |put(a, x)|
  }

  lemma {:induction false} ReadsList<T(!new)>(get: string -> Option<(T, string)>, put: (T, string) -> string,
                                              ok: T -> bool, close: char, xs: seq<T>, rest: string)
    requires Undoes(get, put, ok) && close != ',' && xs != [] && forall i :: 0 <= i < |xs| ==> ok(xs[i])
    ensures ReadList(get, close, List(put, close, xs, rest)) == Some((xs, rest))
    decreases |xs|
  {
    var last := |xs| == 1;
    var more := if last then rest else List(put, close, xs[1..], rest);
    var after := VersionPolicy.After(last, close, more);
    assert after[1..] == more;
    assert get(put(xs[0], after)) == Some((xs[0], after));
    if last {
      assert xs == [xs[0]];
    } else {
      ReadsList(get, put, ok, close, xs[1..], rest);
      assert xs == [xs[0]] + xs[1..];
    }
  }

  // ----- Artifacts -----

  /** A key and its string value. */
  function ReadMember(s: string): Option<((string, string), string)> {
    match ReadString(s)
    case None => None
    case Some((key, more)) =>
      match After1(':', more)
      case None => None
      case Some(value) =>
        match ReadString(value)
        case None => None
        case Some((text, rest)) => Some(((key, text), rest))
  }

  function Get(members: Fields, key: string): string {
    if members == [] then "" else if members[0].0 == key then members[0].1 else Get(members[1..], key)
  }

  function Keys(members: Fields): seq<string> {
    seq(|members|, i requires 0 <= i < |members| => members[i].0)
  }

  const PLAIN_KEYS := ["executableSha256", "packageName", "sourceSha", "version", "workerExecutableSha256"]
  const WINDOWS_KEYS := ["authenticodePublisher", "authenticodeThumbprint"] + PLAIN_KEYS

  /** The artifact whose members these are, each taken by its key. */
  function ToArtifact(members: Fields): Option<Artifact> {
    var windows := Keys(members) == WINDOWS_KEYS;
    if !windows && Keys(members) != PLAIN_KEYS then None
    else
      Some(Artifact(
             packageName := Get(members, "packageName"),
             version := Get(members, "version"),
             sourceSha := Get(members, "sourceSha"),
             executableSha256 := Get(members, "executableSha256"),
             workerExecutableSha256 := Get(members, "workerExecutableSha256"),
             publisher := if windows then Some(Get(members, "authenticodePublisher")) else None,
             thumbprint := if windows then Some(Get(members, "authenticodeThumbprint")) else None))
  }

  function ReadItem(s: string): Option<(Artifact, string)> {
    match After1('{', s)
    case None => None
    case Some(inside) =>
      match ReadList(ReadMember, '}', inside)
      case None => None
      case Some((members, rest)) =>
        match ToArtifact(members)
        case None => None
        case Some(a) => Some((a, rest))
  }

  lemma ReadsMember(f: (string, string), rest: string)
    ensures ReadMember(Member(f, rest)) == Some((f, rest)) && |rest| <= |Member(f, rest)|
  {
    ReadsString(f.0, ":" + Quoted(f.1, rest));
    assert (":" + Quoted(f.1, rest))[1..] == Quoted(f.1, rest);
    ReadsString(f.1, rest);
  }

  /** The printed members are exactly the values of the artifact, each under its own key. */
  lemma MembersAreTheArtifact(a: Artifact)
    requires BothOrNeither(a)
    ensures ToArtifact(FieldsOf(a)) == Some(a)
  {
    if a.publisher.None? {
      PlainIsTheArtifact(a);
    } else {
      WindowsIsTheArtifact(a);
    }
  }

  lemma PlainIsTheArtifact(a: Artifact)
    requires a.publisher.None? && a.thumbprint.None?
    ensures ToArtifact(FieldsOf(a)) == Some(a)
  {
    var f := FieldsOf(a);
    assert Keys(f) == PLAIN_KEYS && |WINDOWS_KEYS| == 7;
    PlainMembers(f, a);
  }

  lemma WindowsIsTheArtifact(a: Artifact)
    requires a.publisher.Some? && a.thumbprint.Some?
    ensures ToArtifact(FieldsOf(a)) == Some(a)
  {
    WindowsKeys(a);
    WindowsValues(FieldsOf(a), FieldsOf(a.(publisher := None)), a);
    Assembled(FieldsOf(a), a);
  }

  lemma WindowsKeys(a: Artifact)
    requires a.publisher.Some?
    ensures Keys(FieldsOf(a)) == WINDOWS_KEYS
  {
  }

  /** Each value is found under its key. */
  ghost predicate ValuesOf(f: Fields, a: Artifact) {
    && Get(f, "executableSha256") == a.executableSha256 && Get(f, "packageName") == a.packageName
    && Get(f, "sourceSha") == a.sourceSha && Get(f, "version") == a.version
    && Get(f, "workerExecutableSha256") == a.workerExecutableSha256
  }

  lemma WindowsValues(f: Fields, plain: Fields, a: Artifact)
    requires a.publisher.Some? && a.thumbprint.Some? && plain == FieldsOf(a.(publisher := None))
    requires f == [("authenticodePublisher", a.publisher.value), ("authenticodeThumbprint", a.thumbprint.value)] + plain
    ensures ValuesOf(f, a) && Get(f, "authenticodePublisher") == a.publisher.value
    ensures Get(f, "authenticodeThumbprint") == a.thumbprint.value
  {
    WindowsMembers(f, plain, a.publisher.value, a.thumbprint.value);
    PlainMembers(plain, a);
  }

  lemma Assembled(f: Fields, a: Artifact)
    requires a.publisher.Some? && a.thumbprint.Some? && Keys(f) == WINDOWS_KEYS && ValuesOf(f, a)
    requires Get(f, "authenticodePublisher") == a.publisher.value
    requires Get(f, "authenticodeThumbprint") == a.thumbprint.value
    ensures ToArtifact(f) == Some(a)
  {
  }

  lemma WindowsMembers(f: Fields, plain: Fields, publisher: string, thumbprint: string)
    requires f == [("authenticodePublisher", publisher), ("authenticodeThumbprint", thumbprint)] + plain
    ensures Get(f, "authenticodePublisher") == publisher && Get(f, "authenticodeThumbprint") == thumbprint
    ensures forall key: string :: key != "" && key[0] != 'a' ==> Get(f, key) == Get(plain, key)
  {
    var more := f[1..];
    assert more[1..] == plain && more[0] == ("authenticodeThumbprint", thumbprint);
    assert f[0].0[12] == 'P' && more[0].0[12] == 'T';
    forall key: string | key != "" && key[0] != 'a' ensures Get(f, key) == Get(plain, key) {
      assert f[0].0[0] == 'a' && more[0].0[0] == 'a';
    }
  }

  lemma PlainMembers(f: Fields, a: Artifact)
    requires f == FieldsOf(a.(publisher := None))
    ensures ValuesOf(f, a)
  {
    var f1, f2, f3, f4 := f[1..], f[1..][1..], f[1..][1..][1..], f[1..][1..][1..][1..];
    assert f1[0].0 == "packageName" && f2[0].0 == "sourceSha" && f3[0].0 == "version";
    assert f4[0] == ("workerExecutableSha256", a.workerExecutableSha256);
    assert Get(f4, "workerExecutableSha256") == a.workerExecutableSha256;
    assert Get(f3, "workerExecutableSha256") == a.workerExecutableSha256 && Get(f3, "version") == a.version;
    assert Get(f2, "workerExecutableSha256") == a.workerExecutableSha256 && Get(f2, "version") == a.version;
    assert Get(f2, "sourceSha") == a.sourceSha;
    assert Get(f1, "workerExecutableSha256") == a.workerExecutableSha256 && Get(f1, "version") == a.version;
    assert Get(f1, "sourceSha") == a.sourceSha && Get(f1, "packageName") == a.packageName;
  }

  /** The keys of each printed artifact are in ascending order. */
  lemma KeysAscend(a: Artifact)
    ensures forall i :: 0 < i < |FieldsOf(a)| ==> Less(FieldsOf(a)[i - 1].0, FieldsOf(a)[i].0)
  {
    var f := FieldsOf(a);
    forall i | 0 < i < |f| ensures Less(f[i - 1].0, f[i].0) {
      KeyAscends(a, i);
    }
  }

  lemma KeyAscends(a: Artifact, i: nat)
    requires 0 < i < |FieldsOf(a)|
    ensures Less(FieldsOf(a)[i - 1].0, FieldsOf(a)[i].0)
  {
    var k, l := FieldsOf(a)[i - 1].0, FieldsOf(a)[i].0;
    if a.publisher.Some? && i == 1 {
      PublisherFirst(k, l);
    } else {
      FirstLess(k, l);
    }
  }

  lemma PublisherFirst(k: string, l: string)
    requires k == "authenticodePublisher" && l == "authenticodeThumbprint"
    ensures Less(k, l)
  {
    assert k[12] == 'P' && l[12] == 'T' && k[..12] == l[..12];
    assert k == k[..12] + k[12..] && l == l[..12] + l[12..];
    FirstLess(k[12..], l[12..]);
    PrefixLess(k[..12], k[12..], l[12..]);
  }

  lemma FirstLess(k: string, l: string)
    requires k != "" && l != "" && k[0] < l[0]
    ensures Less(k, l)
  {
  }

  lemma {:induction false} PrefixLess(p: string, a: string, b: string)
    requires Less(a, b)
    ensures Less(p + a, p + b)
    decreases |p|
  {
    if p == "" {
      assert p + a == a && p + b == b;
    } else {
      PrefixLess(p[1..], a, b);
      assert (p + a)[1..] == p[1..] + a && (p + b)[1..] == p[1..] + b;
    }
  }

  /** Reading undoes printing one artifact. */
  lemma ReadsItem(a: Artifact, rest: string)
    requires BothOrNeither(a)
    ensures ReadItem(Item(a, rest)) == Some((a, rest)) && |rest| <= |Item(a, rest)|
  {
    ReadsMembers(FieldsOf(a), rest);
    MembersAreTheArtifact(a);
    assert Item(a, rest)[1..] == List(Member, '}', FieldsOf(a), rest);
  }

  lemma ReadsMembers(f: Fields, rest: string)
    requires f != []
    ensures ReadList(ReadMember, '}', List(Member, '}', f, rest)) == Some((f, rest))
    ensures |rest| <= |List(Member, '}', f, rest)|
  {
    forall g, x ensures ReadMember(Member(g, x)) == Some((g, x)) && |x| <= |Member(g, x)| { ReadsMember(g, x); }
    ReadsList(ReadMember, Member, g => true, '}', f, rest);
    ListIsLonger(Member, '}', f, rest);
  }

  lemma {:induction false} ListIsLonger<T(!new)>(put: (T, string) -> string, close: char, xs: seq<T>, rest: string)
    requires xs != [] && forall a: T, x: string :: |x| <= |put(a, x)|
    ensures |rest| <= |List(put, close, xs, rest)|
    decreases |xs|
  {
    if |xs| == 1 {
    } else {
      ListIsLonger(put, close, xs[1..], rest);
    }
  }

  // ----- Payload and envelope -----

  /** A key that must come first, with its colon. */
  function AfterKey(key: string, s: string): Option<string> {
    match ReadString(s)
    case None => None
    case Some((k, more)) => if k == key then After1(':', more) else None
  }

  function ReadPayload(s: string): Option<(Payload, string)> { ReadPayloadOf("artifacts", "schemaVersion", s) }

  /** An object with a list of artifacts under one key and the version under the other. */
  function ReadPayloadOf(listKey: string, versionKey: string, s: string): Option<(Payload, string)> {
    match After1('{', s)
    case None => None
    case Some(inside) =>
      match AfterKey(listKey, inside)
      case None => None
      case Some(value) =>
        match After1('[', value)
        case None => None
        case Some(items) =>
          match ReadList(ReadItem, ']', items)
          case None => None
          case Some((artifacts, more)) =>
            match ReadVersion(versionKey, more)
            case None => None
            case Some((n, rest)) => Some((Payload(n, artifacts), rest))
  }

  /** The second member: the schema version, which is one digit. */
  function ReadVersion(key: string, s: string): Option<(nat, string)> {
    match After1(',', s)
    case None => None
    case Some(member) =>
      match AfterKey(key, member)
      case None => None
      case Some(number) =>
        if |number| >= 2 && '0' <= number[0] <= '9' && number[1] == '}'
        then Some(((number[0] - '0') as nat, number[2..]))
        else None
  }

  function ReadEnvelope(s: string): Option<(string, Payload)> { ReadEnvelopeOf("signature", "signed", ReadPayload, s) }

  /** An object with a string under one key and what `get` reads under the other. */
  function ReadEnvelopeOf<T>(textKey: string, key: string, get: string -> Option<(T, string)>, s: string)
    : Option<(string, T)>
  {
    match After1('{', s)
    case None => None
    case Some(inside) =>
      match AfterKey(textKey, inside)
      case None => None
      case Some(value) =>
        match ReadString(value)
        case None => None
        case Some((text, more)) =>
          match After1(',', more)
          case None => None
          case Some(member) =>
            match AfterKey(key, member)
            case None => None
            case Some(inner) =>
              match get(inner)
              case None => None
              case Some((x, rest)) => if rest == "}" then Some((text, x)) else None
  }

  lemma ReadsKey(key: string, rest: string)
    ensures AfterKey(key, Quoted(key, ":" + rest)) == Some(rest)
  {
    ReadsString(key, ":" + rest);
    assert (":" + rest)[1..] == rest;
  }

  lemma ReadsVersion(key: string, rest: string)
    ensures ReadVersion(key, "," + Quoted(key, ":2}" + rest)) == Some((2, rest))
  {
    var number := "2}" + rest;
    assert ":2}" + rest == ":" + number;
    assert ("," + Quoted(key, ":" + number))[1..] == Quoted(key, ":" + number);
    ReadsKey(key, number);
    assert number[2..] == rest;
  }

  lemma ReadsPayloadOf(listKey: string, versionKey: string, artifacts: seq<Artifact>, rest: string)
    requires artifacts != [] && forall i :: 0 <= i < |artifacts| ==> BothOrNeither(artifacts[i])
    ensures ReadPayloadOf(listKey, versionKey, PayloadText(listKey, versionKey, artifacts, rest))
         == Some((Payload(2, artifacts), rest))
  {
    var more := "," + Quoted(versionKey, ":2}" + rest);
    var items := List(Item, ']', artifacts, more);
    ReadsOpening(listKey, items);
    ReadsItems(artifacts, more);
    ReadsVersion(versionKey, rest);
  }

  lemma ReadsOpening(key: string, items: string)
    ensures After1('{', "{" + Quoted(key, ":[" + items)) == Some(Quoted(key, ":[" + items))
    ensures AfterKey(key, Quoted(key, ":[" + items)) == Some("[" + items)
    ensures After1('[', "[" + items) == Some(items)
  {
    assert ("{" + Quoted(key, ":[" + items))[1..] == Quoted(key, ":[" + items);
    assert ":[" + items == ":" + ("[" + items);
    ReadsKey(key, "[" + items);
    assert ("[" + items)[1..] == items;
  }

  lemma ReadsItems(artifacts: seq<Artifact>, more: string)
    requires artifacts != [] && forall i :: 0 <= i < |artifacts| ==> BothOrNeither(artifacts[i])
    ensures ReadList(ReadItem, ']', List(Item, ']', artifacts, more)) == Some((artifacts, more))
  {
    ItemsUndone();
    ReadsList(ReadItem, Item, BothOrNeither, ']', artifacts, more);
  }

  lemma ItemsUndone()
    ensures Undoes(ReadItem, Item, BothOrNeither)
  {
    forall a, x | BothOrNeither(a) ensures ReadItem(Item(a, x)) == Some((a, x)) && |x| <= |Item(a, x)| {
      ReadsItem(a, x);
    }
  }

  /** Reading undoes printing, for every valid payload: the signed text says exactly what the payload says. */
  lemma ReadsPayload(p: Payload, rest: string)
    requires PayloadOk(p)
    ensures Canonical(p, rest).Some? && ReadPayload(Canonical(p, rest).value) == Some((p, rest))
  {
    ValidIsConsistent(p);
    ReadsPayloadOf("artifacts", "schemaVersion", p.artifacts, rest);
    assert p == Payload(2, p.artifacts);
  }

  lemma ReadsEnvelopeOf<T>(textKey: string, key: string, get: string -> Option<(T, string)>, signature: string,
                           text: string, x: T)
    requires get(text) == Some((x, "}"))
    ensures ReadEnvelopeOf(textKey, key, get, EnvelopeText(textKey, key, signature, text)) == Some((signature, x))
  {
    var signed := Quoted(key, ":" + text);
    var value := Quoted(signature, "," + signed);
    assert ("{" + Quoted(textKey, ":" + value))[1..] == Quoted(textKey, ":" + value);
    ReadsKey(textKey, value);
    ReadsString(signature, "," + signed);
    assert ("," + signed)[1..] == signed;
    ReadsKey(key, text);
  }

  /** Reading undoes printing the envelope, for every signature text. */
  lemma ReadsEnvelope(signature: string, p: Payload)
    requires PayloadOk(p)
    ensures Envelope(signature, p).Some? && ReadEnvelope(Envelope(signature, p).value) == Some((signature, p))
  {
    ReadsPayload(p, "}");
    ReadsEnvelopeOf("signature", "signed", ReadPayload, signature, Canonical(p, "}").value, p);
  }
}
