/** Byte formats of the two authenticated transports: the local CLI transport
    (`local_transport.rs`) and the browser-extension transport (`secure_transport.rs`).

    Every signed transcript and every frame's associated data is built here.  Text in them is its UTF-8
    bytes.
 */
module WireFormats {
  import opened Bytes
  import opened Decimals

  // ----- Domains -----

  const CLIENT_OPEN_DOMAIN := Ascii("palladin.browser-host-ipc.v1\0client-open-v1\0")
  const SESSION_DOMAIN := Ascii("palladin.browser-host-ipc.v1\0session-v1\0")
  const EXTENSION_DOMAIN := Ascii("palladin.inject-provider.v1\0extension-session-v1\0")
  const SESSION_ID_DOMAIN := Ascii("palladin.browser-host-ipc.v1\0session-id-v1\0")
  const LOCAL_AAD_DOMAIN := Ascii("palladin.browser-host-ipc.v1\0secure-frame-v1\0")
  const EXTENSION_AAD_DOMAIN :=
    Ascii("palladin.inject-provider.v1\0") + Ascii("extension-secure-frame-v1\0")

  lemma DifferentStart(a: bytes, b: bytes, x: bytes, y: bytes, i: nat)
    requires i < |a| && i < |b| && a[i] != b[i]
    ensures a + x != b + y
  {
    assert (a + x)[i] == a[i] && (b + y)[i] == b[i];
  }

  // ----- Transcripts -----

  /** `append_bytes`: a four-byte big-endian length and the value. */
  function Field(value: bytes): bytes {
    BigEndian(|value|, 4) + value
  }

  /** A length-prefixed field can be split off the front in one way only. */
  lemma FieldSplits(a: bytes, b: bytes, x: bytes, y: bytes)
    requires |a| < 0x1_0000_0000 && |b| < 0x1_0000_0000
    requires Field(a) + x == Field(b) + y
    ensures a == b && x == y
  {
    var l, r := Field(a) + x, Field(b) + y;
    assert l[..4] == BigEndian(|a|, 4) && r[..4] == BigEndian(|b|, 4);
    Pow256Values();
    BigEndianInjective(|a|, |b|, 4);
    assert l[4..4 + |a|] == a && r[4..4 + |b|] == b;
    assert l[4 + |a|..] == x && r[4 + |b|..] == y;
  }

  function Fields(values: seq<bytes>): bytes {
    if values == [] then [] else Field(values[0]) + Fields(values[1..])
  }

  predicate Short(values: seq<bytes>) {
    forall i :: 0 <= i < |values| ==> |values[i]| < 0x1_0000_0000
  }

  lemma {:induction false} FieldsInjective(a: seq<bytes>, b: seq<bytes>)
    requires |a| == |b| && Short(a) && Short(b) && Fields(a) == Fields(b)
    ensures a == b
    decreases |a|
  {
    if a == [] {
    } else {
      FieldSplits(a[0], b[0], Fields(a[1..]), Fields(b[1..]));
      FieldsInjective(a[1..], b[1..]);
      assert a == [a[0]] + a[1..] && b == [b[0]] + b[1..];
    }
  }

  function ClientOpenTranscript(clientNonce: bytes, clientKey: bytes, signingKey: bytes): bytes {
    CLIENT_OPEN_DOMAIN + Fields([clientNonce, clientKey, signingKey])
  }

  /** What the two ends of a local session agree on. */
  datatype Handshake = Handshake(clientNonce: bytes, clientKey: bytes, hostNonce: bytes, hostKey: bytes,
                                 signingKey: bytes)
  {
    function Parts(): seq<bytes> { [clientNonce, clientKey, hostNonce, hostKey, signingKey] }

    predicate Sized() {
      |clientNonce| == 32 && |clientKey| == 32 && |hostNonce| == 32 && |hostKey| == 32 && |signingKey| == 32
    }
  }

  function SessionTranscript(h: Handshake): bytes {
    SESSION_DOMAIN + Fields(h.Parts())
  }

  function ExtensionTranscript(origin: bytes, extensionNonce: bytes, extensionKey: bytes,
                               hostNonce: bytes, hostKey: bytes, signingKey: bytes): bytes {
    EXTENSION_DOMAIN + Fields([origin, extensionNonce, extensionKey, hostNonce, hostKey, signingKey])
  }

  lemma SessionTranscriptInjective(h: Handshake, g: Handshake)
    requires h.Sized() && g.Sized() && SessionTranscript(h) == SessionTranscript(g)
    ensures h == g
  {
    assert SessionTranscript(h)[|SESSION_DOMAIN|..] == Fields(h.Parts());
    assert SessionTranscript(g)[|SESSION_DOMAIN|..] == Fields(g.Parts());
    FieldsInjective(h.Parts(), g.Parts());
    assert h.Parts()[0] == g.Parts()[0] && h.Parts()[1] == g.Parts()[1] && h.Parts()[2] == g.Parts()[2];
    assert h.Parts()[3] == g.Parts()[3] && h.Parts()[4] == g.Parts()[4];
  }

  lemma ClientOpenTranscriptInjective(n: bytes, k: bytes, s: bytes, n': bytes, k': bytes, s': bytes)
    requires |n| == |k| == |s| == |n'| == |k'| == |s'| == 32
    requires ClientOpenTranscript(n, k, s) == ClientOpenTranscript(n', k', s')
    ensures n == n' && k == k' && s == s'
  {
    assert ClientOpenTranscript(n, k, s)[|CLIENT_OPEN_DOMAIN|..] == Fields([n, k, s]);
    assert ClientOpenTranscript(n', k', s')[|CLIENT_OPEN_DOMAIN|..] == Fields([n', k', s']);
    FieldsInjective([n, k, s], [n', k', s']);
    assert [n, k, s][0] == [n', k', s'][0] && [n, k, s][1] == [n', k', s'][1] && [n, k, s][2] == [n', k', s'][2];
  }

  /** One identity signs all three kinds of transcript; no two kinds coincide as byte strings. */
  lemma TranscriptKindsDisjoint(open: seq<bytes>, session: seq<bytes>, extension: seq<bytes>)
    ensures CLIENT_OPEN_DOMAIN + Fields(open) != SESSION_DOMAIN + Fields(session)
    ensures CLIENT_OPEN_DOMAIN + Fields(open) != EXTENSION_DOMAIN + Fields(extension)
    ensures SESSION_DOMAIN + Fields(session) != EXTENSION_DOMAIN + Fields(extension)
  {
    var p := "palladin.browser-host-ipc.v1\0client-open-v1\0";
    var q := "palladin.browser-host-ipc.v1\0session-v1\0";
    var r := "palladin.inject-provider.v1\0extension-session-v1\0";
    assert p[29] == 'c' && q[29] == 's' && p[9] == 'b' && q[9] == 'b' && r[9] == 'i';
    DifferentStart(CLIENT_OPEN_DOMAIN, SESSION_DOMAIN, Fields(open), Fields(session), 29);
    DifferentStart(CLIENT_OPEN_DOMAIN, EXTENSION_DOMAIN, Fields(open), Fields(extension), 9);
    DifferentStart(SESSION_DOMAIN, EXTENSION_DOMAIN, Fields(session), Fields(extension), 9);
  }

  // ----- Reading transcripts back -----

  /** The first `n` length-prefixed fields, and what follows them. */
  function ReadFields(b: bytes, n: nat): Option<(seq<bytes>, bytes)>
    decreases n
  {
    if n == 0 then Some(([], b))
    else if |b| < 4 || |b| < 4 + BigEndianValue(b[..4]) then None
    else
      var end := 4 + BigEndianValue(b[..4]);
      match ReadFields(b[end..], n - 1)
      case None => None
      case Some((fields, rest)) => Some(([b[4..end]] + fields, rest))
  }

  /** One field is read back whatever follows it. */
  lemma FieldReads(v: bytes, more: bytes)
    requires |v| < 0x1_0000_0000
    ensures var b := Field(v) + more;
            |b| >= 4 + |v| && BigEndianValue(b[..4]) == |v| && b[4..4 + |v|] == v && b[4 + |v|..] == more
  {
    var b := Field(v) + more;
    assert b[..4] == BigEndian(|v|, 4);
    Pow256Values();
    BigEndianRoundTrip(|v|, 4);
    assert b[4..4 + |v|] == v && b[4 + |v|..] == more;
  }

  lemma {:induction false} FieldsRead(values: seq<bytes>, rest: bytes)
    requires Short(values)
    ensures ReadFields(Fields(values) + rest, |values|) == Some((values, rest))
    decreases |values|
  {
    if values == [] {
      assert Fields(values) + rest == rest;
    } else {
      var v, more := values[0], Fields(values[1..]) + rest;
      Associates(Field(v), Fields(values[1..]), rest);
      FieldReads(v, more);
      FieldsRead(values[1..], rest);
      assert [v] + values[1..] == values;
    }
  }

  lemma BehindDomain(domain: bytes, values: seq<bytes>)
    requires Short(values)
    ensures ReadFields((domain + Fields(values))[|domain|..], |values|) == Some((values, []))
  {
    assert (domain + Fields(values))[|domain|..] == Fields(values) + [];
    FieldsRead(values, []);
  }

  /** Behind its domain, each transcript holds its values, length-prefixed, in the order of the protocol. */
  lemma SessionTranscriptReads(h: Handshake)
    requires h.Sized()
    ensures var values := [h.clientNonce, h.clientKey, h.hostNonce, h.hostKey, h.signingKey];
            ReadFields(SessionTranscript(h)[|SESSION_DOMAIN|..], |values|) == Some((values, []))
  {
    BehindDomain(SESSION_DOMAIN, [h.clientNonce, h.clientKey, h.hostNonce, h.hostKey, h.signingKey]);
  }

  lemma ClientOpenTranscriptReads(nonce: bytes, key: bytes, signingKey: bytes)
    requires |nonce| == |key| == |signingKey| == 32
    ensures var values := [nonce, key, signingKey];
            ReadFields(ClientOpenTranscript(nonce, key, signingKey)[|CLIENT_OPEN_DOMAIN|..], |values|)
            == Some((values, []))
  {
    BehindDomain(CLIENT_OPEN_DOMAIN, [nonce, key, signingKey]);
  }

  lemma ExtensionTranscriptReads(origin: bytes, n: bytes, k: bytes, m: bytes, l: bytes, s: bytes)
    requires |n| == |k| == |m| == |l| == |s| == 32 && |origin| < 0x1_0000_0000
    ensures var values := [origin, n, k, m, l, s];
            ReadFields(ExtensionTranscript(origin, n, k, m, l, s)[|EXTENSION_DOMAIN|..], |values|) == Some((values, []))
  {
    BehindDomain(EXTENSION_DOMAIN, [origin, n, k, m, l, s]);
  }

  // ----- Frame nonces -----

  function XorBytes(a: bytes, b: bytes): (x: bytes)
    requires |a| == |b|
    ensures |x| == |a|
    ensures forall i :: 0 <= i < |x| ==> x[i] == Xor(a[i], b[i])
  {
    seq(|a|, i requires 0 <= i < |a| => Xor(a[i], b[i]))
  }

  /** The 24 bytes of an extended nonce. */
  type nonce24 = b: bytes | |b| == 24 witness seq(24, i => 0)

  /** The counter is folded into the last eight bytes of the nonce base. */
  function FrameNonce(base: nonce24, sequence: u64): nonce24
  {
    base[..16] + XorBytes(base[16..], BigEndian(sequence, 8))
  }

  method ComputeFrameNonce(base: array<byte>, sequence: u64) returns (nonce: array<byte>)
    requires base.Length == 24
    ensures fresh(nonce) && nonce[..] == FrameNonce(base[..], sequence)
  {
    nonce := new byte[24](i requires 0 <= i < 24 reads base => base[i]);
    var source := BigEndian(sequence, 8);
    for i := 0 to 8
      invariant forall j :: 0 <= j < 16 ==> nonce[j] == base[j]
      invariant forall j :: 16 <= j < 16 + i ==> nonce[j] == Xor(base[j], source[j - 16])
      invariant forall j :: 16 + i <= j < 24 ==> nonce[j] == base[j]
    {
      nonce[16 + i] := Xor(nonce[16 + i], source[i]);
    }
    assert base[..][16..] == base[16..];
  }

  /** Distinct counters give distinct nonces under every nonce base. */
  lemma FrameNonceInjective(base: nonce24, m: u64, n: u64)
    requires FrameNonce(base, m) == FrameNonce(base, n)
    ensures m == n
  {
    var a, b := BigEndian(m, 8), BigEndian(n, 8);
    assert FrameNonce(base, m)[16..] == XorBytes(base[16..], a);
    assert FrameNonce(base, n)[16..] == XorBytes(base[16..], b);
    forall i | 0 <= i < 8 ensures a[i] == b[i] {
      assert XorBytes(base[16..], a)[i] == XorBytes(base[16..], b)[i];
      XorCancels(base[16..][i], a[i], b[i]);
    }
    Pow256Values();
    BigEndianInjective(m, n, 8);
  }

  /** The nonce is its base but for the last eight bytes, where the difference to the base spells the counter. */
  lemma FrameNonceReads(base: nonce24, n: u64)
    ensures FrameNonce(base, n)[..16] == base[..16]
    ensures BigEndianValue(XorBytes(FrameNonce(base, n)[16..], base[16..])) == n
  {
    var counter, tail := BigEndian(n, 8), FrameNonce(base, n)[16..];
    assert tail == XorBytes(base[16..], counter);
    forall i | 0 <= i < 8 ensures XorBytes(tail, base[16..])[i] == counter[i] {
      XorUndone(base[16..][i], counter[i]);
    }
    assert XorBytes(tail, base[16..]) == counter;
    Pow256Values();
    BigEndianRoundTrip(n, 8);
  }

  // ----- Associated data -----

  datatype Protocol = Local | Extension
  datatype Direction = FromHost | ToHost

  function AadDomain(p: Protocol): bytes {
    match p case Local => LOCAL_AAD_DOMAIN case Extension => EXTENSION_AAD_DOMAIN
  }

  function Label(p: Protocol, d: Direction): bytes {
    match (p, d)
    case (Local, FromHost) => Ascii("host-to-client")
    case (Local, ToHost) => Ascii("client-to-host")
    case (Extension, FromHost) => Ascii("host-to-extension")
    case (Extension, ToHost) => Ascii("extension-to-host")
  }

  function FrameAad(p: Protocol, sessionId: bytes, d: Direction, sequence: u64): bytes {
    AadDomain(p) + (sessionId + ([0] + (Label(p, d) + ([0] + BigEndian(sequence, 8)))))
  }

  /** Appending the same number of bytes is injective in both parts. */
  lemma SplitEnd(a: bytes, b: bytes, x: bytes, y: bytes)
    requires |x| == |y| && a + x == b + y
    ensures a == b && x == y
  {
    assert (a + x)[..|a|] == a && (b + y)[..|b|] == b;
    assert (a + x)[|a|..] == x && (b + y)[|b|..] == y;
  }

  /** Associated data of the local transport never starts like that of the extension transport. */
  lemma AadDomainsDiffer(x: bytes)
    ensures !(EXTENSION_AAD_DOMAIN <= LOCAL_AAD_DOMAIN + x)
  {
    var p := "palladin.browser-host-ipc.v1\0secure-frame-v1\0";
    var q := "palladin.inject-provider.v1\0";
    assert p[9] == 'b' && q[9] == 'i';
    assert EXTENSION_AAD_DOMAIN[9] == Ascii(q)[9];
    assert (LOCAL_AAD_DOMAIN + x)[9] == LOCAL_AAD_DOMAIN[9];
  }

  lemma LabelsDiffer(p: Protocol)
    ensures |Label(p, FromHost)| == |Label(p, ToHost)| && Label(p, FromHost) != Label(p, ToHost)
  {
    assert "host-to-client"[0] == 'h' && "client-to-host"[0] == 'c';
    assert "host-to-extension"[0] == 'h' && "extension-to-host"[0] == 'e';
    assert Label(p, FromHost)[0] != Label(p, ToHost)[0];
  }

  /** Associated data determines the transport, the session, the direction and the counter. */
  lemma FrameAadInjective(p: Protocol, s: bytes, d: Direction, m: u64, q: Protocol, t: bytes, e: Direction, n: u64)
    requires FrameAad(p, s, d, m) == FrameAad(q, t, e, n)
    ensures p == q && s == t && d == e && m == n
  {
    var mm, nn := [0] + BigEndian(m, 8), [0] + BigEndian(n, 8);
    var l, r := [0] + (Label(p, d) + mm), [0] + (Label(q, e) + nn);
    AadDomainsDiffer(s + l);
    AadDomainsDiffer(t + r);
    assert p == q;
    LabelsDiffer(p);
    SplitEnd(AadDomain(p), AadDomain(q), s + l, t + r);
    SplitEnd(s, t, l, r);
    SplitEnd([0], [0], Label(p, d) + mm, Label(q, e) + nn);
    SplitEnd(Label(p, d), Label(q, e), mm, nn);
    SplitEnd([0], [0], BigEndian(m, 8), BigEndian(n, 8));
    Pow256Values();
    BigEndianInjective(m, n, 8);
  }

  /** Where the parts of associated data lie: the domain, the session id, a zero byte, the direction, a zero
      byte and the eight bytes of the counter, most significant first. */
  lemma FrameAadLayout(p: Protocol, s: bytes, d: Direction, n: u64)
    ensures var a, m := FrameAad(p, s, d, n), |AadDomain(p)| + |s|;
            var l := |Label(p, d)|;
            && |a| == m + l + 10 && a[..|AadDomain(p)|] == AadDomain(p) && a[|AadDomain(p)|..m] == s
            && a[m] == 0 && a[m + 1..m + 1 + l] == Label(p, d) && a[m + 1 + l] == 0
            && BigEndianValue(a[m + 2 + l..]) == n
  {
    Layout(AadDomain(p), s, Label(p, d), BigEndian(n, 8));
    Pow256Values();
    BigEndianRoundTrip(n, 8);
  }

  lemma Layout(domain: bytes, s: bytes, l: bytes, n: bytes)
    ensures var a, m := domain + (s + ([0] + (l + ([0] + n)))), |domain| + |s|;
            && |a| == m + |l| + 2 + |n| && a[..|domain|] == domain && a[|domain|..m] == s
            && a[m] == 0 && a[m + 1..m + 1 + |l|] == l && a[m + 1 + |l|] == 0 && a[m + 2 + |l|..] == n
  {
    var tail := [0] + n;
    var behind := l + tail;
    var a, m := domain + (s + ([0] + behind)), |domain| + |s|;
    assert a[m + 1..] == behind;
    assert a[m + 1..m + 1 + |l|] == behind[..|l|];
    assert a[m + 1 + |l|..] == tail && a[m + 2 + |l|..] == tail[1..];
  }

  // ----- Sequence numbers as text -----

  /** `parse_sequence`: canonical decimal, at most twenty digits, in the range of a `u64`. */
  function ParseSequence(text: string): Option<u64> {
    if text == "" || |text| > 20 || (|text| > 1 && text[0] == '0') || !Digits(text) then None
    else
      var n := Number(text);
      if n < U64_LIMIT then Some(n) else None
  }

  lemma U64FitsTwentyDigits()
    ensures U64_LIMIT < Pow10(20)
  {
    assert Pow10(4) == 10000;
    assert Pow10(8) == 10000_0000;
    assert Pow10(12) == 10000_0000_0000;
    assert Pow10(16) == 10000_0000_0000_0000;
    assert Pow10(20) == 10000_0000_0000_0000_0000;
  }

  /** The parser accepts exactly the text that printing the number gives. */
  lemma ParseSequenceExact(text: string, n: u64)
    ensures ParseSequence(text) == Some(n) <==> text == Decimal(n)
  {
    DecimalRoundTrip(n);
    U64FitsTwentyDigits();
    DecimalLength(n, 20);
    if ParseSequence(text) == Some(n) { CanonicalIsPrinted(text); }
  }
}
