/** The Base32 coders of `src/credential/totp.ts`, of the runtime and of the contract gate, proved against the
    reference codec: a 32-bit accumulator that wraps, and one that is masked.
 */
module Base32Coders {
  import opened Bytes
  import opened Base32

  // ----- The 32-bit accumulator -----

  const WORD := 0x1_0000_0000

  type word = n: nat | n < WORD

  /** The low bits of the accumulator are the bits still to be written. */
  ghost predicate Holds(v: word, p: bits) {
    v % Pow2(|p|) == Num(p)
  }

  lemma {:induction false} Pow2Sum(a: nat, b: nat)
    ensures Pow2(a + b) == Pow2(a) * Pow2(b)
    decreases a
  {
    if a == 0 {
    } else {
      Pow2Sum(a - 1, b);
    }
  }

  lemma ModOfMod(y: nat, d: nat, c: nat)
    requires d > 0 && c > 0 && d * c > 0
    ensures (y % (d * c)) % d == y % d
  {
    var u, t := y % (d * c), y / (d * c);
    Distribute(d, c, t, u / d);
    ModUnique(y, d, c * t + u / d, u % d);
  }

  lemma Distribute(d: nat, c: nat, t: nat, q: nat)
    ensures d * (c * t + q) == (d * c) * t + d * q
  {
  }

  lemma ScaledMod(v: nat, p: nat, k: nat)
    requires p > 0 && k > 0 && p * k > 0
    ensures (v * k) % (p * k) == (v % p) * k && (v % p) * k + k <= p * k
  {
    var q, m := v / p, v % p;
    assert v * k == (p * k) * q + m * k by { assert v == p * q + m; assert (p * q) * k == (p * k) * q; }
    assert m * k + k <= p * k by { MulGap(k, m, p); }
    ModUnique(v * k, p * k, q, m * k);
  }

  lemma AddBelow(u: nat, d: nat, m: nat, x: nat)
    requires d > 0 && u % d == m && m + x < d
    ensures (u + x) % d == m + x
  {
    ModUnique(u + x, d, u / d, m + x);
  }

  /** `(v << k) | x` with 32-bit wrap-around. */
  function ShiftIn(v: word, k: nat, x: nat): (r: word)
    requires (k == 5 && x < 32) || (k == 8 && x < 256)
  {
    PowValues();
    assert (v * Pow2(k)) % WORD + x < WORD;
    (v * Pow2(k)) % WORD + x
  }

  /** Bits lost to the wrap-around are bits that were written before. */
  lemma ShiftInHolds(v: word, p: bits, k: nat, x: nat)
    requires Holds(v, p) && |p| <= 8 && ((k == 5 && x < 32) || (k == 8 && x < 256))
    ensures Holds(ShiftIn(v, k, x), p + Bits(x, k))
  {
    PowValues();
    Pow2Sum(|p|, k);
    WordSplits(|p| + k);
    ShiftArithmetic(v, Pow2(|p|), Pow2(k), Pow2(32 - |p| - k), x);
    NumConcat(p, Bits(x, k));
    NumBits(x, k);
  }

  lemma WordSplits(n: nat)
    requires n <= 32
    ensures Pow2(n) * Pow2(32 - n) == WORD
  {
    PowValues();
    Pow2Sum(8, 8);
    Pow2Sum(16, 16);
    Pow2Sum(n, 32 - n);
  }

  lemma ShiftArithmetic(v: nat, P: nat, K: nat, c: nat, x: nat)
    requires P > 0 && c > 0 && x < K && P * K > 0 && (P * K) * c == WORD
    ensures ((v * K) % WORD + x) % (P * K) == (v % P) * K + x
  {
    ModOfMod(v * K, P * K, c);
    ScaledMod(v, P, K);
    AddBelow((v * K) % WORD, P * K, (v % P) * K, x);
  }

  /** `(v >>> b) & (2^k - 1)` */
  function ShiftOut(v: word, b: nat, k: nat): (x: nat)
    ensures x < Pow2(k)
  {
    (v / Pow2(b)) % Pow2(k)
  }

  /** `(v << (5 - b)) & 31` */
  function ShiftLast(v: word, b: nat): (x: nat)
    requires 0 < b < 5
    ensures x < 32
  {
    (v * Pow2(5 - b)) % WORD % 32
  }

  lemma SplitMod(v: nat, B: nat, K: nat, h: nat, l: nat)
    requires B > 0 && K > 0 && B * K > 0 && v % (B * K) == h * B + l && l < B && h < K
    ensures (v / B) % K == h && v % B == l
  {
    var q := v / (B * K);
    Distribute(B, K, q, h);
    ModUnique(v, B, K * q + h, l);
    ModUnique(K * q + h, K, q, h);
  }

  /** The next group is read off above the remaining bits. */
  lemma ShiftOutHolds(v: word, p: bits, b: nat, k: nat)
    requires Holds(v, p) && |p| == b + k
    ensures ShiftOut(v, b, k) == Num(p[..k]) && Holds(v, p[k..])
  {
    Pow2Sum(b, k);
    NumConcat(p[..k], p[k..]);
    assert p == p[..k] + p[k..];
    SplitMod(v, Pow2(b), Pow2(k), Num(p[..k]), Num(p[k..]));
  }

  lemma PowStep(n: nat)
    requires n <= 4
    ensures Pow2(n) * Pow2(5 - n) == 32
  {
    PowValues();
    Pow2Sum(n, 5 - n);
  }

  // ----- The algorithms -----

  /** A complete group moves from the pending bits to the output. */
  lemma GroupMoves(all: bits, out: seq<nat>, p: bits, k: nat)
    requires k <= |p| && all == Expand(out, k) + p
    ensures all == Expand(out + [Num(p[..k])], k) + p[k..]
  {
    var x := Num(p[..k]);
    ExpandAppend(out, [x], k);
    ExpandOne(x, k);
    BitsNum(p[..k]);
    assert p == p[..k] + p[k..];
    assert Expand(out, k) + (p[..k] + p[k..]) == Expand(out, k) + p[..k] + p[k..];
  }

  lemma ExpandNext(xs: seq<nat>, i: nat, k: nat, out: bits, p: bits)
    requires i < |xs| && Expand(xs[..i], k) == out + p
    ensures Expand(xs[..i + 1], k) == out + (p + Bits(xs[i], k))
  {
    assert xs[..i + 1] == xs[..i] + [xs[i]];
    ExpandAppend(xs[..i], [xs[i]], k);
    ExpandOne(xs[i], k);
  }

  lemma SymbolArrives(text: string, i: nat, out: bits, p: bits)
    requires i < |text| && InAlphabet(text[..i]) && Index(text[i]).Some?
    requires Expand(Values(text[..i]), 5) == out + p
    ensures InAlphabet(text[..i + 1])
    ensures Expand(Values(text[..i + 1]), 5) == out + (p + Bits(Index(text[i]).value, 5))
  {
    assert text[..i + 1][i] == text[i];
    var xs := Values(text[..i + 1]);
    assert xs[..i] == Values(text[..i]) && xs[..i + 1] == xs;
    ExpandNext(xs, i, 5, out, p);
  }

  /** `base32Decode` after cleaning; an invalid character is an error. */
  method DecodeText(text: string) returns (r: Option<seq<nat>>)
    ensures r == if InAlphabet(text) then Some(Decode(Values(text))) else None
  {
    PowValues();
    var bytes: seq<nat> := [];
    var bits := 0;
    var value: word := 0;
    ghost var pending: bits := [];
    for i := 0 to |text|
      invariant InAlphabet(text[..i]) && Octets(bytes)
      invariant 0 <= bits < 8 && |pending| == bits && Holds(value, pending)
      invariant Expand(Values(text[..i]), 5) == Expand(bytes, 8) + pending
    {
      var index := Index(text[i]);
      if index.None? { return None; }
      SymbolArrives(text, i, Expand(bytes, 8), pending);
      ghost var all := Expand(Values(text[..i + 1]), 5);
      ShiftInHolds(value, pending, 5, index.value);
      pending := pending + Bits(index.value, 5);
      value := ShiftIn(value, 5, index.value);
      bits := bits + 5;
      if bits >= 8 {
        bits := bits - 8;
        ShiftOutHolds(value, pending, bits, 8);
        GroupMoves(all, bytes, pending, 8);
        bytes := bytes + [ShiftOut(value, bits, 8)];
        pending := pending[8..];
      }
    }
    assert text[..|text|] == text;
    PackExpand(bytes, pending, 8);
    return Some(bytes);
  }

  /** The .NET decoder keeps only the pending bits in its accumulator. */
  method DecodeMasked(text: string) returns (r: Option<seq<nat>>)
    ensures r == if InAlphabet(text) then Some(Decode(Values(text))) else None
  {
    PowValues();
    var output: seq<nat> := [];
    var buffer := 0;
    var bits := 0;
    ghost var pending: bits := [];
    for i := 0 to |text|
      invariant InAlphabet(text[..i]) && Octets(output)
      invariant 0 <= bits < 8 && |pending| == bits && buffer == Num(pending)
      invariant Expand(Values(text[..i]), 5) == Expand(output, 8) + pending
    {
      var index := Index(text[i]);
      if index.None? { return None; }
      SymbolArrives(text, i, Expand(output, 8), pending);
      ghost var all := Expand(Values(text[..i + 1]), 5);
      NumConcat(pending, Bits(index.value, 5));
      NumBits(index.value, 5);
      pending := pending + Bits(index.value, 5);
      buffer := buffer * 32 + index.value;
      bits := bits + 5;
      if bits >= 8 {
        bits := bits - 8;
        MaskedGroup(buffer, pending, bits);
        GroupMoves(all, output, pending, 8);
        output := output + [(buffer / Pow2(bits)) % 256];
        buffer := buffer % Pow2(bits);
        pending := pending[8..];
      }
    }
    assert text[..|text|] == text;
    PackExpand(output, pending, 8);
    return Some(output);
  }

  lemma MaskedGroup(buffer: nat, p: bits, b: nat)
    requires buffer == Num(p) && |p| == b + 8 && b < 8
    ensures (buffer / Pow2(b)) % 256 == Num(p[..8]) && buffer % Pow2(b) == Num(p[8..])
  {
    PowValues();
    Pow2Sum(b, 8);
    NumConcat(p[..8], p[8..]);
    assert p == p[..8] + p[8..];
    ModUnique(buffer, Pow2(|p|), 0, buffer);
    SplitMod(buffer, Pow2(b), 256, Num(p[..8]), Num(p[8..]));
  }

  /** `base32Encode` */
  method EncodeBytes(bytes: seq<nat>) returns (s: string)
    requires Octets(bytes)
    ensures Symbols(Encode(bytes)) && s == Text(Encode(bytes))
  {
    PowValues();
    var bits := 0;
    var value: word := 0;
    ghost var pending: bits := [];
    ghost var out: seq<nat> := [];
    s := "";
    for i := 0 to |bytes|
      invariant Symbols(out) && Spells(s, out)
      invariant 0 <= bits < 5 && |pending| == bits && Holds(value, pending)
      invariant Expand(bytes[..i], 8) == Expand(out, 5) + pending
    {
      ByteArrives(bytes, i, Expand(out, 5), pending, value);
      pending := pending + Bits(bytes[i], 8);
      value := ShiftIn(value, 8, bytes[i]);
      bits := bits + 8;
      while bits >= 5
        invariant 0 <= bits && |pending| == bits && Holds(value, pending)
        invariant Symbols(out) && Spells(s, out)
        invariant Expand(bytes[..i + 1], 8) == Expand(out, 5) + pending
      {
        bits := bits - 5;
        var x := ShiftOut(value, bits, 5);
        GroupWritten(Expand(bytes[..i + 1], 8), out, pending, value, bits);
        SpellsNext(s, out, x);
        s := s + [Symbol(x)];
        out := out + [x];
        pending := pending[5..];
      }
    }
    assert bytes[..|bytes|] == bytes;
    EncodeExpanded(out, pending);
    if bits > 0 {
      LastSymbol(value, pending);
      var x := ShiftLast(value, bits);
      SpellsNext(s, out, x);
      s := s + [Symbol(x)];
      out := out + [x];
    }
    assert Encode(bytes) == out;
    SpelledText(s, out);
  }

  lemma ByteArrives(bytes: seq<nat>, i: nat, out: bits, p: bits, v: word)
    requires Octets(bytes) && i < |bytes| && |p| < 5 && Holds(v, p) && Expand(bytes[..i], 8) == out + p
    ensures Holds(ShiftIn(v, 8, bytes[i]), p + Bits(bytes[i], 8))
    ensures Expand(bytes[..i + 1], 8) == out + (p + Bits(bytes[i], 8))
  {
    ExpandNext(bytes, i, 8, out, p);
    ShiftInHolds(v, p, 8, bytes[i]);
  }

  lemma SpellsNext(s: string, out: seq<nat>, x: nat)
    requires Symbols(out) && Spells(s, out) && x < 32
    ensures Symbols(out + [x]) && Spells(s + [Symbol(x)], out + [x])
  {
  }

  lemma GroupWritten(all: bits, out: seq<nat>, p: bits, v: word, b: nat)
    requires |p| == b + 5 && Holds(v, p) && all == Expand(out, 5) + p
    ensures ShiftOut(v, b, 5) < 32 && Holds(v, p[5..])
    ensures all == Expand(out + [ShiftOut(v, b, 5)], 5) + p[5..]
  {
    PowValues();
    ShiftOutHolds(v, p, b, 5);
    GroupMoves(all, out, p, 5);
  }

  lemma LastSymbol(v: word, p: bits)
    requires Holds(v, p) && 0 < |p| < 5
    ensures ShiftLast(v, |p|) == Num(p + Zeros(5 - |p|))
  {
    PowStep(|p|);
    LastArithmetic(v, Pow2(|p|), Pow2(5 - |p|));
    NumConcat(p, Zeros(5 - |p|));
    NumZeros(5 - |p|);
  }

  lemma LastArithmetic(v: nat, P: nat, K: nat)
    requires P > 0 && K > 0 && P * K == 32
    ensures (v * K) % WORD % 32 == (v % P) * K
  {
    ModOfMod(v * K, 32, WORD / 32);
    ScaledMod(v, P, K);
  }

  lemma {:induction false} NumZeros(n: nat)
    ensures Num(Zeros(n)) == 0
  {
    if n == 0 {
    } else {
      assert Zeros(n)[..n - 1] == Zeros(n - 1);
      NumZeros(n - 1);
    }
  }

  /** The secret check of `validate_runtime_totp_source`. */
  method ValidateSecret(secret: string) returns (ok: bool)
    ensures ok <==> 26 <= |secret| <= 1024 && InAlphabet(secret) && Canonical(Values(secret))
  {
    if |secret| < 26 || |secret| > 1024 { return false; }
    var unused := UnusedBits(|secret|);
    if unused.None? { return false; }
    var last := 0;
    for i := 0 to |secret|
      invariant InAlphabet(secret[..i])
      invariant i > 0 ==> Index(secret[i - 1]) == Some(last)
    {
      var index := Index(secret[i]);
      if index.None? { return false; }
      last := index.value;
      assert secret[..i + 1] == secret[..i] + [secret[i]];
    }
    assert secret[..|secret|] == secret;
    assert Values(secret)[|secret| - 1] == last;
    ok := last % Pow2(unused.value) == 0;
  }

  /** A secret is accepted exactly when it is the encoding of its own decoding. */
  lemma AcceptedSecretsAreEncodings(secret: string)
    requires InAlphabet(secret)
    ensures var b := Decode(Values(secret));
            Symbols(Encode(b)) && (Canonical(Values(secret)) <==> Text(Encode(b)) == secret)
  {
    CanonicalExactly(Values(secret));
    DecodeEncode(Decode(Values(secret)));
    TextOfValues(secret);
  }

  /** Every byte sequence survives encoding to text, cleaning and decoding. */
  lemma TextRoundTrip(b: seq<nat>, upper: char -> string)
    requires Octets(b) && forall c: char :: Index(c).Some? ==> upper(c) == [c]
    ensures Symbols(Encode(b))
    ensures var s := Clean(Text(Encode(b)), upper); InAlphabet(s) && Decode(Values(s)) == b
  {
    DecodeEncode(b);
    CleanKeepsAlphabet(Text(Encode(b)), upper);
  }

  // ----- The two ways to clean an input -----

  const NEXT_LINE := '\U{0085}'

  /** What `Trim` drops: the spaces of the expression class, less the byte order mark, plus next line. */
  predicate IsWhiteSpace(c: char) { (IsSpace(c) && c != '\U{FEFF}') || c == NEXT_LINE }

  function TrimStart(s: string, drop: char -> bool): string {
    if s != "" && drop(s[0]) then TrimStart(s[1..], drop) else s
  }

  function TrimEnd(s: string, drop: char -> bool): string {
    if s != "" && drop(s[|s| - 1]) then TrimEnd(s[..|s| - 1], drop) else s
  }

  function MapText(s: string, up: char -> char): (t: string)
    ensures |t| == |s| && forall i :: 0 <= i < |s| ==> t[i] == up(s[i])
  {
    seq(|s|, i requires 0 <= i < |s| => up(s[i]))
  }

  /** `input.Trim().TrimEnd('=').ToUpperInvariant()` */
  function Normalise(input: string, up: char -> char): string {
    MapText(TrimEnd(TrimEnd(TrimStart(input, IsWhiteSpace), IsWhiteSpace), c => c == '='), up)
  }

  /** `Base32` of `SemanticVectors.cs`, on any input. */
  method DecodeNormalised(input: string, up: char -> char) returns (r: Option<seq<nat>>)
    ensures var s := Normalise(input, up); r == if InAlphabet(s) then Some(Decode(Values(s))) else None
  {
    r := DecodeMasked(Normalise(input, up));
  }

  lemma {:induction false} CleanJoin(a: string, b: string, upper: char -> string)
    ensures Clean(a + b, upper) == Clean(a, upper) + Clean(b, upper)
    decreases |a|
  {
    if a == "" {
      assert a + b == b;
    } else {
      assert (a + b)[1..] == a[1..] + b && (a + b)[0] == a[0];
      CleanJoin(a[1..], b, upper);
      Associates(upper(a[0]), Clean(a[1..], upper), Clean(b, upper));
    }
  }

  /** Characters that cleaning drops can be trimmed first. */
  lemma {:induction false} CleanTrimStart(s: string, drop: char -> bool, upper: char -> string)
    requires forall i :: 0 <= i < |s| && drop(s[i]) ==> IsSpace(s[i]) || s[i] == '='
    ensures Clean(TrimStart(s, drop), upper) == Clean(s, upper)
    ensures |TrimStart(s, drop)| <= |s| && TrimStart(s, drop) == s[|s| - |TrimStart(s, drop)|..]
    decreases |s|
  {
    if s == "" || !drop(s[0]) {
    } else {
      CleanTrimStart(s[1..], drop, upper);
    }
  }

  lemma {:induction false} CleanTrimEnd(s: string, drop: char -> bool, upper: char -> string)
    requires forall i :: 0 <= i < |s| && drop(s[i]) ==> IsSpace(s[i]) || s[i] == '='
    ensures Clean(TrimEnd(s, drop), upper) == Clean(s, upper)
    ensures TrimEnd(s, drop) <= s
    decreases |s|
  {
    if s == "" || !drop(s[|s| - 1]) {
    } else {
      var front, last := s[..|s| - 1], s[|s| - 1];
      CleanTrimEnd(front, drop, upper);
      CleanJoin(front, [last], upper);
      assert s == front + [last] && [last][1..] == "";
    }
  }

  lemma {:induction false} CleanMapped(s: string, up: char -> char, upper: char -> string)
    requires forall i :: 0 <= i < |s| ==> upper(s[i]) == [up(s[i])] && !IsSpace(s[i]) && s[i] != '='
    ensures Clean(s, upper) == MapText(s, up)
    decreases |s|
  {
    if s == "" {
    } else {
      CleanMapped(s[1..], up, upper);
      assert MapText(s, up) == [up(s[0])] + MapText(s[1..], up);
    }
  }

  lemma {:induction false} CleanKeepsNextLine(s: string, upper: char -> string)
    requires NEXT_LINE in s && upper(NEXT_LINE) == [NEXT_LINE]
    ensures NEXT_LINE in Clean(s, upper)
    decreases |s|
  {
    if s[0] == NEXT_LINE {
    } else {
      CleanKeepsNextLine(s[1..], upper);
    }
  }

  /** The two upper-casings agree where the .NET one gives a letter of the alphabet, and neither makes one
      out of a space or a padding character. */
  ghost predicate CasesAgree(up: char -> char, upper: char -> string) {
    && upper(NEXT_LINE) == [NEXT_LINE]
    && forall c: char :: Index(up(c)).Some? ==> upper(c) == [up(c)] && !IsSpace(c) && c != '='
  }

  /** Whatever the .NET decoder accepts, the other one accepts, with the same bytes, exactly when the
      input holds no next-line character, which only .NET trims. */
  lemma DecodersAgreeExactly(input: string, up: char -> char, upper: char -> string)
    requires CasesAgree(up, upper) && InAlphabet(Normalise(input, up))
    ensures InAlphabet(Clean(input, upper)) <==> NEXT_LINE !in input
    ensures NEXT_LINE !in input ==> Clean(input, upper) == Normalise(input, up)
  {
    if NEXT_LINE in input {
      CleanKeepsNextLine(input, upper);
      assert Index(NEXT_LINE).None?;
    } else {
      var a := TrimStart(input, IsWhiteSpace);
      CleanTrimStart(input, IsWhiteSpace, upper);
      var b := TrimEnd(a, IsWhiteSpace);
      assert forall i :: 0 <= i < |a| ==> a[i] in input;
      CleanTrimEnd(a, IsWhiteSpace, upper);
      var d := TrimEnd(b, c => c == '=');
      CleanTrimEnd(b, c => c == '=', upper);
      assert forall i :: 0 <= i < |d| ==> Index(Normalise(input, up)[i]).Some?;
      CleanMapped(d, up, upper);
    }
  }

  /** A next-line character behind a secret: .NET decodes the secret, the other decoder refuses. */
  lemma NextLineTellsDecodersApart(secret: string, up: char -> char, upper: char -> string)
    requires CasesAgree(up, upper) && InAlphabet(secret) && secret != ""
    requires forall c: char :: Index(c).Some? ==> up(c) == c
    ensures Normalise(secret + [NEXT_LINE], up) == secret
    ensures !InAlphabet(Clean(secret + [NEXT_LINE], upper))
  {
    var input := secret + [NEXT_LINE];
    assert Index(secret[0]).Some? && Index(secret[|secret| - 1]).Some?;
    assert input[0] == secret[0] && input[..|input| - 1] == secret;
    assert TrimStart(input, IsWhiteSpace) == input;
    assert TrimEnd(input, IsWhiteSpace) == secret;
    assert MapText(secret, up) == secret;
    DecodersAgreeExactly(input, up, upper);
  }
}
