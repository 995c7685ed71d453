/** Base32 secrets: bit strings, the reference codec on them, the canonical form of `runtime_totp.rs`, and the
    alphabet.

    A text denotes the concatenation of its five-bit groups, and the bytes are the complete eight-bit groups of
    that string.
 */
module Base32 {
  import opened Bytes

  // ----- Bit strings -----

  type bits = seq<bool>

  /** The `k` low bits of `n`, most significant first. */
  function Bits(n: nat, k: nat): (b: bits)
    ensures |b| == k
  {
    if k == 0 then [] else Bits(n / 2, k - 1) + [n % 2 == 1]
  }

  function Num(b: bits): (n: nat)
    ensures n < Pow2(|b|)
  {
    if b == [] then 0 else 2 * Num(b[..|b| - 1]) + (if b[|b| - 1] then 1 else 0)
  }

  lemma {:induction false} NumBits(n: nat, k: nat)
    requires n < Pow2(k)
    ensures Num(Bits(n, k)) == n
    decreases k
  {
    if k == 0 {
    } else {
      NumBits(n / 2, k - 1);
      assert Bits(n, k)[..k - 1] == Bits(n / 2, k - 1);
    }
  }

  lemma {:induction false} BitsNum(b: bits)
    ensures Bits(Num(b), |b|) == b
    decreases |b|
  {
    if b == [] {
    } else {
      var front := b[..|b| - 1];
      BitsNum(front);
      assert Num(b) / 2 == Num(front) && (Num(b) % 2 == 1) == b[|b| - 1];
      assert b == front + [b[|b| - 1]];
    }
  }

  lemma {:induction false} NumConcat(a: bits, b: bits)
    ensures Num(a + b) == Num(a) * Pow2(|b|) + Num(b)
    decreases |b|
  {
    if b == [] {
      assert a + b == a;
    } else {
      var front, last := b[..|b| - 1], b[|b| - 1];
      assert (a + b)[..|a + b| - 1] == a + front && (a + b)[|a + b| - 1] == last;
      NumConcat(a, front);
      DoubleProduct(Num(a), Pow2(|front|));
      assert Num(a + b) == 2 * Num(a + front) + (if last then 1 else 0);
    }
  }

  lemma DoubleProduct(x: nat, p: nat)
    ensures x * (2 * p) == 2 * (x * p)
  {
  }

  /** Concatenated `k`-bit groups. */
  function Expand(xs: seq<nat>, k: nat): bits {
    if xs == [] then [] else Bits(xs[0], k) + Expand(xs[1..], k)
  }

  lemma {:induction false} ExpandLength(xs: seq<nat>)
    ensures |Expand(xs, 5)| == 5 * |xs|
  {
    if xs == [] {
    } else {
      ExpandLength(xs[1..]);
    }
  }

  /** The complete `k`-bit groups; an incomplete tail is dropped. */
  function Pack(b: bits, k: nat): (xs: seq<nat>)
    requires k > 0
    ensures forall i :: 0 <= i < |xs| ==> xs[i] < Pow2(k)
    decreases |b|
  {
    if |b| < k then [] else [Num(b[..k])] + Pack(b[k..], k)
  }

  lemma {:induction false} ExpandAppend(xs: seq<nat>, ys: seq<nat>, k: nat)
    ensures Expand(xs + ys, k) == Expand(xs, k) + Expand(ys, k)
    decreases |xs|
  {
    if xs == [] {
      assert xs + ys == ys;
      assert Expand(xs, k) + Expand(ys, k) == Expand(ys, k);
    } else {
      assert (xs + ys)[1..] == xs[1..] + ys;
      ExpandAppend(xs[1..], ys, k);
      assert Bits(xs[0], k) + (Expand(xs[1..], k) + Expand(ys, k)) == Expand(xs, k) + Expand(ys, k);
    }
  }

  lemma ExpandOne(x: nat, k: nat)
    ensures Expand([x], k) == Bits(x, k)
  {
    assert Bits(x, k) + [] == Bits(x, k);
  }

  lemma FirstGroup(g: bits, b: bits, tail: bits)
    ensures (g + b + tail)[..|g|] == g && (g + b + tail)[|g|..] == b + tail
  {
  }

  /** Packing reads back what was expanded, and ignores an incomplete group behind it. */
  lemma {:induction false} PackExpand(xs: seq<nat>, tail: bits, k: nat)
    requires k > 0 && |tail| < k && forall i :: 0 <= i < |xs| ==> xs[i] < Pow2(k)
    ensures Pack(Expand(xs, k) + tail, k) == xs
    decreases |xs|
  {
    if xs == [] {
      assert Expand(xs, k) + tail == tail;
    } else {
      FirstGroup(Bits(xs[0], k), Expand(xs[1..], k), tail);
      NumBits(xs[0], k);
      PackExpand(xs[1..], tail, k);
      assert xs == [xs[0]] + xs[1..];
    }
  }

  /** The length of the complete groups of an `n`-bit string. */
  function Whole(n: nat, k: nat): (w: nat)
    requires k > 0
    ensures w <= n
  {
    if n < k then 0 else k + Whole(n - k, k)
  }

  lemma {:induction false} WholeValue(n: nat)
    ensures Whole(n, 8) == n - n % 8
    decreases n
  {
    if n < 8 {
    } else {
      WholeValue(n - 8);
    }
  }

  /** Expanding reads back what was packed, up to the incomplete group. */
  lemma {:induction false} ExpandPack(b: bits, k: nat)
    requires k > 0
    ensures Expand(Pack(b, k), k) == b[..Whole(|b|, k)]
    decreases |b|
  {
    if |b| < k {
    } else {
      ExpandPack(b[k..], k);
      assert Pack(b, k)[1..] == Pack(b[k..], k);
      BitsNum(b[..k]);
      TakeAcross(b, k, Whole(|b|, k));
    }
  }

  lemma TakeAcross(b: bits, k: nat, n: nat)
    requires k <= n <= |b|
    ensures b[..k] + b[k..][..n - k] == b[..n]
  {
  }

  lemma ModUnique(x: nat, d: nat, q: nat, r: nat)
    requires d > 0 && x == d * q + r && r < d
    ensures x % d == r && x / d == q
  {
    MulGap(d, q, x / d);
    MulGap(d, x / d, q);
  }

  lemma MulGap(d: nat, a: nat, b: nat)
    ensures a < b ==> d * a + d <= d * b
  {
    if a < b { assert d * b == d * (a + 1) + d * (b - a - 1); }
  }

  function Zeros(n: nat): (z: bits)
    ensures |z| == n && forall i :: 0 <= i < n ==> !z[i]
  {
    seq(n, i => false)
  }

  // ----- The reference codec, on symbol values -----

  predicate Symbols(xs: seq<nat>) { forall i :: 0 <= i < |xs| ==> xs[i] < 32 }

  predicate Octets(xs: seq<nat>) { forall i :: 0 <= i < |xs| ==> xs[i] < 256 }

  lemma PowValues()
    ensures Pow2(5) == 32 && Pow2(8) == 256
  {
    assert Pow2(4) == 16;
  }

  function Decode(xs: seq<nat>): (b: seq<nat>)
    ensures Octets(b)
  {
    PowValues();
    Pack(Expand(xs, 5), 8)
  }

  /** Five-bit groups, the last one completed with zero bits. */
  function EncodeBits(b: bits): seq<nat> {
    if b == [] then []
    else if |b| < 5 then [Num(b + Zeros(5 - |b|))]
    else [Num(b[..5])] + EncodeBits(b[5..])
  }

  function Encode(b: seq<nat>): seq<nat> {
    EncodeBits(Expand(b, 8))
  }

  /** The groups carry the bit string, and fewer than five zero bits. */
  lemma {:induction false} EncodedBits(b: bits) returns (k: nat)
    ensures k < 5 && Expand(EncodeBits(b), 5) == b + Zeros(k)
    ensures Symbols(EncodeBits(b)) && 5 * |EncodeBits(b)| == |b| + k
    decreases |b|
  {
    PowValues();
    if b == [] {
      k := 0;
      assert b + Zeros(0) == [];
    } else if |b| < 5 {
      k := 5 - |b|;
      BitsNum(b + Zeros(k));
      ExpandOne(Num(b + Zeros(k)), 5);
    } else {
      k := EncodedBits(b[5..]);
      BitsNum(b[..5]);
      assert EncodeBits(b)[1..] == EncodeBits(b[5..]);
      Rejoin(b, Zeros(k), 5);
    }
  }

  lemma Rejoin(b: bits, z: bits, k: nat)
    requires k <= |b|
    ensures b[..k] + (b[k..] + z) == b + z
  {
  }

  /** Decoding undoes encoding, for every byte sequence. */
  lemma DecodeEncode(b: seq<nat>)
    requires Octets(b)
    ensures Symbols(Encode(b)) && Decode(Encode(b)) == b
  {
    PowValues();
    var k := EncodedBits(Expand(b, 8));
    PackExpand(b, Zeros(k), 8);
  }

  /** The groups of expanded symbols are the symbols. */
  lemma {:induction false} EncodeExpanded(xs: seq<nat>, p: bits)
    requires Symbols(xs) && |p| < 5
    ensures EncodeBits(Expand(xs, 5) + p) == if p == [] then xs else xs + [Num(p + Zeros(5 - |p|))]
    decreases |xs|
  {
    if xs == [] {
      assert Expand(xs, 5) + p == p;
    } else {
      PowValues();
      FirstGroup(Bits(xs[0], 5), Expand(xs[1..], 5), p);
      NumBits(xs[0], 5);
      EncodeExpanded(xs[1..], p);
      assert xs == [xs[0]] + xs[1..];
    }
  }

  /** `validate_runtime_totp_source`: how many bits of the last symbol carry no data. */
  function UnusedBits(n: nat): Option<nat> {
    match n % 8
    case 0 => Some(0)
    case 2 => Some(2)
    case 4 => Some(4)
    case 5 => Some(1)
    case 7 => Some(3)
    case _ => None
  }

  predicate Canonical(xs: seq<nat>) {
    && UnusedBits(|xs|).Some?
    && (xs == [] || xs[|xs| - 1] % Pow2(UnusedBits(|xs|).value) == 0)
  }

  lemma UnusedIsRemainder(n: nat)
    ensures UnusedBits(n) == if 5 * n % 8 < 5 then Some(5 * n % 8) else None
  {
  }

  ghost predicate ZeroFrom(b: bits, i: nat) {
    forall j :: i <= j < |b| ==> !b[j]
  }

  /** The low `r` bits of a group are zero exactly when the number is a multiple of 2^r. */
  lemma {:induction false} TrailingZeros(n: nat, k: nat, r: nat)
    requires r <= k
    ensures n % Pow2(r) == 0 <==> ZeroFrom(Bits(n, k), k - r)
    decreases r
  {
    if r == 0 {
    } else {
      TrailingZeros(n / 2, k - 1, r - 1);
      HalfMod(n, Pow2(r - 1));
      var b, c := Bits(n, k), Bits(n / 2, k - 1);
      assert b[k - 1] == (n % 2 == 1);
      assert forall j :: 0 <= j < k - 1 ==> b[j] == c[j];
    }
  }

  lemma HalfMod(n: nat, p: nat)
    requires p > 0
    ensures n % (2 * p) == 2 * ((n / 2) % p) + n % 2
  {
    var h := n / 2;
    var q, r := h / p, h % p;
    assert n == 2 * p * q + (2 * r + n % 2) by { assert h == p * q + r; }
    ModUnique(n, 2 * p, q, 2 * r + n % 2);
  }

  lemma {:induction false} ExpandLast(xs: seq<nat>, k: nat)
    requires xs != []
    ensures Expand(xs, k) == Expand(xs[..|xs| - 1], k) + Bits(xs[|xs| - 1], k)
  {
    var front, last := xs[..|xs| - 1], xs[|xs| - 1];
    assert xs == front + [last];
    ExpandAppend(front, [last], k);
    ExpandOne(last, k);
  }

  /** What re-encoding the decoded symbols sees: the complete bytes. */
  lemma Recoded(xs: seq<nat>)
    ensures var all := Expand(xs, 5); Encode(Decode(xs)) == EncodeBits(all[..Whole(|all|, 8)])
  {
    ExpandPack(Expand(xs, 5), 8);
  }

  /** A group loses its last `r` bits and gets zeros instead. */
  lemma LastSymbolKept(g: bits, r: nat)
    requires |g| == 5 && r < 5
    ensures Num(g[..5 - r] + Zeros(r)) == Num(g) <==> ZeroFrom(g, 5 - r)
  {
    var c := g[..5 - r] + Zeros(r);
    assert ZeroFrom(c, 5 - r);
    assert ZeroFrom(g, 5 - r) ==> g == c;
    BitsNum(g);
    BitsNum(c);
  }

  lemma TakeTail(a: bits, g: bits, r: nat)
    requires r <= |g|
    ensures (a + g)[..|a + g| - r] == a + g[..|g| - r]
  {
  }

  lemma ShortTail(front: seq<nat>, g: bits, r: nat)
    requires Symbols(front) && |g| == 5 && 0 < r < 5
    ensures var all := Expand(front, 5) + g;
            EncodeBits(all[..|all| - r]) == front + [Num(g)] <==> ZeroFrom(g, 5 - r)
  {
    EncodeTruncated(front, g, r);
    LastSymbolKept(g, r);
    SameLast(front, Num(g[..5 - r] + Zeros(r)), Num(g));
  }

  lemma SameLast(front: seq<nat>, x: nat, y: nat)
    ensures front + [x] == front + [y] <==> x == y
  {
    assert (front + [x])[|front|] == x && (front + [y])[|front|] == y;
  }

  lemma EncodeTruncated(front: seq<nat>, g: bits, r: nat)
    requires Symbols(front) && |g| == 5 && 0 < r < 5
    ensures var all := Expand(front, 5) + g;
            EncodeBits(all[..|all| - r]) == front + [Num(g[..5 - r] + Zeros(r))]
  {
    TakeTail(Expand(front, 5), g, r);
    EncodeShort(front, g[..5 - r], r);
  }

  lemma EncodeShort(front: seq<nat>, p: bits, r: nat)
    requires Symbols(front) && |p| == 5 - r && 0 < r < 5
    ensures EncodeBits(Expand(front, 5) + p) == front + [Num(p + Zeros(r))]
  {
    EncodeExpanded(front, p);
  }

  lemma CanonicalShort(xs: seq<nat>, r: nat)
    requires Symbols(xs) && xs != [] && 0 < r < 5
    ensures var all := Expand(xs, 5);
            |all| >= r && (EncodeBits(all[..|all| - r]) == xs <==> xs[|xs| - 1] % Pow2(r) == 0)
  {
    var front, x := xs[..|xs| - 1], xs[|xs| - 1];
    ExpandLast(xs, 5);
    assert xs == front + [x];
    PowValues();
    NumBits(x, 5);
    TrailingZeros(x, 5, r);
    ShortTail(front, Bits(x, 5), r);
  }

  /** A symbol sequence passes the length and unused-bit check exactly when encoding its decoding
      gives it back: the canonical encodings of section 3.5 of RFC 4648. */
  lemma CanonicalExactly(xs: seq<nat>)
    requires Symbols(xs)
    ensures Canonical(xs) <==> Encode(Decode(xs)) == xs
  {
    var all := Expand(xs, 5);
    var r := |all| - Whole(|all|, 8);
    WholeValue(|all|);
    UnusedIsRemainder(|xs|);
    ExpandLength(xs);
    Recoded(xs);
    if r == 0 {
      EncodeExpanded(xs, []);
      assert all[..|all|] == Expand(xs, 5) + [];
    } else if r < 5 {
      CanonicalShort(xs, r);
    } else {
      var k := EncodedBits(all[..|all| - r]);
    }
  }

  // ----- Text -----

  /** The position of a character in the alphabet. */
  function Index(c: char): (r: Option<nat>)
    ensures r.Some? ==> r.value < 32
  {
    if 'A' <= c <= 'Z' then Some((c - 'A') as nat)
    else if '2' <= c <= '7' then Some((c - '2') as nat + 26)
    else None
  }

  function Symbol(x: nat): (c: char)
    requires x < 32
    ensures Index(c) == Some(x)
  {
    if x < 26 then 'A' + x as char else '2' + (x - 26) as char
  }

  const ALPHABET := "ABCDEFGHIJKLMNOPQRSTUVWXYZ234567"

  /** The symbols are the characters of the alphabet, by position. */
  lemma AlphabetExactly(c: char, x: nat)
    ensures Index(c) == Some(x) <==> x < |ALPHABET| && ALPHABET[x] == c
  {
    assert |ALPHABET| == 32;
    assert forall i: nat :: i < 26 ==> ALPHABET[i] == 'A' + i as char;
    assert forall i: nat :: 26 <= i < 32 ==> ALPHABET[i] == '2' + (i - 26) as char;
  }

  predicate InAlphabet(s: string) { forall i :: 0 <= i < |s| ==> Index(s[i]).Some? }

  function Values(s: string): (xs: seq<nat>)
    requires InAlphabet(s)
    ensures |xs| == |s| && Symbols(xs)
    ensures forall i :: 0 <= i < |s| ==> Some(xs[i]) == Index(s[i])
  {
    seq(|s|, i requires 0 <= i < |s| => Index(s[i]).value)
  }

  function Text(xs: seq<nat>): (s: string)
    requires Symbols(xs)
    ensures InAlphabet(s) && |s| == |xs| && Values(s) == xs
  {
    var s := seq(|xs|, i requires 0 <= i < |xs| => Symbol(xs[i]));
    assert forall i :: 0 <= i < |xs| ==> Index(s[i]) == Some(xs[i]);
    s
  }

  /** The text spells these symbol values. */
  ghost predicate Spells(s: string, xs: seq<nat>) {
    |s| == |xs| && forall i :: 0 <= i < |s| ==> Index(s[i]) == Some(xs[i])
  }

  lemma SpelledText(s: string, xs: seq<nat>)
    requires Symbols(xs) && Spells(s, xs)
    ensures s == Text(xs)
  {
    assert forall i :: 0 <= i < |s| ==> Index(Text(xs)[i]) == Index(s[i]);
    SameIndices(s, Text(xs));
  }

  lemma SameIndices(s: string, t: string)
    requires |s| == |t| && InAlphabet(s) && forall i :: 0 <= i < |s| ==> Index(s[i]) == Index(t[i])
    ensures s == t
  {
    forall i | 0 <= i < |s| ensures s[i] == t[i] { SameIndex(s[i], t[i]); }
  }

  lemma SameIndex(c: char, d: char)
    requires Index(c).Some? && Index(c) == Index(d)
    ensures c == d
  {
  }

  lemma TextOfValues(s: string)
    requires InAlphabet(s)
    ensures Text(Values(s)) == s
  {
    SpelledText(s, Values(s));
  }

  /** `input.replace(/[\s=]/g, '').toUpperCase()`, for any case mapping. */
  function Clean(input: string, upper: char -> string): string {
    if input == "" then ""
    else if IsSpace(input[0]) || input[0] == '=' then Clean(input[1..], upper)
    else upper(input[0]) + Clean(input[1..], upper)
  }

  lemma {:induction false} CleanKeepsAlphabet(s: string, upper: char -> string)
    requires InAlphabet(s) && forall c: char :: Index(c).Some? ==> upper(c) == [c]
    ensures Clean(s, upper) == s
    decreases |s|
  {
    if s == "" {
    } else {
      CleanKeepsAlphabet(s[1..], upper);
      assert Index(s[0]).Some?;
      assert s == [s[0]] + s[1..];
    }
  }
}
