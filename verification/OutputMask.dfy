/** The streaming output mask of `src/exec/run-exec.ts` (`makeMask`).

    Text is a sequence of already decoded characters.  `Mask` and `Redact` describe the redaction
    of one whole text; `Feed` describes what the chunked transform emits and what it holds back.
 */
module OutputMask {
  import opened Bytes

  const STARS := "***"

  // ----- Whole-text redaction -----

  ghost predicate OccursAt(w: string, x: string, i: int) {
    0 <= i && i + |w| <= |x| && x[i..i + |w|] == w
  }

  ghost predicate Contains(x: string, w: string) {
    exists i :: OccursAt(w, x, i)
  }

  /** `text.split(secret).join('***')`: leftmost, non-overlapping replacement. */
  function Mask(x: string, s: string): string
    requires s != ""
    decreases |x|
  {
    if |x| < |s| then x
    else if s <= x then STARS + Mask(x[|s|..], s)
    else [x[0]] + Mask(x[1..], s)
  }

  predicate NonEmpty(secrets: seq<string>) {
    forall i :: 0 <= i < |secrets| ==> secrets[i] != ""
  }

  /** The secrets are masked one after the other, each over the result of the previous one. */
  function Redact(x: string, secrets: seq<string>): string
    requires NonEmpty(secrets)
    decreases |secrets|
  {
    if secrets == [] then x else Redact(Mask(x, secrets[0]), secrets[1..])
  }

  // ----- The tail that is held back -----

  /** The last `k` characters of `text` are a strict prefix of `s`. */
  predicate Grows(text: string, s: string, k: nat) {
    k < |s| && k <= |text| && text[|text| - k..] == s[..k]
  }

  predicate CanGrow(text: string, secrets: seq<string>, k: nat) {
    exists j :: 0 <= j < |secrets| && Grows(text, secrets[j], k)
  }

  function HeldFrom(text: string, secrets: seq<string>, k: nat): (r: nat)
    requires k <= |text|
    ensures r <= k
    ensures r == 0 || CanGrow(text, secrets, r)
    ensures forall m :: r < m <= k ==> !CanGrow(text, secrets, m)
  {
    if k == 0 || CanGrow(text, secrets, k) then k else HeldFrom(text, secrets, k - 1)
  }

  /** The longest suffix of `text` that a later chunk could complete to a secret. */
  function Held(text: string, secrets: seq<string>): (r: nat)
    ensures r <= |text|
    ensures r == 0 || CanGrow(text, secrets, r)
    ensures forall m :: r < m <= |text| ==> !CanGrow(text, secrets, m)
  {
    HeldFrom(text, secrets, |text|)
  }

  lemma HeldUnique(text: string, secrets: seq<string>, k: nat)
    requires k <= |text|
    requires k == 0 || CanGrow(text, secrets, k)
    requires forall m :: k < m <= |text| ==> !CanGrow(text, secrets, m)
    ensures Held(text, secrets) == k
  {
  }

  lemma CanGrowExtend(text: string, secrets: seq<string>, i: nat)
    requires i < |secrets|
    ensures forall m: nat {:trigger CanGrow(text, secrets[..i + 1], m)} ::
              CanGrow(text, secrets[..i + 1], m) ==> CanGrow(text, secrets[..i], m) || Grows(text, secrets[i], m)
    ensures forall m: nat {:trigger CanGrow(text, secrets, m)} ::
              Grows(text, secrets[i], m) ==> CanGrow(text, secrets, m)
  {
    forall m: nat | CanGrow(text, secrets[..i + 1], m) && !Grows(text, secrets[i], m)
      ensures CanGrow(text, secrets[..i], m)
    {
      var j :| 0 <= j < i + 1 && Grows(text, secrets[..i + 1][j], m);
      assert secrets[..i][j] == secrets[j];
    }
  }

  // ----- The chunked transform -----

  /** What has been emitted, and what is carried into the next chunk. */
  datatype Progress = Progress(emitted: string, carry: string)

  /** What one chunk lets through, and the tail it holds back. */
  function Cut(carry: string, chunk: string, secrets: seq<string>): (string, string)
    requires NonEmpty(secrets)
  {
    var redacted := Redact(carry + chunk, secrets);
    var cut := |redacted| - Held(redacted, secrets);
    (redacted[..cut], redacted[cut..])
  }

  function Step(p: Progress, chunk: string, secrets: seq<string>): Progress
    requires NonEmpty(secrets)
  {
    var (out, held) := Cut(p.carry, chunk, secrets);
    Progress(p.emitted + out, held)
  }

  function Feed(chunks: seq<string>, secrets: seq<string>): Progress
    requires NonEmpty(secrets)
  {
    if chunks == [] then Progress("", "")
    else Step(Feed(chunks[..|chunks| - 1], secrets), chunks[|chunks| - 1], secrets)
  }

  /** Everything a reader of the stream sees, the flush included. */
  function Output(chunks: seq<string>, secrets: seq<string>): string
    requires NonEmpty(secrets)
  {
    var p := Feed(chunks, secrets);
    p.emitted + Redact(p.carry, secrets)
  }

  lemma FeedNext(chunks: seq<string>, chunk: string, secrets: seq<string>)
    requires NonEmpty(secrets)
    ensures Feed(chunks + [chunk], secrets) == Step(Feed(chunks, secrets), chunk, secrets)
  {
    assert (chunks + [chunk])[..|chunks|] == chunks;
  }

  function Concat(chunks: seq<string>): string {
    if chunks == [] then "" else Concat(chunks[..|chunks| - 1]) + chunks[|chunks| - 1]
  }

  /** The transform object that `makeMask` builds. */
  class Masker {
    const secrets: seq<string>
    var carry: string
    ghost var chunks: seq<string>
    ghost var emitted: string

    ghost predicate Valid()
      reads this
    {
      NonEmpty(secrets) && Feed(chunks, secrets) == Progress(emitted, carry)
    }

    constructor (secrets: seq<string>)
      requires NonEmpty(secrets)
      ensures Valid() && this.secrets == secrets && chunks == [] && emitted == ""
    {
      this.secrets := secrets;
      carry, chunks, emitted := "", [], "";
    }

    method RedactText(text: string) returns (out: string)
      requires NonEmpty(secrets)
      ensures out == Redact(text, secrets)
    {
      out := text;
      for i := 0 to |secrets|
        invariant Redact(out, secrets[i..]) == Redact(text, secrets)
      {
        assert secrets[i..][1..] == secrets[i + 1..];
        out := Mask(out, secrets[i]);
      }
    }

    method HeldBackLength(text: string) returns (max: nat)
      ensures max == Held(text, secrets)
    {
      max := 0;
      for i := 0 to |secrets|
        invariant max <= |text|
        invariant max == 0 || CanGrow(text, secrets, max)
        invariant forall m :: max < m <= |text| ==> !CanGrow(text, secrets[..i], m)
      {
        var secret := secrets[i];
        var limit := if |secret| - 1 < |text| then |secret| - 1 else |text|;
        var k := limit;
        ghost var before := max;
        while k > max
          invariant max == before
          invariant 0 <= k <= limit || k == limit == -1
          invariant forall m: nat :: k < m ==> !Grows(text, secret, m)
          decreases k
        {
          if text[|text| - k..] <= secret {
            assert Grows(text, secret, k);
            max := k;
            break;
          }
          k := k - 1;
        }
        CanGrowExtend(text, secrets, i);
      }
      assert secrets[..|secrets|] == secrets;
      HeldUnique(text, secrets, max);
    }

    method Transform(chunk: string) returns (out: string)
      requires Valid()
      modifies this
      ensures Valid()
      ensures chunks == old(chunks) + [chunk]
      ensures emitted == old(emitted) + out
    {
      ghost var was := Progress(emitted, carry);
      FeedNext(chunks, chunk, secrets);
      if |secrets| == 0 {
        PassThrough(chunks);
        StepWithoutSecrets(was, chunk);
        out := chunk;
      } else {
        var redacted := RedactText(carry + chunk);
        var hold := HeldBackLength(redacted);
        carry := redacted[|redacted| - hold..];
        out := redacted[..|redacted| - hold];
      }
      assert Step(was, chunk, secrets) == Progress(was.emitted + out, carry);
      chunks := chunks + [chunk];
      emitted := emitted + out;
    }

    method Flush() returns (out: string)
      requires Valid()
      modifies this`emitted
      ensures emitted == old(emitted) + out == Output(chunks, secrets)
    {
      out := RedactText(carry);
      emitted := emitted + out;
    }
  }

  /** Without secrets nothing is ever held back, so the untouched branch of `makeMask` agrees. */
  lemma {:induction false} PassThrough(chunks: seq<string>)
    ensures Feed(chunks, []).carry == ""
  {
    if chunks == [] {
    } else {
      PassThrough(chunks[..|chunks| - 1]);
      StepWithoutSecrets(Feed(chunks[..|chunks| - 1], []), chunks[|chunks| - 1]);
    }
  }

  lemma StepWithoutSecrets(p: Progress, chunk: string)
    requires p.carry == ""
    ensures Step(p, chunk, []) == Progress(p.emitted + chunk, "")
  {
    assert "" + chunk == chunk;
    HeldUnique(chunk, [], 0);
    assert chunk[..|chunk|] == chunk && chunk[|chunk|..] == "";
  }

  // ----- Which secrets are safe -----

  /** Replacement stars can never become part of such a secret. */
  ghost predicate StarSafe(s: string) {
    && s != "" && s[0] != '*' && s[|s| - 1] != '*'
    && !Contains(s, STARS)
  }

  ghost predicate AllSafe(secrets: seq<string>) {
    forall i :: 0 <= i < |secrets| ==> StarSafe(secrets[i])
  }

  /** A held-back tail of masked text can then never include replacement stars. */
  ghost predicate ChunkSafe(s: string) {
    s != "" && s[0] != '*' && !Contains(s[..|s| - 1], STARS)
  }

  lemma ContainsShift(x: string, w: string, k: nat)
    requires k <= |x| && Contains(x[k..], w)
    ensures Contains(x, w)
  {
    var i :| OccursAt(w, x[k..], i);
    assert x[k..][i..i + |w|] == x[k + i..k + i + |w|];
    assert OccursAt(w, x, k + i);
  }

  lemma ContainsInner(a: string, b: string, c: string, w: string)
    requires Contains(b, w)
    ensures Contains(a + b + c, w)
  {
    var i :| OccursAt(w, b, i);
    assert (a + b + c)[|a| + i..|a| + i + |w|] == b[i..i + |w|];
    assert OccursAt(w, a + b + c, |a| + i);
  }

  lemma OccursRight(a: string, b: string, w: string, i: int)
    requires i >= |a|
    ensures OccursAt(w, a + b, i) == OccursAt(w, b, i - |a|)
  {
    if i + |w| <= |a + b| { assert (a + b)[i..i + |w|] == b[i - |a|..i - |a| + |w|]; }
  }

  lemma OccursLeft(a: string, b: string, w: string, i: int)
    requires i + |w| <= |a|
    ensures OccursAt(w, a + b, i) == OccursAt(w, a, i)
  {
    if i >= 0 { assert (a + b)[i..i + |w|] == a[i..i + |w|]; }
  }

  lemma OccursAcross(a: string, b: string, w: string, i: int)
    requires i < |a| < i + |w| && OccursAt(w, a + b, i)
    ensures w == a[i..] + b[..i + |w| - |a|]
  {
    assert (a + b)[i..i + |w|] == a[i..] + b[..i + |w| - |a|];
  }

  lemma GrowsRight(a: string, b: string, s: string, k: nat)
    requires k <= |b|
    ensures Grows(a + b, s, k) == Grows(b, s, k)
  {
    assert (a + b)[|a + b| - k..] == b[|b| - k..];
  }

  lemma GrowsAcross(a: string, b: string, s: string, k: nat)
    requires |b| < k <= |a + b|
    ensures Grows(a + b, s, k) == (k < |s| && a[|a + b| - k..] + b == s[..k])
  {
    assert (a + b)[|a + b| - k..] == a[|a + b| - k..] + b;
  }

  // ----- One masking pass -----

  lemma {:induction false} NoTripleMeansUntouched(x: string, s: string)
    requires s != ""
    ensures Contains(Mask(x, s), STARS) || Mask(x, s) == x
    decreases |x|
  {
    if |x| < |s| {
    } else if s <= x {
      assert OccursAt(STARS, Mask(x, s), 0);
    } else {
      var m := Mask(x, s);
      assert m[1..] == Mask(x[1..], s);
      if Contains(m[1..], STARS) { ContainsShift(m, STARS, 1); }
      NoTripleMeansUntouched(x[1..], s);
    }
  }

  ghost predicate SafeEnd(w: string) {
    !Contains(w, STARS) && (w == "" || w[|w| - 1] != '*')
  }

  lemma {:induction false} SafePrefixWasThere(x: string, s: string, w: string)
    requires s != "" && w <= Mask(x, s) && SafeEnd(w)
    ensures w <= x
    decreases |x|
  {
    if |x| < |s| || w == "" {
    } else if s <= x {
      if |w| >= 3 { assert OccursAt(STARS, w, 0); }
    } else {
      assert Mask(x, s)[1..] == Mask(x[1..], s);
      assert w[1..] <= Mask(x[1..], s);
      if Contains(w[1..], STARS) { ContainsShift(w, STARS, 1); }
      SafePrefixWasThere(x[1..], s, w[1..]);
      assert w == [w[0]] + w[1..];
    }
  }

  lemma {:induction false} SafeSubstringWasThere(x: string, s: string, w: string, i: nat)
    requires s != "" && StarSafe(w) && OccursAt(w, Mask(x, s), i)
    ensures Contains(x, w)
    decreases |x|
  {
    var m := Mask(x, s);
    if |x| < |s| {
    } else if s <= x {
      assert m[i] == w[0];
      OccursRight(STARS, Mask(x[|s|..], s), w, i);
      SafeSubstringWasThere(x[|s|..], s, w, i - 3);
      ContainsShift(x, w, |s|);
    } else if i == 0 {
      SafePrefixWasThere(x, s, w);
      assert OccursAt(w, x, 0);
    } else {
      OccursRight([x[0]], Mask(x[1..], s), w, i);
      SafeSubstringWasThere(x[1..], s, w, i - 1);
      ContainsShift(x, w, 1);
    }
  }

  lemma {:induction false} MaskRemoves(x: string, s: string, i: nat)
    requires StarSafe(s)
    ensures !OccursAt(s, Mask(x, s), i)
    decreases |x|
  {
    var m := Mask(x, s);
    if |x| < |s| || !OccursAt(s, m, i) {
    } else if s <= x {
      assert m[i] == s[0];
      OccursRight(STARS, Mask(x[|s|..], s), s, i);
      MaskRemoves(x[|s|..], s, i - 3);
    } else if i == 0 {
      SafePrefixWasThere(x, s, s);
    } else {
      OccursRight([x[0]], Mask(x[1..], s), s, i);
      MaskRemoves(x[1..], s, i - 1);
    }
  }

  lemma {:induction false} AbsentMeansUntouched(x: string, s: string)
    requires s != "" && !Contains(x, s)
    ensures Mask(x, s) == x
    decreases |x|
  {
    if |x| < |s| {
    } else {
      if s <= x { assert OccursAt(s, x, 0); }
      if Contains(x[1..], s) { ContainsShift(x, s, 1); }
      AbsentMeansUntouched(x[1..], s);
    }
  }

  // ----- All passes -----

  lemma {:induction false} RedactNoTriple(x: string, secrets: seq<string>)
    requires NonEmpty(secrets) && !Contains(Redact(x, secrets), STARS)
    ensures Redact(x, secrets) == x
    decreases |secrets|
  {
    if secrets == [] {
    } else {
      RedactNoTriple(Mask(x, secrets[0]), secrets[1..]);
      NoTripleMeansUntouched(x, secrets[0]);
    }
  }

  lemma {:induction false} RedactSafePrefix(x: string, secrets: seq<string>, w: string)
    requires NonEmpty(secrets) && w <= Redact(x, secrets) && SafeEnd(w)
    ensures w <= x
    decreases |secrets|
  {
    if secrets == [] {
    } else {
      RedactSafePrefix(Mask(x, secrets[0]), secrets[1..], w);
      SafePrefixWasThere(x, secrets[0], w);
    }
  }

  lemma {:induction false} RedactSafeSubstring(x: string, secrets: seq<string>, w: string)
    requires NonEmpty(secrets) && StarSafe(w) && Contains(Redact(x, secrets), w)
    ensures Contains(x, w)
    decreases |secrets|
  {
    if secrets == [] {
    } else {
      var y := Mask(x, secrets[0]);
      RedactSafeSubstring(y, secrets[1..], w);
      var i :| OccursAt(w, y, i);
      SafeSubstringWasThere(x, secrets[0], w, i);
    }
  }

  /** No secret survives the redaction of a whole text. */
  lemma {:induction false} RedactRemoves(x: string, secrets: seq<string>, k: nat)
    requires NonEmpty(secrets) && AllSafe(secrets) && k < |secrets|
    ensures !Contains(Redact(x, secrets), secrets[k])
    decreases |secrets|
  {
    var y := Mask(x, secrets[0]);
    if k > 0 {
      RedactRemoves(y, secrets[1..], k - 1);
    } else if Contains(Redact(x, secrets), secrets[0]) {
      RedactSafeSubstring(y, secrets[1..], secrets[0]);
      var i :| OccursAt(secrets[0], y, i);
      MaskRemoves(x, secrets[0], i);
    }
  }

  lemma {:induction false} RedactAbsent(x: string, secrets: seq<string>)
    requires NonEmpty(secrets)
    requires forall i :: 0 <= i < |secrets| ==> !Contains(x, secrets[i])
    ensures Redact(x, secrets) == x
    decreases |secrets|
  {
    if secrets == [] {
    } else {
      AbsentMeansUntouched(x, secrets[0]);
      RedactAbsent(x, secrets[1..]);
    }
  }

  // ----- The invariant of the stream -----

  /** Nothing secret is visible, and only the carry can still grow into a secret. */
  ghost predicate Sealed(p: Progress, secrets: seq<string>) {
    var seen := p.emitted + p.carry;
    && (forall j :: 0 <= j < |secrets| ==> !Contains(seen, secrets[j]))
    && (forall k :: |p.carry| < k <= |seen| ==> !CanGrow(seen, secrets, k))
  }

  /** A strict prefix of a safe secret that ends in freshly redacted text already ended in the carry. */
  lemma GrowsOnlyFromTheCarry(p: Progress, x: string, secrets: seq<string>, s: string, k: nat)
    requires NonEmpty(secrets) && StarSafe(s) && p.carry <= x
    requires |Redact(x, secrets)| < k <= |p.emitted| + |Redact(x, secrets)|
    requires Grows(p.emitted + Redact(x, secrets), s, k)
    ensures exists m :: |p.carry| < m <= |p.emitted + p.carry| && Grows(p.emitted + p.carry, s, m)
  {
    var r := Redact(x, secrets);
    GrowsAcross(p.emitted, r, s, k);
    var tail := p.emitted[|p.emitted + r| - k..];
    assert s == tail + r + s[k..];
    if Contains(r, STARS) { ContainsInner(tail, r, s[k..], STARS); }
    RedactNoTriple(x, secrets);
    var m := |tail| + |p.carry|;
    assert tail + p.carry == s[..m];
    GrowsAcross(p.emitted, p.carry, s, m);
  }

  lemma NothingNewCanGrow(p: Progress, x: string, r: string, secrets: seq<string>, k: nat)
    requires NonEmpty(secrets) && AllSafe(secrets) && Sealed(p, secrets) && p.carry <= x && r == Redact(x, secrets)
    requires k <= |p.emitted + r| && !CanGrow(r, secrets, k)
    ensures !CanGrow(p.emitted + r, secrets, k)
  {
    forall j | 0 <= j < |secrets| ensures !Grows(p.emitted + r, secrets[j], k) {
      var s := secrets[j];
      if k <= |r| {
        GrowsRight(p.emitted, r, s, k);
        assert !CanGrow(r, secrets, k);
      } else if Grows(p.emitted + r, s, k) {
        GrowsOnlyFromTheCarry(p, x, secrets, s, k);
        var m :| |p.carry| < m <= |p.emitted + p.carry| && Grows(p.emitted + p.carry, s, m);
        assert CanGrow(p.emitted + p.carry, secrets, m);
      }
    }
  }

  /** A secret that straddles the cut was visible, or about to grow, before the chunk came. */
  lemma StraddleWasThere(p: Progress, x: string, secrets: seq<string>, s: string, i: nat)
    requires NonEmpty(secrets) && StarSafe(s) && p.carry <= x
    requires i < |p.emitted| < i + |s| && OccursAt(s, p.emitted + Redact(x, secrets), i)
    ensures || OccursAt(s, p.emitted + p.carry, i)
            || exists m :: |p.carry| < m <= |p.emitted + p.carry| && Grows(p.emitted + p.carry, s, m)
  {
    var r := Redact(x, secrets);
    OccursAcross(p.emitted, r, s, i);
    var tail, head := p.emitted[i..], r[..i + |s| - |p.emitted|];
    assert s == tail + head + "";
    if Contains(head, STARS) { ContainsInner(tail, head, "", STARS); }
    RedactSafePrefix(x, secrets, head);
    if |head| <= |p.carry| {
      assert head == p.carry[..|head|];
      assert (p.emitted + p.carry)[i..i + |s|] == tail + head;
    } else {
      var m := |tail| + |p.carry|;
      assert p.carry == head[..|p.carry|];
      assert tail + p.carry == s[..m];
      GrowsAcross(p.emitted, p.carry, s, m);
    }
  }

  lemma NoSecretAcrossTheCut(p: Progress, x: string, secrets: seq<string>, j: nat, i: nat)
    requires NonEmpty(secrets) && AllSafe(secrets) && Sealed(p, secrets) && p.carry <= x && j < |secrets|
    ensures !OccursAt(secrets[j], p.emitted + Redact(x, secrets), i)
  {
    var r, s, was := Redact(x, secrets), secrets[j], p.emitted + p.carry;
    assert !Contains(was, s);
    if i >= |p.emitted| {
      OccursRight(p.emitted, r, s, i);
      RedactRemoves(x, secrets, j);
    } else if i + |s| <= |p.emitted| {
      OccursLeft(p.emitted, r, s, i);
      OccursLeft(p.emitted, p.carry, s, i);
    } else if OccursAt(s, p.emitted + r, i) {
      StraddleWasThere(p, x, secrets, s, i);
      var m :| |p.carry| < m <= |was| && Grows(was, s, m);
      assert CanGrow(was, secrets, m);
    }
  }

  lemma StepKeepsSealed(p: Progress, chunk: string, secrets: seq<string>)
    requires NonEmpty(secrets) && AllSafe(secrets) && Sealed(p, secrets)
    ensures Sealed(Step(p, chunk, secrets), secrets)
  {
    var r := Redact(p.carry + chunk, secrets);
    var q := Step(p, chunk, secrets);
    assert q.emitted + q.carry == p.emitted + r;
    forall k | |q.carry| < k <= |p.emitted + r| ensures !CanGrow(p.emitted + r, secrets, k) {
      NothingNewCanGrow(p, p.carry + chunk, Redact(p.carry + chunk, secrets), secrets, k);
    }
    forall j | 0 <= j < |secrets| ensures !Contains(p.emitted + r, secrets[j]) {
      forall i ensures !OccursAt(secrets[j], p.emitted + r, i) {
        if i >= 0 { NoSecretAcrossTheCut(p, p.carry + chunk, secrets, j, i); }
      }
    }
  }

  lemma {:induction false} FeedIsSealed(chunks: seq<string>, secrets: seq<string>)
    requires NonEmpty(secrets) && AllSafe(secrets)
    ensures Sealed(Feed(chunks, secrets), secrets)
  {
    if chunks == [] {
      forall j | 0 <= j < |secrets| ensures !Contains("", secrets[j]) { }
    } else {
      FeedIsSealed(chunks[..|chunks| - 1], secrets);
      StepKeepsSealed(Feed(chunks[..|chunks| - 1], secrets), chunks[|chunks| - 1], secrets);
    }
  }

  /** However the text is cut into chunks, no secret is ever visible in the whole output. */
  lemma NoSecretInOutput(chunks: seq<string>, secrets: seq<string>, j: nat)
    requires NonEmpty(secrets) && AllSafe(secrets) && j < |secrets|
    ensures !Contains(Output(chunks, secrets), secrets[j])
  {
    FeedIsSealed(chunks, secrets);
    var p := Feed(chunks, secrets);
    forall i | 0 <= i < |secrets| ensures !Contains(p.carry, secrets[i]) {
      assert (p.emitted + p.carry)[|p.emitted|..] == p.carry;
      if Contains(p.carry, secrets[i]) { ContainsShift(p.emitted + p.carry, secrets[i], |p.emitted|); }
    }
    RedactAbsent(p.carry, secrets);
  }

  // ----- Independence of the chunking, for one secret -----

  lemma RedactOne(x: string, s: string)
    requires s != ""
    ensures Redact(x, [s]) == Mask(x, s)
  {
    assert Redact(Mask(x, s), []) == Mask(x, s);
  }

  /** Leading text that cannot be part of the held-back tail does not change the tail. */
  lemma HeldDrop(a: string, y: string, s: string)
    requires forall k :: |y| < k <= |a + y| ==> !Grows(a + y, s, k)
    ensures Held(a + y, [s]) == Held(y, [s])
  {
    forall m: nat ensures CanGrow(a + y, [s], m) == (m <= |a + y| && Grows(a + y, s, m)) {
      assert [s][0] == s;
    }
    forall m: nat ensures CanGrow(y, [s], m) == (m <= |y| && Grows(y, s, m)) {
      assert [s][0] == s;
    }
    forall m: nat | m <= |y| ensures Grows(a + y, s, m) == Grows(y, s, m) { GrowsRight(a, y, s, m); }
    HeldUnique(a + y, [s], Held(y, [s]));
  }

  /** What `Resume` states: masking continues from the held-back tail. */
  ghost predicate Resumes(y: string, c: string, s: string, r: string)
    requires s != ""
  {
    var cut := |r| - Held(r, [s]);
    Mask(y + c, s) == r[..cut] + Mask(r[cut..] + c, s)
  }

  lemma ResumesPrepend(a: string, b: string, y: string, c: string, s: string, r: string)
    requires s != "" && Resumes(y, c, s, r) && Held(b + r, [s]) == Held(r, [s])
    requires Mask(a + (y + c), s) == b + Mask(y + c, s)
    ensures Resumes(a + y, c, s, b + r)
  {
    assert a + y + c == a + (y + c);
    PrependToCut(b, r, |r| - Held(r, [s]), Mask(r[|r| - Held(r, [s])..] + c, s));
  }

  lemma PrependToCut(b: string, r: string, cut: nat, m: string)
    requires cut <= |r|
    ensures b + (r[..cut] + m) == (b + r)[..|b| + cut] + m
    ensures (b + r)[|b| + cut..] == r[cut..]
  {
  }

  lemma NoHitAcross(y: string, c: string, s: string)
    requires if |y| < |s| then y != s[..|y|] else !(s <= y)
    ensures !(s <= y + c)
  {
    if |y + c| >= |s| {
      if |y| < |s| { assert (y + c)[..|y|] == y; } else { assert (y + c)[..|s|] == y[..|s|]; }
    }
  }

  lemma MissAhead(y: string, c: string, s: string)
    requires s != "" && y != ""
    requires if |y| < |s| then y != s[..|y|] else !(s <= y)
    ensures y == [y[0]] + y[1..]
    ensures Mask([y[0]] + (y[1..] + c), s) == [y[0]] + Mask(y[1..] + c, s)
  {
    NoHitAcross(y, c, s);
    var x := [y[0]] + (y[1..] + c);
    assert x == y + c;
    assert x[1..] == y[1..] + c;
  }

  lemma {:induction false} ResumeShort(y: string, c: string, s: string)
    requires s != "" && |y| < |s|
    ensures Resumes(y, c, s, y)
    decreases |y|
  {
    if Held(y, [s]) == |y| {
      assert y[0..] == y;
    } else {
      assert !CanGrow(y, [s], |y|);
      assert [s][0] == s;
      assert !Grows(y, s, |y|);
      assert y[0..] == y;
      var a, rest := [y[0]], y[1..];
      assert y == a + rest;
      HeldDrop(a, rest, s);
      ResumeShort(rest, c, s);
      MissAhead(y, c, s);
      ResumesPrepend(a, a, rest, c, s, rest);
    }
  }

  lemma ResumeAfterHit(y: string, c: string, s: string)
    requires ChunkSafe(s) && s <= y && Resumes(y[|s|..], c, s, Mask(y[|s|..], s))
    ensures Resumes(y, c, s, Mask(y, s))
  {
    var rest := Mask(y[|s|..], s);
    StarsNotHeld(rest, s);
    HeldDrop(STARS, rest, s);
    assert y == s + y[|s|..];
    assert (s + (y[|s|..] + c))[|s|..] == y[|s|..] + c;
    ResumesPrepend(s, STARS, y[|s|..], c, s, rest);
  }

  lemma StarsNotHeld(rest: string, s: string)
    requires s != "" && s[0] != '*'
    ensures forall k :: |rest| < k <= |STARS + rest| ==> !Grows(STARS + rest, s, k)
  {
    forall k | |rest| < k <= |STARS + rest| ensures !Grows(STARS + rest, s, k) {
      GrowsAcross(STARS, rest, s, k);
      assert (STARS[|STARS + rest| - k..] + rest)[0] == '*';
    }
  }

  lemma WholeMaskCannotGrow(y: string, s: string)
    requires ChunkSafe(s) && |y| >= |s|
    ensures !Grows(Mask(y, s), s, |Mask(y, s)|)
  {
    var r := Mask(y, s);
    if Grows(r, s, |r|) {
      assert r[0..] == r;
      assert s[..|s| - 1] == "" + r + s[|r|..|s| - 1];
      if Contains(r, STARS) { ContainsInner("", r, s[|r|..|s| - 1], STARS); }
      NoTripleMeansUntouched(y, s);
    }
  }

  lemma ResumeAfterMiss(y: string, c: string, s: string)
    requires ChunkSafe(s) && |y| >= |s| && !(s <= y) && Resumes(y[1..], c, s, Mask(y[1..], s))
    ensures Resumes(y, c, s, Mask(y, s))
  {
    var a, rest := [y[0]], Mask(y[1..], s);
    WholeMaskCannotGrow(y, s);
    HeldDrop(a, rest, s);
    MissAhead(y, c, s);
    ResumesPrepend(a, a, y[1..], c, s, rest);
  }

  /** Masking can be resumed from the held-back tail of what has been masked so far. */
  lemma {:induction false} Resume(y: string, c: string, s: string)
    requires ChunkSafe(s)
    ensures Resumes(y, c, s, Mask(y, s))
    decreases |y|
  {
    if |y| < |s| {
      ResumeShort(y, c, s);
    } else if s <= y {
      Resume(y[|s|..], c, s);
      ResumeAfterHit(y, c, s);
    } else {
      Resume(y[1..], c, s);
      ResumeAfterMiss(y, c, s);
    }
  }

  /** The text still to come is masked as if everything before the carry were settled. */
  ghost predicate Continues(text: string, p: Progress, c: string, s: string)
    requires s != ""
  {
    Mask(text + c, s) == p.emitted + Mask(p.carry + c, s)
  }

  lemma StepContinues(text: string, p: Progress, chunk: string, c: string, s: string)
    requires ChunkSafe(s) && Continues(text, p, chunk + c, s)
    ensures Continues(text + chunk, Step(p, chunk, [s]), c, s)
  {
    var y := p.carry + chunk;
    var r := Mask(y, s);
    var cut := |r| - Held(r, [s]);
    RedactOne(y, s);
    assert Step(p, chunk, [s]) == Progress(p.emitted + r[..cut], r[cut..]);
    Resume(y, c, s);
    Associates(text, chunk, c);
    Associates(p.carry, chunk, c);
    Associates(p.emitted, r[..cut], Mask(r[cut..] + c, s));
  }

  lemma {:induction false} FeedContinues(chunks: seq<string>, c: string, s: string)
    requires ChunkSafe(s)
    ensures Continues(Concat(chunks), Feed(chunks, [s]), c, s)
    decreases |chunks|
  {
    if chunks == [] {
      assert "" + c == c;
      assert "" + Mask(c, s) == Mask(c, s);
    } else {
      var front, last := chunks[..|chunks| - 1], chunks[|chunks| - 1];
      FeedContinues(front, last + c, s);
      StepContinues(Concat(front), Feed(front, [s]), last, c, s);
    }
  }

  /** The output is the redaction of the whole text, whatever the chunks were. */
  lemma OutputIgnoresChunking(chunks: seq<string>, s: string)
    requires ChunkSafe(s)
    ensures Output(chunks, [s]) == Mask(Concat(chunks), s)
  {
    FeedContinues(chunks, "", s);
    var p := Feed(chunks, [s]);
    RedactOne(p.carry, s);
    assert p.carry + "" == p.carry;
    assert Concat(chunks) + "" == Concat(chunks);
  }

  // ----- Exactly which single secrets are masked correctly -----

  /** The first copy of a secret behind one of its own prefixes that ends before a star. */
  lemma NoEarlierHit(s: string, i: nat, z: string, j: nat)
    requires j < i < |s| && s[0] != '*' && s[i] == '*'
    ensures !(s <= s[j..i] + s + z)
  {
    var x := s[j..i] + s + z;
    assert x[0] == s[j] && x[i] == s[j];
    assert x[..|s|][0] == x[0] && x[..|s|][i] == x[i];
  }

  lemma {:induction false} MaskBehindPrefix(s: string, i: nat, z: string, j: nat)
    requires j <= i < |s| && s[0] != '*' && s[i] == '*'
    ensures Mask(s[j..i] + s + z, s) == s[j..i] + STARS + Mask(z, s)
    decreases i - j
  {
    var x := s[j..i] + s + z;
    if j == i {
      assert x == s + z && x[|s|..] == z;
    } else {
      NoEarlierHit(s, i, z, j);
      MaskBehindPrefix(s, i, z, j + 1);
      assert x[1..] == s[j + 1..i] + s + z;
      assert s[j..i] == [s[j]] + s[j + 1..i];
      assert [s[j]] + (s[j + 1..i] + STARS + Mask(z, s)) == s[j..i] + STARS + Mask(z, s);
    }
  }

  lemma MaskTwice(s: string, z: string)
    requires s != "" && |z| < |s|
    ensures Mask(s + z, s) == STARS + z
  {
    assert (s + z)[|s|..] == z;
  }

  /** One step with a single secret, in terms of `Mask`. */
  lemma StepOne(p: Progress, chunk: string, s: string, r: string, h: nat)
    requires s != "" && r == Mask(p.carry + chunk, s) && h <= |r|
    requires h == 0 || Grows(r, s, h)
    requires forall k :: h < k <= |r| ==> !Grows(r, s, k)
    ensures Step(p, chunk, [s]) == Progress(p.emitted + r[..|r| - h], r[|r| - h..])
  {
    RedactOne(p.carry + chunk, s);
    assert [s][0] == s;
    HeldUnique(r, [s], h);
  }

  /** A held-back tail is shorter than the secret, so the flush passes it on. */
  lemma HeldOne(r: string, s: string) returns (h: nat)
    requires s != ""
    ensures h <= |r| && (h == 0 || Grows(r, s, h))
    ensures forall k :: h < k <= |r| ==> !Grows(r, s, k)
    ensures Redact(r[|r| - h..], [s]) == r[|r| - h..]
  {
    h := Held(r, [s]);
    assert [s][0] == s;
    if h > 0 { assert CanGrow(r, [s], h); }
    forall k | h < k <= |r| ensures !Grows(r, s, k) { assert !CanGrow(r, [s], k); }
    RedactOne(r[|r| - h..], s);
  }

  lemma FeedOne(x: string, s: string, r: string, h: nat)
    requires s != "" && r == Mask(x, s) && h <= |r|
    requires h == 0 || Grows(r, s, h)
    requires forall k :: h < k <= |r| ==> !Grows(r, s, k)
    ensures Feed([x], [s]) == Progress(r[..|r| - h], r[|r| - h..])
  {
    assert [x][..0] == [] && "" + x == x;
    StepOne(Progress("", ""), x, s, r, h);
    assert "" + r[..|r| - h] == r[..|r| - h];
  }

  /** One chunk shows the redaction of that chunk. */
  lemma OneChunk(x: string, s: string)
    requires s != ""
    ensures Output([x], [s]) == Mask(x, s)
  {
    var r := Mask(x, s);
    var h := HeldOne(r, s);
    FeedOne(x, s, r, h);
    Rejoin(r, |r| - h);
  }

  lemma Rejoin(r: string, cut: nat)
    requires cut <= |r|
    ensures r[..cut] + r[cut..] == r
  {
  }

  /** An unsafe secret comes out of its own redaction. */
  lemma UnsafeSecretLeaks(s: string) returns (x: string)
    requires s != "" && !StarSafe(s)
    ensures Contains(Mask(x, s), s)
  {
    if s[0] == '*' {
      x := s + s[1..];
      LeadingStarLeaks(s);
    } else if s[|s| - 1] == '*' {
      x := s[0..|s| - 1] + s + "";
      TrailingStarLeaks(s);
    } else {
      var i :| OccursAt(STARS, s, i);
      x := s[..i] + s + s[i + 3..];
      InnerStarsLeak(s, i);
    }
  }

  lemma LeadingStarLeaks(s: string)
    requires s != "" && s[0] == '*'
    ensures Contains(Mask(s + s[1..], s), s)
  {
    MaskTwice(s, s[1..]);
    var y := STARS + s[1..];
    assert y[2..2 + |s|] == s;
    assert OccursAt(s, y, 2);
  }

  lemma TrailingStarLeaks(s: string)
    requires s != "" && s[0] != '*' && s[|s| - 1] == '*'
    ensures Contains(Mask(s[0..|s| - 1] + s + "", s), s)
  {
    var i := |s| - 1;
    MaskBehindPrefix(s, i, "", 0);
    StartsWithTrailing(s, s[0..i], Mask("", s));
  }

  lemma StartsWithTrailing(s: string, front: string, more: string)
    requires s != "" && front == s[0..|s| - 1] && s[|s| - 1] == '*'
    ensures Contains(front + STARS + more, s)
  {
    var y := front + STARS + more;
    assert y[0..0 + |s|] == s;
    assert OccursAt(s, y, 0);
  }

  lemma InnerStarsLeak(s: string, i: nat)
    requires s != "" && s[0] != '*' && s[|s| - 1] != '*' && OccursAt(STARS, s, i)
    ensures Contains(Mask(s[..i] + s + s[i + 3..], s), s)
  {
    MaskAround(s, i, s[i + 3..]);
    CutAround(s, i);
    assert s[0..0 + |s|] == s;
    assert OccursAt(s, s, 0);
  }

  /** A single secret stays hidden on every input exactly when it is star-safe. */
  lemma HiddenExactlyWhenStarSafe(s: string)
    requires s != ""
    ensures (forall chunks :: !Contains(Output(chunks, [s]), s)) <==> StarSafe(s)
  {
    if StarSafe(s) {
      forall chunks ensures !Contains(Output(chunks, [s]), s) { NoSecretInOutput(chunks, [s], 0); }
    } else {
      var x := UnsafeSecretLeaks(s);
      OneChunk(x, s);
      assert Contains(Output([x], [s]), s);
    }
  }

  /** With several secrets star-safety is not necessary: masking the second hides the first. */
  lemma SafetyIsNotNecessaryForSeveral(chunks: seq<string>)
    ensures !StarSafe("**a") && NonEmpty(["**a", "a"])
    ensures !Contains(Output(chunks, ["**a", "a"]), "**a")
  {
    var secrets := ["**a", "a"];
    FeedWithoutA(chunks);
    var p := Feed(chunks, secrets);
    RedactDropsA(p.carry);
    var out := Output(chunks, secrets);
    forall i ensures !OccursAt("**a", out, i) {
      if 0 <= i && i + 3 <= |out| { assert out[i..i + 3][2] == out[i + 2]; }
    }
  }

  lemma {:induction false} MaskDropsA(x: string)
    ensures 'a' !in Mask(x, "a")
    decreases |x|
  {
    if |x| < 1 {
    } else {
      if "a" <= x { MaskDropsA(x[1..]); } else { MaskDropsA(x[1..]); }
    }
  }

  lemma RedactDropsA(x: string)
    ensures NonEmpty(["**a", "a"]) && 'a' !in Redact(x, ["**a", "a"])
  {
    var y := Mask(x, "**a");
    assert ["**a", "a"][1..] == ["a"];
    RedactOne(y, "a");
    MaskDropsA(y);
  }

  lemma {:induction false} FeedWithoutA(chunks: seq<string>)
    ensures NonEmpty(["**a", "a"]) && 'a' !in Feed(chunks, ["**a", "a"]).emitted
  {
    if chunks == [] {
    } else {
      var p := Feed(chunks[..|chunks| - 1], ["**a", "a"]);
      FeedWithoutA(chunks[..|chunks| - 1]);
      RedactDropsA(p.carry + chunks[|chunks| - 1]);
    }
  }

  /** A triple of stars inside a held-back prefix lets a second chunk complete a secret that the
      text does not contain. */
  lemma TripleBreaksChunking(s: string, i: nat)
    requires s != "" && s[0] != '*' && i + 3 < |s| && OccursAt(STARS, s, i)
    ensures Output([s[..i] + s, s[i + 3..]], [s]) != Mask(Concat([s[..i] + s, s[i + 3..]]), s)
  {
    var x, z := s[..i] + s, s[i + 3..];
    TripleMasks(s, i);
    TripleHeld(s, i, x);
    Rejoin(s, i + 3);
    CompletedByNext(x, z, s, Progress("", s[..i + 3]), 0);
    ConcatTwo(x, z);
  }

  lemma TripleMasks(s: string, i: nat)
    requires s != "" && s[0] != '*' && i + 3 < |s| && OccursAt(STARS, s, i)
    ensures Mask(s[..i] + s + s[i + 3..], s) == s && Mask(s[..i] + s, s) == s[..i + 3]
  {
    MaskAround(s, i, s[i + 3..]);
    MaskAround(s, i, "");
    CutAround(s, i);
    assert s[..i] + s + "" == s[..i] + s;
    assert s[..i] + STARS + "" == s[..i + 3];
  }

  lemma CutAround(s: string, i: nat)
    requires i + 3 <= |s|
    ensures s == s[..i] + s[i..i + 3] + s[i + 3..] && s[..i + 3] == s[..i] + s[i..i + 3]
  {
  }

  /** Behind the part of a secret before a triple of stars, the secret itself is masked. */
  lemma MaskAround(s: string, i: nat, z: string)
    requires s != "" && s[0] != '*' && OccursAt(STARS, s, i) && |z| < |s|
    ensures Mask(s[..i] + s + z, s) == s[..i] + STARS + z
  {
    assert s[i..i + 3][0] == '*' && s[0..i] == s[..i];
    MaskBehindPrefix(s, i, z, 0);
  }

  lemma TripleHeld(s: string, i: nat, x: string)
    requires s != "" && i + 3 < |s| && Mask(x, s) == s[..i + 3]
    ensures Feed([x], [s]) == Progress("", s[..i + 3])
  {
    var r := s[..i + 3];
    assert r[0..] == r && r[..0] == "";
    assert Grows(r, s, i + 3);
    FeedOne(x, s, r, i + 3);
  }

  lemma ConcatTwo(x: string, z: string)
    ensures Concat([x, z]) == x + z
  {
    assert [x, z][..1] == [x] && [x][..0] == [];
    assert Concat([x]) == "" + x == x;
  }

  /** A second chunk that completes the carry to the secret. */
  lemma CompletedByNext(x: string, z: string, s: string, p: Progress, h: nat)
    requires s != "" && Feed([x], [s]) == p && p.carry + z == s
    requires h <= 3 && (h == 0 || Grows(STARS, s, h))
    requires forall k :: h < k <= 3 ==> !Grows(STARS, s, k)
    ensures Output([x, z], [s]) == p.emitted + STARS
  {
    assert [x, z][..1] == [x];
    MaskSelf(s);
    StepOne(p, z, s, STARS, h);
    FlushShort(STARS[3 - h..], s);
    Associates(p.emitted, STARS[..3 - h], STARS[3 - h..]);
    Rejoin(STARS, 3 - h);
  }

  lemma FlushShort(carry: string, s: string)
    requires |carry| < |s|
    ensures Redact(carry, [s]) == carry
  {
    RedactOne(carry, s);
  }

  lemma MaskSelf(s: string)
    requires s != ""
    ensures Mask(s, s) == STARS
  {
    MaskTwice(s, "");
    assert s + "" == s && STARS + "" == STARS;
  }

  /** How many replacement stars a secret with leading stars holds back. */
  lemma LeadingStars(s: string) returns (h: nat)
    requires |s| >= 2 && s[0] == '*'
    ensures 1 <= h <= 3 && Grows(STARS, s, h)
    ensures forall k :: h < k <= 3 ==> !Grows(STARS, s, k)
  {
    h := 1;
    assert Grows(STARS, s, 1) by { assert STARS[2..] == "*" == s[..1]; }
    if Grows(STARS, s, 2) { h := 2; }
    if Grows(STARS, s, 3) { h := 3; }
  }

  lemma LeadingStarOutput(s: string, h: nat)
    requires |s| >= 2 && 1 <= h <= 3 && Grows(STARS, s, h)
    requires forall k :: h < k <= 3 ==> !Grows(STARS, s, k)
    ensures Output([s, s[h..]], [s]) == STARS[..3 - h] + STARS
  {
    MaskSelf(s);
    FeedOne(s, s, STARS, h);
    assert s[..h] + s[h..] == s;
    CompletedByNext(s, s[h..], s, Progress(STARS[..3 - h], STARS[3 - h..]), h);
  }

  lemma LeadingStarBreaksChunking(s: string, h: nat)
    requires |s| >= 2 && s[0] == '*' && s != STARS
    requires 1 <= h <= 3 && Grows(STARS, s, h)
    requires forall k :: h < k <= 3 ==> !Grows(STARS, s, k)
    ensures Output([s, s[h..]], [s]) != Mask(Concat([s, s[h..]]), s)
  {
    LeadingStarOutput(s, h);
    ConcatTwo(s, s[h..]);
    MaskTwice(s, s[h..]);
    StarsDiffer(s, h);
  }

  lemma StarsDiffer(s: string, h: nat)
    requires 1 <= h <= 3 && h < |s| && STARS[3 - h..] == s[..h] && s != STARS
    ensures STARS[..3 - h] + STARS != STARS + s[h..]
  {
    assert STARS[3 - h..] + STARS[h..] == STARS;
    CutsDiffer(s, STARS, h);
  }

  lemma CutsDiffer(s: string, t: string, h: nat)
    requires |t| == 3 && h <= 3 && h < |s| && t[3 - h..] == s[..h] && t[3 - h..] + t[h..] == t && s != t
    ensures t[..3 - h] + t != t + s[h..]
  {
    assert (t + s[h..])[3..] == s[h..];
    assert (t[..3 - h] + t)[3..] == t[h..];
    assert s == s[..h] + s[h..];
  }

  lemma {:induction false} TripleStarIsIdentity(x: string)
    ensures Mask(x, STARS) == x
    decreases |x|
  {
    if |x| < 3 {
    } else {
      if STARS <= x { TripleStarIsIdentity(x[3..]); } else { TripleStarIsIdentity(x[1..]); }
    }
  }

  lemma {:induction false} TripleStarOutput(chunks: seq<string>)
    ensures Feed(chunks, [STARS]).emitted + Feed(chunks, [STARS]).carry == Concat(chunks)
  {
    if chunks == [] {
    } else {
      var p, last := Feed(chunks[..|chunks| - 1], [STARS]), chunks[|chunks| - 1];
      TripleStarOutput(chunks[..|chunks| - 1]);
      TripleStarStep(p, last);
    }
  }

  lemma TripleStarStep(p: Progress, chunk: string)
    ensures var q := Step(p, chunk, [STARS]); q.emitted + q.carry == p.emitted + p.carry + chunk
  {
    TripleStarIsIdentity(p.carry + chunk);
    UnchangedStep(p, chunk, STARS);
  }

  /** A step that masks nothing keeps the text. */
  lemma UnchangedStep(p: Progress, chunk: string, s: string)
    requires s != "" && Mask(p.carry + chunk, s) == p.carry + chunk
    ensures var q := Step(p, chunk, [s]); q.emitted + q.carry == p.emitted + p.carry + chunk
  {
    var r := p.carry + chunk;
    var h := HeldOne(r, s);
    StepOne(p, chunk, s, r, h);
    JoinCut(p.emitted, p.carry, chunk, |r| - h);
  }

  lemma JoinCut(a: string, b: string, c: string, cut: nat)
    requires cut <= |b + c|
    ensures a + (b + c)[..cut] + (b + c)[cut..] == a + b + c
  {
  }

  lemma {:induction false} OneStarDistributes(x: string, y: string)
    ensures Mask(x + y, "*") == Mask(x, "*") + Mask(y, "*")
    decreases |x|
  {
    if x == "" {
      assert x + y == y;
    } else {
      assert (x + y)[1..] == x[1..] + y;
      OneStarDistributes(x[1..], y);
      if "*" <= x {
        assert Mask(x + y, "*") == STARS + (Mask(x[1..], "*") + Mask(y, "*"));
        assert STARS + (Mask(x[1..], "*") + Mask(y, "*")) == STARS + Mask(x[1..], "*") + Mask(y, "*");
      } else {
        assert [x[0]] + (Mask(x[1..], "*") + Mask(y, "*")) == [x[0]] + Mask(x[1..], "*") + Mask(y, "*");
      }
    }
  }

  lemma {:induction false} OneStarFeed(chunks: seq<string>)
    ensures Feed(chunks, ["*"]) == Progress(Mask(Concat(chunks), "*"), "")
  {
    if chunks == [] {
    } else {
      var front, last := chunks[..|chunks| - 1], chunks[|chunks| - 1];
      OneStarFeed(front);
      var r := Mask(last, "*");
      assert "" + last == last;
      StepOne(Feed(front, ["*"]), last, "*", r, 0);
      assert r[..|r|] == r && r[|r|..] == "";
      OneStarDistributes(Concat(front), last);
    }
  }

  /** The output of the stream is the redaction of the whole text, on every input. */
  ghost predicate IgnoresChunking(s: string)
    requires s != ""
  {
    forall chunks :: Output(chunks, [s]) == Mask(Concat(chunks), s)
  }

  lemma OneStarIgnoresChunking()
    ensures IgnoresChunking("*")
  {
    forall chunks ensures Output(chunks, ["*"]) == Mask(Concat(chunks), "*") {
      OneStarFeed(chunks);
      RedactOne("", "*");
    }
  }

  lemma TripleStarIgnoresChunking()
    ensures IgnoresChunking(STARS)
  {
    forall chunks ensures Output(chunks, [STARS]) == Mask(Concat(chunks), STARS) {
      TripleStarOutput(chunks);
      RedactOne(Feed(chunks, [STARS]).carry, STARS);
      TripleStarIsIdentity(Feed(chunks, [STARS]).carry);
      TripleStarIsIdentity(Concat(chunks));
    }
  }

  lemma LeadingStarDepends(s: string)
    requires s != "" && s[0] == '*' && s != "*" && s != STARS
    ensures !IgnoresChunking(s)
  {
    assert |s| == 1 ==> s == "*";
    var h := LeadingStars(s);
    LeadingStarBreaksChunking(s, h);
  }

  lemma InnerTripleDepends(s: string)
    requires s != "" && s[0] != '*' && Contains(s[..|s| - 1], STARS)
    ensures !IgnoresChunking(s)
  {
    var i :| OccursAt(STARS, s[..|s| - 1], i);
    assert s[i..i + 3] == s[..|s| - 1][i..i + 3];
    TripleBreaksChunking(s, i);
  }

  /** A single secret's output is independent of the chunking exactly for these secrets; the last two
      are degenerate, since masking them is the identity up to stars. */
  lemma ChunkingIgnoredExactly(s: string)
    requires s != ""
    ensures IgnoresChunking(s) <==> ChunkSafe(s) || s == "*" || s == STARS
  {
    if ChunkSafe(s) {
      forall chunks ensures Output(chunks, [s]) == Mask(Concat(chunks), s) { OutputIgnoresChunking(chunks, s); }
    } else if s == "*" {
      OneStarIgnoresChunking();
    } else if s == STARS {
      TripleStarIgnoresChunking();
    } else if s[0] == '*' {
      LeadingStarDepends(s);
    } else {
      InnerTripleDepends(s);
    }
  }
}
