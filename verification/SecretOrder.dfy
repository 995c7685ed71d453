/** Several secrets: why `runMasked` of `src/exec/run-exec.ts` masks the longest first, and what that does
    and does not achieve in the stream.
 */
module SecretOrder {
  import opened Bytes
  import opened OutputMask

  // ----- The list that is masked -----

  ghost predicate LongestFirst(secrets: seq<string>) {
    forall i, j :: 0 <= i < j < |secrets| ==> |secrets[i]| >= |secrets[j]|
  }

  ghost predicate Distinct(secrets: seq<string>) {
    forall i, j :: 0 <= i < j < |secrets| ==> secrets[i] != secrets[j]
  }

  /** The non-empty values, each once, in order of first appearance. */
  function Unique(values: seq<string>): seq<string> {
    if values == [] then []
    else
      var before, last := Unique(values[..|values| - 1]), values[|values| - 1];
      if last == "" || last in before then before else before + [last]
  }

  /** Into a list that is sorted, behind all that are at least as long. */
  function Insert(s: string, sorted: seq<string>): seq<string> {
    if sorted == [] then [s]
    else if |sorted[0]| >= |s| then [sorted[0]] + Insert(s, sorted[1..])
    else [s] + sorted
  }

  /** A stable sort by length, longest first. */
  function Sorted(values: seq<string>): seq<string> {
    if values == [] then [] else Insert(values[|values| - 1], Sorted(values[..|values| - 1]))
  }

  function Prepared(values: seq<string>): seq<string> { Sorted(Unique(values)) }

  lemma {:induction false} UniqueIs(values: seq<string>)
    ensures NonEmpty(Unique(values)) && Distinct(Unique(values))
    ensures forall s :: s in Unique(values) <==> s in values && s != ""
    decreases |values|
  {
    if values == [] {
    } else {
      UniqueIs(values[..|values| - 1]);
      assert values == values[..|values| - 1] + [values[|values| - 1]];
    }
  }

  lemma {:induction false} InsertSame(s: string, sorted: seq<string>)
    ensures multiset(Insert(s, sorted)) == multiset(sorted) + multiset{s}
    decreases |sorted|
  {
    if sorted == [] || |sorted[0]| < |s| {
    } else {
      InsertSame(s, sorted[1..]);
      assert sorted == [sorted[0]] + sorted[1..];
    }
  }

  lemma {:induction false} InsertSorts(s: string, sorted: seq<string>)
    requires LongestFirst(sorted)
    ensures LongestFirst(Insert(s, sorted))
    ensures forall i :: 0 <= i < |Insert(s, sorted)| ==>
              |Insert(s, sorted)[i]| <= |s| || (sorted != [] && |Insert(s, sorted)[i]| <= |sorted[0]|)
    decreases |sorted|
  {
    if sorted == [] || |sorted[0]| < |s| {
    } else {
      InsertSorts(s, sorted[1..]);
      LongestInFront(sorted[0], Insert(s, sorted[1..]));
    }
  }

  lemma LongestInFront(s: string, sorted: seq<string>)
    requires LongestFirst(sorted) && forall i :: 0 <= i < |sorted| ==> |sorted[i]| <= |s|
    ensures LongestFirst([s] + sorted)
  {
  }

  lemma {:induction false} SortedKeeps(values: seq<string>)
    ensures LongestFirst(Sorted(values)) && multiset(Sorted(values)) == multiset(values)
    decreases |values|
  {
    if values == [] {
    } else {
      SortedKeeps(values[..|values| - 1]);
      InsertSame(values[|values| - 1], Sorted(values[..|values| - 1]));
      InsertSorts(values[|values| - 1], Sorted(values[..|values| - 1]));
      assert values == values[..|values| - 1] + [values[|values| - 1]];
    }
  }

  lemma SameElements(a: seq<string>, b: seq<string>)
    requires multiset(a) == multiset(b) && Distinct(b)
    ensures Distinct(a) && forall s :: s in a <==> s in b
  {
    forall s ensures s in a <==> s in b { assert s in multiset(a) <==> s in multiset(b); }
    forall i, j | 0 <= i < j < |a| ensures a[i] != a[j] {
      if a[i] == a[j] { Twice(a, i, j); Once(b, a[i]); }
    }
  }

  lemma Twice(a: seq<string>, i: nat, j: nat)
    requires i < j < |a| && a[i] == a[j]
    ensures multiset(a)[a[i]] >= 2
  {
    assert a == a[..i] + [a[i]] + a[i + 1..j] + [a[j]] + a[j + 1..];
  }

  lemma {:induction false} Once(b: seq<string>, s: string)
    requires Distinct(b)
    ensures multiset(b)[s] <= 1
    decreases |b|
  {
    if b == [] {
    } else {
      Once(b[1..], s);
      assert b == [b[0]] + b[1..];
      if b[0] == s { assert s !in b[1..]; }
    }
  }

  /** The list that is masked holds exactly the non-empty values, each once, longest first. */
  lemma PreparedIs(values: seq<string>)
    ensures NonEmpty(Prepared(values)) && Distinct(Prepared(values)) && LongestFirst(Prepared(values))
    ensures forall s :: s in Prepared(values) <==> s in values && s != ""
  {
    UniqueIs(values);
    SortedKeeps(Unique(values));
    SameElements(Prepared(values), Unique(values));
    forall i | 0 <= i < |Prepared(values)| ensures Prepared(values)[i] != "" {
      assert Prepared(values)[i] in Prepared(values);
    }
  }

  /** The values of one length, in their order. */
  function OfLength(values: seq<string>, n: nat): seq<string> {
    if values == [] then [] else One(values[0], n) + OfLength(values[1..], n)
  }

  function One(s: string, n: nat): seq<string> { if |s| == n then [s] else [] }

  lemma {:induction false} OfLengthAppend(values: seq<string>, s: string, n: nat)
    ensures OfLength(values + [s], n) == OfLength(values, n) + One(s, n)
    decreases |values|
  {
    if values == [] {
      assert [s][1..] == [] && values + [s] == [s];
    } else {
      OfLengthAppend(values[1..], s, n);
      assert (values + [s])[1..] == values[1..] + [s];
    }
  }

  lemma {:induction false} NoneOfLength(values: seq<string>, n: nat)
    requires forall i :: 0 <= i < |values| ==> |values[i]| != n
    ensures OfLength(values, n) == []
    decreases |values|
  {
    if values == [] {
    } else {
      NoneOfLength(values[1..], n);
    }
  }

  lemma {:induction false} InsertStable(s: string, sorted: seq<string>, n: nat)
    requires LongestFirst(sorted)
    ensures OfLength(Insert(s, sorted), n) == OfLength(sorted, n) + One(s, n)
    decreases |sorted|
  {
    if sorted == [] {
      assert [s][1..] == [];
    } else if |sorted[0]| >= |s| {
      InsertStable(s, sorted[1..], n);
      assert ([sorted[0]] + Insert(s, sorted[1..]))[1..] == Insert(s, sorted[1..]);
    } else {
      assert ([s] + sorted)[1..] == sorted;
      if |s| == n { NoneOfLength(sorted, n); }
    }
  }

  lemma {:induction false} SortedStable(values: seq<string>, n: nat)
    ensures OfLength(Sorted(values), n) == OfLength(values, n)
    decreases |values|
  {
    if values == [] {
    } else {
      var init, last := values[..|values| - 1], values[|values| - 1];
      SortedStable(init, n);
      SortedNext(init, last, n);
      assert values == init + [last];
    }
  }

  lemma SortedNext(init: seq<string>, last: string, n: nat)
    requires OfLength(Sorted(init), n) == OfLength(init, n)
    ensures OfLength(Sorted(init + [last]), n) == OfLength(init + [last], n)
  {
    SortedAppend(init, last);
    SortedKeeps(init);
    InsertStable(last, Sorted(init), n);
    OfLengthAppend(init, last, n);
  }

  lemma SortedAppend(init: seq<string>, last: string)
    ensures Sorted(init + [last]) == Insert(last, Sorted(init))
  {
    assert (init + [last])[..|init|] == init;
  }

  lemma {:induction false} UniqueGrows(values: seq<string>, k: nat)
    requires k <= |values|
    ensures Unique(values[..k]) <= Unique(values)
    decreases |values|
  {
    if k == |values| {
      assert values[..k] == values;
    } else {
      UniqueGrows(values[..|values| - 1], k);
      assert values[..|values| - 1][..k] == values[..k];
    }
  }

  /** Values of equal length keep the order in which they first appear. */
  lemma PreparedIsStable(values: seq<string>, n: nat, k: nat)
    requires k <= |values|
    ensures OfLength(Prepared(values[..k]), n) <= OfLength(Prepared(values), n)
  {
    UniqueGrows(values, k);
    SortedStable(Unique(values), n);
    SortedStable(Unique(values[..k]), n);
    OfLengthGrows(Unique(values[..k]), Unique(values), n);
  }

  lemma {:induction false} OfLengthGrows(a: seq<string>, b: seq<string>, n: nat)
    requires a <= b
    ensures OfLength(a, n) <= OfLength(b, n)
    decreases |a|
  {
    if a == [] {
    } else {
      OfLengthGrows(a[1..], b[1..], n);
    }
  }

  // ----- The order of masking -----

  /** Secrets are masked from the first to the last. */
  lemma {:induction false} MaskedInOrder(x: string, a: seq<string>, b: seq<string>)
    requires NonEmpty(a) && NonEmpty(b)
    ensures NonEmpty(a + b) && Redact(x, a + b) == Redact(Redact(x, a), b)
    decreases |a|
  {
    if a == [] {
      assert a + b == b;
    } else {
      assert (a + b)[0] == a[0] && (a + b)[1..] == a[1..] + b;
      MaskedInOrder(Mask(x, a[0]), a[1..], b);
    }
  }

  // ----- A part of the text that nothing reaches into -----

  /** The occurrence at `i` meets the part that lies between `a` and what follows it. */
  ghost predicate Meets(w: string, a: string, m: string, i: int) { i < |a| + |m| && |a| < i + |w| }

  ghost predicate Clear(a: string, m: string, b: string, w: string) {
    forall i :: OccursAt(w, a + m + b, i) ==> !Meets(w, a, m, i)
  }

  lemma OccursShift(x: string, w: string, k: nat, i: int)
    requires k <= |x| && 0 <= i
    ensures OccursAt(w, x[k..], i) == OccursAt(w, x, i + k)
  {
    if i + |w| <= |x| - k { assert x[k..][i..i + |w|] == x[i + k..i + k + |w|]; }
  }

  lemma ClearRest(a: string, m: string, b: string, w: string, k: nat)
    requires Clear(a, m, b, w) && k <= |a|
    ensures Clear(a[k..], m, b, w)
  {
    var x := a + m + b;
    assert a[k..] + m + b == x[k..];
    forall i | OccursAt(w, a[k..] + m + b, i) ensures !Meets(w, a[k..], m, i) {
      OccursShift(x, w, k, i);
      assert OccursAt(w, x, i + k);
    }
  }

  lemma {:induction false} MaskPassesOver(m: string, b: string, w: string)
    requires w != "" && Clear("", m, b, w)
    ensures Mask(m + b, w) == m + Mask(b, w)
    decreases |m|
  {
    var x := m + b;
    assert "" + m + b == x;
    if m == "" {
      assert x == b && m + Mask(b, w) == Mask(b, w);
    } else {
      assert w <= x <==> OccursAt(w, x, 0);
      MaskStep(x, w);
      ClearTail(m, b, w);
      assert x[1..] == m[1..] + b;
      MaskPassesOver(m[1..], b, w);
      PrependFirst(m, Mask(b, w));
    }
  }

  lemma PrependFirst(m: string, y: string)
    requires m != ""
    ensures [m[0]] + (m[1..] + y) == m + y
  {
  }

  /** Masking passes over a part that no occurrence meets. */
  lemma {:induction false} MaskAroundPart(a: string, m: string, b: string, w: string)
    requires w != "" && Clear(a, m, b, w)
    ensures Mask(a + m + b, w) == Mask(a, w) + m + Mask(b, w)
    decreases |a|
  {
    if a == "" {
      assert "" + m + b == m + b && "" + m + Mask(b, w) == m + Mask(b, w);
      MaskPassesOver(m, b, w);
    } else if w <= a + m + b {
      HitInFront(a, m, b, w);
      ClearRest(a, m, b, w, |w|);
      MaskAroundPart(a[|w|..], m, b, w);
      HitAround(a, m, b, w, Mask(a[|w|..], w), Mask(b, w));
    } else {
      ClearRest(a, m, b, w, 1);
      MaskAroundPart(a[1..], m, b, w);
      MissAround(a, m, b, w, Mask(a[1..], w), Mask(b, w));
    }
  }

  lemma HitAround(a: string, m: string, b: string, w: string, y: string, z: string)
    requires w != "" && w <= a && Mask(a[|w|..], w) == y && Mask(a[|w|..] + m + b, w) == y + m + z
    ensures Mask(a + m + b, w) == Mask(a, w) + m + z
  {
    var x := a + m + b;
    assert w <= x && x[|w|..] == a[|w|..] + m + b;
    Regroup(STARS, y, m, z);
  }

  lemma MissAround(a: string, m: string, b: string, w: string, y: string, z: string)
    requires w != "" && a != "" && !(w <= a + m + b) && Mask(a[1..], w) == y && Mask(a[1..] + m + b, w) == y + m + z
    ensures Mask(a + m + b, w) == Mask(a, w) + m + z
  {
    MaskStep(a + m + b, w);
    DropOne(a, m, b);
    NoHitInFront(a, m, b, w);
    MaskStep(a, w);
    Regroup([a[0]], y, m, z);
  }

  lemma DropOne(a: string, m: string, b: string)
    requires a != ""
    ensures (a + m + b)[1..] == a[1..] + m + b && (a + m + b)[0] == a[0]
  {
  }

  lemma Regroup(c: string, y: string, m: string, z: string)
    ensures c + (y + m + z) == c + y + m + z
  {
  }

  lemma MaskStep(x: string, w: string)
    requires w != "" && x != "" && !(w <= x)
    ensures Mask(x, w) == [x[0]] + Mask(x[1..], w)
  {
    if |x| < |w| { assert x == [x[0]] + x[1..]; }
  }

  lemma ClearTail(m: string, b: string, w: string)
    requires m != "" && Clear("", m, b, w)
    ensures Clear("", m[1..], b, w)
  {
    var x := "" + m + b;
    assert "" + m[1..] + b == x[1..];
    forall i | OccursAt(w, "" + m[1..] + b, i) ensures !Meets(w, "", m[1..], i) {
      OccursShift(x, w, 1, i);
      assert OccursAt(w, x, i + 1);
    }
  }

  lemma HitInFront(a: string, m: string, b: string, w: string)
    requires w != "" && a != "" && Clear(a, m, b, w) && w <= a + m + b
    ensures w <= a
  {
    assert OccursAt(w, a + m + b, 0);
  }

  lemma NoHitInFront(a: string, m: string, b: string, w: string)
    ensures w <= a ==> w <= a + m + b
  {
    assert a + (m + b) == a + m + b;
  }

  // ----- What was there before masking -----

  ghost predicate SafeStart(u: string) { !Contains(u, STARS) && (u == "" || u[0] != '*') }

  predicate IsSuffix(u: string, x: string) { |u| <= |x| && x[|x| - |u|..] == u }

  /** A tail of masked text that holds no mask and starts in none was there before. */
  lemma {:induction false} SafeSuffixWasThere(x: string, s: string, u: string)
    requires s != "" && IsSuffix(u, Mask(x, s)) && SafeStart(u)
    ensures IsSuffix(u, x)
    decreases |x|
  {
    if |x| < |s| || u == "" {
    } else if s <= x {
      var more := Mask(x[|s|..], s);
      SuffixOf(STARS, more, u);
      SafeSuffixWasThere(x[|s|..], s, u);
      SuffixOfTail(x, |s|, u);
    } else {
      SuffixOfOne(x[0], Mask(x[1..], s), u);
      if u == Mask(x, s) {
        NoTripleMeansUntouched(x, s);
      } else {
        SafeSuffixWasThere(x[1..], s, u);
        SuffixOfTail(x, 1, u);
      }
    }
  }

  lemma SuffixOfTail(x: string, k: nat, u: string)
    requires k <= |x| && IsSuffix(u, x[k..])
    ensures IsSuffix(u, x)
  {
    assert x[k..][|x| - k - |u|..] == x[|x| - |u|..];
  }

  lemma SuffixOfOne(c: char, more: string, u: string)
    requires IsSuffix(u, [c] + more)
    ensures u == [c] + more || IsSuffix(u, more)
  {
    if |u| <= |more| { assert ([c] + more)[1 + |more| - |u|..] == more[|more| - |u|..]; }
  }

  lemma SuffixOf(stars: string, more: string, u: string)
    requires stars == STARS && IsSuffix(u, stars + more) && u != "" && u[0] != '*'
    ensures IsSuffix(u, more)
  {
    var x := stars + more;
    assert u[0] == x[|x| - |u|];
    assert x[|x| - |u|..] == more[|more| - |u|..];
  }

  /** No tail that could start a secret, and no front that could end one, is new. */
  ghost predicate KeepsTails(y: string, x: string) { forall u :: IsSuffix(u, y) && SafeStart(u) ==> IsSuffix(u, x) }

  ghost predicate KeepsFronts(y: string, x: string) { forall v :: v <= y && SafeEnd(v) ==> v <= x }

  lemma MaskKeeps(x: string, s: string)
    requires s != ""
    ensures KeepsTails(Mask(x, s), x) && KeepsFronts(Mask(x, s), x)
  {
    forall u | IsSuffix(u, Mask(x, s)) && SafeStart(u) ensures IsSuffix(u, x) { SafeSuffixWasThere(x, s, u); }
    forall v | v <= Mask(x, s) && SafeEnd(v) ensures v <= x { SafePrefixWasThere(x, s, v); }
  }

  lemma {:induction false} RedactKeeps(x: string, secrets: seq<string>)
    requires NonEmpty(secrets)
    ensures KeepsTails(Redact(x, secrets), x) && KeepsFronts(Redact(x, secrets), x)
    decreases |secrets|
  {
    if secrets == [] {
    } else {
      MaskKeeps(x, secrets[0]);
      RedactKeeps(Mask(x, secrets[0]), secrets[1..]);
    }
  }

  lemma PartIsSafe(w: string, u: string, v: string)
    requires StarSafe(w) && w == u + v
    ensures SafeStart(u) && SafeEnd(v)
  {
    assert "" + u + v == w && u + v + "" == w;
    if Contains(u, STARS) { ContainsInner("", u, v, STARS); }
    if Contains(v, STARS) { ContainsInner(u, v, "", STARS); }
    if u != "" { assert w[0] == u[0]; }
    if v != "" { assert w[|w| - 1] == v[|v| - 1]; }
  }

  lemma FrontWasThere(a: string, y: string, rest: string, w: string, i: int)
    requires KeepsTails(y, a) && StarSafe(w) && OccursAt(w, y + rest, i) && |y| < i + |w|
    ensures OccursAt(w, a + rest, i - |y| + |a|)
  {
    if i >= |y| {
      OccursRight(y, rest, w, i);
      OccursRight(a, rest, w, i - |y| + |a|);
    } else {
      OccursAcross(y, rest, w, i);
      var u, v := y[i..], rest[..i + |w| - |y|];
      PartIsSafe(w, u, v);
      assert IsSuffix(u, y);
      Reassemble(a, rest, u, v);
    }
  }

  lemma Reassemble(a: string, rest: string, u: string, v: string)
    requires IsSuffix(u, a) && v <= rest
    ensures OccursAt(u + v, a + rest, |a| - |u|)
  {
    assert (a + rest)[|a| - |u|..|a| + |v|] == a[|a| - |u|..] + rest[..|v|];
  }

  lemma BackWasThere(x: string, z: string, b: string, w: string, i: int)
    requires KeepsFronts(z, b) && StarSafe(w) && OccursAt(w, x + z, i) && i < |x|
    ensures OccursAt(w, x + b, i)
  {
    if i + |w| <= |x| {
      OccursLeft(x, z, w, i);
      OccursLeft(x, b, w, i);
    } else {
      OccursAcross(x, z, w, i);
      var u, v := x[i..], z[..i + |w| - |x|];
      PartIsSafe(w, u, v);
      assert v <= z;
      assert IsSuffix(u, x);
      Reassemble(x, b, u, v);
    }
  }

  /** An occurrence of a safe secret that meets the part was there before its surroundings were masked, at the
      same place. */
  lemma MeetingWasThere(a: string, y: string, m: string, b: string, z: string, w: string, i: int)
    requires KeepsTails(y, a) && KeepsFronts(z, b) && StarSafe(w)
    requires OccursAt(w, y + m + z, i) && Meets(w, y, m, i)
    ensures OccursAt(w, a + m + b, i - |y| + |a|) && Meets(w, a, m, i - |y| + |a|)
  {
    Associates(y, m, z);
    FrontWasThere(a, y, m + z, w, i);
    Associates(a, m, z);
    BackWasThere(a + m, z, b, w, i - |y| + |a|);
  }

  lemma ClearStays(a: string, y: string, m: string, b: string, z: string, w: string)
    requires KeepsTails(y, a) && KeepsFronts(z, b) && StarSafe(w) && Clear(a, m, b, w)
    ensures Clear(y, m, z, w)
  {
    forall i | OccursAt(w, y + m + z, i) ensures !Meets(w, y, m, i) {
      if Meets(w, y, m, i) { MeetingWasThere(a, y, m, b, z, w, i); }
    }
  }

  /** Redaction passes over a part that no secret meets. */
  lemma {:induction false} RedactAroundPart(a: string, m: string, b: string, secrets: seq<string>)
    requires NonEmpty(secrets) && AllSafe(secrets)
    requires forall j :: 0 <= j < |secrets| ==> Clear(a, m, b, secrets[j])
    ensures Redact(a + m + b, secrets) == Redact(a, secrets) + m + Redact(b, secrets)
    decreases |secrets|
  {
    if secrets == [] {
    } else {
      var w, more := secrets[0], secrets[1..];
      MaskAroundPart(a, m, b, w);
      MaskKeeps(a, w);
      MaskKeeps(b, w);
      forall j | 0 <= j < |more| ensures Clear(Mask(a, w), m, Mask(b, w), more[j]) {
        ClearStays(a, Mask(a, w), m, b, Mask(b, w), secrets[j + 1]);
      }
      RedactAroundPart(Mask(a, w), m, Mask(b, w), more);
    }
  }

  /** No safe secret reaches into a mask. */
  lemma StarsAreClear(a: string, b: string, w: string)
    requires StarSafe(w)
    ensures Clear(a, STARS, b, w)
  {
    var x := a + STARS + b;
    forall i | OccursAt(w, x, i) ensures !Meets(w, a, STARS, i) {
      if Meets(w, a, STARS, i) { StarsAreNotMet(a, b, w, i); }
    }
  }

  lemma StarsAreNotMet(a: string, b: string, w: string, i: nat)
    requires w != "" && OccursAt(w, a + STARS + b, i) && Meets(w, a, STARS, i)
    ensures !StarSafe(w)
  {
    var x, n := a + STARS + b, |a|;
    assert x[n] == '*' && x[n + 1] == '*' && x[n + 2] == '*';
    assert w[0] == x[i] && w[|w| - 1] == x[i + |w| - 1];
    if i < n && n + 3 <= i + |w| {
      assert w[n - i..n - i + 3] == x[n..n + 3] == STARS;
      assert OccursAt(STARS, w, n - i);
    }
  }

  // ----- A whole secret -----

  /** Of all secrets, only those inside it meet this occurrence. */
  ghost predicate Alone(a: string, s: string, b: string, secrets: seq<string>) {
    forall j, i :: 0 <= j < |secrets| && OccursAt(secrets[j], a + s + b, i) && Meets(secrets[j], a, s, i) ==>
      |a| <= i && i + |secrets[j]| <= |a| + |s|
  }

  /** Masking a secret at a place that no other occurrence of it meets. */
  lemma {:induction false} MaskHit(a: string, s: string, b: string)
    requires s != "" && forall i :: OccursAt(s, a + s + b, i) && Meets(s, a, s, i) ==> i == |a|
    ensures Mask(a + s + b, s) == Mask(a, s) + STARS + Mask(b, s)
    decreases |a|
  {
    if a == "" {
      HitFirst(s, b);
      assert "" + s + b == s + b;
    } else if s <= a + s + b {
      FitsBefore(a, s, b);
      OnlyHitRest(a, s, b, |s|);
      MaskHit(a[|s|..], s, b);
      HitBefore(a, s, b, Mask(a[|s|..], s), Mask(b, s));
    } else {
      OnlyHitRest(a, s, b, 1);
      MaskHit(a[1..], s, b);
      MissBefore(a, s, b, Mask(a[1..], s), Mask(b, s));
    }
  }

  lemma HitFirst(s: string, b: string)
    requires s != ""
    ensures Mask(s + b, s) == Mask("", s) + STARS + Mask(b, s)
  {
    assert (s + b)[|s|..] == b && Mask("", s) == "";
    assert "" + STARS + Mask(b, s) == STARS + Mask(b, s);
  }

  lemma FitsBefore(a: string, s: string, b: string)
    requires s != "" && a != "" && s <= a + s + b
    requires forall i :: OccursAt(s, a + s + b, i) && Meets(s, a, s, i) ==> i == |a|
    ensures s <= a
  {
    assert OccursAt(s, a + s + b, 0);
  }

  lemma HitBefore(a: string, s: string, b: string, y: string, z: string)
    requires s != "" && s <= a && Mask(a[|s|..], s) == y && Mask(a[|s|..] + s + b, s) == y + STARS + z
    ensures Mask(a + s + b, s) == Mask(a, s) + STARS + z
  {
    assert (a + s + b)[|s|..] == a[|s|..] + s + b && s <= a + s + b;
    Regroup(STARS, y, STARS, z);
  }

  lemma MissBefore(a: string, s: string, b: string, y: string, z: string)
    requires s != "" && a != "" && !(s <= a + s + b) && Mask(a[1..], s) == y && Mask(a[1..] + s + b, s) == y + STARS + z
    ensures Mask(a + s + b, s) == Mask(a, s) + STARS + z
  {
    MaskStep(a + s + b, s);
    DropOne(a, s, b);
    NoHitInFront(a, s, b, s);
    MaskStep(a, s);
    Regroup([a[0]], y, STARS, z);
  }

  lemma OnlyHitRest(a: string, s: string, b: string, k: nat)
    requires k <= |a| && forall i :: OccursAt(s, a + s + b, i) && Meets(s, a, s, i) ==> i == |a|
    ensures forall i :: OccursAt(s, a[k..] + s + b, i) && Meets(s, a[k..], s, i) ==> i == |a[k..]|
  {
    var x := a + s + b;
    assert a[k..] + s + b == x[k..];
    forall i | OccursAt(s, a[k..] + s + b, i) && Meets(s, a[k..], s, i) ensures i == |a[k..]| {
      OccursShift(x, s, k, i);
      assert OccursAt(s, x, i + k);
    }
  }

  /** Before its turn: secrets that are at least as long do not meet it. */
  lemma EarlierAreClear(a: string, b: string, secrets: seq<string>, k: nat, j: nat)
    requires j < k < |secrets| && LongestFirst(secrets) && Distinct(secrets) && Alone(a, secrets[k], b, secrets)
    ensures Clear(a, secrets[k], b, secrets[j])
  {
    MeetingIsEqual(a, b, secrets, k, j);
  }

  lemma MeetingIsEqual(a: string, b: string, secrets: seq<string>, k: nat, j: nat)
    requires j < k < |secrets| && LongestFirst(secrets) && Alone(a, secrets[k], b, secrets)
    ensures forall i :: OccursAt(secrets[j], a + secrets[k] + b, i) && Meets(secrets[j], a, secrets[k], i) ==>
              secrets[j] == secrets[k]
  {
    var s, w := secrets[k], secrets[j];
    forall i | OccursAt(w, a + s + b, i) && Meets(w, a, s, i) ensures w == s {
      assert |a| <= i && i + |w| <= |a| + |s| && |w| >= |s|;
      assert (a + s + b)[|a|..|a| + |s|] == s;
    }
  }

  lemma TurnIsAlone(a: string, y: string, b: string, z: string, secrets: seq<string>, k: nat)
    requires k < |secrets| && AllSafe(secrets) && Alone(a, secrets[k], b, secrets)
    requires KeepsTails(y, a) && KeepsFronts(z, b)
    ensures var s := secrets[k]; forall i :: OccursAt(s, y + s + z, i) && Meets(s, y, s, i) ==> i == |y|
  {
    var s := secrets[k];
    forall i | OccursAt(s, y + s + z, i) && Meets(s, y, s, i) ensures i == |y| {
      MeetingWasThere(a, y, s, b, z, s, i);
    }
  }

  /** For every list of safe, distinct secrets, longest first, and every text: an occurrence of a secret that no
      other secret overlaps, except inside it, becomes one mask, and what surrounds it is redacted by
      itself. */
  lemma WholeSecretIsMasked(a: string, b: string, secrets: seq<string>, k: nat)
    requires AllSafe(secrets) && LongestFirst(secrets) && Distinct(secrets) && k < |secrets|
    requires Alone(a, secrets[k], b, secrets)
    ensures NonEmpty(secrets)
    ensures Redact(a + secrets[k] + b, secrets) == Redact(a, secrets) + STARS + Redact(b, secrets)
  {
    var before, s, after := secrets[..k], secrets[k], secrets[k + 1..];
    assert secrets == before + ([s] + after);
    forall j | 0 <= j < k ensures Clear(a, s, b, before[j]) { EarlierAreClear(a, b, secrets, k, j); }
    RedactAroundPart(a, s, b, before);
    var y, z := Redact(a, before), Redact(b, before);
    RedactKeeps(a, before);
    RedactKeeps(b, before);
    TurnIsAlone(a, y, b, z, secrets, k);
    MaskHit(y, s, z);
    forall j | 0 <= j < |after| ensures Clear(Mask(y, s), STARS, Mask(z, s), after[j]) {
      StarsAreClear(Mask(y, s), Mask(z, s), secrets[k + 1 + j]);
    }
    RedactAroundPart(Mask(y, s), STARS, Mask(z, s), after);
    InThreeParts(a + s + b, before, s, after);
    InThreeParts(a, before, s, after);
    InThreeParts(b, before, s, after);
  }

  lemma InThreeParts(x: string, before: seq<string>, s: string, after: seq<string>)
    requires NonEmpty(before) && s != "" && NonEmpty(after)
    ensures NonEmpty(before + ([s] + after))
    ensures Redact(x, before + ([s] + after)) == Redact(Mask(Redact(x, before), s), after)
  {
    MaskedInOrder(x, before, [s] + after);
    assert ([s] + after)[0] == s && ([s] + after)[1..] == after;
  }

  /** A text that is a secret becomes one mask, whatever other secrets it contains. */
  lemma SecretItselfIsMasked(secrets: seq<string>, k: nat)
    requires AllSafe(secrets) && LongestFirst(secrets) && Distinct(secrets) && k < |secrets|
    ensures NonEmpty(secrets) && Redact(secrets[k], secrets) == STARS
  {
    var s := secrets[k];
    assert "" + s + "" == s;
    RedactEmpty(secrets);
    WholeSecretIsMasked("", "", secrets, k);
    assert "" + STARS + "" == STARS;
  }

  lemma RedactEmpty(secrets: seq<string>)
    requires AllSafe(secrets)
    ensures NonEmpty(secrets) && Redact("", secrets) == ""
  {
    forall j | 0 <= j < |secrets| ensures !Contains("", secrets[j]) { assert secrets[j] != ""; }
    RedactAbsent("", secrets);
  }

  /** Overlapping secrets are another matter: the one that is masked first leaves the end of the other. */
  lemma OverlapLeavesTheEnd()
    ensures Redact("abcdef", ["abcd", "cdef"]) == "***ef"
  {
    var x := "abcdef";
    assert x[..4] == "abcd" && x[4..] == "ef";
    assert Mask("ef", "abcd") == "ef";
    assert Mask(x, "abcd") == STARS + "ef" == "***ef";
    assert ["abcd", "cdef"][1..] == ["cdef"];
    RedactOne("***ef", "cdef");
    assert "***ef"[0] == '*' && "***ef"[1] == '*';
    assert "***ef"[1..] == "**ef" && Mask("**ef"[1..], "cdef") == "*ef";
    assert !("cdef" <= "***ef") && !("cdef" <= "**ef");
  }

  // ----- A whole secret in the stream -----

  /** No secret, the one itself apart, ends before the last character of this one. */
  ghost predicate EndsFirst(s: string, secrets: seq<string>)
    requires s != ""
  {
    forall j :: 0 <= j < |secrets| ==> !Contains(s[..|s| - 1], secrets[j])
  }

  lemma {:induction false} ContainsPrefix(x: string, n: nat, w: string)
    requires n <= |x| && Contains(x[..n], w)
    ensures Contains(x, w)
  {
    var i :| OccursAt(w, x[..n], i);
    assert x[i..i + |w|] == x[..n][i..i + |w|];
    assert OccursAt(w, x, i);
  }

  /** A proper beginning of the secret is held back as it is. */
  lemma BeginningIsHeld(u: string, secrets: seq<string>, k: nat)
    requires k < |secrets| && AllSafe(secrets) && |u| < |secrets[k]| && u <= secrets[k]
    requires EndsFirst(secrets[k], secrets)
    ensures NonEmpty(secrets) && Redact(u, secrets) == u && Held(u, secrets) == |u|
  {
    var s := secrets[k];
    var most := s[..|s| - 1];
    assert u == most[..|u|] == s[..|u|];
    forall j | 0 <= j < |secrets| ensures !Contains(u, secrets[j]) {
      if Contains(u, secrets[j]) { ContainsPrefix(most, |u|, secrets[j]); }
    }
    RedactAbsent(u, secrets);
    assert u[|u| - |u|..] == u;
    assert Grows(u, s, |u|);
    assert CanGrow(u, secrets, |u|);
  }

  lemma NothingHeld(secrets: seq<string>)
    requires AllSafe(secrets)
    ensures Held(STARS, secrets) == 0
  {
    forall m: nat | 0 < m <= 3 ensures !CanGrow(STARS, secrets, m) {
      forall j | 0 <= j < |secrets| ensures !Grows(STARS, secrets[j], m) {
        StarsGrow(secrets[j], m);
      }
    }
  }

  lemma StarsGrow(s: string, m: nat)
    requires s != "" && 0 < m <= 3
    ensures Grows(STARS, s, m) ==> s[0] == '*'
  {
    if Grows(STARS, s, m) { assert STARS[3 - m..][0] == s[..m][0]; }
  }

  /** What the stream has done with a beginning of the secret. */
  ghost function SoFar(u: string, s: string): Progress { if u == s then Progress(STARS, "") else Progress("", u) }

  lemma ChunkOfSecret(u: string, c: string, secrets: seq<string>, k: nat)
    requires k < |secrets| && AllSafe(secrets) && LongestFirst(secrets) && Distinct(secrets)
    requires u + c <= secrets[k] && EndsFirst(secrets[k], secrets)
    ensures NonEmpty(secrets) && Step(SoFar(u, secrets[k]), c, secrets) == SoFar(u + c, secrets[k])
  {
    var s := secrets[k];
    if u == s {
      assert c == "" && u + c == s && "" + c == "";
      RedactEmpty(secrets);
      assert STARS + "" == STARS;
    } else {
      var x := u + c;
      assert "" + STARS == STARS;
      if x == s {
        SecretItselfIsMasked(secrets, k);
        NothingHeld(secrets);
        assert STARS[..3] == STARS && STARS[3..] == "";
      } else {
        BeginningIsHeld(x, secrets, k);
        assert x[..0] == "" && x[0..] == x;
      }
    }
  }

  lemma {:induction false} FeedOfSecret(chunks: seq<string>, secrets: seq<string>, k: nat)
    requires k < |secrets| && AllSafe(secrets) && LongestFirst(secrets) && Distinct(secrets)
    requires Concat(chunks) <= secrets[k] && EndsFirst(secrets[k], secrets)
    ensures NonEmpty(secrets) && Feed(chunks, secrets) == SoFar(Concat(chunks), secrets[k])
    decreases |chunks|
  {
    if chunks == [] {
    } else {
      var before, last := chunks[..|chunks| - 1], chunks[|chunks| - 1];
      FeedOfSecret(before, secrets, k);
      ChunkOfSecret(Concat(before), last, secrets, k);
    }
  }

  lemma OutputOfSecret(chunks: seq<string>, secrets: seq<string>, k: nat)
    requires k < |secrets| && AllSafe(secrets) && LongestFirst(secrets) && Distinct(secrets)
    requires Concat(chunks) == secrets[k] && EndsFirst(secrets[k], secrets)
    ensures NonEmpty(secrets) && Output(chunks, secrets) == STARS
  {
    FeedOfSecret(chunks, secrets, k);
    RedactEmpty(secrets);
    assert STARS + "" == STARS;
  }

  lemma {:induction false} RedactKeepsSomething(x: string, secrets: seq<string>)
    requires NonEmpty(secrets) && x != ""
    ensures Redact(x, secrets) != ""
    decreases |secrets|
  {
    if secrets == [] {
    } else {
      RedactKeepsSomething(Mask(x, secrets[0]), secrets[1..]);
    }
  }

  /** A mask that has been made is let through at once. */
  lemma MaskIsEmitted(x: string, secrets: seq<string>)
    requires AllSafe(secrets) && NonEmpty(secrets) && Contains(Redact(x, secrets), STARS)
    ensures |Redact(x, secrets)| - Held(Redact(x, secrets), secrets) >= 3
  {
    var r := Redact(x, secrets);
    var h := Held(r, secrets);
    var i :| OccursAt(STARS, r, i);
    if h > 0 {
      var j :| 0 <= j < |secrets| && Grows(r, secrets[j], h);
      HeldHasNoMask(r, secrets[j], h, i);
    }
  }

  lemma HeldHasNoMask(r: string, s: string, h: nat, i: nat)
    requires s != "" && s[0] != '*' && 0 < h && Grows(r, s, h) && OccursAt(STARS, r, i)
    ensures i + 3 <= |r| - h || Contains(s, STARS)
  {
    var n := |r| - h;
    assert r[n..] == s[..h] && r[n] == s[0];
    assert r[i..i + 3] == STARS;
    assert r[i] == r[i..i + 3][0] && r[i + 1] == r[i..i + 3][1] && r[i + 2] == r[i..i + 3][2];
    if i >= n {
      assert s[..h][i - n..i - n + 3] == r[n..][i - n..i - n + 3] == r[i..i + 3];
      assert s[i - n..i - n + 3] == s[..h][i - n..i - n + 3];
      assert OccursAt(STARS, s, i - n);
    }
  }

  /** The first chunk is all but the last character. */
  function AllButLast(s: string): seq<string>
    requires s != ""
  {
    [s[..|s| - 1], s[|s| - 1..]]
  }

  lemma EarlyMaskShows(secrets: seq<string>, k: nat, j: nat)
    requires k < |secrets| && j < |secrets| && AllSafe(secrets) && Contains(secrets[k][..|secrets[k]| - 1], secrets[j])
    ensures NonEmpty(secrets) && Concat(AllButLast(secrets[k])) == secrets[k]
    ensures |Output(AllButLast(secrets[k]), secrets)| > 3
  {
    var s := secrets[k];
    var u, z := s[..|s| - 1], s[|s| - 1..];
    ConcatTwo(u, z);
    assert u + z == s;
    var r := Redact(u, secrets);
    RedactRemoves(u, secrets, j);
    if !Contains(r, STARS) { RedactNoTriple(u, secrets); }
    MaskIsEmitted(u, secrets);
    TwoChunks(u, z, secrets);
  }

  lemma TwoChunks(u: string, z: string, secrets: seq<string>)
    requires NonEmpty(secrets) && z != "" && |Redact(u, secrets)| - Held(Redact(u, secrets), secrets) >= 3
    ensures |Output([u, z], secrets)| > 3
  {
    var p := Feed([u], secrets);
    FeedNext([], u, secrets);
    assert [] + [u] == [u] && "" + u == u;
    assert |p.emitted| >= 3;
    FeedNext([u], z, secrets);
    assert [u] + [z] == [u, z];
    RedactKeepsSomething(p.carry + z, secrets);
    var q := Step(p, z, secrets);
    assert |q.emitted| + |q.carry| == |p.emitted| + |Redact(p.carry + z, secrets)|;
    if q.carry != "" { RedactKeepsSomething(q.carry, secrets); }
  }

  /** For every list of safe, distinct secrets, longest first: a secret that is all the text becomes one mask
      under every chunking exactly when no secret ends before its last character.  Otherwise cutting off that
      character shows the end of it. */
  lemma WholeInStreamExactly(secrets: seq<string>, k: nat)
    requires AllSafe(secrets) && LongestFirst(secrets) && Distinct(secrets) && k < |secrets|
    ensures NonEmpty(secrets)
    ensures (forall chunks :: Concat(chunks) == secrets[k] ==> Output(chunks, secrets) == STARS)
       <==> EndsFirst(secrets[k], secrets)
  {
    if EndsFirst(secrets[k], secrets) {
      forall chunks | Concat(chunks) == secrets[k] ensures Output(chunks, secrets) == STARS {
        OutputOfSecret(chunks, secrets, k);
      }
    } else {
      var j :| 0 <= j < |secrets| && Contains(secrets[k][..|secrets[k]| - 1], secrets[j]);
      EarlyMaskShows(secrets, k, j);
    }
  }

  /** Such lists, although longest first: every user name and every password that is the user name and two more
      characters.  Cut before its last character, these two are shown. */
  lemma PasswordEndShows(user: string, c: char, d: char)
    requires |user| >= 2 && '*' !in user && c != '*' && d != '*' && c != user[0]
    ensures var password := user + [c, d];
            var secrets := [password, user];
            && AllSafe(secrets) && LongestFirst(secrets) && Distinct(secrets) && NonEmpty(secrets)
            && Concat([user + [c], [d]]) == password && Output([user + [c], [d]], secrets) == STARS + [c, d]
  {
    TwoLetterSafe(user + [c, d], user);
    EndIsShown(user, c, d, user + [c, d]);
  }

  lemma TwoLetterSafe(s: string, w: string)
    requires 0 < |w| < |s| && '*' !in s && '*' !in w
    ensures var secrets := [s, w];
            AllSafe(secrets) && LongestFirst(secrets) && Distinct(secrets) && NonEmpty(secrets)
  {
    LetterSafe(s);
    LetterSafe(w);
  }

  lemma EndIsShown(user: string, c: char, d: char, password: string)
    requires |user| >= 2 && '*' !in user && c != user[0] && password == user + [c, d]
    ensures Concat([user + [c], [d]]) == password && Output([user + [c], [d]], [password, user]) == STARS + [c, d]
  {
    var x := user + [c];
    ConcatTwo(x, [d]);
    assert x + [d] == password;
    FirstChunkShows(password, user, c);
    SecondPasses(x, [d], password, user, STARS + [c]);
    assert STARS + [c] + [d] == STARS + [c, d];
  }

  lemma FirstChunkShows(s: string, w: string, c: char)
    requires |w| >= 2 && |s| > |w| + 1 && s[0] == w[0] && w[0] != '*' && w[0] != c
    ensures Step(Progress("", ""), w + [c], [s, w]) == Progress(STARS + [c], "")
  {
    var secrets, r := [s, w], STARS + [c];
    RedactTwo(w + [c], s, w);
    MaskFront(w, c);
    NoFirstCharacter(r, s, w);
    StepEmits(w + [c], secrets, r);
  }

  lemma RedactTwo(x: string, s: string, w: string)
    requires s != "" && w != ""
    ensures Redact(x, [s, w]) == Mask(Mask(x, s), w)
  {
    assert [s, w][0] == s && [s, w][1..] == [w];
    RedactOne(Mask(x, s), w);
  }

  lemma MaskFront(w: string, c: char)
    requires |w| >= 2
    ensures Mask(w + [c], w) == STARS + [c]
  {
    assert (w + [c])[|w|..] == [c];
    assert Mask([c], w) == [c];
  }

  lemma NoFirstCharacter(r: string, s: string, w: string)
    requires s != "" && w != "" && s[0] !in r && w[0] !in r
    ensures Held(r, [s, w]) == 0
  {
    var k := Held(r, [s, w]);
    if k > 0 {
      var j :| 0 <= j < 2 && Grows(r, [s, w][j], k);
      GrowsFromFirst(r, [s, w][j], k);
    }
  }

  lemma GrowsFromFirst(r: string, s: string, k: nat)
    requires k > 0 && Grows(r, s, k)
    ensures s[0] in r
  {
    assert s[..k][0] == s[0] && r[|r| - k..][0] == r[|r| - k];
  }

  lemma StepEmits(x: string, secrets: seq<string>, r: string)
    requires NonEmpty(secrets) && r == Redact(x, secrets) && Held(r, secrets) == 0
    ensures Step(Progress("", ""), x, secrets) == Progress(r, "")
  {
    assert "" + x == x && r[..|r|] == r && "" + r == r;
  }

  /** A second chunk too short for either secret is let through. */
  lemma SecondPasses(x: string, y: string, s: string, w: string, out: string)
    requires |y| < 2 <= |w| <= |s| && Step(Progress("", ""), x, [s, w]) == Progress(out, "")
    ensures Output([x, y], [s, w]) == out + y
  {
    FeedTwo(x, y, [s, w]);
    forall n | 0 <= n <= |y| ensures Redact(y[n..], [s, w]) == y[n..] {
      ShortIsKept(y[n..], s, w);
    }
    LastChunk(Progress(out, ""), y, [s, w]);
  }

  lemma FeedTwo(x: string, y: string, secrets: seq<string>)
    requires NonEmpty(secrets)
    ensures Feed([x, y], secrets) == Step(Step(Progress("", ""), x, secrets), y, secrets)
  {
    FeedNext([], x, secrets);
    FeedNext([x], y, secrets);
    assert [] + [x] == [x] && [x] + [y] == [x, y];
  }

  lemma LastChunk(p: Progress, y: string, secrets: seq<string>)
    requires NonEmpty(secrets) && p.carry == "" && forall n :: 0 <= n <= |y| ==> Redact(y[n..], secrets) == y[n..]
    ensures var q := Step(p, y, secrets); q.emitted + Redact(q.carry, secrets) == p.emitted + y
  {
    assert "" + y == y && y[0..] == y;
    var n := |y| - Held(y, secrets);
    Associates(p.emitted, y[..n], y[n..]);
    assert y[..n] + y[n..] == y;
  }

  lemma ShortIsKept(x: string, s: string, w: string)
    requires |x| < 2 <= |w| <= |s|
    ensures Redact(x, [s, w]) == x
  {
    RedactTwo(x, s, w);
  }

  lemma LetterSafe(s: string)
    requires s != "" && forall i :: 0 <= i < |s| ==> s[i] != '*'
    ensures StarSafe(s)
  {
    forall i ensures !OccursAt(STARS, s, i) {
      if 0 <= i && i + 3 <= |s| { assert s[i..i + 3][0] == s[i]; }
    }
  }
}
