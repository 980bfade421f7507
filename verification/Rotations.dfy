/** The cyclic rotations of a string, compared on a prefix. */
module Rotations {
  import opened Permutations

  function Next(n: nat, p: nat): (q: nat)
    requires p < n
    ensures q < n
  {
    if p + 1 == n then 0 else p + 1
  }

  function Prev(n: nat, p: nat): (q: nat)
    requires p < n
    ensures q < n && Next(n, q) == p
  {
    if p == 0 then n - 1 else p - 1
  }

  /** The conditional subtraction that replaces a division when x is below 2n. */
  function Wrap(n: nat, x: nat): nat {
    if x >= n then x - n else x
  }

  /** k steps forward around the circle. */
  function Advance(n: nat, p: nat, k: nat): (q: nat)
    requires p < n
    ensures q < n
    decreases k
  {
    if k == 0 then p else Advance(n, Next(n, p), k - 1)
  }

  lemma {:induction false} AdvanceWrap(n: nat, p: nat, k: nat)
    requires p < n && k <= n
    ensures Advance(n, p, k) == Wrap(n, p + k)
    decreases k
  {
    if k > 0 { AdvanceWrap(n, Next(n, p), k - 1); }
  }

  lemma {:induction false} AdvanceLast(n: nat, p: nat, k: nat)
    requires p < n
    ensures Advance(n, p, k + 1) == Next(n, Advance(n, p, k))
    decreases k
  {
    if k > 0 { AdvanceLast(n, Next(n, p), k - 1); }
  }

  /** Compares the first h characters of the rotations at p and q: negative, zero or positive. */
  function Cmp(s: seq<int>, p: nat, q: nat, h: nat): (c: int)
    requires p < |s| && q < |s|
    ensures -1 <= c <= 1
    decreases h
  {
    if h == 0 then 0
    else if s[p] < s[q] then -1
    else if s[p] > s[q] then 1
    else Cmp(s, Next(|s|, p), Next(|s|, q), h - 1)
  }

  lemma {:induction false} CmpSplit(s: seq<int>, p: nat, q: nat, a: nat, b: nat)
    requires p < |s| && q < |s|
    ensures Cmp(s, p, q, a + b)
         == if Cmp(s, p, q, a) != 0 then Cmp(s, p, q, a)
            else Cmp(s, Advance(|s|, p, a), Advance(|s|, q, a), b)
    decreases a
  {
    if a > 0 && s[p] == s[q] { CmpSplit(s, Next(|s|, p), Next(|s|, q), a - 1, b); }
  }

  lemma {:induction false} CmpMirror(s: seq<int>, p: nat, q: nat, h: nat)
    requires p < |s| && q < |s|
    ensures Cmp(s, q, p, h) == -Cmp(s, p, q, h)
    decreases h
  {
    if h > 0 { CmpMirror(s, Next(|s|, p), Next(|s|, q), h - 1); }
  }

  lemma {:induction false} CmpReflexive(s: seq<int>, p: nat, h: nat)
    requires p < |s|
    ensures Cmp(s, p, p, h) == 0
    decreases h
  {
    if h > 0 { CmpReflexive(s, Next(|s|, p), h - 1); }
  }

  lemma {:induction false} CmpTransitive(s: seq<int>, p: nat, q: nat, r: nat, h: nat)
    requires p < |s| && q < |s| && r < |s|
    requires Cmp(s, p, q, h) <= 0 && Cmp(s, q, r, h) <= 0
    ensures Cmp(s, p, r, h) <= 0
    ensures Cmp(s, p, r, h) == 0 <==> Cmp(s, p, q, h) == 0 && Cmp(s, q, r, h) == 0
    decreases h
  {
    if h > 0 && s[p] == s[q] && s[q] == s[r] {
      CmpTransitive(s, Next(|s|, p), Next(|s|, q), Next(|s|, r), h - 1);
    }
  }

  /** A comparison of a longer prefix is never the other way round. */
  lemma CmpPrefix(s: seq<int>, p: nat, q: nat, a: nat, h: nat)
    requires p < |s| && q < |s| && a <= h
    ensures Cmp(s, p, q, a) != 0 ==> Cmp(s, p, q, h) == Cmp(s, p, q, a)
    ensures Cmp(s, p, q, h) <= 0 ==> Cmp(s, p, q, a) <= 0
  {
    CmpSplit(s, p, q, a, h - a);
  }

  /** Rotations that agree all the way round agree for ever. */
  lemma {:induction false} CmpPeriodic(s: seq<int>, p: nat, q: nat, h: nat)
    requires p < |s| && q < |s| && Cmp(s, p, q, |s|) == 0
    ensures Cmp(s, p, q, h) == 0
    decreases h
  {
    var n := |s|;
    if h <= n {
      CmpSplit(s, p, q, h, n - h);
    } else {
      CmpSplit(s, p, q, n, h - n);
      AdvanceWrap(n, p, n);
      AdvanceWrap(n, q, n);
      CmpPeriodic(s, p, q, h - n);
    }
  }

  lemma EqualAfterStep(s: seq<int>, p: nat, q: nat)
    requires p < |s| && q < |s| && Cmp(s, p, q, |s|) == 0
    ensures s[p] == s[q] && Cmp(s, Next(|s|, p), Next(|s|, q), |s|) == 0
  {
    CmpPeriodic(s, p, q, |s| + 1);
  }

  // ---------- sorted rotations ----------

  /** sa lists the rotation starts of s in lexicographic order; equal rotations may come in any order. */
  ghost predicate RotationOrder(s: seq<int>, sa: seq<int>) {
    && IsPermutation(sa, |s|)
    && forall i, j :: 0 <= i < j < |s| ==> Cmp(s, sa[i], sa[j], |s|) <= 0
  }

  /** Two sorted lists of the rotations agree at every place, up to equality of rotations. */
  lemma SortedListsAgree(s: seq<int>, a: seq<int>, b: seq<int>, j: nat)
    requires RotationOrder(s, a) && RotationOrder(s, b) && j < |s|
    ensures Cmp(s, a[j], b[j], |s|) == 0
  {
    NotAbove(s, a, b, j);
    NotAbove(s, b, a, j);
    CmpMirror(s, a[j], b[j], |s|);
  }

  lemma NotAbove(s: seq<int>, a: seq<int>, b: seq<int>, j: nat)
    requires RotationOrder(s, a) && RotationOrder(s, b) && j < |s|
    ensures Cmp(s, a[j], b[j], |s|) <= 0
  {
    // One of b[0..j] stands at j or later in a, so a[j] <= it <= b[j].
    var n := |s|;
    var i := TooMany(b[..j + 1], a[..j]);
    var m := IndexIn(a, n, b[i]);
    assert forall k :: 0 <= k < j ==> a[k] in a[..j];
    assert m == j || (m > j && Cmp(s, a[j], a[m], n) <= 0);
    assert i == j || Cmp(s, b[i], b[j], n) <= 0;
    hide *;
    CmpReflexive(s, a[j], n);
    CmpReflexive(s, b[j], n);
    CmpTransitive(s, a[j], b[i], b[j], n);
  }

  // ---------- the rotations as strings ----------

  function Rotation<T>(s: seq<T>, p: nat): (r: seq<T>)
    requires p <= |s|
    ensures |r| == |s|
  {
    s[p..] + s[..p]
  }

  ghost predicate FirstDifference(a: seq<int>, b: seq<int>, k: nat)
    requires k < |a| == |b|
  {
    (forall j :: 0 <= j < k ==> a[j] == b[j]) && a[k] != b[k]
  }

  /** Strict lexicographic order of strings of the same length. */
  ghost predicate LexLess(a: seq<int>, b: seq<int>) {
    && |a| == |b|
    && exists k :: 0 <= k < |a| && FirstDifference(a, b, k) && a[k] < b[k]
  }

  lemma {:induction false} CmpMeaning(s: seq<int>, p: nat, q: nat, h: nat, k: nat)
    requires p < |s| && q < |s| && k <= h == |s|
    requires forall j :: 0 <= j < k ==> Rotation(s, p)[j] == Rotation(s, q)[j]
    ensures Cmp(s, Wrap(|s|, p + k), Wrap(|s|, q + k), h - k) == 0 ==> Rotation(s, p) == Rotation(s, q)
    ensures Cmp(s, Wrap(|s|, p + k), Wrap(|s|, q + k), h - k) < 0 ==> LexLess(Rotation(s, p), Rotation(s, q))
    decreases h - k
  {
    if k < h {
      var a, b := Rotation(s, p), Rotation(s, q);
      assert a[k] == s[Wrap(|s|, p + k)] && b[k] == s[Wrap(|s|, q + k)];
      if a[k] == b[k] {
        CmpMeaning(s, p, q, h, k + 1);
      } else {
        assert FirstDifference(a, b, k);
      }
    }
  }

  /** A negative comparison means lexicographically smaller, zero means the same string. */
  lemma CmpIsLexicographic(s: seq<int>, p: nat, q: nat)
    requires p < |s| && q < |s|
    ensures Cmp(s, p, q, |s|) == 0 <==> Rotation(s, p) == Rotation(s, q)
    ensures Cmp(s, p, q, |s|) < 0 <==> LexLess(Rotation(s, p), Rotation(s, q))
  {
    var a, b := Rotation(s, p), Rotation(s, q);
    CmpMeaning(s, p, q, |s|, 0);
    CmpMeaning(s, q, p, |s|, 0);
    CmpMirror(s, p, q, |s|);
    if LexLess(a, b) { LexAsymmetric(a, b); }
    if LexLess(b, a) { LexAsymmetric(b, a); }
  }

  lemma LexAsymmetric(a: seq<int>, b: seq<int>)
    requires LexLess(a, b)
    ensures a != b && !LexLess(b, a)
  {
    var k :| 0 <= k < |a| && FirstDifference(a, b, k) && a[k] < b[k];
    forall l | 0 <= l < |a| && FirstDifference(b, a, l) ensures b[l] >= a[l] {
      assert l == k;
    }
  }
}
