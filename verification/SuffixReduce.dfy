/** The reduced problem of induced sorting: equal stretches get equal names, and the names in text order are a string
    whose suffixes are ordered as the leftmost S suffixes are. */
module SuffixReduce {
  import opened Permutations
  import opened SuffixOrder
  import opened SuffixRanks
  import opened SuffixInduce

  // ---------- picking elements in order ----------

  function Filter(l: seq<int>, keep: int -> bool): (r: seq<int>)
    ensures |r| <= |l|
    ensures forall x :: x in r <==> x in l && keep(x)
  {
    if |l| == 0 then []
    else
      var x := l[|l| - 1];
      assert l == l[..|l| - 1] + [x];
      Filter(l[..|l| - 1], keep) + (if keep(x) then [x] else [])
  }

  ghost predicate Pairwise(l: seq<int>, r: (int, int) -> bool) {
    forall i, j :: 0 <= i < j < |l| ==> r(l[i], l[j])
  }

  lemma {:induction false} FilterPairwise(l: seq<int>, keep: int -> bool, r: (int, int) -> bool)
    requires Pairwise(l, r)
    ensures Pairwise(Filter(l, keep), r)
    decreases |l|
  {
    if |l| > 0 {
      var m, x := l[..|l| - 1], l[|l| - 1];
      FilterPairwise(m, keep, r);
      var f := Filter(m, keep);
      forall i | 0 <= i < |f| ensures r(f[i], x) {
        assert f[i] in m;
        var k :| 0 <= k < |m| && m[k] == f[i];
        assert l[k] == f[i];
      }
    }
  }

  lemma FilterInjective(l: seq<int>, keep: int -> bool)
    requires Injective(l)
    ensures Injective(Filter(l, keep))
  {
    FilterPairwise(l, keep, (x, y) => x != y);
  }

  lemma FilterStep(l: seq<int>, keep: int -> bool, i: nat)
    requires i < |l|
    ensures Filter(l[..i + 1], keep) == Filter(l[..i], keep) + (if keep(l[i]) then [l[i]] else [])
  {
    assert l[..i + 1][..i] == l[..i];
  }

  lemma {:induction false} FilterPrefix(l: seq<int>, keep: int -> bool, i: nat)
    requires i <= |l|
    ensures Filter(l[..i], keep) <= Filter(l, keep)
    decreases |l| - i
  {
    if i == |l| {
      assert l[..i] == l;
    } else {
      FilterPrefix(l, keep, i + 1);
      FilterStep(l, keep, i);
    }
  }

  /** Two permutations keep equally many. */
  lemma FilterCount(a: seq<int>, b: seq<int>, n: nat, keep: int -> bool)
    requires IsPermutation(a, n) && IsPermutation(b, n)
    ensures |Filter(a, keep)| == |Filter(b, keep)|
  {
    var fa, fb := Filter(a, keep), Filter(b, keep);
    FilterInjective(a, keep);
    FilterInjective(b, keep);
    InjectiveSize(fa);
    InjectiveSize(fb);
    forall x ensures x in fa <==> x in fb {
      if x in a { PermutationHits(b, n, x); }
      if x in b { PermutationHits(a, n, x); }
    }
    assert Elements(fa) == Elements(fb);
  }

  // ---------- the leftmost S positions in text order ----------

  function LmsTest(s: seq<int>): int -> bool {
    p => 0 <= p < |s| && IsLms(s, p)
  }

  function LmsList(s: seq<int>): seq<int> {
    Filter(Identity(|s|), LmsTest(s))
  }

  lemma LmsListFacts(s: seq<int>)
    requires Terminated(s) && |s| >= 2
    ensures var l := LmsList(s);
            && (forall k :: 0 <= k < |l| ==> 0 <= l[k] < |s| && IsLms(s, l[k]))
            && (forall j, k :: 0 <= j < k < |l| ==> l[j] < l[k])
            && (forall p :: 0 <= p < |s| && IsLms(s, p) ==> p in l)
            && |l| > 0 && l[|l| - 1] == |s| - 1
  {
    var l := LmsList(s);
    FilterPairwise(Identity(|s|), LmsTest(s), (x, y) => x < y);
    assert forall j, k :: 0 <= j < k < |l| ==> ((x, y) => x < y)(l[j], l[k]);
    forall p | 0 <= p < |s| && IsLms(s, p) ensures p in l {
      assert Identity(|s|)[p] == p;
      assert p in Identity(|s|) && LmsTest(s)(p);
    }
    forall k | 0 <= k < |l| ensures 0 <= l[k] < |s| && IsLms(s, l[k]) { assert l[k] in l; }
    LastIsLms(s);
    var k :| 0 <= k < |l| && l[k] == |s| - 1;
    Rising(l, k, |l| - 1);
  }

  lemma Rising(l: seq<int>, j: nat, k: nat)
    requires j < |l| && k < |l| && forall a, b :: 0 <= a < b < |l| ==> l[a] < l[b]
    ensures j < k ==> l[j] < l[k]
  {}

  lemma LastIsLms(s: seq<int>)
    requires Terminated(s) && |s| >= 2
    ensures IsLms(s, |s| - 1)
  {
    TypeFacts(s, |s| - 2);
  }

  /** Leftmost S positions are at least two apart, so the reduced string is at most half as long. */
  lemma {:induction false} LmsApart(s: seq<int>, k: nat)
    requires Terminated(s) && |s| >= 2 && k < |LmsList(s)|
    ensures LmsList(s)[k] >= 2 * k + 1
    decreases k
  {
    LmsListFacts(s);
    var l := LmsList(s);
    if k > 0 {
      LmsApart(s, k - 1);
      assert l[k - 1] < l[k];
      assert IsLms(s, l[k]) && IsLms(s, l[k - 1]);
    }
  }

  lemma AtMostHalf(s: seq<int>)
    requires Terminated(s) && |s| >= 2
    ensures 0 < 2 * |LmsList(s)| <= |s|
  {
    LmsListFacts(s);
    LmsApart(s, |LmsList(s)| - 1);
  }

  /** The list steps from each leftmost S position to the next. */
  lemma LmsListNext(s: seq<int>, k: nat)
    requires Terminated(s) && |s| >= 2 && k + 1 < |LmsList(s)|
    ensures 0 <= LmsList(s)[k] < |s| - 1 && LmsList(s)[k + 1] == NextLms(s, LmsList(s)[k])
  {
    LmsListFacts(s);
    var l := LmsList(s);
    assert l[k] < l[k + 1];
    NextLmsIs(s, l[k]);
    var next := NextLms(s, l[k]);
    var j :| 0 <= j < |l| && l[j] == next;
    Rising(l, j, k);
    Rising(l, k + 1, j);
  }

  // ---------- names ----------

  /** Names that say how the stretches compare. */
  ghost predicate Named(s: seq<int>, name: seq<int>) {
    && Terminated(s) && |name| == |s|
    && forall p, q :: 0 <= p < |s| && 0 <= q < |s| && IsLms(s, p) && IsLms(s, q) ==>
         Sign(name[p], name[q]) == Stretch(s, p, q, false)
  }

  /** The names of the leftmost S positions in text order. */
  function Reduced(s: seq<int>, name: seq<int>): (r: seq<int>)
    requires |name| == |s|
    ensures |r| == |LmsList(s)|
    ensures forall k :: 0 <= k < |r| ==> 0 <= LmsList(s)[k] < |s| && r[k] == name[LmsList(s)[k]]
  {
    var l := LmsList(s);
    assert forall k :: 0 <= k < |l| ==> l[k] in l && LmsTest(s)(l[k]);
    seq(|l|, k requires 0 <= k < |l| => name[l[k]])
  }

  /** The last name is 0 and no other is. */
  lemma ReducedTerminated(s: seq<int>, name: seq<int>)
    requires Named(s, name) && |s| >= 2 && name[|s| - 1] == 0
    ensures Terminated(Reduced(s, name))
  {
    LmsListFacts(s);
    var l, r, n := LmsList(s), Reduced(s, name), |s|;
    forall k | 0 <= k < |l| - 1 ensures r[k] > 0 {
      assert l[k] < l[|l| - 1];
      assert Stretch(s, n - 1, l[k], false) == -1;
      assert Sign(name[n - 1], name[l[k]]) == -1;
    }
  }

  /** The reduced string orders its suffixes as the text orders the leftmost S suffixes. */
  lemma {:induction false} ReducedOrder(s: seq<int>, name: seq<int>, i: nat, j: nat)
    requires Named(s, name) && |s| >= 2 && name[|s| - 1] == 0
    requires i < |Reduced(s, name)| && j < |Reduced(s, name)|
    ensures Terminated(Reduced(s, name))
    ensures Suffix(Reduced(s, name), i, j) == Suffix(s, LmsList(s)[i], LmsList(s)[j])
    decreases |Reduced(s, name)| - i
  {
    hide LmsList, IsLms, NextLms;
    ReducedTerminated(s, name);
    LmsListFacts(s);
    var l, r := LmsList(s), Reduced(s, name);
    assert i < j ==> l[i] < l[j];
    assert j < i ==> l[j] < l[i];
    if i != j {
      assert Sign(r[i], r[j]) == Stretch(s, l[i], l[j], false);
      StretchDecides(s, l[i], l[j], false);
      if r[i] == r[j] {
        ReducedOrder(s, name, i + 1, j + 1);
        NextStretch(s, i);
        NextStretch(s, j);
      }
    }
  }

  lemma NextStretch(s: seq<int>, i: nat)
    requires Terminated(s) && |s| >= 2 && i + 1 < |LmsList(s)|
    ensures 0 <= LmsList(s)[i] < |s| && StretchEnd(s, LmsList(s)[i], false) == LmsList(s)[i + 1]
  {
    LmsListNext(s, i);
  }

  /** The suffixes in increasing order. */
  ghost predicate SuffixSorted(s: seq<int>, sa: seq<int>) {
    && Terminated(s) && IsPermutation(sa, |s|)
    && forall i, j :: 0 <= i < j < |s| ==> Suffix(s, sa[i], sa[j]) < 0
  }

  /** When all names differ, the positions in the order of their names are sorted. */
  lemma DistinctNamesSorted(r: seq<int>, sa: seq<int>)
    requires Terminated(r) && IsPermutation(r, |r|) && |sa| == |r|
    requires forall i :: 0 <= i < |r| ==> sa[r[i]] == i
    ensures SuffixSorted(r, sa)
  {
    forall a | 0 <= a < |r| ensures 0 <= sa[a] < |r| && r[sa[a]] == a {
      var i := IndexIn(r, |r|, a);
      assert sa[r[i]] == i;
    }
  }

  // ---------- true base numbers ----------

  ghost function SuffixesBelow(s: seq<int>, p: nat): set<int>
    requires Terminated(s) && p < |s|
  {
    set q | 0 <= q < |s| && Suffix(s, q, p) < 0
  }

  lemma {:induction false} SuffixTransitive(s: seq<int>, p: nat, q: nat, r: nat)
    requires Terminated(s) && p < |s| && q < |s| && r < |s|
    requires Suffix(s, p, q) < 0 && Suffix(s, q, r) < 0
    ensures Suffix(s, p, r) < 0
    decreases |s| - p
  {
    if p == r {
      SuffixMirror(s, p, q);
    } else if s[p] == s[q] == s[r] {
      SuffixTransitive(s, p + 1, q + 1, r + 1);
    }
  }

  /** The number of smaller suffixes, for every suffix. */
  ghost function TrueRanks(s: seq<int>): (base: seq<int>)
    requires Terminated(s)
    ensures |base| == |s|
  {
    seq(|s|, p requires 0 <= p < |s| => |SuffixesBelow(s, p)|)
  }

  lemma TrueRankMono(s: seq<int>, p: nat, q: nat)
    requires Terminated(s) && p < |s| && q < |s| && Suffix(s, p, q) < 0
    ensures TrueRanks(s)[p] < TrueRanks(s)[q]
  {
    var a, b := SuffixesBelow(s, p), SuffixesBelow(s, q);
    forall r | r in a ensures r in b { SuffixTransitive(s, r, p, q); }
    SubsetSize(a + {p}, b);
  }

  lemma TrueRanksAre(s: seq<int>)
    requires Terminated(s)
    ensures TrueBase(s, TrueRanks(s)) && Sortable(s, TrueRanks(s))
  {
    var base := TrueRanks(s);
    forall p, q | 0 <= p < |s| && 0 <= q < |s|
      ensures Sign(base[p], base[q]) == Suffix(s, p, q) && (p != q ==> base[p] != base[q])
    {
      SuffixMirror(s, p, q);
      if Suffix(s, p, q) < 0 { TrueRankMono(s, p, q); }
      if Suffix(s, q, p) < 0 { TrueRankMono(s, q, p); }
    }
  }

  /** Induced order over true base numbers is suffix order. */
  lemma InducedIsSorted(s: seq<int>, sa: seq<int>)
    requires Terminated(s) && InOrder(s, TrueRanks(s), sa)
    ensures SuffixSorted(s, sa)
  {
    TrueRanksAre(s);
    forall i, j | 0 <= i < j < |s| ensures Suffix(s, sa[i], sa[j]) < 0 {
      OrderIsSuffix(s, TrueRanks(s), sa[i], sa[j], false);
    }
  }
}
