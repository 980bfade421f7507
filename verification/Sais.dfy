/** Linear-time suffix sorting by induction, and the order of all rotations from the suffixes of a doubled string. */
module Sais {
  import opened Bits
  import opened Permutations
  import opened Rotations
  import opened SuffixOrder
  import opened SuffixRanks
  import opened SuffixInduce
  import opened SuffixReduce

  /** The type of every position, computed from the right. */
  method Classify(s: seq<int>) returns (tp: array<bool>)
    requires |s| > 0
    ensures fresh(tp) && Classified(s, tp[..])
  {
    var n := |s|;
    tp := new bool[n];
    tp[n - 1] := true;
    for i := n - 1 downto 0
      invariant forall p :: i <= p < n ==> tp[p] == IsS(s, p)
    {
      tp[i] := s[i] < s[i + 1] || (s[i] == s[i + 1] && tp[i + 1]);
    }
  }

  ghost predicate Classified(s: seq<int>, tp: seq<bool>) {
    |tp| == |s| && forall p :: 0 <= p < |s| ==> tp[p] == IsS(s, p)
  }

  /** First or last slots of all buckets. */
  method GetBuckets(s: seq<int>, sigma: nat, tail: bool) returns (bkt: array<int>)
    requires Bucketed(s, sigma)
    ensures fresh(bkt) && bkt.Length == sigma
    ensures forall c :: 0 <= c < sigma ==> bkt[c] == if tail then Behind(s, c) - 1 else Head(s, c)
  {
    bkt := new int[sigma](_ => 0);
    for i := 0 to |s|
      invariant forall c :: 0 <= c < sigma ==> bkt[c] == Equal(s, i, c)
    {
      bkt[s[i]] := bkt[s[i]] + 1;
    }
    var sum := 0;
    BelowNone(s, |s|, 0);
    for c := 0 to sigma
      invariant sum == Below(s, |s|, c)
      invariant forall d :: 0 <= d < c ==> bkt[d] == if tail then Behind(s, d) - 1 else Head(s, d)
      invariant forall d :: c <= d < sigma ==> bkt[d] == Equal(s, |s|, d)
    {
      BelowNext(s, |s|, c);
      var t := bkt[c];
      if tail {
        sum := sum + t;
        bkt[c] := sum - 1;
      } else {
        bkt[c] := sum;
        sum := sum + t;
      }
    }
  }

  /** Sorts all suffixes from the leftmost S suffixes that stand at the ends of their buckets. */
  method Induce(s: seq<int>, sa: array<int>, sigma: nat, tp: array<bool>, ghost base: seq<int>)
    requires |s| >= 2 && Sortable(s, base) && Bucketed(s, sigma) && Classified(s, tp[..])
    requires sa.Length == |s| && forall heads: seq<int> :: IsHeads(s, heads, sigma) ==>
               ScannedL(s, base, sa[..], heads, 0)
    modifies sa
    ensures InOrder(s, base, sa[..])
  {
    var bkt := GetBuckets(s, sigma, false);
    InduceL(s, sa, bkt, tp, base);
    AllScannedL(s, base, sa[..], bkt[..]);
    bkt := GetBuckets(s, sigma, true);
    InduceS(s, sa, bkt, tp, base);
    AllScannedS(s, base, sa[..], bkt[..]);
  }

  ghost predicate IsHeads(s: seq<int>, heads: seq<int>, sigma: nat) {
    |heads| == sigma && forall c :: 0 <= c < sigma ==> heads[c] == Head(s, c)
  }

  /** The first pass places type L from the left. */
  method InduceL(s: seq<int>, sa: array<int>, bkt: array<int>, tp: array<bool>, ghost base: seq<int>)
    requires sa != bkt && sa.Length == |s| && Classified(s, tp[..]) && ScannedL(s, base, sa[..], bkt[..], 0)
    modifies sa, bkt
    ensures ScannedL(s, base, sa[..], bkt[..], |s|)
  {
    hide ScannedL;
    ghost var types := tp[..];
    for i := 0 to |s|
      invariant ScannedL(s, base, sa[..], bkt[..], i) && tp[..] == types
    {
      StepL(s, base, sa[..], bkt[..], i);
      assert sa[..][i] == sa[i];
      if sa[i] > 0 {
        var j := sa[i] - 1;
        assert tp[j] == types[j];
        if !tp[j] {
          ghost var before, heads := sa[..], bkt[..];
          assert bkt[s[j]] == heads[s[j]];
          sa[bkt[s[j]]] := j;
          bkt[s[j]] := bkt[s[j]] + 1;
          assert sa[..] == before[heads[s[j]] := j] && bkt[..] == heads[s[j] := heads[s[j]] + 1];
        }
      }
    }
  }

  /** The second pass places type S from the right. */
  method InduceS(s: seq<int>, sa: array<int>, bkt: array<int>, tp: array<bool>, ghost base: seq<int>)
    requires sa != bkt && sa.Length == |s| && Classified(s, tp[..]) && Sortable(s, base) && Bucketed(s, bkt.Length)
    requires AllLPlaced(s, base, sa[..]) && forall c :: 0 <= c < bkt.Length ==> bkt[c] == Behind(s, c) - 1
    modifies sa, bkt
    ensures ScannedS(s, base, sa[..], bkt[..], 0)
  {
    hide ScannedS, Bucketed, AllLPlaced, Sortable;
    ghost var types := tp[..];
    StartS(s, base, sa[..], bkt[..]);
    for i := |s| downto 0
      invariant ScannedS(s, base, sa[..], bkt[..], i) && tp[..] == types
    {
      StepS(s, base, sa[..], bkt[..], i);
      assert sa[..][i] == sa[i];
      if sa[i] > 0 {
        var j := sa[i] - 1;
        assert tp[j] == types[j];
        if tp[j] {
          ghost var before, tails := sa[..], bkt[..];
          assert bkt[s[j]] == tails[s[j]];
          sa[bkt[s[j]]] := j;
          bkt[s[j]] := bkt[s[j]] - 1;
          assert sa[..] == before[tails[s[j]] := j] && bkt[..] == tails[s[j] := tails[s[j]] - 1];
        }
      }
    }
  }

  lemma StartS(s: seq<int>, base: seq<int>, sa: seq<int>, bkt: seq<int>)
    requires Sortable(s, base) && |sa| == |s| && Bucketed(s, |bkt|) && AllLPlaced(s, base, sa)
    requires forall c :: 0 <= c < |bkt| ==> bkt[c] == Behind(s, c) - 1
    ensures ScannedS(s, base, sa, bkt, |s|)
  {
    forall p | 0 <= p < |s| ensures Rank(s, base, p) < |s| { RankBound(s, base, p); }
    forall c | 0 <= c < |bkt| ensures FedS(s, base, c, |s|) == {} {}
  }

  // ---------- first round: order the stretches ----------

  method Clear(sa: array<int>)
    modifies sa
    ensures forall k :: 0 <= k < sa.Length ==> sa[k] == -1
  {
    for k := 0 to sa.Length
      invariant forall i :: 0 <= i < k ==> sa[i] == -1
    {
      sa[k] := -1;
    }
  }

  /** Parks the leftmost S positions in text order. */
  method ParkByPosition(s: seq<int>, sa: array<int>, sigma: nat, tp: array<bool>)
    requires |s| >= 2 && Sortable(s, Identity(|s|)) && Bucketed(s, sigma) && Classified(s, tp[..]) && sa.Length == |s|
    modifies sa
    ensures forall heads: seq<int> :: IsHeads(s, heads, sigma) ==> ScannedL(s, Identity(|s|), sa[..], heads, 0)
  {
    hide Parking, ScannedL, Bucketed, Sortable;
    var n := |s|;
    ghost var base, types := Identity(n), tp[..];
    var bkt := GetBuckets(s, sigma, true);
    Clear(sa);
    ParkNone(s, base, sa[..], bkt[..], n - 2);
    for i := n - 1 downto 1
      invariant Parking(s, base, sa[..], bkt[..], i - 1) && tp[..] == types && bkt.Length == sigma
    {
      assert tp[i] == types[i] && tp[i - 1] == types[i - 1];
      if tp[i] && !tp[i - 1] {
        ghost var before, tails := sa[..], bkt[..];
        ParkStep(s, base, before, tails, i);
        assert bkt[s[i]] == tails[s[i]];
        sa[bkt[s[i]]] := i;
        bkt[s[i]] := bkt[s[i]] - 1;
        assert sa[..] == before[tails[s[i]] := i] && bkt[..] == tails[s[i] := tails[s[i]] - 1];
      } else {
        ParkSkip(s, base, sa[..], bkt[..], i, i - 1);
      }
    }
    ghost var before := sa[..];
    sa[0] := n - 1;
    assert sa[..] == before[0 := n - 1];
    forall heads: seq<int> | IsHeads(s, heads, sigma) ensures ScannedL(s, base, sa[..], heads, 0) {
      SameBuckets(s, sigma, heads);
      ParkAll(s, base, before, bkt[..], heads, 0);
    }
  }

  lemma SameBuckets(s: seq<int>, sigma: nat, heads: seq<int>)
    requires Bucketed(s, sigma) && |heads| == sigma
    ensures Bucketed(s, |heads|)
  {}

  /** Moves the leftmost S positions to the front of the list. */
  method Compact(s: seq<int>, sa: array<int>, tp: array<bool>) returns (m: nat)
    requires Classified(s, tp[..]) && forall k :: 0 <= k < sa.Length ==> 0 <= sa[k] < |s|
    modifies sa
    ensures m <= sa.Length && sa[..m] == Filter(old(sa[..]), LmsTest(s))
  {
    hide Filter, IsS;
    ghost var all, types := sa[..], tp[..];
    NothingKept(all, LmsTest(s));
    m := 0;
    for i := 0 to sa.Length
      invariant m <= i && tp[..] == types
      invariant sa[..m] == Filter(all[..i], LmsTest(s))
      invariant forall k :: i <= k < sa.Length ==> sa[k] == all[k]
    {
      FilterStep(all, LmsTest(s), i);
      var p := sa[i];
      assert tp[p] == types[p] && (p > 0 ==> tp[p - 1] == types[p - 1]);
      if p > 0 && tp[p] && !tp[p - 1] {
        ghost var kept := sa[..m];
        sa[m] := p;
        m := m + 1;
        assert sa[..m] == kept + [p];
      }
    }
    assert all[..sa.Length] == all;
  }

  lemma NothingKept(l: seq<int>, keep: int -> bool)
    ensures Filter(l[..0], keep) == []
  {}

  /** Whether two stretches are the same, comparing characters and types. */
  method LmsEqual(s: seq<int>, tp: array<bool>, a: nat, b: nat) returns (eq: bool)
    requires Terminated(s) && Classified(s, tp[..]) && a < |s| && b < |s| && a != b
    ensures eq <==> Stretch(s, a, b, false) == 0
  {
    hide Terminated, IsS;
    var n := |s|;
    ghost var types := tp[..];
    var k := 0;
    while true
      invariant a + k < n && b + k < n
      invariant k > 0 ==> types[a + k - 1] == types[b + k - 1]
      invariant Stretch(s, a, b, false) == Stretch(s, a + k, b + k, k > 0 && !types[a + k - 1])
      decreases n - a - k
    {
      if a + k >= n || b + k >= n {
        assert false;
        return (a + k >= n) == (b + k >= n);
      }
      assert tp[a + k] == types[a + k] && tp[b + k] == types[b + k];
      assert k > 0 ==> tp[a + k - 1] == types[a + k - 1] && tp[b + k - 1] == types[b + k - 1];
      StretchStep(s, a + k, b + k, k > 0 && !types[a + k - 1]);
      var aLms := k > 0 && tp[a + k] && !tp[a + k - 1];
      var bLms := k > 0 && tp[b + k] && !tp[b + k - 1];
      if s[a + k] != s[b + k] || tp[a + k] != tp[b + k] { return false; }
      if aLms && bLms { return true; }
      if aLms != bLms {
        assert false;
        return false;
      }
      k := k + 1;
    }
  }

  lemma StretchStep(s: seq<int>, p: nat, q: nat, stop: bool)
    requires Terminated(s) && p < |s| && q < |s| && p != q
    ensures s[p] != s[q] || IsS(s, p) != IsS(s, q) ==> Stretch(s, p, q, stop) != 0
    ensures s[p] == s[q] && IsS(s, p) == IsS(s, q) ==>
              && (stop && IsS(s, p) ==> Stretch(s, p, q, stop) == 0)
              && (!(stop && IsS(s, p)) ==>
                   && p + 1 < |s| && q + 1 < |s|
                   && Stretch(s, p, q, stop) == Stretch(s, p + 1, q + 1, !IsS(s, p)))
  {}

  // ---------- names ----------

  /** The leftmost S positions in an order that their stretches agree with. */
  ghost predicate StretchesSorted(s: seq<int>, l: seq<int>) {
    && Terminated(s) && Injective(l) && (forall k :: 0 <= k < |l| ==> 0 <= l[k] < |s|)
    && forall j, k :: 0 <= j < k < |l| ==> Stretch(s, l[j], l[k], false) <= 0
  }

  ghost predicate ComparesAs(s: seq<int>, tmp: seq<int>, p: int, q: int)
    requires Terminated(s) && |tmp| == |s|
  {
    0 <= p < |s| && 0 <= q < |s| && Sign(tmp[p], tmp[q]) == Stretch(s, p, q, false)
  }

  /** The first i positions have names; prev is the one that got the last new name. */
  ghost predicate NamedUpTo(s: seq<int>, l: seq<int>, tmp: seq<int>, name: nat, prev: int, i: nat) {
    && StretchesSorted(s, l) && |tmp| == |s| && i <= |l| && name <= i && (i > 0 ==> name > 0)
    && (forall j, k :: 0 <= j < i && 0 <= k < i ==> ComparesAs(s, tmp, l[j], l[k]))
    && (forall j :: 0 <= j < i ==> 0 <= tmp[l[j]] < name)
    && (name == i ==> forall j :: 0 <= j < i ==> tmp[l[j]] == j)
    && (if i == 0 then prev == -1 else prev in l[..i] && tmp[prev] == name - 1)
    && (forall p :: 0 <= p < |s| && p !in l[..i] ==> tmp[p] == -1)
    && (i > 0 ==> tmp[l[0]] == 0)
  }

  /** Naming one more position. */
  lemma NameStep(s: seq<int>, l: seq<int>, tmp: seq<int>, name: nat, prev: int, i: nat)
    requires NamedUpTo(s, l, tmp, name, prev, i) && i < |l|
    ensures prev >= 0 ==> prev < |s| && prev != l[i] && 0 <= l[i] < |s|
    ensures prev >= 0 && Stretch(s, prev, l[i], false) == 0 ==>
              NamedUpTo(s, l, tmp[l[i] := name - 1], name, prev, i + 1)
    ensures prev < 0 || Stretch(s, prev, l[i], false) != 0 ==> NamedUpTo(s, l, tmp[l[i] := name], name + 1, l[i], i + 1)
  {
    hide *;
    PrevBefore(s, l, tmp, name, prev, i);
    CompareAll(s, l, tmp, name, prev, i);
    NameRest(s, l, tmp, name, prev, i);
  }

  lemma PrevBefore(s: seq<int>, l: seq<int>, tmp: seq<int>, name: nat, prev: int, i: nat)
    requires NamedUpTo(s, l, tmp, name, prev, i) && i < |l|
    ensures 0 <= l[i] < |s| == |tmp| && Terminated(s)
    ensures prev >= 0 ==> prev < |s| && prev != l[i]
  {
    NewPosition(l, i);
  }

  /** The names below i + 1 compare as their stretches do. */
  ghost predicate AllCompare(s: seq<int>, l: seq<int>, tmp: seq<int>, i: nat)
    requires Terminated(s) && |tmp| == |s| && i <= |l|
  {
    forall j, k :: 0 <= j < i && 0 <= k < i ==> ComparesAs(s, tmp, l[j], l[k])
  }

  ghost function NewName(s: seq<int>, l: seq<int>, name: nat, prev: int, i: nat): int
    requires Terminated(s) && prev < |s| && i < |l| && 0 <= l[i] < |s|
  {
    if prev >= 0 && Stretch(s, prev, l[i], false) == 0 then name - 1 else name
  }

  lemma NameRest(s: seq<int>, l: seq<int>, tmp: seq<int>, name: nat, prev: int, i: nat)
    requires NamedUpTo(s, l, tmp, name, prev, i) && i < |l|
    requires Terminated(s) && |tmp| == |s| && prev < |s| && 0 <= l[i] < |s|
    requires AllCompare(s, l, tmp[l[i] := NewName(s, l, name, prev, i)], i + 1)
    ensures prev >= 0 && Stretch(s, prev, l[i], false) == 0 ==>
              NamedUpTo(s, l, tmp[l[i] := name - 1], name, prev, i + 1)
    ensures prev < 0 || Stretch(s, prev, l[i], false) != 0 ==> NamedUpTo(s, l, tmp[l[i] := name], name + 1, l[i], i + 1)
  {
    hide Stretch, Terminated, ComparesAs;
    NewPosition(l, i);
  }

  lemma CompareAll(s: seq<int>, l: seq<int>, tmp: seq<int>, name: nat, prev: int, i: nat)
    requires NamedUpTo(s, l, tmp, name, prev, i) && i < |l|
    requires Terminated(s) && |tmp| == |s| && prev < |s| && 0 <= l[i] < |s|
    ensures AllCompare(s, l, tmp[l[i] := NewName(s, l, name, prev, i)], i + 1)
  {
    hide Stretch, Terminated, ComparesAs, StretchesSorted;
    var tmp' := tmp[l[i] := NewName(s, l, name, prev, i)];
    forall j, k | 0 <= j < i + 1 && 0 <= k < i + 1 ensures ComparesAs(s, tmp', l[j], l[k]) {
      if j < i && k < i {
        CompareOld(s, l, tmp, i, j, k, tmp'[l[i]]);
      } else if j < i {
        CompareNew(s, l, tmp, name, prev, i, j);
      } else if k < i {
        CompareNew(s, l, tmp, name, prev, i, k);
      } else {
        CompareSelf(s, tmp', l[i]);
      }
    }
  }

  lemma NewPosition(l: seq<int>, i: nat)
    requires Injective(l) && i < |l|
    ensures l[i] !in l[..i] && l[..i + 1] == l[..i] + [l[i]]
    ensures forall p :: p !in l[..i + 1] ==> p !in l[..i] && p != l[i]
    ensures l[i] in l[..i + 1] && forall p :: p in l[..i] ==> p in l[..i + 1]
    ensures forall j :: 0 <= j < i ==> l[j] != l[i]
  {
    assert l[..i + 1][i] == l[i];
  }

  lemma CompareOld(s: seq<int>, l: seq<int>, tmp: seq<int>, i: nat, j: nat, k: nat, v: int)
    requires StretchesSorted(s, l) && |tmp| == |s| && j < i && k < i < |l| && ComparesAs(s, tmp, l[j], l[k])
    ensures ComparesAs(s, tmp[l[i] := v], l[j], l[k])
  {}

  lemma CompareSelf(s: seq<int>, tmp: seq<int>, p: int)
    requires Terminated(s) && |tmp| == |s| && 0 <= p < |s|
    ensures ComparesAs(s, tmp, p, p)
  {
    StretchMirror(s, p, p);
  }

  lemma CompareNew(s: seq<int>, l: seq<int>, tmp: seq<int>, name: nat, prev: int, i: nat, j: nat)
    requires NamedUpTo(s, l, tmp, name, prev, i) && j < i < |l|
    ensures 0 <= prev < |s|
    ensures var tmp' := tmp[l[i] := if Stretch(s, prev, l[i], false) == 0 then name - 1 else name];
            ComparesAs(s, tmp', l[j], l[i]) && ComparesAs(s, tmp', l[i], l[j])
  {
    hide Stretch, Terminated;
    var r :| 0 <= r < i && l[r] == prev;
    var tmp' := tmp[l[i] := if Stretch(s, prev, l[i], false) == 0 then name - 1 else name];
    assert ComparesAs(s, tmp, l[j], l[r]);
    CompareNext(s, tmp, l[j], prev, l[i]);
    NewPosition(l, i);
    assert tmp'[l[j]] == tmp[l[j]];
    StretchMirror(s, l[j], l[i]);
  }

  lemma StretchMirror(s: seq<int>, p: nat, q: nat)
    requires Terminated(s) && p < |s| && q < |s|
    ensures Stretch(s, q, p, false) == -Stretch(s, p, q, false)
  {
    OrderMirror(s, NoBase(|s|), p, q, false);
  }

  /** How an earlier position compares to the next one, through the last that got a new name. */
  lemma CompareNext(s: seq<int>, tmp: seq<int>, p: int, prev: int, x: int)
    requires Terminated(s) && |tmp| == |s| && 0 <= x < |s| && 0 <= prev < |s|
    requires ComparesAs(s, tmp, p, prev) && tmp[p] <= tmp[prev] && Stretch(s, prev, x, false) <= 0
    ensures Sign(tmp[p], if Stretch(s, prev, x, false) == 0 then tmp[prev] else tmp[prev] + 1)
            == Stretch(s, p, x, false)
  {
    StretchTransitive(s, p, prev, x, false);
  }

  method AssignNames(s: seq<int>, sa: array<int>, m: nat, tp: array<bool>) returns (tmp: array<int>, name: nat)
    requires m <= sa.Length && StretchesSorted(s, sa[..m]) && Classified(s, tp[..])
    ensures fresh(tmp) && tmp.Length == |s|
    ensures exists prev :: NamedUpTo(s, sa[..m], tmp[..], name, prev, m)
  {
    hide NamedUpTo, StretchesSorted;
    ghost var l, types := sa[..m], tp[..];
    tmp := new int[|s|](_ => -1);
    name := 0;
    var prev := -1;
    NoNames(s, l, tmp[..]);
    for i := 0 to m
      invariant NamedUpTo(s, l, tmp[..], name, prev, i) && sa[..m] == l && tp[..] == types
    {
      var pos := sa[i];
      assert pos == l[i];
      NameFacts(s, l, tmp[..], name, prev, i);
      NameStep(s, l, tmp[..], name, prev, i);
      var diff := prev < 0;
      if !diff {
        var eq := LmsEqual(s, tp, prev, pos);
        diff := !eq;
      }
      ghost var before := tmp[..];
      if diff {
        name := name + 1;
        prev := pos;
      }
      tmp[pos] := name - 1;
      assert tmp[..] == before[pos := name - 1];
    }
    assert NamedUpTo(s, sa[..m], tmp[..], name, prev, m);
  }

  lemma NoNames(s: seq<int>, l: seq<int>, tmp: seq<int>)
    requires StretchesSorted(s, l) && |tmp| == |s| && forall p :: 0 <= p < |s| ==> tmp[p] == -1
    ensures NamedUpTo(s, l, tmp, 0, -1, 0)
  {}

  lemma NameFacts(s: seq<int>, l: seq<int>, tmp: seq<int>, name: nat, prev: int, i: nat)
    requires NamedUpTo(s, l, tmp, name, prev, i) && i < |l|
    ensures Terminated(s) && |tmp| == |s| && 0 <= l[i] < |s| && -1 <= prev < |s| && (prev >= 0 ==> name > 0)
  {}

  // ---------- the reduced problem ----------

  /** Induced order over the text order makes the stretches ascend. */
  lemma KeptSorted(s: seq<int>, base: seq<int>, sa: seq<int>)
    requires InOrder(s, base, sa)
    ensures StretchesSorted(s, Filter(sa, LmsTest(s)))
  {
    var l := Filter(sa, LmsTest(s));
    FilterInjective(sa, LmsTest(s));
    var r := (x, y) => 0 <= x < |s| && 0 <= y < |s| && Stretch(s, x, y, false) <= 0;
    forall i, j | 0 <= i < j < |sa| ensures r(sa[i], sa[j]) { OrderRefinesStretch(s, base, sa[i], sa[j], false); }
    FilterPairwise(sa, LmsTest(s), r);
    forall k | 0 <= k < |l| ensures 0 <= l[k] < |s| { assert l[k] in l; }
    assert forall j, k :: 0 <= j < k < |l| ==> r(l[j], l[k]);
  }

  /** What the names of all leftmost S positions tell. */
  lemma AllNamed(s: seq<int>, sa: seq<int>, l: seq<int>, tmp: seq<int>, name: nat, prev: int)
    requires |s| >= 2 && IsPermutation(sa, |s|) && l == Filter(sa, LmsTest(s)) && NamedUpTo(s, l, tmp, name, prev, |l|)
    ensures SuffixReduce.Named(s, tmp) && tmp[|s| - 1] == 0 && |l| == |LmsList(s)| > 0
    ensures forall p :: 0 <= p < |s| ==> (tmp[p] >= 0 <==> IsLms(s, p))
    ensures forall p :: 0 <= p < |s| ==> tmp[p] < name <= |l|
    ensures name == |l| ==> IsPermutation(Reduced(s, tmp), |l|)
  {
    hide Stretch, Filter, Injective, LmsList;
    assert l[..|l|] == l;
    KeptMembers(s, sa, l);
    NamesCompare(s, l, tmp, name, prev);
    LastIsLms(s);
    LastNameIsZero(s, tmp, l);
    if name == |l| { DistinctNames(s, l, tmp); }
  }

  lemma KeptMembers(s: seq<int>, sa: seq<int>, l: seq<int>)
    requires IsPermutation(sa, |s|) && l == Filter(sa, LmsTest(s))
    ensures forall p :: 0 <= p < |s| ==> (p in l <==> IsLms(s, p))
    ensures |l| == |LmsList(s)|
  {
    hide Filter, IsLms;
    forall p | 0 <= p < |s| ensures p in l <==> IsLms(s, p) { PermutationHits(sa, |s|, p); }
    FilterCount(sa, Identity(|s|), |s|, LmsTest(s));
  }

  lemma NamesCompare(s: seq<int>, l: seq<int>, tmp: seq<int>, name: nat, prev: int)
    requires NamedUpTo(s, l, tmp, name, prev, |l|) && forall p :: 0 <= p < |s| ==> (p in l <==> IsLms(s, p))
    ensures SuffixReduce.Named(s, tmp)
    ensures forall p, q :: p in l && q in l ==> ComparesAs(s, tmp, p, q)
  {
    hide Stretch, Injective, IsLms;
    forall p, q | p in l && q in l ensures ComparesAs(s, tmp, p, q) {}
    forall p, q | 0 <= p < |s| && 0 <= q < |s| && IsLms(s, p) && IsLms(s, q)
      ensures Sign(tmp[p], tmp[q]) == Stretch(s, p, q, false)
    {
      assert ComparesAs(s, tmp, p, q);
    }
  }

  lemma LastNameIsZero(s: seq<int>, tmp: seq<int>, l: seq<int>)
    requires Terminated(s) && |tmp| == |s| && |s| - 1 in l && tmp[|s| - 1] >= 0
    requires 0 <= l[0] < |s| && tmp[l[0]] == 0 && ComparesAs(s, tmp, |s| - 1, l[0])
    ensures tmp[|s| - 1] == 0
  {}

  lemma DistinctNames(s: seq<int>, l: seq<int>, tmp: seq<int>)
    requires |tmp| == |s| && |l| == |LmsList(s)| && forall j :: 0 <= j < |l| ==> 0 <= l[j] < |s| && tmp[l[j]] == j
    requires forall p :: 0 <= p < |s| && IsLms(s, p) ==> p in l
    requires Terminated(s) && |s| >= 2
    ensures IsPermutation(Reduced(s, tmp), |l|)
  {
    LmsListFacts(s);
    var r, pos := Reduced(s, tmp), LmsList(s);
    forall k | 0 <= k < |r| ensures 0 <= r[k] < |l| && l[r[k]] == pos[k] {
      assert pos[k] in l;
      var j :| 0 <= j < |l| && l[j] == pos[k];
    }
    forall i, k | 0 <= i < k < |r| ensures r[i] != r[k] { assert pos[i] < pos[k]; }
  }

  /** The names in text order, and the positions they belong to. */
  method Reduce(s: seq<int>, tmp: array<int>) returns (s1: seq<int>, lmsPos: seq<int>)
    requires tmp.Length == |s| && forall p :: 0 <= p < |s| ==> (tmp[p] >= 0 <==> IsLms(s, p))
    ensures lmsPos == LmsList(s) && s1 == Reduced(s, tmp[..])
  {
    hide Filter, IsLms;
    ghost var all := Identity(|s|);
    s1, lmsPos := [], [];
    NothingKept(all, LmsTest(s));
    for i := 0 to |s|
      invariant lmsPos == Filter(all[..i], LmsTest(s)) && |s1| == |lmsPos|
      invariant forall k :: 0 <= k < |s1| ==> 0 <= lmsPos[k] < |s| && s1[k] == tmp[lmsPos[k]]
    {
      FilterStep(all, LmsTest(s), i);
      if tmp[i] >= 0 { s1, lmsPos := s1 + [tmp[i]], lmsPos + [i]; }
    }
    assert all[..|s|] == all;
  }

  /** Solves the reduced problem, at once when all names differ. */
  method Solve(s1: seq<int>, m: nat, name: nat) returns (sa1: array<int>)
    requires Terminated(s1) && |s1| == m && name <= m && Bucketed(s1, name + 1)
    requires name == m ==> IsPermutation(s1, m)
    requires name < m ==> m >= 2
    ensures fresh(sa1) && SuffixSorted(s1, sa1[..])
    decreases m, 1
  {
    sa1 := new int[m](_ => -1);
    if name < m {
      SortSuffixes(s1, sa1, name + 1);
    } else {
      sa1[0] := m - 1;
      for i := 0 to m - 1
        invariant sa1[0] == m - 1 && forall k :: 0 <= k < i ==> sa1[s1[k]] == k
      {
        assert forall k :: 0 <= k < i ==> s1[k] != s1[i];
        sa1[s1[i]] := i;
      }
      DistinctNamesSorted(s1, sa1[..]);
    }
  }

  // ---------- second round: order all suffixes ----------

  /** The leftmost S positions in suffix order. */
  ghost predicate LmsSorted(s: seq<int>, o: seq<int>) {
    && Terminated(s) && |o| > 0 && o[0] == |s| - 1
    && (forall k :: 0 <= k < |o| ==> 0 <= o[k] < |s| && IsLms(s, o[k]))
    && (forall p :: 0 <= p < |s| && IsLms(s, p) ==> p in o)
    && (forall j, k :: 0 <= j < k < |o| ==> TrueRanks(s)[o[j]] < TrueRanks(s)[o[k]])
  }

  ghost function Through(pos: seq<int>, sa1: seq<int>): (o: seq<int>)
    requires IsPermutation(sa1, |pos|)
    ensures |o| == |pos| && forall k :: 0 <= k < |o| ==> o[k] == pos[sa1[k]]
  {
    seq(|pos|, k requires 0 <= k < |pos| => pos[sa1[k]])
  }

  /** The solution of the reduced problem lists the leftmost S positions in suffix order. */
  lemma SolutionSorted(s: seq<int>, tmp: seq<int>, sa1: seq<int>)
    requires |s| >= 2 && SuffixReduce.Named(s, tmp) && tmp[|s| - 1] == 0 && SuffixSorted(Reduced(s, tmp), sa1)
    ensures LmsSorted(s, Through(LmsList(s), sa1))
  {
    hide Reduced, LmsList, Suffix, TrueRanks;
    var pos, r := LmsList(s), Reduced(s, tmp);
    LmsListFacts(s);
    var o := Through(pos, sa1);
    forall p | 0 <= p < |s| && IsLms(s, p) ensures p in o {
      var k :| 0 <= k < |pos| && pos[k] == p;
      var j := IndexIn(sa1, |pos|, k);
      assert o[j] == p;
    }
    forall j, k | 0 <= j < k < |o| ensures TrueRanks(s)[o[j]] < TrueRanks(s)[o[k]] {
      ReducedOrder(s, tmp, sa1[j], sa1[k]);
      TrueRankMono(s, o[j], o[k]);
    }
    LastIsSmallest(s, o);
  }

  lemma LastIsSmallest(s: seq<int>, o: seq<int>)
    requires Terminated(s) && |s| >= 2 && |o| > 0 && |s| - 1 in o
    requires forall k :: 0 <= k < |o| ==> 0 <= o[k] < |s|
    requires forall j, k :: 0 <= j < k < |o| ==> TrueRanks(s)[o[j]] < TrueRanks(s)[o[k]]
    ensures o[0] == |s| - 1
  {
    assert SuffixesBelow(s, |s| - 1) == {};
    var k :| 0 <= k < |o| && o[k] == |s| - 1;
  }

  /** Parks the leftmost S positions in suffix order. */
  method ParkByOrder(s: seq<int>, sa: array<int>, sigma: nat, lmsPos: seq<int>, sa1: array<int>)
    requires |s| >= 2 && sa.Length == |s| && Bucketed(s, sigma) && sa != sa1
    requires IsPermutation(sa1[..], |lmsPos|) && LmsSorted(s, Through(lmsPos, sa1[..]))
    modifies sa
    ensures forall heads: seq<int> :: IsHeads(s, heads, sigma) ==> ScannedL(s, TrueRanks(s), sa[..], heads, 0)
  {
    hide Parking, ScannedL, Bucketed, TrueRanks, IsLms, Injective, LmsSorted, Below, Sortable, Terminated;
    ghost var o := Through(lmsPos, sa1[..]);
    GapBelow(s, o, 0);
    TrueRanksAre(s);
    ghost var base := TrueRanks(s);
    var m := |lmsPos|;
    var bkt := GetBuckets(s, sigma, true);
    Clear(sa);
    GapBelow(s, o, m);
    ParkNone(s, base, sa[..], bkt[..], base[o[m - 1]]);
    for i := m downto 1
      invariant Parking(s, base, sa[..], bkt[..], base[o[i - 1]]) && bkt.Length == sigma
      invariant sa1[..] == old(sa1[..])
    {
      var p := lmsPos[sa1[i]];
      assert p == o[i];
      GapBelow(s, o, i);
      ghost var before, tails := sa[..], bkt[..];
      ParkStep(s, base, before, tails, p);
      assert bkt[s[p]] == tails[s[p]];
      sa[bkt[s[p]]] := p;
      bkt[s[p]] := bkt[s[p]] - 1;
      assert sa[..] == before[tails[s[p]] := p] && bkt[..] == tails[s[p] := tails[s[p]] - 1];
      ParkSkip(s, base, sa[..], bkt[..], base[p] - 1, base[o[i - 1]]);
    }
    ghost var before := sa[..];
    sa[0] := |s| - 1;
    assert sa[..] == before[0 := |s| - 1];
    GapBelow(s, o, 0);
    forall heads: seq<int> | IsHeads(s, heads, sigma) ensures ScannedL(s, base, sa[..], heads, 0) {
      SameBuckets(s, sigma, heads);
      ParkAll(s, base, before, bkt[..], heads, base[o[0]]);
    }
  }

  /** No base number lies between those of neighbours in the list. */
  lemma GapBelow(s: seq<int>, o: seq<int>, i: nat)
    requires LmsSorted(s, o) && i <= |o|
    ensures i == |o| ==> forall q :: 0 <= q < |s| && IsLms(s, q) ==> TrueRanks(s)[q] <= TrueRanks(s)[o[i - 1]]
    ensures 0 < i < |o| ==>
              && IsLms(s, o[i]) && o[i] < |s| - 1 && TrueRanks(s)[o[i - 1]] < TrueRanks(s)[o[i]]
              && forall q :: 0 <= q < |s| && IsLms(s, q) ==>
                   !(TrueRanks(s)[o[i - 1]] < TrueRanks(s)[q] <= TrueRanks(s)[o[i]] - 1)
    ensures i == 0 ==> forall q :: 0 <= q < |s| - 1 && IsLms(s, q) ==> TrueRanks(s)[q] > TrueRanks(s)[o[0]]
    ensures |o| > 0 && Terminated(s) && forall k :: 0 <= k < |o| ==> 0 <= o[k] < |s|
  {
    hide TrueRanks, IsLms;
    forall q | 0 <= q < |s| && IsLms(s, q) ensures exists k :: 0 <= k < |o| && o[k] == q {}
  }

  /** Sorts all suffixes of a terminated string. */
  method SortSuffixes(s: seq<int>, sa: array<int>, sigma: nat)
    requires |s| >= 2 && Terminated(s) && Bucketed(s, sigma) && sa.Length == |s|
    modifies sa
    ensures SuffixSorted(s, sa[..])
    decreases |s|, 0
  {
    hide Bucketed, ScannedL, InOrder, NamedUpTo, StretchesSorted, LmsSorted, SuffixReduce.Named, Terminated, Classified,
      IsLms, LmsList;
    ghost var base := Identity(|s|);
    var tp := Classify(s);
    BaseIsText(s);
    ParkByPosition(s, sa, sigma, tp);
    Induce(s, sa, sigma, tp, base);
    ghost var sorted := sa[..];
    KeptSorted(s, base, sorted);
    InOrderRange(s, base, sorted);
    var m := Compact(s, sa, tp);
    var tmp, name := AssignNames(s, sa, m, tp);
    ghost var prev :| NamedUpTo(s, sa[..m], tmp[..], name, prev, m);
    AllNamed(s, sorted, sa[..m], tmp[..], name, prev);
    var s1, lmsPos := Reduce(s, tmp);
    AtMostHalf(s);
    ReducedTerminated(s, tmp[..]);
    ReducedBuckets(s, tmp[..], name);
    var sa1 := Solve(s1, m, name);
    SolutionSorted(s, tmp[..], sa1[..]);
    ParkByOrder(s, sa, sigma, lmsPos, sa1);
    TrueRanksAre(s);
    Induce(s, sa, sigma, tp, TrueRanks(s));
    InducedIsSorted(s, sa[..]);
  }

  lemma BaseIsText(s: seq<int>)
    requires Terminated(s)
    ensures Sortable(s, Identity(|s|))
  {}

  lemma InOrderRange(s: seq<int>, base: seq<int>, sa: seq<int>)
    requires InOrder(s, base, sa)
    ensures IsPermutation(sa, |s|)
  {}

  lemma ReducedBuckets(s: seq<int>, tmp: seq<int>, name: nat)
    requires Terminated(s) && |s| >= 2 && |tmp| == |s|
    requires forall p :: 0 <= p < |s| ==> tmp[p] < name && (tmp[p] >= 0 <==> IsLms(s, p))
    ensures Bucketed(Reduced(s, tmp), name + 1)
  {
    LmsListFacts(s);
  }

  // ---------- rotations ----------

  /** The block twice, every byte one up, and the terminator. */
  ghost predicate Doubled(block: seq<byte>, t: seq<int>) {
    && |t| == 2 * |block| + 1 && t[2 * |block|] == 0
    && forall i :: 0 <= i < 2 * |block| ==> t[i] == block[Wrap(|block|, i)] as int + 1
  }

  /** Smaller suffixes of the doubled block start with rotations that are not larger. */
  lemma {:induction false} DoubledOrder(block: seq<byte>, t: seq<int>, p: nat, q: nat, h: nat)
    requires |block| > 0 && Doubled(block, t) && Terminated(t) && p + h <= 2 * |block| && q + h <= 2 * |block|
    requires h > 0 && Suffix(t, p, q) < 0
    ensures Cmp(block, Wrap(|block|, p), Wrap(|block|, q), h) <= 0
    decreases h
  {
    if h > 1 && t[p] == t[q] { DoubledOrder(block, t, p + 1, q + 1, h - 1); }
  }

  function FirstCopy(n: nat): int -> bool { x => 0 <= x < n }

  /** The suffixes that start in the first copy, in suffix order, are the rotations in order. */
  lemma FirstCopySorted(block: seq<byte>, t: seq<int>, sufs: seq<int>)
    requires |block| > 0 && Doubled(block, t) && SuffixSorted(t, sufs)
    ensures RotationOrder(block, Filter(sufs, FirstCopy(|block|)))
  {
    FirstCopyPermutation(|block|, |t|, sufs);
    FirstCopyOrder(block, t, sufs);
  }

  lemma FirstCopyPermutation(n: nat, m: nat, sufs: seq<int>)
    requires n <= m && IsPermutation(sufs, m)
    ensures IsPermutation(Filter(sufs, FirstCopy(n)), n)
  {
    var keep := FirstCopy(n);
    var l := Filter(sufs, keep);
    FilterInjective(sufs, keep);
    FilterCount(sufs, Identity(m), m, keep);
    FirstOfIdentity(n, m);
    forall i | 0 <= i < n ensures 0 <= l[i] < n { assert l[i] in l; }
  }

  lemma FirstCopyOrder(block: seq<byte>, t: seq<int>, sufs: seq<int>)
    requires |block| > 0 && Doubled(block, t) && SuffixSorted(t, sufs)
    requires IsPermutation(Filter(sufs, FirstCopy(|block|)), |block|)
    ensures RotationOrder(block, Filter(sufs, FirstCopy(|block|)))
  {
    hide Filter, Suffix, Cmp, Injective, Terminated;
    var n := |block|;
    var l := Filter(sufs, FirstCopy(n));
    var r := (x, y) => 0 <= x < |t| && 0 <= y < |t| && Suffix(t, x, y) < 0;
    FilterPairwise(sufs, FirstCopy(n), r);
    forall i, j | 0 <= i < j < n ensures Cmp(block, l[i], l[j], n) <= 0 {
      assert r(l[i], l[j]);
      DoubledOrder(block, t, l[i], l[j], n);
    }
  }

  lemma {:induction false} FirstOfIdentity(n: nat, m: nat)
    requires n <= m
    ensures |Filter(Identity(m), FirstCopy(n))| == n
    decreases m
  {
    if m > 0 {
      assert Identity(m)[..m - 1] == Identity(m - 1);
      if n == m {
        FirstOfIdentity(n - 1, m - 1);
        FilterSame(Identity(m - 1), n);
      } else {
        FirstOfIdentity(n, m - 1);
      }
    }
  }

  lemma {:induction false} FilterSame(l: seq<int>, n: nat)
    requires n > 0 && forall i :: 0 <= i < |l| ==> l[i] < n - 1
    ensures Filter(l, FirstCopy(n)) == Filter(l, FirstCopy(n - 1))
    decreases |l|
  {
    if |l| > 0 { FilterSame(l[..|l| - 1], n); }
  }

  /** Keeps the suffixes that start in the first copy. */
  method KeepFirstCopy(n: nat, sufs: array<int>, sa: array<int>)
    requires sa.Length == n <= sufs.Length && sa != sufs && |Filter(sufs[..], FirstCopy(n))| == n
    modifies sa
    ensures sa[..] == Filter(sufs[..], FirstCopy(n))
  {
    hide Filter;
    ghost var all, keep := sufs[..], FirstCopy(n);
    NothingKept(all, keep);
    var k, i := 0, 0;
    while i < sufs.Length && k < n
      invariant 0 <= i <= sufs.Length && 0 <= k <= n && sufs[..] == all
      invariant sa[..k] == Filter(all[..i], keep)
    {
      FilterStep(all, keep, i);
      assert sufs[i] == all[i];
      if sufs[i] >= 0 && sufs[i] < n {
        ghost var kept := sa[..k];
        sa[k] := sufs[i];
        k := k + 1;
        assert sa[..k] == kept + [all[i]];
      }
      i := i + 1;
    }
    FilterPrefix(all, keep, i);
    assert all[..sufs.Length] == all;
    assert sa[..k] == sa[..];
  }

  /** Lists the starts of all rotations of the block in order. */
  method BuildSuffixArraySais(block: seq<byte>, sa: array<int>)
    requires |block| > 0 && sa.Length == |block|
    modifies sa
    ensures RotationOrder(block, sa[..])
  {
    hide Terminated, IsS, Filter, Bucketed, SuffixSorted;
    var n := |block|;
    var tn := 2 * n + 1;
    var t := new int[tn];
    for i := 0 to n
      invariant forall k :: 0 <= k < i ==> t[k] == t[k + n] == block[k] as int + 1
    {
      t[i] := block[i] as int + 1;
      t[i + n] := block[i] as int + 1;
    }
    t[2 * n] := 0;
    DoubledFacts(block, t[..]);
    var sufs := new int[tn];
    SortSuffixes(t[..], sufs, 257);
    FirstCopySorted(block, t[..], sufs[..]);
    KeepFirstCopy(n, sufs, sa);
  }

  lemma DoubledFacts(block: seq<byte>, t: seq<int>)
    requires |block| > 0 && |t| == 2 * |block| + 1 && t[2 * |block|] == 0
    requires forall k :: 0 <= k < |block| ==> t[k] == t[k + |block|] == block[k] as int + 1
    ensures Doubled(block, t) && Terminated(t) && Bucketed(t, 257)
  {
    forall i | 0 <= i < 2 * |block| ensures t[i] == block[Wrap(|block|, i)] as int + 1 {
      var k := Wrap(|block|, i);
      assert t[k] == t[k + |block|] == block[k] as int + 1;
    }
  }
}
