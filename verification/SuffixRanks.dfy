/** Where induced sorting puts every suffix: ranks, buckets, and the parking places of the leftmost S suffixes. */
module SuffixRanks {
  import opened Permutations
  import opened SuffixOrder

  /** Positions of a terminated string with distinct base numbers. */
  ghost predicate Sortable(s: seq<int>, base: seq<int>) {
    Terminated(s) && |base| == |s| && Injective(base)
  }

  ghost predicate Less(s: seq<int>, base: seq<int>, p: nat, q: nat)
    requires Sortable(s, base) && p < |s| && q < |s|
  {
    Order(s, base, p, q, false) < 0
  }

  /** Less is a strict total order. */
  lemma LessTotal(s: seq<int>, base: seq<int>, p: nat, q: nat)
    requires Sortable(s, base) && p < |s| && q < |s|
    ensures Less(s, base, p, q) || Less(s, base, q, p) || p == q
    ensures !(Less(s, base, p, q) && Less(s, base, q, p))
    ensures !Less(s, base, p, p)
  {
    OrderMirror(s, base, p, q, false);
    if p != q { OrderStrict(s, base, p, q, false); }
  }

  lemma LessTransitive(s: seq<int>, base: seq<int>, p: nat, q: nat, r: nat)
    requires Sortable(s, base) && p < |s| && q < |s| && r < |s| && Less(s, base, p, q) && Less(s, base, q, r)
    ensures Less(s, base, p, r)
  {
    OrderTransitive(s, base, p, q, r, false);
  }

  /** Less goes by character first, then by type. */
  lemma LessByChar(s: seq<int>, base: seq<int>, p: nat, q: nat)
    requires Sortable(s, base) && p < |s| && q < |s|
    ensures s[p] < s[q] ==> Less(s, base, p, q)
    ensures s[p] == s[q] && !IsS(s, p) && IsS(s, q) ==> Less(s, base, p, q)
    ensures Less(s, base, p, q) ==> s[p] <= s[q]
    ensures Less(s, base, p, q) && s[p] == s[q] && IsS(s, p) ==> IsS(s, q)
  {}

  // ---------- ranks ----------

  ghost function Smaller(s: seq<int>, base: seq<int>, p: nat): set<int>
    requires Sortable(s, base) && p < |s|
  {
    set q | 0 <= q < |s| && Less(s, base, q, p)
  }

  /** The number of smaller suffixes. */
  ghost function Rank(s: seq<int>, base: seq<int>, p: nat): (r: nat)
    requires Sortable(s, base) && p < |s|
  {
    |Smaller(s, base, p)|
  }

  lemma RankMono(s: seq<int>, base: seq<int>, p: nat, q: nat)
    requires Sortable(s, base) && p < |s| && q < |s| && Less(s, base, p, q)
    ensures Rank(s, base, p) < Rank(s, base, q) < |s|
  {
    var a, b := Smaller(s, base, p), Smaller(s, base, q);
    forall r | r in a ensures r in b { LessTransitive(s, base, r, p, q); }
    LessTotal(s, base, p, p);
    LessTotal(s, base, q, q);
    SubsetSize(a + {p}, b);
    assert b + {q} <= Range(|s|);
    SubsetSize(b + {q}, Range(|s|));
  }

  lemma RankBound(s: seq<int>, base: seq<int>, p: nat)
    requires Sortable(s, base) && p < |s|
    ensures Rank(s, base, p) < |s|
  {
    LessTotal(s, base, p, p);
    assert Smaller(s, base, p) + {p} <= Range(|s|);
    SubsetSize(Smaller(s, base, p) + {p}, Range(|s|));
  }

  lemma RankOrder(s: seq<int>, base: seq<int>, p: nat, q: nat)
    requires Sortable(s, base) && p < |s| && q < |s|
    ensures Less(s, base, p, q) <==> Rank(s, base, p) < Rank(s, base, q)
    ensures p != q ==> Rank(s, base, p) != Rank(s, base, q)
  {
    LessTotal(s, base, p, q);
    if Less(s, base, p, q) { RankMono(s, base, p, q); }
    if Less(s, base, q, p) { RankMono(s, base, q, p); }
  }

  ghost function Ranks(s: seq<int>, base: seq<int>): (r: seq<int>)
    requires Sortable(s, base)
    ensures |r| == |s| && forall p :: 0 <= p < |s| ==> r[p] == Rank(s, base, p)
  {
    seq(|s|, p requires 0 <= p < |s| => Rank(s, base, p))
  }

  lemma RanksPermutation(s: seq<int>, base: seq<int>)
    requires Sortable(s, base)
    ensures IsPermutation(Ranks(s, base), |s|)
  {
    forall p | 0 <= p < |s| ensures 0 <= Rank(s, base, p) < |s| { RankBound(s, base, p); }
    forall p, q | 0 <= p < q < |s| ensures Rank(s, base, p) != Rank(s, base, q) { RankOrder(s, base, p, q); }
  }

  /** The suffix with a given rank. */
  ghost function AtRank(s: seq<int>, base: seq<int>, i: nat): (p: nat)
    requires Sortable(s, base) && i < |s|
    ensures p < |s| && Rank(s, base, p) == i
  {
    RanksPermutation(s, base);
    IndexIn(Ranks(s, base), |s|, i)
  }

  // ---------- buckets ----------

  ghost function WithChar(s: seq<int>, c: int): set<int> {
    set q | 0 <= q < |s| && s[q] == c
  }

  /** The first slot of the bucket of character c. */
  function Head(s: seq<int>, c: int): nat { Below(s, |s|, c) }

  /** The slot behind the last one of the bucket. */
  function Behind(s: seq<int>, c: int): nat { Below(s, |s|, c + 1) }

  lemma {:induction false} BelowIsSize(s: seq<int>, m: nat, c: int)
    requires m <= |s|
    ensures Below(s, m, c) == |set q | 0 <= q < m && s[q] < c|
    decreases m
  {
    var now := set q | 0 <= q < m && s[q] < c;
    if m == 0 {
      assert now == {};
    } else {
      BelowIsSize(s, m - 1, c);
      var before := set q | 0 <= q < m - 1 && s[q] < c;
      assert now == before + (if s[m - 1] < c then {m - 1} else {});
    }
  }

  /** A bucket has as many slots as there are positions with its character. */
  lemma BucketSize(s: seq<int>, c: int)
    ensures Behind(s, c) == Head(s, c) + |WithChar(s, c)| <= |s|
  {
    var below := set q | 0 <= q < |s| && s[q] < c;
    var upTo := set q | 0 <= q < |s| && s[q] < c + 1;
    BelowIsSize(s, |s|, c);
    BelowIsSize(s, |s|, c + 1);
    assert upTo == below + WithChar(s, c) && below !! WithChar(s, c);
  }

  lemma BucketsApart(s: seq<int>, c: int, d: int)
    requires c < d
    ensures Behind(s, c) <= Head(s, d)
  {
    BelowMono(s, |s|, c + 1, d);
  }

  /** The smaller and the larger positions of p's bucket. */
  ghost function BucketBefore(s: seq<int>, base: seq<int>, p: nat): set<int>
    requires Sortable(s, base) && p < |s|
  {
    set q | 0 <= q < |s| && s[q] == s[p] && Less(s, base, q, p)
  }

  ghost function BucketAfter(s: seq<int>, base: seq<int>, p: nat): set<int>
    requires Sortable(s, base) && p < |s|
  {
    set q | 0 <= q < |s| && s[q] == s[p] && Less(s, base, p, q)
  }

  /** Counting from either end of the bucket gives the rank. */
  lemma RankInBucket(s: seq<int>, base: seq<int>, p: nat)
    requires Sortable(s, base) && p < |s|
    ensures Rank(s, base, p) == Head(s, s[p]) + |BucketBefore(s, base, p)|
    ensures Rank(s, base, p) == Behind(s, s[p]) - 1 - |BucketAfter(s, base, p)|
  {
    hide *;
    RankFromHead(s, base, p);
    BucketSplit(s, base, p);
    BucketSize(s, s[p]);
  }

  lemma RankFromHead(s: seq<int>, base: seq<int>, p: nat)
    requires Sortable(s, base) && p < |s|
    ensures Rank(s, base, p) == Head(s, s[p]) + |BucketBefore(s, base, p)|
  {
    hide Less, Below, Order;
    var below := set q | 0 <= q < |s| && s[q] < s[p];
    var before := BucketBefore(s, base, p);
    BelowIsSize(s, |s|, s[p]);
    forall q | 0 <= q < |s| ensures q in Smaller(s, base, p) <==> q in below + before { LessByChar(s, base, q, p); }
    assert Smaller(s, base, p) == below + before && below !! before;
  }

  lemma BucketSplit(s: seq<int>, base: seq<int>, p: nat)
    requires Sortable(s, base) && p < |s|
    ensures |WithChar(s, s[p])| == |BucketBefore(s, base, p)| + 1 + |BucketAfter(s, base, p)|
  {
    hide Less, Below, Order;
    var before, after := BucketBefore(s, base, p), BucketAfter(s, base, p);
    forall q | 0 <= q < |s| ensures q in WithChar(s, s[p]) <==> q in before + {p} + after
      ensures !(q in before && q in after) && p !in before && p !in after
    {
      LessTotal(s, base, p, q);
    }
    assert WithChar(s, s[p]) == before + {p} + after && before !! {p} && (before + {p}) !! after;
  }

  // ---------- parking places ----------

  /** The leftmost S positions of a bucket whose base number is above t. */
  ghost function ParkedAbove(s: seq<int>, base: seq<int>, c: int, t: int): set<int>
    requires |base| == |s|
  {
    set q | 0 <= q < |s| && s[q] == c && IsLms(s, q) && base[q] > t
  }

  /** Where a leftmost S position waits at the end of its bucket. */
  ghost function Park(s: seq<int>, base: seq<int>, p: nat): int
    requires |base| == |s| && p < |s|
  {
    Behind(s, s[p]) - 1 - |ParkedAbove(s, base, s[p], base[p])|
  }

  /** The slot of a suffix while type L is being sorted. */
  ghost function Slot(s: seq<int>, base: seq<int>, p: nat): int
    requires Sortable(s, base) && p < |s|
  {
    if IsLms(s, p) then Park(s, base, p) else Rank(s, base, p)
  }

  /** The suffixes that have a slot while type L is being sorted. */
  predicate Slotted(s: seq<int>, p: nat)
    requires p < |s|
  {
    !IsS(s, p) || IsLms(s, p)
  }

  /** Parking places stay in the bucket, above the ranks of all its L suffixes. */
  lemma ParkAboveRanks(s: seq<int>, base: seq<int>, p: nat, q: nat)
    requires Sortable(s, base) && p < |s| && q < |s| && s[p] == s[q] && !IsS(s, p) && IsLms(s, q)
    ensures Rank(s, base, p) < Park(s, base, q) < Behind(s, s[q])
  {
    var c := s[p];
    var a, b := BucketBefore(s, base, p) + {p}, ParkedAbove(s, base, c, base[q]) + {q};
    RankInBucket(s, base, p);
    BucketSize(s, c);
    LessTotal(s, base, p, p);
    forall x | x in a ensures x in WithChar(s, c) && !IsS(s, x) { LessByChar(s, base, x, p); }
    assert a !! b && a + b <= WithChar(s, c);
    SubsetSize(a + b, WithChar(s, c));
    assert |a + b| == |a| + |b|;
    assert |a| == |BucketBefore(s, base, p)| + 1;
    assert |b| == |ParkedAbove(s, base, c, base[q])| + 1;
  }

  lemma ParkInBucket(s: seq<int>, base: seq<int>, p: nat)
    requires Sortable(s, base) && p < |s| && IsLms(s, p)
    ensures Head(s, s[p]) <= Park(s, base, p) < Behind(s, s[p]) <= |s|
  {
    var b := ParkedAbove(s, base, s[p], base[p]) + {p};
    BucketSize(s, s[p]);
    SubsetSize(b, WithChar(s, s[p]));
  }

  lemma ParkMono(s: seq<int>, base: seq<int>, p: nat, q: nat)
    requires Sortable(s, base) && p < |s| && q < |s| && IsLms(s, p) && IsLms(s, q) && s[p] == s[q] && base[p] < base[q]
    ensures Park(s, base, p) < Park(s, base, q)
  {
    var a, b := ParkedAbove(s, base, s[p], base[p]), ParkedAbove(s, base, s[p], base[q]);
    SubsetSize(b + {q}, a);
  }

  lemma SlotInBucket(s: seq<int>, base: seq<int>, p: nat)
    requires Sortable(s, base) && p < |s|
    ensures Head(s, s[p]) <= Slot(s, base, p) < Behind(s, s[p]) <= |s|
  {
    BucketSize(s, s[p]);
    if IsLms(s, p) { ParkInBucket(s, base, p); } else { RankInBucket(s, base, p); }
  }

  /** Slots are ordered as the suffixes are once a type L has been passed. */
  lemma SlotMono(s: seq<int>, base: seq<int>, p: nat, q: nat)
    requires Sortable(s, base) && p < |s| && q < |s| && Slotted(s, p) && Slotted(s, q)
    requires Order(s, base, p, q, true) < 0
    ensures Slot(s, base, p) < Slot(s, base, q)
  {
    SlotInBucket(s, base, p);
    SlotInBucket(s, base, q);
    if s[p] < s[q] {
      BucketsApart(s, s[p], s[q]);
    } else if IsS(s, p) {
      ParkMono(s, base, p, q);
    } else if IsS(s, q) {
      ParkAboveRanks(s, base, p, q);
    } else {
      assert Less(s, base, p, q);
      RankMono(s, base, p, q);
    }
  }

  lemma SlotOrder(s: seq<int>, base: seq<int>, p: nat, q: nat)
    requires Sortable(s, base) && p < |s| && q < |s| && Slotted(s, p) && Slotted(s, q)
    ensures Order(s, base, p, q, true) < 0 <==> Slot(s, base, p) < Slot(s, base, q)
    ensures p != q ==> Slot(s, base, p) != Slot(s, base, q)
  {
    if p != q {
      OrderStrict(s, base, p, q, true);
      OrderMirror(s, base, p, q, true);
      if Order(s, base, p, q, true) < 0 { SlotMono(s, base, p, q); } else { SlotMono(s, base, q, p); }
    }
  }
}
