/** The two passes of induced sorting, as invariants over the suffix list and the bucket pointers. */
module SuffixInduce {
  import opened Permutations
  import opened SuffixOrder
  import opened SuffixRanks

  ghost predicate At(sa: seq<int>, k: int, p: int) {
    0 <= k < |sa| && sa[k] == p
  }

  /** Every character has a bucket. */
  ghost predicate Bucketed(s: seq<int>, buckets: nat) {
    forall p :: 0 <= p < |s| ==> 0 <= s[p] < buckets
  }

  // ---------- type L, from the left ----------

  /** The L suffixes of a bucket whose successor stands left of slot i. */
  ghost function FedL(s: seq<int>, base: seq<int>, c: int, i: int): set<int>
    requires Sortable(s, base)
  {
    set p | 0 <= p < |s| - 1 && s[p] == c && !IsS(s, p) && Slot(s, base, p + 1) < i
  }

  ghost predicate Parked(s: seq<int>, base: seq<int>, sa: seq<int>)
    requires Sortable(s, base)
  {
    forall p :: 0 <= p < |s| && IsLms(s, p) ==> At(sa, Slot(s, base, p), p)
  }

  ghost predicate PlacedL(s: seq<int>, base: seq<int>, sa: seq<int>, i: int)
    requires Sortable(s, base)
  {
    forall p :: 0 <= p < |s| - 1 && !IsS(s, p) && Slot(s, base, p + 1) < i ==> At(sa, Slot(s, base, p), p)
  }

  ghost predicate NothingElse(s: seq<int>, base: seq<int>, sa: seq<int>)
    requires Sortable(s, base)
  {
    forall k :: 0 <= k < |sa| ==>
      sa[k] == -1 || (0 <= sa[k] < |s| && Slotted(s, sa[k]) && Slot(s, base, sa[k]) == k)
  }

  /** The list and the bucket heads when slots below i have been scanned. */
  ghost predicate ScannedL(s: seq<int>, base: seq<int>, sa: seq<int>, bkt: seq<int>, i: nat) {
    && Sortable(s, base) && |sa| == |s| && Bucketed(s, |bkt|)
    && Parked(s, base, sa) && PlacedL(s, base, sa, i) && NothingElse(s, base, sa)
    && forall c :: 0 <= c < |bkt| ==> bkt[c] == Head(s, c) + |FedL(s, base, c, i)|
  }

  /** A suffix whose successor stands at slot i is found there. */
  lemma FeederL(s: seq<int>, base: seq<int>, sa: seq<int>, bkt: seq<int>, i: nat, p: nat)
    requires ScannedL(s, base, sa, bkt, i) && i < |s| && p < |s| - 1 && !IsS(s, p) && Slot(s, base, p + 1) == i
    ensures sa[i] == p + 1
  {
    TypeFacts(s, p);
    if !IsS(s, p + 1) {
      TypeFacts(s, p + 1);
      NextInOrder(s, base, p + 1);
      SlotOrder(s, base, p + 2, p + 1);
    }
  }

  /** Scanning slot i feeds at most one bucket. */
  lemma FedLNext(s: seq<int>, base: seq<int>, sa: seq<int>, bkt: seq<int>, i: nat, c: int)
    requires ScannedL(s, base, sa, bkt, i) && i < |s|
    ensures var p := sa[i] - 1;
            FedL(s, base, c, i + 1) == FedL(s, base, c, i) + (if p >= 0 && !IsS(s, p) && s[p] == c then {p} else {})
    ensures sa[i] > 0 ==> sa[i] - 1 !in FedL(s, base, c, i)
  {
    hide Slot, IsLms, Slotted, Order, Below, Parked, PlacedL;
    assert sa[i] > 0 ==> Slot(s, base, sa[i]) == i;
    forall p | p in FedL(s, base, c, i + 1) && p !in FedL(s, base, c, i) ensures p == sa[i] - 1 {
      FeederL(s, base, sa, bkt, i, p);
    }
  }

  /** The bucket pointer stands exactly at the rank of the suffix that is placed next. */
  lemma HeadIsRank(s: seq<int>, base: seq<int>, sa: seq<int>, bkt: seq<int>, i: nat)
    requires ScannedL(s, base, sa, bkt, i) && i < |s| && sa[i] > 0 && !IsS(s, sa[i] - 1)
    ensures var j := sa[i] - 1; bkt[s[j]] == Rank(s, base, j) == Slot(s, base, j) && i < Rank(s, base, j) < |s|
  {
    hide Rank, Park, Below, Order;
    var j := sa[i] - 1;
    RankInBucket(s, base, j);
    RankBound(s, base, j);
    TypeFacts(s, j);
    forall p | 0 <= p < |s| ensures p in FedL(s, base, s[j], i) <==> p in BucketBefore(s, base, j) {
      FedIsBefore(s, base, i, j, p);
    }
    assert FedL(s, base, s[j], i) == BucketBefore(s, base, j);
    NextInOrder(s, base, j);
    SlotOrder(s, base, j + 1, j);
  }

  lemma FedIsBefore(s: seq<int>, base: seq<int>, i: nat, j: nat, p: nat)
    requires Sortable(s, base) && p < |s| && j < |s| - 1 && !IsS(s, j) && Slotted(s, j + 1) && Slot(s, base, j + 1) == i
    ensures p in FedL(s, base, s[j], i) <==> p in BucketBefore(s, base, j)
  {
    hide Order, Rank, Park, Less, IsLms;
    LessTotal(s, base, j, j);
    LessByChar(s, base, p, j);
    if p < |s| - 1 && s[p] == s[j] && !IsS(s, p) { SuccessorsDecideL(s, base, p, j); }
  }

  /** Two L suffixes with the same character are ordered as the slots of their successors. */
  lemma SuccessorsDecideL(s: seq<int>, base: seq<int>, p: nat, j: nat)
    requires Sortable(s, base) && p < |s| - 1 && j < |s| - 1 && s[p] == s[j] && !IsS(s, p) && !IsS(s, j)
    ensures Less(s, base, p, j) <==> Slot(s, base, p + 1) < Slot(s, base, j + 1)
  {
    hide Rank, Park, Slot;
    TypeFacts(s, p);
    TypeFacts(s, j);
    SlotOrder(s, base, p + 1, j + 1);
    if p == j { LessTotal(s, base, p, p); }
  }

  /** One step of the first pass. */
  lemma StepL(s: seq<int>, base: seq<int>, sa: seq<int>, bkt: seq<int>, i: nat)
    requires ScannedL(s, base, sa, bkt, i) && i < |s|
    ensures -1 <= sa[i] < |s|
    ensures sa[i] <= 0 || IsS(s, sa[i] - 1) ==> ScannedL(s, base, sa, bkt, i + 1)
    ensures sa[i] > 0 && !IsS(s, sa[i] - 1) ==>
              var j := sa[i] - 1; var c := s[j];
              && 0 <= c < |bkt| && 0 <= bkt[c] < |s|
              && ScannedL(s, base, sa[bkt[c] := j], bkt[c := bkt[c] + 1], i + 1)
  {
    hide FedL, Order, Slot, IsLms, Slotted;
    forall c | 0 <= c < |bkt|
      ensures sa[i] <= 0 || IsS(s, sa[i] - 1) || s[sa[i] - 1] != c ==> FedL(s, base, c, i + 1) == FedL(s, base, c, i)
    {
      FedLNext(s, base, sa, bkt, i, c);
    }
    if sa[i] > 0 && !IsS(s, sa[i] - 1) {
      var j := sa[i] - 1;
      FedLNext(s, base, sa, bkt, i, s[j]);
      HeadIsRank(s, base, sa, bkt, i);
      PlaceL(s, base, sa, bkt, i);
    } else {
      PlacedLNext(s, base, sa, bkt, i);
    }
  }

  lemma PlacedLNext(s: seq<int>, base: seq<int>, sa: seq<int>, bkt: seq<int>, i: nat)
    requires ScannedL(s, base, sa, bkt, i) && i < |s| && (sa[i] <= 0 || IsS(s, sa[i] - 1))
    ensures PlacedL(s, base, sa, i + 1)
  {
    hide Slot, Order, IsLms, Slotted, FedL, Below;
    forall p | 0 <= p < |s| - 1 && !IsS(s, p) && Slot(s, base, p + 1) < i + 1 ensures At(sa, Slot(s, base, p), p) {
      if Slot(s, base, p + 1) == i {
        FeederL(s, base, sa, bkt, i, p);
        assert false;
      }
    }
  }

  /** Placing j at its slot keeps everything else. */
  lemma PlaceL(s: seq<int>, base: seq<int>, sa: seq<int>, bkt: seq<int>, i: nat)
    requires ScannedL(s, base, sa, bkt, i) && i < |s| && sa[i] > 0 && !IsS(s, sa[i] - 1)
    ensures var j := sa[i] - 1;
            0 <= Slot(s, base, j) < |s| &&
            (var sa' := sa[Slot(s, base, j) := j];
             Parked(s, base, sa') && PlacedL(s, base, sa', i + 1) && NothingElse(s, base, sa'))
  {
    hide Slot, Order;
    var j := sa[i] - 1;
    SlotInBucket(s, base, j);
    var sa' := sa[Slot(s, base, j) := j];
    forall p | 0 <= p < |s| && Slotted(s, p) && p != j ensures Slot(s, base, p) != Slot(s, base, j) {
      SlotOrder(s, base, p, j);
    }
    forall p | 0 <= p < |s| - 1 && !IsS(s, p) && Slot(s, base, p + 1) < i + 1 ensures At(sa', Slot(s, base, p), p) {
      if Slot(s, base, p + 1) == i { FeederL(s, base, sa, bkt, i, p); }
    }
  }

  // ---------- type S, from the right ----------

  ghost function FedS(s: seq<int>, base: seq<int>, c: int, i: int): set<int>
    requires Sortable(s, base)
  {
    set p | 0 <= p < |s| - 1 && s[p] == c && IsS(s, p) && Rank(s, base, p + 1) >= i
  }

  ghost predicate AllLPlaced(s: seq<int>, base: seq<int>, sa: seq<int>)
    requires Sortable(s, base)
  {
    && At(sa, 0, |s| - 1)
    && forall p :: 0 <= p < |s| && !IsS(s, p) ==> At(sa, Rank(s, base, p), p)
  }

  ghost predicate PlacedS(s: seq<int>, base: seq<int>, sa: seq<int>, i: int)
    requires Sortable(s, base)
  {
    forall p :: 0 <= p < |s| - 1 && IsS(s, p) && Rank(s, base, p + 1) >= i ==> At(sa, Rank(s, base, p), p)
  }

  /** The list and the bucket tails when the slots from i on have been scanned. */
  ghost predicate ScannedS(s: seq<int>, base: seq<int>, sa: seq<int>, bkt: seq<int>, i: nat) {
    && Sortable(s, base) && |sa| == |s| && Bucketed(s, |bkt|)
    && AllLPlaced(s, base, sa) && PlacedS(s, base, sa, i)
    && forall c :: 0 <= c < |bkt| ==> bkt[c] == Behind(s, c) - 1 - |FedS(s, base, c, i)|
  }

  /** The last suffix is the smallest. */
  lemma LastIsFirst(s: seq<int>, base: seq<int>)
    requires Sortable(s, base)
    ensures Rank(s, base, |s| - 1) == 0
  {
    assert Smaller(s, base, |s| - 1) == {};
  }

  /** The slot that is scanned holds the suffix with that rank. */
  lemma FoundS(s: seq<int>, base: seq<int>, sa: seq<int>, bkt: seq<int>, i: nat)
    requires ScannedS(s, base, sa, bkt, i + 1) && i < |s|
    ensures |sa| == |s| && 0 <= sa[i] < |s| && Rank(s, base, sa[i]) == i
  {
    var p := AtRank(s, base, i);
    LastIsFirst(s, base);
    if IsS(s, p) && p < |s| - 1 {
      TypeFacts(s, p);
      NextInOrder(s, base, p);
      RankMono(s, base, p, p + 1);
    }
  }

  lemma FedSNext(s: seq<int>, base: seq<int>, q: nat, i: nat, c: int)
    requires Sortable(s, base) && q < |s| && Rank(s, base, q) == i
    ensures var p := q - 1;
            FedS(s, base, c, i) == FedS(s, base, c, i + 1) + (if p >= 0 && IsS(s, p) && s[p] == c then {p} else {})
    ensures q > 0 ==> q - 1 !in FedS(s, base, c, i + 1)
  {
    hide Rank, Order, IsLms;
    forall p | p in FedS(s, base, c, i) ensures p in FedS(s, base, c, i + 1) || p == q - 1 {
      if p + 1 != q { RankOrder(s, base, p + 1, q); }
    }
  }

  lemma TailIsRank(s: seq<int>, base: seq<int>, sa: seq<int>, bkt: seq<int>, i: nat)
    requires ScannedS(s, base, sa, bkt, i + 1) && i < |s| && sa[i] > 0 && sa[i] < |s| && Rank(s, base, sa[i]) == i
    requires IsS(s, sa[i] - 1)
    ensures var j := sa[i] - 1; bkt[s[j]] == Rank(s, base, j) < |s|
  {
    var j := sa[i] - 1;
    RankInBucket(s, base, j);
    RankBound(s, base, j);
    forall p | 0 <= p < |s| ensures p in FedS(s, base, s[j], i + 1) <==> p in BucketAfter(s, base, j) {
      FedIsAfter(s, base, i, j, p);
    }
    assert FedS(s, base, s[j], i + 1) == BucketAfter(s, base, j);
  }

  lemma FedIsAfter(s: seq<int>, base: seq<int>, i: nat, j: nat, p: nat)
    requires Sortable(s, base) && p < |s| && j < |s| - 1 && IsS(s, j) && Rank(s, base, j + 1) == i
    ensures p in FedS(s, base, s[j], i + 1) <==> p in BucketAfter(s, base, j)
  {
    hide Order, Rank, Less, IsLms;
    LessTotal(s, base, j, j);
    LessByChar(s, base, j, p);
    assert p == |s| - 1 ==> s[p] != s[j];
    if p < |s| - 1 && s[p] == s[j] && IsS(s, p) { SuccessorsDecideS(s, base, j, p); }
  }

  /** Two S suffixes with the same character are ordered as their successors. */
  lemma SuccessorsDecideS(s: seq<int>, base: seq<int>, p: nat, j: nat)
    requires Sortable(s, base) && p < |s| - 1 && j < |s| - 1 && s[p] == s[j] && IsS(s, p) && IsS(s, j)
    ensures Less(s, base, p, j) <==> Rank(s, base, p + 1) < Rank(s, base, j + 1)
  {
    hide Rank;
    RankOrder(s, base, p + 1, j + 1);
    if p == j { LessTotal(s, base, p, p); }
  }

  /** One step of the second pass. */
  lemma StepS(s: seq<int>, base: seq<int>, sa: seq<int>, bkt: seq<int>, i: nat)
    requires ScannedS(s, base, sa, bkt, i + 1) && i < |s|
    ensures 0 <= sa[i] < |s|
    ensures sa[i] == 0 || !IsS(s, sa[i] - 1) ==> ScannedS(s, base, sa, bkt, i)
    ensures sa[i] > 0 && IsS(s, sa[i] - 1) ==>
              var j := sa[i] - 1; var c := s[j];
              && 0 <= c < |bkt| && 0 <= bkt[c] < |s|
              && ScannedS(s, base, sa[bkt[c] := j], bkt[c := bkt[c] - 1], i)
  {
    hide *;
    FoundS(s, base, sa, bkt, i);
    if sa[i] > 0 && IsS(s, sa[i] - 1) {
      PlaceS(s, base, sa, bkt, i);
    } else {
      SkipS(s, base, sa, bkt, i);
    }
  }

  lemma SkipS(s: seq<int>, base: seq<int>, sa: seq<int>, bkt: seq<int>, i: nat)
    requires ScannedS(s, base, sa, bkt, i + 1) && i < |s| && 0 <= sa[i] < |s| && Rank(s, base, sa[i]) == i
    requires sa[i] == 0 || !IsS(s, sa[i] - 1)
    ensures ScannedS(s, base, sa, bkt, i)
  {
    hide FedS, Order, Rank, Below, IsLms;
    forall c | 0 <= c < |bkt| ensures FedS(s, base, c, i) == FedS(s, base, c, i + 1) { FedSNext(s, base, sa[i], i, c); }
    forall p | 0 <= p < |s| - 1 && IsS(s, p) && Rank(s, base, p + 1) == i ensures p == sa[i] - 1 {
      if p + 1 != sa[i] { RankOrder(s, base, p + 1, sa[i]); }
    }
  }

  lemma PlaceS(s: seq<int>, base: seq<int>, sa: seq<int>, bkt: seq<int>, i: nat)
    requires ScannedS(s, base, sa, bkt, i + 1) && i < |s| && 0 < sa[i] < |s| && IsS(s, sa[i] - 1)
    requires Rank(s, base, sa[i]) == i
    ensures var j := sa[i] - 1; var c := s[j];
            && 0 <= c < |bkt| && 0 <= bkt[c] < |s|
            && ScannedS(s, base, sa[bkt[c] := j], bkt[c := bkt[c] - 1], i)
  {
    hide FedS, Order, Rank, Below, IsLms;
    var j := sa[i] - 1;
    TailIsRank(s, base, sa, bkt, i);
    PlacedSNext(s, base, sa, bkt, i);
    forall c | 0 <= c < |bkt|
      ensures |FedS(s, base, c, i)| == |FedS(s, base, c, i + 1)| + (if s[j] == c then 1 else 0)
    {
      FedSNext(s, base, sa[i], i, c);
    }
  }

  lemma PlacedSNext(s: seq<int>, base: seq<int>, sa: seq<int>, bkt: seq<int>, i: nat)
    requires ScannedS(s, base, sa, bkt, i + 1) && i < |s| && 0 < sa[i] < |s| && IsS(s, sa[i] - 1)
    requires Rank(s, base, sa[i]) == i
    ensures var j := sa[i] - 1;
            Rank(s, base, j) < |s| &&
            (var sa' := sa[Rank(s, base, j) := j]; AllLPlaced(s, base, sa') && PlacedS(s, base, sa', i))
  {
    hide Rank, Order;
    var j := sa[i] - 1;
    RankBound(s, base, j);
    LastIsFirst(s, base);
    var sa' := sa[Rank(s, base, j) := j];
    forall p | 0 <= p < |s| && p != j ensures Rank(s, base, p) != Rank(s, base, j) { RankOrder(s, base, p, j); }
    forall p | 0 <= p < |s| - 1 && IsS(s, p) && Rank(s, base, p + 1) >= i ensures At(sa', Rank(s, base, p), p) {
      if Rank(s, base, p + 1) == i && p != j { RankOrder(s, base, p + 1, sa[i]); }
    }
  }

  // ---------- between and after the passes ----------

  /** Behind the first pass every L suffix stands at its rank. */
  lemma AllScannedL(s: seq<int>, base: seq<int>, sa: seq<int>, bkt: seq<int>)
    requires ScannedL(s, base, sa, bkt, |s|) && |s| >= 2
    ensures AllLPlaced(s, base, sa)
  {
    hide Rank, Park, FedL;
    forall p | 0 <= p < |s| && !IsS(s, p) ensures At(sa, Rank(s, base, p), p) {
      SlotInBucket(s, base, p + 1);
      assert At(sa, Slot(s, base, p), p);
    }
    LastParked(s, base);
    assert At(sa, Slot(s, base, |s| - 1), |s| - 1);
  }

  lemma LastParked(s: seq<int>, base: seq<int>)
    requires Sortable(s, base) && |s| >= 2
    ensures IsLms(s, |s| - 1) && Slot(s, base, |s| - 1) == 0
  {
    TypeFacts(s, |s| - 2);
    SlotInBucket(s, base, |s| - 1);
    BucketZero(s);
  }

  /** The smallest character has the first bucket for itself. */
  lemma BucketZero(s: seq<int>)
    requires Terminated(s)
    ensures Head(s, 0) == 0 && Behind(s, 0) == 1
  {
    BucketSize(s, 0);
    BelowNone(s, |s|, 0);
    assert WithChar(s, 0) == {|s| - 1};
  }

  /** The suffixes in induced order. */
  ghost predicate InOrder(s: seq<int>, base: seq<int>, sa: seq<int>) {
    && Sortable(s, base) && IsPermutation(sa, |s|)
    && forall i, j :: 0 <= i < j < |s| ==> Order(s, base, sa[i], sa[j], false) < 0
  }

  lemma AllScannedS(s: seq<int>, base: seq<int>, sa: seq<int>, bkt: seq<int>)
    requires ScannedS(s, base, sa, bkt, 0)
    ensures InOrder(s, base, sa)
  {
    forall i | 0 <= i < |s| ensures 0 <= sa[i] < |s| && Rank(s, base, sa[i]) == i {
      var p := AtRank(s, base, i);
      LastIsFirst(s, base);
      assert p < |s| - 1 ==> Rank(s, base, p + 1) >= 0;
      assert At(sa, Rank(s, base, p), p);
    }
    forall i, j | 0 <= i < j < |s| ensures sa[i] != sa[j] && Order(s, base, sa[i], sa[j], false) < 0 {
      RankOrder(s, base, sa[i], sa[j]);
    }
  }

  // ---------- parking the leftmost S suffixes ----------

  /** The list and the bucket tails when the leftmost S suffixes with base numbers above t are parked, the last suffix
      excepted. */
  ghost predicate Parking(s: seq<int>, base: seq<int>, sa: seq<int>, bkt: seq<int>, t: int) {
    && Sortable(s, base) && |sa| == |s| && Bucketed(s, |bkt|)
    && (forall q :: 0 <= q < |s| - 1 && IsLms(s, q) && base[q] > t ==> At(sa, Park(s, base, q), q))
    && (forall k :: 0 <= k < |sa| ==>
         sa[k] == -1 || (0 <= sa[k] < |s| - 1 && IsLms(s, sa[k]) && Park(s, base, sa[k]) == k))
    && (forall c :: 0 < c < |bkt| ==> bkt[c] == Behind(s, c) - 1 - |ParkedAbove(s, base, c, t)|)
  }

  lemma ParkNext(s: seq<int>, base: seq<int>, p: nat, c: int)
    requires Sortable(s, base) && p < |s| && IsLms(s, p)
    ensures ParkedAbove(s, base, c, base[p] - 1) == ParkedAbove(s, base, c, base[p]) + (if s[p] == c then {p} else {})
    ensures p !in ParkedAbove(s, base, c, base[p])
  {
    forall q | q in ParkedAbove(s, base, c, base[p] - 1) && base[q] == base[p] ensures q == p {}
  }

  /** Parking one more. */
  lemma ParkStep(s: seq<int>, base: seq<int>, sa: seq<int>, bkt: seq<int>, p: nat)
    requires p < |s| - 1 && IsLms(s, p) && |base| == |s| && Parking(s, base, sa, bkt, base[p])
    ensures var c := s[p];
            && 0 < c < |bkt| && 0 <= bkt[c] < |s|
            && Parking(s, base, sa[bkt[c] := p], bkt[c := bkt[c] - 1], base[p] - 1)
  {
    hide ParkedAbove, Order, Below;
    ParkPlace(s, base, p);
    forall c | 0 < c < |bkt|
      ensures |ParkedAbove(s, base, c, base[p] - 1)|
              == |ParkedAbove(s, base, c, base[p])| + (if s[p] == c then 1 else 0)
    {
      ParkNext(s, base, p, c);
    }
    forall q | 0 <= q < |s| && IsLms(s, q) && q != p ensures Park(s, base, q) != Park(s, base, p) {
      SlotOrder(s, base, q, p);
    }
    forall q | 0 <= q < |s| && base[q] > base[p] - 1 && q != p ensures base[q] > base[p] {}
  }

  lemma ParkPlace(s: seq<int>, base: seq<int>, p: nat)
    requires Sortable(s, base) && p < |s| && IsLms(s, p)
    ensures 0 <= Park(s, base, p) < |s|
    ensures Park(s, base, p) == Behind(s, s[p]) - 1 - |ParkedAbove(s, base, s[p], base[p])|
  {
    ParkInBucket(s, base, p);
  }

  /** Nothing changes while no base number is passed. */
  lemma ParkSkip(s: seq<int>, base: seq<int>, sa: seq<int>, bkt: seq<int>, t: int, t': int)
    requires Parking(s, base, sa, bkt, t) && t' <= t
    requires forall q :: 0 <= q < |s| - 1 && IsLms(s, q) ==> !(t' < base[q] <= t)
    ensures Parking(s, base, sa, bkt, t')
  {
    hide Park, Order, Below;
    forall c | 0 < c < |bkt| ensures ParkedAbove(s, base, c, t') == ParkedAbove(s, base, c, t) {
      assert s[|s| - 1] != c;
    }
  }

  lemma ParkNone(s: seq<int>, base: seq<int>, sa: seq<int>, bkt: seq<int>, t: int)
    requires Sortable(s, base) && |sa| == |s| && Bucketed(s, |bkt|)
    requires forall k :: 0 <= k < |sa| ==> sa[k] == -1
    requires forall c :: 0 <= c < |bkt| ==> bkt[c] == Behind(s, c) - 1
    requires forall q :: 0 <= q < |s| - 1 && IsLms(s, q) ==> base[q] <= t
    ensures Parking(s, base, sa, bkt, t)
  {
    hide Park, Order, Below;
    forall c | 0 < c < |bkt| ensures ParkedAbove(s, base, c, t) == {} { assert s[|s| - 1] != c; }
  }

  /** With the last suffix in front, the first pass can start. */
  lemma ParkAll(s: seq<int>, base: seq<int>, sa: seq<int>, bkt: seq<int>, bkt': seq<int>, t: int)
    requires Parking(s, base, sa, bkt, t) && |s| >= 2
    requires forall q :: 0 <= q < |s| - 1 && IsLms(s, q) ==> base[q] > t
    requires Bucketed(s, |bkt'|) && forall c :: 0 <= c < |bkt'| ==> bkt'[c] == Head(s, c)
    ensures ScannedL(s, base, sa[0 := |s| - 1], bkt', 0)
  {
    hide Park, Order, Below, Rank;
    LastParked(s, base);
    var sa' := sa[0 := |s| - 1];
    forall q | 0 <= q < |s| - 1 && IsLms(s, q) ensures Slot(s, base, q) != 0 { SlotOrder(s, base, q, |s| - 1); }
    forall p | 0 <= p < |s| ensures Slot(s, base, p) >= 0 { SlotInBucket(s, base, p); }
    forall c | 0 <= c < |bkt'| ensures FedL(s, base, c, 0) == {} {}
  }
}
