/** Sorting the rotations of a block by prefix doubling: two stable counting passes for every doubling. */
module SuffixSort {
  import opened Bits
  import opened Permutations
  import opened Rotations

  /** The ranks order the positions by their first h cyclic characters, equal ranks meaning equal prefixes. */
  ghost predicate RanksPrefixes(s: seq<int>, rank: seq<int>, h: nat) {
    && |rank| == |s|
    && (forall p :: 0 <= p < |s| ==> 0 <= rank[p] < |s|)
    && forall p, q :: 0 <= p < |s| && 0 <= q < |s| ==>
         && (rank[p] < rank[q] <==> Cmp(s, p, q, h) < 0)
         && (rank[p] == rank[q] <==> Cmp(s, p, q, h) == 0)
  }

  ghost predicate SortedByPrefix(s: seq<int>, sa: seq<int>, h: nat) {
    && IsPermutation(sa, |s|)
    && forall i, j :: 0 <= i < j < |s| ==> Cmp(s, sa[i], sa[j], h) <= 0
  }

  /** The keys of one counting pass: the rank gap characters further round. */
  function KeysAt(items: seq<int>, rank: seq<int>, gap: nat): (keys: seq<int>)
    requires forall i :: 0 <= i < |items| ==> 0 <= items[i] < |rank|
    requires gap < |rank|
    ensures |keys| == |items|
  {
    seq(|items|, i requires 0 <= i < |items| => rank[Wrap(|rank|, items[i] + gap)])
  }

  // ---------- one counting pass ----------

  ghost predicate PassInput(items: seq<int>, rank: seq<int>, gap: nat, cntSize: nat) {
    && |items| == |rank| && gap < |rank| && cntSize >= 2
    && (forall i :: 0 <= i < |items| ==> 0 <= items[i] < |rank|)
    && (forall p :: 0 <= p < |rank| ==> 0 <= rank[p] && rank[p] + 2 <= cntSize)
  }

  method CountKeys(items: array<int>, rank: array<int>, gap: nat, cnt: array<int>)
    requires cnt != items && cnt != rank && PassInput(items[..], rank[..], gap, cnt.Length)
    requires forall c :: 0 <= c < cnt.Length ==> cnt[c] == 0
    modifies cnt
    ensures cnt[0] == 0
    ensures forall c :: 1 <= c < cnt.Length ==>
              cnt[c] == Equal(KeysAt(items[..], rank[..], gap), items.Length, c - 1)
  {
    var n := items.Length;
    ghost var keys := KeysAt(items[..], rank[..], gap);
    for i := 0 to n
      invariant cnt[0] == 0
      invariant forall c :: 1 <= c < cnt.Length ==> cnt[c] == Equal(keys, i, c - 1)
    {
      var idx := Wrap(n, items[i] + gap);
      assert rank[idx] == keys[i];
      cnt[rank[idx] + 1] := cnt[rank[idx] + 1] + 1;
    }
  }

  method SumCounts(cnt: array<int>, ghost keys: seq<int>)
    requires cnt.Length >= 2 && cnt[0] == 0
    requires forall i :: 0 <= i < |keys| ==> keys[i] >= 0
    requires forall c :: 1 <= c < cnt.Length ==> cnt[c] == Equal(keys, |keys|, c - 1)
    modifies cnt
    ensures forall c :: 0 <= c < cnt.Length ==> cnt[c] == Below(keys, |keys|, c)
  {
    BelowNone(keys, |keys|, 0);
    for i := 1 to cnt.Length
      invariant forall c :: 0 <= c < i ==> cnt[c] == Below(keys, |keys|, c)
      invariant forall c :: i <= c < cnt.Length ==> cnt[c] == Equal(keys, |keys|, c - 1)
    {
      BelowNext(keys, |keys|, i - 1);
      cnt[i] := cnt[i] + cnt[i - 1];
    }
  }

  method CountingPass(items: array<int>, rank: array<int>, gap: nat, cntSize: nat, out: array<int>)
    requires out != items && out != rank && out.Length == items.Length
    requires PassInput(items[..], rank[..], gap, cntSize)
    modifies out
    ensures StablySorted(items[..], KeysAt(items[..], rank[..], gap), out[..])
  {
    hide Scattered, StablySorted, Below, Equal;
    var n := items.Length;
    ghost var xs, rs := items[..], rank[..];
    ghost var keys := KeysAt(xs, rs, gap);
    var cnt := new int[cntSize](_ => 0);
    CountKeys(items, rank, gap, cnt);
    SumCounts(cnt, keys);
    ScatterStart(xs, keys, cnt[..], out[..]);
    for i := 0 to n
      invariant items[..] == xs && rank[..] == rs
      invariant Scattered(xs, keys, cnt[..], out[..], i)
    {
      var idx := Wrap(n, items[i] + gap);
      var key := rank[idx];
      assert key == rs[idx] == keys[i] && items[i] == xs[i];
      ScatterNext(xs, keys, cnt[..], out[..], i);
      ghost var counts, before := cnt[..], out[..];
      assert cnt[key] == counts[key];
      out[cnt[key]] := items[i];
      cnt[key] := cnt[key] + 1;
      assert out[..] == before[counts[key] := xs[i]] && cnt[..] == counts[key := counts[key] + 1];
    }
    ScatterEnd(xs, keys, cnt[..], out[..]);
  }

  // ---------- the initial sort by byte ----------

  method SortByByte(block: seq<byte>, sa: array<int>)
    requires sa.Length == |block|
    modifies sa
    ensures StablySorted(Identity(|block|), block, sa[..])
  {
    var n := |block|;
    var freq := new int[256](_ => 0);
    for i := 0 to n
      invariant forall c :: 0 <= c < 256 ==> freq[c] == Equal(block, i, c)
    {
      freq[block[i]] := freq[block[i]] + 1;
    }
    var pos := new int[256];
    var acc := 0;
    BelowNone(block, n, 0);
    for c := 0 to 256
      invariant forall d :: 0 <= d < 256 ==> freq[d] == Equal(block, n, d)
      invariant acc == Below(block, n, c)
      invariant forall d :: 0 <= d < c ==> pos[d] == Below(block, n, d)
    {
      BelowNext(block, n, c);
      pos[c] := acc;
      acc := acc + freq[c];
    }
    ScatterStart(Identity(n), block, pos[..], sa[..]);
    for i := 0 to n
      invariant Scattered(Identity(n), block, pos[..], sa[..], i)
    {
      ScatterNext(Identity(n), block, pos[..], sa[..], i);
      ghost var places, before := pos[..], sa[..];
      assert pos[block[i]] == places[block[i]];
      sa[pos[block[i]]] := i;
      pos[block[i]] := pos[block[i]] + 1;
      assert sa[..] == before[places[block[i]] := i] && pos[..] == places[block[i] := places[block[i]] + 1];
    }
    ScatterEnd(Identity(n), block, pos[..], sa[..]);
  }

  // ---------- ranks from a sorted list ----------

  /** Numbers the positions along sa, going up by one where neighbours differ in their first h characters. */
  ghost predicate RanksAlong(s: seq<int>, sa: seq<int>, rank: seq<int>, h: nat, m: nat)
    requires IsPermutation(sa, |s|) && |rank| == |s| && m <= |s|
  {
    && (m > 0 ==> rank[sa[0]] == 0)
    && forall i :: 1 <= i < m ==>
         rank[sa[i]] == rank[sa[i - 1]] + (if Cmp(s, sa[i - 1], sa[i], h) == 0 then 0 else 1)
  }

  lemma {:induction false} RanksAlongBound(s: seq<int>, sa: seq<int>, rank: seq<int>, h: nat, i: nat, j: nat)
    requires SortedByPrefix(s, sa, h) && |rank| == |s| && RanksAlong(s, sa, rank, h, |s|)
    requires i <= j < |s|
    ensures 0 <= rank[sa[i]] <= rank[sa[j]] <= j
    ensures rank[sa[i]] == rank[sa[j]] <==> Cmp(s, sa[i], sa[j], h) == 0
    decreases j
  {
    CmpReflexive(s, sa[i], h);
    if i < j {
      RanksAlongBound(s, sa, rank, h, i, j - 1);
      CmpTransitive(s, sa[i], sa[j - 1], sa[j], h);
    } else if j > 0 {
      RanksAlongBound(s, sa, rank, h, j - 1, j - 1);
    }
  }

  /** Ranks numbered along a list sorted by h characters rank the h-character prefixes. */
  lemma RanksAlongRankPrefixes(s: seq<int>, sa: seq<int>, rank: seq<int>, h: nat)
    requires SortedByPrefix(s, sa, h) && |rank| == |s| && RanksAlong(s, sa, rank, h, |s|)
    ensures RanksPrefixes(s, rank, h)
  {
    forall p, q | 0 <= p < |s| && 0 <= q < |s|
      ensures 0 <= rank[p] < |s|
      ensures rank[p] < rank[q] <==> Cmp(s, p, q, h) < 0
      ensures rank[p] == rank[q] <==> Cmp(s, p, q, h) == 0
    {
      var i, j := IndexIn(sa, |s|, p), IndexIn(sa, |s|, q);
      CmpMirror(s, p, q, h);
      RanksAlongBound(s, sa, rank, h, i, i);
      if i <= j { RanksAlongBound(s, sa, rank, h, i, j); } else { RanksAlongBound(s, sa, rank, h, j, i); }
    }
  }

  // ---------- one doubling ----------

  /** Comparing by 2*gap characters is comparing ranks here first and ranks gap further on second. */
  lemma DoubledComparison(s: seq<int>, rank: seq<int>, gap: nat, p: nat, q: nat)
    requires RanksPrefixes(s, rank, gap) && gap < |s| && p < |s| && q < |s|
    ensures var n := |s|;
            var p', q' := Wrap(n, p + gap), Wrap(n, q + gap);
            && (Cmp(s, p, q, 2 * gap) == 0 <==> rank[p] == rank[q] && rank[p'] == rank[q'])
            && (Cmp(s, p, q, 2 * gap) < 0 <==> rank[p] < rank[q] || (rank[p] == rank[q] && rank[p'] < rank[q']))
  {
    CmpSplit(s, p, q, gap, gap);
    AdvanceWrap(|s|, p, gap);
    AdvanceWrap(|s|, q, gap);
  }

  /** work and then sa' come from sa by the two stable passes of one doubling. */
  ghost predicate TwoPasses(s: seq<int>, rank: seq<int>, gap: nat, sa: seq<int>, work: seq<int>, sa': seq<int>) {
    && RanksPrefixes(s, rank, gap) && 0 < gap < |s|
    && IsPermutation(sa, |s|) && IsPermutation(work, |s|)
    && StablySorted(sa, KeysAt(sa, rank, gap), work)
    && StablySorted(work, KeysAt(work, rank, 0), sa')
  }

  lemma FirstPassOrder(s: seq<int>, rank: seq<int>, gap: nat, sa: seq<int>, work: seq<int>, k: nat, l: nat)
    requires RanksPrefixes(s, rank, gap) && gap < |s| && IsPermutation(sa, |s|)
    requires StablySorted(sa, KeysAt(sa, rank, gap), work) && IsPermutation(work, |s|)
    requires k < l < |s|
    ensures rank[Wrap(|s|, work[k] + gap)] <= rank[Wrap(|s|, work[l] + gap)]
  {
    var keys := KeysAt(sa, rank, gap);
    var u, v := ItemAt(keys, k), ItemAt(keys, l);
    ItemOrder(keys, k, l);
    assert work[Place(keys, u)] == sa[u] && work[Place(keys, v)] == sa[v];
  }

  lemma TwoPassesOrder(s: seq<int>, rank: seq<int>, gap: nat, sa: seq<int>, work: seq<int>, sa': seq<int>,
                       i: nat, j: nat)
    requires TwoPasses(s, rank, gap, sa, work, sa') && IsPermutation(sa', |s|) && i < j < |s|
    ensures Cmp(s, sa'[i], sa'[j], 2 * gap) <= 0
  {
    hide Cmp;
    var keys := KeysAt(work, rank, 0);
    var k, l := ItemAt(keys, i), ItemAt(keys, j);
    ItemOrder(keys, i, j);
    assert sa'[Place(keys, k)] == work[k] && sa'[Place(keys, l)] == work[l];
    assert keys[k] == rank[work[k]] && keys[l] == rank[work[l]];
    DoubledComparison(s, rank, gap, work[k], work[l]);
    if k < l { FirstPassOrder(s, rank, gap, sa, work, k, l); }
  }

  /** Two stable passes, second key first, sort by the pair of keys. */
  lemma TwoPassesSort(s: seq<int>, rank: seq<int>, gap: nat, sa: seq<int>, work: seq<int>, sa': seq<int>)
    requires TwoPasses(s, rank, gap, sa, work, sa')
    ensures SortedByPrefix(s, sa', 2 * gap)
  {
    StablySortedPermutation(work, KeysAt(work, rank, 0), sa', |s|);
    forall i, j | 0 <= i < j < |s| ensures Cmp(s, sa'[i], sa'[j], 2 * gap) <= 0 {
      TwoPassesOrder(s, rank, gap, sa, work, sa', i, j);
    }
  }

  // ---------- the whole sorter ----------

  lemma ByteOrderIsPrefixOrder(block: seq<byte>, sa: seq<int>)
    requires StablySorted(Identity(|block|), block, sa)
    ensures SortedByPrefix(block, sa, 1)
  {
    var n := |block|;
    StablySortedPermutation(Identity(n), block, sa, n);
    forall i, j | 0 <= i < j < n ensures Cmp(block, sa[i], sa[j], 1) <= 0 {
      var k, l := ItemAt(block, i), ItemAt(block, j);
      ItemOrder(block, i, j);
      assert sa[Place(block, k)] == k && sa[Place(block, l)] == l;
    }
  }

  /** n distinct ranks mean that gap characters already tell all rotations apart. */
  lemma UniqueRanksSorted(s: seq<int>, sa: seq<int>, rank: seq<int>, gap: nat)
    requires |s| > 0 && SortedByPrefix(s, sa, gap) && |rank| == |s| && RanksAlong(s, sa, rank, gap, |s|)
    requires gap >= |s| || rank[sa[|s| - 1]] == |s| - 1
    ensures RotationOrder(s, sa)
  {
    var n := |s|;
    forall i, j | 0 <= i < j < n ensures Cmp(s, sa[i], sa[j], n) <= 0 {
      if gap >= n {
        CmpPrefix(s, sa[i], sa[j], n, gap);
      } else {
        RanksStrict(s, sa, rank, gap, j);
        RanksStrict(s, sa, rank, gap, i);
        RanksAlongBound(s, sa, rank, gap, i, j);
        CmpPrefix(s, sa[i], sa[j], gap, n);
      }
    }
  }

  lemma {:induction false} RanksStrict(s: seq<int>, sa: seq<int>, rank: seq<int>, h: nat, i: nat)
    requires SortedByPrefix(s, sa, h) && |rank| == |s| && RanksAlong(s, sa, rank, h, |s|)
    requires i < |s| && rank[sa[|s| - 1]] == |s| - 1
    ensures rank[sa[i]] == i
    decreases |s| - i
  {
    if i < |s| - 1 {
      RanksStrict(s, sa, rank, h, i + 1);
      RanksAlongBound(s, sa, rank, h, i, i);
    }
  }

  method RankBytes(block: seq<byte>, sa: array<int>, rank: array<int>)
    requires |block| > 0 && sa.Length == rank.Length == |block| && sa != rank
    requires SortedByPrefix(block, sa[..], 1)
    modifies rank
    ensures RanksAlong(block, sa[..], rank[..], 1, |block|)
  {
    rank[sa[0]] := 0;
    ghost var order := sa[..];
    for i := 1 to |block|
      invariant sa[..] == order
      invariant RanksAlong(block, order, rank[..], 1, i)
    {
      assert sa[i] == order[i] && sa[i - 1] == order[i - 1];
      assert Cmp(block, order[i - 1], order[i], 1) <= 0;
      ghost var before := rank[..];
      rank[sa[i]] := rank[sa[i - 1]] + (if block[sa[i]] != block[sa[i - 1]] then 1 else 0);
      assert rank[..] == before[order[i] := rank[sa[i]]];
    }
  }

  lemma RanksAlongStart(s: seq<int>, sa: seq<int>, rank: seq<int>, h: nat)
    requires IsPermutation(sa, |s|) && |rank| == |s| > 0
    ensures RanksAlong(s, sa, rank[sa[0] := 0], h, 1)
  {}

  lemma RanksAlongNext(s: seq<int>, sa: seq<int>, rank: seq<int>, h: nat, i: nat, r: int)
    requires IsPermutation(sa, |s|) && |rank| == |s| && 1 <= i < |s| && RanksAlong(s, sa, rank, h, i)
    requires r == rank[sa[i - 1]] + (if Cmp(s, sa[i - 1], sa[i], h) == 0 then 0 else 1)
    ensures RanksAlong(s, sa, rank[sa[i] := r], h, i + 1)
  {}

  method RankPairs(s: seq<byte>, sa: array<int>, rank: array<int>, gap: nat, rankTmp: array<int>)
    requires |s| > 0 && sa.Length == rank.Length == rankTmp.Length == |s|
    requires rankTmp != sa && rankTmp != rank
    requires 0 < gap < |s| && RanksPrefixes(s, rank[..], gap)
    requires SortedByPrefix(s, sa[..], 2 * gap)
    modifies rankTmp
    ensures RanksAlong(s, sa[..], rankTmp[..], 2 * gap, |s|)
  {
    hide RanksAlong, Cmp, Injective;
    var n := |s|;
    ghost var order := sa[..];
    RanksAlongStart(s, order, rankTmp[..], 2 * gap);
    ghost var first := rankTmp[..];
    rankTmp[sa[0]] := 0;
    assert rankTmp[..] == first[order[0] := 0];
    for i := 1 to n
      invariant sa[..] == order && rank[..] == old(rank[..])
      invariant RanksAlong(s, order, rankTmp[..], 2 * gap, i)
    {
      assert sa[i] == order[i] && sa[i - 1] == order[i - 1];
      ghost var before := rankTmp[..];
      var pi, qi := Wrap(n, sa[i] + gap), Wrap(n, sa[i - 1] + gap);
      var same := rank[sa[i]] == rank[sa[i - 1]] && rank[pi] == rank[qi];
      DoubledComparison(s, rank[..], gap, sa[i - 1], sa[i]);
      rankTmp[sa[i]] := rankTmp[sa[i - 1]] + (if same then 0 else 1);
      RanksAlongNext(s, order, before, 2 * gap, i, rankTmp[sa[i]]);
      assert rankTmp[..] == before[order[i] := rankTmp[sa[i]]];
    }
  }

  method CopyInto(src: array<int>, dst: array<int>)
    requires src.Length == dst.Length && src != dst
    modifies dst
    ensures dst[..] == src[..]
  {
    for i := 0 to src.Length
      invariant dst[..i] == src[..i]
    {
      dst[i] := src[i];
    }
  }

  /** One round: from an order by gap characters to an order by twice as many. */
  method Double(block: seq<byte>, sa: array<int>, work: array<int>, rank: array<int>, rankTmp: array<int>, gap: nat)
    requires 0 < gap < |block| == sa.Length == work.Length == rank.Length == rankTmp.Length
    requires sa != work && sa != rank && sa != rankTmp && work != rank && work != rankTmp && rank != rankTmp
    requires SortedByPrefix(block, sa[..], gap) && RanksAlong(block, sa[..], rank[..], gap, |block|)
    modifies sa, work, rank, rankTmp
    ensures SortedByPrefix(block, sa[..], 2 * gap)
    ensures RanksAlong(block, sa[..], rank[..], 2 * gap, |block|)
  {
    var n := |block|;
    ghost var sa0, rank0 := sa[..], rank[..];
    RanksAlongRankPrefixes(block, sa0, rank0, gap);
    var maxRank := rank[sa[n - 1]];
    forall p | 0 <= p < n ensures rank0[p] <= maxRank {
      RanksAlongBound(block, sa0, rank0, gap, IndexIn(sa0, n, p), n - 1);
    }
    var cntSize := maxRank + 2;
    CountingPass(sa, rank, gap, cntSize, work);
    ghost var work0 := work[..];
    StablySortedPermutation(sa0, KeysAt(sa0, rank0, gap), work0, n);
    CountingPass(work, rank, 0, cntSize, sa);
    TwoPassesSort(block, rank0, gap, sa0, work0, sa[..]);
    RankPairs(block, sa, rank, gap, rankTmp);
    CopyInto(rankTmp, rank);
  }

  /** Sorts all rotations of the block; sa becomes the list of their starts. */
  method BuildSuffixArray(block: seq<byte>, sa: array<int>)
    requires |block| > 0 && sa.Length == |block|
    modifies sa
    ensures RotationOrder(block, sa[..])
  {
    var n := |block|;
    var work, rank, rankTmp := new int[n], new int[n], new int[n];
    SortByByte(block, sa);
    ByteOrderIsPrefixOrder(block, sa[..]);
    RankBytes(block, sa, rankTmp);
    CopyInto(rankTmp, rank);
    var gap := 1;
    while gap < n
      invariant gap > 0
      invariant SortedByPrefix(block, sa[..], gap)
      invariant RanksAlong(block, sa[..], rank[..], gap, n)
      decreases n - gap
    {
      if rank[sa[n - 1]] == n - 1 { break; }
      Double(block, sa, work, rank, rankTmp, gap);
      gap := 2 * gap;
    }
    UniqueRanksSorted(block, sa[..], rank[..], gap);
  }
}
