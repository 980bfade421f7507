/** Greedy merging is optimal: no lengths that leave room for a prefix code have a smaller weighted sum. */
module HuffmanOptimal {
  import opened Bits
  import opened Canonical
  import opened HuffmanTree

  // ---------- depths and the room they take ----------

  ghost predicate Within(d: seq<nat>, top: nat) {
    forall i :: 0 <= i < |d| ==> d[i] <= top
  }

  /** The strings of length top that start with one of the codes. */
  function Share(d: seq<nat>, top: nat): nat
    requires Within(d, top)
  {
    if |d| == 0 then 0 else Pow2(top - d[0]) + Share(d[1..], top)
  }

  /** Codes of these lengths have room beside each other. */
  ghost predicate HasRoom(d: seq<nat>) {
    exists top: nat :: RoomAt(d, top)
  }

  ghost predicate RoomAt(d: seq<nat>, top: nat) {
    Within(d, top) && Share(d, top) <= Pow2(top)
  }

  /** The weighted sum of the lengths. */
  function Dot(w: seq<nat>, d: seq<nat>): nat
    requires |w| == |d|
  {
    if |d| == 0 then 0 else w[0] * d[0] + Dot(w[1..], d[1..])
  }

  lemma {:induction false} ShareUpdate(d: seq<nat>, top: nat, i: nat, v: nat)
    requires Within(d, top) && i < |d| && v <= top
    ensures Within(d[i := v], top)
    ensures Share(d[i := v], top) + Pow2(top - d[i]) == Share(d, top) + Pow2(top - v)
    decreases |d|
  {
    hide Pow2;
    var e := d[i := v];
    if i == 0 {
      assert e[1..] == d[1..];
    } else {
      ShareUpdate(d[1..], top, i - 1, v);
      assert e[1..] == d[1..][i - 1 := v];
    }
  }

  lemma {:induction false} DotUpdate(w: seq<nat>, d: seq<nat>, i: nat, v: nat)
    requires |w| == |d| && i < |d|
    ensures Dot(w, d[i := v]) + w[i] * d[i] == Dot(w, d) + w[i] * v
    decreases |d|
  {
    var e := d[i := v];
    if i == 0 {
      assert e[1..] == d[1..];
    } else {
      DotUpdate(w[1..], d[1..], i - 1, v);
      assert e[1..] == d[1..][i - 1 := v];
    }
  }

  lemma {:induction false} ShareWithout(d: seq<nat>, top: nat, k: nat)
    requires Within(d, top) && k < |d|
    ensures Within(Without(d, k), top) && Share(d, top) == Share(Without(d, k), top) + Pow2(top - d[k])
    decreases |d|
  {
    hide Pow2;
    if k == 0 {
      assert Without(d, 0) == d[1..];
    } else {
      ShareWithout(d[1..], top, k - 1);
      assert Without(d, k)[1..] == Without(d[1..], k - 1);
    }
  }

  lemma {:induction false} DotWithout(w: seq<nat>, d: seq<nat>, k: nat)
    requires |w| == |d| && k < |d|
    ensures Dot(w, d) == Dot(Without(w, k), Without(d, k)) + w[k] * d[k]
    decreases |d|
  {
    if k == 0 {
      assert Without(d, 0) == d[1..] && Without(w, 0) == w[1..];
    } else {
      DotWithout(w[1..], d[1..], k - 1);
      assert Without(d, k)[1..] == Without(d[1..], k - 1) && Without(w, k)[1..] == Without(w[1..], k - 1);
    }
  }

  lemma {:induction false} ShareAppend(d: seq<nat>, top: nat, v: nat)
    requires Within(d, top) && v <= top
    ensures Within(d + [v], top) && Share(d + [v], top) == Share(d, top) + Pow2(top - v)
    decreases |d|
  {
    hide Pow2;
    if |d| == 0 {
      assert d + [v] == [v] && [v][1..] == [];
    } else {
      ShareAppend(d[1..], top, v);
      assert (d + [v])[1..] == d[1..] + [v];
    }
  }

  lemma {:induction false} DotAppend(w: seq<nat>, d: seq<nat>, x: nat, v: nat)
    requires |w| == |d|
    ensures Dot(w + [x], d + [v]) == Dot(w, d) + x * v
    decreases |d|
  {
    if |d| == 0 {
      assert d + [v] == [v] && w + [x] == [x] && [v][1..] == [] && [x][1..] == [];
    } else {
      DotAppend(w[1..], d[1..], x, v);
      assert (d + [v])[1..] == d[1..] + [v] && (w + [x])[1..] == w[1..] + [x];
    }
  }

  // ---------- two codes of the greatest length ----------

  /** Without a code of length top, everything is even. */
  lemma {:induction false} ShareHalved(d: seq<nat>, top: nat)
    requires top > 0 && Within(d, top - 1)
    ensures Within(d, top) && Share(d, top) == 2 * Share(d, top - 1)
    decreases |d|
  {
    if |d| > 0 { ShareHalved(d[1..], top); }
  }

  lemma {:induction false} ShareOfZeros(d: seq<nat>)
    requires Within(d, 0)
    ensures Share(d, 0) == |d|
    decreases |d|
  {
    if |d| > 0 { ShareOfZeros(d[1..]); }
  }

  ghost predicate TwoDeepest(d: seq<nat>, top: nat, x: nat, y: nat) {
    RoomAt(d, top) && top > 0 && x < y < |d| && d[x] == d[y] == top
  }

  lemma DropUnused(d: seq<nat>, top: nat)
    requires RoomAt(d, top) && top > 0 && Within(d, top - 1)
    ensures RoomAt(d, top - 1)
  {
    hide Share, Pow2;
    ShareHalved(d, top);
    Twice(top);
  }

  /** The only code of the greatest length can be one shorter: everything else is even. */
  lemma ShortenOne(w: seq<nat>, d: seq<nat>, top: nat, i: nat)
    requires |w| == |d| && RoomAt(d, top) && i < |d| && d[i] == top > 0
    requires forall j :: 0 <= j < |d| && j != i ==> d[j] < top
    ensures RoomAt(d[i := top - 1], top - 1) && Dot(w, d[i := top - 1]) <= Dot(w, d)
  {
    hide Share, Dot, Pow2;
    var e := d[i := top - 1];
    Pow2Zero();
    ShareUpdate(d, top, i, top - 1);
    DotUpdate(w, d, i, top - 1);
    MulMono(top - 1, top, w[i]);
    ShareHalved(e, top);
    Twice(top);
  }

  lemma NotAllZero(d: seq<nat>)
    requires RoomAt(d, 0)
    ensures |d| <= 1
  {
    ShareOfZeros(d);
  }

  /** Lengths can be shortened until the greatest one is there twice. */
  lemma {:induction false} Shorten(w: seq<nat>, d: seq<nat>, top: nat) returns (e: seq<nat>, t: nat, x: nat, y: nat)
    requires |w| == |d| >= 2 && RoomAt(d, top)
    ensures |e| == |d| && TwoDeepest(e, t, x, y) && Dot(w, e) <= Dot(w, d)
    decreases top
  {
    hide Share, Dot, Pow2;
    if top == 0 { NotAllZero(d); }
    if Within(d, top - 1) {
      DropUnused(d, top);
      e, t, x, y := Shorten(w, d, top - 1);
    } else {
      var i :| 0 <= i < |d| && d[i] == top;
      if j :| 0 <= j < |d| && j != i && d[j] == top {
        e, t, x, y := d, top, if i < j then i else j, if i < j then j else i;
      } else {
        ShortenOne(w, d, top, i);
        e, t, x, y := Shorten(w, d[i := top - 1], top - 1);
      }
    }
  }

  lemma Pow2Zero()
    ensures Pow2(0) == 1 && Pow2(1) == 2
  {}

  lemma Twice(n: nat)
    requires n > 0
    ensures Pow2(n) == 2 * Pow2(n - 1)
  {}

  // ---------- exchanging ----------

  function Swapped(d: seq<nat>, i: nat, j: nat): (e: seq<nat>)
    requires i < |d| && j < |d|
    ensures |e| == |d|
  {
    d[i := d[j]][j := d[i]]
  }

  /** Giving the longer code to the lighter one is no loss. */
  lemma SwapGains(w: seq<nat>, d: seq<nat>, top: nat, i: nat, j: nat)
    requires |w| == |d| && RoomAt(d, top) && i < |d| && j < |d| && w[i] <= w[j] && d[i] <= d[j]
    ensures RoomAt(Swapped(d, i, j), top) && Dot(w, Swapped(d, i, j)) <= Dot(w, d)
  {
    hide Share, Dot, Pow2;
    if i == j {
      assert Swapped(d, i, j) == d;
    } else {
      var e := d[i := d[j]];
      ShareUpdate(d, top, i, d[j]);
      ShareUpdate(e, top, j, d[i]);
      DotUpdate(w, d, i, d[j]);
      DotUpdate(w, e, j, d[i]);
      Exchange(w[i], w[j], d[i], d[j]);
    }
  }

  lemma Exchange(v: nat, w: nat, a: nat, b: nat)
    requires v <= w && a <= b
    ensures v * b + w * a <= v * a + w * b
  {
    MulMono(v, w, b - a);
    assert (b - a) * v == b * v - a * v && (b - a) * w == b * w - a * w;
  }

  ghost predicate LightestOf(w: seq<nat>, p: nat) {
    p < |w| && forall i :: 0 <= i < |w| ==> w[p] <= w[i]
  }

  /** The two lightest can have the greatest length. */
  lemma LightestDeepest(w: seq<nat>, d: seq<nat>, p: nat, r: nat)
    returns (e: seq<nat>, top: nat)
    requires |w| == |d| >= 2 && HasRoom(d) && LightestOf(w, p) && r < |w| && r != p
    requires forall i :: 0 <= i < |w| && i != p ==> w[r] <= w[i]
    ensures |e| == |d| && RoomAt(e, top) && top > 0 && e[p] == e[r] == top && Dot(w, e) <= Dot(w, d)
  {
    hide Share, Dot, Pow2;
    var top0: nat :| RoomAt(d, top0);
    var x, y;
    var d1;
    d1, top, x, y := Shorten(w, d, top0);
    SwapGains(w, d1, top, p, x);
    var d2 := if d1[p] == top then d1 else Swapped(d1, p, x);
    var z := if x == p || d1[p] != top then y else x;
    SwapGains(w, d2, top, r, z);
    e := if d2[r] == top then d2 else Swapped(d2, r, z);
  }

  // ---------- merging ----------

  function WeightsOf(f: seq<Tree>, w: seq<nat>): (v: seq<nat>)
    ensures |v| == |f| && forall i :: 0 <= i < |f| ==> v[i] == Weight(f[i], w)
  {
    seq(|f|, i requires 0 <= i < |f| => Weight(f[i], w))
  }

  /** The weights of all forks of a tree together: its weighted sum of depths. */
  function Inner(t: Tree, w: seq<nat>): nat {
    match t
    case Leaf(_) => 0
    case Fork(l, r) => Inner(l, w) + Inner(r, w) + Weight(t, w)
  }

  function InnerAll(f: seq<Tree>, w: seq<nat>): nat {
    if |f| == 0 then 0 else Inner(f[0], w) + InnerAll(f[1..], w)
  }

  lemma {:induction false} InnerWithout(f: seq<Tree>, w: seq<nat>, k: nat)
    requires k < |f|
    ensures InnerAll(f, w) == InnerAll(Without(f, k), w) + Inner(f[k], w)
    decreases |f|
  {
    if k == 0 {
      assert Without(f, 0) == f[1..];
    } else {
      InnerWithout(f[1..], w, k - 1);
      assert Without(f, k)[1..] == Without(f[1..], k - 1);
    }
  }

  lemma {:induction false} InnerAppend(f: seq<Tree>, t: Tree, w: seq<nat>)
    ensures InnerAll(f + [t], w) == InnerAll(f, w) + Inner(t, w)
    decreases |f|
  {
    if |f| == 0 {
      assert f + [t] == [t] && [t][1..] == [];
    } else {
      InnerAppend(f[1..], t, w);
      assert (f + [t])[1..] == f[1..] + [t];
    }
  }

  lemma {:induction false} InnerSingles(n: nat, m: nat, w: seq<nat>)
    requires m <= n
    ensures InnerAll(Singles(n)[m..], w) == 0
    decreases n - m
  {
    if m < n {
      InnerSingles(n, m + 1, w);
      assert Singles(n)[m..][1..] == Singles(n)[m + 1..];
    }
  }

  lemma WeightsWithout(f: seq<Tree>, w: seq<nat>, k: nat)
    requires k < |f|
    ensures WeightsOf(Without(f, k), w) == Without(WeightsOf(f, w), k)
  {}

  /** Lengths for the trees before a round give lengths for those behind it, which cost less by what was merged. */
  lemma RoundGains(f: seq<Tree>, w: seq<nat>, p: nat, q: nat, next: seq<Tree>, d: seq<nat>) returns (e: seq<nat>)
    requires Round(f, w, p, q, next) && |d| == |f| && HasRoom(d)
    ensures |e| == |next| && HasRoom(e)
    ensures Dot(WeightsOf(next, w), e) + InnerAll(next, w) <= Dot(WeightsOf(f, w), d) + InnerAll(f, w)
  {
    hide Share, Dot, Pow2, Inner, InnerAll, Weight;
    var v, r := WeightsOf(f, w), if q < p then q else q + 1;
    var f1 := Without(f, p);
    forall i | 0 <= i < |f| && i != p ensures v[r] <= v[i] { assert f[i] == f1[if i < p then i else i - 1]; }
    var g, top := LightestDeepest(v, d, p, r);
    e := Deeper(v, g, top, p, q, r);
    WeightsWithout(f, w, p);
    WeightsWithout(f1, w, q);
    InnerWithout(f, w, p);
    InnerWithout(f1, w, q);
    InnerAppend(Without(f1, q), Fork(f[p], f1[q]), w);
    ForkIs(f[p], f1[q], w);
    assert WeightsOf(next, w) == Without(Without(v, p), q) + [v[p] + v[r]];
  }

  lemma ForkIs(a: Tree, b: Tree, w: seq<nat>)
    ensures Weight(Fork(a, b), w) == Weight(a, w) + Weight(b, w)
    ensures Inner(Fork(a, b), w) == Inner(a, w) + Inner(b, w) + Weight(a, w) + Weight(b, w)
  {}

  /** Two codes of the greatest length give way to one that is one shorter. */
  lemma Deeper(v: seq<nat>, g: seq<nat>, top: nat, p: nat, q: nat, r: nat) returns (e: seq<nat>)
    requires |v| == |g| >= 2 && p < |g| && q < |g| - 1 && r == (if q < p then q else q + 1)
    requires RoomAt(g, top) && top > 0 && g[p] == g[r] == top
    ensures |e| == |g| - 1 && HasRoom(e)
    ensures Dot(Without(Without(v, p), q) + [v[p] + v[r]], e) + v[p] + v[r] == Dot(v, g)
  {
    hide Share, Dot, Pow2;
    var g1, v1 := Without(g, p), Without(v, p);
    var g2, v2 := Without(g1, q), Without(v1, q);
    e := g2 + [top - 1];
    Pow2Zero();
    ShareWithout(g, top, p);
    ShareWithout(g1, top, q);
    ShareAppend(g2, top, top - 1);
    DotWithout(v, g, p);
    DotWithout(v1, g1, q);
    DotAppend(v2, g2, v[p] + v[r], top - 1);
    OneLess(v[p] + v[r], top);
    Spread(v[p], v[r], top);
    assert RoomAt(e, top);
  }

  lemma OneLess(a: nat, b: nat)
    requires b > 0
    ensures a * b == a * (b - 1) + a
  {}

  lemma Spread(a: nat, b: nat, c: nat)
    ensures (a + b) * c == a * c + b * c
  {}

  lemma {:induction false} RunGains(f: seq<Tree>, w: seq<nat>, k: nat, d: seq<nat>) returns (e: seq<nat>)
    requires Grown(f, w, k) && |d| == |w| && HasRoom(d)
    ensures |e| == |f| && HasRoom(e) && Dot(WeightsOf(f, w), e) + InnerAll(f, w) <= Dot(w, d)
    decreases k
  {
    hide Dot, InnerAll, HasRoom, Round;
    if k == 0 {
      e := d;
      InnerSingles(|w|, 0, w);
      assert f[0..] == f;
      assert WeightsOf(f, w) == w;
    } else {
      var g, p, q :| Round(g, w, p, q, f) && Grown(g, w, k - 1);
      var e0 := RunGains(g, w, k - 1, d);
      e := RoundGains(g, w, p, q, f, e0);
    }
  }

  /** Whatever ties were broken how, the tree that merging ends in costs no more than any lengths with room. */
  lemma GreedyIsOptimal(root: Tree, w: seq<nat>, k: nat, d: seq<nat>)
    requires Grown([root], w, k) && |d| == |w| && HasRoom(d)
    ensures Inner(root, w) <= Dot(w, d)
  {
    var e := RunGains([root], w, k, d);
    assert [root][1..] == [];
  }

  // ---------- the cost of a tree ----------

  /** The weighted sum over the symbols in a set, among the first m. */
  function DotOver(all: set<nat>, w: seq<nat>, d: seq<nat>, m: nat): nat
    requires m <= |w| == |d|
  {
    if m == 0 then 0 else DotOver(all, w, d, m - 1) + (if m - 1 in all then w[m - 1] * d[m - 1] else 0)
  }

  lemma {:induction false} DotOverUnion(a: set<nat>, b: set<nat>, w: seq<nat>, d: seq<nat>, m: nat)
    requires m <= |w| == |d| && a !! b
    ensures DotOver(a + b, w, d, m) == DotOver(a, w, d, m) + DotOver(b, w, d, m)
  {
    if m > 0 { DotOverUnion(a, b, w, d, m - 1); }
  }

  lemma {:induction false} DotOverOne(s: nat, w: seq<nat>, d: seq<nat>, m: nat)
    requires m <= |w| == |d| && s < |w|
    ensures DotOver({s}, w, d, m) == if s < m then w[s] * d[s] else 0
  {
    if m > 0 { DotOverOne(s, w, d, m - 1); }
  }

  lemma {:induction false} DotOverAll(all: set<nat>, w: seq<nat>, d: seq<nat>, m: nat)
    requires m <= |w| == |d| && forall s :: 0 <= s < m ==> s in all
    ensures DotOver(all, w, d, m) == Dot(w[..m], d[..m])
  {
    if m > 0 {
      DotOverAll(all, w, d, m - 1);
      DotAppend(w[..m - 1], d[..m - 1], w[m - 1], d[m - 1]);
      assert w[..m] == w[..m - 1] + [w[m - 1]] && d[..m] == d[..m - 1] + [d[m - 1]];
    }
  }

  /** The lengths of the symbols under t, which hangs at depth k, are their depths. */
  ghost predicate DepthsBelow(t: Tree, d: seq<nat>, k: nat) {
    forall s :: s in Leaves(t) ==> s < |d| && d[s] == k + Depth(t, s)
  }

  lemma DepthsOfChildren(t: Tree, d: seq<nat>, k: nat)
    requires t.Fork? && Proper(t) && DepthsBelow(t, d, k)
    ensures DepthsBelow(t.left, d, k + 1) && DepthsBelow(t.right, d, k + 1)
  {
    forall s | s in Leaves(t.left) ensures s < |d| && d[s] == k + 1 + Depth(t.left, s) { assert s in Leaves(t); }
    forall s | s in Leaves(t.right) ensures s < |d| && d[s] == k + 1 + Depth(t.right, s) { assert s in Leaves(t); }
  }

  /** The depths of a tree that hangs at depth k cost its forks, and k times its weight. */
  lemma {:induction false} TreeCost(t: Tree, w: seq<nat>, d: seq<nat>, k: nat)
    requires |w| == |d| && Proper(t) && DepthsBelow(t, d, k)
    ensures DotOver(Leaves(t), w, d, |w|) == Inner(t, w) + k * Weight(t, w)
    decreases t
  {
    hide DotOver;
    match t
    case Leaf(s) =>
      assert s in Leaves(t);
      DotOverOne(s, w, d, |w|);
    case Fork(l, r) =>
      DepthsOfChildren(t, d, k);
      TreeCost(l, w, d, k + 1);
      TreeCost(r, w, d, k + 1);
      DotOverUnion(Leaves(l), Leaves(r), w, d, |w|);
      OneLevel(k, Weight(l, w), Weight(r, w));
  }

  lemma OneLevel(k: nat, a: nat, b: nat)
    ensures (k + 1) * a + (k + 1) * b == k * (a + b) + a + b
  {}

  lemma {:induction false} DotMono(w: seq<nat>, d: seq<nat>, e: seq<nat>)
    requires |w| == |d| == |e| && forall i :: 0 <= i < |d| ==> d[i] <= e[i]
    ensures Dot(w, d) <= Dot(w, e)
    decreases |d|
  {
    if |d| > 0 {
      DotMono(w[1..], d[1..], e[1..]);
      MulMono(d[0], e[0], w[0]);
    }
  }

  /** The lengths that are read off the tree, cut off or not, have no larger weighted sum than any lengths that leave
      room for a prefix code. */
  lemma NoneShorter(root: Tree, w: seq<nat>, k: nat, lens: lengths, other: seq<nat>)
    requires Grown([root], w, k) && Proper(root) && |lens| == |other| == |w| && ClampedBelow(root, 0, lens)
    requires forall s :: s in Leaves(root) <==> 0 <= s < |w|
    requires HasRoom(other)
    ensures Dot(w, lens) <= Dot(w, other)
  {
    var depths := seq(|w|, s requires 0 <= s < |w| => Depth(root, s));
    assert DepthsBelow(root, depths, 0);
    TreeCost(root, w, depths, 0);
    DotOverAll(Leaves(root), w, depths, |w|);
    assert w[..|w|] == w && depths[..|w|] == depths;
    GreedyIsOptimal(root, w, k, other);
    DotMono(w, lens, depths);
  }

  lemma {:induction false} DepthBelowHeight(t: Tree, s: nat)
    requires s in Leaves(t)
    ensures Depth(t, s) <= Height(t)
    decreases t
  {
    if t.Fork? {
      if s in Leaves(t.left) { DepthBelowHeight(t.left, s); } else { DepthBelowHeight(t.right, s); }
    }
  }
}
