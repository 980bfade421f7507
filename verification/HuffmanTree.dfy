/** Greedy merging: the forest it works on, why its trees are not too deep, and the Kraft sum of a clamped tree. */
module HuffmanTree {
  import opened Bits
  import opened Canonical

  datatype Tree = Leaf(sym: nat) | Fork(left: Tree, right: Tree)

  function Weight(t: Tree, w: seq<nat>): nat {
    match t
    case Leaf(s) => if s < |w| then w[s] else 0
    case Fork(l, r) => Weight(l, w) + Weight(r, w)
  }

  function Height(t: Tree): nat {
    match t
    case Leaf(_) => 0
    case Fork(l, r) => 1 + if Height(l) >= Height(r) then Height(l) else Height(r)
  }

  function Leaves(t: Tree): set<nat> {
    match t
    case Leaf(s) => {s}
    case Fork(l, r) => Leaves(l) + Leaves(r)
  }

  /** No symbol twice. */
  ghost predicate Proper(t: Tree) {
    match t
    case Leaf(_) => true
    case Fork(l, r) => Proper(l) && Proper(r) && Leaves(l) !! Leaves(r)
  }

  function Depth(t: Tree, s: nat): nat
    requires s in Leaves(t)
  {
    match t
    case Leaf(_) => 0
    case Fork(l, r) => 1 + if s in Leaves(l) then Depth(l, s) else Depth(r, s)
  }

  // ---------- greedy trees are shallow ----------

  function Fib(n: nat): nat {
    if n < 2 then n else Fib(n - 1) + Fib(n - 2)
  }

  lemma FibLimit()
    ensures Fib(23) == 28657 && MAX_LEN == 20
  {
    assert Fib(8) == 21 && Fib(9) == 34;
    assert Fib(15) == 610 && Fib(16) == 987;
  }

  lemma {:induction false} FibMono(a: nat, b: nat)
    requires a <= b
    ensures Fib(a) <= Fib(b)
    decreases b
  {
    if a < b { FibMono(a, b - 1); }
  }

  /** other weighs at least as much as each child of t. */
  ghost predicate Outweighs(other: Tree, t: Tree, w: seq<nat>) {
    t.Fork? ==> Weight(other, w) >= Weight(t.left, w) && Weight(other, w) >= Weight(t.right, w)
  }

  /** What merging the two lightest trees leaves behind: siblings outweigh each other's children. */
  ghost predicate Greedy(t: Tree, w: seq<nat>) {
    t.Fork? ==>
      && Greedy(t.left, w) && Greedy(t.right, w)
      && Outweighs(t.left, t.right, w) && Outweighs(t.right, t.left, w)
  }

  ghost predicate Positive(w: seq<nat>) {
    forall s :: 0 <= s < |w| ==> w[s] >= 1
  }

  lemma TallChild(t: Tree)
    requires t.Fork?
    ensures Height(t) == 1 + Height(t.left) || Height(t) == 1 + Height(t.right)
  {}

  /** All symbols of the tree have a weight. */
  ghost predicate Known(t: Tree, n: nat) {
    match t
    case Leaf(s) => s < n
    case Fork(l, r) => Known(l, n) && Known(r, n)
  }

  lemma {:induction false} KnownByLeaves(t: Tree, n: nat)
    requires forall s :: s in Leaves(t) ==> s < n
    ensures Known(t, n)
    decreases t
  {
    match t
    case Leaf(s) => assert s in Leaves(t);
    case Fork(l, r) =>
      assert Leaves(l) <= Leaves(t) && Leaves(r) <= Leaves(t);
      KnownByLeaves(l, n);
      KnownByLeaves(r, n);
  }

  ghost predicate Heavy(t: Tree, w: seq<nat>) {
    Weight(t, w) >= Fib(Height(t) + 2)
  }

  /** A greedy tree of height h weighs at least the Fibonacci number h+2, and so do its children. */
  lemma {:induction false} GreedyIsHeavy(t: Tree, w: seq<nat>)
    requires Greedy(t, w) && Positive(w) && Known(t, |w|)
    ensures Weight(t, w) >= Fib(Height(t) + 2)
    ensures t.Fork? ==> Heavy(t.left, w) && Heavy(t.right, w)
    decreases t
  {
    match t
    case Leaf(s) =>
    case Fork(l, r) =>
      GreedyIsHeavy(l, w);
      GreedyIsHeavy(r, w);
      assert Weight(t, w) == Weight(l, w) + Weight(r, w);
      assert Height(t) == 1 + if Height(l) >= Height(r) then Height(l) else Height(r);
      assert Outweighs(l, r, w) && Outweighs(r, l, w) && Heavy(l, w) && Heavy(r, w);
      hide *;
      if Height(l) >= Height(r) { ForkIsHeavy(l, r, w); } else { ForkIsHeavy(r, l, w); }
  }

  /** The taller of two siblings, its taller child's weight being matched by the other sibling. */
  lemma ForkIsHeavy(tall: Tree, other: Tree, w: seq<nat>)
    requires Outweighs(other, tall, w) && Heavy(tall, w) && Heavy(other, w)
    requires tall.Fork? ==> Heavy(tall.left, w) && Heavy(tall.right, w)
    ensures Weight(tall, w) + Weight(other, w) >= Fib(Height(tall) + 3)
  {
    hide Weight, Height, Fib, Outweighs;
    OtherIsHeavy(tall, other, w);
    FibNext(Height(tall) + 1);
  }

  /** The other sibling matches the weight of the taller child. */
  lemma OtherIsHeavy(tall: Tree, other: Tree, w: seq<nat>)
    requires Outweighs(other, tall, w) && Heavy(other, w)
    requires tall.Fork? ==> Heavy(tall.left, w) && Heavy(tall.right, w)
    ensures Weight(other, w) >= Fib(Height(tall) + 1)
  {
    hide Weight, Fib;
    FibStart();
    if tall.Fork? {
      TallChild(tall);
    } else {
      FibMono(2, Height(other) + 2);
    }
  }

  lemma FibStart()
    ensures Fib(1) == Fib(2) == 1
  {}

  lemma FibNext(n: nat)
    ensures Fib(n + 2) == Fib(n + 1) + Fib(n)
  {}

  /** Below a total weight of 28657 no symbol is deeper than 20. */
  lemma LightIsShallow(t: Tree, w: seq<nat>)
    requires Greedy(t, w) && Positive(w) && Known(t, |w|)
    requires Weight(t, w) < 28657
    ensures Height(t) <= MAX_LEN
  {
    hide *;
    FibLimit();
    GreedyIsHeavy(t, w);
    if Height(t) > MAX_LEN { FibMono(23, Height(t) + 2); }
  }

  /** A tree is less tall than it has symbols. */
  lemma {:induction false} HeightBelowLeaves(t: Tree)
    requires Proper(t)
    ensures Height(t) < |Leaves(t)|
    decreases t
  {
    if t.Fork? {
      HeightBelowLeaves(t.left);
      HeightBelowLeaves(t.right);
      assert |Leaves(t)| == |Leaves(t.left)| + |Leaves(t.right)|;
    }
  }

  // ---------- the Kraft sum of a tree ----------

  /** The Kraft sum over the symbols in a set, among the first m, whose lengths are at most l. */
  function SumOver(set0: set<nat>, lens: lengths, m: nat, l: nat): nat
    requires m <= |lens| && InRange(lens)
  {
    if m == 0 then 0
    else SumOver(set0, lens, m - 1, l) + (if m - 1 in set0 && lens[m - 1] <= l then Pow2(MAX_LEN - lens[m - 1]) else 0)
  }

  lemma {:induction false} SumOverUnion(a: set<nat>, b: set<nat>, lens: lengths, m: nat, l: nat)
    requires m <= |lens| && InRange(lens) && a !! b
    ensures SumOver(a + b, lens, m, l) == SumOver(a, lens, m, l) + SumOver(b, lens, m, l)
  {
    if m > 0 { SumOverUnion(a, b, lens, m - 1, l); }
  }

  lemma {:induction false} SumOverOne(s: nat, lens: lengths, m: nat, l: nat)
    requires m <= |lens| && InRange(lens) && s < |lens|
    ensures SumOver({s}, lens, m, l) == if s < m && lens[s] <= l then Pow2(MAX_LEN - lens[s]) else 0
  {
    if m > 0 { SumOverOne(s, lens, m - 1, l); }
  }

  lemma {:induction false} SumOverAll(all: set<nat>, lens: lengths, m: nat, l: nat)
    requires m <= |lens| && InRange(lens) && (forall s :: 0 <= s < m ==> s in all && lens[s] >= 1)
    ensures SumOver(all, lens, m, l) == KraftUpTo(lens, m, l)
  {
    if m > 0 { SumOverAll(all, lens, m - 1, l); }
  }

  /** The lengths of the symbols under t, which hangs at depth d, are their depths cut off at 20. */
  ghost predicate ClampedBelow(t: Tree, d: nat, lens: lengths) {
    forall s :: s in Leaves(t) ==> s < |lens| && lens[s] == Min(d + Depth(t, s), MAX_LEN)
  }

  lemma ClampedChildren(t: Tree, d: nat, lens: lengths)
    requires t.Fork? && Proper(t) && ClampedBelow(t, d, lens)
    ensures ClampedBelow(t.left, d + 1, lens) && ClampedBelow(t.right, d + 1, lens)
  {
    hide Proper, Depth, Leaves;
    forall s | s in Leaves(t.left) ensures s < |lens| && lens[s] == Min(d + 1 + Depth(t.left, s), MAX_LEN) {
      DepthBelow(t, s);
    }
    forall s | s in Leaves(t.right) ensures s < |lens| && lens[s] == Min(d + 1 + Depth(t.right, s), MAX_LEN) {
      DepthBelow(t, s);
    }
  }

  lemma DepthBelow(t: Tree, s: nat)
    requires t.Fork? && Proper(t) && (s in Leaves(t.left) || s in Leaves(t.right))
    ensures s in Leaves(t)
    ensures s in Leaves(t.left) ==> Depth(t, s) == 1 + Depth(t.left, s)
    ensures s in Leaves(t.right) ==> Depth(t, s) == 1 + Depth(t.right, s)
  {}

  /** A tree's Kraft sum fills its share exactly while nothing under it is clamped, and overfills it otherwise. */
  lemma {:induction false} TreeKraft(t: Tree, d: nat, lens: lengths)
    requires Proper(t) && InRange(lens) && d <= MAX_LEN && ClampedBelow(t, d, lens)
    ensures d + Height(t) <= MAX_LEN ==> SumOver(Leaves(t), lens, |lens|, MAX_LEN) == Pow2(MAX_LEN - d)
    ensures d + Height(t) > MAX_LEN ==> SumOver(Leaves(t), lens, |lens|, MAX_LEN) > Pow2(MAX_LEN - d)
    decreases t
  {
    match t
    case Leaf(s) =>
      assert s in Leaves(t);
      SumOverOne(s, lens, |lens|, MAX_LEN);
    case Fork(l, r) =>
      ClampedChildren(t, d, lens);
      SumOverUnion(Leaves(l), Leaves(r), lens, |lens|, MAX_LEN);
      if d == MAX_LEN {
        DeepTree(l, d + 1, lens);
        DeepTree(r, d + 1, lens);
      } else {
        TreeKraft(l, d + 1, lens);
        TreeKraft(r, d + 1, lens);
      }
  }

  /** Below depth 20 every symbol still takes one string. */
  lemma {:induction false} DeepTree(t: Tree, d: nat, lens: lengths)
    requires Proper(t) && InRange(lens) && d >= MAX_LEN && ClampedBelow(t, d, lens)
    ensures SumOver(Leaves(t), lens, |lens|, MAX_LEN) >= 1
    decreases t
  {
    match t
    case Leaf(s) =>
      assert s in Leaves(t);
      SumOverOne(s, lens, |lens|, MAX_LEN);
    case Fork(l, r) =>
      ClampedChildren(t, d, lens);
      SumOverUnion(Leaves(l), Leaves(r), lens, |lens|, MAX_LEN);
      DeepTree(l, d + 1, lens);
  }

  /** The symbols that are not clamped never overfill their share. */
  lemma {:induction false} UnclampedKraft(t: Tree, d: nat, lens: lengths)
    requires Proper(t) && InRange(lens) && ClampedBelow(t, d, lens)
    ensures SumOver(Leaves(t), lens, |lens|, MAX_LEN - 1) <= if d < MAX_LEN then Pow2(MAX_LEN - d) else 0
    decreases t
  {
    match t
    case Leaf(s) =>
      assert s in Leaves(t);
      SumOverOne(s, lens, |lens|, MAX_LEN - 1);
    case Fork(l, r) =>
      ClampedChildren(t, d, lens);
      SumOverUnion(Leaves(l), Leaves(r), lens, |lens|, MAX_LEN - 1);
      UnclampedKraft(l, d + 1, lens);
      UnclampedKraft(r, d + 1, lens);
  }

  /** Clamping only spoils codes of the greatest length: all shorter ones fit. */
  lemma ShorterCodesFit(root: Tree, lens: lengths)
    requires Proper(root) && InRange(lens) && root.Fork? && ClampedBelow(root, 0, lens)
    requires forall s :: 0 <= s < |lens| ==> s in Leaves(root) && lens[s] >= 1
    ensures AlmostFits(lens)
  {
    hide *;
    LongestIs();
    UnclampedKraft(root, 0, lens);
    SumOverAll(Leaves(root), lens, |lens|, MAX_LEN - 1);
    EndCodeIsKraft(lens, MAX_LEN - 1);
    Pow2Add(MAX_LEN - 1, 1);
    MulCancel(EndCode(lens, MAX_LEN - 1), Pow2(MAX_LEN - 1), Pow2(1));
    AlmostMeans(lens);
  }

  lemma AlmostMeans(lens: lengths)
    ensures AlmostFits(lens) <==> EndCode(lens, MAX_LEN - 1) <= Pow2(MAX_LEN - 1)
  {}

  lemma LongestIs()
    ensures MAX_LEN == 20 && Pow2(1) == 2
  {}

  /** The code lengths read off a whole tree have Kraft sum one exactly when no depth was clamped. */
  lemma KraftIffShallow(root: Tree, lens: lengths)
    requires Proper(root) && InRange(lens) && root.Fork? && ClampedBelow(root, 0, lens)
    requires forall s :: 0 <= s < |lens| ==> s in Leaves(root)
    ensures Kraft(lens) >= Pow2(MAX_LEN)
    ensures Kraft(lens) == Pow2(MAX_LEN) <==> Height(root) <= MAX_LEN
    ensures forall s :: 0 <= s < |lens| ==> lens[s] >= 1
  {
    forall s | 0 <= s < |lens| ensures lens[s] >= 1 {
      assert s in Leaves(root) && Depth(root, s) >= 1;
    }
    assert Kraft(lens) == KraftUpTo(lens, |lens|, MAX_LEN);
    hide *;
    TreeKraft(root, 0, lens);
    SumOverAll(Leaves(root), lens, |lens|, MAX_LEN);
  }

  // ---------- the forest ----------

  function AllLeaves(f: seq<Tree>): set<nat> {
    if |f| == 0 then {} else Leaves(f[0]) + AllLeaves(f[1..])
  }

  function Total(f: seq<Tree>, w: seq<nat>): nat {
    if |f| == 0 then 0 else Weight(f[0], w) + Total(f[1..], w)
  }

  function Without<T>(f: seq<T>, k: nat): (r: seq<T>)
    requires k < |f|
    ensures |r| == |f| - 1
    ensures forall i :: 0 <= i < |r| ==> r[i] == f[if i < k then i else i + 1]
  {
    f[..k] + f[k + 1..]
  }

  ghost predicate Lightest(f: seq<Tree>, w: seq<nat>, k: nat) {
    k < |f| && forall i :: 0 <= i < |f| ==> Weight(f[k], w) <= Weight(f[i], w)
  }

  /** Disjoint greedy trees, every one outweighing the children of every other. */
  ghost predicate Forest(f: seq<Tree>, w: seq<nat>) {
    && (forall i :: 0 <= i < |f| ==> Proper(f[i]) && Greedy(f[i], w))
    && (forall i, j :: 0 <= i < |f| && 0 <= j < |f| && i != j ==>
          Leaves(f[i]) !! Leaves(f[j]) && Outweighs(f[j], f[i], w))
  }

  lemma {:induction false} WithoutSums(f: seq<Tree>, w: seq<nat>, k: nat)
    requires k < |f|
    ensures AllLeaves(f) == AllLeaves(Without(f, k)) + Leaves(f[k])
    ensures Total(f, w) == Total(Without(f, k), w) + Weight(f[k], w)
    decreases k
  {
    if k == 0 {
      assert Without(f, 0) == f[1..];
    } else {
      WithoutSums(f[1..], w, k - 1);
      assert Without(f, k)[1..] == Without(f[1..], k - 1);
    }
  }

  lemma {:induction false} AppendSums(f: seq<Tree>, t: Tree, w: seq<nat>)
    ensures AllLeaves(f + [t]) == AllLeaves(f) + Leaves(t)
    ensures Total(f + [t], w) == Total(f, w) + Weight(t, w)
    decreases |f|
  {
    if |f| == 0 {
      assert f + [t] == [t] && [t][1..] == [];
    } else {
      AppendSums(f[1..], t, w);
      assert (f + [t])[1..] == f[1..] + [t];
    }
  }

  lemma WithoutForest(f: seq<Tree>, w: seq<nat>, k: nat)
    requires Forest(f, w) && k < |f|
    ensures Forest(Without(f, k), w)
  {}

  /** Merging the lightest tree a and the lightest of the rest b. */
  lemma MergeForest(f: seq<Tree>, a: Tree, b: Tree, w: seq<nat>)
    requires Forest(f, w) && Proper(a) && Proper(b) && Greedy(a, w) && Greedy(b, w) && Leaves(a) !! Leaves(b)
    requires Outweighs(a, b, w) && Outweighs(b, a, w)
    requires forall i :: 0 <= i < |f| ==>
               && Leaves(f[i]) !! Leaves(a) && Leaves(f[i]) !! Leaves(b)
               && Weight(f[i], w) >= Weight(a, w) && Weight(f[i], w) >= Weight(b, w)
               && Outweighs(a, f[i], w)
    ensures Forest(f + [Fork(a, b)], w)
  {
    var g := f + [Fork(a, b)];
    forall i, j | 0 <= i < |g| && 0 <= j < |g| && i != j
      ensures Leaves(g[i]) !! Leaves(g[j]) && Outweighs(g[j], g[i], w)
    {
      if i < |f| && j < |f| { assert g[i] == f[i] && g[j] == f[j]; }
    }
  }

  /** The forest after one round. */
  function Merged(f: seq<Tree>, p: nat, q: nat): seq<Tree>
    requires p < |f| && q < |f| - 1
  {
    Without(Without(f, p), q) + [Fork(f[p], Without(f, p)[q])]
  }

  /** One round merges some lightest tree and some lightest one of the rest. */
  ghost predicate Round(f: seq<Tree>, w: seq<nat>, p: nat, q: nat, next: seq<Tree>) {
    Lightest(f, w, p) && q < |f| - 1 && Lightest(Without(f, p), w, q) && next == Merged(f, p, q)
  }

  function Singles(n: nat): (f: seq<Tree>)
    ensures |f| == n && forall i :: 0 <= i < n ==> f[i] == Leaf(i)
  {
    seq(n, i requires 0 <= i => Leaf(i))
  }

  /** A forest that k rounds can make from single symbols with these weights, whichever of equal weights were taken. */
  ghost predicate Grown(f: seq<Tree>, w: seq<nat>, k: nat)
    decreases k
  {
    if k == 0 then f == Singles(|w|) else exists g, p, q :: Round(g, w, p, q, f) && Grown(g, w, k - 1)
  }

  /** One round keeps the forest, its symbols and its weight. */
  lemma MergeRound(f: seq<Tree>, w: seq<nat>, p: nat, q: nat)
    requires Forest(f, w) && Lightest(f, w, p) && q < |f| - 1 && Lightest(Without(f, p), w, q)
    ensures Forest(Merged(f, p, q), w) && |Merged(f, p, q)| == |f| - 1
    ensures AllLeaves(Merged(f, p, q)) == AllLeaves(f) && Total(Merged(f, p, q), w) == Total(f, w)
  {
    var f1 := Without(f, p);
    var f2 := Without(f1, q);
    var a, b := f[p], f1[q];
    WithoutForest(f, w, p);
    WithoutForest(f1, w, q);
    WithoutSums(f, w, p);
    WithoutSums(f1, w, q);
    AppendSums(f2, Fork(a, b), w);
    forall i | 0 <= i < |f2|
      ensures && Leaves(f2[i]) !! Leaves(a) && Leaves(f2[i]) !! Leaves(b)
              && Weight(f2[i], w) >= Weight(a, w) && Weight(f2[i], w) >= Weight(b, w)
              && Outweighs(a, f2[i], w)
    {
      var i1 := if i < q then i else i + 1;
      assert f2[i] == f1[i1] && i1 != q;
      var i0 := if i1 < p then i1 else i1 + 1;
      assert f1[i1] == f[i0] && i0 != p;
    }
    var q0 := if q < p then q else q + 1;
    assert b == f[q0] && q0 != p;
    MergeForest(f2, a, b, w);
  }
}
