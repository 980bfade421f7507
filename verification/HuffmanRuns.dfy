/** Whole runs of greedy merging: weights that force a tree too deep for the format, whatever ties are broken how, and
    the least total weight at which that can happen. */
module HuffmanRuns {
  import opened Canonical
  import opened HuffmanTree

  // ---------- Fibonacci weights ----------

  /** 1, 1, 2, 3, 5, ... */
  function Fibonacci(n: nat): (w: seq<nat>)
    ensures |w| == n && forall i :: 0 <= i < n ==> w[i] == Fib(i + 1)
  {
    seq(n, i requires 0 <= i => Fib(i + 1))
  }

  lemma FibPositive(i: nat)
    requires i >= 1
    ensures Fib(i) >= 1
  {
    FibMono(1, i);
  }

  /** The trees after k rounds: one of height k over the symbols up to k, and the symbols behind. */
  ghost predicate Stacked(f: seq<Tree>, n: nat, k: nat, t: Tree) {
    && k < n && Tall(t, n, k) && multiset(f) == multiset{t} + multiset(Singles(n)[k + 1..])
  }

  ghost predicate Tall(t: Tree, n: nat, k: nat) {
    Height(t) == k && Weight(t, Fibonacci(n)) == Fib(k + 3) - 1 && forall s :: s in Leaves(t) ==> s <= k
  }

  lemma WithoutOne<T>(f: seq<T>, k: nat)
    requires k < |f|
    ensures multiset(Without(f, k)) == multiset(f) - multiset{f[k]}
  {
    assert f == f[..k] + [f[k]] + f[k + 1..];
  }

  lemma MergedMultiset(f: seq<Tree>, p: nat, q: nat)
    requires p < |f| && q < |f| - 1
    ensures var a, b := f[p], Without(f, p)[q];
            multiset(Merged(f, p, q)) == multiset(f) - multiset{a} - multiset{b} + multiset{Fork(a, b)}
  {
    WithoutOne(f, p);
    WithoutOne(Without(f, p), q);
  }

  /** Only the tall tree and the next symbol are as light as one of the two. */
  lemma TwoLightest(n: nat, k: nat, t: Tree, x: Tree, y: Tree)
    requires k + 1 < n && Tall(t, n, k) && x in multiset{t} + multiset(Singles(n)[k + 1..])
    requires Weight(x, Fibonacci(n)) <= Weight(y, Fibonacci(n)) && y in {t, Leaf(k + 1)}
    ensures x == t || x == Leaf(k + 1)
  {
    hide Fib, Tall, Weight, Fibonacci;
    if x != t {
      var s :| k + 1 <= s < n && x == Leaf(s);
      TallWeights(n, k, t);
      FibSteps(k);
      FibPositive(k + 1);
      if s > k + 1 { FibMono(k + 3, s + 1); }
    }
  }

  lemma TallWeights(n: nat, k: nat, t: Tree)
    requires Tall(t, n, k)
    ensures Weight(t, Fibonacci(n)) == Fib(k + 3) - 1
    ensures forall s: nat :: s < n ==> Weight(Leaf(s), Fibonacci(n)) == Fib(s + 1)
  {
    hide Fib;
  }

  lemma FibSteps(k: nat)
    ensures Fib(k + 3) == Fib(k + 2) + Fib(k + 1) && Fib(k + 4) == Fib(k + 3) + Fib(k + 2)
    ensures Fib(1) == 1 && Fib(2) == 1 && Fib(3) == 2
  {
    assert Fib(3) == Fib(2) + Fib(1);
  }

  /** The next symbol is there once, and the tall tree is not among the symbols. */
  lemma Behind(n: nat, k: nat, t: Tree)
    requires k + 1 < n && Tall(t, n, k)
    ensures multiset(Singles(n)[k + 1..]) == multiset{Leaf(k + 1)} + multiset(Singles(n)[k + 2..])
    ensures t !in multiset(Singles(n)[k + 1..]) && Leaf(k + 1) !in multiset(Singles(n)[k + 2..]) && t != Leaf(k + 1)
  {
    var f := Singles(n);
    assert f[k + 1..] == [Leaf(k + 1)] + f[k + 2..];
    forall s | k + 1 <= s < n ensures t != Leaf(s) { assert s in Leaves(Leaf(s)); }
  }

  /** A round can only put the next symbol beside the tall tree, on either side. */
  lemma StackedRound(f: seq<Tree>, n: nat, k: nat, t: Tree, p: nat, q: nat, next: seq<Tree>)
    requires Stacked(f, n, k, t) && k + 1 < n && Round(f, Fibonacci(n), p, q, next)
    ensures Stacked(next, n, k + 1, Fork(t, Leaf(k + 1))) || Stacked(next, n, k + 1, Fork(Leaf(k + 1), t))
  {
    hide Tall, Weight, Fibonacci, Singles, Without, Merged;
    var leaf, rest := Leaf(k + 1), Without(f, p);
    var x, y := f[p], rest[q];
    MergedMultiset(f, p, q);
    WithoutOne(f, p);
    Behind(n, k, t);
    assert x in multiset(f) && y in multiset(rest) && t in multiset(f);
    var i :| 0 <= i < |f| && f[i] == t;
    TwoLightest(n, k, t, x, t);
    var other := if x == t then leaf else t;
    assert other in multiset(rest);
    var j :| 0 <= j < |rest| && rest[j] == other;
    TwoLightest(n, k, t, y, other);
    TallNext(t, n, k);
    TwoTaken(multiset(f), t, leaf, multiset(Singles(n)[k + 2..]), x, y, Fork(x, y));
  }

  lemma TwoTaken(m: multiset<Tree>, t: Tree, leaf: Tree, behind: multiset<Tree>, x: Tree, y: Tree, z: Tree)
    requires m == multiset{t} + (multiset{leaf} + behind) && t != leaf && t !in behind && leaf !in behind
    requires x in {t, leaf} && y in {t, leaf} && y in m - multiset{x}
    ensures x != y && m - multiset{x} - multiset{y} + multiset{z} == multiset{z} + behind
  {}

  lemma TallNext(t: Tree, n: nat, k: nat)
    requires k + 1 < n && Tall(t, n, k)
    ensures Tall(Fork(t, Leaf(k + 1)), n, k + 1) && Tall(Fork(Leaf(k + 1), t), n, k + 1)
  {
    hide Fib, Fibonacci;
    FibSteps(k);
    var leaf, w := Leaf(k + 1), Fibonacci(n);
    assert Weight(leaf, w) == w[k + 1] == Fib(k + 1 + 1);
    assert Weight(Fork(t, leaf), w) == Weight(Fork(leaf, t), w) == Fib(k + 3) - 1 + Fib(k + 2) == Fib(k + 1 + 3) - 1;
    assert Height(Fork(t, leaf)) == Height(Fork(leaf, t)) == k + 1;
    assert Leaves(Fork(t, leaf)) == Leaves(Fork(leaf, t)) == Leaves(t) + {k + 1};
  }

  lemma {:induction false} StackedRun(f: seq<Tree>, n: nat, k: nat) returns (t: Tree)
    requires k < n && Grown(f, Fibonacci(n), k)
    ensures Stacked(f, n, k, t)
    decreases k
  {
    hide Fib, Fibonacci, Round;
    if k == 0 {
      t := Leaf(0);
      FibSteps(0);
      assert f == [t] + f[1..];
    } else {
      var g, p, q :| Round(g, Fibonacci(n), p, q, f) && Grown(g, Fibonacci(n), k - 1);
      var u := StackedRun(g, n, k - 1);
      StackedRound(g, n, k - 1, u, p, q, f);
      t := if Stacked(f, n, k, Fork(u, Leaf(k))) then Fork(u, Leaf(k)) else Fork(Leaf(k), u);
    }
  }

  /** Merging n symbols with Fibonacci weights always ends in a tree of height n - 1. */
  lemma FibonacciIsTall(root: Tree, n: nat)
    requires n > 0 && Grown([root], Fibonacci(n), n - 1)
    ensures Height(root) == n - 1
  {
    var t := StackedRun([root], n, n - 1);
    assert Singles(n)[n..] == [];
    assert root in multiset([root]);
  }

  // ---------- the least weight ----------

  /** The tallest tree for its weight: one symbol after the other. */
  function Chain(h: nat): Tree {
    if h == 0 then Leaf(0) else Fork(Leaf(h), Chain(h - 1))
  }

  /** 1, 1, 1, 2, 3, 5, ... */
  function ChainWeights(n: nat): (w: seq<nat>)
    ensures |w| == n && forall i :: 0 <= i < n ==> w[i] == if i == 0 then 1 else Fib(i)
  {
    seq(n, i => if i <= 0 then 1 else Fib(i))
  }

  lemma {:induction false} ChainHeight(h: nat, n: nat)
    requires h < n
    ensures Height(Chain(h)) == h && Weight(Chain(h), ChainWeights(n)) == Fib(h + 2)
  {
    hide Fib, ChainWeights;
    FibSteps(h);
    if h > 0 {
      FibSteps(h - 1);
      ChainHeight(h - 1, n);
      assert Weight(Leaf(h), ChainWeights(n)) == Fib(h);
    }
  }

  /** The forest after k rounds that take symbols before trees of the same weight. */
  function Chained(n: nat, k: nat): seq<Tree>
    requires k < n
  {
    if k == 0 then Singles(n) else Singles(n)[k + 1..] + [Chain(k)]
  }

  lemma ChainRound(n: nat, k: nat)
    requires k + 1 < n
    ensures Round(Chained(n, k), ChainWeights(n), if k == 0 then 1 else 0, if k == 0 then 0 else n - k - 2,
                  Chained(n, k + 1))
  {
    if k == 0 { FirstChainRound(n); } else { NextChainRound(n, k); }
  }

  /** No symbol behind k is lighter than symbol k+1. */
  lemma ChainOrder(n: nat, k: nat)
    requires k + 1 < n
    ensures forall i :: k < i < n ==> ChainWeights(n)[i] >= ChainWeights(n)[k + 1] >= 1
    ensures forall i :: k + 1 < i < n ==> ChainWeights(n)[i] >= Fib(k + 2)
    ensures ChainWeights(n)[k + 1] == Fib(k + 1) <= Fib(k + 2)
  {
    hide Fib;
    var w := ChainWeights(n);
    forall i | k < i < n ensures w[i] >= w[k + 1] && (i > k + 1 ==> w[i] >= Fib(k + 2)) {
      FibMono(k + 1, i);
      if i > k + 1 { FibMono(k + 2, i); }
    }
    FibPositive(k + 1);
    FibMono(k + 1, k + 2);
  }

  lemma FirstChainRound(n: nat)
    requires 1 < n
    ensures Round(Chained(n, 0), ChainWeights(n), 1, 0, Chained(n, 1))
  {
    hide Fib, Weight, ChainWeights, Singles, Without;
    var f, w := Singles(n), ChainWeights(n);
    ChainOrder(n, 0);
    FirstFib();
    LeafWeights(n);
    var rest := Without(f, 1);
    assert rest[0] == Leaf(0);
    assert Lightest(f, w, 1) && Lightest(rest, w, 0);
    assert Without(rest, 0) == f[2..];
    assert Chain(1) == Fork(Leaf(1), Leaf(0));
  }

  lemma LeafWeights(n: nat)
    ensures forall i :: 0 <= i < n ==> Weight(Singles(n)[i], ChainWeights(n)) == ChainWeights(n)[i]
    ensures n > 0 ==> ChainWeights(n)[0] == 1
  {}

  lemma NextChainRound(n: nat, k: nat)
    requires 0 < k && k + 1 < n
    ensures Round(Chained(n, k), ChainWeights(n), 0, n - k - 2, Chained(n, k + 1))
  {
    hide *;
    var f, w, last := Chained(n, k), ChainWeights(n), n - k - 2;
    ChainedAre(n, k);
    var rest := Without(f, 0);
    ChainOrder(n, k);
    ChainHeight(k, n);
    LeafWeights(n);
    assert rest == Singles(n)[k + 2..] + [Chain(k)];
    WithoutLast(Singles(n)[k + 2..], Chain(k));
    forall i | 0 <= i < |f| ensures Weight(f[0], w) <= Weight(f[i], w) {
      if i < n - k - 1 { assert f[i] == Singles(n)[k + 1 + i]; }
    }
    forall i | 0 <= i < |rest| ensures Weight(rest[last], w) <= Weight(rest[i], w) {
      if i < last { assert rest[i] == Singles(n)[k + 2 + i]; }
    }
    RoundIs(f, w, 0, last, Chained(n, k + 1));
  }

  lemma WithoutLast(f: seq<Tree>, t: Tree)
    ensures Without(f + [t], |f|) == f
  {}

  lemma ChainedAre(n: nat, k: nat)
    requires 0 < k && k + 1 < n
    ensures Chained(n, k) == Singles(n)[k + 1..] + [Chain(k)] && Chained(n, k)[0] == Leaf(k + 1)
    ensures Chained(n, k + 1) == Singles(n)[k + 2..] + [Fork(Leaf(k + 1), Chain(k))]
  {}

  lemma RoundIs(f: seq<Tree>, w: seq<nat>, p: nat, q: nat, next: seq<Tree>)
    requires p < |f| && q < |f| - 1
    requires forall i :: 0 <= i < |f| ==> Weight(f[p], w) <= Weight(f[i], w)
    requires forall i :: 0 <= i < |f| - 1 ==> Weight(Without(f, p)[q], w) <= Weight(Without(f, p)[i], w)
    requires next == Without(Without(f, p), q) + [Fork(f[p], Without(f, p)[q])]
    ensures Round(f, w, p, q, next)
  {
    hide Weight, Without;
  }

  lemma FirstFib()
    ensures Fib(1) == 1 && Fib(2) == 1
  {}

  lemma FirstForest(n: nat)
    requires n > 0
    ensures |ChainWeights(n)| == n && Chained(n, 0) == Singles(n)
  {}

  lemma {:induction false} ChainGrown(n: nat, k: nat)
    requires k < n
    ensures Grown(Chained(n, k), ChainWeights(n), k)
    decreases k
  {
    hide Round, Chained, ChainWeights;
    if k == 0 {
      FirstForest(n);
    } else {
      ChainGrown(n, k - 1);
      ChainRound(n, k - 1);
    }
  }

  /** The bound is sharp: with a total weight of 28657 merging can end in a tree of height 21, in which two symbols are
      too deep for the format. */
  lemma BoundIsSharp()
    ensures var t, w := Chain(21), ChainWeights(22);
            && Positive(w) && Grown([t], w, 21) && Weight(t, w) == 28657 && Height(t) == 21 > MAX_LEN
  {
    hide Fib, Chain, ChainWeights, Height, Weight, Grown;
    FibLimit();
    ChainHeight(21, 22);
    ChainGrown(22, 21);
    assert Singles(22)[22..] + [Chain(21)] == [Chain(21)];
    assert 21 + 2 == 23;
    forall i | 1 <= i < 22 ensures Fib(i) >= 1 { FibPositive(i); }
  }
}
