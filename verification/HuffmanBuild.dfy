/** Building one encoder table: code lengths from frequencies by greedy merging, then canonical codes. */
module HuffmanBuild {
  import opened Bits
  import opened Permutations
  import opened Canonical
  import opened HuffmanTree
  import HuffmanRuns
  import HuffmanOptimal

  // left == -1 marks a leaf.
  datatype Node = Node(weight: nat, left: int, right: int)

  /** Unused symbols weigh one. */
  function Weights(freq: seq<nat>): (w: seq<nat>)
    ensures |w| == |freq| && Positive(w)
    ensures forall i :: 0 <= i < |w| ==> w[i] == (if freq[i] == 0 then 1 else freq[i])
  {
    seq(|freq|, i requires 0 <= i < |freq| => if freq[i] != 0 then freq[i] else 1)
  }

  /** trees[k] is the tree that node k is the root of. */
  ghost predicate NodesAre(nodes: seq<Node>, trees: seq<Tree>, w: seq<nat>) {
    && |nodes| == |trees| && |w| <= |nodes|
    && forall k :: 0 <= k < |nodes| ==> NodeIs(nodes, trees, w, k)
  }

  ghost predicate NodeIs(nodes: seq<Node>, trees: seq<Tree>, w: seq<nat>, k: nat)
    requires k < |nodes| == |trees|
  {
    && nodes[k].weight == Weight(trees[k], w)
    && if nodes[k].left == -1 then k < |w| && trees[k] == Leaf(k)
       else 0 <= nodes[k].left < k && 0 <= nodes[k].right < k
            && trees[k] == Fork(trees[nodes[k].left], trees[nodes[k].right])
  }

  predicate HeapIn(heap: seq<nat>, n: nat) {
    forall i :: 0 <= i < |heap| ==> heap[i] < n
  }

  ghost function TreesOf(heap: seq<nat>, trees: seq<Tree>): (f: seq<Tree>)
    requires HeapIn(heap, |trees|)
    ensures |f| == |heap| && forall i :: 0 <= i < |heap| ==> f[i] == trees[heap[i]]
  {
    seq(|heap|, i requires 0 <= i < |heap| => trees[heap[i]])
  }

  // ---------- the heap ----------

  ghost predicate LightestNode(nodes: seq<Node>, heap: seq<nat>, k: nat)
    requires HeapIn(heap, |nodes|)
  {
    k < |heap| && forall i :: 0 <= i < |heap| ==> nodes[heap[k]].weight <= nodes[heap[i]].weight
  }

  /** Which lightest node leaves the heap is a matter of its implementation, given the nodes made so far and those that
      are still in the heap: everything below holds for every such rule. */
  type HeapRule = pick: (seq<Node>, seq<nat>) -> nat | Picks(pick) witness FirstLightest

  ghost predicate Picks(pick: (seq<Node>, seq<nat>) -> nat) {
    forall nodes: seq<Node>, heap: seq<nat> :: |heap| > 0 && HeapIn(heap, |nodes|) ==>
      LightestNode(nodes, heap, pick(nodes, heap))
  }

  /** One such rule. */
  function FirstLightest(nodes: seq<Node>, heap: seq<nat>): (k: nat)
    ensures |heap| > 0 && HeapIn(heap, |nodes|) ==> LightestNode(nodes, heap, k)
  {
    if |heap| > 0 && HeapIn(heap, |nodes|) then LightestOf(nodes, heap, |heap|) else 0
  }

  function LightestOf(nodes: seq<Node>, heap: seq<nat>, m: nat): (k: nat)
    requires 0 < m <= |heap| && HeapIn(heap, |nodes|)
    ensures k < m && forall i :: 0 <= i < m ==> nodes[heap[k]].weight <= nodes[heap[i]].weight
  {
    if m == 1 then 0
    else
      var k := LightestOf(nodes, heap, m - 1);
      if nodes[heap[k]].weight <= nodes[heap[m - 1]].weight then k else m - 1
  }

  /** Removes the lightest node that the heap delivers. */
  method PopMin(nodes: seq<Node>, heap: seq<nat>, pick: HeapRule) returns (n: nat, rest: seq<nat>)
    requires |heap| > 0 && HeapIn(heap, |nodes|)
    ensures var k := pick(nodes, heap);
            LightestNode(nodes, heap, k) && n == heap[k] && rest == Without(heap, k)
  {
    var k := pick(nodes, heap);
    assert LightestNode(nodes, heap, k);
    n := heap[k];
    rest := heap[..k] + heap[k + 1..];
  }

  /** Nodes and heap after a round. */
  ghost function Merge(nodes: seq<Node>, heap: seq<nat>, pick: HeapRule): (r: (seq<Node>, seq<nat>))
    requires |heap| > 1 && HeapIn(heap, |nodes|)
    ensures |r.0| == |nodes| + 1 && |r.1| == |heap| - 1 && HeapIn(r.1, |r.0|)
  {
    var p := pick(nodes, heap);
    assert LightestNode(nodes, heap, p);
    var rest := Without(heap, p);
    assert HeapIn(rest, |nodes|);
    var q := pick(nodes, rest);
    assert LightestNode(nodes, rest, q);
    (nodes + [Node(nodes[heap[p]].weight + nodes[rest[q]].weight, heap[p], rest[q])], Without(rest, q) + [|nodes|])
  }

  lemma MergeParts(nodes: seq<Node>, heap: seq<nat>, pick: HeapRule)
    requires |heap| > 1 && HeapIn(heap, |nodes|)
    ensures var p := pick(nodes, heap);
            && LightestNode(nodes, heap, p)
            && var rest := Without(heap, p);
               && HeapIn(rest, |nodes|)
               && var q := pick(nodes, rest);
                  && LightestNode(nodes, rest, q)
                  && Merge(nodes, heap, pick)
                     == (nodes + [Node(nodes[heap[p]].weight + nodes[rest[q]].weight, heap[p], rest[q])],
                         Without(rest, q) + [|nodes|])
  {
    var p := pick(nodes, heap);
    assert LightestNode(nodes, heap, p);
    var rest := Without(heap, p);
    assert HeapIn(rest, |nodes|);
    assert LightestNode(nodes, rest, pick(nodes, rest));
    hide LightestNode, HeapIn;
  }

  lemma LightestIn(nodes: seq<Node>, heap: seq<nat>, k: nat)
    requires HeapIn(heap, |nodes|) && LightestNode(nodes, heap, k)
    ensures k < |heap| && heap[k] < |nodes|
  {}

  /** The nodes after the last round. */
  ghost function MergeAll(nodes: seq<Node>, heap: seq<nat>, pick: HeapRule): seq<Node>
    requires HeapIn(heap, |nodes|)
    decreases |heap|
  {
    if |heap| <= 1 then nodes else MergeAll(Merge(nodes, heap, pick).0, Merge(nodes, heap, pick).1, pick)
  }

  ghost function LeafNodes(w: seq<nat>): (nodes: seq<Node>)
    ensures |nodes| == |w| && forall i :: 0 <= i < |w| ==> nodes[i] == Node(w[i], -1, -1)
  {
    seq(|w|, i requires 0 <= i < |w| => Node(w[i], -1, -1))
  }

  /** All nodes that are made for these frequencies. */
  ghost function FinalNodes(freq: seq<nat>, pick: HeapRule): seq<Node> {
    MergeAll(LeafNodes(Weights(freq)), FirstHeap(|freq|), pick)
  }

  ghost function FirstHeap(n: nat): (heap: seq<nat>)
    ensures |heap| == n && forall i :: 0 <= i < n ==> heap[i] == i
  {
    seq(n, i => i)
  }

  /** The tree below a node. */
  ghost function TreeAt(nodes: seq<Node>, k: nat): Tree
    requires k < |nodes|
    decreases k
  {
    if 0 <= nodes[k].left < k && 0 <= nodes[k].right < k
    then Fork(TreeAt(nodes, nodes[k].left), TreeAt(nodes, nodes[k].right))
    else Leaf(k)
  }

  lemma {:induction false} TreesAreThose(nodes: seq<Node>, trees: seq<Tree>, w: seq<nat>, k: nat)
    requires NodesAre(nodes, trees, w) && k < |nodes|
    ensures |nodes| == |trees| && trees[k] == TreeAt(nodes, k)
    decreases k
  {
    assert NodeIs(nodes, trees, w, k);
    if nodes[k].left != -1 {
      TreesAreThose(nodes, trees, w, nodes[k].left);
      TreesAreThose(nodes, trees, w, nodes[k].right);
    }
  }

  /** The depths of n symbols, cut off at 20. */
  ghost function DepthsIn(t: Tree, n: nat): (lens: seq<nat>)
    ensures |lens| == n
  {
    seq(n, s requires 0 <= s < n => if s in Leaves(t) then Min(Depth(t, s), MAX_LEN) else 0)
  }

  /** The code lengths that are built from these frequencies. */
  ghost function LensFor(freq: seq<nat>, pick: HeapRule): (lens: seq<nat>)
    requires |freq| > 0
    ensures |lens| == |freq|
  {
    if |freq| == 1 then [1]
    else
      var nodes := FinalNodes(freq, pick);
      if |nodes| == 0 then seq(|freq|, _ => 0) else DepthsIn(TreeAt(nodes, |nodes| - 1), |freq|)
  }

  lemma LightestTree(nodes: seq<Node>, trees: seq<Tree>, w: seq<nat>, heap: seq<nat>, k: nat)
    requires NodesAre(nodes, trees, w) && HeapIn(heap, |nodes|) && LightestNode(nodes, heap, k)
    ensures Lightest(TreesOf(heap, trees), w, k)
  {
    forall i | 0 <= i < |heap|
      ensures Weight(TreesOf(heap, trees)[k], w) <= Weight(TreesOf(heap, trees)[i], w)
    {
      assert NodeIs(nodes, trees, w, heap[i]) && NodeIs(nodes, trees, w, heap[k]);
    }
  }

  lemma TreesWithout(heap: seq<nat>, trees: seq<Tree>, k: nat)
    requires HeapIn(heap, |trees|) && k < |heap|
    ensures HeapIn(Without(heap, k), |trees|)
    ensures TreesOf(Without(heap, k), trees) == Without(TreesOf(heap, trees), k)
  {}

  // ---------- merging ----------

  lemma {:induction false} SingleLeaves(w: seq<nat>, trees: seq<Tree>, m: nat)
    requires |trees| == |w| && m <= |w| && forall i :: 0 <= i < |w| ==> trees[i] == Leaf(i)
    ensures forall s :: s in AllLeaves(trees[m..]) <==> m <= s < |w|
    decreases |w| - m
  {
    if m < |w| {
      SingleLeaves(w, trees, m + 1);
      assert trees[m..][1..] == trees[m + 1..];
    }
  }

  /** The trees of the leaves. */
  lemma LeafTrees(w: seq<nat>) returns (trees: seq<Tree>)
    ensures NodesAre(LeafNodes(w), trees, w) && HeapIn(FirstHeap(|w|), |trees|)
    ensures TreesOf(FirstHeap(|w|), trees) == Singles(|w|)
    ensures Forest(Singles(|w|), w) && Total(Singles(|w|), w) == Sum(w)
    ensures forall s :: s in AllLeaves(Singles(|w|)) <==> 0 <= s < |w|
  {
    trees := Singles(|w|);
    forall k | 0 <= k < |w| ensures NodeIs(LeafNodes(w), trees, w, k) {}
    SingleLeaves(w, trees, 0);
    TotalOfLeaves(trees, w, 0);
    assert TreesOf(FirstHeap(|w|), trees) == trees == trees[0..] && w[0..] == w;
  }

  method InitialNodes(freq: seq<nat>) returns (nodes: seq<Node>, heap: seq<nat>)
    ensures nodes == LeafNodes(Weights(freq)) && heap == FirstHeap(|freq|)
  {
    nodes, heap := [], [];
    for i := 0 to |freq|
      invariant |nodes| == |heap| == i
      invariant forall k :: 0 <= k < i ==> nodes[k] == Node(Weights(freq)[k], -1, -1) && heap[k] == k
    {
      nodes := nodes + [Node(if freq[i] != 0 then freq[i] else 1, -1, -1)];
      heap := heap + [i];
    }
  }

  lemma AddNode(nodes: seq<Node>, trees: seq<Tree>, w: seq<nat>, a: nat, b: nat)
    requires NodesAre(nodes, trees, w) && a < |nodes| && b < |nodes|
    ensures NodesAre(nodes + [Node(nodes[a].weight + nodes[b].weight, a, b)], trees + [Fork(trees[a], trees[b])], w)
  {
    var nodes' := nodes + [Node(nodes[a].weight + nodes[b].weight, a, b)];
    var trees' := trees + [Fork(trees[a], trees[b])];
    forall k | 0 <= k < |nodes'| ensures NodeIs(nodes', trees', w, k) {
      if k < |nodes| { assert NodeIs(nodes, trees, w, k); }
      else { assert NodeIs(nodes, trees, w, a) && NodeIs(nodes, trees, w, b); }
    }
  }

  lemma GrowTrees(heap: seq<nat>, trees: seq<Tree>, t: Tree)
    requires HeapIn(heap, |trees|)
    ensures HeapIn(heap + [|trees|], |trees + [t]|)
    ensures TreesOf(heap + [|trees|], trees + [t]) == TreesOf(heap, trees) + [t]
  {}

  /** In one round the two lightest trees become one. */
  lemma MergeIs(nodes: seq<Node>, heap: seq<nat>, pick: HeapRule, trees: seq<Tree>, w: seq<nat>)
    returns (trees': seq<Tree>, p: nat, q: nat)
    requires |heap| > 1 && NodesAre(nodes, trees, w) && HeapIn(heap, |nodes|) && HeapIn(heap, |trees|)
    requires Forest(TreesOf(heap, trees), w)
    ensures var (nodes', heap') := Merge(nodes, heap, pick);
            && NodesAre(nodes', trees', w) && HeapIn(heap', |trees'|)
            && Round(TreesOf(heap, trees), w, p, q, TreesOf(heap', trees')) && Forest(TreesOf(heap', trees'), w)
            && AllLeaves(TreesOf(heap', trees')) == AllLeaves(TreesOf(heap, trees))
            && Total(TreesOf(heap', trees'), w) == Total(TreesOf(heap, trees), w)
            && heap'[|heap'| - 1] == |nodes'| - 1
  {
    hide *;
    MergeParts(nodes, heap, pick);
    SameSize(nodes, trees, w);
    p := pick(nodes, heap);
    LightestIn(nodes, heap, p);
    LightestTree(nodes, trees, w, heap, p);
    TreesWithout(heap, trees, p);
    var heap1 := Without(heap, p);
    q := pick(nodes, heap1);
    LightestIn(nodes, heap1, q);
    LightestTree(nodes, trees, w, heap1, q);
    TreesWithout(heap1, trees, q);
    MergeRound(TreesOf(heap, trees), w, p, q);
    var a, b := heap[p], heap1[q];
    AddNode(nodes, trees, w, a, b);
    GrowTrees(Without(heap1, q), trees, Fork(trees[a], trees[b]));
    trees' := trees + [Fork(trees[a], trees[b])];
    RoundIs(TreesOf(heap, trees), w, p, q, TreesOf(Merge(nodes, heap, pick).1, trees'));
  }

  lemma RoundIs(f: seq<Tree>, w: seq<nat>, p: nat, q: nat, next: seq<Tree>)
    requires Lightest(f, w, p) && q < |f| - 1 && Lightest(Without(f, p), w, q)
    requires next == Without(Without(f, p), q) + [Fork(f[p], Without(f, p)[q])]
    ensures Round(f, w, p, q, next) && next == Merged(f, p, q)
  {
    hide Lightest;
  }

  method MergeOnce(nodes: seq<Node>, heap: seq<nat>, pick: HeapRule) returns (nodes': seq<Node>, heap': seq<nat>)
    requires |heap| > 1 && HeapIn(heap, |nodes|)
    ensures (nodes', heap') == Merge(nodes, heap, pick)
  {
    hide *;
    MergeParts(nodes, heap, pick);
    var a, heap1 := PopMin(nodes, heap, pick);
    LightestIn(nodes, heap, pick(nodes, heap));
    var b, heap2 := PopMin(nodes, heap1, pick);
    LightestIn(nodes, heap1, pick(nodes, heap1));
    assert a == heap[pick(nodes, heap)] && b == heap1[pick(nodes, heap1)];
    nodes' := nodes + [Node(nodes[a].weight + nodes[b].weight, a, b)];
    heap' := heap2 + [|nodes|];
    assert heap' == Merge(nodes, heap, pick).1;
    assert nodes' == Merge(nodes, heap, pick).0;
  }

  // ---------- reading off the depths ----------

  function TreeSize(t: Tree): nat {
    match t
    case Leaf(_) => 1
    case Fork(l, r) => 1 + TreeSize(l) + TreeSize(r)
  }

  ghost function StackSize(stk: seq<(nat, nat)>, trees: seq<Tree>): nat {
    if |stk| == 0 then 0 else
      var top := stk[|stk| - 1].0;
      StackSize(stk[..|stk| - 1], trees) + (if top < |trees| then TreeSize(trees[top]) else 0)
  }

  lemma StackPush(stk: seq<(nat, nat)>, n: nat, d: nat, trees: seq<Tree>)
    requires n < |trees|
    ensures StackSize(stk + [(n, d)], trees) == StackSize(stk, trees) + TreeSize(trees[n])
  {
    assert (stk + [(n, d)])[..|stk|] == stk;
  }

  /** The subtree at n hangs at depth d in the root's tree. */
  ghost predicate HangsAt(root: Tree, t: Tree, d: nat) {
    Proper(t) && forall s :: s in Leaves(t) ==> s in Leaves(root) && Depth(root, s) == d + Depth(t, s)
  }

  lemma ChildrenHang(root: Tree, t: Tree, d: nat)
    requires HangsAt(root, t, d) && t.Fork?
    ensures HangsAt(root, t.left, d + 1) && HangsAt(root, t.right, d + 1)
  {
    assert Leaves(t.left) <= Leaves(t) && Leaves(t.right) <= Leaves(t);
  }

  ghost predicate Done(root: Tree, lens: seq<nat>, s: nat)
    requires s in Leaves(root)
  {
    s < |lens| && lens[s] == Min(Depth(root, s), MAX_LEN)
  }

  ghost predicate OnStack(stk: seq<(nat, nat)>, trees: seq<Tree>, s: nat) {
    exists i :: 0 <= i < |stk| && stk[i].0 < |trees| && s in Leaves(trees[stk[i].0])
  }

  ghost predicate StackOk(root: Tree, stk: seq<(nat, nat)>, trees: seq<Tree>) {
    forall i :: 0 <= i < |stk| ==> stk[i].0 < |trees| && HangsAt(root, trees[stk[i].0], stk[i].1)
  }

  /** Every symbol has its length or is still below a node on the stack. */
  ghost predicate Progress(root: Tree, stk: seq<(nat, nat)>, trees: seq<Tree>, lens: seq<nat>) {
    forall s :: s in Leaves(root) ==> Done(root, lens, s) || OnStack(stk, trees, s)
  }

  lemma PopLeaf(root: Tree, stk: seq<(nat, nat)>, trees: seq<Tree>, lens: seq<nat>, n: nat, d: nat)
    requires StackOk(root, stk + [(n, d)], trees) && Progress(root, stk + [(n, d)], trees, lens)
    requires n < |trees| && trees[n] == Leaf(n) && n < |lens|
    ensures StackOk(root, stk, trees) && Progress(root, stk, trees, lens[n := Min(d, MAX_LEN)])
  {
    var top := stk + [(n, d)];
    assert top[|stk|] == (n, d) && forall i :: 0 <= i < |stk| ==> top[i] == stk[i];
    assert n in Leaves(trees[n]);
    forall s | s in Leaves(root)
      ensures Done(root, lens[n := Min(d, MAX_LEN)], s) || OnStack(stk, trees, s)
    {
      if s != n && !Done(root, lens, s) {
        var i :| 0 <= i < |top| && top[i].0 < |trees| && s in Leaves(trees[top[i].0]);
        assert i < |stk|;
      }
    }
  }

  lemma PopFork(root: Tree, stk: seq<(nat, nat)>, trees: seq<Tree>, lens: seq<nat>, n: nat, d: nat, l: nat, r: nat)
    requires StackOk(root, stk + [(n, d)], trees) && Progress(root, stk + [(n, d)], trees, lens)
    requires n < |trees| && l < |trees| && r < |trees| && trees[n] == Fork(trees[l], trees[r])
    ensures StackOk(root, stk + [(l, d + 1)] + [(r, d + 1)], trees)
    ensures Progress(root, stk + [(l, d + 1)] + [(r, d + 1)], trees, lens)
  {
    var top, next := stk + [(n, d)], stk + [(l, d + 1)] + [(r, d + 1)];
    assert top[|stk|] == (n, d) && forall i :: 0 <= i < |stk| ==> top[i] == stk[i] == next[i];
    assert next[|stk|] == (l, d + 1) && next[|stk| + 1] == (r, d + 1);
    ChildrenHang(root, trees[n], d);
    forall s | s in Leaves(root) ensures Done(root, lens, s) || OnStack(next, trees, s) {
      if !Done(root, lens, s) {
        var i :| 0 <= i < |top| && top[i].0 < |trees| && s in Leaves(trees[top[i].0]);
        if i == |stk| {
          var j := if s in Leaves(trees[l]) then |stk| else |stk| + 1;
          assert s in Leaves(trees[next[j].0]);
        } else {
          assert s in Leaves(trees[next[i].0]);
        }
      }
    }
  }

  /** Walks the tree with an explicit stack and notes every symbol's depth, cut off at 20. */
  method AssignDepths(nodes: seq<Node>, n0: nat, ghost trees: seq<Tree>, ghost w: seq<nat>)
    returns (lens: seq<nat>)
    requires NodesAre(nodes, trees, w) && |nodes| > 0 && Proper(trees[|trees| - 1]) && n0 == |w|
    ensures |lens| == n0
    ensures ClampedBelow(trees[|trees| - 1], 0, lens)
    ensures forall s :: 0 <= s < n0 && s !in Leaves(trees[|trees| - 1]) ==> lens[s] == 0
  {
    hide *;
    lens := seq(n0, _ => 0);
    var stk: seq<(nat, nat)> := [(|nodes| - 1, 0)];
    StackStart(nodes, trees, w, lens);
    ghost var root := trees[|trees| - 1];
    while |stk| > 0
      invariant |lens| == n0 && |nodes| == |trees|
      invariant StackOk(root, stk, trees) && Progress(root, stk, trees, lens)
      invariant forall s :: 0 <= s < n0 && s !in Leaves(root) ==> lens[s] == 0
      decreases StackSize(stk, trees)
    {
      var (n, d) := stk[|stk| - 1];
      ghost var stk0 := stk;
      stk := stk[..|stk| - 1];
      assert stk0 == stk + [(n, d)];
      StackTop(root, nodes, trees, w, stk, n, d);
      StackPush(stk, n, d, trees);
      if nodes[n].left == -1 {
        PopLeaf(root, stk, trees, lens, n, d);
        lens := lens[n := Min(d, MAX_LEN)];
      } else {
        var l, r := nodes[n].left, nodes[n].right;
        PopFork(root, stk, trees, lens, n, d, l, r);
        StackPush(stk, l, d + 1, trees);
        StackPush(stk + [(l, d + 1)], r, d + 1, trees);
        stk := stk + [(l, d + 1)];
        stk := stk + [(r, d + 1)];
      }
    }
    StackEmpty(root, trees, lens);
  }

  lemma StackStart(nodes: seq<Node>, trees: seq<Tree>, w: seq<nat>, lens: seq<nat>)
    requires NodesAre(nodes, trees, w) && |nodes| > 0 && Proper(trees[|trees| - 1])
    ensures |nodes| == |trees|
    ensures var root, stk := trees[|trees| - 1], [(|nodes| - 1, 0)];
            StackOk(root, stk, trees) && Progress(root, stk, trees, lens)
  {
    var root, stk: seq<(nat, nat)> := trees[|trees| - 1], [(|nodes| - 1, 0)];
    assert HangsAt(root, root, 0) && stk[0].0 < |trees|;
  }

  /** The popped node is a leaf of the tree or a fork of two older nodes. */
  lemma StackTop(root: Tree, nodes: seq<Node>, trees: seq<Tree>, w: seq<nat>, stk: seq<(nat, nat)>, n: nat, d: nat)
    requires NodesAre(nodes, trees, w) && StackOk(root, stk + [(n, d)], trees)
    ensures n < |nodes| == |trees| && TreeSize(trees[n]) > 0 && 0 <= Min(d, MAX_LEN)
    ensures nodes[n].left == -1 ==> trees[n] == Leaf(n) && n < |w| && n in Leaves(root)
    ensures nodes[n].left != -1 ==>
              var l, r := nodes[n].left, nodes[n].right;
              && 0 <= l < |trees| && 0 <= r < |trees| && trees[n] == Fork(trees[l], trees[r])
              && TreeSize(trees[n]) > TreeSize(trees[l]) + TreeSize(trees[r])
  {
    assert (stk + [(n, d)])[|stk|] == (n, d);
    assert HangsAt(root, trees[n], d);
    assert NodeIs(nodes, trees, w, n);
    if nodes[n].left == -1 { assert n in Leaves(trees[n]); }
  }

  lemma StackEmpty(root: Tree, trees: seq<Tree>, lens: seq<nat>)
    requires Progress(root, [], trees, lens)
    ensures ClampedBelow(root, 0, lens)
  {
    forall s | s in Leaves(root) ensures s < |lens| && lens[s] == Min(0 + Depth(root, s), MAX_LEN) {
      assert Done(root, lens, s);
    }
  }

  // ---------- the lengths ----------

  lemma {:induction false} SumOfWeights(f: seq<Tree>, w: seq<nat>)
    requires |f| == 1
    ensures Total(f, w) == Weight(f[0], w) && AllLeaves(f) == Leaves(f[0])
  {
    assert f[1..] == [];
  }

  function Sum(w: seq<nat>): nat {
    if |w| == 0 then 0 else w[0] + Sum(w[1..])
  }

  lemma {:induction false} TotalOfLeaves(f: seq<Tree>, w: seq<nat>, m: nat)
    requires |f| == |w| && m <= |w| && forall i :: 0 <= i < |w| ==> f[i] == Leaf(i)
    ensures Total(f[m..], w) == Sum(w[m..])
    decreases |w| - m
  {
    if m < |w| {
      TotalOfLeaves(f, w, m + 1);
      assert f[m..][1..] == f[m + 1..] && w[m..][1..] == w[m + 1..];
    }
  }

  ghost predicate LeavesAre(t: Tree, n: nat) {
    forall s :: s in Leaves(t) <==> 0 <= s < n
  }

  /** The last node's tree: greedy, over all symbols, grown by rounds of merging. */
  ghost predicate IsRoot(root: Tree, w: seq<nat>) {
    && Proper(root) && Greedy(root, w) && root.Fork? && LeavesAre(root, |w|) && Weight(root, w) == Sum(w)
    && |w| > 0 && Grown([root], w, |w| - 1)
  }

  /** What holds between two rounds. */
  ghost predicate Growing(nodes: seq<Node>, heap: seq<nat>, trees: seq<Tree>, w: seq<nat>) {
    && 1 <= |heap| <= |w| && HeapIn(heap, |nodes|) && NodesAre(nodes, trees, w) && HeapIn(heap, |trees|)
    && Forest(TreesOf(heap, trees), w) && Total(TreesOf(heap, trees), w) == Sum(w)
    && (forall s :: s in AllLeaves(TreesOf(heap, trees)) <==> 0 <= s < |w|)
    && (|heap| < |w| ==> heap[|heap| - 1] == |nodes| - 1) && Grown(TreesOf(heap, trees), w, |w| - |heap|)
  }

  lemma GrowingNext(nodes: seq<Node>, heap: seq<nat>, pick: HeapRule, trees: seq<Tree>, w: seq<nat>)
    returns (trees': seq<Tree>)
    requires |heap| > 1 && Growing(nodes, heap, trees, w)
    ensures HeapIn(heap, |nodes|) && Growing(Merge(nodes, heap, pick).0, Merge(nodes, heap, pick).1, trees', w)
  {
    hide *;
    GrowingMeans(nodes, heap, trees, w);
    var p, q;
    trees', p, q := MergeIs(nodes, heap, pick, trees, w);
    var r := Merge(nodes, heap, pick);
    GrownOnce(TreesOf(heap, trees), w, |w| - |heap|, p, q, TreesOf(r.1, trees'));
    GrowingIs(r.0, r.1, trees', w);
  }

  lemma GrowingIs(nodes: seq<Node>, heap: seq<nat>, trees: seq<Tree>, w: seq<nat>)
    requires 1 <= |heap| < |w| && HeapIn(heap, |nodes|) && NodesAre(nodes, trees, w) && HeapIn(heap, |trees|)
    requires Forest(TreesOf(heap, trees), w) && Total(TreesOf(heap, trees), w) == Sum(w)
    requires forall s :: s in AllLeaves(TreesOf(heap, trees)) <==> 0 <= s < |w|
    requires heap[|heap| - 1] == |nodes| - 1 && Grown(TreesOf(heap, trees), w, |w| - |heap|)
    ensures Growing(nodes, heap, trees, w)
  {
    hide Forest, Total, Grown, NodesAre, Sum, AllLeaves;
  }

  lemma {:induction false} AllMerged(nodes: seq<Node>, heap: seq<nat>, pick: HeapRule, trees: seq<Tree>, w: seq<nat>)
    returns (trees': seq<Tree>)
    requires |w| > 1 && HeapIn(heap, |nodes|) && Growing(nodes, heap, trees, w)
    ensures var all := MergeAll(nodes, heap, pick);
            NodesAre(all, trees', w) && |all| == |trees'| > 0 && IsRoot(trees'[|trees'| - 1], w)
    decreases |heap|
  {
    hide *;
    MergeAllStep(nodes, heap, pick);
    GrowingMeans(nodes, heap, trees, w);
    if |heap| == 1 {
      trees' := trees;
      OneTree(nodes, heap, trees, w);
      SameSize(nodes, trees, w);
    } else {
      var next := GrowingNext(nodes, heap, pick, trees, w);
      trees' := AllMerged(Merge(nodes, heap, pick).0, Merge(nodes, heap, pick).1, pick, next, w);
    }
  }

  lemma GrowingMeans(nodes: seq<Node>, heap: seq<nat>, trees: seq<Tree>, w: seq<nat>)
    requires Growing(nodes, heap, trees, w)
    ensures 1 <= |heap| <= |w| && HeapIn(heap, |nodes|) && NodesAre(nodes, trees, w) && |nodes| > 0
    ensures HeapIn(heap, |trees|) && Forest(TreesOf(heap, trees), w) && Total(TreesOf(heap, trees), w) == Sum(w)
    ensures forall s :: s in AllLeaves(TreesOf(heap, trees)) <==> 0 <= s < |w|
    ensures Grown(TreesOf(heap, trees), w, |w| - |heap|)
  {
    hide Forest, Total, Grown, NodesAre, Sum, AllLeaves;
    assert heap[0] < |nodes|;
  }

  lemma GrowingFirst(w: seq<nat>) returns (trees: seq<Tree>)
    requires |w| > 0
    ensures HeapIn(FirstHeap(|w|), |LeafNodes(w)|) && Growing(LeafNodes(w), FirstHeap(|w|), trees, w)
  {
    hide Forest, Total, Grown, NodesAre, Sum, AllLeaves;
    trees := LeafTrees(w);
    NoRounds(w);
  }

  /** The trees of all nodes that are made. */
  lemma FinalTrees(freq: seq<nat>, pick: HeapRule) returns (trees: seq<Tree>)
    requires |freq| > 1
    ensures NodesAre(FinalNodes(freq, pick), trees, Weights(freq)) && |FinalNodes(freq, pick)| == |trees| > 0
    ensures IsRoot(trees[|trees| - 1], Weights(freq))
  {
    hide *;
    FinalStart(freq, pick);
    var leaves := GrowingFirst(Weights(freq));
    trees := AllMerged(LeafNodes(Weights(freq)), FirstHeap(|freq|), pick, leaves, Weights(freq));
  }

  /** Greedy merging down to one tree over all symbols. */
  method BuildTree(freq: seq<nat>, pick: HeapRule) returns (nodes: seq<Node>, ghost trees: seq<Tree>)
    requires |freq| > 1
    ensures nodes == FinalNodes(freq, pick)
    ensures NodesAre(nodes, trees, Weights(freq)) && |nodes| == |trees| > 0
    ensures IsRoot(trees[|trees| - 1], Weights(freq))
  {
    hide *;
    var heap;
    nodes, heap := InitialNodes(freq);
    FinalStart(freq, pick);
    while |heap| > 1
      invariant HeapIn(heap, |nodes|) && MergeAll(nodes, heap, pick) == FinalNodes(freq, pick)
      decreases |heap|
    {
      MergeAllStep(nodes, heap, pick);
      nodes, heap := MergeOnce(nodes, heap, pick);
    }
    MergeAllStep(nodes, heap, pick);
    trees := FinalTrees(freq, pick);
  }

  lemma FinalStart(freq: seq<nat>, pick: HeapRule)
    ensures HeapIn(FirstHeap(|freq|), |LeafNodes(Weights(freq))|)
    ensures MergeAll(LeafNodes(Weights(freq)), FirstHeap(|freq|), pick) == FinalNodes(freq, pick)
  {}

  lemma MergeAllStep(nodes: seq<Node>, heap: seq<nat>, pick: HeapRule)
    requires HeapIn(heap, |nodes|)
    ensures |heap| <= 1 ==> MergeAll(nodes, heap, pick) == nodes
    ensures |heap| > 1 ==>
              var r := Merge(nodes, heap, pick);
              HeapIn(r.1, |r.0|) && MergeAll(nodes, heap, pick) == MergeAll(r.0, r.1, pick)
  {
    hide Merge;
  }

  lemma OneTree(nodes: seq<Node>, heap: seq<nat>, trees: seq<Tree>, w: seq<nat>)
    requires |heap| == 1 && Growing(nodes, heap, trees, w) && |w| > 1
    ensures |trees| > 0 && IsRoot(trees[|trees| - 1], w)
  {
    hide Grown, Weight, Sum, Greedy, Proper, Total, AllLeaves;
    var f := TreesOf(heap, trees);
    SumOfWeights(f, w);
    ForestOfOne(f, w);
    assert f == [f[0]] && f[0] == trees[|trees| - 1];
    TwoLeaves(f[0]);
  }

  lemma ForestOfOne(f: seq<Tree>, w: seq<nat>)
    requires |f| == 1 && Forest(f, w)
    ensures Proper(f[0]) && Greedy(f[0], w)
  {
    hide Greedy, Proper;
  }

  lemma NoRounds(w: seq<nat>)
    ensures Grown(Singles(|w|), w, 0)
  {}

  lemma GrownOnce(f: seq<Tree>, w: seq<nat>, k: nat, p: nat, q: nat, next: seq<Tree>)
    requires Grown(f, w, k) && Round(f, w, p, q, next)
    ensures Grown(next, w, k + 1)
  {}

  lemma TwoLeaves(t: Tree)
    requires 0 in Leaves(t) && 1 in Leaves(t)
    ensures t.Fork?
  {}

  /** No lengths that leave room for a prefix code have a smaller weighted sum. */
  ghost predicate Optimal(w: seq<nat>, lens: seq<nat>)
    requires |w| == |lens|
  {
    forall other: seq<nat> :: |other| == |w| && HuffmanOptimal.HasRoom(other) ==>
      HuffmanOptimal.Dot(w, lens) <= HuffmanOptimal.Dot(w, other)
  }

  /** What the lengths of an alphabet are like; `deep` tells whether some depth was cut off at 20. */
  ghost predicate Lengths(w: seq<nat>, lens: seq<nat>, deep: bool) {
    && |lens| == |w| && InRange(lens) && (forall s :: 0 <= s < |lens| ==> lens[s] >= 1) && AlmostFits(lens)
    && (|w| > 1 ==> forall s :: 0 <= s < |lens| ==> lens[s] < |w|)
    && (|w| > 1 ==> Kraft(lens) >= Pow2(MAX_LEN) && (Kraft(lens) == Pow2(MAX_LEN) <==> !deep))
    && (!deep ==> Fits(lens)) && (|w| > 1 ==> Optimal(w, lens))
    && (Sum(w) < 28657 || |w| <= MAX_LEN + 1 ==> !deep)
    && (|w| > MAX_LEN + 1 && w == HuffmanRuns.Fibonacci(|w|) ==> deep)
  }

  /** So are the lengths for all frequencies. */
  lemma LensForIs(freq: seq<nat>, pick: HeapRule) returns (deep: bool)
    requires |freq| > 0
    ensures Lengths(Weights(freq), LensFor(freq, pick), deep)
  {
    hide *;
    LensAre(freq, pick);
    if |freq| == 1 {
      deep := false;
      SingleLength(Weights(freq));
    } else {
      var trees := FinalTrees(freq, pick);
      var root := trees[|trees| - 1];
      TreesAreThose(FinalNodes(freq, pick), trees, Weights(freq), |trees| - 1);
      deep := Height(root) > MAX_LEN;
      DepthsClamped(root, Weights(freq));
      ReadOff(root, Weights(freq), DepthsIn(root, |freq|), deep);
    }
  }

  lemma DepthsClamped(root: Tree, w: seq<nat>)
    requires IsRoot(root, w)
    ensures ClampedBelow(root, 0, DepthsIn(root, |w|))
  {
    hide Depth, Leaves;
  }

  /** Code lengths for all symbols of the alphabet. No prefix code costs less. They are complete exactly while no depth
      is cut off, which takes more than 21 symbols and a weight of 28657, and which Fibonacci weights bring about. */
  method LengthsFromFreqs(freq: seq<nat>, pick: HeapRule) returns (lens: seq<nat>, ghost deep: bool)
    requires |freq| >= 1
    ensures lens == LensFor(freq, pick) && Lengths(Weights(freq), lens, deep)
    ensures |lens| == |freq| && (|freq| > 1 ==> Optimal(Weights(freq), lens))
    ensures Sum(Weights(freq)) < 28657 || |freq| <= MAX_LEN + 1 ==> Fits(lens)
    ensures |freq| > MAX_LEN + 1 && Weights(freq) == HuffmanRuns.Fibonacci(|freq|) ==> !Fits(lens)
  {
    hide *;
    deep := LensForIs(freq, pick);
    LengthsMean(Weights(freq), LensFor(freq, pick), deep);
    LensAre(freq, pick);
    if |freq| == 1 { return [1], deep; }
    var nodes, trees := BuildTree(freq, pick);
    ghost var root := trees[|trees| - 1];
    RootMeans(root, Weights(freq));
    lens := AssignDepths(nodes, |freq|, trees, Weights(freq));
    TreesAreThose(nodes, trees, Weights(freq), |nodes| - 1);
    DepthsAre(root, lens);
  }

  lemma LensAre(freq: seq<nat>, pick: HeapRule)
    ensures |freq| == 1 ==> LensFor(freq, pick) == [1]
    ensures |freq| > 1 ==>
              var nodes := FinalNodes(freq, pick);
              |nodes| > 0 ==> LensFor(freq, pick) == DepthsIn(TreeAt(nodes, |nodes| - 1), |freq|)
  {
    hide FinalNodes, TreeAt, DepthsIn;
  }

  lemma DepthsAre(root: Tree, lens: seq<nat>)
    requires ClampedBelow(root, 0, lens) && LeavesAre(root, |lens|)
    ensures lens == DepthsIn(root, |lens|)
  {}

  lemma RootMeans(root: Tree, w: seq<nat>)
    requires IsRoot(root, w)
    ensures Proper(root) && LeavesAre(root, |w|)
  {
    hide Proper, LeavesAre;
  }

  /** The lengths alone tell whether a depth was cut off: then they do not fit. */
  lemma LengthsMean(w: seq<nat>, lens: seq<nat>, deep: bool)
    requires |w| > 0 && Lengths(w, lens, deep)
    ensures |lens| == |w| && (|w| > 1 ==> Optimal(w, lens))
    ensures Sum(w) < 28657 || |w| <= MAX_LEN + 1 ==> Fits(lens)
    ensures |w| > MAX_LEN + 1 && w == HuffmanRuns.Fibonacci(|w|) ==> !Fits(lens)
  {
    hide Kraft, Pow2, Sum, HuffmanRuns.Fibonacci, Optimal, AlmostFits;
  }

  lemma SingleLength(w: seq<nat>)
    requires |w| == 1
    ensures Lengths(w, [1], false)
  {
    hide Kraft, Pow2;
    OneCode();
  }

  lemma OneCode()
    ensures Fits([1]) && AlmostFits([1])
  {
    assert KraftUpTo([1], 1, MAX_LEN) == KraftUpTo([1], 0, MAX_LEN) + Pow2(19);
    hide *;
    HuffmanTree.LongestIs();
    EndCodeBound([1], MAX_LEN - 1);
  }

  lemma SameSize(nodes: seq<Node>, trees: seq<Tree>, w: seq<nat>)
    requires NodesAre(nodes, trees, w)
    ensures |nodes| == |trees|
  {}

  lemma ReadOff(root: Tree, w: seq<nat>, lens: seq<nat>, deep: bool)
    requires IsRoot(root, w) && Positive(w) && |lens| == |w| > 1 && ClampedBelow(root, 0, lens)
    requires deep <==> Height(root) > MAX_LEN
    ensures Lengths(w, lens, deep)
  {
    hide Kraft, Pow2, Weight, Greedy, Proper, EndCode, Grown, Height, Sum, HuffmanRuns.Fibonacci, Optimal;
    forall s | 0 <= s < |lens| ensures lens[s] <= MAX_LEN && s in Leaves(root) && lens[s] <= Height(root) {
      assert LeavesAre(root, |w|);
      HuffmanOptimal.DepthBelowHeight(root, s);
    }
    KraftIffShallow(root, lens);
    ShorterCodesFit(root, lens);
    KnownByLeaves(root, |w|);
    if Weight(root, w) < 28657 { LightIsShallow(root, w); }
    HeightBelowLeaves(root);
    LeafCount(root, |w|);
    if w == HuffmanRuns.Fibonacci(|w|) { HuffmanRuns.FibonacciIsTall(root, |w|); }
    LeastSum(root, w, lens);
  }

  lemma LeafCount(t: Tree, n: nat)
    requires LeavesAre(t, n)
    ensures |Leaves(t)| == n
  {
    assert Leaves(t) == Range(n);
  }

  lemma LeastSum(root: Tree, w: seq<nat>, lens: seq<nat>)
    requires Proper(root) && |lens| == |w| > 0 && LeavesAre(root, |w|) && ClampedBelow(root, 0, lens)
    requires Grown([root], w, |w| - 1)
    ensures Optimal(w, lens)
  {
    forall other: seq<nat> | |other| == |w| && HuffmanOptimal.HasRoom(other)
      ensures HuffmanOptimal.Dot(w, lens) <= HuffmanOptimal.Dot(w, other)
    {
      HuffmanOptimal.NoneShorter(root, w, |w| - 1, lens, other);
    }
  }

  lemma LongestBound(lens: lengths)
    requires InRange(lens)
    ensures MaxLength(lens) <= MAX_LEN && forall s :: 0 <= s < |lens| ==> lens[s] <= MaxLength(lens)
  {
    assert MaxLength(lens) > 0 ==> MaxLength(lens) in lens;
  }

  lemma SizeOf(freq: seq<nat>, lens: seq<nat>, deep: bool)
    requires Lengths(Weights(freq), lens, deep)
    ensures |lens| == |freq| && InRange(lens)
  {}

  // ---------- the table object ----------

  /** The code of symbol i, and the counts behind it. */
  lemma CodeNext(lens: lengths, i: nat)
    requires i < |lens|
    ensures lens[i] > 0 ==> Code(lens, i) == FirstCode(lens, lens[i]) + Equal(lens, i, lens[i])
    ensures forall l :: Equal(lens, i + 1, l) == Equal(lens, i, l) + (if lens[i] == l then 1 else 0)
    ensures i == 0 ==> forall l :: Equal(lens, i, l) == 0
  {}

  class EncTable {
    const len: array<nat>
    const code: array<nat>
    var alphaSize: nat
    ghost const Repr: set<object>

    ghost predicate Shaped()
      reads this, Repr
    {
      && Repr == {this, len, code} && len.Length == code.Length == MAX_ALPHA && len != code
      && alphaSize <= MAX_ALPHA
    }

    ghost function Lens(): (l: seq<nat>)
      requires Shaped()
      reads this, Repr
      ensures |l| == alphaSize
    {
      len[..alphaSize]
    }

    /** Every symbol's code is its canonical code. */
    ghost predicate Coded()
      reads this, Repr
    {
      Shaped() && InRange(Lens())
      && forall s :: 0 <= s < alphaSize ==> code[s] == if len[s] > 0 then Code(Lens(), s) else 0
    }

    constructor ()
      ensures Shaped() && fresh(Repr)
    {
      var l, c := new nat[MAX_ALPHA](_ => 0), new nat[MAX_ALPHA](_ => 0);
      len, code, alphaSize := l, c, 0;
      Repr := {this, l, c};
    }

    method BuildCodes()
      requires Shaped() && InRange(Lens())
      modifies code
      ensures Coded()
    {
      var lens := len[..alphaSize];
      var maxL := Longest(lens);
      LongestBound(lens);
      var blCount := CountLengths(lens);
      var nextCode := FirstCodes(lens, blCount, maxL);
      AssignCodes(nextCode, maxL);
    }

    /** Hands out the codes of each length in symbol order. */
    method AssignCodes(nextCode: array<nat>, maxL: nat)
      requires Shaped() && InRange(Lens()) && nextCode.Length == MAX_LEN + 1 && nextCode !in Repr
      requires maxL <= MAX_LEN && forall k :: 0 <= k < alphaSize ==> len[k] <= maxL
      requires forall l :: 1 <= l <= maxL ==> nextCode[l] == FirstCode(Lens(), l)
      modifies code, nextCode
      ensures Coded()
    {
      hide FirstCode, CountAt, Equal, InRange, Code;
      ghost var lens := Lens();
      for i := 0 to alphaSize
        invariant Shaped() && Lens() == lens
        invariant forall l :: 1 <= l <= maxL ==> nextCode[l] == FirstCode(lens, l) + Equal(lens, i, l)
        invariant forall s :: 0 <= s < i ==> code[s] == if lens[s] > 0 then Code(lens, s) else 0
      {
        assert len[i] == lens[i];
        CodeNext(lens, i);
        if len[i] != 0 {
          code[i] := nextCode[len[i]];
          nextCode[len[i]] := nextCode[len[i]] + 1;
        } else {
          code[i] := 0;
        }
      }
    }

    /** Builds the whole table for the alphabet of freq. */
    method BuildFromFreqs(freq: seq<nat>, pick: HeapRule) returns (ghost deep: bool)
      requires Shaped() && 1 <= |freq| <= MAX_ALPHA
      modifies Repr
      ensures Coded() && alphaSize == |freq| && Lengths(Weights(freq), Lens(), deep)
      ensures Lens() == LensFor(freq, pick)
    {
      hide Lengths, Weights, Coded, LensFor;
      alphaSize := |freq|;
      var lens;
      lens, deep := LengthsFromFreqs(freq, pick);
      forall i | 0 <= i < MAX_ALPHA { len[i] := if i < |lens| then lens[i] else 0; }
      SizeOf(freq, lens, deep);
      assert Lens() == lens;
      BuildCodes();
    }
  }
}
