/** Blocks of one byte value: their three symbols, and the tables that the encoder builds for them. */
module ThreeSymbols {
  import opened Canonical
  import opened HuffmanTree
  import opened HuffmanBuild
  import opened HuffmanTables

  /** One bit for symbol r and two for the others. */
  function Shape(r: nat): (lens: lengths)
    requires r < 3
    ensures |lens| == 3 && forall s :: 0 <= s < 3 ==> lens[s] == if s == r then 1 else 2
  {
    if r == 0 then [1, 2, 2] else if r == 1 then [2, 1, 2] else [2, 2, 1]
  }

  // ---------- one table ----------

  /** The two nodes that the heap delivers first, and the symbol that is left. */
  lemma FirstRound(w: seq<nat>, pick: HeapRule) returns (a: nat, b: nat, r: nat)
    requires |w| == 3
    ensures a < 3 && b < 3 && r < 3 && a != b && a != r && b != r && w[r] >= w[a] && w[r] >= w[b]
    ensures HeapIn(FirstHeap(3), |LeafNodes(w)|)
    ensures Merge(LeafNodes(w), FirstHeap(3), pick) == (LeafNodes(w) + [Node(w[a] + w[b], a, b)], [r, 3])
  {
    hide Merge;
    var nodes, heap := LeafNodes(w), FirstHeap(3);
    MergeParts(nodes, heap, pick);
    var p := pick(nodes, heap);
    LightestIn(nodes, heap, p);
    var rest := Without(heap, p);
    var q := pick(nodes, rest);
    LightestIn(nodes, rest, q);
    a, b, r := heap[p], rest[q], Without(rest, q)[0];
    assert nodes[a].weight <= nodes[r].weight;
    assert Without(rest, q) + [|nodes|] == [r, 3];
  }

  /** The last two nodes become one, either way round. */
  lemma SecondRound(nodes: seq<Node>, r: nat, pick: HeapRule) returns (x: nat, y: nat)
    requires |nodes| == 4 && r < 3
    ensures (x == r && y == 3) || (x == 3 && y == r)
    ensures HeapIn([r, 3], |nodes|)
    ensures MergeAll(nodes, [r, 3], pick) == nodes + [Node(nodes[x].weight + nodes[y].weight, x, y)]
  {
    hide *;
    var heap := [r, 3];
    InHeap(heap, 4);
    MergeParts(nodes, heap, pick);
    var p := pick(nodes, heap);
    LightestIn(nodes, heap, p);
    var rest := Without(heap, p);
    LightestIn(nodes, rest, pick(nodes, rest));
    x, y := heap[p], rest[pick(nodes, rest)];
    assert Merge(nodes, heap, pick).0 == nodes + [Node(nodes[x].weight + nodes[y].weight, x, y)];
    MergeAllStep(nodes, heap, pick);
    MergeAllStep(Merge(nodes, heap, pick).0, Merge(nodes, heap, pick).1, pick);
  }

  lemma InHeap(heap: seq<nat>, n: nat)
    requires forall i :: 0 <= i < |heap| ==> heap[i] < n
    ensures HeapIn(heap, n)
  {}

  /** A heaviest symbol gets one bit. */
  lemma LensOfThree(freq: seq<nat>, pick: HeapRule) returns (r: nat)
    requires |freq| == 3
    ensures r < 3 && LensFor(freq, pick) == Shape(r)
    ensures forall s :: 0 <= s < 3 ==> Weights(freq)[s] <= Weights(freq)[r]
  {
    hide *;
    var w := Weights(freq);
    var a, b, x, y;
    a, b, r := FirstRound(w, pick);
    var nodes := LeafNodes(w) + [Node(w[a] + w[b], a, b)];
    x, y := SecondRound(nodes, r, pick);
    var all := nodes + [Node(nodes[x].weight + nodes[y].weight, x, y)];
    FinalStart(freq, pick);
    MergeAllStep(LeafNodes(w), FirstHeap(3), pick);
    LensAre(freq, pick);
    ThreeDeep(all, a, b, r, x, y);
  }

  lemma ThreeDeep(nodes: seq<Node>, a: nat, b: nat, r: nat, x: nat, y: nat)
    requires |nodes| == 5 && a < 3 && b < 3 && r < 3 && a != b && a != r && b != r
    requires forall i :: 0 <= i < 3 ==> nodes[i].left == -1
    requires nodes[3].left == a && nodes[3].right == b && nodes[4].left == x && nodes[4].right == y
    requires (x == r && y == 3) || (x == 3 && y == r)
    ensures DepthsIn(TreeAt(nodes, 4), 3) == Shape(r)
  {
    hide Leaves, Depth;
    assert TreeAt(nodes, 3) == Fork(Leaf(a), Leaf(b)) && TreeAt(nodes, r) == Leaf(r);
    var low := Fork(Leaf(a), Leaf(b));
    var t := TreeAt(nodes, 4);
    assert t == Fork(Leaf(r), low) || t == Fork(low, Leaf(r));
    SmallTree(t, a, b, r);
  }

  lemma SmallTree(t: Tree, a: nat, b: nat, r: nat)
    requires t == Fork(Leaf(r), Fork(Leaf(a), Leaf(b))) || t == Fork(Fork(Leaf(a), Leaf(b)), Leaf(r))
    requires a != b && a != r && b != r
    ensures Leaves(t) == {a, b, r} && Depth(t, r) == 1 && Depth(t, a) == Depth(t, b) == 2
  {
    var low := Fork(Leaf(a), Leaf(b));
    assert Leaves(Leaf(a)) == {a} && Leaves(Leaf(b)) == {b} && Leaves(Leaf(r)) == {r};
    assert Leaves(low) == {a, b};
    assert Depth(low, a) == 1 && Depth(low, b) == 1 && Depth(Leaf(r), r) == 0;
  }

  // ---------- one group ----------

  ghost function CountsOf(syms: seq<nat>): (freq: seq<nat>)
    requires InAlphabet(syms, 3)
    ensures |freq| == 3
  {
    Counted(seq(3, _ => 0), syms)
  }

  lemma TwoTables(syms: seq<nat>, pick: HeapRule)
    requires 0 < |syms| <= 50 && InAlphabet(syms, 3)
    ensures |AllLens(syms, 3, 2, [0], pick)| == 2
    ensures AllLens(syms, 3, 2, [0], pick)[0] == LensFor(CountsOf(syms), pick)
    ensures AllLens(syms, 3, 2, [0], pick)[1] == LensFor(seq(3, _ => 0), pick)
  {
    hide LensFor, Counted;
    assert Group(syms, 0) == syms;
    assert Counts(syms, 3, [0], 0, 0) == seq(3, _ => 0) == Counts(syms, 3, [0], 1, 0);
    assert Counts(syms, 3, [0], 0, 1) == CountsOf(syms);
    assert Counts(syms, 3, [0], 1, 1) == seq(3, _ => 0);
  }

  /** When the table of the counts is as good as any, the only group keeps it from the first round to the last. */
  lemma {:induction false} OneGroup(syms: seq<nat>, pick: HeapRule, r: nat, k: nat) returns (other: nat)
    requires 0 < |syms| <= 50 && InAlphabet(syms, 3) && r < 3 && LensFor(CountsOf(syms), pick) == Shape(r)
    requires forall s :: 0 <= s < 3 ==> Cost(syms, Shape(r)) <= Cost(syms, Shape(s))
    ensures other < 3
    ensures Settled(syms, 3, 2, pick, k).1 == [0]
    ensures k > 0 ==> Settled(syms, 3, 2, pick, k).0 == [Shape(r), Shape(other)]
    decreases k, r
  {
    hide LensFor, Counted, Shape, Cost, AllLens, Choice;
    other := LensOfThree(seq(3, _ => 0), pick);
    if k > 0 {
      var again := OneGroup(syms, pick, r, k - 1);
      TwoTables(syms, pick);
      var ls := AllLens(syms, 3, 2, [0], pick);
      assert ls == [Shape(r), Shape(other)];
      assert Group(syms, 0) == syms;
      FirstIsLeast(Costs(syms, ls));
      assert Choice(syms, ls) == [0];
    }
  }

  lemma FirstIsLeast(costs: seq<nat>)
    requires |costs| == 2 && costs[0] <= costs[1]
    ensures FirstLeast(costs) == 0
  {}
}
