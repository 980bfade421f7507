/** Two to six tables per block: groups of fifty symbols are assigned to the table that codes them shortest. */
module HuffmanTables {
  import opened Bits
  import opened Canonical
  import opened HuffmanBuild

  const ROUNDS: nat := 4

  /** One finished table: the length and the code of every symbol of the alphabet. */
  datatype Coding = Coding(len: seq<nat>, code: seq<nat>)

  /** The codes are the canonical codes of lengths 1 to 20, and at most codes of twenty bits do not fit. */
  ghost predicate IsCoding(c: Coding, alphaSize: nat) {
    && |c.len| == |c.code| == alphaSize
    && InRange(c.len) && AlmostFits(c.len)
    && forall s :: 0 <= s < alphaSize ==> c.len[s] >= 1 && c.code[s] == Code(c.len, s)
  }

  ghost predicate AreCodings(tables: seq<Coding>, alphaSize: nat) {
    forall t :: 0 <= t < |tables| ==> IsCoding(tables[t], alphaSize)
  }

  ghost predicate AllFit(tables: seq<Coding>) {
    forall t :: 0 <= t < |tables| ==> Fits(tables[t].len)
  }

  /** The lengths of all tables. */
  ghost function Lens(tables: seq<Coding>): (ls: seq<lengths>)
    ensures |ls| == |tables| && forall t :: 0 <= t < |ls| ==> ls[t] == tables[t].len
  {
    seq(|tables|, t requires 0 <= t < |tables| => tables[t].len)
  }

  function GroupCount(n: nat): nat { (n + 50 - 1) / 50 }

  method BuildCoding(freq: seq<nat>, pick: HeapRule) returns (c: Coding, ghost deep: bool)
    requires 3 <= |freq| <= MAX_ALPHA
    ensures IsCoding(c, |freq|) && (deep <==> !Fits(c.len)) && Kraft(c.len) >= Pow2(MAX_LEN)
    ensures Sum(Weights(freq)) < 28657 || |freq| <= MAX_LEN + 1 ==> !deep
    ensures Lengths(Weights(freq), c.len, deep) && c.len == LensFor(freq, pick)
  {
    hide Optimal, Kraft, Weights, Sum, AlmostFits, LensFor;
    var t := new EncTable();
    deep := t.BuildFromFreqs(freq, pick);
    c := Coding(t.len[..t.alphaSize], t.code[..t.alphaSize]);
    assert c.len == t.Lens();
  }

  // ---------- weights ----------

  lemma {:induction false} SumIncrement(w: seq<nat>, s: nat)
    requires s < |w|
    ensures Sum(w[s := w[s] + 1]) == Sum(w) + 1
    decreases |w|
  {
    var w' := w[s := w[s] + 1];
    if s == 0 {
      assert w'[1..] == w[1..];
    } else {
      SumIncrement(w[1..], s - 1);
      assert w'[1..] == w[1..][s - 1 := w[1..][s - 1] + 1];
    }
  }

  lemma {:induction false} SumZero(n: nat)
    ensures Sum(seq(n, _ => 0)) == 0
  {
    if n > 0 {
      SumZero(n - 1);
      assert seq(n, _ => 0)[1..] == seq(n - 1, _ => 0);
    }
  }

  /** Counting unused symbols as one adds at most the alphabet size. */
  lemma {:induction false} WeightsSum(freq: seq<nat>)
    ensures Sum(Weights(freq)) <= Sum(freq) + |freq|
    decreases |freq|
  {
    if |freq| > 0 {
      WeightsSum(freq[1..]);
      assert Weights(freq)[1..] == Weights(freq[1..]);
    }
  }

  // ---------- one round ----------

  ghost predicate InAlphabet(syms: seq<nat>, alphaSize: nat) {
    forall i :: 0 <= i < |syms| ==> syms[i] < alphaSize
  }

  /** The counts after some more symbols. */
  ghost function Counted(freq: seq<nat>, syms: seq<nat>): (f: seq<nat>)
    requires InAlphabet(syms, |freq|)
    ensures |f| == |freq|
    decreases |syms|
  {
    if |syms| == 0 then freq
    else
      var f := Counted(freq, syms[..|syms| - 1]);
      f[syms[|syms| - 1] := f[syms[|syms| - 1]] + 1]
  }

  lemma GroupInAlphabet(syms: seq<nat>, alphaSize: nat, g: nat)
    requires InAlphabet(syms, alphaSize)
    ensures InAlphabet(Group(syms, g), alphaSize)
  {}

  /** How often the groups before g that use table t have each symbol. */
  ghost function Counts(syms: seq<nat>, alphaSize: nat, selectors: seq<nat>, t: nat, g: nat): (f: seq<nat>)
    requires InAlphabet(syms, alphaSize) && g <= |selectors|
    ensures |f| == alphaSize
  {
    if g == 0 then seq(alphaSize, _ => 0)
    else
      var f := Counts(syms, alphaSize, selectors, t, g - 1);
      GroupInAlphabet(syms, alphaSize, g - 1);
      if selectors[g - 1] == t then Counted(f, Group(syms, g - 1)) else f
  }

  /** Counts the symbols of the groups that use table t. */
  method CountFor(syms: seq<nat>, alphaSize: nat, selectors: seq<nat>, t: nat) returns (freq: seq<nat>)
    requires InAlphabet(syms, alphaSize) && |selectors| == GroupCount(|syms|)
    ensures |freq| == alphaSize && Sum(freq) <= |syms|
    ensures freq == Counts(syms, alphaSize, selectors, t, |selectors|)
  {
    hide Counted, Counts, Sum, Group;
    freq := seq(alphaSize, _ => 0);
    SumZero(alphaSize);
    NoCounts(syms, alphaSize, selectors, t);
    for g := 0 to |selectors|
      invariant |freq| == alphaSize && Sum(freq) <= Min(g * 50, |syms|)
      invariant freq == Counts(syms, alphaSize, selectors, t, g)
    {
      var start := g * GROUP;
      var end := Min(start + GROUP, |syms|);
      GroupIs(syms, alphaSize, selectors, t, g);
      if selectors[g] == t && start < end {
        ghost var before := freq;
        CountedNone(before);
        assert syms[start..start] == [];
        for i := start to end
          invariant |freq| == alphaSize && Sum(freq) <= i
          invariant InAlphabet(syms[start..i], alphaSize) && freq == Counted(before, syms[start..i])
        {
          SliceMore(syms, start, i);
          CountedStep(before, syms[start..i], syms[i]);
          SumIncrement(freq, syms[i]);
          freq := freq[syms[i] := freq[syms[i]] + 1];
        }
      }
    }
  }

  lemma NoCounts(syms: seq<nat>, alphaSize: nat, selectors: seq<nat>, t: nat)
    requires InAlphabet(syms, alphaSize)
    ensures Counts(syms, alphaSize, selectors, t, 0) == seq(alphaSize, _ => 0)
  {}

  lemma CountedNone(freq: seq<nat>)
    ensures Counted(freq, []) == freq
  {}

  lemma SliceMore(syms: seq<nat>, start: nat, i: nat)
    requires start <= i < |syms|
    ensures syms[start..i + 1] == syms[start..i] + [syms[i]]
  {}

  lemma CountedStep(freq: seq<nat>, front: seq<nat>, c: nat)
    requires InAlphabet(front, |freq|) && c < |freq|
    ensures InAlphabet(front + [c], |freq|)
    ensures Counted(freq, front + [c]) == Counted(freq, front)[c := Counted(freq, front)[c] + 1]
  {
    hide InAlphabet;
    OneMoreSymbol(front, c, |freq|);
    assert (front + [c])[..|front|] == front;
  }

  lemma OneMoreSymbol(front: seq<nat>, c: nat, n: nat)
    requires InAlphabet(front, n) && c < n
    ensures InAlphabet(front + [c], n)
  {}

  lemma GroupIs(syms: seq<nat>, alphaSize: nat, selectors: seq<nat>, t: nat, g: nat)
    requires InAlphabet(syms, alphaSize) && |selectors| == GroupCount(|syms|) && g < |selectors|
    ensures var start, end := g * 50, Min(g * 50 + 50, |syms|);
            && start < end && Group(syms, g) == syms[start..end] && InAlphabet(syms[start..end], alphaSize)
            && Counts(syms, alphaSize, selectors, t, g + 1)
               == if selectors[g] == t then Counted(Counts(syms, alphaSize, selectors, t, g), syms[start..end])
                  else Counts(syms, alphaSize, selectors, t, g)
  {}

  /** The lengths of all tables for these selectors. */
  ghost function AllLens(syms: seq<nat>, alphaSize: nat, nTables: nat, selectors: seq<nat>, pick: HeapRule)
    : (ls: seq<lengths>)
    requires InAlphabet(syms, alphaSize) && alphaSize > 0
    ensures |ls| == nTables
    ensures forall t :: 0 <= t < nTables ==>
              ls[t] == LensFor(Counts(syms, alphaSize, selectors, t, |selectors|), pick)
  {
    seq(nTables, t requires 0 <= t => LensFor(Counts(syms, alphaSize, selectors, t, |selectors|), pick))
  }

  method BuildAll(syms: seq<nat>, alphaSize: nat, nTables: nat, selectors: seq<nat>, pick: HeapRule)
    returns (tables: seq<Coding>, ghost deep: bool)
    requires InAlphabet(syms, alphaSize) && |selectors| == GroupCount(|syms|) && 3 <= alphaSize <= MAX_ALPHA
    ensures |tables| == nTables && AreCodings(tables, alphaSize)
    ensures deep <==> !AllFit(tables)
    ensures |syms| + alphaSize < 28657 || alphaSize <= MAX_LEN + 1 ==> !deep
    ensures Lens(tables) == AllLens(syms, alphaSize, nTables, selectors, pick)
  {
    hide *;
    NoCodings(syms, alphaSize, selectors, pick);
    tables, deep := [], false;
    for t := 0 to nTables
      invariant |tables| == t && AreCodings(tables, alphaSize) && (deep <==> !AllFit(tables))
      invariant |syms| + alphaSize < 28657 || alphaSize <= MAX_LEN + 1 ==> !deep
      invariant Tuned(tables, syms, alphaSize, selectors, pick)
    {
      var freq := CountFor(syms, alphaSize, selectors, t);
      WeightsSum(freq);
      var c, d := BuildCoding(freq, pick);
      AddCoding(tables, c, alphaSize);
      TunedMore(tables, c, syms, alphaSize, selectors, pick);
      tables := tables + [c];
      deep := deep || d;
    }
    TunedAll(tables, syms, alphaSize, selectors, pick);
  }

  lemma NoCodings(syms: seq<nat>, alphaSize: nat, selectors: seq<nat>, pick: HeapRule)
    requires InAlphabet(syms, alphaSize) && alphaSize > 0
    ensures AreCodings([], alphaSize) && AllFit([]) && Tuned([], syms, alphaSize, selectors, pick)
  {}

  /** Every table is the one for the groups that use it. */
  ghost predicate Tuned(tables: seq<Coding>, syms: seq<nat>, alphaSize: nat, selectors: seq<nat>, pick: HeapRule)
    requires InAlphabet(syms, alphaSize) && alphaSize > 0
  {
    forall t :: 0 <= t < |tables| ==>
      tables[t].len == LensFor(Counts(syms, alphaSize, selectors, t, |selectors|), pick)
  }

  lemma TunedMore(tables: seq<Coding>, c: Coding, syms: seq<nat>, alphaSize: nat, selectors: seq<nat>, pick: HeapRule)
    requires InAlphabet(syms, alphaSize) && alphaSize > 0 && Tuned(tables, syms, alphaSize, selectors, pick)
    requires c.len == LensFor(Counts(syms, alphaSize, selectors, |tables|, |selectors|), pick)
    ensures Tuned(tables + [c], syms, alphaSize, selectors, pick)
  {
    hide LensFor, Counts, InAlphabet;
    var all := tables + [c];
    assert all[|tables|] == c && forall t :: 0 <= t < |tables| ==> all[t] == tables[t];
    forall t | 0 <= t < |all|
      ensures all[t].len == LensFor(Counts(syms, alphaSize, selectors, t, |selectors|), pick)
    {
      if t == |tables| {} else { assert all[t] == tables[t]; }
    }
  }

  lemma TunedAll(tables: seq<Coding>, syms: seq<nat>, alphaSize: nat, selectors: seq<nat>, pick: HeapRule)
    requires InAlphabet(syms, alphaSize) && alphaSize > 0 && Tuned(tables, syms, alphaSize, selectors, pick)
    ensures Lens(tables) == AllLens(syms, alphaSize, |tables|, selectors, pick)
  {
    hide LensFor, Counts, InAlphabet;
  }

  lemma AddCoding(tables: seq<Coding>, c: Coding, alphaSize: nat)
    requires AreCodings(tables, alphaSize) && IsCoding(c, alphaSize)
    ensures AreCodings(tables + [c], alphaSize)
    ensures AllFit(tables + [c]) <==> AllFit(tables) && Fits(c.len)
  {
    var all := tables + [c];
    assert all[|tables|] == c && forall t :: 0 <= t < |tables| ==> all[t] == tables[t];
  }

  method GroupCost(syms: seq<nat>, start: nat, end: nat, len: seq<nat>) returns (cost: nat)
    requires start <= end <= |syms| && InAlphabet(syms, |len|)
    ensures cost == Cost(syms[start..end], len)
  {
    cost := 0;
    for i := start to end
      invariant cost == Cost(syms[start..i], len)
    {
      assert syms[start..i + 1][..i - start] == syms[start..i];
      cost := cost + len[syms[i]];
    }
  }

  lemma CodingSizes(tables: seq<Coding>, alphaSize: nat)
    requires AreCodings(tables, alphaSize)
    ensures forall t :: 0 <= t < |tables| ==> |tables[t].len| == alphaSize
  {
    forall t | 0 <= t < |tables| ensures |tables[t].len| == alphaSize { assert IsCoding(tables[t], alphaSize); }
  }

  /** The first of the least. */
  function FirstLeast(costs: seq<nat>): (t: nat)
    requires |costs| > 0
    ensures t < |costs| && (forall u :: 0 <= u < |costs| ==> costs[t] <= costs[u])
    ensures forall u :: 0 <= u < t ==> costs[t] < costs[u]
  {
    var last := |costs| - 1;
    if last == 0 then 0
    else
      var t := FirstLeast(costs[..last]);
      if costs[last] < costs[t] then last else t
  }

  /** What the symbols cost with each table. */
  ghost function Costs(syms: seq<nat>, ls: seq<lengths>): (costs: seq<nat>)
    ensures |costs| == |ls| && forall t :: 0 <= t < |ls| ==> costs[t] == Cost(syms, ls[t])
  {
    seq(|ls|, t requires 0 <= t < |ls| => Cost(syms, ls[t]))
  }

  /** The table that codes one group with the fewest bits, the first among equals. */
  method BestTable(syms: seq<nat>, start: nat, end: nat, tables: seq<Coding>, alphaSize: nat) returns (bestT: nat)
    requires start <= end <= |syms| && InAlphabet(syms, alphaSize) && AreCodings(tables, alphaSize) && |tables| > 0
    ensures bestT < |tables| && bestT == FirstLeast(Costs(syms[start..end], Lens(tables)))
    ensures forall t :: 0 <= t < |tables| ==>
              Cost(syms[start..end], tables[bestT].len) <= Cost(syms[start..end], tables[t].len)
    ensures forall t :: 0 <= t < bestT ==>
              Cost(syms[start..end], tables[bestT].len) < Cost(syms[start..end], tables[t].len)
  {
    hide *;
    CodingSizes(tables, alphaSize);
    ghost var costs := Costs(syms[start..end], Lens(tables));
    var best: int := -1;
    bestT := 0;
    for t := 0 to |tables|
      invariant best == -1 <==> t == 0
      invariant bestT < |tables|
      invariant t > 0 ==> best == costs[bestT] && bestT == FirstLeast(costs[..t])
    {
      var cost := GroupCost(syms, start, end, tables[t].len);
      FirstLeastStep(costs, t);
      if best == -1 || cost < best {
        best, bestT := cost, t;
      }
    }
    assert costs[..|tables|] == costs;
  }

  lemma FirstLeastStep(costs: seq<nat>, t: nat)
    requires t < |costs|
    ensures t == 0 ==> FirstLeast(costs[..1]) == 0
    ensures t > 0 ==>
              var k := FirstLeast(costs[..t]);
              k < t && FirstLeast(costs[..t + 1]) == if costs[t] < costs[k] then t else k
  {
    assert costs[..t + 1][..t] == costs[..t];
  }

  /** The bits that the symbols take with these code lengths. */
  function Cost(syms: seq<nat>, len: seq<nat>): nat {
    if |syms| == 0 then 0
    else
      var s := syms[|syms| - 1];
      Cost(syms[..|syms| - 1], len) + (if s < |len| then len[s] else 0)
  }

  /** No table codes group g with fewer bits than table t. */
  ghost predicate Cheapest(syms: seq<nat>, g: nat, tables: seq<Coding>, t: nat) {
    t < |tables| && forall u :: 0 <= u < |tables| ==>
        Cost(Group(syms, g), tables[t].len) <= Cost(Group(syms, g), tables[u].len)
  }

  /** The first cheapest table of every group. */
  ghost function Choice(syms: seq<nat>, ls: seq<lengths>): (selectors: seq<nat>)
    requires |ls| > 0
    ensures |selectors| == GroupCount(|syms|)
    ensures forall g :: 0 <= g < |selectors| ==> selectors[g] == FirstLeast(Costs(Group(syms, g), ls))
  {
    seq(GroupCount(|syms|), g requires 0 <= g => FirstLeast(Costs(Group(syms, g), ls)))
  }

  method Reassign(syms: seq<nat>, alphaSize: nat, tables: seq<Coding>) returns (selectors: seq<nat>)
    requires InAlphabet(syms, alphaSize) && AreCodings(tables, alphaSize) && |tables| > 0
    ensures |selectors| == GroupCount(|syms|) && selectors == Choice(syms, Lens(tables))
    ensures forall g :: 0 <= g < |selectors| ==> Cheapest(syms, g, tables, selectors[g])
  {
    hide Cost, Costs, FirstLeast, AreCodings, InAlphabet, Lens, Choice, Cheapest, Group;
    selectors := [];
    for g := 0 to GroupCount(|syms|)
      invariant |selectors| == g && forall k :: 0 <= k < g ==> Cheapest(syms, k, tables, selectors[k])
      invariant forall k :: 0 <= k < g ==> selectors[k] == FirstLeast(Costs(Group(syms, k), Lens(tables)))
    {
      var start := g * GROUP;
      var end := Min(start + GROUP, |syms|);
      var best := BestTable(syms, start, end, tables, alphaSize);
      GroupSlice(syms, g);
      CheapestIs(syms, g, tables, best);
      selectors := selectors + [best];
    }
    ChoiceIs(syms, Lens(tables), selectors);
  }

  lemma GroupSlice(syms: seq<nat>, g: nat)
    requires g < GroupCount(|syms|)
    ensures g * 50 <= Min(g * 50 + 50, |syms|) <= |syms|
    ensures Group(syms, g) == syms[g * 50..Min(g * 50 + 50, |syms|)]
  {}

  lemma CheapestIs(syms: seq<nat>, g: nat, tables: seq<Coding>, t: nat)
    requires t < |tables|
    requires forall u :: 0 <= u < |tables| ==>
               Cost(Group(syms, g), tables[t].len) <= Cost(Group(syms, g), tables[u].len)
    ensures Cheapest(syms, g, tables, t)
  {
    hide Cost, Group;
  }

  lemma ChoiceIs(syms: seq<nat>, ls: seq<lengths>, selectors: seq<nat>)
    requires |ls| > 0 && |selectors| == GroupCount(|syms|)
    requires forall g :: 0 <= g < |selectors| ==> selectors[g] == FirstLeast(Costs(Group(syms, g), ls))
    ensures selectors == Choice(syms, ls)
  {
    hide FirstLeast, Costs, Group;
  }

  /** The symbols of group g. */
  function Group(syms: seq<nat>, g: nat): seq<nat> {
    if g * 50 <= |syms| then syms[g * 50..Min(g * 50 + 50, |syms|)] else []
  }

  /** Tables and selectors after some rounds, the selectors going round at first. */
  ghost function Settled(syms: seq<nat>, alphaSize: nat, nTables: nat, pick: HeapRule, rounds: nat)
    : (r: (seq<lengths>, seq<nat>))
    requires InAlphabet(syms, alphaSize) && alphaSize > 0 && nTables > 0
    ensures |r.1| == GroupCount(|syms|) && (rounds > 0 ==> |r.0| == nTables)
  {
    if rounds == 0 then ([], seq(GroupCount(|syms|), g requires 0 <= g => g % nTables))
    else
      var ls := AllLens(syms, alphaSize, nTables, Settled(syms, alphaSize, nTables, pick, rounds - 1).1, pick);
      (ls, Choice(syms, ls))
  }

  /** Four rounds of building all tables and reassigning all groups. `deep` tells whether a depth was cut off in a
      table of the last round, which is exactly when some table's codes do not fit their lengths. */
  method BuildTables(syms: seq<nat>, alphaSize: nat, nTables: nat, pick: HeapRule)
    returns (tables: seq<Coding>, selectors: seq<nat>, ghost deep: bool)
    requires InAlphabet(syms, alphaSize) && 3 <= alphaSize <= MAX_ALPHA && nTables >= 1
    ensures |tables| == nTables && AreCodings(tables, alphaSize) && (deep <==> !AllFit(tables))
    ensures |selectors| == GroupCount(|syms|)
    ensures forall g :: 0 <= g < |selectors| ==> Cheapest(syms, g, tables, selectors[g])
    ensures |syms| + alphaSize < 28657 || alphaSize <= MAX_LEN + 1 ==> !deep
    ensures (Lens(tables), selectors) == Settled(syms, alphaSize, nTables, pick, 4)
  {
    hide AllLens, Choice, Lens;
    tables, deep := [], false;
    selectors := seq(GroupCount(|syms|), g requires 0 <= g => g % nTables);
    for iter := 0 to ROUNDS
      invariant |selectors| == GroupCount(|syms|)
      invariant iter > 0 ==> |tables| == nTables && AreCodings(tables, alphaSize) && (deep <==> !AllFit(tables))
      invariant iter > 0 ==> forall g :: 0 <= g < |selectors| ==> Cheapest(syms, g, tables, selectors[g])
      invariant |syms| + alphaSize < 28657 || alphaSize <= MAX_LEN + 1 ==> !deep
      invariant selectors == Settled(syms, alphaSize, nTables, pick, iter).1
      invariant iter > 0 ==> Lens(tables) == Settled(syms, alphaSize, nTables, pick, iter).0
    {
      tables, deep := BuildAll(syms, alphaSize, nTables, selectors, pick);
      selectors := Reassign(syms, alphaSize, tables);
    }
  }
}
