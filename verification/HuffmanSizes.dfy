/** How many bits the symbols of a block take at most, whatever they are: the tables cost no more than a flat code
    would. */
module HuffmanSizes {
  import opened Bits
  import opened Canonical
  import opened HuffmanBuild
  import opened HuffmanOptimal
  import opened HuffmanTables

  // ---------- a flat code ----------

  function Eights(n: nat): (d: seq<nat>)
    ensures |d| == n && forall i :: 0 <= i < n ==> d[i] == 8
  {
    seq(n, _ => 8)
  }

  lemma {:induction false} EightsCost(w: seq<nat>)
    ensures Dot(w, Eights(|w|)) == 8 * Sum(w)
    decreases |w|
  {
    if |w| > 0 {
      EightsCost(w[1..]);
      assert Eights(|w|)[1..] == Eights(|w| - 1);
    }
  }

  lemma {:induction false} EightsShare(n: nat)
    ensures Within(Eights(n), 9) && Share(Eights(n), 9) == 2 * n
    decreases n
  {
    assert Pow2(1) == 2;
    if n > 0 {
      EightsShare(n - 1);
      assert Eights(n)[1..] == Eights(n - 1);
    }
  }

  /** The weight of four neighbours. */
  function Quad(w: seq<nat>, q: nat): nat
    requires 4 * q + 4 <= |w|
  {
    w[4 * q] + w[4 * q + 1] + w[4 * q + 2] + w[4 * q + 3]
  }

  /** Of k fours one has at most a k-th of the weight. */
  lemma {:induction false} LightQuad(w: seq<nat>, k: nat) returns (q: nat)
    requires k > 0 && 4 * k <= |w|
    ensures q < k && k * Quad(w, q) <= Sum(w)
    decreases k
  {
    SumOfQuad(w);
    q := 0;
    if k > 1 {
      var p := LightQuad(w[4..], k - 1);
      assert Quad(w[4..], p) == Quad(w, p + 1);
      if Quad(w, p + 1) < Quad(w, 0) { q := p + 1; }
      MulMono(Quad(w, q), Quad(w, p + 1), k - 1);
      OneMore(k, Quad(w, q));
    }
  }

  lemma OneMore(k: nat, x: nat)
    requires k > 0
    ensures k * x == (k - 1) * x + x && x * (k - 1) == (k - 1) * x
  {}

  lemma SumOfQuad(w: seq<nat>)
    requires |w| >= 4
    ensures Sum(w) == Quad(w, 0) + Sum(w[4..])
  {
    assert w[1..][1..] == w[2..] && w[2..][1..] == w[3..] && w[3..][1..] == w[4..];
    assert Sum(w) == w[0] + Sum(w[1..]);
    assert Sum(w[1..]) == w[1] + Sum(w[2..]);
    assert Sum(w[2..]) == w[2] + Sum(w[3..]);
  }

  /** Eight bits for up to 256 symbols; for two more, four symbols of little weight get nine. */
  lemma FlatCode(w: seq<nat>) returns (d: seq<nat>)
    requires |w| <= 258
    ensures |d| == |w| && HasRoom(d) && 64 * Dot(w, d) <= 513 * Sum(w)
  {
    d := Eights(|w|);
    EightsCost(w);
    EightsShare(|w|);
    Pow2Values();
    assert Pow2(9) == 2 * Pow2(8) && Pow2(0) == 1 && Pow2(1) == 2;
    if |w| > 256 {
      var q := LightQuad(w, 64);
      var a := 4 * q;
      d := Nine(w, d, a);
      d := Nine(w, d, a + 1);
      d := Nine(w, d, a + 2);
      d := Nine(w, d, a + 3);
    }
    assert RoomAt(d, 9);
  }

  lemma Nine(w: seq<nat>, d: seq<nat>, i: nat) returns (e: seq<nat>)
    requires i < |w| == |d| && d[i] == 8 && Within(d, 9)
    ensures e == d[i := 9] && Within(e, 9) && Share(e, 9) + 1 == Share(d, 9) && Dot(w, e) == Dot(w, d) + w[i]
  {
    hide Dot, Share, Pow2;
    e := d[i := 9];
    ShareUpdate(d, 9, i, 9);
    DotUpdate(w, d, i, 9);
    Pow2Values();
    NoBits();
  }

  lemma NoBits()
    ensures Pow2(0) == 1
  {}

  // ---------- one table ----------

  /** No table costs its symbols more than the flat code, unused symbols counting once. */
  lemma TableCost(freq: seq<nat>, pick: HeapRule)
    requires 1 < |freq| <= 258
    ensures 64 * Dot(freq, LensFor(freq, pick)) <= 513 * (Sum(freq) + |freq|)
  {
    hide *;
    var deep := LensForIs(freq, pick);
    var lens, w := LensFor(freq, pick), Weights(freq);
    LengthsCost(w, lens, deep);
    var flat := FlatCode(w);
    WeightsSum(freq);
    WeightsAbove(freq);
    DotGrows(freq, w, lens);
    assert Dot(w, lens) <= Dot(w, flat);
  }

  lemma LengthsCost(w: seq<nat>, lens: seq<nat>, deep: bool)
    requires Lengths(w, lens, deep) && |w| > 1
    ensures |lens| == |w|
    ensures forall other: seq<nat> :: |other| == |w| && HasRoom(other) ==> Dot(w, lens) <= Dot(w, other)
  {
    hide Dot, HasRoom, Kraft, Pow2, Sum;
  }

  lemma WeightsAbove(freq: seq<nat>)
    ensures forall s :: 0 <= s < |freq| ==> freq[s] <= Weights(freq)[s]
  {}

  lemma {:induction false} DotGrows(v: seq<nat>, w: seq<nat>, d: seq<nat>)
    requires |v| == |w| == |d| && forall s :: 0 <= s < |v| ==> v[s] <= w[s]
    ensures Dot(v, d) <= Dot(w, d)
    decreases |v|
  {
    if |v| > 0 {
      DotGrows(v[1..], w[1..], d[1..]);
      MulMono(v[0], w[0], d[0]);
    }
  }

  // ---------- the groups ----------

  lemma {:induction false} DotCount(w: seq<nat>, d: seq<nat>, i: nat)
    requires |w| == |d| && i < |w|
    ensures Dot(w[i := w[i] + 1], d) == Dot(w, d) + d[i]
    decreases |w|
  {
    var v := w[i := w[i] + 1];
    if i == 0 {
      assert v[1..] == w[1..];
    } else {
      DotCount(w[1..], d[1..], i - 1);
      assert v[1..] == w[1..][i - 1 := w[1..][i - 1] + 1];
    }
  }

  /** Counting symbols adds what they cost. */
  lemma {:induction false} CountedCost(freq: seq<nat>, syms: seq<nat>, len: seq<nat>)
    requires InAlphabet(syms, |freq|) && |len| == |freq|
    ensures Dot(Counted(freq, syms), len) == Dot(freq, len) + Cost(syms, len)
    ensures Sum(Counted(freq, syms)) == Sum(freq) + |syms|
    decreases |syms|
  {
    hide Dot, Sum;
    if |syms| > 0 {
      var front := syms[..|syms| - 1];
      CountedCost(freq, front, len);
      DotCount(Counted(freq, front), len, syms[|syms| - 1]);
      SumIncrement(Counted(freq, front), syms[|syms| - 1]);
    }
  }

  /** What the groups before g cost, each with its table. */
  ghost function CostBefore(syms: seq<nat>, ls: seq<lengths>, selectors: seq<nat>, g: nat): nat
    requires g <= |selectors| && forall i :: 0 <= i < |selectors| ==> selectors[i] < |ls|
  {
    if g == 0 then 0
    else CostBefore(syms, ls, selectors, g - 1) + Cost(Group(syms, g - 1), ls[selectors[g - 1]])
  }

  /** What the first m tables cost the symbols counted for them. */
  ghost function TablesCost(syms: seq<nat>, alphaSize: nat, ls: seq<lengths>, selectors: seq<nat>, g: nat, m: nat): nat
    requires InAlphabet(syms, alphaSize) && g <= |selectors| && m <= |ls|
    requires forall t :: 0 <= t < |ls| ==> |ls[t]| == alphaSize
  {
    if m == 0 then 0
    else TablesCost(syms, alphaSize, ls, selectors, g, m - 1)
         + Dot(Counts(syms, alphaSize, selectors, m - 1, g), ls[m - 1])
  }

  /** How many symbols are counted for the first m tables. */
  ghost function TablesSum(syms: seq<nat>, alphaSize: nat, selectors: seq<nat>, g: nat, m: nat): nat
    requires InAlphabet(syms, alphaSize) && g <= |selectors|
  {
    if m == 0 then 0
    else TablesSum(syms, alphaSize, selectors, g, m - 1) + Sum(Counts(syms, alphaSize, selectors, m - 1, g))
  }

  lemma {:induction false} NothingCounted(syms: seq<nat>, alphaSize: nat, ls: seq<lengths>, selectors: seq<nat>, m: nat)
    requires InAlphabet(syms, alphaSize) && m <= |ls|
    requires forall t :: 0 <= t < |ls| ==> |ls[t]| == alphaSize
    ensures TablesCost(syms, alphaSize, ls, selectors, 0, m) == 0 && TablesSum(syms, alphaSize, selectors, 0, m) == 0
    decreases m
  {
    hide Dot, Sum;
    if m > 0 {
      NothingCounted(syms, alphaSize, ls, selectors, m - 1);
      SumZero(alphaSize);
      DotZero(ls[m - 1]);
    }
  }

  lemma {:induction false} DotZero(d: seq<nat>)
    ensures Dot(seq(|d|, _ => 0), d) == 0
    decreases |d|
  {
    if |d| > 0 {
      DotZero(d[1..]);
      assert seq(|d|, _ => 0)[1..] == seq(|d[1..]|, _ => 0);
    }
  }

  /** One more group costs its own table. */
  lemma {:induction false} OneMoreGroup(syms: seq<nat>, alphaSize: nat, ls: seq<lengths>, selectors: seq<nat>, g: nat,
                                        m: nat)
    requires InAlphabet(syms, alphaSize) && g < |selectors| && m <= |ls| && selectors[g] < |ls|
    requires forall t :: 0 <= t < |ls| ==> |ls[t]| == alphaSize
    ensures TablesCost(syms, alphaSize, ls, selectors, g + 1, m)
         == TablesCost(syms, alphaSize, ls, selectors, g, m)
            + (if selectors[g] < m then Cost(Group(syms, g), ls[selectors[g]]) else 0)
    ensures TablesSum(syms, alphaSize, selectors, g + 1, m)
         == TablesSum(syms, alphaSize, selectors, g, m) + (if selectors[g] < m then |Group(syms, g)| else 0)
    decreases m
  {
    hide Dot, Sum, Cost, Group;
    if m > 0 {
      OneMoreGroup(syms, alphaSize, ls, selectors, g, m - 1);
      GroupInAlphabet(syms, alphaSize, g);
      CountedCost(Counts(syms, alphaSize, selectors, m - 1, g), Group(syms, g), ls[m - 1]);
    }
  }

  /** The groups cost what their tables cost, and all symbols are counted once. */
  lemma {:induction false} CostByTable(syms: seq<nat>, alphaSize: nat, ls: seq<lengths>, selectors: seq<nat>, g: nat)
    requires InAlphabet(syms, alphaSize) && g <= |selectors| <= GroupCount(|syms|)
    requires forall t :: 0 <= t < |ls| ==> |ls[t]| == alphaSize
    requires forall i :: 0 <= i < |selectors| ==> selectors[i] < |ls|
    ensures CostBefore(syms, ls, selectors, g) == TablesCost(syms, alphaSize, ls, selectors, g, |ls|)
    ensures TablesSum(syms, alphaSize, selectors, g, |ls|) == Min(g * 50, |syms|)
    decreases g
  {
    hide Cost, TablesCost, TablesSum, InAlphabet, Group, GroupCount;
    if g == 0 {
      NothingCounted(syms, alphaSize, ls, selectors, |ls|);
    } else {
      CostByTable(syms, alphaSize, ls, selectors, g - 1);
      OneMoreGroup(syms, alphaSize, ls, selectors, g - 1, |ls|);
      GroupLength(syms, g - 1);
    }
  }

  lemma GroupLength(syms: seq<nat>, g: nat)
    requires g < GroupCount(|syms|)
    ensures Min(g * 50, |syms|) + |Group(syms, g)| == Min((g + 1) * 50, |syms|)
  {}

  /** The tables for any selectors cost no more than the flat code. */
  lemma {:induction false} TablesFlat(syms: seq<nat>, alphaSize: nat, nTables: nat, selectors: seq<nat>, pick: HeapRule,
                                      m: nat)
    requires InAlphabet(syms, alphaSize) && 1 < alphaSize <= 258 && m <= nTables
    ensures var ls := AllLens(syms, alphaSize, nTables, selectors, pick);
            64 * TablesCost(syms, alphaSize, ls, selectors, |selectors|, m)
            <= 513 * (TablesSum(syms, alphaSize, selectors, |selectors|, m) + m * alphaSize)
    decreases m
  {
    hide Dot, Sum, Counts, LensFor, AllLens;
    var ls := AllLens(syms, alphaSize, nTables, selectors, pick);
    if m > 0 {
      TablesFlat(syms, alphaSize, nTables, selectors, pick, m - 1);
      TableCost(Counts(syms, alphaSize, selectors, m - 1, |selectors|), pick);
      OneMore(m, alphaSize);
    } else {
      assert 0 * alphaSize == 0;
    }
  }

  // ---------- all rounds ----------

  /** Choosing the cheapest table for every group costs no more than any other selectors. */
  lemma {:induction false} ChoiceCost(syms: seq<nat>, ls: seq<lengths>, selectors: seq<nat>, g: nat)
    requires |ls| > 0 && g <= |selectors| == GroupCount(|syms|)
    requires forall i :: 0 <= i < |selectors| ==> selectors[i] < |ls|
    ensures forall i :: 0 <= i < |Choice(syms, ls)| ==> Choice(syms, ls)[i] < |ls|
    ensures CostBefore(syms, ls, Choice(syms, ls), g) <= CostBefore(syms, ls, selectors, g)
    decreases g
  {
    hide Cost, Group, FirstLeast;
    if g > 0 {
      ChoiceCost(syms, ls, selectors, g - 1);
      var costs := Costs(Group(syms, g - 1), ls);
      assert costs[Choice(syms, ls)[g - 1]] <= costs[selectors[g - 1]];
    }
  }

  lemma SelectorsBelow(syms: seq<nat>, alphaSize: nat, nTables: nat, pick: HeapRule, rounds: nat)
    requires InAlphabet(syms, alphaSize) && alphaSize > 0 && nTables > 0
    ensures forall i :: 0 <= i < |Settled(syms, alphaSize, nTables, pick, rounds).1| ==>
              Settled(syms, alphaSize, nTables, pick, rounds).1[i] < nTables
  {
    hide FirstLeast, Costs, AllLens;
  }

  /** After any round the symbols take at most 513 / 64 bits each, and as much for every entry of every table. */
  lemma SymbolsCost(syms: seq<nat>, alphaSize: nat, nTables: nat, pick: HeapRule, rounds: nat)
    requires InAlphabet(syms, alphaSize) && 1 < alphaSize <= 258 && nTables > 0 && rounds > 0
    ensures var (ls, selectors) := Settled(syms, alphaSize, nTables, pick, rounds);
            && (forall i :: 0 <= i < |selectors| ==> selectors[i] < |ls|)
            && 64 * CostBefore(syms, ls, selectors, |selectors|) <= 513 * (|syms| + nTables * alphaSize)
  {
    hide *;
    var before := Settled(syms, alphaSize, nTables, pick, rounds - 1).1;
    var ls := AllLens(syms, alphaSize, nTables, before, pick);
    SelectorsBelow(syms, alphaSize, nTables, pick, rounds - 1);
    SettledStep(syms, alphaSize, nTables, pick, rounds);
    ChoiceCost(syms, ls, before, |before|);
    CostByTable(syms, alphaSize, ls, before, |before|);
    TablesFlat(syms, alphaSize, nTables, before, pick, nTables);
    AllGroups(|syms|);
  }

  lemma SettledStep(syms: seq<nat>, alphaSize: nat, nTables: nat, pick: HeapRule, rounds: nat)
    requires InAlphabet(syms, alphaSize) && alphaSize > 0 && nTables > 0 && rounds > 0
    ensures var before := Settled(syms, alphaSize, nTables, pick, rounds - 1).1;
            var ls := AllLens(syms, alphaSize, nTables, before, pick);
            && Settled(syms, alphaSize, nTables, pick, rounds) == (ls, Choice(syms, ls))
            && forall t :: 0 <= t < |ls| ==> |ls[t]| == alphaSize
  {
    hide LensFor, Counts, Choice;
  }

  lemma AllGroups(n: nat)
    ensures Min(GroupCount(n) * 50, n) == n
  {}
}
