/** Two short blocks of one byte value, and the exact fields that the encoder writes for them, whatever ties its heap
    breaks: three bytes, and 518 bytes that run-length coding makes into ten. */
module TailBlocks {
  import opened Bits
  import opened Permutations
  import opened Canonical
  import opened BlockFormat
  import opened BlockSymbols
  import opened BlockCodec
  import opened BlockEncoder
  import opened BwtInverse
  import opened HuffmanTables
  import opened ThreeSymbols
  import HuffmanBuild
  import Mtf
  import Rle1
  import Rle2

  function Tail(long: bool): (data: seq<byte>)
    ensures |data| == if long then 518 else 3
  {
    Repeat(255, if long then 518 else 3)
  }

  /** How many bytes run-length coding leaves. */
  function Left(long: bool): nat { if long then 10 else 3 }

  function TailSyms(long: bool): seq<nat> { if long then [1, 1, 0, 2] else [0, 0, 2] }

  /** The symbol that gets the code of one bit. */
  function Frequent(long: bool): (r: nat)
    ensures r < 3
  {
    if long then 1 else 0
  }

  // ---------- the stages ----------

  lemma RunsOfTail(long: bool)
    ensures Rle1.Encode(Tail(long)) == Repeat(255, Left(long))
  {
    hide Repeat, Rle1.RunLength;
    var s := Tail(long);
    if long {
      Rle1.RunLengthIs(s, 259);
      var more := s[259..];
      Rle1.RunLengthIs(more, 259);
      assert more[259..] == [] && Rle1.Encode([]) == [];
      assert Rle1.RunCode(255, 259) == Repeat(255, 5);
      assert Rle1.Encode(more) == Repeat(255, 5) + [];
      assert Rle1.Encode(s) == Repeat(255, 5) + Rle1.Encode(more);
    } else {
      Rle1.RunLengthIs(s, 3);
      assert s[3..] == [] && Rle1.Encode([]) == [];
      assert Rle1.Encode(s) == Repeat(255, 3) + [];
    }
  }

  lemma ColumnOfTail(n: nat, column: seq<byte>, primary: nat)
    requires IsBwt(Repeat(255, n), column, primary)
    ensures column == Repeat(255, n)
  {
    ColumnBytes(Repeat(255, n), column, primary);
    forall i | 0 <= i < |column| ensures column[i] == 255 { assert column[i] in column; }
  }

  lemma MapOfTail(inUse: seq<bool>, n: nat)
    requires n > 0 && Marks(inUse, Repeat(255, n), n)
    ensures inUse == seq(256, i => i == 255)
  {
    var data := Repeat(255, n);
    assert data[..n] == data && data[0] == 255;
    forall i | 0 <= i < 256 ensures inUse[i] <==> i == 255 {
      var c: byte := i;
      assert inUse[c] <==> c in data[..n];
    }
  }

  lemma OnlyUsed(inUse: seq<bool>)
    requires inUse == seq(256, i => i == 255)
    ensures Used(inUse) == [255]
  {
    UsedFromMembers(inUse, 0);
    UsedRises(inUse, 0);
    var u, list: seq<byte> := Used(inUse), [255];
    assert inUse[255];
    assert 255 in u;
    forall i | 0 <= i < |u| ensures u[i] == 255 { assert u[i] in u; }
    if |u| > |list| { var i := TooMany(u, list); }
  }

  lemma {:induction false} RanksOfTail(n: nat)
    ensures Mtf.Ranks([255], Repeat(255, n)) == Repeat(0, n)
    decreases n
  {
    var data, list: seq<byte> := Repeat(255, n), [255];
    if n > 0 {
      RanksOfTail(n - 1);
      assert data[1..] == Repeat(255, n - 1) && Mtf.MoveToFront(list, 0) == list;
    }
  }

  lemma {:induction false} SymbolsOfTail(n: nat, run: nat)
    ensures Rle2.Symbols(Repeat(0, n), run) == Rle2.Digits(n + run)
    decreases n
  {
    hide Rle2.Digits;
    if n > 0 {
      SymbolsOfTail(n - 1, run + 1);
      assert Repeat(0, n)[1..] == Repeat(0, n - 1);
    }
  }

  lemma DigitsOfTail(long: bool)
    ensures Rle2.Digits(Left(long)) == if long then [1, 1, 0] else [0, 0]
  {
    assert Rle2.Digits(0) == [] && Rle2.Digits(1) == [0] && Rle2.Digits(4) == [1] + Rle2.Digits(1);
  }

  lemma SymsOfTail(long: bool)
    ensures Rle2.Encode(Mtf.Ranks([255], Repeat(255, Left(long))), 1) == TailSyms(long)
    ensures InAlphabet(TailSyms(long), 3)
  {
    RanksOfTail(Left(long));
    SymbolsOfTail(Left(long), 0);
    DigitsOfTail(long);
  }

  // ---------- the tables ----------

  /** One symbol is the most frequent one, and its table costs least. */
  lemma CountsOfTail(long: bool)
    ensures InAlphabet(TailSyms(long), 3)
    ensures CountsOf(TailSyms(long)) == if long then [1, 2, 1] else [2, 0, 1]
    ensures forall r :: 0 <= r < 3 ==> Cost(TailSyms(long), Shape(Frequent(long))) <= Cost(TailSyms(long), Shape(r))
  {
    var syms := TailSyms(long);
    var zeros: seq<nat> := seq(3, _ => 0);
    assert syms[..1][..0] == [] && syms[..2][..1] == syms[..1] && syms[..3][..2] == syms[..2];
    assert Counted(zeros, syms[..1]) == if long then [0, 1, 0] else [1, 0, 0];
    assert Counted(zeros, syms[..2]) == if long then [0, 2, 0] else [2, 0, 0];
    assert Counted(zeros, syms[..3]) == if long then [1, 2, 0] else [2, 0, 1];
    if long {
      assert syms[..4] == syms && Counted(zeros, syms) == [1, 2, 1];
    } else {
      assert syms[..3] == syms;
    }
    CostOfTail(long, Frequent(long));
    forall r | 0 <= r < 3 ensures Cost(syms, Shape(Frequent(long))) <= Cost(syms, Shape(r)) { CostOfTail(long, r); }
  }

  lemma CostOfTail(long: bool, r: nat)
    requires r < 3
    ensures Cost(TailSyms(long), Shape(r))
         == if long then (if r == 1 then 6 else 7) else if r == 0 then 4 else if r == 1 then 6 else 5
  {
    var syms, len := TailSyms(long), Shape(r);
    assert syms[..1][..0] == [] && syms[..2][..1] == syms[..1] && syms[..3][..2] == syms[..2];
    assert Cost(syms[..1], len) == len[syms[0]];
    assert Cost(syms[..2], len) == len[syms[0]] + len[syms[1]];
    assert Cost(syms[..3], len) == len[syms[0]] + len[syms[1]] + len[syms[2]];
    if long { assert syms[..4] == syms && syms[..4][..3] == syms[..3]; } else { assert syms[..3] == syms; }
  }

  /** Every round is like the first: the group keeps the first table, whose lengths are forced. */
  lemma TablesOfTail(long: bool, pick: HuffmanBuild.HeapRule) returns (other: nat)
    ensures InAlphabet(TailSyms(long), 3) && other < 3
    ensures Settled(TailSyms(long), 3, 2, pick, 4) == ([Shape(Frequent(long)), Shape(other)], [0])
  {
    hide *;
    CountsOfTail(long);
    var syms := TailSyms(long);
    var r := LensOfThree(CountsOf(syms), pick);
    WeightsOfTail(long, r);
    FewSyms(long);
    other := OneGroup(syms, pick, r, 4);
  }

  lemma WeightsOfTail(long: bool, r: nat)
    requires r < 3 && InAlphabet(TailSyms(long), 3)
    requires CountsOf(TailSyms(long)) == if long then [1, 2, 1] else [2, 0, 1]
    requires forall s :: 0 <= s < 3 ==>
               HuffmanBuild.Weights(CountsOf(TailSyms(long)))[s] <= HuffmanBuild.Weights(CountsOf(TailSyms(long)))[r]
    ensures r == Frequent(long)
  {
    hide CountsOf;
    var w := HuffmanBuild.Weights(CountsOf(TailSyms(long)));
    assert w == if long then [1, 2, 1] else [2, 1, 1];
    assert w[Frequent(long)] == 2;
  }

  lemma FewSyms(long: bool)
    ensures 0 < |TailSyms(long)| <= 50 && |TailSyms(long)| < 200
  {}

  // ---------- the fields ----------

  /** The fields of the block, up to the lengths of the table that is not used and the rotation that is named. */
  ghost predicate TailFields(b: Block, long: bool, other: nat) {
    && other < 3 && b.inUse == seq(256, i => i == 255) && b.tables == [Shape(Frequent(long)), Shape(other)]
    && b.selectors == [0] && b.syms == TailSyms(long)
  }

  /** The encoder has no choice but for these. */
  lemma FieldsOfTail(b: Block, column: seq<byte>, long: bool, pick: HuffmanBuild.HeapRule) returns (other: nat)
    requires Encodes(b, Tail(long), column, pick)
    ensures TailFields(b, long, other) && Used(b.inUse) == [255]
  {
    hide *;
    EncodesMeans(b, Tail(long), column, pick);
    RunsOfTail(long);
    ColumnOfTail(Left(long), column, b.primary);
    LeftSome(long);
    MapOfTail(b.inUse, Left(long));
    OnlyUsed(b.inUse);
    SymsOfTail(long);
    TableCountOf(long);
    other := TablesOfTail(long, pick);
    FieldsAre(b, long, other);
  }

  lemma EncodesMeans(b: Block, data: seq<byte>, column: seq<byte>, pick: HuffmanBuild.HeapRule)
    requires Encodes(b, data, column, pick)
    ensures IsBwt(Rle1.Encode(data), column, b.primary) && Marks(b.inUse, Rle1.Encode(data), |Rle1.Encode(data)|)
    ensures |b.inUse| == 256 && Mtf.Covers(Used(b.inUse), column) && |Used(b.inUse)| <= 256
    ensures b.syms == Rle2.Encode(Mtf.Ranks(Used(b.inUse), column), |Used(b.inUse)|)
    ensures InAlphabet(b.syms, |Used(b.inUse)| + 2)
    ensures var r := Settled(b.syms, |Used(b.inUse)| + 2, TableCount(|b.syms|), pick, 4);
            b.tables == r.0 && |b.selectors| == |r.1| && forall i :: 0 <= i < |r.1| ==> b.selectors[i] == r.1[i]
  {
    hide IsBwt, Rle1.Encode, Rle2.Encode, Used, Mtf.Ranks, InAlphabet, Settled;
  }

  lemma LeftSome(long: bool)
    ensures Left(long) > 0
  {}

  lemma TableCountOf(long: bool)
    ensures TableCount(|TailSyms(long)|) == 2
  {}

  lemma FieldsAre(b: Block, long: bool, other: nat)
    requires other < 3 && b.inUse == seq(256, i => i == 255) && b.tables == [Shape(Frequent(long)), Shape(other)]
    requires b.syms == TailSyms(long) && |b.selectors| == 1 && b.selectors[0] == 0
    ensures TailFields(b, long, other)
  {
    hide Shape, TailSyms;
  }

  // ---------- the bits ----------

  lemma Halves()
    ensures Pow2(20) == 2 * Pow2(19) && Pow2(19) == 2 * Pow2(18)
  {}

  lemma KraftOfShape(r: nat)
    requires r < 3
    ensures InRange(Shape(r)) && Kraft(Shape(r)) == Pow2(MAX_LEN)
  {
    hide Pow2;
    var ls := Shape(r);
    assert KraftUpTo(ls, 0, MAX_LEN) == 0;
    assert KraftUpTo(ls, 1, MAX_LEN) == Pow2(MAX_LEN - ls[0]);
    assert KraftUpTo(ls, 2, MAX_LEN) == Pow2(MAX_LEN - ls[0]) + Pow2(MAX_LEN - ls[1]);
    assert KraftUpTo(ls, 3, MAX_LEN) == Pow2(MAX_LEN - ls[0]) + Pow2(MAX_LEN - ls[1]) + Pow2(MAX_LEN - ls[2]);
    Halves();
  }

  /** All codes of both tables fit, so the block is intact. */
  lemma TailClean(b: Block, long: bool, other: nat)
    requires TailFields(b, long, other)
    ensures Clean(b) && |b.selectors| == 1
  {
    hide Pow2, Code, Kraft, Shape;
    KraftOfShape(Frequent(long));
    CodesFitIffKraft(Shape(Frequent(long)));
    forall i | 0 <= i < |b.syms| ensures CodeFitsAt(b.tables, b.selectors, b.syms, i) {
      assert i / 50 == 0 && b.syms[i] < 3;
    }
  }

  /** The codes of its symbols; the last one always has the code 11. */
  lemma CodesOfTail(long: bool)
    ensures long ==> CodeBits(Shape(1), 0) == [true, false] && CodeBits(Shape(1), 1) == [false]
    ensures !long ==> CodeBits(Shape(0), 0) == [false]
    ensures CodeBits(Shape(Frequent(long)), 2) == [true, true]
  {
    var ls := Shape(Frequent(long));
    assert FirstCode(ls, 0) == 0 && CountAt(ls, 0) == 0;
    assert Equal(ls, 1, 1) == if long then 0 else 1;
    assert Equal(ls, 2, 1) == 1 && Equal(ls, 3, 1) == 1;
    assert Equal(ls, 1, 2) == if long then 1 else 0;
    assert Equal(ls, 2, 2) == 1;
    assert FirstCode(ls, 1) == 0 && FirstCode(ls, 2) == 2;
    assert Code(ls, 2) == 3;
    assert BitsOf(3, 2) == BitsOf(1, 1) + [true] && BitsOf(1, 1) == BitsOf(0, 0) + [true];
    assert BitsOf(2, 2) == BitsOf(1, 1) + [false] && BitsOf(0, 1) == BitsOf(0, 0) + [false];
  }

  /** Four bits or six, the last one set. */
  lemma SymbolsOf(b: Block, long: bool, other: nat)
    requires TailFields(b, long, other) && Codable(b.tables, b.selectors, b.syms)
    ensures var s := SymbolBits(b.tables, b.selectors, b.syms, 0); |s| == (if long then 6 else 4) && s[|s| - 1]
  {
    hide CodeBits, Codable, Shape;
    CodesOfTail(long);
    var t, n := b.tables, |b.syms|;
    assert SymbolBits(t, b.selectors, b.syms, n) == [];
    assert SymbolBits(t, b.selectors, b.syms, n - 1) == [true, true] + [];
    if long {
      assert |SymbolBits(t, b.selectors, b.syms, 2)| == 4;
      assert |SymbolBits(t, b.selectors, b.syms, 1)| == 5;
    } else {
      assert |SymbolBits(t, b.selectors, b.syms, 1)| == 3;
    }
  }

  lemma SizeOfShape(r: nat)
    requires r < 3
    ensures |TableBits(Shape(r))| == if r == 1 then 12 else 10
  {
    var ls := Shape(r);
    assert |DeltaBits(1, 1)| == |DeltaBits(2, 2)| == 1 && |DeltaBits(1, 2)| == |DeltaBits(2, 1)| == 3;
    assert ls == [ls[0]] + ls[1..] && ls[1..][1..] == [ls[2]] && [ls[2]][1..] == [];
    assert |DeltasFrom(ls[1], [ls[2]])| == |DeltaBits(ls[1], ls[2])|;
    assert |DeltasFrom(ls[0], ls[1..])| == |DeltaBits(ls[0], ls[1])| + |DeltaBits(ls[1], ls[2])|;
  }

  lemma OneSelector(selectors: seq<byte>)
    requires selectors == [0]
    ensures Mtf.Covers(FirstTables(2), selectors) && |SelectorBits(2, selectors)| == 1
  {
    var order := FirstTables(2);
    assert order[0] == 0 && selectors[1..] == [] && Mtf.IndexOf(order, 0) == 0;
    var zero: seq<byte> := [0];
    assert Mtf.Ranks(order, selectors) == zero && zero[1..] == [];
    assert UnaryAll(zero) == Unary(0) + [];
  }

  /** Its length, and the set bit at its end. */
  lemma BitsOfTail(b: Block, long: bool, other: nat)
    requires TailFields(b, long, other) && WellFormed(b)
    ensures |BlockBits(b)| == |InUseBits(b.inUse)| + 76 + (if long then 18 else 14) + if other == 1 then 12 else 10
    ensures BlockBits(b)[|BlockBits(b)| - 1]
  {
    hide Codable, InUseBits, BitsOf, SelectorBits, TableBits, SymbolBits, Shape, Used, WritableTables;
    SymbolsOf(b, long, other);
    OneSelector(b.selectors);
    SizeOfShape(Frequent(long));
    SizeOfShape(other);
    var one := [Shape(other)];
    assert b.tables[1..] == one && one[1..] == [];
    assert TablesBits(one) == TableBits(Shape(other)) + TablesBits([]);
  }
}
