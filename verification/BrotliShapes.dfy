/** The codes that simple prefix codes give their symbols (section 3.4 of RFC 7932), in whatever order the symbols are
    listed and with either shape of four. */
module BrotliShapes {
  import opened Bits
  import opened LsbBits
  import opened Permutations
  import opened Canonical
  import opened BrotliCodes
  import opened BrotliSimple

  /** How many symbols listed from here on are smaller. */
  function Smaller(symbols: seq<nat>, from: nat, s: nat): nat
    requires from <= |symbols|
    decreases |symbols| - from
  {
    if from == |symbols| then 0 else One(symbols[from] < s) + Smaller(symbols, from + 1, s)
  }

  /** Two symbols have 0 and 1; three have 0, 10 and 11; four have the two-bit numbers or 0, 10, 110 and 111. Symbols
      with codes of one length take them in their own order, not in the order of the list. */
  function ShapeCode(symbols: seq<nat>, treeSelect: bool, i: nat): bits
    requires 2 <= |symbols| <= 4 && i < |symbols|
  {
    if |symbols| == 2 then [Smaller(symbols, 0, symbols[i]) == 1]
    else if |symbols| == 3 then if i == 0 then [false] else [true, Smaller(symbols, 1, symbols[i]) == 1]
    else if treeSelect then
      if i == 0 then [false] else if i == 1 then [true, false] else [true, true, Smaller(symbols, 2, symbols[i]) == 1]
    else
      var k := Smaller(symbols, 0, symbols[i]);
      [k >= 2, k % 2 == 1]
  }

  /** Those are the codes that the decoder builds. */
  lemma ShapeCodeBits(lens: lengths, symbols: seq<nat>, treeSelect: bool, i: nat)
    requires 2 <= |symbols| <= 4 && i < |symbols| && IsSimple(lens, symbols, SimpleLengths(|symbols|, treeSelect))
    ensures CodeBits(lens, symbols[i]) == ShapeCode(symbols, treeSelect, i)
  {
    hide BitsOf, Tally, Equal, FirstCode, CountAt, Code, IsSimple, Smaller;
    var ls, s := SimpleLengths(|symbols|, treeSelect), symbols[i];
    ListedSymbol(lens, symbols, ls, i);
    CodeIs(lens, s);
    ShapeFirst(lens, symbols, treeSelect);
    ShapeBefore(lens, symbols, treeSelect, i);
    ShapeBound(symbols, i);
    SmallBits(Code(lens, s) % 4);
    if treeSelect && |symbols| == 4 && i >= 2 { ThreeBits(Code(lens, s)); }
  }

  lemma ListedSymbol(lens: lengths, symbols: seq<nat>, ls: seq<nat>, i: nat)
    requires IsSimple(lens, symbols, ls) && i < |symbols|
    ensures symbols[i] < |lens| && lens[symbols[i]] == ls[i]
    ensures forall j, k :: 0 <= j < k < |symbols| ==> symbols[j] != symbols[k]
  {}

  lemma ThreeBits(v: nat)
    requires v < 8
    ensures BitsOf(v, 3) == [v >= 4, v / 2 % 2 == 1, v % 2 == 1]
  {
    assert BitsOf(v, 3) == BitsOf(v / 2, 2) + [v % 2 == 1];
    SmallBits(v / 2);
  }

  /** The first codes of one, two and three bits. */
  lemma ShapeFirst(lens: lengths, symbols: seq<nat>, treeSelect: bool)
    requires 2 <= |symbols| <= 4 && IsSimple(lens, symbols, SimpleLengths(|symbols|, treeSelect))
    ensures FirstCode(lens, 1) == 0
    ensures |symbols| == 3 ==> FirstCode(lens, 2) == 2
    ensures |symbols| == 4 ==> FirstCode(lens, 2) == if treeSelect then 2 else 0
    ensures |symbols| == 4 && treeSelect ==> FirstCode(lens, 3) == 6
  {
    hide Tally, Equal, IsSimple;
    var ls := SimpleLengths(|symbols|, treeSelect);
    InAlphabet(lens, symbols, ls);
    FirstCodes12(lens);
    FirstCodeThree(lens);
    EqualIsTally(lens, symbols, ls, |lens|, 1);
    EqualIsTally(lens, symbols, ls, |lens|, 2);
    Tallies(symbols, ls, |lens|, 1);
    Tallies(symbols, ls, |lens|, 2);
  }

  lemma FirstCodeThree(lens: lengths)
    ensures FirstCode(lens, 3) == 2 * (FirstCode(lens, 2) + CountAt(lens, 2))
  {}

  /** How many smaller symbols have the same length. */
  lemma ShapeBefore(lens: lengths, symbols: seq<nat>, treeSelect: bool, i: nat)
    requires 2 <= |symbols| <= 4 && i < |symbols| && IsSimple(lens, symbols, SimpleLengths(|symbols|, treeSelect))
    ensures var ls := SimpleLengths(|symbols|, treeSelect);
            var from := if |symbols| == 3 then (if i == 0 then 0 else 1)
                        else if |symbols| == 4 && treeSelect then (if i < 2 then i else 2) else 0;
            Equal(lens, symbols[i], ls[i])
            == if from == i && (|symbols| == 3 || (|symbols| == 4 && treeSelect)) && i < |symbols| - 2 then 0
               else Smaller(symbols, from, symbols[i])
  {
    hide Tally, Equal, IsSimple;
    var ls := SimpleLengths(|symbols|, treeSelect);
    ListedSymbol(lens, symbols, ls, i);
    EqualIsTally(lens, symbols, ls, symbols[i], ls[i]);
    Tallies(symbols, ls, symbols[i], ls[i]);
    SmallerIs(symbols, symbols[i]);
  }

  lemma SmallerIs(symbols: seq<nat>, s: nat)
    requires 2 <= |symbols| <= 4
    ensures |symbols| == 2 ==> Smaller(symbols, 0, s) == One(symbols[0] < s) + One(symbols[1] < s)
    ensures |symbols| == 3 ==> Smaller(symbols, 1, s) == One(symbols[1] < s) + One(symbols[2] < s)
    ensures |symbols| == 4 ==> Smaller(symbols, 2, s) == One(symbols[2] < s) + One(symbols[3] < s)
    ensures |symbols| == 4 ==> Smaller(symbols, 0, s) == One(symbols[0] < s) + One(symbols[1] < s)
                                                         + One(symbols[2] < s) + One(symbols[3] < s)
  {
    var n := |symbols|;
    assert Smaller(symbols, n, s) == 0;
    assert Smaller(symbols, n - 1, s) == One(symbols[n - 1] < s);
    assert Smaller(symbols, n - 2, s) == One(symbols[n - 2] < s) + Smaller(symbols, n - 1, s);
    if n == 4 { assert Smaller(symbols, 1, s) == One(symbols[1] < s) + Smaller(symbols, 2, s); }
  }

  lemma ShapeBound(symbols: seq<nat>, i: nat)
    requires 2 <= |symbols| <= 4 && i < |symbols|
    requires forall j, k :: 0 <= j < k < |symbols| ==> symbols[j] != symbols[k]
    ensures |symbols| == 2 ==> Smaller(symbols, 0, symbols[i]) < 2
    ensures |symbols| == 3 && i > 0 ==> Smaller(symbols, 1, symbols[i]) < 2
    ensures |symbols| == 4 && i >= 2 ==> Smaller(symbols, 2, symbols[i]) < 2
    ensures |symbols| == 4 ==> Smaller(symbols, 0, symbols[i]) < 4
  {
    SmallerIs(symbols, symbols[i]);
  }

  /** The list behind the tag: a count, the names, and for four symbols a bit for the shape. */
  function ShapeHeader(symbols: seq<nat>, treeSelect: bool, alphabetSize: nat): bits
    requires 1 <= |symbols| <= 4
  {
    LsbOf(|symbols| - 1, 2)
    + (NamesBits(symbols, NameBits(alphabetSize, 0)) + (if |symbols| == 4 then [treeSelect] else []))
  }

  /** A list with either shape reads back. */
  lemma ShapeReadsBack(symbols: seq<nat>, treeSelect: bool, alphabetSize: nat, tail: bits)
    requires Listable(symbols, alphabetSize) && (treeSelect ==> |symbols| == 4)
    ensures ReadSimple(ShapeHeader(symbols, treeSelect, alphabetSize) + tail, alphabetSize)
         == Some((symbols, treeSelect, tail))
  {
    hide LsbOf, NumberOf, TakeBits, ReadNames, NamesBits, NameBits, Pow2;
    var n, abits := |symbols|, NameBits(alphabetSize, 0);
    var names, last := NamesBits(symbols, abits), if n == 4 then [treeSelect] else [];
    Pow2Values();
    Assoc(LsbOf(n - 1, 2), names + last, tail);
    Assoc(names, last, tail);
    TakeWritten(n - 1, 2, names + (last + tail));
    assert [] + symbols == symbols;
    ReadNamesBits([], symbols, abits, alphabetSize, last + tail);
    assert (last + tail)[|last|..] == tail;
  }

  /** A symbol is named by the fewest bits that can name all. */
  lemma NamesAreShort(alphabetSize: nat, n: nat)
    requires n == 0 || Pow2(n - 1) < alphabetSize
    ensures var r := NameBits(alphabetSize, n);
            alphabetSize <= Pow2(r) && (r == 0 || Pow2(r - 1) < alphabetSize)
    decreases alphabetSize - Pow2(n)
  {
    if Pow2(n) < alphabetSize { NamesAreShort(alphabetSize, n + 1); }
  }
}
