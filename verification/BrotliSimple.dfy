/** Simple prefix codes of up to four symbols (section 3.4 of RFC 7932), and when the encoder's bits for their symbols
    are the canonical codes that the decoder expects. */
module BrotliSimple {
  import opened Bits
  import opened LsbBits
  import opened Permutations
  import opened Canonical
  import opened BrotliBits
  import opened BrotliCodes
  import opened BrotliPrefix
  import opened BrotliSymbols
  import opened BrotliComplex

  /** The code lengths of one to four symbols in the order in which they are listed. */
  function SimpleLengths(count: nat, treeSelect: bool): (ls: seq<nat>)
    requires 1 <= count <= 4
    ensures |ls| == count && forall i :: 0 <= i < count ==> 1 <= ls[i] <= 3
  {
    if count == 1 then [1] else if count == 2 then [1, 1] else if count == 3 then [1, 2, 2]
    else if treeSelect then [1, 2, 3, 3] else [2, 2, 2, 2]
  }

  /** The symbols are different and in the alphabet. */
  ghost predicate Listable(symbols: seq<nat>, alphabetSize: nat) {
    && 1 <= |symbols| <= 4
    && (forall i :: 0 <= i < |symbols| ==> symbols[i] < alphabetSize)
    && (forall i, j :: 0 <= i < j < |symbols| ==> symbols[i] != symbols[j])
  }

  /** All lengths zero except those of the listed symbols. */
  ghost predicate IsSimple(lens: lengths, symbols: seq<nat>, ls: seq<nat>) {
    && |symbols| == |ls| && Listable(symbols, |lens|)
    && (forall i :: 0 <= i < |symbols| ==> lens[symbols[i]] == ls[i])
    && (forall s :: 0 <= s < |lens| && s !in symbols ==> lens[s] == 0)
  }

  /** How many listed symbols below m have this length. */
  function Tally(symbols: seq<nat>, ls: seq<nat>, m: nat, l: nat): nat
    requires |symbols| == |ls|
  {
    if |symbols| == 0 then 0
    else Tally(symbols[1..], ls[1..], m, l) + (if symbols[0] < m && ls[0] == l then 1 else 0)
  }

  lemma {:induction false} TallyZero(symbols: seq<nat>, ls: seq<nat>, l: nat)
    requires |symbols| == |ls|
    ensures Tally(symbols, ls, 0, l) == 0
    decreases |symbols|
  {
    if |symbols| > 0 { TallyZero(symbols[1..], ls[1..], l); }
  }

  lemma {:induction false} TallyStep(symbols: seq<nat>, ls: seq<nat>, m: nat, l: nat)
    requires |symbols| == |ls| && forall i, j :: 0 <= i < j < |symbols| ==> symbols[i] != symbols[j]
    ensures m !in symbols ==> Tally(symbols, ls, m + 1, l) == Tally(symbols, ls, m, l)
    ensures forall i :: 0 <= i < |symbols| && symbols[i] == m ==>
              Tally(symbols, ls, m + 1, l) == Tally(symbols, ls, m, l) + (if ls[i] == l then 1 else 0)
    decreases |symbols|
  {
    if |symbols| > 0 {
      TallyStep(symbols[1..], ls[1..], m, l);
      forall i | 0 <= i < |symbols| && symbols[i] == m
        ensures Tally(symbols, ls, m + 1, l) == Tally(symbols, ls, m, l) + (if ls[i] == l then 1 else 0)
      {
        if i == 0 {
          assert m !in symbols[1..];
        } else {
          assert symbols[1..][i - 1] == m && ls[1..][i - 1] == ls[i];
        }
      }
    }
  }

  /** Counting in the sparse lengths. */
  lemma {:induction false} EqualIsTally(lens: lengths, symbols: seq<nat>, ls: seq<nat>, m: nat, l: nat)
    requires IsSimple(lens, symbols, ls) && m <= |lens| && l > 0
    ensures Equal(lens, m, l) == Tally(symbols, ls, m, l)
    decreases m
  {
    if m == 0 {
      TallyZero(symbols, ls, l);
    } else {
      EqualIsTally(lens, symbols, ls, m - 1, l);
      TallyStep(symbols, ls, m - 1, l);
      if m - 1 in symbols {
        var i :| 0 <= i < |symbols| && symbols[i] == m - 1;
      }
    }
  }

  /** The canonical codes of sorted symbols: 0 and 1; 0, 10 and 11; or the two-bit numbers. */
  function SimpleCode(i: nat, count: nat): (c: bits)
    requires 2 <= count <= 4 && i < count
  {
    if count == 2 then [i == 1]
    else if count == 3 then (if i == 0 then [false] else [true, i == 2])
    else [i >= 2, i % 2 == 1]
  }

  lemma Tallies(symbols: seq<nat>, ls: seq<nat>, m: nat, l: nat)
    requires |symbols| == |ls| && 2 <= |symbols| <= 4
    ensures |symbols| == 2 ==>
              Tally(symbols, ls, m, l) == One(symbols[0] < m && ls[0] == l) + One(symbols[1] < m && ls[1] == l)
    ensures |symbols| == 3 ==>
              Tally(symbols, ls, m, l) == One(symbols[0] < m && ls[0] == l) + One(symbols[1] < m && ls[1] == l)
                                          + One(symbols[2] < m && ls[2] == l)
    ensures |symbols| == 4 ==>
              Tally(symbols, ls, m, l) == One(symbols[0] < m && ls[0] == l) + One(symbols[1] < m && ls[1] == l)
                                          + One(symbols[2] < m && ls[2] == l) + One(symbols[3] < m && ls[3] == l)
  {
    var s1, l1 := symbols[1..], ls[1..];
    var s2, l2 := s1[1..], l1[1..];
    assert Tally(s1, l1, m, l) == Tally(s2, l2, m, l) + One(s1[0] < m && l1[0] == l);
    if |symbols| == 2 { assert s2 == []; }
    if |symbols| >= 3 {
      var s3, l3 := s2[1..], l2[1..];
      assert Tally(s2, l2, m, l) == Tally(s3, l3, m, l) + One(s2[0] < m && l2[0] == l);
      if |symbols| == 4 {
        assert Tally(s3, l3, m, l) == Tally(s3[1..], l3[1..], m, l) + One(s3[0] < m && l3[0] == l);
      }
    }
  }

  function One(b: bool): nat { if b then 1 else 0 }

  lemma FirstCodes12(lens: lengths)
    ensures FirstCode(lens, 1) == 0 && FirstCode(lens, 2) == 2 * CountAt(lens, 1)
  {
    assert FirstCode(lens, 0) == 0 && CountAt(lens, 0) == 0;
  }

  /** The canonical code of the symbol listed at i. */
  lemma SimpleCodeBits(lens: lengths, symbols: seq<nat>, i: nat)
    requires 2 <= |symbols| <= 4 && i < |symbols| && Ascending(symbols)
    requires IsSimple(lens, symbols, SimpleLengths(|symbols|, false))
    ensures CodeBits(lens, symbols[i]) == SimpleCode(i, |symbols|)
  {
    hide BitsOf, Tally, Equal, FirstCode, CountAt, Code;
    var n, s := |symbols|, symbols[i];
    var l := SimpleLengths(n, false)[i];
    SimpleFirst(lens, symbols);
    SimpleBefore(lens, symbols, i);
    var code := if n == 3 then (if i == 0 then 0 else 1 + i) else i;
    CodeIs(lens, s);
    SmallBits(code);
  }

  lemma CodeIs(lens: lengths, s: nat)
    requires s < |lens|
    ensures Code(lens, s) == FirstCode(lens, lens[s]) + Equal(lens, s, lens[s])
    ensures CodeBits(lens, s) == BitsOf(Code(lens, s), lens[s])
  {}

  /** The first codes of one and two bits. */
  lemma SimpleFirst(lens: lengths, symbols: seq<nat>)
    requires 2 <= |symbols| <= 4 && IsSimple(lens, symbols, SimpleLengths(|symbols|, false))
    ensures FirstCode(lens, 1) == 0
    ensures FirstCode(lens, 2) == if |symbols| == 3 then 2 else if |symbols| == 2 then 4 else 0
  {
    hide Tally, Equal;
    var ls := SimpleLengths(|symbols|, false);
    FirstCodes12(lens);
    EqualIsTally(lens, symbols, ls, |lens|, 1);
    Tallies(symbols, ls, |lens|, 1);
  }

  /** How many smaller symbols have the same length. */
  lemma SimpleBefore(lens: lengths, symbols: seq<nat>, i: nat)
    requires 2 <= |symbols| <= 4 && i < |symbols| && Ascending(symbols)
    requires IsSimple(lens, symbols, SimpleLengths(|symbols|, false))
    ensures Equal(lens, symbols[i], SimpleLengths(|symbols|, false)[i]) == if |symbols| == 3 && i > 0 then i - 1 else i
  {
    hide Tally, Equal, IsSimple;
    var ls := SimpleLengths(|symbols|, false);
    InAlphabet(lens, symbols, ls);
    EqualIsTally(lens, symbols, ls, symbols[i], ls[i]);
    Tallies(symbols, ls, symbols[i], ls[i]);
  }

  lemma InAlphabet(lens: lengths, symbols: seq<nat>, ls: seq<nat>)
    requires IsSimple(lens, symbols, ls)
    ensures forall i :: 0 <= i < |symbols| ==> symbols[i] < |lens|
  {}

  lemma SmallBits(v: nat)
    requires v < 4
    ensures BitsOf(v, 2) == [v >= 2, v % 2 == 1] && (v < 2 ==> BitsOf(v, 1) == [v == 1])
  {
    assert BitsOf(v / 2, 1) == BitsOf(v / 4, 0) + [v / 2 % 2 == 1];
    assert BitsOf(v, 1) == BitsOf(v / 2, 0) + [v % 2 == 1];
  }

  /** The bits that the encoder writes for the symbol listed at i. */
  function WrittenCode(i: nat, count: nat): (b: bits)
    requires 1 <= count <= 4 && i < count
  {
    if count == 1 then []
    else if count == 2 then LsbOf(i, 1)
    else if count == 3 then (if i == 0 then LsbOf(0, 1) else LsbOf(if i == 1 then 1 else 3, 2))
    else LsbOf(i, 2)
  }

  /** The encoder's bits are the symbol's code, except for the two middle ones of four symbols, which it exchanges. */
  lemma WrittenIsCode(i: nat, count: nat)
    requires 2 <= count <= 4 && i < count
    ensures WrittenCode(i, count) == SimpleCode(i, count) <==> count <= 3 || i == 0 || i == 3
    ensures count == 4 && i == 1 ==> WrittenCode(i, count) == SimpleCode(2, count)
    ensures count == 4 && i == 2 ==> WrittenCode(i, count) == SimpleCode(1, count)
  {
    LsbSmall(i);
    LsbSmall(3);
    LsbSmall(1);
  }

  lemma LsbSmall(v: nat)
    requires v < 4
    ensures LsbOf(v, 1) == [v % 2 == 1] && LsbOf(v, 2) == [v % 2 == 1, v >= 2]
  {
    assert LsbOf(v / 2, 1) == [v / 2 % 2 == 1] + LsbOf(v / 4, 0);
    assert LsbOf(v, 1) == [v % 2 == 1] + LsbOf(v / 2, 0);
  }

  // ---------- writing and reading the list of symbols ----------

  /** How many bits name a symbol of the alphabet. */
  method AlphabetBits(alphabetSize: nat) returns (n: nat)
    ensures n == NameBits(alphabetSize, 0)
  {
    n := 0;
    var limit := 1;
    Pow2Values();
    while limit < alphabetSize
      invariant limit == Pow2(n) && NameBits(alphabetSize, n) == NameBits(alphabetSize, 0)
      decreases alphabetSize - limit
    {
      limit := 2 * limit;
      n := n + 1;
    }
  }

  /** The least number of bits from n on. */
  function NameBits(alphabetSize: nat, n: nat): (r: nat)
    ensures r >= n && alphabetSize <= Pow2(r)
    decreases alphabetSize - Pow2(n)
  {
    if Pow2(n) >= alphabetSize then n else NameBits(alphabetSize, n + 1)
  }

  lemma {:induction false} NameBitsSmall(alphabetSize: nat, n: nat)
    requires alphabetSize <= 1024 && n <= 10
    ensures NameBits(alphabetSize, n) <= 10
    decreases 10 - n
  {
    Pow2Values();
    if n < 10 && Pow2(n) < alphabetSize { NameBitsSmall(alphabetSize, n + 1); }
  }

  function NamesBits(symbols: seq<nat>, abits: nat): bits {
    if |symbols| == 0 then [] else LsbOf(symbols[0], abits) + NamesBits(symbols[1..], abits)
  }

  /** The header of a simple code behind its tag. */
  function HeaderBits(symbols: seq<nat>, alphabetSize: nat): bits
    requires 1 <= |symbols| <= 4
  {
    LsbOf(|symbols| - 1, 2) + NamesBits(symbols, NameBits(alphabetSize, 0))
        + (if |symbols| == 4 then LsbOf(0, 1) else [])
  }

  /** Symbols of the alphabet, one after the other, none twice. */
  function ReadNames(s: bits, abits: nat, alphabetSize: nat, done: seq<nat>, count: nat): (r: Option<(seq<nat>, bits)>)
    requires |done| <= count
    ensures r.Some? ==> |r.value.0| == count
    decreases count - |done|
  {
    if |done| == count then Some((done, s))
    else match TakeBits(s, abits)
      case None => None
      case Some(t) =>
        if t.0 >= alphabetSize || t.0 in done then None
        else ReadNames(t.1, abits, alphabetSize, done + [t.0], count)
  }

  /** The symbols and the shape of a simple code. */
  function ReadSimple(s: bits, alphabetSize: nat): (r: Option<(seq<nat>, bool, bits)>)
    ensures r.Some? ==> 1 <= |r.value.0| <= 4
  {
    match TakeBits(s, 2)
    case None => None
    case Some(n) =>
      NumberBoundTwo(s);
      var names := ReadNames(n.1, NameBits(alphabetSize, 0), alphabetSize, [], n.0 + 1);
      if names.None? then None
      else if |names.value.0| < 4 then Some((names.value.0, false, names.value.1))
      else if |names.value.1| < 1 then None
      else Some((names.value.0, names.value.1[0], names.value.1[1..]))
  }

  lemma NumberBoundTwo(s: bits)
    ensures |s| >= 2 ==> NumberOf(s[..2]) < 4
  {
    if |s| >= 2 {
      NumberBound(s[..2]);
      Pow2Values();
    }
  }

  lemma {:induction false} ReadNamesBits(done: seq<nat>, symbols: seq<nat>, abits: nat, alphabetSize: nat, tail: bits)
    requires alphabetSize <= Pow2(abits) && (forall i :: 0 <= i < |symbols| ==> symbols[i] < alphabetSize)
    requires forall i, j :: 0 <= i < j < |done + symbols| ==> (done + symbols)[i] != (done + symbols)[j]
    ensures ReadNames(NamesBits(symbols, abits) + tail, abits, alphabetSize, done, |done| + |symbols|)
         == Some((done + symbols, tail))
    decreases |symbols|
  {
    hide LsbOf, NumberOf, TakeBits;
    if |symbols| == 0 {
      assert NamesBits(symbols, abits) + tail == tail && done + symbols == done;
    } else {
      var rest := symbols[1..];
      assert (done + [symbols[0]]) + rest == done + symbols;
      Assoc(LsbOf(symbols[0], abits), NamesBits(rest, abits), tail);
      TakeWritten(symbols[0], abits, NamesBits(rest, abits) + tail);
      NotTwice(done, symbols);
      ReadNamesBits(done + [symbols[0]], rest, abits, alphabetSize, tail);
    }
  }

  lemma NotTwice(done: seq<nat>, symbols: seq<nat>)
    requires |symbols| > 0
    requires forall i, j :: 0 <= i < j < |done + symbols| ==> (done + symbols)[i] != (done + symbols)[j]
    ensures symbols[0] !in done
  {
    forall i | 0 <= i < |done| ensures done[i] != symbols[0] {
      assert (done + symbols)[i] == done[i] && (done + symbols)[|done|] == symbols[0];
    }
  }

  /** The header reads back as the symbols that were written. */
  lemma HeaderRoundTrip(symbols: seq<nat>, alphabetSize: nat, tail: bits)
    requires Listable(symbols, alphabetSize)
    ensures ReadSimple(HeaderBits(symbols, alphabetSize) + tail, alphabetSize) == Some((symbols, false, tail))
  {
    hide LsbOf, NumberOf, TakeBits, ReadNames, NamesBits, NameBits, Pow2;
    var n, abits := |symbols|, NameBits(alphabetSize, 0);
    var names, last := NamesBits(symbols, abits), if n == 4 then LsbOf(0, 1) else [];
    Pow2Values();
    Assoc(LsbOf(n - 1, 2), names, last);
    Assoc(LsbOf(n - 1, 2), names + last, tail);
    Assoc(names, last, tail);
    TakeWritten(n - 1, 2, names + (last + tail));
    assert [] + symbols == symbols;
    ReadNamesBits([], symbols, abits, alphabetSize, last + tail);
    if n == 4 {
      LsbSmall(0);
      assert (last + tail)[1..] == tail;
    } else {
      assert last + tail == tail;
    }
  }

  /** Writes the tag and the header. */
  method WriteSimplePrefixCode(bw: BitWriter, alphabetSize: nat, symbols: seq<nat>) returns (ok: bool)
    requires bw.Valid() && Listable(symbols, alphabetSize) && alphabetSize <= 1024
    modifies bw, bw.dst
    ensures ok <==> |old(bw.written)| + |LsbOf(1, 2) + HeaderBits(symbols, alphabetSize)| < 8 * bw.dst.Length + 8
    ensures ok ==> bw.Valid() && bw.written == old(bw.written) + (LsbOf(1, 2) + HeaderBits(symbols, alphabetSize))
    ensures ok ==> bw.overflow == old(bw.overflow)
  {
    hide LsbOf, Pow2, NumberOf, NamesBits, BitWriter.Valid;
    var abits := AlphabetBits(alphabetSize);
    NameBitsSmall(alphabetSize, 0);
    Pow2Values();
    ghost var w := bw.written;
    ok := bw.WriteBits(1, 2);
    if !ok { return; }
    ok := bw.WriteBits(|symbols| - 1, 2);
    if !ok { return; }
    ok := WriteNames(bw, symbols, abits);
    if !ok { return; }
    ghost var a, b, c := LsbOf(1, 2), LsbOf(|symbols| - 1, 2), NamesBits(symbols, abits);
    Regroup(w, a, b, c, if |symbols| == 4 then LsbOf(0, 1) else []);
    if |symbols| == 4 {
      ok := bw.WriteBits(0, 1);
    } else {
      assert w + a + b + c + [] == w + a + b + c;
      ok := true;
    }
  }

  /** Writes the symbols' names. */
  method WriteNames(bw: BitWriter, symbols: seq<nat>, abits: nat) returns (ok: bool)
    requires bw.Valid() && abits <= 10 && forall i :: 0 <= i < |symbols| ==> symbols[i] < Pow2(abits)
    modifies bw, bw.dst
    ensures ok <==> |old(bw.written)| + |NamesBits(symbols, abits)| < 8 * bw.dst.Length + 8
    ensures ok ==>
              && bw.Valid() && bw.written == old(bw.written) + NamesBits(symbols, abits)
              && bw.overflow == old(bw.overflow)
  {
    hide LsbOf, Pow2, BitWriter.Valid;
    ghost var goal := bw.written + NamesBits(symbols, abits);
    assert symbols[0..] == symbols;
    for i := 0 to |symbols|
      invariant bw.Valid() && bw.overflow == old(bw.overflow) && bw.written + NamesBits(symbols[i..], abits) == goal
    {
      assert symbols[i..][1..] == symbols[i + 1..];
      Assoc(bw.written, LsbOf(symbols[i], abits), NamesBits(symbols[i + 1..], abits));
      ok := bw.WriteBits(symbols[i], abits);
      if !ok { return; }
    }
    assert symbols[|symbols|..] == [] && bw.written + NamesBits([], abits) == bw.written;
    bw.Fits();
    ok := true;
  }

  lemma Regroup(w: bits, a: bits, b: bits, c: bits, d: bits)
    ensures w + a + b + c + d == w + (a + (b + c + d))
  {
    Assoc(w + a, b, c);
    Assoc(w + a, b + c, d);
    Assoc(w, a, b + c + d);
  }

  /** Writes the bits for the symbol listed at i. */
  method WriteSimpleLiteralCode(bw: BitWriter, i: nat, count: nat) returns (ok: bool)
    requires bw.Valid() && 1 <= count <= 4 && i < count
    modifies bw, bw.dst
    ensures ok <==> |old(bw.written)| + |WrittenCode(i, count)| < 8 * bw.dst.Length + 8
    ensures ok ==>
              && bw.Valid() && bw.written == old(bw.written) + WrittenCode(i, count)
              && bw.overflow == old(bw.overflow)
  {
    hide LsbOf, Pow2;
    Pow2Values();
    if count == 1 { return true; }
    if count == 2 {
      ok := bw.WriteBits(i, 1);
    } else if count == 3 {
      if i == 0 { ok := bw.WriteBits(0, 1); } else { ok := bw.WriteBits(if i == 1 then 1 else 3, 2); }
    } else {
      ok := bw.WriteBits(i, 2);
    }
  }

  // ---------- reading a simple code ----------

  /** What is left of eight parts after the first i lengths. */
  function RoomLeft(ls: seq<nat>, i: nat): int
    requires i <= |ls| && forall j :: 0 <= j < |ls| ==> 1 <= ls[j] <= 3
  {
    if i == 0 then Pow2(3) else RoomLeft(ls, i - 1) - Pow2(3 - ls[i - 1])
  }

  lemma OneIsPow2()
    ensures Pow2(0) == 1
  {}

  lemma SimpleIsComplete(count: nat, tree: bool)
    requires 2 <= count <= 4
    ensures RoomLeft(SimpleLengths(count, tree), count) == 0
  {
    hide Pow2;
    var ls := SimpleLengths(count, tree);
    Pow2Values();
    OneIsPow2();
    assert RoomLeft(ls, 2) == RoomLeft(ls, 1) - Pow2(3 - ls[1]) && RoomLeft(ls, 1) == RoomLeft(ls, 0) - Pow2(3 - ls[0]);
    if count >= 3 { assert RoomLeft(ls, 3) == RoomLeft(ls, 2) - Pow2(3 - ls[2]); }
  }

  /** The listed lengths below i are set, all others zero. */
  ghost predicate SetUpTo(lens: lengths, symbols: seq<nat>, ls: seq<nat>, i: nat) {
    && |symbols| == |ls| && Listable(symbols, |lens|) && i <= |symbols|
    && (forall j :: 0 <= j < i ==> lens[symbols[j]] == ls[j])
    && (forall s :: 0 <= s < |lens| && s !in symbols[..i] ==> lens[s] == 0)
  }

  lemma SetOneMore(lens: lengths, symbols: seq<nat>, ls: seq<nat>, i: nat)
    requires SetUpTo(lens, symbols, ls, i) && i < |symbols|
    ensures symbols[i] < |lens| && lens[symbols[i]] == 0 && SetUpTo(lens[symbols[i] := ls[i]], symbols, ls, i + 1)
  {
    assert symbols[..i + 1] == symbols[..i] + [symbols[i]];
    assert symbols[i] !in symbols[..i];
  }

  function IndexOf(symbols: seq<nat>, s: nat): (i: nat)
    requires s in symbols
    ensures i < |symbols| && symbols[i] == s
  {
    if symbols[0] == s then 0 else 1 + IndexOf(symbols[1..], s)
  }

  /** All lengths zero except those of the listed symbols. */
  function ListedLengths(symbols: seq<nat>, ls: seq<nat>, size: nat): (lens: lengths)
    requires |symbols| == |ls|
    ensures |lens| == size
    ensures forall s :: 0 <= s < size ==> lens[s] == if s in symbols then ls[IndexOf(symbols, s)] else 0
  {
    seq(size, s requires 0 <= s < size => if s in symbols then ls[IndexOf(symbols, s)] else 0)
  }

  lemma ListedIsSimple(lens: lengths, symbols: seq<nat>, ls: seq<nat>)
    requires |symbols| == |ls| && Listable(symbols, |lens|)
    ensures IsSimple(lens, symbols, ls) <==> lens == ListedLengths(symbols, ls, |lens|)
  {
    hide IndexOf;
    var all := ListedLengths(symbols, ls, |lens|);
    forall i | 0 <= i < |symbols| ensures all[symbols[i]] == ls[i] { assert IndexOf(symbols, symbols[i]) == i; }
    if IsSimple(lens, symbols, ls) {
      forall s | 0 <= s < |lens| ensures lens[s] == all[s] {
        if s in symbols { assert lens[symbols[IndexOf(symbols, s)]] == ls[IndexOf(symbols, s)]; }
      }
    }
  }

  lemma {:induction false} RoomListed(symbols: seq<nat>, ls: seq<nat>, size: nat, i: nat)
    requires |symbols| == |ls| && Listable(symbols, size) && i <= |symbols|
    requires forall j :: 0 <= j < |ls| ==> 1 <= ls[j] <= 3
    ensures Room(ListedLengths(symbols[..i], ls[..i], size), 3, RoomLeft(ls, i), i)
    decreases i
  {
    hide Room, Pow2, IndexOf;
    if i == 0 {
      RoomStart(ListedLengths([], [], size), 3);
      assert symbols[..0] == [] && ls[..0] == [];
    } else {
      RoomListed(symbols, ls, size, i - 1);
      ListedNext(symbols, ls, size, i - 1);
      RoomNext(ListedLengths(symbols[..i - 1], ls[..i - 1], size), 3, RoomLeft(ls, i - 1), i - 1, symbols[i - 1],
               ls[i - 1]);
    }
  }

  lemma ListedNext(symbols: seq<nat>, ls: seq<nat>, size: nat, i: nat)
    requires |symbols| == |ls| && Listable(symbols, size) && i < |symbols|
    ensures var was := ListedLengths(symbols[..i], ls[..i], size);
            && was[symbols[i]] == 0
            && ListedLengths(symbols[..i + 1], ls[..i + 1], size) == was[symbols[i] := ls[i]]
  {
    hide IndexOf;
    var was, now := ListedLengths(symbols[..i], ls[..i], size), ListedLengths(symbols[..i + 1], ls[..i + 1], size);
    assert symbols[..i + 1] == symbols[..i] + [symbols[i]] && symbols[i] !in symbols[..i];
    forall s | 0 <= s < size ensures now[s] == was[symbols[i] := ls[i]][s] {
      if s in symbols[..i + 1] {
        var k := IndexOf(symbols[..i + 1], s);
        assert symbols[..i + 1][k] == s == symbols[k];
        if s in symbols[..i] {
          var k := IndexOf(symbols[..i], s);
          assert symbols[..i][k] == s == symbols[k];
        }
      }
    }
  }

  /** The lengths of a simple code of several symbols are complete. */
  lemma SimpleComplete(lens: lengths, symbols: seq<nat>, tree: bool)
    requires Listable(symbols, |lens|) && IsSimple(lens, symbols, SimpleLengths(|symbols|, tree))
    ensures Used(lens, |lens|) == |symbols| && InRange(lens) && MaxLength(lens) <= MAX_BITS
    ensures |symbols| >= 2 ==> Kraft(lens) == Pow2(MAX_LEN)
    ensures |symbols| == 1 ==> lens[symbols[0]] != 0
  {
    hide Listable, Kraft, Pow2, Used, IndexOf;
    ListableCount(symbols, |lens|);
    var ls := SimpleLengths(|symbols|, tree);
    ListedIsSimple(lens, symbols, ls);
    RoomListed(symbols, ls, |lens|, |symbols|);
    assert symbols[..|symbols|] == symbols && ls[..|ls|] == ls;
    forall s | 0 <= s < |lens| ensures lens[s] <= 3 {}
    assert MaxLength(lens) > 0 ==> MaxLength(lens) in lens;
    if |symbols| >= 2 {
      SimpleIsComplete(|symbols|, tree);
      RoomUsedUp(lens, 3, |symbols|);
    }
  }

  /** The code lengths of a simple code. */
  method MakeLengths(alphabetSize: nat, symbols: seq<nat>, tree: bool) returns (lens: lengths)
    requires Listable(symbols, alphabetSize)
    ensures |lens| == alphabetSize && IsSimple(lens, symbols, SimpleLengths(|symbols|, tree))
    ensures Used(lens, |lens|) == |symbols| && InRange(lens) && MaxLength(lens) <= MAX_BITS
    ensures |symbols| >= 2 ==> Kraft(lens) == Pow2(MAX_LEN)
  {
    hide Used, Kraft, Pow2, Listable, SetUpTo, SimpleLengths;
    ListableCount(symbols, alphabetSize);
    var ls := SimpleLengths(|symbols|, tree);
    lens := seq(alphabetSize, _ => 0);
    NothingListed(lens, symbols, ls);
    for i := 0 to |symbols|
      invariant |lens| == alphabetSize && SetUpTo(lens, symbols, ls, i)
    {
      SetOneMore(lens, symbols, ls, i);
      lens := lens[symbols[i] := ls[i]];
    }
    AllSet(lens, symbols, ls);
    SimpleComplete(lens, symbols, tree);
  }

  lemma ListableCount(symbols: seq<nat>, alphabetSize: nat)
    requires Listable(symbols, alphabetSize)
    ensures 1 <= |symbols| <= 4
  {}

  lemma NothingListed(lens: lengths, symbols: seq<nat>, ls: seq<nat>)
    requires |symbols| == |ls| && Listable(symbols, |lens|) && forall s :: 0 <= s < |lens| ==> lens[s] == 0
    ensures SetUpTo(lens, symbols, ls, 0)
  {}

  lemma AllSet(lens: lengths, symbols: seq<nat>, ls: seq<nat>)
    requires |symbols| == |ls| && SetUpTo(lens, symbols, ls, |symbols|)
    ensures IsSimple(lens, symbols, ls)
  {
    assert symbols[..|symbols|] == symbols;
  }

  /** The code of these symbols; a single one takes no bits. */
  function SimpleCodeOf(symbols: seq<nat>, tree: bool, size: nat): SymbolCode
    requires 1 <= |symbols| <= 4
  {
    if |symbols| == 1 then Single(symbols[0]) else Coded(ListedLengths(symbols, SimpleLengths(|symbols|, tree), size))
  }

  lemma SimpleFrom(lens: lengths, symbols: seq<nat>, tree: bool)
    requires Listable(symbols, |lens|) && IsSimple(lens, symbols, SimpleLengths(|symbols|, tree))
    ensures CodeFrom(lens) == SimpleCodeOf(symbols, tree, |lens|)
  {
    hide Used, IndexOf;
    SimpleComplete(lens, symbols, tree);
    ListedIsSimple(lens, symbols, SimpleLengths(|symbols|, tree));
    if |symbols| == 1 { UsedOnce(lens, symbols[0], |lens|); }
  }

  /** How the parser starts. */
  lemma SimpleStart(s: bits, alphabetSize: nat)
    ensures |s| < 2 ==> ReadSimple(s, alphabetSize).None?
    ensures |s| >= 2 ==>
              NumberOf(s[..2]) < 4 &&
              (var count := NumberOf(s[..2]) + 1;
               var names := ReadNames(s[2..], NameBits(alphabetSize, 0), alphabetSize, [], count);
               ReadSimple(s, alphabetSize)
               == if names.None? then None
                  else if count < 4 then Some((names.value.0, false, names.value.1))
                  else if |names.value.1| < 1 then None
                  else Some((names.value.0, names.value.1[0], names.value.1[1..])))
  {
    NumberBoundTwo(s);
  }

  lemma NamesTurn(s: bits, abits: nat, alphabetSize: nat, done: seq<nat>, count: nat)
    requires |done| < count
    ensures var now := ReadNames(s, abits, alphabetSize, done, count);
            && (|s| < abits ==> now.None?)
            && (|s| >= abits ==>
                 var sym := NumberOf(s[..abits]);
                 now == if sym >= alphabetSize || sym in done then None
                        else ReadNames(s[abits..], abits, alphabetSize, done + [sym], count))
  {}

  lemma NamesDone(s: bits, abits: nat, alphabetSize: nat, done: seq<nat>)
    ensures ReadNames(s, abits, alphabetSize, done, |done|) == Some((done, s))
  {}

  ghost predicate Distinct(symbols: seq<nat>, alphabetSize: nat) {
    && (forall i :: 0 <= i < |symbols| ==> symbols[i] < alphabetSize)
    && (forall i, j :: 0 <= i < j < |symbols| ==> symbols[i] != symbols[j])
  }

  lemma DistinctMore(symbols: seq<nat>, sym: nat, alphabetSize: nat)
    requires Distinct(symbols, alphabetSize) && sym < alphabetSize && sym !in symbols
    ensures Distinct(symbols + [sym], alphabetSize)
  {}

  lemma DistinctFacts(symbols: seq<nat>, alphabetSize: nat)
    ensures Distinct([], alphabetSize)
    ensures Distinct(symbols, alphabetSize) && 1 <= |symbols| <= 4 ==> Listable(symbols, alphabetSize)
  {}

  /** The names of the symbols. */
  method ReadSymbolNames(br: BitReader, alphabetSize: nat, count: nat) returns (ok: bool, symbols: seq<nat>)
    requires br.Valid() && !br.error && alphabetSize <= 1024
    modifies br
    ensures br.Valid()
    ensures match ReadNames(old(br.Rest()), NameBits(alphabetSize, 0), alphabetSize, [], count)
            case Some(r) =>
              ok && symbols == r.0 && br.Rest() == r.1 && !br.error && |symbols| == count
              && Distinct(symbols, alphabetSize)
            case None => !ok
  {
    hide *;
    var abits := AlphabetBits(alphabetSize);
    NameBitsSmall(alphabetSize, 0);
    symbols := [];
    DistinctFacts([], alphabetSize);
    ghost var goal := ReadNames(br.Rest(), abits, alphabetSize, [], count);
    for i := 0 to count
      invariant br.Valid() && !br.error && |symbols| == i && Distinct(symbols, alphabetSize)
      invariant ReadNames(br.Rest(), abits, alphabetSize, symbols, count) == goal
    {
      NamesTurn(br.Rest(), abits, alphabetSize, symbols, count);
      var sym := br.ReadBits(abits);
      if br.error || sym >= alphabetSize || sym in symbols { return false, symbols; }
      DistinctMore(symbols, sym, alphabetSize);
      symbols := symbols + [sym];
    }
    NamesDone(br.Rest(), abits, alphabetSize, symbols);
    ok := true;
  }

  /** Reads a simple code behind its tag and builds it. */
  method ReadSimplePrefixCodeBody(br: BitReader, alphabetSize: nat, out: PrefixCode) returns (ok: bool)
    requires br.Valid() && !br.error && 0 < alphabetSize <= MAX_ENTRIES && out.Shaped() && br !in out.Repr
    modifies br, out.Repr
    ensures br.Valid()
    ensures match ReadSimple(old(br.Rest()), alphabetSize)
            case Some(r) =>
              && ok && out.Valid() && br.Rest() == r.2 && !br.error && |out.lens| == alphabetSize
              && IsSimple(out.lens, r.0, SimpleLengths(|r.0|, r.1)) && (out.isSingleSymbol <==> |r.0| == 1)
              && CodeOf(out) == SimpleCodeOf(r.0, r.1, alphabetSize)
            case None => !ok
  {
    hide *;
    Alphabet(alphabetSize);
    SimpleStart(br.Rest(), alphabetSize);
    var nsym := br.ReadBits(2);
    if br.error { return false; }
    nsym := nsym + 1;
    var symbols;
    ok, symbols := ReadSymbolNames(br, alphabetSize, nsym);
    if !ok { return; }
    var treeSelect := false;
    if nsym == 4 {
      FirstOrNone(br.Rest());
      var bit := br.ReadBits(1);
      if br.error { return false; }
      treeSelect := bit != 0;
    }
    DistinctFacts(symbols, alphabetSize);
    var lens := MakeLengths(alphabetSize, symbols, treeSelect);
    ok := out.Build(lens);
    BuiltCode(out);
    SimpleFrom(lens, symbols, treeSelect);
  }

  lemma Alphabet(alphabetSize: nat)
    ensures alphabetSize <= MAX_ENTRIES ==> alphabetSize <= 1024
  {}

  lemma FirstOrNone(s: bits)
    ensures |s| >= 1 ==> NumberOf(s[..1]) == if s[0] then 1 else 0
  {
    if |s| >= 1 { FirstBit(s); }
  }
}
