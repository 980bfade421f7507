/** Complex prefix codes as section 3.5 of RFC 7932 describes them, and that they read back: the lengths of a code, with
    their runs, are written with a code whose own lengths come first, in a fixed order. */
module BrotliComplexWriter {
  import opened Bits
  import opened LsbBits
  import opened Canonical
  import opened BrotliPrefix
  import opened BrotliComplex

  // ---------- the lengths of the code for lengths ----------

  /** The symbol whose length comes at place i. */
  function Listed(i: nat): (symbol: nat)
    requires i < 18
    ensures symbol < 18
  {
    [1, 2, 3, 4, 0, 5, 17, 6, 16, 7, 8, 9, 10, 11, 12, 13, 14, 15][i]
  }

  /** Where a symbol's length comes. */
  function Place(symbol: nat): (i: nat)
    requires symbol < 18
    ensures i < 18 && Listed(i) == symbol
  {
    [4, 0, 1, 2, 3, 5, 7, 9, 10, 11, 12, 13, 14, 15, 16, 17, 8, 6][symbol]
  }

  lemma PlaceIs(i: nat)
    requires i < 18
    ensures Place(Listed(i)) == i
  {}

  /** The variable-length code of a length up to five, first bit first. */
  function LengthNumber(len: nat): bits
    requires len <= 5
  {
    match len
    case 0 => [false, false]
    case 1 => [true, true, true, false]
    case 2 => [true, true, false]
    case 3 => [false, true]
    case 4 => [true, false]
    case _ => [true, true, true, true]
  }

  /** The lengths from place i up to place n. */
  function NumbersBits(code: lengths, i: nat, n: nat): bits
    requires i <= n <= 18 == |code| && forall s :: 0 <= s < 18 ==> code[s] <= 5
    decreases n - i
  {
    if i == n then [] else LengthNumber(code[Listed(i)]) + NumbersBits(code, i + 1, n)
  }

  /** A code for lengths: complete, or of a single symbol. The first hskip lengths are not written and are zero. */
  ghost predicate LengthsCode(code: lengths, hskip: nat) {
    && |code| == 18 && hskip <= 3
    && (forall s :: 0 <= s < 18 ==> code[s] <= 5)
    && (forall i :: 0 <= i < hskip ==> code[Listed(i)] == 0)
    && (Used(code, 18) == 1 || (Used(code, 18) >= 2 && Kraft(code) == Pow2(MAX_LEN)))
  }

  /** Of a complete code the lengths behind the last one that is not zero are not written. */
  ghost predicate EndsAt(code: lengths, n: nat)
    requires |code| == 18
  {
    if Used(code, 18) == 1 then n == 18
    else 0 < n <= 18 && code[Listed(n - 1)] != 0 && forall i :: n <= i < 18 ==> code[Listed(i)] == 0
  }

  /** The lengths at places below i. */
  function Partial(code: lengths, i: nat): (r: lengths)
    requires |code| == 18
    ensures |r| == 18
  {
    seq(18, s requires 0 <= s < 18 => if Place(s) < i then code[s] else 0)
  }

  lemma PartialNext(code: lengths, i: nat)
    requires |code| == 18 && i < 18
    ensures Partial(code, i)[Listed(i)] == 0
    ensures Partial(code, i + 1) == Partial(code, i)[Listed(i) := code[Listed(i)]]
  {
    PlaceIs(i);
  }

  /** One number is read from the table of sixteen. */
  lemma NumberReads(len: nat, tail: bits)
    requires len <= 5 && |LengthNumber(len)| + |tail| >= 4
    ensures var s := LengthNumber(len) + tail;
            && |s| >= 4 && |PREFIX_LENGTH| == |PREFIX_VALUE| == 16
            && PREFIX_VALUE[FourBits(s)] == len && PREFIX_LENGTH[FourBits(s)] == |LengthNumber(len)|
            && s[|LengthNumber(len)|..] == tail
  {
    var s := LengthNumber(len) + tail;
    FourAre(s[0], s[1], s[2], s[3]);
    assert s[..4] == [s[0], s[1], s[2], s[3]];
    FourIs(s);
  }

  lemma FourAre(a: bool, b: bool, c: bool, d: bool)
    ensures NumberOf([a, b, c, d])
         == (if a then 1 else 0) + (if b then 2 else 0) + (if c then 4 else 0) + (if d then 8 else 0)
  {
    assert [a, b, c, d][1..] == [b, c, d] && [b, c, d][1..] == [c, d] && [c, d][1..] == [d] && [d][1..] == [];
    assert NumberOf([d]) == if d then 1 else 0;
    assert NumberOf([c, d]) == (if c then 1 else 0) + 2 * NumberOf([d]);
    assert NumberOf([b, c, d]) == (if b then 1 else 0) + 2 * NumberOf([c, d]);
  }

  /** Fewer symbols take less room. */
  lemma {:induction false} FewerTakeLess(a: lengths, b: lengths, m: nat)
    requires |a| == |b| && m <= |a| && InRange(a) && InRange(b)
    requires forall s :: 0 <= s < |a| ==> a[s] == b[s] || a[s] == 0
    ensures KraftUpTo(a, m, MAX_LEN) <= KraftUpTo(b, m, MAX_LEN) && Used(a, m) <= Used(b, m)
    decreases m
  {
    if m > 0 { FewerTakeLess(a, b, m - 1); }
  }

  /** While lengths are missing there is room for them. */
  lemma RoomAhead(code: lengths, hskip: nat, i: nat, space: int, nonzero: nat)
    requires LengthsCode(code, hskip) && i < 18 && Room(Partial(code, i), 5, space, nonzero)
    ensures Used(code, 18) >= nonzero
    ensures Kraft(code) <= Pow2(MAX_LEN) ==> space >= Taken(5, code[Listed(i)])
    ensures Room(Partial(code, i + 1), 5, space - Taken(5, code[Listed(i)]), nonzero + Count(code[Listed(i)], 1))
  {
    hide KraftUpTo, Used, Pow2, Listed, Place;
    var now, next, len := Partial(code, i), Partial(code, i + 1), code[Listed(i)];
    PartialNext(code, i);
    assert len == 0 ==> next == now;
    if len != 0 { RoomNext(now, 5, space, nonzero, Listed(i), len); }
    FewerTakeLess(now, code, 18);
    FewerTakeLess(next, code, 18);
    if Kraft(code) <= Pow2(MAX_LEN) {
      RoomIsLeft(next, space - Taken(5, len), nonzero + Count(len, 1));
    }
  }

  lemma RoomIsLeft(lens: lengths, space: int, nonzero: nat)
    requires Room(lens, 5, space, nonzero) && Kraft(lens) <= Pow2(MAX_LEN)
    ensures space >= 0
  {
    hide KraftUpTo, Used, Pow2;
    Pow2Add(5, 15);
    if space < 0 { MulMono(Pow2(5) + 1, Pow2(5) - space, Pow2(15)); }
  }

  /** No room is used up before the last length that is not zero. */
  lemma RoomForLater(code: lengths, hskip: nat, i: nat, j: nat, space: int, nonzero: nat)
    requires LengthsCode(code, hskip) && i <= j < 18 && Room(Partial(code, i), 5, space, nonzero)
    requires code[Listed(j)] != 0 && Kraft(code) <= Pow2(MAX_LEN)
    ensures space > 0
  {
    hide KraftUpTo, Used, Pow2, Listed, Place;
    var now, len := Partial(code, i), code[Listed(j)];
    PlaceIs(j);
    RoomNext(now, 5, space, nonzero, Listed(j), len);
    FewerTakeLess(now[Listed(j) := len], code, 18);
    RoomIsLeft(now[Listed(j) := len], space - Pow2(5 - len), nonzero + 1);
  }

  lemma {:induction false} KraftOfUsed(lens: lengths, m: nat)
    requires m <= |lens| && InRange(lens)
    ensures KraftUpTo(lens, m, MAX_LEN) <= Used(lens, m) * Pow2(MAX_LEN - 1)
    decreases m
  {
    hide Pow2;
    if m > 0 {
      KraftOfUsed(lens, m - 1);
      Canonical.OneMore(Used(lens, m - 1), Pow2(MAX_LEN - 1));
      if lens[m - 1] > 0 { Pow2Mono(MAX_LEN - lens[m - 1], MAX_LEN - 1); }
    }
  }

  lemma CodeHasRoom(code: lengths, hskip: nat)
    requires LengthsCode(code, hskip)
    ensures InRange(code) && Kraft(code) <= Pow2(MAX_LEN)
  {
    hide KraftUpTo, Used, Pow2, Listed;
    if Used(code, 18) == 1 {
      KraftOfUsed(code, 18);
      Pow2Mono(MAX_LEN - 1, MAX_LEN);
    }
  }

  /** Where the list ends, the whole code has been read. */
  lemma AllListed(code: lengths, hskip: nat, n: nat, space: int, nonzero: nat)
    requires LengthsCode(code, hskip) && n <= 18 && EndsAt(code, n) && Room(Partial(code, n), 5, space, nonzero)
    ensures Partial(code, n) == code && nonzero == Used(code, 18) && (Used(code, 18) >= 2 ==> space == 0)
  {
    hide KraftUpTo, Used, Pow2, Listed;
    forall s | 0 <= s < 18 ensures Partial(code, n)[s] == code[s] {
      if Place(s) >= n { assert code[Listed(Place(s))] == 0; }
    }
    assert Partial(code, n) == code;
    Pow2Values();
  }

  /** The lengths of the code for lengths read back. */
  lemma {:induction false} NumbersReadBack(code: lengths, hskip: nat, i: nat, n: nat, space: int, nonzero: nat,
                                           tail: bits)
    requires LengthsCode(code, hskip) && i <= n <= 18 && EndsAt(code, n)
    requires i < n ==> |LengthNumber(code[Listed(n - 1)])| + |tail| >= 4
    requires Room(Partial(code, i), 5, space, nonzero)
    ensures ReadCodeLengths(NumbersBits(code, i, n) + tail, i, Partial(code, i), space, nonzero) == Some((code, tail))
    decreases n - i
  {
    hide *;
    CodeShape(code, hskip);
    var s := NumbersBits(code, i, n) + tail;
    NumbersAre(code, hskip, i, n, tail);
    if i == n {
      AllListed(code, hskip, n, space, nonzero);
      UsedSome(code, hskip, n);
      CodeLengthsEnd(s, n, code, space, nonzero);
    } else {
      var len, more := code[Listed(i)], NumbersBits(code, i + 1, n) + tail;
      StillGoing(code, hskip, i, n, space, nonzero);
      CodeHasRoom(code, hskip);
      RoomAhead(code, hskip, i, space, nonzero);
      NumberReads(len, more);
      PartialNext(code, i);
      OrderListed(i);
      CodeLengthsTurn(s, i, Partial(code, i), space, nonzero);
      NumbersReadBack(code, hskip, i + 1, n, space - Taken(5, len), nonzero + Count(len, 1), tail);
    }
  }

  lemma OrderListed(i: nat)
    requires i < 18
    ensures |ORDER| == 18 && ORDER[i] == Listed(i)
  {}

  lemma CodeShape(code: lengths, hskip: nat)
    requires LengthsCode(code, hskip)
    ensures |code| == 18 && forall s :: 0 <= s < 18 ==> code[s] <= 5
  {}

  lemma UsedSome(code: lengths, hskip: nat, n: nat)
    requires LengthsCode(code, hskip) && EndsAt(code, n)
    ensures Used(code, 18) > 0 && (n == 18 || Used(code, 18) >= 2)
  {}

  lemma StillGoing(code: lengths, hskip: nat, i: nat, n: nat, space: int, nonzero: nat)
    requires LengthsCode(code, hskip) && i < n <= 18 && EndsAt(code, n) && Room(Partial(code, i), 5, space, nonzero)
    ensures nonzero < 2 || space != 0
    ensures code[Listed(i)] <= 5
  {
    hide KraftUpTo, Used, Pow2, Listed, Place;
    CodeHasRoom(code, hskip);
    RoomAhead(code, hskip, i, space, nonzero);
    if Used(code, 18) >= 2 { RoomForLater(code, hskip, i, n - 1, space, nonzero); }
  }

  lemma NumbersAre(code: lengths, hskip: nat, i: nat, n: nat, tail: bits)
    requires LengthsCode(code, hskip) && i <= n <= 18
    ensures i == n ==> NumbersBits(code, i, n) + tail == tail
    ensures i < n ==>
              NumbersBits(code, i, n) + tail == LengthNumber(code[Listed(i)]) + (NumbersBits(code, i + 1, n) + tail)
    ensures i + 1 < n ==> |NumbersBits(code, i + 1, n) + tail| >= 2 + |tail|
    ensures i + 1 == n ==> NumbersBits(code, i + 1, n) + tail == tail
    ensures i < n ==> |LengthNumber(code[Listed(i)])| >= 2
  {
    hide Listed;
    if i < n { Assoc(LengthNumber(code[Listed(i)]), NumbersBits(code, i + 1, n), tail); }
  }
}
