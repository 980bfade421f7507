/** What the symbols of DEFLATE stand for, by the arithmetic of section 3.2.5 of RFC 1951: the numbers behind length and
    distance symbols cover their ranges without gaps, and every length at every distance is read back. */
module InflateCodes {
  import opened Bits
  import opened LsbBits
  import opened BackCopy
  import opened Inflate

  // ---------- the ranges ----------

  /** The extra bits of the length symbol with this index, and the first length it stands for. */
  function LengthBits(li: nat): nat { if 8 <= li < 28 then (li - 4) / 4 else 0 }

  function FirstLength(li: nat): nat {
    if li < 8 then 3 + li else if li < 28 then 3 + (4 + li % 4) * Pow2(li / 4 - 1) else 258
  }

  /** The extra bits of a distance symbol, and the first distance it stands for. */
  function DistanceBits(di: nat): nat { if di < 2 then 0 else di / 2 - 1 }

  function FirstDistance(di: nat): nat { if di < 2 then 1 + di else 1 + (2 + di % 2) * Pow2(di / 2 - 1) }

  /** Lengths from 3 on without gap or overlap; the last range is cut short by the symbol for 258. */
  lemma LengthsCover(li: nat)
    requires li < 28
    ensures FirstLength(0) == 3 && FirstLength(28) == 258
    ensures FirstLength(li) + Pow2(LengthBits(li)) == if li < 27 then FirstLength(li + 1) else FirstLength(28) + 1
  {
    hide Pow2;
    Pow2Values();
    LargePowers();
    if li >= 8 {
      var r, p := li % 4, Pow2(li / 4 - 1);
      OneMore(4 + r, p);
      if r == 3 {
        Pow2Add(1, li / 4 - 1);
        assert (li + 1) / 4 - 1 == 1 + (li / 4 - 1);
      }
    }
  }

  lemma OneMore(a: int, p: int)
    ensures (a + 1) * p == a * p + p
  {}

  /** Distances from 1 to 32768 without gap or overlap. */
  lemma DistancesCover(di: nat)
    ensures FirstDistance(0) == 1 && FirstDistance(30) == 32769
    ensures FirstDistance(di) + Pow2(DistanceBits(di)) == FirstDistance(di + 1)
  {
    hide Pow2;
    Pow2Values();
    LargePowers();
    if di >= 2 {
      var r, p := di % 2, Pow2(di / 2 - 1);
      OneMore(2 + r, p);
      if r == 1 {
        Pow2Add(1, di / 2 - 1);
        assert (di + 1) / 2 - 1 == 1 + (di / 2 - 1);
      }
    }
  }

  /** The tables hold these ranges. */
  lemma LengthTables(li: nat)
    requires li < 29
    ensures |LENGTH_BASE| == |LENGTH_EXTRA| == 29
    ensures LENGTH_BASE[li] == FirstLength(li) && LENGTH_EXTRA[li] == LengthBits(li)
  {
    hide Pow2;
    Pow2Values();
  }

  lemma DistanceTables(di: nat)
    requires di < 30
    ensures |DIST_BASE| == |DIST_EXTRA| == 30
    ensures DIST_BASE[di] == FirstDistance(di) && DIST_EXTRA[di] == DistanceBits(di)
  {
    hide Pow2;
    Pow2Values();
    LargePowers();
  }

  /** Length, distance and number of bits behind a length symbol. */
  lemma MatchMeans(t: Tables, s: bits, li: nat)
    requires TablesOk(t) && li < 29
    ensures var n := LengthBits(li);
            var d := Resolve(t.dist, DistEnd, Drop(s, n));
            MatchAt(t, s, li) == (FirstLength(li) + Peek(s, n),
                                  FirstDistance(d.sym) + Peek(Drop(Drop(s, n), d.len), DistanceBits(d.sym)),
                                  n + d.len + DistanceBits(d.sym))
  {
    hide Resolve, Peek, Drop, Pow2, FirstLength, FirstDistance, LengthBits, DistanceBits, TablesOk, LENGTH_BASE,
         LENGTH_EXTRA, DIST_BASE, DIST_EXTRA;
    TablesOkIs(t);
    LengthTables(li);
    DistanceTables(Resolve(t.dist, DistEnd, Drop(s, LengthBits(li))).sym);
  }

  // ---------- the symbol of a length and of a distance ----------

  /** The index of a symbol with its extra bits. */
  datatype Coded = Coded(index: nat, extra: nat, bits: nat)

  /** The first eight lengths have a symbol each; of a longer one, the symbol gives the highest bit, whose place tells
      the number of extra bits, and the two bits behind it. */
  function LengthCode(len: nat): Coded
    requires 3 <= len <= 258
  {
    var m := len - 3;
    if m < 8 then Coded(m, 0, 0)
    else if len == 258 then Coded(28, 0, 0)
    else
      var e := Halvings(m, 4);
      Coded(4 * e + m / Pow2(e), m % Pow2(e), e)
  }

  /** The same for distances, with one bit behind the highest. */
  function DistanceCode(dist: nat): Coded
    requires 1 <= dist <= 32768
  {
    var m := dist - 1;
    if m < 2 then Coded(m, 0, 0)
    else
      var e := Halvings(m, 2);
      Coded(2 * e + m / Pow2(e), m % Pow2(e), e)
  }

  lemma LengthCodeIs(len: nat)
    requires 3 <= len <= 258
    ensures var c := LengthCode(len);
            c.index < 29 && c.bits == LengthBits(c.index) && c.extra < Pow2(c.bits)
            && FirstLength(c.index) + c.extra == len
  {
    hide Pow2;
    var m := len - 3;
    Pow2Values();
    if 8 <= m && len < 258 {
      var e := Halvings(m, 4);
      Leading(m, 4, e);
      ExponentBelow(m, 4, e, 6);
      var i := 4 * e + m / Pow2(e);
      assert i / 4 - 1 == e && i % 4 == m / Pow2(e) - 4;
    }
  }

  lemma DistanceCodeIs(dist: nat)
    requires 1 <= dist <= 32768
    ensures var c := DistanceCode(dist);
            c.index < 30 && c.bits == DistanceBits(c.index) && c.extra < Pow2(c.bits)
            && FirstDistance(c.index) + c.extra == dist
  {
    hide Pow2;
    var m := dist - 1;
    Pow2Values();
    LargePowers();
    if 2 <= m {
      var e := Halvings(m, 2);
      Leading(m, 2, e);
      ExponentBelow(m, 2, e, 14);
      var i := 2 * e + m / Pow2(e);
      assert i / 2 - 1 == e && i % 2 == m / Pow2(e) - 2;
    }
  }

  // ---------- written and read back ----------

  lemma PeekWritten(v: nat, n: nat, tail: bits)
    requires v < Pow2(n)
    ensures Peek(LsbOf(v, n) + tail, n) == v && Drop(LsbOf(v, n) + tail, n) == tail
  {
    NumberOfLsb(v, n);
    assert (LsbOf(v, n) + tail)[..n] == LsbOf(v, n);
  }

  /** The bits behind a length symbol: extra bits, the code of the distance symbol, extra bits. */
  function MatchBits(len: nat, dist: nat, code: bits): bits
    requires 3 <= len <= 258 && 1 <= dist <= 32768
  {
    var l, d := LengthCode(len), DistanceCode(dist);
    LsbOf(l.extra, l.bits) + (code + LsbOf(d.extra, d.bits))
  }

  /** The next bits lead to this symbol, whose code they start with. */
  ghost predicate LeadsTo(table: seq<Entry>, end: Entry -> bool, s: bits, sym: nat, code: bits)
    requires TableOk(table, end)
  {
    Resolve(table, end, s).sym == sym && Resolve(table, end, s).len == |code|
  }

  /** Whatever the codes are, every length and every distance read back. */
  lemma MatchRoundTrip(t: Tables, len: nat, dist: nat, code: bits, tail: bits)
    requires TablesOk(t) && 3 <= len <= 258 && 1 <= dist <= 32768
    requires var d := DistanceCode(dist);
             LeadsTo(t.dist, DistEnd, code + LsbOf(d.extra, d.bits) + tail, d.index, code)
    ensures LengthCode(len).index < 29
    ensures MatchAt(t, MatchBits(len, dist, code) + tail, LengthCode(len).index)
         == (len, dist, |MatchBits(len, dist, code)|)
  {
    hide *;
    TablesOkIs(t);
    LengthCodeIs(len);
    DistanceCodeIs(dist);
    var l, d := LengthCode(len), DistanceCode(dist);
    var le, de := LsbOf(l.extra, l.bits), LsbOf(d.extra, d.bits);
    var s := MatchBits(len, dist, code) + tail;
    MatchBitsAre(len, dist, code, tail);
    MatchMeans(t, s, l.index);
    PeekWritten(l.extra, l.bits, code + de + tail);
    LeadsToIs(t.dist, DistEnd, code + de + tail, d.index, code);
    assert Drop(code + de + tail, |code|) == de + tail by { Behind(code, de, tail); }
    PeekWritten(d.extra, d.bits, tail);
  }

  lemma TablesOkIs(t: Tables)
    requires TablesOk(t)
    ensures TableOk(t.litlen, LitlenEnd) && TableOk(t.dist, DistEnd)
  {}

  lemma LeadsToIs(table: seq<Entry>, end: Entry -> bool, s: bits, sym: nat, code: bits)
    requires TableOk(table, end) && LeadsTo(table, end, s, sym, code)
    ensures Resolve(table, end, s).sym == sym && Resolve(table, end, s).len == |code|
  {}

  lemma Behind(a: bits, b: bits, c: bits)
    ensures Drop(a + b + c, |a|) == b + c && Drop(a + b, |a|) == b
  {
    assert (a + b + c)[|a|..] == b + c;
  }

  lemma MatchBitsAre(len: nat, dist: nat, code: bits, tail: bits)
    requires 3 <= len <= 258 && 1 <= dist <= 32768
    ensures var l, d := LengthCode(len), DistanceCode(dist);
            && MatchBits(len, dist, code) + tail
               == LsbOf(l.extra, l.bits) + (code + LsbOf(d.extra, d.bits) + tail)
            && |MatchBits(len, dist, code)| == l.bits + |code| + d.bits
  {
    hide LengthCode, DistanceCode, LsbOf;
  }

  /** A whole match: symbols 257 to 285 with their codes and extra bits copy that many bytes from that far back. */
  lemma StepCopies(t: Tables, len: nat, dist: nat, lenCode: bits, code: bits, tail: bits, out: seq<byte>)
    requires TablesOk(t) && 3 <= len <= 258 && 1 <= dist <= 32768 && dist <= |out|
    requires var d := DistanceCode(dist);
             LeadsTo(t.dist, DistEnd, code + LsbOf(d.extra, d.bits) + tail, d.index, code)
    requires var s := lenCode + (MatchBits(len, dist, code) + tail);
             && LeadsTo(t.litlen, LitlenEnd, s, 257 + LengthCode(len).index, lenCode)
             && !Resolve(t.litlen, LitlenEnd, s).literal
    ensures Step(t, Run(lenCode + (MatchBits(len, dist, code) + tail), out, Going))
         == Run(tail, CopyBack(out, dist, len), Going)
  {
    hide *;
    var more := MatchBits(len, dist, code) + tail;
    var s := lenCode + more;
    TablesOkIs(t);
    MatchRoundTrip(t, len, dist, code, tail);
    LeadsToIs(t.litlen, LitlenEnd, s, 257 + LengthCode(len).index, lenCode);
    Behind(lenCode, more, []);
    Behind(MatchBits(len, dist, code), tail, []);
    assert Drop(s, |lenCode| + |MatchBits(len, dist, code)|) == tail by {
      DropTwice(s, |lenCode|, |MatchBits(len, dist, code)|);
    }
    StepIs(t, s, out, LengthCode(len).index, lenCode);
  }

  lemma StepIs(t: Tables, s: bits, out: seq<byte>, li: nat, code: bits)
    requires TablesOk(t) && li < 29 && LeadsTo(t.litlen, LitlenEnd, s, 257 + li, code)
    requires !Resolve(t.litlen, LitlenEnd, s).literal
    ensures var m := MatchAt(t, Drop(s, |code|), li);
            m.1 <= |out| ==>
              Step(t, Run(s, out, Going)) == Run(Drop(s, |code| + m.2), CopyBack(out, m.1, m.0), Going)
  {
    hide MatchAt, Resolve, CopyBack, Drop;
  }
}
