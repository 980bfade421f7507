/** How the fields of a block reach the bit writer. */
module FieldWriter {
  import opened Bits
  import opened BitIo
  import opened Canonical
  import opened BlockFormat
  import opened HuffmanTables
  import Crc
  import Mtf

  const MAX_TABLES: nat := 6

  /** A checksum goes out as two halves. */
  method WriteWord(bw: Writer, crc: Crc.word)
    requires bw.Valid()
    modifies bw, bw.dst
    ensures bw.Valid() && bw.written == old(bw.written) + crc
    ensures old(bw.stream) <= bw.stream
  {
    Halves(crc);
    bw.WriteBits(ValueOf(crc[..16]), 16);
    bw.WriteBits(ValueOf(crc[16..]), 16);
  }

  lemma Halves(crc: Crc.word)
    ensures ValueOf(crc[..16]) < Pow2(16) < 0x1_0000_0000 && ValueOf(crc[16..]) < Pow2(16)
    ensures BitsOf(ValueOf(crc[..16]), 16) + BitsOf(ValueOf(crc[16..]), 16) == crc
    ensures forall w: bits :: (w + crc[..16]) + crc[16..] == w + crc
    ensures BitsOf(ValueOf(crc[..16]), 16) == crc[..16] && BitsOf(ValueOf(crc[16..]), 16) == crc[16..]
  {
    Pow2Values();
    ValueBound(crc[..16]);
    ValueBound(crc[16..]);
    BitsOfValueOf(crc[..16]);
    BitsOfValueOf(crc[16..]);
  }

  /** The three 16-bit parts of a magic number. */
  function Magic(a: nat, b: nat, c: nat): (m: bits)
    ensures |m| == 48
  {
    BitsOf(a, 16) + BitsOf(b, 16) + BitsOf(c, 16)
  }

  method WriteMagic(bw: Writer, a: nat, b: nat, c: nat)
    requires bw.Valid() && a < 0x10000 && b < 0x10000 && c < 0x10000
    modifies bw, bw.dst
    ensures bw.Valid() && bw.written == old(bw.written) + Magic(a, b, c)
    ensures old(bw.stream) <= bw.stream
  {
    hide BitsOf, Pow2;
    Pow2Values();
    ghost var w := bw.written;
    bw.WriteBits(a, 16);
    bw.WriteBits(b, 16);
    bw.WriteBits(c, 16);
    Assoc(w, BitsOf(a, 16), BitsOf(b, 16));
    Assoc(w, BitsOf(a, 16) + BitsOf(b, 16), BitsOf(c, 16));
  }

  // ---------- flags packed into a number ----------

  /** The first i of sixteen flags, the first one at the top. */
  function Flags(f: bits, i: nat): nat
    requires i <= |f| == 16
  {
    ValueOf(f[..i]) * Pow2(16 - i)
  }

  lemma FlagsNext(f: bits, i: nat)
    requires i < |f| == 16
    ensures Flags(f, i + 1) == if f[i] then Or(Flags(f, i), Pow2(15 - i)) else Flags(f, i)
  {
    var v, p := ValueOf(f[..i]), Pow2(15 - i);
    assert f[..i + 1][..i] == f[..i] && f[..i + 1][i] == f[i];
    assert ValueOf(f[..i + 1]) == 2 * v + (if f[i] then 1 else 0);
    assert Pow2(16 - i) == 2 * p;
    hide ValueOf, Pow2;
    MulAssoc(v, 2, p);
    FlagSum(v, p);
    OrDisjoint(v, p, 16 - i);
  }

  lemma FlagSum(v: nat, p: nat)
    ensures (2 * v + 1) * p == v * (2 * p) + p && (2 * v) * p == v * (2 * p)
  {
    MulAssoc(v, 2, p);
  }

  lemma FlagsEnds(f: bits)
    requires |f| == 16
    ensures Flags(f, 0) == 0 && Flags(f, 16) == ValueOf(f) < Pow2(16) && Pow2(16) == 0x10000
    ensures BitsOf(ValueOf(f), 16) == f
  {
    assert f[..16] == f;
    Pow2Values();
    ValueBound(f);
    BitsOfValueOf(f);
  }

  /** Testing one flag. */
  lemma FlagTest(f: bits, i: nat)
    requires i < |f| == 16
    ensures ValueOf(f) / Pow2(15 - i) % 2 == if f[i] then 1 else 0
  {
    var head, tail := f[..i + 1], f[i + 1..];
    ValueOfLast(head);
    assert head + tail == f && |tail| == 15 - i && head[i] == f[i];
    hide *;
    ValueConcat(head, tail);
    ValueBound(tail);
    DivModUnique(ValueOf(f), ValueOf(head), Pow2(15 - i), ValueOf(tail));
  }

  lemma ValueOfLast(b: bits)
    requires |b| > 0
    ensures ValueOf(b) % 2 == if b[|b| - 1] then 1 else 0
  {}

  method PageUsed(inUse: array<bool>, i: nat) returns (any: bool)
    requires inUse.Length == 256 && i < 16
    ensures any == AnyTrue(Page(inUse[..], i))
  {
    ghost var page := Page(inUse[..], i);
    for j := 0 to 16
      invariant forall k :: 0 <= k < j ==> !page[k]
    {
      assert page[j] == inUse[i * 16 + j];
      if inUse[i * 16 + j] { return true; }
    }
    return false;
  }

  method CoarseFlags(inUse: array<bool>) returns (coarse: nat)
    requires inUse.Length == 256
    ensures coarse == ValueOf(Coarse(inUse[..]))
  {
    hide ValueOf, Or, Pow2, Flags;
    ghost var flags := Coarse(inUse[..]);
    FlagsEnds(flags);
    coarse := 0;
    for i := 0 to 16
      invariant coarse == Flags(flags, i)
    {
      FlagsNext(flags, i);
      var any := PageUsed(inUse, i);
      if any { coarse := Or(coarse, Pow2(15 - i)); }
    }
  }

  method FineFlags(inUse: array<bool>, i: nat) returns (fine: nat)
    requires inUse.Length == 256 && i < 16
    ensures fine == ValueOf(Page(inUse[..], i))
  {
    hide ValueOf, Or, Pow2, Flags;
    ghost var flags := Page(inUse[..], i);
    FlagsEnds(flags);
    fine := 0;
    for j := 0 to 16
      invariant fine == Flags(flags, j)
    {
      FlagsNext(flags, j);
      assert flags[j] == inUse[i * 16 + j];
      if inUse[i * 16 + j] { fine := Or(fine, Pow2(15 - j)); }
    }
  }

  lemma FineStep(inUse: seq<bool>, i: nat)
    requires |inUse| == 256 && i < 16
    ensures FineFrom(inUse, i) == (if Coarse(inUse)[i] then Page(inUse, i) else []) + FineFrom(inUse, i + 1)
    ensures forall w: bits, x: bits :: (w + Page(inUse, i)) + x == w + (Page(inUse, i) + x)
  {}

  /** The map of the bytes in use. */
  method WriteInUse(bw: Writer, inUse: array<bool>)
    requires bw.Valid() && inUse.Length == 256 && inUse !in {bw.dst as object}
    modifies bw, bw.dst
    ensures bw.Valid() && bw.written == old(bw.written) + InUseBits(inUse[..])
    ensures old(bw.stream) <= bw.stream
    ensures inUse[..] == old(inUse[..])
  {
    hide BitsOf, ValueOf, Pow2, Coarse, Page, FineFrom, AnyTrue;
    ghost var used := inUse[..];
    ghost var coarseBits := Coarse(used);
    ghost var goal := bw.written + InUseBits(used);
    var coarse := CoarseFlags(inUse);
    FlagsEnds(coarseBits);
    Assoc(bw.written, coarseBits, FineFrom(used, 0));
    bw.WriteBits(coarse, 16);
    for i := 0 to 16
      invariant bw.Valid() && old(bw.stream) <= bw.stream && inUse[..] == used
      invariant bw.written + FineFrom(used, i) == goal
    {
      FineStep(used, i);
      FlagTest(coarseBits, i);
      if coarse / Pow2(15 - i) % 2 == 1 {
        var fine := FineFlags(inUse, i);
        FlagsEnds(Page(used, i));
        bw.WriteBits(fine, 16);
      } else {
        assert bw.written + ([] + FineFrom(used, i + 1)) == bw.written + FineFrom(used, i + 1);
      }
    }
    NoFine(bw.written, used);
  }

  lemma NoFine(w: bits, inUse: seq<bool>)
    requires |inUse| == 256
    ensures w + FineFrom(inUse, 16) == w
  {}

  // ---------- selectors ----------

  /** Which place of the recency list each group's table has. */
  method SelectorMtfEncode(sel: seq<byte>, nTables: nat) returns (mtfSel: seq<byte>)
    requires nTables <= 6 && Mtf.Covers(FirstTables(nTables), sel)
    ensures mtfSel == Mtf.Ranks(FirstTables(nTables), sel)
  {
    var order := FirstTables(nTables);
    mtfSel := [];
    assert sel[0..] == sel;
    for i := 0 to |sel|
      invariant |order| == nTables && Mtf.Covers(order, sel[i..])
      invariant mtfSel + Mtf.Ranks(order, sel[i..]) == Mtf.Ranks(FirstTables(nTables), sel)
    {
      Mtf.ListedStep(mtfSel, order, sel, i);
      var tbl := sel[i];
      var pos := 0;
      while order[pos] != tbl
        invariant pos <= Mtf.IndexOf(order, tbl)
        decreases Mtf.IndexOf(order, tbl) - pos
      {
        pos := pos + 1;
      }
      mtfSel := mtfSel + [pos];
      order := Mtf.MoveToFront(order, pos);
    }
  }

  lemma UnaryStep(w: bits, m: nat)
    ensures m > 0 ==> (w + [true]) + Unary(m - 1) == w + Unary(m)
    ensures m == 0 ==> w + [false] == w + Unary(m)
    ensures BitsOf(1, 1) == [true] && BitsOf(0, 1) == [false] && 1 < Pow2(1)
  {
    assert BitsOf(1, 1) == BitsOf(0, 0) + [true];
    Pow2Values();
  }

  method WriteUnary(bw: Writer, m: nat)
    requires bw.Valid()
    modifies bw, bw.dst
    ensures bw.Valid() && bw.written == old(bw.written) + Unary(m)
    ensures old(bw.stream) <= bw.stream
  {
    for k := 0 to m
      invariant bw.Valid() && old(bw.stream) <= bw.stream
      invariant bw.written + Unary(m - k) == old(bw.written) + Unary(m)
    {
      UnaryStep(bw.written, m - k);
      bw.WriteBits(1, 1);
    }
    UnaryStep(bw.written, 0);
    bw.WriteBits(0, 1);
  }

  lemma UnaryAllStep(w: bits, ranks: seq<byte>, i: nat)
    requires i < |ranks|
    ensures (w + Unary(ranks[i])) + UnaryAll(ranks[i + 1..]) == w + UnaryAll(ranks[i..])
  {
    assert ranks[i..][1..] == ranks[i + 1..];
    Assoc(w, Unary(ranks[i]), UnaryAll(ranks[i + 1..]));
  }

  method WriteSelectors(bw: Writer, mtfSel: seq<byte>)
    requires bw.Valid()
    modifies bw, bw.dst
    ensures bw.Valid() && bw.written == old(bw.written) + UnaryAll(mtfSel)
    ensures old(bw.stream) <= bw.stream
  {
    assert mtfSel[0..] == mtfSel;
    for i := 0 to |mtfSel|
      invariant bw.Valid() && old(bw.stream) <= bw.stream
      invariant bw.written + UnaryAll(mtfSel[i..]) == old(bw.written) + UnaryAll(mtfSel)
    {
      UnaryAllStep(bw.written, mtfSel, i);
      WriteUnary(bw, mtfSel[i]);
    }
    assert bw.written + UnaryAll([]) == bw.written;
  }

  // ---------- code lengths ----------

  lemma DeltaStep(w: bits, cur: nat, target: nat)
    ensures cur < target ==> (w + BitsOf(2, 2)) + DeltaBits(cur + 1, target) == w + DeltaBits(cur, target)
    ensures cur > target ==> (w + BitsOf(3, 2)) + DeltaBits(cur - 1, target) == w + DeltaBits(cur, target)
    ensures cur == target ==> w + BitsOf(0, 1) == w + DeltaBits(cur, target)
    ensures 3 < Pow2(2)
  {
    StepBits();
    Pow2Values();
    hide BitsOf, Pow2;
    if cur < target {
      Assoc(w, [true, false], DeltaBits(cur + 1, target));
    } else if cur > target {
      Assoc(w, [true, true], DeltaBits(cur - 1, target));
    }
  }

  lemma StepBits()
    ensures BitsOf(2, 2) == [true, false] && BitsOf(3, 2) == [true, true] && BitsOf(0, 1) == [false]
  {
    assert BitsOf(1, 1) == BitsOf(0, 0) + [true];
    assert BitsOf(2, 2) == BitsOf(1, 1) + [false];
    assert BitsOf(3, 2) == BitsOf(1, 1) + [true];
    assert BitsOf(0, 1) == BitsOf(0, 0) + [false];
  }

  method WriteDelta(bw: Writer, start: nat, target: nat)
    requires bw.Valid()
    modifies bw, bw.dst
    ensures bw.Valid() && bw.written == old(bw.written) + DeltaBits(start, target)
    ensures old(bw.stream) <= bw.stream
  {
    hide DeltaBits, BitsOf, Pow2;
    ghost var goal := bw.written + DeltaBits(start, target);
    var cur := start;
    while cur < target
      invariant bw.Valid() && old(bw.stream) <= bw.stream && (cur <= target || cur == start)
      invariant bw.written + DeltaBits(cur, target) == goal
    {
      DeltaStep(bw.written, cur, target);
      bw.WriteBits(2, 2);
      cur := cur + 1;
    }
    while cur > target
      invariant bw.Valid() && old(bw.stream) <= bw.stream && cur >= target
      invariant bw.written + DeltaBits(cur, target) == goal
    {
      DeltaStep(bw.written, cur, target);
      bw.WriteBits(3, 2);
      cur := cur - 1;
    }
    DeltaStep(bw.written, cur, target);
    bw.WriteBits(0, 1);
  }

  lemma DeltasStep(w: bits, cur: nat, lens: seq<nat>, s: nat)
    requires s < |lens|
    ensures (w + DeltaBits(cur, lens[s])) + DeltasFrom(lens[s], lens[s + 1..]) == w + DeltasFrom(cur, lens[s..])
  {
    assert lens[s..][1..] == lens[s + 1..];
    Assoc(w, DeltaBits(cur, lens[s]), DeltasFrom(lens[s], lens[s + 1..]));
  }

  method WriteLengths(bw: Writer, len: seq<nat>)
    requires bw.Valid() && 0 < |len| && InRange(len)
    modifies bw, bw.dst
    ensures bw.Valid() && bw.written == old(bw.written) + TableBits(len)
    ensures old(bw.stream) <= bw.stream
  {
    ghost var start := bw.written;
    var cur := len[0];
    Pow2Values();
    bw.WriteBits(cur, 5);
    ghost var w := bw.written;
    assert len[0..] == len;
    for s := 0 to |len|
      invariant bw.Valid() && old(bw.stream) <= bw.stream
      invariant bw.written + DeltasFrom(cur, len[s..]) == w + DeltasFrom(len[0], len)
    {
      DeltasStep(bw.written, cur, len, s);
      WriteDelta(bw, cur, len[s]);
      cur := len[s];
    }
    assert bw.written + DeltasFrom(cur, []) == bw.written;
    Assoc(start, BitsOf(len[0], 5), DeltasFrom(len[0], len));
  }

  lemma TablesStep(w: bits, ls: seq<seq<nat>>, t: nat)
    requires t < |ls| && forall u :: 0 <= u < |ls| ==> |ls[u]| > 0
    ensures (w + TableBits(ls[t])) + TablesBits(ls[t + 1..]) == w + TablesBits(ls[t..])
  {
    assert ls[t..][1..] == ls[t + 1..];
    Assoc(w, TableBits(ls[t]), TablesBits(ls[t + 1..]));
  }

  method WriteTables(bw: Writer, tables: seq<Coding>, alphaSize: nat)
    requires bw.Valid() && alphaSize > 0 && AreCodings(tables, alphaSize)
    modifies bw, bw.dst
    ensures bw.Valid() && bw.written == old(bw.written) + TablesBits(Lens(tables))
    ensures old(bw.stream) <= bw.stream
  {
    ghost var ls := Lens(tables);
    assert ls[0..] == ls;
    for t := 0 to |tables|
      invariant bw.Valid() && old(bw.stream) <= bw.stream
      invariant bw.written + TablesBits(ls[t..]) == old(bw.written) + TablesBits(ls)
    {
      TablesStep(bw.written, ls, t);
      assert IsCoding(tables[t], alphaSize);
      WriteLengths(bw, tables[t].len);
    }
    assert bw.written + TablesBits([]) == bw.written;
  }
}
