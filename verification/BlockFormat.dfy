/** The bits of one block: how its fields are written, and a plain parser for every field. The parser says Undefined
    where the decoder would step outside its fixed-size tables. */
module BlockFormat {
  import opened Bits
  import Mtf
  import Rle2
  import opened DecodeTable

  const MAX_SELECTORS: nat := 18002

  datatype Parsed<+T> = Got(value: T, rest: bits) | Reject | Undefined

  function ReadNumber(b: bits, n: nat): (p: Parsed<nat>)
    ensures p.Got? ==> |p.rest| + n == |b|
  {
    if |b| < n then Reject else Got(ValueOf(b[..n]), b[n..])
  }

  lemma ReadField(v: nat, n: nat, tail: bits)
    requires v < Pow2(n)
    ensures ReadNumber(BitsOf(v, n) + tail, n) == Got(v, tail)
  {
    ValueOfBitsOf(v, n);
    var b := BitsOf(v, n) + tail;
    assert b[..n] == BitsOf(v, n) && b[n..] == tail;
  }

  // ---------- the map of bytes in use ----------

  function AnyTrue(s: seq<bool>): (r: bool)
    ensures r <==> exists k :: 0 <= k < |s| && s[k]
  {
    |s| > 0 && (s[0] || AnyTrue(s[1..]))
  }

  function Page(inUse: seq<bool>, i: nat): (p: seq<bool>)
    requires |inUse| == 256 && i < 16
    ensures |p| == 16
  {
    inUse[16 * i..16 * i + 16]
  }

  function Coarse(inUse: seq<bool>): (c: bits)
    requires |inUse| == 256
    ensures |c| == 16
  {
    seq(16, i requires 0 <= i < 16 => AnyTrue(Page(inUse, i)))
  }

  /** The pages from page i on that hold a byte in use. */
  function FineFrom(inUse: seq<bool>, i: nat): bits
    requires |inUse| == 256 && i <= 16
    decreases 16 - i, inUse
  {
    if i == 16 then [] else (if Coarse(inUse)[i] then Page(inUse, i) else []) + FineFrom(inUse, i + 1)
  }

  function InUseBits(inUse: seq<bool>): bits
    requires |inUse| == 256
  {
    Coarse(inUse) + FineFrom(inUse, 0)
  }

  /** The pages from page i on, a page without its coarse bit being empty. */
  function ReadPages(coarse: bits, i: nat, b: bits): (p: Parsed<seq<bool>>)
    requires |coarse| == 16 && i <= 16
    ensures p.Got? ==> |p.value| == 256 - 16 * i && |p.rest| <= |b|
    decreases 16 - i, coarse
  {
    if i == 16 then Got([], b)
    else if !coarse[i] then
      match ReadPages(coarse, i + 1, b)
      case Got(s, rest) => Got(Zeros(16) + s, rest)
      case other => other
    else if |b| < 16 then Reject
    else
      match ReadPages(coarse, i + 1, b[16..])
      case Got(s, rest) => Got(b[..16] + s, rest)
      case other => other
  }

  function ReadInUse(b: bits): (p: Parsed<seq<bool>>)
    ensures p.Got? ==> |p.value| == 256 && |p.rest| <= |b|
  {
    if |b| < 16 then Reject else ReadPages(b[..16], 0, b[16..])
  }

  lemma EmptyPage(p: seq<bool>)
    requires |p| == 16 && !AnyTrue(p)
    ensures p == Zeros(16)
  {}

  lemma {:induction false} ReadPagesOfFine(inUse: seq<bool>, i: nat, tail: bits)
    requires |inUse| == 256 && i <= 16
    ensures ReadPages(Coarse(inUse), i, FineFrom(inUse, i) + tail) == Got(inUse[16 * i..], tail)
    decreases 16 - i
  {
    hide AnyTrue, Zeros, Coarse, Page, ReadPages, FineFrom;
    OnePage(inUse, i, tail);
    if i < 16 {
      ReadPagesOfFine(inUse, i + 1, tail);
      var page, rest := Page(inUse, i), FineFrom(inUse, i + 1) + tail;
      if Coarse(inUse)[i] { PageAhead(Coarse(inUse), i, page, rest); } else { PageMissing(Coarse(inUse), i, rest); }
    }
  }

  /** The bits of one page in front of the others. */
  lemma OnePage(inUse: seq<bool>, i: nat, tail: bits)
    requires |inUse| == 256 && i <= 16
    ensures i == 16 ==> ReadPages(Coarse(inUse), i, FineFrom(inUse, i) + tail) == Got([], tail) && inUse[16 * i..] == []
    ensures i < 16 ==>
              var page, rest := Page(inUse, i), FineFrom(inUse, i + 1) + tail;
              && inUse[16 * i..] == page + inUse[16 * (i + 1)..]
              && FineFrom(inUse, i) + tail == (if Coarse(inUse)[i] then page + rest else rest)
              && (!Coarse(inUse)[i] ==> page == Zeros(16))
  {
    if i < 16 && !Coarse(inUse)[i] { EmptyPage(Page(inUse, i)); }
  }

  lemma PageMissing(coarse: bits, i: nat, rest: bits)
    requires |coarse| == 16 && i < 16 && !coarse[i]
    ensures ReadPages(coarse, i, rest)
         == match ReadPages(coarse, i + 1, rest) case Got(s, r) => Got(Zeros(16) + s, r) case other => other
  {}

  lemma PageAhead(coarse: bits, i: nat, page: bits, rest: bits)
    requires |coarse| == 16 && i < 16 && coarse[i] && |page| == 16
    ensures ReadPages(coarse, i, page + rest)
         == match ReadPages(coarse, i + 1, rest) case Got(s, r) => Got(page + s, r) case other => other
  {
    assert (page + rest)[..16] == page && (page + rest)[16..] == rest;
  }

  lemma ReadInUseBits(inUse: seq<bool>, tail: bits)
    requires |inUse| == 256
    ensures ReadInUse(InUseBits(inUse) + tail) == Got(inUse, tail)
  {
    var b := InUseBits(inUse) + tail;
    assert b[..16] == Coarse(inUse) && b[16..] == FineFrom(inUse, 0) + tail;
    ReadPagesOfFine(inUse, 0, tail);
    assert inUse[0..] == inUse;
  }

  /** The bytes in use in increasing order, from byte c on. */
  function UsedFrom(inUse: seq<bool>, c: nat): (list: seq<byte>)
    requires |inUse| == 256 && c <= 256
    ensures |list| <= 256 - c
    decreases 256 - c, inUse
  {
    if c == 256 then [] else (if inUse[c] then [c] else []) + UsedFrom(inUse, c + 1)
  }

  function Used(inUse: seq<bool>): (list: seq<byte>)
    requires |inUse| == 256
    ensures |list| <= 256
  {
    UsedFrom(inUse, 0)
  }

  lemma {:induction false} UsedFromMembers(inUse: seq<bool>, c: nat)
    requires |inUse| == 256 && c <= 256
    ensures forall x: byte :: x in UsedFrom(inUse, c) <==> c <= x && inUse[x]
    decreases 256 - c
  {
    if c < 256 { UsedFromMembers(inUse, c + 1); }
  }

  lemma {:induction false} UsedFromCount(inUse: seq<bool>, c: nat)
    requires |inUse| == 256 && c <= 256
    ensures |UsedFrom(inUse, c)| + Rle2.CountTrue(inUse[..c]) == Rle2.CountTrue(inUse)
    decreases 256 - c
  {
    if c == 256 {
      assert inUse[..256] == inUse;
    } else {
      UsedFromCount(inUse, c + 1);
      assert inUse[..c + 1][..c] == inUse[..c];
    }
  }

  // ---------- selectors ----------

  function Unary(m: nat): (b: bits)
    ensures |b| == m + 1
  {
    if m == 0 then [false] else [true] + Unary(m - 1)
  }

  function UnaryAll(ranks: seq<byte>): bits {
    if |ranks| == 0 then [] else Unary(ranks[0]) + UnaryAll(ranks[1..])
  }

  function FirstTables(n: nat): (order: seq<byte>)
    requires n <= 256
    ensures |order| == n && forall i :: 0 <= i < n ==> order[i] == i
  {
    seq(n, i requires 0 <= i < n => i)
  }

  /** Every selector names one of the first n tables. */
  predicate Named(selectors: seq<byte>, n: nat) {
    forall k :: 0 <= k < |selectors| ==> selectors[k] < n
  }

  /** Counts ones up to the first zero; reaching the limit rejects. */
  function ReadUnary(b: bits, pos: nat, limit: nat): (p: Parsed<nat>)
    requires pos < limit
    ensures p.Got? ==> pos <= p.value < limit && |p.rest| < |b|
    ensures !p.Undefined?
    decreases |b|
  {
    if |b| == 0 then Reject
    else if !b[0] then Got(pos, b[1..])
    else if pos + 1 >= limit then Reject
    else ReadUnary(b[1..], pos + 1, limit)
  }

  /** Selectors g, g+1, ... of `count`; the array for them holds MAX_SELECTORS. */
  function ReadSelectors(order: seq<byte>, g: nat, count: nat, b: bits): (p: Parsed<seq<byte>>)
    requires 0 < |order| && g <= count
    ensures p.Got? ==> |p.value| == count - g && |p.rest| <= |b|
    decreases count - g
  {
    if g == count then Got([], b)
    else match ReadUnary(b, 0, |order|)
      case Got(pos, rest) =>
        if g >= 18002 then Undefined
        else (match ReadSelectors(Mtf.MoveToFront(order, pos), g + 1, count, rest)
          case Got(s, rest') => Got([order[pos]] + s, rest')
          case other => other)
      case Reject => Reject
      case Undefined => Undefined
  }

  lemma {:induction false} ReadUnaryBits(m: nat, pos: nat, limit: nat, tail: bits)
    requires pos + m < limit
    ensures ReadUnary(Unary(m) + tail, pos, limit) == Got(pos + m, tail)
    decreases m
  {
    var b := Unary(m) + tail;
    if m == 0 {
      assert b[1..] == tail;
    } else {
      assert b[1..] == Unary(m - 1) + tail;
      ReadUnaryBits(m - 1, pos + 1, limit, tail);
    }
  }

  lemma {:induction false} ReadSelectorBits(order: seq<byte>, sel: seq<byte>, g: nat, tail: bits)
    requires 0 < |order| && Mtf.Covers(order, sel) && g + |sel| <= 18002
    ensures ReadSelectors(order, g, g + |sel|, UnaryAll(Mtf.Ranks(order, sel)) + tail) == Got(sel, tail)
    decreases |sel|
  {
    hide Unary, ReadUnary, UnaryAll, Mtf.Covers, Mtf.Ranks, Mtf.IndexOf, Mtf.MoveToFront;
    Mtf.CoversSize(order, sel);
    if |sel| == 0 {
      NoSelectors(order, sel, tail);
    } else {
      FirstSelector(order, sel, tail);
      var r := Mtf.IndexOf(order, sel[0]);
      var order' := Mtf.MoveToFront(order, r);
      ReadUnaryBits(r, 0, |order|, UnaryAll(Mtf.Ranks(order', sel[1..])) + tail);
      ReadSelectorBits(order', sel[1..], g + 1, tail);
      assert [sel[0]] + sel[1..] == sel;
    }
  }

  lemma NoSelectors(order: seq<byte>, sel: seq<byte>, tail: bits)
    requires |order| <= 256 && |sel| == 0
    ensures UnaryAll(Mtf.Ranks(order, sel)) + tail == tail
  {}

  lemma FirstSelector(order: seq<byte>, sel: seq<byte>, tail: bits)
    requires Mtf.Covers(order, sel) && |sel| > 0
    ensures |order| <= 256 && sel[0] in order
    ensures Mtf.Covers(Mtf.MoveToFront(order, Mtf.IndexOf(order, sel[0])), sel[1..])
    ensures var r := Mtf.IndexOf(order, sel[0]);
            (UnaryAll(Mtf.Ranks(order, sel)) + tail
             == Unary(r) + (UnaryAll(Mtf.Ranks(Mtf.MoveToFront(order, r), sel[1..])) + tail))
  {
    hide Unary, Mtf.Covers, Mtf.IndexOf, Mtf.MoveToFront;
    Mtf.CoversStep(order, sel);
    var r := Mtf.IndexOf(order, sel[0]);
    var ranks, more := Mtf.Ranks(order, sel), Mtf.Ranks(Mtf.MoveToFront(order, r), sel[1..]);
    assert ranks[0] == r && ranks[1..] == more;
    Assoc(Unary(r), UnaryAll(more), tail);
  }

  // ---------- code lengths ----------

  /** Steps from one length to another, two bits a step, ended by a zero. */
  function DeltaBits(cur: nat, target: nat): bits
    decreases if cur < target then target - cur else cur - target
  {
    if cur < target then [true, false] + DeltaBits(cur + 1, target)
    else if cur > target then [true, true] + DeltaBits(cur - 1, target)
    else [false]
  }

  function DeltasFrom(cur: nat, lens: seq<nat>): bits
    decreases |lens|
  {
    if |lens| == 0 then [] else DeltaBits(cur, lens[0]) + DeltasFrom(lens[0], lens[1..])
  }

  function TableBits(lens: seq<nat>): bits
    requires |lens| > 0
  {
    BitsOf(lens[0], 5) + DeltasFrom(lens[0], lens)
  }

  /** One length: steps up stop at 20, steps down at 1. */
  function ReadLength(b: bits, cur: nat): (p: Parsed<nat>)
    ensures p.Got? ==> |p.rest| < |b|
    ensures !p.Undefined?
    decreases |b|
  {
    if |b| == 0 then Reject
    else if !b[0] then Got(cur, b[1..])
    else if |b| == 1 then Reject
    else if !b[1] then ReadLength(b[2..], if cur < 20 then cur + 1 else cur)
    else ReadLength(b[2..], if cur > 1 then cur - 1 else cur)
  }

  function ReadLengths(b: bits, cur: nat, count: nat): (p: Parsed<seq<nat>>)
    ensures p.Got? ==> |p.value| == count && |p.rest| <= |b|
    ensures !p.Undefined?
    decreases count
  {
    if count == 0 then Got([], b)
    else match ReadLength(b, cur)
      case Got(l, rest) =>
        (match ReadLengths(rest, l, count - 1)
          case Got(s, rest') => Got([l] + s, rest')
          case _ => Reject)
      case _ => Reject
  }

  /** The lengths of one table. */
  function ReadTableLengths(b: bits, alphaSize: nat): (p: Parsed<seq<nat>>)
    ensures p.Got? ==> |p.value| == alphaSize && |p.rest| <= |b|
    ensures !p.Undefined?
  {
    match ReadNumber(b, 5)
    case Got(cur, rest) => ReadLengths(rest, cur, alphaSize)
    case _ => Reject
  }

  /** One table; lengths that its builder cannot digest have no defined outcome. */
  function ReadTable(b: bits, alphaSize: nat): (p: Parsed<seq<nat>>)
    ensures p.Got? ==> |p.value| == alphaSize && Usable(p.value) && |p.rest| <= |b|
  {
    match ReadTableLengths(b, alphaSize)
    case Got(lens, rest) => if Usable(lens) then Got(lens, rest) else Undefined
    case _ => Reject
  }

  function ReadTables(b: bits, alphaSize: nat, count: nat): (p: Parsed<seq<seq<nat>>>)
    ensures p.Got? ==> |p.value| == count && |p.rest| <= |b| && forall t :: 0 <= t < count ==> Usable(p.value[t])
    decreases count
  {
    if count == 0 then Got([], b)
    else match ReadTable(b, alphaSize)
      case Got(lens, rest) =>
        (match ReadTables(rest, alphaSize, count - 1)
          case Got(ts, rest') => Got([lens] + ts, rest')
          case other => other)
      case Reject => Reject
      case Undefined => Undefined
  }

  function TablesBits(tables: seq<seq<nat>>): bits
    requires forall t :: 0 <= t < |tables| ==> |tables[t]| > 0
  {
    if |tables| == 0 then [] else TableBits(tables[0]) + TablesBits(tables[1..])
  }

  /** The lengths that an encoder writes: 1 to 20. */
  ghost predicate Writable(lens: seq<nat>) {
    forall s :: 0 <= s < |lens| ==> 1 <= lens[s] <= 20
  }

  lemma {:induction false} ReadDelta(cur: nat, target: nat, tail: bits)
    requires 1 <= cur <= 20 && 1 <= target <= 20
    ensures ReadLength(DeltaBits(cur, target) + tail, cur) == Got(target, tail)
    decreases if cur < target then target - cur else cur - target
  {
    var b := DeltaBits(cur, target) + tail;
    if cur < target {
      assert b[2..] == DeltaBits(cur + 1, target) + tail;
      ReadDelta(cur + 1, target, tail);
    } else if cur > target {
      assert b[2..] == DeltaBits(cur - 1, target) + tail;
      ReadDelta(cur - 1, target, tail);
    } else {
      assert b[1..] == tail;
    }
  }

  lemma {:induction false} ReadDeltas(cur: nat, lens: seq<nat>, tail: bits)
    requires 1 <= cur <= 20 && Writable(lens)
    ensures ReadLengths(DeltasFrom(cur, lens) + tail, cur, |lens|) == Got(lens, tail)
    decreases |lens|
  {
    if |lens| == 0 {
      assert DeltasFrom(cur, lens) + tail == tail;
    } else {
      var more := DeltasFrom(lens[0], lens[1..]) + tail;
      assert DeltasFrom(cur, lens) + tail == DeltaBits(cur, lens[0]) + more;
      ReadDelta(cur, lens[0], more);
      ReadDeltas(lens[0], lens[1..], tail);
      assert [lens[0]] + lens[1..] == lens;
    }
  }

  lemma ReadTableBits(lens: seq<nat>, tail: bits)
    requires Writable(lens) && Usable(lens) && |lens| > 0
    ensures ReadTable(TableBits(lens) + tail, |lens|) == Got(lens, tail)
  {
    var more := DeltasFrom(lens[0], lens) + tail;
    Pow2Values();
    ReadField(lens[0], 5, more);
    assert TableBits(lens) + tail == BitsOf(lens[0], 5) + more;
    ReadDeltas(lens[0], lens, tail);
  }

  ghost predicate WritableTables(tables: seq<seq<nat>>, alphaSize: nat) {
    forall t :: 0 <= t < |tables| ==> Writable(tables[t]) && Usable(tables[t]) && |tables[t]| == alphaSize
  }

  lemma {:induction false} ReadTablesBits(tables: seq<seq<nat>>, alphaSize: nat, tail: bits)
    requires alphaSize > 0 && WritableTables(tables, alphaSize)
    ensures ReadTables(TablesBits(tables) + tail, alphaSize, |tables|) == Got(tables, tail)
    decreases |tables|
  {
    if |tables| == 0 {
      assert TablesBits(tables) + tail == tail;
    } else {
      ReadTablesBits(tables[1..], alphaSize, tail);
      ReadFirstTable(tables, alphaSize, tail);
    }
  }

  lemma ReadFirstTable(tables: seq<seq<nat>>, alphaSize: nat, tail: bits)
    requires alphaSize > 0 && WritableTables(tables, alphaSize) && |tables| > 0
    requires ReadTables(TablesBits(tables[1..]) + tail, alphaSize, |tables[1..]|) == Got(tables[1..], tail)
    ensures ReadTables(TablesBits(tables) + tail, alphaSize, |tables|) == Got(tables, tail)
  {
    hide TableBits, ReadTable, Usable;
    var more := TablesBits(tables[1..]) + tail;
    Assoc(TableBits(tables[0]), TablesBits(tables[1..]), tail);
    ReadTableBits(tables[0], more);
    assert [tables[0]] + tables[1..] == tables;
  }
}
