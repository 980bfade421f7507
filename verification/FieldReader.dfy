/** How the fields of a block are read back. Each method answers what the plain parser of that field answers. */
module FieldReader {
  import opened Bits
  import opened BitIo
  import opened Canonical
  import opened DecodeTable
  import opened BlockFormat
  import opened BlockColumn
  import FieldWriter
  import Crc
  import Mtf

  /** A number of at most 24 bits, or NO_BITS. */
  method ReadNum(br: Reader, n: nat) returns (v: nat)
    requires br.Valid() && n <= 24
    modifies br
    ensures br.Valid()
    ensures match ReadNumber(old(br.Rest()), n)
            case Got(x, rest) => v == x < Pow2(n) && v != NO_BITS && br.Rest() == rest
            case _ => v == NO_BITS
  {
    Pow2Values();
    Pow2Mono(n, 24);
    v := br.ReadBits(n);
  }

  /** A checksum from its two halves. */
  method ReadWord(br: Reader) returns (ok: bool, crc: Crc.word)
    requires br.Valid()
    modifies br
    ensures br.Valid() && (ok <==> |old(br.Rest())| >= 32)
    ensures ok ==> crc == old(br.Rest())[..32] && br.Rest() == old(br.Rest())[32..]
  {
    hide BitsOf, BytesBits, ValueOf, Pow2;
    ghost var all := br.Rest();
    var hi := ReadNum(br, 16);
    ghost var mid := br.Rest();
    var lo := ReadNum(br, 16);
    crc := Zeros(32);
    if hi == NO_BITS || lo == NO_BITS { return false, crc; }
    crc := BitsOf(hi, 16) + BitsOf(lo, 16);
    BitsOfValueOf(all[..16]);
    BitsOfValueOf(mid[..16]);
    assert all[..16] + mid[..16] == all[..32] && mid[16..] == all[32..];
    ok := true;
  }

  // ---------- the map of bytes in use ----------

  /** Pages read already, in front of what the parser says about the others. */
  function Pages(done: seq<bool>, more: Parsed<seq<bool>>): Parsed<seq<bool>> {
    match more
    case Got(s, rest) => Got(done + s, rest)
    case other => other
  }

  lemma PagesStep(done: seq<bool>, coarse: bits, i: nat, b: bits)
    requires |coarse| == 16 && i < 16
    ensures !coarse[i] ==>
              Pages(done, ReadPages(coarse, i, b)) == Pages(done + Zeros(16), ReadPages(coarse, i + 1, b))
    ensures coarse[i] && |b| >= 16 ==>
              Pages(done, ReadPages(coarse, i, b)) == Pages(done + b[..16], ReadPages(coarse, i + 1, b[16..]))
    ensures coarse[i] && |b| < 16 ==> Pages(done, ReadPages(coarse, i, b)) == Reject
  {
    var page, rest := if coarse[i] && |b| >= 16 then b[..16] else Zeros(16),
        if coarse[i] && |b| >= 16 then b[16..] else b;
    var more := ReadPages(coarse, i + 1, rest);
    if more.Got? { Assoc(done, page, more.value); }
  }

  /** Spreads sixteen flags over one page. */
  method SpreadPage(fine: nat, ghost page: bits, i: nat, inUse: array<bool>)
    requires inUse.Length == 256 && i < 16 && |page| == 16 && fine == ValueOf(page)
    requires forall k :: 16 * i <= k < 256 ==> !inUse[k]
    modifies inUse
    ensures inUse[..16 * i + 16] == old(inUse[..16 * i]) + page
    ensures forall k :: 16 * i + 16 <= k < 256 ==> !inUse[k]
  {
    for j := 0 to 16
      invariant forall k :: 0 <= k < 16 * i ==> inUse[k] == old(inUse[k])
      invariant forall k :: 16 * i <= k < 16 * i + j ==> inUse[k] == page[k - 16 * i]
      invariant forall k :: 16 * i + j <= k < 256 ==> !inUse[k]
    {
      FieldWriter.FlagTest(page, j);
      if fine / Pow2(15 - j) % 2 == 1 { inUse[i * 16 + j] := true; }
    }
  }

  method ReadUsed(br: Reader) returns (ok: bool, inUse: array<bool>)
    requires br.Valid()
    modifies br
    ensures br.Valid() && fresh(inUse) && inUse.Length == 256
    ensures match ReadInUse(old(br.Rest()))
            case Got(used, rest) => ok && inUse[..] == used && br.Rest() == rest
            case _ => !ok
  {
    hide BitsOf, BytesBits, ValueOf, Pow2, ReadPages;
    inUse := new bool[256](_ => false);
    ghost var b := br.Rest();
    var coarse := ReadNum(br, 16);
    if coarse == NO_BITS { return false, inUse; }
    ghost var flags := b[..16];
    ghost var goal := ReadInUse(b);
    FirstPages(flags, br.Rest());
    assert inUse[..0] == [];
    for i := 0 to 16
      invariant br.Valid()
      invariant Pages(inUse[..16 * i], ReadPages(flags, i, br.Rest())) == goal
      invariant forall k :: 16 * i <= k < 256 ==> !inUse[k]
    {
      ghost var done, rest := inUse[..16 * i], br.Rest();
      PagesStep(done, flags, i, rest);
      FieldWriter.FlagTest(flags, i);
      assert inUse[..16 * i + 16] == done + Zeros(16);
      if coarse / Pow2(15 - i) % 2 == 1 {
        var fine := ReadNum(br, 16);
        if fine == NO_BITS { return false, inUse; }
        SpreadPage(fine, rest[..16], i, inUse);
      }
    }
    LastPages(inUse[..], flags, br.Rest());
    assert inUse[..] == inUse[..256];
    ok := true;
  }

  lemma FirstPages(coarse: bits, b: bits)
    requires |coarse| == 16
    ensures Pages([], ReadPages(coarse, 0, b)) == ReadPages(coarse, 0, b)
  {
    var p := ReadPages(coarse, 0, b);
    if p.Got? { assert [] + p.value == p.value; }
  }

  lemma LastPages(done: seq<bool>, coarse: bits, b: bits)
    requires |coarse| == 16
    ensures Pages(done, ReadPages(coarse, 16, b)) == Got(done, b)
  {
    assert done + [] == done;
  }

  // ---------- selectors ----------

  /** Ones up to the next zero. */
  method ReadRank(br: Reader, limit: nat) returns (ok: bool, pos: nat)
    requires br.Valid() && 0 < limit
    modifies br
    ensures br.Valid()
    ensures match ReadUnary(old(br.Rest()), 0, limit)
            case Got(x, rest) => ok && pos == x < limit && br.Rest() == rest
            case _ => !ok
  {
    hide BitsOf, BytesBits, Pow2;
    ghost var goal := ReadUnary(br.Rest(), 0, limit);
    pos := 0;
    while true
      invariant br.Valid() && pos < limit && ReadUnary(br.Rest(), pos, limit) == goal
      decreases |br.Rest()|
    {
      var bit := ReadBit(br);
      if bit == NO_BITS { return false, pos; }
      if bit == 0 { return true, pos; }
      pos := pos + 1;
      if pos >= limit { return false, pos; }
    }
  }

  method ReadBit(br: Reader) returns (bit: nat)
    requires br.Valid()
    modifies br
    ensures br.Valid()
    ensures old(br.Rest()) == [] ==> bit == NO_BITS
    ensures old(br.Rest()) != [] ==> bit == (if old(br.Rest())[0] then 1 else 0) && br.Rest() == old(br.Rest())[1..]
  {
    ghost var b := br.Rest();
    bit := br.ReadBits(1);
    if b != [] { OneBit(b); }
  }

  lemma OneBit(b: bits)
    requires b != []
    ensures ValueOf(b[..1]) == if b[0] then 1 else 0
  {
    assert b[..1] == [b[0]];
  }

  function Selected(done: seq<byte>, more: Parsed<seq<byte>>): Parsed<seq<byte>> {
    match more
    case Got(s, rest) => Got(done + s, rest)
    case other => other
  }

  lemma SelectedStep(done: seq<byte>, order: seq<byte>, g: nat, count: nat, b: bits)
    requires 0 < |order| && g < count
    ensures var now, one := Selected(done, ReadSelectors(order, g, count, b)), ReadUnary(b, 0, |order|);
            && (!one.Got? ==> !now.Got? && !now.Undefined?)
            && (one.Got? && g >= 18002 ==> now == Undefined)
            && (one.Got? && g < 18002 ==>
                 now == Selected(done + [order[one.value]],
                                 ReadSelectors(Mtf.MoveToFront(order, one.value), g + 1, count, one.rest)))
  {
    var one := ReadUnary(b, 0, |order|);
    if one.Got? && g < 18002 {
      var more := ReadSelectors(Mtf.MoveToFront(order, one.value), g + 1, count, one.rest);
      if more.Got? { Assoc(done, [order[one.value]], more.value); }
    }
  }

  lemma SelectedEnds(done: seq<byte>, order: seq<byte>, count: nat, b: bits)
    requires 0 < |order|
    ensures Selected(done, ReadSelectors(order, count, count, b)) == Got(done, b)
    ensures Selected([], ReadSelectors(order, 0, count, b)) == ReadSelectors(order, 0, count, b)
  {
    assert done + [] == done;
    var p := ReadSelectors(order, 0, count, b);
    if p.Got? { assert [] + p.value == p.value; }
  }

  /** The selectors, each as a place in a recency list of the tables. */
  method ReadTableChoices(br: Reader, nTables: nat, nSelectors: nat) returns (s: Status, selectors: array<byte>)
    requires br.Valid() && 2 <= nTables <= 6
    modifies br
    ensures br.Valid() && fresh(selectors) && selectors.Length == 18002
    ensures match ReadSelectors(FirstTables(nTables), 0, nSelectors, old(br.Rest()))
            case Got(sel, rest) =>
              s == Done && nSelectors <= 18002 && selectors[..nSelectors] == sel && br.Rest() == rest
            case Reject => s == Failed
            case Undefined => s == Lost
  {
    hide ReadSelectors, BitsOf, BytesBits, ReadUnary, Mtf.MoveToFront, FirstTables;
    ghost var b := br.Rest();
    selectors := new byte[MAX_SELECTORS];
    var order := FirstTables(nTables);
    ghost var goal := ReadSelectors(order, 0, nSelectors, b);
    SelectedEnds([], order, nSelectors, b);
    assert selectors[..0] == [];
    for g := 0 to nSelectors
      invariant br.Valid() && |order| == nTables && g <= 18002
      invariant Selected(selectors[..g], ReadSelectors(order, g, nSelectors, br.Rest())) == goal
    {
      SelectedStep(selectors[..g], order, g, nSelectors, br.Rest());
      var ok, pos := ReadRank(br, nTables);
      if !ok { return Failed, selectors; }
      if g >= MAX_SELECTORS { return Lost, selectors; }
      var tbl := order[pos];
      order := Mtf.MoveToFront(order, pos);
      ghost var done := selectors[..g];
      selectors[g] := tbl;
      assert selectors[..g + 1] == done + [tbl];
    }
    SelectedEnds(selectors[..nSelectors], order, nSelectors, br.Rest());
    s := Done;
  }

  // ---------- code lengths ----------

  /** One length, by steps from the one before. */
  method ReadStep(br: Reader, start: nat) returns (ok: bool, cur: nat)
    requires br.Valid()
    modifies br
    ensures br.Valid()
    ensures match ReadLength(old(br.Rest()), start)
            case Got(x, rest) => ok && cur == x && br.Rest() == rest
            case _ => !ok
  {
    hide BitsOf, BytesBits, Pow2;
    ghost var goal := ReadLength(br.Rest(), start);
    cur := start;
    while true
      invariant br.Valid() && ReadLength(br.Rest(), cur) == goal
      decreases |br.Rest()|
    {
      ghost var b := br.Rest();
      var more := ReadBit(br);
      if more == NO_BITS { return false, cur; }
      if more == 0 { return true, cur; }
      var dir := ReadBit(br);
      if dir == NO_BITS { return false, cur; }
      assert b[1..][1..] == b[2..];
      if dir == 0 {
        if cur < 20 { cur := cur + 1; }
      } else {
        if cur > 1 { cur := cur - 1; }
      }
    }
  }

  function Measured(done: seq<nat>, more: Parsed<seq<nat>>): Parsed<seq<nat>> {
    match more
    case Got(s, rest) => Got(done + s, rest)
    case other => other
  }

  lemma MeasuredStep(done: seq<nat>, b: bits, cur: nat, count: nat)
    requires count > 0
    ensures var now, one := Measured(done, ReadLengths(b, cur, count)), ReadLength(b, cur);
            && (!one.Got? ==> now.Reject?)
            && (one.Got? ==> now == Measured(done + [one.value], ReadLengths(one.rest, one.value, count - 1)))
  {
    var one := ReadLength(b, cur);
    if one.Got? {
      var more := ReadLengths(one.rest, one.value, count - 1);
      if more.Got? { Assoc(done, [one.value], more.value); }
    }
  }

  lemma MeasuredEnds(done: seq<nat>, b: bits, cur: nat, count: nat)
    ensures Measured(done, ReadLengths(b, cur, 0)) == Got(done, b)
    ensures Measured([], ReadLengths(b, cur, count)) == ReadLengths(b, cur, count)
  {
    assert done + [] == done;
    var p := ReadLengths(b, cur, count);
    if p.Got? { assert [] + p.value == p.value; }
  }

  /** The lengths of one table. */
  method ReadCodeLengths(br: Reader, alphaSize: nat) returns (ok: bool, lens: seq<nat>)
    requires br.Valid()
    modifies br
    ensures br.Valid()
    ensures match ReadTableLengths(old(br.Rest()), alphaSize)
            case Got(ls, rest) => ok && lens == ls && br.Rest() == rest
            case _ => !ok
  {
    hide BitsOf, BytesBits, Pow2, ReadLengths, ReadLength;
    lens := [];
    var cur := ReadNum(br, 5);
    if cur == NO_BITS { return false, lens; }
    ghost var goal := ReadLengths(br.Rest(), cur, alphaSize);
    MeasuredEnds([], br.Rest(), cur, alphaSize);
    for s := 0 to alphaSize
      invariant br.Valid() && Measured(lens, ReadLengths(br.Rest(), cur, alphaSize - s)) == goal
    {
      MeasuredStep(lens, br.Rest(), cur, alphaSize - s);
      ok, cur := ReadStep(br, cur);
      if !ok { return; }
      lens := lens + [cur];
    }
    MeasuredEnds(lens, br.Rest(), cur, 0);
    ok := true;
  }

  function Collected(done: seq<lengths>, more: Parsed<seq<lengths>>): Parsed<seq<lengths>> {
    match more
    case Got(s, rest) => Got(done + s, rest)
    case other => other
  }

  lemma CollectedStep(done: seq<lengths>, b: bits, alphaSize: nat, count: nat)
    requires count > 0
    ensures var now, one := Collected(done, ReadTables(b, alphaSize, count)), ReadTable(b, alphaSize);
            && (one.Reject? ==> now.Reject?)
            && (one.Undefined? ==> now.Undefined?)
            && (one.Got? ==> now == Collected(done + [one.value], ReadTables(one.rest, alphaSize, count - 1)))
  {
    var one := ReadTable(b, alphaSize);
    if one.Got? {
      var more := ReadTables(one.rest, alphaSize, count - 1);
      if more.Got? { Assoc(done, [one.value], more.value); }
    }
  }

  lemma CollectedEnds(done: seq<lengths>, b: bits, alphaSize: nat, count: nat)
    ensures Collected(done, ReadTables(b, alphaSize, 0)) == Got(done, b)
    ensures Collected([], ReadTables(b, alphaSize, count)) == ReadTables(b, alphaSize, count)
  {
    assert done + [] == done;
    var p := ReadTables(b, alphaSize, count);
    if p.Got? { assert [] + p.value == p.value; }
  }

  lemma OneTable(b: bits, alphaSize: nat)
    ensures match ReadTableLengths(b, alphaSize)
            case Got(ls, rest) => ReadTable(b, alphaSize) == if Usable(ls) then Got(ls, rest) else Undefined
            case _ => ReadTable(b, alphaSize).Reject?
  {}

  lemma AddTable(tabs: seq<Table>, lens: seq<lengths>, t: Table, ls: lengths)
    requires Ready(tabs, lens) && t.Valid() && t.lens == ls
    ensures Ready(tabs + [t], lens + [ls])
    ensures Parts(tabs + [t]) == Parts(tabs) + t.Repr
  {
    hide Usable, Bounds, ListedUpTo, FastTable;
    var all := tabs + [t];
    forall o | o in Parts(tabs) + t.Repr ensures o in Parts(all) {
      if o in t.Repr {
        assert all[|tabs|] == t;
      } else {
        var k :| 0 <= k < |tabs| && o in tabs[k].Repr;
        assert all[k] == tabs[k];
      }
    }
  }

  /** All tables, built for decoding. */
  method ReadDecodeTables(br: Reader, alphaSize: nat, nTables: nat)
    returns (s: Status, tabs: seq<Table>, ghost lens: seq<lengths>)
    requires br.Valid()
    modifies br
    ensures br.Valid() && fresh(Parts(tabs))
    ensures match ReadTables(old(br.Rest()), alphaSize, nTables)
            case Got(ls, rest) => s == Done && Ready(tabs, lens) && lens == ls && br.Rest() == rest
            case Reject => s == Failed
            case Undefined => s == Lost
  {
    hide BitsOf, BytesBits, ReadTables, ReadTable, ReadTableLengths, ReadLengths, Ready, Collected, Bounds, ListedUpTo,
      FastTable, Canonical.Kraft, Canonical.MaxLength;
    tabs, lens := [], [];
    ghost var goal := ReadTables(br.Rest(), alphaSize, nTables);
    CollectedEnds([], br.Rest(), alphaSize, nTables);
    NoTables();
    for t := 0 to nTables
      invariant br.Valid() && fresh(Parts(tabs)) && Ready(tabs, lens)
      invariant Collected(lens, ReadTables(br.Rest(), alphaSize, nTables - t)) == goal
    {
      CollectedStep(lens, br.Rest(), alphaSize, nTables - t);
      OneTable(br.Rest(), alphaSize);
      var ok, ls := ReadCodeLengths(br, alphaSize);
      if !ok { return Failed, tabs, lens; }
      if !Usable(ls) { return Lost, tabs, lens; }
      var table := new Table();
      table.Build(ls);
      AddTable(tabs, lens, table, ls);
      tabs, lens := tabs + [table], lens + [ls];
    }
    CollectedEnds(lens, br.Rest(), alphaSize, 0);
    s := Done;
  }

  lemma NoTables()
    ensures Ready([], [])
  {}
}
