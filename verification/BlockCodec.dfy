/** One whole block: its bits, the plain parser for it, and the round trip. */
module BlockCodec {
  import opened Bits
  import Crc
  import opened Canonical
  import Rle1
  import opened Rle2
  import opened BwtInverse
  import opened BlockFormat
  import opened BlockSymbols

  // ---------- writing ----------

  /** Everything that is written for one block. */
  datatype Block = Block(crc: Crc.word, primary: nat, inUse: seq<bool>, tables: seq<lengths>, selectors: seq<byte>,
                         syms: seq<nat>)

  /** The fields are in range and every symbol can be coded. */
  ghost predicate WellFormed(b: Block) {
    && |b.inUse| == 256 && |Used(b.inUse)| > 0 && b.primary < 0x1000000
    && 2 <= |b.tables| <= 6 && WritableTables(b.tables, |Used(b.inUse)| + 2)
    && 0 < |b.selectors| <= 18002 && Mtf.Covers(FirstTables(|b.tables|), b.selectors)
    && Codable(b.tables, b.selectors, b.syms)
  }

  /** Every symbol of the block is written with a code that fits its length. */
  ghost predicate Clean(b: Block) {
    CodesFit(b.tables, b.selectors, b.syms)
  }

  function SelectorBits(tables: nat, selectors: seq<byte>): bits
    requires tables <= 256 && Mtf.Covers(FirstTables(tables), selectors)
  {
    UnaryAll(Mtf.Ranks(FirstTables(tables), selectors))
  }

  /** The bits of a block after its magic number. */
  function BlockBits(b: Block): bits
    requires WellFormed(b)
  {
    b.crc + [false] + BitsOf(b.primary, 24) + InUseBits(b.inUse) + BitsOf(|b.tables|, 3) + BitsOf(|b.selectors|, 15)
    + SelectorBits(|b.tables|, b.selectors) + TablesBits(b.tables) + SymbolBits(b.tables, b.selectors, b.syms, 0)
  }

  // ---------- reading ----------

  /** What one block decodes to. */
  datatype Decoded = Decoded(data: seq<byte>, crc: Crc.word)

  /** The last stage: invert the transform, undo the runs, and check room and checksum. */
  ghost function Finish(column: seq<byte>, primary: nat, crc: Crc.word, room: nat, rest: bits): (p: Parsed<Decoded>)
    ensures p.Got? ==> p.rest == rest && |p.value.data| <= room
  {
    if primary >= |column| then Reject
    else match Rle1.Decode(Unbwt(column, primary), 0, 0)
      case None => Reject
      case Some(data) =>
        if |data| > room || Crc.Checksum(data) != crc then Reject else Got(Decoded(data, crc), rest)
  }

  ghost function ReadPayload(crc: Crc.word, primary: nat, inUse: seq<bool>, tables: seq<lengths>, selectors: seq<byte>,
                             room: nat, b: bits): (p: Parsed<Decoded>)
    requires |inUse| == 256 && |Used(inUse)| > 0 && Named(selectors, |tables|)
    ensures p.Got? ==> |p.rest| <= |b| && |p.value.data| <= room
  {
    if |selectors| == 0 then Parsed.Undefined
    else match ReadSymbols(tables, selectors, 0, 50, Start(Used(inUse)), b)
      case Got(column, rest) => Finish(column, primary, crc, room, rest)
      case Reject => Reject
      case Undefined => Parsed.Undefined
  }

  lemma {:induction false} SelectorsInRange(order: seq<byte>, g: nat, count: nat, b: bits, n: nat)
    requires 0 < |order| && g <= count && forall c :: c in order ==> c < n
    ensures var s := ReadSelectors(order, g, count, b);
            s.Got? ==> Named(s.value, n)
    decreases count - g
  {
    var one := ReadUnary(b, 0, |order|);
    if g < count && one.Got? {
      var pos := one.value;
      Mtf.MoveKeepsElements(order, pos);
      var order' := Mtf.MoveToFront(order, pos);
      SelectorsInRange(order', g + 1, count, one.rest, n);
      var all, more := ReadSelectors(order, g, count, b), ReadSelectors(order', g + 1, count, one.rest);
      if all.Got? {
        assert more.Got? && all.value == [order[pos]] + more.value;
        assert order[pos] in order;
      }
    }
  }

  ghost function ReadCoding(crc: Crc.word, primary: nat, inUse: seq<bool>, nTables: nat, nSelectors: nat, room: nat,
                            b: bits): (p: Parsed<Decoded>)
    requires |inUse| == 256 && |Used(inUse)| > 0
    ensures p.Got? ==> |p.rest| <= |b| && |p.value.data| <= room
  {
    if nTables < 2 || nTables > 6 then Reject
    else match ReadSelectors(FirstTables(nTables), 0, nSelectors, b)
      case Reject => Reject
      case Undefined => Parsed.Undefined
      case Got(selectors, b') =>
        SelectorsInRange(FirstTables(nTables), 0, nSelectors, b, nTables);
        match ReadTables(b', |Used(inUse)| + 2, nTables)
        case Got(tables, b'') => ReadPayload(crc, primary, inUse, tables, selectors, room, b'')
        case Reject => Reject
        case Undefined => Parsed.Undefined
  }

  ghost function ReadCounts(crc: Crc.word, primary: nat, inUse: seq<bool>, room: nat, b: bits): (p: Parsed<Decoded>)
    requires |inUse| == 256
    ensures p.Got? ==> |p.rest| <= |b| && |p.value.data| <= room
  {
    if |Used(inUse)| == 0 then Reject
    else match ReadNumber(b, 3)
      case Got(nTables, b') =>
        (match ReadNumber(b', 15)
          case Got(nSelectors, b'') => ReadCoding(crc, primary, inUse, nTables, nSelectors, room, b'')
          case other => Reject)
      case other => Reject
  }

  /** The block after its magic number, with room for that many more bytes. */
  ghost function ReadBlock(b: bits, room: nat): (p: Parsed<Decoded>)
    ensures p.Got? ==> |p.rest| < |b| && |p.value.data| <= room
  {
    if |b| < 33 || b[32] then Reject
    else match ReadNumber(b[33..], 24)
      case Got(primary, b') =>
        (match ReadInUse(b')
          case Got(inUse, b'') => ReadCounts(b[..32], primary, inUse, room, b'')
          case other => Reject)
      case other => Reject
  }

  // ---------- the round trip ----------

  /** The block codes these bytes: the stages of the encoder, any sorted list of rotations and any tables. */
  ghost predicate Codes(b: Block, data: seq<byte>, column: seq<byte>) {
    && WellFormed(b)
    && b.crc == Crc.Checksum(data)
    && IsBwt(Rle1.Encode(data), column, b.primary)
    && Mtf.Covers(Used(b.inUse), column)
    && b.syms == Rle2.Encode(Mtf.Ranks(Used(b.inUse), column), |Used(b.inUse)|)
  }

  /** Only the last symbol ends the block, so the parser starts well. */
  lemma StartsAt(b: Block, data: seq<byte>, column: seq<byte>)
    requires Codes(b, data, column)
    ensures At(b.tables, b.selectors, b.syms, 0, 0, 50, |Used(b.inUse)| + 1)
  {
    var list := Used(b.inUse);
    var ranks := Mtf.Ranks(list, column);
    Mtf.RanksBound(list, column);
    SymbolsInAlphabet(ranks, 0, |list|);
  }

  /** Reading back the symbols of a block. */
  lemma ReadColumnBits(b: Block, data: seq<byte>, column: seq<byte>, tail: bits)
    requires Codes(b, data, column) && |column| < 0x1_0000_0000 / 2
    ensures ReadSymbols(b.tables, b.selectors, 0, 50, Start(Used(b.inUse)),
                        SymbolBits(b.tables, b.selectors, b.syms, 0) + tail)
         == if |column| <= 900001 then Got(column, tail) else Reject
  {
    var list := Used(b.inUse);
    StartsAt(b, data, column);
    RunEncode(list, column);
    assert b.syms[0..] == b.syms;
    ReadSymbolBits(b.tables, b.selectors, b.syms, 0, 0, 50, Start(list), tail);
  }

  /** Undoing the transform and the runs. */
  lemma FinishCodes(b: Block, data: seq<byte>, column: seq<byte>, room: nat, rest: bits)
    requires Codes(b, data, column)
    ensures Finish(column, b.primary, b.crc, room, rest)
         == if |data| <= room then Got(Decoded(data, b.crc), rest) else Reject
  {
    UnbwtRestores(Rle1.Encode(data), column, b.primary);
    Rle1.DecodeEncode(data);
  }

  /** The bits from the number of tables on. */
  ghost function CountBits(b: Block, tail: bits): bits
    requires WellFormed(b)
  {
    BitsOf(|b.tables|, 3) + (BitsOf(|b.selectors|, 15) + (SelectorBits(|b.tables|, b.selectors) + PayloadBits(b, tail)))
  }

  ghost function PayloadBits(b: Block, tail: bits): bits
    requires WellFormed(b)
  {
    TablesBits(b.tables) + (SymbolBits(b.tables, b.selectors, b.syms, 0) + tail)
  }

  /** The fixed-width fields in front of the code tables. */
  lemma ReadHead(b: Block, tail: bits)
    requires WellFormed(b)
    ensures BlockBits(b) + tail == b.crc + [false] + (BitsOf(b.primary, 24) + (InUseBits(b.inUse) + CountBits(b, tail)))
  {
    var n := |b.tables|;
    var a1, a2, a3, a4, a5 := b.crc + [false], BitsOf(b.primary, 24), InUseBits(b.inUse), BitsOf(n, 3),
        BitsOf(|b.selectors|, 15);
    var a6, a7, a8 := SelectorBits(n, b.selectors), TablesBits(b.tables), SymbolBits(b.tables, b.selectors, b.syms, 0);
    hide *;
    EightParts(a1, a2, a3, a4, a5, a6, a7, a8, tail);
  }

  lemma EightParts(a: bits, b: bits, c: bits, d: bits, e: bits, f: bits, g: bits, h: bits, t: bits)
    ensures a + b + c + d + e + f + g + h + t == a + (b + (c + (d + (e + (f + (g + (h + t)))))))
  {
    Assoc(g, h, t);
    Assoc(f, g + h, t);
    Assoc(f, g, h);
  }

  /** What a block that was written reads back as. */
  ghost function Expected(b: Block, data: seq<byte>, room: nat, tail: bits): Parsed<Decoded> {
    if |Rle1.Encode(data)| <= 900001 && |data| <= room then Got(Decoded(data, b.crc), tail) else Reject
  }

  lemma ReadPayloadBits(b: Block, data: seq<byte>, column: seq<byte>, room: nat, tail: bits)
    requires Codes(b, data, column) && |Rle1.Encode(data)| < 0x1_0000_0000 / 2
    ensures ReadPayload(b.crc, b.primary, b.inUse, b.tables, b.selectors, room,
                        SymbolBits(b.tables, b.selectors, b.syms, 0) + tail)
         == Expected(b, data, room, tail)
  {
    UnbwtRestores(Rle1.Encode(data), column, b.primary);
    ReadColumnBits(b, data, column, tail);
    FinishCodes(b, data, column, room, tail);
  }

  lemma SelectorsRead(b: Block, tail: bits)
    requires WellFormed(b)
    ensures ReadSelectors(FirstTables(|b.tables|), 0, |b.selectors|,
                          SelectorBits(|b.tables|, b.selectors) + PayloadBits(b, tail))
         == Got(b.selectors, PayloadBits(b, tail))
  {
    ReadSelectorBits(FirstTables(|b.tables|), b.selectors, 0, PayloadBits(b, tail));
  }

  lemma ReadCodingBits(b: Block, room: nat, tail: bits)
    requires WellFormed(b)
    ensures ReadCoding(b.crc, b.primary, b.inUse, |b.tables|, |b.selectors|, room,
                       SelectorBits(|b.tables|, b.selectors) + PayloadBits(b, tail))
         == ReadPayload(b.crc, b.primary, b.inUse, b.tables, b.selectors, room,
                        SymbolBits(b.tables, b.selectors, b.syms, 0) + tail)
  {
    var more := SymbolBits(b.tables, b.selectors, b.syms, 0) + tail;
    var coded := SelectorBits(|b.tables|, b.selectors) + PayloadBits(b, tail);
    SelectorsRead(b, tail);
    ReadTablesBits(b.tables, |Used(b.inUse)| + 2, more);
    hide SelectorBits, ReadSelectors, ReadTables, SymbolBits, ReadPayload, WritableTables, Mtf.Covers,
      Codable, TablesBits;
  }

  lemma ReadCountBits(b: Block, room: nat, tail: bits)
    requires WellFormed(b)
    ensures ReadCounts(b.crc, b.primary, b.inUse, room, CountBits(b, tail))
         == ReadCoding(b.crc, b.primary, b.inUse, |b.tables|, |b.selectors|, room,
                       SelectorBits(|b.tables|, b.selectors) + PayloadBits(b, tail))
  {
    hide SelectorBits, PayloadBits, ReadCoding, ReadNumber, BitsOf, Pow2, Mtf.Covers, Codable, WritableTables;
    Pow2Values();
    var more := SelectorBits(|b.tables|, b.selectors) + PayloadBits(b, tail);
    ReadField(|b.tables|, 3, BitsOf(|b.selectors|, 15) + more);
    ReadField(|b.selectors|, 15, more);
  }

  lemma HeadSplit(b: Block, more: bits)
    ensures var all := b.crc + [false] + more; |all| >= 33 && all[..32] == b.crc && !all[32] && all[33..] == more
  {}

  lemma ReadHeadBits(b: Block, room: nat, tail: bits)
    requires WellFormed(b)
    ensures ReadBlock(BlockBits(b) + tail, room) == ReadCounts(b.crc, b.primary, b.inUse, room, CountBits(b, tail))
  {
    hide BlockBits, CountBits, InUseBits, ReadInUse, ReadCounts, ReadNumber, BitsOf, Pow2;
    ReadHead(b, tail);
    var more := InUseBits(b.inUse) + CountBits(b, tail);
    HeadSplit(b, BitsOf(b.primary, 24) + more);
    Pow2Values();
    ReadField(b.primary, 24, more);
    ReadInUseBits(b.inUse, CountBits(b, tail));
  }

  /** Reading a written block back: its bytes, unless it is too long for the decoder or for the room left. */
  lemma ReadBlockBits(b: Block, data: seq<byte>, column: seq<byte>, room: nat, tail: bits)
    requires Codes(b, data, column) && |Rle1.Encode(data)| < 0x1_0000_0000 / 2
    ensures ReadBlock(BlockBits(b) + tail, room)
         == if |Rle1.Encode(data)| <= 900001 && |data| <= room then Got(Decoded(data, b.crc), tail) else Reject
  {
    ReadHeadBits(b, room, tail);
    ReadCountBits(b, room, tail);
    ReadCodingBits(b, room, tail);
    ReadPayloadBits(b, data, column, room, tail);
  }
}
