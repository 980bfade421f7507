/** A whole bzip2 stream: its bits, the plain parser for it, and the round trip over all its blocks. */
module Stream {
  import opened Bits
  import opened BlockFormat
  import opened BlockCodec
  import opened FieldWriter
  import opened BlockEncoder
  import Crc
  import Rle1

  const END_MAGIC: bits := Magic(0x1772, 0x4538, 0x5090)

  // ---------- writing ----------

  /** One compressed block, the bytes it was made from, and the transformed bytes in between. */
  datatype Part = Part(block: Block, data: seq<byte>, column: seq<byte>)

  ghost predicate Sound(p: Part) {
    Codes(p.block, p.data, p.column) && |Rle1.Encode(p.data)| < 0x1_0000_0000 / 2
  }

  ghost predicate AllSound(parts: seq<Part>) {
    forall i :: 0 <= i < |parts| ==> Sound(parts[i])
  }

  /** Every symbol of every block is written with a code that fits its length. */
  ghost predicate AllClean(parts: seq<Part>) {
    forall i :: 0 <= i < |parts| ==> Clean(parts[i].block)
  }

  ghost function BlocksBits(parts: seq<Part>): bits
    requires AllSound(parts)
  {
    if |parts| == 0 then [] else BLOCK_MAGIC + BlockBits(parts[0].block) + BlocksBits(parts[1..])
  }

  ghost function Joined(parts: seq<Part>): seq<byte> {
    if |parts| == 0 then [] else parts[0].data + Joined(parts[1..])
  }

  ghost function CombinedCrc(start: Crc.word, parts: seq<Part>): Crc.word
    decreases |parts|
  {
    if |parts| == 0 then start else CombinedCrc(Crc.Combine(start, parts[0].block.crc), parts[1..])
  }

  /** All blocks, the end mark and the combined checksum. */
  ghost function StreamBits(parts: seq<Part>): bits
    requires AllSound(parts)
  {
    BlocksBits(parts) + END_MAGIC + CombinedCrc(Zeros(32), parts)
  }

  /** Every block is short enough for the decoder after its run-length coding. */
  ghost predicate Decodable(parts: seq<Part>) {
    forall i :: 0 <= i < |parts| ==> |Rle1.Encode(parts[i].data)| <= 900001
  }

  // ---------- reading ----------

  /** The bytes of one block in front of those that follow. */
  ghost function After(data: seq<byte>, more: Parsed<seq<byte>>): Parsed<seq<byte>> {
    match more
    case Got(d, rest) => Got(data + d, rest)
    case Reject => Reject
    case Undefined => Undefined
  }

  /** Blocks up to the end mark, with room for that many more bytes. */
  ghost function ReadStream(b: bits, room: nat, combined: Crc.word): (p: Parsed<seq<byte>>)
    ensures p.Got? ==> |p.value| <= room
    decreases |b|
  {
    if |b| < 48 then Reject
    else if b[..48] == END_MAGIC then
      if |b| < 80 || b[48..80] != combined then Reject else Got([], b[80..])
    else if b[..48] != BLOCK_MAGIC then Reject
    else
      var one := ReadBlock(b[48..], room);
      if !one.Got? then (if one.Reject? then Reject else Undefined)
      else After(one.value.data, ReadStream(one.rest, room - |one.value.data|, Crc.Combine(combined, one.value.crc)))
  }

  /** A file: its four header bytes and the stream. Files under ten bytes are refused at once. */
  ghost function ReadFile(src: seq<byte>, room: nat): Parsed<seq<byte>> {
    if |src| < 10 then Reject
    else if src[0] != 'B' as int || src[1] != 'Z' as int || src[2] != 'h' as int then Reject
    else if src[3] < '1' as int || src[3] > '9' as int then Reject
    else ReadStream(BytesBits(src[4..]), room, Zeros(32))
  }

  // ---------- the round trip ----------

  lemma MagicsDiffer()
    ensures BLOCK_MAGIC != END_MAGIC && |BLOCK_MAGIC| == 48
  {
    Pow2Values();
    if BLOCK_MAGIC == END_MAGIC {
      assert BitsOf(0x3141, 16) == BLOCK_MAGIC[..16];
      assert BitsOf(0x1772, 16) == END_MAGIC[..16];
      ValueOfBitsOf(0x3141, 16);
      ValueOfBitsOf(0x1772, 16);
      assert false;
    }
  }

  /** What follows a block's magic number is handed to the block parser. */
  lemma ReadOneBlock(b: bits, room: nat, combined: Crc.word)
    ensures var all, one := ReadStream(BLOCK_MAGIC + b, room, combined), ReadBlock(b, room);
            && (one.Got? ==> all == After(one.value.data, ReadStream(one.rest, room - |one.value.data|,
                                                                     Crc.Combine(combined, one.value.crc))))
            && (one.Reject? ==> all == Reject)
            && (one.Undefined? ==> all == Undefined)
  {
    hide ReadBlock, BLOCK_MAGIC, END_MAGIC, Magic, Crc.Combine, After;
    MagicsDiffer();
    SplitMagic(BLOCK_MAGIC, b);
  }

  lemma SplitMagic(magic: bits, b: bits)
    requires |magic| == 48
    ensures (magic + b)[..48] == magic && (magic + b)[48..] == b
  {}

  lemma ReadEnd(crc: Crc.word, tail: bits, room: nat)
    ensures ReadStream(END_MAGIC + crc + tail, room, crc) == Got([], tail)
  {
    var all := END_MAGIC + crc + tail;
    assert all[..48] == END_MAGIC && all[48..80] == crc && all[80..] == tail;
  }

  /** Reading back a written stream: exactly the bytes that went in, unless a block outgrew the decoder or the room
      is too small. */
  lemma {:induction false} ReadBlocksBits(parts: seq<Part>, start: Crc.word, room: nat, tail: bits)
    requires AllSound(parts)
    ensures ReadStream(BlocksBits(parts) + (END_MAGIC + CombinedCrc(start, parts) + tail), room, start)
         == if Decodable(parts) && |Joined(parts)| <= room then Got(Joined(parts), tail) else Reject
    decreases |parts|
  {
    hide *;
    if |parts| == 0 {
      ReadEnd(start, tail, room);
      NoParts(parts, start, END_MAGIC + start + tail);
    } else {
      var p, more := parts[0], parts[1..];
      AfterCases(p.data, Joined(more), tail);
      assert AllSound(more) by { SoundTail(parts); }
      ReadBlocksBits(more, Crc.Combine(start, p.block.crc),
                     if |p.data| <= room then room - |p.data| else 0, tail);
      ReadFirstBlock(parts, start, room, tail);
    }
  }

  lemma NoParts(parts: seq<Part>, start: Crc.word, end: bits)
    requires |parts| == 0
    ensures Decodable(parts) && BlocksBits(parts) + end == end
    ensures Joined(parts) == [] && CombinedCrc(start, parts) == start
  {}

  lemma AfterCases(data: seq<byte>, d: seq<byte>, tail: bits)
    ensures After(data, Got(d, tail)) == Got(data + d, tail) && After(data, Reject) == Reject
  {}

  lemma SoundTail(parts: seq<Part>)
    requires AllSound(parts) && |parts| > 0
    ensures AllSound(parts[1..])
  {}

  lemma ReadFirstBlock(parts: seq<Part>, start: Crc.word, room: nat, tail: bits)
    requires AllSound(parts) && |parts| > 0
    ensures var p, more := parts[0], parts[1..];
            var end := END_MAGIC + CombinedCrc(start, parts) + tail;
            && AllSound(more) && end == END_MAGIC + CombinedCrc(Crc.Combine(start, p.block.crc), more) + tail
            && ReadStream(BlocksBits(parts) + end, room, start)
            == (if |Rle1.Encode(p.data)| <= 900001 && |p.data| <= room
                then After(p.data, ReadStream(BlocksBits(more) + end, room - |p.data|, Crc.Combine(start, p.block.crc)))
                else Reject)
    ensures Decodable(parts) <==> |Rle1.Encode(parts[0].data)| <= 900001 && Decodable(parts[1..])
    ensures Joined(parts) == parts[0].data + Joined(parts[1..])
  {
    hide *;
    DecodableStep(parts);
    FirstPart(parts, start);
    var p, more := parts[0], parts[1..];
    var next := BlocksBits(more) + (END_MAGIC + CombinedCrc(start, parts) + tail);
    ThreeParts(BLOCK_MAGIC, BlockBits(p.block), BlocksBits(more), END_MAGIC + CombinedCrc(start, parts) + tail);
    ReadOneBlock(BlockBits(p.block) + next, room, start);
    ReadBlockBits(p.block, p.data, p.column, room, next);
  }

  lemma FirstPart(parts: seq<Part>, start: Crc.word)
    requires AllSound(parts) && |parts| > 0
    ensures var p, more := parts[0], parts[1..];
            && Sound(p) && AllSound(more) && WellFormed(p.block)
            && BlocksBits(parts) == BLOCK_MAGIC + BlockBits(p.block) + BlocksBits(more)
            && CombinedCrc(start, parts) == CombinedCrc(Crc.Combine(start, p.block.crc), more)
            && Joined(parts) == p.data + Joined(more)
            && Codes(p.block, p.data, p.column) && |Rle1.Encode(p.data)| < 0x1_0000_0000 / 2
  {
    hide BlockBits, Crc.Combine, BLOCK_MAGIC, Rle1.Encode;
    assert Sound(parts[0]);
  }

  lemma ThreeParts(a: bits, b: bits, c: bits, d: bits)
    ensures a + b + c + d == a + (b + (c + d))
  {
    Assoc(b, c, d);
    Assoc(a, b, c);
    Assoc(a, b + c, d);
  }

  lemma DecodableStep(parts: seq<Part>)
    requires |parts| > 0
    ensures Decodable(parts) <==> |Rle1.Encode(parts[0].data)| <= 900001 && Decodable(parts[1..])
  {
    assert forall i :: 1 <= i < |parts| ==> parts[i] == parts[1..][i - 1];
    if Decodable(parts) {
      forall i | 0 <= i < |parts[1..]| ensures |Rle1.Encode(parts[1..][i].data)| <= 900001 {
        assert parts[1..][i] == parts[i + 1];
      }
    }
  }
}
