/** The two entry points, compress and decompress, and what one does to the output of the other. */
module Bzip2 {
  import opened Bits
  import opened BitIo
  import opened BlockFormat
  import opened BlockCodec
  import opened BlockColumn
  import opened FieldWriter
  import opened FieldReader
  import opened BlockEncoder
  import opened BlockDecoder
  import opened Stream
  import HuffmanBuild
  import Crc
  import Rle1
  import Rle2

  function BlockSize(level: nat): nat { level * 100000 }

  lemma BlockSizeOf(level: nat)
    ensures BlockSize(level) == level * 100000
  {}

  lemma BufferSize()
    ensures Rle2.BLOCK_MAX == 900001
  {}

  /** The input cut into blocks. */
  function Cut(src: seq<byte>, size: nat): (pieces: seq<seq<byte>>)
    requires size > 0
    ensures forall i :: 0 <= i < |pieces| ==> 0 < |pieces[i]| <= size
    decreases |src|
  {
    if |src| == 0 then []
    else if |src| <= size then [src]
    else [src[..size]] + Cut(src[size..], size)
  }

  ghost function Datas(parts: seq<Part>): (d: seq<seq<byte>>)
    ensures |d| == |parts| && forall i :: 0 <= i < |d| ==> d[i] == parts[i].data
  {
    seq(|parts|, i requires 0 <= i < |parts| => parts[i].data)
  }

  lemma CutStep(done: seq<seq<byte>>, src: seq<byte>, pos: nat, size: nat)
    requires size > 0 && pos < |src|
    ensures var n := Min(size, |src| - pos);
            done + Cut(src[pos..], size) == (done + [src[pos..pos + n]]) + Cut(src[pos + n..], size)
  {
    var n, rest := Min(size, |src| - pos), src[pos..];
    assert rest[..n] == src[pos..pos + n] && rest[n..] == src[pos + n..];
    if |rest| <= size { assert rest == rest[..n] && Cut(rest[n..], size) == []; }
    Assoc(done, [rest[..n]], Cut(rest[n..], size));
  }

  lemma {:induction false} JoinedCut(parts: seq<Part>, src: seq<byte>, size: nat)
    requires size > 0 && Datas(parts) == Cut(src, size)
    ensures Joined(parts) == src
    decreases |parts|
  {
    if |parts| > 0 {
      var more := parts[1..];
      assert parts[0].data == Datas(parts)[0];
      assert Datas(more) == Datas(parts)[1..];
      if |src| <= size {
        assert Cut(src, size)[1..] == Cut([], size);
        JoinedCut(more, [], size);
      } else {
        assert Cut(src, size)[1..] == Cut(src[size..], size);
        JoinedCut(more, src[size..], size);
        assert src[..size] + src[size..] == src;
      }
    }
  }

  // ---------- appending a block ----------

  lemma BlocksFirst(parts: seq<Part>)
    requires AllSound(parts) && |parts| > 0
    ensures AllSound(parts[1..]) && WellFormed(parts[0].block)
    ensures BlocksBits(parts) == BLOCK_MAGIC + BlockBits(parts[0].block) + BlocksBits(parts[1..])
  {}

  lemma BlocksOne(p: Part)
    requires Sound(p)
    ensures AllSound([p]) && WellFormed(p.block) && BlocksBits([p]) == BLOCK_MAGIC + BlockBits(p.block)
    ensures BlocksBits([]) == []
  {
    assert BlocksBits([p][1..]) == [];
  }

  lemma SoundAppend(parts: seq<Part>, p: Part)
    requires AllSound(parts) && Sound(p)
    ensures AllSound(parts + [p])
  {}

  lemma {:induction false} BlocksAppend(parts: seq<Part>, p: Part)
    requires AllSound(parts) && Sound(p)
    ensures AllSound(parts + [p]) && WellFormed(p.block)
    ensures BlocksBits(parts + [p]) == BlocksBits(parts) + (BLOCK_MAGIC + BlockBits(p.block))
    decreases |parts|
  {
    hide *;
    BlocksOne(p);
    SoundAppend(parts, p);
    if |parts| > 0 {
      BlocksFirst(parts);
      BlocksFirst(parts + [p]);
      BlocksAppend(parts[1..], p);
      assert (parts + [p])[1..] == parts[1..] + [p];
      Assoc(BLOCK_MAGIC + BlockBits(parts[0].block), BlocksBits(parts[1..]), BLOCK_MAGIC + BlockBits(p.block));
    } else {
      assert parts + [p] == [p] && parts == [];
      assert [] + (BLOCK_MAGIC + BlockBits(p.block)) == BLOCK_MAGIC + BlockBits(p.block);
    }
  }

  lemma {:induction false} CrcAppend(start: Crc.word, parts: seq<Part>, p: Part)
    ensures CombinedCrc(start, parts + [p]) == Crc.Combine(CombinedCrc(start, parts), p.block.crc)
    decreases |parts|
  {
    hide Crc.Combine;
    if |parts| > 0 {
      CrcAppend(Crc.Combine(start, parts[0].block.crc), parts[1..], p);
      assert (parts + [p])[1..] == parts[1..] + [p];
    } else {
      assert (parts + [p])[1..] == [];
    }
  }

  // ---------- compress ----------

  function Header(level: nat): (h: seq<byte>)
    requires level <= 9
    ensures |h| == 4
  {
    ['B' as int, 'Z' as int, 'h' as int, '0' as int + level]
  }

  lemma {:induction false} BytesBitsInjective(a: seq<byte>, b: seq<byte>)
    requires BytesBits(a) == BytesBits(b)
    ensures a == b
    decreases |a|
  {
    assert |a| == |b|;
    if |a| > 0 {
      BytesBitsConcat([a[0]], a[1..]);
      BytesBitsConcat([b[0]], b[1..]);
      assert [a[0]] + a[1..] == a && [b[0]] + b[1..] == b;
      BytesBitsOne(a[0]);
      BytesBitsOne(b[0]);
      assert BytesBits(a)[..8] == BitsOf(a[0], 8) && BytesBits(a)[8..] == BytesBits(a[1..]);
      assert BytesBits(b)[..8] == BitsOf(b[0], 8) && BytesBits(b)[8..] == BytesBits(b[1..]);
      Pow2Values();
      ValueOfBitsOf(a[0], 8);
      ValueOfBitsOf(b[0], 8);
      BytesBitsInjective(a[1..], b[1..]);
    }
  }

  method WriteHeader(bw: Writer, level: nat)
    requires bw.Valid() && bw.written == [] && 1 <= level <= 9
    modifies bw, bw.dst
    ensures bw.Valid() && bw.stream == Header(level) && bw.written == BytesBits(Header(level))
  {
    hide BitsOf, Pow2;
    Pow2Values();
    bw.WriteBits('B' as int, 8);
    bw.WriteBits('Z' as int, 8);
    bw.WriteBits('h' as int, 8);
    bw.WriteBits('0' as int + level, 8);
    HeaderBits(level);
    assert bw.bufBits == 0;
    assert BytesBits(bw.stream) + BitsOf(bw.buf, 0) == BytesBits(bw.stream);
    BytesBitsInjective(bw.stream, Header(level));
  }

  lemma HeaderBits(level: nat)
    requires level <= 9
    ensures BytesBits(Header(level))
         == [] + BitsOf('B' as int, 8) + BitsOf('Z' as int, 8) + BitsOf('h' as int, 8) + BitsOf('0' as int + level, 8)
  {
    hide BitsOf;
    var h := Header(level);
    BytesBitsConcat(h[..3], h[3..]);
    BytesBitsConcat(h[..2], h[2..3]);
    BytesBitsConcat(h[..1], h[1..2]);
    assert h[..3] + h[3..] == h && h[..2] + h[2..3] == h[..3] && h[..1] + h[1..2] == h[..2];
    assert h[..1] == [h[0]] && h[1..2] == [h[1]] && h[2..3] == [h[2]] && h[3..] == [h[3]];
    BytesBitsOne(h[0]);
    BytesBitsOne(h[1]);
    BytesBitsOne(h[2]);
    BytesBitsOne(h[3]);
  }

  /** No block has more groups than the selector field and its array allow. */
  ghost predicate GroupsFit(parts: seq<Part>) {
    forall i :: 0 <= i < |parts| ==> |parts[i].block.selectors| <= 18002
  }

  /** Bytes of a finished file. */
  ghost function FileSize(parts: seq<Part>): nat
    requires AllSound(parts)
  {
    4 + (|StreamBits(parts)| + 7) / 8
  }

  /** The file: header, stream, and less than a byte of zeros. */
  ghost predicate IsFile(bytes: seq<byte>, level: nat, parts: seq<Part>)
    requires AllSound(parts) && level <= 9
  {
    && |bytes| == FileSize(parts)
    && bytes == Header(level) + bytes[4..]
    && |StreamBits(parts)| <= |BytesBits(bytes[4..])|
    && BytesBits(bytes[4..])[..|StreamBits(parts)|] == StreamBits(parts)
  }

  /** What the writer holds after some blocks, when all their codes fit and they have few enough groups. */
  ghost predicate Wrote(written: bits, level: nat, parts: seq<Part>)
    requires level <= 9
  {
    AllClean(parts) && GroupsFit(parts) ==> AllSound(parts) && written == BytesBits(Header(level)) + BlocksBits(parts)
  }

  lemma WroteNothing(level: nat)
    requires level <= 9
    ensures Wrote(BytesBits(Header(level)), level, []) && Limited([])
    ensures Zeros(32) == CombinedCrc(Zeros(32), [])
  {
    assert BytesBits(Header(level)) + BlocksBits([]) == BytesBits(Header(level));
  }

  lemma WroteBlock(written: bits, level: nat, parts: seq<Part>, p: Part, written': bits)
    requires level <= 9 && Wrote(written, level, parts) && |p.data| <= 900000
    requires Clean(p.block) && |p.block.selectors| <= 18002 ==>
               Codes(p.block, p.data, p.column) && written' == written + BLOCK_MAGIC + BlockBits(p.block)
    ensures Wrote(written', level, parts + [p])
  {
    hide BlockBits, WellFormed, BLOCK_MAGIC, Magic, BytesBits, Rle1.Encode, Clean, Codes;
    if AllClean(parts + [p]) && GroupsFit(parts + [p]) {
      GroupsOfAll(parts, p);
      CleanOfAll(parts, p);
      Rle1.EncodeSize(p.data);
      assert Sound(p);
      BlocksAppend(parts, p);
      Assoc(written, BLOCK_MAGIC, BlockBits(p.block));
      Assoc(BytesBits(Header(level)), BlocksBits(parts), BLOCK_MAGIC + BlockBits(p.block));
    }
  }

  lemma CleanOfAll(parts: seq<Part>, p: Part)
    requires AllClean(parts + [p])
    ensures AllClean(parts) && Clean(p.block)
  {
    var all := parts + [p];
    assert all[|parts|] == p;
    forall i | 0 <= i < |parts| ensures Clean(parts[i].block) { assert all[i] == parts[i]; }
  }

  lemma GroupsOfAll(parts: seq<Part>, p: Part)
    requires GroupsFit(parts + [p])
    ensures GroupsFit(parts) && |p.block.selectors| <= 18002
  {
    var all := parts + [p];
    assert all[|parts|] == p;
    forall i | 0 <= i < |parts| ensures |parts[i].block.selectors| <= 18002 { assert all[i] == parts[i]; }
  }

  /** The end mark, the combined checksum and the padding. */
  method WriteEnd(bw: Writer, combined: Crc.word)
    requires bw.Valid()
    modifies bw, bw.dst
    ensures bw.Valid() && old(bw.stream) <= bw.stream
    ensures var all := old(bw.written) + (END_MAGIC + combined);
            && |bw.stream| == (|all| + 7) / 8
            && BytesBits(bw.stream) == all + BitsOf(0, 8 * |bw.stream| - |all|)
            && all <= BytesBits(bw.stream)
  {
    hide BitsOf, BytesBits, Magic, Pow2;
    ghost var w := bw.written;
    WriteMagic(bw, 0x1772, 0x4538, 0x5090);
    WriteWord(bw, combined);
    Assoc(w, END_MAGIC, combined);
    bw.Flush();
  }

  /** From the bits of the finished file to its bytes. */
  lemma FileMade(bytes: seq<byte>, level: nat, parts: seq<Part>)
    requires level <= 9 && AllSound(parts) && Header(level) <= bytes
    requires var all := (BytesBits(Header(level)) + BlocksBits(parts)) + (END_MAGIC + CombinedCrc(Zeros(32), parts));
             |bytes| == (|all| + 7) / 8 && all <= BytesBits(bytes)
    ensures IsFile(bytes, level, parts)
  {
    hide BlocksBits, END_MAGIC, CombinedCrc, Magic, BytesBits;
    var h, rest := Header(level), bytes[4..];
    assert bytes == h + rest;
    BytesBitsConcat(h, rest);
    Assoc(BlocksBits(parts), END_MAGIC, CombinedCrc(Zeros(32), parts));
    Assoc(BytesBits(h), BlocksBits(parts), END_MAGIC + CombinedCrc(Zeros(32), parts));
    PrefixBehind(BytesBits(h), StreamBits(parts), BytesBits(rest));
  }

  lemma PrefixBehind(h: bits, s: bits, r: bits)
    requires h + s <= h + r
    ensures |s| <= |r| && r[..|s|] == s
  {
    assert (h + r)[..|h + s|][|h|..] == s && (h + r)[..|h + s|][|h|..] == r[..|s|];
  }

  /** Running out of room is because the file does not fit. */
  lemma Overflow(written: bits, level: nat, parts: seq<Part>, emitted: nat, room: nat)
    requires level <= 9 && Wrote(written, level, parts) && room < emitted && 8 * emitted <= |written|
    ensures AllClean(parts) && GroupsFit(parts) ==> AllSound(parts) && room < FileSize(parts)
  {
    hide BlocksBits, CombinedCrc, BytesBits;
  }

  lemma WholeFile(written: bits, level: nat, parts: seq<Part>, bytes: seq<byte>, room: nat)
    requires level <= 9 && Wrote(written, level, parts) && Header(level) <= bytes
    requires var all := written + (END_MAGIC + CombinedCrc(Zeros(32), parts));
             |bytes| == (|all| + 7) / 8 && all <= BytesBits(bytes)
    ensures AllClean(parts) && GroupsFit(parts) ==> AllSound(parts) && IsFile(bytes, level, parts)
    ensures |bytes| > 0
  {
    if AllClean(parts) && GroupsFit(parts) { FileMade(bytes, level, parts); }
  }

  lemma FileLength(bytes: seq<byte>, level: nat, parts: seq<Part>)
    requires level <= 9 && AllSound(parts) && IsFile(bytes, level, parts)
    ensures |bytes| == FileSize(parts)
  {}

  /** What the writer's invariant says about its buffer. */
  lemma WriterFacts(bw: Writer)
    requires bw.Valid()
    ensures |bw.stream| == bw.pos && 8 * bw.pos <= |bw.written|
    ensures bw.Ok() <==> bw.pos <= bw.dst.Length
    ensures bw.Ok() ==> bw.dst[..bw.pos] == bw.stream
  {}

  /** Where the compressor stands after some blocks. */
  ghost predicate Standing(written: bits, src: seq<byte>, pos: nat, level: nat, parts: seq<Part>,
                           combined: Crc.word)
    requires 1 <= level <= 9 && pos <= |src|
  {
    && Wrote(written, level, parts) && Limited(parts)
    && Datas(parts) + Cut(src[pos..], BlockSize(level)) == Cut(src, BlockSize(level))
    && combined == CombinedCrc(Zeros(32), parts)
  }

  lemma StandingFirst(src: seq<byte>, level: nat)
    requires 1 <= level <= 9
    ensures Standing(BytesBits(Header(level)), src, 0, level, [], Zeros(32))
  {
    WroteNothing(level);
    assert src[0..] == src;
    assert Datas([]) + Cut(src, BlockSize(level)) == Cut(src, BlockSize(level));
  }

  lemma StandingNext(written: bits, src: seq<byte>, pos: nat, level: nat, parts: seq<Part>,
                     combined: Crc.word, p: Part, written': bits)
    requires 1 <= level <= 9 && pos < |src| && Standing(written, src, pos, level, parts, combined)
    requires p.data == src[pos..pos + Min(BlockSize(level), |src| - pos)]
    requires Clean(p.block) && |p.block.selectors| <= 18002 ==>
               Codes(p.block, p.data, p.column) && written' == written + BLOCK_MAGIC + BlockBits(p.block)
    requires Tame(p)
    ensures Standing(written', src, pos + |p.data|, level, parts + [p],
                     Crc.Combine(combined, p.block.crc))
  {
    hide BlockBits, WellFormed, BLOCK_MAGIC, Magic, BytesBits, Rle1.Encode, Codes, Crc.Combine, CombinedCrc, Wrote,
      Limited, Cut;
    WroteBlock(written, level, parts, p, written');
    LimitedMore(parts, p);
    CrcAppend(Zeros(32), parts, p);
    CutStep(Datas(parts), src, pos, BlockSize(level));
    assert Datas(parts + [p]) == Datas(parts) + [p.data];
  }

  /** Compresses src into dst; 0 when dst has no room. `parts` lists the blocks made on the way. */
  method Compress(src: seq<byte>, dst: array<byte>, level: nat, pick: HuffmanBuild.HeapRule)
    returns (size: nat, ghost parts: seq<Part>)
    requires 1 <= level <= 9
    modifies dst
    ensures size <= dst.Length
    ensures size > 0 ==> Datas(parts) == Cut(src, BlockSize(level))
    ensures size > 0 && AllClean(parts) && GroupsFit(parts) ==> AllSound(parts) && IsFile(dst[..size], level, parts)
    ensures size == 0 && AllClean(parts) && GroupsFit(parts) ==> AllSound(parts) && dst.Length < FileSize(parts)
    ensures Limited(parts)
  {
    hide *;
    BlockSizeOf(level);
    var blockSize := level * 100000;
    var bw := new Writer(dst);
    WriteHeader(bw, level);
    var t := Crc.MakeTables();
    var combined: Crc.word := Zeros(32);
    parts := [];
    StandingFirst(src, level);
    var pos := 0;
    while pos < |src|
      invariant pos <= |src| && bw.Valid() && Header(level) <= bw.stream && Crc.IsTables(t)
      invariant Standing(bw.written, src, pos, level, parts, combined)
    {
      LevelSizes(level);
      var blk := Least(blockSize, |src| - pos);
      ghost var w := bw.written;
      var ok, blockCrc;
      ghost var b, column;
      ok, blockCrc, b, column := CompressBlock(src[pos..pos + blk], bw, t, pick);
      ghost var p := Part(b, src[pos..pos + blk], column);
      TameIs(p);
      StandingNext(w, src, pos, level, parts, combined, p, bw.written);
      parts := parts + [p];
      combined := Crc.Combine(combined, blockCrc);
      pos := pos + blk;
      if !ok {
        WriterFacts(bw);
        StandingMeans(bw.written, src, pos, level, parts, combined);
        Overflow(bw.written, level, parts, bw.pos, dst.Length);
        return 0, parts;
      }
    }
    StandingMeans(bw.written, src, pos, level, parts, combined);
    ghost var w := bw.written;
    WriteEnd(bw, combined);
    WholeFile(w, level, parts, bw.stream, dst.Length);
    WriterFacts(bw);
    if !bw.Ok() {
      if AllClean(parts) && GroupsFit(parts) { FileLength(bw.stream, level, parts); }
      return 0, parts;
    }
    size := bw.pos;
  }

  lemma StandingMeans(written: bits, src: seq<byte>, pos: nat, level: nat, parts: seq<Part>, combined: Crc.word)
    requires 1 <= level <= 9 && pos <= |src| && Standing(written, src, pos, level, parts, combined)
    ensures Wrote(written, level, parts) && Limited(parts)
    ensures combined == CombinedCrc(Zeros(32), parts)
    ensures pos == |src| ==> Datas(parts) == Cut(src, BlockSize(level))
  {}

  lemma LimitedMore(parts: seq<Part>, p: Part)
    requires Limited(parts) && Tame(p)
    ensures Limited(parts + [p])
  {
    var all := parts + [p];
    assert all[|parts|] == p && forall i :: 0 <= i < |parts| ==> all[i] == parts[i];
  }

  method Least(a: nat, b: nat) returns (m: nat)
    ensures m == Min(a, b) && m <= a && m <= b && (0 < a && 0 < b ==> 0 < m)
  {
    m := if a < b then a else b;
  }

  lemma LevelSizes(level: nat)
    requires 1 <= level <= 9
    ensures 0 < BlockSize(level) <= 900000
  {}

  /** What is known of a block with a short run-length code or few different bytes. */
  ghost predicate Tame(p: Part) {
    && (|Rle1.Encode(p.data)| <= 900099 ==> |p.block.selectors| <= 18002)
    && (|Rle1.Encode(p.data)| + 259 < 28657 || FewBytes(p.data) ==> Clean(p.block))
  }

  lemma TameIs(p: Part)
    ensures Tame(p) <==>
              && (|Rle1.Encode(p.data)| <= 900099 ==> |p.block.selectors| <= 18002)
              && (|Rle1.Encode(p.data)| + 259 < 28657 || FewBytes(p.data) ==> Clean(p.block))
  {}

  ghost predicate Limited(parts: seq<Part>) {
    forall i :: 0 <= i < |parts| ==> Tame(parts[i])
  }

  // ---------- decompress ----------

  /** What one mark and what follows it mean for the whole stream. */
  lemma StreamTurn(done: seq<byte>, b: bits, room: nat, combined: Crc.word)
    ensures var now := After(done, ReadStream(b, room, combined));
            && (|b| < 48 ==> now == Reject)
            && (|b| >= 48 && b[..48] == END_MAGIC ==>
                 now == if |b| >= 80 && b[48..80] == combined then Got(done, b[80..]) else Reject)
            && (|b| >= 48 && b[..48] != END_MAGIC && b[..48] != BLOCK_MAGIC ==> now == Reject)
  {
    hide ReadBlock, BLOCK_MAGIC, END_MAGIC, Magic;
    assert done + [] == done;
  }

  lemma BlockTurn(done: seq<byte>, b: bits, room: nat, combined: Crc.word)
    requires |b| >= 48 && b[..48] == BLOCK_MAGIC
    ensures var now, one := After(done, ReadStream(b, room, combined)), ReadBlock(b[48..], room);
            && (one.Got? ==>
                 && |one.value.data| <= room && |one.rest| < |b|
                 && now == After(done + one.value.data,
                                 ReadStream(one.rest, room - |one.value.data|, Crc.Combine(combined, one.value.crc))))
            && (one.Reject? ==> now == Reject)
            && (one.Undefined? ==> now == Undefined)
  {
    hide ReadBlock, BLOCK_MAGIC, END_MAGIC, Magic, ReadStream, Crc.Combine;
    assert b == BLOCK_MAGIC + b[48..];
    ReadOneBlock(b[48..], room, combined);
    var one := ReadBlock(b[48..], room);
    if one.Got? {
      var more := ReadStream(one.rest, room - |one.value.data|, Crc.Combine(combined, one.value.crc));
      if more.Got? { Assoc(done, one.value.data, more.value); }
    }
  }

  /** A mark is recognised by its three numbers. */
  lemma MagicNumbers(b: bits, a: nat, c: nat, d: nat)
    requires |b| >= 48 && a < 0x10000 && c < 0x10000 && d < 0x10000
    ensures var e := b[16..];
            |e| >= 32 && |e[16..]| >= 16 &&
            (ValueOf(b[..16]) == a && ValueOf(e[..16]) == c && ValueOf(e[16..][..16]) == d <==>
             b[..48] == Magic(a, c, d))
    ensures b[16..][16..][16..] == b[48..]
  {
    Pow2Values();
    FieldIs(b[..16], a);
    FieldIs(b[16..][..16], c);
    FieldIs(b[16..][16..][..16], d);
    assert b[..48] == b[..16] + b[16..][..16] + b[16..][16..][..16];
    hide BitsOf, ValueOf, Pow2;
    ThreeFields(b[..16], b[16..][..16], b[16..][16..][..16], BitsOf(a, 16), BitsOf(c, 16), BitsOf(d, 16));
  }

  lemma FieldIs(b: bits, v: nat)
    requires v < Pow2(|b|)
    ensures ValueOf(b) == v <==> b == BitsOf(v, |b|)
  {
    ValueOfBitsOf(v, |b|);
    BitsOfValueOf(b);
  }

  lemma ThreeFields(a: bits, b: bits, c: bits, x: bits, y: bits, z: bits)
    requires |a| == |x| && |b| == |y| && |c| == |z|
    ensures a + b + c == x + y + z <==> a == x && b == y && c == z
  {
    if a + b + c == x + y + z {
      assert a == (a + b + c)[..|a|] && x == (x + y + z)[..|a|];
      assert b == (a + b + c)[|a|..|a| + |b|] && y == (x + y + z)[|a|..|a| + |b|];
      assert c == (a + b + c)[|a| + |b|..] && z == (x + y + z)[|a| + |b|..];
    }
  }

  datatype Mark = EndMark | BlockMark | NoMark

  /** Reads the six bytes in front of a block or of the end. */
  method ReadMark(br: Reader) returns (m: Mark)
    requires br.Valid()
    modifies br
    ensures br.Valid()
    ensures var b := old(br.Rest());
            && (m.NoMark? <==> |b| < 48 || (b[..48] != END_MAGIC && b[..48] != BLOCK_MAGIC))
            && (m.EndMark? ==> b[..48] == END_MAGIC && br.Rest() == b[48..])
            && (m.BlockMark? ==> b[..48] == BLOCK_MAGIC && br.Rest() == b[48..])
  {
    hide BitsOf, BytesBits, ValueOf, Pow2, Magic;
    ghost var b := br.Rest();
    var m0 := ReadNum(br, 16);
    var m1 := ReadNum(br, 16);
    var m2 := ReadNum(br, 16);
    if |b| >= 48 {
      MagicNumbers(b, 0x1772, 0x4538, 0x5090);
      MagicNumbers(b, 0x3141, 0x5926, 0x5359);
    }
    if m0 == NO_BITS { return NoMark; }
    if m0 == 0x1772 && m1 == 0x4538 && m2 == 0x5090 { return EndMark; }
    if m0 != 0x3141 || m1 != 0x5926 || m2 != 0x5359 { return NoMark; }
    return BlockMark;
  }

  /** Decompresses src into dst. Failed: the result is 0. Lost: see Status. */
  method Decompress(src: seq<byte>, dst: array<byte>) returns (written: nat, s: Status)
    modifies dst
    ensures match ReadFile(src, dst.Length)
            case Got(data, _) => s == Done && written == |data| && written <= dst.Length && dst[..written] == data
            case Reject => s == Failed && written == 0
            case Undefined => s == Lost
  {
    hide *;
    FileStart(src, dst.Length);
    BufferSize();
    if |src| < 10 { return 0, Failed; }
    if src[0] != 'B' as int || src[1] != 'Z' as int || src[2] != 'h' as int { return 0, Failed; }
    var level := src[3] - '0' as int;
    if level < 1 || level > 9 { return 0, Failed; }
    var br := new Reader(src[4..]);
    var tt, ll := new int[Rle2.BLOCK_MAX], new byte[Rle2.BLOCK_MAX];
    var t := Crc.MakeTables();
    var combined: Crc.word := Zeros(32);
    ghost var goal := ReadStream(br.Rest(), dst.Length, combined);
    written := 0;
    NothingBefore(goal);
    assert dst[..0] == [];
    while true
      invariant br.Valid() && written <= dst.Length && Crc.IsTables(t)
      invariant After(dst[..written], ReadStream(br.Rest(), dst.Length - written, combined)) == goal
      decreases |br.Rest()|
    {
      ghost var done, b := dst[..written], br.Rest();
      StreamTurn(done, b, dst.Length - written, combined);
      var m := ReadMark(br);
      if m.NoMark? { return 0, Failed; }
      if m.EndMark? {
        var ok, stored := ReadWord(br);
        assert |b| >= 80 ==> b[48..][..32] == b[48..80];
        if !ok || stored != combined { return 0, Failed; }
        return written, Done;
      }
      BlockTurn(done, b, dst.Length - written, combined);
      var total, crc;
      s, total, crc := DecodeBlock(br, dst, written, tt, ll, t);
      if s != Done { return 0, s; }
      assert dst[..total] == dst[..written] + dst[written..total];
      combined := Crc.Combine(combined, crc);
      written := total;
    }
  }

  /** The header decides, or else the stream. */
  lemma FileStart(src: seq<byte>, room: nat)
    ensures var ok := |src| >= 10 && src[0] == 'B' as int && src[1] == 'Z' as int && src[2] == 'h' as int
                      && '1' as int <= src[3] <= '9' as int;
            && (!ok ==> ReadFile(src, room) == Reject)
            && (ok ==> ReadFile(src, room) == ReadStream(BytesBits(src[4..]), room, Zeros(32)))
  {}

  lemma NothingBefore(p: Parsed<seq<byte>>)
    ensures After([], p) == p
  {
    if p.Got? { assert [] + p.value == p.value; }
  }

  // ---------- the round trip ----------

  /** Every block of the input is short enough for the decoder after its run-length coding. */
  ghost predicate FitsDecoder(src: seq<byte>, level: nat)
    requires level > 0
  {
    forall i :: 0 <= i < |Cut(src, BlockSize(level))| ==> |Rle1.Encode(Cut(src, BlockSize(level))[i])| <= 900001
  }

  lemma FitsIsDecodable(src: seq<byte>, level: nat, parts: seq<Part>)
    requires level > 0 && Datas(parts) == Cut(src, BlockSize(level))
    ensures FitsDecoder(src, level) <==> Decodable(parts)
  {
    var pieces := Cut(src, BlockSize(level));
    assert forall i :: 0 <= i < |parts| ==> parts[i].data == pieces[i];
  }

  lemma ReadHeader(bytes: seq<byte>, level: nat, room: nat)
    requires 1 <= level <= 9 && |bytes| >= 10 && bytes == Header(level) + bytes[4..]
    ensures ReadFile(bytes, room) == ReadStream(BytesBits(bytes[4..]), room, Zeros(32))
  {
    var h := Header(level);
    assert bytes[0] == h[0] && bytes[1] == h[1] && bytes[2] == h[2] && bytes[3] == h[3];
  }

  lemma FileIsLong(bytes: seq<byte>, level: nat, parts: seq<Part>)
    requires level <= 9 && AllSound(parts) && IsFile(bytes, level, parts)
    ensures |bytes| >= 14 && bytes == Header(level) + bytes[4..]
  {
    assert |StreamBits(parts)| >= 80;
  }

  /** A file made from src by the compressor is read back as src, if and only if its blocks fit the decoder and the
      result fits the room; otherwise it is refused. */
  lemma FileRoundTrip(src: seq<byte>, level: nat, parts: seq<Part>, bytes: seq<byte>, room: nat)
    requires 1 <= level <= 9 && Datas(parts) == Cut(src, BlockSize(level)) && AllSound(parts)
    requires IsFile(bytes, level, parts)
    ensures FitsDecoder(src, level) && |src| <= room ==>
              ReadFile(bytes, room).Got? && ReadFile(bytes, room).value == src
    ensures !(FitsDecoder(src, level) && |src| <= room) ==> ReadFile(bytes, room) == Reject
  {
    hide *;
    LevelSizes(level);
    FileIsLong(bytes, level, parts);
    ReadHeader(bytes, level, room);
    JoinedCut(parts, src, BlockSize(level));
    FitsIsDecodable(src, level, parts);
    var tail := SplitFile(bytes, level, parts);
    ReadBlocksBits(parts, Zeros(32), room, tail);
  }

  lemma SplitFile(bytes: seq<byte>, level: nat, parts: seq<Part>) returns (tail: bits)
    requires level <= 9 && AllSound(parts) && IsFile(bytes, level, parts)
    ensures |bytes| >= 4
    ensures BytesBits(bytes[4..]) == BlocksBits(parts) + (END_MAGIC + CombinedCrc(Zeros(32), parts) + tail)
  {
    hide BytesBits, BlocksBits, CombinedCrc, END_MAGIC;
    var all := BytesBits(bytes[4..]);
    tail := all[|StreamBits(parts)|..];
    assert all == StreamBits(parts) + tail;
    FourPieces(BlocksBits(parts), END_MAGIC, CombinedCrc(Zeros(32), parts), tail);
  }

  lemma FourPieces(a: bits, b: bits, c: bits, d: bits)
    ensures (a + b + c) + d == a + (b + c + d)
  {
    Assoc(a, b, c);
    Assoc(a, b + c, d);
  }

  /** Levels 1 to 7 never produce a block that is too long for the decoder. */
  lemma SmallLevelsFit(src: seq<byte>, level: nat)
    requires 1 <= level <= 7
    ensures FitsDecoder(src, level)
  {
    var pieces := Cut(src, BlockSize(level));
    forall i | 0 <= i < |pieces| ensures |Rle1.Encode(pieces[i])| <= 900001 {
      Rle1.EncodeSize(pieces[i]);
    }
  }

  /** 180001 runs of exactly four equal bytes: one block at levels 8 and 9, of 900005 bytes after run-length coding. */
  ghost function LongInput(): seq<byte> { Rle1.Quads(180001) }

  lemma LongInputBytes()
    ensures FewBytes(LongInput())
  {
    Rle1.QuadsBytes(180001);
    hide FewBytes, Rle1.Quads, Rle1.Encode;
    ZerosAndOnes(LongInput());
  }

  lemma ZerosAndOnes(data: seq<byte>)
    requires forall c :: c in Rle1.Encode(data) ==> c == 0 || c == 1
    ensures FewBytes(data)
  {
    hide Rle1.Encode;
    var list: seq<byte> := [0, 1];
    assert list[0] == 0 && list[1] == 1;
    assert Mtf.Covers(list, Rle1.Encode(data));
  }

  lemma LongInputIs(level: nat)
    requires 8 <= level <= 9
    ensures Cut(LongInput(), BlockSize(level)) == [LongInput()] && |Rle1.Encode(LongInput())| == 900005
    ensures FewBytes(LongInput()) && !FitsDecoder(LongInput(), level)
  {
    var src := LongInput();
    Rle1.QuadsGrow(180001);
    hide Rle1.Quads, Rle1.Encode, FewBytes;
    LongInputBytes();
    assert |src| == 720004;
    assert Cut(src, BlockSize(level))[0] == src;
  }

  /** At levels 8 and 9 a block can outgrow the decoder: whatever is written for this input, the decoder refuses it. */
  lemma LargeLevelsFail(level: nat, parts: seq<Part>, bytes: seq<byte>, room: nat)
    requires 8 <= level <= 9 && Datas(parts) == Cut(LongInput(), BlockSize(level)) && Limited(parts)
    requires AllClean(parts) && GroupsFit(parts) ==> AllSound(parts) && IsFile(bytes, level, parts)
    ensures AllClean(parts) && GroupsFit(parts) && ReadFile(bytes, room) == Reject
  {
    hide IsFile, ReadFile, LongInput, Rle1.Encode, FewBytes, Clean;
    LongInputIs(level);
    assert |parts| == 1 && parts[0].data == Datas(parts)[0] == LongInput();
    assert Tame(parts[0]);
    FileRoundTrip(LongInput(), level, parts, bytes, room);
  }

  /** Blocks that fit the decoder have few enough groups. */
  lemma FitsGroups(src: seq<byte>, level: nat, parts: seq<Part>)
    requires level > 0 && Datas(parts) == Cut(src, BlockSize(level)) && Limited(parts)
    ensures FitsDecoder(src, level) ==> GroupsFit(parts)
  {
    var pieces := Cut(src, BlockSize(level));
    assert forall i :: 0 <= i < |parts| ==> parts[i].data == pieces[i];
  }

  /** An input of at most this many bytes makes Huffman trees too light for codes that do not fit. */
  const SHORT_INPUT: nat := 22718

  lemma ShortInput(src: seq<byte>, level: nat, parts: seq<Part>)
    requires level > 0 && Datas(parts) == Cut(src, BlockSize(level)) && Limited(parts)
    ensures |src| <= SHORT_INPUT ==> AllClean(parts) && FitsDecoder(src, level)
  {
    if |src| <= SHORT_INPUT {
      var pieces := Cut(src, BlockSize(level));
      assert pieces == if |src| == 0 then [] else [src];
      Rle1.EncodeSize(src);
      forall i | 0 <= i < |parts| ensures Clean(parts[i].block) { assert Tame(parts[i]) && parts[i].data == pieces[i]; }
    }
  }

  /** Compressing and decompressing, as a user of both would. */
  method RoundTrip(src: seq<byte>, level: nat, pick: HuffmanBuild.HeapRule, packed: array<byte>, back: array<byte>)
    returns (size: nat, n: nat, ghost parts: seq<Part>)
    requires 1 <= level <= 9 && packed != back
    modifies packed, back
    ensures size > 0 && AllClean(parts) && FitsDecoder(src, level) && |src| <= back.Length ==>
              n == |src| && back[..n] == src
    ensures size > 0 && AllClean(parts) && GroupsFit(parts) && !(FitsDecoder(src, level) && |src| <= back.Length) ==>
              n == 0
    ensures size == 0 && AllClean(parts) && GroupsFit(parts) ==> AllSound(parts) && packed.Length < FileSize(parts)
    ensures level <= 7 ==> FitsDecoder(src, level)
    ensures size > 0 && |src| <= SHORT_INPUT && |src| <= back.Length ==> n == |src| && back[..n] == src
    ensures size > 0 && level >= 8 && src == LongInput() ==> n == 0
  {
    hide *;
    size, parts := Compress(src, packed, level, pick);
    if level <= 7 { SmallLevelsFit(src, level); }
    n := 0;
    if size > 0 {
      FitsGroups(src, level, parts);
      ShortInput(src, level, parts);
      if AllClean(parts) && GroupsFit(parts) { FileRoundTrip(src, level, parts, packed[..size], back.Length); }
      if level >= 8 && src == LongInput() { LargeLevelsFail(level, parts, packed[..size], back.Length); }
      var s;
      n, s := Decompress(packed[..size], back);
    }
  }
}
