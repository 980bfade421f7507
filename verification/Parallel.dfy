/** Parallel compression as the merge of blocks that were compressed alone, and when its result is the serial file. */
module Parallel {
  import opened Bits
  import opened BitIo
  import opened BitAppend
  import opened BlockCodec
  import opened FieldWriter
  import opened BlockEncoder
  import opened Stream
  import opened Bzip2
  import Crc
  import HuffmanBuild
  import Rle1

  /** One block compressed alone: its bytes, the last one padded, and its exact number of bits. */
  datatype BlockResult = BlockResult(data: seq<byte>, nBits: nat, crc: Crc.word, ok: bool)

  function Bound(size: nat): nat { size + size / 10 + 1024 }

  method CompressBound(size: nat) returns (bound: nat)
    ensures bound == Bound(size)
  {
    bound := size + size / 10 + 1024;
  }

  /** The first n bytes, filled up with zeros. */
  method Resize(buf: array<byte>, n: nat) returns (data: seq<byte>)
    ensures |data| == n && (n <= buf.Length ==> data == buf[..n])
  {
    data := if n <= buf.Length then buf[..n] else buf[..] + Repeat(0, n - buf.Length);
  }

  /** Compresses one block into a buffer of its own. */
  method CompressAlone(block: seq<byte>, t: array2<Crc.word>, pick: HuffmanBuild.HeapRule)
    returns (r: BlockResult, ghost wrote: bits, ghost p: Part)
    requires Crc.IsTables(t) && 0 < |block| <= 900000
    ensures r.crc == p.block.crc && p.data == block && |wrote| == r.nBits && |r.data| == (r.nBits + 7) / 8
    ensures KeptOne(r, wrote, p) && Encodes(p.block, p.data, p.column, pick)
    ensures Clean(p.block) && |p.block.selectors| <= 18002 ==>
              Codes(p.block, block, p.column) && wrote == BLOCK_MAGIC + BlockBits(p.block)
  {
    hide *;
    var bound := CompressBound(|block|);
    var buf := new byte[bound](_ => 0);
    var bw := new Writer(buf);
    var ok, crc;
    ghost var b, column;
    ok, crc, b, column := CompressBlock(block, bw, t, pick);
    p := Part(b, block, column);
    wrote := bw.written;
    var nBits, data := PadAndTake(bw);
    r := BlockResult(data, nBits, crc, ok);
    KeptIs(r, wrote, p);
    assert [] + BLOCK_MAGIC == BLOCK_MAGIC;
  }

  lemma KeptIs(r: BlockResult, w: bits, p: Part)
    ensures KeptOne(r, w, p) <==>
              && (r.ok <==> r.nBits / 8 <= Bound(|p.data|))
              && (|r.data| <= Bound(|p.data|) ==> Padded(r.data, r.nBits) && BytesBits(r.data)[..r.nBits] == w)
  {}

  /** The exact number of bits, then the padded bytes. */
  method PadAndTake(bw: Writer) returns (nBits: nat, data: seq<byte>)
    requires bw.Valid()
    modifies bw, bw.dst
    ensures nBits == |old(bw.written)| && |data| == (nBits + 7) / 8
    ensures old(bw.Ok()) <==> nBits / 8 <= bw.dst.Length
    ensures |data| <= bw.dst.Length ==> Padded(data, nBits) && BytesBits(data)[..nBits] == old(bw.written)
  {
    hide BytesBits, BitsOf;
    nBits := bw.totalBits;
    ghost var w, k := bw.written, bw.bufBits;
    ghost var pos0 := bw.pos;
    bw.Flush();
    data := Resize(bw.dst, bw.pos);
    assert 8 * bw.pos == |BytesBits(bw.stream)| == |w| + (8 - k) % 8;
    if bw.pos <= bw.dst.Length {
      assert data == bw.stream;
      PaddedBits(data, w, (8 - k) % 8);
    }
  }

  lemma PaddedBits(data: seq<byte>, w: bits, n: nat)
    requires n < 8 && BytesBits(data) == w + BitsOf(0, n)
    ensures Padded(data, |w|) && BytesBits(data)[..|w|] == w
  {
    ZerosIs(n);
    assert (w + BitsOf(0, n))[..|w|] == w && (w + BitsOf(0, n))[|w|..] == BitsOf(0, n);
  }

  // ---------- the merge ----------

  ghost function Concat(ws: seq<bits>): bits {
    if |ws| == 0 then [] else Concat(ws[..|ws| - 1]) + ws[|ws| - 1]
  }

  ghost function Crcs(start: Crc.word, results: seq<BlockResult>): Crc.word {
    if |results| == 0 then start
    else Crc.Combine(Crcs(start, results[..|results| - 1]), results[|results| - 1].crc)
  }

  /** Each result holds the bits that were written for it. */
  ghost predicate Recorded(results: seq<BlockResult>, ws: seq<bits>) {
    && |ws| == |results|
    && forall b :: 0 <= b < |ws| ==>
         Padded(results[b].data, results[b].nBits) && BytesBits(results[b].data)[..results[b].nBits] == ws[b]
  }

  ghost predicate Measured(results: seq<BlockResult>, ws: seq<bits>) {
    && |ws| == |results|
    && forall b :: 0 <= b < |ws| ==> |results[b].data| == (results[b].nBits + 7) / 8 && |ws[b]| == results[b].nBits
  }

  /** The bits that must precede the footer. */
  ghost function Body(level: nat, ws: seq<bits>): bits
    requires level <= 9
  {
    BytesBits(Header(level)) + Concat(ws)
  }

  /** What stands before the footer in the end: the started byte's bits are taken from its low end. */
  ghost function Preloaded(w: bits): (r: bits)
    ensures |r| == |w|
  {
    w[..|w| - |w| % 8] + LowBits(w[|w| - |w| % 8..])
  }

  lemma ConcatNext(ws: seq<bits>, b: nat)
    requires b < |ws|
    ensures Concat(ws[..b + 1]) == Concat(ws[..b]) + ws[b]
  {
    assert ws[..b + 1][..b] == ws[..b];
  }

  lemma CrcsNext(start: Crc.word, results: seq<BlockResult>, b: nat)
    requires b < |results|
    ensures Crcs(start, results[..b + 1]) == Crc.Combine(Crcs(start, results[..b]), results[b].crc)
  {
    assert results[..b + 1][..b] == results[..b];
  }

  lemma {:induction false} ConcatPrefix(ws: seq<bits>, b: nat)
    requires b <= |ws|
    ensures |Concat(ws[..b])| <= |Concat(ws)|
    decreases |ws| - b
  {
    if b == |ws| {
      assert ws[..b] == ws;
    } else {
      ConcatNext(ws, b);
      ConcatPrefix(ws, b + 1);
    }
  }

  method TotalBits(results: seq<BlockResult>, ghost ws: seq<bits>) returns (total: nat)
    requires Measured(results, ws)
    ensures total == 32 + |Concat(ws)| + 80
  {
    total := 32;
    assert ws[..0] == [];
    for b := 0 to |results|
      invariant total == 32 + |Concat(ws[..b])|
    {
      ConcatNext(ws, b);
      total := total + results[b].nBits;
    }
    assert ws[..|ws|] == ws;
    total := total + 80;
  }

  /** Zeros with the header in front. */
  method StartOutput(dst: array<byte>, level: nat, end: nat)
    requires 4 <= end <= dst.Length && 1 <= level <= 9
    modifies dst
    ensures Holds(dst[..end], BytesBits(Header(level)))
  {
    for i := 0 to end
      invariant forall k :: 0 <= k < i ==> dst[k] == 0
    {
      dst[i] := 0;
    }
    var h := Header(level);
    dst[0], dst[1], dst[2], dst[3] := h[0], h[1], h[2], h[3];
    ZeroBytes(h, dst[..end]);
  }

  lemma {:induction false} ZeroBits(d: seq<byte>)
    requires forall k :: 0 <= k < |d| ==> d[k] == 0
    ensures BytesBits(d) == Zeros(8 * |d|)
    decreases |d|
  {
    hide BytesBits, BitsOf, Zeros;
    if |d| == 0 {
      assert BytesBits(d) == [] && Zeros(0) == [];
    } else {
      ZeroBits(d[1..]);
      assert d == [0] + d[1..];
      BytesBitsConcat([0], d[1..]);
      BytesBitsOne(0);
      ZerosIs(8);
      ZerosSplit(8, 8 * (|d| - 1));
    }
  }

  lemma ZeroBytes(h: seq<byte>, d: seq<byte>)
    requires |h| <= |d| && d[..|h|] == h && forall k :: |h| <= k < |d| ==> d[k] == 0
    ensures Holds(d, BytesBits(h))
  {
    hide BytesBits, Zeros;
    var z := d[|h|..];
    assert d == h + z;
    ZeroBits(z);
    BytesBitsConcat(h, z);
  }

  /** Appends all results. */
  method AppendAll(dst: array<byte>, level: nat, results: seq<BlockResult>, ghost ws: seq<bits>, ghost end: nat)
    returns (bitCursor: nat, combined: Crc.word)
    requires level <= 9 && Measured(results, ws) && end <= dst.Length && Holds(dst[..end], BytesBits(Header(level)))
    requires end == (32 + |Concat(ws)| + 80 + 7) / 8
    modifies dst
    ensures bitCursor == |Body(level, ws)| == 32 + |Concat(ws)| && combined == Crcs(Zeros(32), results)
    ensures Recorded(results, ws) ==> Holds(dst[..end], Body(level, ws))
  {
    hide Holds, BytesBits, Crc.Combine, Padded;
    bitCursor, combined := 32, Zeros(32);
    assert ws[..0] == [] && results[..0] == [];
    assert BytesBits(Header(level)) + [] == BytesBits(Header(level));
    for b := 0 to |results|
      invariant bitCursor == 32 + |Concat(ws[..b])| && combined == Crcs(Zeros(32), results[..b])
      invariant Recorded(results, ws) ==> Holds(dst[..end], Body(level, ws[..b]))
    {
      ConcatNext(ws, b);
      CrcsNext(Zeros(32), results, b);
      ConcatPrefix(ws, b + 1);
      Append(dst, bitCursor, results[b].data, results[b].nBits, Body(level, ws[..b]), end);
      Assoc(BytesBits(Header(level)), Concat(ws[..b]), ws[b]);
      bitCursor := bitCursor + results[b].nBits;
      combined := Crc.Combine(combined, results[b].crc);
    }
    assert ws[..|ws|] == ws && results[..|results|] == results;
  }

  /** The footer, written by a small writer that starts from the byte the blocks end in. */
  method WriteFooter(dst: array<byte>, bitCursor: nat, combined: Crc.word, ghost w: bits, end: nat)
    requires bitCursor == |w| && end == (|w| + 80 + 7) / 8 && end <= dst.Length
    modifies dst
    ensures old(Holds(dst[..end], w)) ==>
              BytesBits(dst[..end]) == Preloaded(w) + (END_MAGIC + combined) + Zeros(8 * end - |w| - 80)
  {
    hide *;
    var footerByte, footerShift := bitCursor / 8, bitCursor % 8;
    ghost var before := dst[..end];
    var preloaded: byte := 0;
    if footerShift != 0 { preloaded := dst[footerByte]; }
    ghost var start;
    var footer;
    footer, start := MakeFooter(preloaded, footerShift, combined);
    CopyBytes(dst, footerByte, footer);
    assert dst[..end] == before[..footerByte] + footer;
    if Holds(before, w) { FooterBits(before, w, start, footer, END_MAGIC + combined); }
  }

  /** The footer's bytes; the first of them starts with `shift` bits of the byte that the blocks end in. */
  method MakeFooter(c: byte, shift: nat, combined: Crc.word) returns (footer: seq<byte>, ghost start: bits)
    requires shift < 8
    ensures start == (if shift == 0 then [] else BitsOf(c, shift)) && |END_MAGIC + combined| == 80
    ensures |footer| == (shift + 80 + 7) / 8
    ensures BytesBits(footer) == (start + (END_MAGIC + combined)) + Zeros(8 * |footer| - shift - 80)
  {
    hide BytesBits, Magic, BitsOf, Zeros, END_MAGIC;
    var footerBuf := new byte[16](_ => 0);
    var fw := new Writer(footerBuf);
    if shift != 0 { Preload(fw, c, shift); }
    start := fw.written;
    WriteEnd(fw, combined);
    StreamLength(fw, start, combined, shift);
    footer := footerBuf[..fw.pos];
    ZerosIs(8 * |fw.stream| - shift - 80);
  }

  method Preload(fw: Writer, c: byte, n: nat)
    requires fw.Valid() && fw.written == [] && fw.pos == 0 && 0 < n < 8
    modifies fw
    ensures fw.Valid() && fw.written == BitsOf(c, n) && fw.pos == 0
  {
    hide BitsOf;
    fw.buf, fw.bufBits, fw.totalBits := c, n, n;
    fw.written := BitsOf(c, n);
    assert fw.stream == [] && BytesBits([]) + BitsOf(c, n) == BitsOf(c, n);
  }

  lemma StreamLength(fw: Writer, start: bits, combined: Crc.word, shift: nat)
    requires fw.Valid() && |start| == shift < 8 && fw.dst.Length == 16
    requires |fw.stream| == (|start + (END_MAGIC + combined)| + 7) / 8
    ensures |END_MAGIC + combined| == 80 && fw.pos == |fw.stream| == (shift + 80 + 7) / 8 <= 16
    ensures fw.dst[..fw.pos] == fw.stream
  {}

  /** Whole bytes in front, and the footer's bytes behind. */
  lemma FooterBits(d: seq<byte>, w: bits, start: bits, stream: seq<byte>, footer: bits)
    requires Holds(d, w) && |footer| == 80 && |d| == (|w| + 80 + 7) / 8
    requires start == if |w| % 8 == 0 then [] else BitsOf(d[|w| / 8], |w| % 8)
    requires BytesBits(stream) == (start + footer) + Zeros(8 * |d| - |w| - 80)
    ensures BytesBits(d[..|w| / 8] + stream) == Preloaded(w) + footer + Zeros(8 * |d| - |w| - 80)
  {
    hide BytesBits, BitsOf, Zeros, Holds, LowBits;
    var k, s, z := |w| / 8, |w| % 8, Zeros(8 * |d| - |w| - 80);
    FrontBytes(d, w, start, k, s);
    BytesBitsConcat(d[..k], stream);
    FrontAndFooter(w[..8 * k], start, footer, z);
  }

  lemma FrontAndFooter(a: bits, b: bits, c: bits, z: bits)
    ensures a + ((b + c) + z) == (a + b) + c + z
  {
    Assoc(a, b + c, z);
    Assoc(a, b, c);
  }

  lemma FrontBytes(d: seq<byte>, w: bits, start: bits, k: nat, s: nat)
    requires Holds(d, w) && |w| == 8 * k + s && s < 8 && k + 1 < |d|
    requires start == if s == 0 then [] else BitsOf(d[k], s)
    ensures BytesBits(d[..k]) == w[..8 * k] && start == LowBits(w[8 * k..])
  {
    hide BytesBits, BitsOf, Zeros, Holds;
    if s == 0 {
      WholeBytes(d, w, k, 0);
      assert w[..8 * k] == w && LowBits(w[8 * k..]) == [];
    } else {
      Dissect(d, w, k, s);
      LastBits(d[k], s);
    }
  }

  lemma LastBits(c: byte, s: nat)
    requires s <= 8
    ensures BitsOf(c, s) == BitsOf(c, 8)[8 - s..]
  {
    TopField(c, s, 8 - s);
    assert s + (8 - s) == 8;
  }

  /** The bits of the byte that the blocks end in. */
  ghost function Pending(w: bits): bits {
    w[|w| - |w| % 8..]
  }

  ghost predicate AllZero(p: bits) {
    forall i :: 0 <= i < |p| ==> !p[i]
  }

  lemma PreloadedSame(w: bits)
    ensures Preloaded(w) == w <==> AllZero(Pending(w))
  {
    var k := |w| - |w| % 8;
    LowBitsSame(Pending(w));
    assert w == w[..k] + w[k..];
    assert Preloaded(w)[k..] == LowBits(Pending(w));
  }

  /** The merged bytes are the serial file if and only if the blocks end on a byte boundary or their pending bits are
      all zero. */
  lemma MergedIsFile(bytes: seq<byte>, level: nat, parts: seq<Part>)
    requires level <= 9 && AllSound(parts)
    requires var w := BytesBits(Header(level)) + BlocksBits(parts);
             && |bytes| == (|w| + 80 + 7) / 8
             && BytesBits(bytes) == Preloaded(w) + (END_MAGIC + CombinedCrc(Zeros(32), parts))
                                    + Zeros(8 * |bytes| - |w| - 80)
    ensures IsFile(bytes, level, parts) <==> AllZero(Pending(BytesBits(Header(level)) + BlocksBits(parts)))
  {
    hide BytesBits, BlocksBits, Preloaded, Zeros, AllZero, Pending, IsFile, END_MAGIC, CombinedCrc, Magic;
    var w := BytesBits(Header(level)) + BlocksBits(parts);
    var footer := END_MAGIC + CombinedCrc(Zeros(32), parts);
    FooterSize(parts);
    PreloadedSame(w);
    if Preloaded(w) == w {
      assert w + footer <= BytesBits(bytes);
      HeaderInFront(bytes, level, w + footer);
      FileMade(bytes, level, parts);
    }
    if IsFile(bytes, level, parts) {
      FileBits(bytes, level, parts);
      assert (w + footer)[..|w|] == w;
      assert BytesBits(bytes)[..|w|] == Preloaded(w);
    }
  }

  lemma FooterSize(parts: seq<Part>)
    requires AllSound(parts)
    ensures |END_MAGIC + CombinedCrc(Zeros(32), parts)| == 80
    ensures StreamBits(parts) == BlocksBits(parts) + (END_MAGIC + CombinedCrc(Zeros(32), parts))
  {
    Assoc(BlocksBits(parts), END_MAGIC, CombinedCrc(Zeros(32), parts));
  }

  lemma HeaderInFront(bytes: seq<byte>, level: nat, all: bits)
    requires level <= 9 && |bytes| >= 4 && all <= BytesBits(bytes) && |all| >= 32
    requires all[..32] == BytesBits(Header(level))
    ensures Header(level) <= bytes
  {
    hide BytesBits;
    assert bytes == bytes[..4] + bytes[4..];
    BytesBitsConcat(bytes[..4], bytes[4..]);
    assert BytesBits(bytes)[..32] == BytesBits(bytes[..4]) && BytesBits(bytes)[..32] == all[..32];
    BytesBitsInjective(bytes[..4], Header(level));
  }

  lemma FileBits(bytes: seq<byte>, level: nat, parts: seq<Part>)
    requires level <= 9 && AllSound(parts) && IsFile(bytes, level, parts)
    ensures (BytesBits(Header(level)) + BlocksBits(parts)) + (END_MAGIC + CombinedCrc(Zeros(32), parts))
         <= BytesBits(bytes)
  {
    hide BytesBits, BlocksBits, END_MAGIC, CombinedCrc, Magic;
    var h, rest := Header(level), bytes[4..];
    FooterSize(parts);
    BytesBitsConcat(h, rest);
    Assoc(BytesBits(h), BlocksBits(parts), END_MAGIC + CombinedCrc(Zeros(32), parts));
    assert BytesBits(bytes) == BytesBits(h) + BytesBits(rest);
    assert BytesBits(rest) == StreamBits(parts) + BytesBits(rest)[|StreamBits(parts)|..];
  }

  // ---------- the entry point ----------

  /** Merges results into dst; 0 when dst has no room. */
  method Merge(dst: array<byte>, level: nat, results: seq<BlockResult>, ghost ws: seq<bits>) returns (size: nat)
    requires 1 <= level <= 9 && Measured(results, ws)
    modifies dst
    ensures size <= dst.Length && (size > 0 ==> size == (|Body(level, ws)| + 80 + 7) / 8)
    ensures size == 0 ==> dst.Length < (|Body(level, ws)| + 80 + 7) / 8
    ensures size > 0 && Recorded(results, ws) ==>
              BytesBits(dst[..size]) == Preloaded(Body(level, ws)) + (END_MAGIC + Crcs(Zeros(32), results))
                                        + Zeros(8 * size - |Body(level, ws)| - 80)
  {
    hide *;
    BodySize(level, ws);
    var totalBits := TotalBits(results, ws);
    var totalBytes := (totalBits + 7) / 8;
    if totalBytes > dst.Length { return 0; }
    StartOutput(dst, level, totalBytes);
    var bitCursor, combined := AppendAll(dst, level, results, ws, totalBytes);
    WriteFooter(dst, bitCursor, combined, Body(level, ws), totalBytes);
    size := totalBytes;
  }

  lemma BodySize(level: nat, ws: seq<bits>)
    requires level <= 9
    ensures |Body(level, ws)| == 32 + |Concat(ws)|
  {}

  /** What is known after some blocks were compressed alone. */
  ghost predicate Alone(src: seq<byte>, pos: nat, level: nat, results: seq<BlockResult>, ws: seq<bits>,
                        parts: seq<Part>)
    requires 1 <= level <= 9 && pos <= |src|
  {
    && |ws| == |results| == |parts| && Measured(results, ws)
    && Kept(results, ws, parts)
    && Datas(parts) + Cut(src[pos..], BlockSize(level)) == Cut(src, BlockSize(level))
    && Crcs(Zeros(32), results) == CombinedCrc(Zeros(32), parts)
    && (AllClean(parts) && GroupsFit(parts) ==>
         AllSound(parts) && Concat(ws) == BlocksBits(parts) && |ws| == |parts| && Lengths(ws, parts))
  }

  /** The buffer of one block held its bits, or it ran out. */
  ghost predicate KeptOne(r: BlockResult, w: bits, p: Part) {
    && (r.ok <==> r.nBits / 8 <= Bound(|p.data|))
    && (|r.data| <= Bound(|p.data|) ==> Padded(r.data, r.nBits) && BytesBits(r.data)[..r.nBits] == w)
  }

  ghost predicate Kept(results: seq<BlockResult>, ws: seq<bits>, parts: seq<Part>)
    requires |results| == |ws| == |parts|
  {
    forall b :: 0 <= b < |parts| ==> KeptOne(results[b], ws[b], parts[b])
  }

  ghost predicate Lengths(ws: seq<bits>, parts: seq<Part>)
    requires |ws| == |parts| && AllSound(parts)
  {
    forall b :: 0 <= b < |parts| ==> |ws[b]| == PartSize(parts[b])
  }

  ghost function PartSize(p: Part): nat
    requires Sound(p)
  {
    |BLOCK_MAGIC + BlockBits(p.block)|
  }

  /** Every block fits the buffer it is compressed into, `slack` more bits included. */
  ghost predicate Roomy(parts: seq<Part>, slack: nat)
    requires AllSound(parts)
  {
    forall b :: 0 <= b < |parts| ==> (PartSize(parts[b]) + slack) / 8 <= Bound(|parts[b].data|)
  }

  lemma AloneFirst(src: seq<byte>, level: nat)
    requires 1 <= level <= 9
    ensures Alone(src, 0, level, [], [], [])
  {
    assert src[0..] == src;
    assert Datas([]) + Cut(src, BlockSize(level)) == Cut(src, BlockSize(level));
  }

  lemma AloneNext(src: seq<byte>, pos: nat, level: nat, results: seq<BlockResult>, ws: seq<bits>, parts: seq<Part>,
                  r: BlockResult, w: bits, p: Part)
    requires 1 <= level <= 9 && pos < |src| && Alone(src, pos, level, results, ws, parts)
    requires p.data == src[pos..pos + Min(BlockSize(level), |src| - pos)] && |p.data| <= 900000
    requires |r.data| == (r.nBits + 7) / 8 && |w| == r.nBits && r.crc == p.block.crc
    requires KeptOne(r, w, p)
    requires Clean(p.block) && |p.block.selectors| <= 18002 ==>
               Codes(p.block, p.data, p.column) && w == BLOCK_MAGIC + BlockBits(p.block)
    ensures Alone(src, pos + |p.data|, level, results + [r], ws + [w], parts + [p])
  {
    hide *;
    MinBounds(BlockSize(level), |src| - pos);
    MeasuredNext(src, pos, level, results, ws, parts, r, w, p);
    CutStep(Datas(parts), src, pos, BlockSize(level));
    assert Datas(parts + [p]) == Datas(parts) + [p.data];
    CrcAppend(Zeros(32), parts, p);
    LastCrc(results, r);
    LastBitsOf(ws, w);
    if AllClean(parts + [p]) && GroupsFit(parts + [p]) {
      GroupsOfAll(parts, p);
      CleanOfAll(parts, p);
      SoundPart(p);
      BlocksAppend(parts, p);
      LengthsAppend(ws, parts, w, p);
    }
    AloneIs(src, pos, level, results, ws, parts, r, w, p);
  }

  lemma MinBounds(a: nat, b: nat)
    ensures 0 <= Min(a, b) <= a && Min(a, b) <= b
  {}

  lemma LastCrc(results: seq<BlockResult>, r: BlockResult)
    ensures Crcs(Zeros(32), results + [r]) == Crc.Combine(Crcs(Zeros(32), results), r.crc)
  {
    hide Crc.Combine;
    assert (results + [r])[..|results|] == results;
  }

  lemma LastBitsOf(ws: seq<bits>, w: bits)
    ensures Concat(ws + [w]) == Concat(ws) + w
  {
    assert (ws + [w])[..|ws|] == ws;
  }

  lemma MeasuredNext(src: seq<byte>, pos: nat, level: nat, results: seq<BlockResult>, ws: seq<bits>, parts: seq<Part>,
                     r: BlockResult, w: bits, p: Part)
    requires 1 <= level <= 9 && pos < |src| && Alone(src, pos, level, results, ws, parts)
    requires |r.data| == (r.nBits + 7) / 8 && |w| == r.nBits
    requires KeptOne(r, w, p)
    ensures |results| == |ws| == |parts| && Measured(results + [r], ws + [w])
    ensures Kept(results + [r], ws + [w], parts + [p])
    ensures Crcs(Zeros(32), results) == CombinedCrc(Zeros(32), parts)
    ensures AllClean(parts) && GroupsFit(parts) ==>
              AllSound(parts) && Concat(ws) == BlocksBits(parts) && Lengths(ws, parts)
    ensures BlockSize(level) > 0
    ensures Datas(parts) + Cut(src[pos..], BlockSize(level)) == Cut(src, BlockSize(level))
  {
    hide KeptOne, Padded, BytesBits, Crcs, CombinedCrc, GroupsFit, AllSound, Concat, BlocksBits, Cut, Datas, Lengths;
  }

  lemma AloneIs(src: seq<byte>, pos: nat, level: nat, results: seq<BlockResult>, ws: seq<bits>, parts: seq<Part>,
                r: BlockResult, w: bits, p: Part)
    requires 1 <= level <= 9 && pos + |p.data| <= |src| && Alone(src, pos, level, results, ws, parts)
    requires |results| == |ws| == |parts| && Measured(results + [r], ws + [w])
    requires Kept(results + [r], ws + [w], parts + [p])
    requires Datas(parts + [p]) + Cut(src[pos + |p.data|..], BlockSize(level)) == Cut(src, BlockSize(level))
    requires Crcs(Zeros(32), results + [r]) == CombinedCrc(Zeros(32), parts + [p])
    requires AllClean(parts + [p]) && GroupsFit(parts + [p]) ==>
               && AllSound(parts + [p]) && Concat(ws + [w]) == BlocksBits(parts + [p])
               && Lengths(ws + [w], parts + [p])
    ensures Alone(src, pos + |p.data|, level, results + [r], ws + [w], parts + [p])
  {
    hide KeptOne, Padded, BytesBits, Crcs, CombinedCrc, GroupsFit, AllSound, Concat, BlocksBits, Cut, Datas, Measured,
        Kept, Lengths;
  }

  lemma LengthsAppend(ws: seq<bits>, parts: seq<Part>, w: bits, p: Part)
    requires |ws| == |parts| && AllSound(parts) && Lengths(ws, parts) && Sound(p)
             && w == BLOCK_MAGIC + BlockBits(p.block)
    ensures AllSound(parts + [p]) && Lengths(ws + [w], parts + [p])
  {
    hide BlockBits, Magic, BLOCK_MAGIC, Sound;
    SoundAppend(parts, p);
  }

  lemma SoundPart(p: Part)
    requires Codes(p.block, p.data, p.column) && |p.data| <= 900000
    ensures Sound(p)
  {
    Rle1.EncodeSize(p.data);
  }

  predicate AllOk(results: seq<BlockResult>) {
    forall b :: 0 <= b < |results| ==> results[b].ok
  }

  /** Every block is what the encoder makes of its bytes. */
  ghost predicate AllEncoded(parts: seq<Part>, pick: HuffmanBuild.HeapRule) {
    forall b :: 0 <= b < |parts| ==> Encodes(parts[b].block, parts[b].data, parts[b].column, pick)
  }

  lemma EncodedMore(parts: seq<Part>, p: Part, pick: HuffmanBuild.HeapRule)
    requires AllEncoded(parts, pick) && Encodes(p.block, p.data, p.column, pick)
    ensures AllEncoded(parts + [p], pick)
  {
    hide Encodes;
  }

  lemma NoneEncoded(pick: HuffmanBuild.HeapRule)
    ensures AllEncoded([], pick)
  {}

  /** Compresses every block alone. */
  method CompressBlocks(src: seq<byte>, level: nat, pick: HuffmanBuild.HeapRule)
    returns (results: seq<BlockResult>, ghost ws: seq<bits>, ghost parts: seq<Part>)
    requires 1 <= level <= 9
    ensures Alone(src, |src|, level, results, ws, parts) && AllEncoded(parts, pick)
  {
    hide *;
    BlockSizeOf(level);
    var blockSize := level * 100000;
    LevelSizes(level);
    NoneEncoded(pick);
    var nBlocks := (|src| + blockSize - 1) / blockSize;
    var t := Crc.MakeTables();
    results, ws, parts := [], [], [];
    AloneFirst(src, level);
    BlockStarts(|src|, blockSize, 0);
    for b := 0 to nBlocks
      invariant Crc.IsTables(t) && Alone(src, BlockStart(|src|, blockSize, b), level, results, ws, parts)
      invariant AllEncoded(parts, pick)
    {
      BlockStarts(|src|, blockSize, b);
      var start := b * blockSize;
      var len := Least(blockSize, |src| - start);
      var r;
      ghost var w, p;
      r, w, p := CompressAlone(src[start..start + len], t, pick);
      AloneNext(src, start, level, results, ws, parts, r, w, p);
      EncodedMore(parts, p, pick);
      results, ws, parts := results + [r], ws + [w], parts + [p];
    }
    BlockStarts(|src|, blockSize, nBlocks);
  }

  /** Where block b starts, or the end of the input. */
  function BlockStart(n: nat, size: nat, b: nat): (start: nat)
    ensures start <= n
  {
    if b * size < n then b * size else n
  }

  lemma BlockStarts(n: nat, size: nat, b: nat)
    requires size > 0
    ensures b < (n + size - 1) / size ==>
              b * size < n && BlockStart(n, size, b) == b * size
              && BlockStart(n, size, b + 1) == b * size + Min(size, n - b * size)
    ensures b == (n + size - 1) / size ==> BlockStart(n, size, b) == n
    ensures BlockStart(n, size, 0) == 0 && (n + size - 1) / size >= 0
  {
    var q := (n + size - 1) / size;
    DivModSplit(n + size - 1, size);
    OneMoreBlock(b, size);
    if b < q {
      MulMono(b + 1, q, size);
    }
    assert 0 * size == 0;
  }

  lemma OneMoreBlock(b: nat, size: nat)
    ensures (b + 1) * size == b * size + size
  {}

  /** The blocks are compressed alone and merged. */
  predicate Merges(src: seq<byte>, level: nat, nThreads: int) { |src| > BlockSize(level) && nThreads != 1 }

  /** Parallel compression. With at least two blocks and more than one thread the blocks are merged, otherwise the
      serial compressor runs. The result is 0 for a level out of range, without room, or when a block is too long for
      its own buffer. Otherwise it is a file exactly when nothing was merged or only zeros are pending before the
      footer. */
  method CompressParallel(src: seq<byte>, dst: array<byte>, level: int, nThreads: int, pick: HuffmanBuild.HeapRule)
    returns (size: nat, ghost parts: seq<Part>)
    modifies dst
    ensures size <= dst.Length && (level < 1 || level > 9 ==> size == 0)
    ensures 1 <= level <= 9 && AllClean(parts) && GroupsFit(parts) ==>
              && AllSound(parts)
              && (size == 0 <==> dst.Length < FileSize(parts) || (Merges(src, level, nThreads) && !Roomy(parts, 0)))
    ensures size > 0 && AllClean(parts) && GroupsFit(parts) && (Merges(src, level, nThreads) ==> Roomy(parts, 7)) ==>
              && 1 <= level <= 9 && Datas(parts) == Cut(src, BlockSize(level))
              && (IsFile(dst[..size], level, parts)
                  <==> !Merges(src, level, nThreads)
                       || AllZero(Pending(BytesBits(Header(level)) + BlocksBits(parts))))
    ensures 1 <= level <= 9 && Merges(src, level, nThreads) ==>
              AllEncoded(parts, pick) && Datas(parts) == Cut(src, BlockSize(level))
  {
    hide *;
    parts := [];
    NoParts();
    if level < 1 || level > 9 { return 0, parts; }
    LevelSizes(level);
    BlockSizeOf(level);
    var blockSize := level * 100000;
    var nBlocks := (|src| + blockSize - 1) / blockSize;
    BlockCount(|src|, blockSize);
    MergesIs(src, level, nThreads);
    if nBlocks == 0 {
      size := CompressNothing(src, dst, level);
      return;
    }
    if nBlocks == 1 || nThreads == 1 {
      size, parts := Compress(src, dst, level, pick);
      if size > 0 && AllClean(parts) && GroupsFit(parts) { FileLength(dst[..size], level, parts); }
      return;
    }
    var results;
    ghost var ws;
    results, ws, parts := CompressBlocks(src, level, pick);
    AloneMeans(src, level, results, ws, parts);
    if !AllOk(results) { return 0, parts; }
    size := Merge(dst, level, results, ws);
    if size > 0 && AllClean(parts) && GroupsFit(parts) && Roomy(parts, 7) { MergedIsFile(dst[..size], level, parts); }
  }

  lemma MergesIs(src: seq<byte>, level: nat, nThreads: int)
    ensures Merges(src, level, nThreads) <==> |src| > BlockSize(level) && nThreads != 1
  {}

  lemma NoParts()
    ensures AllSound([])
  {}

  lemma BlockCount(n: nat, size: nat)
    requires size > 0
    ensures (n + size - 1) / size == 0 <==> n == 0
    ensures (n + size - 1) / size <= 1 <==> n <= size
  {
    var q := (n + size - 1) / size;
    DivModSplit(n + size - 1, size);
    if q == 0 { assert n + size - 1 < size; }
    if q == 1 { assert q * size == size; }
    if q >= 2 { MulMono(2, q, size); }
  }

  /** An empty input is a header and a footer. */
  method CompressNothing(src: seq<byte>, dst: array<byte>, level: nat) returns (size: nat)
    requires 1 <= level <= 9 && |src| == 0
    modifies dst
    ensures size <= dst.Length && 0 < BlockSize(level) && Datas([]) == Cut(src, BlockSize(level)) && AllSound([])
    ensures size > 0 ==> IsFile(dst[..size], level, [])
    ensures size == 0 <==> dst.Length < FileSize([])
  {
    var bw := new Writer(dst);
    WriteHeader(bw, level);
    ghost var w := bw.written;
    WroteNothing(level);
    WriteEnd(bw, Zeros(32));
    WholeFile(w, level, [], bw.stream, dst.Length);
    WriterFacts(bw);
    size := if bw.Ok() then bw.pos else 0;
  }

  lemma AloneMeans(src: seq<byte>, level: nat, results: seq<BlockResult>, ws: seq<bits>, parts: seq<Part>)
    requires 1 <= level <= 9 && Alone(src, |src|, level, results, ws, parts)
    ensures Measured(results, ws) && BlockSize(level) > 0 && Datas(parts) == Cut(src, BlockSize(level))
    ensures AllClean(parts) && GroupsFit(parts) ==>
              && AllSound(parts) && Body(level, ws) == BytesBits(Header(level)) + BlocksBits(parts)
              && FileSize(parts) == (|Body(level, ws)| + 80 + 7) / 8
              && (AllOk(results) <==> Roomy(parts, 0)) && (Roomy(parts, 7) ==> Recorded(results, ws))
    ensures Crcs(Zeros(32), results) == CombinedCrc(Zeros(32), parts)
  {
    hide BytesBits, Padded, Crcs, CombinedCrc, BlocksBits, AllSound, GroupsFit, Lengths, Kept, Measured, Recorded,
        AllOk, Roomy;
    assert src[|src|..] == [] && Cut([], BlockSize(level)) == [];
    if AllClean(parts) && GroupsFit(parts) {
      FooterSize(parts);
      WhatWasKept(results, ws, parts);
    }
  }

  lemma WhatWasKept(results: seq<BlockResult>, ws: seq<bits>, parts: seq<Part>)
    requires Measured(results, ws) && |parts| == |ws| == |results| && AllSound(parts)
    requires Kept(results, ws, parts) && Lengths(ws, parts)
    ensures (AllOk(results) <==> Roomy(parts, 0)) && (Roomy(parts, 7) ==> Recorded(results, ws))
  {
    hide Padded, BytesBits, BlockBits, Magic, Sound;
    assert forall b :: 0 <= b < |parts| ==> KeptOne(results[b], ws[b], parts[b]);
  }
}
