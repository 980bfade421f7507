/** The merge of blocks that were compressed alone does fail: behind every input that fills its blocks, at least one of
    two short tails gives bytes that are no file. */
module MergeFailure {
  import opened Bits
  import opened BlockFormat
  import opened BlockCodec
  import opened BlockEncoder
  import opened Stream
  import opened Bzip2
  import opened Parallel
  import opened SameBlocks
  import opened TailBlocks
  import opened BlockSizes
  import HuffmanBuild

  // ---------- where the blocks end ----------

  /** A last bit that is set is pending, unless the blocks end on a byte boundary. */
  lemma SetBitPending(w: bits)
    requires |w| > 0 && w[|w| - 1] && |w| % 8 != 0
    ensures !AllZero(Pending(w))
  {
    assert Pending(w)[|w| % 8 - 1] == w[|w| - 1];
  }

  /** The encoder's block for a tail ends in a set bit; the lengths of the two tails never agree modulo eight. */
  lemma TailEnds(p: Part, long: bool, pick: HuffmanBuild.HeapRule)
    requires p.data == Tail(long) && Encodes(p.block, p.data, p.column, pick)
    ensures Clean(p.block) && |p.block.selectors| == 1
    ensures Sound(p) ==>
              var w := BLOCK_MAGIC + BlockBits(p.block);
              && |w| > 0 && w[|w| - 1]
              && (if long then |w| == 184 || |w| == 186 else |w| == 180 || |w| == 182)
  {
    hide *;
    var other := FieldsOfTail(p.block, p.column, long, pick);
    TailClean(p.block, long, other);
    if Sound(p) {
      SoundIs(p);
      BitsOfTail(p.block, long, other);
      MapIs(p.block, long, other);
      MapBits(p.block.inUse);
      var w := BLOCK_MAGIC + BlockBits(p.block);
      assert |w| == 48 + |BlockBits(p.block)| && w[|w| - 1] == BlockBits(p.block)[|BlockBits(p.block)| - 1];
    }
  }

  lemma SoundIs(p: Part)
    requires Sound(p)
    ensures WellFormed(p.block) && |BLOCK_MAGIC| == 48
  {
    hide WellFormed;
  }

  lemma MapIs(b: Block, long: bool, other: nat)
    requires TailFields(b, long, other)
    ensures b.inUse == seq(256, i => i == 255)
  {}

  /** One page of the map is written. */
  lemma {:induction false} PageBits(inUse: seq<bool>, i: nat)
    requires inUse == seq(256, i => i == 255) && i <= 16
    ensures |FineFrom(inUse, i)| == if i <= 15 then 16 else 0
    decreases 16 - i
  {
    if i < 16 {
      PageBits(inUse, i + 1);
      assert Page(inUse, i)[15] == inUse[16 * i + 15];
      assert AnyTrue(Page(inUse, i)) <==> i == 15;
    }
  }

  lemma MapBits(inUse: seq<bool>)
    requires inUse == seq(256, i => i == 255)
    ensures |InUseBits(inUse)| == 32
  {
    hide FineFrom, Coarse;
    PageBits(inUse, 0);
  }

  // ---------- one front, two tails ----------

  /** Behind fronts of the same length one of the tails leaves a set bit pending. */
  lemma OneIsPending(front: bits, front': bits, w: bits, w': bits)
    requires |front| == |front'| && |w| > 0 && w[|w| - 1] && |w'| > 0 && w'[|w'| - 1]
    requires |w| == 180 || |w| == 182
    requires |w'| == 184 || |w'| == 186
    ensures !AllZero(Pending(front + w)) || !AllZero(Pending(front' + w'))
  {
    hide AllZero, Pending;
    if |front + w| % 8 != 0 { SetBitPending(front + w); } else { SetBitPending(front' + w'); }
  }

  /** What is known of all blocks of an input, its last piece being a tail. */
  ghost predicate EndsIn(parts: seq<Part>, src: seq<byte>, size: nat, long: bool, pick: HuffmanBuild.HeapRule)
    requires size > 0
  {
    |parts| > 0 && Datas(parts) == Cut(src, size) + [Tail(long)] && AllEncoded(parts, pick)
  }

  /** All blocks but the last, and the last. */
  lemma FrontAndTail(parts: seq<Part>, src: seq<byte>, size: nat, long: bool, pick: HuffmanBuild.HeapRule)
    requires size > 0 && EndsIn(parts, src, size, long, pick)
    ensures var k := |parts| - 1;
            && Datas(parts[..k]) == Cut(src, size) && AllEncoded(parts[..k], pick) && parts == parts[..k] + [parts[k]]
            && parts[k].data == Tail(long) && Encodes(parts[k].block, parts[k].data, parts[k].column, pick)
            && (AllSound(parts) ==> AllSound(parts[..k]) && Sound(parts[k]))
  {
    hide Encodes, Sound, Cut, Tail;
    var k := |parts| - 1;
    assert Datas(parts)[k] == Tail(long);
    forall i | 0 <= i < k ensures parts[i].data == Cut(src, size)[i] { assert Datas(parts)[i] == parts[i].data; }
    assert Datas(parts[..k]) == Cut(src, size);
  }

  /** For every input: the blocks of the input with one of the tails do not end in zeros. */
  lemma NotBothZero(src: seq<byte>, level: nat, pick: HuffmanBuild.HeapRule, parts: seq<Part>, parts': seq<Part>)
    requires 1 <= level <= 9 && AllSound(parts) && AllSound(parts')
    requires EndsIn(parts, src, BlockSize(level), false, pick) && EndsIn(parts', src, BlockSize(level), true, pick)
    ensures !AllZero(Pending(BytesBits(Header(level)) + BlocksBits(parts)))
         || !AllZero(Pending(BytesBits(Header(level)) + BlocksBits(parts')))
  {
    hide *;
    LevelSizes(level);
    FrontAndTail(parts, src, BlockSize(level), false, pick);
    FrontAndTail(parts', src, BlockSize(level), true, pick);
    var k, k' := |parts| - 1, |parts'| - 1;
    SameFront(parts[..k], parts'[..k'], pick);
    TailEnds(parts[k], false, pick);
    TailEnds(parts'[k'], true, pick);
    BlocksAppend(parts[..k], parts[k]);
    BlocksAppend(parts'[..k'], parts'[k']);
    var h, w, w' := BytesBits(Header(level)), BLOCK_MAGIC + BlockBits(parts[k].block),
                    BLOCK_MAGIC + BlockBits(parts'[k'].block);
    Assoc(h, BlocksBits(parts[..k]), w);
    Assoc(h, BlocksBits(parts'[..k']), w');
    OneIsPending(h + BlocksBits(parts[..k]), h + BlocksBits(parts'[..k']), w, w');
  }

  // ---------- two runs ----------

  /** Nothing stands in the way of merging these blocks: codes that fit, few enough groups, and room in their buffers.
      */
  ghost predicate Intact(parts: seq<Part>) {
    AllClean(parts) && GroupsFit(parts) && AllSound(parts) && Roomy(parts, 7)
  }

  lemma {:induction false} CutTail(src: seq<byte>, size: nat, tail: seq<byte>)
    requires size > 0 && |src| % size == 0 && 0 < |tail| <= size
    ensures Cut(src + tail, size) == Cut(src, size) + [tail]
    decreases |src|
  {
    if |src| == 0 {
      assert src + tail == tail;
    } else {
      WholePieces(|src|, size);
      var more := src[size..];
      assert (src + tail)[..size] == src[..size] && (src + tail)[size..] == more + tail;
      CutTail(more, size, tail);
      if |src| == size { assert more == [] && src[..size] == src; }
      Assoc([src[..size]], Cut(more, size), [tail]);
      assert Cut(src, size) == [src[..size]] + Cut(more, size);
    }
  }

  lemma WholePieces(n: nat, size: nat)
    requires size > 0 && n > 0 && n % size == 0
    ensures n >= size && (n - size) % size == 0
  {
    DivModSplit(n, size);
    DivModUnique(n - size, n / size - 1, size, 0);
  }

  lemma CleanTail(p: Part, long: bool, pick: HuffmanBuild.HeapRule)
    requires p.data == Tail(long) && Encodes(p.block, p.data, p.column, pick)
    ensures Clean(p.block) && |p.block.selectors| <= 18002
    ensures Sound(p) ==> (PartSize(p) + 7) / 8 <= Bound(|p.data|)
  {
    hide Clean, BlockBits, BLOCK_MAGIC, Encodes, Sound;
    TailEnds(p, long, pick);
  }

  /** A tail is always intact, so only the blocks in front of it matter. */
  lemma WholeIntact(parts: seq<Part>, src: seq<byte>, size: nat, long: bool, pick: HuffmanBuild.HeapRule)
    requires size > 0 && EndsIn(parts, src, size, long, pick)
    requires AllClean(parts) && GroupsFit(parts) ==> AllSound(parts)
    requires AllClean(parts[..|parts| - 1]) && GroupsFit(parts[..|parts| - 1])
    ensures AllSound(parts) && AllSound(parts[..|parts| - 1])
    ensures Roomy(parts[..|parts| - 1], 7) ==> Intact(parts)
  {
    hide Clean, Encodes, Sound, PartSize, Bound, Cut, Datas, Tail;
    var k := |parts| - 1;
    var front := parts[..k];
    FrontAndTail(parts, src, size, long, pick);
    CleanTail(parts[k], long, pick);
    forall i | 0 <= i < |parts| ensures Clean(parts[i].block) && |parts[i].block.selectors| <= 18002 {
      if i < k { assert parts[i] == front[i]; }
    }
    if Roomy(front, 7) {
      forall b | 0 <= b < |parts| ensures (PartSize(parts[b]) + 7) / 8 <= Bound(|parts[b].data|) {
        if b < k { assert parts[b] == front[b]; }
      }
    }
  }

  /** Blocks of the same bytes are intact together. */
  lemma IntactTogether(front: seq<Part>, front': seq<Part>, pick: HuffmanBuild.HeapRule)
    requires Datas(front) == Datas(front') && AllEncoded(front, pick) && AllEncoded(front', pick)
    ensures AllClean(front) && GroupsFit(front) ==> AllClean(front') && GroupsFit(front')
    ensures AllSound(front) && AllSound(front') && Roomy(front, 7) ==> Roomy(front', 7)
  {
    hide Clean, Encodes, Sound, PartSize, Bound, Datas;
    SameNumber(front, front');
    forall i | 0 <= i < |front|
      ensures front[i].data == front'[i].data && |front[i].block.selectors| == |front'[i].block.selectors|
      ensures Clean(front[i].block) <==> Clean(front'[i].block)
      ensures Sound(front[i]) && Sound(front'[i]) ==> PartSize(front[i]) == PartSize(front'[i])
    {
      SameData(front, front', i);
      SameSize(front[i], front'[i], pick);
    }
  }

  lemma {:induction false} WholeCut(src: seq<byte>, size: nat)
    requires size > 0 && |src| % size == 0
    ensures forall i :: 0 <= i < |Cut(src, size)| ==> |Cut(src, size)[i]| == size
    decreases |src|
  {
    if |src| > 0 {
      WholePieces(|src|, size);
      if |src| > size { WholeCut(src[size..], size); }
    }
  }

  /** Plain pieces make intact blocks. */
  lemma PlainIntact(front: seq<Part>, src: seq<byte>, level: nat, pick: HuffmanBuild.HeapRule)
    requires 1 <= level <= 9 && |src| % BlockSize(level) == 0
    requires Datas(front) == Cut(src, BlockSize(level)) && AllEncoded(front, pick)
    requires forall i :: 0 <= i < |Cut(src, BlockSize(level))| ==> Plain(Cut(src, BlockSize(level))[i])
    ensures AllClean(front) && GroupsFit(front) && (AllSound(front) ==> Roomy(front, 7))
  {
    hide Plain, Clean, Encodes, Sound, PartSize, Bound, Cut;
    WholeCut(src, BlockSize(level));
    forall i | 0 <= i < |front|
      ensures Clean(front[i].block) && |front[i].block.selectors| <= 18002
      ensures Sound(front[i]) ==> (PartSize(front[i]) + 7) / 8 <= Bound(|front[i].data|)
    {
      assert front[i].data == Datas(front)[i] == Cut(src, BlockSize(level))[i];
      PlainBlock(front[i], pick);
    }
  }

  /** Compresses an input that fills its blocks twice, with either tail behind it. Whatever the input: unless its own
      blocks stand in the way, at least one of the two results is not a file. Plain blocks do not stand in the way. */
  method MergeTwice(src: seq<byte>, level: nat, nThreads: int, pick: HuffmanBuild.HeapRule, dst: array<byte>,
                    dst': array<byte>)
    returns (size: nat, size': nat, ghost front: seq<Part>, ghost parts: seq<Part>, ghost parts': seq<Part>)
    requires 1 <= level <= 9 && |src| > 0 && |src| % BlockSize(level) == 0 && nThreads != 1 && dst != dst'
    modifies dst, dst'
    ensures size <= dst.Length && size' <= dst'.Length
    ensures Datas(front) == Cut(src, BlockSize(level)) && AllEncoded(front, pick)
    ensures EndsIn(parts, src, BlockSize(level), false, pick) && EndsIn(parts', src, BlockSize(level), true, pick)
    ensures AllClean(front) && GroupsFit(front) ==> AllSound(front) && AllSound(parts) && AllSound(parts')
    ensures Intact(front) ==> Intact(parts) && Intact(parts')
    ensures (forall i :: 0 <= i < |Cut(src, BlockSize(level))| ==> Plain(Cut(src, BlockSize(level))[i])) ==>
              Intact(front)
    ensures Intact(front) && size > 0 && size' > 0 ==>
              !(IsFile(dst[..size], level, parts) && IsFile(dst'[..size'], level, parts'))
  {
    hide *;
    TwoInputs(src, level, nThreads);
    size, parts := CompressParallel(src + Tail(false), dst, level, nThreads, pick);
    size', parts' := CompressParallel(src + Tail(true), dst', level, nThreads, pick);
    EndsInIs(parts, src, BlockSize(level), false, pick);
    EndsInIs(parts', src, BlockSize(level), true, pick);
    FrontAndTail(parts, src, BlockSize(level), false, pick);
    FrontAndTail(parts', src, BlockSize(level), true, pick);
    front := parts[..|parts| - 1];
    ghost var front' := parts'[..|parts'| - 1];
    IntactTogether(front, front', pick);
    if AllClean(front) && GroupsFit(front) {
      WholeIntact(parts, src, BlockSize(level), false, pick);
      WholeIntact(parts', src, BlockSize(level), true, pick);
      NotBothZero(src, level, pick, parts, parts');
    }
    if forall i :: 0 <= i < |Cut(src, BlockSize(level))| ==> Plain(Cut(src, BlockSize(level))[i]) {
      PlainIntact(front, src, level, pick);
    }
    IntactMeans(front);
    IntactMeans(parts);
    IntactMeans(parts');
  }

  lemma IntactMeans(parts: seq<Part>)
    ensures Intact(parts) <==> AllClean(parts) && GroupsFit(parts) && AllSound(parts) && Roomy(parts, 7)
  {}

  lemma TwoInputs(src: seq<byte>, level: nat, nThreads: int)
    requires 1 <= level <= 9 && |src| > 0 && |src| % BlockSize(level) == 0 && nThreads != 1
    ensures BlockSize(level) > 0
    ensures Merges(src + Tail(false), level, nThreads) && Merges(src + Tail(true), level, nThreads)
    ensures Cut(src + Tail(false), BlockSize(level)) == Cut(src, BlockSize(level)) + [Tail(false)]
    ensures Cut(src + Tail(true), BlockSize(level)) == Cut(src, BlockSize(level)) + [Tail(true)]
  {
    hide Cut, Tail;
    CutTail(src, BlockSize(level), Tail(false));
    CutTail(src, BlockSize(level), Tail(true));
    WholePieces(|src|, BlockSize(level));
  }

  lemma EndsInIs(parts: seq<Part>, src: seq<byte>, size: nat, long: bool, pick: HuffmanBuild.HeapRule)
    requires size > 0 && Datas(parts) == Cut(src, size) + [Tail(long)] && AllEncoded(parts, pick)
    ensures EndsIn(parts, src, size, long, pick)
  {
    hide Cut, Tail;
    assert |Datas(parts)| > 0;
  }

  /** So a block of any byte over and over is such an input, at every level. */
  lemma OneByteInput(c: byte, level: nat)
    requires 1 <= level <= 9
    ensures var src, size := Repeat(c, BlockSize(level)), BlockSize(level);
            |src| > 0 && |src| % size == 0 && Cut(src, size) == [src] && Plain(src)
  {
    hide Plain;
    OneByteIsPlain(c, BlockSize(level));
    DivModUnique(BlockSize(level), 1, BlockSize(level), 0);
  }
}
