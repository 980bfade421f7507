/** Compressing the same bytes gives the same block, but for the place of the original rotation among equal ones:
    nothing that the encoder does depends on anything but the bytes and the order in which the heap delivers equal
    nodes. */
module SameBlocks {
  import opened Bits
  import opened BlockFormat
  import opened BlockSymbols
  import opened BlockCodec
  import opened BlockEncoder
  import opened BwtInverse
  import opened Stream
  import opened Bzip2
  import opened Parallel
  import Crc
  import HuffmanBuild
  import HuffmanTables
  import Mtf
  import Rle1
  import Rle2

  lemma OneMap(inUse: seq<bool>, inUse': seq<bool>, data: seq<byte>)
    requires Marks(inUse, data, |data|) && Marks(inUse', data, |data|)
    ensures inUse == inUse'
  {
    forall i | 0 <= i < 256 ensures inUse[i] == inUse'[i] {
      var c: byte := i;
      assert inUse[c] <==> c in data[..|data|];
    }
  }

  /** Two compressions of the same bytes make the same block; at most the rotation that is named differs. */
  lemma SameBlock(b: Block, b': Block, data: seq<byte>, column: seq<byte>, column': seq<byte>,
                  pick: HuffmanBuild.HeapRule)
    requires Encodes(b, data, column, pick) && Encodes(b', data, column', pick)
    ensures column == column' && b' == b.(primary := b'.primary)
  {
    hide IsBwt, Rle1.Encode, Rle2.Encode, Used, Mtf.Covers, Mtf.Ranks, Crc.Checksum, HuffmanTables.InAlphabet;
    hide HuffmanTables.Settled;
    OneColumn(Rle1.Encode(data), column, b.primary, column', b'.primary);
    OneMap(b.inUse, b'.inUse, Rle1.Encode(data));
    assert b.selectors == b'.selectors;
  }

  /** So all that decides about a file is the same. */
  lemma SameSize(p: Part, p': Part, pick: HuffmanBuild.HeapRule)
    requires p.data == p'.data
    requires Encodes(p.block, p.data, p.column, pick) && Encodes(p'.block, p'.data, p'.column, pick)
    ensures Clean(p.block) <==> Clean(p'.block)
    ensures |p.block.selectors| == |p'.block.selectors|
    ensures Sound(p) && Sound(p') ==> PartSize(p) == PartSize(p')
  {
    hide Encodes, IsBwt, Rle1.Encode, Rle2.Encode, Used, Mtf.Covers, Codable, InUseBits, TablesBits, SelectorBits;
    hide SymbolBits, BitsOf, BLOCK_MAGIC, Crc.Checksum;
    SameBlock(p.block, p'.block, p.data, p.column, p'.column, pick);
  }

  /** The same front has as many bits in both. */
  lemma {:induction false} SameFront(front: seq<Part>, front': seq<Part>, pick: HuffmanBuild.HeapRule)
    requires Datas(front) == Datas(front') && AllEncoded(front, pick) && AllEncoded(front', pick)
    requires AllSound(front) && AllSound(front')
    ensures |BlocksBits(front)| == |BlocksBits(front')|
    decreases |front|
  {
    hide Encodes, Sound, BlockBits, BLOCK_MAGIC, Datas;
    SameNumber(front, front');
    if |front| > 0 {
      SameData(front, front', 0);
      SameSize(front[0], front'[0], pick);
      RestOf(front, front', pick);
      SameFront(front[1..], front'[1..], pick);
      PartSizes(front);
      PartSizes(front');
    }
  }

  lemma SameNumber(front: seq<Part>, front': seq<Part>)
    requires Datas(front) == Datas(front')
    ensures |front| == |front'|
  {}

  lemma SameData(front: seq<Part>, front': seq<Part>, i: nat)
    requires Datas(front) == Datas(front') && i < |front|
    ensures i < |front'| && front[i].data == front'[i].data
  {
    assert Datas(front)[i] == Datas(front')[i];
  }

  lemma RestOf(front: seq<Part>, front': seq<Part>, pick: HuffmanBuild.HeapRule)
    requires |front| > 0 && Datas(front) == Datas(front') && AllEncoded(front, pick) && AllEncoded(front', pick)
    requires AllSound(front) && AllSound(front')
    ensures |front'| > 0 && Datas(front[1..]) == Datas(front'[1..])
    ensures AllEncoded(front[1..], pick) && AllEncoded(front'[1..], pick)
    ensures AllSound(front[1..]) && AllSound(front'[1..])
  {
    hide Encodes, Sound;
    SameNumber(front, front');
    forall i | 0 <= i < |front| - 1 ensures front[1..][i].data == front'[1..][i].data {
      SameData(front, front', i + 1);
    }
  }

  lemma PartSizes(front: seq<Part>)
    requires AllSound(front) && |front| > 0
    ensures Sound(front[0]) && AllSound(front[1..])
    ensures |BlocksBits(front)| == PartSize(front[0]) + |BlocksBits(front[1..])|
  {
    hide Sound, BlockBits, BLOCK_MAGIC;
  }
}
