/** Full blocks fit the buffers they are compressed into, unless run-length coding makes them longer. */
module BlockSizes {
  import opened Bits
  import opened Canonical
  import opened BlockFormat
  import opened DecodeTable
  import opened BlockSymbols
  import opened BlockCodec
  import opened BlockEncoder
  import opened HuffmanTables
  import opened HuffmanSizes
  import opened Stream
  import opened Parallel
  import HuffmanBuild
  import Mtf
  import Rle1
  import Rle2

  // ---------- the symbols ----------

  /** Selectors as the block holds them. */
  ghost function Numbers(selectors: seq<byte>): (sel: seq<nat>)
    ensures |sel| == |selectors| && forall g :: 0 <= g < |sel| ==> sel[g] == selectors[g]
  {
    seq(|selectors|, g requires 0 <= g < |selectors| => selectors[g])
  }

  /** One symbol takes as many bits as its length says. */
  lemma OneSymbol(tables: seq<lengths>, selectors: seq<byte>, syms: seq<nat>, i: nat)
    requires Codable(tables, selectors, syms) && i < |syms|
    ensures i / 50 < |selectors| && selectors[i / 50] < |tables|
    ensures syms[i] < |tables[selectors[i / 50]]|
    ensures |SymbolBits(tables, selectors, syms, i)|
         == tables[selectors[i / 50]][syms[i]] + |SymbolBits(tables, selectors, syms, i + 1)|
  {
    hide Usable, CodesFit;
    GroupOf(i, |syms|, |selectors|);
  }

  /** The bits of a piece of one group are its cost. */
  lemma {:induction false} PieceBits(tables: seq<lengths>, selectors: seq<byte>, syms: seq<nat>, start: nat, i: nat)
    requires Codable(tables, selectors, syms) && start < |syms| && start <= i <= |syms| && i - start <= 50
    requires start % 50 == 0
    ensures start / 50 < |selectors| && selectors[start / 50] < |tables|
    ensures |SymbolBits(tables, selectors, syms, start)|
         == Cost(syms[start..i], tables[selectors[start / 50]]) + |SymbolBits(tables, selectors, syms, i)|
    decreases i
  {
    hide Codable, SymbolBits;
    OneSymbol(tables, selectors, syms, start);
    if i == start {
      assert syms[start..start] == [];
    } else {
      PieceBits(tables, selectors, syms, start, i - 1);
      SameTable(start, i - 1);
      OneSymbol(tables, selectors, syms, i - 1);
      assert syms[start..i][..i - 1 - start] == syms[start..i - 1];
    }
  }

  lemma SameTable(start: nat, i: nat)
    requires start % 50 == 0 && start <= i < start + 50
    ensures i / 50 == start / 50
  {}

  /** All symbols take what their groups cost. */
  lemma {:induction false} GroupBits(tables: seq<lengths>, selectors: seq<byte>, syms: seq<nat>, g: nat)
    requires Codable(tables, selectors, syms) && g <= |selectors| == GroupCount(|syms|)
    ensures Min(g * 50, |syms|) <= |syms|
    ensures |SymbolBits(tables, selectors, syms, 0)|
         == CostBefore(syms, tables, Numbers(selectors), g)
            + |SymbolBits(tables, selectors, syms, Min(g * 50, |syms|))|
    decreases g
  {
    hide *;
    CostSteps(syms, tables, selectors, g);
    if g > 0 {
      GroupBits(tables, selectors, syms, g - 1);
      GroupStarts(|syms|, g);
      PieceBits(tables, selectors, syms, (g - 1) * 50, Min(g * 50, |syms|));
    }
  }

  lemma CostSteps(syms: seq<nat>, tables: seq<lengths>, selectors: seq<byte>, g: nat)
    requires Codable(tables, selectors, syms) && g <= |selectors| == GroupCount(|syms|)
    ensures forall i :: 0 <= i < |selectors| ==> selectors[i] < |tables|
    ensures Min(g * 50, |syms|) <= |syms|
    ensures g == 0 ==> CostBefore(syms, tables, Numbers(selectors), g) == 0 && Min(g * 50, |syms|) == 0
    ensures g > 0 ==>
              var start, end := (g - 1) * 50, Min(g * 50, |syms|);
              && 0 <= start <= end <= |syms|
              && CostBefore(syms, tables, Numbers(selectors), g)
                 == CostBefore(syms, tables, Numbers(selectors), g - 1)
                    + Cost(syms[start..end], tables[selectors[g - 1]])
  {
    hide Cost, CodesFit, Usable;
    if g > 0 { GroupStarts(|syms|, g); }
  }

  lemma GroupStarts(n: nat, g: nat)
    requires 0 < g <= GroupCount(n)
    ensures (g - 1) * 50 < n && (g - 1) * 50 % 50 == 0 && (g - 1) * 50 / 50 == g - 1
    ensures Min((g - 1) * 50, n) == (g - 1) * 50
    ensures (g - 1) * 50 <= Min(g * 50, n) <= (g - 1) * 50 + 50
  {}

  lemma SymbolsTake(tables: seq<lengths>, selectors: seq<byte>, syms: seq<nat>)
    requires Codable(tables, selectors, syms) && |selectors| == GroupCount(|syms|)
    ensures |SymbolBits(tables, selectors, syms, 0)| == CostBefore(syms, tables, Numbers(selectors), |selectors|)
  {
    hide CostBefore, Codable;
    GroupBits(tables, selectors, syms, |selectors|);
    AllGroups(|syms|);
  }

  // ---------- the other fields ----------

  lemma {:induction false} DeltaSize(cur: nat, target: nat)
    requires 1 <= cur <= 20 && 1 <= target <= 20
    ensures |DeltaBits(cur, target)| <= 39
    ensures |DeltaBits(cur, target)| == 1 + 2 * if cur < target then target - cur else cur - target
    decreases if cur < target then target - cur else cur - target
  {
    if cur < target { DeltaSize(cur + 1, target); } else if cur > target { DeltaSize(cur - 1, target); }
  }

  lemma {:induction false} DeltasSize(cur: nat, lens: seq<nat>)
    requires 1 <= cur <= 20 && Writable(lens)
    ensures |DeltasFrom(cur, lens)| <= 39 * |lens|
    decreases |lens|
  {
    hide DeltaBits;
    if |lens| > 0 {
      DeltaSize(cur, lens[0]);
      DeltasSize(lens[0], lens[1..]);
    }
  }

  lemma {:induction false} TablesSize(tables: seq<lengths>, alphaSize: nat)
    requires WritableTables(tables, alphaSize) && 0 < alphaSize <= 258
    ensures |TablesBits(tables)| <= 10067 * |tables|
    decreases |tables|
  {
    hide DeltasFrom, Usable;
    if |tables| > 0 {
      assert Writable(tables[0]);
      DeltasSize(tables[0][0], tables[0]);
      TablesSize(tables[1..], alphaSize);
    }
  }

  lemma {:induction false} UnarySize(ranks: seq<byte>, n: nat)
    requires forall i :: 0 <= i < |ranks| ==> ranks[i] < n
    ensures |UnaryAll(ranks)| <= n * |ranks|
    decreases |ranks|
  {
    if |ranks| > 0 {
      UnarySize(ranks[1..], n);
      assert |UnaryAll(ranks)| == ranks[0] + 1 + |UnaryAll(ranks[1..])|;
      HuffmanSizes.OneMore(|ranks|, n);
      assert n * |ranks| == |ranks| * n && n * |ranks[1..]| == (|ranks| - 1) * n;
    }
  }

  lemma SelectorsSize(tables: nat, selectors: seq<byte>)
    requires tables <= 6 && Mtf.Covers(FirstTables(tables), selectors)
    ensures |SelectorBits(tables, selectors)| <= 6 * |selectors|
  {
    Mtf.RanksBound(FirstTables(tables), selectors);
    UnarySize(Mtf.Ranks(FirstTables(tables), selectors), 6);
  }

  lemma {:induction false} MapSize(inUse: seq<bool>, i: nat)
    requires |inUse| == 256 && i <= 16
    ensures |FineFrom(inUse, i)| <= 16 * (16 - i)
    decreases 16 - i
  {
    hide Coarse, Page;
    if i < 16 { MapSize(inUse, i + 1); }
  }

  // ---------- the block ----------

  lemma BlockSizeIs(b: Block)
    requires WellFormed(b)
    ensures |BlockBits(b)| == 75 + |InUseBits(b.inUse)| + |SelectorBits(|b.tables|, b.selectors)|
                              + |TablesBits(b.tables)| + |SymbolBits(b.tables, b.selectors, b.syms, 0)|
    ensures |b.inUse| == 256 && |InUseBits(b.inUse)| <= 272 && |Used(b.inUse)| <= 256
    ensures Codable(b.tables, b.selectors, b.syms) && WritableTables(b.tables, |Used(b.inUse)| + 2)
    ensures 2 <= |b.tables| <= 6 && Mtf.Covers(FirstTables(|b.tables|), b.selectors)
  {
    hide Codable, WritableTables, TablesBits, SymbolBits, SelectorBits, BitsOf;
    MapSize(b.inUse, 0);
    UsedFromCount(b.inUse, 0);
    assert b.inUse[..0] == [];
  }

  /** The encoder's symbols take at most 513 / 64 bits each. */
  lemma EncodedCost(b: Block, data: seq<byte>, column: seq<byte>, pick: HuffmanBuild.HeapRule)
    requires Encodes(b, data, column, pick) && Codable(b.tables, b.selectors, b.syms) && |Used(b.inUse)| <= 256
    ensures |b.selectors| == GroupCount(|b.syms|)
    ensures 64 * |SymbolBits(b.tables, b.selectors, b.syms, 0)| <= 513 * (|b.syms| + 6 * 258)
  {
    hide *;
    EncodesTables(b, data, column, pick);
    var n := |Used(b.inUse)| + 2;
    var sel := Settled(b.syms, n, TableCount(|b.syms|), pick, 4).1;
    SymbolsCost(b.syms, n, TableCount(|b.syms|), pick, 4);
    assert Numbers(b.selectors) == sel;
    SymbolsTake(b.tables, b.selectors, b.syms);
    AtMostSix(TableCount(|b.syms|), n);
  }

  lemma AtMostSix(t: nat, n: nat)
    requires t <= 6 && n <= 258
    ensures t * n <= 6 * 258
  {
    MulMono(t, 6, n);
  }

  lemma EncodesTables(b: Block, data: seq<byte>, column: seq<byte>, pick: HuffmanBuild.HeapRule)
    requires Encodes(b, data, column, pick)
    ensures |b.inUse| == 256 && 0 < |Used(b.inUse)| && InAlphabet(b.syms, |Used(b.inUse)| + 2)
    ensures 0 < TableCount(|b.syms|) <= 6
    ensures var r := Settled(b.syms, |Used(b.inUse)| + 2, TableCount(|b.syms|), pick, 4);
            && b.tables == r.0 && |b.selectors| == |r.1| == GroupCount(|b.syms|)
            && forall i :: 0 <= i < |r.1| ==> b.selectors[i] == r.1[i]
  {
    hide Rle1.Encode, Rle2.Encode, Used, Mtf.Ranks, InAlphabet, Settled, GroupCount;
  }

  /** At most one symbol for every byte after run-length coding, and the end mark. */
  lemma FewSymbols(b: Block, data: seq<byte>, column: seq<byte>, pick: HuffmanBuild.HeapRule)
    requires Encodes(b, data, column, pick)
    ensures |b.syms| <= |Rle1.Encode(data)| + 1
  {
    hide Rle1.Encode, Settled, Used;
    ColumnBytes(Rle1.Encode(data), column, b.primary);
    SymbolsFit(b.inUse, column);
  }

  /** A block of at least 100000 bytes fits its buffer with a byte to spare, whatever its bytes, as long as run-length
      coding does not make it longer. */
  lemma FullBlockFits(p: Part, pick: HuffmanBuild.HeapRule)
    requires Sound(p) && Encodes(p.block, p.data, p.column, pick)
    requires 100000 <= |p.data| && |Rle1.Encode(p.data)| <= |p.data|
    ensures (PartSize(p) + 7) / 8 <= Bound(|p.data|)
  {
    hide *;
    var b := p.block;
    SizeOfPart(p);
    BlockSizeIs(b);
    FewSymbols(b, p.data, p.column, pick);
    EncodedCost(b, p.data, p.column, pick);
    SelectorsSize(|b.tables|, b.selectors);
    TablesSize(b.tables, |Used(b.inUse)| + 2);
    SumOfSizes(|p.data|, |b.syms|, |b.selectors|, |SymbolBits(b.tables, b.selectors, b.syms, 0)|, PartSize(p));
  }

  lemma SizeOfPart(p: Part)
    requires Sound(p)
    ensures WellFormed(p.block) && PartSize(p) == 48 + |BlockBits(p.block)|
  {
    hide WellFormed, BlockBits;
  }

  lemma SumOfSizes(n: nat, m: nat, groups: nat, symbols: nat, size: nat)
    requires 100000 <= n && m <= n + 1 && groups == GroupCount(m) && 64 * symbols <= 513 * (m + 6 * 258)
    requires size <= 48 + 75 + 272 + 6 * groups + 10067 * 6 + symbols
    ensures (size + 7) / 8 <= Bound(n)
  {}

  // ---------- plain blocks ----------

  /** Few different bytes, and no longer after run-length coding. */
  ghost predicate Plain(data: seq<byte>) {
    FewBytes(data) && |Rle1.Encode(data)| <= |data|
  }

  /** With few different bytes no depth is cut off, so every code fits. */
  lemma FewAreClean(b: Block, data: seq<byte>, column: seq<byte>, pick: HuffmanBuild.HeapRule)
    requires Encodes(b, data, column, pick) && FewBytes(data)
    ensures Clean(b)
  {
    hide *;
    EncodesTables(b, data, column, pick);
    SymbolsNamed(b, data, column, pick);
    var n := |Used(b.inUse)| + 2;
    SelectorsBelow(b.syms, n, TableCount(|b.syms|), pick, 4);
    forall i | 0 <= i < |b.syms| ensures CodeFitsAt(b.tables, b.selectors, b.syms, i) {
      GroupOf(i, |b.syms|, |b.selectors|);
      TableFits(b.syms, n, pick, b.selectors[i / 50]);
      CodeFits(b.tables[b.selectors[i / 50]], b.syms[i]);
      FitsAt(b.tables, b.selectors, b.syms, i);
    }
    AllFitAt(b);
  }

  lemma FitsAt(tables: seq<lengths>, selectors: seq<byte>, syms: seq<nat>, i: nat)
    requires i < |syms| && i / 50 < |selectors| && selectors[i / 50] < |tables|
    requires var t := tables[selectors[i / 50]]; syms[i] < |t| && Code(t, syms[i]) < Pow2(t[syms[i]])
    ensures CodeFitsAt(tables, selectors, syms, i)
  {}

  lemma AllFitAt(b: Block)
    requires forall i :: 0 <= i < |b.syms| ==> CodeFitsAt(b.tables, b.selectors, b.syms, i)
    ensures Clean(b)
  {
    hide CodeFitsAt;
  }

  lemma SymbolsNamed(b: Block, data: seq<byte>, column: seq<byte>, pick: HuffmanBuild.HeapRule)
    requires Encodes(b, data, column, pick) && FewBytes(data)
    ensures |Used(b.inUse)| + 2 <= MAX_LEN + 1 && |b.syms| <= 50 * |b.selectors|
    ensures forall i :: 0 <= i < |b.syms| ==> b.syms[i] < |Used(b.inUse)| + 2
  {
    hide Rle1.Encode, Rle2.Encode, Used, Mtf.Ranks, Settled, FewBytes, Marks;
    FewInUse(data, b.inUse);
  }

  /** The tables of a small alphabet fit. */
  lemma TableFits(syms: seq<nat>, alphaSize: nat, pick: HuffmanBuild.HeapRule, t: nat)
    requires InAlphabet(syms, alphaSize) && 1 < alphaSize <= MAX_LEN + 1 && t < TableCount(|syms|)
    ensures var ls := Settled(syms, alphaSize, TableCount(|syms|), pick, 4).0;
            |ls| == TableCount(|syms|) && |ls[t]| == alphaSize && Fits(ls[t])
            && forall s :: 0 <= s < alphaSize ==> ls[t][s] > 0
  {
    hide *;
    SettledStep(syms, alphaSize, TableCount(|syms|), pick, 4);
    var before := Settled(syms, alphaSize, TableCount(|syms|), pick, 3).1;
    var freq := Counts(syms, alphaSize, before, t, |before|);
    var deep := HuffmanBuild.LensForIs(freq, pick);
    SmallFits(HuffmanBuild.Weights(freq), HuffmanBuild.LensFor(freq, pick), deep);
  }

  lemma SmallFits(w: seq<nat>, lens: seq<nat>, deep: bool)
    requires HuffmanBuild.Lengths(w, lens, deep) && |w| <= MAX_LEN + 1
    ensures Fits(lens) && forall s :: 0 <= s < |lens| ==> lens[s] > 0
  {
    hide Kraft, Pow2, HuffmanBuild.Optimal, HuffmanBuild.Sum;
  }

  /** A full plain block stands in the way of nothing. */
  lemma PlainBlock(p: Part, pick: HuffmanBuild.HeapRule)
    requires Encodes(p.block, p.data, p.column, pick) && Plain(p.data) && 100000 <= |p.data| <= 900000
    ensures Clean(p.block) && |p.block.selectors| <= 18002
    ensures Sound(p) ==> (PartSize(p) + 7) / 8 <= Bound(|p.data|)
  {
    hide *;
    PlainMeans(p.data);
    FewAreClean(p.block, p.data, p.column, pick);
    EncodesTables(p.block, p.data, p.column, pick);
    FewSymbols(p.block, p.data, p.column, pick);
    FewGroups(|p.block.syms|, |p.data|);
    if Sound(p) { FullBlockFits(p, pick); }
  }

  lemma PlainMeans(data: seq<byte>)
    requires Plain(data)
    ensures FewBytes(data) && |Rle1.Encode(data)| <= |data|
  {}

  lemma FewGroups(m: nat, n: nat)
    requires m <= n + 1 && n <= 900000
    ensures GroupCount(m) <= 18002
  {}

  // ---------- one byte over and over ----------

  lemma {:induction false} OneByteCode(c: byte, n: nat)
    ensures |Rle1.Encode(Repeat(c, n))| <= 5 * (n / 259) + 5
    ensures forall x :: x in Rle1.Encode(Repeat(c, n)) ==> x == c || x == 255 || x == n % 259 - 4
    decreases n
  {
    hide Repeat, Rle1.RunLength;
    var s := Repeat(c, n);
    if n >= 259 {
      Rle1.RunLengthIs(s, 259);
      assert s[259..] == Repeat(c, n - 259);
      OneByteCode(c, n - 259);
      OneRunLess(n);
    } else if n > 0 {
      Rle1.RunLengthIs(s, n);
      assert s[n..] == [];
      assert Rle1.Encode(s) == Rle1.RunCode(c, n) + [];
    }
  }

  lemma OneRunLess(n: nat)
    requires n >= 259
    ensures (n - 259) / 259 == n / 259 - 1 && (n - 259) % 259 == n % 259
  {}

  /** Long blocks of one byte are plain. */
  lemma OneByteIsPlain(c: byte, n: nat)
    requires n >= 259
    ensures Plain(Repeat(c, n))
  {
    hide Rle1.Encode;
    OneByteCode(c, n);
    var rest := n % 259;
    var list: seq<byte> := [c, 255, if rest >= 4 then rest - 4 else 0];
    assert list[0] == c && list[1] == 255 && list[2] == if rest >= 4 then rest - 4 else 0;
    assert Mtf.Covers(list, Rle1.Encode(Repeat(c, n)));
  }
}
