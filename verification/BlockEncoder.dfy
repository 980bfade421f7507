/** Compressing one block: all stages, then the fields in order. */
module BlockEncoder {
  import opened Bits
  import opened BitIo
  import opened Permutations
  import opened Canonical
  import opened BlockFormat
  import opened BlockSymbols
  import opened BlockCodec
  import opened HuffmanTables
  import opened FieldWriter
  import opened BwtInverse
  import DecodeTable
  import HuffmanBuild
  import Bwt
  import Crc
  import Mtf
  import Rle1
  import Rle2

  ghost predicate Marks(inUse: seq<bool>, data: seq<byte>, n: nat)
    requires n <= |data|
  {
    |inUse| == 256 && forall c: byte :: inUse[c] <==> c in data[..n]
  }

  method MarkUsed(data: seq<byte>) returns (inUse: array<bool>)
    ensures fresh(inUse) && Marks(inUse[..], data, |data|)
  {
    inUse := new bool[256](_ => false);
    for i := 0 to |data|
      invariant Marks(inUse[..], data, i)
    {
      assert data[..i + 1] == data[..i] + [data[i]];
      inUse[data[i]] := true;
    }
  }

  method ListUsed(inUse: array<bool>) returns (list: seq<byte>)
    requires inUse.Length == 256
    ensures list == Used(inUse[..])
  {
    list := [];
    for c := 0 to 256
      invariant list + UsedFrom(inUse[..], c) == Used(inUse[..])
    {
      assert inUse[..][c] == inUse[c];
      if inUse[c] { list := list + [c]; }
    }
  }

  /** The bytes in use cover the data and every rearrangement of it. */
  lemma UsedCovers(inUse: seq<bool>, data: seq<byte>, column: seq<byte>, primary: nat)
    requires Marks(inUse, data, |data|) && IsBwt(data, column, primary)
    ensures Mtf.Covers(Used(inUse), column) && 0 < |Used(inUse)| == Rle2.CountTrue(inUse)
  {
    UsedFromMembers(inUse, 0);
    UsedFromCount(inUse, 0);
    assert inUse[..0] == [];
    assert data[..|data|] == data;
    ColumnBytes(data, column, primary);
    assert data[0] in Used(inUse);
  }

  lemma ColumnBytes(data: seq<byte>, column: seq<byte>, primary: nat)
    requires IsBwt(data, column, primary)
    ensures |column| == |data| > 0 && forall c: byte :: c in column ==> c in data
  {}

  /** How many code tables a block of n symbols gets. */
  function TableCount(n: nat): (t: nat)
    ensures 2 <= t <= 6
  {
    Min(if n < 200 then 2 else if n < 600 then 3 else if n < 1200 then 4 else if n < 2400 then 5 else 6, MAX_TABLES)
  }

  /** Two tables, and one more from 200, 600, 1200 and 2400 symbols on each; never more than a block may have, and with
      more than two at least a hundred symbols for each but one. */
  lemma TableCounts(n: nat)
    ensures forall k :: 0 <= k < 4 ==> (TableCount(n) >= 3 + k <==> n >= [200, 600, 1200, 2400][k])
    ensures TableCount(n) <= 6 && (TableCount(n) > 2 ==> 100 * (TableCount(n) - 1) <= n)
  {}

  /** The symbols are in the alphabet of the bytes in use. */
  lemma SymbolsFit(inUse: seq<bool>, column: seq<byte>)
    requires |inUse| == 256 && Mtf.Covers(Used(inUse), column) && 0 < |Used(inUse)|
    ensures var n := |Used(inUse)|;
            var syms := Rle2.Encode(Mtf.Ranks(Used(inUse), column), n);
            InAlphabet(syms, n + 2) && 1 <= |syms| <= |column| + 1 && 3 <= n + 2 <= MAX_ALPHA
  {
    var list := Used(inUse);
    var ranks := Mtf.Ranks(list, column);
    Mtf.RanksBound(list, column);
    Rle2.SymbolsInAlphabet(ranks, 0, |list|);
    Rle2.SymbolsSize(ranks, 0);
  }

  /** Even codes that do not fit their lengths are 32-bit numbers. */
  lemma {:induction false} FirstCodeBound(ls: lengths, l: nat)
    requires |ls| <= MAX_ALPHA
    ensures FirstCode(ls, l) + 2 * MAX_ALPHA <= Scale(2 * MAX_ALPHA, l)
    decreases l
  {
    if l > 0 {
      FirstCodeBound(ls, l - 1);
      ScaleStep(2 * MAX_ALPHA, l - 1);
      hide FirstCode, Scale;
      assert FirstCode(ls, l) == 2 * (FirstCode(ls, l - 1) + CountAt(ls, l - 1)) by { FirstCodeStep(ls, l); }
    } else {
      assert Scale(2 * MAX_ALPHA, 0) == 2 * MAX_ALPHA;
    }
  }

  lemma FirstCodeStep(ls: lengths, l: nat)
    requires l > 0
    ensures FirstCode(ls, l) == 2 * (FirstCode(ls, l - 1) + CountAt(ls, l - 1)) && CountAt(ls, l - 1) <= |ls|
  {}

  lemma ScaleStep(a: nat, k: nat)
    ensures Scale(a, k + 1) == 2 * Scale(a, k)
  {
    MulAssoc(a, 2, Pow2(k));
  }

  lemma {:induction false} ScaleMono(a: nat, k: nat, m: nat)
    requires k <= m
    ensures Scale(a, k) <= Scale(a, m)
  {
    Pow2Mono(k, m);
    MulMono(Pow2(k), Pow2(m), a);
  }

  lemma ScaleAt(a: nat)
    ensures Scale(a, MAX_LEN) == a * 0x100000
  {
    Pow2Values();
  }

  lemma CodeBound(ls: lengths, s: nat)
    requires InRange(ls) && |ls| <= MAX_ALPHA && s < |ls| && ls[s] > 0
    ensures Code(ls, s) < 0x1_0000_0000
  {
    var l := ls[s];
    assert Code(ls, s) <= FirstCode(ls, l) + s;
    assert l <= MAX_LEN;
    hide FirstCode, Code, Scale;
    FirstCodeBound(ls, l);
    ScaleMono(2 * MAX_ALPHA, l, MAX_LEN);
    Pow2Values();
    assert Scale(2 * MAX_ALPHA, MAX_LEN) == 2 * MAX_ALPHA * 0x100000 by { ScaleAt(2 * MAX_ALPHA); }
  }

  /** Table and code of symbol i, and what is left to write behind it. */
  lemma SymbolStep(w: bits, tables: seq<Coding>, alphaSize: nat, selectors: seq<byte>, syms: seq<nat>, i: nat)
    requires AreCodings(tables, alphaSize) && InAlphabet(syms, alphaSize) && alphaSize <= MAX_ALPHA
    requires |selectors| == GroupCount(|syms|) && i < |syms|
    requires Named(selectors, |tables|)
    ensures i / 50 < |selectors|
    ensures var t := tables[selectors[i / 50]];
            && syms[i] < |t.len| == |t.code| && 1 <= t.len[syms[i]] <= MAX_LEN && t.code[syms[i]] < 0x1_0000_0000
            && (Codable(Lens(tables), selectors, syms) ==>
                 && t.code[syms[i]] < Pow2(t.len[syms[i]])
                 && (w + BitsOf(t.code[syms[i]], t.len[syms[i]])) + SymbolBits(Lens(tables), selectors, syms, i + 1)
                    == w + SymbolBits(Lens(tables), selectors, syms, i))
  {
    GroupOf(i, |syms|, |selectors|);
    var t := tables[selectors[i / 50]];
    assert IsCoding(t, alphaSize);
    CodeBound(t.len, syms[i]);
    if Codable(Lens(tables), selectors, syms) {
      assert Lens(tables)[selectors[i / 50]] == t.len && CodeFitsAt(Lens(tables), selectors, syms, i);
      Assoc(w, CodeBits(t.len, syms[i]), SymbolBits(Lens(tables), selectors, syms, i + 1));
    }
  }

  /** The symbols, each by the table of its group. */
  method WriteSymbols(bw: Writer, tables: seq<Coding>, ghost alphaSize: nat, selectors: seq<byte>, syms: seq<nat>)
    requires bw.Valid() && AreCodings(tables, alphaSize) && InAlphabet(syms, alphaSize)
    requires alphaSize <= MAX_ALPHA && |selectors| == GroupCount(|syms|)
    requires Named(selectors, |tables|)
    modifies bw, bw.dst
    ensures bw.Valid() && old(bw.stream) <= bw.stream
    ensures Codable(Lens(tables), selectors, syms) ==>
              bw.written == old(bw.written) + SymbolBits(Lens(tables), selectors, syms, 0)
  {
    hide Codable, SymbolBits, BitsOf, AreCodings, InAlphabet, GroupCount;
    ghost var codable := Codable(Lens(tables), selectors, syms);
    ghost var goal := if codable then bw.written + SymbolBits(Lens(tables), selectors, syms, 0) else [];
    var g := 0;
    for i := 0 to |syms|
      invariant bw.Valid() && old(bw.stream) <= bw.stream
      invariant i > 0 ==> (i - 1) / 50 < |selectors| && g == selectors[(i - 1) / 50]
      invariant codable ==> bw.written + SymbolBits(Lens(tables), selectors, syms, i) == goal
    {
      SymbolStep(bw.written, tables, alphaSize, selectors, syms, i);
      if i % GROUP == 0 { g := selectors[i / GROUP]; }
      SameGroup(i);
      var sym := syms[i];
      bw.WriteBits(tables[g].code[sym], tables[g].len[sym]);
    }
    if codable { NoMoreSymbols(bw.written, Lens(tables), selectors, syms); }
  }

  lemma SameGroup(i: nat)
    ensures i % 50 != 0 ==> i > 0 && (i - 1) / 50 == i / 50
  {}

  lemma NoMoreSymbols(w: bits, ls: seq<lengths>, selectors: seq<byte>, syms: seq<nat>)
    requires Codable(ls, selectors, syms)
    ensures w + SymbolBits(ls, selectors, syms, |syms|) == w
  {}

  /** The decoder can use the tables, clamped or not, and the symbols can be read when their codes fit. */
  lemma TablesWritable(tables: seq<Coding>, alphaSize: nat, selectors: seq<byte>, syms: seq<nat>)
    requires AreCodings(tables, alphaSize) && InAlphabet(syms, alphaSize)
    requires 3 <= alphaSize <= MAX_ALPHA && |selectors| == GroupCount(|syms|)
    requires Named(selectors, |tables|)
    ensures WritableTables(Lens(tables), alphaSize)
    ensures CodesFit(Lens(tables), selectors, syms) ==> Codable(Lens(tables), selectors, syms)
    ensures AllFit(tables) ==> CodesFit(Lens(tables), selectors, syms)
  {
    hide DecodeTable.Usable, Fits, AlmostFits, Code, Pow2;
    var ls := Lens(tables);
    forall t | 0 <= t < |tables| ensures Writable(ls[t]) && DecodeTable.Usable(ls[t]) && |ls[t]| == alphaSize {
      assert IsCoding(tables[t], alphaSize);
      CodingUsable(tables[t], alphaSize);
    }
    if AllFit(tables) {
      forall i | 0 <= i < |syms| ensures CodeFitsAt(ls, selectors, syms, i) {
        GroupOf(i, |syms|, |selectors|);
        var t := tables[selectors[i / 50]];
        assert IsCoding(t, alphaSize) && Fits(t.len);
        CodeFits(t.len, syms[i]);
      }
    }
    forall t, i | 0 <= t < |tables| && 0 <= i < |syms| ensures syms[i] < |ls[t]| && ls[t][syms[i]] > 0 {
      assert IsCoding(tables[t], alphaSize);
    }
  }

  lemma CodingUsable(c: Coding, alphaSize: nat)
    requires IsCoding(c, alphaSize) && 3 <= alphaSize <= MAX_ALPHA
    ensures DecodeTable.Usable(c.len)
  {
    hide EndCode, Pow2;
    assert c.len[0] >= 1;
    DecodeTable.AlmostMeansShort(c.len);
  }

  const BLOCK_MAGIC: bits := Magic(0x3141, 0x5926, 0x5359)

  /** The fields from the magic number to the in-use map. */
  method WriteHead(bw: Writer, crc: Crc.word, primary: nat, inUse: array<bool>)
    requires bw.Valid() && inUse.Length == 256 && inUse !in {bw.dst as object} && primary < 0x1000000
    modifies bw, bw.dst
    ensures bw.Valid() && old(bw.stream) <= bw.stream && inUse[..] == old(inUse[..])
    ensures bw.written == old(bw.written) + BLOCK_MAGIC
                        + (crc + [false] + BitsOf(primary, 24) + InUseBits(inUse[..]))
  {
    hide BitsOf, InUseBits, Magic;
    ghost var w := bw.written;
    Pow2Values();
    WriteMagic(bw, 0x3141, 0x5926, 0x5359);
    ghost var w' := bw.written;
    WriteWord(bw, crc);
    bw.WriteBits(0, 1);
    UnaryStep([], 0);
    bw.WriteBits(primary, 24);
    WriteInUse(bw, inUse);
    FourParts(w', crc, [false], BitsOf(primary, 24), InUseBits(inUse[..]));
  }

  lemma FourParts(w: bits, a: bits, b: bits, c: bits, d: bits)
    ensures w + a + b + c + d == w + (a + b + c + d)
  {
    Assoc(w, a, b);
    Assoc(w, a + b, c);
    Assoc(w, a + b + c, d);
  }

  /** The number of tables, the selectors, the code lengths and the symbols. */
  method WriteBody(bw: Writer, tables: seq<Coding>, alphaSize: nat, selectors: seq<byte>, syms: seq<nat>)
    requires bw.Valid() && AreCodings(tables, alphaSize) && InAlphabet(syms, alphaSize)
    requires 0 < alphaSize <= MAX_ALPHA && |selectors| == GroupCount(|syms|)
    requires |tables| <= 6 && |selectors| < 0x1_0000_0000 && Mtf.Covers(FirstTables(|tables|), selectors)
    requires Named(selectors, |tables|)
    modifies bw, bw.dst
    ensures bw.Valid() && old(bw.stream) <= bw.stream
    ensures Codable(Lens(tables), selectors, syms) && |selectors| <= 18002 ==>
              bw.written == old(bw.written)
                          + (BitsOf(|tables|, 3) + BitsOf(|selectors|, 15) + SelectorBits(|tables|, selectors)
                             + TablesBits(Lens(tables)) + SymbolBits(Lens(tables), selectors, syms, 0))
  {
    hide BitsOf, SymbolBits, TablesBits, AreCodings, InAlphabet, Codable, GroupCount;
    ghost var w := bw.written;
    Pow2Values();
    bw.WriteBits(|tables|, 3);
    bw.WriteBits(|selectors|, 15);
    var mtfSel := SelectorMtfEncode(selectors, |tables|);
    WriteSelectors(bw, mtfSel);
    WriteTables(bw, tables, alphaSize);
    WriteSymbols(bw, tables, alphaSize, selectors, syms);
    ghost var ls := Lens(tables);
    LensPositive(tables, alphaSize);
    if Codable(ls, selectors, syms) {
      FourParts(w + BitsOf(|tables|, 3), BitsOf(|selectors|, 15), SelectorBits(|tables|, selectors), TablesBits(ls),
                SymbolBits(ls, selectors, syms, 0));
      FiveParts(w, BitsOf(|tables|, 3), BitsOf(|selectors|, 15), SelectorBits(|tables|, selectors), TablesBits(ls),
                SymbolBits(ls, selectors, syms, 0));
    }
  }

  lemma LensPositive(tables: seq<Coding>, alphaSize: nat)
    requires AreCodings(tables, alphaSize) && alphaSize > 0
    ensures forall t :: 0 <= t < |tables| ==> |Lens(tables)[t]| > 0
  {
    forall t | 0 <= t < |tables| ensures |Lens(tables)[t]| > 0 { assert IsCoding(tables[t], alphaSize); }
  }

  lemma FiveParts(w: bits, a: bits, b: bits, c: bits, d: bits, e: bits)
    ensures w + a + b + c + d + e == w + (a + b + c + d + e)
  {
    FourParts(w, a, b, c, d);
    Assoc(w, a + b + c + d, e);
  }

  /** The fields that are written make up a block that codes the bytes. */
  lemma MadeBlock(block: seq<byte>, column: seq<byte>, inUse: seq<bool>, b: Block, tables: seq<Coding>)
    requires b.crc == Crc.Checksum(block) && b.inUse == inUse && |inUse| == 256 && b.tables == Lens(tables)
    requires 0 < |Used(inUse)| && Mtf.Covers(Used(inUse), column)
    requires 2 <= |tables| <= 6 && b.primary < 0x1000000 && |b.selectors| <= 18002
    requires IsBwt(Rle1.Encode(block), column, b.primary)
    requires b.syms == Rle2.Encode(Mtf.Ranks(Used(inUse), column), |Used(inUse)|)
    requires AreCodings(tables, |Used(inUse)| + 2) && Clean(b) && |b.selectors| == GroupCount(|b.syms|)
    requires Named(b.selectors, |tables|)
    ensures Codes(b, block, column)
  {
    SymbolsFit(inUse, column);
    TablesWritable(tables, |Used(inUse)| + 2, b.selectors, b.syms);
    SelectorsCovered(|tables|, b.selectors);
  }

  lemma SelectorsCovered(n: nat, selectors: seq<byte>)
    requires n <= 256 && Named(selectors, n)
    ensures Mtf.Covers(FirstTables(n), selectors)
  {
    forall c | c in selectors ensures c in FirstTables(n) {
      assert FirstTables(n)[c] == c;
    }
  }

  /** What the largest block can grow to fits the fields that count it. */
  lemma Sizes(raw: nat, rle: nat, n: nat)
    requires raw <= 900000 && 4 * rle <= 5 * raw && n <= rle + 1
    ensures rle < 0x1000000 && GroupCount(n) < 0x1_0000_0000
    ensures rle <= 900099 ==> GroupCount(n) <= 18002
  {}

  lemma SelectorsInRange(syms: seq<nat>, tables: seq<Coding>, sel: seq<nat>)
    requires |tables| <= 6 && forall g :: 0 <= g < |sel| ==> Cheapest(syms, g, tables, sel[g])
    ensures (forall g :: 0 <= g < |sel| ==> 0 <= sel[g] < 256) && Named(sel, |tables|)
    ensures |tables| <= 256
  {
    forall g | 0 <= g < |sel| ensures sel[g] < |tables| { assert Cheapest(syms, g, tables, sel[g]); }
  }

  lemma BlockParts(w: bits, b: Block, data: seq<byte>, column: seq<byte>)
    requires Codes(b, data, column)
    ensures Codable(b.tables, b.selectors, b.syms) && (forall t :: 0 <= t < |b.tables| ==> |b.tables[t]| > 0)
    ensures |b.tables| <= 256 && Mtf.Covers(FirstTables(|b.tables|), b.selectors) && WellFormed(b)
    ensures |b.inUse| == 256
    ensures w + (b.crc + [false] + BitsOf(b.primary, 24) + InUseBits(b.inUse))
              + (BitsOf(|b.tables|, 3) + BitsOf(|b.selectors|, 15) + SelectorBits(|b.tables|, b.selectors)
                 + TablesBits(b.tables) + SymbolBits(b.tables, b.selectors, b.syms, 0))
         == w + BlockBits(b)
  {
    ReadHead(b, []);
    var h := b.crc + [false] + BitsOf(b.primary, 24) + InUseBits(b.inUse);
    var a1, a2, a3 := BitsOf(|b.tables|, 3), BitsOf(|b.selectors|, 15), SelectorBits(|b.tables|, b.selectors);
    var a4, a5 := TablesBits(b.tables), SymbolBits(b.tables, b.selectors, b.syms, 0);
    assert BlockBits(b) == h + a1 + a2 + a3 + a4 + a5;
    hide *;
    FiveParts(h, a1, a2, a3, a4, a5);
    Assoc(w, h, a1 + a2 + a3 + a4 + a5);
  }

  /** Few enough different bytes for a Huffman tree that is never too deep. */
  ghost predicate FewBytes(data: seq<byte>) {
    exists list: seq<byte> :: |list| <= MAX_LEN - 1 && Mtf.Covers(list, Rle1.Encode(data))
  }

  lemma FewInUse(data: seq<byte>, inUse: seq<bool>)
    requires FewBytes(data) && Marks(inUse, Rle1.Encode(data), |Rle1.Encode(data)|)
    ensures |Used(inUse)| <= MAX_LEN - 1
  {
    var rle := Rle1.Encode(data);
    var list: seq<byte> :| |list| <= MAX_LEN - 1 && Mtf.Covers(list, rle);
    UsedFromMembers(inUse, 0);
    UsedRises(inUse, 0);
    assert rle[..|rle|] == rle;
    if |Used(inUse)| > |list| { var i := TooMany(Used(inUse), list); }
  }

  lemma {:induction false} UsedRises(inUse: seq<bool>, c: nat)
    requires |inUse| == 256 && c <= 256
    ensures Injective(UsedFrom(inUse, c))
    decreases 256 - c
  {
    if c < 256 {
      UsedRises(inUse, c + 1);
      UsedFromMembers(inUse, c + 1);
    }
  }

  /** The block is what the stages of the encoder make of these bytes; only among equal rotations is the first one left
      open. */
  ghost predicate Encodes(b: Block, block: seq<byte>, column: seq<byte>, pick: HuffmanBuild.HeapRule) {
    && b.crc == Crc.Checksum(block) && IsBwt(Rle1.Encode(block), column, b.primary)
    && Marks(b.inUse, Rle1.Encode(block), |Rle1.Encode(block)|)
    && Mtf.Covers(Used(b.inUse), column) && 0 < |Used(b.inUse)|
    && b.syms == Rle2.Encode(Mtf.Ranks(Used(b.inUse), column), |Used(b.inUse)|)
    && InAlphabet(b.syms, |Used(b.inUse)| + 2)
    && var (ls, sel) := Settled(b.syms, |Used(b.inUse)| + 2, TableCount(|b.syms|), pick, 4);
       b.tables == ls && Same(b.selectors, sel)
  }

  ghost predicate Same(a: seq<byte>, b: seq<nat>) {
    |a| == |b| && forall i :: 0 <= i < |a| ==> a[i] == b[i]
  }

  lemma EncodesIs(b: Block, block: seq<byte>, column: seq<byte>, sel: seq<nat>, pick: HuffmanBuild.HeapRule)
    requires b.crc == Crc.Checksum(block) && IsBwt(Rle1.Encode(block), column, b.primary)
    requires Marks(b.inUse, Rle1.Encode(block), |Rle1.Encode(block)|)
    requires Mtf.Covers(Used(b.inUse), column) && 0 < |Used(b.inUse)|
    requires b.syms == Rle2.Encode(Mtf.Ranks(Used(b.inUse), column), |Used(b.inUse)|)
    requires InAlphabet(b.syms, |Used(b.inUse)| + 2)
    requires (b.tables, sel) == Settled(b.syms, |Used(b.inUse)| + 2, TableCount(|b.syms|), pick, 4)
    requires |b.selectors| == |sel| && forall i :: 0 <= i < |sel| ==> b.selectors[i] == sel[i]
    ensures Encodes(b, block, column, pick)
  {
    hide Settled, IsBwt, Marks, Crc.Checksum, Rle1.Encode, Rle2.Encode, Used, Mtf.Covers, InAlphabet;
  }

  /** Compresses one block. When every symbol's code fits its length, and the block has no more groups than the format
      knows, the bits written are those of a block that codes the bytes. Codes can only be too long when the block is
      long and has many different bytes. */
  method CompressBlock(block: seq<byte>, bw: Writer, t: array2<Crc.word>, pick: HuffmanBuild.HeapRule)
    returns (ok: bool, crc: Crc.word, ghost b: Block, ghost column: seq<byte>)
    requires bw.Valid() && Crc.IsTables(t) && 0 < |block| <= 900000
    modifies bw, bw.dst
    ensures bw.Valid() && old(bw.stream) <= bw.stream
    ensures ok == bw.Ok() && crc == Crc.Checksum(block) && b.crc == crc
    ensures Clean(b) && |b.selectors| <= 18002 ==>
              && Codes(b, block, column)
              && bw.written == old(bw.written) + BLOCK_MAGIC + BlockBits(b)
    ensures |Rle1.Encode(block)| <= 900099 ==> |b.selectors| <= 18002
    ensures |Rle1.Encode(block)| + 259 < 28657 || FewBytes(block) ==> Clean(b)
    ensures Encodes(b, block, column, pick)
  {
    hide *;
    crc := Crc.BlockChecksum(t, block);
    var rle1 := Rle1.EncodeBlock(block);
    Rle1.EncodeSize(block);
    var inUse := MarkUsed(rle1);
    var list := ListUsed(inUse);
    var data := new byte[|rle1|];
    var primary := Bwt.Transform(rle1, data);
    column := data[..];
    ghost var used := inUse[..];
    UsedCovers(used, rle1, column, primary);
    if FewBytes(block) { FewInUse(block, used); }
    Mtf.EncodeInUse(data, list);
    var syms, alphaSize := Rle2.EncodeBlock(data[..], inUse[..]);
    SymbolsFit(used, column);
    var nTables := TableCount(|syms|);
    var tables, sel, cut := BuildTables(syms, alphaSize, nTables, pick);
    Sizes(|block|, |rle1|, |syms|);
    SelectorsInRange(syms, tables, sel);
    var selectors: seq<byte> := sel;
    SelectorsCovered(nTables, selectors);
    b := Block(crc, primary, used, Lens(tables), selectors, syms);
    ghost var w := bw.written + BLOCK_MAGIC;
    WriteHead(bw, crc, primary, inUse);
    WriteBody(bw, tables, alphaSize, selectors, syms);
    TablesWritable(tables, alphaSize, selectors, syms);
    CleanIs(b);
    EncodesIs(b, block, column, sel, pick);
    if Clean(b) && |selectors| <= 18002 {
      MadeBlock(block, column, used, b, tables);
      BlockParts(w, b, block, column);
    }
    ok := bw.Ok();
  }

  lemma CleanIs(b: Block)
    ensures Clean(b) <==> CodesFit(b.tables, b.selectors, b.syms)
  {}
}
