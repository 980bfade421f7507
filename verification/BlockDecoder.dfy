/** Decoding one block: the fields, then the three phases. It answers exactly what the plain parser answers. */
module BlockDecoder {
  import opened Bits
  import opened BitIo
  import opened Permutations
  import opened Canonical
  import opened DecodeTable
  import opened BwtInverse
  import opened BwtWalk
  import opened BlockFormat
  import opened BlockSymbols
  import opened BlockCodec
  import opened BlockColumn
  import opened BlockOutput
  import opened FieldReader
  import BlockEncoder
  import Crc
  import Mtf
  import Rle1

  /** Start positions of every byte value, from the counts of the first phase. */
  method CumulativeCounts(ghost column: seq<byte>, counts: array<int>, nblock: nat)
    returns (ok: bool, cftab: array<int>)
    requires |column| == nblock && counts.Length == 256
    requires forall c :: 0 <= c < 256 ==> counts[c] == Equal(column, nblock, c)
    ensures ok && fresh(cftab) && cftab.Length == 257
    ensures forall c :: 0 <= c < 256 ==> cftab[c] == Below(column, nblock, c)
  {
    cftab := new int[257](_ => 0);
    for i := 1 to 257
      invariant cftab[0] == 0
      invariant forall k :: 1 <= k < i ==> cftab[k] == Equal(column, nblock, k - 1)
    {
      cftab[i] := counts[i - 1];
    }
    BelowNone(column, nblock, 0);
    for i := 1 to 257
      invariant forall k :: 0 <= k < i ==> cftab[k] == Below(column, nblock, k)
      invariant forall k :: i <= k < 257 ==> cftab[k] == Equal(column, nblock, k - 1)
    {
      BelowNext(column, nblock, i - 1);
      cftab[i] := cftab[i] + cftab[i - 1];
    }
    for i := 0 to 257 {
      if cftab[i] > nblock {
        assert false;
        return false, cftab;
      }
    }
    ok := true;
  }

  /** The second phase: the table of next rows with the characters packed above. */
  method FillPacked(column: seq<byte>, counts: array<int>, tt: array<int>) returns (ok: bool)
    requires counts.Length == 256 && |column| <= tt.Length && counts != tt
    requires forall c :: 0 <= c < 256 ==> counts[c] == Equal(column, |column|, c)
    modifies tt
    ensures ok && PackedTable(column, tt[..])
  {
    var cftab;
    ok, cftab := CumulativeCounts(column, counts, |column|);
    if !ok { return; }
    FillTable(column, cftab, tt);
    PackTable(column, tt);
  }

  /** The second and third phases and the final checks. */
  method FinishBlock(column: seq<byte>, counts: array<int>, primary: nat, crc: Crc.word, dst: array<byte>, written: nat,
                     tt: array<int>, t: array2<Crc.word>)
    returns (s: Status, total: nat)
    requires counts.Length == 256 && |column| <= 900001 <= tt.Length && counts != tt && tt != dst as object
    requires forall c :: 0 <= c < 256 ==> counts[c] == Equal(column, |column|, c)
    requires written <= dst.Length && Crc.IsTables(t)
    modifies tt, dst
    ensures dst[..written] == old(dst[..written])
    ensures match Finish(column, primary, crc, dst.Length - written, [])
            case Got(d, _) =>
              s == Done && total == written + |d.data| <= dst.Length && dst[written..total] == d.data && crc == d.crc
            case _ => s == Failed
  {
    hide Unbwt, Rle1.Decode, PackedTable, Crc.IsTables, Equal, Halfway, Row;
    total := written;
    if primary >= |column| { return Failed, total; }
    var ok := FillPacked(column, counts, tt);
    if !ok { return Failed, total; }
    BlockFits(column);
    var o := new Output(dst, written, tt, primary, column, |column|);
    var sum;
    ok, sum := WalkBlock(o, t);
    if !ok || sum != crc { return Failed, total; }
    return Done, o.out;
  }

  lemma BlockFits(column: seq<byte>)
    requires |column| <= 900001
    ensures |column| <= 0x100000
  {}

  lemma FinishRest(column: seq<byte>, primary: nat, crc: Crc.word, room: nat, rest: bits)
    ensures match Finish(column, primary, crc, room, [])
            case Got(d, _) => Finish(column, primary, crc, room, rest) == Got(d, rest)
            case _ => Finish(column, primary, crc, room, rest).Reject?
  {}

  /** All three phases. */
  method DecodePayload(br: Reader, crc: Crc.word, primary: nat, inUse: array<bool>, tabs: seq<Table>,
                       ghost lens: seq<lengths>, selectors: array<byte>, nSelectors: nat, dst: array<byte>,
                       written: nat, tt: array<int>, ll: array<byte>, t: array2<Crc.word>)
    returns (s: Status, total: nat)
    requires br.Valid() && inUse.Length == 256 && |Used(inUse[..])| > 0
    requires nSelectors <= selectors.Length && Named(selectors[..nSelectors], |tabs|) && Ready(tabs, lens)
    requires |tabs| == |lens| && Apart({br, dst, tt, ll}, tabs)
    requires written <= dst.Length && Crc.IsTables(t) && 900001 <= ll.Length && 900001 <= tt.Length
    requires ll != dst && selectors != ll && selectors != dst && tt != dst as object && tt != ll as object
    requires inUse != dst as object && inUse != ll as object && inUse != tt as object
    requires t != dst as object && t != ll as object && t != tt as object
    modifies br, dst, tt, ll
    ensures br.Valid() && dst[..written] == old(dst[..written])
    ensures match ReadPayload(crc, primary, inUse[..], lens, selectors[..nSelectors], dst.Length - written,
                              old(br.Rest()))
            case Got(d, rest) =>
              && s == Done && total == written + |d.data| <= dst.Length && dst[written..total] == d.data && crc == d.crc
              && br.Rest() == rest
            case Reject => s == Failed
            case Undefined => s == Lost
  {
    hide ReadSymbols, Finish, Used, BitsOf, BytesBits, Crc.IsTables, Equal, Named;
    total := written;
    if nSelectors == 0 { return Lost, total; }
    var list := BlockEncoder.ListUsed(inUse);
    var mtf := new Mtf.State(list);
    var col := new Column(ll, mtf);
    s := ReadColumn(br, tabs, lens, selectors, nSelectors, col);
    if s != Done { return s, total; }
    ghost var room := dst.Length - written;
    FinishRest(ll[..col.nblock], primary, crc, room, br.Rest());
    s, total := FinishBlock(ll[..col.nblock], col.counts, primary, crc, dst, written, tt, t);
  }

  /** From the numbers of tables and selectors on. */
  method DecodeTablesAndData(br: Reader, crc: Crc.word, primary: nat, inUse: array<bool>, dst: array<byte>,
                             written: nat, tt: array<int>, ll: array<byte>, t: array2<Crc.word>)
    returns (s: Status, total: nat)
    requires br.Valid() && inUse.Length == 256
    requires written <= dst.Length && Crc.IsTables(t) && 900001 <= ll.Length && 900001 <= tt.Length
    requires ll != dst && tt != dst as object && tt != ll as object
    requires inUse != dst as object && inUse != ll as object && inUse != tt as object
    requires t != dst as object && t != ll as object && t != tt as object
    modifies br, dst, tt, ll
    ensures br.Valid() && dst[..written] == old(dst[..written])
    ensures match ReadCounts(crc, primary, inUse[..], dst.Length - written, old(br.Rest()))
            case Got(d, rest) =>
              && s == Done && total == written + |d.data| <= dst.Length && dst[written..total] == d.data && crc == d.crc
              && br.Rest() == rest
            case Reject => s == Failed
            case Undefined => s == Lost
  {
    hide ReadPayload, ReadSelectors, ReadTables, BitsOf, BytesBits, Crc.IsTables, Pow2, ValueOf, Ready, Used;
    total := written;
    var list := BlockEncoder.ListUsed(inUse);
    if |list| == 0 { return Failed, total; }
    var alphaSize := |list| + 2;
    ghost var start := br.Rest();
    var nTables := ReadNum(br, 3);
    var nSelectors := ReadNum(br, 15);
    if nTables < 2 || nTables > 6 { return Failed, total; }
    if nSelectors == NO_BITS { return Failed, total; }
    ghost var b := br.Rest();
    var selectors;
    s, selectors := ReadTableChoices(br, nTables, nSelectors);
    SelectorsInRange(FirstTables(nTables), 0, nSelectors, b, nTables);
    if s != Done { return s, total; }
    var tabs;
    ghost var lens;
    s, tabs, lens := ReadDecodeTables(br, alphaSize, nTables);
    if s != Done { return s, total; }
    ReadyCount(tabs, lens);
    s, total := DecodePayload(br, crc, primary, inUse, tabs, lens, selectors, nSelectors, dst, written, tt, ll, t);
  }

  /** Decodes one block behind its magic number into dst from position `written` on. */
  method DecodeBlock(br: Reader, dst: array<byte>, written: nat, tt: array<int>, ll: array<byte>, t: array2<Crc.word>)
    returns (s: Status, total: nat, crc: Crc.word)
    requires br.Valid()
    requires written <= dst.Length && Crc.IsTables(t) && 900001 <= ll.Length && 900001 <= tt.Length
    requires ll != dst && tt != dst as object && tt != ll as object
    requires t != dst as object && t != ll as object && t != tt as object
    modifies br, dst, tt, ll
    ensures br.Valid() && dst[..written] == old(dst[..written])
    ensures match ReadBlock(old(br.Rest()), dst.Length - written)
            case Got(d, rest) =>
              && s == Done && total == written + |d.data| <= dst.Length && dst[written..total] == d.data && crc == d.crc
              && br.Rest() == rest
            case Reject => s == Failed
            case Undefined => s == Lost
  {
    hide ReadCounts, ReadInUse, BitsOf, BytesBits, Crc.IsTables, Pow2, ValueOf;
    total := written;
    ghost var b := br.Rest();
    var ok;
    ok, crc := ReadWord(br);
    if !ok { return Failed, total, crc; }
    var rnd := ReadBit(br);
    if rnd == NO_BITS { return Failed, total, crc; }
    if rnd != 0 { return Failed, total, crc; }
    assert b[32..][1..] == b[33..];
    var primary := ReadNum(br, 24);
    if primary == NO_BITS { return Failed, total, crc; }
    var inUse;
    ok, inUse := ReadUsed(br);
    if !ok { return Failed, total, crc; }
    s, total := DecodeTablesAndData(br, crc, primary, inUse, dst, written, tt, ll, t);
  }
}
