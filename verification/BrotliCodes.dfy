/** Brotli's insert-and-copy commands and distances as symbols with extra bits (sections 4 and 5 of RFC 7932): what the
    encoder chooses is what the decoder reads back. */
module BrotliCodes {
  import opened Bits
  import opened LsbBits

  const INSERT_BASE: seq<nat> := [
    0, 1, 2, 3, 4, 5, 6, 8, 10, 14, 18, 26, 34, 50, 66, 98, 130, 194, 322, 578, 1090, 2114, 6210, 22594]
  const INSERT_EXTRA: seq<nat> := [
    0, 0, 0, 0, 0, 0, 1, 1, 2, 2, 3, 3, 4, 4, 5, 5, 6, 7, 8, 9, 10, 12, 14, 24]
  const COPY_BASE: seq<nat> := [
    2, 3, 4, 5, 6, 7, 8, 9, 10, 12, 14, 18, 22, 30, 38, 54, 70, 102, 134, 198, 326, 582, 1094, 2118]
  const COPY_EXTRA: seq<nat> := [
    0, 0, 0, 0, 0, 0, 0, 0, 1, 1, 2, 2, 3, 3, 4, 4, 5, 5, 6, 7, 8, 9, 10, 24]
  const GROUP_INSERT: seq<nat> := [0, 0, 0, 0, 8, 8, 0, 16, 8, 16, 16]
  const GROUP_COPY: seq<nat> := [0, 8, 0, 8, 0, 8, 16, 0, 16, 8, 16]

  ghost predicate Ascending(symbols: seq<nat>) {
    forall i, j :: 0 <= i < j < |symbols| ==> symbols[i] < symbols[j]
  }

  /** At most four symbols of an alphabet, in order. */
  ghost predicate SymbolList(symbols: seq<nat>, alphabetSize: nat) {
    Ascending(symbols) && |symbols| <= 4 && forall i :: 0 <= i < |symbols| ==> symbols[i] < alphabetSize
  }

  // ---------- reading extra bits ----------

  /** n bits as a number, and the bits behind them; None when the input ends. */
  function TakeBits(s: bits, n: nat): (r: Option<(nat, bits)>)
  {
    if |s| < n then None else Some((NumberOf(s[..n]), s[n..]))
  }

  lemma TakeWritten(v: nat, n: nat, tail: bits)
    requires v < Pow2(n)
    ensures TakeBits(LsbOf(v, n) + tail, n) == Some((v, tail))
  {
    NumberOfLsb(v, n);
    var s := LsbOf(v, n) + tail;
    assert s[..n] == LsbOf(v, n) && s[n..] == tail;
  }

  // ---------- lengths ----------

  /** The length lies in the range of this code. */
  predicate InCode(base: seq<nat>, extra: seq<nat>, code: nat, len: nat)
    requires code < 24 == |base| == |extra|
  {
    base[code] <= len < base[code] + Pow2(extra[code])
  }

  lemma Powers()
    ensures Pow2(0) == 1 && Pow2(9) == 512 && Pow2(12) == 4096 && Pow2(14) == 16384
  {
    Pow2Values();
    assert Pow2(12) == 2 * Pow2(11) == 4 * Pow2(10);
    assert Pow2(14) == 2 * Pow2(13) == 4 * Pow2(12);
  }

  /** Every insert length below this bound has a code, and every copy length from 2 on. */
  const INSERT_LIMIT: nat := 22594 + 0x1000000
  const COPY_LIMIT: nat := 2118 + 0x1000000

  /** The first code whose range holds the length. */
  method LengthCode(value: nat, base: seq<nat>, extra: seq<nat>) returns (code: Option<nat>)
    requires |base| == |extra| == 24
    ensures code.Some? ==> code.value < 24 && InCode(base, extra, code.value, value)
    ensures code.None? ==> forall i :: 0 <= i < 24 ==> !InCode(base, extra, i, value)
  {
    for i := 0 to 24
      invariant forall j :: 0 <= j < i ==> !InCode(base, extra, j, value)
    {
      var count := Pow2(extra[i]);
      if value >= base[i] && value < base[i] + count { return Some(i); }
    }
    return None;
  }

  // ---------- commands ----------

  /** What a command symbol stands for. */
  datatype Command = Command(insertLen: nat, copyLen: nat, implicitDistance: bool)

  function InsertCode(symbol: nat): (code: nat)
    requires symbol < 704
    ensures code < 24
  {
    GROUP_INSERT[symbol / 64] + symbol % 64 / 8 % 8
  }

  function CopyCode(symbol: nat): (code: nat)
    requires symbol < 704
    ensures code < 24
  {
    GROUP_COPY[symbol / 64] + symbol % 8
  }

  lemma CopyBasesAreTwo()
    ensures |COPY_BASE| == 24 && forall i :: 0 <= i < 24 ==> COPY_BASE[i] >= 2
  {}

  /** The decoder's reading of a command symbol and its extra bits. */
  function ReadCommand(symbol: int, s: bits): (r: Option<(Command, bits)>)
    ensures r.Some? ==> r.value.0.copyLen >= 2
  {
    CopyBasesAreTwo();
    if symbol < 0 || symbol >= 704 then None
    else match TakeBits(s, INSERT_EXTRA[InsertCode(symbol)])
      case None => None
      case Some(i) =>
        var c := TakeBits(i.1, COPY_EXTRA[CopyCode(symbol)]);
        if c.None? then None
        else Some((Command(INSERT_BASE[InsertCode(symbol)] + i.0, COPY_BASE[CopyCode(symbol)] + c.value.0,
                           symbol < 128), c.value.1))
  }

  /** The extra bits that the encoder writes behind the symbol. */
  function CommandExtra(symbol: nat, insertLen: nat, copyLen: nat): bits
    requires symbol < 704 && InsertFits(symbol, insertLen) && CopyFits(symbol, copyLen)
  {
    LsbOf(insertLen - INSERT_BASE[InsertCode(symbol)], INSERT_EXTRA[InsertCode(symbol)])
    + LsbOf(copyLen - COPY_BASE[CopyCode(symbol)], COPY_EXTRA[CopyCode(symbol)])
  }

  predicate InsertFits(symbol: nat, len: nat)
    requires symbol < 704
  {
    InCode(INSERT_BASE, INSERT_EXTRA, InsertCode(symbol), len)
  }

  predicate CopyFits(symbol: nat, len: nat)
    requires symbol < 704
  {
    InCode(COPY_BASE, COPY_EXTRA, CopyCode(symbol), len)
  }

  /** A command reads back as the lengths it was written for. */
  lemma CommandRoundTrip(symbol: nat, insertLen: nat, copyLen: nat, tail: bits)
    requires symbol < 704 && InsertFits(symbol, insertLen) && CopyFits(symbol, copyLen)
    ensures ReadCommand(symbol, CommandExtra(symbol, insertLen, copyLen) + tail)
         == Some((Command(insertLen, copyLen, symbol < 128), tail))
  {
    hide TakeBits, LsbOf, Pow2, InsertCode, CopyCode, INSERT_BASE, INSERT_EXTRA, COPY_BASE, COPY_EXTRA;
    Shapes();
    var i, c := InsertCode(symbol), CopyCode(symbol);
    var a, b := LsbOf(insertLen - INSERT_BASE[i], INSERT_EXTRA[i]), LsbOf(copyLen - COPY_BASE[c], COPY_EXTRA[c]);
    Assoc(a, b, tail);
    TakeWritten(insertLen - INSERT_BASE[i], INSERT_EXTRA[i], b + tail);
    TakeWritten(copyLen - COPY_BASE[c], COPY_EXTRA[c], tail);
  }

  lemma Shapes()
    ensures |INSERT_BASE| == |INSERT_EXTRA| == |COPY_BASE| == |COPY_EXTRA| == 24
    ensures |GROUP_INSERT| == |GROUP_COPY| == 11 && forall g :: 0 <= g < 11 ==>
              GROUP_INSERT[g] <= 16 && GROUP_COPY[g] <= 16
  {}

  /** A symbol put together from its group and codes comes apart again. */
  lemma SymbolParts(group: nat, i: nat, c: nat)
    requires group < 11 && i < 8 && c < 8
    ensures var symbol := group * 64 + i * 8 + c;
            symbol < 704 && InsertCode(symbol) == GROUP_INSERT[group] + i && CopyCode(symbol) == GROUP_COPY[group] + c
            && (symbol < 128 <==> group < 2)
  {
    var symbol := group * 64 + i * 8 + c;
    assert symbol / 64 == group && symbol % 64 == i * 8 + c;
  }

  /** The symbols from 128 on, by their insert and copy codes. */
  function ExplicitSymbol(i: nat, c: nat): nat
    requires i < 24 && c < 24
  {
    [[128, 192, 384], [256, 320, 512], [448, 576, 640]][i / 8][c / 8] + i % 8 * 8 + c % 8
  }

  /** What all command symbols stand for: the first 128 have the first eight insert codes and the first sixteen copy
      codes, and the others have all pairs. */
  lemma SymbolsOfGroups(i: nat, c: nat)
    requires i < 24 && c < 24
    ensures i < 8 && c < 16 ==>
              var symbol := c / 8 * 64 + i * 8 + c % 8;
              symbol < 128 && InsertCode(symbol) == i && CopyCode(symbol) == c
    ensures var symbol := ExplicitSymbol(i, c);
            128 <= symbol < 704 && InsertCode(symbol) == i && CopyCode(symbol) == c
  {
    hide InsertCode, CopyCode;
    if i < 8 && c < 16 { SymbolParts(c / 8, i, c % 8); }
    SymbolParts([[2, 3, 6], [4, 5, 8], [7, 9, 10]][i / 8][c / 8], i % 8, c % 8);
  }

  // ---------- which symbol stands for which lengths ----------

  /** Every range starts where the one before it ends. */
  ghost predicate Gapless(base: seq<nat>, extra: seq<nat>) {
    |base| == |extra| == 24 && forall k :: 0 <= k < 23 ==> base[k + 1] == base[k] + Pow2(extra[k])
  }

  lemma TablesGapless()
    ensures Gapless(INSERT_BASE, INSERT_EXTRA) && Gapless(COPY_BASE, COPY_EXTRA)
  {
    hide *;
    InsertGapless();
    CopyGapless();
  }

  lemma InsertGapless()
    ensures Gapless(INSERT_BASE, INSERT_EXTRA)
  {
    hide Pow2, COPY_BASE, COPY_EXTRA;
    Pow2Values();
    Powers();
  }

  lemma CopyGapless()
    ensures Gapless(COPY_BASE, COPY_EXTRA)
  {
    hide Pow2, INSERT_BASE, INSERT_EXTRA;
    Pow2Values();
    Powers();
  }

  lemma {:induction false} Climbs(base: seq<nat>, extra: seq<nat>, i: nat, j: nat)
    requires Gapless(base, extra) && i < j < 24
    ensures base[i] + Pow2(extra[i]) <= base[j]
    decreases j
  {
    if i + 1 < j { Climbs(base, extra, i, j - 1); }
  }

  /** A length is in the range of one code only. */
  lemma OneCode(base: seq<nat>, extra: seq<nat>, i: nat, j: nat, len: nat)
    requires Gapless(base, extra) && i < 24 && j < 24 && InCode(base, extra, i, len) && InCode(base, extra, j, len)
    ensures i == j
  {
    if i < j { Climbs(base, extra, i, j); } else if j < i { Climbs(base, extra, j, i); }
  }

  /** The code of an insert length. */
  function InsertCodeOf(len: nat): nat {
    if len < 6 then len else if len < 10 then 6 + (len - 6) / 2 else if len < 18 then 8 + (len - 10) / 4
    else if len < 34 then 10 + (len - 18) / 8 else if len < 66 then 12 + (len - 34) / 16
    else if len < 130 then 14 + (len - 66) / 32 else if len < 194 then 16 else if len < 322 then 17
    else if len < 578 then 18 else if len < 1090 then 19 else if len < 2114 then 20 else if len < 6210 then 21
    else if len < 22594 then 22 else 23
  }

  /** The code of a copy length. */
  function CopyCodeOf(len: nat): nat
    requires len >= 2
  {
    if len < 10 then len - 2 else if len < 14 then 8 + (len - 10) / 2 else if len < 22 then 10 + (len - 14) / 4
    else if len < 38 then 12 + (len - 22) / 8 else if len < 70 then 14 + (len - 38) / 16
    else if len < 134 then 16 + (len - 70) / 32 else if len < 198 then 18 else if len < 326 then 19
    else if len < 582 then 20 else if len < 1094 then 21 else if len < 2118 then 22 else 23
  }

  /** The group with explicit distances for insert and copy codes of these eights. */
  function GroupOf(i: nat, c: nat): nat
    requires i < 3 && c < 3
  {
    [[2, 3, 6], [4, 5, 8], [7, 9, 10]][i][c]
  }

  /** The symbol for an insertion and a copy, if both lengths have codes. */
  function CommandFor(insertLen: nat, copyLen: nat): (symbol: Option<nat>)
    ensures symbol.Some? <==> insertLen < INSERT_LIMIT && 2 <= copyLen < COPY_LIMIT
  {
    if insertLen < INSERT_LIMIT && 2 <= copyLen < COPY_LIMIT then
      var i, c := InsertCodeOf(insertLen), CopyCodeOf(copyLen);
      Some(GroupOf(i / 8, c / 8) * 64 + i % 8 * 8 + c % 8)
    else None
  }

  /** The symbol for a last insertion. */
  function TailFor(len: nat): (symbol: Option<nat>)
    ensures symbol.Some? <==> len < INSERT_LIMIT
  {
    if len < INSERT_LIMIT then
      var i := InsertCodeOf(len);
      Some([0, 4, 7][i / 8] * 64 + i % 8 * 8)
    else None
  }

  /** Lengths past the last range have no code. */
  lemma OverLimit(len: nat, i: nat)
    requires i < 24
    ensures len >= INSERT_LIMIT ==> !InCode(INSERT_BASE, INSERT_EXTRA, i, len)
    ensures len >= COPY_LIMIT || len < 2 ==> !InCode(COPY_BASE, COPY_EXTRA, i, len)
  {
    hide Pow2;
    Pow2Values();
    TablesGapless();
    if i < 23 {
      Climbs(INSERT_BASE, INSERT_EXTRA, i, 23);
      Climbs(COPY_BASE, COPY_EXTRA, i, 23);
    }
    if i > 0 { Climbs(COPY_BASE, COPY_EXTRA, 0, i); }
  }

  /** The group that is found is the one for the eights of the codes. */
  lemma GroupIs(group: nat, i: nat, c: nat)
    requires 2 <= group < 11 && i < 24 && c < 24 && GroupFits(group, i, c)
    ensures group == GroupOf(i / 8, c / 8) && i - GROUP_INSERT[group] == i % 8 && c - GROUP_COPY[group] == c % 8
  {}

  /** The symbol for inserting and copying, with an explicit distance. */
  method SymbolForInsertCopy(insertLen: nat, copyLen: nat) returns (symbol: Option<nat>)
    ensures symbol == CommandFor(insertLen, copyLen)
    ensures symbol.Some? ==>
              && 128 <= symbol.value < 704 && InsertFits(symbol.value, insertLen) && CopyFits(symbol.value, copyLen)
  {
    hide InCode, InsertCode, CopyCode, INSERT_BASE, INSERT_EXTRA, COPY_BASE, COPY_EXTRA, INSERT_LIMIT, COPY_LIMIT;
    Shapes();
    var insertCode := LengthCode(insertLen, INSERT_BASE, INSERT_EXTRA);
    if insertCode.None? {
      if insertLen < INSERT_LIMIT { InsertCovered(insertLen); }
      return None;
    }
    ChosenInsert(insertLen, insertCode.value);
    var copyCode := LengthCode(copyLen, COPY_BASE, COPY_EXTRA);
    if copyCode.None? {
      if 2 <= copyLen < COPY_LIMIT { CopyCovered(copyLen); }
      return None;
    }
    ChosenCopy(copyLen, copyCode.value);
    var i, c := insertCode.value, copyCode.value;
    for group := 2 to 11
      invariant forall g :: 2 <= g < group ==> !GroupFits(g, i, c)
    {
      if
        || i < GROUP_INSERT[group] || i >= GROUP_INSERT[group] + 8
        || c < GROUP_COPY[group] || c >= GROUP_COPY[group] + 8
      {
        continue;
      }
      GroupIs(group, i, c);
      SymbolParts(group, i - GROUP_INSERT[group], c - GROUP_COPY[group]);
      return Some(group * 64 + (i - GROUP_INSERT[group]) * 8 + (c - GROUP_COPY[group]));
    }
    GroupsCover(i, c);
    return None;
  }

  predicate GroupFits(group: nat, i: nat, c: nat)
    requires group < 11
  {
    GROUP_INSERT[group] <= i < GROUP_INSERT[group] + 8 && GROUP_COPY[group] <= c < GROUP_COPY[group] + 8
  }

  /** The nine groups with explicit distances cover all pairs of codes. */
  lemma GroupsCover(i: nat, c: nat)
    requires i < 24 && c < 24
    ensures exists g :: 2 <= g < 11 && GroupFits(g, i, c)
  {
    var table := [[2, 3, 6], [4, 5, 8], [7, 9, 10]];
    var g := table[i / 8][c / 8];
    assert GroupFits(g, i, c);
  }

  lemma InsertCovered(len: nat)
    requires len < INSERT_LIMIT
    ensures InsertCodeOf(len) < 24 && InCode(INSERT_BASE, INSERT_EXTRA, InsertCodeOf(len), len)
  {
    hide Pow2;
    Pow2Values();
    Powers();
  }

  lemma ChosenInsert(len: nat, code: nat)
    requires code < 24 == |INSERT_BASE| == |INSERT_EXTRA| && InCode(INSERT_BASE, INSERT_EXTRA, code, len)
    ensures len < INSERT_LIMIT && code == InsertCodeOf(len)
  {
    hide InCode, InsertCodeOf, INSERT_LIMIT;
    TablesGapless();
    OverLimit(len, code);
    InsertCovered(len);
    OneCode(INSERT_BASE, INSERT_EXTRA, code, InsertCodeOf(len), len);
  }

  lemma ChosenCopy(len: nat, code: nat)
    requires code < 24 == |COPY_BASE| == |COPY_EXTRA| && InCode(COPY_BASE, COPY_EXTRA, code, len)
    ensures 2 <= len < COPY_LIMIT && code == CopyCodeOf(len)
  {
    hide InCode, CopyCodeOf, COPY_LIMIT;
    TablesGapless();
    OverLimit(len, code);
    CopyCovered(len);
    OneCode(COPY_BASE, COPY_EXTRA, code, CopyCodeOf(len), len);
  }

  lemma CopyCovered(len: nat)
    requires 2 <= len < COPY_LIMIT
    ensures CopyCodeOf(len) < 24 && InCode(COPY_BASE, COPY_EXTRA, CopyCodeOf(len), len)
  {
    hide Pow2;
    Pow2Values();
    Powers();
  }

  /** The first group that holds an insert code; its copy codes start at 0, which has no extra bits. */
  method FirstGroup(code: nat) returns (group: nat)
    requires code < 24
    ensures group < 11 && GROUP_INSERT[group] <= code < GROUP_INSERT[group] + 8
    ensures GROUP_COPY[group] == 0 && COPY_EXTRA[0] == 0 && group == [0, 4, 7][code / 8]
    ensures code - GROUP_INSERT[group] == code % 8
  {
    ghost var first := if code < 8 then 0 else if code < 16 then 4 else 7;
    group := 0;
    while code < GROUP_INSERT[group] || code >= GROUP_INSERT[group] + 8
      invariant group <= first
      decreases first - group
    {
      group := group + 1;
    }
    SmallGroups(group, code);
  }

  lemma SmallGroups(group: nat, code: nat)
    requires group < 11 && code < 24 && GROUP_INSERT[group] <= code < GROUP_INSERT[group] + 8
    requires group <= if code < 8 then 0 else if code < 16 then 4 else 7
    ensures GROUP_COPY[group] == 0 && COPY_EXTRA[0] == 0 && group == [0, 4, 7][code / 8]
    ensures code - GROUP_INSERT[group] == code % 8
  {}

  /** The symbol for a last insertion without a copy. Its copy code has no extra bits. */
  method SymbolForInsert(len: nat) returns (symbol: Option<nat>)
    ensures symbol == TailFor(len)
    ensures symbol.Some? ==>
              symbol.value < 704 && InsertFits(symbol.value, len) && COPY_EXTRA[CopyCode(symbol.value)] == 0
  {
    hide InCode, InsertCode, CopyCode, INSERT_BASE, INSERT_EXTRA, COPY_BASE, COPY_EXTRA, INSERT_LIMIT, COPY_LIMIT;
    Shapes();
    var code := LengthCode(len, INSERT_BASE, INSERT_EXTRA);
    if code.None? {
      if len < INSERT_LIMIT { InsertCovered(len); }
      return None;
    }
    ChosenInsert(len, code.value);
    var group := FirstGroup(code.value);
    SymbolParts(group, code.value - GROUP_INSERT[group], 0);
    return Some(group * 64 + (code.value - GROUP_INSERT[group]) * 8);
  }

  // ---------- distances ----------

  /** The bucket's first distance and its extra bits, without postfix and direct codes. */
  function BucketBits(bucket: nat): nat { bucket / 2 + 1 }

  function BucketBase(bucket: nat): (base: nat)
  {
    var offset := (2 + bucket % 2) * Pow2(bucket / 2 + 1) - 4;
    assert Pow2(bucket / 2 + 1) >= 2;
    offset + 1
  }

  /** The four last distances, the latest first. */
  type ring = r: seq<int> | |r| == 4 witness [4, 11, 15, 16]

  const FIRST_RING: ring := [4, 11, 15, 16]

  const RING_INDEX: seq<nat> := [0, 1, 2, 3, 0, 0, 0, 0, 0, 0, 1, 1, 1, 1, 1, 1]
  const RING_DELTA: seq<int> := [0, 0, 0, 0, -1, 1, -2, 2, -3, 3, -1, 1, -2, 2, -3, 3]

  /** The decoder's reading of a distance code and its extra bits. */
  function ReadDistance(code: int, s: bits, ndirect: nat, npostfix: nat, last: ring): Option<(int, bits)> {
    if code < 0 then None
    else if code < 16 then
      var distance := last[RING_INDEX[code]] + RING_DELTA[code];
      if distance <= 0 then None else Some((distance, s))
    else
      var adjusted := code - 16;
      if adjusted < ndirect then Some((adjusted + 1, s))
      else
        var postfix, bucket := adjusted % Pow2(npostfix), (adjusted - ndirect) / Pow2(npostfix);
        var extra := TakeBits(s, bucket / 2 + 1);
        if extra.None? then None
        else
          var offset := (2 + bucket % 2) * Pow2(bucket / 2 + 1) - 4;
          Some(((offset + extra.value.0) * Pow2(npostfix) + postfix + ndirect + 1, extra.value.1))
  }

  function Push(distance: int, last: ring): (r: ring) {
    if distance == last[0] then last else [distance, last[0], last[1], last[2]]
  }

  datatype DistanceCode = DistanceCode(code: nat, extra: nat, extraBits: nat)

  /** The distance code stands for this distance. */
  predicate StandsFor(d: DistanceCode, distance: nat) {
    && d.code >= 16 && d.extraBits == BucketBits(d.code - 16) && d.extra < Pow2(d.extraBits)
    && distance == BucketBase(d.code - 16) + d.extra
  }

  /** Buckets follow each other without gaps. */
  lemma NextBucket(bucket: nat)
    ensures BucketBase(0) == 1
    ensures BucketBase(bucket + 1) == BucketBase(bucket) + Pow2(BucketBits(bucket))
  {
    var k := bucket / 2 + 1;
    if bucket % 2 == 1 {
      assert Pow2(k + 1) == 2 * Pow2(k) && (bucket + 1) / 2 == k;
    }
  }

  /** The code of a distance in bucket b or behind. */
  function DistanceFrom(distance: nat, b: nat): (d: Option<DistanceCode>)
    requires b <= 48
    decreases 48 - b
  {
    if b == 48 then None
    else if BucketBase(b) <= distance < BucketBase(b) + Pow2(BucketBits(b))
    then Some(DistanceCode(16 + b, distance - BucketBase(b), BucketBits(b)))
    else DistanceFrom(distance, b + 1)
  }

  function DistanceFor(distance: nat): Option<DistanceCode> {
    if distance == 0 then None else DistanceFrom(distance, 0)
  }

  /** The code for a distance, as long as it is below the last bucket's end. */
  method CodeForDistance(distance: nat) returns (d: Option<DistanceCode>)
    ensures d == DistanceFor(distance)
    ensures d.Some? ==> StandsFor(d.value, distance) && d.value.code < 64
    ensures d.None? ==> distance == 0 || distance >= BucketBase(48)
  {
    hide BucketBits, BucketBase, Pow2;
    if distance == 0 { return None; }
    FirstBucket();
    for bucket := 0 to 48
      invariant distance >= BucketBase(bucket) && DistanceFrom(distance, bucket) == DistanceFor(distance)
    {
      NextBucket(bucket);
      var base := BucketBase(bucket);
      var limit := base + Pow2(BucketBits(bucket));
      if distance < base || distance >= limit { continue; }
      return Some(DistanceCode(16 + bucket, distance - base, BucketBits(bucket)));
    }
    return None;
  }

  lemma FirstBucket()
    ensures BucketBase(0) == 1
  {}

  /** A distance reads back, and code 0 is the last distance. */
  lemma DistanceRoundTrip(d: DistanceCode, distance: nat, last: ring, tail: bits)
    requires StandsFor(d, distance)
    ensures ReadDistance(d.code, LsbOf(d.extra, d.extraBits) + tail, 0, 0, last) == Some((distance, tail))
  {
    TakeWritten(d.extra, d.extraBits, tail);
    var bucket := d.code - 16;
    assert bucket % Pow2(0) == 0 && bucket / Pow2(0) == bucket;
  }

  lemma LastDistance(last: ring, s: bits)
    requires last[0] > 0
    ensures ReadDistance(0, s, 0, 0, last) == Some((last[0], s))
  {}
}
