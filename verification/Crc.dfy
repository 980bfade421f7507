/** The MSB-first CRC-32 of bzip2: table lookup, slicing by eight and repeated bytes against plain division.
    A 32-bit register is the string of its bits, most significant first. */
module Crc {
  import opened Bits

  type word = c: bits | |c| == 32 witness Zeros(32)

  function Xor(a: bits, b: bits): (c: bits)
    requires |a| == |b|
    ensures |c| == |a| && forall i :: 0 <= i < |a| ==> c[i] == (a[i] != b[i])
  {
    seq(|a|, i requires 0 <= i < |a| => a[i] != b[i])
  }

  // The generator polynomial 0x04C11DB7.
  const POLYNOMIAL: word := BitsOf(0x04C11DB7, 32)

  // ---------- the reference: polynomial division, one bit at a time ----------

  /** One zero bit: shift left, and subtract the polynomial when a one falls out at the top. */
  function ShiftBit(c: word): word {
    if c[0] then Xor(c[1..] + [false], POLYNOMIAL) else c[1..] + [false]
  }

  function ShiftBits(c: word, n: nat): word
    decreases n, c
  {
    if n == 0 then c else ShiftBits(ShiftBit(c), n - 1)
  }

  /** The register with the byte b at its top. */
  function AtTop(b: bits): word
    requires |b| == 8
  {
    b + Zeros(24)
  }

  /** The register after one more data byte. */
  function Absorb(crc: word, b: byte): word {
    ShiftBits(Xor(crc, AtTop(BitsOf(b, 8))), 8)
  }

  function Fold(crc: word, data: seq<byte>): word
    decreases |data|
  {
    if |data| == 0 then crc else Fold(Absorb(crc, data[0]), data[1..])
  }

  /** The checksum of a block. */
  function Checksum(data: seq<byte>): word {
    Xor(Fold(Ones(32), data), Ones(32))
  }

  /** Joins the checksum of one more block to that of the stream so far. */
  function Combine(combined: word, blockCrc: word): word {
    Xor(combined[1..] + combined[..1], blockCrc)
  }

  lemma {:induction false} FoldConcat(crc: word, a: seq<byte>, b: seq<byte>)
    ensures Fold(crc, a + b) == Fold(Fold(crc, a), b)
    decreases |a|
  {
    if |a| == 0 {
      assert a + b == b;
    } else {
      assert (a + b)[1..] == a[1..] + b;
      FoldConcat(Absorb(crc, a[0]), a[1..], b);
    }
  }

  // ---------- shifting is linear over exclusive or ----------

  lemma ShiftBitLinear(a: word, b: word)
    ensures ShiftBit(Xor(a, b)) == Xor(ShiftBit(a), ShiftBit(b))
  {}

  lemma {:induction false} ShiftLinear(a: word, b: word, n: nat)
    ensures ShiftBits(Xor(a, b), n) == Xor(ShiftBits(a, n), ShiftBits(b, n))
    decreases n
  {
    if n > 0 {
      ShiftBitLinear(a, b);
      ShiftLinear(ShiftBit(a), ShiftBit(b), n - 1);
    }
  }

  lemma {:induction false} ShiftAdd(c: word, m: nat, n: nat)
    ensures ShiftBits(c, m + n) == ShiftBits(ShiftBits(c, m), n)
    decreases m
  {
    if m > 0 { ShiftAdd(ShiftBit(c), m - 1, n); }
  }

  /** Nothing is fed back while the bits that fall out are zero. */
  lemma {:induction false} ShiftLow(n: nat, rest: bits)
    requires n + |rest| == 32
    ensures ShiftBits(Zeros(n) + rest, n) == rest + Zeros(n)
    decreases n
  {
    if n == 0 {
      assert Zeros(0) + rest == rest == rest + Zeros(0);
    } else {
      var c := Zeros(n) + rest;
      assert c[1..] + [false] == Zeros(n - 1) + (rest + [false]);
      ShiftLow(n - 1, rest + [false]);
      assert (rest + [false]) + Zeros(n - 1) == rest + Zeros(n);
    }
  }

  // ---------- the tables ----------

  /** Table n maps a byte to the register n+1 bytes later. */
  function TableEntry(n: nat, b: bits): word
    requires |b| == 8
  {
    ShiftBits(AtTop(b), 8 * n + 8)
  }

  /** One byte through the table is one byte of division. */
  lemma LookupIsDivision(c: word)
    ensures Xor(c[8..] + Zeros(8), TableEntry(0, c[..8])) == ShiftBits(c, 8)
  {
    var low, top := Zeros(8) + c[8..], AtTop(c[..8]);
    assert Xor(low, top) == c;
    ShiftLow(8, c[8..]);
    ShiftLinear(low, top, 8);
  }

  ghost predicate IsTables(t: array2<word>)
    reads t
  {
    && t.Length0 == 8 && t.Length1 == 256
    && forall n, i :: 0 <= n < 8 && 0 <= i < 256 ==> t[n, i] == TableEntry(n, BitsOf(i, 8))
  }

  lemma IndexOfBits(b: bits)
    requires |b| == 8
    ensures ValueOf(b) < 256 && BitsOf(ValueOf(b), 8) == b
  {
    ValueBound(b);
    BitsOfValueOf(b);
    Pow2Values();
  }

  ghost predicate IsRow(t: array2<word>, n: nat, k: nat)
    requires t.Length0 == 8 && t.Length1 == 256 && n < 8 && k <= 256
    reads t
  {
    forall i :: 0 <= i < k ==> t[n, i] == TableEntry(n, BitsOf(i, 8))
  }

  method FirstEntry(i: nat) returns (c: word)
    ensures c == TableEntry(0, BitsOf(i, 8))
  {
    c := AtTop(BitsOf(i, 8));
    for j := 0 to 8
      invariant c == ShiftBits(AtTop(BitsOf(i, 8)), j)
    {
      ShiftAdd(AtTop(BitsOf(i, 8)), j, 1);
      c := if c[0] then Xor(c[1..] + [false], POLYNOMIAL) else c[1..] + [false];
    }
  }

  method NextEntry(t: array2<word>, n: nat, i: nat) returns (c: word)
    requires t.Length0 == 8 && t.Length1 == 256 && 1 <= n < 8 && i < 256
    requires IsRow(t, 0, 256) && IsRow(t, n - 1, 256)
    ensures c == TableEntry(n, BitsOf(i, 8))
  {
    hide ShiftBits, ShiftBit, Xor, BitsOf, ValueOf, AtTop;
    c := t[n - 1, i];
    IndexOfBits(c[..8]);
    LookupIsDivision(c);
    ShiftAdd(AtTop(BitsOf(i, 8)), 8 * n, 8);
    c := Xor(c[8..] + Zeros(8), t[0, ValueOf(c[..8])]);
  }

  method FillRow(t: array2<word>, n: nat)
    requires t.Length0 == 8 && t.Length1 == 256 && 1 <= n < 8
    requires forall m :: 0 <= m < n ==> IsRow(t, m, 256)
    modifies t
    ensures forall m :: 0 <= m <= n ==> IsRow(t, m, 256)
  {
    hide TableEntry, BitsOf;
    for i := 0 to 256
      invariant forall m :: 0 <= m < n ==> IsRow(t, m, 256)
      invariant IsRow(t, n, i)
    {
      var c := NextEntry(t, n, i);
      label before:
      t[n, i] := c;
      forall m | 0 <= m < n ensures IsRow(t, m, 256) {
        assert old@before(IsRow(t, m, 256));
        assert forall k :: 0 <= k < 256 ==> t[m, k] == old@before(t[m, k]);
      }
    }
  }

  method FillRows(t: array2<word>)
    requires t.Length0 == 8 && t.Length1 == 256 && IsRow(t, 0, 256)
    modifies t
    ensures forall m :: 0 <= m < 8 ==> IsRow(t, m, 256)
  {
    for n := 1 to 8
      invariant forall m :: 0 <= m < n ==> IsRow(t, m, 256)
    {
      FillRow(t, n);
    }
  }

  method MakeTables() returns (t: array2<word>)
    ensures fresh(t) && IsTables(t)
  {
    hide TableEntry, BitsOf;
    t := new word[8, 256];
    for i := 0 to 256
      invariant IsRow(t, 0, i)
    {
      var c := FirstEntry(i);
      t[0, i] := c;
    }
    FillRows(t);
    forall n, i | 0 <= n < 8 && 0 <= i < 256 ensures t[n, i] == TableEntry(n, BitsOf(i, 8)) {
      assert IsRow(t, n, 256);
    }
  }

  // ---------- one byte ----------

  method Update(t: array2<word>, crc: word, b: byte) returns (r: word)
    requires IsTables(t)
    ensures r == Absorb(crc, b)
  {
    var idx := Xor(crc[..8], BitsOf(b, 8));
    IndexOfBits(idx);
    r := Xor(crc[8..] + Zeros(8), t[0, ValueOf(idx)]);
    AbsorbByLookup(crc, BitsOf(b, 8));
  }

  lemma AbsorbByLookup(crc: word, b: bits)
    requires |b| == 8
    ensures Xor(crc[8..] + Zeros(8), TableEntry(0, Xor(crc[..8], b))) == ShiftBits(Xor(crc, AtTop(b)), 8)
  {
    var c := Xor(crc, AtTop(b));
    assert c[8..] == crc[8..] && c[..8] == Xor(crc[..8], b);
    LookupIsDivision(c);
  }

  // ---------- eight bytes at once ----------

  function AbsorbBits(crc: word, b: bits): word
    requires |b| == 8
  {
    ShiftBits(Xor(crc, AtTop(b)), 8)
  }

  /** The register with byte k (from the top) equal to b and all others zero. */
  function AtByte(b: bits, k: nat): word
    requires |b| == 8 && k < 4
  {
    Zeros(8 * k) + b + Zeros(24 - 8 * k)
  }

  /** A byte k places down comes to the top after k bytes. */
  lemma AtByteShifts(b: bits, k: nat)
    requires |b| == 8 && k < 4
    ensures ShiftBits(AtByte(b, k), 8 * k) == AtTop(b)
  {
    assert AtByte(b, k) == Zeros(8 * k) + (b + Zeros(24 - 8 * k));
    ShiftLow(8 * k, b + Zeros(24 - 8 * k));
    assert (b + Zeros(24 - 8 * k)) + Zeros(8 * k) == AtTop(b);
  }

  /** Absorbing a byte after m others is adding it below them first. */
  lemma AbsorbLater(c: word, b: bits, k: nat)
    requires |b| == 8 && k < 4
    ensures AbsorbBits(ShiftBits(c, 8 * k), b) == ShiftBits(Xor(c, AtByte(b, k)), 8 * k + 8)
  {
    AtByteShifts(b, k);
    ShiftLinear(c, AtByte(b, k), 8 * k);
    ShiftAdd(Xor(c, AtByte(b, k)), 8 * k, 8);
  }

  /** The first four bytes of a slice meet the register. */
  lemma FourBytes(c: word, b0: bits, b1: bits, b2: bits, b3: bits)
    requires |b0| == |b1| == |b2| == |b3| == 8
    ensures AbsorbBits(AbsorbBits(AbsorbBits(AbsorbBits(c, b0), b1), b2), b3)
         == ShiftBits(Xor(c, b0 + b1 + b2 + b3), 32)
  {
    var x0 := Xor(c, AtByte(b0, 0));
    assert AtByte(b0, 0) == AtTop(b0);
    var x1 := Xor(x0, AtByte(b1, 1));
    var x2 := Xor(x1, AtByte(b2, 2));
    assert Xor(x2, AtByte(b3, 3)) == Xor(c, b0 + b1 + b2 + b3);
    assert AbsorbBits(c, b0) == ShiftBits(x0, 8);
    hide *;
    AbsorbLater(x0, b1, 1);
    AbsorbLater(x1, b2, 2);
    AbsorbLater(x2, b3, 3);
  }

  /** A register falls apart into its four bytes. */
  lemma ShiftByBytes(x: word, n: nat)
    ensures ShiftBits(x, 8 * n + 32)
         == Xor(Xor(Xor(TableEntry(n + 3, x[..8]), TableEntry(n + 2, x[8..16])),
                    TableEntry(n + 1, x[16..24])), TableEntry(n, x[24..]))
  {
    hide *;
    var a0, a1, a2, a3 := AtByte(x[..8], 0), AtByte(x[8..16], 1), AtByte(x[16..24], 2), AtByte(x[24..], 3);
    FourByteSum(x);
    var m := 8 * n + 32;
    ShiftLinear(Xor(Xor(a0, a1), a2), a3, m);
    ShiftLinear(Xor(a0, a1), a2, m);
    ShiftLinear(a0, a1, m);
    AtByteEntry(x[..8], 0, n);
    AtByteEntry(x[8..16], 1, n);
    AtByteEntry(x[16..24], 2, n);
    AtByteEntry(x[24..], 3, n);
  }

  lemma FourByteSum(x: word)
    ensures x == Xor(Xor(Xor(AtByte(x[..8], 0), AtByte(x[8..16], 1)), AtByte(x[16..24], 2)), AtByte(x[24..], 3))
  {}

  lemma AtByteEntry(b: bits, k: nat, n: nat)
    requires |b| == 8 && k < 4
    ensures ShiftBits(AtByte(b, k), 8 * n + 32) == TableEntry(n + 3 - k, b)
  {
    AtByteShifts(b, k);
    ShiftAdd(AtByte(b, k), 8 * k, 8 * (n + 3 - k) + 8);
  }

  lemma AbsorbEntry(c: word, b: bits)
    requires |b| == 8
    ensures AbsorbBits(c, b) == Xor(ShiftBits(c, 8), TableEntry(0, b))
  {
    ShiftLinear(c, AtTop(b), 8);
  }

  lemma EntryMoves(b: bits, n: nat)
    requires |b| == 8
    ensures ShiftBits(TableEntry(n, b), 8) == TableEntry(n + 1, b)
  {
    ShiftAdd(AtTop(b), 8 * n + 8, 8);
  }

  lemma AbsorbSum(c: word, e: word, b: bits)
    requires |b| == 8
    ensures AbsorbBits(Xor(c, e), b) == Xor(Xor(ShiftBits(c, 8), ShiftBits(e, 8)), TableEntry(0, b))
  {
    AbsorbEntry(Xor(c, e), b);
    ShiftLinear(c, e, 8);
  }

  lemma TwoMoreBytes(c: word, b4: bits, b5: bits)
    requires |b4| == |b5| == 8
    ensures AbsorbBits(AbsorbBits(c, b4), b5)
         == Xor(Xor(ShiftBits(c, 16), TableEntry(1, b4)), TableEntry(0, b5))
  {
    AbsorbEntry(c, b4);
    AbsorbSum(ShiftBits(c, 8), TableEntry(0, b4), b5);
    EntryMoves(b4, 0);
    ShiftAdd(c, 8, 8);
  }

  lemma EntryMovesTwice(b: bits, n: nat)
    requires |b| == 8
    ensures ShiftBits(TableEntry(n, b), 16) == TableEntry(n + 2, b)
  {
    ShiftAdd(AtTop(b), 8 * n + 8, 16);
  }

  /** The last four bytes of a slice only meet table entries. */
  lemma FourMoreBytes(c: word, b4: bits, b5: bits, b6: bits, b7: bits)
    requires |b4| == |b5| == |b6| == |b7| == 8
    ensures AbsorbBits(AbsorbBits(AbsorbBits(AbsorbBits(c, b4), b5), b6), b7)
         == Xor(Xor(Xor(Xor(ShiftBits(c, 32), TableEntry(3, b4)), TableEntry(2, b5)), TableEntry(1, b6)),
                TableEntry(0, b7))
  {
    TwoMoreBytes(c, b4, b5);
    var a := Xor(ShiftBits(c, 16), TableEntry(1, b4));
    var e := TableEntry(0, b5);
    TwoMoreBytes(Xor(a, e), b6, b7);
    ShiftLinear(a, e, 16);
    ShiftLinear(ShiftBits(c, 16), TableEntry(1, b4), 16);
    ShiftAdd(c, 16, 16);
    EntryMovesTwice(b4, 1);
    EntryMovesTwice(b5, 0);
  }

  /** The eight lookups of one slice. */
  function Slice(x: word, b4: bits, b5: bits, b6: bits, b7: bits): word
    requires |b4| == |b5| == |b6| == |b7| == 8
  {
    Xor(Xor(Xor(Xor(Xor(Xor(Xor(TableEntry(7, x[..8]), TableEntry(6, x[8..16])), TableEntry(5, x[16..24])),
        TableEntry(4, x[24..])), TableEntry(3, b4)), TableEntry(2, b5)), TableEntry(1, b6)), TableEntry(0, b7))
  }

  lemma SliceIsEightAbsorbs(c: word, b0: bits, b1: bits, b2: bits, b3: bits, b4: bits, b5: bits, b6: bits, b7: bits)
    requires |b0| == |b1| == |b2| == |b3| == |b4| == |b5| == |b6| == |b7| == 8
    ensures Slice(Xor(c, b0 + b1 + b2 + b3), b4, b5, b6, b7)
         == AbsorbBits(AbsorbBits(AbsorbBits(AbsorbBits(AbsorbBits(AbsorbBits(AbsorbBits(AbsorbBits(
              c, b0), b1), b2), b3), b4), b5), b6), b7)
  {
    var x := Xor(c, b0 + b1 + b2 + b3);
    FourBytes(c, b0, b1, b2, b3);
    FourMoreBytes(ShiftBits(x, 32), b4, b5, b6, b7);
    ShiftAdd(x, 32, 32);
    ShiftByBytes(x, 4);
  }

  /** The bytes of a slice that meet the register. */
  function Leading(d: seq<byte>): word
    requires |d| == 8
  {
    BitsOf(d[0], 8) + BitsOf(d[1], 8) + BitsOf(d[2], 8) + BitsOf(d[3], 8)
  }

  lemma FoldEight(crc: word, d: seq<byte>)
    requires |d| == 8
    ensures Fold(Fold(crc, [d[0], d[1], d[2], d[3]]), [d[4], d[5], d[6], d[7]]) == Fold(crc, d)
  {
    FoldConcat(crc, [d[0], d[1], d[2], d[3]], [d[4], d[5], d[6], d[7]]);
    assert d == [d[0], d[1], d[2], d[3]] + [d[4], d[5], d[6], d[7]];
  }

  /** Eight lookups in eight tables are eight bytes of division. */
  lemma SliceIsEightBytes(crc: word, d: seq<byte>)
    requires |d| == 8
    ensures Slice(Xor(crc, Leading(d)), BitsOf(d[4], 8), BitsOf(d[5], 8), BitsOf(d[6], 8), BitsOf(d[7], 8))
         == Fold(crc, d)
  {
    SliceIsEightAbsorbs(crc, BitsOf(d[0], 8), BitsOf(d[1], 8), BitsOf(d[2], 8), BitsOf(d[3], 8),
                        BitsOf(d[4], 8), BitsOf(d[5], 8), BitsOf(d[6], 8), BitsOf(d[7], 8));
    FoldFour(crc, d[0], d[1], d[2], d[3]);
    FoldFour(Fold(crc, [d[0], d[1], d[2], d[3]]), d[4], d[5], d[6], d[7]);
    FoldEight(crc, d);
  }

  lemma FoldFour(crc: word, a: byte, b: byte, c: byte, d: byte)
    ensures Fold(crc, [a, b, c, d])
         == AbsorbBits(AbsorbBits(AbsorbBits(AbsorbBits(crc, BitsOf(a, 8)), BitsOf(b, 8)), BitsOf(c, 8)), BitsOf(d, 8))
  {
    assert [a, b, c, d][1..] == [b, c, d] && [b, c, d][1..] == [c, d] && [c, d][1..] == [d] && [d][1..] == [];
    var r1 := Absorb(crc, a);
    var r2 := Absorb(r1, b);
    assert Fold(crc, [a, b, c, d]) == Fold(r1, [b, c, d]) == Fold(r2, [c, d]);
    assert Fold(r2, [c, d]) == Fold(Absorb(r2, c), [d]) == Fold(Absorb(Absorb(r2, c), d), []);
  }

  method LookUp(t: array2<word>, n: nat, b: bits) returns (e: word)
    requires IsTables(t) && n < 8 && |b| == 8
    ensures e == TableEntry(n, b)
  {
    IndexOfBits(b);
    e := t[n, ValueOf(b)];
  }

  method UpdateEight(t: array2<word>, crc: word, d: seq<byte>) returns (r: word)
    requires IsTables(t) && |d| == 8
    ensures r == Fold(crc, d)
  {
    var x := Xor(crc, Leading(d));
    var e7 := LookUp(t, 7, x[..8]);
    var e6 := LookUp(t, 6, x[8..16]);
    var e5 := LookUp(t, 5, x[16..24]);
    var e4 := LookUp(t, 4, x[24..]);
    var e3 := LookUp(t, 3, BitsOf(d[4], 8));
    var e2 := LookUp(t, 2, BitsOf(d[5], 8));
    var e1 := LookUp(t, 1, BitsOf(d[6], 8));
    var e0 := LookUp(t, 0, BitsOf(d[7], 8));
    r := Xor(Xor(Xor(Xor(Xor(Xor(Xor(e7, e6), e5), e4), e3), e2), e1), e0);
    SliceIsEightBytes(crc, d);
  }

  method UpdateBytes(t: array2<word>, start: word, data: seq<byte>) returns (crc: word)
    requires IsTables(t)
    ensures crc == Fold(start, data)
  {
    crc := start;
    var i := 0;
    while |data| - i >= 8
      invariant 0 <= i <= |data|
      invariant crc == Fold(start, data[..i])
    {
      FoldConcat(start, data[..i], data[i..i + 8]);
      assert data[..i] + data[i..i + 8] == data[..i + 8];
      crc := UpdateEight(t, crc, data[i..i + 8]);
      i := i + 8;
    }
    while i < |data|
      invariant 0 <= i <= |data|
      invariant crc == Fold(start, data[..i])
    {
      FoldOneMore(start, data, i);
      crc := Update(t, crc, data[i]);
      i := i + 1;
    }
    assert data[..i] == data;
  }

  lemma FoldOneMore(start: word, data: seq<byte>, i: nat)
    requires i < |data|
    ensures Fold(start, data[..i + 1]) == Absorb(Fold(start, data[..i]), data[i])
  {
    FoldConcat(start, data[..i], [data[i]]);
    assert data[..i] + [data[i]] == data[..i + 1];
    var r := Fold(start, data[..i]);
    assert Fold(r, [data[i]]) == Fold(Absorb(r, data[i]), []);
  }

  /** Absorbs len equal bytes from a chunk of 64 of them. */
  method UpdateRepeat(t: array2<word>, start: word, b: byte, len: nat) returns (crc: word)
    requires IsTables(t)
    ensures crc == Fold(start, Repeat(b, len))
  {
    var chunk := Repeat(b, 64);
    crc := start;
    var left := len;
    while left >= 64
      invariant 0 <= left <= len
      invariant crc == Fold(start, Repeat(b, len - left))
    {
      FoldConcat(start, Repeat(b, len - left), chunk);
      assert Repeat(b, len - left) + chunk == Repeat(b, len - left + 64);
      crc := UpdateBytes(t, crc, chunk);
      left := left - 64;
    }
    if left > 0 {
      FoldConcat(start, Repeat(b, len - left), chunk[..left]);
      assert Repeat(b, len - left) + chunk[..left] == Repeat(b, len);
      crc := UpdateBytes(t, crc, chunk[..left]);
    }
  }

  method BlockChecksum(t: array2<word>, data: seq<byte>) returns (crc: word)
    requires IsTables(t)
    ensures crc == Checksum(data)
  {
    crc := UpdateBytes(t, Ones(32), data);
    crc := Xor(crc, Ones(32));
  }
}
