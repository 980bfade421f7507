/** The checksum evaluated on machine words, for the check value of bzip2's CRC-32. */
module CrcWords {
  import opened Bits
  import opened Crc

  function Half(w: bv32): bv32 { w >> 1 }

  function Twice(w: bv32): bv32 { w << 1 }

  predicate Odd(w: bv32) { w & 1 == 1 }

  predicate High(w: bv32) { w & 0x8000_0000 != 0 }

  function Both(w: bv32, v: bv32): bv32 { w ^ v }

  /** The low n bits of a machine word. */
  function FromWord(w: bv32, n: nat): (b: bits)
    ensures |b| == n
    decreases n, w
  {
    if n == 0 then [] else FromWord(Half(w), n - 1) + [Odd(w)]
  }

  // ---------- exclusive or ----------

  lemma {:induction false} WordXor(w: bv32, v: bv32, n: nat)
    ensures FromWord(Both(w, v), n) == Xor(FromWord(w, n), FromWord(v, n))
    decreases n
  {
    hide Half, Odd, Both, Xor;
    if n > 0 {
      WordXor(Half(w), Half(v), n - 1);
      XorParts(w, v);
      XorAppend(FromWord(Half(w), n - 1), FromWord(Half(v), n - 1), Odd(w), Odd(v));
    } else {
      XorNone();
    }
  }

  lemma XorParts(w: bv32, v: bv32)
    ensures Half(Both(w, v)) == Both(Half(w), Half(v)) && (Odd(Both(w, v)) <==> Odd(w) != Odd(v))
  {}

  lemma XorNone()
    ensures Xor([], []) == []
  {}

  lemma XorAppend(a: bits, b: bits, p: bool, q: bool)
    requires |a| == |b|
    ensures Xor(a + [p], b + [q]) == Xor(a, b) + [p != q]
  {}

  // ---------- shifting ----------

  /** A mask of the n low bits. */
  function Low(n: nat): bv32
    decreases n
  {
    if n == 0 then 0 else Widen(Low(n - 1))
  }

  function Widen(x: bv32): bv32 { (x << 1) | 1 }

  predicate Within(x: bv32, y: bv32) { x & y == x }

  lemma WidenWithin(x: bv32, y: bv32)
    requires Within(x, y)
    ensures Within(Widen(x), Widen(y))
  {}

  lemma {:induction false} LowGrows(n: nat)
    ensures Within(Low(n), Low(n + 1))
    decreases n
  {
    if n > 0 {
      hide Within, Widen;
      LowGrows(n - 1);
      WidenWithin(Low(n - 1), Low(n));
    }
  }

  lemma LowMost()
    ensures Low(31) == 0x7FFF_FFFF
  {
    assert Low(8) == 0xFF;
    assert Low(16) == 0xFFFF;
    assert Low(24) == 0xFF_FFFF;
  }

  lemma HighWithin(x: bv32, y: bv32)
    requires Within(x, y) && !High(y)
    ensures !High(x)
  {}

  lemma {:induction false} LowBelow(n: nat)
    requires n <= 31
    ensures !High(Low(n))
    decreases 31 - n
  {
    hide Within, Widen, High, Low;
    if n == 31 {
      LowMost();
      NotHigh();
    } else {
      LowBelow(n + 1);
      LowGrows(n);
      HighWithin(Low(n), Low(n + 1));
    }
  }

  lemma NotHigh()
    ensures !High(0x7FFF_FFFF)
  {}

  /** The words agree under the mask. */
  predicate Agree(w: bv32, v: bv32, mask: bv32) { (w ^ v) & mask == 0 }

  lemma AgreeHalf(w: bv32, v: bv32, mask: bv32)
    requires !High(mask) && Agree(w, v, Widen(mask))
    ensures Agree(Half(w), Half(v), mask) && (Odd(w) <==> Odd(v))
  {}

  /** Only the low bits count. */
  lemma {:induction false} OnlyLow(w: bv32, v: bv32, n: nat)
    requires n <= 31 && Agree(w, v, Low(n))
    ensures FromWord(w, n) == FromWord(v, n)
    decreases n
  {
    hide Agree, Half, Odd, Widen, High;
    if n > 0 {
      LowBelow(n - 1);
      AgreeHalf(w, v, Low(n - 1));
      OnlyLow(Half(w), Half(v), n - 1);
    }
  }

  lemma TwiceAgrees(w: bv32)
    ensures Agree(Half(Twice(w)), w, 0x7FFF_FFFF) && !Odd(Twice(w))
  {}

  /** The highest of n bits can be left out. */
  lemma {:induction false} WithoutTop(w: bv32, n: nat)
    ensures FromWord(w, n + 1)[1..] == FromWord(w, n)
    decreases n
  {
    hide Half, Odd;
    if n > 0 { WithoutTop(Half(w), n - 1); }
  }

  /** Shifting a word shifts its bits. */
  lemma ShiftLeft(w: bv32)
    ensures FromWord(Twice(w), 32) == FromWord(w, 32)[1..] + [false]
  {
    hide Half, Odd, Twice, Agree, Low;
    TwiceAgrees(w);
    LowMost();
    OnlyLow(Half(Twice(w)), w, 31);
    WithoutTop(w, 31);
  }

  function Halves(w: bv32, n: nat): bv32
    decreases n
  {
    if n == 0 then w else Halves(Half(w), n - 1)
  }

  lemma {:induction false} FirstBit(w: bv32, n: nat)
    ensures FromWord(w, n + 1)[0] == Odd(Halves(w, n))
    decreases n
  {
    hide Half, Odd;
    if n > 0 {
      FirstBit(Half(w), n - 1);
    } else {
      assert FromWord(Half(w), 0) == [];
    }
  }

  lemma TopBit(w: bv32)
    ensures FromWord(w, 32)[0] <==> High(w)
  {
    FirstBit(w, 31);
    TopOf(w);
  }

  function Eighth(w: bv32): bv32 { Half(Half(Half(Half(Half(Half(Half(Half(w)))))))) }

  lemma EightHalves(w: bv32, n: nat)
    ensures Halves(w, n + 8) == Halves(Eighth(w), n)
  {
    hide Half;
    var w4 := Half(Half(Half(Half(w))));
    assert Halves(w, n + 8) == Halves(Half(Half(w)), n + 6);
    assert Halves(Half(Half(w)), n + 6) == Halves(w4, n + 4);
    assert Halves(w4, n + 4) == Halves(Half(Half(w4)), n + 2);
    assert Halves(Half(Half(w4)), n + 2) == Halves(Half(Half(Half(Half(w4)))), n);
  }

  lemma TopOf(w: bv32)
    ensures Odd(Halves(w, 31)) <==> High(w)
  {
    hide *;
    EightHalves(w, 23);
    EightHalves(Eighth(w), 15);
    EightHalves(Eighth(Eighth(w)), 7);
    SevenHalves(Eighth(Eighth(Eighth(w))));
    LastHalf(w);
  }

  lemma SevenHalves(w: bv32)
    ensures Halves(w, 7) == Half(Half(Half(Half(Half(Half(Half(w)))))))
  {
    hide Half;
    var w4 := Half(Half(Half(Half(w))));
    assert Halves(w, 7) == Halves(Half(Half(w)), 5);
    assert Halves(Half(Half(w)), 5) == Halves(w4, 3);
    assert Halves(w4, 3) == Halves(Half(Half(w4)), 1);
  }

  lemma LastHalf(w: bv32)
    ensures Odd(Half(Half(Half(Half(Half(Half(Half(Eighth(Eighth(Eighth(w))))))))))) <==> High(w)
  {}

  // ---------- numbers ----------

  /** Number and word have the same low n bits. */
  predicate Alike(v: nat, w: bv32, n: nat)
    decreases n
  {
    n == 0 || ((v % 2 == 1 <==> Odd(w)) && Alike(v / 2, Half(w), n - 1))
  }

  lemma {:induction false} AlikeBits(v: nat, w: bv32, n: nat)
    requires Alike(v, w, n)
    ensures BitsOf(v, n) == FromWord(w, n)
    decreases n
  {
    hide Half, Odd;
    if n > 0 { AlikeBits(v / 2, Half(w), n - 1); }
  }

  /** Number and word have the same eight low bits. */
  predicate SameByte(v: nat, w: bv32) {
    && (v % 2 == 1 <==> Odd(w)) && (v / 2 % 2 == 1 <==> Odd(Half(w)))
    && (v / 4 % 2 == 1 <==> Odd(Half(Half(w)))) && (v / 8 % 2 == 1 <==> Odd(Half(Half(Half(w)))))
    && (v / 16 % 2 == 1 <==> Odd(Half(Half(Half(Half(w))))))
    && (v / 32 % 2 == 1 <==> Odd(Half(Half(Half(Half(Half(w)))))))
    && (v / 64 % 2 == 1 <==> Odd(Half(Half(Half(Half(Half(Half(w))))))))
    && (v / 128 % 2 == 1 <==> Odd(Half(Half(Half(Half(Half(Half(Half(w)))))))))
  }

  lemma AlikeOne(v: nat, w: bv32, n: nat)
    requires (v % 2 == 1 <==> Odd(w)) && Alike(v / 2, Half(w), n)
    ensures Alike(v, w, n + 1)
  {}

  lemma SameBits(v: nat, w: bv32)
    requires SameByte(v, w)
    ensures (v % 2 == 1 <==> Odd(w)) && (v / 2 % 2 == 1 <==> Odd(Half(w)))
    ensures (v / 4 % 2 == 1 <==> Odd(Half(Half(w)))) && (v / 8 % 2 == 1 <==> Odd(Half(Half(Half(w)))))
    ensures v / 16 % 2 == 1 <==> Odd(Half(Half(Half(Half(w)))))
    ensures v / 32 % 2 == 1 <==> Odd(Half(Half(Half(Half(Half(w))))))
    ensures v / 64 % 2 == 1 <==> Odd(Half(Half(Half(Half(Half(Half(w)))))))
    ensures v / 128 % 2 == 1 <==> Odd(Half(Half(Half(Half(Half(Half(Half(w))))))))
    ensures v / 2 / 2 == v / 4 && v / 4 / 2 == v / 8 && v / 8 / 2 == v / 16 && v / 16 / 2 == v / 32
    ensures v / 32 / 2 == v / 64 && v / 64 / 2 == v / 128 && v / 128 / 2 == v / 256
  {
    hide Half, Odd;
  }

  lemma EighthIs(w: bv32)
    ensures Eighth(w) == Half(Half(Half(Half(Half(Half(Half(Half(w))))))))
  {
    hide Half;
  }

  lemma AlikeByte(v: nat, w: bv32, n: nat)
    requires SameByte(v, w) && Alike(v / 256, Eighth(w), n)
    ensures Alike(v, w, n + 8)
  {
    hide *;
    SameBits(v, w);
    EighthIs(w);
    var w1 := Half(w);
    var w2 := Half(w1);
    var w3 := Half(w2);
    var w4 := Half(w3);
    var w5 := Half(w4);
    var w6 := Half(w5);
    var w7 := Half(w6);
    AlikeOne(v / 128, w7, n);
    AlikeOne(v / 64, w6, n + 1);
    AlikeOne(v / 32, w5, n + 2);
    AlikeOne(v / 16, w4, n + 3);
    AlikeOne(v / 8, w3, n + 4);
    AlikeOne(v / 4, w2, n + 5);
    AlikeOne(v / 2, w1, n + 6);
    AlikeOne(v, w, n + 7);
  }

  lemma AlikeNone(v: nat, w: bv32)
    ensures Alike(v, w, 0)
  {}

  lemma PolynomialWord()
    ensures POLYNOMIAL == FromWord(0x04C1_1DB7, 32)
  {
    hide BitsOf, FromWord, Alike;
    AlikeNone(0, 0);
    AlikeByte(0x04, 0x04, 0);
    AlikeByte(0x04C1, 0x04C1, 8);
    AlikeByte(0x04C1_1D, 0x04C1_1D, 16);
    AlikeByte(0x04C1_1DB7, 0x04C1_1DB7, 24);
    AlikeBits(0x04C1_1DB7, 0x04C1_1DB7, 32);
  }

  // ---------- one step of the division ----------

  /** Shift left, and subtract the polynomial when a one falls out at the top. */
  function ShiftWord(w: bv32): bv32 {
    if High(w) then Both(Twice(w), 0x04C1_1DB7) else Twice(w)
  }

  lemma ShiftIs(w: bv32)
    ensures ShiftBit(FromWord(w, 32)) == FromWord(ShiftWord(w), 32)
  {
    hide FromWord, Xor, High, Both, Twice, POLYNOMIAL;
    TopBit(w);
    ShiftLeft(w);
    WordXor(Twice(w), 0x04C1_1DB7, 32);
    PolynomialWord();
  }

  function ShiftEight(w: bv32): bv32 {
    ShiftWord(ShiftWord(ShiftWord(ShiftWord(ShiftWord(ShiftWord(ShiftWord(ShiftWord(w))))))))
  }

  lemma OneShift(c: word, n: nat)
    requires n > 0
    ensures ShiftBits(c, n) == ShiftBits(ShiftBit(c), n - 1) && ShiftBits(c, 0) == c
  {}

  lemma EightShifts(w: bv32)
    ensures ShiftBits(FromWord(w, 32), 8) == FromWord(ShiftEight(w), 32)
  {
    hide FromWord, ShiftBit, ShiftBits, ShiftWord;
    var w1 := ShiftWord(w);
    var w2 := ShiftWord(w1);
    var w3 := ShiftWord(w2);
    var w4 := ShiftWord(w3);
    var w5 := ShiftWord(w4);
    var w6 := ShiftWord(w5);
    var w7 := ShiftWord(w6);
    ShiftIs(w); ShiftIs(w1); ShiftIs(w2); ShiftIs(w3); ShiftIs(w4); ShiftIs(w5); ShiftIs(w6); ShiftIs(w7);
    OneShift(FromWord(w, 32), 8);
    OneShift(FromWord(w1, 32), 7);
    OneShift(FromWord(w2, 32), 6);
    OneShift(FromWord(w3, 32), 5);
    OneShift(FromWord(w4, 32), 4);
    OneShift(FromWord(w5, 32), 3);
    OneShift(FromWord(w6, 32), 2);
    OneShift(FromWord(w7, 32), 1);
    OneShift(FromWord(ShiftWord(w7), 32), 1);
  }

  /** The register after one more byte, which stands at the top of the word. */
  lemma AbsorbIs(w: bv32, b: byte, top: bv32)
    requires AtTop(BitsOf(b, 8)) == FromWord(top, 32)
    ensures Absorb(FromWord(w, 32), b) == FromWord(ShiftEight(Both(w, top)), 32)
  {
    hide FromWord, ShiftBits, ShiftEight, Xor, AtTop, BitsOf, Both;
    WordXor(w, top, 32);
    EightShifts(Both(w, top));
  }

  // ---------- the check value ----------

  /** The four bytes of number and word agree. */
  predicate SameWord(v: nat, w: bv32) {
    && SameByte(v, w) && SameByte(v / 0x100, Eighth(w)) && SameByte(v / 0x1_0000, Eighth(Eighth(w)))
    && SameByte(v / 0x100_0000, Eighth(Eighth(Eighth(w))))
  }

  lemma {:induction false} ZeroWord(n: nat)
    ensures FromWord(0, n) == Zeros(n)
    decreases n
  {
    if n > 0 {
      ZeroWord(n - 1);
      assert Half(0) == 0 && !Odd(0);
    }
  }

  /** The k low bits come last. */
  lemma {:induction false} LowLast(w: bv32, n: nat, k: nat)
    ensures FromWord(w, n + k) == FromWord(Halves(w, k), n) + FromWord(w, k)
    decreases k
  {
    hide *;
    LastBit(w, k);
    LastBit(w, n + k);
    if k > 0 {
      LowLast(Half(w), n, k - 1);
      Assoc(FromWord(Halves(w, k), n), FromWord(Half(w), k - 1), [Odd(w)]);
    } else {
      assert FromWord(w, n) + [] == FromWord(w, n);
    }
  }

  lemma LastBit(w: bv32, n: nat)
    ensures n > 0 ==> FromWord(w, n) == FromWord(Half(w), n - 1) + [Odd(w)] && Halves(w, n) == Halves(Half(w), n - 1)
    ensures FromWord(w, 0) == [] && Halves(w, 0) == w
  {
    hide Half, Odd;
  }

  lemma ByteBits(b: byte, w: bv32)
    requires SameByte(b, w)
    ensures BitsOf(b, 8) == FromWord(w, 8)
  {
    hide *;
    AlikeNone(b / 256, Eighth(w));
    AlikeByte(b, w, 0);
    AlikeBits(b, w, 8);
  }

  lemma LowThree(w: bv32)
    requires Agree(w, 0, 0xFF_FFFF)
    ensures FromWord(w, 24) == Zeros(24)
  {
    hide FromWord, Agree;
    assert Low(8) == 0xFF;
    assert Low(16) == 0xFFFF;
    assert Low(24) == 0xFF_FFFF;
    OnlyLow(w, 0, 24);
    ZeroWord(24);
  }

  /** A byte at the top of a register. */
  lemma TopByte(b: byte, top: bv32)
    requires SameByte(b, Eighth(Eighth(Eighth(top)))) && Agree(top, 0, 0xFF_FFFF)
    ensures AtTop(BitsOf(b, 8)) == FromWord(top, 32)
  {
    hide BitsOf, FromWord, Eighth, Agree, Halves, SameByte;
    LowLast(top, 8, 24);
    EightHalves(top, 16);
    EightHalves(Eighth(top), 8);
    EightHalves(Eighth(Eighth(top)), 0);
    NoHalves(Eighth(Eighth(Eighth(top))));
    ByteBits(b, Eighth(Eighth(Eighth(top))));
    LowThree(top);
  }

  lemma NoHalves(w: bv32)
    ensures Halves(w, 0) == w
  {}

  /** A mask of n ones. */
  lemma {:induction false} LowOnes(n: nat)
    requires n <= 32
    ensures FromWord(Low(n), n) == Ones(n)
    decreases n
  {
    hide Half, Odd, Widen, High;
    if n > 0 {
      LowOnes(n - 1);
      LowBelow(n - 1);
      WidenHalf(Low(n - 1));
    }
  }

  lemma WidenHalf(x: bv32)
    requires !High(x)
    ensures Half(Widen(x)) == x && Odd(Widen(x))
  {}

  lemma StartWord()
    ensures Ones(32) == FromWord(0xFFFF_FFFF, 32)
  {
    hide FromWord;
    LowMost();
    LowOnes(32);
    assert Low(32) == Widen(Low(31));
  }


  /** The first byte takes the register to the next word. */
  lemma Next(w: bv32, b: byte, top: bv32, next: bv32, rest: seq<byte>)
    requires SameByte(b, Eighth(Eighth(Eighth(top)))) && Agree(top, 0, 0xFF_FFFF)
    requires next == ShiftEight(Both(w, top))
    ensures Fold(FromWord(w, 32), [b] + rest) == Fold(FromWord(next, 32), rest)
  {
    hide FromWord, Absorb, SameByte, Eighth, Agree, ShiftEight, Both, AtTop, BitsOf;
    TopByte(b, top);
    AbsorbIs(w, b, top);
    assert ([b] + rest)[1..] == rest;
  }

  lemma NoMoreBytes(c: word)
    ensures Fold(c, []) == c
  {}

  /** The register after the first four of the nine bytes, after two more, and at the end. */
  lemma FirstFour(rest: seq<byte>)
    ensures Fold(FromWord(0xFFFF_FFFF, 32), [0x31] + ([0x32] + ([0x33] + ([0x34] + rest))))
         == Fold(FromWord(0xA695_C4AA, 32), rest)
  {
    hide FromWord, Fold;
    Next(0xFFFF_FFFF, 0x31, 0x3100_0000, 0x9EFB_CF93, [0x32] + ([0x33] + ([0x34] + rest)));
    Next(0x9EFB_CF93, 0x32, 0x3200_0000, 0x3FEC_5E6A, [0x33] + ([0x34] + rest));
    Next(0x3FEC_5E6A, 0x33, 0x3300_0000, 0xD952_F164, [0x34] + rest);
    Next(0xD952_F164, 0x34, 0x3400_0000, 0xA695_C4AA, rest);
  }

  lemma NextTwo(rest: seq<byte>)
    ensures Fold(FromWord(0xA695_C4AA, 32), [0x35] + ([0x36] + rest)) == Fold(FromWord(0xD8F0_6C8F, 32), rest)
  {
    hide FromWord, Fold;
    Next(0xA695_C4AA, 0x35, 0x3500_0000, 0xBD9A_B747, [0x36] + rest);
    Next(0xBD9A_B747, 0x36, 0x3600_0000, 0xD8F0_6C8F, rest);
  }

  lemma LastThree()
    ensures Fold(FromWord(0xD8F0_6C8F, 32), [0x37] + ([0x38] + ([0x39] + []))) == FromWord(0x0376_E6E7, 32)
  {
    hide FromWord, Fold;
    Next(0xD8F0_6C8F, 0x37, 0x3700_0000, 0x0D8A_14C4, [0x38] + ([0x39] + []));
    Next(0x0D8A_14C4, 0x38, 0x3800_0000, 0x49E3_C2FB, [0x39] + []);
    Next(0x49E3_C2FB, 0x39, 0x3900_0000, 0x0376_E6E7, []);
    NoMoreBytes(FromWord(0x0376_E6E7, 32));
  }

  /** The number's bits: the complement of the last register. */
  lemma CheckNumber()
    ensures BitsOf(0xFC89_1918, 32) == FromWord(0xFC89_1918, 32)
  {
    hide BitsOf, FromWord, Alike;
    AlikeNone(0, 0);
    AlikeByte(0xFC, 0xFC, 0);
    AlikeByte(0xFC89, 0xFC89, 8);
    AlikeByte(0xFC89_19, 0xFC89_19, 16);
    AlikeByte(0xFC89_1918, 0xFC89_1918, 24);
    AlikeBits(0xFC89_1918, 0xFC89_1918, 32);
  }

  /** The checksum of the nine characters 1 to 9, the check value of this CRC. */
  lemma CheckValue()
    ensures Checksum([0x31, 0x32, 0x33, 0x34, 0x35, 0x36, 0x37, 0x38, 0x39]) == BitsOf(0xFC89_1918, 32)
  {
    hide FromWord, Fold, BitsOf, Xor;
    var digits: seq<byte> := [0x31, 0x32, 0x33, 0x34, 0x35, 0x36, 0x37, 0x38, 0x39];
    assert digits
        == [0x31] + ([0x32] + ([0x33] + ([0x34] + ([0x35] + ([0x36] + ([0x37] + ([0x38] + ([0x39] + []))))))));
    StartWord();
    FirstFour([0x35] + ([0x36] + ([0x37] + ([0x38] + ([0x39] + [])))));
    NextTwo([0x37] + ([0x38] + ([0x39] + [])));
    LastThree();
    WordXor(0x0376_E6E7, 0xFFFF_FFFF, 32);
    CheckNumber();
  }
}
