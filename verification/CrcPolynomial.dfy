/** The checksum register is a remainder: that of the message, as a polynomial over the field of two elements, times the
    32nd power of x, divided by the generator. A polynomial is the set of its exponents. */
module CrcPolynomial {
  import opened Bits
  import opened Crc

  type polynomial = set<nat>

  /** The generator of CRC-32. */
  const GENERATOR: polynomial := {32, 26, 23, 22, 16, 12, 11, 10, 8, 7, 5, 4, 2, 1, 0}

  function Sum(a: polynomial, b: polynomial): (c: polynomial)
    ensures forall e :: e in c <==> (e in a) != (e in b)
  {
    (a - b) + (b - a)
  }

  /** A power of x times a polynomial. */
  function Times(a: polynomial, k: nat): (c: polynomial)
    ensures forall e: nat :: e in c <==> e >= k && e - k in a
  {
    set e | e in a :: e + k
  }

  /** The sum of the generator times each of these powers of x. */
  function Multiple(ks: seq<nat>): polynomial {
    if |ks| == 0 then {} else Sum(Multiple(ks[..|ks| - 1]), Times(GENERATOR, ks[|ks| - 1]))
  }

  /** The bits are the coefficients, the highest power first. */
  function PolynomialOf(b: bits): (p: polynomial)
    ensures forall e: nat :: e in p <==> e < |b| && b[|b| - 1 - e]
  {
    set e: nat | e < |b| && Coefficient(b, e)
  }

  predicate Coefficient(b: bits, e: nat)
    requires e < |b|
  {
    b[|b| - 1 - e]
  }

  /** What is left of the dividend when multiples of the generator are taken off. */
  ghost predicate IsRemainder(dividend: polynomial, r: word) {
    exists ks: seq<nat> :: dividend == Sum(PolynomialOf(r), Multiple(ks))
  }

  // ---------- sums ----------

  lemma {:induction false} MultipleConcat(a: seq<nat>, b: seq<nat>)
    ensures Multiple(a + b) == Sum(Multiple(a), Multiple(b))
    decreases |b|
  {
    if |b| == 0 {
      assert a + b == a;
    } else {
      var u := b[..|b| - 1];
      MultipleConcat(a, u);
      assert (a + b)[..|a + b| - 1] == a + u;
    }
  }

  function Raised(ks: seq<nat>, n: nat): (r: seq<nat>)
    ensures |r| == |ks| && forall i :: 0 <= i < |r| ==> r[i] == ks[i] + n
  {
    seq(|ks|, i requires 0 <= i < |ks| => ks[i] + n)
  }

  lemma {:induction false} MultipleTimes(ks: seq<nat>, n: nat)
    ensures Times(Multiple(ks), n) == Multiple(Raised(ks, n))
    decreases |ks|
  {
    hide Sum, Times, Raised, GENERATOR;
    if |ks| == 0 {
      TimesNothing(n);
    } else {
      var u := ks[..|ks| - 1];
      MultipleTimes(u, n);
      assert Raised(ks, n)[..|ks| - 1] == Raised(u, n);
      TimesTwice(GENERATOR, ks[|ks| - 1], n);
      TimesSum(Multiple(u), Times(GENERATOR, ks[|ks| - 1]), n);
    }
  }

  lemma TimesNothing(n: nat)
    ensures Times({}, n) == {}
  {}

  lemma TimesTwice(a: polynomial, k: nat, n: nat)
    ensures Times(Times(a, k), n) == Times(a, k + n)
  {
    forall e: nat ensures e in Times(Times(a, k), n) <==> e in Times(a, k + n) {}
  }

  lemma TimesSum(a: polynomial, b: polynomial, n: nat)
    ensures Times(Sum(a, b), n) == Sum(Times(a, n), Times(b, n))
  {
    forall e: nat ensures e in Times(Sum(a, b), n) <==> e in Sum(Times(a, n), Times(b, n)) {}
  }

  lemma SumAssoc(a: polynomial, b: polynomial, c: polynomial)
    ensures Sum(Sum(a, b), c) == Sum(a, Sum(b, c))
  {}

  // ---------- bits ----------

  lemma XorSum(a: bits, b: bits)
    requires |a| == |b|
    ensures PolynomialOf(Xor(a, b)) == Sum(PolynomialOf(a), PolynomialOf(b))
  {}

  lemma ZerosBehind(a: bits, n: nat)
    ensures PolynomialOf(a + Zeros(n)) == Times(PolynomialOf(a), n)
  {
    forall e: nat ensures e in PolynomialOf(a + Zeros(n)) <==> e in Times(PolynomialOf(a), n) {}
  }

  lemma ZerosInFront(a: bits, n: nat)
    ensures PolynomialOf(Zeros(n) + a) == PolynomialOf(a)
  {
    forall e: nat ensures e in PolynomialOf(Zeros(n) + a) <==> e in PolynomialOf(a) {}
  }

  // ---------- the generator ----------

  lemma {:induction false} BitAt(v: nat, n: nat, i: nat)
    requires i < n
    ensures BitsOf(v, n)[i] <==> v / Pow2(n - 1 - i) % 2 == 1
    decreases n
  {
    if i < n - 1 {
      BitAt(v / 2, n - 1, i);
      HalfFirst(v, Pow2(n - 2 - i));
    }
  }

  lemma HalfFirst(v: nat, p: nat)
    requires p > 0
    ensures v / 2 / p == v / (2 * p)
  {
    var q, r := v / 2 / p, v / 2 % p;
    DivModSplit(v / 2, p);
    DivModSplit(v, 2);
    MulAssoc(q, 2, p);
    assert v == q * (2 * p) + (2 * r + v % 2);
    DivModUnique(v, q, 2 * p, 2 * r + v % 2);
  }

  lemma ByteList(v: nat, b: bits)
    requires b == BitsOf(v, 8)
    ensures (b[0] <==> v / 128 % 2 == 1) && (b[1] <==> v / 64 % 2 == 1) && (b[2] <==> v / 32 % 2 == 1)
    ensures (b[3] <==> v / 16 % 2 == 1) && (b[4] <==> v / 8 % 2 == 1) && (b[5] <==> v / 4 % 2 == 1)
    ensures (b[6] <==> v / 2 % 2 == 1) && (b[7] <==> v % 2 == 1)
  {
    hide BitsOf;
    Pow2Values();
    assert Pow2(0) == 1;
    BitAt(v, 8, 0); BitAt(v, 8, 1); BitAt(v, 8, 2); BitAt(v, 8, 3);
    BitAt(v, 8, 4); BitAt(v, 8, 5); BitAt(v, 8, 6); BitAt(v, 8, 7);
  }

  lemma GeneratorBytes()
    ensures BitsOf(0x04, 8) == [false, false, false, false, false, true, false, false]
    ensures BitsOf(0xC1, 8) == [true, true, false, false, false, false, false, true]
    ensures BitsOf(0x1D, 8) == [false, false, false, true, true, true, false, true]
    ensures BitsOf(0xB7, 8) == [true, false, true, true, false, true, true, true]
  {
    hide BitsOf;
    ByteList(0x04, BitsOf(0x04, 8));
    ByteList(0xC1, BitsOf(0xC1, 8));
    ByteList(0x1D, BitsOf(0x1D, 8));
    ByteList(0xB7, BitsOf(0xB7, 8));
  }

  lemma FourBytes()
    ensures POLYNOMIAL == BitsOf(0x04, 8) + BitsOf(0xC1, 8) + BitsOf(0x1D, 8) + BitsOf(0xB7, 8)
  {
    hide BitsOf;
    Pow2Values();
    BitsOfSplit(0x04C11D, 0xB7, 24, 8);
    BitsOfSplit(0x04C1, 0x1D, 16, 8);
    BitsOfSplit(0x04, 0xC1, 8, 8);
  }

  /** Written with its highest power, the polynomial of the code is the generator. */
  lemma GeneratorBits()
    ensures PolynomialOf([true] + POLYNOMIAL) == GENERATOR
  {
    hide BitsOf, POLYNOMIAL;
    FourBytes();
    GeneratorBytes();
    var b := [true] + POLYNOMIAL;
    assert forall i :: 1 <= i < 33 ==> b[i] == POLYNOMIAL[i - 1];
    forall e: nat ensures e in PolynomialOf(b) <==> e in GENERATOR {
      if e <= 32 { assert b[32 - e] <==> e in GENERATOR; }
    }
  }

  // ---------- division ----------

  /** One step of the shift register takes one multiple off. */
  lemma ShiftBitTakes(c: word)
    ensures PolynomialOf(c + [false])
         == Sum(PolynomialOf(ShiftBit(c)), if c[0] then GENERATOR else {})
  {
    hide POLYNOMIAL, GENERATOR;
    GeneratorBits();
    var s := [false] + ShiftBit(c);
    assert [false] == Zeros(1);
    ZerosInFront(ShiftBit(c), 1);
    if c[0] {
      var g := [true] + POLYNOMIAL;
      assert c + [false] == Xor(s, g);
      XorSum(s, g);
    } else {
      assert c + [false] == s;
    }
  }

  /** The multiples that n steps take off. */
  ghost function Quotient(c: word, n: nat): (ks: seq<nat>)
    decreases n, c
  {
    if n == 0 then [] else (if c[0] then [n - 1] else []) + Quotient(ShiftBit(c), n - 1)
  }

  lemma {:induction false} ShiftBitsTake(c: word, n: nat)
    ensures PolynomialOf(c + Zeros(n)) == Sum(PolynomialOf(ShiftBits(c, n)), Multiple(Quotient(c, n)))
    decreases n
  {
    if n == 0 {
      assert c + Zeros(0) == c;
    } else {
      ShiftBitsTake(ShiftBit(c), n - 1);
      OneStepTakes(c, n);
    }
  }

  lemma OneStepTakes(c: word, n: nat)
    requires n > 0
    requires PolynomialOf(ShiftBit(c) + Zeros(n - 1))
          == Sum(PolynomialOf(ShiftBits(ShiftBit(c), n - 1)), Multiple(Quotient(ShiftBit(c), n - 1)))
    ensures PolynomialOf(c + Zeros(n)) == Sum(PolynomialOf(ShiftBits(c, n)), Multiple(Quotient(c, n)))
  {
    hide ShiftBit, Sum, Times, PolynomialOf, GENERATOR, Multiple;
    var next, more := ShiftBit(c), Quotient(ShiftBit(c), n - 1);
    var first: seq<nat> := if c[0] then [n - 1] else [];
    var g := if c[0] then GENERATOR else {};
    assert c + Zeros(n) == (c + [false]) + Zeros(n - 1);
    ZerosBehind(c + [false], n - 1);
    ShiftBitTakes(c);
    TimesSum(PolynomialOf(next), g, n - 1);
    ZerosBehind(next, n - 1);
    MultipleFirst(c[0], n - 1);
    MultipleConcat(first, more);
    SumSwap(PolynomialOf(ShiftBits(next, n - 1)), Multiple(more), Multiple(first));
  }

  lemma MultipleFirst(taken: bool, k: nat)
    ensures Multiple(if taken then [k] else []) == Times(if taken then GENERATOR else {}, k)
  {
    hide GENERATOR;
    if taken {
      var one: seq<nat> := [k];
      assert one[..0] == [];
      assert Multiple(one) == Sum(Multiple([]), Times(GENERATOR, k));
    } else {
      TimesNothing(k);
    }
  }

  lemma SumSwap(a: polynomial, b: polynomial, c: polynomial)
    ensures Sum(Sum(a, b), c) == Sum(a, Sum(c, b))
  {}

  /** The message behind the start value: its bits times the 32nd power, and the start value as many bits up. */
  ghost function Dividend(start: word, data: seq<byte>): polynomial {
    Sum(PolynomialOf(start + Zeros(8 * |data|)), PolynomialOf(BytesBits(data) + Zeros(32)))
  }

  /** The register after a message is the remainder of the message with the start value. */
  lemma {:induction false} FoldIsRemainder(start: word, data: seq<byte>)
    ensures IsRemainder(Dividend(start, data), Fold(start, data))
    decreases |data|
  {
    if |data| == 0 {
      EmptyMessage(start, data);
    } else {
      FoldIsRemainder(Absorb(start, data[0]), data[1..]);
      FirstByteTakes(start, data);
    }
  }

  lemma EmptyMessage(start: word, data: seq<byte>)
    requires |data| == 0
    ensures IsRemainder(Dividend(start, data), start)
  {
    assert start + Zeros(0) == start && BytesBits(data) + Zeros(32) == Zeros(32);
    assert Dividend(start, data) == Sum(PolynomialOf(start), Multiple([]));
  }

  lemma FirstByteTakes(start: word, data: seq<byte>)
    requires |data| > 0 && IsRemainder(Dividend(Absorb(start, data[0]), data[1..]), Fold(start, data))
    ensures IsRemainder(Dividend(start, data), Fold(start, data))
  {
    hide *;
    var more, n := data[1..], 8 * (|data| - 1);
    var x := Xor(start, AtTop(BitsOf(data[0], 8)));
    ByteInDividend(start, data, x);
    ByteTaken(x, n);
    AbsorbIs(start, data[0], x);
    var p, m := PolynomialOf(ShiftBits(x, 8) + Zeros(n)), PolynomialOf(BytesBits(more) + Zeros(32));
    DividendIs(ShiftBits(x, 8), more);
    var q := Raised(Quotient(x, 8), n);
    RemainderMore(Sum(p, m), Fold(start, data), q);
    SumMiddle(p, Multiple(q), m);
  }

  lemma DividendIs(start: word, data: seq<byte>)
    ensures Dividend(start, data) == Sum(PolynomialOf(start + Zeros(8 * |data|)),
                                         PolynomialOf(BytesBits(data) + Zeros(32)))
  {}

  lemma AbsorbIs(crc: word, b: byte, x: word)
    requires x == Xor(crc, AtTop(BitsOf(b, 8)))
    ensures Absorb(crc, b) == ShiftBits(x, 8)
  {
    hide ShiftBits, Xor, AtTop, BitsOf;
  }

  lemma SumMiddle(a: polynomial, b: polynomial, c: polynomial)
    ensures Sum(Sum(a, b), c) == Sum(Sum(a, c), b)
  {}

  lemma RemainderMore(a: polynomial, r: word, q: seq<nat>)
    requires IsRemainder(a, r)
    ensures IsRemainder(Sum(a, Multiple(q)), r)
  {
    hide Multiple, PolynomialOf;
    var ks: seq<nat> :| a == Sum(PolynomialOf(r), Multiple(ks));
    MultipleConcat(ks, q);
    SumAssoc(PolynomialOf(r), Multiple(ks), Multiple(q));
    assert Sum(a, Multiple(q)) == Sum(PolynomialOf(r), Multiple(ks + q));
  }

  /** The first byte of the message meets the top of the register. */
  lemma ByteInDividend(start: word, data: seq<byte>, x: word)
    requires |data| > 0 && x == Xor(start, AtTop(BitsOf(data[0], 8)))
    ensures Dividend(start, data)
         == Sum(PolynomialOf(x + Zeros(8 * |data|)), PolynomialOf(BytesBits(data[1..]) + Zeros(32)))
  {
    hide BitsOf;
    var b, rest, n := BitsOf(data[0], 8), BytesBits(data[1..]) + Zeros(32), 8 * |data|;
    var all := start + Zeros(n);
    assert BytesBits(data) + Zeros(32) == b + rest;
    assert Xor(all, b + rest) == Xor(x + Zeros(n), Zeros(8) + rest);
    XorSum(all, b + rest);
    XorSum(x + Zeros(n), Zeros(8) + rest);
    ZerosInFront(rest, 8);
  }

  /** Eight steps in front of n more bits. */
  lemma ByteTaken(x: word, n: nat)
    ensures PolynomialOf(x + Zeros(n + 8))
         == Sum(PolynomialOf(ShiftBits(x, 8) + Zeros(n)), Multiple(Raised(Quotient(x, 8), n)))
  {
    hide ShiftBits, Sum, Times, PolynomialOf, Multiple, Raised, Quotient;
    assert x + Zeros(n + 8) == (x + Zeros(8)) + Zeros(n);
    ZerosBehind(x + Zeros(8), n);
    ShiftBitsTake(x, 8);
    TimesSum(PolynomialOf(ShiftBits(x, 8)), Multiple(Quotient(x, 8)), n);
    ZerosBehind(ShiftBits(x, 8), n);
    MultipleTimes(Quotient(x, 8), n);
  }

  // ---------- there is one remainder ----------

  function Count(ks: seq<nat>, k: nat): nat {
    if |ks| == 0 then 0 else Count(ks[..|ks| - 1], k) + (if ks[|ks| - 1] == k then 1 else 0)
  }

  function Others(ks: seq<nat>, k: nat): (r: seq<nat>)
    ensures forall i :: 0 <= i < |r| ==> r[i] in ks && r[i] != k
    ensures |r| <= |ks| && (k in ks ==> |r| < |ks|)
  {
    if |ks| == 0 then []
    else
      assert ks == ks[..|ks| - 1] + [ks[|ks| - 1]];
      Others(ks[..|ks| - 1], k) + if ks[|ks| - 1] == k then [] else [ks[|ks| - 1]]
  }

  /** Equal multiples cancel in pairs. */
  lemma {:induction false} Cancel(ks: seq<nat>, k: nat)
    ensures Multiple(ks) == Sum(Multiple(Others(ks, k)), if Count(ks, k) % 2 == 1 then Times(GENERATOR, k) else {})
    decreases |ks|
  {
    hide GENERATOR, Times;
    if |ks| > 0 {
      var u, v := ks[..|ks| - 1], ks[|ks| - 1];
      Cancel(u, k);
      var w := Others(u, k);
      if v != k {
        assert (w + [v])[..|w|] == w;
        assert Multiple(w + [v]) == Sum(Multiple(w), Times(GENERATOR, v));
      } else {
        assert w + [] == w;
        assert Multiple(ks) == Sum(Multiple(u), Times(GENERATOR, k));
      }
    }
  }

  lemma {:induction false} Greatest(ks: seq<nat>) returns (k: nat)
    requires |ks| > 0
    ensures k in ks && forall i :: 0 <= i < |ks| ==> ks[i] <= k
    decreases |ks|
  {
    k := ks[|ks| - 1];
    if |ks| > 1 {
      var m := Greatest(ks[..|ks| - 1]);
      if m > k { k := m; }
    }
  }

  lemma {:induction false} BelowTop(ks: seq<nat>, k: nat, e: nat)
    requires (forall i :: 0 <= i < |ks| ==> ks[i] < k) && e >= k + 32
    ensures e !in Multiple(ks)
    decreases |ks|
  {
    if |ks| > 0 { BelowTop(ks[..|ks| - 1], k, e); }
  }

  /** A multiple of the generator is zero or reaches its degree. */
  ghost predicate Reaches(a: polynomial) {
    a == {} || exists e: nat :: e >= 32 && e in a
  }

  lemma {:induction false} MultipleReaches(ks: seq<nat>)
    ensures Reaches(Multiple(ks))
    decreases |ks|
  {
    hide *;
    if |ks| == 0 {
      NothingReaches(ks);
    } else {
      var k := Greatest(ks);
      var r := Others(ks, k);
      Cancel(ks, k);
      OthersBelow(ks, k);
      BelowTop(r, k, k + 32);
      TopTerm(k);
      if Count(ks, k) % 2 == 1 {
        HighReaches(Multiple(ks), k + 32);
      } else {
        SumNothing(Multiple(r));
        MultipleReaches(r);
      }
    }
  }

  lemma NothingReaches(ks: seq<nat>)
    requires |ks| == 0
    ensures Reaches(Multiple(ks))
  {}

  lemma HighReaches(a: polynomial, e: nat)
    requires e >= 32 && e in a
    ensures Reaches(a)
  {}

  lemma OthersBelow(ks: seq<nat>, k: nat)
    requires k in ks && forall i :: 0 <= i < |ks| ==> ks[i] <= k
    ensures |Others(ks, k)| < |ks| && forall i :: 0 <= i < |Others(ks, k)| ==> Others(ks, k)[i] < k
  {
    hide Others;
    var r := Others(ks, k);
    forall i | 0 <= i < |r| ensures r[i] < k { assert r[i] in ks; }
  }

  lemma TopTerm(k: nat)
    ensures k + 32 in Times(GENERATOR, k)
  {
    assert 32 in GENERATOR;
  }

  lemma SumNothing(a: polynomial)
    ensures Sum(a, {}) == a
  {}

  /** A polynomial leaves only one remainder. */
  lemma OneRemainder(dividend: polynomial, r: word, r': word)
    requires IsRemainder(dividend, r) && IsRemainder(dividend, r')
    ensures r == r'
  {
    hide Multiple;
    var ks: seq<nat> :| dividend == Sum(PolynomialOf(r), Multiple(ks));
    var ks': seq<nat> :| dividend == Sum(PolynomialOf(r'), Multiple(ks'));
    MultipleConcat(ks, ks');
    var d := Sum(PolynomialOf(r), PolynomialOf(r'));
    assert d == Multiple(ks + ks');
    MultipleReaches(ks + ks');
    assert d == {};
    forall i | 0 <= i < 32 ensures r[i] == r'[i] {
      assert 31 - i in PolynomialOf(r) <==> r[i];
      assert 31 - i in PolynomialOf(r') <==> r'[i];
    }
  }

  // ---------- the table and the checksum ----------

  /** The first table holds, for byte 1, the generator without its highest power. */
  lemma FirstEntryIs()
    ensures PolynomialOf(TableEntry(0, Zeros(7) + [true])) == {26, 23, 22, 16, 12, 11, 10, 8, 7, 5, 4, 2, 1, 0}
    ensures BitsOf(1, 8) == Zeros(7) + [true]
  {
    hide POLYNOMIAL, ShiftBits, BitsOf;
    var b := Zeros(7) + [true];
    assert AtTop(b) == Zeros(7) + ([true] + Zeros(24));
    ShiftLow(7, [true] + Zeros(24));
    ShiftAdd(AtTop(b), 7, 1);
    var c := ([true] + Zeros(24)) + Zeros(7);
    LastShift(c);
    assert ShiftBit(c) == POLYNOMIAL;
    GeneratorBits();
    GeneratorRest();
    OneByte();
  }

  lemma LastShift(c: word)
    ensures ShiftBits(c, 1) == ShiftBit(c)
  {
    assert ShiftBits(ShiftBit(c), 0) == ShiftBit(c);
  }

  lemma OneByte()
    ensures BitsOf(1, 8) == Zeros(7) + [true]
  {
    var b := BitsOf(1, 8);
    ByteList(1, b);
    hide BitsOf;
    assert b == [b[0], b[1], b[2], b[3], b[4], b[5], b[6], b[7]];
  }

  lemma GeneratorRest()
    requires PolynomialOf([true] + POLYNOMIAL) == GENERATOR
    ensures PolynomialOf(POLYNOMIAL) == {26, 23, 22, 16, 12, 11, 10, 8, 7, 5, 4, 2, 1, 0}
  {
    hide POLYNOMIAL;
    var b := [true] + POLYNOMIAL;
    forall e: nat ensures e in PolynomialOf(POLYNOMIAL) <==> e in GENERATOR && e != 32 {
      if e < 32 { assert b[32 - e] == POLYNOMIAL[31 - e]; }
    }
  }

  /** The checksum is the complement of the remainder that starts from all ones. */
  lemma ChecksumIsRemainder(data: seq<byte>)
    ensures IsRemainder(Dividend(Ones(32), data), Xor(Checksum(data), Ones(32)))
  {
    hide Dividend, Fold;
    FoldIsRemainder(Ones(32), data);
    assert Xor(Checksum(data), Ones(32)) == Fold(Ones(32), data);
  }
}
