/** Powers of two, and bit strings that are read most significant bit first. */
module Bits {

  type byte = x: int | 0 <= x < 256

  type bits = seq<bool>

  datatype Option<+T> = None | Some(value: T)

  function Min(a: int, b: int): int { if a < b then a else b }

  function Repeat(c: byte, n: nat): (r: seq<byte>)
    ensures |r| == n && forall k :: 0 <= k < n ==> r[k] == c
  {
    seq(n, _ => c)
  }

  function Zeros(n: nat): (z: bits)
    ensures |z| == n && forall i :: 0 <= i < n ==> !z[i]
  {
    seq(n, _ => false)
  }

  function Ones(n: nat): (z: bits)
    ensures |z| == n && forall i :: 0 <= i < n ==> z[i]
  {
    seq(n, _ => true)
  }

  // ---------- powers of two ----------

  function Pow2(n: nat): (p: nat)
    ensures p > 0
  {
    if n == 0 then 1 else 2 * Pow2(n - 1)
  }

  lemma {:induction false} Pow2Add(a: nat, b: nat)
    ensures Pow2(a + b) == Pow2(a) * Pow2(b)
  {
    if a > 0 {
      Pow2Add(a - 1, b);
      MulAssoc(2, Pow2(a - 1), Pow2(b));
    }
  }

  lemma Pow2Mono(a: nat, b: nat)
    requires a <= b
    ensures Pow2(a) <= Pow2(b)
  {
    if a < b { Pow2Mono(a, b - 1); }
  }

  lemma MulAssoc(a: int, b: int, c: int)
    ensures (a * b) * c == a * (b * c)
  {}

  lemma MulMono(a: int, b: int, c: nat)
    requires a <= b
    ensures a * c <= b * c
  {}

  lemma MulCancel(a: int, b: int, p: int)
    requires p > 0 && a * p <= b * p
    ensures a <= b
  {
    if a > b { MulMono(b + 1, a, p); }
  }

  lemma QuotientAtLeast(c: nat, e: int, p: int)
    requires p > 0 && e * p <= c
    ensures e <= c / p
  {
    DivModSplit(c, p);
    var q, r := c / p, c % p;
    if q < e { MulMono(q + 1, e, p); }
  }

  lemma DivModSplit(x: nat, d: nat)
    requires d > 0
    ensures x == x / d * d + x % d && 0 <= x % d < d && 0 <= x / d
  {}

  /** The quotient and the remainder are the only pair with these bounds. */
  lemma DivModUnique(x: int, q: int, d: int, r: int)
    requires 0 <= r < d && x == q * d + r
    ensures x / d == q && x % d == r
  {
    var q', r' := x / d, x % d;
    assert (q' - q) * d == r - r';
    if q' > q {
      MulMono(1, q' - q, d);
    } else if q' < q {
      MulMono(q' - q, -1, d);
    }
  }

  lemma Pow2Values()
    ensures Pow2(1) == 2 && Pow2(2) == 4 && Pow2(3) == 8 && Pow2(4) == 16 && Pow2(5) == 32
    ensures Pow2(6) == 64 && Pow2(7) == 128 && Pow2(8) == 256 && Pow2(10) == 1024
    ensures Pow2(15) == 0x8000 && Pow2(16) == 0x10000 && Pow2(20) == 0x100000 && Pow2(24) == 0x1000000
    ensures Pow2(32) == 0x1_0000_0000
    ensures Pow2(64) == 0x1_0000_0000_0000_0000
  {
    assert Pow2(8) == 256;
    hide *;
    Pow2Add(8, 2); Pow2Add(8, 7); Pow2Add(8, 8); Pow2Add(16, 4); Pow2Add(16, 8); Pow2Add(16, 16);
    Pow2Add(32, 32);
  }

  lemma LargePowers()
    ensures Pow2(0) == 1 && Pow2(9) == 512 && Pow2(11) == 2048 && Pow2(12) == 4096 && Pow2(13) == 8192
            && Pow2(14) == 16384
  {
    assert Pow2(0) == 1;
    hide Pow2;
    Pow2Values();
    Pow2Add(1, 8);
    Pow2Add(1, 10);
    Pow2Add(2, 10);
    Pow2Add(3, 10);
    Pow2Add(4, 10);
  }

  /** How often v can be halved and still be at least q. */
  function Halvings(v: nat, q: nat): (e: nat)
    requires 0 < q <= v
    ensures q * Pow2(e) <= v < 2 * q * Pow2(e)
    decreases v
  {
    if v < 2 * q then 0
    else
      var e := Halvings(v / 2, q);
      TwiceAsMuch(q, e);
      e + 1
  }

  lemma TwiceAsMuch(q: nat, e: nat)
    ensures q * Pow2(e + 1) == 2 * (q * Pow2(e)) && 2 * q * Pow2(e + 1) == 2 * (2 * q * Pow2(e))
  {}

  /** The quotient by the power of two is between q and 2q. */
  lemma Leading(m: nat, q: nat, e: nat)
    requires 0 < q <= m && q * Pow2(e) <= m < 2 * q * Pow2(e)
    ensures q <= m / Pow2(e) < 2 * q && m % Pow2(e) < Pow2(e)
    ensures m == m / Pow2(e) * Pow2(e) + m % Pow2(e)
  {
    QuotientAtLeast(m, q, Pow2(e));
    DivModSplit(m, Pow2(e));
    if m / Pow2(e) >= 2 * q { MulMono(2 * q, m / Pow2(e), Pow2(e)); }
  }

  lemma ExponentBelow(m: nat, q: nat, e: nat, top: nat)
    requires 0 < q && q * Pow2(e) <= m < q * Pow2(top)
    ensures e < top
  {
    if e >= top {
      Pow2Mono(top, e);
      MulMono(Pow2(top), Pow2(e), q);
    }
  }

  // ---------- numbers as bit strings ----------

  /** The low n bits of v, most significant first. */
  function BitsOf(v: nat, n: nat): (b: bits)
    ensures |b| == n
    decreases n, v
  {
    if n == 0 then [] else BitsOf(v / 2, n - 1) + [v % 2 == 1]
  }

  /** The number a bit string denotes, most significant bit first. */
  function ValueOf(b: bits): nat {
    if |b| == 0 then 0
    else 2 * ValueOf(b[..|b| - 1]) + (if b[|b| - 1] then 1 else 0)
  }

  lemma {:induction false} ValueBound(b: bits)
    ensures ValueOf(b) < Pow2(|b|)
    decreases |b|
  {
    if |b| > 0 { ValueBound(b[..|b| - 1]); }
  }

  lemma {:induction false} ValueOfBitsOf(v: nat, n: nat)
    requires v < Pow2(n)
    ensures ValueOf(BitsOf(v, n)) == v
    decreases n
  {
    if n > 0 {
      ValueOfBitsOf(v / 2, n - 1);
      assert BitsOf(v, n)[..n - 1] == BitsOf(v / 2, n - 1);
    }
  }

  lemma {:induction false} BitsOfValueOf(b: bits)
    ensures BitsOf(ValueOf(b), |b|) == b
    decreases |b|
  {
    if |b| > 0 {
      var u := b[..|b| - 1];
      BitsOfValueOf(u);
      assert ValueOf(b) / 2 == ValueOf(u);
      assert u + [b[|b| - 1]] == b;
    }
  }

  lemma {:induction false} ValueConcat(a: bits, b: bits)
    ensures ValueOf(a + b) == ValueOf(a) * Pow2(|b|) + ValueOf(b)
    decreases |b|
  {
    if |b| == 0 {
      assert a + b == a;
    } else {
      var u := b[..|b| - 1];
      ValueConcat(a, u);
      assert (a + b)[..|a + b| - 1] == a + u;
      assert (a + b)[|a + b| - 1] == b[|b| - 1];
      MulAssoc(ValueOf(a), 2, Pow2(|u|));
      assert 2 * (ValueOf(a) * Pow2(|u|)) == ValueOf(a) * Pow2(|b|);
    }
  }

  /** Bits above the n lowest do not matter. */
  lemma {:induction false} BitsOfHigh(v: nat, k: nat, n: nat)
    ensures BitsOf(v + k * Pow2(n), n) == BitsOf(v, n)
    decreases n
  {
    if n > 0 {
      MulAssoc(k, 2, Pow2(n - 1));
      var m := k * Pow2(n - 1);
      assert k * Pow2(n) == 2 * m;
      assert (v + 2 * m) / 2 == v / 2 + m && (v + 2 * m) % 2 == v % 2;
      BitsOfHigh(v / 2, k, n - 1);
    }
  }

  lemma BitsOfMod(v: nat, n: nat)
    ensures BitsOf(v % Pow2(n), n) == BitsOf(v, n)
  {
    var d := Pow2(n);
    DivModSplit(v, d);
    BitsOfHigh(v % d, v / d, n);
  }

  /** Gluing two fields is shifting the first one up and adding the second. */
  lemma {:induction false} BitsOfSplit(a: nat, b: nat, n: nat, k: nat)
    requires b < Pow2(k)
    ensures BitsOf(a * Pow2(k) + b, n + k) == BitsOf(a, n) + BitsOf(b, k)
    decreases k
  {
    if k == 0 {
      assert a * Pow2(0) == a;
      assert BitsOf(a, n) + BitsOf(b, 0) == BitsOf(a, n);
    } else {
      MulAssoc(a, 2, Pow2(k - 1));
      var m := a * Pow2(k - 1);
      assert a * Pow2(k) == 2 * m;
      assert (2 * m + b) / 2 == m + b / 2 && (2 * m + b) % 2 == b % 2;
      BitsOfSplit(a, b / 2, n, k - 1);
      assert n + k - 1 == n + (k - 1);
      assert BitsOf(a, n) + (BitsOf(b / 2, k - 1) + [b % 2 == 1])
          == (BitsOf(a, n) + BitsOf(b / 2, k - 1)) + [b % 2 == 1];
    }
  }

  lemma Assoc<T>(a: seq<T>, b: seq<T>, c: seq<T>)
    ensures (a + b) + c == a + (b + c)
  {}

  // ---------- bytes as bit strings ----------

  function BytesBits(s: seq<byte>): (b: bits)
    ensures |b| == 8 * |s|
  {
    if |s| == 0 then [] else BitsOf(s[0], 8) + BytesBits(s[1..])
  }

  lemma {:induction false} BytesBitsConcat(s: seq<byte>, t: seq<byte>)
    ensures BytesBits(s + t) == BytesBits(s) + BytesBits(t)
  {
    if |s| == 0 {
      assert s + t == t;
    } else {
      BytesBitsConcat(s[1..], t);
      assert (s + t)[1..] == s[1..] + t;
      Assoc(BitsOf(s[0], 8), BytesBits(s[1..]), BytesBits(t));
    }
  }

  lemma BytesBitsOne(c: byte)
    ensures BytesBits([c]) == BitsOf(c, 8)
  {
    assert BytesBits([c]) == BitsOf(c, 8) + BytesBits([]);
  }
}
