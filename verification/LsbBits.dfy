/** Bit strings whose first bit is the least significant one, as DEFLATE and Brotli pack them. */
module LsbBits {
  import opened Bits

  /** The low n bits of v, lowest first. */
  function LsbOf(v: nat, n: nat): (b: bits)
    ensures |b| == n
    decreases n, v
  {
    if n == 0 then [] else [v % 2 == 1] + LsbOf(v / 2, n - 1)
  }

  /** The number whose low bits these are. */
  function NumberOf(b: bits): nat {
    if |b| == 0 then 0 else (if b[0] then 1 else 0) + 2 * NumberOf(b[1..])
  }

  lemma {:induction false} NumberBound(b: bits)
    ensures NumberOf(b) < Pow2(|b|)
    decreases |b|
  {
    if |b| > 0 { NumberBound(b[1..]); }
  }

  lemma {:induction false} NumberOfLsb(v: nat, n: nat)
    requires v < Pow2(n)
    ensures NumberOf(LsbOf(v, n)) == v
    decreases n
  {
    if n > 0 {
      NumberOfLsb(v / 2, n - 1);
      assert LsbOf(v, n)[1..] == LsbOf(v / 2, n - 1);
    }
  }

  lemma {:induction false} LsbOfNumber(b: bits)
    ensures LsbOf(NumberOf(b), |b|) == b
    decreases |b|
  {
    if |b| > 0 {
      LsbOfNumber(b[1..]);
      assert [b[0]] + b[1..] == b;
    }
  }

  /** The bits of the bytes, each byte's lowest bit first. */
  function LsbStream(s: seq<byte>): (b: bits)
    ensures |b| == 8 * |s|
  {
    if |s| == 0 then [] else LsbOf(s[0], 8) + LsbStream(s[1..])
  }

  lemma {:induction false} StreamConcat(s: seq<byte>, t: seq<byte>)
    ensures LsbStream(s + t) == LsbStream(s) + LsbStream(t)
    decreases |s|
  {
    if |s| == 0 {
      assert s + t == t;
    } else {
      StreamConcat(s[1..], t);
      assert (s + t)[1..] == s[1..] + t;
      Assoc(LsbOf(s[0], 8), LsbStream(s[1..]), LsbStream(t));
    }
  }

  lemma StreamOne(c: byte)
    ensures LsbStream([c]) == LsbOf(c, 8)
  {
    assert [c][1..] == [];
  }

  lemma {:induction false} LsbPrefix(v: nat, n: nat, m: nat)
    requires n <= m
    ensures LsbOf(v, m)[..n] == LsbOf(v, n)
    decreases n
  {
    if n > 0 {
      LsbPrefix(v / 2, n - 1, m - 1);
      assert LsbOf(v, m)[..n] == [v % 2 == 1] + LsbOf(v / 2, m - 1)[..n - 1];
    }
  }

  /** The number of the low bits is the remainder. */
  lemma {:induction false} NumberOfLsbMod(v: nat, n: nat)
    ensures NumberOf(LsbOf(v, n)) == v % Pow2(n)
    decreases n
  {
    if n > 0 {
      NumberOfLsbMod(v / 2, n - 1);
      assert LsbOf(v, n)[1..] == LsbOf(v / 2, n - 1);
      ModStep(v, Pow2(n - 1));
    }
  }

  lemma ModStep(v: nat, p: nat)
    requires p > 0
    ensures v % (2 * p) == 2 * (v / 2 % p) + v % 2
  {
    var h := v / 2;
    DivModSplit(h, p);
    MulAssoc(h / p, 2, p);
    DivModUnique(v, h / p, 2 * p, 2 * (h % p) + v % 2);
  }

  lemma {:induction false} NumberConcat(a: bits, b: bits)
    ensures NumberOf(a + b) == NumberOf(a) + Pow2(|a|) * NumberOf(b)
    decreases |a|
  {
    if |a| == 0 {
      assert a + b == b;
    } else {
      NumberConcat(a[1..], b);
      assert (a + b)[1..] == a[1..] + b;
      MulAssoc(2, Pow2(|a| - 1), NumberOf(b));
    }
  }
}
