/** Appending a bit string to bits that are already in a buffer, at any bit offset. */
module BitAppend {
  import opened Bits
  import opened BitIo

  /** The buffer holds these bits, and zeros behind them. */
  ghost predicate Holds(d: seq<byte>, w: bits) {
    |w| <= 8 * |d| && BytesBits(d) == w + Zeros(8 * |d| - |w|)
  }

  lemma ZerosSplit(m: nat, n: nat)
    ensures Zeros(m) + Zeros(n) == Zeros(m + n)
  {}

  /** The bits of a byte above the lowest s. */
  function Upper(c: byte, s: nat): (h: nat)
    ensures h == c / Pow2(s)
  {
    DivModSplit(c, Pow2(s));
    c / Pow2(s)
  }

  /** A byte spread over two: its upper bits below the bits already there, its lower bits at the top of the next. */
  lemma SpreadByte(a: nat, c: byte, s: nat)
    requires 0 < s < 8 && a < Pow2(s)
    ensures BitsOf(Scale(a, 8 - s), 8) == BitsOf(a, s) + Zeros(8 - s)
    ensures Or(Scale(a, 8 - s), Upper(c, s)) < 256
    ensures BitsOf(Or(Scale(a, 8 - s), Upper(c, s)), 8) + BitsOf(Scale(c, 8 - s) % 256, 8)
         == (BitsOf(a, s) + BitsOf(c, 8)) + Zeros(8 - s)
  {
    hide *;
    var t, hi := 8 - s, c / Pow2(s);
    ZerosIs(t);
    HighPart(c, s);
    WordOfTwo(a, hi, s);
    OrDisjoint(a, hi, t);
    ScaledBits(a, 0, s, t);
    ScaledBits(a, hi, s, t);
    ScaledBits(c, 0, s, t);
    BitsOfMod(Scale(c, t), 8);
    TopField(c, s, t);
    Regroup(BitsOf(a, s), BitsOf(hi, t), BitsOf(c, s), Zeros(t));
  }

  lemma Regroup(a: bits, h: bits, l: bits, z: bits)
    ensures (a + h) + (l + z) == (a + (h + l)) + z
  {
    Assoc(a, h, l + z);
    Assoc(h, l, z);
    Assoc(a, h + l, z);
  }

  lemma {:induction false} ZerosIs(n: nat)
    ensures Zeros(n) == BitsOf(0, n)
  {
    if n > 0 {
      ZerosIs(n - 1);
      assert Zeros(n) == Zeros(n - 1) + [false];
    }
  }

  lemma HighPart(c: byte, s: nat)
    requires s < 8
    ensures Pow2(8) == 256 && 0 <= c / Pow2(s) < Pow2(8 - s) && Upper(c, s) % Pow2(8 - s) == Upper(c, s)
    ensures 8 - s + s == 8 && s + (8 - s) == 8
  {
    Pow2Values();
    Pow2Add(8 - s, s);
    DivModSplit(c, Pow2(s));
    if c / Pow2(s) >= Pow2(8 - s) { MulMono(Pow2(8 - s), c / Pow2(s), Pow2(s)); }
    DivModUnique(c / Pow2(s), 0, Pow2(8 - s), c / Pow2(s));
  }

  lemma WordOfTwo(a: nat, hi: nat, s: nat)
    requires s < 8 && a < Pow2(s) && hi < Pow2(8 - s)
    ensures Scale(a, 8 - s) + hi < 256
  {
    Pow2Values();
    Pow2Add(s, 8 - s);
    MulMono(a + 1, Pow2(s), Pow2(8 - s));
    Spread(0, 0, a, Pow2(8 - s));
  }

  /** Where the bits held end: whole bytes, one started byte, zeros. */
  lemma Dissect(d: seq<byte>, w: bits, k: nat, s: nat)
    requires Holds(d, w) && |w| == 8 * k + s && 0 < s < 8 && k + 1 < |d|
    ensures BytesBits(d[..k]) == w[..8 * k]
    ensures BitsOf(d[k], 8) == w[8 * k..] + Zeros(8 - s) && d[k] == Scale(ValueOf(w[8 * k..]), 8 - s)
    ensures BytesBits(d[k + 2..]) == Zeros(8 * (|d| - k - 2))
  {
    hide BytesBits, BitsOf, ValueOf, Scale, Pow2, Or, Zeros;
    var p, x, q := d[..k], d[k], d[k + 2..];
    assert d == p + [x] + [d[k + 1]] + q;
    BitsAround(p, x, d[k + 1], q);
    ZerosSplit(8 - s, 8);
    ZerosSplit(16 - s, 8 * |q|);
    var all := BytesBits(d);
    assert all == w + (Zeros(8 - s) + Zeros(8) + Zeros(8 * |q|));
    assert BytesBits(p) == all[..8 * k] && BitsOf(x, 8) == all[8 * k..8 * k + 8] && BytesBits(q) == all[8 * k + 16..];
    assert BitsOf(x, 8) == w[8 * k..] + Zeros(8 - s);
    StartedByte(x, w[8 * k..], s);
  }

  lemma StartedByte(x: byte, top: bits, s: nat)
    requires 0 < s < 8 && |top| == s && BitsOf(x, 8) == top + Zeros(8 - s)
    ensures x == Scale(ValueOf(top), 8 - s)
  {
    hide *;
    var a := ValueOf(top);
    ZerosIs(8 - s);
    ValueBound(top);
    BitsOfValueOf(top);
    ScaledBits(a, 0, s, 8 - s);
    HighPart(0, s);
    WordOfTwo(a, 0, s);
    ValueOfBitsOf(x, 8);
    ValueOfBitsOf(Scale(a, 8 - s), 8);
  }

  lemma HoldsIs(d: seq<byte>, w: bits, n: nat)
    requires BytesBits(d) == w + Zeros(n)
    ensures Holds(d, w)
  {
    assert |BytesBits(d)| == 8 * |d|;
  }

  lemma BitsAround(p: seq<byte>, x: byte, y: byte, q: seq<byte>)
    ensures BytesBits(p + [x] + [y] + q) == BytesBits(p) + BitsOf(x, 8) + BitsOf(y, 8) + BytesBits(q)
  {
    BytesBitsConcat(p + [x] + [y], q);
    BytesBitsConcat(p + [x], [y]);
    BytesBitsConcat(p, [x]);
    BytesBitsOne(x);
    BytesBitsOne(y);
  }

  lemma HoldsJoined(d: seq<byte>, a: bits, x: bits, y: bits, q: bits, w: bits, z: nat, n: nat)
    requires BytesBits(d) == a + x + y + q && a + (x + y) == w + Zeros(z) && q == Zeros(n)
    ensures Holds(d, w)
  {
    hide *;
    Assoc(a, x, y);
    Assoc(w, Zeros(z), q);
    ZerosSplit(z, n);
    HoldsIs(d, w, z + n);
  }

  /** Two neighbouring bytes replaced. */
  function Put2(d: seq<byte>, k: nat, x: byte, y: byte): (r: seq<byte>)
    requires k + 1 < |d|
    ensures |r| == |d|
  {
    d[k := x][k + 1 := y]
  }

  lemma AppendByte(d: seq<byte>, w: bits, k: nat, s: nat, c: byte)
    requires Holds(d, w) && |w| == 8 * k + s && 0 < s < 8 && k + 1 < |d|
    ensures 0 <= c / Pow2(s) && 0 <= Or(d[k], c / Pow2(s)) < 256 && 0 <= Scale(c, 8 - s) % 256 < 256
    ensures Holds(Put2(d, k, Or(d[k], c / Pow2(s)), Scale(c, 8 - s) % 256), w + BitsOf(c, 8))
  {
    hide BytesBits, BitsOf, ValueOf, Scale, Pow2, Or, Holds;
    Dissect(d, w, k, s);
    var a := ValueOf(w[8 * k..]);
    ValueBound(w[8 * k..]);
    BitsOfValueOf(w[8 * k..]);
    SpreadByte(a, c, s);
    HighPart(c, s);
    var x, y := Or(d[k], c / Pow2(s)), Scale(c, 8 - s) % 256;
    var w' := w + BitsOf(c, 8);
    assert w == w[..8 * k] + w[8 * k..];
    Assoc(w[..8 * k], w[8 * k..], BitsOf(c, 8));
    Assoc(w[..8 * k], w[8 * k..] + BitsOf(c, 8), Zeros(8 - s));
    assert Put2(d, k, x, y) == d[..k] + [x] + [y] + d[k + 2..];
    BitsAround(d[..k], x, y, d[k + 2..]);
    HoldsJoined(Put2(d, k, x, y), BytesBits(d[..k]), BitsOf(x, 8), BitsOf(y, 8), BytesBits(d[k + 2..]), w', 8 - s,
                8 * (|d| - k - 2));
  }

  /** Replacing whole bytes behind the bits held. */
  lemma AppendBytes(d: seq<byte>, w: bits, k: nat, src: seq<byte>)
    requires Holds(d, w) && |w| == 8 * k && k + |src| <= |d|
    ensures Holds(d[..k] + src + d[k + |src|..], w + BytesBits(src))
  {
    hide *;
    var n := |src|;
    var p, q := d[..k], d[k + n..];
    WholeBytes(d, w, k, n);
    BytesBitsConcat(p + src, q);
    BytesBitsConcat(p, src);
    HoldsIs(p + src + q, w + BytesBits(src), 8 * |q|);
  }

  lemma WholeBytes(d: seq<byte>, w: bits, k: nat, n: nat)
    requires Holds(d, w) && |w| == 8 * k && k + n <= |d|
    ensures BytesBits(d[..k]) == w && BytesBits(d[k + n..]) == Zeros(8 * |d[k + n..]|)
  {
    hide BytesBits;
    var p, m, q := d[..k], d[k..k + n], d[k + n..];
    assert d == p + m + q;
    BytesBitsConcat(p + m, q);
    BytesBitsConcat(p, m);
    ZerosSplit(8 * n, 8 * |q|);
    var all := BytesBits(d);
    assert all == w + Zeros(8 * n) + Zeros(8 * |q|);
    assert BytesBits(p) == all[..8 * k] && BytesBits(q) == all[8 * (k + n)..];
  }

  /** The bits held may be cut where only zeros follow. */
  lemma HoldsLess(d: seq<byte>, w: bits, n: nat)
    requires Holds(d, w + Zeros(n))
    ensures Holds(d, w)
  {
    hide BytesBits;
    var rest := 8 * |d| - |w| - n;
    Assoc(w, Zeros(n), Zeros(rest));
    ZerosSplit(n, rest);
  }

  /** Source bits: whole bytes whose last one is padded with zeros. */
  ghost predicate Padded(src: seq<byte>, nBits: nat) {
    |src| == (nBits + 7) / 8 && BytesBits(src)[nBits..] == Zeros(8 * |src| - nBits)
  }

  /** Appends nBits bits of src behind the dstBitOffset bits w that the first `end` bytes hold. Everything behind them
      must be zero, and stays zero. */
  method Append(dst: array<byte>, dstBitOffset: nat, src: seq<byte>, nBits: nat, ghost w: bits, ghost end: nat)
    requires end <= dst.Length && |w| == dstBitOffset && |src| == (nBits + 7) / 8
    requires dstBitOffset / 8 + |src| + (if dstBitOffset % 8 == 0 then 0 else 1) <= end
    modifies dst
    ensures old(Holds(dst[..end], w)) && Padded(src, nBits) ==> Holds(dst[..end], w + BytesBits(src)[..nBits])
  {
    hide BytesBits, BitsOf, Holds, Or, Scale, Pow2, Zeros;
    ghost var held := Holds(dst[..end], w) && Padded(src, nBits);
    if nBits == 0 {
      assert w + BytesBits(src)[..0] == w;
      return;
    }
    var byteOff, shift := dstBitOffset / 8, dstBitOffset % 8;
    if held { PadBack(src, nBits, w); }
    if shift == 0 {
      if held { AppendBytes(dst[..end], w, byteOff, src); }
      ghost var before := dst[..end];
      CopyBytes(dst, byteOff, src);
      assert dst[..end] == before[..byteOff] + src + before[byteOff + |src|..];
    } else {
      AppendShifted(dst, byteOff, shift, src, w, end);
    }
    if held { HoldsLess(dst[..end], w + BytesBits(src)[..nBits], 8 * |src| - nBits); }
  }

  lemma PadBack(src: seq<byte>, nBits: nat, w: bits)
    requires Padded(src, nBits)
    ensures w + BytesBits(src) == (w + BytesBits(src)[..nBits]) + Zeros(8 * |src| - nBits)
  {
    hide BytesBits, Zeros;
    var all := BytesBits(src);
    assert all == all[..nBits] + all[nBits..];
    Assoc(w, all[..nBits], all[nBits..]);
  }

  /** Every source byte goes to two neighbouring bytes. */
  method AppendShifted(dst: array<byte>, byteOff: nat, shift: nat, src: seq<byte>, ghost w: bits, ghost end: nat)
    requires end <= dst.Length && |w| == 8 * byteOff + shift && 0 < shift < 8 && byteOff + |src| + 1 <= end
    modifies dst
    ensures old(Holds(dst[..end], w)) ==> Holds(dst[..end], w + BytesBits(src))
  {
    hide BytesBits, BitsOf, Holds, Or, Scale, Pow2, Zeros;
    ghost var held := Holds(dst[..end], w);
    NoBytes(w, src);
    for i := 0 to |src|
      invariant held ==> Holds(dst[..end], w + BytesBits(src[..i]))
    {
      ghost var now, before := w + BytesBits(src[..i]), dst[..end];
      if held { AppendByte(before, now, byteOff + i, shift, src[i]); }
      assert dst[byteOff + i] == before[byteOff + i];
      SpreadFits(dst[byteOff + i], src[i], shift);
      dst[byteOff + i] := Or(dst[byteOff + i], src[i] / Pow2(shift));
      dst[byteOff + i + 1] := Scale(src[i], 8 - shift) % 256;
      assert dst[..end] == Put2(before, byteOff + i, dst[byteOff + i], dst[byteOff + i + 1]);
      assert src[..i + 1] == src[..i] + [src[i]];
      BytesBitsConcat(src[..i], [src[i]]);
      BytesBitsOne(src[i]);
      Assoc(w, BytesBits(src[..i]), BitsOf(src[i], 8));
    }
    assert src[..|src|] == src;
  }

  lemma SpreadFits(x: byte, c: byte, s: nat)
    requires 0 < s < 8
    ensures 0 <= c / Pow2(s) && 0 <= Or(x, c / Pow2(s)) < 256 && 0 <= Scale(c, 8 - s) % 256 < 256
  {
    Pow2Values();
    HighPart(c, s);
    Pow2Mono(8 - s, 8);
    OrBound(x, c / Pow2(s), 8);
  }

  lemma NoBytes(w: bits, src: seq<byte>)
    ensures w + BytesBits(src[..0]) == w
  {}

  method CopyBytes(dst: array<byte>, at: nat, src: seq<byte>)
    requires at + |src| <= dst.Length
    modifies dst
    ensures dst[..] == old(dst[..at]) + src + old(dst[at + |src|..])
  {
    for i := 0 to |src|
      invariant forall k :: 0 <= k < at ==> dst[k] == old(dst[k])
      invariant forall k :: at <= k < at + i ==> dst[k] == src[k - at]
      invariant forall k :: at + i <= k < dst.Length ==> dst[k] == old(dst[k])
    {
      dst[at + i] := src[i];
    }
  }

  // ---------- bits taken from the wrong end of a byte ----------

  /** The low bits of a byte whose pending bits stand at its top. */
  ghost function LowBits(p: bits): (q: bits)
    requires |p| < 8
    ensures |q| == |p|
  {
    (p + Zeros(8 - |p|))[8 - |p|..]
  }

  lemma {:induction false} ShiftedAlike(p: bits, k: nat, i: nat)
    requires 0 < k && |p| <= 8 && i <= |p| && k + |p| == 8
    requires forall j :: 0 <= j < |p| ==> p[j] == (j + k < |p| && p[j + k])
    ensures forall j :: i <= j < |p| ==> !p[j]
    decreases |p| - i
  {
    if i < |p| {
      ShiftedAlike(p, k, i + 1);
      assert p[i] == (i + k < |p| && p[i + k]);
    }
  }

  /** They are the pending bits only when those are all zero. */
  lemma LowBitsSame(p: bits)
    requires |p| < 8
    ensures LowBits(p) == p <==> forall i :: 0 <= i < |p| ==> !p[i]
  {
    var k, n := 8 - |p|, |p|;
    assert forall i :: 0 <= i < n ==> LowBits(p)[i] == (i + k < n && p[i + k]);
    if LowBits(p) == p { ShiftedAlike(p, k, 0); }
  }
}
