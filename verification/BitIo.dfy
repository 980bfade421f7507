/** The bit writer and the bit reader of bzip2: 64-bit accumulators over a byte buffer, most significant bit first. */
module BitIo {
  import opened Bits

  // 64-bit words wrap at this bound.
  const WORD64: nat := 0x1_0000_0000_0000_0000

  // What read_bits returns when the input has ended.
  const NO_BITS: nat := 0xFFFF_FFFF

  // ---------- words ----------

  /** Bitwise or. */
  function Or(a: nat, b: nat): nat
    decreases a + b
  {
    if a == 0 then b else if b == 0 then a
    else 2 * Or(a / 2, b / 2) + (if a % 2 == 1 || b % 2 == 1 then 1 else 0)
  }

  /** a shifted left by k bits, without a bound. */
  function Scale(a: nat, k: nat): nat { a * Pow2(k) }

  /** Or-ing a k-bit field into k zero bits adds it. */
  lemma {:induction false} OrDisjoint(a: nat, b: nat, k: nat)
    requires b < Pow2(k)
    ensures Or(Scale(a, k), b) == Scale(a, k) + b
    decreases k
  {
    if k == 0 {
      assert Scale(a, 0) == a;
    } else {
      MulAssoc(a, 2, Pow2(k - 1));
      assert Scale(a, k) == 2 * Scale(a, k - 1);
      var m := Scale(a, k - 1);
      OrDisjoint(a, b / 2, k - 1);
      assert (2 * m) / 2 == m && (2 * m) % 2 == 0;
    }
  }

  /** Left shift of a 64-bit word. */
  function Shl(a: nat, k: nat): nat { Scale(a, k) % WORD64 }

  lemma ModMultiple(a: nat, p: nat, w: nat)
    requires p > 0 && w > 0
    ensures w * p > 0 && a * p % (w * p) == a % w * p && a % w < w
  {
    DivModSplit(a, w);
    var q, r := a / w, a % w;
    MulMono(1, w, p);
    MulMono(r + 1, w, p);
    Spread(q, w, r, p);
    DivModUnique(a * p, q, w * p, r * p);
  }

  lemma Spread(q: nat, w: nat, r: nat, p: nat)
    ensures (q * w + r) * p == q * (w * p) + r * p
    ensures 0 <= r * p && (r + 1) * p == r * p + p
  {
    MulAssoc(q, w, p);
  }

  /** A shifted word keeps k zero bits at its low end. */
  lemma ShlMultiple(a: nat, k: nat) returns (h: nat)
    requires k <= 64
    ensures Shl(a, k) == Scale(h, k) && h < Pow2(64 - k)
  {
    Pow2Values();
    Pow2Add(64 - k, k);
    ModMultiple(a, Pow2(k), Pow2(64 - k));
    h := a % Pow2(64 - k);
  }

  lemma WordIs()
    ensures WORD64 == Pow2(64)
  {
    Pow2Values();
  }

  /** The low bits of a word are those of the number it was cut from. */
  lemma LowBitsOfWord(x: nat, v: nat, m: nat)
    requires m <= 64
    ensures BitsOf(x % WORD64 + v, m) == BitsOf(x + v, m)
  {
    hide *;
    WordIs();
    Pow2Add(64 - m, m);
    var q := x / WORD64;
    DivModSplit(x, WORD64);
    MulAssoc(q, Pow2(64 - m), Pow2(m));
    BitsOfHigh(x % WORD64 + v, q * Pow2(64 - m), m);
  }

  /** Or-ing a shifted word with a field of the shifted-in width appends the field. */
  lemma AppendField(a: nat, w: nat, v: nat, k: nat)
    requires k <= 64 && w + k <= 64 && v < Pow2(k)
    ensures Or(Shl(a, k), v) < WORD64
    ensures BitsOf(Or(Shl(a, k), v), w + k) == BitsOf(a, w) + BitsOf(v, k)
  {
    hide *;
    var h := ShlMultiple(a, k);
    var x := Scale(a, k);
    ScaledBits(a, v, w, k);
    ShlIs(a, k);
    OrDisjoint(h, v, k);
    LowBitsOfWord(x, v, w + k);
    WordBound(h, v, k);
  }

  lemma ShlIs(a: nat, k: nat)
    requires k <= 64
    ensures Shl(a, k) == Scale(a, k) % WORD64
  {}

  lemma ScaledBits(a: nat, v: nat, w: nat, k: nat)
    requires v < Pow2(k)
    ensures BitsOf(Scale(a, k) + v, w + k) == BitsOf(a, w) + BitsOf(v, k)
  {
    BitsOfSplit(a, v, w, k);
  }

  lemma WordBound(h: nat, v: nat, k: nat)
    requires k <= 64 && h < Pow2(64 - k) && v < Pow2(k)
    ensures Scale(h, k) + v < WORD64
  {
    Pow2Values();
    Pow2Add(64 - k, k);
    MulMono(h + 1, Pow2(64 - k), Pow2(k));
    Spread(0, 0, h, Pow2(k));
  }

  /** The top byte of the pending bits, and the bits below it. */
  lemma TopByte(buf: nat, k: nat)
    ensures BitsOf(buf, k + 8) == BitsOf(buf / Pow2(k) % 256, 8) + BitsOf(buf, k)
  {
    var d := Pow2(k);
    DivModSplit(buf, d);
    BitsOfSplit(buf / d, buf % d, 8, k);
    assert k + 8 == 8 + k;
    BitsOfMod(buf, k);
    Pow2Values();
    BitsOfMod(buf / d, 8);
  }

  lemma {:induction false} OrBound(a: nat, b: nat, k: nat)
    requires a < Pow2(k) && b < Pow2(k)
    ensures Or(a, b) < Pow2(k)
    decreases k
  {
    if k > 0 && a > 0 && b > 0 { OrBound(a / 2, b / 2, k - 1); }
  }

  /** A field that fits is appended to the bits before it; any other still leaves a 64-bit word. */
  lemma WrittenField(done: bits, buf: nat, w: nat, v: nat, k: nat)
    requires w < 8 && k <= 32 && buf < WORD64 && v < 0x1_0000_0000
    ensures Or(Shl(buf, k), v) < WORD64
    ensures v < Pow2(k) ==>
              done + BitsOf(Or(Shl(buf, k), v), w + k) == (done + BitsOf(buf, w)) + BitsOf(v, k)
  {
    Pow2Values();
    OrBound(Shl(buf, k), v, 64);
    if v < Pow2(k) {
      AppendField(buf, w, v, k);
      Assoc(done, BitsOf(buf, w), BitsOf(v, k));
    }
  }

  /** Padding the pending bits with zeros gives the last byte. */
  lemma PaddedByte(stream: seq<byte>, buf: nat, w: nat, c: byte)
    requires 0 < w < 8 && c == Scale(buf, 8 - w) % 256
    ensures BytesBits(stream + [c]) == (BytesBits(stream) + BitsOf(buf, w)) + BitsOf(0, 8 - w)
  {
    ScaledBits(buf, 0, w, 8 - w);
    var x := Scale(buf, 8 - w);
    assert Pow2(8) == 256;
    hide *;
    BitsOfMod(x, 8);
    BytesBitsConcat(stream, [c]);
    BytesBitsOne(c);
    Assoc(BytesBits(stream), BitsOf(buf, w), BitsOf(0, 8 - w));
  }

  // ---------- the writer ----------

  class Writer {
    const dst: array<byte>
    var pos: nat
    var buf: nat
    var bufBits: nat
    var totalBits: nat
    // Every byte emitted so far, also those that found no room, and every bit written so far.
    ghost var stream: seq<byte>
    ghost var written: bits

    ghost predicate Valid()
      reads this, dst
    {
      && bufBits < 8 && buf < WORD64 && |stream| == pos
      && (forall k :: 0 <= k < pos && k < dst.Length ==> dst[k] == stream[k])
      && written == BytesBits(stream) + BitsOf(buf, bufBits)
      && totalBits == |written|
    }

    constructor (dst: array<byte>)
      ensures Valid() && this.dst == dst && written == [] && pos == 0 && bufBits == 0
    {
      this.dst := dst;
      pos, buf, bufBits, totalBits := 0, 0, 0, 0;
      stream, written := [], [];
    }

    /** Emits the whole bytes among the pending bits. */
    method EmitBytes()
      requires bufBits < 64 && buf < WORD64 && |stream| == pos
      requires forall k :: 0 <= k < pos && k < dst.Length ==> dst[k] == stream[k]
      requires totalBits == |stream| * 8 + bufBits
      modifies `pos, `bufBits, `stream, `written, dst
      ensures Valid()
      ensures written == BytesBits(old(stream)) + BitsOf(buf, old(bufBits))
      ensures old(stream) <= stream
    {
      hide BitsOf, BytesBits;
      ghost var all := BytesBits(stream) + BitsOf(buf, bufBits);
      while bufBits >= 8
        invariant buf < WORD64 && |stream| == pos
        invariant forall k :: 0 <= k < pos && k < dst.Length ==> dst[k] == stream[k]
        invariant BytesBits(stream) + BitsOf(buf, bufBits) == all
        invariant old(stream) <= stream
      {
        bufBits := bufBits - 8;
        var c: byte := buf / Pow2(bufBits) % 256;
        TopByte(buf, bufBits);
        BytesBitsConcat(stream, [c]);
        BytesBitsOne(c);
        Assoc(BytesBits(stream), BitsOf(c, 8), BitsOf(buf, bufBits));
        if pos < dst.Length { dst[pos] := c; }
        stream := stream + [c];
        pos := pos + 1;
      }
      written := all;
    }

    /** Appends the low nbits of value. A value that does not fit would also change bits pending before it. */
    method WriteBits(value: nat, nbits: nat)
      requires Valid() && nbits <= 32 && value < 0x1_0000_0000
      modifies this, dst
      ensures Valid() && |written| == |old(written)| + nbits
      ensures value < Pow2(nbits) ==> written == old(written) + BitsOf(value, nbits)
      ensures old(stream) <= stream
    {
      WrittenField(BytesBits(stream), buf, bufBits, value, nbits);
      buf := Or(Shl(buf, nbits), value);
      bufBits := bufBits + nbits;
      totalBits := totalBits + nbits;
      EmitBytes();
    }

    /** Pads the last byte with zeros. */
    method Flush()
      requires Valid()
      modifies this, dst
      ensures Valid() && bufBits == 0
      ensures old(stream) <= stream
      ensures written == old(written) + BitsOf(0, (8 - old(bufBits)) % 8)
      ensures written == BytesBits(stream)
    {
      hide BitsOf, BytesBits, Scale, Pow2;
      if bufBits > 0 {
        ghost var pad := 8 - bufBits;
        var c: byte := Scale(buf, 8 - bufBits) % 256;
        PaddedByte(stream, buf, bufBits, c);
        if pos < dst.Length { dst[pos] := c; }
        stream := stream + [c];
        written := written + BitsOf(0, pad);
        pos := pos + 1;
        totalBits := totalBits + (8 - bufBits);
        buf, bufBits := 0, 0;
      }
      assert BytesBits(stream) + BitsOf(buf, 0) == BytesBits(stream);
    }

    predicate Ok()
      reads this
    {
      pos <= dst.Length
    }
  }

  // ---------- the reader ----------

  class Reader {
    const src: seq<byte>
    var pos: nat
    var buf: nat
    var bufBits: nat

    ghost predicate Valid()
      reads this
    {
      pos <= |src| && buf < WORD64 && bufBits <= 64
    }

    /** The unread bits: those in the accumulator and those of the bytes behind it. */
    ghost function Rest(): (b: bits)
      requires Valid()
      reads this
    {
      BitsOf(buf, bufBits) + BytesBits(src[pos..])
    }

    constructor (src: seq<byte>)
      ensures Valid() && this.src == src && Rest() == BytesBits(src)
    {
      this.src := src;
      pos, buf, bufBits := 0, 0, 0;
      new;
      assert src[0..] == src && BitsOf(0, 0) + BytesBits(src) == BytesBits(src);
    }

    /** Shifts one byte in. */
    method LoadByte()
      requires Valid() && bufBits <= 56 && pos < |src|
      modifies this
      ensures Valid() && bufBits == old(bufBits) + 8 && pos == old(pos) + 1
      ensures Rest() == old(Rest())
    {
      var c := src[pos];
      Pow2Values();
      AppendField(buf, bufBits, c, 8);
      assert src[pos..][1..] == src[pos + 1..];
      Assoc(BitsOf(buf, bufBits), BitsOf(c, 8), BytesBits(src[pos + 1..]));
      buf := Or(Shl(buf, 8), c);
      pos := pos + 1;
      bufBits := bufBits + 8;
    }

    /** Fills the accumulator from eight bytes at once, or byte by byte near the end. No bit is lost or added. */
    method Refill()
      requires Valid()
      modifies this
      ensures Valid() && Rest() == old(Rest())
    {
      hide BitsOf, BytesBits, Or, Shl, Pow2, ValueOf;
      if bufBits > 56 { return; }
      if pos + 8 <= |src| {
        LoadEight();
        return;
      }
      while bufBits <= 56 && pos < |src|
        invariant Valid() && Rest() == old(Rest())
      {
        LoadByte();
      }
    }

    /** Loads as many of the next eight bytes as there is room for. */
    method LoadEight()
      requires Valid() && bufBits <= 56 && pos + 8 <= |src|
      modifies this
      ensures Valid() && Rest() == old(Rest())
    {
      hide BitsOf, BytesBits, Or, Shl, Pow2, ValueOf;
      var slots := (64 - bufBits) / 8;
      var shift := slots * 8;
      var chunk := ValueOf(BytesBits(src[pos..pos + 8]));
      var field := chunk / Pow2(64 - shift);
      LoadedBits(src, pos, buf, bufBits, slots);
      buf := Or(if shift < 64 then Shl(buf, shift) else 0, field);
      pos := pos + slots;
      bufBits := bufBits + shift;
    }

    /** The next n pending bits, not consumed. */
    method Peek(n: nat) returns (v: nat)
      requires Valid() && n <= bufBits
      ensures v < Pow2(n) && n <= |Rest()| && v == ValueOf(Rest()[..n]) && BitsOf(v, n) == Rest()[..n]
    {
      TopField(buf, bufBits - n, n);
      v := buf / Pow2(bufBits - n) % Pow2(n);
      assert Rest() == BitsOf(v, n) + (BitsOf(buf, bufBits - n) + BytesBits(src[pos..]));
      ValueOfBitsOf(v, n);
    }

    /** Consumes n pending bits. */
    method Skip(n: nat)
      requires Valid() && n <= bufBits
      modifies `bufBits
      ensures Valid() && bufBits == old(bufBits) - n
      ensures n <= |old(Rest())| && Rest() == old(Rest())[n..]
    {
      TopField(buf, bufBits - n, n);
      bufBits := bufBits - n;
    }

    /** Consumes one bit, loading a byte when the accumulator is empty; -1 at the end of the input. */
    method NextBit() returns (bit: int)
      requires Valid()
      modifies this
      ensures Valid()
      ensures old(Rest()) == [] ==> bit == -1
      ensures old(Rest()) != [] ==> bit == (if old(Rest())[0] then 1 else 0) && Rest() == old(Rest())[1..]
    {
      if bufBits == 0 {
        if pos >= |src| { return -1; }
        LoadByte();
      }
      bit := Peek(1);
      assert Rest()[..1] == [Rest()[0]] && ValueOf([Rest()[0]]) == (if Rest()[0] then 1 else 0);
      Skip(1);
    }

    /** The next n bits as a number; NO_BITS, and nothing consumed, when fewer are left. */
    method ReadBits(n: nat) returns (v: nat)
      requires Valid() && n <= 24
      modifies this
      ensures Valid()
      ensures |old(Rest())| >= n ==>
                v == ValueOf(old(Rest())[..n]) && v < Pow2(n) && Rest() == old(Rest())[n..]
      ensures |old(Rest())| < n ==> v == NO_BITS == 0xFFFF_FFFF && Rest() == old(Rest())
    {
      while bufBits < n
        invariant Valid() && Rest() == old(Rest())
        decreases |src| - pos
      {
        if pos >= |src| {
          assert Rest() == BitsOf(buf, bufBits);
          return NO_BITS;
        }
        LoadByte();
      }
      v := Peek(n);
      Skip(n);
    }
  }

  /** The top n of n+k pending bits. */
  lemma TopField(buf: nat, k: nat, n: nat)
    ensures buf / Pow2(k) % Pow2(n) < Pow2(n)
    ensures BitsOf(buf, k + n) == BitsOf(buf / Pow2(k) % Pow2(n), n) + BitsOf(buf, k)
  {
    var d := Pow2(k);
    DivModSplit(buf, d);
    BitsOfSplit(buf / d, buf % d, n, k);
    assert k + n == n + k;
    BitsOfMod(buf, k);
    BitsOfMod(buf / d, n);
    DivModSplit(buf / d, Pow2(n));
  }

  /** Eight bytes as one big-endian number: its top bytes are the bytes loaded. */
  lemma LoadedField(src: seq<byte>, pos: nat, slots: nat)
    requires pos + 8 <= |src| && slots <= 8
    ensures var field := ValueOf(BytesBits(src[pos..pos + 8])) / Pow2(64 - slots * 8);
            && 0 <= field < Pow2(slots * 8)
            && BitsOf(field, slots * 8) == BytesBits(src[pos..pos + slots])
  {
    var a, b := src[pos..pos + slots], src[pos + slots..pos + 8];
    assert src[pos..pos + 8] == a + b;
    BytesBitsConcat(a, b);
    ValueConcat(BytesBits(a), BytesBits(b));
    ValueBound(BytesBits(a));
    ValueBound(BytesBits(b));
    DivModUnique(ValueOf(BytesBits(a + b)), ValueOf(BytesBits(a)), Pow2(64 - slots * 8), ValueOf(BytesBits(b)));
    BitsOfValueOf(BytesBits(a));
  }

  lemma OrNothing(v: nat)
    ensures Or(0, v) == v
  {}

  /** Loading the top `slots` bytes of a chunk moves them from the input into the accumulator. */
  lemma LoadedBits(src: seq<byte>, pos: nat, buf: nat, w: nat, slots: nat)
    requires pos + 8 <= |src| && w + slots * 8 <= 64 && (slots == 8 ==> w == 0)
    ensures var field := ValueOf(BytesBits(src[pos..pos + 8])) / Pow2(64 - slots * 8);
            0 <= field && (
            var buf' := Or(if slots < 8 then Shl(buf, slots * 8) else 0, field);
            && buf' < WORD64
            && BitsOf(buf', w + slots * 8) + BytesBits(src[pos + slots..]) == BitsOf(buf, w) + BytesBits(src[pos..]))
  {
    hide BitsOf, BytesBits, ValueOf, Pow2, Or, Shl;
    LoadedField(src, pos, slots);
    var field := ValueOf(BytesBits(src[pos..pos + 8])) / Pow2(64 - slots * 8);
    var load := BytesBits(src[pos..pos + slots]);
    if slots < 8 {
      AppendField(buf, w, field, slots * 8);
    } else {
      Pow2Values();
      OrNothing(field);
      assert BitsOf(buf, 0) == [];
      assert BitsOf(buf, 0) + BitsOf(field, 64) == BitsOf(field, 64);
    }
    assert src[pos..] == src[pos..pos + slots] + src[pos + slots..];
    BytesBitsConcat(src[pos..pos + slots], src[pos + slots..]);
    Assoc(BitsOf(buf, w), load, BytesBits(src[pos + slots..]));
  }
}
