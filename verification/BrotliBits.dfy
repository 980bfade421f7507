/** Brotli's bit reader and writer: a 64-bit register, lowest bit first, one byte at a time. */
module BrotliBits {
  import opened Bits
  import opened LsbBits
  import opened Accumulator

  class BitReader {
    const src: seq<byte>
    var pos: nat
    var bits_: word
    var bitCount: nat
    var error: bool

    ghost predicate Valid()
      reads this
    {
      pos <= |src| && bitCount <= 48 && Harmless(bits_, bitCount, src[pos..])
    }

    /** The bits not read yet. */
    ghost function Rest(): bits
      requires Valid()
      reads this
    {
      Ahead(bits_, bitCount, src[pos..])
    }

    constructor (src: seq<byte>)
      ensures Valid() && this.src == src && Rest() == LsbStream(src) && !error
    {
      this.src := src;
      pos, bits_, bitCount, error := 0, Zeros(64), 0, false;
      new;
      assert src[0..] == src && Zeros(64)[..0] + LsbStream(src) == LsbStream(src);
    }

    function AvailableBits(): nat
      requires pos <= |src|
      reads this
    {
      bitCount + (|src| - pos) * 8
    }

    /** Loads bytes until `need` bits are pending; an error when the input has fewer. */
    method Fill(need: nat) returns (ok: bool)
      requires Valid() && need <= 32
      modifies this
      ensures Valid() && Rest() == old(Rest()) && (ok <==> |Rest()| >= need) && error == (old(error) || !ok)
      ensures ok ==> bitCount >= need
    {
      hide LsbStream, Ahead, Harmless, Or, Shl;
      while bitCount < need && pos < |src|
        invariant Valid() && Rest() == old(Rest()) && error == old(error)
        invariant bitCount <= 40 || bitCount == old(bitCount)
        decreases |src| - pos
      {
        var b := ByteWord(src[pos]);
        OneByteLoad(bits_, bitCount, src[pos..], b);
        assert src[pos..][1..] == src[pos + 1..];
        bits_ := Or(bits_, Shl(b, bitCount));
        pos := pos + 1;
        bitCount := bitCount + 8;
      }
      RestLength(bits_, bitCount, src[pos..]);
      if bitCount < need {
        error := true;
        return false;
      }
      return true;
    }

    /** Reads n bits; 0 and an error when the input has fewer. */
    method ReadBits(n: nat) returns (v: nat)
      requires Valid() && n <= 32
      modifies this
      ensures Valid() && v < Pow2(n)
      ensures |old(Rest())| >= n ==>
                v == NumberOf(old(Rest())[..n]) && Rest() == old(Rest())[n..] && error == old(error)
      ensures |old(Rest())| < n ==> v == 0 && error && Rest() == old(Rest())
    {
      hide LsbStream, Harmless;
      if n == 0 {
        assert Rest()[..0] == [] && Rest()[0..] == Rest();
        return 0;
      }
      var ok := Fill(n);
      if !ok { return 0; }
      v := Masked(bits_, n);
      assert bits_[..n] == Rest()[..n];
      Discard(bits_, bitCount, src[pos..], n);
      bits_ := Shr(bits_, n);
      bitCount := bitCount - n;
    }

    method SetError()
      requires Valid()
      modifies `error
      ensures Valid() && error && Rest() == old(Rest())
    {
      error := true;
    }

    /** The next n pending bits, not consumed. */
    function Peek(n: nat): (v: nat)
      requires Valid() && n <= bitCount
      reads this
      ensures v < Pow2(n) && n <= |Rest()| && v == NumberOf(Rest()[..n])
    {
      assert bits_[..n] == Rest()[..n];
      Masked(bits_, n)
    }
  }

  lemma RestLength(w: word, cnt: nat, bytes: seq<byte>)
    requires cnt <= 64
    ensures |Ahead(w, cnt, bytes)| == cnt + 8 * |bytes|
  {}

  class BitWriter {
    const dst: array<byte>
    var pos: nat
    var bits_: word
    var bitCount: nat
    var overflow: bool
    // Every bit accepted so far.
    ghost var written: bits

    ghost predicate Valid()
      reads this, dst
    {
      && pos <= dst.Length && bitCount < 8 && (forall i :: bitCount <= i < 64 ==> !bits_[i])
      && written == LsbStream(dst[..pos]) + bits_[..bitCount]
    }

    lemma Fits()
      requires Valid()
      ensures |written| < 8 * dst.Length + 8
    {}

    constructor (dst: array<byte>)
      ensures Valid() && this.dst == dst && written == [] && !overflow && pos == 0
    {
      this.dst := dst;
      pos, bits_, bitCount, overflow, written := 0, Zeros(64), 0, false, [];
    }

    /** Appends the low n bits of value; fails when the buffer is full. */
    method WriteBits(value: nat, n: nat) returns (ok: bool)
      requires Valid() && n < 32
      modifies this, dst
      ensures ok <==> |old(written)| + n < 8 * dst.Length + 8
      ensures ok ==> Valid() && written == old(written) + LsbOf(value, n) && overflow == old(overflow)
      ensures !ok ==> overflow
    {
      hide LsbStream, LsbOf, Or, Shl;
      if n == 0 {
        NoField(written, value);
        return true;
      }
      ghost var goal := written + LsbOf(value, n);
      var field := FieldWord(value, n);
      AppendedField(bits_, bitCount, value, n);
      Assoc(LsbStream(dst[..pos]), bits_[..bitCount], LsbOf(value, n));
      bits_ := Or(bits_, Shl(field, bitCount));
      bitCount := bitCount + n;
      while bitCount >= 8
        invariant pos <= dst.Length && bitCount <= 40 && (forall i :: bitCount <= i < 64 ==> !bits_[i])
        invariant goal == LsbStream(dst[..pos]) + bits_[..bitCount] && overflow == old(overflow)
        invariant |goal| == 8 * pos + bitCount
      {
        if pos >= dst.Length {
          overflow := true;
          return false;
        }
        var c: byte := LowByte(bits_);
        ghost var before, w, k := dst[..pos], bits_, bitCount;
        dst[pos] := c;
        pos := pos + 1;
        assert dst[..pos] == before + [c];
        OneByteOut(before, c, w, k);
        bits_ := Shr(bits_, 8);
        bitCount := bitCount - 8;
      }
      written := goal;
      return true;
    }
  }

  lemma NoField(w: bits, value: nat)
    ensures w + LsbOf(value, 0) == w
  {}

  /** A number at the low end of a word. */
  function FieldWord(value: nat, n: nat): word
    requires n <= 64
  {
    LsbOf(value, n) + Zeros(64 - n)
  }

  lemma AppendedField(w: word, cnt: nat, value: nat, n: nat)
    requires cnt + n <= 64 && forall i :: cnt <= i < 64 ==> !w[i]
    ensures var w' := Or(w, Shl(FieldWord(value, n), cnt));
            w'[..cnt + n] == w[..cnt] + LsbOf(value, n) && forall i :: cnt + n <= i < 64 ==> !w'[i]
  {
    hide LsbOf;
  }

  function LowByte(w: word): (c: byte)
  {
    NumberBound(w[..8]);
    Pow2Values();
    NumberOf(w[..8])
  }

  lemma OneByteOut(d: seq<byte>, c: byte, w: word, cnt: nat)
    requires 8 <= cnt <= 64 && c == LowByte(w)
    ensures LsbStream(d) + w[..cnt] == LsbStream(d + [c]) + Shr(w, 8)[..cnt - 8]
    ensures (forall i :: cnt <= i < 64 ==> !w[i]) ==> forall i :: cnt - 8 <= i < 64 ==> !Shr(w, 8)[i]
  {
    hide LsbStream, LsbOf;
    LsbOfNumber(w[..8]);
    StreamConcat(d, [c]);
    StreamOne(c);
    assert w[..cnt] == w[..8] + Shr(w, 8)[..cnt - 8];
    Assoc(LsbStream(d), w[..8], Shr(w, 8)[..cnt - 8]);
  }
}
