/** The 128-bit register of inflate_fast: two 64-bit words, lowest bit first, in front of the unread bytes. */
module Accumulator {
  import opened Bits
  import opened LsbBits

  type word = b: bits | |b| == 64 witness Zeros(64)

  const DECODE_BITS: nat := 11

  function Shr(w: word, n: nat): word
    requires n <= 64
  {
    w[n..] + Zeros(n)
  }

  function Shl(w: word, n: nat): word
    requires n <= 64
  {
    Zeros(n) + w[..64 - n]
  }

  function Or(a: word, b: word): (c: word)
    ensures forall i :: 0 <= i < 64 ==> c[i] == (a[i] || b[i])
  {
    seq(64, i requires 0 <= i < 64 => a[i] || b[i])
  }

  /** The low bits of a word, as a number. */
  function Masked(w: word, n: nat): (v: nat)
    requires n <= 64
    ensures v < Pow2(n)
  {
    NumberBound(w[..n]);
    NumberOf(w[..n])
  }

  /** Eleven bits of the register from bit `off` on. */
  function Extract(lo: word, hi: word, off: nat): (v: nat)
    requires off <= 120
    ensures v < Pow2(DECODE_BITS)
  {
    if off + DECODE_BITS <= 64 then Masked(Shr(lo, off), DECODE_BITS)
    else if off >= 64 then Masked(Shr(hi, off - 64), DECODE_BITS)
    else Masked(Or(Shr(lo, off), Shl(hi, 64 - off)), DECODE_BITS)
  }

  lemma ExtractIs(lo: word, hi: word, off: nat)
    requires off + DECODE_BITS <= 128 && off <= 120
    ensures Extract(lo, hi, off) == NumberOf((lo + hi)[off..off + DECODE_BITS])
  {
    var all := (lo + hi)[off..off + DECODE_BITS];
    if off + DECODE_BITS <= 64 {
      assert Shr(lo, off)[..DECODE_BITS] == all;
    } else if off >= 64 {
      assert Shr(hi, off - 64)[..DECODE_BITS] == all;
    } else {
      assert Or(Shr(lo, off), Shl(hi, 64 - off))[..DECODE_BITS] == all;
    }
  }

  /** The register shifted right by n. */
  function Shifted(lo: word, hi: word, n: nat): (word, word)
    requires n <= 128
  {
    if n == 0 then (lo, hi)
    else if n < 64 then (Or(Shr(lo, n), Shl(hi, 64 - n)), Shr(hi, n))
    else (if n < 128 then Shr(hi, n - 64) else Zeros(64), Zeros(64))
  }

  lemma ShiftedIs(lo: word, hi: word, n: nat)
    requires n <= 128
    ensures Shifted(lo, hi, n).0 + Shifted(lo, hi, n).1 == (lo + hi)[n..] + Zeros(n)
  {
    if n == 0 {
      assert (lo + hi)[0..] + Zeros(0) == lo + hi;
    } else if n < 64 {
      var all := (lo + hi)[n..] + Zeros(n);
      assert Or(Shr(lo, n), Shl(hi, 64 - n)) == all[..64];
      assert Shr(hi, n) == all[64..];
    }
  }

  /** What the register and the unread bytes mean together: cnt bits of the register, then the bytes. */
  ghost function Ahead(reg: bits, cnt: nat, bytes: seq<byte>): (s: bits)
    requires cnt <= |reg|
  {
    reg[..cnt] + LsbStream(bytes)
  }

  /** Bits of the register beyond the cnt valid ones are zero or already the right ones. */
  ghost predicate Harmless(reg: bits, cnt: nat, bytes: seq<byte>)
    requires cnt <= |reg|
  {
    forall i :: cnt <= i < |reg| && reg[i] ==> i < |Ahead(reg, cnt, bytes)| && Ahead(reg, cnt, bytes)[i]
  }

  /** Loading eight bytes at the end of the valid bits of one word. */
  lemma LoadWord(lo: word, cnt: nat, bytes: seq<byte>, w: word, nb: nat)
    requires cnt <= 63 && |bytes| >= 8 && w == LsbStream(bytes[..8]) && nb == (63 - cnt) / 8
    requires Harmless(lo, cnt, bytes)
    ensures var lo' := Or(lo, Shl(w, cnt));
            && cnt + 8 * nb <= 63 && nb <= |bytes|
            && Ahead(lo', cnt + 8 * nb, bytes[nb..]) == Ahead(lo, cnt, bytes)
            && lo' == Ahead(lo, cnt, bytes)[..64]
  {
    var s, lo' := Ahead(lo, cnt, bytes), Or(lo, Shl(w, cnt));
    FirstEight(bytes, nb);
    assert forall i :: 0 <= i < 64 ==> s[cnt + i] == w[i];
    assert lo' == s[..64];
    assert s == s[..cnt + 8 * nb] + s[cnt + 8 * nb..];
  }

  lemma FirstEight(bytes: seq<byte>, nb: nat)
    requires |bytes| >= 8 && nb <= 8
    ensures LsbStream(bytes) == LsbStream(bytes[..8]) + LsbStream(bytes[8..])
    ensures LsbStream(bytes[nb..]) == LsbStream(bytes)[8 * nb..]
    ensures LsbStream(bytes)[..64] == LsbStream(bytes[..8])
  {
    hide LsbStream;
    assert bytes == bytes[..8] + bytes[8..] == bytes[..nb] + bytes[nb..];
    StreamConcat(bytes[..8], bytes[8..]);
    StreamConcat(bytes[..nb], bytes[nb..]);
  }

  /** A byte at the low end of a word. */
  function ByteWord(c: byte): word { LsbOf(c, 8) + Zeros(56) }

  lemma OneByteLoad(lo: word, cnt: nat, bytes: seq<byte>, w: word)
    requires cnt < 56 && |bytes| > 0 && w == ByteWord(bytes[0]) && Harmless(lo, cnt, bytes)
    ensures var lo' := Or(lo, Shl(w, cnt));
            Ahead(lo', cnt + 8, bytes[1..]) == Ahead(lo, cnt, bytes) && Harmless(lo', cnt + 8, bytes[1..])
  {
    var s, lo' := Ahead(lo, cnt, bytes), Or(lo, Shl(w, cnt));
    assert LsbStream(bytes) == LsbOf(bytes[0], 8) + LsbStream(bytes[1..]);
    forall i | 0 <= i < cnt + 8 ensures lo'[i] == s[i] {}
    assert lo'[..cnt + 8] == s[..cnt + 8];
    assert s == s[..cnt + 8] + s[cnt + 8..];
    forall i | cnt + 8 <= i < 64 && lo'[i] ensures i < |s| && s[i] { assert lo[i]; }
  }

  // ---------- the steps on the register ----------

  /** Loading one word in front of an arbitrary second word. */
  lemma LoadFirst(lo: word, hi: word, cnt: nat, bytes: seq<byte>, w: word)
    requires cnt <= 63 && |bytes| >= 8 && w == LsbStream(bytes[..8]) && Harmless(lo + hi, cnt, bytes)
    ensures var lo', nb := Or(lo, Shl(w, cnt)), (63 - cnt) / 8;
            && cnt + 8 * nb <= 63 && nb <= 8
            && Ahead(lo' + hi, cnt + 8 * nb, bytes[nb..]) == Ahead(lo + hi, cnt, bytes)
            && Harmless(lo' + hi, cnt + 8 * nb, bytes[nb..])
  {
    var s, lo', nb := Ahead(lo + hi, cnt, bytes), Or(lo, Shl(w, cnt)), (63 - cnt) / 8;
    assert (lo + hi)[..cnt] == lo[..cnt];
    forall i | cnt <= i < 64 && lo[i] ensures i < |s| && s[i] { assert (lo + hi)[i]; }
    LoadWord(lo, cnt, bytes, w, nb);
    assert (lo' + hi)[..cnt + 8 * nb] == lo'[..cnt + 8 * nb];
    forall i | cnt + 8 * nb <= i < 128 && (lo' + hi)[i] ensures i < |s| && s[i] {
      if i >= 64 { assert (lo + hi)[i]; }
    }
  }

  /** Loading the next word behind 56 to 63 valid bits. */
  lemma LoadSecond(lo: word, hi: word, cnt: nat, bytes: seq<byte>, w: word)
    requires 56 <= cnt <= 63 && |bytes| >= 8 && w == LsbStream(bytes[..8]) && Harmless(lo + hi, cnt, bytes)
    ensures var lo', hi', nb := Or(lo, Shl(w, cnt)), Shr(w, 64 - cnt), (127 - cnt) / 8;
            && nb == 8
            && Ahead(lo' + hi', cnt + 64, bytes[8..]) == Ahead(lo + hi, cnt, bytes)
            && Harmless(lo' + hi', cnt + 64, bytes[8..])
  {
    var s, lo', hi' := Ahead(lo + hi, cnt, bytes), Or(lo, Shl(w, cnt)), Shr(w, 64 - cnt);
    FirstEight(bytes, 8);
    forall i | cnt <= i < 64 && lo[i] ensures s[i] { assert (lo + hi)[i]; }
    assert forall i :: 0 <= i < 64 ==> s[cnt + i] == w[i];
    var first: bits, second: bits := lo', hi';
    var reg := first + second;
    forall i | 0 <= i < cnt + 64 ensures reg[i] == s[i] {
      if i < cnt { assert (lo + hi)[i] == s[i]; }
    }
    assert reg[..cnt + 64] == s[..cnt + 64];
    assert s == s[..cnt + 64] + s[cnt + 64..];
    assert s[cnt + 64..] == LsbStream(bytes)[64..];
  }

  /** Discarding valid bits. */
  lemma Discard(reg: bits, cnt: nat, bytes: seq<byte>, n: nat)
    requires n <= cnt <= |reg| && Harmless(reg, cnt, bytes)
    ensures var reg' := reg[n..] + Zeros(n);
            && Ahead(reg', cnt - n, bytes) == Ahead(reg, cnt, bytes)[n..]
            && Harmless(reg', cnt - n, bytes)
  {
    var s, reg' := Ahead(reg, cnt, bytes), reg[n..] + Zeros(n);
    assert reg'[..cnt - n] == reg[..cnt][n..];
    assert Ahead(reg', cnt - n, bytes) == s[n..];
    forall i | cnt - n <= i < |reg'| && reg'[i] ensures i < |s[n..]| && s[n..][i] {
      assert i < |reg| - n && reg[i + n];
    }
  }

  /** Giving back whole bytes that stand at the end of the valid bits. */
  lemma GiveBack(reg: bits, cnt: nat, src: seq<byte>, pos: nat, r: nat)
    requires 8 * r <= cnt <= |reg| && r <= pos <= |src| && Harmless(reg, cnt, src[pos..])
    requires reg[cnt - 8 * r..cnt] == LsbStream(src[pos - r..pos])
    ensures Ahead(reg, cnt - 8 * r, src[pos - r..]) == Ahead(reg, cnt, src[pos..])
    ensures Harmless(reg, cnt - 8 * r, src[pos - r..])
  {
    hide LsbStream;
    assert src[pos - r..] == src[pos - r..pos] + src[pos..];
    StreamConcat(src[pos - r..pos], src[pos..]);
    assert reg[..cnt] == reg[..cnt - 8 * r] + reg[cnt - 8 * r..cnt];
    Assoc(reg[..cnt - 8 * r], reg[cnt - 8 * r..cnt], LsbStream(src[pos..]));
    var s := Ahead(reg, cnt, src[pos..]);
    forall i | cnt - 8 * r <= i < |reg| && reg[i] ensures i < |s| && s[i] {
      if i < cnt { assert reg[..cnt][i] == s[i]; }
    }
  }

  /** The valid bits from `before` on are the bytes in front of pos. */
  ghost predicate Backed(reg: bits, cnt: nat, src: seq<byte>, pos: nat, before: nat) {
    && before <= cnt <= |reg| && pos <= |src| && cnt - before <= 8 * pos
    && reg[before..cnt] == LsbStream(src[..pos])[8 * pos - (cnt - before)..]
  }

  lemma BackedByLoad(reg: bits, reg': bits, cnt: nat, src: seq<byte>, pos: nat, before: nat, nb: nat)
    requires Backed(reg, cnt, src, pos, before) && pos + nb <= |src| && cnt + 8 * nb <= |reg'|
    requires Ahead(reg', cnt + 8 * nb, src[pos + nb..]) == Ahead(reg, cnt, src[pos..])
    ensures Backed(reg', cnt + 8 * nb, src, pos + nb, before)
  {
    hide LsbStream;
    var s, n := Ahead(reg, cnt, src[pos..]), cnt + 8 * nb;
    assert src[..pos + nb] == src[..pos] + src[pos..pos + nb] && src[pos..] == src[pos..pos + nb] + src[pos + nb..];
    StreamConcat(src[..pos], src[pos..pos + nb]);
    StreamConcat(src[pos..pos + nb], src[pos + nb..]);
    assert reg'[..n] == s[..n] == reg[..cnt] + LsbStream(src[pos..pos + nb]);
    assert reg'[before..n] == reg'[..n][before..] == reg[before..cnt] + LsbStream(src[pos..pos + nb]);
  }

  lemma BackedByDiscard(reg: bits, cnt: nat, src: seq<byte>, pos: nat, before: nat, n: nat)
    requires Backed(reg, cnt, src, pos, before) && n <= cnt
    ensures Backed(reg[n..] + Zeros(n), cnt - n, src, pos, if before > n then before - n else 0)
  {
    hide LsbStream;
    var reg', b := reg[n..] + Zeros(n), if before > n then before - n else 0;
    assert reg'[b..cnt - n] == reg[b + n..cnt];
    assert reg[b + n..cnt] == reg[before..cnt][b + n - before..];
  }

  /** The bytes given back are the last valid bits. */
  lemma BackedBytes(reg: bits, cnt: nat, src: seq<byte>, pos: nat, before: nat, r: nat)
    requires Backed(reg, cnt, src, pos, before) && 8 * r <= cnt - before
    ensures r <= pos && reg[cnt - 8 * r..cnt] == LsbStream(src[pos - r..pos])
  {
    hide LsbStream;
    assert src[..pos] == src[..pos - r] + src[pos - r..pos];
    StreamConcat(src[..pos - r], src[pos - r..pos]);
    assert reg[cnt - 8 * r..cnt] == reg[before..cnt][cnt - before - 8 * r..];
  }

  /** The register of the inner loop. */
  class Register {
    const src: seq<byte>
    var pos: nat
    var lo: word
    var hi: word
    var cnt: nat
    // How many of the valid bits were not read from src.
    ghost var before: nat

    ghost predicate Valid()
      reads this
    {
      && pos <= |src| && cnt <= 127 && Harmless(lo + hi, cnt, src[pos..])
      && before <= 56 && before <= cnt && (before > 0 ==> (cnt - before) % 8 == 0)
      && Backed(lo + hi, cnt, src, pos, before)
    }

    ghost function Rest(): bits
      requires cnt <= 127 && pos <= |src|
      reads this
    {
      Ahead(lo + hi, cnt, src[pos..])
    }

    constructor (src: seq<byte>, pos: nat, bits_: word, count: nat)
      requires pos <= |src| && count <= 63 && Harmless(bits_ + Zeros(64), count, src[pos..])
      requires count > 56 ==> pos > 0 && bits_[count - 8..count] == LsbOf(src[pos - 1], 8)
      ensures Valid() && this.src == src && this.pos == pos && cnt == count
      ensures Rest() == Ahead(bits_, count, src[pos..])
    {
      this.src, this.pos, lo, hi, cnt := src, pos, bits_, Zeros(64), count;
      before := if count > 56 then count - 8 else count;
      new;
      assert (lo + hi)[..count] == lo[..count];
      if count > 56 {
        assert src[..pos] == src[..pos - 1] + [src[pos - 1]];
        StreamConcat(src[..pos - 1], [src[pos - 1]]);
        StreamOne(src[pos - 1]);
      }
    }

    /** Eight bytes into the first word. */
    method Load1()
      requires Valid() && cnt <= 63 && pos + 8 <= |src|
      modifies this
      ensures Valid() && Rest() == old(Rest()) && 56 <= cnt <= 63
    {
      hide LsbStream, Ahead, Harmless, Backed, Or, Shl;
      var w := Load64(src, pos);
      ghost var reg := lo + hi;
      LoadFirst(lo, hi, cnt, src[pos..], w);
      lo := Or(lo, Shl(w, cnt));
      var nb := (63 - cnt) / 8;
      assert src[pos..][nb..] == src[pos + nb..];
      BackedByLoad(reg, lo + hi, cnt, src, pos, before, nb);
      pos := pos + nb;
      cnt := cnt + 8 * nb;
    }

    /** Eight bytes behind the valid bits of the first word, into the second. */
    method Load2()
      requires Valid() && 56 <= cnt <= 63
      modifies this
      ensures Valid() && Rest() == old(Rest()) && cnt >= 56
      ensures (pos == old(pos) && cnt == old(cnt)) || cnt == old(cnt) + 64
    {
      hide LsbStream, Ahead, Harmless, Backed, Or, Shl, Shr;
      if pos + 8 <= |src| && cnt < 120 {
        var w := Load64(src, pos);
        ghost var reg := lo + hi;
        LoadSecond(lo, hi, cnt, src[pos..], w);
        lo := Or(lo, Shl(w, cnt));
        hi := Shr(w, 64 - cnt);
        var nb := (127 - cnt) / 8;
        assert src[pos..][nb..] == src[pos + nb..];
        BackedByLoad(reg, lo + hi, cnt, src, pos, before, nb);
        pos := pos + nb;
        cnt := cnt + 8 * nb;
      }
    }

    /** Eleven bits at an offset; they are stream bits when that many are valid. */
    function At(off: nat): (v: nat)
      requires off <= 120
      reads this
      ensures v < Pow2(DECODE_BITS)
    {
      Extract(lo, hi, off)
    }

    /** n bits from bit `off` of the first word on, as a number. */
    function Field(off: nat, n: nat): (v: nat)
      requires off + n <= 32
      reads this
      ensures v < Pow2(n)
    {
      NumberBound(lo[off..off + n]);
      NumberOf(lo[off..off + n])
    }

    /** Discards n valid bits. */
    method Consume(n: nat)
      requires Valid() && n <= cnt
      modifies this
      ensures Valid() && cnt == old(cnt) - n && pos == old(pos) && Rest() == old(Rest())[n..]
    {
      hide LsbStream, Ahead, Harmless, Backed, Shifted;
      ghost var reg := lo + hi;
      ShiftedIs(lo, hi, n);
      Discard(reg, cnt, src[pos..], n);
      BackedByDiscard(reg, cnt, src, pos, before, n);
      var s := Shifted(lo, hi, n);
      lo, hi := s.0, s.1;
      cnt := cnt - n;
      before := if before > n then before - n else 0;
    }

    /** Gives whole bytes back until at most 56 bits are pending, all of them in the first word. */
    method Rewind()
      requires Valid()
      modifies this
      ensures Valid() && Rest() == old(Rest()) && cnt <= 56 && Harmless(lo, cnt, src[pos..])
      ensures Ahead(lo, cnt, src[pos..]) == Rest()
    {
      hide LsbStream, Ahead, Harmless, Backed;
      if cnt > 56 {
        var excess := cnt - 56;
        var rewindBytes := (excess + 7) / 8;
        BackedBytes(lo + hi, cnt, src, pos, before, rewindBytes);
        GiveBack(lo + hi, cnt, src, pos, rewindBytes);
        BackedLess(lo + hi, cnt, src, pos, before, rewindBytes);
        pos := pos - rewindBytes;
        cnt := cnt - 8 * rewindBytes;
      }
      FirstWord(lo, hi, cnt, src[pos..]);
    }
  }

  lemma BackedLess(reg: bits, cnt: nat, src: seq<byte>, pos: nat, before: nat, r: nat)
    requires Backed(reg, cnt, src, pos, before) && 8 * r <= cnt - before && r <= pos
    ensures Backed(reg, cnt - 8 * r, src, pos - r, before)
  {
    hide LsbStream;
    assert src[..pos] == src[..pos - r] + src[pos - r..pos];
    StreamConcat(src[..pos - r], src[pos - r..pos]);
    var n := cnt - 8 * r - before;
    assert reg[before..cnt - 8 * r] == reg[before..cnt][..n];
  }

  lemma FirstWord(lo: word, hi: word, cnt: nat, bytes: seq<byte>)
    requires cnt <= 56 && Harmless(lo + hi, cnt, bytes)
    ensures Harmless(lo, cnt, bytes) && Ahead(lo, cnt, bytes) == Ahead(lo + hi, cnt, bytes)
  {
    assert (lo + hi)[..cnt] == lo[..cnt];
    forall i | cnt <= i < 64 && lo[i] ensures i < |Ahead(lo, cnt, bytes)| && Ahead(lo, cnt, bytes)[i] {
      assert (lo + hi)[i];
    }
  }

  /** Eight bytes as a word, the first byte lowest. */
  method Load64(src: seq<byte>, pos: nat) returns (w: word)
    requires pos + 8 <= |src|
    ensures w == LsbStream(src[pos..][..8])
  {
    w := LsbStream(src[pos..pos + 8]);
    assert src[pos..][..8] == src[pos..pos + 8];
  }

  /** What the register's numbers are in terms of the bits ahead. */
  lemma Reads(r: Register, off: nat)
    requires r.Valid() && off + DECODE_BITS <= r.cnt && off <= 117
    ensures r.At(off) == NumberOf(r.Rest()[off..off + DECODE_BITS]) && |r.Rest()| >= r.cnt
  {
    ExtractIs(r.lo, r.hi, off);
    assert (r.lo + r.hi)[off..off + DECODE_BITS] == r.Rest()[off..off + DECODE_BITS];
  }

  lemma ReadsField(r: Register, off: nat, n: nat)
    requires r.Valid() && off + n <= r.cnt && off + n <= 32
    ensures r.Field(off, n) == NumberOf(r.Rest()[off..off + n]) && |r.Rest()| >= r.cnt
  {
    var all := r.lo + r.hi;
    assert all[off..off + n] == r.lo[off..off + n];
    assert r.Rest() == all[..r.cnt] + LsbStream(r.src[r.pos..]);
    assert r.Rest()[off..off + n] == all[off..off + n];
  }
}
