/** The prefix codes in front of a meta-block's data (section 3.4 and 3.5 of RFC 7932): reading them, and the ones that
    the encoder writes. */
module BrotliHeader {
  import opened Bits
  import opened LsbBits
  import opened Canonical
  import opened BrotliBits
  import opened BrotliCodes
  import opened BrotliPrefix
  import opened BrotliSymbols
  import opened BrotliComplex
  import opened BrotliSimple

  /** The prefix code at the front of s, and the bits behind it: a tag of two bits says how it is written. */
  function PrefixCodeAhead(s: bits, size: nat): (r: Option<(SymbolCode, bits)>) {
    var tag := TakeBits(s, 2);
    if tag.None? then None
    else
      NumberBoundTwo(s);
      if tag.value.0 == 1 then
        var c := ReadSimple(tag.value.1, size);
        if c.None? then None else Some((SimpleCodeOf(c.value.0, c.value.1, size), c.value.2))
      else
        var c := ReadComplex(tag.value.1, tag.value.0, size);
        if c.None? then None else Some((Coded(c.value.0), c.value.1))
  }

  /** Reads a prefix code. */
  method ReadPrefixCode(br: BitReader, alphabetSize: nat, out: PrefixCode) returns (ok: bool)
    requires br.Valid() && !br.error && 0 < alphabetSize <= MAX_ENTRIES && out.Shaped() && br !in out.Repr
    modifies br, out.Repr
    ensures br.Valid()
    ensures match PrefixCodeAhead(old(br.Rest()), alphabetSize)
            case Some(r) =>
              ok && !br.error && out.Valid() && CodeOf(out) == r.0 && br.Rest() == r.1 && |out.lens| == alphabetSize
            case None => !ok
  {
    hide *;
    AheadIs(br.Rest(), alphabetSize);
    var tag := br.ReadBits(2);
    if br.error { return false; }
    if tag == 1 {
      ok := ReadSimplePrefixCodeBody(br, alphabetSize, out);
    } else {
      ok := ReadComplexPrefixCode(br, tag, alphabetSize, out);
    }
  }

  lemma AheadIs(s: bits, size: nat)
    ensures |s| < 2 ==> PrefixCodeAhead(s, size).None?
    ensures |s| >= 2 && NumberOf(s[..2]) == 1 ==>
              var c := ReadSimple(s[2..], size);
              PrefixCodeAhead(s, size)
              == if c.None? then None else Some((SimpleCodeOf(c.value.0, c.value.1, size), c.value.2))
    ensures |s| >= 2 ==> NumberOf(s[..2]) <= 3
    ensures |s| >= 2 && NumberOf(s[..2]) != 1 ==>
              var c := ReadComplex(s[2..], NumberOf(s[..2]), size);
              PrefixCodeAhead(s, size) == if c.None? then None else Some((Coded(c.value.0), c.value.1))
  {
    hide ReadSimple, ReadComplex, NumberOf;
    NumberBoundTwo(s);
  }

  // ---------- codes of a few symbols ----------

  /** A tag and the sorted symbols read back as their code. */
  lemma SimpleRoundTrip(symbols: seq<nat>, size: nat, tail: bits)
    requires Listable(symbols, size)
    ensures PrefixCodeAhead(LsbOf(1, 2) + HeaderBits(symbols, size) + tail, size)
         == Some((SimpleCodeOf(symbols, false, size), tail))
  {
    hide ReadSimple, ReadComplex, NumberOf, LsbOf, HeaderBits, TakeBits;
    Pow2Values();
    Assoc(LsbOf(1, 2), HeaderBits(symbols, size), tail);
    TakeWritten(1, 2, HeaderBits(symbols, size) + tail);
    HeaderRoundTrip(symbols, size, tail);
  }

  // ---------- the fixed code of the literals ----------

  /** Every byte has a code of eight bits. */
  function LiteralLengths(): (ls: lengths)
    ensures |ls| == 256 && forall i :: 0 <= i < 256 ==> ls[i] == 8
  {
    seq(256, _ => 8)
  }

  /** The code in which only the length eight has a code: a one for it and zeros for all others. */
  function FixedBits(i: nat): (b: bits)
    requires i <= 18
    ensures i < 18 ==> |b| >= 2
    decreases 18 - i
  {
    OrderFacts();
    if i == 18 then [] else (if ORDER[i] == 8 then LsbOf(7, 4) else LsbOf(0, 2)) + FixedBits(i + 1)
  }

  /** Writes the code of the literals. */
  method WriteFixedLiteralCode(bw: BitWriter) returns (ok: bool)
    requires bw.Valid()
    modifies bw, bw.dst
    ensures ok <==> |old(bw.written)| + |LsbOf(0, 2) + FixedBits(0)| < 8 * bw.dst.Length + 8
    ensures ok ==>
              && bw.Valid() && bw.written == old(bw.written) + (LsbOf(0, 2) + FixedBits(0))
              && bw.overflow == old(bw.overflow)
  {
    hide LsbOf, Pow2, ORDER, BitWriter.Valid, FixedBits;
    FixedEnd();
    Pow2Values();
    OrderFacts();
    ghost var goal := bw.written + (LsbOf(0, 2) + FixedBits(0));
    Assoc(bw.written, LsbOf(0, 2), FixedBits(0));
    ok := bw.WriteBits(0, 2);
    if !ok { return; }
    for i := 0 to 18
      invariant bw.Valid() && bw.overflow == old(bw.overflow) && bw.written + FixedBits(i) == goal
    {
      var n, v := if ORDER[i] == 8 then 4 else 2, if ORDER[i] == 8 then 7 else 0;
      FixedBitsAre(i);
      WhereEight(i);
      Assoc(bw.written, LsbOf(v, n), FixedBits(i + 1));
      ok := bw.WriteBits(v, n);
      if !ok { return; }
    }
    assert bw.written + FixedBits(18) == bw.written;
    bw.Fits();
    ok := true;
  }

  /** The length of length number s after i turns: one for eight, zero for the others. */
  function OnlyEight(i: nat): (lens: lengths)
    ensures |lens| == 18 && forall s :: 0 <= s < 18 ==> lens[s] == if s == 8 && i > 10 then 1 else 0
  {
    seq(18, s => if s == 8 && i > 10 then 1 else 0)
  }

  lemma WhereEight(i: nat)
    requires i < 18
    ensures |ORDER| == 18 && (ORDER[i] == 8 <==> i == 10) && ORDER[i] < 18
    ensures |PREFIX_LENGTH| == |PREFIX_VALUE| == 16 && PREFIX_VALUE[7] == 1 && PREFIX_LENGTH[7] == 4
    ensures forall ix :: 0 <= ix < 16 && ix % 4 == 0 ==> PREFIX_VALUE[ix] == 0 && PREFIX_LENGTH[ix] == 2
  {}

  lemma NextField(v: nat, n: nat, tail: bits)
    requires (v == 7 && n == 4) || (v == 0 && n == 2)
    requires |tail| >= 2
    ensures var s := LsbOf(v, n) + tail;
            |s| >= 4 && s[n..] == tail && (n == 4 ==> NumberOf(s[..4]) == 7) && (n == 2 ==> NumberOf(s[..4]) % 4 == 0)
  {
    var s := LsbOf(v, n) + tail;
    if n == 4 {
      Pow2Values();
      NumberOfLsb(7, 4);
      assert s[..4] == LsbOf(7, 4);
    } else {
      assert LsbOf(0, 2) == [false] + LsbOf(0, 1) && LsbOf(0, 1) == [false] + LsbOf(0, 0);
      assert s[..4][1..][1..] == s[2..4];
      assert !s[..4][0] && !s[..4][1..][0];
    }
  }

  lemma FixedEnd()
    ensures FixedBits(18) == []
  {}

  lemma FixedBitsAre(i: nat)
    requires i <= 18
    ensures i == 18 ==> FixedBits(i) == []
    ensures i < 18 ==> FixedBits(i) == LsbOf(if i == 10 then 7 else 0, if i == 10 then 4 else 2) + FixedBits(i + 1)
    ensures Count(0, 1) == 0 && Count(1, 1) == 1
  {
    if i < 18 { WhereEight(i); }
  }

  /** The lengths of the code for lengths read back. */
  lemma {:induction false} FixedTurns(i: nat, tail: bits)
    requires i <= 18 && |tail| >= 2
    ensures ReadCodeLengths(FixedBits(i) + tail, i, OnlyEight(i), if i > 10 then 16 else 32, if i > 10 then 1 else 0)
         == Some((OnlyEight(18), tail))
    decreases 18 - i
  {
    hide *;
    FixedBitsAre(i);
    if i == 18 {
      assert FixedBits(18) + tail == tail;
      CodeLengthsEnd(tail, 18, OnlyEight(18), 16, 1);
    } else {
      WhereEight(i);
      TakenFive();
      var n, v := if i == 10 then 4 else 2, if i == 10 then 7 else 0;
      Assoc(LsbOf(v, n), FixedBits(i + 1), tail);
      NextField(v, n, FixedBits(i + 1) + tail);
      CodeLengthsTurn(FixedBits(i) + tail, i, OnlyEight(i), if i > 10 then 16 else 32, if i > 10 then 1 else 0);
      assert OnlyEight(i)[ORDER[i] := if i == 10 then 1 else 0] == OnlyEight(i + 1);
      FixedTurns(i + 1, tail);
    }
  }

  lemma TakenFive()
    ensures Taken(5, 0) == 0 && Taken(5, 1) == 16
  {
    Pow2Values();
  }

  lemma {:induction false} OnlyEightUsed(n: nat)
    requires n <= 18
    ensures Used(OnlyEight(18), n) == if n > 8 then 1 else 0
    decreases n
  {
    if n > 0 { OnlyEightUsed(n - 1); }
  }

  /** 256 lengths of eight use up the room without a bit. */
  lemma {:induction false} EightsTurns(k: nat, s: bits)
    requires k <= 256
    ensures ReadLengths(Single(8), s, 256, Progress(Copies(8, k), 32768 - 128 * k, k, 8, 0, 0))
            == Some((LiteralLengths(), s))
    decreases 256 - k
  {
    hide Pow2, Taken, ReadLengths;
    var p := Progress(Copies(8, k), 32768 - 128 * k, k, 8, 0, 0);
    if k == 256 {
      AllRead(s, p);
    } else {
      TakenEight();
      LengthsTurn(Single(8), s, 256, p);
      assert Copies(8, k) + Copies(8, 1) == Copies(8, k + 1);
      EightsTurns(k + 1, s);
    }
  }

  lemma TakenEight()
    ensures Taken(MAX_BITS, 8) == 128 && Pow2(MAX_BITS) == 32768
  {
    Pow2Values();
  }

  lemma AllRead(s: bits, p: Progress)
    requires p == Progress(Copies(8, 256), 0, 256, 8, 0, 0)
    ensures ReadLengths(Single(8), s, 256, p) == Some((LiteralLengths(), s))
  {
    assert Copies(8, 256) + Copies(0, 0) == LiteralLengths();
  }

  /** The code of the literals reads back as eight bits for every byte. */
  lemma FixedRoundTrip(tail: bits)
    requires |tail| >= 2
    ensures PrefixCodeAhead(LsbOf(0, 2) + FixedBits(0) + tail, 256) == Some((Coded(LiteralLengths()), tail))
  {
    hide ReadSimple, ReadCodeLengths, ReadLengths, NumberOf, LsbOf, FixedBits, TakeBits, Used, Pow2, LiteralLengths;
    Pow2Values();
    TakenEight();
    Assoc(LsbOf(0, 2), FixedBits(0), tail);
    TakeWritten(0, 2, FixedBits(0) + tail);
    FixedTurns(0, tail);
    assert OnlyEight(0) == Copies(0, 18);
    OnlyEightUsed(18);
    UsedOnce(OnlyEight(18), 8, 18);
    assert Copies(8, 0) == [];
    EightsTurns(0, tail);
  }
}
