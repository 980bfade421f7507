/** Reading complex prefix codes (section 3.5 of RFC 7932): whatever is accepted has a Kraft sum of exactly one, so that
    every long enough input decodes. */
module BrotliComplex {
  import opened Bits
  import opened LsbBits
  import opened Canonical
  import opened BrotliBits
  import opened BrotliCodes
  import opened BrotliPrefix
  import opened BrotliSymbols

  // ---------- one more length ----------

  lemma {:induction false} KraftSet(lens: lengths, k: nat, v: nat, m: nat)
    requires InRange(lens) && k < |lens| && lens[k] == 0 && 1 <= v <= MAX_LEN && m <= |lens|
    ensures InRange(lens[k := v])
    ensures KraftUpTo(lens[k := v], m, MAX_LEN) == KraftUpTo(lens, m, MAX_LEN)
            + (if k < m then Pow2(MAX_LEN - v) else 0)
    decreases m
  {
    if m > 0 { KraftSet(lens, k, v, m - 1); }
  }

  lemma {:induction false} UsedSet(lens: lengths, k: nat, v: nat, m: nat)
    requires k < |lens| && lens[k] == 0 && v > 0 && m <= |lens|
    ensures Used(lens[k := v], m) == Used(lens, m) + (if k < m then 1 else 0)
    decreases m
  {
    if m > 0 { UsedSet(lens, k, v, m - 1); }
  }

  lemma {:induction false} NothingSet(lens: lengths, m: nat)
    requires m <= |lens| && forall s :: 0 <= s < |lens| ==> lens[s] == 0
    ensures InRange(lens) && KraftUpTo(lens, m, MAX_LEN) == 0 && Used(lens, m) == 0
    decreases m
  {
    if m > 0 { NothingSet(lens, m - 1); }
  }

  /** The room left when every code takes its share of 2 to the unit. */
  ghost predicate Room(lens: lengths, unit: nat, space: int, nonzero: nat) {
    && InRange(lens) && unit <= MAX_LEN
    && Kraft(lens) == (Pow2(unit) - space) * Pow2(MAX_LEN - unit)
    && Used(lens, |lens|) == nonzero
  }

  lemma RoomStart(lens: lengths, unit: nat)
    requires unit <= MAX_LEN && forall s :: 0 <= s < |lens| ==> lens[s] == 0
    ensures Room(lens, unit, Pow2(unit), 0)
  {
    NothingSet(lens, |lens|);
  }

  lemma RoomNext(lens: lengths, unit: nat, space: int, nonzero: nat, k: nat, v: nat)
    requires Room(lens, unit, space, nonzero) && k < |lens| && lens[k] == 0 && 1 <= v <= unit
    ensures Room(lens[k := v], unit, space - Pow2(unit - v), nonzero + 1)
  {
    hide KraftUpTo, Pow2, Used;
    KraftSet(lens, k, v, |lens|);
    UsedSet(lens, k, v, |lens|);
    Pow2Add(unit - v, MAX_LEN - unit);
    Share(Pow2(unit), space, Pow2(unit - v), Pow2(MAX_LEN - unit));
    assert unit - v + (MAX_LEN - unit) == MAX_LEN - v;
  }

  lemma Share(all: int, space: int, share: int, u: int)
    ensures (all - (space - share)) * u == (all - space) * u + share * u
  {}

  /** No room left means a complete code. */
  lemma RoomUsedUp(lens: lengths, unit: nat, nonzero: nat)
    requires Room(lens, unit, 0, nonzero)
    ensures Kraft(lens) == Pow2(MAX_LEN)
  {
    Pow2Add(unit, MAX_LEN - unit);
  }

  // ---------- what is read ----------

  const ORDER: seq<nat> := [1, 2, 3, 4, 0, 5, 17, 6, 16, 7, 8, 9, 10, 11, 12, 13, 14, 15]
  const PREFIX_LENGTH: seq<nat> := [2, 2, 2, 3, 2, 2, 2, 4, 2, 2, 2, 3, 2, 2, 2, 4]
  const PREFIX_VALUE: seq<nat> := [0, 4, 3, 2, 0, 4, 3, 1, 0, 4, 3, 2, 0, 4, 3, 5]

  lemma OrderFacts()
    ensures |ORDER| == 18 && |PREFIX_LENGTH| == |PREFIX_VALUE| == 16
    ensures forall i :: 0 <= i < 18 ==> ORDER[i] < 18
    ensures forall i, j :: 0 <= i < j < 18 ==> ORDER[i] != ORDER[j]
    ensures forall i :: 0 <= i < 16 ==> PREFIX_LENGTH[i] <= 4 && PREFIX_VALUE[i] <= 5
  {}

  function Copies(len: nat, n: nat): (r: seq<nat>)
    ensures |r| == n && forall k :: 0 <= k < n ==> r[k] == len
  {
    seq(n, _ => len)
  }

  /** The room that one code takes. */
  function Taken(unit: nat, len: nat): nat { if len == 0 || len > unit then 0 else Pow2(unit - len) }

  function Count(len: nat, n: nat): nat { if len == 0 then 0 else n }

  /** The next four bits as a number. */
  function FourBits(s: bits): (ix: nat)
    requires |s| >= 4
    ensures ix < 16
  {
    NumberBound(s[..4]);
    Pow2Values();
    NumberOf(s[..4])
  }

  /** The lengths of the code that the lengths are written with: a variable-length number for each in a fixed order,
      until the room is used up. */
  function ReadCodeLengths(s: bits, i: nat, lens: lengths, space: int, nonzero: nat): (r: Option<(lengths, bits)>)
    requires i <= 18 && |lens| == 18
    ensures r.Some? ==> |r.value.0| == 18
    decreases 18 - i
  {
    if i == 18 || (nonzero >= 2 && space == 0) then
      if nonzero == 0 || (nonzero >= 2 && space != 0) then None else Some((lens, s))
    else if |s| < 4 then None
    else
      OrderFacts();
      var len, rest := PREFIX_VALUE[FourBits(s)], s[PREFIX_LENGTH[FourBits(s)]..];
      if space < Taken(5, len) then None
      else ReadCodeLengths(rest, i + 1, lens[ORDER[i] := len], space - Taken(5, len), nonzero + Count(len, 1))
  }

  /** The lengths read so far, the room left, the last length that was not zero, and the run that a repeat symbol would
      carry on. */
  datatype Progress = Progress(done: lengths, space: int, nonzero: nat, prev: nat, run: nat, runLen: nat)

  function Append(p: Progress, len: nat, n: nat, prev: nat, run: nat): (q: Progress)
    ensures |q.done| == |p.done| + n && q.space == p.space - n * Taken(MAX_BITS, len)
  {
    Progress(p.done + Copies(len, n), p.space - n * Taken(MAX_BITS, len), p.nonzero + Count(len, n), prev, run,
             if run == 0 then 0 else len)
  }

  function RepeatedLength(p: Progress, sym: nat): nat { if sym == 16 then p.prev else 0 }

  /** The length of the run that a repeat symbol makes, with what it carries on. */
  function RunLength(p: Progress, sym: nat, delta: nat): int {
    var extraBits := if sym == 16 then 2 else 3;
    (if p.runLen == RepeatedLength(p, sym) && p.run > 0 then (p.run - 2) * Pow2(extraBits) else 0) + delta + 3
  }

  function CarriedOn(p: Progress, sym: nat): nat { if p.runLen == RepeatedLength(p, sym) then p.run else 0 }

  /** One length, a run of the last length that was not zero (16) or of zeros (17), until the alphabet or the room is
      used up. */
  function ReadLengths(c: SymbolCode, s: bits, size: nat, p: Progress): (r: Option<(lengths, bits)>)
    requires |p.done| <= size
    ensures r.Some? ==> |r.value.0| == size
    decreases size - |p.done|
  {
    if |p.done| == size || p.space <= 0 then
      if p.nonzero < 2 || p.space != 0 then None else Some((p.done + Copies(0, size - |p.done|), s))
    else
      var sym := ReadCode(c, s);
      if sym.None? then None
      else if sym.value.0 == 16 || sym.value.0 == 17 then
        var extra := TakeBits(sym.value.1, if sym.value.0 == 16 then 2 else 3);
        if extra.None? then None
        else
          var run := RunLength(p, sym.value.0, extra.value.0);
          var n := run - CarriedOn(p, sym.value.0);
          if n <= 0 || |p.done| + n > size then None
          else
            var q := Append(p, RepeatedLength(p, sym.value.0), n, p.prev, run);
            if q.space < 0 then None else ReadLengths(c, extra.value.1, size, q)
      else
        var q := Append(p, sym.value.0, 1, if sym.value.0 == 0 then p.prev else sym.value.0, 0);
        if q.space < 0 then None else ReadLengths(c, sym.value.1, size, q)
  }

  function Start(): Progress { Progress([], Pow2(MAX_BITS), 0, 8, 0, 0) }

  /** The lengths of a complex code behind its tag. */
  function ReadComplex(s: bits, hskip: nat, size: nat): (r: Option<(lengths, bits)>)
    requires hskip <= 3
    ensures r.Some? ==> |r.value.0| == size
  {
    var c := ReadCodeLengths(s, hskip, Copies(0, 18), 32, 0);
    if c.None? then None else ReadLengths(CodeFrom(c.value.0), c.value.1, size, Start())
  }

  // ---------- the lengths of a code ----------

  class LengthList {
    const lengths: array<nat>
    var pos: nat
    var space: int
    var nonzero: nat
    var prevNonzero: nat

    ghost predicate Valid()
      reads this, lengths
    {
      && pos <= lengths.Length && Room(lengths[..], MAX_BITS, space, nonzero)
      && (forall i :: pos <= i < lengths.Length ==> lengths[i] == 0)
      && (forall i :: 0 <= i < lengths.Length ==> lengths[i] <= MAX_BITS) && prevNonzero <= MAX_BITS
    }

    /** What has been read, with the run that may be carried on. */
    ghost function Now(run: nat, runLen: nat): (p: Progress)
      requires pos <= lengths.Length
      reads this, lengths
      ensures p.done == lengths[..pos] && p.space == space && p.nonzero == nonzero && p.prev == prevNonzero
      ensures p.run == run && p.runLen == runLen
    {
      Progress(lengths[..pos], space, nonzero, prevNonzero, run, runLen)
    }

    constructor (alphabetSize: nat)
      ensures Valid() && fresh(lengths) && lengths.Length == alphabetSize && pos == 0 && Now(0, 0) == Start()
    {
      var ls := new nat[alphabetSize](_ => 0);
      RoomStart(ls[..], MAX_BITS);
      lengths := ls;
      pos, space, nonzero, prevNonzero := 0, Pow2(MAX_BITS), 0, 8;
    }

    method SetNext(len: nat)
      requires Valid() && pos < lengths.Length && len <= MAX_BITS
      modifies this, lengths
      ensures Valid() && Now(0, 0) == Append(old(Now(0, 0)), len, 1, prevNonzero, 0) && prevNonzero == old(prevNonzero)
    {
      hide Room, Pow2;
      ghost var was := lengths[..];
      if len != 0 { RoomNext(was, MAX_BITS, space, nonzero, pos, len); }
      lengths[pos] := len;
      assert lengths[..] == was[pos := len];
      assert len == 0 ==> was[pos := len] == was;
      assert lengths[..pos + 1] == was[..pos] + Copies(len, 1);
      pos := pos + 1;
      if len != 0 {
        nonzero := nonzero + 1;
        space := space - Pow2(MAX_BITS - len);
      }
    }

    /** Appends one length; false when the list is full or the codes do not fit. */
    method AddLength(len: nat) returns (ok: bool)
      requires Valid() && len <= MAX_BITS && space >= 0
      modifies this, lengths
      ensures Valid()
      ensures ok <==> old(pos) < lengths.Length && old(space) >= Taken(MAX_BITS, len)
      ensures ok ==> Now(0, 0) == Append(old(Now(0, 0)), len, 1, if len == 0 then old(prevNonzero) else len, 0)
    {
      hide Room, Pow2;
      if pos >= lengths.Length { return false; }
      SetNext(len);
      if len != 0 {
        prevNonzero := len;
        if space < 0 { return false; }
      }
      return true;
    }

    /** Appends copies of one length. */
    method AddRepeat(len: nat, count: int) returns (ok: bool)
      requires Valid() && len <= MAX_BITS && space >= 0
      modifies this, lengths
      ensures Valid()
      ensures ok <==> 0 <= count <= lengths.Length - old(pos) && old(space) >= count * Taken(MAX_BITS, len)
      ensures ok ==> Now(0, 0) == Append(old(Now(0, 0)), len, count, old(prevNonzero), 0)
    {
      hide Room, Pow2, Taken;
      if count < 0 || pos + count > lengths.Length { return false; }
      ghost var was := Now(0, 0);
      NoCopies(was, len);
      for i := 0 to count
        invariant Valid() && Now(0, 0) == Append(was, len, i, was.prev, 0) && space >= 0 && pos == old(pos) + i
      {
        SetNext(len);
        OneMoreCopy(was, len, i);
        NothingTaken(len);
        if len != 0 {
          if space < 0 {
            MulMono(i + 1, count, Taken(MAX_BITS, len));
            return false;
          }
        }
      }
      return true;
    }
  }

  lemma NothingTaken(len: nat)
    ensures len == 0 ==> Taken(MAX_BITS, len) == 0
  {}

  lemma NoCopies(p: Progress, len: nat)
    requires p.run == 0 && p.runLen == 0
    ensures Append(p, len, 0, p.prev, 0) == p
  {
    assert p.done + Copies(len, 0) == p.done;
  }

  lemma OneMoreCopy(p: Progress, len: nat, n: nat)
    ensures Append(Append(p, len, n, p.prev, 0), len, 1, p.prev, 0) == Append(p, len, n + 1, p.prev, 0)
    ensures Append(p, len, n + 1, p.prev, 0).space == p.space - (n + 1) * Taken(MAX_BITS, len)
  {
    hide Taken;
    assert p.done + Copies(len, n) + Copies(len, 1) == p.done + Copies(len, n + 1);
    var t := Taken(MAX_BITS, len);
    assert (n + 1) * t == n * t + t;
  }

  // ---------- the code for the code lengths ----------

  /** Reads the code that the lengths are written with. An accepted code has one symbol or is complete. */
  method BuildCodeLengthCode(br: BitReader, hskip: nat, out: PrefixCode) returns (ok: bool)
    requires br.Valid() && !br.error && hskip <= 3 && out.Shaped() && br !in out.Repr
    modifies br, out.Repr
    ensures br.Valid()
    ensures match ReadCodeLengths(old(br.Rest()), hskip, Copies(0, 18), 32, 0)
            case Some(r) =>
              && ok && !br.error && br.Rest() == r.1 && out.Valid() && out.lens == r.0 && CodeOf(out) == CodeFrom(r.0)
              && (!out.isSingleSymbol ==> Kraft(r.0) == Pow2(MAX_LEN))
            case None => !ok
  {
    hide Room, ORDER, PREFIX_LENGTH, PREFIX_VALUE, PrefixCode.Valid, Kraft, Pow2, NumberOf, Used, CodeOf, CodeFrom,
        ReadCodeLengths, BitReader.Valid, BitReader.Rest, LengthList.Valid, InRange, MaxLength, Copies;
    OrderFacts();
    Pow2Values();
    var lengths: seq<nat> := Copies(0, 18);
    var nonzero, space, i := 0, 32, hskip;
    ghost var goal := ReadCodeLengths(br.Rest(), hskip, lengths, 32, 0);
    RoomStart(lengths, 5);
    while i < 18
      invariant hskip <= i <= 18 && |lengths| == 18 && Room(lengths, 5, space, nonzero) && space >= 0
      invariant br.Valid() && !br.error && out.Shaped()
      invariant forall j :: i <= j < 18 ==> lengths[ORDER[j]] == 0
      invariant forall s :: 0 <= s < 18 ==> lengths[s] <= 5
      invariant i < 18 ==> nonzero < 2 || space != 0
      invariant ReadCodeLengths(br.Rest(), i, lengths, space, nonzero) == goal
    {
      CodeLengthsTurn(br.Rest(), i, lengths, space, nonzero);
      var filled := br.Fill(4);
      if !filled { return false; }
      var ix := br.Peek(4);
      var len := PREFIX_VALUE[ix];
      var skipped := br.ReadBits(PREFIX_LENGTH[ix]);
      if br.error { return false; }
      ghost var was := lengths;
      lengths := lengths[ORDER[i] := len];
      i := i + 1;
      if len != 0 {
        RoomNext(was, 5, space, nonzero, ORDER[i - 1], len);
        nonzero := nonzero + 1;
        space := space - Pow2(5 - len);
        if space < 0 { return false; }
        if nonzero >= 2 && space == 0 { break; }
      } else {
        assert lengths == was;
      }
    }
    CodeLengthsEnd(br.Rest(), i, lengths, space, nonzero);
    if nonzero == 0 { return false; }
    if nonzero >= 2 && space != 0 { return false; }
    CodeLengthsFine(lengths, space, nonzero);
    ok := out.Build(lengths);
    BuiltCode(out);
  }

  lemma CodeLengthsTurn(s: bits, i: nat, lens: lengths, space: int, nonzero: nat)
    requires i < 18 && |lens| == 18 && (nonzero < 2 || space != 0)
    ensures |s| < 4 ==> ReadCodeLengths(s, i, lens, space, nonzero).None?
    ensures |ORDER| == 18 && |PREFIX_LENGTH| == |PREFIX_VALUE| == 16 && ORDER[i] < 18
    ensures |s| >= 4 ==>
              && FourBits(s) == NumberOf(s[..4]) && PREFIX_LENGTH[FourBits(s)] <= 4
              && (var len, rest := PREFIX_VALUE[FourBits(s)], s[PREFIX_LENGTH[FourBits(s)]..];
                  ReadCodeLengths(s, i, lens, space, nonzero)
                  == if space < Taken(5, len) then None
                     else ReadCodeLengths(rest, i + 1, lens[ORDER[i] := len], space - Taken(5, len),
                                          nonzero + Count(len, 1)))
  {
    hide NumberOf, Pow2, ORDER, PREFIX_LENGTH, PREFIX_VALUE, Taken, FourBits;
    OrderFacts();
    if |s| >= 4 { FourIs(s); }
  }

  lemma FourIs(s: bits)
    requires |s| >= 4
    ensures FourBits(s) == NumberOf(s[..4])
  {}

  lemma CodeLengthsEnd(s: bits, i: nat, lens: lengths, space: int, nonzero: nat)
    requires i <= 18 && |lens| == 18 && (i == 18 || (nonzero >= 2 && space == 0))
    ensures ReadCodeLengths(s, i, lens, space, nonzero)
         == if nonzero == 0 || (nonzero >= 2 && space != 0) then None else Some((lens, s))
  {}

  lemma CodeLengthsFine(lens: lengths, space: int, nonzero: nat)
    requires Room(lens, 5, space, nonzero) && nonzero > 0 && (nonzero >= 2 ==> space == 0)
    requires forall s :: 0 <= s < |lens| ==> lens[s] <= 5
    ensures Used(lens, |lens|) == nonzero && InRange(lens) && MaxLength(lens) <= MAX_BITS
    ensures nonzero >= 2 ==> Kraft(lens) == Pow2(MAX_LEN)
  {
    if nonzero >= 2 { RoomUsedUp(lens, 5, nonzero); }
    assert MaxLength(lens) > 0 ==> MaxLength(lens) in lens;
  }

  // ---------- the lengths themselves ----------

  /** Reads the lengths of a code with runs of the last length and of zero. Whatever is accepted is a complete code of
      at least two symbols. */
  method ReadComplexPrefixCode(br: BitReader, hskip: nat, alphabetSize: nat, out: PrefixCode) returns (ok: bool)
    requires br.Valid() && !br.error && hskip <= 3 && 0 < alphabetSize <= MAX_ENTRIES && out.Shaped() && br !in out.Repr
    modifies br, out.Repr
    ensures br.Valid()
    ensures match ReadComplex(old(br.Rest()), hskip, alphabetSize)
            case Some(r) =>
              && ok && !br.error && br.Rest() == r.1 && out.Valid() && out.lens == r.0 && CodeOf(out) == Coded(r.0)
              && Kraft(r.0) == Pow2(MAX_LEN)
            case None => !ok
  {
    hide *;
    ghost var goal := ReadComplex(br.Rest(), hskip, alphabetSize);
    ComplexStart(br.Rest(), hskip, alphabetSize);
    var clc := new PrefixCode();
    ok := BuildCodeLengthCode(br, hskip, clc);
    if !ok { return; }
    ghost var code := CodeOf(clc);
    var list := new LengthList(alphabetSize);
    StartFacts();
    var repeatCount: nat, repeatCodeLen: nat := 0, 0;
    while list.pos < alphabetSize && list.space > 0
      invariant br.Valid() && !br.error && clc.Valid() && |clc.lens| == 18 && CodeOf(clc) == code && list.Valid()
      invariant out.Shaped() && br !in out.Repr && fresh(list) && fresh(list.lengths) && fresh(clc.Repr)
      invariant list.lengths.Length == alphabetSize && list.space >= 0 && list.pos <= alphabetSize
      invariant repeatCodeLen <= MAX_BITS && (repeatCount == 0 || repeatCount >= 3)
      invariant ReadLengths(code, br.Rest(), alphabetSize, list.Now(repeatCount, repeatCodeLen)) == goal
      decreases alphabetSize - list.pos
    {
      ok, repeatCount, repeatCodeLen := ReadOneLength(br, clc, list, repeatCount, repeatCodeLen);
      if !ok { return; }
    }
    LengthsEnd(code, br.Rest(), list, repeatCount, repeatCodeLen);
    if list.nonzero < 2 || list.space != 0 { return false; }
    ListFine(list);
    ok := out.Build(list.lengths[..]);
    BuiltCode(out);
  }

  /** One turn of the loop: a symbol of the code for lengths, and what it stands for. */
  method ReadOneLength(br: BitReader, clc: PrefixCode, list: LengthList, count: nat, codeLen: nat)
    returns (ok: bool, repeatCount: nat, repeatCodeLen: nat)
    requires br.Valid() && !br.error && clc.Valid() && |clc.lens| == 18 && list.Valid()
    requires list.pos < list.lengths.Length && list.space > 0 && codeLen <= MAX_BITS && (count == 0 || count >= 3)
    requires {br, list, list.lengths} !! clc.Repr
    modifies br, list, list.lengths
    ensures br.Valid() && list.Valid() && repeatCodeLen <= MAX_BITS && (repeatCount == 0 || repeatCount >= 3)
    ensures !ok ==> ReadLengths(CodeOf(clc), old(br.Rest()), list.lengths.Length, old(list.Now(count, codeLen))).None?
    ensures ok ==>
              && !br.error && list.space >= 0 && old(list.pos) < list.pos <= list.lengths.Length
              && ReadLengths(CodeOf(clc), old(br.Rest()), list.lengths.Length, old(list.Now(count, codeLen)))
                 == ReadLengths(CodeOf(clc), br.Rest(), list.lengths.Length, list.Now(repeatCount, repeatCodeLen))
  {
    hide *;
    ListFacts(list);
    ghost var code, now, now0 := CodeOf(clc), list.Now(count, codeLen), list.Now(0, 0);
    LengthsTurn(code, br.Rest(), list.lengths.Length, now);
    repeatCount, repeatCodeLen := count, codeLen;
    var sym := DecodeLength(clc, br);
    if sym < 0 || br.error { return false, repeatCount, repeatCodeLen; }
    if sym == 16 || sym == 17 {
      ok, repeatCount, repeatCodeLen := ReadRepeat(br, list, sym, repeatCount, repeatCodeLen, code);
    } else {
      repeatCount, repeatCodeLen := 0, 0;
      RunForgotten(now, now0, sym, 1, if sym == 0 then list.prevNonzero else sym);
      ok := list.AddLength(sym);
    }
    ListFacts(list);
  }

  lemma ComplexStart(s: bits, hskip: nat, size: nat)
    requires hskip <= 3
    ensures var c := ReadCodeLengths(s, hskip, Copies(0, 18), 32, 0);
            ReadComplex(s, hskip, size) == if c.None? then None
                                           else ReadLengths(CodeFrom(c.value.0), c.value.1, size, Start())
  {}

  lemma ListFacts(list: LengthList)
    requires list.Valid()
    ensures list.pos <= list.lengths.Length && list.prevNonzero <= MAX_BITS
  {}

  lemma RunForgotten(p: Progress, p0: Progress, len: nat, n: nat, prev: nat)
    requires p0 == p.(run := 0, runLen := 0)
    ensures Append(p, len, n, prev, 0) == Append(p0, len, n, prev, 0)
  {}

  lemma StartFacts()
    ensures Start().space > 0 && Start().done == []
  {}

  /** How the parser goes on from a symbol of the code for lengths. */
  lemma LengthsTurn(c: SymbolCode, s: bits, size: nat, p: Progress)
    requires |p.done| < size && p.space > 0
    ensures var sym := ReadCode(c, s);
            && (sym.None? ==> ReadLengths(c, s, size, p).None?)
            && (sym.Some? && sym.value.0 != 16 && sym.value.0 != 17 ==>
                 var q := Append(p, sym.value.0, 1, if sym.value.0 == 0 then p.prev else sym.value.0, 0);
                 && q.space == p.space - Taken(MAX_BITS, sym.value.0)
                 && ReadLengths(c, s, size, p) == if q.space < 0 then None else ReadLengths(c, sym.value.1, size, q))
            && (sym.Some? && (sym.value.0 == 16 || sym.value.0 == 17) ==>
                 ReadLengths(c, s, size, p) == AfterRepeat(c, sym.value.1, size, p, sym.value.0))
  {
    hide ReadCode, TakeBits, RunLength, CarriedOn, RepeatedLength, Taken;
  }

  /** What the parser does behind a repeat symbol. */
  function AfterRepeat(c: SymbolCode, s: bits, size: nat, p: Progress, sym: nat): Option<(lengths, bits)>
    requires |p.done| < size && p.space > 0
  {
    var extra := TakeBits(s, if sym == 16 then 2 else 3);
    if extra.None? then None
    else
      var run := RunLength(p, sym, extra.value.0);
      var n := run - CarriedOn(p, sym);
      if n <= 0 || |p.done| + n > size then None
      else
        var q := Append(p, RepeatedLength(p, sym), n, p.prev, run);
        if q.space < 0 then None else ReadLengths(c, extra.value.1, size, q)
  }

  lemma LengthsEnd(c: SymbolCode, s: bits, list: LengthList, run: nat, runLen: nat)
    requires list.Valid() && (list.pos == list.lengths.Length || list.space <= 0)
    ensures ReadLengths(c, s, list.lengths.Length, list.Now(run, runLen))
         == if list.nonzero < 2 || list.space != 0 then None else Some((list.lengths[..], s))
  {
    hide Room;
    var n := list.lengths.Length - list.pos;
    assert list.lengths[..] == list.lengths[..list.pos] + Copies(0, n);
  }

  /** A repeat symbol: it starts a run or multiplies the one before. */
  method ReadRepeat(br: BitReader, list: LengthList, sym: nat, count: nat, codeLen: nat, ghost c: SymbolCode)
    returns (ok: bool, repeatCount: nat, repeatCodeLen: nat)
    requires br.Valid() && !br.error && list.Valid() && list.space > 0 && list.pos < list.lengths.Length
             && sym in {16, 17}
    requires codeLen <= MAX_BITS && (count == 0 || count >= 3)
    modifies br, list, list.lengths
    ensures br.Valid() && list.Valid() && repeatCodeLen <= MAX_BITS && (repeatCount == 0 || repeatCount >= 3)
    ensures !ok ==> AfterRepeat(c, old(br.Rest()), list.lengths.Length, old(list.Now(count, codeLen)), sym).None?
    ensures ok ==>
              && !br.error && list.space >= 0 && list.pos > old(list.pos)
              && AfterRepeat(c, old(br.Rest()), list.lengths.Length, old(list.Now(count, codeLen)), sym)
                 == ReadLengths(c, br.Rest(), list.lengths.Length, list.Now(repeatCount, repeatCodeLen))
  {
    hide *;
    ListFacts(list);
    ghost var was, was0, s := list.Now(count, codeLen), list.Now(0, 0), br.Rest();
    repeatCount, repeatCodeLen := count, codeLen;
    var extraBits := if sym == 16 then 2 else 3;
    var newLen := if sym == 16 then list.prevNonzero else 0;
    var oldRepeat := repeatCount;
    TakenExtra(s, extraBits);
    NoExtraBits(c, s, list.lengths.Length, was, sym);
    var delta := br.ReadBits(extraBits);
    if br.error { return false, repeatCount, repeatCodeLen; }
    if repeatCodeLen != newLen { repeatCount, repeatCodeLen, oldRepeat := 0, newLen, 0; }
    RunStarts(was, sym, delta, oldRepeat, extraBits, newLen);
    if repeatCount > 0 { repeatCount := (repeatCount - 2) * Pow2(extraBits); }
    repeatCount := repeatCount + delta + 3;
    ghost var n := repeatCount - oldRepeat;
    AfterRepeatIs(c, s, list.lengths.Length, was, sym, delta, n, repeatCount);
    ok := list.AddRepeat(repeatCodeLen, repeatCount - oldRepeat);
    ListFacts(list);
    if ok {
      RunAppended(was, was0, repeatCodeLen, n, repeatCount, list.Now(0, 0), list.Now(repeatCount, repeatCodeLen));
    }
  }

  /** A repeated run grows with every further repeat symbol. */
  lemma Grown(count: nat, extraBits: nat)
    requires extraBits in {2, 3} && (count == 0 || count >= 3)
    ensures count > 0 ==> (count - 2) * Pow2(extraBits) + 3 > count
    ensures count > 0 ==> (count - 2) * Pow2(extraBits) >= 0
  {
    Pow2Values();
  }

  lemma RunStarts(p: Progress, sym: nat, delta: nat, carried: nat, extraBits: nat, newLen: nat)
    requires sym in {16, 17} && extraBits == (if sym == 16 then 2 else 3) && newLen == (if sym == 16 then p.prev else 0)
    requires carried == (if p.runLen == newLen then p.run else 0) && (p.run == 0 || p.run >= 3)
    ensures newLen == RepeatedLength(p, sym) && carried == CarriedOn(p, sym)
    ensures carried > 0 ==> (carried - 2) * Pow2(extraBits) >= 0
    ensures RunLength(p, sym, delta) == (if carried > 0 then (carried - 2) * Pow2(extraBits) else 0) + delta + 3
    ensures RunLength(p, sym, delta) > carried
  {
    Grown(carried, extraBits);
  }

  lemma AfterRepeatIs(c: SymbolCode, s: bits, size: nat, p: Progress, sym: nat, delta: nat, n: int, run: nat)
    requires |p.done| < size && p.space > 0 && sym in {16, 17}
    requires TakeBits(s, if sym == 16 then 2 else 3).Some? && TakeBits(s, if sym == 16 then 2 else 3).value.0 == delta
    requires run == RunLength(p, sym, delta) && n == run - CarriedOn(p, sym)
    ensures n <= 0 || |p.done| + n > size || p.space < n * Taken(MAX_BITS, RepeatedLength(p, sym)) ==>
              AfterRepeat(c, s, size, p, sym).None?
    ensures 0 < n <= size - |p.done| && p.space >= n * Taken(MAX_BITS, RepeatedLength(p, sym)) ==>
              AfterRepeat(c, s, size, p, sym)
              == ReadLengths(c, TakeBits(s, if sym == 16 then 2 else 3).value.1, size,
                             Append(p, RepeatedLength(p, sym), n, p.prev, run))
  {
    hide Taken, TakeBits, ReadLengths, RunLength, CarriedOn, RepeatedLength;
  }

  lemma TakenExtra(s: bits, n: nat)
    ensures TakeBits(s, n) == if |s| < n then None else Some((NumberOf(s[..n]), s[n..]))
  {}

  lemma NoExtraBits(c: SymbolCode, s: bits, size: nat, p: Progress, sym: nat)
    requires |p.done| < size && p.space > 0
    ensures TakeBits(s, if sym == 16 then 2 else 3).None? ==> AfterRepeat(c, s, size, p, sym).None?
  {}

  /** The list after a run, with the run that may be carried on. */
  lemma RunAppended(p: Progress, p0: Progress, len: nat, n: nat, run: nat, q: Progress, q': Progress)
    requires p0 == p.(run := 0, runLen := 0) && q == Append(p0, len, n, p.prev, 0) && run > 0
    requires q' == q.(run := run, runLen := len)
    ensures Append(p, len, n, p.prev, run) == q'
  {}

  /** A symbol of the code for lengths is at most 17. */
  method DecodeLength(clc: PrefixCode, br: BitReader) returns (sym: int)
    requires clc.Valid() && |clc.lens| == 18 && br.Valid() && !br.error && br !in clc.Repr
    modifies br
    ensures br.Valid() && (sym == 16 || sym == 17 || sym <= MAX_BITS)
    ensures match ReadCode(CodeOf(clc), old(br.Rest()))
            case Some(r) => sym == r.0 && br.Rest() == r.1 && !br.error
            case None => sym == -1
  {
    hide LookupFull, Kraft, Canonical.Decode;
    ghost var s := br.Rest();
    sym := ReadSymbol(clc, br);
    SymbolInAlphabet(clc, s);
  }

  lemma ListFine(list: LengthList)
    requires list.Valid() && list.space == 0 && list.nonzero >= 2
    ensures var lens := list.lengths[..];
            && Used(lens, |lens|) >= 2 && InRange(lens) && MaxLength(lens) <= MAX_BITS && Kraft(lens) == Pow2(MAX_LEN)
            && CodeFrom(lens) == Coded(lens)
  {
    var lens := list.lengths[..];
    RoomUsedUp(lens, MAX_BITS, list.nonzero);
    assert MaxLength(lens) > 0 ==> MaxLength(lens) in lens;
  }

  /** With a complete code, every input that is long enough decodes to a symbol. */
  lemma AcceptedDecodes(lens: lengths, s: bits)
    requires InRange(lens) && Kraft(lens) == Pow2(MAX_LEN) && MaxLength(lens) > 0 && |s| >= MaxLength(lens)
    ensures Canonical.Decode(lens, s).Sym?
  {
    CompleteDecodes(lens, [], s);
  }
}
