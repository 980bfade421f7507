/** The other direction: whatever the decoder accepts as a complex prefix code is a description of a complete code, and
    what it reads is the code described. */
module BrotliAccepted {
  import opened Bits
  import opened LsbBits
  import opened Canonical
  import opened BrotliCodes
  import opened BrotliPrefix
  import opened BrotliSymbols
  import opened BrotliComplex
  import opened BrotliComplexWriter
  import opened BrotliRuns
  import opened BrotliDescriptions

  // ---------- the code for lengths ----------

  /** One number is at the front of any four bits. */
  lemma NumberWas(s: bits)
    requires |s| >= 4
    ensures |PREFIX_LENGTH| == |PREFIX_VALUE| == 16
    ensures var len, n := PREFIX_VALUE[FourBits(s)], PREFIX_LENGTH[FourBits(s)];
            len <= 5 && n == |LengthNumber(len)| && s == LengthNumber(len) + s[n..]
  {
    FourAre(s[0], s[1], s[2], s[3]);
    assert s[..4] == [s[0], s[1], s[2], s[3]];
    FourIs(s);
    var n := PREFIX_LENGTH[FourBits(s)];
    assert s[..n] == LengthNumber(PREFIX_VALUE[FourBits(s)]);
    assert s == s[..n] + s[n..];
  }

  /** The lengths at places below i are those of the code, the others are zero. */
  ghost predicate ReadUpTo(lens: lengths, i: nat) {
    |lens| == 18 && (forall s :: 0 <= s < 18 ==> lens[s] <= 5) && forall j :: i <= j < 18 ==> lens[Listed(j)] == 0
  }

  /** What is read in place of the lengths of the code for lengths was written for them. */
  lemma {:induction false} NumbersWere(s: bits, i: nat, lens: lengths, space: int, nonzero: nat, code: lengths,
                                       rest: bits) returns (n: nat)
    requires i <= 18 && ReadUpTo(lens, i) && Room(lens, 5, space, nonzero) && space >= 0
    requires ReadCodeLengths(s, i, lens, space, nonzero) == Some((code, rest))
    ensures i <= n <= 18 && ReadUpTo(code, n) && (forall j :: 0 <= j < i ==> code[Listed(j)] == lens[Listed(j)])
    ensures Used(code, 18) == 1 || (Used(code, 18) >= 2 && Kraft(code) == Pow2(MAX_LEN))
    ensures Used(code, 18) == 1 ==> n == 18
    ensures i < n && Used(code, 18) >= 2 ==> code[Listed(n - 1)] != 0
    ensures nonzero >= 2 && space == 0 ==> i == n
    ensures i == n ==> nonzero == Used(code, 18) && (nonzero >= 2 ==> space == 0)
    ensures i < n ==> |LengthNumber(code[Listed(n - 1)])| + |rest| >= 4
    ensures s == NumbersBits(code, i, n) + rest
    decreases 18 - i
  {
    hide *;
    UpToIs(lens, i);
    if i == 18 || (nonzero >= 2 && space == 0) {
      n := i;
      CodeLengthsEnd(s, i, lens, space, nonzero);
      AllWereRead(lens, space, nonzero);
      NoNumbers(code, n, rest);
    } else {
      CodeLengthsTurn(s, i, lens, space, nonzero);
      NumberWas(s);
      OrderListed(i);
      var len := PREFIX_VALUE[FourBits(s)];
      var more := s[|LengthNumber(len)|..];
      var next := lens[Listed(i) := len];
      NumberRead(lens, i, space, nonzero, len);
      n := NumbersWere(more, i + 1, next, space - Taken(5, len), nonzero + Count(len, 1), code, rest);
      UpToIs(code, n);
      NumberBefore(code, i, n, len, rest);
      assert code[Listed(i)] == next[Listed(i)] == len;
      CountIs(len);
    }
  }

  lemma UpToIs(lens: lengths, i: nat)
    requires ReadUpTo(lens, i)
    ensures |lens| == 18 && forall s :: 0 <= s < 18 ==> lens[s] <= 5
    ensures forall j :: i <= j < 18 ==> lens[Listed(j)] == 0
  {}

  lemma CountIs(len: nat)
    ensures len == 0 ==> Taken(5, len) == 0 && Count(len, 1) == 0
  {}

  lemma AllWereRead(lens: lengths, space: int, nonzero: nat)
    requires |lens| == 18 && Room(lens, 5, space, nonzero) && nonzero > 0 && (nonzero >= 2 ==> space == 0)
    ensures Used(lens, 18) == nonzero && (nonzero >= 2 ==> Kraft(lens) == Pow2(MAX_LEN))
  {
    if nonzero >= 2 { RoomUsedUp(lens, 5, nonzero); }
  }

  lemma NoNumbers(code: lengths, n: nat, rest: bits)
    requires n <= 18 == |code| && forall s :: 0 <= s < 18 ==> code[s] <= 5
    ensures NumbersBits(code, n, n) + rest == rest
  {}

  lemma NumberRead(lens: lengths, i: nat, space: int, nonzero: nat, len: nat)
    requires i < 18 && ReadUpTo(lens, i) && Room(lens, 5, space, nonzero) && len <= 5
    ensures ReadUpTo(lens[Listed(i) := len], i + 1)
    ensures Room(lens[Listed(i) := len], 5, space - Taken(5, len), nonzero + Count(len, 1))
    ensures forall j :: 0 <= j < i ==> lens[Listed(i) := len][Listed(j)] == lens[Listed(j)]
  {
    hide Room, Listed, Pow2;
    forall j | 0 <= j < 18 && j != i ensures Listed(j) != Listed(i) {
      PlaceIs(i);
      PlaceIs(j);
    }
    if len == 0 { assert lens[Listed(i) := len] == lens; } else { RoomNext(lens, 5, space, nonzero, Listed(i), len); }
  }

  lemma NumberBefore(code: lengths, i: nat, n: nat, len: nat, rest: bits)
    requires i < n <= 18 == |code| && (forall s :: 0 <= s < 18 ==> code[s] <= 5) && code[Listed(i)] == len
    ensures LengthNumber(len) + (NumbersBits(code, i + 1, n) + rest) == NumbersBits(code, i, n) + rest
    ensures i + 1 == n ==> NumbersBits(code, i + 1, n) == []
  {
    hide Listed;
    Assoc(LengthNumber(len), NumbersBits(code, i + 1, n), rest);
  }

  // ---------- the symbols of the code for lengths ----------

  /** The code that the lengths are written with. */
  ghost predicate ForLengths(c: SymbolCode) {
    match c
    case Single(sym) => sym < 18
    case Coded(lens) => |lens| == 18 && Fits(lens)
  }

  lemma SymbolWas(c: SymbolCode, s: bits)
    requires ForLengths(c) && ReadCode(c, s).Some?
    ensures var (sym, rest) := ReadCode(c, s).value;
            sym < 18 && Has(c, sym) && s == SymbolBits(c, sym) + rest
  {
    hide Canonical.Decode, CodeBits, Kraft;
    match c {
      case Single(_) => assert [] + s == s;
      case Coded(lens) => DecodeIffCode(lens, s, ReadCode(c, s).value.0, ReadCode(c, s).value.1);
    }
  }

  /** The run that a symbol would carry on. */
  ghost predicate Carries(p: Progress, kind: nat) {
    && 0 < p.prev <= 15
    && match kind
       case 0 => p.run == 0
       case 16 => p.run >= 3 && p.runLen == p.prev
       case 17 => p.run >= 3 && p.runLen == 0
       case _ => false
  }

  /** One turn of the parser, on the way to a result. */
  datatype Turn = Turn(sym: nat, delta: nat, next: Progress, rest: bits)

  /** The bits of the turn, and its effect. */
  ghost predicate IsTurn(t: Turn, c: SymbolCode, s: bits, size: nat, p: Progress) {
    && t.sym < 18 && Has(c, t.sym) && t.next.space >= 0 && |p.done| < |t.next.done| <= size
    && if t.sym < 16 then
         && s == SymbolBits(c, t.sym) + t.rest
         && t.next == Append(p, t.sym, 1, if t.sym == 0 then p.prev else t.sym, 0)
       else
         && s == SymbolBits(c, t.sym) + (LsbOf(t.delta, ExtraOf(t.sym)) + t.rest) && t.delta < BaseOf(t.sym)
         && RunLength(p, t.sym, t.delta) > CarriedOn(p, t.sym)
         && t.next == Append(p, RepeatedLength(p, t.sym), RunLength(p, t.sym, t.delta) - CarriedOn(p, t.sym), p.prev,
                             RunLength(p, t.sym, t.delta))
  }

  lemma OneTurn(c: SymbolCode, s: bits, size: nat, p: Progress) returns (t: Turn)
    requires ForLengths(c) && |p.done| < size && p.space > 0 && ReadLengths(c, s, size, p).Some?
    ensures IsTurn(t, c, s, size, p) && ReadLengths(c, t.rest, size, t.next) == ReadLengths(c, s, size, p)
  {
    hide ForLengths, ReadCode, SymbolBits, Has, TakeBits, NumberOf, LsbOf, RunLength, CarriedOn, RepeatedLength, Taken,
         Pow2, ReadLengths, Append;
    LengthsTurn(c, s, size, p);
    SymbolWas(c, s);
    var (sym, rest) := ReadCode(c, s).value;
    if sym < 16 {
      t := Turn(sym, 0, Append(p, sym, 1, if sym == 0 then p.prev else sym, 0), rest);
    } else {
      ExtraWas(rest, ExtraOf(sym));
      BaseIs(sym);
      var (delta, more) := TakeBits(rest, ExtraOf(sym)).value;
      var run := RunLength(p, sym, delta);
      t := Turn(sym, delta, Append(p, RepeatedLength(p, sym), run - CarriedOn(p, sym), p.prev, run), more);
    }
  }

  lemma ExtraWas(s: bits, n: nat)
    requires TakeBits(s, n).Some?
    ensures var (v, rest) := TakeBits(s, n).value;
            v < Pow2(n) && s == LsbOf(v, n) + rest
  {
    NumberBound(s[..n]);
    LsbOfNumber(s[..n]);
    assert s == s[..n] + s[n..];
  }

  /** What one turn appends. */
  lemma TurnAppends(t: Turn, c: SymbolCode, s: bits, size: nat, p: Progress)
    requires IsTurn(t, c, s, size, p) && 0 < p.prev <= 15
    ensures var len, n := if t.sym < 16 then t.sym else RepeatedLength(p, t.sym), |t.next.done| - |p.done|;
            && len <= 15 && n > 0 && t.next.done == p.done + Copies(len, n) && 0 < t.next.prev <= 15
            && t.next == Append(p, len, n, t.next.prev, t.next.run)
            && (p.space > 0 && t.next.space == 0 ==> len != 0)
  {
    hide Pow2;
    var len := if t.sym < 16 then t.sym else RepeatedLength(p, t.sym);
    NothingTaken(len);
    MulZero(|t.next.done| - |p.done|);
  }

  lemma MulZero(n: int)
    ensures n * 0 == 0
  {}

  ghost predicate AtMost15(lens: lengths) {
    forall s :: 0 <= s < |lens| ==> lens[s] <= 15
  }

  /** The parser only adds lengths, of at most fifteen bits. */
  lemma {:induction false} OnlyAdds(c: SymbolCode, s: bits, p: Progress, lens: lengths, tail: bits)
    requires ForLengths(c) && |p.done| <= |lens| && 0 < p.prev <= 15 && AtMost15(p.done)
    requires ReadLengths(c, s, |lens|, p) == Some((lens, tail))
    ensures AtMost15(lens) && p.done == lens[..|p.done|]
    ensures |p.done| == |lens| || p.space <= 0 ==>
              s == tail && p.space == 0 && p.nonzero >= 2 && lens == p.done + Copies(0, |lens| - |p.done|)
    decreases |lens| - |p.done|
  {
    hide *;
    if |p.done| == |lens| || p.space <= 0 {
      LengthsDone(c, s, p, lens, tail);
    } else {
      var t := OneTurn(c, s, |lens|, p);
      TurnLonger(t, c, s, |lens|, p);
      TurnAppends(t, c, s, |lens|, p);
      StillAtMost15(p.done, if t.sym < 16 then t.sym else RepeatedLength(p, t.sym), |t.next.done| - |p.done|);
      OnlyAdds(c, t.rest, t.next, lens, tail);
      assert lens[..|t.next.done|][..|p.done|] == lens[..|p.done|];
    }
  }

  lemma TurnLonger(t: Turn, c: SymbolCode, s: bits, size: nat, p: Progress)
    requires IsTurn(t, c, s, size, p)
    ensures |p.done| < |t.next.done| <= size && t.next.space >= 0 && t.sym < 18 && Has(c, t.sym)
  {}

  lemma StillAtMost15(done: lengths, len: nat, n: nat)
    requires AtMost15(done) && len <= 15
    ensures AtMost15(done + Copies(len, n))
  {}

  lemma LengthsDone(c: SymbolCode, s: bits, p: Progress, lens: lengths, tail: bits)
    requires |p.done| <= |lens| && (|p.done| == |lens| || p.space <= 0)
    requires ReadLengths(c, s, |lens|, p) == Some((lens, tail))
    ensures s == tail && p.space == 0 && p.nonzero >= 2 && lens == p.done + Copies(0, |lens| - |p.done|)
    ensures AtMost15(p.done) ==> AtMost15(lens)
    ensures p.done == lens[..|p.done|]
  {}

  // ---------- the pieces ----------

  /** The lengths of the run that is carried on, and those of the pieces behind it. */
  function Grown(p: Progress, kind: nat, digits: seq<nat>): seq<nat> {
    if |digits| == 0 || Carry(p.run, digits, BaseOf(kind)) < p.run then []
    else Copies(RepeatedLength(p, kind), Carry(p.run, digits, BaseOf(kind)) - p.run)
  }

  /** The input stands for more digits of the run that is carried on, and for pieces. */
  ghost predicate Parsed(c: SymbolCode, s: bits, p: Progress, kind: nat, digits: seq<nat>, pieces: seq<Piece>,
                         more: lengths, tail: bits)
  {
    && PiecesOk(pieces) && Uses(c, pieces) && more == Grown(p, kind, digits) + Expand(pieces, p.prev)
    && (|digits| > 0 ==> kind in {16, 17} && Has(c, kind) && DigitsBelow(digits, BaseOf(kind)))
    && (|pieces| > 0 ==> !(kind == 16 && pieces[0].Again?) && !(kind == 17 && pieces[0].Nothing?))
    && s == RunBits(c, kind, digits) + (PiecesBits(c, pieces) + tail)
  }

  /** Whatever is read up to the last length was written as pieces. */
  lemma {:induction false} PiecesWere(c: SymbolCode, s: bits, p: Progress, kind: nat, lens: lengths, tail: bits)
    returns (digits: seq<nat>, pieces: seq<Piece>, m: nat)
    requires ForLengths(c) && |p.done| <= |lens| && Carries(p, kind) && AtMost15(p.done) && p.space >= 0
    requires ReadLengths(c, s, |lens|, p) == Some((lens, tail))
    ensures |p.done| <= m <= |lens| && (forall s :: m <= s < |lens| ==> lens[s] == 0)
    ensures p.space > 0 && |p.done| < |lens| ==> m > |p.done|
    ensures m > |p.done| ==> lens[m - 1] != 0
    ensures Parsed(c, s, p, kind, digits, pieces, lens[|p.done|..m], tail)
    decreases |lens| - |p.done|
  {
    hide *;
    CarriesPrev(p, kind);
    OnlyAdds(c, s, p, lens, tail);
    if |p.done| == |lens| || p.space <= 0 {
      digits, pieces, m := [], [], |p.done|;
      EndParsed(c, s, p, kind, lens, tail);
    } else {
      var t := OneTurn(c, s, |lens|, p);
      TurnLonger(t, c, s, |lens|, p);
      TurnAppends(t, c, s, |lens|, p);
      var len, n := if t.sym < 16 then t.sym else RepeatedLength(p, t.sym), |t.next.done| - |p.done|;
      StillAtMost15(p.done, len, n);
      TurnCarries(t, c, s, |lens|, p, kind);
      var k := if t.sym < 16 then 0 else t.sym;
      digits, pieces, m := PiecesWere(c, t.rest, t.next, k, lens, tail);
      OnlyAdds(c, t.rest, t.next, lens, tail);
      LastSet(p, t.next, len, n, lens, m);
      MoreIs(p, t.next, len, n, lens, m);
      digits, pieces := TurnParsed(c, s, |lens|, p, kind, t, digits, pieces, lens[|t.next.done|..m], tail);
    }
  }

  lemma CarriesPrev(p: Progress, kind: nat)
    requires Carries(p, kind)
    ensures 0 < p.prev <= 15 && (p.run == 0 || p.run >= 3) && kind in {0, 16, 17}
  {}

  lemma EndParsed(c: SymbolCode, s: bits, p: Progress, kind: nat, lens: lengths, tail: bits)
    requires |p.done| <= |lens| && s == tail && p.space == 0 && lens == p.done + Copies(0, |lens| - |p.done|)
    ensures Parsed(c, s, p, kind, [], [], lens[|p.done|..|p.done|], tail)
    ensures forall s :: |p.done| <= s < |lens| ==> lens[s] == 0
  {
    assert RunBits(c, kind, []) + (PiecesBits(c, []) + tail) == tail;
    assert lens[|p.done|..|p.done|] == [];
  }

  /** The turn leaves a run to carry on, of its own kind. */
  lemma TurnCarries(t: Turn, c: SymbolCode, s: bits, size: nat, p: Progress, kind: nat)
    requires IsTurn(t, c, s, size, p) && Carries(p, kind)
    ensures Carries(t.next, if t.sym < 16 then 0 else t.sym)
    ensures t.sym >= 16 ==> CarriedOn(p, t.sym) == if t.sym == kind then p.run else 0
  {
    if t.sym >= 16 { RunStart(p, t.sym, t.delta); }
  }

  lemma LastSet(p: Progress, q: Progress, len: nat, n: nat, lens: lengths, m: nat)
    requires q.done == p.done + Copies(len, n) && n > 0 && |q.done| <= m <= |lens| && q.done == lens[..|q.done|]
    requires m > |q.done| ==> lens[m - 1] != 0
    requires m == |q.done| ==> len != 0
    ensures lens[m - 1] != 0
  {
    if m == |q.done| { assert lens[m - 1] == lens[..|q.done|][m - 1] == q.done[m - 1]; }
  }

  lemma MoreIs(p: Progress, q: Progress, len: nat, n: nat, lens: lengths, m: nat)
    requires q.done == p.done + Copies(len, n) && |q.done| <= m <= |lens| && q.done == lens[..|q.done|]
    ensures lens[|p.done|..m] == Copies(len, n) + lens[|q.done|..m]
  {
    assert lens[|p.done|..|q.done|] == lens[..|q.done|][|p.done|..] == Copies(len, n);
  }

  /** A turn in front of what is parsed already. */
  lemma TurnParsed(c: SymbolCode, s: bits, size: nat, p: Progress, kind: nat, t: Turn, digits: seq<nat>,
                   pieces: seq<Piece>, more: lengths, tail: bits)
    returns (digits': seq<nat>, pieces': seq<Piece>)
    requires IsTurn(t, c, s, size, p) && Carries(p, kind)
    requires Parsed(c, t.rest, t.next, if t.sym < 16 then 0 else t.sym, digits, pieces, more, tail)
    ensures var len, n := if t.sym < 16 then t.sym else RepeatedLength(p, t.sym), |t.next.done| - |p.done|;
            n >= 0 && Parsed(c, s, p, kind, digits', pieces', Copies(len, n) + more, tail)
  {
    hide *;
    TurnLonger(t, c, s, size, p);
    if t.sym < 16 {
      digits', pieces' := [], [Plain(t.sym)] + pieces;
      PlainParsed(c, s, size, p, kind, t, digits, pieces, more, tail);
    } else if t.sym == kind {
      digits', pieces' := [t.delta] + digits, pieces;
      DigitParsed(c, s, size, p, t, digits, pieces, more, tail);
    } else {
      var run := [t.delta] + digits;
      digits', pieces' := [], [if t.sym == 16 then Again(run) else Nothing(run)] + pieces;
      RunParsed(c, s, size, p, kind, t, digits, pieces, more, tail);
    }
  }

  lemma PlainParsed(c: SymbolCode, s: bits, size: nat, p: Progress, kind: nat, t: Turn, digits: seq<nat>,
                    pieces: seq<Piece>, more: lengths, tail: bits)
    requires IsTurn(t, c, s, size, p) && Carries(p, kind) && t.sym < 16
    requires Parsed(c, t.rest, t.next, 0, digits, pieces, more, tail)
    ensures |t.next.done| == |p.done| + 1
    ensures Parsed(c, s, p, kind, [], [Plain(t.sym)] + pieces, Copies(t.sym, 1) + more, tail)
  {
    hide SymbolBits, Has, RunBits, Expand, PiecesBits;
    var piece := Plain(t.sym);
    NoDigitsLeft(c, t.rest, t.next, digits, pieces, more, tail);
    OneMorePiece(c, piece, pieces, p.prev, tail);
    NoRun(c, kind, p);
    assert [] + (Copies(t.sym, 1) + more) == Copies(t.sym, 1) + more;
    assert s == [] + (PiecesBits(c, [piece] + pieces) + tail);
  }

  lemma NoRun(c: SymbolCode, kind: nat, p: Progress)
    ensures RunBits(c, kind, []) == [] && Grown(p, kind, []) == []
  {}

  lemma NoDigitsLeft(c: SymbolCode, s: bits, p: Progress, digits: seq<nat>, pieces: seq<Piece>, more: lengths,
                     tail: bits)
    requires Parsed(c, s, p, 0, digits, pieces, more, tail)
    ensures more == Expand(pieces, p.prev) && s == PiecesBits(c, pieces) + tail && PiecesOk(pieces) && Uses(c, pieces)
  {
    assert digits == [];
    NoRun(c, 0, p);
    assert [] + Expand(pieces, p.prev) == Expand(pieces, p.prev);
    assert [] + (PiecesBits(c, pieces) + tail) == PiecesBits(c, pieces) + tail;
  }

  lemma OneMorePiece(c: SymbolCode, piece: Piece, pieces: seq<Piece>, prev: nat, tail: bits)
    requires PieceOk(piece) && PiecesOk(pieces) && Uses(c, pieces) && Has(c, SymbolOf(piece))
    requires |pieces| > 0 ==> Separate(piece, pieces[0])
    ensures PiecesOk([piece] + pieces) && Uses(c, [piece] + pieces)
    ensures Expand([piece] + pieces, prev) == Stretch(piece, prev) + Expand(pieces, LastAfter(piece, prev))
    ensures PiecesBits(c, [piece] + pieces) + tail == PieceBits(c, piece) + (PiecesBits(c, pieces) + tail)
  {
    hide Has, PieceOk, Separate, Stretch, PieceBits, LastAfter;
    FirstThen(piece, pieces, prev);
    assert ([piece] + pieces)[1..] == pieces;
    PiecesBitsAre(c, [piece] + pieces, tail);
  }

  /** One more digit in front. */
  lemma DigitsMore(c: SymbolCode, s: bits, size: nat, p: Progress, t: Turn, digits: seq<nat>, rest: bits)
    requires IsTurn(t, c, s, size, p) && t.sym >= 16 && (p.run == 0 || p.run >= 3)
    requires t.rest == RunBits(c, t.sym, digits) + rest && (|digits| > 0 ==> DigitsBelow(digits, BaseOf(t.sym)))
    ensures s == RunBits(c, t.sym, [t.delta] + digits) + rest && DigitsBelow([t.delta] + digits, BaseOf(t.sym))
    ensures var run := Carry(CarriedOn(p, t.sym), [t.delta] + digits, BaseOf(t.sym));
            && run >= t.next.run == RunLength(p, t.sym, t.delta) >= 3 && run == Carry(t.next.run, digits, BaseOf(t.sym))
            && (|digits| == 0 ==> run == t.next.run)
  {
    hide *;
    var all := [t.delta] + digits;
    assert all[1..] == digits;
    RepeatIs(t, c, s, size, p);
    RunBitsAre(c, t.sym, all, rest);
    RunStart(p, t.sym, t.delta);
    CarryFirst(CarriedOn(p, t.sym), all, BaseOf(t.sym));
    OneMoreDigit(t.delta, digits, BaseOf(t.sym));
  }

  /** A turn on a run symbol. */
  lemma RepeatIs(t: Turn, c: SymbolCode, s: bits, size: nat, p: Progress)
    requires IsTurn(t, c, s, size, p) && t.sym >= 16
    ensures s == SymbolBits(c, t.sym) + (LsbOf(t.delta, ExtraOf(t.sym)) + t.rest) && t.delta < BaseOf(t.sym)
    ensures t.sym in {16, 17} && t.next.run == RunLength(p, t.sym, t.delta)
  {
    hide SymbolBits, Has, RunLength, CarriedOn, RepeatedLength, Taken, LsbOf;
  }

  lemma OneMoreDigit(d: nat, digits: seq<nat>, base: nat)
    requires d < base && (|digits| > 0 ==> DigitsBelow(digits, base))
    ensures DigitsBelow([d] + digits, base)
  {}

  lemma DigitParsed(c: SymbolCode, s: bits, size: nat, p: Progress, t: Turn, digits: seq<nat>, pieces: seq<Piece>,
                    more: lengths, tail: bits)
    requires IsTurn(t, c, s, size, p) && Carries(p, t.sym) && t.sym >= 16
    requires Parsed(c, t.rest, t.next, t.sym, digits, pieces, more, tail)
    ensures |t.next.done| > |p.done|
    ensures Parsed(c, s, p, t.sym, [t.delta] + digits, pieces,
                   Copies(RepeatedLength(p, t.sym), |t.next.done| - |p.done|) + more, tail)
  {
    hide SymbolBits, Has, Carry, RunLength, Pow2, Taken, LsbOf, RunBits, PiecesBits, Expand, DigitsBelow, PiecesOk;
    DigitsMore(c, s, size, p, t, digits, PiecesBits(c, pieces) + tail);
    TurnCarries(t, c, s, size, p, t.sym);
    var len, run := RepeatedLength(p, t.sym), Carry(p.run, [t.delta] + digits, BaseOf(t.sym));
    assert Copies(len, t.next.run - p.run) + Copies(len, run - t.next.run) == Copies(len, run - p.run);
    assert Grown(t.next, t.sym, digits) == Copies(len, run - t.next.run);
    Assoc2(Copies(len, t.next.run - p.run), Copies(len, run - t.next.run), Expand(pieces, p.prev));
  }

  lemma Assoc2(a: lengths, b: lengths, c: lengths)
    ensures a + (b + c) == (a + b) + c
  {}

  lemma RunParsed(c: SymbolCode, s: bits, size: nat, p: Progress, kind: nat, t: Turn, digits: seq<nat>,
                  pieces: seq<Piece>, more: lengths, tail: bits)
    requires IsTurn(t, c, s, size, p) && Carries(p, kind) && t.sym >= 16 && t.sym != kind
    requires Parsed(c, t.rest, t.next, t.sym, digits, pieces, more, tail)
    ensures |t.next.done| > |p.done|
    ensures var run := [t.delta] + digits;
            Parsed(c, s, p, kind, [], [if t.sym == 16 then Again(run) else Nothing(run)] + pieces,
                   Copies(RepeatedLength(p, t.sym), |t.next.done| - |p.done|) + more, tail)
  {
    hide SymbolBits, Has, Carry, RunLength, Pow2, Taken, LsbOf, RunBits, PiecesBits, Expand, DigitsBelow, PiecesOk,
        Uses, RunTotal;
    var digits' := [t.delta] + digits;
    var piece := if t.sym == 16 then Again(digits') else Nothing(digits');
    DigitsMore(c, s, size, p, t, digits, PiecesBits(c, pieces) + tail);
    TurnCarries(t, c, s, size, p, kind);
    TotalIsRun(piece);
    OneMorePiece(c, piece, pieces, p.prev, tail);
    NoRun(c, kind, p);
    var len, run := RepeatedLength(p, t.sym), Carry(0, digits', BaseOf(t.sym));
    assert Copies(len, t.next.run) + Copies(len, run - t.next.run) == Copies(len, run) == Stretch(piece, p.prev);
    assert Grown(t.next, t.sym, digits) == Copies(len, run - t.next.run);
    Assoc2(Copies(len, t.next.run), Copies(len, run - t.next.run), Expand(pieces, p.prev));
    assert [] + (Copies(len, run) + Expand(pieces, p.prev)) == Copies(len, run) + Expand(pieces, p.prev);
    assert [] + (PiecesBits(c, [piece] + pieces) + tail) == PiecesBits(c, [piece] + pieces) + tail;
  }

  // ---------- exactly the descriptions ----------

  /** What is accepted is complete. */
  lemma {:induction false} CompleteRead(c: SymbolCode, s: bits, p: Progress, lens: lengths, tail: bits)
    requires ForLengths(c) && |p.done| <= |lens| && 0 < p.prev <= 15 && AtMost15(p.done) && Tracks(p, lens)
    requires ReadLengths(c, s, |lens|, p) == Some((lens, tail))
    ensures Complete(lens)
    decreases |lens| - |p.done|
  {
    hide *;
    OnlyAdds(c, s, p, lens, tail);
    if |p.done| == |lens| || p.space <= 0 {
      AllTracked(p, lens);
    } else {
      var t := OneTurn(c, s, |lens|, p);
      TurnLonger(t, c, s, |lens|, p);
      TurnAppends(t, c, s, |lens|, p);
      var len, n := if t.sym < 16 then t.sym else RepeatedLength(p, t.sym), |t.next.done| - |p.done|;
      StillAtMost15(p.done, len, n);
      OnlyAdds(c, t.rest, t.next, lens, tail);
      assert lens[|p.done|..|t.next.done|] == lens[..|t.next.done|][|p.done|..] == Copies(len, n);
      TracksOn(p, lens, len, n, t.next.prev, t.next.run);
      CompleteRead(c, t.rest, t.next, lens, tail);
    }
  }

  lemma AllTracked(p: Progress, lens: lengths)
    requires Tracks(p, lens) && AtMost15(lens) && p.space == 0 && p.nonzero >= 2 && |p.done| <= |lens|
    requires lens == p.done + Copies(0, |lens| - |p.done|)
    ensures Complete(lens)
  {
    hide KraftUpTo, Used, Pow2;
    forall s | |p.done| <= s < |lens| ensures lens[s] == 0 {
      assert lens[s] == Copies(0, |lens| - |p.done|)[s - |p.done|];
    }
    KraftGrows(lens, |p.done|, |lens|);
  }

  /** A code for lengths with the number of its lengths that are written, and pieces with the number of lengths that
      they stand for. */
  datatype Description = Description(code: lengths, n: nat, pieces: seq<Piece>, m: nat)

  /** The bits start with a description of a complete code. */
  ghost predicate Describes(d: Description, s: bits, hskip: nat, lens: lengths, tail: bits) {
    && LengthsCode(d.code, hskip) && hskip <= d.n <= 18 && EndsAt(d.code, d.n)
    && Complete(lens) && EndAt(lens, d.m)
    && PiecesOk(d.pieces) && Uses(CodeFrom(d.code), d.pieces) && Expand(d.pieces, 8) == lens[..d.m]
    && (Used(d.code, 18) == 1 ==>
         |LengthNumber(d.code[15])| + |PiecesBits(CodeFrom(d.code), d.pieces)| + |tail| >= 4)
    && s == DescriptionBits(d.code, hskip, d.n, d.pieces) + tail
  }

  /** The decoder accepts descriptions of complete codes and nothing else, and reads the code described. */
  lemma AcceptsDescriptions(s: bits, hskip: nat, lens: lengths, tail: bits)
    requires hskip <= 3
    ensures ReadComplex(s, hskip, |lens|) == Some((lens, tail)) <==>
            exists d: Description :: Describes(d, s, hskip, lens, tail)
  {
    hide *;
    if ReadComplex(s, hskip, |lens|) == Some((lens, tail)) { var d := WasDescribed(s, hskip, lens, tail); }
    if exists d: Description :: Describes(d, s, hskip, lens, tail) {
      var d: Description :| Describes(d, s, hskip, lens, tail);
      DescribedReads(d, s, hskip, lens, tail);
    }
  }

  lemma DescribedReads(d: Description, s: bits, hskip: nat, lens: lengths, tail: bits)
    requires hskip <= 3 && Describes(d, s, hskip, lens, tail)
    ensures ReadComplex(s, hskip, |lens|) == Some((lens, tail))
  {
    hide LengthsCode, EndsAt, Complete, EndAt, PiecesOk, Uses, CodeFrom, Expand, Used, LengthNumber, PiecesBits,
         DescriptionBits, ReadComplex;
    DescriptionReadsBack(d.code, hskip, d.n, d.pieces, lens, d.m, tail);
  }

  lemma WasDescribed(s: bits, hskip: nat, lens: lengths, tail: bits) returns (d: Description)
    requires hskip <= 3 && ReadComplex(s, hskip, |lens|) == Some((lens, tail))
    ensures Describes(d, s, hskip, lens, tail)
  {
    hide *;
    ComplexStart(s, hskip, |lens|);
    var (code, rest) := ReadCodeLengths(s, hskip, Copies(0, 18), 32, 0).value;
    NothingUpTo(hskip);
    var n := NumbersWere(s, hskip, Copies(0, 18), 32, 0, code, rest);
    UpToIs(code, n);
    CodeWas(code, hskip, n);
    StartIs();
    OnlyAdds(CodeFrom(code), rest, Start(), lens, tail);
    StartOfAll(lens);
    var digits, pieces, m := PiecesWere(CodeFrom(code), rest, Start(), 0, lens, tail);
    CompleteRead(CodeFrom(code), rest, Start(), lens, tail);
    NoDigitsLeft(CodeFrom(code), rest, Start(), digits, pieces, lens[0..m], tail);
    SomeLengths(lens);
    assert lens[0..m] == lens[..m];
    d := Description(code, n, pieces, m);
    DescriptionIs(code, hskip, n, pieces, tail);
    EndWas(lens, m);
    LastNumberWas(code, hskip, n, |rest|);
    Collected(d, s, hskip, lens, tail);
  }

  lemma NothingUpTo(hskip: nat)
    requires hskip <= 3
    ensures ReadUpTo(Copies(0, 18), hskip) && Room(Copies(0, 18), 5, 32, 0)
  {
    hide Listed;
    RoomBefore();
  }

  /** The code for lengths is one, written up to its end. */
  lemma CodeWas(code: lengths, hskip: nat, n: nat)
    requires hskip <= 3 && hskip <= n <= 18 && ReadUpTo(code, n)
    requires forall j :: 0 <= j < hskip ==> code[Listed(j)] == Copies(0, 18)[Listed(j)]
    requires Used(code, 18) == 1 || (Used(code, 18) >= 2 && Kraft(code) == Pow2(MAX_LEN))
    requires Used(code, 18) == 1 ==> n == 18
    requires hskip < n && Used(code, 18) >= 2 ==> code[Listed(n - 1)] != 0
    requires hskip == n ==> Used(code, 18) == 0
    ensures LengthsCode(code, hskip) && EndsAt(code, n) && ForLengths(CodeFrom(code))
  {
    hide KraftUpTo, Used, Pow2, Listed;
    UpToIs(code, n);
    if Used(code, 18) == 1 { LastIsBelow(code, 18); }
  }

  lemma {:induction false} LastIsBelow(code: lengths, n: nat)
    requires 0 < n <= |code|
    ensures LastUsed(code, n) < n
    decreases n
  {
    if code[n - 1] == 0 && n > 1 { LastIsBelow(code, n - 1); }
  }

  lemma StartIs()
    ensures Start().done == [] && Start().nonzero == 0 && Start().space > 0 && AtMost15(Start().done)
    ensures Start().prev == 8 && Carries(Start(), 0)
  {}

  lemma StartOfAll(lens: lengths)
    requires AtMost15(lens)
    ensures Tracks(Start(), lens)
  {
    Pow2Values();
  }

  lemma SomeLengths(lens: lengths)
    requires Complete(lens)
    ensures |lens| > 0
  {}

  lemma EndWas(lens: lengths, m: nat)
    requires 0 < m <= |lens| && lens[m - 1] != 0 && forall s :: m <= s < |lens| ==> lens[s] == 0
    ensures EndAt(lens, m)
  {}

  lemma LastNumberWas(code: lengths, hskip: nat, n: nat, left: nat)
    requires |code| == 18 && hskip < n <= 18 && EndsAt(code, n) && forall s :: 0 <= s < 18 ==> code[s] <= 5
    requires |LengthNumber(code[Listed(n - 1)])| + left >= 4
    ensures Used(code, 18) == 1 ==> |LengthNumber(code[15])| + left >= 4
  {
    hide Used, LengthNumber;
    assert Listed(17) == 15;
  }

  lemma Collected(d: Description, s: bits, hskip: nat, lens: lengths, tail: bits)
    requires LengthsCode(d.code, hskip) && hskip <= d.n <= 18 && EndsAt(d.code, d.n)
    requires Complete(lens) && EndAt(lens, d.m)
    requires PiecesOk(d.pieces) && Uses(CodeFrom(d.code), d.pieces) && Expand(d.pieces, 8) == lens[..d.m]
    requires forall s :: 0 <= s < 18 ==> d.code[s] <= 5
    requires Used(d.code, 18) == 1 ==>
               |LengthNumber(d.code[15])| + |PiecesBits(CodeFrom(d.code), d.pieces)| + |tail| >= 4
    requires s == DescriptionBits(d.code, hskip, d.n, d.pieces) + tail
    ensures Describes(d, s, hskip, lens, tail)
  {
    hide LengthsCode, EndsAt, Complete, EndAt, PiecesOk, Uses, CodeFrom, Expand, Used, LengthNumber, PiecesBits,
         DescriptionBits;
  }
}
