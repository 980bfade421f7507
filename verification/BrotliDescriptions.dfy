/** Whole descriptions of complex prefix codes: whatever code for lengths and whatever runs an encoder chooses, the
    decoder reads the lengths that were described; and every complete code has a description. */
module BrotliDescriptions {
  import opened Bits
  import opened LsbBits
  import opened Canonical
  import opened BrotliCodes
  import opened BrotliPrefix
  import opened BrotliSymbols
  import opened BrotliHeader
  import opened BrotliComplex
  import opened BrotliComplexWriter
  import opened BrotliRuns

  /** One length, a run of the last length that was not zero, or a run of zeros; runs by their digits. */
  datatype Piece = Plain(len: nat) | Again(digits: seq<nat>) | Nothing(digits: seq<nat>)

  function LastAfter(piece: Piece, prev: nat): nat {
    if piece.Plain? && piece.len != 0 then piece.len else prev
  }

  /** The lengths that one piece stands for behind the last length that was not zero. */
  function Stretch(piece: Piece, prev: nat): (r: seq<nat>) {
    match piece
    case Plain(len) => Copies(len, 1)
    case Again(digits) => Copies(prev, RunTotal(digits, 4))
    case Nothing(digits) => Copies(0, RunTotal(digits, 8))
  }

  function Expand(pieces: seq<Piece>, prev: nat): seq<nat> {
    if |pieces| == 0 then [] else Stretch(pieces[0], prev) + Expand(pieces[1..], LastAfter(pieces[0], prev))
  }

  ghost predicate PieceOk(piece: Piece) {
    match piece
    case Plain(len) => len <= 15
    case Again(digits) => DigitsBelow(digits, 4)
    case Nothing(digits) => DigitsBelow(digits, 8)
  }

  /** Runs of one kind that follow each other are one run. */
  predicate Separate(a: Piece, b: Piece) {
    !(a.Again? && b.Again?) && !(a.Nothing? && b.Nothing?)
  }

  ghost predicate PiecesOk(pieces: seq<Piece>) {
    && (forall i :: 0 <= i < |pieces| ==> PieceOk(pieces[i]))
    && (forall i :: 0 <= i < |pieces| - 1 ==> Separate(pieces[i], pieces[i + 1]))
  }

  function SymbolOf(piece: Piece): nat {
    match piece
    case Plain(len) => len
    case Again(_) => 16
    case Nothing(_) => 17
  }

  function PieceBits(c: SymbolCode, piece: Piece): bits {
    match piece
    case Plain(len) => SymbolBits(c, len)
    case Again(digits) => RunBits(c, 16, digits)
    case Nothing(digits) => RunBits(c, 17, digits)
  }

  function PiecesBits(c: SymbolCode, pieces: seq<Piece>): bits {
    if |pieces| == 0 then [] else PieceBits(c, pieces[0]) + PiecesBits(c, pieces[1..])
  }

  /** The code for lengths has all symbols that are needed. */
  ghost predicate Uses(c: SymbolCode, pieces: seq<Piece>) {
    forall i :: 0 <= i < |pieces| ==> Has(c, SymbolOf(pieces[i]))
  }

  /** A complete code of several symbols with at most fifteen bits each. */
  ghost predicate Complete(lens: lengths) {
    && (forall s :: 0 <= s < |lens| ==> lens[s] <= 15) && Used(lens, |lens|) >= 2 && Kraft(lens) == Pow2(MAX_LEN)
  }

  /** All symbols from m on have no code, symbol m-1 has one. */
  ghost predicate EndAt(lens: lengths, m: nat) {
    0 < m <= |lens| && lens[m - 1] != 0 && forall s :: m <= s < |lens| ==> lens[s] == 0
  }

  // ---------- the parser's count of the room left ----------

  /** What has been read is the beginning of the lengths. */
  ghost predicate Tracks(p: Progress, lens: lengths) {
    && InRange(lens) && |p.done| <= |lens| && p.done == lens[..|p.done|]
    && 32 * p.space == Pow2(20) - KraftUpTo(lens, |p.done|, MAX_LEN) && p.nonzero == Used(lens, |p.done|)
  }

  lemma {:induction false} KraftRun(lens: lengths, from: nat, n: nat, len: nat)
    requires InRange(lens) && from + n <= |lens| && len <= 15
    requires forall i :: from <= i < from + n ==> lens[i] == len
    ensures KraftUpTo(lens, from + n, MAX_LEN) == KraftUpTo(lens, from, MAX_LEN) + 32 * (n * Taken(15, len))
    ensures Used(lens, from + n) == Used(lens, from) + Count(len, n)
    decreases n
  {
    if n > 0 {
      KraftRun(lens, from, n - 1, len);
      ShareOf(len);
      Split(n - 1, 1, Taken(15, len));
      KraftOne(lens, from + n - 1);
    }
  }

  lemma KraftOne(lens: lengths, i: nat)
    requires InRange(lens) && i < |lens|
    ensures KraftUpTo(lens, i + 1, MAX_LEN)
         == KraftUpTo(lens, i, MAX_LEN) + (if lens[i] > 0 then Pow2(20 - lens[i]) else 0)
    ensures Used(lens, i + 1) == Used(lens, i) + Count(lens[i], 1)
  {}

  lemma ShareOf(len: nat)
    requires len <= 15
    ensures 32 * Taken(15, len) == if len > 0 then Pow2(20 - len) else 0
  {
    Pow2Values();
    if len > 0 { Pow2Add(5, 15 - len); }
  }

  lemma TracksOn(p: Progress, lens: lengths, len: nat, n: nat, prev: nat, run: nat)
    requires Tracks(p, lens) && len <= 15 && |p.done| + n <= |lens|
    requires lens[|p.done|..|p.done| + n] == Copies(len, n)
    ensures Tracks(Append(p, len, n, prev, run), lens)
  {
    hide KraftUpTo, Used, Pow2, Taken, Count;
    var k := |p.done|;
    forall i | k <= i < k + n ensures lens[i] == len {
      assert lens[k..k + n][i - k] == len;
    }
    KraftRun(lens, k, n, len);
    MaxBitsIs();
    assert p.done + Copies(len, n) == lens[..k + n];
  }

  lemma {:induction false} KraftGrows(lens: lengths, a: nat, b: nat)
    requires InRange(lens) && a <= b <= |lens|
    ensures KraftUpTo(lens, a, MAX_LEN) <= KraftUpTo(lens, b, MAX_LEN)
    ensures a < b && lens[b - 1] != 0 ==> KraftUpTo(lens, a, MAX_LEN) < KraftUpTo(lens, b, MAX_LEN)
    ensures (forall s :: a <= s < b ==> lens[s] == 0) ==>
              KraftUpTo(lens, a, MAX_LEN) == KraftUpTo(lens, b, MAX_LEN) && Used(lens, a) == Used(lens, b)
    decreases b
  {
    hide Pow2;
    if a < b { KraftGrows(lens, a, b - 1); }
  }

  /** There is room up to the last symbol with a code, and none behind it. */
  lemma RoomTracked(p: Progress, lens: lengths, m: nat)
    requires Tracks(p, lens) && Complete(lens) && EndAt(lens, m) && |p.done| <= m
    ensures p.space >= 0 && (|p.done| < m ==> p.space > 0)
    ensures |p.done| == m ==> p.space == 0 && p.nonzero >= 2 && p.done + Copies(0, |lens| - m) == lens
  {
    hide KraftUpTo, Used, Pow2;
    KraftGrows(lens, |p.done|, m);
    KraftGrows(lens, m, |lens|);
  }

  // ---------- the pieces read back ----------

  /** The next piece does not carry on the run that was just read. */
  ghost predicate Fresh(p: Progress, pieces: seq<Piece>) {
    |pieces| > 0 ==>
      (pieces[0].Again? ==> CarriedOn(p, 16) == 0) && (pieces[0].Nothing? ==> CarriedOn(p, 17) == 0)
  }

  /** The progress behind one piece. */
  function Behind(p: Progress, piece: Piece): Progress {
    match piece
    case Plain(len) => Append(p, len, 1, LastAfter(piece, p.prev), 0)
    case Again(digits) => Append(p, p.prev, RunTotal(digits, 4), p.prev, RunTotal(digits, 4))
    case Nothing(digits) => Append(p, 0, RunTotal(digits, 8), p.prev, RunTotal(digits, 8))
  }

  lemma BehindIs(p: Progress, pieces: seq<Piece>)
    requires PiecesOk(pieces) && |pieces| > 0 && 0 < p.prev <= 15
    ensures var q := Behind(p, pieces[0]);
            && 0 < q.prev <= 15 && q.prev == LastAfter(pieces[0], p.prev)
            && q.done == p.done + Stretch(pieces[0], p.prev) && (q.run == 0 || q.run >= 3)
            && PiecesOk(pieces[1..]) && Fresh(q, pieces[1..])
  {
    hide RunTotal, DigitsBelow;
    var rest := pieces[1..];
    assert PieceOk(pieces[0]);
    TotalIsRun(pieces[0]);
    forall i | 0 <= i < |rest| ensures PieceOk(rest[i]) { assert rest[i] == pieces[i + 1]; }
    forall i | 0 <= i < |rest| - 1 ensures Separate(rest[i], rest[i + 1]) {
      assert rest[i] == pieces[i + 1] && rest[i + 1] == pieces[i + 2];
    }
    if |rest| > 0 { assert Separate(pieces[0], pieces[1]); }
  }

  lemma TotalIsRun(piece: Piece)
    requires PieceOk(piece)
    ensures piece.Again? ==> RunTotal(piece.digits, 4) >= 3 && Carry(0, piece.digits, 4) == RunTotal(piece.digits, 4)
    ensures piece.Nothing? ==> RunTotal(piece.digits, 8) >= 3 && Carry(0, piece.digits, 8) == RunTotal(piece.digits, 8)
  {
    hide Power;
    if !piece.Plain? { DigitSumPositive(piece.digits, if piece.Again? then 4 else 8); }
  }

  /** One piece is read. */
  lemma PieceReadBack(c: SymbolCode, piece: Piece, rest: bits, size: nat, p: Progress)
    requires PieceOk(piece) && Has(c, SymbolOf(piece)) && Fresh(p, [piece]) && (p.run == 0 || p.run >= 3)
    requires p.space > 0 && |Behind(p, piece).done| <= size && Behind(p, piece).space >= 0 && |p.done| < size
    ensures ReadLengths(c, PieceBits(c, piece) + rest, size, p) == ReadLengths(c, rest, size, Behind(p, piece))
  {
    hide ReadLengths, RunBits, SymbolBits, Has, ReadCode, RunTotal, Carry, Taken, DigitsBelow;
    TotalIsRun(piece);
    MaxBitsIs();
    match piece {
      case Plain(len) =>
        SymbolReads(c, len, rest);
        LengthsTurn(c, SymbolBits(c, len) + rest, size, p);
      case Again(digits) => RunReadBack(c, 16, digits, rest, size, p);
      case Nothing(digits) => RunReadBack(c, 17, digits, rest, size, p);
    }
  }

  lemma {:induction false} PiecesReadBack(c: SymbolCode, pieces: seq<Piece>, lens: lengths, m: nat, p: Progress,
                                          tail: bits)
    requires PiecesOk(pieces) && Uses(c, pieces) && Complete(lens) && EndAt(lens, m)
    requires Tracks(p, lens) && 0 < p.prev <= 15 && (p.run == 0 || p.run >= 3) && Fresh(p, pieces)
    requires |p.done| <= m && Expand(pieces, p.prev) == lens[|p.done|..m]
    ensures ReadLengths(c, PiecesBits(c, pieces) + tail, |lens|, p) == Some((lens, tail))
    decreases |pieces|
  {
    hide *;
    EndIsIn(lens, m);
    RoomTracked(p, lens, m);
    if |pieces| == 0 {
      NoPieces(c, pieces, lens, m, p, tail);
    } else {
      var q, rest := Behind(p, pieces[0]), pieces[1..];
      FirstPiece(c, pieces, p);
      BehindIs(p, pieces);
      StretchIs(pieces, lens, m, p);
      RoomTracked(q, lens, m);
      PiecesBitsAre(c, pieces, tail);
      PieceReadBack(c, pieces[0], PiecesBits(c, rest) + tail, |lens|, p);
      PiecesReadBack(c, rest, lens, m, q, tail);
    }
  }

  lemma EndIsIn(lens: lengths, m: nat)
    requires EndAt(lens, m)
    ensures 0 < m <= |lens|
  {}

  lemma NoPieces(c: SymbolCode, pieces: seq<Piece>, lens: lengths, m: nat, p: Progress, tail: bits)
    requires |pieces| == 0 && |p.done| <= m <= |lens| && Expand(pieces, p.prev) == lens[|p.done|..m]
    requires |p.done| == m ==> p.space == 0 && p.nonzero >= 2 && p.done + Copies(0, |lens| - m) == lens
    ensures ReadLengths(c, PiecesBits(c, pieces) + tail, |lens|, p) == Some((lens, tail))
  {
    assert |lens[|p.done|..m]| == 0;
    assert PiecesBits(c, pieces) + tail == tail;
  }

  lemma FirstPiece(c: SymbolCode, pieces: seq<Piece>, p: Progress)
    requires |pieces| > 0 && PiecesOk(pieces) && Uses(c, pieces) && Fresh(p, pieces)
    ensures PieceOk(pieces[0]) && Has(c, SymbolOf(pieces[0])) && Fresh(p, [pieces[0]]) && Uses(c, pieces[1..])
  {
    hide Has, PieceOk, Separate;
    forall i | 0 <= i < |pieces[1..]| ensures Has(c, SymbolOf(pieces[1..][i])) {
      assert pieces[1..][i] == pieces[i + 1];
    }
  }

  lemma PiecesBitsAre(c: SymbolCode, pieces: seq<Piece>, tail: bits)
    requires |pieces| > 0
    ensures PiecesBits(c, pieces) + tail == PieceBits(c, pieces[0]) + (PiecesBits(c, pieces[1..]) + tail)
  {
    hide PieceBits;
    Assoc(PieceBits(c, pieces[0]), PiecesBits(c, pieces[1..]), tail);
  }

  /** The lengths behind what has been read start with the first piece. */
  lemma StretchIs(pieces: seq<Piece>, lens: lengths, m: nat, p: Progress)
    requires |pieces| > 0 && PiecesOk(pieces) && 0 < p.prev <= 15 && Tracks(p, lens) && |p.done| <= m <= |lens|
    requires Expand(pieces, p.prev) == lens[|p.done|..m]
    ensures var q := Behind(p, pieces[0]);
            && |p.done| < |q.done| <= m && Tracks(q, lens)
            && Expand(pieces[1..], LastAfter(pieces[0], p.prev)) == lens[|q.done|..m]
  {
    hide Tracks, RunTotal, DigitsBelow, Expand;
    var a, b := Stretch(pieces[0], p.prev), Expand(pieces[1..], LastAfter(pieces[0], p.prev));
    var k := |p.done|;
    ExpandIs(pieces, p.prev);
    assert PieceOk(pieces[0]);
    TotalIsRun(pieces[0]);
    assert |a| > 0 && k + |a| <= m;
    assert lens[k..m][..|a|] == a && lens[k..m][|a|..] == b;
    assert lens[k..m][..|a|] == lens[k..k + |a|] && lens[k..m][|a|..] == lens[k + |a|..m];
    match pieces[0] {
      case Plain(len) => TracksOn(p, lens, len, 1, LastAfter(pieces[0], p.prev), 0);
      case Again(digits) => TracksOn(p, lens, p.prev, |a|, p.prev, |a|);
      case Nothing(digits) => TracksOn(p, lens, 0, |a|, p.prev, |a|);
    }
  }

  lemma ExpandIs(pieces: seq<Piece>, prev: nat)
    requires |pieces| > 0
    ensures Expand(pieces, prev) == Stretch(pieces[0], prev) + Expand(pieces[1..], LastAfter(pieces[0], prev))
  {}

  // ---------- whole descriptions ----------

  /** A description behind its tag: the lengths of the code for lengths, and the pieces in that code. */
  function DescriptionBits(code: lengths, hskip: nat, n: nat, pieces: seq<Piece>): bits
    requires hskip <= n <= 18 == |code| && forall s :: 0 <= s < 18 ==> code[s] <= 5
  {
    NumbersBits(code, hskip, n) + PiecesBits(CodeFrom(code), pieces)
  }

  /** Whatever description an encoder chooses, the lengths that it describes are read. The decoder looks at four bits
      for each number, so that as many have to be there at the last one; only a code of a single symbol could leave
      fewer. */
  lemma DescriptionReadsBack(code: lengths, hskip: nat, n: nat, pieces: seq<Piece>, lens: lengths, m: nat, tail: bits)
    requires LengthsCode(code, hskip) && hskip <= n <= 18 && EndsAt(code, n)
    requires Complete(lens) && EndAt(lens, m)
    requires PiecesOk(pieces) && Uses(CodeFrom(code), pieces) && Expand(pieces, 8) == lens[..m]
    requires Used(code, 18) == 1 ==> |LengthNumber(code[15])| + |PiecesBits(CodeFrom(code), pieces)| + |tail| >= 4
    ensures ReadComplex(DescriptionBits(code, hskip, n, pieces) + tail, hskip, |lens|) == Some((lens, tail))
  {
    hide *;
    CodeShape(code, hskip);
    EndIsIn(lens, m);
    var c := CodeFrom(code);
    var body := PiecesBits(c, pieces) + tail;
    SeveralOrOne(code, hskip);
    if Used(code, 18) != 1 { EnoughBits(code, pieces, lens, m); }
    LastNumber(code, n);
    DescriptionIs(code, hskip, n, pieces, tail);
    NothingYet(code, hskip);
    RoomBefore();
    NumbersReadBack(code, hskip, hskip, n, 32, 0, body);
    ComplexStart(DescriptionBits(code, hskip, n, pieces) + tail, hskip, |lens|);
    StartTracks(pieces, lens);
    assert lens[0..m] == lens[..m];
    PiecesReadBack(c, pieces, lens, m, Start(), tail);
  }

  lemma SeveralOrOne(code: lengths, hskip: nat)
    requires LengthsCode(code, hskip)
    ensures hskip <= 3 && (Used(code, 18) == 1 || (CodeFrom(code) == Coded(code) && Used(code, 18) >= 2))
  {}

  lemma DescriptionIs(code: lengths, hskip: nat, n: nat, pieces: seq<Piece>, tail: bits)
    requires hskip <= n <= 18 == |code| && forall s :: 0 <= s < 18 ==> code[s] <= 5
    ensures DescriptionBits(code, hskip, n, pieces) + tail
         == NumbersBits(code, hskip, n) + (PiecesBits(CodeFrom(code), pieces) + tail)
  {
    hide NumbersBits, PiecesBits, CodeFrom;
    Assoc(NumbersBits(code, hskip, n), PiecesBits(CodeFrom(code), pieces), tail);
  }

  lemma NothingYet(code: lengths, hskip: nat)
    requires LengthsCode(code, hskip)
    ensures Partial(code, hskip) == Copies(0, 18)
  {
    hide Listed, Place, Used, Kraft;
    forall s | 0 <= s < 18 ensures Partial(code, hskip)[s] == 0 {
      if Place(s) < hskip { assert code[Listed(Place(s))] == 0; }
    }
  }

  /** A number has at least two bits; of a single symbol's code the last one is that of symbol 15. */
  lemma LastNumber(code: lengths, n: nat)
    requires |code| == 18 && EndsAt(code, n) && forall s :: 0 <= s < 18 ==> code[s] <= 5
    ensures 0 < n && |LengthNumber(code[Listed(n - 1)])| >= 2 && (Used(code, 18) == 1 ==> Listed(n - 1) == 15)
  {
    hide Used;
  }

  lemma RoomBefore()
    ensures Room(Copies(0, 18), 5, 32, 0)
  {
    hide Pow2;
    Pow2Values();
    RoomStart(Copies(0, 18), 5);
  }

  lemma StartTracks(pieces: seq<Piece>, lens: lengths)
    requires Complete(lens)
    ensures Tracks(Start(), lens) && Start().prev == 8 && Start().run == 0 && Start().done == []
            && Fresh(Start(), pieces)
  {
    Pow2Values();
  }

  lemma EnoughBits(code: lengths, pieces: seq<Piece>, lens: lengths, m: nat)
    requires CodeFrom(code) == Coded(code) && Uses(CodeFrom(code), pieces) && PiecesOk(pieces)
    requires Complete(lens) && EndAt(lens, m) && Expand(pieces, 8) == lens[..m]
    ensures |PiecesBits(CodeFrom(code), pieces)| >= 2
  {
    hide *;
    var c := CodeFrom(code);
    EndIsIn(lens, m);
    SomePiece(pieces, lens, m);
    PieceTakesBits(code, pieces[0], pieces);
    PiecesBitsAre(c, pieces, []);
    if |pieces| > 1 {
      PieceTakesBits(code, pieces[1], pieces);
      PiecesBitsAre(c, pieces[1..], []);
    } else {
      OnePiece(pieces, lens, m);
    }
  }

  lemma SomePiece(pieces: seq<Piece>, lens: lengths, m: nat)
    requires 0 < m <= |lens| && Expand(pieces, 8) == lens[..m]
    ensures |pieces| > 0
  {
    assert |Expand(pieces, 8)| == m;
  }

  lemma PieceTakesBits(code: lengths, piece: Piece, pieces: seq<Piece>)
    requires piece in pieces && Uses(Coded(code), pieces) && PiecesOk(pieces)
    ensures |PieceBits(Coded(code), piece)| >= if piece.Plain? then 1 else 2
  {
    hide CodeBits, Kraft, LsbOf;
    var i :| 0 <= i < |pieces| && pieces[i] == piece;
    assert Has(Coded(code), SymbolOf(pieces[i])) && PieceOk(pieces[i]);
  }

  /** One length alone is not a code of several symbols. */
  lemma OnePiece(pieces: seq<Piece>, lens: lengths, m: nat)
    requires |pieces| == 1 && Complete(lens) && EndAt(lens, m) && Expand(pieces, 8) == lens[..m]
    ensures !pieces[0].Plain?
  {
    hide Kraft, KraftUpTo;
    if pieces[0].Plain? {
      ExpandIs(pieces, 8);
      assert Expand(pieces[1..], LastAfter(pieces[0], 8)) == [];
      assert |lens[..m]| == 1;
      UsedUpTo(lens, 1, |lens|);
    }
  }

  lemma {:induction false} UsedUpTo(lens: lengths, m: nat, n: nat)
    requires m <= n <= |lens| && forall s :: m <= s < |lens| ==> lens[s] == 0
    ensures Used(lens, n) == Used(lens, m)
    decreases n
  {
    if m < n { UsedUpTo(lens, m, n - 1); }
  }

  // ---------- a description for every code ----------

  /** How many lengths at the front are equal to this one. */
  function Equals(ls: seq<nat>, len: nat): (n: nat)
    ensures n <= |ls| && ls[..n] == Copies(len, n) && (n < |ls| ==> ls[n] != len)
  {
    if |ls| == 0 || ls[0] != len then 0
    else
      var n := Equals(ls[1..], len) + 1;
      assert ls[..n] == [ls[0]] + ls[1..][..n - 1];
      n
  }

  /** The longest run first, if it has at least three lengths. */
  function FirstOf(ls: seq<nat>, prev: nat): (r: (Piece, nat))
    requires |ls| > 0
    ensures 0 < r.1 <= |ls|
  {
    if ls[0] == 0 && Equals(ls, 0) >= 3 then (Nothing(DigitsOf(Equals(ls, 0) - 2, 8)), Equals(ls, 0))
    else if ls[0] == prev && Equals(ls, prev) >= 3 then (Again(DigitsOf(Equals(ls, prev) - 2, 4)), Equals(ls, prev))
    else (Plain(ls[0]), 1)
  }

  function PiecesOf(ls: seq<nat>, prev: nat): seq<Piece>
    decreases |ls|
  {
    if |ls| == 0 then []
    else [FirstOf(ls, prev).0] + PiecesOf(ls[FirstOf(ls, prev).1..], LastAfter(FirstOf(ls, prev).0, prev))
  }

  lemma FirstOfIs(ls: seq<nat>, prev: nat)
    requires |ls| > 0 && prev > 0 && forall i :: 0 <= i < |ls| ==> ls[i] <= 15
    ensures var f := FirstOf(ls, prev);
            && PieceOk(f.0) && Stretch(f.0, prev) == ls[..f.1]
            && (f.0.Nothing? && f.1 < |ls| ==> ls[f.1] != 0) && (f.0.Again? && f.1 < |ls| ==> ls[f.1] != prev)
            && SymbolOf(f.0) < 18 && LastAfter(f.0, prev) > 0
            && (f.0.Nothing? ==> ls[0] == 0) && (f.0.Again? ==> ls[0] == prev)
  {
    hide Power, DigitSum, DigitsOf;
    var zeros, same := Equals(ls, 0), Equals(ls, prev);
    if zeros >= 3 { DigitsAre(zeros - 2, 8); }
    if same >= 3 { DigitsAre(same - 2, 4); }
  }

  lemma {:induction false} PiecesOfDescribe(ls: seq<nat>, prev: nat)
    requires prev > 0 && forall i :: 0 <= i < |ls| ==> ls[i] <= 15
    ensures PiecesOk(PiecesOf(ls, prev)) && Expand(PiecesOf(ls, prev), prev) == ls
    ensures forall i :: 0 <= i < |PiecesOf(ls, prev)| ==> SymbolOf(PiecesOf(ls, prev)[i]) < 18
    decreases |ls|
  {
    hide FirstOf, Stretch, PieceOk;
    if |ls| > 0 {
      var f := FirstOf(ls, prev);
      var rest, then' := ls[f.1..], LastAfter(f.0, prev);
      FirstOfIs(ls, prev);
      PiecesOfDescribe(rest, then');
      if |rest| > 0 { FirstOfIs(rest, then'); }
      FirstThen(f.0, PiecesOf(rest, then'), prev);
      assert ls[..f.1] + rest == ls;
    }
  }

  lemma FirstThen(piece: Piece, rest: seq<Piece>, prev: nat)
    requires PieceOk(piece) && PiecesOk(rest) && (|rest| > 0 ==> Separate(piece, rest[0]))
    ensures PiecesOk([piece] + rest)
    ensures Expand([piece] + rest, prev) == Stretch(piece, prev) + Expand(rest, LastAfter(piece, prev))
  {
    hide PieceOk, Separate;
    assert ([piece] + rest)[1..] == rest;
  }

  /** A code that has all eighteen symbols: fourteen with four bits and four with five. */
  function AllSymbols(): lengths { [4, 4, 4, 4, 4, 4, 4, 4, 4, 4, 4, 4, 4, 4, 5, 5, 5, 5] }

  lemma AllSymbolsFit()
    ensures LengthsCode(AllSymbols(), 0) && EndsAt(AllSymbols(), 18) && CodeFrom(AllSymbols()) == Coded(AllSymbols())
    ensures Used(AllSymbols(), 18) == 18
    ensures forall s: nat :: s < 18 ==> Has(Coded(AllSymbols()), s)
  {
    AllSymbolsKraft();
    hide KraftUpTo, Used, Pow2, Listed;
  }

  lemma AllSymbolsKraft()
    ensures InRange(AllSymbols()) && Used(AllSymbols(), 18) == 18 && Kraft(AllSymbols()) == Pow2(MAX_LEN)
  {
    hide Pow2;
    var a := AllSymbols();
    Pow2Values();
    assert Used(a, 6) == 6 && Used(a, 12) == 12 && Used(a, 18) == 18;
    assert KraftUpTo(a, 6, MAX_LEN) == 6 * 0x10000;
    assert KraftUpTo(a, 12, MAX_LEN) == 12 * 0x10000;
    assert KraftUpTo(a, 18, MAX_LEN) == 14 * 0x10000 + 4 * 0x8000;
  }

  /** Every complete code can be described, with runs wherever they are long enough, and is read back. */
  lemma EveryCodeReadsBack(lens: lengths, m: nat, tail: bits)
    requires Complete(lens) && EndAt(lens, m)
    ensures |AllSymbols()| == 18 && forall s :: 0 <= s < 18 ==> AllSymbols()[s] <= 5
    ensures ReadComplex(DescriptionBits(AllSymbols(), 0, 18, PiecesOf(lens[..m], 8)) + tail, 0, |lens|)
         == Some((lens, tail))
  {
    hide *;
    AllSymbolsFit();
    CodeShape(AllSymbols(), 0);
    EndIsIn(lens, m);
    AtMostFifteen(lens);
    PiecesOfDescribe(lens[..m], 8);
    AllUsed(PiecesOf(lens[..m], 8));
    SeveralOrOne(AllSymbols(), 0);
    DescriptionReadsBack(AllSymbols(), 0, 18, PiecesOf(lens[..m], 8), lens, m, tail);
  }

  lemma AtMostFifteen(lens: lengths)
    requires Complete(lens)
    ensures forall s :: 0 <= s < |lens| ==> lens[s] <= 15
  {}

  lemma AllUsed(pieces: seq<Piece>)
    requires forall s: nat :: s < 18 ==> Has(Coded(AllSymbols()), s)
    requires forall i :: 0 <= i < |pieces| ==> SymbolOf(pieces[i]) < 18
    ensures Uses(Coded(AllSymbols()), pieces)
  {
    hide Has;
  }

  /** With its tag, which says how many lengths are not written, a description is read as the code that it describes. */
  lemma CodeReadsBack(code: lengths, hskip: nat, n: nat, pieces: seq<Piece>, lens: lengths, m: nat, tail: bits)
    requires hskip in {0, 2, 3} && LengthsCode(code, hskip) && hskip <= n <= 18 && EndsAt(code, n)
    requires Complete(lens) && EndAt(lens, m)
    requires PiecesOk(pieces) && Uses(CodeFrom(code), pieces) && Expand(pieces, 8) == lens[..m]
    requires Used(code, 18) == 1 ==> |LengthNumber(code[15])| + |PiecesBits(CodeFrom(code), pieces)| + |tail| >= 4
    ensures PrefixCodeAhead(LsbOf(hskip, 2) + (DescriptionBits(code, hskip, n, pieces) + tail), |lens|)
         == Some((Coded(lens), tail))
  {
    hide *;
    CodeShape(code, hskip);
    var body := DescriptionBits(code, hskip, n, pieces) + tail;
    DescriptionReadsBack(code, hskip, n, pieces, lens, m, tail);
    assert hskip < Pow2(2) by { Pow2Values(); }
    TakeWritten(hskip, 2, body);
    TakenExtra(LsbOf(hskip, 2) + body, 2);
    AheadIs(LsbOf(hskip, 2) + body, |lens|);
  }
}
