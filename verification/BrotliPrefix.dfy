/** Brotli's prefix codes: canonical codes (section 3.2 of RFC 7932) decoded through a lookup or bit by bit. */
module BrotliPrefix {
  import opened Bits
  import opened LsbBits
  import opened Permutations
  import opened Canonical
  import opened DecodeTable
  import opened BrotliBits
  import BitIo

  const MAX_ENTRIES: nat := 704
  const LOOKUP_BITS: nat := 8
  const LOOKUP_SIZE: nat := 256
  const MAX_BITS: nat := 15

  /** How many symbols have a code. */
  function Used(lens: lengths, n: nat): (c: nat)
    requires n <= |lens|
    ensures c <= n
  {
    if n == 0 then 0 else Used(lens, n - 1) + (if lens[n - 1] != 0 then 1 else 0)
  }

  // ---------- the lookup ----------

  /** The code of symbol s starts the eight bits of index p. */
  ghost predicate StartsIndex(lens: lengths, s: nat, p: nat)
    requires s < |lens|
  {
    lens[s] <= LOOKUP_BITS && CodeBits(lens, s) == LsbOf(p, LOOKUP_BITS)[..lens[s]]
  }

  /** The entry at p names the symbol with code length len, or is empty. */
  ghost predicate EntryOk(lens: lengths, p: nat, sym: int, len: int) {
    len == 0 || (0 <= sym < |lens| && len == lens[sym] && StartsIndex(lens, sym, p))
  }

  /** Every symbol that has been entered is found at every index that starts with its code. */
  ghost predicate Entered(lens: lengths, s: nat, syms: seq<int>, ls: seq<int>)
    requires s < |lens| && |syms| == |ls| == LOOKUP_SIZE
  {
    forall p :: 0 <= p < LOOKUP_SIZE && StartsIndex(lens, s, p) ==> syms[p] == s && ls[p] == lens[s]
  }

  ghost predicate LookupOk(lens: lengths, syms: seq<int>, ls: seq<int>) {
    && |syms| == |ls| == LOOKUP_SIZE
    && forall p :: 0 <= p < LOOKUP_SIZE ==> EntryOk(lens, p, syms[p], ls[p])
  }

  ghost predicate LookupFull(lens: lengths, syms: seq<int>, ls: seq<int>) {
    LookupOk(lens, syms, ls) && forall s :: 0 <= s < |lens| && lens[s] > 0 ==> Entered(lens, s, syms, ls)
  }

  /** A code read from the other end. */
  method Reverse(code: nat, len: nat) returns (reversed: nat)
    ensures reversed == NumberOf(BitsOf(code, len)) < Pow2(len)
  {
    hide BitsOf, NumberOf, Pow2;
    reversed := 0;
    NoBits(code);
    for bit := 0 to len
      invariant reversed == NumberOf(BitsOf(code, bit))
    {
      OneMoreBit(code, bit);
      reversed := 2 * reversed + code / Pow2(bit) % 2;
    }
    NumberBound(BitsOf(code, len));
  }

  lemma NoBits(code: nat)
    ensures NumberOf(BitsOf(code, 0)) == 0
  {}

  lemma OneMoreBit(code: nat, k: nat)
    ensures NumberOf(BitsOf(code, k + 1)) == 2 * NumberOf(BitsOf(code, k)) + code / Pow2(k) % 2
  {
    BitIo.TopField(code, k, 1);
    var top := code / Pow2(k) % 2;
    assert Pow2(1) == 2;
    OneBitNumber(top);
    assert BitsOf(code, k + 1) == [top == 1] + BitsOf(code, k);
    assert ([top == 1] + BitsOf(code, k))[1..] == BitsOf(code, k);
  }

  lemma OneBitNumber(v: nat)
    requires v < 2
    ensures BitsOf(v, 1) == [v == 1]
  {
    assert BitsOf(v / 2, 0) == [];
  }

  /** An index starts with a code exactly when its low bits are the reversed code. */
  lemma StartsMeans(lens: lengths, s: nat, p: nat)
    requires s < |lens| && 0 < lens[s] <= LOOKUP_BITS
    ensures StartsIndex(lens, s, p) <==> p % Pow2(lens[s]) == NumberOf(CodeBits(lens, s))
  {
    hide LsbOf, NumberOf, CodeBits, Pow2;
    var n, c := lens[s], CodeBits(lens, s);
    LsbPrefix(p, n, LOOKUP_BITS);
    NumberOfLsbMod(p, n);
    LsbOfNumber(c);
    LsbOfNumber(LsbOf(p, n));
  }

  /** No index starts with two codes. */
  lemma StartsOnce(lens: lengths, s: nat, t: nat, p: nat)
    requires Fits(lens) && s < |lens| && t < |lens| && lens[s] > 0 && lens[t] > 0
    requires StartsIndex(lens, s, p) && StartsIndex(lens, t, p)
    ensures s == t
  {
    hide CodeBits, Fits, LsbOf;
    var b := LsbOf(p, LOOKUP_BITS);
    if lens[s] <= lens[t] {
      assert b[..lens[t]] == b[..lens[s]] + b[lens[s]..lens[t]];
      PrefixFree(lens, s, t, b[lens[s]..lens[t]]);
    } else {
      assert b[..lens[s]] == b[..lens[t]] + b[lens[t]..lens[s]];
      PrefixFree(lens, t, s, b[lens[t]..lens[s]]);
    }
  }

  /** The entries after symbol s has been entered at the indices below r steps. */
  ghost predicate PartlyEntered(lens: lengths, s: nat, was: seq<int>, now: seq<int>, value: int, r: nat)
    requires s < |lens| && |was| == |now| == LOOKUP_SIZE
  {
    forall p :: 0 <= p < LOOKUP_SIZE ==>
      now[p] == if StartsIndex(lens, s, p) && p / Pow2(lens[s]) < r then value else was[p]
  }

  lemma LookupIs(r: nat, n: nat)
    ensures LOOKUP_BITS == 8 && LOOKUP_SIZE == 256 && BitIo.Scale(r, n) == r * Pow2(n)
  {}

  lemma EnterIndex(lens: lengths, s: nat, r: nat, reversed: nat)
    requires s < |lens| && 0 < lens[s] <= LOOKUP_BITS && r < Pow2(LOOKUP_BITS - lens[s])
    requires reversed == NumberOf(CodeBits(lens, s))
    ensures reversed < Pow2(lens[s])
    ensures var idx := BitIo.Or(BitIo.Scale(r, lens[s]), reversed);
            && 0 <= idx < LOOKUP_SIZE && StartsIndex(lens, s, idx) && idx / Pow2(lens[s]) == r
            && forall p :: 0 <= p < LOOKUP_SIZE && StartsIndex(lens, s, p) && p / Pow2(lens[s]) == r ==> p == idx
  {
    hide *;
    var n := lens[s];
    LookupIs(r, n);
    NumberBound(CodeBits(lens, s));
    BitIo.OrDisjoint(r, reversed, n);
    var idx := r * Pow2(n) + reversed;
    Pow2Add(LOOKUP_BITS - n, n);
    Pow2Values();
    MulMono(r + 1, Pow2(LOOKUP_BITS - n), Pow2(n));
    BitIo.Spread(0, 0, r, Pow2(n));
    DivModUnique(idx, r, Pow2(n), reversed);
    StartsMeans(lens, s, idx);
    forall p | 0 <= p < LOOKUP_SIZE && StartsIndex(lens, s, p) && p / Pow2(n) == r ensures p == idx {
      StartsMeans(lens, s, p);
      DivModSplit(p, Pow2(n));
    }
  }

  /** Enters one symbol at every index that starts with its code. */
  method EnterCode(ghost lens: lengths, s: nat, code: nat, len: nat, syms: array<int>, ls: array<int>)
    requires syms != ls && s < |lens| && len == lens[s] && 0 < len <= LOOKUP_BITS && code == Code(lens, s)
    requires syms.Length == ls.Length == LOOKUP_SIZE
    modifies syms, ls
    ensures PartlyEntered(lens, s, old(syms[..]), syms[..], s, Pow2(LOOKUP_BITS - len))
    ensures PartlyEntered(lens, s, old(ls[..]), ls[..], len, Pow2(LOOKUP_BITS - len))
  {
    hide StartsIndex, NumberOf, BitsOf, Pow2, BitIo.Or, BitIo.Scale, Code;
    var reversed := Reverse(code, len);
    assert CodeBits(lens, s) == BitsOf(code, len);
    var reps := Pow2(LOOKUP_BITS - len);
    ghost var was, wasLens := syms[..], ls[..];
    NothingBelow(len);
    for r := 0 to reps
      invariant PartlyEntered(lens, s, was, syms[..], s, r)
      invariant PartlyEntered(lens, s, wasLens, ls[..], len, r)
    {
      EnterIndex(lens, s, r, reversed);
      var idx := BitIo.Or(BitIo.Scale(r, len), reversed);
      ghost var now, nowLens := syms[..], ls[..];
      syms[idx], ls[idx] := s, len;
      assert syms[..] == now[idx := s] && ls[..] == nowLens[idx := len];
    }
  }

  lemma NothingBelow(len: nat)
    ensures forall p: nat :: p / Pow2(len) >= 0
  {
    forall p: nat ensures p / Pow2(len) >= 0 { DivModSplit(p, Pow2(len)); }
  }

  lemma AllIndices(p: nat, len: nat)
    requires p < LOOKUP_SIZE && len <= LOOKUP_BITS
    ensures 0 <= p / Pow2(len) < Pow2(LOOKUP_BITS - len)
  {
    Pow2Values();
    Pow2Add(LOOKUP_BITS - len, len);
    DivModSplit(p, Pow2(len));
    if p / Pow2(len) >= Pow2(LOOKUP_BITS - len) { MulMono(Pow2(LOOKUP_BITS - len), p / Pow2(len), Pow2(len)); }
  }

  /** A symbol with a short code that comes before this symbol of this length. */
  predicate ShortAndBefore(lens: lengths, t: nat, len: nat, symbol: nat)
    requires t < |lens|
  {
    0 < lens[t] <= LOOKUP_BITS && (lens[t] < len || (lens[t] == len && t < symbol))
  }

  /** Every entry is the last one among the symbols before this one whose code starts its index. */
  ghost predicate Latest(lens: lengths, syms: seq<int>, ls: seq<int>, len: nat, symbol: nat) {
    && LookupOk(lens, syms, ls)
    && forall p :: 0 <= p < LOOKUP_SIZE ==>
         && (ls[p] != 0 ==> ShortAndBefore(lens, syms[p], len, symbol))
         && forall t :: 0 <= t < |lens| && ShortAndBefore(lens, t, len, symbol) && StartsIndex(lens, t, p) ==>
              ls[p] != 0 && (t == syms[p] || ShortAndBefore(lens, t, ls[p], syms[p]))
  }

  /** Entering the next symbol. */
  lemma LatestNext(lens: lengths, s: nat, syms: seq<int>, ls: seq<int>, syms': seq<int>, ls': seq<int>)
    requires s < |lens| && 0 < lens[s] <= LOOKUP_BITS && Latest(lens, syms, ls, lens[s], s)
    requires |syms'| == |ls'| == LOOKUP_SIZE
    requires PartlyEntered(lens, s, syms, syms', s, Pow2(LOOKUP_BITS - lens[s]))
    requires PartlyEntered(lens, s, ls, ls', lens[s], Pow2(LOOKUP_BITS - lens[s]))
    ensures Latest(lens, syms', ls', lens[s], s + 1)
  {
    hide StartsIndex, Pow2;
    forall p | 0 <= p < LOOKUP_SIZE ensures 0 <= p / Pow2(lens[s]) < Pow2(LOOKUP_BITS - lens[s]) {
      AllIndices(p, lens[s]);
    }
  }

  /** Passing a symbol that has no code of this length, or a length that is too long for the lookup. */
  lemma LatestSkip(lens: lengths, syms: seq<int>, ls: seq<int>, len: nat, s: nat)
    requires s < |lens| && (lens[s] != len || len > LOOKUP_BITS) && Latest(lens, syms, ls, len, s)
    ensures Latest(lens, syms, ls, len, s + 1)
  {
    hide StartsIndex;
  }

  lemma LatestRow(lens: lengths, syms: seq<int>, ls: seq<int>, len: nat)
    requires Latest(lens, syms, ls, len, |lens|)
    ensures Latest(lens, syms, ls, len + 1, 0)
  {
    hide StartsIndex;
  }

  lemma LatestEnd(lens: lengths, syms: seq<int>, ls: seq<int>)
    requires Latest(lens, syms, ls, MaxLength(lens) + 1, 0)
    ensures Latest(lens, syms, ls, LOOKUP_BITS + 1, 0)
  {
    hide StartsIndex, MaxLength;
  }

  /** When the codes fit their lengths, only one of them starts an index, and all symbols are found. */
  lemma LatestFull(lens: lengths, syms: seq<int>, ls: seq<int>)
    requires Fits(lens) && Latest(lens, syms, ls, LOOKUP_BITS + 1, 0)
    ensures LookupFull(lens, syms, ls)
  {
    hide CodeBits, Fits, LsbOf;
    forall t, p | 0 <= t < |lens| && lens[t] > 0 && 0 <= p < LOOKUP_SIZE && StartsIndex(lens, t, p)
      ensures syms[p] == t && ls[p] == lens[t]
    {
      assert ShortAndBefore(lens, t, LOOKUP_BITS + 1, 0);
      StartsOnce(lens, syms[p], t, p);
    }
  }

  // ---------- the code object ----------

  class PrefixCode {
    const symbols: array<int>
    const firstCode: array<int>
    const firstIndex: array<int>
    const codeCount: array<int>
    const lookupSymbol: array<int>
    const lookupLength: array<int>
    var maxLength: nat
    var singleSymbol: nat
    var isSingleSymbol: bool
    ghost var lens: lengths
    ghost const Repr: set<object>

    ghost predicate Shaped()
      reads this
    {
      && Repr == {this, symbols, firstCode, firstIndex, codeCount, lookupSymbol, lookupLength}
      && symbols.Length == 704 && firstCode.Length == firstIndex.Length == codeCount.Length == MAX_BITS + 1
      && lookupSymbol.Length == lookupLength.Length == LOOKUP_SIZE
      && symbols !in {firstCode, firstIndex, codeCount, lookupSymbol, lookupLength}
      && firstCode !in {firstIndex, codeCount, lookupSymbol, lookupLength}
      && firstIndex !in {codeCount, lookupSymbol, lookupLength} && codeCount !in {lookupSymbol, lookupLength}
      && lookupSymbol != lookupLength
    }

    ghost predicate Valid()
      reads this, Repr
    {
      && Shaped() && |lens| <= 704
      && (isSingleSymbol ==> singleSymbol < |lens| && Used(lens, |lens|) == 1 && lens[singleSymbol] != 0)
      && (!isSingleSymbol ==>
           && Fits(lens) && 0 < maxLength == MaxLength(lens) <= MAX_BITS
           && ListedUpTo(lens, symbols[..], firstIndex[..], maxLength)
           && (forall l :: 1 <= l <= maxLength ==>
                firstCode[l] == FirstCode(lens, l) && codeCount[l] == CountAt(lens, l))
           && LookupFull(lens, lookupSymbol[..], lookupLength[..]))
    }

    constructor ()
      ensures Shaped() && fresh(Repr)
    {
      var s, c, i := new int[MAX_ENTRIES], new int[MAX_BITS + 1], new int[MAX_BITS + 1];
      var n, y, l := new int[MAX_BITS + 1], new int[LOOKUP_SIZE], new int[LOOKUP_SIZE];
      symbols, firstCode, firstIndex, codeCount, lookupSymbol, lookupLength := s, c, i, n, y, l;
      Repr := {this, s, c, i, n, y, l};
    }

    /** What building leaves for several symbols, whether their codes fit or not. */
    ghost predicate Made(lengths: seq<nat>)
      reads this, Repr
    {
      && Shaped() && lens == lengths && maxLength == MaxLength(lengths) <= MAX_BITS
      && ListedUpTo(lengths, symbols[..], firstIndex[..], maxLength)
      && (forall l :: 1 <= l <= maxLength ==>
           firstCode[l] == FirstCode(lengths, l) % 65536 && codeCount[l] == CountAt(lengths, l))
      && Latest(lengths, lookupSymbol[..], lookupLength[..], LOOKUP_BITS + 1, 0)
    }

    lemma MadeValid()
      requires Made(lens) && Fits(lens) && |lens| <= MAX_ENTRIES && 0 < maxLength && !isSingleSymbol
      ensures Valid()
    {
      hide ListedUpTo, Latest, LookupFull, Fits, FirstCode, CountAt, MaxLength;
      LatestFull(lens, lookupSymbol[..], lookupLength[..]);
      forall l | 1 <= l <= maxLength ensures firstCode[l] == FirstCode(lens, l) { FirstCodeSmall(lens, l); }
    }

    /** Enters the codes of at most eight bits, shorter codes first. */
    method FillLookup(lengths: seq<nat>, longest: nat)
      requires Shaped() && |lengths| <= MAX_ENTRIES && longest == MaxLength(lengths) <= MAX_BITS
      modifies lookupSymbol, lookupLength
      ensures Latest(lengths, lookupSymbol[..], lookupLength[..], LOOKUP_BITS + 1, 0)
    {
      hide Latest, PartlyEntered, Equal, FirstCode, CountAt, Code, MaxLength;
      for p := 0 to LOOKUP_SIZE
        invariant forall q :: 0 <= q < p ==> lookupSymbol[q] == 0 && lookupLength[q] == 0
      {
        lookupSymbol[p], lookupLength[p] := 0, 0;
      }
      EmptyLookup(lengths, lookupSymbol[..], lookupLength[..]);
      var cnt := CountLengths(lengths);
      var nextCode := FirstCodes(lengths, cnt, longest);
      for len := 1 to longest + 1
        invariant Latest(lengths, lookupSymbol[..], lookupLength[..], len, 0)
        invariant forall l :: len <= l <= longest ==> nextCode[l] == FirstCode(lengths, l)
      {
        CodeNextZero(lengths, len);
        for symbol := 0 to |lengths|
          invariant Latest(lengths, lookupSymbol[..], lookupLength[..], len, symbol)
          invariant nextCode[len] == FirstCode(lengths, len) + Equal(lengths, symbol, len)
          invariant forall l :: len < l <= longest ==> nextCode[l] == FirstCode(lengths, l)
        {
          CodeNextStep(lengths, symbol, len);
          ghost var syms, ls := lookupSymbol[..], lookupLength[..];
          if lengths[symbol] != len {
            LatestSkip(lengths, syms, ls, len, symbol);
            continue;
          }
          var code := nextCode[len];
          nextCode[len] := nextCode[len] + 1;
          if len <= LOOKUP_BITS {
            EnterCode(lengths, symbol, code, len, lookupSymbol, lookupLength);
            LatestNext(lengths, symbol, syms, ls, lookupSymbol[..], lookupLength[..]);
          } else {
            LatestSkip(lengths, syms, ls, len, symbol);
          }
        }
        LatestRow(lengths, lookupSymbol[..], lookupLength[..], len);
      }
      LatestEnd(lengths, lookupSymbol[..], lookupLength[..]);
    }

    /** Builds the code for these lengths; false when no symbol has one or a length is above fifteen. The code decodes
        as the canonical one when a single symbol or codes that fit their lengths are given. */
    method Build(lengths: seq<nat>) returns (ok: bool)
      requires Shaped() && |lengths| <= MAX_ENTRIES
      modifies Repr
      ensures ok <==> Used(lengths, |lengths|) > 0 && MaxLength(lengths) <= MAX_BITS
      ensures ok ==> lens == lengths && (isSingleSymbol <==> Used(lengths, |lengths|) == 1)
      ensures ok ==> isSingleSymbol || Made(lengths)
      ensures ok && (Used(lengths, |lengths|) >= 2 ==> Kraft(lengths) <= Pow2(MAX_LEN)) ==> Valid()
    {
      hide Latest, LookupFull, ListedUpTo, Kraft, CountAt, FirstCode, Pow2, MaxLength;
      maxLength, singleSymbol, isSingleSymbol, lens := 0, 0, false, lengths;
      var nonzero;
      nonzero, singleSymbol := CountUsed(lengths);
      maxLength := Longest(lengths);
      if nonzero == 0 || nonzero > MAX_ENTRIES || maxLength > MAX_BITS { return false; }
      LongEnough(lengths);
      if nonzero == 1 {
        isSingleSymbol := true;
        return true;
      }
      ListSymbols(lengths, maxLength, symbols, firstIndex);
      SetCounts(lengths, maxLength);
      FillLookup(lengths, maxLength);
      if Kraft(lengths) <= Pow2(MAX_LEN) { MadeValid(); }
      return true;
    }

    /** First code, cut to sixteen bits, and number of codes for every length. */
    method SetCounts(lengths: seq<nat>, longest: nat)
      requires Shaped() && InRange(lengths) && longest <= MAX_BITS
      modifies firstCode, codeCount
      ensures forall l :: 1 <= l <= longest ==>
                firstCode[l] == FirstCode(lengths, l) % 65536 && codeCount[l] == CountAt(lengths, l)
    {
      hide CountAt, FirstCode;
      var cnt := CountLengths(lengths);
      var first := FirstCodes(lengths, cnt, longest);
      for len := 1 to longest + 1
        invariant forall l :: 0 <= l <= MAX_LEN ==> cnt[l] == CountAt(lengths, l)
        invariant forall l :: 1 <= l <= longest ==> first[l] == FirstCode(lengths, l)
        invariant forall l :: 1 <= l < len ==>
                    firstCode[l] == FirstCode(lengths, l) % 65536 && codeCount[l] == CountAt(lengths, l)
      {
        firstCode[len], codeCount[len] := first[len] % 65536, cnt[len];
      }
    }

    /** Reads one symbol: through the lookup when it knows the next bits, else bit by bit. Either way it is the
        bit-by-bit decoding of the bits ahead. */
    method Decode(br: BitReader) returns (sym: int)
      requires Valid() && br.Valid() && !br.error && br !in Repr
      modifies br
      ensures br.Valid()
      ensures isSingleSymbol ==> sym == singleSymbol && br.Rest() == old(br.Rest()) && !br.error
      ensures !isSingleSymbol ==>
                match Canonical.Decode(lens, old(br.Rest()))
                case Sym(s, rest) => sym == s && br.Rest() == rest && !br.error
                case NoCode => sym == -1 && br.error
    {
      hide LookupFull, ListedUpTo, Kraft, Canonical.Decode, NumberOf, Pow2, CountAt, FirstCode;
      if isSingleSymbol { return singleSymbol; }
      var lookupBits := if maxLength < LOOKUP_BITS then maxLength else LOOKUP_BITS;
      if lookupBits > 0 && br.AvailableBits() >= lookupBits {
        AvailableIsRest(br);
        var filled := br.Fill(lookupBits);
        var idx := br.Peek(lookupBits);
        LookUpIndex(this, br.Rest(), idx, lookupBits);
        var len := lookupLength[idx];
        if len != 0 {
          sym := lookupSymbol[idx];
          var skipped := br.ReadBits(len);
          return;
        }
      }
      sym := DecodeBits(br);
    }

    /** The bit-by-bit path. */
    method DecodeBits(br: BitReader) returns (sym: int)
      requires Valid() && !isSingleSymbol && br.Valid() && !br.error && br !in Repr
      modifies br
      ensures br.Valid()
      ensures match Canonical.Decode(lens, old(br.Rest()))
              case Sym(s, rest) => sym == s && br.Rest() == rest && !br.error
              case NoCode => sym == -1 && br.error
    {
      hide *;
      var code := 0;
      var longest := maxLength;
      ghost var ls := lens;
      ghost var goal := Canonical.Decode(ls, br.Rest());
      DecodeStart(this, br.Rest());
      for len := 1 to longest + 1
        invariant br.Valid() && Valid() && !isSingleSymbol && !br.error && ls == lens && longest == maxLength
        invariant code >= EndCode(ls, len - 1) && DecodeFrom(ls, longest, code, len - 1, br.Rest()) == goal
      {
        ghost var rest := br.Rest();
        var bit := br.ReadBits(1);
        if br.error {
          NoMoreBits(ls, longest, code, len - 1, rest);
          return -1;
        }
        FirstBit(rest);
        DecodeOneBit(ls, longest, code, len - 1, rest);
        code := 2 * code + bit;
        var found := Find(code, len);
        if found >= 0 { return found; }
      }
      PastLongest(ls, longest, code, br.Rest());
      br.SetError();
      return -1;
    }

    /** The symbol whose code this is, or -1. */
    function Find(code: nat, len: nat): (s: int)
      requires Valid() && !isSingleSymbol && 1 <= len <= maxLength && code >= FirstCode(lens, len)
      reads this, Repr
      ensures code < EndCode(lens, len) ==> s == SymbolAt(lens, |lens|, len, code - FirstCode(lens, len))
      ensures code >= EndCode(lens, len) ==> s == -1
    {
      FoundAt(lens, symbols[..], firstIndex[..], maxLength, code, len);
      if code >= firstCode[len] && code - firstCode[len] < codeCount[len]
      then symbols[firstIndex[len] + (code - firstCode[len])] else -1
    }
  }

  method CountUsed(lengths: seq<nat>) returns (nonzero: nat, last: nat)
    ensures nonzero == Used(lengths, |lengths|) && (nonzero > 0 ==> last < |lengths| && lengths[last] != 0)
  {
    nonzero, last := 0, 0;
    for i := 0 to |lengths|
      invariant nonzero == Used(lengths, i) && (nonzero > 0 ==> last < i && lengths[last] != 0)
    {
      if lengths[i] != 0 { nonzero, last := nonzero + 1, i; }
    }
  }

  lemma {:induction false} NoneUsed(lens: lengths, n: nat)
    requires n <= |lens| && forall s :: 0 <= s < n ==> lens[s] == 0
    ensures Used(lens, n) == 0
    decreases n
  {
    if n > 0 { NoneUsed(lens, n - 1); }
  }

  lemma LongEnough(lens: lengths)
    requires Used(lens, |lens|) >= 1
    ensures MaxLength(lens) > 0 && (MaxLength(lens) <= MAX_BITS ==> InRange(lens))
  {
    if MaxLength(lens) == 0 { NoneUsed(lens, |lens|); }
  }

  lemma AvailableIsRest(br: BitReader)
    requires br.Valid()
    ensures br.AvailableBits() == |br.Rest()|
  {}

  lemma FirstBit(s: bits)
    requires |s| > 0
    ensures NumberOf(s[..1]) == if s[0] then 1 else 0
  {
    assert s[..1][1..] == [];
  }

  lemma NoMoreBits(lens: lengths, maxLen: nat, v: nat, l: nat, s: bits)
    requires v >= EndCode(lens, l) && |s| < 1
    ensures DecodeFrom(lens, maxLen, v, l, s) == NoCode
  {}

  lemma DecodeStart(c: PrefixCode, s: bits)
    requires c.Valid() && !c.isSingleSymbol
    ensures 0 >= EndCode(c.lens, 0) && Canonical.Decode(c.lens, s) == DecodeFrom(c.lens, c.maxLength, 0, 0, s)
  {}

  lemma FoundAt(lens: lengths, perm: seq<int>, offset: seq<int>, maxLen: nat, v: nat, l: nat)
    requires 1 <= l <= maxLen && v >= FirstCode(lens, l) && ListedUpTo(lens, perm, offset, maxLen)
    ensures v < EndCode(lens, l) ==>
              && 0 <= offset[l] + (v - FirstCode(lens, l)) < |perm|
              && perm[offset[l] + (v - FirstCode(lens, l))] == SymbolAt(lens, |lens|, l, v - FirstCode(lens, l))
  {
    assert offset[l] == Shorter(lens, l) && Listed(lens, perm, l, CountAt(lens, l));
  }

  /** What a filled entry says about the bits ahead. */
  lemma LookUpIndex(c: PrefixCode, s: bits, idx: nat, n: nat)
    requires c.Valid() && !c.isSingleSymbol && |s| >= n && idx == NumberOf(s[..n])
    requires n == if c.maxLength < LOOKUP_BITS then c.maxLength else LOOKUP_BITS
    ensures idx < LOOKUP_SIZE
    ensures c.lookupLength[idx] != 0 ==>
              && 0 < c.lookupLength[idx] <= n && 0 <= c.lookupSymbol[idx]
              && Canonical.Decode(c.lens, s) == Sym(c.lookupSymbol[idx], s[c.lookupLength[idx]..])
  {
    hide ListedUpTo, Kraft, Canonical.Decode, CodeBits, LsbOf, NumberOf, Pow2;
    var head := s[..n];
    NumberBound(head);
    Pow2Values();
    Pow2Mono(n, LOOKUP_BITS);
    var len, sym := c.lookupLength[..][idx], c.lookupSymbol[..][idx];
    assert EntryOk(c.lens, idx, sym, len);
    if len != 0 {
      LsbPrefix(idx, n, LOOKUP_BITS);
      LsbOfNumber(head);
      assert LsbOf(idx, LOOKUP_BITS)[..len] == head[..len] == s[..len];
      assert s == s[..len] + s[len..];
      DecodeIffCode(c.lens, s, sym, s[len..]);
    }
  }

  lemma EmptyLookup(lens: lengths, syms: seq<int>, ls: seq<int>)
    requires |syms| == |ls| == LOOKUP_SIZE && forall p :: 0 <= p < LOOKUP_SIZE ==> ls[p] == 0
    ensures Latest(lens, syms, ls, 1, 0)
  {
    hide StartsIndex;
  }

  /** First codes that fit have at most fifteen bits. */
  lemma FirstCodeSmall(lens: lengths, l: nat)
    requires Fits(lens) && 1 <= l <= MAX_BITS
    ensures FirstCode(lens, l) % 65536 == FirstCode(lens, l)
  {
    hide CountAt, FirstCode, Fits, Pow2;
    EndCodeBound(lens, l);
    Pow2Mono(l, MAX_BITS);
    Pow2Values();
  }

  lemma CodeNextZero(lens: lengths, l: nat)
    ensures Equal(lens, 0, l) == 0
  {}

  lemma CodeNextStep(lens: lengths, s: nat, l: nat)
    requires s < |lens|
    ensures Equal(lens, s + 1, l) == Equal(lens, s, l) + (if lens[s] == l then 1 else 0)
    ensures lens[s] == l ==> Code(lens, s) == FirstCode(lens, l) + Equal(lens, s, l)
  {}
}
