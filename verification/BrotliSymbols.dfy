/** How the Brotli decoder reads symbols: through a built code, or the one symbol that takes no bits. */
module BrotliSymbols {
  import opened Bits
  import opened Canonical
  import opened DecodeTable
  import opened BrotliBits
  import opened BrotliPrefix

  /** A prefix code as the decoder uses it. */
  datatype SymbolCode = Single(sym: nat) | Coded(lens: lengths)

  function ReadCode(c: SymbolCode, s: bits): (r: Option<(nat, bits)>) {
    match c
    case Single(sym) => Some((sym, s))
    case Coded(lens) =>
      var d := Canonical.Decode(lens, s);
      if d.Sym? then Some((d.sym, d.rest)) else None
  }

  /** The code that a built object stands for. */
  ghost function CodeOf(p: PrefixCode): SymbolCode
    requires p.Valid()
    reads p, p.Repr
  {
    if p.isSingleSymbol then Single(p.singleSymbol) else Coded(p.lens)
  }

  /** Reads one symbol, -1 for none. */
  method ReadSymbol(p: PrefixCode, br: BitReader) returns (sym: int)
    requires p.Valid() && br.Valid() && !br.error && br !in p.Repr
    modifies br
    ensures br.Valid()
    ensures match ReadCode(CodeOf(p), old(br.Rest()))
            case Some(r) => sym == r.0 && br.Rest() == r.1 && !br.error
            case None => sym == -1
  {
    hide Canonical.Decode, LookupFull, ListedUpTo, Kraft;
    sym := p.Decode(br);
  }

  /** The code with these lengths; one that a single symbol has takes no bits. */
  function CodeFrom(lens: lengths): SymbolCode {
    if Used(lens, |lens|) == 1 then Single(LastUsed(lens, |lens|)) else Coded(lens)
  }

  /** The last symbol below n that has a code. */
  function LastUsed(lens: lengths, n: nat): nat
    requires n <= |lens|
  {
    if n == 0 then 0 else if lens[n - 1] != 0 then n - 1 else LastUsed(lens, n - 1)
  }

  lemma {:induction false} UsedOnce(lens: lengths, s: nat, n: nat)
    requires s < n <= |lens| && lens[s] != 0
    ensures Used(lens, n) >= 1 && (Used(lens, n) == 1 ==> LastUsed(lens, n) == s)
    decreases n
  {
    if n - 1 > s { UsedOnce(lens, s, n - 1); }
  }

  /** A built object stands for the code with its lengths. */
  lemma BuiltCode(p: PrefixCode)
    requires p.Valid() && (p.isSingleSymbol <==> Used(p.lens, |p.lens|) == 1)
    ensures CodeOf(p) == CodeFrom(p.lens)
  {
    hide LookupFull, ListedUpTo, Fits;
    if p.isSingleSymbol { UsedOnce(p.lens, p.singleSymbol, |p.lens|); }
  }

  lemma SymbolInAlphabet(p: PrefixCode, s: bits)
    requires p.Valid()
    ensures ReadCode(CodeOf(p), s).Some? ==> ReadCode(CodeOf(p), s).value.0 < |p.lens|
  {
    hide LookupFull, ListedUpTo, Kraft;
  }
}
