/** A compressed Brotli meta-block with one block type of each kind: its prefix codes and its data. What the encoder
    writes for an input decodes to that input. */
module BrotliMeta {
  import opened Bits
  import opened LsbBits
  import opened Canonical
  import opened BrotliBits
  import opened BrotliCodes
  import opened BrotliTokens
  import opened BrotliPrefix
  import opened BrotliSymbols
  import opened BrotliSimple
  import opened BrotliHeader
  import opened BrotliBlock
  import opened BrotliRoundTrip
  import opened BrotliSequence

  // ---------- reading ----------

  /** The codes of the literals, the commands and the distances, and the bits behind them. */
  function CodesAhead(s: bits, ndirect: nat, npostfix: nat): Option<(Codes, bits)> {
    var lit := PrefixCodeAhead(s, 256);
    if lit.None? then None
    else
      var command := PrefixCodeAhead(lit.value.1, 704);
      if command.None? then None
      else
        var dist := PrefixCodeAhead(command.value.1, DistanceAlphabet(ndirect, npostfix));
        if dist.None? then None
        else Some((Codes(lit.value.0, command.value.0, dist.value.0, ndirect, npostfix), dist.value.1))
  }

  /** The codes and the data they encode. */
  ghost function DecodeBlock(s: bits, ndirect: nat, npostfix: nat, metaLen: nat, cap: nat, out: seq<byte>): Outcome {
    var c := CodesAhead(s, ndirect, npostfix);
    if c.None? then DataError else DecodeData(c.value.0, c.value.1, metaLen, cap, out, 0, FIRST_RING)
  }

  /** The command and distance symbols that are read. */
  ghost function BlockSymbolsRead(s: bits, ndirect: nat, npostfix: nat, metaLen: nat, cap: nat,
                                  out: seq<byte>): seq<Symbol> {
    var c := CodesAhead(s, ndirect, npostfix);
    if c.None? then [] else SymbolsRead(c.value.0, c.value.1, metaLen, cap, out, 0, FIRST_RING)
  }

  method ReadNewCode(br: BitReader, alphabetSize: nat) returns (ok: bool, p: PrefixCode)
    requires br.Valid() && !br.error && 0 < alphabetSize <= MAX_ENTRIES
    modifies br
    ensures br.Valid() && fresh(p) && fresh(p.Repr)
    ensures match PrefixCodeAhead(old(br.Rest()), alphabetSize)
            case Some(r) =>
              ok && !br.error && p.Valid() && CodeOf(p) == r.0 && br.Rest() == r.1 && |p.lens| == alphabetSize
            case None => !ok
  {
    hide *;
    p := new PrefixCode();
    ok := ReadPrefixCode(br, alphabetSize, p);
  }

  /** Reads the three codes. */
  method ReadCodes(br: BitReader, ndirect: nat, npostfix: nat)
    returns (ok: bool, lit: PrefixCode, command: PrefixCode, dist: PrefixCode)
    requires br.Valid() && !br.error && ndirect <= 120 && npostfix <= 3
    modifies br
    ensures br.Valid() && fresh(lit) && fresh(command) && fresh(dist)
    ensures fresh(lit.Repr) && fresh(command.Repr) && fresh(dist.Repr)
    ensures match CodesAhead(old(br.Rest()), ndirect, npostfix)
            case Some(r) => ok && !br.error && br.Rest() == r.1 && Stand(lit, command, dist, r.0)
            case None => !ok
  {
    hide *;
    AlphabetFits(ndirect, npostfix);
    CodesAheadAre(br.Rest(), ndirect, npostfix);
    command := new PrefixCode();
    dist := command;
    ok, lit := ReadNewCode(br, 256);
    if !ok { return; }
    ok, command := ReadNewCode(br, 704);
    if !ok { return; }
    ok, dist := ReadNewCode(br, DistanceAlphabet(ndirect, npostfix));
    if !ok { return; }
    AllStand(lit, command, dist, Codes(CodeOf(lit), CodeOf(command), CodeOf(dist), ndirect, npostfix));
  }

  lemma AllStand(lit: PrefixCode, command: PrefixCode, dist: PrefixCode, c: Codes)
    requires lit.Valid() && command.Valid() && dist.Valid() && |dist.lens| == DistanceAlphabet(c.ndirect, c.npostfix)
    requires c.literal == CodeOf(lit) && c.command == CodeOf(command) && c.distance == CodeOf(dist)
    ensures Stand(lit, command, dist, c)
  {}

  /** Reads the codes and decodes the data behind the bytes that are already there. */
  method DecodeCompressedBlock(br: BitReader, ndirect: nat, npostfix: nat, metaLen: nat, dst: array<byte>, outPos: nat)
    returns (status: DecodeStatus, out: nat, ghost read: seq<Symbol>)
    requires br.Valid() && !br.error && outPos <= dst.Length && ndirect <= 120 && npostfix <= 3
    modifies br, dst
    ensures br.Valid() && (status == Ok ==> out <= dst.Length)
    ensures Agrees(DecodeBlock(old(br.Rest()), ndirect, npostfix, metaLen, dst.Length, old(dst[..outPos])),
                   status, if status == Ok then dst[..out] else [], if status == Ok then br.Rest() else [])
    ensures read == BlockSymbolsRead(old(br.Rest()), ndirect, npostfix, metaLen, dst.Length, old(dst[..outPos]))
  {
    hide *;
    ghost var s := br.Rest();
    BlockIs(s, ndirect, npostfix, metaLen, dst.Length, dst[..outPos]);
    AgreesError(Malformed);
    out, read := outPos, [];
    var ok, lit, command, dist := ReadCodes(br, ndirect, npostfix);
    if !ok { return Malformed, out, read; }
    StandFor(lit, command, dist, CodesAhead(s, ndirect, npostfix).value.0);
    status, out, read := DecodeMetaBlock(br, lit, command, dist, ndirect, npostfix, metaLen, dst, outPos);
  }

  lemma AlphabetFits(ndirect: nat, npostfix: nat)
    requires ndirect <= 120 && npostfix <= 3
    ensures 0 < DistanceAlphabet(ndirect, npostfix) <= MAX_ENTRIES && 704 <= MAX_ENTRIES && 256 <= MAX_ENTRIES
  {
    Pow2Values();
    Pow2Mono(npostfix, 3);
  }

  lemma CodesAheadAre(s: bits, ndirect: nat, npostfix: nat)
    ensures var lit := PrefixCodeAhead(s, 256);
            && (lit.None? ==> CodesAhead(s, ndirect, npostfix).None?)
            && (lit.Some? ==>
                 var command := PrefixCodeAhead(lit.value.1, 704);
                 && (command.None? ==> CodesAhead(s, ndirect, npostfix).None?)
                 && (command.Some? ==>
                      var dist := PrefixCodeAhead(command.value.1, DistanceAlphabet(ndirect, npostfix));
                      && (dist.None? ==> CodesAhead(s, ndirect, npostfix).None?)
                      && (dist.Some? ==>
                           CodesAhead(s, ndirect, npostfix)
                           == Some((Codes(lit.value.0, command.value.0, dist.value.0, ndirect, npostfix),
                                    dist.value.1)))))
  {
    hide PrefixCodeAhead, DistanceAlphabet;
  }

  lemma BlockIs(s: bits, ndirect: nat, npostfix: nat, metaLen: nat, cap: nat, out: seq<byte>)
    ensures var c := CodesAhead(s, ndirect, npostfix);
            && (c.Some? ==> c.value.0.ndirect == ndirect && c.value.0.npostfix == npostfix)
            && DecodeBlock(s, ndirect, npostfix, metaLen, cap, out)
               == (if c.None? then DataError else DecodeData(c.value.0, c.value.1, metaLen, cap, out, 0, FIRST_RING))
            && BlockSymbolsRead(s, ndirect, npostfix, metaLen, cap, out)
               == if c.None? then [] else SymbolsRead(c.value.0, c.value.1, metaLen, cap, out, 0, FIRST_RING)
  {
    hide SymbolsRead, PrefixCodeAhead, DecodeData, DistanceAlphabet;
  }

  // ---------- writing ----------

  /** The bits of a block: the codes and the tokens. */
  ghost function BlockBits(tokens: seq<Token>, src: seq<byte>, commands: seq<nat>, distances: seq<nat>): bits
    requires AllWritable(tokens, src, commands, distances) && 1 <= |commands| <= 4 && 1 <= |distances| <= 4
  {
    (LsbOf(0, 2) + FixedBits(0)) + (LsbOf(1, 2) + HeaderBits(commands, 704)) + (LsbOf(1, 2) + HeaderBits(distances, 64))
    + DataBits(tokens, 0, src, commands, distances)
  }

  lemma ListIsListable(symbols: seq<nat>, size: nat)
    requires SymbolList(symbols, size) && |symbols| > 0
    ensures Listable(symbols, size) && Ascending(symbols) && |symbols| <= 4
  {
    forall i, j | 0 <= i < j < |symbols| ensures symbols[i] != symbols[j] { assert symbols[i] < symbols[j]; }
  }

  lemma CodeIsFor(symbols: seq<nat>, size: nat)
    requires SymbolList(symbols, size) && |symbols| > 0
    ensures CodeFor(SimpleCodeOf(symbols, false, size), symbols, size)
  {
    hide IndexOf, Kraft, IsSimple, SimpleLengths;
    ListIsListable(symbols, size);
    if |symbols| >= 2 {
      var lens := ListedLengths(symbols, SimpleLengths(|symbols|, false), size);
      ListedIsSimple(lens, symbols, SimpleLengths(|symbols|, false));
      SimpleComplete(lens, symbols, false);
    }
  }

  /** Writes the codes and the tokens; fails exactly when the buffer is too small. */
  method WriteTokenBlock(bw: BitWriter, src: seq<byte>, tokens: seq<Token>, commands: seq<nat>, distances: seq<nat>)
    returns (ok: bool)
    requires bw.Valid() && AllWritable(tokens, src, commands, distances) && AllCoded(tokens)
    requires BrotliTokens.Listed(tokens, commands, distances) && SymbolList(commands, 704) && SymbolList(distances, 64)
    requires 1 <= |commands| <= 4 && 1 <= |distances| <= 4
    modifies bw, bw.dst
    ensures ok <==> |old(bw.written)| + |BlockBits(tokens, src, commands, distances)| < 8 * bw.dst.Length + 8
    ensures ok ==> bw.Valid() && bw.overflow == old(bw.overflow)
    ensures ok ==> bw.written == old(bw.written) + BlockBits(tokens, src, commands, distances)
  {
    hide *;
    BuiltSmall(tokens, commands, distances);
    ListIsListable(commands, 704);
    ListIsListable(distances, 64);
    ghost var w, a := bw.written, LsbOf(0, 2) + FixedBits(0);
    ghost var b, c := LsbOf(1, 2) + HeaderBits(commands, 704), LsbOf(1, 2) + HeaderBits(distances, 64);
    BlockBitsAre(tokens, src, commands, distances);
    FourBehind(w, a, b, c, DataBits(tokens, 0, src, commands, distances));
    ok := WriteFixedLiteralCode(bw);
    if !ok { return; }
    ok := WriteSimplePrefixCode(bw, 704, commands);
    if !ok { return; }
    ok := WriteSimplePrefixCode(bw, 64, distances);
    if !ok { return; }
    ok := WriteTokens(bw, tokens, src, commands, distances);
  }

  /** Cuts the input into tokens and, when that succeeds, writes their block. With at most three symbols of either
      kind, decoding gives back the input. The decoder reads the encoder's symbols exactly then: of four symbols the
      two middle ones, both in use, read as each other. */
  method CompressTokens(bw: BitWriter, src: seq<byte>, quality: int)
    returns (built: bool, ok: bool, tokens: seq<Token>, commands: seq<nat>, distances: seq<nat>)
    requires bw.Valid()
    modifies bw, bw.dst
    ensures !built ==> !ok && bw.Valid() && bw.written == old(bw.written)
    ensures built ==> AllWritable(tokens, src, commands, distances) && 1 <= |commands| <= 4 && 1 <= |distances| <= 4
    ensures built ==>
              (ok <==> |old(bw.written)| + |BlockBits(tokens, src, commands, distances)| < 8 * bw.dst.Length + 8)
    ensures ok ==> bw.Valid() && bw.written == old(bw.written) + BlockBits(tokens, src, commands, distances)
    ensures built && |commands| <= 3 && |distances| <= 3 ==>
              forall cap: nat, tail: bits :: |src| <= cap ==>
                DecodeBlock(BlockBits(tokens, src, commands, distances) + tail, 0, 0, |src|, cap, [])
                == Finished(src, tail)
    ensures built ==>
              forall cap: nat, tail: bits :: |src| <= cap ==>
                (|commands| <= 3 && |distances| <= 3 <==>
                  BlockSymbolsRead(BlockBits(tokens, src, commands, distances) + tail, 0, 0, |src|, cap, [])
                  == Meant(tokens, 0))
    ensures built <==> Build(src, quality, FirstScan()).Some?
    ensures built ==> Build(src, quality, FirstScan()).value == (tokens, commands, distances)
  {
    hide *;
    built, tokens, commands, distances := BuildTokens(src, quality);
    ok := false;
    if !built { return; }
    BuiltSmall(tokens, commands, distances);
    BuiltWritable(tokens, src, commands, distances);
    if |commands| <= 3 && |distances| <= 3 {
      forall cap: nat, tail: bits | |src| <= cap
        ensures DecodeBlock(BlockBits(tokens, src, commands, distances) + tail, 0, 0, |src|, cap, [])
                == Finished(src, tail)
      {
        BlockRoundTrip(tokens, src, commands, distances, cap, tail);
      }
    }
    forall cap: nat, tail: bits | |src| <= cap
      ensures |commands| <= 3 && |distances| <= 3 <==>
                BlockSymbolsRead(BlockBits(tokens, src, commands, distances) + tail, 0, 0, |src|, cap, [])
                == Meant(tokens, 0)
    {
      OwnSymbols(tokens, src, commands, distances, cap, tail);
    }
    ok := WriteTokenBlock(bw, src, tokens, commands, distances);
  }

  lemma BlockBitsAre(tokens: seq<Token>, src: seq<byte>, commands: seq<nat>, distances: seq<nat>)
    requires AllWritable(tokens, src, commands, distances) && 1 <= |commands| <= 4 && 1 <= |distances| <= 4
    ensures BlockBits(tokens, src, commands, distances)
         == (LsbOf(0, 2) + FixedBits(0)) + (LsbOf(1, 2) + HeaderBits(commands, 704))
            + (LsbOf(1, 2) + HeaderBits(distances, 64))
            + DataBits(tokens, 0, src, commands, distances)
  {}

  /** Tokens that are coded have small extra fields. */
  lemma BuiltSmall(tokens: seq<Token>, commands: seq<nat>, distances: seq<nat>)
    requires AllCoded(tokens) && Listed(tokens, commands, distances) && SymbolList(distances, 64)
             && SymbolList(commands, 704)
    ensures |commands| <= 4 && |distances| <= 4
    ensures forall i :: 0 <= i < |tokens| ==> tokens[i].copyLen > 0 ==> tokens[i].distanceBits <= 24
  {
    hide WellCoded, RingAfter;
    forall i | 0 <= i < |tokens| ensures tokens[i].copyLen > 0 ==> tokens[i].distanceBits <= 24 {
      ExtraSmall(tokens[i], RingAfter(tokens[..i]));
    }
  }

  lemma ExtraSmall(t: Token, last: ring)
    requires WellCoded(t, last) && (t.copyLen > 0 ==> t.distanceCode < 64)
    ensures t.copyLen > 0 ==> t.distanceBits <= 24
  {
    hide InsertFits, CopyFits, COPY_EXTRA, Pow2, BucketBase;
  }

  /** The block that is written for the tokens of an input decodes to the input, and what follows it is left. */
  lemma BlockRoundTrip(tokens: seq<Token>, src: seq<byte>, commands: seq<nat>, distances: seq<nat>, cap: nat,
                       tail: bits)
    requires Replay(tokens, src) == Some(src) && AllCoded(tokens) && CopiesUpTo(tokens, |tokens| - 1) && |tokens| > 0
    requires Listed(tokens, commands, distances) && SymbolList(commands, 704) && SymbolList(distances, 64)
    requires 1 <= |commands| <= 3 && 1 <= |distances| <= 3 && |src| <= cap
             && AllWritable(tokens, src, commands, distances)
    ensures DecodeBlock(BlockBits(tokens, src, commands, distances) + tail, 0, 0, |src|, cap, []) == Finished(src, tail)
  {
    hide *;
    BlockToData(tokens, src, commands, distances, cap, tail);
    CodeIsFor(commands, 704);
    CodeIsFor(distances, 64);
    TokenBlockRoundTrip(tokens, src, commands, distances, SimpleCodeOf(commands, false, 704),
                        SimpleCodeOf(distances, false, 64), cap, tail);
  }

  /** The decoder reads the encoder's own symbols from a block exactly when there are at most three of either kind. */
  lemma OwnSymbols(tokens: seq<Token>, src: seq<byte>, commands: seq<nat>, distances: seq<nat>, cap: nat, tail: bits)
    requires Replay(tokens, src) == Some(src) && AllCoded(tokens) && CopiesUpTo(tokens, |tokens| - 1)
    requires Listed(tokens, commands, distances) && AllUsed(tokens, commands, distances)
    requires SymbolList(commands, 704) && SymbolList(distances, 64) && 1 <= |commands| && 1 <= |distances|
    requires AllWritable(tokens, src, commands, distances) && |src| <= cap
    ensures |commands| <= 4 && |distances| <= 4
    ensures |commands| <= 3 && |distances| <= 3 <==>
              BlockSymbolsRead(BlockBits(tokens, src, commands, distances) + tail, 0, 0, |src|, cap, [])
              == Meant(tokens, 0)
  {
    hide *;
    ListIsListable(commands, 704);
    ListIsListable(distances, 64);
    BlockToData(tokens, src, commands, distances, cap, tail);
    CodeIsFor(commands, 704);
    CodeIsFor(distances, 64);
    OwnSymbolsIffFew(tokens, src, commands, distances, SimpleCodeOf(commands, false, 704),
                     SimpleCodeOf(distances, false, 64), cap, tail);
  }

  /** Decoding a block gets to the data with the codes that were written, four symbols or not. */
  lemma BlockToData(tokens: seq<Token>, src: seq<byte>, commands: seq<nat>, distances: seq<nat>, cap: nat, tail: bits)
    requires SymbolList(commands, 704) && SymbolList(distances, 64) && AllWritable(tokens, src, commands, distances)
    requires 1 <= |commands| <= 4 && 1 <= |distances| <= 4
    ensures DecodeBlock(BlockBits(tokens, src, commands, distances) + tail, 0, 0, |src|, cap, [])
         == DecodeData(BlockCodes(SimpleCodeOf(commands, false, 704), SimpleCodeOf(distances, false, 64)),
                       DataBits(tokens, 0, src, commands, distances) + tail, |src|, cap, [], 0, FIRST_RING)
    ensures BlockSymbolsRead(BlockBits(tokens, src, commands, distances) + tail, 0, 0, |src|, cap, [])
         == SymbolsRead(BlockCodes(SimpleCodeOf(commands, false, 704), SimpleCodeOf(distances, false, 64)),
                        DataBits(tokens, 0, src, commands, distances) + tail, |src|, cap, [], 0, FIRST_RING)
  {
    hide *;
    BlockBitsAre(tokens, src, commands, distances);
    ListIsListable(commands, 704);
    ListIsListable(distances, 64);
    var a, b := LsbOf(0, 2) + FixedBits(0), LsbOf(1, 2) + HeaderBits(commands, 704);
    var c, d := LsbOf(1, 2) + HeaderBits(distances, 64), DataBits(tokens, 0, src, commands, distances);
    FourAhead(a, b, c, d, tail);
    FixedRoundTrip(b + (c + (d + tail)));
    SimpleRoundTrip(commands, 704, c + (d + tail));
    SimpleRoundTrip(distances, 64, d + tail);
    PlainAlphabet();
    CodesAheadAre(BlockBits(tokens, src, commands, distances) + tail, 0, 0);
    BlockIs(BlockBits(tokens, src, commands, distances) + tail, 0, 0, |src|, cap, []);
    CodesAre(SimpleCodeOf(commands, false, 704), SimpleCodeOf(distances, false, 64));
  }

  lemma PlainAlphabet()
    ensures DistanceAlphabet(0, 0) == 64
  {}

  lemma CodesAre(command: SymbolCode, distance: SymbolCode)
    ensures BlockCodes(command, distance) == Codes(Coded(LiteralLengths()), command, distance, 0, 0)
  {}
}
