/** Which command and distance symbols the decoder reads from a block: the encoder's own exactly when there are at most
    three of either kind. */
module BrotliSequence {
  import opened Bits
  import opened LsbBits
  import opened Canonical
  import opened BackCopy
  import opened BrotliCodes
  import opened BrotliTokens
  import opened BrotliSymbols
  import opened BrotliSimple
  import opened BrotliBlock
  import opened BrotliRoundTrip

  // ---------- what the encoder means ----------

  /** A command and, before a copy, a distance. */
  function TokenSymbols(t: Token): seq<Symbol> {
    [CommandSymbol(t.command)] + if t.copyLen > 0 then [DistanceSymbol(t.distanceCode)] else []
  }

  /** The symbols of the tokens from i on. */
  function Meant(tokens: seq<Token>, i: nat): seq<Symbol>
    requires i <= |tokens|
    decreases |tokens| - i
  {
    if i == |tokens| then [] else TokenSymbols(tokens[i]) + Meant(tokens, i + 1)
  }

  /** The bits that are written for both symbols of the token are their codes. */
  predicate StraightToken(t: Token, commands: seq<nat>, distances: seq<nat>) {
    Straight(commands, t.command) && (t.copyLen > 0 ==> Straight(distances, t.distanceCode))
  }

  ghost predicate AllStraight(tokens: seq<Token>, i: nat, commands: seq<nat>, distances: seq<nat>) {
    forall j :: i <= j < |tokens| ==> StraightToken(tokens[j], commands, distances)
  }

  // ---------- one token ----------

  /** A symbol reads back exactly when it is straight. */
  lemma ReadSymbolBack(c: SymbolCode, symbols: seq<nat>, alphabetSize: nat, s: nat, tail: bits)
    requires CodeFor(c, symbols, alphabetSize) && s in symbols
    ensures 1 <= |symbols| <= 4
    ensures var r := ReadCode(c, WrittenCode(IndexOf(symbols, s), |symbols|) + tail);
            r.Some? && r.value.1 == tail && (r.value.0 == s <==> Straight(symbols, s))
  {
    hide ReadCode, WrittenCode, IsSimple, Fits, Ascending;
    SymbolRoundTrip(c, symbols, alphabetSize, IndexOf(symbols, s), tail);
  }

  /** The token's symbols are read at the start of its bits exactly when they are straight, and then reading goes on
      behind them. */
  lemma ReadToken(t: Token, src: seq<byte>, commands: seq<nat>, distances: seq<nat>, command: SymbolCode,
                  distance: SymbolCode, cap: nat, out: seq<byte>, last: ring, tail: bits)
    requires Writable(t, src, commands, distances) && WellCoded(t, last) && Applies(t, src, out)
    requires CodeFor(command, commands, 704) && (t.copyLen > 0 ==> CodeFor(distance, distances, 64))
    requires |src| <= cap && |out| < |src| && |out| + t.insertLen + t.copyLen <= |src|
    requires t.copyLen == 0 ==> |out| + t.insertLen == |src|
    ensures var now := SymbolsRead(BlockCodes(command, distance), TokenBits(t, src, commands, distances) + tail, |src|,
                                   cap, out, |out|, last);
            && (StraightToken(t, commands, distances) ==>
                 now == TokenSymbols(t)
                        + SymbolsRead(BlockCodes(command, distance), tail, |src|, cap, Apply(t, src, out),
                                      |Apply(t, src, out)|,
                                      if t.copyLen > 0 && t.distanceCode != 0 then Push(t.distance, last) else last))
            && (!StraightToken(t, commands, distances) ==> !(TokenSymbols(t) <= now))
  {
    hide *;
    TokenParts(t, src, commands, distances, last, out, command, distance);
    var c := BlockCodes(command, distance);
    var lits := src[t.insertPos..t.insertPos + t.insertLen];
    var b1, b2 := WrittenCode(IndexOf(commands, t.command), |commands|), ExtraBits(t, src, commands, distances);
    var b3, b4 := LiteralBits(lits), DistanceBits(t, src, commands, distances);
    FourAhead(b1, b2, b3, b4, tail);
    TokenIs(t, commands, distances);
    ReadSymbolBack(command, commands, 704, t.command, b2 + (b3 + (b4 + tail)));
    SymbolsTurn(c, TokenBits(t, src, commands, distances) + tail, |src|, cap, out, |out|, last);
    ghost var now := SymbolsRead(c, TokenBits(t, src, commands, distances) + tail, |src|, cap, out, |out|, last);
    if !Straight(commands, t.command) { OtherFront(TokenSymbols(t), now); }
    if Straight(commands, t.command) {
      ReadExtraBits(t, src, commands, distances, b3 + (b4 + tail));
      ReadLiteralBits(lits, b4 + tail);
      var cmd := ReadCommand(t.command, b2 + (b3 + (b4 + tail))).value.0;
      if t.copyLen > 0 {
        ReadCopy(t, src, commands, distances, command, distance, cmd, cap, out + lits, last, tail);
        if !Straight(distances, t.distanceCode) {
          FrontOf(CommandSymbol(t.command), DistanceSymbol(t.distanceCode), now);
        } else {
          Join3([CommandSymbol(t.command)], [DistanceSymbol(t.distanceCode)],
                SymbolsRead(c, tail, |src|, cap, CopyBack(out + lits, t.distance, t.copyLen), |out + lits| + t.copyLen,
                            if t.distanceCode != 0 then Push(t.distance, last) else last));
        }
      } else {
        assert b4 + tail == tail;
        SymbolsEnd(c, cmd, tail, |src|, cap, out + lits, last);
      }
    }
  }

  lemma TokenIs(t: Token, commands: seq<nat>, distances: seq<nat>)
    ensures TokenSymbols(t)
         == if t.copyLen > 0 then [CommandSymbol(t.command)] + [DistanceSymbol(t.distanceCode)]
            else [CommandSymbol(t.command)]
    ensures StraightToken(t, commands, distances) <==>
              Straight(commands, t.command) && (t.copyLen > 0 ==> Straight(distances, t.distanceCode))
  {
    hide Straight;
  }

  /** The distance of a token behind its literals. */
  lemma ReadCopy(t: Token, src: seq<byte>, commands: seq<nat>, distances: seq<nat>, command: SymbolCode,
                 distance: SymbolCode, cmd: Command, cap: nat, more: seq<byte>, last: ring, tail: bits)
    requires Writable(t, src, commands, distances) && t.copyLen > 0 && WellCoded(t, last) && 0 < t.distance <= |more|
    requires CodeFor(distance, distances, 64) && cmd.copyLen == t.copyLen >= 2 && !cmd.implicitDistance
    requires |more| + t.copyLen <= |src| <= cap
    ensures var c := BlockCodes(command, distance);
            var now := SymbolsReadCopy(c, cmd, DistanceBits(t, src, commands, distances) + tail, |src|, cap, more,
                                       |more|, last);
            && (Straight(distances, t.distanceCode) ==>
                 now == [DistanceSymbol(t.distanceCode)]
                        + SymbolsRead(c, tail, |src|, cap, CopyBack(more, t.distance, t.copyLen), |more| + t.copyLen,
                                      if t.distanceCode != 0 then Push(t.distance, last) else last))
            && (!Straight(distances, t.distanceCode) ==> !([DistanceSymbol(t.distanceCode)] <= now))
  {
    hide *;
    var c := BlockCodes(command, distance);
    CodesFor(command, distance);
    DistanceBitsAre(t, src, commands, distances);
    var w, extra := WrittenCode(IndexOf(distances, t.distanceCode), |distances|),
        LsbOf(t.distanceExtra, t.distanceBits);
    Assoc(w, extra, tail);
    ReadSymbolBack(distance, distances, 64, t.distanceCode, extra + tail);
    SymbolsCopyTurn(c, cmd, w + extra + tail, |src|, cap, more, |more|, last);
    DistanceReadIs(distance, w + extra + tail);
    if !Straight(distances, t.distanceCode) {
      OtherFront([DistanceSymbol(t.distanceCode)],
                 SymbolsReadCopy(c, cmd, w + extra + tail, |src|, cap, more, |more|, last));
    }
    if Straight(distances, t.distanceCode) {
      ReadDistanceBits(t, src, commands, distances, distance, last, tail);
    }
  }

  lemma CodesFor(command: SymbolCode, distance: SymbolCode)
    ensures var c := BlockCodes(command, distance);
            c.command == command && c.distance == distance && c.ndirect == c.npostfix == 0
  {}

  lemma DistanceReadIs(dist: SymbolCode, s: bits)
    requires ReadCode(dist, s).Some?
    ensures DistanceRead(dist, false, s) == [DistanceSymbol(ReadCode(dist, s).value.0)]
  {}

  lemma OtherFront(a: seq<Symbol>, now: seq<Symbol>)
    requires |a| > 0 && (|now| > 0 ==> now[0] != a[0])
    ensures !(a <= now)
  {}

  lemma FrontOf(a: Symbol, b: Symbol, now: seq<Symbol>)
    requires |now| > 0 ==> !([b] <= now[1..])
    ensures !([a] + [b] <= now)
  {
    assert |now| >= 2 ==> [now[1]] <= now[1..];
  }

  lemma Join3(a: seq<Symbol>, b: seq<Symbol>, c: seq<Symbol>)
    ensures a + b + c == a + (b + c)
  {}

  // ---------- all tokens ----------

  /** From any token on, the decoder reads the symbols that are meant exactly when they are straight. */
  lemma {:induction false} ReadTokens(tokens: seq<Token>, i: nat, src: seq<byte>, commands: seq<nat>,
                                      distances: seq<nat>, command: SymbolCode, distance: SymbolCode, cap: nat,
                                      tail: bits)
    requires Replay(tokens, src) == Some(src) && AllCoded(tokens) && CopiesUpTo(tokens, |tokens| - 1)
    requires AllWritable(tokens, src, commands, distances) && i <= |tokens| && |src| <= cap
    requires CodeFor(command, commands, 704) && CodeFor(distance, distances, 64)
    ensures AllStraight(tokens, i, commands, distances) <==>
              SymbolsRead(BlockCodes(command, distance), DataBits(tokens, i, src, commands, distances) + tail, |src|,
                          cap, Before(tokens, i, src), |Before(tokens, i, src)|, RingAfter(tokens[..i]))
              == Meant(tokens, i)
    decreases |tokens| - i
  {
    hide SymbolsRead, TokenBits, RingAfter, WellCoded, Applies, Apply, CodeFor, Writable, Replay, BlockCodes, Push;
    hide StraightToken, TokenSymbols;
    ReplayedBefore(tokens, i, src);
    var out := Before(tokens, i, src);
    if i == |tokens| {
      assert tokens[..i] == tokens;
      SymbolsEnd(BlockCodes(command, distance), Command(0, 2, false),
                 DataBits(tokens, i, src, commands, distances) + tail, |src|, cap, src, RingAfter(tokens[..i]));
    } else {
      var t := tokens[i];
      RingNext(tokens, i);
      ApplyLength(t, src, out);
      ReplayedBefore(tokens, i + 1, src);
      Assoc(TokenBits(t, src, commands, distances), DataBits(tokens, i + 1, src, commands, distances), tail);
      ReadTokens(tokens, i + 1, src, commands, distances, command, distance, cap, tail);
      if i + 1 == |tokens| { assert tokens[..i + 1] == tokens; }
      TokenGrows(t, src, out, RingAfter(tokens[..i]));
      ReadToken(t, src, commands, distances, command, distance, cap, out, RingAfter(tokens[..i]),
                DataBits(tokens, i + 1, src, commands, distances) + tail);
      FromHere(tokens, i, commands, distances);
      SameFront(TokenSymbols(t), Meant(tokens, i + 1),
                SymbolsRead(BlockCodes(command, distance), DataBits(tokens, i + 1, src, commands, distances) + tail,
                            |src|, cap, Before(tokens, i + 1, src), |Before(tokens, i + 1, src)|,
                            RingAfter(tokens[..i + 1])));
    }
  }

  lemma FromHere(tokens: seq<Token>, i: nat, commands: seq<nat>, distances: seq<nat>)
    requires i < |tokens|
    ensures AllStraight(tokens, i, commands, distances) <==>
              StraightToken(tokens[i], commands, distances) && AllStraight(tokens, i + 1, commands, distances)
  {
    hide StraightToken;
  }

  lemma SameFront(a: seq<Symbol>, b: seq<Symbol>, c: seq<Symbol>)
    ensures a + b == a + c <==> b == c
    ensures a <= a + b
  {
    assert (a + b)[|a|..] == b && (a + c)[|a|..] == c;
  }

  /** Of four symbols, all in use, some token uses the second one, which is not straight. */
  lemma StraightIffFew(tokens: seq<Token>, commands: seq<nat>, distances: seq<nat>)
    requires Listed(tokens, commands, distances) && AllUsed(tokens, commands, distances)
    requires SymbolList(commands, 704) && SymbolList(distances, 64)
    ensures AllStraight(tokens, 0, commands, distances) <==> |commands| <= 3 && |distances| <= 3
  {
    hide IndexOf;
    if |commands| > 3 {
      assert UsesCommand(tokens, commands[1]);
      var i :| 0 <= i < |tokens| && tokens[i].command == commands[1];
      MiddleIsNotStraight(commands);
      assert !StraightToken(tokens[i], commands, distances);
    } else if |distances| > 3 {
      assert UsesDistance(tokens, distances[1]);
      var i :| 0 <= i < |tokens| && tokens[i].copyLen > 0 && tokens[i].distanceCode == distances[1];
      MiddleIsNotStraight(distances);
      assert !StraightToken(tokens[i], commands, distances);
    }
  }

  lemma MiddleIsNotStraight(symbols: seq<nat>)
    requires Ascending(symbols) && |symbols| == 4
    ensures !Straight(symbols, symbols[1])
  {
    hide IndexOf;
    assert symbols[1] in symbols;
  }

  /** The decoder reads the encoder's own symbols from a block exactly when there are at most three of either kind. */
  lemma OwnSymbolsIffFew(tokens: seq<Token>, src: seq<byte>, commands: seq<nat>, distances: seq<nat>,
                         command: SymbolCode, distance: SymbolCode, cap: nat, tail: bits)
    requires Replay(tokens, src) == Some(src) && AllCoded(tokens) && CopiesUpTo(tokens, |tokens| - 1)
    requires Listed(tokens, commands, distances) && AllUsed(tokens, commands, distances)
    requires SymbolList(commands, 704) && SymbolList(distances, 64)
    requires AllWritable(tokens, src, commands, distances) && |src| <= cap
    requires CodeFor(command, commands, 704) && CodeFor(distance, distances, 64)
    ensures |commands| <= 3 && |distances| <= 3 <==>
              SymbolsRead(BlockCodes(command, distance), DataBits(tokens, 0, src, commands, distances) + tail, |src|,
                          cap, [], 0, FIRST_RING)
              == Meant(tokens, 0)
  {
    hide *;
    ReadTokens(tokens, 0, src, commands, distances, command, distance, cap, tail);
    StraightIffFew(tokens, commands, distances);
    BeforeAll(tokens, src);
  }

  lemma BeforeAll(tokens: seq<Token>, src: seq<byte>)
    ensures Before(tokens, 0, src) == [] && RingAfter(tokens[..0]) == FIRST_RING
  {
    assert tokens[..0] == [];
  }
}
