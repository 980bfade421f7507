/** Four different commands are one too many: the encoder's bits for the two middle ones are exchanged, and a block that
    uses them need not decode to its input. */
module BrotliSwap {
  import opened Bits
  import opened BackCopy
  import opened BrotliCodes
  import opened BrotliTokens
  import opened BrotliSymbols
  import opened BrotliSimple
  import opened BrotliHeader
  import opened BrotliBlock
  import opened BrotliRoundTrip
  import opened BrotliMeta
  import opened BrotliWitness

  // ---------- what has been decoded stays ----------

  /** Whatever the decoder goes on to write, it keeps what it has written. */
  lemma {:induction false} DataKeeps(c: Codes, s: bits, metaLen: nat, cap: nat, out: seq<byte>, produced: nat,
                                     last: ring)
    ensures var o := DecodeData(c, s, metaLen, cap, out, produced, last); o.Finished? ==> out <= o.out
    decreases metaLen - produced, 1
  {
    hide ReadCode, ReadCommand, ReadLiterals;
    if produced < metaLen {
      var sym := ReadCode(c.command, s);
      if sym.Some? {
        var cmd := ReadCommand(sym.value.0, sym.value.1);
        if cmd.Some? && cmd.value.0.insertLen <= metaLen - produced {
          var lits := ReadLiterals(c.literal, cmd.value.1, cmd.value.0.insertLen);
          if lits.Some? {
            CopyStepKeeps(c, cmd.value.0, lits.value.1, metaLen, cap, out + lits.value.0,
                          produced + cmd.value.0.insertLen, last);
          }
        }
      }
    }
  }

  lemma {:induction false} CopyStepKeeps(c: Codes, cmd: Command, s: bits, metaLen: nat, cap: nat, out: seq<byte>,
                                         produced: nat, last: ring)
    requires cmd.copyLen >= 2
    ensures var o := DecodeCopy(c, cmd, s, metaLen, cap, out, produced, last); o.Finished? ==> out <= o.out
    decreases metaLen - produced, 0
  {
    hide *;
    if produced >= metaLen {
      CopyAtEnd(c, cmd, s, metaLen, cap, out, produced, last);
    } else {
      CopyTurn(c, cmd, s, metaLen, cap, out, produced, last);
      var d := ReadCommandDistance(c.distance, cmd.implicitDistance, s, c.ndirect, c.npostfix, last);
      if d.Some? && 0 < d.value.0 <= |out| && cmd.copyLen <= metaLen - produced {
        DataKeeps(c, d.value.1, metaLen, cap, CopyBack(out, d.value.0, cmd.copyLen), produced + cmd.copyLen,
                  if d.value.2 then Push(d.value.0, last) else last);
      }
    }
  }

  lemma CopyAtEnd(c: Codes, cmd: Command, s: bits, metaLen: nat, cap: nat, out: seq<byte>, produced: nat, last: ring)
    requires cmd.copyLen >= 2 && produced >= metaLen
    ensures DecodeCopy(c, cmd, s, metaLen, cap, out, produced, last) == Finished(out, s)
  {}

  // ---------- the four tokens can be written ----------

  lemma TableParts()
    ensures |INSERT_BASE| == |INSERT_EXTRA| == |COPY_BASE| == |COPY_EXTRA| == 24
    ensures |GROUP_INSERT| == |GROUP_COPY| == 11
    ensures GROUP_INSERT[2] == GROUP_COPY[2] == GROUP_INSERT[3] == 0 && GROUP_COPY[3] == 8
    ensures INSERT_BASE[1] == 1 && INSERT_BASE[2] == 2 && INSERT_BASE[7] == 8 && COPY_BASE[6] == 8 && COPY_BASE[8] == 10
    ensures INSERT_EXTRA[1] == INSERT_EXTRA[2] == COPY_EXTRA[6] == 0 && INSERT_EXTRA[7] == COPY_EXTRA[8] == 1
  {}

  /** The four commands hold their lengths. */
  lemma CommandsHold()
    ensures InsertCode(190) == 7 && InsertCode(142) == 1 && InsertCode(150) == InsertCode(208) == 2
    ensures CopyCode(190) == CopyCode(142) == CopyCode(150) == 6 && CopyCode(208) == 8
    ensures InsertFits(190, 8) && InsertFits(142, 1) && InsertFits(150, 2) && InsertFits(208, 2)
    ensures CopyFits(190, 8) && CopyFits(142, 8) && CopyFits(150, 8) && CopyFits(208, 10)
  {
    hide Pow2, INSERT_BASE, INSERT_EXTRA, COPY_BASE, COPY_EXTRA, GROUP_INSERT, GROUP_COPY, InsertCode, CopyCode;
    TableParts();
    Pow2Values();
    NoBits();
    SymbolParts(2, 7, 6);
    SymbolParts(2, 1, 6);
    SymbolParts(2, 2, 6);
    SymbolParts(3, 2, 0);
  }

  lemma NoBits()
    ensures Pow2(0) == 1
  {}

  lemma {:induction false} FoundStands(distance: nat, b: nat)
    requires b <= 48
    ensures DistanceFrom(distance, b).Some? ==> StandsFor(DistanceFrom(distance, b).value, distance)
    decreases 48 - b
  {
    hide Pow2;
    if b < 48 { FoundStands(distance, b + 1); }
  }

  lemma DistancesStand()
    ensures StandsFor(DistanceCode(18, 3, 2), 8) && StandsFor(DistanceCode(19, 0, 2), 9)
    ensures StandsFor(DistanceCode(19, 1, 2), 10)
  {
    hide StandsFor, DistanceFrom;
    Distances();
    FoundStands(8, 0);
    FoundStands(9, 0);
    FoundStands(10, 0);
  }

  lemma TokensWritable()
    ensures AllWritable(TOKENS, Input(), COMMANDS, DISTANCES)
  {
    hide InsertFits, CopyFits, StandsFor, Input, COPY_EXTRA;
    CommandsHold();
    DistancesStand();
    assert COMMANDS[0] == 142 && COMMANDS[1] == 150 && COMMANDS[2] == 190 && COMMANDS[3] == 208;
    assert DISTANCES[0] == 0 && DISTANCES[1] == 18 && DISTANCES[2] == 19;
  }

  // ---------- what they decode to ----------

  /** The command that is read instead of the first one has no extra bits. */
  lemma WrongCommand(s: bits)
    ensures ReadCommand(150, s) == Some((Command(2, 8, false), s))
  {
    hide INSERT_BASE, INSERT_EXTRA, COPY_BASE, COPY_EXTRA, GROUP_INSERT, GROUP_COPY, InsertCode, CopyCode, TakeBits;
    TableParts();
    CommandsHold();
    TakeNothing(s);
    TakeNone(s);
  }

  lemma TakeNone(s: bits)
    ensures TakeBits(s, 0) == Some((0, s))
  {}

  /** So the first one's extra bit is read as the first bit of a literal. */
  lemma ShiftedLiteral(more: bits)
    ensures var r := ReadLiterals(SymbolCode.Coded(LiteralLengths()), [false] + (BitsOf(1, 8) + more), 2);
            r.Some? ==> r.value.0[0] == 0
  {
    hide ReadCode, LiteralLengths, BitsOf;
    ShiftedBits();
    Assoc([false], BitsOf(1, 8), more);
    Assoc(BitsOf(0, 8), [true], more);
    DecodeLiteral(0, [true] + more);
  }

  lemma ShiftedBits()
    ensures [false] + BitsOf(1, 8) == BitsOf(0, 8) + [true]
  {}

  /** The encoder cuts this input into four tokens with four commands, whatever the quality. The decoder takes the first
      command for the second listed one, and what it decodes is never the input, whatever follows the block. */
  lemma FourCommandsFail(quality: int, cap: nat, tail: bits, rest: bits)
    ensures Build(Input(), quality, FirstScan()) == Some((TOKENS, COMMANDS, DISTANCES))
    ensures |COMMANDS| == 4 && |DISTANCES| == 3 && AllWritable(TOKENS, Input(), COMMANDS, DISTANCES)
    ensures DecodeBlock(BlockBits(TOKENS, Input(), COMMANDS, DISTANCES) + tail, 0, 0, |Input()|, cap, [])
         != Finished(Input(), rest)
  {
    hide *;
    BuildsFourCommands(quality);
    TokensWritable();
    Lists();
    BlockToData(TOKENS, Input(), COMMANDS, DISTANCES, cap, tail);
    FirstOfAll(TOKENS, Input(), COMMANDS, DISTANCES);
    ExtraIs(FIRST, Input(), COMMANDS, DISTANCES);
    PlaceOf(COMMANDS, 190, 2);
    FirstTokenBits(FIRST, Input(), COMMANDS, DISTANCES);
    var c := BlockCodes(SimpleCodeOf(COMMANDS, false, 704), SimpleCodeOf(DISTANCES, false, 64));
    var lits, d := LiteralBits(Input()[1..8]), DistanceBits(FIRST, Input(), COMMANDS, DISTANCES);
    var later := DataBits(TOKENS, 1, Input(), COMMANDS, DISTANCES) + tail;
    var s := [false] + (BitsOf(1, 8) + (lits + (d + later)));
    Pieces(WrittenCode(2, 4), BitsOf(1, 8), lits, d, DataBits(TOKENS, 1, Input(), COMMANDS, DISTANCES), tail);
    CodeIsFor(COMMANDS, 704);
    CodesAre(SimpleCodeOf(COMMANDS, false, 704), SimpleCodeOf(DISTANCES, false, 64));
    SymbolRoundTrip(c.command, COMMANDS, 704, 2, s);
    WrongCommand(s);
    ShiftedLiteral(lits + (d + later));
    DataTurn(c, WrittenCode(2, 4) + s, 47, cap, [], 0, FIRST_RING);
    var read := ReadLiterals(c.literal, s, 2);
    if read.Some? && 2 <= cap {
      CopyStepKeeps(c, Command(2, 8, false), read.value.1, 47, cap, [] + read.value.0, 0 + 2, FIRST_RING);
      assert ([] + read.value.0)[0] == 0 && Input()[0] == 1;
    }
  }

  lemma Lists()
    ensures SymbolList(COMMANDS, 704) && SymbolList(DISTANCES, 64) && |COMMANDS| == 4 && |DISTANCES| == 3
    ensures COMMANDS[1] == 150 && COMMANDS[2] == 190 && |TOKENS| == 4 && TOKENS[0] == FIRST && Input()[0] == 1
  {}

  lemma FirstOfAll(tokens: seq<Token>, src: seq<byte>, commands: seq<nat>, distances: seq<nat>)
    requires AllWritable(tokens, src, commands, distances) && |tokens| > 0
    ensures Writable(tokens[0], src, commands, distances)
    ensures DataBits(tokens, 0, src, commands, distances)
         == TokenBits(tokens[0], src, commands, distances) + DataBits(tokens, 1, src, commands, distances)
  {
    hide Writable, TokenBits;
  }

  /** The first token: its exchanged code, one extra bit, its literals, and a distance. */
  lemma FirstTokenBits(t: Token, src: seq<byte>, commands: seq<nat>, distances: seq<nat>)
    requires t.insertPos == 0 && t.insertLen == 8 <= |src| && t.command in commands && IndexOf(commands, t.command) == 2
    requires |commands| == 4 && Writable(t, src, commands, distances)
             && ExtraBits(t, src, commands, distances) == [false]
    ensures TokenBits(t, src, commands, distances)
         == WrittenCode(2, 4) + [false] + (BitsOf(src[0], 8) + LiteralBits(src[1..8]))
             + DistanceBits(t, src, commands, distances)
  {
    hide *;
    WritableFacts(t, src, commands, distances);
    LiteralsAre(src[0..8]);
    assert src[0..8][1..] == src[1..8];
  }

  /** The insert length's one extra bit. */
  lemma ExtraIs(t: Token, src: seq<byte>, commands: seq<nat>, distances: seq<nat>)
    requires t == FIRST && Writable(t, src, commands, distances)
    ensures t.insertPos == 0 && t.insertLen == 8 && t.command == 190
    ensures ExtraBits(t, src, commands, distances) == [false]
  {
    hide Writable, INSERT_BASE, INSERT_EXTRA, COPY_BASE, COPY_EXTRA, InsertCode, CopyCode;
    TableParts();
    CommandsHold();
  }

  lemma LiteralsAre(data: seq<byte>)
    requires |data| > 0
    ensures LiteralBits(data) == BitsOf(data[0], 8) + LiteralBits(data[1..])
  {
    hide BitsOf;
  }

  lemma PlaceOf(symbols: seq<nat>, s: nat, i: nat)
    requires Ascending(symbols) && i < |symbols| && symbols[i] == s
    ensures IndexOf(symbols, s) == i
  {
    hide IndexOf;
  }

  lemma Pieces(w: bits, x: bits, lits: bits, d: bits, later: bits, tail: bits)
    ensures (w + [false] + (x + lits) + d + later) + tail == w + ([false] + (x + (lits + (d + (later + tail)))))
  {
    Assoc(w + [false] + (x + lits) + d, later, tail);
    FourAhead(w, [false], x + lits, d, later + tail);
    Assoc(x, lits, d + (later + tail));
  }
}
