/** What the Brotli encoder writes for its tokens, and that the decoder's loop turns it back into the input. */
module BrotliRoundTrip {
  import opened Bits
  import opened LsbBits
  import opened Permutations
  import opened Canonical
  import opened BackCopy
  import opened BrotliBits
  import opened BrotliCodes
  import opened BrotliTokens
  import opened BrotliPrefix
  import opened BrotliSymbols
  import opened BrotliSimple
  import opened BrotliHeader
  import opened BrotliBlock

  // ---------- literals ----------

  lemma {:induction false} AllEight(m: nat, l: nat)
    requires m <= 256
    ensures |LiteralLengths()| == 256 && Equal(LiteralLengths(), m, l) == if l == 8 then m else 0
    decreases m
  {
    if m > 0 { AllEight(m - 1, l); }
  }

  lemma {:induction false} NoShorter(l: nat)
    requires l <= 8
    ensures FirstCode(LiteralLengths(), l) == 0
    decreases l
  {
    if l > 0 {
      NoShorter(l - 1);
      AllEight(256, l - 1);
    }
  }

  lemma {:induction false} EightBitsEach(m: nat)
    requires m <= 256
    ensures InRange(LiteralLengths()) && KraftUpTo(LiteralLengths(), m, MAX_LEN) == m * 4096
    decreases m
  {
    Powers();
    if m > 0 { EightBitsEach(m - 1); }
  }

  /** A byte's code is its eight bits, the highest first. */
  lemma LiteralCode(c: byte)
    ensures |LiteralLengths()| == 256 && Fits(LiteralLengths()) && CodeBits(LiteralLengths(), c) == BitsOf(c, 8)
  {
    hide BitsOf, Equal, FirstCode, KraftUpTo, Pow2, Code, CodeBits, LiteralLengths;
    AllEight(c, 8);
    NoShorter(8);
    EightBitsEach(256);
    CodeIs(LiteralLengths(), c);
    Pow2Values();
  }

  function LiteralBits(data: seq<byte>): bits {
    if |data| == 0 then [] else BitsOf(data[0], 8) + LiteralBits(data[1..])
  }

  lemma {:induction false} ReadLiteralBits(data: seq<byte>, tail: bits)
    ensures ReadLiterals(Coded(LiteralLengths()), LiteralBits(data) + tail, |data|) == Some((data, tail))
    decreases |data|
  {
    hide Canonical.Decode, CodeBits, BitsOf, LiteralLengths, Fits;
    if |data| == 0 {
      assert LiteralBits(data) + tail == tail;
    } else {
      var more := LiteralBits(data[1..]) + tail;
      Assoc(BitsOf(data[0], 8), LiteralBits(data[1..]), tail);
      LiteralCode(data[0]);
      DecodeLiteral(data[0], more);
      ReadLiteralBits(data[1..], tail);
      assert [data[0]] + data[1..] == data;
    }
  }

  lemma DecodeLiteral(c: byte, more: bits)
    ensures ReadCode(Coded(LiteralLengths()), BitsOf(c, 8) + more) == Some((c as nat, more))
  {
    LiteralCode(c);
    CodeFits(LiteralLengths(), c);
    DecodeCode(LiteralLengths(), c, more);
  }

  /** Writes a code with its highest bit first. */
  method WritePrefixBits(bw: BitWriter, code: nat, len: nat) returns (ok: bool)
    requires bw.Valid() && len <= 15
    modifies bw, bw.dst
    ensures ok <==> |old(bw.written)| + |BitsOf(code, len)| < 8 * bw.dst.Length + 8
    ensures ok ==> bw.Valid() && bw.written == old(bw.written) + BitsOf(code, len) && bw.overflow == old(bw.overflow)
  {
    hide BitsOf, LsbOf, NumberOf, Pow2;
    var reversed := Reverse(code, len);
    LsbOfNumber(BitsOf(code, len));
    ok := bw.WriteBits(reversed, len);
  }

  // ---------- symbols of simple codes ----------

  /** The simple code of a sorted list of symbols. */
  ghost predicate CodeFor(c: SymbolCode, symbols: seq<nat>, alphabetSize: nat) {
    && Listable(symbols, alphabetSize) && Ascending(symbols)
    && match c
       case Single(s) => |symbols| == 1 && s == symbols[0]
       case Coded(lens) =>
         |symbols| >= 2 && |lens| == alphabetSize && IsSimple(lens, symbols, SimpleLengths(|symbols|, false))
             && Fits(lens)
  }

  /** The encoder's bits for the symbol are its code: all symbols but the two middle ones of four. */
  predicate Straight(symbols: seq<nat>, s: nat) {
    s in symbols && (|symbols| <= 3 || IndexOf(symbols, s) == 0 || IndexOf(symbols, s) == 3)
  }

  /** A listed symbol reads back, unless it is one of the two middle ones of four, which read back as each other. */
  lemma SymbolRoundTrip(c: SymbolCode, symbols: seq<nat>, alphabetSize: nat, i: nat, tail: bits)
    requires CodeFor(c, symbols, alphabetSize) && i < |symbols|
    ensures |symbols| <= 3 || i == 0 || i == 3 ==>
              ReadCode(c, WrittenCode(i, |symbols|) + tail) == Some((symbols[i], tail))
    ensures |symbols| == 4 && i == 1 ==> ReadCode(c, WrittenCode(i, |symbols|) + tail) == Some((symbols[2], tail))
    ensures |symbols| == 4 && i == 2 ==> ReadCode(c, WrittenCode(i, |symbols|) + tail) == Some((symbols[1], tail))
  {
    if |symbols| == 1 {
      assert WrittenCode(0, 1) + tail == tail;
    } else {
      WrittenIsCode(i, |symbols|);
      DecodeSimple(c.lens, symbols, i, tail);
      if |symbols| == 4 && i == 1 { DecodeSimple(c.lens, symbols, 2, tail); }
      if |symbols| == 4 && i == 2 { DecodeSimple(c.lens, symbols, 1, tail); }
    }
  }

  lemma DecodeSimple(lens: lengths, symbols: seq<nat>, i: nat, tail: bits)
    requires 2 <= |symbols| <= 4 && i < |symbols| && Ascending(symbols) && Fits(lens)
    requires IsSimple(lens, symbols, SimpleLengths(|symbols|, false))
    ensures ReadCode(Coded(lens), SimpleCode(i, |symbols|) + tail) == Some((symbols[i], tail))
  {
    SimpleCodeBits(lens, symbols, i);
    CodeFits(lens, symbols[i]);
    DecodeCode(lens, symbols[i], tail);
  }

  /** Writes a listed symbol. */
  method WriteSymbol(bw: BitWriter, symbols: seq<nat>, symbol: nat) returns (ok: bool)
    requires bw.Valid() && Ascending(symbols) && 1 <= |symbols| <= 4 && symbol in symbols
    modifies bw, bw.dst
    ensures ok <==> |old(bw.written)| + |WrittenCode(IndexOf(symbols, symbol), |symbols|)| < 8 * bw.dst.Length + 8
    ensures ok ==> bw.Valid() && bw.written == old(bw.written) + WrittenCode(IndexOf(symbols, symbol), |symbols|)
    ensures ok ==> bw.overflow == old(bw.overflow)
  {
    var i := 0;
    while symbols[i] != symbol
      invariant i <= IndexOf(symbols, symbol)
      decreases IndexOf(symbols, symbol) - i
    {
      i := i + 1;
    }
    ok := WriteSimpleLiteralCode(bw, i, |symbols|);
  }

  // ---------- tokens ----------

  /** What one token needs of the two lists. */
  ghost predicate Writable(t: Token, src: seq<byte>, commands: seq<nat>, distances: seq<nat>) {
    && t.insertPos + t.insertLen <= |src| && t.command < 704 && InsertFits(t.command, t.insertLen)
    && 1 <= |commands| <= 4 && t.command in commands
    && (t.copyLen > 0 ==> CopyFits(t.command, t.copyLen) && 1 <= |distances| <= 4 && t.distanceCode in distances)
    && (t.copyLen > 0 && t.distanceCode == 0 ==> t.distanceExtra == t.distanceBits == 0)
    && (t.copyLen > 0 && t.distanceCode != 0 ==>
         StandsFor(DistanceCode(t.distanceCode, t.distanceExtra, t.distanceBits), t.distance))
    && (t.copyLen == 0 ==> COPY_EXTRA[CopyCode(t.command)] == 0)
  }

  /** Extra bits of the command, literals, distance. */
  ghost function TokenBits(t: Token, src: seq<byte>, commands: seq<nat>, distances: seq<nat>): bits
    requires Writable(t, src, commands, distances)
  {
    WrittenCode(IndexOf(commands, t.command), |commands|)
    + ExtraBits(t, src, commands, distances)
    + LiteralBits(src[t.insertPos..t.insertPos + t.insertLen])
    + DistanceBits(t, src, commands, distances)
  }

  ghost function ExtraBits(t: Token, src: seq<byte>, commands: seq<nat>, distances: seq<nat>): bits
    requires Writable(t, src, commands, distances)
  {
    if t.copyLen > 0 then CommandExtra(t.command, t.insertLen, t.copyLen)
    else LsbOf(t.insertLen - INSERT_BASE[InsertCode(t.command)], INSERT_EXTRA[InsertCode(t.command)])
  }

  ghost function DistanceBits(t: Token, src: seq<byte>, commands: seq<nat>, distances: seq<nat>): bits
    requires Writable(t, src, commands, distances)
  {
    if t.copyLen > 0
    then WrittenCode(IndexOf(distances, t.distanceCode), |distances|) + LsbOf(t.distanceExtra, t.distanceBits)
    else []
  }

  ghost predicate AllWritable(tokens: seq<Token>, src: seq<byte>, commands: seq<nat>, distances: seq<nat>) {
    forall i :: 0 <= i < |tokens| ==> Writable(tokens[i], src, commands, distances)
  }

  /** The bits of the tokens from i on. */
  ghost function DataBits(tokens: seq<Token>, i: nat, src: seq<byte>, commands: seq<nat>, distances: seq<nat>): bits
    requires AllWritable(tokens, src, commands, distances) && i <= |tokens|
    decreases |tokens| - i
  {
    if i == |tokens| then []
    else TokenBits(tokens[i], src, commands, distances) + DataBits(tokens, i + 1, src, commands, distances)
  }

  /** A command and its extra bits read back. */
  lemma ReadExtraBits(t: Token, src: seq<byte>, commands: seq<nat>, distances: seq<nat>, tail: bits)
    requires Writable(t, src, commands, distances)
    ensures var r := ReadCommand(t.command, ExtraBits(t, src, commands, distances) + tail);
            && r.Some? && r.value.1 == tail && r.value.0.insertLen == t.insertLen
            && r.value.0.implicitDistance == (t.command < 128)
            && (t.copyLen > 0 ==> r.value.0.copyLen == t.copyLen)
  {
    hide InsertCode, CopyCode, INSERT_BASE, INSERT_EXTRA, COPY_BASE, COPY_EXTRA, LsbOf, NumberOf, TakeBits, Pow2;
    Shapes();
    if t.copyLen > 0 {
      CommandRoundTrip(t.command, t.insertLen, t.copyLen, tail);
    } else {
      var i, c := InsertCode(t.command), CopyCode(t.command);
      TakeWritten(t.insertLen - INSERT_BASE[i], INSERT_EXTRA[i], tail);
      TakeNothing(tail);
    }
  }

  lemma TakeNothing(s: bits)
    ensures TakeBits(s, 0).Some? && TakeBits(s, 0).value.1 == s
  {}

  /** A distance reads back, given the last distances. */
  lemma ReadDistanceBits(t: Token, src: seq<byte>, commands: seq<nat>, distances: seq<nat>, dist: SymbolCode,
                         last: ring, tail: bits)
    requires Writable(t, src, commands, distances) && t.copyLen > 0 && WellCoded(t, last) && t.distance > 0
    requires CodeFor(dist, distances, 64) && Straight(distances, t.distanceCode)
    ensures ReadCommandDistance(dist, false, DistanceBits(t, src, commands, distances) + tail, 0, 0, last)
         == Some((t.distance, tail, t.distanceCode != 0))
  {
    hide ReadCode, CodeFor, WrittenCode, LsbOf, ReadDistance, InsertFits, CopyFits;
    var i := IndexOf(distances, t.distanceCode);
    var extra := LsbOf(t.distanceExtra, t.distanceBits);
    Assoc(WrittenCode(i, |distances|), extra, tail);
    SymbolRoundTrip(dist, distances, 64, i, extra + tail);
    if t.distance == last[0] {
      NoExtra(tail);
      LastDistance(last, tail);
    } else {
      DistanceRoundTrip(DistanceCode(t.distanceCode, t.distanceExtra, t.distanceBits), t.distance, last, tail);
    }
  }

  lemma NoExtra(tail: bits)
    ensures LsbOf(0, 0) + tail == tail
  {}

  /** What the tokens before i have written. */
  ghost function Before(tokens: seq<Token>, i: nat, src: seq<byte>): seq<byte>
    requires i <= |tokens|
  {
    var r := Replay(tokens[..i], src);
    if r.Some? then r.value else []
  }

  lemma {:induction false} ReplayedBefore(tokens: seq<Token>, i: nat, src: seq<byte>)
    requires i <= |tokens| && Replay(tokens, src).Some?
    ensures Replay(tokens[..i], src).Some? && |Before(tokens, i, src)| <= |Replay(tokens, src).value|
    ensures i < |tokens| ==>
              && Applies(tokens[i], src, Before(tokens, i, src))
              && Before(tokens, i + 1, src) == Apply(tokens[i], src, Before(tokens, i, src))
    decreases |tokens| - i
  {
    hide Applies, Apply;
    if i == |tokens| {
      assert tokens[..i] == tokens;
    } else {
      ReplayedBefore(tokens, i + 1, src);
      assert tokens[..i + 1][..i] == tokens[..i] && tokens[..i + 1][i] == tokens[i];
      ApplyLength(tokens[i], src, Before(tokens, i, src));
    }
  }

  lemma ApplyLength(t: Token, src: seq<byte>, out: seq<byte>)
    ensures Applies(t, src, out) ==>
              |Apply(t, src, out)| == |out| + t.insertLen + t.copyLen && |out| <= |Apply(t, src, out)|
  {}

  lemma TokenGrows(t: Token, src: seq<byte>, out: seq<byte>, last: ring)
    requires Applies(t, src, out) && WellCoded(t, last)
    ensures |Apply(t, src, out)| > |out| && |Apply(t, src, out)| == |out| + t.insertLen + t.copyLen
  {}

  lemma RingNext(tokens: seq<Token>, i: nat)
    requires i < |tokens|
    ensures RingAfter(tokens[..i + 1])
         == if tokens[i].copyLen > 0 && tokens[i].distanceCode != 0
            then Push(tokens[i].distance, RingAfter(tokens[..i]))
            else RingAfter(tokens[..i])
  {
    assert tokens[..i + 1][..i] == tokens[..i] && tokens[..i + 1][i] == tokens[i];
  }

  /** The codes of a block that was made from tokens with these symbols. */
  ghost function BlockCodes(command: SymbolCode, distance: SymbolCode): Codes {
    Codes(Coded(LiteralLengths()), command, distance, 0, 0)
  }

  /** Decoding the bits of one token does what the token says. */
  lemma DecodeToken(t: Token, src: seq<byte>, commands: seq<nat>, distances: seq<nat>, command: SymbolCode,
                    distance: SymbolCode, cap: nat, out: seq<byte>, last: ring, tail: bits)
    requires Writable(t, src, commands, distances) && WellCoded(t, last) && Applies(t, src, out)
    requires CodeFor(command, commands, 704) && Straight(commands, t.command)
    requires t.copyLen > 0 ==> CodeFor(distance, distances, 64) && Straight(distances, t.distanceCode)
    requires |src| <= cap && |out| < |src| && |out| + t.insertLen + t.copyLen <= |src|
    requires t.copyLen == 0 ==> |out| + t.insertLen == |src|
    ensures DecodeData(BlockCodes(command, distance), TokenBits(t, src, commands, distances) + tail, |src|, cap, out,
                       |out|, last)
         == DecodeData(BlockCodes(command, distance), tail, |src|, cap, Apply(t, src, out), |Apply(t, src, out)|,
                       if t.copyLen > 0 && t.distanceCode != 0 then Push(t.distance, last) else last)
  {
    hide *;
    TokenParts(t, src, commands, distances, last, out, command, distance);
    var c := BlockCodes(command, distance);
    var lits := src[t.insertPos..t.insertPos + t.insertLen];
    var b1, b2 := WrittenCode(IndexOf(commands, t.command), |commands|), ExtraBits(t, src, commands, distances);
    var b3, b4 := LiteralBits(lits), DistanceBits(t, src, commands, distances);
    FourAhead(b1, b2, b3, b4, tail);
    StraightIs(commands, t.command);
    SymbolRoundTrip(command, commands, 704, IndexOf(commands, t.command), b2 + (b3 + (b4 + tail)));
    ReadExtraBits(t, src, commands, distances, b3 + (b4 + tail));
    ReadLiteralBits(lits, b4 + tail);
    DataTurn(c, TokenBits(t, src, commands, distances) + tail, |src|, cap, out, |out|, last);
    var cmd := ReadCommand(t.command, b2 + (b3 + (b4 + tail))).value.0;
    if t.copyLen > 0 {
      ReadDistanceBits(t, src, commands, distances, distance, last, tail);
      CopyTurn(c, cmd, b4 + tail, |src|, cap, out + lits, |out| + t.insertLen, last);
    } else {
      assert b4 + tail == tail;
      DataEnd(c, cmd, tail, |src|, cap, out + lits, last);
    }
  }

  lemma StraightIs(symbols: seq<nat>, s: nat)
    ensures Straight(symbols, s) <==>
              s in symbols && (|symbols| <= 3 || IndexOf(symbols, s) == 0 || IndexOf(symbols, s) == 3)
  {}

  lemma FewAreStraight(t: Token, src: seq<byte>, commands: seq<nat>, distances: seq<nat>)
    requires Writable(t, src, commands, distances) && |commands| <= 3 && |distances| <= 3
    ensures Straight(commands, t.command) && (t.copyLen > 0 ==> Straight(distances, t.distanceCode))
  {
    hide InsertFits, CopyFits, COPY_EXTRA, StandsFor, IndexOf;
  }

  /** The facts about a token that its decoding needs. */
  lemma TokenParts(t: Token, src: seq<byte>, commands: seq<nat>, distances: seq<nat>, last: ring, out: seq<byte>,
                   command: SymbolCode, distance: SymbolCode)
    requires Writable(t, src, commands, distances) && WellCoded(t, last) && Applies(t, src, out)
    ensures 1 <= |commands| <= 4 && t.command in commands && t.insertPos + t.insertLen <= |src|
    ensures TokenBits(t, src, commands, distances)
         == WrittenCode(IndexOf(commands, t.command), |commands|) + ExtraBits(t, src, commands, distances)
            + LiteralBits(src[t.insertPos..t.insertPos + t.insertLen]) + DistanceBits(t, src, commands, distances)
    ensures t.copyLen > 0 ==> t.command >= 128 && 0 < t.distance <= |out| + t.insertLen
    ensures t.copyLen == 0 ==> DistanceBits(t, src, commands, distances) == []
    ensures |src[t.insertPos..t.insertPos + t.insertLen]| == t.insertLen
    ensures t.copyLen == 0 ==> Apply(t, src, out) == out + src[t.insertPos..t.insertPos + t.insertLen]
    ensures t.copyLen > 0 ==>
              Apply(t, src, out) == CopyBack(out + src[t.insertPos..t.insertPos + t.insertLen], t.distance, t.copyLen)
    ensures |Apply(t, src, out)| == |out| + t.insertLen + t.copyLen
    ensures BlockCodes(command, distance) == Codes(Coded(LiteralLengths()), command, distance, 0, 0)
  {
    hide InsertFits, CopyFits, StandsFor, COPY_EXTRA, CopyBack, LiteralBits, WrittenCode, IndexOf, ExtraBits,
        LiteralLengths;
  }

  lemma FourAhead(a: bits, b: bits, c: bits, d: bits, t: bits)
    ensures (a + b + c + d) + t == a + (b + (c + (d + t)))
  {
    Assoc(a + b + c, d, t);
    Assoc(a + b, c, d + t);
    Assoc(a, b, c + (d + t));
  }

  /** Decoding the bits of the tokens from i on, behind what the tokens before i have written, gives the input. At most
      three different commands and three different distance codes keep the simple codes readable. */
  lemma {:induction false} DecodeTokens(tokens: seq<Token>, i: nat, src: seq<byte>, commands: seq<nat>,
                                        distances: seq<nat>, command: SymbolCode, distance: SymbolCode, cap: nat,
                                        tail: bits)
    requires Replay(tokens, src) == Some(src) && AllCoded(tokens) && CopiesUpTo(tokens, |tokens| - 1)
    requires AllWritable(tokens, src, commands, distances) && i <= |tokens| && |src| <= cap
    requires CodeFor(command, commands, 704) && |commands| <= 3
    requires CodeFor(distance, distances, 64) && |distances| <= 3
    ensures DecodeData(BlockCodes(command, distance), DataBits(tokens, i, src, commands, distances) + tail, |src|, cap,
                       Before(tokens, i, src), |Before(tokens, i, src)|, RingAfter(tokens[..i]))
         == Finished(src, tail)
    decreases |tokens| - i
  {
    hide DecodeData, TokenBits, RingAfter, WellCoded, Applies, Apply, CodeFor, Writable, Replay, BlockCodes, Push;
    ReplayedBefore(tokens, i, src);
    var out := Before(tokens, i, src);
    if i == |tokens| {
      assert tokens[..i] == tokens;
      assert DataBits(tokens, i, src, commands, distances) + tail == tail;
      DataEnd(BlockCodes(command, distance), Command(0, 2, false), tail, |src|, cap, src, RingAfter(tokens[..i]));
    } else {
      var t := tokens[i];
      RingNext(tokens, i);
      ApplyLength(t, src, out);
      ReplayedBefore(tokens, i + 1, src);
      Assoc(TokenBits(t, src, commands, distances), DataBits(tokens, i + 1, src, commands, distances), tail);
      DecodeTokens(tokens, i + 1, src, commands, distances, command, distance, cap, tail);
      if i + 1 == |tokens| { assert tokens[..i + 1] == tokens; }
      TokenGrows(t, src, out, RingAfter(tokens[..i]));
      FewAreStraight(t, src, commands, distances);
      DecodeToken(t, src, commands, distances, command, distance, cap, out, RingAfter(tokens[..i]),
                  DataBits(tokens, i + 1, src, commands, distances) + tail);
    }
  }

  // ---------- the encoder ----------

  /** Writes literals, each with its fixed code. */
  method WriteLiterals(bw: BitWriter, data: seq<byte>) returns (ok: bool)
    requires bw.Valid()
    modifies bw, bw.dst
    ensures ok <==> |old(bw.written)| + |LiteralBits(data)| < 8 * bw.dst.Length + 8
    ensures ok ==> bw.Valid() && bw.written == old(bw.written) + LiteralBits(data) && bw.overflow == old(bw.overflow)
  {
    hide BitsOf;
    assert data[0..] == data;
    for i := 0 to |data|
      invariant bw.Valid() && bw.overflow == old(bw.overflow)
      invariant bw.written + LiteralBits(data[i..]) == old(bw.written) + LiteralBits(data)
    {
      assert data[i..][1..] == data[i + 1..];
      Assoc(bw.written, BitsOf(data[i], 8), LiteralBits(data[i + 1..]));
      ok := WritePrefixBits(bw, data[i], 8);
      if !ok { return; }
    }
    assert bw.written + LiteralBits([]) == bw.written;
    ok := true;
  }

  /** Writes the extra bits of a command. */
  method WriteExtra(bw: BitWriter, t: Token, ghost src: seq<byte>, ghost commands: seq<nat>, ghost distances: seq<nat>)
    returns (ok: bool)
    requires bw.Valid() && Writable(t, src, commands, distances)
    modifies bw, bw.dst
    ensures ok <==> |old(bw.written)| + |ExtraBits(t, src, commands, distances)| < 8 * bw.dst.Length + 8
    ensures ok ==> bw.Valid() && bw.written == old(bw.written) + ExtraBits(t, src, commands, distances)
    ensures ok ==> bw.overflow == old(bw.overflow)
  {
    hide LsbOf, Pow2, INSERT_BASE, INSERT_EXTRA, COPY_BASE, COPY_EXTRA, InsertCode, CopyCode, StandsFor;
    Shapes();
    ExtraSizes();
    var i := InsertCode(t.command);
    ghost var w := bw.written;
    ok := bw.WriteBits(t.insertLen - INSERT_BASE[i], INSERT_EXTRA[i]);
    if !ok { return; }
    if t.copyLen > 0 {
      var c := CopyCode(t.command);
      Assoc(w, LsbOf(t.insertLen - INSERT_BASE[i], INSERT_EXTRA[i]), LsbOf(t.copyLen - COPY_BASE[c], COPY_EXTRA[c]));
      ok := bw.WriteBits(t.copyLen - COPY_BASE[c], COPY_EXTRA[c]);
    }
  }

  /** Writes one token. */
  method WriteToken(bw: BitWriter, t: Token, src: seq<byte>, commands: seq<nat>, distances: seq<nat>) returns (ok: bool)
    requires bw.Valid() && Writable(t, src, commands, distances) && Ascending(commands) && Ascending(distances)
    requires t.copyLen > 0 ==> t.distanceBits <= 24
    modifies bw, bw.dst
    ensures ok <==> |old(bw.written)| + |TokenBits(t, src, commands, distances)| < 8 * bw.dst.Length + 8
    ensures ok ==> bw.Valid() && bw.written == old(bw.written) + TokenBits(t, src, commands, distances)
    ensures ok ==> bw.overflow == old(bw.overflow)
  {
    hide *;
    WritableFacts(t, src, commands, distances);
    DistanceBitsAre(t, src, commands, distances);
    ghost var w := bw.written;
    ok := WriteSymbol(bw, commands, t.command);
    if !ok { return; }
    ok := WriteExtra(bw, t, src, commands, distances);
    if !ok { return; }
    ok := WriteLiterals(bw, src[t.insertPos..t.insertPos + t.insertLen]);
    if !ok { return; }
    ghost var a, b := WrittenCode(IndexOf(commands, t.command), |commands|), ExtraBits(t, src, commands, distances);
    ghost var c := LiteralBits(src[t.insertPos..t.insertPos + t.insertLen]);
    ghost var d := DistanceBits(t, src, commands, distances);
    FourBehind(w, a, b, c, d);
    if t.copyLen > 0 {
      ExtraInRange(t, src, commands, distances);
      Assoc(w + a + b + c, WrittenCode(IndexOf(distances, t.distanceCode), |distances|),
            LsbOf(t.distanceExtra, t.distanceBits));
      ok := WriteSymbol(bw, distances, t.distanceCode);
      if !ok { return; }
      ok := bw.WriteBits(t.distanceExtra, t.distanceBits);
    } else {
      assert w + a + b + c + [] == w + a + b + c;
    }
  }

  lemma FourBehind(w: bits, a: bits, b: bits, c: bits, d: bits)
    ensures w + a + b + c + d == w + (a + b + c + d)
  {
    Assoc(w, a, b);
    Assoc(w, a + b, c);
    Assoc(w, a + b + c, d);
  }

  lemma WritableFacts(t: Token, src: seq<byte>, commands: seq<nat>, distances: seq<nat>)
    requires Writable(t, src, commands, distances)
    ensures t.insertPos + t.insertLen <= |src| && 1 <= |commands| <= 4 && t.command in commands
    ensures TokenBits(t, src, commands, distances)
         == WrittenCode(IndexOf(commands, t.command), |commands|) + ExtraBits(t, src, commands, distances)
            + LiteralBits(src[t.insertPos..t.insertPos + t.insertLen]) + DistanceBits(t, src, commands, distances)
    ensures t.copyLen > 0 ==> 1 <= |distances| <= 4 && t.distanceCode in distances
  {
    hide InsertFits, CopyFits, COPY_EXTRA, LiteralBits, WrittenCode, IndexOf, ExtraBits, LsbOf, StandsFor, DistanceBits;
  }

  lemma DistanceBitsAre(t: Token, src: seq<byte>, commands: seq<nat>, distances: seq<nat>)
    requires Writable(t, src, commands, distances)
    ensures t.copyLen == 0 ==> DistanceBits(t, src, commands, distances) == []
    ensures t.copyLen > 0 ==>
              && 1 <= |distances| <= 4 && t.distanceCode in distances
              && DistanceBits(t, src, commands, distances)
                 == WrittenCode(IndexOf(distances, t.distanceCode), |distances|)
                     + LsbOf(t.distanceExtra, t.distanceBits)
  {
    hide InsertFits, CopyFits, COPY_EXTRA, LiteralBits, WrittenCode, IndexOf, ExtraBits, LsbOf, StandsFor;
  }

  lemma ExtraInRange(t: Token, src: seq<byte>, commands: seq<nat>, distances: seq<nat>)
    requires Writable(t, src, commands, distances) && t.copyLen > 0
    ensures t.distanceExtra < Pow2(t.distanceBits)
  {
    hide InsertFits, CopyFits, COPY_EXTRA, BucketBits, BucketBase;
  }

  /** Writes all tokens. */
  method WriteTokens(bw: BitWriter, tokens: seq<Token>, src: seq<byte>, commands: seq<nat>, distances: seq<nat>)
    returns (ok: bool)
    requires bw.Valid() && AllWritable(tokens, src, commands, distances) && Ascending(commands) && Ascending(distances)
    requires forall i :: 0 <= i < |tokens| ==> tokens[i].copyLen > 0 ==> tokens[i].distanceBits <= 24
    modifies bw, bw.dst
    ensures ok <==> |old(bw.written)| + |DataBits(tokens, 0, src, commands, distances)| < 8 * bw.dst.Length + 8
    ensures ok ==> bw.Valid() && bw.written == old(bw.written) + DataBits(tokens, 0, src, commands, distances)
    ensures ok ==> bw.overflow == old(bw.overflow)
  {
    hide TokenBits, Writable, Ascending;
    ghost var goal := bw.written + DataBits(tokens, 0, src, commands, distances);
    for i := 0 to |tokens|
      invariant bw.Valid() && bw.overflow == old(bw.overflow)
      invariant bw.written + DataBits(tokens, i, src, commands, distances) == goal
    {
      Assoc(bw.written, TokenBits(tokens[i], src, commands, distances),
            DataBits(tokens, i + 1, src, commands, distances));
      ok := WriteToken(bw, tokens[i], src, commands, distances);
      if !ok { return; }
    }
    assert bw.written + [] == bw.written;
    ok := true;
  }

  /** A token that is coded and applies can be written. */
  lemma CodedWritable(t: Token, src: seq<byte>, out: seq<byte>, last: ring, commands: seq<nat>, distances: seq<nat>)
    requires WellCoded(t, last) && Applies(t, src, out) && |commands| <= 4 && |distances| <= 4
    requires t.command in commands && (t.copyLen > 0 ==> t.distanceCode in distances)
    ensures Writable(t, src, commands, distances) && (t.copyLen > 0 ==> t.distance > 0)
  {
    hide InsertFits, CopyFits, COPY_EXTRA, BucketBits, BucketBase, Pow2, CopyCode;
  }

  /** Tokens that were built can be written. */
  lemma BuiltWritable(tokens: seq<Token>, src: seq<byte>, commands: seq<nat>, distances: seq<nat>)
    requires Replay(tokens, src) == Some(src) && AllCoded(tokens) && Listed(tokens, commands, distances)
    requires |tokens| > 0 && |commands| <= 4 && |distances| <= 4
    ensures AllWritable(tokens, src, commands, distances) && 1 <= |commands|
  {
    hide WellCoded, Writable, Applies, Apply, Replay, RingAfter;
    forall i | 0 <= i < |tokens| ensures Writable(tokens[i], src, commands, distances) {
      ReplayedBefore(tokens, i, src);
      CodedWritable(tokens[i], src, Before(tokens, i, src), RingAfter(tokens[..i]), commands, distances);
    }
    assert tokens[0].command in commands;
  }

  /** The tokens of an accepted input, written with at most three different symbols of either kind, decode to the
      input. */
  lemma TokenBlockRoundTrip(tokens: seq<Token>, src: seq<byte>, commands: seq<nat>, distances: seq<nat>,
                            command: SymbolCode, distance: SymbolCode, cap: nat, tail: bits)
    requires Replay(tokens, src) == Some(src) && AllCoded(tokens) && CopiesUpTo(tokens, |tokens| - 1)
    requires Listed(tokens, commands, distances) && |tokens| > 0 && |src| <= cap
    requires CodeFor(command, commands, 704) && |commands| <= 3
    requires CodeFor(distance, distances, 64) && |distances| <= 3
    ensures AllWritable(tokens, src, commands, distances)
    ensures DecodeData(BlockCodes(command, distance), DataBits(tokens, 0, src, commands, distances) + tail, |src|, cap,
                       [], 0, FIRST_RING)
         == Finished(src, tail)
  {
    BuiltWritable(tokens, src, commands, distances);
    DecodeTokens(tokens, 0, src, commands, distances, command, distance, cap, tail);
    assert tokens[..0] == [];
  }
}
