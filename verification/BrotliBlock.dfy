/** The data of a compressed Brotli meta-block with one block type of each kind: the decoder's loop against a plain
    decoder of bit strings. */
module BrotliBlock {
  import opened Bits
  import opened LsbBits
  import opened Canonical
  import opened DecodeTable
  import opened BackCopy
  import opened BrotliBits
  import opened BrotliCodes
  import opened BrotliPrefix
  import opened BrotliSymbols

  // ---------- the decoder ----------

  datatype Outcome = Finished(out: seq<byte>, rest: bits) | DataError | NeedOutput | Dictionary

  /** count literals. */
  function ReadLiterals(c: SymbolCode, s: bits, count: nat): (r: Option<(seq<byte>, bits)>)
    ensures r.Some? ==> |r.value.0| == count
    decreases count
  {
    if count == 0 then Some(([], s))
    else
      var one := ReadCode(c, s);
      if one.None? || one.value.0 > 255 then None
      else
        var more := ReadLiterals(c, one.value.1, count - 1);
        if more.None? then None else Some(([one.value.0] + more.value.0, more.value.1))
  }

  /** The distance of a command: the last one, or a coded one; with the bits behind it and whether it is remembered. */
  function ReadCommandDistance(dist: SymbolCode, implicitDistance: bool, s: bits, ndirect: nat, npostfix: nat,
                               last: ring)
    : Option<(int, bits, bool)>
  {
    if implicitDistance then Some((last[0], s, false))
    else
      var code := ReadCode(dist, s);
      if code.None? then None
      else
        var d := ReadDistance(code.value.0, code.value.1, ndirect, npostfix, last);
        if d.None? then None else Some((d.value.0, d.value.1, code.value.0 != 0))
  }

  datatype Codes = Codes(literal: SymbolCode, command: SymbolCode, distance: SymbolCode, ndirect: nat, npostfix: nat)

  /** The data of a meta-block of metaLen bytes, `produced` of which are written. */
  ghost function DecodeData(c: Codes, s: bits, metaLen: nat, cap: nat, out: seq<byte>, produced: nat,
                            last: ring): Outcome
    decreases metaLen - produced, 1
  {
    if produced >= metaLen then Finished(out, s)
    else
      var sym := ReadCode(c.command, s);
      if sym.None? then DataError
      else
        var cmd := ReadCommand(sym.value.0, sym.value.1);
        if cmd.None? then DataError
        else if cmd.value.0.insertLen > metaLen - produced then DataError
        else if |out| + cmd.value.0.insertLen > cap then NeedOutput
        else
          var lits := ReadLiterals(c.literal, cmd.value.1, cmd.value.0.insertLen);
          if lits.None? then DataError
          else DecodeCopy(c, cmd.value.0, lits.value.1, metaLen, cap, out + lits.value.0,
                          produced + cmd.value.0.insertLen, last)
  }

  /** The copy behind the literals of a command. */
  ghost function DecodeCopy(c: Codes, cmd: Command, s: bits, metaLen: nat, cap: nat, out: seq<byte>, produced: nat,
                            last: ring): Outcome
    requires cmd.copyLen >= 2
    decreases metaLen - produced, 0
  {
    if produced >= metaLen then Finished(out, s)
    else
      var d := ReadCommandDistance(c.distance, cmd.implicitDistance, s, c.ndirect, c.npostfix, last);
      if d.None? || d.value.0 <= 0 then DataError
      else if d.value.0 > |out| then Dictionary
      else if cmd.copyLen > metaLen - produced then DataError
      else if |out| + cmd.copyLen > cap then NeedOutput
      else DecodeData(c, d.value.1, metaLen, cap, CopyBack(out, d.value.0, cmd.copyLen), produced + cmd.copyLen,
                      if d.value.2 then Push(d.value.0, last) else last)
  }

  // ---------- the symbols it reads ----------

  /** A symbol of the command alphabet or of the distance alphabet. */
  datatype Symbol = CommandSymbol(number: int) | DistanceSymbol(number: int)

  /** The command and distance symbols that are read, in order, up to the end of the block or the error. */
  ghost function SymbolsRead(c: Codes, s: bits, metaLen: nat, cap: nat, out: seq<byte>, produced: nat, last: ring)
    : seq<Symbol>
    decreases metaLen - produced, 1
  {
    if produced >= metaLen then []
    else
      var sym := ReadCode(c.command, s);
      if sym.None? then []
      else
        var cmd := ReadCommand(sym.value.0, sym.value.1);
        if cmd.None? || cmd.value.0.insertLen > metaLen - produced || |out| + cmd.value.0.insertLen > cap
        then [CommandSymbol(sym.value.0)]
        else
          var lits := ReadLiterals(c.literal, cmd.value.1, cmd.value.0.insertLen);
          [CommandSymbol(sym.value.0)]
          + if lits.None? then []
            else SymbolsReadCopy(c, cmd.value.0, lits.value.1, metaLen, cap, out + lits.value.0,
                                 produced + cmd.value.0.insertLen, last)
  }

  ghost function SymbolsReadCopy(c: Codes, cmd: Command, s: bits, metaLen: nat, cap: nat, out: seq<byte>, produced: nat,
                                 last: ring): seq<Symbol>
    requires cmd.copyLen >= 2
    decreases metaLen - produced, 0
  {
    if produced >= metaLen then []
    else
      var d := ReadCommandDistance(c.distance, cmd.implicitDistance, s, c.ndirect, c.npostfix, last);
      DistanceRead(c.distance, cmd.implicitDistance, s)
      + if || d.None? || d.value.0 <= 0 || d.value.0 > |out| || cmd.copyLen > metaLen - produced
           || |out| + cmd.copyLen > cap
        then []
        else SymbolsRead(c, d.value.1, metaLen, cap, CopyBack(out, d.value.0, cmd.copyLen), produced + cmd.copyLen,
                         if d.value.2 then Push(d.value.0, last) else last)
  }

  /** The distance symbol of a command, unless it has none. */
  function DistanceRead(dist: SymbolCode, implicitDistance: bool, s: bits): seq<Symbol> {
    if implicitDistance || ReadCode(dist, s).None? then [] else [DistanceSymbol(ReadCode(dist, s).value.0)]
  }

  /** One step of the reading, up to the literals. */
  lemma SymbolsTurn(c: Codes, s: bits, metaLen: nat, cap: nat, out: seq<byte>, produced: nat, last: ring)
    requires produced < metaLen
    ensures var now, sym := SymbolsRead(c, s, metaLen, cap, out, produced, last), ReadCode(c.command, s);
            && (sym.None? ==> now == [])
            && (sym.Some? ==>
                 var cmd := ReadCommand(sym.value.0, sym.value.1);
                 && (cmd.None? ==> now == [CommandSymbol(sym.value.0)])
                 && (cmd.Some? ==>
                      var n := cmd.value.0.insertLen;
                      && (n > metaLen - produced || |out| + n > cap ==> now == [CommandSymbol(sym.value.0)])
                      && (n <= metaLen - produced && |out| + n <= cap ==>
                           var lits := ReadLiterals(c.literal, cmd.value.1, n);
                           && (lits.None? ==> now == [CommandSymbol(sym.value.0)])
                           && (lits.Some? ==> now == [CommandSymbol(sym.value.0)]
                                                     + SymbolsReadCopy(c, cmd.value.0, lits.value.1, metaLen, cap,
                                                                       out + lits.value.0, produced + n, last)))))
  {
    hide ReadCode, ReadCommand, ReadLiterals, SymbolsReadCopy;
  }

  lemma SymbolsCopyTurn(c: Codes, cmd: Command, s: bits, metaLen: nat, cap: nat, out: seq<byte>, produced: nat,
                        last: ring)
    requires produced < metaLen && cmd.copyLen >= 2
    ensures var now := SymbolsReadCopy(c, cmd, s, metaLen, cap, out, produced, last);
            var d := ReadCommandDistance(c.distance, cmd.implicitDistance, s, c.ndirect, c.npostfix, last);
            var read := DistanceRead(c.distance, cmd.implicitDistance, s);
            && (d.None? || d.value.0 <= 0 || d.value.0 > |out| ==> now == read)
            && (d.Some? && 0 < d.value.0 <= |out| ==>
                 && (cmd.copyLen > metaLen - produced || |out| + cmd.copyLen > cap ==> now == read)
                 && (cmd.copyLen <= metaLen - produced && |out| + cmd.copyLen <= cap ==>
                      now == read + SymbolsRead(c, d.value.1, metaLen, cap, CopyBack(out, d.value.0, cmd.copyLen),
                                                produced + cmd.copyLen,
                                                if d.value.2 then Push(d.value.0, last) else last)))
  {
    hide ReadCommandDistance, SymbolsRead, CopyBack, Push, DistanceRead;
  }

  lemma SymbolsEnd(c: Codes, cmd: Command, s: bits, metaLen: nat, cap: nat, out: seq<byte>, last: ring)
    requires cmd.copyLen >= 2
    ensures SymbolsRead(c, s, metaLen, cap, out, metaLen, last) == []
    ensures SymbolsReadCopy(c, cmd, s, metaLen, cap, out, metaLen, last) == []
  {}

  /** Reads the extra bits of a command symbol. */
  method DecodeCommandSymbol(br: BitReader, symbol: int) returns (ok: bool, cmd: Command)
    requires br.Valid() && !br.error
    modifies br
    ensures br.Valid()
    ensures match ReadCommand(symbol, old(br.Rest()))
            case Some(r) => ok && cmd == r.0 && br.Rest() == r.1 && !br.error
            case None => !ok
  {
    hide InsertCode, CopyCode, INSERT_BASE, INSERT_EXTRA, COPY_BASE, COPY_EXTRA, NumberOf, Pow2;
    cmd := Command(0, 2, false);
    if symbol < 0 || symbol >= 704 { return false, cmd; }
    Shapes();
    ExtraSizes();
    var i, c := InsertCode(symbol), CopyCode(symbol);
    var insertExtra := br.ReadBits(INSERT_EXTRA[i]);
    if br.error { return false, cmd; }
    var copyExtra := br.ReadBits(COPY_EXTRA[c]);
    if br.error { return false, cmd; }
    return true, Command(INSERT_BASE[i] + insertExtra, COPY_BASE[c] + copyExtra, symbol < 128);
  }

  lemma ExtraSizes()
    ensures |INSERT_EXTRA| == |COPY_EXTRA| == 24 && forall i :: 0 <= i < 24 ==>
              INSERT_EXTRA[i] <= 24 && COPY_EXTRA[i] <= 24
  {}

  /** The distance alphabet for these parameters. */
  function DistanceAlphabet(ndirect: nat, npostfix: nat): nat { 16 + ndirect + 48 * Pow2(npostfix) }

  lemma BucketBound(code: nat, ndirect: nat, npostfix: nat)
    requires 16 + ndirect <= code < DistanceAlphabet(ndirect, npostfix)
    ensures 0 <= (code - 16 - ndirect) / Pow2(npostfix) < 48
  {
    var p := Pow2(npostfix);
    var q := (code - 16 - ndirect) / p;
    DivModSplit(code - 16 - ndirect, p);
    if q >= 48 { MulMono(48, q, p); }
  }

  /** A distance from its code and extra bits. */
  method ComputeDistance(br: BitReader, code: int, ndirect: nat, npostfix: nat, last: ring)
    returns (ok: bool, distance: int)
    requires br.Valid() && !br.error && code < DistanceAlphabet(ndirect, npostfix)
    modifies br
    ensures br.Valid()
    ensures match ReadDistance(code, old(br.Rest()), ndirect, npostfix, last)
            case Some(r) => ok && distance == r.0 && br.Rest() == r.1 && !br.error
            case None => !ok
  {
    hide NumberOf, Pow2;
    distance := 0;
    if code < 0 { return false, distance; }
    if code < 16 {
      distance := last[RING_INDEX[code]] + RING_DELTA[code];
      return distance > 0, distance;
    }
    var adjusted := code - 16;
    if adjusted < ndirect { return true, adjusted + 1; }
    BucketBound(code, ndirect, npostfix);
    var postfix, bucket := adjusted % Pow2(npostfix), (adjusted - ndirect) / Pow2(npostfix);
    var nbits := bucket / 2 + 1;
    var offset := (2 + bucket % 2) * Pow2(nbits) - 4;
    var extra := br.ReadBits(nbits);
    if br.error { return false, distance; }
    return true, (offset + extra) * Pow2(npostfix) + postfix + ndirect + 1;
  }

  datatype DecodeStatus = Ok | Malformed | OutputFull | Unsupported

  /** How the loop's end corresponds to the plain decoder's. */
  ghost predicate Agrees(o: Outcome, status: DecodeStatus, out: seq<byte>, rest: bits) {
    match o
    case Finished(d, r) => status == Ok && out == d && rest == r
    case DataError => status == Malformed
    case NeedOutput => status == OutputFull
    case Dictionary => status == Unsupported
  }

  /** Reads literals into dst. */
  method DecodeLiterals(br: BitReader, lit: PrefixCode, dst: array<byte>, outPos: nat, count: nat) returns (ok: bool)
    requires br.Valid() && !br.error && lit.Valid() && br !in lit.Repr && dst !in lit.Repr
             && outPos + count <= dst.Length
    modifies br, dst
    ensures br.Valid() && lit.Valid()
    ensures match ReadLiterals(CodeOf(lit), old(br.Rest()), count)
            case Some(r) =>
              ok && dst[..outPos + count] == old(dst[..outPos]) + r.0 && br.Rest() == r.1 && !br.error
            case None => !ok
  {
    hide ReadCode, CodeOf, PrefixCode.Valid, BitReader.Valid, BitReader.Rest, ReadLiterals;
    ghost var c := CodeOf(lit);
    ghost var goal := ReadLiterals(c, br.Rest(), count);
    ghost var was := dst[..outPos];
    LiteralsStart(c, br.Rest(), count);
    ghost var done: seq<byte> := [];
    for i := 0 to count
      invariant br.Valid() && !br.error && lit.Valid() && CodeOf(lit) == c && |done| == i
      invariant dst[..outPos + i] == was + done && After(done, ReadLiterals(c, br.Rest(), count - i)) == goal
    {
      LiteralsTurn(done, c, br.Rest(), count - i);
      var literal := ReadSymbol(lit, br);
      if literal < 0 || literal > 255 { return false; }
      Put(dst, outPos + i, literal);
      Assoc(was, done, [literal]);
      done := done + [literal];
    }
    LiteralsEnd(done, c, br.Rest());
    ok := true;
  }

  method Put(dst: array<byte>, k: nat, c: byte)
    requires k < dst.Length
    modifies dst
    ensures dst[..k + 1] == old(dst[..k]) + [c]
  {
    dst[k] := c;
  }

  /** Literals read already, in front of the others. */
  function After(done: seq<byte>, more: Option<(seq<byte>, bits)>): Option<(seq<byte>, bits)> {
    if more.None? then None else Some((done + more.value.0, more.value.1))
  }

  lemma LiteralsStart(c: SymbolCode, s: bits, count: nat)
    ensures After([], ReadLiterals(c, s, count)) == ReadLiterals(c, s, count)
  {
    var r := ReadLiterals(c, s, count);
    if r.Some? { assert [] + r.value.0 == r.value.0; }
  }

  lemma LiteralsTurn(done: seq<byte>, c: SymbolCode, s: bits, count: nat)
    requires count > 0
    ensures var one, now := ReadCode(c, s), After(done, ReadLiterals(c, s, count));
            && (one.None? || one.value.0 > 255 ==> now.None?)
            && (one.Some? && one.value.0 <= 255 ==>
                 now == After(done + [one.value.0], ReadLiterals(c, one.value.1, count - 1)))
  {
    hide ReadCode;
    var one := ReadCode(c, s);
    if one.Some? && one.value.0 <= 255 {
      var more := ReadLiterals(c, one.value.1, count - 1);
      if more.Some? { Assoc(done, [one.value.0], more.value.0); }
    }
  }

  lemma LiteralsEnd(done: seq<byte>, c: SymbolCode, s: bits)
    ensures After(done, ReadLiterals(c, s, 0)) == Some((done, s))
  {
    assert done + [] == done;
  }

  /** The distance of a command with the code it was written in. */
  method DecodeDistance(br: BitReader, dist: PrefixCode, implicitDistance: bool, ndirect: nat, npostfix: nat,
                        last: ring)
    returns (ok: bool, distance: int, push: bool, ghost read: seq<Symbol>)
    requires br.Valid() && !br.error && dist.Valid() && br !in dist.Repr
    requires |dist.lens| <= DistanceAlphabet(ndirect, npostfix)
    modifies br
    ensures br.Valid()
    ensures match ReadCommandDistance(CodeOf(dist), implicitDistance, old(br.Rest()), ndirect, npostfix, last)
            case Some(r) => ok && distance == r.0 && push == r.2 && br.Rest() == r.1 && !br.error
            case None => !ok
    ensures read == DistanceRead(CodeOf(dist), implicitDistance, old(br.Rest()))
  {
    hide ReadDistance, NumberOf, Pow2, LookupFull, ListedUpTo, Kraft, Canonical.Decode;
    distance, push, read := last[0], false, [];
    if implicitDistance { return true, distance, push, read; }
    ghost var s := br.Rest();
    var code := ReadSymbol(dist, br);
    if code < 0 { return false, distance, push, read; }
    read := [DistanceSymbol(code)];
    SymbolInAlphabet(dist, s);
    ok, distance := ComputeDistance(br, code, ndirect, npostfix, last);
    push := code != 0;
  }

  /** One step of the plain decoder, up to the literals. */
  lemma DataTurn(c: Codes, s: bits, metaLen: nat, cap: nat, out: seq<byte>, produced: nat, last: ring)
    requires produced < metaLen
    ensures var now, sym := DecodeData(c, s, metaLen, cap, out, produced, last), ReadCode(c.command, s);
            && (sym.None? ==> now == DataError)
            && (sym.Some? ==>
                 var cmd := ReadCommand(sym.value.0, sym.value.1);
                 && (cmd.None? ==> now == DataError)
                 && (cmd.Some? ==>
                      var n := cmd.value.0.insertLen;
                      && (n > metaLen - produced ==> now == DataError)
                      && (n <= metaLen - produced && |out| + n > cap ==> now == NeedOutput)
                      && (n <= metaLen - produced && |out| + n <= cap ==>
                           var lits := ReadLiterals(c.literal, cmd.value.1, n);
                           && (lits.None? ==> now == DataError)
                           && (lits.Some? ==> now == DecodeCopy(c, cmd.value.0, lits.value.1, metaLen, cap,
                                                                out + lits.value.0, produced + n, last)))))
  {
    hide ReadCode, ReadCommand, ReadLiterals, DecodeCopy;
  }

  lemma CopyTurn(c: Codes, cmd: Command, s: bits, metaLen: nat, cap: nat, out: seq<byte>, produced: nat, last: ring)
    requires produced < metaLen && cmd.copyLen >= 2
    ensures var now := DecodeCopy(c, cmd, s, metaLen, cap, out, produced, last);
            var d := ReadCommandDistance(c.distance, cmd.implicitDistance, s, c.ndirect, c.npostfix, last);
            && (d.None? ==> now == DataError)
            && (d.Some? ==>
                 && (d.value.0 <= 0 ==> now == DataError)
                 && (d.value.0 > |out| ==> now == Dictionary)
                 && (0 < d.value.0 <= |out| ==>
                      && (cmd.copyLen > metaLen - produced ==> now == DataError)
                      && (cmd.copyLen <= metaLen - produced && |out| + cmd.copyLen > cap ==> now == NeedOutput)
                      && (cmd.copyLen <= metaLen - produced && |out| + cmd.copyLen <= cap ==>
                           now == DecodeData(c, d.value.1, metaLen, cap, CopyBack(out, d.value.0, cmd.copyLen),
                                             produced + cmd.copyLen,
                                             if d.value.2 then Push(d.value.0, last) else last))))
  {
    hide ReadCommandDistance, DecodeData, CopyBack, Push;
  }

  lemma DataEnd(c: Codes, cmd: Command, s: bits, metaLen: nat, cap: nat, out: seq<byte>, last: ring)
    requires cmd.copyLen >= 2
    ensures DecodeData(c, s, metaLen, cap, out, metaLen, last) == Finished(out, s)
    ensures DecodeCopy(c, cmd, s, metaLen, cap, out, metaLen, last) == Finished(out, s)
  {}

  /** The three codes stand for what the plain decoder uses. */
  ghost predicate Stand(lit: PrefixCode, command: PrefixCode, dist: PrefixCode, c: Codes)
    reads lit, lit.Repr, command, command.Repr, dist, dist.Repr
  {
    && lit.Valid() && command.Valid() && dist.Valid()
    && c.literal == CodeOf(lit) && c.command == CodeOf(command) && c.distance == CodeOf(dist)
    && |dist.lens| <= DistanceAlphabet(c.ndirect, c.npostfix)
  }

  /** A command and its literals. */
  method InsertTurn(br: BitReader, lit: PrefixCode, command: PrefixCode, dist: PrefixCode, ghost c: Codes, metaLen: nat,
                    dst: array<byte>, outPos: nat, produced: nat, ghost last: ring)
    returns (status: DecodeStatus, cmd: Command, out: nat, ghost read: seq<Symbol>)
    requires br.Valid() && !br.error && Stand(lit, command, dist, c) && outPos <= dst.Length && produced < metaLen
    requires {br, dst} !! lit.Repr + command.Repr + dist.Repr + {lit, command, dist}
    modifies br, dst
    ensures br.Valid() && outPos <= out && out - outPos == cmd.insertLen
    ensures status != Ok ==>
              Agrees(DecodeData(c, old(br.Rest()), metaLen, dst.Length, old(dst[..outPos]), produced, last),
                                    status, [], [])
    ensures status == Ok ==>
              && !br.error && Stand(lit, command, dist, c) && out <= dst.Length && cmd.copyLen >= 2
              && produced + cmd.insertLen <= metaLen
              && DecodeData(c, old(br.Rest()), metaLen, dst.Length, old(dst[..outPos]), produced, last)
                 == DecodeCopy(c, cmd, br.Rest(), metaLen, dst.Length, dst[..out], produced + cmd.insertLen, last)
              && SymbolsRead(c, old(br.Rest()), metaLen, dst.Length, old(dst[..outPos]), produced, last)
                 == read + SymbolsReadCopy(c, cmd, br.Rest(), metaLen, dst.Length, dst[..out], produced + cmd.insertLen,
                                           last)
    ensures status != Ok ==>
              SymbolsRead(c, old(br.Rest()), metaLen, dst.Length, old(dst[..outPos]), produced, last) == read
  {
    hide *;
    ghost var s, was := br.Rest(), dst[..outPos];
    DataTurn(c, s, metaLen, dst.Length, was, produced, last);
    SymbolsTurn(c, s, metaLen, dst.Length, was, produced, last);
    read := [];
    StandFor(lit, command, dist, c);
    cmd := Command(0, 2, false);
    var symbol := ReadSymbol(command, br);
    SymbolNotNegative(c.command, s);
    if symbol < 0 {
      AgreesError(Malformed);
      return Malformed, cmd, outPos, read;
    }
    read := [CommandSymbol(symbol)];
    var ok, found := DecodeCommandSymbol(br, symbol);
    if !ok {
      AgreesError(Malformed);
      return Malformed, cmd, outPos, read;
    }
    if found.insertLen > metaLen - produced {
      AgreesError(Malformed);
      return Malformed, cmd, outPos, read;
    }
    if outPos + found.insertLen > dst.Length {
      AgreesError(OutputFull);
      return OutputFull, cmd, outPos, read;
    }
    ok := DecodeLiterals(br, lit, dst, outPos, found.insertLen);
    if !ok {
      AgreesError(Malformed);
      return Malformed, cmd, outPos, read;
    }
    return Ok, found, outPos + found.insertLen, read;
  }

  lemma AgreesError(status: DecodeStatus)
    ensures status == Malformed ==> Agrees(DataError, status, [], [])
    ensures status == OutputFull ==> Agrees(NeedOutput, status, [], [])
    ensures status == Unsupported ==> Agrees(Dictionary, status, [], [])
  {}

  lemma SymbolNotNegative(c: SymbolCode, s: bits)
    ensures ReadCode(c, s).Some? ==> ReadCode(c, s).value.0 >= 0
  {}

  lemma StandFor(lit: PrefixCode, command: PrefixCode, dist: PrefixCode, c: Codes)
    requires Stand(lit, command, dist, c)
    ensures lit.Valid() && command.Valid() && dist.Valid()
    ensures c.literal == CodeOf(lit) && c.command == CodeOf(command) && c.distance == CodeOf(dist)
    ensures |dist.lens| <= DistanceAlphabet(c.ndirect, c.npostfix)
  {}

  /** A distance and its copy. */
  method CopyStep(br: BitReader, lit: PrefixCode, command: PrefixCode, dist: PrefixCode, ghost c: Codes, cmd: Command,
                  ndirect: nat, npostfix: nat, metaLen: nat, dst: array<byte>, outPos: nat, produced: nat, last: ring)
    returns (status: DecodeStatus, out: nat, next: ring, ghost read: seq<Symbol>)
    requires br.Valid() && !br.error && Stand(lit, command, dist, c) && outPos <= dst.Length && produced < metaLen
    requires cmd.copyLen >= 2 && c.ndirect == ndirect && c.npostfix == npostfix
    requires {br, dst} !! lit.Repr + command.Repr + dist.Repr + {lit, command, dist}
    modifies br, dst
    ensures br.Valid() && outPos <= out
    ensures status != Ok ==>
              Agrees(DecodeCopy(c, cmd, old(br.Rest()), metaLen, dst.Length, old(dst[..outPos]), produced, last),
                     status, [], [])
    ensures status == Ok ==>
              && !br.error && Stand(lit, command, dist, c) && out == outPos + cmd.copyLen <= dst.Length
              && produced + cmd.copyLen <= metaLen
              && DecodeCopy(c, cmd, old(br.Rest()), metaLen, dst.Length, old(dst[..outPos]), produced, last)
                 == DecodeData(c, br.Rest(), metaLen, dst.Length, dst[..out], produced + cmd.copyLen, next)
              && SymbolsReadCopy(c, cmd, old(br.Rest()), metaLen, dst.Length, old(dst[..outPos]), produced, last)
                 == read + SymbolsRead(c, br.Rest(), metaLen, dst.Length, dst[..out], produced + cmd.copyLen, next)
    ensures status != Ok ==>
              SymbolsReadCopy(c, cmd, old(br.Rest()), metaLen, dst.Length, old(dst[..outPos]), produced, last) == read
  {
    hide *;
    CopyTurn(c, cmd, br.Rest(), metaLen, dst.Length, dst[..outPos], produced, last);
    SymbolsCopyTurn(c, cmd, br.Rest(), metaLen, dst.Length, dst[..outPos], produced, last);
    StandFor(lit, command, dist, c);
    out, next := outPos, last;
    var ok, distance, push;
    ok, distance, push, read := DecodeDistance(br, dist, cmd.implicitDistance, ndirect, npostfix, last);
    if !ok || distance <= 0 {
      AgreesError(Malformed);
      return Malformed, out, next, read;
    }
    if distance > outPos {
      AgreesError(Unsupported);
      return Unsupported, out, next, read;
    }
    if cmd.copyLen > metaLen - produced {
      AgreesError(Malformed);
      return Malformed, out, next, read;
    }
    if outPos + cmd.copyLen > dst.Length {
      AgreesError(OutputFull);
      return OutputFull, out, next, read;
    }
    CopyMatchBytes(dst, outPos, distance, cmd.copyLen);
    return Ok, outPos + cmd.copyLen, if push then Push(distance, last) else last, read;
  }

  /** The decoder's loop for a meta-block with one block type of each kind and one tree for each. */
  method DecodeMetaBlock(br: BitReader, lit: PrefixCode, command: PrefixCode, dist: PrefixCode, ndirect: nat,
                         npostfix: nat, metaLen: nat, dst: array<byte>, outPos: nat)
    returns (status: DecodeStatus, out: nat, ghost read: seq<Symbol>)
    requires br.Valid() && !br.error && lit.Valid() && command.Valid() && dist.Valid() && outPos <= dst.Length
    requires {br, dst} !! lit.Repr + command.Repr + dist.Repr + {lit, command, dist}
    requires |dist.lens| <= DistanceAlphabet(ndirect, npostfix)
    modifies br, dst
    ensures br.Valid() && (status == Ok ==> out <= dst.Length)
    ensures Agrees(DecodeData(Codes(CodeOf(lit), CodeOf(command), CodeOf(dist), ndirect, npostfix), old(br.Rest()),
                              metaLen, dst.Length, old(dst[..outPos]), 0, FIRST_RING),
                   status, if status == Ok then dst[..out] else [], if status == Ok then br.Rest() else [])
    ensures read == SymbolsRead(Codes(CodeOf(lit), CodeOf(command), CodeOf(dist), ndirect, npostfix), old(br.Rest()),
                                metaLen, dst.Length, old(dst[..outPos]), 0, FIRST_RING)
  {
    hide SymbolsRead, SymbolsReadCopy, DecodeData, DecodeCopy, CodeOf, PrefixCode.Valid, DistanceAlphabet, Agrees;
    ghost var c := Codes(CodeOf(lit), CodeOf(command), CodeOf(dist), ndirect, npostfix);
    ghost var goal := DecodeData(c, br.Rest(), metaLen, dst.Length, dst[..outPos], 0, FIRST_RING);
    ghost var all := SymbolsRead(c, br.Rest(), metaLen, dst.Length, dst[..outPos], 0, FIRST_RING);
    out, read := outPos, [];
    var produced := 0;
    var last := FIRST_RING;
    while produced < metaLen
      invariant br.Valid() && !br.error && Stand(lit, command, dist, c)
      invariant produced <= metaLen && out <= dst.Length
      invariant DecodeData(c, br.Rest(), metaLen, dst.Length, dst[..out], produced, last) == goal
      invariant read + SymbolsRead(c, br.Rest(), metaLen, dst.Length, dst[..out], produced, last) == all
      decreases metaLen - produced
    {
      var cmd;
      ghost var before, more := read, [];
      status, cmd, out, more := InsertTurn(br, lit, command, dist, c, metaLen, dst, out, produced, last);
      read := before + more;
      if status != Ok { return; }
      produced := produced + cmd.insertLen;
      Assoc(before, more, SymbolsReadCopy(c, cmd, br.Rest(), metaLen, dst.Length, dst[..out], produced, last));
      if produced == metaLen {
        SymbolsEnd(c, cmd, br.Rest(), metaLen, dst.Length, dst[..out], last);
        assert read + [] == read;
        DataEnd(c, cmd, br.Rest(), metaLen, dst.Length, dst[..out], last);
        AgreesFinished(dst[..out], br.Rest());
        return;
      }
      before := read;
      status, out, last, more := CopyStep(br, lit, command, dist, c, cmd, ndirect, npostfix, metaLen, dst, out,
                                          produced, last);
      read := before + more;
      if status != Ok { return; }
      produced := produced + cmd.copyLen;
      Assoc(before, more, SymbolsRead(c, br.Rest(), metaLen, dst.Length, dst[..out], produced, last));
    }
    SymbolsEnd(c, Command(0, 2, false), br.Rest(), metaLen, dst.Length, dst[..out], last);
    assert read + [] == read;
    DataEnd(c, Command(0, 2, false), br.Rest(), metaLen, dst.Length, dst[..out], last);
    AgreesFinished(dst[..out], br.Rest());
    status := Ok;
  }

  lemma AgreesFinished(out: seq<byte>, rest: bits)
    ensures Agrees(Finished(out, rest), Ok, out, rest)
  {}
}
