/** Brotli's token building: matches found through a hash table, tokens that tile the input, and their replay. */
module BrotliTokens {
  import opened Bits
  import opened BackCopy
  import opened BrotliCodes

  const HASH_SIZE: nat := 65536
  const MAX_TOKENS: nat := 128
  const MAX_DISTANCE: nat := 65535
  const MAX_MATCH: nat := 65536
  const WORD32: nat := 0x1_0000_0000

  /** The upper half of a product of 32 bits. */
  function Mix(a: int, b: int, c: int, d: int): (h: nat)
    ensures h < HASH_SIZE
  {
    (a + b * 0x100 + c * 0x10000 + d * 0x1000000) * 0x1e35a7bd % WORD32 / 0x10000
  }

  function Hash4(src: seq<byte>, pos: nat): (h: nat)
    requires pos + 4 <= |src|
    ensures h < HASH_SIZE
  {
    Mix(src[pos], src[pos + 1], src[pos + 2], src[pos + 3])
  }

  // ---------- the hash table ----------

  /** The table after a position has been entered. */
  function Entered(src: seq<byte>, pos: nat, table: seq<int>): (t: seq<int>)
    requires |table| == HASH_SIZE
    ensures |t| == HASH_SIZE
  {
    if pos + 4 <= |src| then table[Hash4(src, pos) := pos] else table
  }

  /** The table after every step-th position from p up to end has been entered. */
  function EnteredBy(src: seq<byte>, p: nat, end: nat, step: nat, table: seq<int>): (t: seq<int>)
    requires |table| == HASH_SIZE && step > 0
    ensures |t| == HASH_SIZE
    decreases end - p
  {
    if p >= end then table else EnteredBy(src, p + step, end, step, Entered(src, p, table))
  }

  function Step(len: nat, quality: int): (step: nat)
    ensures step > 0
  {
    if len >= 4096 && quality <= 5 then 256 else if quality >= 9 then 8 else if quality >= 5 then 64 else 32
  }

  /** The table after a match: short matches are entered whole, long ones here and there and at their end. */
  function Covered(src: seq<byte>, pos: nat, len: nat, quality: int, table: seq<int>): (t: seq<int>)
    requires |table| == HASH_SIZE
    ensures |t| == HASH_SIZE
  {
    if len == 0 then table
    else if len <= 16 then EnteredBy(src, pos + 1, pos + len, 1, Entered(src, pos, table))
    else
      var most := EnteredBy(src, pos + Step(len, quality), pos + len, Step(len, quality), Entered(src, pos, table));
      EnteredBy(src, pos + len - 16, pos + len, 1, most)
  }

  method InsertHashPosition(src: seq<byte>, pos: nat, table: array<int>)
    requires table.Length == HASH_SIZE
    modifies table
    ensures table[..] == Entered(src, pos, old(table[..]))
  {
    hide Hash4;
    if pos + 4 <= |src| { table[Hash4(src, pos)] := pos; }
  }

  /** Enters every step-th position from `from` up to end. */
  method InsertBy(src: seq<byte>, from: nat, end: nat, step: nat, table: array<int>)
    requires table.Length == HASH_SIZE && step > 0
    modifies table
    ensures table[..] == EnteredBy(src, from, end, step, old(table[..]))
  {
    hide Entered;
    var p := from;
    while p < end
      invariant EnteredBy(src, p, end, step, table[..]) == EnteredBy(src, from, end, step, old(table[..]))
      decreases end - p
    {
      InsertHashPosition(src, p, table);
      p := p + step;
    }
  }

  /** Which positions inside a match are entered into the table depends on length and quality. */
  method InsertMatchCoverage(src: seq<byte>, pos: nat, len: nat, quality: int, table: array<int>)
    requires table.Length == HASH_SIZE
    modifies table
    ensures table[..] == Covered(src, pos, len, quality, old(table[..]))
  {
    hide Entered, EnteredBy;
    if len == 0 { return; }
    InsertHashPosition(src, pos, table);
    if len <= 16 {
      InsertBy(src, pos + 1, pos + len, 1, table);
      return;
    }
    var step := 32;
    if quality >= 9 { step := 8; } else if quality >= 5 { step := 64; }
    if len >= 4096 && quality <= 5 { step := 256; }
    InsertBy(src, pos + step, pos + len, step, table);
    InsertBy(src, pos + len - 16, pos + len, 1, table);
  }

  // ---------- matches ----------

  datatype Match = NoMatch | Match(pos: nat, len: nat, distance: nat)

  /** The bytes from pos on repeat those `distance` places before. */
  ghost predicate IsMatch(src: seq<byte>, pos: nat, len: nat, distance: nat) {
    && 0 < distance <= pos && pos + len <= |src|
    && forall k :: pos <= k < pos + len ==> src[k] == src[k - distance]
  }

  /** How many of eight bytes agree with those before them, up to the first difference. */
  method EqualBytes(src: seq<byte>, at: nat, distance: nat) returns (n: nat)
    requires distance <= at && at + 8 <= |src| && src[at..at + 8] != src[at - distance..at - distance + 8]
    ensures n < 8 && src[at + n] != src[at + n - distance]
    ensures forall k :: at <= k < at + n ==> src[k] == src[k - distance]
  {
    n := 0;
    while n < 8 && src[at + n] == src[at + n - distance]
      invariant n <= 8 && forall k :: at <= k < at + n ==> src[k] == src[k - distance]
    {
      n := n + 1;
    }
    if n == 8 { WordsEqual(src, at, distance); }
  }

  /** Words are equal exactly when their eight bytes are. */
  lemma WordsEqual(src: seq<byte>, at: nat, distance: nat)
    requires distance <= at && at + 8 <= |src|
    ensures src[at..at + 8] == src[at - distance..at - distance + 8] <==>
              forall k :: at <= k < at + 8 ==> src[k] == src[k - distance]
  {
    var a, b := src[at..at + 8], src[at - distance..at - distance + 8];
    if a == b {
      forall k | at <= k < at + 8 ensures src[k] == src[k - distance] { assert a[k - at] == b[k - at]; }
    }
    if forall k :: at <= k < at + 8 ==> src[k] == src[k - distance] {
      forall i | 0 <= i < 8 ensures a[i] == b[i] { assert src[at + i] == src[at + i - distance]; }
    }
  }

  lemma LongerMatch(src: seq<byte>, pos: nat, len: nat, distance: nat, n: nat)
    requires IsMatch(src, pos, len, distance) && pos + len + n <= |src|
    requires forall k :: pos + len <= k < pos + len + n ==> src[k] == src[k - distance]
    ensures IsMatch(src, pos, len + n, distance)
  {}

  /** How many bytes agree with those `distance` before: words first, then the differing word, then single bytes. */
  method MatchLength(src: seq<byte>, pos: nat, distance: nat, maxLen: nat) returns (len: nat)
    requires 0 < distance <= pos && pos + maxLen <= |src|
    ensures len <= maxLen && IsMatch(src, pos, len, distance)
    ensures len == maxLen || src[pos + len] != src[pos + len - distance]
  {
    hide IsMatch;
    len := 0;
    NoMatchYet(src, pos, distance);
    while len + 8 <= maxLen
      invariant len <= maxLen && IsMatch(src, pos, len, distance)
    {
      WordsEqual(src, pos + len, distance);
      if src[pos + len..pos + len + 8] == src[pos + len - distance..pos + len - distance + 8] {
        LongerMatch(src, pos, len, distance, 8);
        len := len + 8;
        continue;
      }
      var n := EqualBytes(src, pos + len, distance);
      LongerMatch(src, pos, len, distance, n);
      len := len + n;
      break;
    }
    while len < maxLen && src[pos + len] == src[pos + len - distance]
      invariant len <= maxLen && IsMatch(src, pos, len, distance)
    {
      LongerMatch(src, pos, len, distance, 1);
      len := len + 1;
    }
  }

  lemma MatchFits(src: seq<byte>, pos: nat, len: nat, distance: nat)
    requires IsMatch(src, pos, len, distance)
    ensures pos + len <= |src| && 0 < distance <= pos
  {}

  lemma NoMatchYet(src: seq<byte>, pos: nat, distance: nat)
    requires 0 < distance <= pos <= |src|
    ensures IsMatch(src, pos, 0, distance)
  {}

  /** How many bytes from pos on, len of which are known, agree with those `distance` before. */
  function Agreeing(src: seq<byte>, pos: nat, distance: nat, len: nat, maxLen: nat): (n: nat)
    requires 0 < distance <= pos && len <= maxLen && pos + maxLen <= |src|
    ensures len <= n <= maxLen
    decreases maxLen - len
  {
    if len < maxLen && src[pos + len] == src[pos + len - distance] then Agreeing(src, pos, distance, len + 1, maxLen)
    else len
  }

  lemma {:induction false} LongestIsAgreeing(src: seq<byte>, pos: nat, distance: nat, from: nat, len: nat, maxLen: nat)
    requires IsMatch(src, pos, len, distance) && from <= len <= maxLen && pos + maxLen <= |src|
    requires len == maxLen || src[pos + len] != src[pos + len - distance]
    ensures len == Agreeing(src, pos, distance, from, maxLen)
    decreases len - from
  {
    if from < len { LongestIsAgreeing(src, pos, distance, from + 1, len, maxLen); }
  }

  /** The match of a position with the one that the table names: the longest one, unless it is too far or has fewer than
      eight bytes. The first four positions have none. */
  function Found(src: seq<byte>, pos: nat, table: seq<int>): (m: Match)
    requires |table| == HASH_SIZE
    ensures m.Match? ==> m.pos == pos >= 4 && 8 <= m.len <= |src| - pos && 0 < m.distance <= pos
  {
    if pos < 4 || pos + 8 > |src| then NoMatch
    else
      var prev := table[Hash4(src, pos)];
      if prev < 0 || prev >= pos || pos - prev > 65535 then NoMatch
      else
        var len := Agreeing(src, pos, pos - prev, 0, Min(|src| - pos, 65536));
        if len < 8 then NoMatch else Match(pos, len, pos - prev)
  }

  /** The longest match of the position with the one that the table names, if it has at least eight bytes. */
  method FindMatch(src: seq<byte>, pos: nat, table: array<int>) returns (m: Match)
    requires table.Length == HASH_SIZE
    ensures m == Found(src, pos, table[..])
    ensures m.Match? ==>
              && m.pos == pos && 8 <= m.len <= 65536 && m.distance <= 65535
              && IsMatch(src, pos, m.len, m.distance) && pos + m.len <= |src| && m.distance <= pos
              && (m.len == 65536 || pos + m.len == |src| || src[pos + m.len] != src[pos + m.len - m.distance])
  {
    hide IsMatch, Hash4, Agreeing;
    if pos < 4 || pos + 8 > |src| { return NoMatch; }
    var prev := table[Hash4(src, pos)];
    if prev < 0 || prev >= pos { return NoMatch; }
    var distance := pos - prev;
    if distance > MAX_DISTANCE { return NoMatch; }
    var maxLen := Min(|src| - pos, MAX_MATCH);
    var len := MatchLength(src, pos, distance, maxLen);
    MatchFits(src, pos, len, distance);
    LongestIsAgreeing(src, pos, distance, 0, len, maxLen);
    if len < 8 { return NoMatch; }
    return Match(pos, len, distance);
  }

  // ---------- tokens ----------

  datatype Token = Token(insertPos: nat, insertLen: nat, copyLen: nat, distance: nat, command: nat,
                         distanceCode: nat, distanceExtra: nat, distanceBits: nat)

  /** Inserting the token's literals and copying its match. */
  ghost function Apply(t: Token, src: seq<byte>, out: seq<byte>): seq<byte>
    requires Applies(t, src, out)
  {
    var more := out + src[t.insertPos..t.insertPos + t.insertLen];
    if t.copyLen == 0 then more else CopyBack(more, t.distance, t.copyLen)
  }

  ghost predicate Applies(t: Token, src: seq<byte>, out: seq<byte>) {
    && t.insertPos == |out| && t.insertPos + t.insertLen <= |src|
    && (t.copyLen > 0 ==> 0 < t.distance <= |out| + t.insertLen)
  }

  /** What the tokens write, in order. */
  ghost function Replay(tokens: seq<Token>, src: seq<byte>): Option<seq<byte>> {
    if |tokens| == 0 then Some([])
    else
      var before := Replay(tokens[..|tokens| - 1], src);
      if before.Some? && Applies(tokens[|tokens| - 1], src, before.value)
      then Some(Apply(tokens[|tokens| - 1], src, before.value)) else None
  }

  /** The last distances after the tokens. */
  ghost function RingAfter(tokens: seq<Token>): ring {
    if |tokens| == 0 then FIRST_RING
    else
      var before, t := RingAfter(tokens[..|tokens| - 1]), tokens[|tokens| - 1];
      if t.copyLen > 0 && t.distanceCode != 0 then Push(t.distance, before) else before
  }

  /** The token's symbols stand for its lengths and, given the last distances, for its distance. */
  ghost predicate WellCoded(t: Token, last: ring) {
    && t.command < 704 && InsertFits(t.command, t.insertLen)
    && (t.copyLen == 0 ==> t.insertLen > 0 && COPY_EXTRA[CopyCode(t.command)] == 0)
    && (t.copyLen > 0 ==>
         && CopyFits(t.command, t.copyLen) && t.command >= 128
         && (if t.distance == last[0] then t.distanceCode == t.distanceExtra == t.distanceBits == 0
             else StandsFor(DistanceCode(t.distanceCode, t.distanceExtra, t.distanceBits), t.distance)))
  }

  ghost predicate AllCoded(tokens: seq<Token>) {
    forall i :: 0 <= i < |tokens| ==> WellCoded(tokens[i], RingAfter(tokens[..i]))
  }

  /** Only the last token may have no copy. */
  ghost predicate CopiesUpTo(tokens: seq<Token>, n: int) {
    forall i :: 0 <= i < n && i < |tokens| ==> tokens[i].copyLen > 0
  }

  /** Every symbol that the tokens use is listed. */
  ghost predicate Listed(tokens: seq<Token>, commands: seq<nat>, distances: seq<nat>) {
    forall i :: 0 <= i < |tokens| ==>
      tokens[i].command in commands && (tokens[i].copyLen > 0 ==> tokens[i].distanceCode in distances)
  }

  ghost predicate UsesCommand(tokens: seq<Token>, s: nat) {
    exists i :: 0 <= i < |tokens| && tokens[i].command == s
  }

  ghost predicate UsesDistance(tokens: seq<Token>, s: nat) {
    exists i :: 0 <= i < |tokens| && tokens[i].copyLen > 0 && tokens[i].distanceCode == s
  }

  /** Every symbol that is listed is used by some token. */
  ghost predicate AllUsed(tokens: seq<Token>, commands: seq<nat>, distances: seq<nat>) {
    && (forall s :: s in commands ==> UsesCommand(tokens, s))
    && (forall s :: s in distances ==> UsesDistance(tokens, s))
  }

  // ---------- building ----------

  /** Enters a symbol into a sorted list of at most four. */
  method AddUniqueSymbol(symbols: seq<nat>, symbol: nat, ghost alphabetSize: nat) returns (ok: bool, more: seq<nat>)
    requires SymbolList(symbols, alphabetSize) && symbol < alphabetSize
    ensures SymbolList(more, alphabetSize) && (ok <==> symbol in symbols || |symbols| < 4)
    ensures ok ==> symbol in more && (forall s :: s in more <==> s in symbols || s == symbol)
    ensures With(symbols, symbol) == if ok then Some(more) else None
    ensures !ok ==> more == symbols
  {
    hide Ascending;
    if symbol in symbols { return true, symbols; }
    if |symbols| == 4 { return false, symbols; }
    var i := 0;
    while i < |symbols| && symbols[i] < symbol
      invariant i <= |symbols| && forall k :: 0 <= k < i ==> symbols[k] < symbol
    {
      i := i + 1;
    }
    SmallerIs(symbols, symbol, i);
    assert i < |symbols| ==> symbols[i] in symbols;
    InsertedInOrder(symbols, i, symbol, alphabetSize);
    more := Inserted(symbols, i, symbol);
    ok := true;
  }

  /** How many symbols at the front are smaller. */
  function Smaller(symbols: seq<nat>, symbol: nat): (n: nat)
    ensures n <= |symbols|
  {
    if |symbols| == 0 || symbols[0] >= symbol then 0 else 1 + Smaller(symbols[1..], symbol)
  }

  /** The list with a symbol entered; None for a fifth one. */
  function With(symbols: seq<nat>, symbol: nat): Option<seq<nat>> {
    if symbol in symbols then Some(symbols)
    else if |symbols| >= 4 then None
    else Some(Inserted(symbols, Smaller(symbols, symbol), symbol))
  }

  lemma {:induction false} SmallerIs(symbols: seq<nat>, symbol: nat, i: nat)
    requires i <= |symbols| && (forall k :: 0 <= k < i ==> symbols[k] < symbol)
    requires i < |symbols| ==> symbols[i] >= symbol
    ensures Smaller(symbols, symbol) == i
    decreases i
  {
    if i > 0 { SmallerIs(symbols[1..], symbol, i - 1); }
  }

  lemma InsertedInOrder(symbols: seq<nat>, i: nat, symbol: nat, alphabetSize: nat)
    requires SymbolList(symbols, alphabetSize) && |symbols| < 4 && i <= |symbols| && symbol < alphabetSize
    requires forall k :: 0 <= k < i ==> symbols[k] < symbol
    requires i < |symbols| ==> symbol < symbols[i]
    ensures var more := Inserted(symbols, i, symbol);
            SymbolList(more, alphabetSize) && symbol in more && forall s :: s in more <==> s in symbols || s == symbol
  {
    hide Inserted;
    var more := Inserted(symbols, i, symbol);
    forall s ensures s in more <==> s in symbols || s == symbol {
      if s in symbols {
        var k :| 0 <= k < |symbols| && symbols[k] == s;
        assert more[if k < i then k else k + 1] == s;
      }
    }
  }

  function Inserted(symbols: seq<nat>, i: nat, symbol: nat): (more: seq<nat>)
    requires i <= |symbols|
    ensures |more| == |symbols| + 1 && more[i] == symbol
    ensures forall k :: 0 <= k < i ==> more[k] == symbols[k]
    ensures forall k :: i < k < |more| ==> more[k] == symbols[k - 1]
  {
    symbols[..i] + [symbol] + symbols[i..]
  }

  lemma AppendToken(tokens: seq<Token>, t: Token, src: seq<byte>)
    requires Replay(tokens, src).Some? && Applies(t, src, Replay(tokens, src).value)
    requires AllCoded(tokens) && WellCoded(t, RingAfter(tokens)) && CopiesUpTo(tokens, |tokens|)
    ensures Replay(tokens + [t], src) == Some(Apply(t, src, Replay(tokens, src).value))
    ensures AllCoded(tokens + [t]) && CopiesUpTo(tokens + [t], |tokens|)
    ensures RingAfter(tokens + [t])
         == if t.copyLen > 0 && t.distanceCode != 0 then Push(t.distance, RingAfter(tokens)) else RingAfter(tokens)
  {
    hide WellCoded, Applies, Apply, Push;
    var all := tokens + [t];
    assert all[..|tokens|] == tokens && all[|tokens|] == t;
    forall i | 0 <= i < |all| ensures WellCoded(all[i], RingAfter(all[..i])) {
      if i < |tokens| { assert all[..i] == tokens[..i] && all[i] == tokens[i]; }
    }
  }

  /** Literals and a match carry the output on along the input. */
  lemma TokenCovers(src: seq<byte>, anchor: nat, pos: nat, len: nat, distance: nat, t: Token)
    requires anchor <= pos && t.insertPos == anchor && t.insertLen == pos - anchor && pos + len <= |src|
    requires t.copyLen == len && t.distance == distance && (len > 0 ==> IsMatch(src, pos, len, distance))
    ensures Applies(t, src, src[..anchor]) && Apply(t, src, src[..anchor]) == src[..pos + len]
  {
    assert src[..anchor] + src[anchor..pos] == src[..pos];
    if len > 0 {
      CopyBackIs(src[..pos], distance, len, src[..pos + len]);
    } else {
      assert src[..pos + 0] == src[..pos];
    }
  }

  /** The token of a match behind some literals, if its lengths and its distance have symbols. */
  function TokenFor(anchor: nat, m: Match, last: ring): Option<Token>
    requires m.Match? && anchor <= m.pos
  {
    var command := CommandFor(m.pos - anchor, m.len);
    if command.None? then None
    else if m.distance == last[0] then Some(Token(anchor, m.pos - anchor, m.len, m.distance, command.value, 0, 0, 0))
    else
      var d := DistanceFor(m.distance);
      if d.None? then None
      else Some(Token(anchor, m.pos - anchor, m.len, m.distance, command.value, d.value.code, d.value.extra,
                      d.value.extraBits))
  }

  /** The symbols for a match at the end of some literals. */
  method MakeToken(anchor: nat, m: Match, last: ring) returns (t: Option<Token>)
    requires m.Match? && anchor <= m.pos && m.len > 0 && m.distance > 0
    ensures t == TokenFor(anchor, m, last)
    ensures t.Some? ==>
              && t.value.insertPos == anchor && t.value.insertLen == m.pos - anchor
              && t.value.copyLen == m.len && t.value.distance == m.distance && WellCoded(t.value, last)
              && t.value.command < 704 && t.value.distanceCode < 64
  {
    var insertLen := m.pos - anchor;
    var command := SymbolForInsertCopy(insertLen, m.len);
    if command.None? { return None; }
    if m.distance == last[0] {
      return Some(Token(anchor, insertLen, m.len, m.distance, command.value, 0, 0, 0));
    }
    var d := CodeForDistance(m.distance);
    if d.None? { return None; }
    return Some(Token(anchor, insertLen, m.len, m.distance, command.value, d.value.code, d.value.extra,
                      d.value.extraBits));
  }

  /** What holds between two tokens. */
  ghost predicate Built(src: seq<byte>, anchor: nat, tokens: seq<Token>, last: ring, commands: seq<nat>,
                        distances: seq<nat>)
  {
    && anchor <= |src| && |tokens| <= MAX_TOKENS && Replay(tokens, src) == Some(src[..anchor])
    && AllCoded(tokens) && CopiesUpTo(tokens, |tokens|) && last == RingAfter(tokens)
    && SymbolList(commands, 704) && SymbolList(distances, 64)
    && Listed(tokens, commands, distances) && AllUsed(tokens, commands, distances)
  }

  lemma UsedMore(tokens: seq<Token>, t: Token, s: nat)
    ensures UsesCommand(tokens, s) || t.command == s ==> UsesCommand(tokens + [t], s)
    ensures UsesDistance(tokens, s) || (t.copyLen > 0 && t.distanceCode == s) ==> UsesDistance(tokens + [t], s)
  {
    var all := tokens + [t];
    assert all[|tokens|] == t;
    if UsesCommand(tokens, s) {
      var i :| 0 <= i < |tokens| && tokens[i].command == s;
      assert all[i].command == s;
    }
    if UsesDistance(tokens, s) {
      var i :| 0 <= i < |tokens| && tokens[i].copyLen > 0 && tokens[i].distanceCode == s;
      assert all[i].copyLen > 0 && all[i].distanceCode == s;
    }
  }

  /** A token's symbols are listed and used with it. */
  lemma AllUsedMore(tokens: seq<Token>, commands: seq<nat>, distances: seq<nat>, t: Token, commands': seq<nat>,
                    distances': seq<nat>)
    requires AllUsed(tokens, commands, distances)
    requires forall s :: s in commands' <==> s in commands || s == t.command
    requires forall s :: s in distances' ==> s in distances || (t.copyLen > 0 && s == t.distanceCode)
    ensures AllUsed(tokens + [t], commands', distances')
  {
    hide UsesCommand, UsesDistance;
    forall s ensures s in commands' ==> UsesCommand(tokens + [t], s) { UsedMore(tokens, t, s); }
    forall s ensures s in distances' ==> UsesDistance(tokens + [t], s) { UsedMore(tokens, t, s); }
  }

  lemma BuiltFirst(src: seq<byte>)
    ensures Built(src, 0, [], FIRST_RING, [], [])
  {
    assert src[..0] == [];
  }

  lemma BuiltNext(src: seq<byte>, anchor: nat, tokens: seq<Token>, last: ring, commands: seq<nat>, distances: seq<nat>,
                  m: Match, t: Token, commands': seq<nat>, distances': seq<nat>)
    requires Built(src, anchor, tokens, last, commands, distances) && |tokens| < MAX_TOKENS
    requires m.Match? && anchor <= m.pos && m.len > 0 && IsMatch(src, m.pos, m.len, m.distance)
    requires t.insertPos == anchor && t.insertLen == m.pos - anchor && t.copyLen == m.len && t.distance == m.distance
    requires WellCoded(t, last) && SymbolList(commands', 704) && SymbolList(distances', 64)
    requires forall s :: s in commands' <==> s in commands || s == t.command
    requires forall s :: s in distances' <==> s in distances || s == t.distanceCode
    ensures Built(src, m.pos + m.len, tokens + [t], if t.distanceCode != 0 then Push(t.distance, last) else last,
                  commands', distances')
  {
    hide WellCoded, Applies, Apply, Push, Replay, RingAfter, AllCoded, SymbolList, AllUsed;
    AllUsedMore(tokens, commands, distances, t, commands', distances');
    TokenCovers(src, anchor, m.pos, m.len, m.distance, t);
    AppendToken(tokens, t, src);
    MatchFits(src, m.pos, m.len, m.distance);
  }

  // ---------- the whole scan ----------

  datatype Scan = Scan(pos: nat, anchor: nat, tokens: seq<Token>, last: ring, commands: seq<nat>, distances: seq<nat>,
                       table: seq<int>)

  ghost predicate Ready(src: seq<byte>, s: Scan) {
    s.anchor <= s.pos <= |src| && |s.table| == HASH_SIZE
  }

  function EmptyTable(): (t: seq<int>)
    ensures |t| == HASH_SIZE && forall i :: 0 <= i < HASH_SIZE ==> t[i] == -1
  {
    seq(65536, _ => -1)
  }

  function FirstScan(): Scan { Scan(0, 0, [], FIRST_RING, [], [], EmptyTable()) }

  /** One turn: a literal, or a match with its token; None when a token cannot be made or entered. */
  ghost function Turn(src: seq<byte>, quality: int, s: Scan): (next: Option<Scan>)
    requires Ready(src, s) && s.pos < |src|
    ensures next.Some? ==> Ready(src, next.value) && s.pos < next.value.pos
  {
    var m := Found(src, s.pos, s.table);
    if m.NoMatch? then Some(s.(pos := s.pos + 1, table := Entered(src, s.pos, s.table)))
    else AfterMatch(src, quality, s, m, TokenFor(s.anchor, m, s.last))
  }

  ghost function AfterMatch(src: seq<byte>, quality: int, s: Scan, m: Match, t: Option<Token>): (next: Option<Scan>)
    requires Ready(src, s) && m.Match? && m.pos == s.pos && 0 < m.len <= |src| - s.pos
    ensures next.Some? ==> Ready(src, next.value) && s.pos < next.value.pos
  {
    if |s.tokens| >= MAX_TOKENS || t.None? then None
    else
      var commands, distances := With(s.commands, t.value.command), With(s.distances, t.value.distanceCode);
      if commands.None? || distances.None? then None
      else Some(Scan(s.pos + m.len, s.pos + m.len, s.tokens + [t.value],
                     if t.value.distanceCode != 0 then Push(t.value.distance, s.last) else s.last,
                     commands.value, distances.value, Covered(src, s.pos, m.len, quality, s.table)))
  }

  /** What the end of the input makes of the tokens; None without any match. */
  ghost function Tail(src: seq<byte>, s: Scan): Option<(seq<Token>, seq<nat>, seq<nat>)>
    requires Ready(src, s)
  {
    if |s.distances| == 0 then None
    else if s.anchor == |src| then (if |s.tokens| == 0 then None else Some((s.tokens, s.commands, s.distances)))
    else
      var all := TailOf(src, s.anchor, s.tokens, s.commands);
      if all.None? then None else Some((all.value.0, all.value.1, s.distances))
  }

  /** The tokens and symbol lists of the input from here on. */
  ghost function Build(src: seq<byte>, quality: int, s: Scan): Option<(seq<Token>, seq<nat>, seq<nat>)>
    requires Ready(src, s)
    decreases |src| - s.pos
  {
    if s.pos >= |src| then Tail(src, s)
    else
      var next := Turn(src, quality, s);
      if next.None? then None else Build(src, quality, next.value)
  }

  /** Cuts the input into literals and matches, with at most 128 tokens and at most four symbols of either kind. When it
      succeeds, replaying the tokens gives the input, their symbols stand for their lengths and distances, and every
      symbol that is listed is used. */
  method BuildTokens(src: seq<byte>, quality: int)
    returns (ok: bool, tokens: seq<Token>, commands: seq<nat>, distances: seq<nat>)
    ensures ok <==> Build(src, quality, FirstScan()).Some?
    ensures ok ==>
              && Build(src, quality, FirstScan()).value == (tokens, commands, distances)
              && Replay(tokens, src) == Some(src) && AllCoded(tokens) && CopiesUpTo(tokens, |tokens| - 1)
              && 0 < |tokens| <= MAX_TOKENS && Listed(tokens, commands, distances)
              && AllUsed(tokens, commands, distances)
              && SymbolList(commands, 704) && SymbolList(distances, 64) && 0 < |distances|
  {
    hide *;
    tokens, commands, distances := [], [], [];
    var pos: nat, anchor: nat := 0, 0;
    var last := FIRST_RING;
    var table := new int[HASH_SIZE](_ => -1);
    BuiltFirst(src);
    FirstIs(src, table[..]);
    ghost var goal := Build(src, quality, FirstScan());
    while pos < |src|
      invariant anchor <= pos <= |src| && Built(src, anchor, tokens, last, commands, distances)
      invariant table.Length == HASH_SIZE && Ready(src, Scan(pos, anchor, tokens, last, commands, distances, table[..]))
      invariant Build(src, quality, Scan(pos, anchor, tokens, last, commands, distances, table[..])) == goal
    {
      ghost var s := Scan(pos, anchor, tokens, last, commands, distances, table[..]);
      BuildTurn(src, quality, s);
      BuiltSorted(src, anchor, tokens, last, commands, distances);
      var m := FindMatch(src, pos, table);
      if m.NoMatch? {
        InsertHashPosition(src, pos, table);
        pos := pos + 1;
        continue;
      }
      if |tokens| == MAX_TOKENS { return false, tokens, commands, distances; }
      MatchFits(src, m.pos, m.len, m.distance);
      var made := MakeToken(anchor, m, last);
      if made.None? { return false, tokens, commands, distances; }
      var t := made.value;
      var added, commands' := AddUniqueSymbol(commands, t.command, 704);
      if !added { return false, tokens, commands, distances; }
      var distances';
      added, distances' := AddUniqueSymbol(distances, t.distanceCode, 64);
      if !added { return false, tokens, commands, distances; }
      BuiltNext(src, anchor, tokens, last, commands, distances, m, t, commands', distances');
      tokens, commands, distances := tokens + [t], commands', distances';
      if t.distanceCode != 0 { last := Push(t.distance, last); }
      InsertMatchCoverage(src, pos, m.len, quality, table);
      pos := pos + m.len;
      anchor := pos;
    }
    BuildEnd(src, quality, Scan(pos, anchor, tokens, last, commands, distances, table[..]));
    ok, tokens, commands := AddTail(src, anchor, tokens, last, commands, distances);
    if !ok || |tokens| == 0 || |distances| == 0 { ok := false; }
  }

  lemma FirstIs(src: seq<byte>, table: seq<int>)
    requires |table| == HASH_SIZE && forall i :: 0 <= i < HASH_SIZE ==> table[i] == -1
    ensures FirstScan() == Scan(0, 0, [], FIRST_RING, [], [], table) && Ready(src, FirstScan())
  {
    assert table == EmptyTable();
  }

  /** How the scan goes on from a position inside the input. */
  lemma BuildTurn(src: seq<byte>, quality: int, s: Scan)
    requires Ready(src, s) && s.pos < |src|
    ensures |s.table| == HASH_SIZE
    ensures Found(src, s.pos, s.table).NoMatch? ==>
              var next := s.(pos := s.pos + 1, table := Entered(src, s.pos, s.table));
              Ready(src, next) && Build(src, quality, s) == Build(src, quality, next)
    ensures Found(src, s.pos, s.table).Match? ==>
              var m := Found(src, s.pos, s.table);
              var t := TokenFor(s.anchor, m, s.last);
              && (|s.tokens| >= MAX_TOKENS || t.None? ==> Build(src, quality, s).None?)
              && (|s.tokens| < MAX_TOKENS && t.Some? ==>
                   var cs, ds := With(s.commands, t.value.command), With(s.distances, t.value.distanceCode);
                   && (cs.None? || ds.None? ==> Build(src, quality, s).None?)
                   && (cs.Some? && ds.Some? ==>
                        var next := Scan(s.pos + m.len, s.pos + m.len, s.tokens + [t.value],
                                         if t.value.distanceCode != 0 then Push(t.value.distance, s.last) else s.last,
                                         cs.value, ds.value, Covered(src, s.pos, m.len, quality, s.table));
                        Ready(src, next) && Build(src, quality, s) == Build(src, quality, next)))
  {
    hide Found, Entered, TokenFor, Covered, With, Push;
  }

  lemma BuildEnd(src: seq<byte>, quality: int, s: Scan)
    requires Ready(src, s) && s.pos >= |src|
    ensures |s.distances| == 0 ==> Build(src, quality, s).None?
    ensures s.anchor == |src| && |s.tokens| == 0 ==> Build(src, quality, s).None?
    ensures |s.distances| > 0 && s.anchor == |src| && |s.tokens| > 0 ==>
              Build(src, quality, s) == Some((s.tokens, s.commands, s.distances))
    ensures |s.distances| > 0 && s.anchor < |src| ==>
              Build(src, quality, s)
              == match TailOf(src, s.anchor, s.tokens, s.commands)
                 case Some(r) => Some((r.0, r.1, s.distances))
                 case None => None
  {}

  /** The tokens and commands with a last token for the literals from anchor on. */
  function TailOf(src: seq<byte>, anchor: nat, tokens: seq<Token>, commands: seq<nat>)
    : (r: Option<(seq<Token>, seq<nat>)>)
    requires anchor < |src|
    ensures r.Some? ==> |r.value.0| > 0
  {
    var command := TailFor(|src| - anchor);
    if |tokens| >= MAX_TOKENS || command.None? then None
    else
      var more := With(commands, command.value);
      if more.None? then None
      else Some((tokens + [Token(anchor, |src| - anchor, 0, 0, command.value, 0, 0, 0)], more.value))
  }

  lemma BuiltSorted(src: seq<byte>, anchor: nat, tokens: seq<Token>, last: ring, commands: seq<nat>,
                    distances: seq<nat>)
    requires Built(src, anchor, tokens, last, commands, distances)
    ensures SymbolList(commands, 704) && SymbolList(distances, 64) && |tokens| <= MAX_TOKENS
  {}

  /** The literals behind the last match. */
  method AddTail(src: seq<byte>, anchor: nat, tokens: seq<Token>, ghost last: ring, commands: seq<nat>,
                 ghost distances: seq<nat>)
    returns (ok: bool, all: seq<Token>, commands': seq<nat>)
    requires Built(src, anchor, tokens, last, commands, distances)
    ensures anchor <= |src|
    ensures anchor == |src| ==> ok && all == tokens && commands' == commands
    ensures anchor < |src| ==> TailOf(src, anchor, tokens, commands) == if ok then Some((all, commands')) else None
    ensures ok ==>
              && Replay(all, src) == Some(src) && AllCoded(all) && CopiesUpTo(all, |all| - 1) && |all| <= MAX_TOKENS
              && Listed(all, commands', distances) && AllUsed(all, commands', distances)
              && SymbolList(commands', 704) && SymbolList(distances, 64)
  {
    hide WellCoded, Applies, Apply, Push, Replay, RingAfter, AllCoded, SymbolList, AllUsed, With, TailFor;
    var tail := |src| - anchor;
    all, commands' := tokens, commands;
    if tail > 0 {
      if |tokens| == MAX_TOKENS { return false, all, commands'; }
      var command := SymbolForInsert(tail);
      if command.None? { return false, all, commands'; }
      var t := Token(anchor, tail, 0, 0, command.value, 0, 0, 0);
      TailCoded(t, last);
      ok, commands' := AddUniqueSymbol(commands, command.value, 704);
      if !ok { return; }
      TokenCovers(src, anchor, |src|, 0, 0, t);
      AppendToken(tokens, t, src);
      AllUsedMore(tokens, commands, distances, t, commands', distances);
      all := tokens + [t];
    }
    assert src[..|src|] == src;
    ok := true;
  }

  lemma TailCoded(t: Token, last: ring)
    requires t.copyLen == 0 && t.insertLen > 0 && t.command < 704 && InsertFits(t.command, t.insertLen)
    requires COPY_EXTRA[CopyCode(t.command)] == 0
    ensures WellCoded(t, last)
  {}
}
