/** An input for which the encoder builds four different commands, and what it builds. */
module BrotliWitness {
  import opened Bits
  import opened BrotliCodes
  import opened BrotliTokens

  // ---------- the input ----------

  /** A phrase of eight different bytes, 1 to 8, five times: the repetitions stand behind nothing, 9, 10 11 and 12 13,
      and 12 13 follows again at the end. */
  function ByteAt(p: nat): byte
    requires p < 47
  {
    if p < 8 then p + 1
    else if p < 16 then p - 7
    else if p == 16 then 9
    else if p < 25 then p - 16
    else if p < 27 then p - 15
    else if p < 35 then p - 26
    else if p < 37 then p - 23
    else if p < 45 then p - 36
    else p - 33
  }

  function Input(): (src: seq<byte>)
    ensures |src| == 47 && forall p :: 0 <= p < 47 ==> src[p] == ByteAt(p)
  {
    seq(47, p requires 0 <= p < 47 => ByteAt(p))
  }

  /** Where the phrase starts. */
  predicate Starts(p: nat) { p == 0 || p == 8 || p == 17 || p == 27 || p == 37 }

  const PHRASE_HASH: nat := 29884

  lemma InPhrase()
    ensures Mix(1, 2, 3, 4) == PHRASE_HASH
    ensures Mix(2, 3, 4, 5) != PHRASE_HASH
    ensures Mix(3, 4, 5, 6) != PHRASE_HASH
    ensures Mix(4, 5, 6, 7) != PHRASE_HASH
    ensures Mix(5, 6, 7, 8) != PHRASE_HASH
    ensures Mix(6, 7, 8, 1) != PHRASE_HASH
  {}

  lemma BehindPhrase()
    ensures Mix(7, 8, 1, 2) != PHRASE_HASH
    ensures Mix(8, 1, 2, 3) != PHRASE_HASH
    ensures Mix(6, 7, 8, 9) != PHRASE_HASH
  {}

  lemma AroundNine()
    ensures Mix(7, 8, 9, 1) != PHRASE_HASH
    ensures Mix(8, 9, 1, 2) != PHRASE_HASH
    ensures Mix(9, 1, 2, 3) != PHRASE_HASH
  {}

  lemma AroundTen()
    ensures Mix(6, 7, 8, 10) != PHRASE_HASH
    ensures Mix(7, 8, 10, 11) != PHRASE_HASH
    ensures Mix(8, 10, 11, 1) != PHRASE_HASH
    ensures Mix(10, 11, 1, 2) != PHRASE_HASH
    ensures Mix(11, 1, 2, 3) != PHRASE_HASH
  {}

  lemma AroundTwelve()
    ensures Mix(6, 7, 8, 12) != PHRASE_HASH
    ensures Mix(7, 8, 12, 13) != PHRASE_HASH
    ensures Mix(8, 12, 13, 1) != PHRASE_HASH
    ensures Mix(12, 13, 1, 2) != PHRASE_HASH
    ensures Mix(13, 1, 2, 3) != PHRASE_HASH
  {}

  lemma HashIs(p: nat)
    requires p + 4 <= 47
    ensures Hash4(Input(), p) == Mix(ByteAt(p), ByteAt(p + 1), ByteAt(p + 2), ByteAt(p + 3))
  {
    hide ByteAt, Input, Mix;
  }

  /** Only the phrase itself has its hash. */
  lemma OnlyPhrase(p: nat)
    requires p <= 36
    ensures Hash4(Input(), p) == PHRASE_HASH <==> Starts(p)
  {
    hide Mix, Input, Hash4;
    HashIs(p);
    if p < 14 {
      InPhrase();
      BehindPhrase();
    } else if p < 27 {
      InPhrase();
      AroundNine();
      AroundTen();
    } else {
      InPhrase();
      AroundTwelve();
    }
  }

  // ---------- the hash table ----------

  /** A byte that has not occurred before, or one of the first four. */
  predicate NewByte(p: nat) { p < 8 || p == 16 || p == 25 || p == 26 || p == 35 || p == 36 }

  lemma EnteredPhrase(p: nat, table: seq<int>)
    requires p <= 36 && |table| == HASH_SIZE
    ensures Entered(Input(), p, table)[PHRASE_HASH] == if Starts(p) then p else table[PHRASE_HASH]
  {
    hide Hash4, Input;
    OnlyPhrase(p);
  }

  lemma {:induction false} EnteredRest(p: nat, end: nat, table: seq<int>)
    requires p <= end <= 37 && |table| == HASH_SIZE && forall k :: p <= k < end ==> !Starts(k)
    ensures EnteredBy(Input(), p, end, 1, table)[PHRASE_HASH] == table[PHRASE_HASH]
    decreases end - p
  {
    hide Entered, Starts;
    if p < end {
      EnteredPhrase(p, table);
      EnteredRest(p + 1, end, Entered(Input(), p, table));
    }
  }

  /** Entering a phrase makes it the one that the table names. */
  lemma CoveredPhrase(p: nat, quality: int, table: seq<int>)
    requires Starts(p) && p < 37 && |table| == HASH_SIZE
    ensures Covered(Input(), p, 8, quality, table)[PHRASE_HASH] == p
  {
    hide Entered, EnteredBy;
    EnteredPhrase(p, table);
    EnteredRest(p + 1, p + 8, Entered(Input(), p, table));
  }

  // ---------- the scan ----------

  /** A byte that is new has no match. */
  lemma NoMatchFor(p: nat, table: seq<int>)
    requires NewByte(p) && |table| == HASH_SIZE
    ensures Found(Input(), p, table) == NoMatch
  {
    hide Hash4, Input;
    if p >= 4 {
      var prev := table[Hash4(Input(), p)];
      if 0 <= prev < p { assert Input()[p] != Input()[p - (p - prev)]; }
    }
  }

  /** The scan passes new bytes as literals; the table names the same phrase as before, or the first one. */
  lemma {:induction false} Literals(s: Scan, end: nat, quality: int) returns (table: seq<int>)
    requires Ready(Input(), s) && s.pos <= end <= 37 && forall p :: s.pos <= p < end ==> NewByte(p)
    ensures |table| == HASH_SIZE && Ready(Input(), s.(pos := end, table := table))
    ensures table[PHRASE_HASH] == if s.pos == 0 < end then 0 else s.table[PHRASE_HASH]
    ensures Build(Input(), quality, s) == Build(Input(), quality, s.(pos := end, table := table))
    decreases end - s.pos
  {
    hide Build, Turn, Found, Entered, Input;
    table := s.table;
    if s.pos < end {
      assert NewByte(s.pos);
      NoMatchFor(s.pos, s.table);
      EnteredPhrase(s.pos, s.table);
      BuildTurn(Input(), quality, s);
      table := Literals(s.(pos := s.pos + 1, table := Entered(Input(), s.pos, s.table)), end, quality);
    }
  }

  /** A phrase is found where it stood last, with the bytes that follow it in both places. */
  lemma PhraseFound(p: nat, prev: nat, table: seq<int>)
    requires (p, prev) in [(8, 0), (17, 8), (27, 17), (37, 27)] && |table| == HASH_SIZE && table[PHRASE_HASH] == prev
    ensures Found(Input(), p, table) == Match(p, if p == 37 then 10 else 8, p - prev)
  {
    hide Hash4, Input, Agreeing, Mix;
    HashIs(p);
    InPhrase();
    LongestIsAgreeing(Input(), p, p - prev, 0, if p == 37 then 10 else 8, 47 - p);
  }

  /** The scan takes the match, makes its token and enters its symbols. */
  lemma TakePhrase(s: Scan, prev: nat, quality: int, t: Token, commands: seq<nat>, distances: seq<nat>)
    returns (table: seq<int>)
    requires Ready(Input(), s) && (s.pos, prev) in [(8, 0), (17, 8), (27, 17), (37, 27)] && s.table[PHRASE_HASH] == prev
    requires |s.tokens| < MAX_TOKENS && With(s.commands, t.command) == Some(commands)
    requires With(s.distances, t.distanceCode) == Some(distances)
    requires TokenFor(s.anchor, Match(s.pos, if s.pos == 37 then 10 else 8, s.pos - prev), s.last) == Some(t)
    ensures |table| == HASH_SIZE && (s.pos < 37 ==> table[PHRASE_HASH] == s.pos)
    ensures var p := s.pos + if s.pos == 37 then 10 else 8;
            var next := Scan(p, p, s.tokens + [t], if t.distanceCode != 0 then Push(t.distance, s.last) else s.last,
                             commands, distances, table);
            Ready(Input(), next) && Build(Input(), quality, s) == Build(Input(), quality, next)
  {
    hide Build, Turn, Found, Covered, Input, TokenFor, With, Push;
    PhraseFound(s.pos, prev, s.table);
    BuildTurn(Input(), quality, s);
    table := Covered(Input(), s.pos, if s.pos == 37 then 10 else 8, quality, s.table);
    if s.pos < 37 { CoveredPhrase(s.pos, quality, s.table); }
  }

  // ---------- what is built ----------

  /** The phrase again behind 8, 1, 2 and 2 literals: from 8, 9, 10 and 10 bytes back. */
  const FIRST: Token := Token(0, 8, 8, 8, 190, 18, 3, 2)
  const SECOND: Token := Token(16, 1, 8, 9, 142, 19, 0, 2)
  const THIRD: Token := Token(25, 2, 8, 10, 150, 19, 1, 2)
  const FOURTH: Token := Token(35, 2, 10, 10, 208, 0, 0, 0)

  const TOKENS: seq<Token> := [FIRST, SECOND, THIRD, FOURTH]
  const COMMANDS: seq<nat> := [142, 150, 190, 208]
  const DISTANCES: seq<nat> := [0, 18, 19]

  lemma Distances()
    ensures DistanceFor(8) == Some(DistanceCode(18, 3, 2))
    ensures DistanceFor(9) == Some(DistanceCode(19, 0, 2))
    ensures DistanceFor(10) == Some(DistanceCode(19, 1, 2))
  {
    hide Pow2;
    Pow2Values();
    assert BucketBase(0) == 1 && BucketBase(1) == 3 && BucketBase(2) == 5 && BucketBase(3) == 9;
  }

  /** The four tokens are those of the four matches. */
  lemma TokensAre()
    ensures TokenFor(0, Match(8, 8, 8), FIRST_RING) == Some(FIRST)
    ensures TokenFor(16, Match(17, 8, 9), Push(8, FIRST_RING)) == Some(SECOND)
    ensures TokenFor(25, Match(27, 8, 10), Push(9, Push(8, FIRST_RING))) == Some(THIRD)
    ensures TokenFor(35, Match(37, 10, 10), Push(10, Push(9, Push(8, FIRST_RING)))) == Some(FOURTH)
  {
    hide DistanceFor;
    Distances();
  }

  /** Entering a symbol behind the smaller ones. */
  lemma WithIs(symbols: seq<nat>, symbol: nat, i: nat, more: seq<nat>)
    requires |symbols| < 4 && i <= |symbols| && symbol !in symbols && |more| == |symbols| + 1
    requires (forall k :: 0 <= k < i ==> symbols[k] < symbol) && (i < |symbols| ==> symbols[i] >= symbol)
    requires more[i] == symbol && more[..i] == symbols[..i] && more[i + 1..] == symbols[i..]
    ensures With(symbols, symbol) == Some(more)
  {
    SmallerIs(symbols, symbol, i);
    assert more == more[..i] + [more[i]] + more[i + 1..];
  }

  lemma ListsAre()
    ensures With([], 190) == Some([190]) && With([190], 142) == Some([142, 190])
    ensures With([142, 190], 150) == Some([142, 150, 190]) && With([142, 150, 190], 208) == Some(COMMANDS)
    ensures With([], 18) == Some([18]) && With([18], 19) == Some([18, 19]) && With([18, 19], 19) == Some([18, 19])
    ensures With([18, 19], 0) == Some(DISTANCES)
  {
    hide Smaller, Inserted, With;
    WithIs([], 190, 0, [190]);
    WithIs([190], 142, 0, [142, 190]);
    WithIs([142, 190], 150, 1, [142, 150, 190]);
    WithIs([142, 150, 190], 208, 3, COMMANDS);
    WithIs([], 18, 0, [18]);
    WithIs([18], 19, 1, [18, 19]);
    WithIs([18, 19], 0, 0, DISTANCES);
    AlreadyIn([18, 19], 1);
  }

  lemma AlreadyIn(symbols: seq<nat>, i: nat)
    requires i < |symbols|
    ensures With(symbols, symbols[i]) == Some(symbols)
  {}

  /** Whatever the quality, the encoder cuts the input into these four tokens, which have four different commands. */
  lemma BuildsFourCommands(quality: int)
    ensures Build(Input(), quality, FirstScan()) == Some((TOKENS, COMMANDS, DISTANCES))
  {
    hide *;
    StartOfScan();
    TokensAre();
    ListsAre();
    ParametersAre();
    var s := FirstScan();
    var t := Literals(s, 8, quality);
    s := Scan(8, 0, [], FIRST_RING, [], [], t);
    t := TakePhrase(s, 0, quality, FIRST, [190], [18]);
    s := Scan(16, 16, [] + [FIRST], Push(8, FIRST_RING), [190], [18], t);
    t := Literals(s, 17, quality);
    s := s.(pos := 17, table := t);
    t := TakePhrase(s, 8, quality, SECOND, [142, 190], [18, 19]);
    s := Scan(25, 25, [] + [FIRST] + [SECOND], Push(9, Push(8, FIRST_RING)), [142, 190], [18, 19], t);
    t := Literals(s, 27, quality);
    s := s.(pos := 27, table := t);
    t := TakePhrase(s, 17, quality, THIRD, [142, 150, 190], [18, 19]);
    s := Scan(35, 35, [] + [FIRST] + [SECOND] + [THIRD], Push(10, Push(9, Push(8, FIRST_RING))), [142, 150, 190],
              [18, 19], t);
    t := Literals(s, 37, quality);
    s := s.(pos := 37, table := t);
    t := TakePhrase(s, 27, quality, FOURTH, COMMANDS, DISTANCES);
    s := Scan(47, 47, [] + [FIRST] + [SECOND] + [THIRD] + [FOURTH], Push(10, Push(9, Push(8, FIRST_RING))), COMMANDS,
              DISTANCES, t);
    BuildEnd(Input(), quality, s);
  }

  lemma StartOfScan()
    ensures FirstScan() == Scan(0, 0, [], FIRST_RING, [], [], EmptyTable()) && Ready(Input(), FirstScan())
    ensures forall p :: 0 <= p < 8 || p == 16 || p == 25 || p == 26 || p == 35 || p == 36 ==> NewByte(p)
  {}

  lemma ParametersAre()
    ensures FIRST.distance == 8 && SECOND.distance == 9 && THIRD.distance == FOURTH.distance == 10
    ensures FIRST.command == 190 && SECOND.command == 142 && THIRD.command == 150 && FOURTH.command == 208
    ensures FIRST.distanceCode == 18 && SECOND.distanceCode == THIRD.distanceCode == 19 && FOURTH.distanceCode == 0
    ensures TOKENS == [] + [FIRST] + [SECOND] + [THIRD] + [FOURTH] && MAX_TOKENS == 128
    ensures |DISTANCES| == 3
  {}
}
