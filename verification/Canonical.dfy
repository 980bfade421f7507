/** Canonical prefix codes from code lengths: when the codes fit, how they are numbered, how they decode. */
module Canonical {
  import opened Bits
  import opened Permutations

  const MAX_LEN: nat := 20
  const MAX_ALPHA: nat := 258
  // How many symbols share a table before the next selector.
  const GROUP: nat := 50

  /** One length per symbol, zero for a symbol without a code. */
  type lengths = seq<nat>

  ghost predicate InRange(lens: lengths) {
    forall s :: 0 <= s < |lens| ==> lens[s] <= MAX_LEN
  }

  function CountAt(lens: lengths, l: nat): nat {
    if l == 0 then 0 else Equal(lens, |lens|, l)
  }

  /** The first code of length l. */
  function FirstCode(lens: lengths, l: nat): nat
    decreases l, lens
  {
    if l == 0 then 0 else 2 * (FirstCode(lens, l - 1) + CountAt(lens, l - 1))
  }

  /** One past the last code of length l. */
  function EndCode(lens: lengths, l: nat): nat {
    FirstCode(lens, l) + CountAt(lens, l)
  }

  function Code(lens: lengths, s: nat): nat
    requires s < |lens|
  {
    FirstCode(lens, lens[s]) + Equal(lens, s, lens[s])
  }

  function CodeBits(lens: lengths, s: nat): (b: bits)
    requires s < |lens|
    ensures |b| == lens[s]
  {
    BitsOf(Code(lens, s), lens[s])
  }

  lemma CodeInBlock(lens: lengths, s: nat)
    requires s < |lens| && lens[s] > 0
    ensures FirstCode(lens, lens[s]) <= Code(lens, s) < EndCode(lens, lens[s])
  {
    EqualMono(lens, s + 1, |lens|, lens[s]);
  }

  // ---------- the Kraft sum ----------

  /** Twenty-bit strings that start with a code of one of the first m symbols of length at most l. */
  function KraftUpTo(lens: lengths, m: nat, l: nat): (k: nat)
    requires m <= |lens| && InRange(lens)
  {
    if m == 0 then 0
    else KraftUpTo(lens, m - 1, l) + (if 1 <= lens[m - 1] <= l then Pow2(MAX_LEN - lens[m - 1]) else 0)
  }

  function Kraft(lens: lengths): nat
    requires InRange(lens)
  {
    KraftUpTo(lens, |lens|, MAX_LEN)
  }

  /** The lengths leave room for all codes. */
  ghost predicate Fits(lens: lengths) {
    InRange(lens) && Kraft(lens) <= Pow2(MAX_LEN)
  }

  /** At most codes of the greatest length do not fit. */
  ghost predicate AlmostFits(lens: lengths) {
    EndCode(lens, MAX_LEN - 1) <= Pow2(MAX_LEN - 1)
  }

  lemma {:induction false} KraftStep(lens: lengths, m: nat, l: nat)
    requires m <= |lens| && InRange(lens) && 1 <= l <= MAX_LEN
    ensures KraftUpTo(lens, m, l) == KraftUpTo(lens, m, l - 1) + Equal(lens, m, l) * Pow2(MAX_LEN - l)
    decreases m
  {
    if m > 0 {
      KraftStep(lens, m - 1, l);
      OneMore(Equal(lens, m - 1, l), Pow2(MAX_LEN - l));
    }
  }

  lemma OneMore(a: nat, p: nat)
    ensures (a + 1) * p == a * p + p
  {}

  lemma {:induction false} KraftMono(lens: lengths, m: nat, l: nat, l': nat)
    requires m <= |lens| && InRange(lens) && l <= l'
    ensures KraftUpTo(lens, m, l) <= KraftUpTo(lens, m, l')
    decreases m
  {
    if m > 0 { KraftMono(lens, m - 1, l, l'); }
  }

  lemma {:induction false} KraftNone(lens: lengths, m: nat)
    requires m <= |lens| && InRange(lens)
    ensures KraftUpTo(lens, m, 0) == 0
    decreases m
  {
    if m > 0 { KraftNone(lens, m - 1); }
  }

  /** The codes up to length l cover exactly the strings their Kraft sum counts. */
  lemma {:induction false} EndCodeIsKraft(lens: lengths, l: nat)
    requires InRange(lens) && l <= MAX_LEN
    ensures EndCode(lens, l) * Pow2(MAX_LEN - l) == KraftUpTo(lens, |lens|, l)
    decreases l
  {
    if l == 0 {
      KraftNone(lens, |lens|);
    } else {
      EndCodeIsKraft(lens, l - 1);
      KraftStep(lens, |lens|, l);
      var p := Pow2(MAX_LEN - l);
      assert Pow2(MAX_LEN - (l - 1)) == 2 * p;
      Distribute(EndCode(lens, l - 1), CountAt(lens, l), p);
    }
  }

  lemma Distribute(e: nat, c: nat, p: nat)
    ensures (2 * e + c) * p == e * (2 * p) + c * p
  {}

  /** With room for all, every code of length l is an l-bit number. */
  lemma EndCodeBound(lens: lengths, l: nat)
    requires Fits(lens) && l <= MAX_LEN
    ensures EndCode(lens, l) <= Pow2(l)
  {
    EndCodeIsKraft(lens, l);
    KraftMono(lens, |lens|, l, MAX_LEN);
    Pow2Add(l, MAX_LEN - l);
    MulCancel(EndCode(lens, l), Pow2(l), Pow2(MAX_LEN - l));
  }

  ghost predicate AllCodesFit(lens: lengths) {
    forall s :: 0 <= s < |lens| && lens[s] > 0 ==> Code(lens, s) < Pow2(lens[s])
  }

  lemma {:induction false} LongestUsed(lens: lengths, l: nat)
    requires InRange(lens) && l <= MAX_LEN && AllCodesFit(lens)
    ensures KraftUpTo(lens, |lens|, l) <= Pow2(MAX_LEN)
    decreases l
  {
    hide EndCode, FirstCode, KraftUpTo, Pow2, Equal;
    if l == 0 {
      KraftNone(lens, |lens|);
    } else if CountAt(lens, l) == 0 {
      KraftStep(lens, |lens|, l);
      LongestUsed(lens, l - 1);
    } else {
      LastCodeFits(lens, l);
      FullLength(lens, l);
    }
  }

  lemma LastCodeFits(lens: lengths, l: nat)
    requires AllCodesFit(lens) && CountAt(lens, l) > 0
    ensures EndCode(lens, l) <= Pow2(l)
  {
    var s := LastOfLength(lens, |lens|, l);
    assert EndCode(lens, l) == Code(lens, s) + 1 <= Pow2(l);
  }

  lemma FullLength(lens: lengths, l: nat)
    requires InRange(lens) && l <= MAX_LEN && EndCode(lens, l) <= Pow2(l)
    ensures KraftUpTo(lens, |lens|, l) <= Pow2(MAX_LEN)
  {
    hide *;
    EndCodeIsKraft(lens, l);
    Pow2Add(l, MAX_LEN - l);
    MulMono(EndCode(lens, l), Pow2(l), Pow2(MAX_LEN - l));
  }

  lemma {:induction false} LastOfLength(lens: lengths, m: nat, l: nat) returns (s: nat)
    requires m <= |lens| && Equal(lens, m, l) > 0
    ensures s < m && lens[s] == l && Equal(lens, s, l) == Equal(lens, m, l) - 1
    decreases m
  {
    if lens[m - 1] == l { s := m - 1; } else { s := LastOfLength(lens, m - 1, l); }
  }

  /** The codes fit their lengths exactly when the Kraft sum is at most one. */
  lemma CodesFitIffKraft(lens: lengths)
    requires InRange(lens)
    ensures AllCodesFit(lens) <==> Fits(lens)
  {
    if Fits(lens) {
      forall s | 0 <= s < |lens| && lens[s] > 0 ensures Code(lens, s) < Pow2(lens[s]) {
        CodeInBlock(lens, s);
        EndCodeBound(lens, lens[s]);
      }
    }
    if AllCodesFit(lens) { LongestUsed(lens, MAX_LEN); }
  }

  lemma CodeFits(lens: lengths, s: nat)
    requires Fits(lens) && s < |lens| && lens[s] > 0
    ensures Code(lens, s) < Pow2(lens[s])
  {
    CodesFitIffKraft(lens);
  }

  // ---------- decoding bit by bit ----------

  /** The r-th symbol of length l among the first m. */
  function SymbolAt(lens: lengths, m: nat, l: nat, r: nat): (s: nat)
    requires m <= |lens| && r < Equal(lens, m, l)
    ensures s < m && lens[s] == l && Equal(lens, s, l) == r
  {
    if lens[m - 1] == l && Equal(lens, m - 1, l) == r then m - 1 else SymbolAt(lens, m - 1, l, r)
  }

  function MaxLength(lens: lengths): (l: nat)
    ensures forall s :: 0 <= s < |lens| ==> lens[s] <= l
    ensures l > 0 ==> l in lens
  {
    if |lens| == 0 then 0
    else
      var m := MaxLength(lens[..|lens| - 1]);
      if lens[|lens| - 1] > m then lens[|lens| - 1]
      else m
  }

  datatype Decoded = Sym(sym: nat, rest: bits) | NoCode

  /** Reads on after l bits of value v that are past all codes of length l. */
  function DecodeFrom(lens: lengths, maxLen: nat, v: nat, l: nat, b: bits): (d: Decoded)
    requires v >= EndCode(lens, l)
    ensures d.Sym? ==> d.sym < |lens| && |d.rest| < |b| && d.rest == b[|b| - |d.rest|..]
    decreases |b|
  {
    if l >= maxLen || |b| == 0 then NoCode
    else
      var v' := 2 * v + (if b[0] then 1 else 0);
      if v' < EndCode(lens, l + 1) then
        Sym(SymbolAt(lens, |lens|, l + 1, v' - FirstCode(lens, l + 1)), b[1..])
      else DecodeFrom(lens, maxLen, v', l + 1, b[1..])
  }

  /** The first symbol on the bit string. */
  function Decode(lens: lengths, b: bits): Decoded {
    DecodeFrom(lens, MaxLength(lens), 0, 0, b)
  }

  /** The bits of a code after its first l. */
  function CodeTail(lens: lengths, s: nat, l: nat): bits
    requires s < |lens| && l <= lens[s]
  {
    BitsOf(Code(lens, s), lens[s])[l..]
  }

  lemma FirstCodeIs(lens: lengths, l: nat)
    ensures FirstCode(lens, l + 1) == 2 * EndCode(lens, l) && EndCode(lens, l) >= FirstCode(lens, l)
  {}

  lemma {:induction false} EndCodeGrows(lens: lengths, l: nat, k: nat)
    requires l < k
    ensures EndCode(lens, l) * Pow2(k - l) <= FirstCode(lens, k)
    decreases k
  {
    assert Pow2(k - l) == 2 * Pow2(k - 1 - l);
    assert Pow2(0) == 1;
    hide *;
    FirstCodeIs(lens, k - 1);
    var e, p := EndCode(lens, l), Pow2(k - 1 - l);
    if l + 1 < k { EndCodeGrows(lens, l, k - 1); }
    TwiceProduct(e, p);
  }

  lemma TwiceProduct(e: nat, p: nat)
    ensures e * (2 * p) == 2 * (e * p)
  {}

  /** A code's first l bits, for l below its length, lie past all codes of length l. */
  lemma CodePrefixPastEnd(lens: lengths, s: nat, l: nat)
    requires s < |lens| && l < lens[s]
    ensures EndCode(lens, l) <= Code(lens, s) / Pow2(lens[s] - l)
  {
    EndCodeGrows(lens, l, lens[s]);
    QuotientAtLeast(Code(lens, s), EndCode(lens, l), Pow2(lens[s] - l));
  }

  /** The value of the first l bits of a code. */
  lemma {:induction false} PrefixStep(c: nat, n: nat, l: nat)
    requires l < n
    ensures var v, v' := c / Pow2(n - l), c / Pow2(n - l - 1);
            v' == 2 * v + v' % 2 && BitsOf(c, n)[l] == (v' % 2 == 1)
    decreases n
  {
    var p := Pow2(n - l - 1);
    HalvedQuotient(c, p);
    if l < n - 1 {
      PrefixStep(c / 2, n - 1, l);
      HalvedQuotient(c, Pow2(n - l - 2));
      QuotientOfHalf(c, Pow2(n - l - 2));
    }
  }

  lemma HalvedQuotient(c: nat, p: nat)
    requires p > 0
    ensures c / (2 * p) == c / p / 2
  {
    DivModSplit(c, p);
    var q, r := c / p, c % p;
    var h, b := q / 2, q % 2;
    assert q == 2 * h + b;
    Distribute2(h, b, p);
    assert b * p + r < 2 * p;
    DivModUnique(c, h, 2 * p, b * p + r);
  }

  lemma Distribute2(h: nat, b: nat, p: nat)
    requires b <= 1
    ensures (2 * h + b) * p == h * (2 * p) + b * p && b * p <= p
  {}

  lemma QuotientOfHalf(c: nat, p: nat)
    requires p > 0
    ensures c / 2 / p == c / (2 * p)
  {
    DivModSplit(c / 2, p);
    var q, r := c / 2 / p, c / 2 % p;
    assert c == 2 * (q * p + r) + c % 2;
    MulAssoc(q, 2, p);
    assert c == q * (2 * p) + (2 * r + c % 2);
    DivModUnique(c, q, 2 * p, 2 * r + c % 2);
  }

  lemma {:induction false} EqualAtIndex(lens: lengths, s: nat, t: nat)
    requires s < |lens| && t < |lens| && lens[s] == lens[t] && Equal(lens, s, lens[s]) == Equal(lens, t, lens[t])
    ensures s == t
  {
    if s < t { EqualMono(lens, s + 1, t, lens[s]); }
    if t < s { EqualMono(lens, t + 1, s, lens[s]); }
  }

  function Quotient(c: nat, p: nat): (q: nat)
    requires p > 0
    ensures q == c / p
  {
    DivModSplit(c, p);
    c / p
  }

  /** The value of the first l bits of the code of s. */
  function PrefixValue(lens: lengths, s: nat, l: nat): nat
    requires s < |lens| && l <= lens[s]
  {
    Quotient(Code(lens, s), Pow2(lens[s] - l))
  }

  lemma NextPrefix(lens: lengths, s: nat, l: nat)
    requires s < |lens| && l < lens[s]
    ensures PrefixValue(lens, s, l + 1)
         == 2 * PrefixValue(lens, s, l) + (if CodeTail(lens, s, l)[0] then 1 else 0)
    ensures CodeTail(lens, s, l)[1..] == CodeTail(lens, s, l + 1)
    ensures PrefixValue(lens, s, l) >= EndCode(lens, l)
  {
    PrefixStep(Code(lens, s), lens[s], l);
    CodePrefixPastEnd(lens, s, l);
  }

  lemma WholePrefix(lens: lengths, s: nat)
    requires s < |lens| && lens[s] > 0
    ensures var n, v := lens[s], PrefixValue(lens, s, lens[s]);
            && FirstCode(lens, n) <= v < EndCode(lens, n)
            && SymbolAt(lens, |lens|, n, v - FirstCode(lens, n)) == s
  {
    var n, c := lens[s], Code(lens, s);
    CodeInBlock(lens, s);
    assert Pow2(0) == 1 && c / 1 == c;
    EqualAtIndex(lens, s, SymbolAt(lens, |lens|, n, c - FirstCode(lens, n)));
  }

  /** After the first l bits of a code, the rest of the code decodes to its symbol. */
  lemma {:induction false} DecodeTail(lens: lengths, s: nat, l: nat, rest: bits)
    requires s < |lens| && l < lens[s] && PrefixValue(lens, s, l) >= EndCode(lens, l)
    ensures DecodeFrom(lens, MaxLength(lens), PrefixValue(lens, s, l), l, CodeTail(lens, s, l) + rest) == Sym(s, rest)
    decreases lens[s] - l
  {
    hide *;
    var b := CodeTail(lens, s, l) + rest;
    NextPrefix(lens, s, l);
    TailBits(lens, s, l, rest);
    DecodeOneBit(lens, MaxLength(lens), PrefixValue(lens, s, l), l, b);
    if l + 1 < lens[s] {
      NextPrefix(lens, s, l + 1);
      DecodeTail(lens, s, l + 1, rest);
    } else {
      WholePrefix(lens, s);
    }
  }

  lemma TailBits(lens: lengths, s: nat, l: nat, rest: bits)
    requires s < |lens| && l < lens[s]
    ensures var b := CodeTail(lens, s, l) + rest;
            && l < MaxLength(lens) && |b| > 0 && b[0] == CodeTail(lens, s, l)[0]
            && b[1..] == CodeTail(lens, s, l)[1..] + rest
            && (l + 1 == lens[s] ==> CodeTail(lens, s, l)[1..] + rest == rest)
  {}

  lemma DecodeOneBit(lens: lengths, maxLen: nat, v: nat, l: nat, b: bits)
    requires v >= EndCode(lens, l) && l < maxLen && |b| > 0
    ensures var v' := 2 * v + (if b[0] then 1 else 0);
            && v' >= FirstCode(lens, l + 1)
            && DecodeFrom(lens, maxLen, v, l, b)
               == if v' < EndCode(lens, l + 1)
                  then Sym(SymbolAt(lens, |lens|, l + 1, v' - FirstCode(lens, l + 1)), b[1..])
                  else DecodeFrom(lens, maxLen, v', l + 1, b[1..])
  {}

  /** A symbol's code followed by any bits decodes to the symbol and exactly those bits. */
  lemma DecodeCode(lens: lengths, s: nat, rest: bits)
    requires s < |lens| && lens[s] > 0 && Code(lens, s) < Pow2(lens[s])
    ensures Decode(lens, CodeBits(lens, s) + rest) == Sym(s, rest)
  {
    DivModUnique(Code(lens, s), 0, Pow2(lens[s]), Code(lens, s));
    assert CodeTail(lens, s, 0) == CodeBits(lens, s);
    DecodeTail(lens, s, 0, rest);
  }

  /** What decodes is a code and the bits after it. */
  lemma {:induction false} DecodedIsCode(lens: lengths, maxLen: nat, done: bits, b: bits)
    requires ValueOf(done) >= EndCode(lens, |done|)
    requires DecodeFrom(lens, maxLen, ValueOf(done), |done|, b).Sym?
    ensures var d := DecodeFrom(lens, maxLen, ValueOf(done), |done|, b);
            d.sym < |lens| && lens[d.sym] > |done| && done + b == CodeBits(lens, d.sym) + d.rest
    decreases |b|
  {
    hide *;
    SomeBit(lens, maxLen, ValueOf(done), |done|, b);
    var next := done + [b[0]];
    OneBitMore(done, b[0]);
    assert next + b[1..] == done + b;
    DecodeOneBit(lens, maxLen, ValueOf(done), |done|, b);
    if ValueOf(next) < EndCode(lens, |next|) {
      FoundCode(lens, next);
      BitsOfValueOf(next);
    } else {
      DecodedIsCode(lens, maxLen, next, b[1..]);
    }
  }

  lemma SomeBit(lens: lengths, maxLen: nat, v: nat, l: nat, b: bits)
    requires v >= EndCode(lens, l) && DecodeFrom(lens, maxLen, v, l, b).Sym?
    ensures |b| > 0 && l < maxLen
  {}

  /** Between the first and the end code of its length, a value is the code of a symbol. */
  lemma FoundCode(lens: lengths, next: bits)
    requires |next| > 0 && FirstCode(lens, |next|) <= ValueOf(next) < EndCode(lens, |next|)
    ensures var s := SymbolAt(lens, |lens|, |next|, ValueOf(next) - FirstCode(lens, |next|));
            s < |lens| && lens[s] == |next| && CodeBits(lens, s) == BitsOf(ValueOf(next), |next|)
  {
    var s := SymbolAt(lens, |lens|, |next|, ValueOf(next) - FirstCode(lens, |next|));
    assert Code(lens, s) == ValueOf(next);
  }

  /** Bits decode to a symbol exactly when they start with its code. */
  lemma DecodeIffCode(lens: lengths, b: bits, s: nat, rest: bits)
    requires Fits(lens)
    ensures Decode(lens, b) == Sym(s, rest) <==> s < |lens| && lens[s] > 0 && b == CodeBits(lens, s) + rest
  {
    if Decode(lens, b) == Sym(s, rest) {
      DecodedIsCode(lens, MaxLength(lens), [], b);
      assert [] + b == b;
    }
    if s < |lens| && lens[s] > 0 && b == CodeBits(lens, s) + rest {
      CodesFitIffKraft(lens);
      DecodeCode(lens, s, rest);
    }
  }

  /** No code is a prefix of another. */
  lemma PrefixFree(lens: lengths, s: nat, t: nat, tail: bits)
    requires Fits(lens) && s < |lens| && t < |lens| && lens[s] > 0 && lens[t] > 0
    requires CodeBits(lens, t) == CodeBits(lens, s) + tail
    ensures s == t && tail == []
  {
    assert CodeBits(lens, t) + [] == CodeBits(lens, s) + tail;
    DecodeIffCode(lens, CodeBits(lens, t), s, tail);
    DecodeIffCode(lens, CodeBits(lens, t), t, []);
  }

  lemma OneBitMore(done: bits, b: bool)
    ensures ValueOf(done + [b]) == 2 * ValueOf(done) + (if b then 1 else 0)
  {
    assert (done + [b])[..|done|] == done;
  }

  /** A code whose Kraft sum is exactly one decodes every long enough bit string. */
  lemma {:induction false} CompleteDecodes(lens: lengths, done: bits, b: bits)
    requires InRange(lens) && Kraft(lens) == Pow2(MAX_LEN)
    requires ValueOf(done) >= EndCode(lens, |done|)
    requires |done| < MaxLength(lens) <= |done| + |b|
    ensures DecodeFrom(lens, MaxLength(lens), ValueOf(done), |done|, b).Sym?
    decreases |b|
  {
    hide *;
    var next := done + [b[0]];
    var m := MaxLength(lens);
    OneBitMore(done, b[0]);
    DecodeOneBit(lens, m, ValueOf(done), |done|, b);
    if ValueOf(next) >= EndCode(lens, |next|) {
      if |next| == m {
        ValueBound(next);
        LongestEnd(lens);
        assert false;
      } else {
        CompleteDecodes(lens, next, b[1..]);
      }
    }
  }

  lemma {:induction false} KraftAboveMax(lens: lengths, m: nat, l: nat)
    requires m <= |lens| && InRange(lens) && MaxLength(lens) <= l
    ensures KraftUpTo(lens, m, l) == KraftUpTo(lens, m, MaxLength(lens))
    decreases m
  {
    if m > 0 { KraftAboveMax(lens, m - 1, l); }
  }

  /** The longest codes of a complete code end at the all-ones string. */
  lemma LongestEnd(lens: lengths)
    requires InRange(lens) && Kraft(lens) == Pow2(MAX_LEN)
    ensures MaxLength(lens) <= MAX_LEN && EndCode(lens, MaxLength(lens)) == Pow2(MaxLength(lens))
  {
    var l := MaxLength(lens);
    assert l > 0 ==> l in lens;
    assert l <= MAX_LEN && Kraft(lens) == KraftUpTo(lens, |lens|, MAX_LEN);
    hide *;
    KraftAboveMax(lens, |lens|, MAX_LEN);
    EndCodeIsKraft(lens, l);
    Pow2Add(l, MAX_LEN - l);
    MulCancel(EndCode(lens, l), Pow2(l), Pow2(MAX_LEN - l));
    MulCancel(Pow2(l), EndCode(lens, l), Pow2(MAX_LEN - l));
  }

  // ---------- counting lengths ----------

  method Longest(lengths: seq<nat>) returns (m: nat)
    ensures m == MaxLength(lengths)
  {
    m := 0;
    for i := 0 to |lengths|
      invariant m == MaxLength(lengths[..i])
    {
      assert lengths[..i + 1][..i] == lengths[..i];
      if lengths[i] > m { m := lengths[i]; }
    }
    assert lengths[..|lengths|] == lengths;
  }

  method CountLengths(lengths: seq<nat>) returns (cnt: array<int>)
    requires InRange(lengths)
    ensures fresh(cnt) && cnt.Length == MAX_LEN + 1
    ensures forall l :: 0 <= l <= MAX_LEN ==> cnt[l] == CountAt(lengths, l)
  {
    cnt := new int[MAX_LEN + 1](_ => 0);
    for i := 0 to |lengths|
      invariant cnt[0] == 0
      invariant forall l :: 1 <= l <= MAX_LEN ==> cnt[l] == Equal(lengths, i, l)
    {
      if lengths[i] != 0 { cnt[lengths[i]] := cnt[lengths[i]] + 1; }
    }
  }

  lemma NextFirstCode(lens: lengths, l: nat)
    ensures FirstCode(lens, 0) == 0
    ensures FirstCode(lens, l + 1) == 2 * (FirstCode(lens, l) + CountAt(lens, l))
  {}

  method FirstCodes(ghost lens: lengths, blCount: array<int>, maxL: nat) returns (nextCode: array<nat>)
    requires maxL < blCount.Length
    requires forall l :: 0 <= l < blCount.Length ==> blCount[l] == CountAt(lens, l)
    ensures fresh(nextCode) && nextCode.Length == blCount.Length
    ensures forall l :: 1 <= l <= maxL ==> nextCode[l] == FirstCode(lens, l)
  {
    hide *;
    nextCode := new nat[blCount.Length](_ => 0);
    var c := 0;
    NextFirstCode(lens, 0);
    for b := 1 to maxL + 1
      invariant c == FirstCode(lens, b - 1)
      invariant forall l :: 1 <= l < b ==> nextCode[l] == FirstCode(lens, l)
    {
      NextFirstCode(lens, b - 1);
      c := 2 * (c + blCount[b - 1]);
      nextCode[b] := c;
    }
  }
}
