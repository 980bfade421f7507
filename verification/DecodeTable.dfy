/** The decoder's tables for one canonical code, and table-driven decoding against bit-by-bit decoding. */
module DecodeTable {
  import opened Bits
  import opened Permutations
  import opened Canonical
  import opened BitIo

  const FAST_BITS: nat := 10
  const FAST_SIZE: nat := 1024
  const NO_LIMIT: nat := 0xFFFF_FFFF

  // ---------- decoding from a prefix that was looked up ----------

  lemma NextDone(done: bits, a: bits, c: bits)
    requires |a| > 0
    ensures ValueOf(done + [a[0]]) == 2 * ValueOf(done) + (if a[0] then 1 else 0)
    ensures (a + c)[1..] == a[1..] + c && (a + c)[0] == a[0]
    ensures (done + [a[0]]) + a[1..] == done + a
  {
    assert (done + [a[0]])[..|done|] == done;
  }

  /** Bits behind a decoded symbol do not matter. */
  lemma {:induction false} ExtendSymbol(lens: lengths, maxLen: nat, done: bits, a: bits, c: bits)
    requires ValueOf(done) >= EndCode(lens, |done|) && DecodeFrom(lens, maxLen, ValueOf(done), |done|, a).Sym?
    ensures var d := DecodeFrom(lens, maxLen, ValueOf(done), |done|, a);
            DecodeFrom(lens, maxLen, ValueOf(done), |done|, a + c) == Sym(d.sym, d.rest + c)
    decreases |a|
  {
    hide ValueOf, EndCode, SymbolAt;
    NextDone(done, a, c);
    var next := done + [a[0]];
    if ValueOf(next) >= EndCode(lens, |next|) { ExtendSymbol(lens, maxLen, next, a[1..], c); }
  }

  /** Without a symbol so far, decoding goes on where the bits ended. */
  lemma {:induction false} ExtendNothing(lens: lengths, maxLen: nat, done: bits, a: bits, c: bits)
    requires ValueOf(done) >= EndCode(lens, |done|) && DecodeFrom(lens, maxLen, ValueOf(done), |done|, a).NoCode?
    requires |done| + |a| <= maxLen
    ensures ValueOf(done + a) >= EndCode(lens, |done + a|)
    ensures DecodeFrom(lens, maxLen, ValueOf(done), |done|, a + c)
         == DecodeFrom(lens, maxLen, ValueOf(done + a), |done + a|, c)
    decreases |a|
  {
    if |a| == 0 {
      assert a + c == c && done + a == done;
    } else {
      NextDone(done, a, c);
      ExtendNothing(lens, maxLen, done + [a[0]], a[1..], c);
    }
  }

  /** Past the longest length there is nothing to find. */
  lemma {:induction false} ExtendTooLong(lens: lengths, maxLen: nat, done: bits, a: bits, c: bits)
    requires ValueOf(done) >= EndCode(lens, |done|) && DecodeFrom(lens, maxLen, ValueOf(done), |done|, a).NoCode?
    requires |done| + |a| > maxLen
    ensures DecodeFrom(lens, maxLen, ValueOf(done), |done|, a + c).NoCode?
    decreases |a|
  {
    if |a| > 0 && |done| < maxLen {
      NextDone(done, a, c);
      ExtendTooLong(lens, maxLen, done + [a[0]], a[1..], c);
    }
  }

  /** Looking up the first ten bits of the input. */
  lemma LookupDecides(lens: lengths, a: bits, c: bits)
    ensures Decode(lens, a).Sym? ==> Decode(lens, a + c) == Sym(Decode(lens, a).sym, Decode(lens, a).rest + c)
    ensures Decode(lens, a).NoCode? && |a| <= MaxLength(lens) ==>
              && ValueOf(a) >= EndCode(lens, |a|)
              && Decode(lens, a + c) == DecodeFrom(lens, MaxLength(lens), ValueOf(a), |a|, c)
    ensures Decode(lens, a).NoCode? && |a| > MaxLength(lens) ==> Decode(lens, a + c).NoCode?
  {
    assert [] + a == a;
    if Decode(lens, a).Sym? {
      ExtendSymbol(lens, MaxLength(lens), [], a, c);
    } else if |a| <= MaxLength(lens) {
      ExtendNothing(lens, MaxLength(lens), [], a, c);
    } else {
      ExtendTooLong(lens, MaxLength(lens), [], a, c);
    }
  }

  // ---------- short codes ----------

  /** The codes of at most ten bits fit their lengths; longer ones need not. */
  predicate ShortCodesFit(lens: lengths) { EndCode(lens, FAST_BITS) <= FAST_SIZE }

  lemma ShortEnd(lens: lengths, l: nat)
    requires ShortCodesFit(lens) && l <= FAST_BITS
    ensures EndCode(lens, l) <= Pow2(l)
  {
    hide EndCode, Pow2;
    BlockEndsGrow(lens, l, FAST_BITS - l, 0);
    NoShift(EndCode(lens, FAST_BITS));
    Pow2Add(l, FAST_BITS - l);
    Pow2Values();
    MulCancel(EndCode(lens, l), Pow2(l), Pow2(FAST_BITS - l));
  }

  lemma NoShift(e: nat)
    ensures e * Pow2(0) == e
  {}

  /** Lengths of which only twenty-bit codes can be too many have short codes that fit. */
  lemma AlmostMeansShort(lens: lengths)
    requires AlmostFits(lens)
    ensures ShortCodesFit(lens)
  {
    hide EndCode, Pow2;
    var n := MAX_LEN - 1 - FAST_BITS;
    BlockEndsGrow(lens, FAST_BITS, n, 0);
    NoShift(EndCode(lens, MAX_LEN - 1));
    Pow2Add(FAST_BITS, n);
    Pow2Values();
    MulCancel(EndCode(lens, FAST_BITS), Pow2(FAST_BITS), Pow2(n));
  }

  lemma ShortCode(lens: lengths, s: nat)
    requires ShortCodesFit(lens) && s < |lens| && 1 <= lens[s] <= FAST_BITS
    ensures Code(lens, s) < Pow2(lens[s])
  {
    CodeInBlock(lens, s);
    ShortEnd(lens, lens[s]);
  }

  // ---------- what a fast entry should hold ----------

  /** A fast entry holds the symbol and the length of the code it starts with, or -1. */
  predicate EntryHolds(d: Decoded, sym: int, len: int) {
    match d
    case Sym(s, rest) => sym == s && len + |rest| == FAST_BITS
    case NoCode => sym == -1
  }

  ghost predicate FastEntry(lens: lengths, p: nat, sym: int, len: int) {
    EntryHolds(Decode(lens, BitsOf(p, FAST_BITS)), sym, len)
  }

  /** The entries of one code are consecutive. */
  lemma EntryOfCode(lens: lengths, s: nat, k: nat, p: nat)
    requires ShortCodesFit(lens) && s < |lens| && 1 <= lens[s] <= FAST_BITS && k < Pow2(FAST_BITS - lens[s])
    requires p == Code(lens, s) * Pow2(FAST_BITS - lens[s]) + k
    ensures FastEntry(lens, p, s, lens[s])
  {
    var l := lens[s];
    var tail := BitsOf(k, FAST_BITS - l);
    BitsOfSplit(Code(lens, s), k, l, FAST_BITS - l);
    assert BitsOf(p, FAST_BITS) == CodeBits(lens, s) + tail;
    ShortCode(lens, s);
    DecodeCode(lens, s, tail);
  }

  lemma BelowBlock(c: nat, t: nat, e: nat, w: nat)
    requires t < w && c < e
    ensures c * w + t < e * w
  {
    MulMono(c + 1, e, w);
    OneMore(c, w);
  }

  lemma ValueBelowBlock(lens: lengths, s: nat, tail: bits)
    requires s < |lens| && 0 < lens[s] && Code(lens, s) < Pow2(lens[s])
    ensures ValueOf(CodeBits(lens, s) + tail) < EndCode(lens, lens[s]) * Pow2(|tail|)
  {
    CodeInBlock(lens, s);
    ValueConcat(CodeBits(lens, s), tail);
    ValueBound(tail);
    ValueOfBitsOf(Code(lens, s), lens[s]);
    BelowBlock(Code(lens, s), ValueOf(tail), EndCode(lens, lens[s]), Pow2(|tail|));
  }

  lemma BlockEndsGrow(lens: lengths, l: nat, x: nat, y: nat)
    ensures EndCode(lens, l) * Pow2(x + y) <= EndCode(lens, l + x) * Pow2(y)
  {
    if x > 0 {
      EndCodeGrows(lens, l, l + x);
      Pow2Add(x, y);
      MulAssoc(EndCode(lens, l), Pow2(x), Pow2(y));
      MulMono(EndCode(lens, l) * Pow2(x), EndCode(lens, l + x), Pow2(y));
    }
  }

  /** A string that starts with a code lies below the end of the codes up to any longer length. */
  lemma StartsBelowEnd(lens: lengths, s: nat, tail: bits, x: nat, y: nat)
    requires s < |lens| && 0 < lens[s] && Code(lens, s) < Pow2(lens[s]) && |tail| == x + y
    ensures ValueOf(CodeBits(lens, s) + tail) < EndCode(lens, lens[s] + x) * Pow2(y)
  {
    hide *;
    ValueBelowBlock(lens, s, tail);
    BlockEndsGrow(lens, lens[s], x, y);
  }

  /** Entries past the last short code decode to nothing. */
  lemma EntryPastCodes(lens: lengths, m: nat, p: nat)
    requires ShortCodesFit(lens) && m == Min(MaxLength(lens), FAST_BITS)
    requires EndCode(lens, m) * Pow2(FAST_BITS - m) <= p < Pow2(FAST_BITS)
    ensures Decode(lens, BitsOf(p, FAST_BITS)).NoCode?
  {
    hide EndCode, Decode, BitsOf, ValueOf, Pow2, Code, CodeBits, MaxLength, ShortCodesFit;
    var d := Decode(lens, BitsOf(p, FAST_BITS));
    if d.Sym? {
      var s, tail := d.sym, d.rest;
      FoundShort(lens, p);
      ValueOfBitsOf(p, FAST_BITS);
      StartsBelowEnd(lens, s, tail, m - lens[s], FAST_BITS - m);
      assert false;
    }
  }

  /** What ten bits decode to is a short code and the bits behind it. */
  lemma FoundShort(lens: lengths, p: nat)
    requires ShortCodesFit(lens) && Decode(lens, BitsOf(p, FAST_BITS)).Sym?
    ensures var d := Decode(lens, BitsOf(p, FAST_BITS));
            && d.sym < |lens| && 0 < lens[d.sym] <= Min(MaxLength(lens), FAST_BITS)
            && Code(lens, d.sym) < Pow2(lens[d.sym])
            && BitsOf(p, FAST_BITS) == CodeBits(lens, d.sym) + d.rest && |d.rest| == FAST_BITS - lens[d.sym]
  {
    hide EndCode, BitsOf, Pow2, ShortCodesFit;
    var b := BitsOf(p, FAST_BITS);
    NothingYet(lens, b);
    DecodedIsCode(lens, MaxLength(lens), [], b);
    ShortCode(lens, Decode(lens, b).sym);
  }

  lemma NothingYet(lens: lengths, b: bits)
    ensures [] + b == b && ValueOf([]) == 0 >= EndCode(lens, 0)
  {}

  // ---------- bounds of the codes of each length ----------

  ghost predicate BoundEntry(ls: lengths, k: nat, b: int, m: int) {
    b == FirstCode(ls, k) && m == if CountAt(ls, k) == 0 then NO_LIMIT else EndCode(ls, k) - 1
  }

  /** base and limit hold the first and the last code of every length up to l. */
  ghost predicate Bounds(ls: lengths, base: seq<int>, limit: seq<int>, l: nat) {
    l < |base| == |limit| && forall k :: 1 <= k <= l ==> BoundEntry(ls, k, base[k], limit[k])
  }

  method SetBounds(ghost ls: lengths, cnt: array<int>, maxLen: nat,
                   base: array<int>, limit: array<int>, offset: array<int>)
    requires maxLen <= MAX_LEN && cnt.Length == MAX_LEN + 1
    requires base.Length == limit.Length == offset.Length == MAX_LEN + 2
    requires base != limit && base != offset && limit != offset && cnt != base && cnt != limit && cnt != offset
    requires forall l :: 0 <= l <= MAX_LEN ==> cnt[l] == CountAt(ls, l)
    modifies base, limit, offset
    ensures Bounds(ls, base[..], limit[..], maxLen)
  {
    var c := 0;
    var blPrev := 0;
    for l := 1 to maxLen + 1
      invariant c == FirstCode(ls, l - 1) && blPrev == CountAt(ls, l - 1)
      invariant Bounds(ls, base[..], limit[..], l - 1)
    {
      c := 2 * (c + blPrev);
      base[l] := c;
      limit[l] := if cnt[l] != 0 then c + cnt[l] - 1 else NO_LIMIT;
      offset[l] := 0;
      blPrev := cnt[l];
      assert BoundEntry(ls, l, base[l], limit[l]);
    }
  }

  // ---------- the symbols in code order ----------

  /** How many symbols have a code shorter than l. */
  ghost function Shorter(ls: lengths, l: nat): int {
    Below(ls, |ls|, l) - Below(ls, |ls|, 1)
  }

  lemma ShorterStep(ls: lengths, l: nat)
    requires l >= 1
    ensures 0 <= Shorter(ls, l) && Shorter(ls, l + 1) == Shorter(ls, l) + CountAt(ls, l) <= |ls|
  {
    BelowMono(ls, |ls|, 1, l);
    BelowNext(ls, |ls|, l);
  }

  lemma ShorterMono(ls: lengths, k: nat, l: nat)
    requires 1 <= k < l
    ensures Shorter(ls, k) + CountAt(ls, k) <= Shorter(ls, l)
  {
    ShorterStep(ls, k);
    BelowMono(ls, |ls|, k + 1, l);
  }

  /** perm lists the first m symbols of length k, from place Shorter(k) on. */
  ghost predicate Listed(ls: lengths, perm: seq<int>, k: nat, m: nat) {
    && 1 <= k && m <= CountAt(ls, k)
    && 0 <= Shorter(ls, k) && Shorter(ls, k) + m <= |perm|
    && forall r :: 0 <= r < m ==> perm[Shorter(ls, k) + r] == SymbolAt(ls, |ls|, k, r)
  }

  ghost predicate ListedUpTo(ls: lengths, perm: seq<int>, offset: seq<int>, l: nat) {
    l < |offset| && forall k :: 1 <= k <= l ==> offset[k] == Shorter(ls, k) && Listed(ls, perm, k, CountAt(ls, k))
  }

  /** Writing at place p keeps all lists that end before it. */
  lemma ListedFrame(ls: lengths, perm: seq<int>, k: nat, m: nat, p: nat, s: int)
    requires Listed(ls, perm, k, m) && Shorter(ls, k) + m <= p < |perm|
    ensures Listed(ls, perm[p := s], k, m)
  {}

  lemma ListedMore(ls: lengths, perm: seq<int>, k: nat, s: nat)
    requires s < |ls| && ls[s] == k && Listed(ls, perm, k, Equal(ls, s, k)) && |ls| <= |perm|
    ensures Shorter(ls, k) + Equal(ls, s, k) < |perm|
    ensures Listed(ls, perm[Shorter(ls, k) + Equal(ls, s, k) := s], k, Equal(ls, s + 1, k))
  {
    EqualMono(ls, s + 1, |ls|, k);
    ShorterStep(ls, k);
    EqualAtIndex(ls, s, SymbolAt(ls, |ls|, k, Equal(ls, s, k)));
  }

  /** Appends the symbols of length l to the list. */
  method ListLength(ls: lengths, l: nat, pidx: nat, perm: array<int>) returns (next: nat)
    requires |ls| <= perm.Length && l >= 1 && pidx == Shorter(ls, l)
    modifies perm
    ensures Listed(ls, perm[..], l, CountAt(ls, l)) && next == Shorter(ls, l + 1)
    ensures forall k: nat, m: nat :: Listed(ls, old(perm[..]), k, m) && k < l ==> Listed(ls, perm[..], k, m)
  {
    next := pidx;
    ShorterStep(ls, l);
    for s := 0 to |ls|
      invariant Listed(ls, perm[..], l, Equal(ls, s, l)) && next == pidx + Equal(ls, s, l)
      invariant forall k: nat, m: nat :: Listed(ls, old(perm[..]), k, m) && k < l ==> Listed(ls, perm[..], k, m)
    {
      EqualMono(ls, s + 1, |ls|, l);
      if ls[s] == l {
        ListedMore(ls, perm[..], l, s);
        forall k: nat, m: nat | Listed(ls, perm[..], k, m) && k < l ensures Listed(ls, perm[..][next := s], k, m) {
          ShorterMono(ls, k, l);
          ListedFrame(ls, perm[..], k, m, next, s);
        }
        ghost var before := perm[..];
        perm[next] := s;
        assert perm[..] == before[next := s];
        next := next + 1;
      }
    }
  }

  method ListSymbols(ls: lengths, maxLen: nat, perm: array<int>, offset: array<int>)
    requires |ls| <= perm.Length && maxLen < offset.Length && perm != offset
    modifies perm, offset
    ensures ListedUpTo(ls, perm[..], offset[..], maxLen)
  {
    var pidx := 0;
    for l := 1 to maxLen + 1
      invariant pidx == Shorter(ls, l)
      invariant ListedUpTo(ls, perm[..], offset[..], l - 1)
    {
      offset[l] := pidx;
      pidx := ListLength(ls, l, pidx, perm);
    }
  }

  // ---------- the fast table ----------

  /** The first f entries are right, the others still empty. */
  ghost predicate FastBelow(ls: lengths, fastSym: seq<int>, fastLen: seq<int>, f: nat) {
    && |fastSym| == |fastLen| == FAST_SIZE
    && (forall p :: 0 <= p < f < |fastSym| ==> FastEntry(ls, p, fastSym[p], fastLen[p]))
    && (forall p :: f <= p < |fastSym| ==> fastSym[p] == -1)
    && (f == |fastSym| ==> forall p :: 0 <= p < f ==> FastEntry(ls, p, fastSym[p], fastLen[p]))
    && f <= |fastSym|
  }

  /** Fills the entries of one code, which start where the filled part ends. */
  method FillCode(ghost ls: lengths, s: nat, l: nat, idx: nat, fill: nat, fastSym: array<int>, fastLen: array<int>)
    requires fastSym != fastLen && ShortCodesFit(ls) && s < |ls| && ls[s] == l && 1 <= l <= FAST_BITS
    requires idx == Code(ls, s) * Pow2(FAST_BITS - l) && fill == Pow2(FAST_BITS - l) && idx + fill <= FAST_SIZE
    requires FastBelow(ls, fastSym[..], fastLen[..], idx)
    modifies fastSym, fastLen
    ensures FastBelow(ls, fastSym[..], fastLen[..], idx + fill)
  {
    for k := 0 to fill
      invariant FastBelow(ls, fastSym[..], fastLen[..], idx + k)
    {
      EntryOfCode(ls, s, k, idx + k);
      fastSym[idx + k] := s;
      fastLen[idx + k] := l;
    }
  }

  /** Where the entries of the j-th code of length l start. */
  ghost function FastStart(ls: lengths, l: nat, j: nat): nat
    requires l <= FAST_BITS
  {
    (FirstCode(ls, l) + j) * Pow2(FAST_BITS - l)
  }

  lemma FastStartNext(ls: lengths, l: nat, j: nat)
    requires l <= FAST_BITS
    ensures FastStart(ls, l, j + 1) == FastStart(ls, l, j) + Pow2(FAST_BITS - l)
  {
    OneMore(FirstCode(ls, l) + j, Pow2(FAST_BITS - l));
  }

  lemma FastStartContiguous(ls: lengths, l: nat)
    requires 1 <= l <= FAST_BITS
    ensures FastStart(ls, l, 0) == FastStart(ls, l - 1, CountAt(ls, l - 1))
  {
    MulAssoc(EndCode(ls, l - 1), 2, Pow2(FAST_BITS - l));
    MulAssoc(2, EndCode(ls, l - 1), Pow2(FAST_BITS - l));
  }

  lemma FastStartBound(ls: lengths, l: nat, j: nat)
    requires ShortCodesFit(ls) && l <= FAST_BITS && j <= CountAt(ls, l)
    ensures FastStart(ls, l, j) <= FAST_SIZE
  {
    ShortEnd(ls, l);
    MulMono(FirstCode(ls, l) + j, Pow2(l), Pow2(FAST_BITS - l));
    Pow2Add(l, FAST_BITS - l);
  }

  method FillLength(ghost ls: lengths, l: nat, num: nat, base: nat, offset: nat, perm: array<int>,
                    fastSym: array<int>, fastLen: array<int>)
    requires fastSym != fastLen && fastSym != perm && fastLen != perm && ShortCodesFit(ls) && 1 <= l <= FAST_BITS
    requires num == CountAt(ls, l) && base == FirstCode(ls, l)
    requires offset == Shorter(ls, l) && Listed(ls, perm[..], l, num)
    requires FastBelow(ls, fastSym[..], fastLen[..], FastStart(ls, l, 0))
    modifies fastSym, fastLen
    ensures FastBelow(ls, fastSym[..], fastLen[..], FastStart(ls, l, CountAt(ls, l)))
  {
    ghost var listed := perm[..];
    var fill := Pow2(FAST_BITS - l);
    for j := 0 to num
      invariant perm[..] == listed
      invariant FastBelow(ls, fastSym[..], fastLen[..], FastStart(ls, l, j))
    {
      var sym := perm[offset + j];
      assert sym == listed[offset + j] == SymbolAt(ls, |ls|, l, j);
      assert Code(ls, sym) == base + j && FastStart(ls, l, j) == (base + j) * fill;
      FastStartNext(ls, l, j);
      FastStartBound(ls, l, j + 1);
      hide *;
      FillCode(ls, sym, l, (base + j) * fill, fill, fastSym, fastLen);
    }
  }

  ghost predicate FastTable(ls: lengths, fastSym: seq<int>, fastLen: seq<int>) {
    && |fastSym| == |fastLen| == FAST_SIZE
    && forall p :: 0 <= p < |fastSym| ==> FastEntry(ls, p, fastSym[p], fastLen[p])
  }

  /** Entries that stay empty belong to no short code. */
  lemma FastComplete(ls: lengths, fastSym: seq<int>, fastLen: seq<int>, m: nat)
    requires ShortCodesFit(ls) && m == Min(MaxLength(ls), FAST_BITS)
    requires FastBelow(ls, fastSym, fastLen, FastStart(ls, m, CountAt(ls, m)))
    ensures FastTable(ls, fastSym, fastLen)
  {
    var f := FastStart(ls, m, CountAt(ls, m));
    assert f == EndCode(ls, m) * Pow2(FAST_BITS - m) && Pow2(FAST_BITS) == FAST_SIZE;
    forall p | 0 <= p < FAST_SIZE ensures FastEntry(ls, p, fastSym[p], fastLen[p]) {
      if p >= f { EntryPastCodes(ls, m, p); }
    }
  }

  method FillFast(ghost ls: lengths, maxLen: nat, base: array<int>, limit: array<int>, offset: array<int>,
                  perm: array<int>, fastSym: array<int>, fastLen: array<int>)
    requires ShortCodesFit(ls) && |ls| <= MAX_ALPHA && maxLen == MaxLength(ls) <= MAX_LEN
    requires fastSym.Length == fastLen.Length == FAST_SIZE && fastSym != fastLen
    requires fastSym !in {base, limit, offset, perm} && fastLen !in {base, limit, offset, perm}
    requires Bounds(ls, base[..], limit[..], maxLen) && ListedUpTo(ls, perm[..], offset[..], maxLen)
    modifies fastSym, fastLen
    ensures FastTable(ls, fastSym[..], fastLen[..])
  {
    for p := 0 to FAST_SIZE
      invariant forall q :: 0 <= q < p ==> fastSym[q] == -1
    {
      fastSym[p], fastLen[p] := -1, 0xFF;
    }
    ghost var bs, ms, os, ps := base[..], limit[..], offset[..], perm[..];
    var fastMax := Min(maxLen, FAST_BITS);
    assert FastStart(ls, 0, CountAt(ls, 0)) == 0;
    for l := 1 to fastMax + 1
      invariant base[..] == bs && limit[..] == ms && offset[..] == os && perm[..] == ps
      invariant FastBelow(ls, fastSym[..], fastLen[..], FastStart(ls, l - 1, CountAt(ls, l - 1)))
    {
      assert BoundEntry(ls, l, bs[l], ms[l]) && os[l] == Shorter(ls, l) && Listed(ls, ps, l, CountAt(ls, l));
      FastStartContiguous(ls, l);
      LimitTells(ls, l);
      if limit[l] != NO_LIMIT {
        var num := limit[l] - base[l] + 1;
        FillLength(ls, l, num, base[l], offset[l], perm, fastSym, fastLen);
      }
    }
    FastComplete(ls, fastSym[..], fastLen[..], fastMax);
  }

  /** The mark for "no codes" is no code. */
  lemma LimitTells(ls: lengths, l: nat)
    requires InRange(ls) && |ls| <= MAX_ALPHA && l <= MAX_LEN
    ensures EndCode(ls, l) - 1 < NO_LIMIT
  {
    hide *;
    Small();
    EndCodeIsKraft(ls, l);
    KraftSmall(ls, |ls|, l);
    MulMono(1, Pow2(MAX_LEN - l), EndCode(ls, l));
    Pow2Values();
    MulMono(|ls|, 258, Pow2(MAX_LEN));
  }

  lemma Small()
    ensures MAX_LEN == 20 && MAX_ALPHA == 258 && NO_LIMIT == 0xFFFF_FFFF
  {}

  lemma {:induction false} KraftSmall(ls: lengths, m: nat, l: nat)
    requires InRange(ls) && m <= |ls|
    ensures KraftUpTo(ls, m, l) <= m * Pow2(MAX_LEN)
    decreases m
  {
    hide Pow2;
    if m > 0 {
      KraftSmall(ls, m - 1, l);
      OneMore(m - 1, Pow2(MAX_LEN));
      Pow2Mono(MAX_LEN - ls[m - 1], MAX_LEN);
    }
  }

  lemma LookUpCode(ls: lengths, base: seq<int>, limit: seq<int>, offset: seq<int>, perm: seq<int>, maxLen: nat,
                   v: nat, l: nat)
    requires InRange(ls) && |ls| <= MAX_ALPHA && 1 <= l <= maxLen <= MAX_LEN && v >= FirstCode(ls, l)
    requires Bounds(ls, base, limit, maxLen) && ListedUpTo(ls, perm, offset, maxLen)
    ensures base[l] == FirstCode(ls, l)
    ensures v < EndCode(ls, l) <==> limit[l] != NO_LIMIT && v <= limit[l]
    ensures v < EndCode(ls, l) ==>
              && 0 <= offset[l] + (v - base[l]) < |perm|
              && perm[offset[l] + (v - base[l])] == SymbolAt(ls, |ls|, l, v - FirstCode(ls, l))
  {
    assert BoundEntry(ls, l, base[l], limit[l]);
    assert offset[l] == Shorter(ls, l) && Listed(ls, perm, l, CountAt(ls, l));
    LimitTells(ls, l);
  }

  // ---------- the table object ----------

  /** Lengths for which the table builder stays inside its arrays: in range, and with short codes that fit. Lengths that
      only have too many long codes are usable: their tables decode as far as the codes go. */
  predicate Usable(ls: lengths) {
    |ls| <= MAX_ALPHA && (forall s :: 0 <= s < |ls| ==> ls[s] <= MAX_LEN) && ShortCodesFit(ls) && MaxLength(ls) > 0
  }

  /** In terms of the lengths alone: at most 258 of at most twenty bits, not all zero, and those of one to ten bits
      with a Kraft sum of at most one. */
  lemma UsableMeans(ls: lengths)
    ensures Usable(ls) <==>
              && |ls| <= 258 && (forall s :: 0 <= s < |ls| ==> ls[s] <= 20) && (exists s :: 0 <= s < |ls| && ls[s] != 0)
              && KraftUpTo(ls, |ls|, 10) <= 0x100000
  {
    hide EndCode, KraftUpTo, Pow2;
    Pow2Values();
    if InRange(ls) { EndCodeIsKraft(ls, 10); }
    assert MaxLength(ls) > 0 ==> exists s :: 0 <= s < |ls| && ls[s] == MaxLength(ls);
  }

  class Table {
    ghost var lens: lengths
    var maxLen: nat
    const perm: array<int>
    const base: array<int>
    const limit: array<int>
    const offset: array<int>
    const fastSym: array<int>
    const fastLen: array<int>

    ghost const Repr: set<object>

    ghost predicate Shaped()
      reads this
    {
      && Repr == {this, perm, base, limit, offset, fastSym, fastLen}
      && perm.Length == MAX_ALPHA
      && base.Length == limit.Length == offset.Length == MAX_LEN + 2
      && fastSym.Length == fastLen.Length == FAST_SIZE
      && base != limit && base != offset && limit != offset && perm !in {base, limit, offset}
      && fastSym !in {base, limit, offset, perm} && fastLen !in {base, limit, offset, perm, fastSym}
    }

    /** The tables belong to the code lengths lens. */
    ghost predicate Valid()
      reads this, Repr
    {
      && Shaped() && Usable(lens) && maxLen == MaxLength(lens) <= MAX_LEN
      && Bounds(lens, base[..], limit[..], maxLen)
      && ListedUpTo(lens, perm[..], offset[..], maxLen)
      && FastTable(lens, fastSym[..], fastLen[..])
    }

    constructor ()
      ensures Shaped() && fresh(Repr)
    {
      var p, b, m := new int[MAX_ALPHA], new int[MAX_LEN + 2], new int[MAX_LEN + 2];
      var o, s, l := new int[MAX_LEN + 2], new int[FAST_SIZE], new int[FAST_SIZE];
      perm, base, limit, offset, fastSym, fastLen := p, b, m, o, s, l;
      Repr := {this, p, b, m, o, s, l};
    }

    method Build(lengths: seq<nat>)
      requires Shaped() && Usable(lengths)
      modifies Repr
      ensures Valid() && lens == lengths
    {
      var longest := Longest(lengths);
      assert longest in lengths && InRange(lengths);
      var cnt := CountLengths(lengths);
      hide *;
      SetBounds(lengths, cnt, longest, base, limit, offset);
      ListSymbols(lengths, longest, perm, offset);
      FillFast(lengths, longest, base, limit, offset, perm, fastSym, fastLen);
      lens := lengths;
      maxLen := longest;
    }

    /** Reads one symbol: a ten-bit lookup when the accumulator holds ten bits, bit by bit otherwise.
        Either way it is the bit-by-bit decoding of the unread bits. */
    method DecodeHot(br: Reader) returns (sym: int)
      requires Valid() && br.Valid() && br !in Repr
      modifies br
      ensures br.Valid()
      ensures match Decode(lens, old(br.Rest()))
              case Sym(s, rest) => sym == s && br.Rest() == rest
              case NoCode => sym == -1
    {
      hide *;
      if br.bufBits >= FAST_BITS {
        ghost var all := br.Rest();
        var peek := br.Peek(FAST_BITS);
        LookUpFast(this, all, peek);
        var len := fastLen[peek];
        sym := fastSym[peek];
        if sym >= 0 {
          br.Skip(len);
          return;
        }
        br.Skip(FAST_BITS);
        if FAST_BITS > maxLen { return -1; }
        sym := SlowFrom(br, peek, FAST_BITS);
        return;
      }
      SlowStart(this, br.Rest());
      sym := SlowFrom(br, 0, 0);
    }

    /** Goes on bit by bit after l0 bits of value start. */
    method SlowFrom(br: Reader, start: nat, l0: nat) returns (sym: int)
      requires Valid() && br.Valid() && br !in Repr
      requires l0 <= maxLen && start >= EndCode(lens, l0)
      modifies br
      ensures br.Valid()
      ensures match DecodeFrom(lens, maxLen, start, l0, old(br.Rest()))
              case Sym(s, rest) => sym == s && br.Rest() == rest
              case NoCode => sym == -1
    {
      hide *;
      var top, v := maxLen, start;
      ghost var ls, goal := lens, DecodeFrom(lens, top, start, l0, br.Rest());
      for l := l0 + 1 to top + 1
        invariant br.Valid() && Valid() && ls == lens && top == maxLen
        invariant v >= EndCode(ls, l - 1) && DecodeFrom(ls, top, v, l - 1, br.Rest()) == goal
      {
        ghost var rest := br.Rest();
        var bit := br.NextBit();
        if bit < 0 { return -1; }
        DecodeOneBit(ls, top, v, l - 1, rest);
        v := 2 * v + bit;
        sym := CodeAt(v, l);
        if sym >= 0 { return; }
      }
      PastLongest(ls, top, v, br.Rest());
      return -1;
    }

    /** The symbol whose code is v in l bits, or -1. */
    function CodeAt(v: nat, l: nat): (s: int)
      requires Valid() && 1 <= l <= maxLen && v >= FirstCode(lens, l)
      reads this, Repr
      ensures v < EndCode(lens, l) ==> s == SymbolAt(lens, |lens|, l, v - FirstCode(lens, l))
      ensures v >= EndCode(lens, l) ==> s == -1
    {
      LookUpCode(lens, base[..], limit[..], offset[..], perm[..], maxLen, v, l);
      if limit[l] == NO_LIMIT || v > limit[l] then -1 else perm[offset[l] + (v - base[l])]
    }
  }

  /** What one lookup of the next ten bits tells. */
  lemma LookUpFast(t: Table, b: bits, peek: nat)
    requires t.Valid() && |b| >= FAST_BITS && peek == ValueOf(b[..FAST_BITS])
    ensures peek < t.fastSym.Length == t.fastLen.Length && FAST_BITS > 0
    ensures var sym, len, d := t.fastSym[peek], t.fastLen[peek], Decode(t.lens, b);
            && (sym >= 0 ==> 0 <= len <= FAST_BITS && d == Sym(sym, b[len..]))
            && (sym < 0 && FAST_BITS > t.maxLen ==> d.NoCode?)
            && (sym < 0 && FAST_BITS <= t.maxLen ==>
                 peek >= EndCode(t.lens, FAST_BITS)
                     && d == DecodeFrom(t.lens, t.maxLen, peek, FAST_BITS, b[FAST_BITS..]))
  {
    hide Bounds, ListedUpTo, EndCode, Kraft, Decode, DecodeFrom, BitsOf, ValueOf, Pow2;
    var head, tail := b[..FAST_BITS], b[FAST_BITS..];
    assert head + tail == b;
    Pow2Values();
    ValueBound(head);
    BitsOfValueOf(head);
    LookupDecides(t.lens, head, tail);
    assert FastEntry(t.lens, peek, t.fastSym[..][peek], t.fastLen[..][peek]);
    DecodeKeepsTail(t.lens, head, tail);
  }

  /** What a decoded symbol leaves is a tail of what was there. */
  lemma DecodeKeepsTail(ls: lengths, head: bits, tail: bits)
    ensures var d := Decode(ls, head); d.Sym? ==>
              var len := |head| - |d.rest|; 0 <= len <= |head| && d.rest + tail == (head + tail)[len..]
  {
    var d := Decode(ls, head);
    if d.Sym? { assert head[|head| - |d.rest|..] + tail == (head + tail)[|head| - |d.rest|..]; }
  }

  lemma SlowStart(t: Table, b: bits)
    requires t.Valid()
    ensures 0 >= EndCode(t.lens, 0) && Decode(t.lens, b) == DecodeFrom(t.lens, t.maxLen, 0, 0, b)
  {}

  lemma PastLongest(ls: lengths, maxLen: nat, v: nat, b: bits)
    requires v >= EndCode(ls, maxLen)
    ensures DecodeFrom(ls, maxLen, v, maxLen, b) == NoCode
  {}
}
