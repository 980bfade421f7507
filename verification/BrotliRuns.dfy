/** The lengths of a complex prefix code with their runs (section 3.5 of RFC 7932): what repeated run symbols stand for,
    and that every description of a complete code reads back as its lengths. */
module BrotliRuns {
  import opened Bits
  import opened LsbBits
  import opened Canonical
  import opened BrotliCodes
  import opened BrotliPrefix
  import opened BrotliSymbols
  import opened BrotliComplex

  // ---------- the length of a run ----------

  function Power(base: nat, n: nat): nat { if n == 0 then 1 else base * Power(base, n - 1) }

  /** The number whose digits, each one too small, these are; the highest comes first. */
  function DigitSum(digits: seq<nat>, base: nat): nat {
    if |digits| == 0 then 0
    else (digits[0] + 1) * Power(base, |digits| - 1) + DigitSum(digits[1..], base)
  }

  /** What consecutive run symbols with these extra bits stand for. */
  function RunTotal(digits: seq<nat>, base: nat): nat { 2 + DigitSum(digits, base) }

  /** The symbol's base: two extra bits repeat the last length, three repeat zero. */
  function BaseOf(sym: nat): nat { if sym == 16 then 4 else 8 }

  function ExtraOf(sym: nat): nat { if sym == 16 then 2 else 3 }

  lemma BaseIs(sym: nat)
    ensures Pow2(ExtraOf(sym)) == BaseOf(sym)
  {
    Pow2Values();
  }

  /** Every run of three or more has digits. */
  function DigitsOf(n: nat, base: nat): (digits: seq<nat>)
    requires base >= 2
  {
    if n == 0 then [] else DigitsOf((n - 1) / base, base) + [(n - 1) % base]
  }

  lemma {:induction false} DigitSumAppend(digits: seq<nat>, d: nat, base: nat)
    ensures DigitSum(digits + [d], base) == DigitSum(digits, base) * base + d + 1
    decreases |digits|
  {
    hide Power;
    if |digits| == 0 {
      OneDigit(d, base);
    } else {
      DigitSumAppend(digits[1..], d, base);
      assert (digits + [d])[1..] == digits[1..] + [d];
      var x, p := digits[0] + 1, Power(base, |digits| - 1);
      PowerNext(base, |digits| - 1);
      Scaled(x, p, DigitSum(digits[1..], base), base);
    }
  }

  lemma OneDigit(d: nat, base: nat)
    ensures DigitSum([d], base) == d + 1 && DigitSum([] + [d], base) == d + 1 && DigitSum([], base) == 0
  {
    assert [] + [d] == [d];
  }

  lemma PowerNext(base: nat, n: nat)
    ensures Power(base, n + 1) == base * Power(base, n) && Power(base, 0) == 1
  {}

  lemma Scaled(x: int, p: int, r: int, base: int)
    ensures (x * p + r) * base == x * (base * p) + r * base
  {}

  lemma {:induction false} DigitsAre(n: nat, base: nat)
    requires base >= 2
    ensures DigitSum(DigitsOf(n, base), base) == n && (n > 0 ==> |DigitsOf(n, base)| > 0)
    ensures forall i :: 0 <= i < |DigitsOf(n, base)| ==> DigitsOf(n, base)[i] < base
    decreases n
  {
    if n > 0 {
      DigitsAre((n - 1) / base, base);
      DigitSumAppend(DigitsOf((n - 1) / base, base), (n - 1) % base, base);
      DivModSplit(n - 1, base);
    }
  }

  // ---------- reading one run ----------

  /** Symbols of the code for lengths. */
  ghost predicate Has(c: SymbolCode, sym: nat) {
    match c
    case Single(only) => sym == only
    case Coded(lens) => Fits(lens) && sym < |lens| && lens[sym] > 0
  }

  function SymbolBits(c: SymbolCode, sym: nat): bits {
    match c
    case Single(_) => []
    case Coded(lens) => if sym < |lens| then CodeBits(lens, sym) else []
  }

  lemma SymbolReads(c: SymbolCode, sym: nat, rest: bits)
    requires Has(c, sym)
    ensures ReadCode(c, SymbolBits(c, sym) + rest) == Some((sym, rest))
  {
    hide CodeBits, Canonical.Decode, Kraft;
    match c {
      case Single(_) => assert [] + rest == rest;
      case Coded(lens) =>
        CodeFits(lens, sym);
        DecodeCode(lens, sym, rest);
    }
  }

  function RunBits(c: SymbolCode, sym: nat, digits: seq<nat>): bits {
    if |digits| == 0 then []
    else SymbolBits(c, sym) + (LsbOf(digits[0], ExtraOf(sym)) + RunBits(c, sym, digits[1..]))
  }

  /** A run carried on: what was there without its two counts as the digits in front. */
  function Carry(run: nat, digits: seq<nat>, base: nat): int {
    2 + (if run > 0 then run - 2 else 0) * Power(base, |digits|) + DigitSum(digits, base)
  }

  lemma CarryFirst(run: nat, digits: seq<nat>, base: nat)
    requires |digits| > 0 && (run == 0 || run >= 3) && base >= 2
    ensures var next := (if run > 0 then (run - 2) * base else 0) + digits[0] + 3;
            && next >= 3 && next > run && Carry(next, digits[1..], base) == Carry(run, digits, base)
            && (|digits| > 1 ==> Carry(next, digits[1..], base) > next)
            && (|digits| == 1 ==> Carry(run, digits, base) == next)
  {
    hide *;
    var z, d, p := if run > 0 then run - 2 else 0, digits[0], Power(base, |digits| - 1);
    var next := z * base + d + 3;
    DigitSumFirst(digits, base);
    PowerNext(base, |digits| - 1);
    Regroup(z, d + 1, base, p);
    MulMono(2, base, z);
    CarryIs(run, digits, base);
    CarryIs(next, digits[1..], base);
    if |digits| > 1 {
      PowerAtLeast(base, |digits| - 1);
      DigitSumPositive(digits[1..], base);
      MulMono(1, p, next - 2);
    }
  }

  lemma CarryIs(run: nat, digits: seq<nat>, base: nat)
    ensures Carry(run, digits, base)
         == 2 + (if run > 0 then run - 2 else 0) * Power(base, |digits|) + DigitSum(digits, base)
  {}

  lemma DigitSumFirst(digits: seq<nat>, base: nat)
    requires |digits| > 0
    ensures DigitSum(digits, base) == (digits[0] + 1) * Power(base, |digits| - 1) + DigitSum(digits[1..], base)
    ensures |digits| == 1 ==> DigitSum(digits[1..], base) == 0 && Power(base, |digits| - 1) == 1
  {}

  lemma Regroup(z: int, d: int, base: int, p: int)
    ensures (z * base + d) * p == z * (base * p) + d * p
  {}

  lemma {:induction false} PowerAtLeast(base: nat, n: nat)
    requires base >= 1
    ensures Power(base, n) >= 1
    decreases n
  {
    if n > 0 {
      PowerAtLeast(base, n - 1);
      MulMono(1, base, Power(base, n - 1));
    }
  }

  lemma DigitSumPositive(digits: seq<nat>, base: nat)
    requires |digits| > 0 && base >= 1
    ensures DigitSum(digits, base) > 0
  {
    PowerAtLeast(base, |digits| - 1);
    MulMono(1, Power(base, |digits| - 1), digits[0] + 1);
  }

  ghost predicate DigitsBelow(digits: seq<nat>, base: nat) {
    |digits| > 0 && forall i :: 0 <= i < |digits| ==> digits[i] < base
  }

  /** The parser reads consecutive run symbols as one run. */
  lemma {:induction false} RunReadBack(c: SymbolCode, sym: nat, digits: seq<nat>, rest: bits, size: nat, p: Progress)
    requires sym in {16, 17} && Has(c, sym) && DigitsBelow(digits, BaseOf(sym)) && (p.run == 0 || p.run >= 3)
    requires var run := Carry(CarriedOn(p, sym), digits, BaseOf(sym));
             var n := run - CarriedOn(p, sym);
             p.space > 0 && |p.done| + n <= size && p.space >= n * Taken(15, RepeatedLength(p, sym))
    ensures var run := Carry(CarriedOn(p, sym), digits, BaseOf(sym));
            var n := run - CarriedOn(p, sym);
            run >= 3 && n > 0
            && ReadLengths(c, RunBits(c, sym, digits) + rest, size, p)
               == ReadLengths(c, rest, size, Append(p, RepeatedLength(p, sym), n, p.prev, run))
    decreases |digits|
  {
    hide *;
    var base, len, carried := BaseOf(sym), RepeatedLength(p, sym), CarriedOn(p, sym);
    var run := Carry(carried, digits, base);
    BelowIs(digits, base);
    var d, more := digits[0], digits[1..];
    RunStart(p, sym, d);
    CarryFirst(carried, digits, base);
    var next := RunLength(p, sym, d);
    Taking(p.space, carried, next, run, len);
    RunTurn(c, sym, digits, rest, size, p);
    var q := Append(p, len, next - carried, p.prev, next);
    if |digits| > 1 {
      BelowRest(digits, base);
      RunGoesOn(p, sym, next - carried, next, run - next);
      RunReadBack(c, sym, more, rest, size, q);
    } else {
      NoDigits(c, sym, more, rest);
    }
  }

  lemma BelowIs(digits: seq<nat>, base: nat)
    requires DigitsBelow(digits, base)
    ensures |digits| > 0 && digits[0] < base
  {}

  lemma BelowRest(digits: seq<nat>, base: nat)
    requires DigitsBelow(digits, base) && |digits| > 1
    ensures DigitsBelow(digits[1..], base)
  {}

  lemma NoDigits(c: SymbolCode, sym: nat, digits: seq<nat>, rest: bits)
    requires |digits| == 0
    ensures RunBits(c, sym, digits) + rest == rest
  {}

  lemma RunStart(p: Progress, sym: nat, d: nat)
    requires sym in {16, 17} && (p.run == 0 || p.run >= 3)
    ensures var carried := CarriedOn(p, sym);
            && (carried == 0 || carried >= 3) && BaseOf(sym) >= 2
            && RunLength(p, sym, d) == (if carried > 0 then (carried - 2) * BaseOf(sym) else 0) + d + 3
  {
    hide Pow2;
    BaseIs(sym);
  }

  /** While symbols are to come there is room. */
  lemma Taking(space: int, carried: nat, next: int, run: int, len: nat)
    requires carried < next <= run && space > 0 && space >= (run - carried) * Taken(15, len)
    ensures space >= (next - carried) * Taken(15, len)
    ensures next < run ==> space - (next - carried) * Taken(15, len) > 0
    ensures space - (next - carried) * Taken(15, len) >= (run - next) * Taken(15, len)
  {
    hide Pow2;
    var t := Taken(15, len);
    Split(next - carried, run - next, t);
    MulMono(0, next - carried, t);
    MulMono(0, run - next, t);
    if next < run && t > 0 { MulMono(1, run - next, t); }
  }

  lemma Split(a: int, b: int, t: int)
    ensures (a + b) * t == a * t + b * t
  {}

  /** One run symbol is read. */
  lemma RunTurn(c: SymbolCode, sym: nat, digits: seq<nat>, rest: bits, size: nat, p: Progress)
    requires sym in {16, 17} && Has(c, sym) && |digits| > 0 && digits[0] < BaseOf(sym)
    requires var n := RunLength(p, sym, digits[0]) - CarriedOn(p, sym);
             && n > 0 && p.space > 0 && |p.done| + n <= size
             && p.space >= n * Taken(15, RepeatedLength(p, sym))
    ensures var run := RunLength(p, sym, digits[0]);
            run >= 0 && ReadLengths(c, RunBits(c, sym, digits) + rest, size, p)
            == ReadLengths(c, RunBits(c, sym, digits[1..]) + rest, size,
                           Append(p, RepeatedLength(p, sym), run - CarriedOn(p, sym), p.prev, run))
  {
    hide *;
    var d, more := digits[0], RunBits(c, sym, digits[1..]) + rest;
    var behind := LsbOf(d, ExtraOf(sym)) + more;
    RunBitsAre(c, sym, digits, rest);
    SymbolReads(c, sym, behind);
    LengthsTurn(c, RunBits(c, sym, digits) + rest, size, p);
    BaseIs(sym);
    TakeWritten(d, ExtraOf(sym), more);
    ExtraIs(sym);
    var run := RunLength(p, sym, d);
    CarriedSome(p, sym);
    MaxBitsIs();
    AfterRepeatIs(c, behind, size, p, sym, d, run - CarriedOn(p, sym), run);
  }

  lemma MaxBitsIs()
    ensures MAX_BITS == 15
  {}

  lemma CarriedSome(p: Progress, sym: nat)
    ensures CarriedOn(p, sym) >= 0
  {}

  lemma ExtraIs(sym: nat)
    ensures ExtraOf(sym) == if sym == 16 then 2 else 3
  {}

  lemma RunBitsAre(c: SymbolCode, sym: nat, digits: seq<nat>, rest: bits)
    requires |digits| > 0
    ensures RunBits(c, sym, digits) + rest
         == SymbolBits(c, sym) + (LsbOf(digits[0], ExtraOf(sym)) + (RunBits(c, sym, digits[1..]) + rest))
  {
    hide SymbolBits, LsbOf, ExtraOf;
    var a, b, more := SymbolBits(c, sym), LsbOf(digits[0], ExtraOf(sym)), RunBits(c, sym, digits[1..]);
    Assoc(a, b + more, rest);
    Assoc(b, more, rest);
  }

  /** What is carried on behind one run symbol, and that two appends are one. */
  lemma RunGoesOn(p: Progress, sym: nat, n: nat, run: nat, more: nat)
    requires sym in {16, 17} && run > 0
    ensures var len := RepeatedLength(p, sym);
            var q := Append(p, len, n, p.prev, run);
            && q.prev == p.prev && q.run == run && CarriedOn(q, sym) == run && RepeatedLength(q, sym) == len
            && |q.done| == |p.done| + n && q.space == p.space - n * Taken(15, len)
            && Append(q, len, more, p.prev, run + more) == Append(p, len, n + more, p.prev, run + more)
  {
    hide Taken;
    var len := RepeatedLength(p, sym);
    assert p.done + Copies(len, n) + Copies(len, more) == p.done + Copies(len, n + more);
    Split(n, more, Taken(15, len));
  }
}
