/** The second run-length layer over move-to-front ranks, and the decoder's fused machine that undoes both. */
module Rle2 {
  import opened Bits
  import Mtf
  import opened Rle1

  const BLOCK_MAX: nat := 900001
  const WORD: nat := 0x1_0000_0000

  const RUNA: nat := 0
  const RUNB: nat := 1

  // ---------- encoding ----------

  /** A run length in bijective base 2, least significant digit first; RUNA is one, RUNB is two. */
  function Digits(run: nat): (d: seq<nat>)
    ensures forall k :: 0 <= k < |d| ==> d[k] <= RUNB
  {
    if run == 0 then [] else [(run - 1) % 2] + Digits((run - 1) / 2)
  }

  /** The symbols for the ranks after a pending run of zeros, without the end-of-block symbol. */
  function Symbols(ranks: seq<byte>, run: nat): (s: seq<nat>)
    decreases |ranks|
  {
    if |ranks| == 0 then Digits(run)
    else if ranks[0] == 0 then Symbols(ranks[1..], run + 1)
    else Digits(run) + [ranks[0] as nat + 1] + Symbols(ranks[1..], 0)
  }

  /** The whole symbol stream of a block over an alphabet of nInUse bytes. */
  function Encode(ranks: seq<byte>, nInUse: nat): seq<nat> {
    Symbols(ranks, 0) + [nInUse + 1]
  }

  method EmitRun(syms: seq<nat>, run: nat) returns (syms': seq<nat>)
    ensures syms' == syms + Digits(run)
  {
    hide Digits;
    syms' := syms;
    LastDigit(run);
    if run == 0 { return; }
    var r := run;
    while r > 0
      invariant syms' + Digits(r) == syms + Digits(run)
    {
      NextDigit(r);
      r := r - 1;
      Assoc(syms', [r % 2], Digits(r / 2));
      syms' := syms' + [if r % 2 == 1 then RUNB else RUNA];
      r := r / 2;
    }
    LastDigit(r);
    assert syms' + [] == syms';
  }

  lemma NextDigit(r: nat)
    requires r > 0
    ensures Digits(r) == [(r - 1) % 2] + Digits((r - 1) / 2) && RUNA == 0 && RUNB == 1
  {}

  lemma LastDigit(r: nat)
    ensures r == 0 ==> Digits(r) == []
  {}

  lemma SymbolsStep(syms: seq<nat>, ranks: seq<byte>, i: nat, run: nat)
    requires i < |ranks|
    ensures ranks[i] == 0 ==> Symbols(ranks[i..], run) == Symbols(ranks[i + 1..], run + 1)
    ensures ranks[i] != 0 ==>
              syms + Symbols(ranks[i..], run)
              == (syms + Digits(run) + [ranks[i] as nat + 1]) + Symbols(ranks[i + 1..], 0)
  {
    var rest := ranks[i..];
    assert rest[1..] == ranks[i + 1..] && rest[0] == ranks[i];
    assert rest[0] == 0 ==> Symbols(rest, run) == Symbols(rest[1..], run + 1);
    assert rest[0] != 0 ==> Symbols(rest, run) == Digits(run) + [rest[0] as nat + 1] + Symbols(rest[1..], 0);
    hide *;
    FourParts(syms, Digits(run), [ranks[i] as nat + 1], Symbols(ranks[i + 1..], 0));
  }

  /** inUse marks the byte values of the block before coding; its size fixes the alphabet. */
  method EncodeBlock(ranks: seq<byte>, inUse: seq<bool>) returns (syms: seq<nat>, alphaSize: nat)
    requires |inUse| == 256
    ensures alphaSize == CountTrue(inUse) + 2
    ensures syms == Encode(ranks, CountTrue(inUse))
  {
    var nInUse := 0;
    for i := 0 to 256
      invariant nInUse == CountTrue(inUse[..i])
    {
      assert inUse[..i + 1][..i] == inUse[..i];
      if inUse[i] { nInUse := nInUse + 1; }
    }
    assert inUse[..256] == inUse;
    alphaSize := nInUse + 2;
    syms := [];
    var run := 0;
    assert ranks[0..] == ranks;
    for i := 0 to |ranks|
      invariant syms + Symbols(ranks[i..], run) == Symbols(ranks, 0)
    {
      SymbolsStep(syms, ranks, i, run);
      if ranks[i] == 0 {
        run := run + 1;
      } else {
        syms := EmitRun(syms, run);
        run := 0;
        syms := syms + [ranks[i] as nat + 1];
      }
    }
    syms := EmitRun(syms, run);
    syms := syms + [alphaSize - 1];
  }

  function CountTrue(b: seq<bool>): (n: nat)
    ensures n <= |b|
  {
    if |b| == 0 then 0 else CountTrue(b[..|b| - 1]) + (if b[|b| - 1] then 1 else 0)
  }

  // ---------- the decoder's machine ----------

  /** The move-to-front list, the bytes decoded so far, and the run that is being read. */
  datatype Machine = Machine(list: seq<byte>, out: seq<byte>, run: nat, mul: nat)

  /** More: go on. End: the end-of-block symbol was read. Bad: the block is rejected. Undefined: the 32-bit
      run counter wrapped past the check and the write leaves the buffer. */
  datatype Step = More(m: Machine) | End(out: seq<byte>) | Bad | Undefined

  /** Writes out the pending run. */
  function Flush(m: Machine): Step
    requires |m.list| > 0
  {
    if m.run == 0 then More(m)
    else if (|m.out| + m.run) % 0x1_0000_0000 > 900001 then Bad
    else if |m.out| + m.run > 900001 then Undefined
    else More(Machine(m.list, m.out + Repeat(m.list[0], m.run), 0, 1))
  }

  /** One decoded symbol. */
  function Apply(m: Machine, sym: nat): Step
    requires |m.list| > 0
  {
    if sym <= RUNB then More(m.(run := (m.run + (sym + 1) * m.mul) % 0x1_0000_0000, mul := 2 * m.mul % 0x1_0000_0000))
    else match Flush(m)
      case More(f) =>
        var rank := (sym - 1) % 256;
        if sym == |m.list| + 1 then End(f.out)
        else if rank >= |f.list| then Bad
        else if |f.out| >= 900001 then Bad
        else More(Machine(Mtf.MoveToFront(f.list, rank), f.out + [f.list[rank]], f.run, f.mul))
      case other => other
  }

  /** The machine run over a list of symbols; it stops at the first symbol that does not say More. */
  function Run(m: Machine, syms: seq<nat>): Step
    requires |m.list| > 0
    decreases |syms|
  {
    if |syms| == 0 then More(m)
    else match Apply(m, syms[0])
      case More(m') => assert |m'.list| == |m.list|; Run(m', syms[1..])
      case other => other
  }

  lemma {:induction false} RunConcat(m: Machine, s: seq<nat>, t: seq<nat>)
    requires |m.list| > 0
    ensures Run(m, s).More? ==> |Run(m, s).m.list| == |m.list|
    ensures Run(m, s + t) == (if Run(m, s).More? then Run(Run(m, s).m, t) else Run(m, s))
    decreases |s|
  {
    if |s| == 0 {
      assert s + t == t;
    } else {
      assert (s + t)[1..] == s[1..] + t;
      match Apply(m, s[0])
      case More(m') => RunConcat(m', s[1..], t);
      case other =>
    }
  }

  /** Reading the digits of a run length adds it up. */
  lemma {:induction false} RunDigits(m: Machine, r: nat)
    requires |m.list| > 0 && m.mul > 0 && m.run + r * m.mul < 0x1_0000_0000 / 2
    ensures Run(m, Digits(r)).More?
    ensures var m' := Run(m, Digits(r)).m; m' == m.(run := m.run + r * m.mul, mul := m'.mul)
    decreases r
  {
    if r > 0 {
      var d, q := (r - 1) % 2, (r - 1) / 2;
      assert r == d + 1 + 2 * q;
      DigitSum(d, q, m.mul);
      assert Digits(r) == [d] + Digits(q);
      var m' := m.(run := m.run + (d + 1) * m.mul, mul := 2 * m.mul);
      ApplyDigit(m, d, m');
      RunMore(m, d, Digits(q));
      assert m'.run + q * m'.mul == m.run + r * m.mul && |m'.list| > 0;
      hide *;
      RunDigits(m', q);
    }
  }

  lemma ApplyDigit(m: Machine, d: nat, m': Machine)
    requires |m.list| > 0 && d <= 1 && m.mul > 0 && m.run + (d + 1) * m.mul < 0x1_0000_0000 / 2
    requires m' == m.(run := m.run + (d + 1) * m.mul, mul := 2 * m.mul)
    ensures Apply(m, d) == More(m')
  {
    MulMono(1, d + 1, m.mul);
  }

  lemma RunMore(m: Machine, sym: nat, rest: seq<nat>)
    requires |m.list| > 0 && Apply(m, sym).More?
    ensures |Apply(m, sym).m.list| > 0 && Run(m, [sym] + rest) == Run(Apply(m, sym).m, rest)
  {
    assert ([sym] + rest)[1..] == rest;
  }

  lemma DigitSum(d: nat, q: nat, mul: nat)
    ensures (d + 1 + 2 * q) * mul == (d + 1) * mul + q * (2 * mul)
    ensures (d + 1) * mul >= mul && q * (2 * mul) >= 0
  {}

  /** A machine between two runs. */
  ghost predicate Idle(m: Machine) {
    |m.list| > 0 && m.run == 0 && m.mul == 1
  }

  /** What the machine should make of a pending run and the ranks after it. */
  function Decoded(list: seq<byte>, ranks: seq<byte>, run: nat): seq<byte>
    requires |list| > 0 && Mtf.Below(ranks, |list|)
  {
    Repeat(list[0], run) + Mtf.Unranks(list, ranks)
  }

  lemma RunOne(m: Machine, sym: nat)
    requires |m.list| > 0
    ensures Run(m, [sym]) == Apply(m, sym)
  {
    match Apply(m, sym)
    case More(m') => assert Run(m', []) == More(m');
    case other =>
  }

  /** A symbol after a run first writes the run. */
  lemma ApplyAfterRun(m: Machine, f: Machine, run: nat, sym: nat)
    requires Idle(m) && |m.out| + run < 0x1_0000_0000 / 2 && sym > RUNB
    requires f == m.(run := run, mul := f.mul) && (run == 0 ==> f.mul == 1)
    ensures |m.out| + run <= 900001 ==>
              Apply(f, sym) == Apply(m.(out := m.out + Repeat(m.list[0], run)), sym)
    ensures run > 0 && |m.out| + run > 900001 ==> Apply(f, sym) == Bad
  {
    var g := m.(out := m.out + Repeat(m.list[0], run));
    assert Flush(g) == More(g);
    if run == 0 { assert m.out + Repeat(m.list[0], 0) == m.out; }
    assert |m.out| + run <= 900001 ==> Flush(f) == More(g);
  }

  /** Reading a run and then the symbol after it: the run is written first. */
  lemma RunThenSymbol(m: Machine, run: nat, sym: nat)
    requires Idle(m) && |m.out| + run < 0x1_0000_0000 / 2 && sym > RUNB
    ensures |m.out| + run <= 900001 ==>
              Run(m, Digits(run) + [sym]) == Apply(m.(out := m.out + Repeat(m.list[0], run)), sym)
    ensures run > 0 && |m.out| + run > 900001 ==> Run(m, Digits(run) + [sym]) == Bad
  {
    RunDigits(m, run);
    RunConcat(m, Digits(run), [sym]);
    var f := Run(m, Digits(run)).m;
    if run == 0 { assert Digits(0) == [] && f == m; }
    RunOne(f, sym);
    ApplyAfterRun(m, f, run, sym);
  }

  /** The bytes coded by a run of zero ranks and the ranks after it. */
  lemma DecodedStep(list: seq<byte>, ranks: seq<byte>, run: nat)
    requires |list| > 0 && |ranks| > 0 && Mtf.Below(ranks, |list|)
    ensures ranks[0] == 0 ==> Decoded(list, ranks, run) == Decoded(list, ranks[1..], run + 1)
    ensures ranks[0] != 0 ==>
              var list' := Mtf.MoveToFront(list, ranks[0]);
              Decoded(list, ranks, run) == Repeat(list[0], run) + [list[ranks[0]]] + Decoded(list', ranks[1..], 0)
  {
    if ranks[0] == 0 {
      assert Mtf.MoveToFront(list, 0) == list;
      assert Repeat(list[0], run + 1) == Repeat(list[0], run) + [list[0]];
    } else {
      assert Repeat(Mtf.MoveToFront(list, ranks[0])[0], 0) == [];
    }
  }

  lemma ApplyLiteral(g: Machine, rank: nat)
    requires Idle(g) && 0 < rank < |g.list| <= 256
    ensures Apply(g, rank + 1)
         == if |g.out| >= 900001 then Bad
            else More(Machine(Mtf.MoveToFront(g.list, rank), g.out + [g.list[rank]], 0, 1))
  {
    assert Flush(g) == More(g);
    assert (rank + 1 - 1) % 256 == rank;
  }

  /** The machine after a run and a literal. */
  function AfterLiteral(m: Machine, run: nat, rank: nat): Machine
    requires 0 < rank < |m.list|
  {
    Machine(Mtf.MoveToFront(m.list, rank), m.out + Repeat(m.list[0], run) + [m.list[rank]], 0, 1)
  }

  lemma RunLiteral(m: Machine, run: nat, rank: nat, rest: seq<nat>)
    requires Idle(m) && 0 < rank < |m.list| <= 256 && |m.out| + run < 0x1_0000_0000 / 2 && |m.out| <= 900001
    ensures Run(m, (Digits(run) + [rank + 1]) + rest)
         == if |m.out| + run < 900001 then Run(AfterLiteral(m, run, rank), rest) else Bad
  {
    RunConcat(m, Digits(run) + [rank + 1], rest);
    RunThenSymbol(m, run, rank + 1);
    ApplyLiteral(m.(out := m.out + Repeat(m.list[0], run)), rank);
  }

  lemma RunEnd(m: Machine, run: nat)
    requires Idle(m) && |m.list| <= 256 && |m.out| <= 900001 && |m.out| + run < 0x1_0000_0000 / 2
    ensures Run(m, Digits(run) + [|m.list| + 1])
         == if |m.out| + run <= 900001 then End(m.out + Repeat(m.list[0], run)) else Bad
  {
    RunThenSymbol(m, run, |m.list| + 1);
    var g := m.(out := m.out + Repeat(m.list[0], run));
    assert Flush(g) == More(g);
  }

  /** The machine reads a whole block back. With too many bytes for the decoder's buffer it says Bad instead. */
  lemma {:induction false} RunSymbols(m: Machine, ranks: seq<byte>, run: nat)
    requires Idle(m) && |m.list| <= 256 && |m.out| <= 900001
    requires Mtf.Below(ranks, |m.list|)
    requires |m.out| + run + |ranks| < 0x1_0000_0000 / 2
    ensures Run(m, Symbols(ranks, run) + [|m.list| + 1])
         == if |m.out| + run + |ranks| <= 900001 then End(m.out + Decoded(m.list, ranks, run)) else Bad
    decreases |ranks|
  {
    hide *;
    var eob := |m.list| + 1;
    IdleFacts(m, ranks);
    SymbolsCases(ranks, run, eob);
    if |ranks| == 0 {
      DecodedNone(m.list, ranks, run);
      RunEnd(m, run);
    } else if ranks[0] == 0 {
      DecodedStep(m.list, ranks, run);
      RunSymbols(m, ranks[1..], run + 1);
    } else {
      var g := AfterLiteral(m, run, ranks[0]);
      var rest := Symbols(ranks[1..], 0) + [eob];
      AfterLiteralIs(m, run, ranks[0]);
      RunLiteral(m, run, ranks[0], rest);
      if |m.out| + run < 900001 {
        RunSymbols(g, ranks[1..], 0);
        DecodedStep(m.list, ranks, run);
        FourParts(m.out, Repeat(m.list[0], run), [m.list[ranks[0]]], Decoded(g.list, ranks[1..], 0));
      }
    }
  }

  lemma IdleFacts(m: Machine, ranks: seq<byte>)
    requires Idle(m) && Mtf.Below(ranks, |m.list|)
    ensures |m.list| > 0
    ensures |ranks| > 0 ==> ranks[0] < |m.list| && Mtf.Below(ranks[1..], |m.list|)
  {}

  lemma AfterLiteralIs(m: Machine, run: nat, rank: nat)
    requires Idle(m) && 0 < rank < |m.list|
    ensures var g := AfterLiteral(m, run, rank);
            && Idle(g) && |g.list| == |m.list| && |g.out| == |m.out| + run + 1
            && g.list == Mtf.MoveToFront(m.list, rank)
            && g.out == m.out + Repeat(m.list[0], run) + [m.list[rank]]
  {}

  lemma FourParts<T>(a: seq<T>, b: seq<T>, c: seq<T>, d: seq<T>)
    ensures (a + b + c) + d == a + (b + c + d)
  {}

  lemma SymbolsCases(ranks: seq<byte>, run: nat, eob: nat)
    ensures |ranks| == 0 ==> Symbols(ranks, run) + [eob] == Digits(run) + [eob]
    ensures |ranks| > 0 && ranks[0] == 0 ==> Symbols(ranks, run) + [eob] == Symbols(ranks[1..], run + 1) + [eob]
    ensures |ranks| > 0 && ranks[0] != 0 ==>
              Symbols(ranks, run) + [eob] == (Digits(run) + [ranks[0] as nat + 1]) + (Symbols(ranks[1..], 0) + [eob])
  {
    if |ranks| > 0 && ranks[0] != 0 {
      Assoc(Digits(run) + [ranks[0] as nat + 1], Symbols(ranks[1..], 0), [eob]);
    }
  }

  lemma DecodedNone(list: seq<byte>, ranks: seq<byte>, run: nat)
    requires |list| > 0 && |ranks| == 0
    ensures Decoded(list, ranks, run) == Repeat(list[0], run)
  {}

  /** The machine before the first symbol. */
  function Start(list: seq<byte>): Machine {
    Machine(list, [], 0, 1)
  }

  lemma EncodeFromStart(list: seq<byte>, data: seq<byte>)
    requires |list| > 0 && Mtf.Covers(list, data)
    ensures var m, ranks := Start(list), Mtf.Ranks(list, data);
            && Idle(m) && m.list == list && |m.out| == 0 && Mtf.Below(ranks, |list|)
            && Encode(ranks, |list|) == Symbols(ranks, 0) + [|m.list| + 1]
            && m.out + Decoded(list, ranks, 0) == data
  {
    Mtf.UnranksRanks(list, data);
  }

  /** Move-to-front and run-length coding of a block, undone by the machine: for every block over the bytes in
      use that fits the decoder's buffer the machine ends with the block; every longer block is rejected. */
  lemma RunEncode(list: seq<byte>, data: seq<byte>)
    requires |list| > 0 && Mtf.Covers(list, data) && |data| < 0x1_0000_0000 / 2
    ensures Run(Start(list), Encode(Mtf.Ranks(list, data), |list|))
         == if |data| <= 900001 then End(data) else Bad
  {
    assert |list| <= 256;
    hide *;
    EncodeFromStart(list, data);
    RunSymbols(Start(list), Mtf.Ranks(list, data), 0);
  }

  // ---------- sizes ----------

  lemma {:induction false} DigitsSize(run: nat)
    ensures |Digits(run)| <= run
  {
    if run > 0 { DigitsSize((run - 1) / 2); }
  }

  /** No more symbols than bytes, plus the end-of-block symbol. */
  lemma {:induction false} SymbolsSize(ranks: seq<byte>, run: nat)
    ensures |Symbols(ranks, run)| <= |ranks| + run
    decreases |ranks|
  {
    DigitsSize(run);
    if |ranks| > 0 {
      SymbolsSize(ranks[1..], if ranks[0] == 0 then run + 1 else 0);
    }
  }

  /** All symbols are in the alphabet and only the last one ends the block. */
  lemma {:induction false} SymbolsInAlphabet(ranks: seq<byte>, run: nat, n: nat)
    requires n >= 1 && Mtf.Below(ranks, n)
    ensures forall k :: 0 <= k < |Symbols(ranks, run)| ==> Symbols(ranks, run)[k] < n + 1
    decreases |ranks|
  {
    if |ranks| > 0 {
      SymbolsInAlphabet(ranks[1..], if ranks[0] == 0 then run + 1 else 0, n);
    }
  }
}
