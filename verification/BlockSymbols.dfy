/** The coded symbols of a block: the encoder changes its table every fifty symbols, and so does the decoder. */
module BlockSymbols {
  import opened Bits
  import opened Canonical
  import opened DecodeTable
  import opened Rle2
  import opened BlockFormat

  /** Every symbol has a table and, in it, a code that fits. */
  ghost predicate Codable(tables: seq<lengths>, selectors: seq<byte>, syms: seq<nat>) {
    && |syms| <= 50 * |selectors|
    && Named(selectors, |tables|)
    && (forall t :: 0 <= t < |tables| ==> Usable(tables[t]))
    && (forall t, i :: 0 <= t < |tables| && 0 <= i < |syms| ==> syms[i] < |tables[t]| && tables[t][syms[i]] > 0)
    && CodesFit(tables, selectors, syms)
  }

  /** The code of symbol i in the table of its group fits its length. */
  ghost predicate CodeFitsAt(tables: seq<lengths>, selectors: seq<byte>, syms: seq<nat>, i: nat) {
    && i < |syms| && i / 50 < |selectors| && selectors[i / 50] < |tables|
    && var t := tables[selectors[i / 50]];
       syms[i] < |t| && Code(t, syms[i]) < Pow2(t[syms[i]])
  }

  /** Every symbol that occurs has a code that fits. */
  ghost predicate CodesFit(tables: seq<lengths>, selectors: seq<byte>, syms: seq<nat>) {
    forall i :: 0 <= i < |syms| ==> CodeFitsAt(tables, selectors, syms, i)
  }

  lemma GroupOf(i: nat, n: nat, groups: nat)
    requires i < n <= 50 * groups
    ensures i / 50 < groups
  {}

  function SymbolBits(tables: seq<lengths>, selectors: seq<byte>, syms: seq<nat>, i: nat): bits
    requires Codable(tables, selectors, syms) && i <= |syms|
    decreases |syms| - i
  {
    if i == |syms| then [] else
      GroupOf(i, |syms|, |selectors|);
      CodeBits(tables[selectors[i / 50]], syms[i]) + SymbolBits(tables, selectors, syms, i + 1)
  }

  /** Reads symbols with table selectors[g], of whose group `left` symbols are still to come, until the block ends. */
  function ReadSymbols(tables: seq<lengths>, selectors: seq<byte>, g: nat, left: nat, m: Machine, b: bits)
    : (p: Parsed<seq<byte>>)
    requires g < |selectors| && |m.list| > 0
    requires Named(selectors, |tables|)
    ensures p.Got? ==> |p.rest| <= |b|
    decreases |b|, if left == 0 then 1 else 0
  {
    if left == 0 then
      if g + 1 >= |selectors| then Reject else ReadSymbols(tables, selectors, g + 1, 50, m, b)
    else match Decode(tables[selectors[g]], b)
      case NoCode => Reject
      case Sym(s, rest) =>
        match Apply(m, s)
        case More(m') => ReadSymbols(tables, selectors, g, left - 1, m', rest)
        case End(out) => Got(out, rest)
        case Bad => Reject
        case Undefined => Parsed.Undefined
  }

  /** What the parser should answer for a run of the machine. */
  function Answer(r: Step, tail: bits): Parsed<seq<byte>> {
    match r
    case End(out) => Got(out, tail)
    case Bad => Reject
    case Undefined => Parsed.Undefined
    case More(_) => Reject
  }

  /** One coded symbol is read by the table of its group. */
  lemma ReadOne(tables: seq<lengths>, selectors: seq<byte>, syms: seq<nat>, i: nat, tail: bits)
    requires Codable(tables, selectors, syms) && i < |syms|
    ensures i / 50 < |selectors|
    ensures Decode(tables[selectors[i / 50]], SymbolBits(tables, selectors, syms, i) + tail)
         == Sym(syms[i], SymbolBits(tables, selectors, syms, i + 1) + tail)
  {
    GroupOf(i, |syms|, |selectors|);
    var t := tables[selectors[i / 50]];
    var more := SymbolBits(tables, selectors, syms, i + 1) + tail;
    assert SymbolBits(tables, selectors, syms, i) + tail == CodeBits(t, syms[i]) + more;
    assert CodeFitsAt(tables, selectors, syms, i);
    DecodeCode(t, syms[i], more);
  }

  lemma ApplyKeepsList(m: Machine, sym: nat)
    requires |m.list| > 0
    ensures Apply(m, sym).More? ==> |Apply(m, sym).m.list| == |m.list|
    ensures Apply(m, sym).End? ==> sym == |m.list| + 1
  {}

  /** The group counters after i symbols: either in the middle of group g or at its end. */
  lemma GroupCounters(i: nat, g: nat, left: nat, n: nat, groups: nat)
    requires i + left == 50 * (g + 1) && left <= 50 && i < n <= 50 * groups
    ensures left > 0 ==> g == i / 50
    ensures left == 0 ==> g + 1 == i / 50 && g + 1 < groups
  {}

  /** Position i, in the group with index g of which `left` symbols are to come, with only the last symbol ending. */
  ghost predicate At(tables: seq<lengths>, selectors: seq<byte>, syms: seq<nat>, i: nat, g: nat, left: nat, eob: nat) {
    && Codable(tables, selectors, syms) && i < |syms| && g < |selectors|
    && i + left == 50 * (g + 1) && left <= 50
    && forall k :: i <= k < |syms| - 1 ==> syms[k] != eob
  }

  lemma AtBounds(tables: seq<lengths>, selectors: seq<byte>, syms: seq<nat>, i: nat, g: nat, left: nat, eob: nat)
    requires At(tables, selectors, syms, i, g, left, eob)
    ensures i < |syms|
  {}

  /** Where the parser stands after one symbol or one change of group. */
  lemma AtNext(tables: seq<lengths>, selectors: seq<byte>, syms: seq<nat>, i: nat, g: nat, left: nat, eob: nat)
    requires At(tables, selectors, syms, i, g, left, eob)
    ensures left == 0 ==> At(tables, selectors, syms, i, g + 1, 50, eob)
    ensures left > 0 && i + 1 < |syms| ==> At(tables, selectors, syms, i + 1, g, left - 1, eob)
    ensures i + 1 < |syms| ==> syms[i] != eob
    ensures left > 0 ==> g == i / 50
  {
    GroupCounters(i, g, left, |syms|, |selectors|);
  }

  /** One step of the parser on the coded symbols. */
  lemma StepAt(tables: seq<lengths>, selectors: seq<byte>, syms: seq<nat>, i: nat, g: nat, left: nat, m: Machine,
               tail: bits)
    requires At(tables, selectors, syms, i, g, left, |m.list| + 1) && |m.list| > 0 && left > 0
    ensures var b, a := SymbolBits(tables, selectors, syms, i) + tail, Apply(m, syms[i]);
            && (a.More? ==> && |a.m.list| == |m.list|
                            && ReadSymbols(tables, selectors, g, left, m, b)
                               == ReadSymbols(tables, selectors, g, left - 1, a.m,
                                              SymbolBits(tables, selectors, syms, i + 1) + tail))
            && (a.End? ==> i + 1 == |syms| && ReadSymbols(tables, selectors, g, left, m, b) == Got(a.out, tail))
            && (a.Bad? ==> ReadSymbols(tables, selectors, g, left, m, b) == Reject)
            && (a.Undefined? ==> ReadSymbols(tables, selectors, g, left, m, b) == Parsed.Undefined)
  {
    AtNext(tables, selectors, syms, i, g, left, |m.list| + 1);
    ReadOne(tables, selectors, syms, i, tail);
    ApplyKeepsList(m, syms[i]);
    LastSymbolBits(tables, selectors, syms, tail);
    var b := SymbolBits(tables, selectors, syms, i) + tail;
    hide Decode, Apply, SymbolBits;
    NextSymbol(tables, selectors, g, left, m, b);
  }

  lemma GroupAt(tables: seq<lengths>, selectors: seq<byte>, syms: seq<nat>, i: nat, g: nat, m: Machine, tail: bits)
    requires At(tables, selectors, syms, i, g, 0, |m.list| + 1) && |m.list| > 0
    ensures At(tables, selectors, syms, i, g + 1, 50, |m.list| + 1)
    ensures ReadSymbols(tables, selectors, g, 0, m, SymbolBits(tables, selectors, syms, i) + tail)
         == ReadSymbols(tables, selectors, g + 1, 50, m, SymbolBits(tables, selectors, syms, i) + tail)
  {
    AtNext(tables, selectors, syms, i, g, 0, |m.list| + 1);
    NextGroup(tables, selectors, g, 0, m, SymbolBits(tables, selectors, syms, i) + tail);
  }

  lemma SymbolAt(tables: seq<lengths>, selectors: seq<byte>, syms: seq<nat>, i: nat, g: nat, left: nat, m: Machine,
                 tail: bits)
    requires At(tables, selectors, syms, i, g, left, |m.list| + 1) && |m.list| > 0 && left > 0
    requires !Run(m, syms[i..]).More?
    ensures var a, b := Apply(m, syms[i]), SymbolBits(tables, selectors, syms, i) + tail;
            && (!a.More? ==> ReadSymbols(tables, selectors, g, left, m, b) == Answer(Run(m, syms[i..]), tail))
            && (a.More? ==>
                  && At(tables, selectors, syms, i + 1, g, left - 1, |a.m.list| + 1) && |a.m.list| > 0
                  && Run(m, syms[i..]) == Run(a.m, syms[i + 1..])
                  && ReadSymbols(tables, selectors, g, left, m, b)
                     == ReadSymbols(tables, selectors, g, left - 1, a.m,
                                    SymbolBits(tables, selectors, syms, i + 1) + tail))
  {
    AtNext(tables, selectors, syms, i, g, left, |m.list| + 1);
    StepAt(tables, selectors, syms, i, g, left, m, tail);
    RunFrom(m, syms, i);
    AnswerIs(Run(m, syms[i..]), tail);
  }

  /** Reading the symbols behind position i runs the machine over them. */
  lemma {:induction false} ReadSymbolBits(tables: seq<lengths>, selectors: seq<byte>, syms: seq<nat>, i: nat,
                                          g: nat, left: nat, m: Machine, tail: bits)
    requires At(tables, selectors, syms, i, g, left, |m.list| + 1) && |m.list| > 0
    requires !Run(m, syms[i..]).More?
    ensures ReadSymbols(tables, selectors, g, left, m, SymbolBits(tables, selectors, syms, i) + tail)
         == Answer(Run(m, syms[i..]), tail)
    decreases |syms| - i, if left == 0 then 1 else 0
  {
    hide *;
    AtBounds(tables, selectors, syms, i, g, left, |m.list| + 1);
    if left == 0 {
      GroupAt(tables, selectors, syms, i, g, m, tail);
      ReadSymbolBits(tables, selectors, syms, i, g + 1, 50, m, tail);
    } else {
      SymbolAt(tables, selectors, syms, i, g, left, m, tail);
      var a := Apply(m, syms[i]);
      if a.More? { ReadSymbolBits(tables, selectors, syms, i + 1, g, left - 1, a.m, tail); }
    }
  }

  lemma AnswerIs(r: Step, tail: bits)
    ensures r.End? ==> Answer(r, tail) == Got(r.out, tail)
    ensures r.Bad? ==> Answer(r, tail) == Reject
    ensures r.Undefined? ==> Answer(r, tail) == Parsed.Undefined
  {}

  lemma LastSymbolBits(tables: seq<lengths>, selectors: seq<byte>, syms: seq<nat>, tail: bits)
    requires Codable(tables, selectors, syms)
    ensures SymbolBits(tables, selectors, syms, |syms|) + tail == tail
  {}

  lemma NextGroup(tables: seq<lengths>, selectors: seq<byte>, g: nat, left: nat, m: Machine, b: bits)
    requires g < |selectors| && |m.list| > 0 && Named(selectors, |tables|)
    ensures left == 0 && g + 1 < |selectors| ==>
              ReadSymbols(tables, selectors, g, left, m, b) == ReadSymbols(tables, selectors, g + 1, 50, m, b)
  {}

  lemma NextSymbol(tables: seq<lengths>, selectors: seq<byte>, g: nat, left: nat, m: Machine, b: bits)
    requires g < |selectors| && |m.list| > 0 && Named(selectors, |tables|)
    ensures var d := Decode(tables[selectors[g]], b);
            left > 0 && d.Sym? ==>
              var a := Apply(m, d.sym);
              && (a.More? ==> |a.m.list| > 0 && ReadSymbols(tables, selectors, g, left, m, b)
                                               == ReadSymbols(tables, selectors, g, left - 1, a.m, d.rest))
              && (a.End? ==> ReadSymbols(tables, selectors, g, left, m, b) == Got(a.out, d.rest))
              && (a.Bad? ==> ReadSymbols(tables, selectors, g, left, m, b) == Reject)
              && (a.Undefined? ==> ReadSymbols(tables, selectors, g, left, m, b) == Parsed.Undefined)
  {}

  lemma RunFrom(m: Machine, syms: seq<nat>, i: nat)
    requires i < |syms| && |m.list| > 0
    ensures var a := Apply(m, syms[i]);
            && (a.More? ==> |a.m.list| > 0 && Run(m, syms[i..]) == Run(a.m, syms[i + 1..]))
            && (!a.More? ==> Run(m, syms[i..]) == a)
            && (a.More? && i + 1 == |syms| ==> Run(m, syms[i..]).More?)
  {
    assert syms[i..][1..] == syms[i + 1..];
  }
}
