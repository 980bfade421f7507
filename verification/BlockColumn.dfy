/** The first phase of the decoder: coded symbols become the transformed bytes and their counts, in one loop. */
module BlockColumn {
  import opened Bits
  import opened BitIo
  import opened Permutations
  import opened Canonical
  import opened DecodeTable
  import opened Rle2
  import opened BlockFormat
  import opened BlockSymbols
  import Mtf

  /** How a stage of the decoder ends. Lost: the code would now step outside one of its buffers. */
  datatype Status = Going | Done | Failed | Lost

  /** The loop's state: recency list, bytes written, their counts and the pending run. */
  class Column {
    const ll: array<byte>
    const mtf: Mtf.State
    const counts: array<int>
    var nblock: nat
    var run: nat
    var mul: nat

    ghost predicate Shaped()
      reads this, mtf, mtf.sym
    {
      && mtf.Valid() && ll.Length >= 900001 && counts.Length == 256 && counts != ll as object
      && mtf.sym != ll && counts != mtf.sym as object
    }

    ghost predicate Valid()
      reads this, ll, mtf, mtf.sym, counts
    {
      && Shaped() && nblock <= 900001
      && forall c :: 0 <= c < 256 ==> counts[c] == Equal(ll[..nblock], nblock, c)
    }

    /** The abstract machine in the same state. */
    ghost function Model(): (m: Machine)
      requires Shaped() && nblock <= 900001
      reads this, ll, mtf, mtf.sym
      ensures |m.list| == mtf.n > 0
    {
      Machine(mtf.List(), ll[..nblock], run, mul)
    }

    constructor (ll: array<byte>, mtf: Mtf.State)
      requires ll.Length >= 900001 && mtf.Valid() && mtf.sym != ll
      ensures Valid() && Model() == Start(mtf.List()) && fresh(counts) && this.ll == ll && this.mtf == mtf
    {
      var none := new int[256](_ => 0);
      this.ll, this.mtf, counts := ll, mtf, none;
      nblock, run, mul := 0, 0, 1;
    }

    /** Writes cnt copies behind the column. */
    method Append(c: byte, cnt: nat)
      requires Valid() && nblock + cnt <= 900001
      modifies `nblock, ll, counts
      ensures Valid() && nblock == old(nblock) + cnt && ll[..nblock] == old(ll[..nblock]) + Repeat(c, cnt)
    {
      ghost var before := ll[..nblock];
      for k := 0 to cnt
        invariant nblock == old(nblock) && (forall i :: 0 <= i < nblock ==> ll[i] == before[i])
        invariant forall i :: nblock <= i < nblock + k ==> ll[i] == c
        invariant counts[..] == old(counts[..])
      {
        ll[nblock + k] := c;
      }
      assert ll[..nblock + cnt] == before + Repeat(c, cnt);
      forall d | 0 <= d < 256
        ensures Equal(ll[..nblock + cnt], nblock + cnt, d) == counts[d] + (if d == c as int then cnt else 0)
      {
        EqualRepeat(before, c, cnt, d);
      }
      counts[c] := counts[c] + cnt;
      nblock := nblock + cnt;
    }

    /** Writes out the pending run. */
    method FlushRun() returns (s: Status)
      requires Valid()
      modifies this, ll, counts
      ensures mtf.List() == old(mtf.List())
      ensures match Flush(old(Model()))
              case More(m) => s == Going && Valid() && Model() == m
              case Undefined => s == Lost
              case _ => s == Failed
    {
      if run == 0 { return Going; }
      if (nblock + run) % WORD > BLOCK_MAX { return Failed; }
      if nblock + run > BLOCK_MAX { return Lost; }
      Append(mtf.sym[0], run);
      run, mul := 0, 1;
      return Going;
    }

    /** One decoded symbol: a digit of a run, a byte or the end of the block. */
    method Feed(sym: nat) returns (s: Status)
      requires Valid()
      modifies this, ll, counts, mtf.sym
      ensures match Apply(old(Model()), sym)
              case More(m) => s == Going && Valid() && Model() == m
              case End(out) => s == Done && Valid() && ll[..nblock] == out
              case Bad => s == Failed
              case Undefined => s == Lost
    {
      hide Equal, Mtf.MoveToFront;
      if sym <= RUNB {
        run := (run + (sym + 1) * mul) % WORD;
        mul := 2 * mul % WORD;
        return Going;
      }
      s := FlushRun();
      if s != Going { return; }
      if sym == mtf.n + 1 { return Done; }
      var rank := (sym - 1) % 256;
      if rank >= mtf.n { return Failed; }
      ghost var before := ll[..nblock];
      var uc := mtf.Decode(rank);
      assert ll[..nblock] == before;
      if nblock >= BLOCK_MAX { return Failed; }
      assert Repeat(uc, 1) == [uc];
      Append(uc, 1);
      return Going;
    }
  }

  lemma {:induction false} EqualPrefix(a: seq<int>, b: seq<int>, m: nat, c: int)
    requires m <= |a| && m <= |b| && a[..m] == b[..m]
    ensures Equal(a, m, c) == Equal(b, m, c)
  {
    if m > 0 {
      assert a[..m][m - 1] == b[..m][m - 1];
      assert a[..m][..m - 1] == a[..m - 1] && b[..m][..m - 1] == b[..m - 1];
      EqualPrefix(a, b, m - 1, c);
    }
  }

  lemma {:induction false} EqualRepeat(s: seq<byte>, c: byte, n: nat, d: int)
    ensures Equal(s + Repeat(c, n), |s| + n, d) == Equal(s, |s|, d) + (if d == c as int then n else 0)
    decreases n
  {
    var all := s + Repeat(c, n);
    if n == 0 {
      assert all == s;
    } else {
      EqualRepeat(s, c, n - 1, d);
      EqualPrefix(all, s + Repeat(c, n - 1), |s| + n - 1, d);
    }
  }

  // ---------- the loop ----------

  ghost function Parts(tabs: seq<Table>): set<object> {
    set k, o | 0 <= k < |tabs| && o in tabs[k].Repr :: o
  }

  /** The decode tables belong to these code lengths. */
  ghost predicate Ready(tabs: seq<Table>, lens: seq<lengths>)
    reads Parts(tabs)
  {
    |tabs| == |lens| && forall k :: 0 <= k < |tabs| ==>
        tabs[k] in tabs[k].Repr && tabs[k].Valid() && tabs[k].lens == lens[k]
  }

  ghost predicate Apart(objects: set<object>, tabs: seq<Table>) {
    objects !! Parts(tabs)
  }

  /** How the loop's end corresponds to the parser's answer. */
  ghost predicate Answers(p: Parsed<seq<byte>>, s: Status, column: seq<byte>, rest: bits) {
    match p
    case Got(c, r) => s == Done && column == c && rest == r
    case Reject => s == Failed
    case Undefined => s == Lost
  }

  /** One turn of the parser, as the loop needs it. */
  lemma Turn(lens: seq<lengths>, sel: seq<byte>, g: nat, left: nat, m: Machine, b: bits)
    requires g < |sel| && |m.list| > 0 && Named(sel, |lens|)
    ensures var now, d := ReadSymbols(lens, sel, g, left, m, b), Decode(lens[sel[g]], b);
            && (left == 0 && g + 1 >= |sel| ==> now == Reject)
            && (left == 0 && g + 1 < |sel| ==> now == ReadSymbols(lens, sel, g + 1, 50, m, b))
            && (left > 0 && d.NoCode? ==> now == Reject)
            && (left > 0 && d.Sym? ==>
                 && |d.rest| < |b|
                 && match Apply(m, d.sym)
                    case More(m') => |m'.list| > 0 && now == ReadSymbols(lens, sel, g, left - 1, m', d.rest)
                    case End(out) => now == Got(out, d.rest)
                    case Bad => now == Reject
                    case Undefined => now == Parsed.Undefined)
  {
    NextGroup(lens, sel, g, left, m, b);
    NextSymbol(lens, sel, g, left, m, b);
  }

  lemma ReadyCount(tabs: seq<Table>, lens: seq<lengths>)
    requires Ready(tabs, lens)
    ensures |tabs| == |lens|
  {}

  lemma TableReady(tabs: seq<Table>, lens: seq<lengths>, sel: seq<byte>, g: nat, objects: set<object>)
    requires Ready(tabs, lens) && Named(sel, |tabs|) && g < |sel| && Apart(objects, tabs)
    ensures var k := sel[g];
            k < |tabs| == |lens| && tabs[k].Valid() && tabs[k].lens == lens[k] && objects !! tabs[k].Repr
  {
    forall o | o in tabs[sel[g]].Repr ensures o in Parts(tabs) {}
  }

  /** One coded symbol, decoded and fed to the column. */
  method ReadOneSymbol(br: Reader, cur: Table, col: Column) returns (s: Status)
    requires cur.Valid() && br.Valid() && col.Valid()
    requires {br, col, col.ll, col.counts, col.mtf.sym} !! cur.Repr
    modifies br, col, col.ll, col.counts, col.mtf.sym
    ensures br.Valid()
    ensures var d := Decode(cur.lens, old(br.Rest()));
            && (d.NoCode? ==> s == Failed)
            && (d.Sym? ==>
                 match Apply(old(col.Model()), d.sym)
                 case More(m) => s == Going && col.Valid() && col.Model() == m && br.Rest() == d.rest
                 case End(out) => s == Done && col.Valid() && col.ll[..col.nblock] == out && br.Rest() == d.rest
                 case Bad => s == Failed
                 case Undefined => s == Lost)
  {
    hide Decode, Apply, Equal, Usable, Bounds, ListedUpTo, FastTable, BitsOf, BytesBits;
    br.Refill();
    var sym := cur.DecodeHot(br);
    if sym < 0 { return Failed; }
    s := col.Feed(sym);
  }

  /** Reads symbols until the block ends, fifty with each selected table. */
  method ReadColumn(br: Reader, tabs: seq<Table>, ghost lens: seq<lengths>, selectors: array<byte>, nSelectors: nat,
                    col: Column)
    returns (s: Status)
    requires 0 < nSelectors <= selectors.Length && Named(selectors[..nSelectors], |tabs|) && Ready(tabs, lens)
    requires br.Valid() && col.Valid() && selectors != col.ll && selectors != col.mtf.sym
    requires Apart({br, col, col.ll, col.counts, col.mtf.sym}, tabs)
    modifies br, col, col.ll, col.counts, col.mtf.sym
    ensures br.Valid() && (s == Done ==> col.Valid())
    ensures Answers(ReadSymbols(lens, selectors[..nSelectors], 0, 50, old(col.Model()), old(br.Rest())),
                    s, if s == Done then col.ll[..col.nblock] else [], br.Rest())
  {
    hide ReadSymbols, Decode, Apply, Equal, Usable, Bounds, ListedUpTo, FastTable, BitsOf, BytesBits, Ready, Named;
    ghost var sel := selectors[..nSelectors];
    ReadyCount(tabs, lens);
    ghost var goal := ReadSymbols(lens, sel, 0, 50, col.Model(), br.Rest());
    var g: nat, gRem: nat := 0, GROUP;
    while true
      invariant br.Valid() && col.Valid() && Ready(tabs, lens) && selectors[..nSelectors] == sel
      invariant g < nSelectors && gRem <= 50
      invariant ReadSymbols(lens, sel, g, gRem, col.Model(), br.Rest()) == goal
      decreases |br.Rest()|
    {
      Turn(lens, sel, g, gRem, col.Model(), br.Rest());
      if gRem == 0 {
        g := g + 1;
        if g >= nSelectors { return Failed; }
        gRem := GROUP;
        Turn(lens, sel, g, gRem, col.Model(), br.Rest());
      }
      assert selectors[g] == sel[g];
      TableReady(tabs, lens, sel, g, {br, col, col.ll, col.counts, col.mtf.sym});
      var cur := tabs[selectors[g]];
      s := ReadOneSymbol(br, cur, col);
      gRem := gRem - 1;
      if s != Going { return; }
    }
  }
}
