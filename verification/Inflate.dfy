/** Symbol-at-a-time DEFLATE decoding with two-level tables: the meaning that the fast loop must keep. */
module Inflate {
  import opened Bits
  import opened LsbBits
  import opened BackCopy

  const PRIMARY_BITS: nat := 11
  const PRIMARY_SIZE: nat := 2048

  /** A table entry: symbol or offset, number of bits, and the two flags. */
  datatype Entry = Entry(sym: nat, len: nat, literal: bool, subtable: bool)

  datatype Tables = Tables(litlen: seq<Entry>, dist: seq<Entry>)

  const LENGTH_BASE: seq<nat> := [
    3, 4, 5, 6, 7, 8, 9, 10, 11, 13, 15, 17, 19, 23, 27, 31, 35, 43, 51, 59, 67, 83, 99, 115, 131, 163, 195, 227, 258]
  const LENGTH_EXTRA: seq<nat> := [
    0, 0, 0, 0, 0, 0, 0, 0, 1, 1, 1, 1, 2, 2, 2, 2, 3, 3, 3, 3, 4, 4, 4, 4, 5, 5, 5, 5, 0]
  const DIST_BASE: seq<nat> := [
    1, 2, 3, 4, 5, 7, 9, 13, 17, 25, 33, 49, 65, 97, 129, 193, 257, 385, 513, 769, 1025, 1537, 2049, 3073, 4097, 6145,
    8193, 12289, 16385, 24577]
  const DIST_EXTRA: seq<nat> := [
    0, 0, 0, 0, 1, 1, 2, 2, 3, 3, 4, 4, 5, 5, 6, 6, 7, 7, 8, 8, 9, 9, 10, 10, 11, 11, 12, 12, 13, 13]

  /** An entry that a code leads to, by itself or through a second table. */
  predicate LitlenEnd(e: Entry) {
    e.len <= 15 && (e.literal || 256 <= e.sym <= 285)
  }

  predicate DistEnd(e: Entry) {
    e.len <= 15 && e.sym < 30
  }

  /** Every primary entry ends a code or points to a second table that lies in the array. Codes that the primary table
      decides have at most eleven bits, all others at most fifteen. */
  ghost predicate TableOk(table: seq<Entry>, end: Entry -> bool) {
    && |table| >= PRIMARY_SIZE
    && forall i :: 0 <= i < PRIMARY_SIZE ==>
         if table[i].subtable
         then table[i].len <= 4 && table[i].sym + Pow2(table[i].len) <= |table|
              && forall j :: table[i].sym <= j < table[i].sym + Pow2(table[i].len) ==> end(table[j])
         else end(table[i]) && table[i].len <= PRIMARY_BITS
  }

  ghost predicate TablesOk(t: Tables) {
    TableOk(t.litlen, LitlenEnd) && TableOk(t.dist, DistEnd)
  }

  /** The next n bits as a number, missing bits reading as zero. */
  function Peek(s: bits, n: nat): (v: nat)
    ensures v < Pow2(n)
  {
    var b := s[..Min(n, |s|)];
    NumberBound(b);
    Pow2Mono(|b|, n);
    NumberOf(b)
  }

  function Drop(s: bits, n: nat): bits { s[Min(n, |s|)..] }

  /** The entry that the next bits lead to. */
  ghost function Resolve(table: seq<Entry>, end: Entry -> bool, s: bits): (e: Entry)
    requires TableOk(table, end)
    ensures end(e)
  {
    var e := table[Peek(s, PRIMARY_BITS)];
    if e.subtable then table[e.sym + Peek(Drop(s, PRIMARY_BITS), e.len)] else e
  }

  datatype Symbol = Literal(b: byte) | EndOfBlock | Match(len: nat, dist: nat)

  /** Length, distance and number of bits behind the length symbol with this index. */
  ghost function MatchAt(t: Tables, s: bits, li: nat): (m: (nat, nat, nat))
    requires TablesOk(t) && li < 29
    ensures 3 <= m.0 <= 258 && m.1 > 0 && m.2 <= 33
  {
    LengthTable(li);
    var s1 := Drop(s, LENGTH_EXTRA[li]);
    var d := Resolve(t.dist, DistEnd, s1);
    DistTable(d.sym);
    (LENGTH_BASE[li] + Peek(s, LENGTH_EXTRA[li]),
     DIST_BASE[d.sym] + Peek(Drop(s1, d.len), DIST_EXTRA[d.sym]),
     LENGTH_EXTRA[li] + d.len + DIST_EXTRA[d.sym])
  }

  /** One symbol and the number of its bits. */
  ghost function ReadSymbol(t: Tables, s: bits): (r: (Symbol, nat))
    requires TablesOk(t)
    ensures r.1 <= 48
    ensures r.0.Match? ==> 3 <= r.0.len <= 258 && r.0.dist > 0
  {
    var e := Resolve(t.litlen, LitlenEnd, s);
    if e.literal then (Literal(e.sym % 256), e.len)
    else if e.sym == 256 then (EndOfBlock, e.len)
    else
      var m := MatchAt(t, Drop(s, e.len), e.sym - 257);
      (Match(m.0, m.1), e.len + m.2)
  }

  lemma LengthTable(i: nat)
    requires i < 29
    ensures |LENGTH_BASE| == |LENGTH_EXTRA| == 29 && LENGTH_EXTRA[i] <= 5
    ensures 3 <= LENGTH_BASE[i] && LENGTH_BASE[i] + Pow2(LENGTH_EXTRA[i]) - 1 <= 258
  {
    Pow2Values();
  }

  lemma DistTable(i: nat)
    requires i < 30
    ensures |DIST_BASE| == |DIST_EXTRA| == 30 && DIST_EXTRA[i] <= 13 && DIST_BASE[i] > 0
  {}

  datatype Status = Going | Ended | TooFar

  /** Decoding in progress: the bits ahead, the bytes written, and whether it goes on. */
  datatype Run = Run(rest: bits, out: seq<byte>, status: Status)

  /** One symbol. A distance that reaches before the first byte stops the run, its symbol being read already. */
  ghost function Step(t: Tables, r: Run): Run
    requires TablesOk(t)
  {
    var (sym, n) := ReadSymbol(t, r.rest);
    var rest := Drop(r.rest, n);
    match sym
    case Literal(b) => Run(rest, r.out + [b], Going)
    case EndOfBlock => Run(rest, r.out, Ended)
    case Match(len, dist) =>
      if dist > |r.out| then Run(rest, r.out, TooFar) else Run(rest, CopyBack(r.out, dist, len), Going)
  }

  /** k symbols, or as many as the run lasts. */
  ghost function Steps(t: Tables, r: Run, k: nat): Run
    requires TablesOk(t)
    decreases k
  {
    if k == 0 || r.status != Going then r else Steps(t, Step(t, r), k - 1)
  }

  lemma {:induction false} StepsAdd(t: Tables, r: Run, a: nat, b: nat)
    requires TablesOk(t)
    ensures Steps(t, r, a + b) == Steps(t, Steps(t, r, a), b)
    decreases a
  {
    hide Step, TablesOk;
    if a > 0 && r.status == Going { StepsAdd(t, Step(t, r), a - 1, b); }
  }

  lemma StepsOne(t: Tables, r: Run)
    requires TablesOk(t) && r.status == Going
    ensures Steps(t, r, 1) == Step(t, r)
  {
    assert Steps(t, Step(t, r), 0) == Step(t, r);
  }

  // ---------- a batch of literals ----------

  /** A literal of this length that the primary table decides. */
  predicate Plain(e: Entry, len: nat) {
    e.literal && !e.subtable && e.len == len
  }

  function Values(es: seq<Entry>): (b: seq<byte>)
    ensures |b| == |es| && forall i :: 0 <= i < |b| ==> b[i] == es[i].sym % 256
  {
    seq(|es|, i requires 0 <= i < |es| => es[i].sym % 256)
  }

  function Times(k: nat, len: nat): nat { k * len }

  lemma TimesNext(k: nat, len: nat)
    ensures Times(0, len) == 0 && Times(k + 1, len) == Times(k, len) + len
  {}

  lemma {:induction false} TimesMono(k: nat, n: nat, len: nat)
    requires k <= n
    ensures Times(k, len) <= Times(n, len)
    decreases n
  {
    if k < n {
      TimesNext(n - 1, len);
      TimesMono(k, n - 1, len);
    }
  }

  /** Entries found at equal strides, all of them literals of exactly that length. */
  ghost predicate Strided(t: Tables, s: bits, es: seq<Entry>, len: nat)
    requires TablesOk(t)
  {
    && |s| >= Times(|es|, len)
    && forall k :: 0 <= k < |es| ==>
         Plain(es[k], len) && es[k] == Primary(t, Drop(s, Times(k, len)))
  }

  /** The primary entry for the next bits. */
  ghost function Primary(t: Tables, s: bits): Entry
    requires TablesOk(t)
  {
    t.litlen[Peek(s, PRIMARY_BITS)]
  }

  lemma DropTwice(s: bits, a: nat, b: nat)
    requires a <= |s|
    ensures Drop(Drop(s, a), b) == Drop(s, a + b) && |Drop(s, a)| == |s| - a && Drop(s, 0) == s
  {}

  /** Such entries are what decoding one symbol after the other finds. */
  lemma {:induction false} Batch(t: Tables, s: bits, out: seq<byte>, es: seq<Entry>, len: nat)
    requires TablesOk(t) && Strided(t, s, es, len)
    ensures Steps(t, Run(s, out, Going), |es|) == Run(Drop(s, Times(|es|, len)), out + Values(es), Going)
    decreases |es|
  {
    hide *;
    if |es| == 0 {
      NoSteps(t, s, out, es, len);
    } else {
      StridedTail(t, s, es, len);
      FirstStep(t, s, out, es, len);
      Batch(t, Drop(s, len), out + [es[0].sym % 256], es[1..], len);
      FirstValue(es, out);
    }
  }

  lemma NoSteps(t: Tables, s: bits, out: seq<byte>, es: seq<Entry>, len: nat)
    requires TablesOk(t) && |es| == 0
    ensures Steps(t, Run(s, out, Going), |es|) == Run(Drop(s, Times(|es|, len)), out + Values(es), Going)
  {
    assert out + Values(es) == out && Drop(s, 0) == s;
  }

  lemma StridedTail(t: Tables, s: bits, es: seq<Entry>, len: nat)
    requires TablesOk(t) && |es| > 0 && Strided(t, s, es, len)
    ensures |s| >= len && Strided(t, Drop(s, len), es[1..], len)
    ensures Drop(Drop(s, len), Times(|es[1..]|, len)) == Drop(s, Times(|es|, len))
  {
    hide TablesOk, Primary, Plain, Times, Drop;
    var rest, more := Drop(s, len), es[1..];
    TimesNext(|more|, len);
    TimesMono(0, |more|, len);
    DropTwice(s, len, Times(|more|, len));
    forall k | 0 <= k < |more| ensures Plain(more[k], len) && more[k] == Primary(t, Drop(rest, Times(k, len))) {
      assert more[k] == es[k + 1];
      TimesNext(k, len);
      DropTwice(s, len, Times(k, len));
    }
  }

  lemma FirstStep(t: Tables, s: bits, out: seq<byte>, es: seq<Entry>, len: nat)
    requires TablesOk(t) && |es| > 0 && Strided(t, s, es, len) && |s| >= len
    ensures Steps(t, Run(s, out, Going), |es|) == Steps(t, Run(Drop(s, len), out + [es[0].sym % 256], Going), |es[1..]|)
  {
    hide TablesOk, Times, Step, Drop, Primary;
    TimesNext(0, len);
    DropTwice(s, 0, 0);
    assert es[0] == Primary(t, Drop(s, Times(0, len)));
    OnePlain(t, s, out, es[0], len);
  }

  lemma FirstValue(es: seq<Entry>, out: seq<byte>)
    requires |es| > 0
    ensures out + [es[0].sym % 256] + Values(es[1..]) == out + Values(es)
  {}

  lemma OnePlain(t: Tables, s: bits, out: seq<byte>, e: Entry, len: nat)
    requires TablesOk(t) && |s| >= len && Plain(e, len) && e == Primary(t, s)
    ensures Step(t, Run(s, out, Going)) == Run(Drop(s, len), out + [e.sym % 256], Going)
  {}
}
