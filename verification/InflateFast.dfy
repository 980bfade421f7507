/** The inner loop of the DEFLATE decoder: a 128-bit register, batches of literals and wide copies. It leaves exactly
    what decoding symbol by symbol leaves. */
module InflateFast {
  import opened Bits
  import opened LsbBits
  import opened BackCopy
  import opened Accumulator
  import opened Inflate

  const MARGIN: nat := 258
  const MIN_DECODE_BITS: nat := 56

  /** The bit reader whose state the loop takes over and gives back. */
  class BitReader {
    const src: seq<byte>
    var ptr: nat
    var bits_: word
    var bitCount: nat

    ghost predicate Valid()
      reads this
    {
      ptr <= |src| && bitCount <= 63 && Harmless(bits_, bitCount, src[ptr..])
    }

    /** The bits not consumed yet. */
    ghost function Rest(): bits
      requires ptr <= |src| && bitCount <= 63
      reads this
    {
      Ahead(bits_, bitCount, src[ptr..])
    }

    constructor (src: seq<byte>)
      ensures Valid() && this.src == src && Rest() == LsbStream(src)
    {
      this.src := src;
      ptr, bits_, bitCount := 0, Zeros(64), 0;
      new;
      assert src[0..] == src && Zeros(64)[..0] + LsbStream(src) == LsbStream(src);
    }

    /** Eight bytes at once; only whole bytes that fit are counted. */
    method RefillFast()
      requires Valid() && ptr + 8 <= |src|
      modifies this
      ensures Valid() && Rest() == old(Rest()) && bitCount >= 56
    {
      hide LsbStream, Ahead, Harmless, Or, Shl;
      var w := Load64(src, ptr);
      LoadWord(bits_, bitCount, src[ptr..], w, (63 - bitCount) / 8);
      LoadIsHarmless(bits_, bitCount, src[ptr..], w, (63 - bitCount) / 8);
      bits_ := Accumulator.Or(bits_, Shl(w, bitCount));
      var bytes := (63 - bitCount) / 8;
      assert src[ptr..][bytes..] == src[ptr + bytes..];
      ptr := ptr + bytes;
      bitCount := bitCount + 8 * bytes;
    }

    /** Byte by byte until 56 bits are pending or the input ends. */
    method RefillSafe()
      requires Valid()
      modifies this
      ensures Valid() && Rest() == old(Rest()) && (bitCount >= 56 || ptr == |src|)
    {
      hide LsbStream, Ahead, Harmless, Or, Shl;
      while bitCount < 56 && ptr < |src|
        invariant Valid() && Rest() == old(Rest())
      {
        var b := ByteWord(src[ptr]);
        OneByteLoad(bits_, bitCount, src[ptr..], b);
        assert src[ptr..][1..] == src[ptr + 1..];
        bits_ := Accumulator.Or(bits_, Shl(b, bitCount));
        ptr := ptr + 1;
        bitCount := bitCount + 8;
      }
    }

    /** Consumes pending bits that were peeked. */
    method ReadBits(count: nat) returns (v: nat)
      requires Valid() && count <= bitCount && count <= 32
      modifies this
      ensures Valid() && bitCount == old(bitCount) - count && ptr == old(ptr)
      ensures v == NumberOf(old(Rest())[..count]) && Rest() == old(Rest())[count..]
    {
      hide LsbStream, Harmless;
      v := Masked(bits_, count);
      assert bits_[..count] == Rest()[..count];
      Discard(bits_, bitCount, src[ptr..], count);
      bits_ := Shr(bits_, count);
      bitCount := bitCount - count;
    }
  }

  lemma LoadIsHarmless(lo: word, cnt: nat, bytes: seq<byte>, w: word, nb: nat)
    requires cnt <= 63 && |bytes| >= 8 && w == LsbStream(bytes[..8]) && nb == (63 - cnt) / 8
    requires Harmless(lo, cnt, bytes)
    ensures Harmless(Accumulator.Or(lo, Shl(w, cnt)), cnt + 8 * nb, bytes[nb..])
  {
    LoadWord(lo, cnt, bytes, w, nb);
  }

  // ---------- one pass of the loop ----------

  /** Numbers read off the register are numbers peeked from the bits ahead. */
  lemma FieldIsPeek(r: Register, off: nat, n: nat)
    requires r.Valid() && off + n <= r.cnt && off + n <= 32
    ensures r.Field(off, n) == Peek(Drop(r.Rest(), off), n) && |r.Rest()| >= r.cnt
  {
    ReadsField(r, off, n);
    assert Drop(r.Rest(), off)[..n] == r.Rest()[off..off + n];
  }

  lemma AtIsPeek(r: Register, off: nat)
    requires r.Valid() && off + PRIMARY_BITS <= r.cnt && off <= 117
    ensures r.At(off) == Peek(Drop(r.Rest(), off), PRIMARY_BITS) && |r.Rest()| >= r.cnt
  {
    Reads(r, off);
    assert Drop(r.Rest(), off)[..PRIMARY_BITS] == r.Rest()[off..off + PRIMARY_BITS];
  }

  /** Looks up the entry for the next bits, through a second table if need be. */
  method LookUp(r: Register, table: seq<Entry>, ghost end: Entry -> bool) returns (e: Entry, secondary: bool)
    requires r.Valid() && r.cnt >= 15 && TableOk(table, end)
    ensures e == Resolve(table, end, r.Rest()) && |r.Rest()| >= r.cnt
    ensures !secondary ==> e == table[Peek(r.Rest(), PRIMARY_BITS)] && !e.subtable && e.len <= PRIMARY_BITS
  {
    hide *;
    RegisterFacts(r);
    EntryIs(table, end, r.Rest());
    FieldIsPeek(r, 0, PRIMARY_BITS);
    DropTwice(r.Rest(), 0, 0);
    e := table[r.Field(0, PRIMARY_BITS)];
    secondary := e.subtable;
    if secondary {
      FieldIsPeek(r, PRIMARY_BITS, e.len);
      e := table[e.sym + r.Field(PRIMARY_BITS, e.len)];
    }
  }

  /** How the two tables lead to an entry. */
  lemma EntryIs(table: seq<Entry>, end: Entry -> bool, s: bits)
    requires TableOk(table, end)
    ensures Peek(s, PRIMARY_BITS) < |table| && PRIMARY_BITS == 11
    ensures var e := table[Peek(s, PRIMARY_BITS)];
            && (!e.subtable ==> Resolve(table, end, s) == e && e.len <= PRIMARY_BITS)
            && (e.subtable ==>
                 && e.len <= 4 && e.sym + Peek(Drop(s, PRIMARY_BITS), e.len) < |table|
                 && Resolve(table, end, s) == table[e.sym + Peek(Drop(s, PRIMARY_BITS), e.len)])
  {
    hide Peek, Drop;
    Pow2Values();
  }

  /** Base value and extra bits. */
  method ReadExtra(r: Register, base: nat, extra: nat) returns (v: nat)
    requires r.Valid() && extra <= r.cnt && extra <= 13
    modifies r
    ensures r.Valid() && r.cnt == old(r.cnt) - extra && r.pos == old(r.pos)
    ensures v == base + Peek(old(r.Rest()), extra) && |old(r.Rest())| >= extra && r.Rest() == old(r.Rest())[extra..]
  {
    v := base;
    FieldIsPeek(r, 0, extra);
    DropTwice(r.Rest(), 0, 0);
    if extra > 0 {
      v := v + r.Field(0, extra);
    } else {
      NoPeek(r.Rest());
    }
    r.Consume(extra);
  }

  lemma NoPeek(s: bits)
    ensures Peek(s, 0) == 0
  {}

  /** Length and distance behind a length symbol. */
  method ReadMatch(r: Register, t: Tables, sym: nat) returns (len: nat, dist: nat, ghost n: nat)
    requires r.Valid() && r.cnt >= 41 && TablesOk(t) && 257 <= sym <= 285
    modifies r
    ensures r.Valid() && r.pos == old(r.pos) && r.cnt == old(r.cnt) - n
    ensures (len, dist, n) == MatchAt(t, old(r.Rest()), sym - 257)
    ensures n <= |old(r.Rest())| && r.Rest() == Drop(old(r.Rest()), n)
  {
    hide *;
    RegisterFacts(r);
    ghost var s := r.Rest();
    var li := sym - 257;
    LengthTable(li);
    MatchIs(t, s, li);
    len := ReadExtra(r, LENGTH_BASE[li], LENGTH_EXTRA[li]);
    DropIs(s, LENGTH_EXTRA[li]);
    ghost var m;
    dist, m := ReadDistance(r, t);
    n := LENGTH_EXTRA[li] + m;
    DropTwice(s, LENGTH_EXTRA[li], m);
  }

  /** The distance code and its extra bits. */
  method ReadDistance(r: Register, t: Tables) returns (dist: nat, ghost n: nat)
    requires r.Valid() && r.cnt >= 28 && TablesOk(t)
    modifies r
    ensures r.Valid() && r.pos == old(r.pos) && r.cnt == old(r.cnt) - n
    ensures var d := Resolve(t.dist, DistEnd, old(r.Rest()));
            && d.sym < 30 && n == d.len + DIST_EXTRA[d.sym]
            && dist == DIST_BASE[d.sym] + Peek(Drop(old(r.Rest()), d.len), DIST_EXTRA[d.sym])
    ensures n <= |old(r.Rest())| && r.Rest() == Drop(old(r.Rest()), n)
  {
    hide *;
    RegisterFacts(r);
    ghost var s := r.Rest();
    DistIs(t, s);
    var d, secondary := LookUp(r, t.dist, DistEnd);
    r.Consume(d.len);
    DropIs(s, d.len);
    DistTable(d.sym);
    ghost var s2 := r.Rest();
    dist := ReadExtra(r, DIST_BASE[d.sym], DIST_EXTRA[d.sym]);
    DropIs(s2, DIST_EXTRA[d.sym]);
    n := d.len + DIST_EXTRA[d.sym];
    DropTwice(s, d.len, DIST_EXTRA[d.sym]);
  }

  lemma DistIs(t: Tables, s: bits)
    requires TablesOk(t)
    ensures TableOk(t.dist, DistEnd) && |DIST_BASE| == |DIST_EXTRA| == 30
    ensures Resolve(t.dist, DistEnd, s).sym < 30 && Resolve(t.dist, DistEnd, s).len <= 15
  {
    hide Resolve, TableOk;
  }

  lemma RegisterFacts(r: Register)
    requires r.Valid()
    ensures r.cnt <= 127 && r.pos <= |r.src|
  {}

  lemma MatchIs(t: Tables, s: bits, li: nat)
    requires TablesOk(t) && li < 29
    ensures |LENGTH_BASE| == |LENGTH_EXTRA| == 29 && |DIST_BASE| == |DIST_EXTRA| == 30 && TableOk(t.dist, DistEnd)
    ensures var s1 := Drop(s, LENGTH_EXTRA[li]);
            var d := Resolve(t.dist, DistEnd, s1);
            && d.sym < 30 && d.len <= 15
            && MatchAt(t, s, li) == (LENGTH_BASE[li] + Peek(s, LENGTH_EXTRA[li]),
                                     DIST_BASE[d.sym] + Peek(Drop(s1, d.len), DIST_EXTRA[d.sym]),
                                     LENGTH_EXTRA[li] + d.len + DIST_EXTRA[d.sym])
  {
    hide Peek, Drop, LENGTH_BASE, LENGTH_EXTRA, DIST_BASE, DIST_EXTRA, TableOk, Resolve;
    LengthTable(li);
    DistTable(Resolve(t.dist, DistEnd, Drop(s, LENGTH_EXTRA[li])).sym);
  }

  lemma DropIs(s: bits, n: nat)
    requires n <= |s|
    ensures Drop(s, n) == s[n..] && |Drop(s, n)| == |s| - n
  {}

  /** Stores bytes at the output position. */
  method Store(dst: array<byte>, out: nat, vals: seq<byte>)
    requires out + |vals| <= dst.Length
    modifies dst
    ensures dst[..out + |vals|] == old(dst[..out]) + vals
  {
    for i := 0 to |vals|
      invariant forall k :: 0 <= k < out ==> dst[k] == old(dst[k])
      invariant forall k :: out <= k < out + i ==> dst[k] == vals[k - out]
    {
      dst[out + i] := vals[i];
    }
  }

  /** The first m entries are literals of this length. */
  predicate AllPlain(es: seq<Entry>, m: nat, len: nat)
    requires m <= |es|
  {
    forall k :: 1 <= k < m ==> Plain(es[k], len)
  }

  /** Nine entries at equal strides, looked up ahead of their verification. */
  method LookAhead(r: Register, t: Tables, e0: Entry, stride: nat) returns (es: seq<Entry>)
    requires r.Valid() && TablesOk(t) && stride <= 15
    ensures |es| == 9 && es[0] == e0
    ensures stride <= PRIMARY_BITS && r.cnt >= 9 * PRIMARY_BITS ==>
              |r.Rest()| >= r.cnt && forall k :: 1 <= k < 9 ==> es[k] == Primary(t, Drop(r.Rest(), Times(k, stride)))
  {
    hide *;
    RegisterFacts(r);
    es := [e0];
    Sizes(t);
    AllForeseen(t, r.Rest(), es, stride);
    ghost var trusted := stride <= PRIMARY_BITS && r.cnt >= 9 * PRIMARY_BITS;
    for k := 1 to 9
      invariant |es| == k && es[0] == e0 && (trusted ==> Foreseen(t, r.Rest(), es, stride))
    {
      if trusted {
        TimesIs(k, stride);
        AtIsPeek(r, k * stride);
        OneMoreForeseen(t, r.Rest(), es, stride);
      }
      es := es + [t.litlen[r.At(k * stride)]];
    }
    AllForeseen(t, r.Rest(), es, stride);
    if r.cnt >= 9 * PRIMARY_BITS { FieldIsPeek(r, 0, 0); }
  }

  /** The entries behind the first are those at equal strides. */
  ghost predicate Foreseen(t: Tables, s: bits, es: seq<Entry>, stride: nat)
    requires TablesOk(t)
  {
    forall j :: 1 <= j < |es| ==> es[j] == Primary(t, Drop(s, Times(j, stride)))
  }

  lemma OneMoreForeseen(t: Tables, s: bits, es: seq<Entry>, stride: nat)
    requires TablesOk(t) && Foreseen(t, s, es, stride)
    ensures var next := Peek(Drop(s, Times(|es|, stride)), PRIMARY_BITS);
            next < |t.litlen| && Foreseen(t, s, es + [t.litlen[next]], stride)
  {
    hide Peek, Drop, Times, TablesOk, TableOk;
    PrimaryIs(t, Drop(s, Times(|es|, stride)));
  }

  lemma AllForeseen(t: Tables, s: bits, es: seq<Entry>, stride: nat)
    requires TablesOk(t)
    ensures |es| == 9 && Foreseen(t, s, es, stride) ==> forall k :: 1 <= k < 9 ==>
              es[k] == Primary(t, Drop(s, Times(k, stride)))
    ensures |es| == 1 ==> Foreseen(t, s, es, stride)
  {}

  lemma Sizes(t: Tables)
    requires TablesOk(t)
    ensures |t.litlen| >= PRIMARY_SIZE == Pow2(PRIMARY_BITS) && PRIMARY_BITS == DECODE_BITS == 11
  {
    Pow2Values();
  }

  /** Which of the batches of nine, six and four literals the entries allow. */
  method BatchSize(es: seq<Entry>, len: nat) returns (m: nat)
    requires |es| == 9
    ensures m in {0, 4, 6, 9} && (m > 0 ==> AllPlain(es, m, len))
  {
    if AllPlain(es, 9, len) { return 9; }
    if AllPlain(es, 6, len) { return 6; }
    if AllPlain(es, 4, len) { return 4; }
    return 0;
  }

  /** Writes and consumes a batch of literals when the entries behind the first literal allow one. */
  method TryBatch(r: Register, t: Tables, dst: array<byte>, out: nat, e0: Entry, prev: nat)
    returns (m: nat, prev': nat)
    requires r.Valid() && TablesOk(t) && r.cnt >= 9 * PRIMARY_BITS && out + 258 <= dst.Length && prev <= 15
    requires e0 == t.litlen[Peek(r.Rest(), PRIMARY_BITS)] && Plain(e0, e0.len) && e0.len <= PRIMARY_BITS
    modifies r, dst
    ensures r.Valid() && m in {0, 4, 6, 9} && prev' <= 15
    ensures m == 0 ==> r.Rest() == old(r.Rest()) && r.cnt == old(r.cnt) && dst[..out] == old(dst[..out])
    ensures m > 0 ==> Run(r.Rest(), dst[..out + m], Going) == Steps(t, Run(old(r.Rest()), old(dst[..out]), Going), m)
  {
    hide Primary, Steps, Strided, Harmless, Backed, LsbStream, TableOk, Peek;
    var ahead := LookAhead(r, t, e0, prev);
    var es;
    if e0.len == prev {
      es, prev' := ahead, prev;
    } else {
      prev' := e0.len;
      es := LookAhead(r, t, e0, e0.len);
    }
    m := BatchSize(es, e0.len);
    if m == 0 { return; }
    ghost var s, was := r.Rest(), dst[..out];
    BatchIsStrided(t, s, es, m, e0.len);
    Batch(t, s, was, es[..m], e0.len);
    StoreBatch(dst, out, Values(es[..m]));
    TimesIs(m, e0.len);
    r.Consume(m * e0.len);
  }

  /** A batch goes out in words: eight bytes and one, eight bytes of which six count, or four. */
  method StoreBatch(dst: array<byte>, out: nat, vals: seq<byte>)
    requires |vals| in {4, 6, 9} && out + 9 <= dst.Length
    modifies dst
    ensures dst[..out + |vals|] == old(dst[..out]) + vals
  {
    ghost var was := dst[..out];
    if |vals| == 9 {
      Store(dst, out, vals[..8]);
      Store(dst, out + 8, [vals[8]]);
      assert vals == vals[..8] + [vals[8]];
      Assoc(was, vals[..8], [vals[8]]);
    } else if |vals| == 6 {
      Store(dst, out, vals + [0, 0]);
      assert dst[..out + 6] == dst[..out + 8][..out + 6] == was + vals;
    } else {
      Store(dst, out, vals);
    }
  }

  lemma TimesIs(m: nat, len: nat)
    requires m <= 9 && len <= PRIMARY_BITS
    ensures Times(m, len) == m * len <= 9 * PRIMARY_BITS
  {
    MulMono(m, 9, len);
  }

  lemma BatchIsStrided(t: Tables, s: bits, es: seq<Entry>, m: nat, len: nat)
    requires TablesOk(t) && |es| == 9 && m <= 9 && |s| >= 9 * PRIMARY_BITS && len <= PRIMARY_BITS
    requires Plain(es[0], len) && es[0] == t.litlen[Peek(s, PRIMARY_BITS)] && AllPlain(es, m, len)
    requires forall k :: 1 <= k < 9 ==> es[k] == Primary(t, Drop(s, Times(k, len)))
    ensures Strided(t, s, es[..m], len)
  {
    hide TablesOk, TableOk, Peek, Times, Plain, Primary, Drop;
    TimesIs(m, len);
    TimesNext(0, len);
    DropTwice(s, 0, 0);
    PrimaryIs(t, s);
    forall k | 0 <= k < m ensures Plain(es[k], len) && es[k] == Primary(t, Drop(s, Times(k, len))) {}
  }

  lemma PrimaryIs(t: Tables, s: bits)
    requires TablesOk(t)
    ensures Peek(s, PRIMARY_BITS) < |t.litlen| && Primary(t, s) == t.litlen[Peek(s, PRIMARY_BITS)]
  {
    hide Peek;
  }

  /** How one pass ends: with another one, with a refill, or for good. */
  datatype Next = Again | Refill | Stop

  /** What follows once a symbol has been written. */
  function AfterSymbol(out: nat, outEnd: nat, cnt: nat): Next
    requires outEnd >= 258
  {
    if out > outEnd - MARGIN then Stop else if cnt >= MIN_DECODE_BITS then Again else Refill
  }

  /** One symbol alone, its entry being known. */
  method DecodeOne(r: Register, t: Tables, dst: array<byte>, out: nat, outEnd: nat, e: Entry)
    returns (out': nat, status: Status)
    requires r.Valid() && TablesOk(t) && r.cnt >= 56 && out + 258 <= outEnd <= dst.Length
    requires e == Resolve(t.litlen, LitlenEnd, r.Rest())
    modifies r, dst
    ensures r.Valid() && out <= out' <= outEnd && (status == Going ==> out < out')
    ensures Run(r.Rest(), dst[..out'], status) == Step(t, Run(old(r.Rest()), old(dst[..out]), Going))
  {
    hide Resolve, TableOk, MatchAt, Harmless, Backed, LsbStream, Drop, CopyBack;
    ghost var s, was := r.Rest(), dst[..out];
    r.Consume(e.len);
    FieldIsPeek(r, 0, 0);
    DropIs(s, e.len);
    if e.literal {
      dst[out] := e.sym % 256;
      assert dst[..out + 1] == was + [e.sym % 256];
      return out + 1, Going;
    }
    if e.sym == 256 { return out, Ended; }
    var len, dist;
    ghost var n;
    len, dist, n := ReadMatch(r, t, e.sym);
    DropTwice(s, e.len, n);
    if out + len > outEnd {
      assert false;
      return out, Ended;
    }
    if dist > out { return out, TooFar; }
    CopyMatch(dst, out, dist, len);
    return out + len, Going;
  }

  /** One pass: a batch when the first symbol is a plain literal and enough bits are pending, else one symbol. */
  method DecodePass(r: Register, t: Tables, dst: array<byte>, out: nat, outEnd: nat, prev: nat)
    returns (out': nat, prev': nat, status: Status, ghost k: nat)
    requires r.Valid() && TablesOk(t) && r.cnt >= 56 && prev <= 15
    requires out + 258 <= outEnd <= dst.Length
    modifies r, dst
    ensures r.Valid() && prev' <= 15 && out <= out' <= outEnd && (status == Going ==> out < out')
    ensures Run(r.Rest(), dst[..out'], status) == Steps(t, Run(old(r.Rest()), old(dst[..out]), Going), k)
  {
    hide Resolve, TableOk, Step, Steps, Peek, Harmless, Backed, LsbStream;
    var e0, secondary := LookUp(r, t.litlen, LitlenEnd);
    StepsOne(t, Run(r.Rest(), dst[..out], Going));
    k := 1;
    prev' := prev;
    if !secondary && e0.literal && r.cnt >= 9 * PRIMARY_BITS {
      var m;
      m, prev' := TryBatch(r, t, dst, out, e0, prev);
      if m > 0 { return out + m, prev', Going, m; }
    }
    out', status := DecodeOne(r, t, dst, out, outEnd, e0);
    if e0.literal { prev' := e0.len; }
  }

  /** What the loop has done so far: k symbols of the reference run. */
  ghost predicate Reached(t: Tables, s: bits, was: seq<byte>, k: nat, rest: bits, out: seq<byte>, status: Status)
    requires TablesOk(t)
  {
    Run(rest, out, status) == Steps(t, Run(s, was, Going), k)
  }

  lemma ReachedMore(t: Tables, s: bits, was: seq<byte>, k: nat, rest: bits, out: seq<byte>, m: nat, rest': bits,
                    out': seq<byte>, status: Status)
    requires TablesOk(t) && Reached(t, s, was, k, rest, out, Going)
    requires Run(rest', out', status) == Steps(t, Run(rest, out, Going), m)
    ensures Reached(t, s, was, k + m, rest', out', status)
  {
    StepsAdd(t, Run(s, was, Going), k, m);
  }

  /** The inner loop. Between two refills it decodes until fewer than 56 bits are pending; it stops at the end of the
      block, at a distance that reaches too far, and when the margin of the output or of the input is used up. */
  method Decode(r: Register, t: Tables, dst: array<byte>, outPtr: nat, outEnd: nat)
    returns (out: nat, status: Status, ghost k: nat)
    requires r.Valid() && TablesOk(t) && r.cnt <= 63 && outPtr + 258 <= outEnd <= dst.Length
    modifies r, dst
    ensures r.Valid() && outPtr <= out <= outEnd
    ensures Reached(t, old(r.Rest()), old(dst[..outPtr]), k, r.Rest(), dst[..out], status)
    ensures status == Going ==> out + 258 > outEnd || r.pos + 8 > |r.src|
  {
    hide Reached, TablesOk, Steps, Harmless, Backed, LsbStream, Ahead;
    ghost var s, was := r.Rest(), dst[..outPtr];
    out, status, k := outPtr, Going, 0;
    var prev := PRIMARY_BITS;
    ReachedStart(t, s, was);
    while true
      invariant r.Valid() && r.cnt <= 63 && prev <= 15 && outPtr <= out && out + 258 <= outEnd && status == Going
      invariant Reached(t, s, was, k, r.Rest(), dst[..out], Going)
      decreases outEnd - out
    {
      if r.pos + 8 > |r.src| { return; }
      r.Load1();
      r.Load2();
      var next := Again;
      ghost var out0 := out;
      while next == Again
        invariant r.Valid() && prev <= 15 && out0 <= out <= outEnd && (next != Again ==> out0 < out || next == Stop)
        invariant next == Again ==> r.cnt >= 56 && out + 258 <= outEnd && status == Going
        invariant next == Refill ==> r.cnt < 56 && out + 258 <= outEnd && status == Going
        invariant next == Stop && status == Going ==> out + 258 > outEnd
        invariant Reached(t, s, was, k, r.Rest(), dst[..out], status)
        decreases outEnd - out, if next == Again then 1 else 0
      {
        ghost var rest, written := r.Rest(), dst[..out];
        ghost var m;
        out, prev, status, m := DecodePass(r, t, dst, out, outEnd, prev);
        ReachedMore(t, s, was, k, rest, written, m, r.Rest(), dst[..out], status);
        k := k + m;
        next := if status == Going then AfterSymbol(out, outEnd, r.cnt) else Stop;
      }
      if next == Stop { return; }
    }
  }

  lemma ReachedStart(t: Tables, s: bits, was: seq<byte>)
    requires TablesOk(t)
    ensures Reached(t, s, was, 0, s, was, Going)
  {}

  /** Decodes from the bit reader into dst. The reader, the output and the answer are those of some number of symbols
      decoded one by one; the block's end is what makes the answer true. */
  method InflateFast(br: BitReader, dst: array<byte>, outPtr: nat, outEnd: nat, t: Tables)
    returns (ended: bool, out: nat, ghost status: Status, ghost k: nat)
    requires br.Valid() && TablesOk(t) && outPtr + 258 <= outEnd <= dst.Length
    requires br.bitCount > 56 ==> br.ptr > 0 && br.bits_[br.bitCount - 8..br.bitCount] == LsbOf(br.src[br.ptr - 1], 8)
    modifies br, dst
    ensures br.Valid() && br.bitCount <= 56 && outPtr <= out <= outEnd
    ensures Run(br.Rest(), dst[..out], status) == Steps(t, Run(old(br.Rest()), old(dst[..outPtr]), Going), k)
    ensures ended <==> status == Ended
    ensures status == Going ==> out + 258 > outEnd || |br.Rest()| < 192
  {
    hide TablesOk, Steps, Harmless, LsbStream, Ahead;
    HarmlessWide(br.bits_, br.bitCount, br.src[br.ptr..]);
    var r := new Register(br.src, br.ptr, br.bits_, br.bitCount);
    var st;
    out, st, k := Decode(r, t, dst, outPtr, outEnd);
    status, ended := st, st == Ended;
    RestSize(r);
    r.Rewind();
    br.ptr, br.bits_, br.bitCount := r.pos, r.lo, r.cnt;
  }

  lemma HarmlessWide(w: word, cnt: nat, bytes: seq<byte>)
    requires cnt <= 63 && Harmless(w, cnt, bytes)
    ensures Harmless(w + Zeros(64), cnt, bytes)
  {
    assert (w + Zeros(64))[..cnt] == w[..cnt];
  }

  lemma RestSize(r: Register)
    requires r.Valid()
    ensures |r.Rest()| == r.cnt + 8 * (|r.src| - r.pos) && r.cnt <= 127
  {}
}
