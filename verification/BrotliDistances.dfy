/** What Brotli's distance codes stand for (section 4 of RFC 7932): the four last distances and their neighbours, the
    direct codes, and the codes with postfix and extra bits, which reach every larger distance. */
module BrotliDistances {
  import opened Bits
  import opened LsbBits
  import opened BrotliCodes
  import opened BrotliBlock

  // ---------- the last distances ----------

  /** Codes 0 to 3 are the last distances themselves, 4 to 9 the last one and 10 to 15 the second last one, each with
      one less, one more, two less and so on. There are no extra bits. */
  function Recent(code: nat, last: ring): int
    requires code < 16
  {
    if code < 4 then last[code]
    else
      var k := (code - 4) % 6;
      last[(code - 4) / 6] + (if k % 2 == 0 then -1 else 1) * (k / 2 + 1)
  }

  /** A sum that is not positive is refused. */
  lemma RecentDistances(code: nat, last: ring, s: bits, ndirect: nat, npostfix: nat)
    requires code < 16
    ensures ReadDistance(code, s, ndirect, npostfix, last)
         == if Recent(code, last) > 0 then Some((Recent(code, last), s)) else None
  {}

  /** The list of distances used, from the four that a stream starts with; a repeated one is not listed again. */
  function History(distances: seq<int>): (h: seq<int>)
    ensures |h| >= 4
  {
    if |distances| == 0 then [16, 15, 11, 4]
    else
      var h, d := History(distances[..|distances| - 1]), distances[|distances| - 1];
      if h[|h| - 1] == d then h else h + [d]
  }

  function PushAll(distances: seq<int>): ring {
    if |distances| == 0 then FIRST_RING
    else Push(distances[|distances| - 1], PushAll(distances[..|distances| - 1]))
  }

  /** The ring holds the end of that list, so that codes 0 to 3 count backwards in it. */
  lemma {:induction false} RingIsHistory(distances: seq<int>, k: nat)
    requires k < 4
    ensures PushAll(distances)[k] == History(distances)[|History(distances)| - 1 - k]
    decreases |distances|
  {
    if |distances| > 0 {
      var before := distances[..|distances| - 1];
      RingIsHistory(before, k);
      RingIsHistory(before, 0);
      if k > 0 { RingIsHistory(before, k - 1); }
    }
  }

  // ---------- all other distances ----------

  /** The bucket of a number: the place of its highest bit, and the bit behind it. */
  function Bucket(w: nat): int
    requires w >= 4
  {
    2 * (Halvings(w, 2) - 1) + w / Pow2(Halvings(w, 2)) - 2
  }

  function BucketExtra(w: nat): nat
    requires w >= 4
  {
    w % Pow2(Halvings(w, 2))
  }

  /** Code and extra bits of a distance: up to ndirect by a code of its own; beyond, the low npostfix bits stand in the
      code, and the rest, four added to it, is cut behind its second highest bit. */
  function CodeOfDistance(distance: nat, ndirect: nat, npostfix: nat): DistanceCode
    requires distance > 0
  {
    if distance <= ndirect then DistanceCode(15 + distance, 0, 0)
    else
      var v, p := distance - ndirect - 1, Pow2(npostfix);
      var w := v / p + 4;
      BucketOf(w);
      MulMono(0, Bucket(w), p);
      DistanceCode(16 + ndirect + Bucket(w) * p + (v - ndirect) % p, BucketExtra(w), Halvings(w, 2))
  }

  lemma BucketOf(w: nat)
    requires w >= 4
    ensures var b := Bucket(w);
            && b >= 0 && b / 2 + 1 == Halvings(w, 2) && BucketExtra(w) < Pow2(b / 2 + 1)
            && (2 + b % 2) * Pow2(b / 2 + 1) - 4 + BucketExtra(w) == w - 4
            && (b < 48 <==> w < 0x4000000)
  {
    hide Pow2;
    Pow2Values();
    LargePowers();
    var e := Halvings(w, 2);
    Leading(w, 2, e);
    Pow2Add(2, 24);
    if e <= 24 {
      Pow2Mono(e, 24);
    } else {
      Pow2Mono(25, e);
      Pow2Add(1, 24);
    }
  }

  /** Taking the code apart again. */
  lemma CodeParts(b: nat, p: nat, ndirect: nat, v: nat)
    requires p > 0
    ensures var t := (v - ndirect) % p;
            && 0 <= t < p && (b * p + t) / p == b && (ndirect + b * p + t) % p == v % p
  {
    hide *;
    Remainder(v - ndirect, p);
    var q, t := (v - ndirect) / p, (v - ndirect) % p;
    Euclid(v - ndirect, p);
    QuotientIs(b, t, p);
    MulMono(0, b, p);
    Distribute(b, -q, p);
    Negated(q, p);
    SameRest(v, b - q, p);
  }

  lemma Remainder(x: int, p: int)
    requires p > 0
    ensures 0 <= x % p < p
  {}

  lemma Negated(q: int, p: int)
    ensures -q * p == -(q * p)
  {}

  lemma QuotientIs(b: nat, t: nat, p: nat)
    requires t < p
    ensures (b * p + t) / p == b && (b * p + t) % p == t
  {
    var x := b * p + t;
    DivModSplit(x, p);
    var q := x / p;
    if q < b { MulMono(q + 1, b, p); }
    if q > b { MulMono(b + 1, q, p); }
  }

  lemma Euclid(x: int, p: int)
    requires p > 0
    ensures x == x / p * p + x % p
  {}

  /** Adding a multiple of p does not change the remainder. */
  lemma SameRest(v: nat, k: int, p: int)
    requires p > 0 && v + k * p >= 0
    ensures (v + k * p) % p == v % p
  {
    hide *;
    Remainder(v, p);
    Euclid(v, p);
    var q := v / p + k;
    Distribute(v / p, k, p);
    if q < 0 { MulMono(q, -1, p); }
    QuotientIs(q, v % p, p);
  }

  lemma Distribute(a: int, b: int, p: int)
    ensures (a + b) * p == a * p + b * p
  {}

  /** Every distance is read back, whatever the parameters are. */
  lemma DistanceReadsBack(distance: nat, ndirect: nat, npostfix: nat, last: ring, tail: bits)
    requires distance > 0
    ensures var d := CodeOfDistance(distance, ndirect, npostfix);
            && d.extra < Pow2(d.extraBits)
            && ReadDistance(d.code, LsbOf(d.extra, d.extraBits) + tail, ndirect, npostfix, last)
               == Some((distance, tail))
  {
    hide *;
    if distance <= ndirect {
      DirectReadsBack(distance, ndirect, npostfix, last, tail);
    } else {
      BeyondParts(distance, ndirect, npostfix);
      var v := distance - ndirect - 1;
      BeyondReadsBack(v, (v - ndirect) % Pow2(npostfix), ndirect, npostfix, last, tail);
    }
  }

  lemma BeyondParts(distance: nat, ndirect: nat, npostfix: nat)
    requires distance > ndirect
    ensures var v, p, d := distance - ndirect - 1, Pow2(npostfix), CodeOfDistance(distance, ndirect, npostfix);
            var w, t := v / p + 4, (v - ndirect) % p;
            && 0 <= t < p && Bucket(w) >= 0 && (ndirect + Bucket(w) * p + t) % p == v % p
            && d.code == 16 + ndirect + Bucket(w) * p + t && d.extra == BucketExtra(w) < Pow2(d.extraBits)
            && d.extraBits == Halvings(w, 2)
  {
    hide *;
    var v, p := distance - ndirect - 1, Pow2(npostfix);
    CodeIs(distance, ndirect, npostfix);
    BucketOf(v / p + 4);
    CodeParts(Bucket(v / p + 4), p, ndirect, v);
  }

  lemma BeyondReadsBack(v: nat, t: nat, ndirect: nat, npostfix: nat, last: ring, tail: bits)
    requires t < Pow2(npostfix)
    requires var p := Pow2(npostfix);
             Bucket(v / p + 4) >= 0 && (ndirect + Bucket(v / p + 4) * p + t) % p == v % p
    ensures var w := v / Pow2(npostfix) + 4;
            ReadDistance(16 + ndirect + Bucket(w) * Pow2(npostfix) + t, LsbOf(BucketExtra(w), Halvings(w, 2)) + tail,
                         ndirect, npostfix, last) == Some((v + ndirect + 1, tail))
  {
    hide *;
    CodeReads(v / Pow2(npostfix) + 4, t, tail, ndirect, npostfix, last);
    PutTogether(v / Pow2(npostfix), v, Pow2(npostfix));
  }

  /** What a code in the bucket of w is read as. */
  lemma CodeReads(w: nat, t: nat, tail: bits, ndirect: nat, npostfix: nat, last: ring)
    requires w >= 4 && t < Pow2(npostfix)
    ensures ReadDistance(16 + ndirect + Bucket(w) * Pow2(npostfix) + t,
                         LsbOf(BucketExtra(w), Halvings(w, 2)) + tail, ndirect, npostfix, last)
         == Some(((w - 4) * Pow2(npostfix) + (ndirect + Bucket(w) * Pow2(npostfix) + t) % Pow2(npostfix) + ndirect + 1,
                  tail))
  {
    hide *;
    BucketOf(w);
    TakeWritten(BucketExtra(w), Halvings(w, 2), tail);
    BucketReads(Bucket(w), t, BucketExtra(w), LsbOf(BucketExtra(w), Halvings(w, 2)) + tail, tail, ndirect, npostfix,
                last);
  }

  lemma PutTogether(k: int, v: nat, p: int)
    requires p > 0 && k == v / p
    ensures k * p + v % p == v
  {
    Euclid(v, p);
  }

  lemma DirectReadsBack(distance: nat, ndirect: nat, npostfix: nat, last: ring, tail: bits)
    requires 0 < distance <= ndirect
    ensures CodeOfDistance(distance, ndirect, npostfix) == DistanceCode(15 + distance, 0, 0) && 0 < Pow2(0)
    ensures LsbOf(0, 0) + tail == tail
    ensures ReadDistance(15 + distance, tail, ndirect, npostfix, last) == Some((distance, tail))
  {}

  lemma CodeIs(distance: nat, ndirect: nat, npostfix: nat)
    requires distance > ndirect
    ensures var v, p := distance - ndirect - 1, Pow2(npostfix);
            var w := v / p + 4;
            CodeOfDistance(distance, ndirect, npostfix)
            == DistanceCode(16 + ndirect + Bucket(w) * p + (v - ndirect) % p, BucketExtra(w), Halvings(w, 2))
  {
    hide Bucket, BucketExtra, Halvings, Pow2;
  }

  /** What a code in bucket b is read as. */
  lemma BucketReads(b: nat, t: nat, extra: nat, s: bits, tail: bits, ndirect: nat, npostfix: nat, last: ring)
    requires t < Pow2(npostfix) && TakeBits(s, b / 2 + 1) == Some((extra, tail))
    ensures ReadDistance(16 + ndirect + b * Pow2(npostfix) + t, s, ndirect, npostfix, last)
         == Some((((2 + b % 2) * Pow2(b / 2 + 1) - 4 + extra) * Pow2(npostfix)
                  + (ndirect + b * Pow2(npostfix) + t) % Pow2(npostfix) + ndirect + 1, tail))
  {
    hide *;
    QuotientIs(b, t, Pow2(npostfix));
    MulMono(0, b, Pow2(npostfix));
    PlaceReads(b, b * Pow2(npostfix) + t, extra, s, tail, ndirect, npostfix, last);
  }

  lemma PlaceReads(b: nat, x: nat, extra: nat, s: bits, tail: bits, ndirect: nat, npostfix: nat, last: ring)
    requires x / Pow2(npostfix) == b && TakeBits(s, b / 2 + 1) == Some((extra, tail))
    ensures ReadDistance(16 + ndirect + x, s, ndirect, npostfix, last)
         == Some((((2 + b % 2) * Pow2(b / 2 + 1) - 4 + extra) * Pow2(npostfix) + (ndirect + x) % Pow2(npostfix)
                  + ndirect + 1, tail))
  {
    hide Pow2, TakeBits;
  }

  /** The code is in the alphabet exactly up to the distance that 26 bits reach. */
  lemma CodeInAlphabet(distance: nat, ndirect: nat, npostfix: nat)
    requires distance > 0
    ensures CodeOfDistance(distance, ndirect, npostfix).code < DistanceAlphabet(ndirect, npostfix)
       <==> distance <= ndirect + 0x3FF_FFFC * Pow2(npostfix)
  {
    hide *;
    var p := Pow2(npostfix);
    AlphabetIs(ndirect, npostfix);
    if distance <= ndirect {
      DirectReadsBack(distance, ndirect, npostfix, FIRST_RING, []);
      MulMono(0, 48, p);
      MulMono(0, 0x3FF_FFFC, p);
    } else {
      var v := distance - ndirect - 1;
      var w := v / p + 4;
      var b := Bucket(w);
      BucketOf(w);
      CodeIs(distance, ndirect, npostfix);
      CodeParts(b, p, ndirect, v);
      Bounded(b, (v - ndirect) % p, 48, p);
      Euclid(v, p);
      Bounded(v / p, v % p, 0x3FF_FFFC, p);
    }
  }

  lemma AlphabetIs(ndirect: nat, npostfix: nat)
    ensures DistanceAlphabet(ndirect, npostfix) == 16 + ndirect + 48 * Pow2(npostfix)
  {}

  lemma Bounded(b: nat, t: nat, top: nat, p: nat)
    requires t < p
    ensures b * p + t < top * p <==> b < top
  {
    if b < top { MulMono(b + 1, top, p); } else { MulMono(top, b, p); }
  }

  /** The RFC puts the low bits of the distance behind the direct ones into the code. The source reads the low bits of
      the code itself, which is the same exactly for numbers of direct codes that are multiples of the postfix range;
      the header makes them so. */
  lemma PostfixReadsBack(distance: nat, ndirect: nat, npostfix: nat, last: ring, tail: bits)
    requires distance > ndirect
    ensures var v, p := distance - ndirect - 1, Pow2(npostfix);
            var w := v / p + 4;
            ReadDistance(16 + ndirect + Bucket(w) * p + v % p, LsbOf(BucketExtra(w), Halvings(w, 2)) + tail, ndirect,
                         npostfix, last) == Some((distance, tail))
            <==> ndirect % p == 0
  {
    hide *;
    var v, p := distance - ndirect - 1, Pow2(npostfix);
    var w := v / p + 4;
    BucketOf(w);
    Remainder(v, p);
    CodeReads(w, v % p, tail, ndirect, npostfix, last);
    PutTogether(w - 4, v, p);
    RestSame(ndirect, Bucket(w), v % p, p);
  }

  lemma RestSame(n: nat, b: nat, t: nat, p: nat)
    requires t < p
    ensures (n + b * p + t) % p == t <==> n % p == 0
  {
    Euclid(n, p);
    var r := n % p;
    Distribute(n / p, b, p);
    if r + t < p {
      QuotientIs(n / p + b, r + t, p);
    } else {
      Distribute(n / p + b, 1, p);
      QuotientIs(n / p + b + 1, r + t - p, p);
    }
  }
}
