/** The combined checksum of a stream: every block's checksum counts, rotated by how many blocks follow it. */
module CrcStream {
  import opened Bits
  import opened Crc
  import opened Stream

  /** r places on from place j, around the register. */
  function Around(j: nat, r: nat): (k: nat)
    ensures k < 32
  {
    (j + r) % 32
  }

  /** r places to the left around the register. */
  function RotateLeft(c: word, r: nat): (d: word)
    ensures forall j :: 0 <= j < 32 ==> d[j] == c[Around(j, r)]
  {
    seq(32, j requires 0 <= j < 32 => c[Around(j, r)])
  }

  /** The exclusive or of all. */
  function XorAll(ws: seq<word>): word {
    if |ws| == 0 then Zeros(32) else Xor(XorAll(ws[..|ws| - 1]), ws[|ws| - 1])
  }

  /** Bit by bit: a combined bit differs from the next bit of the running value exactly when the block's bit is set. */
  lemma CombineBit(combined: word, blockCrc: word, j: nat)
    requires j < 32
    ensures (Combine(combined, blockCrc)[j] != combined[(j + 1) % 32]) <==> blockCrc[j]
  {}

  lemma CombineIs(combined: word, blockCrc: word)
    ensures Combine(combined, blockCrc) == Xor(RotateLeft(combined, 1), blockCrc)
  {
    forall j | 0 <= j < 32 ensures Combine(combined, blockCrc)[j] == Xor(RotateLeft(combined, 1), blockCrc)[j] {
      CombineBit(combined, blockCrc, j);
    }
  }

  lemma RotateTwice(c: word, a: nat, b: nat)
    ensures RotateLeft(RotateLeft(c, a), b) == RotateLeft(c, a + b)
  {
    hide RotateLeft, Around;
    forall j | 0 <= j < 32 ensures RotateLeft(RotateLeft(c, a), b)[j] == RotateLeft(c, a + b)[j] {
      AroundTwice(j, b, a);
    }
  }

  lemma AroundTwice(j: nat, b: nat, a: nat)
    ensures Around(Around(j, b), a) == Around(j, a + b)
  {
    DivModSplit(j + b, 32);
    DivModSplit((j + b) % 32 + a, 32);
    DivModUnique(j + (a + b), (j + b) / 32 + ((j + b) % 32 + a) / 32, 32, ((j + b) % 32 + a) % 32);
  }

  lemma RotateXor(a: word, b: word, r: nat)
    ensures RotateLeft(Xor(a, b), r) == Xor(RotateLeft(a, r), RotateLeft(b, r))
  {}

  /** Only the rotation modulo 32 matters. */
  lemma RotateRound(c: word, r: nat)
    ensures RotateLeft(c, r % 32) == RotateLeft(c, r) && RotateLeft(c, 0) == c
  {
    hide RotateLeft, Around;
    var m := r % 32;
    forall j | 0 <= j < 32 ensures Around(j, m) == Around(j, r) && Around(j, 0) == j { AroundRound(j, r); }
    SameTurn(c, m, r);
    assert RotateLeft(c, 0) == c;
  }

  lemma SameTurn(c: word, m: nat, r: nat)
    requires forall j :: 0 <= j < 32 ==> Around(j, m) == Around(j, r)
    ensures RotateLeft(c, m) == RotateLeft(c, r)
  {
    hide RotateLeft, Around;
  }

  lemma AroundRound(j: nat, r: nat)
    ensures Around(j, r % 32) == Around(j, r) && (j < 32 ==> Around(j, 0) == j)
  {
    DivModSplit(r, 32);
    DivModSplit(j + r % 32, 32);
    DivModUnique(j + r, (j + r % 32) / 32 + r / 32, 32, (j + r % 32) % 32);
  }

  /** The checksums of n blocks, each rotated by the number of blocks behind it. */
  ghost function Rotated(parts: seq<Part>): (ws: seq<word>)
    ensures |ws| == |parts|
    ensures forall i :: 0 <= i < |ws| ==> ws[i] == RotateLeft(parts[i].block.crc, (|parts| - 1 - i) % 32)
  {
    seq(|parts|, i requires 0 <= i < |parts| => RotateLeft(parts[i].block.crc, (|parts| - 1 - i) % 32))
  }

  lemma {:induction false} CombinedLast(start: word, parts: seq<Part>)
    requires |parts| > 0
    ensures CombinedCrc(start, parts)
         == Combine(CombinedCrc(start, parts[..|parts| - 1]), parts[|parts| - 1].block.crc)
    decreases |parts|
  {
    hide Combine;
    var next := Combine(start, parts[0].block.crc);
    if |parts| == 1 {
      assert parts[1..] == [] && parts[..0] == [];
      assert CombinedCrc(next, []) == next;
    } else {
      CombinedLast(next, parts[1..]);
      assert parts[1..][..|parts| - 2] == parts[..|parts| - 1][1..];
    }
  }

  lemma {:induction false} RotateAll(ws: seq<word>, r: nat)
    ensures RotateLeft(XorAll(ws), r) == XorAll(seq(|ws|, i requires 0 <= i < |ws| => RotateLeft(ws[i], r)))
    decreases |ws|
  {
    var all := seq(|ws|, i requires 0 <= i < |ws| => RotateLeft(ws[i], r));
    if |ws| > 0 {
      var u := ws[..|ws| - 1];
      RotateAll(u, r);
      assert all[..|ws| - 1] == seq(|u|, i requires 0 <= i < |u| => RotateLeft(u[i], r));
      RotateXor(XorAll(u), ws[|ws| - 1], r);
    }
  }

  /** The checksum of the whole stream is the exclusive or of the rotated checksums of its blocks. */
  lemma {:induction false} StreamChecksum(parts: seq<Part>)
    ensures CombinedCrc(Zeros(32), parts) == XorAll(Rotated(parts))
    decreases |parts|
  {
    hide Combine, RotateLeft;
    if |parts| > 0 {
      var front := parts[..|parts| - 1];
      StreamChecksum(front);
      CombinedLast(Zeros(32), parts);
      CombineIs(XorAll(Rotated(front)), parts[|parts| - 1].block.crc);
      RotateAll(Rotated(front), 1);
      OneMoreBehind(parts);
    }
  }

  lemma RotatedAt(parts: seq<Part>, i: nat)
    requires i < |parts|
    ensures Rotated(parts)[i] == RotateLeft(parts[i].block.crc, |parts| - 1 - i)
  {
    hide RotateLeft;
    RotateRound(parts[i].block.crc, |parts| - 1 - i);
  }

  lemma OneMoreBehind(parts: seq<Part>)
    requires |parts| > 0
    ensures var ws := Rotated(parts[..|parts| - 1]);
            Rotated(parts) == seq(|ws|, i requires 0 <= i < |ws| => RotateLeft(ws[i], 1))
                + [parts[|parts| - 1].block.crc]
  {
    hide RotateLeft, Rotated;
    var n := |parts| - 1;
    var ws := Rotated(parts[..n]);
    forall i | 0 <= i < n ensures Rotated(parts)[i] == RotateLeft(ws[i], 1) {
      RotatedAt(parts, i);
      RotatedAt(parts[..n], i);
      RotateTwice(parts[i].block.crc, n - 1 - i, 1);
    }
    RotatedAt(parts, n);
    RotateRound(parts[n].block.crc, 0);
  }

  // ---------- the order of the blocks counts ----------

  /** Different running values stay different. */
  lemma CombineOneToOne(a: word, b: word, blockCrc: word)
    ensures Combine(a, blockCrc) == Combine(b, blockCrc) <==> a == b
  {
    if Combine(a, blockCrc) == Combine(b, blockCrc) {
      forall j | 0 <= j < 32 ensures a[j] == b[j] {
        var k := if j == 0 then 31 else j - 1;
        CombineBit(a, blockCrc, k);
        CombineBit(b, blockCrc, k);
      }
    }
  }

  lemma {:induction false} CombinedOneToOne(a: word, b: word, parts: seq<Part>)
    ensures CombinedCrc(a, parts) == CombinedCrc(b, parts) <==> a == b
    decreases |parts|
  {
    hide Combine;
    if |parts| > 0 {
      CombineOneToOne(a, b, parts[0].block.crc);
      CombinedOneToOne(Combine(a, parts[0].block.crc), Combine(b, parts[0].block.crc), parts[1..]);
    }
  }

  lemma {:induction false} CombinedConcat(start: word, a: seq<Part>, b: seq<Part>)
    ensures CombinedCrc(start, a + b) == CombinedCrc(CombinedCrc(start, a), b)
    decreases |a|
  {
    hide Combine;
    if |a| == 0 {
      assert a + b == b;
    } else {
      assert (a + b)[1..] == a[1..] + b;
      CombinedConcat(Combine(start, a[0].block.crc), a[1..], b);
    }
  }

  lemma Two(start: word, p: Part, q: Part)
    ensures CombinedCrc(start, [p, q]) == Combine(Combine(start, p.block.crc), q.block.crc)
  {
    hide Combine;
    var both := [p, q];
    assert both[1..] == [q] && [q][1..] == [];
    assert CombinedCrc(Combine(start, p.block.crc), [q])
        == CombinedCrc(Combine(Combine(start, p.block.crc), q.block.crc), []);
  }

  /** Two in a row give the same either way round exactly when they are equal or complements of each other. */
  lemma SwapTwo(c: word, a: word, b: word)
    ensures Combine(Combine(c, a), b) == Combine(Combine(c, b), a) <==> a == b || a == Xor(b, Ones(32))
  {
    hide Combine;
    var x, y := Combine(Combine(c, a), b), Combine(Combine(c, b), a);
    forall j | 0 <= j < 32
      ensures x[j] == y[j] <==> ((a[j] != b[j]) == (a[(j + 1) % 32] != b[(j + 1) % 32]))
    {
      var k := (j + 1) % 32;
      CombineBit(Combine(c, a), b, j);
      CombineBit(Combine(c, b), a, j);
      CombineBit(c, a, k);
      CombineBit(c, b, k);
    }
    if x == y {
      var d := Xor(a, b);
      forall j | 0 <= j < 31 ensures d[j] == d[j + 1] { assert x[j] == y[j]; }
      AllAlike(d);
      if d == Ones(32) { assert a == Xor(b, Ones(32)); } else { assert a == b; }
    }
  }

  lemma AllAlike(d: word)
    requires forall j :: 0 <= j < 31 ==> d[j] == d[j + 1]
    ensures d == Zeros(32) || d == Ones(32)
  {
    AlikeUpTo(d, 31);
  }

  lemma {:induction false} AlikeUpTo(d: word, n: nat)
    requires n < 32 && forall j :: 0 <= j < 31 ==> d[j] == d[j + 1]
    ensures forall j :: 0 <= j <= n ==> d[j] == d[0]
  {
    if n > 0 {
      AlikeUpTo(d, n - 1);
      assert d[n - 1] == d[n - 1 + 1];
    }
  }

  /** Exchanging two neighbouring blocks changes the checksum of the stream, unless their checksums are equal or
      complements of each other. */
  lemma ExchangeShows(front: seq<Part>, p: Part, q: Part, rest: seq<Part>)
    ensures CombinedCrc(Zeros(32), front + [p, q] + rest) == CombinedCrc(Zeros(32), front + [q, p] + rest)
            <==> p.block.crc == q.block.crc || p.block.crc == Xor(q.block.crc, Ones(32))
  {
    hide Combine, CombinedCrc;
    var c := CombinedCrc(Zeros(32), front);
    CombinedConcat(Zeros(32), front + [p, q], rest);
    CombinedConcat(Zeros(32), front + [q, p], rest);
    CombinedConcat(Zeros(32), front, [p, q]);
    CombinedConcat(Zeros(32), front, [q, p]);
    Two(c, p, q);
    Two(c, q, p);
    CombinedOneToOne(CombinedCrc(c, [p, q]), CombinedCrc(c, [q, p]), rest);
    SwapTwo(c, p.block.crc, q.block.crc);
  }
}
