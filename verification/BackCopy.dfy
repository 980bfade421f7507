/** Copying a match out of the bytes already written: the byte-by-byte meaning (section 3.2.3 of RFC 1951) and the two
    copy routines that move larger pieces. */
module BackCopy {
  import opened Bits

  /** Appends len bytes, each the one dist places before it. */
  function CopyBack(s: seq<byte>, dist: nat, len: nat): (r: seq<byte>)
    requires 0 < dist <= |s|
    ensures |r| == |s| + len && s <= r
    decreases len
  {
    if len == 0 then s else CopyBack(s + [s[|s| - dist]], dist, len - 1)
  }

  /** Every appended byte equals the one dist places before it, and that says it all. */
  lemma {:induction false} CopyBackIs(s: seq<byte>, dist: nat, len: nat, r: seq<byte>)
    requires 0 < dist <= |s| && |r| == |s| + len && s <= r
    requires forall k :: |s| <= k < |r| ==> r[k] == r[k - dist]
    ensures r == CopyBack(s, dist, len)
    decreases len
  {
    if len > 0 {
      var s' := s + [s[|s| - dist]];
      assert r[|s|] == r[|s| - dist] == s[|s| - dist];
      assert s' <= r;
      CopyBackIs(s', dist, len - 1, r);
    }
  }

  /** memcpy of n bytes between places that do not overlap. */
  method MemCpy(dst: array<byte>, to: nat, from: nat, n: nat)
    requires from + n <= to && to + n <= dst.Length
    modifies dst
    ensures forall k :: 0 <= k < dst.Length && !(to <= k < to + n) ==> dst[k] == old(dst[k])
    ensures forall k :: to <= k < to + n ==> dst[k] == old(dst[k - to + from])
  {
    for i := 0 to n
      invariant forall k :: 0 <= k < dst.Length && !(to <= k < to + i) ==> dst[k] == old(dst[k])
      invariant forall k :: to <= k < to + i ==> dst[k] == old(dst[k - to + from])
    {
      dst[to + i] := dst[from + i];
    }
  }

  method MemSet(dst: array<byte>, to: nat, b: byte, n: nat)
    requires to + n <= dst.Length
    modifies dst
    ensures forall k :: 0 <= k < dst.Length && !(to <= k < to + n) ==> dst[k] == old(dst[k])
    ensures forall k :: to <= k < to + n ==> dst[k] == b
  {
    for i := 0 to n
      invariant forall k :: 0 <= k < dst.Length && !(to <= k < to + i) ==> dst[k] == old(dst[k])
      invariant forall k :: to <= k < to + i ==> dst[k] == b
    {
      dst[to + i] := b;
    }
  }

  /** The bytes up to `end` repeat those dist places before from `out` on. */
  ghost predicate Repeats(d: seq<byte>, out: nat, dist: nat, end: nat) {
    end <= |d| && dist <= out && forall k :: out <= k < end ==> d[k] == d[k - dist]
  }

  /** Copies dist bytes and then ever larger pieces of what has been copied. */
  method CopyDoubling(dst: array<byte>, out: nat, dist: nat, len: nat)
    requires 0 < dist <= out && dist <= len && out + len <= dst.Length
    modifies dst
    ensures dst[..out] == old(dst[..out]) && Repeats(dst[..], out, dist, out + len)
    ensures forall k :: out + len <= k < dst.Length ==> dst[k] == old(dst[k])
  {
    MemCpy(dst, out, out - dist, dist);
    var filled := dist;
    ghost var turns := 1;
    while filled < len
      invariant filled <= len && (filled < len ==> filled == turns * dist) && turns > 0
      invariant forall k :: 0 <= k < out ==> dst[k] == old(dst[k])
      invariant forall k :: out + len <= k < dst.Length ==> dst[k] == old(dst[k])
      invariant Repeats(dst[..], out, dist, out + filled)
    {
      ghost var before := dst[..];
      var chunk := if filled < len - filled then filled else len - filled;
      MemCpy(dst, out + filled, out, chunk);
      Extend(before, dst[..], out, dist, filled, turns, chunk);
      Twice(turns, dist);
      filled := filled + chunk;
      turns := 2 * turns;
    }
  }

  lemma Twice(t: nat, d: nat)
    ensures t * d + t * d == 2 * t * d
  {}

  /** What repeats from its start repeats every multiple of dist further on. */
  lemma {:induction false} RepeatsFar(d: seq<byte>, out: nat, dist: nat, end: nat, turns: nat, k: nat)
    requires 0 < dist && Repeats(d, out, dist, end) && out <= k + dist && k + turns * dist < end
    ensures k + turns * dist >= 0 && d[k + turns * dist] == d[k]
    decreases turns
  {
    if turns > 0 {
      OneLess(turns, dist);
      RepeatsFar(d, out, dist, end, turns - 1, k);
    } else {
      assert k + turns * dist == k;
    }
  }

  lemma OneLess(t: nat, d: nat)
    requires t > 0
    ensures t * d == (t - 1) * d + d && (t - 1) * d >= 0
  {}

  /** A copy of the repeated part, appended a multiple of dist further on, still repeats. */
  lemma Extend(a: seq<byte>, b: seq<byte>, out: nat, dist: nat, filled: nat, turns: nat, chunk: nat)
    requires 0 < dist && Repeats(a, out, dist, out + filled) && filled == turns * dist && turns > 0
    requires chunk <= filled && |b| == |a| >= out + filled + chunk
    requires forall k :: 0 <= k < out + filled ==> b[k] == a[k]
    requires forall k :: out + filled <= k < out + filled + chunk ==> b[k] == a[k - filled]
    ensures Repeats(b, out, dist, out + filled + chunk)
  {
    forall k | out + filled <= k < out + filled + chunk ensures b[k] == b[k - dist] {
      var j := k - filled;
      OneLess(turns, dist);
      if j < out + dist {
        // The byte dist before k is the last round of what was there.
        RepeatsFar(a, out, dist, out + filled, turns - 1, j);
        if j - dist >= 0 { RepeatsFar(a, out, dist, out + filled, turns, j - dist); }
      }
    }
  }

  /** From repeating bytes to the byte-by-byte copy. */
  lemma RepeatsIsCopy(was: seq<byte>, d: seq<byte>, out: nat, dist: nat, len: nat)
    requires 0 < dist <= out <= |was| && out + len <= |d| && d[..out] == was[..out] && Repeats(d, out, dist, out + len)
    ensures d[..out + len] == CopyBack(was[..out], dist, len)
  {
    var r := d[..out + len];
    assert r[..out] == was[..out];
    CopyBackIs(was[..out], dist, len, r);
  }

  /** One 16-byte load and store. */
  method Move16(dst: array<byte>, to: nat, from: nat)
    requires from + 16 <= to && to + 16 <= dst.Length
    modifies dst
    ensures forall k :: 0 <= k < dst.Length && !(to <= k < to + 16) ==> dst[k] == old(dst[k])
    ensures forall k :: to <= k < to + 16 ==> dst[k] == old(dst[k - to + from])
  {
    MemCpy(dst, to, from, 16);
  }

  /** The copy of inflate_fast on x86. The short cases move 16 or 32 bytes, whatever the length. */
  method CopyMatch(dst: array<byte>, out: nat, dist: nat, len: nat)
    requires 0 < dist <= out && out + len <= dst.Length && out + 32 <= dst.Length
    modifies dst
    ensures dst[..out + len] == CopyBack(old(dst[..out]), dist, len)
    ensures forall k :: out + len <= k < dst.Length && out + 32 <= k ==> dst[k] == old(dst[k])
  {
    ghost var was := dst[..];
    if len <= 16 && dist >= 16 {
      Move16(dst, out, out - dist);
    } else if len <= 32 && dist >= 32 {
      Move16(dst, out, out - dist);
      Move16(dst, out + 16, out - dist + 16);
    } else if len <= dist {
      MemCpy(dst, out, out - dist, len);
    } else if dist == 1 {
      MemSet(dst, out, dst[out - 1], len);
    } else {
      CopyDoubling(dst, out, dist, len);
    }
    RepeatsIsCopy(was, dst[..], out, dist, len);
  }

  /** The copy of the Brotli decoder. */
  method CopyMatchBytes(dst: array<byte>, outPos: nat, distance: nat, len: nat)
    requires 0 < distance <= outPos && outPos + len <= dst.Length
    modifies dst
    ensures dst[..outPos + len] == CopyBack(old(dst[..outPos]), distance, len)
    ensures dst[outPos + len..] == old(dst[outPos + len..])
  {
    ghost var was := dst[..];
    if distance == 1 {
      MemSet(dst, outPos, dst[outPos - 1], len);
    } else if distance >= len {
      MemCpy(dst, outPos, outPos - distance, len);
    } else {
      CopyDoubling(dst, outPos, distance, len);
    }
    RepeatsIsCopy(was, dst[..], outPos, distance, len);
  }
}
