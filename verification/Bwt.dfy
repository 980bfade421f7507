/** The forward Burrows-Wheeler transform: sort the rotations by either sorter and keep the last column. */
module Bwt {
  import opened Bits
  import opened Permutations
  import opened Rotations
  import SuffixSort
  import Sais
  import BwtWalk
  import opened BwtInverse

  const SAIS_MIN_LEN: nat := 4096
  const SAIS_MAX_DISTINCT: nat := 200

  /** Long blocks with few different bytes go to the linear-time sorter. */
  method ChooseSais(input: seq<byte>) returns (useSais: bool)
    ensures useSais <==> |input| >= 4096 && Occurring(input, 256) < 200
  {
    useSais := |input| >= SAIS_MIN_LEN;
    if useSais {
      var freq := new int[256](_ => 0);
      BwtWalk.CountBytes(input, freq);
      var distinct := 0;
      for c := 0 to 256
        invariant distinct == Occurring(input, c)
        invariant forall b :: 0 <= b < 256 ==> freq[b] == Equal(input, |input|, b)
      {
        EqualMeansIn(input, |input|, c);
        if freq[c] != 0 { distinct := distinct + 1; }
      }
      if distinct >= SAIS_MAX_DISTINCT { useSais := false; }
    }
  }

  /** How many different bytes below n occur. */
  function Occurring(input: seq<byte>, n: nat): nat {
    if n == 0 then 0 else Occurring(input, n - 1) + (if n - 1 in input then 1 else 0)
  }

  lemma {:induction false} EqualMeansIn(input: seq<byte>, m: nat, c: int)
    requires m <= |input|
    ensures Equal(input, m, c) > 0 <==> c in input[..m]
    ensures input[..|input|] == input
    decreases m
  {
    if m > 0 {
      EqualMeansIn(input, m - 1, c);
      assert input[..m] == input[..m - 1] + [input[m - 1]];
    }
  }

  /** A one-byte block is its own transform. */
  lemma OneByte(input: seq<byte>)
    requires |input| == 1
    ensures IsBwt(input, input, 0)
  {
    var sa := [0];
    assert RotationOrder(input, sa) && IsLastColumn(input, sa, input) && sa[0] == 0;
  }

  /** The byte before a rotation start. */
  lemma ByteBefore(n: nat, rot: nat)
    requires rot < n
    ensures (rot + n - 1) % n == Prev(n, rot)
  {
    if rot > 0 { DivModUnique(rot + n - 1, 1, n, rot - 1); }
  }

  /** Writes the last column of the sorted rotations; the result is the row of the unrotated block. */
  method Transform(input: seq<byte>, out: array<byte>) returns (primary: nat)
    requires out.Length == |input|
    modifies out
    ensures |input| > 0 ==> IsBwt(input, out[..], primary) && primary < |input|
    ensures |input| == 0 ==> primary == 0
  {
    primary := 0;
    var n := |input|;
    if n == 0 { return; }
    if n == 1 {
      out[0] := input[0];
      OneByte(input);
      assert out[..] == input;
      return;
    }
    var sa := new int[n];
    var useSais := ChooseSais(input);
    if useSais {
      Sais.BuildSuffixArraySais(input, sa);
    } else {
      SuffixSort.BuildSuffixArray(input, sa);
    }
    ghost var order := sa[..];
    ghost var first := IndexIn(order, n, 0);
    for i := 0 to n
      invariant sa[..] == order
      invariant forall k :: 0 <= k < i ==> out[k] == input[Prev(n, order[k])]
      invariant first < i ==> primary == first
    {
      var rot := sa[i];
      ByteBefore(n, rot);
      out[i] := input[(rot + n - 1) % n];
      if rot == 0 { primary := i; }
    }
    assert IsLastColumn(input, order, out[..]);
  }
}
