/** Move-to-front coding over the bytes in use. */
module Mtf {
  import opened Bits

  ghost predicate Distinct(list: seq<byte>) {
    forall i, j :: 0 <= i < j < |list| ==> list[i] != list[j]
  }

  /** The first index of c. */
  function IndexOf(list: seq<byte>, c: byte): (r: nat)
    requires c in list
    ensures r < |list| && list[r] == c && forall k :: 0 <= k < r ==> list[k] != c
  {
    if list[0] == c then 0 else 1 + IndexOf(list[1..], c)
  }

  function MoveToFront(list: seq<byte>, rank: nat): (r: seq<byte>)
    requires rank < |list|
    ensures |r| == |list| && r[0] == list[rank]
  {
    [list[rank]] + list[..rank] + list[rank + 1..]
  }

  lemma MoveKeepsElements(list: seq<byte>, rank: nat)
    requires rank < |list|
    ensures multiset(MoveToFront(list, rank)) == multiset(list)
    ensures forall c :: c in list <==> c in MoveToFront(list, rank)
    ensures Distinct(list) ==> Distinct(MoveToFront(list, rank))
  {
    assert list == list[..rank] + [list[rank]] + list[rank + 1..];
  }

  /** The list names every byte of the data. */
  ghost predicate Covers(list: seq<byte>, data: seq<byte>) {
    |list| <= 256 && forall c :: c in data ==> c in list
  }

  /** The ranks point into a list of n bytes. */
  ghost predicate Below(ranks: seq<byte>, n: nat) {
    forall k :: 0 <= k < |ranks| ==> ranks[k] < n
  }

  lemma CoversSize(list: seq<byte>, data: seq<byte>)
    requires Covers(list, data)
    ensures |list| <= 256
  {}

  lemma CoversStep(list: seq<byte>, data: seq<byte>)
    requires Covers(list, data) && |data| > 0
    ensures data[0] in list && Covers(MoveToFront(list, IndexOf(list, data[0])), data[1..])
  {
    MoveKeepsElements(list, IndexOf(list, data[0]));
  }

  /** The ranks the encoder emits, 255 for a byte that is not listed, and the bytes the decoder reads back. */
  function Ranks(list: seq<byte>, data: seq<byte>): (r: seq<byte>)
    requires |list| <= 256
    ensures |r| == |data|
    decreases |data|
  {
    if |data| == 0 then []
    else if data[0] !in list then [255] + Ranks(list, data[1..])
    else [IndexOf(list, data[0])] + Ranks(MoveToFront(list, IndexOf(list, data[0])), data[1..])
  }

  function Unranks(list: seq<byte>, ranks: seq<byte>): (data: seq<byte>)
    requires Below(ranks, |list|)
    ensures |data| == |ranks|
    decreases |ranks|
  {
    if |ranks| == 0 then [] else
      [list[ranks[0]]] + Unranks(MoveToFront(list, ranks[0]), ranks[1..])
  }

  lemma {:induction false} RanksBound(list: seq<byte>, data: seq<byte>)
    requires Covers(list, data)
    ensures Below(Ranks(list, data), |list|)
    decreases |data|
  {
    if |data| > 0 {
      CoversStep(list, data);
      RanksBound(MoveToFront(list, IndexOf(list, data[0])), data[1..]);
    }
  }

  /** Reading the ranks back restores the bytes. */
  lemma {:induction false} UnranksRanks(list: seq<byte>, data: seq<byte>)
    requires Covers(list, data)
    ensures Below(Ranks(list, data), |list|)
    ensures Unranks(list, Ranks(list, data)) == data
    decreases |data|
  {
    RanksBound(list, data);
    if |data| > 0 {
      CoversStep(list, data);
      var rank := IndexOf(list, data[0]);
      UnranksRanks(MoveToFront(list, rank), data[1..]);
      assert Ranks(list, data)[1..] == Ranks(MoveToFront(list, rank), data[1..]);
    }
  }

  class State {
    const sym: array<byte>
    const n: nat

    ghost predicate Valid()
      reads this, sym
    {
      1 <= n <= 256 == sym.Length
    }

    ghost function List(): seq<byte>
      requires Valid()
      reads this, sym
    {
      sym[..n]
    }

    constructor (inUse: seq<byte>)
      requires 1 <= |inUse| <= 256
      ensures Valid() && List() == inUse && fresh(sym)
    {
      var table := new byte[256];
      for i := 0 to |inUse|
        invariant table[..i] == inUse[..i]
      {
        table[i] := inUse[i];
      }
      sym := table;
      n := |inUse|;
    }

    /** Shifts the first `rank` symbols up by one, as an overlapping copy does. */
    method ShiftUp(rank: nat, c: byte)
      requires Valid() && rank < n && c == sym[rank]
      modifies sym
      ensures List() == MoveToFront(old(List()), rank)
    {
      ghost var before := sym[..];
      forall k | 1 <= k <= rank { sym[k] := sym[k - 1]; }
      sym[0] := c;
      forall k | 0 <= k < n ensures List()[k] == MoveToFront(old(List()), rank)[k] {
        if 1 <= k <= rank { assert sym[k] == before[k - 1]; }
      }
    }

    /** The rank of c, which moves to the front; -1 and no change when c is not in use. */
    method Encode(c: byte) returns (rank: int)
      requires Valid()
      modifies sym
      ensures c in old(List()) ==> rank == IndexOf(old(List()), c) && List() == MoveToFront(old(List()), rank)
      ensures c !in old(List()) ==> rank == -1 && List() == old(List())
    {
      if sym[0] == c {
        assert List()[0] == c;
        return 0;
      }
      rank := 1;
      while rank < n && sym[rank] != c
        invariant 1 <= rank <= n
        invariant forall k :: 0 <= k < rank ==> sym[k] != c
      {
        rank := rank + 1;
      }
      if rank >= n { return -1; }
      assert List()[rank] == c;
      ShiftUp(rank, c);
    }

    method Decode(rank: nat) returns (c: byte)
      requires Valid() && rank < n
      modifies sym
      ensures c == old(List())[rank] && List() == MoveToFront(old(List()), rank)
    {
      c := sym[rank];
      if rank != 0 { ShiftUp(rank, c); }
    }
  }

  /** One byte moves from the input to the output; their join stays what it is. */
  lemma RanksStep(done: seq<byte>, list: seq<byte>, data: seq<byte>, i: nat)
    requires i < |data| && |list| <= 256
    ensures var listed := data[i] in list;
            var rank: byte := if listed then IndexOf(list, data[i]) else 255;
            var list' := if listed then MoveToFront(list, rank) else list;
            done + Ranks(list, data[i..]) == (done + [rank]) + Ranks(list', data[i + 1..])
  {
    var rest := data[i..];
    assert rest[0] == data[i] && rest[1..] == data[i + 1..];
    var listed := rest[0] in list;
    var rank: byte := if listed then IndexOf(list, rest[0]) else 255;
    var list' := if listed then MoveToFront(list, rank) else list;
    assert Ranks(list, rest) == [rank] + Ranks(list', rest[1..]);
    hide *;
    Assoc(done, [rank], Ranks(list', rest[1..]));
  }

  /** The same for a list that names the rest of the bytes. */
  lemma ListedStep(done: seq<byte>, list: seq<byte>, data: seq<byte>, i: nat)
    requires i < |data| && Covers(list, data[i..])
    ensures data[i] in list
    ensures var rank: byte, list' := IndexOf(list, data[i]), MoveToFront(list, IndexOf(list, data[i]));
            && Covers(list', data[i + 1..])
            && done + Ranks(list, data[i..]) == (done + [rank]) + Ranks(list', data[i + 1..])
  {
    hide Ranks, MoveToFront, IndexOf;
    assert data[i..][0] == data[i] && data[i..][1..] == data[i + 1..];
    CoversStep(list, data[i..]);
    RanksStep(done, list, data, i);
  }

  method EncodeStep(s: State, data: array<byte>, i: nat)
    requires s.Valid() && i < data.Length && data != s.sym
    modifies data, s.sym
    ensures old(data[i]) in old(s.List()) ==>
              data[i] == IndexOf(old(s.List()), old(data[i])) && s.List() == MoveToFront(old(s.List()), data[i])
    ensures old(data[i]) !in old(s.List()) ==> data[i] == 255 && s.List() == old(s.List())
    ensures forall k :: 0 <= k < data.Length && k != i ==> data[k] == old(data[k])
  {
    var rank := s.Encode(data[i]);
    data[i] := rank % 256;
  }

  /** Replaces every byte by its rank, cut to a byte. */
  method EncodeInUse(data: array<byte>, inUse: seq<byte>)
    requires 1 <= |inUse| <= 256
    modifies data
    ensures data[..] == Ranks(inUse, old(data[..]))
  {
    var s := new State(inUse);
    ghost var input: seq<byte>, done: seq<byte> := data[..], [];
    assert input[0..] == input;
    for i := 0 to data.Length
      invariant s.Valid() && fresh(s.sym)
      invariant |done| == i && forall k :: 0 <= k < i ==> data[k] == done[k]
      invariant forall k :: i <= k < data.Length ==> data[k] == input[k]
      invariant Ranks(inUse, input) == done + Ranks(s.List(), input[i..])
    {
      ghost var list := s.List();
      RanksStep(done, list, input, i);
      EncodeStep(s, data, i);
      done := done + [data[i]];
    }
    assert data[..] == done;
  }

  lemma UnranksStep(done: seq<byte>, list: seq<byte>, ranks: seq<byte>, i: nat)
    requires i < |ranks| && Below(ranks, |list|)
    ensures Below(ranks[i..], |list|) && Below(ranks[i + 1..], |list|)
    ensures done + Unranks(list, ranks[i..])
         == (done + [list[ranks[i]]]) + Unranks(MoveToFront(list, ranks[i]), ranks[i + 1..])
  {
    var rest := ranks[i..];
    assert rest[0] == ranks[i] && rest[1..] == ranks[i + 1..];
    assert Below(rest, |list|) && Below(rest[1..], |list|);
    var list' := MoveToFront(list, rest[0]);
    assert Unranks(list, rest) == [list[rest[0]]] + Unranks(list', rest[1..]);
    hide *;
    Assoc(done, [list[rest[0]]], Unranks(list', rest[1..]));
  }

  method DecodeStep(s: State, data: array<byte>, i: nat)
    requires s.Valid() && i < data.Length && data != s.sym && data[i] < s.n
    modifies data, s.sym
    ensures s.List() == MoveToFront(old(s.List()), old(data[i]))
    ensures data[i] == old(s.List())[old(data[i])]
    ensures forall k :: 0 <= k < data.Length && k != i ==> data[k] == old(data[k])
  {
    var c := s.Decode(data[i]);
    data[i] := c;
  }

  /** Replaces every rank by its byte. */
  method DecodeInUse(data: array<byte>, inUse: seq<byte>)
    requires 1 <= |inUse| <= 256 && Below(data[..], |inUse|)
    modifies data
    ensures data[..] == Unranks(inUse, old(data[..]))
  {
    var s := new State(inUse);
    ghost var input: seq<byte>, done: seq<byte> := data[..], [];
    assert input[0..] == input;
    for i := 0 to data.Length
      invariant s.Valid() && fresh(s.sym) && s.n == |inUse| && |s.List()| == |inUse|
      invariant |done| == i && forall k :: 0 <= k < i ==> data[k] == done[k]
      invariant forall k :: i <= k < data.Length ==> data[k] == input[k]
      invariant Below(input[i..], |inUse|) && Below(input, |inUse|)
      invariant Unranks(inUse, input) == done + Unranks(s.List(), input[i..])
    {
      UnranksStep(done, s.List(), input, i);
      DecodeStep(s, data, i);
      done := done + [data[i]];
    }
    assert data[..] == done;
  }
}
