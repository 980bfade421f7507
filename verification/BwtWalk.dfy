/** The inverse transform as the code runs it: a counting sort fills the table, characters are packed above
    the 20-bit row numbers, and one walk reads them off. */
module BwtWalk {
  import opened Bits
  import opened Permutations
  import opened BwtInverse

  // Row numbers live below this bit, characters above it.
  const INDEX_LIMIT: int := 0x100000

  /** Entry j holds the next row in its low 20 bits and the row's own character above. */
  ghost predicate PackedTable(column: seq<byte>, t: seq<int>) {
    && |column| <= |t|
    && forall j :: 0 <= j < |column| ==> t[j] == NextTable(column)[j] + column[j] * 0x100000
  }

  /** Scatters the row numbers to their places; pos[c] starts at the number of smaller characters. */
  method FillTable(column: seq<byte>, pos: array<int>, t: array<int>)
    requires pos.Length >= 256 && |column| <= t.Length && pos != t
    requires forall c :: 0 <= c < 256 ==> pos[c] == Below(column, |column|, c)
    modifies pos, t
    ensures t[..|column|] == NextTable(column)
  {
    var n := |column|;
    ScatterStart(Identity(n), column, pos[..256], t[..n]);
    for i := 0 to n
      invariant Scattered(Identity(n), column, pos[..256], t[..n], i)
    {
      ScatterNext(Identity(n), column, pos[..256], t[..n], i);
      ghost var places, before := pos[..256], t[..n];
      assert pos[column[i]] == places[column[i]];
      t[pos[column[i]]] := i;
      pos[column[i]] := pos[column[i]] + 1;
      assert t[..n] == before[places[column[i]] := i] && pos[..256] == places[column[i] := places[column[i]] + 1];
    }
    ScatterEnd(Identity(n), column, pos[..256], t[..n]);
    forall j | 0 <= j < n ensures t[..n][j] == NextTable(column)[j] {
      assert Place(column, NextTable(column)[j]) == j;
    }
  }

  method PackTable(column: seq<byte>, t: array<int>)
    requires |column| <= t.Length && t[..|column|] == NextTable(column)
    modifies t
    ensures PackedTable(column, t[..])
  {
    ghost var next := NextTable(column);
    for i := 0 to |column|
      invariant forall j :: 0 <= j < i ==> t[j] == next[j] + column[j] * 0x100000
      invariant forall j :: i <= j < |column| ==> t[j] == next[j]
    {
      assert t[i] == next[i];
      t[i] := t[i] + column[i] * INDEX_LIMIT;
    }
  }

  lemma SplitPacked(row: int, c: int)
    requires 0 <= row < 0x100000
    ensures (row + c * 0x100000) / 0x100000 == c && (row + c * 0x100000) % 0x100000 == row
  {}

  /** Reading a packed entry apart gives the next row and the character. */
  lemma Unpack(column: seq<byte>, t: seq<int>, j: nat)
    requires PackedTable(column, t) && |column| <= 0x100000 && j < |column|
    ensures t[j] / 0x100000 == column[j] && t[j] % 0x100000 == NextTable(column)[j] < |column|
  {
    var next := NextTable(column)[j];
    SplitPacked(next, column[j]);
  }

  method CountBytes(input: seq<byte>, cnt: array<int>)
    requires cnt.Length == 256 && forall c :: 0 <= c < 256 ==> cnt[c] == 0
    modifies cnt
    ensures forall c :: 0 <= c < 256 ==> cnt[c] == Equal(input, |input|, c)
  {
    for i := 0 to |input|
      invariant forall c :: 0 <= c < 256 ==> cnt[c] == Equal(input, i, c)
    {
      cnt[input[i]] := cnt[input[i]] + 1;
    }
  }

  method StartPositions(input: seq<byte>, cnt: array<int>, pos: array<int>)
    requires cnt.Length == 256 == pos.Length && cnt != pos
    requires forall c :: 0 <= c < 256 ==> cnt[c] == Equal(input, |input|, c)
    modifies pos
    ensures forall c :: 0 <= c < 256 ==> pos[c] == Below(input, |input|, c)
  {
    var acc := 0;
    BelowNone(input, |input|, 0);
    for c := 0 to 256
      invariant acc == Below(input, |input|, c)
      invariant forall d :: 0 <= d < c ==> pos[d] == Below(input, |input|, d)
    {
      BelowNext(input, |input|, c);
      pos[c] := acc;
      acc := acc + cnt[c];
    }
  }

  /** The inverse transform of the block; len 0 leaves out alone. */
  method Inverse(input: seq<byte>, primary: nat, out: array<byte>)
    requires out.Length == |input| <= 0x100000
    requires |input| > 0 ==> primary < |input|
    modifies out
    ensures |input| > 0 ==> out[..] == Unbwt(input, primary)
  {
    var n := |input|;
    if n == 0 { return; }
    if n == 1 {
      out[0] := input[0];
      return;
    }
    var t := new int[n];
    var cnt := new int[256](_ => 0);
    CountBytes(input, cnt);
    var pos := new int[256];
    StartPositions(input, cnt, pos);
    FillTable(input, pos, t);
    assert t[..] == t[..n];
    PackTable(input, t);
    Walk(input, t, primary, out);
  }

  /** The row the walk stands on before it reads character k. */
  ghost function Row(column: seq<byte>, primary: nat, k: nat): (r: nat)
    requires primary < |column|
    ensures r < |column|
  {
    Orbit(NextTable(column), primary, k + 1)
  }

  lemma FirstRow(column: seq<byte>, t: seq<int>, primary: nat)
    requires PackedTable(column, t) && |column| <= 0x100000 && primary < |column|
    ensures t[primary] % 0x100000 == Row(column, primary, 0)
  {
    Unpack(column, t, primary);
    assert Orbit(NextTable(column), primary, 0) == primary;
  }

  /** The entry at row k packs character k of the text and row k+1. */
  lemma RowStep(column: seq<byte>, t: seq<int>, primary: nat, k: nat)
    requires PackedTable(column, t) && primary < |column| <= 0x100000
    ensures t[Row(column, primary, k)] % 0x100000 == Row(column, primary, k + 1)
    ensures t[Row(column, primary, k)] / 0x100000 == column[Row(column, primary, k)]
    ensures k < |column| ==> column[Row(column, primary, k)] == Unbwt(column, primary)[k]
  {
    Unpack(column, t, Row(column, primary, k));
  }

  method Walk(input: seq<byte>, t: array<int>, primary: nat, out: array<byte>)
    requires 0 < |input| == out.Length <= 0x100000 && primary < |input|
    requires PackedTable(input, t[..])
    modifies out
    ensures out[..] == Unbwt(input, primary)
  {
    ghost var entries, text := t[..], Unbwt(input, primary);
    FirstRow(input, entries, primary);
    var idx := t[primary] % INDEX_LIMIT;
    for i := 0 to |input|
      invariant t[..] == entries
      invariant idx == Row(input, primary, i)
      invariant out[..i] == text[..i]
    {
      RowStep(input, entries, primary, i);
      var packed := t[idx];
      assert packed == entries[idx];
      out[i] := packed / INDEX_LIMIT;
      idx := packed % INDEX_LIMIT;
    }
    assert out[..] == out[..|input|] && text == text[..|input|];
  }
}
