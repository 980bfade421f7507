/** The Burrows-Wheeler transform as a relation, and its inversion by walking the stable order of the last column. */
module BwtInverse {
  import opened Permutations
  import opened Rotations

  /** column[i] is the character before the start of the i-th rotation. */
  ghost predicate IsLastColumn(s: seq<int>, sa: seq<int>, column: seq<int>) {
    && IsPermutation(sa, |s|) && |column| == |s|
    && forall i :: 0 <= i < |s| ==> column[i] == s[Prev(|s|, sa[i])]
  }

  /** column and primary come from some sorted list of the rotations; equal rotations may stand in any order. */
  ghost predicate IsBwt(s: seq<int>, column: seq<int>, primary: nat) {
    primary < |s| && exists sa :: RotationOrder(s, sa) && IsLastColumn(s, sa, column) && sa[primary] == 0
  }

  /** Equal rotations have equal characters before their starts. */
  lemma SameBefore(s: seq<int>, p: nat, q: nat)
    requires p < |s| && q < |s| && Cmp(s, p, q, |s|) == 0
    ensures s[Prev(|s|, p)] == s[Prev(|s|, q)]
  {
    var n := |s|;
    CmpSplit(s, p, q, n - 1, 1);
    AdvanceWrap(n, p, n - 1);
    AdvanceWrap(n, q, n - 1);
    assert Cmp(s, Prev(n, p), Prev(n, q), 1) == 0;
  }

  /** The column is the same whatever the order of equal rotations. */
  lemma OneColumn(s: seq<int>, column: seq<int>, primary: nat, column': seq<int>, primary': nat)
    requires IsBwt(s, column, primary) && IsBwt(s, column', primary')
    ensures column == column'
  {
    hide Cmp, Prev;
    var sa: seq<int> :| RotationOrder(s, sa) && IsLastColumn(s, sa, column) && sa[primary] == 0;
    var sa': seq<int> :| RotationOrder(s, sa') && IsLastColumn(s, sa', column') && sa'[primary'] == 0;
    forall j | 0 <= j < |s| ensures column[j] == column'[j] {
      SortedListsAgree(s, sa, sa', j);
      SameBefore(s, sa[j], sa'[j]);
    }
  }

  /** Entry j of the table is the row whose last character is the j-th smallest, ties in row order. */
  ghost predicate IsNextTable(column: seq<int>, t: seq<int>) {
    && IsPermutation(t, |column|)
    && forall j {:trigger Place(column, t[j])} :: 0 <= j < |column| ==> Place(column, t[j]) == j
  }

  lemma NextTableExists(column: seq<int>)
    ensures exists t :: IsNextTable(column, t)
  {
    var t := seq(|column|, j requires 0 <= j < |column| => ItemAt(column, j) as int);
    assert forall j :: 0 <= j < |column| ==> Place(column, t[j]) == j;
    assert IsNextTable(column, t);
  }

  ghost function NextTable(column: seq<int>): (t: seq<int>)
    ensures IsPermutation(t, |column|)
  {
    NextTableExists(column);
    var t :| IsNextTable(column, t);
    t
  }

  /** Earlier table entries name rows with smaller characters, or equal characters in row order. */
  lemma NextTableOrder(column: seq<int>, i: nat, j: nat)
    requires i < j < |column|
    ensures var t := NextTable(column);
            column[t[i]] < column[t[j]] || (column[t[i]] == column[t[j]] && t[i] < t[j])
  {
    var t := NextTable(column);
    assert Place(column, t[i]) == i && Place(column, t[j]) == j;
    if !(column[t[i]] < column[t[j]] || (column[t[i]] == column[t[j]] && t[i] < t[j])) {
      PlaceOrder(column, t[j], t[i]);
      assert false;
    }
  }

  /** k steps of the walk j -> t[j]. */
  ghost function Orbit(t: seq<int>, j: nat, k: nat): (r: nat)
    requires IsPermutation(t, |t|) && j < |t|
    ensures r < |t|
    decreases k
  {
    if k == 0 then j else t[Orbit(t, j, k - 1)]
  }

  /** What the decoder reads off: the last characters met on the walk from the primary row. */
  ghost function Unbwt(column: seq<int>, primary: nat): (s: seq<int>)
    requires primary < |column|
    ensures |s| == |column|
  {
    var t := NextTable(column);
    seq(|column|, k requires 0 <= k < |column| => column[Orbit(t, primary, k + 1)])
  }

  // ---------- why the walk restores the text ----------

  /** Rotating every row right by one, in the order the table lists them. */
  ghost function RotatedRows(s: seq<int>, sa: seq<int>, column: seq<int>): (r: seq<int>)
    requires IsPermutation(sa, |s|) && |column| == |s|
    ensures |r| == |s|
  {
    seq(|s|, j requires 0 <= j < |s| => Prev(|s|, sa[NextTable(column)[j]]))
  }

  lemma PrevInjective(n: nat, p: nat, q: nat)
    requires p < n && q < n && p != q
    ensures Prev(n, p) != Prev(n, q)
  {}

  lemma RotatedRowsPermutation(s: seq<int>, sa: seq<int>, column: seq<int>)
    requires IsPermutation(sa, |s|) && |column| == |s|
    ensures IsPermutation(RotatedRows(s, sa, column), |s|)
  {
    var r, t := RotatedRows(s, sa, column), NextTable(column);
    forall i, j | 0 <= i < j < |s| ensures r[i] != r[j] {
      assert t[i] != t[j];
      var a, b := t[i], t[j];
      assert sa[a] != sa[b];
      PrevInjective(|s|, sa[a], sa[b]);
    }
  }

  /** Rotating right by one orders by the character that comes to the front, then as before. */
  lemma PrependOrder(s: seq<int>, p: nat, q: nat)
    requires p < |s| && q < |s|
    requires s[Prev(|s|, p)] < s[Prev(|s|, q)] || (s[Prev(|s|, p)] == s[Prev(|s|, q)] && Cmp(s, p, q, |s|) <= 0)
    ensures Cmp(s, Prev(|s|, p), Prev(|s|, q), |s|) <= 0
  {
    CmpPrefix(s, p, q, |s| - 1, |s|);
  }

  lemma RotatedRowsOrder(s: seq<int>, sa: seq<int>, column: seq<int>, a: nat, b: nat)
    requires RotationOrder(s, sa) && IsLastColumn(s, sa, column) && a < |s| && b < |s|
    requires column[a] < column[b] || (column[a] == column[b] && a < b)
    ensures Cmp(s, Prev(|s|, sa[a]), Prev(|s|, sa[b]), |s|) <= 0
  {
    assert a < b ==> Cmp(s, sa[a], sa[b], |s|) <= 0;
    PrependOrder(s, sa[a], sa[b]);
  }

  lemma RotatedRowsSorted(s: seq<int>, sa: seq<int>, column: seq<int>)
    requires RotationOrder(s, sa) && IsLastColumn(s, sa, column)
    ensures RotationOrder(s, RotatedRows(s, sa, column))
  {
    RotatedRowsPermutation(s, sa, column);
    forall i, j | 0 <= i < j < |s|
      ensures Cmp(s, RotatedRows(s, sa, column)[i], RotatedRows(s, sa, column)[j], |s|) <= 0
    {
      NextTableOrder(column, i, j);
      RotatedRowsOrder(s, sa, column, NextTable(column)[i], NextTable(column)[j]);
    }
  }

  /** One step of the walk: from a row equal to the rotation at p to a row equal to the rotation after it,
      whose last character is the one at p. */
  lemma WalkStep(s: seq<int>, sa: seq<int>, column: seq<int>, row: nat, p: nat)
    requires RotationOrder(s, sa) && IsLastColumn(s, sa, column) && row < |s| && p < |s|
    requires Cmp(s, sa[row], p, |s|) == 0
    ensures var next := NextTable(column)[row];
            column[next] == s[p] && Cmp(s, sa[next], Next(|s|, p), |s|) == 0
  {
    var r := RotatedRows(s, sa, column);
    RotatedRowsSorted(s, sa, column);
    SortedListsAgree(s, r, sa, row);
    CmpTransitive(s, r[row], sa[row], p, |s|);
    EqualAfterStep(s, r[row], p);
  }

  /** After k steps the walk stands on a row equal, as a string, to the rotation at k,
      and the row's last character is the character before k. */
  lemma {:induction false} WalkFollowsText(s: seq<int>, sa: seq<int>, column: seq<int>, primary: nat, k: nat)
    requires RotationOrder(s, sa) && IsLastColumn(s, sa, column) && primary < |s| && sa[primary] == 0
    ensures var row := Orbit(NextTable(column), primary, k);
            && Cmp(s, sa[row], Advance(|s|, 0, k), |s|) == 0
            && (k > 0 ==> column[row] == s[Advance(|s|, 0, k - 1)])
    decreases k
  {
    if k == 0 {
      CmpReflexive(s, 0, |s|);
    } else {
      WalkFollowsText(s, sa, column, primary, k - 1);
      AdvanceLast(|s|, 0, k - 1);
      WalkStep(s, sa, column, Orbit(NextTable(column), primary, k - 1), Advance(|s|, 0, k - 1));
    }
  }

  /** Inverting a Burrows-Wheeler transform gives the text back, whatever order equal rotations had. */
  lemma UnbwtRestores(s: seq<int>, column: seq<int>, primary: nat)
    requires IsBwt(s, column, primary)
    ensures |column| == |s| && Unbwt(column, primary) == s
  {
    var sa: seq<int> :| RotationOrder(s, sa) && IsLastColumn(s, sa, column) && sa[primary] == 0;
    forall k | 0 <= k < |s| ensures Unbwt(column, primary)[k] == s[k] {
      WalkFollowsText(s, sa, column, primary, k + 1);
      AdvanceWrap(|s|, 0, k);
    }
  }
}
