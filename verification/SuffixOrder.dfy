/** Suffixes of a string that ends in a unique smallest character, their two types, and the order that induced
    sorting produces from a given order of the leftmost S suffixes. */
module SuffixOrder {
  import opened Permutations

  /** The last character is 0 and no other is. */
  ghost predicate Terminated(s: seq<int>) {
    |s| > 0 && s[|s| - 1] == 0 && forall i :: 0 <= i < |s| - 1 ==> s[i] > 0
  }

  /** The suffix is smaller than the one behind it (type S); otherwise it is larger (type L). */
  predicate IsS(s: seq<int>, p: nat)
    requires p < |s|
    decreases |s| - p
  {
    p == |s| - 1 || s[p] < s[p + 1] || (s[p] == s[p + 1] && IsS(s, p + 1))
  }

  /** A leftmost S position: type S behind type L. */
  predicate IsLms(s: seq<int>, p: nat)
    requires p < |s|
  {
    p > 0 && IsS(s, p) && !IsS(s, p - 1)
  }

  function Sign(a: int, b: int): (r: int)
    ensures -1 <= r <= 1
  {
    if a < b then -1 else if a > b then 1 else 0
  }

  /** Compares two suffixes. */
  ghost function Suffix(s: seq<int>, p: nat, q: nat): (r: int)
    requires Terminated(s) && p < |s| && q < |s|
    ensures -1 <= r <= 1 && (r == 0 <==> p == q)
    decreases |s| - p
  {
    if p == q then 0
    else if s[p] != s[q] then Sign(s[p], s[q])
    else Suffix(s, p + 1, q + 1)
  }

  /** The order of induced sorting: by character, then type, then by what follows; once a type L has been passed, two
      positions of type S are compared by their base numbers. */
  ghost function Order(s: seq<int>, base: seq<int>, p: nat, q: nat, stop: bool): (r: int)
    requires Terminated(s) && |base| == |s| && p < |s| && q < |s|
    ensures -1 <= r <= 1
    decreases |s| - p
  {
    if p == q then 0
    else if s[p] != s[q] then Sign(s[p], s[q])
    else if IsS(s, p) != IsS(s, q) then (if IsS(s, q) then -1 else 1)
    else if stop && IsS(s, p) then Sign(base[p], base[q])
    else Order(s, base, p + 1, q + 1, !IsS(s, p))
  }

  // ---------- both are orders ----------

  lemma {:induction false} SuffixMirror(s: seq<int>, p: nat, q: nat)
    requires Terminated(s) && p < |s| && q < |s|
    ensures Suffix(s, q, p) == -Suffix(s, p, q)
    decreases |s| - p
  {
    if p != q && s[p] == s[q] { SuffixMirror(s, p + 1, q + 1); }
  }

  lemma {:induction false} OrderMirror(s: seq<int>, base: seq<int>, p: nat, q: nat, stop: bool)
    requires Terminated(s) && |base| == |s| && p < |s| && q < |s|
    ensures Order(s, base, q, p, stop) == -Order(s, base, p, q, stop)
    decreases |s| - p
  {
    if p != q && s[p] == s[q] { OrderMirror(s, base, p + 1, q + 1, !IsS(s, p)); }
  }

  lemma {:induction false} OrderTransitive(s: seq<int>, base: seq<int>, p: nat, q: nat, r: nat, stop: bool)
    requires Terminated(s) && |base| == |s| && p < |s| && q < |s| && r < |s|
    requires Order(s, base, p, q, stop) < 0 && Order(s, base, q, r, stop) < 0
    ensures Order(s, base, p, r, stop) < 0
    decreases |s| - p
  {
    if p == r {
      OrderMirror(s, base, p, q, stop);
    } else if s[p] == s[q] == s[r] && IsS(s, p) == IsS(s, q) == IsS(s, r) && !(stop && IsS(s, p)) {
      OrderTransitive(s, base, p + 1, q + 1, r + 1, !IsS(s, p));
    }
  }

  lemma {:induction false} OrderStrict(s: seq<int>, base: seq<int>, p: nat, q: nat, stop: bool)
    requires Terminated(s) && |base| == |s| && p < |s| && q < |s| && p != q && Injective(base)
    ensures Order(s, base, p, q, stop) != 0
    decreases |s| - p
  {
    if s[p] == s[q] && IsS(s, p) == IsS(s, q) && !(stop && IsS(s, p)) {
      OrderStrict(s, base, p + 1, q + 1, !IsS(s, p));
    }
  }

  /** Types and next characters. */
  lemma TypeFacts(s: seq<int>, p: nat)
    requires Terminated(s) && p < |s| - 1
    ensures !IsS(s, p) ==> s[p] >= s[p + 1] && (IsS(s, p + 1) ==> IsLms(s, p + 1) && s[p] > s[p + 1])
    ensures IsS(s, p) ==> s[p] <= s[p + 1] && p + 1 < |s| - 1 && (s[p] == s[p + 1] ==> IsS(s, p + 1))
  {}

  /** A suffix follows (type L) or precedes (type S) the one behind it. */
  lemma {:induction false} NextInOrder(s: seq<int>, base: seq<int>, p: nat)
    requires Terminated(s) && |base| == |s| && p < |s| - 1
    ensures !IsS(s, p) ==> Order(s, base, p + 1, p, true) < 0
    ensures IsS(s, p) ==> Order(s, base, p, p + 1, false) < 0
    decreases |s| - p
  {
    TypeFacts(s, p);
    if s[p] == s[p + 1] { NextInOrder(s, base, p + 1); }
  }

  /** Of two suffixes with the same first character, the one of type L is smaller. */
  lemma {:induction false} TypesDecide(s: seq<int>, p: nat, q: nat)
    requires Terminated(s) && p < |s| && q < |s| && s[p] == s[q] && !IsS(s, p) && IsS(s, q)
    ensures Suffix(s, p, q) < 0
    decreases |s| - p
  {
    assert q < |s| - 1;
    if s[p + 1] == s[q + 1] { TypesDecide(s, p + 1, q + 1); }
  }

  // ---------- base numbers that order suffixes, and base numbers that are all equal ----------

  /** The base numbers order any two suffixes correctly. */
  ghost predicate TrueBase(s: seq<int>, base: seq<int>) {
    && Terminated(s) && |base| == |s|
    && forall p, q :: 0 <= p < |s| && 0 <= q < |s| ==> Sign(base[p], base[q]) == Suffix(s, p, q)
  }

  /** With a true base, induced order is suffix order. */
  lemma {:induction false} OrderIsSuffix(s: seq<int>, base: seq<int>, p: nat, q: nat, stop: bool)
    requires TrueBase(s, base) && p < |s| && q < |s|
    ensures Order(s, base, p, q, stop) == Suffix(s, p, q)
    decreases |s| - p
  {
    if p != q && s[p] == s[q] {
      if IsS(s, p) != IsS(s, q) {
        if IsS(s, q) {
          TypesDecide(s, p, q);
        } else {
          TypesDecide(s, q, p);
          SuffixMirror(s, q, p);
        }
      } else if !(stop && IsS(s, p)) {
        OrderIsSuffix(s, base, p + 1, q + 1, !IsS(s, p));
      }
    }
  }

  function NoBase(n: nat): (z: seq<int>)
    ensures |z| == n && forall i :: 0 <= i < n ==> z[i] == 0
  {
    seq(n, _ => 0)
  }

  /** Compares the stretches from p and q up to the next leftmost S positions. */
  ghost function Stretch(s: seq<int>, p: nat, q: nat, stop: bool): int
    requires Terminated(s) && p < |s| && q < |s|
  {
    Order(s, NoBase(|s|), p, q, stop)
  }

  /** Whatever the base, induced order never contradicts the order of the stretches. */
  lemma {:induction false} OrderRefinesStretch(s: seq<int>, base: seq<int>, p: nat, q: nat, stop: bool)
    requires Terminated(s) && |base| == |s| && p < |s| && q < |s| && Order(s, base, p, q, stop) < 0
    ensures Stretch(s, p, q, stop) <= 0
    decreases |s| - p
  {
    if p != q && s[p] == s[q] && IsS(s, p) == IsS(s, q) && !(stop && IsS(s, p)) {
      OrderRefinesStretch(s, base, p + 1, q + 1, !IsS(s, p));
    }
  }

  /** The next leftmost S position. */
  function NextLms(s: seq<int>, p: nat): (r: nat)
    requires p < |s| - 1
    ensures p < r < |s|
    decreases |s| - p
  {
    if p + 1 == |s| - 1 || IsLms(s, p + 1) then p + 1 else NextLms(s, p + 1)
  }

  lemma {:induction false} NextLmsIs(s: seq<int>, p: nat)
    requires Terminated(s) && p < |s| - 1
    ensures IsLms(s, NextLms(s, p)) && forall k :: p < k < NextLms(s, p) ==> !IsLms(s, k)
    decreases |s| - p
  {
    TypeFacts(s, p);
    if p + 1 < |s| - 1 && !IsLms(s, p + 1) { NextLmsIs(s, p + 1); }
  }

  /** Stretches compare transitively, equal ones included. */
  lemma {:induction false} StretchTransitive(s: seq<int>, p: nat, q: nat, r: nat, stop: bool)
    requires Terminated(s) && p < |s| && q < |s| && r < |s|
    requires Stretch(s, p, q, stop) <= 0 && Stretch(s, q, r, stop) <= 0
    ensures Stretch(s, p, r, stop) <= 0
    ensures Stretch(s, p, r, stop) == 0 <==> Stretch(s, p, q, stop) == 0 && Stretch(s, q, r, stop) == 0
    decreases |s| - p
  {
    if p == r {
      OrderMirror(s, NoBase(|s|), p, q, stop);
    } else if s[p] == s[q] == s[r] && IsS(s, p) == IsS(s, q) == IsS(s, r) && !(stop && IsS(s, p)) && p != q && q != r {
      StretchTransitive(s, p + 1, q + 1, r + 1, !IsS(s, p));
    }
  }

  /** Where the stretch from p ends. */
  function StretchEnd(s: seq<int>, p: nat, stop: bool): (r: nat)
    requires p < |s|
    ensures r < |s|
  {
    if (stop && IsS(s, p)) || p == |s| - 1 then p else NextLms(s, p)
  }

  /** Unequal stretches order the suffixes; behind equal stretches the suffixes go on at their ends. */
  lemma {:induction false} StretchDecides(s: seq<int>, p: nat, q: nat, stop: bool)
    requires Terminated(s) && p < |s| && q < |s|
    ensures Stretch(s, p, q, stop) != 0 ==> Suffix(s, p, q) == Stretch(s, p, q, stop)
    ensures Stretch(s, p, q, stop) == 0 ==> Suffix(s, p, q) == Suffix(s, StretchEnd(s, p, stop), StretchEnd(s, q, stop))
    decreases |s| - p
  {
    if p != q && s[p] == s[q] {
      if IsS(s, p) != IsS(s, q) {
        if IsS(s, q) {
          TypesDecide(s, p, q);
        } else {
          TypesDecide(s, q, p);
          SuffixMirror(s, q, p);
        }
      } else if !(stop && IsS(s, p)) {
        StretchDecides(s, p + 1, q + 1, !IsS(s, p));
        EndStep(s, p, stop);
        EndStep(s, q, stop);
      }
    }
  }

  lemma EndStep(s: seq<int>, p: nat, stop: bool)
    requires Terminated(s) && p < |s| - 1 && !(stop && IsS(s, p))
    ensures StretchEnd(s, p, stop) == StretchEnd(s, p + 1, !IsS(s, p))
  {
    TypeFacts(s, p);
    TypeFacts(s, |s| - 2);
  }
}
