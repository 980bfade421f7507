/** Sequences of the numbers 0..n-1 in some order, and the stable counting sort as a permutation. */
module Permutations {

  ghost predicate Injective<T>(a: seq<T>) {
    forall i, j :: 0 <= i < j < |a| ==> a[i] != a[j]
  }

  /** a holds each number below n exactly once. */
  ghost predicate IsPermutation(a: seq<int>, n: nat) {
    |a| == n && (forall i :: 0 <= i < n ==> 0 <= a[i] < n) && Injective(a)
  }

  ghost function Range(n: nat): (r: set<int>)
    ensures forall x :: x in r <==> 0 <= x < n
    ensures |r| == n
  {
    if n == 0 then {} else Range(n - 1) + {n - 1}
  }

  ghost function Elements<T>(a: seq<T>): set<T> { set x | x in a }

  lemma {:induction false} InjectiveSize<T>(a: seq<T>)
    requires Injective(a)
    ensures |Elements(a)| == |a|
  {
    if |a| == 0 {
      assert Elements(a) == {};
    } else {
      var b, x := a[..|a| - 1], a[|a| - 1];
      InjectiveSize(b);
      assert a == b + [x];
      assert x !in b;
      assert Elements(a) == Elements(b) + {x};
    }
  }

  lemma SubsetSize<T>(a: set<T>, b: set<T>)
    requires a <= b
    ensures |a| <= |b|
  {
    assert b == a + (b - a);
  }

  /** Pigeonhole: n distinct numbers below n are all of them. */
  lemma PermutationHits(a: seq<int>, n: nat, x: int)
    requires IsPermutation(a, n) && 0 <= x < n
    ensures x in a
  {
    if x !in a {
      InjectiveSize(a);
      assert Elements(a) <= Range(n) - {x};
      SubsetSize(Elements(a), Range(n) - {x});
      assert false;
    }
  }

  ghost function IndexIn(a: seq<int>, n: nat, x: int): (i: nat)
    requires IsPermutation(a, n) && 0 <= x < n
    ensures i < n && a[i] == x
  {
    PermutationHits(a, n, x);
    var i :| 0 <= i < |a| && a[i] == x;
    i
  }

  /** More than |b| distinct values do not all fit into b. */
  lemma TooMany<T>(a: seq<T>, b: seq<T>) returns (i: nat)
    requires Injective(a) && |a| > |b|
    ensures i < |a| && a[i] !in b
  {
    if forall k :: 0 <= k < |a| ==> a[k] in b {
      InjectiveSize(a);
      assert Elements(a) <= Elements(b);
      SubsetSize(Elements(a), Elements(b));
      ElementsBound(b);
      assert false;
    }
    i :| 0 <= i < |a| && a[i] !in b;
  }

  lemma {:induction false} ElementsBound<T>(b: seq<T>)
    ensures |Elements(b)| <= |b|
  {
    if |b| == 0 {
      assert Elements(b) == {};
    } else {
      ElementsBound(b[..|b| - 1]);
      assert Elements(b) == Elements(b[..|b| - 1]) + {b[|b| - 1]};
    }
  }

  // ---------- stable counting sort ----------

  /** How many of the first m keys are smaller than c. */
  function Below(keys: seq<int>, m: nat, c: int): (r: nat)
    requires m <= |keys|
    ensures r <= m
  {
    if m == 0 then 0 else Below(keys, m - 1, c) + (if keys[m - 1] < c then 1 else 0)
  }

  /** How many of the first m keys equal c. */
  function Equal(keys: seq<int>, m: nat, c: int): (r: nat)
    requires m <= |keys|
    ensures r <= m
  {
    if m == 0 then 0 else Equal(keys, m - 1, c) + (if keys[m - 1] == c then 1 else 0)
  }

  lemma {:induction false} BelowNext(keys: seq<int>, m: nat, c: int)
    requires m <= |keys|
    ensures Below(keys, m, c + 1) == Below(keys, m, c) + Equal(keys, m, c)
  {
    if m > 0 { BelowNext(keys, m - 1, c); }
  }

  lemma {:induction false} BelowMono(keys: seq<int>, m: nat, c: int, d: int)
    requires m <= |keys| && c <= d
    ensures Below(keys, m, c) <= Below(keys, m, d)
  {
    if m > 0 { BelowMono(keys, m - 1, c, d); }
  }

  lemma {:induction false} BelowNone(keys: seq<int>, m: nat, c: int)
    requires m <= |keys| && forall i :: 0 <= i < m ==> keys[i] >= c
    ensures Below(keys, m, c) == 0
  {
    if m > 0 { BelowNone(keys, m - 1, c); }
  }

  lemma {:induction false} EqualMono(keys: seq<int>, m: nat, k: nat, c: int)
    requires m <= k <= |keys|
    ensures Equal(keys, m, c) <= Equal(keys, k, c)
  {
    if m < k { EqualMono(keys, m, k - 1, c); }
  }

  /** The place of item k after a stable sort by key: after all smaller keys and the equal keys before it. */
  function Place(keys: seq<int>, k: nat): (p: nat)
    requires k < |keys|
  {
    Below(keys, |keys|, keys[k]) + Equal(keys, k, keys[k])
  }

  lemma PlaceBound(keys: seq<int>, k: nat)
    requires k < |keys|
    ensures Place(keys, k) < Below(keys, |keys|, keys[k] + 1) <= |keys|
  {
    EqualMono(keys, k + 1, |keys|, keys[k]);
    BelowNext(keys, |keys|, keys[k]);
  }

  /** Places are ordered by key first and by position second. */
  lemma PlaceOrder(keys: seq<int>, k: nat, l: nat)
    requires k < |keys| && l < |keys|
    requires keys[k] < keys[l] || (keys[k] == keys[l] && k < l)
    ensures Place(keys, k) < Place(keys, l)
  {
    if keys[k] < keys[l] {
      PlaceBound(keys, k);
      BelowMono(keys, |keys|, keys[k] + 1, keys[l]);
    } else {
      EqualMono(keys, k + 1, l, keys[k]);
    }
  }

  function Places(keys: seq<int>): (ps: seq<int>)
    ensures |ps| == |keys|
  {
    seq(|keys|, k requires 0 <= k < |keys| => Place(keys, k))
  }

  lemma PlacesArePermutation(keys: seq<int>)
    ensures IsPermutation(Places(keys), |keys|)
  {
    var ps := Places(keys);
    forall i | 0 <= i < |keys| ensures 0 <= ps[i] < |keys| { PlaceBound(keys, i); }
    forall i, j | 0 <= i < j < |keys| ensures ps[i] != ps[j] {
      if keys[i] <= keys[j] { PlaceOrder(keys, i, j); } else { PlaceOrder(keys, j, i); }
    }
  }

  /** out lists the items in the stable order of their keys. */
  ghost predicate StablySorted<T(!new)>(items: seq<T>, keys: seq<int>, out: seq<T>) {
    && |items| == |keys| == |out|
    && (forall k {:trigger Place(keys, k)} :: 0 <= k < |items| ==>
         0 <= Place(keys, k) < |out| && out[Place(keys, k)] == items[k])
  }

  /** The item that a stable sort puts at place j. */
  ghost function ItemAt(keys: seq<int>, j: nat): (k: nat)
    requires j < |keys|
    ensures k < |keys| && Place(keys, k) == j
  {
    PlacesArePermutation(keys);
    IndexIn(Places(keys), |keys|, j)
  }

  /** Earlier places hold smaller keys, or equal keys of earlier items. */
  lemma ItemOrder(keys: seq<int>, i: nat, j: nat)
    requires i < j < |keys|
    ensures var k, l := ItemAt(keys, i), ItemAt(keys, j);
            keys[k] < keys[l] || (keys[k] == keys[l] && k < l)
  {
    var k, l := ItemAt(keys, i), ItemAt(keys, j);
    if !(keys[k] < keys[l] || (keys[k] == keys[l] && k < l)) {
      if k != l { PlaceOrder(keys, l, k); }
      assert false;
    }
  }

  lemma StablySortedPermutation(items: seq<int>, keys: seq<int>, out: seq<int>, n: nat)
    requires StablySorted(items, keys, out) && IsPermutation(items, n)
    ensures IsPermutation(out, n)
  {
    forall i | 0 <= i < n ensures 0 <= out[i] < n {
      assert out[Place(keys, ItemAt(keys, i))] == items[ItemAt(keys, i)];
    }
    forall i, j | 0 <= i < j < n ensures out[i] != out[j] {
      var k, l := ItemAt(keys, i), ItemAt(keys, j);
      assert out[Place(keys, k)] == items[k] && out[Place(keys, l)] == items[l];
      assert k != l;
    }
  }

  function Identity(n: nat): (a: seq<int>)
    ensures |a| == n && forall i :: 0 <= i < n ==> a[i] == i
  {
    seq(n, i => i)
  }

  lemma PlacesDiffer(keys: seq<int>, k: nat, l: nat)
    requires k < l < |keys|
    ensures Place(keys, k) != Place(keys, l)
  {
    if keys[k] <= keys[l] { PlaceOrder(keys, k, l); } else { PlaceOrder(keys, l, k); }
  }

  /** The first i items stand at their places. */
  ghost predicate PlacedSoFar<T(!new)>(items: seq<T>, keys: seq<int>, out: seq<T>, i: nat)
    requires i <= |items| == |keys| == |out|
  {
    forall k {:trigger Place(keys, k)} :: 0 <= k < i ==>
      0 <= Place(keys, k) < |out| && out[Place(keys, k)] == items[k]
  }

  lemma PlaceNext<T(!new)>(items: seq<T>, keys: seq<int>, out: seq<T>, i: nat)
    requires i < |items| == |keys| == |out| && PlacedSoFar(items, keys, out, i)
    ensures 0 <= Place(keys, i) < |out|
    ensures PlacedSoFar(items, keys, out[Place(keys, i) := items[i]], i + 1)
  {
    PlaceBound(keys, i);
    forall k | 0 <= k < i ensures Place(keys, k) != Place(keys, i) { PlacesDiffer(keys, k, i); }
  }

  /** A counting pass after i items: they stand at their places, and every counter is at the next place of its key. */
  ghost predicate Scattered<T(!new)>(items: seq<T>, keys: seq<int>, cnt: seq<int>, out: seq<T>, i: nat) {
    && i <= |items| == |keys| == |out|
    && PlacedSoFar(items, keys, out, i)
    && forall c :: 0 <= c < |cnt| ==> cnt[c] == Below(keys, |keys|, c) + Equal(keys, i, c)
  }

  lemma ScatterStart<T(!new)>(items: seq<T>, keys: seq<int>, cnt: seq<int>, out: seq<T>)
    requires |items| == |keys| == |out| && forall c :: 0 <= c < |cnt| ==> cnt[c] == Below(keys, |keys|, c)
    ensures Scattered(items, keys, cnt, out, 0)
  {}

  lemma ScatterNext<T(!new)>(items: seq<T>, keys: seq<int>, cnt: seq<int>, out: seq<T>, i: nat)
    requires Scattered(items, keys, cnt, out, i) && i < |items| && 0 <= keys[i] < |cnt|
    ensures var p := cnt[keys[i]];
            0 <= p < |out| && Scattered(items, keys, cnt[keys[i] := p + 1], out[p := items[i]], i + 1)
  {
    PlaceNext(items, keys, out, i);
  }

  lemma ScatterEnd<T(!new)>(items: seq<T>, keys: seq<int>, cnt: seq<int>, out: seq<T>)
    requires Scattered(items, keys, cnt, out, |items|)
    ensures StablySorted(items, keys, out)
  {}
}
