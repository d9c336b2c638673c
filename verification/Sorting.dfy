/** The library sorts the source calls (slices.SortStableFunc, slices.SortFunc, sort.Strings),
    as an insertion sort in place under a three-way comparison. */
module Sorting {

  /** Never false: the cue by which a proof asks for the comparison laws at three elements. */
  predicate At<T>(x: T, y: T, z: T) { true }

  /** What a sort needs of its comparison: sign antisymmetry and transitivity. */
  ghost predicate Comparison<T(!new)>(cmp: (T, T) -> int) {
    forall x, y, z {:trigger At(x, y, z)} ::
      && cmp(x, y) == -cmp(y, x)
      && (cmp(x, y) <= 0 && cmp(y, z) <= 0 ==> cmp(x, z) <= 0)
  }

  /** Ties only between equal elements. */
  ghost predicate Strict<T(!new)>(cmp: (T, T) -> int) {
    forall x, y :: cmp(x, y) == 0 ==> x == y
  }

  predicate Sorted<T>(s: seq<T>, cmp: (T, T) -> int) {
    forall i, j :: 0 <= i < j < |s| ==> cmp(s[i], s[j]) <= 0
  }

  lemma {:induction false} SameHead<T(!new)>(xs: seq<T>, ys: seq<T>, cmp: (T, T) -> int)
    requires Comparison(cmp) && Strict(cmp) && Sorted(xs, cmp) && Sorted(ys, cmp)
    requires xs != [] && ys != [] && xs[0] in ys && ys[0] in xs
    ensures xs[0] == ys[0]
  {
    assert At(xs[0], ys[0], xs[0]) && At(xs[0], xs[0], xs[0]);
    assert cmp(xs[0], ys[0]) <= 0 && cmp(ys[0], xs[0]) <= 0;
  }

  lemma {:induction false} DropHead<T>(xs: seq<T>)
    requires xs != []
    ensures multiset(xs[1..]) == multiset(xs) - multiset{xs[0]}
  {
    assert xs == [xs[0]] + xs[1..];
  }

  lemma {:induction false} SameSize<T>(xs: seq<T>, ys: seq<T>)
    requires multiset(xs) == multiset(ys)
    ensures |xs| == |ys|
  {
    assert |multiset(xs)| == |multiset(ys)|;
  }

  lemma {:induction false} SameElements<T>(xs: seq<T>, ys: seq<T>)
    requires multiset(xs) == multiset(ys)
    ensures forall x :: x in xs <==> x in ys
  {
    assert forall x :: x in xs <==> x in multiset(xs);
  }

  lemma {:induction false} SameTails<T>(xs: seq<T>, ys: seq<T>)
    requires xs != [] && ys != [] && xs[0] == ys[0] && multiset(xs) == multiset(ys)
    ensures multiset(xs[1..]) == multiset(ys[1..])
  {
    DropHead(xs);
    DropHead(ys);
  }

  lemma {:induction false} SortedTail<T>(xs: seq<T>, cmp: (T, T) -> int)
    requires xs != [] && Sorted(xs, cmp)
    ensures Sorted(xs[1..], cmp)
  {}

  /** A sorted list is determined by its contents, so a sort cannot depend on the input order. */
  lemma {:induction false} SortedIsUnique<T(!new)>(xs: seq<T>, ys: seq<T>, cmp: (T, T) -> int)
    requires Comparison(cmp) && Strict(cmp)
    requires Sorted(xs, cmp) && Sorted(ys, cmp) && multiset(xs) == multiset(ys)
    ensures xs == ys
  {
    hide Comparison, Strict, Sorted;
    SameSize(xs, ys);
    if xs != [] {
      SameElements(xs, ys);
      SameHead(xs, ys, cmp);
      SameTails(xs, ys);
      SortedTail(xs, cmp);
      SortedTail(ys, cmp);
      SortedIsUnique(xs[1..], ys[1..], cmp);
      assert xs == [xs[0]] + xs[1..] && ys == [ys[0]] + ys[1..];
    }
  }

  ghost predicate SortedButAt<T>(s: seq<T>, cmp: (T, T) -> int, k: int) {
    forall i, j :: 0 <= i < j < |s| && j != k ==> cmp(s[i], s[j]) <= 0
  }

  /** The state of an insertion: the element at j belongs somewhere at or before j. */
  ghost predicate Sinking<T>(s: seq<T>, cmp: (T, T) -> int, j: nat) {
    j < |s| && SortedButAt(s, cmp, j) && forall i :: j < i < |s| ==> cmp(s[j], s[i]) <= 0
  }

  function Swap<T>(s: seq<T>, j: nat): seq<T>
    requires 0 < j < |s|
  {
    s[j - 1 := s[j]][j := s[j - 1]]
  }

  lemma {:induction false} StartSinking<T(!new)>(s: seq<T>, t: seq<T>, cmp: (T, T) -> int)
    requires Sorted(s, cmp) && |t| == |s| + 1 && t[..|s|] == s
    ensures Sinking(t, cmp, |s|)
  {
    assert forall i :: 0 <= i < |s| ==> t[i] == t[..|s|][i];
  }

  lemma {:induction false} SwapSinks<T(!new)>(s: seq<T>, cmp: (T, T) -> int, j: nat)
    requires Comparison(cmp) && Sinking(s, cmp, j) && j > 0 && cmp(s[j], s[j - 1]) < 0
    ensures Sinking(Swap(s, j), cmp, j - 1)
  {
    assert At(s[j], s[j - 1], s[j]);
  }

  lemma {:induction false} SunkIsSorted<T(!new)>(s: seq<T>, cmp: (T, T) -> int, j: nat)
    requires Comparison(cmp) && Sinking(s, cmp, j) && (j == 0 || cmp(s[j], s[j - 1]) >= 0)
    ensures Sorted(s, cmp)
  {
    forall i | 0 <= i < j ensures cmp(s[i], s[j]) <= 0 {
      assert At(s[j], s[j - 1], s[j]) && At(s[i], s[j - 1], s[j]);
    }
  }

  lemma {:induction false} SwapIsExchange<T>(s: seq<T>, t: seq<T>, j: nat, n: nat)
    requires 0 < j < n <= |s| == |t| && t == s[j - 1 := s[j]][j := s[j - 1]]
    ensures multiset(t) == multiset(s) && t[..n] == Swap(s[..n], j)
  {}

  /** One insertion step: the element at k moves down past everything that sorts after it. */
  method SinkInto<T(!new)>(a: array<T>, k: nat, cmp: (T, T) -> int)
    requires Comparison(cmp)
    requires k < a.Length && Sorted(a[..k], cmp)
    modifies a
    ensures Sorted(a[..k + 1], cmp)
    ensures multiset(a[..]) == multiset(old(a[..]))
  {
    hide Comparison, Sinking, Sorted, Swap;
    var j := k;
    StartSinking(a[..k], a[..k + 1], cmp);
    while j > 0 && cmp(a[j], a[j - 1]) < 0
      invariant 0 <= j <= k
      invariant multiset(a[..]) == multiset(old(a[..]))
      invariant Sinking(a[..k + 1], cmp, j)
    {
      ghost var s, p := a[..], a[..k + 1];
      SwapSinks(p, cmp, j);
      a[j - 1], a[j] := a[j], a[j - 1];
      assert s[..k + 1] == p && a[..][..k + 1] == a[..k + 1];
      SwapIsExchange(s, a[..], j, k + 1);
      j := j - 1;
    }
    SunkIsSorted(a[..k + 1], cmp, j);
  }

  method Sort<T(!new)>(a: array<T>, cmp: (T, T) -> int)
    requires Comparison(cmp)
    modifies a
    ensures Sorted(a[..], cmp) && multiset(a[..]) == multiset(old(a[..]))
  {
    for k := 0 to a.Length
      invariant Sorted(a[..k], cmp) && multiset(a[..]) == multiset(old(a[..]))
    {
      SinkInto(a, k, cmp);
    }
    assert a[..a.Length] == a[..];
  }

  lemma {:induction false} AtLeastTwice<T>(s: seq<T>, i: nat, j: nat)
    requires i < j < |s| && s[i] == s[j]
    ensures multiset(s)[s[i]] >= 2
  {
    assert s == s[..j] + s[j..];
    assert s[..j][i] == s[i] && s[j..][0] == s[i];
    assert s[i] in multiset(s[..j]) && s[i] in multiset(s[j..]);
  }

  lemma {:induction false} AtMostOnce<T>(s: seq<T>, x: T)
    requires forall i, j :: 0 <= i < j < |s| ==> s[i] != s[j]
    ensures multiset(s)[x] <= 1
    decreases |s|
  {
    if s != [] {
      assert s == [s[0]] + s[1..];
      AtMostOnce(s[1..], x);
      if s[0] == x { assert x !in s[1..]; }
    }
  }
}
