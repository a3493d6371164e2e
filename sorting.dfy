/**
 The ordering step of the store's list queries: Go's `sort.Slice` with the
 comparator `a[i].Id < a[j].Id`, applied to slices whose ids are distinct.
 */
module Sorting {

  /** Keys strictly increase from left to right. */
  ghost predicate StrictlySorted<T>(s: seq<T>, key: T -> int)
  {
    forall i, j :: 0 <= i < j < |s| ==> key(s[i]) < key(s[j])
  }

  /** No two elements share a key. */
  ghost predicate DistinctKeys<T>(s: seq<T>, key: T -> int)
  {
    forall i, j :: 0 <= i < j < |s| ==> key(s[i]) != key(s[j])
  }

  /** Inserts x into a strictly sorted sequence that holds no element with x's key. */
  function Insert<T>(s: seq<T>, x: T, key: T -> int): (r: seq<T>)
    requires StrictlySorted(s, key)
    requires forall y :: y in s ==> key(y) != key(x)
    ensures StrictlySorted(r, key)
    ensures multiset(r) == multiset(s) + multiset{x}
    ensures forall y :: y in r ==> y in s || y == x
  {
    if s == [] || key(x) < key(s[0]) then
      ConsSorted(x, s, key);
      [x] + s
    else
      TailOfSorted(s, key);
      var t := Insert(s[1..], x, key);
      KeepHead(s, x, t, key);
      [s[0]] + t
  }

  /** Putting the head of s back in front of x inserted into the tail of s. */
  lemma KeepHead<T>(s: seq<T>, x: T, t: seq<T>, key: T -> int)
    requires StrictlySorted(s, key) && s != [] && key(s[0]) < key(x)
    requires StrictlySorted(t, key)
    requires multiset(t) == multiset(s[1..]) + multiset{x}
    requires forall y :: y in t ==> y in s[1..] || y == x
    ensures StrictlySorted([s[0]] + t, key)
    ensures multiset([s[0]] + t) == multiset(s) + multiset{x}
    ensures forall y :: y in [s[0]] + t ==> y in s || y == x
  {
    HeadBelow(s, x, t, key);
    assert t != [] ==> t[0] in t;
    ConsSorted(s[0], t, key);
    assert s == [s[0]] + s[1..];
  }

  /** An element below the head of a sorted sequence extends it sorted. */
  lemma ConsSorted<T>(h: T, t: seq<T>, key: T -> int)
    requires StrictlySorted(t, key)
    requires t == [] || key(h) < key(t[0])
    ensures StrictlySorted([h] + t, key)
  {
    forall i, j | 0 <= i < j < |[h] + t| ensures key(([h] + t)[i]) < key(([h] + t)[j]) {
      if i == 0 {
        assert ([h] + t)[j] == t[j - 1];
      }
    }
  }

  /** The head of a sorted sequence lies below x and below everything after it. */
  lemma HeadBelow<T>(s: seq<T>, x: T, t: seq<T>, key: T -> int)
    requires StrictlySorted(s, key) && s != [] && key(s[0]) < key(x)
    requires forall y :: y in t ==> y in s[1..] || y == x
    ensures forall y :: y in t ==> key(s[0]) < key(y)
  {
    forall y | y in t ensures key(s[0]) < key(y) {
      if y != x {
        var k :| 0 <= k < |s[1..]| && s[1..][k] == y;
        assert s[k + 1] == y;
      }
    }
  }

  /** Sorts a sequence with distinct keys: the result is a strictly increasing permutation. */
  method SortByKey<T>(a: seq<T>, key: T -> int) returns (r: seq<T>)
    requires DistinctKeys(a, key)
    ensures StrictlySorted(r, key)
    ensures multiset(r) == multiset(a)
  {
    r := [];
    for i := 0 to |a|
      invariant StrictlySorted(r, key)
      invariant multiset(r) == multiset(a[..i])
    {
      forall y | y in r
        ensures key(y) != key(a[i])
      {
        assert y in multiset(a[..i]);
        var j :| 0 <= j < i && a[j] == y;
      }
      r := Insert(r, a[i], key);
      assert a[..i + 1] == a[..i] + [a[i]];
    }
    assert a[..|a|] == a;
  }

  /** A strictly sorted arrangement of given elements is unique: the sort's result is determined. */
  lemma {:induction false} SortedUnique<T>(a: seq<T>, b: seq<T>, key: T -> int)
    requires StrictlySorted(a, key) && StrictlySorted(b, key)
    requires multiset(a) == multiset(b)
    ensures a == b
  {
    if a != [] && b != [] {
      SameHead(a, b, key);
      TailOfSorted(a, key);
      TailOfSorted(b, key);
      SortedUnique(a[1..], b[1..], key);
      SameHeadAndTail(a, b);
    }
  }

  lemma SameHeadAndTail<T>(a: seq<T>, b: seq<T>)
    requires a != [] && b != [] && a[0] == b[0] && a[1..] == b[1..]
    ensures a == b
  {
    assert a == [a[0]] + a[1..];
    assert b == [b[0]] + b[1..];
  }

  /** Two strictly sorted permutations of each other start with the same element. */
  lemma SameHead<T>(a: seq<T>, b: seq<T>, key: T -> int)
    requires StrictlySorted(a, key) && StrictlySorted(b, key)
    requires multiset(a) == multiset(b) && a != [] && b != []
    ensures a[0] == b[0]
  {
    assert a[0] in multiset(b);
    assert b[0] in multiset(a);
    var i :| 0 <= i < |b| && b[i] == a[0];
    var j :| 0 <= j < |a| && a[j] == b[0];
  }

  lemma TailOfSorted<T>(a: seq<T>, key: T -> int)
    requires StrictlySorted(a, key) && a != []
    ensures StrictlySorted(a[1..], key)
    ensures multiset(a[1..]) == multiset(a) - multiset{a[0]}
  {
    assert a == [a[0]] + a[1..];
  }
}
