/** Sorting by a key. The sort of the Go library is a black box that need not be stable: any sort
    returns this list when the keys are distinct. */
module Sorting {

  function Insert<T>(x: T, s: seq<T>, key: T -> int): seq<T> {
    if s == [] || key(x) <= key(s[0]) then [x] + s else [s[0]] + Insert(x, s[1..], key)
  }

  function SortBy<T>(s: seq<T>, key: T -> int): seq<T> {
    if s == [] then [] else Insert(s[0], SortBy(s[1..], key), key)
  }

  ghost predicate AscendingBy<T>(s: seq<T>, key: T -> int) {
    forall i, j | 0 <= i < j < |s| :: key(s[i]) <= key(s[j])
  }

  ghost predicate StrictlyBy<T>(s: seq<T>, key: T -> int) {
    forall i, j | 0 <= i < j < |s| :: key(s[i]) < key(s[j])
  }

  ghost predicate DistinctBy<T>(s: seq<T>, key: T -> int) {
    forall i, j | 0 <= i < j < |s| :: key(s[i]) != key(s[j])
  }

  lemma {:induction false} InsertPermutes<T>(x: T, s: seq<T>, key: T -> int)
    ensures multiset(Insert(x, s, key)) == multiset(s) + multiset{x}
  {
    if s == [] || key(x) <= key(s[0]) {
    } else {
      InsertPermutes(x, s[1..], key);
      assert s == [s[0]] + s[1..];
    }
  }

  lemma HeadFirst<T>(h: T, t: seq<T>, key: T -> int)
    requires AscendingBy(t, key)
    requires t != [] ==> key(h) <= key(t[0])
    ensures AscendingBy([h] + t, key)
  {
  }

  lemma {:induction false} InsertAscends<T>(x: T, s: seq<T>, key: T -> int)
    requires AscendingBy(s, key)
    ensures AscendingBy(Insert(x, s, key), key)
    ensures Insert(x, s, key) != []
    ensures s != [] ==> Insert(x, s, key)[0] == if key(x) <= key(s[0]) then x else s[0]
  {
    if s == [] || key(x) <= key(s[0]) {
      HeadFirst(x, s, key);
    } else {
      InsertAscends(x, s[1..], key);
      HeadFirst(s[0], Insert(x, s[1..], key), key);
    }
  }

  /** Sorting yields an ascending permutation. */
  lemma {:induction false} SortFacts<T>(s: seq<T>, key: T -> int)
    ensures AscendingBy(SortBy(s, key), key)
    ensures multiset(SortBy(s, key)) == multiset(s)
  {
    if s == [] {
    } else {
      SortFacts(s[1..], key);
      InsertPermutes(s[0], SortBy(s[1..], key), key);
      InsertAscends(s[0], SortBy(s[1..], key), key);
      assert s == [s[0]] + s[1..];
    }
  }

  lemma SortMember<T>(s: seq<T>, key: T -> int, x: T)
    ensures x in SortBy(s, key) <==> x in s
  {
    SortFacts(s, key);
    assert x in multiset(SortBy(s, key)) <==> x in multiset(s);
  }

  /** Sorting by distinct keys is strict, so its result does not depend on the algorithm. */
  lemma {:induction false} SortStrict<T>(s: seq<T>, key: T -> int)
    requires DistinctBy(s, key)
    ensures StrictlyBy(SortBy(s, key), key)
  {
    SortFacts(s, key);
    var r := SortBy(s, key);
    forall i, j | 0 <= i < j < |r|
      ensures key(r[i]) < key(r[j])
    {
      if key(r[i]) == key(r[j]) {
        SortMember(s, key, r[i]);
        SortMember(s, key, r[j]);
        SameKeySame(s, key, r[i], r[j]);
        TwiceCounts(r, i, j);
        OnceOnly(s, key, r[i]);
      }
    }
  }

  lemma SameKeySame<T>(s: seq<T>, key: T -> int, x: T, y: T)
    requires DistinctBy(s, key) && x in s && y in s && key(x) == key(y)
    ensures x == y
  {
  }

  lemma TwiceCounts<T>(r: seq<T>, i: nat, j: nat)
    requires i < j < |r| && r[i] == r[j]
    ensures multiset(r)[r[i]] >= 2
  {
    assert r == r[..j] + r[j..];
    assert r[i] in r[..j] && r[i] in r[j..];
    assert multiset(r) == multiset(r[..j]) + multiset(r[j..]);
  }

  lemma {:induction false} OnceOnly<T>(s: seq<T>, key: T -> int, x: T)
    requires DistinctBy(s, key)
    ensures multiset(s)[x] <= 1
  {
    if s == [] {
    } else {
      OnceOnly(s[1..], key, x);
      assert s == [s[0]] + s[1..];
      if s[0] == x {
        assert x !in s[1..];
      }
    }
  }

  /** Whether keys are distinct does not depend on the order. */
  lemma DistinctPermuted<T>(a: seq<T>, b: seq<T>, key: T -> int)
    requires DistinctBy(a, key) && multiset(a) == multiset(b)
    ensures DistinctBy(b, key)
  {
    forall i, j | 0 <= i < j < |b|
      ensures key(b[i]) != key(b[j])
    {
      if key(b[i]) == key(b[j]) {
        assert b[i] in multiset(a) && b[j] in multiset(a);
        SameKeySame(a, key, b[i], b[j]);
        TwiceCounts(b, i, j);
        OnceOnly(a, key, b[i]);
      }
    }
  }

  /** Strictly ascending lists with the same elements are the same list. */
  lemma {:induction false} StrictUnique<T>(a: seq<T>, b: seq<T>, key: T -> int)
    requires StrictlyBy(a, key) && StrictlyBy(b, key)
    requires forall x :: x in a <==> x in b
    ensures a == b
  {
    FirstIn(a);
    FirstIn(b);
    if a != [] && b != [] {
      assert a[0] in b && b[0] in a;
      assert a[0] == b[0];
      forall x
        ensures x in a[1..] <==> x in b[1..]
      {
        RestIn(a, key, x);
        RestIn(b, key, x);
      }
      StrictUnique(a[1..], b[1..], key);
    }
  }

  lemma FirstIn<T>(a: seq<T>)
    ensures a != [] ==> a[0] in a
  {
  }

  lemma RestIn<T>(a: seq<T>, key: T -> int, x: T)
    requires a != [] && StrictlyBy(a, key)
    ensures x in a[1..] <==> x in a && x != a[0]
  {
    if x in a && x != a[0] {
      var i :| 0 <= i < |a| && a[i] == x;
      assert a[1..][i - 1] == x;
    }
  }

  /** Sorts the array. The order of elements with the same key is left open; distinct keys leave no
      choice. */
  method SortInPlace<T>(a: array<T>, key: T -> int)
    modifies a
    ensures AscendingBy(a[..], key) && multiset(a[..]) == multiset(old(a[..]))
    ensures DistinctBy(old(a[..]), key) ==> a[..] == SortBy(old(a[..]), key)
  {
    var s := SortBy(a[..], key);
    SortFacts(a[..], key);
    assert |multiset(s)| == |multiset(a[..])|;
    forall i | 0 <= i < a.Length {
      a[i] := s[i];
    }
    assert a[..] == s;
  }
}
