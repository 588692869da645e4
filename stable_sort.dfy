/** `Collections.sort` on a list whose elements compare through a string key
    with `String.compareTo`: a stable sort, modelled as insertion sort. */
module StableSort {
  import opened Base
  import opened DeltaDuplicateSet

  /** The order the sort establishes. */
  predicate SortedBy<T>(s: seq<T>, key: T -> string) {
    forall i, j :: 0 <= i < j < |s| ==> CompareStrings(key(s[i]), key(s[j])) <= 0
  }

  /** `x` placed before the first element of `s` it does not follow. */
  function Insert<T>(x: T, s: seq<T>, key: T -> string): (r: seq<T>)
    ensures multiset(r) == multiset(s) + multiset{x}
  {
    if |s| == 0 then [x]
    else if CompareStrings(key(x), key(s[0])) <= 0 then [x] + s
    else
      assert s == [s[0]] + s[1..];
      [s[0]] + Insert(x, s[1..], key)
  }

  /** The list sorted by key, elements of equal key in their original order. */
  function SortBy<T>(s: seq<T>, key: T -> string): (r: seq<T>)
    ensures multiset(r) == multiset(s)
  {
    if |s| == 0 then []
    else
      assert s == [s[0]] + s[1..];
      Insert(s[0], SortBy(s[1..], key), key)
  }

  /** `compareTo` is total: of two keys, one does not follow the other. */
  lemma Total(a: string, b: string)
    ensures CompareStrings(a, b) <= 0 || CompareStrings(b, a) <= 0
  {
    CompareStringsAntisymmetric(a, b);
  }

  lemma {:induction false} InsertSorted<T>(x: T, s: seq<T>, key: T -> string)
    requires SortedBy(s, key)
    ensures SortedBy(Insert(x, s, key), key)
    decreases |s|
  {
    if |s| > 0 {
      if CompareStrings(key(x), key(s[0])) <= 0 {
        InsertFront(x, s, key);
      } else {
        Total(key(x), key(s[0]));
        InsertSorted(x, s[1..], key);
        InsertBehind(x, s, key);
      }
    }
  }

  /** An element that does not follow the head goes in front, and the list stays ordered. */
  lemma InsertFront<T>(x: T, s: seq<T>, key: T -> string)
    requires SortedBy(s, key) && |s| > 0 && CompareStrings(key(x), key(s[0])) <= 0
    ensures SortedBy([x] + s, key)
  {
    var r := [x] + s;
    forall i, j | 0 <= i < j < |r| ensures CompareStrings(key(r[i]), key(r[j])) <= 0 {
      if i == 0 {
        CompareStringsTransitive(key(x), key(s[0]), key(s[j - 1]));
      } else {
        assert r[i] == s[i - 1] && r[j] == s[j - 1];
      }
    }
  }

  /** An element that follows the head goes behind it, into an ordered tail. */
  lemma InsertBehind<T>(x: T, s: seq<T>, key: T -> string)
    requires SortedBy(s, key) && |s| > 0 && CompareStrings(key(s[0]), key(x)) <= 0
    requires SortedBy(Insert(x, s[1..], key), key)
    ensures SortedBy([s[0]] + Insert(x, s[1..], key), key)
  {
    var tail := Insert(x, s[1..], key);
    HeadBeforeInsert(x, s, key);
    ConsSorted(s[0], tail, key);
  }

  /** The head of an ordered list does not follow anything in its tail with `x` inserted. */
  lemma HeadBeforeInsert<T>(x: T, s: seq<T>, key: T -> string)
    requires SortedBy(s, key) && |s| > 0 && CompareStrings(key(s[0]), key(x)) <= 0
    ensures forall j :: 0 <= j < |Insert(x, s[1..], key)| ==> CompareStrings(key(s[0]), key(Insert(x, s[1..], key)[j])) <= 0
  {
    var tail := Insert(x, s[1..], key);
    forall j | 0 <= j < |tail| ensures CompareStrings(key(s[0]), key(tail[j])) <= 0 {
      assert tail[j] in multiset(s[1..]) + multiset{x};
      if tail[j] != x {
        assert tail[j] in s[1..];
        var m :| 0 <= m < |s[1..]| && s[1..][m] == tail[j];
        assert s[m + 1] == tail[j];
      }
    }
  }

  /** An ordered list stays ordered behind a head that does not follow any of it. */
  lemma ConsSorted<T>(h: T, t: seq<T>, key: T -> string)
    requires SortedBy(t, key) && forall j :: 0 <= j < |t| ==> CompareStrings(key(h), key(t[j])) <= 0
    ensures SortedBy([h] + t, key)
  {
    var r := [h] + t;
    forall i, j | 0 <= i < j < |r| ensures CompareStrings(key(r[i]), key(r[j])) <= 0 {
      if i > 0 {
        assert r[i] == t[i - 1] && r[j] == t[j - 1];
      } else {
        assert r[j] == t[j - 1];
      }
    }
  }

  /** The sort's output is ordered by key. */
  lemma {:induction false} SortBySorted<T>(s: seq<T>, key: T -> string)
    ensures SortedBy(SortBy(s, key), key)
    decreases |s|
  {
    if |s| > 0 {
      SortBySorted(s[1..], key);
      InsertSorted(s[0], SortBy(s[1..], key), key);
    }
  }

  /** Two ordered lists with the same elements, on which the key tells elements
      apart, are the same list: any sort gives this result. */
  lemma {:induction false} SortedByUnique<T>(a: seq<T>, b: seq<T>, key: T -> string)
    requires SortedBy(a, key) && SortedBy(b, key) && multiset(a) == multiset(b)
    requires forall x, y :: x in a && y in a && key(x) == key(y) ==> x == y
    ensures a == b
    decreases |a|
  {
    if |a| > 0 {
      SortedHeadsAgree(a, b, key);
      DropHead(a, b);
      forall x, y | x in a[1..] && y in a[1..] && key(x) == key(y) ensures x == y {
        assert x in a && y in a;
      }
      SortedByUnique(a[1..], b[1..], key);
      assert a == [a[0]] + a[1..] && b == [b[0]] + b[1..];
    }
  }

  lemma SortedHeadsAgree<T>(a: seq<T>, b: seq<T>, key: T -> string)
    requires SortedBy(a, key) && SortedBy(b, key) && multiset(a) == multiset(b) && |a| > 0
    requires forall x, y :: x in a && y in a && key(x) == key(y) ==> x == y
    ensures |b| > 0 && a[0] == b[0]
  {
    assert |b| == |multiset(b)| == |multiset(a)| == |a|;
    assert a[0] in multiset(b) && b[0] in multiset(a);
    var i :| 0 <= i < |b| && b[i] == a[0];
    var j :| 0 <= j < |a| && a[j] == b[0];
    assert CompareStrings(key(a[0]), key(b[0])) <= 0;
    assert CompareStrings(key(b[0]), key(a[0])) <= 0;
    CompareStringsAntisymmetric(key(a[0]), key(b[0]));
  }
}
