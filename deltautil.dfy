/** `DeltaUtil` of the older snapshot: the comparator over digests and the
    quicksort that puts child digests into a canonical order before a
    directory's digest is folded. */
module DeltaUtil {
  import opened Base
  import opened Lists

  // ---------------------------------------------------------------------------
  // compareByteArray

  /** Lexicographic comparison of two byte arrays, each byte compared as a
      signed Java byte (so 0x80, that is -128, is the smallest). Only equally
      long arrays are ever compared (the source throws otherwise); past the
      end of the shorter array the comparison gives 0. */
  function Compare(a: Bytes, b: Bytes): (c: int)
    ensures c == -1 || c == 0 || c == 1
  {
    CompareFrom(a, b, 0)
  }

  /** The comparison of the suffixes from index `i` on. */
  function CompareFrom(a: Bytes, b: Bytes, i: nat): (c: int)
    ensures c == -1 || c == 0 || c == 1
    decreases |a| - i
  {
    if i >= |a| || i >= |b| then 0
    else if a[i] == b[i] then CompareFrom(a, b, i + 1)
    else if a[i] > b[i] then 1
    else -1
  }

  /** `compareByteArray`: an index loop with early returns; arrays of
      different lengths are refused with an IllegalArgumentException. */
  method CompareByteArray(a: Bytes, b: Bytes) returns (r: Result<int>)
    ensures r.Err? <==> |a| != |b|
    ensures r.Err? ==> r.error == IllegalArgument
    ensures r.Ok? ==> r.value == Compare(a, b)
    ensures r == Ok(0) <==> (|a| == |b| && a == b)
  {
    if |a| != |b| {
      return Err(IllegalArgument);
    }
    CompareZeroIffEqual(a, b);
    for i := 0 to |a|
      invariant Compare(a, b) == CompareFrom(a, b, i)
    {
      if a[i] == b[i] {
        continue;
      }
      if a[i] > b[i] {
        return Ok(1);
      }
      if b[i] > a[i] {
        return Ok(-1);
      }
    }
    return Ok(0);
  }

  lemma {:induction false} CompareFromZeroIffEqual(a: Bytes, b: Bytes, i: nat)
    requires |a| == |b| && i <= |a|
    ensures CompareFrom(a, b, i) == 0 <==> a[i..] == b[i..]
    decreases |a| - i
  {
    if i < |a| {
      CompareFromZeroIffEqual(a, b, i + 1);
      assert a[i..] == [a[i]] + a[i + 1..] && b[i..] == [b[i]] + b[i + 1..];
    } else {
      assert a[i..] == [] == b[i..];
    }
  }

  /** The comparison is zero exactly for elementwise equal arrays. */
  lemma CompareZeroIffEqual(a: Bytes, b: Bytes)
    requires |a| == |b|
    ensures Compare(a, b) == 0 <==> a == b
  {
    CompareFromZeroIffEqual(a, b, 0);
    assert a[0..] == a && b[0..] == b;
  }

  lemma {:induction false} CompareFromAntisymmetric(a: Bytes, b: Bytes, i: nat)
    requires |a| == |b|
    ensures CompareFrom(a, b, i) == -CompareFrom(b, a, i)
    decreases |a| - i
  {
    if i < |a| && a[i] == b[i] {
      CompareFromAntisymmetric(a, b, i + 1);
    }
  }

  /** Swapping the arguments negates the result. */
  lemma CompareAntisymmetric(a: Bytes, b: Bytes)
    requires |a| == |b|
    ensures Compare(a, b) == -Compare(b, a)
  {
    CompareFromAntisymmetric(a, b, 0);
  }

  lemma {:induction false} CompareFromFirstDifference(a: Bytes, b: Bytes, i: nat, k: nat)
    requires |a| == |b| && i <= k < |a|
    requires forall m :: i <= m < k ==> a[m] == b[m]
    requires a[k] != b[k]
    ensures CompareFrom(a, b, i) == if a[k] > b[k] then 1 else -1
    decreases k - i
  {
    if i < k {
      CompareFromFirstDifference(a, b, i + 1, k);
    }
  }

  /** The sign is decided by the first index at which the arrays differ,
      comparing the two bytes there as signed values. */
  lemma CompareFirstDifference(a: Bytes, b: Bytes, k: nat)
    requires |a| == |b| && k < |a|
    requires a[..k] == b[..k] && a[k] != b[k]
    ensures Compare(a, b) == if a[k] > b[k] then 1 else -1
  {
    assert forall m :: 0 <= m < k ==> a[m] == a[..k][m] && b[m] == b[..k][m];
    CompareFromFirstDifference(a, b, 0, k);
  }

  lemma {:induction false} CompareFromTransitive(a: Bytes, b: Bytes, c: Bytes, i: nat)
    requires |a| == |b| == |c|
    requires CompareFrom(a, b, i) <= 0 && CompareFrom(b, c, i) <= 0
    ensures CompareFrom(a, c, i) <= 0
    decreases |a| - i
  {
    if i < |a| && a[i] == b[i] && b[i] == c[i] {
      CompareFromTransitive(a, b, c, i + 1);
    }
  }

  /** The order is transitive. */
  lemma CompareTransitive(a: Bytes, b: Bytes, c: Bytes)
    requires |a| == |b| == |c|
    requires Compare(a, b) <= 0 && Compare(b, c) <= 0
    ensures Compare(a, c) <= 0
  {
    CompareFromTransitive(a, b, c, 0);
  }

  lemma CompareReflexive(a: Bytes)
    ensures Compare(a, a) == 0
  {
    CompareZeroIffEqual(a, a);
  }

  /** A byte of 0x80 or more (negative as a Java byte) sorts BEFORE every
      byte below 0x80: the order is signed, not the unsigned order of the
      bytes' hex renderings. */
  lemma SignedFirstByte(x: int8, y: int8, ra: Bytes, rb: Bytes)
    requires Unsigned(x) >= 0x80 > Unsigned(y) && |ra| == |rb|
    ensures Compare([x] + ra, [y] + rb) == -1
  {
  }

  // ---------------------------------------------------------------------------
  // HashesSort

  /** All arrays in `s` have the length of the first one (so that no
      comparison between them throws). */
  predicate Uniform(s: seq<Bytes>) {
    forall i :: 0 <= i < |s| ==> |s[i]| == |s[0]|
  }

  predicate AllOfLength(s: seq<Bytes>, n: nat) {
    forall i :: 0 <= i < |s| ==> |s[i]| == n
  }

  /** Ascending order: every earlier element compares at most equal to every later one. */
  predicate Sorted(s: seq<Bytes>) {
    Uniform(s) && forall i, j :: 0 <= i < j < |s| ==> Compare(s[i], s[j]) <= 0
  }

  /** The elements that go to `left`: those the pivot compares greater than. */
  function Below(pivot: Bytes, s: seq<Bytes>): (r: seq<Bytes>)
    requires AllOfLength(s, |pivot|)
    ensures AllOfLength(r, |pivot|) && |r| <= |s|
    ensures forall x :: x in r ==> Compare(pivot, x) > 0
  {
    if |s| == 0 then []
    else if Compare(pivot, s[0]) > 0 then [s[0]] + Below(pivot, s[1..])
    else Below(pivot, s[1..])
  }

  /** The elements that go to `right`: all the others. */
  function NotBelow(pivot: Bytes, s: seq<Bytes>): (r: seq<Bytes>)
    requires AllOfLength(s, |pivot|)
    ensures AllOfLength(r, |pivot|) && |r| <= |s|
    ensures forall x :: x in r ==> Compare(pivot, x) <= 0
  {
    if |s| == 0 then []
    else if Compare(pivot, s[0]) > 0 then NotBelow(pivot, s[1..])
    else [s[0]] + NotBelow(pivot, s[1..])
  }

  lemma {:induction false} PartitionMultiset(pivot: Bytes, s: seq<Bytes>)
    requires AllOfLength(s, |pivot|)
    ensures multiset(Below(pivot, s)) + multiset(NotBelow(pivot, s)) == multiset(s)
  {
    if |s| > 0 {
      PartitionMultiset(pivot, s[1..]);
      assert s == [s[0]] + s[1..];
    }
  }

  /** What `HashesSort` computes: pivot on the first element, the smaller ones
      to the left, the rest (equal ones included) to the right, each side
      sorted recursively. */
  function QuickSort(s: seq<Bytes>): (r: seq<Bytes>)
    requires Uniform(s)
    ensures multiset(r) == multiset(s) && |r| == |s|
    decreases |s|
  {
    if |s| == 0 then []
    else
      var pivot := s[0];
      assert AllOfLength(s[1..], |pivot|);
      PartitionMultiset(pivot, s[1..]);
      assert |Below(pivot, s[1..])| + |NotBelow(pivot, s[1..])| == |s| - 1 by {
        assert |multiset(Below(pivot, s[1..]))| + |multiset(NotBelow(pivot, s[1..]))| == |multiset(s[1..])|;
      }
      var left := QuickSort(Below(pivot, s[1..]));
      var right := QuickSort(NotBelow(pivot, s[1..]));
      assert s == [pivot] + s[1..];
      left + [pivot] + right
  }

  lemma MultisetLength(s: seq<Bytes>, t: seq<Bytes>, n: nat)
    requires multiset(s) == multiset(t) && AllOfLength(t, n)
    ensures AllOfLength(s, n)
  {
    forall i | 0 <= i < |s| ensures |s[i]| == n {
      assert s[i] in multiset(t);
      var j :| 0 <= j < |t| && t[j] == s[i];
    }
  }

  /** Sorted sides around a pivot that separates them give a sorted whole. */
  lemma SortedAroundPivot(left: seq<Bytes>, pivot: Bytes, right: seq<Bytes>)
    requires Sorted(left) && Sorted(right)
    requires AllOfLength(left, |pivot|) && AllOfLength(right, |pivot|)
    requires forall i :: 0 <= i < |left| ==> Compare(left[i], pivot) <= 0
    requires forall j :: 0 <= j < |right| ==> Compare(pivot, right[j]) <= 0
    ensures Sorted(left + [pivot] + right)
  {
    var r := left + [pivot] + right;
    assert AllOfLength(r, |pivot|) by {
      forall k | 0 <= k < |r| ensures |r[k]| == |pivot| {
        PivotIndex(left, pivot, right, k);
      }
    }
    forall i, j | 0 <= i < j < |r| ensures Compare(r[i], r[j]) <= 0 {
      PairAroundPivot(left, pivot, right, i, j);
    }
  }

  lemma PivotIndex(left: seq<Bytes>, pivot: Bytes, right: seq<Bytes>, k: nat)
    requires k < |left| + 1 + |right|
    ensures (left + [pivot] + right)[k] == if k < |left| then left[k] else if k == |left| then pivot else right[k - |left| - 1]
  {
  }

  lemma PairAroundPivot(left: seq<Bytes>, pivot: Bytes, right: seq<Bytes>, i: nat, j: nat)
    requires Sorted(left) && Sorted(right)
    requires AllOfLength(left, |pivot|) && AllOfLength(right, |pivot|)
    requires forall i :: 0 <= i < |left| ==> Compare(left[i], pivot) <= 0
    requires forall j :: 0 <= j < |right| ==> Compare(pivot, right[j]) <= 0
    requires i < j < |left| + 1 + |right|
    ensures Compare((left + [pivot] + right)[i], (left + [pivot] + right)[j]) <= 0
  {
    PivotIndex(left, pivot, right, i);
    PivotIndex(left, pivot, right, j);
    var p := |left|;
    if i < p && p < j {
      CompareTransitive(left[i], pivot, right[j - p - 1]);
    }
  }

  /** The output of the sort is in ascending order. */
  lemma {:induction false} QuickSortSorted(s: seq<Bytes>)
    requires Uniform(s)
    ensures Sorted(QuickSort(s))
    decreases |s|
  {
    if |s| > 0 {
      var pivot := s[0];
      assert AllOfLength(s[1..], |pivot|);
      var lo, hi := Below(pivot, s[1..]), NotBelow(pivot, s[1..]);
      QuickSortSorted(lo);
      QuickSortSorted(hi);
      var left, right := QuickSort(lo), QuickSort(hi);
      MultisetLength(left, lo, |pivot|);
      MultisetLength(right, hi, |pivot|);
      assert QuickSort(s) == left + [pivot] + right;
      BelowPermuted(pivot, lo, left);
      NotBelowPermuted(pivot, hi, right);
      SortedAroundPivot(left, pivot, right);
    }
  }

  lemma BelowPermuted(pivot: Bytes, lo: seq<Bytes>, left: seq<Bytes>)
    requires AllOfLength(lo, |pivot|) && multiset(left) == multiset(lo)
    requires forall x :: x in lo ==> Compare(pivot, x) > 0
    ensures forall i :: 0 <= i < |left| ==> Compare(left[i], pivot) <= 0
  {
    forall i | 0 <= i < |left| ensures Compare(left[i], pivot) <= 0 {
      assert left[i] in multiset(lo);
      MultisetLength(left, lo, |pivot|);
      CompareAntisymmetric(pivot, left[i]);
    }
  }

  lemma NotBelowPermuted(pivot: Bytes, hi: seq<Bytes>, right: seq<Bytes>)
    requires multiset(right) == multiset(hi)
    requires forall x :: x in hi ==> Compare(pivot, x) <= 0
    ensures forall j :: 0 <= j < |right| ==> Compare(pivot, right[j]) <= 0
  {
    forall j | 0 <= j < |right| ensures Compare(pivot, right[j]) <= 0 {
      assert right[j] in multiset(hi);
    }
  }

  lemma SortedTail(s: seq<Bytes>)
    requires Sorted(s) && |s| > 0
    ensures Sorted(s[1..])
  {
    assert forall i :: 0 <= i < |s| - 1 ==> s[1..][i] == s[i + 1];
  }

  /** The first element of an ascending sequence is at most every element. */
  lemma SortedFirstIsLeast(s: seq<Bytes>, k: nat)
    requires Sorted(s) && k < |s|
    ensures Compare(s[0], s[k]) <= 0
  {
    if k == 0 {
      CompareReflexive(s[0]);
    }
  }

  /** Two ascending sequences with the same elements are the same sequence:
      elements that compare equal are equal, so the order leaves no choice. */
  lemma {:induction false} SortedUnique(a: seq<Bytes>, b: seq<Bytes>)
    requires Sorted(a) && Sorted(b) && multiset(a) == multiset(b)
    ensures a == b
    decreases |a|
  {
    assert |a| == |b| by {
      assert |multiset(a)| == |multiset(b)|;
    }
    if |a| > 0 {
      SortedHeadsEqual(a, b);
      DropHead(a, b);
      SortedTail(a);
      SortedTail(b);
      SortedUnique(a[1..], b[1..]);
      assert a == [a[0]] + a[1..] && b == [b[0]] + b[1..];
    }
  }

  /** Two ascending sequences with the same elements start alike. */
  lemma SortedHeadsEqual(a: seq<Bytes>, b: seq<Bytes>)
    requires Sorted(a) && Sorted(b) && multiset(a) == multiset(b) && |a| > 0
    ensures |b| > 0 && a[0] == b[0]
  {
    assert a[0] in multiset(b) && b[0] in multiset(a);
    var i :| 0 <= i < |b| && b[i] == a[0];
    var j :| 0 <= j < |a| && a[j] == b[0];
    SortedFirstIsLeast(a, j);
    SortedFirstIsLeast(b, i);
    assert |a[0]| == |b[0]| by {
      assert |a[j]| == |a[0]|;
    }
    CompareAntisymmetric(a[0], b[0]);
    CompareZeroIffEqual(a[0], b[0]);
  }

  /** Lists holding the same digests in any order sort to the identical
      sequence; this is what makes a directory's digest independent of the
      order in which its children are listed. */
  lemma QuickSortPermutationInvariant(s: seq<Bytes>, t: seq<Bytes>)
    requires Uniform(s) && Uniform(t) && multiset(s) == multiset(t)
    ensures QuickSort(s) == QuickSort(t)
  {
    QuickSortSorted(s);
    QuickSortSorted(t);
    SortedUnique(QuickSort(s), QuickSort(t));
  }

  /** `HashesSort`: returns an empty argument itself; otherwise drains the
      argument with `remove(0)`, partitions it around its first element into
      two fresh lists, sorts those recursively and returns a fresh list
      `left + [pivot] + right`. A comparison between arrays of different
      lengths throws, so the call fails exactly when the digests differ in
      length. */
  method HashesSort(input: ArrayList<Bytes>) returns (r: Result<ArrayList<Bytes>>)
    modifies input
    decreases |input.items|
    ensures r.Err? <==> !Uniform(old(input.items))
    ensures r.Err? ==> r.error == IllegalArgument
    ensures old(input.items) == [] ==> r == Ok(input) && input.items == []
    ensures r.Ok? && old(input.items) != [] ==>
      fresh(r.value) && input.items == [] && r.value.items == QuickSort(old(input.items))
  {
    if |input.items| < 1 {
      return Ok(input);
    }
    var ok, pivot, left, right := SplitAtPivot(input);
    if !ok {
      return Err(IllegalArgument);
    }
    var lo := HashesSort(left);
    if lo.Err? {
      assert false;
    }
    var hi := HashesSort(right);
    if hi.Err? {
      assert false;
    }
    var sortedList := Join(lo.value, pivot, hi.value);
    return Ok(sortedList);
  }

  /** The first half of `HashesSort`'s body: takes the pivot out with
      `remove(0)` and drains the rest into two fresh lists. */
  method SplitAtPivot(input: ArrayList<Bytes>) returns (ok: bool, pivot: Bytes, left: ArrayList<Bytes>, right: ArrayList<Bytes>)
    requires input.items != []
    modifies input
    ensures fresh(left) && fresh(right) && left != right
    ensures ok <==> Uniform(old(input.items))
    ensures ok ==> input.items == [] && Uniform(left.items) && Uniform(right.items)
    ensures ok ==> |left.items| < |old(input.items)| && |right.items| < |old(input.items)|
    ensures ok ==> QuickSort(old(input.items)) == QuickSort(left.items) + [pivot] + QuickSort(right.items)
  {
    ghost var all := input.items;
    left := new ArrayList<Bytes>.Empty();
    right := new ArrayList<Bytes>.Empty();
    pivot := input.RemoveFirst();
    ghost var rest := input.items;
    assert all == [pivot] + rest;
    UniformCons(pivot, rest);
    ok := DrainAroundPivot(pivot, input, left, right);
    if ok {
      AllOfLengthUniform(left.items, |pivot|);
      AllOfLengthUniform(right.items, |pivot|);
      QuickSortCons(pivot, rest);
    }
  }

  /** `[pivot] + rest` is uniform exactly when all of `rest` has the pivot's length. */
  lemma UniformCons(pivot: Bytes, rest: seq<Bytes>)
    ensures Uniform([pivot] + rest) <==> AllOfLength(rest, |pivot|)
  {
    var s := [pivot] + rest;
    assert forall i :: 0 <= i < |rest| ==> s[i + 1] == rest[i];
  }

  lemma AllOfLengthUniform(s: seq<Bytes>, n: nat)
    requires AllOfLength(s, n)
    ensures Uniform(s)
  {
  }

  /** One unfolding of the sort's definition. */
  lemma QuickSortCons(pivot: Bytes, rest: seq<Bytes>)
    requires AllOfLength(rest, |pivot|)
    ensures Uniform([pivot] + rest)
    ensures QuickSort([pivot] + rest) == QuickSort(Below(pivot, rest)) + [pivot] + QuickSort(NotBelow(pivot, rest))
  {
    UniformCons(pivot, rest);
    assert ([pivot] + rest)[1..] == rest;
  }

  /** `new ArrayList<>(left)`, then `add(pivot)` and `addAll(right)`. */
  method Join(left: ArrayList<Bytes>, pivot: Bytes, right: ArrayList<Bytes>) returns (r: ArrayList<Bytes>)
    ensures fresh(r) && r.items == left.items + [pivot] + right.items
  {
    r := new ArrayList<Bytes>.Copy(left);
    r.Add(pivot);
    r.AddAll(right);
  }

  /** The `while` loop of `HashesSort`: removes the elements of `input` one by
      one and adds each to `left` when the pivot compares greater than it, to
      `right` otherwise. It stops with `false` at the first element whose
      length differs from the pivot's, where `compareByteArray` throws. */
  method DrainAroundPivot(pivot: Bytes, input: ArrayList<Bytes>, left: ArrayList<Bytes>, right: ArrayList<Bytes>)
    returns (ok: bool)
    requires left.items == [] && right.items == [] && left != right
    modifies input, left, right
    ensures ok <==> AllOfLength(old(input.items), |pivot|)
    ensures ok ==> input.items == []
    ensures ok ==> left.items == Below(pivot, old(input.items))
    ensures ok ==> right.items == NotBelow(pivot, old(input.items))
  {
    ghost var rest := input.items;
    ghost var k := 0;
    while |input.items| > 0
      invariant 0 <= k <= |rest| && input.items == rest[k..]
      invariant AllOfLength(rest[..k], |pivot|)
      invariant left.items == Below(pivot, rest[..k])
      invariant right.items == NotBelow(pivot, rest[..k])
      decreases |rest| - k
    {
      var ele := input.RemoveFirst();
      assert ele == rest[k];
      var c := CompareByteArray(pivot, ele);
      if c.Err? {
        return false;
      }
      assert rest[..k + 1] == rest[..k] + [ele];
      BelowSnoc(pivot, rest[..k], ele);
      if c.value > 0 {
        left.Add(ele);
      } else {
        right.Add(ele);
      }
      k := k + 1;
    }
    assert k == |rest| && rest[..k] == rest;
    return true;
  }

  /** Appending one element to the scanned prefix extends one side of the split. */
  lemma {:induction false} BelowSnoc(pivot: Bytes, s: seq<Bytes>, x: Bytes)
    requires AllOfLength(s, |pivot|) && |x| == |pivot|
    ensures AllOfLength(s + [x], |pivot|)
    ensures Below(pivot, s + [x]) == if Compare(pivot, x) > 0 then Below(pivot, s) + [x] else Below(pivot, s)
    ensures NotBelow(pivot, s + [x]) == if Compare(pivot, x) > 0 then NotBelow(pivot, s) else NotBelow(pivot, s) + [x]
  {
    if |s| > 0 {
      assert (s + [x])[1..] == s[1..] + [x];
      BelowSnoc(pivot, s[1..], x);
    } else {
      assert s + [x] == [x];
    }
  }
}
