/** `FolderArrayHash`, which both snapshots of `DeltaHash` carry: a directory's
    digest is the digest of its children's digests, sorted by `HashesSort` and
    concatenated. The newer snapshot calls `DeltaUtil.HashesSort` of its own
    `DeltaUtil`, which is taken to be the older one; the older calls it through
    a static import. */
module FolderDigest {
  import opened Base
  import opened Lists
  import opened DeltaUtil

  /** The arrays of `s` one after the other (`md.update` on each in turn). */
  function Concat(s: seq<Bytes>): (r: Bytes)
    ensures AllOfLength(s, DIGEST_LENGTH) ==> |r| == DIGEST_LENGTH * |s|
  {
    if |s| == 0 then [] else Concat(s[..|s| - 1]) + s[|s| - 1]
  }

  /** What `FolderArrayHash(hashes, algorithm)` returns or raises. */
  function ArrayDigest(algorithm: DigestFn, hashes: seq<Bytes>): (r: Result<Bytes>)
    ensures r.Err? <==> !Uniform(hashes)
    ensures r.Err? ==> r.error == IllegalArgument
    ensures r.Ok? ==> |r.value| == DIGEST_LENGTH
  {
    if Uniform(hashes) then Ok(algorithm(Concat(QuickSort(hashes)))) else Err(IllegalArgument)
  }

  /** `FolderArrayHash`: sorts the list (draining the argument) and digests the sorted arrays in order. */
  method FolderArrayHash(hashes: ArrayList<Bytes>, algorithm: DigestFn) returns (r: Result<Bytes>)
    modifies hashes
    ensures r == ArrayDigest(algorithm, old(hashes.items))
  {
    ghost var all := hashes.items;
    var sorted := HashesSort(hashes);
    if sorted.Err? {
      return Err(sorted.error);
    }
    assert sorted.value.items == QuickSort(all);
    var fed := Feed(sorted.value.items);
    r := Ok(algorithm(fed));
  }

  /** The `md.update` loop: feeds the arrays to the digest one after the other. */
  method Feed(items: seq<Bytes>) returns (fed: Bytes)
    ensures fed == Concat(items)
  {
    fed := [];
    for k := 0 to |items|
      invariant fed == Concat(items[..k])
    {
      assert items[..k + 1][..k] == items[..k];
      fed := fed + items[k];
    }
    assert items[..|items|] == items;
  }

  /** Membership carries uniform length over to a permutation. */
  lemma UniformPermutation(s: seq<Bytes>, t: seq<Bytes>)
    requires Uniform(s) && multiset(s) == multiset(t)
    ensures Uniform(t)
  {
    if |t| > 0 {
      assert t[0] in multiset(s);
      forall i | 0 <= i < |t| ensures |t[i]| == |t[0]| {
        assert t[i] in multiset(s);
      }
    }
  }

  /** A directory digest does not depend on the order of the child digests. */
  lemma ArrayDigestPermutation(algorithm: DigestFn, s: seq<Bytes>, t: seq<Bytes>)
    requires multiset(s) == multiset(t)
    ensures ArrayDigest(algorithm, s) == ArrayDigest(algorithm, t)
  {
    if Uniform(s) {
      UniformPermutation(s, t);
      QuickSortPermutationInvariant(s, t);
    } else if Uniform(t) {
      UniformPermutation(t, s);
    }
  }

  /** Digests of one length never make `FolderArrayHash` throw; no digests at all give the digest of nothing. */
  lemma ArrayDigestOfDigests(algorithm: DigestFn, s: seq<Bytes>)
    requires AllOfLength(s, DIGEST_LENGTH)
    ensures ArrayDigest(algorithm, s).Ok?
    ensures |s| == 0 ==> ArrayDigest(algorithm, s) == Ok(algorithm([]))
  {
  }
}
