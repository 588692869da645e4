/** What the newer `DeltaHash` engine guarantees: the checks made before any
    lookup, the threshold rule, what a call does to the cache, that the cache
    is transparent, and that a directory's digest ignores the order of its
    listing. Transparency: on a filesystem whose canonical paths are unique,
    for calls that share one chunk size or use positive chunk sizes only, a
    memoised digest is the digest computed from scratch. Chunk size 0 breaks
    it when mixed with another size, since it digests no bytes under the
    shared `FULL:0:` key. */
module DeltaHashProperties {
  import opened Base
  import opened FileSystem
  import opened FileChunk
  import opened DeltaUtil
  import opened FolderDigest
  import opened DeltaHash
  import opened Gathering

  // ---------------------------------------------------------------------------
  // Checks, threshold and keys

  /** Bad arguments, a missing path and an entry that is neither a regular
      file nor a directory fail before the cache is consulted, and leave it as it was. */
  lemma ValidationFailsBeforeLookup(algorithm: DigestFn, node: Node, chunkSize: int, chunkCount: int, cache: Cache)
    ensures (chunkCount < -1 || chunkSize < 0) ==> FileRun(algorithm, node, chunkSize, chunkCount, cache) == Run(Err(IllegalArgument), cache)
    ensures chunkCount >= -1 && chunkSize >= 0 && node.Missing? ==> FileRun(algorithm, node, chunkSize, chunkCount, cache) == Run(Err(FileNotFound), cache)
    ensures chunkCount >= -1 && chunkSize >= 0 && node.Special? ==> FileRun(algorithm, node, chunkSize, chunkCount, cache) == Run(Err(IllegalArgument), cache)
  {
  }

  /** With a chunk count of 0 or -1 the threshold rule never fires. */
  lemma ThresholdNeedsPositiveCount(size: nat, chunkSize: int, chunkCount: int)
    requires chunkSize >= 0 && (chunkCount == 0 || chunkCount == -1)
    ensures !ForcesFullHash(size, chunkSize, chunkCount)
  {
    assert (size / 100) * FULL_HASHING_THRESHOLD >= 0;
    assert chunkCount * chunkSize * 1024 == chunkCount * (chunkSize * 1024);
  }

  /** When the threshold rule does not fire for a chunk count of at least 1,
      the file holds at least one buffer of `1024 * chunkSize` bytes. */
  lemma UnforcedFileHoldsABuffer(size: nat, chunkSize: int, chunkCount: int)
    requires chunkSize >= 0 && chunkCount >= 1 && !ForcesFullHash(size, chunkSize, chunkCount)
    ensures size >= 1024 * chunkSize
  {
    var bb := 1024 * chunkSize;
    assert chunkCount * chunkSize * 1024 == chunkCount * bb;
    MulMonotone(bb, 1, chunkCount);
    assert (size / 100) * 100 <= size;
  }

  /** A regular file digest in the newer engine fails, once the arguments are
      valid and the key is not cached, exactly when the chunk count is 0 and
      the file is non-empty but smaller than one chunk. */
  lemma FileDigestFailsIff(algorithm: DigestFn, path: string, data: Bytes, chunkSize: int, chunkCount: int, cache: Cache)
    requires chunkCount >= -1 && chunkSize >= 0
    requires CacheKey(RegularFile(path, data), chunkSize, chunkCount) !in cache
    ensures FileRun(algorithm, RegularFile(path, data), chunkSize, chunkCount, cache).result.Err? <==>
      chunkCount == 0 && 0 < |data| < 1024 * chunkSize
  {
    var node := RegularFile(path, data);
    var eff := EffectiveCount(node, chunkSize, chunkCount);
    ChunkDigestFails(algorithm, node, chunkSize, eff);
    if chunkCount <= 0 {
      ThresholdNeedsPositiveCount(|data|, chunkSize, chunkCount);
    } else if eff != -1 {
      UnforcedFileHoldsABuffer(|data|, chunkSize, chunkCount);
    }
  }

  // ---------------------------------------------------------------------------
  // What one call does to the cache

  /** A cache hit returns the stored digest and changes nothing. */
  lemma CacheHitReturnsStored(algorithm: DigestFn, node: Node, chunkSize: int, chunkCount: int, cache: Cache)
    requires Validate(node, chunkSize, chunkCount).None? && CacheKey(node, chunkSize, chunkCount) in cache
    ensures FileRun(algorithm, node, chunkSize, chunkCount, cache) == Run(Ok(cache[CacheKey(node, chunkSize, chunkCount)]), cache)
  {
  }

  /** A miss for a regular file inserts its digest under exactly its key and
      changes nothing else; a failing digest leaves the cache as it was. */
  lemma FileMissInsertsKey(algorithm: DigestFn, path: string, data: Bytes, chunkSize: int, chunkCount: int, cache: Cache)
    requires chunkCount >= -1 && chunkSize >= 0
    requires CacheKey(RegularFile(path, data), chunkSize, chunkCount) !in cache
    ensures var node := RegularFile(path, data);
      var digest := ChunkDigest(algorithm, node, chunkSize, EffectiveCount(node, chunkSize, chunkCount));
      FileRun(algorithm, node, chunkSize, chunkCount, cache) ==
        if digest.Ok? then Run(digest, cache[CacheKey(node, chunkSize, chunkCount) := digest.value]) else Run(digest, cache)
  {
  }

  /** Where the threshold rule fires, the file is digested whole and stored
      under its full key: the rule sets the chunk count, not the chunk size,
      to -1, and the chunk size it leaves is positive. */
  lemma ForcedFileDigestsWholeFile(algorithm: DigestFn, path: string, data: Bytes, chunkSize: int, chunkCount: int, cache: Cache)
    requires chunkCount >= -1 && chunkSize >= 0 && ForcesFullHash(|data|, chunkSize, chunkCount)
    requires FullKey(path) !in cache
    ensures FileRun(algorithm, RegularFile(path, data), chunkSize, chunkCount, cache) ==
      Run(Ok(algorithm(data)), cache[FullKey(path) := algorithm(data)])
  {
    if chunkCount <= 0 {
      ThresholdNeedsPositiveCount(|data|, chunkSize, chunkCount);
    }
    FullDigestIsWholeFile(algorithm, path, data, chunkSize);
  }

  /** A miss for a directory stores the directory's own digest under its key,
      after the entries' digests the walk cached; a directory with no listed
      entries gets the zero bytes and no entry of its own. */
  lemma DirectoryMissInsertsKey(algorithm: DigestFn, path: string, children: seq<Node>, chunkSize: int, chunkCount: int, cache: Cache)
    requires chunkCount >= -1 && chunkSize >= 0
    requires CacheKey(Directory(path, children), chunkSize, chunkCount) !in cache
    ensures var dir := Directory(path, children);
      var folder := FolderRun(algorithm, dir, chunkSize, chunkCount, cache);
      FileRun(algorithm, dir, chunkSize, chunkCount, cache) ==
        match folder.result
        case Err(e) => Run(Err(e), folder.cache)
        case Ok(None) => Run(Ok(ZeroBytes(DIGEST_LENGTH)), folder.cache)
        case Ok(Some(h)) => Run(Ok(h), folder.cache[CacheKey(dir, chunkSize, chunkCount) := h])
  {
  }

  /** A directory with no listed entries gets the 32 zero bytes, which are not cached. */
  lemma EmptyDirectoryIsZeroSentinel(algorithm: DigestFn, path: string, children: seq<Node>, chunkSize: int, chunkCount: int, cache: Cache)
    requires chunkCount >= -1 && chunkSize >= 0 && Listing(children) == []
    requires CacheKey(Directory(path, children), chunkSize, chunkCount) !in cache
    ensures FileRun(algorithm, Directory(path, children), chunkSize, chunkCount, cache) == Run(Ok(ZeroBytes(DIGEST_LENGTH)), cache)
  {
  }

  /** Skipping excluded entries from position `k` on, when all of them are excluded. */
  lemma {:induction false} ChildrenAllExcluded(algorithm: DigestFn, dir: Node, k: nat, chunkSize: int, chunkCount: int, cache: Cache)
    requires dir.Directory? && k <= |Listing(dir.children)|
    requires forall j :: k <= j < |Listing(dir.children)| ==> Excluded(Listing(dir.children)[j].path)
    ensures ChildrenRun(algorithm, dir, k, chunkSize, chunkCount, cache) == Run(Ok([]), cache)
    decreases |Listing(dir.children)| - k
  {
    if k < |Listing(dir.children)| {
      ChildrenAllExcluded(algorithm, dir, k + 1, chunkSize, chunkCount, cache);
    }
  }

  /** The emptiness test comes before the exclusion filter: a directory whose
      entries are all excluded is not empty, gets the digest of no bytes, and
      that digest is cached. */
  lemma AllExcludedDirectoryIsDigestOfNothing(algorithm: DigestFn, path: string, children: seq<Node>, chunkSize: int, chunkCount: int, cache: Cache)
    requires chunkCount >= -1 && chunkSize >= 0 && |Listing(children)| > 0
    requires forall j :: 0 <= j < |Listing(children)| ==> Excluded(Listing(children)[j].path)
    requires CacheKey(Directory(path, children), chunkSize, chunkCount) !in cache
    ensures var key := CacheKey(Directory(path, children), chunkSize, chunkCount);
      FileRun(algorithm, Directory(path, children), chunkSize, chunkCount, cache) == Run(Ok(algorithm([])), cache[key := algorithm([])])
  {
    ChildrenAllExcluded(algorithm, Directory(path, children), 0, chunkSize, chunkCount, cache);
    assert QuickSort([]) == [];
  }

  // ---------------------------------------------------------------------------
  // The cache only grows, and holds digests

  /** A call never removes or changes a cached digest; from a cache of
      digests it returns a digest and leaves a cache of digests. */
  lemma FileRunKeepsCache(algorithm: DigestFn, node: Node, chunkSize: int, chunkCount: int, cache: Cache)
    requires ValidCache(cache)
    ensures var run := FileRun(algorithm, node, chunkSize, chunkCount, cache);
      Extends(run.cache, cache) && ValidCache(run.cache) && (run.result.Ok? ==> |run.result.value| == DIGEST_LENGTH)
    decreases node, 2, 0
  {
    var key := CacheKey(node, chunkSize, chunkCount);
    if Validate(node, chunkSize, chunkCount).None? && key !in cache {
      if node.RegularFile? {
        var digest := ChunkDigest(algorithm, node, chunkSize, EffectiveCount(node, chunkSize, chunkCount));
        if digest.Ok? {
          InsertExtends(cache, cache, key, digest.value);
        }
      } else {
        FolderRunKeepsCache(algorithm, node, chunkSize, chunkCount, cache);
        var folder := FolderRun(algorithm, node, chunkSize, chunkCount, cache);
        if folder.result.Ok? && folder.result.value.Some? {
          InsertExtends(folder.cache, cache, key, folder.result.value.value);
        }
      }
    }
  }

  /** Storing a digest under a key the earlier cache lacked keeps every earlier entry. */
  lemma InsertExtends(after: Cache, before: Cache, key: string, h: Bytes)
    requires Extends(after, before) && ValidCache(after) && key !in before && |h| == DIGEST_LENGTH
    ensures Extends(after[key := h], before) && ValidCache(after[key := h])
  {
  }

  /** The same for a directory; and a directory digest then fails only when an entry's digest fails. */
  lemma FolderRunKeepsCache(algorithm: DigestFn, dir: Node, chunkSize: int, chunkCount: int, cache: Cache)
    requires dir.Directory? && ValidCache(cache)
    ensures var run := FolderRun(algorithm, dir, chunkSize, chunkCount, cache);
      && Extends(run.cache, cache) && ValidCache(run.cache)
      && (run.result.Ok? && run.result.value.Some? ==> |run.result.value.value| == DIGEST_LENGTH)
      && (run.result.Err? ==> ChildrenRun(algorithm, dir, 0, chunkSize, chunkCount, cache).result.Err?)
    decreases dir, 1, 0
  {
    if |Listing(dir.children)| > 0 {
      ChildrenRunKeepsCache(algorithm, dir, 0, chunkSize, chunkCount, cache);
      var hashes := ChildrenRun(algorithm, dir, 0, chunkSize, chunkCount, cache);
      if hashes.result.Ok? {
        ArrayDigestOfDigests(algorithm, hashes.result.value);
      }
    }
  }

  /** The same for the loop over a directory's entries. */
  lemma ChildrenRunKeepsCache(algorithm: DigestFn, dir: Node, k: nat, chunkSize: int, chunkCount: int, cache: Cache)
    requires dir.Directory? && k <= |Listing(dir.children)| && ValidCache(cache)
    ensures var run := ChildrenRun(algorithm, dir, k, chunkSize, chunkCount, cache);
      Extends(run.cache, cache) && ValidCache(run.cache) && (run.result.Ok? ==> AllOfLength(run.result.value, DIGEST_LENGTH))
    decreases dir, 0, |Listing(dir.children)| - k
  {
    var listing := Listing(dir.children);
    if k < |listing| {
      var child := listing[k];
      assert child in dir.children;
      ChildrenRunStep(algorithm, dir, k, chunkSize, chunkCount, cache);
      if Excluded(child.path) {
        ChildrenRunKeepsCache(algorithm, dir, k + 1, chunkSize, chunkCount, cache);
      } else {
        FileRunKeepsCache(algorithm, child, chunkSize, chunkCount, cache);
        var first := FileRun(algorithm, child, chunkSize, chunkCount, cache);
        if first.result.Ok? {
          ChildrenRunKeepsCache(algorithm, dir, k + 1, chunkSize, chunkCount, first.cache);
          var rest := ChildrenRun(algorithm, dir, k + 1, chunkSize, chunkCount, first.cache);
          PrependRunOfLength(first.result.value, rest);
          ExtendsTrans(rest.cache, first.cache, cache);
        }
      }
    }
  }

  // ---------------------------------------------------------------------------
  // The cache is transparent

  /** The digest `DeltaFileHash` computes when nothing is cached: the same
      checks, threshold rule and directory rule, without keys. */
  function PureHash(algorithm: DigestFn, node: Node, chunkSize: int, chunkCount: int): Result<Bytes>
    decreases node, 2, 0
  {
    match Validate(node, chunkSize, chunkCount)
    case Some(e) => Err(e)
    case None =>
      if node.RegularFile? then ChunkDigest(algorithm, node, chunkSize, EffectiveCount(node, chunkSize, chunkCount))
      else
        match PureFolder(algorithm, node, chunkSize, chunkCount)
        case Err(e) => Err(e)
        case Ok(None) => Ok(ZeroBytes(DIGEST_LENGTH))
        case Ok(Some(h)) => Ok(h)
  }

  function PureFolder(algorithm: DigestFn, dir: Node, chunkSize: int, chunkCount: int): Result<Option<Bytes>>
    requires dir.Directory?
    decreases dir, 1, 0
  {
    if |Listing(dir.children)| == 0 then Ok(None)
    else
      match PureChildren(algorithm, dir, 0, chunkSize, chunkCount)
      case Err(e) => Err(e)
      case Ok(hs) =>
        match ArrayDigest(algorithm, hs)
        case Err(e) => Err(e)
        case Ok(h) => Ok(Some(h))
  }

  function PureChildren(algorithm: DigestFn, dir: Node, k: nat, chunkSize: int, chunkCount: int): Result<seq<Bytes>>
    requires dir.Directory? && k <= |Listing(dir.children)|
    decreases dir, 0, |Listing(dir.children)| - k
  {
    var listing := Listing(dir.children);
    if k == |listing| then Ok([])
    else
      var child := listing[k];
      assert child in dir.children;
      if Excluded(child.path) then PureChildren(algorithm, dir, k + 1, chunkSize, chunkCount)
      else
        match PureHash(algorithm, child, chunkSize, chunkCount)
        case Err(e) => Err(e)
        case Ok(h) =>
          match PureChildren(algorithm, dir, k + 1, chunkSize, chunkCount)
          case Err(e) => Err(e)
          case Ok(hs) => Ok([h] + hs)
  }

  /** The chunk sizes of calls that may share one engine: a single size, or
      any number of positive sizes. Chunk size 0 digests no bytes in full mode
      but shares the `FULL:0:` key with the positive sizes. */
  predicate SharedSizes(sizes: set<int>) {
    forall s, t :: s in sizes && t in sizes ==> s == t || (s > 0 && t > 0)
  }

  /** Every digest cached under a key of an entry of `root`, for a chunk size
      of `sizes` and any chunk count, is that entry's digest from scratch. */
  ghost predicate Coherent(algorithm: DigestFn, cache: Cache, root: Node, sizes: set<int>) {
    forall n, s, c :: InTree(n, root) && s in sizes && c >= -1 && CacheKey(n, s, c) in cache ==>
      PureHash(algorithm, n, s, c) == Ok(cache[CacheKey(n, s, c)])
  }

  /** In full mode a positive chunk size only sets the buffer size: the digest
      is the same for every positive chunk size. */
  lemma FullHashIgnoresChunkSize(algorithm: DigestFn, node: Node, s1: int, s2: int)
    requires s1 > 0 && s2 > 0
    ensures PureHash(algorithm, node, s1, -1) == PureHash(algorithm, node, s2, -1)
    decreases node, 2, 0
  {
    if Validate(node, s1, -1).None? {
      if node.RegularFile? {
        ThresholdNeedsPositiveCount(|node.data|, s1, -1);
        ThresholdNeedsPositiveCount(|node.data|, s2, -1);
        FullDigestIsWholeFile(algorithm, node.path, node.data, s1);
        FullDigestIsWholeFile(algorithm, node.path, node.data, s2);
      } else if |Listing(node.children)| > 0 {
        FullChildrenIgnoreChunkSize(algorithm, node, 0, s1, s2);
      }
    }
  }

  lemma FullChildrenIgnoreChunkSize(algorithm: DigestFn, dir: Node, k: nat, s1: int, s2: int)
    requires dir.Directory? && k <= |Listing(dir.children)| && s1 > 0 && s2 > 0
    ensures PureChildren(algorithm, dir, k, s1, -1) == PureChildren(algorithm, dir, k, s2, -1)
    decreases dir, 0, |Listing(dir.children)| - k
  {
    var listing := Listing(dir.children);
    if k < |listing| {
      assert listing[k] in dir.children;
      FullHashIgnoresChunkSize(algorithm, listing[k], s1, s2);
      FullChildrenIgnoreChunkSize(algorithm, dir, k + 1, s1, s2);
    }
  }

  /** Two entries of a tree with unique paths whose keys coincide have the same
      digest, the first for any chunk size the second may share an engine with. */
  lemma KeyDeterminesDigest(algorithm: DigestFn, root: Node, n1: Node, s1: int, c1: int, n2: Node, s2: int, c2: int)
    requires UniquePaths(root) && InTree(n1, root) && InTree(n2, root) && c1 >= -1
    requires Validate(n2, s2, c2).None? && (s1 == s2 || (s1 > 0 && s2 > 0))
    requires CacheKey(n1, s1, c1) == CacheKey(n2, s2, c2)
    ensures PureHash(algorithm, n1, s1, c1) == PureHash(algorithm, n2, s2, c2)
  {
    var e1 := EffectiveCount(n1, s1, c1);
    var e2 := EffectiveCount(n2, s2, c2);
    if e1 == -1 && e2 == -1 {
      KeyPathOfFullKey(n1.path);
      KeyPathOfFullKey(n2.path);
      assert n1 == n2;
      if s1 != s2 {
        if n1.RegularFile? {
          FullDigestIsWholeFile(algorithm, n1.path, n1.data, s1);
          FullDigestIsWholeFile(algorithm, n1.path, n1.data, s2);
        } else {
          FullHashIgnoresChunkSize(algorithm, n1, s1, s2);
        }
      }
    } else if e1 != -1 && e2 != -1 {
      KeyDeterminesFields(s1, c1, n1.path, s2, c2, n2.path);
    } else if e1 == -1 {
      FullKeyIsNotKey(s2, c2, n2.path, n1.path);
    } else {
      FullKeyIsNotKey(s1, c1, n1.path, n2.path);
    }
  }

  /** Caching a from-scratch digest under its own key keeps the cache coherent. */
  lemma CoherentInsert(algorithm: DigestFn, cache: Cache, root: Node, sizes: set<int>, node: Node, chunkSize: int, chunkCount: int, h: Bytes)
    requires Coherent(algorithm, cache, root, sizes) && SharedSizes(sizes) && chunkSize in sizes
    requires UniquePaths(root) && InTree(node, root) && chunkCount >= -1
    requires PureHash(algorithm, node, chunkSize, chunkCount) == Ok(h)
    ensures Coherent(algorithm, cache[CacheKey(node, chunkSize, chunkCount) := h], root, sizes)
  {
    var key := CacheKey(node, chunkSize, chunkCount);
    var after := cache[key := h];
    forall n, s, c | InTree(n, root) && s in sizes && c >= -1 && CacheKey(n, s, c) in after
      ensures PureHash(algorithm, n, s, c) == Ok(after[CacheKey(n, s, c)])
    {
      if CacheKey(n, s, c) == key {
        KeyDeterminesDigest(algorithm, root, n, s, c, node, chunkSize, chunkCount);
      }
    }
  }

  /** On a coherent cache, `DeltaFileHash` returns the from-scratch digest of
      any entry of the tree and leaves the cache coherent. */
  lemma TransparentFile(algorithm: DigestFn, root: Node, sizes: set<int>, node: Node, chunkSize: int, chunkCount: int, cache: Cache)
    requires SharedSizes(sizes) && chunkSize in sizes
    requires UniquePaths(root) && InTree(node, root) && Coherent(algorithm, cache, root, sizes)
    ensures FileRun(algorithm, node, chunkSize, chunkCount, cache).result == PureHash(algorithm, node, chunkSize, chunkCount)
    ensures Coherent(algorithm, FileRun(algorithm, node, chunkSize, chunkCount, cache).cache, root, sizes)
    decreases node, 2, 0
  {
    if Validate(node, chunkSize, chunkCount).None? {
      var key := CacheKey(node, chunkSize, chunkCount);
      if key !in cache {
        if node.RegularFile? {
          var digest := ChunkDigest(algorithm, node, chunkSize, EffectiveCount(node, chunkSize, chunkCount));
          if digest.Ok? {
            CoherentInsert(algorithm, cache, root, sizes, node, chunkSize, chunkCount, digest.value);
          }
        } else {
          TransparentFolder(algorithm, root, sizes, node, chunkSize, chunkCount, cache);
          var folder := FolderRun(algorithm, node, chunkSize, chunkCount, cache);
          if folder.result.Ok? && folder.result.value.Some? {
            CoherentInsert(algorithm, folder.cache, root, sizes, node, chunkSize, chunkCount, folder.result.value.value);
          }
        }
      }
    }
  }

  lemma TransparentFolder(algorithm: DigestFn, root: Node, sizes: set<int>, dir: Node, chunkSize: int, chunkCount: int, cache: Cache)
    requires SharedSizes(sizes) && chunkSize in sizes
    requires dir.Directory? && UniquePaths(root) && InTree(dir, root) && Coherent(algorithm, cache, root, sizes)
    ensures FolderRun(algorithm, dir, chunkSize, chunkCount, cache).result == PureFolder(algorithm, dir, chunkSize, chunkCount)
    ensures Coherent(algorithm, FolderRun(algorithm, dir, chunkSize, chunkCount, cache).cache, root, sizes)
    decreases dir, 1, 0
  {
    if |Listing(dir.children)| > 0 {
      TransparentChildren(algorithm, root, sizes, dir, 0, chunkSize, chunkCount, cache);
      FolderMatchesPure(algorithm, dir, chunkSize, chunkCount, cache);
    }
  }

  /** A folder's run agrees with its from-scratch digest when its loop does. */
  lemma FolderMatchesPure(algorithm: DigestFn, dir: Node, chunkSize: int, chunkCount: int, cache: Cache)
    requires dir.Directory? && |Listing(dir.children)| > 0
    requires ChildrenRun(algorithm, dir, 0, chunkSize, chunkCount, cache).result == PureChildren(algorithm, dir, 0, chunkSize, chunkCount)
    ensures FolderRun(algorithm, dir, chunkSize, chunkCount, cache).result == PureFolder(algorithm, dir, chunkSize, chunkCount)
    ensures FolderRun(algorithm, dir, chunkSize, chunkCount, cache).cache == ChildrenRun(algorithm, dir, 0, chunkSize, chunkCount, cache).cache
  {
  }

  lemma TransparentChildren(algorithm: DigestFn, root: Node, sizes: set<int>, dir: Node, k: nat, chunkSize: int, chunkCount: int, cache: Cache)
    requires dir.Directory? && k <= |Listing(dir.children)|
    requires SharedSizes(sizes) && chunkSize in sizes
    requires UniquePaths(root) && InTree(dir, root) && Coherent(algorithm, cache, root, sizes)
    ensures ChildrenRun(algorithm, dir, k, chunkSize, chunkCount, cache).result == PureChildren(algorithm, dir, k, chunkSize, chunkCount)
    ensures Coherent(algorithm, ChildrenRun(algorithm, dir, k, chunkSize, chunkCount, cache).cache, root, sizes)
    decreases dir, 0, |Listing(dir.children)| - k
  {
    var listing := Listing(dir.children);
    if k < |listing| {
      var child := listing[k];
      assert child in dir.children;
      ChildrenRunStep(algorithm, dir, k, chunkSize, chunkCount, cache);
      if Excluded(child.path) {
        TransparentChildren(algorithm, root, sizes, dir, k + 1, chunkSize, chunkCount, cache);
      } else {
        InTreeChild(dir, child, root);
        TransparentFile(algorithm, root, sizes, child, chunkSize, chunkCount, cache);
        var first := FileRun(algorithm, child, chunkSize, chunkCount, cache);
        if first.result.Ok? {
          TransparentChildren(algorithm, root, sizes, dir, k + 1, chunkSize, chunkCount, first.cache);
          PrependMatchesPure(first.result.value, ChildrenRun(algorithm, dir, k + 1, chunkSize, chunkCount, first.cache),
            PureChildren(algorithm, dir, k + 1, chunkSize, chunkCount));
        }
      }
    }
  }

  lemma PrependMatchesPure(h: Bytes, run: Run<seq<Bytes>>, pure: Result<seq<Bytes>>)
    requires run.result == pure
    ensures PrependRun([h], run).result == match pure case Err(e) => Err(e) case Ok(hs) => Ok([h] + hs)
  {
  }

  /** A fresh engine's first digest of a tree with unique paths is the digest from scratch. */
  lemma FreshEngineIsTransparent(algorithm: DigestFn, root: Node, chunkSize: int, chunkCount: int)
    requires UniquePaths(root)
    ensures FileRun(algorithm, root, chunkSize, chunkCount, map[]).result == PureHash(algorithm, root, chunkSize, chunkCount)
  {
    TransparentFile(algorithm, root, {chunkSize}, root, chunkSize, chunkCount, map[]);
  }
  /** Calls whose chunk sizes may share an engine can follow each other: after
      a first call, a second one on any entry of the tree still returns the
      digest from scratch. */
  lemma SecondCallIsTransparent(algorithm: DigestFn, root: Node, first: Node, s1: int, c1: int, second: Node, s2: int, c2: int)
    requires UniquePaths(root) && InTree(first, root) && InTree(second, root)
    requires s1 == s2 || (s1 > 0 && s2 > 0)
    ensures var cache := FileRun(algorithm, first, s1, c1, map[]).cache;
      FileRun(algorithm, second, s2, c2, cache).result == PureHash(algorithm, second, s2, c2)
  {
    var sizes := {s1, s2};
    TransparentFile(algorithm, root, sizes, first, s1, c1, map[]);
    TransparentFile(algorithm, root, sizes, second, s2, c2, FileRun(algorithm, first, s1, c1, map[]).cache);
  }

  /** As written, chunk size 0 passes the checks (only a negative size is
      refused), digests no bytes in full mode, and caches that digest under the
      `FULL:0:` key, which a later full-mode call with chunk size 1 answers from. */
  lemma ZeroChunkSizeSharesFullKey(algorithm: DigestFn, path: string, data: Bytes)
    ensures var cache := FileRun(algorithm, RegularFile(path, data), 0, -1, map[]).cache;
      && FileRun(algorithm, RegularFile(path, data), 1, -1, cache).result == Ok(algorithm([]))
      && PureHash(algorithm, RegularFile(path, data), 1, -1) == Ok(algorithm(data))
  {
    ThresholdNeedsPositiveCount(|data|, 0, -1);
    ThresholdNeedsPositiveCount(|data|, 1, -1);
    ZeroChunkSizeDigestsNothing(algorithm, path, data, -1);
    FullDigestIsWholeFile(algorithm, path, data, 1);
  }

  // ---------------------------------------------------------------------------
  // The order of a listing does not matter

  /** The from-scratch digest of an entry, as the loop over a listing applies it. */
  function EntryDigest(algorithm: DigestFn, chunkSize: int, chunkCount: int): Node -> Result<Bytes> {
    (n: Node) => PureHash(algorithm, n, chunkSize, chunkCount)
  }

  /** The entries a directory digest does not skip. */
  function Kept(): Node -> bool {
    (n: Node) => !Excluded(n.path)
  }

  /** The loop over a directory's listing gathers the digests of the entries it keeps. */
  lemma {:induction false} PureChildrenGathers(algorithm: DigestFn, dir: Node, k: nat, chunkSize: int, chunkCount: int)
    requires dir.Directory? && k <= |Listing(dir.children)|
    ensures PureChildren(algorithm, dir, k, chunkSize, chunkCount) ==
      Gather(EntryDigest(algorithm, chunkSize, chunkCount), Kept(), Listing(dir.children)[k..])
    decreases |Listing(dir.children)| - k
  {
    var listing := Listing(dir.children);
    if k < |listing| {
      assert listing[k..][1..] == listing[k + 1..];
      PureChildrenGathers(algorithm, dir, k + 1, chunkSize, chunkCount);
    }
  }

  /** Listing the same entries in another order gathers the same digests in
      another order, or fails in both orders. */
  lemma PureChildrenPermutation(algorithm: DigestFn, d1: Node, d2: Node, chunkSize: int, chunkCount: int)
    requires d1.Directory? && d2.Directory? && multiset(Listing(d1.children)) == multiset(Listing(d2.children))
    ensures PureChildren(algorithm, d1, 0, chunkSize, chunkCount).Ok? <==> PureChildren(algorithm, d2, 0, chunkSize, chunkCount).Ok?
    ensures PureChildren(algorithm, d1, 0, chunkSize, chunkCount).Ok? ==>
      multiset(PureChildren(algorithm, d1, 0, chunkSize, chunkCount).value) == multiset(PureChildren(algorithm, d2, 0, chunkSize, chunkCount).value)
  {
    var l1, l2 := Listing(d1.children), Listing(d2.children);
    PureChildrenGathers(algorithm, d1, 0, chunkSize, chunkCount);
    PureChildrenGathers(algorithm, d2, 0, chunkSize, chunkCount);
    assert l1[0..] == l1 && l2[0..] == l2;
    GatherPermutation(EntryDigest(algorithm, chunkSize, chunkCount), Kept(), l1, l2);
  }

  /** So does the folder digest: both orders give the same one, or both fail. */
  lemma PureFolderPermutation(algorithm: DigestFn, d1: Node, d2: Node, chunkSize: int, chunkCount: int)
    requires d1.Directory? && d2.Directory? && multiset(d1.children) == multiset(d2.children)
    ensures PureFolder(algorithm, d1, chunkSize, chunkCount).Ok? <==> PureFolder(algorithm, d2, chunkSize, chunkCount).Ok?
    ensures PureFolder(algorithm, d1, chunkSize, chunkCount).Ok? ==>
      PureFolder(algorithm, d1, chunkSize, chunkCount) == PureFolder(algorithm, d2, chunkSize, chunkCount)
  {
    var l1, l2 := Listing(d1.children), Listing(d2.children);
    ListingPermutation(d1.children, d2.children);
    assert |l1| == |multiset(l1)| == |multiset(l2)| == |l2|;
    if |l1| > 0 {
      PureChildrenPermutation(algorithm, d1, d2, chunkSize, chunkCount);
      var g1, g2 := PureChildren(algorithm, d1, 0, chunkSize, chunkCount), PureChildren(algorithm, d2, 0, chunkSize, chunkCount);
      if g1.Ok? {
        ArrayDigestPermutation(algorithm, g1.value, g2.value);
      }
    }
  }

  /** A directory whose entries are listed in another order has a digest
      exactly when it had one, and the same digest. */
  lemma PureHashPermutation(algorithm: DigestFn, p1: string, c1: seq<Node>, p2: string, c2: seq<Node>, chunkSize: int, chunkCount: int)
    requires multiset(c1) == multiset(c2)
    ensures PureHash(algorithm, Directory(p1, c1), chunkSize, chunkCount).Ok? <==>
      PureHash(algorithm, Directory(p2, c2), chunkSize, chunkCount).Ok?
    ensures PureHash(algorithm, Directory(p1, c1), chunkSize, chunkCount).Ok? ==>
      PureHash(algorithm, Directory(p1, c1), chunkSize, chunkCount) == PureHash(algorithm, Directory(p2, c2), chunkSize, chunkCount)
  {
    PureFolderPermutation(algorithm, Directory(p1, c1), Directory(p2, c2), chunkSize, chunkCount);
  }

  /** A fresh engine gives a directory with unique paths the same digest
      whatever order the filesystem lists its entries in. */
  lemma DirectoryOrderIsIrrelevant(algorithm: DigestFn, p1: string, c1: seq<Node>, p2: string, c2: seq<Node>, chunkSize: int, chunkCount: int)
    requires multiset(c1) == multiset(c2) && UniquePaths(Directory(p1, c1)) && UniquePaths(Directory(p2, c2))
    ensures var r1 := FileRun(algorithm, Directory(p1, c1), chunkSize, chunkCount, map[]).result;
      var r2 := FileRun(algorithm, Directory(p2, c2), chunkSize, chunkCount, map[]).result;
      && (r1.Ok? <==> r2.Ok?)
      && (r1.Ok? ==> r1 == r2)
  {
    FreshEngineIsTransparent(algorithm, Directory(p1, c1), chunkSize, chunkCount);
    FreshEngineIsTransparent(algorithm, Directory(p2, c2), chunkSize, chunkCount);
    PureHashPermutation(algorithm, p1, c1, p2, c2, chunkSize, chunkCount);
  }
}
