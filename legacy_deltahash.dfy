/** The older snapshot of `DeltaHash`. It checks arguments the same way and
    caches a file's digest under `chunkSize:chunkCount:path`, but:
    its threshold rule compares half the file size with the bytes a sampled
    digest reads, and when it fires it sets the chunk SIZE to -1, which
    `FileChunkHash` then rejects; directories are digested inline, every
    listed entry included, and their digests are never cached; an empty
    directory gets the digest of no bytes. Its cache is transparent for any
    mix of chunk parameters, and a directory's digest ignores the order of
    its listing. */
module LegacyDeltaHash {
  import opened Base
  import opened FileSystem
  import opened FileChunk
  import opened Lists
  import opened DeltaUtil
  import opened FolderDigest
  import opened DeltaHash
  import opened Gathering

  /** `(Files.size(path) / 2) < (long) chunkCount * (long) chunkSize * 1024L` */
  predicate LegacyForcesFullHash(size: nat, chunkSize: int, chunkCount: int) {
    size / 2 < chunkCount * chunkSize * 1024
  }

  /** `"FULL:" + canonicalPath` */
  function LegacyFullKey(path: string): string {
    "FULL:" + path
  }

  /** Whether the threshold rule fires for `node`. */
  predicate Forced(node: Node, chunkSize: int, chunkCount: int) {
    node.RegularFile? && LegacyForcesFullHash(|node.data|, chunkSize, chunkCount)
  }

  /** The key the lookup uses. */
  function LegacyCacheKey(node: Node, chunkSize: int, chunkCount: int): string {
    if Forced(node, chunkSize, chunkCount) then LegacyFullKey(node.path) else Key(chunkSize, chunkCount, node.path)
  }

  /** `DeltaFileHash(path, chunkSize, chunkCount)` of the older snapshot, on a cache. */
  function LegacyFileRun(algorithm: DigestFn, node: Node, chunkSize: int, chunkCount: int, cache: Cache): Run<Bytes>
    decreases node, 1, 0
  {
    match Validate(node, chunkSize, chunkCount)
    case Some(e) => Run(Err(e), cache)
    case None =>
      var key := LegacyCacheKey(node, chunkSize, chunkCount);
      if key in cache then Run(Ok(cache[key]), cache)
      else if node.RegularFile? then
        var size := if Forced(node, chunkSize, chunkCount) then -1 else chunkSize;
        match ChunkDigest(algorithm, node, size, chunkCount)
        case Err(e) => Run(Err(e), cache)
        case Ok(h) => Run(Ok(h), cache[key := h])
      else
        var hashes := LegacyChildrenRun(algorithm, node, 0, chunkSize, chunkCount, cache);
        match hashes.result
        case Err(e) => Run(Err(e), hashes.cache)
        case Ok(hs) => Run(ArrayDigest(algorithm, hs), hashes.cache)
  }

  /** The inline loop over a directory's listing from the `k`-th entry on. */
  function LegacyChildrenRun(algorithm: DigestFn, dir: Node, k: nat, chunkSize: int, chunkCount: int, cache: Cache): Run<seq<Bytes>>
    requires dir.Directory? && k <= |Listing(dir.children)|
    decreases dir, 0, |Listing(dir.children)| - k
  {
    var listing := Listing(dir.children);
    if k == |listing| then Run(Ok([]), cache)
    else
      var child := listing[k];
      assert child in dir.children;
      var first := LegacyFileRun(algorithm, child, chunkSize, chunkCount, cache);
      match first.result
      case Err(e) => Run(Err(e), first.cache)
      case Ok(h) => PrependRun([h], LegacyChildrenRun(algorithm, dir, k + 1, chunkSize, chunkCount, first.cache))
  }

  /** One turn of the inline loop. */
  lemma LegacyChildrenRunStep(algorithm: DigestFn, dir: Node, k: nat, chunkSize: int, chunkCount: int, cache: Cache)
    requires dir.Directory? && k < |Listing(dir.children)|
    ensures var first := LegacyFileRun(algorithm, Listing(dir.children)[k], chunkSize, chunkCount, cache);
      LegacyChildrenRun(algorithm, dir, k, chunkSize, chunkCount, cache) ==
        if first.result.Err? then Run(Err(first.result.error), first.cache)
        else PrependRun([first.result.value], LegacyChildrenRun(algorithm, dir, k + 1, chunkSize, chunkCount, first.cache))
  {
  }

  class LegacyDeltaHash {
    /** `FilesHashed`: key to digest. */
    var filesHashed: Cache
    /** `Algorithm`, as the digest function it names. */
    const algorithm: DigestFn

    /** `new DeltaHash(algorithm)`: an empty cache. */
    constructor(algorithm: DigestFn)
      ensures filesHashed == map[] && this.algorithm == algorithm
    {
      filesHashed := map[];
      this.algorithm := algorithm;
    }

    /** `DeltaFileHash`: validates the arguments, applies the threshold rule,
        answers from the cache when it can; otherwise digests a file and caches
        the digest, or digests every listed entry of a directory and combines
        the digests without caching the result. */
    method DeltaFileHash(node: Node, chunkSize: int, chunkCount: int) returns (r: Result<Bytes>)
      requires chunkSize <= MAX_CHUNK_SIZE && chunkCount <= INT_MAX - 2
      modifies this
      ensures Run(r, filesHashed) == LegacyFileRun(algorithm, node, chunkSize, chunkCount, old(filesHashed))
      decreases node
    {
      if chunkCount < 0 && chunkCount != -1 {
        return Err(IllegalArgument);
      }
      if chunkSize < 0 {
        return Err(IllegalArgument);
      }
      if node.Missing? {
        return Err(FileNotFound);
      }
      var canonicalPath := node.path;
      var key := Key(chunkSize, chunkCount, canonicalPath);
      var isFile := node.RegularFile?;
      var isDirectory := node.Directory?;
      if !isDirectory && !isFile {
        return Err(IllegalArgument);
      }
      var size := chunkSize;
      if isFile && |node.data| / 2 < chunkCount * chunkSize * 1024 {
        size := -1;
      }
      if size == -1 {
        key := LegacyFullKey(canonicalPath);
      }
      assert key == LegacyCacheKey(node, chunkSize, chunkCount);
      if key in filesHashed {
        return Ok(filesHashed[key]);
      }
      if isFile {
        r := FileChunkHash(node, size, chunkCount, algorithm);
        if r.Ok? {
          filesHashed := filesHashed[key := r.value];
        }
      } else {
        var filepath := Listing(node.children);
        var hashes := new ArrayList<Bytes>.Empty();
        var i := 0;
        PrependRunNothing(LegacyChildrenRun(algorithm, node, 0, chunkSize, chunkCount, filesHashed));
        while i < |filepath|
          invariant 0 <= i <= |filepath|
          invariant fresh(hashes)
          invariant LegacyChildrenRun(algorithm, node, 0, chunkSize, chunkCount, old(filesHashed))
                 == PrependRun(hashes.items, LegacyChildrenRun(algorithm, node, i, chunkSize, chunkCount, filesHashed))
        {
          var p := filepath[i];
          assert p in node.children;
          ghost var before := filesHashed;
          var fileHash := DeltaFileHash(p, chunkSize, chunkCount);
          LegacyLoopStep(algorithm, node, i, chunkSize, chunkCount, old(filesHashed), before, filesHashed, hashes.items, fileHash);
          if fileHash.Err? {
            return Err(fileHash.error);
          }
          hashes.Add(fileHash.value);
          i := i + 1;
        }
        assert hashes.items + [] == hashes.items;
        assert LegacyChildrenRun(algorithm, node, 0, chunkSize, chunkCount, old(filesHashed)) == Run(Ok(hashes.items), filesHashed);
        r := FolderArrayHash(hashes, algorithm);
      }
    }
  }

  /** One turn of the inline loop: the entry's outcome either ends the loop
      with its error or extends the digests collected so far. */
  lemma LegacyLoopStep(algorithm: DigestFn, node: Node, i: nat, chunkSize: int, chunkCount: int,
                       start: Cache, before: Cache, after: Cache, items: seq<Bytes>, r: Result<Bytes>)
    requires node.Directory? && i < |Listing(node.children)|
    requires LegacyChildrenRun(algorithm, node, 0, chunkSize, chunkCount, start)
          == PrependRun(items, LegacyChildrenRun(algorithm, node, i, chunkSize, chunkCount, before))
    requires Run(r, after) == LegacyFileRun(algorithm, Listing(node.children)[i], chunkSize, chunkCount, before)
    ensures r.Err? ==> LegacyChildrenRun(algorithm, node, 0, chunkSize, chunkCount, start) == Run(Err(r.error), after)
    ensures r.Ok? ==>
      LegacyChildrenRun(algorithm, node, 0, chunkSize, chunkCount, start)
        == PrependRun(items + [r.value], LegacyChildrenRun(algorithm, node, i + 1, chunkSize, chunkCount, after))
  {
    LegacyChildrenRunStep(algorithm, node, i, chunkSize, chunkCount, before);
    if r.Ok? {
      PrependRunAssoc(items, r.value, LegacyChildrenRun(algorithm, node, i + 1, chunkSize, chunkCount, after));
    }
  }

  // ---------------------------------------------------------------------------
  // Properties

  /** The older snapshot makes the same checks as the newer one before any lookup. */
  lemma LegacyValidationFailsBeforeLookup(algorithm: DigestFn, node: Node, chunkSize: int, chunkCount: int, cache: Cache)
    ensures (chunkCount < -1 || chunkSize < 0) ==> LegacyFileRun(algorithm, node, chunkSize, chunkCount, cache) == Run(Err(IllegalArgument), cache)
    ensures chunkCount >= -1 && chunkSize >= 0 && node.Missing? ==> LegacyFileRun(algorithm, node, chunkSize, chunkCount, cache) == Run(Err(FileNotFound), cache)
    ensures chunkCount >= -1 && chunkSize >= 0 && node.Special? ==> LegacyFileRun(algorithm, node, chunkSize, chunkCount, cache) == Run(Err(IllegalArgument), cache)
  {
  }

  /** The rule fires only for a positive chunk count and chunk size, and then
      the file holds fewer bytes than twice what a sampled digest would read. */
  lemma LegacyForcedNeedsPositiveCount(node: Node, chunkSize: int, chunkCount: int)
    requires chunkSize >= 0 && chunkCount >= -1 && Forced(node, chunkSize, chunkCount)
    ensures chunkCount >= 1 && chunkSize >= 1
  {
  }

  /** Where the threshold rule fires, the digest fails: the chunk size the
      rule sets is negative, and `FileChunkHash` rejects it. */
  lemma LegacyForcedFileFails(algorithm: DigestFn, path: string, data: Bytes, chunkSize: int, chunkCount: int, cache: Cache)
    requires chunkCount >= -1 && chunkSize >= 0 && Forced(RegularFile(path, data), chunkSize, chunkCount)
    requires LegacyFullKey(path) !in cache
    ensures LegacyFileRun(algorithm, RegularFile(path, data), chunkSize, chunkCount, cache) == Run(Err(IllegalArgument), cache)
  {
  }

  /** A regular file digest in the older snapshot fails, once the arguments
      are valid and the key is not cached, exactly when the threshold rule
      fires or the chunk count is 0 and the file is non-empty but smaller than one chunk. */
  lemma LegacyFileDigestFailsIff(algorithm: DigestFn, path: string, data: Bytes, chunkSize: int, chunkCount: int, cache: Cache)
    requires chunkCount >= -1 && chunkSize >= 0
    requires LegacyCacheKey(RegularFile(path, data), chunkSize, chunkCount) !in cache
    ensures LegacyFileRun(algorithm, RegularFile(path, data), chunkSize, chunkCount, cache).result.Err? <==>
      Forced(RegularFile(path, data), chunkSize, chunkCount) || (chunkCount == 0 && 0 < |data| < 1024 * chunkSize)
  {
    var node := RegularFile(path, data);
    var size := if Forced(node, chunkSize, chunkCount) then -1 else chunkSize;
    assert LegacyFileRun(algorithm, node, chunkSize, chunkCount, cache).result == ChunkDigest(algorithm, node, size, chunkCount);
    ChunkDigestFails(algorithm, node, size, chunkCount);
    if !Forced(node, chunkSize, chunkCount) && chunkCount >= 1 {
      UnforcedLegacyFileHoldsABuffer(|data|, chunkSize, chunkCount);
    }
  }

  /** When the rule does not fire for a chunk count of at least 1, the file
      holds at least one buffer of `1024 * chunkSize` bytes. */
  lemma UnforcedLegacyFileHoldsABuffer(size: nat, chunkSize: int, chunkCount: int)
    requires chunkSize >= 0 && chunkCount >= 1 && !LegacyForcesFullHash(size, chunkSize, chunkCount)
    ensures size >= 1024 * chunkSize
  {
    var bb := 1024 * chunkSize;
    assert chunkCount * chunkSize * 1024 == chunkCount * bb;
    MulMonotone(bb, 1, chunkCount);
  }

  /** A directory with no listed entries gets the digest of no bytes. */
  lemma LegacyEmptyDirectory(algorithm: DigestFn, path: string, children: seq<Node>, chunkSize: int, chunkCount: int, cache: Cache)
    requires chunkCount >= -1 && chunkSize >= 0 && Listing(children) == []
    requires Key(chunkSize, chunkCount, path) !in cache
    ensures LegacyFileRun(algorithm, Directory(path, children), chunkSize, chunkCount, cache) == Run(Ok(algorithm([])), cache)
  {
    assert QuickSort([]) == [];
  }

  /** The keys a call adds to `cache` are sampled keys of regular files below
      `node`: never a `FULL:` key, never a directory's key. */
  ghost predicate OnlyFileKeys(after: Cache, before: Cache, node: Node, chunkSize: int, chunkCount: int) {
    forall k :: k in after && k !in before ==>
      exists n :: InTree(n, node) && n.RegularFile? && k == Key(chunkSize, chunkCount, n.path)
  }

  /** A call keeps every cached digest, keeps a cache of digests one, returns
      a digest when it succeeds, and adds only sampled keys of regular files. */
  lemma LegacyRunKeepsCache(algorithm: DigestFn, node: Node, chunkSize: int, chunkCount: int, cache: Cache)
    requires ValidCache(cache)
    ensures var run := LegacyFileRun(algorithm, node, chunkSize, chunkCount, cache);
      && Extends(run.cache, cache) && ValidCache(run.cache)
      && (run.result.Ok? ==> |run.result.value| == DIGEST_LENGTH)
      && OnlyFileKeys(run.cache, cache, node, chunkSize, chunkCount)
    decreases node, 1, 0
  {
    if Validate(node, chunkSize, chunkCount).None? && LegacyCacheKey(node, chunkSize, chunkCount) !in cache {
      if node.RegularFile? {
        var run := LegacyFileRun(algorithm, node, chunkSize, chunkCount, cache);
        if run.cache != cache {
          assert !Forced(node, chunkSize, chunkCount);
          assert InTree(node, node);
        }
      } else {
        LegacyChildrenKeepsCache(algorithm, node, 0, chunkSize, chunkCount, cache);
        var hashes := LegacyChildrenRun(algorithm, node, 0, chunkSize, chunkCount, cache);
        if hashes.result.Ok? {
          ArrayDigestOfDigests(algorithm, hashes.result.value);
        }
      }
    }
  }

  lemma LegacyChildrenKeepsCache(algorithm: DigestFn, dir: Node, k: nat, chunkSize: int, chunkCount: int, cache: Cache)
    requires dir.Directory? && k <= |Listing(dir.children)| && ValidCache(cache)
    ensures var run := LegacyChildrenRun(algorithm, dir, k, chunkSize, chunkCount, cache);
      && Extends(run.cache, cache) && ValidCache(run.cache)
      && (run.result.Ok? ==> AllOfLength(run.result.value, DIGEST_LENGTH))
      && OnlyFileKeys(run.cache, cache, dir, chunkSize, chunkCount)
    decreases dir, 0, |Listing(dir.children)| - k
  {
    var listing := Listing(dir.children);
    if k < |listing| {
      var child := listing[k];
      assert child in dir.children;
      LegacyChildrenRunStep(algorithm, dir, k, chunkSize, chunkCount, cache);
      LegacyRunKeepsCache(algorithm, child, chunkSize, chunkCount, cache);
      var first := LegacyFileRun(algorithm, child, chunkSize, chunkCount, cache);
      BelowChildIsBelow(first.cache, cache, child, dir, chunkSize, chunkCount);
      if first.result.Ok? {
        LegacyChildrenKeepsCache(algorithm, dir, k + 1, chunkSize, chunkCount, first.cache);
        var rest := LegacyChildrenRun(algorithm, dir, k + 1, chunkSize, chunkCount, first.cache);
        PrependRunOfLength(first.result.value, rest);
        ExtendsTrans(rest.cache, first.cache, cache);
        OnlyFileKeysTrans(rest.cache, first.cache, cache, dir, chunkSize, chunkCount);
      }
    }
  }

  lemma BelowChildIsBelow(after: Cache, before: Cache, child: Node, dir: Node, chunkSize: int, chunkCount: int)
    requires dir.Directory? && child in dir.children && OnlyFileKeys(after, before, child, chunkSize, chunkCount)
    ensures OnlyFileKeys(after, before, dir, chunkSize, chunkCount)
  {
    forall k | k in after && k !in before
      ensures exists n :: InTree(n, dir) && n.RegularFile? && k == Key(chunkSize, chunkCount, n.path)
    {
      var n :| InTree(n, child) && n.RegularFile? && k == Key(chunkSize, chunkCount, n.path);
      assert InTree(n, dir);
    }
  }

  lemma OnlyFileKeysTrans(c3: Cache, c2: Cache, c1: Cache, node: Node, chunkSize: int, chunkCount: int)
    requires OnlyFileKeys(c3, c2, node, chunkSize, chunkCount) && OnlyFileKeys(c2, c1, node, chunkSize, chunkCount)
    ensures OnlyFileKeys(c3, c1, node, chunkSize, chunkCount)
  {
  }

  /** The older snapshot never caches a directory digest: on a tree with
      unique paths, a directory's key is absent after a call if it was absent before. */
  lemma LegacyDirectoryNeverCached(algorithm: DigestFn, root: Node, dir: Node, chunkSize: int, chunkCount: int, cache: Cache)
    requires ValidCache(cache) && UniquePaths(root) && InTree(dir, root) && dir.Directory?
    requires Key(chunkSize, chunkCount, dir.path) !in cache
    ensures Key(chunkSize, chunkCount, dir.path) !in LegacyFileRun(algorithm, root, chunkSize, chunkCount, cache).cache
  {
    LegacyRunKeepsCache(algorithm, root, chunkSize, chunkCount, cache);
    var k := Key(chunkSize, chunkCount, dir.path);
    if k in LegacyFileRun(algorithm, root, chunkSize, chunkCount, cache).cache {
      var n :| InTree(n, root) && n.RegularFile? && k == Key(chunkSize, chunkCount, n.path);
      KeyPathOfKey(chunkSize, chunkCount, n.path);
      KeyPathOfKey(chunkSize, chunkCount, dir.path);
    }
  }
  /** A hit returns the stored digest and leaves the cache as it was. */
  lemma LegacyCacheHitReturnsStored(algorithm: DigestFn, node: Node, chunkSize: int, chunkCount: int, cache: Cache)
    requires Validate(node, chunkSize, chunkCount).None? && LegacyCacheKey(node, chunkSize, chunkCount) in cache
    ensures LegacyFileRun(algorithm, node, chunkSize, chunkCount, cache) ==
      Run(Ok(cache[LegacyCacheKey(node, chunkSize, chunkCount)]), cache)
  {
  }

  /** A miss on a regular file the threshold rule leaves alone digests it with
      the given chunk size and caches the digest under its sampled key; a
      failure leaves the cache as it was. */
  lemma LegacyFileMissInsertsKey(algorithm: DigestFn, path: string, data: Bytes, chunkSize: int, chunkCount: int, cache: Cache)
    requires chunkCount >= -1 && chunkSize >= 0 && !Forced(RegularFile(path, data), chunkSize, chunkCount)
    requires Key(chunkSize, chunkCount, path) !in cache
    ensures var digest := ChunkDigest(algorithm, RegularFile(path, data), chunkSize, chunkCount);
      LegacyFileRun(algorithm, RegularFile(path, data), chunkSize, chunkCount, cache) ==
        if digest.Ok? then Run(digest, cache[Key(chunkSize, chunkCount, path) := digest.value]) else Run(digest, cache)
  {
  }

  // ---------------------------------------------------------------------------
  // The cache is transparent

  /** The digest the older `DeltaFileHash` computes when nothing is cached. */
  function LegacyPureHash(algorithm: DigestFn, node: Node, chunkSize: int, chunkCount: int): Result<Bytes>
    decreases node, 1, 0
  {
    match Validate(node, chunkSize, chunkCount)
    case Some(e) => Err(e)
    case None =>
      if node.RegularFile? then
        ChunkDigest(algorithm, node, if Forced(node, chunkSize, chunkCount) then -1 else chunkSize, chunkCount)
      else
        match LegacyPureChildren(algorithm, node, 0, chunkSize, chunkCount)
        case Err(e) => Err(e)
        case Ok(hs) => ArrayDigest(algorithm, hs)
  }

  function LegacyPureChildren(algorithm: DigestFn, dir: Node, k: nat, chunkSize: int, chunkCount: int): Result<seq<Bytes>>
    requires dir.Directory? && k <= |Listing(dir.children)|
    decreases dir, 0, |Listing(dir.children)| - k
  {
    var listing := Listing(dir.children);
    if k == |listing| then Ok([])
    else
      var child := listing[k];
      assert child in dir.children;
      match LegacyPureHash(algorithm, child, chunkSize, chunkCount)
      case Err(e) => Err(e)
      case Ok(h) =>
        match LegacyPureChildren(algorithm, dir, k + 1, chunkSize, chunkCount)
        case Err(e) => Err(e)
        case Ok(hs) => Ok([h] + hs)
  }

  /** Every digest cached under the key of an entry of `root`, for any chunk
      size and chunk count, is that entry's digest from scratch. */
  ghost predicate LegacyCoherent(algorithm: DigestFn, cache: Cache, root: Node) {
    forall n, s, c :: InTree(n, root) && LegacyCacheKey(n, s, c) in cache ==>
      LegacyPureHash(algorithm, n, s, c) == Ok(cache[LegacyCacheKey(n, s, c)])
  }

  /** A `FULL:` key never equals a sampled key: `Integer.toString` never starts with `'F'`. */
  lemma LegacyFullKeyIsNotKey(chunkSize: int, chunkCount: int, path: string, other: string)
    ensures LegacyFullKey(other) != Key(chunkSize, chunkCount, path)
  {
    assert LegacyFullKey(other)[0] == 'F';
    assert Key(chunkSize, chunkCount, path)[0] == IntToString(chunkSize)[0];
  }

  /** Caching the from-scratch digest of a sampled regular file under its key
      keeps the cache coherent. */
  lemma LegacyCoherentInsert(algorithm: DigestFn, cache: Cache, root: Node, file: Node, chunkSize: int, chunkCount: int, h: Bytes)
    requires LegacyCoherent(algorithm, cache, root) && UniquePaths(root) && InTree(file, root)
    requires file.RegularFile? && !Forced(file, chunkSize, chunkCount)
    requires LegacyPureHash(algorithm, file, chunkSize, chunkCount) == Ok(h)
    ensures LegacyCoherent(algorithm, cache[Key(chunkSize, chunkCount, file.path) := h], root)
  {
    var key := Key(chunkSize, chunkCount, file.path);
    var after := cache[key := h];
    forall n, s, c | InTree(n, root) && LegacyCacheKey(n, s, c) in after
      ensures LegacyPureHash(algorithm, n, s, c) == Ok(after[LegacyCacheKey(n, s, c)])
    {
      if LegacyCacheKey(n, s, c) == key {
        if Forced(n, s, c) {
          LegacyFullKeyIsNotKey(chunkSize, chunkCount, file.path, n.path);
        } else {
          KeyDeterminesFields(s, c, n.path, chunkSize, chunkCount, file.path);
        }
      }
    }
  }

  /** On a coherent cache, the older `DeltaFileHash` returns the from-scratch
      digest of any entry of the tree and leaves the cache coherent. */
  lemma LegacyTransparentFile(algorithm: DigestFn, root: Node, node: Node, chunkSize: int, chunkCount: int, cache: Cache)
    requires UniquePaths(root) && InTree(node, root) && LegacyCoherent(algorithm, cache, root)
    ensures LegacyFileRun(algorithm, node, chunkSize, chunkCount, cache).result == LegacyPureHash(algorithm, node, chunkSize, chunkCount)
    ensures LegacyCoherent(algorithm, LegacyFileRun(algorithm, node, chunkSize, chunkCount, cache).cache, root)
    decreases node, 1, 0
  {
    if Validate(node, chunkSize, chunkCount).None? && LegacyCacheKey(node, chunkSize, chunkCount) !in cache {
      if node.RegularFile? {
        var digest := ChunkDigest(algorithm, node, chunkSize, chunkCount);
        if !Forced(node, chunkSize, chunkCount) && digest.Ok? {
          LegacyCoherentInsert(algorithm, cache, root, node, chunkSize, chunkCount, digest.value);
        }
      } else {
        LegacyTransparentChildren(algorithm, root, node, 0, chunkSize, chunkCount, cache);
      }
    }
  }

  lemma LegacyTransparentChildren(algorithm: DigestFn, root: Node, dir: Node, k: nat, chunkSize: int, chunkCount: int, cache: Cache)
    requires dir.Directory? && k <= |Listing(dir.children)|
    requires UniquePaths(root) && InTree(dir, root) && LegacyCoherent(algorithm, cache, root)
    ensures LegacyChildrenRun(algorithm, dir, k, chunkSize, chunkCount, cache).result == LegacyPureChildren(algorithm, dir, k, chunkSize, chunkCount)
    ensures LegacyCoherent(algorithm, LegacyChildrenRun(algorithm, dir, k, chunkSize, chunkCount, cache).cache, root)
    decreases dir, 0, |Listing(dir.children)| - k
  {
    var listing := Listing(dir.children);
    if k < |listing| {
      var child := listing[k];
      assert child in dir.children;
      LegacyChildrenRunStep(algorithm, dir, k, chunkSize, chunkCount, cache);
      InTreeChild(dir, child, root);
      LegacyTransparentFile(algorithm, root, child, chunkSize, chunkCount, cache);
      var first := LegacyFileRun(algorithm, child, chunkSize, chunkCount, cache);
      if first.result.Ok? {
        LegacyTransparentChildren(algorithm, root, dir, k + 1, chunkSize, chunkCount, first.cache);
      }
    }
  }

  /** A fresh engine's first digest of a tree with unique paths is the digest from scratch. */
  lemma LegacyFreshEngineIsTransparent(algorithm: DigestFn, root: Node, chunkSize: int, chunkCount: int)
    requires UniquePaths(root)
    ensures LegacyFileRun(algorithm, root, chunkSize, chunkCount, map[]).result == LegacyPureHash(algorithm, root, chunkSize, chunkCount)
  {
    assert InTree(root, root);
    LegacyTransparentFile(algorithm, root, root, chunkSize, chunkCount, map[]);
  }

  /** Any two calls can share an older engine: it caches only sampled keys,
      which name their chunk size and chunk count, so after a first call a
      second one, whatever its parameters, still returns the digest from scratch. */
  lemma LegacySecondCallIsTransparent(algorithm: DigestFn, root: Node, first: Node, s1: int, c1: int, second: Node, s2: int, c2: int)
    requires UniquePaths(root) && InTree(first, root) && InTree(second, root)
    ensures var cache := LegacyFileRun(algorithm, first, s1, c1, map[]).cache;
      LegacyFileRun(algorithm, second, s2, c2, cache).result == LegacyPureHash(algorithm, second, s2, c2)
  {
    LegacyTransparentFile(algorithm, root, first, s1, c1, map[]);
    LegacyTransparentFile(algorithm, root, second, s2, c2, LegacyFileRun(algorithm, first, s1, c1, map[]).cache);
  }

  // ---------------------------------------------------------------------------
  // The order of a listing does not matter

  /** The from-scratch digest of an entry, as the inline loop applies it. */
  function LegacyEntryDigest(algorithm: DigestFn, chunkSize: int, chunkCount: int): Node -> Result<Bytes> {
    (n: Node) => LegacyPureHash(algorithm, n, chunkSize, chunkCount)
  }

  /** The inline loop keeps every listed entry. */
  function Every(): Node -> bool {
    (n: Node) => true
  }

  /** The inline loop gathers the digests of every listed entry. */
  lemma {:induction false} LegacyPureChildrenGathers(algorithm: DigestFn, dir: Node, k: nat, chunkSize: int, chunkCount: int)
    requires dir.Directory? && k <= |Listing(dir.children)|
    ensures LegacyPureChildren(algorithm, dir, k, chunkSize, chunkCount) ==
      Gather(LegacyEntryDigest(algorithm, chunkSize, chunkCount), Every(), Listing(dir.children)[k..])
    decreases |Listing(dir.children)| - k
  {
    var listing := Listing(dir.children);
    if k < |listing| {
      assert listing[k..][1..] == listing[k + 1..];
      LegacyPureChildrenGathers(algorithm, dir, k + 1, chunkSize, chunkCount);
    }
  }

  /** A directory whose entries are listed in another order has a digest
      exactly when it had one, and the same digest. */
  lemma LegacyPureHashPermutation(algorithm: DigestFn, p1: string, c1: seq<Node>, p2: string, c2: seq<Node>, chunkSize: int, chunkCount: int)
    requires multiset(c1) == multiset(c2)
    ensures LegacyPureHash(algorithm, Directory(p1, c1), chunkSize, chunkCount).Ok? <==>
      LegacyPureHash(algorithm, Directory(p2, c2), chunkSize, chunkCount).Ok?
    ensures LegacyPureHash(algorithm, Directory(p1, c1), chunkSize, chunkCount).Ok? ==>
      LegacyPureHash(algorithm, Directory(p1, c1), chunkSize, chunkCount) == LegacyPureHash(algorithm, Directory(p2, c2), chunkSize, chunkCount)
  {
    var d1, d2 := Directory(p1, c1), Directory(p2, c2);
    var l1, l2 := Listing(c1), Listing(c2);
    ListingPermutation(c1, c2);
    LegacyPureChildrenGathers(algorithm, d1, 0, chunkSize, chunkCount);
    LegacyPureChildrenGathers(algorithm, d2, 0, chunkSize, chunkCount);
    assert l1[0..] == l1 && l2[0..] == l2;
    GatherPermutation(LegacyEntryDigest(algorithm, chunkSize, chunkCount), Every(), l1, l2);
    var g1, g2 := LegacyPureChildren(algorithm, d1, 0, chunkSize, chunkCount), LegacyPureChildren(algorithm, d2, 0, chunkSize, chunkCount);
    if g1.Ok? {
      ArrayDigestPermutation(algorithm, g1.value, g2.value);
    }
  }

  /** A fresh older engine gives a directory with unique paths the same digest
      whatever order the filesystem lists its entries in. */
  lemma LegacyDirectoryOrderIsIrrelevant(algorithm: DigestFn, p1: string, c1: seq<Node>, p2: string, c2: seq<Node>, chunkSize: int, chunkCount: int)
    requires multiset(c1) == multiset(c2) && UniquePaths(Directory(p1, c1)) && UniquePaths(Directory(p2, c2))
    ensures var r1 := LegacyFileRun(algorithm, Directory(p1, c1), chunkSize, chunkCount, map[]).result;
      var r2 := LegacyFileRun(algorithm, Directory(p2, c2), chunkSize, chunkCount, map[]).result;
      && (r1.Ok? <==> r2.Ok?)
      && (r1.Ok? ==> r1 == r2)
  {
    LegacyFreshEngineIsTransparent(algorithm, Directory(p1, c1), chunkSize, chunkCount);
    LegacyFreshEngineIsTransparent(algorithm, Directory(p2, c2), chunkSize, chunkCount);
    LegacyPureHashPermutation(algorithm, p1, c1, p2, c2, chunkSize, chunkCount);
  }
}
