/** The newer snapshot of `DeltaHash`: a digest engine for files and
    directories that memoises every digest it computes in a map from a key
    `chunkSize:chunkCount:path` (or `FULL:0:path` for a full digest) to the
    digest.

    The engine's behaviour is specified by state-passing functions: `FileRun`,
    `FolderRun` and `ChildrenRun` take the cache before a call and give the
    call's outcome together with the cache after it. The methods of the class
    `DeltaHash` do the work in place and are proved to agree with them. */
module DeltaHash {
  import opened Base
  import opened FileSystem
  import opened FileChunk
  import opened Lists
  import opened DeltaUtil
  import opened FolderDigest

  type Cache = map<string, Bytes>

  /** `FullHashingThreshold`, a percentage: a sampled digest that would read
      more than half of a file is replaced by a full one. */
  const FULL_HASHING_THRESHOLD: int := 50

  /** Every cached digest has the digest length. */
  predicate ValidCache(cache: Cache) {
    forall k :: k in cache ==> |cache[k]| == DIGEST_LENGTH
  }

  /** `after` keeps every entry of `before` unchanged. */
  predicate Extends(after: Cache, before: Cache) {
    forall k :: k in before ==> k in after && after[k] == before[k]
  }

  /** `chunkSize + ":" + chunkCount + ":" + canonicalPath` */
  function Key(chunkSize: int, chunkCount: int, path: string): string {
    IntToString(chunkSize) + ":" + IntToString(chunkCount) + ":" + path
  }

  /** `"FULL:0:" + canonicalPath` */
  function FullKey(path: string): string {
    "FULL:0:" + path
  }

  /** The path a key ends with: everything after its second `':'`. */
  function KeyPath(key: string): string {
    AfterFirst(AfterFirst(key, ':'), ':')
  }

  /** A sampled key gives back the path it was built from, whatever the path
      holds (`':'` included). */
  lemma KeyPathOfKey(chunkSize: int, chunkCount: int, path: string)
    ensures KeyPath(Key(chunkSize, chunkCount, path)) == path
  {
    KeyFields(chunkSize, chunkCount, path);
    AfterFirstSplit(IntToString(chunkSize), ':', IntToString(chunkCount) + [':'] + path);
    AfterFirstSplit(IntToString(chunkCount), ':', path);
  }

  /** A sampled key as its three fields around the two separators. */
  lemma KeyFields(chunkSize: int, chunkCount: int, path: string)
    ensures Key(chunkSize, chunkCount, path) == IntToString(chunkSize) + [':'] + (IntToString(chunkCount) + [':'] + path)
  {
  }

  /** So does a full key. */
  lemma KeyPathOfFullKey(path: string)
    ensures KeyPath(FullKey(path)) == path
  {
    assert "FULL:0:" == "FULL" + [':'] + "0" + [':'];
    assert FullKey(path) == "FULL" + [':'] + ("0" + [':'] + path);
    AfterFirstSplit("FULL", ':', "0" + [':'] + path);
    AfterFirstSplit("0", ':', path);
  }

  /** A full key never equals a sampled key: `Integer.toString` never starts with `'F'`. */
  lemma FullKeyIsNotKey(chunkSize: int, chunkCount: int, path: string, other: string)
    ensures FullKey(other) != Key(chunkSize, chunkCount, path)
  {
    assert FullKey(other)[0] == 'F';
    assert Key(chunkSize, chunkCount, path)[0] == IntToString(chunkSize)[0];
  }

  /** Two sampled keys for the same chunk size and path agree only for the same chunk count. */
  lemma KeyDeterminesCount(chunkSize: int, c1: int, c2: int, path: string)
    requires Key(chunkSize, c1, path) == Key(chunkSize, c2, path)
    ensures c1 == c2
  {
    var u := IntToString(chunkSize);
    KeyFields(chunkSize, c1, path);
    KeyFields(chunkSize, c2, path);
    SplitInjective(u, IntToString(c1) + [':'] + path, u, IntToString(c2) + [':'] + path, ':');
    SplitInjective(IntToString(c1), path, IntToString(c2), path, ':');
    IntToStringInjective(c1, c2);
  }
  /** A sampled key gives back all three of its fields. */
  lemma KeyDeterminesFields(s1: int, c1: int, p1: string, s2: int, c2: int, p2: string)
    requires Key(s1, c1, p1) == Key(s2, c2, p2)
    ensures s1 == s2 && c1 == c2 && p1 == p2
  {
    KeyPathOfKey(s1, c1, p1);
    KeyPathOfKey(s2, c2, p2);
    KeyFields(s1, c1, p1);
    KeyFields(s2, c2, p2);
    SplitInjective(IntToString(s1), IntToString(c1) + [':'] + p1, IntToString(s2), IntToString(c2) + [':'] + p2, ':');
    IntToStringInjective(s1, s2);
    KeyDeterminesCount(s1, c1, c2, p1);
  }


  /** The threshold test in long arithmetic: `(size / 100) * 50 < chunkCount * chunkSize * 1024`. */
  predicate ForcesFullHash(size: nat, chunkSize: int, chunkCount: int) {
    (size / 100) * FULL_HASHING_THRESHOLD < chunkCount * chunkSize * 1024
  }

  /** The chunk count after the threshold rule: -1 for a regular file the rule forces to a full digest. */
  function EffectiveCount(node: Node, chunkSize: int, chunkCount: int): int {
    if node.RegularFile? && ForcesFullHash(|node.data|, chunkSize, chunkCount) then -1 else chunkCount
  }

  /** The key the lookup uses. */
  function CacheKey(node: Node, chunkSize: int, chunkCount: int): string {
    if EffectiveCount(node, chunkSize, chunkCount) == -1 then FullKey(node.path) else Key(chunkSize, chunkCount, node.path)
  }

  /** The entries a directory digest skips: recycle bins and volume information. */
  predicate Excluded(path: string) {
    Contains(path, "$RECYCLE.BIN") || Contains(path, "System Volume Information")
  }

  /** The checks `DeltaFileHash` makes before it looks anything up. */
  function Validate(node: Node, chunkSize: int, chunkCount: int): (e: Option<Error>)
    ensures e.None? <==> chunkCount >= -1 && chunkSize >= 0 && IsFileOrDirectory(node)
  {
    if chunkCount < -1 || chunkSize < 0 then Some(IllegalArgument)
    else if node.Missing? then Some(FileNotFound)
    else if !IsFileOrDirectory(node) then Some(IllegalArgument)
    else None
  }

  /** The outcome of a call and the cache it leaves behind. */
  datatype Run<T> = Run(result: Result<T>, cache: Cache)

  /** `hashes` followed by the digests of `run`, with `run`'s cache. */
  function PrependRun(hashes: seq<Bytes>, run: Run<seq<Bytes>>): (p: Run<seq<Bytes>>)
    ensures p.cache == run.cache
    ensures p.result.Ok? <==> run.result.Ok?
    ensures p.result.Ok? ==> p.result.value == hashes + run.result.value
    ensures p.result.Err? ==> p.result == run.result
  {
    match run.result
    case Ok(tail) => Run(Ok(hashes + tail), run.cache)
    case Err(e) => Run(Err(e), run.cache)
  }

  /** `DeltaFileHash(path, chunkSize, chunkCount)` on a cache. */
  function FileRun(algorithm: DigestFn, node: Node, chunkSize: int, chunkCount: int, cache: Cache): Run<Bytes>
    decreases node, 2, 0
  {
    match Validate(node, chunkSize, chunkCount)
    case Some(e) => Run(Err(e), cache)
    case None =>
      var key := CacheKey(node, chunkSize, chunkCount);
      if key in cache then Run(Ok(cache[key]), cache)
      else if node.RegularFile? then
        match ChunkDigest(algorithm, node, chunkSize, EffectiveCount(node, chunkSize, chunkCount))
        case Err(e) => Run(Err(e), cache)
        case Ok(h) => Run(Ok(h), cache[key := h])
      else
        var folder := FolderRun(algorithm, node, chunkSize, chunkCount, cache);
        match folder.result
        case Err(e) => Run(Err(e), folder.cache)
        case Ok(None) => Run(Ok(ZeroBytes(DIGEST_LENGTH)), folder.cache)
        case Ok(Some(h)) => Run(Ok(h), folder.cache[key := h])
  }

  /** `FolderHash(path, chunkSize, chunkCount)` on a cache: `None` (Java's
      `null`) for a directory with no listed entries, otherwise the digest of
      the digests of its entries that are not excluded. */
  function FolderRun(algorithm: DigestFn, dir: Node, chunkSize: int, chunkCount: int, cache: Cache): Run<Option<Bytes>>
    requires dir.Directory?
    decreases dir, 1, 0
  {
    if |Listing(dir.children)| == 0 then Run(Ok(None), cache)
    else
      var hashes := ChildrenRun(algorithm, dir, 0, chunkSize, chunkCount, cache);
      match hashes.result
      case Err(e) => Run(Err(e), hashes.cache)
      case Ok(hs) =>
        match ArrayDigest(algorithm, hs)
        case Err(e) => Run(Err(e), hashes.cache)
        case Ok(h) => Run(Ok(Some(h)), hashes.cache)
  }

  /** The loop of `FolderHash` from the `k`-th listed entry on: the digests of
      the entries that are not excluded, in listing order. */
  function ChildrenRun(algorithm: DigestFn, dir: Node, k: nat, chunkSize: int, chunkCount: int, cache: Cache): Run<seq<Bytes>>
    requires dir.Directory? && k <= |Listing(dir.children)|
    decreases dir, 0, |Listing(dir.children)| - k
  {
    var listing := Listing(dir.children);
    if k == |listing| then Run(Ok([]), cache)
    else
      var child := listing[k];
      assert child in dir.children;
      if Excluded(child.path) then ChildrenRun(algorithm, dir, k + 1, chunkSize, chunkCount, cache)
      else
        var first := FileRun(algorithm, child, chunkSize, chunkCount, cache);
        match first.result
        case Err(e) => Run(Err(e), first.cache)
        case Ok(h) => PrependRun([h], ChildrenRun(algorithm, dir, k + 1, chunkSize, chunkCount, first.cache))
  }

  /** One turn of the `FolderHash` loop: an excluded entry is skipped; any
      other entry is digested, and its failure ends the loop. */
  lemma ChildrenRunStep(algorithm: DigestFn, dir: Node, k: nat, chunkSize: int, chunkCount: int, cache: Cache)
    requires dir.Directory? && k < |Listing(dir.children)|
    ensures var child := Listing(dir.children)[k];
      ChildrenRun(algorithm, dir, k, chunkSize, chunkCount, cache) ==
        if Excluded(child.path) then ChildrenRun(algorithm, dir, k + 1, chunkSize, chunkCount, cache)
        else
          var first := FileRun(algorithm, child, chunkSize, chunkCount, cache);
          if first.result.Err? then Run(Err(first.result.error), first.cache)
          else PrependRun([first.result.value], ChildrenRun(algorithm, dir, k + 1, chunkSize, chunkCount, first.cache))
  {
  }

  /** Prepending a digest keeps a run of digests one. */
  lemma PrependRunOfLength(h: Bytes, run: Run<seq<Bytes>>)
    requires |h| == DIGEST_LENGTH && (run.result.Ok? ==> AllOfLength(run.result.value, DIGEST_LENGTH))
    ensures var p := PrependRun([h], run); p.result.Ok? ==> AllOfLength(p.result.value, DIGEST_LENGTH)
  {
    if run.result.Ok? {
      var all := [h] + run.result.value;
      assert forall i :: 1 <= i < |all| ==> all[i] == run.result.value[i - 1];
    }
  }

  lemma ExtendsTrans(c3: Cache, c2: Cache, c1: Cache)
    requires Extends(c3, c2) && Extends(c2, c1)
    ensures Extends(c3, c1)
  {
  }

  /** One turn of the `FolderHash` loop on an entry that is not excluded: its
      outcome either ends the loop with its error or extends the digests
      collected so far. */
  lemma ChildrenLoopStep(algorithm: DigestFn, dir: Node, i: nat, chunkSize: int, chunkCount: int,
                         start: Cache, before: Cache, after: Cache, items: seq<Bytes>, r: Result<Bytes>)
    requires dir.Directory? && i < |Listing(dir.children)| && !Excluded(Listing(dir.children)[i].path)
    requires ChildrenRun(algorithm, dir, 0, chunkSize, chunkCount, start)
          == PrependRun(items, ChildrenRun(algorithm, dir, i, chunkSize, chunkCount, before))
    requires Run(r, after) == FileRun(algorithm, Listing(dir.children)[i], chunkSize, chunkCount, before)
    ensures r.Err? ==> ChildrenRun(algorithm, dir, 0, chunkSize, chunkCount, start) == Run(Err(r.error), after)
    ensures r.Ok? ==>
      ChildrenRun(algorithm, dir, 0, chunkSize, chunkCount, start)
        == PrependRun(items + [r.value], ChildrenRun(algorithm, dir, i + 1, chunkSize, chunkCount, after))
  {
    ChildrenRunStep(algorithm, dir, i, chunkSize, chunkCount, before);
    if r.Ok? {
      PrependRunAssoc(items, r.value, ChildrenRun(algorithm, dir, i + 1, chunkSize, chunkCount, after));
    }
  }

  lemma PrependRunNothing(run: Run<seq<Bytes>>)
    ensures PrependRun([], run) == run
  {
    if run.result.Ok? {
      assert [] + run.result.value == run.result.value;
    }
  }

  lemma PrependRunAssoc(hashes: seq<Bytes>, h: Bytes, run: Run<seq<Bytes>>)
    ensures PrependRun(hashes, PrependRun([h], run)) == PrependRun(hashes + [h], run)
  {
    if run.result.Ok? {
      assert hashes + ([h] + run.result.value) == (hashes + [h]) + run.result.value;
    }
  }

  class DeltaHash {
    /** `FilesHashed`: key to digest. */
    var filesHashed: Cache
    /** `Algorithm`, as the digest function it names. */
    const algorithm: DigestFn

    /** `new DeltaHash(algorithm)`: an empty cache. */
    constructor(algorithm: DigestFn)
      ensures filesHashed == map[] && this.algorithm == algorithm
    {
      filesHashed := map[];
      this.algorithm := algorithm;
    }

    /** `DeltaFileHash`: validates the arguments, applies the threshold rule,
        answers from the cache when it can, and otherwise digests the file or
        directory and caches the digest (except the zero sentinel of an empty
        directory). */
    method DeltaFileHash(node: Node, chunkSize: int, chunkCount: int) returns (r: Result<Bytes>)
      requires chunkSize <= MAX_CHUNK_SIZE && chunkCount <= INT_MAX - 2
      modifies this
      ensures Run(r, filesHashed) == FileRun(algorithm, node, chunkSize, chunkCount, old(filesHashed))
      decreases node, 2
    {
      if chunkCount < 0 && chunkCount != -1 {
        return Err(IllegalArgument);
      }
      if chunkSize < 0 {
        return Err(IllegalArgument);
      }
      if node.Missing? {
        return Err(FileNotFound);
      }
      var canonicalPath := node.path;
      var key := Key(chunkSize, chunkCount, canonicalPath);
      var isFile := node.RegularFile?;
      var isDirectory := node.Directory?;
      if !isDirectory && !isFile {
        return Err(IllegalArgument);
      }
      var count := chunkCount;
      if isFile && (|node.data| / 100) * FULL_HASHING_THRESHOLD < count * chunkSize * 1024 {
        count := -1;
      }
      if count == -1 {
        key := FullKey(canonicalPath);
      }
      assert count == EffectiveCount(node, chunkSize, chunkCount) && key == CacheKey(node, chunkSize, chunkCount);
      if key in filesHashed {
        return Ok(filesHashed[key]);
      }
      if isFile {
        r := FileChunkHash(node, chunkSize, count, algorithm);
        if r.Ok? {
          filesHashed := filesHashed[key := r.value];
        }
      } else {
        var folder := FolderHash(node, chunkSize, count);
        match folder
        case Err(e) =>
          r := Err(e);
        case Ok(None) =>
          r := Ok(ZeroBytes(DIGEST_LENGTH));
        case Ok(Some(h)) =>
          filesHashed := filesHashed[key := h];
          r := Ok(h);
      }
    }

    /** `FolderHash`: `None` for a directory with no listed entries; otherwise
        digests every listed entry that is not excluded, in listing order, and
        combines the digests with `FolderArrayHash`. */
    method FolderHash(dir: Node, chunkSize: int, chunkCount: int) returns (r: Result<Option<Bytes>>)
      requires dir.Directory? && chunkSize <= MAX_CHUNK_SIZE && chunkCount <= INT_MAX - 2
      modifies this
      ensures Run(r, filesHashed) == FolderRun(algorithm, dir, chunkSize, chunkCount, old(filesHashed))
      decreases dir, 1
    {
      var filepath := Listing(dir.children);
      if |filepath| == 0 {
        return Ok(None);
      }
      var hashes := new ArrayList<Bytes>.Empty();
      var i := 0;
      PrependRunNothing(ChildrenRun(algorithm, dir, 0, chunkSize, chunkCount, filesHashed));
      while i < |filepath|
        invariant 0 <= i <= |filepath|
        invariant fresh(hashes)
        invariant ChildrenRun(algorithm, dir, 0, chunkSize, chunkCount, old(filesHashed))
               == PrependRun(hashes.items, ChildrenRun(algorithm, dir, i, chunkSize, chunkCount, filesHashed))
      {
        var p := filepath[i];
        assert p in dir.children;
        if Excluded(p.path) {
          ChildrenRunStep(algorithm, dir, i, chunkSize, chunkCount, filesHashed);
          i := i + 1;
          continue;
        }
        ghost var before := filesHashed;
        var fileHash := DeltaFileHash(p, chunkSize, chunkCount);
        ChildrenLoopStep(algorithm, dir, i, chunkSize, chunkCount, old(filesHashed), before, filesHashed, hashes.items, fileHash);
        if fileHash.Err? {
          return Err(fileHash.error);
        }
        hashes.Add(fileHash.value);
        i := i + 1;
      }
      assert hashes.items + [] == hashes.items;
      assert ChildrenRun(algorithm, dir, 0, chunkSize, chunkCount, old(filesHashed)) == Run(Ok(hashes.items), filesHashed);
      var digest := FolderArrayHash(hashes, algorithm);
      match digest
      case Err(e) =>
        r := Err(e);
      case Ok(h) =>
        r := Ok(Some(h));
    }
  }
}
