# delta — a Dafny model of the duplicate-file finder's digest engine

`delta` finds duplicate files and directories. The model covers four parts.

- **The digest engine, `DeltaHash`.** It digests a file or a directory tree and memoises every digest in a
  `HashMap<String, byte[]>` keyed by chunk parameters and canonical path.
  - A regular file is digested whole ("full mode") or by sampling `chunkCount + 2` evenly spaced chunks of
    `chunkSize` KiB ("sampled mode").
  - A full-hashing threshold forces small files into full mode.
  - A directory's digest is the digest of its entries' digests. The entries' digests are sorted first, so the
    order in which the filesystem lists them does not matter. In both snapshots a fresh engine gives a directory
    the same digest for every order of its entries.
  - The repository keeps two snapshots of the engine, and both are modelled. The newer one, under
    `src/main/java`, is module `DeltaHash`. The older one, under `src/com`, is module `LegacyDeltaHash`.
  - The older snapshot has a different threshold, a different full-mode key, no empty-directory sentinel, and it
    never caches directory digests.
- **The clustering step, `DumpToFileSorted`.**
  - It turns the cache into sorted `hex:key` lines.
  - It groups adjacent lines with equal 64-character digests into labelled duplicate sets, skipping small files.
  - It sorts the sets by label and produces a removal plan: the first member of each set is the original and the
    others are removable.
- **`DeltaUtil`.** A signed-byte lexicographic comparator, and a first-element-pivot quicksort over an `ArrayList`
  that drains its argument.
- **`DeltaDuplicateSet` and `Delta.ByteToHexString`.** A labelled, append-only member list ordered by its label,
  and the upper-case base16 encoder of section 8 of RFC 4648.

## How the model is built

- Java's signed `byte` is `Base.int8` (-128..127). Files and digests are `seq<int8>`.
- `MessageDigest` is a function value of type `DigestFn`: any function whose outputs are all 32 bytes long.
  The sequence `update(a); update(b); digest()` is `algorithm(a + b)`.
- The filesystem is an immutable tree `FileSystem.Node` (missing, regular file, directory, other).
  - Paths are already canonical.
  - A directory's `children` are in the order `Files.walk(path, 1)` lists them.
- Exceptions are `Base.Error` values carried in a `Result`.
- Classes and loops follow the source's form.
  - `DeltaHash.DeltaHash` and `LegacyDeltaHash.LegacyDeltaHash` are classes. Each has the `filesHashed` map field.
  - `DeltaDuplicateSet.DuplicateSet` appends to a `seq` field.
  - `Lists.ArrayList` stands for `java.util.ArrayList` with the operations the source uses.
  - The source's loops are `while`/`for` loops with invariants.
- Every method is proved equal to a specification function. The memoised engine is specified by state-passing
  functions (`FileRun`, `FolderRun`, `ChildrenRun`) that return the result together with the new cache.
- The properties are lemmas about those functions. The deepest of them concern the cache:
  - **Transparency.** On a tree whose canonical paths are unique, a memoised digest is the digest computed from
    scratch. In the newer snapshot this holds for calls that all use one chunk size, or only positive chunk sizes.
    Chunk size 0 shares the `FULL:0:` key with the positive sizes but digests no bytes, so mixing it with another
    size breaks this (see Findings). The older snapshot caches only keys that name both chunk parameters, so there
    it holds for any mix of calls.
  - **Growth.** The cache only grows.
- `DumpToFileSorted` reads the filesystem for sizes and for the directory test. These reads, and
  `GetHumanReadableSize`, are the fields of the parameter `DumpScan.Env`.
- The iteration order of `HashMap.keySet()` is the parameter `order`. The dump is proved independent of it.

The model follows the code in three places where the code's behaviour is easy to miss.
- The emptiness test of a directory runs before the recycle-bin exclusion. So a directory whose entries are all
  excluded gets the digest of no bytes, not the zero sentinel.
- A negative seek in sampled mode is an error. It is not a fallback to full mode.
- In the older snapshot, a file the threshold rule forces into full mode fails (see Findings).
- The scan of `DumpToFileSorted` throws in `GetParentPath` on a duplicate whose path has no `\`, so it only gets
  past its first set on Windows-style paths.

## Model

| member | source | states |
|---|---|---|
| `Delta.Base16` | src/com/irfanAK/delta/Delta.java:90-96 | the encoding of n bytes has 2n characters |
| `Delta.Base16At` | src/com/irfanAK/delta/Delta.java:93-94 | byte k becomes characters 2k and 2k+1: the high and the low hex digit of its unsigned value (b+256 for a negative b) |
| `Delta.Base16Alphabet` | src/com/irfanAK/delta/Delta.java:94 | every character of the encoding is one of `0-9A-F` |
| `Delta.ByteToHexString` | src/main/java/com/irfanAK/delta/Delta.java:107-113 | the StringBuilder loop returns 2n characters, all in `0-9A-F`, byte k rendered as `%02X` at 2k and 2k+1, i.e. exactly the base16 encoding |
| `Delta.HexValue` | src/main/java/com/irfanAK/delta/Delta.java:111 | a character has a hex value iff it is an upper-case hex digit, and that value's digit is the character |
| `Delta.Base16Decode` | src/main/java/com/irfanAK/delta/Delta.java:111 | a successful decode halves the length |
| `Delta.Base16RoundTrip` | src/main/java/com/irfanAK/delta/Delta.java:110-111 | decoding the encoding of any byte sequence gives it back |
| `Delta.Base16Injective` | src/main/java/com/irfanAK/delta/Delta.java:111 | two byte sequences with the same encoding are equal |
| `DeltaDuplicateSet.Units` | src/main/java/com/irfanAK/delta/DeltaDuplicateSet.java:29 | a character's UTF-16 units: itself below U+10000, otherwise a high and a low surrogate that decode back to it |
| `DeltaDuplicateSet.UnitsPrefix` | src/main/java/com/irfanAK/delta/DeltaDuplicateSet.java:29 | the units of a character followed by anything determine the character and the rest |
| `DeltaDuplicateSet.Utf16Concat` | src/main/java/com/irfanAK/delta/DeltaDuplicateSet.java:29 | the encoding of a concatenation is the concatenation of the encodings |
| `DeltaDuplicateSet.Utf16Injective` | src/main/java/com/irfanAK/delta/DeltaDuplicateSet.java:29 | two strings have the same UTF-16 units iff they are equal |
| `DeltaDuplicateSet.CompareUnits` | src/main/java/com/irfanAK/delta/DeltaDuplicateSet.java:29 | lexicographic comparison of code units is zero iff the unit sequences are equal |
| `DeltaDuplicateSet.CompareStrings` | src/main/java/com/irfanAK/delta/DeltaDuplicateSet.java:29 | `String.compareTo`, which compares UTF-16 units, is zero iff the strings are equal |
| `DeltaDuplicateSet.CompareChars` | src/main/java/com/irfanAK/delta/DeltaDuplicateSet.java:29 | two characters compare by their units: zero iff equal, and their difference when both are below U+10000 |
| `DeltaDuplicateSet.SupplementarySortsBelowHighBmp` | src/main/java/com/irfanAK/delta/DeltaHash.java:208 | `C:\a\<U+1F600>` sorts before `C:\a\<U+FF01>`, as the high surrogate U+D83D is below U+FF01 |
| `DeltaDuplicateSet.CompareStringsAntisymmetric` | src/main/java/com/irfanAK/delta/DeltaDuplicateSet.java:28-30 | swapping the arguments negates the result |
| `DeltaDuplicateSet.CompareStringsFirstDifference` | src/main/java/com/irfanAK/delta/DeltaDuplicateSet.java:29 | at the first differing index the result is the comparison of the two characters' units, their difference when both are below U+10000 |
| `DeltaDuplicateSet.CompareStringsPrefix` | src/main/java/com/irfanAK/delta/DeltaDuplicateSet.java:29 | a proper prefix sorts first |
| `DeltaDuplicateSet.CompareStringsCommonPrefix` | src/main/java/com/irfanAK/delta/DeltaDuplicateSet.java:29 | a common prefix does not change the comparison |
| `DeltaDuplicateSet.CompareStringsTransitive` | src/main/java/com/irfanAK/delta/DeltaDuplicateSet.java:28-30 | the order is transitive |
| `DeltaDuplicateSet.DuplicateSet.constructor` | src/main/java/com/irfanAK/delta/DeltaDuplicateSet.java:10-13 | a new set holds the given label and no members |
| `DeltaDuplicateSet.DuplicateSet.AddHash` | src/main/java/com/irfanAK/delta/DeltaDuplicateSet.java:15-17 | appends exactly one member at the end; the label and the earlier members are unchanged |
| `DeltaDuplicateSet.DuplicateSet.GetHash` | src/main/java/com/irfanAK/delta/DeltaDuplicateSet.java:19-21 | returns the label |
| `DeltaDuplicateSet.DuplicateSet.GetFileHashes` | src/main/java/com/irfanAK/delta/DeltaDuplicateSet.java:23-25 | returns the members in insertion order |
| `DeltaDuplicateSet.DuplicateSet.CompareTo` | src/main/java/com/irfanAK/delta/DeltaDuplicateSet.java:27-30 | zero iff the labels are equal; the negation of the reversed comparison |
| `DeltaUtil.Compare` | src/com/irfanAK/delta/DeltaUtil.java:37-46 | the comparison of equal-length arrays is -1, 0 or 1 |
| `DeltaUtil.CompareByteArray` | src/com/irfanAK/delta/DeltaUtil.java:33-47 | the loop fails with IllegalArgument iff the lengths differ; otherwise it is the comparison, and 0 iff the arrays are equal |
| `DeltaUtil.CompareZeroIffEqual` | src/com/irfanAK/delta/DeltaUtil.java:37-46 | for equal lengths the comparison is 0 iff the arrays are elementwise equal |
| `DeltaUtil.CompareAntisymmetric` | src/com/irfanAK/delta/DeltaUtil.java:37-44 | `compare(a, b) == -compare(b, a)` |
| `DeltaUtil.CompareFirstDifference` | src/com/irfanAK/delta/DeltaUtil.java:38-43 | the sign comes from the first differing index, compared as signed bytes |
| `DeltaUtil.SignedFirstByte` | src/com/irfanAK/delta/DeltaUtil.java:40-43 | a first byte of 0x80 or more (a negative Java byte) sorts before one below 0x80 |
| `DeltaUtil.CompareTransitive` | src/com/irfanAK/delta/DeltaUtil.java:37-46 | the order is transitive, so sorting by it is well defined |
| `DeltaUtil.QuickSort` | src/com/irfanAK/delta/DeltaUtil.java:7-31 | the pivot quicksort on values is a permutation of its input |
| `DeltaUtil.QuickSortSorted` | src/com/irfanAK/delta/DeltaUtil.java:15-29 | its output is ascending under `compareByteArray` |
| `DeltaUtil.SortedUnique` | src/com/irfanAK/delta/DeltaUtil.java:7-31 | two ascending permutations of one multiset are equal |
| `DeltaUtil.QuickSortPermutationInvariant` | src/com/irfanAK/delta/DeltaUtil.java:7-31 | inputs that are permutations of each other sort to the identical sequence |
| `DeltaUtil.HashesSort` | src/com/irfanAK/delta/DeltaUtil.java:7-31 | fails with IllegalArgument iff the arrays differ in length; returns an empty input itself; otherwise returns a new list holding the quicksort of the input and leaves the input empty |
| `DeltaUtil.SplitAtPivot` | src/com/irfanAK/delta/DeltaUtil.java:11-22 | removes the pivot, drains the input into two new lists, and the sort of the input is the sort of the left list, the pivot, then the sort of the right list |
| `DeltaUtil.DrainAroundPivot` | src/com/irfanAK/delta/DeltaUtil.java:15-22 | the `remove(0)` loop empties the input; the left list gets the elements below the pivot and the right list the others, in order |
| `DeltaUtil.Join` | src/com/irfanAK/delta/DeltaUtil.java:27-30 | a new list holding left, pivot, right |
| `FolderDigest.Concat` | src/main/java/com/irfanAK/delta/DeltaHash.java:120-121 | the concatenation of n digests has 32n bytes |
| `FolderDigest.ArrayDigest` | src/main/java/com/irfanAK/delta/DeltaHash.java:117-123 | the digest of the sorted digests fails iff they differ in length; otherwise it has 32 bytes |
| `FolderDigest.FolderArrayHash` | src/main/java/com/irfanAK/delta/DeltaHash.java:117-123 | the method yields the digest of the concatenation of the sorted entry digests |
| `FolderDigest.Feed` | src/com/irfanAK/delta/DeltaHash.java:99-100 | the `update` loop feeds the digests' concatenation |
| `FolderDigest.ArrayDigestPermutation` | src/com/irfanAK/delta/DeltaHash.java:96-102 | the folder digest is the same for every order of the entry digests |
| `FolderDigest.ArrayDigestOfDigests` | src/com/irfanAK/delta/DeltaHash.java:97-101 | digests always fold; no digests fold to the digest of no bytes |
| `FileSystem.Listing` | src/main/java/com/irfanAK/delta/DeltaHash.java:95 | the listing keeps exactly the regular files and directories among the children |
| `FileSystem.ListingCounts` | src/main/java/com/irfanAK/delta/DeltaHash.java:95 | the listing holds a regular file or directory as often as the children do, and nothing else |
| `FileSystem.ListingPermutation` | src/main/java/com/irfanAK/delta/DeltaHash.java:95 | children listed in another order give the same listing in another order |
| `Gathering.GatherPermutation` | src/main/java/com/irfanAK/delta/DeltaHash.java:102-112 | a loop that digests the entries it keeps one by one and stops at the first failure fails on a reordering of its entries iff it fails on them, and otherwise yields the same digests in another order |
| `FileChunk.ReadSize` | src/main/java/com/irfanAK/delta/DeltaHash.java:157-159 | `read` returns 0 for an empty buffer and -1 at end of file; otherwise between 1 and the buffer size, within the file, and short only at its end |
| `FileChunk.ChannelRead` | src/main/java/com/irfanAK/delta/DeltaHash.java:156-157 | the fresh buffer holds the bytes read at its start and zeros after them |
| `FileChunk.SampledReads` | src/main/java/com/irfanAK/delta/DeltaHash.java:155-168 | at most `chunkCount + 2` reads; a negative seek is an IllegalArgument |
| `FileChunk.ReadPlan` | src/main/java/com/irfanAK/delta/DeltaHash.java:142-154 | only sampled mode can fail, with IllegalArgument |
| `FileChunk.ChunkDigest` | src/main/java/com/irfanAK/delta/DeltaHash.java:132-172 | a successful file digest has 32 bytes |
| `FileChunk.FileDigest` | src/main/java/com/irfanAK/delta/DeltaHash.java:145-171 | the digest of the bytes the read plan names has 32 bytes |
| `FileChunk.FileChunkHash` | src/main/java/com/irfanAK/delta/DeltaHash.java:132-172 | the checks (IllegalArgument, FileNotFound, IOFailure for a non-regular file) and then the digest of the planned reads |
| `FileChunk.DigestFile` | src/main/java/com/irfanAK/delta/DeltaHash.java:145-170 | the set-up (`fullHash`, `bbSize`, `chunkCount + 2`, the gap with truncating division) followed by the read loop is the file digest |
| `FileChunk.ReadLoop` | src/main/java/com/irfanAK/delta/DeltaHash.java:155-168 | the loop feeds exactly the planned slices: all reads to end of file in full mode; the sampled reads, or their failure, otherwise |
| `FileChunk.Update` | src/main/java/com/irfanAK/delta/DeltaHash.java:160-163 | only the `readSize` bytes read are fed, whether or not the buffer is full |
| `FileChunk.FullFeedIsRestOfFile` | src/com/irfanAK/delta/DeltaHash.java:134-142 | in full mode the bytes fed are exactly the rest of the file, in order |
| `FileChunk.FullDigestIsWholeFile` | src/main/java/com/irfanAK/delta/DeltaHash.java:142-163 | a full-mode digest with a positive chunk size is the digest of the whole file, whatever the chunk size |
| `FileChunk.ZeroChunkSizeDigestsNothing` | src/main/java/com/irfanAK/delta/DeltaHash.java:148-159 | with chunk size 0 every read returns 0 and the digest is that of no bytes |
| `FileChunk.SampledShape` | src/main/java/com/irfanAK/delta/DeltaHash.java:155-167 | each sampled read is a contiguous slice within the file, and the next one starts at its end plus the gap |
| `FileChunk.SampledPlanShape` | src/main/java/com/irfanAK/delta/DeltaHash.java:150-167 | the sampled plan has at most `chunkCount + 2` reads and the first is at offset 0 |
| `FileChunk.SmallFileFails` | src/main/java/com/irfanAK/delta/DeltaHash.java:153 | a non-empty file shorter than one chunk seeks to a negative position |
| `FileChunk.SampledFailsIff` | src/main/java/com/irfanAK/delta/DeltaHash.java:153-167 | a sampled digest fails iff the file is non-empty and shorter than one chunk |
| `FileChunk.ChunkDigestFails` | src/main/java/com/irfanAK/delta/DeltaHash.java:135-167 | which inputs make `FileChunkHash` fail, and with which exception |
| `DeltaHash.KeyPathOfKey` | src/main/java/com/irfanAK/delta/DeltaHash.java:58 | the path is recovered from a sampled key |
| `DeltaHash.KeyPathOfFullKey` | src/main/java/com/irfanAK/delta/DeltaHash.java:70 | the path is recovered from a `FULL:0:` key |
| `DeltaHash.FullKeyIsNotKey` | src/main/java/com/irfanAK/delta/DeltaHash.java:57-70 | a full key never equals a sampled key |
| `DeltaHash.KeyDeterminesCount` | src/main/java/com/irfanAK/delta/DeltaHash.java:58 | the key determines the chunk count |
| `DeltaHash.KeyFields` | src/main/java/com/irfanAK/delta/DeltaHash.java:58 | the key is the chunk size, `:`, the chunk count, `:`, the path |
| `DeltaHash.KeyDeterminesFields` | src/main/java/com/irfanAK/delta/DeltaHash.java:58 | a sampled key determines its chunk size, chunk count and path |
| `DeltaHash.Validate` | src/main/java/com/irfanAK/delta/DeltaHash.java:50-63 | the checks pass iff `chunkCount >= -1`, `chunkSize >= 0` and the path is a regular file or a directory |
| `DeltaHash.PrependRun` | src/main/java/com/irfanAK/delta/DeltaHash.java:109-110 | prepending digests to the rest of the loop keeps its cache and its failure |
| `DeltaHash.ChildrenRunStep` | src/main/java/com/irfanAK/delta/DeltaHash.java:102-111 | one turn of the folder loop: an excluded entry is skipped, another is digested and its failure ends the loop |
| `DeltaHash.ChildrenLoopStep` | src/main/java/com/irfanAK/delta/DeltaHash.java:109-110 | the loop invariant is kept by digesting and adding one entry |
| `DeltaHash.DeltaHash.constructor` | src/main/java/com/irfanAK/delta/DeltaHash.java:30-34 | a new engine has an empty cache and the given algorithm |
| `DeltaHash.DeltaHash.DeltaFileHash` | src/main/java/com/irfanAK/delta/DeltaHash.java:46-92 | the result and the new cache are those of `FileRun` on the old cache |
| `DeltaHash.DeltaHash.FolderHash` | src/main/java/com/irfanAK/delta/DeltaHash.java:94-115 | the result (`None` for no listed entries) and the new cache are those of `FolderRun` |
| `DeltaHashProperties.ValidationFailsBeforeLookup` | src/main/java/com/irfanAK/delta/DeltaHash.java:50-63 | bad arguments give IllegalArgument, a missing path FileNotFound, another kind of entry IllegalArgument, with the cache unchanged |
| `DeltaHashProperties.ThresholdNeedsPositiveCount` | src/main/java/com/irfanAK/delta/DeltaHash.java:65-67 | with a chunk count of 0 or -1 the threshold never fires |
| `DeltaHashProperties.UnforcedFileHoldsABuffer` | src/main/java/com/irfanAK/delta/DeltaHash.java:66 | a file the rule leaves in sampled mode holds at least one buffer |
| `DeltaHashProperties.FileDigestFailsIff` | src/main/java/com/irfanAK/delta/DeltaHash.java:65-80 | a file digest fails iff the chunk count is 0 and the file is non-empty but shorter than one chunk |
| `DeltaHashProperties.CacheHitReturnsStored` | src/main/java/com/irfanAK/delta/DeltaHash.java:72-73 | a hit returns the stored digest and changes nothing |
| `DeltaHashProperties.FileMissInsertsKey` | src/main/java/com/irfanAK/delta/DeltaHash.java:77-80 | a file miss stores its digest under exactly its key and changes nothing else; a failure changes nothing |
| `DeltaHashProperties.ForcedFileDigestsWholeFile` | src/main/java/com/irfanAK/delta/DeltaHash.java:65-80 | a file the rule forces is digested whole and stored under `FULL:0:` + path |
| `DeltaHashProperties.DirectoryMissInsertsKey` | src/main/java/com/irfanAK/delta/DeltaHash.java:81-89 | a directory miss stores its digest under its key after its entries' digests; no listed entries gives zero bytes without an entry |
| `DeltaHashProperties.EmptyDirectoryIsZeroSentinel` | src/main/java/com/irfanAK/delta/DeltaHash.java:83-88 | a directory without listed entries gets 32 zero bytes and adds nothing to the cache |
| `DeltaHashProperties.AllExcludedDirectoryIsDigestOfNothing` | src/main/java/com/irfanAK/delta/DeltaHash.java:95-106 | a directory whose entries are all excluded gets the digest of no bytes, which is cached |
| `DeltaHashProperties.FileRunKeepsCache` | src/main/java/com/irfanAK/delta/DeltaHash.java:72-91 | no call removes or changes a cached digest; a cache of 32-byte digests stays one and the result is a digest |
| `DeltaHashProperties.FolderRunKeepsCache` | src/main/java/com/irfanAK/delta/DeltaHash.java:94-115 | the same for a directory; a directory digest fails only when an entry's does |
| `DeltaHashProperties.ChildrenRunKeepsCache` | src/main/java/com/irfanAK/delta/DeltaHash.java:102-112 | the same for the loop over the entries, whose results are all digests |
| `DeltaHashProperties.FullHashIgnoresChunkSize` | src/main/java/com/irfanAK/delta/DeltaHash.java:94-172 | in full mode the cache-free digest of an entry is the same for every positive chunk size |
| `DeltaHashProperties.FullChildrenIgnoreChunkSize` | src/main/java/com/irfanAK/delta/DeltaHash.java:102-112 | the same for the loop over a directory's entries |
| `DeltaHashProperties.KeyDeterminesDigest` | src/main/java/com/irfanAK/delta/DeltaHash.java:57-70 | with unique canonical paths, two lookups with the same key, for one chunk size or two positive ones, have the same cache-free digest |
| `DeltaHashProperties.CoherentInsert` | src/main/java/com/irfanAK/delta/DeltaHash.java:80 | storing a cache-free digest under its key keeps the cache coherent |
| `DeltaHashProperties.TransparentFile` | src/main/java/com/irfanAK/delta/DeltaHash.java:46-92 | from a cache coherent for a set of chunk sizes that may share an engine, a memoised digest equals the cache-free digest and the cache stays coherent |
| `DeltaHashProperties.FolderMatchesPure` | src/main/java/com/irfanAK/delta/DeltaHash.java:94-123 | a directory's run has its cache-free digest and the loop's cache when the loop has its cache-free digests |
| `DeltaHashProperties.TransparentFolder` | src/main/java/com/irfanAK/delta/DeltaHash.java:94-115 | the same for a directory |
| `DeltaHashProperties.TransparentChildren` | src/main/java/com/irfanAK/delta/DeltaHash.java:102-112 | the same for the loop over the entries |
| `DeltaHashProperties.FreshEngineIsTransparent` | src/main/java/com/irfanAK/delta/DeltaHash.java:46-115 | a new engine's digest of a tree is its cache-free digest |
| `DeltaHashProperties.SecondCallIsTransparent` | src/main/java/com/irfanAK/delta/DeltaHash.java:46-115 | after a first call, a second call on the same engine with the same chunk size, or both with positive ones, still gives the cache-free digest |
| `DeltaHashProperties.ZeroChunkSizeSharesFullKey` | src/main/java/com/irfanAK/delta/DeltaHash.java:52-73 | as written, a full-mode call with chunk size 0 caches the digest of no bytes under `FULL:0:` + path, and a later call with chunk size 1 returns it instead of the file's digest |
| `DeltaHashProperties.PureChildrenGathers` | src/main/java/com/irfanAK/delta/DeltaHash.java:102-112 | the loop over a directory's listing gathers the cache-free digests of the entries it does not exclude |
| `DeltaHashProperties.PureChildrenPermutation` | src/main/java/com/irfanAK/delta/DeltaHash.java:102-112 | a reordered listing fails iff the listing does, and otherwise gives the same entry digests in another order |
| `DeltaHashProperties.PureFolderPermutation` | src/main/java/com/irfanAK/delta/DeltaHash.java:94-123 | a directory whose children are reordered has a folder digest iff it had one, and the same one |
| `DeltaHashProperties.PureHashPermutation` | src/main/java/com/irfanAK/delta/DeltaHash.java:46-123 | the same for the cache-free digest of the directory |
| `DeltaHashProperties.DirectoryOrderIsIrrelevant` | src/main/java/com/irfanAK/delta/DeltaHash.java:46-123 | a fresh engine gives a directory with unique paths a digest for one order of its children iff for another, and the same digest |
| `LegacyDeltaHash.LegacyChildrenRunStep` | src/com/irfanAK/delta/DeltaHash.java:82-89 | one turn of the inline directory loop |
| `LegacyDeltaHash.LegacyLoopStep` | src/com/irfanAK/delta/DeltaHash.java:87-88 | the loop invariant is kept by digesting and adding one entry |
| `LegacyDeltaHash.LegacyDeltaHash.constructor` | src/com/irfanAK/delta/DeltaHash.java:30-33 | a new engine has an empty cache and the given algorithm |
| `LegacyDeltaHash.LegacyDeltaHash.DeltaFileHash` | src/com/irfanAK/delta/DeltaHash.java:45-93 | the result and the new cache are those of `LegacyFileRun` on the old cache |
| `LegacyDeltaHash.LegacyValidationFailsBeforeLookup` | src/com/irfanAK/delta/DeltaHash.java:49-62 | the same three failures before any lookup |
| `LegacyDeltaHash.LegacyForcedNeedsPositiveCount` | src/com/irfanAK/delta/DeltaHash.java:64-66 | the `size / 2` rule fires only for positive chunk count and size |
| `LegacyDeltaHash.LegacyForcedFileFails` | src/com/irfanAK/delta/DeltaHash.java:64-77 | a file the rule forces fails with IllegalArgument, since `FileChunkHash` rejects chunk size -1, and nothing is cached |
| `LegacyDeltaHash.LegacyFileDigestFailsIff` | src/com/irfanAK/delta/DeltaHash.java:64-78 | a file digest fails iff the rule fires, or the chunk count is 0 and the file is non-empty but shorter than one chunk |
| `LegacyDeltaHash.UnforcedLegacyFileHoldsABuffer` | src/com/irfanAK/delta/DeltaHash.java:65 | a file the rule leaves in sampled mode holds at least one buffer |
| `LegacyDeltaHash.LegacyEmptyDirectory` | src/com/irfanAK/delta/DeltaHash.java:79-90 | a directory with no listed entries gets the digest of no bytes, with no zero sentinel |
| `LegacyDeltaHash.LegacyRunKeepsCache` | src/com/irfanAK/delta/DeltaHash.java:71-92 | no call removes a cached digest, the result is a digest, and the cache gains only keys of regular files of the tree |
| `LegacyDeltaHash.LegacyChildrenKeepsCache` | src/com/irfanAK/delta/DeltaHash.java:82-89 | the same for the loop over the entries |
| `LegacyDeltaHash.LegacyDirectoryNeverCached` | src/com/irfanAK/delta/DeltaHash.java:79-91 | a directory's key is never added to the cache, so its lookups always miss |
| `LegacyDeltaHash.LegacyCacheHitReturnsStored` | src/com/irfanAK/delta/DeltaHash.java:71-72 | a hit returns the stored digest and changes nothing |
| `LegacyDeltaHash.LegacyFileMissInsertsKey` | src/com/irfanAK/delta/DeltaHash.java:76-78 | a miss on a file the rule leaves alone stores its digest under exactly its sampled key and changes nothing else; a failure changes nothing |
| `LegacyDeltaHash.LegacyFullKeyIsNotKey` | src/com/irfanAK/delta/DeltaHash.java:68-69 | a `FULL:` key never equals a sampled key |
| `LegacyDeltaHash.LegacyCoherentInsert` | src/com/irfanAK/delta/DeltaHash.java:77-78 | storing a sampled file's cache-free digest under its key keeps the cache coherent |
| `LegacyDeltaHash.LegacyTransparentFile` | src/com/irfanAK/delta/DeltaHash.java:45-93 | from a cache coherent for all chunk parameters, a memoised digest equals the cache-free digest and the cache stays coherent |
| `LegacyDeltaHash.LegacyTransparentChildren` | src/com/irfanAK/delta/DeltaHash.java:79-90 | the same for the inline loop over the entries |
| `LegacyDeltaHash.LegacyFreshEngineIsTransparent` | src/com/irfanAK/delta/DeltaHash.java:45-93 | a new engine's digest of a tree is its cache-free digest |
| `LegacyDeltaHash.LegacySecondCallIsTransparent` | src/com/irfanAK/delta/DeltaHash.java:45-93 | after a first call, a second call on the same engine with any chunk size and chunk count still gives the cache-free digest |
| `LegacyDeltaHash.LegacyPureChildrenGathers` | src/com/irfanAK/delta/DeltaHash.java:82-89 | the inline loop gathers the cache-free digests of every listed entry |
| `LegacyDeltaHash.LegacyPureHashPermutation` | src/com/irfanAK/delta/DeltaHash.java:79-102 | a directory whose children are reordered has a cache-free digest iff it had one, and the same one |
| `LegacyDeltaHash.LegacyDirectoryOrderIsIrrelevant` | src/com/irfanAK/delta/DeltaHash.java:45-102 | a fresh engine gives a directory with unique paths a digest for one order of its children iff for another, and the same digest |
| `DumpStrings.GetHash` | src/main/java/com/irfanAK/delta/DeltaHash.java:377-379 | the first 64 characters, or StringIndexOutOfBounds for a shorter line |
| `DumpStrings.GetPaths` | src/main/java/com/irfanAK/delta/DeltaHash.java:362-369 | a suffix of the line after character 65, or StringIndexOutOfBounds for a shorter line |
| `DumpStrings.GetHashOfLine` | src/main/java/com/irfanAK/delta/DeltaHash.java:205 | `GetHash` of a dump line is the digest's hex |
| `DumpStrings.GetPathsOfKey` | src/main/java/com/irfanAK/delta/DeltaHash.java:362-369 | `GetPaths` of a line with a sampled key is the path, even when the path contains `:` |
| `DumpStrings.GetPathsOfFullKey` | src/main/java/com/irfanAK/delta/DeltaHash.java:363-367 | `GetPaths` of a line with a `FULL:0:` key is the path |
| `DumpStrings.PadLeftZeros` | src/main/java/com/irfanAK/delta/DeltaHash.java:356-360 | succeeds iff the string fits the width, and then is zeros followed by the string; otherwise StringIndexOutOfBounds |
| `DumpStrings.PadLeftZerosOfDecimal` | src/main/java/com/irfanAK/delta/DeltaHash.java:231 | padding a decimal below 10^w gives its fixed-width form; a larger one fails |
| `DumpStrings.SizeField` | src/main/java/com/irfanAK/delta/DeltaHash.java:229-231 | `DIR` for a directory, else the 15-digit size, `#` and the human-readable size; sizes of 10^15 or more fail |
| `DumpStrings.FileLabelsAscend` | src/main/java/com/irfanAK/delta/DeltaHash.java:231 | file labels sort by ascending size below 10^15 |
| `DumpStrings.DirectoryLabelsLast` | src/main/java/com/irfanAK/delta/DeltaHash.java:229 | a `DIR` label sorts after every file label |
| `DumpStrings.RemoveFileSize` | src/main/java/com/irfanAK/delta/DeltaHash.java:351-354 | a string without `#` is returned unchanged |
| `DumpStrings.RemoveFileSizeCut` | src/main/java/com/irfanAK/delta/DeltaHash.java:352-353 | otherwise the result is what follows the first `#` |
| `DumpStrings.RemoveSizeField` | src/main/java/com/irfanAK/delta/DeltaHash.java:351-354 | the corrected cut leaves a string without `#` unchanged |
| `DumpStrings.RemoveSizeFieldCut` | src/main/java/com/irfanAK/delta/DeltaHash.java:283 | it cuts only a first word that ends in `#` |
| `DumpStrings.RemoveSizeFieldOfFile` | src/main/java/com/irfanAK/delta/DeltaHash.java:231 | it removes a file member's size field |
| `DumpStrings.RemoveSizeFieldOfOther` | src/main/java/com/irfanAK/delta/DeltaHash.java:229 | it leaves a `DIR` member alone |
| `DumpScan.ParseLines` | src/main/java/com/irfanAK/delta/DeltaHash.java:222-236 | reads every line's `GetHash` and `GetPaths` |
| `DumpScan.RunEnd` | src/main/java/com/irfanAK/delta/DeltaHash.java:235 | where the inner `while` stops: the end or the first change of hash |
| `DumpScan.Step` | src/main/java/com/irfanAK/delta/DeltaHash.java:222-251 | one pass of the `for` loop moves the index forward, or fails with the label's error or with `GetParentPath`'s `StringIndexOutOfBounds` |
| `DumpStrings.GetParentPath` | src/main/java/com/irfanAK/delta/DeltaHash.java:371-375 | fails with `StringIndexOutOfBounds` exactly when the path has no `\`; otherwise the text before the last `\` |
| `DumpScan.CollectRun` | src/main/java/com/irfanAK/delta/DeltaHash.java:234-247 | fails exactly when a line the inner `while` visits (every line of the run but the last) has a path without `\`; otherwise the `while` stops at the end of the run, and the new set holds the label and one member per line of the run |
| `DumpScan.SlashPathsFail` | src/main/java/com/irfanAK/delta/DeltaHash.java:234-240 | two identical files `/a/f` and `/b/f` make the scan throw in `GetParentPath` |
| `DumpScan.BackslashPathsPair` | src/main/java/com/irfanAK/delta/DeltaHash.java:234-247 | the same two files under `C:\a\f` and `C:\b\f` make one set holding both |
| `DumpScan.FileSizeString` | src/main/java/com/irfanAK/delta/DeltaHash.java:229-232 | the label of the anchor line, or its failure |
| `DumpScan.ScanStep` | src/main/java/com/irfanAK/delta/DeltaHash.java:222-251 | one pass of the loop builds the sets of `Step` as new objects |
| `DumpScan.ScanParsed` | src/main/java/com/irfanAK/delta/DeltaHash.java:221-252 | the loop builds the sets of the scan, or fails as it does |
| `DumpScan.ScanDuplicates` | src/main/java/com/irfanAK/delta/DeltaHash.java:221-252 | the same from the dump lines |
| `DumpScan.ScanShape` | src/main/java/com/irfanAK/delta/DeltaHash.java:221-251 | every set is two or more adjacent lines with equal hash and an anchor that is not skipped, every line but the last with a `\` in its path, all with the anchor's label; the sets follow each other |
| `DumpScan.ScanCovers` | src/main/java/com/irfanAK/delta/DeltaHash.java:222-246 | every adjacent equal pair whose first line is not skipped lies inside a set |
| `DumpScan.RunTailIsOneSet` | src/main/java/com/irfanAK/delta/DeltaHash.java:225-246 | a run whose first lines are skipped small files yields one set: from the first line not skipped to the end of the run |
| `DumpScan.StepShape` | src/main/java/com/irfanAK/delta/DeltaHash.java:222-251 | one pass yields at most one well-formed set ending just before the next index |
| `StableSort.SortBy` | src/main/java/com/irfanAK/delta/DeltaHash.java:272 | the sort is a permutation of the sets |
| `StableSort.InsertSorted` | src/main/java/com/irfanAK/delta/DeltaHash.java:272 | inserting into a sorted sequence keeps it sorted |
| `StableSort.SortBySorted` | src/main/java/com/irfanAK/delta/DeltaHash.java:272 | the result is sorted by label |
| `StableSort.SortedByUnique` | src/main/java/com/irfanAK/delta/DeltaHash.java:272 | sorted permutations agree on their labels position by position |
| `DumpSorted.KeyLinesOf` | src/main/java/com/irfanAK/delta/DeltaHash.java:203-207 | the loop builds `hex:key` for each key in keySet order |
| `DumpSorted.ViewsOf` | src/main/java/com/irfanAK/delta/DeltaHash.java:272-276 | each set as the label and members it holds |
| `DumpSorted.Views` | src/main/java/com/irfanAK/delta/DeltaHash.java:276 | one view per set, with its label and members |
| `DumpSorted.PlanPaths` | src/main/java/com/irfanAK/delta/DeltaHash.java:282-291 | one path per member |
| `DumpStrings.FewerThanThreeUnitsIff` | src/main/java/com/irfanAK/delta/DeltaHash.java:284 | the non-recursive length test holds iff the string has fewer than three UTF-16 units |
| `DumpStrings.TurkishIMatchesDIR` | src/main/java/com/irfanAK/delta/DeltaHash.java:284 | `dır` and `DİR` are equal to `DIR` ignoring case, as `equalsIgnoreCase` makes them |
| `DumpStrings.UnitsMatchChars` | src/main/java/com/irfanAK/delta/DeltaHash.java:284 | against ASCII letters, the case-blind prefix test on UTF-16 units is the test on characters |
| `DumpSorted.PlanEntryOnUnits` | src/main/java/com/irfanAK/delta/DeltaHash.java:283-284 | a member throws `StringIndexOutOfBounds` iff it has fewer than three UTF-16 units after the cut; otherwise its `DIR` test is `equalsIgnoreCase` on the first three units |
| `DumpSorted.ReadMember` | src/main/java/com/irfanAK/delta/DeltaHash.java:283-288 | one member read with the corrected cut |
| `DumpSorted.ReadMembers` | src/main/java/com/irfanAK/delta/DeltaHash.java:282-291 | the member loop gives the paths, or the first failure |
| `DumpSorted.RemovalPlan` | src/main/java/com/irfanAK/delta/DeltaHash.java:275-296 | none for fewer than two members; otherwise the first path is the original |
| `DumpSorted.PlansOf` | src/main/java/com/irfanAK/delta/DeltaHash.java:274-308 | the plans of the sets in order |
| `DumpSorted.PlansPrefixFails` | src/main/java/com/irfanAK/delta/DeltaHash.java:274-308 | a failure in one set ends the loop |
| `DumpSorted.DumpToFileSorted` | src/main/java/com/irfanAK/delta/DeltaHash.java:199-320 | the method's lines, sorted sets and plans are those of `DumpSpec` |
| `DumpProperties.LinesAreTheCache` | src/main/java/com/irfanAK/delta/DeltaHash.java:203-208 | the dump lines are sorted and are exactly one `hex:key` line per cache entry |
| `DumpProperties.KeyLinesDistinct` | src/main/java/com/irfanAK/delta/DeltaHash.java:203-207 | distinct keys give distinct lines |
| `DumpProperties.DistinctSameElements` | src/main/java/com/irfanAK/delta/DeltaHash.java:203-208 | two duplicate-free sequences with the same elements are permutations of each other |
| `DumpProperties.LinesIndependentOfOrder` | src/main/java/com/irfanAK/delta/DeltaHash.java:203-208 | the sorted lines do not depend on keySet order |
| `DumpProperties.DumpIndependentOfOrder` | src/main/java/com/irfanAK/delta/DeltaHash.java:199-308 | the whole dump does not depend on keySet order |
| `DumpProperties.DumpSetsSorted` | src/main/java/com/irfanAK/delta/DeltaHash.java:208-272 | the sets are the scan's sets, sorted by label |
| `DumpProperties.PlanOfCluster` | src/main/java/com/irfanAK/delta/DeltaHash.java:282-296 | a set's plan keeps its anchor's path and removes the other paths of the run, as a directory iff the anchor is one |
| `DumpProperties.SetOfDump` | src/main/java/com/irfanAK/delta/DeltaHash.java:221-272 | every sorted set is a well-formed set of the scan |
| `DumpProperties.SetsOfDumpArePairs` | src/main/java/com/irfanAK/delta/DeltaHash.java:235-247 | every set has two or more members, so none is passed over |
| `DumpProperties.PlansOfSets` | src/main/java/com/irfanAK/delta/DeltaHash.java:274-296 | sets of two or more members give one plan each, in order |
| `DumpProperties.PlanOfDump` | src/main/java/com/irfanAK/delta/DeltaHash.java:274-296 | plan k keeps the anchor of set k and removes the rest of its run |
| `DumpProperties.TitleOrder` | src/main/java/com/irfanAK/delta/DeltaHash.java:229-234 | a directory set's label sorts after a file set's, and file labels follow size |
| `DumpProperties.SetsOrderOfDump` | src/main/java/com/irfanAK/delta/DeltaHash.java:272 | in the sorted sets, file sets come by ascending size and before directory sets |
| `DumpProperties.RemoveFileSizeMisreadsDirectory` | src/main/java/com/irfanAK/delta/DeltaHash.java:283-290 | as written, two directories whose paths hold `#` are read as files named by what follows the `#` |
| `DumpProperties.RemoveSizeFieldReadsDirectory` | src/main/java/com/irfanAK/delta/DeltaHash.java:283-290 | with the corrected cut the same members give the directories' full paths, removed as directories |

## Left out

- I/O plumbing: the writers, the `AutoDelete.bat`, `ECHO`, `DEL` and `RMDIR` text, the console output of
  `DumpToFileSorted`, and the `"Working on " + path` line the newer `DeltaFileHash` prints.
  The plan is returned as data instead: `Removal(isDir, original, removable)`.
- The counters `number_of_duplicates` and `size_saved`. They only feed a console line.
- The lists `duplicates`, `duplicateFolders` and `duplicateParentFolders`. Only commented-out code reads them.
- The result of `GetParentPath`. It only feeds the unused `duplicateParentFolders`. Its exception is modelled:
  `DumpScan.Step` and `DumpScan.CollectRun` fail with `StringIndexOutOfBounds` when a line the inner `while` visits
  has a path without `\`.
- The commented-out blocks of `DumpToFileSorted`.
- `DumpToFile`, `LoadFromFile`, `FolderRelation`, `Delta.main`, `Delta.hash` and `Delta.hash2`. These are output
  plumbing, an empty stub, an unfinished stub and command-line code.
- `DeltaHashingThread` and the unused `threadList`. Their point is concurrency, which is not modelled.
- SHA-256 itself. It is the `DigestFn` parameter, and only its 32-byte output length is assumed. The algorithm
  name is taken to be valid, so the `NoSuchAlgorithmException` of `MessageDigest.getInstance` at
  src/main/java/com/irfanAK/delta/DeltaHash.java:119 and :146 is not modelled. `Delta.main` passes "SHA-256".
- Filesystem calls:
  - `Files.exists`, `isRegularFile`, `isDirectory`, `size`, `walk` and `getCanonicalPath` are read off the `Node`
    value.
  - In `DumpToFileSorted`, `Files.size`, `Files.isDirectory` and `DeltaUtil.GetHumanReadableSize` are the fields of
    `Env`.
  - `DeltaUtil.GetHumanReadableSize` and `DeltaUtil.ByteToHexString` are not part of this model. The model takes the
    first as a parameter and uses `Delta.ByteToHexString` for the second.
- Short reads. `FileChunk.ReadSize` and `FileChunk.ChannelRead` take `read` to fill the buffer unless the end of
  the file comes first. `ReadableByteChannel.read` may return fewer bytes, which the model does not cover.
- The exception `FileChannel.open` throws for a path that is not a regular file. `FileChunk.FileChunkHash` returns
  `IOFailure` there, a choice of the model. The engine never makes that call, because `DeltaFileHash` only passes
  regular files on.
- Symbolic links. A `Node` tree gives each entry only its canonical path, so a link to an entry elsewhere in the
  tree cannot be expressed. `UniquePaths` rules out two entries with one canonical path.
- The newer snapshot's `DeltaUtil`, which `FolderArrayHash` calls at src/main/java/com/irfanAK/delta/DeltaHash.java:118,
  is not part of this model. It is taken to be `src/com/irfanAK/delta/DeltaUtil.java`, which module `DeltaUtil` models.
- The `null` path and its `NullPointerException`. A `Node` value is never null.
- Java `int` overflow. The `requires` bounds keep `1024 * chunkSize` and `chunkCount + 2` within `int`.
  The `long` arithmetic of the threshold and the gap is exact at those sizes.
- Java strings are UTF-16 units and Dafny `char`s are code points. `CompareStrings` compares the UTF-16 encodings,
  so the sort of the dump lines and of the sets follows Java's order, and `PlanEntry` measures `substring(0, 3)` in
  units. The other cuts are at ASCII text or at a character `indexOf` finds, which give the same text either way.
- `DumpStrings.EqualsIgnoreCase`: `Lower` folds the ASCII capitals, and folds U+0130 and U+0131 to `i`. Those are
  all the characters Java's `equalsIgnoreCase` matches with a letter of `DIR`, the only text it is used on. Other
  non-ASCII case pairs are not folded.
- `DumpScan.ParseLines`: the scan reads every line's hash and path once, up front. The source calls `GetHash` and
  `GetPaths` inside its loops. The values are the same, because the lines are made by `DumpLine` and always long
  enough (`LinesWellFormed`).
- `DumpSorted.ViewsOf`: `Collections.sort` of the set objects is modelled as a stable insertion sort of value
  snapshots `SetView(label, members)`. The list `getFile_Hashes` returns is modelled as a copy, not a shared alias.
- `DumpProperties.PlanOfDump` and `DumpProperties.PlanOfCluster` hold only when `GetHumanReadableSize` never returns
  a space and never starts with `d` or `D`. This is the `HumanReadableFits` condition. Without it, a member's
  third word is not its path.
- `DumpSorted.Plan`: the dump pipeline (`Plan`, `Plans`, `DumpSpec`, `ReadMember`, `ReadMembers`, `RemovalPlan`, `PlansOf`, `DumpToFileSorted`) reads
  members with the corrected `RemoveSizeField`. For a directory whose path contains `#` it therefore departs from
  the cut at src/main/java/com/irfanAK/delta/DeltaHash.java:283. `DumpSorted.PlanAsWritten` keeps that cut (see Findings).
- `DeltaHashProperties.TransparentFile`, `TransparentFolder`, `TransparentChildren` and `SecondCallIsTransparent`
  hold for calls with one chunk size, or with positive chunk sizes only (`SharedSizes`). Mixing chunk size 0 with
  another size breaks transparency (see Findings).

## Findings

| source | as written | input that shows it | evidently intended | confidence | as-written member | corrected member |
|---|---|---|---|---|---|---|
| src/main/java/com/irfanAK/delta/DeltaHash.java:283-288 | `RemoveFileSize` cuts at the first `#` anywhere in a member, including inside a directory's path | the lines `DIR ABCDEF C:\x\#123` and `DIR ABCDEF C:\y\#123`: the plan reads them as non-directories named `123` and would `DEL "123"`. With `/` paths the scan throws in `GetParentPath` before the plan is reached (`DumpScan.SlashPathsFail`) | cut only a size field, which ends in `#` in the first word, so the plan would `RMDIR C:\y\#123` | not executed | `DumpProperties.RemoveFileSizeMisreadsDirectory` | `DumpProperties.RemoveSizeFieldReadsDirectory` |
| src/main/java/com/irfanAK/delta/DeltaHash.java:52-73 | only a negative chunk size is refused, and every full-mode lookup uses the key `FULL:0:` + path whatever the chunk size; with chunk size 0 the buffer is empty, so the full-mode digest is that of no bytes | on one engine, `DeltaFileHash(p, 0, -1)` then `DeltaFileHash(p, 1, -1)` for a non-empty file `p`: the second call returns the digest of no bytes cached by the first, not the digest of `p` | refuse chunk size 0, as the message "Chunk Size must be a positive number" says; then calls with any positive chunk sizes can share an engine | not executed | `DeltaHashProperties.ZeroChunkSizeSharesFullKey` | `DeltaHashProperties.SecondCallIsTransparent` |
| src/com/irfanAK/delta/DeltaHash.java:64-77 | the threshold rule sets `chunkSize = -1`, which `FileChunkHash` then rejects | any file with `size / 2 < chunkCount * chunkSize * 1024`, for example 100 bytes with chunk size 1 and chunk count 1, fails with `IllegalArgumentException` | digest the whole file under the full key, as the newer snapshot does by setting `chunkCount = -1` | not executed | `LegacyDeltaHash.LegacyForcedFileFails` | `DeltaHashProperties.ForcedFileDigestsWholeFile` |

The rest of the clustering model uses the corrected cut. `DumpSorted.Plan` uses `RemoveSizeField`, and
`DumpSorted.PlanAsWritten` keeps `RemoveFileSize` for the first finding. For the second, the engine keeps the
check as written. Its transparency lemmas cover any mix of positive chunk sizes, which is all the corrected check
admits, and also calls that share a single chunk size of any value.
