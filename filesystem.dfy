/** The filesystem the hashing code reads, as an immutable value. A path
    resolves to a `Node`; paths are already canonical (what `getCanonicalPath`
    returns), and a directory lists its immediate children in the order in
    which `Files.walk(path, 1)` enumerates them. */
module FileSystem {
  import opened Base

  datatype Node =
    | Missing(path: string)                              // `Files.exists` is false
    | RegularFile(path: string, data: Bytes)             // `Files.isRegularFile`
    | Directory(path: string, children: seq<Node>)       // `Files.isDirectory`
    | Special(path: string)                              // exists, but neither of the two

  /** `Files.isRegularFile(p) || Files.isDirectory(p)`: the entries the
      hashing code accepts, and the filter applied to a directory listing. */
  predicate IsFileOrDirectory(n: Node) {
    n.RegularFile? || n.Directory?
  }

  /** The children that survive `.filter(f -> isRegularFile(f) || isDirectory(f))`,
      in listing order. */
  function Listing(children: seq<Node>): (r: seq<Node>)
    ensures |r| <= |children|
    ensures forall c :: c in r ==> c in children && IsFileOrDirectory(c)
    ensures forall c :: c in children && IsFileOrDirectory(c) ==> c in r
  {
    if |children| == 0 then []
    else if IsFileOrDirectory(children[0]) then [children[0]] + Listing(children[1..])
    else Listing(children[1..])
  }

  /** Whether `needle` occurs in `s` as a contiguous substring (`String.contains`). */
  predicate Contains(s: string, needle: string)
    decreases |s|
  {
    |needle| <= |s| && (s[..|needle|] == needle || Contains(s[1..], needle))
  }

  /** `n` is `root` or lies somewhere below it. */
  predicate InTree(n: Node, root: Node)
    decreases root
  {
    n == root || (root.Directory? && exists c :: c in root.children && InTree(n, c))
  }

  /** Canonical paths name one entry each: two entries of the tree with the same path are the same entry. */
  ghost predicate UniquePaths(root: Node) {
    forall a, b :: InTree(a, root) && InTree(b, root) && a.path == b.path ==> a == b
  }

  /** The entries of a directory in the tree are in the tree. */
  lemma {:induction false} InTreeChild(dir: Node, child: Node, root: Node)
    requires InTree(dir, root) && dir.Directory? && child in dir.children
    ensures InTree(child, root)
    decreases root
  {
    if dir != root {
      var c :| c in root.children && InTree(dir, c);
      InTreeChild(dir, child, c);
    }
  }
  /** Filtering keeps an accepted entry as often as the directory lists it and
      drops the others. */
  lemma {:induction false} ListingCounts(children: seq<Node>, n: Node)
    ensures multiset(Listing(children))[n] == if IsFileOrDirectory(n) then multiset(children)[n] else 0
  {
    if |children| > 0 {
      ListingCounts(children[1..], n);
      assert children == [children[0]] + children[1..];
    }
  }

  /** Listing the same entries in another order gives the same entries, in another order. */
  lemma ListingPermutation(c1: seq<Node>, c2: seq<Node>)
    requires multiset(c1) == multiset(c2)
    ensures multiset(Listing(c1)) == multiset(Listing(c2))
  {
    forall n
      ensures multiset(Listing(c1))[n] == multiset(Listing(c2))[n]
    {
      ListingCounts(c1, n);
      ListingCounts(c2, n);
    }
  }
}
