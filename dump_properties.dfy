/** What `DumpToFileSorted` guarantees about its dump lines, its duplicate
    sets and its removal plans. */
module DumpProperties {
  import opened Base
  import opened Delta
  import opened DeltaHash
  import opened DeltaDuplicateSet
  import opened DumpStrings
  import opened DumpScan
  import opened StableSort
  import opened DumpSorted

  /* ---------- the dump lines ---------- */

  /** Sorted, one line per cache entry and nothing else. */
  lemma LinesAreTheCache(cache: Cache, order: seq<string>)
    requires ValidCache(cache) && IsKeyOrder(cache, order)
    ensures SortedBy(Lines(cache, order), Id)
    ensures |Lines(cache, order)| == |cache|
    ensures forall k :: k in cache ==> DumpLine(cache[k], k) in Lines(cache, order)
    ensures forall j :: 0 <= j < |Lines(cache, order)| ==>
      exists k :: k in cache && Lines(cache, order)[j] == DumpLine(cache[k], k)
  {
    var lines := Lines(cache, order);
    SortBySorted(KeyLines(cache, order), Id);
    assert |lines| == |multiset(lines)| == |multiset(KeyLines(cache, order))| == |order|;
    DistinctCardinality(cache, order);
    forall k | k in cache ensures DumpLine(cache[k], k) in lines {
      var m :| 0 <= m < |order| && order[m] == k;
      KeyLinesAt(cache, order, m);
      assert DumpLine(cache[k], k) in multiset(KeyLines(cache, order));
    }
    forall j | 0 <= j < |lines| ensures exists k :: k in cache && lines[j] == DumpLine(cache[k], k) {
      var m := LineOfKey(cache, order, j);
      assert order[m] in cache;
    }
  }

  lemma DistinctCardinality(cache: Cache, order: seq<string>)
    requires IsKeyOrder(cache, order)
    ensures |order| == |cache|
  {
    var keys := set m | 0 <= m < |order| :: order[m];
    assert keys == cache.Keys;
    DistinctSetSize(order);
  }

  lemma {:induction false} DistinctSetSize(s: seq<string>)
    requires Distinct(s)
    ensures |set m | 0 <= m < |s| :: s[m]| == |s|
    decreases |s|
  {
    if |s| > 0 {
      var t := s[..|s| - 1];
      DistinctSetSize(t);
      var ks := set m | 0 <= m < |s| :: s[m];
      var kt := set m | 0 <= m < |t| :: t[m];
      assert ks == kt + {s[|s| - 1]};
      assert s[|s| - 1] !in kt;
    }
  }

  /** The line of a key gives the key back. */
  lemma DumpLineInjective(d1: Bytes, k1: string, d2: Bytes, k2: string)
    requires |d1| == DIGEST_LENGTH && |d2| == DIGEST_LENGTH && DumpLine(d1, k1) == DumpLine(d2, k2)
    ensures k1 == k2
  {
    DumpLineSplit(d1, k1);
    DumpLineSplit(d2, k2);
  }

  lemma {:induction false} KeyLinesDistinct(cache: Cache, order: seq<string>)
    requires ValidCache(cache) && (forall k :: k in order ==> k in cache) && Distinct(order)
    ensures Distinct(KeyLines(cache, order))
  {
    var lines := KeyLines(cache, order);
    forall i, j | 0 <= i < j < |lines| ensures lines[i] != lines[j] {
      KeyLinesAt(cache, order, i);
      KeyLinesAt(cache, order, j);
      if lines[i] == lines[j] {
        DumpLineInjective(cache[order[i]], order[i], cache[order[j]], order[j]);
      }
    }
  }

  /** A list without repetitions holds each of its elements once. */
  lemma {:induction false} DistinctCount(a: seq<string>, x: string)
    requires Distinct(a)
    ensures multiset(a)[x] == if x in a then 1 else 0
    decreases |a|
  {
    if |a| > 0 {
      var t := a[1..];
      assert a == [a[0]] + t;
      DistinctCount(t, x);
    }
  }

  /** Two lists without repetitions that hold the same elements are permutations of each other. */
  lemma DistinctSameElements(a: seq<string>, b: seq<string>)
    requires Distinct(a) && Distinct(b) && forall x :: x in a <==> x in b
    ensures multiset(a) == multiset(b)
  {
    forall x ensures multiset(a)[x] == multiset(b)[x] {
      DistinctCount(a, x);
      DistinctCount(b, x);
    }
  }

  /** The dump does not depend on the order the map yields its keys in. */
  lemma LinesIndependentOfOrder(cache: Cache, o1: seq<string>, o2: seq<string>)
    requires ValidCache(cache) && IsKeyOrder(cache, o1) && IsKeyOrder(cache, o2)
    ensures Lines(cache, o1) == Lines(cache, o2)
  {
    var l1 := KeyLines(cache, o1);
    var l2 := KeyLines(cache, o2);
    KeyLinesDistinct(cache, o1);
    KeyLinesDistinct(cache, o2);
    forall x ensures x in l1 <==> x in l2 {
      LinesSameElements(cache, o1, o2, x);
      LinesSameElements(cache, o2, o1, x);
    }
    DistinctSameElements(l1, l2);
    SortBySorted(l1, Id);
    SortBySorted(l2, Id);
    SortedByUnique(Lines(cache, o1), Lines(cache, o2), Id);
  }

  lemma LinesSameElements(cache: Cache, o1: seq<string>, o2: seq<string>, x: string)
    requires IsKeyOrder(cache, o1) && IsKeyOrder(cache, o2)
    ensures x in KeyLines(cache, o1) ==> x in KeyLines(cache, o2)
  {
    if x in KeyLines(cache, o1) {
      var m :| 0 <= m < |o1| && KeyLines(cache, o1)[m] == x;
      KeyLinesAt(cache, o1, m);
      var key := o1[m];
      assert key in cache;
      var n :| 0 <= n < |o2| && o2[n] == key;
      KeyLinesAt(cache, o2, n);
    }
  }

  /** Any two enumerations of the keys give the same dump. */
  lemma DumpIndependentOfOrder(cache: Cache, o1: seq<string>, o2: seq<string>, minSize: int, env: Env)
    requires ValidCache(cache) && IsKeyOrder(cache, o1) && IsKeyOrder(cache, o2)
    ensures DumpSpec(cache, o1, minSize, env) == DumpSpec(cache, o2, minSize, env)
  {
    LinesIndependentOfOrder(cache, o1, o2);
  }

  /* ---------- the sets ---------- */

  /** The sets of the dump are the sets of the scan, sorted by label. */
  lemma DumpSetsSorted(cache: Cache, order: seq<string>, minSize: int, env: Env)
    requires ValidCache(cache) && IsKeyOrder(cache, order)
    requires DumpSpec(cache, order, minSize, env).Ok?
    ensures WellFormed(Lines(cache, order))
    ensures var d := DumpSpec(cache, order, minSize, env).value;
      d.lines == Lines(cache, order) &&
      SortedBy(d.sets, TitleOf) &&
      multiset(d.sets) == multiset(Views(Scan(d.lines, minSize, env).value))
  {
    LinesWellFormed(cache, order);
    var cs := Scan(Lines(cache, order), minSize, env).value;
    SortBySorted(Views(cs), TitleOf);
  }

  /* ---------- the removal plan of one set ---------- */

  /** The paths of the lines `a` to `e - 1`. */
  function Paths(ls: seq<Line>, a: nat, e: nat): (r: seq<string>)
    requires a <= e <= |ls|
    ensures |r| == e - a && forall j :: 0 <= j < e - a ==> r[j] == ls[a + j].path
  {
    seq(e - a, j requires 0 <= j < e - a => ls[a + j].path)
  }

  /** A human-readable size is one word that does not start with a `d`, so
      that it neither splits the label nor reads as `DIR`. */
  ghost predicate HumanReadableFits(env: Env) {
    forall n: nat :: ' ' !in env.humanReadable(n) &&
      (|env.humanReadable(n)| == 0 || Lower(env.humanReadable(n)[0]) != 'd')
  }

  lemma NoMark(f: string, c: char)
    requires forall k :: 0 <= k < |f| ==> IsDigit(f[k])
    requires !IsDigit(c)
    ensures c !in f
  {
  }

  /** `PlanEntry` in terms of the stripped member. */
  lemma PlanEntryOf(m: string, h: string, isDir: bool, mpath: string)
    requires RemoveSizeField(m) == h && |h| >= 3
    requires StartsWithIgnoringCase(h, "DIR") == isDir && AfterFirst(AfterFirst(h, ' '), ' ') == mpath
    ensures PlanEntry(m, RemoveSizeField) == Ok((isDir, mpath))
  {
  }

  /** Behind the first two words of `u hhhhhh path` lies the path. */
  lemma ThirdWord(u: string, h6: string, mpath: string)
    requires ' ' !in u && ' ' !in h6
    ensures AfterFirst(AfterFirst(u + [' '] + (h6 + [' '] + mpath), ' '), ' ') == mpath
  {
    AfterFirstSplit(u, ' ', h6 + [' '] + mpath);
    AfterFirstSplit(h6, ' ', mpath);
  }

  lemma StartsWithDirectory(tail: string)
    ensures StartsWithIgnoringCase("DIR" + [' '] + tail, "DIR")
  {
    assert ("DIR" + [' '] + tail)[..3] == "DIR";
  }

  lemma StartsWithOther(hr: string, tail: string)
    requires (|hr| == 0 || Lower(hr[0]) != 'd') && |tail| >= 2
    ensures !StartsWithIgnoringCase(hr + [' '] + tail, "DIR")
  {
    var v := hr + [' '] + tail;
    assert Lower(v[0]) != Lower("DIR"[0]);
  }

  /** A directory member `DIR hhhhhh path` reads back as a directory and its path. */
  lemma DirectoryEntry(h6: string, mpath: string)
    requires ' ' !in h6
    ensures PlanEntry("DIR" + [' '] + (h6 + [' '] + mpath), RemoveSizeField) == Ok((true, mpath))
  {
    var tail := h6 + [' '] + mpath;
    RemoveSizeFieldOfOther("DIR", tail);
    ThirdWord("DIR", h6, mpath);
    StartsWithDirectory(tail);
    PlanEntryOf("DIR" + [' '] + tail, "DIR" + [' '] + tail, true, mpath);
  }

  /** A file member `size#hr hhhhhh path` reads back as no directory and its path. */
  lemma FileEntry(f: string, hr: string, h6: string, mpath: string)
    requires forall k :: 0 <= k < |f| ==> IsDigit(f[k])
    requires ' ' !in hr && (|hr| == 0 || Lower(hr[0]) != 'd') && ' ' !in h6 && |h6| == 6
    ensures PlanEntry(f + ['#'] + (hr + [' '] + (h6 + [' '] + mpath)), RemoveSizeField) == Ok((false, mpath))
  {
    var tail := h6 + [' '] + mpath;
    var v := hr + [' '] + tail;
    NoMark(f, '#');
    NoMark(f, ' ');
    RemoveSizeFieldOfFile(f, v);
    ThirdWord(hr, h6, mpath);
    StartsWithOther(hr, tail);
    PlanEntryOf(f + ['#'] + v, v, false, mpath);
  }

  /** The plan loop reads a member back as the directory flag and the path
      of the line it was built from. */
  lemma MemberEntry(path: string, hash: string, env: Env, mpath: string)
    requires |hash| >= 6 && ' ' !in hash[..6] && HumanReadableFits(env)
    requires Label(path, hash, env).Ok?
    ensures PlanEntry(Label(path, hash, env).value + " " + mpath, RemoveSizeField) == Ok((env.isDirectory(path), mpath))
  {
    var h6 := hash[..6];
    if env.isDirectory(path) {
      assert Label(path, hash, env).value + " " + mpath == "DIR" + [' '] + (h6 + [' '] + mpath);
      DirectoryEntry(h6, mpath);
    } else {
      var size := env.size(path);
      FileMember(Fixed(size, SIZE_WIDTH), env.humanReadable(size), h6, mpath);
      FileEntry(Fixed(size, SIZE_WIDTH), env.humanReadable(size), h6, mpath);
    }
  }

  lemma FileMember(f: string, hr: string, h6: string, mpath: string)
    ensures (f + "#" + hr) + " " + h6 + " " + mpath == f + ['#'] + (hr + [' '] + (h6 + [' '] + mpath))
  {
  }

  /** The loop over members each of which reads back as `isDir` and its path. */
  lemma {:induction false} PlanPathsOf(ms: seq<string>, paths: seq<string>, strip: string -> string, isDir: bool)
    requires |ms| == |paths| > 0
    requires forall j :: 0 <= j < |ms| ==> PlanEntry(ms[j], strip) == Ok((isDir, paths[j]))
    ensures PlanPaths(ms, strip) == Ok((isDir, paths))
    decreases |ms|
  {
    var n := |ms|;
    if n > 1 {
      PlanPathsOf(ms[..n - 1], paths[..n - 1], strip, isDir);
    }
    ButLast(paths);
  }

  lemma ButLast(s: seq<string>)
    requires |s| > 0
    ensures s == s[..|s| - 1] + [s[|s| - 1]]
  {
  }

  lemma PathsTail(ls: seq<Line>, a: nat, e: nat)
    requires a < e <= |ls|
    ensures Paths(ls, a, e)[1..] == Paths(ls, a + 1, e)
  {
  }

  /** The members of a set read back as the anchor's directory flag and the paths of its lines. */
  lemma MembersReadBack(ls: seq<Line>, a: nat, e: nat, env: Env)
    requires a < e <= |ls| && |ls[a].hash| >= 6 && ' ' !in ls[a].hash[..6] && HumanReadableFits(env)
    requires Label(ls[a].path, ls[a].hash, env).Ok?
    ensures PlanPaths(Members(ls, Label(ls[a].path, ls[a].hash, env).value, a, e), RemoveSizeField) ==
      Ok((env.isDirectory(ls[a].path), Paths(ls, a, e)))
  {
    var prefix := Label(ls[a].path, ls[a].hash, env).value;
    var ms := Members(ls, prefix, a, e);
    var paths := Paths(ls, a, e);
    var isDir := env.isDirectory(ls[a].path);
    forall j | 0 <= j < |ms| ensures PlanEntry(ms[j], RemoveSizeField) == Ok((isDir, paths[j])) {
      MembersAt(ls, prefix, a, e, j);
      MemberEntry(ls[a].path, ls[a].hash, env, ls[a + j].path);
    }
    PlanPathsOf(ms, paths, RemoveSizeField, isDir);
  }

  /** The plan of a set: keep the anchor's path, remove the paths of the
      other lines of its run, by `RMDIR` when the anchor is a directory. */
  lemma PlanOfCluster(ls: seq<Line>, c: Cluster, minSize: int, env: Env)
    requires Hashed(ls) && ClusterOK(ls, c, minSize, env) && HumanReadableFits(env)
    requires ' ' !in ls[c.anchor].hash[..6]
    ensures var anchor := ls[c.anchor].path;
      Plan(c.members) == Ok(Some(Removal(env.isDirectory(anchor), anchor, Paths(ls, c.anchor + 1, c.end))))
  {
    PlanOfRun(ls, c.anchor, c.end, env);
  }

  lemma PlanOfRun(ls: seq<Line>, a: nat, e: nat, env: Env)
    requires a + 2 <= e <= |ls| && |ls[a].hash| >= 6 && ' ' !in ls[a].hash[..6] && HumanReadableFits(env)
    requires Label(ls[a].path, ls[a].hash, env).Ok?
    ensures Plan(Members(ls, Label(ls[a].path, ls[a].hash, env).value, a, e)) ==
      Ok(Some(Removal(env.isDirectory(ls[a].path), ls[a].path, Paths(ls, a + 1, e))))
  {
    MembersReadBack(ls, a, e, env);
    PlanOfPaths(Members(ls, Label(ls[a].path, ls[a].hash, env).value, a, e), env.isDirectory(ls[a].path), Paths(ls, a, e));
    PathsTail(ls, a, e);
  }

  lemma PlanOfPaths(ms: seq<string>, isDir: bool, paths: seq<string>)
    requires |ms| >= 2 && PlanPaths(ms, RemoveSizeField) == Ok((isDir, paths))
    ensures Plan(ms) == Ok(Some(Removal(isDir, paths[0], paths[1..])))
  {
  }

  /* ---------- the dump as a whole ---------- */

  /** The hash the scan reads from a dump line is the hex of the line's digest. */
  lemma HexOfLine(line: string, digest: Bytes, key: string)
    requires |digest| == DIGEST_LENGTH && line == DumpLine(digest, key)
    ensures |line| >= HASH_LENGTH + 1
    ensures forall i :: 0 <= i < HASH_LENGTH ==> IsUpperHexDigit(Read(line).hash[i])
  {
    DumpLineSplit(digest, key);
    GetHashOfLine(digest, key);
    var hash := Read(line).hash;
    assert hash == Base16(digest);
    forall i | 0 <= i < HASH_LENGTH ensures IsUpperHexDigit(hash[i]) {
      Base16Alphabet(digest, i);
    }
  }

  lemma HexHasNoSpace(hash: string)
    requires |hash| == HASH_LENGTH && forall i :: 0 <= i < HASH_LENGTH ==> IsUpperHexDigit(hash[i])
    ensures ' ' !in hash[..6]
  {
    assert forall i :: 0 <= i < 6 ==> hash[..6][i] == hash[i];
  }

  /** The hash the scan reads from a dump line is hex, so it holds no space. */
  lemma HashOfLine(cache: Cache, order: seq<string>, j: nat)
    requires ValidCache(cache) && IsKeyOrder(cache, order)
    requires j < |Lines(cache, order)|
    ensures WellFormed(Lines(cache, order))
    ensures forall i :: 0 <= i < HASH_LENGTH ==> IsUpperHexDigit(Parse(Lines(cache, order))[j].hash[i])
    ensures ' ' !in Parse(Lines(cache, order))[j].hash[..6]
  {
    LinesWellFormed(cache, order);
    var lines := Lines(cache, order);
    var m := LineOfKey(cache, order, j);
    ParseAt(lines, j);
    HexOfLine(lines[j], cache[order[m]], order[m]);
    HexHasNoSpace(Parse(lines)[j].hash);
  }

  /** Each set of the dump is the view of a set of the scan, which satisfies `ClusterOK`. */
  lemma SetOfDump(cache: Cache, order: seq<string>, minSize: int, env: Env, k: nat) returns (c: Cluster)
    requires ValidCache(cache) && IsKeyOrder(cache, order)
    requires DumpSpec(cache, order, minSize, env).Ok?
    requires k < |DumpSpec(cache, order, minSize, env).value.sets|
    ensures WellFormed(Lines(cache, order))
    ensures ClusterOK(Parse(Lines(cache, order)), c, minSize, env)
    ensures DumpSpec(cache, order, minSize, env).value.sets[k] == SetView(c.title, c.members)
  {
    LinesWellFormed(cache, order);
    var lines := Lines(cache, order);
    var cs := Scan(lines, minSize, env).value;
    var sets := DumpSpec(cache, order, minSize, env).value.sets;
    assert sets == SortBy(Views(cs), TitleOf);
    assert sets[k] in multiset(Views(cs));
    var m :| 0 <= m < |cs| && Views(cs)[m] == sets[k];
    ScanShape(Parse(lines), 1, minSize, env);
    c := cs[m];
  }

  /** Every set of the dump has two members or more. */
  lemma SetsOfDumpArePairs(cache: Cache, order: seq<string>, minSize: int, env: Env)
    requires ValidCache(cache) && IsKeyOrder(cache, order)
    requires DumpSpec(cache, order, minSize, env).Ok?
    ensures var sets := DumpSpec(cache, order, minSize, env).value.sets;
      forall m :: 0 <= m < |sets| ==> |sets[m].members| >= 2
  {
    var sets := DumpSpec(cache, order, minSize, env).value.sets;
    forall m | 0 <= m < |sets| ensures |sets[m].members| >= 2 {
      var c := SetOfDump(cache, order, minSize, env, m);
    }
  }

  /** `Plans` with the plan of one set given as a parameter. */
  function PlansBy(sets: seq<SetView>, plan: seq<string> -> Result<Option<Removal>>): Result<seq<Removal>> {
    if |sets| == 0 then Ok([])
    else
      match PlansBy(sets[..|sets| - 1], plan)
      case Err(e) => Err(e)
      case Ok(done) =>
        match plan(sets[|sets| - 1].members)
        case Err(e) => Err(e)
        case Ok(None) => Ok(done)
        case Ok(Some(p)) => Ok(done + [p])
  }

  lemma {:induction false} PlansArePlansBy(sets: seq<SetView>)
    ensures Plans(sets) == PlansBy(sets, Plan)
    decreases |sets|
  {
    if |sets| > 0 {
      PlansArePlansBy(sets[..|sets| - 1]);
    }
  }

  /** When no set has an empty plan, the plan in place `k` is that of the set in place `k`. */
  lemma {:induction false} PlanByAt(sets: seq<SetView>, plan: seq<string> -> Result<Option<Removal>>, k: nat)
    requires forall m :: 0 <= m < |sets| ==> plan(sets[m].members).Err? || plan(sets[m].members).value.Some?
    requires PlansBy(sets, plan).Ok? && k < |sets|
    ensures |PlansBy(sets, plan).value| == |sets|
    ensures plan(sets[k].members) == Ok(Some(PlansBy(sets, plan).value[k]))
    decreases |sets|
  {
    var n := |sets|;
    var init := sets[..n - 1];
    assert forall m :: 0 <= m < |init| ==> init[m] == sets[m];
    if n > 1 {
      PlanByAt(init, plan, if k < n - 1 then k else 0);
    }
  }

  /** A set of two members or more has a plan unless reading it fails. */
  lemma PlanOfPair(ms: seq<string>)
    requires |ms| >= 2
    ensures Plan(ms).Err? || Plan(ms).value.Some?
  {
  }

  /** Every set with two or more members has a plan, so the plans follow the sets one for one. */
  lemma PlansOfSets(sets: seq<SetView>, plans: seq<Removal>)
    requires forall k :: 0 <= k < |sets| ==> |sets[k].members| >= 2
    requires Plans(sets) == Ok(plans)
    ensures |plans| == |sets|
    ensures forall k :: 0 <= k < |sets| ==> Plan(sets[k].members) == Ok(Some(plans[k]))
  {
    PlansArePlansBy(sets);
    forall m | 0 <= m < |sets| ensures Plan(sets[m].members).Err? || Plan(sets[m].members).value.Some? {
      PlanOfPair(sets[m].members);
    }
    if |sets| > 0 {
      PlanByAt(sets, Plan, 0);
    }
    forall k | 0 <= k < |sets| ensures Plan(sets[k].members) == Ok(Some(plans[k])) {
      PlanByAt(sets, Plan, k);
    }
  }

  /** Each plan of the dump belongs to the set in the same place: it keeps
      the path of the set's first line and removes the paths of the others,
      as directories when the first line is one. */
  lemma PlanOfDump(cache: Cache, order: seq<string>, minSize: int, env: Env, k: nat) returns (c: Cluster)
    requires ValidCache(cache) && IsKeyOrder(cache, order) && HumanReadableFits(env)
    requires DumpSpec(cache, order, minSize, env).Ok?
    requires k < |DumpSpec(cache, order, minSize, env).value.sets|
    ensures WellFormed(Lines(cache, order))
    ensures var ls := Parse(Lines(cache, order));
      var d := DumpSpec(cache, order, minSize, env).value;
      ClusterOK(ls, c, minSize, env) && d.sets[k] == SetView(c.title, c.members) &&
      |d.plans| == |d.sets| &&
      d.plans[k] == Removal(env.isDirectory(ls[c.anchor].path), ls[c.anchor].path, Paths(ls, c.anchor + 1, c.end))
  {
    var d := DumpSpec(cache, order, minSize, env).value;
    SetsOfDumpArePairs(cache, order, minSize, env);
    PlansOfSets(d.sets, d.plans);
    c := SetOfDump(cache, order, minSize, env, k);
    HashOfLine(cache, order, c.anchor);
    PlanOfCluster(Parse(Lines(cache, order)), c, minSize, env);
  }

  /** The label of a set whose first line is a file: its size field, then the hash. */
  lemma TitleOfFile(ls: seq<Line>, c: Cluster, minSize: int, env: Env)
    requires Hashed(ls) && ClusterOK(ls, c, minSize, env) && !env.isDirectory(ls[c.anchor].path)
    ensures var size := env.size(ls[c.anchor].path); var h := ls[c.anchor].hash;
      size < Pow10(SIZE_WIDTH) &&
      c.title == SizeField(size, false, env.humanReadable(size)).value + (" " + h[..6] + " " + h)
  {
    var p := ls[c.anchor].path;
    var h := ls[c.anchor].hash;
    var size := env.size(p);
    LabelOfFile(p, h, env);
    Regroup(SizeField(size, false, env.humanReadable(size)).value, h[..6], h);
  }

  lemma LabelOfFile(path: string, hash: string, env: Env)
    requires |hash| >= 6 && !env.isDirectory(path) && Label(path, hash, env).Ok?
    ensures var size := env.size(path);
      size < Pow10(SIZE_WIDTH) && SizeField(size, false, env.humanReadable(size)).Ok? &&
      Label(path, hash, env).value == SizeField(size, false, env.humanReadable(size)).value + " " + hash[..6]
  {
  }

  lemma Regroup(field: string, h6: string, h: string)
    ensures (field + " " + h6) + " " + h == field + (" " + h6 + " " + h)
  {
  }

  /** The label of a set whose first line is a directory: `DIR`, then the hash. */
  lemma TitleOfDirectory(ls: seq<Line>, c: Cluster, minSize: int, env: Env)
    requires Hashed(ls) && ClusterOK(ls, c, minSize, env) && env.isDirectory(ls[c.anchor].path)
    ensures var h := ls[c.anchor].hash; c.title == "DIR" + (" " + h[..6] + " " + h)
  {
  }

  /** A directory set's label follows a file set's. */
  lemma DirectoryTitleLast(ls: seq<Line>, ci: Cluster, cj: Cluster, minSize: int, env: Env)
    requires Hashed(ls) && ClusterOK(ls, ci, minSize, env) && ClusterOK(ls, cj, minSize, env)
    requires env.isDirectory(ls[ci.anchor].path) && !env.isDirectory(ls[cj.anchor].path)
    ensures CompareStrings(ci.title, cj.title) > 0
  {
    var hi := ls[ci.anchor].hash;
    var hj := ls[cj.anchor].hash;
    var sj := env.size(ls[cj.anchor].path);
    TitleOfDirectory(ls, ci, minSize, env);
    TitleOfFile(ls, cj, minSize, env);
    DirectoryLabelsLast(sj, env.humanReadable(sj), " " + hi[..6] + " " + hi, " " + hj[..6] + " " + hj);
  }

  /** A file set's label follows that of a file set of smaller size. */
  lemma FileTitlesBySize(ls: seq<Line>, ci: Cluster, cj: Cluster, minSize: int, env: Env)
    requires Hashed(ls) && ClusterOK(ls, ci, minSize, env) && ClusterOK(ls, cj, minSize, env)
    requires !env.isDirectory(ls[ci.anchor].path) && !env.isDirectory(ls[cj.anchor].path)
    requires env.size(ls[ci.anchor].path) > env.size(ls[cj.anchor].path)
    ensures CompareStrings(ci.title, cj.title) > 0
  {
    var hi := ls[ci.anchor].hash;
    var hj := ls[cj.anchor].hash;
    var si := env.size(ls[ci.anchor].path);
    var sj := env.size(ls[cj.anchor].path);
    TitleOfFile(ls, ci, minSize, env);
    TitleOfFile(ls, cj, minSize, env);
    FileLabelsAscend(sj, si, env.humanReadable(sj), env.humanReadable(si), " " + hj[..6] + " " + hj, " " + hi[..6] + " " + hi);
    CompareStringsAntisymmetric(ci.title, cj.title);
  }

  /** How the labels of two sets compare: a directory set after a file set,
      and a file set after a file set of smaller size. */
  lemma TitleOrder(ls: seq<Line>, ci: Cluster, cj: Cluster, minSize: int, env: Env)
    requires Hashed(ls) && ClusterOK(ls, ci, minSize, env) && ClusterOK(ls, cj, minSize, env)
    ensures var pi := ls[ci.anchor].path; var pj := ls[cj.anchor].path;
      (env.isDirectory(pi) && !env.isDirectory(pj) ==> CompareStrings(ci.title, cj.title) > 0) &&
      (!env.isDirectory(pi) && !env.isDirectory(pj) && env.size(pi) > env.size(pj) ==>
        CompareStrings(ci.title, cj.title) > 0)
  {
    var pi := ls[ci.anchor].path;
    var pj := ls[cj.anchor].path;
    if env.isDirectory(pi) && !env.isDirectory(pj) {
      DirectoryTitleLast(ls, ci, cj, minSize, env);
    }
    if !env.isDirectory(pi) && !env.isDirectory(pj) && env.size(pi) > env.size(pj) {
      FileTitlesBySize(ls, ci, cj, minSize, env);
    }
  }

  /** The order of the sets of the dump: directory sets come after all file
      sets, file sets by ascending size of their first file. */
  lemma SetsOrderOfDump(cache: Cache, order: seq<string>, minSize: int, env: Env, i: nat, j: nat)
    returns (ci: Cluster, cj: Cluster)
    requires ValidCache(cache) && IsKeyOrder(cache, order)
    requires DumpSpec(cache, order, minSize, env).Ok?
    requires i < j < |DumpSpec(cache, order, minSize, env).value.sets|
    ensures WellFormed(Lines(cache, order))
    ensures var ls := Parse(Lines(cache, order));
      var d := DumpSpec(cache, order, minSize, env).value;
      ClusterOK(ls, ci, minSize, env) && d.sets[i] == SetView(ci.title, ci.members) &&
      ClusterOK(ls, cj, minSize, env) && d.sets[j] == SetView(cj.title, cj.members) &&
      var pi := ls[ci.anchor].path; var pj := ls[cj.anchor].path;
      (env.isDirectory(pi) ==> env.isDirectory(pj)) &&
      (!env.isDirectory(pi) && !env.isDirectory(pj) ==> env.size(pi) <= env.size(pj))
  {
    ci := SetOfDump(cache, order, minSize, env, i);
    cj := SetOfDump(cache, order, minSize, env, j);
    DumpSetsSorted(cache, order, minSize, env);
    TitleOrder(Parse(Lines(cache, order)), ci, cj, minSize, env);
  }

  /* ---------- RemoveFileSize on a directory path holding '#' ---------- */

  /** One more member that reads back as `isDir` and its path. */
  lemma PlanPathsSnoc(ms: seq<string>, m: string, strip: string -> string, paths: seq<string>, isDir: bool, p: string)
    requires PlanPaths(ms, strip).Ok? && PlanPaths(ms, strip).value.1 == paths
    requires PlanEntry(m, strip) == Ok((isDir, p))
    ensures PlanPaths(ms + [m], strip) == Ok((isDir, paths + [p]))
  {
    assert (ms + [m])[..|ms|] == ms;
  }

  /** The plan of two members that read back as `isDir` and their paths. */
  lemma PlanOfTwo(m1: string, m2: string, p1: string, p2: string, strip: string -> string, isDir: bool)
    requires PlanEntry(m1, strip) == Ok((isDir, p1)) && PlanEntry(m2, strip) == Ok((isDir, p2))
    ensures PlanWith([m1, m2], strip) == Ok(Some(Removal(isDir, p1, [p2])))
  {
    PlanPathsOfTwo(m1, m2, p1, p2, strip, isDir);
    assert [p1, p2][0] == p1 && [p1, p2][1..] == [p2];
  }

  lemma PlanPathsOfTwo(m1: string, m2: string, p1: string, p2: string, strip: string -> string, isDir: bool)
    requires PlanEntry(m1, strip) == Ok((isDir, p1)) && PlanEntry(m2, strip) == Ok((isDir, p2))
    ensures PlanPaths([m1, m2], strip) == Ok((isDir, [p1, p2]))
  {
    PlanPathsOfOne(m1, p1, strip, isDir);
    assert [m1] + [m2] == [m1, m2] && [p1] + [p2] == [p1, p2];
    PlanPathsSnoc([m1], m2, strip, [p1], isDir, p2);
  }

  lemma PlanPathsOfOne(m: string, p: string, strip: string -> string, isDir: bool)
    requires PlanEntry(m, strip) == Ok((isDir, p))
    ensures PlanPaths([m], strip) == Ok((isDir, [p]))
  {
    assert [m][..0] == [] && [] + [p] == [p];
    assert PlanPaths([], strip) == Ok((false, []));
  }

  /** Two directories `<d1>#<t>` and `<d2>#<t>` with equal contents, where
      `t` is one word not starting with `DIR`: as written the plan takes
      them for files named `t`, so its `DEL` names the wrong entry and no
      directory is removed. Example: `C:\x\#123` and `C:\y\#123`. */
  lemma RemoveFileSizeMisreadsDirectory(h6: string, d1: string, d2: string, t: string)
    requires ' ' !in h6 && '#' !in h6 && '#' !in d1 && ' ' !in d1 && '#' !in d2 && ' ' !in d2
    requires |t| >= 3 && ' ' !in t && !EqualsIgnoreCase(t[..3], "DIR")
    ensures PlanAsWritten(["DIR" + [' '] + (h6 + [' '] + (d1 + ['#'] + t)), "DIR" + [' '] + (h6 + [' '] + (d2 + ['#'] + t))]) ==
      Ok(Some(Removal(false, t, [t])))
  {
    var m1 := "DIR" + [' '] + (h6 + [' '] + (d1 + ['#'] + t));
    var m2 := "DIR" + [' '] + (h6 + [' '] + (d2 + ['#'] + t));
    AsWrittenEntry(h6, d1, t);
    AsWrittenEntry(h6, d2, t);
    PlanOfTwo(m1, m2, t, t, RemoveFileSize, false);
  }

  /** With the size field removed only where a member has one, the plan of
      the same two directories keeps the first and removes the second by `RMDIR`. */
  lemma RemoveSizeFieldReadsDirectory(h6: string, d1: string, d2: string, t: string)
    requires ' ' !in h6
    ensures Plan(["DIR" + [' '] + (h6 + [' '] + (d1 + ['#'] + t)), "DIR" + [' '] + (h6 + [' '] + (d2 + ['#'] + t))]) ==
      Ok(Some(Removal(true, d1 + ['#'] + t, [d2 + ['#'] + t])))
  {
    var m1 := "DIR" + [' '] + (h6 + [' '] + (d1 + ['#'] + t));
    var m2 := "DIR" + [' '] + (h6 + [' '] + (d2 + ['#'] + t));
    DirectoryEntry(h6, d1 + ['#'] + t);
    DirectoryEntry(h6, d2 + ['#'] + t);
    PlanOfTwo(m1, m2, d1 + ['#'] + t, d2 + ['#'] + t, RemoveSizeField, true);
  }

  /** As written, `RemoveFileSize` cuts a directory member at the `'#'` of
      its path, and the plan loop reads it as a file named after the rest. */
  lemma AsWrittenEntry(h6: string, dir: string, t: string)
    requires ' ' !in h6 && '#' !in h6 && '#' !in dir && ' ' !in dir
    requires |t| >= 3 && ' ' !in t && !EqualsIgnoreCase(t[..3], "DIR")
    ensures PlanEntry("DIR" + [' '] + (h6 + [' '] + (dir + ['#'] + t)), RemoveFileSize) == Ok((false, t))
  {
    var u := "DIR" + [' '] + (h6 + [' '] + dir);
    NoMarkInDirectoryHead(h6, dir);
    StripAtMark(u, t);
    assert "DIR" + [' '] + (h6 + [' '] + (dir + ['#'] + t)) == u + ['#'] + t;
    PlanEntryAsWritten(u + ['#'] + t, t, false, t);
  }

  lemma NoMarkInDirectoryHead(h6: string, dir: string)
    requires '#' !in h6 && '#' !in dir
    ensures '#' !in "DIR" + [' '] + (h6 + [' '] + dir)
  {
  }

  lemma StripAtMark(u: string, v: string)
    requires '#' !in u
    ensures RemoveFileSize(u + ['#'] + v) == v
  {
    IndexOfSplit(u, '#', v);
    assert (u + ['#'] + v)[|u| + 1..] == v;
  }

  /** `PlanEntry` with `RemoveFileSize`, in terms of the stripped member. */
  lemma PlanEntryAsWritten(m: string, h: string, isDir: bool, mpath: string)
    requires RemoveFileSize(m) == h && |h| >= 3
    requires StartsWithIgnoringCase(h, "DIR") == isDir && AfterFirst(AfterFirst(h, ' '), ' ') == mpath
    ensures PlanEntry(m, RemoveFileSize) == Ok((isDir, mpath))
  {
  }
}
