/** The scan of `DumpToFileSorted` in the newer `DeltaHash`: over the sorted
    dump lines it finds runs of adjacent lines whose hex prefixes agree, skips
    a run's first line while it names a small file, and turns the rest of the
    run into one `DeltaDuplicateSet` labelled after that line. Every line the
    inner `while` visits goes through `GetParentPath`, which throws on a path
    without `'\\'`. */
module DumpScan {
  import opened Base
  import opened DumpStrings
  import opened DeltaDuplicateSet

  /** What the scan asks outside the cache: `Files.size` and
      `Files.isDirectory` of a path, and `DeltaUtil.GetHumanReadableSize`. */
  datatype Env = Env(size: string -> nat, isDirectory: string -> bool, humanReadable: nat -> string)

  /** Every line is long enough for `GetHash` and `GetPaths`, as every line
      `hex:key` of a 32-byte digest is. */
  predicate WellFormed(lines: seq<string>) {
    forall j :: 0 <= j < |lines| ==> |lines[j]| >= HASH_LENGTH + 1
  }

  /** A dump line as the scan reads it: `GetHash` and `GetPaths` of it. */
  datatype Line = Line(hash: string, path: string)

  function Read(line: string): (l: Line)
    requires |line| >= HASH_LENGTH + 1
    ensures |l.hash| == HASH_LENGTH
  {
    Line(GetHash(line).value, GetPaths(line).value)
  }

  function Parse(lines: seq<string>): (ls: seq<Line>)
    requires WellFormed(lines)
    ensures |ls| == |lines| && Hashed(ls)
  {
    if |lines| == 0 then [] else Parse(lines[..|lines| - 1]) + [Read(lines[|lines| - 1])]
  }

  lemma {:induction false} ParseAt(lines: seq<string>, k: nat)
    requires WellFormed(lines) && k < |lines|
    ensures Parse(lines)[k] == Read(lines[k])
    decreases |lines|
  {
    if k < |lines| - 1 {
      ParseAt(lines[..|lines| - 1], k);
    }
  }

  /** `GetHash` and `GetPaths` of every line, in order. */
  method ParseLines(lines: seq<string>) returns (ls: seq<Line>)
    requires WellFormed(lines)
    ensures ls == Parse(lines)
  {
    ls := [];
    for k := 0 to |lines|
      invariant ls == Parse(lines[..k])
    {
      assert lines[..k + 1][..k] == lines[..k];
      ls := ls + [Line(GetHash(lines[k]).value, GetPaths(lines[k]).value)];
    }
    assert lines[..|lines|] == lines;
  }

  /** Every hash has the 64 characters `GetHash` cuts. */
  predicate Hashed(ls: seq<Line>) {
    forall j :: 0 <= j < |ls| ==> |ls[j].hash| == HASH_LENGTH
  }

  /** `file_size < min_size && !isDir` */
  predicate Skipped(path: string, minSize: int, env: Env) {
    env.size(path) < minSize && !env.isDirectory(path)
  }

  /** `file_size_string` of the entry at `path`, followed by `" "` and the first six hex digits. */
  function Label(path: string, hash: string, env: Env): Result<string>
    requires |hash| >= 6
  {
    var size := env.size(path);
    match SizeField(size, env.isDirectory(path), env.humanReadable(size))
    case Err(e) => Err(e)
    case Ok(field) => Ok(field + " " + hash[..6])
  }

  /** Where the inner `while` stops when it starts at `i`: the first index
      after `i - 1` whose line's hash differs from its predecessor's, or the end. */
  function RunEnd(ls: seq<Line>, i: nat): (e: nat)
    requires 1 <= i <= |ls|
    ensures i <= e <= |ls|
    ensures e == |ls| || ls[e].hash != ls[e - 1].hash
    decreases |ls| - i
  {
    if i == |ls| || ls[i].hash != ls[i - 1].hash then i else RunEnd(ls, i + 1)
  }

  /** Every line the run takes has the hash of the line before `i`. */
  lemma {:induction false} RunEndHashes(ls: seq<Line>, i: nat, j: nat)
    requires 1 <= i <= |ls| && i <= j < RunEnd(ls, i)
    ensures ls[j].hash == ls[i - 1].hash && ls[j].hash == ls[j - 1].hash
    decreases |ls| - i
  {
    if i < j {
      RunEndHashes(ls, i + 1, j);
    }
  }

  /** The members `prefix + " " + path` of the lines `a` to `e - 1`. */
  function Members(ls: seq<Line>, prefix: string, a: nat, e: nat): (r: seq<string>)
    requires a <= e <= |ls|
    ensures |r| == e - a
    decreases e - a
  {
    if e == a then [] else Members(ls, prefix, a, e - 1) + [prefix + " " + ls[e - 1].path]
  }

  /** The member at position `j` stems from the line `a + j`. */
  lemma {:induction false} MembersAt(ls: seq<Line>, prefix: string, a: nat, e: nat, j: nat)
    requires a <= e <= |ls| && j < e - a
    ensures Members(ls, prefix, a, e)[j] == prefix + " " + ls[a + j].path
    decreases e - a
  {
    if j < e - a - 1 {
      MembersAt(ls, prefix, a, e - 1, j);
    }
  }

  lemma MembersStep(ls: seq<Line>, prefix: string, a: nat, e: nat)
    requires a < e <= |ls|
    ensures Members(ls, prefix, a, e) == Members(ls, prefix, a, e - 1) + [prefix + " " + ls[e - 1].path]
  {
  }

  /** The lines `a` to `e - 1` all have a path that `GetParentPath` can cut. */
  predicate ParentsFound(ls: seq<Line>, a: nat, e: nat)
    requires a <= e <= |ls|
  {
    forall j :: a <= j < e ==> GetParentPath(ls[j].path).Ok?
  }

  lemma ParentsFoundStep(ls: seq<Line>, a: nat, e: nat)
    requires a <= e < |ls|
    ensures ParentsFound(ls, a, e + 1) <==> ParentsFound(ls, a, e) && GetParentPath(ls[e].path).Ok?
  {
  }

  /** One set the scan builds: the lines `anchor` to `end - 1`, the set's
      label and its members. */
  datatype Cluster = Cluster(anchor: nat, end: nat, title: string, members: seq<string>)

  /** One pass of the `for` loop at index `i`: the set it starts, if any, and
      the index the loop goes on with. */
  function Step(ls: seq<Line>, i: nat, minSize: int, env: Env): (r: Result<(seq<Cluster>, nat)>)
    requires Hashed(ls) && 1 <= i < |ls|
    ensures r.Ok? ==> i < r.value.1 <= |ls| + 1
  {
    if ls[i].hash != ls[i - 1].hash || Skipped(ls[i - 1].path, minSize, env) then Ok(([], i + 1))
    else
      var hash := ls[i].hash;
      match Label(ls[i - 1].path, hash, env)
      case Err(e) => Err(e)
      case Ok(prefix) =>
        var e := RunEnd(ls, i);
        if !ParentsFound(ls, i - 1, e - 1) then Err(StringIndexOutOfBounds)
        else Ok(([Cluster(i - 1, e, prefix + " " + hash, Members(ls, prefix, i - 1, e))], e + 1))
  }

  function PrependClusters(acc: seq<Cluster>, r: Result<seq<Cluster>>): Result<seq<Cluster>> {
    match r
    case Err(e) => Err(e)
    case Ok(cs) => Ok(acc + cs)
  }

  /** The `for` loop of the scan from index `i` on. */
  function ScanFrom(ls: seq<Line>, i: nat, minSize: int, env: Env): Result<seq<Cluster>>
    requires Hashed(ls) && 1 <= i <= |ls| + 1
    decreases |ls| + 1 - i
  {
    if i >= |ls| then Ok([])
    else
      match Step(ls, i, minSize, env)
      case Err(e) => Err(e)
      case Ok((cs, next)) => PrependClusters(cs, ScanFrom(ls, next, minSize, env))
  }

  /** The whole scan. */
  function Scan(lines: seq<string>, minSize: int, env: Env): Result<seq<Cluster>>
    requires WellFormed(lines)
  {
    ScanFrom(Parse(lines), 1, minSize, env)
  }

  lemma PrependClustersAssoc(acc: seq<Cluster>, cs: seq<Cluster>, r: Result<seq<Cluster>>)
    ensures PrependClusters(acc, PrependClusters(cs, r)) == PrependClusters(acc + cs, r)
  {
    if r.Ok? {
      assert acc + (cs + r.value) == (acc + cs) + r.value;
    }
  }

  lemma PrependClustersNothing(r: Result<seq<Cluster>>)
    ensures PrependClusters([], r) == r
  {
    if r.Ok? {
      assert [] + r.value == r.value;
    }
  }

  /** The set objects carry the labels and members of the clusters. */
  ghost predicate Holds(sets: seq<DuplicateSet>, clusters: seq<Cluster>)
    reads sets
  {
    |sets| == |clusters| &&
    forall j :: 0 <= j < |sets| ==> sets[j].hash == clusters[j].title && sets[j].fileHashes == clusters[j].members
  }

  /** The inner `while` of the scan together with the `addHash` after it: a
      new set labelled `prefix + " " + hash` that takes the line before `i`
      and every following line of the run, or `StringIndexOutOfBounds` from
      `GetParentPath` at the first line the `while` visits whose path has no
      `'\\'` (the last line of the run is added after the `while` and is not
      visited). */
  method CollectRun(ls: seq<Line>, i: nat, prefix: string, hash: string) returns (r: Result<DuplicateSet>, next: nat)
    requires 1 <= i < |ls|
    ensures r.Ok? <==> ParentsFound(ls, i - 1, RunEnd(ls, i) - 1)
    ensures r.Err? ==> r.error == StringIndexOutOfBounds
    ensures r.Ok? ==> next == RunEnd(ls, i) && fresh(r.value) && r.value.hash == prefix + " " + hash
    ensures r.Ok? ==> r.value.fileHashes == Members(ls, prefix, i - 1, next)
  {
    var dds := new DuplicateSet(prefix + " " + hash);
    next := i;
    while next < |ls| && ls[next].hash == ls[next - 1].hash
      invariant i <= next <= RunEnd(ls, i)
      invariant RunEnd(ls, next) == RunEnd(ls, i)
      invariant ParentsFound(ls, i - 1, next - 1)
      invariant dds.hash == prefix + " " + hash
      invariant dds.fileHashes == Members(ls, prefix, i - 1, next - 1)
      decreases |ls| - next
    {
      dds.AddHash(prefix + " " + ls[next - 1].path);
      var parent := GetParentPath(ls[next - 1].path);
      ParentsFoundStep(ls, i - 1, next - 1);
      if parent.Err? {
        assert next < RunEnd(ls, next);
        return Err(parent.error), next;
      }
      next := next + 1;
    }
    dds.AddHash(prefix + " " + ls[next - 1].path);
    r := Ok(dds);
  }

  /** `file_size_string` as the scan computes it, with the first six hex digits appended. */
  method FileSizeString(path: string, hash: string, env: Env) returns (r: Result<string>)
    requires |hash| >= 6
    ensures r == Label(path, hash, env)
  {
    var fileSize := env.size(path);
    var fileSizeString := "DIR";
    if !env.isDirectory(path) {
      var padded := PadLeftZeros(Decimal(fileSize), SIZE_WIDTH);
      if padded.Err? {
        return Err(padded.error);
      }
      fileSizeString := padded.value + "#" + env.humanReadable(fileSize);
    }
    r := Ok(fileSizeString + " " + hash[..6]);
  }

  /** The body of the `for` loop at index `i`: the new sets (none or one) and
      the index after the `i++`. */
  method ScanStep(ls: seq<Line>, i: nat, minSize: int, env: Env) returns (r: Result<seq<DuplicateSet>>, next: nat)
    requires Hashed(ls) && 1 <= i < |ls|
    ensures r.Ok? <==> Step(ls, i, minSize, env).Ok?
    ensures r.Err? ==> r.error == Step(ls, i, minSize, env).error
    ensures r.Ok? ==> next == Step(ls, i, minSize, env).value.1
    ensures r.Ok? ==> (forall j :: 0 <= j < |r.value| ==> fresh(r.value[j])) && Holds(r.value, Step(ls, i, minSize, env).value.0)
  {
    var hash := ls[i].hash;
    var path := ls[i - 1].path;
    if hash != ls[i - 1].hash || (env.size(path) < minSize && !env.isDirectory(path)) {
      return Ok([]), i + 1;
    }
    var sizeString := FileSizeString(path, hash, env);
    if sizeString.Err? {
      return Err(sizeString.error), 0;
    }
    var dds, e := CollectRun(ls, i, sizeString.value, hash);
    if dds.Err? {
      return Err(dds.error), 0;
    }
    return Ok([dds.value]), e + 1;
  }

  /** Appending the sets of one step keeps the earlier sets as they were. */
  lemma HoldsAppend(sets: seq<DuplicateSet>, acc: seq<Cluster>, more: seq<DuplicateSet>, cs: seq<Cluster>)
    requires Holds(sets, acc) && Holds(more, cs)
    ensures Holds(sets + more, acc + cs)
  {
  }

  /** The scan: for each adjacent pair with equal hashes whose first line is
      not a small file, a new `DeltaDuplicateSet` that takes every line of
      the run from there on. */
  method ScanDuplicates(lines: seq<string>, minSize: int, env: Env) returns (r: Result<seq<DuplicateSet>>)
    requires WellFormed(lines)
    ensures r.Ok? <==> Scan(lines, minSize, env).Ok?
    ensures r.Err? ==> r.error == Scan(lines, minSize, env).error
    ensures r.Ok? ==> Holds(r.value, Scan(lines, minSize, env).value)
  {
    var ls := ParseLines(lines);
    r := ScanParsed(ls, minSize, env);
  }

  /** The `for` loop of the scan over the parsed lines. */
  method ScanParsed(ls: seq<Line>, minSize: int, env: Env) returns (r: Result<seq<DuplicateSet>>)
    requires Hashed(ls)
    ensures r.Ok? <==> ScanFrom(ls, 1, minSize, env).Ok?
    ensures r.Err? ==> r.error == ScanFrom(ls, 1, minSize, env).error
    ensures r.Ok? ==> Holds(r.value, ScanFrom(ls, 1, minSize, env).value)
  {
    var sets: seq<DuplicateSet> := [];
    ghost var acc: seq<Cluster> := [];
    var i := 1;
    PrependClustersNothing(ScanFrom(ls, 1, minSize, env));
    while i < |ls|
      invariant 1 <= i <= |ls| + 1
      invariant Holds(sets, acc)
      invariant ScanFrom(ls, 1, minSize, env) == PrependClusters(acc, ScanFrom(ls, i, minSize, env))
      decreases |ls| + 1 - i
    {
      var found, next := ScanStep(ls, i, minSize, env);
      if found.Err? {
        return Err(found.error);
      }
      ghost var cs := Step(ls, i, minSize, env).value.0;
      PrependClustersAssoc(acc, cs, ScanFrom(ls, next, minSize, env));
      HoldsAppend(sets, acc, found.value, cs);
      sets := sets + found.value;
      acc := acc + cs;
      i := next;
    }
    assert acc + [] == acc;
    r := Ok(sets);
  }

  /** What every set of the scan satisfies: at least two lines, all with the
      anchor's hash and no next line with it; the anchor is no small file and
      any earlier line of its run was one; every line but the last has a
      parent path; label and members as the scan builds them from the anchor. */
  predicate ClusterOK(ls: seq<Line>, c: Cluster, minSize: int, env: Env)
    requires Hashed(ls)
  {
    c.anchor + 2 <= c.end <= |ls| &&
    (forall j :: c.anchor <= j < c.end ==> ls[j].hash == ls[c.anchor].hash) &&
    (c.end == |ls| || ls[c.end].hash != ls[c.end - 1].hash) &&
    !Skipped(ls[c.anchor].path, minSize, env) &&
    ParentsFound(ls, c.anchor, c.end - 1) &&
    (0 < c.anchor && ls[c.anchor - 1].hash == ls[c.anchor].hash ==> Skipped(ls[c.anchor - 1].path, minSize, env)) &&
    Label(ls[c.anchor].path, ls[c.anchor].hash, env).Ok? &&
    c.title == Label(ls[c.anchor].path, ls[c.anchor].hash, env).value + " " + ls[c.anchor].hash &&
    c.members == Members(ls, Label(ls[c.anchor].path, ls[c.anchor].hash, env).value, c.anchor, c.end)
  }

  /** How the loop arrives at index `i`: at the start, past the end, or with
      the line before `i` not continuing a run from a line that was kept. */
  predicate Entry(ls: seq<Line>, i: nat, minSize: int, env: Env) {
    i < 2 || i > |ls| || ls[i - 1].hash != ls[i - 2].hash || Skipped(ls[i - 2].path, minSize, env)
  }

  /** The set a step at `i` starts satisfies `ClusterOK`. */
  lemma StepCluster(ls: seq<Line>, i: nat, minSize: int, env: Env, prefix: string)
    requires Hashed(ls) && 1 <= i < |ls| && Entry(ls, i, minSize, env)
    requires ls[i].hash == ls[i - 1].hash && !Skipped(ls[i - 1].path, minSize, env)
    requires Label(ls[i - 1].path, ls[i].hash, env) == Ok(prefix)
    requires ParentsFound(ls, i - 1, RunEnd(ls, i) - 1)
    ensures var e := RunEnd(ls, i);
      ClusterOK(ls, Cluster(i - 1, e, prefix + " " + ls[i].hash, Members(ls, prefix, i - 1, e)), minSize, env)
  {
    var e := RunEnd(ls, i);
    assert e == RunEnd(ls, i + 1);
    forall j | i - 1 <= j < e ensures ls[j].hash == ls[i - 1].hash {
      if j > i - 1 {
        RunEndHashes(ls, i, j);
      }
    }
  }

  lemma StepShape(ls: seq<Line>, i: nat, minSize: int, env: Env)
    requires Hashed(ls) && 1 <= i < |ls| && Entry(ls, i, minSize, env)
    requires Step(ls, i, minSize, env).Ok?
    ensures var (cs, next) := Step(ls, i, minSize, env).value;
      Entry(ls, next, minSize, env) && |cs| <= 1 &&
      forall j :: 0 <= j < |cs| ==> ClusterOK(ls, cs[j], minSize, env) && cs[j].anchor == i - 1 && cs[j].end + 1 == next
  {
    if ls[i].hash == ls[i - 1].hash && !Skipped(ls[i - 1].path, minSize, env) {
      var prefix := Label(ls[i - 1].path, ls[i].hash, env).value;
      var e := RunEnd(ls, i);
      StepKept(ls, i, minSize, env);
      StepCluster(ls, i, minSize, env, prefix);
      assert e == |ls| || ls[e].hash != ls[e - 1].hash;
    } else {
      assert Step(ls, i, minSize, env).value == ([], i + 1);
    }
  }

  /** A step at a kept pair of equal hashes starts one set, ending where the run ends. */
  lemma StepKept(ls: seq<Line>, i: nat, minSize: int, env: Env)
    requires Hashed(ls) && 1 <= i < |ls| && Step(ls, i, minSize, env).Ok?
    requires ls[i].hash == ls[i - 1].hash && !Skipped(ls[i - 1].path, minSize, env)
    ensures Label(ls[i - 1].path, ls[i].hash, env).Ok?
    ensures var prefix := Label(ls[i - 1].path, ls[i].hash, env).value;
      var e := RunEnd(ls, i);
      ParentsFound(ls, i - 1, e - 1) &&
      Step(ls, i, minSize, env).value == ([Cluster(i - 1, e, prefix + " " + ls[i].hash, Members(ls, prefix, i - 1, e))], e + 1)
  {
  }

  /** Each set of the scan satisfies `ClusterOK`, and the sets come in the
      order of their lines without overlapping. */
  lemma {:induction false} ScanShape(ls: seq<Line>, i: nat, minSize: int, env: Env)
    requires Hashed(ls) && 1 <= i <= |ls| + 1 && Entry(ls, i, minSize, env)
    requires ScanFrom(ls, i, minSize, env).Ok?
    ensures var cs := ScanFrom(ls, i, minSize, env).value;
      (forall j :: 0 <= j < |cs| ==> ClusterOK(ls, cs[j], minSize, env) && i - 1 <= cs[j].anchor) &&
      (forall j :: 0 <= j < |cs| - 1 ==> cs[j].end <= cs[j + 1].anchor)
    decreases |ls| + 1 - i
  {
    if i < |ls| {
      StepShape(ls, i, minSize, env);
      var (first, next) := Step(ls, i, minSize, env).value;
      ScanShape(ls, next, minSize, env);
      var rest := ScanFrom(ls, next, minSize, env).value;
      assert ScanFrom(ls, i, minSize, env).value == first + rest;
    }
  }

  /** Every adjacent pair of equal hashes after `i` whose first line is kept
      lies inside one of the sets. */
  lemma {:induction false} ScanCovers(ls: seq<Line>, i: nat, minSize: int, env: Env, t: nat)
    requires Hashed(ls) && 1 <= i <= |ls| + 1 && ScanFrom(ls, i, minSize, env).Ok?
    requires i <= t < |ls| && ls[t].hash == ls[t - 1].hash && !Skipped(ls[t - 1].path, minSize, env)
    ensures var cs := ScanFrom(ls, i, minSize, env).value;
      exists j :: 0 <= j < |cs| && cs[j].anchor < t < cs[j].end
    decreases |ls| + 1 - i
  {
    ScanFromStep(ls, i, minSize, env);
    var (first, next) := Step(ls, i, minSize, env).value;
    var cs := ScanFrom(ls, i, minSize, env).value;
    var rest := ScanFrom(ls, next, minSize, env).value;
    if t < next {
      StepCovers(ls, i, minSize, env, t);
      assert cs[0] == first[0];
    } else {
      ScanCovers(ls, next, minSize, env, t);
      var j :| 0 <= j < |rest| && rest[j].anchor < t < rest[j].end;
      assert cs[|first| + j] == rest[j];
    }
  }

  /** One unfolding of a scan that succeeds from a line inside the listing. */
  lemma ScanFromStep(ls: seq<Line>, i: nat, minSize: int, env: Env)
    requires Hashed(ls) && 1 <= i < |ls| && ScanFrom(ls, i, minSize, env).Ok?
    ensures Step(ls, i, minSize, env).Ok?
    ensures var (first, next) := Step(ls, i, minSize, env).value;
      ScanFrom(ls, next, minSize, env).Ok? &&
      ScanFrom(ls, i, minSize, env).value == first + ScanFrom(ls, next, minSize, env).value
  {
  }

  /** A pair of equal hashes in the lines one pass of the loop takes lies inside the set it starts. */
  lemma StepCovers(ls: seq<Line>, i: nat, minSize: int, env: Env, t: nat)
    requires Hashed(ls) && 1 <= i < |ls| && Step(ls, i, minSize, env).Ok?
    requires i <= t < Step(ls, i, minSize, env).value.1 && t < |ls|
    requires ls[t].hash == ls[t - 1].hash && !Skipped(ls[t - 1].path, minSize, env)
    ensures var first := Step(ls, i, minSize, env).value.0;
      |first| > 0 && first[0].anchor < t < first[0].end
  {
    if ls[i].hash == ls[i - 1].hash && !Skipped(ls[i - 1].path, minSize, env) {
      assert RunEnd(ls, i) == RunEnd(ls, i + 1);
    }
  }

  /** A run of equal hashes, maximal on both sides, whose lines before `a`
      are small files and whose line `a` is not, becomes exactly one set: the
      lines `a` to `e - 1`. */
  lemma RunTailIsOneSet(ls: seq<Line>, s: nat, a: nat, e: nat, minSize: int, env: Env)
    requires Hashed(ls) && ScanFrom(ls, 1, minSize, env).Ok?
    requires s <= a && a + 2 <= e <= |ls|
    requires s == 0 || ls[s].hash != ls[s - 1].hash
    requires forall j :: s <= j < e ==> ls[j].hash == ls[s].hash
    requires e == |ls| || ls[e].hash != ls[e - 1].hash
    requires forall j :: s <= j < a ==> Skipped(ls[j].path, minSize, env)
    requires !Skipped(ls[a].path, minSize, env)
    ensures var cs := ScanFrom(ls, 1, minSize, env).value;
      exists j :: 0 <= j < |cs| && cs[j].anchor == a && cs[j].end == e
  {
    var cs := ScanFrom(ls, 1, minSize, env).value;
    ScanCovers(ls, 1, minSize, env, a + 1);
    ScanShape(ls, 1, minSize, env);
    var j :| 0 <= j < |cs| && cs[j].anchor < a + 1 < cs[j].end;
    var c := cs[j];
    assert ClusterOK(ls, c, minSize, env);
    assert c.anchor >= s;
    assert c.anchor == a;
    assert c.end == e;
  }

  /** Two identical files whose paths hold no `'\\'`, such as `/a/f` and
      `/b/f`: the scan throws in `GetParentPath` at the first set. */
  lemma SlashPathsFail(h: string, minSize: int, env: Env)
    requires |h| == HASH_LENGTH
    requires !Skipped("/a/f", minSize, env) && Label("/a/f", h, env).Ok?
    ensures ScanFrom([Line(h, "/a/f"), Line(h, "/b/f")], 1, minSize, env) == Err(StringIndexOutOfBounds)
  {
    var ls := [Line(h, "/a/f"), Line(h, "/b/f")];
    assert RunEnd(ls, 1) == 2 by {
      assert RunEnd(ls, 2) == 2;
    }
    assert !GetParentPath(ls[0].path).Ok?;
  }

  /** The same two files under Windows paths `C:\\a\\f` and `C:\\b\\f`
      make one set holding both. */
  lemma BackslashPathsPair(h: string, minSize: int, env: Env)
    requires |h| == HASH_LENGTH
    requires !Skipped("C:\\a\\f", minSize, env) && Label("C:\\a\\f", h, env).Ok?
    ensures var r := ScanFrom([Line(h, "C:\\a\\f"), Line(h, "C:\\b\\f")], 1, minSize, env);
      r.Ok? && |r.value| == 1 && r.value[0].anchor == 0 && r.value[0].end == 2
  {
    var ls := [Line(h, "C:\\a\\f"), Line(h, "C:\\b\\f")];
    assert RunEnd(ls, 1) == 2 by {
      assert RunEnd(ls, 2) == 2;
    }
    assert ls[0].path[2] == '\\';
    assert GetParentPath(ls[0].path).Ok?;
  }
}
