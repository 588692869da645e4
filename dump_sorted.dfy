/** `DumpToFileSorted` of the newer `DeltaHash` as returned data: the sorted
    dump lines, the duplicate sets in the order `Collections.sort` leaves
    them, and for each set the removal plan its AutoDelete commands carry out. */
module DumpSorted {
  import opened Base
  import opened Delta
  import opened DeltaHash
  import opened DeltaDuplicateSet
  import opened DumpStrings
  import opened DumpScan
  import opened StableSort

  predicate Distinct<T(==)>(s: seq<T>) {
    forall i, j :: 0 <= i < j < |s| ==> s[i] != s[j]
  }

  /** `FilesHashed.keySet()` in the order the map yields it: every key once. */
  ghost predicate IsKeyOrder(cache: Cache, order: seq<string>) {
    (forall k :: k in cache <==> k in order) && Distinct(order)
  }

  /** The lines `ByteToHexString(hash) + ":" + key`, in the order of `order`. */
  function KeyLines(cache: Cache, order: seq<string>): (r: seq<string>)
    requires forall k :: k in order ==> k in cache
    ensures |r| == |order|
  {
    if |order| == 0 then []
    else
      var key := order[|order| - 1];
      KeyLines(cache, order[..|order| - 1]) + [DumpLine(cache[key], key)]
  }

  lemma {:induction false} KeyLinesAt(cache: Cache, order: seq<string>, m: nat)
    requires (forall k :: k in order ==> k in cache) && m < |order|
    ensures KeyLines(cache, order)[m] == DumpLine(cache[order[m]], order[m])
    decreases |order|
  {
    if m < |order| - 1 {
      assert order[..|order| - 1][m] == order[m];
      KeyLinesAt(cache, order[..|order| - 1], m);
    }
  }

  /** `String.compareTo` orders the lines themselves. */
  function Id(s: string): string {
    s
  }

  /** `Collections.sort(hashes)`. */
  function Lines(cache: Cache, order: seq<string>): (r: seq<string>)
    requires forall k :: k in order ==> k in cache
  {
    SortBy(KeyLines(cache, order), Id)
  }

  /** Every sorted line is the line of one key. */
  lemma LineOfKey(cache: Cache, order: seq<string>, j: nat) returns (m: nat)
    requires (forall k :: k in order ==> k in cache) && j < |Lines(cache, order)|
    ensures m < |order| && Lines(cache, order)[j] == DumpLine(cache[order[m]], order[m])
  {
    var lines := Lines(cache, order);
    assert lines[j] in multiset(KeyLines(cache, order));
    m :| 0 <= m < |order| && KeyLines(cache, order)[m] == lines[j];
    KeyLinesAt(cache, order, m);
  }

  lemma LinesWellFormed(cache: Cache, order: seq<string>)
    requires ValidCache(cache) && forall k :: k in order ==> k in cache
    ensures WellFormed(Lines(cache, order))
  {
    var lines := Lines(cache, order);
    forall j | 0 <= j < |lines| ensures |lines[j]| >= HASH_LENGTH + 1 {
      var m := LineOfKey(cache, order, j);
      DumpLineSplit(cache[order[m]], order[m]);
    }
  }

  /** What the plan keeps of a `DeltaDuplicateSet`: its label and members. */
  datatype SetView = SetView(title: string, members: seq<string>)

  function Views(cs: seq<Cluster>): (r: seq<SetView>)
    ensures |r| == |cs|
    ensures forall j :: 0 <= j < |cs| ==> r[j] == SetView(cs[j].title, cs[j].members)
  {
    seq(|cs|, j requires 0 <= j < |cs| => SetView(cs[j].title, cs[j].members))
  }

  /** `DeltaDuplicateSet.compareTo` orders the sets by label. */
  function TitleOf(v: SetView): string {
    v.title
  }

  /** What one set's lines of AutoDelete.bat do: keep `original`, remove each
      of `removable` (with `RMDIR` for a directory, `DEL` otherwise). */
  datatype Removal = Removal(isDir: bool, original: string, removable: seq<string>)

  /** One member as the plan loop reads it: the size field removed by
      `strip`, whether it names a directory, and its path after two spaces. */
  function PlanEntry(member: string, strip: string -> string): Result<(bool, string)> {
    var h := strip(member);
    if FewerThanThreeUnits(h) then Err(StringIndexOutOfBounds)
    else Ok((StartsWithIgnoringCase(h, "DIR"), AfterFirst(AfterFirst(h, ' '), ' ')))
  }

  /** `h.substring(0, 3)` throws for fewer than three UTF-16 units, and the
      `"DIR"` test on the characters is `equalsIgnoreCase` on those units. */
  lemma PlanEntryOnUnits(member: string, strip: string -> string)
    ensures PlanEntry(member, strip).Ok? <==> |Utf16(strip(member))| >= 3
    ensures PlanEntry(member, strip).Err? ==> PlanEntry(member, strip).error == StringIndexOutOfBounds
    ensures PlanEntry(member, strip).Ok? ==>
      PlanEntry(member, strip).value.0 == UnitsStartWithIgnoringCase(Utf16(strip(member)), "DIR")
  {
    FewerThanThreeUnitsIff(strip(member));
    if |Utf16(strip(member))| >= 3 {
      UnitsMatchChars(strip(member), "DIR");
    }
  }

  /** The loop over the members: `isDir` of the last member and the paths in order. */
  function PlanPaths(members: seq<string>, strip: string -> string): (r: Result<(bool, seq<string>)>)
    ensures r.Ok? ==> |r.value.1| == |members|
  {
    if |members| == 0 then Ok((false, []))
    else
      match PlanPaths(members[..|members| - 1], strip)
      case Err(e) => Err(e)
      case Ok((_, paths)) =>
        match PlanEntry(members[|members| - 1], strip)
        case Err(e) => Err(e)
        case Ok((isDir, path)) => Ok((isDir, paths + [path]))
  }

  /** A failing member fails the whole loop. */
  lemma {:induction false} PlanPathsPrefixFails(members: seq<string>, k: nat, strip: string -> string)
    requires 0 < k <= |members| && PlanPaths(members[..k], strip).Err?
    ensures PlanPaths(members, strip) == PlanPaths(members[..k], strip)
    decreases |members| - k
  {
    if k < |members| {
      assert members[..k + 1][..k] == members[..k];
      PlanPathsPrefixFails(members, k + 1, strip);
    } else {
      assert members[..k] == members;
    }
  }

  /** The plan of one set: none for fewer than two members, otherwise the
      first path is the original and the others are removed. */
  function PlanWith(members: seq<string>, strip: string -> string): Result<Option<Removal>> {
    if |members| <= 1 then Ok(None)
    else
      match PlanPaths(members, strip)
      case Err(e) => Err(e)
      case Ok((isDir, paths)) => Ok(Some(Removal(isDir, paths[0], paths[1..])))
  }

  /** The plan with the size field removed only where the member carries one. */
  function Plan(members: seq<string>): Result<Option<Removal>> {
    PlanWith(members, RemoveSizeField)
  }

  /** The plan as the source writes it, with `RemoveFileSize`. */
  function PlanAsWritten(members: seq<string>): Result<Option<Removal>> {
    PlanWith(members, RemoveFileSize)
  }

  /** The plans of the sets in order; sets without a plan are passed over. */
  function Plans(sets: seq<SetView>): Result<seq<Removal>> {
    if |sets| == 0 then Ok([])
    else
      match Plans(sets[..|sets| - 1])
      case Err(e) => Err(e)
      case Ok(done) =>
        match Plan(sets[|sets| - 1].members)
        case Err(e) => Err(e)
        case Ok(None) => Ok(done)
        case Ok(Some(p)) => Ok(done + [p])
  }

  lemma {:induction false} PlansPrefixFails(sets: seq<SetView>, k: nat)
    requires 0 < k <= |sets| && Plans(sets[..k]).Err?
    ensures Plans(sets) == Plans(sets[..k])
    decreases |sets| - k
  {
    if k < |sets| {
      assert sets[..k + 1][..k] == sets[..k];
      PlansPrefixFails(sets, k + 1);
    } else {
      assert sets[..k] == sets;
    }
  }

  /** What `DumpToFileSorted` produces: the dump file's lines, the sorted
      duplicate sets and their removal plans. */
  datatype Dump = Dump(lines: seq<string>, sets: seq<SetView>, plans: seq<Removal>)

  function DumpSpec(cache: Cache, order: seq<string>, minSize: int, env: Env): Result<Dump>
    requires ValidCache(cache) && IsKeyOrder(cache, order)
  {
    var lines := Lines(cache, order);
    LinesWellFormed(cache, order);
    match Scan(lines, minSize, env)
    case Err(e) => Err(e)
    case Ok(cs) =>
      var sets := SortBy(Views(cs), TitleOf);
      match Plans(sets)
      case Err(e) => Err(e)
      case Ok(plans) => Ok(Dump(lines, sets, plans))
  }

  lemma PlanPathsStep(members: seq<string>, k: nat, strip: string -> string)
    requires k < |members| && PlanPaths(members[..k], strip).Ok?
    ensures members[..k + 1][..k] == members[..k]
    ensures PlanPaths(members[..k + 1], strip) ==
      match PlanEntry(members[k], strip)
      case Err(e) => Err(e)
      case Ok((isDir, path)) => Ok((isDir, PlanPaths(members[..k], strip).value.1 + [path]))
  {
    assert members[..k + 1][..k] == members[..k];
  }

  /** The body of the member loop: `RemoveFileSize` (here the corrected
      `RemoveSizeField`), the `"DIR"` test and the two cuts at a space. */
  method ReadMember(member: string) returns (r: Result<(bool, string)>)
    ensures r == PlanEntry(member, RemoveSizeField)
  {
    var h := RemoveSizeField(member);
    if FewerThanThreeUnits(h) {
      return Err(StringIndexOutOfBounds);
    }
    var isDir := StartsWithIgnoringCase(h, "DIR");
    h := AfterFirst(h, ' ');
    h := AfterFirst(h, ' ');
    r := Ok((isDir, h));
  }

  /** The plan loop over the members of one set. */
  method ReadMembers(members: seq<string>) returns (r: Result<(bool, seq<string>)>)
    ensures r == PlanPaths(members, RemoveSizeField)
  {
    var isDir := false;
    var pathDelBat: seq<string> := [];
    for k := 0 to |members|
      invariant PlanPaths(members[..k], RemoveSizeField) == Ok((isDir, pathDelBat))
    {
      PlanPathsStep(members, k, RemoveSizeField);
      var entry := ReadMember(members[k]);
      if entry.Err? {
        PlanPathsPrefixFails(members, k + 1, RemoveSizeField);
        return Err(entry.error);
      }
      isDir := entry.value.0;
      pathDelBat := pathDelBat + [entry.value.1];
    }
    assert members[..|members|] == members;
    r := Ok((isDir, pathDelBat));
  }

  /** The plan of one set: the first path is kept, the others are removed. */
  method RemovalPlan(members: seq<string>) returns (r: Result<Option<Removal>>)
    ensures r == Plan(members)
  {
    if |members| <= 1 {
      return Ok(None);
    }
    var read := ReadMembers(members);
    if read.Err? {
      return Err(read.error);
    }
    var (isDir, pathDelBat) := read.value;
    var org := pathDelBat[0];
    r := Ok(Some(Removal(isDir, org, pathDelBat[1..])));
  }

  /** The first loop: one line `hex:key` per key, in key order. */
  method KeyLinesOf(cache: Cache, order: seq<string>) returns (hashes: seq<string>)
    requires forall k :: k in order ==> k in cache
    ensures hashes == KeyLines(cache, order)
  {
    hashes := [];
    for k := 0 to |order|
      invariant hashes == KeyLines(cache, order[..k])
    {
      assert order[..k + 1][..k] == order[..k];
      var key := order[k];
      var hexHash := ByteToHexString(cache[key]);
      hashes := hashes + [hexHash + ":" + key];
    }
    assert order[..|order|] == order;
  }

  /** Label and members of each set object, in order. */
  method ViewsOf(sets: seq<DuplicateSet>, ghost cs: seq<Cluster>) returns (views: seq<SetView>)
    requires Holds(sets, cs)
    ensures views == Views(cs)
  {
    views := [];
    for j := 0 to |sets|
      invariant views == Views(cs[..j])
    {
      views := views + [SetView(sets[j].GetHash(), sets[j].GetFileHashes())];
    }
    assert cs[..|sets|] == cs;
  }

  lemma PlansStep(sets: seq<SetView>, j: nat)
    requires j < |sets| && Plans(sets[..j]).Ok?
    ensures sets[..j + 1][..j] == sets[..j]
    ensures Plans(sets[..j + 1]) ==
      match Plan(sets[j].members)
      case Err(e) => Err(e)
      case Ok(None) => Plans(sets[..j])
      case Ok(Some(p)) => Ok(Plans(sets[..j]).value + [p])
  {
    assert sets[..j + 1][..j] == sets[..j];
  }

  /** The plan loop over the sorted sets. */
  method PlansOf(views: seq<SetView>) returns (r: Result<seq<Removal>>)
    ensures r == Plans(views)
  {
    var plans: seq<Removal> := [];
    for j := 0 to |views|
      invariant Plans(views[..j]) == Ok(plans)
    {
      PlansStep(views, j);
      var p := RemovalPlan(views[j].members);
      if p.Err? {
        PlansPrefixFails(views, j + 1);
        return Err(p.error);
      }
      if p.value.Some? {
        plans := plans + [p.value.value];
      }
    }
    assert views[..|views|] == views;
    r := Ok(plans);
  }

  /** `DumpToFileSorted`: the lines of every cache entry sorted, the scan, the
      sets sorted by label, and the plan of each set. */
  method DumpToFileSorted(engine: DeltaHash, order: seq<string>, minSize: int, env: Env) returns (r: Result<Dump>)
    requires ValidCache(engine.filesHashed) && IsKeyOrder(engine.filesHashed, order)
    ensures r == DumpSpec(engine.filesHashed, order, minSize, env)
  {
    var hashes := KeyLinesOf(engine.filesHashed, order);
    hashes := SortBy(hashes, Id);
    LinesWellFormed(engine.filesHashed, order);
    var found := ScanDuplicates(hashes, minSize, env);
    if found.Err? {
      return Err(found.error);
    }
    var views := ViewsOf(found.value, Scan(hashes, minSize, env).value);
    views := SortBy(views, TitleOf);
    var plans := PlansOf(views);
    if plans.Err? {
      return Err(plans.error);
    }
    r := Ok(Dump(hashes, views, plans.value));
  }
}
