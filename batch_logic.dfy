/**
 * The selection rules of the batch export tool
 * (`tools/DopplerBatchTool/logic.py`): which `.holo`/`.cine` files a list
 * of identifiers selects, the latest HD folder of each selected file, the
 * latest EF folder of each HD folder, and the identifier an EF folder's
 * results are exported under.
 *
 * Paths the tool returns are absolute path strings (`PathString`); the
 * paths it is given are the component paths those strings name.
 */
module BatchLogic {
  import opened Wrappers
  import opened Text
  import opened OrderedDicts
  import opened FileSystem
  import opened PathParser
  import opened DataGetter
  import opened Sorting

  // ---------------------------------------------------------------------------
  // Concatenating per-item lists
  // ---------------------------------------------------------------------------

  /** The first `k` parts joined end to end, as a loop that extends one list with each part builds it. */
  function ConcatUpTo(parts: seq<seq<string>>, k: nat): seq<string>
    requires k <= |parts|
  {
    if k == 0 then [] else ConcatUpTo(parts, k - 1) + parts[k - 1]
  }

  /** A string is in the concatenation iff it is in one of the parts. */
  lemma {:induction false} ConcatUpToIn(parts: seq<seq<string>>, k: nat, s: string)
    requires k <= |parts|
    ensures s in ConcatUpTo(parts, k) <==> exists j :: 0 <= j < k && s in parts[j]
  {
    if k > 0 {
      ConcatUpToIn(parts, k - 1, s);
      assert ConcatUpTo(parts, k) == ConcatUpTo(parts, k - 1) + parts[k - 1];
    }
  }

  /** `f` applied to each item. */
  function MapSeq<T>(f: T -> seq<string>, xs: seq<T>): (r: seq<seq<string>>)
    ensures |r| == |xs| && forall j :: 0 <= j < |xs| ==> r[j] == f(xs[j])
  {
    seq(|xs|, j requires 0 <= j < |xs| => f(xs[j]))
  }

  /** A string is in the concatenated results iff some item's result holds it. */
  lemma ConcatMapIn<T>(f: T -> seq<string>, xs: seq<T>, s: string)
    ensures s in ConcatUpTo(MapSeq(f, xs), |xs|) <==> exists x :: x in xs && s in f(x)
  {
    var parts := MapSeq(f, xs);
    ConcatUpToIn(parts, |xs|, s);
    if exists x :: x in xs && s in f(x) {
      var x :| x in xs && s in f(x);
      var j :| 0 <= j < |xs| && xs[j] == x;
      assert s in parts[j];
    }
  }

  /** The concatenation is empty iff every part is. */
  lemma {:induction false} ConcatUpToEmpty(parts: seq<seq<string>>, k: nat)
    requires k <= |parts|
    ensures ConcatUpTo(parts, k) == [] <==> forall j :: 0 <= j < k ==> parts[j] == []
  {
    if k > 0 {
      ConcatUpToEmpty(parts, k - 1);
      assert ConcatUpTo(parts, k) == ConcatUpTo(parts, k - 1) + parts[k - 1];
    }
  }

  // ---------------------------------------------------------------------------
  // find_holo_cine_files
  // ---------------------------------------------------------------------------

  /** The names among the first `k` entries of `root` that `os.path.isdir` accepts. */
  function DirNames(fs: Node, root: Path, entries: seq<Node>, k: nat): seq<string>
    requires k <= |entries|
  {
    if k == 0 then []
    else
      var e := entries[k - 1];
      DirNames(fs, root, entries, k - 1) + (if IsDir(fs, root + [e.name]) then [e.name] else [])
  }

  /** A name is listed iff it names one of the first `k` entries and is a directory. */
  lemma {:induction false} DirNamesIn(fs: Node, root: Path, entries: seq<Node>, k: nat, d: string)
    requires k <= |entries|
    ensures d in DirNames(fs, root, entries, k) <==>
      exists j :: 0 <= j < k && entries[j].name == d && IsDir(fs, root + [d])
  {
    if k > 0 {
      DirNamesIn(fs, root, entries, k - 1, d);
      var e := entries[k - 1];
      if IsDir(fs, root + [e.name]) {
        assert DirNames(fs, root, entries, k) == DirNames(fs, root, entries, k - 1) + [e.name];
      } else {
        assert DirNames(fs, root, entries, k) == DirNames(fs, root, entries, k - 1);
      }
    }
  }

  /** `top_level_dirs`: the sub-directory names of the root, in listing order. */
  function TopLevelDirs(fs: Node, root: Path): seq<string> {
    DirNames(fs, root, ListDir(fs, root), |ListDir(fs, root)|)
  }

  /** `identifier.split('_')[0]`: the text before the first `_`. */
  function IdPrefix(identifier: string): (r: string)
    ensures StartsWith(identifier, r) && '_' !in r
    ensures |r| < |identifier| ==> identifier[|r|] == '_'
  {
    if |identifier| == 0 || identifier[0] == '_' then ""
    else [identifier[0]] + IdPrefix(identifier[1..])
  }

  /** It is the first piece `split('_')` gives. */
  lemma {:induction false} IdPrefixIsFirstPiece(identifier: string)
    ensures IdPrefix(identifier) == Split(identifier, '_')[0]
  {
    if |identifier| > 0 && identifier[0] != '_' {
      IdPrefixIsFirstPiece(identifier[1..]);
    }
  }

  /** `matching_top_dirs`: the names that start with `prefix`, in order. */
  function StartingWith(dirs: seq<string>, prefix: string): seq<string> {
    if |dirs| == 0 then []
    else (if StartsWith(dirs[0], prefix) then [dirs[0]] else []) + StartingWith(dirs[1..], prefix)
  }

  /** A name is kept iff it is one of the names and starts with the prefix. */
  lemma {:induction false} StartingWithIn(dirs: seq<string>, prefix: string, d: string)
    ensures d in StartingWith(dirs, prefix) <==> d in dirs && StartsWith(d, prefix)
  {
    if |dirs| > 0 {
      StartingWithIn(dirs[1..], prefix, d);
      assert dirs == [dirs[0]] + dirs[1..];
    }
  }

  /** The file name test: it starts with the whole identifier and ends in `.holo` or `.cine`. */
  predicate Wanted(name: string, identifier: string) {
    StartsWith(name, identifier) && (EndsWith(name, ".holo") || EndsWith(name, ".cine"))
  }

  /** `os.walk(p)` flattened to the files it reports, top-down; nothing when `p` is not a directory. */
  function WalkAt(fs: Node, p: Path): seq<Path> {
    if IsDir(fs, p) then WalkFiles(NodeAt(fs, p).value, p, false) else []
  }

  /** The path strings of the wanted files among the first `k` walked files. */
  function WantedIn(files: seq<Path>, identifier: string, k: nat): seq<string>
    requires k <= |files|
  {
    if k == 0 then [] else WantedIn(files, identifier, k - 1) + Pick(files, identifier, k - 1)
  }

  /** The path string of the `j`-th walked file when it is wanted, else nothing. */
  function Pick(files: seq<Path>, identifier: string, j: nat): seq<string>
    requires j < |files|
  {
    if Wanted(Basename(files[j]), identifier) then [PathString(files[j])] else []
  }

  /** The `j`-th walked file is wanted and `s` is its path string. */
  predicate PicksAt(files: seq<Path>, identifier: string, j: int, s: string) {
    0 <= j < |files| && Wanted(Basename(files[j]), identifier) && s == PathString(files[j])
  }

  /** Every collected string comes from a wanted walked file. */
  lemma {:induction false} WantedInWitness(files: seq<Path>, identifier: string, k: nat, s: string) returns (j: nat)
    requires k <= |files| && s in WantedIn(files, identifier, k)
    ensures j < k && PicksAt(files, identifier, j, s)
  {
    if s in WantedIn(files, identifier, k - 1) {
      j := WantedInWitness(files, identifier, k - 1, s);
    } else {
      j := k - 1;
    }
  }

  /** Every wanted walked file among the first `k` is collected. */
  lemma {:induction false} WantedInComplete(files: seq<Path>, identifier: string, k: nat, j: nat, s: string)
    requires k <= |files| && j < k && PicksAt(files, identifier, j, s)
    ensures s in WantedIn(files, identifier, k)
  {
    if j < k - 1 {
      WantedInComplete(files, identifier, k - 1, j, s);
    } else {
      assert s in Pick(files, identifier, j);
    }
  }

  /** A string is collected iff it is the path string of a wanted walked file. */
  lemma WantedInIff(files: seq<Path>, identifier: string, k: nat, s: string)
    requires k <= |files|
    ensures s in WantedIn(files, identifier, k) <==> exists j :: 0 <= j < k && PicksAt(files, identifier, j, s)
  {
    if s in WantedIn(files, identifier, k) {
      var j := WantedInWitness(files, identifier, k, s);
    }
    if exists j :: 0 <= j < k && PicksAt(files, identifier, j, s) {
      var j :| 0 <= j < k && PicksAt(files, identifier, j, s);
      WantedInComplete(files, identifier, k, j, s);
    }
  }

  /** What one identifier collects below one directory. */
  function WantedBelow(fs: Node, p: Path, identifier: string): seq<string> {
    var walked := WalkAt(fs, p);
    WantedIn(walked, identifier, |walked|)
  }

  /** The identifier's own test, stated on the walked files. */
  predicate CollectsBelow(fs: Node, p: Path, identifier: string, s: string) {
    exists q :: q in WalkAt(fs, p) && Wanted(Basename(q), identifier) && s == PathString(q)
  }

  lemma WantedBelowIn(fs: Node, p: Path, identifier: string, s: string)
    ensures s in WantedBelow(fs, p, identifier) <==> CollectsBelow(fs, p, identifier, s)
  {
    var walked := WalkAt(fs, p);
    WantedInIff(walked, identifier, |walked|, s);
    if CollectsBelow(fs, p, identifier, s) {
      var q :| q in walked && Wanted(Basename(q), identifier) && s == PathString(q);
      var j :| 0 <= j < |walked| && walked[j] == q;
      assert PicksAt(walked, identifier, j, s);
    }
  }

  /** What one identifier collects below a top-level directory, by name. */
  function HitsBelow(fs: Node, root: Path, identifier: string): string -> seq<string> {
    d => WantedBelow(fs, root + [d], identifier)
  }

  /** What one identifier collects below each of its matching directories, in order. */
  function DirHits(fs: Node, root: Path, dirs: seq<string>, identifier: string): (r: seq<seq<string>>)
    ensures |r| == |dirs|
  {
    MapSeq(HitsBelow(fs, root, identifier), dirs)
  }

  /** Everything one identifier collects, in the order the loops append it. */
  function FoundFor(fs: Node, root: Path, topDirs: seq<string>, identifier: string): seq<string> {
    var m := StartingWith(topDirs, IdPrefix(identifier));
    ConcatUpTo(DirHits(fs, root, m, identifier), |m|)
  }

  /** What each identifier collects. */
  function FoundLists(fs: Node, root: Path, topDirs: seq<string>, ids: seq<string>): (r: seq<seq<string>>)
    ensures |r| == |ids|
  {
    if |ids| == 0 then []
    else FoundLists(fs, root, topDirs, ids[..|ids| - 1]) + [FoundFor(fs, root, topDirs, ids[|ids| - 1])]
  }

  /** The `k`th list is what the `k`th identifier collects. */
  lemma {:induction false} FoundListsAt(fs: Node, root: Path, topDirs: seq<string>, ids: seq<string>, k: nat)
    requires k < |ids|
    ensures FoundLists(fs, root, topDirs, ids)[k] == FoundFor(fs, root, topDirs, ids[k])
  {
    if k < |ids| - 1 {
      var init := ids[..|ids| - 1];
      FoundListsAt(fs, root, topDirs, init, k);
      assert init[k] == ids[k];
    }
  }

  /**
   * The rule an identifier selects a file by: some top-level directory
   * starts with the identifier's text before its first `_`, and the file
   * is walked below it, starts with the whole identifier and ends in
   * `.holo` or `.cine`.
   */
  predicate Selects(fs: Node, root: Path, topDirs: seq<string>, identifier: string, s: string) {
    exists d :: d in topDirs && StartsWith(d, IdPrefix(identifier)) && CollectsBelow(fs, root + [d], identifier, s)
  }

  /** What one identifier collects below a list of directories is what it collects below one of them. */
  lemma ConcatHitsIn(fs: Node, root: Path, m: seq<string>, identifier: string, s: string)
    ensures s in ConcatUpTo(DirHits(fs, root, m, identifier), |m|) <==>
      exists d :: d in m && CollectsBelow(fs, root + [d], identifier, s)
  {
    var f := HitsBelow(fs, root, identifier);
    ConcatMapIn(f, m, s);
    forall d ensures s in f(d) <==> CollectsBelow(fs, root + [d], identifier, s) {
      WantedBelowIn(fs, root + [d], identifier, s);
    }
  }

  /** What one identifier collects is exactly what it selects. */
  lemma FoundForIn(fs: Node, root: Path, topDirs: seq<string>, identifier: string, s: string)
    ensures s in FoundFor(fs, root, topDirs, identifier) <==> Selects(fs, root, topDirs, identifier, s)
  {
    var prefix := IdPrefix(identifier);
    var m := StartingWith(topDirs, prefix);
    ConcatHitsIn(fs, root, m, identifier, s);
    forall d ensures d in m <==> d in topDirs && StartsWith(d, prefix) {
      StartingWithIn(topDirs, prefix, d);
    }
  }

  /** The messages passed to `error_callback`, by kind. */
  datatype SearchError = NoDirectory(prefix: string, identifier: string) | NoFiles(identifier: string)

  /** The error one identifier reports, if any. */
  function SearchErrorOf(fs: Node, root: Path, topDirs: seq<string>, identifier: string): Option<SearchError> {
    var prefix := IdPrefix(identifier);
    if |StartingWith(topDirs, prefix)| == 0 then Some(NoDirectory(prefix, identifier))
    else if FoundFor(fs, root, topDirs, identifier) == [] then Some(NoFiles(identifier))
    else None
  }

  /**
   * An identifier reports that no directory matches iff no top-level
   * directory starts with its prefix; that no file was found iff some do
   * but it selects nothing; and nothing iff it selects a file.
   */
  lemma SearchErrorOfCases(fs: Node, root: Path, topDirs: seq<string>, identifier: string)
    ensures var e := SearchErrorOf(fs, root, topDirs, identifier);
      && (e == Some(NoDirectory(IdPrefix(identifier), identifier)) <==>
            forall d :: d in topDirs ==> !StartsWith(d, IdPrefix(identifier)))
      && (e == Some(NoFiles(identifier)) <==>
            (exists d :: d in topDirs && StartsWith(d, IdPrefix(identifier))) && FoundFor(fs, root, topDirs, identifier) == [])
      && (e.None? <==> exists s :: Selects(fs, root, topDirs, identifier, s))
  {
    var prefix := IdPrefix(identifier);
    var m := StartingWith(topDirs, prefix);
    if |m| == 0 {
      forall d | d in topDirs ensures !StartsWith(d, prefix) {
        StartingWithIn(topDirs, prefix, d);
      }
    } else {
      StartingWithIn(topDirs, prefix, m[0]);
    }
    var found := FoundFor(fs, root, topDirs, identifier);
    if found != [] {
      FoundForIn(fs, root, topDirs, identifier, found[0]);
    }
    if exists s :: Selects(fs, root, topDirs, identifier, s) {
      var s :| Selects(fs, root, topDirs, identifier, s);
      FoundForIn(fs, root, topDirs, identifier, s);
    }
  }

  /** The errors among the first `k` reports, in order. */
  function Reported(reports: seq<Option<SearchError>>, k: nat): seq<SearchError>
    requires k <= |reports|
  {
    if k == 0 then []
    else Reported(reports, k - 1) + (if reports[k - 1].Some? then [reports[k - 1].value] else [])
  }

  /** The report of each identifier. */
  function Reports(fs: Node, root: Path, topDirs: seq<string>, ids: seq<string>): (r: seq<Option<SearchError>>)
    ensures |r| == |ids|
  {
    if |ids| == 0 then []
    else Reports(fs, root, topDirs, ids[..|ids| - 1]) + [SearchErrorOf(fs, root, topDirs, ids[|ids| - 1])]
  }

  /** The `k`th report is the `k`th identifier's. */
  lemma {:induction false} ReportsAt(fs: Node, root: Path, topDirs: seq<string>, ids: seq<string>, k: nat)
    requires k < |ids|
    ensures Reports(fs, root, topDirs, ids)[k] == SearchErrorOf(fs, root, topDirs, ids[k])
  {
    if k < |ids| - 1 {
      var init := ids[..|ids| - 1];
      ReportsAt(fs, root, topDirs, init, k);
      assert init[k] == ids[k];
    }
  }

  /** The arguments of `n` progress calls, one per finished item: `1, 2, ..., n`. */
  function Counting(n: nat): (r: seq<int>)
    ensures |r| == n && forall k :: 0 <= k < n ==> r[k] == k + 1
  {
    if n == 0 then [] else Counting(n - 1) + [n]
  }

  /**
   * `find_holo_cine_files(identifiers, root_folder, progress_callback,
   * error_callback)`: the collected files, each once and in order; the
   * arguments of the progress calls; the errors reported.
   */
  method FindHoloCineFiles(fs: Node, root: Path, identifiers: seq<string>)
    returns (files: seq<string>, progress: seq<int>, errors: seq<SearchError>)
    ensures files == SortUnique(ConcatUpTo(FoundLists(fs, root, TopLevelDirs(fs, root), identifiers), |identifiers|))
    ensures errors == Reported(Reports(fs, root, TopLevelDirs(fs, root), identifiers), |identifiers|)
    ensures progress == Counting(|identifiers|)
  {
    var topDirs := TopDirNames(fs, root);
    var found;
    found, progress, errors := SearchIdentifiers(fs, root, topDirs, identifiers);
    files := SortUnique(found);
  }

  /** The comprehension that lists the top-level directories. */
  method TopDirNames(fs: Node, root: Path) returns (dirs: seq<string>)
    ensures dirs == TopLevelDirs(fs, root)
  {
    var entries := ListDir(fs, root);
    dirs := [];
    var k := 0;
    while k < |entries|
      invariant k <= |entries|
      invariant dirs == DirNames(fs, root, entries, k)
    {
      if IsDir(fs, root + [entries[k].name]) {
        dirs := dirs + [entries[k].name];
      }
      k := k + 1;
    }
  }

  /** The loop over the identifiers, given the top-level directory names. */
  method SearchIdentifiers(fs: Node, root: Path, topDirs: seq<string>, identifiers: seq<string>)
    returns (found: seq<string>, progress: seq<int>, errors: seq<SearchError>)
    ensures found == ConcatUpTo(FoundLists(fs, root, topDirs, identifiers), |identifiers|)
    ensures errors == Reported(Reports(fs, root, topDirs, identifiers), |identifiers|)
    ensures progress == Counting(|identifiers|)
  {
    found, progress, errors := [], [], [];
    ghost var lists: seq<seq<string>>, reports: seq<Option<SearchError>> := [], [];
    var i: nat := 0;
    while i < |identifiers|
      invariant i <= |identifiers|
      invariant lists == FoundLists(fs, root, topDirs, identifiers[..i])
      invariant reports == Reports(fs, root, topDirs, identifiers[..i])
      invariant found == ConcatUpTo(lists, i)
      invariant errors == Reported(reports, i)
      invariant progress == Counting(i)
    {
      var hits, error := SearchIdentifier(fs, root, topDirs, identifiers[i]);
      assert identifiers[..i + 1][..i] == identifiers[..i];
      ConcatUpToSnoc(lists, hits);
      ReportedSnoc(reports, error);
      found := found + hits;
      if error.Some? {
        errors := errors + [error.value];
      }
      lists, reports := lists + [hits], reports + [error];
      progress := progress + [i + 1];
      i := i + 1;
    }
    assert identifiers[..i] == identifiers;
  }

  /** One more part, appended. */
  lemma ConcatUpToSnoc(parts: seq<seq<string>>, last: seq<string>)
    ensures ConcatUpTo(parts + [last], |parts| + 1) == ConcatUpTo(parts, |parts|) + last
  {
    ConcatUpToPrefix(parts + [last], parts, |parts|);
  }

  /** The concatenation of the first `k` parts depends only on those parts. */
  lemma {:induction false} ConcatUpToPrefix(parts: seq<seq<string>>, parts': seq<seq<string>>, k: nat)
    requires k <= |parts| && k <= |parts'|
    requires forall j :: 0 <= j < k ==> parts[j] == parts'[j]
    ensures ConcatUpTo(parts, k) == ConcatUpTo(parts', k)
  {
    if k > 0 {
      ConcatUpToPrefix(parts, parts', k - 1);
    }
  }

  /** One more report. */
  lemma ReportedSnoc(reports: seq<Option<SearchError>>, last: Option<SearchError>)
    ensures Reported(reports + [last], |reports| + 1) ==
      Reported(reports, |reports|) + (if last.Some? then [last.value] else [])
  {
    ReportedPrefix(reports + [last], reports, |reports|);
  }

  /** The errors among the first `k` reports depend only on those reports. */
  lemma {:induction false} ReportedPrefix(reports: seq<Option<SearchError>>, reports': seq<Option<SearchError>>, k: nat)
    requires k <= |reports| && k <= |reports'|
    requires forall j :: 0 <= j < k ==> reports[j] == reports'[j]
    ensures Reported(reports, k) == Reported(reports', k)
  {
    if k > 0 {
      ReportedPrefix(reports, reports', k - 1);
    }
  }

  /** The body of the identifier loop: what one identifier collects and the error it reports. */
  method SearchIdentifier(fs: Node, root: Path, topDirs: seq<string>, identifier: string)
    returns (hits: seq<string>, error: Option<SearchError>)
    ensures hits == FoundFor(fs, root, topDirs, identifier)
    ensures error == SearchErrorOf(fs, root, topDirs, identifier)
  {
    var prefix := IdPrefix(identifier);
    var matching := StartingWith(topDirs, prefix);
    if |matching| == 0 {
      return [], Some(NoDirectory(prefix, identifier));
    }
    var filesFoundForId;
    hits, filesFoundForId := CollectForIdentifier(fs, root, matching, identifier);
    if filesFoundForId == 0 {
      error := Some(NoFiles(identifier));
    } else {
      error := None;
    }
  }

  /** The `j`-th part of DirHits is what the walk of the `j`-th directory yields. */
  lemma DirHitsAt(fs: Node, root: Path, matching: seq<string>, identifier: string, j: nat)
    requires j < |matching|
    ensures DirHits(fs, root, matching, identifier)[j] == WantedBelow(fs, root + [matching[j]], identifier)
  {
  }

  /** The loop over one identifier's matching directories, with its `files_found_for_id` counter. */
  method CollectForIdentifier(fs: Node, root: Path, matching: seq<string>, identifier: string)
    returns (hits: seq<string>, count: nat)
    ensures hits == ConcatUpTo(DirHits(fs, root, matching, identifier), |matching|)
    ensures count == |hits|
  {
    ghost var parts := DirHits(fs, root, matching, identifier);
    hits := [];
    count := 0;
    var j := 0;
    while j < |matching|
      invariant j <= |matching|
      invariant hits == ConcatUpTo(parts, j)
      invariant count == |hits|
    {
      DirHitsAt(fs, root, matching, identifier, j);
      var wanted := CollectInDir(fs, root + [matching[j]], identifier);
      hits := hits + wanted;
      count := count + |wanted|;
      j := j + 1;
    }
  }

  /** One pass of that loop: the wanted files the walk of one matching directory reports. */
  method CollectInDir(fs: Node, dirPath: Path, identifier: string) returns (wanted: seq<string>)
    ensures wanted == WantedBelow(fs, dirPath, identifier)
  {
    var walked := Walk(NodeAtOrFile(fs, dirPath), dirPath, false);
    wanted := WantedFiles(walked, identifier);
  }

  /** The node `os.walk` starts from: a missing path walks like a file, reporting nothing. */
  function NodeAtOrFile(fs: Node, p: Path): (n: Node)
    ensures WalkFiles(n, p, false) == WalkAt(fs, p)
  {
    if IsDir(fs, p) then NodeAt(fs, p).value else File("", [], None, fs.meta)
  }

  /** The inner loop over the files one walk reports. */
  method WantedFiles(walked: seq<Path>, identifier: string) returns (hits: seq<string>)
    ensures hits == WantedIn(walked, identifier, |walked|)
  {
    hits := [];
    var k := 0;
    while k < |walked|
      invariant k <= |walked|
      invariant hits == WantedIn(walked, identifier, k)
    {
      var filename := Basename(walked[k]);
      if StartsWith(filename, identifier) && (EndsWith(filename, ".holo") || EndsWith(filename, ".cine")) {
        hits := hits + [PathString(walked[k])];
      }
      k := k + 1;
    }
  }

  /**
   * A path string is returned iff some identifier selects it: the file
   * lies under a top-level directory whose name starts with the
   * identifier's text before its first `_`, its name starts with the whole
   * identifier, and it ends in `.holo` or `.cine`.
   */
  lemma CollectedIff(fs: Node, root: Path, identifiers: seq<string>, s: string)
    ensures var topDirs := TopLevelDirs(fs, root);
      s in SortUnique(ConcatUpTo(FoundLists(fs, root, topDirs, identifiers), |identifiers|)) <==>
      exists k :: 0 <= k < |identifiers| && Selects(fs, root, topDirs, identifiers[k], s)
  {
    var topDirs := TopLevelDirs(fs, root);
    var lists := FoundLists(fs, root, topDirs, identifiers);
    ConcatUpToIn(lists, |identifiers|, s);
    forall k | 0 <= k < |identifiers|
      ensures s in lists[k] <==> Selects(fs, root, topDirs, identifiers[k], s)
    {
      FoundListsAt(fs, root, topDirs, identifiers, k);
      FoundForIn(fs, root, topDirs, identifiers[k], s);
    }
  }

  /** Every collected file lies strictly below the top-level directory it was walked from. */
  lemma WalkedBelow(fs: Node, p: Path, q: Path)
    requires q in WalkAt(fs, p)
    ensures |q| > |p| && q[..|p|] == p
  {
    WalkFilesShape(NodeAt(fs, p).value, p, false, q);
  }

  // ---------------------------------------------------------------------------
  // The latest numbered folder
  // ---------------------------------------------------------------------------

  /** The number of an entry of `dir` that `os.path.isdir` accepts and whose name is `^<prefix>(\d+)$`. */
  function EntryNumber(fs: Node, dir: Path, prefix: string, e: Node): Option<nat> {
    if IsDir(fs, dir + [e.name]) then MatchNumbered(e.name, prefix) else None
  }

  function Candidate(fs: Node, dir: Path, prefix: string, e: Node): Option<(nat, Path)> {
    match EntryNumber(fs, dir, prefix, e)
    case None => None
    case Some(n) => Some((n, dir + [e.name]))
  }

  function Candidates(fs: Node, dir: Path, prefix: string): Node -> Option<(nat, Path)> {
    e => Candidate(fs, dir, prefix, e)
  }

  /** `candidate_folders` after the first `k` entries: number to path, a later entry overwriting an earlier one. */
  function CandidatesUpTo(fs: Node, dir: Path, prefix: string, entries: seq<Node>, k: nat): Dict<nat, Path>
    requires k <= |entries|
  {
    PutEach(Candidates(fs, dir, prefix), entries, k)
  }

  /** Python's `max` over a non-empty sequence of naturals. */
  function MaxOf(ns: seq<nat>): (r: nat)
    requires |ns| > 0
    ensures r in ns && forall n :: n in ns ==> n <= r
  {
    if |ns| == 1 then ns[0]
    else
      var m := MaxOf(ns[1..]);
      assert forall n :: n in ns ==> n == ns[0] || n in ns[1..] by {
        assert ns == [ns[0]] + ns[1..];
      }
      if ns[0] >= m then ns[0] else m
  }

  /** `candidate_folders[max(candidate_folders.keys())]`, or `None` when there is no candidate. */
  function LatestOf(candidates: Dict<nat, Path>): Option<Path> {
    if |candidates| == 0 then None
    else
      var n := MaxOf(Keys(candidates));
      Get(candidates, n)
  }

  /** The latest `<prefix><n>` folder of `dir`. */
  function LatestIn(fs: Node, dir: Path, prefix: string): Option<Path> {
    var es := ListDir(fs, dir);
    LatestOf(CandidatesUpTo(fs, dir, prefix, es, |es|))
  }

  /** The loop that fills `candidate_folders` from the listing of `dir`. */
  method CollectCandidates(fs: Node, dir: Path, prefix: string) returns (candidates: Dict<nat, Path>)
    ensures candidates == CandidatesUpTo(fs, dir, prefix, ListDir(fs, dir), |ListDir(fs, dir)|)
  {
    var entries := ListDir(fs, dir);
    candidates := [];
    var i := 0;
    while i < |entries|
      invariant i <= |entries|
      invariant candidates == CandidatesUpTo(fs, dir, prefix, entries, i)
    {
      candidates := AddCandidate(fs, dir, prefix, entries, i, candidates);
      i := i + 1;
    }
  }

  /** One pass of that loop: record the `i`-th entry when it is a numbered folder. */
  method AddCandidate(fs: Node, dir: Path, prefix: string, entries: seq<Node>, i: nat, candidates: Dict<nat, Path>)
    returns (r: Dict<nat, Path>)
    requires i < |entries| && candidates == CandidatesUpTo(fs, dir, prefix, entries, i)
    ensures r == CandidatesUpTo(fs, dir, prefix, entries, i + 1)
  {
    var c := Candidate(fs, dir, prefix, entries[i]);
    ghost var f := Candidates(fs, dir, prefix);
    assert f(entries[i]) == c;
    PutEachStep(f, entries, i);
    r := candidates;
    if c.Some? {
      r := Put(candidates, c.value.0, c.value.1);
    }
  }

  /**
   * The search both folder finders run: collect the candidates, then take
   * the one with the largest number, if there is any.
   */
  method LatestFolder(fs: Node, dir: Path, prefix: string) returns (r: Option<Path>)
    ensures r == LatestIn(fs, dir, prefix)
  {
    var candidates := CollectCandidates(fs, dir, prefix);
    if |candidates| > 0 {
      var n := MaxOf(Keys(candidates));
      r := Get(candidates, n);
    } else {
      r := None;
    }
  }

  /**
   * The latest folder is absent exactly when no entry is a numbered
   * directory; otherwise it is a numbered directory of `dir` whose number
   * no other numbered directory exceeds.
   */
  lemma LatestIsMax(fs: Node, dir: Path, prefix: string)
    ensures var es := ListDir(fs, dir);
      LatestIn(fs, dir, prefix).None? <==> forall j :: 0 <= j < |es| ==> EntryNumber(fs, dir, prefix, es[j]).None?
    ensures var es := ListDir(fs, dir);
      LatestIn(fs, dir, prefix).Some? ==>
        exists j :: 0 <= j < |es| && EntryNumber(fs, dir, prefix, es[j]).Some?
          && LatestIn(fs, dir, prefix).value == dir + [es[j].name]
          && forall m :: 0 <= m < |es| && EntryNumber(fs, dir, prefix, es[m]).Some? ==>
               EntryNumber(fs, dir, prefix, es[m]).value <= EntryNumber(fs, dir, prefix, es[j]).value
  {
    var es := ListDir(fs, dir);
    var f := Candidates(fs, dir, prefix);
    var d := PutEach(f, es, |es|);
    // every numbered entry is a key of the dict, so the dict is not empty
    forall m | 0 <= m < |es| && EntryNumber(fs, dir, prefix, es[m]).Some?
      ensures EntryNumber(fs, dir, prefix, es[m]).value in Keys(d) && |d| > 0
    {
      assert f(es[m]).Some? && f(es[m]).value.0 == EntryNumber(fs, dir, prefix, es[m]).value;
      PutEachKeys(f, es, |es|, m);
    }
    if |d| > 0 {
      var n := MaxOf(Keys(d));
      assert Get(d, n).Some?;
      var j := PutEachValues(f, es, |es|, n);
      assert EntryNumber(fs, dir, prefix, es[j]) == Some(n);
    }
  }

  // ---------------------------------------------------------------------------
  // find_latest_hd_folders
  // ---------------------------------------------------------------------------

  /** The latest `<splitext root>_HD_<n>` sibling of an acquisition file. */
  function LatestHd(fs: Node, file: Path): Option<Path> {
    LatestIn(fs, Dirname(file), HdPrefix(file))
  }

  /** The latest HD folder of each file. */
  function LatestHds(fs: Node, files: seq<Path>): (r: seq<Option<Path>>)
    ensures |r| == |files|
  {
    if |files| == 0 then []
    else LatestHds(fs, files[..|files| - 1]) + [LatestHd(fs, files[|files| - 1])]
  }

  /** The `i`th entry is the `i`th file's latest HD folder. */
  lemma {:induction false} LatestHdsAt(fs: Node, files: seq<Path>, i: nat)
    requires i < |files|
    ensures LatestHds(fs, files)[i] == LatestHd(fs, files[i])
  {
    if i < |files| - 1 {
      var init := files[..|files| - 1];
      LatestHdsAt(fs, init, i);
      assert init[i] == files[i];
    }
  }

  /** `hds` holds the latest HD folder of each file. */
  predicate HdsOf(fs: Node, files: seq<Path>, hds: seq<Option<Path>>) {
    |hds| == |files| && forall k {:trigger LatestHd(fs, files[k])} :: 0 <= k < |files| ==> hds[k] == LatestHd(fs, files[k])
  }

  /** The body of the file loop: the latest HD folder of the `i`th acquisition file. */
  method LatestHdOf(fs: Node, files: seq<Path>, ghost hds: seq<Option<Path>>, i: nat) returns (r: Option<Path>)
    requires i < |files| && HdsOf(fs, files, hds)
    ensures r == hds[i]
  {
    var filePath := files[i];
    var directory := Dirname(filePath);
    var prefix := HdPrefix(filePath);
    r := LatestFolder(fs, directory, prefix);
    assert r == LatestHd(fs, filePath);
  }

  /**
   * `(latest_hd_folders, missing_hd_files)` after the first `k` files,
   * before sorting, given each file's latest HD folder in `hds`.
   */
  function HdLists(files: seq<Path>, hds: seq<Option<Path>>, k: nat): (seq<string>, seq<string>)
    requires k <= |files| == |hds|
  {
    if k == 0 then ([], [])
    else
      var (latest, missing) := HdLists(files, hds, k - 1);
      match hds[k - 1]
      case Some(q) => (if PathString(q) in latest then latest else latest + [PathString(q)], missing)
      case None => (latest, missing + [PathString(files[k - 1])])
  }

  /** One more file: its HD folder is added unless already listed, or the file is listed as missing. */
  lemma HdListsStep(files: seq<Path>, hds: seq<Option<Path>>, i: nat)
    requires i < |files| == |hds|
    ensures var (latest, missing) := HdLists(files, hds, i);
      && (hds[i].Some? && PathString(hds[i].value) !in latest ==>
            HdLists(files, hds, i + 1).0 == latest + [PathString(hds[i].value)])
      && (hds[i].Some? && PathString(hds[i].value) in latest ==> HdLists(files, hds, i + 1).0 == latest)
      && (hds[i].Some? ==> HdLists(files, hds, i + 1).1 == missing)
      && (hds[i].None? ==> HdLists(files, hds, i + 1).0 == latest)
      && (hds[i].None? ==> HdLists(files, hds, i + 1).1 == missing + [PathString(files[i])])
  {
  }

  /** The warning `error_callback` receives for a file without an HD folder. */
  function NoHdWarning(file: Path): string {
    "[WARNING] For '" + Basename(file) + "', no corresponding HD folder was found."
  }

  /** The warnings sent for the first `k` files, in order, given each file's latest HD folder in `hds`. */
  function HdWarnings(files: seq<Path>, hds: seq<Option<Path>>, k: nat): seq<string>
    requires k <= |files| == |hds|
  {
    if k == 0 then []
    else HdWarnings(files, hds, k - 1) + (if hds[k - 1].None? then [NoHdWarning(files[k - 1])] else [])
  }

  /**
   * One warning per file listed as missing, and a warning names exactly
   * the files without an HD folder.
   */
  lemma {:induction false} HdWarningsSpec(files: seq<Path>, hds: seq<Option<Path>>, k: nat)
    requires k <= |files| == |hds|
    ensures |HdWarnings(files, hds, k)| == |HdLists(files, hds, k).1|
    ensures forall w :: w in HdWarnings(files, hds, k) <==>
      exists m :: 0 <= m < k && hds[m].None? && w == NoHdWarning(files[m])
  {
    if k > 0 {
      HdWarningsSpec(files, hds, k - 1);
      HdListsStep(files, hds, k - 1);
      var ws, ws' := HdWarnings(files, hds, k - 1), HdWarnings(files, hds, k);
      forall w ensures w in ws' <==> exists m :: 0 <= m < k && hds[m].None? && w == NoHdWarning(files[m]) {
        if w in ws' && w !in ws {
          assert hds[k - 1].None? && w == NoHdWarning(files[k - 1]);
        }
      }
    }
  }

  /**
   * `find_latest_hd_folders(holo_cine_files, error_callback)`: both lists
   * sorted, and the warnings passed to `error_callback`, in order.
   */
  method FindLatestHdFolders(fs: Node, files: seq<Path>) returns (latest: seq<string>, missing: seq<string>, warnings: seq<string>)
    ensures latest == Sort(HdLists(files, LatestHds(fs, files), |files|).0)
    ensures missing == Sort(HdLists(files, LatestHds(fs, files), |files|).1)
    ensures warnings == HdWarnings(files, LatestHds(fs, files), |files|)
  {
    ghost var hds := LatestHds(fs, files);
    forall k | 0 <= k < |files| ensures hds[k] == LatestHd(fs, files[k]) {
      LatestHdsAt(fs, files, k);
    }
    assert HdsOf(fs, files, hds);
    latest, missing, warnings := HdFileLoop(fs, files, hds);
    latest := Sort(latest);
    missing := Sort(missing);
  }

  /**
   * The loop over the acquisition files, before the lists are sorted;
   * `hds` holds each file's latest HD folder.
   */
  method HdFileLoop(fs: Node, files: seq<Path>, ghost hds: seq<Option<Path>>)
    returns (latest: seq<string>, missing: seq<string>, warnings: seq<string>)
    requires HdsOf(fs, files, hds)
    ensures latest == HdLists(files, hds, |files|).0
    ensures missing == HdLists(files, hds, |files|).1
    ensures warnings == HdWarnings(files, hds, |files|)
  {
    latest := [];
    missing := [];
    warnings := [];
    var i := 0;
    while i < |files|
      invariant i <= |files|
      invariant latest == HdLists(files, hds, i).0 && missing == HdLists(files, hds, i).1
      invariant warnings == HdWarnings(files, hds, i)
    {
      var filePath := files[i];
      var latestFolder := LatestHdOf(fs, files, hds, i);
      HdListsStep(files, hds, i);
      if latestFolder.Some? {
        var folder := PathString(latestFolder.value);
        if folder !in latest {
          latest := latest + [folder];
        }
      } else {
        warnings := warnings + [NoHdWarning(filePath)];
        missing := missing + [PathString(filePath)];
      }
      i := i + 1;
    }
  }

  /**
   * Each latest HD path is listed once; a path is listed iff it is the
   * latest HD folder of some input file; a file is listed as missing iff it
   * has no HD folder.
   */
  lemma {:induction false} HdListsSpec(files: seq<Path>, hds: seq<Option<Path>>, k: nat)
    requires k <= |files| == |hds|
    ensures Distinct(HdLists(files, hds, k).0)
    ensures forall s :: s in HdLists(files, hds, k).0 <==>
      exists m :: 0 <= m < k && hds[m].Some? && s == PathString(hds[m].value)
    ensures forall s :: s in HdLists(files, hds, k).1 <==>
      exists m :: 0 <= m < k && hds[m].None? && s == PathString(files[m])
  {
    if k > 0 {
      HdListsSpec(files, hds, k - 1);
      var latest, missing := HdLists(files, hds, k - 1).0, HdLists(files, hds, k - 1).1;
      var latest', missing' := HdLists(files, hds, k).0, HdLists(files, hds, k).1;
      if hds[k - 1].Some? {
        var t := PathString(hds[k - 1].value);
        assert missing' == missing;
        if t in latest {
          assert latest' == latest;
        } else {
          assert latest' == latest + [t];
          forall i, j | 0 <= i < j < |latest'| ensures latest'[i] != latest'[j] {
            if j == |latest| {
              assert latest'[i] in latest;
            }
          }
        }
      } else {
        assert latest' == latest;
        assert missing' == missing + [PathString(files[k - 1])];
      }
      forall s ensures s in latest' <==> exists m :: 0 <= m < k && hds[m].Some? && s == PathString(hds[m].value) {
        if s in latest' && s !in latest {
          assert hds[k - 1].Some? && s == PathString(hds[k - 1].value);
        }
      }
      forall s ensures s in missing' <==> exists m :: 0 <= m < k && hds[m].None? && s == PathString(files[m]) {
        if s in missing' && s !in missing {
          assert hds[k - 1].None? && s == PathString(files[k - 1]);
        }
      }
    }
  }

  /** The returned HD list is strictly increasing, so it names each folder once. */
  lemma LatestHdSorted(fs: Node, files: seq<Path>)
    ensures SortedStrict(Sort(HdLists(files, LatestHds(fs, files), |files|).0))
  {
    var hds := LatestHds(fs, files);
    HdListsSpec(files, hds, |files|);
    SortDistinct(HdLists(files, hds, |files|).0);
  }

  // ---------------------------------------------------------------------------
  // find_latest_ef_folders
  // ---------------------------------------------------------------------------

  /** The latest `<HD name>_EF_<n>` folder inside the HD folder's `eyeflow` directory. */
  function LatestEf(fs: Node, hd: Path): Option<Path> {
    var eyeflow := hd + ["eyeflow"];
    if !IsDir(fs, eyeflow) then None else LatestIn(fs, eyeflow, Basename(hd) + "_EF_")
  }

  /** The latest EF folder of each HD folder. */
  function LatestEfs(fs: Node, hds: seq<Path>): (r: seq<Option<Path>>)
    ensures |r| == |hds|
  {
    seq(|hds|, i requires 0 <= i < |hds| => LatestEf(fs, hds[i]))
  }

  /**
   * `(latest_ef_folders, missing_ef_folders)` after the first `k` HD
   * folders, before sorting, given each one's latest EF folder in `efs`.
   */
  function EfLists(hds: seq<Path>, efs: seq<Option<Path>>, k: nat): (seq<string>, seq<string>)
    requires k <= |hds| == |efs|
  {
    if k == 0 then ([], [])
    else
      var (latest, missing) := EfLists(hds, efs, k - 1);
      match efs[k - 1]
      case Some(q) => (latest + [PathString(q)], missing)
      case None => (latest, missing + [PathString(hds[k - 1])])
  }

  /** The warning for an HD folder without an `eyeflow` directory. */
  function NoEyeflowWarning(hd: Path): string {
    "[WARNING] No 'eyeflow' directory found in: " + PathString(hd)
  }

  /** The warning for an `eyeflow` directory holding no EF folder. */
  function EmptyEyeflowWarning(hd: Path): string {
    "[WARNING] 'eyeflow' directory exists but no EF folders found in: " + PathString(hd)
  }

  /** The warning an HD folder draws, if any: none when it has a latest EF folder. */
  function EfWarning(fs: Node, hd: Path): Option<string> {
    if !IsDir(fs, hd + ["eyeflow"]) then Some(NoEyeflowWarning(hd))
    else if LatestEf(fs, hd).None? then Some(EmptyEyeflowWarning(hd))
    else None
  }

  /** The present values among the first `k` options, in order. */
  function Somes<T>(xs: seq<Option<T>>, k: nat): seq<T>
    requires k <= |xs|
  {
    if k == 0 then [] else Somes(xs, k - 1) + (if xs[k - 1].Some? then [xs[k - 1].value] else [])
  }

  lemma {:induction false} SomesIn<T>(xs: seq<Option<T>>, k: nat)
    requires k <= |xs|
    ensures forall w :: w in Somes(xs, k) <==> exists m :: 0 <= m < k && xs[m] == Some(w)
  {
    if k > 0 {
      SomesIn(xs, k - 1);
      forall w ensures w in Somes(xs, k) <==> exists m :: 0 <= m < k && xs[m] == Some(w) {
        if w in Somes(xs, k) && w !in Somes(xs, k - 1) {
          assert xs[k - 1] == Some(w);
        }
      }
    }
  }

  /** The warning each HD folder draws. */
  function EfWarningsOf(fs: Node, hds: seq<Path>): (r: seq<Option<string>>)
    ensures |r| == |hds|
  {
    seq(|hds|, i requires 0 <= i < |hds| => EfWarning(fs, hds[i]))
  }

  /** `ws` holds the warning each HD folder draws. */
  predicate WarningsOf(fs: Node, hds: seq<Path>, ws: seq<Option<string>>) {
    |ws| == |hds| && forall k {:trigger EfWarning(fs, hds[k])} :: 0 <= k < |hds| ==> ws[k] == EfWarning(fs, hds[k])
  }

  /** A warning exactly for each HD folder listed as missing. */
  lemma {:induction false} SomesCount(hds: seq<Path>, efs: seq<Option<Path>>, ws: seq<Option<string>>, k: nat)
    requires k <= |hds| == |efs| == |ws|
    requires forall m :: 0 <= m < k ==> (ws[m].Some? <==> efs[m].None?)
    ensures |Somes(ws, k)| == |EfLists(hds, efs, k).1|
  {
    if k > 0 {
      SomesCount(hds, efs, ws, k - 1);
    }
  }

  /**
   * The two warnings tell the two cases apart: no `eyeflow` directory, or
   * one in which no entry is a numbered `<HD name>_EF_<n>` directory; an
   * HD folder draws no warning exactly when it has a latest EF folder.
   */
  lemma EfWarningKinds(fs: Node, hd: Path)
    ensures EfWarning(fs, hd).None? <==> LatestEf(fs, hd).Some?
    ensures EfWarning(fs, hd) == Some(NoEyeflowWarning(hd)) <==> !IsDir(fs, hd + ["eyeflow"])
    ensures var eyeflow, es := hd + ["eyeflow"], ListDir(fs, hd + ["eyeflow"]);
      EfWarning(fs, hd) == Some(EmptyEyeflowWarning(hd)) <==>
        IsDir(fs, eyeflow) && forall j :: 0 <= j < |es| ==> EntryNumber(fs, eyeflow, Basename(hd) + "_EF_", es[j]).None?
  {
    assert |NoEyeflowWarning(hd)| < |EmptyEyeflowWarning(hd)|;
    LatestIsMax(fs, hd + ["eyeflow"], Basename(hd) + "_EF_");
  }

  /**
   * One warning per HD folder listed as missing, and a warning is exactly
   * the one some HD folder draws.
   */
  lemma EfWarningsSpec(fs: Node, hds: seq<Path>)
    ensures |Somes(EfWarningsOf(fs, hds), |hds|)| == |EfLists(hds, LatestEfs(fs, hds), |hds|).1|
    ensures forall w :: w in Somes(EfWarningsOf(fs, hds), |hds|) <==>
      exists m :: 0 <= m < |hds| && EfWarning(fs, hds[m]) == Some(w)
  {
    var ws, efs := EfWarningsOf(fs, hds), LatestEfs(fs, hds);
    forall m | 0 <= m < |hds| ensures ws[m] == EfWarning(fs, hds[m]) && (ws[m].Some? <==> efs[m].None?) {
      EfWarningKinds(fs, hds[m]);
    }
    SomesCount(hds, efs, ws, |hds|);
    SomesIn(ws, |hds|);
  }

  /**
   * `find_latest_ef_folders(hd_folder_paths, error_callback)`: both lists
   * sorted, and the warnings passed to `error_callback`, in order.
   */
  method FindLatestEfFolders(fs: Node, hds: seq<Path>) returns (latest: seq<string>, missing: seq<string>, warnings: seq<string>)
    ensures latest == Sort(EfLists(hds, LatestEfs(fs, hds), |hds|).0)
    ensures missing == Sort(EfLists(hds, LatestEfs(fs, hds), |hds|).1)
    ensures warnings == Somes(EfWarningsOf(fs, hds), |hds|)
  {
    ghost var efs, ws := LatestEfs(fs, hds), EfWarningsOf(fs, hds);
    assert LatestEfsOf(fs, hds, efs) && WarningsOf(fs, hds, ws);
    latest, missing, warnings := EfFolderLoop(fs, hds, efs, ws);
    latest := Sort(latest);
    missing := Sort(missing);
  }

  /**
   * The loop over the HD folders, before the lists are sorted; `efs`
   * holds each HD folder's latest EF folder.
   */
  method EfFolderLoop(fs: Node, hds: seq<Path>, ghost efs: seq<Option<Path>>, ghost ws: seq<Option<string>>)
    returns (latest: seq<string>, missing: seq<string>, warnings: seq<string>)
    requires LatestEfsOf(fs, hds, efs) && WarningsOf(fs, hds, ws)
    ensures latest == EfLists(hds, efs, |hds|).0
    ensures missing == EfLists(hds, efs, |hds|).1
    ensures warnings == Somes(ws, |hds|)
  {
    latest := [];
    missing := [];
    warnings := [];
    var i := 0;
    while i < |hds|
      invariant i <= |hds|
      invariant latest == EfLists(hds, efs, i).0 && missing == EfLists(hds, efs, i).1
      invariant warnings == Somes(ws, i)
    {
      var latestFolder, warning := LatestEfOf(fs, hds, efs, ws, i);
      if latestFolder.Some? {
        latest := latest + [PathString(latestFolder.value)];
      } else {
        missing := missing + [PathString(hds[i])];
      }
      if warning.Some? {
        warnings := warnings + [warning.value];
      }
      i := i + 1;
    }
  }

  /** `efs` holds the latest EF folder of each HD folder. */
  predicate LatestEfsOf(fs: Node, hds: seq<Path>, efs: seq<Option<Path>>) {
    |efs| == |hds| && forall k {:trigger LatestEf(fs, hds[k])} :: 0 <= k < |hds| ==> efs[k] == LatestEf(fs, hds[k])
  }

  /**
   * The body of the HD folder loop: the latest EF folder of the `i`th HD
   * folder; a missing `eyeflow` folder gives none.
   */
  method LatestEfOf(fs: Node, hds: seq<Path>, ghost efs: seq<Option<Path>>, ghost ws: seq<Option<string>>, i: nat)
    returns (r: Option<Path>, warning: Option<string>)
    requires i < |hds| && LatestEfsOf(fs, hds, efs) && WarningsOf(fs, hds, ws)
    ensures r == efs[i]
    ensures warning == ws[i]
  {
    var hdPath := hds[i];
    var eyeflowDir := hdPath + ["eyeflow"];
    if !IsDir(fs, eyeflowDir) {
      r := None;
      warning := Some(NoEyeflowWarning(hdPath));
    } else {
      var prefix := Basename(hdPath) + "_EF_";
      r := LatestFolder(fs, eyeflowDir, prefix);
      warning := if r.None? then Some(EmptyEyeflowWarning(hdPath)) else None;
    }
    assert r == LatestEf(fs, hdPath);
    assert warning == EfWarning(fs, hdPath);
  }

  /**
   * Every HD folder gives exactly one entry: its latest EF folder, or
   * itself in the missing list when it has none.
   */
  lemma {:induction false} EfListsCount(hds: seq<Path>, efs: seq<Option<Path>>, k: nat)
    requires k <= |hds| == |efs|
    ensures |EfLists(hds, efs, k).0| + |EfLists(hds, efs, k).1| == k
    ensures forall s :: s in EfLists(hds, efs, k).0 <==> exists m :: 0 <= m < k && efs[m].Some? && s == PathString(efs[m].value)
    ensures forall s :: s in EfLists(hds, efs, k).1 <==> exists m :: 0 <= m < k && efs[m].None? && s == PathString(hds[m])
  {
    if k > 0 {
      EfListsCount(hds, efs, k - 1);
      var (latest, missing) := EfLists(hds, efs, k - 1);
      var (latest', missing') := EfLists(hds, efs, k);
      if efs[k - 1].Some? {
        assert (latest', missing') == (latest + [PathString(efs[k - 1].value)], missing);
      } else {
        assert (latest', missing') == (latest, missing + [PathString(hds[k - 1])]);
      }
      forall s ensures s in latest' <==> exists m :: 0 <= m < k && efs[m].Some? && s == PathString(efs[m].value) {
        if s in latest' && s !in latest {
          assert efs[k - 1].Some? && s == PathString(efs[k - 1].value);
        }
      }
      forall s ensures s in missing' <==> exists m :: 0 <= m < k && efs[m].None? && s == PathString(hds[m]) {
        if s in missing' && s !in missing {
          assert efs[k - 1].None? && s == PathString(hds[k - 1]);
        }
      }
    }
  }

  /** So the two sorted lists returned have lengths summing to the number of HD folders given. */
  lemma LatestEfTotal(fs: Node, hds: seq<Path>)
    ensures |Sort(EfLists(hds, LatestEfs(fs, hds), |hds|).0)| + |Sort(EfLists(hds, LatestEfs(fs, hds), |hds|).1)| == |hds|
  {
    var efs := LatestEfs(fs, hds);
    EfListsCount(hds, efs, |hds|);
    var l := EfLists(hds, efs, |hds|).0;
    assert |multiset(Sort(l))| == |multiset(l)|;
    var m := EfLists(hds, efs, |hds|).1;
    assert |multiset(Sort(m))| == |multiset(m)|;
  }

  // ---------------------------------------------------------------------------
  // copy_ef_results: matching EF folders to identifiers
  // ---------------------------------------------------------------------------

  /** `next(iden for iden in identifiers if name.startswith(iden))`, as an index from `i` on. */
  function FirstPrefixFrom(name: string, ids: seq<string>, i: nat): (r: Option<nat>)
    requires i <= |ids|
    ensures r.Some? ==> (i <= r.value < |ids| && StartsWith(name, ids[r.value])
                         && forall j :: i <= j < r.value ==> !StartsWith(name, ids[j]))
    ensures r.None? ==> forall j :: i <= j < |ids| ==> !StartsWith(name, ids[j])
    decreases |ids| - i
  {
    if i == |ids| then None
    else if StartsWith(name, ids[i]) then Some(i)
    else FirstPrefixFrom(name, ids, i + 1)
  }

  /**
   * The identifier an EF folder named `name` is exported under: the first
   * identifier in list order that prefixes the name, unless that one is
   * empty (an empty match is falsy and counts as no match).
   */
  function MatchedIdentifier(name: string, ids: seq<string>): Option<string> {
    match FirstPrefixFrom(name, ids, 0)
    case None => None
    case Some(k) => if ids[k] == "" then None else Some(ids[k])
  }

  /**
   * A folder is matched exactly when the first identifier prefixing its
   * name is non-empty, and then it is matched to that identifier.
   */
  lemma MatchedIdentifierSpec(name: string, ids: seq<string>)
    ensures MatchedIdentifier(name, ids).Some? <==>
              exists k :: 0 <= k < |ids| && StartsWith(name, ids[k]) && ids[k] != ""
                          && forall j :: 0 <= j < k ==> !StartsWith(name, ids[j])
    ensures MatchedIdentifier(name, ids).Some? ==>
              exists k :: 0 <= k < |ids| && MatchedIdentifier(name, ids).value == ids[k] && StartsWith(name, ids[k])
                          && forall j :: 0 <= j < k ==> !StartsWith(name, ids[j])
    ensures MatchedIdentifier(name, ids).Some? ==> MatchedIdentifier(name, ids).value != ""
  {
    var f := FirstPrefixFrom(name, ids, 0);
    if f.Some? {
      var k := f.value;
      if ids[k] != "" {
        assert StartsWith(name, ids[k]) && forall j :: 0 <= j < k ==> !StartsWith(name, ids[j]);
      } else {
        forall k' | 0 <= k' < |ids| && StartsWith(name, ids[k']) && ids[k'] != ""
          ensures exists j :: 0 <= j < k' && StartsWith(name, ids[j])
        {
          assert k' != k && StartsWith(name, ids[k]);
        }
      }
    }
  }

  /** An EF folder to export, its position in the input and the identifier it goes under. */
  datatype ExportItem = ExportItem(index: nat, efFolder: Path, identifier: string)

  /** The identifier each EF folder matches. */
  function Matches(efFolders: seq<Path>, ids: seq<string>): (r: seq<Option<string>>)
    ensures |r| == |efFolders|
  {
    seq(|efFolders|, j requires 0 <= j < |efFolders| => MatchedIdentifier(Basename(efFolders[j]), ids))
  }

  /**
   * The export items and the unmatched names after the first `k` EF
   * folders, given each folder's matched identifier in `ms`.
   */
  function ExportPlan(efFolders: seq<Path>, ms: seq<Option<string>>, k: nat): (seq<ExportItem>, seq<string>)
    requires k <= |efFolders| == |ms|
  {
    if k == 0 then ([], [])
    else
      var (items, unmatched) := ExportPlan(efFolders, ms, k - 1);
      match ms[k - 1]
      case Some(id) => (items + [ExportItem(k - 1, efFolders[k - 1], id)], unmatched)
      case None => (items, unmatched + [Basename(efFolders[k - 1])])
  }

  /**
   * The matching loop of `copy_ef_results`: matched folders in order with
   * their identifiers, the names of unmatched ones (each recorded as an
   * error and skipped), and the progress calls, made only for matched
   * folders. The copying itself is not part of this model.
   */
  method MatchEfFolders(efFolders: seq<Path>, ids: seq<string>)
    returns (items: seq<ExportItem>, unmatched: seq<string>, progress: seq<nat>)
    ensures (items, unmatched) == ExportPlan(efFolders, Matches(efFolders, ids), |efFolders|)
    ensures |progress| == |items| && forall k :: 0 <= k < |items| ==> progress[k] == items[k].index + 1
  {
    ghost var ms := Matches(efFolders, ids);
    items := [];
    unmatched := [];
    progress := [];
    var i := 0;
    while i < |efFolders|
      invariant i <= |efFolders|
      invariant (items, unmatched) == ExportPlan(efFolders, ms, i)
      invariant |progress| == |items| && forall k :: 0 <= k < |items| ==> progress[k] == items[k].index + 1
    {
      items, unmatched, progress := MatchOne(efFolders, ids, ms, i, items, unmatched, progress);
      i := i + 1;
    }
  }

  /** One pass of that loop: export the `i`-th folder under its identifier, or record its name. */
  method MatchOne(efFolders: seq<Path>, ids: seq<string>, ghost ms: seq<Option<string>>, i: nat,
                  items: seq<ExportItem>, unmatched: seq<string>, progress: seq<nat>)
    returns (items': seq<ExportItem>, unmatched': seq<string>, progress': seq<nat>)
    requires ms == Matches(efFolders, ids) && i < |efFolders|
    requires (items, unmatched) == ExportPlan(efFolders, ms, i)
    requires |progress| == |items| && forall k :: 0 <= k < |items| ==> progress[k] == items[k].index + 1
    ensures (items', unmatched') == ExportPlan(efFolders, ms, i + 1)
    ensures |progress'| == |items'| && forall k :: 0 <= k < |items'| ==> progress'[k] == items'[k].index + 1
  {
    var name := Basename(efFolders[i]);
    var matched := MatchedIdentifier(name, ids);
    assert ms[i] == matched;
    if matched.None? {
      items', unmatched', progress' := items, unmatched + [name], progress;
    } else {
      items' := items + [ExportItem(i, efFolders[i], matched.value)];
      unmatched' := unmatched;
      progress' := progress + [i + 1];
    }
  }

  /**
   * Every EF folder is either exported under the identifier it matches or
   * recorded as unmatched, never both, in input order.
   */
  lemma {:induction false} ExportPlanSplits(efFolders: seq<Path>, ms: seq<Option<string>>, k: nat)
    requires k <= |efFolders| == |ms|
    ensures var (items, unmatched) := ExportPlan(efFolders, ms, k);
      && |items| + |unmatched| == k
      && (forall j :: 0 <= j < |items| ==>
            items[j].index < k && items[j].efFolder == efFolders[items[j].index]
            && ms[items[j].index] == Some(items[j].identifier))
      && (forall i, j :: 0 <= i < j < |items| ==> items[i].index < items[j].index)
      && (forall s :: s in unmatched <==> exists m :: 0 <= m < k && ms[m].None? && s == Basename(efFolders[m]))
  {
    if k > 0 {
      ExportPlanSplits(efFolders, ms, k - 1);
      var (items, unmatched) := ExportPlan(efFolders, ms, k - 1);
      var (items', unmatched') := ExportPlan(efFolders, ms, k);
      if ms[k - 1].Some? {
        assert (items', unmatched') == (items + [ExportItem(k - 1, efFolders[k - 1], ms[k - 1].value)], unmatched);
      } else {
        assert (items', unmatched') == (items, unmatched + [Basename(efFolders[k - 1])]);
      }
      forall s ensures s in unmatched' <==> exists m :: 0 <= m < k && ms[m].None? && s == Basename(efFolders[m]) {
        if s in unmatched' && s !in unmatched {
          assert ms[k - 1].None? && s == Basename(efFolders[k - 1]);
        }
      }
    }
  }
}
