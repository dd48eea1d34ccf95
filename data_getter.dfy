/**
 * The crawlers of `src/FileFinder/utils/data_getter.py`: the pruned search
 * for `.holo` files, the preview video next to a `.holo` file, the HD
 * folders rendered from it, and the EF folders of an `eyeflow` folder.
 */
module DataGetter {
  import opened Wrappers
  import opened Text
  import opened PyValues
  import opened OrderedDicts
  import opened FileSystem
  import opened PathParser
  import opened FinderUtils

  // ---------------------------------------------------------------------------
  // find_all_holo_files
  // ---------------------------------------------------------------------------

  predicate IsHoloName(name: string) {
    EndsWith(name, ".holo")
  }

  /** The paths among `files` whose names end in `.holo`, in order. */
  function HoloOnly(files: seq<Path>): seq<Path> {
    if |files| == 0 then []
    else
      var last := files[|files| - 1];
      HoloOnly(files[..|files| - 1]) + (if IsHoloName(Basename(last)) then [last] else [])
  }

  /** HoloOnly keeps exactly the `.holo` paths. */
  lemma {:induction false} HoloOnlyIn(files: seq<Path>, q: Path)
    ensures q in HoloOnly(files) <==> q in files && IsHoloName(Basename(q))
    decreases |files|
  {
    if |files| > 0 {
      var init := files[..|files| - 1];
      assert files == init + [files[|files| - 1]];
      HoloOnlyIn(init, q);
    }
  }

  /**
   * What `find_all_holo_files(root)` returns: the `.holo` files `os.walk`
   * reports below `root`, not descending into sub-directories whose names
   * contain `_HD_`; nothing when `root` is missing.
   */
  function HoloFiles(fs: Node, root: Path): seq<Path> {
    match NodeAt(fs, root)
    case None => []
    case Some(n) => HoloOnly(WalkFiles(n, root, true))
  }

  /** `find_all_holo_files` */
  method FindAllHoloFiles(fs: Node, root: Path) returns (found: seq<Path>)
    ensures found == HoloFiles(fs, root)
  {
    found := [];
    match NodeAt(fs, root)
    case None =>
    case Some(n) =>
      var walked := Walk(n, root, true);
      var i := 0;
      while i < |walked|
        invariant 0 <= i <= |walked|
        invariant found == HoloOnly(walked[..i])
      {
        assert walked[..i + 1][..i] == walked[..i];
        if EndsWith(Basename(walked[i]), ".holo") {
          found := found + [walked[i]];
        }
        i := i + 1;
      }
      assert walked[..|walked|] == walked;
  }

  /**
   * Every path found names a `.holo` file strictly below `root`, and no
   * directory between `root` and that file has `_HD_` in its name.
   */
  lemma HoloFilesShape(fs: Node, root: Path, q: Path)
    requires q in HoloFiles(fs, root)
    ensures IsHoloName(Basename(q))
    ensures |q| > |root| && q[..|root|] == root
    ensures forall k :: |root| <= k < |q| - 1 ==> !Contains(q[k], "_HD_")
  {
    var n := NodeAt(fs, root).value;
    HoloOnlyIn(WalkFiles(n, root, true), q);
    WalkFilesShape(n, root, true, q);
  }

  /** Every `.holo` file listed directly in `root` is found. */
  lemma HoloFilesTopLevel(fs: Node, root: Path, f: Node)
    requires IsDir(fs, root) && f in NodeAt(fs, root).value.children
    requires f.File? && IsHoloName(f.name)
    ensures root + [f.name] in HoloFiles(fs, root)
  {
    var n := NodeAt(fs, root).value;
    var k :| 0 <= k < |n.children| && n.children[k] == f;
    FilesInHas(n.children, root, |n.children|, k);
    assert Basename(root + [f.name]) == f.name;
    HoloOnlyIn(WalkFiles(n, root, true), root + [f.name]);
  }

  lemma {:induction false} FilesInHas(cs: seq<Node>, p: Path, k: nat, j: nat)
    requires j < k <= |cs| && cs[j].File?
    ensures p + [cs[j].name] in FilesIn(cs, p, k)
  {
    if j < k - 1 {
      FilesInHas(cs, p, k - 1, j);
    }
  }

  // ---------------------------------------------------------------------------
  // find_preview_video
  // ---------------------------------------------------------------------------

  /** The preview video's path: `R_<stem>_p.avi` beside the `.holo` file. */
  function PreviewPath(holo: Path): Path {
    Dirname(holo) + ["R_" + Stem(Basename(holo)) + "_p.avi"]
  }

  /** `find_preview_video`: that path when it is an existing regular file, else `None`. */
  function FindPreviewVideo(fs: Node, holo: Path): (r: Option<Path>)
    ensures r.Some? <==> IsFile(fs, PreviewPath(holo))
    ensures r.Some? ==> r.value == PreviewPath(holo)
  {
    var avi := PreviewPath(holo);
    if Exists(fs, avi) && IsFile(fs, avi) then Some(avi) else None
  }

  /** For `<dir>/<base>.<ext>` the video looked for is `<dir>/R_<base>_p.avi`. */
  lemma PreviewOfHolo(dir: Path, base: string, ext: string)
    requires base != "" && '.' !in ext && ext != ""
    ensures PreviewPath(dir + [base + "." + ext]) == dir + ["R_" + base + "_p.avi"]
  {
    assert Dirname(dir + [base + "." + ext]) == dir;
    StemOfExtension(base, ext);
  }

  // ---------------------------------------------------------------------------
  // _get_raw_h5_file and _get_report_pdf
  // ---------------------------------------------------------------------------

  /** The first `.h5` entry of `folder` (`glob` order), if any. */
  function FirstH5(fs: Node, folder: Path): (r: Option<Path>)
    ensures r.None? <==> GlobExt(fs, folder, "h5") == []
    ensures r.Some? ==> r.value == GlobExt(fs, folder, "h5")[0]
    ensures r.Some? ==> |r.value| == |folder| + 1 && r.value[..|folder|] == folder
                        && EndsWith(Basename(r.value), ".h5")
  {
    var files := GlobExt(fs, folder, "h5");
    if |files| > 0 then
      assert files[0] in files;
      Some(files[0])
    else None
  }

  /** `_get_raw_h5_file`: the first `.h5` entry of `<hd>/raw`, if that is a directory. */
  function GetRawH5File(fs: Node, hd: Path): (r: Option<Path>)
    ensures r.None? <==> !IsDir(fs, hd + ["raw"]) || GlobExt(fs, hd + ["raw"], "h5") == []
    ensures r.Some? ==> r.value == GlobExt(fs, hd + ["raw"], "h5")[0]
    ensures r.Some? ==> |r.value| == |hd| + 2 && r.value[..|hd| + 1] == hd + ["raw"]
                        && EndsWith(Basename(r.value), ".h5")
  {
    if IsDir(fs, hd + ["raw"]) then FirstH5(fs, hd + ["raw"]) else None
  }

  /**
   * `_get_report_pdf`: the first entry listed in `<ef>/pdf`; `None` when
   * that is not a directory or is empty.
   */
  function GetReportPdf(fs: Node, ef: Path): (r: Option<Path>)
    ensures r.None? <==> ListDir(fs, ef + ["pdf"]) == []
    ensures r.Some? ==> r.value == ef + ["pdf", ListDir(fs, ef + ["pdf"])[0].name]
  {
    var pdf := ef + ["pdf"];
    if !IsDir(fs, pdf) then None
    else
      var pdfs := ListDir(fs, pdf);
      if |pdfs| == 0 then None else Some(pdf + [pdfs[0].name])
  }

  /** The report found is the first entry of `<ef>/pdf` itself. */
  lemma ReportPdfExists(fs: Node, ef: Path)
    requires GetReportPdf(fs, ef).Some?
    ensures NodeAt(fs, GetReportPdf(fs, ef).value) == Some(ListDir(fs, ef + ["pdf"])[0])
  {
    var pdf := ef + ["pdf"];
    var first := ListDir(fs, pdf)[0];
    assert GetReportPdf(fs, ef).value == pdf + [first.name];
    NodeAtSnoc(fs, pdf, first.name);
  }

  // ---------------------------------------------------------------------------
  // gather_all_hd_folders_data_from_holo
  // ---------------------------------------------------------------------------

  /** One value of the dict `gather_all_hd_folders_data_from_holo` returns. */
  datatype HdData = HdData(path: Path, renderingParams: Option<Value>,
                           versionText: Option<string>, rawH5Path: Option<Path>)

  /** The `<hd name>_RenderingParameters.json` file of an HD folder. */
  function RenderingJson(hd: Path): Path {
    hd + [Basename(hd) + "_RenderingParameters.json"]
  }

  /** The loaded rendering parameters: `None` when the file is absent or unreadable. */
  function RenderingParams(fs: Node, hd: Path): (r: Option<Value>)
    ensures !Exists(fs, RenderingJson(hd)) ==> r.None?
    ensures r.Some? ==> r == LoadJson(fs, RenderingJson(hd))
  {
    if Exists(fs, RenderingJson(hd)) then LoadJson(fs, RenderingJson(hd)) else None
  }

  function HdDataOf(fs: Node, hd: Path): HdData {
    HdData(hd, RenderingParams(fs, hd), ReadText(fs, hd + ["version.txt"]), GetRawH5File(fs, hd))
  }

  /** The prefix an HD folder of the `.holo` file must carry: `<splitext root>_HD_`. */
  function HdPrefix(holo: Path): string {
    SplitExtRoot(Basename(holo)) + "_HD_"
  }

  /** The HD number of a sibling entry: a directory named `^<prefix>(\d+)$`. */
  function HdNumber(e: Node, prefix: string): (r: Option<nat>)
    ensures r.Some? <==> e.Dir? && MatchNumbered(e.name, prefix).Some?
    ensures r.Some? ==> r == MatchNumbered(e.name, prefix)
  {
    if e.Dir? then MatchNumbered(e.name, prefix) else None
  }

  /** The assignment the loop makes for one sibling entry, if it matches. */
  function HdAssign(fs: Node, parent: Path, prefix: string, e: Node): Option<(nat, HdData)> {
    match HdNumber(e, prefix)
    case None => None
    case Some(n) => Some((n, HdDataOf(fs, parent + [e.name])))
  }

  function HdAssigner(fs: Node, parent: Path, prefix: string): Node -> Option<(nat, HdData)> {
    e => HdAssign(fs, parent, prefix, e)
  }

  /** The dict the loop builds over the listing `entries` of `parent`. */
  function HdFoldersIn(fs: Node, parent: Path, prefix: string, entries: seq<Node>): Dict<nat, HdData> {
    PutAll(FilterMap(HdAssigner(fs, parent, prefix), entries, |entries|))
  }

  /** What `gather_all_hd_folders_data_from_holo(holo)` returns once the parent is listed. */
  function HdFolders(fs: Node, holo: Path): Dict<nat, HdData> {
    HdFoldersIn(fs, Dirname(holo), HdPrefix(holo), ListDir(fs, Dirname(holo)))
  }

  /**
   * `gather_all_hd_folders_data_from_holo`; `None` stands for the
   * exception `os.scandir` raises when the parent is not a directory.
   */
  method GatherAllHdFoldersDataFromHolo(fs: Node, holo: Path) returns (r: Option<Dict<nat, HdData>>)
    ensures r.None? <==> !IsDir(fs, Dirname(holo))
    ensures r.Some? ==> r.value == HdFolders(fs, holo)
  {
    var parent := Dirname(holo);
    if !IsDir(fs, parent) {
      return None;
    }
    var baseName := SplitExtRoot(Basename(holo));
    var prefix := baseName + "_HD_";
    var entries := ListDir(fs, parent);
    var hdFolders := GatherHdEntries(fs, parent, prefix, entries);
    return Some(hdFolders);
  }

  /** The loop of `gather_all_hd_folders_data_from_holo` over the parent's entries. */
  method GatherHdEntries(fs: Node, parent: Path, prefix: string, entries: seq<Node>) returns (hdFolders: Dict<nat, HdData>)
    ensures hdFolders == HdFoldersIn(fs, parent, prefix, entries)
  {
    hdFolders := [];
    var i := 0;
    while i < |entries|
      invariant 0 <= i <= |entries|
      invariant hdFolders == PutAll(FilterMap(HdAssigner(fs, parent, prefix), entries, i))
    {
      hdFolders := GatherHdEntry(fs, parent, prefix, entries, i, hdFolders);
      i := i + 1;
    }
  }

  /** One pass of that loop: a directory whose name matches assigns its number. */
  method GatherHdEntry(fs: Node, parent: Path, prefix: string, entries: seq<Node>, i: nat, hdFolders: Dict<nat, HdData>)
    returns (r: Dict<nat, HdData>)
    requires i < |entries|
    requires hdFolders == PutAll(FilterMap(HdAssigner(fs, parent, prefix), entries, i))
    ensures r == PutAll(FilterMap(HdAssigner(fs, parent, prefix), entries, i + 1))
  {
    var entry := entries[i];
    HdFoldersStep(fs, parent, prefix, entries, i);
    r := hdFolders;
    if entry.Dir? {
      var m := MatchNumbered(entry.name, prefix);
      if m.Some? {
        var hdFolder := parent + [entry.name];
        var data := HdEntryData(fs, hdFolder, entry.name);
        r := Put(hdFolders, m.value, data);
      }
    }
  }

  /** One step of that loop: a matching directory assigns its number, anything else changes nothing. */
  lemma HdFoldersStep(fs: Node, parent: Path, prefix: string, entries: seq<Node>, i: nat)
    requires i < |entries|
    ensures var d := PutAll(FilterMap(HdAssigner(fs, parent, prefix), entries, i));
            var e := entries[i];
            PutAll(FilterMap(HdAssigner(fs, parent, prefix), entries, i + 1))
            == if e.Dir? && MatchNumbered(e.name, prefix).Some?
               then Put(d, MatchNumbered(e.name, prefix).value, HdDataOf(fs, parent + [e.name]))
               else d
  {
    var f := HdAssigner(fs, parent, prefix);
    var ps := FilterMap(f, entries, i);
    var e := entries[i];
    if e.Dir? && MatchNumbered(e.name, prefix).Some? {
      var p := (MatchNumbered(e.name, prefix).value, HdDataOf(fs, parent + [e.name]));
      assert f(e) == Some(p);
      assert FilterMap(f, entries, i + 1) == ps + [p];
      PutAllSnoc(ps, p);
    } else {
      assert f(e).None?;
      assert FilterMap(f, entries, i + 1) == ps;
    }
  }

  /** The value the loop stores for one HD folder. */
  method HdEntryData(fs: Node, hdFolder: Path, name: string) returns (data: HdData)
    requires hdFolder != [] && Basename(hdFolder) == name
    ensures data == HdDataOf(fs, hdFolder)
  {
    var renderingParamsJson := hdFolder + [name + "_RenderingParameters.json"];
    var renderingParams := if Exists(fs, renderingParamsJson) then LoadJson(fs, renderingParamsJson) else None;
    var versionText := ReadText(fs, hdFolder + ["version.txt"]);
    data := HdData(hdFolder, renderingParams, versionText, GetRawH5File(fs, hdFolder));
  }

  /**
   * Every sibling directory that matches `^<base>_HD_(\d+)$` gives a key
   * (HdFoldersValues is the converse), and no number is a key twice.
   */
  lemma HdFoldersKeys(fs: Node, parent: Path, prefix: string, entries: seq<Node>, j: nat)
    requires j < |entries| && entries[j].Dir? && MatchNumbered(entries[j].name, prefix).Some?
    ensures Get(HdFoldersIn(fs, parent, prefix, entries), MatchNumbered(entries[j].name, prefix).value).Some?
    ensures UniqueKeys(HdFoldersIn(fs, parent, prefix, entries))
  {
    var f := HdAssigner(fs, parent, prefix);
    var ms := FilterMap(f, entries, |entries|);
    var n := MatchNumbered(entries[j].name, prefix).value;
    FilterMapHas(f, entries, |entries|, j);
    assert (n, HdDataOf(fs, parent + [entries[j].name])) in ms;
    PutAllKeys(ms, n);
    PutAllUnique(ms);
  }

  /**
   * Each value describes a directory that carries its number, with that
   * directory's own rendering parameters, version text and raw file.
   */
  lemma HdFoldersValues(fs: Node, parent: Path, prefix: string, entries: seq<Node>, n: nat) returns (j: nat)
    requires Get(HdFoldersIn(fs, parent, prefix, entries), n).Some?
    ensures j < |entries| && entries[j].Dir? && MatchNumbered(entries[j].name, prefix) == Some(n)
    ensures Get(HdFoldersIn(fs, parent, prefix, entries), n).value == HdDataOf(fs, parent + [entries[j].name])
  {
    var f := HdAssigner(fs, parent, prefix);
    PutAllValues(FilterMap(f, entries, |entries|), n);
    j := FilterMapSource(f, entries, |entries|, (n, Get(HdFoldersIn(fs, parent, prefix, entries), n).value));
  }

  /**
   * When several directories carry the same number (`_HD_3` and `_HD_03`),
   * the one listed last supplies the value, as a later `d[n] = ...` does.
   */
  lemma HdFoldersLastWins(fs: Node, parent: Path, prefix: string, entries: seq<Node>, j: nat)
    requires j < |entries| && HdNumber(entries[j], prefix).Some?
    requires forall m :: j < m < |entries| ==> HdNumber(entries[m], prefix) != HdNumber(entries[j], prefix)
    ensures Get(HdFoldersIn(fs, parent, prefix, entries), HdNumber(entries[j], prefix).value)
            == Some(HdDataOf(fs, parent + [entries[j].name]))
  {
    FilterMapLastWins(HdAssigner(fs, parent, prefix), entries, |entries|, j);
  }

  /**
   * `find_all_hd_folders_from_holo`, which the scanner calls but which is
   * defined nowhere in the repository: the same dict, keeping only each HD
   * folder's path.
   */
  function FindAllHdFoldersFromHolo(fs: Node, holo: Path): (r: Dict<nat, Path>)
    ensures Keys(r) == Keys(HdFolders(fs, holo))
    ensures forall i :: 0 <= i < |r| ==> r[i].1 == HdFolders(fs, holo)[i].1.path
  {
    PathsOf(HdFolders(fs, holo))
  }

  function PathsOf(d: Dict<nat, HdData>): (r: Dict<nat, Path>)
    ensures Keys(r) == Keys(d)
    ensures |r| == |d| && forall i :: 0 <= i < |r| ==> r[i].1 == d[i].1.path
  {
    if |d| == 0 then [] else [(d[0].0, d[0].1.path)] + PathsOf(d[1..])
  }

  // ---------------------------------------------------------------------------
  // gather_ef_folders_data
  // ---------------------------------------------------------------------------

  /** One record of `gather_ef_folders_data`. */
  datatype EfData = EfData(efFolder: Path, inputParams: InputParams,
                           h5Output: Option<Path>, reportPath: Option<Path>)

  /** The first `.h5` file of `<ef>/h5`, looked for only when `<ef>/json` is a directory. */
  function EfH5Output(fs: Node, ef: Path): (r: Option<Path>)
    ensures r.None? <==> !IsDir(fs, ef + ["json"]) || GlobExt(fs, ef + ["h5"], "h5") == []
    ensures r.Some? ==> r.value == GlobExt(fs, ef + ["h5"], "h5")[0]
    ensures r.Some? ==> |r.value| == |ef| + 2 && r.value[..|ef| + 1] == ef + ["h5"]
                        && EndsWith(Basename(r.value), ".h5")
  {
    if IsDir(fs, ef + ["json"]) then FirstH5(fs, ef + ["h5"]) else None
  }

  /** The record of one EF folder: input parameters only on request, the `.h5` output and the report. */
  function EfDataOf(fs: Node, ef: Path, getInputParams: bool): EfData {
    EfData(ef, if getInputParams then InputParamsOf(fs, ef) else InputParams(None, None),
           EfH5Output(fs, ef), GetReportPdf(fs, ef))
  }

  /** The records for the first `k` entries of the listing of `eyeflow`. */
  function EfDataList(fs: Node, eyeflow: Path, entries: seq<Node>, k: nat, getInputParams: bool): seq<EfData>
    requires k <= |entries|
  {
    if k == 0 then []
    else
      var e := entries[k - 1];
      EfDataList(fs, eyeflow, entries, k - 1, getInputParams)
      + (if KeptEf(e) then [EfDataOf(fs, eyeflow + [e.name], getInputParams)] else [])
  }

  /** Each record is for an `_EF_` directory of the listing. */
  lemma {:induction false} EfDataListKept(fs: Node, eyeflow: Path, entries: seq<Node>, k: nat, getInputParams: bool, rec: EfData)
    requires k <= |entries| && rec in EfDataList(fs, eyeflow, entries, k, getInputParams)
    ensures exists e :: e in entries && KeptEf(e) && rec == EfDataOf(fs, eyeflow + [e.name], getInputParams)
  {
    if rec !in EfDataList(fs, eyeflow, entries, k - 1, getInputParams) {
      assert entries[k - 1] in entries;
    } else {
      EfDataListKept(fs, eyeflow, entries, k - 1, getInputParams, rec);
    }
  }

  /** `gather_ef_folders_data(eyeflow, get_input_params)` */
  method GatherEfFoldersData(fs: Node, eyeflow: Path, getInputParams: bool) returns (efData: seq<EfData>)
    ensures efData == EfDataList(fs, eyeflow, ListDir(fs, eyeflow), |ListDir(fs, eyeflow)|, getInputParams)
    ensures forall rec :: rec in efData ==> IsEfFolder(Basename(rec.efFolder))
    ensures !getInputParams ==> forall rec :: rec in efData ==> rec.inputParams == InputParams(None, None)
  {
    var entries := ListDir(fs, eyeflow);
    efData := [];
    var i := 0;
    while i < |entries|
      invariant 0 <= i <= |entries|
      invariant efData == EfDataList(fs, eyeflow, entries, i, getInputParams)
    {
      var entry := entries[i];
      if entry.Dir? && IsEfFolder(entry.name) {
        var record := EfEntryData(fs, eyeflow + [entry.name], getInputParams);
        efData := efData + [record];
      }
      i := i + 1;
    }
    forall rec | rec in efData ensures IsEfFolder(Basename(rec.efFolder)) {
      EfDataListKept(fs, eyeflow, entries, |entries|, getInputParams, rec);
    }
    forall rec | rec in efData && !getInputParams ensures rec.inputParams == InputParams(None, None) {
      EfDataListKept(fs, eyeflow, entries, |entries|, getInputParams, rec);
    }
  }

  /** The body of that loop for one EF folder. */
  method EfEntryData(fs: Node, efFolder: Path, getInputParams: bool) returns (record: EfData)
    ensures record == EfDataOf(fs, efFolder, getInputParams)
  {
    var inputEyeFlowParams := InputParams(None, None);
    var h5Output: Option<Path> := None;
    var jsonFolder := efFolder + ["json"];
    if IsDir(fs, jsonFolder) {
      if getInputParams {
        var inputParam := jsonFolder + ["InputEyeFlowParams.json"];
        assert inputParam == efFolder + ["json", "InputEyeFlowParams.json"];
        if Exists(fs, inputParam) {
          var content := LoadJson(fs, inputParam);
          if content.Some? && Truthy(content.value) {
            inputEyeFlowParams := InputParams(Some(inputParam), content);
          }
        }
      }
      var h5Files := GlobExt(fs, efFolder + ["h5"], "h5");
      if |h5Files| > 0 {
        h5Output := Some(h5Files[0]);
      }
    }
    record := EfData(efFolder, inputEyeFlowParams, h5Output, GetReportPdf(fs, efFolder));
  }
}
