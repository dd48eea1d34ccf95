/**
 * The folder-name slicers, the version-block extractor and the EF folder
 * listing of `FinderUtils.py`.
 */
module FinderUtils {
  import opened Wrappers
  import opened Text
  import opened PyValues
  import opened FileSystem
  import opened PathParser

  /** `is_hd_folder`: the name contains `_HD_`. */
  function IsHdFolder(name: string): (b: bool)
    ensures b <==> exists i :: OccursAt(name, "_HD_", i)
  {
    Contains(name, "_HD_")
  }

  /**
   * `get_file_name_without_hd` (identical in `old/Tools/utils.py`): the
   * basename cut just before its first `_HD_`, or the whole basename.
   */
  function GetFileNameWithoutHd(p: Path): (r: string)
    ensures StartsWith(Basename(p), r)
    ensures !IsHdFolder(r)
    ensures r == Basename(p) <==> !IsHdFolder(Basename(p))
    ensures r != Basename(p) ==> OccursAt(Basename(p), "_HD_", |r|)
  {
    var name := Basename(p);
    match Find(name, "_HD_")
    case None => name
    case Some(i) =>
      var r := name[..i];
      assert forall j :: OccursAt(r, "_HD_", j) ==> OccursAt(name, "_HD_", j) by {
        forall j | OccursAt(r, "_HD_", j) ensures OccursAt(name, "_HD_", j) {
          assert r[j..j + 4] == name[j..j + 4];
        }
      }
      assert |r| < |name|;
      r
  }

  /**
   * What `get_num_after_hd` returns: the basename from its first `_HD_` on
   * (a string, whatever the annotation says), or -1.
   */
  datatype NumAfterHd = HdSuffix(suffix: string) | MinusOne

  /** `get_num_after_hd` */
  function GetNumAfterHd(p: Path): (r: NumAfterHd)
    ensures r.MinusOne? <==> !IsHdFolder(Basename(p))
    ensures r.HdSuffix? ==> StartsWith(r.suffix, "_HD_")
  {
    var name := Basename(p);
    match Find(name, "_HD_")
    case None => MinusOne
    case Some(i) =>
      assert name[i..][..4] == name[i..i + 4];
      HdSuffix(name[i..])
  }

  /** The two slicers cut the basename at the same place: together they give it back. */
  lemma HdCutRecombines(p: Path)
    requires IsHdFolder(Basename(p))
    ensures GetFileNameWithoutHd(p) + GetNumAfterHd(p).suffix == Basename(p)
  {
    var name := Basename(p);
    var i := Find(name, "_HD_").value;
    assert name[..i] + name[i..] == name;
  }

  // ---------------------------------------------------------------------------
  // The version block of an EyeFlow log
  // ---------------------------------------------------------------------------

  /** Every character of `t` is `=`. */
  predicate AllEquals(t: string) {
    |t| == 0 || (t[0] == '=' && AllEquals(t[1..]))
  }

  /** A bar line: non-empty once stripped, and made of `=` only (`set(line.strip()) == {"="}`). */
  predicate IsBar(line: string) {
    Strip(line) != "" && AllEquals(Strip(line))
  }

  /** The last bar line before index `upto`. */
  function LastBarBefore(lines: seq<string>, upto: nat): (r: Option<nat>)
    requires upto <= |lines|
    ensures r.Some? ==> r.value < upto && IsBar(lines[r.value])
    ensures r.Some? ==> forall k :: r.value < k < upto ==> !IsBar(lines[k])
    ensures r.None? ==> forall k :: 0 <= k < upto ==> !IsBar(lines[k])
  {
    if upto == 0 then None
    else if IsBar(lines[upto - 1]) then Some(upto - 1)
    else LastBarBefore(lines, upto - 1)
  }

  /** There are at least two bar lines. */
  predicate HasTwoBars(lines: seq<string>) {
    exists s, e :: 0 <= s < e < |lines| && IsBar(lines[s]) && IsBar(lines[e])
  }

  /**
   * `extract_last_block_between_bars` over the lines of the file (and the
   * block logic of `get_eyeflow_version`): the stripped concatenation of
   * the lines strictly between the last two bar lines, `None` when there
   * are fewer than two.
   */
  function LastBarBlock(lines: seq<string>): Option<string> {
    match LastBarBefore(lines, |lines|)
    case None => None
    case Some(e) =>
      match LastBarBefore(lines, e)
      case None => None
      case Some(s) => Some(Strip(Concat(lines[s + 1..e])))
  }

  /** There is a block exactly when there are two bar lines. */
  lemma LastBarBlockSomeIff(lines: seq<string>)
    ensures LastBarBlock(lines).Some? <==> HasTwoBars(lines)
  {
    match LastBarBefore(lines, |lines|)
    case None =>
    case Some(e) =>
      match LastBarBefore(lines, e)
      case None =>
        forall s, e' | 0 <= s < e' < |lines| && IsBar(lines[s]) ensures !IsBar(lines[e']) {
          assert s >= e;
        }
      case Some(s) =>
  }

  /**
   * The block comes from between the last two bar lines: no other bar line
   * follows the first of them, so no bar line is part of the block.
   */
  lemma LastBarBlockBetweenLastBars(lines: seq<string>) returns (s: nat, e: nat)
    requires HasTwoBars(lines)
    ensures s < e < |lines| && IsBar(lines[s]) && IsBar(lines[e])
    ensures forall k :: s < k < |lines| && k != e ==> !IsBar(lines[k])
    ensures LastBarBlock(lines) == Some(Strip(Concat(lines[s + 1..e])))
  {
    LastBarBlockSomeIff(lines);
    e := LastBarBefore(lines, |lines|).value;
    s := LastBarBefore(lines, e).value;
  }

  /** Two adjacent final bars delimit an empty block. */
  lemma AdjacentBarsGiveEmpty(lines: seq<string>)
    requires |lines| >= 2 && IsBar(lines[|lines| - 2]) && IsBar(lines[|lines| - 1])
    ensures LastBarBlock(lines) == Some("")
  {
    assert LastBarBefore(lines, |lines|) == Some(|lines| - 1);
    assert LastBarBefore(lines, |lines| - 1) == Some(|lines| - 2);
    assert lines[|lines| - 1..|lines| - 1] == [];
  }

  /**
   * `get_eyeflow_version`: the version block of
   * `<ef>/log/<hd name>_log.txt`, or the string "None" when the log folder
   * or the log file is missing or the block is incomplete.
   */
  function GetEyeflowVersion(fs: Node, ef: Path, hdName: string): (r: string)
    ensures !IsDir(fs, ef + ["log"]) ==> r == "None"
    ensures !IsFile(fs, ef + ["log", hdName + "_log.txt"]) ==> r == "None"
    ensures IsDir(fs, ef + ["log"]) && IsFile(fs, ef + ["log", hdName + "_log.txt"]) ==>
      var lines := NodeAt(fs, ef + ["log", hdName + "_log.txt"]).value.lines;
      (HasTwoBars(lines) ==> Some(r) == LastBarBlock(lines)) && (!HasTwoBars(lines) ==> r == "None")
  {
    var log := ef + ["log"];
    var file := ef + ["log", hdName + "_log.txt"];
    if !IsDir(fs, log) then "None"
    else if !IsFile(fs, file) then "None"
    else
      LastBarBlockSomeIff(NodeAt(fs, file).value.lines);
      LastBarBlock(NodeAt(fs, file).value.lines).GetOr("None")
  }

  // ---------------------------------------------------------------------------
  // get_ef_folders_data
  // ---------------------------------------------------------------------------

  /** The `InputEyeFlowParams` entry of an EF record: both `None`, or both set. */
  datatype InputParams = InputParams(path: Option<Path>, content: Option<Value>)

  /** One record of `get_ef_folders_data` (the png list is not modelled). */
  datatype EfRecord = EfRecord(efFolder: Path, inputParams: InputParams)

  /** An entry `get_ef_folders_data` keeps: a directory whose name contains `_EF_`. */
  predicate KeptEf(entry: Node) {
    entry.Dir? && IsEfFolder(entry.name)
  }

  /**
   * The input parameters of one EF folder: the loaded
   * `json/InputEyeFlowParams.json` when the `json` folder is a directory,
   * the file exists and its content is truthy; `{None, None}` otherwise.
   */
  function InputParamsOf(fs: Node, ef: Path): (r: InputParams)
    ensures r.path.Some? <==> r.content.Some?
    ensures r.content.Some? ==> Truthy(r.content.value) && r.path.value == ef + ["json", "InputEyeFlowParams.json"]
    ensures r.content.Some? ==> IsDir(fs, ef + ["json"]) && LoadJson(fs, ef + ["json", "InputEyeFlowParams.json"]) == r.content
  {
    var file := ef + ["json", "InputEyeFlowParams.json"];
    if IsDir(fs, ef + ["json"]) && Exists(fs, file) then
      match LoadJson(fs, file)
      case Some(v) => if Truthy(v) then InputParams(Some(file), Some(v)) else InputParams(None, None)
      case None => InputParams(None, None)
    else InputParams(None, None)
  }

  /** The records for the first `k` entries of a listing of `folder`. */
  function EfRecords(fs: Node, folder: Path, entries: seq<Node>, k: nat): seq<EfRecord>
    requires k <= |entries|
  {
    if k == 0 then []
    else
      var e := entries[k - 1];
      EfRecords(fs, folder, entries, k - 1)
      + (if KeptEf(e) then [EfRecord(folder + [e.name], InputParamsOf(fs, folder + [e.name]))] else [])
  }

  /** Each record names an EF directory of the listing, below `folder`. */
  lemma {:induction false} EfRecordsKept(fs: Node, folder: Path, entries: seq<Node>, k: nat, rec: EfRecord)
    requires k <= |entries| && rec in EfRecords(fs, folder, entries, k)
    ensures exists e :: e in entries && KeptEf(e) && rec.efFolder == folder + [e.name]
    ensures rec.inputParams == InputParamsOf(fs, rec.efFolder)
  {
    if rec !in EfRecords(fs, folder, entries, k - 1) {
      assert entries[k - 1] in entries;
    } else {
      EfRecordsKept(fs, folder, entries, k - 1, rec);
    }
  }

  /** The part of the loop body that reads one EF folder's input parameters. */
  method ReadInputParams(fs: Node, efPath: Path) returns (params: InputParams)
    ensures params == InputParamsOf(fs, efPath)
  {
    params := InputParams(None, None);
    var json := efPath + ["json"];
    if IsDir(fs, json) {
      var inputParam := json + ["InputEyeFlowParams.json"];
      assert inputParam == efPath + ["json", "InputEyeFlowParams.json"];
      if Exists(fs, inputParam) {
        var content := LoadJson(fs, inputParam);
        if content.Some? && Truthy(content.value) {
          params := InputParams(Some(inputParam), content);
        }
      }
    }
  }

  /**
   * `get_ef_folders_data(eyeflow)`: one record per EF directory listed in
   * `eyeflow`, in listing order; nothing when `eyeflow` is not a directory.
   */
  method GetEfFoldersData(fs: Node, eyeflow: Path) returns (efData: seq<EfRecord>)
    ensures efData == EfRecords(fs, eyeflow, ListDir(fs, eyeflow), |ListDir(fs, eyeflow)|)
    ensures forall rec :: rec in efData ==> IsEfFolder(Basename(rec.efFolder))
  {
    var entries := ListDir(fs, eyeflow);
    efData := [];
    var i := 0;
    while i < |entries|
      invariant 0 <= i <= |entries|
      invariant efData == EfRecords(fs, eyeflow, entries, i)
    {
      var ef := entries[i];
      if ef.Dir? && IsEfFolder(ef.name) {
        var efPath := eyeflow + [ef.name];
        var params := ReadInputParams(fs, efPath);
        efData := efData + [EfRecord(efPath, params)];
      }
      i := i + 1;
    }
    forall rec | rec in efData ensures IsEfFolder(Basename(rec.efFolder)) {
      EfRecordsKept(fs, eyeflow, entries, |entries|, rec);
    }
  }
}
