/**
 * The scanner of `src/FileFinder/FileFinderClass.py`: the schema it
 * creates, the three row inserts, and `Findfiles`, which walks the root
 * folder and inserts one `holo_data` row per `.holo` file, one
 * `hd_render` row per HD folder rendered from it and one `ef_render` row
 * per EF folder of that HD folder, each child carrying the id its
 * parent's insert returned.
 */
module Scanner {
  import opened Wrappers
  import opened Text
  import opened PyValues
  import opened OrderedDicts
  import opened FileSystem
  import opened PathParser
  import opened FinderUtils
  import opened DataGetter
  import opened FsUtils
  import opened TableStore

  // ---------------------------------------------------------------------------
  // Schema
  // ---------------------------------------------------------------------------

  /** `holo_data`: one row per acquisition file. */
  const HoloDataColumns: seq<Column> := [
    Column("id", false, None),
    Column("path", true, None),
    Column("tag", false, None),
    Column("created_at", false, None)
  ]

  /** `hd_render`: one row per HD folder, `holo_id` referencing `holo_data (id)`. */
  const HdRenderColumns: seq<Column> := [
    Column("id", false, None),
    Column("holo_id", true, Some("holo_data")),
    Column("path", true, None),
    Column("render_number", false, None),
    Column("rendering_parameters", false, None),
    Column("version", false, None),
    Column("updated_at", false, None)
  ]

  /** `ef_render`: one row per EF folder, `hd_id` referencing `hd_render (id)`; `render_number` is NOT NULL. */
  const EfRenderColumns: seq<Column> := [
    Column("id", false, None),
    Column("hd_id", true, Some("hd_render")),
    Column("render_number", true, None),
    Column("path", true, None),
    Column("input_parameters", false, None),
    Column("version", false, None),
    Column("report_path", false, None),
    Column("updated_at", false, None)
  ]

  /** The three tables exist with the columns `CreateDB` declares. */
  predicate HasSchema(ts: Tables) {
    && "holo_data" in ts && ts["holo_data"].columns == HoloDataColumns
    && "hd_render" in ts && ts["hd_render"].columns == HdRenderColumns
    && "ef_render" in ts && ts["ef_render"].columns == EfRenderColumns
  }

  // ---------------------------------------------------------------------------
  // Rows
  // ---------------------------------------------------------------------------

  function OptText(s: Option<string>): Cell {
    if s.Some? then Text(s.value) else Null
  }

  function OptInt(n: Option<int>): Cell {
    if n.Some? then Int(n.value) else Null
  }

  function OptJson(v: Option<Value>): Cell {
    if v.Some? then Json(v.value) else Null
  }

  function OptStamp(t: Option<int>): Cell {
    if t.Some? then Stamp(t.value) else Null
  }

  /** `str(report_path) if report_path else None`: a path object is always truthy. */
  function OptPath(p: Option<Path>): Cell {
    if p.Some? then PathText(p.value) else Null
  }

  /** The data `InsertHoloFile` passes to `insert`. */
  function HoloRow(path: Path, tag: Option<string>, createdAt: Date): map<string, Cell> {
    map["path" := PathText(path), "tag" := OptText(tag), "created_at" := Day(createdAt)]
  }

  /** The data `InsertHDRender` passes to `insert`. */
  function HdRow(holoId: int, path: Path, renderNumber: Option<int>, renderingParameters: Option<Value>,
                 version: Option<string>, updatedAt: Option<int>): map<string, Cell>
  {
    map["holo_id" := Int(holoId), "path" := PathText(path), "render_number" := OptInt(renderNumber),
        "rendering_parameters" := OptJson(renderingParameters), "version" := OptText(version),
        "updated_at" := OptStamp(updatedAt)]
  }

  /** The data `InsertEFRender` passes to `insert`. */
  function EfRow(hdId: int, renderNumber: Option<int>, path: Path, inputParameters: Option<Value>,
                 version: Option<string>, reportPath: Option<Path>, updatedAt: Option<int>): map<string, Cell>
  {
    map["hd_id" := Int(hdId), "render_number" := OptInt(renderNumber), "path" := PathText(path),
        "input_parameters" := OptJson(inputParameters), "version" := OptText(version),
        "report_path" := OptPath(reportPath), "updated_at" := OptStamp(updatedAt)]
  }

  // ---------------------------------------------------------------------------
  // What Findfiles inserts, file by file
  // ---------------------------------------------------------------------------

  /**
   * The `created_at` of a `.holo` file: the date its name spells, else its
   * creation time; `None` when that time is needed and the file is gone
   * (`os.path.getctime` raises).
   */
  function HoloCreatedAt(fs: Node, holo: Path): (r: Option<Date>)
    ensures r.None? <==> FolderNameDate(holo).None? && !Exists(fs, holo)
    ensures Exists(fs, holo) ==> r == Some(ParseFolderDate(holo, NodeAt(fs, holo).value.meta.created))
    ensures FolderNameDate(holo).Some? ==> r == FolderNameDate(holo)
  {
    match FolderNameDate(holo)
    case Some(d) => Some(d)
    case None =>
      match NodeAt(fs, holo)
      case Some(n) => Some(n.meta.created)
      case None => None
  }

  /** The `holo_data` row of a `.holo` file. */
  function HoloRowOf(holo: Path, createdAt: Date): map<string, Cell> {
    HoloRow(holo, GetMeasureTag(Basename(holo)), createdAt)
  }

  /** The `hd_render` row of the HD folder `hd`, numbered `n`, under the holo row `holoId`. */
  function HdRowOf(fs: Node, holoId: int, n: nat, hd: Path): map<string, Cell> {
    HdRow(holoId, hd, Some(n), JsonDumpNullable(RenderingParams(fs, hd)),
          ReadText(fs, hd + ["version.txt"]), GetLastUpdate(fs, hd))
  }

  /** The EF records of an HD folder: those of its `eyeflow` folder, if that exists. */
  function EfsOf(fs: Node, hd: Path): seq<EfRecord> {
    var eyeflow := hd + ["eyeflow"];
    if Exists(fs, eyeflow) then EfRecords(fs, eyeflow, ListDir(fs, eyeflow), |ListDir(fs, eyeflow)|) else []
  }

  /**
   * The render number of an EF row: the number that ends the EF folder's
   * name (`SAMPLE_HD_3_EF_12` gives 12), as `get_render_number` reads it
   * from the folder's path.
   */
  function EfRenderNumber(ef: EfRecord): (r: Option<int>)
    ensures r == GetRenderNumber(Basename(ef.efFolder))
  {
    GetRenderNumber(Basename(ef.efFolder))
  }

  /**
   * The render number the scanner passes as written: `get_render_number`
   * receives the folder as a string, which has no `stem`, and the
   * AttributeError it swallows makes the number `None` for every folder.
   */
  function EfRenderNumberAsWritten(ef: EfRecord): (r: Option<int>)
    ensures r.None?
  {
    None
  }

  /**
   * Which render number the scan gives each EF row: the `None` the code as
   * written passes, or the number the folder's name ends in.
   */
  datatype Numbering = AsWritten | Corrected

  function EfNumber(num: Numbering, ef: EfRecord): Option<int> {
    match num
    case AsWritten => EfRenderNumberAsWritten(ef)
    case Corrected => EfRenderNumber(ef)
  }

  /** The `ef_render` row of one EF record of the HD folder `hd`, under the HD row `hdId`. */
  function EfRowOf(fs: Node, hdId: int, hd: Path, ef: EfRecord, renderNumber: Option<int>): map<string, Cell> {
    EfRow(hdId, renderNumber, ef.efFolder, JsonDumpNullable(ef.inputParams.content),
          Some(GetEyeflowVersion(fs, ef.efFolder, Basename(hd))), GetReportPdf(fs, ef.efFolder),
          GetLastUpdate(fs, hd))
  }

  /**
   * `rest` gives what ScanEfs gives for these EF records from any tables
   * and any position; it is tied to ScanEfs only where ScanEfs itself is
   * mentioned, so that a loop can speak of the scan still to come without
   * unfolding it.
   */
  ghost predicate EfsRest(rest: (Tables, nat) -> Scan, num: Numbering, fs: Node, hdId: nat, hd: Path, efs: seq<EfRecord>) {
    && (forall t {:trigger rest(t, |efs|)} :: rest(t, |efs|) == Scan(true, t))
    && (forall t, k: nat {:trigger ScanEfs(num, fs, t, hdId, hd, efs, k)} :: k <= |efs| ==> rest(t, k) == ScanEfs(num, fs, t, hdId, hd, efs, k))
  }

  lemma EfsRestOf(num: Numbering, fs: Node, hdId: nat, hd: Path, efs: seq<EfRecord>) returns (rest: (Tables, nat) -> Scan)
    ensures EfsRest(rest, num, fs, hdId, hd, efs)
  {
    rest := (t: Tables, k: nat) => if k <= |efs| then ScanEfs(num, fs, t, hdId, hd, efs, k) else Scan(true, t);
  }

  /** How far a scan got: `completed` is false when an exception ended it, and the tables then. */
  datatype Scan = Scan(completed: bool, tables: Tables)

  /** The EF loop from the `i`-th record on: a `None` is skipped, an exception ends the scan. */
  function ScanEfs(num: Numbering, fs: Node, ts: Tables, hdId: nat, hd: Path, efs: seq<EfRecord>, i: nat): Scan
    requires i <= |efs|
    decreases |efs| - i
  {
    if i == |efs| then Scan(true, ts)
    else
      var r := InsertInto(ts, "ef_render", EfRowOf(fs, hdId, hd, efs[i], EfNumber(num, efs[i])));
      if r.0.Raised? then Scan(false, r.1) else ScanEfs(num, fs, r.1, hdId, hd, efs, i + 1)
  }

  /** One HD folder: its row, then its EF rows under the id that insert returned. */
  function ScanHd(num: Numbering, fs: Node, ts: Tables, holoId: nat, n: nat, hd: Path): Scan {
    ScanHdRow(num, fs, ts, hd, HdRowOf(fs, holoId, n, hd))
  }

  /** The insert of the row `cells` of the HD folder `hd`, then its EF loop under the id returned. */
  function ScanHdRow(num: Numbering, fs: Node, ts: Tables, hd: Path, cells: map<string, Cell>): Scan {
    var r := InsertInto(ts, "hd_render", cells);
    match r.0
    case Raised => Scan(false, r.1)
    case NoTable => Scan(true, r.1)
    case Inserted(hdId) => ScanEfs(num, fs, r.1, hdId, hd, EfsOf(fs, hd), 0)
  }

  /** The HD loop over the dict entries from the `i`-th on. */
  function ScanHds(num: Numbering, fs: Node, ts: Tables, holoId: nat, hds: Dict<nat, Path>, i: nat): Scan
    requires i <= |hds|
    decreases |hds| - i
  {
    if i == |hds| then Scan(true, ts)
    else
      var s := ScanHd(num, fs, ts, holoId, hds[i].0, hds[i].1);
      if !s.completed then s else ScanHds(num, fs, s.tables, holoId, hds, i + 1)
  }

  /** One `.holo` file: its row, then, when the id is truthy, its HD folders under that id. */
  function ScanHolo(num: Numbering, fs: Node, ts: Tables, holo: Path): Scan {
    match HoloCreatedAt(fs, holo)
    case None => Scan(false, ts)
    case Some(createdAt) => ScanHoloRow(num, fs, ts, FindAllHdFoldersFromHolo(fs, holo), HoloRowOf(holo, createdAt))
  }

  /** The insert of the row `cells` of a `.holo` file, then, when the id is truthy, the HD loop over `hds` under that id. */
  function ScanHoloRow(num: Numbering, fs: Node, ts: Tables, hds: Dict<nat, Path>, cells: map<string, Cell>): Scan {
    var r := InsertInto(ts, "holo_data", cells);
    match r.0
    case Raised => Scan(false, r.1)
    case NoTable => Scan(true, r.1)
    case Inserted(holoId) =>
      if holoId == 0 then Scan(true, r.1)
      else ScanHds(num, fs, r.1, holoId, hds, 0)
  }

  /**
   * A scanner loop over `xs` from the `i`-th element on: each element is
   * scanned by `step`, and a step that does not complete ends the loop.
   */
  function ScanEach<T>(step: (Tables, T) -> Scan, ts: Tables, xs: seq<T>, i: nat): Scan
    requires i <= |xs|
    decreases |xs| - i
  {
    if i == |xs| then Scan(true, ts)
    else
      var s := step(ts, xs[i]);
      if !s.completed then s else ScanEach(step, s.tables, xs, i + 1)
  }

  /** The `.holo` loop from the `i`-th file on. */
  function ScanHolos(num: Numbering, fs: Node, ts: Tables, holos: seq<Path>, i: nat): Scan
    requires i <= |holos|
  {
    ScanEach((t, holo) => ScanHolo(num, fs, t, holo), ts, holos, i)
  }

  /** A root entry the scanner descends into: a directory whose name opens with six digits. */
  predicate IsDateFolder(fs: Node, p: Path) {
    CheckFolderNameFormat(p) && IsDir(fs, p)
  }

  /** The loop over the entries of the root folder from the `i`-th on. */
  function ScanDates(num: Numbering, fs: Node, ts: Tables, root: Path, entries: seq<Node>, i: nat): Scan
    requires i <= |entries|
    decreases |entries| - i
  {
    if i == |entries| then Scan(true, ts)
    else
      var dateFolder := root + [entries[i].name];
      if !IsDateFolder(fs, dateFolder) then ScanDates(num, fs, ts, root, entries, i + 1)
      else
        var holos := HoloFiles(fs, dateFolder);
        var s := ScanHolos(num, fs, ts, holos, 0);
        if !s.completed then s else ScanDates(num, fs, s.tables, root, entries, i + 1)
  }

  /** What `Findfiles(root)` does to the tables, and whether it finishes. */
  function FindfilesSpec(num: Numbering, fs: Node, ts: Tables, root: Path): Scan {
    ScanDates(num, fs, ts, root, ListDir(fs, root), 0)
  }

  // ---------------------------------------------------------------------------
  // The insertion discipline
  // ---------------------------------------------------------------------------

  /** Every row added to `table` between `ts` and `ts'` holds `v` in column `col`. */
  predicate AddedCarry(ts: Tables, ts': Tables, table: string, col: string, v: Cell) {
    table in ts && table in ts' ==>
      forall j :: |ts[table].rows| <= j < |ts'[table].rows| ==>
        col in ts'[table].rows[j].cells && ts'[table].rows[j].cells[col] == v
  }

  /** Only the tables in `names` differ between `ts` and `ts'`. */
  predicate OnlyTouches(ts: Tables, ts': Tables, names: set<string>) {
    forall n :: n in ts && n !in names ==> n in ts' && ts'[n] == ts[n]
  }

  /** The store invariants carry over from `ts` to `ts'`. */
  predicate KeepsInvariants(ts: Tables, ts': Tables) {
    && (WellFormed(ts) ==> WellFormed(ts'))
    && (RefClosed(ts) ==> RefClosed(ts'))
  }

  lemma InsertKeeps(ts: Tables, name: string, cells: map<string, Cell>)
    ensures Grows(ts, InsertInto(ts, name, cells).1)
    ensures OnlyTouches(ts, InsertInto(ts, name, cells).1, {name})
    ensures KeepsInvariants(ts, InsertInto(ts, name, cells).1)
  {
    InsertGrows(ts, name, cells);
    if WellFormed(ts) {
      InsertWellFormed(ts, name, cells);
    }
    if RefClosed(ts) {
      InsertRefClosed(ts, name, cells);
    }
  }

  /** Carried values survive a later step that keeps the rows seen so far. */
  lemma AddedCarryTrans(a: Tables, b: Tables, c: Tables, table: string, col: string, v: Cell)
    requires Grows(a, b) && Grows(b, c)
    requires AddedCarry(a, b, table, col, v) && AddedCarry(b, c, table, col, v)
    ensures AddedCarry(a, c, table, col, v)
  {
    if table in a {
      forall j | |a[table].rows| <= j < |c[table].rows|
        ensures col in c[table].rows[j].cells && c[table].rows[j].cells[col] == v
      {
        if j < |b[table].rows| {
          assert c[table].rows[j] == b[table].rows[j];
        }
      }
    }
  }

  /** An insert of a row holding `v` in `col` adds only rows carrying it. */
  lemma InsertCarry(ts: Tables, name: string, cells: map<string, Cell>, col: string, v: Cell)
    requires col in cells && cells[col] == v
    ensures AddedCarry(ts, InsertInto(ts, name, cells).1, name, col, v)
  {
  }

  lemma EfRowHdId(fs: Node, hdId: int, hd: Path, ef: EfRecord, renderNumber: Option<int>)
    ensures "hd_id" in EfRowOf(fs, hdId, hd, ef, renderNumber)
    ensures EfRowOf(fs, hdId, hd, ef, renderNumber)["hd_id"] == Int(hdId)
  {
  }

  /**
   * The EF loop adds rows to `ef_render` only, each with `hd_id` equal to
   * the id of the HD row it runs under; earlier rows stay in place, also
   * when an insert in between came back `None`.
   */
  lemma {:induction false} ScanEfsRows(num: Numbering, fs: Node, ts: Tables, hdId: nat, hd: Path, efs: seq<EfRecord>, i: nat)
    requires i <= |efs|
    ensures var s := ScanEfs(num, fs, ts, hdId, hd, efs, i);
      && Grows(ts, s.tables) && OnlyTouches(ts, s.tables, {"ef_render"}) && KeepsInvariants(ts, s.tables)
      && AddedCarry(ts, s.tables, "ef_render", "hd_id", Int(hdId))
    decreases |efs| - i
  {
    if i < |efs| {
      var cells := EfRowOf(fs, hdId, hd, efs[i], EfNumber(num, efs[i]));
      var r := InsertInto(ts, "ef_render", cells);
      InsertKeeps(ts, "ef_render", cells);
      EfRowHdId(fs, hdId, hd, efs[i], EfNumber(num, efs[i]));
      InsertCarry(ts, "ef_render", cells, "hd_id", Int(hdId));
      if !r.0.Raised? {
        ScanEfsRows(num, fs, r.1, hdId, hd, efs, i + 1);
        var s := ScanEfs(num, fs, r.1, hdId, hd, efs, i + 1);
        assert ScanEfs(num, fs, ts, hdId, hd, efs, i) == s;
        GrowsTrans(ts, r.1, s.tables);
        AddedCarryTrans(ts, r.1, s.tables, "ef_render", "hd_id", Int(hdId));
      } else {
        assert ScanEfs(num, fs, ts, hdId, hd, efs, i) == Scan(false, r.1);
      }
    }
  }

  /**
   * One HD folder: when its insert gives no id, nothing at all is added
   * (no EF row either); when it gives an id, `hd_render` gains exactly its
   * row, under that id and carrying the holo id it was given, and every
   * `ef_render` row added carries that same id as `hd_id`.
   */
  lemma ScanHdRows(num: Numbering, fs: Node, ts: Tables, holoId: nat, n: nat, hd: Path)
    ensures var s := ScanHd(num, fs, ts, holoId, n, hd);
      && Grows(ts, s.tables) && OnlyTouches(ts, s.tables, {"hd_render", "ef_render"}) && KeepsInvariants(ts, s.tables)
      && AddedCarry(ts, s.tables, "hd_render", "holo_id", Int(holoId))
    ensures var r := InsertInto(ts, "hd_render", HdRowOf(fs, holoId, n, hd));
      var s := ScanHd(num, fs, ts, holoId, n, hd);
      && (!r.0.Inserted? ==> s.tables == ts)
      && (r.0.Inserted? ==>
            && s.tables["hd_render"].rows == ts["hd_render"].rows + [Row(r.0.id, HdRowOf(fs, holoId, n, hd))]
            && AddedCarry(ts, s.tables, "ef_render", "hd_id", Int(r.0.id)))
  {
    HdRowHoloId(fs, holoId, n, hd);
    ScanHdRowRows(num, fs, ts, hd, HdRowOf(fs, holoId, n, hd), Int(holoId));
  }

  lemma ScanHdRowRows(num: Numbering, fs: Node, ts: Tables, hd: Path, cells: map<string, Cell>, holoId: Cell)
    requires "holo_id" in cells && cells["holo_id"] == holoId
    ensures var s := ScanHdRow(num, fs, ts, hd, cells);
      && Grows(ts, s.tables) && OnlyTouches(ts, s.tables, {"hd_render", "ef_render"}) && KeepsInvariants(ts, s.tables)
      && AddedCarry(ts, s.tables, "hd_render", "holo_id", holoId)
    ensures var r := InsertInto(ts, "hd_render", cells);
      var s := ScanHdRow(num, fs, ts, hd, cells);
      && (!r.0.Inserted? ==> s.tables == ts)
      && (r.0.Inserted? ==>
            && s.tables["hd_render"].rows == ts["hd_render"].rows + [Row(r.0.id, cells)]
            && AddedCarry(ts, s.tables, "ef_render", "hd_id", Int(r.0.id)))
  {
    var r := InsertInto(ts, "hd_render", cells);
    InsertKeeps(ts, "hd_render", cells);
    InsertCarry(ts, "hd_render", cells, "holo_id", holoId);
    if r.0.Inserted? {
      var efs := EfsOf(fs, hd);
      ScanEfsRows(num, fs, r.1, r.0.id, hd, efs, 0);
      var s := ScanEfs(num, fs, r.1, r.0.id, hd, efs, 0);
      assert ScanHdRow(num, fs, ts, hd, cells) == s;
      GrowsTrans(ts, r.1, s.tables);
      assert s.tables["hd_render"] == r.1["hd_render"];
      assert AddedCarry(r.1, s.tables, "hd_render", "holo_id", holoId);
      AddedCarryTrans(ts, r.1, s.tables, "hd_render", "holo_id", holoId);
      assert "ef_render" in ts ==> ts["ef_render"] == r.1["ef_render"];
    } else {
      assert ScanHdRow(num, fs, ts, hd, cells).tables == ts;
    }
  }

  lemma HdRowHoloId(fs: Node, holoId: int, n: nat, hd: Path)
    ensures "holo_id" in HdRowOf(fs, holoId, n, hd)
    ensures HdRowOf(fs, holoId, n, hd)["holo_id"] == Int(holoId)
  {
  }

  /** The HD loop adds `hd_render` rows that all carry the holo id it runs under. */
  lemma {:induction false} ScanHdsRows(num: Numbering, fs: Node, ts: Tables, holoId: nat, hds: Dict<nat, Path>, i: nat)
    requires i <= |hds|
    ensures var s := ScanHds(num, fs, ts, holoId, hds, i);
      && Grows(ts, s.tables) && OnlyTouches(ts, s.tables, {"hd_render", "ef_render"}) && KeepsInvariants(ts, s.tables)
      && AddedCarry(ts, s.tables, "hd_render", "holo_id", Int(holoId))
    decreases |hds| - i
  {
    if i < |hds| {
      ScanHdRows(num, fs, ts, holoId, hds[i].0, hds[i].1);
      var s1 := ScanHd(num, fs, ts, holoId, hds[i].0, hds[i].1);
      if s1.completed {
        ScanHdsRows(num, fs, s1.tables, holoId, hds, i + 1);
        var s := ScanHds(num, fs, s1.tables, holoId, hds, i + 1);
        GrowsTrans(ts, s1.tables, s.tables);
        AddedCarryTrans(ts, s1.tables, s.tables, "hd_render", "holo_id", Int(holoId));
      }
    }
  }

  /**
   * One `.holo` file: when its insert gives no id (or the creation time it
   * needs cannot be read), no row at all is added, so no HD or EF row
   * either; when it gives an id, `holo_data` gains exactly its row under
   * that id, and every `hd_render` row added carries that id as `holo_id`.
   */
  lemma ScanHoloRows(num: Numbering, fs: Node, ts: Tables, holo: Path)
    ensures HoloCreatedAt(fs, holo).None? ==> ScanHolo(num, fs, ts, holo) == Scan(false, ts)
    ensures HoloCreatedAt(fs, holo).Some? ==>
      var cells := HoloRowOf(holo, HoloCreatedAt(fs, holo).value);
      var r := InsertInto(ts, "holo_data", cells);
      var s := ScanHolo(num, fs, ts, holo);
      && (!r.0.Inserted? ==> s.tables == ts)
      && (r.0.Inserted? ==>
            && "holo_data" in s.tables && s.tables["holo_data"].rows == ts["holo_data"].rows + [Row(r.0.id, cells)]
            && AddedCarry(ts, s.tables, "hd_render", "holo_id", Int(r.0.id)))
  {
    if HoloCreatedAt(fs, holo).Some? {
      ScanHoloRowRows(num, fs, ts, FindAllHdFoldersFromHolo(fs, holo), HoloRowOf(holo, HoloCreatedAt(fs, holo).value));
    }
  }

  /** One `.holo` file's scan only appends, to the three scanned tables, keeping the store's invariants. */
  lemma ScanHoloFrame(num: Numbering, fs: Node, ts: Tables, holo: Path)
    ensures var s := ScanHolo(num, fs, ts, holo);
      && Grows(ts, s.tables) && KeepsInvariants(ts, s.tables)
      && OnlyTouches(ts, s.tables, {"holo_data", "hd_render", "ef_render"})
  {
    if HoloCreatedAt(fs, holo).Some? {
      ScanHoloRowFrame(num, fs, ts, FindAllHdFoldersFromHolo(fs, holo), HoloRowOf(holo, HoloCreatedAt(fs, holo).value));
    }
  }

  lemma ScanHoloRowFrame(num: Numbering, fs: Node, ts: Tables, hds: Dict<nat, Path>, cells: map<string, Cell>)
    ensures var s := ScanHoloRow(num, fs, ts, hds, cells);
      && Grows(ts, s.tables) && KeepsInvariants(ts, s.tables)
      && OnlyTouches(ts, s.tables, {"holo_data", "hd_render", "ef_render"})
  {
    var r := InsertInto(ts, "holo_data", cells);
    InsertKeeps(ts, "holo_data", cells);
    if r.0.Inserted? && r.0.id != 0 {
      ScanHdsRows(num, fs, r.1, r.0.id, hds, 0);
      var s := ScanHds(num, fs, r.1, r.0.id, hds, 0);
      assert ScanHoloRow(num, fs, ts, hds, cells) == s;
      GrowsTrans(ts, r.1, s.tables);
    }
  }

  lemma ScanHoloRowRows(num: Numbering, fs: Node, ts: Tables, hds: Dict<nat, Path>, cells: map<string, Cell>)
    ensures var r := InsertInto(ts, "holo_data", cells);
      var s := ScanHoloRow(num, fs, ts, hds, cells);
      && (!r.0.Inserted? ==> s.tables == ts)
      && (r.0.Inserted? ==>
            && "holo_data" in s.tables && s.tables["holo_data"].rows == ts["holo_data"].rows + [Row(r.0.id, cells)]
            && AddedCarry(ts, s.tables, "hd_render", "holo_id", Int(r.0.id)))
  {
    var r := InsertInto(ts, "holo_data", cells);
    if r.0.Inserted? {
      assert "hd_render" in ts ==> ts["hd_render"] == r.1["hd_render"];
      if r.0.id != 0 {
        ScanHdsRows(num, fs, r.1, r.0.id, hds, 0);
        var s := ScanHds(num, fs, r.1, r.0.id, hds, 0);
        assert ScanHoloRow(num, fs, ts, hds, cells) == s;
        assert s.tables["holo_data"] == r.1["holo_data"];
      } else {
        assert ScanHoloRow(num, fs, ts, hds, cells) == Scan(true, r.1);
      }
    } else {
      assert ScanHoloRow(num, fs, ts, hds, cells).tables == ts;
    }
  }

  // ---------------------------------------------------------------------------
  // Which .holo files get a row
  // ---------------------------------------------------------------------------

  /** Every row added to `table` between `ts` and `ts'` satisfies `P`. */
  predicate AddedRowsAll(ts: Tables, ts': Tables, table: string, P: map<string, Cell> -> bool) {
    table in ts && table in ts' ==>
      forall j :: |ts[table].rows| <= j < |ts'[table].rows| ==> P(ts'[table].rows[j].cells)
  }

  lemma AddedRowsAllTrans(a: Tables, b: Tables, c: Tables, table: string, P: map<string, Cell> -> bool)
    requires Grows(a, b) && Grows(b, c)
    requires AddedRowsAll(a, b, table, P) && AddedRowsAll(b, c, table, P)
    ensures AddedRowsAll(a, c, table, P)
  {
    if table in a {
      forall j | |a[table].rows| <= j < |c[table].rows| ensures P(c[table].rows[j].cells) {
        if j < |b[table].rows| {
          assert c[table].rows[j] == b[table].rows[j];
        }
      }
    }
  }

  /** The `path` of a `holo_data` row is one of `holos`. */
  predicate PathIn(cells: map<string, Cell>, holos: seq<Path>) {
    "path" in cells && cells["path"].PathText? && cells["path"].p in holos
  }

  /** A `.holo` file in a date folder of `root`, reached without entering an `_HD_` directory. */
  predicate DatedHoloPath(fs: Node, root: Path, q: Path) {
    && |q| > |root| + 1 && q[..|root|] == root
    && IsDateFolder(fs, q[..|root| + 1])
    && IsHoloName(Basename(q))
    && forall k :: |root| + 1 <= k < |q| - 1 ==> !Contains(q[k], "_HD_")
  }

  predicate DatedPath(fs: Node, root: Path, cells: map<string, Cell>) {
    "path" in cells && cells["path"].PathText? && DatedHoloPath(fs, root, cells["path"].p)
  }

  /** One `.holo` file's scan adds at most its own `holo_data` row. */
  lemma ScanHoloPath(num: Numbering, fs: Node, ts: Tables, holo: Path, holos: seq<Path>)
    requires holo in holos
    ensures AddedRowsAll(ts, ScanHolo(num, fs, ts, holo).tables, "holo_data", c => PathIn(c, holos))
  {
    ScanHoloRows(num, fs, ts, holo);
    if HoloCreatedAt(fs, holo).Some? {
      var cells := HoloRowOf(holo, HoloCreatedAt(fs, holo).value);
      assert cells["path"] == PathText(holo);
    }
  }

  /** `ts'` extends `ts` without touching the tables outside `names`, keeping the store's invariants. */
  predicate Framed(ts: Tables, ts': Tables, names: set<string>) {
    Grows(ts, ts') && KeepsInvariants(ts, ts') && OnlyTouches(ts, ts', names)
  }

  lemma FramedTrans(a: Tables, b: Tables, c: Tables, names: set<string>)
    requires Framed(a, b, names) && Framed(b, c, names)
    ensures Framed(a, c, names)
  {
    GrowsTrans(a, b, c);
  }

  /** A loop whose every step is framed by `names` is framed by `names`. */
  lemma {:induction false} ScanEachFramed<T>(step: (Tables, T) -> Scan, ts: Tables, xs: seq<T>, i: nat, names: set<string>)
    requires i <= |xs|
    requires forall t, k :: i <= k < |xs| ==> Framed(t, step(t, xs[k]).tables, names)
    ensures Framed(ts, ScanEach(step, ts, xs, i).tables, names)
    decreases |xs| - i
  {
    if i < |xs| {
      var s1 := step(ts, xs[i]);
      assert Framed(ts, s1.tables, names);
      if s1.completed {
        ScanEachFramed(step, s1.tables, xs, i + 1, names);
        FramedTrans(ts, s1.tables, ScanEach(step, s1.tables, xs, i + 1).tables, names);
      }
    } else {
      GrowsRefl(ts);
    }
  }

  /**
   * A loop whose every step only grows the tables and adds rows of `table`
   * satisfying `P` adds only such rows.
   */
  lemma {:induction false} ScanEachAdds<T>(step: (Tables, T) -> Scan, ts: Tables, xs: seq<T>, i: nat,
                                           table: string, P: map<string, Cell> -> bool)
    requires i <= |xs|
    requires forall t, k :: i <= k < |xs| ==>
      Grows(t, step(t, xs[k]).tables) && AddedRowsAll(t, step(t, xs[k]).tables, table, P)
    ensures Grows(ts, ScanEach(step, ts, xs, i).tables)
    ensures AddedRowsAll(ts, ScanEach(step, ts, xs, i).tables, table, P)
    decreases |xs| - i
  {
    if i < |xs| {
      var s1 := step(ts, xs[i]);
      assert Grows(ts, s1.tables) && AddedRowsAll(ts, s1.tables, table, P);
      if s1.completed {
        ScanEachAdds(step, s1.tables, xs, i + 1, table, P);
        var s := ScanEach(step, s1.tables, xs, i + 1);
        GrowsTrans(ts, s1.tables, s.tables);
        AddedRowsAllTrans(ts, s1.tables, s.tables, table, P);
      }
    } else {
      GrowsRefl(ts);
    }
  }

  /** The `.holo` loop only appends, to the three scanned tables, keeping the store's invariants. */
  lemma ScanHolosFrame(num: Numbering, fs: Node, ts: Tables, holos: seq<Path>, i: nat)
    requires i <= |holos|
    ensures var s := ScanHolos(num, fs, ts, holos, i);
      && Grows(ts, s.tables) && KeepsInvariants(ts, s.tables)
      && OnlyTouches(ts, s.tables, {"holo_data", "hd_render", "ef_render"})
  {
    var step := (t, holo) => ScanHolo(num, fs, t, holo);
    forall t, k | i <= k < |holos| ensures Framed(t, step(t, holos[k]).tables, {"holo_data", "hd_render", "ef_render"}) {
      ScanHoloFrame(num, fs, t, holos[k]);
    }
    ScanEachFramed(step, ts, holos, i, {"holo_data", "hd_render", "ef_render"});
  }

  /** The `.holo` loop adds `holo_data` rows only for the files it is given. */
  lemma ScanHolosRows(num: Numbering, fs: Node, ts: Tables, holos: seq<Path>, i: nat)
    requires i <= |holos|
    ensures AddedRowsAll(ts, ScanHolos(num, fs, ts, holos, i).tables, "holo_data", c => PathIn(c, holos))
  {
    var step := (t, holo) => ScanHolo(num, fs, t, holo);
    var P := c => PathIn(c, holos);
    forall t, k | i <= k < |holos|
      ensures Grows(t, step(t, holos[k]).tables) && AddedRowsAll(t, step(t, holos[k]).tables, "holo_data", P)
    {
      ScanHoloFrame(num, fs, t, holos[k]);
      ScanHoloPath(num, fs, t, holos[k], holos);
    }
    ScanEachAdds(step, ts, holos, i, "holo_data", P);
  }

  /** The root loop only appends, keeping the store's invariants. */
  lemma {:induction false} ScanDatesFrame(num: Numbering, fs: Node, ts: Tables, root: Path, entries: seq<Node>, i: nat)
    requires i <= |entries|
    ensures var s := ScanDates(num, fs, ts, root, entries, i);
      Grows(ts, s.tables) && KeepsInvariants(ts, s.tables)
    decreases |entries| - i
  {
    if i < |entries| {
      var dateFolder := root + [entries[i].name];
      if !IsDateFolder(fs, dateFolder) {
        ScanDatesFrame(num, fs, ts, root, entries, i + 1);
      } else {
        var holos := HoloFiles(fs, dateFolder);
        ScanHolosFrame(num, fs, ts, holos, 0);
        var s1 := ScanHolos(num, fs, ts, holos, 0);
        if s1.completed {
          ScanDatesFrame(num, fs, s1.tables, root, entries, i + 1);
          var s := ScanDates(num, fs, s1.tables, root, entries, i + 1);
          GrowsTrans(ts, s1.tables, s.tables);
        }
      }
    }
  }

  /** The `.holo` files of a date folder are dated `.holo` paths of the root. */
  lemma DateFolderPaths(fs: Node, ts: Tables, ts': Tables, root: Path, name: string)
    requires IsDateFolder(fs, root + [name])
    requires AddedRowsAll(ts, ts', "holo_data", c => PathIn(c, HoloFiles(fs, root + [name])))
    ensures AddedRowsAll(ts, ts', "holo_data", c => DatedPath(fs, root, c))
  {
    var dateFolder := root + [name];
    if "holo_data" in ts && "holo_data" in ts' {
      forall j | |ts["holo_data"].rows| <= j < |ts'["holo_data"].rows|
        ensures DatedPath(fs, root, ts'["holo_data"].rows[j].cells)
      {
        assert PathIn(ts'["holo_data"].rows[j].cells, HoloFiles(fs, dateFolder));
        var q := ts'["holo_data"].rows[j].cells["path"].p;
        HoloFilesShape(fs, dateFolder, q);
        assert q[..|root| + 1] == dateFolder by {
          assert q[..|root| + 1] == q[..|dateFolder|];
        }
        assert q[..|root|] == q[..|dateFolder|][..|root|];
      }
    }
  }

  /**
   * The loop over the root's entries adds `holo_data` rows only for `.holo`
   * files inside the entries it does not skip: directories whose names
   * open with six digits.
   */
  lemma {:induction false} ScanDatesRows(num: Numbering, fs: Node, ts: Tables, root: Path, entries: seq<Node>, i: nat)
    requires i <= |entries|
    ensures AddedRowsAll(ts, ScanDates(num, fs, ts, root, entries, i).tables, "holo_data", c => DatedPath(fs, root, c))
    decreases |entries| - i
  {
    if i < |entries| {
      var P := c => DatedPath(fs, root, c);
      var dateFolder := root + [entries[i].name];
      if !IsDateFolder(fs, dateFolder) {
        ScanDatesRows(num, fs, ts, root, entries, i + 1);
      } else {
        var holos := HoloFiles(fs, dateFolder);
        ScanHolosRows(num, fs, ts, holos, 0);
        var s1 := ScanHolos(num, fs, ts, holos, 0);
        DateFolderPaths(fs, ts, s1.tables, root, entries[i].name);
        if s1.completed {
          ScanHolosFrame(num, fs, ts, holos, 0);
          ScanDatesFrame(num, fs, s1.tables, root, entries, i + 1);
          ScanDatesRows(num, fs, s1.tables, root, entries, i + 1);
          var s := ScanDates(num, fs, s1.tables, root, entries, i + 1);
          AddedRowsAllTrans(ts, s1.tables, s.tables, "holo_data", P);
        }
      }
    }
  }

  /**
   * `Findfiles` only appends rows, keeps ids well formed and references
   * resolvable, and adds a `holo_data` row only for a `.holo` file found
   * in a root entry that is a directory named with a six-digit prefix.
   */
  lemma FindfilesRows(num: Numbering, fs: Node, ts: Tables, root: Path)
    ensures var s := FindfilesSpec(num, fs, ts, root);
      && Grows(ts, s.tables) && KeepsInvariants(ts, s.tables)
      && AddedRowsAll(ts, s.tables, "holo_data", c => DatedPath(fs, root, c))
  {
    ScanDatesFrame(num, fs, ts, root, ListDir(fs, root), 0);
    ScanDatesRows(num, fs, ts, root, ListDir(fs, root), 0);
  }

  // ---------------------------------------------------------------------------
  // Which inserts sqlite accepts
  // ---------------------------------------------------------------------------

  /** Under the schema, a `.holo` row is always accepted. */
  lemma HoloInsertAccepted(ts: Tables, holo: Path, createdAt: Date)
    requires HasSchema(ts)
    ensures InsertInto(ts, "holo_data", HoloRowOf(holo, createdAt)).0.Inserted?
  {
    HoloRowAccepted(ts, holo, GetMeasureTag(Basename(holo)), createdAt);
  }

  lemma HoloRowAccepted(ts: Tables, path: Path, tag: Option<string>, createdAt: Date)
    requires HasSchema(ts)
    ensures InsertInto(ts, "holo_data", HoloRow(path, tag, createdAt)).0.Inserted?
  {
    var cells := HoloRow(path, tag, createdAt);
    assert ColumnNames(HoloDataColumns) == ["id", "path", "tag", "created_at"];
    assert cells.Keys == {"path", "tag", "created_at"};
  }

  /** Under the schema, an HD row is accepted exactly when it names an existing `.holo` row. */
  lemma HdInsertAccepted(fs: Node, ts: Tables, holoId: nat, n: nat, hd: Path)
    requires HasSchema(ts)
    ensures InsertInto(ts, "hd_render", HdRowOf(fs, holoId, n, hd)).0.Inserted? <==> HasRow(ts, "holo_data", holoId)
  {
    HdRowAccepted(ts, holoId, hd, Some(n), JsonDumpNullable(RenderingParams(fs, hd)),
                  ReadText(fs, hd + ["version.txt"]), GetLastUpdate(fs, hd));
  }

  lemma HdRowAccepted(ts: Tables, holoId: int, path: Path, renderNumber: Option<int>, renderingParameters: Option<Value>,
                      version: Option<string>, updatedAt: Option<int>)
    requires HasSchema(ts)
    ensures InsertInto(ts, "hd_render", HdRow(holoId, path, renderNumber, renderingParameters, version, updatedAt)).0.Inserted?
      <==> HasRow(ts, "holo_data", holoId)
  {
    var cells := HdRow(holoId, path, renderNumber, renderingParameters, version, updatedAt);
    HdRowDeclared(holoId, path, renderNumber, renderingParameters, version, updatedAt);
    HdRowChecks(ts, holoId, path, renderNumber, renderingParameters, version, updatedAt);
    assert Accepts(ts, ts["hd_render"], cells) <==> HasRow(ts, "holo_data", holoId);
  }

  /** Every column an HD row names is declared. */
  lemma HdRowDeclared(holoId: int, path: Path, renderNumber: Option<int>, renderingParameters: Option<Value>,
                      version: Option<string>, updatedAt: Option<int>)
    ensures forall k :: k in HdRow(holoId, path, renderNumber, renderingParameters, version, updatedAt) ==>
      k in ColumnNames(HdRenderColumns)
  {
    assert ColumnNames(HdRenderColumns) ==
      ["id", "holo_id", "path", "render_number", "rendering_parameters", "version", "updated_at"];
  }

  /** The column checks of an HD row come down to its `.holo` row existing. */
  lemma HdRowChecks(ts: Tables, holoId: int, path: Path, renderNumber: Option<int>, renderingParameters: Option<Value>,
                    version: Option<string>, updatedAt: Option<int>)
    ensures var cells := HdRow(holoId, path, renderNumber, renderingParameters, version, updatedAt);
      (forall i :: 0 <= i < |HdRenderColumns| ==> ColumnAccepts(ts, HdRenderColumns[i], cells))
        <==> HasRow(ts, "holo_data", holoId)
  {
    var cells := HdRow(holoId, path, renderNumber, renderingParameters, version, updatedAt);
    assert ColumnAccepts(ts, HdRenderColumns[1], cells) <==> HasRow(ts, "holo_data", holoId);
  }

  /**
   * Under the schema, an EF row under an existing HD row raises exactly
   * when its render number is missing: `render_number` is NOT NULL.
   */
  lemma EfInsertOutcome(fs: Node, ts: Tables, hdId: nat, hd: Path, ef: EfRecord, renderNumber: Option<int>)
    requires HasSchema(ts) && HasRow(ts, "hd_render", hdId)
    ensures var r := InsertInto(ts, "ef_render", EfRowOf(fs, hdId, hd, ef, renderNumber));
      && (r.0.Raised? <==> renderNumber.None?)
      && (!r.0.Raised? ==> r.0.Inserted?)
  {
    EfRowAccepted(ts, hdId, renderNumber, ef.efFolder, JsonDumpNullable(ef.inputParams.content),
                  Some(GetEyeflowVersion(fs, ef.efFolder, Basename(hd))), GetReportPdf(fs, ef.efFolder),
                  GetLastUpdate(fs, hd));
  }

  lemma EfRowAccepted(ts: Tables, hdId: int, renderNumber: Option<int>, path: Path, inputParameters: Option<Value>,
                      version: Option<string>, reportPath: Option<Path>, updatedAt: Option<int>)
    requires HasSchema(ts) && HasRow(ts, "hd_render", hdId)
    ensures var r := InsertInto(ts, "ef_render", EfRow(hdId, renderNumber, path, inputParameters, version, reportPath, updatedAt));
      && (r.0.Raised? <==> renderNumber.None?)
      && (!r.0.Raised? ==> r.0.Inserted?)
  {
    var cells := EfRow(hdId, renderNumber, path, inputParameters, version, reportPath, updatedAt);
    EfRowDeclared(hdId, renderNumber, path, inputParameters, version, reportPath, updatedAt);
    EfRowChecks(ts, hdId, renderNumber, path, inputParameters, version, reportPath, updatedAt);
    assert Accepts(ts, ts["ef_render"], cells) <==> renderNumber.Some?;
  }

  /** Every column an EF row names is declared. */
  lemma EfRowDeclared(hdId: int, renderNumber: Option<int>, path: Path, inputParameters: Option<Value>,
                      version: Option<string>, reportPath: Option<Path>, updatedAt: Option<int>)
    ensures forall k :: k in EfRow(hdId, renderNumber, path, inputParameters, version, reportPath, updatedAt) ==>
      k in ColumnNames(EfRenderColumns)
  {
    assert ColumnNames(EfRenderColumns) ==
      ["id", "hd_id", "render_number", "path", "input_parameters", "version", "report_path", "updated_at"];
  }

  /** Under an existing HD row, the column checks of an EF row come down to its render number. */
  lemma EfRowChecks(ts: Tables, hdId: int, renderNumber: Option<int>, path: Path, inputParameters: Option<Value>,
                    version: Option<string>, reportPath: Option<Path>, updatedAt: Option<int>)
    requires HasRow(ts, "hd_render", hdId)
    ensures var cells := EfRow(hdId, renderNumber, path, inputParameters, version, reportPath, updatedAt);
      (forall i :: 0 <= i < |EfRenderColumns| ==> ColumnAccepts(ts, EfRenderColumns[i], cells))
        <==> renderNumber.Some?
  {
    var cells := EfRow(hdId, renderNumber, path, inputParameters, version, reportPath, updatedAt);
    assert ColumnAccepts(ts, EfRenderColumns[2], cells) <==> renderNumber.Some?;
  }

  /**
   * As written, every EF insert raises: the render number passed is
   * `None` and the column is NOT NULL, so the first EF folder met ends
   * the whole scan.
   */
  lemma AsWrittenEfInsertRaises(fs: Node, ts: Tables, hdId: nat, hd: Path, ef: EfRecord)
    requires "ef_render" in ts && ts["ef_render"].columns == EfRenderColumns
    ensures InsertInto(ts, "ef_render", EfRowOf(fs, hdId, hd, ef, EfRenderNumberAsWritten(ef))).0.Raised?
  {
    var cells := EfRowOf(fs, hdId, hd, ef, EfRenderNumberAsWritten(ef));
    assert !ColumnAccepts(ts, EfRenderColumns[2], cells);
  }

  /** One EF insert under an existing HD row: it raises exactly when the name has no number, and otherwise adds one row. */
  lemma EfStep(fs: Node, ts: Tables, hdId: nat, hd: Path, ef: EfRecord)
    requires HasSchema(ts) && HasRow(ts, "hd_render", hdId)
    ensures var r := InsertInto(ts, "ef_render", EfRowOf(fs, hdId, hd, ef, EfRenderNumber(ef)));
      && (r.0.Raised? <==> EfRenderNumber(ef).None?)
      && (!r.0.Raised? ==>
            && HasSchema(r.1) && HasRow(r.1, "hd_render", hdId)
            && |r.1["ef_render"].rows| == |ts["ef_render"].rows| + 1)
  {
    var cells := EfRowOf(fs, hdId, hd, ef, EfRenderNumber(ef));
    var r := InsertInto(ts, "ef_render", cells);
    EfInsertOutcome(fs, ts, hdId, hd, ef, EfRenderNumber(ef));
    InsertGrows(ts, "ef_render", cells);
    if !r.0.Raised? {
      GrowsHasRow(ts, r.1, "hd_render", hdId);
    }
  }

  /**
   * With the render number read from the folder's name, the EF loop under
   * an existing HD row finishes exactly when every remaining EF folder's
   * name ends in a number, and it then adds one `ef_render` row per folder.
   */
  lemma {:induction false} ScanEfsCompletes(fs: Node, ts: Tables, hdId: nat, hd: Path, efs: seq<EfRecord>, i: nat)
    requires i <= |efs|
    requires HasSchema(ts) && HasRow(ts, "hd_render", hdId)
    ensures var s := ScanEfs(Corrected, fs, ts, hdId, hd, efs, i);
      && (s.completed <==> forall k :: i <= k < |efs| ==> EfRenderNumber(efs[k]).Some?)
      && (s.completed ==> "ef_render" in s.tables && |s.tables["ef_render"].rows| == |ts["ef_render"].rows| + |efs| - i)
    decreases |efs| - i
  {
    if i < |efs| {
      var r := InsertInto(ts, "ef_render", EfRowOf(fs, hdId, hd, efs[i], EfRenderNumber(efs[i])));
      EfStep(fs, ts, hdId, hd, efs[i]);
      if r.0.Raised? {
        assert ScanEfs(Corrected, fs, ts, hdId, hd, efs, i) == Scan(false, r.1);
        assert !EfRenderNumber(efs[i]).Some?;
      } else {
        ScanEfsCompletes(fs, r.1, hdId, hd, efs, i + 1);
        assert ScanEfs(Corrected, fs, ts, hdId, hd, efs, i) == ScanEfs(Corrected, fs, r.1, hdId, hd, efs, i + 1);
        assert (forall k :: i <= k < |efs| ==> EfRenderNumber(efs[k]).Some?) <==>
               (forall k :: i + 1 <= k < |efs| ==> EfRenderNumber(efs[k]).Some?);
      }
    } else {
      assert ScanEfs(Corrected, fs, ts, hdId, hd, efs, i) == Scan(true, ts);
    }
  }

  /**
   * Under the schema, an HD folder of an existing `.holo` row is scanned to
   * the end exactly when every EF folder it holds has a numbered name.
   */
  lemma ScanHdCompletes(fs: Node, ts: Tables, holoId: nat, n: nat, hd: Path)
    requires HasSchema(ts) && WellFormed(ts) && HasRow(ts, "holo_data", holoId)
    ensures ScanHd(Corrected, fs, ts, holoId, n, hd).completed <==>
      forall k :: 0 <= k < |EfsOf(fs, hd)| ==> EfRenderNumber(EfsOf(fs, hd)[k]).Some?
  {
    var cells := HdRowOf(fs, holoId, n, hd);
    HdInsertAccepted(fs, ts, holoId, n, hd);
    var r := InsertInto(ts, "hd_render", cells);
    InsertFreshId(ts, "hd_render", cells);
    InsertGrows(ts, "hd_render", cells);
    ScanEfsCompletes(fs, r.1, r.0.id, hd, EfsOf(fs, hd), 0);
  }

  // ---------------------------------------------------------------------------
  // The scan as written
  // ---------------------------------------------------------------------------

  /** `ef_render` exists with the columns `CreateDB` declares. */
  predicate HasEfTable(ts: Tables) {
    "ef_render" in ts && ts["ef_render"].columns == EfRenderColumns
  }

  /** The folder an `hd_render` row names holds no EF folder. */
  predicate WithoutEfFolders(fs: Node, cells: map<string, Cell>) {
    "path" in cells && cells["path"].PathText? && EfsOf(fs, cells["path"].p) == []
  }

  /**
   * A stretch of the scan as written, from `ts` to `s`: rows are only
   * appended, `ef_render` is left as it was, and when the stretch
   * completes, every `hd_render` row it added names a folder without EF
   * folders.
   */
  predicate AsWrittenStep(fs: Node, ts: Tables, s: Scan) {
    && Grows(ts, s.tables)
    && ("ef_render" in ts ==> "ef_render" in s.tables && s.tables["ef_render"] == ts["ef_render"])
    && (s.completed ==> AddedRowsAll(ts, s.tables, "hd_render", c => WithoutEfFolders(fs, c)))
  }

  lemma AsWrittenStepTrans(fs: Node, a: Tables, b: Tables, s: Scan)
    requires AsWrittenStep(fs, a, Scan(true, b)) && AsWrittenStep(fs, b, s)
    ensures AsWrittenStep(fs, a, s)
  {
    GrowsTrans(a, b, s.tables);
    if s.completed {
      AddedRowsAllTrans(a, b, s.tables, "hd_render", c => WithoutEfFolders(fs, c));
    }
  }

  /**
   * As written, the EF loop raises on its first record and leaves the
   * tables as they were: it completes only when no record is left.
   */
  lemma ScanEfsAsWritten(fs: Node, ts: Tables, hdId: nat, hd: Path, efs: seq<EfRecord>, i: nat)
    requires i <= |efs| && HasEfTable(ts)
    ensures ScanEfs(AsWritten, fs, ts, hdId, hd, efs, i) == Scan(i == |efs|, ts)
  {
    if i < |efs| {
      AsWrittenEfInsertRaises(fs, ts, hdId, hd, efs[i]);
    }
  }

  /**
   * As written, an HD folder of an existing `.holo` row gets its
   * `hd_render` row, no `ef_render` row, and its scan completes exactly
   * when it holds no EF folder.
   */
  lemma ScanHdAsWritten(fs: Node, ts: Tables, holoId: nat, n: nat, hd: Path)
    requires HasSchema(ts) && HasRow(ts, "holo_data", holoId)
    ensures var s := ScanHd(AsWritten, fs, ts, holoId, n, hd);
      && (s.completed <==> EfsOf(fs, hd) == [])
      && "hd_render" in s.tables
      && s.tables["hd_render"].rows == ts["hd_render"].rows + [Row(ts["hd_render"].nextId, HdRowOf(fs, holoId, n, hd))]
      && "ef_render" in s.tables && s.tables["ef_render"] == ts["ef_render"]
  {
    var cells := HdRowOf(fs, holoId, n, hd);
    HdInsertAccepted(fs, ts, holoId, n, hd);
    var r := InsertInto(ts, "hd_render", cells);
    ScanEfsAsWritten(fs, r.1, r.0.id, hd, EfsOf(fs, hd), 0);
  }

  lemma ScanHdRowAsWritten(fs: Node, ts: Tables, hd: Path, cells: map<string, Cell>)
    requires HasEfTable(ts) && "path" in cells && cells["path"] == PathText(hd)
    ensures AsWrittenStep(fs, ts, ScanHdRow(AsWritten, fs, ts, hd, cells))
  {
    var r := InsertInto(ts, "hd_render", cells);
    InsertKeeps(ts, "hd_render", cells);
    if r.0.Inserted? {
      ScanEfsAsWritten(fs, r.1, r.0.id, hd, EfsOf(fs, hd), 0);
      assert ScanHdRow(AsWritten, fs, ts, hd, cells) == Scan(EfsOf(fs, hd) == [], r.1);
      assert r.1["hd_render"].rows == ts["hd_render"].rows + [Row(r.0.id, cells)];
    } else {
      GrowsRefl(ts);
    }
  }

  lemma {:induction false} ScanHdsAsWritten(fs: Node, ts: Tables, holoId: nat, hds: Dict<nat, Path>, i: nat)
    requires i <= |hds| && HasEfTable(ts)
    ensures AsWrittenStep(fs, ts, ScanHds(AsWritten, fs, ts, holoId, hds, i))
    decreases |hds| - i
  {
    if i < |hds| {
      var s1 := ScanHd(AsWritten, fs, ts, holoId, hds[i].0, hds[i].1);
      ScanHdRowAsWritten(fs, ts, hds[i].1, HdRowOf(fs, holoId, hds[i].0, hds[i].1));
      if s1.completed {
        ScanHdsAsWritten(fs, s1.tables, holoId, hds, i + 1);
        AsWrittenStepTrans(fs, ts, s1.tables, ScanHds(AsWritten, fs, s1.tables, holoId, hds, i + 1));
      }
    } else {
      GrowsRefl(ts);
    }
  }

  lemma ScanHoloAsWritten(fs: Node, ts: Tables, holo: Path)
    requires HasEfTable(ts)
    ensures AsWrittenStep(fs, ts, ScanHolo(AsWritten, fs, ts, holo))
  {
    GrowsRefl(ts);
    if HoloCreatedAt(fs, holo).Some? {
      var hds := FindAllHdFoldersFromHolo(fs, holo);
      var cells := HoloRowOf(holo, HoloCreatedAt(fs, holo).value);
      var r := InsertInto(ts, "holo_data", cells);
      InsertKeeps(ts, "holo_data", cells);
      assert AsWrittenStep(fs, ts, Scan(true, r.1));
      if r.0.Inserted? && r.0.id != 0 {
        ScanHdsAsWritten(fs, r.1, r.0.id, hds, 0);
        AsWrittenStepTrans(fs, ts, r.1, ScanHds(AsWritten, fs, r.1, r.0.id, hds, 0));
      }
    }
  }

  /** A loop whose every step keeps to the scan as written keeps to it as a whole. */
  lemma {:induction false} ScanEachAsWritten<T>(fs: Node, step: (Tables, T) -> Scan, ts: Tables, xs: seq<T>, i: nat)
    requires i <= |xs| && HasEfTable(ts)
    requires forall t, k :: HasEfTable(t) && i <= k < |xs| ==> AsWrittenStep(fs, t, step(t, xs[k]))
    ensures AsWrittenStep(fs, ts, ScanEach(step, ts, xs, i))
    decreases |xs| - i
  {
    if i < |xs| {
      var s1 := step(ts, xs[i]);
      assert AsWrittenStep(fs, ts, s1);
      if s1.completed {
        ScanEachAsWritten(fs, step, s1.tables, xs, i + 1);
        AsWrittenStepTrans(fs, ts, s1.tables, ScanEach(step, s1.tables, xs, i + 1));
      }
    } else {
      GrowsRefl(ts);
    }
  }

  lemma {:induction false} ScanDatesAsWritten(fs: Node, ts: Tables, root: Path, entries: seq<Node>, i: nat)
    requires i <= |entries| && HasEfTable(ts)
    ensures AsWrittenStep(fs, ts, ScanDates(AsWritten, fs, ts, root, entries, i))
    decreases |entries| - i
  {
    if i < |entries| {
      var dateFolder := root + [entries[i].name];
      if !IsDateFolder(fs, dateFolder) {
        ScanDatesAsWritten(fs, ts, root, entries, i + 1);
      } else {
        var holos := HoloFiles(fs, dateFolder);
        var step := (t, holo) => ScanHolo(AsWritten, fs, t, holo);
        forall t, k | HasEfTable(t) && 0 <= k < |holos| ensures AsWrittenStep(fs, t, step(t, holos[k])) {
          ScanHoloAsWritten(fs, t, holos[k]);
        }
        ScanEachAsWritten(fs, step, ts, holos, 0);
        var s1 := ScanHolos(AsWritten, fs, ts, holos, 0);
        if s1.completed {
          ScanDatesAsWritten(fs, s1.tables, root, entries, i + 1);
          AsWrittenStepTrans(fs, ts, s1.tables, ScanDates(AsWritten, fs, s1.tables, root, entries, i + 1));
        }
      }
    } else {
      GrowsRefl(ts);
    }
  }

  /**
   * The whole scan as written adds no `ef_render` row, and a scan that
   * runs to the end has added `hd_render` rows only for folders without
   * EF folders: the first HD folder holding one ends the scan.
   */
  lemma FindfilesAsWritten(fs: Node, ts: Tables, root: Path)
    requires HasEfTable(ts)
    ensures var s := FindfilesSpec(AsWritten, fs, ts, root);
      && "ef_render" in s.tables && s.tables["ef_render"] == ts["ef_render"]
      && (s.completed ==> AddedRowsAll(ts, s.tables, "hd_render", c => WithoutEfFolders(fs, c)))
  {
    ScanDatesAsWritten(fs, ts, root, ListDir(fs, root), 0);
  }

  // ---------------------------------------------------------------------------
  // The class
  // ---------------------------------------------------------------------------

  /** The tables after `CreateDB`: each of the three that is missing is created empty, the others are kept. */
  function WithSchema(ts: Tables): (r: Tables)
    ensures r.Keys == ts.Keys + {"holo_data", "hd_render", "ef_render"}
    ensures forall n :: n in ts ==> r[n] == ts[n]
    ensures "holo_data" !in ts ==> r["holo_data"] == EmptyTable(HoloDataColumns)
    ensures "hd_render" !in ts ==> r["hd_render"] == EmptyTable(HdRenderColumns)
    ensures "ef_render" !in ts ==> r["ef_render"] == EmptyTable(EfRenderColumns)
  {
    var t1 := if "holo_data" in ts then ts else ts["holo_data" := EmptyTable(HoloDataColumns)];
    var t2 := if "hd_render" in t1 then t1 else t1["hd_render" := EmptyTable(HdRenderColumns)];
    if "ef_render" in t2 then t2 else t2["ef_render" := EmptyTable(EfRenderColumns)]
  }

  /** The tables `ClearDB` drops before creating the schema again. */
  const ClearedTables: set<string> := {"ef_pngs", "raw_files", "ef_render", "hd_render"}

  /** The tables after `ClearDB`. */
  function Cleared(ts: Tables): Tables {
    WithSchema(ts - ClearedTables)
  }

  /** `CreateDB` on an empty database gives exactly the schema, with no rows. */
  lemma CreateDBFresh(ts: Tables)
    requires ts == map[]
    ensures HasSchema(WithSchema(ts)) && WellFormed(WithSchema(ts)) && RefClosed(WithSchema(ts))
    ensures WithSchema(ts).Keys == {"holo_data", "hd_render", "ef_render"}
  {
  }

  /** `CreateDB` keeps every row and every stored reference. */
  lemma CreateDBKeeps(ts: Tables)
    ensures KeepsInvariants(ts, WithSchema(ts))
  {
    var r := WithSchema(ts);
    if RefClosed(ts) {
      forall n, i, c | n in r && 0 <= i < |r[n].rows| && c in r[n].columns
        ensures ColumnRefOk(r, c, r[n].rows[i].cells)
      {
        assert n in ts;
        assert ColumnRefOk(ts, c, ts[n].rows[i].cells);
        var cells := ts[n].rows[i].cells;
        if c.references.Some? && c.name in cells && !cells[c.name].Null? {
          var t := c.references.value;
          var j :| 0 <= j < |ts[t].rows| && ts[t].rows[j].id == cells[c.name].i;
          assert r[t].rows[j] == ts[t].rows[j];
        }
      }
    }
  }

  /**
   * `ClearDB` empties the HD and EF tables, removes `ef_pngs` and
   * `raw_files`, keeps `holo_data` with its rows, and leaves any other table.
   */
  lemma ClearDBTables(ts: Tables)
    ensures var r := Cleared(ts);
      && r["hd_render"] == EmptyTable(HdRenderColumns)
      && r["ef_render"] == EmptyTable(EfRenderColumns)
      && "ef_pngs" !in r && "raw_files" !in r
      && ("holo_data" in ts ==> r["holo_data"] == ts["holo_data"])
      && ("holo_data" !in ts ==> r["holo_data"] == EmptyTable(HoloDataColumns))
      && (forall n :: n in ts && n !in ClearedTables ==> n in r && r[n] == ts[n])
      && r.Keys == (ts.Keys - ClearedTables) + {"holo_data", "hd_render", "ef_render"}
  {
  }

  /**
   * `ClearDB` after a scan under the schema leaves the schema in place,
   * with the `.holo` rows and no HD or EF row.
   */
  lemma ClearDBSchema(ts: Tables)
    requires HasSchema(ts)
    ensures HasSchema(Cleared(ts))
    ensures Cleared(ts)["holo_data"].rows == ts["holo_data"].rows
    ensures Cleared(ts)["hd_render"].rows == [] && Cleared(ts)["ef_render"].rows == []
  {
    ClearDBTables(ts);
  }

  /** One `.holo` file whose creation date can be read: its insert, then its HD loop. */
  lemma ScanHoloUnfold(num: Numbering, fs: Node, ts: Tables, holo: Path)
    requires HoloCreatedAt(fs, holo).Some?
    ensures ScanHolo(num, fs, ts, holo) ==
      ScanHoloRow(num, fs, ts, FindAllHdFoldersFromHolo(fs, holo),
                  HoloRow(holo, GetMeasureTag(Basename(holo)), HoloCreatedAt(fs, holo).value))
  {
  }

  /** `FileFinder`: the scanner, writing through its `DB` connection. */
  class FileFinder {
    const db: Database

    constructor (db: Database)
      ensures this.db == db
    {
      this.db := db;
    }

    /** `CreateDB`: create each of the three tables unless it exists. */
    method CreateDB()
      modifies db
      ensures db.tables == WithSchema(old(db.tables))
    {
      db.CreateTable("holo_data", HoloDataColumns);
      db.CreateTable("hd_render", HdRenderColumns);
      db.CreateTable("ef_render", EfRenderColumns);
    }

    /** `ClearDB`: drop four tables (not `holo_data`), then `CreateDB`. */
    method ClearDB()
      modifies db
      ensures db.tables == Cleared(old(db.tables))
    {
      db.DropTableIfExists("ef_pngs");
      db.DropTableIfExists("raw_files");
      db.DropTableIfExists("ef_render");
      db.DropTableIfExists("hd_render");
      assert db.tables == old(db.tables) - ClearedTables;
      CreateDB();
    }

    /** `InsertHDRender` */
    method InsertHdRender(holoId: int, path: Path, renderNumber: Option<int>, renderingParameters: Option<Value>,
                          version: Option<string>, updatedAt: Option<int>) returns (r: InsertOutcome)
      modifies db
      ensures (r, db.tables) == InsertInto(old(db.tables), "hd_render",
                                           HdRow(holoId, path, renderNumber, renderingParameters, version, updatedAt))
    {
      r := db.Insert("hd_render", HdRow(holoId, path, renderNumber, renderingParameters, version, updatedAt));
    }

    /** `InsertHoloFile` */
    method InsertHoloFile(path: Path, tag: Option<string>, createdAt: Date) returns (r: InsertOutcome)
      modifies db
      ensures (r, db.tables) == InsertInto(old(db.tables), "holo_data", HoloRow(path, tag, createdAt))
    {
      r := db.Insert("holo_data", HoloRow(path, tag, createdAt));
    }

    /** `InsertEFRender` */
    method InsertEfRender(hdId: int, renderNumber: Option<int>, path: Path, inputParameters: Option<Value>,
                          version: Option<string>, reportPath: Option<Path>, updatedAt: Option<int>) returns (r: InsertOutcome)
      modifies db
      ensures (r, db.tables) == InsertInto(old(db.tables), "ef_render",
                                           EfRow(hdId, renderNumber, path, inputParameters, version, reportPath, updatedAt))
    {
      r := db.Insert("ef_render", EfRow(hdId, renderNumber, path, inputParameters, version, reportPath, updatedAt));
    }

    /**
     * `Findfiles(root_dir)`. The result is false when an exception ended
     * the scan; the tables are then as the failed step left them. `num`
     * picks the EF render number: the code's `None` or the folder name's.
     */
    method Findfiles(num: Numbering, fs: Node, root: Path) returns (completed: bool)
      modifies db
      ensures Scan(completed, db.tables) == FindfilesSpec(num, fs, old(db.tables), root)
    {
      var entries := ListDir(fs, root);
      var i := 0;
      while i < |entries|
        invariant i <= |entries|
        invariant ScanDates(num, fs, db.tables, root, entries, i) == ScanDates(num, fs, old(db.tables), root, entries, 0)
      {
        completed := ScanRootEntry(num, fs, root, entries, i);
        if !completed {
          return;
        }
        i := i + 1;
      }
      completed := true;
    }

    /**
     * One pass of that loop: an entry that is not a date folder is
     * skipped, a date folder has its `.holo` files scanned.
     */
    method ScanRootEntry(num: Numbering, fs: Node, root: Path, entries: seq<Node>, i: nat) returns (completed: bool)
      requires i < |entries|
      modifies db
      ensures !completed ==> ScanDates(num, fs, old(db.tables), root, entries, i) == Scan(false, db.tables)
      ensures completed ==> ScanDates(num, fs, old(db.tables), root, entries, i) == ScanDates(num, fs, db.tables, root, entries, i + 1)
    {
      var dateFolder := root + [entries[i].name];
      if !CheckFolderNameFormat(dateFolder) || !IsDir(fs, dateFolder) {
        return true;
      }
      var holos := FindAllHoloFiles(fs, dateFolder);
      completed := ScanHoloFiles(num, fs, holos);
    }

    /** The loop over the `.holo` files of one date folder. */
    method ScanHoloFiles(num: Numbering, fs: Node, holos: seq<Path>) returns (completed: bool)
      modifies db
      ensures Scan(completed, db.tables) == ScanHolos(num, fs, old(db.tables), holos, 0)
    {
      var i := 0;
      while i < |holos|
        invariant i <= |holos|
        invariant ScanHolos(num, fs, db.tables, holos, i) == ScanHolos(num, fs, old(db.tables), holos, 0)
      {
        completed := ScanHoloAt(num, fs, holos, i);
        if !completed {
          return;
        }
        i := i + 1;
      }
      completed := true;
    }

    /** One pass of that loop: the `i`-th `.holo` file. */
    method ScanHoloAt(num: Numbering, fs: Node, holos: seq<Path>, i: nat) returns (completed: bool)
      requires i < |holos|
      modifies db
      ensures !completed ==> ScanHolos(num, fs, old(db.tables), holos, i) == Scan(false, db.tables)
      ensures completed ==> ScanHolos(num, fs, old(db.tables), holos, i) == ScanHolos(num, fs, db.tables, holos, i + 1)
    {
      completed := ScanHoloFile(num, fs, holos[i]);
    }

    /**
     * One `.holo` file: its row, then, when its id is truthy, the HD
     * folders rendered from it; a falsy id skips to the next file.
     */
    method ScanHoloFile(num: Numbering, fs: Node, holo: Path) returns (completed: bool)
      modifies db
      ensures Scan(completed, db.tables) == ScanHolo(num, fs, old(db.tables), holo)
    {
      var createdAt := HoloCreatedAt(fs, holo);
      if createdAt.None? {
        return false;
      }
      var hdFolders := FindAllHdFoldersFromHolo(fs, holo);
      ScanHoloUnfold(num, fs, db.tables, holo);
      var holoId := InsertHoloFile(holo, GetMeasureTag(Basename(holo)), createdAt.value);
      if holoId.Raised? {
        return false;
      }
      if holoId.Inserted? && holoId.id != 0 {
        completed := ScanHdFolders(num, fs, holoId.id, hdFolders);
      } else {
        completed := true;
      }
    }

    /** The loop over the HD folders of one `.holo` file, in the dict's order. */
    method ScanHdFolders(num: Numbering, fs: Node, holoId: nat, hds: Dict<nat, Path>) returns (completed: bool)
      modifies db
      ensures Scan(completed, db.tables) == ScanHds(num, fs, old(db.tables), holoId, hds, 0)
    {
      var i := 0;
      while i < |hds|
        invariant i <= |hds|
        invariant ScanHds(num, fs, db.tables, holoId, hds, i) == ScanHds(num, fs, old(db.tables), holoId, hds, 0)
      {
        completed := ScanHdFolder(num, fs, holoId, hds, i);
        if !completed {
          return;
        }
        i := i + 1;
      }
      completed := true;
    }

    /**
     * One pass of that loop: the `i`-th HD folder's row, then, under the
     * id that insert returned, its EF folders.
     */
    method ScanHdFolder(num: Numbering, fs: Node, holoId: nat, hds: Dict<nat, Path>, i: nat) returns (completed: bool)
      requires i < |hds|
      modifies db
      ensures !completed ==> ScanHds(num, fs, old(db.tables), holoId, hds, i) == Scan(false, db.tables)
      ensures completed ==> ScanHds(num, fs, old(db.tables), holoId, hds, i) == ScanHds(num, fs, db.tables, holoId, hds, i + 1)
    {
      var (n, hd) := hds[i];
      var renderingParams := RenderingParams(fs, hd);
      var versionText := ReadText(fs, hd + ["version.txt"]);
      var eyeflow := hd + ["eyeflow"];
      var efs: seq<EfRecord> := [];
      if Exists(fs, eyeflow) {
        efs := GetEfFoldersData(fs, eyeflow);
      }
      assert efs == EfsOf(fs, hd);
      ghost var before := db.tables;
      var hdId := InsertHdRender(holoId, hd, Some(n), JsonDumpNullable(renderingParams), versionText,
                                 GetLastUpdate(fs, hd));
      if hdId.Raised? {
        return false;
      }
      if hdId.Inserted? {
        completed := ScanEfRenders(num, fs, hdId.id, hd, efs);
        assert Scan(completed, db.tables) == ScanHd(num, fs, before, holoId, n, hd);
      } else {
        completed := true;
        assert Scan(true, db.tables) == ScanHd(num, fs, before, holoId, n, hd);
      }
    }

    /** The loop over the EF records of one HD folder. */
    method ScanEfRenders(num: Numbering, fs: Node, hdId: nat, hd: Path, efs: seq<EfRecord>) returns (completed: bool)
      modifies db
      ensures Scan(completed, db.tables) == ScanEfs(num, fs, old(db.tables), hdId, hd, efs, 0)
    {
      ghost var rest := EfsRestOf(num, fs, hdId, hd, efs);
      var i := 0;
      while i < |efs|
        invariant i <= |efs|
        invariant rest(db.tables, i) == rest(old(db.tables), 0)
      {
        var raised := ScanEfRender(num, fs, hdId, hd, efs, i, rest);
        if raised {
          return false;
        }
        i := i + 1;
      }
      completed := true;
    }

    /**
     * One pass of that loop: the insert of the `i`-th EF record; the
     * result says whether it raised, which ends the scan.
     */
    method ScanEfRender(num: Numbering, fs: Node, hdId: nat, hd: Path, efs: seq<EfRecord>, i: nat, ghost rest: (Tables, nat) -> Scan)
      returns (raised: bool)
      requires i < |efs| && EfsRest(rest, num, fs, hdId, hd, efs)
      modifies db
      ensures raised ==> rest(old(db.tables), i) == Scan(false, db.tables)
      ensures !raised ==> rest(old(db.tables), i) == rest(db.tables, i + 1)
    {
      assert rest(db.tables, i) == ScanEfs(num, fs, db.tables, hdId, hd, efs, i);
      var ef := efs[i];
      var lastRow := InsertEfRender(hdId, EfNumber(num, ef), ef.efFolder, JsonDumpNullable(ef.inputParams.content),
                                    Some(GetEyeflowVersion(fs, ef.efFolder, Basename(hd))),
                                    GetReportPdf(fs, ef.efFolder), GetLastUpdate(fs, hd));
      raised := lastRow.Raised?;
      assert rest(db.tables, i + 1) == ScanEfs(num, fs, db.tables, hdId, hd, efs, i + 1);
    }
  }
}
