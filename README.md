# DopplerManager scan-and-index core, in Dafny

DopplerManager indexes the output of a holography pipeline. A root folder holds
date-named batch folders (`YYMMDD...`). Each holds `.holo` acquisition files. Next
to each acquisition lie the HD render folders `<base>_HD_<n>`, and inside an HD
folder's `eyeflow` directory lie the EF render folders `<hd name>_EF_<n>`.

This project models the logic that finds, names and indexes those files:

- the naming-convention parsers: six-digit batch prefix, `YYMMDD` dates, measure
  tag, render number, the `_HD_`/`_EF_` tests and cuts, `get_name_after_hd`;
- the version block of an EyeFlow log (the text between the last two `====` bars);
- the crawlers of `data_getter.py`, and the EF listing of `FinderUtils.py`;
- the scanner `FileFinder.Findfiles`, which inserts parent rows before child rows
  and threads each returned id into the children's inserts;
- the selection rules of the batch export tool (`logic.py`);
- the dotted-key settings lookups (current and old `ConfigManager`) and the lenient
  report reads and date/duration rendering of `ReportGen.py`;
- the launcher's `Version` parser and printer, its derived ordering, and its
  terminal hyperlink.

The filesystem is a value (`FileSystem.Node`): a tree of named directories and
files. Listings keep the operating system's order. A file carries the lines
`readlines()` gives and what `json.load` makes of it. The sqlite database is an
in-memory table store (`TableStore`) with AUTOINCREMENT ids and NOT NULL and
foreign-key checks. A JSON document is a `PyValues.Value`, with Python's
truthiness. Timestamps and creation dates read from the disk are fields of the
tree or parameters.

Modules, one per source file, with shared modules first:

| module | file | models |
|---|---|---|
| Wrappers, Text, PyValues, OrderedDicts, Sorting | wrappers.dfy, text.dfy, values.dfy, sorting.dfy | Option/Result; Python `str.split`/`find`/`strip`/`int`; JSON values; insertion-ordered dicts; `sorted` and `sorted(set(...))` |
| FileSystem | fs.dfy | the tree; `os.walk` as its stack loop, with `dirnames` pruning; `glob("*.ext")` |
| PathParser | path_parser.dfy | `src/FileFinder/utils/path_parser.py`; `splitext`, `stem`; `^<prefix>(\d+)$` |
| FinderUtils | finder_utils.dfy | `src/FileFinder/FinderUtils.py` |
| OldTools | old_tools.dfy | `old/Tools/utils.py` |
| FsUtils | fs_utils.dfy | `get_last_update`, `json_dump_nullable` |
| DataGetter | data_getter.dfy | `src/FileFinder/utils/data_getter.py` |
| TableStore | table_store.dfy | the `DB` wrapper as the scanner uses it |
| Scanner | file_finder.dfy | `src/FileFinder/FileFinderClass.py` |
| BatchLogic | batch_logic.dfy | `tools/DopplerBatchTool/logic.py` |
| Launcher | launcher.dfy | `src/Launcher/src/main.rs` |
| ParamsLoader | params_loader.dfy | `src/Utils/ParamsLoader.py` |
| OldParamsLoader | old_params_loader.dfy | `old/old_ParamsLoader.py` |
| ReportGen | report_gen.dfy | `src/FileFinder/ReportGen.py` |

The source's state-changing parts keep their form:

- `FileFinder` is a class writing through a `Database` object.
- The old `ConfigManager` is a class with a settings field.
- The loops of `logic.py`, `data_getter.py`, `get_ef_folders_data`, `os.walk`,
  `__s_get_r_dict` and the settings `get` are methods with loop invariants.
- Each of those methods is proved equal to a specification function, and the
  lemmas state what the source promises about that function.

Where the code and its documentation disagree, the model follows the code.
Examples:
- `get_num_after_hd` returns a string, not an `int`.
- The `isidentifier` guards of the `DB` class, written without call parentheses,
  never fire.
- `find_all_hd_folders_from_holo`, called by the scanner but defined nowhere, is
  modelled as the path projection of `gather_all_hd_folders_data_from_holo`.
- The scanner calls eight more `FinderUtils.*` helpers that
  `src/FileFinder/FinderUtils.py` does not define, so as shown its `Findfiles`
  would raise AttributeError at the first root entry. The model takes each from
  the module that defines a function of that name:
  - `check_folder_name_format`, `parse_folder_date`, `get_measure_tag` and
    `get_render_number`: `src/FileFinder/utils/path_parser.py`
    (`PathParser.CheckFolderNameFormat`, `ParseFolderDate`, `GetMeasureTag`,
    `GetRenderNumber`);
  - `find_all_holo_files` and `get_report_pdf` (`_get_report_pdf`):
    `src/FileFinder/utils/data_getter.py` (`DataGetter.FindAllHoloFiles`,
    `GetReportPdf`);
  - `json_dump_nullable` and `get_last_update`: `src/Utils/fs_utils.py`
    (`FsUtils.JsonDumpNullable`, `GetLastUpdate`).
- The scanner's EF insert passes `get_render_number` a string, so its render
  number is always `None` (first row under "## Findings"). `FileFinder` and the
  scan functions take a `Numbering` argument. `AsWritten` is the code as written:
  the first EF folder ends the scan. `Corrected` reads the number from the
  folder's name. Both are proved about.

## Model

| member | source | states |
|---|---|---|
| PathParser.IsEfFolder | src/FileFinder/utils/path_parser.py:9-10 | true exactly when `_EF_` occurs in the name |
| PathParser.CheckFolderNameFormat | src/FileFinder/utils/path_parser.py:33-37 | true exactly when the basename opens with six ASCII digits and `.*$` matches the rest (no line feed except a final one) |
| PathParser.FolderNameDate | src/FileFinder/utils/path_parser.py:15-27 | a date comes back exactly when the basename matches `^(\d{2})(\d{2})(\d{2}).*$` and the numbers form a real date; it is `2000+YY-MM-DD` |
| PathParser.ParseFolderDate | src/FileFinder/utils/path_parser.py:13-30 | never fails: the date the name spells, else the creation-date fallback given as input |
| PathParser.ParseFolderDateOf | src/FileFinder/utils/path_parser.py:13-30 | every date of 2000-2099 written `YYMMDD` and followed by any text reads back exactly |
| PathParser.StemOfExtension | src/FileFinder/utils/path_parser.py:43 | `stem` removes exactly a final `.ext` |
| PathParser.SplitExtOfExtension | src/FileFinder/utils/data_getter.py:51-52 | `os.path.splitext(...)[0]` removes exactly a final `.ext` when more than dots precede it |
| PathParser.GetMeasureTag | src/FileFinder/utils/path_parser.py:40-45 | `None` exactly when the stem has no `_` |
| PathParser.MeasureTagIsSecondField | src/FileFinder/utils/path_parser.py:40-45 | the tag is the text between the stem's first `_` and the next `_` or the end |
| PathParser.RenderNumberIsLastField | src/FileFinder/utils/path_parser.py:48-52 | the render number is read from the text after the stem's last `_`, and only from it; a non-integer field gives `None` |
| PathParser.RenderNumberOf | src/FileFinder/utils/path_parser.py:48-52 | a folder named `<prefix>_<n>` has render number `n` |
| PathParser.RenderNumberHdExample | src/FileFinder/utils/path_parser.py:48-52 | `SAMPLE01_HD_3` gives 3 |
| PathParser.RenderNumberEfExample | src/FileFinder/utils/path_parser.py:48-52 | `SAMPLE01_HD_3_EF_12` gives 12 |
| PathParser.MatchNumbered | tools/DopplerBatchTool/logic.py:57-65 | a match means the name is the prefix followed by digits, and the number is their value |
| PathParser.MatchNumberedDigits | src/FileFinder/utils/data_getter.py:53-64 | conversely, every prefix-plus-digits name matches with the digits' value |
| PathParser.MatchNumberedOf | tools/DopplerBatchTool/logic.py:57-65 | the name `<prefix><n>` matches with number `n` |
| FinderUtils.IsHdFolder | src/FileFinder/FinderUtils.py:8-9 | true exactly when `_HD_` occurs in the name |
| FinderUtils.GetFileNameWithoutHd | src/FileFinder/FinderUtils.py:165-176 | a prefix of the basename without `_HD_`; the whole basename exactly when it has no `_HD_`, else cut just before the first one |
| FinderUtils.GetNumAfterHd | src/FileFinder/FinderUtils.py:179-188 | -1 exactly when the basename has no `_HD_`; otherwise a string that starts with `_HD_` |
| FinderUtils.HdCutRecombines | src/FileFinder/FinderUtils.py:165-188 | the two cuts together give the basename back |
| FinderUtils.LastBarBefore | src/FileFinder/FinderUtils.py:212-215 | the last bar line before a position, and no bar line between it and that position |
| FinderUtils.LastBarBlockSomeIff | src/FileFinder/FinderUtils.py:217-221 | a block exists exactly when there are two bar lines |
| FinderUtils.LastBarBlockBetweenLastBars | src/FileFinder/FinderUtils.py:223-231 | the block is the stripped join of the lines strictly between the last two bars, and no bar line lies inside it |
| FinderUtils.AdjacentBarsGiveEmpty | old/Tools/utils.py:20-27 | two adjacent final bars give `""` |
| FinderUtils.GetEyeflowVersion | src/FileFinder/FinderUtils.py:191-231 | the string `"None"` when the log folder or file is missing or there are fewer than two bars; otherwise the last block |
| FinderUtils.InputParamsOf | src/FileFinder/FinderUtils.py:99-106 | path and content are set together, only from a truthy loaded `json/InputEyeFlowParams.json` in a `json` directory |
| FinderUtils.EfRecordsKept | src/FileFinder/FinderUtils.py:87-89 | each record is for an `_EF_` directory of the listing, carrying that folder's input parameters |
| FinderUtils.ReadInputParams | src/FileFinder/FinderUtils.py:99-106 | the loop body computes InputParamsOf |
| FinderUtils.GetEfFoldersData | src/FileFinder/FinderUtils.py:84-116 | the loop yields one record per listed `_EF_` directory, in listing order |
| OldTools.HdMatchEnd | old/Tools/utils.py:48 | where a `HD_\d+_` match starting at a position ends, if there is one |
| OldTools.SearchHd | old/Tools/utils.py:48 | the leftmost `HD_\d+_` match, with its end |
| OldTools.GetNameAfterHd | old/Tools/utils.py:43-57 | `None` exactly when the basename holds no `HD_<digits>_` |
| OldTools.NameAfterHdOf | old/Tools/utils.py:43-57 | a name opening with `HD_<n>_` gives what follows, without its extension |
| FsUtils.GetLastUpdate | src/Utils/fs_utils.py:75-80 | `None` exactly when the path is missing, else its modification time |
| FsUtils.JsonDumpNullable | src/Utils/fs_utils.py:97-101 | a truthy value is kept (serialised), anything falsy becomes `None` |
| FileSystem.GlobExt | src/Utils/fs_utils.py:83-94 | the entries of the folder whose names end in `.<ext>`, in listing order |
| FileSystem.Walk | src/FileFinder/utils/data_getter.py:24-26 | the stack loop of `os.walk`, with pruning, reports exactly the top-down recursive walk |
| FileSystem.WalkFilesShape | src/FileFinder/utils/data_getter.py:24-26 | every walked file lies strictly below the start, and no directory on the way is pruned |
| DataGetter.HoloOnlyIn | src/FileFinder/utils/data_getter.py:28-33 | exactly the `.holo` names are kept |
| DataGetter.FindAllHoloFiles | src/FileFinder/utils/data_getter.py:15-35 | the loop returns the `.holo` files of the pruned walk, in walk order |
| DataGetter.HoloFilesShape | src/FileFinder/utils/data_getter.py:24-33 | every file found is a `.holo` strictly below the root, with no `_HD_` directory between |
| DataGetter.HoloFilesTopLevel | src/FileFinder/utils/data_getter.py:28-33 | every `.holo` file listed directly in the root is found |
| DataGetter.FindPreviewVideo | src/FileFinder/utils/data_getter.py:38-47 | a path exactly when `R_<stem>_p.avi` beside the file is a regular file, and then that path |
| DataGetter.PreviewOfHolo | src/FileFinder/utils/data_getter.py:40-42 | for `<dir>/<base>.<ext>` the file looked for is `<dir>/R_<base>_p.avi` |
| DataGetter.FirstH5 | src/FileFinder/utils/data_getter.py:154-156 | `None` exactly when the folder has no `.h5` entry, else the first one |
| DataGetter.GetRawH5File | src/FileFinder/utils/data_getter.py:146-156 | `None` exactly when `raw` is not a directory or holds no `.h5`; else its first `.h5` |
| DataGetter.GetReportPdf | src/FileFinder/utils/data_getter.py:131-143 | `None` exactly when `pdf` is missing or empty; else its first listed entry |
| DataGetter.ReportPdfExists | src/FileFinder/utils/data_getter.py:138-143 | the report found is that entry itself |
| DataGetter.RenderingParams | src/FileFinder/utils/data_getter.py:67-74 | `None` when `<folder>_RenderingParameters.json` is absent, else what it loads to |
| DataGetter.HdNumber | src/FileFinder/utils/data_getter.py:59-64 | a number exactly for a directory matching `^<base>_HD_(\d+)$` |
| DataGetter.GatherAllHdFoldersDataFromHolo | src/FileFinder/utils/data_getter.py:50-84 | the exception case exactly when the parent is not a directory; otherwise the dict the loop specification builds |
| DataGetter.GatherHdEntries | src/FileFinder/utils/data_getter.py:58-82 | the loop over the parent's entries builds that dict |
| DataGetter.GatherHdEntry | src/FileFinder/utils/data_getter.py:59-82 | one entry assigns its number when it matches |
| DataGetter.HdFoldersStep | src/FileFinder/utils/data_getter.py:58-82 | a matching directory assigns its number; anything else changes nothing |
| DataGetter.HdEntryData | src/FileFinder/utils/data_getter.py:65-82 | the value stored for one HD folder |
| DataGetter.HdFoldersKeys | src/FileFinder/utils/data_getter.py:51-64 | every matching sibling directory gives a key, and no key appears twice |
| DataGetter.HdFoldersValues | src/FileFinder/utils/data_getter.py:58-82 | every key comes from a matching directory, with that directory's own data |
| DataGetter.HdFoldersLastWins | src/FileFinder/utils/data_getter.py:77 | of two directories with the same number, the one listed last supplies the value |
| DataGetter.FindAllHdFoldersFromHolo | src/FileFinder/FileFinderClass.py:134 | the same keys, in the same order, each with its folder's path |
| DataGetter.EfH5Output | src/FileFinder/utils/data_getter.py:102-117 | looked up only when `json` is a directory: the first `.h5` of `h5`, or `None` |
| DataGetter.EfDataListKept | src/FileFinder/utils/data_getter.py:92-94 | each record is for an `_EF_` directory of the listing |
| DataGetter.GatherEfFoldersData | src/FileFinder/utils/data_getter.py:87-128 | one record per listed `_EF_` directory; without `get_input_params`, input parameters stay `{None, None}` |
| DataGetter.EfEntryData | src/FileFinder/utils/data_getter.py:96-126 | the record of one EF folder |
| TableStore.InsertInto | src/Database/DBClass.py:100-128 | `None` for a missing table; an exception when a column is undeclared, a NOT NULL column is null or a reference is dangling; else a fresh row id |
| TableStore.InsertGrows | src/Database/DBClass.py:119-128 | an insert only appends, and only to its own table |
| TableStore.InsertFreshId | src/Database/DBClass.py:128 | the new id is at least 1 and differs from every id in the table |
| TableStore.InsertWellFormed | src/Database/DBClass.py:119-128 | inserts keep ids increasing and below the next id |
| TableStore.InsertRefClosed | src/Database/DBClass.py:37-38 | with foreign keys on, every stored reference names an existing row |
| TableStore.Database.constructor | src/Database/DBClass.py:9-39 | a new database has no tables |
| TableStore.Database.TableExists | src/Database/DBClass.py:41-64 | true exactly when the table exists |
| TableStore.Database.CreateTable | src/Database/DBClass.py:66-98 | an existing table is left alone; a missing one is created empty |
| TableStore.Database.DropTableIfExists | src/FileFinder/FileFinderClass.py:52 | the table is removed, nothing else changes |
| TableStore.Database.Insert | src/Database/DBClass.py:100-128 | the outcome and new tables are InsertInto's |
| Scanner.HoloCreatedAt | src/FileFinder/FileFinderClass.py:124 | the date the file's own name spells, else its creation date; none only when neither is there |
| Scanner.EfRenderNumber | src/FileFinder/FileFinderClass.py:177-179 | corrected: the number that ends the EF folder's name |
| Scanner.EfRenderNumberAsWritten | src/FileFinder/FileFinderClass.py:177-179 | as written: `None` for every folder |
| Scanner.ScanEfsRows | src/FileFinder/FileFinderClass.py:174-198 | the EF loop adds only `ef_render` rows, each with the parent HD row's id; earlier rows stay, also after a `None` insert |
| Scanner.ScanHdRows | src/FileFinder/FileFinderClass.py:157-198 | an HD insert without an id adds nothing (no EF row); with one, exactly its row, carrying the holo id, and EF rows carrying its id |
| Scanner.ScanHdsRows | src/FileFinder/FileFinderClass.py:136-173 | every `hd_render` row the HD loop adds carries the holo id it runs under |
| Scanner.ScanHoloRows | src/FileFinder/FileFinderClass.py:120-173 | a falsy `.holo` id adds no row at all; a truthy one adds exactly its row, and HD rows carrying its id |
| Scanner.ScanHoloFrame | src/FileFinder/FileFinderClass.py:120-198 | one file's scan only appends, to the three tables, keeping the store's invariants |
| Scanner.ScanHoloPath | src/FileFinder/FileFinderClass.py:121-125 | one file's scan adds at most its own `holo_data` row |
| Scanner.ScanHolosFrame | src/FileFinder/FileFinderClass.py:120-198 | the `.holo` loop only appends, keeping the invariants |
| Scanner.ScanHolosRows | src/FileFinder/FileFinderClass.py:120-125 | the `.holo` loop adds rows only for the files it is given |
| Scanner.ScanDatesFrame | src/FileFinder/FileFinderClass.py:108-198 | the root loop only appends, keeping the invariants |
| Scanner.DateFolderPaths | src/FileFinder/FileFinderClass.py:114-118 | the `.holo` files of a date folder lie in that folder, reached without entering `_HD_` |
| Scanner.ScanDatesRows | src/FileFinder/FileFinderClass.py:108-118 | `holo_data` rows come only from directories with a six-digit name prefix |
| Scanner.FindfilesRows | src/FileFinder/FileFinderClass.py:107-198 | `Findfiles` only appends, keeps ids and references sound, and indexes only `.holo` files inside date folders |
| Scanner.HoloInsertAccepted | src/FileFinder/FileFinderClass.py:77-82 | under the schema a `.holo` insert always gets an id |
| Scanner.HdInsertAccepted | src/FileFinder/FileFinderClass.py:56-75 | under the schema an HD insert is accepted exactly when its `.holo` row exists |
| Scanner.EfInsertOutcome | src/FileFinder/FileFinderClass.py:84-105 | under an existing HD row, an EF insert raises exactly when its render number is null |
| Scanner.AsWrittenEfInsertRaises | src/FileFinder/FileFinderClass.py:174-191 | as written, every EF insert raises |
| Scanner.ScanEfsAsWritten | src/FileFinder/FileFinderClass.py:174-191 | as written, the EF loop raises on its first record and leaves the tables unchanged; it completes only with no record left |
| Scanner.ScanHdAsWritten | src/FileFinder/FileFinderClass.py:136-191 | as written, an HD folder of an existing `.holo` row gets its `hd_render` row and no `ef_render` row, and its scan completes exactly when it holds no EF folder |
| Scanner.ScanHoloAsWritten | src/FileFinder/FileFinderClass.py:120-191 | as written, one `.holo` file's scan adds no `ef_render` row, and if it completes, every HD row it added names a folder without EF folders |
| Scanner.FindfilesAsWritten | src/FileFinder/FileFinderClass.py:107-191 | as written, the whole scan adds no `ef_render` row; a scan that completes added HD rows only for folders without EF folders, so the first HD folder holding one ends it |
| Scanner.EfStep | src/FileFinder/FileFinderClass.py:175-198 | corrected: an EF insert raises exactly when the name has no number, else adds one row |
| Scanner.ScanEfsCompletes | src/FileFinder/FileFinderClass.py:174-198 | corrected: the EF loop finishes exactly when every folder name ends in a number, adding one row per folder |
| Scanner.ScanHdCompletes | src/FileFinder/FileFinderClass.py:157-198 | corrected: an HD folder of an existing `.holo` row is scanned to the end exactly when all its EF names are numbered |
| Scanner.WithSchema | src/FileFinder/FileFinderClass.py:14-46 | the three tables exist; an existing one is unchanged |
| Scanner.CreateDBFresh | src/FileFinder/FileFinderClass.py:15-46 | on an empty database: exactly the three schema tables, ids well formed, no dangling reference |
| Scanner.CreateDBKeeps | src/FileFinder/FileFinderClass.py:45-46 | every row and reference is kept |
| Scanner.ClearDBTables | src/FileFinder/FileFinderClass.py:48-54 | empties `hd_render` and `ef_render`, removes `ef_pngs` and `raw_files`, keeps `holo_data` with its rows |
| Scanner.ClearDBSchema | src/FileFinder/FileFinderClass.py:48-54 | after a scan, the schema stays, with the `.holo` rows and no HD or EF row |
| Scanner.FileFinder.constructor | src/FileFinder/FileFinderClass.py:10-12 | the scanner writes through the given database |
| Scanner.FileFinder.CreateDB | src/FileFinder/FileFinderClass.py:14-46 | the tables become WithSchema of the old ones |
| Scanner.FileFinder.ClearDB | src/FileFinder/FileFinderClass.py:48-54 | the tables become Cleared of the old ones |
| Scanner.FileFinder.InsertHdRender | src/FileFinder/FileFinderClass.py:56-75 | the insert of the HD row into `hd_render` |
| Scanner.FileFinder.InsertHoloFile | src/FileFinder/FileFinderClass.py:77-82 | the insert of the `.holo` row into `holo_data` |
| Scanner.FileFinder.InsertEfRender | src/FileFinder/FileFinderClass.py:84-105 | the insert of the EF row into `ef_render` |
| Scanner.FileFinder.Findfiles | src/FileFinder/FileFinderClass.py:107-198 | the nested loops give the tables, and whether the scan finished, as FindfilesSpec does for the numbering given: as written (FindfilesAsWritten) or corrected (FindfilesRows, ScanHdCompletes) |
| Scanner.FileFinder.ScanRootEntry | src/FileFinder/FileFinderClass.py:108-118 | one root entry: skipped unless a six-digit-named directory |
| Scanner.FileFinder.ScanHoloFiles | src/FileFinder/FileFinderClass.py:120-198 | the loop over one date folder's `.holo` files |
| Scanner.FileFinder.ScanHoloAt | src/FileFinder/FileFinderClass.py:120-132 | one `.holo` file of that loop |
| Scanner.FileFinder.ScanHoloFile | src/FileFinder/FileFinderClass.py:121-134 | its row, then, when the id is truthy, its HD folders |
| Scanner.FileFinder.ScanHdFolders | src/FileFinder/FileFinderClass.py:136-198 | the loop over the HD folders in dict order |
| Scanner.FileFinder.ScanHdFolder | src/FileFinder/FileFinderClass.py:136-173 | one HD row, then its EF rows under the returned id, with the numbering given: as written it completes exactly when the folder has no EF folder (ScanHdAsWritten); corrected, exactly when every EF name is numbered (ScanHdCompletes) |
| Scanner.FileFinder.ScanEfRenders | src/FileFinder/FileFinderClass.py:174-198 | the loop over one HD folder's EF records equals ScanEfs for the numbering given: as written it raises on the first record and changes nothing (ScanEfsAsWritten); corrected, it completes exactly when every name is numbered (ScanEfsCompletes) |
| Scanner.FileFinder.ScanEfRender | src/FileFinder/FileFinderClass.py:175-198 | one EF insert, with `None` as written or the name's number corrected; an exception ends the scan |
| BatchLogic.TopDirNames | tools/DopplerBatchTool/logic.py:13 | the root's sub-directory names, in listing order |
| BatchLogic.IdPrefixIsFirstPiece | tools/DopplerBatchTool/logic.py:16 | the prefix is the first piece `split('_')` gives |
| BatchLogic.StartingWithIn | tools/DopplerBatchTool/logic.py:17 | a directory is kept exactly when its name starts with the prefix |
| BatchLogic.WantedInIff | tools/DopplerBatchTool/logic.py:29-33 | a path is collected from a walk exactly when it is a walked file starting with the identifier and ending in `.holo` or `.cine` |
| BatchLogic.WantedFiles | tools/DopplerBatchTool/logic.py:30-34 | the loop over one walk's files collects those |
| BatchLogic.CollectInDir | tools/DopplerBatchTool/logic.py:28-34 | what one matching directory contributes |
| BatchLogic.CollectForIdentifier | tools/DopplerBatchTool/logic.py:26-34 | the directory loop, and `files_found_for_id` is the number collected |
| BatchLogic.FoundForIn | tools/DopplerBatchTool/logic.py:16-34 | one identifier collects exactly the files it selects |
| BatchLogic.SearchErrorOfCases | tools/DopplerBatchTool/logic.py:19-38 | "no directory" exactly when no top directory starts with the prefix; "no files" exactly when some do but nothing is selected; else no error |
| BatchLogic.SearchIdentifier | tools/DopplerBatchTool/logic.py:16-41 | one identifier: its files and its error |
| BatchLogic.SearchIdentifiers | tools/DopplerBatchTool/logic.py:15-41 | the identifier loop: the files in order, the errors, and progress `1..n` |
| BatchLogic.Counting | tools/DopplerBatchTool/logic.py:22-23 | the progress arguments are `1, 2, ..., n`, one per identifier |
| BatchLogic.FindHoloCineFiles | tools/DopplerBatchTool/logic.py:7-43 | the sorted, duplicate-free collected files; progress once per identifier; the errors |
| BatchLogic.CollectedIff | tools/DopplerBatchTool/logic.py:16-43 | a path is returned exactly when some identifier selects it: below a top directory starting with its prefix, named with the identifier, ending in `.holo` or `.cine` |
| BatchLogic.WalkedBelow | tools/DopplerBatchTool/logic.py:27-33 | each collected file lies strictly below its top directory |
| BatchLogic.MaxOf | tools/DopplerBatchTool/logic.py:69 | `max` is one of the numbers and no number exceeds it |
| BatchLogic.CollectCandidates | tools/DopplerBatchTool/logic.py:58-66 | the listing loop fills `candidate_folders` as specified |
| BatchLogic.AddCandidate | tools/DopplerBatchTool/logic.py:61-66 | one entry of that loop |
| BatchLogic.LatestFolder | tools/DopplerBatchTool/logic.py:58-69 | collect, then take the largest number |
| BatchLogic.LatestIsMax | tools/DopplerBatchTool/logic.py:60-69 | none exactly when no entry is a numbered directory; else a numbered directory whose number no other exceeds |
| BatchLogic.LatestHdOf | tools/DopplerBatchTool/logic.py:54-69 | one file's latest `<base>_HD_<n>` sibling |
| BatchLogic.HdListsStep | tools/DopplerBatchTool/logic.py:68-75 | a file adds its HD folder unless already listed, or goes to the missing list |
| BatchLogic.HdFileLoop | tools/DopplerBatchTool/logic.py:53-75 | the file loop builds both lists and the warnings sent so far |
| BatchLogic.HdListsSpec | tools/DopplerBatchTool/logic.py:68-75 | each HD path is listed once; listed exactly when it is some file's latest; a file is missing exactly when it has none |
| BatchLogic.FindLatestHdFolders | tools/DopplerBatchTool/logic.py:45-77 | both lists, sorted, and the `[WARNING] For '<file name>', ...` messages passed to `error_callback`, in file order |
| BatchLogic.HdWarningsSpec | tools/DopplerBatchTool/logic.py:72-75 | one warning per file listed as missing; a warning is sent exactly for the files without an HD folder, naming the file |
| BatchLogic.LatestHdSorted | tools/DopplerBatchTool/logic.py:77 | the HD list is strictly increasing |
| BatchLogic.LatestEfOf | tools/DopplerBatchTool/logic.py:88-112 | one HD folder's latest EF folder, none without `eyeflow`, and the warning it draws |
| BatchLogic.EfFolderLoop | tools/DopplerBatchTool/logic.py:87-112 | the HD folder loop builds both lists and the warnings sent so far |
| BatchLogic.EfListsCount | tools/DopplerBatchTool/logic.py:87-112 | every HD folder gives exactly one entry, found or missing |
| BatchLogic.FindLatestEfFolders | tools/DopplerBatchTool/logic.py:79-114 | both lists, sorted, and the warnings passed to `error_callback`, in HD folder order |
| BatchLogic.EfWarningKinds | tools/DopplerBatchTool/logic.py:89-111 | no warning exactly when a latest EF folder exists; the "no `eyeflow` directory" warning exactly when `eyeflow` is not a directory; the "no EF folders" warning exactly when it is one and no entry is a numbered `<HD name>_EF_<n>` directory |
| BatchLogic.EfWarningsSpec | tools/DopplerBatchTool/logic.py:87-112 | one warning per HD folder listed as missing; a warning is exactly the one some HD folder draws |
| BatchLogic.LatestEfTotal | tools/DopplerBatchTool/logic.py:79-114 | the two lengths add up to the number of HD folders |
| BatchLogic.FirstPrefixFrom | tools/DopplerBatchTool/logic.py:131 | the first identifier, in order, prefixing the name |
| BatchLogic.MatchedIdentifierSpec | tools/DopplerBatchTool/logic.py:131-133 | matched exactly when the first prefixing identifier is non-empty, and then to it |
| BatchLogic.MatchOne | tools/DopplerBatchTool/logic.py:130-137 | one EF folder: exported under its identifier, or its name recorded |
| BatchLogic.MatchEfFolders | tools/DopplerBatchTool/logic.py:129-168 | matched folders in order with their identifiers, unmatched names, progress only for matched ones |
| BatchLogic.ExportPlanSplits | tools/DopplerBatchTool/logic.py:129-137 | every EF folder is exported under its match or recorded as unmatched, never both, in input order |
| Sorting.SortUnique | tools/DopplerBatchTool/logic.py:43 | `sorted(set(xs))`: strictly increasing, with exactly the strings of `xs` |
| Sorting.Sort | tools/DopplerBatchTool/logic.py:77 | `sorted(xs)`: non-decreasing, a permutation of `xs` |
| Sorting.SortedStrictUnique | tools/DopplerBatchTool/logic.py:43 | two strictly increasing sequences with the same strings are equal |
| Sorting.SortDistinct | tools/DopplerBatchTool/logic.py:70-77 | sorting distinct strings gives a strictly increasing list |
| Launcher.LastTokenNone | src/Launcher/src/main.rs:19 | no token exactly when the input is empty or only whitespace |
| Launcher.LastTokenShape | src/Launcher/src/main.rs:19 | a token found is the last whitespace-separated one |
| Launcher.LastTokenOf | src/Launcher/src/main.rs:19 | the last token of `pre + t + post` is `t` |
| Launcher.DigitsU32Value | src/Launcher/src/main.rs:22 | the digit loop accepts exactly the digit strings whose value fits in 32 bits |
| Launcher.ParseU32OfDecimal | src/Launcher/src/main.rs:22 | `u32` parsing reads back the decimal rendering |
| Launcher.NumericPiecesCons | src/Launcher/src/main.rs:20-23 | a piece is kept exactly when it parses |
| Launcher.NumericPiecesDrop | src/Launcher/src/main.rs:20-23 | a piece that does not parse is dropped |
| Launcher.NumericPiecesAll | src/Launcher/src/main.rs:20-23 | when all pieces parse, all are kept in order |
| Launcher.FromStrBlank | src/Launcher/src/main.rs:18-19 | empty or whitespace-only input gives `None` |
| Launcher.FromStrLastToken | src/Launcher/src/main.rs:18-23 | only the last token is read |
| Launcher.FromStrToken | src/Launcher/src/main.rs:20-37 | fewer than two numeric pieces give `None`; two give patch 0; pieces past the third are ignored |
| Launcher.ToStr | src/Launcher/src/main.rs:40-42 | `major.minor.patch` in decimal |
| Launcher.ToStrPieces | src/Launcher/src/main.rs:40-42 | the dot-separated pieces are the three fields |
| Launcher.FromStrToStr | src/Launcher/src/main.rs:18-42 | `from_str(to_str(v)) == Some(v)` for every version |
| Launcher.FromStrDotted | src/Launcher/src/main.rs:20-37 | a dotted token reads as its numeric pieces spell |
| Launcher.FromStrPythonOutput | src/Launcher/src/main.rs:48-51 | `Python 3.10.4\n`, with its newline, reads as 3.10.4 |
| Launcher.FromStrPreRelease | src/Launcher/src/main.rs:20-29 | `3.13.0rc1`-style patches are dropped and read as 0 |
| Launcher.MinVersionParses | src/Launcher/src/main.rs:7 | `"3.13.0"` parses, so the `unwrap` cannot panic |
| Launcher.MinVersion | src/Launcher/src/main.rs:115 | the minimum is 3.13.0 |
| Launcher.LessIsRankOrder | src/Launcher/src/main.rs:9-14 | the derived order is lexicographic on (major, minor, patch) |
| Launcher.LessTrichotomy | src/Launcher/src/main.rs:9 | exactly one of `a < b`, `a == b`, `b < a` |
| Launcher.LessTransitive | src/Launcher/src/main.rs:9 | `<` is transitive |
| Launcher.VersionGate | src/Launcher/src/main.rs:127 | a version passes exactly when its major is above 3, or it is 3 with minor at least 13 |
| Launcher.MakeALink | src/Launcher/src/main.rs:81-84 | `ESC]8;;url BEL text ESC]8;; BEL`, the text defaulting to the url |
| Launcher.ParseMakeALink | src/Launcher/src/main.rs:81-84 | url and shown text are recovered from the link |
| ParamsLoader.MissValue | src/Utils/ParamsLoader.py:71-76 | a truthy default, else `None` |
| ParamsLoader.Get | src/Utils/ParamsLoader.py:47-78 | a hit returns the value found, falsy or not; a miss returns MissValue |
| ParamsLoader.Set | src/Utils/ParamsLoader.py:80-93 | as written: the loaded copy after the assignment, or the exception |
| ParamsLoader.SetDeepKeyRaises | src/Utils/ParamsLoader.py:88-91 | a key of three or more pieces always raises |
| ParamsLoader.SetThenLookup | src/Utils/ParamsLoader.py:80-93 | what `set` assigns is found again in that copy |
| ParamsLoader.SetTwoPiecesDropsSiblings | src/Utils/ParamsLoader.py:88-90 | setting `a.b` loses `a.c` |
| ParamsLoader.SetKeepsOtherEntries | src/Utils/ParamsLoader.py:80-93 | other top-level entries are kept |
| ParamsLoader.SetIntendedThenLookup | src/Utils/ParamsLoader.py:88-93 | corrected: the intended assignment is found again at any depth |
| ParamsLoader.SetIntendedKeepsSiblings | src/Utils/ParamsLoader.py:88-93 | corrected: every sibling on the path is kept |
| ParamsLoader.SetOneKeyAgrees | src/Utils/ParamsLoader.py:93 | both agree on a one-piece key |
| ParamsLoader.SetAsWrittenLosesData | src/Utils/ParamsLoader.py:88-93 | as written: a concrete sibling loss and a KeyError on an existing path |
| OldParamsLoader.ConfigManager.constructor | old/old_ParamsLoader.py:8-10 | the settings field holds the loaded value |
| OldParamsLoader.ConfigManager.RefreshConfig | old/old_ParamsLoader.py:55-56 | the field is reloaded |
| OldParamsLoader.ConfigManager.Get | old/old_ParamsLoader.py:40-53 | the old walk over the field, which changes nothing |
| OldParamsLoader.OldWalkHit | old/old_ParamsLoader.py:44-47 | on an existing path, the value there |
| OldParamsLoader.OldWalkTruthyMiss | old/old_ParamsLoader.py:48-49 | on a miss with a truthy default, the default |
| OldParamsLoader.OldAgreesWithCurrent | old/old_ParamsLoader.py:40-53 | old and current `get` agree except on a miss with a falsy default |
| OldParamsLoader.OldWalkMissReturnsLastValue | old/old_ParamsLoader.py:50-53 | as written, such a miss returns the value reached, not `None` |
| ReportGen.SGetDict | src/FileFinder/ReportGen.py:28-29 | the stored value, else the default |
| ReportGen.SGetRDict | src/FileFinder/ReportGen.py:32-39 | the loop computes the walk over the `.`-separated keys |
| ReportGen.RWalkHit | src/FileFinder/ReportGen.py:32-39 | an existing path gives its value, whatever the default |
| ReportGen.RWalkMiss | src/FileFinder/ReportGen.py:35-38 | with a non-dict default, a missing path gives the default |
| ReportGen.RWalkIntoDefault | src/FileFinder/ReportGen.py:36 | a dict default becomes the current value and is walked into |
| ReportGen.RWalkOneKey | src/FileFinder/ReportGen.py:28-39 | one key is the plain read |
| ReportGen.Pad | src/FileFinder/ReportGen.py:46 | `w` digits whose value is `n` |
| ReportGen.IsoFormat | src/FileFinder/ReportGen.py:46 | 19 characters |
| ReportGen.FormatDate | src/FileFinder/ReportGen.py:42-46 | `"N/A"` for a non-datetime; 19 characters for a datetime |
| ReportGen.ReadFormatDate | src/FileFinder/ReportGen.py:42-46 | the rendering reads back as the date and time to the second; `"N/A"` reads as nothing |
| ReportGen.MicrosMonotone | src/FileFinder/ReportGen.py:55 | an earlier datetime counts fewer microseconds |
| ReportGen.GetDuration | src/FileFinder/ReportGen.py:49-56 | as written: always `"N/A"` |
| ReportGen.DurationIntended | src/FileFinder/ReportGen.py:49-55 | corrected: a duration exactly when both ends are datetimes |
| ReportGen.DurationSign | src/FileFinder/ReportGen.py:55 | positive exactly when start is first, zero exactly when equal, negative otherwise |
| ReportGen.DurationAdds | src/FileFinder/ReportGen.py:55 | durations from `a` to `b` and `b` to `c` add to `a` to `c` |
| ReportGen.DurationLost | src/FileFinder/ReportGen.py:80-82 | the report shows `"N/A"` for a positive duration |
| ReportGen.Separator | src/FileFinder/ReportGen.py:65 | `width` copies of `sep` (none when not positive) |
| ReportGen.SeparatorAdds | src/FileFinder/ReportGen.py:65 | copies concatenate |
| ReportGen.DefaultSeparator | src/FileFinder/ReportGen.py:59-65 | the default separator is forty `=` |

## Left out

- Filesystem and time: `os.walk`, `scandir`, `listdir`, `glob`, `getmtime` and `getctime` read a tree value and its fields. Symbolic links, permissions and read errors are not modelled; an unreadable file is a missing one.
- `find_latest_hd_folders` on a file whose directory is missing: `os.listdir` raises FileNotFoundError; the model lists nothing there, so the file is recorded as missing and warned about.
- `find_holo_cine_files` on a missing root folder: `os.listdir` raises FileNotFoundError; the model lists nothing, so every identifier reports "no directory".
- `abspath`, `resolve` and `as_posix`: paths are component sequences from the root, already absolute and normalised.
- Python's `\d` also matches non-ASCII decimal digits; the matchers accept ASCII digits only.
- JSON parsing and serialisation: a file carries its parsed value, or none when malformed. `json_dump_nullable` keeps the value in place of its text.
- Logging: `Logger.info`, `warn` and `error` return and are dropped. `Logger.fatal` raises, but none of the modelled paths reach it.
- `DB`: connection setup, the file override, `PRAGMA journal_mode`, `select`, `upsert`, `count` and `clear_db` are not modelled. The `isidentifier` guards never fire and are left out. The type strings of the schema are kept only as NOT NULL flags and references.
- `DROP TABLE` with foreign keys on: sqlite's refusal to drop a referenced parent is not modelled; `ClearDB` never drops `holo_data`.
- `FileFinder.searchFolder`: the field is set and never read.
- `get_file_size`, `get_raw_data` and `scan_directories` of `FinderUtils.py`: they are not called by the scanner.
- The png list of `get_ef_folders_data` (`rglob("*.png")`): the records carry the folder and its input parameters only.
- `copy_ef_results`: the `makedirs` calls and the copies are left out; only the matching of EF folders to identifiers is modelled.
- `open_folder`: process spawning.
- Callbacks: progress and error callbacks are results (the sequence of arguments), not calls. For `copy_ef_results`, the `[EXPORT ERROR]` messages are given by the unmatched folder names they quote.
- `find_python`, `get_app_version`, `pause_on_error` and `main` of the launcher: process spawning and console I/O. Only the version gate of `main` is modelled.
- `__find_config`, `__get_settings` and `_find_config`, `_get_settings`: the settings JSON is a parameter; file and JSON errors are not modelled.
- `__parse_data` and `generate_report`: the report's text layout, centring, `DB.count`, `now()` and the file write are left out; the separator, the dates and the durations are modelled.
- `ReportGen.FormatDate`: only the `timespec="seconds"` rendering of a naive datetime; other timespecs and time zones are not modelled.
- `ReportGen.GetDuration`: `str(timedelta)` is never reached, since `__format_date` returns `"N/A"` for a timedelta.
- `group_ef_counts_by_shared_metadata` of `old/Tools/utils.py`: sqlite and sha256.
- Concurrency: the modelled code is sequential.

## Findings

| source | as written | input that shows it | evidently intended | confidence | as-written member | corrected member |
|---|---|---|---|---|---|---|
| src/FileFinder/FileFinderClass.py:177-179 | `get_render_number(ef["ef_folder"])` passes a `str`, which has no `.stem`; the swallowed AttributeError gives `None`, and `ef_render.render_number` is NOT NULL, so the insert raises and ends the scan | `250101_x/A.holo` with `A_HD_3/eyeflow/A_HD_3_EF_12`: the holo and HD rows are stored, then the EF insert raises | the render number 12 read from the folder name, one `ef_render` row per EF folder | not executed | Scanner.FindfilesAsWritten | Scanner.ScanEfsCompletes |
| old/old_ParamsLoader.py:44-53 | on a miss without a truthy default the loop logs and carries on, returning the value reached so far | `get("b")` on `{"a": 1}` returns the whole settings | `None`, as the current `ConfigManager.get` returns | not executed | OldParamsLoader.OldWalkMissReturnsLastValue | ParamsLoader.Get |
| src/Utils/ParamsLoader.py:88-93 | the guard `not isinstance(cur, dict) or k in cur` replaces an existing intermediate dict with `{}` and leaves a missing one missing | `set("a.b", 5)` on `{"a": {"b": 1, "c": 2}}` gives `{"a": {"b": 5}}`; `set("a.b.c", 5)` raises KeyError | create a missing or non-dict intermediate, keep an existing dict | not executed | ParamsLoader.SetAsWrittenLosesData | ParamsLoader.SetIntendedThenLookup |
| src/FileFinder/ReportGen.py:49-56 | `__get_duration` hands a timedelta to `__format_date`, which answers `"N/A"` for anything not a datetime; the report also passes already formatted strings (lines 80-82) | a scan started one second before its insert | the duration itself | not executed | ReportGen.DurationLost | ReportGen.DurationSign |
