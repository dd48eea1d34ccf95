/**
 * The two helpers of `src/Utils/fs_utils.py` the scanner uses besides the
 * safe readers (those are FileSystem.ListDir, ReadText and LoadJson).
 */
module FsUtils {
  import opened Wrappers
  import opened PyValues
  import opened FileSystem

  /**
   * `get_last_update`: the modification time of an existing path, `None`
   * for a missing one.
   */
  function GetLastUpdate(fs: Node, p: Path): (r: Option<int>)
    ensures r.None? <==> !Exists(fs, p)
    ensures r.Some? ==> r.value == NodeAt(fs, p).value.meta.modified
  {
    match NodeAt(fs, p)
    case None => None
    case Some(n) => Some(n.meta.modified)
  }

  /**
   * `json_dump_nullable`: a truthy value is serialised, anything else
   * (missing, `None`, `{}`, `""`, `0`) becomes `None`. The serialised text
   * is represented by the value it serialises.
   */
  function JsonDumpNullable(v: Option<Value>): (r: Option<Value>)
    ensures r.Some? <==> v.Some? && Truthy(v.value)
    ensures r.Some? ==> r == v
  {
    if v.Some? && Truthy(v.value) then v else None
  }
}
