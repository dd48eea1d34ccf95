/**
 * `get_name_after_hd` of `old/Tools/utils.py`: the text after the first
 * `HD_<digits>_` of a basename, without its extension. (The file's
 * `extract_last_block_between_bars` and `get_file_name_without_hd` are
 * FinderUtils.LastBarBlock and FinderUtils.GetFileNameWithoutHd.)
 */
module OldTools {
  import opened Wrappers
  import opened Text
  import opened FileSystem
  import opened PathParser

  /** The number of consecutive ASCII digits of `s` from index `j` on. */
  function DigitRun(s: string, j: nat): (k: nat)
    requires j <= |s|
    ensures j + k <= |s|
    ensures forall m :: j <= m < j + k ==> IsDigit(s[m])
    ensures j + k == |s| || !IsDigit(s[j + k])
    decreases |s| - j
  {
    if j < |s| && IsDigit(s[j]) then 1 + DigitRun(s, j + 1) else 0
  }

  /**
   * Where a match of `HD_\d+_` starting at index `i` ends, if there is one.
   * The greedy `\d+` takes the whole digit run, and backing off cannot help
   * since the character after a shorter run is a digit, not `_`.
   */
  function HdMatchEnd(s: string, i: nat): (r: Option<nat>)
    ensures r.Some? ==> i + 5 <= r.value <= |s| && s[i..i + 3] == "HD_" && s[r.value - 1] == '_'
    ensures r.Some? ==> forall m :: i + 3 <= m < r.value - 1 ==> IsDigit(s[m])
  {
    if i + 3 <= |s| && s[i..i + 3] == "HD_" then
      var k := DigitRun(s, i + 3);
      if k >= 1 && i + 3 + k < |s| && s[i + 3 + k] == '_' then Some(i + 3 + k + 1) else None
    else None
  }

  /** `re.search(r'HD_\d+_', s[from:])`: the leftmost match start at or after `from`, with its end. */
  function SearchHd(s: string, from: nat): (r: Option<(nat, nat)>)
    ensures r.Some? ==> from <= r.value.0 && HdMatchEnd(s, r.value.0) == Some(r.value.1)
    ensures r.Some? ==> forall j: nat :: from <= j < r.value.0 ==> HdMatchEnd(s, j).None?
    ensures r.None? ==> forall j: nat :: from <= j ==> HdMatchEnd(s, j).None?
    decreases |s| - from
  {
    if from + 3 > |s| then
      assert forall j: nat :: from <= j ==> HdMatchEnd(s, j).None?;
      None
    else match HdMatchEnd(s, from)
      case Some(e) => Some((from, e))
      case None => SearchHd(s, from + 1)
  }

  /**
   * `get_name_after_hd`: the part of the basename after its first
   * `HD_<digits>_`, with the last extension removed as `os.path.splitext`
   * does; `None` when the basename holds no such pattern.
   */
  function GetNameAfterHd(p: Path): (r: Option<string>)
    ensures r.None? <==> forall i: nat :: HdMatchEnd(Basename(p), i).None?
    ensures r.Some? ==> exists i: nat :: HdMatchEnd(Basename(p), i).Some?
                                    && (forall j: nat :: j < i ==> HdMatchEnd(Basename(p), j).None?)
                                    && r.value == SplitExtRoot(Basename(p)[HdMatchEnd(Basename(p), i).value..])
  {
    var name := Basename(p);
    match SearchHd(name, 0)
    case None => None
    case Some((i, e)) => Some(SplitExtRoot(name[e..]))
  }

  /** A name that opens with `HD_<n>_` gives back what follows, minus its extension. */
  lemma NameAfterHdOf(dir: Path, n: nat, base: string, ext: string)
    requires NonDotBefore(base, |base|) && '.' !in ext
    ensures GetNameAfterHd(dir + ["HD_" + NatToDecimal(n) + "_" + base + "." + ext]) == Some(base)
  {
    var digits := NatToDecimal(n);
    var name := "HD_" + digits + "_" + base + "." + ext;
    assert Basename(dir + [name]) == name;
    assert name[0..3] == "HD_";
    assert forall m :: 3 <= m < 3 + |digits| ==> name[m] == digits[m - 3];
    assert name[3 + |digits|] == '_';
    assert DigitRun(name, 3) == |digits| by {
      DigitRunOf(name, 3, |digits|);
    }
    assert HdMatchEnd(name, 0) == Some(3 + |digits| + 1);
    assert name[3 + |digits| + 1..] == base + "." + ext;
    SplitExtOfExtension(base, ext);
  }

  /** The digit run is exactly `k` long when `k` digits are followed by a non-digit. */
  lemma {:induction false} DigitRunOf(s: string, j: nat, k: nat)
    requires j + k < |s|
    requires forall m :: j <= m < j + k ==> IsDigit(s[m])
    requires !IsDigit(s[j + k])
    ensures DigitRun(s, j) == k
    decreases k
  {
    if k > 0 {
      DigitRunOf(s, j + 1, k - 1);
    }
  }
}
