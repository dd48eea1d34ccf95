/**
 * The naming conventions of the acquisition tree (`path_parser.py`):
 * batch folders start with a six-digit `YYMMDD` date, acquisition files
 * carry a measure tag as their second `_` field, render folders end in
 * `_<number>`; plus the pathlib / os.path name helpers they rely on and
 * the `^<prefix>(\d+)$` matcher used for HD and EF folder names.
 *
 * Regular expressions are written out: `.` matches any character but a
 * line feed, `$` matches at the end or just before a final line feed.
 */
module PathParser {
  import opened Wrappers
  import opened Text
  import opened PyValues
  import opened FileSystem

  // ---------------------------------------------------------------------------
  // pathlib / os.path name helpers
  // ---------------------------------------------------------------------------

  /**
   * `PurePath.stem`: the name without its last suffix. The suffix starts at
   * the last dot, which must be neither the first nor the last character.
   */
  function Stem(name: string): (r: string)
    ensures r == name || (exists i :: 0 < i < |name| - 1 && name[i] == '.' && '.' !in name[i + 1..] && r == name[..i])
    ensures '.' !in name ==> r == name
  {
    match RFind(name, '.')
    case Some(i) => if 0 < i < |name| - 1 then name[..i] else name
    case None => name
  }

  /** A name with a proper extension loses exactly that extension. */
  lemma StemOfExtension(base: string, ext: string)
    requires |base| > 0 && |ext| > 0 && '.' !in ext
    ensures Stem(base + "." + ext) == base
  {
    var name := base + "." + ext;
    assert name[|base|] == '.';
    assert name[|base| + 1..] == ext;
    assert forall j :: |base| < j < |name| ==> name[j] == ext[j - |base| - 1];
    assert RFind(name, '.') == Some(|base|);
    assert name[..|base|] == base;
  }

  /** True when some character before index `k` of `s` is not a dot. */
  predicate NonDotBefore(s: string, k: nat)
    requires k <= |s|
  {
    exists j :: 0 <= j < k && s[j] != '.'
  }

  /**
   * `os.path.splitext(name)[0]` for a name without `/`: drops the text from
   * the last dot on, unless only dots precede that dot (a leading-dot name
   * such as `.profile` has no extension).
   */
  function SplitExtRoot(name: string): (r: string)
    ensures r == name || (exists i :: 0 < i < |name| && name[i] == '.' && '.' !in name[i + 1..] && NonDotBefore(name, i) && r == name[..i])
    ensures '.' !in name ==> r == name
  {
    match RFind(name, '.')
    case Some(i) => if NonDotBefore(name, i) then name[..i] else name
    case None => name
  }

  /** `os.path.splitext` removes exactly a final `.ext` from a name that has more than dots before it. */
  lemma SplitExtOfExtension(base: string, ext: string)
    requires NonDotBefore(base, |base|) && '.' !in ext
    ensures SplitExtRoot(base + "." + ext) == base
  {
    var name := base + "." + ext;
    assert name[|base|] == '.';
    assert name[|base| + 1..] == ext;
    assert forall j :: |base| < j < |name| ==> name[j] == ext[j - |base| - 1];
    assert RFind(name, '.') == Some(|base|);
    var j :| 0 <= j < |base| && base[j] != '.';
    assert name[j] == base[j];
    assert name[..|base|] == base;
  }

  // ---------------------------------------------------------------------------
  // Folder-name predicates
  // ---------------------------------------------------------------------------

  /** `is_ef_folder` (also `FinderUtils.is_ef_folder`): the name contains `_EF_`. */
  function IsEfFolder(name: string): (b: bool)
    ensures b <==> exists i :: OccursAt(name, "_EF_", i)
  {
    Contains(name, "_EF_")
  }

  /** `.*$` matches the whole of `rest`: no line feed, except possibly as its last character. */
  predicate DotStarToEnd(rest: string) {
    |rest| == 0 || '\n' !in rest[..|rest| - 1]
  }

  /** Six ASCII digits open the name and `.*$` matches what follows. */
  predicate SixDigitPrefix(name: string) {
    |name| >= 6 && AllDigits(name[..6]) && DotStarToEnd(name[6..])
  }

  /**
   * `check_folder_name_format`: the basename of the path matches
   * `^\d{6}.*$`.
   */
  function CheckFolderNameFormat(p: Path): (b: bool)
    ensures b <==> SixDigitPrefix(Basename(p))
  {
    SixDigitPrefix(Basename(p))
  }

  /** The two-digit decimal rendering `%02d` of a number below 100. */
  function TwoDigits(n: nat): (r: string)
    requires n < 100
    ensures |r| == 2 && AllDigits(r) && DigitsValue(r) == n
  {
    var r := [DigitChar(n / 10), DigitChar(n % 10)];
    assert r[..1] == [DigitChar(n / 10)] && r[..1][..0] == [];
    assert DigitsValue(r[..1]) == n / 10;
    assert DigitsValue(r) == (n / 10) * 10 + n % 10;
    r
  }

  /**
   * The date `2000+YY-MM-DD` a basename spells when it matches
   * `^(\d{2})(\d{2})(\d{2}).*$` and the three numbers form a real date.
   */
  function FolderNameDate(p: Path): (r: Option<Date>)
    ensures !SixDigitPrefix(Basename(p)) ==> r.None?
    ensures SixDigitPrefix(Basename(p)) ==>
      var n := Basename(p);
      var y, m, dd := 2000 + DigitsValue(n[0..2]), DigitsValue(n[2..4]), DigitsValue(n[4..6]);
      r == if IsValidDate(y, m, dd) then Some(Date(y, m, dd)) else None
  {
    var n := Basename(p);
    if !SixDigitPrefix(n) then None
    else
      assert n[..6][0..2] == n[0..2] && n[..6][2..4] == n[2..4] && n[..6][4..6] == n[4..6];
      var y, m, dd := 2000 + DigitsValue(n[0..2]), DigitsValue(n[2..4]), DigitsValue(n[4..6]);
      if IsValidDate(y, m, dd) then Some(Date(y, m, dd)) else None
  }

  /**
   * `parse_folder_date`: the date the basename spells; when the name does
   * not match, or the three numbers do not form a date, the creation date
   * `ctime` of the path (read from the filesystem by the source) instead.
   */
  function ParseFolderDate(p: Path, ctime: Date): (d: Date)
    ensures !SixDigitPrefix(Basename(p)) ==> d == ctime
    ensures SixDigitPrefix(Basename(p)) ==>
      var n := Basename(p);
      var y, m, dd := 2000 + DigitsValue(n[0..2]), DigitsValue(n[2..4]), DigitsValue(n[4..6]);
      d == if IsValidDate(y, m, dd) then Date(y, m, dd) else ctime
    ensures d == ctime || IsValidDate(d.year, d.month, d.day)
  {
    FolderNameDate(p).GetOr(ctime)
  }

  /**
   * Every date of the years 2000-2099 written `YYMMDD`, followed by any
   * text without a line feed, is read back exactly.
   */
  lemma ParseFolderDateOf(dir: Path, date: Date, rest: string, ctime: Date)
    requires IsValidDate(date.year, date.month, date.day) && 2000 <= date.year < 2100
    requires '\n' !in rest
    ensures ParseFolderDate(dir + [TwoDigits(date.year - 2000) + TwoDigits(date.month) + TwoDigits(date.day) + rest], ctime) == date
  {
    var yy, mm, dd := TwoDigits(date.year - 2000), TwoDigits(date.month), TwoDigits(date.day);
    var n := yy + mm + dd + rest;
    assert Basename(dir + [n]) == n;
    assert n[0..2] == yy && n[2..4] == mm && n[4..6] == dd;
    assert n[6..] == rest;
    assert forall i :: 0 <= i < 6 ==> n[..6][i] == n[i];
  }

  // ---------------------------------------------------------------------------
  // Measure tag and render number
  // ---------------------------------------------------------------------------

  /**
   * `get_measure_tag`: the second `_`-separated field of the stem of the
   * name, or `None` when the stem has no `_` (the IndexError the source
   * swallows).
   */
  function GetMeasureTag(name: string): (r: Option<string>)
    ensures r.None? <==> '_' !in Stem(name)
  {
    var parts := Split(Stem(name), '_');
    SplitCount(Stem(name), '_');
    if |parts| >= 2 then Some(parts[1]) else None
  }

  /**
   * The measure tag is the text between the first `_` of the stem and the
   * next `_` (or the end of the stem).
   */
  lemma MeasureTagIsSecondField(name: string) returns (pre: string, post: string)
    requires '_' in Stem(name)
    ensures GetMeasureTag(name).Some?
    ensures Stem(name) == pre + "_" + GetMeasureTag(name).value + post
    ensures '_' !in pre && '_' !in GetMeasureTag(name).value
    ensures post == "" || post[0] == '_'
  {
    var stem := Stem(name);
    SplitCount(stem, '_');
    pre := Split(stem, '_')[0];
    post := SplitSecondPiece(stem, '_');
  }

  /** `get_render_number`, see RenderNumberIsLastField. */
  function GetRenderNumber(name: string): Option<int>
  {
    var parts := Split(Stem(name), '_');
    ParsePyInt(parts[|parts| - 1])
  }

  /** The render number is read from the text after the last `_` of the stem, and only from it. */
  lemma RenderNumberIsLastField(name: string) returns (pre: string, last: string)
    ensures Stem(name) == pre + last && '_' !in last
    ensures pre == "" || pre[|pre| - 1] == '_'
    ensures GetRenderNumber(name) == ParsePyInt(last)
  {
    var parts := Split(Stem(name), '_');
    last := parts[|parts| - 1];
    pre := SplitLastField(Stem(name), '_');
  }

  /** A render folder named `<prefix>_<n>` (no dot in the prefix) has render number `n`. */
  lemma RenderNumberOf(prefix: string, n: nat)
    requires '.' !in prefix
    ensures GetRenderNumber(prefix + "_" + NatToDecimal(n)) == Some(n)
  {
    var digits := NatToDecimal(n);
    var name := prefix + "_" + digits;
    assert '_' !in digits;
    assert '.' !in name by {
      assert forall i :: 0 <= i < |name| ==> name[i] != '.' by {
        forall i | 0 <= i < |name| ensures name[i] != '.' {
          if i < |prefix| {
            assert name[i] == prefix[i];
          } else if i > |prefix| {
            assert name[i] == digits[i - |prefix| - 1];
          }
        }
      }
    }
    assert prefix + "_" + digits == prefix + ['_'] + digits;
    SplitLastPiece(prefix, '_', digits);
    ParsePyIntOfDecimal(n);
  }

  /** An HD folder name of the convention. */
  lemma RenderNumberHdExample()
    ensures GetRenderNumber("SAMPLE01_HD_3") == Some(3)
  {
    assert DigitChar(3) == '3';
    assert NatToDecimal(3) == "3";
    assert "SAMPLE01_HD" + "_" + NatToDecimal(3) == "SAMPLE01_HD_3";
    RenderNumberOf("SAMPLE01_HD", 3);
  }

  /** An EF folder name of the convention. */
  lemma RenderNumberEfExample()
    ensures GetRenderNumber("SAMPLE01_HD_3_EF_12") == Some(12)
  {
    assert DigitChar(1) == '1' && DigitChar(2) == '2';
    assert NatToDecimal(12) == NatToDecimal(1) + [DigitChar(2)] == "12";
    assert "SAMPLE01_HD_3_EF" + "_" + NatToDecimal(12) == "SAMPLE01_HD_3_EF_12";
    RenderNumberOf("SAMPLE01_HD_3_EF", 12);
  }

  // ---------------------------------------------------------------------------
  // `^<prefix>(\d+)$`
  // ---------------------------------------------------------------------------

  /**
   * `re.match(f"^{re.escape(prefix)}(\\d+)$", name)` and `int` of its
   * group: the name is the literal prefix followed by one or more ASCII
   * digits, optionally followed by a single final line feed.
   */
  function MatchNumbered(name: string, prefix: string): (r: Option<nat>)
    ensures r.Some? ==> exists d :: |d| > 0 && AllDigits(d) && DigitsValue(d) == r.value
                                   && (name == prefix + d || name == prefix + d + "\n")
  {
    if !StartsWith(name, prefix) then
      None
    else
      var rest := name[|prefix|..];
      assert name == prefix + rest;
      var d := if |rest| > 0 && rest[|rest| - 1] == '\n' then rest[..|rest| - 1] else rest;
      assert rest == d || rest == d + "\n";
      if |d| > 0 && AllDigits(d) then Some(DigitsValue(d)) else None
  }

  /** Conversely, every such name matches, and its number is the value of its digits. */
  lemma MatchNumberedDigits(name: string, prefix: string, d: string)
    requires |d| > 0 && AllDigits(d)
    requires name == prefix + d || name == prefix + d + "\n"
    ensures MatchNumbered(name, prefix) == Some(DigitsValue(d))
  {
    assert name[..|prefix|] == prefix;
    var rest := name[|prefix|..];
    if name == prefix + d {
      assert rest == d;
      assert rest[|rest| - 1] != '\n' by {
        assert IsDigit(d[|d| - 1]);
      }
    } else {
      assert rest == d + "\n";
      assert rest[..|rest| - 1] == d;
    }
  }

  /** The canonical `<prefix><n>` name matches with number `n`. */
  lemma MatchNumberedOf(prefix: string, n: nat)
    ensures MatchNumbered(prefix + NatToDecimal(n), prefix) == Some(n)
  {
    MatchNumberedDigits(prefix + NatToDecimal(n), prefix, NatToDecimal(n));
  }
}
