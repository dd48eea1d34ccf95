/**
 * String primitives shared by the naming-convention parsers: Python's
 * `startswith`/`endswith`/`in`/`find`/`split`/`strip`/`int()` and the
 * decimal rendering of naturals, each written out over `seq<char>`.
 */
module Text {
  import opened Wrappers

  // ---------------------------------------------------------------------------
  // Prefixes, suffixes and occurrences
  // ---------------------------------------------------------------------------

  /** `s.startswith(p)` */
  predicate StartsWith(s: string, p: string) {
    |p| <= |s| && s[..|p|] == p
  }

  /** `s.endswith(p)` */
  predicate EndsWith(s: string, p: string) {
    |p| <= |s| && s[|s| - |p|..] == p
  }

  /** `pat` occurs in `s` starting at index `i`. */
  predicate OccursAt(s: string, pat: string, i: int) {
    0 <= i && i + |pat| <= |s| && s[i..i + |pat|] == pat
  }

  /** Python's `s.find(pat, from)`: the lowest index not below `from` at which `pat` occurs. */
  function FindFrom(s: string, pat: string, from: nat): (r: Option<nat>)
    decreases |s| - from
    ensures r.Some? ==> from <= r.value && OccursAt(s, pat, r.value)
    ensures r.Some? ==> forall j :: from <= j < r.value ==> !OccursAt(s, pat, j)
    ensures r.None? ==> forall j :: from <= j ==> !OccursAt(s, pat, j)
  {
    if from + |pat| > |s| then None
    else if s[from..from + |pat|] == pat then Some(from)
    else FindFrom(s, pat, from + 1)
  }

  /** Python's `s.find(pat)`, with `None` standing for -1. */
  function Find(s: string, pat: string): (r: Option<nat>)
    ensures r.Some? ==> OccursAt(s, pat, r.value) && forall j :: 0 <= j < r.value ==> !OccursAt(s, pat, j)
    ensures r.None? <==> forall j :: !OccursAt(s, pat, j)
  {
    FindFrom(s, pat, 0)
  }

  /** Python's `pat in s`. */
  function Contains(s: string, pat: string): (b: bool)
    ensures b <==> exists i :: OccursAt(s, pat, i)
  {
    Find(s, pat).Some?
  }

  // ---------------------------------------------------------------------------
  // Splitting and joining on a one-character separator
  // ---------------------------------------------------------------------------

  /** `sep.join(parts)` */
  function JoinWith(parts: seq<string>, sep: string): string
  {
    if |parts| == 0 then ""
    else if |parts| == 1 then parts[0]
    else parts[0] + sep + JoinWith(parts[1..], sep)
  }

  /** `"".join(parts)` */
  function Concat(parts: seq<string>): string
  {
    if |parts| == 0 then "" else parts[0] + Concat(parts[1..])
  }

  /**
   * Python's `s.split(c)` (and Rust's `s.split(c)`): the maximal pieces
   * between occurrences of `c`, empty pieces included; there is always at
   * least one piece and joining them back with `c` gives `s`.
   */
  function Split(s: string, c: char): (r: seq<string>)
    decreases |s|
    ensures |r| >= 1
    ensures forall i :: 0 <= i < |r| ==> c !in r[i]
    ensures JoinWith(r, [c]) == s
  {
    if |s| == 0 then [""]
    else
      var rest := Split(s[1..], c);
      if s[0] == c then
        assert ([""] + rest)[1..] == rest;
        [""] + rest
      else
        var r := [[s[0]] + rest[0]] + rest[1..];
        assert r[1..] == rest[1..];
        assert JoinWith(rest, [c]) == rest[0] + (if |rest| == 1 then "" else [c] + JoinWith(rest[1..], [c]));
        r
  }

  /** Splitting `x + y` where `x` holds no separator glues `x` onto the first piece of `y`. */
  lemma {:induction false} SplitPrefix(x: string, y: string, c: char)
    requires c !in x
    ensures Split(x + y, c) == [x + Split(y, c)[0]] + Split(y, c)[1..]
    decreases |x|
  {
    if |x| == 0 {
      assert x + y == y;
      assert x + Split(y, c)[0] == Split(y, c)[0];
      assert Split(y, c) == [Split(y, c)[0]] + Split(y, c)[1..];
    } else {
      assert (x + y)[1..] == x[1..] + y;
      SplitPrefix(x[1..], y, c);
      assert [x[0]] + (x[1..] + Split(y, c)[0]) == x + Split(y, c)[0];
    }
  }

  /** Split undoes JoinWith when no piece holds the separator. */
  lemma {:induction false} SplitJoin(parts: seq<string>, c: char)
    requires |parts| >= 1
    requires forall i :: 0 <= i < |parts| ==> c !in parts[i]
    ensures Split(JoinWith(parts, [c]), c) == parts
    decreases |parts|
  {
    if |parts| == 1 {
      SplitPrefix(parts[0], "", c);
      assert parts[0] + "" == parts[0];
      assert [parts[0] + Split("", c)[0]] + Split("", c)[1..] == parts;
    } else {
      var tail := JoinWith(parts[1..], [c]);
      SplitJoin(parts[1..], c);
      assert JoinWith(parts, [c]) == parts[0] + ([c] + tail);
      SplitPrefix(parts[0], [c] + tail, c);
      assert ([c] + tail)[1..] == tail;
      assert Split([c] + tail, c) == [""] + parts[1..];
      assert parts[0] + "" == parts[0];
      assert parts == [parts[0]] + parts[1..];
    }
  }

  /** Python's `s.rfind(c)` for one character, with `None` standing for -1. */
  function RFind(s: string, c: char): (r: Option<nat>)
    ensures r.None? <==> c !in s
    ensures r.Some? ==> r.value < |s| && s[r.value] == c && c !in s[r.value + 1..]
    ensures r.Some? ==> forall j :: r.value < j < |s| ==> s[j] != c
  {
    if |s| == 0 then None
    else if s[|s| - 1] == c then Some(|s| - 1)
    else
      var r := RFind(s[..|s| - 1], c);
      assert s == s[..|s| - 1] + [s[|s| - 1]];
      if r.Some? then
        assert s[r.value + 1..] == s[..|s| - 1][r.value + 1..] + [s[|s| - 1]];
        r
      else r
  }

  /** Joining one more piece appends the separator and the piece. */
  lemma {:induction false} JoinSnoc(parts: seq<string>, y: string, sep: string)
    requires |parts| >= 1
    ensures JoinWith(parts + [y], sep) == JoinWith(parts, sep) + sep + y
    decreases |parts|
  {
    if |parts| == 1 {
      assert (parts + [y])[1..] == [y];
    } else {
      assert (parts + [y])[1..] == parts[1..] + [y];
      JoinSnoc(parts[1..], y, sep);
    }
  }

  /** The joined text ends with the last piece, after a separator when there are several. */
  lemma JoinLast(parts: seq<string>, sep: string) returns (pre: string)
    requires |parts| >= 1
    ensures JoinWith(parts, sep) == pre + parts[|parts| - 1]
    ensures |parts| == 1 ==> pre == ""
    ensures |parts| > 1 ==> EndsWith(pre, sep)
  {
    if |parts| == 1 {
      pre := "";
      assert pre + parts[0] == parts[0];
    } else {
      var init := parts[..|parts| - 1];
      assert parts == init + [parts[|parts| - 1]];
      JoinSnoc(init, parts[|parts| - 1], sep);
      pre := JoinWith(init, sep) + sep;
      assert pre[|pre| - |sep|..] == sep;
    }
  }

  /** Splitting `x + [c] + y`, where `y` holds no `c`, ends with the piece `y`. */
  lemma SplitLastPiece(x: string, c: char, y: string)
    requires c !in y
    ensures |Split(x + [c] + y, c)| >= 2
    ensures Split(x + [c] + y, c)[|Split(x + [c] + y, c)| - 1] == y
  {
    var parts := Split(x, c);
    JoinSnoc(parts, y, [c]);
    assert JoinWith(parts + [y], [c]) == x + [c] + y;
    assert forall i :: 0 <= i < |parts + [y]| ==> c !in (parts + [y])[i] by {
      forall i | 0 <= i < |parts + [y]| ensures c !in (parts + [y])[i] {
        if i < |parts| {
          assert (parts + [y])[i] == parts[i];
        }
      }
    }
    SplitJoin(parts + [y], c);
  }

  /** A split has more than one piece exactly when the separator occurs. */
  lemma SplitCount(s: string, c: char)
    ensures |Split(s, c)| >= 2 <==> c in s
  {
    if c !in s {
      SplitNoSep(s, c);
    }
  }

  /**
   * With two or more pieces, the text is the first piece, the separator,
   * the second piece and then either nothing or the separator and the rest.
   */
  lemma SplitSecondPiece(s: string, c: char) returns (post: string)
    requires |Split(s, c)| >= 2
    ensures s == Split(s, c)[0] + [c] + Split(s, c)[1] + post
    ensures post == "" || post[0] == c
  {
    var parts := Split(s, c);
    assert JoinWith(parts, [c]) == parts[0] + [c] + JoinWith(parts[1..], [c]);
    if |parts| == 2 {
      post := "";
      assert JoinWith(parts[1..], [c]) == parts[1];
    } else {
      post := [c] + JoinWith(parts[2..], [c]);
      assert parts[1..][1..] == parts[2..];
      assert JoinWith(parts[1..], [c]) == parts[1] + [c] + JoinWith(parts[2..], [c]);
    }
  }

  /** The last piece of a split is the text after the last separator (all of it when there is none). */
  lemma SplitLastField(s: string, c: char) returns (pre: string)
    ensures s == pre + Split(s, c)[|Split(s, c)| - 1]
    ensures pre == "" || pre[|pre| - 1] == c
  {
    var parts := Split(s, c);
    pre := JoinLast(parts, [c]);
    if |parts| > 1 {
      assert pre[|pre| - 1..] == [c];
    }
  }

  /** The text before the first `c` is the first piece of the split. */
  lemma {:induction false} SplitFirstPiece(s: string, c: char, i: nat)
    requires i < |s| && s[i] == c && c !in s[..i]
    ensures Split(s, c)[0] == s[..i]
    ensures |Split(s, c)| >= 2
  {
    var y := s[i..];
    assert s == s[..i] + y;
    SplitPrefix(s[..i], y, c);
    assert y[0] == c;
    assert Split(y, c) == [""] + Split(y[1..], c);
    assert s[..i] + "" == s[..i];
  }

  /** Without any `c`, the split is the whole string. */
  lemma SplitNoSep(s: string, c: char)
    requires c !in s
    ensures Split(s, c) == [s]
  {
    SplitJoin([s], c);
  }

  // ---------------------------------------------------------------------------
  // Whitespace and stripping
  // ---------------------------------------------------------------------------

  /** Python's `str.isspace` for one character. */
  predicate IsPySpace(ch: char) {
    ch == ' ' || ('\t' <= ch <= '\r') || ('\U{1c}' <= ch <= '\U{1f}')
    || ch == '\U{85}' || ch == '\U{a0}' || ch == '\U{1680}'
    || ('\U{2000}' <= ch <= '\U{200a}') || ch == '\U{2028}' || ch == '\U{2029}'
    || ch == '\U{202f}' || ch == '\U{205f}' || ch == '\U{3000}'
  }

  /** Python's `s.lstrip()`: drops the leading whitespace. */
  function LStrip(s: string): string
  {
    if |s| > 0 && IsPySpace(s[0]) then LStrip(s[1..]) else s
  }

  /** Python's `s.rstrip()`: drops the trailing whitespace. */
  function RStrip(s: string): string
  {
    if |s| > 0 && IsPySpace(s[|s| - 1]) then RStrip(s[..|s| - 1]) else s
  }

  /** LStrip removes a maximal prefix of whitespace and nothing else. */
  lemma {:induction false} LStripSpec(s: string)
    ensures |LStrip(s)| <= |s| && LStrip(s) == s[|s| - |LStrip(s)|..]
    ensures LStrip(s) == "" || !IsPySpace(LStrip(s)[0])
    ensures forall k :: 0 <= k < |s| - |LStrip(s)| ==> IsPySpace(s[k])
    decreases |s|
  {
    if |s| > 0 && IsPySpace(s[0]) {
      LStripSpec(s[1..]);
      assert forall k :: 1 <= k < |s| - |LStrip(s)| ==> s[k] == s[1..][k - 1];
    }
  }

  /** RStrip removes a maximal suffix of whitespace and nothing else. */
  lemma {:induction false} RStripSpec(s: string)
    ensures |RStrip(s)| <= |s| && RStrip(s) == s[..|RStrip(s)|]
    ensures RStrip(s) == "" || !IsPySpace(RStrip(s)[|RStrip(s)| - 1])
    ensures forall k :: |RStrip(s)| <= k < |s| ==> IsPySpace(s[k])
    decreases |s|
  {
    if |s| > 0 && IsPySpace(s[|s| - 1]) {
      RStripSpec(s[..|s| - 1]);
      assert forall k :: |RStrip(s)| <= k < |s| - 1 ==> s[k] == s[..|s| - 1][k];
    }
  }

  /** Python's `s.strip()`. */
  function Strip(s: string): string
  {
    RStrip(LStrip(s))
  }

  // ---------------------------------------------------------------------------
  // Decimal digits
  // ---------------------------------------------------------------------------

  predicate IsDigit(c: char) {
    '0' <= c <= '9'
  }

  predicate AllDigits(s: string) {
    forall i :: 0 <= i < |s| ==> IsDigit(s[i])
  }

  function DigitValue(c: char): nat
    requires IsDigit(c)
  {
    (c as int) - ('0' as int)
  }

  function DigitChar(d: nat): (c: char)
    requires d < 10
    ensures IsDigit(c) && DigitValue(c) == d
  {
    (('0' as int) + d) as char
  }

  /** The value of a string of decimal digits, most significant first. */
  function DigitsValue(s: string): nat
    requires AllDigits(s)
  {
    if |s| == 0 then 0 else DigitsValue(s[..|s| - 1]) * 10 + DigitValue(s[|s| - 1])
  }

  /** The decimal rendering of `n` (Python `str(n)`, Rust `format!("{}", n)`). */
  function NatToDecimal(n: nat): (r: string)
    ensures |r| >= 1 && AllDigits(r)
    ensures |r| > 1 ==> r[0] != '0'
    ensures DigitsValue(r) == n
  {
    if n < 10 then [DigitChar(n)]
    else
      var r := NatToDecimal(n / 10) + [DigitChar(n % 10)];
      assert r[..|r| - 1] == NatToDecimal(n / 10);
      r
  }

  /**
   * Python's `int(s)` on a string: surrounding whitespace, an optional sign
   * and at least one ASCII digit; `None` where Python raises ValueError.
   */
  function ParsePyInt(s: string): (r: Option<int>)
  {
    var t := Strip(s);
    if |t| > 0 && (t[0] == '+' || t[0] == '-') then
      var d := t[1..];
      if |d| > 0 && AllDigits(d) then
        Some(if t[0] == '-' then -(DigitsValue(d) as int) else DigitsValue(d))
      else None
    else if |t| > 0 && AllDigits(t) then Some(DigitsValue(t))
    else None
  }

  /** Stripping a string without whitespace at its ends changes nothing. */
  lemma StripNoSpace(s: string)
    requires s == "" || (!IsPySpace(s[0]) && !IsPySpace(s[|s| - 1]))
    ensures Strip(s) == s
  {
    assert LStrip(s) == s;
    assert RStrip(s) == s;
  }

  /** `int(str(n)) == n` */
  lemma ParsePyIntOfDecimal(n: nat)
    ensures ParsePyInt(NatToDecimal(n)) == Some(n)
  {
    var r := NatToDecimal(n);
    assert !IsPySpace(r[0]) && !IsPySpace(r[|r| - 1]);
    StripNoSpace(r);
  }
}
