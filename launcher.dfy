/**
 * The version handling of the launcher (`src/Launcher/src/main.rs`): reading
 * a `Version` out of the text `python --version` prints, rendering it back,
 * the derived ordering the minimum-version gate uses, and the OSC 8
 * terminal hyperlink it prints in its error message.
 */
module Launcher {
  import opened Wrappers
  import opened Text

  // ---------------------------------------------------------------------------
  // Versions
  // ---------------------------------------------------------------------------

  const U32_LIMIT: nat := 0x1_0000_0000

  /** Rust's `u32`. */
  type U32 = x: nat | x < U32_LIMIT

  datatype Version = Version(major: U32, minor: U32, patch: U32)

  const MIN_PYTHON_VERSION: string := "3.13.0"

  // ---------------------------------------------------------------------------
  // `split_whitespace().last()`
  // ---------------------------------------------------------------------------

  /** Rust's `char::is_whitespace`: the Unicode White_Space property. */
  predicate IsRustSpace(ch: char) {
    ('\t' <= ch <= '\r') || ch == ' ' || ch == '\U{85}' || ch == '\U{a0}' || ch == '\U{1680}'
    || ('\U{2000}' <= ch <= '\U{200a}') || ch == '\U{2028}' || ch == '\U{2029}'
    || ch == '\U{202f}' || ch == '\U{205f}' || ch == '\U{3000}'
  }

  predicate NoSpace(s: string) {
    forall i :: 0 <= i < |s| ==> !IsRustSpace(s[i])
  }

  predicate AllSpace(s: string) {
    forall i :: 0 <= i < |s| ==> IsRustSpace(s[i])
  }

  /**
   * `t` is the last whitespace-separated token of `s`: `s` is `pre + t + post`
   * with `t` a non-empty run of non-whitespace, `post` only whitespace, and
   * `pre` empty or ending in whitespace.
   */
  predicate IsLastToken(s: string, pre: string, t: string, post: string) {
    && s == pre + t + post
    && |t| > 0 && NoSpace(t) && AllSpace(post)
    && (pre == "" || IsRustSpace(pre[|pre| - 1]))
  }

  /** The length of the maximal run of non-whitespace characters that ends `s`. */
  function TrailingRun(s: string): (n: nat)
    ensures n <= |s| && NoSpace(s[|s| - n..])
    ensures n == |s| || IsRustSpace(s[|s| - n - 1])
  {
    if |s| == 0 || IsRustSpace(s[|s| - 1]) then 0
    else
      var n' := TrailingRun(s[..|s| - 1]);
      assert forall i :: |s| - n' - 1 <= i < |s| - 1 ==> s[i] == s[..|s| - 1][i];
      n' + 1
  }

  /** `s.split_whitespace().last()` */
  function LastToken(s: string): Option<string>
  {
    if |s| == 0 then None
    else if IsRustSpace(s[|s| - 1]) then LastToken(s[..|s| - 1])
    else Some(s[|s| - TrailingRun(s)..])
  }

  /** There is no token exactly when `s` is empty or only whitespace. */
  lemma {:induction false} LastTokenNone(s: string)
    ensures LastToken(s).None? <==> AllSpace(s)
  {
    if |s| > 0 && IsRustSpace(s[|s| - 1]) {
      LastTokenNone(s[..|s| - 1]);
      assert forall i :: 0 <= i < |s| - 1 ==> s[i] == s[..|s| - 1][i];
    }
  }

  /** A token that is found is the last whitespace-separated token of `s`. */
  lemma {:induction false} LastTokenShape(s: string) returns (pre: string, post: string)
    requires LastToken(s).Some?
    ensures IsLastToken(s, pre, LastToken(s).value, post)
  {
    if IsRustSpace(s[|s| - 1]) {
      var s' := s[..|s| - 1];
      var post';
      pre, post' := LastTokenShape(s');
      post := post' + [s[|s| - 1]];
      assert s == s' + [s[|s| - 1]];
    } else {
      var t := s[|s| - TrailingRun(s)..];
      pre, post := s[..|s| - |t|], "";
      assert s == pre + t + post;
    }
  }

  /** The trailing run of `pre + t` is `t` when `t` has no whitespace and `pre` ends in some. */
  lemma {:induction false} TrailingRunOf(pre: string, t: string)
    requires |t| > 0 && NoSpace(t) && (pre == "" || IsRustSpace(pre[|pre| - 1]))
    ensures TrailingRun(pre + t) == |t|
    decreases |t|
  {
    var s := pre + t;
    var t' := t[..|t| - 1];
    assert s[|s| - 1] == t[|t| - 1];
    assert s[..|s| - 1] == pre + t';
    if |t'| > 0 {
      TrailingRunOf(pre, t');
    } else {
      assert pre + t' == pre;
    }
  }

  /** Conversely, the last token of `pre + t + post` is `t`. */
  lemma {:induction false} LastTokenOf(s: string, pre: string, t: string, post: string)
    requires IsLastToken(s, pre, t, post)
    ensures LastToken(s) == Some(t)
    decreases |post|
  {
    if |post| > 0 {
      var post' := post[..|post| - 1];
      assert s[|s| - 1] == post[|post| - 1];
      assert s[..|s| - 1] == pre + t + post';
      LastTokenOf(s[..|s| - 1], pre, t, post');
    } else {
      assert s == pre + t;
      assert s[|s| - 1] == t[|t| - 1];
      TrailingRunOf(pre, t);
      assert s[|s| - |t|..] == t;
    }
  }

  // ---------------------------------------------------------------------------
  // Numeric pieces
  // ---------------------------------------------------------------------------

  /**
   * The digit loop of `u32::from_str`: multiply by ten and add each digit,
   * failing on a non-digit or when the value overflows 32 bits.
   */
  function DigitsU32(d: string): Option<U32>
  {
    if |d| == 0 then Some(0)
    else match DigitsU32(d[..|d| - 1])
      case None => None
      case Some(v) =>
        if IsDigit(d[|d| - 1]) && v * 10 + DigitValue(d[|d| - 1]) < U32_LIMIT
        then Some(v * 10 + DigitValue(d[|d| - 1]))
        else None
  }

  /** The digit loop accepts exactly the digit strings whose value fits, and yields that value. */
  lemma {:induction false} DigitsU32Value(d: string)
    ensures DigitsU32(d) == if AllDigits(d) && DigitsValue(d) < U32_LIMIT then Some(DigitsValue(d)) else None
  {
    if |d| > 0 {
      var d' := d[..|d| - 1];
      DigitsU32Value(d');
      if AllDigits(d) {
        assert AllDigits(d');
      } else if AllDigits(d') {
        assert !IsDigit(d[|d| - 1]);
      }
    }
  }

  /**
   * `p.parse::<u32>()`: an optional `+`, then one or more ASCII digits whose
   * value fits in 32 bits; no whitespace is skipped.
   */
  function ParseU32(p: string): (r: Option<U32>)
  {
    var digits := if |p| > 0 && p[0] == '+' then p[1..] else p;
    if |digits| == 0 then None else DigitsU32(digits)
  }

  /** `u32` parsing reads back what `format!("{}", n)` prints. */
  lemma ParseU32OfDecimal(n: U32)
    ensures ParseU32(NatToDecimal(n)) == Some(n)
  {
    var r := NatToDecimal(n);
    assert IsDigit(r[0]);
    DigitsU32Value(r);
  }

  /** `.filter_map(|s| s.parse().ok()).collect()`: the pieces that parse, in order. */
  function NumericPieces(pieces: seq<string>): (r: seq<U32>)
    ensures |r| <= |pieces|
  {
    if |pieces| == 0 then []
    else (match ParseU32(pieces[0]) case Some(n) => [n] case None => []) + NumericPieces(pieces[1..])
  }

  /** The first piece is kept exactly when it parses. */
  lemma NumericPiecesCons(x: string, rest: seq<string>)
    ensures NumericPieces([x] + rest) == (match ParseU32(x) case Some(n) => [n] case None => []) + NumericPieces(rest)
  {
    assert ([x] + rest)[0] == x && ([x] + rest)[1..] == rest;
  }

  /** Collecting is done piece by piece, so it distributes over concatenation. */
  lemma {:induction false} NumericPiecesAppend(a: seq<string>, b: seq<string>)
    ensures NumericPieces(a + b) == NumericPieces(a) + NumericPieces(b)
  {
    if |a| > 0 {
      assert (a + b)[0] == a[0] && (a + b)[1..] == a[1..] + b;
      NumericPiecesAppend(a[1..], b);
      var head := match ParseU32(a[0]) case Some(n) => [n] case None => [];
      assert NumericPieces(a + b) == head + (NumericPieces(a[1..]) + NumericPieces(b));
    } else {
      assert a + b == b;
    }
  }

  /** A piece that does not parse is dropped without a trace. */
  lemma NumericPiecesDrop(pieces: seq<string>, i: nat)
    requires i < |pieces| && ParseU32(pieces[i]).None?
    ensures NumericPieces(pieces) == NumericPieces(pieces[..i] + pieces[i + 1..])
  {
    var rest := pieces[i + 1..];
    assert pieces == pieces[..i] + ([pieces[i]] + rest);
    NumericPiecesAppend(pieces[..i], [pieces[i]] + rest);
    NumericPiecesCons(pieces[i], rest);
    assert NumericPieces([pieces[i]] + rest) == NumericPieces(rest);
    NumericPiecesAppend(pieces[..i], rest);
  }

  /** When every piece parses, every piece is kept, in order. */
  lemma {:induction false} NumericPiecesAll(pieces: seq<string>, values: seq<U32>)
    requires |values| == |pieces|
    requires forall i :: 0 <= i < |pieces| ==> ParseU32(pieces[i]) == Some(values[i])
    ensures NumericPieces(pieces) == values
  {
    if |pieces| > 0 {
      NumericPiecesAll(pieces[1..], values[1..]);
      assert values == [values[0]] + values[1..];
    }
  }

  // ---------------------------------------------------------------------------
  // `Version::from_str` and `Version::to_str`
  // ---------------------------------------------------------------------------

  /** The version a token spells: the first two numeric pieces, and the third or 0. */
  function VersionOfPieces(parts: seq<U32>): Option<Version>
  {
    if |parts| >= 2 then Some(Version(parts[0], parts[1], if |parts| >= 3 then parts[2] else 0))
    else None
  }

  /** `Version::from_str` */
  function FromStr(versionStr: string): Option<Version>
  {
    match LastToken(versionStr)
    case None => None
    case Some(token) => VersionOfPieces(NumericPieces(Split(token, '.')))
  }

  /** `Version::to_str`: `major.minor.patch` in decimal. */
  function ToStr(v: Version): (r: string)
    ensures |r| >= 5 && NoSpace(r)
    ensures r == JoinWith([NatToDecimal(v.major), NatToDecimal(v.minor), NatToDecimal(v.patch)], ".")
  {
    var parts := [NatToDecimal(v.major), NatToDecimal(v.minor), NatToDecimal(v.patch)];
    assert parts[1..] == [parts[1], parts[2]] && parts[1..][1..] == [parts[2]];
    assert JoinWith(parts[1..], ".") == parts[1] + "." + parts[2];
    var r := parts[0] + "." + parts[1] + "." + parts[2];
    assert r == parts[0] + "." + JoinWith(parts[1..], ".");
    assert forall i :: 0 <= i < |r| ==> r[i] == '.' || IsDigit(r[i]) by {
      forall i | 0 <= i < |r| ensures r[i] == '.' || IsDigit(r[i]) {
        if i < |parts[0]| {
          assert r[i] == parts[0][i];
        } else if i == |parts[0]| {
        } else if i < |parts[0]| + 1 + |parts[1]| {
          assert r[i] == parts[1][i - |parts[0]| - 1];
        } else if i == |parts[0]| + 1 + |parts[1]| {
        } else {
          assert r[i] == parts[2][i - |parts[0]| - |parts[1]| - 2];
        }
      }
    }
    r
  }

  /** Input that is empty or only whitespace gives `None`. */
  lemma FromStrBlank(s: string)
    requires AllSpace(s)
    ensures FromStr(s) == None
  {
    LastTokenNone(s);
  }

  /** Only the last whitespace-separated token is read; everything before it is ignored. */
  lemma FromStrLastToken(s: string, pre: string, t: string, post: string)
    requires IsLastToken(s, pre, t, post)
    ensures FromStr(s) == FromStr(t)
  {
    LastTokenOf(s, pre, t, post);
    LastTokenOf(t, "", t, "");
  }

  /**
   * For a single token: pieces that do not parse are dropped before
   * counting; fewer than two numeric pieces give `None`; two give patch 0;
   * pieces after the third are ignored.
   */
  lemma FromStrToken(t: string)
    requires |t| > 0 && NoSpace(t)
    ensures var parts := NumericPieces(Split(t, '.'));
      && (FromStr(t).Some? <==> |parts| >= 2)
      && (FromStr(t).Some? ==>
            && FromStr(t).value.major == parts[0]
            && FromStr(t).value.minor == parts[1]
            && FromStr(t).value.patch == (if |parts| >= 3 then parts[2] else 0))
  {
    LastTokenOf(t, "", t, "");
    assert FromStr(t) == VersionOfPieces(NumericPieces(Split(t, '.')));
  }

  /** The dot-separated pieces of a rendered version are its three decimal fields. */
  lemma ToStrPieces(v: Version)
    ensures Split(ToStr(v), '.') == [NatToDecimal(v.major), NatToDecimal(v.minor), NatToDecimal(v.patch)]
  {
    var parts := [NatToDecimal(v.major), NatToDecimal(v.minor), NatToDecimal(v.patch)];
    forall i | 0 <= i < |parts| ensures '.' !in parts[i] {
      assert AllDigits(parts[i]);
    }
    SplitJoin(parts, '.');
  }

  /** Each of three rendered fields parses back, so none is dropped. */
  lemma NumericPiecesOfDecimals(a: U32, b: U32, c: U32)
    ensures NumericPieces([NatToDecimal(a), NatToDecimal(b), NatToDecimal(c)]) == [a, b, c]
  {
    var pieces, values := [NatToDecimal(a), NatToDecimal(b), NatToDecimal(c)], [a, b, c];
    assert forall i :: 0 <= i < 3 ==> ParseU32(pieces[i]) == Some(values[i]) by {
      ParseU32OfDecimal(a);
      ParseU32OfDecimal(b);
      ParseU32OfDecimal(c);
      forall i | 0 <= i < 3 ensures ParseU32(pieces[i]) == Some(values[i]) {
        if i == 0 {
          assert pieces[0] == NatToDecimal(a);
        } else if i == 1 {
          assert pieces[1] == NatToDecimal(b);
        } else {
          assert pieces[2] == NatToDecimal(c);
        }
      }
    }
    NumericPiecesAll(pieces, values);
  }

  /** Rendering then parsing gives the version back, for every version. */
  lemma FromStrToStr(v: Version)
    ensures FromStr(ToStr(v)) == Some(v)
  {
    var r := ToStr(v);
    LastTokenOf(r, "", r, "");
    ToStrPieces(v);
    NumericPiecesOfDecimals(v.major, v.minor, v.patch);
  }

  /** A dotted token reads as the version its numeric pieces spell. */
  lemma FromStrDotted(pieces: seq<string>)
    requires |pieces| >= 1 && forall i :: 0 <= i < |pieces| ==> '.' !in pieces[i]
    requires |JoinWith(pieces, ".")| > 0 && NoSpace(JoinWith(pieces, "."))
    ensures FromStr(JoinWith(pieces, ".")) == VersionOfPieces(NumericPieces(pieces))
  {
    var t := JoinWith(pieces, ".");
    LastTokenOf(t, "", t, "");
    SplitJoin(pieces, '.');
  }

  /** `MIN_PYTHON_VERSION` parses, so its `unwrap` cannot panic. */
  lemma MinVersionParses()
    ensures FromStr(MIN_PYTHON_VERSION) == Some(Version(3, 13, 0))
  {
    var v := Version(3, 13, 0);
    var pieces := [NatToDecimal(3), NatToDecimal(13), NatToDecimal(0)];
    assert NatToDecimal(13) == "13";
    assert ToStr(v) == MIN_PYTHON_VERSION by {
      assert pieces[1..] == ["13", "0"] && pieces[1..][1..] == ["0"];
    }
    FromStrToStr(v);
  }

  /** `Version::from_str(MIN_PYTHON_VERSION).unwrap()` */
  function MinVersion(): (v: Version)
    ensures FromStr(MIN_PYTHON_VERSION) == Some(v)
    ensures v == Version(3, 13, 0)
  {
    MinVersionParses();
    FromStr(MIN_PYTHON_VERSION).value
  }

  /** The typical `python --version` output, with its trailing newline. */
  lemma FromStrPythonOutput(s: string)
    requires s == "Python 3.10.4\n"
    ensures FromStr(s) == Some(Version(3, 10, 4))
  {
    var v := Version(3, 10, 4);
    var pieces := [NatToDecimal(3), NatToDecimal(10), NatToDecimal(4)];
    assert NatToDecimal(10) == "10";
    var t := ToStr(v);
    assert t == "3.10.4" by {
      assert pieces[1..] == ["10", "4"] && pieces[1..][1..] == ["4"];
    }
    assert IsLastToken(s, "Python ", t, "\n");
    FromStrLastToken(s, "Python ", t, "\n");
    FromStrToStr(v);
  }

  /**
   * A pre-release tag glued to the patch number (`3.13.0rc1`, `3.12.1b2`)
   * makes that piece unparseable, so it is dropped and the patch reads as 0.
   */
  lemma FromStrPreRelease(v: Version, tag: string)
    requires NoSpace(tag) && '.' !in tag && !AllDigits(tag)
    ensures FromStr(ToStr(v) + tag) == Some(Version(v.major, v.minor, 0))
  {
    var d0, d1, d2 := NatToDecimal(v.major), NatToDecimal(v.minor), NatToDecimal(v.patch);
    var pieces := [d0, d1, d2 + tag];
    var t := ToStr(v) + tag;
    assert JoinWith(pieces, ".") == t by {
      assert pieces[1..] == [d1, d2 + tag] && pieces[1..][1..] == [d2 + tag];
      assert JoinWith(pieces[1..], ".") == d1 + "." + (d2 + tag);
      assert ToStr(v) == d0 + "." + (d1 + "." + d2) by {
        var ps := [d0, d1, d2];
        assert ps[1..] == [d1, d2] && ps[1..][1..] == [d2];
      }
    }
    assert NoSpace(t) by {
      assert NoSpace(ToStr(v));
      forall i | 0 <= i < |t| ensures !IsRustSpace(t[i]) {
        if i >= |ToStr(v)| {
          assert t[i] == tag[i - |ToStr(v)|];
        }
      }
    }
    assert forall i :: 0 <= i < |pieces| ==> '.' !in pieces[i] by {
      forall i | 0 <= i < |pieces| ensures '.' !in pieces[i] {
        if i < 2 {
          assert AllDigits(pieces[i]);
        } else {
          assert AllDigits(d2);
        }
      }
    }
    assert NumericPieces(pieces) == [v.major, v.minor] by {
      assert ParseU32(d2 + tag) == None by {
        var k :| 0 <= k < |tag| && !IsDigit(tag[k]);
        assert (d2 + tag)[|d2| + k] == tag[k];
        assert IsDigit(d2[0]);
        DigitsU32Value(d2 + tag);
      }
      NumericPiecesDrop(pieces, 2);
      assert pieces[..2] + pieces[3..] == [d0, d1];
      ParseU32OfDecimal(v.major);
      ParseU32OfDecimal(v.minor);
      NumericPiecesAll([d0, d1], [v.major, v.minor]);
    }
    FromStrDotted(pieces);
  }

  // ---------------------------------------------------------------------------
  // The derived ordering
  // ---------------------------------------------------------------------------

  /** `a < b` for the derived `PartialOrd`: fields compared in declaration order. */
  predicate Less(a: Version, b: Version) {
    || a.major < b.major
    || (a.major == b.major && a.minor < b.minor)
    || (a.major == b.major && a.minor == b.minor && a.patch < b.patch)
  }

  /** `a >= b`: `partial_cmp` is never `None` for `u32` fields, so this is "not less". */
  predicate AtLeast(a: Version, b: Version) {
    !Less(a, b)
  }

  /** Versions as one number, three 32-bit digits, most significant first. */
  function Rank(v: Version): nat {
    v.major * U32_LIMIT * U32_LIMIT + v.minor * U32_LIMIT + v.patch
  }

  /** The derived order is the order of the combined number. */
  lemma LessIsRankOrder(a: Version, b: Version)
    ensures Less(a, b) <==> Rank(a) < Rank(b)
  {
    var L := U32_LIMIT;
    assert a.minor * L + a.patch < L * L && b.minor * L + b.patch < L * L;
    if a.major < b.major {
      assert a.major * L * L + L * L <= b.major * L * L;
    } else if b.major < a.major {
      assert b.major * L * L + L * L <= a.major * L * L;
    } else if a.minor < b.minor {
      assert a.minor * L + L <= b.minor * L;
    } else if b.minor < a.minor {
      assert b.minor * L + L <= a.minor * L;
    }
  }

  /** The combined number determines the version. */
  lemma RankInjective(a: Version, b: Version)
    requires Rank(a) == Rank(b)
    ensures a == b
  {
    LessIsRankOrder(a, b);
    LessIsRankOrder(b, a);
  }

  /** The order is total and strict: exactly one of `a < b`, `a == b`, `b < a`. */
  lemma LessTrichotomy(a: Version, b: Version)
    ensures Less(a, b) || a == b || Less(b, a)
    ensures !(Less(a, b) && Less(b, a)) && !Less(a, a)
  {
    LessIsRankOrder(a, b);
    LessIsRankOrder(b, a);
    if Rank(a) == Rank(b) {
      RankInjective(a, b);
    }
  }

  lemma LessTransitive(a: Version, b: Version, c: Version)
    requires Less(a, b) && Less(b, c)
    ensures Less(a, c)
  {
    LessIsRankOrder(a, b);
    LessIsRankOrder(b, c);
    LessIsRankOrder(a, c);
  }

  /**
   * The gate of `main`: an installed version passes exactly when it is not
   * below 3.13.0 — a newer minor passes whatever its patch, an older minor fails.
   */
  lemma VersionGate(v: Version)
    ensures AtLeast(v, MinVersion()) <==> v.major > 3 || (v.major == 3 && v.minor >= 13)
  {
  }

  // ---------------------------------------------------------------------------
  // `make_a_link`
  // ---------------------------------------------------------------------------

  /** `ESC ] 8 ; ;`, the OSC 8 hyperlink introducer. */
  const OSC8: string := "\U{1b}]8;;"

  /** BEL, the terminator of an OSC sequence. */
  const BEL: char := '\U{7}'

  /**
   * `make_a_link(url, text)`: an OSC 8 hyperlink to `url` whose visible
   * text is `text`, or the url itself when no text is given.
   */
  function MakeALink(url: string, text: Option<string>): (r: string)
    ensures |r| == 2 * |OSC8| + |url| + |text.GetOr(url)| + 2
    ensures StartsWith(r, OSC8 + url + [BEL])
    ensures EndsWith(r, OSC8 + [BEL])
    ensures r[|OSC8| + |url| + 1..|r| - |OSC8| - 1] == text.GetOr(url)
  {
    var shown := text.GetOr(url);
    var r := OSC8 + url + [BEL] + shown + OSC8 + [BEL];
    assert r[..|OSC8| + |url| + 1] == OSC8 + url + [BEL];
    assert r[|r| - |OSC8| - 1..] == OSC8 + [BEL];
    assert r[|OSC8| + |url| + 1..|r| - |OSC8| - 1] == shown;
    r
  }

  /**
   * Reads a hyperlink back: the url runs up to the first BEL after the
   * introducer, the visible text from there to the closing sequence.
   */
  function ParseLink(s: string): Option<(string, string)>
  {
    if |s| >= 2 * |OSC8| + 2 && StartsWith(s, OSC8) && EndsWith(s, OSC8 + [BEL]) then
      var body := s[|OSC8|..|s| - |OSC8| - 1];
      match Find(body, [BEL])
      case Some(i) => Some((body[..i], body[i + 1..]))
      case None => None
    else None
  }

  /** A url without BEL and the text shown for it are both recovered from the link. */
  lemma ParseMakeALink(url: string, text: Option<string>)
    requires BEL !in url
    ensures ParseLink(MakeALink(url, text)) == Some((url, text.GetOr(url)))
  {
    var shown := text.GetOr(url);
    var r := MakeALink(url, text);
    var body := r[|OSC8|..|r| - |OSC8| - 1];
    assert body == url + [BEL] + shown;
    assert OccursAt(body, [BEL], |url|);
    forall j | 0 <= j < |url| ensures !OccursAt(body, [BEL], j) {
      assert body[j] == url[j];
    }
    var i := Find(body, [BEL]);
    assert i == Some(|url|);
    assert body[..|url|] == url && body[|url| + 1..] == shown;
  }
}
