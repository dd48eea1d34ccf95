/**
 * The helpers of the scan report (`src/FileFinder/ReportGen.py`): lenient
 * dict reads of the report data, the date rendering with its `"N/A"`
 * fallback, the duration field, and the separator line.
 */
module ReportGen {
  import opened Wrappers
  import opened PyValues
  import opened Text

  // ---------------------------------------------------------------------------
  // Lenient reads
  // ---------------------------------------------------------------------------

  /** `__s_get_dict(data, key, default)`: `data.get(key, default)`. */
  function SGetDict(data: map<string, Value>, key: string, default: Value): (r: Value)
    ensures key in data ==> r == data[key]
    ensures key !in data ==> r == default
  {
    if key in data then data[key] else default
  }

  /**
   * The walk `__s_get_r_dict` performs: while the current value is a dict,
   * step to `d.get(key, default)`; as soon as it is not a dict, return the
   * default; at the end return the current value.
   */
  function RWalk(d: Value, keys: seq<string>, default: Value): Value
    decreases |keys|
  {
    if |keys| == 0 then d
    else if d.VDict? then RWalk(SGetDict(d.entries, keys[0], default), keys[1..], default)
    else default
  }

  /** `__s_get_r_dict(data, keys, default)`: the walk over the `.`-separated keys. */
  method SGetRDict(data: Value, keys: string, default: Value) returns (r: Value)
    ensures r == RWalk(data, Split(keys, '.'), default)
  {
    var ks := Split(keys, '.');
    var d := data;
    var i := 0;
    while i < |ks|
      invariant i <= |ks|
      invariant RWalk(data, ks, default) == RWalk(d, ks[i..], default)
    {
      assert ks[i..][0] == ks[i] && ks[i..][1..] == ks[i + 1..];
      if d.VDict? {
        d := SGetDict(d.entries, ks[i], default);
      } else {
        return default;
      }
      i := i + 1;
    }
    assert ks[i..] == [];
    return d;
  }

  /** A path that exists gives the value stored there, whatever the default. */
  lemma {:induction false} RWalkHit(d: Value, keys: seq<string>, default: Value)
    requires Lookup(d, keys).Some?
    ensures RWalk(d, keys, default) == Lookup(d, keys).value
    decreases |keys|
  {
    if |keys| > 0 {
      RWalkHit(d.entries[keys[0]], keys[1..], default);
    }
  }

  /**
   * With a default that is not a dict (the report passes `"N/A"`), a path
   * that does not exist gives the default: the walk is the strict lookup
   * with a fallback.
   */
  lemma {:induction false} RWalkMiss(d: Value, keys: seq<string>, default: Value)
    requires Lookup(d, keys).None? && !default.VDict?
    ensures RWalk(d, keys, default) == default
    decreases |keys|
  {
    if d.VDict? {
      if keys[0] in d.entries {
        RWalkMiss(d.entries[keys[0]], keys[1..], default);
      } else if |keys| > 1 {
        assert RWalk(default, keys[1..], default) == default;
      }
    }
  }

  /**
   * A missing key makes the default the current value, so a dict default
   * is walked into: reading `a.b` from `{}` with default `{"b": 1}` gives 1.
   */
  lemma RWalkIntoDefault()
    ensures RWalk(VDict(map[]), ["a", "b"], VDict(map["b" := VInt(1)])) == VInt(1)
  {
    var ks := ["a", "b"];
    assert ks[1..] == ["b"] && ks[1..][1..] == [];
  }

  /** With a single key the walk is the plain read. */
  lemma RWalkOneKey(data: map<string, Value>, key: string, default: Value)
    ensures RWalk(VDict(data), [key], default) == SGetDict(data, key, default)
  {
    assert [key][1..] == [];
  }

  // ---------------------------------------------------------------------------
  // Dates
  // ---------------------------------------------------------------------------

  /** The fields a `datetime.datetime` object can hold. */
  predicate IsDateTime(dt: DateTime) {
    && IsValidDate(dt.year, dt.month, dt.day)
    && 0 <= dt.hour < 24 && 0 <= dt.minute < 60 && 0 <= dt.second < 60
    && 0 <= dt.microsecond < 1000000
  }

  /** A value as Python builds it: a datetime object always has valid fields. */
  predicate WellFormed(v: Value) {
    v.VDateTime? ==> IsDateTime(v.dt)
  }

  function Pow10(k: nat): nat {
    if k == 0 then 1 else 10 * Pow10(k - 1)
  }

  function Zeros(k: nat): (z: string)
    ensures |z| == k && AllDigits(z)
  {
    if k == 0 then "" else Zeros(k - 1) + "0"
  }

  lemma {:induction false} DecimalLength(n: nat, k: nat)
    requires n < Pow10(k)
    ensures |NatToDecimal(n)| <= k || (n == 0 && k == 0)
    decreases n
  {
    if n >= 10 {
      DecimalLength(n / 10, k - 1);
    }
  }

  lemma {:induction false} DigitsValueZeros(z: nat, s: string)
    requires AllDigits(s)
    ensures DigitsValue(Zeros(z) + s) == DigitsValue(s)
    decreases |s|
  {
    if |s| == 0 {
      assert Zeros(z) + s == Zeros(z);
      ZerosValue(z);
    } else {
      var s' := s[..|s| - 1];
      assert (Zeros(z) + s)[..|Zeros(z) + s| - 1] == Zeros(z) + s';
      DigitsValueZeros(z, s');
    }
  }

  lemma {:induction false} ZerosValue(z: nat)
    ensures DigitsValue(Zeros(z)) == 0
  {
    if z > 0 {
      assert Zeros(z)[..z - 1] == Zeros(z - 1);
      ZerosValue(z - 1);
    }
  }

  /** `%0wd`: `n` in decimal, left-padded with zeros to `w` digits. */
  function Pad(n: nat, w: nat): (r: string)
    requires n < Pow10(w) && w >= 1
    ensures |r| == w && AllDigits(r) && DigitsValue(r) == n
  {
    DecimalLength(n, w);
    var d := NatToDecimal(n);
    DigitsValueZeros(w - |d|, d);
    Zeros(w - |d|) + d
  }

  /** Three fields with a separator character between each two. */
  function Joined3(a: string, sep: char, b: string, c: string): (r: string)
    ensures |r| == |a| + |b| + |c| + 2
    ensures r[..|a|] == a && r[|a|] == sep && r[|a| + 1..|a| + 1 + |b|] == b
    ensures r[|a| + 1 + |b|] == sep && r[|a| + |b| + 2..] == c
  {
    var r := a + [sep] + b + [sep] + c;
    assert r[..|a|] == a;
    assert r[|a| + 1..|a| + 1 + |b|] == b;
    assert r[|a| + |b| + 2..] == c;
    r
  }

  /**
   * `dt.isoformat(" ", timespec="seconds")`: `YYYY-MM-DD HH:MM:SS`, the
   * microseconds dropped.
   */
  function IsoFormat(dt: DateTime): (r: string)
    requires IsDateTime(dt)
    ensures |r| == 19
  {
    Pow10Values();
    Joined3(Pad(dt.year, 4), '-', Pad(dt.month, 2), Pad(dt.day, 2)) + " "
      + Joined3(Pad(dt.hour, 2), ':', Pad(dt.minute, 2), Pad(dt.second, 2))
  }

  lemma Pow10Values()
    ensures Pow10(2) == 100 && Pow10(4) == 10000
  {
  }

  /** `__format_date(date)`: the ISO rendering of a datetime, `"N/A"` for anything else. */
  function FormatDate(date: Value): (r: string)
    requires WellFormed(date)
    ensures !date.VDateTime? ==> r == "N/A"
    ensures date.VDateTime? ==> |r| == 19
  {
    if date.VDateTime? then IsoFormat(date.dt) else "N/A"
  }

  /** Reads `YYYY-MM-DD HH:MM:SS` back into its six fields. */
  function ReadIso(s: string): Option<(nat, nat, nat, nat, nat, nat)>
  {
    if |s| == 19 && s[4] == '-' && s[7] == '-' && s[10] == ' ' && s[13] == ':' && s[16] == ':'
       && AllDigits(s[0..4]) && AllDigits(s[5..7]) && AllDigits(s[8..10])
       && AllDigits(s[11..13]) && AllDigits(s[14..16]) && AllDigits(s[17..19])
    then Some((DigitsValue(s[0..4]), DigitsValue(s[5..7]), DigitsValue(s[8..10]),
               DigitsValue(s[11..13]), DigitsValue(s[14..16]), DigitsValue(s[17..19])))
    else None
  }

  /**
   * The rendering of a datetime reads back as its date and time to the
   * second; `"N/A"` reads as nothing.
   */
  lemma ReadFormatDate(date: Value)
    requires WellFormed(date)
    ensures date.VDateTime? ==>
      ReadIso(FormatDate(date)) ==
        Some((date.dt.year as nat, date.dt.month as nat, date.dt.day as nat,
              date.dt.hour as nat, date.dt.minute as nat, date.dt.second as nat))
    ensures !date.VDateTime? ==> ReadIso(FormatDate(date)) == None
  {
    if date.VDateTime? {
      var dt := date.dt;
      Pow10Values();
      var y, mo, d := Pad(dt.year, 4), Pad(dt.month, 2), Pad(dt.day, 2);
      var h, mi, s := Pad(dt.hour, 2), Pad(dt.minute, 2), Pad(dt.second, 2);
      var day, time := Joined3(y, '-', mo, d), Joined3(h, ':', mi, s);
      var r := FormatDate(date);
      assert r == day + " " + time;
      assert r[..10] == day && r[11..] == time;
      assert r[0..4] == day[..4] && r[5..7] == day[5..7] && r[8..10] == day[8..];
      assert r[11..13] == time[..2] && r[14..16] == time[3..5] && r[17..19] == time[6..];
    }
  }

  // ---------------------------------------------------------------------------
  // Durations
  // ---------------------------------------------------------------------------

  function YearLength(y: int): int {
    if IsLeapYear(y) then 366 else 365
  }

  /** Days from 0001-01-01 to 1 January of year `y` (the proleptic Gregorian calendar). */
  function DaysBeforeYear(y: int): int {
    var p := y - 1;
    p * 365 + p / 4 - p / 100 + p / 400
  }

  /** Days of year `y` before the first of month `m`. */
  function DaysBeforeMonth(y: int, m: int): (r: int)
    requires 1 <= m <= 12
    ensures r >= 0
  {
    if m == 1 then 0 else DaysBeforeMonth(y, m - 1) + DaysInMonth(y, m - 1)
  }

  /** The day number of a date, 0 for 0001-01-01. */
  function DayIndex(dt: DateTime): int
    requires IsDateTime(dt)
  {
    DaysBeforeYear(dt.year) + DaysBeforeMonth(dt.year, dt.month) + dt.day - 1
  }

  /** Microseconds since 0001-01-01 00:00:00, which is what a timedelta counts. */
  function Micros(dt: DateTime): int
    requires IsDateTime(dt)
  {
    DayIndex(dt) * 86400000000
      + ((dt.hour * 60 + dt.minute) * 60 + dt.second) * 1000000 + dt.microsecond
  }

  /** Calendar order of two datetimes: field by field, year first. */
  predicate Before(a: DateTime, b: DateTime) {
    if a.year != b.year then a.year < b.year
    else if a.month != b.month then a.month < b.month
    else if a.day != b.day then a.day < b.day
    else if a.hour != b.hour then a.hour < b.hour
    else if a.minute != b.minute then a.minute < b.minute
    else if a.second != b.second then a.second < b.second
    else a.microsecond < b.microsecond
  }

  lemma YearLengthSum(y: int)
    ensures DaysBeforeMonth(y, 12) + DaysInMonth(y, 12) == YearLength(y)
  {
    var feb := DaysInMonth(y, 2);
    assert DaysBeforeMonth(y, 2) == 31;
    assert DaysBeforeMonth(y, 3) == 31 + feb;
    assert DaysBeforeMonth(y, 4) == 62 + feb;
    assert DaysBeforeMonth(y, 5) == 92 + feb;
    assert DaysBeforeMonth(y, 6) == 123 + feb;
    assert DaysBeforeMonth(y, 7) == 153 + feb;
    assert DaysBeforeMonth(y, 8) == 184 + feb;
    assert DaysBeforeMonth(y, 9) == 215 + feb;
    assert DaysBeforeMonth(y, 10) == 245 + feb;
    assert DaysBeforeMonth(y, 11) == 276 + feb;
    assert DaysBeforeMonth(y, 12) == 306 + feb;
  }

  /** One more day is a new multiple of `k` exactly when `k` divides it. */
  lemma DivStep(x: int, k: int)
    requires k == 4 || k == 100 || k == 400
    ensures (x + 1) / k - x / k == if (x + 1) % k == 0 then 1 else 0
  {
  }

  lemma NextYear(y: int)
    requires y >= 1
    ensures DaysBeforeYear(y + 1) == DaysBeforeYear(y) + YearLength(y)
  {
    DivStep(y - 1, 4);
    DivStep(y - 1, 100);
    DivStep(y - 1, 400);
  }

  lemma {:induction false} MonthsBefore(y: int, m1: int, m2: int)
    requires 1 <= m1 < m2 <= 12
    ensures DaysBeforeMonth(y, m1) + DaysInMonth(y, m1) <= DaysBeforeMonth(y, m2)
    decreases m2
  {
    if m2 > m1 + 1 {
      MonthsBefore(y, m1, m2 - 1);
    }
  }

  lemma {:induction false} YearsBefore(y1: int, y2: int)
    requires 1 <= y1 < y2
    ensures DaysBeforeYear(y1) + YearLength(y1) <= DaysBeforeYear(y2)
    decreases y2
  {
    NextYear(y2 - 1);
    if y2 > y1 + 1 {
      YearsBefore(y1, y2 - 1);
    }
  }

  lemma DayInYear(dt: DateTime)
    requires IsDateTime(dt)
    ensures DaysBeforeMonth(dt.year, dt.month) + dt.day - 1 < YearLength(dt.year)
  {
    if dt.month < 12 {
      MonthsBefore(dt.year, dt.month, 12);
    }
    YearLengthSum(dt.year);
  }

  lemma DayIndexMonotone(a: DateTime, b: DateTime)
    requires IsDateTime(a) && IsDateTime(b)
    requires a.year < b.year || (a.year == b.year && a.month < b.month)
    ensures DayIndex(a) < DayIndex(b)
  {
    if a.year < b.year {
      DayInYear(a);
      YearsBefore(a.year, b.year);
    } else {
      MonthsBefore(a.year, a.month, b.month);
    }
  }

  /** An earlier datetime has fewer microseconds since the epoch. */
  lemma MicrosMonotone(a: DateTime, b: DateTime)
    requires IsDateTime(a) && IsDateTime(b) && Before(a, b)
    ensures Micros(a) < Micros(b)
  {
    if a.year != b.year || a.month != b.month {
      DayIndexMonotone(a, b);
    }
  }

  /**
   * `__get_duration(start, end)`: a non-datetime argument gives `"N/A"`;
   * two datetimes give a timedelta, which `__format_date` also renders as
   * `"N/A"`. So every duration the report prints reads `"N/A"`.
   */
  function GetDuration(start: Value, end: Value): (r: string)
    requires WellFormed(start) && WellFormed(end)
    ensures r == "N/A"
  {
    if !start.VDateTime? || !end.VDateTime? then "N/A"
    else FormatDate(VDelta(Micros(end.dt) - Micros(start.dt)))
  }

  /**
   * The duration evidently meant: the timedelta `end - start` itself, in
   * microseconds, when both ends are datetimes.
   */
  function DurationIntended(start: Value, end: Value): (r: Option<int>)
    requires WellFormed(start) && WellFormed(end)
    ensures r.Some? <==> start.VDateTime? && end.VDateTime?
  {
    if !start.VDateTime? || !end.VDateTime? then None
    else Some(Micros(end.dt) - Micros(start.dt))
  }

  /**
   * The intended duration is positive exactly when the start comes first,
   * zero exactly when the two are the same instant, and negative otherwise.
   */
  lemma DurationSign(a: DateTime, b: DateTime)
    requires IsDateTime(a) && IsDateTime(b)
    ensures var e := DurationIntended(VDateTime(a), VDateTime(b)).value;
      && (e > 0 <==> Before(a, b))
      && (e == 0 <==> a == b)
      && (e < 0 <==> Before(b, a))
  {
    if Before(a, b) {
      MicrosMonotone(a, b);
    } else if Before(b, a) {
      MicrosMonotone(b, a);
    }
  }

  /**
   * Durations add up: the time from `a` to `b` plus the time from `b` to
   * `c` is the time from `a` to `c`.
   */
  lemma DurationAdds(a: DateTime, b: DateTime, c: DateTime)
    requires IsDateTime(a) && IsDateTime(b) && IsDateTime(c)
    ensures DurationIntended(VDateTime(a), VDateTime(b)).value + DurationIntended(VDateTime(b), VDateTime(c)).value
      == DurationIntended(VDateTime(a), VDateTime(c)).value
  {
  }

  /**
   * The report passes the already rendered dates to `__get_duration`, and
   * even two datetimes come out as `"N/A"`: a start one second before its
   * end has a positive duration that the report never shows.
   */
  lemma DurationLost(a: DateTime, b: DateTime)
    requires IsDateTime(a) && IsDateTime(b) && Before(a, b)
    ensures GetDuration(VStr(FormatDate(VDateTime(a))), VStr(FormatDate(VDateTime(b)))) == "N/A"
    ensures GetDuration(VDateTime(a), VDateTime(b)) == "N/A"
    ensures DurationIntended(VDateTime(a), VDateTime(b)).value > 0
  {
    DurationSign(a, b);
  }

  // ---------------------------------------------------------------------------
  // The separator
  // ---------------------------------------------------------------------------

  /** `sep * width`: `width` copies of `sep`, none when `width` is not positive. */
  function Separator(sep: string, width: int): (r: string)
    decreases if width > 0 then width else 0
    ensures |r| == |sep| * (if width > 0 then width else 0)
    ensures |sep| == 1 ==> forall i :: 0 <= i < |r| ==> r[i] == sep[0]
  {
    if width <= 0 then "" else Separator(sep, width - 1) + sep
  }

  /** Copies concatenate: `sep * (a + b) == sep * a + sep * b`. */
  lemma {:induction false} SeparatorAdds(sep: string, a: nat, b: nat)
    ensures Separator(sep, a + b) == Separator(sep, a) + Separator(sep, b)
    decreases b
  {
    if b == 0 {
      assert Separator(sep, a) + "" == Separator(sep, a);
    } else {
      SeparatorAdds(sep, a, b - 1);
      assert Separator(sep, a) + Separator(sep, b - 1) + sep == Separator(sep, a) + (Separator(sep, b - 1) + sep);
    }
  }

  /** With the defaults, the separator is forty `=` signs. */
  lemma DefaultSeparator(sep: string, width: int)
    requires sep == "=" && width == 40
    ensures |Separator(sep, width)| == 40
    ensures forall i :: 0 <= i < 40 ==> Separator(sep, width)[i] == '='
  {
  }
}
