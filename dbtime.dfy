/**
 * Decoding of the timetable's compact `yymmddHHMM` codes
 * (`parse_db_time_to_aware_dt`), with the calendar rules that Python's
 * `datetime` constructor enforces, and a wall-clock minute count that orders
 * decoded times the way Python compares two datetimes sharing one tzinfo.
 */
module DbTime {
  import opened Wrappers
  import opened Text

  /** A civil (wall-clock) date and time to the minute. */
  datatype DateTime = DateTime(year: int, month: int, day: int, hour: int, minute: int)

  predicate IsDigit(c: char) { '0' <= c <= '9' }

  /** The value of a decimal digit (and, for any other character, its distance from `'0'`). */
  function DigitVal(c: char): (r: int)
    ensures IsDigit(c) <==> 0 <= r <= 9
  {
    c as int - '0' as int
  }

  predicate AllDigits(s: string) {
    forall i :: 0 <= i < |s| ==> IsDigit(s[i])
  }

  /** Python's `s[i:j]`: bounds past the end are clamped to the end. */
  function Slice(s: string, i: nat, j: nat): (r: string)
    requires i <= j
    ensures |r| == (if j <= |s| then j - i else if i <= |s| then |s| - i else 0)
    ensures j <= |s| ==> r == s[i..j]
  {
    if j <= |s| then s[i..j] else if i <= |s| then s[i..] else []
  }

  // ---------------------------------------------------------------------------
  // Python's int() on a decimal string

  /** ASCII digits, possibly with single underscores between digits, as `int()` accepts. */
  predicate DigitGroups(s: string) {
    && |s| > 0 && IsDigit(s[0]) && IsDigit(s[|s| - 1])
    && (forall i :: 0 <= i < |s| ==> IsDigit(s[i]) || s[i] == '_')
    && (forall i :: 0 <= i < |s| - 1 && s[i] == '_' ==> s[i + 1] != '_')
  }

  /** The number the digits of `s` spell, underscores skipped. */
  function GroupsValue(s: string): nat
  {
    if s == [] then 0
    else if IsDigit(s[|s| - 1]) then 10 * GroupsValue(s[..|s| - 1]) + DigitVal(s[|s| - 1])
    else GroupsValue(s[..|s| - 1])
  }

  /**
   * The whitespace `int()` strips: that of `str.isspace` except the four
   * separators U+001C to U+001F, which `int()` does not treat as whitespace.
   */
  predicate IntSpace(c: char) {
    IsSpace(c) && !('\U{1C}' <= c <= '\U{1F}')
  }

  /** `s` with the whitespace `int()` ignores removed from both ends. */
  function IntStrip(s: string): (r: string)
    ensures |r| <= |s|
    ensures r == [] || (!IntSpace(r[0]) && !IntSpace(r[|r| - 1]))
    decreases |s|
  {
    if s != [] && IntSpace(s[0]) then IntStrip(s[1..])
    else if s != [] && IntSpace(s[|s| - 1]) then IntStrip(s[..|s| - 1])
    else s
  }

  /** `IntStrip` cuts a slice out of `s`, and everything cut off is whitespace `int()` ignores. */
  lemma {:induction false} IntStripSlice(s: string) returns (a: nat, b: nat)
    ensures a <= b <= |s| && IntStrip(s) == s[a..b]
    ensures forall k :: 0 <= k < a ==> IntSpace(s[k])
    ensures forall k :: b <= k < |s| ==> IntSpace(s[k])
    decreases |s|
  {
    if s != [] && IntSpace(s[0]) {
      var a', b' := IntStripSlice(s[1..]);
      a, b := a' + 1, b' + 1;
      assert s[1..][a'..b'] == s[a..b];
      forall k | 0 <= k < a ensures IntSpace(s[k]) {
        if k > 0 { assert s[k] == s[1..][k - 1]; }
      }
      forall k | b <= k < |s| ensures IntSpace(s[k]) {
        assert s[k] == s[1..][k - 1];
      }
    } else if s != [] && IntSpace(s[|s| - 1]) {
      var t := s[..|s| - 1];
      a, b := IntStripSlice(t);
      assert t[a..b] == s[a..b];
      forall k | b <= k < |s| ensures IntSpace(s[k]) {
        if k < |s| - 1 { assert s[k] == t[k]; }
      }
    } else {
      a, b := 0, |s|;
    }
  }

  /**
   * `int(s)`: surrounding whitespace is ignored, one optional sign, then
   * digit groups; anything else raises, shown here as `None`.
   */
  function PyInt(s: string): Option<int>
  {
    var t := IntStrip(s);
    if |t| > 0 && (t[0] == '+' || t[0] == '-') then
      var v: int := GroupsValue(t[1..]);
      if DigitGroups(t[1..]) then Some(if t[0] == '-' then -v else v)
      else None
    else if DigitGroups(t) then Some(GroupsValue(t))
    else None
  }

  // ---------------------------------------------------------------------------
  // Calendar rules of datetime.datetime(...)

  predicate IsLeap(y: int) {
    y % 4 == 0 && (y % 100 != 0 || y % 400 == 0)
  }

  function DaysInMonth(y: int, m: int): (r: int)
    requires 1 <= m <= 12
    ensures 28 <= r <= 31
    ensures m == 2 ==> (r == 29 <==> IsLeap(y))
  {
    if m == 2 then (if IsLeap(y) then 29 else 28)
    else if m == 4 || m == 6 || m == 9 || m == 11 then 30
    else 31
  }

  /** What `datetime.datetime(year, month, day, hour, minute)` accepts without raising. */
  predicate ValidDateTime(dt: DateTime) {
    && 1 <= dt.year <= 9999
    && 1 <= dt.month <= 12
    && 1 <= dt.day <= DaysInMonth(dt.year, dt.month)
    && 0 <= dt.hour < 24
    && 0 <= dt.minute < 60
  }

  // ---------------------------------------------------------------------------
  // The decoder

  /** The date and time the five integer fields name, when all five are integers. */
  function Combine(yy: Option<int>, mm: Option<int>, dd: Option<int>, hh: Option<int>, mi: Option<int>): Option<DateTime>
  {
    if yy.Some? && mm.Some? && dd.Some? && hh.Some? && mi.Some? then
      Some(DateTime(2000 + yy.value, mm.value, dd.value, hh.value, mi.value))
    else None
  }

  /** The five two-character slices of `code`, each read by `read`. */
  function FieldsBy(read: string -> Option<int>, code: string): Option<DateTime>
  {
    Combine(read(Slice(code, 0, 2)), read(Slice(code, 2, 4)), read(Slice(code, 4, 6)),
            read(Slice(code, 6, 8)), read(Slice(code, 8, 10)))
  }

  /** The five fields read from `code` by `int()`, when each slice is an integer. */
  function Fields(code: string): Option<DateTime>
  {
    FieldsBy(PyInt, code)
  }

  /**
   * `parse_db_time_to_aware_dt`: every exception (a slice that is no integer,
   * a field out of range) becomes `None`. The zone is attached to the
   * result by the caller's comparisons only, so it is left out here.
   */
  function ParseDbTime(code: string): (r: Option<DateTime>)
    ensures r.Some? ==> ValidDateTime(r.value) && 1991 <= r.value.year <= 2099
  {
    var f := Fields(code);
    if f.Some? && ValidDateTime(f.value) then
      SliceIntRange(Slice(code, 0, 2));
      Some(f.value)
    else None
  }

  /** A slice of at most two characters reads as an integer from -9 to 99. */
  lemma SliceIntRange(s: string)
    requires |s| <= 2
    ensures PyInt(s).Some? ==> -9 <= PyInt(s).value <= 99
  {
    var t := IntStrip(s);
    if |t| > 0 && (t[0] == '+' || t[0] == '-') {
      var u := t[1..];
      if DigitGroups(u) {
        assert |u| == 1;
        assert GroupsValue(u) == DigitVal(u[0]) by { assert u[..0] == []; }
      }
    } else if DigitGroups(t) {
      if |t| == 2 {
        assert t[..1] == [t[0]];
        assert [t[0]][..0] == [];
        assert GroupsValue([t[0]]) == DigitVal(t[0]);
        assert GroupsValue(t) == 10 * DigitVal(t[0]) + DigitVal(t[1]);
      } else {
        assert t[..0] == [];
      }
    }
  }

  /** A string that starts with a digit and is its own `strip()` reads as its digit groups. */
  lemma PyIntUnsigned(s: string)
    requires IntStrip(s) == s && |s| > 0 && IsDigit(s[0])
    ensures PyInt(s) == if DigitGroups(s) then Some(GroupsValue(s)) else None
  {
  }

  lemma GroupsValueDigits(s: string)
    requires 1 <= |s| <= 2 && AllDigits(s)
    ensures DigitGroups(s)
    ensures GroupsValue(s) == if |s| == 1 then DigitVal(s[0]) else 10 * DigitVal(s[0]) + DigitVal(s[1])
  {
    if |s| == 2 {
      assert s[..1] == [s[0]];
      assert [s[0]][..0] == [];
    } else {
      assert s[..0] == [];
    }
  }

  /** One or two decimal digits are read as the number they spell. */
  lemma PyIntDigits(s: string)
    requires 1 <= |s| <= 2 && AllDigits(s)
    ensures PyInt(s) == Some(if |s| == 1 then DigitVal(s[0]) else 10 * DigitVal(s[0]) + DigitVal(s[1]))
  {
    assert IntStrip(s) == s;
    PyIntUnsigned(s);
    GroupsValueDigits(s);
  }

  /** Two decimal digits as a number. */
  function Num2(s: string, i: nat): int
    requires i + 2 <= |s|
  {
    10 * DigitVal(s[i]) + DigitVal(s[i + 1])
  }

  /**
   * What `int()` makes of the short slices a code of digits is cut into: one
   * digit, two digits, or a minus sign and a digit.
   */
  ghost predicate ReadsShortNumbers(read: string -> Option<int>) {
    && (forall s {:trigger read(s)} :: |s| == 1 && IsDigit(s[0]) ==> read(s) == Some(DigitVal(s[0])))
    && (forall s {:trigger read(s)} :: |s| == 2 && IsDigit(s[0]) && IsDigit(s[1]) ==> read(s) == Some(10 * DigitVal(s[0]) + DigitVal(s[1])))
    && (forall s {:trigger read(s)} :: |s| == 2 && s[0] == '-' && IsDigit(s[1]) ==> read(s) == Some(0 - DigitVal(s[1])))
  }

  /** `int("-d")` is `-d`. */
  lemma PyIntNegativeDigit(s: string)
    requires |s| == 2 && s[0] == '-' && IsDigit(s[1])
    ensures PyInt(s) == Some(0 - DigitVal(s[1]))
  {
    assert IntStrip(s) == s;
    assert s[1..] == [s[1]];
    PyIntDigits(s[1..]);
  }

  lemma PyIntReadsShortNumbers()
    ensures ReadsShortNumbers(PyInt)
  {
    forall s | |s| == 1 && IsDigit(s[0]) ensures PyInt(s) == Some(DigitVal(s[0])) {
      PyIntDigits(s);
    }
    forall s | |s| == 2 && IsDigit(s[0]) && IsDigit(s[1]) ensures PyInt(s) == Some(10 * DigitVal(s[0]) + DigitVal(s[1])) {
      PyIntDigits(s);
    }
    forall s | |s| == 2 && s[0] == '-' && IsDigit(s[1]) ensures PyInt(s) == Some(0 - DigitVal(s[1])) {
      PyIntNegativeDigit(s);
    }
  }

  lemma FieldsByInts(read: string -> Option<int>, code: string, yy: int, mm: int, dd: int, hh: int, mi: int)
    requires read(Slice(code, 0, 2)) == Some(yy)
    requires read(Slice(code, 2, 4)) == Some(mm)
    requires read(Slice(code, 4, 6)) == Some(dd)
    requires read(Slice(code, 6, 8)) == Some(hh)
    requires read(Slice(code, 8, 10)) == Some(mi)
    ensures FieldsBy(read, code) == Some(DateTime(2000 + yy, mm, dd, hh, mi))
  {
  }

  /**
   * A code whose first ten characters are digits decodes to
   * `(2000 + yy, mm, dd, HH, MM)` exactly when those fields form a valid date
   * and time, and to `None` otherwise (month 13, hour 24, February 30, ...).
   */
  lemma ParseDigitCode(code: string)
    requires |code| >= 10 && AllDigits(code[..10])
    ensures var dt := DateTime(2000 + Num2(code, 0), Num2(code, 2), Num2(code, 4), Num2(code, 6), Num2(code, 8));
            ParseDbTime(code) == if ValidDateTime(dt) then Some(dt) else None
  {
    forall k | 0 <= k < 10 ensures IsDigit(code[k]) { assert code[k] == code[..10][k]; }
    PyIntReadsShortNumbers();
    DigitFields(PyInt, code);
  }

  lemma DigitFields(read: string -> Option<int>, code: string)
    requires ReadsShortNumbers(read) && |code| >= 10
    requires IsDigit(code[0]) && IsDigit(code[1]) && IsDigit(code[2]) && IsDigit(code[3]) && IsDigit(code[4])
    requires IsDigit(code[5]) && IsDigit(code[6]) && IsDigit(code[7]) && IsDigit(code[8]) && IsDigit(code[9])
    ensures FieldsBy(read, code) == Some(DateTime(2000 + Num2(code, 0), Num2(code, 2), Num2(code, 4), Num2(code, 6), Num2(code, 8)))
  {
    FieldsByInts(read, code, Num2(code, 0), Num2(code, 2), Num2(code, 4), Num2(code, 6), Num2(code, 8));
  }

  /** Codes of eight characters or fewer leave the minute slice empty, and `int("")` raises. */
  lemma ParseShortCode(code: string)
    requires |code| <= 8
    ensures ParseDbTime(code) == None
  {
    assert Slice(code, 8, 10) == [];
    assert PyInt([]) == None;
    assert Fields(code) == None;
  }

  /** Any slice that is not an integer makes the whole decode `None`. */
  lemma ParseNonInteger(code: string, k: nat)
    requires k < 5 && PyInt(Slice(code, 2 * k, 2 * k + 2)).None?
    ensures ParseDbTime(code) == None
  {
    FieldsNone(PyInt, code, k);
  }

  lemma FieldsNone(read: string -> Option<int>, code: string, k: nat)
    requires k < 5 && read(Slice(code, 2 * k, 2 * k + 2)).None?
    ensures FieldsBy(read, code) == None
  {
    if k == 0 { assert read(Slice(code, 0, 2)).None?; }
    else if k == 1 { assert read(Slice(code, 2, 4)).None?; }
    else if k == 2 { assert read(Slice(code, 4, 6)).None?; }
    else if k == 3 { assert read(Slice(code, 6, 8)).None?; }
    else { assert read(Slice(code, 8, 10)).None?; }
  }

  /** Month 13 does not exist. */
  lemma RejectsMonth13()
    ensures ParseDbTime("2513011200") == None
  {
    var c := "2513011200";
    assert c[..10] == c && AllDigits(c);
    ParseDigitCode(c);
    assert Num2(c, 2) == 13;
  }

  /** 30 February does not exist. */
  lemma RejectsFebruary30()
    ensures ParseDbTime("2402301200") == None
  {
    var c := "2402301200";
    assert c[..10] == c && AllDigits(c);
    ParseDigitCode(c);
    assert Num2(c, 0) == 24 && Num2(c, 2) == 2 && Num2(c, 4) == 30;
  }

  /** Hour 24 is out of range. */
  lemma RejectsHour24()
    ensures ParseDbTime("2501012400") == None
  {
    var c := "2501012400";
    assert c[..10] == c && AllDigits(c);
    ParseDigitCode(c);
    assert Num2(c, 6) == 24;
  }

  /** 29 February does not exist in 2025, which is no leap year. */
  lemma RejectsNonLeapDay()
    ensures ParseDbTime("2502291200") == None
  {
    var c := "2502291200";
    assert c[..10] == c && AllDigits(c);
    ParseDigitCode(c);
    assert Num2(c, 0) == 25 && Num2(c, 2) == 2 && Num2(c, 4) == 29;
    assert !IsLeap(2025);
  }

  /** `int()` does not strip U+001C, although `str.strip()` does, so the year slice `"\x1c5"` raises. */
  lemma RejectsFileSeparator()
    ensures ParseDbTime("\U{1C}501011200") == None
  {
    var c := "\U{1C}501011200";
    assert Slice(c, 0, 2) == "\U{1C}5";
    assert IntStrip("\U{1C}5") == "\U{1C}5";
    ParseNonInteger(c, 0);
  }

  /** A space before a one-digit year is stripped: `int(" 5")` is 5. */
  lemma AcceptsPaddedYear()
    ensures ParseDbTime(" 501011200") == Some(DateTime(2005, 1, 1, 12, 0))
  {
    assert IntStrip(" 5") == "5";
    PyIntDigits("5");
    PyIntReadsShortNumbers();
    PaddedYearFields(PyInt);
  }

  lemma PaddedYearFields(read: string -> Option<int>)
    requires ReadsShortNumbers(read) && read(" 5") == Some(5)
    ensures FieldsBy(read, " 501011200") == Some(DateTime(2005, 1, 1, 12, 0))
  {
    var c := " 501011200";
    assert Slice(c, 0, 2) == " 5";
    assert Slice(c, 2, 4) == "01" && Slice(c, 4, 6) == "01" && Slice(c, 6, 8) == "12" && Slice(c, 8, 10) == "00";
    FieldsByInts(read, c, 5, 1, 1, 12, 0);
  }

  /**
   * A nine-character code of digits still decodes: its minute slice is the
   * single last digit, which `int()` accepts.
   */
  lemma NineCharacterCode(code: string)
    requires |code| == 9 && AllDigits(code)
    ensures var dt := DateTime(2000 + Num2(code, 0), Num2(code, 2), Num2(code, 4), Num2(code, 6), DigitVal(code[8]));
            ParseDbTime(code) == if ValidDateTime(dt) then Some(dt) else None
  {
    PyIntReadsShortNumbers();
    NineFields(PyInt, code);
  }

  lemma NineFields(read: string -> Option<int>, code: string)
    requires ReadsShortNumbers(read) && |code| == 9
    requires IsDigit(code[0]) && IsDigit(code[1]) && IsDigit(code[2]) && IsDigit(code[3]) && IsDigit(code[4])
    requires IsDigit(code[5]) && IsDigit(code[6]) && IsDigit(code[7]) && IsDigit(code[8])
    ensures FieldsBy(read, code) == Some(DateTime(2000 + Num2(code, 0), Num2(code, 2), Num2(code, 4), Num2(code, 6), DigitVal(code[8])))
  {
    FieldsByInts(read, code, Num2(code, 0), Num2(code, 2), Num2(code, 4), Num2(code, 6), DigitVal(code[8]));
  }

  /** A minus sign in the year slice is accepted: `int("-d")` is `-d`, a year in the 1990s. */
  lemma SignedYear(code: string)
    requires |code| >= 10 && code[0] == '-' && AllDigits(code[1..10])
    ensures var dt := DateTime(2000 - DigitVal(code[1]), Num2(code, 2), Num2(code, 4), Num2(code, 6), Num2(code, 8));
            ParseDbTime(code) == if ValidDateTime(dt) then Some(dt) else None
  {
    forall k | 1 <= k < 10 ensures IsDigit(code[k]) { assert code[k] == code[1..10][k - 1]; }
    PyIntReadsShortNumbers();
    SignedFields(PyInt, code);
  }

  lemma SignedFields(read: string -> Option<int>, code: string)
    requires ReadsShortNumbers(read) && |code| >= 10 && code[0] == '-'
    requires IsDigit(code[1]) && IsDigit(code[2]) && IsDigit(code[3]) && IsDigit(code[4]) && IsDigit(code[5])
    requires IsDigit(code[6]) && IsDigit(code[7]) && IsDigit(code[8]) && IsDigit(code[9])
    ensures FieldsBy(read, code) == Some(DateTime(2000 - DigitVal(code[1]), Num2(code, 2), Num2(code, 4), Num2(code, 6), Num2(code, 8)))
  {
    FieldsByInts(read, code, 0 - DigitVal(code[1]), Num2(code, 2), Num2(code, 4), Num2(code, 6), Num2(code, 8));
  }

  // ---------------------------------------------------------------------------
  // Encoding, for the round trip

  function DigitChar(d: nat): (c: char)
    requires d <= 9
    ensures IsDigit(c) && DigitVal(c) == d
  {
    ('0' as int + d) as char
  }

  function Two(n: nat): (r: string)
    requires n < 100
    ensures |r| == 2 && AllDigits(r) && 10 * DigitVal(r[0]) + DigitVal(r[1]) == n
  {
    [DigitChar(n / 10), DigitChar(n % 10)]
  }

  /** The `yymmddHHMM` code of a time in the years 2000 to 2099. */
  function Encode(dt: DateTime): (r: string)
    requires ValidDateTime(dt) && 2000 <= dt.year <= 2099
    ensures |r| == 10 && AllDigits(r)
  {
    Two(dt.year - 2000) + Two(dt.month) + Two(dt.day) + Two(dt.hour) + Two(dt.minute)
  }

  lemma EncodeFields(dt: DateTime) returns (c: string)
    requires ValidDateTime(dt) && 2000 <= dt.year <= 2099
    ensures c == Encode(dt) && |c| == 10 && AllDigits(c[..10])
    ensures Num2(c, 0) == dt.year - 2000 && Num2(c, 2) == dt.month && Num2(c, 4) == dt.day
    ensures Num2(c, 6) == dt.hour && Num2(c, 8) == dt.minute
  {
    c := Encode(dt);
    assert c[..10] == c;
  }

  /** Decoding inverts encoding. */
  lemma ParseEncode(dt: DateTime)
    requires ValidDateTime(dt) && 2000 <= dt.year <= 2099
    ensures ParseDbTime(Encode(dt)) == Some(dt)
  {
    var c := EncodeFields(dt);
    ParseDigitCode(c);
  }

  // ---------------------------------------------------------------------------
  // Wall-clock order

  function YearLength(y: int): int
  {
    if IsLeap(y) then 366 else 365
  }

  /** Days from 1 January of year 1 to 1 January of year `y`. */
  function DaysBeforeYear(y: int): nat
    decreases y
  {
    if y <= 1 then 0 else DaysBeforeYear(y - 1) + YearLength(y - 1)
  }

  /** Days from 1 January of year `y` to the first of month `m` (13: the next year). */
  function DaysBeforeMonth(y: int, m: int): nat
    requires 1 <= m <= 13
  {
    if m == 1 then 0 else DaysBeforeMonth(y, m - 1) + DaysInMonth(y, m - 1)
  }

  /** Minutes from 0001-01-01 00:00 on the local wall clock. */
  function Stamp(dt: DateTime): int
    requires ValidDateTime(dt)
  {
    ((DaysBeforeYear(dt.year) + DaysBeforeMonth(dt.year, dt.month) + dt.day - 1) * 24 + dt.hour) * 60 + dt.minute
  }

  /** Field-by-field order, which is how Python compares datetimes sharing a tzinfo. */
  predicate Before(a: DateTime, b: DateTime) {
    || a.year < b.year
    || (a.year == b.year && a.month < b.month)
    || (a.year == b.year && a.month == b.month && a.day < b.day)
    || (a.year == b.year && a.month == b.month && a.day == b.day && a.hour < b.hour)
    || (a.year == b.year && a.month == b.month && a.day == b.day && a.hour == b.hour && a.minute < b.minute)
  }

  lemma YearOfMonths(y: int)
    ensures DaysBeforeMonth(y, 13) == YearLength(y)
  {
    var f := DaysInMonth(y, 2);
    assert DaysBeforeMonth(y, 2) == 31;
    assert DaysBeforeMonth(y, 3) == 31 + f;
    assert DaysBeforeMonth(y, 4) == 62 + f;
    assert DaysBeforeMonth(y, 5) == 92 + f;
    assert DaysBeforeMonth(y, 6) == 123 + f;
    assert DaysBeforeMonth(y, 7) == 153 + f;
    assert DaysBeforeMonth(y, 8) == 184 + f;
    assert DaysBeforeMonth(y, 9) == 215 + f;
    assert DaysBeforeMonth(y, 10) == 245 + f;
    assert DaysBeforeMonth(y, 11) == 276 + f;
    assert DaysBeforeMonth(y, 12) == 306 + f;
    assert DaysBeforeMonth(y, 13) == 337 + f;
  }

  lemma {:induction false} MonthsGrow(y: int, m1: int, m2: int)
    requires 1 <= m1 < m2 <= 13
    ensures DaysBeforeMonth(y, m1) + DaysInMonth(y, m1) <= DaysBeforeMonth(y, m2)
    decreases m2
  {
    if m1 < m2 - 1 {
      MonthsGrow(y, m1, m2 - 1);
    }
  }

  lemma {:induction false} YearsGrow(y1: int, y2: int)
    requires 1 <= y1 < y2
    ensures DaysBeforeYear(y1) + YearLength(y1) <= DaysBeforeYear(y2)
    decreases y2
  {
    if y1 < y2 - 1 {
      YearsGrow(y1, y2 - 1);
    }
  }

  function DayNumber(dt: DateTime): int
    requires ValidDateTime(dt)
  {
    DaysBeforeYear(dt.year) + DaysBeforeMonth(dt.year, dt.month) + dt.day - 1
  }

  lemma DayNumberInYear(dt: DateTime)
    requires ValidDateTime(dt)
    ensures DaysBeforeYear(dt.year) <= DayNumber(dt) < DaysBeforeYear(dt.year) + YearLength(dt.year)
  {
    YearOfMonths(dt.year);
    MonthsGrow(dt.year, dt.month, 13);
  }

  lemma BeforeDayNumber(a: DateTime, b: DateTime)
    requires ValidDateTime(a) && ValidDateTime(b)
    requires a.year < b.year || (a.year == b.year && a.month < b.month) || (a.year == b.year && a.month == b.month && a.day < b.day)
    ensures DayNumber(a) < DayNumber(b)
  {
    if a.year < b.year {
      DayNumberInYear(a);
      DayNumberInYear(b);
      YearsGrow(a.year, b.year);
    } else if a.month < b.month {
      MonthsGrow(a.year, a.month, b.month);
    }
  }

  /** Minute stamps order valid times exactly as Python's datetime comparison does. */
  lemma StampOrder(a: DateTime, b: DateTime)
    requires ValidDateTime(a) && ValidDateTime(b)
    ensures Stamp(a) < Stamp(b) <==> Before(a, b)
    ensures Stamp(a) == Stamp(b) <==> a == b
  {
    assert Stamp(a) == DayNumber(a) * 1440 + a.hour * 60 + a.minute;
    assert Stamp(b) == DayNumber(b) * 1440 + b.hour * 60 + b.minute;
    if a.year < b.year || (a.year == b.year && a.month < b.month) || (a.year == b.year && a.month == b.month && a.day < b.day) {
      BeforeDayNumber(a, b);
    } else if b.year < a.year || (a.year == b.year && b.month < a.month) || (a.year == b.year && a.month == b.month && b.day < a.day) {
      BeforeDayNumber(b, a);
    }
  }
}
