/**
 * Calendar dates and the date normaliser `parse_date`
 * (data-processing/convert_events.py, lines 21-94).
 *
 * `datetime.strptime` is modelled per format: CPython compiles `%d` to the
 * regular expression `3[01]|[12]\d|0[1-9]|[1-9]| [1-9]`, `%m` to
 * `1[0-2]|0[1-9]|[1-9]`, `%Y` to exactly four digits, `%B`/`%b` to the month
 * names (case-insensitively), and a blank in the format to `\s+`; the whole
 * input must be consumed, and `datetime` then rejects year 0 and days that do
 * not exist in their month.  Because no token can contain the separator that
 * follows it, matching a format is the same as splitting on its separator and
 * checking each piece.
 */
module Dates {
  import opened Wrappers
  import opened Text

  datatype Date = Date(year: int, month: int, day: int)

  predicate IsLeapYear(y: int) {
    y % 4 == 0 && (y % 100 != 0 || y % 400 == 0)
  }

  function DaysInMonth(y: int, m: int): (n: int)
    requires 1 <= m <= 12
    ensures 28 <= n <= 31
  {
    if m == 2 then (if IsLeapYear(y) then 29 else 28)
    else if m == 4 || m == 6 || m == 9 || m == 11 then 30
    else 31
  }

  /** The dates `datetime` can represent. */
  predicate ValidDate(d: Date) {
    1 <= d.year <= 9999 && 1 <= d.month <= 12 && 1 <= d.day <= DaysInMonth(d.year, d.month)
  }

  /** Chronological `a <= b`. */
  predicate NotAfter(a: Date, b: Date) {
    || a.year < b.year
    || (a.year == b.year && (a.month < b.month || (a.month == b.month && a.day <= b.day)))
  }

  /** Chronological `a > b`. */
  predicate IsAfter(a: Date, b: Date) {
    !NotAfter(a, b)
  }

  /** Slash dates after this day are day-first, the others month-first (line 35). */
  const FormatCutover := Date(2022, 9, 29)

  // ---------------------------------------------------------------------------
  // tokens of strptime

  predicate IsDigit(c: char) {
    '0' <= c <= '9'
  }

  function DigitValue(c: char): int {
    c as int - '0' as int
  }

  /** Decimal value of a digit string. */
  function Number(t: string): int {
    if t == [] then 0 else Number(t[..|t| - 1]) * 10 + DigitValue(t[|t| - 1])
  }

  /** `%d`: `3[01]|[12]\d|0[1-9]|[1-9]| [1-9]`. */
  predicate DayToken(t: string) {
    || (|t| == 1 && '1' <= t[0] <= '9')
    || (|t| == 2 && t[0] == '0' && '1' <= t[1] <= '9')
    || (|t| == 2 && (t[0] == '1' || t[0] == '2') && IsDigit(t[1]))
    || (|t| == 2 && t[0] == '3' && (t[1] == '0' || t[1] == '1'))
    || (|t| == 2 && t[0] == ' ' && '1' <= t[1] <= '9')
  }

  function DayValue(t: string): int
    requires DayToken(t)
  {
    if t[0] == ' ' then DigitValue(t[1]) else Number(t)
  }

  /** `%m`: `1[0-2]|0[1-9]|[1-9]`. */
  predicate MonthToken(t: string) {
    || (|t| == 1 && '1' <= t[0] <= '9')
    || (|t| == 2 && t[0] == '0' && '1' <= t[1] <= '9')
    || (|t| == 2 && t[0] == '1' && '0' <= t[1] <= '2')
  }

  /** `%Y`: four digits. */
  predicate YearToken(t: string) {
    |t| == 4 && forall i :: 0 <= i < 4 ==> IsDigit(t[i])
  }

  const MonthNames: seq<string> := [
    "january", "february", "march", "april", "may", "june",
    "july", "august", "september", "october", "november", "december"]

  const MonthAbbreviations: seq<string> := [
    "jan", "feb", "mar", "apr", "may", "jun", "jul", "aug", "sep", "oct", "nov", "dec"]

  /** Position (counted from 1) of `w` in `names`. */
  function IndexOf(names: seq<string>, w: string): (r: Option<int>)
    ensures r.Some? ==> 1 <= r.value <= |names| && names[r.value - 1] == w
    ensures r.None? ==> w !in names
  {
    if names == [] then None
    else if names[0] == w then Some(1)
    else match IndexOf(names[1..], w)
      case Some(k) => Some(k + 1)
      case None => None
  }

  /** `%B` (full names) or `%b` (abbreviations), ignoring case. */
  function MonthByName(w: string, fullNames: bool): (r: Option<int>)
    ensures r.Some? ==> 1 <= r.value <= 12
  {
    IndexOf(if fullNames then MonthNames else MonthAbbreviations, Lower(w))
  }

  // ---------------------------------------------------------------------------
  // formats

  datatype FieldOrder = DayMonthYear | MonthDayYear | YearMonthDay

  /** A `strptime` format: three numeric fields around one separator, or
      `%d %B %Y` / `%d %b %Y`. */
  datatype DateFormat = Numeric(order: FieldOrder, sep: char) | Named(fullNames: bool)

  /** `%d.%m.%Y` */
  const Dotted := Numeric(DayMonthYear, '.')
  /** `%d/%m/%Y` */
  const SlashDayFirst := Numeric(DayMonthYear, '/')
  /** `%m/%d/%Y` */
  const SlashMonthFirst := Numeric(MonthDayYear, '/')
  /** `%d-%m-%Y`, `%Y-%m-%d`, `%d %B %Y`, `%d %b %Y`, `%m-%d-%Y` (lines 81-84). */
  const Fallbacks: seq<DateFormat> := [
    Numeric(DayMonthYear, '-'), Numeric(YearMonthDay, '-'), Named(true), Named(false),
    Numeric(MonthDayYear, '-')]

  function MakeDate(y: int, m: int, d: int): (r: Option<Date>)
    ensures r.Some? <==> ValidDate(Date(y, m, d))
    ensures r.Some? ==> r.value == Date(y, m, d)
  {
    if ValidDate(Date(y, m, d)) then Some(Date(y, m, d)) else None
  }

  /** `datetime.strptime(s, f)`, with `None` for `ValueError`. */
  function Strptime(f: DateFormat, s: string): (r: Option<Date>)
    ensures r.Some? ==> ValidDate(r.value)
  {
    match f
    case Numeric(order, sep) =>
      var parts := Split(s, sep);
      if |parts| != 3 then None
      else
        var (d, m, y) := match order
          case DayMonthYear => (parts[0], parts[1], parts[2])
          case MonthDayYear => (parts[1], parts[0], parts[2])
          case YearMonthDay => (parts[2], parts[1], parts[0]);
        if DayToken(d) && MonthToken(m) && YearToken(y) then MakeDate(Number(y), Number(m), DayValue(d))
        else None
    case Named(fullNames) =>
      if s == [] || !NoEdgeSpace(s) then None
      else
        var words := Split(Collapse(s), ' ');
        if |words| != 3 || !DayToken(words[0]) || !YearToken(words[2]) then None
        else match MonthByName(words[1], fullNames)
          case None => None
          case Some(m) => MakeDate(Number(words[2]), m, DayValue(words[0]))
  }

  // ---------------------------------------------------------------------------
  // strftime("%d.%m.%Y")

  function DigitChar(k: int): (c: char)
    requires 0 <= k <= 9
    ensures IsDigit(c) && DigitValue(c) == k
  {
    ('0' as int + k) as char
  }

  function Pad2(n: int): string
    requires 0 <= n <= 99
  {
    [DigitChar(n / 10), DigitChar(n % 10)]
  }

  function Pad4(n: int): string
    requires 0 <= n <= 9999
  {
    [DigitChar(n / 1000), DigitChar(n / 100 % 10), DigitChar(n / 10 % 10), DigitChar(n % 10)]
  }

  /** `date.strftime("%d.%m.%Y")`: zero-padded day, month and four-digit year. */
  function Format(d: Date): string
    requires ValidDate(d)
  {
    Pad2(d.day) + "." + Pad2(d.month) + "." + Pad4(d.year)
  }

  lemma Pad2Value(n: int)
    requires 0 <= n <= 99
    ensures Number(Pad2(n)) == n
  {
    var p := Pad2(n);
    assert p[..1][..0] == [];
    assert Number(p[..1]) == n / 10;
  }

  lemma Pad4Value(n: int)
    requires 0 <= n <= 9999
    ensures Number(Pad4(n)) == n
  {
    var p := Pad4(n);
    assert p[..1][..0] == [];
    assert p[..2][..1] == p[..1];
    assert p[..3][..2] == p[..2];
    assert Number(p[..1]) == n / 1000;
    assert Number(p[..2]) == n / 100;
    assert Number(p[..3]) == n / 10;
  }

  /** The rendered form parses back, as `%d.%m.%Y`, to the same date. */
  lemma FormatRoundTrip(d: Date)
    requires ValidDate(d)
    ensures Strptime(Dotted, Format(d)) == Some(d)
  {
    assert Format(d) == PaddedText(d.day, d.month, d.year, '.');
    PaddedReadings(d.day, d.month, d.year, '.');
  }

  // ---------------------------------------------------------------------------
  // parse_date

  /** The first reading that succeeds. */
  function FirstSome<T>(readings: seq<Option<T>>): (r: Option<T>)
    ensures r.None? <==> forall i :: 0 <= i < |readings| ==> readings[i].None?
    ensures r.Some? ==>
      exists i :: 0 <= i < |readings| && readings[i] == r
        && forall j :: 0 <= j < i ==> readings[j].None?
  {
    if readings == [] then None
    else match readings[0]
      case Some(d) => Some(d)
      case None =>
        var r := FirstSome(readings[1..]);
        assert forall i :: 0 < i < |readings| ==> readings[i] == readings[1..][i - 1];
        r
  }

  /** The first format of `formats` that parses `s`, as the loop at lines 86-91. */
  function FirstMatch(formats: seq<DateFormat>, s: string): (r: Option<Date>)
    ensures r.None? <==> forall i :: 0 <= i < |formats| ==> Strptime(formats[i], s).None?
    ensures r.Some? ==>
      exists i :: 0 <= i < |formats| && Strptime(formats[i], s) == r
        && forall j :: 0 <= j < i ==> Strptime(formats[j], s).None?
  {
    FirstSome(Readings(formats, s))
  }

  /** What each format makes of `s`, in order. */
  function Readings(formats: seq<DateFormat>, s: string): (rs: seq<Option<Date>>)
    ensures |rs| == |formats| && forall i :: 0 <= i < |formats| ==> rs[i] == Strptime(formats[i], s)
  {
    if formats == [] then [] else [Strptime(formats[0], s)] + Readings(formats[1..], s)
  }

  /** `parse_date`: `None` for a blank or unrecognised date, the trimmed input
      when it already reads as `%d.%m.%Y`, and otherwise the `%d.%m.%Y`
      rendering of the first reading that is accepted.  The two repeated tries
      at lines 62-78 test exactly what lines 44-60 tested, so they are not
      modelled again. */
  function ParseDate(raw: string): (r: Option<string>)
    ensures Strip(raw) == "" ==> r == None
    ensures r.Some? ==> Strptime(Dotted, r.value).Some?
    ensures Strptime(Dotted, Strip(raw)).Some? ==> r == Some(Strip(raw))
    ensures r.Some? && r.value != Strip(raw) ==> r.value == Format(Strptime(Dotted, r.value).value)
  {
    var t := Strip(raw);
    if t == "" then None
    else if Strptime(Dotted, t).Some? then Some(t)
    else
      var dayFirst := Strptime(SlashDayFirst, t);
      var monthFirst := Strptime(SlashMonthFirst, t);
      if dayFirst.Some? && IsAfter(dayFirst.value, FormatCutover) then
        FormatRoundTrip(dayFirst.value);
        Some(Format(dayFirst.value))
      else if monthFirst.Some? && NotAfter(monthFirst.value, FormatCutover) then
        FormatRoundTrip(monthFirst.value);
        Some(Format(monthFirst.value))
      else match FirstMatch(Fallbacks, t)
        case Some(d) =>
          FormatRoundTrip(d);
          Some(Format(d))
        case None => None
  }

  // ---------------------------------------------------------------------------
  // properties of parse_date

  /** A numeric format cannot match a string without its separator. */
  lemma NumericNeedsSeparator(order: FieldOrder, sep: char, s: string)
    requires sep !in s
    ensures Strptime(Numeric(order, sep), s) == None
  {
    SplitWithout(s, sep);
  }

  lemma {:induction false} NonSpaceHas(s: string, c: char)
    requires c in s && !IsSpace(c)
    ensures c in NonSpace(s)
  {
    if s[0] != c {
      NonSpaceHas(s[1..], c);
    }
  }

  lemma {:induction false} NonSpaceFrom(s: string, c: char)
    requires c in NonSpace(s)
    ensures c in s
  {
    if IsSpace(s[0]) || s[0] != c {
      NonSpaceFrom(s[1..], c);
    }
  }

  /** Month names are made of lower-case letters only. */
  predicate Letters(s: string) {
    forall i :: 0 <= i < |s| ==> 'a' <= s[i] <= 'z'
  }

  lemma MonthNamesAreLetters()
    ensures forall w :: w in MonthNames ==> Letters(w)
  {
  }

  lemma MonthAbbreviationsAreLetters()
    ensures forall w :: w in MonthAbbreviations ==> Letters(w)
  {
  }

  /** The characters that separate the fields of a numeric format. */
  predicate DateSeparator(c: char) {
    c == '.' || c == '/' || c == '-'
  }

  lemma NoNameHasSeparator(w: string, fullNames: bool, c: char)
    requires MonthByName(w, fullNames).Some? && DateSeparator(c)
    ensures c !in w
  {
    MonthNamesAreLetters();
    MonthAbbreviationsAreLetters();
    var l := Lower(w);
    assert Letters(l);
    forall i | 0 <= i < |w|
      ensures w[i] != c
    {
      assert 'a' <= l[i] <= 'z';
    }
  }

  lemma JoinOfThree(parts: seq<string>, sep: char)
    requires |parts| == 3
    ensures Join(parts, sep) == parts[0] + [sep] + parts[1] + [sep] + parts[2]
  {
    var rest := parts[1..];
    assert rest[1..] == [parts[2]];
    assert Join(rest, sep) == parts[1] + [sep] + parts[2];
  }

  lemma SeparatorSurvivesCollapse(s: string, c: char)
    requires DateSeparator(c) && c in s
    ensures c in Collapse(s)
  {
    NonSpaceHas(s, c);
    CollapseKeepsContent(s);
    NonSpaceFrom(Collapse(s), c);
  }

  /** A character other than the separator lies in one of the three pieces. */
  lemma InSomePiece(s: string, sep: char, c: char)
    requires c in s && c != sep && |Split(s, sep)| == 3
    ensures var parts := Split(s, sep);
      c in parts[0] || c in parts[1] || c in parts[2]
  {
    var parts := Split(s, sep);
    JoinSplit(s, sep);
    JoinOfThree(parts, sep);
  }

  predicate AnyToken(t: string) {
    DayToken(t) || MonthToken(t) || YearToken(t)
  }

  lemma TokensHaveNoSeparator(t: string, c: char)
    requires AnyToken(t) && DateSeparator(c)
    ensures c !in t
  {
  }

  /** A numeric format never matches text holding a separator other than its own. */
  lemma NumericRejectsSeparator(order: FieldOrder, sep: char, c: char, s: string)
    requires DateSeparator(c) && c != sep && c in s
    ensures Strptime(Numeric(order, sep), s) == None
  {
    var parts := Split(s, sep);
    if Strptime(Numeric(order, sep), s).Some? {
      assert |parts| == 3;
      assert AnyToken(parts[0]) && AnyToken(parts[1]) && AnyToken(parts[2]) by {
        match order
        case DayMonthYear =>
        case MonthDayYear =>
        case YearMonthDay =>
      }
      InSomePiece(s, sep, c);
      TokensHaveNoSeparator(parts[0], c);
      TokensHaveNoSeparator(parts[1], c);
      TokensHaveNoSeparator(parts[2], c);
      assert false;
    }
  }

  /** `%d %B %Y` and `%d %b %Y` never match a string holding a '.', '/' or '-'. */
  lemma NamedRejectsSeparator(fullNames: bool, c: char, s: string)
    requires DateSeparator(c) && c in s
    ensures Strptime(Named(fullNames), s) == None
  {
    if s != [] && NoEdgeSpace(s) {
      var collapsed := Collapse(s);
      var words := Split(collapsed, ' ');
      if |words| == 3 && DayToken(words[0]) && YearToken(words[2])
        && MonthByName(words[1], fullNames).Some?
      {
        SeparatorSurvivesCollapse(s, c);
        InSomePiece(collapsed, ' ', c);
        TokensHaveNoSeparator(words[0], c);
        TokensHaveNoSeparator(words[2], c);
        NoNameHasSeparator(words[1], fullNames, c);
        assert false;
      }
    }
  }

  /** The cutover rule (lines 44-78): a date holding a slash is read day-first
      exactly when that reading is strictly after 29 Sep 2022, otherwise
      month-first exactly when that reading is on or before it, and is rejected
      when neither holds, since neither `%d.%m.%Y` nor any fallback format can
      match it. */
  lemma SlashDateCutoverRule(raw: string)
    requires '/' in Strip(raw)
    ensures var dayFirst := Strptime(SlashDayFirst, Strip(raw));
      dayFirst.Some? && IsAfter(dayFirst.value, FormatCutover) ==>
        ParseDate(raw) == Some(Format(dayFirst.value))
    ensures var dayFirst := Strptime(SlashDayFirst, Strip(raw));
      var monthFirst := Strptime(SlashMonthFirst, Strip(raw));
      !(dayFirst.Some? && IsAfter(dayFirst.value, FormatCutover))
        && monthFirst.Some? && NotAfter(monthFirst.value, FormatCutover) ==>
        ParseDate(raw) == Some(Format(monthFirst.value))
    ensures var dayFirst := Strptime(SlashDayFirst, Strip(raw));
      var monthFirst := Strptime(SlashMonthFirst, Strip(raw));
      !(dayFirst.Some? && IsAfter(dayFirst.value, FormatCutover))
        && !(monthFirst.Some? && NotAfter(monthFirst.value, FormatCutover)) ==>
        ParseDate(raw) == None
  {
    var t := Strip(raw);
    NumericRejectsSeparator(DayMonthYear, '.', '/', t);
    FallbacksRejectMark('/', t);
  }

  /** None of the five fallback formats matches text holding a dot or a slash. */
  lemma FallbacksRejectMark(c: char, t: string)
    requires (c == '/' || c == '.') && c in t
    ensures FirstMatch(Fallbacks, t) == None
  {
    forall f | f in Fallbacks
      ensures Strptime(f, t).None?
    {
      match f
      case Numeric(order, sep) =>
        assert sep == '-';
        NumericRejectsSeparator(order, sep, c, t);
      case Named(fullNames) =>
        NamedRejectsSeparator(fullNames, c, t);
    }
  }

  /** A date holding a dot that does not read as `%d.%m.%Y`, such as
      "31.02.2023", is rejected (lines 93-94): neither slash format nor any
      fallback can match it. */
  lemma DottedInvalidRejected(raw: string)
    requires '.' in Strip(raw) && Strptime(Dotted, Strip(raw)).None?
    ensures ParseDate(raw) == None
  {
    var t := Strip(raw);
    NumericRejectsSeparator(DayMonthYear, '/', '.', t);
    NumericRejectsSeparator(MonthDayYear, '/', '.', t);
    FallbacksRejectMark('.', t);
  }

  // ---------------------------------------------------------------------------
  // zero-padded inputs: the worked cases of the cutover rule

  /** `DD<sep>MM<sep>YYYY` written with two-digit day and month. */
  function PaddedText(first: int, second: int, year: int, sep: char): string
    requires 0 <= first <= 99 && 0 <= second <= 99 && 0 <= year <= 9999
  {
    Pad2(first) + [sep] + Pad2(second) + [sep] + Pad4(year)
  }

  lemma PadDigits(n: int)
    requires 0 <= n <= 9999
    ensures n <= 99 ==> forall c :: c in Pad2(n) ==> IsDigit(c)
    ensures forall c :: c in Pad4(n) ==> IsDigit(c)
  {
  }

  lemma Pad2Tokens(n: int)
    requires 0 <= n <= 99
    ensures DayToken(Pad2(n)) <==> 1 <= n <= 31
    ensures MonthToken(Pad2(n)) <==> 1 <= n <= 12
    ensures DayToken(Pad2(n)) ==> DayValue(Pad2(n)) == n
    ensures Number(Pad2(n)) == n
  {
    Pad2Value(n);
  }

  lemma SplitThree(a: string, b: string, c: string, sep: char)
    requires sep !in a && sep !in b && sep !in c
    ensures Split(a + [sep] + b + [sep] + c, sep) == [a, b, c]
  {
    assert a + [sep] + b + [sep] + c == a + [sep] + (b + [sep] + c);
    SplitCons(a, b + [sep] + c, sep);
    SplitCons(b, c, sep);
    SplitWithout(c, sep);
  }

  lemma PaddedSplit(first: int, second: int, year: int, sep: char)
    requires 0 <= first <= 99 && 0 <= second <= 99 && 0 <= year <= 9999
    requires !IsDigit(sep)
    ensures Split(PaddedText(first, second, year, sep), sep) == [Pad2(first), Pad2(second), Pad4(year)]
  {
    PadDigits(first);
    PadDigits(second);
    PadDigits(year);
    SplitThree(Pad2(first), Pad2(second), Pad4(year), sep);
  }

  /** How the two numeric readings of a zero-padded text come out. */
  lemma PaddedReadings(first: int, second: int, year: int, sep: char)
    requires 0 <= first <= 99 && 0 <= second <= 99 && 0 <= year <= 9999
    requires !IsDigit(sep)
    ensures Strptime(Numeric(DayMonthYear, sep), PaddedText(first, second, year, sep))
      == (if 1 <= first <= 31 && 1 <= second <= 12 then MakeDate(year, second, first) else None)
    ensures Strptime(Numeric(MonthDayYear, sep), PaddedText(first, second, year, sep))
      == (if 1 <= first <= 12 && 1 <= second <= 31 then MakeDate(year, first, second) else None)
  {
    PaddedSplit(first, second, year, sep);
    PadDigits(year);
    Pad2Tokens(first);
    Pad2Tokens(second);
    Pad4Value(year);
  }

  /** A zero-padded text is trimmed, made of digits and its separator, and holds the separator. */
  lemma PaddedShape(first: int, second: int, year: int, sep: char)
    requires 0 <= first <= 99 && 0 <= second <= 99 && 0 <= year <= 9999
    ensures Strip(PaddedText(first, second, year, sep)) == PaddedText(first, second, year, sep)
    ensures forall c :: c in PaddedText(first, second, year, sep) ==> IsDigit(c) || c == sep
    ensures sep in PaddedText(first, second, year, sep)
  {
    var a, b, c := Pad2(first), Pad2(second), Pad4(year);
    PadDigits(first);
    PadDigits(second);
    PadDigits(year);
    var t := PaddedText(first, second, year, sep);
    assert t[0] == a[0] && t[|t| - 1] == c[3] && t[2] == sep;
  }

  /** The cutover rule applied to a trimmed slash date, in terms of its two readings. */
  lemma SlashReadingsDecide(t: string, dayFirst: Option<Date>, monthFirst: Option<Date>)
    requires Strip(t) == t && '/' in t
    requires Strptime(SlashDayFirst, t) == dayFirst && Strptime(SlashMonthFirst, t) == monthFirst
    ensures ParseDate(t) ==
      if dayFirst.Some? && IsAfter(dayFirst.value, FormatCutover) then Some(Format(dayFirst.value))
      else if monthFirst.Some? && NotAfter(monthFirst.value, FormatCutover) then Some(Format(monthFirst.value))
      else None
  {
    SlashDateCutoverRule(t);
  }

  /** A slash date whose day-first reading is after the cutover is read day-first
      and rendered zero-padded: "03/04/2023" gives "03.04.2023". */
  lemma DayFirstAfterCutover(d: Date)
    requires ValidDate(d) && IsAfter(d, FormatCutover)
    ensures ParseDate(PaddedText(d.day, d.month, d.year, '/')) == Some(Format(d))
  {
    var t := PaddedText(d.day, d.month, d.year, '/');
    PaddedReadings(d.day, d.month, d.year, '/');
    PaddedShape(d.day, d.month, d.year, '/');
    SlashReadingsDecide(t, Some(d), Strptime(SlashMonthFirst, t));
  }

  /** A day-first slash date on or before the cutover whose day exceeds 12 is
      rejected: its month-first reading has no such month and no fallback
      format takes slashes, so "15/03/2021" gives None. */
  lemma LateDayBeforeCutoverRejected(d: Date)
    requires ValidDate(d) && NotAfter(d, FormatCutover) && d.day > 12
    ensures ParseDate(PaddedText(d.day, d.month, d.year, '/')) == None
  {
    var t := PaddedText(d.day, d.month, d.year, '/');
    PaddedReadings(d.day, d.month, d.year, '/');
    PaddedShape(d.day, d.month, d.year, '/');
    SlashReadingsDecide(t, Some(d), None);
  }

  /** A zero-padded dotted date that names no calendar day, such as
      "31.02.2023", gives None. */
  lemma NonexistentDottedDateRejected(first: int, second: int, year: int)
    requires 0 <= first <= 99 && 0 <= second <= 99 && 0 <= year <= 9999
    requires !ValidDate(Date(year, second, first))
    ensures ParseDate(PaddedText(first, second, year, '.')) == None
  {
    PaddedReadings(first, second, year, '.');
    PaddedShape(first, second, year, '.');
    DottedInvalidRejected(PaddedText(first, second, year, '.'));
  }

  /** When the day-first reading falls on or before the cutover and the
      month-first reading after it, both are refused: "10/01/2022" gives None. */
  lemma BothReadingsOnWrongSide(first: int, second: int, year: int)
    requires 0 <= first <= 99 && 0 <= second <= 99 && 0 <= year <= 9999
    requires ValidDate(Date(year, second, first)) && NotAfter(Date(year, second, first), FormatCutover)
    requires ValidDate(Date(year, first, second)) && IsAfter(Date(year, first, second), FormatCutover)
    ensures ParseDate(PaddedText(first, second, year, '/')) == None
  {
    var t := PaddedText(first, second, year, '/');
    PaddedReadings(first, second, year, '/');
    PaddedShape(first, second, year, '/');
    SlashReadingsDecide(t, Some(Date(year, second, first)), Some(Date(year, first, second)));
  }

  /** Without dots or slashes, only the fallbacks can read a date. */
  lemma FallbacksOnly(raw: string)
    requires Strip(raw) != "" && '/' !in Strip(raw) && '.' !in Strip(raw)
    ensures ParseDate(raw) ==
      match FirstMatch(Fallbacks, Strip(raw))
      case Some(d) => Some(Format(d))
      case None => None
  {
    var t := Strip(raw);
    NumericNeedsSeparator(DayMonthYear, '.', t);
    NumericNeedsSeparator(DayMonthYear, '/', t);
    NumericNeedsSeparator(MonthDayYear, '/', t);
  }

  /** A date without dots or slashes is rendered from the reading of the first
      fallback format that accepts it: `%d-%m-%Y`, `%Y-%m-%d`, `%d %B %Y`,
      `%d %b %Y`, `%m-%d-%Y`, in that order. */
  lemma FallbacksDecide(raw: string, d: Date)
    requires Strip(raw) != "" && '/' !in Strip(raw) && '.' !in Strip(raw)
    requires ValidDate(d)
    ensures ParseDate(raw) == Some(Format(d)) <==>
      exists i :: 0 <= i < |Fallbacks| && Strptime(Fallbacks[i], Strip(raw)) == Some(d)
        && forall j :: 0 <= j < i ==> Strptime(Fallbacks[j], Strip(raw)).None?
  {
    var t := Strip(raw);
    FallbacksOnly(raw);
    var r := FirstMatch(Fallbacks, t);
    if ParseDate(raw) == Some(Format(d)) {
      var e := r.value;
      FormatRoundTrip(d);
      FormatRoundTrip(e);
      assert e == d;
    }
    if exists i :: 0 <= i < |Fallbacks| && Strptime(Fallbacks[i], t) == Some(d)
        && forall j :: 0 <= j < i ==> Strptime(Fallbacks[j], t).None?
    {
      var i :| 0 <= i < |Fallbacks| && Strptime(Fallbacks[i], t) == Some(d)
        && forall j :: 0 <= j < i ==> Strptime(Fallbacks[j], t).None?;
      var i' :| 0 <= i' < |Fallbacks| && Strptime(Fallbacks[i'], t) == r
        && forall j :: 0 <= j < i' ==> Strptime(Fallbacks[j], t).None?;
      assert i' == i;
    }
  }

  /** A date without dots or slashes is rejected exactly when all five
      fallback formats fail on it. */
  lemma FallbacksExhausted(raw: string)
    requires Strip(raw) != "" && '/' !in Strip(raw) && '.' !in Strip(raw)
    ensures ParseDate(raw) == None <==>
      forall i :: 0 <= i < |Fallbacks| ==> Strptime(Fallbacks[i], Strip(raw)).None?
  {
    FallbacksOnly(raw);
  }

  /** A date with dashes is read by the first fallback, `%d-%m-%Y`, whenever
      that reading exists, even if `%m-%d-%Y` would also accept it:
      "05-01-2023" gives "05.01.2023". */
  lemma DashDateIsDayFirst(d: Date)
    requires ValidDate(d)
    ensures ParseDate(PaddedText(d.day, d.month, d.year, '-')) == Some(Format(d))
  {
    var t := PaddedText(d.day, d.month, d.year, '-');
    PaddedReadings(d.day, d.month, d.year, '-');
    PaddedShape(d.day, d.month, d.year, '-');
    assert '.' !in t && '/' !in t;
    assert Strip(t) == t;
    assert Fallbacks[0] == Numeric(DayMonthYear, '-');
    FallbacksDecide(t, d);
    assert Strptime(Fallbacks[0], Strip(t)) == Some(d);
  }
}
