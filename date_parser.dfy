/**
 * `DateParser` of scraper/scraper.py: free date text to an aware date-time.
 *
 * The clock (`timezone.now()`), the configured time zone (a fixed UTC offset in
 * seconds) and dateutil's fuzzy parser are parameters; the fuzzy parser is an
 * oracle that either yields a date-time with an optional offset, raises a
 * `ValueError`/`ParserError` (which the cascade catches), or raises anything else
 * (which escapes `parse_date`).
 */
module DateParser {
  import opened Wrappers
  import opened Text
  import opened Calendar
  import opened Cleaning

  /** What a parsing function returns: a date-time, `None`, or an exception that escapes it. */
  datatype ParseResult = Parsed(dt: DateTime) | NoDate | Raises

  datatype FuzzyResult =
    | FuzzyParsed(date: Date, time: Time, offset: Option<int>)
    | FuzzyValueError
    | FuzzyOtherError

  /** A date-time the fuzzy parser returns is a real `datetime`. */
  predicate FuzzyValid(f: FuzzyResult) {
    f.FuzzyParsed? ==> ValidDate(f.date) && ValidTime(f.time)
  }

  function Lift(o: Option<DateTime>): (r: ParseResult)
    ensures r != NoDate && (r.Parsed? <==> o.Some?) && (r.Parsed? ==> r.dt == o.value)
  {
    match o
    case Some(dt) => Parsed(dt)
    case None => Raises
  }

  // ---------------------------------------------------------------- relative times

  datatype Unit = Hours | Minutes | Days | Weeks | Months | Years

  /** The patterns of `parse_relative_time`, tried in this order (each as `(\d+)\s+<word>`). */
  const RelativePatterns: seq<(string, Unit)> :=
    [("hour", Hours), ("hr", Hours), ("minute", Minutes), ("min", Minutes),
     ("day", Days), ("week", Weeks), ("month", Months), ("year", Years)]

  /** The number `(\d+)\s+<word>` captures when it matches at position `i`. */
  function CountAt(s: string, i: nat, word: string): Option<nat>
    requires i <= |s|
  {
    var digits := Run(s, i, Digit);
    if digits == 0 then None
    else
      var gap := Run(s, i + digits, Space);
      if gap >= 1 && HasWordAt(s, i + digits + gap, word) then Some(DigitsValue(s, i, i + digits)) else None
  }

  /** The outcome of `(\d+)\s+<word>` at every position of `s`, and one past the end. */
  function Counts(s: string, word: string): (cs: seq<Option<nat>>)
    ensures |cs| == |s| + 1
    ensures forall j :: 0 <= j <= |s| ==> cs[j] == CountAt(s, j, word)
  {
    seq(|s| + 1, j requires 0 <= j <= |s| => CountAt(s, j, word))
  }

  /** `re.search` from index `i`: the leftmost index where the pattern matches. */
  function FirstSome(cs: seq<Option<nat>>, i: nat): (r: Option<nat>)
    requires i <= |cs|
    ensures r.Some? ==> i <= r.value < |cs| && cs[r.value].Some?
    ensures forall j :: i <= j < |cs| && (r.None? || j < r.value) ==> cs[j].None?
    decreases |cs| - i
  {
    if i == |cs| then None
    else if cs[i].Some? then Some(i)
    else FirstSome(cs, i + 1)
  }

  /** `re.search(r'(\d+)\s+<word>', s)`: the match position and the captured number. */
  function Search(s: string, word: string): (r: Option<(nat, nat)>)
    ensures r.Some? ==> r.value.0 <= |s| && CountAt(s, r.value.0, word) == Some(r.value.1)
    ensures forall j :: 0 <= j <= |s| && (r.None? || j < r.value.0) ==> CountAt(s, j, word).None?
  {
    var cs := Counts(s, word);
    match FirstSome(cs, 0)
    case None => None
    case Some(p) => Some((p, cs[p].value))
  }

  /** The `re.search` result of every pattern, in pattern order. */
  function SearchAll(s: string, pats: seq<(string, Unit)>): (hits: seq<Option<(nat, nat)>>)
    ensures |hits| == |pats| && forall j :: 0 <= j < |pats| ==> hits[j] == Search(s, pats[j].0)
  {
    if |pats| == 0 then [] else [Search(s, pats[0].0)] + SearchAll(s, pats[1..])
  }

  function Hits(s: string): (hits: seq<Option<(nat, nat)>>)
    ensures |hits| == |RelativePatterns|
  {
    SearchAll(s, RelativePatterns)
  }

  /** The first hit from index `k` on, as (pattern index, number): the early return of the pattern loop. */
  function FirstHit(hits: seq<Option<(nat, nat)>>, k: nat): (r: Option<(nat, nat)>)
    requires k <= |hits|
    ensures r.Some? ==> k <= r.value.0 < |hits| && hits[r.value.0].Some? && hits[r.value.0].value.1 == r.value.1
    ensures r.Some? ==> forall j :: k <= j < r.value.0 ==> hits[j].None?
    ensures r.None? ==> forall j :: k <= j < |hits| ==> hits[j].None?
    decreases |hits| - k
  {
    if k == |hits| then None
    else
      match hits[k]
      case Some(hit) => Some((k, hit.1))
      case None => FirstHit(hits, k + 1)
  }

  /** The unit and count `parse_relative_time` acts on: those of the first pattern that matches. */
  function Decided(s: string): (r: Option<(Unit, nat)>)
    ensures r.None? <==> forall j :: 0 <= j < |RelativePatterns| ==> Hits(s)[j].None?
    ensures r.Some? ==> exists k :: 0 <= k < |RelativePatterns| && FirstMatchIs(s, k, r.value.0, r.value.1)
  {
    var pats := RelativePatterns;
    match FirstHit(Hits(s), 0)
    case None => None
    case Some((k, n)) =>
      assert FirstMatchIs(s, k, pats[k].1, n);
      Some((pats[k].1, n))
  }

  /** Pattern `k` is the first that matches, it stands for unit `u` and it captured `n`. */
  predicate FirstMatchIs(s: string, k: nat, u: Unit, n: nat)
    requires k < |RelativePatterns|
  {
    var hits := Hits(s);
    && RelativePatterns[k].1 == u
    && hits[k].Some? && hits[k].value.1 == n
    && forall j :: 0 <= j < k ==> hits[j].None?
  }

  predicate IsFixedUnit(u: Unit) {
    u != Months && u != Years
  }

  /** The `timedelta` one unit stands for. */
  function UnitMicros(u: Unit): nat
    requires IsFixedUnit(u)
  {
    match u
    case Hours => US_PER_HOUR
    case Minutes => US_PER_MINUTE
    case Days => US_PER_DAY
    case Weeks => 7 * US_PER_DAY
  }

  function SubtractUnits(now: DateTime, u: Unit, n: nat): (r: ParseResult)
    requires ValidDateTime(now)
    ensures r != NoDate
    ensures r.Parsed? ==> ValidDateTime(r.dt) && r.dt.offset == now.offset
  {
    match u
    case Months => Lift(SubtractMonths(now, n))
    case Years => Lift(SubtractYears(now, n))
    case _ => Lift(SubtractMicros(now, n * UnitMicros(u)))
  }

  /**
   * `parse_relative_time`: the first pattern that matches decides. Hours, minutes,
   * days and weeks move the instant back by a fixed duration; months and years move
   * the calendar month back and clamp the day; an out-of-range result raises.
   */
  function ParseRelativeTime(text: string, now: DateTime): (r: ParseResult)
    requires ValidDateTime(now)
    ensures r == NoDate <==> forall j :: 0 <= j < |RelativePatterns| ==> Hits(text)[j].None?
    ensures r.Parsed? ==> ValidDateTime(r.dt) && r.dt.offset == now.offset
  {
    match Decided(text)
    case None => NoDate
    case Some((u, n)) => SubtractUnits(now, u, n)
  }

  /** "N hours/minutes/days/weeks ago" is exactly that duration before `now`, unless that leaves year 1. */
  lemma RelativeFixedDuration(text: string, now: DateTime, u: Unit, n: nat)
    requires ValidDateTime(now)
    requires Decided(text) == Some((u, n)) && IsFixedUnit(u)
    ensures var r := ParseRelativeTime(text, now);
      && (r.Parsed? <==> LocalMicros(now) - n * UnitMicros(u) >= US_PER_DAY)
      && (r == Raises <==> !r.Parsed?)
      && (r.Parsed? ==> Instant(r.dt) == Instant(now) - n * UnitMicros(u))
  {
  }

  /** "N months ago" is the month N before, same time of day, the day clamped to that month's end. */
  lemma RelativeMonths(text: string, now: DateTime, n: nat)
    requires ValidDateTime(now)
    requires Decided(text) == Some((Months, n))
    ensures var r := ParseRelativeTime(text, now);
      && (r.Parsed? <==> MonthIndex(now.date) - n >= 12 * MIN_YEAR)
      && (r == Raises <==> !r.Parsed?)
      && (r.Parsed? ==> MonthIndex(r.dt.date) == MonthIndex(now.date) - n && r.dt.time == now.time
                        && r.dt.date.day <= now.date.day
                        && (r.dt.date.day < now.date.day ==> r.dt.date.day == DaysInMonth(r.dt.date.year, r.dt.date.month)))
  {
    assert ParseRelativeTime(text, now) == Lift(SubtractMonths(now, n));
  }

  /** "N years ago" keeps month, day and time; 29 February becomes the 28th when the target year is not leap. */
  lemma RelativeYears(text: string, now: DateTime, n: nat)
    requires ValidDateTime(now)
    requires Decided(text) == Some((Years, n))
    ensures var r := ParseRelativeTime(text, now);
      && (r.Parsed? <==> now.date.year - n >= MIN_YEAR)
      && (r == Raises <==> !r.Parsed?)
      && (r.Parsed? ==> r.dt.date.year == now.date.year - n && r.dt.date.month == now.date.month
                        && r.dt.time == now.time
                        && r.dt.date.day == (if now.date.month == 2 && now.date.day == 29 && !IsLeap(now.date.year - n) then 28 else now.date.day))
  {
    assert ParseRelativeTime(text, now) == SubtractUnits(now, Years, n);
    YearsBack(now, n);
  }

  /** The year branch of the unit dispatch. */
  lemma YearsBack(now: DateTime, n: nat)
    requires ValidDateTime(now)
    ensures var r := SubtractUnits(now, Years, n);
      && (r.Parsed? <==> now.date.year - n >= MIN_YEAR)
      && (r == Raises <==> !r.Parsed?)
      && (r.Parsed? ==> r.dt.date.year == now.date.year - n && r.dt.date.month == now.date.month
                        && r.dt.time == now.time
                        && r.dt.date.day == (if now.date.month == 2 && now.date.day == 29 && !IsLeap(now.date.year - n) then 28 else now.date.day))
  {
    assert SubtractUnits(now, Years, n) == Lift(SubtractYears(now, n));
  }

  // ---------------------------------------------------------------- manual fallback

  /** `(\d{4})` at position `j`: the first four digits of a run of at least four. */
  function YearAt(s: string, j: nat): (r: Option<nat>)
    requires j <= |s|
    ensures r.Some? <==> Run(s, j, Digit) >= 4
    ensures r.Some? ==> r.value < 10000 && r.value == DigitsValue(s, j, j + 4)
  {
    if Run(s, j, Digit) < 4 then None
    else
      DigitsBound(s, j, j + 4);
      assert Pow10(4) == 10000;
      Some(DigitsValue(s, j, j + 4))
  }

  /** `\s+(\d{1,2}),\s+(\d{4})` at position `k`: (day, year). */
  function DayCommaYear(s: string, k: nat): (r: Option<(nat, nat)>)
    requires k <= |s|
    ensures r.Some? ==> r.value.0 < 100 && r.value.1 < 10000
  {
    var gap := Run(s, k, Space);
    var i := k + gap;
    var digits := Run(s, i, Digit);
    if gap == 0 || digits < 1 || digits > 2 || i + digits == |s| || s[i + digits] != ',' then None
    else
      var gap2 := Run(s, i + digits + 1, Space);
      if gap2 == 0 then None
      else
        match YearAt(s, i + digits + 1 + gap2)
        case None => None
        case Some(year) =>
          DigitsBelow(s, i, i + digits, 2);
          assert Pow10(2) == 100;
          Some((DigitsValue(s, i, i + digits), year))
  }

  /** `re.match(r'([A-Za-z]{3,9})\s+(\d{1,2}),\s+(\d{4})', s)`: (name, day, year). */
  function MonthBranch(s: string): (r: Option<(string, nat, nat)>)
    ensures r.Some? ==> 3 <= |r.value.0| <= 9 && r.value.1 < 100 && r.value.2 < 10000
  {
    var letters := Run(s, 0, Letter);
    if letters < 3 || letters > 9 then None
    else
      match DayCommaYear(s, letters)
      case None => None
      case Some((day, year)) => Some((s[..letters], day, year))
  }

  /** `re.match(r'(\d{1,2})/(\d{1,2})/(\d{4})', s)`: (part1, part2, year). */
  function SlashBranch(s: string): (r: Option<(nat, nat, nat)>)
    ensures r.Some? ==> r.value.0 < 100 && r.value.1 < 100 && r.value.2 < 10000
  {
    var d1 := Run(s, 0, Digit);
    if d1 < 1 || d1 > 2 || d1 == |s| || s[d1] != '/' then None
    else
      var d2 := Run(s, d1 + 1, Digit);
      var k := d1 + 1 + d2;
      if d2 < 1 || d2 > 2 || k == |s| || s[k] != '/' then None
      else
        match YearAt(s, k + 1)
        case None => None
        case Some(year) =>
          DigitsBelow(s, 0, d1, 2);
          DigitsBelow(s, d1 + 1, k, 2);
          assert Pow10(2) == 100;
          Some((DigitsValue(s, 0, d1), DigitsValue(s, d1 + 1, k), year))
  }

  /** The month names `manual_parse` knows, keyed in lower case. */
  const MonthDict: map<string, int> := map[
    "jan" := 1, "january" := 1, "feb" := 2, "february" := 2, "mar" := 3, "march" := 3,
    "apr" := 4, "april" := 4, "may" := 5, "jun" := 6, "june" := 6, "jul" := 7, "july" := 7,
    "aug" := 8, "august" := 8, "sep" := 9, "september" := 9, "oct" := 10, "october" := 10,
    "nov" := 11, "november" := 11, "dec" := 12, "december" := 12]

  /** `month_dict.get(name.lower(), 1)`: an unknown name such as "Sept" gives January. */
  function MonthNumber(name: string): (m: int)
    ensures 1 <= m <= 12
    ensures LowerStr(name) !in MonthDict ==> m == 1
  {
    var k := LowerStr(name);
    if k in MonthDict then MonthDict[k] else 1
  }

  /**
   * `manual_parse`: `Name DD, YYYY`, else `P1/P2/YYYY` read month-first and, if
   * that date does not exist, day-first; both at noon in the configured zone.
   * A date that does not exist raises; text matching neither shape gives `None`.
   */
  function ManualParse(text: string, tz: int): (r: ParseResult)
    ensures r.Parsed? ==> ValidDateTime(r.dt) && r.dt.time == Noon && r.dt.offset == tz
    ensures r == NoDate <==> MonthBranch(Strip(text)).None? && SlashBranch(Strip(text)).None?
    ensures MonthBranch(Strip(text)).Some? ==>
      var (name, day, year) := MonthBranch(Strip(text)).value;
      (r.Parsed? <==> ValidDate(Date(year, MonthNumber(name), day)))
      && (r.Parsed? ==> r.dt.date == Date(year, MonthNumber(name), day))
    ensures MonthBranch(Strip(text)).None? && SlashBranch(Strip(text)).Some? ==>
      var (p1, p2, year) := SlashBranch(Strip(text)).value;
      (r == Raises <==> !ValidDate(Date(year, p1, p2)) && !ValidDate(Date(year, p2, p1)))
      && (ValidDate(Date(year, p1, p2)) ==> r.Parsed? && r.dt.date == Date(year, p1, p2))
      && (!ValidDate(Date(year, p1, p2)) && r.Parsed? ==> r.dt.date == Date(year, p2, p1))
  {
    var s := Strip(text);
    match MonthBranch(s)
    case Some((name, day, year)) =>
      var d := Date(year, MonthNumber(name), day);
      if ValidDate(d) then Parsed(AtNoon(d, tz)) else Raises
    case None =>
      match SlashBranch(s)
      case Some((p1, p2, year)) =>
        if ValidDate(Date(year, p1, p2)) then Parsed(AtNoon(Date(year, p1, p2), tz))
        else if ValidDate(Date(year, p2, p1)) then Parsed(AtNoon(Date(year, p2, p1), tz))
        else Raises
      case None => NoDate
  }

  // ---------------------------------------------------------------- display

  function MonthAbbrev(m: int): (r: string)
    requires 1 <= m <= 12
    ensures |r| == 3 && IsLetter(r[0]) && IsLetter(r[1]) && IsLetter(r[2])
  {
    ["Jan", "Feb", "Mar", "Apr", "May", "Jun", "Jul", "Aug", "Sep", "Oct", "Nov", "Dec"][m - 1]
  }

  /** `format_date_for_display`: "N/A", or `%b %d, %Y` such as "Sep 05, 2024". */
  function FormatDateForDisplay(dt: Option<DateTime>): (r: string)
    requires dt.Some? ==> ValidDateTime(dt.value)
    ensures dt.None? ==> r == "N/A"
    ensures dt.Some? ==> |r| == 12 && r[3] == ' ' && r[6] == ',' && r[7] == ' '
    ensures dt.Some? ==> && r[..3] == MonthAbbrev(dt.value.date.month)
                         && r[4..6] == Pad2(dt.value.date.day)
                         && r[8..] == Pad4(dt.value.date.year)
  {
    match dt
    case None => "N/A"
    case Some(t) => MonthAbbrev(t.date.month) + " " + Pad2(t.date.day) + ", " + Pad4(t.date.year)
  }

  /** `%b` is the capitalised English abbreviation: 5 September 2024 shows as "Sep 05, 2024". */
  lemma DisplayExample(t: Time, offset: int)
    requires ValidTime(t)
    ensures FormatDateForDisplay(Some(DateTime(Date(2024, 9, 5), t, offset))) == "Sep 05, 2024"
  {
  }

  lemma MonthNumberOfAbbrev(m: int)
    requires 1 <= m <= 12
    ensures MonthNumber(MonthAbbrev(m)) == m
  {
    var a := MonthAbbrev(m);
    assert LowerStr(a) == [Lower(a[0]), a[1], a[2]];
  }

  /** The `Name DD, YYYY` pattern reads a display string back field by field. */
  lemma {:induction false} MonthBranchReadsDisplay(abbr: string, day: nat, year: nat)
    requires |abbr| == 3 && IsLetter(abbr[0]) && IsLetter(abbr[1]) && IsLetter(abbr[2])
    requires day < 100 && year < 10000
    ensures MonthBranch(abbr + " " + Pad2(day) + ", " + Pad4(year)) == Some((abbr, day, year))
  {
    var s := abbr + " " + Pad2(day) + ", " + Pad4(year);
    assert |s| == 12;
    assert Run(s, 0, Letter) == 3 by {
      assert IsLetter(s[0]) && IsLetter(s[1]) && IsLetter(s[2]) && !IsLetter(s[3]);
    }
    assert Run(s, 3, Space) == 1 by { assert IsSpace(s[3]) && !IsSpace(s[4]); }
    assert Run(s, 4, Digit) == 2 by { assert IsDigit(s[4]) && IsDigit(s[5]) && !IsDigit(s[6]); }
    assert s[6] == ',';
    assert Run(s, 7, Space) == 1 by { assert IsSpace(s[7]) && !IsSpace(s[8]); }
    assert Run(s, 8, Digit) == 4 by {
      assert IsDigit(s[8]) && IsDigit(s[9]) && IsDigit(s[10]) && IsDigit(s[11]);
    }
    assert s[4..6] == Pad2(day);
    assert s[8..12] == Pad4(year);
    Pad2Value(s, 4, day);
    Pad4Value(s, 8, year);
    assert s[..3] == abbr;
  }

  /**
   * The display string is read back by the `Name DD, YYYY` branch of `manual_parse`:
   * the same calendar date, at noon in the configured zone.
   */
  lemma {:induction false} DisplayRoundTrip(dt: DateTime, tz: int)
    requires ValidDateTime(dt)
    ensures ManualParse(FormatDateForDisplay(Some(dt)), tz) == Parsed(AtNoon(dt.date, tz))
  {
    var d := dt.date;
    var s := FormatDateForDisplay(Some(dt));
    StripUnchanged(s);
    MonthBranchReadsDisplay(MonthAbbrev(d.month), d.day, d.year);
    MonthNumberOfAbbrev(d.month);
  }

  // ---------------------------------------------------------------- the cascade

  function HasWord(c: string, w: string): bool {
    Contains(LowerStr(c), w)
  }

  /** What `parse_date` does with a successful fuzzy parse: make it aware, then coerce older dates to noon. */
  function Coerce(date: Date, time: Time, offset: Option<int>, now: DateTime, tz: int): (r: DateTime)
    ensures r.date == date && r.offset == (if offset.Some? then offset.value else tz)
    ensures r.time == (if date == now.date then time else Noon)
  {
    var aware := DateTime(date, time, offset.GetOr(tz));
    if aware.date == now.date then aware else DateTime(aware.date, Noon, aware.offset)
  }

  /** The last stage of `parse_date`, given what the fuzzy parser did with the cleaned text `c`. */
  function AfterFuzzy(c: string, f: FuzzyResult, now: DateTime, tz: int): (r: ParseResult)
    requires FuzzyValid(f)
    ensures r.Parsed? ==> ValidDateTime(r.dt)
  {
    match f
    case FuzzyParsed(d, t, o) => Parsed(Coerce(d, t, o, now, tz))
    case FuzzyValueError =>
      var m := ManualParse(c, tz);
      if m == Raises then NoDate else m
    case FuzzyOtherError => Raises
  }

  /** `parse_date`: blank, relative, "today", "yesterday", then the fuzzy parser with the manual fallback. */
  function ParseDate(dateText: string, now: DateTime, tz: int, fuzzy: string -> FuzzyResult): (r: ParseResult)
    requires ValidDateTime(now)
    requires forall s :: FuzzyValid(fuzzy(s))
    ensures Strip(dateText) == [] ==> r == NoDate
    ensures r.Parsed? ==> ValidDateTime(r.dt)
  {
    if Strip(dateText) == [] then NoDate
    else
      var c := CleanedText(dateText);
      if HasWord(c, "ago") then ParseRelativeTime(c, now)
      else if HasWord(c, "today") then Parsed(AtNoon(now.date, now.offset))
      else if HasWord(c, "yesterday") then
        match SubtractMicros(now, US_PER_DAY)
        case None => Raises
        case Some(y) => Parsed(AtNoon(y.date, y.offset))
      else AfterFuzzy(c, fuzzy(c), now, tz)
  }

  // ---------------------------------------------------------------- properties of the cascade

  /** "N ... ago" text is handed to `parse_relative_time` (after the clean-up). */
  lemma ParseDateRelative(dateText: string, now: DateTime, tz: int, fuzzy: string -> FuzzyResult)
    requires ValidDateTime(now) && forall s :: FuzzyValid(fuzzy(s))
    requires Strip(dateText) != [] && HasWord(CleanedText(dateText), "ago")
    ensures ParseDate(dateText, now, tz, fuzzy) == ParseRelativeTime(CleanedText(dateText), now)
  {
  }

  /** "today" is noon of the current date, in the clock's zone. */
  lemma ParseDateToday(dateText: string, now: DateTime, tz: int, fuzzy: string -> FuzzyResult)
    requires ValidDateTime(now) && forall s :: FuzzyValid(fuzzy(s))
    requires var c := CleanedText(dateText); Strip(dateText) != [] && !HasWord(c, "ago") && HasWord(c, "today")
    ensures var r := ParseDate(dateText, now, tz, fuzzy);
      r.Parsed? && r.dt.date == now.date && r.dt.time == Noon && r.dt.offset == now.offset
  {
  }

  /** Subtracting one day of microseconds moves to the previous calendar day at the same time of day. */
  lemma {:induction false} OneDayBack(now: DateTime)
    requires ValidDateTime(now)
    ensures SubtractMicros(now, US_PER_DAY).Some? <==> Ordinal(now.date) > 1
    ensures SubtractMicros(now, US_PER_DAY).Some? ==>
      var y := SubtractMicros(now, US_PER_DAY).value;
      Ordinal(y.date) == Ordinal(now.date) - 1 && y.time == now.time && y.offset == now.offset
  {
    var tn := TimeMicros(now.time);
    assert LocalMicros(now) == Ordinal(now.date) * US_PER_DAY + tn;
    match SubtractMicros(now, US_PER_DAY)
    case None =>
    case Some(y) =>
      var ty := TimeMicros(y.time);
      var k := Ordinal(y.date) - (Ordinal(now.date) - 1);
      assert LocalMicros(y) == Ordinal(y.date) * US_PER_DAY + ty;
      assert k * US_PER_DAY == tn - ty;
      assert k == 0;
      TimeRoundTrip(y.time);
      TimeRoundTrip(now.time);
  }

  /** "yesterday" is noon of the previous calendar day; on 0001-01-01 the subtraction overflows. */
  lemma ParseDateYesterday(dateText: string, now: DateTime, tz: int, fuzzy: string -> FuzzyResult)
    requires ValidDateTime(now) && forall s :: FuzzyValid(fuzzy(s))
    requires var c := CleanedText(dateText);
      Strip(dateText) != [] && !HasWord(c, "ago") && !HasWord(c, "today") && HasWord(c, "yesterday")
    ensures var r := ParseDate(dateText, now, tz, fuzzy);
      && (r.Parsed? <==> Ordinal(now.date) > 1)
      && (!r.Parsed? ==> r == Raises)
      && (r.Parsed? ==> Ordinal(r.dt.date) == Ordinal(now.date) - 1 && r.dt.time == Noon && r.dt.offset == now.offset)
  {
    OneDayBack(now);
  }

  /**
   * A date the fuzzy parser finds keeps its calendar date; a naive one gets the configured
   * zone; its time of day survives only when the date is today, otherwise it becomes noon.
   */
  lemma ParseDateFuzzy(dateText: string, now: DateTime, tz: int, fuzzy: string -> FuzzyResult,
                       d: Date, t: Time, o: Option<int>)
    requires ValidDateTime(now) && forall s :: FuzzyValid(fuzzy(s))
    requires var c := CleanedText(dateText);
      Strip(dateText) != [] && !HasWord(c, "ago") && !HasWord(c, "today") && !HasWord(c, "yesterday")
      && fuzzy(c) == FuzzyParsed(d, t, o)
    ensures var r := ParseDate(dateText, now, tz, fuzzy);
      && r.Parsed? && r.dt.date == d
      && (o.Some? ==> r.dt.offset == o.value) && (o.None? ==> r.dt.offset == tz)
      && (d == now.date ==> r.dt.time == t)
      && (d != now.date ==> r.dt.time == Noon)
  {
  }

  /** A `Name DD, YYYY` match needs a comma. */
  lemma MonthBranchNeedsComma(s: string)
    requires MonthBranch(s).Some?
    ensures !SeparatorFree(s)
  {
    var letters := Run(s, 0, Letter);
    var i := letters + Run(s, letters, Space);
    var digits := Run(s, i, Digit);
    assert IsSeparator(s[i + digits]);
  }

  /**
   * The clean-up turns every comma into a space before `manual_parse` sees the text, so
   * its `Name DD, YYYY` branch never matches text that comes through `parse_date`.
   */
  lemma {:induction false} FallbackNeverReadsMonthNames(dateText: string)
    ensures MonthBranch(Strip(CleanedText(dateText))).None?
  {
    CleanedTextShape(dateText);
    if MonthBranch(Strip(CleanedText(dateText))).Some? {
      MonthBranchNeedsComma(Strip(CleanedText(dateText)));
    }
  }

  /**
   * When the fuzzy parser gives up, only `P1/P2/YYYY` can still produce a date, read
   * month-first and then day-first; every failure of `manual_parse` becomes `None`.
   */
  lemma ParseDateFallback(dateText: string, now: DateTime, tz: int, fuzzy: string -> FuzzyResult)
    requires ValidDateTime(now) && forall s :: FuzzyValid(fuzzy(s))
    requires var c := CleanedText(dateText);
      Strip(dateText) != [] && !HasWord(c, "ago") && !HasWord(c, "today") && !HasWord(c, "yesterday")
      && fuzzy(c) == FuzzyValueError
    ensures var r := ParseDate(dateText, now, tz, fuzzy);
      var c := CleanedText(dateText);
      && r != Raises
      && (SlashBranch(c).None? ==> r == NoDate)
      && (SlashBranch(c).Some? ==>
            var (p1, p2, year) := SlashBranch(c).value;
            && (r.Parsed? <==> ValidDate(Date(year, p1, p2)) || ValidDate(Date(year, p2, p1)))
            && (ValidDate(Date(year, p1, p2)) ==> r == Parsed(AtNoon(Date(year, p1, p2), tz)))
            && (!ValidDate(Date(year, p1, p2)) && r.Parsed? ==> r == Parsed(AtNoon(Date(year, p2, p1), tz))))
  {
    var c := CleanedText(dateText);
    var m := ManualParse(c, tz);
    assert ParseDate(dateText, now, tz, fuzzy) == (if m == Raises then NoDate else m);
    FallbackNeverReadsMonthNames(dateText);
    CleanedTextShape(dateText);
    assert Strip(c) == c;
  }

  /** Any other exception of the fuzzy parser escapes `parse_date`. */
  lemma ParseDateOtherError(dateText: string, now: DateTime, tz: int, fuzzy: string -> FuzzyResult)
    requires ValidDateTime(now) && forall s :: FuzzyValid(fuzzy(s))
    requires var c := CleanedText(dateText);
      Strip(dateText) != [] && !HasWord(c, "ago") && !HasWord(c, "today") && !HasWord(c, "yesterday")
      && fuzzy(c) == FuzzyOtherError
    ensures ParseDate(dateText, now, tz, fuzzy) == Raises
  {
  }

  // ---------------------------------------------------------------- examples

  /** A match of the first pattern decides, whatever else the text holds: "1 day 2 hours ago" is 2 hours. */
  lemma HoursPatternWins(s: string)
    requires Search(s, "hour").Some?
    ensures Decided(s) == Some((Hours, Search(s, "hour").value.1))
  {
    assert Hits(s)[0] == Search(s, RelativePatterns[0].0);
  }

  /** The `P1/P2/YYYY` pattern reads zero-padded fields back. */
  lemma {:induction false} SlashBranchReads(p1: nat, p2: nat, year: nat)
    requires p1 < 100 && p2 < 100 && year < 10000
    ensures SlashBranch(Pad2(p1) + "/" + Pad2(p2) + "/" + Pad4(year)) == Some((p1, p2, year))
    ensures MonthBranch(Pad2(p1) + "/" + Pad2(p2) + "/" + Pad4(year)).None?
    ensures Strip(Pad2(p1) + "/" + Pad2(p2) + "/" + Pad4(year)) == Pad2(p1) + "/" + Pad2(p2) + "/" + Pad4(year)
  {
    var s := Pad2(p1) + "/" + Pad2(p2) + "/" + Pad4(year);
    assert |s| == 10;
    assert Run(s, 0, Letter) == 0 by { assert !IsLetter(s[0]); }
    assert Run(s, 0, Digit) == 2 by { assert IsDigit(s[0]) && IsDigit(s[1]) && !IsDigit(s[2]); }
    assert Run(s, 3, Digit) == 2 by { assert IsDigit(s[3]) && IsDigit(s[4]) && !IsDigit(s[5]); }
    assert Run(s, 6, Digit) == 4 by {
      assert IsDigit(s[6]) && IsDigit(s[7]) && IsDigit(s[8]) && IsDigit(s[9]);
    }
    assert s[2] == '/' && s[5] == '/';
    assert s[0..2] == Pad2(p1) && s[3..5] == Pad2(p2) && s[6..10] == Pad4(year);
    Pad2Value(s, 0, p1);
    Pad2Value(s, 3, p2);
    Pad4Value(s, 6, year);
    assert !IsSpace(s[0]) && !IsSpace(s[9]);
    StripUnchanged(s);
  }

  /** Month-first is tried first. */
  lemma {:induction false} SlashMonthFirst(tz: int)
    ensures ManualParse("03/04/2024", tz) == Parsed(AtNoon(Date(2024, 3, 4), tz))
  {
    assert Pad2(3) + "/" + Pad2(4) + "/" + Pad4(2024) == "03/04/2024";
    SlashBranchReads(3, 4, 2024);
  }

  /** A first field above 12 is no month, so the date is read day-first. */
  lemma {:induction false} SlashDayFirst(tz: int)
    ensures ManualParse("13/09/2024", tz) == Parsed(AtNoon(Date(2024, 9, 13), tz))
  {
    assert Pad2(13) + "/" + Pad2(9) + "/" + Pad4(2024) == "13/09/2024";
    SlashBranchReads(13, 9, 2024);
  }

  /** A date that exists in neither reading raises. */
  lemma {:induction false} SlashNeitherReading(tz: int)
    ensures ManualParse("31/02/2024", tz) == Raises
  {
    assert Pad2(31) + "/" + Pad2(2) + "/" + Pad4(2024) == "31/02/2024";
    SlashBranchReads(31, 2, 2024);
    assert DaysInMonth(2024, 2) == 29;
    assert !ValidDate(Date(2024, 31, 2)) && !ValidDate(Date(2024, 2, 31));
  }
}
