/** ClubElo: a club's Elo rating on a given day, read from the rating history
    the ClubElo API serves as rows (From, To, Elo). */
module ClubElo {
  import opened Py
  import opened PyStr
  import opened PyInt

  // ---------------------------------------------------------------------------
  // Calendar dates and `datetime.strptime(date, '%Y-%m-%d')`
  // ---------------------------------------------------------------------------

  datatype Date = Date(year: int, month: int, day: int)

  /** Dates compare by year, then month, then day. */
  predicate DateLe(a: Date, b: Date) {
    || a.year < b.year
    || (a.year == b.year && a.month < b.month)
    || (a.year == b.year && a.month == b.month && a.day <= b.day)
  }

  predicate IsLeapYear(y: int) {
    y % 4 == 0 && (y % 100 != 0 || y % 400 == 0)
  }

  function DaysInMonth(y: int, m: int): (n: int)
    requires 1 <= m <= 12
    ensures 28 <= n <= 31
  {
    if m == 2 then (if IsLeapYear(y) then 29 else 28)
    else if m == 4 || m == 6 || m == 9 || m == 11 then 30
    else 31
  }

  /** A date `datetime` accepts: years 1 to 9999 of the Gregorian calendar. */
  predicate ValidDate(d: Date) {
    && 1 <= d.year <= 9999
    && 1 <= d.month <= 12
    && 1 <= d.day <= DaysInMonth(d.year, d.month)
  }

  /** A matched directive: the number it denotes and how many characters it took. */
  datatype Field = Field(value: int, width: nat)

  predicate IsNonZeroDigit(c: char) {
    '1' <= c <= '9'
  }

  /** One or two digits that denote `v`. */
  predicate NumberText(t: string, v: int) {
    1 <= |t| <= 2 && AllDigits(t) && DigitsValue(t) == v
  }

  /** What `%d` may consume for the day `v`: one or two digits, or a space and a digit. */
  predicate DayText(t: string, v: int) {
    || NumberText(t, v)
    || (|t| == 2 && t[0] == ' ' && IsDigit(t[1]) && DigitValue(t[1]) == v)
  }

  /** `s` spells `d` as four year digits, a dash, a month of `w` digits, a dash
      and a day, with nothing after it. */
  predicate SpelledWith(s: string, d: Date, w: int) {
    && 1 <= w <= 2 && |s| >= 7 + w
    && AllDigits(s[..4]) && DigitsValue(s[..4]) == d.year
    && s[4] == '-'
    && NumberText(s[5..5 + w], d.month)
    && s[5 + w] == '-'
    && DayText(s[6 + w..], d.day)
  }

  /** The texts `%Y-%m-%d` matches for the date `d`. */
  predicate Spells(s: string, d: Date) {
    SpelledWith(s, d, 1) || SpelledWith(s, d, 2)
  }

  /** `%m` is `1[0-2]|0[1-9]|[1-9]` and must be followed by the `-` of the
      format: the first alternative for which the `-` also matches wins. */
  function MonthField(r: string): (f: Option<Field>)
    ensures f.Some? ==> 1 <= f.value.value <= 12 && 1 <= f.value.width <= 2
    ensures f.Some? ==> f.value.width < |r| && r[f.value.width] == '-'
    ensures f.Some? ==> NumberText(r[..f.value.width], f.value.value)
  {
    if |r| >= 3 && r[0] == '1' && '0' <= r[1] <= '2' && r[2] == '-' then
      DigitsValueTwo(r[..2]);
      Some(Field(10 + DigitValue(r[1]), 2))
    else if |r| >= 3 && r[0] == '0' && IsNonZeroDigit(r[1]) && r[2] == '-' then
      DigitsValueTwo(r[..2]);
      Some(Field(DigitValue(r[1]), 2))
    else if |r| >= 2 && IsNonZeroDigit(r[0]) && r[1] == '-' then
      DigitsValueOne(r[..1]);
      Some(Field(DigitValue(r[0]), 1))
    else
      None
  }

  /** `%d` is `3[01]|[12]\d|0[1-9]|[1-9]| [1-9]`; it ends the format, so the
      first alternative that matches a prefix wins. */
  function DayField(r: string): (f: Option<Field>)
    ensures f.Some? ==> 1 <= f.value.value <= 31 && 1 <= f.value.width <= 2 && f.value.width <= |r|
    ensures f.Some? ==> DayText(r[..f.value.width], f.value.value)
  {
    if |r| >= 2 && r[0] == '3' && '0' <= r[1] <= '1' then
      DigitsValueTwo(r[..2]);
      Some(Field(30 + DigitValue(r[1]), 2))
    else if |r| >= 2 && '1' <= r[0] <= '2' && IsDigit(r[1]) then
      DigitsValueTwo(r[..2]);
      Some(Field(10 * DigitValue(r[0]) + DigitValue(r[1]), 2))
    else if |r| >= 2 && r[0] == '0' && IsNonZeroDigit(r[1]) then
      DigitsValueTwo(r[..2]);
      Some(Field(DigitValue(r[1]), 2))
    else if |r| >= 1 && IsNonZeroDigit(r[0]) then
      DigitsValueOne(r[..1]);
      Some(Field(DigitValue(r[0]), 1))
    else if |r| >= 2 && r[0] == ' ' && IsNonZeroDigit(r[1]) then
      Some(Field(DigitValue(r[1]), 2))
    else
      None
  }

  /** `%Y` is exactly four digits. */
  function YearValue(s: string): (y: int)
    requires |s| >= 4 && IsDigit(s[0]) && IsDigit(s[1]) && IsDigit(s[2]) && IsDigit(s[3])
    ensures 0 <= y <= 9999
    ensures AllDigits(s[..4]) && y == DigitsValue(s[..4])
  {
    DigitsValueFour(s[..4]);
    1000 * DigitValue(s[0]) + 100 * DigitValue(s[1]) + 10 * DigitValue(s[2]) + DigitValue(s[3])
  }

  /** `datetime.strptime(s, '%Y-%m-%d')`: the pattern must match from the start,
      nothing may remain after it, and the day must exist in the calendar;
      every failure is a ValueError. */
  function ParseDate(s: string): (r: Result<Date>)
    ensures r.Ok? ==> ValidDate(r.value)
    ensures r.Err? ==> r.error == ValueError
  {
    if !(|s| >= 5 && IsDigit(s[0]) && IsDigit(s[1]) && IsDigit(s[2]) && IsDigit(s[3]) && s[4] == '-') then
      Err(ValueError)
    else
      var year := YearValue(s);
      var rest := s[5..];
      match MonthField(rest)
      case None => Err(ValueError)
      case Some(m) =>
        var dayText := rest[m.width + 1..];
        match DayField(dayText)
        case None => Err(ValueError)
        case Some(d) =>
          if d.width != |dayText| then Err(ValueError)
          else
            var date := Date(year, m.value, d.value);
            if ValidDate(date) then Ok(date) else Err(ValueError)
  }

  /** The canonical `YYYY-MM-DD` spelling of a date. */
  function FormatDate(d: Date): (s: string)
    requires ValidDate(d)
    ensures |s| == 10 && s[4] == '-' && s[7] == '-'
  {
    [DigitChar(d.year / 10 / 10 / 10), DigitChar(d.year / 10 / 10 % 10), DigitChar(d.year / 10 % 10),
     DigitChar(d.year % 10), '-', DigitChar(d.month / 10), DigitChar(d.month % 10), '-',
     DigitChar(d.day / 10), DigitChar(d.day % 10)]
  }

  /** Every valid date written as `YYYY-MM-DD` parses back to itself. */
  lemma ParseFormatDate(d: Date)
    requires ValidDate(d)
    ensures ParseDate(FormatDate(d)) == Ok(d)
  {
    var s := FormatDate(d);
    YearOfFormat(d, s);
    var rest := s[5..];
    MonthOfFormat(d, rest);
    assert rest[3..] == s[8..];
    DayOfFormat(d, s[8..]);
  }

  lemma YearOfFormat(d: Date, s: string)
    requires ValidDate(d) && s == FormatDate(d)
    ensures IsDigit(s[0]) && IsDigit(s[1]) && IsDigit(s[2]) && IsDigit(s[3])
    ensures YearValue(s) == d.year
  {
    var y := d.year;
    var q1, q2 := y / 10, y / 10 / 10;
    assert y == 10 * q1 + y % 10;
    assert q1 == 10 * q2 + q1 % 10;
    assert q2 == 10 * (q2 / 10) + q2 % 10;
    assert q2 / 10 < 10;
  }

  lemma MonthOfFormat(d: Date, rest: string)
    requires ValidDate(d)
    requires rest == [DigitChar(d.month / 10), DigitChar(d.month % 10), '-',
                      DigitChar(d.day / 10), DigitChar(d.day % 10)]
    ensures MonthField(rest) == Some(Field(d.month, 2))
  {
  }

  lemma DayOfFormat(d: Date, t: string)
    requires ValidDate(d)
    requires t == [DigitChar(d.day / 10), DigitChar(d.day % 10)]
    ensures DayField(t) == Some(Field(d.day, 2))
  {
  }

  /** Every text `strptime` accepts spells the date it returns. */
  lemma ParseDateSpelled(s: string)
    requires ParseDate(s).Ok?
    ensures Spells(s, ParseDate(s).value)
  {
    var d := ParseDate(s).value;
    var rest := s[5..];
    var m := MonthField(rest).value;
    var dayText := rest[m.width + 1..];
    assert s[5..5 + m.width] == rest[..m.width];
    assert s[6 + m.width..] == dayText;
    assert dayText[..DayField(dayText).value.width] == dayText;
    assert SpelledWith(s, d, m.width);
  }

  /** Every spelling of a valid date is accepted and gives that date back. */
  lemma ParseDateAccepts(s: string, d: Date)
    requires ValidDate(d) && Spells(s, d)
    ensures ParseDate(s) == Ok(d)
  {
    var w := if SpelledWith(s, d, 1) then 1 else 2;
    assert SpelledWith(s, d, w);
    DigitsValueFour(s[..4]);
    var rest := s[5..];
    assert rest[..w] == s[5..5 + w];
    MonthFieldOf(rest, w, d.month);
    assert rest[w + 1..] == s[6 + w..];
    DayFieldOf(s[6 + w..], d.day);
  }

  /** Exactly the spellings of valid dates parse: `ParseDate(s) == Ok(d)` if and
      only if `d` is a valid date and `s` spells it; every other text is a ValueError. */
  lemma ParseDateExactly(s: string, d: Date)
    ensures ParseDate(s) == Ok(d) <==> ValidDate(d) && Spells(s, d)
  {
    if ParseDate(s) == Ok(d) {
      ParseDateSpelled(s);
    }
    if ValidDate(d) && Spells(s, d) {
      ParseDateAccepts(s, d);
    }
  }

  lemma MonthFieldOf(r: string, w: int, month: int)
    requires 1 <= w <= 2 && |r| > w && r[w] == '-'
    requires NumberText(r[..w], month) && 1 <= month <= 12
    ensures MonthField(r) == Some(Field(month, w))
  {
    if w == 1 {
      DigitsValueOne(r[..1]);
    } else {
      DigitsValueTwo(r[..2]);
    }
  }

  lemma DayFieldOf(t: string, day: int)
    requires DayText(t, day) && 1 <= day <= 31
    ensures DayField(t) == Some(Field(day, |t|))
  {
    if |t| == 1 {
      DigitsValueOne(t);
    } else if t[0] != ' ' {
      DigitsValueTwo(t);
    }
  }

  /** The short forms the pattern also admits: `2024-3-7` is the 7th of March. */
  lemma ParseShortDate()
    ensures ParseDate("2024-3-7") == Ok(Date(2024, 3, 7))
  {
  }

  /** A day may also be written as a space and one digit. */
  lemma ParseSpacedDay()
    ensures ParseDate("2024-03- 7") == Ok(Date(2024, 3, 7))
  {
  }

  /** Trailing text and a missing dash are rejected. */
  lemma ParseDateRejects()
    ensures ParseDate("2024-03-071") == Err(ValueError)
    ensures ParseDate("20240307") == Err(ValueError)
  {
  }

  /** A day the calendar lacks and the year 0 are rejected. */
  lemma ParseDateRejectsImpossible()
    ensures ParseDate("2023-02-29") == Err(ValueError)
    ensures ParseDate("0000-01-01") == Err(ValueError)
  {
  }

  // ---------------------------------------------------------------------------
  // The rating table and the lookup
  // ---------------------------------------------------------------------------

  /** One row of the ClubElo history: the rating held from `from` to `to`. */
  datatype EloRow = EloRow(from: Date, to: Date, elo: real)

  /** The row's interval contains the date, both ends included. */
  predicate Covers(row: EloRow, d: Date) {
    DateLe(row.from, d) && DateLe(d, row.to)
  }

  const ApiRoot := "http://api.clubelo.com/"

  /** The ClubElo API address of a team. */
  function ApiUrl(team: string): (url: string)
    ensures |url| == |ApiRoot| + |team| && url[..|ApiRoot|] == ApiRoot && url[|ApiRoot|..] == team
  {
    ApiRoot + team
  }

  /** The row filter `(date >= df["From"]) & (date <= df["To"])`. */
  function CoversOn(d: Date): EloRow -> bool {
    row => Covers(row, d)
  }

  /** `df.loc[...]` with that filter, then the first Elo or -1 when no row is left. */
  function EloOnDate(rows: seq<EloRow>, d: Date): real {
    var hits := Filter(rows, CoversOn(d));
    if |hits| == 0 then -1.0 else hits[0].elo
  }

  /** The rating is the Elo of the first row, in table order, that covers the date. */
  lemma EloOnDateFirst(rows: seq<EloRow>, d: Date, i: nat)
    requires i < |rows| && Covers(rows[i], d)
    requires forall j :: 0 <= j < i ==> !Covers(rows[j], d)
    ensures EloOnDate(rows, d) == rows[i].elo
  {
    FilterFirst(rows, CoversOn(d), i);
  }

  /** With no covering row the result is the sentinel -1. */
  lemma EloOnDateNone(rows: seq<EloRow>, d: Date)
    requires forall j :: 0 <= j < |rows| ==> !Covers(rows[j], d)
    ensures EloOnDate(rows, d) == -1.0
  {
    FilterNone(rows, CoversOn(d));
  }

  /** `scrape_team_on_date(team, date)`, with the CSV the API serves for a
      URL given as `history`: both arguments must be strings, an empty table
      means an unknown team (checked before the date is parsed), and a date
      `strptime` rejects raises ValueError. */
  function ScrapeTeamOnDate(team: Arg, date: Arg, history: string -> seq<EloRow>): (r: Result<real>)
    ensures team.NotStr? ==> r == Err(TypeError)
    ensures team.Str? && date.NotStr? ==> r == Err(TypeError)
    ensures team.Str? && date.Str? && |history(ApiUrl(team.s))| == 0 ==>
      r == Err(ClubEloInvalidTeam(team.s))
    ensures team.Str? && date.Str? && |history(ApiUrl(team.s))| > 0 ==>
      match ParseDate(date.s)
      case Err(e) => r == Err(e)
      case Ok(d) => r == Ok(EloOnDate(history(ApiUrl(team.s)), d))
  {
    if team.NotStr? then Err(TypeError)
    else if date.NotStr? then Err(TypeError)
    else
      var rows := history(ApiUrl(team.s));
      if |rows| == 0 then Err(ClubEloInvalidTeam(team.s))
      else
        var d :- ParseDate(date.s);
        Ok(EloOnDate(rows, d))
  }
}
