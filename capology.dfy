/** Capology: league and season addresses, the currency check, and the
    column layout given to the salary table a season page shows. */
module Capology {
  import opened Py
  import opened PyStr

  /** League name to the league's path on the site. */
  const Comps: map<string, string> := map[
    "Bundesliga" := "de/1-bundesliga",
    "2.Bundesliga" := "de/2-bundesliga",
    "EPL" := "uk/premier-league",
    "EFL Championship" := "uk/championship",
    "Serie A" := "it/serie-a",
    "Serie B" := "it/serie-b",
    "La Liga" := "es/la-liga",
    "La Liga 2" := "es/la-liga-2",
    "Ligue 1" := "fr/ligue-1",
    "Ligue 2" := "fr/ligue-2",
    "Eredivisie" := "ne/eredivisie",
    "Primeira Liga" := "pt/primeira-liga",
    "Scottish PL" := "uk/scottish-premiership",
    "Super Lig" := "tr/super-lig",
    "Belgian 1st Division" := "be/first-division-a"
  ]

  const LeaguePrefix := "https://www.capology.com/"
  const LeagueSuffix := "/salaries/"
  const SeasonPrefix := "https://capology.com"

  // ---------------------------------------------------------------------------
  // What the site serves
  // ---------------------------------------------------------------------------

  /** An `<option>` of the season menu: its text and its `value` attribute. */
  datatype YearOption = YearOption(text: string, value: Option<string>)

  /** A table as `pd.read_html` returns it: columns labelled 0 to width - 1,
      every row as wide as the table. */
  datatype RawTable = RawTable(width: nat, rows: seq<seq<string>>)

  type Table = t: RawTable | forall i :: 0 <= i < |t.rows| ==> |t.rows[i]| == t.width
    witness RawTable(0, [])

  /** For a page address, the options of its `nav-submenu2` menu (`None`: no
      such menu) as the first request for it sees them, and as a second request
      sees them, which the site may answer differently; for a season page and a
      currency, the salary table shown once that currency is selected. */
  datatype Site = Site(
    yearOptions: string -> Option<seq<YearOption>>,
    reloadedYearOptions: string -> Option<seq<YearOption>>,
    salaryTable: (string, string) -> Table)

  // ---------------------------------------------------------------------------
  // get_league_url, get_valid_seasons, get_season_url
  // ---------------------------------------------------------------------------

  /** `get_league_url(league)`. */
  function GetLeagueUrl(league: Arg): (r: Result<string>)
    ensures league.NotStr? ==> r == Err(TypeError)
    ensures league.Str? && league.s !in Comps ==> r == Err(InvalidLeague(league.s, "Capology"))
    ensures league.Str? && league.s in Comps ==> r.Ok?
    ensures r.Ok? ==> league.Str? && league.s in Comps && LeaguePath(r.value) == Comps[league.s]
    ensures r.Ok? ==> && StartsWith(r.value, LeaguePrefix)
                      && |r.value| == |LeaguePrefix| + |Comps[league.s]| + |LeagueSuffix|
                      && r.value[|r.value| - |LeagueSuffix|..] == LeagueSuffix
  {
    if league.NotStr? then Err(TypeError)
    else if league.s !in Comps then Err(InvalidLeague(league.s, "Capology"))
    else
      var url := LeaguePrefix + Comps[league.s] + LeagueSuffix;
      assert url[|LeaguePrefix|..|url| - |LeagueSuffix|] == Comps[league.s];
      assert url[|url| - |LeagueSuffix|..] == LeagueSuffix;
      Ok(url)
  }

  /** The league path inside a league address. */
  function LeaguePath(url: string): string {
    if |url| >= |LeaguePrefix| + |LeagueSuffix| then url[|LeaguePrefix|..|url| - |LeagueSuffix|] else url
  }

  predicate HasValue(option: YearOption) {
    option.value.Some?
  }

  /** `find_all('option', value=True)`: the options that carry a value. */
  function ValuedOptions(options: seq<YearOption>): (r: seq<YearOption>)
    ensures forall i :: 0 <= i < |r| ==> r[i].value.Some?
    ensures forall x :: x in r <==> x in options && x.value.Some?
    ensures (forall i :: 0 <= i < |options| ==> options[i].value.Some?) ==> r == options
  {
    if forall i :: 0 <= i < |options| ==> options[i].value.Some? then
      FilterAll(options, HasValue);
      Filter(options, HasValue)
    else
      Filter(options, HasValue)
  }

  /** `[x.text for x in options]`. */
  function Texts(options: seq<YearOption>): (r: seq<string>)
    ensures |r| == |options|
    ensures forall i :: 0 <= i < |options| ==> r[i] == options[i].text
  {
    seq(|options|, i requires 0 <= i < |options| => options[i].text)
  }

  /** The season menu of a league's page, as the first request sees it. */
  function LeagueMenu(league: string, site: Site): Option<seq<YearOption>>
    requires league in Comps
  {
    site.yearOptions(LeaguePrefix + Comps[league] + LeagueSuffix)
  }

  /** `get_valid_seasons(league)`: the texts of the season options that carry
      a value. */
  function GetValidSeasons(league: Arg, site: Site): (r: Result<seq<string>>)
    ensures league.NotStr? ==> r == Err(TypeError)
    ensures league.Str? && league.s !in Comps ==> r == Err(InvalidLeague(league.s, "Capology"))
    ensures r.Ok? ==> league.Str? && league.s in Comps
    ensures league.Str? && league.s in Comps && LeagueMenu(league.s, site).None? ==> r == Err(AttributeError)
    ensures league.Str? && league.s in Comps && LeagueMenu(league.s, site).Some? ==>
      r == Ok(Texts(ValuedOptions(LeagueMenu(league.s, site).value)))
  {
    if league.NotStr? then Err(TypeError)
    else if league.s !in Comps then Err(InvalidLeague(league.s, "Capology"))
    else
      var url := GetLeagueUrl(league).value;
      match site.yearOptions(url)
      case None => Err(AttributeError)
      case Some(options) => Ok(Texts(ValuedOptions(options)))
  }

  function HasText(year: string): YearOption -> bool {
    (option: YearOption) => option.text == year
  }

  /** `get_season_url(year, league)`: a year among the valid seasons gives the
      site address followed by the value of the first valued option with that
      text on the league page, which is requested a second time; any other
      year raises InvalidYear. The second answer may lack the menu
      (AttributeError) or the year (IndexError). */
  function GetSeasonUrl(year: Arg, league: Arg, site: Site): (r: Result<string>)
    ensures year.NotStr? ==> r == Err(TypeError)
    ensures year.Str? && GetValidSeasons(league, site).Err? ==> r == Err(GetValidSeasons(league, site).error)
    ensures year.Str? && GetValidSeasons(league, site).Ok? && year.s !in GetValidSeasons(league, site).value ==>
      r == Err(InvalidYear(year.s, league.s))
    ensures year.Str? && GetValidSeasons(league, site).Ok? && year.s in GetValidSeasons(league, site).value ==>
      match ReloadedMenu(league.s, site)
      case None => r == Err(AttributeError)
      case Some(options) => (r == Err(IndexError) <==> year.s !in Texts(ValuedOptions(options)))
    ensures r.Ok? ==> StartsWith(r.value, SeasonPrefix)
  {
    if year.NotStr? then Err(TypeError)
    else
      var seasons :- GetValidSeasons(league, site);
      if year.s !in seasons then Err(InvalidYear(year.s, league.s))
      else
        match ReloadedMenu(league.s, site)
        case None => Err(AttributeError)
        case Some(options) =>
          var valued := ValuedOptions(options);
          var hits := Filter(valued, HasText(year.s));
          SeasonListed(valued, year.s);
          if |hits| == 0 then Err(IndexError)
          else Ok(SeasonPrefix + hits[0].value.value)
  }

  /** The season menu of a league's page, as the second request sees it. */
  function ReloadedMenu(league: string, site: Site): Option<seq<YearOption>>
    requires league in Comps
  {
    site.reloadedYearOptions(LeaguePrefix + Comps[league] + LeagueSuffix)
  }

  /** A year is among the option texts exactly when some option carries it. */
  lemma SeasonListed(valued: seq<YearOption>, year: string)
    ensures |Filter(valued, HasText(year))| > 0 <==> year in Texts(valued)
  {
    var texts := Texts(valued);
    if year in texts {
      var i :| 0 <= i < |texts| && texts[i] == year;
      assert HasText(year)(valued[i]);
    }
    if |Filter(valued, HasText(year))| > 0 {
      var hit := Filter(valued, HasText(year))[0];
      var i :| 0 <= i < |valued| && valued[i] == hit;
      assert texts[i] == year;
    }
  }

  /** A season is valid exactly when the menu has an option with that text and a value. */
  lemma ValidSeasonMember(league: string, site: Site, year: string)
    requires league in Comps && LeagueMenu(league, site).Some?
    ensures GetValidSeasons(Str(league), site).Ok?
    ensures year in GetValidSeasons(Str(league), site).value <==>
      exists option :: option in LeagueMenu(league, site).value && option.value.Some? && option.text == year
  {
    var options := LeagueMenu(league, site).value;
    var valued := ValuedOptions(options);
    var texts := Texts(valued);
    if year in texts {
      var i :| 0 <= i < |texts| && texts[i] == year;
      assert valued[i] in valued;
    }
    if exists option :: option in options && option.value.Some? && option.text == year {
      var option :| option in options && option.value.Some? && option.text == year;
      assert option in valued;
      var i :| 0 <= i < |valued| && valued[i] == option;
      assert texts[i] == year;
    }
  }

  /** When both requests see the same menu, a valid season always has an
      address: neither the AttributeError nor the IndexError can occur. */
  lemma SeasonUrlStable(year: string, league: string, site: Site)
    requires league in Comps && ReloadedMenu(league, site) == LeagueMenu(league, site)
    requires GetValidSeasons(Str(league), site).Ok? && year in GetValidSeasons(Str(league), site).value
    ensures GetSeasonUrl(Str(year), Str(league), site).Ok?
  {
    SeasonListed(ValuedOptions(LeagueMenu(league, site).value), year);
  }

  /** The season address carries the value of the first valued option, on the
      second answer, whose text is the year. */
  lemma SeasonUrlFirst(year: string, league: string, site: Site, i: nat)
    requires league in Comps
    requires GetValidSeasons(Str(league), site).Ok? && year in GetValidSeasons(Str(league), site).value
    requires var options := ReloadedMenu(league, site);
      && options.Some?
      && i < |ValuedOptions(options.value)|
      && ValuedOptions(options.value)[i].text == year
      && forall j :: 0 <= j < i ==> ValuedOptions(options.value)[j].text != year
    ensures GetSeasonUrl(Str(year), Str(league), site) ==
      Ok(SeasonPrefix + ValuedOptions(ReloadedMenu(league, site).value)[i].value.value)
  {
    var valued := ValuedOptions(ReloadedMenu(league, site).value);
    assert Texts(valued)[i] == year;
    FilterFirst(valued, HasText(year), i);
  }

  // ---------------------------------------------------------------------------
  // The salary table's layout
  // ---------------------------------------------------------------------------

  const Names12 := ["Player", "Weekly Gross", "Annual Gross", "Expiration", "Length", "Total Gross",
                    "Status", "Pos. group", "Pos.", "Age", "Country", "Club"]
  const Names15 := ["Player", "Weekly Gross", "Annual Gross", "Annual Bonus", "Signed",
                    "Expiration", "Years Remaining", "Gross Remaining", "Release Clause", "Status",
                    "Pos. group", "Pos.", "Age", "Country", "Club"]
  const Names8 := ["Player", "Weekly Gross", "Annual Gross", "Adj. Gross", "Pos. group", "Age",
                   "Country", "Club"]

  /** A labelled frame: column names and rows. */
  datatype Frame = Frame(columns: seq<string>, rows: seq<seq<string>>)

  /** Every row has one cell per column name. */
  predicate WellLabelled(f: Frame) {
    forall i :: 0 <= i < |f.rows| ==> |f.rows[i]| == |f.columns|
  }

  /** `df.drop(columns=[1])` on a 13-wide row. */
  function DropSecond(row: seq<string>): (r: seq<string>)
    requires |row| == 13
    ensures |r| == 12
    ensures forall j :: 0 <= j < 12 ==> r[j] == row[if j < 1 then j else j + 1]
  {
    row[..1] + row[2..]
  }

  /** `df.drop(columns=[1, 16])` on a 17-wide row. */
  function DropSecondAndLast(row: seq<string>): (r: seq<string>)
    requires |row| == 17
    ensures |r| == 15
    ensures forall j :: 0 <= j < 15 ==> r[j] == row[if j < 1 then j else j + 1]
  {
    row[..1] + row[2..16]
  }

  /** The layout by width: 13 columns lose column 1 and take 12 names, 17 lose
      columns 1 and 16 and take 15, any other width takes the 8 names, which
      pandas refuses (ValueError) unless the table is 8 wide. */
  function LabelSalaryTable(t: Table): (r: Result<Frame>)
    ensures r.Ok? ==> WellLabelled(r.value) && |r.value.rows| == |t.rows|
    ensures r.Err? <==> t.width != 13 && t.width != 17 && t.width != 8
    ensures r.Err? ==> r.error == ValueError
    ensures t.width == 13 ==> r.Ok? && r.value.columns == Names12
    ensures t.width == 17 ==> r.Ok? && r.value.columns == Names15
    ensures t.width == 8 ==> r == Ok(Frame(Names8, t.rows))
    ensures r.Ok? ==> forall i, j :: 0 <= i < |t.rows| && 0 <= j < |r.value.columns| ==>
      r.value.rows[i][j] == t.rows[i][if t.width == 8 || j < 1 then j else j + 1]
  {
    if t.width == 13 then
      Ok(Frame(Names12, seq(|t.rows|, i requires 0 <= i < |t.rows| => DropSecond(t.rows[i]))))
    else if t.width == 17 then
      Ok(Frame(Names15, seq(|t.rows|, i requires 0 <= i < |t.rows| => DropSecondAndLast(t.rows[i]))))
    else if t.width != |Names8| then
      Err(ValueError)
    else
      Ok(Frame(Names8, t.rows))
  }

  /** The salaries `scrape_salaries` returns, when the season page loads: the
      currency is checked first, then the season address is looked up and the
      table shown in that currency is labelled. */
  function Salaries(year: Arg, league: Arg, currency: Arg, currencies: seq<string>, site: Site): (r: Result<Frame>)
    ensures currency.NotStr? ==> r == Err(TypeError)
    ensures currency.Str? && currency.s !in currencies ==> r == Err(InvalidCurrency)
    ensures r.Ok? ==> WellLabelled(r.value)
    ensures CurrencyAccepted(currency, currencies) && GetSeasonUrl(year, league, site).Err? ==>
      r == Err(GetSeasonUrl(year, league, site).error)
    ensures CurrencyAccepted(currency, currencies) && GetSeasonUrl(year, league, site).Ok? ==>
      r == LabelSalaryTable(site.salaryTable(GetSeasonUrl(year, league, site).value, currency.s))
  {
    if currency.NotStr? then Err(TypeError)
    else if currency.s !in currencies then Err(InvalidCurrency)
    else
      var url :- GetSeasonUrl(year, league, site);
      LabelSalaryTable(site.salaryTable(url, currency.s))
  }

  /** Whether `scrape_salaries` gets past its currency checks. */
  predicate CurrencyAccepted(currency: Arg, currencies: seq<string>) {
    currency.Str? && currency.s in currencies
  }

  // ---------------------------------------------------------------------------
  // The scraper object
  // ---------------------------------------------------------------------------

  /** The scraper: its accepted currencies and its browser driver, which
      `scrape_salaries` starts and always closes again. The counters record
      how many drivers were started and closed. */
  class Scraper {
    var validCurrencies: seq<string>
    var driverOpen: bool
    var driversStarted: nat
    var driversClosed: nat

    constructor ()
      ensures validCurrencies == ["eur", "gbp", "usd"]
      ensures !driverOpen && driversStarted == 0 && driversClosed == 0
    {
      validCurrencies := ["eur", "gbp", "usd"];
      driverOpen := false;
      driversStarted := 0;
      driversClosed := 0;
    }

    /** `_webdriver_init`: a new driver. */
    method WebdriverInit()
      modifies this
      ensures driverOpen
      ensures driversStarted == old(driversStarted) + 1
      ensures validCurrencies == old(validCurrencies) && driversClosed == old(driversClosed)
    {
      driverOpen := true;
      driversStarted := driversStarted + 1;
    }

    /** `_webdriver_close`: close and quit the driver. */
    method WebdriverClose()
      modifies this
      ensures !driverOpen
      ensures driversClosed == old(driversClosed) + 1
      ensures validCurrencies == old(validCurrencies) && driversStarted == old(driversStarted)
    {
      driverOpen := false;
      driversClosed := driversClosed + 1;
    }

    /** `scrape_salaries(year, league, currency)`: a rejected currency raises
      before any driver starts; otherwise one driver is started and, whatever
      happens next, closed again. */
    method ScrapeSalaries(year: Arg, league: Arg, currency: Arg, site: Site) returns (r: Result<Frame>)
      modifies this
      ensures r == Salaries(year, league, currency, old(validCurrencies), site)
      ensures validCurrencies == old(validCurrencies)
      ensures !CurrencyAccepted(currency, validCurrencies) ==>
        driversStarted == old(driversStarted) && driversClosed == old(driversClosed) && driverOpen == old(driverOpen)
      ensures CurrencyAccepted(currency, validCurrencies) ==>
        !driverOpen && driversStarted == old(driversStarted) + 1 && driversClosed == old(driversClosed) + 1
    {
      if currency.NotStr? {
        return Err(TypeError);
      }
      if currency.s !in validCurrencies {
        return Err(InvalidCurrency);
      }
      WebdriverInit();
      var url := GetSeasonUrl(year, league, site);
      if url.Err? {
        WebdriverClose();
        return Err(url.error);
      }
      var df := site.salaryTable(url.value, currency.s);
      r := LabelSalaryTable(df);
      WebdriverClose();
    }
  }
}
