/** Transfermarkt: league season lists, club and player links, and the fields
    of a player profile, each read off the text the HTML parser extracts. */
module Transfermarkt {
  import opened Py
  import opened PyStr
  import opened PyInt

  const Root := "https://www.transfermarkt.us"

  /** League name to the league's start page. */
  const Comps: map<string, string> := map[
    "EPL" := "https://www.transfermarkt.us/premier-league/startseite/wettbewerb/GB1",
    "EFL Championship" := "https://www.transfermarkt.us/championship/startseite/wettbewerb/GB2",
    "EFL1" := "https://www.transfermarkt.us/league-one/startseite/wettbewerb/GB3",
    "EFL2" := "https://www.transfermarkt.us/league-two/startseite/wettbewerb/GB4",
    "Bundesliga" := "https://www.transfermarkt.us/bundesliga/startseite/wettbewerb/L1",
    "2.Bundesliga" := "https://www.transfermarkt.us/2-bundesliga/startseite/wettbewerb/L2",
    "Serie A" := "https://www.transfermarkt.us/serie-a/startseite/wettbewerb/IT1",
    "Serie B" := "https://www.transfermarkt.us/serie-b/startseite/wettbewerb/IT2",
    "La Liga" := "https://www.transfermarkt.us/laliga/startseite/wettbewerb/ES1",
    "La Liga 2" := "https://www.transfermarkt.us/laliga2/startseite/wettbewerb/ES2",
    "Ligue 1" := "https://www.transfermarkt.us/ligue-1/startseite/wettbewerb/FR1",
    "Ligue 2" := "https://www.transfermarkt.us/ligue-2/startseite/wettbewerb/FR2",
    "Eredivisie" := "https://www.transfermarkt.us/eredivisie/startseite/wettbewerb/NL1",
    "Scottish PL" := "https://www.transfermarkt.us/scottish-premiership/startseite/wettbewerb/SC1",
    "Super Lig" := "https://www.transfermarkt.us/super-lig/startseite/wettbewerb/TR1",
    "Jupiler Pro League" := "https://www.transfermarkt.us/jupiler-pro-league/startseite/wettbewerb/BE1",
    "Liga Nos" := "https://www.transfermarkt.us/liga-nos/startseite/wettbewerb/PO1",
    "Russian Premier League" := "https://www.transfermarkt.us/premier-liga/startseite/wettbewerb/RU1",
    "Brasileirao" := "https://www.transfermarkt.us/campeonato-brasileiro-serie-a/startseite/wettbewerb/BRA1",
    "Argentina Liga Profesional" := "https://www.transfermarkt.us/superliga/startseite/wettbewerb/AR1N",
    "MLS" := "https://www.transfermarkt.us/major-league-soccer/startseite/wettbewerb/MLS1"
  ]

  // ---------------------------------------------------------------------------
  // What the parser extracts from the pages
  // ---------------------------------------------------------------------------

  /** An `<option>` of the season drop-down: its text and its `value` attribute. */
  datatype SeasonOption = SeasonOption(text: string, value: Option<string>)

  /** A table cell that should hold a link: no `<a>` in it, or an `<a>` with or
      without an `href`. */
  datatype LinkCell = NoAnchor | Anchor(href: Option<string>)

  /** The site as the scrapers see it, one function per page shape: for a page
      address, the season options of its `saison_id` drop-down, or the link
      cells of its `items` table. `None` stands for a page without that element. */
  datatype Site = Site(
    seasonOptions: string -> Option<seq<SeasonOption>>,
    clubCells: string -> Option<seq<LinkCell>>,
    playerCells: string -> Option<seq<LinkCell>>)

  // ---------------------------------------------------------------------------
  // get_valid_seasons and get_club_links
  // ---------------------------------------------------------------------------

  /** `dict([(x.text, x['value']) for x in options])`: an option without a value
      raises KeyError, and a later option overrides an earlier one of the same text. */
  function SeasonMap(options: seq<SeasonOption>): (r: Result<map<string, string>>)
    ensures r.Ok? <==> ValuesPresent(options)
    ensures r.Err? ==> r.error == KeyError
    ensures r.Ok? ==> KeysAreTexts(options, r.value) && LastOptionWins(options, r.value)
  {
    if options == [] then Ok(map[])
    else
      var front := options[..|options| - 1];
      var last := options[|options| - 1];
      match SeasonMap(front)
      case Err(e) =>
        SeasonMapFrontFails(options);
        Err(e)
      case Ok(seasons) =>
        if last.value.None? then Err(KeyError)
        else
          SeasonMapSnoc(options, seasons);
          Ok(seasons[last.text := last.value.value])
  }

  /** Every option carries a value. */
  predicate ValuesPresent(options: seq<SeasonOption>) {
    forall i :: 0 <= i < |options| ==> options[i].value.Some?
  }

  /** The keys are exactly the option texts. */
  ghost predicate KeysAreTexts(options: seq<SeasonOption>, seasons: map<string, string>) {
    forall t :: t in seasons <==> exists i :: 0 <= i < |options| && options[i].text == t
  }

  /** A text maps to the value of its last option. */
  ghost predicate LastOptionWins(options: seq<SeasonOption>, seasons: map<string, string>)
    requires KeysAreTexts(options, seasons) && ValuesPresent(options)
  {
    forall i :: 0 <= i < |options| ==>
      ((forall j :: i < j < |options| ==> options[j].text != options[i].text) ==>
         seasons[options[i].text] == options[i].value.value)
  }

  lemma SeasonMapFrontFails(options: seq<SeasonOption>)
    requires options != [] && !ValuesPresent(options[..|options| - 1])
    ensures !ValuesPresent(options)
  {
    var i :| 0 <= i < |options| - 1 && options[..|options| - 1][i].value.None?;
    assert options[i].value.None?;
  }

  /** Adding the last option's pair to the map of the options before it. */
  lemma SeasonMapSnoc(options: seq<SeasonOption>, seasons: map<string, string>)
    requires options != [] && options[|options| - 1].value.Some?
    requires var front := options[..|options| - 1];
      ValuesPresent(front) && KeysAreTexts(front, seasons) && LastOptionWins(front, seasons)
    ensures var last := options[|options| - 1];
      var m := seasons[last.text := last.value.value];
      ValuesPresent(options) && KeysAreTexts(options, m) && LastOptionWins(options, m)
  {
    var front := options[..|options| - 1];
    assert forall i :: 0 <= i < |front| ==> front[i] == options[i];
    KeysSnoc(options, seasons);
    WinsSnoc(options, seasons);
  }

  lemma KeysSnoc(options: seq<SeasonOption>, seasons: map<string, string>)
    requires options != [] && options[|options| - 1].value.Some?
    requires KeysAreTexts(options[..|options| - 1], seasons)
    ensures var last := options[|options| - 1];
      KeysAreTexts(options, seasons[last.text := last.value.value])
  {
    var front := options[..|options| - 1];
    var last := options[|options| - 1];
    var m := seasons[last.text := last.value.value];
    forall t ensures t in m <==> exists i :: 0 <= i < |options| && options[i].text == t {
      if t in seasons && t != last.text {
        var i :| 0 <= i < |front| && front[i].text == t;
        assert options[i].text == t;
      }
      if t != last.text && exists i :: 0 <= i < |options| && options[i].text == t {
        var i :| 0 <= i < |options| && options[i].text == t;
        assert i < |front| && front[i].text == t;
      }
    }
  }

  lemma WinsSnoc(options: seq<SeasonOption>, seasons: map<string, string>)
    requires options != [] && ValuesPresent(options)
    requires var front := options[..|options| - 1];
      KeysAreTexts(front, seasons) && ValuesPresent(front) && LastOptionWins(front, seasons)
    requires var last := options[|options| - 1];
      KeysAreTexts(options, seasons[last.text := last.value.value])
    ensures var last := options[|options| - 1];
      LastOptionWins(options, seasons[last.text := last.value.value])
  {
    var front := options[..|options| - 1];
    var last := options[|options| - 1];
    var m := seasons[last.text := last.value.value];
    forall i | 0 <= i < |options| && (forall j :: i < j < |options| ==> options[j].text != options[i].text)
      ensures m[options[i].text] == options[i].value.value
    {
      if i < |front| {
        assert front[i] == options[i];
        assert options[i].text != last.text;
        assert forall j :: i < j < |front| ==> front[j] == options[j];
      }
    }
  }

  /** `get_valid_seasons(league)`: season label to season id. */
  function GetValidSeasons(league: Arg, site: Site): (r: Result<map<string, string>>)
    ensures league.NotStr? ==> r == Err(TypeError)
    ensures league.Str? && league.s !in Comps ==> r == Err(InvalidLeague(league.s, "Transfermarkt"))
    ensures league.Str? && league.s in Comps && site.seasonOptions(Comps[league.s]).None? ==>
      r == Err(AttributeError)
    ensures league.Str? && league.s in Comps && site.seasonOptions(Comps[league.s]).Some? ==>
      r == SeasonMap(site.seasonOptions(Comps[league.s]).value)
    ensures r.Ok? ==> league.Str? && league.s in Comps
  {
    if league.NotStr? then Err(TypeError)
    else if league.s !in Comps then Err(InvalidLeague(league.s, "Transfermarkt"))
    else
      match site.seasonOptions(Comps[league.s])
      case None => Err(AttributeError)
      case Some(options) => SeasonMap(options)
  }

  /** The page listing a league's clubs for one season. */
  function SeasonPage(leagueUrl: string, seasonId: string): (url: string)
    ensures StartsWith(url, leagueUrl)
    ensures url[|leagueUrl|..] == "/plus/?saison_id=" + seasonId
  {
    leagueUrl + "/plus/?saison_id=" + seasonId
  }

  predicate HasLink(cell: LinkCell) {
    cell.Anchor? && cell.href.Some?
  }

  /** Indexing a missing anchor raises TypeError, a missing `href` KeyError. */
  function BrokenLinkError(cell: LinkCell): Exception {
    if cell.NoAnchor? then TypeError else KeyError
  }

  /** Cell `i` is the first without a usable link. */
  predicate FirstBroken(cells: seq<LinkCell>, i: int) {
    0 <= i < |cells| && !HasLink(cells[i]) && forall j :: 0 <= j < i ==> HasLink(cells[j])
  }

  /** `[ROOT + x.find('a')['href'] for x in cells]`: a cell without an anchor
      raises TypeError (indexing `None`), an anchor without `href` KeyError. */
  function ClubLinks(cells: seq<LinkCell>): (r: Result<seq<string>>)
    ensures r.Ok? <==> forall i :: 0 <= i < |cells| ==> HasLink(cells[i])
    ensures r.Ok? ==> |r.value| == |cells|
    ensures r.Ok? ==> forall i :: 0 <= i < |cells| ==> r.value[i] == Root + cells[i].href.value
    ensures r.Err? ==> exists i :: FirstBroken(cells, i) && r.error == BrokenLinkError(cells[i])
  {
    if cells == [] then Ok([])
    else
      var rest := cells[1..];
      assert forall i :: 0 <= i < |rest| ==> rest[i] == cells[i + 1];
      match cells[0]
      case NoAnchor => Err(TypeError)
      case Anchor(None) => Err(KeyError)
      case Anchor(Some(href)) =>
        var links :- ClubLinks(rest);
        Ok([Root + href] + links)
  }

  /** `get_club_links(year, league)`. */
  function GetClubLinks(year: Arg, league: Arg, site: Site): (r: Result<seq<string>>)
    ensures year.NotStr? ==> r == Err(TypeError)
    ensures year.Str? && GetValidSeasons(league, site).Err? ==> r == Err(GetValidSeasons(league, site).error)
    ensures year.Str? && GetValidSeasons(league, site).Ok? && year.s !in GetValidSeasons(league, site).value ==>
      r == Err(InvalidYear(year.s, league.s))
    ensures year.Str? && GetValidSeasons(league, site).Ok? && year.s in GetValidSeasons(league, site).value ==>
      match site.clubCells(SeasonPage(Comps[league.s], GetValidSeasons(league, site).value[year.s]))
      case None => r == Err(AttributeError)
      case Some(cells) => r == ClubLinks(cells)
    ensures r.Ok? ==> forall i :: 0 <= i < |r.value| ==> StartsWith(r.value[i], Root)
  {
    if year.NotStr? then Err(TypeError)
    else
      var seasons :- GetValidSeasons(league, site);
      if year.s !in seasons then Err(InvalidYear(year.s, league.s))
      else
        match site.clubCells(SeasonPage(Comps[league.s], seasons[year.s]))
        case None => Err(AttributeError)
        case Some(cells) =>
          var links :- ClubLinks(cells);
          assert forall i :: 0 <= i < |links| ==> links[i][..|Root|] == Root;
          Ok(links)
  }

  // ---------------------------------------------------------------------------
  // get_player_links
  // ---------------------------------------------------------------------------

  /** `[ROOT + x.find('a')['href'] for x in cells if x.find('a') is not None]`:
      cells without an anchor are skipped, an anchor without `href` raises KeyError. */
  function AnchorLinks(cells: seq<LinkCell>): (r: Result<seq<string>>)
    ensures r.Ok? <==> forall i :: 0 <= i < |cells| ==> cells[i] != Anchor(None)
    ensures r.Err? ==> r.error == KeyError
    ensures r.Ok? ==> forall x :: x in r.value <==>
      exists i :: 0 <= i < |cells| && HasLink(cells[i]) && x == Root + cells[i].href.value
  {
    if cells == [] then Ok([])
    else
      var rest := cells[1..];
      assert forall i :: 0 <= i < |rest| ==> rest[i] == cells[i + 1];
      var links :- AnchorLinks(rest);
      match cells[0]
      case NoAnchor => Ok(links)
      case Anchor(None) => Err(KeyError)
      case Anchor(Some(href)) => Ok([Root + href] + links)
  }

  /** `x` is a link the player table of the page at `club` yields. */
  predicate LinkOnPage(site: Site, club: string, x: string) {
    site.playerCells(club).Some? &&
    exists i :: 0 <= i < |site.playerCells(club).value| &&
      HasLink(site.playerCells(club).value[i]) &&
      x == Root + site.playerCells(club).value[i].href.value
  }

  /** `player_links += p_links` over the club pages in order: a page without
      the table raises AttributeError. */
  function CollectLinks(site: Site, clubs: seq<string>): (r: Result<seq<string>>)
  {
    if clubs == [] then Ok([])
    else
      var links :- CollectLinks(site, clubs[..|clubs| - 1]);
      match site.playerCells(clubs[|clubs| - 1])
      case None => Err(AttributeError)
      case Some(cells) =>
        var more :- AnchorLinks(cells);
        Ok(links + more)
  }

  /** The collected links are exactly the links some club page yields. */
  lemma {:induction false} CollectLinksMembers(site: Site, clubs: seq<string>)
    requires CollectLinks(site, clubs).Ok?
    ensures forall x :: x in CollectLinks(site, clubs).value <==>
      exists k :: 0 <= k < |clubs| && LinkOnPage(site, clubs[k], x)
  {
    if clubs != [] {
      var front := clubs[..|clubs| - 1];
      CollectLinksMembers(site, front);
      var links := CollectLinks(site, front).value;
      var more := AnchorLinks(site.playerCells(clubs[|clubs| - 1]).value).value;
      assert forall k :: 0 <= k < |front| ==> front[k] == clubs[k];
      CollectStep(site, clubs, links, more);
    }
  }

  lemma CollectStep(site: Site, clubs: seq<string>, links: seq<string>, more: seq<string>)
    requires clubs != [] && site.playerCells(clubs[|clubs| - 1]).Some?
    requires forall x :: x in links <==> exists k :: 0 <= k < |clubs| - 1 && LinkOnPage(site, clubs[k], x)
    requires AnchorLinks(site.playerCells(clubs[|clubs| - 1]).value) == Ok(more)
    ensures forall x :: x in links + more <==> exists k :: 0 <= k < |clubs| && LinkOnPage(site, clubs[k], x)
  {
    var n := |clubs| - 1;
    forall x ensures x in links + more <==> exists k :: 0 <= k < |clubs| && LinkOnPage(site, clubs[k], x) {
      if x in more {
        assert LinkOnPage(site, clubs[n], x);
      }
      if exists k :: 0 <= k < |clubs| && LinkOnPage(site, clubs[k], x) {
        var k :| 0 <= k < |clubs| && LinkOnPage(site, clubs[k], x);
      }
    }
  }

  /** What `get_player_links` returns: every player link of every club page of
      the season, once each. */
  function PlayerLinks(year: Arg, league: Arg, site: Site): (r: Result<seq<string>>)
  {
    var clubs :- GetClubLinks(year, league, site);
    var links :- CollectLinks(site, clubs);
    Ok(Dedup(links))
  }

  /** Every player link starts with the site root, appears once, and is exactly
      a link some club page of the season yields. */
  lemma PlayerLinksShape(year: Arg, league: Arg, site: Site)
    requires PlayerLinks(year, league, site).Ok?
    ensures var links := PlayerLinks(year, league, site).value;
      && NoDuplicates(links)
      && (forall i :: 0 <= i < |links| ==> StartsWith(links[i], Root))
      && forall x :: x in links <==>
           exists k :: 0 <= k < |GetClubLinks(year, league, site).value| &&
             LinkOnPage(site, GetClubLinks(year, league, site).value[k], x)
  {
    DedupedLinksShape(site, GetClubLinks(year, league, site).value);
  }

  /** The links collected from a list of club pages, repeats dropped. */
  lemma DedupedLinksShape(site: Site, clubs: seq<string>)
    requires CollectLinks(site, clubs).Ok?
    ensures var links := Dedup(CollectLinks(site, clubs).value);
      && NoDuplicates(links)
      && (forall i :: 0 <= i < |links| ==> StartsWith(links[i], Root))
      && forall x :: x in links <==> exists k :: 0 <= k < |clubs| && LinkOnPage(site, clubs[k], x)
  {
    var links := CollectLinks(site, clubs).value;
    var r := Dedup(links);
    CollectLinksMembers(site, clubs);
    forall i | 0 <= i < |r| ensures StartsWith(r[i], Root) {
      assert r[i] in links;
      var k :| 0 <= k < |clubs| && LinkOnPage(site, clubs[k], r[i]);
      var cells := site.playerCells(clubs[k]).value;
      var j :| 0 <= j < |cells| && HasLink(cells[j]) && r[i] == Root + cells[j].href.value;
      assert r[i][..|Root|] == Root;
    }
    forall x ensures x in r <==> x in links {
      if x in links {
        var i :| 0 <= i < |links| && links[i] == x;
      }
      if x in r {
        var i :| 0 <= i < |r| && r[i] == x;
      }
    }
  }

  /** `get_player_links(year, league)`: visits the club pages in order, appends
      each page's links, and drops repeats at the end. */
  method GetPlayerLinks(year: Arg, league: Arg, site: Site) returns (r: Result<seq<string>>)
    ensures r == PlayerLinks(year, league, site)
    ensures r.Ok? ==> NoDuplicates(r.value) && forall i :: 0 <= i < |r.value| ==> StartsWith(r.value[i], Root)
  {
    var clubLinks := GetClubLinks(year, league, site);
    if clubLinks.Err? {
      return Err(clubLinks.error);
    }
    var collected := VisitClubPages(site, clubLinks.value);
    if collected.Err? {
      return Err(collected.error);
    }
    r := Ok(Dedup(collected.value));
    DedupedLinksShape(site, clubLinks.value);
  }

  /** The loop of `get_player_links` over the club pages: each page's player
      table is read and its links appended; the first page that fails ends it. */
  method VisitClubPages(site: Site, clubs: seq<string>) returns (r: Result<seq<string>>)
    ensures r == CollectLinks(site, clubs)
  {
    var playerLinks: seq<string> := [];
    var k := 0;
    while k < |clubs|
      invariant 0 <= k <= |clubs|
      invariant CollectLinks(site, clubs[..k]) == Ok(playerLinks)
    {
      assert clubs[..k + 1][..k] == clubs[..k];
      var cells := site.playerCells(clubs[k]);
      if cells.None? {
        CollectStops(site, clubs, k + 1);
        return Err(AttributeError);
      }
      var pLinks := AnchorLinks(cells.value);
      if pLinks.Err? {
        CollectStops(site, clubs, k + 1);
        return Err(pLinks.error);
      }
      playerLinks := playerLinks + pLinks.value;
      k := k + 1;
    }
    assert clubs[..k] == clubs;
    return Ok(playerLinks);
  }

  /** Once a prefix of the club pages fails, the whole collection fails the same way. */
  lemma {:induction false} CollectStops(site: Site, clubs: seq<string>, n: nat)
    requires n <= |clubs| && CollectLinks(site, clubs[..n]).Err?
    ensures CollectLinks(site, clubs) == CollectLinks(site, clubs[..n])
    decreases |clubs| - n
  {
    if n < |clubs| {
      assert clubs[..n + 1][..n] == clubs[..n];
      CollectStops(site, clubs, n + 1);
    } else {
      assert clubs[..n] == clubs;
    }
  }

  // ---------------------------------------------------------------------------
  // scrape_player: the profile fields
  // ---------------------------------------------------------------------------

  /** An `li.data-header__label` item: its text and the text of its first `<span>`. */
  datatype HeaderItem = HeaderItem(text: string, span: Option<string>)

  /** The elements of a profile page `scrape_player` reads, as text. `None`
      stands for an element the page lacks. */
  datatype PlayerPage = PlayerPage(
    headline: Option<string>,               // h1.data-header__headline-wrapper
    marketValue: Option<string>,            // a.data-header__market-value-wrapper
    birthDate: Option<string>,              // span[itemprop=birthDate]
    nationality: Option<string>,            // span[itemprop=nationality]
    citizenshipFlags: seq<seq<Option<string>>>, // per bold info-table span, its flags' `title`
    detailPosition: Option<string>,         // dd.detail-position__position
    headerItems: seq<HeaderItem>,           // li.data-header__label
    positionBox: Option<seq<string>>,       // the dd texts of div.detail-position__position
    club: Option<string>,                   // span.data-header__club
    headerLabels: seq<string>,              // span.data-header__label
    scripts: seq<string>,                   // script[type=text/javascript]
    transferRows: seq<string>)              // div.grid.tm-player-transfer-history-grid

  /** The name: the last line of the headline, stripped. A page without the
      headline raises AttributeError. */
  function Name(headline: Option<string>): (r: Result<string>)
    ensures headline.None? <==> r == Err(AttributeError)
    ensures r.Ok? ==> IsStripped(r.value)
  {
    match headline
    case None => Err(AttributeError)
    case Some(text) => Ok(Strip(AfterLast(text, "\n")))
  }

  /** A headline `a\nb` whose last line is `b` names the player `b`, stripped. */
  lemma NameIsLastLine(a: string, b: string)
    requires '\n' !in b
    ensures Name(Some(a + "\n" + b)) == Ok(Strip(b))
  {
    AfterLastChar(a, '\n', b);
  }

  /** The text that precedes the date of the last market-value update. */
  const UpdateMarker := "Last update: "

  datatype MarketValue = MarketValue(value: Option<string>, lastUpdated: Option<string>)

  /** The value is the text before the first space; the update date is the text
      after the last `Last update: `. Without the element both are None. */
  function MarketValueOf(element: Option<string>): (r: MarketValue)
    ensures element.None? <==> r.value.None?
    ensures element.None? <==> r.lastUpdated.None?
    ensures element.Some? ==> StartsWith(element.value, r.value.value) && !Contains(r.value.value, " ")
  {
    match element
    case None => MarketValue(None, None)
    case Some(text) => MarketValue(Some(BeforeFirst(text, " ")), Some(AfterLast(text, UpdateMarker)))
  }

  /** The update date is the text after the last `Last update: `: it holds no
      such marker, ends the element's text, and a marker stands right before it. */
  lemma LastUpdatedAfterMarker(text: string)
    requires Contains(text, UpdateMarker)
    ensures var u := MarketValueOf(Some(text)).lastUpdated.value;
      && !Contains(u, UpdateMarker)
      && |u| + |UpdateMarker| <= |text| && text[|text| - |u|..] == u
      && OccursAt(text, UpdateMarker, |text| - |u| - |UpdateMarker|)
  {
    AfterLastFacts(text, UpdateMarker);
  }

  /** `a b` with no space in `a` is worth `a`. */
  lemma MarketValueFirstWord(a: string, b: string)
    requires ' ' !in a
    ensures MarketValueOf(Some(a + " " + b)).value == Some(a)
  {
    BeforeFirstChar(a, ' ', b);
  }

  datatype BirthInfo = BirthInfo(dob: Option<string>, age: Option<int>)

  /** The birth date: the first three words of the stripped text; the age: its
      last word with the parentheses removed, read by `int()` (which may raise
      ValueError). Without the element both are None. */
  function BirthInfoOf(element: Option<string>): (r: Result<BirthInfo>)
    ensures element.None? ==> r == Ok(BirthInfo(None, None))
    ensures r.Err? ==> r.error == ValueError
    ensures r.Ok? ==> (element.None? <==> r.value.dob.None?) && (element.None? <==> r.value.age.None?)
    ensures element.Some? ==> (r.Ok? <==> ParseInt(AgeText(element.value)).Ok?)
    ensures element.Some? && r.Ok? ==>
      r.value == BirthInfo(Some(BirthDate(element.value)), Some(ParseInt(AgeText(element.value)).value))
  {
    match element
    case None => Ok(BirthInfo(None, None))
    case Some(text) =>
      var t := Strip(text);
      var dob := Join(" ", Take(Split(t, " "), 3));
      var ageText := Replace(Replace(AfterLast(t, " "), "(", ""), ")", "");
      ReplaceCharByNothing(AfterLast(t, " "), '(');
      ReplaceCharByNothing(RemoveChar(AfterLast(t, " "), '('), ')');
      var age :- ParseInt(ageText);
      Ok(BirthInfo(Some(dob), Some(age)))
  }

  /** The first three space-separated words of the stripped text. */
  function BirthDate(text: string): string {
    Join(" ", Take(Split(Strip(text), " "), 3))
  }

  /** The last space-separated word of the stripped text without its parentheses. */
  function AgeText(text: string): string {
    RemoveChar(RemoveChar(AfterLast(Strip(text), " "), '('), ')')
  }

  /** `Mon D, YYYY (age)` gives that date and that age. */
  lemma BirthInfoOfDate(w1: string, w2: string, w3: string, age: int)
    requires w1 != [] && !IsSpace(w1[0])
    requires ' ' !in w1 && ' ' !in w2 && ' ' !in w3
    ensures BirthInfoOf(Some(w1 + " " + w2 + " " + w3 + " (" + IntToString(age) + ")")) ==
      Ok(BirthInfo(Some(w1 + " " + w2 + " " + w3), Some(age)))
  {
    var n := IntToString(age);
    var last := "(" + n + ")";
    var text := w1 + " " + w2 + " " + w3 + " (" + n + ")";
    NumberHasNoMarks(age);
    assert text == w1 + " " + w2 + " " + w3 + " " + last;
    assert text[|text| - 1] == ')';
    StripStripped(text);
    DateWords(w1, w2, w3, last);
    AfterLastChar(w1 + " " + w2 + " " + w3, ' ', last);
    AgeOfParenthesised(n, age);
  }

  lemma DateWords(w1: string, w2: string, w3: string, last: string)
    requires ' ' !in w1 && ' ' !in w2 && ' ' !in w3 && ' ' !in last
    ensures Join(" ", Take(Split(w1 + " " + w2 + " " + w3 + " " + last, " "), 3)) == w1 + " " + w2 + " " + w3
  {
    var words := [w1, w2, w3, last];
    JoinFour(w1, w2, w3, last);
    SplitOnChar(words, ' ');
    assert Take(words, 3) == [w1, w2, w3];
    JoinThree(w1, w2, w3);
  }

  lemma JoinThree(a: string, b: string, c: string)
    ensures Join(" ", [a, b, c]) == a + " " + b + " " + c
  {
    JoinCons(" ", b, [c]);
    assert [b] + [c] == [b, c];
    JoinCons(" ", a, [b, c]);
    assert [a] + [b, c] == [a, b, c];
  }

  lemma JoinFour(a: string, b: string, c: string, d: string)
    ensures Join(" ", [a, b, c, d]) == a + " " + b + " " + c + " " + d
  {
    JoinThree(b, c, d);
    JoinCons(" ", a, [b, c, d]);
    assert [a] + [b, c, d] == [a, b, c, d];
  }

  lemma NumberHasNoMarks(n: int)
    ensures ' ' !in IntToString(n) && '(' !in IntToString(n) && ')' !in IntToString(n)
    ensures ',' !in IntToString(n)
  {
    var s := IntToString(n);
    var digits := NatToString(if n < 0 then -n else n);
    forall i | 0 <= i < |s| ensures s[i] != ' ' && s[i] != '(' && s[i] != ')' && s[i] != ',' {
      if n < 0 && i > 0 {
        assert s[i] == digits[i - 1];
      }
    }
  }

  lemma AgeOfParenthesised(n: string, age: int)
    requires n == IntToString(age)
    requires '(' !in n && ')' !in n
    ensures ParseInt(Replace(Replace("(" + n + ")", "(", ""), ")", "")) == Ok(age)
  {
    DropOpening(n);
    DropClosing(n);
    ParseIntRoundTrip(age);
  }

  lemma DropOpening(n: string)
    requires '(' !in n && ')' !in n
    ensures Replace("(" + n + ")", "(", "") == n + ")"
  {
    var s := "(" + n + ")";
    assert s == "(" + (n + ")");
    ReplaceCharByNothing(s, '(');
    RemoveCharConcat("(", n + ")", '(');
    assert '(' !in n + ")";
  }

  lemma DropClosing(n: string)
    requires ')' !in n
    ensures Replace(n + ")", ")", "") == n
  {
    ReplaceCharByNothing(n + ")", ')');
    RemoveCharConcat(n, ")", ')');
  }

  /** The nationality: the element's text with line breaks removed, stripped.
      A page without it raises AttributeError. */
  function Nationality(element: Option<string>): (r: Result<string>)
    ensures element.None? <==> r == Err(AttributeError)
    ensures r.Ok? ==> IsStripped(r.value) && '\n' !in r.value
    ensures element.Some? ==> r == Ok(Strip(RemoveChar(element.value, '\n')))
  {
    match element
    case None => Err(AttributeError)
    case Some(text) =>
      var joined := Replace(text, "\n", "");
      ReplaceCharByNothing(text, '\n');
      var r := Strip(joined);
      Ok(r)
  }

  /** A name between blank runs that may hold line breaks, as the page lays it
      out, is read as just the name. */
  lemma NationalityOfLines(a: string, name: string, b: string)
    requires AllSpace(a) && AllSpace(b) && IsStripped(name) && '\n' !in name
    ensures Nationality(Some(a + name + b)) == Ok(name)
  {
    RemoveCharConcat(a + name, b, '\n');
    RemoveCharConcat(a, name, '\n');
    BlanksStayBlank(a, '\n');
    BlanksStayBlank(b, '\n');
    StripOf(RemoveChar(a, '\n'), name, RemoveChar(b, '\n'));
  }

  lemma BlanksStayBlank(a: string, c: char)
    requires AllSpace(a)
    ensures AllSpace(RemoveChar(a, c))
  {
    var r := RemoveChar(a, c);
    forall i | 0 <= i < |r| ensures IsSpace(r[i]) {
      assert r[i] in a;
    }
  }

  /** `[y for x in xss for y in x]`. */
  function Flatten<T(!new)>(xss: seq<seq<T>>): (r: seq<T>)
    ensures forall x :: x in r <==> exists i :: 0 <= i < |xss| && x in xss[i]
  {
    if xss == [] then []
    else
      var rest := Flatten(xss[1..]);
      assert forall i :: 0 <= i < |xss| - 1 ==> xss[1..][i] == xss[i + 1];
      xss[0] + rest
  }

  /** `[el['title'] for el in flags]`: a flag without a title raises KeyError. */
  function Titles(flags: seq<Option<string>>): (r: Result<seq<string>>)
    ensures r.Ok? <==> forall i :: 0 <= i < |flags| ==> flags[i].Some?
    ensures r.Err? ==> r.error == KeyError
    ensures r.Ok? ==> |r.value| == |flags| && forall i :: 0 <= i < |flags| ==> flags[i] == Some(r.value[i])
  {
    if flags == [] then Ok([])
    else
      var rest := flags[1..];
      assert forall i :: 0 <= i < |rest| ==> rest[i] == flags[i + 1];
      match flags[0]
      case None => Err(KeyError)
      case Some(title) =>
        var titles :- Titles(rest);
        Ok([title] + titles)
  }

  /** The citizenships: every flag title once. */
  function Citizenship(spans: seq<seq<Option<string>>>): (r: Result<seq<string>>)
    ensures r.Err? ==> r.error == KeyError
    ensures r.Ok? <==> forall i, j :: 0 <= i < |spans| && 0 <= j < |spans[i]| ==> spans[i][j].Some?
    ensures r.Ok? ==> NoDuplicates(r.value)
    ensures r.Ok? ==> forall x :: x in r.value <==> exists i :: 0 <= i < |spans| && Some(x) in spans[i]
  {
    var flags := Flatten(spans);
    FlagsTitled(spans, flags);
    var titles :- Titles(flags);
    var r := Dedup(titles);
    forall x ensures x in r <==> Some(x) in flags {
      if x in r {
        var i :| 0 <= i < |r| && r[i] == x;
        var j :| 0 <= j < |titles| && titles[j] == x;
        assert flags[j] == Some(x);
      }
      if Some(x) in flags {
        var j :| 0 <= j < |flags| && flags[j] == Some(x);
        assert titles[j] == x;
      }
    }
    Ok(r)
  }

  /** Every flag has a title exactly when every citizenship element's flags do. */
  lemma FlagsTitled(spans: seq<seq<Option<string>>>, flags: seq<Option<string>>)
    requires forall x :: x in flags <==> exists i :: 0 <= i < |spans| && x in spans[i]
    ensures (forall k :: 0 <= k < |flags| ==> flags[k].Some?) <==>
      forall i, j :: 0 <= i < |spans| && 0 <= j < |spans[i]| ==> spans[i][j].Some?
  {
    if exists k :: 0 <= k < |flags| && flags[k].None? {
      var k :| 0 <= k < |flags| && flags[k].None?;
      assert flags[k] in flags;
      var i :| 0 <= i < |spans| && flags[k] in spans[i];
      var j :| 0 <= j < |spans[i]| && spans[i][j] == flags[k];
    }
    if exists i, j :: 0 <= i < |spans| && 0 <= j < |spans[i]| && spans[i][j].None? {
      var i, j :| 0 <= i < |spans| && 0 <= j < |spans[i]| && spans[i][j].None?;
      assert spans[i][j] in spans[i];
      assert spans[i][j] in flags;
      var k :| 0 <= k < |flags| && flags[k] == spans[i][j];
    }
  }

  /** The header item test `'position' in el.text.lower()`. */
  predicate MentionsPosition(item: HeaderItem) {
    Contains(Lower(item.text), "position")
  }

  /** The position: the detail element's text if present; otherwise the `<span>`
      of the first header item mentioning "position". No such item raises
      IndexError, such an item without a `<span>` AttributeError. */
  function Position(detail: Option<string>, items: seq<HeaderItem>): (r: Result<string>)
    ensures detail.Some? ==> r == Ok(Strip(detail.value))
    ensures r.Err? ==> r.error == IndexError || r.error == AttributeError
    ensures r.Ok? ==> IsStripped(r.value)
  {
    if detail.Some? then Ok(Strip(detail.value))
    else
      var hits := Filter(items, MentionsPosition);
      if |hits| == 0 then Err(IndexError)
      else if hits[0].span.None? then Err(AttributeError)
      else Ok(Strip(hits[0].span.value))
  }

  /** Without the detail element, the first header item mentioning "position" decides. */
  lemma PositionFallback(items: seq<HeaderItem>, i: nat)
    requires i < |items| && MentionsPosition(items[i])
    requires forall j :: 0 <= j < i ==> !MentionsPosition(items[j])
    ensures Position(None, items) ==
      if items[i].span.None? then Err(AttributeError) else Ok(Strip(items[i].span.value))
  {
    FilterFirst(items, MentionsPosition, i);
  }

  /** Without the detail element and without any such item, IndexError. */
  lemma PositionMissing(items: seq<HeaderItem>)
    requires forall j :: 0 <= j < |items| ==> !MentionsPosition(items[j])
    ensures Position(None, items) == Err(IndexError)
  {
    FilterNone(items, MentionsPosition);
  }

  /** The team: the club element's text, stripped, or None. */
  function Team(element: Option<string>): (r: Option<string>)
    ensures element.None? <==> r.None?
    ensures r.Some? ==> IsStripped(r.value)
    ensures element.Some? ==> r == Some(Strip(element.value))
  {
    match element
    case None => None
    case Some(text) => Some(Strip(text))
  }

  /** The club name between blanks is read as just the name. */
  lemma TeamOfPadded(a: string, club: string, b: string)
    requires AllSpace(a) && AllSpace(b) && IsStripped(club)
    ensures Team(Some(a + club + b)) == Some(club)
  {
    StripOf(a, club, b);
  }

  /** The header label test `keyword in x.text.lower()`. */
  function HasKeyword(keyword: string): string -> bool {
    text => Contains(Lower(text), keyword)
  }

  /** A label's value: the text after its last colon, stripped. */
  function LabelValue(text: string): (r: string)
    ensures IsStripped(r)
  {
    Strip(AfterLast(text, ":"))
  }

  /** `Label: value` with no colon in `value` has value `value`, stripped. */
  lemma LabelValueAfterColon(a: string, b: string)
    requires ':' !in b
    ensures LabelValue(a + ":" + b) == Strip(b)
  {
    AfterLastChar(a, ':', b);
  }

  /** A header field looked up by keyword: None when no label mentions it,
      AssertionError when two or more do. */
  function LabelField(labels: seq<string>, keyword: string): (r: Result<Option<string>>)
    ensures r.Err? ==> r.error == AssertionError
  {
    var hits := Filter(labels, HasKeyword(keyword));
    if |hits| >= 2 then Err(AssertionError)
    else if |hits| == 0 then Ok(None)
    else Ok(Some(LabelValue(hits[0])))
  }

  /** The one label mentioning the keyword gives the field. */
  lemma LabelFieldUnique(labels: seq<string>, keyword: string, i: nat)
    requires i < |labels| && HasKeyword(keyword)(labels[i])
    requires forall j :: 0 <= j < |labels| && j != i ==> !HasKeyword(keyword)(labels[j])
    ensures LabelField(labels, keyword) == Ok(Some(LabelValue(labels[i])))
  {
    FilterFirst(labels, HasKeyword(keyword), i);
    var rest := labels[i + 1..];
    assert forall j :: 0 <= j < |rest| ==> rest[j] == labels[i + 1 + j];
    FilterNone(rest, HasKeyword(keyword));
  }

  /** No label mentions the keyword: the field is None. */
  lemma LabelFieldAbsent(labels: seq<string>, keyword: string)
    requires forall j :: 0 <= j < |labels| ==> !HasKeyword(keyword)(labels[j])
    ensures LabelField(labels, keyword) == Ok(None)
  {
    FilterNone(labels, HasKeyword(keyword));
  }

  /** Two labels mention the keyword: the assertion fails. */
  lemma LabelFieldAmbiguous(labels: seq<string>, keyword: string, i: nat, j: nat)
    requires i < j < |labels| && HasKeyword(keyword)(labels[i]) && HasKeyword(keyword)(labels[j])
    ensures LabelField(labels, keyword) == Err(AssertionError)
  {
    FilterTwo(labels, HasKeyword(keyword), i, j);
  }

  // ---------------------------------------------------------------------------
  // Market value history
  // ---------------------------------------------------------------------------

  const ChartMarker := "var chart = new Highcharts.Chart"

  function IsChart(): string -> bool {
    script => Contains(script, ChartMarker)
  }

  /** `xs[2:-2]`. */
  function DropTwoEach<T>(xs: seq<T>): (r: seq<T>)
    ensures |xs| <= 4 ==> r == []
    ensures |xs| > 4 ==> |r| == |xs| - 4 && forall i :: 0 <= i < |r| ==> r[i] == xs[i + 2]
  {
    if |xs| <= 4 then [] else xs[2..|xs| - 2]
  }

  /** The chart's data points: the script cut at each `y':`, first two and last
      two pieces dropped. */
  function ChartPoints(script: string): seq<string> {
    DropTwoEach(Split(script, "y':"))
  }

  /** A point's value: the text before its first comma, read by `int()`. */
  function PointValue(point: string): (r: Result<int>)
    ensures r.Err? ==> r.error == ValueError
    ensures ',' !in point ==> r == ParseInt(point)
  {
    ContainsChar(point, ',');
    ParseInt(BeforeFirst(point, ","))
  }

  /** `n,rest` is read as `int(n)` when `n` holds no comma. */
  lemma PointValueOf(n: string, rest: string)
    requires ',' !in n
    ensures PointValue(n + "," + rest) == ParseInt(n)
  {
    BeforeFirstChar(n, ',', rest);
  }

  /** A point written as a number and a comma gives that number back. */
  lemma PointValueOfNumber(value: int, rest: string)
    ensures PointValue(IntToString(value) + "," + rest) == Ok(value)
  {
    NumberHasNoMarks(value);
    PointValueOf(IntToString(value), rest);
    ParseIntRoundTrip(value);
  }

  const DateMarker := "datum_mw':"
  const DateEnd := ",'x"
  const Escape := "\\x20"

  /** A point's date: the text after the last `datum_mw':` up to `,'x`, with
      `\x20` escapes turned into spaces and quotes removed. */
  function PointDate(point: string): (r: string)
    ensures '\'' !in r
  {
    var raw := BeforeFirst(AfterLast(point, DateMarker), DateEnd);
    var spaced := Replace(raw, Escape, " ");
    ReplaceCharByNothing(spaced, '\'');
    Replace(spaced, "'", "")
  }

  /** A point `…datum_mw':d,'x…` whose date `d` is words joined by `\x20`
      escapes reads as those words joined by spaces, quotes removed. */
  lemma PointDateOf(front: string, words: seq<string>, back: string)
    requires |words| >= 1 && forall k :: 0 <= k < |words| ==> '\\' !in words[k]
    requires !Contains(Join(Escape, words), DateEnd)
    requires !Contains(Join(Escape, words) + DateEnd + back, DateMarker)
    ensures PointDate(front + DateMarker + Join(Escape, words) + DateEnd + back) == RemoveChar(Join(" ", words), '\'')
  {
    var d := Join(Escape, words);
    RawDate(front, d, back);
    Unescape(words);
    ReplaceCharByNothing(Join(" ", words), '\'');
  }

  lemma RawDate(front: string, d: string, back: string)
    requires !Contains(d, DateEnd) && !Contains(d + DateEnd + back, DateMarker)
    ensures BeforeFirst(AfterLast(front + DateMarker + d + DateEnd + back, DateMarker), DateEnd) == d
  {
    assert front + DateMarker + d + DateEnd + back == front + DateMarker + (d + DateEnd + back);
    assert DateMarker[1..] == "atum_mw':";
    AfterLastPiece(front, DateMarker, d + DateEnd + back);
    assert DateEnd[1..] == "'x";
    BeforeFirstPiece(d, DateEnd, back);
  }

  lemma Unescape(words: seq<string>)
    requires |words| >= 1 && forall k :: 0 <= k < |words| ==> '\\' !in words[k]
    ensures Replace(Join(Escape, words), Escape, " ") == Join(" ", words)
  {
    forall k | 0 <= k < |words| ensures !Contains(words[k], Escape) && IsLeftmostPiece(words[k], Escape) {
      NoBackslashNoEscape(words[k]);
      LeftmostPieceOf(words[k], Escape);
    }
    SplitJoin(words, Escape);
  }

  lemma NoBackslashNoEscape(w: string)
    requires '\\' !in w
    ensures !Contains(w, Escape)
  {
    forall i: nat | i <= |w| ensures !OccursAt(w, Escape, i) {
      if i + |Escape| <= |w| {
        assert w[i..i + |Escape|][0] == w[i];
      }
    }
  }

  /** `[int(s.split(',')[0]) for s in points]`: the first unreadable value raises. */
  function PointValues(points: seq<string>): (r: Result<seq<int>>)
    ensures r.Err? ==> r.error == ValueError
    ensures r.Ok? ==> |r.value| == |points| && forall i :: 0 <= i < |points| ==> PointValue(points[i]) == Ok(r.value[i])
  {
    MapRaising(points, PointValue)
  }

  datatype History = History(dates: seq<string>, values: seq<int>)

  /** Date `k` and value `k` of the history both come from point `k` of the script. */
  predicate ReadFrom(h: History, script: string) {
    var points := ChartPoints(script);
    && |h.dates| == |points|
    && |h.values| == |points|
    && forall k :: 0 <= k < |points| ==> h.dates[k] == PointDate(points[k]) && PointValue(points[k]) == Ok(h.values[k])
  }

  /** No script on the page carries the market value chart. */
  predicate NoChart(scripts: seq<string>) {
    forall i :: 0 <= i < |scripts| ==> !Contains(scripts[i], ChartMarker)
  }

  /** The market value history: None when no script holds the chart (the
      IndexError is caught); a value `int()` cannot read raises ValueError. */
  function MarketValueHistory(scripts: seq<string>): (r: Result<Option<History>>)
    ensures r.Err? ==> r.error == ValueError
    ensures NoChart(scripts) <==> r == Ok(None)
    ensures r.Ok? && r.value.Some? ==> |r.value.value.dates| == |r.value.value.values|
    ensures r.Ok? && r.value.Some? ==>
      exists i :: 0 <= i < |scripts| && Contains(scripts[i], ChartMarker) && ReadFrom(r.value.value, scripts[i])
  {
    var charts := Filter(scripts, IsChart());
    if |charts| == 0 then Ok(None)
    else
      var points := ChartPoints(charts[0]);
      var values :- PointValues(points);
      var dates := seq(|points|, k requires 0 <= k < |points| => PointDate(points[k]));
      assert charts[0] in scripts;
      Ok(Some(History(dates, values)))
  }

  /** The first script holding the chart decides: a value `int()` refuses
      raises ValueError, otherwise the history is read from that script. */
  lemma MarketValueHistoryFirstChart(scripts: seq<string>, i: nat)
    requires i < |scripts| && Contains(scripts[i], ChartMarker)
    requires forall j :: 0 <= j < i ==> !Contains(scripts[j], ChartMarker)
    ensures PointValues(ChartPoints(scripts[i])).Err? ==> MarketValueHistory(scripts) == Err(ValueError)
    ensures PointValues(ChartPoints(scripts[i])).Ok? ==>
      && MarketValueHistory(scripts).Ok? && MarketValueHistory(scripts).value.Some?
      && ReadFrom(MarketValueHistory(scripts).value.value, scripts[i])
  {
    assert IsChart()(scripts[i]);
    FilterFirst(scripts, IsChart(), i);
  }

  // ---------------------------------------------------------------------------
  // Transfer history
  // ---------------------------------------------------------------------------

  const TransferColumns := ["Season", "Date", "Left", "Joined", "MV", "Fee", ""]

  /** `[s.strip() for s in pieces if s != '']`: empty pieces are dropped before
      stripping, so a piece of blanks stays as an empty cell. */
  function Cells(pieces: seq<string>): (r: seq<string>)
    ensures |r| <= |pieces|
    ensures forall i :: 0 <= i < |r| ==> IsStripped(r[i])
    ensures (forall i :: 0 <= i < |pieces| ==> pieces[i] == "") ==> r == []
  {
    if pieces == [] then []
    else
      var rest := pieces[1..];
      assert forall i :: 0 <= i < |rest| ==> rest[i] == pieces[i + 1];
      (if pieces[0] == "" then [] else [Strip(pieces[0])]) + Cells(rest)
  }

  /** The cells are exactly the non-empty pieces, in order, each stripped. */
  lemma {:induction false} CellsOfPieces(pieces: seq<string>)
    ensures var kept := Filter(pieces, IsNonEmpty);
      |Cells(pieces)| == |kept| && forall k :: 0 <= k < |kept| ==> Cells(pieces)[k] == Strip(kept[k])
  {
    if pieces != [] {
      CellsOfPieces(pieces[1..]);
      CellsStep(pieces);
      if pieces[0] != "" {
        MappedCons(pieces[0], Filter(pieces[1..], IsNonEmpty), Cells(pieces[1..]), Strip);
      }
    }
  }

  /** A list that is `f` of another, place by place, stays so when both grow
      by one element in front. */
  lemma MappedCons<T, U>(x: T, xs: seq<T>, ys: seq<U>, f: T -> U)
    requires |ys| == |xs| && forall k :: 0 <= k < |xs| ==> ys[k] == f(xs[k])
    ensures forall k :: 0 <= k < |xs| + 1 ==> ([f(x)] + ys)[k] == f(([x] + xs)[k])
  {
    forall k | 1 <= k < |xs| + 1 ensures ([f(x)] + ys)[k] == f(([x] + xs)[k]) {
      assert ([f(x)] + ys)[k] == ys[k - 1] && ([x] + xs)[k] == xs[k - 1];
    }
  }

  /** One piece of the comprehension: an empty piece is skipped, any other kept. */
  lemma CellsStep(pieces: seq<string>)
    requires pieces != []
    ensures var rest := pieces[1..];
      if pieces[0] == "" then
        Filter(pieces, IsNonEmpty) == Filter(rest, IsNonEmpty) && Cells(pieces) == Cells(rest)
      else
        && Filter(pieces, IsNonEmpty) == [pieces[0]] + Filter(rest, IsNonEmpty)
        && Cells(pieces) == [Strip(pieces[0])] + Cells(rest)
  {
    if pieces[0] == "" {
      assert [] + Cells(pieces[1..]) == Cells(pieces[1..]);
    }
  }

  predicate IsNonEmpty(piece: string) {
    piece != ""
  }

  /** The cells of one transfer row: its text cut at each blank line. */
  function RowCells(text: string): (r: seq<string>)
    ensures forall i :: 0 <= i < |r| ==> IsStripped(r[i])
    ensures var pieces := Filter(Split(text, "\n\n"), IsNonEmpty);
      |r| == |pieces| && forall k :: 0 <= k < |r| ==> r[k] == Strip(pieces[k])
  {
    CellsOfPieces(Split(text, "\n\n"));
    Cells(Split(text, "\n\n"))
  }

  /** Cells laid out one per blank-line-separated block, none holding a line
      break, are read back as they are. */
  lemma RowCellsOf(cells: seq<string>)
    requires |cells| >= 1
    requires forall k :: 0 <= k < |cells| ==> cells[k] != "" && IsStripped(cells[k]) && '\n' !in cells[k]
    ensures RowCells(Join("\n\n", cells)) == cells
  {
    SplitBlankLines(cells);
    FilterAll(cells, IsNonEmpty);
    var r := RowCells(Join("\n\n", cells));
    forall k | 0 <= k < |cells| ensures r[k] == cells[k] {
      StripStripped(cells[k]);
    }
  }

  lemma SplitBlankLines(cells: seq<string>)
    requires |cells| >= 1 && forall k :: 0 <= k < |cells| ==> '\n' !in cells[k]
    ensures Split(Join("\n\n", cells), "\n\n") == cells
  {
    forall k | 0 <= k < |cells| ensures !Contains(cells[k], "\n\n") && IsLeftmostPiece(cells[k], "\n\n") {
      NoLineBreakNoBlank(cells[k]);
      LeftmostPieceOf(cells[k], "\n\n");
    }
    SplitJoin(cells, "\n\n");
  }

  lemma NoLineBreakNoBlank(w: string)
    requires '\n' !in w
    ensures !Contains(w, "\n\n")
  {
    forall i: nat | i <= |w| ensures !OccursAt(w, "\n\n", i) {
      if i + 2 <= |w| {
        assert w[i..i + 2][0] == w[i];
      }
    }
  }

  /** The widest row. */
  function MaxWidth(rows: seq<seq<string>>): (w: nat)
    ensures forall i :: 0 <= i < |rows| ==> |rows[i]| <= w
    ensures rows != [] ==> exists i :: 0 <= i < |rows| && |rows[i]| == w
    ensures rows == [] ==> w == 0
  {
    if rows == [] then 0
    else
      var rest := rows[1..];
      assert forall i :: 0 <= i < |rest| ==> rest[i] == rows[i + 1];
      var w := MaxWidth(rest);
      if |rows[0]| >= w then |rows[0]| else w
  }

  /** A row as a frame row of `width` cells, missing cells None. */
  function Pad(row: seq<string>, width: nat): (r: seq<Option<string>>)
    ensures |r| == width
    ensures forall j :: 0 <= j < width ==> (j < |row| <==> r[j].Some?)
    ensures forall j :: 0 <= j < width && j < |row| ==> r[j] == Some(row[j])
  {
    seq(width, j requires 0 <= j < width => if j < |row| then Some(row[j]) else None)
  }

  /** `pd.DataFrame(rows, columns=TransferColumns).drop(columns=[''])`: rows are
      padded to the widest one, which must be exactly as wide as the column list
      (else ValueError); the unnamed last column is dropped. */
  function TransferFrame(rows: seq<seq<string>>): (r: Result<seq<seq<Option<string>>>>)
    ensures r.Err? <==> rows != [] && MaxWidth(rows) != |TransferColumns|
    ensures r.Err? ==> r.error == ValueError
    ensures r.Ok? ==> |r.value| == |rows|
    ensures r.Ok? ==> forall i :: 0 <= i < |rows| ==> |r.value[i]| == |TransferColumns| - 1
    ensures r.Ok? ==> forall i, j :: 0 <= i < |rows| && 0 <= j < |TransferColumns| - 1 ==>
      r.value[i][j] == if j < |rows[i]| then Some(rows[i][j]) else None
  {
    if rows != [] && MaxWidth(rows) != |TransferColumns| then Err(ValueError)
    else Ok(seq(|rows|, i requires 0 <= i < |rows| => Pad(rows[i], |TransferColumns| - 1)))
  }

  /** A full row of seven cells keeps its first six. */
  lemma TransferRowDropsLast(rows: seq<seq<string>>, i: nat)
    requires TransferFrame(rows).Ok? && i < |rows| && |rows[i]| == 7
    ensures TransferFrame(rows).value[i] == seq(6, j requires 0 <= j < 6 => Some(rows[i][j]))
  {
  }

  /** `transfer_history`: the cells of each row, framed. */
  function TransferHistory(rows: seq<string>): (r: Result<seq<seq<Option<string>>>>)
    ensures r.Err? ==> r.error == ValueError
    ensures r.Ok? ==> |r.value| == |rows| && forall i :: 0 <= i < |rows| ==> |r.value[i]| == 6
  {
    TransferFrame(HistoryCells(rows))
  }

  /** The cells of every transfer row. */
  function HistoryCells(rows: seq<string>): (cells: seq<seq<string>>)
    ensures |cells| == |rows| && forall i :: 0 <= i < |rows| ==> cells[i] == RowCells(rows[i])
  {
    seq(|rows|, i requires 0 <= i < |rows| => RowCells(rows[i]))
  }

  /** The history refuses a row wider than seven cells, or rows all narrower
      than seven; otherwise row `i` holds the first six cells of text `i`,
      padded with None. */
  lemma TransferHistoryCells(rows: seq<string>)
    ensures var cells := HistoryCells(rows);
      TransferHistory(rows).Err? <==>
        (exists i :: 0 <= i < |rows| && |cells[i]| > 7) || (rows != [] && forall i :: 0 <= i < |rows| ==> |cells[i]| < 7)
    ensures var cells := HistoryCells(rows);
      TransferHistory(rows).Ok? ==> forall i, j :: 0 <= i < |rows| && 0 <= j < 6 ==>
        TransferHistory(rows).value[i][j] == if j < |cells[i]| then Some(cells[i][j]) else None
  {
    var cells := HistoryCells(rows);
    if cells != [] {
      WidthRefused(cells);
    }
  }

  /** The widest row is not seven wide exactly when some row is wider or every row is narrower. */
  lemma WidthRefused(cells: seq<seq<string>>)
    requires cells != []
    ensures MaxWidth(cells) != |TransferColumns| <==>
      (exists i :: 0 <= i < |cells| && |cells[i]| > 7) || (forall i :: 0 <= i < |cells| ==> |cells[i]| < 7)
  {
    var w := MaxWidth(cells);
    assert |TransferColumns| == 7;
    if w < 7 {
      forall i | 0 <= i < |cells| ensures |cells[i]| < 7 {
        assert |cells[i]| <= w;
      }
    }
  }

  // ---------------------------------------------------------------------------
  // scrape_player
  // ---------------------------------------------------------------------------

  datatype Player = Player(
    name: string,
    value: Option<string>,
    valueLastUpdated: Option<string>,
    dob: Option<string>,
    age: Option<int>,
    nationality: string,
    citizenship: seq<string>,
    position: string,
    otherPositions: Option<seq<string>>,
    team: Option<string>,
    lastClub: Option<string>,
    since: Option<string>,
    joined: Option<string>,
    contractExpiration: Option<string>,
    marketValueHistory: Option<History>,
    transferHistory: seq<seq<Option<string>>>)

  /** The fields above the header labels, in the order the source computes them. */
  datatype Identity = Identity(
    name: string, market: MarketValue, birth: BirthInfo, nationality: string,
    citizenship: seq<string>, position: string, team: Option<string>)

  /** What the identity part promises about a page that yields it: each field
      is what its reader gives for the page. */
  predicate IdentityFits(page: PlayerPage, id: Identity) {
    && Name(page.headline) == Ok(id.name)
    && id.market == MarketValueOf(page.marketValue)
    && BirthInfoOf(page.birthDate) == Ok(id.birth)
    && Nationality(page.nationality) == Ok(id.nationality)
    && Citizenship(page.citizenshipFlags) == Ok(id.citizenship)
    && Position(page.detailPosition, page.headerItems) == Ok(id.position)
    && id.team == Team(page.club)
  }

  /** The identity part, in the order the source reads it. */
  function IdentityOf(page: PlayerPage): (r: Result<Identity>)
    ensures page.headline.None? ==> r == Err(AttributeError)
    ensures r.Ok? ==> IdentityFits(page, r.value)
  {
    var name :- Name(page.headline);
    var market := MarketValueOf(page.marketValue);
    var birth :- BirthInfoOf(page.birthDate);
    var nationality :- Nationality(page.nationality);
    var citizenship :- Citizenship(page.citizenshipFlags);
    var position :- Position(page.detailPosition, page.headerItems);
    Ok(Identity(name, market, birth, nationality, citizenship, position, Team(page.club)))
  }

  /** The identity is read whenever every one of its readers succeeds. */
  lemma IdentityOfSucceeds(page: PlayerPage)
    requires && Name(page.headline).Ok? && BirthInfoOf(page.birthDate).Ok?
             && Nationality(page.nationality).Ok? && Citizenship(page.citizenshipFlags).Ok?
             && Position(page.detailPosition, page.headerItems).Ok?
    ensures IdentityOf(page).Ok?
  {
  }

  /** The first reader that fails, in source order, decides the exception. */
  lemma IdentityOfFails(page: PlayerPage)
    ensures Name(page.headline).Err? ==> IdentityOf(page) == Err(AttributeError)
    ensures Name(page.headline).Ok? && BirthInfoOf(page.birthDate).Err? ==>
      IdentityOf(page) == Err(ValueError)
    ensures Name(page.headline).Ok? && BirthInfoOf(page.birthDate).Ok? && Nationality(page.nationality).Err? ==>
      IdentityOf(page) == Err(AttributeError)
    ensures && Name(page.headline).Ok? && BirthInfoOf(page.birthDate).Ok? && Nationality(page.nationality).Ok?
            && Citizenship(page.citizenshipFlags).Err? ==>
      IdentityOf(page) == Err(KeyError)
    ensures && Name(page.headline).Ok? && BirthInfoOf(page.birthDate).Ok? && Nationality(page.nationality).Ok?
            && Citizenship(page.citizenshipFlags).Ok? && Position(page.detailPosition, page.headerItems).Err? ==>
      IdentityOf(page) == Err(Position(page.detailPosition, page.headerItems).error)
  {
  }

  /** The header labels the career part reads (transfermarkt.py, `scrape_player`). */
  const LastClubKey := "last club"
  const SinceKey := "since"
  const JoinedKey := "joined"
  const ExpiresKey := "contract expires"

  /** The four header label fields, in source order. */
  datatype Header = Header(
    lastClub: Option<string>, since: Option<string>, joined: Option<string>,
    contractExpiration: Option<string>)

  /** What the header promises: each field is what its label gives. */
  predicate HeaderFits(labels: seq<string>, header: Header) {
    && LabelField(labels, LastClubKey) == Ok(header.lastClub)
    && LabelField(labels, SinceKey) == Ok(header.since)
    && LabelField(labels, JoinedKey) == Ok(header.joined)
    && LabelField(labels, ExpiresKey) == Ok(header.contractExpiration)
  }

  /** The four header label fields; the first label seen twice decides the error. */
  function HeaderOf(labels: seq<string>): (r: Result<Header>)
    ensures r.Ok? ==> HeaderFits(labels, r.value)
    ensures r.Err? ==> r.error == AssertionError
  {
    var lastClub :- LabelField(labels, LastClubKey);
    var since :- LabelField(labels, SinceKey);
    var joined :- LabelField(labels, JoinedKey);
    var expires :- LabelField(labels, ExpiresKey);
    Ok(Header(lastClub, since, joined, expires))
  }

  /** The header fails exactly when one of its labels is ambiguous. */
  lemma HeaderOfFails(labels: seq<string>)
    ensures HeaderOf(labels).Err? <==>
      || LabelField(labels, LastClubKey).Err? || LabelField(labels, SinceKey).Err?
      || LabelField(labels, JoinedKey).Err? || LabelField(labels, ExpiresKey).Err?
  {
  }

  /** The header label fields and the two histories, in source order. */
  datatype Career = Career(
    lastClub: Option<string>, since: Option<string>, joined: Option<string>,
    contractExpiration: Option<string>, history: Option<History>,
    transfers: seq<seq<Option<string>>>)

  /** What the career part promises: each field is what its reader gives. */
  predicate CareerFits(page: PlayerPage, career: Career) {
    && HeaderFits(page.headerLabels,
         Header(career.lastClub, career.since, career.joined, career.contractExpiration))
    && MarketValueHistory(page.scripts) == Ok(career.history)
    && TransferHistory(page.transferRows) == Ok(career.transfers)
  }

  /** The career part: the four header label fields, then the two histories. */
  function CareerOf(page: PlayerPage): (r: Result<Career>)
    ensures r.Ok? ==> CareerFits(page, r.value)
  {
    var header :- HeaderOf(page.headerLabels);
    var history :- MarketValueHistory(page.scripts);
    var transfers :- TransferHistory(page.transferRows);
    Ok(Career(header.lastClub, header.since, header.joined, header.contractExpiration,
              history, transfers))
  }

  /** The career is read whenever every one of its readers succeeds. */
  lemma CareerOfSucceeds(page: PlayerPage)
    requires && LabelField(page.headerLabels, LastClubKey).Ok?
             && LabelField(page.headerLabels, SinceKey).Ok?
             && LabelField(page.headerLabels, JoinedKey).Ok?
             && LabelField(page.headerLabels, ExpiresKey).Ok?
             && MarketValueHistory(page.scripts).Ok? && TransferHistory(page.transferRows).Ok?
    ensures CareerOf(page).Ok?
  {
  }

  /** The first reader that fails, in source order, decides the exception: an
      ambiguous header label, then the market value chart, then the transfers. */
  lemma CareerOfFails(page: PlayerPage)
    ensures HeaderOf(page.headerLabels).Err? ==> CareerOf(page) == Err(AssertionError)
    ensures HeaderOf(page.headerLabels).Ok? && MarketValueHistory(page.scripts).Err? ==>
      CareerOf(page) == Err(ValueError)
    ensures && HeaderOf(page.headerLabels).Ok? && MarketValueHistory(page.scripts).Ok?
            && TransferHistory(page.transferRows).Err? ==>
      CareerOf(page) == Err(ValueError)
  {
  }

  /** `scrape_player(player_link)` on the page the link serves: the fields in
      the order the source computes them, so the first failing one decides the
      exception. */
  function ScrapePlayer(page: PlayerPage): (r: Result<Player>)
    ensures page.headline.None? ==> r == Err(AttributeError)
    ensures IdentityOf(page).Err? ==> r == Err(IdentityOf(page).error)
    ensures IdentityOf(page).Ok? && CareerOf(page).Err? ==> r == Err(CareerOf(page).error)
    ensures r.Ok? <==> IdentityOf(page).Ok? && CareerOf(page).Ok?
    ensures r.Ok? ==> PlayerFits(page, r.value)
  {
    var id :- IdentityOf(page);
    var career :- CareerOf(page);
    Ok(Assemble(page, id, career))
  }

  /** A player record read from a page: its identity and career fields are
      what their readers give, and the position box is kept as it is. */
  predicate PlayerFits(page: PlayerPage, p: Player) {
    && IdentityFits(page, IdentityPart(p))
    && CareerFits(page, CareerPart(p))
    && p.otherPositions == page.positionBox
  }

  function IdentityPart(p: Player): Identity {
    Identity(p.name, MarketValue(p.value, p.valueLastUpdated), BirthInfo(p.dob, p.age),
             p.nationality, p.citizenship, p.position, p.team)
  }

  function CareerPart(p: Player): Career {
    Career(p.lastClub, p.since, p.joined, p.contractExpiration, p.marketValueHistory, p.transferHistory)
  }

  /** A record read from a page: a missing market value or birth date leaves
      the field empty, and citizenships are distinct. */
  lemma IdentityShape(page: PlayerPage, id: Identity)
    requires IdentityFits(page, id)
    ensures page.marketValue.None? <==> id.market.value.None?
    ensures page.birthDate.None? <==> id.birth.age.None?
    ensures page.nationality.Some? && NoDuplicates(id.citizenship)
  {
  }

  /** The chart's columns are equally long, and each transfer row has one cell
      per named column. */
  lemma CareerShape(page: PlayerPage, career: Career)
    requires CareerFits(page, career)
    ensures career.history.Some? ==> |career.history.value.dates| == |career.history.value.values|
    ensures |career.transfers| == |page.transferRows|
    ensures forall i :: 0 <= i < |career.transfers| ==> |career.transfers[i]| == 6
  {
  }

  /** The record `scrape_player` fills in, from its two parts. */
  function Assemble(page: PlayerPage, id: Identity, career: Career): (p: Player)
    requires IdentityFits(page, id) && CareerFits(page, career)
    ensures PlayerFits(page, p)
  {
    var p := Player(id.name, id.market.value, id.market.lastUpdated, id.birth.dob, id.birth.age,
                    id.nationality, id.citizenship, id.position, page.positionBox, id.team,
                    career.lastClub, career.since, career.joined, career.contractExpiration,
                    career.history, career.transfers);
    assert IdentityPart(p) == id && CareerPart(p) == career;
    p
  }
}
