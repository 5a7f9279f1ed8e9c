# ScraperFC scrapers in Dafny

This project models the content rules of three ScraperFC scrapers. Nothing in it fetches a page.

- **Transfermarkt** reads the season menu of a league page and the club links of a season. It collects the player links of every club and turns a player profile into one record: name, market value, birth date and age, nationality, citizenships, position, team, the labelled header fields, the market value chart and the transfer history.
- **Capology** builds league and season addresses and checks the requested currency. It gives the salary table column names chosen by its width.
- **ClubElo** looks up a club's Elo rating on a day from the API's rating history.

How the source is represented:

- Every page the source downloads is a parameter. A `Site` value maps an address to the elements that BeautifulSoup, Selenium or pandas would extract from it. The address each rule fetches is therefore part of the model. Capology's season menu is read twice, once by `get_valid_seasons` and again by `get_season_url`, and each read has its own field.
- Python's own operations are written out in small modules:
  - `Py`: `Result`, `Option`, the raised exceptions, and `Arg`, the "is this argument a `str`" check.
  - `PyStr`: `str.split`, `join`, `strip`, `replace`, `lower`, `in`, slicing, `list(set(...))` and filtering comprehensions.
  - `PyInt`: `int(text)` and `str(n)`.
- `Capology.Scraper` is a class. Its `ScrapeSalaries` method checks the currency, then starts a browser driver and closes it again on every path after the start.
- `Transfermarkt.GetPlayerLinks` is a method. Its accumulation loop over the club pages is the method `Transfermarkt.VisitClubPages`. Both are proved against functions: `Transfermarkt.PlayerLinks` and `Transfermarkt.CollectLinks`.

## Model

| member | source | states |
|---|---|---|
| PyStr.Strip | src/ScraperFC/transfermarkt.py:176 | `str.strip()`: the result has no surrounding whitespace, is no longer than the input, and is empty exactly when the input is all whitespace |
| PyStr.StripOf | src/ScraperFC/transfermarkt.py:239 | whitespace around an already stripped text is exactly what `strip()` removes |
| PyStr.Find | src/ScraperFC/transfermarkt.py:186 | the first occurrence of a substring, or -1 exactly when there is none |
| PyStr.Split | src/ScraperFC/transfermarkt.py:176 | `str.split(sep)` gives at least one piece, and joining the pieces with `sep` gives back the text |
| PyStr.SplitIsSplitting | src/ScraperFC/transfermarkt.py:244 | every piece of a split, except the last, holds no separator |
| PyStr.SplitJoin | src/ScraperFC/transfermarkt.py:197 | splitting the join of separator-free pieces gives back those pieces |
| PyStr.SplitOnChar | src/ScraperFC/transfermarkt.py:197 | the same round trip for a one-character separator, as in `split(' ')` |
| PyStr.AfterLastFacts | src/ScraperFC/transfermarkt.py:186 | `split(sep)[-1]`: a suffix that holds no separator, preceded by the separator when the text has one, and the whole text otherwise |
| PyStr.AfterLastChar | src/ScraperFC/transfermarkt.py:176 | the text after the last occurrence of a character is the last piece |
| PyStr.BeforeFirst | src/ScraperFC/transfermarkt.py:182 | `split(sep)[0]`: a prefix that holds no separator and, when the text has one, ends exactly where its first occurrence starts |
| PyStr.BeforeFirstChar | src/ScraperFC/transfermarkt.py:182 | the text before the first occurrence of a character is the first piece |
| PyStr.BeforeFirstPiece | src/ScraperFC/transfermarkt.py:278 | the first piece of `a + sep + b` is `a` whenever `a` holds no separator and cannot start one that runs into `sep` |
| PyStr.AfterLastPiece | src/ScraperFC/transfermarkt.py:278 | the last piece of `a + sep + b` is `b` whenever `b` holds no separator and `sep` cannot overlap itself |
| PyStr.LeftmostPieceOf | src/ScraperFC/transfermarkt.py:278 | a separator-free text followed by the separator is cut exactly there: the occurrence it ends with is the leftmost one |
| PyStr.Replace | src/ScraperFC/transfermarkt.py:198 | `str.replace`: a text without the target is unchanged |
| PyStr.ReplaceCharByNothing | src/ScraperFC/transfermarkt.py:198 | replacing a character by nothing removes every occurrence of it and keeps the rest in order |
| PyStr.RemoveCharConcat | src/ScraperFC/transfermarkt.py:198 | removing a character distributes over concatenation |
| PyStr.Dedup | src/ScraperFC/transfermarkt.py:127 | `list(set(xs))`: no duplicates, and exactly the elements of `xs` |
| PyStr.Filter | src/ScraperFC/transfermarkt.py:243-246 | a filtering comprehension keeps exactly the elements that satisfy the condition |
| PyStr.FilterFirst | src/ScraperFC/clubelo.py:90 | the first kept element is the first element of the input that satisfies the condition |
| PyStr.FilterNone | src/ScraperFC/clubelo.py:90 | nothing is kept when no element satisfies the condition |
| PyStr.FilterTwo | src/ScraperFC/transfermarkt.py:247 | two satisfying elements give at least two kept ones |
| PyStr.FilterAll | src/ScraperFC/capology.py:92 | a filter that every element passes keeps the whole list, in order |
| PyStr.MapRaising | src/ScraperFC/transfermarkt.py:276 | a comprehension whose element expression may raise succeeds exactly when every element succeeds, then gives element `i` for input `i`; otherwise it raises the error of the first element that fails, every earlier one having succeeded |
| PyInt.NatToString | src/ScraperFC/transfermarkt.py:198 | specification helper for `int()`: the canonical decimal spelling of `n` (no leading zero, digits that denote `n`), which `int()` reads back |
| PyInt.IntToString | src/ScraperFC/transfermarkt.py:198 | specification helper for `int()`: the canonical spelling of an integer. A minus sign exactly when it is negative, then non-empty digits with no leading zero that denote its magnitude |
| PyInt.ParseInt | src/ScraperFC/transfermarkt.py:198 | `int(text)` succeeds exactly when the text, without the whitespace `int()` skips at its ends, is an optional sign followed by a digit group (digits with single underscores between them); it reads the group's digits as the magnitude, negated after `-`; every failure is ValueError |
| PyInt.IntStrip | src/ScraperFC/transfermarkt.py:198 | the text `int()` reads has no skipped whitespace at either end and holds only characters of the input |
| PyInt.IntStripOf | src/ScraperFC/transfermarkt.py:198 | margins of whitespace `int()` skips around a text are exactly what it drops |
| PyInt.ParseIntRefusesSeparator | src/ScraperFC/transfermarkt.py:198 | a literal with one of the separators U+001C to U+001F in front is refused with ValueError, although `str.strip()` would remove that separator |
| PyInt.ParseIntRoundTrip | src/ScraperFC/transfermarkt.py:276 | `int(str(n)) == n` for every integer |
| PyInt.ParseIntBlank | src/ScraperFC/transfermarkt.py:198 | a blank text is not a number |
| PyInt.ParseIntIgnoresSpace | src/ScraperFC/transfermarkt.py:276 | whitespace `int()` skips (Python's whitespace except U+001C to U+001F) around a literal does not change what it reads |
| PyInt.GroupDigits | src/ScraperFC/transfermarkt.py:198 | a digit group with its underscores removed: exactly the text without `_`, a non-empty run of digits |
| ClubElo.DaysInMonth | src/ScraperFC/clubelo.py:87 | every month has 28 to 31 days |
| ClubElo.MonthField | src/ScraperFC/clubelo.py:87 | `%m` matches one or two digits, followed by the format's `-`, whose value is a month from 1 to 12 |
| ClubElo.DayField | src/ScraperFC/clubelo.py:87 | `%d` matches one or two digits, or a space and one digit, whose value is a day from 1 to 31 |
| ClubElo.ParseDate | src/ScraperFC/clubelo.py:87 | `strptime(date, '%Y-%m-%d')` gives only calendar dates, and every failure is a ValueError |
| ClubElo.ParseDateSpelled | src/ScraperFC/clubelo.py:87 | every accepted text spells its date: four year digits, `-`, one or two month digits, `-`, then one or two day digits or a space and one digit, and nothing else |
| ClubElo.ParseDateAccepts | src/ScraperFC/clubelo.py:87 | every such spelling of a calendar date is accepted and gives that date |
| ClubElo.ParseDateExactly | src/ScraperFC/clubelo.py:87 | `strptime(s, '%Y-%m-%d')` gives `d` exactly when `d` is a calendar date and `s` spells it; any other text is refused |
| ClubElo.MonthFieldOf | src/ScraperFC/clubelo.py:87 | one or two digits for a month, followed by `-`, are matched with exactly that value and width |
| ClubElo.DayFieldOf | src/ScraperFC/clubelo.py:87 | a day spelled with one or two digits, or a space and one digit, is matched whole with exactly that value |
| ClubElo.FormatDate | src/ScraperFC/clubelo.py:63 | the `YYYY-MM-DD` spelling is ten characters with dashes at positions 4 and 7 |
| ClubElo.ParseFormatDate | src/ScraperFC/clubelo.py:87 | every valid date written as `YYYY-MM-DD` parses back to itself |
| ClubElo.ParseShortDate | src/ScraperFC/clubelo.py:87 | an unpadded month and day are accepted |
| ClubElo.ParseSpacedDay | src/ScraperFC/clubelo.py:87 | a space-padded day is accepted |
| ClubElo.ParseDateRejects | src/ScraperFC/clubelo.py:87 | trailing text and a missing dash are refused |
| ClubElo.ParseDateRejectsImpossible | src/ScraperFC/clubelo.py:87 | a day the calendar lacks and year 0 are refused |
| ClubElo.ApiUrl | src/ScraperFC/clubelo.py:77 | the address is the API root followed by the team name, so the team can be read back from it |
| ClubElo.EloOnDateFirst | src/ScraperFC/clubelo.py:88-90 | the rating is the Elo of the first row, in table order, whose From..To interval (both ends included) holds the date |
| ClubElo.EloOnDateNone | src/ScraperFC/clubelo.py:90 | with no covering row the rating is -1 |
| ClubElo.ScrapeTeamOnDate | src/ScraperFC/clubelo.py:70-92 | a non-string team, then a non-string date, raise TypeError. An empty rating table raises the invalid-team error before the date is parsed. A date `strptime` refuses raises ValueError; otherwise the result is the lookup on that date |
| Transfermarkt.SeasonMap | src/ScraperFC/transfermarkt.py:57-60 | the season dict has exactly the option texts as keys; a text's last option gives its value; an option without a value raises KeyError |
| Transfermarkt.GetValidSeasons | src/ScraperFC/transfermarkt.py:39-62 | a non-string league raises TypeError; an unknown league raises the invalid-league error naming Transfermarkt; a page without the season menu raises AttributeError; otherwise the result is the season dict of the menu's options |
| Transfermarkt.SeasonPage | src/ScraperFC/transfermarkt.py:87 | the season page is the league page followed by `/plus/?saison_id=` and the season id |
| Transfermarkt.ClubLinks | src/ScraperFC/transfermarkt.py:90-94 | one link per club cell, the site root followed by the cell's href; the first cell without an anchor or href raises its error |
| Transfermarkt.GetClubLinks | src/ScraperFC/transfermarkt.py:65-96 | a non-string year raises TypeError; the seasons' error propagates; an unknown year raises InvalidYear; a season page without the club table raises AttributeError; otherwise the links are those of the season page's club cells, each starting with the site root |
| Transfermarkt.AnchorLinks | src/ScraperFC/transfermarkt.py:121-124 | cells without an anchor are skipped, an anchor without an href raises KeyError, and the links are exactly root + href of the anchored cells |
| Transfermarkt.CollectLinksMembers | src/ScraperFC/transfermarkt.py:116-125 | the gathered links are exactly the player links found on the clubs' pages |
| Transfermarkt.CollectStep | src/ScraperFC/transfermarkt.py:125 | appending one club's links extends the gathered set by exactly that club's links |
| Transfermarkt.CollectStops | src/ScraperFC/transfermarkt.py:116-125 | once one club page fails, the whole collection fails with that error |
| Transfermarkt.PlayerLinksShape | src/ScraperFC/transfermarkt.py:99-127 | the player links have no duplicates, all start with the site root, and are exactly the links on the season's club pages |
| Transfermarkt.GetPlayerLinks | src/ScraperFC/transfermarkt.py:113-127 | returns the player-links function's result: duplicate-free links that start with the site root |
| Transfermarkt.VisitClubPages | src/ScraperFC/transfermarkt.py:116-125 | the loop over the club links appends each page's links in order and stops at the first page that fails, as the collecting function does |
| Transfermarkt.Name | src/ScraperFC/transfermarkt.py:175-177 | a missing headline raises AttributeError; otherwise the name is stripped |
| Transfermarkt.NameIsLastLine | src/ScraperFC/transfermarkt.py:176 | the name is the stripped last line of the headline |
| Transfermarkt.MarketValueOf | src/ScraperFC/transfermarkt.py:180-190 | a missing element gives no value and no update date; otherwise the value is a prefix of the text with no space in it |
| Transfermarkt.LastUpdatedAfterMarker | src/ScraperFC/transfermarkt.py:184-187 | the update date ends the text, holds no `Last update: `, and follows such a marker |
| Transfermarkt.MarketValueFirstWord | src/ScraperFC/transfermarkt.py:181-183 | the value is the first space-separated word |
| Transfermarkt.BirthInfoOf | src/ScraperFC/transfermarkt.py:193-198 | a missing element gives no date and no age. Otherwise the date is the first three words of the stripped text and the age is `int()` of its last word without parentheses; an age `int()` refuses raises ValueError, and nothing else does |
| Transfermarkt.BirthInfoOfDate | src/ScraperFC/transfermarkt.py:197-198 | for `d m y (age)` the date is the first three words and the age is the parenthesised number |
| Transfermarkt.Nationality | src/ScraperFC/transfermarkt.py:208-209 | a missing element raises AttributeError; otherwise the nationality is the text with every newline removed, then stripped |
| Transfermarkt.NationalityOfLines | src/ScraperFC/transfermarkt.py:209 | a name with blank lines and spaces around it reads as exactly that name |
| Transfermarkt.Flatten | src/ScraperFC/transfermarkt.py:214-217 | the flag elements are exactly the flags of every citizenship element |
| Transfermarkt.Titles | src/ScraperFC/transfermarkt.py:218 | one title per flag, in order; a flag without a title raises KeyError |
| Transfermarkt.Citizenship | src/ScraperFC/transfermarkt.py:211-218 | the titles are read exactly when every flag of every citizenship element has a title, and a missing title raises KeyError; the citizenships have no duplicates and are exactly the titles of the flags |
| Transfermarkt.Position | src/ScraperFC/transfermarkt.py:221-227 | the detail element's stripped text is preferred; the fallback can fail only with IndexError or AttributeError |
| Transfermarkt.PositionFallback | src/ScraperFC/transfermarkt.py:223-226 | without the detail element, the first header label mentioning "position" (in any case) supplies the span |
| Transfermarkt.PositionMissing | src/ScraperFC/transfermarkt.py:223-226 | without the detail element and with no label mentioning "position", IndexError is raised |
| Transfermarkt.Team | src/ScraperFC/transfermarkt.py:238-239 | a missing club element gives no team; otherwise the team is the element's stripped text |
| Transfermarkt.TeamOfPadded | src/ScraperFC/transfermarkt.py:239 | a club name with whitespace around it reads as exactly that name |
| Transfermarkt.LabelValue | src/ScraperFC/transfermarkt.py:244 | the value of a header label is stripped |
| Transfermarkt.LabelValueAfterColon | src/ScraperFC/transfermarkt.py:244 | it is the stripped text after the last colon |
| Transfermarkt.LabelField | src/ScraperFC/transfermarkt.py:243-248 | a labelled field fails only with AssertionError |
| Transfermarkt.LabelFieldUnique | src/ScraperFC/transfermarkt.py:243-268 | a single matching label gives its value |
| Transfermarkt.LabelFieldAbsent | src/ScraperFC/transfermarkt.py:248 | no matching label gives None |
| Transfermarkt.LabelFieldAmbiguous | src/ScraperFC/transfermarkt.py:247 | two matching labels fail the assertion |
| Transfermarkt.DropTwoEach | src/ScraperFC/transfermarkt.py:276 | `xs[2:-2]` is empty for at most four items, and otherwise drops two items from each end |
| Transfermarkt.PointValue | src/ScraperFC/transfermarkt.py:276 | a chart point's value is `int()` of the text before its first comma; failures are ValueError |
| Transfermarkt.PointValueOf | src/ScraperFC/transfermarkt.py:276 | for `n,rest` with no comma in `n` the value is `int(n)` |
| Transfermarkt.PointValueOfNumber | src/ScraperFC/transfermarkt.py:276 | a point that starts with a written integer and a comma reads back that integer |
| Transfermarkt.PointDate | src/ScraperFC/transfermarkt.py:277-280 | a chart point's date holds no quote |
| Transfermarkt.PointDateOf | src/ScraperFC/transfermarkt.py:277-280 | the date is the text between the last `datum_mw':` and the next `,'x`, with each `\x20` turned into a space and the quotes removed |
| Transfermarkt.PointValues | src/ScraperFC/transfermarkt.py:276 | one value per point, in order; a point `int()` refuses raises ValueError |
| Transfermarkt.MarketValueHistory | src/ScraperFC/transfermarkt.py:271-283 | None exactly when no script carries the chart; failures are ValueError; a chart gives equally long dates and values read from a chart script |
| Transfermarkt.MarketValueHistoryFirstChart | src/ScraperFC/transfermarkt.py:271-283 | the first chart script is the one read: a value `int()` refuses there raises ValueError, and otherwise the history is read point by point from it |
| Transfermarkt.Cells | src/ScraperFC/transfermarkt.py:288 | a transfer row's cells are stripped, no more than its pieces, and none when every piece is empty |
| Transfermarkt.CellsOfPieces | src/ScraperFC/transfermarkt.py:288 | `[s.strip() for s in pieces if s != '']`: the cells are exactly the non-empty pieces, in order, each stripped |
| Transfermarkt.RowCells | src/ScraperFC/transfermarkt.py:288 | the cells of a row's text are exactly its non-empty pieces between blank lines, in order, each stripped |
| Transfermarkt.RowCellsOf | src/ScraperFC/transfermarkt.py:288 | a row written as stripped one-line cells joined by blank lines reads back as exactly those cells |
| Transfermarkt.MaxWidth | src/ScraperFC/transfermarkt.py:287-289 | the frame width is the length of the longest row |
| Transfermarkt.Pad | src/ScraperFC/transfermarkt.py:287-289 | a short row is padded with missing cells up to the frame width |
| Transfermarkt.TransferFrame | src/ScraperFC/transfermarkt.py:287-292 | the frame fails with ValueError exactly when the longest row is not 7 wide. Otherwise each row keeps its first 6 cells, padded with missing values, after the unnamed column is dropped |
| Transfermarkt.TransferRowDropsLast | src/ScraperFC/transfermarkt.py:290-292 | a full row loses only its seventh cell |
| Transfermarkt.TransferHistory | src/ScraperFC/transfermarkt.py:286-292 | one 6-cell row per transfer row; failures are ValueError |
| Transfermarkt.TransferHistoryCells | src/ScraperFC/transfermarkt.py:286-292 | the history fails exactly when a row has more than 7 cells or every row has fewer than 7. Otherwise cell `j` of row `i` is that row's cell `j`, or missing past its end |
| Transfermarkt.IdentityOf | src/ScraperFC/transfermarkt.py:175-239 | a missing headline raises AttributeError; a read identity holds exactly what each field reader gives: name, market value, birth date and age, nationality, citizenships, position and team |
| Transfermarkt.IdentityOfSucceeds | src/ScraperFC/transfermarkt.py:175-239 | the identity is read whenever every one of its field readers succeeds |
| Transfermarkt.IdentityOfFails | src/ScraperFC/transfermarkt.py:175-227 | the first failing reader in source order decides the exception: AttributeError for the name, ValueError for the age, AttributeError for the nationality, KeyError for a flag title, then the position's IndexError or AttributeError |
| Transfermarkt.IdentityShape | src/ScraperFC/transfermarkt.py:180-218 | a read identity has a market value and an age exactly when the page has those elements, a nationality element, and distinct citizenships |
| Transfermarkt.CareerOf | src/ScraperFC/transfermarkt.py:241-292 | a read career holds exactly what its readers give: the four labelled header fields, the market value history and the transfer history |
| Transfermarkt.HeaderOf | src/ScraperFC/transfermarkt.py:241-268 | the four labelled header fields, each what its label reader gives; a failure is the AssertionError of an ambiguous label |
| Transfermarkt.HeaderOfFails | src/ScraperFC/transfermarkt.py:241-268 | the header fails exactly when one of the four labels matches twice |
| Transfermarkt.CareerOfSucceeds | src/ScraperFC/transfermarkt.py:241-292 | the career is read whenever every one of its readers succeeds |
| Transfermarkt.CareerOfFails | src/ScraperFC/transfermarkt.py:241-292 | the first failing reader decides the exception: an ambiguous header label raises AssertionError, then a bad chart value ValueError, then a transfer table of the wrong width ValueError |
| Transfermarkt.CareerShape | src/ScraperFC/transfermarkt.py:271-292 | a read career has equally long chart dates and values, and one 6-cell row per transfer row |
| Transfermarkt.ScrapePlayer | src/ScraperFC/transfermarkt.py:153-313 | a missing headline raises AttributeError. The first part that fails decides the error: the identity before the career. It succeeds exactly when both parts do, and then every field of the record is what its reader gives |
| Transfermarkt.Assemble | src/ScraperFC/transfermarkt.py:294-313 | the record put together from a read identity and career holds each of their fields |
| Capology.GetLeagueUrl | src/ScraperFC/capology.py:75-82 | a non-string league raises TypeError; an unknown league raises the invalid-league error naming Capology; otherwise the address is `https://www.capology.com/`, the league's path, then `/salaries/`, and the path can be read back from it |
| Capology.ValuedOptions | src/ScraperFC/capology.py:92 | `find_all('option', value=True)`: an option is kept exactly when it carries a value, and a menu whose options all carry one is kept whole |
| Capology.Texts | src/ScraperFC/capology.py:93 | one season text per option, in order |
| Capology.GetValidSeasons | src/ScraperFC/capology.py:85-96 | the league checks of the league address come first; a page without the season menu raises AttributeError; otherwise the seasons are the texts of the options that carry a value, in order |
| Capology.GetSeasonUrl | src/ScraperFC/capology.py:99-111 | a non-string year raises TypeError; the seasons' error propagates; a year not among them raises InvalidYear. The page fetched again may lack the menu (AttributeError) or the year (IndexError). The address starts with `https://capology.com` |
| Capology.SeasonListed | src/ScraperFC/capology.py:108-109 | some valued option has the year as its text exactly when the year is among the options' texts |
| Capology.ValidSeasonMember | src/ScraperFC/capology.py:85-96 | a year is a valid season exactly when some option of the season menu carries a value and has the year as its text |
| Capology.SeasonUrlStable | src/ScraperFC/capology.py:99-111 | when both fetches of the league page serve the same menu, a valid year always gives an address |
| Capology.SeasonUrlFirst | src/ScraperFC/capology.py:107-111 | the address is `https://capology.com` followed by the value of the first valued option, on the page fetched again, whose text is the year |
| Capology.DropSecond | src/ScraperFC/capology.py:154 | dropping column 1 of a 13-wide row leaves 12 cells, shifted past the dropped one |
| Capology.DropSecondAndLast | src/ScraperFC/capology.py:160 | dropping columns 1 and 16 of a 17-wide row leaves 15 cells, shifted past column 1 |
| Capology.LabelSalaryTable | src/ScraperFC/capology.py:153-170 | 13 columns take the 12 names after column 1 is dropped. 17 columns take the 15 names after columns 1 and 16 are dropped. 8 columns keep all cells under the 8 names. Any other width raises ValueError. Each kept cell is the table's cell at the shifted index, and every row has one cell per name |
| Capology.Salaries | src/ScraperFC/capology.py:114-174 | currency checks first: a non-string raises TypeError and an unknown currency raises the currency error. Then the season address's error propagates; otherwise the result is the salary table of that season in that currency, labelled by its width |
| Capology.Scraper.constructor | src/ScraperFC/capology.py:59-61 | the accepted currencies are eur, gbp and usd, and no driver has been started |
| Capology.Scraper.WebdriverInit | src/ScraperFC/capology.py:64-66 | a new driver is started |
| Capology.Scraper.WebdriverClose | src/ScraperFC/capology.py:69-72 | the driver is closed |
| Capology.Scraper.ScrapeSalaries | src/ScraperFC/capology.py:114-174 | returns the salaries function's result. A refused currency leaves the driver state untouched. An accepted one starts exactly one driver and closes it again on every path, including errors |

## Left out

- Downloading pages is not modelled: HTTP, cloudscraper, `requests`, Selenium and `get_page_content`. Pages are parameters: the `Site` records and ClubElo's `history`.
- HTML and CSV parsing by BeautifulSoup, `pd.read_html`, `pd.read_csv` and `pd.DatetimeIndex` is not modelled. The model starts from the elements, tables and rows these produce.
- Capology: the wait for the "All" button and the currency button is not modelled. That covers the stale-element retry loop and the empty frame returned on a timeout. Both depend on browser timing.
- Capology: `scrape_payrolls` only raises NotImplementedError, and its body is commented out.
- Transfermarkt: height (`float()` of a localised decimal) is not modelled, because it is floating point. A height text `float()` refuses, such as `1,85m`, makes `scrape_player` raise ValueError in the source; the model has no such failure, so ScrapePlayer succeeds exactly when the identity and career parts do.
- Transfermarkt: `scrape_players` is not modelled. It only concatenates `scrape_player` results into one DataFrame.
- Transfermarkt: the `pd.Series` / `to_frame().T` output shape is not modelled, and neither is wrapping the other positions in a DataFrame. The record keeps the same fields as plain values.
- Dedup: Python's `list(set(...))` orders elements by hash. The model keeps first occurrences, so only "no duplicates" and "the same elements" are claimed about the order.
- Lower: ASCII letters only. Python's Unicode case mapping is not modelled.
- ParseInt: ASCII digits only. Python's `int()` also accepts other Unicode decimal digits, after turning non-ASCII whitespace into spaces.
- ClubElo: the Selenium driver lifecycle is left out. So is the ClubElo `scrape_team_on_date` return type, a numpy float that the model holds as a real.
- ParseDate: the year, month and day digits are ASCII digits only. CPython's `strptime` matches them with `\d`, which also accepts other Unicode decimal digits.
- ParseIntRoundTrip: CPython 3.11 and later refuse `int()` of a text with more than 4300 digits by default. The model has no such limit, so `int(str(n)) == n` is claimed for every integer.
- Arg: the source's `type(x) is not str` check refuses subclasses of `str`, and its `isinstance` check accepts them. An `Arg` is either a string or not one, so the model cannot tell the two checks apart.
- PointDateOf: stated for a marker and an end mark that cannot overlap themselves, which holds for `datum_mw':` and `,'x`. AfterLastPiece carries the same condition. BeforeFirstPiece also accepts a first piece that holds no character of the separator's start.
- Capology.GetSeasonUrl: the two fetches of the league page are two inputs, `yearOptions` and `reloadedYearOptions`. Both are fixed functions of the address, so a page that changes between two reads of the same fetch is not modelled.
- Logging, tqdm progress bars and user-agent choice are not modelled.
