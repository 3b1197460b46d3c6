# News scraper core: a Dafny model

This project models the core of a Django news aggregator's scrapers.

`scraper/scraper.py` defines two classes:

- `DateParser` turns the free date text found on a news page into an aware date-time. It first strips boilerplate ("By …", "Posted on", bullets, pipes, " - "). It then recognises "N units ago", "today" and "yesterday", hands anything else to dateutil's fuzzy parser, and falls back to two hand-written formats. It also formats a date-time for display.
- `GenericNewsScraper` reads one JSON config per site. For each site it goes through the first `limit` article containers of the rendered page and admits a record only if it is valid, its link is not stored yet and it was published within the last 25 hours. It saves the whole batch to the `NewsArticle` table, inserting each article whose link is not stored yet.

`scraper/simple_scraper.py` is the older scraper. It reads at most 15 containers, keeps those with a long enough title and a link, and saves them with the same insert-if-new loop.

How the model is laid out:

- Modules follow the program's structure:
  - `Calendar`: Python's `datetime` and dateutil's `relativedelta` arithmetic.
  - `Text`: character classes, `strip`, `lower`, digit runs.
  - `Cleaning`: the boilerplate substitutions.
  - `DateParser`.
  - `Slicing`: Python's `xs[:k]`.
  - `LinkStore`: the article table, seen through its link column.
  - `NewsScraper`: `GenericNewsScraper`.
  - `SimpleScraper`.
- Pure logic is written as functions with lemmas.
- The container loops, the save loops and the pattern loop of the clean-up are methods with loop invariants, each proved against a specification function.
- The scraper is a class whose `existingLinks` field `SaveArticles` updates.
- The table is a class whose `links` field `Create` updates.

These are parameters of the model rather than part of it:

- the clock (`timezone.now()`);
- the configured time zone, as a fixed UTC offset in seconds;
- dateutil's fuzzy parser, an oracle that returns a date-time with an optional offset, raises `ValueError`/`ParserError`, or raises anything else;
- the browser, which gives either a failed page or the records extracted from its containers.

Outcomes of a date parse are `Parsed(dt)`, `NoDate` (Python's `None`) or `Raises` (an exception escapes the function).

Two behaviours of the code are easy to overlook:

- `load_config` checks only that `base_url` and `article` are present, not the `container`, `link` and `title` selectors. A config without a `container` selector is accepted and then yields no articles, because the `KeyError` is caught around the page loop.
- The container loop does not add admitted links to `existing_links`; only `save_articles` does. So two containers with the same new link are both admitted, and the table keeps one of them (`NewsScraper.SameLinkAdmittedTwice`).

The fallback `manual_parse` has a `Name DD, YYYY` branch. The clean-up replaces every comma with a space before `manual_parse` sees the text, so that branch can never match text coming through `parse_date` (`DateParser.FallbackNeverReadsMonthNames`). The branch is modelled as written and is still reachable when `manual_parse` is called on its own (`DateParser.DisplayRoundTrip`).

## Model

| member | source | states |
|---|---|---|
| Calendar.DaysInMonth | scraper/scraper.py:120 | a month has 28 to 31 days, and 29 exactly for February of a leap year: the day range `datetime(...)` accepts |
| Calendar.OrdinalStrictlyIncreasing | scraper/scraper.py:60 | the day ordinal (Python's `toordinal`) grows strictly with the calendar order of valid dates |
| Calendar.OrdinalInjective | scraper/scraper.py:60 | two valid dates with the same ordinal are the same date |
| Calendar.PrevDay | scraper/scraper.py:60 | the day before a valid date other than 0001-01-01 is valid and has ordinal one less |
| Calendar.SubDays | scraper/scraper.py:97 | moving `n` days back succeeds exactly when the ordinal stays at least 1, and then lands on the valid date whose ordinal is `n` less |
| Calendar.TimeRoundTrip | scraper/scraper.py:95-98 | a valid time of day converts to microseconds and back unchanged |
| Calendar.LocalMicrosInjective | scraper/scraper.py:95-98 | two valid date-times with the same wall-clock microseconds and offset are equal |
| Calendar.SubtractMicros | scraper/scraper.py:95-98 | `dt - timedelta` succeeds exactly when the result stays at or after 0001-01-01 00:00; it then keeps the offset and lies exactly that many microseconds earlier, both on the wall clock and as an instant |
| Calendar.SubtractMonths | scraper/scraper.py:99 | `dt - relativedelta(months=n)` succeeds exactly when the year stays at least 1; it then keeps the time and offset, is exactly `n` calendar months earlier, and keeps the day unless that month is shorter, in which case the day becomes the month's last |
| Calendar.SubtractYears | scraper/scraper.py:100 | `dt - relativedelta(years=n)` succeeds exactly when the year stays at least 1; it then keeps month, time and offset, and keeps the day, except that 29 February becomes the 28th when the target year is not a leap year |
| Calendar.LeapDayYearsBack | scraper/scraper.py:100 | 29 February 2024 minus 4 years is 29 February 2020; minus 1 year it is 28 February 2023 |
| Calendar.MonthBeforeMarch31 | scraper/scraper.py:99 | one month before 31 March 2024 is 29 February 2024 |
| Text.Run | scraper/scraper.py:83-86 | a greedy `\d+`, `\s+`, `[A-Za-z]+` or `[\w\s]+` consumes exactly the maximal run of that class |
| Text.Strip | scraper/scraper.py:30-33 | `strip()` gives the middle part of the text without surrounding whitespace, and gives the empty string exactly when the text is all whitespace |
| Text.StripIdempotent | scraper/scraper.py:107 | stripping an already stripped text changes nothing |
| Text.Pad2Value | scraper/scraper.py:141 | a `%02d` field reads back as its number |
| Text.Pad4Value | scraper/scraper.py:141 | a `%04d` field reads back as its number |
| Cleaning.MatchLength | scraper/scraper.py:36-40 | a match of each boilerplate pattern at a position never runs past the end of the text |
| Cleaning.Substitute | scraper/scraper.py:44 | `re.sub` with a one-character replacement never lengthens the text |
| Cleaning.SubstituteNoMatch | scraper/scraper.py:44 | where a pattern matches nowhere, `re.sub` returns the text unchanged |
| Cleaning.ReplaceKeeps | scraper/scraper.py:44 | every character `re.sub` emits is the replacement space or a character of the input at which no match starts |
| Cleaning.NoBulletLeft | scraper/scraper.py:40-44 | no `•` is left after the `•` substitution |
| Cleaning.NoPipeLeft | scraper/scraper.py:40-44 | no pipe character is left after the pipe substitution |
| Cleaning.ReplaceSeparators | scraper/scraper.py:47 | the result has the same length; every comma, pipe and bullet becomes a space and every other character is kept |
| Cleaning.CleanedText | scraper/scraper.py:33-47 | the clean-up never lengthens the text it is given |
| Cleaning.CleanedTextShape | scraper/scraper.py:33-47 | the cleaned text holds no comma, pipe or bullet and no surrounding whitespace |
| Cleaning.RemovePatterns | scraper/scraper.py:42-44 | the pattern loop yields the patterns applied in order, each followed by a strip |
| Cleaning.CleanDateText | scraper/scraper.py:33-47 | the clean-up yields the cleaned text, which holds no separator |
| DateParser.Search | scraper/scraper.py:90-92 | `re.search(r'(\d+)\s+word')` finds the leftmost position where the pattern matches, with the number it captures; when it finds nothing, no position matches |
| DateParser.FirstSome | scraper/scraper.py:90 | the leftmost index holding a value, and no index before it does |
| DateParser.FirstHit | scraper/scraper.py:89-91 | the first pattern whose search succeeds, and all patterns before it failed |
| DateParser.Decided | scraper/scraper.py:82-92 | no unit is chosen exactly when no pattern matches; otherwise the unit and number of the first pattern in list order that matches |
| DateParser.HoursPatternWins | scraper/scraper.py:83-92 | text matching `(\d+)\s+hour` is read in hours whatever else it holds ("1 day 2 hours ago" is 2 hours) |
| DateParser.SubtractUnits | scraper/scraper.py:95-100 | going back by any unit never gives `None`; a result is a valid date-time with the clock's offset |
| DateParser.ParseRelativeTime | scraper/scraper.py:80-102 | `None` exactly when no pattern matches; a result is a valid date-time with the clock's offset |
| DateParser.RelativeFixedDuration | scraper/scraper.py:95-98 | hours, minutes, days and weeks give the instant exactly `n` units before now, and raise exactly when that passes 0001-01-01 |
| DateParser.RelativeMonths | scraper/scraper.py:99 | months give the date `n` calendar months back at the same time, the day clamped to the month's end; they raise exactly when the year drops below 1 |
| DateParser.RelativeYears | scraper/scraper.py:100 | years give the same month, day and time `n` years back, except that 29 February becomes the 28th when the target year is not a leap year; they raise exactly when the year drops below 1 |
| DateParser.MonthNumber | scraper/scraper.py:113-119 | a month name maps to a number in 1..12, and a name not in the dictionary (such as "Sept") maps to January |
| DateParser.YearAt | scraper/scraper.py:110 | `(\d{4})` matches exactly where at least four digits follow, and reads a number below 10000 |
| DateParser.DayCommaYear | scraper/scraper.py:110 | the `\s+(\d{1,2}),\s+(\d{4})` part reads a day below 100 and a year below 10000 |
| DateParser.MonthBranch | scraper/scraper.py:110 | a `Name DD, YYYY` match has a name of 3 to 9 letters, a day below 100 and a four-digit year |
| DateParser.SlashBranch | scraper/scraper.py:124 | a `P1/P2/YYYY` match has two fields below 100 and a four-digit year |
| DateParser.ManualParse | scraper/scraper.py:105-134 | `None` exactly when neither pattern matches the stripped text; `Name DD, YYYY` gives that date at noon, or raises if it does not exist; `P1/P2/YYYY` gives month-first if it exists, else day-first, else raises; every result is at noon in the configured zone |
| DateParser.SlashBranchReads | scraper/scraper.py:124-126 | `P1/P2/YYYY` with zero-padded fields reads back its three numbers and does not match the month-name pattern |
| DateParser.SlashMonthFirst | scraper/scraper.py:127-128 | "03/04/2024" is 4 March 2024 |
| DateParser.SlashDayFirst | scraper/scraper.py:129-130 | "13/09/2024" is 13 September 2024 |
| DateParser.SlashNeitherReading | scraper/scraper.py:127-130 | "31/02/2024" raises: neither reading is a date |
| DateParser.MonthAbbrev | scraper/scraper.py:141 | `%b` is three letters |
| DateParser.FormatDateForDisplay | scraper/scraper.py:137-141 | no date gives "N/A"; a date gives 12 characters: the month's three-letter abbreviation, a space, the day in two digits, a comma and a space, then the year in four digits |
| DateParser.DisplayExample | scraper/scraper.py:141 | 5 September 2024 displays as "Sep 05, 2024": `%b` is the capitalised English abbreviation |
| DateParser.MonthNumberOfAbbrev | scraper/scraper.py:113-119 | the `%b` abbreviation of every month maps back to that month |
| DateParser.MonthBranchReadsDisplay | scraper/scraper.py:110-112 | the `Name DD, YYYY` pattern reads a display string back field by field |
| DateParser.DisplayRoundTrip | scraper/scraper.py:105-141 | `manual_parse` of `format_date_for_display(dt)` is `dt`'s calendar date at noon in the configured zone |
| DateParser.Lift | scraper/scraper.py:95-100 | an arithmetic overflow becomes an escaping exception, never `None` |
| DateParser.Coerce | scraper/scraper.py:66-71 | a fuzzy result keeps its date; a naive one gets the configured offset; its time survives only when its date is today, otherwise it becomes noon |
| DateParser.AfterFuzzy | scraper/scraper.py:63-77 | what follows a fuzzy parse only ever yields a valid date-time |
| DateParser.ParseDate | scraper/scraper.py:28-78 | blank text gives `None`; every date returned is a valid date-time |
| DateParser.ParseDateRelative | scraper/scraper.py:53-54 | text containing "ago" after clean-up is exactly `parse_relative_time` of the cleaned text |
| DateParser.ParseDateToday | scraper/scraper.py:57-58 | "today" is noon of the current date, in the clock's zone |
| DateParser.OneDayBack | scraper/scraper.py:60 | subtracting one day succeeds exactly when the date is not 0001-01-01, and gives the previous day at the same time and offset |
| DateParser.ParseDateYesterday | scraper/scraper.py:59-60 | "yesterday" is noon of the previous calendar day in the clock's zone, and raises exactly on 0001-01-01 |
| DateParser.ParseDateFuzzy | scraper/scraper.py:64-71 | a fuzzy result keeps its date and offset (a naive one gets the configured zone); its time of day survives only when the date is today, otherwise it becomes noon |
| DateParser.MonthBranchNeedsComma | scraper/scraper.py:110 | text matching `Name DD, YYYY` contains a separator |
| DateParser.FallbackNeverReadsMonthNames | scraper/scraper.py:110-121 | the month-name branch of the fallback never matches text cleaned by `parse_date`, because line 47 turned every comma into a space |
| DateParser.ParseDateFallback | scraper/scraper.py:73-77 | after a `ValueError` nothing escapes; only `P1/P2/YYYY` gives a date, month-first if it exists, else day-first; anything else gives `None` |
| DateParser.ParseDateOtherError | scraper/scraper.py:63-77 | any other exception of the fuzzy parser escapes `parse_date` |
| Slicing.Prefix | scraper/scraper.py:217 | `xs[:k]` is a prefix of `xs`: of length `min(k, len(xs))` for `k >= 0`, and all but the last `-k` elements for negative `k` |
| LinkStore.Table.Exists | scraper/scraper.py:341 | a link is reported as existing exactly when it is stored |
| LinkStore.Table.Create | scraper/scraper.py:346-355 | creating an article adds its link and nothing else |
| LinkStore.Inserted | scraper/scraper.py:335-366 | a save never removes a stored link |
| LinkStore.InsertedSpec | scraper/scraper.py:335-366 | after a save the stored links are the old ones plus every link of the batch; the count is exactly the number of links that were new, which is at most the batch size |
| LinkStore.InsertedAppend | scraper/scraper.py:338-361 | saving `a` and then `b` is saving `a + b`, with the counts added |
| LinkStore.InsertedStep | scraper/scraper.py:338-356 | one loop step adds the link, and counts it exactly when it was not stored |
| LinkStore.InsertedIdempotent | scraper/scraper.py:341-343 | saving the same batch again inserts nothing |
| LinkStore.RepeatedLinkStoredOnce | scraper/scraper.py:341-361 | a new link appearing twice in one batch is stored and counted once |
| NewsScraper.LoadConfig | scraper/scraper.py:173-191 | a config loads exactly when the file is a JSON object with both `base_url` and `article`; it then keeps the base URL, selectors and limit |
| NewsScraper.IsValid | scraper/scraper.py:328-333 | the two truthiness tests add nothing: validity is a title longer than 10 characters and a link starting with `http` |
| NewsScraper.IsRecent | scraper/scraper.py:225-226 | a record is recent exactly when it has a publication date whose instant (wall clock shifted by its own UTC offset) is not before the cutoff |
| NewsScraper.RecencyMonotone | scraper/scraper.py:225-226 | a record recent for a later cutoff is recent for every earlier one |
| NewsScraper.Classify | scraper/scraper.py:222-248 | a record is admitted exactly when it is valid, its link is not stored and it is recent. Otherwise it is rejected as invalid, as a duplicate, or as stale, in that order of precedence |
| NewsScraper.AdmittedOf | scraper/scraper.py:217-248 | the admitted records are exactly the records that classify as admitted, and there are no more of them than records |
| NewsScraper.AdmittedOfAppend | scraper/scraper.py:217-248 | admission judges each record on its own: filtering `a + b` is filtering `a`, then `b` |
| NewsScraper.SameLinkAdmittedTwice | scraper/scraper.py:224-230 | two admitted records with the same new link are both admitted; saving them stores and counts the link once |
| NewsScraper.CutoffWindow | scraper/scraper.py:151 | against the cutoff 25 hours before the clock, an article published 24 hours before `now` is recent and one published 26 hours before is stale |
| NewsScraper.RecencyBoundary | scraper/scraper.py:225-226 | a record published exactly at the cutoff is recent; one a microsecond earlier is not |
| NewsScraper.TitleLengthBoundary | scraper/scraper.py:328-333 | a 10-character title is invalid and an 11-character title is valid |
| NewsScraper.SavedLinks | scraper/scraper.py:346-347 | the links the save loop can create, in order, are no more than the articles |
| NewsScraper.SavedLinksSpec | scraper/scraper.py:346-347 | a link is offered to the table exactly when some article with a source carries it; an article without `source` fails at `create` with `KeyError` |
| NewsScraper.SaveStep | scraper/scraper.py:338-363 | one loop step offers the link of an article with a source, counted exactly when it was not stored, and leaves everything unchanged for an article without one |
| NewsScraper.RerunAdmitsNothing | scraper/scraper.py:224-226 | once a batch's links are stored, the same records admit nothing, however late the later cutoff |
| NewsScraper.Considered | scraper/scraper.py:205-217 | no containers are read if navigation fails or the `container` selector is missing; otherwise the first `limit` of them (default 20), read as a Python slice |
| NewsScraper.SiteArticlesAdmitted | scraper/scraper.py:217-248 | every article of a site comes from its considered containers and is valid, new and recent |
| NewsScraper.BatchArticles | scraper/scraper.py:374-378 | every article in the batch is valid, new and recent |
| NewsScraper.BatchTakesLoadedConfig | scraper/scraper.py:374-378 | a config that loads appends its site's articles to the batch, after those of the earlier files |
| NewsScraper.BatchArticlesSpec | scraper/scraper.py:374-378 | an article is in the batch exactly when it is one of the site articles of some config file that loads |
| NewsScraper.BatchSkipsBadConfig | scraper/scraper.py:375-376 | a config that does not load adds nothing to the batch |
| NewsScraper.GenericNewsScraper.constructor | scraper/scraper.py:145-151 | the existing links are those stored, and the cutoff is 25 hours before now |
| NewsScraper.GenericNewsScraper.ScrapeWebsite | scraper/scraper.py:193-260 | the articles returned are the admitted records among the considered containers, in order |
| NewsScraper.GenericNewsScraper.SaveArticles | scraper/scraper.py:335-366 | the table and the count are those of `Inserted` over the links of the articles that have a source; the existing links grow by exactly the links inserted |
| NewsScraper.GenericNewsScraper.RunAllScrapers | scraper/scraper.py:368-387 | the count found is the size of the batch; an empty batch changes nothing; otherwise the batch's links that have a source are saved as `Inserted` states; in every case the existing links grow by exactly the links inserted, and no more articles are saved than found |
| SimpleScraper.Keeps | scraper/simple_scraper.py:88-90 | an element is kept exactly when its title is longer than 10 characters and its link is non-empty; the title's truthiness test adds nothing |
| SimpleScraper.Kept | scraper/simple_scraper.py:48-96 | an article is kept exactly when an element has that title and link, the title is longer than 10 characters and the link is not empty; there are no more articles than elements |
| SimpleScraper.KeptAppend | scraper/simple_scraper.py:48-96 | the loop judges each element on its own |
| SimpleScraper.FaultIsolation | scraper/simple_scraper.py:94-96 | an element whose extraction raises costs only that element |
| SimpleScraper.SiteArticlesCapped | scraper/simple_scraper.py:48-91 | at most 15 articles, each from one of the first 15 containers |
| SimpleScraper.ScrapeWebsite | scraper/simple_scraper.py:22-103 | the articles returned are the kept elements among the first 15, or none when the page fails |
| SimpleScraper.Links | scraper/simple_scraper.py:111 | the link of each article, in order |
| SimpleScraper.SaveArticles | scraper/simple_scraper.py:105-131 | the table and the count are those of `Inserted` |

## Left out

- The browser (Playwright): launching, navigation, waiting and `query_selector_all`. A page is a parameter: either failed, or the records already extracted, in order.
- `extract_article_data`: the selector lookups, `urljoin` and the date extraction per container. A record holds the title, the link, the parsed publication date and whether `source` was set. `source` is the last field set inside the extraction's `try`, so an exception in the image, author or snippet lookup leaves a record that can be admitted but then fails at `create` with `KeyError`; the model follows that path (`NewsScraper.SavedLinks`). The image, author and snippet values themselves are not read by any modelled decision.
- dateutil's fuzzy parser is an oracle parameter. Every date-time it returns is required to be a real one, and its own format rules are not modelled.
- Time zones are fixed UTC offsets. Daylight-saving transitions and the tz database are not modelled, and `make_aware` attaches the configured offset.
- `\d`, `\w` and `re.IGNORECASE` are restricted to ASCII. Unicode digits, word characters and case folding are not modelled. `\s` and `strip()` use Python's full whitespace set.
- `%Y` is written as 4 zero-padded digits, which is platform-dependent for years below 1000.
- The clock: `parse_date` and `parse_relative_time` each call `timezone.now()`. The model passes the same `now` to both, as the two calls are microseconds apart.
- NewsScraper.GenericNewsScraper.constructor: the `OverflowError` of `now - timedelta(hours=25)` is not modelled; it hits every `now` before 0001-01-02 01:00, 25 hours after the earliest `datetime`. The cutoff is kept as an integer instant.
- `get_all_configs` and `get_existing_links` are not modelled: the list of config files is a parameter, and the stored links are read from the table.
- `NewsScraper.LoadConfig`: a JSON value of the wrong type (for instance a non-integer `limit`, or an `article` value that is not an object) is not modelled.
- Database errors in `save_articles` and their `except` branches are not modelled. `Exists` and `Create` always succeed.
- All `print` output, `time.sleep`, and `browser.close()` are left out.
- The module-level `NewsArticle.objects.all().delete()`, the config-file reading and `main` of scraper/simple_scraper.py are left out.
- `main` of scraper/scraper.py is left out.
- The Django app files (newsapp/) are not part of this model.
- Concurrency: none is present in the source.
