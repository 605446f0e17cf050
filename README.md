# news-scraping, modelled in Dafny

The scraper in `main.py` fetches a fixed list of RSS feeds. For each feed it
turns every entry into an article record with the fields source, country,
title, link, published and summary, and concatenates the records feed by
feed. It then writes the list to three sinks, each with its own way of
handling duplicate links:

- a CSV file keeps the first record per link (`drop_duplicates(subset='link')`);
- a JSON file keeps the last value per link, at the position of the link's first appearance (a dict comprehension);
- an SQLite table keyed by link is filled with `INSERT OR IGNORE`, so a stored row is never overwritten.

The Dafny project models that record logic. It has one module per concern:

- `Text`: Python's `str.strip()`, with the full `str.isspace()` character set.
- `Timestamp`: the `datetime(*t[:6])` constructor's range checks, `isoformat()`, and a reader of the ISO form used as its inverse.
- `Entries`: the `Article` record and `parse_entries`. `Normalize` is one entry; the `ParseEntries` method is the loop.
- `Aggregation`: the collection loop of `main`. A failed fetch contributes an empty feed.
- `Dedup`: the CSV policy (`KeepFirstByLink`) and the JSON policy (`KeepLastByLink`, via an insertion-ordered link index).
- `Store`: the SQLite policy. It has a pure `InsertAll` and the `ArticleStore` class, whose `SaveToSqlite` method updates the persistent table in place.
- `Pipeline`: one run of `main`.

The network and the HTML-to-text step are parameters:

- `fetch: FeedSource -> FetchOutcome` answers each feed request with its parsed entries or a failure;
- `extract: string -> string` stands for `BeautifulSoup(..., 'html.parser').get_text()`.

## Model

| member | source | states |
|---|---|---|
| Text.Trim | main.py:55-57 | `strip()` never leaves whitespace at either end and never lengthens the text |
| Text.TrimSpec | main.py:55-57 | `strip()` removes a run of whitespace from each end and keeps the middle of the text intact |
| Text.TrimUnique | main.py:55-57 | any cut of surrounding whitespace that leaves stripped text is exactly `strip()`'s result |
| Text.TrimOfStripped | main.py:55-57 | text that is already stripped is returned unchanged |
| Text.TrimIdempotent | main.py:55-57 | stripping twice is the same as stripping once |
| Timestamp.DaysInMonth | main.py:60 | February has 29 days exactly in Gregorian leap years and 28 otherwise; April, June, September and November have 30; the rest have 31 |
| Timestamp.FromParsed | main.py:60 | `datetime(*t[:6])` succeeds exactly when t has at least 3 components, year is 1..9999, month is 1..12, day fits the month, and the hour, minute and second that are present lie in 0..23, 0..59 and 0..59; the result carries those components, missing ones 0 |
| Timestamp.FormatIso | main.py:61 | `isoformat()` is 19 characters with `-`, `-`, `T`, `:`, `:` at positions 4, 7, 10, 13 and 16 |
| Timestamp.IsoRoundTrip | main.py:61 | reading the ISO string back gives the same date-time |
| Timestamp.FormatIsoInjective | main.py:61 | distinct valid date-times render to distinct strings |
| Entries.FallbackPublished | main.py:57 | the text timestamp never starts or ends with whitespace; `PublishedFallback` gives its published, then updated, then "" choice |
| Entries.PublishedOf | main.py:57-63 | published after the `try` is stripped and is either the text fallback or a 19-character ISO string; `PublishedFallback` and `PublishedFromStructuredTime` say which applies when |
| Entries.Normalize | main.py:55-73 | an article carries the given source and country, and its title, link, published and summary never start or end with whitespace; `TitleAndLinkTrimmed`, `SummaryExtracted`, `PublishedFallback` and `PublishedFromStructuredTime` say where each field comes from |
| Entries.NormalizeFeed | main.py:52-74 | one article per entry |
| Entries.ParseEntries | main.py:50-74 | the loop returns exactly the entries' normalised articles, in entry order, each with the given source and country |
| Entries.TitleAndLinkTrimmed | main.py:55-56 | title and link are the entry's value with surrounding whitespace removed, or empty when the key is absent |
| Entries.SummaryExtracted | main.py:64 | summary is the text extracted from the entry's `summary` markup, or from "" when the key is absent, with only surrounding whitespace cut off |
| Entries.PublishedFallback | main.py:57-63 | without a convertible structured time, published is the trimmed `published` text, else the trimmed `updated` text, else empty |
| Entries.PublishedFromStructuredTime | main.py:59-61 | with a structured time that forms a valid date-time, published is its 19-character ISO form and reads back as that date-time |
| Entries.ValidTimeExample | main.py:59-61 | (2024,3,15,9,30,0,...) gives "2024-03-15T09:30:00", replacing the text value |
| Entries.InvalidTimeExamples | main.py:59-63 | month 13 keeps the `updated` text; 30 February 2023 with no text gives "" |
| Aggregation.FetchFeed | main.py:39-47 | a failed fetch yields no entries; a successful one yields the parsed entries |
| Aggregation.FeedArticlesOrigin | main.py:118-119 | a feed contributes one article per fetched entry, each labelled with the feed's source and country |
| Aggregation.Collected | main.py:114-120 | the list `main` builds; `Aggregate` proves the loop computes it, and `CollectedAppend`, `FeedInPlace` and `FailedFeedContributesNothing` give its feed-by-feed structure |
| Aggregation.Aggregate | main.py:114-121 | the loop's list is the concatenation of every feed's articles, in configuration order |
| Aggregation.FlattenAppend | main.py:120 | extending feed by feed distributes over splitting the feed list |
| Aggregation.CollectedAppend | main.py:116-120 | collecting two runs of feeds one after the other concatenates their articles |
| Aggregation.FeedInPlace | main.py:116-120 | feed i's articles sit between those of all earlier feeds and those of all later feeds |
| Aggregation.FailedFeedContributesNothing | main.py:41-47 | a feed whose fetch fails adds no article, and every later feed is still collected |
| Dedup.FirstIndex | main.py:78 | the position of a link's first occurrence: it carries the link and no earlier record does |
| Dedup.LastIndex | main.py:84 | the position of a link's last occurrence: it carries the link and no later record does |
| Dedup.KeepFirstByLink | main.py:78 | the CSV rows are never more than the input records; `KeepFirstSpec` characterises them completely |
| Dedup.KeepFirstCovers | main.py:77-78 | the CSV rows carry exactly the input's links |
| Dedup.KeepFirstDistinct | main.py:77-78 | no link occurs twice among the CSV rows |
| Dedup.KeepFirstPicksFirst | main.py:77-78 | each CSV row is the input's first record with that link |
| Dedup.KeepFirstOrdered | main.py:77-78 | CSV rows keep the input order, so the output is a subsequence of the input |
| Dedup.KeepFirstSpec | main.py:77-78 | all four CSV properties together: covering, distinct, first occurrence, input order |
| Dedup.Assign | main.py:84 | one dict assignment: the link now maps to the new record, other keys keep their values, no other key appears, and existing keys keep their places with a new key, if any, appended |
| Dedup.BuildIndex | main.py:84 | every key in the dictionary's order has a value; `BuildIndexKeys`, `BuildIndexValues` and `BuildIndexOrder` give its keys, values and order |
| Dedup.KeepLastByLink | main.py:84-86 | the records `list(unique.values())` yields, in key order; `KeepLastSpec` characterises them completely |
| Dedup.BuildIndexKeys | main.py:84 | the dictionary's keys are exactly the input's links |
| Dedup.BuildIndexValues | main.py:84 | the dictionary maps each link to the last input record with that link |
| Dedup.BuildIndexOrder | main.py:84 | the dictionary keeps its keys in order of first insertion, the same order as the CSV rows' links |
| Dedup.KeepLastLinks | main.py:84-86 | the JSON records list the same links in the same order as the CSV rows |
| Dedup.KeepLastAt | main.py:84-86 | each JSON record is the input's last record with its link |
| Dedup.KeepLastSpec | main.py:84-86 | JSON records cover every input link, are distinct by link, hold the last value per link, and are ordered by first appearance |
| Dedup.DistinctKeepFirstUnchanged | main.py:77-78 | input whose links are already distinct passes through the CSV dedup unchanged |
| Dedup.DistinctInputUnchanged | main.py:77-86 | input whose links are already distinct passes through both file dedups unchanged |
| Store.InsertOne | main.py:105-109 | one `INSERT OR IGNORE`: the keys are the old ones plus the article's link, stored rows are never overwritten, and an absent link gets the article's row |
| Store.InsertAll | main.py:104-109 | the table after inserting every article in order; `InsertAllSpec` and `InsertAllIdempotent` characterise it |
| Store.InsertAllKeys | main.py:104-109 | afterwards the table's keys are its old keys plus every input link |
| Store.InsertAllKeepsExisting | main.py:104-109 | a row that was already stored is never overwritten |
| Store.InsertAllNewRows | main.py:104-109 | a link new to the table ends up holding the first input record with that link |
| Store.InsertAllSpec | main.py:93-109 | the three insert-or-ignore properties together |
| Store.InsertAllStored | main.py:104-109 | inserting records whose links are all stored already changes nothing |
| Store.InsertAllIdempotent | main.py:104-109 | running the SQLite save twice on the same data leaves the table as the first run left it |
| Store.FreshTableHoldsFirstSeen | main.py:77-109 | into an empty table, the SQLite insert loop (lines 104-109) stores exactly the links, with the same rows, that the CSV writer (lines 77-78) keeps: the first article of each link |
| Store.ArticleStore.constructor | main.py:90 | a database file that does not exist yet has no table and no rows |
| Store.ArticleStore.SaveToSqlite | main.py:89-109 | the table exists afterwards, and its rows are the old rows with every input record inserted or ignored in order |
| Pipeline.RunPipeline | main.py:113-126 | one run writes the first-seen rows to CSV and the last-seen records to JSON, and inserts or ignores every collected article into the persistent table |

## Left out

- HTTP fetching with `requests`, its 10-second timeout and `raise_for_status`: network I/O. The model takes each feed's outcome from the `fetch` parameter, so the same descriptor always gets the same answer within a run.
- XML parsing by `feedparser`: a foreign library. Its parsed entries are the model's input (`RawEntry`). Any aliasing between feedparser's `updated` and `published` keys is not modelled; the keys are taken as the mapping holds them.
- `BeautifulSoup(...).get_text()` and the warning filter: a foreign library. It is the uninterpreted `extract` parameter, followed by `strip()`.
- File and database I/O: writing the CSV with pandas, serialising the JSON with indent and `ensure_ascii=False`, and SQLite connect, commit and close. Only each sink's dedup semantics are modelled. The table's column layout is the `Row` datatype keyed by link.
- `time.sleep(1)` and all `print` diagnostics: timing and logging.
- The contents of the `FEEDS` list: static configuration, so the feed list is a parameter.
- Exceptions other than the ones the source catches: a `sqlite3` error or a full disk would abort the run, and the model does not represent that.
