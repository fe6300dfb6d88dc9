# finam.ru news scraper — a Dafny model

`app.py` gathers financial news from finam.ru into a CSV dataset, one calendar day at a time.
- Each day it opens four dated listing sections (company news, market news, forecasts, international markets) in a browser. It expands each listing, locates every item through the page's CSS class sets and turns each item into a five-field record (link, date, source, title, description).
- It then reads one RSS feed and keeps the entries published exactly at the day's starting instant.
- It appends the day's records to `news_2024.csv`.
- A later run resumes on the day after the newest stored date.

The model covers the parts of the program that decide what is collected and what is stored. The browser and the libraries appear only as the values they return.

| file | module | what it holds |
|---|---|---|
| `wrappers.dfy` | `Wrappers` | `Option` |
| `text.dfy` | `Text` | Python's `str.split()`, `str.replace`, and the greedy digit run of `\d+` |
| `dates.dfy` | `Dates` | Gregorian dates with `timedelta(days=1)` stepping, Python's day numbers, `%Y-%m-%d` formatting and parsing, the dated listing URL |
| `class_match.dfy` | `ClassMatch` | `test_class` and `find_multiclass_elements` |
| `transformer.dfy` | `Transformer` | the per-page-load identifier templates, and `find_transformer_num` as a leftmost search |
| `dataset.dfy` | `Dataset` | the dataset file (absent, or a sequence of rows), `save_data` as a `Store` class, `get_start_date` |
| `day.dfy` | `Day` | `scrap_one_day`: item extraction, the section loop with its failure scope, the feed filter and the save |
| `crawl.dfy` | `Crawl` | `scrap_all`: the day walk from the resume date up to the end date |

The browser is modelled as data.
- A `Site` holds what navigating to a URL yields (`open`), the feed as read for the day, the DOM queries, and the HTML-to-text conversion.
- A `Page` holds the page source, whether expanding the listing with a given "load more" id completes, and the lookup by element id.
- Elements are of an opaque type `E`.
- A lookup that raises in the program is `None` in the model.

`scrap_all` is modelled with these inputs:
- a function `sites` giving the `Site` met on each day;
- a function `instant` giving each day's starting instant;
- the end date (`datetime.now()`).

The dataset file is the one piece of mutable state (`Dataset.Store`).

Three behaviours of the code worth knowing:
- A file that exists but holds no rows gives a NaT start date (pandas' maximum of nothing, plus one day). The crawl then visits no day, because NaT compares false with every date. See `Dataset.StartDate`, `Dataset.EmptyFirstSaveLosesDefault` and `Crawl.NoRowsNoPlan`.
- The title and link of an item come from the last `a` element with text, because the title loop overwrites them.
- A section that fails part-way keeps the records it already appended, because they are in the day's shared `news` list.

## Model

| member | source | states |
|---|---|---|
| Text.Split | app.py:49-50 | every token `str.split()` yields is non-empty and free of whitespace |
| Text.SplitJoin | app.py:49-50 | splitting a space-joined list of tokens gives back exactly that list |
| Text.SplitEmptyIffBlank | app.py:49-50 | a string splits into no tokens exactly when it is whitespace only |
| Text.SplitWord | app.py:49-50 | a single token splits into itself |
| Text.DigitRun | app.py:88 | the greedy `\d` run is a prefix of the text, all digits, and stops at the end or at a non-digit |
| Text.DigitRunOf | app.py:88 | digits followed by a non-digit (or nothing) yield exactly those digits |
| Text.Replace | app.py:96 | `str.replace`: every occurrence, scanned left to right, replaced without rescanning the inserted text; `Text.ReplaceSingle` and `Transformer.NewsContainerId` state its result on the templates |
| Text.ReplaceSingle | app.py:95-101 | replacing a pattern that occurs once, whose first letter occurs nowhere else, substitutes exactly that occurrence |
| Dates.NextDay | app.py:232 | the next calendar day is a valid date |
| Dates.NextDayOrdinal | app.py:232 | the next day's number is one more: no day is skipped or repeated |
| Dates.OrdinalOrder | app.py:230 | date comparison agrees with day-number comparison, and equal day numbers mean equal dates |
| Dates.Format | app.py:157 | `%Y-%m-%d` text is ten characters long |
| Dates.Parse | app.py:45 | a successful parse gives a valid date |
| Dates.ParseFormat | app.py:157 | parsing the formatted date gives the date back |
| Dates.FormatParse | app.py:45 | formatting a parsed date gives the parsed text back |
| Dates.DefaultStart | app.py:45 | the default start parses to 2024-01-01 |
| Dates.DayUrl | app.py:157 | a day's URL is eleven characters longer than the base |
| Dates.DayUrlParts | app.py:157 | a day's URL starts with the base, ends with `/`, and its ten characters in between parse back to the day |
| Dates.DayUrlInjective | app.py:157 | two days with the same URL on the same base are the same day |
| ClassMatch.TestClass | app.py:48-54 | the loop answers true exactly when every token of the first class string is a token of the second |
| ClassMatch.BlankMatchesAll | app.py:48-54 | a blank wanted class string matches any class attribute |
| ClassMatch.TokensOfJoined | app.py:48-54 | for space-joined token lists the test is set inclusion: order and extra tokens do not matter |
| ClassMatch.WholeTokensOnly | app.py:48-54 | one token matches another only when they are equal: a substring does not count |
| ClassMatch.GatherSpec | app.py:59-66 | appending "if it passes and is not there yet" keeps exactly the passing elements, each once |
| ClassMatch.GatherOrder | app.py:59-66 | the kept elements appear in the order they were first met |
| ClassMatch.LookupsContain | app.py:62-63 | an element was looked up exactly when some token's lookup returned it |
| ClassMatch.MulticlassElements | app.py:58-68 | what `find_multiclass_elements` returns: the passing elements of the per-token lookups, each once, in order of discovery; the four lemmas below state this |
| ClassMatch.MulticlassSound | app.py:58-68 | every returned element passes `test_class` and came from a lookup of one of the tokens |
| ClassMatch.MulticlassComplete | app.py:58-68 | every passing element found by any token's lookup is returned |
| ClassMatch.MulticlassOrdered | app.py:58-68 | no element is returned twice, and the result follows the order of first discovery |
| ClassMatch.MulticlassBlank | app.py:60-62 | a blank class string yields no elements |
| ClassMatch.AppendPassing | app.py:63-66 | the inner loop extends the collected list to what gathering the earlier lookups plus this one gives |
| ClassMatch.FindMulticlassElements | app.py:58-68 | the nested loops return exactly the gathered result, with every property above |
| Transformer.PlaceholderOnlyOnce | app.py:29-31 | the placeholder `NUMBER` starts with a letter that occurs nowhere else in the templates |
| Transformer.NewsContainerId | app.py:95-96 | the container id is the fixed prefix, the number, then `-wrapper` |
| Transformer.LoadMoreId | app.py:100-101 | the "load more" id is the fixed prefix, the number, then `-load` |
| Transformer.MatchAtSound | app.py:88 | a match at a position is the prefix, a non-empty digit run, then `-wrapper` |
| Transformer.MatchAtComplete | app.py:88 | every such occurrence is matched at its position, with its full digit run |
| Transformer.MatchAtIff | app.py:88 | matching at a position succeeds with `d` exactly when the wrapper id with `d` occurs there |
| Transformer.FirstHit | app.py:88 | the leftmost scan answers a position from the start to one past the end |
| Transformer.FirstHitSpec | app.py:88 | the scan stops at the first hit, and past the end only when there is none |
| Transformer.FindTransformerNum | app.py:85-91 | the digit group of the leftmost wrapper id in the page source, or none; `FindNoneIff`, `FindLeftmost` and `FindInvertsNewsContainerId` state this |
| Transformer.FindNoneIff | app.py:88-91 | no number is found exactly when the page holds no wrapper id |
| Transformer.FindLeftmost | app.py:88-91 | a found number is a non-empty digit string taken from the leftmost wrapper id |
| Transformer.FindInvertsNewsContainerId | app.py:88-96 | on a page whose first wrapper id is `news_container_id(n)`, the search returns `n` |
| Transformer.FindsOwnNumber | app.py:88-96 | the search recovers the number from the container id alone |
| Transformer.LoadMoreIdNeverMatches | app.py:88-101 | a "load more" id is never taken for a wrapper id |
| Transformer.BareIdNeverMatches | app.py:88 | the bare transformer id, followed by anything but a digit or `-`, is never matched |
| Dataset.Store.constructor | app.py:17 | the store starts with the file as found |
| Dataset.Store.Save | app.py:136-145 | saving makes the file exist and hold the old rows followed by the new ones |
| Dataset.Saved | app.py:136-145 | the file after a save exists and holds the old rows followed by the new ones; `SaveAppends` states it row by row |
| Dataset.ValidDatesConcat | app.py:143 | joined rows have real dates exactly when both parts do |
| Dataset.SaveAppends | app.py:140-145 | after a save the row count is the sum, old rows stay in place, and new rows follow in order |
| Dataset.SaveTwice | app.py:143 | two saves in a row append both batches in order |
| Dataset.Latest | app.py:42 | the newest stored date is one of the stored dates and no stored date is later |
| Dataset.StartDate | app.py:37-45 | no file gives 2024-01-01; a file without rows gives NaT; otherwise the day after the newest stored date, which is after every stored date |
| Dataset.StartDateIsLatestPlusOne | app.py:42 | any day after every stored date that follows one stored date is the start date |
| Dataset.EmptySaveKeepsStart | app.py:136-145 | saving an empty batch onto an existing file changes neither its rows nor the resume date |
| Dataset.EmptyFirstSaveLosesDefault | app.py:39-42 | an empty first save turns the default start into NaT |
| Dataset.ResumeAfterDay | app.py:37-45 | after saving a non-empty batch for the newest day, the next run starts on the day after |
| Day.LastAnchorSpec | app.py:178-181 | no title anchor gives none; otherwise the result is an anchor with no anchor after it |
| Day.ItemRecord | app.py:170-196 | one item's record: title and link of the last anchor with text, source from the first label's `span`, description from the first text block, `""` where nothing is found; none when the label has no `span`. `ItemRecordDay` and `ItemRecordFields` state the date, the `""` defaults and a non-empty title when there is an anchor; `LastAnchorSpec` and `TitleAndLink` state which anchor gives title and link; the source from the label's `span`, the description from the first block and the none case are the definition itself, which `ExtractItem` is proved equal to |
| Day.ItemRecordDay | app.py:192 | an item's record carries the collection day |
| Day.TitleAndLink | app.py:176-181 | the title loop leaves the text and link of the last anchor with text, or empty strings |
| Day.ExtractItem | app.py:170-196 | the item steps give the item's record, or fail when the source label has no `span` |
| Day.ItemRecordFields | app.py:171-196 | a record carries the collection date, an empty title and link without an anchor, a non-empty title with one, an empty source without a label, and an empty description without a text block (given that HTML-to-text maps `""` to `""`) |
| Day.SectionItems | app.py:159-168 | a section's item blocks, or none when navigation, the number search, expansion or the container lookup fails; `UnavailableSectionEmpty` states the first two cases |
| Day.SectionRecordsPerItem | app.py:170-197 | each item gets one record in item order; the loop stops at the first failing item and the records before it stay |
| Day.CollectSection | app.py:170-196 | the item loop appends exactly the section's records |
| Day.DayUrlsOfDay | app.py:154-157 | each of the day's URLs starts with its page link, ends with `/`, and its date part parses back to the day |
| Day.DayUrlsDistinct | app.py:157 | different days never share a section URL |
| Day.ListingRecordsAppend | app.py:154-198 | the listing of two runs of sections is the first run's records followed by the second's |
| Day.FailedSectionIsolated | app.py:159-198 | a section that contributes nothing leaves the other sections' records as they are |
| Day.UnavailableSectionEmpty | app.py:159-167 | a section whose navigation fails or whose number is missing contributes nothing |
| Day.SectionRecordsDated | app.py:191-192 | every record of a section carries the collection date |
| Day.SectionAtDated | app.py:191-192 | every record of a section URL carries the collection date |
| Day.ListingRecordsDated | app.py:154-196 | records of sections that all carry the day still carry it once joined |
| Day.ListingRecordsOfDay | app.py:154-196 | every listing record of the day carries the collection date |
| Day.FeedRecords | app.py:209-222 | the feed entries published at the day's starting instant, as records in feed order; `FeedRecordsFiltered` states which records occur, `FeedRecordsAppend` and `FeedRecordsOne` state one record per matching entry in feed order |
| Day.FeedRecordsFiltered | app.py:209-222 | a feed record is kept exactly when its entry was published at the day's starting instant |
| Day.FeedRecordsAppend | app.py:209-222 | the records of a feed split in two are the first part's records followed by the second's: order is the feed's |
| Day.FeedRecordsOne | app.py:210-222 | one entry gives exactly its record when published at the instant, and nothing otherwise |
| Day.FeedRecordsValid | app.py:214-218 | feed records carry their entries' days, so they have real dates |
| Day.DayRecords | app.py:151-224 | what one day saves: the listing records in page-link order followed by the feed records |
| Day.CollectListing | app.py:154-198 | the section loop collects the sections' records in page-link order, all with real dates |
| Day.CollectFeed | app.py:209-222 | the feed loop collects the entries published at the day's start, in feed order |
| Day.ScrapOneDay | app.py:150-224 | the day is saved exactly when the feed reads; the file then gains the listing records followed by the feed records; otherwise nothing changes; a file with real dates keeps them |
| Crawl.Walk | app.py:230-232 | the days the loop visits from a start to an end; `WalkSpec`, `WalkSteps` and `WalkShape` state this |
| Crawl.WalkSpec | app.py:230-232 | the walk holds one day per day number from the start to the end, and is empty when the start is after the end |
| Crawl.WalkSteps | app.py:230-232 | each walked day is followed by the next calendar day; days strictly ascend, so none repeats; none is after the end |
| Crawl.WalkShape | app.py:230-232 | the walk is empty exactly when the start is after the end, and otherwise runs from the start to the end in one-day steps |
| Crawl.WalkSplit | app.py:230-232 | a walk splits at any day into the walk up to it and the walk from the next day |
| Crawl.SavesDetermined | app.py:231 | the file after the crawl depends on the collected days only |
| Crawl.SavesAppend | app.py:231 | collecting days never removes or changes earlier rows |
| Crawl.PlanAfterStored | app.py:228-230 | every day a resumed crawl plans is after every stored date |
| Crawl.NoRowsNoPlan | app.py:228-230 | a file without rows makes the crawl plan no day |
| Crawl.NoFilePlan | app.py:228-230 | without a file the crawl plans 2024-01-01 up to the end date |
| Crawl.CrawlDay | app.py:231 | one turn saves the day's records after the earlier days', or changes nothing when the feed fails; real dates stay real |
| Crawl.CrawlFrom | app.py:230-232 | the loop visits the walk from the first day to the end and saves each day in order; on a feed failure it stops on that day, having visited a prefix of the walk and saved the days before it; a file with real dates keeps them |
| Crawl.ScrapAll | app.py:227-232 | the crawl visits the days from the resume date up to the end date and appends each day's records in order, stopping at the first day whose feed fails; the file it leaves has real dates, as the next run requires |

## Left out

- Browser driving is not modelled: starting the driver (app.py:33-34), `wait_page_ready` (an unbounded poll), `try_click` (a retry loop with a bare `except`) and `driver.back()`. `load_news_page` appears only as `Page.expands`, which says whether expansion with a given "load more" id completes. Its polling and clicking are outside the model, and so is a listing that never finishes expanding.
- `has_more` (app.py:104-107) is not modelled. It is never called, and it compares a string attribute with the integer 1.
- `TOP_CONTAINER_ID` (app.py:29) is never used by the program. Only the identifier prefix it shares with the other templates is modelled.
- Logging (app.py:15 and every `logging` call) is not modelled.
- `feedparser.parse`, `dateutil.parser.parse` and `html_text.extract_text` are opaque.
  - A feed is a list of entries, each with its instant and its calendar day.
  - HTML-to-text is the function `Site.plainText`.
  - A feed whose page cannot be opened, or one of whose entries lacks a field or has a `published` text that `dateutil` cannot read, is `Feed.Unreadable`. A document that `feedparser` cannot parse raises nothing: it is the list of entries it did read, possibly none.
- CSV encoding, pandas' quoting and type inference, and the read-back of the file are not modelled. The file is a sequence of rows.
- The clock and time zones are inputs:
  - `datetime.now()` is the end date;
  - each day's starting instant is the function `instant`, which depends on the run: starting from the default date the day is a `datetime` (app.py:45) whose `.timestamp()` is local midnight, while on a resumed run it is a naive pandas `Timestamp` (app.py:42) whose `.timestamp()` is UTC midnight;
  - the comparison with `tzinfo` at app.py:216 is equality of integer instants.
- Feed entries are assumed to carry real calendar days (`Day.DatedFeed`), as the parser's dates always are; HTML-to-text is assumed to map `""` to `""` where `Day.ItemRecordFields` speaks of descriptions.
- `RSS_LINKS` holds a single feed, so the model reads one feed per day.
- The listing layout's class names are passed as a `Layout` value. The finam.ru layout `Day.Finam` is the one `Crawl.ScrapAll` uses.
- `driver.quit()` at the end of the run is not modelled.
- Day.ExtractItem: the only failure inside an item that is modelled is a source label without a `span`. Other browser exceptions (stale elements, timeouts) are outside the model, because the DOM queries are total functions.
- Dates.Parse: accepts exactly two digits for month and day. `strptime` also accepts one-digit fields, but the program parses only the constant `2024-01-01`.
- Text.DigitRun: treats only the ASCII digits as `\d`. Python's pattern also matches other Unicode decimal digits.
- Dates.Format: covers years 1 to 9999, Python's own `date` range. pandas timestamps stop in 2262; that bound is not modelled.
- Crawl.ScrapAll: a feed failure raises out of `scrap_one_day` and ends the run. The model reports it as `finished == false` with the failing day last in `visited`. `records` is a ghost function that, on every collectable day, equals what `scrap_one_day` saves. By `Crawl.SavesDetermined`, the resulting file does not depend on which such function is chosen.
