# encar-filter in Dafny

A model of the core of encar-filter, a monitor for used-car listings on the
Encar site. The monitor crawls a search result, inspects every listing it has
not seen before, and keeps the cars that pass a fixed quality rule. A small web
viewer shows the kept cars, one tab per title. The model covers:

- the URL helpers of the crawler: `decode_url`, `set_limit_in_search_url`,
  `extract_car_id_from_url`, `extract_number` (module `UrlHelpers`, with string
  helpers in `Text` and the payload model in `Codecs`);
- the search-URL builder `generate_advanced_search_url` of the companion script,
  exactly as written (module `SearchQuery`), and a balanced variant of its action
  string (module `BalancedQuery`, see "Findings");
- the qualification rule `is_good_car` (module `Qualification`);
- the text rule inside `parse_performance_data` that turns the inspection-report
  section of a detail page into the exchange, sheet-metal and corrosion counters
  (module `Inspection`);
- one pass of the `EncarMonitor.run` loop as a fold over the search result
  (module `Monitor`);
- `groupByTitle` and the tab lookup of `renderContent` in the viewer (module
  `Viewer`).

The browser, the files, the clock and the library codecs are parameters. A detail
page is a function from link to `Detail`. The check time is a string. The known
ids and the good-car list are an in-memory `State`. `urllib.parse.quote`/`unquote`
and `json.loads`/`dumps` are the fields of a `Codecs.Library` value. Nothing is
assumed about them except where a lemma names the hypothesis `RoundTrips(lib)`.
That hypothesis says two things. Encoding a JSON value with no repeated key in any
object and decoding it again gives the value back. Parsing never yields an object
with a repeated key, since `json.loads` keeps the last value of a repeated key.

Some behaviour of the code is worth stating up front, because the model keeps it
as written:

- Snapshots are written by opening each file and dumping into it; nothing makes
  the write atomic. The model keeps the state in memory and claims nothing about
  atomicity.
- There is no handler around `fetch_detail`, so any exception other than the ones
  the parsers catch themselves ends the loop. The model has no per-listing
  failure path.
- The good cars are saved after every record and the known ids only at the end of
  the pass, so a crash between the two makes the restarted pass record the car
  again. `Monitor.CrashReplayDuplicates` proves this.
- The builder accepts `badge_details` and never reads it.
  `SearchQuery.BadgeDetailsIgnored` proves that it has no effect.
- `urllib.parse.unquote` never raises on a `str`. The bare `except` of
  `decode_url` is still reachable through `json.loads` and `json.dumps`, which
  raise `RecursionError` on deeply nested payloads; "## Left out" records this.

## Model

| member | source | states |
|---|---|---|
| Text.Digits | encar_direct_url_simple.py:55 | the kept characters are all digits; the result is empty exactly when the text has no ASCII digit |
| Text.DigitsAppend | encar_direct_url_simple.py:159 | filtering digits distributes over concatenation, so digits are read in text order |
| Text.SplitAllAppend | encar_direct_url_simple.py:46 | splitting a text, a separator and a separator-free piece gives the text's pieces followed by that piece |
| Text.IntToString | encar_direct_url_simple.py:69 | `str(n)` renders the decimal value of `n`, with a leading `-` for negatives and no leading zero except in `0` itself |
| Text.ParseInt | encar_direct_url_simple.py:196-197 | `int(num_text)` succeeds exactly on a non-empty digit string, optionally after one `+` or `-`, and gives its signed decimal value |
| Text.ParseIntRoundTrip | encar_direct_url_simple.py:69 | parsing the decimal text of any integer gives the integer back |
| Text.ValueLeadingZeros | encar_direct_url_simple.py:56 | leading zeros do not change the value of a digit string |
| Codecs.GetField | encar_direct_url_simple.py:67-69 | the lookup that observes a payload object, as `dict.get` does: nothing exactly when the key is absent |
| Codecs.SetField | encar_direct_url_simple.py:69 | assigning a key makes it map to the new value, leaves every other key's value alone, and adds the key at the end only when it was new |
| Codecs.SetFieldTwice | encar_direct_url_simple.py:69 | a second assignment to the same key overrides the first |
| Codecs.SetFieldNoRepeats | encar_direct_url_simple.py:68-69 | assigning a key of an object that repeats no key gives an object that repeats no key |
| UrlHelpers.DecodeUrl | encar_direct_url_simple.py:15-41 | with `#!` the text before it is kept, a parsable payload is shown pretty-printed on a new line and an unparsable one percent-decoded in place; without `#!` the whole URL is percent-decoded |
| UrlHelpers.SetLimit | encar_direct_url_simple.py:61-74 | a URL without `#!`, or whose payload is not a JSON object, comes back unchanged; otherwise the text up to `#!` is kept |
| UrlHelpers.SetLimitUpdatesPayload | encar_direct_url_simple.py:65-71 | on success the new payload is the old one with only `limit` set to the decimal text of the new value |
| UrlHelpers.SetLimitTwice | encar_direct_url_simple.py:61-74 | forcing the limit twice gives the URL that forcing it once to the second value gives |
| UrlHelpers.UrlQuery | encar_direct_url_simple.py:46 | `urlsplit(url).query`: `UrlQueryIsQueryPart` shows it is the text between the first `?` and the first `#`, and `UrlQueryFailsOnlyOnBrackets` that in the model only a bracket makes it fail |
| UrlHelpers.UrlQueryFailsOnlyOnBrackets | encar_direct_url_simple.py:46 | in the model a link without square brackets always splits, so `parse_qsl` always runs on it |
| UrlHelpers.UrlQueryIsQueryPart | encar_direct_url_simple.py:46 | the query of a link is the text between its first `?` and its first `#` once tabs and newlines are removed |
| UrlHelpers.QueryPairs | encar_direct_url_simple.py:46 | `parse_qsl` over the `&`-separated pieces: a piece without `=` or with an empty value is dropped, so there are never more pairs than pieces; `QueryPairsAppend`, `QueryPairsPiece` and `QueryPairsBare` fix its pairs and their order |
| UrlHelpers.QueryPairsAppend | encar_direct_url_simple.py:46 | `parse_qsl` reads the pieces in order: the pairs of two runs of pieces are the pairs of each, concatenated |
| UrlHelpers.QueryPairsPiece | encar_direct_url_simple.py:46 | a piece `name=value` gives one pair, with `+` read as a space and both halves percent-decoded, and nothing when the value is empty |
| UrlHelpers.QueryPairsBare | encar_direct_url_simple.py:46 | a piece without `=` gives nothing |
| UrlHelpers.LookupLast | encar_direct_url_simple.py:46-47 | `dict(pairs).get(key)` is the value of the last pair with that name, and nothing exactly when no pair has it |
| UrlHelpers.LookupLastAppend | encar_direct_url_simple.py:46-47 | a pair at the end wins: `dict(pairs + [(k, x)]).get(k)` is `x` |
| UrlHelpers.ExtractCarId | encar_direct_url_simple.py:43-52 | links of neither shape give nothing; a path-shape link gives a text with no `/` or `?`; a query-shape link gives the last `carid` value of its query, and nothing when `urlsplit` raises or there is no such pair |
| UrlHelpers.PathId | encar_direct_url_simple.py:49 | the last path segment holds neither `/` nor `?` |
| UrlHelpers.ExtractCarIdQueryShape | encar_direct_url_simple.py:45-47 | a query-shape link whose query is `carid=v`, with `v` non-empty and free of `&` and `+`, gives the percent-decoded `v` |
| UrlHelpers.ExtractCarIdLastParam | encar_direct_url_simple.py:45-47 | a query-shape link whose query ends in `&carid=v`, with `v` non-empty and free of `&`, gives `v` as `parse_qsl` decodes it, whatever parameters come first |
| UrlHelpers.ExtractCarIdPathShape | encar_direct_url_simple.py:48-49 | a path-shape id starts right after the link's last `/` and runs to the next `?` or the end |
| UrlHelpers.DetailLinkRoundTrip | encar_direct_url_simple.py:115 | the detail link built for an id reads back as that id |
| UrlHelpers.ExtractNumber | encar_direct_url_simple.py:54-56 | the result is nothing exactly when the text holds no digit, and otherwise the value of all its digits read as one decimal number |
| UrlHelpers.ExtractNumberRoundTrip | encar_direct_url_simple.py:54-56 | the decimal text of `n` between digit-free texts reads back as `n` |
| UrlHelpers.ExtractNumberLeadingZeros | encar_direct_url_simple.py:55-56 | zeros ahead of the digits are ignored, as `int` ignores them: `교환 01` reads as 1 |
| UrlHelpers.ExtractNumberIgnoresNoise | encar_direct_url_simple.py:55 | inserting digit-free text anywhere does not change the number |
| SearchQuery.DecimalAt | url_compare_test.py:62 | a match is digits, one dot, digits, and is the longest such run at the start; there is none exactly when the text does not start with such a run |
| SearchQuery.RewriteDecimals | url_compare_test.py:62 | the `re.sub` over the badge: `RewriteSplit`, `DecimalRewritten` and `ChainedDecimals` give its matches, and `RewriteOnlyInsertsUnderscores` and `RewriteKeepsCount` show it only inserts `_` |
| SearchQuery.RewriteSplit | url_compare_test.py:62 | the rewrite of a text split after a character that is neither a digit nor a dot is the rewrite of each part |
| SearchQuery.DecimalRewritten | url_compare_test.py:62 | a `digits.digits` at the start or after such a character, and not followed by a digit, becomes `digits_.digits` in place |
| SearchQuery.ChainedDecimals | url_compare_test.py:62 | matches do not overlap: in `d.d.d` only the first dot gets an underscore |
| SearchQuery.RewriteOnlyInsertsUnderscores | url_compare_test.py:62 | deleting the underscores from a rewritten badge gives the badge back |
| SearchQuery.RewriteKeepsCount | url_compare_test.py:62 | the rewrite keeps the count of every character other than `_`, parentheses included |
| SearchQuery.RewriteWithoutDecimals | url_compare_test.py:62 | a badge with no `digits.digits` anywhere is left unchanged |
| SearchQuery.FixtureBadge | url_compare_test.py:61-63 | the script's badge `2.0 터보 2WD` becomes `2_.0 터보 2WD`, as in its example URL |
| SearchQuery.BadgeNeedsGroup | url_compare_test.py:56-66 | the badge-group segment appears exactly when a badge group is given, and a badge without one is ignored |
| SearchQuery.BadgeDetailsIgnored | url_compare_test.py:33-34 | the badge details never change the action string |
| SearchQuery.Action | url_compare_test.py:53-69 | the action string of the builder: `ActionParens`, `ActionUnbalanced` and `ActionTail` give its parentheses and its end, and `BadgeNeedsGroup` and `BadgeDetailsIgnored` the fields it reads |
| SearchQuery.HeadParens | url_compare_test.py:53 | the fixed head opens four levels and closes none of its own |
| SearchQuery.BadgeParens | url_compare_test.py:56-66 | the badge-group segment opens and closes one level of its own |
| SearchQuery.ActionParens | url_compare_test.py:53-69 | the action opens 4 levels, or 5 with a badge group, and closes 6, or 7, besides what the field values carry |
| SearchQuery.ActionUnbalanced | url_compare_test.py:53-69 | with parenthesis-free values the action closes exactly two levels more than it opens |
| SearchQuery.ActionTail | url_compare_test.py:66-69 | the action ends with a dot and six `)`, or seven with a badge group |
| SearchQuery.GenerateSearchUrl | url_compare_test.py:33-87 | the whole builder: the search page, `#!` and the percent-encoded payload around the action; `SearchUrlRoundTrip` and `GeneratedLimit` read it back |
| SearchQuery.SearchUrl | url_compare_test.py:84-87 | every generated URL starts with the search page and `#!` |
| SearchQuery.PayloadFixedFields | url_compare_test.py:72-81 | the payload carries the action, page 1, integer limit 20, sort by modification date, no login check, and empty toggle, layer and search key |
| SearchQuery.PayloadNoRepeats | url_compare_test.py:72-81 | the payload names each of its eight keys once |
| SearchQuery.SearchUrlRoundTrip | url_compare_test.py:84-87 | reading a generated URL back gives the search page and the payload written, and `decode_url` shows that payload pretty-printed |
| SearchQuery.GeneratedLimit | encar_direct_url_simple.py:65-71 | forcing the limit of a generated URL keeps the search page and the action and sets `limit` to the decimal text of the new value |
| BalancedQuery.AsWrittenVersusCorrected | url_compare_test.py:53-69 | with a badge group the builder drops the `(` before `C.Model.` and adds a `)` after the badge segment; without one it adds two `)` too many |
| BalancedQuery.AsWrittenDiffers | url_compare_test.py:53-69 | the builder's action is never the balanced one |
| BalancedQuery.CorrectedParens | url_compare_test.py:90 | the balanced action opens and closes the same number of levels of its own |
| BalancedQuery.CorrectedBalanced | url_compare_test.py:90 | with parenthesis-free values the balanced action closes exactly what it opens |
| BalancedQuery.CorrectedSearchUrl | url_compare_test.py:84-87 | the balanced URL starts with the search page and `#!` |
| BalancedQuery.CorrectedUrlRoundTrip | url_compare_test.py:84-87 | reading the balanced URL back gives the search page and the balanced action |
| BalancedQuery.CorrectedFixture | url_compare_test.py:90 | on the script's own inputs the balanced builder gives the action of the script's example URL |
| BalancedQuery.FixtureAsWritten | url_compare_test.py:53-69 | on the same inputs the builder as written closes two levels too many and misses the example's action |
| Qualification.Count | encar_direct_url_simple.py:252-254 | a missing counter reads as the 999 sentinel |
| Qualification.IsGoodCar | encar_direct_url_simple.py:248-261 | false when the counters are absent or empty or the note is missing; otherwise true exactly when exchange ≤ 1, sheet metal 0, corrosion 0 and the note is `없음` |
| Qualification.UnknownNeverQualifies | encar_direct_url_simple.py:252-259 | a counter that is missing or at the sentinel never qualifies |
| Qualification.OnlyCountersMatter | encar_direct_url_simple.py:252-261 | two reports that agree on the three counters are judged alike |
| Qualification.Examples | encar_direct_url_simple.py:255-261 | the boundary cases: exchange 1 passes, 2 fails, any sheet metal fails, and a note other than `없음` or a missing note fails |
| Inspection.FirstCategory | encar_direct_url_simple.py:155-169 | a text speaks about exchange when it contains `교환`, otherwise about sheet metal when it contains `판금`, otherwise about corrosion when it contains `부식` |
| Inspection.ItemWrite | encar_direct_url_simple.py:155-175 | an item writes only its own category: 0 when it says `없음`, otherwise the value of its digits read as one number, and nothing when it has no digit |
| Inspection.PlainStep | encar_direct_url_simple.py:153-175 | one item changes at most the counter it writes, to the value it writes |
| Inspection.PlainFold | encar_direct_url_simple.py:153-175 | the loop over the list items; `PlainFoldIsLastWrite` shows each counter ends at its last written value |
| Inspection.PlainFoldIsLastWrite | encar_direct_url_simple.py:153-175 | after the loop each counter holds the value of the last item that wrote it, or its starting value |
| Inspection.PlainFoldComplete | encar_direct_url_simple.py:143-175 | the loop keeps all three counters present |
| Inspection.RowWrite | encar_direct_url_simple.py:184-219 | a row writes only when it has two paragraphs and the first names its category; then `없음` in the value writes 0, an empty number text writes nothing, and otherwise it writes `int` of the number text or fails; without a span the digits always convert |
| Inspection.CheckStep | encar_direct_url_simple.py:181-219 | one row fails exactly when its number text does not convert, and otherwise changes at most the counter it writes |
| Inspection.CheckFold | encar_direct_url_simple.py:181-219 | the loop over the check-list rows, ended by a failing conversion; `CheckFoldFails` and `CheckFoldIsLastWrite` give when it fails and what it leaves |
| Inspection.CheckFoldFails | encar_direct_url_simple.py:181-226 | the loop fails exactly when some row fails to convert |
| Inspection.CheckFoldIsLastWrite | encar_direct_url_simple.py:181-219 | when the loop completes, each counter holds the value of the last row that wrote it, or its starting value |
| Inspection.CheckFoldComplete | encar_direct_url_simple.py:181-219 | the loop keeps all three counters present |
| Inspection.Finish | encar_direct_url_simple.py:221-223 | the counters are dropped exactly when all three are still 999 |
| Inspection.ParsePerformance | encar_direct_url_simple.py:139-226 | no section and an empty list give nothing; a result always has all three counters and at least one off the sentinel |
| Inspection.PlainListResult | encar_direct_url_simple.py:143-223 | in the plain layout each counter is its last written value, and the result is nothing exactly when every counter stays at 999 |
| Inspection.CheckListResult | encar_direct_url_simple.py:177-226 | in the check-list layout the result is nothing exactly when a row fails to convert or every counter stays at 999, and otherwise each counter is the last value a row wrote to it, or 999 |
| Monitor.Record | encar_direct_url_simple.py:313-325 | a record copies the listing's id, link, title, price and region, the detail page's exchange counter and note, and the check time; its counters and note pass the rule |
| Monitor.Visit | encar_direct_url_simple.py:306-328 | a known listing is skipped untouched; a new one becomes known, is judged by its own detail page, and its record is appended exactly when it qualifies |
| Monitor.Cycle | encar_direct_url_simple.py:304-328 | one pass over a batch: `CycleIsDiff` and `KnownGrows` state what it inspects, records and learns |
| Monitor.KnownGrows | encar_direct_url_simple.py:328 | after a pass the known ids are the old ones plus every id of the batch |
| Monitor.CycleIsDiff | encar_direct_url_simple.py:304-328 | a pass inspects exactly the listings new to the known set and not seen earlier in the batch, in batch order, and appends exactly their qualifying records |
| Monitor.VerdictsMatch | encar_direct_url_simple.py:310-312 | every verdict is the rule applied to the listing's own detail page |
| Monitor.CyclePreservesRecords | encar_direct_url_simple.py:306-328 | a pass keeps every recorded car known and no car recorded twice |
| Monitor.KnownBatchIsNoOp | encar_direct_url_simple.py:306-309 | a batch of known ids leaves the state alone and inspects nothing |
| Monitor.SecondPassIsNoOp | encar_direct_url_simple.py:304-335 | running the same batch again changes nothing |
| Monitor.GoodCarsOnlyGrow | encar_direct_url_simple.py:313-326 | a pass only appends to the good-car list |
| Monitor.CrashReplayDuplicates | encar_direct_url_simple.py:326-335 | a pass stopped after saving a record but before saving the known ids records that car a second time when restarted |
| Monitor.WorkedPass | encar_direct_url_simple.py:304-328 | a known listing, a clean new one, the same one again and a repaired one: two listings inspected, one record |
| Viewer.TitleKey | src/main.ts:17 | the key is the title when it is present and non-empty, and `제목 없음` otherwise |
| Viewer.Push | src/main.ts:18-19 | pushing a car adds it at the end of its key's group and nowhere else, creating the key at the end when it is new |
| Viewer.GroupByTitle | src/main.ts:15-22 | the grouping reduce: `GroupByTitleSpec` states its keys and groups against an independent filter |
| Viewer.GroupByTitleSpec | src/main.ts:15-22 | the keys are the distinct titles in order of first appearance, and every key's group is that key's cars in input order |
| Viewer.GroupsAreFilters | src/main.ts:16-21 | no key appears twice, no group is empty, and every group keeps its cars' input order |
| Viewer.EveryCarInOneGroup | src/main.ts:16-21 | each car is in the group of its own key and in no other |
| Viewer.SizesSum | src/main.ts:16-21 | the group sizes add up to the number of cars |
| Viewer.UntitledShareGroup | src/main.ts:17 | untitled cars, cars with an empty title and cars titled `제목 없음` land in one group |
| Viewer.SelectGroup | src/main.ts:47-49 | an out-of-range tab index shows the empty group |
| Viewer.SelectInRange | src/main.ts:47-49 | an in-range tab shows its title's cars in input order |
| Viewer.InitialView | src/main.ts:24-31 | no cars show the empty message, and any car shows tabs |
| Viewer.InitialViewShowsFirstTitle | src/main.ts:29-31 | the first tab is the first car's title and shows every car with that title |

## Left out

- The Selenium crawler (`setup_driver`, `fetch_listings`, `fetch_detail`, element lookups, `time.sleep`): a detail page is a function from link to `Detail`, and an inspection report arrives as the stripped texts of its list items.
- `parse_special_note`: the history note is an input of the model.
- `CarListingRepository`: loading and saving JSON files; the state is in memory.
- `urllib.parse.quote`/`unquote`, `json.loads`/`dumps` and pretty-printing: these are library functions, passed in as a `Codecs.Library` value.
- The `while True` loop, `time.sleep`, the `KeyboardInterrupt` handler, `print`, the commented-out notifier and `now_str`: the model covers one pass. The check time is one string parameter shared by every record of the pass, where the code calls `now_str()` again for each record at line 324.
- Exceptions raised by `fetch_detail` or `fetch_listings`: they end the program and have no per-listing path.
- The comparison script that follows the builder in `url_compare_test.py` from line 95: it only prints decoded URLs.
- Python's limit of 4300 digits on `int`/`str` conversion is not modelled. Past it, `int(num_text)` at lines 56, 161-175 and 197 raises `ValueError`, and so does `str(new_limit)` at line 69, where the `except` returns the URL unchanged. `json.loads`/`json.dumps` in `decode_url` also raise past it, and the bare `except` catches them. The model returns a value in all these cases.
- Text.ParseInt: accepts an optional sign and ASCII digits only. It does not model the surrounding whitespace, the `_` separators or the non-ASCII digits that Python's `int` also accepts.
- Text.IsDigit: ASCII digits only. Python's `str.isdigit` and the `\d` of the badge rewrite at url_compare_test.py:62 also accept other Unicode decimal digits, which `SearchQuery.DecimalShape` does not.
- Codecs.Json: JSON numbers are integers; floating point is not modelled.
- UrlHelpers.UrlQuery: models the parts of `urlsplit` that decide the query, and its check that square brackets in the network location are balanced. It does not model `_check_bracketed_netloc`, which also raises when a bracketed host is not an IPv6 or IPvFuture address, so `http://[abc]/dc_cardetailview.do?carid=1` gives a query in the model while Python raises. Port validation and the NFKC check on the network location are not modelled either.
- UrlHelpers.DecodeUrl: a payload nested deeply enough makes `json.loads` or `json.dumps` raise `RecursionError`; the bare `except` then returns the URL unchanged. The library functions of the model always return, so this path is not modelled.
- Qualification.IsGoodCar: counters are integers. Comparing a non-integer counter would raise in Python, and that case is not modelled.
- Viewer.GroupByTitle: keys are kept in insertion order. JavaScript lists integer-like keys first, and prototype names such as `constructor` behave differently; neither is modelled.
- Viewer.SelectGroup: the index is an integer. `Number` of a non-numeric `data-idx` is `NaN`, which also selects the empty group; that case is not modelled.
- The DOM rendering, `fetch` of `good_cars.json`, click handlers and `scrollIntoView` in `src/main.ts`.

## Findings

| source | as written | input that shows it | evidently intended | confidence | as-written member | corrected member |
|---|---|---|---|---|---|---|
| url_compare_test.py:53-69 | the action never writes `(` before `C.Model.` yet closes one level after the badge group, then closes six more | the script's own inputs (`Y`, `기아`, `스팅어`, `스팅어`, `가솔린 2000cc`, `2.0 터보 2WD`): 5 `(` against 7 `)` | the example URL at line 90 opens the model level and closes exactly the six levels it opened | high, not executed | SearchQuery.ActionUnbalanced | BalancedQuery.CorrectedBalanced |
| url_compare_test.py:53-69 | the same action on the example's inputs differs from the example's action | the inputs above | the builder reproduces the action of the example at line 90 | high, not executed | BalancedQuery.FixtureAsWritten | BalancedQuery.CorrectedFixture |
