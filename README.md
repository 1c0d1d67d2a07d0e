# Google Maps business scraper: a verified model of its core

The scraper searches Google Maps for one kind of business, scrolls the result
feed until it stops growing, opens a prefix of the result cards and stores one
row per business in a SQLite `products` table. A row is stored unless a row
with the same name, latitude, longitude and product type already exists. A
second script fills in missing descriptions with a text generator. It retries
each row a few times, sleeps for the delay a quota error asks for, and gives
up after nine quota errors. A set of field getters reads single fields from a
place page through ranked fallback chains. Small text parsers turn review
counts, prices and facility lists into values.

The model is split into seven modules:

- `Values` (values.dfy): the dynamic values that flow through the program.
  - Python values (`PyVal`) with their truthiness.
  - Dicts in insertion order.
  - The two outcomes of a browser lookup: a value read, or an exception.
- `Text` (text.dfy): the shared building blocks.
  - ASCII digits and whitespace, digit runs and their numbers.
  - Exact decimal values.
  - `join`, and a one-character `split`, with the lemma that a split undoes a join.
- `Parsers` (parsers.py): `parse_rating_count`, `parse_price` and `parse_facilities`.
  - Every regular expression is a scanner over positions of the input.
  - Each scanner is proved sound and complete against a predicate that spells out the regular language.
  - Each search is proved to find the leftmost match.
- `Getters` (getters.py): the ranked fallback chains of the field getters, the coordinate parsing of the page URL, the star digits and the dispatch by column.
  - Every browser lookup of a page is an input field of `Page`.
- `Database` (DatabaseManager.py): the record store.
  - The SQL text and parameters that `create` and `update` build.
  - The table as a value, and what insert, update and delete do to it.
  - The two queries the program issues through `get`, under SQL's NULL semantics.
  - The class `DatabaseManager`, whose `connected` flag every operation sets and clears.
- `Scraper` (scrapper_google_business.py): the search-and-store pipeline.
  - The older review-count parser.
  - The result dict of the detail panel, and the `db_data` row built from it.
  - The scroll loop over a feed whose card counts are an input.
  - The choice of the cards to open.
  - The card loop that stores each card through `DatabaseManager`.
- `Describer` (create_description_with_ai.py): the description generator.
  - The retry-delay parser.
  - The retry loop of `process_registry`, with the global `RESOURCE_EXHAUSTED` counter.
  - The row loop of `main`, with its stop check.
  - The generator is an oracle that answers call number `n` for a card link.
  - The script's global state is the class `Describer`.

The two loops that change state step by step are methods whose loop invariants
tie each step to a specification function:

- `Scraper.ScrollFeed` to `Scrolls`;
- `Describer.Describer.ProcessRegistry` to `Attempts`;
- `Describer.Describer.DescribeAll` to `Run`.

The card loop does the same: `Scraper.ProcessCards` is tied to `CardsEffect`.
The properties of the program are proved as lemmas about those functions.

## Model

| member | source | states |
|---|---|---|
| Parsers.ParseRatingCount | parsers.py:4-18 | An int is returned unchanged, and a bool comes back as 0 or 1. Any other non-string gives None. A string gives None exactly when it holds no digit, and otherwise a count of at least 0. |
| Parsers.KRule | parsers.py:8-10 | A string that contains `k` and starts with a digit gives its maximal leading digit run times 1000. |
| Parsers.CommaRule | parsers.py:12-13 | Any other string with a digit gives the leftmost, longest `d{1,3}(,ddd)*` match with its commas removed; the match starts at the first digit. |
| Parsers.RatingCountThousands | parsers.py:8-10 | `"2k+"` gives 2000 and `"1.5k"` gives 1000. |
| Parsers.RatingCountUngrouped | parsers.py:12-13 | `"12345"` gives 123, because the leading group is capped at three digits. |
| Parsers.RatingCountNone | parsers.py:12-16 | A text without digits gives None. |
| Parsers.SearchGroupedSpec | parsers.py:12 | The search result is a grouped number. No grouped number starts earlier, and none starting at the same place is longer. |
| Parsers.GroupedEndSound | parsers.py:12 | The greedy scanner's span is in the language `d{1,3}(,ddd)*`. |
| Parsers.GroupedEndLongest | parsers.py:12 | No longer span from the same start is in that language. |
| Parsers.FirstDigit | parsers.py:12 | The position of the first digit, or the length of a string without digits. |
| Parsers.GroupedDigits | parsers.py:13 | A grouped number without its commas is all digits, so `int()` of it cannot fail. |
| Parsers.PyIntText | parsers.py:15-16 | Python `int()` of a text: a value only when the text holds a digit. |
| Parsers.CurrencyEndSpec | parsers.py:22 | The currency scanner stops after two characters exactly when `R$` starts there, and after one exactly when `$`, `€` or `£` does. |
| Parsers.PriceEndSound | parsers.py:22 | The span the price scanner returns is in the price pattern's language. |
| Parsers.PriceEndComplete | parsers.py:22 | Every position where a price match starts is found by the scanner. |
| Parsers.FindPrice | parsers.py:22 | A found price starts at the first position with any match; with none found, no position has a match. |
| Parsers.FindPriceLeftmost | parsers.py:22-24 | With no match anywhere the search finds nothing. Otherwise it finds a price, no price starts earlier, and no longer price starts at the same place. |
| Parsers.AmountEndLongest | parsers.py:22 | No amount `(\d{1,3}(?:[.,]\d{3})*)([.,]\d{2})?` starting at a digit is longer than the greedy one: cents can only stand where a longer group of three digits was taken. |
| Parsers.PriceEndLongest | parsers.py:22 | No price starting at a position is longer than the scanner's match there, as with the greedy groups of `re.search`. |
| Parsers.ParsePrice | parsers.py:21-26 | Without a match the input comes back whole. Otherwise the result is a price that occurs in the input, no price starts before it, and no longer price starts where it does. |
| Parsers.ParsePriceNoPrice | parsers.py:24 | A text without any price is returned unchanged. |
| Parsers.ParsePriceShape | parsers.py:22-24 | A result that differs from the input starts with `R$`, `$`, `€` or `£` and is a substring of the input. |
| Parsers.ParsePriceIdempotent | parsers.py:21-26 | Parsing a parsed price changes nothing. |
| Parsers.ParseFacilities | parsers.py:29-30 | Splitting the joined text on `;` recovers any non-empty list whose items hold no `;`. |
| Text.SplitJoin | parsers.py:29-30 | Splitting a join on its one-character separator gives back the pieces. |
| Text.DigitsEndSpec | getters.py:162 | The digit scanner's run is all digits and cannot be extended. |
| Text.DigitsEndReaches | parsers.py:9 | Any digit run from a position lies inside the scanner's run, and is that run when no digit follows it. |
| Getters.FirstFound | getters.py:81-84 | The first lookup of a chain that does not raise; every earlier one raised. |
| Getters.NonEmpty | getters.py:62 | Keeps the non-empty texts, and is empty exactly when every text is empty. |
| Getters.PanelText | getters.py:58-65 | The joined panel text is empty exactly when the lookup raised or every element's text is empty. |
| Getters.FirstNonEmpty | getters.py:67-75 | Gives `""` exactly when every candidate is empty; otherwise the first non-empty candidate. |
| Getters.GetDescription | getters.py:57-77 | The description is `""` exactly when all three strategies give `""`. |
| Getters.DescriptionFirstNonEmpty | getters.py:57-77 | The description is the first non-empty result of the About tab, the panel and the summary line, tried in that order. |
| Getters.GetLink | getters.py:80-86 | When the authority link's lookup does not raise, its `href` is the result, even a `None` one. |
| Getters.LinkChain | getters.py:81-84 | The link is the first lookup of the two that does not raise, or None. |
| Getters.RatingCountText | getters.py:97-103 | A label that gives a text is the text used. A label that raises or gives None falls back to the reviews span, and to None when that raises too. |
| Getters.GetRatingCount | getters.py:97-113 | A text that was read gives `parse_rating_count` of it. The result is None exactly when no text was read or it holds no digit; a count is at least 0. |
| Getters.RatingCountFallback | getters.py:101-103 | When the label gives a text, the second locator does not affect the result. |
| Getters.PriceChain | getters.py:177-183 | The price read is the first of three lookups that does not raise. |
| Getters.GetPrice | getters.py:177-187 | A None read stays None, and `""` stays `""`. A non-empty text becomes `parse_price` of it. |
| Getters.PriceNoFallback | getters.py:178-185 | A label lookup that reads None ends the chain with None; there is no fallback on None. |
| Getters.DecimalEndSound | getters.py:119 | The scanner's span is in `-?\d+\.\d+` and is followed by no digit. |
| Getters.DecimalEndComplete | getters.py:119 | Every span in `-?\d+\.\d+` is seen by the scanner; a maximal one is its result. |
| Getters.PairAtSound | getters.py:119-123 | A pair the scanner finds is a match of the coordinate pattern, with the group boundaries in place. |
| Getters.PairAtComplete | getters.py:119-123 | Every match of the coordinate pattern at a position is found there. |
| Getters.SearchPair | getters.py:119-123 | A found pair is a match, and no earlier position has one. |
| Getters.SearchPairLeftmost | getters.py:119-123 | With no match at all the search finds nothing. Otherwise it gives the leftmost match of its pattern. |
| Getters.CoordMatch | getters.py:116-141 | The selected match is a match of its pattern at its position. |
| Getters.CoordMatchSpec | getters.py:116-141 | The coordinates come from the leftmost `@` match. The `!3d…!4d` pattern is used only when the URL holds no `@` match. No match means neither pattern matches anywhere. |
| Getters.CoordinatesSameMatch | getters.py:119-124 | Latitude and longitude are found together, as groups 1 and 2 of one and the same match. |
| Getters.FloatOf | getters.py:120 | `float()` of a decimal text is at least 0 unless it starts with `-`, and at most 0 when it does. |
| Getters.FirstDigitRun | getters.py:162-164 | Gives None exactly when the text holds no digit. |
| Getters.FirstDigitRunSpec | getters.py:162-163 | The result occurs in the text, is a non-empty run of digits, has no digit before it, and is followed by no digit. |
| Getters.GetStars | getters.py:159-167 | A value exactly when the badge's text was read and holds a digit. A text that was read gives its first digit run. |
| Getters.GetProperty | getters.py:5-46 | The column is unsupported exactly when it is not one of the 13 names the getter dispatch knows. |
| Getters.SupportedAreTableColumns | getters.py:5-46 | The 13 supported columns are the table's columns other than `id`, `product_type` and `card_href`. |
| Database.InsertParams | DatabaseManager.py:82 | The parameters of `create` are the dict's values, in dict order. |
| Database.UpdateParams | DatabaseManager.py:103 | The parameters of `update` are the dict's values in dict order, then the record id. |
| Database.PlaceholderCount | DatabaseManager.py:79 | The placeholder list for `n` values holds `n` question marks. |
| Database.InsertPlaceholders | DatabaseManager.py:78-82 | The INSERT text holds exactly as many `?` as there are parameters. |
| Database.AssignmentsCount | DatabaseManager.py:100 | The SET clause for `n` keys holds `n` question marks. |
| Database.UpdatePlaceholders | DatabaseManager.py:100-104 | The UPDATE text holds exactly as many `?` as there are parameters, that is `len(data) + 1`. |
| Database.RowIndex | DatabaseManager.py:101 | The position of the first row with the id, or the number of rows. |
| Database.InsertSpec | DatabaseManager.py:71-91 | The table stays valid. `create` returns an id exactly when the data can be inserted; otherwise None, with the table unchanged. |
| Database.InsertSucceeds | DatabaseManager.py:19-20 | A successful insert appends one row under the next autoincrement id, holding exactly the data's columns. |
| Database.UpdateOutcome | DatabaseManager.py:93-111 | `update` returns True exactly when the data is well formed, does not null `product_type`, and a row has the id. On False the table is unchanged. |
| Database.UpdateColumns | DatabaseManager.py:100-107 | On success the row with that id has the data's values in the listed columns and its old values in the others. |
| Database.UpdateValid | DatabaseManager.py:93-107 | An update keeps the table valid. |
| Database.UpdateSpec | DatabaseManager.py:93-113 | An update keeps the table valid, and returns True exactly when the statement can run and a row has the id. It changes only the listed columns of that row. Ids, the other rows and the id counter stay as they were. |
| Database.DeleteSpec | DatabaseManager.py:115-127 | `destroy` returns True exactly when a row has the id. Afterwards no row has it, every other row is still there, no row is added, and the table is valid. |
| Database.NullNeverEqual | scrapper_google_business.py:162 | Under SQL `=`, NULL equals nothing, not even NULL. |
| Database.Filter | DatabaseManager.py:62-63 | The rows a query returns are exactly the table's rows that satisfy its WHERE clause. |
| Database.FilterAppend | DatabaseManager.py:62-63 | A query keeps table order: filtering two runs of rows is filtering each, one result after the other. |
| Database.ExactQuery | scrapper_google_business.py:162-163 | The exact-key query returns exactly the rows equal on all four key columns. When a parameter cannot be bound, `get` fails and returns `[]`. |
| Database.UndescribedQuery | create_description_with_ai.py:68-71 | Returns exactly the rows whose description is NULL, `''` or the placeholder text. |
| Database.DatabaseManager.constructor | DatabaseManager.py:7-10 | A new manager has no open connection and keeps the table the file already holds. |
| Database.DatabaseManager.Connect | DatabaseManager.py:41-44 | Opens the connection and leaves the table alone. |
| Database.DatabaseManager.Disconnect | DatabaseManager.py:46-50 | Afterwards no connection is open, whether one was open or not, so disconnecting twice is disconnecting once. |
| Database.DatabaseManager.GetExact | DatabaseManager.py:52-69 | Returns the exact-key query's rows, leaves the table unchanged and leaves no connection open. |
| Database.DatabaseManager.GetUndescribed | DatabaseManager.py:52-69 | Returns the rows without a description, leaves the table unchanged and leaves no connection open. |
| Database.DatabaseManager.Create | DatabaseManager.py:71-91 | Has the effect and result of the insert, keeps the table valid, and leaves no connection open. |
| Database.DatabaseManager.Update | DatabaseManager.py:93-113 | Has the effect and result of the update, keeps the table valid, and leaves no connection open. |
| Database.DatabaseManager.Destroy | DatabaseManager.py:115-129 | Has the effect and result of the delete, keeps the table valid, and leaves no connection open. |
| Scraper.CleanChars | scrapper_google_business.py:58 | The cleaned text keeps only characters of the input and none of `(`, `)`, `,`, `.`, space. |
| Scraper.CleanIdempotent | scrapper_google_business.py:58 | Cleaning twice is cleaning once. |
| Scraper.LegacyParseRatingCount | scrapper_google_business.py:54-67 | An int is returned unchanged, and a bool comes back as 0 or 1. Any other non-string gives None. A count from a string means the string held a digit. |
| Scraper.LegacyIgnoresNoise | scrapper_google_business.py:58 | The older parser gives the same result for a text and for its cleaned form. |
| Scraper.LegacyKRule | scrapper_google_business.py:59-62 | A cleaned text with `k` that starts with a digit gives its leading digit run times 1000. |
| Scraper.LegacyIntRule | scrapper_google_business.py:63-66 | Any other text gives `int()` of the cleaned text, or None when that fails. |
| Scraper.LegacyExamples | scrapper_google_business.py:54-67 | `"(1,234)"` gives 1234, and `"1.2k"` gives 12000. |
| Scraper.LegacyKeepsLongRuns | scrapper_google_business.py:54-67 | `"12345"` gives 12345 under the older parser, but 123 under the newer one. |
| Scraper.LegacyNegative | scrapper_google_business.py:63-64 | `"-5"` gives -5: the older parser does not reject negative counts. |
| Scraper.FloatTextAgrees | scrapper_google_business.py:154 | `float()` of a plain decimal text agrees with the value the URL parser gives it. |
| Scraper.FloatOrZero | scrapper_google_business.py:154 | `float(x or 0)`. A falsy value gives 0. Ints, bools and reals give their value. A string gives `float()` of it. A non-empty list raises. |
| Scraper.FloatExamples | scrapper_google_business.py:154 | `"4.5"` gives 4.5. None and `""` give 0. `"n/a"` raises. |
| Scraper.ModalImagesSpec | scrapper_google_business.py:103-104 | A string image becomes a one-element list. A falsy value becomes `[]`. A truthy non-string is kept. |
| Scraper.ModalResultSpec | scrapper_google_business.py:103-116 | Every field of the result dict is the extracted value of its key. A missing name or description gives `''`, and a missing price or count gives None. |
| Scraper.Texts | scrapper_google_business.py:153 | A list can be joined exactly when all its items are strings, and then it is joined from those strings. |
| Scraper.JoinImages | scrapper_google_business.py:153 | A string is joined character by character. A list joins exactly when every item is a string. Anything else raises. |
| Scraper.AsDictKeys | scrapper_google_business.py:149-161 | The keys of `db_data` are distinct columns of the table, and none is `id`. |
| Scraper.DbData | scrapper_google_business.py:149-161 | Building `db_data` fails exactly when the images cannot be joined or the rating cannot be converted. The row keeps the product type. |
| Scraper.DbDataOfNoDetails | scrapper_google_business.py:149-161 | An empty entry gives a row with no images, rating 0, count 0 and NULL elsewhere. |
| Scraper.DbDataOfDetails | scrapper_google_business.py:154-157 | With a detail entry the count is kept as given, even None, and a falsy rating becomes 0. The coordinates are the entry's. |
| Scraper.SingleImageStored | scrapper_google_business.py:103-104 | A single image source is stored as that source. |
| Scraper.ImagesRoundTrip | scrapper_google_business.py:153 | Splitting the stored images on `;` recovers the sources, when there are sources and none contains `;`. |
| Scraper.ScrollsFrom | scrapper_google_business.py:131-142 | From iteration `i` the loop runs until the first iteration that stops it, or until 25. |
| Scraper.Scrolls | scrapper_google_business.py:131-142 | The loop scrolls between 1 and 25 times. No earlier iteration stops it, and the last one does unless it is the 25th. |
| Scraper.StagnationMeaning | scrapper_google_business.py:135-140 | The stagnation counter reaches 2 exactly when this count and the previous one both equal the count before them. |
| Scraper.StableFeedHalts | scrapper_google_business.py:129-142 | Once the count stops changing at iteration `k`, the loop makes at most `k + 3` scrolls. |
| Scraper.HintReached | scrapper_google_business.py:141-142 | With a hint, the loop stops no later than the first iteration whose count reaches it. |
| Scraper.GrowingFeedScrolledFully | scrapper_google_business.py:131-142 | A feed that keeps growing without reaching the hint is scrolled exactly 25 times. |
| Scraper.ScrollFeed | scrapper_google_business.py:129-142 | The loop with its `stagnation` and `prev_count` variables makes exactly `Scrolls` scrolls. |
| Scraper.SelectCards | scrapper_google_business.py:145-146 | Selects a prefix of the cards in feed order, of length `min(max_results, len(cards))`, or all cards without a hint. |
| Scraper.SelectCardsIdempotent | scrapper_google_business.py:145-146 | Selecting again with the same hint selects the same cards. |
| Scraper.StoredColumns | scrapper_google_business.py:149-168 | The stored row holds the card's name, coordinates and product type. |
| Scraper.StoreCases | scrapper_google_business.py:162-168 | Storing appends the row under the next id exactly when no row has the key and `create` accepts the data. Otherwise it leaves the table as it is. |
| Scraper.StoreSpec | scrapper_google_business.py:162-168 | Storing keeps the table valid and either leaves the rows alone or appends exactly one row after them. |
| Scraper.StoreIdempotent | scrapper_google_business.py:162-168 | With a non-NULL key, storing the same record twice gives the same table as storing it once. That is one more row for a new, insertable record, and no change for a known one. |
| Scraper.StoreTwiceOneMatch | scrapper_google_business.py:162-168 | A new record with a non-NULL key, stored twice, leaves exactly one row with its key: the one inserted the first time. |
| Scraper.CardIdempotent | scrapper_google_business.py:146-171 | Processing the same card twice does what processing it once does. |
| Scraper.NullMatchesNothing | scrapper_google_business.py:162-164 | A key with a NULL name or coordinate matches no row. |
| Scraper.NullKeyStoredTwice | scrapper_google_business.py:162-168 | Because of that, a well-formed record with a NULL key part is stored again each time: twice gives two new rows. |
| Scraper.StoreNoDuplicates | scrapper_google_business.py:162-168 | Storing keeps the table free of two rows whose keys match. |
| Scraper.CardStepSpec | scrapper_google_business.py:146-171 | One iteration keeps the table valid and free of duplicate keys, and adds at most one row at the end. |
| Scraper.CardsEffectSpec | scrapper_google_business.py:146-171 | The card loop keeps the table valid, never removes or changes a row, and adds at most one row per card. |
| Scraper.CardsEffectNoDuplicates | scrapper_google_business.py:146-171 | The card loop keeps the table free of duplicate keys. |
| Scraper.CardsEffectAppend | scrapper_google_business.py:146 | Processing `a + b` is processing `a`, then `b`. |
| Scraper.FailedCardSkipped | scrapper_google_business.py:147-171 | A card whose processing raises is skipped: the result is as if it were not in the list. |
| Scraper.ProcessCards | scrapper_google_business.py:146-171 | The card loop through `DatabaseManager` leaves the table that `CardsEffect` describes, and valid. |
| Scraper.ProcessSearchTerm | scrapper_google_business.py:120-171 | Makes `Scrolls` scrolls, then processes exactly the selected prefix of the cards. |
| Describer.SpacesEndSpec | create_description_with_ai.py:16 | The whitespace scanner's run is all whitespace and cannot be extended. |
| Describer.NumberAtSound | create_description_with_ai.py:16 | The number scanner's span is `\d+(?:\.\d+)?` followed by `s`. |
| Describer.NumberAtComplete | create_description_with_ai.py:16 | Every such span from a position is the one the scanner finds. |
| Describer.HintAtSound | create_description_with_ai.py:16 | A hint the scanner finds at a position is a match of the first pattern there. |
| Describer.HintAtComplete | create_description_with_ai.py:16 | Every match of the first pattern at a position is the hint the scanner finds there. |
| Describer.FindHintNone | create_description_with_ai.py:16-17 | When the search finds nothing, no position from the start has a hint. |
| Describer.FindHintFirst | create_description_with_ai.py:16-17 | No position before the found hint has one. |
| Describer.QuotedIsHint | create_description_with_ai.py:16-20 | A match of the second pattern at `i` is a match of the first pattern at `i + 1`, with the same groups. |
| Describer.QuotedPatternIsDead | create_description_with_ai.py:16-22 | Whenever the second pattern matches, the first pattern matches too, so lines 20-22 never decide the delay. |
| Describer.ExtractRetryDelay | create_description_with_ai.py:14-24 | The delay is never negative. |
| Describer.RetryDelayDefault | create_description_with_ai.py:24 | A text without a `retryDelay` hint gives 10. |
| Describer.RetryDelayFirst | create_description_with_ai.py:16-18 | A text whose first hint is at `i` gives that hint's number. |
| Describer.RetryDelayExample | create_description_with_ai.py:14-18 | `{'retryDelay': '31s'}` gives 31. |
| Describer.SleepAfter | create_description_with_ai.py:57 | The sleep length is the delay plus 1, so at least 1. |
| Describer.DefaultSleep | create_description_with_ai.py:57 | Without a hint the sleep is 11. |
| Describer.SleepLengths | create_description_with_ai.py:57-59 | One sleep per quota error slept after, each of the length `SleepAfter` gives, and at least 1. |
| Describer.DescriptionData | create_description_with_ai.py:46 | The data `update` receives has the single key `description`. |
| Describer.AttemptsBounds | create_description_with_ai.py:40-63 | The retry loop calls the generator at least once and at most `max_retries` times. It only adds sleeps, and each follows a quota error. |
| Describer.AttemptsAllFail | create_description_with_ai.py:51-63 | When every call fails, the loop makes exactly `max_retries` calls. The counter and the sleeps grow by the number of quota errors, and the table is unchanged. |
| Describer.AttemptsFirstSuccess | create_description_with_ai.py:42-50 | On the first success after `k` failures the loop has made `k + 1` calls and reset the counter to 0. The table is the result of one `update` of the row's description with the response text. |
| Describer.OtherErrorsKeepCounter | create_description_with_ai.py:54-61 | Errors without `RESOURCE_EXHAUSTED` add nothing to the counter. |
| Describer.NoRowsNoCalls | create_description_with_ai.py:74-75 | With no row to describe, `main` makes no generator call and changes nothing. |
| Describer.RowsCallBound | create_description_with_ai.py:77-85 | The row loop makes at most 3 calls per remaining row. |
| Describer.QuotaRow | create_description_with_ai.py:40-63 | When every call is a quota error, one row takes 3 calls, adds 3 to the counter and leaves the table unchanged. |
| Describer.QuotaRows | create_description_with_ai.py:77-85 | When every call is a quota error, the row loop makes 3 calls per row it starts and adds 3 to the counter for each. |
| Describer.NineCallsThenStop | create_description_with_ai.py:77-85 | From a counter of 0, with every call a quota error and at least three rows, the run makes exactly 9 calls and stops with the counter at 9. The table is unchanged. |
| Describer.Describer.constructor | create_description_with_ai.py:9-11 | The script starts with the counter at 0, no calls, no sleeps, and the table the database holds. |
| Describer.Describer.ProcessRegistry | create_description_with_ai.py:37-64 | The `while` loop leaves the counter, calls, sleeps and table that `Attempts` describes. |
| Describer.Describer.DescribeAll | create_description_with_ai.py:67-85 | The row loop with its stop check leaves the state `Run` describes, and the database valid. |

## Left out

- Digits and whitespace are ASCII only. Python's `\d` and `\s` also match other Unicode digits and spaces.
- Floats are exact reals read from decimal text; there is no IEEE rounding.
  - PyFloatText: models `float()` of a text only for optionally signed decimals such as `4.5`, `.5`, `5.` and `-3`.
  - Exponents, underscores, `inf` and `nan` are taken as failures.
- Integers are unbounded. Python ints are too; SQLite's 64-bit INTEGER limit is not modelled.
- The SQLite engine is not modelled.
  - Only the two queries the program issues through `get` are modelled: the exact-key lookup and the rows without a description.
  - Type affinity is reduced to: numbers compare by value, texts by their characters, NULL with nothing.
  - A failed statement is one whose data is empty, names an unknown column or `id`, holds a list value, or leaves `product_type` NULL.
- Database.Insertable: an explicit `id` in the data is treated as a failed statement. SQLite would insert under that id or raise on a clash.
- The browser is not modelled (page navigation, consent, clicks, waits, locators and their timeouts).
  - Each lookup of a place page is an input that either reads a value or raises.
  - The scroll loop's card counts are an input function of the iteration number.
  - The cards are a list of what opening each one gives.
  - The search URL built at scrapper_google_business.py:121-122 is not modelled.
  - The card list is not tied to the counts.
  - The tab clicks of `get_description` are folded into "the first strategy raises".
- The language-model extraction (`extrai_card_llm` and its crawl4ai configuration) is an input: the dict it returns for each card.
- The text generator (`create_promotional_description`) is an oracle indexed by the number of the call and the card link. The prompt text is not modelled; the response text may be None.
- `time.sleep` is recorded as the quota error it sleeps after. `Describer.SleepLengths` gives the lengths from those errors. Real time is not modelled.
- `print` output is not modelled.
- `exit()` is not modelled as such.
  - In `main` of the generator script it ends the run, which is where the model stops.
  - In `get_property` an unknown column gives `Unsupported`.
- The debug `print`/`exit()` at scrapper_google_business.py:94-101 would end the program before the result mapping. The mapping at 103-116 is modelled as the value the function would return without those lines.
- `max_results` is a natural number, with 0 standing for None. The command line always passes None.
- The command-line entry point of the scraper (`main` and `get_param`) and update_scraped_column.py are not part of this model. They are argument handling and browser and database plumbing.
- `async`/`await` is left out: everything runs sequentially.
- Getters.GetProperty: its contract states only which columns are supported. Which getter each column reaches is written in its body and is not restated as a contract.
- Parsers.ParseRatingCount and Scraper.LegacyParseRatingCount: a bool counts as an int, as in Python, and comes back as 0 or 1 (Python returns the bool itself).
- The example for the retry delay (`Describer.RetryDelayExample`) uses single quotes, as in the text of the generator's exception.
