# E-commerce ETL pipeline: transform, load and validation, in Dafny

This project models the core of a small Python ETL pipeline and proves properties of the model. The pipeline scrapes product listings, cleans them into `Product` records, and upserts them into four MySQL tables: `categories`, `companies`, `products` and `product_metrics`. A separate script then checks the loaded data and prints a PASS / WARNING / FAIL report.

The model covers the following:

- **Field parsers** (`field_parsers.dfy`, on top of `text.dfy` and `decimals.dfy`): `_clean_text`, `_parse_price`, `_parse_reviews_count`, `_parse_rating` and `_extract_company_from_name`.
  - The regular expressions become explicit scanners over `seq<char>`: `\s+`, `[\d.]+`, `\d+` and `[$,€£]`.
  - `float()` of a matched run, `round(x, 2)` and `int(x * k)` are exact decimal arithmetic (`Decimals.Decimal`).
  - Prices and ratings are whole numbers of hundredths, so 1234.56 is `123456`.
- **The transformer** (`transform.dfy`): `transform_data` is a `method` with a loop. It is proved equal to a left fold, `Cleaned`, that keeps the valid products in input order, and the lemmas about it are stated on that fold.
- **The loader** (`loader.dfy`, `loader_properties.dfy`): the four tables are fields of a `Database` class, and each loader is a method on it.
  - Each `INSERT … ON DUPLICATE KEY UPDATE` is an insert-or-update keyed on the table's unique column.
  - `load_to_database` wraps the loaders in a transaction. When the transaction fails, it rolls back and re-raises.
  - The folds `UpsertProducts` and `UpsertMetrics` specify the two row loaders. Their properties are proved as lemmas: last write wins, idempotence, and no orphaned metrics.
- **The orchestrator** (`pipeline.dfy`): `run_etl_pipeline` has two early returns and then the load.
- **The validator** (`validation.dfy`): `ETLValidator` with its `validation_results`.
  - `validate_table_counts` counts each table. A count query that raises is recorded as 0.
  - `validate_data_quality` records one entry per quality query. A query that raises leaves no entry.
  - `generate_report` labels each count and chooses the overall status.
  - The query answers are inputs. `QualityOf` states what the quality queries answer on a loaded `Database`, connecting the validator to the loader's invariant.

Some behaviours of the code that are easy to misread:

- **A leading minus sign.** It is not rejected: `"-5"` parses as 5.00. The code first removes `$ , € £`. Because `-` is present, it splits on it, and `['', '5']` has two parts. The empty part has no number, so the range branch falls through, and `'5'` is then read as the single price. See `FieldParsers.LeadingMinusIgnored` and `FieldParsers.PriceExampleNegative`.
- **Bounds on ranges.** Neither end of a range is bounds-checked, so `"0-0"` gives 0.00. See `FieldParsers.RangeOfWholeNumbers` and `FieldParsers.DecimalRange`.
- **The single-price bound.** The check `0 < p < 1000000` is made before rounding. So `"0.001"` is kept and rounds to 0.00. See `FieldParsers.PriceExampleBelowCent`.
- **Rollback and auto-increment.** On rollback, the name tables go back to their state before the transaction, but the auto-increment counters do not, as with InnoDB.
- **Not connected.** A connection that reports `is_connected()` false loads nothing, raises nothing, and the pipeline still reports success.
- **Metrics keys.** The metrics table has one row per `product_id`, not one per snapshot date. The update clause never writes `snapshot_date`, so a second load keeps the first date.

The schema file is not part of this model. The model assumes the unique keys that the upsert clauses rely on:

- `category_name`;
- `company_name`;
- `products.product_id`;
- `product_metrics.product_id`.

It also assumes a foreign key from `product_metrics.product_id` to `products`. A metrics statement for an unknown product therefore fails like any other rejected statement.

## Model

| member | source | states |
|---|---|---|
| FieldParsers.CleanText | ETL/etl_pipeline.py:282-301 | `None` or `''` give `''`. Otherwise the result has no leading or trailing whitespace and no two whitespace characters in a row (`IsClean`). It keeps every non-whitespace character in order, and its words are the words of the input (`r.split() == text.split()`). |
| FieldParsers.CleanTextIsJoinedWords | ETL/etl_pipeline.py:292-301 | The cleaned text is the input's words joined by single spaces: `_clean_text(s) == ' '.join(s.split())`. |
| FieldParsers.CleanTextIdempotent | ETL/etl_pipeline.py:292-301 | Cleaning a cleaned text changes nothing. |
| FieldParsers.CleanTextEmpty | ETL/etl_pipeline.py:292-301 | The result is `''` exactly when the input is `None` or all whitespace. |
| Text.CollapseSpaces | ETL/etl_pipeline.py:299 | `re.sub(r'\s+', ' ', s)`: the result is single-spaced, is empty only for empty input, and starts and ends with a space exactly where the input does. |
| Text.CollapseKeepsSingleSpaced | ETL/etl_pipeline.py:299 | Collapsing an already single-spaced text gives it back unchanged. |
| Text.CollapseKeepsWords | ETL/etl_pipeline.py:299 | Collapsing keeps the words and their breaks: `re.sub(r'\s+', ' ', s).split() == s.split()` for every `s`. |
| Text.JoinWordsOfClean | ETL/etl_pipeline.py:296-299 | A text with no whitespace at either end and single spaces inside is its words joined by single spaces. |
| Text.Split | ETL/etl_pipeline.py:219 | `str.split(sep)` gives at least one part, and no part contains the separator. |
| Text.JoinSplit | ETL/etl_pipeline.py:219 | Joining the parts of a split with the separator gives back the text. |
| Text.FirstMatch | ETL/etl_pipeline.py:339-340 | `re.findall(pattern, s)[0]`: absent exactly when no character of the class occurs; otherwise a non-empty run of the class. |
| Text.FirstMatchOfRun | ETL/etl_pipeline.py:339-341 | The first match in a text that is entirely one run is that text. |
| Text.RemoveAllTwice | ETL/etl_pipeline.py:325 | Deleting the same characters twice deletes them once. |
| Text.RemoveAllMembers | ETL/etl_pipeline.py:325 | No deleted character is left, and every remaining character comes from the input. |
| Text.WordsOfJoin | ETL/etl_pipeline.py:222-223 | `' '.join(words).split()` gives back the words. |
| Decimals.ParseRunAccepts | ETL/etl_pipeline.py:341 | `ParseRun`, the model of `float()`, accepts a `[\d.]+` run exactly when it has at most one dot and at least one digit. |
| Decimals.ParseDotted | ETL/etl_pipeline.py:341 | `float(w + '.' + f)` is the decimal `wf / 10^len(f)`. |
| Decimals.ParseRunWholePart | ETL/etl_pipeline.py:341 | The integer part of the parsed value is the number before the dot. |
| Decimals.RoundHalfEven | ETL/etl_pipeline.py:344 | `round()` gives the nearest integer, and a tie goes to the even one. |
| Decimals.Hundredths | ETL/etl_pipeline.py:344 | `round(x, 2)` in hundredths is at most half a hundredth from `100 * x`, and even on a tie. |
| Decimals.MeanHundredths | ETL/etl_pipeline.py:334 | `round((low + high) / 2, 2)` in hundredths is at most half a hundredth from `100 * (low + high) / 2`, and even on a tie. |
| Decimals.TruncatedTimes | ETL/etl_pipeline.py:375-380 | `int(x * k)` is the floor of the exact product. |
| Decimals.MeanOfWholeNumbers | ETL/etl_pipeline.py:334 | The rounded mean of two whole numbers is exact: `50 * (a + b)` hundredths. |
| FieldParsers.SinglePrice | ETL/etl_pipeline.py:339-344 | A single price is at most 1,000,000.00. |
| FieldParsers.ParsePrice | ETL/etl_pipeline.py:319-320 | `None` or `''` give no price. The branches that follow are stated by `RangeOfParts`, `PriceOfRange`, `PriceOfCleanedCases` and the single-price rows. |
| FieldParsers.RangeOfParts | ETL/etl_pipeline.py:327-344 | After cleaning, a text `x-y` with exactly one `-` is the rounded mean of the first numbers of `x` and `y`, decimal or whole, when both parts have one. Otherwise it falls through to the single price of the whole text, so `"Save-5"` gives 5.00. |
| FieldParsers.PriceOfCleanedCases | ETL/etl_pipeline.py:327-329 | A cleaned text with no `-`, or with two or more, is its single price: the range branch never applies. |
| FieldParsers.PriceOfRange | ETL/etl_pipeline.py:325-344 | The same as `RangeOfParts` for the raw text, whichever parts carry currency symbols or commas. |
| FieldParsers.DecimalRange | ETL/etl_pipeline.py:328-334 | Two amounts with two decimals joined by `-` give their mean, rounded half to even, with no bound on either end. |
| FieldParsers.PriceExampleDecimalRange | ETL/etl_pipeline.py:325-334 | `"$49.99-$99.99"` gives 74.99. |
| FieldParsers.PriceIgnoresSymbols | ETL/etl_pipeline.py:325 | Removing `$ , € £` first makes no difference. |
| FieldParsers.PriceSymbolDropped | ETL/etl_pipeline.py:325 | A currency symbol or comma anywhere in the text makes no difference. |
| FieldParsers.PriceRoundTrip | ETL/etl_pipeline.py:339-344 | A price written with two decimals reads back as its hundredths when strictly between 0 and 1,000,000, and as no price otherwise. |
| FieldParsers.DollarPriceRoundTrip | ETL/etl_pipeline.py:320-344 | The same with `$` in front. `"$0.00"` gives no price (`PriceExampleZero`). |
| FieldParsers.WholePriceRoundTrip | ETL/etl_pipeline.py:339-344 | A whole amount `n` reads back as `100 * n` when `0 < n < 1000000`, and as no price otherwise. |
| FieldParsers.PriceOfDotted | ETL/etl_pipeline.py:339-344 | `w.f` gives its rounded value exactly when `0 < w.f < 1000000`, checked before rounding. |
| FieldParsers.PriceExampleBelowCent | ETL/etl_pipeline.py:343-344 | `"0.001"` passes the bound and rounds to 0.00. |
| FieldParsers.RangeOfWholeNumbers | ETL/etl_pipeline.py:328-336 | `"a-b"` is the mean of `a` and `b`, with no bound on either end. |
| FieldParsers.DollarRangeOfWholeNumbers | ETL/etl_pipeline.py:325-336 | `"$a-$b"` is the mean, so `"$50-$100"` gives 75.00. |
| FieldParsers.LeadingMinusIgnored | ETL/etl_pipeline.py:328-344 | A leading `-` in front of a text without one changes nothing: the sign is lost. |
| FieldParsers.PriceExampleNegative | ETL/etl_pipeline.py:328-344 | `"-5"` gives 5.00. |
| FieldParsers.PriceExamplePlain | ETL/etl_pipeline.py:339-344 | `"99.99"` gives 99.99. |
| FieldParsers.ParseReviewsCount | ETL/etl_pipeline.py:352-390 | `None` or `''` give 0. The type makes the count non-negative. |
| FieldParsers.ReviewsIgnoreCommas | ETL/etl_pipeline.py:372 | Removing the commas first makes no difference. |
| FieldParsers.ReviewsCommaDropped | ETL/etl_pipeline.py:372 | A comma anywhere in the text makes no difference. |
| FieldParsers.ReviewsRoundTrip | ETL/etl_pipeline.py:383-385 | A plain number of reviews reads back as itself. |
| FieldParsers.ReviewsOfCountThenWord | ETL/etl_pipeline.py:372-385 | A count followed by a word without `k`, `m` or commas is that count, so `"1,234 reviews"` gives 1234. |
| FieldParsers.ThousandsRoundTrip | ETL/etl_pipeline.py:375-377 | `n` followed by `k` is `1000 * n`. |
| FieldParsers.ThousandsOfDotted | ETL/etl_pipeline.py:375-377 | `w.f` followed by `k` is the floor of 1000 times the decimal. |
| FieldParsers.ReviewsExampleThousands | ETL/etl_pipeline.py:375-377 | `"1.2k"` gives 1200. |
| FieldParsers.MillionsRoundTrip | ETL/etl_pipeline.py:378-380 | `n` followed by `m` is `1000000 * n`. |
| FieldParsers.ThousandsBeforeMillions | ETL/etl_pipeline.py:375-380 | The `k` test comes first: `n` followed by `mk` is `1000 * n`. |
| FieldParsers.ReviewsWithoutDigits | ETL/etl_pipeline.py:367-390 | A text without a digit gives 0, including when `float()` rejects the `k`/`m` run. |
| FieldParsers.ParseRating | ETL/etl_pipeline.py:393-423 | `None` or `''` give no rating, and a rating is at most 5.00. |
| FieldParsers.RatingRoundTrip | ETL/etl_pipeline.py:413-418 | A rating written with two decimals reads back as itself when at most 5.00, and as no rating otherwise. |
| FieldParsers.RatingOfDotted | ETL/etl_pipeline.py:413-418 | `w.f` gives its rounded value exactly when it is at most 5. |
| FieldParsers.RatingIgnoresTail | ETL/etl_pipeline.py:413-415 | Text after the number, such as `" out of 5 stars"`, makes no difference. |
| FieldParsers.RatingExamplePlain | ETL/etl_pipeline.py:413-418 | `"4.5"` gives 4.50. |
| FieldParsers.RatingExampleTooHigh | ETL/etl_pipeline.py:417-418 | `"6.0"` gives no rating. |
| FieldParsers.BrandSegment | ETL/etl_pipeline.py:219 | The segment is the prefix of the title up to the first `-` or `,`: it contains neither character, and it ends at the end of the title or just before one of them. |
| FieldParsers.ExtractCompanyFromName | ETL/etl_pipeline.py:205-225 | The company is `'Unknown'` when the brand segment has no words. Otherwise it is clean and its words are the segment's first (up to) three words, so it is exactly those words joined by single spaces. |
| FieldParsers.CompanyOfWords | ETL/etl_pipeline.py:222-223 | No words give `'Unknown'`. For a list of words, the result is clean (single spaces between words, none at the ends) and splitting it gives back the first (up to) three, so it is exactly their single-space join. |
| Transform.Field | ETL/etl_pipeline.py:257-263 | `raw.get(key, default)`: the default only for an absent key. A key present with `None` stays `None`. |
| Transform.Get | ETL/etl_pipeline.py:262-265 | `raw.get(key)`: `None` for an absent key. |
| Transform.TextField | ETL/etl_pipeline.py:257-263 | An absent key gives the default. A present key gives its cleaned value. |
| Transform.TextFieldIsCleanedGet | ETL/etl_pipeline.py:257-263 | For a clean default this equals `_clean_text(raw.get(key, default))`. |
| Transform.Cleaned | ETL/etl_pipeline.py:253-279 | The output is no longer than the input. |
| Transform.TransformData | ETL/etl_pipeline.py:232-279 | The loop returns exactly `Cleaned(TransformRecord, raws)`. |
| Transform.CleanedAppend | ETL/etl_pipeline.py:253-272 | Splitting the input splits the output, so input order is kept. |
| Transform.CleanedAllValid | ETL/etl_pipeline.py:268-269 | Every output product has a non-empty id, name and url. |
| Transform.CleanedMembers | ETL/etl_pipeline.py:253-272 | A product is in the output exactly when it is the valid transform of some input record. |
| Transform.CleanedKeepsAllValid | ETL/etl_pipeline.py:253-272 | When every record is valid, the output is every transform, in order. |
| Transform.MissingKeyDropped | ETL/etl_pipeline.py:257-269 | A record without a `product_id` or `url` key is dropped. |
| Transform.DefaultsOnlyWhenAbsent | ETL/etl_pipeline.py:258-260 | `'Unknown'` and `'Uncategorized'` are substituted only for an absent key. A key present with `None` gives `''`. |
| Transform.TransformRecordShape | ETL/etl_pipeline.py:256-266 | `TransformRecord`, the `Product(...)` of the loop body: every text field is clean, defaults included, and a rating is at most 5.00. |
| Transform.KeptExactlyWhen | ETL/etl_pipeline.py:256-270 | `IsValid` of the transform, on the raw record: a record is kept exactly when `product_id` and `url` are present and not all whitespace, and `name` is absent or not all whitespace. |
| Transform.MissingNameKept | ETL/etl_pipeline.py:258-269 | A record without a `name` key is kept and named `'Unknown'`. The same record with `name: None` is dropped. |
| Transform.EmptyNameRejected | ETL/etl_pipeline.py:268-271 | A record whose name is `''` fails the required-fields test. |
| Loader.Lookup | ETL/etl_pipeline.py:648-649 | `dict.get(key)`: present exactly when the key is in the map, with its value. |
| Loader.CategoryNames | ETL/etl_pipeline.py:524 | The distinct non-empty categories of the batch. |
| Loader.CompanyNames | ETL/etl_pipeline.py:573 | The distinct non-empty companies of the batch. |
| Loader.InsertOrFetch | ETL/etl_pipeline.py:530-547 | A stored name keeps its id and adds no row. A new name gets the next auto-increment id. |
| Loader.ResolveNames | ETL/etl_pipeline.py:535-553 | Ids stay distinct and below the counter. The returned map's keys are the names whose statement succeeds. Stored names keep their ids, the map agrees with the table, and new names get new ids. When every name is already stored, the table and the model's counter stay unchanged. |
| Loader.Database.constructor | ETL/etl_pipeline.py:430-507 | An empty database that satisfies `Valid`: ids in each name table are distinct and below the auto-increment counter, every product row refers to existing ids, and every metrics row has its product. Every loader keeps `Valid`. |
| Loader.Database.LoadCategories | ETL/etl_pipeline.py:510-556 | `_load_categories` on the store: the map's keys are the batch's categories minus the failed ones, and the table gains exactly those. A second run of the same batch leaves the table unchanged, because all its names are stored. The other tables are untouched. |
| Loader.Database.LoadCompanies | ETL/etl_pipeline.py:559-606 | The same for `_load_companies`. |
| Loader.RowOf | ETL/etl_pipeline.py:647-659 | The row's foreign keys are the `dict.get` of the category and company maps, and `updated_at` is the load time. |
| Loader.Database.LoadProducts | ETL/etl_pipeline.py:609-667 | The products table becomes `UpsertProducts` of the old one, and the returned count is the number of succeeding statements. The other tables are untouched and the store stays valid. |
| Loader.Succeeded | ETL/etl_pipeline.py:661-664 | No more statements succeed than the batch has. |
| LoaderProperties.SucceededWithoutFaults | ETL/etl_pipeline.py:661-664 | Without failures, every statement is counted. |
| LoaderProperties.LastIndexOf | ETL/etl_pipeline.py:645 | The last position in the batch with a given `product_id`. |
| LoaderProperties.UpsertProductsAt | ETL/etl_pipeline.py:627-641 | The products fold `UpsertProducts`, row by row: there is one row per `product_id`. Its row is that of the last product in the batch with the id, `updated_at` included. Ids the batch does not write keep their rows. |
| LoaderProperties.UpsertProductsKeys | ETL/etl_pipeline.py:627-641 | No row is lost. The table gains exactly the ids written. |
| LoaderProperties.UpsertProductsTwice | ETL/etl_pipeline.py:627-641 | Loading a batch again adds no row. Only `updated_at` moves. |
| Loader.MetricsOf | ETL/etl_pipeline.py:684-714 | Counts, rating and `is_featured` come from the product. `snapshot_date` is today's for a new row and the stored one on conflict. |
| Loader.Database.LoadProductMetrics | ETL/etl_pipeline.py:670-721 | The metrics table becomes `UpsertMetrics` of the old one, with the count of accepted statements. The other tables are untouched. |
| Loader.MetricsSucceeded | ETL/etl_pipeline.py:716-719 | No more metrics statements succeed than the batch has. |
| LoaderProperties.UpsertMetricsAt | ETL/etl_pipeline.py:684-705 | The metrics fold `UpsertMetrics`, row by row: an id has a row exactly when it had one or some statement for it is accepted (`MetricsAccepted`: not failing, and the product exists). The last product of the batch with the id gives counts, rating and the featured flag. The first snapshot date is kept. Untouched rows stay as they were. |
| LoaderProperties.UpsertMetricsNoOrphans | ETL/etl_pipeline.py:684-710 | No metrics row without its product. |
| LoaderProperties.UpsertMetricsTwice | ETL/etl_pipeline.py:684-705 | Loading the same metrics again, on any day, changes nothing. |
| LoaderProperties.FeaturedBoundaries | ETL/etl_pipeline.py:701-705 | `IsFeatured`, the model of `is_featured`, holds exactly when the rating is present, at least 4.50, and the reviews count is at least 100. |
| LoaderProperties.FeaturedScenarios | ETL/etl_pipeline.py:701-705 | 4.7 stars with 150 reviews is featured. With 50 reviews it is not. |
| Loader.Database.LoadToDatabase | ETL/etl_pipeline.py:430-507 | It raises exactly when connecting fails or the transaction fails. It skips exactly when the connection is not live. When it does not commit, all four tables are as before. When it commits, the name tables gain the batch's names and keep their ids. Products are `UpsertProducts` of the batch with `BatchRefs`: each succeeding name of the batch mapped to its id in the new name table, which is what `_load_categories` and `_load_companies` return. Metrics are `UpsertMetrics` of the batch. |
| Loader.Database.Rollback | ETL/etl_pipeline.py:495-499 | The tables are restored and the auto-increment counters are kept. |
| Loader.ReferencesGrow | ETL/etl_pipeline.py:480-486 | Product rows stay resolvable while the name tables keep their ids. Together with `RefsResolve` (the maps handed to `_load_products` hold only existing ids) this keeps `Valid` through the transaction. |
| Pipeline.Outcome | ETL/etl_pipeline.py:753-786 | It aborts for no input, and aborts for no valid record. Otherwise it fails exactly when the load raises, and completes reporting the number of cleaned products. |
| Pipeline.RunEtlPipeline | ETL/etl_pipeline.py:728-786 | The run ends as `Outcome` of the input size, the cleaned size and whether the load raises. A run that does not commit leaves every table unchanged: it aborts, fails, or completes without a live connection. A completed run on a live connection leaves the tables that `LoadToDatabase` promises for the cleaned records: each name table keeps its ids and gains exactly the batch's names whose insert succeeds, products as `UpsertProducts` of the batch with `BatchRefs` of the new name tables, and metrics as `UpsertMetrics` of the batch. |
| Pipeline.NotConnectedStillCompletes | ETL/etl_pipeline.py:774-780 | A run whose connection is not live still reports success. |
| Pipeline.ThreeRecordScenario | ETL/etl_pipeline.py:759-780 | Of three records, the one with an empty name is dropped, and the run reports two products. |
| Pipeline.DropsMiddle | ETL/etl_pipeline.py:253-272 | An invalid record between two valid ones is the only one dropped. |
| Validation.CountStatus | validate_etl.py:279-281 | A table line is PASS exactly when its count is positive, and FAIL exactly when it is 0. |
| Validation.CheckStatus | validate_etl.py:289-307 | A quality line is PASS for 0. A positive count is WARNING for price and rating, and FAIL for duplicates and orphans. |
| Validation.CountOrZero | validate_etl.py:316-318 | `checks.get(key, 0)`: a missing entry counts as 0. |
| Validation.Reported | validate_etl.py:313-319 | Without any quality results, every check counts as 0. |
| Validation.OverallStatus | validate_etl.py:312-324 | FAIL exactly when a table has no rows, or duplicates or orphans are positive. Otherwise WARNING exactly when products lack a price or rating. Otherwise PASS. |
| Validation.FallbackCount | validate_etl.py:70-81 | A count query that raises records 0. |
| Validation.CountsOf | validate_etl.py:66-81 | One entry per table, in the script's order, holding the count or its fallback. |
| Validation.CountLines | validate_etl.py:275-281 | One line per table count, in order, labelled PASS exactly when the count is positive. |
| Validation.CheckLineOf | validate_etl.py:289-307 | A quality line appears exactly when its entry exists, with the label of `CheckStatus`. |
| Validation.CheckLines | validate_etl.py:284-307 | At most four quality lines. |
| Validation.Validator.constructor | validate_etl.py:35-40 | No results are stored. |
| Validation.Validator.ValidateTableCounts | validate_etl.py:62-84 | The counts are `CountsOf` the answers and are stored, and the quality results are untouched. |
| Validation.Validator.ValidateDataQuality | validate_etl.py:86-153 | Each entry is the query's answer, absent when the query raised. The entries are stored. |
| Validation.Validator.GenerateReport | validate_etl.py:266-329 | The table lines, then the quality lines, then the overall status of the stored results. |
| Validation.Validator.TableSection | validate_etl.py:275-281 | The table part of the report. |
| Validation.Validator.QualitySection | validate_etl.py:284-307 | The quality part, in the script's order. |
| Validation.Validator.DetermineOverallStatus | validate_etl.py:312-324 | The status decided step by step equals `OverallStatus`. |
| Validation.QueryErrorFails | validate_etl.py:79-81 | A count query that raises forces an overall FAIL, whatever the quality checks say. |
| Validation.EmptyTableFails | validate_etl.py:321-324 | With every count answered, a table counts as empty exactly when its query answered 0. |
| Validation.NothingStoredPasses | validate_etl.py:313-324 | With no stored results, the status is PASS. |
| Validation.ProductsWithoutPrice | validate_etl.py:94-100 | The products whose price is NULL or 0. |
| Validation.MetricsWithoutRating | validate_etl.py:107-113 | The metrics rows without a rating. |
| Validation.QualityOf | validate_etl.py:92-150 | On a store, all four queries answer. The price and rating counts are 0 exactly when no such row exists. The orphan count is 0 exactly when every metrics row has its product. The duplicate count is 0. |
| Validation.QualityCounts | validate_etl.py:92-150 | The price count is the number of products with a NULL or 0 price, the rating count the number of metrics rows with a NULL rating, and the orphan count the number of metrics rows without a product. |
| Validation.LoadedStoreVerdict | validate_etl.py:118-150 | On a store the loader keeps valid, the duplicate and orphan checks pass. The report then fails only for an empty table, and warns exactly when a product lacks a price or a metrics row lacks a rating. |

## Left out

- Extraction (`extract_products`, `_extract_products_from_page`): HTTP requests, HTML parsing and sleeping. The raw records are an input to `RunEtlPipeline`.
- Connection set-up, cursors, closing, logging and the elapsed-time report are not modelled. The connection's behaviour is a parameter (`Connection`, `FailPoint`).
- `date.today()` and `CURRENT_TIMESTAMP` are parameters (`today`, `now`).
- Which statements the server rejects is a parameter (`StoreFaults`), given per table and per key. The model does not say why a statement fails.
- Floating point is not modelled. `float()`, `round(x, 2)` and `int(x * k)` are exact decimal arithmetic, and `round` is half-to-even on the exact value. Python works on the nearest double instead, and a decimal such as 2.675 or 1.005 is not a double. So the two can differ at any size, wherever the exact value sits on a rounding tie or on an integer boundary of `int(x * k)`. `"$2.675"` gives 2.67 in Python, because the double is just below 2.675, and 2.68 in the model. `"1.005k"` gives 1004 in Python, because `1.005 * 1000` is 1004.9999999999999, and 1005 in the model. Away from ties and boundaries they agree while the values, their sums and their products are below 2^53 once scaled. Past that, Python also loses precision: `"0.5-9007199254740992"` gives 4503599627370496.00 in Python and 4503599627370496.25 in the model.
- Values past the double range are not modelled. A run whose value is about 1.8e308 or more is `inf` to `float()`. A reviews text with `k` or `m` then makes `int(inf * 1000)` or `int(inf * 1000000)` raise `OverflowError`. `_parse_reviews_count` does not catch it (ETL/etl_pipeline.py:370-388), so `transform_data` skips the record (ETL/etl_pipeline.py:274-276), where the model keeps it with the exact count. A range price with such an end is `inf` in Python and an exact mean in the model. A single price or rating with such a value is rejected by its bound in both.
- Text.IsDigit: only the ASCII digits are digits. In the source, `\d`, `int()` and `float()` also accept the other Unicode decimal digits, so a fullwidth `"１２３"` gives 123 reviews in the source and 0 in the model, and an Arabic-Indic price has a value only in the source.
- Raw values are strings or `None`. A value of another type, which would make `_clean_text` raise and `transform_data` skip the record, is not modelled.
- Exceptions other than a database `Error` escaping the loaders are not modelled. `TransformData` cannot fail.
- Loader.ResolveNames: the order in which the loop takes names from the set is left open, as Python's set order is. So the contract does not say which new name gets which id, only that new ids are distinct, come from `[next, next')`, and the counter only grows.
- Loader.ResolveNames: the `lastrowid == 0` re-select is taken to find the stored id. Its branch where the re-select finds no row, and id 0 is put in the map, is not modelled.
- Auto-increment gaps are not modelled. In the model the counter grows only when a row is inserted. InnoDB also uses up a value on a failed insert and on each `ON DUPLICATE KEY UPDATE` that takes the update path. So "a second run leaves the table unchanged" (`LoadCategories`, `ResolveNames`) holds for the tables, not for the server's counter.
- The schema (`setup_database.py` and its SQL) is not part of this model. The unique keys and the metrics foreign key are assumed, as described above.
- Loader.InsertOrFetch: keys compare as exact strings. This also holds for `ResolveNames` and the `product_id` keys of the products and metrics tables. The database is created with `COLLATE utf8mb4_unicode_ci` (setup_database.py:68-69), which compares case- and accent-insensitively. At the server, `"Apple"` and `"APPLE"` in one batch share one `companies` row and both map entries get its id, where the model stores two rows with distinct ids.
- `generate_statistics` and the statistics entry of `validation_results` are not modelled. They are read-only aggregates over floating point.
- `run_validation`, `connect` and `disconnect` are not modelled: connection handling and printing.
- The text of the report is not modelled: banner, timestamp, column padding and thousands separators. The report is the sequence of its labelled lines.
- Validation.QualityOf: the duplicate-id query answers 0 by construction, because the products table is a map keyed by `product_id`.
- `etl_pipeline_books.py`, `ANALYTICS/analytics.py` and `ETL/config.py` are not part of this model.
- Concurrency is not modelled: there is a single writer.
