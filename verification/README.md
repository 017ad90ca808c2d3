# Restaurant recommendation search, modelled in Dafny

This project models the search logic of a small restaurant-recommendation web
application. The logic is `get_recommendations(query, search_by)` in `app.py`.
It takes a free-text query and a search mode and returns at most ten restaurant
records from a CSV dataset. Each record is projected to the fields link, name,
ratings, cuisine and price. The project also models the helper
`exact_price_match(query, price_value)`, which no route calls.

The dataset is an input: a `Table` holding the set of known columns present in
the header and the rows in file order. A missing (NaN) cell is `None`. Every
operation is a pure function.

- `wrappers.dfy`: module `Wrappers`, the `Option` type.
- `text.dfy`: module `Text`, the string operations the search uses:
  `str.strip()`, `str.lower()`, `re.sub(r'[^\d]', '', s)`, `int(s)`,
  substring search and `re.findall(r'\d+', s)`.
- `dataset.dfy`: module `Dataset`, with rows, tables, the returned
  `Recommendation` record, the derived `price_cleaned` value and the 64-bit
  limit of `astype(int)`.
- `recommend.dfy`: module `Recommend`, with the price bands, the mode
  dispatch, the filter, the projection with its ten-record cut, the `/index`
  route's empty-query guard, and the properties of the search.
- `price_match.dfy`: module `PriceMatch`, with `exact_price_match` as written
  and a range-aware variant (see Findings).

## Behaviour worth knowing

- `astype(str)` prints a missing cell as `nan` (pandas 1.3 to 2.x; see Left out).
  - A missing price therefore has `price_cleaned` 0, which puts it in the lowest band.
  - A missing rating is the text `nan`. A ratings search for "nan" (or "n", or "a") finds it.
  - A missing name or cuisine never matches, because of `na=False`.
- The final projection selects all five columns. If any of them is missing
  from the file, every search returns an empty list. A file without a price
  column therefore returns nothing in every mode.
- An empty or whitespace-only query in name or cuisine mode matches every row
  whose searched field is present. A row with a missing field does not match.
- If some price's digits do not fit in 64 bits, `astype(int)` raises. That
  empties every search, whatever the mode.

## Model

| member | source | states |
|---|---|---|
| Text.Strip | app.py:77 | the result is a slice of the input with only whitespace (Python's `isspace` set) cut from both ends, it neither starts nor ends with whitespace, and it is empty exactly when the input is all whitespace |
| Text.StripIdempotent | app.py:77 | stripping twice is the same as stripping once |
| Text.Normalize | app.py:77 | the normalised query is empty exactly when the raw query is all whitespace |
| Text.NormalizeKeepsPlainText | app.py:77 | a query without surrounding whitespace or upper-case letters is already normalised |
| Text.NormalizeIdempotent | app.py:77 | a normalised query is unchanged by normalising it again |
| Text.Lower | app.py:77 | lower-casing keeps the length, maps each character to its lower-case form, leaves no upper-case letter and keeps every other character as it is |
| Text.LowerRemovesUpper | app.py:77 | lower-casing leaves no upper-case letter and changes only upper-case letters, each to its lower-case partner |
| Text.DigitsOnly | app.py:82 | the result consists of digits only, and is empty exactly when the text has no digit |
| Text.DigitsOnlyAppend | app.py:82 | digit extraction distributes over concatenation, so digits keep their order |
| Text.DigitsOnlyAroundSeparator | app.py:82 | the digits of "d, separator, e" are d followed by e when the separator has no digit |
| Text.DigitsOnlyAround | app.py:82 | text without digits around x does not change the digits extracted from x |
| Text.DigitsValueAppend | app.py:84 | reading two digit strings as one number shifts the first by the length of the second |
| Text.DigitsValueShowNat | app.py:84 | reading the decimal rendering of n gives n back |
| Text.ParseInt | app.py:95 | `int()` succeeds exactly on an optional sign followed by one or more ASCII digits; unsigned values are non-negative (no limit on the number of digits) |
| Text.ParseRejectsLeadingOther | app.py:95 | a text starting with neither a digit nor a sign is not an integer |
| Text.ParseShowInt | app.py:95 | reading back the decimal rendering of any integer n gives n (no limit on the number of digits) |
| Text.ParseUnsigned | app.py:95 | a digit string, with or without a leading '+', is read as its decimal value, leading zeros included ("0700" and "+700" are 700) |
| Text.DigitlessQueryIsNotInteger | app.py:77-95 | a query without digits that is not all whitespace is rejected by `int()` once stripped and lower-cased |
| Text.IsSubstring | app.py:88 | a found needle is no longer than the text, and the empty needle is found in every text |
| Text.SubstringAtOffset | app.py:88 | the substring test succeeds exactly when the needle occurs at some offset of the text |
| Text.DigitRuns | app.py:130 | every run `re.findall(r'\d+')` returns is non-empty and made of digits |
| Text.DigitRunsJoinDigits | app.py:130 | the runs, joined, are exactly the digits of the text, and there are none exactly when the text has no digit |
| Text.DigitRunsOfRange | app.py:130 | the digit runs of "d-e" are exactly d and e |
| Dataset.PriceCleaned | app.py:80-85 | `price_cleaned` is non-negative, is 0 when the price text has no digit, and is bounded by the number of digits |
| Dataset.MissingPriceIsZero | app.py:81-83 | a missing price ("nan") has `price_cleaned` 0 |
| Dataset.PriceCleanedOfDecorated | app.py:80-85 | text without digits around one number does not change its value ("Rs. 800 for two" is 800) |
| Dataset.PriceCleanedJoinsDigitGroups | app.py:82-84 | separators are dropped and digit groups are joined, so "500-1000" reads as 5001000 |
| Dataset.PriceCleanedAppend | app.py:80-85 | the value of a price text split anywhere is the left part's value shifted past the right part's digits plus the right part's value, so "2,050" is 2050 and "1,00,000" is 100000 |
| Dataset.PriceCleanedOfChar | app.py:80-85 | a one-character price text is worth its digit, or 0 for any other character |
| Dataset.CellText | app.py:81 | a present cell prints as its text, and the printed text is "nan" exactly when the cell is missing or holds "nan" |
| Dataset.ShortPricesFit | app.py:84 | a price text with at most 18 digits has a `price_cleaned` within the 64-bit range |
| Dataset.PriceOverflows | app.py:80-85 | `astype(int)` can overflow only on a price text with at least 19 digits |
| Recommend.Band | app.py:96-109 | the band the query price is classified into is one of the seven, and the price lies within that band's bounds |
| Recommend.BandsPartition | app.py:96-109 | the seven bands partition the integers: a value lies in band k exactly when k is its band |
| Recommend.BandSelectsSameBand | app.py:96-109 | the price branch keeps a row exactly when its `price_cleaned` lies in the same band as the query price |
| Recommend.BandSelects | app.py:96-109 | the price comparisons of the chosen branch hold exactly when the value lies in the band the query price selects |
| Recommend.Selects | app.py:88 | a name or cuisine test never passes on a missing field (`na=False`) |
| Recommend.SelectsMeaning | app.py:87-114 | a name, cuisine or ratings test passes exactly when the query occurs at some offset of the lower-cased field (a missing rating read as "nan"), and the price test exactly when the row's `price_cleaned` lies in the query price's band |
| Recommend.Select | app.py:87-117 | the mode dispatch fails exactly for an unknown mode or a non-integer price query; otherwise the criterion matches the mode and carries the normalised query or its integer value |
| Recommend.Plan | app.py:74-123 | the search is abandoned exactly when the query is missing, a projected column is missing, a price overflows 64 bits, the mode is unknown, or a price query is not an integer |
| Recommend.Filter | app.py:88 | the filtered rows are rows of the table, no more than it has, and each passes the criterion |
| Recommend.Positions | app.py:88 | the selected indices are strictly increasing, in range, and each selects a passing row |
| Recommend.PositionsComplete | app.py:88 | every passing row's index is listed |
| Recommend.FilterFollowsPositions | app.py:88 | the filtered rows are exactly the rows at the selected indices, in order |
| Recommend.FilterEmpty | app.py:88 | filtering keeps nothing exactly when no row passes |
| Recommend.TopProjected | app.py:119 | the result holds the first min(10, hits) hits, each projected to the five returned fields |
| Recommend.TopProjectedIgnoresLaterHits | app.py:119 | once ten hits exist, further hits do not change the result |
| Recommend.GetRecommendations | app.py:74-123 | at most ten records are returned, and none on any error path |
| Recommend.FirstMatchesInSourceOrder | app.py:119 | the result is the projection of the first min(10, matches) passing rows, in source order |
| Recommend.NoMatchSkipped | app.py:119 | every passing row is returned when fewer than ten pass; otherwise every passing row up to the tenth is |
| Recommend.NameResultsContainQuery | app.py:87-88 | every record returned by a name search has a name whose lower-cased form contains the normalised query |
| Recommend.CuisineResultsContainQuery | app.py:90-91 | every record returned by a cuisine search has a cuisine whose lower-cased form contains the normalised query |
| Recommend.RatingsResultsContainQuery | app.py:113-114 | every record returned by a ratings search has rating text containing the normalised query; this is text search, not a numeric comparison |
| Recommend.MissingRatingMatchesNan | app.py:114 | a missing rating prints as "nan", and the query "NaN" selects it |
| Recommend.PriceResultsShareQueryBand | app.py:93-109 | every record returned by a price search lies in the query price's band |
| Recommend.Price700SelectsSecondBand | app.py:95-99 | the query "700" selects exactly the rows with `price_cleaned` in (500, 1000] |
| Recommend.NonIntegerPriceIsEmpty | app.py:93-111 | a price query that `int()` rejects returns nothing |
| Recommend.AbcIsNotAnInteger | app.py:77-95 | the query "abc" normalises to a text that `int()` rejects |
| Recommend.UnknownModeIsEmpty | app.py:116-117 | any mode other than the four returns nothing |
| Recommend.RouteDefaultIsEmpty | app.py:70-71 | the routes' default mode "names" returns nothing |
| Recommend.MissingColumnIsEmpty | app.py:119-123 | a table lacking any of the five projected columns returns nothing in every mode |
| Recommend.OversizedPriceIsEmpty | app.py:80-85 | a price whose digits exceed the 64-bit range empties every search |
| Recommend.BlankQueryMatchesPresentField | app.py:87-91 | a blank name or cuisine query matches exactly the rows whose searched field is present |
| Recommend.BlankQueryReturnsFirstRows | app.py:87-91 | on a table where every row has the searched field, a blank name or cuisine query returns the first ten rows |
| Recommend.IndexEmptyVersusBlank | app.py:31-33 | the `/index` route returns nothing for the empty query, but a one-space query is searched and returns named rows |
| Recommend.IndexResults | app.py:33 | the `/index` route returns nothing for the empty query string and otherwise exactly what the search returns |
| Recommend.IndexHidesEmptyQuery | app.py:31-33 | the route returns nothing for the empty query, even though the search given that query finds something exactly when some row has the searched field |
| Recommend.BlankSearchFindsPresentField | app.py:87-91 | a blank name or cuisine search finds something exactly when some row has the searched field |
| PriceMatch.DigitsOnlyHasNoHyphen | app.py:126 | reducing the price text to digits removes every '-' |
| PriceMatch.InRange | app.py:129-133 | the range test passes only with exactly two digit runs, a query `int()` accepts, and a lower bound no greater than the upper one |
| PriceMatch.ExactPriceMatch | app.py:124-138 | as written, a blank query matches only a price without digits, and any other match needs a query `int()` accepts |
| PriceMatch.ExactPriceMatchIsDigitEquality | app.py:124-134 | as written, the match holds exactly when the stripped query equals the digits of the price text; the range branch is dead |
| PriceMatch.RangePriceNeverMatches | app.py:126-134 | as written, a number n never matches a range price "a-b" with n <= b |
| PriceMatch.RangeTextNeverMatches | app.py:126-134 | as written, "700" does not match the price "500-1000" |
| PriceMatch.DecoratedRangePriceNeverMatches | app.py:126-134 | as written, a number n never matches a range price written among other words, "Rs. a-b for two", with n <= b |
| PriceMatch.KeepPriceChars | app.py:126 | the corrected cleaning keeps only digits and hyphens, and keeps nothing exactly when the text has neither |
| PriceMatch.KeepPriceCharsAppend | app.py:126 | the corrected cleaning distributes over concatenation, so the kept characters stay in order |
| PriceMatch.RangeAwareMatchesInclusiveRange | app.py:129-133 | with hyphens kept, n matches "a-b" exactly when a <= n <= b |
| PriceMatch.RangeAwareMatchesDecoratedRange | app.py:126-133 | with hyphens kept, n matches "Rs. a-b for two" exactly when a <= n <= b |
| PriceMatch.RangeAwareAgreesWithoutHyphen | app.py:134 | on price texts without a hyphen, the corrected match agrees with the original |

## Left out

- Web routes, sessions, flash messages and template rendering (app.py:27-73, 139-147). These are web I/O. Only the `/index` route's empty-query guard (app.py:33) is modelled, as `Recommend.IndexResults`.
- The user and restaurant ORM models, table creation, signup and login (app.py:10-26, 35-65). This is an ORM, and password hashing is a library call.
- Reading the CSV (app.py:76) is left out. The table is an input, and rows that fail to parse are simply absent. A file that cannot be read makes the source return an empty list; the model does not represent that case.
- Recommend.GetRecommendations: requires that the normalised query contains no regular-expression metacharacter in name, cuisine and ratings mode. `str.contains` treats the query as a regex; the model treats it as literal text.
- Text.Lower: maps only the ASCII letters A-Z. Python's `str.lower` covers all of Unicode.
- Text.ParseInt: accepts only an optional sign followed by ASCII digits. Python's `int()` also accepts underscores between digits and non-ASCII decimal digits. It also has no digit limit, while Python 3.11 and later (and the security releases that brought the limit to earlier versions) raise ValueError for a decimal text of more than 4300 digits.
- Text.ParseShowInt: holds for integers of any size. Python 3.11 and later raise ValueError in `str(n)` and `int()` beyond 4300 decimal digits, so there the round trip holds only up to that length.
- Text.DigitsOnly: keeps only ASCII digits. Python's `\d` also matches other Unicode decimal digits.
- Dataset.CellText: follows pandas 1.3 up to 2.x, where `astype(str)` prints a missing cell as "nan"; `app.py` needs pandas 1.3 or later for `on_bad_lines`, and no version is pinned. From pandas 3.0 the default string type keeps a missing cell missing. A missing price then stays missing through app.py:82-83 and `astype(int)` raises at app.py:84, emptying every search, where the model reads it as 0 (Dataset.MissingPriceIsZero); a missing rating no longer matches "nan" at app.py:114 (Recommend.MissingRatingMatchesNan).
- Cell printing: `astype(str)` of a cell (app.py:81, 114) is taken as a given text per row. For example, a price column that pandas reads as floats prints "500.0", whose digits read as 5000. The model sees only the printed text.
- Name or cuisine columns that hold non-text values, where pandas' `.str` accessor gives NaN or raises, are left out. Cells are texts or missing.
- Dataset.Int64Max: `astype(int)` is taken to be 64 bits wide. On platforms where it is 32 bits the limit is lower.
- The console `print` calls (app.py:122, 128, 132, 137) are left out.

## Findings

| source | as written | input that shows it | evidently intended | confidence | as-written member | corrected member |
|---|---|---|---|---|---|---|
| app.py:126-133 | the price text is reduced to digits with `[^\d]` before the `'-' in price_value` test, so the range branch can never run | query "700", price "500-1000": the digits are "5001000", so the result is False | a price range "a-b" matches every query n with a <= n <= b, so the result is True | high that the branch is dead; the intent is inferred from the branch itself; not executed | PriceMatch.RangePriceNeverMatches | PriceMatch.RangeAwareMatchesDecoratedRange |
