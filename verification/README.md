# DataBuilder analytics core in Dafny

This project models the pure core of the DataBuilder analytics path and proves properties about it. The core has four parts:

- **Cache keys** (`generate_analytics_cache_key`). The key of an analytics query is `analytics:` followed by the MD5 hex digest of a canonical JSON payload. The payload holds the ISO dates, the sorted dimension and metric lists, and the member names in `sort_keys` order.
  - The payload is modelled down to the text: ISO formatting, `json.dumps` with `ensure_ascii` escaping, and `.encode("utf-8")` as the general UTF-8 encoding of RFC 3629.
  - Each step has a decoder as its partner: the ISO date parser, the JSON payload reader `Json.ParsePayload`, and `Utf8.Decode`. So the bytes handed to the digest identify the query.
  - The hex digest is modelled down to the text too. MD5 itself is a function parameter.
  - Modules: `IsoDate`, `Json`, `Utf8`, `Hex`, `LexOrder`, `Sorting`, `CacheKey`.
- **Period comparison** (`calculate_diffs`). The previous period's metrics are renamed `{m}_prev` and the two periods are outer-joined on the grouping columns. Missing cells become 0. For each base metric, the requested `{m}_diff` (rounded difference) and `{m}_diff_percent` (saturating percentage) columns are added.
  - A frame is a column set plus rows indexed by the tuple of merge-column values.
  - The method `Comparison.CalculateDiffs` runs the same steps as the source, one function per pandas operation, in module `Diffs`. Its contract is stated against a reference definition: the map from key to the pair (current value, previous value), with 0 for a missing side.
  - Modules: `Frames`, `Strings`, `Rounding`, `Diffs`, `Comparison`.
- **Request check** (`validate_comparison_metrics`). A request that asks for a metric ending in `_prev`, `_diff` or `_diff_percent` needs a truthy `prev_date_range`. Module: `Validators`.
- **Aggregation service** (`AnalyticsService`). Requested names are resolved through the two registries. The cart lines of an inclusive datetime window are grouped by the looked-up values and summed per metric. The grouping columns are then renamed back to the requested dimension names.
  - A line is a record that mirrors `CartItem`, and a product's brand is optional.
  - The database read becomes a sequence argument.
  - Module: `Services`. Module `Pipeline` connects the last two parts: the aggregated table, indexed by its dimension values, has the shape the comparison takes.

Modelling choices:

- Amounts are exact `real`s. The comparison is modelled for numeric (float) metric columns; the aggregation's sums are Django `Decimal`s, a gap stated under "## Left out".
- `round(2)` is exact rounding of halves to even (`Rounding.Round2`).
- The infinities and NaN of the percentage exist only through the case split that `numpy.nan_to_num` applies.
- Datetimes are integers on one time scale.

## Model

| member | source | states |
|---|---|---|
| CacheKey.GenerateAnalyticsCacheKey | DataBuilder/utils.py:8-24 | the key is `analytics:` followed by lower-case hex text that reads back as exactly the digest of the canonical payload bytes; its length is the prefix plus two characters per digest byte |
| CacheKey.CanonicalPayload | DataBuilder/utils.py:14-19 | the payload lists are sorted permutations of the requested dimensions and metrics, and its date strings parse back to the two dates |
| CacheKey.CanonicalPayloadIdentifiesQuery | DataBuilder/utils.py:14-19 | two queries have the same payload if and only if they have the same dates and the same dimension and metric lists up to reordering |
| CacheKey.PayloadBytesIdentifyQuery | DataBuilder/utils.py:14-22 | the bytes handed to the digest are equal if and only if the two queries have the same dates and the same dimension and metric lists up to reordering |
| CacheKey.PayloadBytesAscii | DataBuilder/utils.py:21-22 | the digest input has one byte per character of the JSON text, each byte being the character's code point |
| CacheKey.DimensionOrderIrrelevant | DataBuilder/utils.py:17 | any permutation of the dimension list gives the same key |
| CacheKey.MetricOrderIrrelevant | DataBuilder/utils.py:18 | any permutation of the metric list gives the same key |
| CacheKey.SwappedDimensionsSameKey | DataBuilder/utils.py:17 | `["a", "b"]` and `["b", "a"]` give the same key |
| Sorting.Sort | DataBuilder/utils.py:17-18 | `sorted` returns a permutation of its input in Python's string order |
| Sorting.SortedUnique | DataBuilder/utils.py:17-18 | two sorted permutations of the same strings are equal |
| Sorting.SortPermutationInvariant | DataBuilder/utils.py:17-18 | inputs that are permutations of each other sort to the same list |
| Sorting.SortIdempotent | DataBuilder/utils.py:17-18 | every list already in ascending order is returned unchanged by sorting (so sorting twice equals sorting once) |
| LexOrder.LexLeTransitive | DataBuilder/utils.py:17-18 | the string order `sorted` uses is transitive |
| LexOrder.LexLeAntisymmetric | DataBuilder/utils.py:17-18 | strings that are ordered both ways are equal |
| IsoDate.IsoFormat | DataBuilder/utils.py:15-16 | `isoformat()` is ten characters: digits, with `-` at positions 4 and 7 |
| IsoDate.IsoRoundTrip | DataBuilder/utils.py:15-16 | `isoformat()` of a valid date parses back to that date |
| IsoDate.IsoInjective | DataBuilder/utils.py:15-16 | distinct valid dates have distinct ISO strings |
| Json.EscapeChar | DataBuilder/utils.py:21 | `ensure_ascii` writes every character as non-empty printable ASCII text |
| Json.EscapeString | DataBuilder/utils.py:21 | the escaped body of a string literal is printable ASCII |
| Json.EscapeRoundTrip | DataBuilder/utils.py:21 | the `ensure_ascii` escaping of a string decodes back to that string, surrogate pairs above U+FFFF included |
| Json.EscapeCharAstral | DataBuilder/utils.py:21 | a character above U+FFFF is written as the escapes of a high and a low surrogate that recombine to it |
| Json.Dumps | DataBuilder/utils.py:21 | the serialised payload is printable ASCII only; that it determines the payload is `Json.DumpsRoundTrip` |
| Json.ParseQuoted | DataBuilder/utils.py:21 | a string literal reads back as its value, and the reader stops right after its closing quote whatever follows |
| Json.BodyLengthEscaped | DataBuilder/utils.py:21 | the escaped body of a string literal contains no unescaped `"`, so the literal ends at the quote `json.dumps` writes |
| Json.ParseStringArray | DataBuilder/utils.py:17-21 | a JSON array of string literals reads back as its elements, whatever follows it |
| Json.DumpsRoundTrip | DataBuilder/utils.py:14-21 | reading back the text `json.dumps(payload, sort_keys=True)` writes gives the payload |
| Json.DumpsInjective | DataBuilder/utils.py:14-21 | different payloads serialise to different text |
| Json.PayloadKeysSorted | DataBuilder/utils.py:21 | the member names are written in the order `sort_keys=True` gives them |
| Json.MemberNameIsQuotedKey | DataBuilder/utils.py:21 | each member opens with the JSON string literal of its name |
| Utf8.EncodeChar | DataBuilder/utils.py:22 | a code point takes one to four bytes, and one byte exactly when it is below U+0080 |
| Utf8.DecodeEncodedChar | DataBuilder/utils.py:22 | the decoder reads back exactly the encoded code point and its byte count, whatever follows it |
| Utf8.RoundTrip | DataBuilder/utils.py:22 | decoding `s.encode("utf-8")` gives back `s` |
| Utf8.Injective | DataBuilder/utils.py:22 | different texts have different UTF-8 encodings |
| Utf8.AsciiBytes | DataBuilder/utils.py:22 | text below U+0080 encodes as one byte per character, each byte being the code point |
| Hex.HexDigest | DataBuilder/utils.py:24 | `hexdigest()` writes two lower-case hex digits per digest byte |
| Hex.HexDigestRoundTrip | DataBuilder/utils.py:24 | `hexdigest()` text reads back as the digest bytes |
| Hex.Hex4RoundTrip | DataBuilder/utils.py:21 | the four hex digits of a `\uXXXX` escape read back as the code unit |
| Rounding.Round2 | DataBuilder/utils.py:54 | rounding to two decimals gives a whole number of hundredths, at most 0.005 away from the value |
| Rounding.Round2Nearest | DataBuilder/utils.py:54 | no whole number of hundredths is nearer to the value than its rounding |
| Rounding.Round2Tie | DataBuilder/utils.py:54 | a value exactly halfway between two hundredths rounds to the one with an even count of hundredths |
| Rounding.Round2Idempotent | DataBuilder/utils.py:54 | rounding an already rounded value changes nothing |
| Rounding.Round2Negate | DataBuilder/utils.py:54 | rounding commutes with negation |
| Rounding.Round2Sign | DataBuilder/utils.py:54 | rounding never flips the sign of a value |
| Diffs.NameParts | DataBuilder/utils.py:34 | each derived name ends in its own suffix and in neither of the other two, and stripping the suffix gives the metric back |
| Diffs.DerivedNamesDistinct | DataBuilder/utils.py:49-56 | derived names of different kinds never coincide, and each kind of derived name determines its metric |
| Strings.HasSuffixIff | DataBuilder/validators.py:10 | `endswith(suffix)` holds if and only if the name is some prefix followed by the suffix |
| Comparison.CalculateDiffs | DataBuilder/utils.py:27-71 | the result has one row per key of either period; its columns are exactly the merge columns, the base metrics, their `_prev` names and the requested derived names; each row holds the joined (current, previous) pair with 0 for a missing side, the rounded difference and the saturated percentage; no cell is missing |
| Comparison.RenamePrevShape | DataBuilder/utils.py:34-35 | renaming keeps every key and merge column and moves each metric's values to its `_prev` column, with no other column |
| Comparison.MergedRowFacts | DataBuilder/utils.py:37-42 | a merged row holds the key's merge values and the current and previous cells of each metric, missing where that period lacks the key |
| Comparison.InitialProgress | DataBuilder/utils.py:34-44 | after the rename, the outer merge and `fillna(0)`, every key of either period has a row holding its zero-filled joined values |
| Comparison.DiffStep | DataBuilder/utils.py:51-54 | adding a requested `_diff` column fills it with the rounded difference of the joined pair in every row and changes nothing else |
| Comparison.SkipDiff | DataBuilder/utils.py:52 | when `_diff` is not requested, the frame left as it is already matches the reference with that metric's difference handled |
| Comparison.PctStep | DataBuilder/utils.py:56-67 | adding a requested `_diff_percent` column fills it with the saturated percentage, taken from the rounded difference exactly when the `_diff` column exists |
| Comparison.SkipPct | DataBuilder/utils.py:57 | when `_diff_percent` is not requested, the frame left as it is already matches the reference with that metric's percentage handled |
| Comparison.HandleMetricStep | DataBuilder/utils.py:47-67 | one pass of the metric loop keeps the result matching the reference for all metrics handled so far |
| Comparison.FinishedJoined | DataBuilder/utils.py:37-44 | each row's metric and `_prev` cells are the joined pair of its key |
| Comparison.FinishedZeros | DataBuilder/utils.py:44 | a key that one period lacks reads 0 for that period's metrics |
| Comparison.ProgressNoNulls | DataBuilder/utils.py:69 | no cell of the result is missing |
| Diffs.SaturatedPercent | DataBuilder/utils.py:63-66 | with a non-zero previous value the percentage times that value is 100 times the difference; with a zero previous value it is 100, -100 or 0 exactly as the difference is positive, negative or zero |
| Comparison.PercentCases | DataBuilder/utils.py:56-67 | the percentage is within 0.005 of `diff / prev * 100` when `prev` is not 0; otherwise it is 100, -100 or 0 by the sign of the difference |
| Comparison.PercentWithoutPrevious | DataBuilder/utils.py:63-66 | with a zero previous value the percentage is one of 100, -100 and 0 |
| Comparison.DiffAntisymmetric | DataBuilder/utils.py:53-54 | swapping the periods negates the rounded difference |
| Comparison.DiffSign | DataBuilder/utils.py:53-54 | the rounded difference has the sign of the change |
| Comparison.RoundedDiffChangesPercent | DataBuilder/utils.py:58-61 | growth from 0 to 0.001 gives a percentage of 0 when the `_diff` column is there and 100 when it is not |
| Comparison.GrowthExample | DataBuilder/utils.py:51-67 | 150 against 100 gives a difference of 50 and a percentage of 50 |
| Validators.ValidateComparisonMetrics | DataBuilder/validators.py:4-19 | validation fails exactly when some metric ends in a comparison suffix and `prev_date_range` is missing or empty; the failure is the single message "This field is required." on `prev_date_range`; success returns the data unchanged; an empty metric list or a non-empty range never fails; a missing metric list fails |
| Validators.AnyComparison | DataBuilder/validators.py:10 | the request needs a comparison exactly when some metric has a comparison suffix |
| Validators.ComparisonMetricIsDerivedName | DataBuilder/validators.py:8-10 | the names the check reacts to are exactly the `_prev`, `_diff` and `_diff_percent` names that the comparison derives from some metric |
| Validators.SuffixesOnly | DataBuilder/validators.py:10 | a name whose last character ends none of the suffixes is not a comparison metric, whatever it contains (`turnover_diff_x` included) |
| Validators.ValidationIgnoresOrder | DataBuilder/validators.py:10-12 | reordering the metric list does not change whether validation succeeds |
| Services.PathNameInjective | DataBuilder/services.py:8-12 | different lookup paths have different column names, and no column name is a dimension or metric name |
| Services.KnownDimensions | DataBuilder/services.py:24-27 | the kept dimensions are exactly the requested ones the registry knows |
| Services.KnownDimensionsAppend | DataBuilder/services.py:24-27 | filtering keeps the request order: filtering a concatenation concatenates the filtered parts |
| Services.GroupFields | DataBuilder/services.py:24-27 | `db_group_fields` is the registry path of each known dimension, in request order; unknown names are dropped |
| Services.Aggregates | DataBuilder/services.py:29-32 | `db_aggregates` has exactly the requested metrics the registry knows as keys, each with its registry aggregate |
| Services.ReverseMapping | DataBuilder/services.py:44-47 | the reverse mapping sends the column name of each requested known dimension back to that dimension and holds nothing else; it is injective |
| Services.NewAnalyticsService | DataBuilder/services.py:20-32 | the initialised service keeps the request, groups by the known dimensions' paths in order, and each group path renames back to its dimension |
| Services.Window | DataBuilder/services.py:37-39 | the window holds each stored line inside the date range as often as it is stored, and no other line |
| Services.WindowInclusive | DataBuilder/services.py:37-39 | a line stamped exactly at either end of the range is in the window |
| Services.Representatives | DataBuilder/services.py:40 | one line per distinct key: representatives come from the lines, cover every key, and have pairwise distinct keys |
| Services.GetDataFrame | DataBuilder/services.py:35-50 | every record has the requested known dimensions and known metrics as columns; its dimension values are the key of a group; each metric is the sum of its field over that group's lines in the window; without a known metric there is one record per line |
| Services.Records | DataBuilder/services.py:40-48 | one record per group representative |
| Services.RenamedRecord | DataBuilder/services.py:44-48 | renaming gives each requested known dimension the value of its path and leaves the metric sums untouched |
| Services.EmptyWindowEmptyTable | DataBuilder/services.py:37-42 | a window without lines gives a table without rows and without columns |
| Services.WindowNone | DataBuilder/services.py:37-39 | when no stored line falls inside the range, the window is empty |
| Services.RecordsDistinct | DataBuilder/services.py:40 | with a metric to sum, no two records show the same key |
| Services.RecordsCoverWindow | DataBuilder/services.py:40 | with a metric to sum, the key of every line in the window is shown by some record |
| Services.RecordsFromWindow | DataBuilder/services.py:37-40 | every record shows the key of some line in the window |
| Services.PartitionSum | DataBuilder/services.py:40 | group sums over representatives with distinct keys that cover every line add up to the total over the lines |
| Services.MetricTotalsPartition | DataBuilder/services.py:37-40 | a metric column summed over all records equals its field's total over every line in the window |
| Pipeline.IndexRowsFrom | DataBuilder/utils.py:37-42 | every row the merge sees under a key is a record of the table whose merge-column values are that key |
| Pipeline.IndexRowsKeep | DataBuilder/utils.py:37-42 | when no two records share merge-column values, every record is found under its own key |
| Pipeline.TableIndexKeepsRecords | DataBuilder/services.py:37-50 | with a metric to sum, every record of the aggregated table is kept under its own dimension values when it is joined |
| Pipeline.IndexedWellFormed | DataBuilder/utils.py:37-42 | a table whose records all carry the merge columns and numeric metric columns is a frame the join accepts |
| Pipeline.TableNotEmpty | DataBuilder/services.py:37-42 | when some cart line falls in the window, the table has at least one record |
| Pipeline.TableIsComparable | DataBuilder/services.py:35-50 | when some cart line falls in the window, the table of an initialised service has the known dimensions as merge columns and the known metrics as numeric metric columns, as `calculate_diffs` takes them |
| Pipeline.MetricNamesApart | DataBuilder/services.py:8-17 | a registered metric is not a dimension, and its `_prev`, `_diff` and `_diff_percent` names are neither a registered metric nor a registered dimension |
| Pipeline.ServiceNamesDisjoint | DataBuilder/services.py:8-17 | no `_prev`, `_diff` or `_diff_percent` name of a known metric is itself a known dimension or a known metric |

Functions that model source steps and carry no contract of their own have it stated by the rows named here:

- `Diffs.RenamePrev` (DataBuilder/utils.py:34-35): `Comparison.RenamePrevShape`.
- `Diffs.OuterMerge` and `Diffs.MergedRow` (DataBuilder/utils.py:37-42): `Comparison.MergedRowFacts`.
- `Diffs.FillNa` (DataBuilder/utils.py:44 and 69): `Comparison.InitialProgress`, `Comparison.FinishedZeros` and `Comparison.ProgressNoNulls`.
- `Diffs.AddDiff` (DataBuilder/utils.py:51-54): `Comparison.DiffStep`.
- `Diffs.AddPct` (DataBuilder/utils.py:56-67): `Comparison.PctStep` and `Comparison.PercentCases`.
- `Diffs.HandleMetric` (DataBuilder/utils.py:47-67): `Comparison.HandleMetricStep`, `Comparison.SkipDiff` and `Comparison.SkipPct`.
- `Services.Lookup`, `Services.RawRecord` and `Services.Rename` (DataBuilder/services.py:35-48): `Services.RenamedRecord`.
- `Services.GroupSum` (DataBuilder/services.py:35-40): `Services.GetDataFrame`, `Services.PartitionSum` and `Services.MetricTotalsPartition`.

## Left out

- `DataBuilder/tasks.py`, `tests.py`, `admin.py`, `viewsets.py`, `urls.py`, `serializers.py` and `filtersets.py` are not part of this model. They hold Celery dispatch, Excel and e-mail output, HTTP tests and framework wiring.
- MD5 (RFC 1321) is not modelled. `CacheKey.GenerateAnalyticsCacheKey` takes the digest function as a parameter, so the key is stated for any digest.
- Floating-point and `Decimal` arithmetic are not modelled. Amounts are exact reals, so rounding error of binary floats and the four- and five-place `Decimal` fields are left out. On float columns, division by a non-zero previous value is exact in the model, and a zero or missing previous value takes the `nan_to_num` saturation.
- Comparison.CalculateDiffs: it requires both frames to have exactly the merge columns plus the base metrics, with numeric or missing metric cells. The aggregation's table has these columns. It also requires that no base metric is a merge column, and that no derived name clashes with a merge column or a metric. Frames outside that shape are not modelled: pandas would add `_x`/`_y` suffixes on clashing columns, or raise `KeyError` for a missing metric column.
- Comparison.CalculateDiffs: a frame is keyed by its merge values, so duplicate keys within one period are not modelled. Neither is the row order of the merged frame.
- Services.GetDataFrame: it requires at least one known dimension. With no group fields, Django's `.values()` returns every field of the line rather than a total, which is not modelled.
- Services.GetDataFrame: datetimes are integers, and the conversion of a `date` argument to a datetime bound is not modelled. Django compares a `date` bound against midnight of that day, so `datetime__lte=date_to` leaves out the lines stamped later on `date_to`. The model's `dateTo` is the datetime bound itself: passing midnight of the last day gives the program's window, and passing the end of that day keeps lines the program drops.
- Services.GetDataFrame: column order is not modelled. The DataFrame's columns are the group fields in request order, then the metrics, and the rename keeps that order; the model's `Table` has a column set.
- Comparison.CalculateDiffs: column order is not modelled. A `Frame` has a column set, so the order pandas gives the merged columns and the appended `_diff` and `_diff_percent` columns is not stated.
- Services.GetDataFrame: record order is the first occurrence of each key in the stored order; the database leaves that order open.
- Services.GetDataFrame: when no metric is known, every line of the window becomes one record of its dimension values. This is what `.values()` without aggregates returns.
- Validators.ValidateComparisonMetrics: only the `metrics` and `prev_date_range` entries of the request are modelled, and the range is a string map. Python's `TypeError` for a missing metric list is the failure `MetricsNotIterable`.
- Services.EmptyWindowEmptyTable: `pd.DataFrame([])` has no columns, so renaming it is a no-op. The model states the empty table directly.
- Pipeline.TableIsComparable: the model assumes float metric columns. In the program, `total_price` and `margin_price_total` are `DecimalField`s (DataBuilder/models.py:31-32), and `get_dataframe` does not cast, so the table's sums are `Decimal` objects in object-dtype columns. On such columns `calculate_diffs` does not behave as modelled. Depending on the pandas version, `.round(2)` raises `TypeError` or leaves the values unrounded. The division by a zero or missing previous value raises `decimal.DivisionByZero`, or `InvalidOperation` for 0/0, instead of saturating, because `np.errstate` does not catch exceptions from Python objects. The lemma states only that the columns and the cells' presence match what the comparison takes.
- CacheKey.GenerateAnalyticsCacheKey: dimension and metric names holding lone surrogates are outside the model. A Python `str` can hold them, and `json.dumps` writes them as `\udXXX` escapes. A Dafny `char` is a Unicode scalar value, so the key is stated only for names without them.
- Pipeline.TableIsComparable: it requires some cart line in the window. An empty window gives a DataFrame with no columns, which `pd.merge` rejects with `KeyError` on the merge columns; that failure is not modelled.
