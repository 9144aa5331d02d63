# Annual fundamentals from XBRL company facts — a verified model

This project models the core of a small pipeline that turns a company's
XBRL "companyfacts" store (taxonomy → concept → unit → list of filed
observations) into one value per fiscal year per metric.

It has two layers.

* **Normalizer and resolver** (`xbrl_normalize.py`, module `XbrlNormalize`):
  * flattens the store into fact rows;
  * drops dimensioned records and records whose form is not allowed;
  * derives the period type (instant exactly when there is no start date);
  * keeps only the best-ranked preferred unit of each concept;
  * collapses re-filed observations of one identity to the latest filing.
  * It also has the `filter_forms`, `extract_concept_series` and
    `summarize_concepts` helpers and the one-call pipeline.
* **Reconciliation engine and table builder** (`financials.py`, modules
  `Reconcile` and `AnnualTable`):
  * prefilters by form, unit and period type;
  * annualizes duration facts (four quarters, else FY period, then a
    330–400 day span filter);
  * keeps the best row of every fiscal year under a five-key ranking;
  * chooses among candidate concepts by the freshness score (latest
    fiscal year, number of fiscal years, latest end);
  * keeps the last N years;
  * pivots every metric into a fiscal-year table with free cash flow,
    revenue growth, margins and the metric-to-concept map, plus the
    display scaling.

Supporting modules:

* `Wrappers`: `Option` and `Result`.
* `Ordering`: data-frame sort keys. Missing values go last in every key,
  whatever the direction. There is a stable insertion sort.
* `Seqs`: boolean-mask filtering, column mapping, `drop_duplicates` with
  `keep="first"` and `keep="last"`, `head` and `tail`, including their
  negative-count behaviour.
* `Facts`: dates as day ordinals with a calendar-year accessor, the fact
  row, and the frame.

A frame is `Columnless` (a table built from no rows has no columns) or a
`Table` of rows.

Where the code is imperative, the model is too:

* `normalize_companyfacts_to_df` is three nested loops appending rows:
  `NormalizeCompanyFacts`, `AppendConceptRows` and `AppendUnitRows`.
* `_choose_best_concept` is a loop keeping the best score:
  `ChooseBestConcept`.
* `build_annual_financials_table` is a loop over the specs:
  `CollectSeries` and `BuildAnnualFinancialsTable`.

Each of these methods is proved equal to a specification function. The
properties are then proved about that function (`NormalizedRows`,
`ChooseOver`, `SeriesList`/`ConceptMapOf`/`TableOf`). The filter, sort
and deduplication steps are functions on sequences of rows.

Behaviour kept from the code:

* An empty normalized frame has no columns (xbrl_normalize.py:88-90).
  The table builder therefore fails on it with the missing-columns error
  (financials.py:290-293). It does not return an empty table.
* When every series is empty, the builder returns a bare table without
  a concept map (financials.py:306-307).
* The dedupe keeps the last row of each identity after an ascending sort
  with missing filing dates last. So a row without a filing date wins
  its group (xbrl_normalize.py:139-142).
* The best-row ranking sorts filing dates descending, but missing dates
  still go last, so they are least preferred (financials.py:120-124).
* Revenue growth compares each table row with the previous table row,
  not with fiscal year − 1 (financials.py:326).
* A missing `qtrs` is not four quarters (financials.py:110-114).

## Model

| member | source | states |
|---|---|---|
| XbrlNormalize.DefaultNormalizeConfig | xbrl_normalize.py:7-16 | default taxonomy `us-gaap`, preferred units USD, shares, pure, dimensions dropped, no form allow-list |
| XbrlNormalize.Lookup | xbrl_normalize.py:25-26 | dictionary `get`: the value of the key's entry (the first one, should an association list repeat a key), or the default when the key is absent |
| XbrlNormalize.AppendUnitRows | xbrl_normalize.py:53-86 | the innermost loop appends exactly the kept rows of the records of one unit list, in order; non-record items are skipped |
| XbrlNormalize.AppendConceptRows | xbrl_normalize.py:49-51 | the middle loop appends the kept rows of every list-valued unit body of a concept, in order; non-list bodies are skipped |
| XbrlNormalize.UnitRowsAreKeptRows | xbrl_normalize.py:44-86 | converting unit body by unit body gives the same rows as converting the concept's records in order |
| XbrlNormalize.NormalizeCompanyFacts | xbrl_normalize.py:29-100 | the result is the normalized frame: column-less exactly when no record is kept; each row carries the configured taxonomy, is instant iff it has no start, is dimensioned only when dimensions are kept, and has an allowed form |
| XbrlNormalize.KeptRowsIsFilterMap | xbrl_normalize.py:53-86 | the loop's rows are the kept records, filtered then converted one to one, in record order |
| XbrlNormalize.KeptRowsSpec | xbrl_normalize.py:57-86 | a row is produced iff some kept record converts to it; every row has the taxonomy, the instant/no-start equivalence, the dimension rule and the form rule |
| XbrlNormalize.NormalizedRowsSpec | xbrl_normalize.py:36-98 | the normalized rows of the configured taxonomy are the filter-map of its records, with the per-row facts above |
| XbrlNormalize.EntriesCarryKeys | xbrl_normalize.py:44-53 | every record's concept and unit are the keys of the concept and the list-valued unit body that enclose it |
| XbrlNormalize.EntriesComplete | xbrl_normalize.py:44-54 | conversely, every record (dictionary item) of a list-valued unit body of a concept yields an entry carrying the concept, its label and description, and the unit |
| XbrlNormalize.KeptRowsAppend | xbrl_normalize.py:67-86 | appending records appends their rows |
| XbrlNormalize.IndexOf | xbrl_normalize.py:118 | `list.index`: the first position holding the unit |
| XbrlNormalize.MinRank | xbrl_normalize.py:124 | the group minimum of the unit rank: none iff the concept has no row, else a lower bound of every rank of the concept's rows |
| XbrlNormalize.MinRankAttained | xbrl_normalize.py:124 | the group minimum is the rank of some row of the concept |
| XbrlNormalize.RankedRowsMembers | xbrl_normalize.py:118-120 | the ranked rows are the rows whose unit is listed |
| XbrlNormalize.BestUnitRowsMembers | xbrl_normalize.py:124-125 | the kept rows are the ranked rows whose rank equals their concept's minimum |
| XbrlNormalize.BestUnitRowSound | xbrl_normalize.py:118-125 | a kept row is an input row in a listed unit ranked no worse than any listed unit of its concept |
| XbrlNormalize.BestUnitRowComplete | xbrl_normalize.py:118-125 | every input row in the best listed unit of its concept is kept |
| XbrlNormalize.UnitRankInjective | xbrl_normalize.py:118 | two listed units of equal rank are the same unit |
| XbrlNormalize.ChosenRowsMembers | xbrl_normalize.py:118-125 | the chosen rows are exactly the input rows in their concept's best listed unit |
| XbrlNormalize.ChosenOneUnit | xbrl_normalize.py:124-125 | two chosen rows of one concept have the same unit |
| XbrlNormalize.ChosenCovers | xbrl_normalize.py:118-125 | a concept with a row in a listed unit keeps at least one row |
| XbrlNormalize.ChosenCopies | xbrl_normalize.py:120-125 | every copy of a chosen row is kept, and nothing else |
| XbrlNormalize.ChoosePreferredUnitSpec | xbrl_normalize.py:103-127 | empty input is returned as is; otherwise rows kept iff in the earliest-listed unit present for their concept, units all preferred, one unit per concept, every copy kept, every concept with a preferred unit present |
| XbrlNormalize.DedupeShape | xbrl_normalize.py:130-144 | empty input returned as is; otherwise rows drawn from the input, one per identity of the input, ordered by the sort key |
| XbrlNormalize.DedupeKeepsLatestFiled | xbrl_normalize.py:139-142 | the kept row of an identity was filed no earlier than any input row of that identity, a missing filing date counting as latest |
| XbrlNormalize.SameIdentityFiledOrder | xbrl_normalize.py:139 | for one identity the sort key orders rows by filing date, missing last |
| XbrlNormalize.FiledOrder | xbrl_normalize.py:139 | the filing-date atom order is "no later than", missing last |
| XbrlNormalize.DedupeIdempotent | xbrl_normalize.py:130-144 | deduplicating twice equals deduplicating once |
| XbrlNormalize.FilterForms | xbrl_normalize.py:147-151 | empty input returned as is; otherwise exactly the rows (every copy) whose form is allowed |
| XbrlNormalize.ExtractConceptSeries | xbrl_normalize.py:169-179 | empty input gives a column-less frame; otherwise exactly the rows (every copy) of the concept and unit (by default USD), sorted by end then filing date |
| XbrlNormalize.SortedDistinct | xbrl_normalize.py:163 | `sorted(set(x))`: exactly the strings present, strictly ascending |
| XbrlNormalize.CountOfSize | xbrl_normalize.py:162 | a summary's row count (`size`) is the number of rows of the concept |
| XbrlNormalize.UnitsListedMembers | xbrl_normalize.py:163 | the listed units are the units of the concept's rows |
| XbrlNormalize.SummaryOfSpec | xbrl_normalize.py:161-164 | a group's summary lists exactly its units, ascending and without repetition |
| XbrlNormalize.ConceptsOfSpec | xbrl_normalize.py:161 | the groups are exactly the concepts present, ascending and distinct |
| XbrlNormalize.SummaryKeyOrder | xbrl_normalize.py:165 | the summary sort key orders by descending row count |
| XbrlNormalize.SummariesMembers | xbrl_normalize.py:161-164 | every summary is the aggregate of a present concept, and every present concept has one |
| XbrlNormalize.SummariesDistinctConcepts | xbrl_normalize.py:161-164 | no two summaries share a concept |
| XbrlNormalize.SummarizeOrdered | xbrl_normalize.py:165 | at most `top_n` summaries, in non-increasing row count |
| XbrlNormalize.SummarizeGroups | xbrl_normalize.py:161-166 | each listed summary is a present concept's aggregate, no concept twice |
| XbrlNormalize.SummarizeTopRanked | xbrl_normalize.py:165 | a concept left out has no more rows than any listed one |
| XbrlNormalize.SummarizeComplete | xbrl_normalize.py:165 | when `top_n` reaches the number of concepts every concept is listed |
| XbrlNormalize.SummarizeDefaultBound | xbrl_normalize.py:154 | without a `top_n`, at most 30 concepts are summarized |
| XbrlNormalize.PipelineKeepsLatest | xbrl_normalize.py:182-193 | a normalized row in its concept's best preferred unit has its identity in the pipeline's frame, on a row filed no earlier |
| XbrlNormalize.PipelineFrameSpec | xbrl_normalize.py:182-193 | the pipeline's frame is column-less iff no record was kept; otherwise one row per identity, each a normalized row in its concept's best preferred unit, and every normalized row in the best unit has its identity there on a row filed no earlier |
| XbrlNormalize.NormalizePipeline | xbrl_normalize.py:182-193 | a missing configuration is the default one; the result is normalize, then unit choice, then dedupe |
| Reconcile.DefaultFinancialsConfig | financials.py:16-23 | default forms `10-K`, last five years |
| Reconcile.DefaultMvpSpecs | financials.py:130-198 | eight metrics with distinct names, all USD, all `10-K`, each with candidates; the first six durations, the last two instants |
| Reconcile.FilterForms | financials.py:30-32 | exactly the rows (every copy) whose form is allowed |
| Reconcile.FilterUnit | financials.py:35-36 | exactly the rows (every copy) in the unit |
| Reconcile.FilterPeriodType | financials.py:39-42 | no period type keeps every row; otherwise exactly the rows (every copy) of that period type |
| Reconcile.PrepareBase | financials.py:201-207 | exactly the rows (every copy) in the spec's unit, of its period type when one is given, of its forms when the list is non-empty |
| Reconcile.RuleStageSpec | financials.py:61-73 | at most one rule applies: four-quarter rows only when some exist, else FY rows (any letter case) only when some exist, else all rows; drawn from the input |
| Reconcile.AnnualizeSpec | financials.py:45-79 | output drawn from the input; when a remaining row has a start, exactly the remaining rows spanning 330 to 400 days (rows without a start go); otherwise the span filter is skipped |
| Reconcile.FiledAtom | financials.py:120-123 | the descending filing-date atom: equal iff the dates are, smaller iff filed later, missing last |
| Reconcile.BestKeyRanks | financials.py:106-123 | within one fiscal year the sort key order is the ranking: year gap ascending, four quarters first, longer period, later filing (missing last), later end |
| Reconcile.SelectBestShape | financials.py:82-127 | the selected rows are complete input rows, one per fiscal year, ordered by the ranking key |
| Reconcile.SelectBestCovers | financials.py:102-124 | every fiscal year of a complete input row has a selected row |
| Reconcile.SelectBestIsBest | financials.py:106-124 | the selected row of a year ranks no worse than any complete input row of that year |
| Reconcile.ExtractSeriesSpec | financials.py:210-224 | the competitors are complete base rows of the concept; all of them unless the metric is a duration, which annualizes them |
| Reconcile.SeriesShape | financials.py:210-226 | a concept's series has distinct fiscal years and only complete base rows of the concept |
| Reconcile.ScoreGtOrder | financials.py:251-253 | tuple `>` on scores is a strict total order |
| Reconcile.MaxOfSpec | financials.py:247-249 | the maximum is attained and bounds every element |
| Reconcile.ScoreCountDistinct | financials.py:248 | the score's year count is the number of distinct fiscal years of the series (`nunique`; every series row has one) |
| Reconcile.ScoreOfSpec | financials.py:247-251 | the score's latest fiscal year and latest end are attained by and bound the series' rows |
| Reconcile.ChooseOver | financials.py:242-258 | the fold's concept is set iff its score is; no concept means no rows; a concept is a candidate whose non-empty series and score are kept |
| Reconcile.ChooseOverNone | financials.py:242-258 | no concept is chosen iff every candidate's series is empty |
| Reconcile.ChooseOverArgmax | financials.py:242-256 | the chosen candidate at position k: earlier non-empty candidates score strictly lower, later ones no higher, so the greatest score wins and the earliest wins a tie |
| Reconcile.ChooseOverStep | financials.py:243-256 | proof step of ChooseBestConcept: one loop iteration, where a non-empty series replaces the kept one iff nothing is kept or its score is strictly greater |
| Reconcile.BestConceptShape | financials.py:238-258 | no concept iff every candidate's series is empty, and then no rows; otherwise the chosen concept's non-empty series |
| Reconcile.ChooseBestConcept | financials.py:229-258 | the loop's concept and rows are those of the candidate fold |
| Reconcile.FyAscending | financials.py:271 | sorted rows with distinct fiscal years are strictly ascending in fiscal year |
| Reconcile.AnnualRowsSpec | financials.py:271-277 | `min(last_n, count)` rows in strictly ascending fiscal year, labelled with concept and name, taken from the series, and every row left out older than every row kept |
| Reconcile.ChosenAnnualRows | financials.py:265-277 | for any series of complete distinct-year rows: empty when every candidate is; otherwise the `min(last_n, count)` most recent years (every row left out older than every row kept) of one best-scoring candidate (earliest on a tie), ascending and labelled with it |
| Reconcile.AnnualSeriesSpec | financials.py:261-277 | the annual series of a metric is empty when no candidate yields a row, and otherwise the `min(last_n, count)` most recent years of the best-scoring candidate's series on the prefiltered base, ascending and labelled |
| Reconcile.AnnualSeriesLabels | financials.py:273-276 | every row of a metric's annual series names the metric and one of its candidates |
| Reconcile.ExtractAnnualSeries | financials.py:261-277 | the method returns the annual series of the metric |
| AnnualTable.SeriesList | financials.py:298-304 | proof step of CollectSeries: only non-empty series are collected |
| AnnualTable.SpecLoopStep | financials.py:299-304 | proof step of CollectSeries, one loop iteration: an empty series writes `""` into the map and is skipped; otherwise its last row's concept is written and the series appended |
| AnnualTable.CollectSeries | financials.py:295-304 | the loop's list and map are the non-empty series in spec order and the concept map |
| AnnualTable.BuildAnnualFinancialsTable | financials.py:280-351 | a column-less input fails with the sorted missing-column list; otherwise the table is built from the series of the given or default specs with the given or default horizon |
| AnnualTable.SeriesListSpec | financials.py:298-304 | a series is collected iff it is the non-empty series of some spec |
| AnnualTable.LongRows | financials.py:309 | the concatenated rows are exactly the rows of the specs' series |
| AnnualTable.TableOfSpec | financials.py:306-318 | bare iff every series is empty; otherwise the index is the fiscal years of the series and the columns are the names of the metrics with rows |
| AnnualTable.Names | financials.py:314 | the metric columns are the names that have a row |
| AnnualTable.FyIndexSpec | financials.py:314-315 | the index is strictly ascending and holds exactly the rows' fiscal years |
| AnnualTable.MetricsSpec | financials.py:314 | a year's cells are the metrics having a row that year, each holding the value of the last such row (`aggfunc="last"`) |
| AnnualTable.MaxEndSpec | financials.py:317-318 | a year's end is defined iff it has a row, is attained, and no row of the year ends later |
| AnnualTable.Ratio | financials.py:330-348 | a ratio is present iff both sides are and the divisor is non-zero, and then times the divisor gives the dividend |
| AnnualTable.Fcf | financials.py:320-323 | free cash flow is present iff cfo and capex are, and then fcf + capex = cfo |
| AnnualTable.Growth | financials.py:325-328 | growth is present iff both values are and the previous is non-zero, and then prev × (1 + g) = cur |
| AnnualTable.TableRows | financials.py:314-318 | one wide row per index year |
| AnnualTable.TableRowsIndex | financials.py:309-318 | rows in strictly ascending fiscal year, one per year of the series; each year's end is the latest end of its rows; each cell is the last value of its metric that year |
| AnnualTable.TableRowsDerived | financials.py:320-348 | fcf from the row's cells; growth missing on the first row and against the previous row after; the four margins as ratios to revenue |
| AnnualTable.ConceptMapKeys | financials.py:296-303 | the concept map has exactly one key per spec name |
| AnnualTable.ConceptMapSpec | financials.py:298-303 | the entry of a spec (the last of its name) is `""` for an empty series, else its last row's concept |
| AnnualTable.ConceptMapEmptyIff | financials.py:298-303 | with non-empty candidate names, the entry is `""` iff the spec's series is empty, else it is one of its candidates |
| AnnualTable.FormatForDisplay | financials.py:354-363 | a bare table is returned as it is; otherwise rows, index, columns, concept map, growth and margins are kept, the nine dollar columns (and fcf) are divided by 1e9, and every other cell is unchanged |
| Seqs.FilterSpec | financials.py:36 | a boolean mask keeps exactly the elements satisfying it, every copy of each |
| Seqs.FilterSnoc | financials.py:36 | the mask keeps input order: one more input element extends the selection by that element exactly when it passes |
| Seqs.FilterAppend | financials.py:36 | masking a concatenation concatenates the masked parts |
| Seqs.KeepLastIsMaximal | xbrl_normalize.py:139-142 | on a sorted sequence, `keep="last"` keeps for each key a row maximal among the rows with that key |
| Seqs.KeepLastCovers | xbrl_normalize.py:142 | every key of the input is kept |
| Seqs.KeepLastUnique | xbrl_normalize.py:142 | no key is kept twice |
| Seqs.KeepLastSorted | xbrl_normalize.py:139-142 | the kept rows of a sorted sequence stay sorted |
| Seqs.KeepFirstIsMinimal | financials.py:120-124 | on a sorted sequence, `keep="first"` keeps for each key a row minimal among the rows with that key |
| Seqs.KeepFirstCovers | financials.py:124 | every key of the input is kept |
| Seqs.KeepFirstCount | financials.py:124 | `keep="first"` leaves one row per distinct key, so its length is the number of distinct keys |
| Seqs.KeepFirstUnique | financials.py:124 | no key is kept twice |
| Seqs.Head | xbrl_normalize.py:165 | `head(n)`: a prefix of length `min(n, len)`, or all but the last `-n` rows for negative `n` |
| Seqs.Tail | financials.py:271 | `tail(n)`: a suffix of length `min(n, len)`, or all but the first `-n` rows for negative `n` |
| Facts.YearOfCycle | financials.py:107 | the calendar year of a day ordinal follows the 400-year Gregorian cycle of 146097 days |
| Facts.YearOfEpoch | financials.py:107 | day 0 is in 1970 |
| Facts.YearOfStep | financials.py:107 | from one day to the next the calendar year stays or grows by one |
| Facts.YearOfMonotone | financials.py:107 | a later date is never in an earlier year |
| Ordering.SortBy | xbrl_normalize.py:139 | `sort_values`: a permutation of the input, sorted by the key with missing values last |
| Ordering.KeyLeTotal | financials.py:120-123 | the multi-key order is total |
| Ordering.KeyLeTransitive | financials.py:120-123 | the multi-key order is transitive |

## Left out

- Fetching, caching and rate limiting of the store: `sec_client.py` is not part of this model. Chart rendering (`viz.py`) and report writing (`report.py`) are not part of it either.
- Lenient parsing of dates and numbers (`to_datetime` and `to_numeric` with `errors="coerce"`). Values arrive already parsed, as `Option` cells; a cell that does not parse is `None`.
- Dates are day ordinals. `YearOf` is the proleptic Gregorian calendar year.
- The store's shapes. The facts root, the taxonomy and each concept body are dictionaries; `label` and `description` are strings, and a form is a string or missing. The code would raise on a non-dictionary concept body. Only unit bodies (list or not) and items (record or not) vary, as the code tests those.
- Ratio and Growth: a zero divisor gives a missing value here. The code computes IEEE infinities or NaN; the model does not specify floating-point outcomes. Values are `real`, with no rounding.
- AsciiUpper: upper-cases ASCII letters only. Python's `str.upper` also maps other scripts; only an ASCII `fy` in any case can become `FY` either way.
- Ordering.SortBy: its stability is not proved, only sortedness and permutation. For `summarize_concepts`, the order among concepts with equal row counts is the insertion sort's (stable). pandas' default single-key sort does not promise any order for ties.
- Frame columns are not modelled, only rows. So the following are not represented:
  - the leftover `unit_rank` column when no row has a listed unit (xbrl_normalize.py:120-122);
  - the helper columns of the best-row selection;
  - a metric name that collides with `fy`, `fiscal_year_end` or a derived column.
- FilterPeriodType: the `period_type` cell is written as the two strings the normalizer produces. Other strings match no row, as in the code.
- `extract_annual_series` on a frame without columns raises in the code. Here it takes rows; the builder rejects a column-less frame before it is called.
- `FinancialsConfig.forms_annual` is a field of the configuration but, as in the code, is never used.
- The concept map is a `map`; the insertion order of the dictionary is not modelled. A later spec with the same name overwrites the entry, as in the code.
- The in-place column assignments of the wide table are modelled as the value they compute (`TableRows`), not as updates of a mutable frame.

## Findings

None. Every property stated above holds of the code as modelled.
