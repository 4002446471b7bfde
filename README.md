# Sales dashboard aggregation core, in Dafny

`Dashboard.py` is a Streamlit page of sales analytics. It fetches the sales
records for a region and year, optionally narrows them to the sellers picked
in a multiselect, and aggregates them. The aggregates are revenue (sum of
`Preço`) and number of sales per state, category, seller and calendar month.
It shows these tables as maps, line charts and top-N bar charts, next to two
metrics formatted by `formata_numero`. This project models that core after
the records are in memory, and proves its properties:

- `magnitude.dfy` (module `Magnitude`): `formata_numero`. The function
  `ScaleFrom` follows the `for` loop step by step. `FormatNumber` is the loop
  itself, with its early return. The `:.2f` rendering is a parameter
  `fixed2: real -> string`.
- `seller_filter.dfy` (module `SellerFilter`): the seller filter. It has a
  specification function and a method with a loop.
- `records.dfy` (module `Records`): the record datatype with an
  already-parsed date, and generic selection of records by a key.
- `aggregation.dfy` (module `Aggregation`): `groupby(...).agg(['sum',
  'count'])` as a fold into a `map<K, Agg>`. It also holds
  `drop_duplicates` (first record per key) and the table listed as rows.
  The conservation lemmas are here.
- `ranking.dfy` (module `Ranking`): `sort_values(ascending=False)` as a
  descending insertion sort, and `.head(n)` on top of it.
- `state_map.dfy` (module `StateMap`): the state map tables
  (`receita_estados`, `qtd_estados`). Each state's coordinates come from its
  first record, and its totals from its group.
- `dashboard.dfy` (module `Dashboard`): the concrete tables and top-N views
  the charts show.

Amounts are `real`, so sums are exact. Three facts about the code shape the
model:

- The unit labels `formata_numero` prints are `''`, `'mil'` and `'milhões'`.
- The seller selection from the multiselect is a list, so the model takes it
  as a `seq<string>`.
- `pd.Grouper(freq='M')` buckets dates by calendar month of a given year, so
  the month key is the pair (year, month).

## Model

| member | source | states |
|---|---|---|
| `Magnitude.ScaleFrom` | Dashboard.py:9-13 | the loop from any step on yields a value that, times its unit's factor, is the amount the step started from; the value is below 1000 unless the unit is `'milhões'` |
| `Magnitude.Magnitude` | Dashboard.py:8-13 | the chosen value times its unit's factor is the original value, and it is below 1000 unless the unit is `'milhões'` |
| `Magnitude.MagnitudeThresholds` | Dashboard.py:8-13 | below 1000 the value is returned unscaled with unit `''`; from 1000 up to but excluding 1,000,000 it is value/1000 with `'mil'`; from 1,000,000 on it is value/1,000,000 with `'milhões'`, however large the value (the loop divides at most twice) |
| `Magnitude.MagnitudeRescales` | Dashboard.py:9-13 | the shown number times its unit's factor is the original value; it is below 1000 unless the unit is `'milhões'`; it is at least 1 unless nothing was divided; the unit is `''` exactly when the value is below 1000 |
| `Magnitude.FormatNumber` | Dashboard.py:8-13 | the loop with early return yields prefix, space, two-decimal number, space and unit label, for the scale and unit the thresholds choose |
| `Magnitude.FormatNumberText` | Dashboard.py:11-13 | the three texts: `prefix + " " + fixed2(v) + " "`, `... fixed2(v/1000) + " mil"` and `... fixed2(v/1000000) + " milhões"` |
| `SellerFilter.SellerFilter` | Dashboard.py:41-43 | the filtered records are records of the input, no more of them than the input has, and with a selection each has a selected seller |
| `SellerFilter.ApplySellerFilter` | Dashboard.py:41-43 | the filter the script runs (an empty selection leaves the records alone; otherwise it keeps the rows whose seller is selected) returns exactly `SellerFilter` of the records and the selection |
| `SellerFilter.FilterSoundAndComplete` | Dashboard.py:42-43 | with no seller selected the records are unchanged; with a selection, a record survives if and only if its seller is selected, as many times as it occurred |
| `SellerFilter.FilterPreservesOrder` | Dashboard.py:43 | filtering commutes with concatenation, so surviving records keep their relative order |
| `SellerFilter.FilterIdempotent` | Dashboard.py:43 | filtering twice with the same selection equals filtering once |
| `Records.WithKeyIn` | Dashboard.py:43 | `isin` keeps only records of the input whose key is listed, never more records than the input has |
| `Records.FirstIndex` | Dashboard.py:48 | the index found holds the key and no earlier record has that key |
| `Records.SelectCount` | Dashboard.py:64 | a group holds exactly the records of its key, with their multiplicities |
| `Aggregation.GroupBy` | Dashboard.py:47-68 | the group-by map's keys are exactly the keys occurring in the records, and every group counts at least one record |
| `Aggregation.GroupByEntries` | Dashboard.py:64-68 | the group-by table has one entry per distinct key of the records and no other; each entry is the revenue and count of exactly that key's records; every count is at least 1 |
| `Aggregation.GroupByPermutation` | Dashboard.py:64-68 | the group-by table does not depend on the order of the records: any reordering of them (same multiset) gives the same keys with the same revenue and count |
| `Records.TotalRevenuePerm` | Dashboard.py:64-68 | the sum of `Preço` does not depend on the order of the records |
| `Aggregation.MeasureSplit` | Dashboard.py:64 | revenue and count of a record sequence split exactly into those of one group and those of the rest |
| `Aggregation.FirstOccurrences` | Dashboard.py:48-57 | `drop_duplicates` keeps no more records than it is given, each with a key of the input |
| `Aggregation.FirstOccurrencesCount` | Dashboard.py:48-57 | `drop_duplicates` keeps exactly one record per group |
| `Aggregation.FirstOccurrencesKeys` | Dashboard.py:48 | `drop_duplicates` keeps a record for every key |
| `Aggregation.FirstOccurrencesDistinct` | Dashboard.py:48 | `drop_duplicates` keeps no key twice |
| `Aggregation.FirstOccurrencesFirst` | Dashboard.py:48 | the record kept for each key is the first record with that key |
| `Aggregation.Table` | Dashboard.py:64-68 | the table listed as rows has no key twice, and each row is an entry of the group-by map: its key with that key's totals |
| `Aggregation.TableTotal` | Dashboard.py:64-68 | per-key revenues add up to the total revenue, and per-key counts to the number of records, for any dimension |
| `Aggregation.TableCoversGroups` | Dashboard.py:65 | every key of the map is listed, so there are as many rows as groups |
| `Aggregation.SubMultisetKeysDistinct` | Dashboard.py:160-162 | any selection of a table's rows that takes no row more often than the table has it (a sort, a `head(n)`) lists no key twice |
| `Ranking.InsertDesc` | Dashboard.py:53 | inserting into a descending sequence keeps it descending and adds exactly the new row |
| `Ranking.SortDesc` | Dashboard.py:53 | `sort_values(ascending=False)` yields a permutation of the rows in non-increasing order of the measure |
| `Ranking.TopN` | Dashboard.py:160 | `sort_values(...).head(n)` has min(n, rows) rows, in non-increasing order, drawn from the input (with no more copies than it has), and no row left out has a larger measure than a row kept |
| `Ranking.TakeOfDescending` | Dashboard.py:160 | cutting a descending sequence leaves nothing in the cut-off part above the kept part |
| `StateMap.StateLocations` | Dashboard.py:48-57 | the merged map table has one row per state group, and each row carries its state's group totals |
| `StateMap.StateLocationsSpec` | Dashboard.py:48 | the map table has one row per state group, no state twice, and each row carries its group's totals and the lat/lon of the state's first record |
| `StateMap.RevenueByStateMap` | Dashboard.py:48 | `receita_estados` is a permutation of the merged table in non-increasing order of revenue |
| `StateMap.CountByStateMap` | Dashboard.py:57 | `qtd_estados` is a permutation of the merged table in non-increasing order of count |
| `StateMap.SortedStateMaps` | Dashboard.py:48-57 | `receita_estados` and `qtd_estados` are permutations of the merged table, descending by revenue and by count, each row first-wins with its state's totals |
| `Dashboard.DimensionsAgree` | Dashboard.py:144-148 | the state, category, seller and month tables each add up to the revenue metric (`dados['Preço'].sum()`) and to the sales-count metric (`dados['Preço'].shape[0]`) |
| `Dashboard.MonthlyBuckets` | Dashboard.py:50-61 | with `Records.MonthOf` as the key (year and month of the purchase date), there is a monthly bucket exactly for each (year, month) with a purchase; its totals are those of exactly the records bought in that month of that year |
| `Dashboard.TopOfTable` | Dashboard.py:160-162 | a top-N view of any group table has min(n, groups) rows, descending, each a group with its own totals, no group twice |
| `Dashboard.TopExcludesNoLarger` | Dashboard.py:160-162 | a group that is not shown has a measure no greater than any shown row's |
| `Dashboard.TopLeavesOutNoLarger` | Dashboard.py:160-162 | the same for every group not shown at once |
| `Dashboard.TopStatesByCount` | Dashboard.py:160-162 | top `n` states by number of sales: min(n, states) rows, descending by count, each a state with its totals; no state twice, and no state left out has a larger measure than one shown |
| `Dashboard.TopCategoriesByCount` | Dashboard.py:173-175 | top 8 categories by number of sales: min(8, categories) rows, descending, each a category with its totals; no category twice, and no category left out has a larger measure than one shown |
| `Dashboard.TopSellersByRevenue` | Dashboard.py:188-190 | top `n` sellers by revenue: min(n, sellers) rows, descending by revenue, each a seller with its totals; no seller twice, and no seller left out has a larger measure than one shown |
| `Dashboard.TopSellersByCount` | Dashboard.py:199-201 | top `n` sellers by number of sales: min(n, sellers) rows, descending by count, each a seller with its totals; no seller twice, and no seller left out has a larger measure than one shown |
| `Dashboard.SortedTableEntries` | Dashboard.py:53-62 | a group table sorted by a measure lists no group twice, each row a group with its own totals |
| `Dashboard.SortedTableCovers` | Dashboard.py:53-62 | a group table sorted by a measure has one row per group and lists every group |
| `Dashboard.CategoryRankings` | Dashboard.py:53-62 | the category tables sorted by revenue and by count (`receita_categorias`, `qtd_categorias`) have one row per category, list every category, no category twice, each with its own totals |

## Left out

- Streamlit page setup, sidebar widgets, tabs, columns and metric widgets (lines 6, 15-30, 139-206) are UI framework calls. The bounds 2..10 of the two number inputs are enforced by the widget, and the top-N results are proved for every `n`.
- The HTTP request and JSON decoding (lines 32-37) are network I/O. The region and year filters are applied by the remote service, so the model starts from the records it returns.
- `pd.to_datetime` parsing (line 39) is a library call. Records carry an already-parsed `Date`, and an invalid date is not modelled.
- `pd.Grouper(freq='M')` also emits zero rows for months with no purchase between the first and the last month. It also names months with `month_name()` (lines 50-52, 59-61). Only the (year, month) buckets of months with purchases are modelled.
- The plotly charts (lines 72-136, 159-206) are a foreign rendering library. `receita_estados.head()` on line 97 is chart input and is not given its own member.
- The `:.2f` rendering and IEEE float rounding are left out. Amounts are exact `real`s, and the two-decimal text is the parameter `fixed2`.
- Row order is not modelled exactly. pandas orders `groupby` keys by sorted key, while the model lists groups in order of first appearance. `sort_values` in pandas defaults to a quicksort, which is not stable, while the model's sort is stable. So the order of rows with equal measures may differ.
- Missing values are not modelled: every record has every column. pandas `groupby` drops records whose key is missing, and `count()` counts only non-missing values, while `shape[0]` counts every row. The conservation lemmas (`Aggregation.TableTotal`, `Dashboard.DimensionsAgree`) hold for the source only when no key and no `Preço` or `Produto` value is missing.
