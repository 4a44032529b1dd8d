# Volcano dashboard: the data pipeline, modelled in Dafny

The dashboard loads a table of volcanoes and a GeoJSON FeatureCollection of
country boundaries. It counts volcanoes per country, lists the countries the
boundaries do not name, renames "United States" to "United States of
America" so the choropleth join succeeds, counts again, ranks the five
countries with most volcanoes into an HTML annotation, and offers a country
selector over the count table. This project models that pipeline and proves
what each step promises. It leaves out the file loading, the Plotly figures
and the Streamlit widgets.

Modules, one per step, all under this directory:

- `order.dfy` (`Order`): Python's `<` on `str` (`Less`), i.e. lexicographic by code point.
  It proves that `<` is a strict total order. `SortedUnique` is
  `sorted(set(xs))`, and a strictly sorted list is determined by its elements.
- `text.dfy` (`Text`): `str(n)` for counts (`NatToString`) and `"<br>".join` (`Join`).
  `SplitBreaks` is Python's `str.split("<br>")`. The script never splits; it is
  there only to prove that the annotation holds one entry per ranked row.
- `tables.dfy` (`Tables`): the volcano `Record`, the `CountRow` of the
  count table, and `groupby("Country")["Volcano Name"].count()` as `Aggregate`.
  The pandas output is one row per distinct country, ascending by country.
- `reconcile.dfy` (`Reconcile`): the GeoJSON `ADMIN` names, `missing`, the
  rename table, its application to every row's country, and the effect of the
  rename on the counts.
- `ranking.dfy` (`Ranking`): `sort_values(ascending=False).head(5)` and the annotation.
- `selection.dfy` (`Selection`): the option list `["All"] + sorted(...)` and the filtered slice.
- `dashboard.dfy` (`Dashboard`): the script's statements in order, as a method
  over an array that is renamed in place and as the function it computes. It
  also holds the facts about the whole pipeline and a worked example.

In three places pandas and the script do not do what one might assume, and the model follows the code:

- The per-country table comes out sorted by country, because pandas `groupby` sorts by default (`sort=True`). It is not in insertion order.
- The descending sort at app.py:64 is pandas' default sort, which is not guaranteed stable. The model fixes one ordering (`SortByCountDesc`). Nothing is proved about the order of equal counts, because the code gives no such promise.
- The "Top 5 countries" title is added inside the Plotly annotation call (app.py:70). The modelled string is `anotation` from app.py:66, without that title.

## Model

| member | source | states |
|---|---|---|
| `Tables.Aggregate` | app.py:32 | The count table has one row per distinct country of the rows, in strictly ascending country order, every count at least 1. The count for each country equals the number of rows with that country, and the counts sum to the number of rows. |
| `Tables.AggregateRows` | app.py:41 | Each row of the count table holds the number of input rows for its own country, and that number is at least 1. |
| `Tables.AggregateUnique` | app.py:32 | Any key-sorted table of positive counts that counts the rows correctly is the aggregate, so the grouping result is determined by the rows. |
| `Reconcile.BoundaryNames` | app.py:33 | The boundary-name set is defined exactly when every feature has an `ADMIN` property; otherwise it is `None`, the `KeyError` case. When defined, a name is in the set iff some feature's `ADMIN` is that name. |
| `Order.Less` | app.py:36 | Python's `<` on `str`, which `sorted` uses. `LessIrreflexive`, `LessTransitive` and `LessTotal` prove that it is a strict total order. |
| `Order.SortedUnique` | app.py:36 | `sorted(set(xs))` is strictly ascending, holds exactly the elements of `xs`, and is no longer than `xs`. |
| `Reconcile.Missing` | app.py:34-36 | `missing` is strictly sorted and contains a name iff it is a country of the table and not a boundary name. |
| `Reconcile.MissingDistinct` | app.py:36 | `missing` has no duplicates. |
| `Order.SortedExtensional` | app.py:36 | Two strictly sorted name lists with the same elements are equal, so the sorted set difference has only one possible value. |
| `Reconcile.Replace` | app.py:38-40 | `Series.replace` on one value: the mapped name when the value is a key of the table, the value itself otherwise. |
| `Reconcile.Renamed` | app.py:38-40 | Renaming keeps the length. Row i keeps its name and gets the table's image of its country when that country is a key, and its own country otherwise. |
| `Reconcile.RenamedOnlyMatching` | app.py:38-40 | A row whose country is not a key of the rename table comes out unchanged. A row whose country is a key changes only its country, to the mapped name. |
| `Reconcile.RenamedIdempotent` | app.py:38-40 | When no mapped name is itself a key, renaming twice equals renaming once. |
| `Reconcile.RenamesNotChained` | app.py:38-40 | The one-entry table `"United States" → "United States of America"` maps to no key, so the idempotence lemma applies to it. |
| `Reconcile.RenameInPlace` | app.py:38 | Overwriting the country column row by row on the working array leaves the array equal to the renamed rows of its old contents. |
| `Reconcile.OccurrencesRenamed` | app.py:38-41 | After renaming `from` to a different `to`, the rows count for `to` the old count of `from` plus the old count of `to`, for `from` zero, and for any other country its old count. |
| `Reconcile.RenameRecount` | app.py:38-41 | After the rename, the count for "United States of America" is the old "United States" count plus the old "United States of America" count. "United States" has no row any more. Every other country's count is unchanged, and so is the total. |
| `Ranking.SortByCountDesc` | app.py:64 | The sorted table is non-increasing in `num_volcanes` and is a permutation of the table. |
| `Ranking.TopSpec` | app.py:64 | `top5` has `min(5, rows)` rows, taken with multiplicity from the table, with non-increasing counts. No row left out has a count above the last ranked row's. |
| `Ranking.TopSpecAnyOrder` | app.py:64 | For every non-increasing permutation of the table, whatever its tie order, the first `min(n, rows)` rows are non-increasing and taken from the table. No row left out counts more than the last one taken. |
| `Ranking.Top` | app.py:64 | Defined as the first `min(n, rows)` rows of `SortByCountDesc`, i.e. `sort_values(ascending=False).head(n)`. `TopSpec` and `TopByCountry` carry its properties. |
| `Ranking.Top5` | app.py:64 | `top5`, defined as `Top` with `n` = 5. |
| `Ranking.TopByCountry` | app.py:64 | Every ranked row is a row of the table. Every table row whose country is not ranked counts no more than the last ranked row. |
| `Text.NatToStringRoundTrip` | app.py:66 | The decimal text written for a count reads back as that count. |
| `Text.SplitJoin` | app.py:66 | Splitting a `"<br>"`-join of break-free parts at `"<br>"` returns the parts. |
| `Ranking.Entry` | app.py:66 | One annotation entry, defined as the markup `<span style='color:blue'>` followed by the country, `": "` and `str` of the count. |
| `Ranking.Entries` | app.py:66 | One entry per ranked row, in ranking order. |
| `Ranking.Annotation` | app.py:66 | `anotation`, defined as the entries joined by `"<br>"`. `AnnotationEntries` and `AnnotationEmpty` carry its properties. |
| `Text.NatToString` | app.py:66 | `str(n)` of a count: at least one character, all decimal digits, no leading zero, and exactly one digit iff `n < 10`. `NatToStringRoundTrip` proves it reads back as `n`. |
| `Text.Join` | app.py:66 | `sep.join(parts)`: the parts in order, with `sep` between neighbours, and `""` for no parts. `SplitJoin` carries its property. |
| `Ranking.AnnotationEntries` | app.py:66 | Split at `"<br>"`, the annotation gives back the `<span style='color:blue'>Country: count` entries one per ranked row, in ranking order, so it has exactly `len(top5)` entries. |
| `Ranking.AnnotationEmpty` | app.py:66 | An empty ranking gives the empty annotation, as `"<br>".join` of nothing does. |
| `Selection.CountryOptions` | app.py:109 | The options are `"All"` followed by the table's countries, strictly ascending, each exactly once. |
| `Selection.OptionsOfKeySorted` | app.py:109 | On the aggregated (key-sorted) table the countries after `"All"` are its `Country` column unchanged. |
| `Selection.Select` | app.py:111-114 | Choosing `"All"` returns the count table unchanged. Any other choice returns exactly the table rows whose country is the choice, each as many times as the table has it. |
| `Selection.RowsFor` | app.py:114 | The boolean mask `t[t["Country"] == c]`: exactly the rows of `t` whose country is `c`, each as many times as `t` has it. `RowsForKeySorted` pins it down on the aggregated table. |
| `Selection.RowsForKeySorted` | app.py:114 | On the aggregated table, filtering by a listed country gives one row holding its count, and by an unlisted one gives no rows. |
| `Selection.SelectOffered` | app.py:109-114 | Choosing any offered country gives exactly one row: that country with its number of input rows. |
| `Dashboard.Pipeline` | app.py:30-41 | The script's values as one function: `None` when a feature lacks `ADMIN`. Otherwise `missing` is taken from the table as loaded, and the counts come from the renamed rows, followed by the ranking, annotation and options of app.py:64-66 and app.py:109. `PipelineSpec` carries its properties. |
| `Dashboard.ProcessData` | app.py:30-41 | Running the statements in order returns what `Pipeline` defines: deep copy, count, boundary names, `missing`, in-place rename, recount, then the ranking, annotation and options of app.py:64-66 and app.py:109. |
| `Dashboard.PipelineSpec` | app.py:32-41 | The script fails exactly when a feature lacks `ADMIN`. Otherwise `missing` is sorted and exact over the countries as loaded, and the final table counts the renamed rows with no "United States" row and a total equal to the number of rows. The ranking is non-increasing with `min(5, countries)` rows, and the options list the final table's countries. |
| `Dashboard.MissingKeepsUnitedStates` | app.py:33-36 | `missing` is computed before the rename, so "United States" is in it whenever a row names it and no boundary does. |
| `Dashboard.UnmatchedCountry` | app.py:33-41 | A country that no boundary names and the rename does not touch appears in `missing`. Its volcanoes are all still counted under its own name. |
| `Dashboard.ChileScenario` | app.py:32-66 | One "United States" and two "Chile" rows, with boundaries for "United States of America" and "Chile". The result is `missing` = ["United States"], counts Chile 2 and United States of America 1 (in that order), the same rows as the top 5, an annotation listing Chile first, and the options All, Chile, United States of America. |

## Left out

- File loading and caching (app.py:14-27): reading the CSV and JSON files and the `st.cache_data` memoisation are I/O. The model takes the rows and the features as given values. Load failures are therefore not modelled.
- Dropping the `Unnamed: 0` column (app.py:31): `Record` simply has no such field. It also has no latitude, longitude, type, status or region fields, because nothing modelled reads them.
- Null values: `Record` fields are plain strings, so null or NaN countries and names cannot occur. pandas would drop a row with a null country from the groupby and skip a null name in `count()`.
- GeoJSON structure beyond the names: a `Feature` is only its `properties` map, with string values. A missing `features` or `properties` member, a null `properties`, a non-string `ADMIN` and all geometries are not modelled. Only a missing `ADMIN` key is modelled, as the `None` result.
- Plotly figures (app.py:44-97): the choropleth, the scatter map, the layouts and the annotation placement are configuration of a library that is not part of this model. Line 90 recomputes the same annotation string as line 66, so it is not modelled separately.
- Streamlit UI (app.py:100-124): the title, checkbox, columns, selectbox, radio and chart rendering are not modelled. Only the option list and the filtered slice are.
- Integer width: pandas counts are 64-bit. Counts here are unbounded naturals, which is exact because a count never exceeds the number of rows.
- `Ranking.TopSpec`: claims no order among equal counts, because the unstable default sort leaves it open. `Ranking.TopSpecAnyOrder` states the same properties for the head of every descending ordering.
- `Ranking.AnnotationEntries`: requires a non-empty ranking. An empty ranking gives `""`, which splits into one empty piece. It also requires that no country name contains a `'<'` followed by `'b'` or at its end. Such a name could contain or complete a `"<br>"` and make a split find extra entries.
- `Selection.Select`: a country literally named "All" cannot be chosen separately. The choice "All" always shows the whole table, as in the code.
- Unused imports (app.py:3, app.py:6) and the commented-out dialog (app.py:10-12) are not modelled.
