# Air-quality dashboard core, modelled in Dafny

The dashboard loads a table of air-quality measurements (country, city,
station, pollutant, value, unit), labels every row with a severity class
(`Sehat`, `Sedang`, `Buruk`, `Beracun`, or `Tidak Diketahui` for an unknown
unit), and builds two of its views on that column: the per-label counts for
a chosen country and the modal label of the per-country summary (whose mean
is taken over the `Value` column). The two check pages call the classifier
directly instead: the simulated MQ135 sensor check classifies the typed-in
reading in ppm, and the per-country "Air Quality Check" classifies the mean
of the country's values in the unit of its first row. This project models
that logic and proves its properties.

- `Classifier.dfy` — the labels, the classifier with its half-open bands for
  `ppm` and `µg/m³`, and the health-tips selector (its three outcomes as a tag).
- `StringOrder.dfy` — Python's ordering of strings and the sorted,
  de-duplicated list that `sort_values().unique()` produces.
- `Table.dfy` — the rows, the classification column written into the table
  after loading (a method filling an array, and the table as a class), the
  `Country Label` and `City` filters, and the country and city option lists.
- `Aggregation.dfy` — `value_counts`, the mean of `Value`, `mode()[0]`, and
  the `groupby('Country Label')` summary.
- `Pages.dfy` — the Test Sensor and Air Quality Check decisions.
- `Scenarios.dfy` — worked examples on small tables.
- `Wrappers.dfy` — the `Option` datatype.

Values are `real`, so comparisons with the band edges are exact.

On a tie for the modal label, `mode()[0]` gives the label whose text is
smallest (`Beracun` < `Buruk` < `Sedang` < `Sehat` < `Tidak Diketahui`),
because pandas sorts the modes; it does not give the first label seen. A
country with one `Sehat` row and then one `Buruk` row gets `Buruk`
(`Scenarios.ModeTieSehatFirst`, `Scenarios.ThreeRowTable`).

The Air Quality Check classifies the mean of all of a country's values with
the unit of the country's first row, whatever the units of the other rows.
The model keeps this behaviour; `Pages.CheckUniformCountry` states when the
result is the label every row of the country has.

## Model

| member | source | states |
|---|---|---|
| `Classifier.Classify` | Dashboard/Dashboard.py:11-30 | the fallback label exactly for a unit other than `ppm` and `µg/m³`; otherwise a graded label whose severity is the number of band edges the value has reached |
| `Classifier.BandsFor` | Dashboard/Dashboard.py:12-29 | only `ppm` and `µg/m³` have bands, and their edges are positive and strictly increasing |
| `Classifier.PpmBands` | Dashboard/Dashboard.py:12-20 | `ppm`: below 0.001 Sehat, [0.001, 0.005) Sedang, [0.005, 0.010) Buruk, from 0.010 Beracun, each in both directions |
| `Classifier.MicrogramBands` | Dashboard/Dashboard.py:21-29 | `µg/m³`: below 50 Sehat, [50, 100) Sedang, [100, 150) Buruk, from 150 Beracun, each in both directions |
| `Classifier.UnknownUnit` | Dashboard/Dashboard.py:30 | any other unit gives `Tidak Diketahui` for every value |
| `Classifier.BoundaryValues` | Dashboard/Dashboard.py:11-30 | an edge value belongs to the higher band (0.001 ppm is Sedang, 0.010 ppm Beracun, 50 and 150 µg/m³ Sedang and Beracun) |
| `Classifier.ClassifyMonotone` | Dashboard/Dashboard.py:12-29 | within a recognised unit a larger value is never less severe |
| `Classifier.ClassifyConvex` | Dashboard/Dashboard.py:12-29 | every band is an interval |
| `Classifier.HealthTips` | Dashboard/Dashboard.py:36-65 | the habits text exactly for the text of a label of severity at most 1 (Sehat, Sedang), the harm and precautions text exactly for the text of a label of severity at least 2 (Buruk, Beracun), nothing for any other text |
| `Classifier.HealthTipsBySeverity` | Dashboard/Dashboard.py:36-65 | Sehat and Sedang get the habits text, Buruk and Beracun the harm and precautions text, `Tidak Diketahui` nothing, each as an if-and-only-if |
| `Classifier.HealthTipsOtherText` | Dashboard/Dashboard.py:36-65 | any text other than the four graded label names gets the empty result |
| `StringOrder.Less` | Dashboard/Dashboard.py:127 | Python's string `<`, which orders the country keys and the tied modes: it never holds between equal strings, and a proper prefix comes first |
| `StringOrder.LessIrreflexive` | Dashboard/Dashboard.py:141 | Python's string `<` is irreflexive |
| `StringOrder.LessAsymmetric` | Dashboard/Dashboard.py:141 | Python's string `<` is asymmetric |
| `StringOrder.LessTrichotomy` | Dashboard/Dashboard.py:141 | any two strings are equal or ordered one way |
| `StringOrder.LessTransitive` | Dashboard/Dashboard.py:141 | Python's string `<` is transitive |
| `StringOrder.Insert` | Dashboard/Dashboard.py:141 | inserting into a strictly sorted list keeps it strictly sorted and adds exactly the value |
| `StringOrder.SortedUnique` | Dashboard/Dashboard.py:141 | `sort_values().unique()` is strictly ascending and holds exactly the column's values |
| `StringOrder.StrictlySortedDistinct` | Dashboard/Dashboard.py:141 | a strictly sorted list has no repeated value |
| `StringOrder.StrictlySortedCardinality` | Dashboard/Dashboard.py:141 | its length is the number of distinct values |
| `StringOrder.StrictlySortedUnique` | Dashboard/Dashboard.py:141 | two strictly sorted lists with the same values are equal, so the sorted distinct list is unique |
| `Table.ClassifyRows` | Dashboard/Dashboard.py:33 | the applied classifier gives one label per row, the label of row i being the class of row i's value and unit |
| `Table.DataFrame.constructor` | Dashboard/Dashboard.py:8 | the loaded table holds the given rows and no classification column |
| `Table.DataFrame.AddClassificationColumn` | Dashboard/Dashboard.py:33 | after the column write every row carries its own class and the measurements are unchanged |
| `Table.Where` | Dashboard/Dashboard.py:147 | the filter keeps exactly the rows whose key equals the chosen one, none more often than the table |
| `Table.WhereAppend` | Dashboard/Dashboard.py:147 | the filter keeps the table's order (it distributes over concatenation) |
| `Table.WhereMultiplicity` | Dashboard/Dashboard.py:147 | a matching row is kept as often as it occurs, a non-matching one never |
| `Table.WhereCommute` | Dashboard/Dashboard.py:158-161 | filtering by country then city equals filtering by city then country |
| `Table.CityDataWithinCountry` | Dashboard/Dashboard.py:147-161 | the city rows are the rows of that country and that city, a sub-multiset of the country rows |
| `Table.Unique` | Dashboard/Dashboard.py:158 | `unique()` holds each value of the column exactly once |
| `Table.UniquePrefix` | Dashboard/Dashboard.py:158 | `unique()` lists values in the order of first appearance: later rows only append |
| `Table.SortedCountries` | Dashboard/Dashboard.py:141 | the country list is strictly ascending and holds exactly the table's country labels |
| `Table.CountryCount` | Dashboard/Dashboard.py:141 | the country list is as long as the number of distinct country labels |
| `Table.CountryOptionHasRows` | Dashboard/Dashboard.py:141-147 | every offered country has at least one row |
| `Table.CityOptions` | Dashboard/Dashboard.py:158 | the city list holds each city of the country's rows exactly once |
| `Aggregation.ValueCounts` | Dashboard/Dashboard.py:153 | one positive count per label that occurs, equal to its number of occurrences; no entry for other labels |
| `Aggregation.CountsCoverColumn` | Dashboard/Dashboard.py:153 | the counts of the five labels add up to the column's length |
| `Aggregation.CountConservation` | Dashboard/Dashboard.py:153-155 | the charted counts add up to the number of rows charted |
| `Aggregation.Mean` | Dashboard/Dashboard.py:126 | the mean times the row count is the sum of the values |
| `Aggregation.MeanBounds` | Dashboard/Dashboard.py:126 | the mean lies between any bounds of the values |
| `Aggregation.ByNameOrdered` | Dashboard/Dashboard.py:127 | the label texts in the order pandas sorts them: Beracun, Buruk, Sedang, Sehat, Tidak Diketahui |
| `Aggregation.MostFrequentAt` | Dashboard/Dashboard.py:127 | the chosen candidate occurs at least as often as any, and strictly more often than every earlier one |
| `Aggregation.Mode` | Dashboard/Dashboard.py:127 | `mode()[0]` occurs, is maximal in count, and has the smallest text among the tied labels |
| `Aggregation.FirstModeUnique` | Dashboard/Dashboard.py:127 | the first-mode property (occurs, most frequent, smallest text among the most frequent) fixes the label uniquely |
| `Aggregation.SummaryOf` | Dashboard/Dashboard.py:125-128 | a country's summary row has its mean value and its first modal label |
| `Aggregation.Summarize` | Dashboard/Dashboard.py:125-128 | one summary row per entry of the sorted country list, in that order |
| `Aggregation.SummaryKeysAreCountries` | Dashboard/Dashboard.py:125-128 | the summary's country column is the sorted country list |
| `Aggregation.SummaryOnePerCountry` | Dashboard/Dashboard.py:125-128 | exactly one summary row per distinct country label, strictly ascending by label |
| `Aggregation.EmptyTable` | Dashboard/Dashboard.py:125-153 | on an empty table the counts and the summary are empty |
| `Pages.TestSensor` | Dashboard/Dashboard.py:184-202 | a sensor reading always gets a graded label, the one whose severity is the number of ppm band edges (0.001, 0.005, 0.010) it has reached, and some advice, the habits text exactly below 0.005 ppm |
| `Pages.AirQualityCheck` | Dashboard/Dashboard.py:218-240 | "data not available" exactly when the country has no rows; otherwise the class of the mean in the first row's unit, with the habits advice exactly for Sehat and Sedang, the harm and precautions advice exactly for Buruk and Beracun, and none for the fallback label |
| `Pages.CheckUniformCountry` | Dashboard/Dashboard.py:220-225 | a country whose rows share one recognised unit and one label is reported with that label |
| `Scenarios.MeanOfThree` | Dashboard/Dashboard.py:126 | the mean of 10, 20 and 30 is 20 |
| `Scenarios.ModeTieSehatFirst` | Dashboard/Dashboard.py:127 | for the labels Sehat, Buruk the modal label is Buruk |
| `Scenarios.ModeTieBurukFirst` | Dashboard/Dashboard.py:127 | for Buruk, Sehat, Buruk, Sehat the modal label is Buruk |
| `Scenarios.ThreeRowTable` | Dashboard/Dashboard.py:33-128 | a three-row table is labelled Sehat, Buruk, Beracun, counted once each, and summarised as A (0.00425, Buruk) then B (200, Beracun) |

## Left out

- Loading the CSV file (`Dashboard/Dashboard.py:8`) is file input; the table is a parameter of the constructor.
- The sidebar menu, text inputs, buttons and all displayed text and markdown (`Dashboard/Dashboard.py:68-110`, `130-134`, `244-271`) are presentation with no logic.
- The Altair chart and `st.bar_chart` rendering (`Dashboard/Dashboard.py:113-122`, `155`) belong to the external renderer; only the counts feeding the bar chart are modelled.
- The best and most toxic country text (`Dashboard/Dashboard.py:130-134`) is static prose; the summary is never used to pick a country, so no minimum or maximum query is modelled.
- The humidity and temperature inputs (`Dashboard/Dashboard.py:173-181`) are shown but feed no logic.
- The literal tips prose is replaced by a three-valued tag.
- Aggregation.ValueCounts: returns a map, so it does not model the descending-count order of the pandas result.
- Aggregation.Mean: is exact arithmetic on reals and does not model floating-point rounding.
- Missing or non-numeric `Value` cells are not modelled. A missing value is NaN: every comparison in the classifier is then false, so a `ppm` or `µg/m³` row gets `Beracun`, which then counts in `value_counts()` and `mode()`; only `mean()` skips the cell. A non-numeric value makes the column text, and classifying it raises a TypeError when the text is compared with a number.
- Missing `Country Label` and `City` cells are not modelled: every text cell of the model holds a string. In pandas a missing cell is NaN, which `sort_values().unique()` keeps as the last option, which `groupby` drops, and which the `==` filters never match.
- Table.CountryOptionHasRows: holds only because country cells cannot be missing; with a missing `Country Label` the selector offers NaN, which has no rows, and the check page then reports that no data is available.
- Aggregation.SummaryKeysAreCountries: holds only because country cells cannot be missing; with a missing `Country Label` the country list ends in NaN while the summary's keys, from `groupby`, do not include it.
- Table.CityOptions: holds only because city cells cannot be missing; with a missing `City` the city list offers NaN, and filtering on it selects no row.
- Pages.TestSensor: accepts every real; the input widget's lower bound of 0 is a presentation constraint.
