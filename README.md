# Fuel-station dashboard core, in Dafny

This project models the data core of a fuel-price dashboard. The dashboard downloads the
Spanish ministry's list of service stations for a province, lists the stations near the user,
keeps a daily history of the mean price of one fuel, and charts that history.

The model covers four parts of `27-gasolineras_dash.py`:

- **Normaliser** (`reconfigura`, module `Normalizer`). The raw station table is reduced to an
  allow-list of 18 columns, in allow-list order. Every column whose label contains `Precio`
  has its decimal comma turned into a point, its blank text made missing and its text parsed
  as a number (NaN when that fails). `Latitud` and `Longitud (WGS84)` are renamed to `lat` and
  `lon`. Rows missing either coordinate are dropped. The coordinates are then parsed the same
  way. If either coordinate column is absent, the function fails and returns nothing.
  - `Reconfigura` is the imperative method, with its loop over the price columns.
  - `Normalize` is the function it is proved equal to.
  - `NormalizeRowWise` restates `Normalize` row by row: each kept raw row becomes one output
    row, whose cells are the source cells converted column by column.
- **Nearby filter** (`calcular_distancia`, lines 261-266, module `Nearby`).
  - The shared table is a class, `StationTable`. Computing the distances adds the
    `distancia_km` column to it in place.
  - The geodesic distance is a parameter. It returns `None` where the original code raises.
  - The list of nearby stations holds exactly the rows whose distance is known and within the
    radius, each as often as in the table, nearest first.
- **Daily history** (`guardar_evolucion_diaria`, module `Ledger`).
  - The history file is the state of a class, `HistoryLedger`.
  - A call appends one row (date, fuel, NaN-skipping mean price) unless a row for that date
    and fuel already exists.
  - Proved: a second call on the same day changes nothing, the other rows are never
    rewritten, and "one row per date and fuel" is an invariant.
- **Trend views** (`precios_promedio`, `evolucion_precios`, `comparativa_evolucion_precios`,
  module `Trend`).
  - The single-fuel view keeps one fuel's rows of the last 14 days.
  - The comparative view keeps all rows in a window of `days` days. It summarises them as one
    mean per fuel, with fuels in ascending string order, as `groupby` does.
  - `evolucion_precios` and `comparativa_evolucion_precios` are identical, so one function,
    `ComparativeTrend`, models both.

Shared support modules:

| module | contents |
|---|---|
| `Wrappers` | `Option` |
| `Seqs` | boolean-mask selection, mapping, and sorting by a key |
| `Text` | character replacement and the decimal parser behind `pd.to_numeric` |
| `Frames` | cells, rows and frames; a pandas NaN is the cell `Missing` |
| `Stats` | the NaN-skipping mean |

Four behaviours of the code are worth stating on their own, and the model follows the code in
each:

- **Coordinates that do not parse are kept.** The `dropna` at line 35 runs before the
  coercion at lines 38-39, so a coordinate that is present but unparseable survives as NaN.
  `Normalizer.UnparseableCoordinateKept` states this.
- **A day with an undefined mean is still recorded.** Lines 139-149 append the row whatever
  the mean is, so a day with no station in range, or no known price for the fuel, gets a row
  with an empty mean. `Ledger.EmptySelectionStillAppends` states this.
- **The window compares full timestamps.** Line 157 (and lines 121 and 183) compare each
  parsed date against `now - days` to the second, so a row dated on the window's first day
  drops out once the current time of day has passed that row's midnight.
  `Trend.WindowByTimestamp` states this.
- **Chart points are not sorted.** No view sorts the selected rows before charting them, so
  they stay in history-file order. `Seqs.FilterKeepsOrder` states that selection keeps that
  order.

## Model

| member | source | states |
|---|---|---|
| Normalizer.Reconfigura | 27-gasolineras_dash.py:15-43 | the method, with its loop over the price columns, computes exactly `Normalize(raw)`: projection, price cleaning, rename, drop and coordinate parsing, or nothing when a coordinate column is absent |
| Normalizer.AvailableColumns | 27-gasolineras_dash.py:18-21 | the selected columns are exactly the allow-listed labels present in the table, without repetitions, in allow-list order |
| Normalizer.WantedDistinct | 27-gasolineras_dash.py:18 | the allow-list has no repeated label |
| Normalizer.ToNumeric | 27-gasolineras_dash.py:29 | `to_numeric(errors='coerce')` never leaves text behind and keeps numbers unchanged |
| Normalizer.PriceCellMeaning | 27-gasolineras_dash.py:28-29 | a price text becomes the number x exactly when it parses to x after comma-to-point, and becomes NaN exactly when it does not parse |
| Normalizer.BlankPriceUnknown | 27-gasolineras_dash.py:28 | an empty price text becomes NaN |
| Normalizer.PriceCommaRoundTrip | 27-gasolineras_dash.py:28-29 | a Spanish-format price "whole,frac" is read as the decimal number whole.frac |
| Normalizer.CleanPriceColumnsAt | 27-gasolineras_dash.py:27-29 | cleaning the price columns changes only those cells, each by the price conversion, and keeps the row's labels |
| Normalizer.UpdateStep | 27-gasolineras_dash.py:27-29 | one loop iteration cleans one more price column of every row |
| Normalizer.Normalize | 27-gasolineras_dash.py:15-43 | the steps in the code's order (select, clean prices, rename, nothing on a missing coordinate column, `dropna`, coerce); on success no row is added and every row carries `lat` and `lon` as a number or NaN, never text |
| Normalizer.CoercedCoordinates | 27-gasolineras_dash.py:35-39 | after `dropna` and the coercion every row has both coordinates, each a number or NaN |
| Normalizer.NormalizeFails | 27-gasolineras_dash.py:34-43 | the normaliser returns nothing exactly when `Latitud` or `Longitud (WGS84)` is not among the raw columns (the KeyError from `dropna` is caught) |
| Normalizer.NormalizeRowWise | 27-gasolineras_dash.py:15-43 | on a well-formed table with both coordinate columns, the columns are the renamed selection and the rows are exactly the raw rows with both coordinates present, in order, each converted cell by cell |
| Normalizer.CanonicalRowAt | 27-gasolineras_dash.py:28-39 | in a normalised row, each selected column appears under its renamed label with its converted cell |
| Normalizer.NormalizedRowsFromSource | 27-gasolineras_dash.py:34-39 | every output row comes from a raw row with both coordinates present, and carries `lat` and `lon` |
| Normalizer.NormalizedRowsComplete | 27-gasolineras_dash.py:34-39 | every raw row with both coordinates present is in the output, converted |
| Normalizer.UnparseableCoordinateKept | 27-gasolineras_dash.py:35-38 | a present but unparseable latitude is not dropped: it survives as a NaN `lat` |
| Text.ReplaceChar | 27-gasolineras_dash.py:28 | `str.replace(',', '.')` replaces every comma and changes nothing else |
| Text.ReplaceCharRemoves | 27-gasolineras_dash.py:28 | after the replacement no comma is left, and replacing again changes nothing |
| Text.ParsePointDecimal | 27-gasolineras_dash.py:29 | a digits-point-digits text parses to its decimal value |
| Text.ParsedHasDigit | 27-gasolineras_dash.py:29 | a text that parses as a number contains a digit |
| Text.LexTransitive | 27-gasolineras_dash.py:173 | string order, as `groupby` sorts its keys, is transitive |
| Text.LexIrreflexive | 27-gasolineras_dash.py:173 | no string precedes itself, so ascending keys are never repeated |
| Text.LexTotal | 27-gasolineras_dash.py:173 | any two distinct fuel names are ordered one way or the other |
| Seqs.Filter | 27-gasolineras_dash.py:266 | boolean-mask selection keeps exactly the elements that pass, and never lengthens the sequence |
| Seqs.FilterCount | 27-gasolineras_dash.py:266 | selection keeps each passing row as often as it occurs |
| Seqs.FilterKeepsOrder | 27-gasolineras_dash.py:119-122 | selection keeps the relative order of the rows it keeps |
| Seqs.FilterCounts | 27-gasolineras_dash.py:119-122 | selection keeps every passing row exactly as often as it occurs and no other row |
| Seqs.FilterOrdered | 27-gasolineras_dash.py:119-122 | any two selected rows appear in the history in the same order |
| Seqs.FilterFilter | 27-gasolineras_dash.py:119-122 | two selections in turn are one selection with both tests |
| Seqs.SortBy | 27-gasolineras_dash.py:266 | `sort_values` gives an ascending permutation of its input |
| Nearby.RowDistance | 27-gasolineras_dash.py:85-89 | no distance when `lat` or `lon` is absent (the `KeyError` caught by the bare `except`); a distance, when there is one, is the geodesic of the row's own coordinates |
| Nearby.StationTable.AddDistanceColumn | 27-gasolineras_dash.py:265 | every row of the shared table gets its distance, or NaN when the computation fails, under `distancia_km`, which is appended to the columns once |
| Nearby.Nearby | 27-gasolineras_dash.py:266 | the nearby list holds exactly the rows with a known distance within the radius, each as often as in the table, ascending by distance |
| Nearby.NearbyStations | 27-gasolineras_dash.py:261-266 | the shared table gets `distancia_km` in place (columns and every row stated in terms of the old ones), and the list is `Nearby` of the updated table: a station is listed exactly when its distance is known and within the radius, as often as it occurs, nearest first |
| Nearby.DistanceDecidesMembership | 27-gasolineras_dash.py:85-89 | a station whose distance raised is never within the radius, and a computed distance decides membership by `<=` |
| Nearby.NoneWithinRadius | 27-gasolineras_dash.py:266 | when no station is within the radius the list is empty, not an error |
| Stats.MeanKnown | 27-gasolineras_dash.py:139 | the mean is undefined exactly when there is no known value |
| Stats.UnknownSkipped | 27-gasolineras_dash.py:139 | NaN values change neither the sum, the count nor the mean: they are skipped, not read as 0 |
| Stats.MeanWithin | 27-gasolineras_dash.py:173 | a mean lies between the lowest and the highest known value |
| Ledger.AppendDaily | 27-gasolineras_dash.py:137-149 | after a call the key (today, fuel) is present; the file is untouched exactly when it already was; otherwise the old rows are kept and exactly one row (today, fuel, mean) is appended |
| Ledger.HistoryLedger.SaveDaily | 27-gasolineras_dash.py:137-149 | the file becomes `AppendDaily` of the old file with the NaN-skipping mean of the fuel's prices, and one row per date and fuel is preserved |
| Ledger.AppendIdempotent | 27-gasolineras_dash.py:146 | a second call on the same day for the same fuel changes nothing, whatever its mean |
| Ledger.AppendLeavesOneRow | 27-gasolineras_dash.py:146-149 | after two calls the key (today, fuel) occurs once if it was absent, and as often as before otherwise |
| Ledger.CountMeansPresent | 27-gasolineras_dash.py:146 | the key test `.any()` holds exactly when the key occurs at least once |
| Ledger.AppendKeepsUnique | 27-gasolineras_dash.py:146-149 | at most one row per date and fuel is an invariant of the history |
| Ledger.EmptySelectionStillAppends | 27-gasolineras_dash.py:139-149 | with no station selected, a new day still gets a row, with an undefined mean |
| Trend.InWindow | 27-gasolineras_dash.py:121 | a row whose date is NaT never passes; otherwise it passes exactly when its full timestamp is `>=` now minus the window |
| Trend.SingleFuelTrend | 27-gasolineras_dash.py:113-135 | "not enough data" exactly when no row of the fuel is in the 14-day window; otherwise the points are exactly the rows of that fuel in the window, each as often as in the history, in history order |
| Trend.FuelsIn | 27-gasolineras_dash.py:173 | the group keys are every fuel with a row, without repetitions, in strictly ascending order |
| Trend.AscendingDistinct | 27-gasolineras_dash.py:173 | keys in strictly ascending order are never repeated |
| Trend.InsertFuelFacts | 27-gasolineras_dash.py:173 | inserting a key keeps the keys ascending and adds exactly that key |
| Trend.GroupMeans | 27-gasolineras_dash.py:173 | exactly one summary row per fuel present, fuels strictly ascending, each holding the NaN-skipping mean of that fuel's prices |
| Trend.ComparativeTrend | 27-gasolineras_dash.py:151-201 | "no data yet" exactly when no row is in the window; otherwise the points are exactly the rows in the window, each as often as in the history, in history order, and the summary is one mean per fuel present, fuels ascending |
| Trend.SingleFuelIsSlice | 27-gasolineras_dash.py:113-122 | the single-fuel view is the 14-day comparative view restricted to that fuel |
| Trend.GroupMeanWithin | 27-gasolineras_dash.py:173 | a fuel's summary mean lies between its lowest and highest known price in the window |
| Trend.TwoDaysOneFuel | 27-gasolineras_dash.py:177-201 | two days of one fuel (1.500 and 1.520) inside a 30-day window give both rows, in order, and the mean 1.51 |
| Trend.WindowByTimestamp | 27-gasolineras_dash.py:157 | a row timestamped one second before `now - days` is outside the window |

## Left out

- Downloading the station list (`obtener_precios_carburantes`), IP geolocation and the
  Streamlit widgets, maps, charts and messages are I/O and user interface. The slider values
  (radius 5-100 km, window 3-30 days) and the fuel choice are parameters.
- Nearby.RowDistance: the geodesic distance (`geopy.distance.geodesic`) is a parameter. Its
  only modelled property is that it is a non-negative number or a failure.
- Ledger.HistoryLedger.SaveDaily: `round(mean, 3)` is not modelled. Prices are exact
  rationals, so there is no floating-point rounding anywhere in the model.
- Reading and writing the CSV history file is replaced by the file's contents as state.
  `pd.to_datetime(errors='coerce')` is a parameter from date text to a timestamp, and
  `datetime.now()` is the parameter `now`.
- `st.cache_data` memoisation and the `st.write` progress messages inside `reconfigura`
  change no result and are left out.
- Normalizer.Normalize: of the failures that `reconfigura` catches, only the missing
  coordinate column is modelled. A price column that pandas did not store as strings (an
  `AttributeError` on `.str`) is not modelled, because cells are text, numbers or NaN.
- Normalizer.ToNumeric: the number parser accepts an optional sign, digits and an optional
  decimal point. Exponents, surrounding whitespace, `inf` and `nan` spellings are read as
  unparseable.
- Ledger.PriceValues: a station row without the fuel column reads as NaN. The original
  raises `KeyError` there, outside any handler.
- Nearby.Nearby: `sort_values` is not stable. The model's sort is one valid order, and only
  ascending order and permutation are promised.
- `existe_historico` only tests whether the file exists, which is the `None` state of
  `HistoryLedger.file`. `mostrar_gasoli_cercanas` and `enlaces_google_maps` only display.
- Concurrent sessions writing the same history file are not modelled.
