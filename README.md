# Mercer County water-quality pipeline, modelled in Dafny

This project models the data logic of a small water-quality dashboard. It
covers three Python scripts.

- **The cleaner** (`clean_raw_data.py`) turns a raw monitoring export into a
  cleaned table. It renames nine source columns to canonical names and
  projects onto them. It drops rows missing a required field. It parses
  Date and Value, and a failed parse makes the cell missing. It
  standardises unit strings: trim, lower-case, then a five-entry synonym
  table. Last, it drops rows whose parse failed.
- **The dashboard** (`app.py`) reads the cleaned table. It derives the
  sidebar choices: the parameters, the locations under the selected
  parameter, the default location selection and the default date range. It
  filters the table with a conjunctive mask whose date bounds are inclusive.
  It builds the map's deduplicated (Location, Latitude, Longitude) triples,
  and shows a "no data" message in place of an empty map or chart.
- **The site extraction** (`extract_sites_from_raw.py`) lists the sorted,
  distinct, non-missing site names of the raw export and reports how many
  there are.

A table is a sequence of rows, and every cell is an `Option`. A raw row is a
map from column name to cell text; a column absent from the map is a missing
cell. Dates are day numbers, where only their order matters. Values are
opaque numbers that are compared and never computed with. The date and value
parsers (`pd.to_datetime` and `pd.to_numeric` with `errors='coerce'`) are
parameters of type `string -> Option<...>`. Strings are compared in
code-point order, as Python's `sorted` does. `str.strip` and `str.lower` are
modelled over ASCII.

Modules:

- `Wrappers`: `Option` and `Result`.
- `Seqs`: the column operations of a data frame over sequences. These are
  mapping a column, the boolean mask, `dropna` and `unique`, with stability
  and idempotence lemmas.
- `Text`: strip, lower-case and string order, with insertion sort and
  `sorted(unique(...))`.
- `Schema`: the column names, the rename table, the projected and cleaned
  row types, and the KeyError of column selection.
- `Cleaner`: the cleaner. It holds a specification function `CleanTable`
  for the five stages. It also holds a method `Clean` that runs them as the
  script does, rewriting one frame stage by stage.
- `Dashboard`: the choices, the filtered view, the map triples and the
  empty-result branches of the dashboard.
- `Sites`: the site-name extraction and its count.
- `Scenarios`: one raw pH reading followed through cleaning and filtering.

## Model

| member | source | states |
|---|---|---|
| Seqs.Filter | clean_raw_data.py:27-29 | A boolean mask / `dropna(subset=...)`: keeps exactly the rows satisfying the predicate, never more rows than the input |
| Seqs.Present | app.py:22 | `dropna` on one column: every present cell's value is kept and only present values appear |
| Seqs.Distinct | app.py:26 | `unique`: no repeats, and exactly the elements of the input; its order is stated by Seqs.DistinctKeepsFirstOccurrences |
| Seqs.DistinctKeepsFirstOccurrences | app.py:26 | `unique` keeps each value where it first occurs: its result is the input at its first-occurrence positions, in increasing order |
| Seqs.FirstIndicesExact | app.py:26 | A position is a first-occurrence position exactly when its value does not occur earlier |
| Seqs.FilterIsSubsequence | clean_raw_data.py:45-48 | The mask's result is its input restricted to an increasing list of positions, so row order is preserved |
| Seqs.FilterIndicesExact | clean_raw_data.py:45 | The mask keeps a position exactly when its row satisfies the predicate |
| Seqs.FilterIdempotent | app.py:39-44 | Applying the same mask twice equals applying it once |
| Seqs.FilterAgree | app.py:39-44 | Two masks that agree on every row select the same rows |
| Seqs.NoDupCardinality | extract_sites_from_raw.py:11 | A duplicate-free list has as many entries as its set of values |
| Text.Strip | clean_raw_data.py:36 | `str.strip`, defined by its body; its properties are the lemmas Text.StripSpec and Text.StripStripped |
| Text.Lower | clean_raw_data.py:36 | `str.lower`, defined by its body; its properties are the lemmas Text.LowerSpec, Text.LowerOfLower and Text.StripLowerCommute |
| Text.Below | app.py:22 | Python's string order, defined by its body; its properties are the lemmas Text.BelowTotal, Text.BelowAntisymmetric and Text.BelowTransitive |
| Text.StripSpec | clean_raw_data.py:36 | `str.strip` returns the middle slice with no whitespace at either end, and everything removed is whitespace |
| Text.StripStripped | clean_raw_data.py:36 | A string with no whitespace at either end is left unchanged by strip |
| Text.LowerSpec | clean_raw_data.py:36 | `str.lower` keeps the length, leaves no upper-case ASCII letter and keeps a stripped string stripped |
| Text.LowerOfLower | clean_raw_data.py:36 | Lower-casing a lower-case string changes nothing |
| Text.StripLowerCommute | clean_raw_data.py:36 | Stripping then lower-casing equals lower-casing then stripping |
| Text.BelowTotal | app.py:22 | Python string order is total |
| Text.BelowAntisymmetric | app.py:22 | Two strings each below the other are equal |
| Text.BelowTransitive | app.py:22 | Python string order is transitive |
| Text.Sort | app.py:29 | `sorted`: a permutation of its input in ascending order, strictly ascending when the input has no repeats |
| Text.SortedUnique | extract_sites_from_raw.py:7-8 | `sorted(unique(...))`: strictly ascending, and containing exactly the input's values |
| Schema.MissingColumns | clean_raw_data.py:20-24 | Selecting the kept columns fails exactly when some source column is missing from the export. The KeyError names exactly the kept columns whose source column is missing, and nothing else |
| Cleaner.NormalizeUnit | clean_raw_data.py:36-42 | Defined by its body: strip, lower-case, then the five-entry synonym table; its properties are the lemmas Cleaner.NormalizeUnitRange, Cleaner.NormalizeUnitIgnoresCase, Cleaner.NormalizeUnitFixesPassThrough and the Cleaner.UnitExample lemmas |
| Cleaner.NormalizeUnitRange | clean_raw_data.py:36-42 | Every standardised unit is one of the three canonical targets, or a trimmed lower-case string |
| Cleaner.NormalizeUnitIgnoresCase | clean_raw_data.py:36 | Two units that agree once lower-cased and stripped, so differ only in letter case and surrounding whitespace, standardise to the same string |
| Cleaner.NormalizeUnitFixesPassThrough | clean_raw_data.py:36-42 | A unit that passes through the table unmapped is a fixed point of the standardisation |
| Cleaner.UnitExampleMgL | clean_raw_data.py:36-37 | "MG/L " becomes "mg/L" |
| Cleaner.UnitExampleCfu | clean_raw_data.py:39 | "CFU/100ML" becomes "#/100mL" |
| Cleaner.UnitExampleMpn | clean_raw_data.py:40 | " MPN/100mL" becomes "#/100mL" |
| Cleaner.UnitExampleMicrograms | clean_raw_data.py:41 | "ug/l" becomes "µg/L" |
| Cleaner.UnitExampleUnmapped | clean_raw_data.py:36 | An unmapped unit passes through trimmed and lower-cased: "None" becomes "none" |
| Cleaner.UnitExampleSubstring | clean_raw_data.py:36-42 | Only whole values are replaced: "total mg/l" is unchanged |
| Cleaner.UnitExampleMgLFixed | clean_raw_data.py:37 | The target "mg/L" standardises to itself |
| Cleaner.UnitExampleMicrogramsNotFixed | clean_raw_data.py:41 | The target "µg/L" becomes "µg/l", so the standardisation is not idempotent |
| Cleaner.Project | clean_raw_data.py:7-24 | The rename and the column selection, defined by its body; its properties are the lemmas Cleaner.ProjectFollowsRenameMap and Cleaner.ProjectIgnoresOtherColumns |
| Cleaner.ProjectFollowsRenameMap | clean_raw_data.py:7-24 | The cleaned row has the nine canonical columns in the fixed order, each read from the source column the rename table maps to it |
| Cleaner.ProjectIgnoresOtherColumns | clean_raw_data.py:20-24 | A column outside the rename table does not affect the projected row |
| Cleaner.Coerce | clean_raw_data.py:32-33 | `errors='coerce'` on one cell, defined by its body: a missing cell or a failed parse gives a missing cell; its properties are the lemmas Cleaner.CleanedRowsTrackInput and Cleaner.CleanedRowsComplete |
| Cleaner.ParseTypes | clean_raw_data.py:32-33 | The Date and Value parse of one row, defined by its body; its properties are the lemmas Cleaner.CleanedRowsTrackInput and Cleaner.UnitTextRowwise |
| Cleaner.StandardizeUnit | clean_raw_data.py:36-42 | The Unit rewrite of one row, defined by its body from Cleaner.NormalizeUnit; its properties are the lemmas Cleaner.UnitTextRowwise and Cleaner.CleanedRowsComplete |
| Cleaner.CleanTable | clean_raw_data.py:27-45 | The five stages composed over the whole export, defined by its body; its properties are the lemmas Cleaner.CleanTableLast, Cleaner.CleanTableRowwise, Cleaner.CleanedRowsComplete, Cleaner.CleanedRowsTrackInput and Cleaner.UnitTextDoesNotAffectSurvival |
| Cleaner.Survives | clean_raw_data.py:27-45 | Whether one raw row survives both `dropna` stages, defined by its body; its properties are the lemmas Cleaner.CleanTableRowwise and Cleaner.CleanedRowsTrackInput |
| Cleaner.CleanRow | clean_raw_data.py:27-45 | The cleaned form of one raw row, defined by its body; its properties are the lemmas Cleaner.CleanTableRowwise and Cleaner.CleanedRowsTrackInput |
| Cleaner.CleanTableLast | clean_raw_data.py:27-45 | Appending a raw row to the export appends its cleaned form exactly when it survives |
| Cleaner.CleanTableRowwise | clean_raw_data.py:27-45 | The staged pipeline equals cleaning each surviving raw row, in order |
| Cleaner.CleanedRowsComplete | clean_raw_data.py:27-45 | No cleaned row misses Location, Latitude, Longitude, Date, Parameter, Value or Unit |
| Cleaner.CleanedRowsTrackInput | clean_raw_data.py:27-48 | The cleaned rows are the cleaned forms of the raw rows at increasing positions, and a raw row is kept exactly when its required cells are present and Date and Value parse. So a failed parse drops the row and never stops the run |
| Cleaner.UnitTextRowwise | clean_raw_data.py:27-45 | For one row, survival ignores the Unit text, and so does every cleaned column but Unit |
| Cleaner.SameButUnitSnoc | clean_raw_data.py:27-45 | Appending rows that differ only in Unit keeps two cleaned tables equal up to Unit |
| Cleaner.UnitTextDoesNotAffectSurvival | clean_raw_data.py:27-45 | Exports that differ only in Unit text clean to tables of the same rows that differ only in Unit |
| Cleaner.DropRows | clean_raw_data.py:27-29 | The in-place `dropna` loop leaves exactly the mask's result |
| Cleaner.RewriteRows | clean_raw_data.py:32-36 | A column reassignment loop rewrites every row, in place and in order |
| Cleaner.Clean | clean_raw_data.py:7-48 | Fails with KeyError exactly when a source column is missing. Otherwise yields the cleaned table: complete rows, no more than the raw rows |
| Dashboard.ParameterChoices | app.py:22 | The parameter choices are strictly ascending and hold exactly the present Parameter values |
| Dashboard.ParameterChoicesComplete | app.py:22 | A string is a parameter choice exactly when some row carries it as Parameter |
| Dashboard.DefaultParameter | app.py:23 | The select box starts on a choice, the least one. It selects nothing exactly when no row has a Parameter |
| Dashboard.LocationsSeen | app.py:26 | The locations of rows with the selected parameter, without repeats |
| Dashboard.LocationsSeenSnoc | app.py:26 | One more row adds its location at the end exactly when it has the selected parameter and a location not seen before; otherwise the locations seen are unchanged |
| Dashboard.LocationsSeenInOrder | app.py:26 | The locations are in order of first appearance: of two seen locations, the earlier one is carried by a row before every row carrying the later one |
| Dashboard.LocationsSeenExact | app.py:26 | A location is seen exactly when a row with the selected parameter carries it; selecting nothing sees nothing |
| Dashboard.LocationOptions | app.py:29 | The location options are strictly ascending, and exactly the locations seen |
| Dashboard.LocationOptionsExact | app.py:26-29 | A location is an option exactly when a row with the selected parameter carries it |
| Dashboard.DefaultLocations | app.py:30 | The default selection is strictly ascending, has min(3, number of options) entries, and holds exactly the first three locations seen (all of them when fewer), not the three least options |
| Dashboard.Earliest | app.py:34 | The minimum: one of the dates and no later than any of them |
| Dashboard.Latest | app.py:35 | The maximum: one of the dates and no earlier than any of them |
| Dashboard.DateRange | app.py:34-35 | There is no range exactly when no row has a date. Otherwise every dated row lies within [min, max], and both ends are dates of rows |
| Dashboard.FilteredView | app.py:39-44 | A row is in the view exactly when it is in the table and matches parameter, location and inclusive date bounds |
| Dashboard.Matches | app.py:39-44 | The four-way mask on one row, defined by its body; its properties are the lemmas Dashboard.ViewIsStableSelection, Dashboard.ViewKeepsRangeEnds and Dashboard.DefaultRangeKeepsAllDates |
| Dashboard.ViewIsStableSelection | app.py:39-44 | The view is the table at increasing positions, and a position is kept exactly when its row matches |
| Dashboard.ViewKeepsRangeEnds | app.py:42-43 | A matching row dated exactly on the start or on the end is kept |
| Dashboard.ViewIdempotent | app.py:39-44 | Filtering the view again with the same criteria returns the same view |
| Dashboard.DefaultRangeKeepsAllDates | app.py:34-43 | With the default range, the date conjuncts exclude no dated row |
| Dashboard.MapPoints | app.py:55 | The map triples have no repeats and are exactly the complete triples of the view's rows |
| Dashboard.MapPointsExact | app.py:55 | A triple is on the map exactly when some table row matching the criteria carries it |
| Dashboard.ShowMap | app.py:55-76 | The map panel, defined by its body; its properties are the lemma Dashboard.ShowMapCases |
| Dashboard.ShowChart | app.py:81-90 | The chart panel, defined by its body; its properties are the lemma Dashboard.ShowChartCases |
| Dashboard.ShowMapCases | app.py:56-76 | The map notice shows exactly when no matching row has Location, Latitude and Longitude; otherwise the map shows the triples |
| Dashboard.ShowChartCases | app.py:81-90 | The chart warning shows exactly when no row matches, and an empty view also shows the map notice; an empty view is not an error |
| Sites.ExtractSiteNames | extract_sites_from_raw.py:7-8 | Fails exactly when the export has no MonitoringLocationName column. Otherwise the names are strictly ascending and exactly the present names |
| Sites.SiteNamesExact | extract_sites_from_raw.py:7 | The names are exactly the set of non-missing site names of the export |
| Sites.ReportedCount | extract_sites_from_raw.py:11 | `len(site_names)`, defined by its body; its property is the lemma Sites.ReportedCountIsDistinctNames |
| Sites.ReportedCountIsDistinctNames | extract_sites_from_raw.py:11 | The reported count is the number of distinct non-missing site names |
| Scenarios.SiteAProjected | clean_raw_data.py:7-24 | The Site A row projects to its eight cells, with Sample Fraction missing |
| Scenarios.SiteACleans | clean_raw_data.py:7-48 | The one-row export with unit "None" cleans to the one record with unit "none" |
| Scenarios.SiteASelected | app.py:39-44 | Selecting pH at Site A over a range containing the reading returns exactly that record |
| Scenarios.FourSeenInOrder | app.py:26 | Four rows with the selected parameter at four different locations: the locations are seen in the rows' order |
| Scenarios.DefaultsAreFirstSeen | app.py:26-30 | Four rows at four different locations: the default selection holds exactly the first three locations met, whatever their names. Rows met at D, C, B, A select B, C and D and leave out A, the least location |

## Left out

- CSV reading and writing, the console prints, the saved site list and the success message are not modelled. These are clean_raw_data.py:4, 49-50, app.py:7, 96-97 and extract_sites_from_raw.py:4, 10-17; all are file or console I/O.
- Which strings the CSV reader treats as missing (`pd.read_csv`'s NA tokens) is not modelled: a raw row is given with its missing cells already absent.
- Scenarios.SiteACleans: takes the Site A row as it is after reading, with the Unit cell holding the text "None". With pandas 2.0 or later, `read_csv`'s default NA tokens include "None", so the script as run would read that cell as missing and drop the row at clean_raw_data.py:27-29.
- The Streamlit page, widgets, layout and table display, the pydeck map and the altair chart are left out (app.py:9-20, 50-97). The selected parameter, locations and date range are inputs, given as a `Criteria` value.
- The date widget may briefly return a single date while the user is choosing. This is UI behaviour; the model always takes two ends.
- When no row has a date, `DateRange` returns no range. How the widget behaves then is not modelled.
- The Value re-coercion (app.py:47) is not modelled as a step. In this model Value is already a parsed number, on which `pd.to_numeric` is the identity.
- The map centre, the mean of Latitude and Longitude (app.py:59-60), is floating-point arithmetic and is not modelled.
- Dashboard.MapPoints: compares Latitude and Longitude as their text. The dashboard reads them as floats, so two spellings of one coordinate (such as "40.1" and "40.10") are one marker there and two in the model.
- `pd.to_datetime` and `pd.to_numeric` are abstract parsers applied cell by cell. Their inference of a column-wide date format, and date-times finer than a day, are not modelled.
- `str.strip` and `str.lower` are modelled over ASCII. Unicode whitespace and case mapping beyond ASCII are not.
- A raw export that already has a column named like a canonical column (for example "Location") would produce duplicate columns after the rename. This is not modelled; the projection reads only the nine source columns.
- The pandas row index is not modelled. `reset_index` is the identity on a sequence, whose positions are already 0..n-1.
- explore_raw_data.py is not part of this model. It only prints summaries of the raw export.
