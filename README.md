# Bike-share consolidation and aggregation, modelled in Dafny

The repository collects real-time bike-share feeds (Paris, Toulouse) and a
municipal city registry into daily snapshots. This project models the part that
turns those snapshots into an analytical store:

- **consolidation** (`src/data_consolidation.py`): each feed record is mapped to
  a canonical station, station statement or city row. The row is stamped with
  the run date and written to `CONSOLIDATE_STATION`,
  `CONSOLIDATE_STATION_STATEMENT` or `CONSOLIDATE_CITY` with
  `INSERT OR REPLACE`. Toulouse stations get their city code by looking each
  distinct lower-cased `contract_name` up in `CONSOLIDATE_CITY` once.
- **aggregation** (`src/data_agregation.py`): the latest snapshot of stations
  and of cities is projected into `DIM_STATION` and `DIM_CITY`. The latest
  statements are joined to their stations and cities and written to
  `FACT_STATION_STATEMENT`.

Modules:

- `Wrappers.Option` stands for SQL NULL / pandas NaN.
- `Seqs` holds filtering, pandas' `drop_duplicates` and key uniqueness.
- `Text` holds decimal rendering of the city-code prefix and ASCII lower-casing.
- `Records` holds the canonical rows and the table keys.
- `Tables.Table` is a keyed table whose `Upsert` method is `INSERT OR REPLACE`.
- `SourceAdapters` holds the per-record mappings.
- `CityResolver` holds the `contract_name` to city-id resolution.
- `Consolidation` and `Aggregation` hold the eight pipeline operations. Each
  is a method that writes one table and states that table's new contents.

The parsed JSON records and the run date are parameters. Nothing reads a file
or the clock.

The consolidated tables are keyed by (natural id, `created_date`):
`(id, created_date)` for stations and cities, `(station_id, created_date)` for
statements. The aggregate tables are keyed by `id`, and the fact table by
`(station_id, created_date)`. The DDL that fixes these keys is not part of this
model, so `Table` takes its key function as a constructor parameter.

The model follows the code where it departs from a canonical schema one
might expect:

- Toulouse statuses become `OUI`/`NON` (src/data_consolidation.py:160), not a
  canonical OPEN/CLOSED enum. Paris statuses are `is_installed` copied through
  unchanged.
- An unresolved city leaves the station's city code null
  (src/data_consolidation.py:155), not the sentinel 0. The fact query drops
  both, because `CITY_CODE != 0` is not true for NULL.
- A record missing a non-key field is kept with a null there, provided some
  record of the batch has that field (see "Left out"). No record is dropped
  for a missing field, because the code has no such check.
- No tie-break is defined when several rows share the latest date for the same
  key. The code has none, and the key constraint already rules such rows out.

## Model

| member | source | states |
|---|---|---|
| Tables.Table.Upsert | src/data_consolidation.py:60 | INSERT OR REPLACE of a batch. With distinct batch keys, the table becomes the old rows under other keys followed by the batch. A batch with two rows under one key is a constraint violation: the write fails and the table is unchanged. The key constraint is preserved either way. |
| Tables.ReplaceSemantics | src/data_consolidation.py:60 | After an upsert (the same write as at :92, :123, :177 and :208) every incoming row is present. A row under an incoming key is an incoming row, so the earlier row with that key is gone. A row under any other key is present after exactly when it was present before. |
| Tables.ReplaceLeavesOtherKeys | src/data_consolidation.py:60 | For every INSERT OR REPLACE write (:60, :92, :123, :177, :208), the rows under keys the batch does not touch are exactly as before: same rows, same multiplicities, same order. |
| Tables.ReplaceIdempotent | src/data_consolidation.py:60 | For every INSERT OR REPLACE write (:60, :92, :123, :177, :208), re-applying the same batch gives the same table. |
| Tables.ReplaceKeepsDistinct | src/data_consolidation.py:60 | For every INSERT OR REPLACE write (:60, :92, :123, :177, :208), an upsert of a batch with distinct keys keeps the table's key constraint. |
| Tables.ReplaceKeepsOtherSnapshots | src/data_consolidation.py:60 | For every INSERT OR REPLACE write (:60, :92, :123, :177, :208): when the key includes `created_date` and the batch is stamped with one run date, every other date's snapshot is kept exactly (history retention). |
| Text.DecimalString | src/data_consolidation.py:39 | The f-string rendering of a city code is a non-empty string of decimal digits. |
| Text.ParseDecimalRoundTrip | src/data_consolidation.py:39 | Reading back the digits of a rendered city code gives the code. |
| Text.DecimalStringInjective | src/data_consolidation.py:158 | Different city codes render as different strings. |
| Text.Lower | src/data_consolidation.py:140 | `str.lower()`: the same length; each ASCII upper-case letter becomes its lower-case letter (32 code points above); every other character is unchanged; no upper-case letter is left. |
| Text.LowerEqualIff | src/data_consolidation.py:146 | Two texts lower-case to the same text exactly when they are equal letter for letter ignoring case, which is the comparison `LOWER(NAME) = ?` performs on a lower-cased parameter. |
| Text.LowerIdempotent | src/data_consolidation.py:140 | Lower-casing an already lower-cased name changes nothing, so lower-casing the parameter again in SQL would not change a match. |
| SourceAdapters.StationIdInjective | src/data_consolidation.py:39 | A station id `"{code}-{native}"` determines both its city code and its native station code. |
| SourceAdapters.DifferentSourcesNeverCollide | src/data_consolidation.py:10-11 | Ids built with different city codes differ even when the native codes are equal. |
| SourceAdapters.StationIdsDistinct | src/data_consolidation.py:194 | Within one source, two ids are equal exactly when the native codes are. |
| SourceAdapters.SourcesNeverCollide | src/data_consolidation.py:158 | No Paris station or statement id equals any Toulouse one. |
| SourceAdapters.NormaliseStatus | src/data_consolidation.py:160 | `OPEN` becomes `OUI`, `CLOSE` becomes `NON`, and every other value is unchanged. |
| SourceAdapters.ParisStation | src/data_consolidation.py:39-57 | The id is `"1-"` plus `stationcode`. The address is null. `is_installed` is the status unchanged. The INSEE code and district name become the city code and city name. Name, longitude, latitude and capacity are copied. The row carries the run date. |
| SourceAdapters.ParisStatement | src/data_consolidation.py:109-120 | The statement's `station_id` equals the id of the station built from the same record. The docks, bikes and due date come from `numdocksavailable`, `numbikesavailable` and `duedate`. The row carries the run date. |
| SourceAdapters.ParisStations | src/data_consolidation.py:36-60 | One station row per feed record, in order. |
| SourceAdapters.ParisStatements | src/data_consolidation.py:106-123 | One statement row per feed record. Each references the station row of the same position. |
| SourceAdapters.ParisStationKeysDistinct | src/data_consolidation.py:60 | The Paris station frame meets CONSOLIDATE_STATION's key exactly when no station code occurs twice in the feed. |
| SourceAdapters.ParisStatementKeysDistinct | src/data_consolidation.py:123 | The Paris statement frame meets CONSOLIDATE_STATION_STATEMENT's key exactly when no station code occurs twice. |
| SourceAdapters.ToulouseStation | src/data_consolidation.py:158-174 | The id is `"2-"` plus `number`. The status is normalised. The resolved code is the city code and `contract_name` the city name. `bike_stands` is the capacity. Name, address, longitude and latitude are copied. The row carries the run date. |
| SourceAdapters.ToulouseStatement | src/data_consolidation.py:194-205 | The statement's `station_id` equals its station's id. As written, `bicycle_available` equals the station's capacity (`bike_stands`). Docks come from `available_bike_stands`. The row carries the run date. |
| SourceAdapters.ToulouseStatements | src/data_consolidation.py:191-208 | One statement row per feed record, in order. |
| SourceAdapters.ToulouseStatementKeysDistinct | src/data_consolidation.py:208 | The Toulouse statement frame meets its table's key exactly when no station number occurs twice. |
| SourceAdapters.CityEntries | src/data_consolidation.py:77-82 | `code`, `nom` and `population` are renamed `id`, `name` and `nb_inhabitants`, one entry per registry record. |
| Seqs.DropDuplicates | src/data_consolidation.py:85 | `drop_duplicates()` leaves no two identical rows, keeps every distinct row, and never adds one. |
| Seqs.DropDuplicatesUnchanged | src/data_consolidation.py:85 | A frame without duplicates is left exactly as it was. |
| SourceAdapters.ConsolidatedCities | src/data_consolidation.py:77-88 | The city frame has no two identical rows and is no longer than the registry. A city is in it exactly when it carries the run date and its renamed row occurs in the registry. |
| CityResolver.DistinctCityNames | src/data_consolidation.py:140 | The lower-cased contract names without repeats: every record's name is there, and nothing else is. |
| CityResolver.NameMatchIgnoresCase | src/data_consolidation.py:140-146 | A named city matches a contract name exactly when the two names are equal ignoring case, on both sides. |
| CityResolver.LookupCityId | src/data_consolidation.py:145-148 | `LOWER(NAME) = ?` with `fetchone()`. There is no result exactly when no city's lower-cased name equals the lower-cased contract name. A result is the id of a city that matches. |
| CityResolver.ResolveCityNames | src/data_consolidation.py:143-152 | After the loop, the dictionary gives for every distinct name what its lookup gives, and holds no other name. The warnings are exactly the names that did not resolve. |
| CityResolver.ToulouseStations | src/data_consolidation.py:155 | Each station's city code is the dictionary entry for its lower-cased contract name, or null when there is none. No station is dropped. |
| CityResolver.ResolvedToulouseStations | src/data_consolidation.py:149-155 | Resolving each station on its own keeps every station. A station's city code is null exactly when no city's name matches, and otherwise is the id of a matching city. Stations with the same lower-cased name get the same code. |
| CityResolver.BroadcastMatchesPerStationLookup | src/data_consolidation.py:143-155 | Resolving once per distinct name and broadcasting the dictionary gives the same frame as resolving every station on its own. |
| CityResolver.ToulouseStationKeysDistinct | src/data_consolidation.py:177 | The Toulouse station frame meets CONSOLIDATE_STATION's key exactly when no station number occurs twice. |
| Consolidation.CityKeysDistinct | src/data_consolidation.py:92 | The city frame meets CONSOLIDATE_CITY's key exactly when no registry code appears with two different names or populations. |
| Consolidation.ConsolidateCityData | src/data_consolidation.py:62-92 | CONSOLIDATE_CITY becomes the upsert of the deduplicated, dated registry, and other dates are untouched. The write succeeds exactly when no code has two different entries. |
| Consolidation.ConsolidateStationDataParis | src/data_consolidation.py:24-60 | CONSOLIDATE_STATION becomes the upsert of the Paris frame, and other dates are untouched. The write succeeds exactly when the station codes are distinct. |
| Consolidation.ConsolidateStationStatementDataParis | src/data_consolidation.py:94-123 | CONSOLIDATE_STATION_STATEMENT becomes the upsert of the Paris statements, and other dates are untouched. The write succeeds exactly when the codes are distinct. |
| Consolidation.ConsolidateStationDataToulouse | src/data_consolidation.py:125-177 | CONSOLIDATE_STATION becomes the upsert of every Toulouse station, each resolved by its own lookup, and other dates are untouched. The warnings are exactly the unresolved names. The write succeeds exactly when the numbers are distinct. |
| Consolidation.ConsolidateStationStatementDataToulouse | src/data_consolidation.py:179-208 | CONSOLIDATE_STATION_STATEMENT becomes the upsert of the Toulouse statements, and other dates are untouched. The write succeeds exactly when the numbers are distinct. |
| Aggregation.MaxDate | src/data_agregation.py:38 | `MAX(CREATED_DATE)` is null exactly on an empty table. Otherwise it bounds every row's date and is some row's date. |
| Aggregation.LatestSnapshot | src/data_agregation.py:58 | `CREATED_DATE = MAX(...)` selects exactly the rows dated with the maximum, and selects nothing exactly when the table is empty. |
| Aggregation.LatestSnapshotDistinct | src/data_agregation.py:37-38 | The latest snapshot of a table keyed by (id, date) keeps distinct keys. |
| Aggregation.DimStationRows | src/data_agregation.py:27-38 | A DIM_STATION row is selected exactly when it projects id, code, name, address, longitude, latitude, status and capacity of a station of the latest snapshot, so dates never mix. An empty table selects nothing. |
| Aggregation.DimStationIdsDistinct | src/data_agregation.py:27 | The selected rows have distinct ids, so the write into DIM_STATION cannot fail. |
| Aggregation.DimCityRows | src/data_agregation.py:52-58 | A DIM_CITY row is selected exactly when it projects id, name and nb_inhabitants of a city of the latest snapshot. An empty table selects nothing. |
| Aggregation.DimCityIdsDistinct | src/data_agregation.py:52 | The selected rows have distinct ids. |
| Aggregation.CityJoin | src/data_agregation.py:83-84 | The LEFT JOIN's city side holds exactly the cities whose id is the station's city code. It holds a single null exactly when there is none. |
| Aggregation.FactRowsMember | src/data_agregation.py:72-88 | A fact row is selected exactly when it combines three rows. The statement is from the latest statement snapshot. The station is from the latest station snapshot and has `id = station_id`. The city is from the latest city snapshot, has `id = city_code`, and its id is not 0. The LEFT JOIN therefore acts as an inner join, and null codes are dropped. |
| Aggregation.FactProvenance | src/data_agregation.py:74-88 | Every fact row's fields come from a latest statement. Its city id is its station's city code and is not 0, and that city is in the latest city snapshot. Its created date is the run date. |
| Aggregation.EmptyTableGivesNoFacts | src/data_agregation.py:86-88 | An empty statement, station or city table selects no fact rows rather than failing. |
| Aggregation.UnaffiliatedStationExcluded | src/data_agregation.py:85 | A latest station with a null or 0 city code is in DIM_STATION's selection but has no fact row. |
| Aggregation.FactKeysDistinct | src/data_agregation.py:72 | When the three consolidated tables keep their keys, the fact selection has one row per (station, run date), so the write cannot fail. |
| Aggregation.AgregateDimStation | src/data_agregation.py:19-42 | DIM_STATION becomes the upsert of the latest station projection, and the write always succeeds. |
| Aggregation.AgregateDimCity | src/data_agregation.py:44-62 | DIM_CITY becomes the upsert of the latest city projection. |
| Aggregation.AgregateFactStationStatements | src/data_agregation.py:64-92 | FACT_STATION_STATEMENT becomes the upsert of the fact selection, and the fact rows of every other run date are untouched. |

## Left out

- I/O is not modelled: the DuckDB connection, reading the day's JSON file,
  `json.load` and `pd.json_normalize`. The records come in already parsed, with
  the nested `coordonnees_geo` and `position` objects flattened. A parse failure
  is outside the model.
- The wall-clock date is not modelled. `today_date` and `date.today()` become
  the `runDate` parameter, and `current_date` in the fact query becomes the
  same parameter.
- `create_consolidate_tables` and `create_agregate_tables` are not modelled:
  they run DDL from SQL files that are not part of this model. Each table's
  key is a parameter instead.
- `print` logging is not modelled. An unresolved city name is returned in the
  `warnings` output of `ConsolidateStationDataToulouse` instead of printed.
- `src/data_ingestion.py` (HTTP fetching) and `src/main.py` (orchestration)
  are not part of this model.
- Longitude and latitude are `real` values and are only ever copied, so
  floating-point behaviour plays no part.
- Pandas turns a missing integer into NaN and a numeric station code into a
  number before formatting. Those representation details are not modelled:
  the Paris station code and the Toulouse number are strings, the registry
  code is an integer, and every other field of a feed record is an `Option`.
- A record with no `stationcode` (Paris) or `number` (Toulouse) is not
  modelled. The source formats the missing value as `nan` and keeps the row
  with the id `1-nan` or `2-nan` (src/data_consolidation.py:39, :158); here
  both codes are always present.
- SourceAdapters.CityEntries: the registry `code` is taken as a present
  integer, the type of CONSOLIDATE_CITY's id. A registry record without a
  code is not modelled. In the source its id becomes NaN
  (src/data_consolidation.py:77-82), and the write at :92 then either fails on
  the key column or stores a null id, depending on DDL that is not part of
  this model.
- A column that no record of the batch carries is not modelled. The column
  selection `df[[...]]` (src/data_consolidation.py:44, :113, :163, :198) then
  raises KeyError and nothing is written. The model keeps a record with a null
  field, which matches the source only when some record of the batch has that
  field.
- Text.Lower: lower-cases ASCII letters only. Python's `str.lower()` and
  DuckDB's `LOWER` also fold non-ASCII letters, so two names that differ only
  in the case of an accented letter match in the source and not here.
- Aggregation.DimStationRows: projects the capacity column. The SQL at
  src/data_agregation.py:36 names `CAPACITTY`, which is misspelled and would
  fail against a `capacity` column.
- Aggregation.AgregateDimStation: always writes the projection. As written,
  the statement at src/data_agregation.py:26-38 names `CAPACITTY`; against a
  table whose column is `capacity` it fails with a binder error on every run
  and writes nothing. The DDL that fixes the column name is not part of this
  model, so the model follows the evident intent.
- The `DIM_STATION` and `DIM_CITY` tables are never cleared: a station or city
  that drops out of the latest snapshot keeps its old dimension row, as it does
  in the source.
- When a duplicate key is upserted within one batch, the model fails the whole
  write and leaves the table unchanged, as for a key-constraint error. The
  exact error DuckDB raises is not modelled.
- CityResolver.LookupCityId: searches every snapshot date of
  `CONSOLIDATE_CITY` and returns the first match in table order, as the
  unrestricted `SELECT ... fetchone()` does. When two rows match, which one
  DuckDB returns first is not modelled.
- No tie-break among rows that share the maximum date for the same key is
  stated, because the code defines none.
