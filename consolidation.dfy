/** The consolidation functions of src/data_consolidation.py: each maps one
    raw snapshot through its source adapter and writes the frame into its
    consolidated table with INSERT OR REPLACE. The JSON file of the day is
    given as already-parsed records and the clock as `runDate`. */
module Consolidation {
  import opened Wrappers
  import opened Seqs
  import opened Records
  import opened Tables
  import opened SourceAdapters
  import opened CityResolver

  /** The registry frame satisfies the key of CONSOLIDATE_CITY exactly when
      the registry lists no code with two different names or populations. */
  lemma CityKeysDistinct(raw: seq<CityRecord>, runDate: Date)
    ensures DistinctKeys(ConsolidatedCities(raw, runDate), CityKey) <==>
            forall e1, e2 :: e1 in CityEntries(raw) && e2 in CityEntries(raw) && e1.id == e2.id ==> e1 == e2
  {
    var rows, entries := ConsolidatedCities(raw, runDate), CityEntries(raw);
    if DistinctKeys(rows, CityKey) {
      forall e1, e2 | e1 in entries && e2 in entries && e1.id == e2.id ensures e1 == e2 {
        var c1, c2 := Stamp(e1, runDate), Stamp(e2, runDate);
        assert c1 in rows && c2 in rows;
        var i :| 0 <= i < |rows| && rows[i] == c1;
        var j :| 0 <= j < |rows| && rows[j] == c2;
        assert CityKey(c1) == CityKey(c2);
        assert i == j;
      }
    } else {
      var i, j :| 0 <= i < j < |rows| && CityKey(rows[i]) == CityKey(rows[j]);
      var e1 := CityEntry(rows[i].id, rows[i].name, rows[i].nbInhabitants);
      var e2 := CityEntry(rows[j].id, rows[j].name, rows[j].nbInhabitants);
      assert rows[i] in rows && rows[j] in rows;
      assert e1 in entries && e2 in entries && e1.id == e2.id && e1 != e2;
    }
  }

  /** consolidate_city_data. */
  method ConsolidateCityData(raw: seq<CityRecord>, runDate: Date, cities: CityTable) returns (ok: bool)
    requires cities.Valid() && cities.key == CityKey
    modifies cities
    ensures cities.Valid()
    ensures ok <==> forall e1, e2 :: e1 in CityEntries(raw) && e2 in CityEntries(raw) && e1.id == e2.id ==> e1 == e2
    ensures cities.rows == if ok then Replace(old(cities.rows), ConsolidatedCities(raw, runDate), CityKey) else old(cities.rows)
    ensures SnapshotsOtherThan(cities.rows, CityKey, runDate) == SnapshotsOtherThan(old(cities.rows), CityKey, runDate)
  {
    var frame := ConsolidatedCities(raw, runDate);
    CityKeysDistinct(raw, runDate);
    ReplaceKeepsOtherSnapshots(cities.rows, frame, CityKey, runDate);
    ok := cities.Upsert(frame);
  }

  /** consolidate_station_data_paris. */
  method ConsolidateStationDataParis(raw: seq<ParisRecord>, runDate: Date, stations: StationTable) returns (ok: bool)
    requires stations.Valid() && stations.key == StationKey
    modifies stations
    ensures stations.Valid()
    ensures ok <==> NoDuplicates(ParisCodes(raw))
    ensures stations.rows == if ok then Replace(old(stations.rows), ParisStations(raw, runDate), StationKey) else old(stations.rows)
    ensures SnapshotsOtherThan(stations.rows, StationKey, runDate) == SnapshotsOtherThan(old(stations.rows), StationKey, runDate)
  {
    var frame := ParisStations(raw, runDate);
    ParisStationKeysDistinct(raw, runDate);
    ReplaceKeepsOtherSnapshots(stations.rows, frame, StationKey, runDate);
    ok := stations.Upsert(frame);
  }

  /** consolidate_station_statement_data_paris. */
  method ConsolidateStationStatementDataParis(raw: seq<ParisRecord>, runDate: Date, statements: StatementTable) returns (ok: bool)
    requires statements.Valid() && statements.key == StatementKey
    modifies statements
    ensures statements.Valid()
    ensures ok <==> NoDuplicates(ParisCodes(raw))
    ensures statements.rows == if ok then Replace(old(statements.rows), ParisStatements(raw, runDate), StatementKey) else old(statements.rows)
    ensures SnapshotsOtherThan(statements.rows, StatementKey, runDate) == SnapshotsOtherThan(old(statements.rows), StatementKey, runDate)
  {
    var frame := ParisStatements(raw, runDate);
    ParisStatementKeysDistinct(raw, runDate);
    ReplaceKeepsOtherSnapshots(statements.rows, frame, StatementKey, runDate);
    ok := statements.Upsert(frame);
  }

  lemma ToulouseFrameStamped(raw: seq<ToulouseRecord>, cities: seq<City>, runDate: Date)
    ensures forall y :: y in ResolvedToulouseStations(raw, cities, runDate) ==> StationKey(y).1 == runDate
  {
  }

  /** consolidate_station_data_toulouse: resolve each distinct lower-cased
      contract name once against CONSOLIDATE_CITY, warn about the names that do
      not resolve, and write every station, resolved or not. */
  method ConsolidateStationDataToulouse(raw: seq<ToulouseRecord>, runDate: Date, cities: CityTable, stations: StationTable)
    returns (ok: bool, warnings: seq<Option<string>>)
    requires stations.Valid() && stations.key == StationKey
    modifies stations
    ensures stations.Valid()
    ensures forall n :: n in warnings <==> n in DistinctCityNames(raw) && LookupCityId(cities.rows, n).None?
    ensures ok <==> NoDuplicates(ToulouseNumbers(raw))
    ensures stations.rows ==
      if ok then Replace(old(stations.rows), ResolvedToulouseStations(raw, cities.rows, runDate), StationKey)
      else old(stations.rows)
    ensures SnapshotsOtherThan(stations.rows, StationKey, runDate) == SnapshotsOtherThan(old(stations.rows), StationKey, runDate)
  {
    var names := DistinctCityNames(raw);
    var cityToInsee;
    cityToInsee, warnings := ResolveCityNames(names, cities.rows);
    var frame := ToulouseStations(raw, cityToInsee, runDate);
    BroadcastMatchesPerStationLookup(raw, cities.rows, cityToInsee, runDate);
    assert frame == ResolvedToulouseStations(raw, cities.rows, runDate);
    ToulouseStationKeysDistinct(raw, cities.rows, runDate);
    ToulouseFrameStamped(raw, cities.rows, runDate);
    ReplaceKeepsOtherSnapshots(stations.rows, frame, StationKey, runDate);
    ok := stations.Upsert(frame);
  }

  /** consolidate_station_statement_data_toulouse. */
  method ConsolidateStationStatementDataToulouse(raw: seq<ToulouseRecord>, runDate: Date, statements: StatementTable) returns (ok: bool)
    requires statements.Valid() && statements.key == StatementKey
    modifies statements
    ensures statements.Valid()
    ensures ok <==> NoDuplicates(ToulouseNumbers(raw))
    ensures statements.rows == if ok then Replace(old(statements.rows), ToulouseStatements(raw, runDate), StatementKey) else old(statements.rows)
    ensures SnapshotsOtherThan(statements.rows, StatementKey, runDate) == SnapshotsOtherThan(old(statements.rows), StatementKey, runDate)
  {
    var frame := ToulouseStatements(raw, runDate);
    ToulouseStatementKeysDistinct(raw, runDate);
    ReplaceKeepsOtherSnapshots(statements.rows, frame, StatementKey, runDate);
    ok := statements.Upsert(frame);
  }
}
