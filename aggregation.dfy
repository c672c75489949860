/** The aggregation queries of src/data_agregation.py: two latest-snapshot
    dimension selections and the fact join, each written into its aggregate
    table with INSERT OR REPLACE. */
module Aggregation {
  import opened Wrappers
  import opened Seqs
  import opened Records
  import opened Tables

  /** `(SELECT MAX(CREATED_DATE) FROM t)`: null on an empty table. */
  function MaxDate<T(!new)>(rows: seq<T>, dateOf: T -> Date): (m: Option<Date>)
    ensures m.None? <==> rows == []
    ensures m.Some? ==> forall x :: x in rows ==> dateOf(x) <= m.value
    ensures m.Some? ==> exists x :: x in rows && dateOf(x) == m.value
  {
    if rows == [] then None
    else
      assert rows == [rows[0]] + rows[1..];
      var rest := MaxDate(rows[1..], dateOf);
      if rest.None? || dateOf(rows[0]) >= rest.value then Some(dateOf(rows[0])) else rest
  }

  /** `WHERE CREATED_DATE = (SELECT MAX(CREATED_DATE) FROM t)`: the rows of the
      latest snapshot. An empty table selects nothing (a comparison with null is
      never true); any other table selects at least one row. */
  function LatestSnapshot<T(!new)>(rows: seq<T>, dateOf: T -> Date): (r: seq<T>)
    ensures forall x :: x in r <==> x in rows && MaxDate(rows, dateOf) == Some(dateOf(x))
    ensures r == [] <==> rows == []
  {
    match MaxDate(rows, dateOf)
    case None => []
    case Some(m) =>
      var r := Filter(rows, x => dateOf(x) == m);
      assert rows != [] ==> exists x :: x in r;
      r
  }

  /** Rows selected from a table with distinct (natural key, date) keys all share
      one date, so they keep distinct keys. */
  lemma LatestSnapshotDistinct<K, T(!new)>(rows: seq<T>, dateOf: T -> Date, key: T -> K)
    requires DistinctKeys(rows, key)
    ensures DistinctKeys(LatestSnapshot(rows, dateOf), key)
  {
    match MaxDate(rows, dateOf)
    case None =>
    case Some(m) => FilterDistinct(rows, x => dateOf(x) == m, key);
  }

  // ------------------------------------------------------------ DIM_STATION

  /** ID, CODE, NAME, ADDRESS, LONGITUDE, LATITUDE, STATUS and the capacity. */
  function ProjectStation(s: Station): DimStation
  {
    DimStation(s.id, s.code, s.name, s.address, s.longitude, s.latitude, s.status, s.capacity)
  }

  /** The SELECT of agregate_dim_station: a row is selected exactly when it is
      the projection of a station of CONSOLIDATE_STATION's latest snapshot, so
      the dimension never mixes dates; an empty table selects nothing. */
  function DimStationRows(stations: seq<Station>): (r: seq<DimStation>)
    ensures forall d :: d in r <==>
      exists s :: s in stations && MaxDate(stations, StationDate) == Some(s.createdDate) && d == ProjectStation(s)
    ensures r == [] <==> stations == []
  {
    var latest := LatestSnapshot(stations, StationDate);
    var r := seq(|latest|, i requires 0 <= i < |latest| => ProjectStation(latest[i]));
    assert forall s :: s in latest ==> ProjectStation(s) in r by {
      forall s | s in latest ensures ProjectStation(s) in r {
        var k :| 0 <= k < |latest| && latest[k] == s;
        assert r[k] == ProjectStation(s);
      }
    }
    r
  }

  /** When CONSOLIDATE_STATION keeps its (id, created_date) key, the selected
      rows have distinct ids, so the write into DIM_STATION cannot fail. */
  lemma DimStationIdsDistinct(stations: seq<Station>)
    requires DistinctKeys(stations, StationKey)
    ensures DistinctKeys(DimStationRows(stations), DimStationKey)
  {
    var latest := LatestSnapshot(stations, StationDate);
    var r := DimStationRows(stations);
    LatestSnapshotDistinct(stations, StationDate, StationKey);
    forall i, j | 0 <= i < j < |r| ensures DimStationKey(r[i]) != DimStationKey(r[j]) {
      assert r[i] == ProjectStation(latest[i]) && r[j] == ProjectStation(latest[j]);
      assert latest[i] in latest && latest[j] in latest;
    }
  }

  // --------------------------------------------------------------- DIM_CITY

  /** ID, NAME, NB_INHABITANTS. */
  function ProjectCity(c: City): CityEntry
  {
    CityEntry(c.id, c.name, c.nbInhabitants)
  }

  /** The SELECT of agregate_dim_city: exactly the projections of the cities of
      CONSOLIDATE_CITY's latest snapshot; an empty table selects nothing. */
  function DimCityRows(cities: seq<City>): (r: seq<CityEntry>)
    ensures forall e :: e in r <==>
      exists c :: c in cities && MaxDate(cities, CityDate) == Some(c.createdDate) && e == ProjectCity(c)
    ensures r == [] <==> cities == []
  {
    var latest := LatestSnapshot(cities, CityDate);
    var r := seq(|latest|, i requires 0 <= i < |latest| => ProjectCity(latest[i]));
    assert forall c :: c in latest ==> ProjectCity(c) in r by {
      forall c | c in latest ensures ProjectCity(c) in r {
        var k :| 0 <= k < |latest| && latest[k] == c;
        assert r[k] == ProjectCity(c);
      }
    }
    r
  }

  lemma DimCityIdsDistinct(cities: seq<City>)
    requires DistinctKeys(cities, CityKey)
    ensures DistinctKeys(DimCityRows(cities), DimCityKey)
  {
    var latest := LatestSnapshot(cities, CityDate);
    var r := DimCityRows(cities);
    LatestSnapshotDistinct(cities, CityDate, CityKey);
    forall i, j | 0 <= i < j < |r| ensures DimCityKey(r[i]) != DimCityKey(r[j]) {
      assert r[i] == ProjectCity(latest[i]) && r[j] == ProjectCity(latest[j]);
      assert latest[i] in latest && latest[j] in latest;
    }
  }

  // ------------------------------------------------- FACT_STATION_STATEMENT

  /** The three maxima the fact query compares snapshot dates with. */
  datatype Latest = Latest(statement: Option<Date>, station: Option<Date>, city: Option<Date>)

  function LatestOf(statements: seq<Statement>, stations: seq<Station>, cities: seq<City>): Latest
  {
    Latest(MaxDate(statements, StatementDate), MaxDate(stations, StationDate), MaxDate(cities, CityDate))
  }

  /** The WHERE clause on one joined row, under SQL's three-valued logic: a null
      city code fails `CITY_CODE != 0`, and the null-extended city row of the
      LEFT JOIN fails the comparison of `cc.CREATED_DATE` with the maximum. */
  predicate Where(s: Statement, st: Station, cc: Option<City>, latest: Latest)
  {
    && st.cityCode.Some? && st.cityCode.value != 0
    && latest.statement == Some(s.createdDate)
    && latest.station == Some(st.createdDate)
    && cc.Some? && latest.city == Some(cc.value.createdDate)
  }

  /** The city side of `LEFT JOIN CONSOLIDATE_CITY AS cc ON cc.ID = CITY_CODE`:
      every city whose id is the station's city code, or a single null row when
      there is none (a null city code matches no city). */
  function CityJoin(st: Station, cities: seq<City>): (r: seq<Option<City>>)
    ensures forall c :: Some(c) in r <==> c in cities && st.cityCode == Some(c.id)
    ensures None in r <==> forall c :: c in cities ==> st.cityCode != Some(c.id)
    ensures None in r ==> r == [None]
  {
    var matching := Filter(cities, (c: City) => st.cityCode == Some(c.id));
    if matching == [] then [None]
    else
      var r := seq(|matching|, i requires 0 <= i < |matching| => Some(matching[i]));
      assert forall c :: c in matching ==> Some(c) in r by {
        forall c | c in matching ensures Some(c) in r {
          var k :| 0 <= k < |matching| && matching[k] == c;
          assert r[k] == Some(c);
        }
      }
      assert forall o :: o in r ==> o.Some? && o.value in matching;
      assert matching[0] in matching;
      r
  }

  /** STATION_ID, cc.ID, BICYCLE_DOCKS_AVAILABLE, BICYCLE_AVAILABLE,
      LAST_STATEMENT_DATE, and `current_date` as CREATED_DATE. */
  function MakeFact(s: Statement, c: City, runDate: Date): Fact
  {
    Fact(s.stationId, c.id, s.bicycleDocksAvailable, s.bicycleAvailable, s.lastStatementDate, runDate)
  }

  /** The projected rows that pass the WHERE clause, for one statement joined to
      one station and to each row of its city side. */
  function JoinedFacts(s: Statement, st: Station, joined: seq<Option<City>>, latest: Latest, runDate: Date): seq<Fact>
  {
    if joined == [] then []
    else
      (if Where(s, st, joined[0], latest) then [MakeFact(s, joined[0].value, runDate)] else [])
      + JoinedFacts(s, st, joined[1..], latest, runDate)
  }

  /** One statement joined to CONSOLIDATE_STATION on `ID = STATION_ID`, then to the cities. */
  function StationFacts(s: Statement, stations: seq<Station>, cities: seq<City>, latest: Latest, runDate: Date): seq<Fact>
  {
    if stations == [] then []
    else
      (if stations[0].id == s.stationId then JoinedFacts(s, stations[0], CityJoin(stations[0], cities), latest, runDate) else [])
      + StationFacts(s, stations[1..], cities, latest, runDate)
  }

  function StatementFacts(statements: seq<Statement>, stations: seq<Station>, cities: seq<City>, latest: Latest, runDate: Date): seq<Fact>
  {
    if statements == [] then []
    else StationFacts(statements[0], stations, cities, latest, runDate) + StatementFacts(statements[1..], stations, cities, latest, runDate)
  }

  /** The SELECT of agregate_fact_station_statements, as written. */
  function FactRows(statements: seq<Statement>, stations: seq<Station>, cities: seq<City>, runDate: Date): seq<Fact>
  {
    StatementFacts(statements, stations, cities, LatestOf(statements, stations, cities), runDate)
  }

  /** A statement, a station and a city that the fact query combines: the
      station is the statement's, the city is the station's and is not the
      sentinel 0, and all three belong to their table's latest snapshot. */
  predicate FactSource(s: Statement, st: Station, c: City, latest: Latest)
  {
    && st.id == s.stationId
    && st.cityCode == Some(c.id) && c.id != 0
    && latest.statement == Some(s.createdDate)
    && latest.station == Some(st.createdDate)
    && latest.city == Some(c.createdDate)
  }

  lemma {:induction false} JoinedFactsMember(s: Statement, st: Station, joined: seq<Option<City>>, latest: Latest, runDate: Date)
    ensures forall f :: f in JoinedFacts(s, st, joined, latest, runDate) <==>
      exists c :: Some(c) in joined && Where(s, st, Some(c), latest) && f == MakeFact(s, c, runDate)
  {
    if joined != [] {
      JoinedFactsMember(s, st, joined[1..], latest, runDate);
      assert joined == [joined[0]] + joined[1..];
    }
  }

  lemma {:induction false} StationFactsMember(s: Statement, stations: seq<Station>, cities: seq<City>, latest: Latest, runDate: Date)
    ensures forall f :: f in StationFacts(s, stations, cities, latest, runDate) <==>
      exists st, c :: st in stations && c in cities && FactSource(s, st, c, latest) && f == MakeFact(s, c, runDate)
  {
    if stations != [] {
      var st0, rest := stations[0], stations[1..];
      var joined := CityJoin(st0, cities);
      var head := if st0.id == s.stationId then JoinedFacts(s, st0, joined, latest, runDate) else [];
      var tail := StationFacts(s, rest, cities, latest, runDate);
      StationFactsMember(s, rest, cities, latest, runDate);
      JoinedFactsMember(s, st0, joined, latest, runDate);
      assert StationFacts(s, stations, cities, latest, runDate) == head + tail;
      forall f ensures f in head + tail <==>
        exists st, c :: st in stations && c in cities && FactSource(s, st, c, latest) && f == MakeFact(s, c, runDate)
      {
        if f in head {
          var c :| Some(c) in joined && Where(s, st0, Some(c), latest) && f == MakeFact(s, c, runDate);
          assert st0 in stations && c in cities && FactSource(s, st0, c, latest);
        }
        if f in tail {
          var st, c :| st in rest && c in cities && FactSource(s, st, c, latest) && f == MakeFact(s, c, runDate);
          assert st in stations;
        }
        if exists st, c :: st in stations && c in cities && FactSource(s, st, c, latest) && f == MakeFact(s, c, runDate) {
          var st, c :| st in stations && c in cities && FactSource(s, st, c, latest) && f == MakeFact(s, c, runDate);
          if st == st0 {
            assert Some(c) in joined && Where(s, st0, Some(c), latest);
            assert f in head;
          } else {
            assert st in rest;
            assert f in tail;
          }
        }
      }
    }
  }

  lemma {:induction false} StatementFactsMember(statements: seq<Statement>, stations: seq<Station>, cities: seq<City>, latest: Latest, runDate: Date)
    ensures forall f :: f in StatementFacts(statements, stations, cities, latest, runDate) <==>
      exists s, st, c :: s in statements && st in stations && c in cities && FactSource(s, st, c, latest) && f == MakeFact(s, c, runDate)
  {
    if statements != [] {
      StatementFactsMember(statements[1..], stations, cities, latest, runDate);
      StationFactsMember(statements[0], stations, cities, latest, runDate);
      assert statements == [statements[0]] + statements[1..];
    }
  }

  /** The LEFT JOIN and its WHERE clause select exactly the inner join of the
      latest statement, station and city snapshots, minus the stations whose
      city code is 0 or null; every fact row carries the run date. */
  lemma FactRowsMember(statements: seq<Statement>, stations: seq<Station>, cities: seq<City>, runDate: Date)
    ensures forall f :: f in FactRows(statements, stations, cities, runDate) <==>
      exists s, st, c :: s in statements && st in stations && c in cities &&
        FactSource(s, st, c, LatestOf(statements, stations, cities)) && f == MakeFact(s, c, runDate)
  {
    StatementFactsMember(statements, stations, cities, LatestOf(statements, stations, cities), runDate);
  }

  /** Every fact row, field by field: it comes from a statement of the latest
      statement snapshot joined to a station of the latest station snapshot on
      `station_id = id`; its city id is that station's city code, which is
      neither 0 nor null, and is the id of a city of the latest city snapshot;
      its date is the run date, whatever the snapshot dates were. */
  lemma FactProvenance(statements: seq<Statement>, stations: seq<Station>, cities: seq<City>, runDate: Date, f: Fact)
    requires f in FactRows(statements, stations, cities, runDate)
    ensures f.createdDate == runDate && f.cityId != 0
    ensures exists s :: (s in statements && MaxDate(statements, StatementDate) == Some(s.createdDate) &&
                         s.stationId == f.stationId && s.bicycleDocksAvailable == f.bicycleDocksAvailable &&
                         s.bicycleAvailable == f.bicycleAvailable && s.lastStatementDate == f.lastStatementDate)
    ensures exists st :: (st in stations && MaxDate(stations, StationDate) == Some(st.createdDate) &&
                          st.id == f.stationId && st.cityCode == Some(f.cityId))
    ensures exists c :: c in cities && MaxDate(cities, CityDate) == Some(c.createdDate) && c.id == f.cityId
  {
    FactRowsMember(statements, stations, cities, runDate);
    var s, st, c :| s in statements && st in stations && c in cities &&
      FactSource(s, st, c, LatestOf(statements, stations, cities)) && f == MakeFact(s, c, runDate);
  }

  /** An empty consolidated table gives an empty fact selection, not an error. */
  lemma EmptyTableGivesNoFacts(statements: seq<Statement>, stations: seq<Station>, cities: seq<City>, runDate: Date)
    requires statements == [] || stations == [] || cities == []
    ensures FactRows(statements, stations, cities, runDate) == []
  {
    FactRowsMember(statements, stations, cities, runDate);
    NoElementEmpty(FactRows(statements, stations, cities, runDate));
  }

  /** A station of the latest snapshot whose city code is 0 or null, i.e. one
      whose city did not resolve, is in DIM_STATION's selection but has no fact
      row, provided CONSOLIDATE_STATION keeps its (id, created_date) key. */
  lemma UnaffiliatedStationExcluded(statements: seq<Statement>, stations: seq<Station>, cities: seq<City>, runDate: Date, st: Station)
    requires DistinctKeys(stations, StationKey)
    requires st in stations && MaxDate(stations, StationDate) == Some(st.createdDate)
    requires st.cityCode == None || st.cityCode == Some(0)
    ensures ProjectStation(st) in DimStationRows(stations)
    ensures forall f :: f in FactRows(statements, stations, cities, runDate) ==> f.stationId != st.id
  {
    FactRowsMember(statements, stations, cities, runDate);
    forall f | f in FactRows(statements, stations, cities, runDate) ensures f.stationId != st.id {
      var s, st', c :| s in statements && st' in stations && c in cities &&
        FactSource(s, st', c, LatestOf(statements, stations, cities)) && f == MakeFact(s, c, runDate);
      if f.stationId == st.id {
        SameKeySameRow(stations, StationKey, st, st');
      }
    }
  }

  /** Under the city key, at most one row of a station's city side passes the WHERE clause. */
  lemma {:induction false} JoinedFactsAtMostOne(s: Statement, st: Station, joined: seq<Option<City>>, latest: Latest, runDate: Date)
    requires forall i, j :: 0 <= i < j < |joined| ==> !(Where(s, st, joined[i], latest) && Where(s, st, joined[j], latest))
    ensures |JoinedFacts(s, st, joined, latest, runDate)| <= 1
  {
    if joined != [] {
      var rest := joined[1..];
      forall i, j | 0 <= i < j < |rest| ensures !(Where(s, st, rest[i], latest) && Where(s, st, rest[j], latest)) {
        assert rest[i] == joined[i + 1] && rest[j] == joined[j + 1];
      }
      JoinedFactsAtMostOne(s, st, rest, latest, runDate);
      if Where(s, st, joined[0], latest) {
        JoinedFactsMember(s, st, rest, latest, runDate);
        forall o | o in rest ensures !Where(s, st, o, latest) {
          var k :| 0 <= k < |rest| && rest[k] == o;
          assert o == joined[k + 1];
        }
        NoElementEmpty(JoinedFacts(s, st, rest, latest, runDate));
      }
    }
  }

  lemma CityJoinAtMostOne(s: Statement, st: Station, cities: seq<City>, latest: Latest, runDate: Date)
    requires DistinctKeys(cities, CityKey)
    ensures |JoinedFacts(s, st, CityJoin(st, cities), latest, runDate)| <= 1
  {
    var joined := CityJoin(st, cities);
    var p := (c: City) => st.cityCode == Some(c.id);
    var matching := Filter(cities, p);
    FilterDistinct(cities, p, CityKey);
    if matching != [] {
      forall i, j | 0 <= i < j < |joined| ensures !(Where(s, st, joined[i], latest) && Where(s, st, joined[j], latest)) {
        assert joined[i] == Some(matching[i]) && joined[j] == Some(matching[j]);
        assert matching[i] in matching && matching[j] in matching;
      }
    }
    JoinedFactsAtMostOne(s, st, joined, latest, runDate);
  }

  /** Under the station and city keys, a statement yields at most one fact row. */
  lemma {:induction false} StationFactsAtMostOne(s: Statement, stations: seq<Station>, cities: seq<City>, latest: Latest, runDate: Date)
    requires DistinctKeys(stations, StationKey) && DistinctKeys(cities, CityKey)
    ensures |StationFacts(s, stations, cities, latest, runDate)| <= 1
  {
    if stations != [] {
      var st0, rest := stations[0], stations[1..];
      var joined := CityJoin(st0, cities);
      var head := if st0.id == s.stationId then JoinedFacts(s, st0, joined, latest, runDate) else [];
      var tail := StationFacts(s, rest, cities, latest, runDate);
      DistinctKeysTail(stations, StationKey);
      StationFactsAtMostOne(s, rest, cities, latest, runDate);
      CityJoinAtMostOne(s, st0, cities, latest, runDate);
      if head != [] && tail != [] {
        JoinedFactsMember(s, st0, joined, latest, runDate);
        assert head[0] in head;
        var c :| Some(c) in joined && Where(s, st0, Some(c), latest) && head[0] == MakeFact(s, c, runDate);
        StationFactsMember(s, rest, cities, latest, runDate);
        assert tail[0] in tail;
        var st', c' :| st' in rest && c' in cities && FactSource(s, st', c', latest) && tail[0] == MakeFact(s, c', runDate);
        DistinctKeysHead(stations, StationKey, st');
        assert false;
      }
    }
  }

  lemma {:induction false} StatementFactsDistinct(statements: seq<Statement>, stations: seq<Station>, cities: seq<City>, latest: Latest, runDate: Date)
    requires DistinctKeys(statements, StatementKey) && DistinctKeys(stations, StationKey) && DistinctKeys(cities, CityKey)
    ensures DistinctKeys(StatementFacts(statements, stations, cities, latest, runDate), FactKey)
  {
    if statements != [] {
      var s0, rest := statements[0], statements[1..];
      var head := StationFacts(s0, stations, cities, latest, runDate);
      var tail := StatementFacts(rest, stations, cities, latest, runDate);
      DistinctKeysTail(statements, StatementKey);
      StatementFactsDistinct(rest, stations, cities, latest, runDate);
      StationFactsAtMostOne(s0, stations, cities, latest, runDate);
      DistinctKeysShort(head, FactKey);
      StationFactsMember(s0, stations, cities, latest, runDate);
      StatementFactsMember(rest, stations, cities, latest, runDate);
      forall x, y | x in head && y in tail ensures FactKey(x) != FactKey(y) {
        var st, c :| st in stations && c in cities && FactSource(s0, st, c, latest) && x == MakeFact(s0, c, runDate);
        var s', st', c' :| s' in rest && st' in stations && c' in cities && FactSource(s', st', c', latest) && y == MakeFact(s', c', runDate);
        DistinctKeysHead(statements, StatementKey, s');
      }
      DistinctKeysAppend(head, tail, FactKey);
    }
  }

  /** When the three consolidated tables keep their keys, the fact selection has
      one row per station id, so the write into FACT_STATION_STATEMENT cannot fail. */
  lemma FactKeysDistinct(statements: seq<Statement>, stations: seq<Station>, cities: seq<City>, runDate: Date)
    requires DistinctKeys(statements, StatementKey) && DistinctKeys(stations, StationKey) && DistinctKeys(cities, CityKey)
    ensures DistinctKeys(FactRows(statements, stations, cities, runDate), FactKey)
  {
    StatementFactsDistinct(statements, stations, cities, LatestOf(statements, stations, cities), runDate);
  }

  // ------------------------------------------------ writes into the aggregates

  /** agregate_dim_station. */
  method AgregateDimStation(stations: StationTable, dim: Table<string, DimStation>)
    requires stations.Valid() && stations.key == StationKey
    requires dim.Valid() && dim.key == DimStationKey
    modifies dim
    ensures dim.Valid()
    ensures dim.rows == Replace(old(dim.rows), DimStationRows(stations.rows), DimStationKey)
  {
    DimStationIdsDistinct(stations.rows);
    var ok := dim.Upsert(DimStationRows(stations.rows));
  }

  /** agregate_dim_city. */
  method AgregateDimCity(cities: CityTable, dim: Table<int, CityEntry>)
    requires cities.Valid() && cities.key == CityKey
    requires dim.Valid() && dim.key == DimCityKey
    modifies dim
    ensures dim.Valid()
    ensures dim.rows == Replace(old(dim.rows), DimCityRows(cities.rows), DimCityKey)
  {
    DimCityIdsDistinct(cities.rows);
    var ok := dim.Upsert(DimCityRows(cities.rows));
  }

  /** agregate_fact_station_statements: the run's rows replace that day's rows
      for the same stations; the fact rows of every other day are kept as they were. */
  method AgregateFactStationStatements(statements: StatementTable, stations: StationTable, cities: CityTable,
                                       fact: Table<(string, Date), Fact>, runDate: Date)
    requires statements.Valid() && statements.key == StatementKey
    requires stations.Valid() && stations.key == StationKey
    requires cities.Valid() && cities.key == CityKey
    requires fact.Valid() && fact.key == FactKey
    modifies fact
    ensures fact.Valid()
    ensures fact.rows == Replace(old(fact.rows), FactRows(statements.rows, stations.rows, cities.rows, runDate), FactKey)
    ensures SnapshotsOtherThan(fact.rows, FactKey, runDate) == SnapshotsOtherThan(old(fact.rows), FactKey, runDate)
  {
    var frame := FactRows(statements.rows, stations.rows, cities.rows, runDate);
    FactKeysDistinct(statements.rows, stations.rows, cities.rows, runDate);
    FactRowsMember(statements.rows, stations.rows, cities.rows, runDate);
    ReplaceKeepsOtherSnapshots(fact.rows, frame, FactKey, runDate);
    var ok := fact.Upsert(frame);
  }
}
