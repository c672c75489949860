/** The source adapters: each maps one parsed record of a raw feed to a row of
    a consolidated table, stamped with the run date (src/data_consolidation.py). */
module SourceAdapters {
  import opened Wrappers
  import opened Seqs
  import opened Text
  import opened Records

  /** The fixed city codes that prefix each source's station ids. */
  const ParisCityCode: nat := 1
  const ToulouseCityCode: nat := 2

  /** A record of the Paris real-time feed, with the nested `coordonnees_geo`
      object flattened into `lon` and `lat`. Every column but the station code
      may be missing (null). */
  datatype ParisRecord = ParisRecord(
    stationcode: string,
    name: Option<string>,
    nomArrondissementCommunes: Option<string>,
    codeInseeCommune: Option<int>,
    lon: Option<real>,
    lat: Option<real>,
    isInstalled: Option<string>,
    capacity: Option<int>,
    numDocksAvailable: Option<int>,
    numBikesAvailable: Option<int>,
    dueDate: Option<string>)

  /** A record of the Toulouse real-time feed, with `position` flattened.
      `number` is the station number as rendered in text. */
  datatype ToulouseRecord = ToulouseRecord(
    number: string,
    contractName: Option<string>,
    name: Option<string>,
    address: Option<string>,
    lon: Option<real>,
    lat: Option<real>,
    status: Option<string>,
    bikeStands: Option<int>,
    availableBikeStands: Option<int>,
    lastUpdate: Option<string>)

  /** A record of the municipal registry. */
  datatype CityRecord = CityRecord(code: int, nom: Option<string>, population: Option<int>)

  /** The station id `f"{cityCode}-{native}"`. */
  function StationId(cityCode: nat, native: string): string
  {
    DecimalString(cityCode) + "-" + native
  }

  /** In a station id the first dash sits right after the city code's digits. */
  lemma FirstDashAfterCode(p: string, native: string)
    requires IsDecimal(p)
    ensures (p + "-" + native)[|p|] == '-'
    ensures forall i :: 0 <= i < |p| ==> (p + "-" + native)[i] != '-'
  {
    var s := p + "-" + native;
    forall i | 0 <= i < |p| ensures s[i] != '-' {
      assert s[i] == p[i];
    }
  }

  /** A station id determines both its city code and the native station code. */
  lemma StationIdInjective(a: nat, x: string, b: nat, y: string)
    requires StationId(a, x) == StationId(b, y)
    ensures a == b && x == y
  {
    var p, q := DecimalString(a), DecimalString(b);
    var s := StationId(a, x);
    FirstDashAfterCode(p, x);
    FirstDashAfterCode(q, y);
    assert |p| == |q|;
    assert p == s[..|p|] == q;
    DecimalStringInjective(a, b);
    assert x == s[|p| + 1..] == y;
  }

  /** Stations of sources with different city codes never share an id, even
      when their native codes are equal. */
  lemma DifferentSourcesNeverCollide(a: nat, b: nat, x: string, y: string)
    requires a != b
    ensures StationId(a, x) != StationId(b, y)
  {
    if StationId(a, x) == StationId(b, y) {
      StationIdInjective(a, x, b, y);
    }
  }

  /** Within one source, ids are distinct exactly when native codes are. */
  lemma StationIdsDistinct(cityCode: nat, x: string, y: string)
    ensures StationId(cityCode, x) == StationId(cityCode, y) <==> x == y
  {
    if StationId(cityCode, x) == StationId(cityCode, y) {
      StationIdInjective(cityCode, x, cityCode, y);
    }
  }

  /** Toulouse's status vocabulary rewritten by `replace({"OPEN": "OUI", "CLOSE": "NON"})`. */
  function NormaliseStatus(s: string): (r: string)
    ensures s == "OPEN" ==> r == "OUI"
    ensures s == "CLOSE" ==> r == "NON"
    ensures s != "OPEN" && s != "CLOSE" ==> r == s
  {
    if s == "OPEN" then "OUI" else if s == "CLOSE" then "NON" else s
  }

  // ---------------------------------------------------------------- Paris

  /** A Paris station row: the id is the Paris code and the station code, the
      address is always null, `is_installed` becomes the status unchanged. */
  function ParisStation(r: ParisRecord, runDate: Date): (s: Station)
    ensures s.id == "1-" + r.stationcode && s.code == r.stationcode
    ensures s.address == None && s.status == r.isInstalled
    ensures s.cityCode == r.codeInseeCommune && s.cityName == r.nomArrondissementCommunes
    ensures s.name == r.name && s.longitude == r.lon && s.latitude == r.lat && s.capacity == r.capacity
    ensures s.createdDate == runDate
  {
    Station(
      id := StationId(ParisCityCode, r.stationcode),
      code := r.stationcode,
      name := r.name,
      cityName := r.nomArrondissementCommunes,
      cityCode := r.codeInseeCommune,
      address := None,
      longitude := r.lon,
      latitude := r.lat,
      status := r.isInstalled,
      createdDate := runDate,
      capacity := r.capacity)
  }

  /** A Paris statement row: it references the station built from the same record. */
  function ParisStatement(r: ParisRecord, runDate: Date): (t: Statement)
    ensures t.stationId == ParisStation(r, runDate).id
    ensures t.bicycleDocksAvailable == r.numDocksAvailable && t.bicycleAvailable == r.numBikesAvailable
    ensures t.lastStatementDate == r.dueDate && t.createdDate == runDate
  {
    Statement(StationId(ParisCityCode, r.stationcode), r.numDocksAvailable, r.numBikesAvailable, r.dueDate, runDate)
  }

  function ParisCodes(raw: seq<ParisRecord>): seq<string>
  {
    seq(|raw|, i requires 0 <= i < |raw| => raw[i].stationcode)
  }

  /** The frame written to CONSOLIDATE_STATION by the Paris adapter: one row per record. */
  function ParisStations(raw: seq<ParisRecord>, runDate: Date): (rows: seq<Station>)
    ensures |rows| == |raw|
    ensures forall i :: 0 <= i < |raw| ==> rows[i] == ParisStation(raw[i], runDate)
  {
    seq(|raw|, i requires 0 <= i < |raw| => ParisStation(raw[i], runDate))
  }

  /** The frame written to CONSOLIDATE_STATION_STATEMENT by the Paris adapter. */
  function ParisStatements(raw: seq<ParisRecord>, runDate: Date): (rows: seq<Statement>)
    ensures |rows| == |raw|
    ensures forall i :: 0 <= i < |raw| ==> rows[i].stationId == ParisStations(raw, runDate)[i].id
    ensures forall i :: 0 <= i < |raw| ==> rows[i] == ParisStatement(raw[i], runDate)
  {
    seq(|raw|, i requires 0 <= i < |raw| => ParisStatement(raw[i], runDate))
  }

  /** The Paris station frame satisfies the key of CONSOLIDATE_STATION exactly
      when no station code occurs twice in the feed. */
  lemma ParisStationKeysDistinct(raw: seq<ParisRecord>, runDate: Date)
    ensures DistinctKeys(ParisStations(raw, runDate), StationKey) <==> NoDuplicates(ParisCodes(raw))
  {
    var rows, codes := ParisStations(raw, runDate), ParisCodes(raw);
    forall i, j | 0 <= i < j < |raw|
      ensures StationKey(rows[i]) == StationKey(rows[j]) <==> codes[i] == codes[j]
    {
      StationIdsDistinct(ParisCityCode, codes[i], codes[j]);
    }
  }

  /** The same holds of the Paris statement frame and CONSOLIDATE_STATION_STATEMENT. */
  lemma ParisStatementKeysDistinct(raw: seq<ParisRecord>, runDate: Date)
    ensures DistinctKeys(ParisStatements(raw, runDate), StatementKey) <==> NoDuplicates(ParisCodes(raw))
  {
    var rows, codes := ParisStatements(raw, runDate), ParisCodes(raw);
    forall i, j | 0 <= i < j < |raw|
      ensures StatementKey(rows[i]) == StatementKey(rows[j]) <==> codes[i] == codes[j]
    {
      StationIdsDistinct(ParisCityCode, codes[i], codes[j]);
    }
  }

  // ------------------------------------------------------------- Toulouse

  /** A Toulouse station row, given the city code resolved for its contract name:
      the id is the Toulouse code and the station number, OPEN and CLOSE are
      rewritten, `bike_stands` is the capacity. */
  function ToulouseStation(r: ToulouseRecord, cityCode: Option<int>, runDate: Date): (s: Station)
    ensures s.id == "2-" + r.number && s.code == r.number
    ensures s.status == r.status.Map(NormaliseStatus)
    ensures s.cityCode == cityCode && s.cityName == r.contractName
    ensures s.name == r.name && s.address == r.address && s.longitude == r.lon && s.latitude == r.lat
    ensures s.capacity == r.bikeStands && s.createdDate == runDate
  {
    Station(
      id := StationId(ToulouseCityCode, r.number),
      code := r.number,
      name := r.name,
      cityName := r.contractName,
      cityCode := cityCode,
      address := r.address,
      longitude := r.lon,
      latitude := r.lat,
      status := r.status.Map(NormaliseStatus),
      createdDate := runDate,
      capacity := r.bikeStands)
  }

  /** A Toulouse statement row. As written, `bicycle_available` is taken from
      `bike_stands`, so it equals the station's capacity, not the bikes present. */
  function ToulouseStatement(r: ToulouseRecord, runDate: Date): (t: Statement)
    ensures forall code :: t.stationId == ToulouseStation(r, code, runDate).id
    ensures forall code :: t.bicycleAvailable == ToulouseStation(r, code, runDate).capacity
    ensures t.bicycleDocksAvailable == r.availableBikeStands
    ensures t.lastStatementDate == r.lastUpdate && t.createdDate == runDate
  {
    Statement(StationId(ToulouseCityCode, r.number), r.availableBikeStands, r.bikeStands, r.lastUpdate, runDate)
  }

  function ToulouseNumbers(raw: seq<ToulouseRecord>): seq<string>
  {
    seq(|raw|, i requires 0 <= i < |raw| => raw[i].number)
  }

  /** The frame written to CONSOLIDATE_STATION_STATEMENT by the Toulouse adapter. */
  function ToulouseStatements(raw: seq<ToulouseRecord>, runDate: Date): (rows: seq<Statement>)
    ensures |rows| == |raw|
    ensures forall i :: 0 <= i < |raw| ==> rows[i] == ToulouseStatement(raw[i], runDate)
  {
    seq(|raw|, i requires 0 <= i < |raw| => ToulouseStatement(raw[i], runDate))
  }

  lemma ToulouseStatementKeysDistinct(raw: seq<ToulouseRecord>, runDate: Date)
    ensures DistinctKeys(ToulouseStatements(raw, runDate), StatementKey) <==> NoDuplicates(ToulouseNumbers(raw))
  {
    var rows, codes := ToulouseStatements(raw, runDate), ToulouseNumbers(raw);
    forall i, j | 0 <= i < j < |raw|
      ensures StatementKey(rows[i]) == StatementKey(rows[j]) <==> codes[i] == codes[j]
    {
      StationIdsDistinct(ToulouseCityCode, codes[i], codes[j]);
    }
  }

  /** No Paris row ever carries the id of a Toulouse row, whatever the codes. */
  lemma SourcesNeverCollide(p: ParisRecord, t: ToulouseRecord, cityCode: Option<int>, d1: Date, d2: Date)
    ensures ParisStation(p, d1).id != ToulouseStation(t, cityCode, d2).id
    ensures ParisStatement(p, d1).stationId != ToulouseStatement(t, d2).stationId
  {
    DifferentSourcesNeverCollide(ParisCityCode, ToulouseCityCode, p.stationcode, t.number);
  }

  // ----------------------------------------------------------- City registry

  /** `code`, `nom` and `population` renamed `id`, `name` and `nb_inhabitants`. */
  function CityEntries(raw: seq<CityRecord>): (entries: seq<CityEntry>)
    ensures |entries| == |raw|
    ensures forall i :: 0 <= i < |raw| ==>
      entries[i].id == raw[i].code && entries[i].name == raw[i].nom && entries[i].nbInhabitants == raw[i].population
  {
    seq(|raw|, i requires 0 <= i < |raw| => CityEntry(raw[i].code, raw[i].nom, raw[i].population))
  }

  function Stamp(e: CityEntry, runDate: Date): City
  {
    City(e.id, e.name, e.nbInhabitants, runDate)
  }

  /** The frame written to CONSOLIDATE_CITY: the renamed registry with exact
      duplicate rows dropped, then stamped with the run date. It holds no two
      identical rows, and a city is in it exactly when it is stamped with the
      run date and its renamed row occurs in the registry. */
  function ConsolidatedCities(raw: seq<CityRecord>, runDate: Date): (rows: seq<City>)
    ensures NoDuplicates(rows)
    ensures forall c :: c in rows <==> c.createdDate == runDate && CityEntry(c.id, c.name, c.nbInhabitants) in CityEntries(raw)
    ensures |rows| <= |raw|
  {
    var unique := DropDuplicates(CityEntries(raw));
    var rows := seq(|unique|, i requires 0 <= i < |unique| => Stamp(unique[i], runDate));
    assert forall c :: c in rows <==> c.createdDate == runDate && CityEntry(c.id, c.name, c.nbInhabitants) in unique by {
      forall c: City | c.createdDate == runDate && CityEntry(c.id, c.name, c.nbInhabitants) in unique ensures c in rows {
        var k :| 0 <= k < |unique| && unique[k] == CityEntry(c.id, c.name, c.nbInhabitants);
        assert rows[k] == c;
      }
    }
    rows
  }
}
