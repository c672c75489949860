/** The canonical rows of the consolidated tables (CONSOLIDATE_STATION,
    CONSOLIDATE_CITY, CONSOLIDATE_STATION_STATEMENT) and of the aggregate
    tables (DIM_STATION, DIM_CITY, FACT_STATION_STATEMENT), with the keys
    under which INSERT OR REPLACE writes them. */
module Records {
  import opened Wrappers

  /** A calendar date as a day number: only equality and order are used. */
  type Date = int

  /** A row of CONSOLIDATE_STATION, fields in the table's column order.
      Longitude and latitude are copied through and never computed on. */
  datatype Station = Station(
    id: string,
    code: string,
    name: Option<string>,
    cityName: Option<string>,
    cityCode: Option<int>,
    address: Option<string>,
    longitude: Option<real>,
    latitude: Option<real>,
    status: Option<string>,
    createdDate: Date,
    capacity: Option<int>)

  /** A row of CONSOLIDATE_CITY. */
  datatype City = City(id: int, name: Option<string>, nbInhabitants: Option<int>, createdDate: Date)

  /** A city without its snapshot date: a renamed row of the city registry
      before it is stamped, and a row of DIM_CITY. */
  datatype CityEntry = CityEntry(id: int, name: Option<string>, nbInhabitants: Option<int>)

  /** A row of CONSOLIDATE_STATION_STATEMENT. */
  datatype Statement = Statement(
    stationId: string,
    bicycleDocksAvailable: Option<int>,
    bicycleAvailable: Option<int>,
    lastStatementDate: Option<string>,
    createdDate: Date)

  /** A row of DIM_STATION: a station without its city columns and its date. */
  datatype DimStation = DimStation(
    id: string,
    code: string,
    name: Option<string>,
    address: Option<string>,
    longitude: Option<real>,
    latitude: Option<real>,
    status: Option<string>,
    capacity: Option<int>)

  /** A row of FACT_STATION_STATEMENT. */
  datatype Fact = Fact(
    stationId: string,
    cityId: int,
    bicycleDocksAvailable: Option<int>,
    bicycleAvailable: Option<int>,
    lastStatementDate: Option<string>,
    createdDate: Date)

  // The snapshot date of each consolidated row.
  function StationDate(s: Station): Date { s.createdDate }
  function CityDate(c: City): Date { c.createdDate }
  function StatementDate(s: Statement): Date { s.createdDate }

  // Table keys. The DDL that declares them is not part of this model; these
  // are the natural keys the tables are written under.
  function StationKey(s: Station): (string, Date) { (s.id, s.createdDate) }
  function CityKey(c: City): (int, Date) { (c.id, c.createdDate) }
  function StatementKey(s: Statement): (string, Date) { (s.stationId, s.createdDate) }
  function DimStationKey(d: DimStation): string { d.id }
  function DimCityKey(c: CityEntry): int { c.id }
  function FactKey(f: Fact): (string, Date) { (f.stationId, f.createdDate) }
}
