/** Resolution of the Toulouse feed's free-text `contract_name` to a city id of
    CONSOLIDATE_CITY (src/data_consolidation.py, consolidate_station_data_toulouse). */
module CityResolver {
  import opened Wrappers
  import opened Seqs
  import opened Text
  import opened Records
  import opened SourceAdapters

  /** `str.lower()` on a column: a null stays null. */
  function LowerName(name: Option<string>): Option<string>
  {
    name.Map(Lower)
  }

  /** The lower-cased contract name of every record, duplicates removed in
      first-appearance order (pandas' `unique()`, which keeps one null). */
  function DistinctCityNames(raw: seq<ToulouseRecord>): (names: seq<Option<string>>)
    ensures NoDuplicates(names)
    ensures forall i :: 0 <= i < |raw| ==> LowerName(raw[i].contractName) in names
    ensures forall n :: n in names ==> exists i :: 0 <= i < |raw| && n == LowerName(raw[i].contractName)
  {
    var lowered := seq(|raw|, i requires 0 <= i < |raw| => LowerName(raw[i].contractName));
    assert forall i :: 0 <= i < |raw| ==> lowered[i] == LowerName(raw[i].contractName) && lowered[i] in lowered;
    DropDuplicates(lowered)
  }

  /** `LOWER(NAME) = ?` for an already lower-cased parameter. A null on either
      side never matches. */
  predicate NameMatches(c: City, name: Option<string>)
  {
    name.Some? && c.name.Some? && Lower(c.name.value) == name.value
  }

  /** The lookup is case-insensitive on both sides: a city named `m` matches
      the contract name `n` exactly when `m` and `n` are equal ignoring case. */
  lemma NameMatchIgnoresCase(c: City, n: string)
    requires c.name.Some?
    ensures NameMatches(c, LowerName(Some(n))) <==> EqualIgnoringCase(c.name.value, n)
  {
    LowerEqualIff(c.name.value, n);
  }

  /** `SELECT ID FROM CONSOLIDATE_CITY WHERE LOWER(NAME) = ?` followed by
      `fetchone()`: the id of the first matching row of the table, or nothing.
      The table is searched across every snapshot date. */
  function LookupCityId(cities: seq<City>, name: Option<string>): (r: Option<int>)
    ensures r.None? <==> forall c :: c in cities ==> !NameMatches(c, name)
    ensures r.Some? ==> exists c :: c in cities && NameMatches(c, name) && c.id == r.value
  {
    if cities == [] then None
    else if NameMatches(cities[0], name) then Some(cities[0].id)
    else
      assert cities == [cities[0]] + cities[1..];
      LookupCityId(cities[1..], name)
  }

  /** `.map(city_to_insee)`: the code recorded for a lower-cased name, null when
      the dictionary has no entry for it. */
  function CodeFor(cityToInsee: map<string, int>, name: Option<string>): Option<int>
  {
    if name.Some? && name.value in cityToInsee then Some(cityToInsee[name.value]) else None
  }

  /** The resolution loop: one lookup per distinct name. The dictionary gives,
      for every name, exactly what a lookup of that name gives; it holds no
      other names; the warnings are exactly the names that did not resolve. */
  method ResolveCityNames(names: seq<Option<string>>, cities: seq<City>)
    returns (cityToInsee: map<string, int>, warnings: seq<Option<string>>)
    ensures forall n :: n in names ==> CodeFor(cityToInsee, n) == LookupCityId(cities, n)
    ensures forall k :: k in cityToInsee ==> Some(k) in names
    ensures forall n :: n in warnings <==> n in names && LookupCityId(cities, n).None?
  {
    cityToInsee := map[];
    warnings := [];
    var i := 0;
    while i < |names|
      invariant 0 <= i <= |names|
      invariant forall n :: n in names[..i] ==> CodeFor(cityToInsee, n) == LookupCityId(cities, n)
      invariant forall k :: k in cityToInsee ==> Some(k) in names[..i]
      invariant forall n :: n in warnings <==> n in names[..i] && LookupCityId(cities, n).None?
    {
      var city := names[i];
      var cityInsee := LookupCityId(cities, city);
      assert names[..i + 1] == names[..i] + [city];
      if cityInsee.Some? {
        cityToInsee := cityToInsee[city.value := cityInsee.value];
      } else {
        warnings := warnings + [city];
      }
      assert CodeFor(cityToInsee, city) == cityInsee;
      i := i + 1;
    }
    assert names[..i] == names;
  }

  /** The Toulouse station frame as the source builds it: each record's
      lower-cased contract name looked up in the dictionary. */
  function ToulouseStations(raw: seq<ToulouseRecord>, cityToInsee: map<string, int>, runDate: Date): (rows: seq<Station>)
    ensures |rows| == |raw|
    ensures forall i :: 0 <= i < |raw| ==>
      rows[i] == ToulouseStation(raw[i], CodeFor(cityToInsee, LowerName(raw[i].contractName)), runDate)
  {
    seq(|raw|, i requires 0 <= i < |raw| => ToulouseStation(raw[i], CodeFor(cityToInsee, LowerName(raw[i].contractName)), runDate))
  }

  /** The reference frame: each station resolved by its own lookup. No station
      is dropped; a station gets a city code exactly when some city's
      lower-cased name equals its lower-cased contract name, and that code is
      the id of such a city; otherwise its city code is null. */
  function ResolvedToulouseStations(raw: seq<ToulouseRecord>, cities: seq<City>, runDate: Date): (rows: seq<Station>)
    ensures |rows| == |raw|
    ensures forall i :: 0 <= i < |raw| ==>
      rows[i] == ToulouseStation(raw[i], rows[i].cityCode, runDate)
    ensures forall i :: 0 <= i < |raw| ==>
      (rows[i].cityCode.None? <==> forall c :: c in cities ==> !NameMatches(c, LowerName(raw[i].contractName)))
    ensures forall i :: 0 <= i < |raw| && rows[i].cityCode.Some? ==>
      exists c :: c in cities && NameMatches(c, LowerName(raw[i].contractName)) && c.id == rows[i].cityCode.value
    ensures forall i, j ::
      0 <= i < |raw| && 0 <= j < |raw| && LowerName(raw[i].contractName) == LowerName(raw[j].contractName) ==>
      rows[i].cityCode == rows[j].cityCode
  {
    seq(|raw|, i requires 0 <= i < |raw| => ToulouseStation(raw[i], LookupCityId(cities, LowerName(raw[i].contractName)), runDate))
  }

  /** Resolving once per distinct name and broadcasting the dictionary gives
      the same frame as resolving every station on its own. */
  lemma {:induction false} BroadcastMatchesPerStationLookup(raw: seq<ToulouseRecord>, cities: seq<City>,
                                                            cityToInsee: map<string, int>, runDate: Date)
    requires forall n :: n in DistinctCityNames(raw) ==> CodeFor(cityToInsee, n) == LookupCityId(cities, n)
    ensures ToulouseStations(raw, cityToInsee, runDate) == ResolvedToulouseStations(raw, cities, runDate)
  {
    var names := DistinctCityNames(raw);
    var a, b := ToulouseStations(raw, cityToInsee, runDate), ResolvedToulouseStations(raw, cities, runDate);
    forall i | 0 <= i < |raw| ensures a[i] == b[i] {
      assert LowerName(raw[i].contractName) in names;
    }
  }

  /** The Toulouse station frame satisfies the key of CONSOLIDATE_STATION
      exactly when no station number occurs twice in the feed. */
  lemma ToulouseStationKeysDistinct(raw: seq<ToulouseRecord>, cities: seq<City>, runDate: Date)
    ensures DistinctKeys(ResolvedToulouseStations(raw, cities, runDate), StationKey) <==> NoDuplicates(ToulouseNumbers(raw))
  {
    var rows, codes := ResolvedToulouseStations(raw, cities, runDate), ToulouseNumbers(raw);
    forall i, j | 0 <= i < j < |raw|
      ensures StationKey(rows[i]) == StationKey(rows[j]) <==> codes[i] == codes[j]
    {
      StationIdsDistinct(ToulouseCityCode, codes[i], codes[j]);
    }
  }
}
