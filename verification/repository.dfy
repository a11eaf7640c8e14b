/**
 * The repository over the database: existence and ownership checks, the
 * point-of-interest lookups and mutations, and the filtered, ordered and
 * paged city query.
 */
module CityInfoRepository {
  import opened Wrappers
  import opened Text
  import opened Sequences
  import opened Entities
  import opened CityInfoContext

  /** `cityExistsAsync`: some city row has key `cityId`. */
  function CityExists(db: Context, cityId: int): (r: bool)
    ensures r <==> HasCity(db, cityId)
  {
    Any(db.cities, HasCityId(cityId))
  }

  /** `GetCityAsync(cityId, false)`: the city row with key `cityId`, or null. */
  function GetCity(db: Context, cityId: int): (r: Option<City>)
    ensures r.None? <==> !HasCity(db, cityId)
    ensures r.Some? ==> r.value in db.cities && r.value.id == cityId
  {
    var hits := Where(db.cities, HasCityId(cityId));
    assert |hits| > 0 ==> hits[0] in hits;
    FirstOrNone(hits)
  }

  /** `CityNameMatchesCityId`: the city with key `cityId` exists and is called
      exactly `cityName`; false for a null name or an unknown key. */
  function CityNameMatchesCityId(db: Context, cityName: Option<string>, cityId: int): (r: bool)
    ensures r <==> cityName.Some? && exists c :: c in db.cities && c.id == cityId && c.name == cityName.value
  {
    Any(db.cities, (c: City) => c.id == cityId && Some(c.name) == cityName)
  }

  /** `GetPointsOfInterestForCityAsync`: exactly the rows whose foreign key is
      `cityId`. */
  function GetPointsOfInterestForCity(db: Context, cityId: int): (r: seq<PointOfInterest>)
    ensures forall p :: p in r ==> p in db.pointsOfInterest && p.cityId == cityId
    ensures forall p :: p in db.pointsOfInterest && p.cityId == cityId ==> p in r
  {
    PointsOfInterestOf(db, cityId)
  }

  function IsPointOfInterest(cityId: int, pointOfInterestId: int): PointOfInterest -> bool {
    (p: PointOfInterest) => p.cityId == cityId && p.id == pointOfInterestId
  }

  /** `GetPointOfInterestForCityAsync`: a row whose foreign key AND key both
      match, or null when there is none. */
  function GetPointOfInterestForCity(db: Context, cityId: int, pointOfInterestId: int): (r: Option<PointOfInterest>)
    ensures r.None? <==> forall p :: p in db.pointsOfInterest ==> !(p.cityId == cityId && p.id == pointOfInterestId)
    ensures r.Some? ==> r.value in db.pointsOfInterest && r.value.cityId == cityId && r.value.id == pointOfInterestId
  {
    var hits := Where(db.pointsOfInterest, IsPointOfInterest(cityId, pointOfInterestId));
    assert |hits| > 0 ==> hits[0] in hits;
    FirstOrNone(hits)
  }

  /** In a database with unique keys the lookup returns THE row with that key,
      provided it belongs to that city. */
  lemma GetPointOfInterestFindsTheRow(db: Context, cityId: int, p: PointOfInterest)
    requires UniquePointOfInterestIds(db.pointsOfInterest)
    requires p in db.pointsOfInterest && p.cityId == cityId
    ensures GetPointOfInterestForCity(db, cityId, p.id) == Some(p)
  {
    var r := GetPointOfInterestForCity(db, cityId, p.id);
    var ps := db.pointsOfInterest;
    var i :| 0 <= i < |ps| && ps[i] == r.value;
    var j :| 0 <= j < |ps| && ps[j] == p;
    assert i == j;
  }

  /** `AddPointOfInterestForCityAsync` followed by the save: when the city
      exists the point of interest is appended to its collection (foreign key
      fixed up, fresh key generated) and nothing else changes; when it does
      not, nothing changes at all. */
  function AddPointOfInterestForCity(db: Context, cityId: int, p: PointOfInterest): (r: Context)
    ensures !HasCity(db, cityId) ==> r == db
    ensures HasCity(db, cityId) ==>
      && r.cities == db.cities
      && |r.pointsOfInterest| == |db.pointsOfInterest| + 1
      && r.pointsOfInterest[..|db.pointsOfInterest|] == db.pointsOfInterest
      && r.pointsOfInterest[|db.pointsOfInterest|] == Persisted(db, cityId, p)
  {
    var city := GetCity(db, cityId);
    if city.Some? then
      db.(pointsOfInterest := db.pointsOfInterest + [Persisted(db, cityId, p)])
    else
      db
  }

  /** `DeletePointOfInterest` followed by the save: the row with that key is
      gone, every other row is still there, the cities are untouched. */
  function DeletePointOfInterest(db: Context, p: PointOfInterest): (r: Context)
    ensures r.cities == db.cities
    ensures forall q :: q in r.pointsOfInterest ==> q in db.pointsOfInterest && q.id != p.id
    ensures forall q :: q in db.pointsOfInterest && q.id != p.id ==> q in r.pointsOfInterest
  {
    RemoveRow(db, p.id)
  }

  // ---------------------------------------------------------------------
  // The city query

  /** Paging information reported alongside a page of cities. */
  datatype PaginationMetadata = PaginationMetadata(totalItemCount: int, pageSize: int, currentPage: int)

  datatype CityPage = CityPage(cities: seq<City>, metadata: PaginationMetadata)

  predicate SortedByName(cs: seq<City>) {
    forall i, j :: 0 <= i < j < |cs| ==> OrdinalLessOrEqual(cs[i].name, cs[j].name)
  }

  /** Inserts `c` before the first city whose name is not smaller. */
  function InsertByName(c: City, cs: seq<City>): (r: seq<City>)
    ensures |r| == |cs| + 1
    ensures multiset(r) == multiset(cs) + multiset{c}
  {
    if |cs| == 0 then
      [c]
    else if OrdinalLessOrEqual(c.name, cs[0].name) then
      [c] + cs
    else
      assert cs == [cs[0]] + cs[1..];
      [cs[0]] + InsertByName(c, cs[1..])
  }

  /** No city of `cs` has a name smaller than `n`. */
  predicate NameBelowAll(n: string, cs: seq<City>) {
    forall d :: d in cs ==> OrdinalLessOrEqual(n, d.name)
  }

  lemma ConsSorted(c: City, cs: seq<City>)
    requires SortedByName(cs) && NameBelowAll(c.name, cs)
    ensures SortedByName([c] + cs)
  {
    var r := [c] + cs;
    forall i, j | 0 <= i < j < |r| ensures OrdinalLessOrEqual(r[i].name, r[j].name) {
      assert r[j] == cs[j - 1];
      if i > 0 {
        assert r[i] == cs[i - 1];
      }
    }
  }

  lemma HeadBoundsSorted(n: string, cs: seq<City>)
    requires SortedByName(cs) && |cs| > 0 && OrdinalLessOrEqual(n, cs[0].name)
    ensures NameBelowAll(n, cs)
  {
    forall d | d in cs ensures OrdinalLessOrEqual(n, d.name) {
      var j :| 0 <= j < |cs| && cs[j] == d;
      if j > 0 {
        OrdinalTransitive(n, cs[0].name, d.name);
      }
    }
  }

  /** Inserting into a name-ordered sequence keeps it name-ordered. */
  lemma {:induction false} InsertKeepsSorted(c: City, cs: seq<City>)
    requires SortedByName(cs)
    ensures SortedByName(InsertByName(c, cs))
    decreases |cs|
  {
    if |cs| == 0 {
    } else if OrdinalLessOrEqual(c.name, cs[0].name) {
      HeadBoundsSorted(c.name, cs);
      ConsSorted(c, cs);
    } else {
      OrdinalTotal(c.name, cs[0].name);
      var tail := cs[1..];
      var rest := InsertByName(c, tail);
      assert SortedByName(tail) by {
        forall i, j | 0 <= i < j < |tail| ensures OrdinalLessOrEqual(tail[i].name, tail[j].name) {
          assert tail[i] == cs[i + 1] && tail[j] == cs[j + 1];
        }
      }
      InsertKeepsSorted(c, tail);
      forall d | d in rest ensures OrdinalLessOrEqual(cs[0].name, d.name) {
        assert d in multiset(rest);
        if d != c {
          assert d in multiset(tail);
          var j :| 0 <= j < |tail| && tail[j] == d;
          assert cs[j + 1] == d;
        }
      }
      ConsSorted(cs[0], rest);
    }
  }

  /** `OrderBy(c => c.Name)`: a name-ordered permutation of the input. */
  function OrderByName(cs: seq<City>): (r: seq<City>)
    ensures |r| == |cs|
    ensures SortedByName(r)
    ensures multiset(r) == multiset(cs)
  {
    if |cs| == 0 then
      []
    else
      assert cs == [cs[0]] + cs[1..];
      var rest := OrderByName(cs[1..]);
      InsertKeepsSorted(cs[0], rest);
      InsertByName(cs[0], rest)
  }

  /** `GetCitiesAsync()`: every city, ordered by name. */
  function GetCities(db: Context): (r: seq<City>)
    ensures SortedByName(r)
    ensures multiset(r) == multiset(db.cities)
  {
    OrderByName(db.cities)
  }

  /** The name a city must have to pass the name filter. */
  function NameIs(name: string): City -> bool {
    (c: City) => c.name == name
  }

  /** The search filter proper: the query occurs in the name or in a non-null
      description. */
  function Mentions(query: string): City -> bool {
    (c: City) => Contains(c.name, query) || (c.description.Some? && Contains(c.description.value, query))
  }

  /** The name filter: off for a null or blank name, otherwise the city's
      name must equal the trimmed name. */
  predicate MatchesName(c: City, name: Option<string>) {
    IsNullOrWhiteSpace(name) || NameIs(Trim(name.value))(c)
  }

  /** The search filter: off for a null or blank query, otherwise the trimmed
      query must occur in the name or in a non-null description. */
  predicate MatchesSearch(c: City, searchQuery: Option<string>) {
    IsNullOrWhiteSpace(searchQuery) || Mentions(Trim(searchQuery.value))(c)
  }

  /** The first optional `Where` clause: skipped for a blank name. */
  function FilterByName(cities: seq<City>, name: Option<string>): (r: seq<City>)
    ensures forall c :: c in r ==> c in cities && MatchesName(c, name)
    ensures forall c :: c in cities && MatchesName(c, name) ==> c in r
    ensures IsNullOrWhiteSpace(name) ==> r == cities
  {
    if IsNullOrWhiteSpace(name) then cities else Where(cities, NameIs(Trim(name.value)))
  }

  /** The second optional `Where` clause: skipped for a blank query. */
  function FilterBySearch(cities: seq<City>, searchQuery: Option<string>): (r: seq<City>)
    ensures forall c :: c in r ==> c in cities && MatchesSearch(c, searchQuery)
    ensures forall c :: c in cities && MatchesSearch(c, searchQuery) ==> c in r
    ensures IsNullOrWhiteSpace(searchQuery) ==> r == cities
  {
    if IsNullOrWhiteSpace(searchQuery) then cities else Where(cities, Mentions(Trim(searchQuery.value)))
  }

  /** The two optional `Where` clauses of the paged query, applied in turn. */
  function FilterCities(cities: seq<City>, name: Option<string>, searchQuery: Option<string>): (r: seq<City>)
    ensures forall c :: c in r ==> c in cities && MatchesName(c, name) && MatchesSearch(c, searchQuery)
    ensures forall c :: c in cities && MatchesName(c, name) && MatchesSearch(c, searchQuery) ==> c in r
    ensures IsNullOrWhiteSpace(name) && IsNullOrWhiteSpace(searchQuery) ==> r == cities
  {
    FilterBySearch(FilterByName(cities, name), searchQuery)
  }

  lemma FilterByNameMultiset(cities: seq<City>, name: Option<string>)
    ensures forall c ::
      multiset(FilterByName(cities, name))[c] == if MatchesName(c, name) then multiset(cities)[c] else 0
  {
    if !IsNullOrWhiteSpace(name) {
      WhereMultiset(cities, NameIs(Trim(name.value)));
    }
  }

  lemma FilterBySearchMultiset(cities: seq<City>, searchQuery: Option<string>)
    ensures forall c ::
      multiset(FilterBySearch(cities, searchQuery))[c] == if MatchesSearch(c, searchQuery) then multiset(cities)[c] else 0
  {
    if !IsNullOrWhiteSpace(searchQuery) {
      WhereMultiset(cities, Mentions(Trim(searchQuery.value)));
    }
  }

  /** Each city passing both filters is kept as often as it is stored, and
      no other city is kept; so the reported total counts exactly the
      matching rows. */
  lemma FilterCitiesMultiset(cities: seq<City>, name: Option<string>, searchQuery: Option<string>)
    ensures forall c ::
      multiset(FilterCities(cities, name, searchQuery))[c]
        == if MatchesName(c, name) && MatchesSearch(c, searchQuery) then multiset(cities)[c] else 0
  {
    FilterByNameMultiset(cities, name);
    FilterBySearchMultiset(FilterByName(cities, name), searchQuery);
  }

  /** `page` is page `pageNumber` of `collection` listed in name order: the
      cities from position `pageSize * (pageNumber - 1)` on, at most
      `pageSize` of them, none when that position is past the end. */
  predicate IsPageOf(page: seq<City>, collection: seq<City>, pageNumber: int, pageSize: int)
    requires pageNumber >= 1 && pageSize >= 0
  {
    var ordered := OrderByName(collection);
    var skip := PageStart(pageNumber, pageSize);
    && |page| == (if skip >= |ordered| then 0 else Min(pageSize, |ordered| - skip))
    && forall i :: 0 <= i < |page| ==> skip + i < |ordered| && page[i] == ordered[skip + i]
  }

  /** `OrderBy(c => c.Name).Skip(...).Take(pageSize)` over a collection. */
  function PageOf(collection: seq<City>, pageNumber: int, pageSize: int): (page: seq<City>)
    requires pageNumber >= 1 && pageSize >= 0
    ensures IsPageOf(page, collection, pageNumber, pageSize)
    ensures |page| <= pageSize
    ensures SortedByName(page)
    ensures forall c :: c in page ==> c in collection
  {
    var ordered := OrderByName(collection);
    var skip := PageStart(pageNumber, pageSize);
    WindowOfOrdered(collection, ordered, skip, pageSize);
    Window(ordered, skip, pageSize)
  }

  /** `GetCitiesAsync(name, searchQuery, pageNumber, pageSize)`: the count is
      taken over the filtered cities before paging, and the page is the
      requested page of the filtered cities in name order. */
  function GetCitiesPaged(db: Context, name: Option<string>, searchQuery: Option<string>, pageNumber: int, pageSize: int): (r: CityPage)
    requires pageNumber >= 1 && pageSize >= 0
    ensures r.metadata == PaginationMetadata(|FilterCities(db.cities, name, searchQuery)|, pageSize, pageNumber)
    ensures IsPageOf(r.cities, FilterCities(db.cities, name, searchQuery), pageNumber, pageSize)
    ensures |r.cities| <= pageSize
    ensures SortedByName(r.cities)
    ensures forall c :: c in r.cities ==> c in FilterCities(db.cities, name, searchQuery)
  {
    var collection := FilterCities(db.cities, name, searchQuery);
    CityPage(PageOf(collection, pageNumber, pageSize), PaginationMetadata(|collection|, pageSize, pageNumber))
  }

  /** A window cut from a name-ordered permutation of `collection` is itself
      name-ordered and holds only cities of `collection`. */
  lemma WindowOfOrdered(collection: seq<City>, ordered: seq<City>, skip: int, take: int)
    requires skip >= 0 && take >= 0
    requires SortedByName(ordered) && multiset(ordered) == multiset(collection)
    ensures SortedByName(Window(ordered, skip, take))
    ensures forall c :: c in Window(ordered, skip, take) ==> c in collection
  {
    var page := Window(ordered, skip, take);
    forall i, j | 0 <= i < j < |page| ensures OrdinalLessOrEqual(page[i].name, page[j].name) {
      assert page[i] == ordered[skip + i] && page[j] == ordered[skip + j];
    }
    forall c | c in page ensures c in collection {
      assert c in multiset(ordered);
    }
  }

  /** The page number on which the item at position `i` falls. */
  function PageOfIndex(i: int, pageSize: int): (pageNumber: int)
    requires i >= 0 && pageSize > 0
    ensures pageNumber >= 1
  {
    i / pageSize + 1
  }

  /** With a positive page size the i-th item of the name-ordered collection
      is on page i / pageSize + 1, at position i mod pageSize. */
  lemma EveryItemIsOnItsPage(collection: seq<City>, pageSize: int, i: int)
    requires pageSize > 0 && 0 <= i < |collection|
    ensures var page := PageOf(collection, PageOfIndex(i, pageSize), pageSize);
      && i % pageSize < |page|
      && page[i % pageSize] == OrderByName(collection)[i]
  {
    PageStartOfIndex(i, pageSize);
  }

  /** With a positive page size every matching city appears on exactly the
      page its position in name order falls on. */
  lemma EveryMatchIsOnItsPage(db: Context, name: Option<string>, searchQuery: Option<string>, pageSize: int, i: int)
    requires pageSize > 0
    requires 0 <= i < |FilterCities(db.cities, name, searchQuery)|
    ensures var page := GetCitiesPaged(db, name, searchQuery, PageOfIndex(i, pageSize), pageSize).cities;
      && i % pageSize < |page|
      && page[i % pageSize] == OrderByName(FilterCities(db.cities, name, searchQuery))[i]
  {
    EveryItemIsOnItsPage(FilterCities(db.cities, name, searchQuery), pageSize, i);
  }

  lemma PageStartOfIndex(i: int, pageSize: int)
    requires pageSize > 0 && i >= 0
    ensures PageStart(PageOfIndex(i, pageSize), pageSize) + i % pageSize == i
    ensures i % pageSize < pageSize
  {
  }

  /** Without filters the count is the number of cities, and the first page
      of a page size covering every city is the unpaged query's result. */
  lemma UnfilteredQueryIsEveryCity(db: Context, name: Option<string>, searchQuery: Option<string>, pageNumber: int, pageSize: int)
    requires IsNullOrWhiteSpace(name) && IsNullOrWhiteSpace(searchQuery)
    requires pageNumber >= 1 && pageSize >= 0
    ensures GetCitiesPaged(db, name, searchQuery, pageNumber, pageSize).metadata.totalItemCount == |db.cities|
    ensures pageNumber == 1 && pageSize >= |db.cities| ==>
      GetCitiesPaged(db, name, searchQuery, pageNumber, pageSize).cities == GetCities(db)
  {
    assert FilterCities(db.cities, name, searchQuery) == db.cities;
    if pageNumber == 1 && pageSize >= |db.cities| {
      FirstPageOfWholeTable(db, name, searchQuery, pageSize);
    }
  }

  lemma FirstPageOfWholeTable(db: Context, name: Option<string>, searchQuery: Option<string>, pageSize: int)
    requires FilterCities(db.cities, name, searchQuery) == db.cities
    requires pageSize >= |db.cities|
    ensures GetCitiesPaged(db, name, searchQuery, 1, pageSize).cities == GetCities(db)
  {
    var r := GetCitiesPaged(db, name, searchQuery, 1, pageSize);
    var ordered := OrderByName(db.cities);
    assert |ordered| == |db.cities| by {
      assert |multiset(ordered)| == |multiset(db.cities)|;
    }
    assert PageStart(1, pageSize) == 0;
    assert |r.cities| == |ordered|;
  }
}
