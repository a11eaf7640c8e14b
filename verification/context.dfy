/**
 * The database as the repository sees it: a table of cities and a table of
 * points of interest, each the sequence of its rows, plus the effects of
 * saving an added, modified or removed point of interest.
 */
module CityInfoContext {
  import opened Sequences
  import opened Entities

  datatype Context = Context(cities: seq<City>, pointsOfInterest: seq<PointOfInterest>)

  predicate UniqueCityIds(cs: seq<City>) {
    forall i, j :: 0 <= i < j < |cs| ==> cs[i].id != cs[j].id
  }

  predicate UniquePointOfInterestIds(ps: seq<PointOfInterest>) {
    forall i, j :: 0 <= i < j < |ps| ==> ps[i].id != ps[j].id
  }

  predicate HasCity(db: Context, cityId: int) {
    exists c :: c in db.cities && c.id == cityId
  }

  /** The invariant of every saved state: primary keys are unique and every
      point of interest names an existing city (both enforced by the
      schema), and every row satisfies its entity's field constraints. The
      database does not check those length and blank-name constraints; they
      hold because every write validates its body first, which
      `HandlePreservesValid` establishes. */
  predicate Valid(db: Context) {
    && UniqueCityIds(db.cities)
    && UniquePointOfInterestIds(db.pointsOfInterest)
    && (forall c :: c in db.cities ==> c.Valid())
    && (forall p :: p in db.pointsOfInterest ==> p.Valid())
    && (forall p :: p in db.pointsOfInterest ==> HasCity(db, p.cityId))
  }

  function HasCityId(cityId: int): City -> bool {
    (c: City) => c.id == cityId
  }

  function BelongsTo(cityId: int): PointOfInterest -> bool {
    (p: PointOfInterest) => p.cityId == cityId
  }

  function KeyIsNot(id: int): PointOfInterest -> bool {
    (p: PointOfInterest) => p.id != id
  }

  /** The navigation collection `City.PointOfInterest` of city `cityId`. */
  function PointsOfInterestOf(db: Context, cityId: int): (r: seq<PointOfInterest>)
    ensures forall p :: p in r ==> p in db.pointsOfInterest && p.cityId == cityId
    ensures forall p :: p in db.pointsOfInterest && p.cityId == cityId ==> p in r
  {
    Where(db.pointsOfInterest, BelongsTo(cityId))
  }

  /** Each point of interest of the city appears in its collection exactly as
      often as in the table, and no other row appears. */
  lemma PointsOfInterestOfMultiset(db: Context, cityId: int)
    ensures forall p ::
      multiset(PointsOfInterestOf(db, cityId))[p] == if p.cityId == cityId then multiset(db.pointsOfInterest)[p] else 0
  {
    WhereMultiset(db.pointsOfInterest, BelongsTo(cityId));
  }

  function MaxCityId(cs: seq<City>): (m: int)
    ensures m >= 0
    ensures forall c :: c in cs ==> c.id <= m
  {
    if |cs| == 0 then 0
    else var m := MaxCityId(cs[1..]); if cs[0].id > m then cs[0].id else m
  }

  function MaxPointOfInterestId(ps: seq<PointOfInterest>): (m: int)
    ensures m >= 0
    ensures forall p :: p in ps ==> p.id <= m
  {
    if |ps| == 0 then 0
    else var m := MaxPointOfInterestId(ps[1..]); if ps[0].id > m then ps[0].id else m
  }

  /** The key the database generates for the next city row: one no row uses. */
  function NextCityId(db: Context): (id: int)
    ensures id > 0
    ensures forall c :: c in db.cities ==> c.id < id
  {
    MaxCityId(db.cities) + 1
  }

  /** The key the database generates for the next point-of-interest row. */
  function NextPointOfInterestId(db: Context): (id: int)
    ensures id > 0
    ensures forall p :: p in db.pointsOfInterest ==> p.id < id
  {
    MaxPointOfInterestId(db.pointsOfInterest) + 1
  }

  /** A city saved under a freshly generated key owns no point of interest
      in a valid database: a new city's collection starts empty. */
  lemma NewCityOwnsNothing(db: Context, name: string)
    requires Valid(db)
    ensures PointsOfInterestOf(db, NewCity(name).(id := NextCityId(db)).id) == []
  {
    forall p | p in db.pointsOfInterest ensures p.cityId != NextCityId(db) {
      assert HasCity(db, p.cityId);
    }
  }

  /** The row a point of interest added to city `cityId`'s collection becomes
      on save: the foreign key is fixed up and a fresh key is generated. */
  function Persisted(db: Context, cityId: int, p: PointOfInterest): (stored: PointOfInterest)
    ensures stored.name == p.name && stored.description == p.description
    ensures stored.cityId == cityId
    ensures forall q :: q in db.pointsOfInterest ==> q.id != stored.id
  {
    p.(id := NextPointOfInterestId(db), cityId := cityId)
  }

  /** `after` is `before` with exactly the row keyed `p.id` overwritten by `p`:
      same cities, same rows in the same places otherwise. */
  predicate Overwritten(before: Context, after: Context, p: PointOfInterest) {
    && after.cities == before.cities
    && |after.pointsOfInterest| == |before.pointsOfInterest|
    && forall i :: 0 <= i < |before.pointsOfInterest| ==>
      after.pointsOfInterest[i] == if before.pointsOfInterest[i].id == p.id then p else before.pointsOfInterest[i]
  }

  /** Saving a modified point of interest: the row with its key is
      overwritten, every other row keeps its place and value. */
  function WriteBack(db: Context, p: PointOfInterest): (r: Context)
    ensures Overwritten(db, r, p)
  {
    db.(pointsOfInterest := MapSeq(db.pointsOfInterest, (q: PointOfInterest) => if q.id == p.id then p else q))
  }

  /** Saving a removed point of interest deletes the row with its key. */
  function RemoveRow(db: Context, id: int): (r: Context)
    ensures r.cities == db.cities
    ensures forall q :: q in r.pointsOfInterest ==> q in db.pointsOfInterest && q.id != id
    ensures forall q :: q in db.pointsOfInterest && q.id != id ==> q in r.pointsOfInterest
  {
    db.(pointsOfInterest := Where(db.pointsOfInterest, KeyIsNot(id)))
  }

  /** Filtering a table with unique keys leaves its keys unique. */
  lemma {:induction false} WhereKeepsKeysUnique(ps: seq<PointOfInterest>, keep: PointOfInterest -> bool)
    requires UniquePointOfInterestIds(ps)
    ensures UniquePointOfInterestIds(Where(ps, keep))
    decreases |ps|
  {
    if |ps| > 0 {
      var tail := Where(ps[1..], keep);
      WhereKeepsKeysUnique(ps[1..], keep);
      if keep(ps[0]) {
        forall j | 0 <= j < |tail| ensures ps[0].id != tail[j].id {
          assert tail[j] in ps[1..];
        }
      }
    }
  }

  /** Deleting by an existing key removes exactly one row. */
  lemma {:induction false} RemoveRowCount(ps: seq<PointOfInterest>, id: int)
    requires UniquePointOfInterestIds(ps)
    requires exists q :: q in ps && q.id == id
    ensures |Where(ps, KeyIsNot(id))| == |ps| - 1
    decreases |ps|
  {
    if ps[0].id == id {
      forall q | q in ps[1..] ensures KeyIsNot(id)(q) {
        var j :| 0 <= j < |ps[1..]| && ps[1..][j] == q;
        assert ps[j + 1] == q;
      }
      WhereKeepsAll(ps[1..], KeyIsNot(id));
    } else {
      var q :| q in ps && q.id == id;
      assert q in ps[1..];
      RemoveRowCount(ps[1..], id);
    }
  }

  /** Appending a valid row for an existing city under a fresh key keeps the
      database valid. */
  lemma InsertPreservesValid(db: Context, cityId: int, p: PointOfInterest)
    requires Valid(db) && HasCity(db, cityId) && p.Valid()
    ensures Valid(db.(pointsOfInterest := db.pointsOfInterest + [Persisted(db, cityId, p)]))
  {
    var stored := Persisted(db, cityId, p);
    var ps := db.pointsOfInterest + [stored];
    forall i, j | 0 <= i < j < |ps| ensures ps[i].id != ps[j].id {
      if j == |ps| - 1 {
        assert ps[i] in db.pointsOfInterest;
      }
    }
  }

  /** Overwriting a row with a valid value that keeps its foreign key keeps
      the database valid. */
  lemma WriteBackPreservesValid(db: Context, p: PointOfInterest)
    requires Valid(db) && p.Valid() && HasCity(db, p.cityId)
    ensures Valid(WriteBack(db, p))
  {
    var r := WriteBack(db, p);
    forall q | q in r.pointsOfInterest ensures q.Valid() && HasCity(r, q.cityId) {
      var i :| 0 <= i < |r.pointsOfInterest| && r.pointsOfInterest[i] == q;
      assert db.pointsOfInterest[i] in db.pointsOfInterest;
    }
  }

  /** Deleting a row keeps the database valid. */
  lemma RemovePreservesValid(db: Context, id: int)
    requires Valid(db)
    ensures Valid(RemoveRow(db, id))
  {
    WhereKeepsKeysUnique(db.pointsOfInterest, KeyIsNot(id));
  }
}
