/**
 * The points-of-interest endpoints as functions from (database, caller,
 * request) to (HTTP outcome, database after the request). Each action is an
 * ordered series of guards followed by at most one saved mutation; a request
 * that fails a guard leaves the database as it was.
 */
module PointsOfInterestController {
  import opened Wrappers
  import opened Sequences
  import opened Entities
  import opened Models
  import opened CityInfoContext
  import opened CityInfoRepository

  // ---------------------------------------------------------------------
  // The caller

  datatype Claim = Claim(claimType: string, value: string)

  /** The authenticated principal of the request, as read from its bearer token. */
  datatype User = User(isAuthenticated: bool, claims: seq<Claim>)

  const CityClaimType: string := "city"

  /** The only city the controller's authorization policy admits. */
  const PolicyCity: string := "Antwerp"

  /** The "MustBeFromAntwerp" policy guarding every action of the controller:
      an authenticated user holding the claim city = "Antwerp". */
  predicate MustBeFromAntwerp(user: User) {
    user.isAuthenticated && Claim(CityClaimType, PolicyCity) in user.claims
  }

  const IsCityClaim: Claim -> bool := (c: Claim) => c.claimType == CityClaimType

  /** `User.Claims.FirstOrDefault(c => c.Type == "city")?.Value`: the value of
      the caller's first "city" claim, or null when there is none. */
  function CityClaim(user: User): (r: Option<string>)
    ensures r.None? <==> forall c :: c in user.claims ==> c.claimType != CityClaimType
    ensures r.Some? ==> exists i :: 0 <= i < |user.claims| && user.claims[i] == Claim(CityClaimType, r.value) && forall j :: 0 <= j < i ==> user.claims[j].claimType != CityClaimType
  {
    var hits := Where(user.claims, IsCityClaim);
    match FirstOrNone(hits)
    case None => None
    case Some(c) =>
      WhereFirst(user.claims, IsCityClaim);
      Some(c.value)
  }

  /** A caller admitted by the policy always has a "city" claim, so the
      ownership check of the list action never sees a null name. */
  lemma PolicyImpliesCityClaim(user: User)
    requires MustBeFromAntwerp(user)
    ensures CityClaim(user).Some?
  {
  }

  // ---------------------------------------------------------------------
  // Outcomes and requests

  datatype ActionResult =
    | Ok(pointsOfInterest: seq<PointOfInterestDto>)
    | OkSingle(pointOfInterest: PointOfInterestDto)
    | CreatedAtRoute(routeCityId: int, routePointOfInterestId: int, created: PointOfInterestDto)
    | NoContent
    | BadRequest
    | Unauthorized
    | Forbidden
    | NotFound
  {
    function StatusCode(): int {
      match this
      case Ok(_) => 200
      case OkSingle(_) => 200
      case CreatedAtRoute(_, _, _) => 201
      case NoContent => 204
      case BadRequest => 400
      case Unauthorized => 401
      case Forbidden => 403
      case NotFound => 404
    }
  }

  /** The outcome of a request and the database once it has been handled. */
  datatype Response = Response(result: ActionResult, db: Context)

  /** A JSON Patch document, by its effect on the object it is applied to:
      the patched object, or `None` when applying it reports an error. */
  type JsonPatch = PointOfInterestForUpdateDto -> Option<PointOfInterestForUpdateDto>

  datatype Request =
    | GetAll(cityId: int)
    | GetOne(cityId: int, pointOfInterestId: int)
    | Post(cityId: int, creation: PointOfInterestForCreationDto)
    | Put(cityId: int, pointOfInterestId: int, update: PointOfInterestForUpdateDto)
    | Patch(cityId: int, pointOfInterestId: int, patch: JsonPatch)
    | Delete(cityId: int, pointOfInterestId: int)

  /** No point of interest with key `pointOfInterestId` belongs to city `cityId`. */
  predicate NoSuchPointOfInterest(db: Context, cityId: int, pointOfInterestId: int) {
    forall p :: p in db.pointsOfInterest ==> !(p.cityId == cityId && p.id == pointOfInterestId)
  }

  // ---------------------------------------------------------------------
  // The actions

  /** GET cities/{cityId}/pointsofinterest. The ownership check comes first and
      already fails for an unknown city, so the 404 branch after it is never
      taken; on success the body describes exactly the city's points of
      interest. */
  function GetPointsOfInterest(db: Context, user: User, cityId: int): (r: Response)
    ensures r.db == db
    ensures r.result.Forbidden? <==>
      || CityClaim(user).None?
      || !exists c :: c in db.cities && c.id == cityId && c.name == CityClaim(user).value
    ensures r.result.Forbidden? || r.result.Ok?
    ensures r.result.Ok? ==>
      && (forall d :: d in r.result.pointsOfInterest ==>
            exists p :: p in db.pointsOfInterest && p.cityId == cityId && d == ToDto(p))
      && (forall p :: p in db.pointsOfInterest && p.cityId == cityId ==> ToDto(p) in r.result.pointsOfInterest)
    ensures r.result.Ok? ==>
      var owned := PointsOfInterestOf(db, cityId);
      && |r.result.pointsOfInterest| == |owned|
      && forall i :: 0 <= i < |owned| ==> r.result.pointsOfInterest[i] == ToDto(owned[i])
  {
    if !CityNameMatchesCityId(db, CityClaim(user), cityId) then
      Response(Forbidden, db)
    else if !CityExists(db, cityId) then
      Response(NotFound, db)
    else
      var found := GetPointsOfInterestForCity(db, cityId);
      var dtos := MapSeq(found, ToDto);
      MapSeqMembership(found, ToDto);
      Response(Ok(dtos), db)
  }

  /** GET cities/{cityId}/pointsofinterest/{pointOfInterestId}: 404 for an
      unknown city or when no point of interest with that key belongs to it,
      otherwise 200 with that point of interest. Nothing changes. */
  function GetPointOfInterest(db: Context, cityId: int, pointOfInterestId: int): (r: Response)
    ensures r.db == db
    ensures r.result.NotFound? || r.result.OkSingle?
    ensures r.result.NotFound? <==> !HasCity(db, cityId) || NoSuchPointOfInterest(db, cityId, pointOfInterestId)
    ensures r.result.OkSingle? ==>
      exists p :: p in db.pointsOfInterest && p.cityId == cityId && p.id == pointOfInterestId
        && r.result.pointOfInterest == ToDto(p)
  {
    if !CityExists(db, cityId) then
      Response(NotFound, db)
    else
      var found := GetPointOfInterestForCity(db, cityId, pointOfInterestId);
      if found.None? then
        Response(NotFound, db)
      else
        Response(OkSingle(ToDto(found.value)), db)
  }

  /** POST cities/{cityId}/pointsofinterest. An invalid body is answered with
      400 before the action runs, an unknown city with 404; neither changes
      anything. Otherwise exactly one row is appended, owned by the city,
      carrying the body's name and description under a key no row had, and
      the answer is 201 naming that key. */
  function CreatePointOfInterest(db: Context, cityId: int, body: PointOfInterestForCreationDto): (r: Response)
    ensures r.result.BadRequest? <==> !body.IsValid()
    ensures r.result.NotFound? <==> body.IsValid() && !HasCity(db, cityId)
    ensures r.result.BadRequest? || r.result.NotFound? || r.result.CreatedAtRoute?
    ensures !r.result.CreatedAtRoute? ==> r.db == db
    ensures r.result.CreatedAtRoute? ==>
      var n := |db.pointsOfInterest|;
      && r.db.cities == db.cities
      && |r.db.pointsOfInterest| == n + 1
      && r.db.pointsOfInterest[..n] == db.pointsOfInterest
      && var created := r.db.pointsOfInterest[n];
        && created.cityId == cityId
        && Some(created.name) == body.name
        && created.description == body.description
        && (forall q :: q in db.pointsOfInterest ==> q.id != created.id)
        && r.result == CreatedAtRoute(cityId, created.id, ToDto(created))
  {
    if !body.IsValid() then
      Response(BadRequest, db)
    else if !CityExists(db, cityId) then
      Response(NotFound, db)
    else
      var entity := FromCreationDto(body);
      var after := AddPointOfInterestForCity(db, cityId, entity);
      var created := Persisted(db, cityId, entity);
      Response(CreatedAtRoute(cityId, created.id, ToDto(created)), after)
  }

  /** PUT cities/{cityId}/pointsofinterest/{pointOfInterestId}. An invalid body
      gets 400, an unknown city or point of interest 404, and neither changes
      anything. Otherwise the target row takes the body's name and
      description, keeps its keys, every other row and every city stay as
      they were, and the answer is 204. */
  function UpdatePointOfInterest(db: Context, cityId: int, pointOfInterestId: int, body: PointOfInterestForUpdateDto): (r: Response)
    ensures r.result.BadRequest? <==> !body.IsValid()
    ensures r.result.NotFound? <==>
      body.IsValid() && (!HasCity(db, cityId) || NoSuchPointOfInterest(db, cityId, pointOfInterestId))
    ensures r.result.BadRequest? || r.result.NotFound? || r.result.NoContent?
    ensures !r.result.NoContent? ==> r.db == db
    ensures r.result.NoContent? ==>
      exists target :: target in db.pointsOfInterest && target.cityId == cityId && target.id == pointOfInterestId
        && Overwritten(db, r.db, target.(name := body.name.value, description := body.description))
  {
    if !body.IsValid() then
      Response(BadRequest, db)
    else if !CityExists(db, cityId) then
      Response(NotFound, db)
    else
      var entity := GetPointOfInterestForCity(db, cityId, pointOfInterestId);
      if entity.None? then
        Response(NotFound, db)
      else
        var updated := ApplyUpdate(body, entity.value);
        Response(NoContent, WriteBack(db, updated))
  }

  /** PATCH cities/{cityId}/pointsofinterest/{pointOfInterestId}. After the
      404 checks, the patch is applied to a copy of the stored row; if it
      reports an error or its result fails validation the answer is 400 and
      nothing is written. Otherwise the row takes the patched name and
      description and the answer is 204. */
  function PartiallyUpdatePointOfInterest(db: Context, cityId: int, pointOfInterestId: int, patch: JsonPatch): (r: Response)
    ensures r.result.NotFound? <==> !HasCity(db, cityId) || NoSuchPointOfInterest(db, cityId, pointOfInterestId)
    ensures r.result.NotFound? || r.result.BadRequest? || r.result.NoContent?
    ensures !r.result.NoContent? ==> r.db == db
    ensures !r.result.NotFound? ==>
      exists target :: target in db.pointsOfInterest && target.cityId == cityId && target.id == pointOfInterestId
        && var patched := patch(ToUpdateDto(target));
        && (r.result.BadRequest? <==> patched.None? || !patched.value.IsValid())
        && (r.result.NoContent? ==>
              Overwritten(db, r.db, target.(name := patched.value.name.value, description := patched.value.description)))
  {
    if !CityExists(db, cityId) then
      Response(NotFound, db)
    else
      var entity := GetPointOfInterestForCity(db, cityId, pointOfInterestId);
      if entity.None? then
        Response(NotFound, db)
      else
        var toPatch := ToUpdateDto(entity.value);
        var patched := patch(toPatch);
        if patched.None? then
          Response(BadRequest, db)
        else if !patched.value.IsValid() then
          Response(BadRequest, db)
        else
          Response(NoContent, WriteBack(db, ApplyUpdate(patched.value, entity.value)))
  }

  /** DELETE cities/{cityId}/pointsofinterest/{pointOfInterestId}: 404 (and no
      change) for an unknown city or point of interest; otherwise the row with
      that key is deleted, every city and every other row remain, and the
      answer is 204. */
  function DeletePointOfInterest(db: Context, cityId: int, pointOfInterestId: int): (r: Response)
    ensures r.result.NotFound? <==> !HasCity(db, cityId) || NoSuchPointOfInterest(db, cityId, pointOfInterestId)
    ensures r.result.NotFound? || r.result.NoContent?
    ensures r.result.NotFound? ==> r.db == db
    ensures r.result.NoContent? ==>
      && r.db.cities == db.cities
      && (forall q :: q in r.db.pointsOfInterest ==> q in db.pointsOfInterest && q.id != pointOfInterestId)
      && (forall q :: q in db.pointsOfInterest && q.id != pointOfInterestId ==> q in r.db.pointsOfInterest)
  {
    if !CityExists(db, cityId) then
      Response(NotFound, db)
    else
      var entity := GetPointOfInterestForCity(db, cityId, pointOfInterestId);
      if entity.None? then
        Response(NotFound, db)
      else
        Response(NoContent, CityInfoRepository.DeletePointOfInterest(db, entity.value))
  }

  /** A request as the pipeline handles it: authentication (401), then the
      controller's authorization policy (403), then the action. */
  function Handle(db: Context, user: User, request: Request): (r: Response)
    ensures !user.isAuthenticated ==> r == Response(Unauthorized, db)
    ensures user.isAuthenticated && !MustBeFromAntwerp(user) ==> r == Response(Forbidden, db)
    ensures r.result.Unauthorized? ==> !user.isAuthenticated
    ensures MustBeFromAntwerp(user) ==> r == match request
      case GetAll(cityId) => GetPointsOfInterest(db, user, cityId)
      case GetOne(cityId, id) => GetPointOfInterest(db, cityId, id)
      case Post(cityId, body) => CreatePointOfInterest(db, cityId, body)
      case Put(cityId, id, body) => UpdatePointOfInterest(db, cityId, id, body)
      case Patch(cityId, id, patch) => PartiallyUpdatePointOfInterest(db, cityId, id, patch)
      case Delete(cityId, id) => DeletePointOfInterest(db, cityId, id)
  {
    if !user.isAuthenticated then
      Response(Unauthorized, db)
    else if !MustBeFromAntwerp(user) then
      Response(Forbidden, db)
    else
      match request
      case GetAll(cityId) => GetPointsOfInterest(db, user, cityId)
      case GetOne(cityId, id) => GetPointOfInterest(db, cityId, id)
      case Post(cityId, body) => CreatePointOfInterest(db, cityId, body)
      case Put(cityId, id, body) => UpdatePointOfInterest(db, cityId, id, body)
      case Patch(cityId, id, patch) => PartiallyUpdatePointOfInterest(db, cityId, id, patch)
      case Delete(cityId, id) => DeletePointOfInterest(db, cityId, id)
  }

  // ---------------------------------------------------------------------
  // Properties relating the actions

  /** In a valid database every point of interest names an existing city, so
      the city check in front of each lookup never decides the outcome on its
      own: those actions answer 404 exactly when no point of interest with
      that key belongs to the city. */
  lemma CityCheckIsSubsumed(db: Context, cityId: int, pointOfInterestId: int)
    requires Valid(db)
    ensures (!HasCity(db, cityId) || NoSuchPointOfInterest(db, cityId, pointOfInterestId))
      <==> NoSuchPointOfInterest(db, cityId, pointOfInterestId)
  {
    if !HasCity(db, cityId) {
      forall p | p in db.pointsOfInterest ensures !(p.cityId == cityId && p.id == pointOfInterestId) {
        assert HasCity(db, p.cityId);
      }
    }
  }

  /** A point of interest answered with 201 can be read back at the route the
      answer names, and reads as the body of that answer. */
  lemma CreatedPointOfInterestCanBeRead(db: Context, cityId: int, body: PointOfInterestForCreationDto)
    requires CreatePointOfInterest(db, cityId, body).result.CreatedAtRoute?
    ensures var r := CreatePointOfInterest(db, cityId, body);
      GetPointOfInterest(r.db, r.result.routeCityId, r.result.routePointOfInterestId)
        == Response(OkSingle(r.result.created), r.db)
  {
    var r := CreatePointOfInterest(db, cityId, body);
    var n := |db.pointsOfInterest|;
    var created := r.db.pointsOfInterest[n];
    var matches := IsPointOfInterest(cityId, created.id);
    assert r.db.pointsOfInterest == db.pointsOfInterest + [created];
    WhereAppend(db.pointsOfInterest, [created], matches);
    assert Where(db.pointsOfInterest, matches) == [];
    assert Where([created], matches) == [created];
    assert HasCity(r.db, cityId);
  }

  /** After a 204 answer to PUT, reading the point of interest returns the
      body's name and description under the same key. */
  lemma UpdatedPointOfInterestReadsBack(db: Context, cityId: int, pointOfInterestId: int, body: PointOfInterestForUpdateDto)
    requires Valid(db)
    requires UpdatePointOfInterest(db, cityId, pointOfInterestId, body).result.NoContent?
    ensures var r := UpdatePointOfInterest(db, cityId, pointOfInterestId, body);
      GetPointOfInterest(r.db, cityId, pointOfInterestId).result
        == OkSingle(PointOfInterestDto(pointOfInterestId, body.name.value, body.description))
  {
    var found := GetPointOfInterestForCity(db, cityId, pointOfInterestId);
    assert found.Some?;
    var target := found.value;
    var updated := ApplyUpdate(body, target);
    var after := WriteBack(db, updated);
    assert UpdatePointOfInterest(db, cityId, pointOfInterestId, body).db == after;
    assert HasCity(db, updated.cityId);
    WriteBackPreservesValid(db, updated);
    WrittenBackRowIsPresent(db, target, updated);
    GetPointOfInterestFindsTheRow(after, cityId, updated);
    assert CityExists(after, cityId);
  }

  /** A row overwritten by a value with the same key is present afterwards. */
  lemma WrittenBackRowIsPresent(db: Context, target: PointOfInterest, updated: PointOfInterest)
    requires target in db.pointsOfInterest && updated.id == target.id
    ensures updated in WriteBack(db, updated).pointsOfInterest
  {
    var i :| 0 <= i < |db.pointsOfInterest| && db.pointsOfInterest[i] == target;
    assert WriteBack(db, updated).pointsOfInterest[i] == updated;
  }

  /** After a 204 answer to DELETE in a valid database, exactly one row is
      gone, and reading that point of interest answers 404. */
  lemma DeleteRemovesExactlyOne(db: Context, cityId: int, pointOfInterestId: int)
    requires Valid(db)
    requires DeletePointOfInterest(db, cityId, pointOfInterestId).result.NoContent?
    ensures var r := DeletePointOfInterest(db, cityId, pointOfInterestId);
      && |r.db.pointsOfInterest| == |db.pointsOfInterest| - 1
      && GetPointOfInterest(r.db, cityId, pointOfInterestId).result.NotFound?
  {
    RemoveRowCount(db.pointsOfInterest, pointOfInterestId);
  }

  /** The patch never changes the name of the object it is applied to. */
  ghost predicate KeepsName(patch: JsonPatch) {
    forall d :: patch(d).Some? ==> patch(d).value.name == d.name
  }

  /** The patch never changes the description of the object it is applied to. */
  ghost predicate KeepsDescription(patch: JsonPatch) {
    forall d :: patch(d).Some? ==> patch(d).value.description == d.description
  }

  /** The object a patch is applied to starts as a copy of the stored row, so
      a field the patch leaves alone keeps its stored value: a successful
      PATCH whose document never changes the description writes back only the
      patched name, and one that never changes the name writes back only the
      patched description. */
  lemma PatchKeepsUntouchedFields(db: Context, cityId: int, pointOfInterestId: int, patch: JsonPatch)
    requires PartiallyUpdatePointOfInterest(db, cityId, pointOfInterestId, patch).result.NoContent?
    ensures var r := PartiallyUpdatePointOfInterest(db, cityId, pointOfInterestId, patch);
      var target := GetPointOfInterestForCity(db, cityId, pointOfInterestId).value;
      var patched := patch(ToUpdateDto(target)).value;
      && (KeepsDescription(patch) ==> Overwritten(db, r.db, target.(name := patched.name.value)))
      && (KeepsName(patch) ==> Overwritten(db, r.db, target.(description := patched.description)))
  {
    var target := GetPointOfInterestForCity(db, cityId, pointOfInterestId).value;
    var toPatch := ToUpdateDto(target);
    assert patch(toPatch).Some?;
  }

  /** In a valid database, a patch that changes neither field (an empty
      document, say) leaves the database exactly as it was. */
  lemma NeutralPatchChangesNothing(db: Context, cityId: int, pointOfInterestId: int, patch: JsonPatch)
    requires Valid(db)
    requires KeepsName(patch) && KeepsDescription(patch)
    ensures PartiallyUpdatePointOfInterest(db, cityId, pointOfInterestId, patch).db == db
  {
    var r := PartiallyUpdatePointOfInterest(db, cityId, pointOfInterestId, patch);
    if r.result.NoContent? {
      var target := GetPointOfInterestForCity(db, cityId, pointOfInterestId).value;
      assert patch(ToUpdateDto(target)).Some?;
      var i :| 0 <= i < |db.pointsOfInterest| && db.pointsOfInterest[i] == target;
      assert forall j :: 0 <= j < |db.pointsOfInterest| && db.pointsOfInterest[j].id == target.id ==> j == i;
      assert r.db.pointsOfInterest == db.pointsOfInterest;
    }
  }

  lemma CreatePreservesValid(db: Context, cityId: int, body: PointOfInterestForCreationDto)
    requires Valid(db)
    ensures Valid(CreatePointOfInterest(db, cityId, body).db)
  {
    if body.IsValid() && HasCity(db, cityId) {
      var entity := FromCreationDto(body);
      assert CreatePointOfInterest(db, cityId, body).db == AddPointOfInterestForCity(db, cityId, entity);
      InsertPreservesValid(db, cityId, entity);
    }
  }

  lemma UpdatePreservesValid(db: Context, cityId: int, pointOfInterestId: int, body: PointOfInterestForUpdateDto)
    requires Valid(db)
    ensures Valid(UpdatePointOfInterest(db, cityId, pointOfInterestId, body).db)
  {
    var entity := GetPointOfInterestForCity(db, cityId, pointOfInterestId);
    if body.IsValid() && HasCity(db, cityId) && entity.Some? {
      var updated := ApplyUpdate(body, entity.value);
      assert UpdatePointOfInterest(db, cityId, pointOfInterestId, body).db == WriteBack(db, updated);
      assert HasCity(db, updated.cityId);
      WriteBackPreservesValid(db, updated);
    }
  }

  lemma PatchPreservesValid(db: Context, cityId: int, pointOfInterestId: int, patch: JsonPatch)
    requires Valid(db)
    ensures Valid(PartiallyUpdatePointOfInterest(db, cityId, pointOfInterestId, patch).db)
  {
    var entity := GetPointOfInterestForCity(db, cityId, pointOfInterestId);
    if HasCity(db, cityId) && entity.Some? {
      var patched := patch(ToUpdateDto(entity.value));
      if patched.Some? && patched.value.IsValid() {
        var updated := ApplyUpdate(patched.value, entity.value);
        assert PartiallyUpdatePointOfInterest(db, cityId, pointOfInterestId, patch).db == WriteBack(db, updated);
        assert HasCity(db, updated.cityId);
        WriteBackPreservesValid(db, updated);
      }
    }
  }

  lemma DeletePreservesValid(db: Context, cityId: int, pointOfInterestId: int)
    requires Valid(db)
    ensures Valid(DeletePointOfInterest(db, cityId, pointOfInterestId).db)
  {
    var entity := GetPointOfInterestForCity(db, cityId, pointOfInterestId);
    if HasCity(db, cityId) && entity.Some? {
      assert DeletePointOfInterest(db, cityId, pointOfInterestId).db == RemoveRow(db, entity.value.id);
      RemovePreservesValid(db, entity.value.id);
    }
  }

  /** Every request, whatever its outcome, leaves a valid database valid. */
  lemma HandlePreservesValid(db: Context, user: User, request: Request)
    requires Valid(db)
    ensures Valid(Handle(db, user, request).db)
  {
    if user.isAuthenticated && MustBeFromAntwerp(user) {
      match request
      case GetAll(_) =>
      case GetOne(_, _) =>
      case Post(cityId, body) => CreatePreservesValid(db, cityId, body);
      case Put(cityId, id, body) => UpdatePreservesValid(db, cityId, id, body);
      case Patch(cityId, id, patch) => PatchPreservesValid(db, cityId, id, patch);
      case Delete(cityId, id) => DeletePreservesValid(db, cityId, id);
    }
  }
}
