# City info store — a Dafny model

This project models the core of a small REST service that stores cities and
their points of interest: the repository over the database, the
points-of-interest controller that sits on top of it, the two entities and
their field constraints, and the two request objects the controller accepts.
Everything is pure: the database is an immutable value with one table of
cities and one table of points of interest, each held as the sequence of its
rows, and every request is a function from (database, caller, request) to
(HTTP outcome, database after the request).

- `wrappers.dfy` — `Option`, standing for the source's nullable references.
- `text.dfy` — `char.IsWhiteSpace`, `string.IsNullOrWhiteSpace`, `Trim`,
  ordinal `Contains` and the code-point order used for `ORDER BY Name`.
- `sequences.dfy` — the query operators the repository composes (`Where`,
  `FirstOrDefault`, `Any`, `Skip`, `Take`, element-wise mapping).
- `annotations.dfy` — `[Required]` and `[MaxLength]` and the bounds 50 / 200.
- `entities.dfy` — `City`, `PointOfInterest`, their constructors and validity.
- `models.dfy` — the creation, update and read transfer objects and the
  same-named-member copies between them and the entity.
- `context.dfy` — the database, its invariant `Valid` (unique keys, valid
  rows, every point of interest owned by an existing city), key generation,
  and what saving an added, modified or removed row does.
- `repository.dfy` — the repository operations, including the filtered,
  name-ordered and paged city query.
- `controller.dfy` — the authorization gate, the six actions, and lemmas
  relating them (create-then-read, update-then-read, delete, patch frame,
  invariant preservation).

Guard order. The controller carries `[ApiController]`, so a request body that
fails its annotations is answered with 400 before POST or PUT runs; the model
therefore checks the body first and the city and point of interest after it.
PATCH has no annotated body: its 404 checks come first, then the patch, then
validation of the patched object. The authorization policy of the controller
runs before any of these (401 for an unauthenticated caller, 403 for one
without the claim city = "Antwerp"). The list action adds its own ownership
check (403) ahead of its existence check, which is why its 404 can never be
returned.

## Model

| member | source | states |
|---|---|---|
| `Text.Trim` | CityInfo.API/Services/CityInfoRepository.cs:24-31 | The trimmed name or query is the input with white-space padding removed on both sides; it is empty exactly when the input is all white space, and otherwise starts and ends with a non-white-space character. |
| `Text.Contains` | CityInfo.API/Services/CityInfoRepository.cs:32 | Substring search is true exactly when the query occurs at some offset of the text. |
| `Entities.NewCity` | CityInfo.API/Entities/City.cs:21-24 | The constructor sets the name to its argument and nothing else, so the new city is valid exactly when its name passes `[Required] [MaxLength(50)]`. |
| `Entities.NewPointOfInterest` | CityInfo.API/Entities/PointOfInterest.cs:22-25 | The constructor sets the name to its argument and nothing else, so the new point of interest is valid exactly when its name is. |
| `CityInfoContext.PointsOfInterestOf` | CityInfo.API/Entities/City.cs:19 | A city's point-of-interest collection holds exactly the point-of-interest rows whose foreign key is that city's key. |
| `CityInfoContext.PointsOfInterestOfMultiset` | CityInfo.API/Entities/City.cs:19 | Each of the city's points of interest appears in its collection exactly as often as in the table, and no other row appears. |
| `CityInfoContext.NewCityOwnsNothing` | CityInfo.API/Entities/City.cs:19-24 | A city saved under a freshly generated key owns no point of interest in a valid database: its collection starts empty. |
| `CityInfoContext.NextPointOfInterestId` | CityInfo.API/Entities/PointOfInterest.cs:8-10 | The generated key of a new point of interest is positive and greater than every key already in the table, so it is unused. |
| `CityInfoContext.Persisted` | CityInfo.API/Entities/PointOfInterest.cs:18-21 | A point of interest added to a city's collection is saved with that city as its foreign key, its own name and description, and a key no row has. |
| `CityInfoContext.WriteBack` | CityInfo.API/Controllers/PointsOfInterestController.cs:101-103 | Saving a modified point of interest overwrites the row with its key and leaves every other row, in place, and every city unchanged. |
| `CityInfoContext.RemoveRowCount` | CityInfo.API/Services/CityInfoRepository.cs:76-79 | In a table with unique keys, deleting by an existing key removes exactly one row. |
| `CityInfoContext.InsertPreservesValid` | CityInfo.API/Entities/PointOfInterest.cs:8-21 | Appending a valid point of interest for an existing city under a fresh key keeps keys unique, rows valid and every foreign key pointing at a city. |
| `CityInfoContext.WriteBackPreservesValid` | CityInfo.API/Entities/PointOfInterest.cs:11-21 | Overwriting a row with a valid value owned by an existing city keeps the database valid. |
| `CityInfoContext.RemovePreservesValid` | CityInfo.API/Entities/PointOfInterest.cs:8-21 | Deleting a row keeps the database valid. |
| `Models.CreationDtoValidity` | CityInfo.API/Models/PointOfInterestForCreationDto.cs:7-11 | A creation object is valid exactly when its name is present, not blank and at most 50 characters, and its description is null or at most 200 characters. |
| `Models.UpdateDtoValidity` | CityInfo.API/Models/PointOfInterestForUpdateDto.cs:7-11 | An update object is valid exactly when its name is present, not blank and at most 50 characters, and its description is null or at most 200 characters. |
| `Models.DefaultDtosAreInvalid` | CityInfo.API/Models/PointOfInterestForCreationDto.cs:7-9 | A default-constructed creation or update object has the empty name and fails validation. |
| `Models.FromCreationDto` | CityInfo.API/Controllers/PointsOfInterestController.cs:76 | Mapping a creation object to an entity copies name and description, leaves the keys unset, and yields a valid entity exactly when the object was valid. |
| `Models.ToUpdateDto` | CityInfo.API/Controllers/PointsOfInterestController.cs:121 | The object a patch starts from is a copy of the stored row and is valid exactly when the row is. |
| `Models.ApplyUpdate` | CityInfo.API/Models/PointOfInterestForUpdateDto.cs:7-11 | Writing an update object into a point of interest replaces name and description, keeps both keys, and gives a valid entity exactly when the update object is valid: the bounds are the entity's. |
| `Models.UpdateRoundTrip` | CityInfo.API/Controllers/PointsOfInterestController.cs:121-133 | Copying a row into an update object and writing it back returns the row unchanged. |
| `CityInfoRepository.CityExists` | CityInfo.API/Services/CityInfoRepository.cs:56-59 | True exactly when some city row has the given key. |
| `CityInfoRepository.GetCity` | CityInfo.API/Services/CityInfoRepository.cs:45-53 | Returns a city row with the given key, and null exactly when there is none. |
| `CityInfoRepository.CityNameMatchesCityId` | CityInfo.API/Services/CityInfoRepository.cs:85-88 | True exactly when the name is non-null and a city with that key has exactly that name; false for an unknown key or a null name. |
| `CityInfoRepository.GetPointsOfInterestForCity` | CityInfo.API/Services/CityInfoRepository.cs:60-63 | Returns exactly the point-of-interest rows whose foreign key is the city's key. |
| `CityInfoRepository.GetPointOfInterestForCity` | CityInfo.API/Services/CityInfoRepository.cs:64-67 | Returns a row whose foreign key and key both match, and null exactly when no row matches both. |
| `CityInfoRepository.GetPointOfInterestFindsTheRow` | CityInfo.API/Services/CityInfoRepository.cs:64-67 | With unique keys, the lookup returns precisely the row with that key when it belongs to that city. |
| `CityInfoRepository.AddPointOfInterestForCity` | CityInfo.API/Services/CityInfoRepository.cs:68-75 | For an existing city exactly one row is appended, owned by that city under a fresh key, and the cities and earlier rows are untouched; for an unknown city nothing changes. |
| `CityInfoRepository.DeletePointOfInterest` | CityInfo.API/Services/CityInfoRepository.cs:76-79 | The row with the given key is gone, every other row is still present, and the cities are untouched. |
| `CityInfoRepository.OrderByName` | CityInfo.API/Services/CityInfoRepository.cs:38 | Ordering by name yields a permutation of the input that is sorted by name. |
| `CityInfoRepository.GetCities` | CityInfo.API/Services/CityInfoRepository.cs:15-18 | The unpaged query returns every city, each as often as stored, sorted by name. |
| `CityInfoRepository.FilterByName` | CityInfo.API/Services/CityInfoRepository.cs:24-28 | The name clause is skipped for a null or blank name and otherwise keeps exactly the cities whose name equals the trimmed name. |
| `CityInfoRepository.FilterBySearch` | CityInfo.API/Services/CityInfoRepository.cs:29-33 | The search clause is skipped for a null or blank query and otherwise keeps exactly the cities whose name or non-null description contains the trimmed query. |
| `CityInfoRepository.FilterCities` | CityInfo.API/Services/CityInfoRepository.cs:22-33 | A city survives exactly when it passes both optional filters: equal to the trimmed name when a non-blank name is given, and containing the trimmed query in its name or non-null description when a non-blank query is given; with neither, every city survives. |
| `CityInfoRepository.FilterCitiesMultiset` | CityInfo.API/Services/CityInfoRepository.cs:22-36 | Each city passing both filters is kept as often as it is stored and every other city is dropped, so the total reported before paging counts exactly the matching rows. |
| `CityInfoRepository.PageOf` | CityInfo.API/Services/CityInfoRepository.cs:38-41 | Ordering, skipping pageSize*(pageNumber-1) and taking pageSize yields exactly the requested page of the collection in name order: at most pageSize cities, sorted, each from the collection. |
| `CityInfoRepository.GetCitiesPaged` | CityInfo.API/Services/CityInfoRepository.cs:19-44 | The reported total is the size of the filtered collection, whatever the paging arguments; the page holds at most pageSize cities, is sorted by name, contains only filtered cities, and is exactly the requested page of the filtered cities in name order, starting at position pageSize*(pageNumber-1). |
| `CityInfoRepository.EveryItemIsOnItsPage` | CityInfo.API/Services/CityInfoRepository.cs:38-41 | With a positive page size, the i-th item of a collection in name order is on page i/pageSize+1 at position i mod pageSize. |
| `CityInfoRepository.EveryMatchIsOnItsPage` | CityInfo.API/Services/CityInfoRepository.cs:38-41 | With a positive page size, the i-th matching city in name order appears on page i/pageSize+1 at position i mod pageSize. |
| `CityInfoRepository.UnfilteredQueryIsEveryCity` | CityInfo.API/Services/CityInfoRepository.cs:22-36 | With a blank name and query the total is the number of cities, and a first page large enough for all of them equals the unpaged query. |
| `PointsOfInterestController.CityClaim` | CityInfo.API/Controllers/PointsOfInterestController.cs:35 | Yields null exactly when the caller has no "city" claim, and otherwise the value of the caller's first "city" claim: no claim before it has that type. |
| `PointsOfInterestController.PolicyImpliesCityClaim` | CityInfo.API/Program.cs:96-99 | A caller admitted by the "MustBeFromAntwerp" policy always has a "city" claim. |
| `PointsOfInterestController.GetPointsOfInterest` | CityInfo.API/Controllers/PointsOfInterestController.cs:33-50 | 403 exactly when the caller's city claim is absent or is not the name of city cityId; never 404; otherwise 200 whose body lists the city's points of interest one entry per owned row, in table order; the database never changes. |
| `PointsOfInterestController.GetPointOfInterest` | CityInfo.API/Controllers/PointsOfInterestController.cs:52-65 | 404 exactly when the city is unknown or no point of interest with that key belongs to it; otherwise 200 describing such a point of interest; the database never changes. |
| `PointsOfInterestController.CreatePointOfInterest` | CityInfo.API/Controllers/PointsOfInterestController.cs:68-85 | 400 exactly for an invalid body, 404 exactly for a valid body and unknown city, both without change; otherwise one row is appended, owned by the city, with the body's name and description under a fresh key, nothing else changes, and 201 names the city and the new key. |
| `PointsOfInterestController.UpdatePointOfInterest` | CityInfo.API/Controllers/PointsOfInterestController.cs:88-105 | 400 exactly for an invalid body, 404 exactly for an unknown city or point of interest, both without change; otherwise 204 and the target row takes the body's name and description, keeps its keys, and every other row and city is unchanged. |
| `PointsOfInterestController.PartiallyUpdatePointOfInterest` | CityInfo.API/Controllers/PointsOfInterestController.cs:108-136 | 404 exactly for an unknown city or point of interest; 400 exactly when the patch fails or the patched copy of the stored row is invalid; in both cases nothing changes; otherwise 204 and the row takes the patched name and description. |
| `PointsOfInterestController.DeletePointOfInterest` | CityInfo.API/Controllers/PointsOfInterestController.cs:138-158 | 404 without change exactly for an unknown city or point of interest; otherwise 204, the row with that key is gone and every city and every other row remains. |
| `PointsOfInterestController.Handle` | CityInfo.API/Controllers/PointsOfInterestController.cs:15 | An unauthenticated caller gets 401 and an authenticated caller without the claim city = "Antwerp" gets 403, both with the database unchanged, before any action runs; a caller the policy admits gets exactly the answer and database of the action the request names. |
| `PointsOfInterestController.CityCheckIsSubsumed` | CityInfo.API/Controllers/PointsOfInterestController.cs:54-63 | In a valid database the city check before a point-of-interest lookup never decides the outcome: 404 happens exactly when no point of interest with that key belongs to the city. |
| `PointsOfInterestController.CreatedPointOfInterestCanBeRead` | CityInfo.API/Controllers/PointsOfInterestController.cs:71-84 | After a 201, reading the route it names answers 200 with the body of the 201. |
| `PointsOfInterestController.UpdatedPointOfInterestReadsBack` | CityInfo.API/Controllers/PointsOfInterestController.cs:95-104 | After a 204 to PUT in a valid database, reading the point of interest returns the same key with the body's name and description. |
| `PointsOfInterestController.DeleteRemovesExactlyOne` | CityInfo.API/Controllers/PointsOfInterestController.cs:145-156 | After a 204 to DELETE in a valid database, the table has exactly one row fewer and reading that point of interest answers 404. |
| `PointsOfInterestController.PatchKeepsUntouchedFields` | CityInfo.API/Controllers/PointsOfInterestController.cs:121-135 | Because the patched object starts as a copy of the row, a successful PATCH whose document never changes a field writes that field back with its stored value. |
| `PointsOfInterestController.NeutralPatchChangesNothing` | CityInfo.API/Controllers/PointsOfInterestController.cs:121-135 | In a valid database a patch that changes neither field leaves the database exactly as it was. |
| `PointsOfInterestController.HandlePreservesValid` | CityInfo.API/Entities/PointOfInterest.cs:8-21 | Every request, whatever its outcome, leaves a valid database valid: unique keys, rows within their field bounds, every point of interest owned by an existing city. |

## Left out

- Hosting and plumbing: logging configuration, API documentation, dependency injection, the database connection, bearer-token validation, HTTPS redirection and API versioning. A caller is given as already authenticated or not, with a list of claims.
- Asynchrony, change tracking and the value returned by the save: each request is one atomic transition, and concurrent requests are not modelled.
- Sending mail after a delete and the log messages of the list and read actions: output with no effect on the database or the answer.
- The object mapper's internals and the profile file: each mapping is a copy of the same-named members. The read transfer object `PointOfInterestDto` is taken to have Id, Name and Description.
- Parsing and applying JSON Patch documents (section 4 of RFC 6902): a patch is an arbitrary function on the update object that either reports an error or returns the patched object.
- The authorization policy compares the claim type "city" exactly; the framework compares claim types without regard to case.
- String lengths are counted in Unicode scalar values; the framework counts UTF-16 code units, which differ for characters outside the Basic Multilingual Plane.
- Key generation is "one more than the largest key in the table"; a database that never reuses a deleted key generates other values, and every contract here holds for any key not in the table. Keys, page numbers and page sizes are unbounded integers, so 32-bit overflow is not modelled.
- CityInfoRepository.GetCitiesPaged: requires pageNumber >= 1 and pageSize >= 0, because the repository does not validate its paging arguments and a negative skip or take is not modelled.
- CityInfoRepository.OrderByName: does not state which of several cities with equal names comes first; the database leaves that order unspecified.
- `GetCityAsync`'s `includePointsOfInterest` flag: a city's collection is always derived from the point-of-interest table, so the flag has no observable effect here.
- Model-binding failures of route values and of the request body's JSON syntax: the model starts from already bound values.
- The page count that `PaginationMetadata` derives is not modelled.
- Content negotiation: every request is taken to accept JSON or XML. Otherwise the answer is 406, given after the action has run (for POST, after the row is saved).
- The migration that rewrites one seed row's description: data, no logic.
