/**
 * The two persisted entities. Keys are generated by the database; a newly
 * constructed entity carries key 0 until it is saved.
 */
module Entities {
  import opened Wrappers
  import opened Annotations

  /** A city. Its owned collection of points of interest is not a stored
      field: it is the set of point-of-interest rows whose foreign key names
      this city (see `CityInfoContext.PointsOfInterestOf`). */
  datatype City = City(id: int, name: string, description: Option<string>) {

    /** `[Required] [MaxLength(50)] Name` and `[MaxLength(200)] Description?`. */
    predicate Valid() {
      ValidName(Some(name)) && ValidDescription(description)
    }
  }

  /** A point of interest; `cityId` is the foreign key of its owning city. */
  datatype PointOfInterest = PointOfInterest(id: int, name: string, description: Option<string>, cityId: int) {

    /** `[Required] [MaxLength(50)] Name` and `[MaxLength(200)] Description?`. */
    predicate Valid() {
      ValidName(Some(name)) && ValidDescription(description)
    }
  }

  /** `new City(name)`: the name is the argument, nothing else is set yet,
      so the new city is valid exactly when its name is. */
  function NewCity(name: string): (c: City)
    ensures c.name == name && c.description.None? && c.id == 0
    ensures c.Valid() <==> ValidName(Some(name))
  {
    City(0, name, None)
  }

  /** `new PointOfInterest(name)`: the name is the argument, nothing else is
      set yet, so the new point of interest is valid exactly when its name is. */
  function NewPointOfInterest(name: string): (p: PointOfInterest)
    ensures p.name == name && p.description.None? && p.id == 0 && p.cityId == 0
    ensures p.Valid() <==> ValidName(Some(name))
  {
    PointOfInterest(0, name, None, 0)
  }
}
