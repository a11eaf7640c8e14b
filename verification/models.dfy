/**
 * The transfer objects of the point-of-interest endpoints and the
 * same-named-member copies the object mapper performs between them and the
 * entity. A transfer object's `Name` is nullable here because a request body
 * can carry `null` for it.
 */
module Models {
  import opened Wrappers
  import opened Text
  import opened Annotations
  import opened Entities

  /** Request body of POST. */
  datatype PointOfInterestForCreationDto = PointOfInterestForCreationDto(name: Option<string>, description: Option<string>) {

    /** `[Required] [MaxLength(50)] Name` and `[MaxLength(200)] Description?`. */
    predicate IsValid() {
      ValidName(name) && ValidDescription(description)
    }
  }

  /** Request body of PUT, and the object a JSON Patch document is applied to. */
  datatype PointOfInterestForUpdateDto = PointOfInterestForUpdateDto(name: Option<string>, description: Option<string>) {

    /** `[Required] [MaxLength(50)] Name` and `[MaxLength(200)] Description?`. */
    predicate IsValid() {
      ValidName(name) && ValidDescription(description)
    }
  }

  /** Response body describing one point of interest. */
  datatype PointOfInterestDto = PointOfInterestDto(id: int, name: string, description: Option<string>)

  /** A default-constructed creation object: `Name = string.Empty`, no description. */
  const DefaultCreationDto: PointOfInterestForCreationDto := PointOfInterestForCreationDto(Some(""), None)

  /** A default-constructed update object: `Name = string.Empty`, no description. */
  const DefaultUpdateDto: PointOfInterestForUpdateDto := PointOfInterestForUpdateDto(Some(""), None)

  /** The creation object's annotations, spelled out field by field: a name
      that is present, not blank and at most 50 characters long, and a
      description that is absent or at most 200 characters long. */
  lemma CreationDtoValidity(d: PointOfInterestForCreationDto)
    ensures d.IsValid() <==>
      && d.name.Some? && !AllWhiteSpace(d.name.value) && |d.name.value| <= 50
      && (d.description.None? || |d.description.value| <= 200)
  {
  }

  /** The update object's annotations, spelled out field by field. */
  lemma UpdateDtoValidity(d: PointOfInterestForUpdateDto)
    ensures d.IsValid() <==>
      && d.name.Some? && !AllWhiteSpace(d.name.value) && |d.name.value| <= 50
      && (d.description.None? || |d.description.value| <= 200)
  {
  }

  /** Neither default-constructed request object passes validation: the empty
      name fails `[Required]`. */
  lemma DefaultDtosAreInvalid()
    ensures !DefaultCreationDto.IsValid() && !DefaultUpdateDto.IsValid()
  {
  }

  /** `Map<PointOfInterestDto>(entity)`. */
  function ToDto(p: PointOfInterest): PointOfInterestDto {
    PointOfInterestDto(p.id, p.name, p.description)
  }

  /** `Map<PointOfInterest>(creationDto)`: the name goes through the entity's
      constructor, the description is copied, the keys are left unset. The
      transfer object's bounds are the entity's, so the entity is valid
      exactly when the transfer object is. */
  function FromCreationDto(d: PointOfInterestForCreationDto): (p: PointOfInterest)
    requires d.name.Some?
    ensures p.id == 0 && p.cityId == 0
    ensures Some(p.name) == d.name && p.description == d.description
    ensures p.Valid() <==> d.IsValid()
  {
    NewPointOfInterest(d.name.value).(description := d.description)
  }

  /** `Map<PointOfInterestForUpdateDto>(entity)`: the object a patch starts
      from. It is valid exactly when the entity is. */
  function ToUpdateDto(p: PointOfInterest): (d: PointOfInterestForUpdateDto)
    ensures d.name == Some(p.name) && d.description == p.description
    ensures d.IsValid() <==> p.Valid()
  {
    PointOfInterestForUpdateDto(Some(p.name), p.description)
  }

  /** `Map(updateDto, entity)`: overwrites the entity's name and description
      and keeps its keys. The bounds match, so the result is a valid entity
      exactly when the update object is valid. */
  function ApplyUpdate(d: PointOfInterestForUpdateDto, p: PointOfInterest): (r: PointOfInterest)
    requires d.name.Some?
    ensures r.id == p.id && r.cityId == p.cityId
    ensures Some(r.name) == d.name && r.description == d.description
    ensures r.Valid() <==> d.IsValid()
  {
    p.(name := d.name.value, description := d.description)
  }

  /** Copying an entity into an update object and back changes nothing. */
  lemma UpdateRoundTrip(p: PointOfInterest)
    ensures ApplyUpdate(ToUpdateDto(p), p) == p
  {
  }
}
