/** Models/Car.cs: the car record and its data-annotation constraints. */
module CarModel {
  import opened Primitives
  import opened Annotations

  datatype Car = Car(
    Id: Guid,
    Make: string,
    Model: string,
    Year: int32,
    PricePerDay: decimal,
    IsAvailable: bool)

  const MaxMakeLength: nat := 50
  const MaxModelLength: nat := 50
  const MinYear: int32 := 1900
  const MaxYear: int32 := 2100
  const MinPricePerDay: real := 1.0

  /**
   * The record passes every attribute on Car. `[Required]` on the value
   * types PricePerDay and IsAvailable always passes and adds nothing.
   * A valid car has a make and a model, a year in 1900..2100 and a
   * positive daily price.
   */
  predicate Valid(c: Car)
    ensures Valid(c) ==> 0 < |c.Make| && 0 < |c.Model|
    ensures Valid(c) ==> 1900 <= c.Year as int <= 2100
    ensures Valid(c) ==> c.PricePerDay > 0.0
  {
    && Required(c.Make) && StringLength(c.Make, MaxMakeLength)
    && Required(c.Model) && StringLength(c.Model, MaxModelLength)
    && MinYear <= c.Year <= MaxYear
    && c.PricePerDay >= MinPricePerDay
  }

  /**
   * The errors model binding records for a car (what makes
   * `ModelState.IsValid` false), one per failing attribute.
   */
  function Errors(c: Car): (errs: seq<FieldError>)
    ensures errs == [] <==> Valid(c)
    ensures forall e :: e in errs ==> e.field in {"Make", "Model", "Year", "PricePerDay"}
    ensures FieldError("Make", "Make is required.") in errs <==> !Required(c.Make)
    ensures FieldError("Make", "Make can't be longer than 50 characters.") in errs
      <==> !StringLength(c.Make, MaxMakeLength)
    ensures FieldError("Model", "Model is required.") in errs <==> !Required(c.Model)
    ensures FieldError("Model", "Model can't be longer than 50 characters.") in errs
      <==> !StringLength(c.Model, MaxModelLength)
    ensures FieldError("Year", "Year must be a valid year.") in errs <==> !(MinYear <= c.Year <= MaxYear)
    ensures FieldError("PricePerDay", "Price per day must be greater than 0.") in errs
      <==> c.PricePerDay < MinPricePerDay
  {
    var make :=
      Check(Required(c.Make), "Make", "Make is required.")
      + Check(StringLength(c.Make, MaxMakeLength), "Make", "Make can't be longer than 50 characters.");
    var model :=
      Check(Required(c.Model), "Model", "Model is required.")
      + Check(StringLength(c.Model, MaxModelLength), "Model", "Model can't be longer than 50 characters.");
    var year := Check(MinYear <= c.Year <= MaxYear, "Year", "Year must be a valid year.");
    var price := Check(c.PricePerDay >= MinPricePerDay, "PricePerDay", "Price per day must be greater than 0.");
    make + model + year + price
  }
}
