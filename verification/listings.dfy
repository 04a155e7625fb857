/**
 The used-vehicle listing table and the two columns derived from it
 when the dataset is loaded: `brand` and `vehicle_age`.
 */
module Listings {
  import opened Wrappers
  import opened Tokens

  /** `vehicle_age` is measured from this model year. */
  const ReferenceYear := 2019

  /**
   One advertisement. Only the columns the dashboard reads are kept; any
   of them may be missing in the data file. Numbers are whole numbers.
   */
  datatype Listing = Listing(
    price: Option<int>,
    modelYear: Option<int>,
    model: Option<string>,
    condition: Option<string>,
    odometer: Option<int>,
    paintColor: Option<string>,
    vehicleType: Option<string>)

  /** A listing together with its derived columns. */
  datatype Row = Row(listing: Listing, brand: Option<string>, vehicleAge: Option<int>)

  /**
   `model.str.split().str[0]`: the first whitespace-delimited token of the
   model; missing when the model is missing or blank.
   */
  function Brand(model: Option<string>): (brand: Option<string>)
    ensures model.None? ==> brand.None?
    ensures model.Some? ==> (brand.None? <==> AllSpace(model.value))
    ensures brand.Some? ==> FirstTokenAt(model.value, LeadingSpace(model.value), brand.value)
  {
    match model
    case None => None
    case Some(m) =>
      SplitHead(m);
      var words := Split(m);
      if |words| == 0 then None else Some(words[0])
  }

  /** Conversely, whatever word stands first in the model is its brand. */
  lemma BrandOfFirstToken(model: string, start: nat, word: string)
    requires FirstTokenAt(model, start, word)
    ensures Brand(Some(model)) == Some(word)
  {
    FirstTokenUnique(model, start, word);
  }

  /**
   `2019 - model_year`: defined exactly when the model year is, negative
   for model years after 2019.
   */
  function VehicleAge(modelYear: Option<int>): (age: Option<int>)
    ensures age.Some? <==> modelYear.Some?
    ensures age.Some? ==> age.value + modelYear.value == ReferenceYear
    ensures age.Some? ==> (age.value < 0 <==> modelYear.value > ReferenceYear)
  {
    match modelYear
    case None => None
    case Some(y) => Some(ReferenceYear - y)
  }

  /** The table with `brand` and `vehicle_age` added, row for row. */
  function Derive(raw: seq<Listing>): (rows: seq<Row>)
    ensures |rows| == |raw|
    ensures forall i :: 0 <= i < |raw| ==> rows[i].listing == raw[i]
    ensures forall i :: 0 <= i < |raw| ==>
      && rows[i].brand == Brand(raw[i].model)
      && (rows[i].vehicleAge.Some? <==> raw[i].modelYear.Some?)
      && (rows[i].vehicleAge.Some? ==> rows[i].vehicleAge.value == ReferenceYear - raw[i].modelYear.value)
  {
    seq(|raw|, i requires 0 <= i < |raw| => Row(raw[i], Brand(raw[i].model), VehicleAge(raw[i].modelYear)))
  }
}
