/**
 * The venue record every source produces and the filter engine reads: `Bar` as declared in
 * src/types.ts, plus the two fields the filter reads that the declaration lacks
 * (`osmTags.features` and `isInSun`).
 */
module BarModel {
  import opened JsValues

  /** `location`; a coordinate produced by `parseFloat` may be NaN. */
  datatype Location = Location(latitude: Float, longitude: Float)

  /**
   * `osmTags`. The boolean tags (`real_ale`, `real_fire`, `dog`, `wheelchair`, and the further
   * flags the venues service sets) are kept by tag name in `flags`; a flag that is not set is absent.
   */
  datatype OsmTags = OsmTags(
    flags: map<string, bool>,
    amenity: Option<string>,
    openingHours: Option<string>,
    features: Option<string>)

  datatype Bar = Bar(
    id: string,
    name: string,
    location: Location,
    address: string,
    rating: Option<real>,
    isOpen: Option<bool>,
    placeId: string,
    photos: seq<string>,
    priceLevel: Option<real>,
    vicinity: string,
    types: seq<string>,
    osmTags: Option<OsmTags>,
    isInSun: Option<bool>)
}
