/**
 * The venues service of venues-service/index.js: the `'data'` handler that turns each parsed CSV
 * row into a venue, the module-level venue list it fills, and the two endpoints over that list:
 * `/venues` (venues within a radius of a point) and `/venues/:id` (one venue by id).
 * `parseFloat` and the great-circle distance are parameters; the CSV stream and the HTTP server
 * are not modelled.
 */
module VenuesService {
  import opened JsValues
  import opened JsStrings
  import opened JsArrays
  import opened BarModel
  import opened FilterEngine

  /** A row as the CSV parser hands it over: the row's value under each column of the header. */
  type Row = map<string, string>

  // ---------------------------------------------------------------- features

  /** `f.trim().replace(/_/g, ' ')`: trimming comes first, so a trailing `_` becomes a trailing space. */
  function CleanToken(field: string): string
  {
    ReplaceChar(Trim(field), '_', ' ')
  }

  /** `f => f.length > 0` */
  predicate NonEmpty(token: string)
  {
    |token| > 0
  }

  /** The feature tokens of a `verified_features` value: each comma field cleaned, the empty ones dropped. */
  function CleanFeatures(raw: string): seq<string>
  {
    Filter(Map(Split(raw, ','), CleanToken), NonEmpty)
  }

  /** Every token is non-empty and holds neither `,` (it came from a `,` split) nor `_`. */
  lemma CleanTokens(raw: string)
    ensures forall i :: 0 <= i < |CleanFeatures(raw)| ==>
      var t := CleanFeatures(raw)[i]; |t| > 0 && ',' !in t && '_' !in t
  {
    var fields := Split(raw, ',');
    var cleaned := Map(fields, CleanToken);
    SplitPiecesLackSeparator(raw, ',');
    forall i | 0 <= i < |cleaned|
      ensures ',' !in cleaned[i] && '_' !in cleaned[i]
    {
      TrimKeepsCharacters(fields[i]);
    }
    FilterSelects(cleaned, NonEmpty);
    forall i | 0 <= i < |CleanFeatures(raw)|
      ensures ',' !in CleanFeatures(raw)[i] && '_' !in CleanFeatures(raw)[i]
    {
      assert CleanFeatures(raw)[i] in cleaned;
    }
  }

  /**
   * `osmTags.features` is the tokens joined with `,`; splitting it on `,` gives the tokens back,
   * except that no tokens at all join to `""`, which splits to `[""]`.
   */
  lemma FeaturesRoundTrip(raw: string)
    ensures var tokens := CleanFeatures(raw);
      Split(Join(tokens, ','), ',') == if tokens == [] then [""] else tokens
  {
    var tokens := CleanFeatures(raw);
    if tokens != [] {
      CleanTokens(raw);
      SplitJoin(tokens, ',');
    }
  }

  /** Some field of the list cleans to the given token. */
  predicate SomeFieldCleansTo(fields: seq<string>, token: string)
  {
    exists i :: 0 <= i < |fields| && CleanToken(fields[i]) == token
  }

  /** A non-empty string is among the tokens exactly when some comma field of the raw value cleans to it. */
  lemma TokenFromField(raw: string, token: string)
    requires |token| > 0
    ensures token in CleanFeatures(raw) <==> SomeFieldCleansTo(Split(raw, ','), token)
  {
    var fields := Split(raw, ',');
    FilterSelects(Map(fields, CleanToken), NonEmpty);
    MapMembership(fields, CleanToken, token);
  }

  // ---------------------------------------------------------------- one row

  /** The sixteen boolean tags the handler sets, each to whether its label is among the feature tokens. */
  const FlagLabels: map<string, string> := map[
    "real_ale" := "real ale",
    "real_fire" := "fireplace",
    "dog" := "dog friendly",
    "wheelchair" := "wheelchair",
    "garden" := "garden",
    "food" := "food",
    "craft_beer" := "craft beer",
    "live_music" := "live music",
    "quiz_night" := "quiz night",
    "board_games" := "board games",
    "sunday_roast" := "sunday roast",
    "outdoor_seating" := "outdoor seating",
    "dj" := "dj",
    "street_food" := "street food",
    "nightlife" := "nightlife",
    "cocktails" := "cocktails"
  ]

  /** `parseFloat(row[column])`; `parseFloat(undefined)` is NaN. */
  function NumberColumn(row: Row, column: string, parseFloat: string -> Float): Float
  {
    match Tag(row, column)
    case Some(text) => parseFloat(text)
    case None => NaN
  }

  /** `row.venue_type_verified ? row.venue_type_verified.toLowerCase() : ''` */
  function VenueType(row: Row): string
  {
    var kind := Tag(row, "venue_type_verified");
    if Truthy(kind) then ToLower(kind.value) else ""
  }

  /** `parseFloat(row.rating) || undefined`: 0 and NaN are falsy. */
  function Rating(row: Row, parseFloat: string -> Float): Option<real>
  {
    match NumberColumn(row, "rating", parseFloat)
    case Num(x) => if x != 0.0 then Some(x) else None
    case NaN => None
  }

  /** `row.place_id || \`venue-${rowIndex}\``, read after `rowIndex` was incremented for this row. */
  function PlaceId(row: Row, index: nat): string
  {
    var placeId := Tag(row, "place_id");
    if Truthy(placeId) then placeId.value else "venue-" + NatToString(index + 1)
  }

  /** The `osmTags` object: the joined feature tokens, the sixteen flags, the amenity and the hours. */
  function ServiceTags(row: Row): OsmTags
  {
    var features := CleanFeatures(Tag(row, "verified_features").GetOr(""));
    OsmTags(
      map k | k in FlagLabels :: FlagLabels[k] in features,
      Some(VenueType(row)),
      Tag(row, "working_hours"),
      Some(Join(features, ',')))
  }

  /** The venue the `'data'` handler builds from the row at position `index`: its id is `String(index)`. */
  function NormalizeRow(row: Row, index: nat, parseFloat: string -> Float): Bar
  {
    Bar(
      NatToString(index),
      Tag(row, "name").GetOr(""),
      Location(NumberColumn(row, "latitude", parseFloat), NumberColumn(row, "longitude", parseFloat)),
      Tag(row, "full_address").GetOr(""),
      Rating(row, parseFloat),
      Some(true),
      PlaceId(row, index),
      [],
      Some(2.0),
      Tag(row, "full_address").GetOr(""),
      [VenueType(row)],
      Some(ServiceTags(row)),
      None)
  }

  /** The fixed and derived fields of a normalised row. */
  lemma NormalizedFields(row: Row, index: nat, parseFloat: string -> Float)
    ensures var venue := NormalizeRow(row, index, parseFloat);
      && venue.id == NatToString(index)
      && (Truthy(Tag(row, "place_id")) ==> venue.placeId == row["place_id"])
      && (!Truthy(Tag(row, "place_id")) ==> venue.placeId == "venue-" + NatToString(index + 1))
      && venue.types == [venue.osmTags.value.amenity.value]
      && venue.types == [if Truthy(Tag(row, "venue_type_verified")) then ToLower(row["venue_type_verified"]) else ""]
      && |venue.types[0]| == |Tag(row, "venue_type_verified").GetOr("")|
      && (forall i :: 0 <= i < |venue.types[0]| ==> !('A' <= venue.types[0][i] <= 'Z'))
      && venue.priceLevel == Some(2.0) && venue.isOpen == Some(true) && venue.photos == []
      && venue.vicinity == venue.address
      && venue.osmTags.value.openingHours == Tag(row, "working_hours")
  {
  }

  /** A rating is kept exactly when it parses to a non-zero number. */
  lemma RatingKeptWhenNonZero(row: Row, parseFloat: string -> Float)
    ensures Rating(row, parseFloat).Some? <==>
      NumberColumn(row, "rating", parseFloat).Num? && NumberColumn(row, "rating", parseFloat).value != 0.0
    ensures Rating(row, parseFloat).Some? ==> Rating(row, parseFloat).value == NumberColumn(row, "rating", parseFloat).value
  {
  }

  /** The handler sets exactly the sixteen flags, each true exactly when some comma field cleans to its label. */
  lemma FlagsFromFields(row: Row)
    ensures var flags := ServiceTags(row).flags;
      && flags.Keys == FlagLabels.Keys
      && forall k :: k in flags ==>
           (flags[k] <==> SomeFieldCleansTo(Split(Tag(row, "verified_features").GetOr(""), ','), FlagLabels[k]))
  {
    var raw := Tag(row, "verified_features").GetOr("");
    forall k | k in FlagLabels
      ensures FlagLabels[k] in CleanFeatures(raw) <==> SomeFieldCleansTo(Split(raw, ','), FlagLabels[k])
    {
      TokenFromField(raw, FlagLabels[k]);
    }
  }

  /**
   * The frontend's `hasFeature` on a service venue tests the trimmed tokens, case-sensitively, for
   * its own labels (such as `Real ale`), not the lower-case labels the service's flags test.
   */
  lemma ServiceVenueFeatures(row: Row, index: nat, parseFloat: string -> Float, feature: string)
    ensures HasFeature(NormalizeRow(row, index, parseFloat), feature) <==>
      feature in FeatureLabels &&
      FeatureLabels[feature] in TrimAll(CleanFeatures(Tag(row, "verified_features").GetOr("")))
  {
    var tokens := CleanFeatures(Tag(row, "verified_features").GetOr(""));
    if tokens == [] {
      assert Join(tokens, ',') == "";
    } else {
      CleanTokens(Tag(row, "verified_features").GetOr(""));
      SplitJoin(tokens, ',');
    }
  }

  // ---------------------------------------------------------------- loading

  /** The venues of the rows, in row order: row i becomes venue i. */
  function NormalizedRows(rows: seq<Row>, parseFloat: string -> Float): seq<Bar>
  {
    MapIndexed(rows, (row, i) => NormalizeRow(row, i, parseFloat))
  }

  /** The ids are `"0"`, `"1"`, … in row order, so no two venues share one. */
  lemma IdsUnique(rows: seq<Row>, parseFloat: string -> Float, i: nat, j: nat)
    requires i < |rows| && j < |rows| && i != j
    ensures NormalizedRows(rows, parseFloat)[i].id != NormalizedRows(rows, parseFloat)[j].id
  {
    if NatToString(i) == NatToString(j) {
      NatToStringInjective(i, j);
    }
  }

  /** The service's state: the module-level `venues` list. */
  class VenueStore {
    var venues: seq<Bar>

    /** `let venues = []` */
    constructor()
      ensures venues == []
    {
      venues := [];
    }

    /**
     * `loadVenuesFromCSV` once the parser has produced its rows: the `'data'` handler pushes one
     * venue per row, counting rows in `rowIndex`, and `'end'` assigns the list. `'end'` then logs
     * `Object.keys(venues[0])`, which throws when there are no rows, so the promise resolves only
     * when there was at least one.
     */
    method LoadVenuesFromCsv(rows: seq<Row>, parseFloat: string -> Float) returns (resolved: bool)
      modifies this
      ensures venues == NormalizedRows(rows, parseFloat)
      ensures resolved <==> |rows| > 0
    {
      var results: seq<Bar> := [];
      var rowIndex: nat := 0;
      ghost var handler := (row, i) => NormalizeRow(row, i, parseFloat);
      while rowIndex < |rows|
        invariant rowIndex <= |rows|
        invariant results == MapIndexed(rows[..rowIndex], handler)
      {
        MapIndexedPrefix(rows, rowIndex, handler);
        var venue := NormalizeRow(rows[rowIndex], rowIndex, parseFloat);
        rowIndex := rowIndex + 1;
        results := results + [venue];
      }
      assert rows[..rowIndex] == rows;
      venues := results;
      resolved := |venues| > 0;
    }
  }

  // ---------------------------------------------------------------- endpoints

  /** A JSON response: a body with status 200, or an error message under an error status. */
  datatype Reply<T> = Ok(body: T) | Failure(status: nat, error: string)

  /** `/venues/:id`: the first venue with that id, or 404. */
  function VenueDetails(venues: seq<Bar>, id: string): Reply<Bar>
  {
    match Find(venues, (v: Bar) => v.id == id)
    case Some(venue) => Ok(venue)
    case None => Failure(404, "Venue not found")
  }

  /** The details reply is the first venue carrying the id, and 404 exactly when none does. */
  lemma DetailsFindsFirst(venues: seq<Bar>, id: string)
    ensures VenueDetails(venues, id).Failure? <==> forall i :: 0 <= i < |venues| ==> venues[i].id != id
    ensures VenueDetails(venues, id).Failure? ==> VenueDetails(venues, id).status == 404
    ensures VenueDetails(venues, id).Ok? ==>
      exists i :: 0 <= i < |venues| && venues[i] == VenueDetails(venues, id).body && venues[i].id == id &&
        forall j :: 0 <= j < i ==> venues[j].id != id
  {
  }

  /** Over the loaded list, id `String(i)` answers with the venue of row i. */
  lemma DetailsOfLoaded(rows: seq<Row>, parseFloat: string -> Float, i: nat)
    requires i < |rows|
    ensures VenueDetails(NormalizedRows(rows, parseFloat), NatToString(i)) == Ok(NormalizeRow(rows[i], i, parseFloat))
  {
    var venues := NormalizedRows(rows, parseFloat);
    forall j | 0 <= j < i
      ensures venues[j].id != NatToString(i)
    {
      IdsUnique(rows, parseFloat, i, j);
    }
    FindFirst(venues, (v: Bar) => v.id == NatToString(i), i);
  }

  /** Over the loaded list, an id that is not `String(i)` for a row i is 404: `"01"`, `"-1"` and `" 1"` among them. */
  lemma UnknownIdIs404(rows: seq<Row>, parseFloat: string -> Float, id: string)
    requires forall i :: 0 <= i < |rows| ==> NatToString(i) != id
    ensures VenueDetails(NormalizedRows(rows, parseFloat), id) == Failure(404, "Venue not found")
  {
  }

  /** The query string of `/venues`: each parameter may be missing. */
  datatype Query = Query(lat: Option<string>, lng: Option<string>, radius: Option<string>)

  /** `a <= b` on numbers: false when either is NaN. */
  predicate AtMost(a: Float, b: Float)
  {
    a.Num? && b.Num? && a.value <= b.value
  }

  /** The filter of `/venues`: a venue is kept when both coordinates are numbers and it lies within the radius. */
  predicate Within(venue: Bar, lat: Float, lng: Float, radius: Float, distance: (Float, Float, Float, Float) -> Float)
  {
    && !venue.location.latitude.NaN?
    && !venue.location.longitude.NaN?
    && AtMost(distance(lat, lng, venue.location.latitude, venue.location.longitude), radius)
  }

  function Nearby(venues: seq<Bar>, lat: Float, lng: Float, radius: Float,
                  distance: (Float, Float, Float, Float) -> Float): seq<Bar>
  {
    Filter(venues, v => Within(v, lat, lng, radius, distance))
  }

  /** The radius in metres: `parseFloat(radius)`, where a missing radius is the number 2000. */
  function SearchRadius(q: Query, parseFloat: string -> Float): Float
  {
    match q.radius
    case None => Num(2000.0)
    case Some(text) => parseFloat(text)
  }

  /** `/venues`: 400 without a truthy `lat` and `lng`, otherwise the venues within the radius. */
  function ListVenues(venues: seq<Bar>, q: Query, parseFloat: string -> Float,
                      distance: (Float, Float, Float, Float) -> Float): Reply<seq<Bar>>
  {
    if !Truthy(q.lat) || !Truthy(q.lng) then Failure(400, "Missing required parameters: lat, lng")
    else Ok(Nearby(venues, parseFloat(q.lat.value), parseFloat(q.lng.value), SearchRadius(q, parseFloat), distance))
  }

  /** The reply is 400 exactly when `lat` or `lng` is missing or empty. */
  lemma MissingParametersAre400(venues: seq<Bar>, q: Query, parseFloat: string -> Float,
                                distance: (Float, Float, Float, Float) -> Float)
    ensures ListVenues(venues, q, parseFloat, distance).Failure? <==>
      q.lat.None? || q.lng.None? || |q.lat.value| == 0 || |q.lng.value| == 0
    ensures ListVenues(venues, q, parseFloat, distance).Failure? ==> ListVenues(venues, q, parseFloat, distance).status == 400
  {
  }

  /**
   * A successful reply lists, in order, exactly the venues with numeric coordinates whose distance
   * from the point is at most the radius; with NaN coordinates a venue is never listed.
   */
  lemma ListedVenues(venues: seq<Bar>, q: Query, parseFloat: string -> Float,
                     distance: (Float, Float, Float, Float) -> Float)
    requires Truthy(q.lat) && Truthy(q.lng)
    ensures var r := ListVenues(venues, q, parseFloat, distance);
      var lat, lng := parseFloat(q.lat.value), parseFloat(q.lng.value);
      && r.Ok?
      && IsSubsequence(r.body, venues)
      && (forall v :: v in r.body <==> v in venues && Within(v, lat, lng, SearchRadius(q, parseFloat), distance))
      && (forall i :: 0 <= i < |r.body| ==> r.body[i].location.latitude.Num? && r.body[i].location.longitude.Num?)
  {
    var lat, lng := parseFloat(q.lat.value), parseFloat(q.lng.value);
    FilterSelects(venues, v => Within(v, lat, lng, SearchRadius(q, parseFloat), distance));
  }

  /** Leaving the radius out is the same as asking for 2000 metres. */
  lemma DefaultRadius(venues: seq<Bar>, lat: Option<string>, lng: Option<string>, radius: string,
                      parseFloat: string -> Float, distance: (Float, Float, Float, Float) -> Float)
    requires parseFloat(radius) == Num(2000.0)
    ensures ListVenues(venues, Query(lat, lng, None), parseFloat, distance) ==
            ListVenues(venues, Query(lat, lng, Some(radius)), parseFloat, distance)
  {
  }

  /** A radius that does not parse makes every comparison false, so nothing is listed. */
  lemma NaNRadiusListsNothing(venues: seq<Bar>, q: Query, parseFloat: string -> Float,
                              distance: (Float, Float, Float, Float) -> Float)
    requires Truthy(q.lat) && Truthy(q.lng) && q.radius.Some? && parseFloat(q.radius.value).NaN?
    ensures ListVenues(venues, q, parseFloat, distance) == Ok([])
  {
    var lat, lng := parseFloat(q.lat.value), parseFloat(q.lng.value);
    FilterKeepsNone(venues, v => Within(v, lat, lng, SearchRadius(q, parseFloat), distance));
  }

  /** With a distance that is NaN whenever the centre is, a centre that does not parse lists nothing. */
  lemma NaNCentreListsNothing(venues: seq<Bar>, q: Query, parseFloat: string -> Float,
                              distance: (Float, Float, Float, Float) -> Float)
    requires Truthy(q.lat) && Truthy(q.lng)
    requires parseFloat(q.lat.value).NaN? || parseFloat(q.lng.value).NaN?
    requires forall a: Float, b: Float, c: Float, d: Float :: a.NaN? || b.NaN? ==> distance(a, b, c, d).NaN?
    ensures ListVenues(venues, q, parseFloat, distance) == Ok([])
  {
    var lat, lng := parseFloat(q.lat.value), parseFloat(q.lng.value);
    FilterKeepsNone(venues, v => Within(v, lat, lng, SearchRadius(q, parseFloat), distance));
  }

  /** A smaller radius lists what the larger one lists within it, in the same order. */
  lemma SmallerRadiusNarrows(venues: seq<Bar>, lat: Float, lng: Float, small: real, large: real,
                             distance: (Float, Float, Float, Float) -> Float)
    requires small <= large
    ensures Nearby(venues, lat, lng, Num(small), distance) ==
            Filter(Nearby(venues, lat, lng, Num(large), distance), v => Within(v, lat, lng, Num(small), distance))
  {
    FilterNarrowed(venues, v => Within(v, lat, lng, Num(large), distance), v => Within(v, lat, lng, Num(small), distance));
  }
}
