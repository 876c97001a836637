/**
 * The OpenStreetMap side of src/services/osmService.ts: matching a bar against the nodes of an
 * Overpass response and copying the matched node's tags onto it (`enrichBarWithOSMData`), and
 * turning a single node into a bar (`osmNodeToBar`). Number parsing is a parameter.
 */
module OsmService {
  import opened JsValues
  import opened JsStrings
  import opened JsArrays
  import opened BarModel
  import opened FilterEngine

  /** An element of the Overpass `elements` array; `tags` is absent on untagged elements. */
  datatype OsmElement = OsmElement(
    elementType: string,
    id: nat,
    lat: string,
    lon: string,
    tags: Option<map<string, string>>)

  /** The response object; its `elements` array may be missing. */
  datatype OsmData = OsmData(elements: Option<seq<OsmElement>>)

  /** `tags[key] === 'yes'` */
  predicate IsYes(tags: map<string, string>, key: string)
  {
    Tag(tags, key) == Some("yes")
  }

  // ---------------------------------------------------------------- enrichBarWithOSMData

  /** The `validNodes` test: a node with a `tags` object whose `name` is truthy. */
  predicate IsCandidate(e: OsmElement)
  {
    e.elementType == "node" && e.tags.Some? && Truthy(Tag(e.tags.value, "name"))
  }

  /** `Math.abs(a - b) < 0.002`; any comparison involving NaN is false. */
  predicate CloseEnough(a: Float, b: Float)
  {
    && a.Num? && b.Num?
    && var d := a.value - b.value;
       (if d < 0.0 then -d else d) < 0.002
  }

  /** `normalize`: `str.toLowerCase().replace(/[^a-z0-9]/g, '')`. */
  function Normalize(s: string): (r: string)
    ensures forall i :: 0 <= i < |r| ==> IsLowerAlnum(r[i])
  {
    Filter(ToLower(s), IsLowerAlnum)
  }

  /**
   * The normalised name is the lower-cased name with every character other than `a`-`z` and
   * `0`-`9` deleted: a subsequence of it holding each such character as often as it occurs.
   */
  lemma NormalizeSelects(s: string)
    ensures IsSubsequence(Normalize(s), ToLower(s))
    ensures forall c :: multiset(Normalize(s))[c] == if IsLowerAlnum(c) then multiset(ToLower(s))[c] else 0
    ensures forall c :: c in Normalize(s) <==> c in ToLower(s) && IsLowerAlnum(c)
  {
    FilterSelects(ToLower(s), IsLowerAlnum);
  }

  /** The words of a normalised name longer than two characters. */
  function SignificantWords(name: string): seq<string>
  {
    Filter(SplitOnWhitespace(name), w => |w| > 2)
  }

  /** `isNameSimilar` on two normalised names. */
  predicate IsNameSimilar(barName: string, nodeName: string)
  {
    var nodeWords := SignificantWords(nodeName);
    var sharedWords := Filter(SignificantWords(barName), w => w in nodeWords);
    |sharedWords| > 0 || Contains(barName, nodeName) || Contains(nodeName, barName)
  }

  /** `name` of a candidate node. */
  function NodeName(e: OsmElement): string
  {
    if e.tags.Some? then Tag(e.tags.value, "name").GetOr("") else ""
  }

  /** The `find` callback: the node is within 0.002 degrees on both axes and the names are similar. */
  predicate Matches(bar: Bar, e: OsmElement, parseFloat: string -> Float)
  {
    && CloseEnough(parseFloat(e.lat), bar.location.latitude)
    && CloseEnough(parseFloat(e.lon), bar.location.longitude)
    && IsNameSimilar(Normalize(bar.name), Normalize(NodeName(e)))
  }

  /** The `osmTags` object built from a node's tags: four `=== 'yes'` flags, `amenity` and `opening_hours`. */
  function TagsOf(tags: map<string, string>): OsmTags
  {
    OsmTags(
      map["real_ale" := IsYes(tags, "real_ale"), "real_fire" := IsYes(tags, "real_fire"),
          "dog" := IsYes(tags, "dog"), "wheelchair" := IsYes(tags, "wheelchair")],
      Tag(tags, "amenity"),
      Tag(tags, "opening_hours"),
      None)
  }

  /** The node `enrichBarWithOSMData` settles on: the first candidate, in array order, that matches. */
  function MatchedNode(bar: Bar, elements: seq<OsmElement>, parseFloat: string -> Float): Option<OsmElement>
  {
    Find(Filter(elements, IsCandidate), e => Matches(bar, e, parseFloat))
  }

  /** The bar as `enrichBarWithOSMData(bar, osmData)` leaves it. */
  function Enriched(bar: Bar, osmData: Option<OsmData>, parseFloat: string -> Float): Bar
  {
    if osmData.None? || osmData.value.elements.None? then bar
    else
      var node := MatchedNode(bar, osmData.value.elements.value, parseFloat);
      if node.Some? && node.value.tags.Some? then bar.(osmTags := Some(TagsOf(node.value.tags.value)))
      else bar
  }

  /** A `Bar` object the caller holds a reference to. */
  class BarObject {
    var value: Bar

    constructor(bar: Bar)
      ensures value == bar
    {
      value := bar;
    }
  }

  /** `enrichBarWithOSMData(bar, osmData)`: overwrites `bar.osmTags` on a match and returns the same object. */
  method EnrichBarWithOsmData(bar: BarObject, osmData: Option<OsmData>, parseFloat: string -> Float)
    returns (r: BarObject)
    modifies bar
    ensures r == bar
    ensures bar.value == Enriched(old(bar.value), osmData, parseFloat)
  {
    if osmData.None? || osmData.value.elements.None? {
      return bar;
    }
    var current := bar.value;
    var validNodes := Filter(osmData.value.elements.value, IsCandidate);
    var osmNode := Find(validNodes, e => Matches(current, e, parseFloat));
    if osmNode.Some? && osmNode.value.tags.Some? {
      bar.value := bar.value.(osmTags := Some(TagsOf(osmNode.value.tags.value)));
    }
    return bar;
  }

  /** Without a response, or without its `elements`, the bar is untouched. */
  lemma NoDataLeavesBar(bar: Bar, osmData: Option<OsmData>, parseFloat: string -> Float)
    requires osmData.None? || osmData.value.elements.None?
    ensures Enriched(bar, osmData, parseFloat) == bar
  {
  }

  /** Enrichment changes `osmTags` and nothing else; when it changes it, the new tags come from one candidate node that matches. */
  lemma OnlyOsmTagsChange(bar: Bar, osmData: Option<OsmData>, parseFloat: string -> Float)
    ensures var r := Enriched(bar, osmData, parseFloat);
      r == bar.(osmTags := r.osmTags)
    ensures var r := Enriched(bar, osmData, parseFloat);
      r != bar ==>
        exists e :: e in osmData.value.elements.value && IsCandidate(e) && Matches(bar, e, parseFloat) &&
          r.osmTags == Some(TagsOf(e.tags.value))
  {
    var r := Enriched(bar, osmData, parseFloat);
    if r != bar {
      var elements := osmData.value.elements.value;
      var node := MatchedNode(bar, elements, parseFloat);
      var candidates := Filter(elements, IsCandidate);
      FilterSelects(elements, IsCandidate);
      assert node.value in candidates;
    }
  }

  /** The first element that is a matching candidate wins, whatever its distance compared with later ones. */
  lemma FirstMatchWins(bar: Bar, elements: seq<OsmElement>, parseFloat: string -> Float, i: nat)
    requires i < |elements| && IsCandidate(elements[i]) && Matches(bar, elements[i], parseFloat)
    requires forall j :: 0 <= j < i ==> !(IsCandidate(elements[j]) && Matches(bar, elements[j], parseFloat))
    ensures Enriched(bar, Some(OsmData(Some(elements))), parseFloat) == bar.(osmTags := Some(TagsOf(elements[i].tags.value)))
  {
    var both := e => IsCandidate(e) && Matches(bar, e, parseFloat);
    FindAfterFilter(elements, IsCandidate, e => Matches(bar, e, parseFloat), both);
    FindFirst(elements, both, i);
  }

  /** With no element that is a matching candidate, the bar is untouched. */
  lemma NoMatchLeavesBar(bar: Bar, elements: seq<OsmElement>, parseFloat: string -> Float)
    requires forall j :: 0 <= j < |elements| ==> !(IsCandidate(elements[j]) && Matches(bar, elements[j], parseFloat))
    ensures Enriched(bar, Some(OsmData(Some(elements))), parseFloat) == bar
  {
    var both := e => IsCandidate(e) && Matches(bar, e, parseFloat);
    FindAfterFilter(elements, IsCandidate, e => Matches(bar, e, parseFloat), both);
  }

  /** A matched bar's tags are exactly the node's: each flag is true only for the value `yes`, and `features` is gone. */
  lemma MatchedTagsAreYesFlags(tags: map<string, string>)
    ensures TagsOf(tags).flags.Keys == {"real_ale", "real_fire", "dog", "wheelchair"}
    ensures forall k :: k in TagsOf(tags).flags ==> (TagsOf(tags).flags[k] <==> k in tags && tags[k] == "yes")
    ensures TagsOf(tags).amenity == Tag(tags, "amenity") && TagsOf(tags).openingHours == Tag(tags, "opening_hours")
    ensures TagsOf(tags).features.None?
  {
  }

  /** Replacing the tags drops `features`, so a bar enriched from a matching node fails every feature filter. */
  lemma EnrichedBarHasNoFeatures(bar: Bar, osmData: Option<OsmData>, parseFloat: string -> Float, feature: string)
    ensures Enriched(bar, osmData, parseFloat) != bar ==> !HasFeature(Enriched(bar, osmData, parseFloat), feature)
  {
  }

  /** Normalising a normalised name changes nothing. */
  lemma NormalizeIdempotent(s: string)
    ensures Normalize(Normalize(s)) == Normalize(s)
  {
    var n := Normalize(s);
    assert ToLower(n) == n;
    FilterKeepsAll(n, IsLowerAlnum);
  }

  /** The significant words of a normalised name: the name itself when it is longer than two characters, otherwise none. */
  lemma SignificantWordsOfNormalized(name: string)
    requires forall i :: 0 <= i < |name| ==> IsLowerAlnum(name[i])
    ensures SignificantWords(name) == if |name| > 2 then [name] else []
  {
    assert forall i :: 0 <= i < |name| ==> !IsWhitespace(name[i]);
    SplitOnWhitespaceWithout(name);
  }

  /**
   * Name similarity reduces to containment one way or the other: normalised names carry no
   * whitespace, so the shared-word test only ever finds two equal names.
   */
  lemma SimilarIsContainment(barName: string, nodeName: string)
    ensures IsNameSimilar(Normalize(barName), Normalize(nodeName)) <==>
      Contains(Normalize(barName), Normalize(nodeName)) || Contains(Normalize(nodeName), Normalize(barName))
  {
    var b, n := Normalize(barName), Normalize(nodeName);
    SignificantWordsOfNormalized(b);
    SignificantWordsOfNormalized(n);
    var sharedWords := Filter(SignificantWords(b), w => w in SignificantWords(n));
    if |sharedWords| > 0 {
      assert b == n;
      ContainsAt(b, n, 0);
      assert b[0..|n|] == b;
    }
  }

  /** A bar whose name normalises to nothing, such as one written only in punctuation, is similar to every node. */
  lemma EmptyNameMatchesEveryName(barName: string, nodeName: string)
    requires Normalize(barName) == []
    ensures IsNameSimilar(Normalize(barName), Normalize(nodeName))
  {
    assert StartsWith(Normalize(nodeName), []);
  }

  // ---------------------------------------------------------------- osmNodeToBar

  /** What `osmNodeToBar` does with a node: `null`, a bar, or a `TypeError` from reading `tags.name` of an untagged node. */
  datatype Conversion = NullBar | Converted(bar: Bar) | ThrowsTypeError

  /** `"osm-" + node.id` */
  function OsmId(id: nat): string
  {
    "osm-" + NatToString(id)
  }

  /** `a || b` on tag values: the first truthy one, else `fallback`. */
  function FirstTruthy(a: Option<string>, b: Option<string>, fallback: string): string
  {
    if Truthy(a) then a.value else if Truthy(b) then b.value else fallback
  }

  /** `osmNodeToBar(node)` */
  function OsmNodeToBar(node: OsmElement, parseFloat: string -> Float): Conversion
  {
    var lat := parseFloat(node.lat);
    var lon := parseFloat(node.lon);
    if lat.NaN? || lon.NaN? then NullBar
    else if node.tags.None? then ThrowsTypeError
    else
      var tags := node.tags.value;
      var address := FirstTruthy(Tag(tags, "addr:full"), Tag(tags, "addr:street"), "");
      var amenity := Tag(tags, "amenity");
      Converted(Bar(
        OsmId(node.id),
        FirstTruthy(Tag(tags, "name"), None, "Unnamed"),
        Location(lat, lon),
        address,
        None,
        None,
        OsmId(node.id),
        [],
        None,
        address,
        if Truthy(amenity) then [amenity.value] else [],
        Some(TagsOf(tags)),
        None))
  }

  /** `osmNodeToBar` answers `null` exactly when a coordinate parses to NaN; it checks them before touching `tags`. */
  lemma NullExactlyOnNaN(node: OsmElement, parseFloat: string -> Float)
    ensures OsmNodeToBar(node, parseFloat).NullBar? <==> parseFloat(node.lat).NaN? || parseFloat(node.lon).NaN?
    ensures OsmNodeToBar(node, parseFloat).ThrowsTypeError? <==>
      parseFloat(node.lat).Num? && parseFloat(node.lon).Num? && node.tags.None?
  {
  }

  /** The fields of a converted node, as the node's tags determine them. */
  lemma ConvertedFields(node: OsmElement, parseFloat: string -> Float)
    requires OsmNodeToBar(node, parseFloat).Converted?
    ensures var bar, t := OsmNodeToBar(node, parseFloat).bar, node.tags.value;
      && bar.id == bar.placeId == OsmId(node.id)
      && bar.location == Location(parseFloat(node.lat), parseFloat(node.lon))
      && bar.location.latitude.Num? && bar.location.longitude.Num?
      && bar.name == (if Truthy(Tag(t, "name")) then t["name"] else "Unnamed")
      && bar.address == (if Truthy(Tag(t, "addr:full")) then t["addr:full"]
                         else if Truthy(Tag(t, "addr:street")) then t["addr:street"] else "")
      && bar.vicinity == bar.address
      && bar.types == (if Truthy(Tag(t, "amenity")) then [t["amenity"]] else [])
      && bar.osmTags == Some(TagsOf(t))
      && bar.rating.None? && bar.priceLevel.None? && bar.isOpen.None? && bar.photos == []
  {
  }

  /** The node id can be read back from the bar id: `parseInt` of what follows `osm-`. */
  lemma OsmIdRoundTrip(id: nat)
    ensures |OsmId(id)| > 4 && OsmId(id)[..4] == "osm-"
    ensures ParseInt(OsmId(id)[4..]) == Some(id)
  {
    assert OsmId(id)[4..] == NatToString(id);
    ParseIntOfNatToString(id);
  }

  /** Distinct nodes give bars with distinct ids. */
  lemma OsmIdInjective(m: nat, n: nat)
    requires m != n
    ensures OsmId(m) != OsmId(n)
  {
    OsmIdRoundTrip(m);
    OsmIdRoundTrip(n);
  }
}
