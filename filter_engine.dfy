/**
 * The filter engine of src/utils/filterBars.ts: the type, rating, price, open-now, feature
 * and sunny checks that `filterBars` ANDs over a list of bars. The clock is a parameter.
 */
module FilterEngine {
  import opened JsValues
  import opened JsStrings
  import opened JsArrays
  import opened BarModel
  import opened OpeningHours

  /** `filter.type`: 'pub' or 'bar'. */
  datatype VenueKind = PubKind | BarKind

  /** `BarFilter`; every boolean option that is `undefined` is `false` here. */
  datatype BarFilter = BarFilter(
    kind: Option<VenueKind>,
    minRating: Option<real>,
    maxPriceLevel: Option<real>,
    openNow: bool,
    realAle: bool,
    realFire: bool,
    dog: bool,
    wheelchair: bool,
    garden: bool,
    food: bool,
    craftBeer: bool,
    liveMusic: bool,
    quizNight: bool,
    boardGames: bool,
    sundayRoast: bool,
    outdoorSeating: bool,
    dj: bool,
    streetFood: bool,
    nightlife: bool,
    cocktails: bool,
    sunny: bool)

  /** The empty filter `{}`. */
  const NoFilter: BarFilter := BarFilter(None, None, None, false,
    false, false, false, false, false, false, false, false,
    false, false, false, false, false, false, false, false, false)

  // ---------------------------------------------------------------- type

  /** Some entry of `types`, or `osmTags.amenity`, lower-cases to `word`. */
  predicate HasKind(bar: Bar, word: string)
  {
    || (exists i :: 0 <= i < |bar.types| && ToLower(bar.types[i]) == word)
    || (bar.osmTags.Some? && bar.osmTags.value.amenity.Some? && ToLower(bar.osmTags.value.amenity.value) == word)
  }

  /** `isPub` */
  predicate IsPub(bar: Bar)
  {
    HasKind(bar, "pub")
  }

  /** `isBar` */
  predicate IsBar(bar: Bar)
  {
    HasKind(bar, "bar")
  }

  // ---------------------------------------------------------------- features

  /** `featureMap`: filter keys to the feature labels the features string carries. */
  const FeatureLabels: map<string, string> := map[
    "realAle" := "Real ale",
    "realFire" := "Fireplace",
    "dog" := "Dog-friendly",
    "wheelchair" := "Wheelchair",
    "garden" := "Garden",
    "food" := "Food menu",
    "craftBeer" := "Craft beer",
    "liveMusic" := "Live music",
    "quizNight" := "Trivia night",
    "boardGames" := "Board games",
    "sundayRoast" := "Sunday roast",
    "outdoorSeating" := "Outdoor seating",
    "dj" := "DJ",
    "streetFood" := "Street food",
    "nightlife" := "Nightlife",
    "cocktails" := "Cocktails"]

  /** `hasFeature(bar, feature)` */
  predicate HasFeature(bar: Bar, feature: string)
  {
    && bar.osmTags.Some?
    && bar.osmTags.value.features.Some?
    && |bar.osmTags.value.features.value| > 0
    && var features := TrimAll(Split(bar.osmTags.value.features.value, ','));
       feature in FeatureLabels && FeatureLabels[feature] in features
  }

  /** `hasFeature` is false without tags, without a features string, or for a key the map lacks. */
  lemma HasFeatureNeeds(bar: Bar, feature: string)
    ensures HasFeature(bar, feature) ==>
      bar.osmTags.Some? && bar.osmTags.value.features.Some? && feature in FeatureLabels
  {
  }

  /**
   * On a features string that joins trimmed, comma-free labels with ',', `hasFeature` is an
   * exact, case-sensitive membership test of the mapped label.
   */
  lemma {:induction false} HasFeatureOfLabels(bar: Bar, labels: seq<string>, feature: string)
    requires labels != []
    requires forall i :: 0 <= i < |labels| ==> ',' !in labels[i] && IsTrimmed(labels[i])
    requires bar.osmTags.Some? && bar.osmTags.value.features == Some(Join(labels, ','))
    ensures HasFeature(bar, feature) <==> feature in FeatureLabels && FeatureLabels[feature] in labels
  {
    var joined := Join(labels, ',');
    SplitJoin(labels, ',');
    forall i | 0 <= i < |labels| ensures Trim(labels[i]) == labels[i] {
      TrimSpec(labels[i]);
    }
    assert TrimAll(Split(joined, ',')) == labels;
    if joined == "" {
      assert labels == [""];
      assert forall k :: k in FeatureLabels ==> FeatureLabels[k] != "";
    }
  }

  // ---------------------------------------------------------------- filterBars

  /** The type check: `filter.type` unset, or the bar is a pub (bar) when it asks for one. */
  predicate PassesType(bar: Bar, f: BarFilter)
  {
    match f.kind
    case None => true
    case Some(PubKind) => IsPub(bar)
    case Some(BarKind) => IsBar(bar)
  }

  /** `bar.osmTags?.opening_hours` */
  function HoursOf(bar: Bar): Option<string>
  {
    if bar.osmTags.Some? then bar.osmTags.value.openingHours else None
  }

  /** `filter.minRating`: a bar without a rating counts as rated 0. */
  predicate PassesRating(bar: Bar, f: BarFilter)
  {
    f.minRating.None? || !(bar.rating.GetOr(0.0) < f.minRating.value)
  }

  /** `filter.maxPriceLevel`: a bar without a price level counts as level 99. */
  predicate PassesPrice(bar: Bar, f: BarFilter)
  {
    f.maxPriceLevel.None? || !(bar.priceLevel.GetOr(99.0) > f.maxPriceLevel.value)
  }

  /** `filter.openNow`: the bar's OSM opening hours say it is open at `now`. */
  predicate PassesOpenNow(bar: Bar, f: BarFilter, now: Now)
  {
    f.openNow ==> OpenAt(HoursOf(bar), now)
  }

  /** The sixteen feature checks, in order; `garden` asks for the key 'Outdoor seating'. */
  predicate PassesFeatures(bar: Bar, f: BarFilter)
  {
    && (f.realAle ==> HasFeature(bar, "realAle"))
    && (f.realFire ==> HasFeature(bar, "realFire"))
    && (f.dog ==> HasFeature(bar, "dog"))
    && (f.wheelchair ==> HasFeature(bar, "wheelchair"))
    && (f.garden ==> HasFeature(bar, "Outdoor seating"))
    && (f.food ==> HasFeature(bar, "food"))
    && (f.craftBeer ==> HasFeature(bar, "craftBeer"))
    && (f.liveMusic ==> HasFeature(bar, "liveMusic"))
    && (f.quizNight ==> HasFeature(bar, "quizNight"))
    && (f.boardGames ==> HasFeature(bar, "boardGames"))
    && (f.sundayRoast ==> HasFeature(bar, "sundayRoast"))
    && (f.outdoorSeating ==> HasFeature(bar, "outdoorSeating"))
    && (f.dj ==> HasFeature(bar, "dj"))
    && (f.streetFood ==> HasFeature(bar, "streetFood"))
    && (f.nightlife ==> HasFeature(bar, "nightlife"))
    && (f.cocktails ==> HasFeature(bar, "cocktails"))
  }

  /** `filter.sunny`: `isInSun` is set and true. */
  predicate PassesSunny(bar: Bar, f: BarFilter)
  {
    f.sunny ==> bar.isInSun == Some(true)
  }

  /** The callback `filterBars` hands to `Array.filter`: every active check passes. */
  predicate Keep(bar: Bar, f: BarFilter, now: Now)
  {
    && PassesType(bar, f)
    && PassesRating(bar, f)
    && PassesPrice(bar, f)
    && PassesOpenNow(bar, f, now)
    && PassesFeatures(bar, f)
    && PassesSunny(bar, f)
  }

  /**
   * `filterBars(bars, filter)` at the local time `now`: the bars every active check accepts, in
   * their original order, each as often as it occurs.
   */
  function FilterBars(bars: seq<Bar>, f: BarFilter, now: Now): (r: seq<Bar>)
    ensures IsSubsequence(r, bars)
    ensures forall b :: b in r <==> b in bars && Keep(b, f, now)
    ensures forall b :: multiset(r)[b] == if Keep(b, f, now) then multiset(bars)[b] else 0
  {
    var keep := b => Keep(b, f, now);
    FilterSelects(bars, keep);
    Filter(bars, keep)
  }

  /** The empty filter `{}` turns every check off. */
  lemma NoFilterKeeps(bar: Bar, now: Now)
    ensures Keep(bar, NoFilter, now)
  {
  }

  /** The empty filter `{}` returns every bar. */
  lemma EmptyFilterKeepsAll(bars: seq<Bar>, now: Now)
    ensures FilterBars(bars, NoFilter, now) == bars
  {
    forall b | b in bars ensures Keep(b, NoFilter, now) {
      NoFilterKeeps(b, now);
    }
    FilterKeepsAll(bars, b => Keep(b, NoFilter, now));
  }

  /** With `minRating` set, a bar without a rating is judged as rated 0. */
  lemma MissingRatingCountsAsZero(bar: Bar, f: BarFilter)
    requires f.minRating.Some?
    ensures PassesRating(bar, f) <==>
      if bar.rating.Some? then bar.rating.value >= f.minRating.value else f.minRating.value <= 0.0
  {
  }

  /** With `maxPriceLevel` set, a bar without a price level is judged as level 99, so any threshold below 99 drops it. */
  lemma MissingPriceCountsAsNinetyNine(bar: Bar, f: BarFilter)
    requires f.maxPriceLevel.Some?
    ensures PassesPrice(bar, f) <==>
      if bar.priceLevel.Some? then bar.priceLevel.value <= f.maxPriceLevel.value else f.maxPriceLevel.value >= 99.0
  {
  }

  /** A kept bar passes each check the filter turns on. */
  lemma KeptBarPassesActiveChecks(bar: Bar, f: BarFilter, now: Now)
    requires Keep(bar, f, now)
    ensures f.kind == Some(PubKind) ==> IsPub(bar)
    ensures f.kind == Some(BarKind) ==> IsBar(bar)
    ensures f.minRating.Some? ==> bar.rating.GetOr(0.0) >= f.minRating.value
    ensures f.maxPriceLevel.Some? ==> bar.priceLevel.GetOr(99.0) <= f.maxPriceLevel.value
    ensures f.openNow ==> OpenAt(HoursOf(bar), now) && bar.osmTags.Some? && bar.osmTags.value.openingHours.Some?
    ensures f.sunny ==> bar.isInSun == Some(true)
    ensures f.realAle ==> HasFeature(bar, "realAle")
    ensures f.realFire ==> HasFeature(bar, "realFire")
    ensures f.dog ==> HasFeature(bar, "dog")
    ensures f.wheelchair ==> HasFeature(bar, "wheelchair")
    ensures !f.garden
    ensures f.food ==> HasFeature(bar, "food")
    ensures f.craftBeer ==> HasFeature(bar, "craftBeer")
    ensures f.liveMusic ==> HasFeature(bar, "liveMusic")
    ensures f.quizNight ==> HasFeature(bar, "quizNight")
    ensures f.boardGames ==> HasFeature(bar, "boardGames")
    ensures f.sundayRoast ==> HasFeature(bar, "sundayRoast")
    ensures f.outdoorSeating ==> HasFeature(bar, "outdoorSeating")
    ensures f.dj ==> HasFeature(bar, "dj")
    ensures f.streetFood ==> HasFeature(bar, "streetFood")
    ensures f.nightlife ==> HasFeature(bar, "nightlife")
    ensures f.cocktails ==> HasFeature(bar, "cocktails")
    ensures AnyFeatureRequested(f) ==> !LacksFeatures(bar)
  {
    assert PassesType(bar, f) && PassesRating(bar, f) && PassesPrice(bar, f);
    assert PassesOpenNow(bar, f, now) && PassesFeatures(bar, f) && PassesSunny(bar, f);
    assert "Outdoor seating" !in FeatureLabels;
  }

  /** `f` with its rating, price, open-now, sunny and type options cleared. */
  function Relaxed(f: BarFilter): BarFilter
  {
    f.(kind := None, minRating := None, maxPriceLevel := None, openNow := false, sunny := false)
  }

  /** Clearing an option only removes a check, so every bar the filter keeps the relaxed one keeps too. */
  lemma RelaxedKeepsMore(bar: Bar, f: BarFilter, now: Now)
    requires Keep(bar, f, now)
    ensures Keep(bar, Relaxed(f), now)
  {
    var g := Relaxed(f);
    assert PassesFeatures(bar, f);
    assert PassesType(bar, g) && PassesRating(bar, g) && PassesPrice(bar, g);
    assert PassesOpenNow(bar, g, now) && PassesSunny(bar, g);
  }

  /** The result of `filterBars` is the result under the relaxed filter, narrowed by the options set. */
  lemma FilterIsRelaxedThenNarrowed(bars: seq<Bar>, f: BarFilter, now: Now)
    ensures FilterBars(bars, f, now) == Filter(FilterBars(bars, Relaxed(f), now), b => Keep(b, f, now))
  {
    forall b | Keep(b, f, now) ensures Keep(b, Relaxed(f), now) {
      RelaxedKeepsMore(b, f, now);
    }
    FilterNarrowed(bars, b => Keep(b, Relaxed(f), now), b => Keep(b, f, now));
  }

  /** `garden` asks `hasFeature` for the key 'Outdoor seating', which `featureMap` lacks, so it rejects every bar. */
  lemma GardenFilterEmpty(bars: seq<Bar>, f: BarFilter, now: Now)
    requires f.garden
    ensures FilterBars(bars, f, now) == []
  {
    assert "Outdoor seating" !in FeatureLabels;
    FilterKeepsNone(bars, b => Keep(b, f, now));
  }

  /** Some feature option of the filter is set. */
  predicate AnyFeatureRequested(f: BarFilter)
  {
    || f.realAle || f.realFire || f.dog || f.wheelchair || f.garden || f.food || f.craftBeer || f.liveMusic
    || f.quizNight || f.boardGames || f.sundayRoast || f.outdoorSeating || f.dj || f.streetFood || f.nightlife
    || f.cocktails
  }

  /** A bar without `osmTags.features`, for which `hasFeature` is false whatever the key. */
  predicate LacksFeatures(bar: Bar)
  {
    bar.osmTags.None? || bar.osmTags.value.features.None?
  }

  /** A filter that asks for any feature drops every bar without a features string. */
  lemma NoFeaturesNoMatch(bars: seq<Bar>, f: BarFilter, now: Now)
    requires AnyFeatureRequested(f)
    requires forall i :: 0 <= i < |bars| ==> LacksFeatures(bars[i])
    ensures FilterBars(bars, f, now) == []
  {
    forall i | 0 <= i < |bars| ensures !PassesFeatures(bars[i], f) {
      HasFeatureNeedsFeatures(bars[i]);
    }
    FilterKeepsNone(bars, b => Keep(b, f, now));
  }

  lemma HasFeatureNeedsFeatures(bar: Bar)
    requires LacksFeatures(bar)
    ensures forall feature :: !HasFeature(bar, feature)
  {
  }

  /** With `openNow` set, a bar without opening hours is never kept, whatever the time. */
  lemma OpenNowNeedsHours(bars: seq<Bar>, f: BarFilter, now: Now)
    requires f.openNow
    requires forall i :: 0 <= i < |bars| ==> HoursOf(bars[i]).None?
    ensures FilterBars(bars, f, now) == []
  {
    FilterKeepsNone(bars, b => Keep(b, f, now));
  }

  /** `type: 'pub'` keeps a bar exactly when a type entry, or the OSM amenity, spells `pub` in any letter case. */
  lemma PubInAnyCase(bar: Bar)
    ensures IsPub(bar) <==>
      || (exists i :: 0 <= i < |bar.types| && SpellsIgnoringCase(bar.types[i], "pub"))
      || (bar.osmTags.Some? && bar.osmTags.value.amenity.Some? && SpellsIgnoringCase(bar.osmTags.value.amenity.value, "pub"))
  {
    forall i | 0 <= i < |bar.types| {
      LowerCaseEquals(bar.types[i], "pub");
    }
    if bar.osmTags.Some? && bar.osmTags.value.amenity.Some? {
      LowerCaseEquals(bar.osmTags.value.amenity.value, "pub");
    }
  }

  /** `type: 'bar'` keeps a bar exactly when a type entry, or the OSM amenity, spells `bar` in any letter case. */
  lemma BarInAnyCase(bar: Bar)
    ensures IsBar(bar) <==>
      || (exists i :: 0 <= i < |bar.types| && SpellsIgnoringCase(bar.types[i], "bar"))
      || (bar.osmTags.Some? && bar.osmTags.value.amenity.Some? && SpellsIgnoringCase(bar.osmTags.value.amenity.value, "bar"))
  {
    forall i | 0 <= i < |bar.types| {
      LowerCaseEquals(bar.types[i], "bar");
    }
    if bar.osmTags.Some? && bar.osmTags.value.amenity.Some? {
      LowerCaseEquals(bar.osmTags.value.amenity.value, "bar");
    }
  }

  /**
   * The two bars of the `filterBars` test, neither with `osmTags`: the filter
   * `{ type: 'pub', minRating: 4.0, openNow: true }` keeps neither, because neither has opening hours.
   */
  lemma OpenNowTestKeepsNone(now: Now)
    ensures var bars := [
        Bar("1", "The Dog Pub", Location(Num(0.0), Num(0.0)), "123 Main St", Some(4.5), Some(true), "abc", [],
            Some(2.0), "Nearby", ["pub", "bar"], None, None),
        Bar("2", "Cocktail Bar", Location(Num(0.0), Num(0.0)), "456 Side St", Some(3.8), Some(false), "def", [],
            Some(3.0), "Nearby", ["bar"], None, None)];
      FilterBars(bars, NoFilter.(kind := Some(PubKind), minRating := Some(4.0), openNow := true), now) == []
  {
    var bars := [
        Bar("1", "The Dog Pub", Location(Num(0.0), Num(0.0)), "123 Main St", Some(4.5), Some(true), "abc", [],
            Some(2.0), "Nearby", ["pub", "bar"], None, None),
        Bar("2", "Cocktail Bar", Location(Num(0.0), Num(0.0)), "456 Side St", Some(3.8), Some(false), "def", [],
            Some(3.0), "Nearby", ["bar"], None, None)];
    OpenNowNeedsHours(bars, NoFilter.(kind := Some(PubKind), minRating := Some(4.0), openNow := true), now);
  }
}
