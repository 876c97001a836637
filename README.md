# Bar Radar core in Dafny

Bar Radar shows the pubs and bars near the user. This project models, in Dafny, the part of it
that decides which venues the user sees:

- **Filter engine** (`src/utils/filterBars.ts`) — `filterBars` ANDs the type, rating, price,
  open-now, feature and sunny checks over a list of bars. `isOpenNow` scans the
  `Day,Open,Close|…` opening-hours string and `parseTime` turns `4PM` or `10:30pm` into a minute of
  the day. These live in the modules `FilterEngine` and `OpeningHours`.
- **OSM enrichment** (`src/services/osmService.ts`) — `enrichBarWithOSMData` overwrites a bar's
  `osmTags`, in place, with those of the first nearby OpenStreetMap node whose name is similar.
  `osmNodeToBar` turns a node into a bar, into `null` or into a `TypeError`. Module `OsmService`.
- **CSV loading in the app** (`src/services/csvService.ts`) — `parseCSVVenue` builds a bar from a
  twelve-column row. The loop of `loadCSVVenues` skips blank lines, and a short line makes the
  whole load return `[]`. Module `CsvService`.
- **The venues service** (`venues-service/index.js`) — the `'data'` handler normalises each CSV
  row into a venue. `/venues/:id` looks a venue up, with a 404 when none has that id. `/venues`
  answers 400 without `lat`/`lng`; otherwise it lists the venues within the radius, which is 2000
  metres by default, leaving out those whose coordinates are NaN. Module `VenuesService`.
- **Cache keys** (`src/utils/areaKey.ts`) — `getAreaKey` writes `bar_data:<lat>:<lng>`, each
  coordinate by `toFixed(3)`. Module `AreaKey`.

### Support modules

- `JsValues` models JavaScript values: `Option`, a number that may be NaN, and a truthy string
  tag.
- `JsStrings` models the string built-ins: `split`, `join`, `trim`, `toLowerCase`, `includes`,
  `startsWith`, `parseInt`, `String(n)` and `replace` of one character.
- `JsArrays` models the array built-ins: `filter`, `map` (with and without the index) and `find`.
- `BarModel` holds the `Bar` record of `src/types.ts`.

### How the code is modelled

Code that the source writes as a loop or an in-place update is an imperative Dafny method, proved
against a specification function:

- `OpeningHours.ParseTime` corrects the hour step by step.
- `OpeningHours.IsOpenNow` and `OpeningHours.AnyPeriodOpen` loop over the periods.
- `OsmService.EnrichBarWithOsmData` mutates a `BarObject`.
- `CsvService.LoadCsvVenues` is the `for` loop over the lines.
- `VenuesService.VenueStore.LoadVenuesFromCsv` models both the `'data'`/`'end'` handlers and the
  module-level `venues` list they assign.

The rest is functions and lemmas.

### Behaviour of the code worth knowing

- **Feature tokens are not lower-cased.** The service only trims each token and replaces `_` with
  a space (`venues-service/index.js:48-51`). `ServiceVenueFeatures` shows the consequence. The service's flags look for lower-case labels such as `real ale`. The app's
  `hasFeature` looks for labels such as `Real ale`, comparing case-sensitively.
- **The garden filter is modelled as written, and it rejects every bar.** It asks `hasFeature`
  for the key `'Outdoor seating'`, which `featureMap` does not have (`GardenFilterEmpty`).
- **A window past midnight is tested only on the period's own day.** `isOpenNow` compares the
  period's day with today before looking at the times (`src/utils/filterBars.ts:83`, `97-98`).
  So `Friday,18:00,02:00` counts as open at 00:30 on Friday, and as closed at 01:00 on Saturday
  (`WrappedWindowStaysOnItsDay`, `OnlyOnItsOwnDay`).
- **Only full English day names match.** A period for `Mo` or `monday` is never open
  (`OnlyFullDayNames`).
- **One test expects a bar that the code drops.** The test at `src/utils/filterBars.test.ts:34-39`
  asks `{ type: 'pub', minRating: 4.0, openNow: true }` to keep one bar. Neither test bar has
  `osmTags`, so neither has opening hours, and `filterBars` keeps none of them
  (`OpenNowTestKeepsNone`).

## Model

| member | source | states |
|---|---|---|
| OpeningHours.ParseTime | src/utils/filterBars.ts:85-93 | The minute of the day the token denotes, or none when `parseInt` of the hour or of the minute gives NaN; the hour gets the `pm`, `am` and `12`-with-`p` corrections in the source's order |
| OpeningHours.IsOpenNow | src/utils/filterBars.ts:70-104 | The answer is the specification `OpenAt` of the hours string at the given local time |
| OpeningHours.AnyPeriodOpen | src/utils/filterBars.ts:80-102 | The loop answers true exactly when some `|`-separated period is open for today at the current minute |
| OpeningHours.CheckPeriod | src/utils/filterBars.ts:81-101 | One pass of the loop returns true exactly when the period has three non-empty fields, names today, both times parse and the window holds |
| OpeningHours.WindowIsCyclicInterval | src/utils/filterBars.ts:97-101 | The open-window test, including a close time past midnight, is membership of the half-open cyclic interval from open to close on a 1440-minute clock; a window with equal ends is never open |
| OpeningHours.ParseTimeOfFields | src/utils/filterBars.ts:85-93 | For any token whose stripped text is `H` or `H:M`, the result is the corrected hour times 60 plus the minute |
| OpeningHours.DigitFieldsParse | src/utils/filterBars.ts:87-88 | Digit fields are clock text, and `parseInt` reads back the number they denote |
| OpeningHours.MarkerSearch | src/utils/filterBars.ts:86-91 | An `am`/`pm` marker in any case is removed entirely, and the pm test holds exactly for a pm marker, the am test exactly for an am one |
| OpeningHours.MarkedClockText | src/utils/filterBars.ts:86-91 | Clock text followed by a marker loses only the marker, and the marker alone decides the am and pm tests |
| OpeningHours.TwelveHourClock | src/utils/filterBars.ts:85-93 | For hours 1 to 12 with an `am` or `pm` marker in any letter case, the token becomes the 24-hour time ((h mod 12) + 12 for pm) * 60 + m |
| OpeningHours.TwelveHourCorrection | src/utils/filterBars.ts:89-91 | With exactly one of am and pm, the three corrections send hour h to (h mod 12) plus 12 for pm |
| OpeningHours.UnmarkedClockText | src/utils/filterBars.ts:86-91 | Digits and colons are not stripped and trigger none of the letter tests |
| OpeningHours.UnmarkedToken | src/utils/filterBars.ts:85-93 | `H:M` without a marker is H * 60 + M, uncorrected |
| OpeningHours.TwentyFourHourClock | src/utils/filterBars.ts:85-93 | A digit token `H:M` is H * 60 + M on the 24-hour clock |
| OpeningHours.ParseTimeMidnight | src/utils/filterBars.ts:84-93 | `12AM` is minute 0 |
| OpeningHours.ParseTimeNoon | src/utils/filterBars.ts:84-93 | `12PM` is minute 720 |
| OpeningHours.ParseTimeFourPm | src/utils/filterBars.ts:84-93 | `4PM` is minute 960 |
| OpeningHours.ParseTimeHalfPastEleven | src/utils/filterBars.ts:84-93 | `11:30pm` is minute 1410 |
| OpeningHours.SinglePeriod | src/utils/filterBars.ts:70-104 | Hours holding one `Day,Open,Close` period are open exactly when the day is today's name, both times parse and the current minute lies in their window |
| OpeningHours.PeriodFields | src/utils/filterBars.ts:79-83 | The trimmed comma fields of a joined `Day,Open,Close` period are the three fields themselves |
| OpeningHours.OnePeriod | src/utils/filterBars.ts:79-102 | Hours without `|` are open exactly when their single period is |
| OpeningHours.OnlyFullDayNames | src/utils/filterBars.ts:74-83 | A period whose day is not one of the full English day names (`Mo`, `monday`) never opens |
| OpeningHours.OnlyOnItsOwnDay | src/utils/filterBars.ts:81-101 | A period whose day field is not today's name is never open, whatever the time, including the hours after midnight that follow its day |
| OpeningHours.EveningTime | src/utils/filterBars.ts:85-93 | `18:00` is minute 1080 |
| OpeningHours.NightTime | src/utils/filterBars.ts:85-93 | `02:00` is minute 120 |
| OpeningHours.WrappedWindowStaysOnItsDay | src/utils/filterBars.ts:79-103 | `Friday,18:00,02:00` is open at 00:30 on Friday and closed at 01:00 on Saturday |
| OpeningHours.AnyOfThePeriods | src/utils/filterBars.ts:79-102 | Hours joined from periods are open exactly when one of the periods is; a period with fewer than three comma fields never is |
| FilterEngine.HasFeatureOfLabels | src/utils/filterBars.ts:35-67 | `hasFeature` holds exactly when the key is in `featureMap` and its label is one of the trimmed comma fields of `osmTags.features` |
| FilterEngine.FilterBars | src/utils/filterBars.ts:106-180 | The result is the bars every active check accepts, in their original order (a subsequence), each kept bar as often as it occurs in the input |
| FilterEngine.NoFilterKeeps | src/utils/filterBars.ts:106-180 | The empty filter passes every bar through every check |
| FilterEngine.EmptyFilterKeepsAll | src/utils/filterBars.ts:106-180 | `filterBars(bars, {})` is `bars` |
| FilterEngine.MissingRatingCountsAsZero | src/utils/filterBars.ts:117-119 | With `minRating`, an unrated bar passes exactly when the minimum is at most 0 |
| FilterEngine.MissingPriceCountsAsNinetyNine | src/utils/filterBars.ts:122-124 | With `maxPriceLevel`, a bar without a price level passes exactly when the maximum is at least 99 |
| FilterEngine.KeptBarPassesActiveChecks | src/utils/filterBars.ts:109-176 | A kept bar has the requested type, meets the rating and price bounds, is open with hours present, is in the sun, and has each of the fifteen requested features that `featureMap` knows; no bar passes with `garden` set; any feature request needs a features string |
| FilterEngine.RelaxedKeepsMore | src/utils/filterBars.ts:109-130 | Clearing the type, rating, price, open-now and sunny options never drops a kept bar |
| FilterEngine.FilterIsRelaxedThenNarrowed | src/utils/filterBars.ts:106-180 | Filtering is the relaxed filtering narrowed by the full checks |
| FilterEngine.OpenNowTestKeepsNone | src/utils/filterBars.test.ts:5-39 | On the two test bars, which have no `osmTags`, the filter `{ type: 'pub', minRating: 4.0, openNow: true }` keeps nothing |
| FilterEngine.GardenFilterEmpty | src/utils/filterBars.ts:137-138 | With `garden` set the result is empty, because the key it asks for is not in `featureMap` |
| FilterEngine.NoFeaturesNoMatch | src/utils/filterBars.ts:133-171 | Any feature option drops every bar without a features string |
| FilterEngine.HasFeatureNeedsFeatures | src/utils/filterBars.ts:35-44 | Without `osmTags.features`, `hasFeature` is false for every key |
| FilterEngine.OpenNowNeedsHours | src/utils/filterBars.ts:127-130 | With `openNow`, bars without opening hours are never kept |
| FilterEngine.PubInAnyCase | src/utils/filterBars.ts:27-29 | `isPub` holds exactly when a type entry or the OSM amenity spells `pub` in any letter case |
| FilterEngine.BarInAnyCase | src/utils/filterBars.ts:31-33 | `isBar` holds exactly when a type entry or the OSM amenity spells `bar` in any letter case |
| OsmService.Normalize | src/services/osmService.ts:75-77 | The normalised name holds only lower-case ASCII letters and digits |
| OsmService.NormalizeSelects | src/services/osmService.ts:75-77 | The normalised name is the subsequence of the lower-cased name holding exactly its lower-case letters and digits, each as often as it occurs there |
| OsmService.EnrichBarWithOsmData | src/services/osmService.ts:47-124 | Returns the same object, whose bar becomes the specification `Enriched` of the old bar and the response |
| OsmService.NoDataLeavesBar | src/services/osmService.ts:48-51 | Without a response or without `elements` the bar is unchanged |
| OsmService.OnlyOsmTagsChange | src/services/osmService.ts:64-123 | Enrichment changes only `osmTags`, and a changed bar took its tags from a candidate node that matches it |
| OsmService.FirstMatchWins | src/services/osmService.ts:59-118 | The first matching candidate in array order supplies the tags, whatever later nodes are closer |
| OsmService.NoMatchLeavesBar | src/services/osmService.ts:64-118 | With no matching candidate the bar is unchanged |
| OsmService.MatchedTagsAreYesFlags | src/services/osmService.ts:104-118 | The new tags have exactly the four flags, each true exactly for the value `yes`; amenity and hours are copied, and `features` is absent |
| OsmService.EnrichedBarHasNoFeatures | src/services/osmService.ts:104-118 | An enriched bar fails `hasFeature` for every key |
| OsmService.NormalizeIdempotent | src/services/osmService.ts:75-77 | Normalising twice is normalising once |
| OsmService.SignificantWordsOfNormalized | src/services/osmService.ts:80-85 | A normalised name, having no spaces, is its own single significant word when longer than two characters, and has none otherwise |
| OsmService.SimilarIsContainment | src/services/osmService.ts:75-102 | Two normalised names are similar exactly when one contains the other: with no spaces left, the shared-word test only finds equal names |
| OsmService.EmptyNameMatchesEveryName | src/services/osmService.ts:75-102 | A bar name with no letters or digits is similar to every node name |
| OsmService.NullExactlyOnNaN | src/services/osmService.ts:126-160 | The conversion is `null` exactly when a coordinate is NaN, and throws exactly when the coordinates are numbers but the node has no tags |
| OsmService.ConvertedFields | src/services/osmService.ts:136-158 | A converted bar has id and place id `osm-<id>`; its coordinates are the parsed `lat` and `lon`; its name is the truthy `name`, else `Unnamed`; its address and vicinity are the truthy `addr:full`, else the truthy `addr:street`, else `''`; its types are `[amenity]` when the amenity is truthy, else empty; its `osmTags` are the four `yes` flags, amenity and hours of the node's tags; and it has no rating, price, open flag or photos |
| OsmService.OsmIdRoundTrip | src/services/osmService.ts:137 | The node id is read back by `parseInt` of what follows `osm-` |
| OsmService.OsmIdInjective | src/services/osmService.ts:137 | Distinct node ids give distinct bar ids |
| CsvService.Slug | src/services/csvService.ts:22 | The slug has the input's length, with each character lower-cased when it is an ASCII letter or digit and replaced by `-` otherwise |
| CsvService.Step | src/services/csvService.ts:59-77 | One pass fails exactly when an earlier pass failed or the line is short |
| CsvService.LoadCsvVenues | src/services/csvService.ts:47-85 | The loop returns the specification `CsvVenues` of the text: the parsed rows, or `[]` once a line threw |
| CsvService.ThrowStops | src/services/csvService.ts:58-84 | Once a line has thrown, no later line brings the load back |
| CsvService.LoadFailsExactlyOnShortLine | src/services/csvService.ts:58-84 | The load fails exactly when some non-blank line after the header has fewer than twelve fields |
| CsvService.OneRowPerLine | src/services/csvService.ts:58-78 | Without a short line the load reads one row per non-blank line, in order, its fields taken by position |
| CsvService.OneVenuePerLine | src/services/csvService.ts:47-85 | Without a short line `loadCSVVenues` yields one venue per non-blank line after the header, in order, parsed from that line's fields |
| CsvService.CsvVenueFields | src/services/csvService.ts:18-45 | A parsed venue has id and place id `Slug(name + "-" + postcode)`, as long as `name-postcode` and made of lower-case letters, digits and `-`; it has the row's address as address and vicinity, its venue type as only type and as amenity, its hours, rating 4, price level 2, open, and no photos |
| CsvService.SlugIdempotent | src/services/csvService.ts:22 | Slugging a slug changes nothing |
| CsvService.FeatureTokensOfJoin | src/services/csvService.ts:19 | Non-empty comma-free tokens joined by `,` split back into exactly those tokens |
| CsvService.TokenMembership | src/services/csvService.ts:19 | A non-empty token survives `filter(Boolean)` exactly when the comma split produced it |
| CsvService.FlagsAreExactTokens | src/services/csvService.ts:34-37 | The venue has exactly the four flags, each true exactly when a comma field is spelled exactly `real_ale`, `fireplace`, `dog_friendly` or `wheelchair` |
| CsvService.CsvVenuesFailFeatureFilters | src/services/csvService.ts:34-39 | CSV venues carry no features string, so any feature filter drops all of them |
| VenuesService.CleanTokens | venues-service/index.js:48-51 | Every cleaned token is non-empty and holds neither `,` nor `_` |
| VenuesService.FeaturesRoundTrip | venues-service/index.js:48-64 | Splitting the joined `features` string on `,` gives back the tokens (one empty string when there are none) |
| VenuesService.TokenFromField | venues-service/index.js:48-51 | A non-empty string is a token exactly when some comma field of `verified_features` cleans to it |
| VenuesService.NormalizedFields | venues-service/index.js:54-87 | The venue has id `String(index)`; its place id is the truthy `place_id`, else `venue-<index+1>`; its only type, also its amenity, is the lower-cased `venue_type_verified` when that is truthy, else `''`; it has no photos, price level 2, `isOpen` true, vicinity equal to address, and the row's hours |
| VenuesService.RatingKeptWhenNonZero | venues-service/index.js:84 | A rating is present exactly when it parses to a non-zero number, and then it is that number |
| VenuesService.FlagsFromFields | venues-service/index.js:65-80 | The venue has exactly the sixteen flags, each true exactly when some comma field cleans to its label |
| VenuesService.ServiceVenueFeatures | venues-service/index.js:48-64 | The app's `hasFeature` holds for a service venue exactly when the key's `featureMap` label is one of the cleaned tokens, compared case-sensitively |
| VenuesService.IdsUnique | venues-service/index.js:55 | Distinct rows get distinct ids |
| VenuesService.VenueStore.LoadVenuesFromCsv | venues-service/index.js:36-96 | The stored list is each row normalised at its position, in row order; the promise resolves exactly when there was at least one row |
| VenuesService.DetailsFindsFirst | venues-service/index.js:141-147 | `/venues/:id` answers the first venue with that id, and 404 exactly when none has it |
| VenuesService.DetailsOfLoaded | venues-service/index.js:141-147 | Over the loaded list, id `String(i)` answers the venue of row i |
| VenuesService.UnknownIdIs404 | venues-service/index.js:141-147 | Over the loaded list, an id that is not `String(i)` for a row i answers 404 `Venue not found` |
| VenuesService.MissingParametersAre400 | venues-service/index.js:110-114 | `/venues` answers 400 exactly when `lat` or `lng` is missing or empty |
| VenuesService.ListedVenues | venues-service/index.js:116-137 | Otherwise the list is a subsequence of the venues, holding exactly those with numeric coordinates within the radius |
| VenuesService.DefaultRadius | venues-service/index.js:110 | Leaving the radius out is the same as asking for 2000 |
| VenuesService.NaNRadiusListsNothing | venues-service/index.js:118-131 | A radius that parses to NaN lists nothing |
| VenuesService.NaNCentreListsNothing | venues-service/index.js:116-131 | When `lat` or `lng` parses to NaN and the distance of a NaN centre is NaN, nothing is listed |
| VenuesService.SmallerRadiusNarrows | venues-service/index.js:120-132 | A smaller radius lists what the larger one lists within it, in the same order |
| AreaKey.Round3Nearest | src/utils/areaKey.ts:2-3 | `toFixed(3)` keeps the sign and the count of thousandths nearest to the magnitude |
| AreaKey.FixedTextHasNoColon | src/utils/areaKey.ts:2-4 | A formatted coordinate never holds `:` |
| AreaKey.KeyHasTwoColons | src/utils/areaKey.ts:4 | The key holds `:` exactly after `bar_data` and after the latitude |
| AreaKey.KeyParts | src/utils/areaKey.ts:1-5 | Splitting a key on `:` gives back `bar_data` and the two formatted coordinates |
| AreaKey.FixedTextInjective | src/utils/areaKey.ts:2-3 | Distinct rounded values are written differently |
| AreaKey.SameKeyIffSameRounding | src/utils/areaKey.ts:1-5 | Two positions share a key exactly when both coordinates round to the same thousandths, with the same sign |
| AreaKey.NegativeZero | src/utils/areaKey.ts:2-4 | `(-0.0001).toFixed(3)` is `-0.000`, so it gets a key different from that of 0 |

## Left out

- Fetching and file I/O are not modelled; the models start from the text or rows once read:
  - `fetch` of the CSV asset (`src/services/csvService.ts:49-51`);
  - the Overpass request and its memoisation in `fetchOSMData` (`src/services/osmService.ts:4-45`);
  - the `fs` stream and `csv-parse` (`venues-service/index.js:40-41`).
- The `csv-parse` options are not modelled. Rows reach `NormalizeRow` already split into columns
  and trimmed, and quoted fields are not modelled.
- The CSV text in `CsvService` is split naively on `,`, as the source does, so quoting is left
  out there too.
- The Express server, its routes for `/` and for the start-up, and `res.json` are not modelled.
  Replies are the `Reply` datatype.
- Query values that are arrays (`?lat=1&lat=2`) are not modelled; each parameter is a string or
  missing.
- `parseFloat` is a parameter of the model. JavaScript's float parsing is not modelled.
- `haversine` (`venues-service/index.js:17-28`) is a parameter, because it is floating-point
  trigonometry.
- VenuesService.NaNCentreListsNothing: the fact that `haversine` gives NaN for a NaN centre is a
  precondition of the lemma, not proved, because the distance is a parameter.
- Numbers are exact reals or NaN. Floating-point rounding, infinities and `-0` are not modelled.
- AreaKey.Fixed3: does not model `toFixed` on magnitudes of 1e21 or more (written in exponent form)
  or on infinities, and rounds the exact real rather than the nearest double.
- The current time is a parameter (`Now`): the clock read by `new Date()` in `isOpenNow`.
- `isInSun` is taken as already computed. The sun-exposure service and SunCalc are not part of
  this model.
- `toLowerCase` is modelled for ASCII only. Other characters are unchanged, and strings are
  sequences of characters rather than UTF-16 code units.
- VenuesService.NormalizeRow: a row without a `name` or `full_address` column gives `""` here,
  where the source would leave the field `undefined`.
- Logging (`console.log`, `console.warn`) is not modelled.
- The demo block at the end of `src/utils/filterBars.ts` (lines 183-215) and the React components,
  hooks and `App.tsx` are not modelled.
- `filterVenueFields` (`venues-service/index.js:102-105`) is the identity and is not modelled.
- The `EXCLUDE_FIELDS` list the service declares is not modelled, because nothing uses it.
- The rejection path of `loadVenuesFromCSV` on a stream error is not modelled. An empty file's
  `Object.keys(venues[0])` throw is modelled as `resolved == false`.
