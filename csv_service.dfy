/**
 * The CSV side of src/services/csvService.ts: one row of the venues CSV to a bar
 * (`parseCSVVenue`), and the loop of `loadCSVVenues` over the lines of the already fetched
 * text. Number parsing is a parameter.
 */
module CsvService {
  import opened JsValues
  import opened JsStrings
  import opened JsArrays
  import opened BarModel
  import opened FilterEngine
  import opened OpeningHours

  /** `CSVVenue`: the twelve columns of a row, by position. */
  datatype CsvVenue = CsvVenue(
    name: string,
    latitude: string,
    longitude: string,
    address: string,
    postcode: string,
    phone: string,
    alternativeNames: string,
    venueType: string,
    openingHours: string,
    website: string,
    description: string,
    features: string)

  /** `s.toLowerCase().replace(/[^a-z0-9]/g, '-')`: one character for one, never collapsing runs. */
  function Slug(s: string): (r: string)
    ensures |r| == |s|
    ensures forall i :: 0 <= i < |s| ==>
      r[i] == if IsLowerAlnum(ToLowerChar(s[i])) then ToLowerChar(s[i]) else '-'
  {
    seq(|s|, i requires 0 <= i < |s| => if IsLowerAlnum(ToLowerChar(s[i])) then ToLowerChar(s[i]) else '-')
  }

  /** The id and the place id of a CSV venue: the slug of `name-postcode`. */
  function VenueSlug(v: CsvVenue): string
  {
    Slug(v.name + "-" + v.postcode)
  }

  /** `features.split(',').filter(Boolean)`: the comma-separated tokens, empty ones dropped, none trimmed. */
  function FeatureTokens(features: string): seq<string>
  {
    Filter(Split(features, ','), t => |t| > 0)
  }

  /** `parseCSVVenue(csvVenue)` */
  function ParseCsvVenue(v: CsvVenue, parseFloat: string -> Float): Bar
  {
    var features := FeatureTokens(v.features);
    Bar(
      VenueSlug(v),
      v.name,
      Location(parseFloat(v.latitude), parseFloat(v.longitude)),
      v.address,
      Some(4.0),
      Some(true),
      VenueSlug(v),
      [],
      Some(2.0),
      v.address,
      [v.venueType],
      Some(OsmTags(
        map["real_ale" := "real_ale" in features, "real_fire" := "fireplace" in features,
            "dog" := "dog_friendly" in features, "wheelchair" := "wheelchair" in features],
        Some(v.venueType),
        Some(v.openingHours),
        None)),
      None)
  }

  /** The venue taken, by position, from the comma fields of a line with at least twelve of them. */
  function RowVenue(values: seq<string>): CsvVenue
    requires |values| >= 12
  {
    CsvVenue(values[0], values[1], values[2], values[3], values[4], values[5],
             values[6], values[7], values[8], values[9], values[10], values[11])
  }

  /** A line the loop skips: empty or whitespace only. */
  predicate IsBlankLine(line: string)
  {
    |Trim(line)| == 0
  }

  /** A line that makes `parseCSVVenue` throw: its `features` column is `undefined`. */
  predicate IsShortLine(line: string)
  {
    !IsBlankLine(line) && |Split(line, ',')| < 12
  }

  /** No line of the given ones throws. */
  predicate NoShortLine(lines: seq<string>)
  {
    forall i :: 0 <= i < |lines| ==> !IsShortLine(lines[i])
  }

  /** One pass of the loop: a blank line is skipped, a short line throws, any other line yields its row. */
  function Step(prior: Option<seq<CsvVenue>>, line: string): (r: Option<seq<CsvVenue>>)
    ensures r.None? <==> prior.None? || IsShortLine(line)
  {
    var values := Split(line, ',');
    if prior.None? then None
    else if IsBlankLine(line) then prior
    else if |values| < 12 then None
    else Some(prior.value + [RowVenue(values)])
  }

  /**
   * The rows the loop has read from the given lines following the header, or `None` once one of
   * them has thrown.
   */
  function RowsOf(lines: seq<string>): Option<seq<CsvVenue>>
  {
    if lines == [] then Some([]) else Step(RowsOf(lines[..|lines| - 1]), lines[|lines| - 1])
  }

  lemma RowsOfSnoc(lines: seq<string>, line: string)
    ensures RowsOf(lines + [line]) == Step(RowsOf(lines), line)
  {
    assert (lines + [line])[..|lines|] == lines;
  }

  lemma NextLine(lines: seq<string>, i: nat)
    requires 1 <= i < |lines|
    ensures RowsOf(lines[1..i + 1]) == Step(RowsOf(lines[1..i]), lines[i])
    ensures lines[1..][..i] == lines[1..i + 1]
  {
    RowsOfSnoc(lines[1..i], lines[i]);
    assert lines[1..i] + [lines[i]] == lines[1..i + 1];
  }

  lemma StepSkips(rows: seq<CsvVenue>, line: string)
    requires IsBlankLine(line)
    ensures Step(Some(rows), line) == Some(rows)
  {
  }

  lemma StepThrows(rows: seq<CsvVenue>, line: string)
    requires IsShortLine(line)
    ensures Step(Some(rows), line) == None
  {
  }

  lemma StepPushes(rows: seq<CsvVenue>, line: string)
    requires !IsBlankLine(line) && |Split(line, ',')| >= 12
    ensures Step(Some(rows), line) == Some(rows + [RowVenue(Split(line, ','))])
  {
  }

  /** What `loadCSVVenues` returns for the text of the CSV file: the parsed venues, or `[]` once anything threw. */
  function CsvVenues(csvText: string, parseFloat: string -> Float): seq<Bar>
  {
    var rows := RowsOf(Split(csvText, '\n')[1..]);
    if rows.None? then [] else Map(rows.value, v => ParseCsvVenue(v, parseFloat))
  }

  /** The loop of `loadCSVVenues` over the text once fetched. */
  method LoadCsvVenues(csvText: string, parseFloat: string -> Float) returns (venues: seq<Bar>)
    ensures venues == CsvVenues(csvText, parseFloat)
  {
    var lines := Split(csvText, '\n');
    ghost var rows: seq<CsvVenue> := [];
    ghost var parse := v => ParseCsvVenue(v, parseFloat);
    venues := [];
    for i := 1 to |lines|
      invariant RowsOf(lines[1..i]) == Some(rows)
      invariant venues == Map(rows, parse)
    {
      NextLine(lines, i);
      if IsBlankLine(lines[i]) {
        StepSkips(rows, lines[i]);
        continue;
      }
      var values := Split(lines[i], ',');
      if |values| < 12 {
        StepThrows(rows, lines[i]);
        ThrowStops(lines[1..], i);
        return [];
      }
      var venue := RowVenue(values);
      StepPushes(rows, lines[i]);
      MapSnoc(rows, venue, parse);
      rows := rows + [venue];
      venues := venues + [ParseCsvVenue(venue, parseFloat)];
    }
    assert lines[1..|lines|] == lines[1..];
  }

  /** Once a line has thrown, no later line can bring the load back. */
  lemma {:induction false} ThrowStops(lines: seq<string>, n: nat)
    requires 0 < n <= |lines| && RowsOf(lines[..n]).None?
    ensures RowsOf(lines).None?
  {
    if n < |lines| {
      assert lines[..|lines| - 1][..n] == lines[..n];
      ThrowStops(lines[..|lines| - 1], n);
    } else {
      assert lines[..n] == lines;
    }
  }

  /** The load fails, and `loadCSVVenues` returns `[]`, exactly when some non-blank line after the header has fewer than twelve fields. */
  lemma {:induction false} LoadFailsExactlyOnShortLine(lines: seq<string>)
    ensures RowsOf(lines).None? <==> exists i :: 0 <= i < |lines| && IsShortLine(lines[i])
  {
    if lines != [] {
      var init, line := lines[..|lines| - 1], lines[|lines| - 1];
      LoadFailsExactlyOnShortLine(init);
      if exists i :: 0 <= i < |init| && IsShortLine(init[i]) {
        var i :| 0 <= i < |init| && IsShortLine(init[i]);
        assert lines[i] == init[i];
      }
      if exists i :: 0 <= i < |lines| && IsShortLine(lines[i]) {
        var i :| 0 <= i < |lines| && IsShortLine(lines[i]);
        if i < |init| {
          assert init[i] == lines[i];
        }
      }
    }
  }

  /** The rows taken, by position, from the comma fields of each of the given lines. */
  predicate ReadInOrder(rows: seq<CsvVenue>, lines: seq<string>)
  {
    && |rows| == |lines|
    && forall k :: 0 <= k < |lines| ==> |Split(lines[k], ',')| >= 12 && rows[k] == RowVenue(Split(lines[k], ','))
  }

  /** Without a short line, the load reads one row per non-blank line, in order, its fields taken by position. */
  lemma {:induction false} OneRowPerLine(lines: seq<string>)
    requires NoShortLine(lines)
    ensures RowsOf(lines).Some?
    ensures ReadInOrder(RowsOf(lines).value, Filter(lines, l => !IsBlankLine(l)))
  {
    var content := l => !IsBlankLine(l);
    if lines != [] {
      var init, line := lines[..|lines| - 1], lines[|lines| - 1];
      assert lines == init + [line];
      assert NoShortLine(init) && !IsShortLine(line) by {
        assert forall i :: 0 <= i < |init| ==> init[i] == lines[i];
      }
      OneRowPerLine(init);
      RowsOfSnoc(init, line);
      FilterAppend(init, [line], content);
      assert Filter([line], content) == if IsBlankLine(line) then [] else [line];
      ReadOneMore(RowsOf(init).value, Filter(init, content), line);
    }
  }

  lemma ReadOneMore(rows: seq<CsvVenue>, read: seq<string>, line: string)
    requires ReadInOrder(rows, read) && !IsShortLine(line)
    ensures Step(Some(rows), line).Some?
    ensures ReadInOrder(Step(Some(rows), line).value, read + if IsBlankLine(line) then [] else [line])
  {
    if !IsBlankLine(line) {
      StepPushes(rows, line);
      var rows', read' := rows + [RowVenue(Split(line, ','))], read + [line];
      assert forall k :: 0 <= k < |read| ==> read'[k] == read[k] && rows'[k] == rows[k];
    }
  }

  /** Without a short line, `loadCSVVenues` yields one venue per non-blank line, in order. */
  lemma OneVenuePerLine(csvText: string, parseFloat: string -> Float)
    requires NoShortLine(Split(csvText, '\n')[1..])
    ensures var content := Filter(Split(csvText, '\n')[1..], l => !IsBlankLine(l));
      && |CsvVenues(csvText, parseFloat)| == |content|
      && forall k :: 0 <= k < |content| ==>
           |Split(content[k], ',')| >= 12 &&
           CsvVenues(csvText, parseFloat)[k] == ParseCsvVenue(RowVenue(Split(content[k], ',')), parseFloat)
  {
    OneRowPerLine(Split(csvText, '\n')[1..]);
  }

  /** The id and the fixed fields of a venue parsed from a CSV row. */
  lemma CsvVenueFields(v: CsvVenue, parseFloat: string -> Float)
    ensures var bar := ParseCsvVenue(v, parseFloat);
      && bar.id == bar.placeId == Slug(v.name + "-" + v.postcode)
      && |bar.id| == |v.name| + 1 + |v.postcode|
      && (forall i :: 0 <= i < |bar.id| ==> IsLowerAlnum(bar.id[i]) || bar.id[i] == '-')
      && bar.vicinity == bar.address == v.address
      && bar.types == [v.venueType]
      && bar.osmTags.value.amenity == Some(v.venueType)
      && bar.osmTags.value.openingHours == Some(v.openingHours)
      && bar.rating == Some(4.0) && bar.priceLevel == Some(2.0) && bar.isOpen == Some(true) && bar.photos == []
  {
  }

  /** Slugging a slug changes nothing. */
  lemma SlugIdempotent(s: string)
    ensures Slug(Slug(s)) == Slug(s)
  {
    var t := Slug(s);
    assert forall i :: 0 <= i < |t| ==> ToLowerChar(t[i]) == t[i];
  }

  /** A features column of non-empty, comma-free tokens joined with ',' gives back exactly those tokens. */
  lemma FeatureTokensOfJoin(tokens: seq<string>)
    requires tokens != []
    requires forall i :: 0 <= i < |tokens| ==> |tokens[i]| > 0 && ',' !in tokens[i]
    ensures FeatureTokens(Join(tokens, ',')) == tokens
  {
    SplitJoin(tokens, ',');
    FilterKeepsAll(tokens, t => |t| > 0);
  }

  /** A non-empty token survives the dropping of empty ones exactly when the comma split produced it. */
  lemma TokenMembership(features: string, token: string)
    requires |token| > 0
    ensures token in FeatureTokens(features) <==> token in Split(features, ',')
  {
    FilterSelects(Split(features, ','), t => |t| > 0);
  }

  /** Each CSV flag is an exact test: `real_ale` is set only by a comma field spelled `real_ale`, with no space around it. */
  lemma FlagsAreExactTokens(v: CsvVenue, parseFloat: string -> Float)
    ensures var fields := Split(v.features, ',');
      ParseCsvVenue(v, parseFloat).osmTags.value.flags ==
        map["real_ale" := "real_ale" in fields, "real_fire" := "fireplace" in fields,
            "dog" := "dog_friendly" in fields, "wheelchair" := "wheelchair" in fields]
  {
    TokenMembership(v.features, "real_ale");
    TokenMembership(v.features, "fireplace");
    TokenMembership(v.features, "dog_friendly");
    TokenMembership(v.features, "wheelchair");
  }

  /** CSV venues carry no features string, so a filter that asks for any feature drops every one of them. */
  lemma CsvVenuesFailFeatureFilters(csvText: string, parseFloat: string -> Float, f: BarFilter, now: Now)
    requires AnyFeatureRequested(f)
    ensures FilterBars(CsvVenues(csvText, parseFloat), f, now) == []
  {
    NoFeaturesNoMatch(CsvVenues(csvText, parseFloat), f, now);
  }
}
