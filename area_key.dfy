/**
 * `getAreaKey` of src/utils/areaKey.ts: the cache key of a map area, `bar_data:` followed by the
 * latitude and the longitude each written by `toFixed(3)`. `toFixed` is modelled on the exact value
 * of the number, as Number.prototype.toFixed in section 21.1.3.3 of ECMA-262 states it.
 */
module AreaKey {
  import opened JsValues
  import opened JsStrings

  /** What `toFixed(3)` keeps of a number: NaN, or a sign and a count of thousandths. */
  datatype Rounded = NotANumber | Thousandths(negative: bool, count: nat)

  /**
   * The sign is taken first (so a small negative number keeps its `-`), then the magnitude goes to
   * the nearest thousandth, the larger one on a tie.
   */
  function Round3(x: Float): Rounded
  {
    match x
    case NaN => NotANumber
    case Num(v) =>
      var magnitude := if v < 0.0 then -v else v;
      Thousandths(v < 0.0, (magnitude * 1000.0 + 0.5).Floor)
  }

  /** Three decimal digits, with leading zeros. */
  function Pad3(r: nat): (s: string)
    requires r < 1000
    ensures |s| == 3 && AllDigits(s)
  {
    var tens := r / 10;
    [DigitChar(tens / 10), DigitChar(tens % 10), DigitChar(r % 10)]
  }

  /** A count of thousandths as `toFixed(3)` writes it: the whole part, `.`, and three digits. */
  function UnsignedText(count: nat): string
  {
    NatToString(count / 1000) + "." + Pad3(count % 1000)
  }

  /** The text `toFixed(3)` writes for a rounded value: `NaN`, or the sign and the unsigned text. */
  function FixedText(r: Rounded): string
  {
    match r
    case NotANumber => "NaN"
    case Thousandths(negative, count) => (if negative then "-" else "") + UnsignedText(count)
  }

  /** `x.toFixed(3)` */
  function Fixed3(x: Float): string
  {
    FixedText(Round3(x))
  }

  /** The part of the key before the first `:`. */
  const KeyPrefix: string := "bar_data"

  /** `getAreaKey(latitude, longitude)`: `bar_data:${lat}:${lng}` */
  function GetAreaKey(latitude: Float, longitude: Float): string
  {
    KeyPrefix + ":" + Fixed3(latitude) + ":" + Fixed3(longitude)
  }

  /** The count of thousandths is the one nearest to the magnitude, the larger one on a tie. */
  lemma Round3Nearest(v: real)
    ensures var magnitude := if v < 0.0 then -v else v;
      && Round3(Num(v)).negative == (v < 0.0)
      && (Round3(Num(v)).count as real) - 0.5 <= magnitude * 1000.0 < (Round3(Num(v)).count as real) + 0.5
  {
  }

  /** The formatted number holds no `:`: it is `NaN`, or a sign, digits and one `.`. */
  lemma FixedTextHasNoColon(r: Rounded)
    ensures ':' !in FixedText(r)
  {
    if r.Thousandths? {
      var whole, fraction := NatToString(r.count / 1000), Pad3(r.count % 1000);
      assert ':' !in whole && ':' !in fraction by {
        assert forall i :: 0 <= i < |whole| ==> IsDigit(whole[i]);
        assert forall i :: 0 <= i < |fraction| ==> IsDigit(fraction[i]);
      }
      assert UnsignedText(r.count) == whole + "." + fraction;
    }
  }

  /** The key holds exactly two `:` characters: the one after `bar_data` and the one after the latitude. */
  lemma KeyHasTwoColons(latitude: Float, longitude: Float)
    ensures var key := GetAreaKey(latitude, longitude);
      forall i :: 0 <= i < |key| ==> (key[i] == ':' <==> i == 8 || i == 9 + |Fixed3(latitude)|)
  {
    var lat, lng := Fixed3(latitude), Fixed3(longitude);
    FixedTextHasNoColon(Round3(latitude));
    FixedTextHasNoColon(Round3(longitude));
    assert |KeyPrefix| == 8 && forall i :: 0 <= i < 8 ==> KeyPrefix[i] != ':';
    var key := KeyPrefix + ":" + lat + ":" + lng;
    assert key == GetAreaKey(latitude, longitude);
    forall i | 0 <= i < |key|
      ensures key[i] == ':' <==> i == 8 || i == 9 + |lat|
    {
      if i < 8 {
        assert key[i] == KeyPrefix[i];
      } else if 8 < i < 9 + |lat| {
        assert key[i] == lat[i - 9];
      } else if i > 9 + |lat| {
        assert key[i] == lng[i - 10 - |lat|];
      }
    }
  }

  /** Splitting the key on `:` gives back its three parts. */
  lemma KeyParts(latitude: Float, longitude: Float)
    ensures Split(GetAreaKey(latitude, longitude), ':') == [KeyPrefix, Fixed3(latitude), Fixed3(longitude)]
  {
    var lat, lng := Fixed3(latitude), Fixed3(longitude);
    FixedTextHasNoColon(Round3(latitude));
    FixedTextHasNoColon(Round3(longitude));
    assert ':' !in KeyPrefix;
    ThreeParts(KeyPrefix, lat, lng);
  }

  lemma ThreeParts(a: string, b: string, c: string)
    requires ':' !in a && ':' !in b && ':' !in c
    ensures Split(a + ":" + b + ":" + c, ':') == [a, b, c]
  {
    var parts := [a, b, c];
    assert Join([c], ':') == c;
    assert Join([b, c], ':') == b + ":" + c;
    assert Join(parts, ':') == a + ":" + (b + ":" + c);
    assert a + ":" + b + ":" + c == a + ":" + (b + ":" + c);
    SplitJoin(parts, ':');
  }

  lemma Pad3Injective(r1: nat, r2: nat)
    requires r1 < 1000 && r2 < 1000 && Pad3(r1) == Pad3(r2)
    ensures r1 == r2
  {
    var t1, t2 := r1 / 10, r2 / 10;
    assert DigitValue(Pad3(r1)[0]) == t1 / 10 && DigitValue(Pad3(r2)[0]) == t2 / 10;
    assert DigitValue(Pad3(r1)[1]) == t1 % 10 && DigitValue(Pad3(r2)[1]) == t2 % 10;
    assert DigitValue(Pad3(r1)[2]) == r1 % 10 && DigitValue(Pad3(r2)[2]) == r2 % 10;
    assert t1 == t2;
  }

  /** The unsigned text starts with a digit, and the whole part ends four characters before its end. */
  lemma UnsignedParts(count: nat)
    ensures var text := UnsignedText(count);
      && |text| >= 5
      && IsDigit(text[0])
      && text[..|text| - 4] == NatToString(count / 1000)
      && text[|text| - 3..] == Pad3(count % 1000)
  {
  }

  lemma UnsignedTextInjective(c1: nat, c2: nat)
    requires UnsignedText(c1) == UnsignedText(c2)
    ensures c1 == c2
  {
    UnsignedParts(c1);
    UnsignedParts(c2);
    NatToStringInjective(c1 / 1000, c2 / 1000);
    Pad3Injective(c1 % 1000, c2 % 1000);
  }

  /** A signed text starts with `-` exactly when it is negative, and the rest is the unsigned text. */
  lemma SignedParts(negative: bool, count: nat)
    ensures var text := FixedText(Thousandths(negative, count));
      && |text| > 0
      && (text[0] == '-' <==> negative)
      && text[if negative then 1 else 0..] == UnsignedText(count)
      && text != "NaN"
  {
    var text, unsigned := FixedText(Thousandths(negative, count)), UnsignedText(count);
    UnsignedParts(count);
    if negative {
      assert text == "-" + unsigned;
      assert text[1..] == unsigned;
    } else {
      assert text == unsigned;
    }
    assert text[0] != 'N';
  }

  /** Distinct rounded values are written differently. */
  lemma FixedTextInjective(r1: Rounded, r2: Rounded)
    requires FixedText(r1) == FixedText(r2)
    ensures r1 == r2
  {
    if r1.Thousandths? {
      SignedParts(r1.negative, r1.count);
    }
    if r2.Thousandths? {
      SignedParts(r2.negative, r2.count);
    }
    if r1.Thousandths? && r2.Thousandths? {
      UnsignedTextInjective(r1.count, r2.count);
    }
  }

  /** Two coordinate pairs give the same key exactly when both coordinates round to the same thousandths. */
  lemma SameKeyIffSameRounding(lat1: Float, lng1: Float, lat2: Float, lng2: Float)
    ensures GetAreaKey(lat1, lng1) == GetAreaKey(lat2, lng2) <==>
      Round3(lat1) == Round3(lat2) && Round3(lng1) == Round3(lng2)
  {
    if GetAreaKey(lat1, lng1) == GetAreaKey(lat2, lng2) {
      KeyParts(lat1, lng1);
      KeyParts(lat2, lng2);
      FixedTextInjective(Round3(lat1), Round3(lat2));
      FixedTextInjective(Round3(lng1), Round3(lng2));
    }
  }

  /** A small negative number rounds to zero thousandths but keeps its sign: `(-0.0001).toFixed(3)` is `-0.000`. */
  lemma NegativeZero()
    ensures Fixed3(Num(-0.0001)) == "-0.000"
    ensures GetAreaKey(Num(-0.0001), Num(0.0)) != GetAreaKey(Num(0.0), Num(0.0))
  {
    assert Round3(Num(-0.0001)) == Thousandths(true, 0);
    assert Round3(Num(0.0)) == Thousandths(false, 0);
    assert NatToString(0) == "0";
    assert Pad3(0) == "000";
    SameKeyIffSameRounding(Num(-0.0001), Num(0.0), Num(0.0), Num(0.0));
  }
}
