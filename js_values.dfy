/** The JavaScript values the venue pipeline passes around that have no native Dafny counterpart. */
module JsValues {

  /** A field that may be `undefined` (or `null`). */
  datatype Option<+T> = None | Some(value: T)
  {
    function GetOr(default: T): T
    {
      match this
      case Some(v) => v
      case None => default
    }
  }

  /**
   * A JavaScript number as the model sees it: an exact real, or NaN.
   * Rounding of double arithmetic and the infinities are not modelled.
   */
  datatype Float = Num(value: real) | NaN

  /** `record[key]`: `undefined` when the object has no such property. */
  function Tag(record: map<string, string>, key: string): Option<string>
  {
    if key in record then Some(record[key]) else None
  }

  /** A string value that is set and not the empty string, the only falsy string. */
  predicate Truthy(value: Option<string>)
  {
    value.Some? && |value.value| > 0
  }
}
