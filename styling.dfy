/**
 * The per-feature presentation choices both scripts make from a looked-up
 * temperature: the path's class attribute, its fill, and which of the two
 * tooltip forms `showTooltip` renders. The colour scale itself is left
 * uninterpreted: a fill either defers to it with the temperature or is a
 * fixed colour.
 */
module Styling {
  import opened JsValues

  const BASE_CLASS := "country"
  const HAS_DATA_MARK := "country--has-data"
  const HAS_DATA_CLASS := BASE_CLASS + " " + HAS_DATA_MARK
  const NO_DATA_FILL := "#dbeafe"

  /** A path fill: `colorScale(celsius)`, or a literal colour. */
  datatype Fill = Scaled(celsius: real) | Solid(colour: string)

  /** The two tooltip forms: the name with a reading, or the name with
      'Data unavailable'. The reading's `toFixed(2)` formatting is not modelled. */
  datatype Tooltip = Reading(caption: string, celsius: real) | DataUnavailable(caption: string)

  /** `hasData ? 'country country--has-data' : 'country'` */
  function ClassFor(hasData: bool): (r: string)
    ensures r == HAS_DATA_CLASS <==> hasData
    ensures r == BASE_CLASS <==> !hasData
  {
    if hasData then HAS_DATA_CLASS else BASE_CLASS
  }

  /** `value != null ? colorScale(value) : '#dbeafe'` */
  function FillFor(value: Option<real>): (r: Fill)
    ensures r == Solid(NO_DATA_FILL) <==> value.None?
    ensures value.Some? ==> r == Scaled(value.value)
  {
    match value
    case Some(t) => Scaled(t)
    case None => Solid(NO_DATA_FILL)
  }

  /** `showTooltip`'s choice of content, with `${countryName}` as `String(name)`. */
  function TooltipFor(name: JsVal, value: Option<real>): (r: Tooltip)
    ensures r.DataUnavailable? <==> value.None?
    ensures r.caption == ToJsString(name)
    ensures r.Reading? ==> value == Some(r.celsius)
  {
    match value
    case Some(t) => Reading(ToJsString(name), t)
    case None => DataUnavailable(ToJsString(name))
  }
}
