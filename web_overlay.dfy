/**
 * The country overlay of web/scripts/temperature-map.js. It differs from the
 * docs copy in code resolution (a third fallback on `feature.id`, no sentinel
 * test, no upper-casing, the raw value returned) and in looking the code up
 * in `temperatures` without a null guard.
 */
module WebOverlay {
  import opened JsValues
  import opened Features
  import opened Styling
  import opened Pins
  import opened SelectionList

  /** The fields `getIso3Code` tries, in priority order. */
  function CodeCandidates(f: Feature): seq<JsVal> {
    [IsoA3(f), Adm0A3(f), f.id]
  }

  /** `getIso3Code`: the first truthy of `iso_a3`, `adm0_a3`, `feature.id`,
      returned as it is, or null when none is truthy. */
  function GetIso3Code(f: Feature): (r: JsVal)
    ensures r == match FirstTruthy(CodeCandidates(f)) case Some(v) => v case None => Null
    ensures Truthy(r) || r == Null
  {
    OrChainIsFirstTruthy(CodeCandidates(f), Null);
    assert CodeCandidates(f)[..2] == [IsoA3(f), Adm0A3(f)];
    assert CodeCandidates(f)[..2][..1] == [IsoA3(f)];
    Or(Or(Or(IsoA3(f), Adm0A3(f)), f.id), Null)
  }

  /** No filtering and no case change: a string field chosen comes back
      verbatim, '-99' and lower case included, and only when no field is
      truthy is the result null. */
  lemma Iso3Verbatim(f: Feature)
    ensures Truthy(IsoA3(f)) ==> GetIso3Code(f) == IsoA3(f)
    ensures !Truthy(IsoA3(f)) && Truthy(Adm0A3(f)) ==> GetIso3Code(f) == Adm0A3(f)
    ensures !Truthy(IsoA3(f)) && !Truthy(Adm0A3(f)) && Truthy(f.id) ==> GetIso3Code(f) == f.id
    ensures GetIso3Code(f) == Null <==> !Truthy(IsoA3(f)) && !Truthy(Adm0A3(f)) && !Truthy(f.id)
    ensures IsoA3(f) == Str("-99") ==> GetIso3Code(f) == Str("-99")
  {
    var vs := CodeCandidates(f);
    assert vs[1..] == [Adm0A3(f), f.id];
    assert vs[1..][1..] == [f.id];
    assert FirstTruthyIndex(vs[1..][1..]) == if Truthy(f.id) then 0 else 1;
    assert FirstTruthyIndex(vs) ==
      (if Truthy(IsoA3(f)) then 0 else if Truthy(Adm0A3(f)) then 1 else if Truthy(f.id) then 2 else 3);
  }

  /** `temperatures.get(iso3)`: the keys of `temperatures` are strings, so
      only a string code can find a value; a null or numeric code finds none. */
  function TemperatureOf(code: JsVal, temps: map<string, real>): (r: Option<real>)
    ensures r.Some? <==> code.Str? && code.s in temps
    ensures r.Some? ==> r.value == temps[code.s]
  {
    match code
    case Str(s) => if s in temps then Some(temps[s]) else None
    case _ => None
  }

  /** The `value` every handler of a country path computes. */
  function FeatureTemperature(f: Feature, temps: map<string, real>): Option<real>
  {
    TemperatureOf(GetIso3Code(f), temps)
  }

  /** `temperatures.has(iso3)` */
  function HasData(code: JsVal, temps: map<string, real>): bool
  {
    code.Str? && code.s in temps
  }

  /** The path's class: it carries `country--has-data` exactly when the code
      is a string key of `temperatures`. */
  function CountryClass(f: Feature, temps: map<string, real>): (r: string)
    ensures r == HAS_DATA_CLASS <==> GetIso3Code(f).Str? && GetIso3Code(f).s in temps
    ensures r == BASE_CLASS || r == HAS_DATA_CLASS
  {
    ClassFor(HasData(GetIso3Code(f), temps))
  }

  /** The path's fill: '#dbeafe' exactly when the lookup finds nothing,
      otherwise the colour scale at the value found. */
  function CountryFill(f: Feature, temps: map<string, real>): (r: Fill)
    ensures r == Solid(NO_DATA_FILL) <==> !(GetIso3Code(f).Str? && GetIso3Code(f).s in temps)
    ensures FeatureTemperature(f, temps).Some? ==> r == Scaled(FeatureTemperature(f, temps).value)
    ensures r.Scaled? ==> r.celsius == temps[GetIso3Code(f).s]
  {
    FillFor(FeatureTemperature(f, temps))
  }

  /** The hover tooltip: 'Data unavailable' exactly when the lookup finds
      nothing, otherwise the name with the value. */
  function HoverTooltip(f: Feature, temps: map<string, real>): (r: Tooltip)
    ensures r.DataUnavailable? <==> !(GetIso3Code(f).Str? && GetIso3Code(f).s in temps)
    ensures r.Reading? ==> r.celsius == temps[GetIso3Code(f).s]
    ensures r.caption == ToJsString(GetCountryName(f)) && r.caption != ""
  {
    TooltipFor(GetCountryName(f), FeatureTemperature(f, temps))
  }

  /** The Map after a click on a feature: unchanged when the lookup finds
      nothing (a null code included), otherwise toggled on the code. */
  function AfterClick(bs: seq<Binding>, f: Feature, temps: map<string, real>): seq<Binding>
  {
    match FeatureTemperature(f, temps)
    case None => bs
    case Some(v) => Toggled(bs, GetIso3Code(f).s, GetCountryName(f), v)
  }

  /** A click is a no-op when the lookup finds nothing, a null code included;
      clicking a feature with a value twice restores the set of pinned codes,
      and the Map itself when the code was not pinned before. */
  lemma ClickTwice(bs: seq<Binding>, f: Feature, temps: map<string, real>)
    ensures GetIso3Code(f) == Null ==> AfterClick(bs, f, temps) == bs
    ensures !(GetIso3Code(f).Str? && GetIso3Code(f).s in temps) ==> AfterClick(bs, f, temps) == bs
    ensures forall k :: MapHas(AfterClick(AfterClick(bs, f, temps), f, temps), k) <==> MapHas(bs, k)
    ensures GetIso3Code(f).Str? && GetIso3Code(f).s in temps && !MapHas(bs, GetIso3Code(f).s) ==>
      AfterClick(AfterClick(bs, f, temps), f, temps) == bs
  {
    match FeatureTemperature(f, temps)
    case None =>
    case Some(v) =>
      var code := GetIso3Code(f).s;
      if MapHas(bs, code) {
        ToggleTwicePinned(bs, code, GetCountryName(f), v);
      } else {
        ToggleTwiceUnpinned(bs, code, GetCountryName(f), v);
      }
  }

  /** Unpinning a code and pinning it again, with other clicks between,
      puts it last in the selection order, with the entry of the click that
      pinned it again, whichever feature with that code it came from. */
  lemma RepinGoesLast(bs: seq<Binding>, cs: seq<Click>, c: Click, c2: Click)
    requires WellFormed(bs) && MapHas(bs, c.iso3) && c2.iso3 == c.iso3
    requires MapHas(ApplyClicks(Toggled(bs, c.iso3, c.name, c.value), cs), c.iso3) == false
    ensures var r := Toggled(ApplyClicks(Toggled(bs, c.iso3, c.name, c.value), cs), c2.iso3, c2.name, c2.value);
      MapKeys(r)[|r| - 1] == c.iso3 && r[|r| - 1].entry == Entry(c.iso3, c2.name, c2.value)
  {
    var mid := ApplyClicks(Toggled(bs, c.iso3, c.name, c.value), cs);
    ToggledContents(mid, c2.iso3, c2.name, c2.value);
  }

  /** The click handler: look up the value, return when there is none,
      otherwise toggle the code in `pinnedCountries` and re-render the list. */
  method OnClick(pins: PinnedCountries, list: RenderedList, f: Feature, temps: map<string, real>)
    requires pins.Valid()
    modifies pins, list
    ensures pins.Valid()
    ensures pins.bindings == AfterClick(old(pins.bindings), f, temps)
    ensures FeatureTemperature(f, temps).None? ==> list.items == old(list.items)
    ensures FeatureTemperature(f, temps).Some? ==> list.items == Join(old(list.items), pins.Values())
    ensures old(Synced(pins, list)) ==> Synced(pins, list)
  {
    var iso3 := GetIso3Code(f);
    var name := GetCountryName(f);
    var value := TemperatureOf(iso3, temps);
    if value.None? {
      return;
    }
    ghost var before := pins.bindings;
    pins.Toggle(iso3.s, name, value.value);
    list.Update(pins);
    JoinAfterToggle(before, iso3.s, name, value.value);
  }
}
