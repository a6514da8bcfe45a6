/**
 * The country overlay of docs/scripts/temperature-map.js: code resolution
 * with the '-99' sentinel and upper-casing, the guarded temperature lookups,
 * the per-path styling choices and the click handler over `pinnedCountries`.
 */
module DocsOverlay {
  import opened JsValues
  import opened Features
  import opened Styling
  import opened Pins
  import opened SelectionList

  /** The value the source data uses for "no code assigned". */
  const SENTINEL := "-99"

  /** The code fields `getIso3Code` tries, in priority order. */
  function CodeCandidates(f: Feature): seq<JsVal> {
    [IsoA3(f), Adm0A3(f)]
  }

  /** `getIso3Code`: the first truthy of `iso_a3`, `adm0_a3`; null when there
      is none or when it is the string '-99'; otherwise its upper-cased
      string form. */
  function GetIso3Code(f: Feature): (r: Option<string>)
    ensures r == match FirstTruthy(CodeCandidates(f))
                 case None => None
                 case Some(raw) => if raw == Str(SENTINEL) then None else Some(ToUpper(ToJsString(raw)))
  {
    OrChainIsFirstTruthy(CodeCandidates(f), Null);
    assert CodeCandidates(f)[..1] == [IsoA3(f)];
    var raw := Or(Or(IsoA3(f), Adm0A3(f)), Null);
    if !Truthy(raw) || raw == Str(SENTINEL) then None
    else Some(ToUpper(ToJsString(raw)))
  }

  /** The code is null exactly when neither field is truthy (an empty string
      counts as missing), or when the field chosen is the string '-99'. A '-99'
      in `iso_a3` is truthy, so it is chosen and rejected even when `adm0_a3`
      holds a usable code. */
  lemma Iso3Null(f: Feature)
    ensures GetIso3Code(f).None? <==>
      || (!Truthy(IsoA3(f)) && !Truthy(Adm0A3(f)))
      || IsoA3(f) == Str(SENTINEL)
      || (!Truthy(IsoA3(f)) && Adm0A3(f) == Str(SENTINEL))
    ensures IsoA3(f) == Str(SENTINEL) ==> GetIso3Code(f) == None
  {
    var vs := CodeCandidates(f);
    if FirstTruthy(vs).Some? {
      var raw := FirstTruthy(vs).value;
      if raw != Str(SENTINEL) {
        assert ToJsString(raw) != "" by {
          assert Truthy(raw);
          if raw.Num? { assert |DecimalOf(raw.n)| > 0; }
        }
      }
    }
    assert FirstTruthyIndex(vs) == (if Truthy(IsoA3(f)) then 0 else if Truthy(Adm0A3(f)) then 1 else 2);
  }

  /** The code is never the string "-99": the sentinel check only catches
      the string, so "-99" comes out exactly when the field chosen holds the
      number -99 (`String(-99)` after the strict comparison). */
  lemma Iso3NeverSentinel(f: Feature)
    ensures GetIso3Code(f) == Some(SENTINEL) <==> FirstTruthy(CodeCandidates(f)) == Some(Num(-99))
    ensures !IsoA3(f).Num? && !Adm0A3(f).Num? ==> GetIso3Code(f) != Some(SENTINEL)
  {
    DecimalOfMinus99();
    match FirstTruthy(CodeCandidates(f))
    case None =>
    case Some(raw) =>
      if raw != Str(SENTINEL) {
        match raw
        case Str(s) => ToUpperSentinel(s);
        case Num(n) =>
          DecimalOfIsUpperCase(n);
          ToUpperFixesUpperCase(DecimalOf(n));
          if DecimalOf(n) == SENTINEL {
            DecimalOfInjective(n, -99);
          }
        case Undefined =>
        case Null =>
      }
  }

  /** A code that is not null is non-empty, upper case, the upper-cased form
      of the field chosen, and unchanged by a further `toUpperCase()`. */
  lemma Iso3Normalised(f: Feature)
    ensures GetIso3Code(f).Some? ==>
      var code := GetIso3Code(f).value;
      && code != ""
      && IsUpperCase(code)
      && ToUpper(code) == code
      && code == ToUpper(ToJsString(FirstTruthy(CodeCandidates(f)).value))
  {
    if GetIso3Code(f).Some? {
      var raw := FirstTruthy(CodeCandidates(f)).value;
      assert Truthy(raw);
      ToUpperIsUpperCase(ToJsString(raw));
    }
  }

  /** `iso3 ? temperatures.get(iso3) : null` */
  function TemperatureOf(code: Option<string>, temps: map<string, real>): (r: Option<real>)
    ensures r.Some? <==> code.Some? && code.value != "" && code.value in temps
    ensures r.Some? ==> r.value == temps[code.value]
  {
    if code.Some? && code.value != "" && code.value in temps then Some(temps[code.value]) else None
  }

  /** The `value` every handler of a country path computes. It is present
      exactly when the code is not null and `temperatures` has it. */
  function FeatureTemperature(f: Feature, temps: map<string, real>): (r: Option<real>)
    ensures r.Some? <==> GetIso3Code(f).Some? && GetIso3Code(f).value in temps
    ensures r.Some? ==> r.value == temps[GetIso3Code(f).value]
  {
    Iso3Normalised(f);
    TemperatureOf(GetIso3Code(f), temps)
  }

  /** `iso3 ? temperatures.has(iso3) : false` */
  function HasData(code: Option<string>, temps: map<string, real>): bool
  {
    code.Some? && code.value != "" && code.value in temps
  }

  /** The path's class: it carries `country--has-data` exactly when the code
      is not null and `temperatures` has it. */
  function CountryClass(f: Feature, temps: map<string, real>): (r: string)
    ensures r == HAS_DATA_CLASS <==> GetIso3Code(f).Some? && GetIso3Code(f).value in temps
    ensures r == BASE_CLASS || r == HAS_DATA_CLASS
  {
    Iso3Normalised(f);
    ClassFor(HasData(GetIso3Code(f), temps))
  }

  /** The path's fill: the fixed '#dbeafe' exactly when there is no value,
      otherwise the colour scale at the value. */
  function CountryFill(f: Feature, temps: map<string, real>): (r: Fill)
    ensures r == Solid(NO_DATA_FILL) <==> FeatureTemperature(f, temps).None?
    ensures FeatureTemperature(f, temps).Some? ==> r == Scaled(FeatureTemperature(f, temps).value)
    ensures r.Scaled? ==> GetIso3Code(f).Some? && r.celsius == temps[GetIso3Code(f).value]
  {
    FillFor(FeatureTemperature(f, temps))
  }

  /** The hover tooltip: 'Data unavailable' exactly when there is no value,
      otherwise the feature's value, always under the country's name. */
  function HoverTooltip(f: Feature, temps: map<string, real>): (r: Tooltip)
    ensures r.DataUnavailable? <==> FeatureTemperature(f, temps).None?
    ensures r.Reading? ==> r.celsius == FeatureTemperature(f, temps).value
    ensures r.caption == ToJsString(GetCountryName(f)) && r.caption != ""
  {
    TooltipFor(GetCountryName(f), FeatureTemperature(f, temps))
  }

  /** A path is coloured by the scale exactly when it is marked as having
      data, so the class and the fill never disagree. */
  lemma ColouredIffHasData(f: Feature, temps: map<string, real>)
    ensures CountryFill(f, temps).Scaled? <==> CountryClass(f, temps) == HAS_DATA_CLASS
  {
  }

  /** The Map after a click on a feature: unchanged without a value,
      otherwise toggled on the feature's code. */
  function AfterClick(bs: seq<Binding>, f: Feature, temps: map<string, real>): seq<Binding>
  {
    match FeatureTemperature(f, temps)
    case None => bs
    case Some(v) => Toggled(bs, GetIso3Code(f).value, GetCountryName(f), v)
  }

  /** A click on a feature whose code is null or missing from `temperatures`
      leaves the Map unchanged; clicking a feature with a value twice restores
      the set of pinned codes, and restores the Map exactly when the code was
      not pinned before. */
  lemma ClickTwice(bs: seq<Binding>, f: Feature, temps: map<string, real>)
    ensures GetIso3Code(f).None? || GetIso3Code(f).value !in temps ==> AfterClick(bs, f, temps) == bs
    ensures forall k :: MapHas(AfterClick(AfterClick(bs, f, temps), f, temps), k) <==> MapHas(bs, k)
    ensures FeatureTemperature(f, temps).Some? && !MapHas(bs, GetIso3Code(f).value) ==>
      AfterClick(AfterClick(bs, f, temps), f, temps) == bs
  {
    match FeatureTemperature(f, temps)
    case None =>
    case Some(v) =>
      var code := GetIso3Code(f).value;
      if MapHas(bs, code) {
        ToggleTwicePinned(bs, code, GetCountryName(f), v);
      } else {
        ToggleTwiceUnpinned(bs, code, GetCountryName(f), v);
      }
  }

  /** The click handler: look up the value, return when there is none,
      otherwise toggle the code in `pinnedCountries` and re-render the list. */
  method OnClick(pins: PinnedCountries, list: RenderedList, f: Feature, temps: map<string, real>)
    requires pins.Valid()
    modifies pins, list
    ensures pins.Valid()
    ensures pins.bindings == AfterClick(old(pins.bindings), f, temps)
    ensures FeatureTemperature(f, temps).None? ==> list.items == old(list.items)
    ensures FeatureTemperature(f, temps).Some? ==> list.items == Join(old(list.items), pins.Values())
    ensures old(Synced(pins, list)) ==> Synced(pins, list)
  {
    var iso3 := GetIso3Code(f);
    var name := GetCountryName(f);
    var value := TemperatureOf(iso3, temps);
    if value.None? {
      return;
    }
    ghost var before := pins.bindings;
    pins.Toggle(iso3.value, name, value.value);
    list.Update(pins);
    JoinAfterToggle(before, iso3.value, name, value.value);
  }
}
