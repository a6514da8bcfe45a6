/**
 * A country feature as the topology decoder hands it to the overlay: an
 * optional `properties` record and an optional feature `id`, plus the display
 * name rule shared by both scripts.
 */
module Features {
  import opened JsValues

  /** The property fields the overlay reads; a field the record lacks is `Undefined`. */
  datatype Properties = Properties(isoA3: JsVal, adm0A3: JsVal, name: JsVal, admin: JsVal)

  /** `properties` is `None` when the feature has no properties object at all. */
  datatype Feature = Feature(properties: Option<Properties>, id: JsVal)

  /** `feature.properties?.iso_a3` */
  function IsoA3(f: Feature): JsVal {
    if f.properties.Some? then f.properties.value.isoA3 else Undefined
  }

  /** `feature.properties?.adm0_a3` */
  function Adm0A3(f: Feature): JsVal {
    if f.properties.Some? then f.properties.value.adm0A3 else Undefined
  }

  /** `feature.properties?.name` */
  function NameField(f: Feature): JsVal {
    if f.properties.Some? then f.properties.value.name else Undefined
  }

  /** `feature.properties?.admin` */
  function AdminField(f: Feature): JsVal {
    if f.properties.Some? then f.properties.value.admin else Undefined
  }

  const UNKNOWN_NAME := "Unknown"

  /** The candidate fields for the display name, in priority order. */
  function NameCandidates(f: Feature): seq<JsVal> {
    [NameField(f), AdminField(f), Str(UNKNOWN_NAME)]
  }

  /** `getCountryName`: the first truthy of `name`, `admin`, `'Unknown'`. */
  function GetCountryName(f: Feature): (r: JsVal)
    ensures Truthy(r)
    ensures FirstTruthy(NameCandidates(f)) == Some(r)
    ensures r == NameField(f) || r == AdminField(f) || r == Str(UNKNOWN_NAME)
    ensures ToJsString(r) != ""
  {
    OrChainIsFirstTruthy([NameField(f), AdminField(f)], Str(UNKNOWN_NAME));
    FirstTruthyOfSnoc([NameField(f), AdminField(f)], Str(UNKNOWN_NAME));
    assert [NameField(f), AdminField(f)] + [Str(UNKNOWN_NAME)] == NameCandidates(f);
    assert [NameField(f), AdminField(f)][..1] == [NameField(f)];
    Or(Or(NameField(f), AdminField(f)), Str(UNKNOWN_NAME))
  }
}
