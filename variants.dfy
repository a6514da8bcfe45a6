/**
 * How the docs and web copies of the overlay relate. Both try `iso_a3` and
 * then `adm0_a3`, so when one of those is truthy they choose the same field;
 * they then differ only in what the docs copy does to it (the '-99' test and
 * upper-casing) and in the web copy's further fallback on `feature.id`.
 */
module Variants {
  import opened JsValues
  import opened Features
  import DocsOverlay
  import WebOverlay

  /** The web copy returns the field the docs copy chooses, untouched; when
      the docs copy finds no truthy field, the web copy falls back on the
      feature's id. */
  lemma SameChoice(f: Feature)
    ensures FirstTruthy(DocsOverlay.CodeCandidates(f)).Some? ==>
      WebOverlay.GetIso3Code(f) == FirstTruthy(DocsOverlay.CodeCandidates(f)).value
    ensures FirstTruthy(DocsOverlay.CodeCandidates(f)).None? ==>
      WebOverlay.GetIso3Code(f) == (if Truthy(f.id) then f.id else Null)
  {
    var vs := DocsOverlay.CodeCandidates(f);
    assert vs[1..] == [Adm0A3(f)];
    assert FirstTruthyIndex(vs[1..]) == if Truthy(Adm0A3(f)) then 0 else 1;
    assert FirstTruthyIndex(vs) == (if Truthy(IsoA3(f)) then 0 else if Truthy(Adm0A3(f)) then 1 else 2);
    WebOverlay.Iso3Verbatim(f);
  }

  /** When the field chosen is an upper-case string, both copies look up the
      same key and so find the same temperature, except for a '-99' which only
      the web copy looks up. */
  lemma AgreeOnUpperCaseCodes(f: Feature, temps: map<string, real>)
    ensures var raw := FirstTruthy(DocsOverlay.CodeCandidates(f));
      raw.Some? && raw.value.Str? && IsUpperCase(raw.value.s) &&
      (raw.value.s != DocsOverlay.SENTINEL || DocsOverlay.SENTINEL !in temps) ==>
      DocsOverlay.FeatureTemperature(f, temps) == WebOverlay.FeatureTemperature(f, temps)
  {
    SameChoice(f);
    var raw := FirstTruthy(DocsOverlay.CodeCandidates(f));
    if raw.Some? && raw.value.Str? && IsUpperCase(raw.value.s) {
      ToUpperFixesUpperCase(raw.value.s);
    }
  }

  /** A feature with neither `iso_a3` nor `adm0_a3` has no value in the docs
      copy, while the web copy finds one under a string id. */
  lemma IdOnlyInWeb(f: Feature, temps: map<string, real>)
    requires !Truthy(IsoA3(f)) && !Truthy(Adm0A3(f))
    ensures DocsOverlay.FeatureTemperature(f, temps).None?
    ensures WebOverlay.FeatureTemperature(f, temps).Some? <==> f.id.Str? && f.id.s != "" && f.id.s in temps
  {
    DocsOverlay.Iso3Null(f);
    WebOverlay.Iso3Verbatim(f);
  }
}
