# Country overlay of the temperature map

This project models the country overlay of the browser map that colours each country by its mean surface-air temperature for 2025. The overlay exists in two near-identical scripts, `docs/scripts/temperature-map.js` and `web/scripts/temperature-map.js`. The model covers:

- **Feature identity.** `getIso3Code` and `getCountryName` are modelled as fallback chains over JavaScript values, with JavaScript truthiness: `undefined`, `null`, `''` and `0` count as missing. One reference definition, "the first truthy candidate" (`JsValues.FirstTruthy`), is proved equal to the `a || b || …` chains.
  - The docs copy tries `iso_a3` then `adm0_a3`. It rejects the string `'-99'` and upper-cases the result of `String(raw)`.
  - The web copy tries `iso_a3`, `adm0_a3` and then `feature.id`, and returns the value unchanged.
- **The `pinnedCountries` Map.** The Map is a class that holds an insertion-ordered sequence of key/value pairs. Its `has`, `delete`, `set` and the click handler's toggle are members of that class, specified by pure functions on the sequence.
- **The click handler.** A click with no temperature value does nothing. Otherwise it toggles the country's code in the Map and calls `updateSelectionList`.
- **`updateSelectionList`.** The D3 keyed join of the `<li>` items against `Array.from(pinnedCountries.values())` by `iso3` is modelled as follows:
  - updated items stay in their old order;
  - exited items are dropped;
  - entering items are appended.

  The main result: after every click, the rendered list equals the Map's values in insertion order.
- **Per-path styling.** Each path gets a class (`country country--has-data` or `country`), a fill (the colour scale, or `#dbeafe`), and a tooltip (the reading, or "Data unavailable").
- **The two copies compared.** When `iso_a3` or `adm0_a3` is truthy, both copies pick the same field. They find the same temperature whenever that field is an upper-case string key other than `'-99'`. For `'-99'` the docs copy finds nothing, while the web copy finds the value stored under a `'-99'` key if `temperatures` has one.

`temperatures` is `new Map(Object.entries(temperatureData))` built in `init`. It is modelled as a `map<string, real>` parameter: its keys are strings and its values are numbers, never null. The colour scale is left uninterpreted: a fill is either `Scaled(celsius)` or a fixed colour.

Modules:

| file | module | contents |
|---|---|---|
| js_values.dfy | `JsValues` | JavaScript values, truthiness, logical or, `String()` on integers, ASCII `toUpperCase` |
| features.dfy | `Features` | GeoJSON feature properties, `getCountryName` |
| styling.dfy | `Styling` | class, fill and tooltip choices |
| pins.dfy | `Pins` | the ordered Map, toggling, click sequences, class `PinnedCountries` |
| selection_list.dfy | `SelectionList` | the keyed join, class `RenderedList` |
| docs_overlay.dfy | `DocsOverlay` | the docs copy's handlers |
| web_overlay.dfy | `WebOverlay` | the web copy's handlers |
| variants.dfy | `Variants` | how the two copies relate |

### Notes on the code's behaviour

- **The `'-99'` sentinel in the docs copy** (docs/scripts/temperature-map.js:130-139). The `||` chain picks the first truthy field before the `'-99'` test runs. So a `'-99'` in `iso_a3` is chosen and then rejected, and the code is null even when `adm0_a3` holds a usable code (`DocsOverlay.Iso3Null`).
  - The test is the strict `raw === '-99'`, so it does not catch the number `-99`. That number passes the test and becomes the code `"-99"` (`DocsOverlay.Iso3NeverSentinel`).
- **The web copy** (web/scripts/temperature-map.js:129-136). It has no sentinel test and no upper-casing, so `'-99'` and lower-case codes come back as they are (`WebOverlay.Iso3Verbatim`).
- **Keys.** Only `iso_a3`, `adm0_a3` and, in the web copy, `feature.id` serve as a country's code. The name fields are never used as a key.
- **Mutation.** The click toggle is the only change to `pinnedCountries`. There is no separate remove operation.

## Model

| member | source | states |
|---|---|---|
| `JsValues.OrChainIsFirstTruthy` | docs/scripts/temperature-map.js:130-133 | a chain `v0 ‖ v1 ‖ … ‖ last` evaluates to the first truthy vi, or to `last` when none is truthy |
| `JsValues.DecimalOfInjective` | docs/scripts/temperature-map.js:139 | `String(n)` on integers is injective, so different numeric codes never collide after conversion |
| `JsValues.DigitsRoundTrip` | docs/scripts/temperature-map.js:139 | reading back the decimal digits `String(n)` writes gives n |
| `JsValues.ToUpperSentinel` | docs/scripts/temperature-map.js:135-139 | `toUpperCase()` maps a string to `"-99"` exactly when the string is `"-99"` |
| `JsValues.ToUpperIsUpperCase` | docs/scripts/temperature-map.js:139 | the result of `toUpperCase()` has no lower-case ASCII letter |
| `JsValues.ToUpperFixesUpperCase` | docs/scripts/temperature-map.js:139 | `toUpperCase()` leaves a string with no lower-case letter unchanged |
| `Features.GetCountryName` | docs/scripts/temperature-map.js:142-144 | the name is `name` if truthy, else `admin` if truthy, else `'Unknown'`; it is truthy, one of those three, and its string form is never empty (the web copy, web/scripts/temperature-map.js:138-140, is the same) |
| `DocsOverlay.GetIso3Code` | docs/scripts/temperature-map.js:129-140 | the code is null when neither `iso_a3` nor `adm0_a3` is truthy, or when the first truthy one is the string `'-99'`; otherwise it is `String(raw).toUpperCase()` of the first truthy one |
| `DocsOverlay.Iso3Null` | docs/scripts/temperature-map.js:130-137 | the code is null exactly when both fields are falsy, or `iso_a3` is `'-99'`, or `iso_a3` is falsy and `adm0_a3` is `'-99'`; a `'-99'` in `iso_a3` gives null whatever `adm0_a3` holds |
| `DocsOverlay.Iso3NeverSentinel` | docs/scripts/temperature-map.js:131-139 | the code is `"-99"` exactly when the field chosen is the number -99; with no numeric fields it is never `"-99"` |
| `DocsOverlay.Iso3Normalised` | docs/scripts/temperature-map.js:131-139 | a non-null code is non-empty, upper case, unchanged by a further `toUpperCase()`, and the upper-cased form of the first truthy field |
| `DocsOverlay.FeatureTemperature` | docs/scripts/temperature-map.js:90-92 | a feature has a value exactly when its code is non-null and present in `temperatures` |
| `DocsOverlay.CountryClass` | docs/scripts/temperature-map.js:76-80 | the class contains `country--has-data` exactly when the code is non-null and present in `temperatures` |
| `DocsOverlay.CountryFill` | docs/scripts/temperature-map.js:84-88 | the fill is `#dbeafe` exactly when the feature has no value, and otherwise the colour scale at the feature's value, which is the code's temperature |
| `DocsOverlay.HoverTooltip` | docs/scripts/temperature-map.js:89-94 | the hover tooltip says "Data unavailable" exactly when the feature has no value, and otherwise shows the feature's value; it always appears under the feature's non-empty name |
| `DocsOverlay.ColouredIffHasData` | docs/scripts/temperature-map.js:76-88 | a path is coloured by the scale exactly when its class marks it as having data |
| `DocsOverlay.ClickTwice` | docs/scripts/temperature-map.js:108-123 | a click with a null or unknown code leaves the Map unchanged; two clicks on one feature restore the set of pinned codes, and restore the Map exactly when the code was not pinned |
| `DocsOverlay.OnClick` | docs/scripts/temperature-map.js:108-126 | the handler leaves the Map unchanged without a value and toggles the code otherwise; it keeps the Map well formed, re-renders the list, and keeps the list equal to the Map's values |
| `Pins.MapDelete` | docs/scripts/temperature-map.js:118 | `delete(k)` removes exactly the pairs under k and keeps the remaining keys in order |
| `Pins.MapSet` | docs/scripts/temperature-map.js:121 | `set(k, e)` on an absent key appends the pair at the end; on a present key the key order stays the same and k's pair becomes `e`; pairs under other keys never change |
| `Pins.Toggled` | docs/scripts/temperature-map.js:117-123 | a toggle flips whether the code is pinned and leaves every other code's membership as it was |
| `Pins.ToggledContents` | docs/scripts/temperature-map.js:117-123 | pairs under other keys are unchanged; a pinned code is deleted with the remaining keys in order; an unpinned one is appended as `{ iso3, name, value }` |
| `Pins.ToggledWellFormed` | docs/scripts/temperature-map.js:117-123 | a toggle keeps the keys distinct and each entry's `iso3` equal to its key |
| `Pins.ToggleTwiceUnpinned` | docs/scripts/temperature-map.js:117-123 | toggling an unpinned code twice restores the Map exactly |
| `Pins.ToggleTwicePinned` | docs/scripts/temperature-map.js:117-123 | toggling a pinned code twice restores the key set and moves the code to the end of the insertion order |
| `Pins.ClicksParity` | docs/scripts/temperature-map.js:117-123 | after any sequence of clicks, a code is pinned exactly when its starting state differs from the parity of the number of clicks on it |
| `Pins.ApplyClicksWellFormed` | docs/scripts/temperature-map.js:117-123 | any sequence of clicks keeps the Map well formed |
| `Pins.SnapshotLength` | docs/scripts/temperature-map.js:117-123 | starting from the empty Map, the number of pinned countries is the number of codes clicked an odd number of times |
| `Pins.PinnedCountries.Delete` | docs/scripts/temperature-map.js:118 | the method's new state is `MapDelete` of the old pairs |
| `Pins.PinnedCountries.Set` | docs/scripts/temperature-map.js:121 | the method's new state is `MapSet` of the old pairs |
| `Pins.PinnedCountries.Toggle` | docs/scripts/temperature-map.js:117-123 | the method keeps the Map well formed; its new state is `Toggled` of the old pairs |
| `SelectionList.Join` | docs/scripts/temperature-map.js:164-173 | every item after the join is one of the data, and no item keeps a key that is gone from the data |
| `SelectionList.JoinCoversData` | docs/scripts/temperature-map.js:164-171 | every datum's key has an item after the join |
| `SelectionList.JoinSelf` | docs/scripts/temperature-map.js:164-173 | re-joining a list against the data it already shows changes nothing |
| `SelectionList.JoinAppend` | docs/scripts/temperature-map.js:166-171 | a datum with a new key appends exactly one item |
| `SelectionList.JoinDelete` | docs/scripts/temperature-map.js:164-173 | deleting one pair removes its item and leaves the other items in order |
| `SelectionList.JoinAfterToggle` | docs/scripts/temperature-map.js:161-174 | after any toggle, joining the list that showed the old Map against the new Map's values gives exactly those values in the Map's order |
| `SelectionList.RenderedList.Update` | docs/scripts/temperature-map.js:161-174 | `updateSelectionList()` replaces the items with the join of the old items against the Map's values |
| `WebOverlay.GetIso3Code` | web/scripts/temperature-map.js:129-136 | the code is the first truthy value among `iso_a3`, `adm0_a3` and `feature.id`, or null when none is truthy |
| `WebOverlay.Iso3Verbatim` | web/scripts/temperature-map.js:130-135 | each fallback step is stated on its own, and the result is null exactly when all three are falsy; a `'-99'` in `iso_a3` is returned as it is |
| `WebOverlay.CountryClass` | web/scripts/temperature-map.js:76-80 | the class contains `country--has-data` exactly when the code is a string key of `temperatures` |
| `WebOverlay.CountryFill` | web/scripts/temperature-map.js:84-88 | the fill is `#dbeafe` exactly when the lookup finds nothing, and otherwise the colour scale at the value found, which is the code's temperature |
| `WebOverlay.HoverTooltip` | web/scripts/temperature-map.js:142-145 | "Data unavailable" exactly when the lookup finds nothing, otherwise the name with that value |
| `WebOverlay.ClickTwice` | web/scripts/temperature-map.js:108-123 | a click is a no-op when the lookup finds nothing, a null code included; two clicks restore the pinned set, and restore the Map exactly when the code was not pinned |
| `WebOverlay.RepinGoesLast` | web/scripts/temperature-map.js:117-121 | unpinning a code and pinning it again later, with any clicks between, puts the code last in insertion order, which is the order of the list built at web/scripts/temperature-map.js:158; the click that pins it again may come from any feature with that code, and its entry is the one stored |
| `WebOverlay.OnClick` | web/scripts/temperature-map.js:108-126 | the handler leaves the Map unchanged without a value and toggles the code otherwise; it keeps the Map well formed and the list equal to the Map's values |
| `Variants.SameChoice` | web/scripts/temperature-map.js:130-135 | the web copy returns the field the docs copy chooses, unchanged; when the docs copy finds no field, the web copy returns `feature.id` when truthy, else null |
| `Variants.AgreeOnUpperCaseCodes` | docs/scripts/temperature-map.js:129-140 | when the field chosen is an upper-case string, both copies find the same temperature; a `'-99'` counts only when `temperatures` has no such key |
| `Variants.IdOnlyInWeb` | web/scripts/temperature-map.js:133 | with neither code field truthy the docs copy finds no value, while the web copy finds one exactly when `feature.id` is a non-empty string key |

## Left out

- **Python data pipelines.** The scripts that produce the temperature JSON rely on numerical libraries, floating point and file I/O. Their one relevant guarantee is that no key is empty or `'-99'`. It appears as the condition that `temperatures` has no `'-99'` key in `Variants.AgreeOnUpperCaseCodes`.
- **Loading.** The `init` fetches and the `topojson.feature` decoding are asynchronous network I/O and an external decoder. The features and `temperatures` are parameters of the model.
- **Geometry and colour.** The projection, `geoPath`, the graticule, `d3.extent`, the sequential colour scale and `addLegend` are external computations on floating point. A fill only records the temperature it would be scaled from.
- **DOM plumbing.**
  - Tooltip positioning and transitions, hover classes and `mousemove` offsets are not modelled.
  - The `data-iso3` and `data-name` attributes are not modelled.
  - The per-path `classed('country--selected', …)` toggling is not modelled. It follows each clicked path rather than the Map, so with several features sharing one code the highlight could disagree with the Map.
- **`toFixed(2)` formatting.** The tooltip and list items carry the reading itself, not its two-decimal rendering.
- **Property values outside the model.** Feature properties are `undefined`, `null`, strings or integers. Booleans, objects, fractional numbers and `NaN` are left out.
  - `String()` is modelled on integers in plain decimal. The exponent notation from 1e21 upward is not modelled.
  - `toUpperCase()` maps only ASCII `a`–`z`. Unicode case mapping is not modelled.
- **D3 enter placement.** D3 inserts each entering `<li>` before the next updated sibling. The model appends all entering items after the updated ones. The two orders agree on every list reachable through clicks, because a toggle only ever adds a key at the end of the Map.
- **`SelectionList.Join` with repeated keys.** The join is modelled only for distinct keys, which are all the Map can produce. With repeated keys it departs from D3. D3 sends a second `<li>` carrying an already-seen key to the exit selection, and a second datum under an already-matched key to the enter selection. The model instead keeps every such `<li>`, each bound to the first datum with that key, and drops the second datum.
- **Duplicate codes.** Duplicate codes among features matter only for the per-path highlighting left out above.
