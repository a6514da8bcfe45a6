/**
 * The `pinnedCountries` Map of both scripts: an insertion-ordered collection
 * of key/value pairs, keyed by a country's code, whose membership is the
 * pinned state a click toggles.
 */
module Pins {
  import opened JsValues

  /** The record stored for a pinned country: `{ iso3, name, value }`. */
  datatype Entry = Entry(iso3: string, name: JsVal, value: real)

  /** One key/value pair of the Map. */
  datatype Binding = Binding(key: string, entry: Entry)

  /** The Map's keys in insertion order (`map.keys()`). */
  function MapKeys(bs: seq<Binding>): (ks: seq<string>)
    ensures |ks| == |bs|
    ensures forall i :: 0 <= i < |bs| ==> ks[i] == bs[i].key
  {
    if bs == [] then [] else [bs[0].key] + MapKeys(bs[1..])
  }

  /** The Map's values in insertion order (`Array.from(map.values())`). */
  function MapValues(bs: seq<Binding>): (es: seq<Entry>)
    ensures |es| == |bs|
    ensures forall i :: 0 <= i < |bs| ==> es[i] == bs[i].entry
  {
    if bs == [] then [] else [bs[0].entry] + MapValues(bs[1..])
  }

  /** No string occurs twice. */
  predicate Distinct(ks: seq<string>) {
    forall i, j :: 0 <= i < j < |ks| ==> ks[i] != ks[j]
  }

  /** What the click handler keeps true of the Map: keys are distinct and
      every entry is stored under its own code. */
  predicate WellFormed(bs: seq<Binding>) {
    Distinct(MapKeys(bs)) && forall i :: 0 <= i < |bs| ==> bs[i].entry.iso3 == bs[i].key
  }

  /** `map.has(k)` */
  predicate MapHas(bs: seq<Binding>, k: string) {
    k in MapKeys(bs)
  }

  /** The sequence without the occurrences of k. */
  function Without(ks: seq<string>, k: string): (r: seq<string>)
    ensures forall x :: x in r <==> x in ks && x != k
  {
    if ks == [] then [] else (if ks[0] == k then [] else [ks[0]]) + Without(ks[1..], k)
  }

  /** `map.delete(k)`: drops the pair with key k, keeping the others in order. */
  function MapDelete(bs: seq<Binding>, k: string): (r: seq<Binding>)
    ensures MapKeys(r) == Without(MapKeys(bs), k)
    ensures forall b :: b in r <==> b in bs && b.key != k
  {
    if bs == [] then []
    else (if bs[0].key == k then [] else [bs[0]]) + MapDelete(bs[1..], k)
  }

  /** `map.set(k, e)`: a present key keeps its position and takes the new
      value; an absent key is added at the end. */
  function MapSet(bs: seq<Binding>, k: string, e: Entry): (r: seq<Binding>)
    ensures MapHas(bs, k) ==> MapKeys(r) == MapKeys(bs)
    ensures MapHas(bs, k) ==> Binding(k, e) in r
    ensures forall b: Binding :: b.key != k ==> (b in r <==> b in bs)
    ensures !MapHas(bs, k) ==> r == bs + [Binding(k, e)]
  {
    if bs == [] then [Binding(k, e)]
    else if bs[0].key == k then [Binding(k, e)] + bs[1..]
    else [bs[0]] + MapSet(bs[1..], k, e)
  }

  lemma WithoutKeepsDistinct(ks: seq<string>, k: string)
    requires Distinct(ks)
    ensures Distinct(Without(ks, k))
  {
    if ks != [] {
      WithoutKeepsDistinct(ks[1..], k);
      assert ks[0] !in ks[1..];
    }
  }

  /** Deleting keeps the Map well formed. */
  lemma {:induction false} MapDeleteWellFormed(bs: seq<Binding>, k: string)
    requires WellFormed(bs)
    ensures WellFormed(MapDelete(bs, k))
  {
    WithoutKeepsDistinct(MapKeys(bs), k);
    var r := MapDelete(bs, k);
    forall i | 0 <= i < |r| ensures r[i].entry.iso3 == r[i].key {
      assert r[i] in r;
    }
  }

  /** Toggling a code with a reading: the click handler's body past its null check. */
  function Toggled(bs: seq<Binding>, iso3: string, name: JsVal, value: real): (r: seq<Binding>)
    ensures MapHas(r, iso3) <==> !MapHas(bs, iso3)
    ensures forall k :: k != iso3 ==> (MapHas(r, k) <==> MapHas(bs, k))
  {
    if MapHas(bs, iso3) then MapDelete(bs, iso3)
    else
      MapKeysSnoc(bs, Binding(iso3, Entry(iso3, name, value)));
      MapSet(bs, iso3, Entry(iso3, name, value))
  }

  /** What a toggle does to the pairs: a pinned code is deleted with the other
      pairs kept in order, an unpinned one is appended as `{ iso3, name, value }`,
      and no pair under another key changes. */
  lemma ToggledContents(bs: seq<Binding>, iso3: string, name: JsVal, value: real)
    ensures var r := Toggled(bs, iso3, name, value);
      && (forall b: Binding :: b.key != iso3 ==> (b in r <==> b in bs))
      && (MapHas(bs, iso3) ==> MapKeys(r) == Without(MapKeys(bs), iso3))
      && (!MapHas(bs, iso3) ==> r == bs + [Binding(iso3, Entry(iso3, name, value))])
  {
  }

  lemma MapKeysSnoc(bs: seq<Binding>, b: Binding)
    ensures MapKeys(bs + [b]) == MapKeys(bs) + [b.key]
  {
  }

  /** Every toggle keeps the keys distinct and each entry under its own code. */
  lemma {:induction false} ToggledWellFormed(bs: seq<Binding>, iso3: string, name: JsVal, value: real)
    requires WellFormed(bs)
    ensures WellFormed(Toggled(bs, iso3, name, value))
  {
    if MapHas(bs, iso3) {
      MapDeleteWellFormed(bs, iso3);
    } else {
      AppendWellFormed(bs, Binding(iso3, Entry(iso3, name, value)));
    }
  }

  /** Appending a pair under a new key, stored under its own code, keeps the Map well formed. */
  lemma AppendWellFormed(bs: seq<Binding>, b: Binding)
    requires WellFormed(bs) && !MapHas(bs, b.key) && b.entry.iso3 == b.key
    ensures WellFormed(bs + [b])
  {
    var ks := MapKeys(bs + [b]);
    assert ks == MapKeys(bs) + [b.key];
  }

  lemma {:induction false} MapDeleteAbsent(bs: seq<Binding>, k: string)
    requires !MapHas(bs, k)
    ensures MapDelete(bs, k) == bs
  {
    if bs != [] {
      assert MapKeys(bs) == [bs[0].key] + MapKeys(bs[1..]);
      MapDeleteAbsent(bs[1..], k);
      assert [bs[0]] + bs[1..] == bs;
    }
  }

  lemma {:induction false} MapDeleteAppend(bs: seq<Binding>, b: Binding)
    requires !MapHas(bs, b.key)
    ensures MapDelete(bs + [b], b.key) == bs
  {
    if bs == [] {
      assert MapDelete([b], b.key) == [] + MapDelete([], b.key);
    } else {
      assert (bs + [b])[1..] == bs[1..] + [b];
      assert MapKeys(bs) == [bs[0].key] + MapKeys(bs[1..]);
      MapDeleteAppend(bs[1..], b);
      assert [bs[0]] + bs[1..] == bs;
    }
  }

  /** Toggling an unpinned code twice restores the Map exactly. */
  lemma {:induction false} ToggleTwiceUnpinned(bs: seq<Binding>, iso3: string, name: JsVal, value: real)
    requires !MapHas(bs, iso3)
    ensures Toggled(Toggled(bs, iso3, name, value), iso3, name, value) == bs
  {
    MapDeleteAppend(bs, Binding(iso3, Entry(iso3, name, value)));
  }

  /** Toggling a pinned code twice restores the key set, and the re-added
      code moves to the end of the insertion order. */
  lemma {:induction false} ToggleTwicePinned(bs: seq<Binding>, iso3: string, name: JsVal, value: real)
    requires MapHas(bs, iso3)
    ensures var r := Toggled(Toggled(bs, iso3, name, value), iso3, name, value);
      && MapKeys(r) == Without(MapKeys(bs), iso3) + [iso3]
      && (forall k :: MapHas(r, k) <==> MapHas(bs, k))
      && r[|r| - 1] == Binding(iso3, Entry(iso3, name, value))
  {
    var once := Toggled(bs, iso3, name, value);
    var r := Toggled(once, iso3, name, value);
    assert MapKeys(r) == MapKeys(once) + [iso3] by {
      assert r == once + [Binding(iso3, Entry(iso3, name, value))];
    }
  }

  // ---- sequences of clicks ---------------------------------------------

  /** A click on a feature that has a reading. */
  datatype Click = Click(iso3: string, name: JsVal, value: real)

  /** The Map after the given clicks, in order. */
  function ApplyClicks(bs: seq<Binding>, cs: seq<Click>): seq<Binding>
    decreases |cs|
  {
    if cs == [] then bs
    else ApplyClicks(Toggled(bs, cs[0].iso3, cs[0].name, cs[0].value), cs[1..])
  }

  /** How many of the clicks are on code k. */
  function ClickCount(cs: seq<Click>, k: string): nat
  {
    if cs == [] then 0 else (if cs[0].iso3 == k then 1 else 0) + ClickCount(cs[1..], k)
  }

  /** Whether code k was clicked an odd number of times. */
  function OddClicks(cs: seq<Click>, k: string): (odd: bool)
  {
    if cs == [] then false else (cs[0].iso3 == k) != OddClicks(cs[1..], k)
  }

  /** OddClicks is the parity of the click count. */
  lemma {:induction false} OddClicksCount(cs: seq<Click>, k: string)
    ensures OddClicks(cs, k) <==> ClickCount(cs, k) % 2 == 1
  {
    if cs != [] {
      OddClicksCount(cs[1..], k);
    }
  }

  /** A code ends up pinned exactly when its pinned state at the start
      differs from the parity of the number of clicks on it. */
  lemma {:induction false} ClicksParity(bs: seq<Binding>, cs: seq<Click>, k: string)
    ensures MapHas(ApplyClicks(bs, cs), k) <==> (MapHas(bs, k) != (ClickCount(cs, k) % 2 == 1))
  {
    OddClicksCount(cs, k);
    ClicksParityOdd(bs, cs, k);
  }

  lemma {:induction false} ClicksParityOdd(bs: seq<Binding>, cs: seq<Click>, k: string)
    ensures MapHas(ApplyClicks(bs, cs), k) == (MapHas(bs, k) != OddClicks(cs, k))
    decreases |cs|
  {
    if cs != [] {
      ClicksParityOdd(Toggled(bs, cs[0].iso3, cs[0].name, cs[0].value), cs[1..], k);
    }
  }

  /** Clicks keep the Map well formed. */
  lemma {:induction false} ApplyClicksWellFormed(bs: seq<Binding>, cs: seq<Click>)
    requires WellFormed(bs)
    ensures WellFormed(ApplyClicks(bs, cs))
    decreases |cs|
  {
    if cs != [] {
      ToggledWellFormed(bs, cs[0].iso3, cs[0].name, cs[0].value);
      ApplyClicksWellFormed(Toggled(bs, cs[0].iso3, cs[0].name, cs[0].value), cs[1..]);
    }
  }

  lemma {:induction false} DistinctCardinality(ks: seq<string>)
    requires Distinct(ks)
    ensures |set x | x in ks| == |ks|
  {
    if ks != [] {
      DistinctCardinality(ks[1..]);
      assert (set x | x in ks) == (set x | x in ks[1..]) + {ks[0]};
      assert ks[0] !in ks[1..];
    }
  }

  /** Codes clicked on at least once. */
  function ClickedCodes(cs: seq<Click>): set<string>
  {
    if cs == [] then {} else {cs[0].iso3} + ClickedCodes(cs[1..])
  }

  lemma {:induction false} OddClicksClicked(cs: seq<Click>, k: string)
    requires OddClicks(cs, k)
    ensures k in ClickedCodes(cs)
  {
    if cs[0].iso3 != k {
      OddClicksClicked(cs[1..], k);
    }
  }

  /** Starting from an empty Map, the number of pinned countries is the
      number of codes clicked an odd number of times. */
  lemma SnapshotLength(cs: seq<Click>)
    ensures |ApplyClicks([], cs)| == |OddCodes(cs)|
  {
    var r := ApplyClicks([], cs);
    ApplyClicksWellFormed([], cs);
    DistinctCardinality(MapKeys(r));
    PinnedFromEmpty(cs);
    SeqSet(MapKeys(r), OddCodes(cs));
  }

  /** Codes clicked an odd number of times. */
  function OddCodes(cs: seq<Click>): set<string> {
    set k | k in ClickedCodes(cs) && OddClicks(cs, k)
  }

  lemma PinnedFromEmpty(cs: seq<Click>)
    ensures forall k :: k in MapKeys(ApplyClicks([], cs)) <==> k in OddCodes(cs)
  {
    assert MapKeys([]) == [];
    forall k ensures k in MapKeys(ApplyClicks([], cs)) <==> k in OddCodes(cs) {
      ClicksParityOdd([], cs, k);
      if OddClicks(cs, k) {
        OddClicksClicked(cs, k);
      }
    }
  }

  lemma SeqSet(ks: seq<string>, s: set<string>)
    requires forall k :: k in ks <==> k in s
    ensures (set x | x in ks) == s
  {
  }

  // ---- the Map object ----------------------------------------------------

  /** The module-level `pinnedCountries = new Map()`. */
  class PinnedCountries {
    var bindings: seq<Binding>

    ghost predicate Valid()
      reads this
    {
      WellFormed(bindings)
    }

    constructor ()
      ensures Valid() && bindings == []
    {
      bindings := [];
    }

    /** `pinnedCountries.has(k)` */
    function Has(k: string): (r: bool)
      reads this
      ensures r <==> k in MapKeys(bindings)
    {
      MapHas(bindings, k)
    }

    /** `Array.from(pinnedCountries.values())` */
    function Values(): (es: seq<Entry>)
      reads this
      ensures es == MapValues(bindings)
    {
      MapValues(bindings)
    }

    /** `pinnedCountries.delete(k)` */
    method Delete(k: string)
      modifies this
      ensures bindings == MapDelete(old(bindings), k)
    {
      bindings := MapDelete(bindings, k);
    }

    /** `pinnedCountries.set(k, e)` */
    method Set(k: string, e: Entry)
      modifies this
      ensures bindings == MapSet(old(bindings), k, e)
    {
      bindings := MapSet(bindings, k, e);
    }

    /** Lines 117-123 of the click handler: delete a pinned code, otherwise
        pin `{ iso3, name, value }`. */
    method Toggle(iso3: string, name: JsVal, value: real)
      requires Valid()
      modifies this
      ensures Valid()
      ensures bindings == Toggled(old(bindings), iso3, name, value)
    {
      ToggledWellFormed(bindings, iso3, name, value);
      if Has(iso3) {
        Delete(iso3);
      } else {
        Set(iso3, Entry(iso3, name, value));
      }
    }
  }
}
