/**
 * `updateSelectionList`: the `<li>` items of the selection list are joined
 * against the Map's values keyed by `iso3`. Items whose key is still present
 * are updated in place and keep their document order, items whose key is
 * gone are removed, and data without an item get a new item appended.
 */
module SelectionList {
  import opened JsValues
  import opened Pins

  /** The join key of each datum, `d => d.iso3`. */
  function EntryKeys(es: seq<Entry>): (ks: seq<string>)
    ensures |ks| == |es|
    ensures forall i :: 0 <= i < |es| ==> ks[i] == es[i].iso3
  {
    if es == [] then [] else [es[0].iso3] + EntryKeys(es[1..])
  }

  predicate DistinctKeys(es: seq<Entry>) {
    Distinct(EntryKeys(es))
  }

  /** The first datum whose key is k. */
  function DatumFor(data: seq<Entry>, k: string): (d: Entry)
    requires k in EntryKeys(data)
    ensures d in data && d.iso3 == k
  {
    if data[0].iso3 == k then data[0] else DatumFor(data[1..], k)
  }

  /** The update selection in document order: each item whose key is among
      the data, bound to its new datum. */
  function Updated(items: seq<Entry>, data: seq<Entry>): (r: seq<Entry>)
    ensures forall e :: e in r ==> e in data
  {
    if items == [] then []
    else
      (if items[0].iso3 in EntryKeys(data) then [DatumFor(data, items[0].iso3)] else [])
      + Updated(items[1..], data)
  }

  /** The enter selection: the data no item carries the key of, in data order. */
  function Entering(items: seq<Entry>, data: seq<Entry>): (r: seq<Entry>)
    ensures forall e :: e in r <==> e in data && e.iso3 !in EntryKeys(items)
  {
    if data == [] then []
    else (if data[0].iso3 in EntryKeys(items) then [] else [data[0]]) + Entering(items, data[1..])
  }

  /** The list after the join: the updated items where they were (the exit
      selection dropped), then the entered items appended. */
  function Join(items: seq<Entry>, data: seq<Entry>): (r: seq<Entry>)
    ensures forall e :: e in r ==> e in data
    ensures forall o :: o in items && o.iso3 !in EntryKeys(data) ==> o.iso3 !in EntryKeys(r)
  {
    var r := Updated(items, data) + Entering(items, data);
    assert forall i :: 0 <= i < |r| ==> r[i] in data;
    r
  }

  /** The items whose key is among ks, in their order. */
  function KeptByKeys(items: seq<Entry>, ks: seq<string>): seq<Entry>
  {
    if items == [] then []
    else (if items[0].iso3 in ks then [items[0]] else []) + KeptByKeys(items[1..], ks)
  }

  /** Every datum, wherever it sits in the list, is shown: its key gets an item. */
  lemma {:induction false} JoinCoversData(items: seq<Entry>, data: seq<Entry>, d: Entry)
    requires d in data
    ensures d.iso3 in EntryKeys(Join(items, data))
  {
    var r := Join(items, data);
    if d.iso3 in EntryKeys(items) {
      var i :| 0 <= i < |items| && items[i].iso3 == d.iso3;
      UpdatedHasKey(items, data, i);
      var u := Updated(items, data);
      var j :| 0 <= j < |u| && u[j].iso3 == d.iso3;
      assert r[j] == u[j];
    } else {
      var e := Entering(items, data);
      assert d in e;
      var j :| 0 <= j < |e| && e[j] == d;
      assert r[|Updated(items, data)| + j] == d;
    }
  }

  lemma {:induction false} UpdatedHasKey(items: seq<Entry>, data: seq<Entry>, i: nat)
    requires i < |items| && items[i].iso3 in EntryKeys(data)
    ensures items[i].iso3 in EntryKeys(Updated(items, data))
  {
    var u := Updated(items, data);
    if i == 0 {
      assert u[0].iso3 == items[0].iso3;
    } else {
      UpdatedHasKey(items[1..], data, i - 1);
      var rest := Updated(items[1..], data);
      var j :| 0 <= j < |rest| && rest[j].iso3 == items[i].iso3;
      assert u[|u| - |rest| + j] == rest[j];
    }
  }

  /** Items and data agree on every entry they share a key for. */
  predicate Consistent(items: seq<Entry>, data: seq<Entry>) {
    forall o, d :: o in items && d in data && o.iso3 == d.iso3 ==> o == d
  }

  /** When items and data agree per key, updating an item rebinds it to
      itself, so the update selection is the items that stay. */
  lemma {:induction false} UpdatedConsistent(items: seq<Entry>, data: seq<Entry>)
    requires Consistent(items, data)
    ensures Updated(items, data) == KeptByKeys(items, EntryKeys(data))
  {
    if items != [] {
      assert Consistent(items[1..], data) by {
        assert forall o :: o in items[1..] ==> o in items;
      }
      UpdatedConsistent(items[1..], data);
    }
  }

  lemma {:induction false} KeptAll(items: seq<Entry>, ks: seq<string>)
    requires forall i :: 0 <= i < |items| ==> items[i].iso3 in ks
    ensures KeptByKeys(items, ks) == items
  {
    if items != [] {
      KeptAll(items[1..], ks);
      assert [items[0]] + items[1..] == items;
    }
  }

  lemma EnteringNone(items: seq<Entry>, data: seq<Entry>)
    requires forall d :: d in data ==> d.iso3 in EntryKeys(items)
    ensures Entering(items, data) == []
  {
  }

  lemma {:induction false} EnteringAppend(items: seq<Entry>, data: seq<Entry>, x: Entry)
    ensures Entering(items, data + [x]) == Entering(items, data) + Entering(items, [x])
  {
    if data == [] {
      assert data + [x] == [x];
    } else {
      assert (data + [x])[1..] == data[1..] + [x];
      EnteringAppend(items, data[1..], x);
    }
  }

  lemma DistinctConsistent(s: seq<Entry>, data: seq<Entry>)
    requires DistinctKeys(s)
    requires forall d :: d in data ==> d in s
    ensures Consistent(s, data)
  {
    forall o, d | o in s && d in data && o.iso3 == d.iso3 ensures o == d {
      var i :| 0 <= i < |s| && s[i] == o;
      var j :| 0 <= j < |s| && s[j] == d;
      assert EntryKeys(s)[i] == EntryKeys(s)[j];
    }
  }

  lemma EntryKeysIn(s: seq<Entry>)
    ensures forall i :: 0 <= i < |s| ==> s[i].iso3 in EntryKeys(s)
  {
    forall i | 0 <= i < |s| ensures s[i].iso3 in EntryKeys(s) {
      assert EntryKeys(s)[i] == s[i].iso3;
    }
  }

  /** Re-joining the list against the data it already shows changes nothing. */
  lemma JoinSelf(s: seq<Entry>)
    requires DistinctKeys(s)
    ensures Join(s, s) == s
  {
    DistinctConsistent(s, s);
    UpdatedConsistent(s, s);
    EntryKeysIn(s);
    KeptAll(s, EntryKeys(s));
    EnteringNone(s, s);
  }

  lemma EntryKeysAppend(s: seq<Entry>, x: Entry)
    ensures EntryKeys(s + [x]) == EntryKeys(s) + [x.iso3]
  {
  }

  lemma ConsistentAppend(s: seq<Entry>, x: Entry)
    requires DistinctKeys(s) && x.iso3 !in EntryKeys(s)
    ensures Consistent(s, s + [x])
  {
    DistinctConsistent(s, s);
    EntryKeysIn(s);
  }

  lemma UpdatedAppend(s: seq<Entry>, x: Entry)
    requires DistinctKeys(s) && x.iso3 !in EntryKeys(s)
    ensures Updated(s, s + [x]) == s
  {
    ConsistentAppend(s, x);
    UpdatedConsistent(s, s + [x]);
    EntryKeysIn(s);
    EntryKeysAppend(s, x);
    KeptAll(s, EntryKeys(s + [x]));
  }

  lemma EnteringAppendNew(s: seq<Entry>, x: Entry)
    requires x.iso3 !in EntryKeys(s)
    ensures Entering(s, s + [x]) == [x]
  {
    EnteringAppend(s, s, x);
    EntryKeysIn(s);
    EnteringNone(s, s);
    assert Entering(s, [x]) == [x];
  }

  /** Appending one datum under a new key appends one item. */
  lemma JoinAppend(s: seq<Entry>, x: Entry)
    requires DistinctKeys(s) && x.iso3 !in EntryKeys(s)
    ensures Join(s, s + [x]) == s + [x]
  {
    UpdatedAppend(s, x);
    EnteringAppendNew(s, x);
  }

  /** Values of a well-formed Map carry their keys, which are distinct. */
  lemma ValuesKeys(bs: seq<Binding>)
    requires WellFormed(bs)
    ensures EntryKeys(MapValues(bs)) == MapKeys(bs)
    ensures DistinctKeys(MapValues(bs))
  {
  }

  lemma ValuesOfAppend(bs: seq<Binding>, b: Binding)
    ensures MapValues(bs + [b]) == MapValues(bs) + [b.entry]
  {
  }

  /** The items kept after a delete are the values of the Map after it. */
  lemma {:induction false} KeptAfterDelete(bs: seq<Binding>, k: string, ks: seq<string>)
    requires forall i :: 0 <= i < |bs| ==> bs[i].entry.iso3 == bs[i].key
    requires forall i :: 0 <= i < |bs| ==> (bs[i].key in ks <==> bs[i].key != k)
    ensures KeptByKeys(MapValues(bs), ks) == MapValues(MapDelete(bs, k))
  {
    if bs != [] {
      assert MapValues(bs)[1..] == MapValues(bs[1..]);
      KeptAfterDelete(bs[1..], k, ks);
    }
  }

  lemma DeletedValuesIn(bs: seq<Binding>, k: string)
    ensures forall d :: d in MapValues(MapDelete(bs, k)) ==> d in MapValues(bs)
  {
    var t := MapDelete(bs, k);
    forall d | d in MapValues(t) ensures d in MapValues(bs) {
      var j :| 0 <= j < |t| && MapValues(t)[j] == d;
      assert t[j] in t;
      var i :| 0 <= i < |bs| && bs[i] == t[j];
      assert MapValues(bs)[i] == d;
    }
  }

  lemma UpdatedDelete(bs: seq<Binding>, k: string)
    requires WellFormed(bs)
    ensures Updated(MapValues(bs), MapValues(MapDelete(bs, k))) == MapValues(MapDelete(bs, k))
  {
    var s := MapValues(bs);
    var t := MapDelete(bs, k);
    var data := MapValues(t);
    ValuesKeys(bs);
    MapDeleteWellFormed(bs, k);
    ValuesKeys(t);
    DeletedValuesIn(bs, k);
    DistinctConsistent(s, data);
    UpdatedConsistent(s, data);
    assert forall i :: 0 <= i < |bs| ==> (bs[i].key in EntryKeys(data) <==> bs[i].key != k) by {
      forall i | 0 <= i < |bs| ensures bs[i].key in EntryKeys(data) <==> bs[i].key != k {
        assert bs[i].key in MapKeys(bs);
      }
    }
    KeptAfterDelete(bs, k, EntryKeys(data));
  }

  lemma EnteringDelete(bs: seq<Binding>, k: string)
    requires WellFormed(bs)
    ensures Entering(MapValues(bs), MapValues(MapDelete(bs, k))) == []
  {
    var s := MapValues(bs);
    DeletedValuesIn(bs, k);
    EntryKeysIn(s);
    EnteringNone(s, MapValues(MapDelete(bs, k)));
  }

  /** Removing one pair removes its item and leaves the rest in place. */
  lemma JoinDelete(bs: seq<Binding>, k: string)
    requires WellFormed(bs)
    ensures Join(MapValues(bs), MapValues(MapDelete(bs, k))) == MapValues(MapDelete(bs, k))
  {
    UpdatedDelete(bs, k);
    EnteringDelete(bs, k);
  }

  /** After any toggle, joining the list that showed the old Map against the
      new Map's values yields exactly those values, in the Map's order. */
  lemma JoinAfterToggle(bs: seq<Binding>, iso3: string, name: JsVal, value: real)
    requires WellFormed(bs)
    ensures var after := MapValues(Toggled(bs, iso3, name, value));
      Join(MapValues(bs), after) == after
  {
    ToggledContents(bs, iso3, name, value);
    if MapHas(bs, iso3) {
      JoinDelete(bs, iso3);
    } else {
      var e := Entry(iso3, name, value);
      ValuesKeys(bs);
      ValuesOfAppend(bs, Binding(iso3, e));
      JoinAppend(MapValues(bs), e);
    }
  }

  /** The `<ul id="selection-list">` element: the datum bound to each `<li>`,
      in document order. */
  class RenderedList {
    var items: seq<Entry>

    constructor ()
      ensures items == []
    {
      items := [];
    }

    /** `updateSelectionList()` */
    method Update(pins: PinnedCountries)
      modifies this
      ensures items == Join(old(items), pins.Values())
    {
      items := Join(items, pins.Values());
    }
  }

  /** The list shows exactly the pinned countries, in pinning order. */
  ghost predicate Synced(pins: PinnedCountries, list: RenderedList)
    reads pins, list
  {
    list.items == pins.Values()
  }
}
