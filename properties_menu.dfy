/** The properties panel of the viewer page: the element's own properties
    minus the ones the page does not show, one entry per property, each with
    its value normalised for display. */
module PropertiesMenu {
  import opened JsValues

  /** `value.value`: only an object has a `value` property; numbers,
      strings, booleans and arrays have none. */
  function ValueMember(v: Value): Value
  {
    match v
    case Obj(o) => Get(o, "value")
    case _ => Undefined
  }

  /** The value an entry shows: the text "undefined" for `null` and
      `undefined`, the wrapped `value` of an IFC value object when that is
      truthy, and the value itself otherwise. */
  function DisplayValue(v: Value): (r: Value)
    ensures r != Undefined && r != Null
    ensures v == Undefined || v == Null ==> r == Str("undefined")
    ensures v != Undefined && v != Null && Truthy(ValueMember(v)) ==> r == ValueMember(v)
    ensures v != Undefined && v != Null && !Truthy(ValueMember(v)) ==> r == v
  {
    if v.Undefined? || v.Null? then Str("undefined")
    else if Truthy(ValueMember(v)) then ValueMember(v)
    else v
  }

  /** Normalising a shown value that is not an object again changes nothing:
      what the panel shows is already in display form. */
  lemma DisplayValueStable(v: Value)
    requires !DisplayValue(v).Obj?
    ensures DisplayValue(DisplayValue(v)) == DisplayValue(v)
  {
    assert ValueMember(DisplayValue(v)) == Undefined;
  }

  /** The properties the panel never shows. */
  predicate IsHidden(k: string)
  {
    k == "psets" || k == "mats" || k == "type"
  }

  /** The keys of `ks` the panel shows, in their order. */
  function ShownKeys(ks: seq<string>): (r: seq<string>)
    ensures forall k :: k in r <==> k in ks && !IsHidden(k)
  {
    if |ks| == 0 then []
    else
      assert forall k :: k in ks <==> k == ks[0] || k in ks[1..];
      (if IsHidden(ks[0]) then [] else [ks[0]]) + ShownKeys(ks[1..])
  }

  /** Removing a key from a list that starts with `x` looks at `x` first. */
  lemma RemoveKeyCons(x: string, rest: seq<string>, k: string)
    ensures RemoveKey([x] + rest, k) == (if x == k then [] else [x]) + RemoveKey(rest, k)
  {
    assert ([x] + rest)[0] == x && ([x] + rest)[1..] == rest;
  }

  /** Deleting the three hidden keys one after the other leaves exactly the
      shown keys, in their order. */
  lemma {:induction false} DeletesLeaveShownKeys(ks: seq<string>)
    ensures RemoveKey(RemoveKey(RemoveKey(ks, "psets"), "mats"), "type") == ShownKeys(ks)
  {
    if |ks| != 0 {
      var x, rest := ks[0], ks[1..];
      assert ks == [x] + rest;
      DeletesLeaveShownKeys(rest);
      RemoveKeyCons(x, rest, "psets");
      var a := RemoveKey(rest, "psets");
      if x != "psets" {
        RemoveKeyCons(x, a, "mats");
        var b := RemoveKey(a, "mats");
        if x != "mats" {
          RemoveKeyCons(x, b, "type");
        }
      }
    }
  }

  /** The element after the three `delete` statements: it has none of the
      hidden properties, every other property is as it was, and its keys are
      the element's keys with the hidden ones taken out, the rest in their
      order. */
  function Stripped(o: Object): (r: Object)
    ensures !HasKey(r, "psets") && !HasKey(r, "mats") && !HasKey(r, "type")
    ensures forall k :: !IsHidden(k) ==> Get(r, k) == Get(o, k) && (HasKey(r, k) <==> HasKey(o, k))
    ensures r.keys == ShownKeys(o.keys)
    ensures WellFormed(o) ==> WellFormed(r)
  {
    DeletesLeaveShownKeys(o.keys);
    Delete(Delete(Delete(o, "psets"), "mats"), "type")
  }

  /** One panel entry: the key and the value it shows. */
  datatype Entry = Entry(key: string, value: Value)

  /** The entries `createPropertyEntry` appends for the keys `ks` of `o`, in
      order. */
  function EntriesFor(o: Object, ks: seq<string>): (r: seq<Entry>)
    ensures |r| == |ks|
    ensures forall i :: 0 <= i < |ks| ==> r[i] == Entry(ks[i], DisplayValue(Get(o, ks[i])))
    decreases |ks|
  {
    if |ks| == 0 then []
    else EntriesFor(o, ks[..|ks| - 1]) + [Entry(ks[|ks| - 1], DisplayValue(Get(o, ks[|ks| - 1])))]
  }

  /** One more key appends one more entry. */
  lemma EntriesForStep(o: Object, ks: seq<string>, i: nat)
    requires i < |ks|
    ensures EntriesFor(o, ks[..i + 1]) == EntriesFor(o, ks[..i]) + [Entry(ks[i], DisplayValue(Get(o, ks[i])))]
  {
    assert ks[..i + 1][..i] == ks[..i];
  }

  /** The panel's entries for an element: one per shown key, in the order
      of the element's keys, each with the display form of its value. */
  function MenuEntries(o: Object): (r: seq<Entry>)
    ensures |r| == |ShownKeys(o.keys)|
    ensures forall i :: 0 <= i < |r| ==>
              r[i] == Entry(ShownKeys(o.keys)[i], DisplayValue(Get(o, ShownKeys(o.keys)[i])))
  {
    assert forall i :: 0 <= i < |ShownKeys(o.keys)| ==> ShownKeys(o.keys)[i] in ShownKeys(o.keys);
    var s := Stripped(o);
    EntriesFor(s, s.keys)
  }

  /** Every entry of the panel is a shown property of the element, with its
      display value. */
  lemma MenuEntriesAreShownKeys(o: Object)
    requires WellFormed(o)
    ensures forall i :: 0 <= i < |MenuEntries(o)| ==>
              var e := MenuEntries(o)[i];
              !IsHidden(e.key) && HasKey(o, e.key) && e.value == DisplayValue(Get(o, e.key))
  {
    var s := Stripped(o);
    assert WellFormed(s);
    forall i | 0 <= i < |s.keys|
      ensures !IsHidden(s.keys[i]) && HasKey(o, s.keys[i])
    {
      assert s.keys[i] in s.keys;
      assert s.keys[i] in s.vals;
    }
  }

  /** Every property of the element other than `psets`, `mats` and `type` has
      an entry, and no key has two: the panel shows each remaining property
      exactly once (in the element's key order, as `MenuEntries` states). */
  lemma EveryShownKeyOnce(o: Object)
    requires WellFormed(o)
    ensures forall k :: HasKey(o, k) && !IsHidden(k) ==>
              exists i :: 0 <= i < |MenuEntries(o)| && MenuEntries(o)[i].key == k
    ensures forall i, j :: 0 <= i < j < |MenuEntries(o)| ==> MenuEntries(o)[i].key != MenuEntries(o)[j].key
  {
    var s := Stripped(o);
    var es := MenuEntries(o);
    assert WellFormed(s);
    forall k | HasKey(o, k) && !IsHidden(k)
      ensures exists i :: 0 <= i < |es| && es[i].key == k
    {
      assert k in s.keys;
      var i :| 0 <= i < |s.keys| && s.keys[i] == k;
      assert es[i].key == k;
    }
  }

  /** The hidden properties never reach the panel, whatever the element holds. */
  lemma HiddenKeysNeverShown(o: Object, k: string)
    requires IsHidden(k)
    ensures forall e :: e in MenuEntries(o) ==> e.key != k
  {
    var s := Stripped(o);
    forall e | e in MenuEntries(o)
      ensures e.key != k
    {
      var i :| 0 <= i < |MenuEntries(o)| && MenuEntries(o)[i] == e;
      assert s.keys[i] in s.keys;
    }
  }

  /** The `ifc-property-menu-root` element: the entries it currently holds. */
  class Panel {
    var children: seq<Entry>

    constructor ()
      ensures children == []
    {
      children := [];
    }

    /** `removeAllChildren`: remove the first child while there is one. */
    method RemoveAllChildren()
      modifies this
      ensures children == []
    {
      while children != []
        decreases |children|
      {
        children := children[1..];
      }
    }

    /** `createPropertyEntry(key, value)`: append one entry showing the
        normalised value. */
    method CreatePropertyEntry(key: string, value: Value)
      modifies this
      ensures children == old(children) + [Entry(key, DisplayValue(value))]
    {
      var shown := value;
      if value == Null || value == Undefined {
        shown := Str("undefined");
      } else if Truthy(ValueMember(value)) {
        shown := ValueMember(value);
      }
      children := children + [Entry(key, shown)];
    }

    /** `createPropertiesMenu(properties)`: clear the panel, delete the hidden
        properties from the element (the caller sees the deletions, so the
        stripped element is returned), then add one entry per remaining key. */
    method CreatePropertiesMenu(properties: Object) returns (remaining: Object)
      modifies this
      ensures remaining == Stripped(properties)
      ensures children == MenuEntries(properties)
    {
      RemoveAllChildren();
      remaining := Delete(properties, "psets");
      remaining := Delete(remaining, "mats");
      remaining := Delete(remaining, "type");
      for i := 0 to |remaining.keys|
        invariant children == EntriesFor(remaining, remaining.keys[..i])
      {
        var key := remaining.keys[i];
        CreatePropertyEntry(key, Get(remaining, key));
        EntriesForStep(remaining, remaining.keys, i);
      }
      assert remaining.keys[..|remaining.keys|] == remaining.keys;
    }
  }
}
