/** The property-set resolver `getPropertySets`. The repository carries three
    identical copies of it (app.js, components/db-load.js and
    components/get-properties.js); this module models all three.

    The `properties` table parsed from the exported JSON maps express IDs to
    record objects. Records are named by their key: the resolver's filters and
    maps pass record objects around, and an object's key in the table is its
    identity. */
module PropertySets {
  import opened JsValues

  type Table = map<nat, Object>

  const RelDefinesByProperties := "IFCRELDEFINESBYPROPERTIES"

  // ---------------------------------------------------------------------
  // Iteration order of `Object.values` and `filter`
  // ---------------------------------------------------------------------

  predicate Increasing(ks: seq<nat>)
  {
    forall i, j :: 0 <= i < j < |ks| ==> ks[i] < ks[j]
  }

  /** A set of naturals that contains `x` has a least element. */
  lemma {:induction false} HasMinimum(s: set<nat>, x: nat)
    requires x in s
    ensures exists k :: k in s && forall j :: j in s ==> k <= j
    decreases x
  {
    if exists y :: y in s && y < x {
      var y :| y in s && y < x;
      HasMinimum(s, y);
    } else {
      assert forall j :: j in s ==> x <= j;
    }
  }

  function MinKey(s: set<nat>): (k: nat)
    requires s != {}
    ensures k in s && forall j :: j in s ==> k <= j
  {
    var x :| x in s;
    HasMinimum(s, x);
    var k :| k in s && forall j :: j in s ==> k <= j;
    k
  }

  /** The order in which `Object.values` visits a table whose keys are all
      integer-like: ascending numeric order. */
  function AscendingKeys(s: set<nat>): (ks: seq<nat>)
    ensures forall k {:trigger k in ks} :: k in ks <==> k in s
    ensures Increasing(ks)
    decreases |s|
  {
    if s == {} then []
    else
      var k := MinKey(s);
      var rest := AscendingKeys(s - {k});
      assert forall j :: j in rest ==> k < j;
      var r := [k] + rest;
      assert forall j :: j in r <==> j == k || j in rest;
      assert Increasing(r) by {
        forall a, b | 0 <= a < b < |r|
          ensures r[a] < r[b]
        {
          assert r[b] == rest[b - 1] && rest[b - 1] in rest;
        }
      }
      r
  }

  /** `filter` over a list of record keys. */
  function KeepIf(ks: seq<nat>, keep: nat -> bool): (r: seq<nat>)
    ensures forall k :: k in r <==> k in ks && keep(k)
    ensures Increasing(ks) ==> Increasing(r)
    ensures |r| <= |ks|
  {
    if |ks| == 0 then []
    else
      var rest := KeepIf(ks[1..], keep);
      var r := (if keep(ks[0]) then [ks[0]] else []) + rest;
      assert forall k :: k in ks[1..] ==> k in ks;
      assert Increasing(ks) ==> Increasing(r) by {
        if Increasing(ks) {
          forall k | k in rest
            ensures ks[0] < k
          {
            var i :| 0 <= i < |ks[1..]| && ks[1..][i] == k;
            assert ks[i + 1] == k;
          }
          forall i, j | 0 <= i < j < |r|
            ensures r[i] < r[j]
          {
            if keep(ks[0]) && i == 0 {
              assert r[j] == rest[j - 1] && rest[j - 1] in rest;
            }
          }
        }
      }
      r
  }

  /** Filtering with two tests that agree on the list gives the same list. */
  lemma {:induction false} KeepIfAgree(ks: seq<nat>, p: nat -> bool, q: nat -> bool)
    requires forall k :: k in ks ==> p(k) == q(k)
    ensures KeepIf(ks, p) == KeepIf(ks, q)
  {
    if |ks| != 0 {
      assert forall k :: k in ks[1..] ==> k in ks;
      KeepIfAgree(ks[1..], p, q);
    }
  }

  /** Two increasing lists with the same elements are the same list. */
  lemma {:induction false} IncreasingUnique(a: seq<nat>, b: seq<nat>)
    requires Increasing(a) && Increasing(b)
    requires forall k :: k in a <==> k in b
    ensures a == b
  {
    if |a| != 0 {
      assert a[0] in a;
    }
    if |b| != 0 {
      assert b[0] in b;
    }
    if |a| != 0 && |b| != 0 {
      assert forall k :: k in a[1..] ==> a[0] < k;
      assert forall k :: k in b[1..] ==> b[0] < k;
      assert a[0] == b[0];
      forall k ensures k in a[1..] <==> k in b[1..] {
        assert k in a[1..] <==> k in a && k != a[0];
        assert k in b[1..] <==> k in b && k != b[0];
      }
      IncreasingUnique(a[1..], b[1..]);
      assert a == [a[0]] + a[1..];
      assert b == [b[0]] + b[1..];
    }
  }

  // ---------------------------------------------------------------------
  // The records the resolver looks at
  // ---------------------------------------------------------------------

  predicate IsPsetRel(o: Object)
  {
    Get(o, "type") == Str(RelDefinesByProperties)
  }

  /** `item.RelatedObjects.includes(id)`. */
  predicate RelatesTo(o: Object, id: Value)
  {
    match Get(o, "RelatedObjects")
    case Arr(xs) => Includes(xs, id)
    case _ => false
  }

  /** The record under `k` is an IFCRELDEFINESBYPROPERTIES relation. */
  predicate IsPsetRelAt(t: Table, k: nat)
  {
    k in t && IsPsetRel(t[k])
  }

  /** The record under `k` is an IFCRELDEFINESBYPROPERTIES relation whose
      `RelatedObjects` contains `id`. */
  predicate Matches(t: Table, id: Value, k: nat)
  {
    k in t && IsPsetRel(t[k]) && RelatesTo(t[k], id)
  }

  /** The record under `k` has a `HasProperties` list. */
  predicate IsPset(t: Table, k: nat)
  {
    k in t && Get(t[k], "HasProperties").Arr?
  }

  /** The relation's `RelatingPropertyDefinition` names a record of the table
      that has a `HasProperties` list. */
  predicate DefinesPset(t: Table, rel: Object)
  {
    match Get(rel, "RelatingPropertyDefinition")
    case Num(n) => n >= 0 && IsPset(t, n as nat)
    case _ => false
  }

  predicate PointsToPset(t: Table, k: nat)
  {
    k in t && DefinesPset(t, t[k])
  }

  function DefinitionKey(t: Table, rel: Object): (k: nat)
    requires DefinesPset(t, rel)
    ensures IsPset(t, k)
    ensures Get(rel, "RelatingPropertyDefinition") == Num(k)
  {
    Get(rel, "RelatingPropertyDefinition").n as nat
  }

  /** What the resolver needs of the record under `k` in order not to throw:
      an IFCRELDEFINESBYPROPERTIES record has a `RelatedObjects` array (the
      second filter reads it on all of them), and one that relates to `id`
      points at a record with a `HasProperties` array (the loop reads it). */
  predicate RelOk(t: Table, id: Value, k: nat)
  {
    IsPsetRelAt(t, k) ==>
      Get(t[k], "RelatedObjects").Arr? && (RelatesTo(t[k], id) ==> DefinesPset(t, t[k]))
  }

  ghost predicate Resolvable(t: Table, id: Value)
  {
    forall k :: RelOk(t, id, k)
  }

  lemma MatchPointsToPset(t: Table, id: Value, k: nat)
    requires Resolvable(t, id) && Matches(t, id, k)
    ensures PointsToPset(t, k)
  {
    assert RelOk(t, id, k);
  }

  function ExpressId(o: Object): Value
  {
    Get(o, "expressID")
  }

  // ---------------------------------------------------------------------
  // The filter / filter / map chain
  // ---------------------------------------------------------------------

  /** `Object.values(properties).filter(item => item.type === ...)`. */
  function AllPsetRels(t: Table): (r: seq<nat>)
    ensures Increasing(r)
    ensures forall k :: k in r <==> IsPsetRelAt(t, k)
  {
    KeepIf(AscendingKeys(t.Keys), (k: nat) => IsPsetRelAt(t, k))
  }

  /** `allPsetsRels.filter(item => item.RelatedObjects.includes(id))`. */
  function RelatedPsetRels(t: Table, id: Value): (r: seq<nat>)
    ensures Increasing(r)
    ensures forall k :: k in r <==> Matches(t, id, k)
  {
    KeepIf(AllPsetRels(t), k => k in t && RelatesTo(t[k], id))
  }

  /** `relatedPsetsRels.map(item => properties[item.RelatingPropertyDefinition])`. */
  function DefinitionsOf(t: Table, rels: seq<nat>): (r: seq<nat>)
    requires forall i :: 0 <= i < |rels| ==> PointsToPset(t, rels[i])
    ensures |r| == |rels|
    ensures forall i :: 0 <= i < |r| ==> PointsToPset(t, rels[i]) && r[i] == DefinitionKey(t, t[rels[i]])
    ensures forall k :: k in r ==> IsPset(t, k)
  {
    if |rels| == 0 then []
    else
      assert PointsToPset(t, rels[0]);
      [DefinitionKey(t, t[rels[0]])] + DefinitionsOf(t, rels[1..])
  }

  /** The keys of the property-set records the resolver selects for `id`, one
      per matching relation, in table order. */
  function PsetKeys(t: Table, id: Value): (r: seq<nat>)
    requires Resolvable(t, id)
    ensures forall k :: k in r ==> IsPset(t, k)
  {
    var rels := RelatedPsetRels(t, id);
    forall i | 0 <= i < |rels|
      ensures PointsToPset(t, rels[i])
    {
      MatchPointsToPset(t, id, rels[i]);
    }
    DefinitionsOf(t, rels)
  }

  /** `properties[id]` for a member reference: a reference to the record
      the id names when the table has one, `undefined` otherwise. */
  function Lookup(t: Table, id: Value): (r: Value)
    ensures r == Undefined || (r.Ref? && r.key in t && id == Num(r.key))
    ensures (id.Num? && id.n >= 0 && id.n as nat in t) ==> r.Ref?
  {
    match id
    case Num(n) => if n >= 0 && n as nat in t then Ref(n as nat) else Undefined
    case _ => Undefined
  }

  /** `pset.HasProperties.map((id) => properties[id])`: an array exactly
      when `HasProperties` is one, with one lookup per member id, in order. */
  function HasPropertyOf(t: Table, pset: Object): (r: Value)
    ensures r.Arr? <==> Get(pset, "HasProperties").Arr?
    ensures !r.Arr? ==> r == Undefined
    ensures r.Arr? ==> |r.elems| == |Get(pset, "HasProperties").elems|
    ensures r.Arr? ==> forall i :: 0 <= i < |r.elems| ==> r.elems[i] == Lookup(t, Get(pset, "HasProperties").elems[i])
  {
    match Get(pset, "HasProperties")
    case Arr(ids) => Arr(seq(|ids|, i requires 0 <= i < |ids| => Lookup(t, ids[i])))
    case _ => Undefined
  }

  /** The table after `pset.HasProperty = ...` has been executed for each
      record of `ks` in turn, reading the table as it stands at each step. */
  function Written(t: Table, ks: seq<nat>): (r: Table)
    ensures r.Keys == t.Keys
    ensures forall k :: k in t && k !in ks ==> r[k] == t[k]
    decreases |ks|
  {
    if |ks| == 0 then t
    else
      var r := Written(t, ks[..|ks| - 1]);
      var k := ks[|ks| - 1];
      if k in r then r[k := SetField(r[k], "HasProperty", HasPropertyOf(r, r[k]))] else r
  }

  function RefsTo(ks: seq<nat>): seq<Value>
  {
    seq(|ks|, i requires 0 <= i < |ks| => Ref(ks[i]))
  }

  /** The table after the loop has written `HasProperty` on the records of
      `ks` and the element under `p` has received `psets`, the list of
      references to those records. */
  function Applied(t: Table, p: nat, ks: seq<nat>): (r: Table)
    requires p in t
    ensures r.Keys == t.Keys
    ensures Get(r[p], "psets") == Arr(RefsTo(ks))
    ensures forall k :: k in t && k != p && k !in ks ==> r[k] == t[k]
  {
    WrittenKeys(t, ks);
    var t1 := Written(t, ks);
    t1[p := SetField(t1[p], "psets", Arr(RefsTo(ks)))]
  }

  /** The whole table after `getPropertySets(properties[p])`. */
  function Resolved(t: Table, p: nat): (r: Table)
    requires p in t && Resolvable(t, ExpressId(t[p]))
    ensures r.Keys == t.Keys
    ensures forall k :: k in t && k != p && k !in PsetKeys(t, ExpressId(t[p])) ==> r[k] == t[k]
  {
    Applied(t, p, PsetKeys(t, ExpressId(t[p])))
  }

  /** The module-level `properties` table, which the resolver updates in place. */
  class PropertyTable {
    var records: Table

    constructor (parsed: Table)
      ensures records == parsed
    {
      records := parsed;
    }

    /** `getPropertySets(properties[p])`: the filter / filter / map chain
        selects the property sets, the loop writes their `HasProperty`, and
        the element gets `psets`. */
    method GetPropertySets(p: nat)
      requires p in records && Resolvable(records, ExpressId(records[p]))
      modifies this
      ensures records == Resolved(old(records), p)
    {
      ghost var t := records;
      var id := Get(records[p], "expressID");
      var psets := PsetKeys(records, id);
      WriteHasProperties(psets);
      WrittenKeys(t, psets);
      records := records[p := SetField(records[p], "psets", Arr(RefsTo(psets)))];
    }

    /** `for (let pset of psets) pset.HasProperty = pset.HasProperties.map(...)`. */
    method WriteHasProperties(psets: seq<nat>)
      requires forall k :: k in psets ==> IsPset(records, k)
      modifies this
      ensures records == Written(old(records), psets)
    {
      ghost var t := records;
      for i := 0 to |psets|
        invariant records == Written(t, psets[..i])
      {
        var k := psets[i];
        assert k in psets;
        WrittenStep(t, psets, i);
        records := records[k := SetField(records[k], "HasProperty", HasPropertyOf(records, records[k]))];
      }
      assert psets[..|psets|] == psets;
    }
  }

  // ---------------------------------------------------------------------
  // What the loop and the final assignment do, for any selection
  // ---------------------------------------------------------------------

  /** One more iteration of the loop writes one more record. */
  lemma WrittenStep(t: Table, ks: seq<nat>, i: nat)
    requires i < |ks| && ks[i] in t
    ensures Written(t, ks[..i]).Keys == t.Keys
    ensures var r := Written(t, ks[..i]);
            Written(t, ks[..i + 1]) == r[ks[i] := SetField(r[ks[i]], "HasProperty", HasPropertyOf(r, r[ks[i]]))]
  {
    WrittenKeys(t, ks[..i]);
    assert ks[..i + 1][..i] == ks[..i];
  }

  /** Member lookups only depend on which keys the table has. */
  lemma HasPropertyOfSameKeys(t: Table, u: Table, o: Object)
    requires t.Keys == u.Keys
    ensures HasPropertyOf(t, o) == HasPropertyOf(u, o)
  {
    match Get(o, "HasProperties")
    case Arr(ids) =>
      var a := seq(|ids|, i requires 0 <= i < |ids| => Lookup(t, ids[i]));
      var b := seq(|ids|, i requires 0 <= i < |ids| => Lookup(u, ids[i]));
      assert a == b;
    case _ =>
  }

  lemma {:induction false} WrittenKeys(t: Table, ks: seq<nat>)
    ensures Written(t, ks).Keys == t.Keys
    decreases |ks|
  {
    if |ks| != 0 {
      WrittenKeys(t, ks[..|ks| - 1]);
    }
  }

  /** Writing `HasProperty` never changes `HasProperties`, and references do
      not depend on the records' contents, so the loop's writes do not depend
      on one another: afterwards each record of `ks` holds the `HasProperty`
      computed from the original table, and every other record is as it was. */
  lemma {:induction false} WrittenAt(t: Table, ks: seq<nat>, k: nat)
    requires k in t
    ensures Written(t, ks).Keys == t.Keys
    ensures k in ks ==> Written(t, ks)[k] == SetField(t[k], "HasProperty", HasPropertyOf(t, t[k]))
    ensures k !in ks ==> Written(t, ks)[k] == t[k]
    decreases |ks|
  {
    if |ks| != 0 {
      var init := ks[..|ks| - 1];
      var last := ks[|ks| - 1];
      assert ks == init + [last];
      WrittenAt(t, init, k);
      var r := Written(t, init);
      if last in r {
        WrittenAt(t, init, last);
        HasPropertyOfSameKeys(r, t, r[last]);
        SetFieldTwice(t[last], "HasProperty", HasPropertyOf(t, t[last]));
      }
    }
  }

  /** What the loop and the assignment to `psets` do to one record: every
      property other than `psets` and `HasProperty` keeps its value, `psets`
      is written on the element only and `HasProperty` on the records of
      `ks` only, each to the element-wise lookup of its `HasProperties`. */
  lemma AppliedAt(t: Table, p: nat, ks: seq<nat>, k: nat)
    requires p in t && k in t
    ensures Applied(t, p, ks).Keys == t.Keys
    ensures forall f :: f != "psets" && f != "HasProperty" ==> Get(Applied(t, p, ks)[k], f) == Get(t[k], f)
    ensures k != p ==> Get(Applied(t, p, ks)[k], "psets") == Get(t[k], "psets")
    ensures k == p ==> Get(Applied(t, p, ks)[k], "psets") == Arr(RefsTo(ks)) && HasKey(Applied(t, p, ks)[k], "psets")
    ensures k !in ks ==> Get(Applied(t, p, ks)[k], "HasProperty") == Get(t[k], "HasProperty")
    ensures k in ks ==> Get(Applied(t, p, ks)[k], "HasProperty") == HasPropertyOf(t, t[k])
                        && HasKey(Applied(t, p, ks)[k], "HasProperty")
    ensures k != p && k !in ks ==> Applied(t, p, ks)[k] == t[k]
  {
    WrittenAt(t, ks, k);
    WrittenAt(t, ks, p);
  }

  /** The records of `ks` already hold, after the loop, the `HasProperty` the
      loop would compute again, and the element already holds `psets`. */
  lemma AppliedTwice(t: Table, p: nat, ks: seq<nat>)
    requires p in t
    ensures p in Applied(t, p, ks)
    ensures Applied(Applied(t, p, ks), p, ks) == Applied(t, p, ks)
  {
    var r := Applied(t, p, ks);
    AppliedAt(t, p, ks, p);
    WrittenKeys(r, ks);
    forall k | k in r
      ensures Written(r, ks)[k] == r[k]
    {
      AppliedAt(t, p, ks, k);
      WrittenAt(r, ks, k);
      if k in ks {
        HasPropertyOfSameKeys(r, t, r[k]);
        assert HasPropertyOf(t, r[k]) == HasPropertyOf(t, t[k]);
        SetFieldUnchanged(r[k], "HasProperty", HasPropertyOf(r, r[k]));
      }
    }
    assert Written(r, ks) == r;
    SetFieldUnchanged(r[p], "psets", Arr(RefsTo(ks)));
  }

  // ---------------------------------------------------------------------
  // What the resolver promises
  // ---------------------------------------------------------------------

  /** The property sets selected for `id` are, for each
      IFCRELDEFINESBYPROPERTIES record whose `RelatedObjects` contains `id`,
      the record under that relation's `RelatingPropertyDefinition`, once
      each, in ascending key order of the relations, and nothing else. */
  lemma PsetKeysAreMatchingDefinitions(t: Table, id: Value, rels: seq<nat>)
    requires Resolvable(t, id)
    requires Increasing(rels)
    requires forall k :: k in rels <==> Matches(t, id, k)
    ensures |PsetKeys(t, id)| == |rels|
    ensures forall i :: 0 <= i < |rels|
              ==> PointsToPset(t, rels[i]) && PsetKeys(t, id)[i] == DefinitionKey(t, t[rels[i]])
  {
    forall i | 0 <= i < |rels|
      ensures PointsToPset(t, rels[i])
    {
      assert rels[i] in rels;
      MatchPointsToPset(t, id, rels[i]);
    }
    IncreasingUnique(rels, RelatedPsetRels(t, id));
  }

  /** After the resolver, the element's `psets` is the list of references to
      the selected property-set records, in selection order. */
  lemma ResolvedPsets(t: Table, p: nat)
    requires p in t && Resolvable(t, ExpressId(t[p]))
    ensures p in Resolved(t, p)
    ensures Get(Resolved(t, p)[p], "psets") == Arr(RefsTo(PsetKeys(t, ExpressId(t[p]))))
  {
    AppliedAt(t, p, PsetKeys(t, ExpressId(t[p])), p);
  }

  /** An element that no IFCRELDEFINESBYPROPERTIES record relates to gets an
      empty `psets`. */
  lemma NoRelationNoPsets(t: Table, p: nat)
    requires p in t && Resolvable(t, ExpressId(t[p]))
    requires forall k :: k in t && IsPsetRel(t[k]) ==> !RelatesTo(t[k], ExpressId(t[p]))
    ensures p in Resolved(t, p)
    ensures Get(Resolved(t, p)[p], "psets") == Arr([])
  {
    var rels := RelatedPsetRels(t, ExpressId(t[p]));
    if |rels| != 0 {
      assert rels[0] in rels;
    }
    ResolvedPsets(t, p);
  }

  /** Two records that are alike as far as the two filters and the map can
      tell. */
  predicate SameRelation(a: Object, b: Object)
  {
    && IsPsetRel(a) == IsPsetRel(b)
    && (IsPsetRel(a) ==> && Get(a, "RelatedObjects") == Get(b, "RelatedObjects")
                         && Get(a, "RelatingPropertyDefinition") == Get(b, "RelatingPropertyDefinition"))
  }

  /** Tables whose records are pairwise alike select the same relations and
      the same property sets. */
  lemma SameRelationsSameSelection(t: Table, u: Table, id: Value)
    requires t.Keys == u.Keys
    requires forall k :: k in t ==> SameRelation(t[k], u[k])
    ensures RelatedPsetRels(t, id) == RelatedPsetRels(u, id)
    ensures Resolvable(t, id) && Resolvable(u, id) ==> PsetKeys(t, id) == PsetKeys(u, id)
  {
    var ks := AscendingKeys(t.Keys);
    forall k | k in ks
      ensures IsPsetRelAt(t, k) == IsPsetRelAt(u, k)
    {
      assert SameRelation(t[k], u[k]);
    }
    KeepIfAgree(ks, (k: nat) => IsPsetRelAt(t, k), (k: nat) => IsPsetRelAt(u, k));
    var rels := AllPsetRels(t);
    forall k | k in rels
      ensures RelatesTo(t[k], id) == RelatesTo(u[k], id)
    {
      assert SameRelation(t[k], u[k]);
    }
    KeepIfAgree(rels, k => k in t && RelatesTo(t[k], id), k => k in u && RelatesTo(u[k], id));
    if Resolvable(t, id) && Resolvable(u, id) {
      SameRelationsSameDefinitions(t, u, id);
    }
  }

  lemma SameRelationsSameDefinitions(t: Table, u: Table, id: Value)
    requires t.Keys == u.Keys
    requires forall k :: k in t ==> SameRelation(t[k], u[k])
    requires RelatedPsetRels(t, id) == RelatedPsetRels(u, id)
    requires Resolvable(t, id) && Resolvable(u, id)
    ensures PsetKeys(t, id) == PsetKeys(u, id)
  {
    var related := RelatedPsetRels(t, id);
    var a := PsetKeys(t, id);
    var b := PsetKeys(u, id);
    forall i | 0 <= i < |a|
      ensures a[i] == b[i]
    {
      assert related[i] in related;
      assert SameRelation(t[related[i]], u[related[i]]);
    }
  }

  /** Records of any type other than IFCRELDEFINESBYPROPERTIES never
      contribute: two tables with the same keys whose relation records agree
      select the same relations and the same property sets, whatever their
      other records hold. */
  lemma OtherTypesNeverContribute(t: Table, u: Table, id: Value)
    requires t.Keys == u.Keys
    requires forall k :: k in t && (IsPsetRel(t[k]) || IsPsetRel(u[k])) ==> t[k] == u[k]
    ensures RelatedPsetRels(t, id) == RelatedPsetRels(u, id)
    ensures Resolvable(t, id) && Resolvable(u, id) ==> PsetKeys(t, id) == PsetKeys(u, id)
  {
    SameRelationsSameSelection(t, u, id);
  }

  /** Each selected property set gets `HasProperty`, a list as long as its
      `HasProperties` whose i-th element is `properties[HasProperties[i]]`;
      `HasProperties` itself is left as it was. */
  lemma HasPropertyIsElementwiseLookup(t: Table, p: nat, k: nat)
    requires p in t && Resolvable(t, ExpressId(t[p]))
    requires k in PsetKeys(t, ExpressId(t[p]))
    ensures k in t && k in Resolved(t, p)
    ensures Get(t[k], "HasProperties").Arr?
    ensures Get(Resolved(t, p)[k], "HasProperties") == Get(t[k], "HasProperties")
    ensures var hp := Get(t[k], "HasProperties").elems;
            var v := Get(Resolved(t, p)[k], "HasProperty");
            v.Arr? && |v.elems| == |hp| && forall i :: 0 <= i < |hp| ==> v.elems[i] == Lookup(t, hp[i])
  {
    AppliedAt(t, p, PsetKeys(t, ExpressId(t[p])), k);
  }

  /** Only `props.psets` and the selected property sets' `HasProperty` are
      written: the table keeps its keys, every other property of every record
      keeps its value, `psets` changes on the element only, `HasProperty` on
      the selected property sets only, and records that are neither are
      untouched. */
  lemma OnlyPsetsAndHasPropertyChange(t: Table, p: nat)
    requires p in t && Resolvable(t, ExpressId(t[p]))
    ensures Resolved(t, p).Keys == t.Keys
    ensures forall k, f :: k in t && f != "psets" && f != "HasProperty"
              ==> Get(Resolved(t, p)[k], f) == Get(t[k], f)
    ensures forall k :: k in t && k != p ==> Get(Resolved(t, p)[k], "psets") == Get(t[k], "psets")
    ensures forall k :: k in t && k !in PsetKeys(t, ExpressId(t[p]))
              ==> Get(Resolved(t, p)[k], "HasProperty") == Get(t[k], "HasProperty")
    ensures forall k :: k in t && k != p && k !in PsetKeys(t, ExpressId(t[p])) ==> Resolved(t, p)[k] == t[k]
  {
    var ks := PsetKeys(t, ExpressId(t[p]));
    AppliedAt(t, p, ks, p);
    forall k | k in t
      ensures forall f :: f != "psets" && f != "HasProperty" ==> Get(Applied(t, p, ks)[k], f) == Get(t[k], f)
      ensures k != p ==> Get(Applied(t, p, ks)[k], "psets") == Get(t[k], "psets")
      ensures k !in ks ==> Get(Applied(t, p, ks)[k], "HasProperty") == Get(t[k], "HasProperty")
      ensures k != p && k !in ks ==> Applied(t, p, ks)[k] == t[k]
    {
      AppliedAt(t, p, ks, k);
    }
  }

  /** The properties the resolver reads. */
  predicate SameInputs(a: Object, b: Object)
  {
    && Get(a, "type") == Get(b, "type")
    && Get(a, "RelatedObjects") == Get(b, "RelatedObjects")
    && Get(a, "RelatingPropertyDefinition") == Get(b, "RelatingPropertyDefinition")
    && Get(a, "HasProperties") == Get(b, "HasProperties")
  }

  /** The selection depends on nothing but the properties it reads: two tables
      with the same keys whose records agree on `type`, `RelatedObjects`,
      `RelatingPropertyDefinition` and `HasProperties` are resolvable for the
      same elements and select the same property sets. */
  lemma SelectionDependsOnInputs(t: Table, u: Table, id: Value)
    requires t.Keys == u.Keys
    requires forall k :: k in t ==> SameInputs(t[k], u[k])
    ensures RelatedPsetRels(t, id) == RelatedPsetRels(u, id)
    ensures Resolvable(t, id) <==> Resolvable(u, id)
    ensures Resolvable(t, id) ==> PsetKeys(t, id) == PsetKeys(u, id)
  {
    forall n ensures IsPset(t, n) <==> IsPset(u, n) {
      if n in t {
        assert SameInputs(t[n], u[n]);
      }
    }
    forall k ensures RelOk(t, id, k) <==> RelOk(u, id, k) {
      if k in t {
        assert SameInputs(t[k], u[k]);
      }
      SameInputsRelOk(t, u, id, k);
    }
    forall k | k in t
      ensures SameRelation(t[k], u[k])
    {
      assert SameInputs(t[k], u[k]);
    }
    SameRelationsSameSelection(t, u, id);
  }

  lemma SameInputsRelOk(t: Table, u: Table, id: Value, k: nat)
    requires t.Keys == u.Keys
    requires k in t ==> SameInputs(t[k], u[k])
    requires forall n :: IsPset(t, n) <==> IsPset(u, n)
    ensures RelOk(t, id, k) <==> RelOk(u, id, k)
  {
    if k in t {
      match Get(t[k], "RelatingPropertyDefinition")
      case Num(n) =>
        if n >= 0 {
          assert IsPset(t, n as nat) <==> IsPset(u, n as nat);
        }
      case _ =>
    }
  }

  /** Running the resolver a second time on the same element changes nothing:
      it never writes the properties it reads (`type`, `RelatedObjects`,
      `RelatingPropertyDefinition`, `HasProperties`, `expressID`), so it
      selects the same property sets and writes the same values again. */
  lemma ResolveTwiceSame(t: Table, p: nat)
    requires p in t && Resolvable(t, ExpressId(t[p]))
    ensures var r := Resolved(t, p);
            p in r && Resolvable(r, ExpressId(r[p])) && Resolved(r, p) == r
  {
    var id := ExpressId(t[p]);
    var ks := PsetKeys(t, id);
    var r := Applied(t, p, ks);
    AppliedKeepsInputs(t, p, ks);
    SelectionDependsOnInputs(t, r, id);
    AppliedTwice(t, p, ks);
  }

  /** The loop and the assignment to `psets` write none of the properties the
      selection reads. */
  lemma AppliedKeepsInputs(t: Table, p: nat, ks: seq<nat>)
    requires p in t
    ensures Applied(t, p, ks).Keys == t.Keys
    ensures forall k :: k in t ==> SameInputs(t[k], Applied(t, p, ks)[k])
    ensures ExpressId(Applied(t, p, ks)[p]) == ExpressId(t[p])
  {
    forall k | k in t
      ensures k in Applied(t, p, ks) && SameInputs(t[k], Applied(t, p, ks)[k])
    {
      AppliedAt(t, p, ks, k);
    }
    AppliedAt(t, p, ks, p);
  }

}
