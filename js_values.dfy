/** The fragment of JavaScript's value and object semantics that the viewer's
    data layer relies on: property lookup that yields `undefined` for a
    missing key, property assignment and deletion, truthiness and strict
    equality. */
module JsValues {

  datatype Option<+T> = None | Some(value: T)

  /** A JavaScript value. Numbers are integers (the records only hold express
      IDs and counters as numbers that matter here). `Ref(k)` is a reference
      to the record object stored under key `k` of the property table: the
      arrays the resolver writes hold such references, not copies. */
  datatype Value =
    | Undefined
    | Null
    | Bool(b: bool)
    | Num(n: int)
    | Str(s: string)
    | Arr(elems: seq<Value>)
    | Obj(obj: Object)
    | Ref(key: nat)

  /** A plain object: its own keys in the order they were created (the order
      `for ... in` visits them) and the value held under each key. */
  datatype Object = Object(keys: seq<string>, vals: map<string, Value>)

  predicate DistinctKeys(ks: seq<string>)
  {
    forall i, j :: 0 <= i < j < |ks| ==> ks[i] != ks[j]
  }

  /** Every own key is listed once, and the listed keys are exactly the keys
      that hold a value. */
  predicate WellFormed(o: Object)
  {
    && DistinctKeys(o.keys)
    && (forall k :: k in o.keys ==> k in o.vals)
    && (forall k :: k in o.vals ==> k in o.keys)
  }

  predicate HasKey(o: Object, k: string)
  {
    k in o.vals
  }

  /** `o[k]`: the value of the property named `k`, `undefined` when absent. */
  function Get(o: Object, k: string): (r: Value)
    ensures HasKey(o, k) ==> r == o.vals[k]
    ensures !HasKey(o, k) ==> r == Undefined
  {
    if k in o.vals then o.vals[k] else Undefined
  }

  /** `o[k] = v`: an existing property keeps its place, a new one goes last. */
  function SetField(o: Object, k: string, v: Value): (r: Object)
    ensures Get(r, k) == v && HasKey(r, k)
    ensures forall j :: j != k ==> Get(r, j) == Get(o, j) && (HasKey(r, j) <==> HasKey(o, j))
    ensures HasKey(o, k) ==> r.keys == o.keys
    ensures !HasKey(o, k) ==> r.keys == o.keys + [k]
    ensures WellFormed(o) ==> WellFormed(r)
  {
    if k in o.vals then Object(o.keys, o.vals[k := v])
    else Object(o.keys + [k], o.vals[k := v])
  }

  /** Assigning a property the value it already holds leaves the object as it was. */
  lemma SetFieldUnchanged(o: Object, k: string, v: Value)
    requires HasKey(o, k) && Get(o, k) == v
    ensures SetField(o, k, v) == o
  {
    assert o.vals[k := v] == o.vals;
  }

  /** Writing the same property twice with the same value is one write. */
  lemma SetFieldTwice(o: Object, k: string, v: Value)
    ensures SetField(SetField(o, k, v), k, v) == SetField(o, k, v)
  {
    SetFieldUnchanged(SetField(o, k, v), k, v);
  }

  /** The key list without `k`, the others in their order. */
  function RemoveKey(ks: seq<string>, k: string): (r: seq<string>)
    ensures forall j :: j in r <==> j in ks && j != k
    ensures DistinctKeys(ks) ==> DistinctKeys(r)
    ensures |r| <= |ks|
  {
    if |ks| == 0 then []
    else
      var rest := RemoveKey(ks[1..], k);
      assert forall j :: j in ks <==> j == ks[0] || j in ks[1..];
      if ks[0] == k then rest
      else
        assert DistinctKeys(ks) ==> ks[0] !in ks[1..];
        [ks[0]] + rest
  }

  /** Removing a key that is not listed leaves the list as it was. */
  lemma {:induction false} RemoveAbsentKey(ks: seq<string>, k: string)
    requires k !in ks
    ensures RemoveKey(ks, k) == ks
  {
    if |ks| != 0 {
      assert ks == [ks[0]] + ks[1..];
      RemoveAbsentKey(ks[1..], k);
    }
  }

  /** The tail of a duplicate-free key list is duplicate-free and lacks the head. */
  lemma DistinctTail(ks: seq<string>)
    requires |ks| != 0 && DistinctKeys(ks)
    ensures DistinctKeys(ks[1..]) && ks[0] !in ks[1..]
  {
    forall i | 0 <= i < |ks[1..]| ensures ks[1..][i] != ks[0] {
      assert ks[1..][i] == ks[i + 1];
    }
    forall i, j | 0 <= i < j < |ks[1..]| ensures ks[1..][i] != ks[1..][j] {
      assert ks[1..][i] == ks[i + 1] && ks[1..][j] == ks[j + 1];
    }
  }

  /** Removing the key at position `p` of a duplicate-free list closes the
      gap, the keys before and after it keeping their order. */
  lemma {:induction false} RemoveKeyAt(ks: seq<string>, k: string, p: nat)
    requires DistinctKeys(ks) && p < |ks| && ks[p] == k
    ensures RemoveKey(ks, k) == ks[..p] + ks[p + 1..]
  {
    DistinctTail(ks);
    if p == 0 {
      RemoveAbsentKey(ks[1..], k);
    } else {
      RemoveKeyAt(ks[1..], k, p - 1);
      assert ks[1..][..p - 1] == ks[1..p];
      assert ks[1..][p..] == ks[p + 1..];
      assert ks[..p] == [ks[0]] + ks[1..p];
    }
  }

  /** Both cases together, for every position. */
  lemma RemoveKeyKeepsOrder(ks: seq<string>, k: string)
    ensures k !in ks ==> RemoveKey(ks, k) == ks
    ensures forall p :: DistinctKeys(ks) && 0 <= p < |ks| && ks[p] == k
              ==> RemoveKey(ks, k) == ks[..p] + ks[p + 1..]
  {
    if k !in ks {
      RemoveAbsentKey(ks, k);
    }
    forall p | DistinctKeys(ks) && 0 <= p < |ks| && ks[p] == k
      ensures RemoveKey(ks, k) == ks[..p] + ks[p + 1..]
    {
      RemoveKeyAt(ks, k, p);
    }
  }

  /** `delete o[k]`: the key is gone, every other property is as it was, and
      the remaining keys keep their order. */
  function Delete(o: Object, k: string): (r: Object)
    ensures !HasKey(r, k) && Get(r, k) == Undefined
    ensures forall j :: j != k ==> Get(r, j) == Get(o, j) && (HasKey(r, j) <==> HasKey(o, j))
    ensures WellFormed(o) ==> WellFormed(r)
    ensures k !in o.keys ==> r.keys == o.keys
    ensures forall p :: DistinctKeys(o.keys) && 0 <= p < |o.keys| && o.keys[p] == k
              ==> r.keys == o.keys[..p] + o.keys[p + 1..]
  {
    RemoveKeyKeepsOrder(o.keys, k);
    Object(RemoveKey(o.keys, k), o.vals - {k})
  }

  /** JavaScript truthiness; every object and array is truthy. */
  predicate Truthy(v: Value)
    ensures Truthy(v) ==> v != Undefined && v != Null
    ensures v.Obj? || v.Arr? || v.Ref? ==> Truthy(v)
  {
    match v
    case Undefined => false
    case Null => false
    case Bool(b) => b
    case Num(n) => n != 0
    case Str(s) => s != ""
    case _ => true
  }

  /** `a === b` (and `SameValueZero`, which agrees with it on integers).
      Arrays and objects parsed from JSON are all distinct objects, so none of
      them is identical to another value; references are identical exactly
      when they name the same record. */
  predicate StrictEquals(a: Value, b: Value)
  {
    match (a, b)
    case (Undefined, Undefined) => true
    case (Null, Null) => true
    case (Bool(x), Bool(y)) => x == y
    case (Num(x), Num(y)) => x == y
    case (Str(x), Str(y)) => x == y
    case (Ref(x), Ref(y)) => x == y
    case _ => false
  }

  /** `xs.includes(x)`: some element of `xs` is identical to `x`. */
  predicate Includes(xs: seq<Value>, x: Value)
    ensures Includes(xs, x) <==> exists i :: 0 <= i < |xs| && StrictEquals(xs[i], x)
  {
    |xs| != 0 && (StrictEquals(xs[0], x) || Includes(xs[1..], x))
  }
}
