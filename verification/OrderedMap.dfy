/**
 * The ordered map of incomplete products, whose keys are compared by the circular `<` alone: two keys
 * of which neither is less than the other are the same key to it.
 */
module OrderedMaps {
  import opened Wrappers
  import opened ProdIndexes

  /** Each key's value is the product whose entry the map points to. */
  type OrderedMap = map<ProdIndex, ProdIndex>

  predicate Equivalent(a: ProdIndex, b: ProdIndex) {
    !Less(a, b) && !Less(b, a)
  }

  /** On these keys, `<` is a strict weak order. On others, the map's behaviour is undefined. */
  ghost predicate IsOrdered(keys: set<ProdIndex>) {
    forall a, b, c :: a in keys && b in keys && c in keys ==>
      && (Less(a, b) && Less(b, c) ==> Less(a, c))
      && (Equivalent(a, b) && Equivalent(b, c) ==> Equivalent(a, c))
  }

  /** The keys that a map can have at once. */
  ghost predicate AreDistinct(keys: set<ProdIndex>) {
    forall a, b :: a in keys && b in keys && a != b ==> !Equivalent(a, b)
  }

  ghost predicate IsUsable(m: OrderedMap, index: ProdIndex) {
    AreDistinct(m.Keys) && IsOrdered(m.Keys + {index})
  }

  /** Another key that's the same key to the map. */
  ghost predicate Collides(keys: set<ProdIndex>, index: ProdIndex) {
    exists k :: k in keys && k != index && Minus(k, index) in {HALF, HALF + 1, HALF + 2}
  }

  ghost predicate IsAnything(m: OrderedMap) {
    true
  }

  ghost function Undefined(m: OrderedMap): OrderedMap {
    assert IsAnything(m);
    var result :| IsAnything(result);
    result
  }

  ghost function FindKey(keys: set<ProdIndex>, index: ProdIndex): Option<ProdIndex> {
    if exists k :: k in keys && Equivalent(k, index) then
      var k :| k in keys && Equivalent(k, index);
      Some(k)
    else None
  }

  /** `m[index] = value`: an equivalent key stays, and gets the value. */
  ghost function Assigned(m: OrderedMap, index: ProdIndex, value: ProdIndex): OrderedMap {
    if !IsUsable(m, index) then Undefined(m)
    else
      match FindKey(m.Keys, index)
      case Some(k) => m[k := value]
      case None => m[index := value]
  }

  /** `m.erase(index)`: an equivalent key goes. */
  ghost function Removed(m: OrderedMap, index: ProdIndex): OrderedMap {
    if !IsUsable(m, index) then Undefined(m)
    else
      match FindKey(m.Keys, index)
      case Some(k) => m - {k}
      case None => m
  }

  lemma EquivalentAtTheMiddle(a: ProdIndex, b: ProdIndex)
    ensures Equivalent(a, b) <==> a == b || Minus(a, b) in {HALF, HALF + 1, HALF + 2}
  {
    AtMostOneOrder(b, a);
  }

  lemma FindKeyIsUnique(m: OrderedMap, index: ProdIndex, k: ProdIndex)
    requires IsUsable(m, index) && k in m && Equivalent(k, index)
    ensures FindKey(m.Keys, index) == Some(k)
  {
    var found := FindKey(m.Keys, index).value;
    assert Equivalent(index, k) && Equivalent(found, index);
    assert found in m.Keys + {index} && k in m.Keys + {index} && index in m.Keys + {index};
  }

  /** Without a collision the map is a map; with one, the index isn't a key and the other key is used instead. */
  lemma CollisionsDecide(m: OrderedMap, index: ProdIndex, value: ProdIndex)
    requires IsUsable(m, index)
    ensures !Collides(m.Keys, index) ==> Assigned(m, index, value) == m[index := value]
    ensures !Collides(m.Keys, index) ==> Removed(m, index) == m - {index}
    ensures Collides(m.Keys, index) ==> index !in m
    ensures Collides(m.Keys, index) ==>
              exists k :: k in m && Minus(k, index) in {HALF, HALF + 1, HALF + 2} &&
                          Assigned(m, index, value) == m[k := value] && Removed(m, index) == m - {k}
    ensures AreDistinct(Assigned(m, index, value).Keys) && AreDistinct(Removed(m, index).Keys)
  {
    forall k | k in m
      ensures Equivalent(k, index) <==> k == index || Minus(k, index) in {HALF, HALF + 1, HALF + 2}
    {
      EquivalentAtTheMiddle(k, index);
    }
    if Collides(m.Keys, index) {
      var k :| k in m.Keys && k != index && Minus(k, index) in {HALF, HALF + 1, HALF + 2};
      FindKeyIsUnique(m, index, k);
      assert index !in m;
    } else if index in m {
      FindKeyIsUnique(m, index, index);
    } else {
      assert FindKey(m.Keys, index) == None;
      assert m - {index} == m;
    }
  }

  /** In a window, the map is usable and there are no collisions. */
  lemma WindowIsUsable(base: ProdIndex, m: OrderedMap, index: ProdIndex)
    requires InWindow(base, m.Keys + {index})
    ensures IsUsable(m, index) && !Collides(m.Keys, index)
  {
    var keys := m.Keys + {index};
    StrictTotalOrderInWindow(base, keys);
    forall k | k in keys
      ensures Equivalent(k, index) <==> k == index || Minus(k, index) in {HALF, HALF + 1, HALF + 2}
    {
      EquivalentAtTheMiddle(k, index);
    }
  }

  // ---------------------------------------------------------------- the operations

  /** Finds an equivalent key. */
  method Find(m: OrderedMap, index: ProdIndex) returns (key: Option<ProdIndex>)
    ensures key.Some? ==> key.value in m && Equivalent(key.value, index)
    ensures key.None? ==> forall k :: k in m ==> !Equivalent(k, index)
    ensures IsUsable(m, index) ==> key == FindKey(m.Keys, index)
  {
    key := None;
    var todo := m.Keys;
    while todo != {}
      invariant todo <= m.Keys
      invariant key.Some? ==> key.value in m && Equivalent(key.value, index)
      invariant key.None? ==> forall k :: k in m && k !in todo ==> !Equivalent(k, index)
      decreases todo
    {
      var k :| k in todo;
      if !Less(k, index) && !Less(index, k) {
        key := Some(k);
      }
      todo := todo - {k};
    }
    if IsUsable(m, index) && key.Some? {
      FindKeyIsUnique(m, index, key.value);
    }
  }

  method Assign(m: OrderedMap, index: ProdIndex, value: ProdIndex) returns (result: OrderedMap)
    ensures IsUsable(m, index) ==> result == Assigned(m, index, value)
  {
    var key := Find(m, index);
    result := m[(if key.Some? then key.value else index) := value];
  }

  method Remove(m: OrderedMap, index: ProdIndex) returns (result: OrderedMap)
    ensures IsUsable(m, index) ==> result == Removed(m, index)
  {
    var key := Find(m, index);
    result := if key.Some? then m - {key.value} else m;
  }
}
