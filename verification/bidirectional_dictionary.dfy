/** `BidirectionalDictionary<TKey, TValue>`: a dictionary that keeps a second dictionary
  * from values back to keys. The two tables are shared with the `Inverse` view, which holds
  * them swapped, so a change made through either side shows in both. A `null` key or value
  * is `None`; keys and values are compared with plain equality. */
module BidirectionalDictionaries {
  import opened Wrappers

  /** A .NET `Dictionary<K, V>`: one mutable table. */
  class Table<K(==), V> {
    var items: map<K, V>

    constructor()
      ensures items == map[]
    {
      items := map[];
    }
  }

  /** Each table undoes the other. Swapping the two arguments gives the same condition. */
  ghost predicate Bijection<K, V>(forward: map<K, V>, backward: map<V, K>)
  {
    && (forall k :: k in forward ==> forward[k] in backward && backward[forward[k]] == k)
    && (forall v :: v in backward ==> backward[v] in forward && forward[backward[v]] == v)
  }

  /** Two tables that undo each other hold the same number of entries. */
  lemma {:induction false} BijectionSizes<K, V>(forward: map<K, V>, backward: map<V, K>)
    requires Bijection(forward, backward)
    ensures |forward| == |backward|
    decreases |forward|
  {
    if |forward| == 0 {
      assert backward.Keys == {};
    } else {
      var k :| k in forward;
      var v := forward[k];
      var f', b' := forward - {k}, backward - {v};
      assert |f'| == |forward| - 1 by {
        assert f'.Keys == forward.Keys - {k};
      }
      assert |b'| == |backward| - 1 by {
        assert b'.Keys == backward.Keys - {v};
      }
      BijectionSizes(f', b');
    }
  }

  class BidirectionalDictionary<K(==), V(==)> {
    /** `_keysToValues` */
    const keysToValues: Table<K, V>
    /** `_valuesToKeys` */
    const valuesToKeys: Table<V, K>
    /** `Inverse`: set once, right after construction. */
    var inverse: BidirectionalDictionary?<V, K>

    /** The inverse view holds the same two tables swapped and points back here, the two
      * tables are distinct, and they undo each other. */
    ghost predicate Valid()
      reads this, inverse, keysToValues, valuesToKeys
    {
      && inverse != null
      && inverse.inverse == this
      && inverse.keysToValues == valuesToKeys
      && inverse.valuesToKeys == keysToValues
      && keysToValues as object != valuesToKeys as object
      && Bijection(keysToValues.items, valuesToKeys.items)
    }

    /** The public constructors: two empty tables and an inverse view over them. */
    constructor()
      ensures Valid()
      ensures fresh(keysToValues) && fresh(valuesToKeys) && fresh(inverse)
      ensures keysToValues.items == map[] && valuesToKeys.items == map[]
    {
      keysToValues := new Table();
      valuesToKeys := new Table();
      new;
      inverse := new BidirectionalDictionary<V, K>.View(this);
    }

    /** The private constructor of the `Inverse` view: the other side's tables, swapped. */
    constructor View(other: BidirectionalDictionary<V, K>)
      ensures keysToValues == other.valuesToKeys && valuesToKeys == other.keysToValues
      ensures inverse == other
    {
      keysToValues := other.valuesToKeys;
      valuesToKeys := other.keysToValues;
      inverse := other;
    }

    /** The inverse view is itself a valid dictionary, over the same two tables. */
    lemma InverseValid()
      requires Valid()
      ensures inverse.Valid()
      ensures inverse.keysToValues.items == valuesToKeys.items
      ensures inverse.valuesToKeys.items == keysToValues.items
    {
    }

    /** `Count` */
    function Count(): nat
      reads this, keysToValues
    {
      |keysToValues.items|
    }

    /** Counting either table gives the same number: the inverse view has as many entries. */
    lemma CountBoth()
      requires Valid()
      ensures Count() == |valuesToKeys.items|
      ensures inverse.Count() == Count()
    {
      BijectionSizes(keysToValues.items, valuesToKeys.items);
    }

    /** `ContainsKey`: throws on a `null` key. */
    function ContainsKey(key: Option<K>): (r: Result<bool>)
      reads this, keysToValues
      ensures r.Err? <==> key.None?
      ensures r.Err? ==> r.error == ArgumentNull
      ensures r.Ok? ==> (r.value <==> key.value in keysToValues.items)
    {
      if key.None? then Err(ArgumentNull) else Ok(key.value in keysToValues.items)
    }

    /** `ContainsValue`: throws on a `null` value. */
    function ContainsValue(value: Option<V>): (r: Result<bool>)
      reads this, valuesToKeys
      ensures r.Err? <==> value.None?
      ensures r.Err? ==> r.error == ArgumentNull
      ensures r.Ok? ==> (r.value <==> value.value in valuesToKeys.items)
    {
      if value.None? then Err(ArgumentNull) else Ok(value.value in valuesToKeys.items)
    }

    /** `TryGetValue`: throws on a `null` key; otherwise the value bound to the key, if any. */
    function TryGetValue(key: Option<K>): (r: Result<Option<V>>)
      reads this, keysToValues
      ensures r.Err? <==> key.None?
      ensures r.Err? ==> r.error == ArgumentNull
      ensures r.Ok? ==> (r.value.Some? <==> key.value in keysToValues.items)
      ensures r.Ok? && r.value.Some? ==> keysToValues.items[key.value] == r.value.value
    {
      if key.None? then Err(ArgumentNull)
      else if key.value in keysToValues.items then Ok(Some(keysToValues.items[key.value]))
      else Ok(None)
    }

    /** `TryGetKey`: throws on a `null` value; otherwise the key the value is bound to, if
      * any. */
    function TryGetKey(value: Option<V>): (r: Result<Option<K>>)
      reads this, valuesToKeys
      ensures r.Err? <==> value.None?
      ensures r.Err? ==> r.error == ArgumentNull
      ensures r.Ok? ==> (r.value.Some? <==> value.value in valuesToKeys.items)
      ensures r.Ok? && r.value.Some? ==> valuesToKeys.items[value.value] == r.value.value
    {
      if value.None? then Err(ArgumentNull)
      else if value.value in valuesToKeys.items then Ok(Some(valuesToKeys.items[value.value]))
      else Ok(None)
    }

    /** `GetValue`: `TryGetValue`, with `default(TValue)` (here `None`) for a missing key. */
    function GetValue(key: Option<K>): (r: Result<Option<V>>)
      reads this, keysToValues
      ensures r == TryGetValue(key)
    {
      TryGetValue(key)
    }

    /** `GetKey`: `TryGetKey`, with `default(TKey)` (here `None`) for a missing value. */
    function GetKey(value: Option<V>): (r: Result<Option<K>>)
      reads this, valuesToKeys
      ensures r == TryGetKey(value)
    {
      TryGetKey(value)
    }

    /** The indexer's getter: throws on a `null` key and on a missing one. */
    function Get(key: Option<K>): (r: Result<V>)
      reads this, keysToValues
      ensures r.Err? <==> key.None? || key.value !in keysToValues.items
      ensures r.Err? ==> r.error == (if key.None? then ArgumentNull else KeyNotFound)
      ensures r.Ok? ==> keysToValues.items[key.value] == r.value
    {
      if key.None? then Err(ArgumentNull)
      else if key.value !in keysToValues.items then Err(KeyNotFound)
      else Ok(keysToValues.items[key.value])
    }

    /** Looking up in either direction agrees: `GetKey(v)` is `k` exactly when
      * `GetValue(k)` is `v`, and the inverse view's `GetValue` is this side's `GetKey`. */
    lemma LookupBothWays(k: K, v: V)
      requires Valid()
      ensures GetKey(Some(v)) == Ok(Some(k)) <==> GetValue(Some(k)) == Ok(Some(v))
      ensures inverse.GetValue(Some(v)) == GetKey(Some(v))
      ensures inverse.GetKey(Some(k)) == GetValue(Some(k))
    {
    }

    /** `_ValueBelongsToOtherKey` */
    predicate ValueBelongsToOtherKey(key: K, value: V)
      reads this, valuesToKeys
    {
      value in valuesToKeys.items && valuesToKeys.items[value] != key
    }

    /** The indexer's setter: throws on a `null` key or value, and when the value is bound
      * to another key; otherwise binds the key to the value, dropping the key's old value
      * from the reverse table. */
    method Set(key: Option<K>, value: Option<V>) returns (failure: Option<Failure>)
      requires Valid()
      modifies keysToValues, valuesToKeys
      ensures Valid()
      ensures failure.Some? <==> key.None? || value.None? || ValueBelongsToOtherKey(key.value, value.value)
      ensures failure.Some? ==> failure.value == (if key.None? || value.None? then ArgumentNull else InvalidArgument)
      ensures failure.Some? ==> unchanged(keysToValues, valuesToKeys)
      ensures failure.None? ==> keysToValues.items == old(keysToValues.items)[key.value := value.value]
      ensures failure.None? ==>
        valuesToKeys.items == PartnerDropped(old(valuesToKeys.items), old(keysToValues.items), key.value)[value.value := key.value]
    {
      if key.None? || value.None? {
        return Some(ArgumentNull);
      }
      var k, v := key.value, value.value;
      if ValueBelongsToOtherKey(k, v) {
        return Some(InvalidArgument);
      }
      if k in keysToValues.items {
        var oldValue := keysToValues.items[k];
        var oldKey := valuesToKeys.items[oldValue];
        keysToValues.items := keysToValues.items[oldKey := v];
        valuesToKeys.items := valuesToKeys.items - {oldValue};
        valuesToKeys.items := valuesToKeys.items[v := oldKey];
      } else {
        keysToValues.items := keysToValues.items[k := v];
        valuesToKeys.items := valuesToKeys.items[v := k];
      }
      return None;
    }

    /** `Add`: throws on a `null` key or value and when the key or the value is already
      * bound; otherwise binds the two in both tables. */
    method Add(key: Option<K>, value: Option<V>) returns (failure: Option<Failure>)
      requires Valid()
      modifies keysToValues, valuesToKeys
      ensures Valid()
      ensures failure.Some? <==>
        key.None? || value.None? || key.value in old(keysToValues.items) || value.value in old(valuesToKeys.items)
      ensures failure.Some? ==> failure.value == (if key.None? || value.None? then ArgumentNull else InvalidArgument)
      ensures failure.Some? ==> unchanged(keysToValues, valuesToKeys)
      ensures failure.None? ==> keysToValues.items == old(keysToValues.items)[key.value := value.value]
      ensures failure.None? ==> valuesToKeys.items == old(valuesToKeys.items)[value.value := key.value]
    {
      if key.None? || value.None? {
        return Some(ArgumentNull);
      }
      if key.value in keysToValues.items || value.value in valuesToKeys.items {
        return Some(InvalidArgument);
      }
      keysToValues.items := keysToValues.items[key.value := value.value];
      valuesToKeys.items := valuesToKeys.items[value.value := key.value];
      return None;
    }

    /** `Remove(key)`: throws on a `null` key; `false`, changing nothing, for a missing key;
      * otherwise unbinds the key and its value in both tables. */
    method Remove(key: Option<K>) returns (r: Result<bool>)
      requires Valid()
      modifies keysToValues, valuesToKeys
      ensures Valid()
      ensures r.Err? <==> key.None?
      ensures r.Err? ==> r.error == ArgumentNull
      ensures r.Ok? ==> (r.value <==> key.value in old(keysToValues.items))
      ensures !(r.Ok? && r.value) ==> unchanged(keysToValues, valuesToKeys)
      ensures r.Ok? && r.value ==> keysToValues.items == old(keysToValues.items) - {key.value}
      ensures r.Ok? && r.value ==> valuesToKeys.items == old(valuesToKeys.items) - {old(keysToValues.items)[key.value]}
    {
      if key.None? {
        return Err(ArgumentNull);
      }
      if key.value !in keysToValues.items {
        return Ok(false);
      }
      var value := keysToValues.items[key.value];
      keysToValues.items := keysToValues.items - {key.value};
      valuesToKeys.items := valuesToKeys.items - {value};
      return Ok(true);
    }

    /** `ICollection<KeyValuePair>.Remove`: removes the pair only when the key is bound to
      * exactly that value; a `null` key throws. */
    method RemovePair(key: Option<K>, value: V) returns (r: Result<bool>)
      requires Valid()
      modifies keysToValues, valuesToKeys
      ensures Valid()
      ensures r.Err? <==> key.None?
      ensures r.Err? ==> r.error == ArgumentNull
      ensures r.Ok? ==> (r.value <==> key.value in old(keysToValues.items) && old(keysToValues.items)[key.value] == value)
      ensures !(r.Ok? && r.value) ==> unchanged(keysToValues, valuesToKeys)
      ensures r.Ok? && r.value ==> keysToValues.items == old(keysToValues.items) - {key.value}
      ensures r.Ok? && r.value ==> valuesToKeys.items == old(valuesToKeys.items) - {value}
    {
      if key.None? {
        return Err(ArgumentNull);
      }
      if key.value !in keysToValues.items || keysToValues.items[key.value] != value {
        return Ok(false);
      }
      keysToValues.items := keysToValues.items - {key.value};
      valuesToKeys.items := valuesToKeys.items - {value};
      return Ok(true);
    }

    /** `Clear`: empties both tables. */
    method Clear()
      requires Valid()
      modifies keysToValues, valuesToKeys
      ensures Valid()
      ensures keysToValues.items == map[] && valuesToKeys.items == map[]
    {
      keysToValues.items := map[];
      valuesToKeys.items := map[];
    }

    /** `Replace`: throws on a `null` key or value; otherwise removes the key, removes the
      * value through the inverse view, and adds the pair, so neither keeps an old partner. */
    method Replace(key: Option<K>, value: Option<V>) returns (failure: Option<Failure>)
      requires Valid()
      modifies keysToValues, valuesToKeys
      ensures Valid()
      ensures failure.Some? <==> key.None? || value.None?
      ensures failure.Some? ==> failure.value == ArgumentNull && unchanged(keysToValues, valuesToKeys)
      ensures failure.None? ==>
        keysToValues.items == (old(keysToValues.items) - {key.value} - PartnerOf(old(valuesToKeys.items), value.value))[key.value := value.value]
      ensures failure.None? ==>
        valuesToKeys.items == (old(valuesToKeys.items) - {value.value} - PartnerOf(old(keysToValues.items), key.value))[value.value := key.value]
    {
      if key.None? || value.None? {
        return Some(ArgumentNull);
      }
      var _ := Remove(key);
      InverseValid();
      var _ := inverse.Remove(value);
      inverse.InverseValid();
      failure := Add(key, value);
    }
  }

  /** The partner an entry has in a table, as a set of none or one. */
  function PartnerOf<A(==), B>(table: map<A, B>, a: A): (r: set<B>)
    ensures a in table ==> r == {table[a]}
    ensures a !in table ==> r == {}
  {
    if a in table then {table[a]} else {}
  }

  /** `backward` without the partner `a` has in `forward`, if any. */
  function PartnerDropped<A(==), B(==)>(backward: map<B, A>, forward: map<A, B>, a: A): (r: map<B, A>)
    ensures a in forward ==> r == backward - {forward[a]}
    ensures a !in forward ==> r == backward
  {
    backward - PartnerOf(forward, a)
  }

  /** `new BidirectionalDictionary(capacity)`: a negative capacity throws. The capacity is
    * only a sizing hint. */
  method Create<K(==), V(==)>(capacity: int) returns (r: Result<BidirectionalDictionary<K, V>>)
    ensures r.Err? <==> capacity < 0
    ensures r.Err? ==> r.error == ArgumentOutOfRange
    ensures r.Ok? ==> fresh(r.value) && r.value.Valid() && r.value.Count() == 0
  {
    if capacity < 0 {
      return Err(ArgumentOutOfRange);
    }
    var d := new BidirectionalDictionary();
    return Ok(d);
  }
}
