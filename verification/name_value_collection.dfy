/** Reading an HTTP query string into a `NameValueCollection` and writing one back out.
  * A `NameValueCollection` keeps its keys in insertion order, compares them ignoring
  * case, and holds a list of values under each key. */
module NameValueCollections {
  import opened Wrappers
  import opened Text

  /** One key and the values stored under it. */
  datatype Entry = Entry(key: string, values: seq<string>)

  /** The keys in insertion order, as `AllKeys` lists them. */
  function Keys(entries: seq<Entry>): (r: seq<string>)
    ensures |r| == |entries| && forall i :: 0 <= i < |r| ==> r[i] == entries[i].key
  {
    if |entries| == 0 then [] else Keys(entries[..|entries| - 1]) + [entries[|entries| - 1].key]
  }

  /** The position of the entry whose key equals `name` ignoring case, or -1. */
  function Find(entries: seq<Entry>, name: string): (i: int)
    ensures -1 <= i < |entries|
    ensures i >= 0 ==> EqualsIgnoreCase(entries[i].key, name)
    ensures i >= 0 ==> forall j :: 0 <= j < i ==> !EqualsIgnoreCase(entries[j].key, name)
    ensures i == -1 ==> forall j :: 0 <= j < |entries| ==> !EqualsIgnoreCase(entries[j].key, name)
  {
    if |entries| == 0 then -1
    else
      var i := Find(entries[..|entries| - 1], name);
      if i >= 0 then i
      else if EqualsIgnoreCase(entries[|entries| - 1].key, name) then |entries| - 1
      else -1
  }

  /** No two keys equal ignoring case, as the collection keeps them. */
  predicate DistinctKeys(entries: seq<Entry>)
  {
    forall i, j :: 0 <= i < j < |entries| ==> !EqualsIgnoreCase(entries[i].key, entries[j].key)
  }

  /** The values of a key as one string, as the indexer gives them: joined by commas, or
    * null when there are none. */
  function OneString(values: seq<string>): (r: Option<string>)
    ensures |values| == 1 ==> r == Some(values[0])
  {
    if |values| == 0 then None else Some(Join(",", values))
  }

  /** `collection[name]`: the values under the key equal to `name` ignoring case, or null
    * when there is no such key. */
  function Lookup(entries: seq<Entry>, name: string): Option<string>
  {
    var i := Find(entries, name);
    if i < 0 then None else OneString(entries[i].values)
  }

  /** `Set(name, value)`: `value` becomes the only value of the key; an existing key
    * keeps its place and its spelling, a new one goes at the end. */
  function SetValue(entries: seq<Entry>, name: string, value: string): (r: seq<Entry>)
    ensures |r| == |entries| || r == entries + [Entry(name, [value])]
  {
    var i := Find(entries, name);
    if i >= 0 then entries[i := Entry(entries[i].key, [value])]
    else entries + [Entry(name, [value])]
  }

  class NameValueCollection {
    var entries: seq<Entry>

    constructor ()
      ensures entries == []
    {
      entries := [];
    }

    method Set(name: string, value: string)
      modifies this
      ensures entries == SetValue(old(entries), name, value)
    {
      var i := Find(entries, name);
      if i >= 0 {
        entries := entries[i := Entry(entries[i].key, [value])];
      } else {
        entries := entries + [Entry(name, [value])];
      }
    }
  }

  // ---------------------------------------------------------------- the collection as a map

  lemma IgnoreCaseSymmetric(a: string, b: string)
    ensures EqualsIgnoreCase(a, b) ==> EqualsIgnoreCase(b, a)
  {
  }

  /** Entries with the same keys find the same positions. */
  lemma {:induction false} FindByKeys(a: seq<Entry>, b: seq<Entry>, name: string)
    requires Keys(a) == Keys(b)
    ensures Find(a, name) == Find(b, name)
  {
    if |a| > 0 {
      var n := |a| - 1;
      assert Keys(a[..n]) == Keys(b[..n]) by {
        assert Keys(a)[..n] == Keys(a[..n]);
        assert Keys(b)[..n] == Keys(b[..n]);
      }
      FindByKeys(a[..n], b[..n], name);
      assert a[n].key == Keys(a)[n] == b[n].key;
    }
  }

  /** `Set` works like assignment in a map whose keys ignore case: afterwards the key
    * reads back as the value, every other key reads as before, and no two keys become
    * equal. */
  lemma SetValueMeaning(entries: seq<Entry>, name: string, value: string, other: string)
    requires DistinctKeys(entries)
    ensures DistinctKeys(SetValue(entries, name, value))
    ensures Lookup(SetValue(entries, name, value), name) == Some(value)
    ensures !EqualsIgnoreCase(other, name) ==>
      Lookup(SetValue(entries, name, value), other) == Lookup(entries, other)
  {
    var r := SetValue(entries, name, value);
    var i := Find(entries, name);
    if i >= 0 {
      assert Keys(r) == Keys(entries);
      FindByKeys(r, entries, name);
      FindByKeys(r, entries, other);
      if !EqualsIgnoreCase(other, name) {
        var k := Find(entries, other);
        if k == i {
          IgnoreCaseSymmetric(entries[i].key, other);
        }
      }
    } else {
      assert r[..|entries|] == entries;
      IgnoreCaseSymmetric(name, other);
    }
  }

  // ---------------------------------------------------------------- ReadQueryString

  /** What an item of a query string stores: the two parts around `=` when splitting it
    * there, dropping empty parts, leaves exactly two. */
  function Pair(item: string): (r: Option<(string, string)>)
    ensures r.Some? ==> |r.value.0| > 0 && |r.value.1| > 0
  {
    var data := SplitNonEmpty(item, '=');
    if |data| == 2 then Some((data[0], data[1])) else None
  }

  /** The entries after storing each item in turn. */
  function ReadItems(entries: seq<Entry>, items: seq<string>): seq<Entry>
  {
    if |items| == 0 then entries
    else
      var before := ReadItems(entries, items[..|items| - 1]);
      var pair := Pair(items[|items| - 1]);
      if pair.Some? then SetValue(before, pair.value.0, pair.value.1) else before
  }

  /** `collection.ReadQueryString(queryString)`: throws on a null string; otherwise every
    * non-empty `&`-separated item that is one key and one value around `=` is `Set`, in
    * order, so a later item for the same key wins. */
  method ReadQueryString(collection: NameValueCollection, queryString: Option<string>) returns (error: Option<Failure>)
    modifies collection
    ensures queryString.None? <==> error == Some(ArgumentNull)
    ensures queryString.None? ==> collection.entries == old(collection.entries)
    ensures queryString.Some? ==>
      collection.entries == ReadItems(old(collection.entries), SplitNonEmpty(queryString.value, '&'))
  {
    if queryString.None? {
      return Some(ArgumentNull);
    }
    var items := SplitNonEmpty(queryString.value, '&');
    for i := 0 to |items|
      invariant collection.entries == ReadItems(old(collection.entries), items[..i])
    {
      assert items[..i + 1][..i] == items[..i];
      var data := SplitNonEmpty(items[i], '=');
      if |data| == 2 {
        collection.Set(data[0], data[1]);
      }
    }
    assert items[..|items|] == items;
    error := None;
  }

  /** Empty keys and empty values are dropped with the empty parts, so `a=` and `=b` store
    * nothing. */
  lemma PairEmptySides()
    ensures Pair("a=") == None
    ensures Pair("=b") == None
  {
    assert "="[1..] == "";
    assert Split("=", '=') == ["", ""];
    assert "a="[1..] == "=";
    assert ['a'] + "" == "a";
    assert ["", ""][1..] == [""];
    assert Split("a=", '=') == ["a", ""];
    assert "b"[1..] == "";
    assert ['b'] + "" == "b";
    assert [""][1..] == [];
    assert Split("b", '=') == ["b"];
    assert "=b"[1..] == "b";
    assert Split("=b", '=') == ["", "b"];
  }

  /** `a=b=c` has too many parts, while `a==b` stores `b` under `a`. */
  lemma PairExtraSeparators()
    ensures Pair("a=b=c") == None
    ensures Pair("a==b") == Some(("a", "b"))
  {
    assert "c"[1..] == "";
    assert ['c'] + "" == "c";
    assert [""][1..] == [];
    assert Split("c", '=') == ["c"];
    assert "=c"[1..] == "c";
    assert Split("=c", '=') == ["", "c"];
    assert "b=c"[1..] == "=c";
    assert ['b'] + "" == "b";
    assert ["", "c"][1..] == ["c"];
    assert Split("b=c", '=') == ["b", "c"];
    assert "=b=c"[1..] == "b=c";
    assert Split("=b=c", '=') == ["", "b", "c"];
    assert "a=b=c"[1..] == "=b=c";
    assert ['a'] + "" == "a";
    assert ["", "b", "c"][1..] == ["b", "c"];
    assert Split("a=b=c", '=') == ["a", "b", "c"];
    assert "b"[1..] == "";
    assert ['b'] + "" == "b";
    assert [""][1..] == [];
    assert Split("b", '=') == ["b"];
    assert "=b"[1..] == "b";
    assert Split("=b", '=') == ["", "b"];
    assert "==b"[1..] == "=b";
    assert Split("==b", '=') == ["", "", "b"];
    assert "a==b"[1..] == "==b";
    assert ['a'] + "" == "a";
    assert ["", "", "b"][1..] == ["", "b"];
    assert Split("a==b", '=') == ["a", "", "b"];
  }

  // ---------------------------------------------------------------- ToQueryString

  /** The builder of `ToQueryString` after the given keys: each as `key=value`, with `&`
    * in front whenever the builder already holds something. */
  function Written(entries: seq<Entry>, keys: seq<string>): string
  {
    if |keys| == 0 then ""
    else
      var sb := Written(entries, keys[..|keys| - 1]);
      var key := keys[|keys| - 1];
      (if |sb| > 0 then sb + "&" else sb) + key + "=" + OrEmpty(Lookup(entries, key))
  }

  /** `collection.ToQueryString()` */
  method ToQueryString(collection: NameValueCollection) returns (r: string)
    ensures r == Written(collection.entries, Keys(collection.entries))
  {
    var keys := Keys(collection.entries);
    var queryString := "";
    for i := 0 to |keys|
      invariant queryString == Written(collection.entries, keys[..i])
    {
      assert keys[..i + 1][..i] == keys[..i];
      if |queryString| > 0 {
        queryString := queryString + "&";
      }
      queryString := queryString + keys[i];
      queryString := queryString + "=";
      queryString := queryString + OrEmpty(Lookup(collection.entries, keys[i]));
    }
    assert keys[..|keys|] == keys;
    r := queryString;
  }

  // ---------------------------------------------------------------- round trip

  /** A key or value that survives the trip: not empty, and free of `&` and `=`. */
  predicate Plain(x: string)
  {
    |x| > 0 && '&' !in x && '=' !in x
  }

  /** Pairs with plain keys and values and no two keys equal ignoring case. */
  predicate WellFormed(pairs: seq<(string, string)>)
  {
    (forall i :: 0 <= i < |pairs| ==> Plain(pairs[i].0) && Plain(pairs[i].1)) &&
    forall i, j :: 0 <= i < j < |pairs| ==> !EqualsIgnoreCase(pairs[i].0, pairs[j].0)
  }

  /** The items `key=value` of the pairs. */
  function Items(pairs: seq<(string, string)>): (r: seq<string>)
    ensures |r| == |pairs| && forall i :: 0 <= i < |r| ==> r[i] == pairs[i].0 + "=" + pairs[i].1
  {
    if |pairs| == 0 then []
    else Items(pairs[..|pairs| - 1]) + [pairs[|pairs| - 1].0 + "=" + pairs[|pairs| - 1].1]
  }

  /** The collection holding each key with its one value, in order. */
  function EntriesOf(pairs: seq<(string, string)>): (r: seq<Entry>)
    ensures |r| == |pairs| && forall i :: 0 <= i < |r| ==> r[i] == Entry(pairs[i].0, [pairs[i].1])
  {
    if |pairs| == 0 then []
    else EntriesOf(pairs[..|pairs| - 1]) + [Entry(pairs[|pairs| - 1].0, [pairs[|pairs| - 1].1])]
  }

  /** Splitting the query string at `&` gives the items back. */
  lemma SplitItems(pairs: seq<(string, string)>)
    requires WellFormed(pairs)
    ensures SplitNonEmpty(Join("&", Items(pairs)), '&') == Items(pairs)
  {
    var items := Items(pairs);
    if |items| == 0 {
      assert Split("", '&') == [""];
    } else {
      forall i | 0 <= i < |items| ensures '&' !in items[i] && |items[i]| > 0 {
        assert items[i] == pairs[i].0 + "=" + pairs[i].1;
      }
      assert "&" == ['&'];
      SplitJoin(items, '&');
      NonEmptyKeeps(Split(Join("&", items), '&'));
    }
  }

  /** An item `key=value` with a plain key and value stores exactly that pair. */
  lemma PairOfItem(key: string, value: string)
    requires Plain(key) && Plain(value)
    ensures Pair(key + "=" + value) == Some((key, value))
  {
    assert Join("=", [key, value]) == key + "=" + value by {
      assert [key, value][1..] == [value];
    }
    assert "=" == ['='];
    SplitJoin([key, value], '=');
    NonEmptyKeeps([key, value]);
  }

  /** Reading the items of pairs with distinct keys stores each pair under a new key. */
  lemma {:induction false} ReadEntries(pairs: seq<(string, string)>)
    requires WellFormed(pairs)
    ensures ReadItems([], Items(pairs)) == EntriesOf(pairs)
  {
    if |pairs| > 0 {
      var n := |pairs| - 1;
      assert WellFormed(pairs[..n]);
      ReadEntries(pairs[..n]);
      PairOfItem(pairs[n].0, pairs[n].1);
      var before := EntriesOf(pairs[..n]);
      assert Items(pairs)[..n] == Items(pairs[..n]);
      assert Find(before, pairs[n].0) == -1 by {
        forall j | 0 <= j < n ensures !EqualsIgnoreCase(before[j].key, pairs[n].0) {
          assert before[j].key == pairs[j].0;
        }
      }
    }
  }

  /** `Find` gives the first matching position. */
  lemma FindFirst(entries: seq<Entry>, name: string, i: nat)
    requires i < |entries| && EqualsIgnoreCase(entries[i].key, name)
    requires forall j :: 0 <= j < i ==> !EqualsIgnoreCase(entries[j].key, name)
    ensures Find(entries, name) == i
  {
  }

  /** In the collection of the pairs, a key that no earlier key equals ignoring case
    * reads back as its value. */
  lemma LookupEntriesOf(pairs: seq<(string, string)>, i: nat)
    requires i < |pairs|
    requires forall j :: 0 <= j < i ==> !EqualsIgnoreCase(pairs[j].0, pairs[i].0)
    ensures Lookup(EntriesOf(pairs), pairs[i].0) == Some(pairs[i].1)
  {
    FindFirst(EntriesOf(pairs), pairs[i].0, i);
  }

  /** One more key writes `&` and its item after the items before it. */
  lemma WrittenStep(entries: seq<Entry>, keys: seq<string>, key: string, before: seq<string>, value: string)
    requires |key| > 0
    requires Written(entries, keys) == Join("&", before)
    requires Lookup(entries, key) == Some(value)
    requires forall i :: 0 <= i < |before| ==> |before[i]| > 0
    ensures Written(entries, keys + [key]) == Join("&", before + [key + "=" + value])
  {
    var item := key + "=" + value;
    WrittenKey(entries, keys, key, value);
    if |before| > 0 {
      JoinAppend("&", before, item);
      JoinEnds("&", before);
      assert |Join("&", before)| > 0;
    } else {
      assert before + [item] == [item];
      assert "" + item == item;
    }
  }

  /** The last key writes its item after the text of the keys before it, with `&` between
    * when that text is not empty. */
  lemma WrittenKey(entries: seq<Entry>, keys: seq<string>, key: string, value: string)
    requires Lookup(entries, key) == Some(value)
    ensures var sb := Written(entries, keys);
            Written(entries, keys + [key]) == (if |sb| > 0 then sb + "&" else sb) + (key + "=" + value)
  {
    var sb := Written(entries, keys);
    var head := if |sb| > 0 then sb + "&" else sb;
    assert (keys + [key])[..|keys|] == keys;
    assert head + key + "=" + value == head + (key + "=" + value);
  }

  lemma PrefixSnoc<T>(s: seq<T>, m: nat)
    requires 0 < m <= |s|
    ensures s[..m] == s[..m - 1] + [s[m - 1]]
  {
  }

  /** The items of one more pair are one more item. */
  lemma ItemsStep(pairs: seq<(string, string)>, m: nat)
    requires 0 < m <= |pairs|
    ensures Items(pairs[..m]) == Items(pairs[..m - 1]) + [pairs[m - 1].0 + "=" + pairs[m - 1].1]
  {
    assert pairs[..m][..m - 1] == pairs[..m - 1];
  }

  /** Writing a collection in which every key of the pairs reads back as its value
    * gives the items of the pairs joined by `&`, one key at a time. */
  lemma {:induction false} WrittenItems(entries: seq<Entry>, pairs: seq<(string, string)>, m: nat)
    requires |Keys(entries)| == |pairs| && m <= |pairs|
    requires forall i :: 0 <= i < |pairs| ==> Keys(entries)[i] == pairs[i].0 && |pairs[i].0| > 0
    requires forall i :: 0 <= i < |pairs| ==> Lookup(entries, pairs[i].0) == Some(pairs[i].1)
    ensures Written(entries, Keys(entries)[..m]) == Join("&", Items(pairs[..m]))
  {
    if m > 0 {
      WrittenItems(entries, pairs, m - 1);
      var keys, key := Keys(entries)[..m - 1], pairs[m - 1].0;
      PrefixSnoc(Keys(entries), m);
      ItemsStep(pairs, m);
      WrittenStep(entries, keys, key, Items(pairs[..m - 1]), pairs[m - 1].1);
    }
  }

  /** Every key of well-formed pairs reads back as its value from their collection. */
  lemma LookupAll(pairs: seq<(string, string)>)
    requires WellFormed(pairs)
    ensures forall i :: 0 <= i < |pairs| ==> Lookup(EntriesOf(pairs), pairs[i].0) == Some(pairs[i].1)
  {
    forall i | 0 <= i < |pairs| ensures Lookup(EntriesOf(pairs), pairs[i].0) == Some(pairs[i].1) {
      LookupEntriesOf(pairs, i);
    }
  }

  /** Writing the collection of well-formed pairs gives their items joined by `&`. */
  lemma WrittenEntriesOf(pairs: seq<(string, string)>)
    requires WellFormed(pairs)
    ensures Written(EntriesOf(pairs), Keys(EntriesOf(pairs))) == Join("&", Items(pairs))
  {
    var entries := EntriesOf(pairs);
    LookupAll(pairs);
    WrittenItems(entries, pairs, |pairs|);
    assert pairs[..|pairs|] == pairs;
    assert Keys(entries)[..|pairs|] == Keys(entries);
  }

  /** Reading a query string of `key=value` items into an empty collection and writing the
    * collection out again gives the same query string, when keys and values are plain and
    * the keys are distinct ignoring case. */
  lemma QueryStringRoundTrip(pairs: seq<(string, string)>)
    requires WellFormed(pairs)
    ensures var read := ReadItems([], SplitNonEmpty(Join("&", Items(pairs)), '&'));
      read == EntriesOf(pairs) && Written(read, Keys(read)) == Join("&", Items(pairs))
  {
    SplitItems(pairs);
    ReadEntries(pairs);
    WrittenEntriesOf(pairs);
  }
}
