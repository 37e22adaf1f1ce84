/** `BackpackEncoder`: a character substitution read from one shared bidirectional table
  * (`_Backpackage`, a static field). Encoding maps each character through the table,
  * decoding maps it back through the inverse direction. Every encoder holds the same table
  * object, so initialising one encoder re-initialises it for all of them. */
module BackpackEncoders {
  import opened Wrappers
  import opened BidirectionalDictionaries

  /** `DefaultPackageSeeds`, in the order its initializer adds the pairs. */
  const DefaultPackageSeeds: seq<(char, char)> := [
    ('0', '9'), ('1', '2'), ('2', 'e'), ('3', '3'), ('4', '4'), ('5', '7'), ('6', '8'), ('7', 'c'),
    ('8', 'a'), ('9', 'b'), ('a', '0'), ('b', '1'), ('c', '5'), ('d', '6'), ('e', 'd'), ('f', 'f')]

  /** The sixteen lower-case hexadecimal digits. */
  const HexDigits: set<char> := {'0', '1', '2', '3', '4', '5', '6', '7', '8', '9', 'a', 'b', 'c', 'd', 'e', 'f'}

  /** An `IDictionary` never holds one key twice. */
  predicate DistinctKeys(pairs: seq<(char, char)>)
  {
    forall i, j :: 0 <= i < j < |pairs| ==> pairs[i].0 != pairs[j].0
  }

  predicate DistinctValues(pairs: seq<(char, char)>)
  {
    forall i, j :: 0 <= i < j < |pairs| ==> pairs[i].1 != pairs[j].1
  }

  function KeySet(pairs: seq<(char, char)>): set<char>
  {
    set i | 0 <= i < |pairs| :: pairs[i].0
  }

  function ValueSet(pairs: seq<(char, char)>): set<char>
  {
    set i | 0 <= i < |pairs| :: pairs[i].1
  }

  /** The table the pairs build, added one after the other. */
  function ToMap(pairs: seq<(char, char)>): (m: map<char, char>)
    ensures m.Keys == KeySet(pairs)
    ensures DistinctKeys(pairs) ==> forall i :: 0 <= i < |pairs| ==> m[pairs[i].0] == pairs[i].1
  {
    if |pairs| == 0 then map[]
    else
      var front, last := pairs[..|pairs| - 1], pairs[|pairs| - 1];
      KeySetLast(pairs);
      ToMap(front)[last.0 := last.1]
  }

  /** The keys of the pairs are the keys of all but the last, and the last one's. */
  lemma KeySetLast(pairs: seq<(char, char)>)
    requires |pairs| > 0
    ensures KeySet(pairs) == KeySet(pairs[..|pairs| - 1]) + {pairs[|pairs| - 1].0}
  {
    var front, last := pairs[..|pairs| - 1], pairs[|pairs| - 1];
    forall c | c in KeySet(pairs) ensures c in KeySet(front) + {last.0} {
      var i :| 0 <= i < |pairs| && pairs[i].0 == c;
      if i < |front| { assert front[i] == pairs[i]; }
    }
    forall c | c in KeySet(front) ensures c in KeySet(pairs) {
      var i :| 0 <= i < |front| && front[i].0 == c;
      assert pairs[i] == front[i];
    }
  }

  /** The reverse table the pairs build. */
  function ToInverseMap(pairs: seq<(char, char)>): map<char, char>
  {
    if |pairs| == 0 then map[]
    else ToInverseMap(pairs[..|pairs| - 1])[pairs[|pairs| - 1].1 := pairs[|pairs| - 1].0]
  }

  /** `HexRank(c)` is the digit a lower-case hexadecimal character stands for. */
  function HexRank(c: char): int
  {
    if '0' <= c <= '9' then c as int - '0' as int
    else if 'a' <= c <= 'f' then c as int - 'a' as int + 10
    else -1
  }

  /** Entry `i` of the default seeds: its key is hexadecimal digit `i`, and its value the
    * hexadecimal digit `ValueRanks[i]`. */
  const ValueRanks: seq<int> := [9, 2, 14, 3, 4, 7, 8, 12, 10, 11, 0, 1, 5, 6, 13, 15]

  lemma SeedRanks(i: int)
    requires 0 <= i < 16
    ensures DefaultPackageSeeds[i].0 in HexDigits && HexRank(DefaultPackageSeeds[i].0) == i
    ensures DefaultPackageSeeds[i].1 in HexDigits && HexRank(DefaultPackageSeeds[i].1) == ValueRanks[i]
  {
    if i < 8 {
      if i < 4 {
        if i < 2 { if i == 0 {} else {} } else { if i == 2 {} else {} }
      } else {
        if i < 6 { if i == 4 {} else {} } else { if i == 6 {} else {} }
      }
    } else {
      if i < 12 {
        if i < 10 { if i == 8 {} else {} } else { if i == 10 {} else {} }
      } else {
        if i < 14 { if i == 12 {} else {} } else { if i == 14 {} else {} }
      }
    }
  }

  /** The default seeds are sixteen pairs of hexadecimal digits with no key and no value
    * repeated: a one-to-one map of the sixteen digits onto themselves. */
  lemma DefaultSeedsArePermutation()
    ensures |DefaultPackageSeeds| == 16
    ensures forall i :: 0 <= i < 16 ==> DefaultPackageSeeds[i].0 in HexDigits && DefaultPackageSeeds[i].1 in HexDigits
    ensures DistinctKeys(DefaultPackageSeeds) && DistinctValues(DefaultPackageSeeds)
  {
    SeedsAreDigits();
    SeedsAreDistinct();
  }

  lemma SeedsAreDigits()
    ensures forall i :: 0 <= i < 16 ==> DefaultPackageSeeds[i].0 in HexDigits && DefaultPackageSeeds[i].1 in HexDigits
  {
    forall i | 0 <= i < 16
      ensures DefaultPackageSeeds[i].0 in HexDigits && DefaultPackageSeeds[i].1 in HexDigits
    {
      SeedRanks(i);
    }
  }

  lemma SeedsAreDistinct()
    ensures DistinctKeys(DefaultPackageSeeds) && DistinctValues(DefaultPackageSeeds)
  {
    forall i, j | 0 <= i < j < 16
      ensures DefaultPackageSeeds[i].0 != DefaultPackageSeeds[j].0 && DefaultPackageSeeds[i].1 != DefaultPackageSeeds[j].1
    {
      SeedRanks(i);
      SeedRanks(j);
    }
  }

  /** `Encode`: every character through the table; a character with no entry fails the
    * indexer's lookup. */
  function EncodeSpec(table: map<char, char>, s: string): (r: Result<string>)
    ensures r.Err? <==> exists k :: 0 <= k < |s| && s[k] !in table
    ensures r.Err? ==> r.error == KeyNotFound
    ensures r.Ok? ==> |r.value| == |s| && forall k :: 0 <= k < |s| ==> r.value[k] == table[s[k]]
  {
    if |s| == 0 then Ok("")
    else if s[0] !in table then Err(KeyNotFound)
    else
      match EncodeSpec(table, s[1..])
      case Err(e) =>
        assert exists k :: 0 <= k < |s[1..]| && s[1..][k] !in table;
        Err(e)
      case Ok(rest) => Ok([table[s[0]]] + rest)
  }

  /** `Decode`: every character back through the reverse table; a character with no entry
    * becomes `default(char)`, `'\0'`. */
  function DecodeSpec(backward: map<char, char>, s: string): (r: string)
    ensures |r| == |s|
    ensures forall k :: 0 <= k < |s| ==> r[k] == (if s[k] in backward then backward[s[k]] else '\0')
  {
    if |s| == 0 then ""
    else [if s[0] in backward then backward[s[0]] else '\0'] + DecodeSpec(backward, s[1..])
  }

  /** Over a table and its inverse, decoding undoes encoding for every string over the
    * table's keys. */
  lemma DecodeEncode(forward: map<char, char>, backward: map<char, char>, s: string)
    requires Bijection(forward, backward)
    requires forall k :: 0 <= k < |s| ==> s[k] in forward
    ensures EncodeSpec(forward, s).Ok?
    ensures DecodeSpec(backward, EncodeSpec(forward, s).value) == s
  {
  }

  /** Over a table and its inverse, encoding undoes decoding for every string over the
    * table's values. */
  lemma EncodeDecode(forward: map<char, char>, backward: map<char, char>, s: string)
    requires Bijection(forward, backward)
    requires forall k :: 0 <= k < |s| ==> s[k] in backward
    ensures EncodeSpec(forward, DecodeSpec(backward, s)) == Ok(s)
  {
    var d := DecodeSpec(backward, s);
    assert forall k :: 0 <= k < |d| ==> d[k] in forward;
    assert EncodeSpec(forward, d).value == s;
  }

  /** Entry `i` of a table without repeated keys brings a key not seen before it. */
  lemma KeyIsNew(pairs: seq<(char, char)>, i: int)
    requires DistinctKeys(pairs) && 0 <= i < |pairs|
    ensures pairs[i].0 !in KeySet(pairs[..i])
  {
    forall j | 0 <= j < i
      ensures pairs[..i][j].0 != pairs[i].0
    {
      assert pairs[..i][j] == pairs[j];
    }
  }

  /** A value already seen before entry `i` repeats. */
  lemma ValueRepeats(pairs: seq<(char, char)>, i: int)
    requires 0 <= i < |pairs| && pairs[i].1 in ValueSet(pairs[..i])
    ensures !DistinctValues(pairs)
  {
    var j :| 0 <= j < i && pairs[..i][j].1 == pairs[i].1;
    assert pairs[j].1 == pairs[i].1;
  }

  /** Entry `i` with a value not seen before it: the values up to it stay distinct, the
    * value set grows by it, and both tables grow by its binding. */
  lemma AddPair(pairs: seq<(char, char)>, i: int)
    requires 0 <= i < |pairs|
    requires DistinctValues(pairs[..i]) && pairs[i].1 !in ValueSet(pairs[..i])
    ensures DistinctValues(pairs[..i + 1])
    ensures ValueSet(pairs[..i + 1]) == ValueSet(pairs[..i]) + {pairs[i].1}
    ensures ToMap(pairs[..i + 1]) == ToMap(pairs[..i])[pairs[i].0 := pairs[i].1]
    ensures ToInverseMap(pairs[..i + 1]) == ToInverseMap(pairs[..i])[pairs[i].1 := pairs[i].0]
  {
    var front, p := pairs[..i], pairs[..i + 1];
    assert p[..i] == front && p[i] == pairs[i];
    forall c | c in ValueSet(p)
      ensures c in ValueSet(front) + {pairs[i].1}
    {
      var k :| 0 <= k < |p| && p[k].1 == c;
      if k < i {
        assert p[k] == front[k];
      }
    }
    forall c | c in ValueSet(front)
      ensures c in ValueSet(p)
    {
      var k :| 0 <= k < i && front[k].1 == c;
      assert p[k] == front[k];
    }
    forall j, k | 0 <= j < k < |p|
      ensures p[j].1 != p[k].1
    {
      if k == i {
        assert p[j] == front[j];
      } else {
        assert p[j] == front[j] && p[k] == front[k];
      }
    }
  }

  class BackpackEncoder {
    /** `_Backpackage`: the table every encoder shares. */
    const backpackage: BidirectionalDictionary<char, char>

    constructor(shared: BidirectionalDictionary<char, char>)
      ensures backpackage == shared
    {
      backpackage := shared;
    }

    /** `Initialize`: the default seeds replace `null` and any seed table without exactly
      * sixteen entries; the shared table is cleared and the pairs added one by one, so a
      * value that repeats throws midway. */
    method Initialize(seeds: Option<seq<(char, char)>>) returns (failure: Option<Failure>)
      requires backpackage.Valid()
      requires seeds.Some? ==> DistinctKeys(seeds.value)
      modifies backpackage.keysToValues, backpackage.valuesToKeys
      ensures backpackage.Valid()
      ensures var pairs := SeedsOrDefault(seeds);
        && (failure.None? <==> DistinctValues(pairs))
        && (failure.Some? ==> failure.value == InvalidArgument)
        && (failure.None? ==> backpackage.keysToValues.items == ToMap(pairs))
        && (failure.None? ==> backpackage.valuesToKeys.items == ToInverseMap(pairs))
    {
      var pairs := SeedsOrDefault(seeds);
      if seeds.None? || |seeds.value| != 16 {
        SeedsAreDistinct();
      }
      backpackage.Clear();
      failure := AddPairs(pairs);
    }

    /** The loop of `Initialize`: adds the pairs one by one to the cleared table and stops
      * at the first value that repeats. */
    method AddPairs(pairs: seq<(char, char)>) returns (failure: Option<Failure>)
      requires backpackage.Valid() && DistinctKeys(pairs)
      requires backpackage.keysToValues.items == map[] && backpackage.valuesToKeys.items == map[]
      modifies backpackage.keysToValues, backpackage.valuesToKeys
      ensures backpackage.Valid()
      ensures failure.None? <==> DistinctValues(pairs)
      ensures failure.Some? ==> failure.value == InvalidArgument
      ensures failure.None? ==> backpackage.keysToValues.items == ToMap(pairs)
      ensures failure.None? ==> backpackage.valuesToKeys.items == ToInverseMap(pairs)
    {
      assert pairs[..0] == [];
      for i := 0 to |pairs|
        invariant backpackage.Valid()
        invariant DistinctValues(pairs[..i])
        invariant backpackage.keysToValues.items == ToMap(pairs[..i])
        invariant backpackage.valuesToKeys.items == ToInverseMap(pairs[..i])
        invariant backpackage.valuesToKeys.items.Keys == ValueSet(pairs[..i])
      {
        failure := AddNext(pairs, i);
        if failure.Some? {
          return;
        }
      }
      assert pairs[..|pairs|] == pairs;
      failure := None;
    }

    /** One turn of the loop of `Initialize`: adds pair `i`, or fails when its value was
      * seen before. */
    method AddNext(pairs: seq<(char, char)>, i: int) returns (failure: Option<Failure>)
      requires backpackage.Valid() && DistinctKeys(pairs) && 0 <= i < |pairs|
      requires DistinctValues(pairs[..i])
      requires backpackage.keysToValues.items == ToMap(pairs[..i])
      requires backpackage.valuesToKeys.items == ToInverseMap(pairs[..i])
      requires backpackage.valuesToKeys.items.Keys == ValueSet(pairs[..i])
      modifies backpackage.keysToValues, backpackage.valuesToKeys
      ensures backpackage.Valid()
      ensures failure.Some? ==> failure.value == InvalidArgument && !DistinctValues(pairs)
      ensures failure.None? ==> DistinctValues(pairs[..i + 1])
      ensures failure.None? ==> backpackage.keysToValues.items == ToMap(pairs[..i + 1])
      ensures failure.None? ==> backpackage.valuesToKeys.items == ToInverseMap(pairs[..i + 1])
      ensures failure.None? ==> backpackage.valuesToKeys.items.Keys == ValueSet(pairs[..i + 1])
    {
      var pair := pairs[i];
      KeyIsNew(pairs, i);
      failure := backpackage.Add(Some(pair.0), Some(pair.1));
      if failure.Some? {
        ValueRepeats(pairs, i);
        return;
      }
      AddPair(pairs, i);
    }

    /** `Encode`: appends the table entry of each character in turn. */
    method Encode(input: string) returns (r: Result<string>)
      requires backpackage.Valid()
      ensures r == EncodeSpec(backpackage.keysToValues.items, input)
    {
      var result := "";
      for i := 0 to |input|
        invariant |result| == i
        invariant forall k :: 0 <= k < i ==> input[k] in backpackage.keysToValues.items
        invariant forall k :: 0 <= k < i ==> result[k] == backpackage.keysToValues.items[input[k]]
      {
        var c := backpackage.Get(Some(input[i]));
        if c.Err? {
          return Err(c.error);
        }
        result := result + [c.value];
      }
      ghost var spec := EncodeSpec(backpackage.keysToValues.items, input);
      assert spec.Ok? && spec.value == result;
      return Ok(result);
    }

    /** `Decode`: appends the key of each character in turn, `'\0'` for an unknown one. */
    method Decode(input: string) returns (r: string)
      requires backpackage.Valid()
      ensures r == DecodeSpec(backpackage.valuesToKeys.items, input)
    {
      r := "";
      ghost var spec := DecodeSpec(backpackage.valuesToKeys.items, input);
      for i := 0 to |input|
        invariant r == spec[..i]
      {
        var c := backpackage.GetKey(Some(input[i]));
        r := r + [c.value.UnwrapOr('\0')];
      }
      assert spec[..|input|] == spec;
    }
  }

  /** `seeds == null || seeds.Count != 16 ? DefaultPackageSeeds : seeds` */
  function SeedsOrDefault(seeds: Option<seq<(char, char)>>): (pairs: seq<(char, char)>)
    ensures seeds.None? || |seeds.value| != 16 ==> pairs == DefaultPackageSeeds
    ensures seeds.Some? && |seeds.value| == 16 ==> pairs == seeds.value
  {
    if seeds.None? || |seeds.value| != 16 then DefaultPackageSeeds else seeds.value
  }

  /** `new BackpackEncoder(seeds)`: an encoder over the shared table, which it
    * re-initialises. */
  method Create(shared: BidirectionalDictionary<char, char>, seeds: Option<seq<(char, char)>>)
    returns (r: Result<BackpackEncoder>)
    requires shared.Valid()
    requires seeds.Some? ==> DistinctKeys(seeds.value)
    modifies shared.keysToValues, shared.valuesToKeys
    ensures shared.Valid()
    ensures r.Err? <==> !DistinctValues(SeedsOrDefault(seeds))
    ensures r.Ok? ==> fresh(r.value) && r.value.backpackage == shared
    ensures r.Ok? ==> shared.keysToValues.items == ToMap(SeedsOrDefault(seeds))
  {
    var encoder := new BackpackEncoder(shared);
    var failure := encoder.Initialize(seeds);
    if failure.Some? {
      return Err(failure.value);
    }
    return Ok(encoder);
  }
}
