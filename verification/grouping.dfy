/** `GroupExtensions.GroupWhenChange`: cut a sequence into maximal runs of items that share a
  * key, keeping the order. */
module Grouping {
  import opened Wrappers

  /** `Grouping<TKey, T>`: a key and the items collected under it. */
  datatype Group<K, T> = Group(key: K, items: seq<T>)

  /** The runs of `s`, built item by item from the left: an item joins the last run when it
    * has that run's key, and opens a new run otherwise. */
  function GroupRuns<T, K(==)>(s: seq<T>, key: T -> K): seq<Group<K, T>>
  {
    if |s| == 0 then [] else Absorb(GroupRuns(s[..|s| - 1], key), s[|s| - 1], key)
  }

  function Absorb<T, K(==)>(gs: seq<Group<K, T>>, x: T, key: T -> K): seq<Group<K, T>>
  {
    if |gs| > 0 && gs[|gs| - 1].key == key(x)
    then gs[..|gs| - 1] + [Group(gs[|gs| - 1].key, gs[|gs| - 1].items + [x])]
    else gs + [Group(key(x), [x])]
  }

  /** The items of all groups, in order. */
  function Flatten<K, T>(gs: seq<Group<K, T>>): seq<T>
  {
    if |gs| == 0 then [] else Flatten(gs[..|gs| - 1]) + gs[|gs| - 1].items
  }

  /** Every group is non-empty, every item carries its group's key, and neighbouring groups
    * have different keys, so no run could be longer. */
  ghost predicate WellGrouped<K, T>(gs: seq<Group<K, T>>, key: T -> K)
  {
    && (forall k :: 0 <= k < |gs| ==> |gs[k].items| > 0)
    && (forall k, m :: 0 <= k < |gs| && 0 <= m < |gs[k].items| ==> key(gs[k].items[m]) == gs[k].key)
    && (forall k :: 0 < k < |gs| ==> gs[k - 1].key != gs[k].key)
  }

  /** The emitted groups followed by the one still being filled. */
  function Pending<K, T>(groups: seq<Group<K, T>>, current: Option<Group<K, T>>): seq<Group<K, T>>
  {
    if current.Some? then groups + [current.value] else groups
  }

  /** The iterator, run to completion: `current` is the group being filled; a key change
    * emits it and opens a new one, and the last group is emitted at the end. */
  method GroupWhenChange<T, K(==)>(collection: seq<T>, getGroupKey: T -> K) returns (groups: seq<Group<K, T>>)
    ensures groups == GroupRuns(collection, getGroupKey)
  {
    groups := [];
    var current: Option<Group<K, T>> := None;
    for i := 0 to |collection|
      invariant current.None? <==> i == 0
      invariant Pending(groups, current) == GroupRuns(collection[..i], getGroupKey)
    {
      var item := collection[i];
      assert collection[..i + 1][..i] == collection[..i];
      if current.None? {
        current := Some(Group(getGroupKey(item), [item]));
      } else if current.value.key == getGroupKey(item) {
        current := Some(Group(current.value.key, current.value.items + [item]));
      } else {
        groups := groups + [current.value];
        current := Some(Group(getGroupKey(item), [item]));
      }
    }
    assert collection[..|collection|] == collection;
    if current.Some? {
      groups := groups + [current.value];
    }
  }

  lemma {:induction false} FlattenAppend<K, T>(gs: seq<Group<K, T>>, g: Group<K, T>)
    ensures Flatten(gs + [g]) == Flatten(gs) + g.items
  {
    assert (gs + [g])[..|gs|] == gs;
  }

  /** Concatenating the groups gives the input back. */
  lemma {:induction false} FlattenGroupRuns<T, K>(s: seq<T>, key: T -> K)
    ensures Flatten(GroupRuns(s, key)) == s
  {
    if |s| > 0 {
      var prefix, x := s[..|s| - 1], s[|s| - 1];
      LastSplit(s);
      FlattenGroupRuns(prefix, key);
      FlattenAbsorb(GroupRuns(prefix, key), x, key);
    }
  }

  lemma LastSplit<T>(s: seq<T>)
    requires |s| > 0
    ensures s == s[..|s| - 1] + [s[|s| - 1]]
  {
  }

  /** Absorbing an item puts it at the end of the flattened groups. */
  lemma FlattenAbsorb<T, K>(gs: seq<Group<K, T>>, x: T, key: T -> K)
    ensures Flatten(Absorb(gs, x, key)) == Flatten(gs) + [x]
  {
    if |gs| > 0 && gs[|gs| - 1].key == key(x) {
      var last := gs[|gs| - 1];
      var front := gs[..|gs| - 1];
      var grown := Group(last.key, last.items + [x]);
      assert gs == front + [last];
      FlattenAppend(front, last);
      FlattenAppend(front, grown);
      assert Flatten(front) + (last.items + [x]) == (Flatten(front) + last.items) + [x];
    } else {
      FlattenAppend(gs, Group(key(x), [x]));
    }
  }

  /** The groups are maximal runs: non-empty, uniform in key, and with different keys on
    * either side of every cut. */
  lemma {:induction false} GroupRunsWellGrouped<T, K>(s: seq<T>, key: T -> K)
    ensures WellGrouped(GroupRuns(s, key), key)
  {
    if |s| > 0 {
      GroupRunsWellGrouped(s[..|s| - 1], key);
      AbsorbWellGrouped(GroupRuns(s[..|s| - 1], key), s[|s| - 1], key);
    }
  }

  /** Absorbing an item keeps the groups maximal runs. */
  lemma AbsorbWellGrouped<T, K>(gs: seq<Group<K, T>>, x: T, key: T -> K)
    requires WellGrouped(gs, key)
    ensures WellGrouped(Absorb(gs, x, key), key)
  {
    var r := Absorb(gs, x, key);
    if |gs| > 0 && gs[|gs| - 1].key == key(x) {
      var last := gs[|gs| - 1];
      assert r == gs[..|gs| - 1] + [Group(last.key, last.items + [x])];
      assert |r| == |gs| && forall k :: 0 <= k < |gs| - 1 ==> r[k] == gs[k];
      assert r[|gs| - 1].key == last.key;
    } else {
      assert r == gs + [Group(key(x), [x])];
      assert forall k :: 0 <= k < |gs| ==> r[k] == gs[k];
    }
  }

  /** An empty input gives no groups, and a non-empty one at least one. */
  lemma GroupRunsEmpty<T, K>(s: seq<T>, key: T -> K)
    ensures |GroupRuns(s, key)| == 0 <==> |s| == 0
  {
  }
}
