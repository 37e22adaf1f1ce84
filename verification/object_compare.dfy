/** `ObjectCompareExtensions`: a fluent way to write `CompareTo` as a chain of
  * comparisons, where the first one that tells the two objects apart decides. */
module ObjectCompare {
  import opened Wrappers

  /** `ObjectCompareContext<T>`: the object being compared and the comparison so far. */
  class ObjectCompareContext<T> {
    const obj: Option<T>
    var value: int

    constructor (obj: Option<T>)
      ensures this.obj == obj && value == 0
    {
      this.obj := obj;
      value := 0;
    }
  }

  /** How `CompareWith` orders by nullness alone: a missing object first (even against
    * another missing one), a missing other last, and no decision between two present
    * objects. */
  function NullOrder<T>(obj: Option<T>, other: Option<T>): (r: int)
    ensures r == 0 <==> obj.Some? && other.Some?
    ensures -1 <= r <= 1
  {
    if obj.None? || other.None? then (if obj.None? then -1 else 1) else 0
  }

  /** Swapping the two sides reverses the order, except that two missing objects each
    * come first. */
  lemma NullOrderSwap<T>(a: Option<T>, b: Option<T>)
    ensures a.Some? || b.Some? ==> NullOrder(b, a) == -NullOrder(a, b)
    ensures a.None? && b.None? ==> NullOrder(a, b) == NullOrder(b, a) == -1
  {
  }

  /** `obj.CompareWith(other)`: a new context for `obj`, already decided when either side
    * is missing. */
  method CompareWith<T>(obj: Option<T>, other: Option<T>) returns (context: ObjectCompareContext<T>)
    ensures fresh(context)
    ensures context.obj == obj && context.value == NullOrder(obj, other)
  {
    context := new ObjectCompareContext(obj);
    context.value := if obj.None? || other.None? then (if obj.None? then -1 else 1) else 0;
  }

  /** `context.Then(compareToFunc)`: a context that is already decided stays as it is;
    * otherwise the next comparison, applied to the object, decides. */
  method Then<T>(context: ObjectCompareContext<T>, compareToFunc: Option<T> -> int) returns (r: ObjectCompareContext<T>)
    modifies context
    ensures r == context
    ensures old(context.value) != 0 ==> context.value == old(context.value)
    ensures old(context.value) == 0 ==> context.value == compareToFunc(context.obj)
  {
    if context.value != 0 {
      return context;
    }
    context.value := compareToFunc(context.obj);
    return context;
  }

  /** `context.End()`: the comparison. */
  method End<T>(context: ObjectCompareContext<T>) returns (r: int)
    ensures r == context.value
  {
    r := context.value;
  }

  /** The first of the results that is not 0, or 0 when they all are. */
  function FirstNonZero(results: seq<int>): int
  {
    if |results| == 0 then 0
    else if results[0] != 0 then results[0]
    else FirstNonZero(results[1..])
  }

  /** The outcome of a chain is 0 exactly when every comparison ties, and otherwise the
    * first comparison that does not. */
  lemma {:induction false} FirstNonZeroMeaning(results: seq<int>)
    ensures FirstNonZero(results) == 0 <==> forall i :: 0 <= i < |results| ==> results[i] == 0
    ensures FirstNonZero(results) != 0 ==>
      exists k :: 0 <= k < |results| && results[k] == FirstNonZero(results) &&
        forall i :: 0 <= i < k ==> results[i] == 0
  {
    if |results| > 0 && results[0] == 0 {
      FirstNonZeroMeaning(results[1..]);
      if FirstNonZero(results) != 0 {
        var k :| 0 <= k < |results[1..]| && results[1..][k] == FirstNonZero(results[1..]) &&
          forall i :: 0 <= i < k ==> results[1..][i] == 0;
        assert results[k + 1] == FirstNonZero(results);
        forall i | 0 <= i < k + 1 ensures results[i] == 0 {
          if i > 0 {
            assert results[i] == results[1..][i - 1];
          }
        }
      }
      forall i | 0 <= i < |results| && FirstNonZero(results) == 0 ensures results[i] == 0 {
        if i > 0 {
          assert results[i] == results[1..][i - 1];
        }
      }
    }
  }

  /** The results of applying each comparison to the object. */
  function Applied<T>(obj: Option<T>, comparisons: seq<Option<T> -> int>): (r: seq<int>)
    ensures |r| == |comparisons| && forall i :: 0 <= i < |r| ==> r[i] == comparisons[i](obj)
  {
    if |comparisons| == 0 then [] else [comparisons[0](obj)] + Applied(obj, comparisons[1..])
  }

  /** `obj.CompareWith(other).Then(f1)...Then(fn).End()`: the nullness order if it
    * decides, otherwise the first comparison that is not 0. */
  method CompareChain<T>(obj: Option<T>, other: Option<T>, comparisons: seq<Option<T> -> int>) returns (r: int)
    ensures r == FirstNonZero([NullOrder(obj, other)] + Applied(obj, comparisons))
  {
    var context := CompareWith(obj, other);
    ghost var all := [NullOrder(obj, other)] + Applied(obj, comparisons);
    for i := 0 to |comparisons|
      invariant context.obj == obj
      invariant FirstNonZero(all) == FirstNonZero([context.value] + Applied(obj, comparisons[i..]))
    {
      assert comparisons[i..][1..] == comparisons[i + 1..];
      var _ := Then(context, comparisons[i]);
    }
    r := End(context);
  }
}
