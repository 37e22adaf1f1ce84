/** `GroupQueue<T>`: a first-in first-out queue that can hand out several items at once. */
module GroupQueues {
  /** How many items `Dequeue(count)` takes from a queue holding `available`: `count` of
    * them when there are that many, otherwise all; a count below 1 never stops the
    * loop, so it takes all as well. */
  function Taken(available: nat, count: int): (n: nat)
    ensures n <= available
    ensures n == available || n == count
  {
    if 1 <= count <= available then count else available
  }

  class GroupQueue<T> {
    /** The queued items, the front first. */
    var items: seq<T>

    /** `new GroupQueue<T>()` */
    constructor ()
      ensures items == []
    {
      items := [];
    }

    /** `new GroupQueue<T>(collection)`: the items in enumeration order. */
    constructor FromCollection(collection: seq<T>)
      ensures items == collection
    {
      items := collection;
    }

    /** `new GroupQueue<T>(capacity)`; the capacity only sizes the storage, and a negative
      * one is refused by `Queue<T>`. */
    constructor WithCapacity(capacity: int)
      requires capacity >= 0
      ensures items == []
    {
      items := [];
    }

    /** `Queue<T>.Enqueue`: at the back. */
    method Enqueue(x: T)
      modifies this
      ensures items == old(items) + [x]
    {
      items := items + [x];
    }

    /** `Queue<T>.Dequeue()`: the front item, which it removes. */
    method DequeueOne() returns (x: T)
      requires |items| > 0
      modifies this
      ensures x == old(items)[0] && items == old(items)[1..]
    {
      x := items[0];
      items := items[1..];
    }

    /** `Dequeue(count)`: the first `Taken(|items|, count)` items in queue order, removed
      * from the queue, which keeps the rest in order. */
    method Dequeue(count: int) returns (taken: seq<T>)
      modifies this
      ensures taken + items == old(items)
      ensures |taken| == Taken(|old(items)|, count)
      ensures 1 <= count ==> |taken| <= count
    {
      taken := [];
      while |items| > 0
        invariant taken + items == old(items)
        invariant 1 <= count ==> |taken| < count
        decreases |items|
      {
        var x := DequeueOne();
        taken := taken + [x];
        if |taken| == count {
          break;
        }
      }
    }
  }

  /** The items come out in the order they went in: after enqueueing a batch into an
    * empty queue, asking for its length or more hands back exactly the batch, and
    * asking for fewer hands back its front. */
  method FirstInFirstOut<T>(batch: seq<T>, count: int) returns (taken: seq<T>)
    ensures |batch| <= count ==> taken == batch
    ensures 1 <= count < |batch| ==> taken == batch[..count]
    ensures count < 1 ==> taken == batch
  {
    var q := new GroupQueue<T>();
    var i := 0;
    while i < |batch|
      invariant 0 <= i <= |batch| && q.items == batch[..i]
    {
      q.Enqueue(batch[i]);
      assert batch[..i + 1] == batch[..i] + [batch[i]];
      i := i + 1;
    }
    assert batch[..|batch|] == batch;
    taken := q.Dequeue(count);
    assert taken == batch[..|taken|];
  }
}
