/** `Choice<T>`: one step of an edit script. The C# struct keeps a type tag and two values
  * and leaves the side a step does not have at `default(T)`; here each step kind is a
  * constructor, and the absent side reads as `None`. */
module Choices {
  import opened Wrappers

  datatype Choice<T> =
    | Equal(value: T)
    | Substitute(removed: T, added: T)
    | Remove(removed: T)
    | Add(added: T)
    | Transpose(removed: T, added: T)
  {
    predicate HasRemoved() { !Add? }

    predicate HasAdded() { !Remove? }

    /** The `Removed` field; `None` where the struct holds `default(T)`. */
    function RemovedSide(): Option<T>
    {
      match this
      case Equal(v) => Some(v)
      case Substitute(r, _) => Some(r)
      case Remove(r) => Some(r)
      case Add(_) => None
      case Transpose(r, _) => Some(r)
    }

    /** The `Added` field; `None` where the struct holds `default(T)`. */
    function AddedSide(): Option<T>
    {
      match this
      case Equal(v) => Some(v)
      case Substitute(_, a) => Some(a)
      case Remove(_) => None
      case Add(a) => Some(a)
      case Transpose(_, a) => Some(a)
    }
  }

  /** `HasRemoved` and `HasAdded` say exactly which sides carry a value: only `Add` lacks
    * a removed value, only `Remove` lacks an added one, and `Equal(v)` has `v` on both. */
  lemma Sides<T>(c: Choice<T>)
    ensures c.HasRemoved() <==> c.RemovedSide().Some?
    ensures c.HasAdded() <==> c.AddedSide().Some?
    ensures c.Equal? ==> c.RemovedSide() == c.AddedSide() == Some(c.value)
    ensures c.Substitute? ==> c.RemovedSide() == Some(c.removed) && c.AddedSide() == Some(c.added)
  {
  }

  /** `ToString`, given how one value renders; `None` is the `null` a transposition gives. */
  function Render<T>(c: Choice<T>, show: T -> string): (r: Option<string>)
    ensures r.None? <==> c.Transpose?
    ensures c.Remove? ==> r == Some("-" + show(c.removed))
    ensures c.Add? ==> r == Some("+" + show(c.added))
    ensures c.Substitute? ==> r == Some("[-" + show(c.removed) + "+" + show(c.added) + "]")
    ensures c.Equal? ==> r == Some(show(c.value))
  {
    match c
    case Equal(v) => Some(show(v))
    case Substitute(r, a) => Some("[-" + show(r) + "+" + show(a) + "]")
    case Remove(r) => Some("-" + show(r))
    case Add(a) => Some("+" + show(a))
    case Transpose(_, _) => None
  }
}
