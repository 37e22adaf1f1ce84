/** `DiffPair<T>`: one element of a diff, tagged with what happened to it. */
module DiffPairs {

  datatype DiffAction = Equal | Added | Removed

  datatype DiffPair<T> = DiffPair(action: DiffAction, value: T)

  /** `ToString`: "+" for an added value, "-" for a removed one, nothing for an equal one. */
  function Render<T>(p: DiffPair<T>, show: T -> string): (r: string)
    ensures p.action == Added ==> r == "+" + show(p.value)
    ensures p.action == Removed ==> r == "-" + show(p.value)
    ensures p.action == Equal ==> r == show(p.value)
  {
    (if p.action == Added then "+" else if p.action == Removed then "-" else "") + show(p.value)
  }

  /** The renderings of a whole diff, concatenated. */
  function RenderAll<T>(ps: seq<DiffPair<T>>, show: T -> string): string
  {
    if |ps| == 0 then "" else Render(ps[0], show) + RenderAll(ps[1..], show)
  }
}
