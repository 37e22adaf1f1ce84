/** Appending a sequence of values to a `StringBuilder` with a separator between them. */
module StringBuilderExtensions {
  import opened Wrappers
  import opened Text

  /** The text a `StringBuilder` holds. */
  class StringBuilder {
    var content: string

    constructor ()
      ensures content == ""
    {
      content := "";
    }

    /** `Append(value)` */
    method Append(value: string)
      modifies this
      ensures content == old(content) + value
    {
      content := content + value;
    }

    /** `Length -= n`: lowering the length cuts the text back. */
    method Shorten(n: nat)
      requires n <= |content|
      modifies this
      ensures content == old(content)[..|old(content)| - n]
    {
      content := content[..|content| - n];
    }
  }

  /** What `joinAction` appends for each value, in order. */
  function Rendered<T>(values: seq<T>, render: T -> string): (r: seq<string>)
    ensures |r| == |values| && forall i :: 0 <= i < |values| ==> r[i] == render(values[i])
  {
    if |values| == 0 then [] else Rendered(values[..|values| - 1], render) + [render(values[|values| - 1])]
  }

  /** One more value adds its text and the separator. */
  lemma TerminatedNext<T>(values: seq<T>, i: nat, render: T -> string, separator: string)
    requires i < |values|
    ensures Terminated(separator, Rendered(values[..i + 1], render)) ==
            Terminated(separator, Rendered(values[..i], render)) + render(values[i]) + separator
  {
    assert values[..i + 1][..i] == values[..i];
  }

  /** The loop of `AppendJoin<T>`: each value's text followed by the separator. */
  method AppendEach<T>(stringBuilder: StringBuilder, values: seq<T>, render: T -> string, separator: string)
    modifies stringBuilder
    ensures stringBuilder.content == old(stringBuilder.content) + Terminated(separator, Rendered(values, render))
  {
    for i := 0 to |values|
      invariant stringBuilder.content == old(stringBuilder.content) + Terminated(separator, Rendered(values[..i], render))
    {
      TerminatedNext(values, i, render, separator);
      stringBuilder.Append(render(values[i]));
      stringBuilder.Append(separator);
    }
    assert values[..|values|] == values;
  }

  /** `AppendJoin<T>(stringBuilder, values, joinAction, separator)`: for each value its
    * text and then the separator, and at the end, when anything was appended, the last
    * separator taken back off; so the builder gains the texts joined by the separator,
    * and returns itself. */
  method AppendJoinWith<T>(stringBuilder: StringBuilder, values: seq<T>, render: T -> string, separator: string)
    returns (r: StringBuilder)
    modifies stringBuilder
    ensures r == stringBuilder
    ensures stringBuilder.content == old(stringBuilder.content) + Join(separator, Rendered(values, render))
  {
    AppendEach(stringBuilder, values, render, separator);
    var appended := |values| > 0;
    if appended {
      TerminatedJoin(separator, Rendered(values, render));
      stringBuilder.Shorten(|separator|);
      assert stringBuilder.content == old(stringBuilder.content) + Join(separator, Rendered(values, render));
    }
    r := stringBuilder;
  }

  /** `AppendJoin(stringBuilder, values, separator = ", ")`: each string appended as is,
    * a null one as nothing. */
  method AppendJoin(stringBuilder: StringBuilder, values: seq<Option<string>>, separator: string := ", ")
    returns (r: StringBuilder)
    modifies stringBuilder
    ensures r == stringBuilder
    ensures stringBuilder.content == old(stringBuilder.content) + Join(separator, Rendered(values, OrEmpty))
  {
    r := AppendJoinWith(stringBuilder, values, OrEmpty, separator);
  }

  /** The joined texts split again at a separator none of them contains give back the
    * texts, one per value: nothing is lost or merged between the values. */
  lemma AppendedSplitsBack<T>(values: seq<T>, render: T -> string, separator: char)
    requires |values| >= 1
    requires forall i :: 0 <= i < |values| ==> separator !in render(values[i])
    ensures Split(Join([separator], Rendered(values, render)), separator) == Rendered(values, render)
  {
    var parts := Rendered(values, render);
    forall k | 0 <= k < |parts| ensures separator !in parts[k] {
      assert parts[k] == render(values[k]);
    }
    SplitJoin(parts, separator);
  }
}
