/** The weighted Levenshtein distance that `StringDistance.LevenshteinDistance` computes, and
  * the edit script that `StringDistance.LevenshteinChoices` reads back from its table, as
  * functions of the two inputs. */
module EditDistance {
  import opened Wrappers
  import opened Choices
  import opened Comparers

  /** One distance computation: the two inputs, the element comparer, the weight of each
    * kind of step, and whether adjacent transpositions are allowed. */
  datatype Problem<!T> = Problem(
    before: seq<T>,
    after: seq<T>,
    eq: (T, T) -> bool,
    weight: Choice<T> -> int,
    transposition: bool)

  function Min(x: int, y: int): (r: int)
    ensures r <= x && r <= y && (r == x || r == y)
  {
    if x <= y then x else y
  }

  /** Table cell (i, j): the cost of turning `before[..i]` into `after[..j]`. Row 0 and
    * column 0 add up removals and additions; equal elements copy the diagonal; any other
    * cell takes the cheapest of removing, adding and substituting, and of a transposition
    * when it is allowed and the two last elements are swapped. */
  function Cost<T>(p: Problem<T>, i: nat, j: nat): int
    requires i <= |p.before| && j <= |p.after|
    decreases i + j
  {
    if i == 0 && j == 0 then 0
    else if j == 0 then Cost(p, i - 1, 0) + p.weight(Remove(p.before[i - 1]))
    else if i == 0 then Cost(p, 0, j - 1) + p.weight(Add(p.after[j - 1]))
    else if p.eq(p.before[i - 1], p.after[j - 1]) then Cost(p, i - 1, j - 1)
    else
      var m := Min(Min(Cost(p, i - 1, j) + p.weight(Remove(p.before[i - 1])),
                       Cost(p, i, j - 1) + p.weight(Add(p.after[j - 1]))),
                   Cost(p, i - 1, j - 1) + p.weight(Substitute(p.before[i - 1], p.after[j - 1])));
      if TransposeApplies(p, i, j)
      then Min(m, Cost(p, i - 2, j - 2) + p.weight(Transpose(p.before[i - 1], p.before[i - 2])))
      else m
  }

  predicate TransposeApplies<T>(p: Problem<T>, i: nat, j: nat)
    requires i <= |p.before| && j <= |p.after|
  {
    p.transposition && i > 1 && j > 1
    && p.eq(p.before[i - 1], p.after[j - 2]) && p.eq(p.before[i - 2], p.after[j - 1])
  }

  /** `weight ?? (c => 1)`: a missing weight makes every step cost 1. */
  function WeightOrDefault<T>(weight: Option<Choice<T> -> int>): Choice<T> -> int
  {
    if weight.None? then (c: Choice<T>) => 1 else weight.value
  }

  /** The problem solved when neither a comparer nor a weight is given. */
  function DefaultProblem<T(==)>(before: seq<T>, after: seq<T>, transposition: bool): Problem<T>
  {
    Problem(before, after, OrDefault(None), WeightOrDefault(None), transposition)
  }

  /** Row `r` of `table` holds the first `n` cells of row `r` of the distance table. */
  ghost predicate RowMatches<T>(table: array2<int>, p: Problem<T>, r: nat, n: nat)
    reads table
    requires r < table.Length0 && n <= table.Length1
    requires r <= |p.before| && n <= |p.after| + 1
  {
    forall y :: 0 <= y < n ==> table[r, y] == Cost(p, r, y)
  }

  /** The distance of the whole inputs. */
  function Distance<T>(p: Problem<T>): int
  {
    Cost(p, |p.before|, |p.after|)
  }

  /** What each of the three backtrace candidates costs at an unequal cell. */
  function RemoveStep<T>(p: Problem<T>, i: nat, j: nat): int
    requires 0 < i <= |p.before| && j <= |p.after|
  {
    Cost(p, i - 1, j) + p.weight(Remove(p.before[i - 1]))
  }

  function AddStep<T>(p: Problem<T>, i: nat, j: nat): int
    requires i <= |p.before| && 0 < j <= |p.after|
  {
    Cost(p, i, j - 1) + p.weight(Add(p.after[j - 1]))
  }

  function SubstituteStep<T>(p: Problem<T>, i: nat, j: nat): int
    requires 0 < i <= |p.before| && 0 < j <= |p.after|
  {
    Cost(p, i - 1, j - 1) + p.weight(Substitute(p.before[i - 1], p.after[j - 1]))
  }

  /** The step the backtrace takes at cell (i, j). Equal elements give `Equal`; otherwise
    * the cheapest of substitute, remove and add is taken, ties going to substitute, then
    * remove, then add; once one input is used up, the rest of the other is removed or
    * added. */
  function LastStep<T>(p: Problem<T>, i: nat, j: nat): Choice<T>
    requires i <= |p.before| && j <= |p.after| && i + j > 0
  {
    if i > 0 && j > 0 then
      if p.eq(p.before[i - 1], p.after[j - 1]) then Equal(p.before[i - 1])
      else
        var remove := RemoveStep(p, i, j);
        var add := AddStep(p, i, j);
        var substitute := SubstituteStep(p, i, j);
        var least := Min(remove, Min(add, substitute));
        if substitute == least then Substitute(p.before[i - 1], p.after[j - 1])
        else if remove == least then Remove(p.before[i - 1])
        else Add(p.after[j - 1])
    else if i > 0 then Remove(p.before[i - 1])
    else Add(p.after[j - 1])
  }

  /** The step at (i, j) consumes the last element of `before[..i]` unless it adds, and the
    * last element of `after[..j]` unless it removes; it is never a transposition. */
  lemma LastStepSides<T>(p: Problem<T>, i: nat, j: nat)
    requires i <= |p.before| && j <= |p.after| && i + j > 0
    ensures var c := LastStep(p, i, j);
      && !c.Transpose?
      && (!c.Add? ==> i > 0 && c.RemovedSide() == Some(p.before[i - 1]))
      && (!c.Remove? ==> j > 0 && c.AddedSide().Some?)
      && (c.Add? || c.Substitute? ==> c.AddedSide() == Some(p.after[j - 1]))
      && (c.Equal? ==> p.eq(p.before[i - 1], p.after[j - 1]))
      && (c.Substitute? || c.Remove? ==> j > 0 ==> !p.eq(p.before[i - 1], p.after[j - 1]))
  {
  }

  /** The cell the backtrace moves to after the step at (i, j). */
  function PrevI<T>(p: Problem<T>, i: nat, j: nat): nat
    requires i <= |p.before| && j <= |p.after| && i + j > 0
  {
    if LastStep(p, i, j).Add? then i else i - 1
  }

  function PrevJ<T>(p: Problem<T>, i: nat, j: nat): nat
    requires i <= |p.before| && j <= |p.after| && i + j > 0
  {
    if LastStep(p, i, j).Remove? then j else j - 1
  }

  /** The edit script for `before[..i]` and `after[..j]`, in forward order. */
  function Backtrace<T>(p: Problem<T>, i: nat, j: nat): seq<Choice<T>>
    requires i <= |p.before| && j <= |p.after|
    decreases i + j
  {
    if i == 0 && j == 0 then []
    else
      LastStepSides(p, i, j);
      Backtrace(p, PrevI(p, i, j), PrevJ(p, i, j)) + [LastStep(p, i, j)]
  }

  /** The edit script of the whole inputs. */
  function Script<T>(p: Problem<T>): seq<Choice<T>>
  {
    Backtrace(p, |p.before|, |p.after|)
  }

  /** The removed sides of a script, in order (every step but `Add` has one). */
  function RemovedValues<T>(s: seq<Choice<T>>): seq<T>
  {
    if |s| == 0 then []
    else RemovedValues(s[..|s| - 1]) + (if s[|s| - 1].Add? then [] else [s[|s| - 1].RemovedSide().value])
  }

  /** The added sides of a script, in order (every step but `Remove` has one). */
  function AddedValues<T>(s: seq<Choice<T>>): seq<T>
  {
    if |s| == 0 then []
    else AddedValues(s[..|s| - 1]) + (if s[|s| - 1].Remove? then [] else [s[|s| - 1].AddedSide().value])
  }

  /** The summed weights of the steps that are not `Equal`. */
  function ScriptWeight<T>(s: seq<Choice<T>>, weight: Choice<T> -> int): int
  {
    if |s| == 0 then 0
    else ScriptWeight(s[..|s| - 1], weight) + (if s[|s| - 1].Equal? then 0 else weight(s[|s| - 1]))
  }

  lemma LastOf<T>(s: seq<Choice<T>>, c: Choice<T>)
    ensures (s + [c])[..|s + [c]| - 1] == s && (s + [c])[|s + [c]| - 1] == c
  {
  }

  /** Replaying the script: its removed sides spell `before[..i]`. */
  lemma {:induction false} BacktraceReplaysBefore<T>(p: Problem<T>, i: nat, j: nat)
    requires i <= |p.before| && j <= |p.after|
    ensures RemovedValues(Backtrace(p, i, j)) == p.before[..i]
    decreases i + j
  {
    if i + j > 0 {
      var c := LastStep(p, i, j);
      var i', j' := PrevI(p, i, j), PrevJ(p, i, j);
      var s := Backtrace(p, i', j');
      LastStepSides(p, i, j);
      BacktraceReplaysBefore(p, i', j');
      LastOf(s, c);
      assert RemovedValues(s + [c]) == RemovedValues(s) + (if c.Add? then [] else [c.RemovedSide().value]);
      if !c.Add? {
        assert p.before[..i] == p.before[..i - 1] + [p.before[i - 1]];
      }
    }
  }

  /** Replaying the script: when the comparer is plain equality, its added sides spell
    * `after[..j]`. */
  lemma {:induction false} BacktraceReplaysAfter<T(!new)>(p: Problem<T>, i: nat, j: nat)
    requires i <= |p.before| && j <= |p.after|
    requires IsEquality(p.eq)
    ensures AddedValues(Backtrace(p, i, j)) == p.after[..j]
    decreases i + j
  {
    if i + j > 0 {
      var c := LastStep(p, i, j);
      var i', j' := PrevI(p, i, j), PrevJ(p, i, j);
      var s := Backtrace(p, i', j');
      LastStepSides(p, i, j);
      BacktraceReplaysAfter(p, i', j');
      LastOf(s, c);
      assert AddedValues(s + [c]) == AddedValues(s) + (if c.Remove? then [] else [c.AddedSide().value]);
      if !c.Remove? {
        if c.Equal? {
          assert p.eq(p.before[i - 1], p.after[j - 1]);
        }
        assert c.AddedSide() == Some(p.after[j - 1]);
        assert p.after[..j] == p.after[..j - 1] + [p.after[j - 1]];
      }
    }
  }

  /** Under plain equality the whole script replays both inputs: its removed sides are the
    * old input, its added sides the new one, and it holds no transposition. */
  lemma ScriptReplays<T(!new)>(p: Problem<T>)
    requires IsEquality(p.eq)
    ensures RemovedValues(Script(p)) == p.before && AddedValues(Script(p)) == p.after
    ensures forall k :: 0 <= k < |Script(p)| ==> !Script(p)[k].Transpose?
  {
    BacktraceShape(p, |p.before|, |p.after|);
    BacktraceReplaysBefore(p, |p.before|, |p.after|);
    BacktraceReplaysAfter(p, |p.before|, |p.after|);
    assert p.before[..|p.before|] == p.before && p.after[..|p.after|] == p.after;
  }

  /** The backtrace follows a minimum-cost path: without transposition, the weights of its
    * non-`Equal` steps add up to the table cell it starts from. */
  lemma {:induction false} BacktraceWeight<T>(p: Problem<T>, i: nat, j: nat)
    requires i <= |p.before| && j <= |p.after|
    requires !p.transposition
    ensures ScriptWeight(Backtrace(p, i, j), p.weight) == Cost(p, i, j)
    decreases i + j
  {
    if i + j > 0 {
      var c := LastStep(p, i, j);
      var i', j' := PrevI(p, i, j), PrevJ(p, i, j);
      LastStepSides(p, i, j);
      BacktraceWeight(p, i', j');
      LastOf(Backtrace(p, i', j'), c);
      StepCost(p, i, j);
    }
  }

  /** Each step of the backtrace pays exactly the difference between its two cells. */
  lemma StepCost<T>(p: Problem<T>, i: nat, j: nat)
    requires i <= |p.before| && j <= |p.after| && i + j > 0
    requires !p.transposition
    ensures var c := LastStep(p, i, j);
      Cost(p, i, j) == Cost(p, PrevI(p, i, j), PrevJ(p, i, j)) + (if c.Equal? then 0 else p.weight(c))
  {
  }

  /** The backtrace never emits a transposition, and it has one step per element of the
    * longer input at least and of both inputs together at most. */
  lemma {:induction false} BacktraceShape<T>(p: Problem<T>, i: nat, j: nat)
    requires i <= |p.before| && j <= |p.after|
    ensures forall k :: 0 <= k < |Backtrace(p, i, j)| ==> !Backtrace(p, i, j)[k].Transpose?
    ensures (if i < j then j else i) <= |Backtrace(p, i, j)| <= i + j
    decreases i + j
  {
    if i + j > 0 {
      LastStepSides(p, i, j);
      BacktraceShape(p, PrevI(p, i, j), PrevJ(p, i, j));
    }
  }

  /** At an unequal cell the step taken is a cheapest one, ties going to substitute, then
    * remove, then add. */
  lemma StepChoice<T>(p: Problem<T>, i: nat, j: nat)
    requires 0 < i <= |p.before| && 0 < j <= |p.after|
    requires !p.eq(p.before[i - 1], p.after[j - 1]) && !p.transposition
    ensures var c := LastStep(p, i, j);
      && (c.Substitute? <==> SubstituteStep(p, i, j) == Cost(p, i, j))
      && (c.Remove? <==> SubstituteStep(p, i, j) != Cost(p, i, j) && RemoveStep(p, i, j) == Cost(p, i, j))
      && (c.Add? <==> SubstituteStep(p, i, j) != Cost(p, i, j) && RemoveStep(p, i, j) != Cost(p, i, j))
      && (c.Add? ==> AddStep(p, i, j) == Cost(p, i, j))
  {
  }

  /** At an unequal cell the table never exceeds the cheapest of remove, add and
    * substitute, and equals it when transpositions are off. */
  lemma UnequalCell<T>(p: Problem<T>, i: nat, j: nat)
    requires 0 < i <= |p.before| && 0 < j <= |p.after|
    requires !p.eq(p.before[i - 1], p.after[j - 1])
    ensures Cost(p, i, j) <= Min(Min(RemoveStep(p, i, j), AddStep(p, i, j)), SubstituteStep(p, i, j))
    ensures !p.transposition ==> Cost(p, i, j) == Min(Min(RemoveStep(p, i, j), AddStep(p, i, j)), SubstituteStep(p, i, j))
  {
  }

  /** Equal elements copy the diagonal. */
  lemma EqualCell<T>(p: Problem<T>, i: nat, j: nat)
    requires 0 < i <= |p.before| && 0 < j <= |p.after|
    requires p.eq(p.before[i - 1], p.after[j - 1])
    ensures Cost(p, i, j) == Cost(p, i - 1, j - 1)
  {
  }

  /** Allowing transpositions never makes the distance larger. */
  lemma {:induction false} TranspositionNeverWorse<T>(p: Problem<T>, q: Problem<T>, i: nat, j: nat)
    requires q == p.(transposition := true) && !p.transposition
    requires i <= |p.before| && j <= |p.after|
    ensures Cost(q, i, j) <= Cost(p, i, j)
    decreases i + j
  {
    if i > 0 {
      TranspositionNeverWorse(p, q, i - 1, j);
    }
    if j > 0 {
      TranspositionNeverWorse(p, q, i, j - 1);
    }
    if i > 0 && j > 0 {
      TranspositionNeverWorse(p, q, i - 1, j - 1);
    }
    CellNeverWorse(p, q, i, j);
  }

  /** Allowing transpositions keeps a cell no larger when it keeps the cells the cell is
    * computed from no larger. */
  lemma CellNeverWorse<T>(p: Problem<T>, q: Problem<T>, i: nat, j: nat)
    requires q == p.(transposition := true) && !p.transposition
    requires i <= |p.before| && j <= |p.after|
    requires i > 0 ==> Cost(q, i - 1, j) <= Cost(p, i - 1, j)
    requires j > 0 ==> Cost(q, i, j - 1) <= Cost(p, i, j - 1)
    requires i > 0 && j > 0 ==> Cost(q, i - 1, j - 1) <= Cost(p, i - 1, j - 1)
    ensures Cost(q, i, j) <= Cost(p, i, j)
  {
    if i > 0 && j > 0 && !p.eq(p.before[i - 1], p.after[j - 1]) {
      UnequalCellNeverWorse(p, q, i, j);
    }
  }

  /** At an unequal cell, allowing transpositions keeps the cell no larger when it keeps its
    * three neighbours no larger. */
  lemma UnequalCellNeverWorse<T>(p: Problem<T>, q: Problem<T>, i: nat, j: nat)
    requires q == p.(transposition := true) && !p.transposition
    requires 0 < i <= |p.before| && 0 < j <= |p.after| && !p.eq(p.before[i - 1], p.after[j - 1])
    requires Cost(q, i - 1, j) <= Cost(p, i - 1, j) && Cost(q, i, j - 1) <= Cost(p, i, j - 1)
    requires Cost(q, i - 1, j - 1) <= Cost(p, i - 1, j - 1)
    ensures Cost(q, i, j) <= Cost(p, i, j)
  {
    UnequalCell(p, i, j);
    UnequalCell(q, i, j);
  }
}
