/** `LevenshteinDistance.Compute`: the textbook unit-cost Levenshtein matrix over two strings,
  * kept separate from `StringDistance`. Its distance agrees with the weighted engine under
  * the default weight (every step costs 1) and the default comparer. */
module Levenshtein {
  import opened Wrappers
  import opened Choices
  import opened EditDistance

  /** `LevenshteinDistanceResult` without its floating-point `Rate`. */
  datatype LevenshteinDistanceResult = LevenshteinDistanceResult(
    string1: string,
    string2: string,
    computeTimes: int,
    distance: int)

  /** The engine's problem under its defaults: plain equality, every step weighs 1, no
    * transpositions. */
  function UnitProblem(s1: string, s2: string): (p: Problem<char>)
    ensures forall x, y :: p.eq(x, y) == (x == y)
    ensures forall c :: p.weight(c) == 1
    ensures p.before == s1 && p.after == s2 && !p.transposition
  {
    DefaultProblem(s1, s2, false)
  }

  function Max(x: int, y: int): int
  {
    if x < y then y else x
  }

  function Abs(x: int): nat
  {
    if x < 0 then -x else x
  }

  /** Unit-cost cell (i, j) lies between the length difference and the longer length. */
  predicate Bounded(s1: string, s2: string, i: nat, j: nat)
    requires i <= |s1| && j <= |s2|
  {
    Abs(i - j) <= Cost(UnitProblem(s1, s2), i, j) <= Max(i, j)
  }

  /** Every unit-cost cell is bounded. */
  lemma {:induction false} UnitBounds(s1: string, s2: string, i: nat, j: nat)
    requires i <= |s1| && j <= |s2|
    ensures Bounded(s1, s2, i, j)
    decreases i + j
  {
    if j == 0 {
      UnitColumn(s1, s2, i);
    } else if i == 0 {
      UnitRow(s1, s2, j);
    } else {
      UnitBounds(s1, s2, i - 1, j - 1);
      UnitBounds(s1, s2, i - 1, j);
      UnitBounds(s1, s2, i, j - 1);
      UnitBoundsCell(s1, s2, i, j);
    }
  }

  /** An inner cell keeps the bounds when the three cells it is computed from keep them. */
  lemma UnitBoundsCell(s1: string, s2: string, i: nat, j: nat)
    requires 0 < i <= |s1| && 0 < j <= |s2|
    requires Bounded(s1, s2, i - 1, j) && Bounded(s1, s2, i, j - 1) && Bounded(s1, s2, i - 1, j - 1)
    ensures Bounded(s1, s2, i, j)
  {
    if s1[i - 1] != s2[j - 1] {
      UnequalCell(UnitProblem(s1, s2), i, j);
    }
  }

  /** A string is at distance 0 from itself. */
  lemma {:induction false} UnitSame(s: string, i: nat)
    requires i <= |s|
    ensures Cost(UnitProblem(s, s), i, i) == 0
  {
    if i > 0 {
      UnitSame(s, i - 1);
    }
  }

  /** Unit-cost cell (i, j) differs by at most one from the cell above it. */
  predicate UpClose(s1: string, s2: string, i: nat, j: nat)
    requires 0 < i <= |s1| && j <= |s2|
  {
    var p := UnitProblem(s1, s2);
    Cost(p, i, j) <= Cost(p, i - 1, j) + 1 && Cost(p, i - 1, j) <= Cost(p, i, j) + 1
  }

  /** Unit-cost cell (i, j) differs by at most one from the cell to its left. */
  predicate LeftClose(s1: string, s2: string, i: nat, j: nat)
    requires i <= |s1| && 0 < j <= |s2|
  {
    var p := UnitProblem(s1, s2);
    Cost(p, i, j) <= Cost(p, i, j - 1) + 1 && Cost(p, i, j - 1) <= Cost(p, i, j) + 1
  }

  /** Neighbouring unit-cost cells differ by at most one. */
  lemma {:induction false} Neighbours(s1: string, s2: string, i: nat, j: nat)
    requires i <= |s1| && j <= |s2|
    ensures (i > 0 ==> UpClose(s1, s2, i, j)) && (j > 0 ==> LeftClose(s1, s2, i, j))
    decreases i + j
  {
    if i > 0 && j > 0 {
      Neighbours(s1, s2, i - 1, j);
      Neighbours(s1, s2, i, j - 1);
      NeighboursCell(s1, s2, i, j);
    } else if i > 0 {
      UnitColumn(s1, s2, i);
    } else if j > 0 {
      UnitRow(s1, s2, j);
    }
  }

  /** An inner cell differs by at most one from its upper and left neighbours when each of
    * those differs by at most one from the diagonal neighbour. */
  lemma NeighboursCell(s1: string, s2: string, i: nat, j: nat)
    requires 0 < i <= |s1| && 0 < j <= |s2|
    requires LeftClose(s1, s2, i - 1, j) && UpClose(s1, s2, i, j - 1)
    ensures UpClose(s1, s2, i, j) && LeftClose(s1, s2, i, j)
  {
    if s1[i - 1] != s2[j - 1] {
      UnequalCell(UnitProblem(s1, s2), i, j);
    }
  }

  /** The textbook recurrence `min(up + 1, left + 1, diagonal + cost)` produces the same cell
    * as the engine's, which copies the diagonal for equal characters. */
  lemma TextbookCell(s1: string, s2: string, i: nat, j: nat)
    requires 0 < i <= |s1| && 0 < j <= |s2|
    ensures var p := UnitProblem(s1, s2);
      Cost(p, i, j) == Min(Min(Cost(p, i - 1, j) + 1, Cost(p, i, j - 1) + 1),
                           Cost(p, i - 1, j - 1) + (if s1[i - 1] == s2[j - 1] then 0 else 1))
  {
    if s1[i - 1] == s2[j - 1] {
      DiagonalBelow(s1, s2, i, j);
      TextbookEqualCell(s1, s2, i, j);
    } else {
      TextbookUnequalCell(s1, s2, i, j);
    }
  }

  /** The diagonal neighbour is at most one more than the upper and the left neighbour. */
  lemma DiagonalBelow(s1: string, s2: string, i: nat, j: nat)
    requires 0 < i <= |s1| && 0 < j <= |s2|
    ensures var p := UnitProblem(s1, s2);
      Cost(p, i - 1, j - 1) <= Cost(p, i - 1, j) + 1 && Cost(p, i - 1, j - 1) <= Cost(p, i, j - 1) + 1
  {
    Neighbours(s1, s2, i - 1, j);
    Neighbours(s1, s2, i, j - 1);
  }

  /** For equal characters the diagonal is the least of the three candidates, because it is
    * at most one more than either other neighbour. */
  lemma TextbookEqualCell(s1: string, s2: string, i: nat, j: nat)
    requires 0 < i <= |s1| && 0 < j <= |s2| && s1[i - 1] == s2[j - 1]
    requires var p := UnitProblem(s1, s2);
      Cost(p, i - 1, j - 1) <= Cost(p, i - 1, j) + 1 && Cost(p, i - 1, j - 1) <= Cost(p, i, j - 1) + 1
    ensures var p := UnitProblem(s1, s2);
      Cost(p, i, j) == Min(Min(Cost(p, i - 1, j) + 1, Cost(p, i, j - 1) + 1), Cost(p, i - 1, j - 1))
  {
    EqualCell(UnitProblem(s1, s2), i, j);
  }

  /** For unequal characters both recurrences take one plus the least neighbour. */
  lemma TextbookUnequalCell(s1: string, s2: string, i: nat, j: nat)
    requires 0 < i <= |s1| && 0 < j <= |s2| && s1[i - 1] != s2[j - 1]
    ensures var p := UnitProblem(s1, s2);
      Cost(p, i, j) == Min(Min(Cost(p, i - 1, j) + 1, Cost(p, i, j - 1) + 1), Cost(p, i - 1, j - 1) + 1)
  {
    UnequalCell(UnitProblem(s1, s2), i, j);
  }

  /** `_Minimum`: the least of three values. */
  method Minimum(first: int, second: int, third: int) returns (intMin: int)
    ensures intMin <= first && intMin <= second && intMin <= third
    ensures intMin == first || intMin == second || intMin == third
  {
    intMin := first;
    if second < intMin {
      intMin := second;
    }
    if third < intMin {
      intMin := third;
    }
  }

  /** `Compute`: rejects null, fills the matrix row by row and counts the inner cells. The
    * distance is the unit-cost distance of the engine, it is 0 for equal strings, and it is
    * below `max(|str1|, |str2|) + 1`, the divisor of the rate, so the rate lies in (0, 1]. */
  method Compute(str1: Option<string>, str2: Option<string>) returns (r: Result<LevenshteinDistanceResult>)
    ensures r.Err? <==> str1.None? || str2.None?
    ensures r.Err? ==> r.error == ArgumentNull
    ensures r.Ok? ==> r.value.string1 == str1.value && r.value.string2 == str2.value
    ensures r.Ok? ==> r.value.computeTimes == |str1.value| * |str2.value|
    ensures r.Ok? ==> r.value.distance == Distance(UnitProblem(str1.value, str2.value))
    ensures r.Ok? ==> 0 <= r.value.distance < Max(|str1.value|, |str2.value|) + 1
    ensures r.Ok? && str1.value == str2.value ==> r.value.distance == 0
  {
    if str1.None? || str2.None? {
      return Err(ArgumentNull);
    }
    var s1, s2 := str1.value, str2.value;
    ghost var p := UnitProblem(s1, s2);
    var computeTimes := 0;
    var row, column := |s1| + 1, |s2| + 1;
    var matrix := new int[row, column];
    InitBorders(matrix, s1, s2, p);
    for i := 1 to row
      invariant computeTimes == (i - 1) * (column - 1)
      invariant forall x :: 0 <= x < i ==> RowMatches(matrix, p, x, column)
      invariant forall x :: i <= x < row ==> matrix[x, 0] == Cost(p, x, 0)
    {
      var count := FillRow(matrix, s1, s2, i, p);
      computeTimes := computeTimes + count;
      assert computeTimes == i * (column - 1) by {
        assert (i - 1) * (column - 1) + (column - 1) == i * (column - 1);
      }
    }
    assert RowMatches(matrix, p, row - 1, column);
    var distance := matrix[row - 1, column - 1];
    UnitBounds(s1, s2, |s1|, |s2|);
    if s1 == s2 {
      UnitSame(s1, |s1|);
    }
    return Ok(LevenshteinDistanceResult(s1, s2, computeTimes, distance));
  }

  /** The two border loops of `Compute`: row 0 and column 0 count additions and removals. */
  method InitBorders(matrix: array2<int>, s1: string, s2: string, ghost p: Problem<char>)
    requires p == UnitProblem(s1, s2)
    requires matrix.Length0 == |s1| + 1 && matrix.Length1 == |s2| + 1
    modifies matrix
    ensures RowMatches(matrix, p, 0, matrix.Length1)
    ensures forall x :: 0 <= x < matrix.Length0 ==> matrix[x, 0] == Cost(p, x, 0)
  {
    UnitColumn(s1, s2, |s1|);
    UnitRow(s1, s2, |s2|);
    for i := 0 to matrix.Length1
      invariant RowMatches(matrix, p, 0, i)
    {
      matrix[0, i] := i;
    }
    for i := 0 to matrix.Length0
      invariant RowMatches(matrix, p, 0, matrix.Length1)
      invariant forall k :: 0 <= k < i ==> matrix[k, 0] == Cost(p, k, 0)
    {
      matrix[i, 0] := i;
    }
  }

  /** One pass of the inner loop of `Compute`: fills row `i` from row `i - 1` and counts the
    * cells it computed. */
  method FillRow(matrix: array2<int>, s1: string, s2: string, i: nat, ghost p: Problem<char>) returns (count: int)
    requires p == UnitProblem(s1, s2)
    requires matrix.Length0 == |s1| + 1 && matrix.Length1 == |s2| + 1
    requires 0 < i <= |s1|
    requires forall x :: 0 <= x < i ==> RowMatches(matrix, p, x, matrix.Length1)
    requires forall x :: i <= x < matrix.Length0 ==> matrix[x, 0] == Cost(p, x, 0)
    modifies matrix
    ensures forall x :: 0 <= x <= i ==> RowMatches(matrix, p, x, matrix.Length1)
    ensures forall x :: i < x < matrix.Length0 ==> matrix[x, 0] == Cost(p, x, 0)
    ensures count == |s2|
  {
    count := 0;
    for j := 1 to matrix.Length1
      invariant count == j - 1
      invariant RowMatches(matrix, p, i, j)
      invariant forall x, y :: 0 <= x < matrix.Length0 && x != i && 0 <= y < matrix.Length1 ==>
        matrix[x, y] == old(matrix[x, y])
    {
      assert old(RowMatches(matrix, p, i - 1, matrix.Length1));
      assert matrix[i - 1, j] == old(matrix[i - 1, j]) && matrix[i - 1, j - 1] == old(matrix[i - 1, j - 1]);
      FillCell(matrix, s1, s2, i, j, p);
      count := count + 1;
    }
    forall x | 0 <= x < i
      ensures RowMatches(matrix, p, x, matrix.Length1)
    {
      assert old(RowMatches(matrix, p, x, matrix.Length1));
      forall y | 0 <= y < matrix.Length1
        ensures matrix[x, y] == Cost(p, x, y)
      {
        assert matrix[x, y] == old(matrix[x, y]);
      }
    }
  }

  /** One pass of the innermost loop body: cell (i, j) from its upper, left and diagonal
    * neighbours, by the textbook recurrence. */
  method FillCell(matrix: array2<int>, s1: string, s2: string, i: nat, j: nat, ghost p: Problem<char>)
    requires p == UnitProblem(s1, s2)
    requires matrix.Length0 == |s1| + 1 && matrix.Length1 == |s2| + 1
    requires 0 < i <= |s1| && 0 < j <= |s2|
    requires matrix[i - 1, j] == Cost(p, i - 1, j) && matrix[i - 1, j - 1] == Cost(p, i - 1, j - 1)
    requires matrix[i, j - 1] == Cost(p, i, j - 1)
    modifies matrix
    ensures matrix[i, j] == Cost(p, i, j)
    ensures forall x, y :: 0 <= x < matrix.Length0 && 0 <= y < matrix.Length1 && (x != i || y != j) ==>
      matrix[x, y] == old(matrix[x, y])
  {
    var intCost := if s1[i - 1] == s2[j - 1] then 0 else 1;
    var up, left, diagonal := matrix[i - 1, j], matrix[i, j - 1], matrix[i - 1, j - 1];
    TextbookCell(s1, s2, i, j);
    var cell := Minimum(up + 1, left + 1, diagonal + intCost);
    matrix[i, j] := cell;
  }

  /** Column 0 and row 0 of the unit table count removals and additions. */
  lemma {:induction false} UnitColumn(s1: string, s2: string, n: nat)
    requires n <= |s1|
    ensures forall x :: 0 <= x <= n ==> Cost(UnitProblem(s1, s2), x, 0) == x
  {
    if n > 0 {
      UnitColumn(s1, s2, n - 1);
    }
  }

  lemma {:induction false} UnitRow(s1: string, s2: string, n: nat)
    requires n <= |s2|
    ensures forall y :: 0 <= y <= n ==> Cost(UnitProblem(s1, s2), 0, y) == y
  {
    if n > 0 {
      UnitRow(s1, s2, n - 1);
    }
  }
}
