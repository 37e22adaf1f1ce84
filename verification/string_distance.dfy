/** `StringDistance`: one object owning a reusable integer table `_num`, on which it computes
  * weighted edit distances, edit scripts, longest common substrings and subsequences, and
  * the anchored diff of two arrays. Every method is proved to compute the matching
  * specification function of `EditDistance`, `CommonRuns`, `Subsequences` or `Diffs`. */
module StringDistances {
  import opened Wrappers
  import opened Choices
  import opened Comparers
  import opened EditDistance
  import opened Slices
  import opened CommonRuns
  import opened Subsequences
  import opened DiffPairs
  import opened Diffs
  import opened Words
  import opened Text
  import opened TextDiffs
  import opened Grouping

  /** `List<T>.Reverse()` */
  function Reversed<T>(s: seq<T>): (r: seq<T>)
    ensures |r| == |s|
    ensures forall k :: 0 <= k < |s| ==> r[k] == s[|s| - 1 - k]
  {
    if |s| == 0 then [] else [s[|s| - 1]] + Reversed(s[..|s| - 1])
  }

  lemma ReversedSnoc<T>(s: seq<T>, c: T)
    ensures Reversed(s + [c]) == [c] + Reversed(s)
  {
    assert (s + [c])[..|s|] == s;
  }

  /** Moving the last step of the backtrace onto the reversed result keeps their
    * concatenation. */
  lemma Shift<T>(x: seq<T>, c: T, result: seq<T>, s: seq<T>)
    requires x + [c] + Reversed(result) == s
    ensures x + Reversed(result + [c]) == s
  {
    ReversedSnoc(result, c);
    assert x + [c] + Reversed(result) == x + ([c] + Reversed(result));
  }

  /** Row `r` of `table` holds the whole of row `r` of the distance table of `p`. */
  ghost predicate RowDone<T>(table: array2<int>, p: Problem<T>, r: nat)
    reads table
    requires r < table.Length0 && |p.after| < table.Length1 && r <= |p.before|
  {
    RowMatches(table, p, r, |p.after| + 1)
  }

  /** Rows `0 ..= |before|` of `table` hold the whole distance table of `p`. */
  ghost predicate Filled<T>(table: array2<int>, p: Problem<T>)
    reads table
  {
    && |p.before| < table.Length0 && |p.after| < table.Length1
    && forall x :: 0 <= x <= |p.before| ==> RowDone(table, p, x)
  }

  /** The three table loops of `LevenshteinDistance`: column 0 adds removals, row 0 adds
    * additions, then the rows are filled top to bottom. */
  method FillCosts<T>(table: array2<int>, p: Problem<T>)
    requires |p.before| < table.Length0 && |p.after| < table.Length1
    modifies table
    ensures Filled(table, p)
  {
    var m1, m2 := |p.before| + 1, |p.after| + 1;
    table[0, 0] := 0;
    for i := 1 to m1
      invariant forall x :: 0 <= x < i ==> table[x, 0] == Cost(p, x, 0)
    {
      table[i, 0] := table[i - 1, 0] + p.weight(Remove(p.before[i - 1]));
    }
    for j := 1 to m2
      invariant RowMatches(table, p, 0, j)
      invariant forall x :: 0 <= x < m1 ==> table[x, 0] == Cost(p, x, 0)
    {
      table[0, j] := table[0, j - 1] + p.weight(Add(p.after[j - 1]));
    }
    assert RowDone(table, p, 0);
    for i := 1 to m1
      invariant forall x :: 0 <= x < i ==> RowDone(table, p, x)
      invariant forall x :: i <= x < m1 ==> table[x, 0] == Cost(p, x, 0)
    {
      FillCostRow(table, p, i);
    }
  }

  /** The inner loop of `LevenshteinDistance` for row `i`: equal elements copy the diagonal;
    * other cells take the cheapest of remove, add and substitute, and then of a
    * transposition when it is allowed and applies. */
  method FillCostRow<T>(table: array2<int>, p: Problem<T>, i: nat)
    requires 0 < i <= |p.before| && |p.before| < table.Length0 && |p.after| < table.Length1
    requires forall x :: 0 <= x < i ==> RowDone(table, p, x)
    requires forall x :: i <= x <= |p.before| ==> table[x, 0] == Cost(p, x, 0)
    modifies table
    ensures forall x :: 0 <= x <= i ==> RowDone(table, p, x)
    ensures forall x :: i < x <= |p.before| ==> table[x, 0] == Cost(p, x, 0)
  {
    var m2 := |p.after| + 1;
    for j := 1 to m2
      invariant RowMatches(table, p, i, j)
      invariant forall x, y :: 0 <= x < table.Length0 && x != i && 0 <= y < table.Length1 ==>
        table[x, y] == old(table[x, y])
    {
      assert old(RowDone(table, p, i - 1));
      assert table[i - 1, j] == old(table[i - 1, j]) && table[i - 1, j - 1] == old(table[i - 1, j - 1]);
      if i > 1 && j > 1 {
        assert old(RowDone(table, p, i - 2));
        assert table[i - 2, j - 2] == old(table[i - 2, j - 2]);
      }
      FillCostCell(table, p, i, j);
    }
    assert RowDone(table, p, i);
    forall x | 0 <= x < i
      ensures RowDone(table, p, x)
    {
      assert old(RowDone(table, p, x));
      forall y | 0 <= y < m2
        ensures table[x, y] == Cost(p, x, y)
      {
        assert table[x, y] == old(table[x, y]);
      }
    }
  }

  /** One pass of the inner loop body of `LevenshteinDistance`: cell (i, j) from the cells
    * above, to the left, on the diagonal and, for a transposition, two steps up the
    * diagonal. */
  method FillCostCell<T>(table: array2<int>, p: Problem<T>, i: nat, j: nat)
    requires 0 < i <= |p.before| && 0 < j <= |p.after| && |p.before| < table.Length0 && |p.after| < table.Length1
    requires table[i - 1, j] == Cost(p, i - 1, j) && table[i - 1, j - 1] == Cost(p, i - 1, j - 1)
    requires table[i, j - 1] == Cost(p, i, j - 1)
    requires i > 1 && j > 1 ==> table[i - 2, j - 2] == Cost(p, i - 2, j - 2)
    modifies table
    ensures table[i, j] == Cost(p, i, j)
    ensures forall x, y :: 0 <= x < table.Length0 && 0 <= y < table.Length1 && (x != i || y != j) ==>
      table[x, y] == old(table[x, y])
  {
    var x, y := p.before[i - 1], p.after[j - 1];
    if p.eq(x, y) {
      table[i, j] := table[i - 1, j - 1];
    } else {
      table[i, j] := Min(Min(table[i - 1, j] + p.weight(Remove(x)), table[i, j - 1] + p.weight(Add(y))),
                         table[i - 1, j - 1] + p.weight(Substitute(x, y)));
      if p.transposition && i > 1 && j > 1 && p.eq(x, p.after[j - 2]) && p.eq(p.before[i - 2], y) {
        table[i, j] := Min(table[i, j], table[i - 2, j - 2] + p.weight(Transpose(x, p.before[i - 2])));
      }
    }
  }

  /** The walk of `LevenshteinChoices` over a filled table: the steps it appends, from the
    * last to the first, are the edit script backwards. */
  method WalkBack<T>(table: array2<int>, p: Problem<T>) returns (result: seq<Choice<T>>)
    requires Filled(table, p)
    ensures Reversed(result) == Script(p)
  {
    var a, b := p.before, p.after;
    var i: nat, j: nat := |a|, |b|;
    result := [];
    while i > 0 && j > 0
      invariant i <= |a| && j <= |b|
      invariant Backtrace(p, i, j) + Reversed(result) == Script(p)
      decreases i + j
    {
      var c, i', j' := StepBack(table, p, i, j);
      assert Backtrace(p, i, j) == Backtrace(p, i', j') + [c];
      Shift(Backtrace(p, i', j'), c, result, Script(p));
      result := result + [c];
      i, j := i', j';
    }
    while i > 0
      invariant i <= |a| && j <= |b| && (i > 0 ==> j == 0)
      invariant Backtrace(p, i, j) + Reversed(result) == Script(p)
    {
      assert Backtrace(p, i, j) == Backtrace(p, i - 1, j) + [Remove(a[i - 1])];
      Shift(Backtrace(p, i - 1, j), Remove(a[i - 1]), result, Script(p));
      result := result + [Remove(a[i - 1])];
      i := i - 1;
    }
    while j > 0
      invariant i == 0 && j <= |b|
      invariant Backtrace(p, i, j) + Reversed(result) == Script(p)
    {
      assert Backtrace(p, i, j) == Backtrace(p, i, j - 1) + [Add(b[j - 1])];
      Shift(Backtrace(p, i, j - 1), Add(b[j - 1]), result, Script(p));
      result := result + [Add(b[j - 1])];
      j := j - 1;
    }
  }

  /** One turn of the main backtrace loop at cell (i, j): `Equal` on equal elements, and
    * otherwise the cheapest of substitute, remove and add read from the table, ties going
    * to substitute, then remove. */
  method StepBack<T>(table: array2<int>, p: Problem<T>, i: nat, j: nat) returns (c: Choice<T>, i': nat, j': nat)
    requires Filled(table, p) && 0 < i <= |p.before| && 0 < j <= |p.after|
    ensures c == LastStep(p, i, j) && i' == PrevI(p, i, j) && j' == PrevJ(p, i, j)
  {
    var a, b, w := p.before, p.after, p.weight;
    if p.eq(a[i - 1], b[j - 1]) {
      c := Choice.Equal(a[i - 1]);
      i', j' := i - 1, j - 1;
    } else {
      assert RowDone(table, p, i) && RowDone(table, p, i - 1);
      var cRemove, cAdd, cSubstitute := Remove(a[i - 1]), Add(b[j - 1]), Substitute(a[i - 1], b[j - 1]);
      var remove := table[i - 1, j] + w(cRemove);
      var add := table[i, j - 1] + w(cAdd);
      var substitute := table[i - 1, j - 1] + w(cSubstitute);
      assert remove == RemoveStep(p, i, j) && add == AddStep(p, i, j) && substitute == SubstituteStep(p, i, j);
      var least := Min(remove, Min(add, substitute));
      if substitute == least {
        c := cSubstitute;
        i', j' := i - 1, j - 1;
      } else if remove == least {
        c := cRemove;
        i', j' := i - 1, j;
      } else {
        c := cAdd;
        i', j' := i, j - 1;
      }
    }
  }

  /** The first `n` cells of row `r` hold the common-run lengths of `CommonRuns.Run`. */
  ghost predicate RunRow<T>(table: array2<int>, a: seq<T>, b: seq<T>, eq: (T, T) -> bool, r: nat, n: nat)
    reads table
    requires r < |a| && n <= |b| && r < table.Length0 && n <= table.Length1
  {
    forall y :: 0 <= y < n ==> table[r, y] == Run(a, b, eq, r, y)
  }

  /** The inner loop of `LongestCommonSubstring` over row `i`: a cell is 0 for unequal
    * elements, and otherwise one more than its upper-left neighbour (1 on the borders); a
    * cell strictly longer than the best so far replaces it. */
  method ScanRow<T>(table: array2<int>, str1: Slice<T>, str2: Slice<T>, eq: (T, T) -> bool, i: nat,
                    ghost a: seq<T>, ghost b: seq<T>, len0: int, pos10: int, pos20: int)
    returns (maxlen: int, startPos1: int, startPos2: int)
    requires WellFormed(str1) && WellFormed(str2) && str1.buffer != null && str2.buffer != null
    requires a == Content(str1) && b == Content(str2)
    requires i < |a| && |a| <= table.Length0 && |b| <= table.Length1
    requires i > 0 ==> RunRow(table, a, b, eq, i - 1, |b|)
    requires Found(len0, pos10, pos20) == ScanTo(a, b, eq, i, 0)
    modifies table
    ensures RunRow(table, a, b, eq, i, |b|)
    ensures Found(maxlen, startPos1, startPos2) == ScanTo(a, b, eq, i, |b|)
  {
    maxlen, startPos1, startPos2 := len0, pos10, pos20;
    for j := 0 to str2.length
      invariant RunRow(table, a, b, eq, i, j)
      invariant Found(maxlen, startPos1, startPos2) == ScanTo(a, b, eq, i, j)
      invariant forall x, y :: 0 <= x < table.Length0 && x != i && 0 <= y < table.Length1 ==>
        table[x, y] == old(table[x, y])
    {
      var x, y := str1.buffer[str1.offset + i], str2.buffer[str2.offset + j];
      assert x == a[i] && y == b[j];
      if i > 0 && j > 0 {
        assert old(RunRow(table, a, b, eq, i - 1, |b|));
        assert table[i - 1, j - 1] == old(table[i - 1, j - 1]);
      }
      if !eq(x, y) {
        table[i, j] := 0;
      } else {
        if i == 0 || j == 0 {
          table[i, j] := 1;
        } else {
          table[i, j] := 1 + table[i - 1, j - 1];
        }
        if table[i, j] > maxlen {
          maxlen := table[i, j];
          startPos1 := i - table[i, j] + 1;
          startPos2 := j - table[i, j] + 1;
        }
      }
      assert ScanTo(a, b, eq, i, j + 1) == Step(a, b, eq, ScanTo(a, b, eq, i, j), i, j);
    }
  }

  /** The outer loop of `LongestCommonSubstring` over two non-empty windows. */
  method ScanRows<T>(table: array2<int>, str1: Slice<T>, str2: Slice<T>, eq: (T, T) -> bool)
    returns (maxlen: int, startPos1: int, startPos2: int)
    requires WellFormed(str1) && WellFormed(str2) && str1.length > 0 && str2.length > 0
    requires str1.length <= table.Length0 && str2.length <= table.Length1
    modifies table
    ensures Found(maxlen, startPos1, startPos2) == LongestCommonRun(Content(str1), Content(str2), eq)
  {
    ghost var a, b := Content(str1), Content(str2);
    maxlen, startPos1, startPos2 := 0, 0, 0;
    for i := 0 to str1.length
      invariant a == Content(str1) && b == Content(str2)
      invariant i > 0 ==> RunRow(table, a, b, eq, i - 1, |b|) && Found(maxlen, startPos1, startPos2) == ScanTo(a, b, eq, i - 1, |b|)
      invariant i == 0 ==> Found(maxlen, startPos1, startPos2) == Found(0, 0, 0)
    {
      assert Found(maxlen, startPos1, startPos2) == ScanTo(a, b, eq, i, 0);
      maxlen, startPos1, startPos2 := ScanRow(table, str1, str2, eq, i, a, b, maxlen, startPos1, startPos2);
    }
  }

  /** The first `n` cells of row `r` hold the subsequence lengths of `Subsequences.Lcs`. */
  ghost predicate LcsRow<T>(table: array2<int>, a: seq<T>, b: seq<T>, eq: (T, T) -> bool, r: nat, n: nat)
    reads table
    requires r <= |a| && n <= |b| + 1 && r < table.Length0 && n <= table.Length1
  {
    forall y :: 0 <= y < n ==> table[r, y] == Lcs(a, b, eq, r, y)
  }

  /** The inner loop of `LongestCommonSubsequence` over row `i`: equal elements extend the
    * diagonal by one; otherwise the left cell is taken when it is strictly larger than the
    * upper one, and the upper one otherwise. */
  method FillLcsRow<T>(table: array2<int>, a: seq<T>, b: seq<T>, eq: (T, T) -> bool, i: nat)
    requires 0 < i <= |a| && |a| < table.Length0 && |b| < table.Length1
    requires LcsRow(table, a, b, eq, i - 1, |b| + 1)
    requires table[i, 0] == 0
    modifies table
    ensures LcsRow(table, a, b, eq, i, |b| + 1)
    ensures forall x, y :: 0 <= x < table.Length0 && x != i && 0 <= y < table.Length1 ==>
      table[x, y] == old(table[x, y])
  {
    for j := 1 to |b| + 1
      invariant LcsRow(table, a, b, eq, i, j)
      invariant forall x, y :: 0 <= x < table.Length0 && x != i && 0 <= y < table.Length1 ==>
        table[x, y] == old(table[x, y])
    {
      assert old(LcsRow(table, a, b, eq, i - 1, |b| + 1));
      assert table[i - 1, j] == old(table[i - 1, j]) && table[i - 1, j - 1] == old(table[i - 1, j - 1]);
      if eq(a[i - 1], b[j - 1]) {
        table[i, j] := table[i - 1, j - 1] + 1;
      } else if table[i, j - 1] > table[i - 1, j] {
        table[i, j] := table[i, j - 1];
      } else {
        table[i, j] := table[i - 1, j];
      }
    }
  }

  /** The result list the differ appends to. */
  class DiffList<T> {
    var items: seq<DiffPair<T>>

    constructor()
      ensures items == []
    {
      items := [];
    }
  }

  /** `_AddResults`: appends every element of the window, in order, tagged with `action`. */
  method AddResults<T>(list: DiffList<T>, slice: Slice<T>, action: DiffAction)
    requires WellFormed(slice) && slice.buffer != null
    modifies list
    ensures list.items == old(list.items) + Tag(action, Content(slice))
  {
    EnumerateWellFormed(slice);
    list.items := list.items + Tag(action, Enumerate(slice).value);
  }

  /** For a run of positive length inside both windows, the windows `_DiffPrivate` cuts
    * out before the run exist and show what precedes it. */
  lemma HeadPieces<T>(so: Slice<T>, sn: Slice<T>, p1: int, p2: int, len: int)
    requires WellFormed(so) && WellFormed(sn)
    requires 0 <= p1 && 0 <= p2 && 0 < len && p1 + len <= so.length && p2 + len <= sn.length
    ensures SubSliceStart(so, p1).Ok? && SubSliceStart(sn, p2).Ok?
    ensures var h1, h2 := SubSliceStart(so, p1).value, SubSliceStart(sn, p2).value;
      && WellFormed(h1) && WellFormed(h2) && h1.buffer == so.buffer && h2.buffer == sn.buffer
      && h1.length + h2.length < so.length + sn.length
      && Content(h1) == Content(so)[..p1] && Content(h2) == Content(sn)[..p2]
  {
    SplitAt(so, p1);
    SplitAt(sn, p2);
  }

  /** ... the window of the run itself ... */
  lemma RunPiece<T>(so: Slice<T>, p1: int, len: int)
    requires WellFormed(so) && 0 <= p1 && 0 < len && p1 + len <= so.length
    ensures SubSlice(so, p1, len).Ok?
    ensures var m := SubSlice(so, p1, len).value;
      WellFormed(m) && m.buffer == so.buffer && Content(m) == Content(so)[p1 .. p1 + len]
  {
    SubSliceContent(so, p1, len);
  }

  /** ... and the windows after the run, which show what follows it. */
  lemma TailPieces<T>(so: Slice<T>, sn: Slice<T>, p1: int, p2: int, len: int)
    requires WellFormed(so) && WellFormed(sn)
    requires 0 <= p1 && 0 <= p2 && 0 < len && p1 + len <= so.length && p2 + len <= sn.length
    ensures SubSliceEnd(so, p1 + len).Ok? && SubSliceEnd(sn, p2 + len).Ok?
    ensures var t1, t2 := SubSliceEnd(so, p1 + len).value, SubSliceEnd(sn, p2 + len).value;
      && WellFormed(t1) && WellFormed(t2) && t1.buffer == so.buffer && t2.buffer == sn.buffer
      && t1.length + t2.length < so.length + sn.length
      && Content(t1) == Content(so)[p1 + len ..] && Content(t2) == Content(sn)[p2 + len ..]
  {
    SplitAt(so, p1 + len);
    SplitAt(sn, p2 + len);
  }

  /** Appending three pieces one after the other appends their concatenation. */
  lemma Regroup<T>(s: seq<T>, x: seq<T>, y: seq<T>, z: seq<T>)
    ensures s + x + y + z == s + (x + y + z)
    ensures s + x + y == s + (x + y)
  {
  }

  /** Appending the three parts of a diff anchored on the longest common run, one after the
    * other, appends the diff. */
  lemma AnchoredResult<T>(a: seq<T>, b: seq<T>, eq: (T, T) -> bool, p1: int, p2: int, len: int,
                          before: seq<DiffPair<T>>, after: seq<DiffPair<T>>)
    requires Found(len, p1, p2) == LongestCommonRun(a, b, eq) && 0 < len
    requires after == before + TryDiffSpec(a[..p1], b[..p2], eq) + Tag(DiffAction.Equal, a[p1 .. p1 + len])
      + TryDiffSpec(a[p1 + len ..], b[p2 + len ..], eq)
    ensures after == before + DiffSpec(a, b, eq)
  {
    var q1, q2, n := DiffShape(a, b, eq);
    AnchoredParts(a, b, eq, p1, p2, len);
    Regroup(before, TryDiffSpec(a[..p1], b[..p2], eq), Tag(DiffAction.Equal, a[p1 .. p1 + len]),
      TryDiffSpec(a[p1 + len ..], b[p2 + len ..], eq));
  }

  /** `string.ToCharArray()` and `ToArray()`: a new array holding the sequence. */
  method ToArray<T>(s: seq<T>) returns (arr: array<T>)
    ensures fresh(arr) && arr[..] == s
  {
    arr := new T[|s|](k requires 0 <= k < |s| => s[k]);
  }

  class StringDistance {
    /** `_num`: the table, kept between calls and replaced only when it is too small. */
    var num: array2?<int>

    constructor()
      ensures num == null
    {
      num := null;
    }

    /** `_ResizeArray`: a table that is already at least `m1` by `m2` is kept; otherwise a
      * new zeroed table of exactly `m1` by `m2` replaces it. */
    method ResizeArray(m1: nat, m2: nat)
      modifies this
      ensures num != null && m1 <= num.Length0 && m2 <= num.Length1
      ensures old(num) != null && m1 <= old(num).Length0 && m2 <= old(num).Length1 ==> num == old(num)
      ensures !(old(num) != null && m1 <= old(num).Length0 && m2 <= old(num).Length1) ==>
        fresh(num) && num.Length0 == m1 && num.Length1 == m2
    {
      if num != null && m1 <= num.Length0 && m2 <= num.Length1 {
        return;
      }
      num := new int[m1, m2];
    }

    /** `LevenshteinDistance<T>`: `null` inputs count as empty, a missing comparer is
      * equality and a missing weight charges 1 per step. The result is the distance of the
      * whole inputs, and the table is left holding every cell of the distance table. */
    method LevenshteinDistance<T(==)>(strOld: Option<seq<T>>, strNew: Option<seq<T>>,
                                      comparer: Option<(T, T) -> bool>, weight: Option<Choice<T> -> int>,
                                      allowTransposition: bool) returns (r: int)
      modifies this, num
      ensures var p := Problem(OrEmpty(strOld), OrEmpty(strNew), OrDefault(comparer), WeightOrDefault(weight), allowTransposition);
        r == Distance(p) && num != null && Filled(num, p)
      ensures num == old(num) || fresh(num)
    {
      var a, b := OrEmpty(strOld), OrEmpty(strNew);
      var p := Problem(a, b, OrDefault(comparer), WeightOrDefault(weight), allowTransposition);
      ResizeArray(|a| + 1, |b| + 1);
      FillCosts(num, p);
      assert RowDone(num, p, |a|);
      r := num[|a|, |b|];
    }

    /** `LevenshteinChoices<T>`: fills the table without transpositions, then walks back
      * from the last cell, taking `Equal` on equal elements and otherwise the cheapest of
      * substitute, remove and add (in that order on ties), removes or adds what is left of
      * the longer input, and reverses. A `null` input fails on its `Length`. */
    method LevenshteinChoices<T(==)>(strOld: Option<seq<T>>, strNew: Option<seq<T>>,
                                     comparer: Option<(T, T) -> bool>, weight: Option<Choice<T> -> int>)
      returns (r: Result<seq<Choice<T>>>)
      modifies this, num
      ensures r.Err? <==> strOld.None? || strNew.None?
      ensures r.Err? ==> r.error == NullReference
      ensures r.Ok? ==> r.value == Script(Problem(strOld.value, strNew.value, OrDefault(comparer), WeightOrDefault(weight), false))
      ensures num == old(num) || fresh(num)
    {
      var eq := OrDefault(comparer);
      var w := WeightOrDefault(weight);
      var _ := LevenshteinDistance(strOld, strNew, Some(eq), Some(w), false);
      assert num == old(num) || fresh(num);
      if strOld.None? || strNew.None? {
        return Err(NullReference);
      }
      var a, b := strOld.value, strNew.value;
      var result := WalkBack(num, Problem(a, b, eq, w, false));
      return Ok(Reversed(result));
    }

    /** `LongestCommonSubstring` over two windows: both start positions are 0 and the
      * length is 0 when either window is empty; otherwise the table is (re)sized to the two
      * lengths and scanned row by row. The result is the longest common run, the first of
      * its length in row-major order. */
    method LongestCommonSubstring<T(==)>(str1: Slice<T>, str2: Slice<T>, comparer: Option<(T, T) -> bool>)
      returns (maxlen: int, startPos1: int, startPos2: int)
      requires WellFormed(str1) && WellFormed(str2)
      modifies this, num
      ensures Found(maxlen, startPos1, startPos2) == LongestCommonRun(Content(str1), Content(str2), OrDefault(comparer))
      ensures num == old(num) || fresh(num)
    {
      startPos1, startPos2 := 0, 0;
      if str1.length == 0 || str2.length == 0 {
        return 0, startPos1, startPos2;
      }
      ResizeArray(str1.length, str2.length);
      maxlen, startPos1, startPos2 := ScanRows(num, str1, str2, OrDefault(comparer));
    }

    /** `LongestCommonSubstring<T>(T[], T[], ...)`: rejects `null`, then scans the whole arrays. */
    method LongestCommonSubstringOfArrays<T(==)>(str1: array?<T>, str2: array?<T>, comparer: Option<(T, T) -> bool>)
      returns (r: Result<Found>)
      modifies this, num
      ensures r.Err? <==> str1 == null || str2 == null
      ensures r.Err? ==> r.error == ArgumentNull
      ensures r.Ok? ==> r.value == LongestCommonRun(str1[..], str2[..], OrDefault(comparer))
      ensures num == old(num) || fresh(num)
    {
      if str1 == null || str2 == null {
        return Err(ArgumentNull);
      }
      var len, pos1, pos2 := LongestCommonSubstring(Whole(str1), Whole(str2), comparer);
      return Ok(Found(len, pos1, pos2));
    }

    /** `LongestCommonSubstring(string, string, out int, out int)`: a `null` or empty string
      * gives 0 at positions 0, 0; otherwise the strings are scanned as character arrays. */
    method LongestCommonSubstringOfStrings(str1: Option<string>, str2: Option<string>)
      returns (len: int, startPos1: int, startPos2: int)
      modifies this, num
      ensures Text.IsNullOrEmpty(str1) || Text.IsNullOrEmpty(str2) ==> len == 0 && startPos1 == 0 && startPos2 == 0
      ensures !Text.IsNullOrEmpty(str1) && !Text.IsNullOrEmpty(str2) ==>
        Found(len, startPos1, startPos2) == LongestCommonRun(str1.value, str2.value, OrDefault(None))
      ensures num == old(num) || fresh(num)
    {
      if Text.IsNullOrEmpty(str1) || Text.IsNullOrEmpty(str2) {
        return 0, 0, 0;
      }
      var a := ToArray(str1.value);
      var b := ToArray(str2.value);
      len, startPos1, startPos2 := LongestCommonSubstring(Whole(a), Whole(b), None);
    }

    /** `LongestCommonSubsequence<T>`: rejects `null`, gives 0 when either side is empty,
      * and otherwise fills the table with zero borders and reads its last cell. */
    method LongestCommonSubsequence<T(==)>(str1: Option<seq<T>>, str2: Option<seq<T>>, comparer: Option<(T, T) -> bool>)
      returns (r: Result<int>)
      modifies this, num
      ensures r.Err? <==> str1.None? || str2.None?
      ensures r.Err? ==> r.error == ArgumentNull
      ensures r.Ok? ==> r.value == Lcs(str1.value, str2.value, OrDefault(comparer), |str1.value|, |str2.value|)
      ensures num == old(num) || fresh(num)
    {
      if str1.None? || str2.None? {
        return Err(ArgumentNull);
      }
      var a, b := str1.value, str2.value;
      if |a| == 0 || |b| == 0 {
        return Ok(0);
      }
      var eq := OrDefault(comparer);
      var m1, m2 := |a| + 1, |b| + 1;
      ResizeArray(m1, m2);
      var table := num;
      for i := 0 to m1
        invariant num == table
        invariant forall x :: 0 <= x < i ==> table[x, 0] == 0
      {
        table[i, 0] := 0;
      }
      for j := 0 to m2
        invariant num == table
        invariant LcsRow(table, a, b, eq, 0, j)
        invariant forall x :: 0 <= x < m1 ==> table[x, 0] == 0
      {
        table[0, j] := 0;
      }
      for i := 1 to m1
        invariant num == table
        invariant LcsRow(table, a, b, eq, i - 1, m2)
        invariant forall x :: i <= x < m1 ==> table[x, 0] == 0
      {
        FillLcsRow(table, a, b, eq, i);
      }
      assert LcsRow(table, a, b, eq, |a|, m2);
      return Ok(table[|a|, |b|]);
    }

    /** `LongestCommonSubsequence(string, string)`: a `null` or empty string gives 0. */
    method LongestCommonSubsequenceOfStrings(str1: Option<string>, str2: Option<string>) returns (r: int)
      modifies this, num
      ensures Text.IsNullOrEmpty(str1) || Text.IsNullOrEmpty(str2) ==> r == 0
      ensures !Text.IsNullOrEmpty(str1) && !Text.IsNullOrEmpty(str2) ==>
        r == Lcs(str1.value, str2.value, OrDefault(None), |str1.value|, |str2.value|)
      ensures num == old(num) || fresh(num)
    {
      if Text.IsNullOrEmpty(str1) || Text.IsNullOrEmpty(str2) {
        return 0;
      }
      var res := LongestCommonSubsequence(str1, str2, None);
      r := res.value;
    }

    /** `Diff`: the anchored diff of two arrays. A `null` array has an empty window, so it
      * never reaches the table, but enumerating it fails, so the whole call fails. */
    method Diff<T(==)>(strOld: array?<T>, strNew: array?<T>, comparer: Option<(T, T) -> bool>)
      returns (r: Result<seq<DiffPair<T>>>)
      modifies this, num
      ensures r.Err? <==> strOld == null || strNew == null
      ensures r.Err? ==> r.error == ArgumentNull
      ensures r.Ok? ==> r.value == DiffSpec(strOld[..], strNew[..], OrDefault(comparer))
      ensures num == old(num) || fresh(num)
    {
      if strOld == null || strNew == null {
        return Err(ArgumentNull);
      }
      var result := new DiffList<T>();
      DiffPrivate(Whole(strOld), Whole(strNew), comparer, result);
      return Ok(result.items);
    }

    /** `_DiffPrivate`: anchors on the longest common run; without one, removes the old
      * window and adds the new one; with one, diffs what precedes it, emits it as `Equal`,
      * and diffs what follows it. */
    method DiffPrivate<T(==)>(sliceOld: Slice<T>, sliceNew: Slice<T>, comparer: Option<(T, T) -> bool>, result: DiffList<T>)
      requires WellFormed(sliceOld) && WellFormed(sliceNew) && sliceOld.buffer != null && sliceNew.buffer != null
      modifies this, num, result
      ensures result.items == old(result.items) + DiffSpec(Content(sliceOld), Content(sliceNew), OrDefault(comparer))
      ensures num == old(num) || fresh(num)
      decreases sliceOld.length + sliceNew.length, 2
    {
      ghost var a, b, eq := Content(sliceOld), Content(sliceNew), OrDefault(comparer);
      var length, posOld, posNew := LongestCommonSubstring(sliceOld, sliceNew, comparer);
      if length == 0 {
        DiffUnanchored(a, b, eq);
        ghost var x0 := result.items;
        AddResults(result, sliceOld, Removed);
        AddResults(result, sliceNew, Added);
        Regroup(x0, Tag(Removed, a), Tag(Added, b), []);
      } else {
        DiffAround(sliceOld, sliceNew, comparer, result, posOld, posNew, length);
      }
    }

    /** The second case of `_DiffPrivate`, given a common run of positive length: the diff
      * of the windows before the run, the run as `Equal`, then the diff of the windows
      * after it. */
    method DiffAround<T(==)>(sliceOld: Slice<T>, sliceNew: Slice<T>, comparer: Option<(T, T) -> bool>,
                             result: DiffList<T>, posOld: int, posNew: int, length: int)
      requires WellFormed(sliceOld) && WellFormed(sliceNew) && sliceOld.buffer != null && sliceNew.buffer != null
      requires Found(length, posOld, posNew) == LongestCommonRun(Content(sliceOld), Content(sliceNew), OrDefault(comparer))
      requires 0 < length
      modifies this, num, result
      ensures result.items == old(result.items) + DiffSpec(Content(sliceOld), Content(sliceNew), OrDefault(comparer))
      ensures num == old(num) || fresh(num)
      decreases sliceOld.length + sliceNew.length, 1
    {
      ghost var a, b, eq := Content(sliceOld), Content(sliceNew), OrDefault(comparer);
      HeadPieces(sliceOld, sliceNew, posOld, posNew, length);
      RunPiece(sliceOld, posOld, length);
      TailPieces(sliceOld, sliceNew, posOld, posNew, length);
      var oldHead, newHead := SubSliceStart(sliceOld, posOld).value, SubSliceStart(sliceNew, posNew).value;
      var run := SubSlice(sliceOld, posOld, length).value;
      var oldTail, newTail := SubSliceEnd(sliceOld, posOld + length).value, SubSliceEnd(sliceNew, posNew + length).value;
      ghost var x0 := result.items;
      DiffPieces(oldHead, newHead, run, oldTail, newTail, comparer, result, sliceOld.length + sliceNew.length);
      AnchoredResult(a, b, eq, posOld, posNew, length, x0, result.items);
    }

    /** The three appends of the second case of `_DiffPrivate`: the diff of the windows
      * before the run, the run as `Equal`, and the diff of the windows after it. */
    method DiffPieces<T(==)>(oldHead: Slice<T>, newHead: Slice<T>, run: Slice<T>, oldTail: Slice<T>, newTail: Slice<T>,
                             comparer: Option<(T, T) -> bool>, result: DiffList<T>, ghost bound: nat)
      requires WellFormed(oldHead) && WellFormed(newHead) && oldHead.buffer != null && newHead.buffer != null
      requires WellFormed(run) && run.buffer != null
      requires WellFormed(oldTail) && WellFormed(newTail) && oldTail.buffer != null && newTail.buffer != null
      requires oldHead.length + newHead.length < bound && oldTail.length + newTail.length < bound
      modifies this, num, result
      ensures result.items == old(result.items) + TryDiffSpec(Content(oldHead), Content(newHead), OrDefault(comparer))
        + Tag(DiffAction.Equal, Content(run)) + TryDiffSpec(Content(oldTail), Content(newTail), OrDefault(comparer))
      ensures num == old(num) || fresh(num)
      decreases bound, 0
    {
      TryDiff(oldHead, newHead, comparer, result);
      AddResults(result, run, DiffAction.Equal);
      TryDiff(oldTail, newTail, comparer, result);
    }

    /** `_TryDiff`, with its guard as written: the old length is tested twice, so a
      * non-empty old window with an empty new one still goes through `_DiffPrivate`. */
    method TryDiff<T(==)>(sliceOld: Slice<T>, sliceNew: Slice<T>, comparer: Option<(T, T) -> bool>, result: DiffList<T>)
      requires WellFormed(sliceOld) && WellFormed(sliceNew) && sliceOld.buffer != null && sliceNew.buffer != null
      modifies this, num, result
      ensures result.items == old(result.items) + TryDiffSpec(Content(sliceOld), Content(sliceNew), OrDefault(comparer))
      ensures num == old(num) || fresh(num)
      decreases sliceOld.length + sliceNew.length, 3
    {
      if sliceOld.length > 0 && sliceOld.length > 0 {
        DiffPrivate(sliceOld, sliceNew, comparer, result);
      } else if sliceOld.length > 0 {
        // `_AddResults(result, sliceOld, Removed)`: never reached, the first test already
        // took every non-empty old window.
        assert false;
      } else if sliceNew.length > 0 {
        AddResults(result, sliceNew, Added);
      }
    }

    /** `DiffWords`: splits both strings into word runs, white-space runs and single other
      * characters, and diffs the two token arrays with plain string equality. */
    method DiffWords(strOld: Option<string>, strNew: Option<string>, isWord: char -> bool)
      returns (r: Result<seq<DiffPair<string>>>)
      modifies this, num
      ensures r.Err? <==> strOld.None? || strNew.None?
      ensures r.Err? ==> r.error == ArgumentNull
      ensures r.Ok? ==> r.value == WordDiff(strOld.value, strNew.value, isWord)
      ensures num == old(num) || fresh(num)
    {
      if strOld.None? || strNew.None? {
        return Err(ArgumentNull);
      }
      var wordsOld := ToArray(Tokens(strOld.value, isWord));
      var wordsNew := ToArray(Tokens(strNew.value, isWord));
      r := Diff(wordsOld, wordsNew, None);
    }

    /** The `choices.Select(...)` of `DiffText`, run on the instance that computes the word
      * diffs: an added or removed line becomes a one-element entry, any other step the word
      * diff of its removed and added sides. */
    method ChoicesToLines(cs: seq<Choice<string>>, isWord: char -> bool) returns (lines: seq<LineDiff>)
      modifies this, num
      ensures lines == ChoiceLines(cs, isWord)
      ensures num == old(num) || fresh(num)
    {
      lines := [];
      for m := 0 to |cs|
        invariant num == old(num) || fresh(num)
        invariant lines == ChoiceLines(cs[..m], isWord)
      {
        var c := cs[m];
        assert cs[..m + 1][..m] == cs[..m];
        var line;
        if c.Add? {
          line := DiffPair(DiffAction.Added, [DiffPair(DiffAction.Added, c.added)]);
        } else if c.Remove? {
          line := DiffPair(DiffAction.Removed, [DiffPair(DiffAction.Removed, c.removed)]);
        } else {
          var words := DiffWords(Some(c.RemovedSide().value), Some(c.AddedSide().value), isWord);
          line := DiffPair(DiffAction.Equal, words.value);
        }
        lines := lines + [line];
      }
      assert cs[..|cs|] == cs;
    }

    /** The `SelectMany` body of `DiffText` for one run: equal lines pass through one by
      * one; a changed run is re-paired by the weighted edit script of its removed and added
      * lines, computed on this instance, and the script becomes entries on `sd`. */
    method GroupToLines(g: Group<bool, DiffPair<string>>, sd: StringDistance, isWord: char -> bool)
      returns (lines: seq<LineDiff>)
      requires sd != this
      modifies this, num, sd, sd.num
      ensures lines == GroupLines(g, isWord)
      ensures num == old(num) || fresh(num)
      ensures sd.num == old(sd.num) || fresh(sd.num)
    {
      if g.key {
        lines := EqualLines(g.items);
      } else {
        var choices := LevenshteinChoices(Some(Values(g.items, DiffAction.Removed)),
                                          Some(Values(g.items, DiffAction.Added)), None, Some(LineWeight));
        lines := sd.ChoicesToLines(choices.value, isWord);
      }
    }

    /** `DiffText` with line-ending differences kept: `null` texts count as empty, both are
      * split at `'\n'`, the line arrays are diffed, the diff is cut into runs of equal and
      * of changed lines, equal lines pass through one by one, and each changed run is
      * re-paired by an edit script over its removed and added lines, weighted by
      * `LineWeight`, whose substitutions become word diffs computed on a second instance. */
    method DiffText(textOld: Option<string>, textNew: Option<string>, isWord: char -> bool)
      returns (r: seq<LineDiff>)
      modifies this, num
      ensures r == TextDiff(textOld, textNew, isWord)
      ensures num == old(num) || fresh(num)
    {
      var linesOld := ToArray(Lines(textOld));
      var linesNew := ToArray(Lines(textNew));
      var diff := Diff(linesOld, linesNew, None);
      var groups := GroupWhenChange(diff.value, IsEqualPair);
      r := GroupsToLines(groups, isWord);
    }

    /** The second half of `DiffText`: a fresh instance `sd` for the word diffs, then the
      * entries of every run, in order. */
    method GroupsToLines(groups: seq<Group<bool, DiffPair<string>>>, isWord: char -> bool)
      returns (r: seq<LineDiff>)
      modifies this, num
      ensures r == GroupsLines(groups, isWord)
      ensures num == old(num) || fresh(num)
    {
      var sd := new StringDistance();
      r := [];
      for gi := 0 to |groups|
        invariant fresh(sd) && (sd.num == null || fresh(sd.num))
        invariant num == old(num) || fresh(num)
        invariant r == GroupsLines(groups[..gi], isWord)
      {
        assert groups[..gi + 1][..gi] == groups[..gi];
        var lines := GroupToLines(groups[gi], sd, isWord);
        r := r + lines;
      }
      assert groups[..|groups|] == groups;
    }
  }
}
