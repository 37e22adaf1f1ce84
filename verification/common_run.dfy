/** The longest common contiguous run of two sequences, as `StringDistance.LongestCommonSubstring`
  * finds it: every cell (i, j) of its table holds the length of the common run that ends at
  * `a[i]` and `b[j]`, and a row-major scan keeps the first strictly longer run it meets. */
module CommonRuns {

  /** The outcome of the scan: the best run length and where the run starts in each input. */
  datatype Found = Found(len: int, pos1: int, pos2: int)

  /** `a[p1 .. p1 + len]` and `b[p2 .. p2 + len]` lie inside the inputs and agree element by
    * element under the comparer. */
  predicate Matches<T>(a: seq<T>, b: seq<T>, eq: (T, T) -> bool, p1: int, p2: int, len: int)
  {
    0 <= p1 && 0 <= p2 && 0 <= len && p1 + len <= |a| && p2 + len <= |b|
    && forall k :: 0 <= k < len ==> Agree(a, b, eq, p1, p2, k)
  }

  /** The `k`-th pair of the runs starting at `p1` and `p2` agrees under the comparer. */
  predicate Agree<T>(a: seq<T>, b: seq<T>, eq: (T, T) -> bool, p1: int, p2: int, k: int)
    requires 0 <= p1 + k < |a| && 0 <= p2 + k < |b|
  {
    eq(a[p1 + k], b[p2 + k])
  }

  /** Table cell (i, j): the length of the common run that ends at `a[i]` and `b[j]`. */
  function Run<T>(a: seq<T>, b: seq<T>, eq: (T, T) -> bool, i: nat, j: nat): (r: nat)
    requires i < |a| && j < |b|
    ensures r <= i + 1 && r <= j + 1
    ensures r > 0 <==> eq(a[i], b[j])
    ensures Matches(a, b, eq, i + 1 - r, j + 1 - r, r)
  {
    if !eq(a[i], b[j]) then 0
    else if i == 0 || j == 0 then 1
    else 1 + Run(a, b, eq, i - 1, j - 1)
  }

  /** What the scan holds after visiting cell (i, j): a strictly longer run replaces the
    * best one so far. */
  function Step<T>(a: seq<T>, b: seq<T>, eq: (T, T) -> bool, s: Found, i: nat, j: nat): Found
    requires i < |a| && j < |b|
  {
    if eq(a[i], b[j]) && Run(a, b, eq, i, j) > s.len
    then Found(Run(a, b, eq, i, j), i - Run(a, b, eq, i, j) + 1, j - Run(a, b, eq, i, j) + 1)
    else s
  }

  /** A scan result lies inside both inputs, and an empty run sits at (0, 0). */
  predicate Placed<T>(a: seq<T>, b: seq<T>, s: Found)
  {
    && 0 <= s.pos1 && 0 <= s.pos2 && 0 <= s.len && s.pos1 + s.len <= |a| && s.pos2 + s.len <= |b|
    && (s.len == 0 ==> s.pos1 == 0 && s.pos2 == 0)
  }

  /** A scan result is sound: a run that is really there, or the empty run at (0, 0). */
  predicate Sound<T>(a: seq<T>, b: seq<T>, eq: (T, T) -> bool, s: Found)
  {
    && Matches(a, b, eq, s.pos1, s.pos2, s.len)
    && (s.len == 0 ==> s.pos1 == 0 && s.pos2 == 0)
  }

  /** The scan after rows `0 .. i - 1` and the first `j` cells of row `i`. */
  function ScanTo<T>(a: seq<T>, b: seq<T>, eq: (T, T) -> bool, i: nat, j: nat): (r: Found)
    requires i < |a| && j <= |b|
    ensures Sound(a, b, eq, r)
    decreases i, j
  {
    if j == 0 then
      if i == 0 then Found(0, 0, 0) else ScanTo(a, b, eq, i - 1, |b|)
    else Step(a, b, eq, ScanTo(a, b, eq, i, j - 1), i, j - 1)
  }

  /** The result of the whole scan; an empty input gives length 0 at positions 0, 0. */
  function LongestCommonRun<T>(a: seq<T>, b: seq<T>, eq: (T, T) -> bool): (r: Found)
    ensures Placed(a, b, r)
    ensures |a| == 0 || |b| == 0 ==> r == Found(0, 0, 0)
  {
    if |a| == 0 || |b| == 0 then Found(0, 0, 0) else ScanTo(a, b, eq, |a| - 1, |b|)
  }

  /** The result is a run that is really there. */
  lemma LongestCommonRunSound<T>(a: seq<T>, b: seq<T>, eq: (T, T) -> bool)
    ensures Sound(a, b, eq, LongestCommonRun(a, b, eq))
  {
    if |a| > 0 && |b| > 0 {
      assert LongestCommonRun(a, b, eq) == ScanTo(a, b, eq, |a| - 1, |b|);
    }
  }

  /** Cell (x, y) comes before cell (i, j) in row-major order. */
  predicate Before(x: int, y: int, i: int, j: int)
  {
    x < i || (x == i && y < j)
  }

  /** Every cell before (i, j) holds a run of at most `bound`. */
  predicate RunsBelow<T>(a: seq<T>, b: seq<T>, eq: (T, T) -> bool, i: int, j: int, bound: int)
  {
    forall x, y :: 0 <= x < |a| && 0 <= y < |b| && Before(x, y, i, j) ==> Run(a, b, eq, x, y) <= bound
  }

  /** Every cell the scan has visited holds a run no longer than the best one. */
  lemma {:induction false} ScanCovers<T>(a: seq<T>, b: seq<T>, eq: (T, T) -> bool, i: nat, j: nat)
    requires i < |a| && j <= |b|
    ensures RunsBelow(a, b, eq, i, j, ScanTo(a, b, eq, i, j).len)
    decreases i, j
  {
    if j == 0 {
      if i > 0 {
        ScanCovers(a, b, eq, i - 1, |b|);
      }
    } else {
      ScanCovers(a, b, eq, i, j - 1);
    }
  }

  /** The run `s` is the first one of its length: its last cell holds it, and every cell
    * before that last cell holds a strictly shorter run. */
  predicate FirstOfItsLength<T>(a: seq<T>, b: seq<T>, eq: (T, T) -> bool, s: Found)
    requires Sound(a, b, eq, s) && s.len > 0
  {
    && Run(a, b, eq, s.pos1 + s.len - 1, s.pos2 + s.len - 1) == s.len
    && RunsBelow(a, b, eq, s.pos1 + s.len - 1, s.pos2 + s.len - 1, s.len - 1)
  }

  /** A best run `s` found before cell (i, j) that is the first of its length. */
  predicate FirstBefore<T>(a: seq<T>, b: seq<T>, eq: (T, T) -> bool, s: Found, i: int, j: int)
    requires Sound(a, b, eq, s)
  {
    s.len > 0 ==> Before(s.pos1 + s.len - 1, s.pos2 + s.len - 1, i, j) && FirstOfItsLength(a, b, eq, s)
  }

  /** The scan's best run ends at a visited cell and is the first of its length. */
  lemma {:induction false} ScanFirst<T>(a: seq<T>, b: seq<T>, eq: (T, T) -> bool, i: nat, j: nat)
    requires i < |a| && j <= |b|
    ensures FirstBefore(a, b, eq, ScanTo(a, b, eq, i, j), i, j)
    decreases i, j
  {
    if j == 0 {
      if i > 0 {
        ScanFirst(a, b, eq, i - 1, |b|);
        RowStartFirst(a, b, eq, i);
      }
    } else {
      ScanFirst(a, b, eq, i, j - 1);
      ScanCovers(a, b, eq, i, j - 1);
      StepFirst(a, b, eq, i, j);
    }
  }

  /** What was found by the end of row `i - 1` was found before the start of row `i`. */
  lemma RowStartFirst<T>(a: seq<T>, b: seq<T>, eq: (T, T) -> bool, i: nat)
    requires 0 < i < |a|
    requires FirstBefore(a, b, eq, ScanTo(a, b, eq, i - 1, |b|), i - 1, |b|)
    ensures FirstBefore(a, b, eq, ScanTo(a, b, eq, i, 0), i, 0)
  {
    assert ScanTo(a, b, eq, i, 0) == ScanTo(a, b, eq, i - 1, |b|);
  }

  /** Visiting cell (i, j - 1) keeps the best run the first of its length. */
  lemma StepFirst<T>(a: seq<T>, b: seq<T>, eq: (T, T) -> bool, i: nat, j: nat)
    requires i < |a| && 0 < j <= |b|
    requires FirstBefore(a, b, eq, ScanTo(a, b, eq, i, j - 1), i, j - 1)
    requires RunsBelow(a, b, eq, i, j - 1, ScanTo(a, b, eq, i, j - 1).len)
    ensures FirstBefore(a, b, eq, ScanTo(a, b, eq, i, j), i, j)
  {
    var prev := ScanTo(a, b, eq, i, j - 1);
    if eq(a[i], b[j - 1]) && Run(a, b, eq, i, j - 1) > prev.len {
      var r := Run(a, b, eq, i, j - 1);
      assert ScanTo(a, b, eq, i, j) == Found(r, i - r + 1, j - 1 - r + 1);
      NewBestIsFirst(a, b, eq, i, j - 1, prev.len);
    } else {
      assert ScanTo(a, b, eq, i, j) == prev;
    }
  }

  /** A run at (i, j) that is longer than every run before (i, j) is the first of its length. */
  lemma NewBestIsFirst<T>(a: seq<T>, b: seq<T>, eq: (T, T) -> bool, i: nat, j: nat, bound: int)
    requires i < |a| && j < |b| && 0 <= bound
    requires RunsBelow(a, b, eq, i, j, bound)
    requires Run(a, b, eq, i, j) > bound
    ensures var r := Run(a, b, eq, i, j);
      FirstOfItsLength(a, b, eq, Found(r, i - r + 1, j - r + 1))
  {
    var r := Run(a, b, eq, i, j);
    RunSound(a, b, eq, i, j);
    RunsBelowWeaken(a, b, eq, i, j, bound, r - 1);
  }

  /** A non-empty run in the table is a sound scan result. */
  lemma RunSound<T>(a: seq<T>, b: seq<T>, eq: (T, T) -> bool, i: nat, j: nat)
    requires i < |a| && j < |b| && Run(a, b, eq, i, j) > 0
    ensures var r := Run(a, b, eq, i, j);
      Sound(a, b, eq, Found(r, i - r + 1, j - r + 1))
  {
  }

  /** A bound on the runs before a cell holds for any larger bound. */
  lemma RunsBelowWeaken<T>(a: seq<T>, b: seq<T>, eq: (T, T) -> bool, i: int, j: int, bound: int, larger: int)
    requires RunsBelow(a, b, eq, i, j, bound) && bound <= larger
    ensures RunsBelow(a, b, eq, i, j, larger)
  {
  }

  /** A common run of length `len` starting at (p1, p2) ends in a cell that holds at least
    * `len`. */
  lemma {:induction false} MatchEndsInRun<T>(a: seq<T>, b: seq<T>, eq: (T, T) -> bool, p1: nat, p2: nat, len: nat)
    requires len > 0 && Matches(a, b, eq, p1, p2, len)
    ensures Run(a, b, eq, p1 + len - 1, p2 + len - 1) >= len
    decreases len
  {
    assert Agree(a, b, eq, p1, p2, len - 1);
    if len > 1 {
      MatchEndsInRun(a, b, eq, p1, p2, len - 1);
    }
  }

  /** The result is a longest common run: no common run is longer. */
  lemma LongestCommonRunIsLongest<T>(a: seq<T>, b: seq<T>, eq: (T, T) -> bool, p1: nat, p2: nat, len: nat)
    requires Matches(a, b, eq, p1, p2, len)
    ensures len <= LongestCommonRun(a, b, eq).len
  {
    if len > 0 {
      MatchEndsInRun(a, b, eq, p1, p2, len);
      ScanCovers(a, b, eq, |a| - 1, |b|);
    }
  }

  /** Of all the longest runs, the result is the one that ends first in row-major order. */
  lemma LongestCommonRunIsFirst<T>(a: seq<T>, b: seq<T>, eq: (T, T) -> bool)
    ensures var s := LongestCommonRun(a, b, eq);
      s.len > 0 ==> FirstOfItsLength(a, b, eq, s)
  {
    if |a| > 0 && |b| > 0 {
      ScanFirst(a, b, eq, |a| - 1, |b|);
    }
  }

  /** Two sequences without a single pair of equal elements have no common run. */
  lemma NoCommonElement<T>(a: seq<T>, b: seq<T>, eq: (T, T) -> bool)
    requires forall x, y :: 0 <= x < |a| && 0 <= y < |b| ==> !eq(a[x], b[y])
    ensures LongestCommonRun(a, b, eq) == Found(0, 0, 0)
  {
    StartsWithEqualPair(a, b, eq);
  }

  /** A non-empty result starts with a pair of equal elements. */
  lemma StartsWithEqualPair<T>(a: seq<T>, b: seq<T>, eq: (T, T) -> bool)
    ensures var s := LongestCommonRun(a, b, eq);
      s.len > 0 ==> 0 <= s.pos1 < |a| && 0 <= s.pos2 < |b| && eq(a[s.pos1], b[s.pos2])
  {
    var s := LongestCommonRun(a, b, eq);
    LongestCommonRunSound(a, b, eq);
    if s.len > 0 {
      assert Agree(a, b, eq, s.pos1, s.pos2, 0);
    }
  }
}
