/** The output of `StringDistance.Diff` as a function of its two inputs: anchor on the longest
  * common run, diff what lies before it, emit the run as `Equal`, diff what lies after it;
  * with no common run, everything old is `Removed` and then everything new is `Added`. */
module Diffs {
  import opened DiffPairs
  import opened CommonRuns
  import opened Comparers

  /** `_AddResults`: every element of a window, in order, tagged with one action. */
  function Tag<T>(action: DiffAction, s: seq<T>): (r: seq<DiffPair<T>>)
    ensures |r| == |s|
  {
    if |s| == 0 then [] else [DiffPair(action, s[0])] + Tag(action, s[1..])
  }

  /** Element `k` of the tagged window is element `k` of the window with the action. */
  lemma {:induction false} TagAt<T>(action: DiffAction, s: seq<T>, k: int)
    requires 0 <= k < |s|
    ensures Tag(action, s)[k] == DiffPair(action, s[k])
    decreases |s|
  {
    if k > 0 {
      TagAt(action, s[1..], k - 1);
    }
  }

  /** `_DiffPrivate` */
  function DiffSpec<T>(a: seq<T>, b: seq<T>, eq: (T, T) -> bool): seq<DiffPair<T>>
    decreases |a| + |b|, 1
  {
    var f := LongestCommonRun(a, b, eq);
    if f.len == 0 then Tag(Removed, a) + Tag(Added, b)
    else Anchored(a, b, eq, f.pos1, f.pos2, f.len)
  }

  /** The second case of `_DiffPrivate`, anchored on the common run `a[p1 .. p1 + len]`
    * (matched by `b[p2 .. p2 + len]`): the diff of what precedes the run, the run as
    * `Equal`, and the diff of what follows it. */
  function Anchored<T>(a: seq<T>, b: seq<T>, eq: (T, T) -> bool, p1: int, p2: int, len: int): seq<DiffPair<T>>
    requires 0 <= p1 && 0 <= p2 && 0 < len && p1 + len <= |a| && p2 + len <= |b|
    decreases |a| + |b|, 0
  {
    TryDiffSpec(a[..p1], b[..p2], eq)
    + Tag(Equal, a[p1 .. p1 + len])
    + TryDiffSpec(a[p1 + len ..], b[p2 + len ..], eq)
  }

  /** `_TryDiff`, with its guard as written: the first test checks the old side twice, so a
    * non-empty old side goes to `_DiffPrivate` even when the new side is empty. */
  function TryDiffSpec<T>(a: seq<T>, b: seq<T>, eq: (T, T) -> bool): seq<DiffPair<T>>
    decreases |a| + |b|, 2
  {
    if |a| > 0 && |a| > 0 then DiffSpec(a, b, eq)
    else if |a| > 0 then Tag(Removed, a)
    else if |b| > 0 then Tag(Added, b)
    else []
  }

  /** The guard as evidently meant, with the new side in the second test. */
  function IntendedTryDiff<T>(a: seq<T>, b: seq<T>, eq: (T, T) -> bool): seq<DiffPair<T>>
  {
    if |a| > 0 && |b| > 0 then DiffSpec(a, b, eq)
    else if |a| > 0 then Tag(Removed, a)
    else if |b| > 0 then Tag(Added, b)
    else []
  }

  /** The doubled test changes nothing: an empty new side has no common run, so
    * `_DiffPrivate` removes the whole old side, as the intended branch does. */
  lemma TryDiffGuard<T>(a: seq<T>, b: seq<T>, eq: (T, T) -> bool)
    ensures TryDiffSpec(a, b, eq) == IntendedTryDiff(a, b, eq)
  {
    if |a| > 0 && |b| == 0 {
      assert Tag(Added, b) == [];
      assert DiffSpec(a, b, eq) == Tag(Removed, a) + [];
    }
  }

  /** Without a common run, the diff removes the whole old input, then adds the whole new one. */
  lemma DiffUnanchored<T>(a: seq<T>, b: seq<T>, eq: (T, T) -> bool)
    requires LongestCommonRun(a, b, eq).len == 0
    ensures DiffSpec(a, b, eq) == Tag(Removed, a) + Tag(Added, b)
  {
  }

  /** With a common run, the diff is anchored on the first longest one. */
  lemma DiffAnchored<T>(a: seq<T>, b: seq<T>, eq: (T, T) -> bool)
    requires LongestCommonRun(a, b, eq).len > 0
    ensures var f := LongestCommonRun(a, b, eq);
      DiffSpec(a, b, eq) == Anchored(a, b, eq, f.pos1, f.pos2, f.len)
  {
  }

  /** The three parts of an anchored diff. */
  lemma AnchoredParts<T>(a: seq<T>, b: seq<T>, eq: (T, T) -> bool, p1: int, p2: int, len: int)
    requires 0 <= p1 && 0 <= p2 && 0 < len && p1 + len <= |a| && p2 + len <= |b|
    ensures Anchored(a, b, eq, p1, p2, len)
      == TryDiffSpec(a[..p1], b[..p2], eq) + Tag(Equal, a[p1 .. p1 + len]) + TryDiffSpec(a[p1 + len ..], b[p2 + len ..], eq)
  {
  }

  /** The two shapes of a diff: with no common run, the whole old input removed and then the
    * whole new one added; otherwise, anchored on the run `a[p1 .. p1 + len]`, which matches
    * `b[p2 .. p2 + len]`, the diff of what precedes it, the run as `Equal`, and the diff of
    * what follows it. */
  lemma DiffShape<T>(a: seq<T>, b: seq<T>, eq: (T, T) -> bool) returns (p1: int, p2: int, len: int)
    ensures Found(len, p1, p2) == LongestCommonRun(a, b, eq)
    ensures Matches(a, b, eq, p1, p2, len)
    ensures len == 0 ==> DiffSpec(a, b, eq) == Tag(Removed, a) + Tag(Added, b)
    ensures len > 0 ==> DiffSpec(a, b, eq) == Anchored(a, b, eq, p1, p2, len)
  {
    var f := LongestCommonRun(a, b, eq);
    LongestCommonRunSound(a, b, eq);
    p1, p2, len := f.pos1, f.pos2, f.len;
    if len == 0 {
      DiffUnanchored(a, b, eq);
    } else {
      DiffAnchored(a, b, eq);
    }
  }

  /** The values on the old side of a diff (`Equal` and `Removed`), in order. */
  function Olds<T>(ps: seq<DiffPair<T>>): seq<T>
  {
    if |ps| == 0 then [] else (if ps[0].action == Added then [] else [ps[0].value]) + Olds(ps[1..])
  }

  /** The values on the new side of a diff (`Equal` and `Added`), in order. */
  function News<T>(ps: seq<DiffPair<T>>): seq<T>
  {
    if |ps| == 0 then [] else (if ps[0].action == Removed then [] else [ps[0].value]) + News(ps[1..])
  }

  lemma SidesAppend<T>(x: seq<DiffPair<T>>, y: seq<DiffPair<T>>)
    ensures Olds(x + y) == Olds(x) + Olds(y)
    ensures News(x + y) == News(x) + News(y)
  {
    OldsAppend(x, y);
    NewsAppend(x, y);
  }

  lemma {:induction false} OldsAppend<T>(x: seq<DiffPair<T>>, y: seq<DiffPair<T>>)
    ensures Olds(x + y) == Olds(x) + Olds(y)
  {
    if |x| == 0 {
      assert x + y == y;
    } else {
      var h := if x[0].action == Added then [] else [x[0].value];
      assert (x + y)[0] == x[0];
      assert (x + y)[1..] == x[1..] + y;
      OldsAppend(x[1..], y);
      assert Olds(x + y) == h + Olds(x[1..] + y);
      assert Olds(x) == h + Olds(x[1..]);
    }
  }

  lemma {:induction false} NewsAppend<T>(x: seq<DiffPair<T>>, y: seq<DiffPair<T>>)
    ensures News(x + y) == News(x) + News(y)
  {
    if |x| == 0 {
      assert x + y == y;
    } else {
      var h := if x[0].action == Removed then [] else [x[0].value];
      assert (x + y)[0] == x[0];
      assert (x + y)[1..] == x[1..] + y;
      NewsAppend(x[1..], y);
      assert News(x + y) == h + News(x[1..] + y);
      assert News(x) == h + News(x[1..]);
    }
  }

  lemma {:induction false} SidesOfTag<T>(action: DiffAction, s: seq<T>)
    ensures Olds(Tag(action, s)) == if action == Added then [] else s
    ensures News(Tag(action, s)) == if action == Removed then [] else s
  {
    if |s| > 0 {
      SidesOfTag(action, s[1..]);
      assert Tag(action, s)[1..] == Tag(action, s[1..]);
      assert s == [s[0]] + s[1..];
    }
  }

  /** Replaying the old side of a diff gives the old input back. */
  lemma {:induction false} DiffKeepsOld<T>(a: seq<T>, b: seq<T>, eq: (T, T) -> bool)
    ensures Olds(DiffSpec(a, b, eq)) == a
    decreases |a| + |b|, 1
  {
    var p1, p2, len := DiffShape(a, b, eq);
    if len == 0 {
      SidesOfTag(Removed, a);
      SidesOfTag(Added, b);
      OldsAppend(Tag(Removed, a), Tag(Added, b));
    } else {
      AnchoredParts(a, b, eq, p1, p2, len);
      AnchoredKeepsOld(a, b, eq, p1, p2, len);
    }
  }

  /** The old sides of the three parts of a diff anchored on a common run are the three
    * pieces of the old input. */
  lemma {:induction false} AnchoredKeepsOld<T>(a: seq<T>, b: seq<T>, eq: (T, T) -> bool, p1: int, p2: int, len: int)
    requires 0 <= p1 && 0 <= p2 && 0 < len && p1 + len <= |a| && p2 + len <= |b|
    ensures Olds(TryDiffSpec(a[..p1], b[..p2], eq) + Tag(Equal, a[p1 .. p1 + len]) + TryDiffSpec(a[p1 + len ..], b[p2 + len ..], eq)) == a
    decreases |a| + |b|, 0
  {
    RunKeepsOld(a, p1, len);
    TryDiffKeepsOld(a[..p1], b[..p2], eq);
    TryDiffKeepsOld(a[p1 + len ..], b[p2 + len ..], eq);
    OldsOfThree(TryDiffSpec(a[..p1], b[..p2], eq), Tag(Equal, a[p1 .. p1 + len]), TryDiffSpec(a[p1 + len ..], b[p2 + len ..], eq), a, p1, p1 + len);
  }


  /** The old side of the anchoring run is the run in the old input. */
  lemma RunKeepsOld<T>(a: seq<T>, p1: int, len: int)
    requires 0 <= p1 && 0 < len && p1 + len <= |a|
    ensures Olds(Tag(Equal, a[p1 .. p1 + len])) == a[p1 .. p1 + len]
  {
    SidesOfTag(Equal, a[p1 .. p1 + len]);
  }

  lemma {:induction false} TryDiffKeepsOld<T>(a: seq<T>, b: seq<T>, eq: (T, T) -> bool)
    ensures Olds(TryDiffSpec(a, b, eq)) == a
    decreases |a| + |b|, 2
  {
    if |a| > 0 {
      DiffKeepsOld(a, b, eq);
    } else {
      SidesOfTag(Added, b);
    }
  }

  /** With plain equality as the comparer, replaying the new side of a diff gives the new
    * input back. */
  lemma {:induction false} DiffKeepsNew<T(!new)>(a: seq<T>, b: seq<T>, eq: (T, T) -> bool)
    requires IsEquality(eq)
    ensures News(DiffSpec(a, b, eq)) == b
    decreases |a| + |b|, 1
  {
    var p1, p2, len := DiffShape(a, b, eq);
    if len == 0 {
      SidesOfTag(Removed, a);
      SidesOfTag(Added, b);
      NewsAppend(Tag(Removed, a), Tag(Added, b));
    } else {
      AnchoredParts(a, b, eq, p1, p2, len);
      AnchoredKeepsNew(a, b, eq, p1, p2, len);
    }
  }

  /** Under plain equality the new sides of the three parts of a diff anchored on a common
    * run are the three pieces of the new input: the run is the same in both. */
  lemma {:induction false} AnchoredKeepsNew<T(!new)>(a: seq<T>, b: seq<T>, eq: (T, T) -> bool, p1: int, p2: int, len: int)
    requires IsEquality(eq)
    requires Matches(a, b, eq, p1, p2, len) && len > 0
    ensures News(TryDiffSpec(a[..p1], b[..p2], eq) + Tag(Equal, a[p1 .. p1 + len]) + TryDiffSpec(a[p1 + len ..], b[p2 + len ..], eq)) == b
    decreases |a| + |b|, 0
  {
    RunKeepsNew(a, b, eq, p1, p2, len);
    TryDiffKeepsNew(a[..p1], b[..p2], eq);
    TryDiffKeepsNew(a[p1 + len ..], b[p2 + len ..], eq);
    NewsOfThree(TryDiffSpec(a[..p1], b[..p2], eq), Tag(Equal, a[p1 .. p1 + len]), TryDiffSpec(a[p1 + len ..], b[p2 + len ..], eq), b, p2, p2 + len);
  }


  /** Under plain equality the new side of the anchoring run is the run in the new input. */
  lemma RunKeepsNew<T(!new)>(a: seq<T>, b: seq<T>, eq: (T, T) -> bool, p1: int, p2: int, len: int)
    requires IsEquality(eq) && Matches(a, b, eq, p1, p2, len)
    ensures News(Tag(Equal, a[p1 .. p1 + len])) == b[p2 .. p2 + len]
  {
    SidesOfTag(Equal, a[p1 .. p1 + len]);
    RunIsEqual(a, b, eq, p1, p2, len);
  }

  lemma {:induction false} TryDiffKeepsNew<T(!new)>(a: seq<T>, b: seq<T>, eq: (T, T) -> bool)
    requires IsEquality(eq)
    ensures News(TryDiffSpec(a, b, eq)) == b
    decreases |a| + |b|, 2
  {
    if |a| > 0 {
      DiffKeepsNew(a, b, eq);
    } else {
      SidesOfTag(Added, b);
    }
  }

  /** Three diffs whose old sides are consecutive pieces of `s` have `s` as their old side. */
  lemma OldsOfThree<T>(x: seq<DiffPair<T>>, y: seq<DiffPair<T>>, z: seq<DiffPair<T>>, s: seq<T>, i: int, j: int)
    requires 0 <= i <= j <= |s|
    requires Olds(x) == s[..i] && Olds(y) == s[i..j] && Olds(z) == s[j..]
    ensures Olds(x + y + z) == s
  {
    OldsAppend(x, y);
    OldsAppend(x + y, z);
    Cut3(s, i, j);
  }

  /** Three diffs whose new sides are consecutive pieces of `s` have `s` as their new side. */
  lemma NewsOfThree<T>(x: seq<DiffPair<T>>, y: seq<DiffPair<T>>, z: seq<DiffPair<T>>, s: seq<T>, i: int, j: int)
    requires 0 <= i <= j <= |s|
    requires News(x) == s[..i] && News(y) == s[i..j] && News(z) == s[j..]
    ensures News(x + y + z) == s
  {
    NewsAppend(x, y);
    NewsAppend(x + y, z);
    Cut3(s, i, j);
  }

  /** Cutting a sequence at two points and gluing the three pieces gives it back. */
  lemma Cut3<T>(s: seq<T>, i: int, j: int)
    requires 0 <= i <= j <= |s|
    ensures s == s[..i] + s[i..j] + s[j..]
  {
  }

  /** Under plain equality a common run is the same slice of both inputs. */
  lemma RunIsEqual<T(!new)>(a: seq<T>, b: seq<T>, eq: (T, T) -> bool, p1: int, p2: int, len: int)
    requires IsEquality(eq) && Matches(a, b, eq, p1, p2, len)
    ensures a[p1 .. p1 + len] == b[p2 .. p2 + len]
  {
    forall k | p1 <= k < p1 + len
      ensures a[k] == b[k - p1 + p2]
    {
      assert Agree(a, b, eq, p1, p2, k - p1);
    }
  }


  /** With no pair of equal elements, the whole old input is removed and then the whole new
    * input is added. */
  lemma DiffWithoutCommonElement<T>(a: seq<T>, b: seq<T>, eq: (T, T) -> bool)
    requires forall x, y :: 0 <= x < |a| && 0 <= y < |b| ==> !eq(a[x], b[y])
    ensures DiffSpec(a, b, eq) == Tag(Removed, a) + Tag(Added, b)
  {
    NoCommonElement(a, b, eq);
  }

  /** Under plain equality the longest common run of an input with itself is the whole input. */
  lemma WholeRunOfSame<T(!new)>(a: seq<T>, eq: (T, T) -> bool)
    requires IsEquality(eq) && |a| > 0
    ensures LongestCommonRun(a, a, eq) == Found(|a|, 0, 0)
  {
    LongestCommonRunSound(a, a, eq);
    assert Matches(a, a, eq, 0, 0, |a|);
    LongestCommonRunIsLongest(a, a, eq, 0, 0, |a|);
  }

  /** Anchored on the whole input, the diff has nothing before or after the run. */
  lemma AnchoredOnWhole<T>(a: seq<T>, eq: (T, T) -> bool)
    requires |a| > 0
    ensures Anchored(a, a, eq, 0, 0, |a|) == Tag(Equal, a)
  {
    var empty: seq<T> := [];
    assert a[..0] == empty && a[|a|..] == empty && a[0 .. |a|] == a;
    assert TryDiffSpec(empty, empty, eq) == [];
  }

  /** Diffing an input against itself under plain equality marks every element `Equal`. */
  lemma DiffOfSame<T(!new)>(a: seq<T>, eq: (T, T) -> bool)
    requires IsEquality(eq)
    ensures DiffSpec(a, a, eq) == Tag(Equal, a)
  {
    if |a| > 0 {
      WholeRunOfSame(a, eq);
      DiffAnchored(a, a, eq);
      AnchoredOnWhole(a, eq);
    } else {
      DiffUnanchored(a, a, eq);
    }
  }
}
