/** `StringDistance.DiffText` as a function of its inputs: split both texts into lines, diff
  * the line arrays, cut the diff into runs of equal and of changed lines, pass equal lines
  * through, and re-pair each changed run with a weighted edit script whose substitutions
  * become word diffs. */
module TextDiffs {
  import opened Wrappers
  import opened Text
  import opened Choices
  import opened DiffPairs
  import opened Comparers
  import opened EditDistance
  import opened Diffs
  import opened Grouping
  import opened Words

  /** One entry of a text diff: a line-level action and the word-level diff of the line. */
  type LineDiff = DiffPair<seq<DiffPair<string>>>

  /** `text ?? string.Empty` split at every `'\n'`, keeping empty lines. */
  function Lines(text: Option<string>): (r: seq<string>)
    ensures |r| >= 1
  {
    Split(OrEmpty(text), '\n')
  }

  /** The grouping key: is this line unchanged? */
  function IsEqualPair(dp: DiffPair<string>): bool
  {
    dp.action == DiffAction.Equal
  }

  /** The weight of the re-pairing script: adding or removing a line costs its length, and
    * any other step twice the unit edit distance from the added to the removed line. */
  function LineWeight(c: Choice<string>): (w: int)
    ensures c.Add? ==> w == |c.added|
    ensures c.Remove? ==> w == |c.removed|
    ensures !c.Add? && !c.Remove? ==>
      w == 2 * Distance(DefaultProblem(c.AddedSide().value, c.RemovedSide().value, false))
  {
    if c.Add? then |c.added|
    else if c.Remove? then |c.removed|
    else 2 * Distance(DefaultProblem(c.AddedSide().value, c.RemovedSide().value, false))
  }

  /** `DiffWords`: the anchored diff of the two token sequences under plain equality. */
  function WordDiff(strOld: string, strNew: string, isWord: char -> bool): seq<DiffPair<string>>
  {
    DiffSpec(Tokens(strOld, isWord), Tokens(strNew, isWord), OrDefault(None))
  }

  /** `g.Where(a => a.Action == action).Select(a => a.Value)` */
  function Values<T>(ps: seq<DiffPair<T>>, action: DiffAction): seq<T>
  {
    if |ps| == 0 then []
    else Values(ps[..|ps| - 1], action) + (if ps[|ps| - 1].action == action then [ps[|ps| - 1].value] else [])
  }

  /** The problem a changed run is re-paired with: its removed lines against its added
    * lines, plain string equality, the line weight, no transpositions. */
  function RunProblem(items: seq<DiffPair<string>>): Problem<string>
  {
    Problem(Values(items, DiffAction.Removed), Values(items, DiffAction.Added), OrDefault(None), LineWeight, false)
  }

  /** The entry for one step of the re-pairing script: an added or removed line stays a
    * one-element list; any other step becomes an `Equal` entry holding the word diff. */
  function ChoiceLine(c: Choice<string>, isWord: char -> bool): (r: LineDiff)
    ensures c.Add? ==> r == DiffPair(DiffAction.Added, [DiffPair(DiffAction.Added, c.added)])
    ensures c.Remove? ==> r == DiffPair(DiffAction.Removed, [DiffPair(DiffAction.Removed, c.removed)])
    ensures !c.Add? && !c.Remove? ==>
      r == DiffPair(DiffAction.Equal, WordDiff(c.RemovedSide().value, c.AddedSide().value, isWord))
  {
    if c.Add? then DiffPair(DiffAction.Added, [DiffPair(DiffAction.Added, c.added)])
    else if c.Remove? then DiffPair(DiffAction.Removed, [DiffPair(DiffAction.Removed, c.removed)])
    else DiffPair(DiffAction.Equal, WordDiff(c.RemovedSide().value, c.AddedSide().value, isWord))
  }

  /** `choices.Select(...)` */
  function ChoiceLines(cs: seq<Choice<string>>, isWord: char -> bool): seq<LineDiff>
  {
    if |cs| == 0 then [] else ChoiceLines(cs[..|cs| - 1], isWord) + [ChoiceLine(cs[|cs| - 1], isWord)]
  }

  /** `g.Select(dp => new DiffPair(DiffAction.Equal, new List { dp }))` */
  function EqualLines(items: seq<DiffPair<string>>): seq<LineDiff>
  {
    if |items| == 0 then [] else EqualLines(items[..|items| - 1]) + [DiffPair(DiffAction.Equal, [items[|items| - 1]])]
  }

  /** The entries one run of the line diff contributes. */
  function GroupLines(g: Group<bool, DiffPair<string>>, isWord: char -> bool): seq<LineDiff>
  {
    if g.key then EqualLines(g.items) else ChoiceLines(Script(RunProblem(g.items)), isWord)
  }

  /** `groups.SelectMany(...)` */
  function GroupsLines(gs: seq<Group<bool, DiffPair<string>>>, isWord: char -> bool): seq<LineDiff>
  {
    if |gs| == 0 then [] else GroupsLines(gs[..|gs| - 1], isWord) + GroupLines(gs[|gs| - 1], isWord)
  }

  /** The line diff `DiffText` cuts into runs. */
  function LineDiffOf(textOld: Option<string>, textNew: Option<string>): seq<DiffPair<string>>
  {
    DiffSpec(Lines(textOld), Lines(textNew), OrDefault(None))
  }

  /** `DiffText(textOld, textNew)` with line-ending differences kept. */
  function TextDiff(textOld: Option<string>, textNew: Option<string>, isWord: char -> bool): seq<LineDiff>
  {
    GroupsLines(GroupRuns(LineDiffOf(textOld, textNew), IsEqualPair), isWord)
  }

  /** The old text's lines as an entry shows them: none for an added line, otherwise the
    * old side of its word diff glued back together. */
  function OldLines(ls: seq<LineDiff>): seq<string>
  {
    if |ls| == 0 then []
    else OldLines(ls[..|ls| - 1]) + (if ls[|ls| - 1].action == DiffAction.Added then [] else [Concat(Olds(ls[|ls| - 1].value))])
  }

  /** The new text's lines as an entry shows them: none for a removed line, otherwise the
    * new side of its word diff glued back together. */
  function NewLines(ls: seq<LineDiff>): seq<string>
  {
    if |ls| == 0 then []
    else NewLines(ls[..|ls| - 1]) + (if ls[|ls| - 1].action == DiffAction.Removed then [] else [Concat(News(ls[|ls| - 1].value))])
  }

  lemma {:induction false} LinesAppend(x: seq<LineDiff>, y: seq<LineDiff>)
    ensures OldLines(x + y) == OldLines(x) + OldLines(y)
    ensures NewLines(x + y) == NewLines(x) + NewLines(y)
    decreases |y|
  {
    if |y| > 0 {
      var y', e := y[..|y| - 1], y[|y| - 1];
      assert (x + y)[..|x + y| - 1] == x + y' && (x + y)[|x + y| - 1] == e;
      LinesAppend(x, y');
      assert y[..|y| - 1] == y';
    } else {
      assert x + y == x;
    }
  }

  /** The lines one entry shows. */
  lemma OneLine(e: LineDiff)
    ensures OldLines([e]) == (if e.action == DiffAction.Added then [] else [Concat(Olds(e.value))])
    ensures NewLines([e]) == (if e.action == DiffAction.Removed then [] else [Concat(News(e.value))])
  {
    assert [e][..0] == [];
  }

  lemma ConcatOne(x: string)
    ensures Concat([x]) == x
  {
    assert [x][1..] == [];
  }

  /** Olds and News of a diff grown by one pair. */
  lemma SidesSnoc<T>(ps: seq<DiffPair<T>>, p: DiffPair<T>)
    ensures Olds(ps + [p]) == Olds(ps) + (if p.action == DiffAction.Added then [] else [p.value])
    ensures News(ps + [p]) == News(ps) + (if p.action == DiffAction.Removed then [] else [p.value])
  {
    SidesAppend(ps, [p]);
    assert [p][1..] == [];
  }

  /** Unchanged lines pass through: the entries of an all-equal run show its lines on both
    * sides. */
  lemma {:induction false} EqualLinesSides(items: seq<DiffPair<string>>)
    requires forall k :: 0 <= k < |items| ==> items[k].action == DiffAction.Equal
    ensures OldLines(EqualLines(items)) == Olds(items)
    ensures NewLines(EqualLines(items)) == News(items)
  {
    if |items| > 0 {
      var front, dp := items[..|items| - 1], items[|items| - 1];
      EqualLinesSides(front);
      assert items == front + [dp];
      LinesAppend(EqualLines(front), [DiffPair(DiffAction.Equal, [dp])]);
      EqualLine(dp);
      SidesSnoc(front, dp);
    }
  }

  /** The entry of one equal line shows it on both sides. */
  lemma EqualLine(dp: DiffPair<string>)
    requires dp.action == DiffAction.Equal
    ensures OldLines([DiffPair(DiffAction.Equal, [dp])]) == [dp.value]
    ensures NewLines([DiffPair(DiffAction.Equal, [dp])]) == [dp.value]
  {
    OneLine(DiffPair(DiffAction.Equal, [dp]));
    SidesSnoc([], dp);
    assert [] + [dp] == [dp];
    ConcatOne(dp.value);
  }

  /** A word diff glues back into the two lines it compares. */
  lemma WordDiffSides(strOld: string, strNew: string, isWord: char -> bool)
    ensures Concat(Olds(WordDiff(strOld, strNew, isWord))) == strOld
    ensures Concat(News(WordDiff(strOld, strNew, isWord))) == strNew
  {
    DefaultIsEquality<string>();
    DiffKeepsOld(Tokens(strOld, isWord), Tokens(strNew, isWord), OrDefault(None));
    DiffKeepsNew(Tokens(strOld, isWord), Tokens(strNew, isWord), OrDefault(None));
    TokensCover(strOld, isWord);
    TokensCover(strNew, isWord);
  }

  /** The entries of a re-paired run show the script's removed sides as old lines and its
    * added sides as new lines. */
  lemma {:induction false} ChoiceLinesSides(cs: seq<Choice<string>>, isWord: char -> bool)
    requires forall k :: 0 <= k < |cs| ==> !cs[k].Transpose?
    ensures OldLines(ChoiceLines(cs, isWord)) == RemovedValues(cs)
    ensures NewLines(ChoiceLines(cs, isWord)) == AddedValues(cs)
  {
    if |cs| > 0 {
      var front, c := cs[..|cs| - 1], cs[|cs| - 1];
      ChoiceLinesSides(front, isWord);
      var e := ChoiceLine(c, isWord);
      LinesAppend(ChoiceLines(front, isWord), [e]);
      OneLine(e);
      if c.Add? || c.Remove? {
        SidesSnoc([], e.value[0]);
        assert [] + [e.value[0]] == e.value;
        ConcatOne(e.value[0].value);
      }
      if !c.Add? && !c.Remove? {
        WordDiffSides(c.RemovedSide().value, c.AddedSide().value, isWord);
      }
      assert OldLines([e]) == (if c.Add? then [] else [c.RemovedSide().value]);
      assert NewLines([e]) == (if c.Remove? then [] else [c.AddedSide().value]);
    }
  }

  /** In a run without equal lines, the removed values are its old side and the added
    * values its new side. */
  lemma {:induction false} ChangedValues(items: seq<DiffPair<string>>)
    requires forall k :: 0 <= k < |items| ==> items[k].action != DiffAction.Equal
    ensures Values(items, DiffAction.Removed) == Olds(items)
    ensures Values(items, DiffAction.Added) == News(items)
  {
    if |items| > 0 {
      var front, dp := items[..|items| - 1], items[|items| - 1];
      ChangedValues(front);
      assert items == front + [dp];
      SidesSnoc(front, dp);
    }
  }

  /** A changed run, re-paired: its entries show its old and new lines. */
  lemma ChangedRunSides(items: seq<DiffPair<string>>, isWord: char -> bool)
    requires forall k :: 0 <= k < |items| ==> items[k].action != DiffAction.Equal
    ensures OldLines(ChoiceLines(Script(RunProblem(items)), isWord)) == Olds(items)
    ensures NewLines(ChoiceLines(Script(RunProblem(items)), isWord)) == News(items)
  {
    var p := RunProblem(items);
    DefaultIsEquality<string>();
    ScriptReplays(p);
    ChoiceLinesSides(Script(p), isWord);
    ChangedValues(items);
  }

  /** Every run keys its lines correctly. */
  ghost predicate Keyed(gs: seq<Group<bool, DiffPair<string>>>)
  {
    forall k, m :: 0 <= k < |gs| && 0 <= m < |gs[k].items| ==> IsEqualPair(gs[k].items[m]) == gs[k].key
  }

  /** The entries of all runs show the old and new sides of the line diff they cut. */
  lemma {:induction false} GroupsLinesSides(gs: seq<Group<bool, DiffPair<string>>>, isWord: char -> bool)
    requires Keyed(gs)
    ensures OldLines(GroupsLines(gs, isWord)) == Olds(Flatten(gs))
    ensures NewLines(GroupsLines(gs, isWord)) == News(Flatten(gs))
  {
    if |gs| > 0 {
      var front, g := gs[..|gs| - 1], gs[|gs| - 1];
      assert Keyed(front) by {
        forall k, m | 0 <= k < |front| && 0 <= m < |front[k].items|
          ensures IsEqualPair(front[k].items[m]) == front[k].key
        {
          assert front[k] == gs[k];
        }
      }
      GroupsLinesSides(front, isWord);
      LinesAppend(GroupsLines(front, isWord), GroupLines(g, isWord));
      SidesAppend(Flatten(front), g.items);
      if g.key {
        EqualLinesSides(g.items);
      } else {
        ChangedRunSides(g.items, isWord);
      }
    }
  }

  /** The old lines of a text diff are the old text's lines. */
  lemma DiffTextKeepsOld(textOld: Option<string>, textNew: Option<string>, isWord: char -> bool)
    ensures OldLines(TextDiff(textOld, textNew, isWord)) == Lines(textOld)
  {
    var d := LineDiffOf(textOld, textNew);
    var gs := GroupRuns(d, IsEqualPair);
    GroupRunsWellGrouped(d, IsEqualPair);
    GroupsLinesSides(gs, isWord);
    FlattenGroupRuns(d, IsEqualPair);
    DiffKeepsOld(Lines(textOld), Lines(textNew), OrDefault(None));
  }

  /** The new lines of a text diff are the new text's lines. */
  lemma DiffTextKeepsNew(textOld: Option<string>, textNew: Option<string>, isWord: char -> bool)
    ensures NewLines(TextDiff(textOld, textNew, isWord)) == Lines(textNew)
  {
    var d := LineDiffOf(textOld, textNew);
    var gs := GroupRuns(d, IsEqualPair);
    GroupRunsWellGrouped(d, IsEqualPair);
    GroupsLinesSides(gs, isWord);
    FlattenGroupRuns(d, IsEqualPair);
    DefaultIsEquality<string>();
    DiffKeepsNew(Lines(textOld), Lines(textNew), OrDefault(None));
  }

  /** Joining the old lines with `'\n'` gives the old text back, `null` read as empty; the
    * same holds on the new side. */
  lemma DiffTextRoundTrip(textOld: Option<string>, textNew: Option<string>, isWord: char -> bool)
    ensures Join("\n", OldLines(TextDiff(textOld, textNew, isWord))) == OrEmpty(textOld)
    ensures Join("\n", NewLines(TextDiff(textOld, textNew, isWord))) == OrEmpty(textNew)
  {
    DiffTextKeepsOld(textOld, textNew, isWord);
    DiffTextKeepsNew(textOld, textNew, isWord);
    JoinSplit(OrEmpty(textOld), '\n');
    JoinSplit(OrEmpty(textNew), '\n');
  }
}
