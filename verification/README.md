# Yisoft.Framework core, modelled in Dafny

This project models the algorithmic core of Yisoft.Framework, a general-purpose .NET
utility library, and proves what that code promises.

**The diff and edit-distance engine.** `StringDistance` keeps one reusable integer
table. It uses that table for the following:

- a weighted Levenshtein distance with an optional transposition step;
- the edit script read back from the table as `Choice` steps;
- longest common substring and subsequence;
- an anchored recursive `Diff` that emits `DiffPair`s;
- word-level and line-level text diffs built on `Diff`.

Around it sit `Slice` windows, run grouping (`GroupWhenChange`) and the independent
unit-cost `LevenshteinDistance.Compute`. Every method of the `StringDistance` class is
proved to compute a specification function, in modules `EditDistance`, `CommonRuns`,
`Subsequences`, `Diffs` and `TextDiffs`. Those functions carry the source's promises:

- the script replays both inputs;
- the script's cost is the distance;
- the common run is the first longest one;
- the diff gives back both inputs;
- the text diff gives back both texts.

**Bijective map and tokens.**

- `BidirectionalDictionary` keeps a forward and a backward table that stay inverse
  under every update. The `Inverse` view shares both tables.
- `BackpackEncoder` substitutes characters through one shared table. Decoding undoes
  encoding.
- `TokenAlgorithm` writes a salt, data, a timestamp and their positions over fixed
  places of a hexadecimal digest. `GetSalt` reads them back.

**XXTEA**, as `XXTEAManaged` implements it. Bytes are packed little-endian into 32-bit
words, optionally with a trailing length word. The words are mixed in place for
6 + 52/(n+1) rounds, and decryption undoes it. The byte-level round trip is proved.

**Helpers.**

- `MathUtils`: base conversion, decimal length, hex digit, nullable min/max.
- `StringUtils`: masking, full/half width, `\uXXXX`, booleans, the character-category
  tokenizer and the case joiners.
- `StringExtensions`: URL and slash helpers, digit predicates, scope lists.
- `IOUtils`: path separators.
- `ValidationUtils` and `HostingEnvironments`.
- `DateTimeExtensions`: zodiac, star sign, minute truncations.
- `TimeSpanExtensions`: trims.
- `GroupQueue`, `StringBuilderExtensions.AppendJoin`, `Hasher`,
  `ObjectCompareExtensions`, and the query-string reader and writer.

**How the model is written.** There is one Dafny module per source file, plus `Text`
(the .NET string primitives over `seq<char>`), `Formats` (.NET integer formatting and
parsing), `Bits` (bitwise operators) and `Wrappers`. Code that updates state step by
step is imperative Dafny:

- classes with `modifies`/`reads` frames;
- arrays for the tables and XXTEA's words;
- loops with invariants.

Each such method is proved against a specification function, and the source's
promises are lemmas about those functions.

Other conventions:

- `None` stands for `null`, and `Err` for a thrown exception.
- Integers are unbounded. The 32-bit `int` and the 16-bit `char` of C# are written out
  where the modelled code depends on them: `Formats.Wrap32` in the hash mixing, XXTEA and
  the `Slice` guard and indexer, `MathUtils.CodeUnit` for the `(char)` cast of
  `IntToHex`, and C#'s truncating `/` and `%`. The edit-distance table is not wrapped;
  "Left out" says where that matters.
- Unicode categories, `char.ToUpper`/`ToLower`, hash functions, comparers passed in by
  the caller, the edit weights, the keyed hash and the random draws are function-typed
  parameters. The culture-sensitive string comparisons the source makes without a
  comparer (`StartsWith`/`EndsWith` of a string, the invariant-culture ignore-case keys
  of `NameValueCollection`) are modelled as ordinal and ASCII ones; "Left out" lists
  the members.

## Model

| member | source | states |
|---|---|---|
| Slices.Create | src/Yisoft.Framework/IntelligentAlgorithms/Slice.cs:18-25 | the constructor as evidently meant: it succeeds exactly when offset and length are non-negative and offset + length does not pass the array's length (0 for null), keeps array, offset and length, and otherwise fails with an argument error |
| Slices.CreateAsWritten | src/Yisoft.Framework/IntelligentAlgorithms/Slice.cs:18-25 | the constructor as written: it succeeds exactly when offset + length, wrapped to a 32-bit `int`, does not pass the array's length, keeps array, offset and length, and otherwise fails with an argument error |
| Slices.CreateAgrees | src/Yisoft.Framework/IntelligentAlgorithms/Slice.cs:18-25 | when offset and length are non-negative and their sum does not pass `int.MaxValue`, the guard as written and the intended one give the same result |
| Slices.GuardOverflow | src/Yisoft.Framework/IntelligentAlgorithms/Slice.cs:20 | over a null or empty array, the guard as written accepts offset `int.MaxValue` with length 1, a window that does not lie inside the array, which the intended constructor rejects |
| Slices.Content | src/Yisoft.Framework/IntelligentAlgorithms/Slice.cs:27-29 | a well-formed window shows exactly `Length` elements |
| Slices.Whole | src/Yisoft.Framework/IntelligentAlgorithms/Slice.cs:16 | the one-argument constructor gives a well-formed window at offset 0 that shows the whole array, or nothing over null |
| Slices.Get | src/Yisoft.Framework/IntelligentAlgorithms/Slice.cs:31-33 | the indexer reads `Array[Offset + index]`: it fails with a null reference on a null array and out of range outside the array, and on a well-formed window it returns the index-th element the window shows |
| Slices.GetAsWritten | src/Yisoft.Framework/IntelligentAlgorithms/Slice.cs:31-33 | the indexer as written: `Offset + index` wraps to a 32-bit `int`, and the read fails on a null array or a wrapped position outside the array |
| Slices.GetAgrees | src/Yisoft.Framework/IntelligentAlgorithms/Slice.cs:31-33 | on a well-formed window over an array shorter than 2^31, the wrapped indexer and the exact one agree for every `int` index |
| Slices.WrappedIndexReadsFirst | src/Yisoft.Framework/IntelligentAlgorithms/Slice.cs:20-33 | the guard as written accepts offset `int.MinValue` with length 0, and the wrapped indexer at `int.MinValue` then reads the array's first element, where the exact sum is out of range |
| Slices.Set | src/Yisoft.Framework/IntelligentAlgorithms/Slice.cs:34 | the indexer setter writes through to the shared array at `Offset + index`, changes nothing else, and fails on null or out of range |
| Slices.Enumerate | src/Yisoft.Framework/IntelligentAlgorithms/Slice.cs:45 | enumeration fails exactly when the array is null |
| Slices.EnumerateWellFormed | src/Yisoft.Framework/IntelligentAlgorithms/Slice.cs:31-45 | on a well-formed window, enumeration yields the window's `Length` elements, and they are what the indexer reads at 0..Length-1 |
| Slices.SubSliceContent | src/Yisoft.Framework/IntelligentAlgorithms/Slice.cs:37 | a sub-window that fits is well-formed and shows the corresponding part of the parent's elements |
| Slices.SplitAt | src/Yisoft.Framework/IntelligentAlgorithms/Slice.cs:39-41 | `SubSliceStart(k)` and `SubSliceEnd(k)` both succeed, show the parent's elements before and from `k`, and together lose and duplicate nothing |
| Slices.EqualsIsIdentity | src/Yisoft.Framework/IntelligentAlgorithms/Slice.cs:51-54 | slice equality holds exactly when array reference, offset and length all agree |
| Slices.NegativeOffsetDisagrees | src/Yisoft.Framework/IntelligentAlgorithms/Slice.cs:20-45 | the guard as written accepts the window (-1, 1), which the intended constructor rejects; the indexer then fails at index 0 while enumeration yields the first element |
| Choices.Sides | src/Yisoft.Framework/IntelligentAlgorithms/Choice.cs:24-41 | `HasRemoved`/`HasAdded` hold exactly when the step carries that side; `Equal(v)` carries v on both sides and `Substitute` carries both of its values |
| Choices.Render | src/Yisoft.Framework/IntelligentAlgorithms/Choice.cs:45-55 | `ToString` renders "-x", "+y", "[-x+y]" or "x" for remove, add, substitute and equal, and null exactly for a transposition |
| DiffPairs.Render | src/Yisoft.Framework/IntelligentAlgorithms/DiffPair.cs:29-34 | `ToString` prefixes "+" to an added value, "-" to a removed one and nothing to an equal one |
| Comparers.DefaultIsEquality | src/Yisoft.Framework/IntelligentAlgorithms/StringDistance.cs:44 | a missing comparer falls back to the default comparer, which agrees with equality on every pair |
| EditDistance.LastStepSides | src/Yisoft.Framework/IntelligentAlgorithms/StringDistance.cs:110-150 | each backtrace step consumes the last old element unless it adds and the last new element unless it removes; an `Equal` step only at a pair the comparer matches, a substitute or remove only at one it does not, and never a transposition |
| EditDistance.BacktraceReplaysBefore | src/Yisoft.Framework/IntelligentAlgorithms/StringDistance.cs:105-169 | the removed sides of the choices, in order, spell the old input's prefix the walk starts from |
| EditDistance.BacktraceReplaysAfter | src/Yisoft.Framework/IntelligentAlgorithms/StringDistance.cs:105-169 | under plain equality the added sides of the choices spell the new input's prefix |
| EditDistance.ScriptReplays | src/Yisoft.Framework/IntelligentAlgorithms/StringDistance.cs:94-170 | under plain equality the edit script turns the old input into the new one (removed sides are the old input, added sides the new) and holds no transposition |
| EditDistance.BacktraceWeight | src/Yisoft.Framework/IntelligentAlgorithms/StringDistance.cs:103-150 | the script is a cheapest one: the weights of its non-`Equal` steps add up to the distance table's cell it starts from |
| EditDistance.StepCost | src/Yisoft.Framework/IntelligentAlgorithms/StringDistance.cs:112-150 | each step of the walk pays exactly the difference between the two table cells it moves between |
| EditDistance.BacktraceShape | src/Yisoft.Framework/IntelligentAlgorithms/StringDistance.cs:110-165 | the script never holds a transposition and has at least as many steps as the longer input and at most as many as both together |
| EditDistance.StepChoice | src/Yisoft.Framework/IntelligentAlgorithms/StringDistance.cs:121-149 | at an unequal pair the walk takes a cheapest step, preferring substitute, then remove, then add |
| EditDistance.UnequalCell | src/Yisoft.Framework/IntelligentAlgorithms/StringDistance.cs:60-75 | for an unequal pair the cell is at most the cheapest of remove, add and substitute, and equal to it without transpositions |
| EditDistance.EqualCell | src/Yisoft.Framework/IntelligentAlgorithms/StringDistance.cs:59 | for a pair the comparer matches the cell copies its diagonal neighbour |
| EditDistance.TranspositionNeverWorse | src/Yisoft.Framework/IntelligentAlgorithms/StringDistance.cs:70-75 | allowing transpositions never makes any cell, and so the distance, larger |
| EditDistance.CellNeverWorse | src/Yisoft.Framework/IntelligentAlgorithms/StringDistance.cs:52-75 | one cell keeps the transposition bound when the cells it is computed from keep it |
| StringDistances.FillCosts | src/Yisoft.Framework/IntelligentAlgorithms/StringDistance.cs:50-78 | the border loops and the nested loops leave every table cell equal to the edit-distance recurrence for the problem |
| StringDistances.FillCostCell | src/Yisoft.Framework/IntelligentAlgorithms/StringDistance.cs:59-75 | one inner step sets cell (i, j) to the recurrence's value, transposition included, and changes no other cell |
| StringDistances.WalkBack | src/Yisoft.Framework/IntelligentAlgorithms/StringDistance.cs:105-167 | the three walking loops followed by `Reverse` produce exactly the edit script defined on the table |
| StringDistances.StepBack | src/Yisoft.Framework/IntelligentAlgorithms/StringDistance.cs:112-150 | one pass of the first loop emits the specified last step and moves to the specified previous cell |
| StringDistances.ScanRows | src/Yisoft.Framework/IntelligentAlgorithms/StringDistance.cs:210-232 | the nested loops return the length and start positions of the first longest common run of the two windows |
| StringDistances.ScanRow | src/Yisoft.Framework/IntelligentAlgorithms/StringDistance.cs:214-229 | one row of the scan fills that row with run lengths and advances the best run as the row-major scan specification does |
| StringDistances.FillLcsRow | src/Yisoft.Framework/IntelligentAlgorithms/StringDistance.cs:264-272 | one row of the subsequence table is filled by the recurrence, leaving other rows untouched |
| StringDistances.AddResults | src/Yisoft.Framework/IntelligentAlgorithms/StringDistance.cs:374 | `_AddResults` appends every element of the window, in order, tagged with the action |
| StringDistances.DiffList.constructor | src/Yisoft.Framework/IntelligentAlgorithms/StringDistance.cs:348 | the result list starts empty |
| StringDistances.StringDistance.constructor | src/Yisoft.Framework/IntelligentAlgorithms/StringDistance.cs:18 | a new engine has no table yet |
| StringDistances.StringDistance.ResizeArray | src/Yisoft.Framework/IntelligentAlgorithms/StringDistance.cs:278-283 | the table is kept when it is already large enough in both dimensions and otherwise replaced by a fresh one of exactly the requested size |
| StringDistances.StringDistance.LevenshteinDistance | src/Yisoft.Framework/IntelligentAlgorithms/StringDistance.cs:32-81 | null inputs count as empty, a missing comparer is equality and a missing weight is 1; the result is the edit distance under those settings and the table holds the whole recurrence |
| StringDistances.StringDistance.LevenshteinChoices | src/Yisoft.Framework/IntelligentAlgorithms/StringDistance.cs:94-170 | a null input fails at `Length`; otherwise the result is the edit script walked back from the transposition-free table |
| StringDistances.StringDistance.LongestCommonSubstring | src/Yisoft.Framework/IntelligentAlgorithms/StringDistance.cs:198-233 | returns length and start positions of the first longest common run of the two windows, and 0, 0, 0 when either is empty |
| StringDistances.StringDistance.LongestCommonSubstringOfArrays | src/Yisoft.Framework/IntelligentAlgorithms/StringDistance.cs:189-195 | a null array fails with an argument error; otherwise the result is the longest common run of the whole arrays |
| StringDistances.StringDistance.LongestCommonSubstringOfStrings | src/Yisoft.Framework/IntelligentAlgorithms/StringDistance.cs:179-187 | null or empty strings give 0 at positions 0, 0; otherwise the first longest common run under equality |
| StringDistances.StringDistance.LongestCommonSubsequence | src/Yisoft.Framework/IntelligentAlgorithms/StringDistance.cs:245-276 | a null input fails with an argument error; otherwise the result is the last cell of the subsequence table, which is the length of a longest common subsequence |
| StringDistances.StringDistance.LongestCommonSubsequenceOfStrings | src/Yisoft.Framework/IntelligentAlgorithms/StringDistance.cs:235-240 | null or empty strings give 0; otherwise the longest common subsequence length under equality |
| StringDistances.StringDistance.Diff | src/Yisoft.Framework/IntelligentAlgorithms/StringDistance.cs:346-353 | a null array fails at enumeration; otherwise the list holds the recursive diff of the two inputs |
| StringDistances.StringDistance.DiffPrivate | src/Yisoft.Framework/IntelligentAlgorithms/StringDistance.cs:355-372 | appends to the shared result list exactly the diff of the two windows |
| StringDistances.StringDistance.DiffAround | src/Yisoft.Framework/IntelligentAlgorithms/StringDistance.cs:364-371 | with a common run, appends the diff of what precedes it, the run as `Equal`, and the diff of what follows it |
| StringDistances.StringDistance.TryDiff | src/Yisoft.Framework/IntelligentAlgorithms/StringDistance.cs:376-381 | appends the diff the guard chooses: recurse, remove the old side, add the new side, or nothing |
| StringDistances.StringDistance.DiffWords | src/Yisoft.Framework/IntelligentAlgorithms/StringDistance.cs:338-344 | a null string fails; otherwise the result is the diff of the two strings' word, space and single-character tokens |
| StringDistances.StringDistance.DiffText | src/Yisoft.Framework/IntelligentAlgorithms/StringDistance.cs:285-336 | the result is the line diff specification: lines split on '\n', equal lines kept, and each changed group aligned by a second engine whose substitutions are word-diffed |
| StringDistances.StringDistance.GroupToLines | src/Yisoft.Framework/IntelligentAlgorithms/StringDistance.cs:299-335 | one group of equal lines becomes one `Equal` entry per line; a changed group becomes the line entries of its edit script |
| StringDistances.StringDistance.ChoicesToLines | src/Yisoft.Framework/IntelligentAlgorithms/StringDistance.cs:317-334 | an added or removed line becomes a one-pair entry, a substitution becomes the word diff of the two lines |
| CommonRuns.Run | src/Yisoft.Framework/IntelligentAlgorithms/StringDistance.cs:216-220 | a table cell is positive exactly at a matching pair, and the run it measures really matches in both inputs |
| CommonRuns.LongestCommonRun | src/Yisoft.Framework/IntelligentAlgorithms/StringDistance.cs:201-204 | the result lies inside both inputs and is length 0 at 0, 0 when either input is empty |
| CommonRuns.LongestCommonRunSound | src/Yisoft.Framework/IntelligentAlgorithms/StringDistance.cs:222-227 | the reported run really is a common run at the reported positions |
| CommonRuns.ScanCovers | src/Yisoft.Framework/IntelligentAlgorithms/StringDistance.cs:212-229 | every cell the scan has visited holds a run no longer than the best found so far |
| CommonRuns.ScanFirst | src/Yisoft.Framework/IntelligentAlgorithms/StringDistance.cs:222 | because only a strictly longer run replaces the best one, the best run is the first of its length in row-major order |
| CommonRuns.LongestCommonRunIsLongest | src/Yisoft.Framework/IntelligentAlgorithms/StringDistance.cs:198-233 | no common run of the two inputs is longer than the result |
| CommonRuns.LongestCommonRunIsFirst | src/Yisoft.Framework/IntelligentAlgorithms/StringDistance.cs:222-227 | among the longest runs, the result is the one that ends first in row-major order |
| CommonRuns.NoCommonElement | src/Yisoft.Framework/IntelligentAlgorithms/StringDistance.cs:216 | without a single matching pair the result is length 0 at 0, 0 |
| CommonRuns.StartsWithEqualPair | src/Yisoft.Framework/IntelligentAlgorithms/StringDistance.cs:219-226 | a non-empty result starts at a matching pair inside both inputs |
| Subsequences.Lcs | src/Yisoft.Framework/IntelligentAlgorithms/StringDistance.cs:259-271 | a table cell never exceeds either prefix length |
| Subsequences.Witness | src/Yisoft.Framework/IntelligentAlgorithms/StringDistance.cs:259-271 | every cell is achieved: a common subsequence of that length exists in the two prefixes |
| Subsequences.Steps | src/Yisoft.Framework/IntelligentAlgorithms/StringDistance.cs:266-270 | moving one row or one column on grows a cell by 0 or 1 |
| Subsequences.LcsIsLongest | src/Yisoft.Framework/IntelligentAlgorithms/StringDistance.cs:259-271 | no common subsequence of the two prefixes is longer than the cell |
| Subsequences.LongestCommonSubsequence | src/Yisoft.Framework/IntelligentAlgorithms/StringDistance.cs:245-276 | the last cell is exactly the length of a longest common subsequence: one of that length exists and none is longer |
| Diffs.Tag | src/Yisoft.Framework/IntelligentAlgorithms/StringDistance.cs:374 | tagging keeps the length |
| Diffs.TagAt | src/Yisoft.Framework/IntelligentAlgorithms/StringDistance.cs:374 | element k of a tagged window is element k of the window with the action |
| Diffs.TryDiffGuard | src/Yisoft.Framework/IntelligentAlgorithms/StringDistance.cs:378 | testing the old side twice changes no result: with an empty new side the recursion removes the whole old side, as the intended test would |
| Diffs.DiffUnanchored | src/Yisoft.Framework/IntelligentAlgorithms/StringDistance.cs:359-363 | without a common run the diff removes the whole old input, then adds the whole new one |
| Diffs.DiffAnchored | src/Yisoft.Framework/IntelligentAlgorithms/StringDistance.cs:364-371 | with a common run the diff is anchored on the first longest one |
| Diffs.DiffShape | src/Yisoft.Framework/IntelligentAlgorithms/StringDistance.cs:355-372 | the two shapes of a diff: everything removed then added, or the diff before the first longest common run, the run as `Equal`, and the diff after it |
| Diffs.DiffKeepsOld | src/Yisoft.Framework/IntelligentAlgorithms/StringDistance.cs:355-381 | the non-added values of a diff, in order, are the old input |
| Diffs.DiffKeepsNew | src/Yisoft.Framework/IntelligentAlgorithms/StringDistance.cs:355-381 | under plain equality the non-removed values of a diff, in order, are the new input |
| Diffs.DiffWithoutCommonElement | src/Yisoft.Framework/IntelligentAlgorithms/StringDistance.cs:359-363 | inputs with no matching pair are diffed as all removed, then all added |
| Diffs.DiffOfSame | src/Yisoft.Framework/IntelligentAlgorithms/StringDistance.cs:364-371 | an input diffed against itself under plain equality is all `Equal` |
| Diffs.WholeRunOfSame | src/Yisoft.Framework/IntelligentAlgorithms/StringDistance.cs:212-227 | the longest common run of a non-empty input with itself is the whole input at 0, 0 |
| Words.Prefix | src/Yisoft.Framework/IntelligentAlgorithms/StringDistance.cs:17 | the counted prefix is all of one character class and stops at the first character of another |
| Words.Span | src/Yisoft.Framework/IntelligentAlgorithms/StringDistance.cs:17 | a match is a whole run of word or space characters, or one single other character |
| Words.TokensCover | src/Yisoft.Framework/IntelligentAlgorithms/StringDistance.cs:340-341 | the matches glued back together give the string |
| Words.TokensShape | src/Yisoft.Framework/IntelligentAlgorithms/StringDistance.cs:17 | each match is non-empty and homogeneous, and two adjacent word or space runs of the same class are never split; also lines 340-341 of the same file |
| TextDiffs.Lines | src/Yisoft.Framework/IntelligentAlgorithms/StringDistance.cs:287-291 | splitting on '\n' gives at least one line, null counting as empty |
| TextDiffs.WordDiffSides | src/Yisoft.Framework/IntelligentAlgorithms/StringDistance.cs:331-344 | the old and new sides of a word diff concatenate back to the old and the new line |
| TextDiffs.ChoiceLinesSides | src/Yisoft.Framework/IntelligentAlgorithms/StringDistance.cs:317-334 | the entries made from a transposition-free script replay its removed and added lines |
| TextDiffs.ChangedRunSides | src/Yisoft.Framework/IntelligentAlgorithms/StringDistance.cs:303-315 | aligning a changed group replays exactly its removed lines and its added lines |
| TextDiffs.GroupsLinesSides | src/Yisoft.Framework/IntelligentAlgorithms/StringDistance.cs:295-335 | the entries made from the groups replay the old and new lines of the line diff |
| TextDiffs.DiffTextKeepsOld | src/Yisoft.Framework/IntelligentAlgorithms/StringDistance.cs:285-336 | the old lines of `DiffText` are exactly the old text's lines |
| TextDiffs.DiffTextKeepsNew | src/Yisoft.Framework/IntelligentAlgorithms/StringDistance.cs:285-336 | the new lines of `DiffText` are exactly the new text's lines |
| TextDiffs.DiffTextRoundTrip | src/Yisoft.Framework/IntelligentAlgorithms/StringDistance.cs:285-336 | joining the old (new) lines of `DiffText` with '\n' gives back the old (new) text, null counting as empty |
| Levenshtein.UnitProblem | src/Yisoft.Framework/IntelligentAlgorithms/LevenshteinDistance.cs:43-52 | the engine compares characters by equality and every step costs 1, with no transposition |
| Levenshtein.UnitBounds | src/Yisoft.Framework/IntelligentAlgorithms/LevenshteinDistance.cs:43-52 | every cell lies between the difference of the prefix lengths and the longer prefix length |
| Levenshtein.UnitSame | src/Yisoft.Framework/IntelligentAlgorithms/LevenshteinDistance.cs:46-55 | a string is at distance 0 from itself |
| Levenshtein.Neighbours | src/Yisoft.Framework/IntelligentAlgorithms/LevenshteinDistance.cs:46-55 | neighbouring cells differ by at most one |
| Levenshtein.TextbookCell | src/Yisoft.Framework/IntelligentAlgorithms/LevenshteinDistance.cs:50-52 | the textbook recurrence min(up + 1, left + 1, diagonal + cost) gives the same cell as the comparer-and-weight engine of `StringDistance` |
| Levenshtein.Minimum | src/Yisoft.Framework/IntelligentAlgorithms/LevenshteinDistance.cs:64-72 | `_Minimum` returns one of its three arguments and none is smaller |
| Levenshtein.Compute | src/Yisoft.Framework/IntelligentAlgorithms/LevenshteinDistance.cs:31-61 | null arguments fail; otherwise the result keeps both strings, counts one inner step per pair of positions, and its distance is the unit edit distance, 0 for equal strings and at most the longer length |
| Levenshtein.InitBorders | src/Yisoft.Framework/IntelligentAlgorithms/LevenshteinDistance.cs:43-44 | row 0 and column 0 count additions and removals |
| Levenshtein.FillRow | src/Yisoft.Framework/IntelligentAlgorithms/LevenshteinDistance.cs:48-54 | one pass of the inner loop fills row i by the recurrence and counts one step per character of the second string |
| Levenshtein.FillCell | src/Yisoft.Framework/IntelligentAlgorithms/LevenshteinDistance.cs:50-52 | one inner step sets cell (i, j) to the unit distance of the prefixes and changes no other cell |
| Grouping.GroupWhenChange | src/Yisoft.Framework/Extensions/GroupExtensions.cs:25-54 | the iterator yields the input's maximal runs of equal key, in order, with the last group emitted at the end |
| Grouping.FlattenGroupRuns | src/Yisoft.Framework/Extensions/GroupExtensions.cs:25-54 | concatenating the groups gives the input back |
| Grouping.FlattenAbsorb | src/Yisoft.Framework/Extensions/GroupExtensions.cs:31-50 | absorbing one item, into the current group or a new one, puts it at the end of the flattened groups |
| Grouping.GroupRunsWellGrouped | src/Yisoft.Framework/Extensions/GroupExtensions.cs:38-49 | every group is non-empty and uniform in key, and neighbouring groups have different keys |
| Grouping.AbsorbWellGrouped | src/Yisoft.Framework/Extensions/GroupExtensions.cs:31-50 | one step of the loop keeps the groups maximal runs |
| Grouping.GroupRunsEmpty | src/Yisoft.Framework/Extensions/GroupExtensions.cs:27-53 | an empty input gives no group and a non-empty one at least one |
| BidirectionalDictionaries.Table.constructor | src/Yisoft.Framework/Collections/Generic/BidirectionalDictionary.cs:35-36 | each underlying dictionary starts empty |
| BidirectionalDictionaries.BijectionSizes | src/Yisoft.Framework/Collections/Generic/BidirectionalDictionary.cs:111 | two tables that are each other's inverse have the same number of entries, so `Count`, read from the forward table, is also the number of values |
| BidirectionalDictionaries.BidirectionalDictionary.constructor | src/Yisoft.Framework/Collections/Generic/BidirectionalDictionary.cs:28-39 | a new dictionary has two fresh empty tables and a fresh inverse view, and the bijection invariant holds |
| BidirectionalDictionaries.BidirectionalDictionary.View | src/Yisoft.Framework/Collections/Generic/BidirectionalDictionary.cs:41-48 | the private constructor shares the other dictionary's two tables, swapped, and points back to it as its inverse |
| BidirectionalDictionaries.BidirectionalDictionary.InverseValid | src/Yisoft.Framework/Collections/Generic/BidirectionalDictionary.cs:38-50 | `Inverse` is a valid dictionary whose forward table is this one's backward table and the other way round |
| BidirectionalDictionaries.BidirectionalDictionary.CountBoth | src/Yisoft.Framework/Collections/Generic/BidirectionalDictionary.cs:111 | `Count` equals the number of values, and the inverse reports the same count |
| BidirectionalDictionaries.BidirectionalDictionary.ContainsKey | src/Yisoft.Framework/Collections/Generic/BidirectionalDictionary.cs:65-70 | a null key throws; otherwise true exactly when the key is bound |
| BidirectionalDictionaries.BidirectionalDictionary.ContainsValue | src/Yisoft.Framework/Collections/Generic/BidirectionalDictionary.cs:158-163 | a null value throws; otherwise true exactly when the value is bound |
| BidirectionalDictionaries.BidirectionalDictionary.TryGetValue | src/Yisoft.Framework/Collections/Generic/BidirectionalDictionary.cs:77-82 | a null key throws; otherwise the value is found exactly when the key is bound, and it is the key's value |
| BidirectionalDictionaries.BidirectionalDictionary.TryGetKey | src/Yisoft.Framework/Collections/Generic/BidirectionalDictionary.cs:167-172 | a null value throws; otherwise the key is found exactly when the value is bound, and it is the value's key |
| BidirectionalDictionaries.BidirectionalDictionary.Get | src/Yisoft.Framework/Collections/Generic/BidirectionalDictionary.cs:86 | the indexer getter throws on a null key and on a missing key, and otherwise returns the key's value |
| BidirectionalDictionaries.BidirectionalDictionary.LookupBothWays | src/Yisoft.Framework/Collections/Generic/BidirectionalDictionary.cs:38-50 | `GetKey(v)` is k exactly when `GetValue(k)` is v, and the inverse answers each lookup as this dictionary answers the opposite one; also lines 156, 165 of the same file |
| BidirectionalDictionaries.BidirectionalDictionary.Set | src/Yisoft.Framework/Collections/Generic/BidirectionalDictionary.cs:87-109 | the indexer setter throws on null and on a value bound to another key and then changes nothing; otherwise it binds key to value in both tables and drops the key's old value from the reverse table, keeping the bijection; also lines 186-189 of the same file |
| BidirectionalDictionaries.BidirectionalDictionary.Add | src/Yisoft.Framework/Collections/Generic/BidirectionalDictionary.cs:115-125 | throws on null and when the key or the value is already bound, changing nothing; otherwise adds the pair to both tables, keeping the bijection |
| BidirectionalDictionaries.BidirectionalDictionary.Remove | src/Yisoft.Framework/Collections/Generic/BidirectionalDictionary.cs:129-139 | throws on a null key; returns whether the key was bound and, if it was, removes the key and its value from both tables |
| BidirectionalDictionaries.BidirectionalDictionary.RemovePair | src/Yisoft.Framework/Collections/Generic/BidirectionalDictionary.cs:141-148 | removes the pair only when the key is bound to exactly that value, from both tables |
| BidirectionalDictionaries.BidirectionalDictionary.Clear | src/Yisoft.Framework/Collections/Generic/BidirectionalDictionary.cs:150-154 | both tables become empty |
| BidirectionalDictionaries.BidirectionalDictionary.Replace | src/Yisoft.Framework/Collections/Generic/BidirectionalDictionary.cs:174-184 | throws on null; otherwise afterwards key and value are bound to each other, the key's old value and the value's old key are unbound, and nothing else changes |
| BidirectionalDictionaries.Create | src/Yisoft.Framework/Collections/Generic/BidirectionalDictionary.cs:21-30 | a negative capacity throws; otherwise the dictionary is new, valid and empty |
| BackpackEncoders.ToMap | src/Yisoft.Framework/Security/Cryptography/BackpackEncoder.cs:72-75 | the table built from the seeds has exactly the seed keys, each bound to its own seed value |
| BackpackEncoders.SeedRanks | src/Yisoft.Framework/Security/Cryptography/BackpackEncoder.cs:26-44 | the i-th default seed maps the i-th hex digit to a hex digit |
| BackpackEncoders.DefaultSeedsArePermutation | src/Yisoft.Framework/Security/Cryptography/BackpackEncoder.cs:26-44 | the default seeds are 16 pairs of hex digits with distinct keys and distinct values, a one-to-one map of the hex digits onto themselves |
| BackpackEncoders.EncodeSpec | src/Yisoft.Framework/Security/Cryptography/BackpackEncoder.cs:48-55 | encoding fails with a missing key exactly when a character is not in the table; otherwise it keeps the length and maps every character through the table |
| BackpackEncoders.DecodeSpec | src/Yisoft.Framework/Security/Cryptography/BackpackEncoder.cs:57-64 | decoding keeps the length and maps each character to its key, or to '\0' (`GetKey`'s default) when it is no value |
| BackpackEncoders.DecodeEncode | src/Yisoft.Framework/Security/Cryptography/BackpackEncoder.cs:48-64 | over a bijective table, decoding the encoding of a string over the key alphabet gives it back |
| BackpackEncoders.EncodeDecode | src/Yisoft.Framework/Security/Cryptography/BackpackEncoder.cs:48-64 | over a bijective table, encoding the decoding of a string over the value alphabet gives it back |
| BackpackEncoders.AddPair | src/Yisoft.Framework/Security/Cryptography/BackpackEncoder.cs:72-75 | adding one more seed with a fresh value extends both tables by that pair |
| BackpackEncoders.BackpackEncoder.constructor | src/Yisoft.Framework/Security/Cryptography/BackpackEncoder.cs:24-46 | every encoder uses the one shared table |
| BackpackEncoders.BackpackEncoder.Initialize | src/Yisoft.Framework/Security/Cryptography/BackpackEncoder.cs:66-76 | null seeds or seeds without exactly 16 entries fall back to the defaults; the table is cleared and refilled, and it fails exactly when two seeds share a value; otherwise the table is exactly the seeds, both ways |
| BackpackEncoders.BackpackEncoder.AddPairs | src/Yisoft.Framework/Security/Cryptography/BackpackEncoder.cs:72-75 | filling an empty table fails exactly when two seeds share a value, and otherwise leaves the table equal to the seeds, both ways |
| BackpackEncoders.BackpackEncoder.AddNext | src/Yisoft.Framework/Security/Cryptography/BackpackEncoder.cs:74 | one `Add` either fails on a repeated value, which proves the seeds are not one-to-one, or extends the table by the next seed |
| BackpackEncoders.BackpackEncoder.Encode | src/Yisoft.Framework/Security/Cryptography/BackpackEncoder.cs:48-55 | the loop computes the encoding specification over the shared table, failing on the first unknown character |
| BackpackEncoders.BackpackEncoder.Decode | src/Yisoft.Framework/Security/Cryptography/BackpackEncoder.cs:57-64 | the loop computes the decoding specification over the shared table |
| BackpackEncoders.SeedsOrDefault | src/Yisoft.Framework/Security/Cryptography/BackpackEncoder.cs:68 | the seeds are used only when present with exactly 16 entries; otherwise the defaults |
| BackpackEncoders.Create | src/Yisoft.Framework/Security/Cryptography/BackpackEncoder.cs:46 | constructing an encoder reinitialises the shared table for every encoder: it fails exactly when the chosen seeds repeat a value, and otherwise leaves the table equal to them |
| TokenAlgorithms.Remove | src/Yisoft.Framework/Security/Cryptography/TokenAlgorithm.cs:134 | `string.Remove` fails when the range leaves the string; otherwise it drops exactly `count` characters at `start`, keeping what comes before and after |
| TokenAlgorithms.Insert | src/Yisoft.Framework/Security/Cryptography/TokenAlgorithm.cs:136 | `string.Insert` fails outside 0..length; otherwise it puts `value` at `start` and keeps the rest around it |
| TokenAlgorithms.Replace | src/Yisoft.Framework/Security/Cryptography/TokenAlgorithm.cs:132-137 | `_Replace` fails when `value` would not fit at `position`; otherwise it keeps the length, writes `value` at `position` and leaves every other character unchanged |
| TokenAlgorithms.DigestHex | src/Yisoft.Framework/Security/Cryptography/TokenAlgorithm.cs:62-63 | the unsalted token has two lowercase hex digits per digest byte and no dashes |
| TokenAlgorithms.DigestHexBytes | src/Yisoft.Framework/Security/Cryptography/TokenAlgorithm.cs:63 | each digit pair of the unsalted token reads back as its byte, high nibble first |
| TokenAlgorithms.SetVersion | src/Yisoft.Framework/Security/Cryptography/TokenAlgorithm.cs:130 | `_SetVersion` writes the settings' version number at the given position |
| TokenAlgorithms.Header | src/Yisoft.Framework/Security/Cryptography/TokenAlgorithm.cs:99-110 | the header steps of `_AddSalt` keep the token's length |
| TokenAlgorithms.WithData | src/Yisoft.Framework/Security/Cryptography/TokenAlgorithm.cs:112-122 | non-empty data longer than the data room minus the 8 timestamp digits throws, as does data that does not fit; otherwise the length is kept and the data sits at its position |
| TokenAlgorithms.Salted | src/Yisoft.Framework/Security/Cryptography/TokenAlgorithm.cs:97-124 | laying out the salt keeps the token's length |
| TokenAlgorithms.At | src/Yisoft.Framework/Security/Cryptography/TokenAlgorithm.cs:72-75 | reading `decoded[i]` fails exactly outside the string and otherwise gives that character |
| TokenAlgorithms.Substring | src/Yisoft.Framework/Security/Cryptography/TokenAlgorithm.cs:76-78 | `Substring` fails when the range leaves the string and otherwise returns the `length` characters at `start` |
| TokenAlgorithms.ReadDigit | src/Yisoft.Framework/Security/Cryptography/TokenAlgorithm.cs:72 | the version position read from index 2 is the value 0..9 of a decimal digit there; any other character is a format error and a missing one an index error |
| TokenAlgorithms.ReadDigitParses | src/Yisoft.Framework/Security/Cryptography/TokenAlgorithm.cs:72 | reading one character is exactly `Convert.ToInt32` of the one-character string |
| TokenAlgorithms.ReadPair | src/Yisoft.Framework/Security/Cryptography/TokenAlgorithm.cs:73-75 | two characters read as a number in -9..99, negative only after a minus sign, and two decimal digits read as their two-digit value; otherwise an index or format error |
| TokenAlgorithms.ReadPairParses | src/Yisoft.Framework/Security/Cryptography/TokenAlgorithm.cs:73-75 | reading two characters is exactly `Convert.ToInt32` of the two-character string, which also accepts one digit with white space, a sign or a NUL beside it |
| TokenAlgorithms.ReadPositions | src/Yisoft.Framework/Security/Cryptography/TokenAlgorithm.cs:72-75 | the version position is 0..9 and the salt position, data position and data length are -9..99, or an index or format error |
| TokenAlgorithms.ParseSalt | src/Yisoft.Framework/Security/Cryptography/TokenAlgorithm.cs:72-80 | a parsed salt has the settings' salt length and the data length it read, both read from where the header says at non-negative positions; the errors are index, format and range errors |
| TokenAlgorithms.PresetsLaid | src/Yisoft.Framework/Security/Cryptography/TokenHashSettings.cs:13-110 | every preset's position ranges keep version, header, salt, data and timestamp apart inside its digest length |
| TokenAlgorithms.Keep | src/Yisoft.Framework/Security/Cryptography/TokenAlgorithm.cs:132-137 | a `_Replace` leaves every disjoint, already written field in place |
| TokenAlgorithms.SaltedHolds | src/Yisoft.Framework/Security/Cryptography/TokenAlgorithm.cs:97-124 | after `_AddSalt`'s layout the digit at index 2, the version, the three two-digit positions, the salt, the data and the 8 lowercase hex digits of the timestamp all sit where the header says |
| TokenAlgorithms.PositionsHeld | src/Yisoft.Framework/Security/Cryptography/TokenAlgorithm.cs:72-75 | reading a laid-out header gives back the positions that were written |
| TokenAlgorithms.ParseHeld | src/Yisoft.Framework/Security/Cryptography/TokenAlgorithm.cs:72-80 | parsing a laid-out token gives back exactly the salt that was written |
| TokenAlgorithms.SaltRoundTrip | src/Yisoft.Framework/Security/Cryptography/TokenAlgorithm.cs:69-124 | for every salt that fits the settings, `GetSalt`'s parsing inverts `_AddSalt`'s layout |
| TokenAlgorithms.DataTooLong | src/Yisoft.Framework/Security/Cryptography/TokenAlgorithm.cs:112-119 | data longer than the data room minus 8 makes `_AddSalt` throw an out-of-range error |
| TokenAlgorithms.SaltedOver | src/Yisoft.Framework/Security/Cryptography/TokenAlgorithm.cs:97-124 | the laid-out token uses only characters the encoder's table knows when the digest, salt and data do |
| TokenAlgorithms.TokenDecodes | src/Yisoft.Framework/Security/Cryptography/TokenAlgorithm.cs:71-127 | decoding the encoded token gives back the laid-out token |
| TokenAlgorithms.TokenRoundTrip | src/Yisoft.Framework/Security/Cryptography/TokenAlgorithm.cs:69-128 | `GetSalt` recovers the salt `_AddSalt` was given, through the backpack encoding |
| TokenAlgorithms.EncryptAgain | test/Yisoft.Framework.XUnitTest/TokenHelperUnitTest.cs:30-41 | encrypting, recovering the salt and encrypting again with it gives the same token, and the recovered data is the original data |
| TokenAlgorithms.RandomSeedsAreHex | src/Yisoft.Framework/Security/Cryptography/TokenAlgorithm.cs:28 | the salt alphabet is the 16 lowercase hex digits in order |
| TokenAlgorithms.DefaultTableCoversHex | src/Yisoft.Framework/Security/Cryptography/BackpackEncoder.cs:26-44 | the default table's keys include every hex digit, so every laid-out token can be encoded |
| TokenAlgorithms.TokenAlgorithm.constructor | src/Yisoft.Framework/Security/Cryptography/TokenAlgorithm.cs:37-41 | the algorithm keeps its settings, encoder and digest function |
| TokenAlgorithms.TokenAlgorithm.GenerateSalt | src/Yisoft.Framework/Security/Cryptography/TokenAlgorithm.cs:83-95 | the loop yields exactly `SaltLength` characters, each the hex digit its random draw picks |
| TokenAlgorithms.TokenAlgorithm.Encrypt | src/Yisoft.Framework/Security/Cryptography/TokenAlgorithm.cs:54-67 | the result is the salted, encoded token of the keyed digest of the input |
| TokenAlgorithms.TokenAlgorithm.AddSalt | src/Yisoft.Framework/Security/Cryptography/TokenAlgorithm.cs:97-128 | the steps compute the layout specification and then the backpack encoding |
| TokenAlgorithms.TokenAlgorithm.GetSalt | src/Yisoft.Framework/Security/Cryptography/TokenAlgorithm.cs:69-81 | the steps decode the token and parse the salt specification |
| TokenAlgorithms.TokenAlgorithm.EncryptData | src/Yisoft.Framework/Security/Cryptography/TokenAlgorithm.cs:43-52 | empty random ranges throw; null data fails in the salt's null check; otherwise the token is the salted encoding under a fresh salt of hex digits and the drawn positions |
| TokenAlgorithms.Create | src/Yisoft.Framework/Security/Cryptography/TokenAlgorithm.cs:37-41 | a missing encoder throws; missing settings fall back to SHA-256 |
| TokenAlgorithms.CreateDefault | src/Yisoft.Framework/Security/Cryptography/TokenAlgorithm.cs:35 | the default constructor builds a backpack encoder, which resets the shared table to the default seeds |
| Xxtea.AddSubMod | src/Yisoft.Framework/Security/Cryptography/XXTEAManaged.cs:63-117 | unchecked `uint` addition and subtraction are addition and subtraction modulo 2^32 |
| Xxtea.SubAdd | src/Yisoft.Framework/Security/Cryptography/XXTEAManaged.cs:72-112 | subtracting what was added modulo 2^32 restores the word, which is why decryption undoes encryption step by step |
| Xxtea.PadKey | src/Yisoft.Framework/Security/Cryptography/XXTEAManaged.cs:47-54 | a key shorter than 4 words is zero-padded to 4 words; a longer key is kept as it is |
| Xxtea.KeyIndex | src/Yisoft.Framework/Security/Cryptography/XXTEAManaged.cs:64-72 | the key index `(p & 3) ^ e` is always below 4, so only k[0..3] are read |
| Xxtea.KeyIndexBelow | src/Yisoft.Framework/Security/Cryptography/XXTEAManaged.cs:64-72 | the key index is the exclusive-or of p mod 4 and bits 2-3 of `sum` |
| Xxtea.RoundCount | src/Yisoft.Framework/Security/Cryptography/XXTEAManaged.cs:59-99 | q = 6 + 52/(n + 1) rounds, between 6 and 32 |
| Xxtea.SumClosed | src/Yisoft.Framework/Security/Cryptography/XXTEAManaged.cs:63-100 | after r rounds `sum` is r·delta mod 2^32, the value decryption starts from |
| Xxtea.SumNonZero | src/Yisoft.Framework/Security/Cryptography/XXTEAManaged.cs:102 | for 1..32 rounds `sum` is never 0, so the `while (sum != 0)` loop runs exactly q rounds |
| Xxtea.Enciphered | src/Yisoft.Framework/Security/Cryptography/XXTEAManaged.cs:41-80 | encryption keeps the word count and returns fewer than 2 words unchanged |
| Xxtea.Deciphered | src/Yisoft.Framework/Security/Cryptography/XXTEAManaged.cs:82-121 | decryption keeps the word count and returns fewer than 2 words unchanged |
| Xxtea.StepInverse | src/Yisoft.Framework/Security/Cryptography/XXTEAManaged.cs:72-112 | the decryption step at p undoes the encryption step at p |
| Xxtea.RoundInverse | src/Yisoft.Framework/Security/Cryptography/XXTEAManaged.cs:69-116 | one decryption round undoes one encryption round with the same `sum` |
| Xxtea.RoundsInverse | src/Yisoft.Framework/Security/Cryptography/XXTEAManaged.cs:61-118 | decrypting from q·delta down to l·delta undoes the encryption rounds after the l-th |
| Xxtea.DecipherEncipher | src/Yisoft.Framework/Security/Cryptography/XXTEAManaged.cs:41-121 | `_Decrypt(_Encrypt(v, k), k)` is v for every word array and key |
| Xxtea.EncryptWords | src/Yisoft.Framework/Security/Cryptography/XXTEAManaged.cs:41-80 | `_Encrypt` updates the array in place, returns the same array, and leaves it enciphered |
| Xxtea.EncryptRound | src/Yisoft.Framework/Security/Cryptography/XXTEAManaged.cs:63-76 | one pass of the outer loop performs one encryption round in place |
| Xxtea.MixUp | src/Yisoft.Framework/Security/Cryptography/XXTEAManaged.cs:69-73 | the inner `for` loop updates words 0..n-1 as the round specifies and leaves `z` at the last updated word |
| Xxtea.StartSum | src/Yisoft.Framework/Security/Cryptography/XXTEAManaged.cs:100 | the unchecked product q·delta is the sum after q rounds |
| Xxtea.DecryptWords | src/Yisoft.Framework/Security/Cryptography/XXTEAManaged.cs:82-121 | `_Decrypt` updates the array in place, returns the same array, and leaves it deciphered |
| Xxtea.DecryptRound | src/Yisoft.Framework/Security/Cryptography/XXTEAManaged.cs:104-117 | one pass of the outer loop performs one decryption round in place |
| Xxtea.MixDown | src/Yisoft.Framework/Security/Cryptography/XXTEAManaged.cs:109-113 | the inner `for` loop updates words n..1 as the round specifies and leaves `y` at word 1 |
| Xxtea.ByteOfJoin4 | src/Yisoft.Framework/Security/Cryptography/XXTEAManaged.cs:137-151 | the byte at bit 8·c of a packed word is the c-th byte packed into it |
| Xxtea.Join4OfBytes | src/Yisoft.Framework/Security/Cryptography/XXTEAManaged.cs:137-151 | packing the four bytes of a word gives the word back |
| Xxtea.WordCount | src/Yisoft.Framework/Security/Cryptography/XXTEAManaged.cs:125 | the word count is the byte count divided by 4, rounded up |
| Xxtea.Packed | src/Yisoft.Framework/Security/Cryptography/XXTEAManaged.cs:123-140 | `_ToUInt32Array` produces ceil(n/4) words, plus one when the length is included |
| Xxtea.PackedLayout | src/Yisoft.Framework/Security/Cryptography/XXTEAManaged.cs:123-140 | byte i sits in word i/4 at bit 8·(i mod 4), the padding bytes are 0, and the trailing word holds n |
| Xxtea.Unpacked | src/Yisoft.Framework/Security/Cryptography/XXTEAManaged.cs:142-154 | byte i is taken from word i/4 at bit 8·(i mod 4); with the length included, the result has the trailing word's length and fails when that word, read as `int`, is negative or beyond the buffer; without it, the length is 4·words |
| Xxtea.UnpackPacked | src/Yisoft.Framework/Security/Cryptography/XXTEAManaged.cs:123-154 | unpacking the packing with the length word gives the bytes back |
| Xxtea.UnpackPackedPadded | src/Yisoft.Framework/Security/Cryptography/XXTEAManaged.cs:123-154 | without the length word the round trip gives the bytes zero-padded to a multiple of 4 |
| Xxtea.PackUnpacked | src/Yisoft.Framework/Security/Cryptography/XXTEAManaged.cs:123-154 | packing the unpacking of words, without the length word, gives the words back |
| Xxtea.ToWordArray | src/Yisoft.Framework/Security/Cryptography/XXTEAManaged.cs:123-140 | the loop of OR-assignments fills a fresh array equal to the packing specification |
| Xxtea.OrBytes | src/Yisoft.Framework/Security/Cryptography/XXTEAManaged.cs:137 | the loop ORs every byte into its word, leaving each data word equal to its four packed bytes and the trailing word untouched |
| Xxtea.ToByteArray | src/Yisoft.Framework/Security/Cryptography/XXTEAManaged.cs:142-154 | the loop fills a fresh array equal to the unpacking specification, or fails as it does |
| Xxtea.CipherLength | src/Yisoft.Framework/Security/Cryptography/XXTEAManaged.cs:193-198 | non-empty data encrypts to 4·(ceil(n/4) + 1) bytes |
| Xxtea.DecryptEncrypt | src/Yisoft.Framework/Security/Cryptography/XXTEAManaged.cs:193-211 | `Decrypt(Encrypt(d, k), k)` is d for every byte array and key, the empty array included |
| Xxtea.XxteaManaged.constructor | src/Yisoft.Framework/Security/Cryptography/XXTEAManaged.cs:31-34 | the object keeps the key |
| Xxtea.XxteaManaged.Encrypt | src/Yisoft.Framework/Security/Cryptography/XXTEAManaged.cs:193-198 | empty data is returned as the same array; otherwise a fresh array holding the byte-level encryption |
| Xxtea.XxteaManaged.Decrypt | src/Yisoft.Framework/Security/Cryptography/XXTEAManaged.cs:206-211 | empty data is returned as the same array; otherwise the byte-level decryption, failing when the recovered length word does not fit the buffer |
| Bits.XorBelow | src/Yisoft.Framework/Security/Cryptography/XXTEAManaged.cs:64-72 | the exclusive-or of two k-bit numbers is a k-bit number |
| Bits.OrAbove | src/Yisoft.Framework/Security/Cryptography/XXTEAManaged.cs:137 | OR-ing a value shifted above k bits into a k-bit number is addition |
| Bits.XorOnes | src/Yisoft.Framework/Utilities/Hasher.cs:51 | the exclusive-or with all k bits set is the bitwise complement, 2^k - 1 - a |
| Formats.Wrap32 | src/Yisoft.Framework/Utilities/Hasher.cs:35-69 | wrapping to a 32-bit signed integer is congruent modulo 2^32 and is the identity inside the `int` range |
| Formats.WrapShift | src/Yisoft.Framework/Utilities/Hasher.cs:35-69 | shifting by a multiple of 2^32 before wrapping changes nothing |
| Formats.HexChar | src/Yisoft.Framework/Security/Cryptography/TokenAlgorithm.cs:63 | each nibble becomes a lowercase hex digit that reads back as the nibble; also line 124 of the same file |
| Formats.PadLeft | src/Yisoft.Framework/Security/Cryptography/TokenAlgorithm.cs:105-110 | shorter than the width: fill characters in front up to exactly the width, then the string; otherwise the string unchanged |
| Formats.FormatX8 | src/Yisoft.Framework/Security/Cryptography/TokenAlgorithm.cs:124 | the "x8" format of an `int` has exactly 8 characters |
| Formats.ParseInt32 | src/Yisoft.Framework/Security/Cryptography/TokenAlgorithm.cs:72-75 | `Convert.ToInt32` fails with a format error exactly when the text is not white space, an optional sign, decimal digits, white space and trailing NULs; otherwise it gives the signed digits' value or an overflow error outside the `int` range |
| Formats.Scan | src/Yisoft.Framework/Security/Cryptography/TokenAlgorithm.cs:72-80 | the integer syntax .NET accepts: the digits found are non-empty, are digits of the base, and are negative only where a sign is allowed |
| Formats.ParseHexInt32 | src/Yisoft.Framework/Security/Cryptography/TokenAlgorithm.cs:80 | `int.Parse(s, HexNumber)` fails with a format error exactly when the text is not white space, hex digits, white space and trailing NULs, and text of at most 8 characters never overflows; a result is the hex value modulo 2^32 |
| Formats.ParseDecimalString | src/Yisoft.Framework/Security/Cryptography/TokenAlgorithm.cs:72-75 | any `int` written in decimal, with white space around it, parses back as itself |
| Formats.ParseOne | src/Yisoft.Framework/Security/Cryptography/TokenAlgorithm.cs:72 | a one-character string parses as the value of a decimal digit and is a format error otherwise |
| Formats.ParseTwo | src/Yisoft.Framework/Security/Cryptography/TokenAlgorithm.cs:73-75 | a two-character string parses as two digits, a digit after white space or a sign, or a digit before white space or a NUL, and is a format error otherwise; the value lies in -9..99 |
| Formats.D2Shape | src/Yisoft.Framework/Security/Cryptography/TokenAlgorithm.cs:105-110 | the "D2" format of 0..99 is two decimal digits, with a leading '0' below 10 |
| Formats.ParseD2 | src/Yisoft.Framework/Security/Cryptography/TokenAlgorithm.cs:73-110 | parsing the "D2" format of 0..99 gives the number back |
| Formats.ParseDigit | src/Yisoft.Framework/Security/Cryptography/TokenAlgorithm.cs:72-99 | parsing the one-digit string of 0..9 gives the digit back |
| Formats.NibblesValue | src/Yisoft.Framework/Security/Cryptography/TokenAlgorithm.cs:124 | k lowercase hex digits read as the number modulo 16^k |
| Formats.ParseX8 | src/Yisoft.Framework/Security/Cryptography/TokenAlgorithm.cs:78-124 | `int.Parse(..., HexNumber)` of the "x8" format of any `int` gives it back, negative values included |
| MathUtils.QuotRem | src/Yisoft.Framework/Utilities/MathUtils.cs:51-53 | C# `%` and `/` truncate toward zero: the remainder takes the sign of the dividend and never reaches the divisor |
| MathUtils.DigitsShape | src/Yisoft.Framework/Utilities/MathUtils.cs:49-54 | the base-b digits of x, most significant first, are at least one, each below b, lead with 0 only for x = 0, and have positional value x |
| MathUtils.ToBaseSpells | src/Yisoft.Framework/Utilities/MathUtils.cs:49-54 | the string the loop builds has one character per digit, the alphabet's character for that digit |
| MathUtils.IndexOfChar | src/Yisoft.Framework/Utilities/MathUtils.cs:70 | `IndexOf` returns the first position of the character, or -1 when it is absent |
| MathUtils.FromBaseToBase | src/Yisoft.Framework/Utilities/MathUtils.cs:44-71 | over an alphabet without repeated characters, reading the base string back in exact arithmetic gives the input |
| MathUtils.Int64ToBase | src/Yisoft.Framework/Utilities/MathUtils.cs:44-57 | the do-while loop returns the base string of a non-negative input, throws for an empty alphabet, and for a negative input fails or stops after one character as the truncating `%` and `/` dictate |
| MathUtils.PrependDigits | src/Yisoft.Framework/Utilities/MathUtils.cs:49-54 | the loop prepends the digit characters of the remaining quotient, least significant first, to what is already written |
| MathUtils.Int64ToBaseOk | src/Yisoft.Framework/Utilities/MathUtils.cs:44-57 | a non-negative input gives a non-empty string over the alphabet, starting with the zero character only for 0, with positional value equal to the input |
| MathUtils.Int64ToBaseZeroAndNegative | src/Yisoft.Framework/Utilities/MathUtils.cs:51 | 0 is written as the first character; a negative input fails with a negative index unless it is a multiple of the base, which yields the first character alone |
| MathUtils.IntLengthDigits | src/Yisoft.Framework/Utilities/MathUtils.cs:73-99 | `IntLength(i)` is the number of decimal digits of i, 1 for 0, always between 1 and 20 |
| MathUtils.DigitCount | src/Yisoft.Framework/Utilities/MathUtils.cs:73-99 | a number between 10^(k-1) and 10^k has k decimal digits |
| MathUtils.IntToHex | src/Yisoft.Framework/Utilities/MathUtils.cs:101 | every `int` gives a UTF-16 code unit congruent modulo 2^16 to n + 48 up to 9 and n + 87 above; 0..15 give the lowercase hex digit whose value is n |
| MathUtils.IntToHexWraps | src/Yisoft.Framework/Utilities/MathUtils.cs:101 | the `(char)` cast wraps: -49 gives U+FFFF, and n and n + 2^16 give the same code unit |
| MathUtils.Min | src/Yisoft.Framework/Utilities/MathUtils.cs:103 | null only when both are null, otherwise one of the non-null arguments that is at most every non-null argument |
| MathUtils.Max | src/Yisoft.Framework/Utilities/MathUtils.cs:105 | null only when both are null, otherwise one of the non-null arguments that is at least every non-null argument |
| StringUtils.UpperAscii | src/Yisoft.Framework/Utilities/StringUtils.cs:159-160 | the ordinal case-insensitive comparison folds each ASCII letter, keeping the length |
| StringUtils.ToBooleanMeaning | src/Yisoft.Framework/Utilities/StringUtils.cs:155-162 | true exactly for "1" and for "true" or "yes" in any ASCII case; null and empty give false |
| StringUtils.Mask | src/Yisoft.Framework/Utilities/StringUtils.cs:196-225 | null gives null; otherwise the length is kept and exactly the positions from `index` to the 32-bit end computed by the source become the mask character, all others unchanged |
| StringUtils.PadLeft | src/Yisoft.Framework/Utilities/StringUtils.cs:211 | padding the empty string gives `width` copies of the mask character |
| StringUtils.Masked | src/Yisoft.Framework/Utilities/StringUtils.cs:196-225 | the intended mask: same length, positions [index, index + length) inside the string become the mask character, others unchanged |
| StringUtils.MaskWithoutOverflow | src/Yisoft.Framework/Utilities/StringUtils.cs:202-222 | while index + length fits in an `int`, `Mask` overwrites exactly [index, min(index + length, len)) when the index is inside the string and the length positive |
| StringUtils.MaskOverflow | src/Yisoft.Framework/Utilities/StringUtils.cs:205-214 | masking "abc" from 2 with `int.MaxValue` characters wraps the end to a negative number and masks nothing, where "ab*" is meant |
| StringUtils.Escape | src/Yisoft.Framework/Utilities/StringUtils.cs:227-235 | the escape is six characters, `\u` then four hex digits whose value is the code unit |
| StringUtils.UnitNibbles | src/Yisoft.Framework/Utilities/StringUtils.cs:231-234 | four hex digits read back as the 16-bit code unit |
| StringUtils.EscapeDigits | src/Yisoft.Framework/Utilities/StringUtils.cs:231-234 | the four digits are the nibbles at bits 12, 8, 4 and 0, most significant first |
| StringUtils.ToCharAsUnicode | src/Yisoft.Framework/Utilities/StringUtils.cs:227-235 | a buffer of 6 or more gets the escape in positions 0..5 and keeps the rest; a shorter one throws `IndexOutOfRange` after writing what fits |
| StringUtils.FullWidth | src/Yisoft.Framework/Utilities/StringUtils.cs:389-396 | every result is at least 127: space becomes U+3000 and characters below 127 move up by 65248 |
| StringUtils.HalfWidthFullWidth | src/Yisoft.Framework/Utilities/StringUtils.cs:383-419 | converting to half width after full width restores exactly the printable ASCII characters and the characters the half-width map leaves alone |
| StringUtils.ToSbc | src/Yisoft.Framework/Utilities/StringUtils.cs:383-400 | the loop maps every character to full width and keeps the length |
| StringUtils.ToDbc | src/Yisoft.Framework/Utilities/StringUtils.cs:402-419 | the loop maps every character to half width and keeps the length |
| StringUtils.Step | src/Yisoft.Framework/Utilities/StringUtils.cs:330-375 | one pass of the tokenizer loop keeps the token start at most one past the position, and at the position only after a separator |
| StringUtils.ScanTo | src/Yisoft.Framework/Utilities/StringUtils.cs:325-376 | after the loop reaches `pos` the current category is that of the previous character |
| StringUtils.SplitByCharacterType | src/Yisoft.Framework/Utilities/StringUtils.cs:318-381 | the loop over the trimmed characters returns the words the scan specification gives |
| StringUtils.ScanStep | src/Yisoft.Framework/Utilities/StringUtils.cs:330-375 | one iteration of the loop body performs one scan step |
| StringUtils.StepKeeps | src/Yisoft.Framework/Utilities/StringUtils.cs:330-375 | each pass keeps the layout invariant: the words are ordered pieces of the input that end at a category change or before a camel-case capital, with only separators and white space dropped between them |
| StringUtils.ScanKeeps | src/Yisoft.Framework/Utilities/StringUtils.cs:325-376 | the layout invariant holds after every pass of the loop |
| StringUtils.LaidPieces | src/Yisoft.Framework/Utilities/StringUtils.cs:345-373 | every closed word is the piece of the trimmed input at its start, ends at a change, is not blank when empty entries are removed, and words do not overlap |
| StringUtils.SplitWordsLayout | src/Yisoft.Framework/Utilities/StringUtils.cs:321-378 | blank input gives no words; otherwise there is at least one word, the last one runs from its start to the end of the trimmed input, and the others are laid out as above |
| StringUtils.SplitCamelExample | src/Yisoft.Framework/Utilities/StringUtils.cs:336-360 | "xYz-w" splits into "x", "Yz", "w": the dash closes a token and a capital before a lowercase letter starts one |
| StringUtils.SplitKeepsEmptyExample | src/Yisoft.Framework/Utilities/StringUtils.cs:343-373 | without removing empty entries "xYz-w" also yields the empty piece between a dash and the token before it |
| StringUtils.SplitTrailingExample | src/Yisoft.Framework/Utilities/StringUtils.cs:378 | "a-" splits into "a" and an empty final word, which is appended even when empty entries are removed |
| StringUtils.SeparatedCaseSplits | src/Yisoft.Framework/Utilities/StringUtils.cs:237-291 | each joiner gives "" for blank input; otherwise splitting its result at the separator gives back the case-mapped words |
| StringUtils.AllCaseIsEmptySeparator | src/Yisoft.Framework/Utilities/StringUtils.cs:293-295 | `ToAll*Case` is the joiner with the empty separator |
| StringUtils.PascalWord | src/Yisoft.Framework/Utilities/StringUtils.cs:311-312 | a word keeps its length, its first character is upper-cased and the rest lower-cased |
| StringUtils.PascalOf | src/Yisoft.Framework/Utilities/StringUtils.cs:309-313 | the only failure is `IndexOutOfRange` |
| StringUtils.PascalStep | src/Yisoft.Framework/Utilities/StringUtils.cs:309-313 | each word appends its Pascal form, and an empty word throws at `word[0]` |
| StringUtils.ToPascalCase | src/Yisoft.Framework/Utilities/StringUtils.cs:304-316 | the loop over the camel-case split returns the Pascal form of the words, or fails as it does |
| StringUtils.AppendPascalWords | src/Yisoft.Framework/Utilities/StringUtils.cs:309-313 | the `foreach` builds the Pascal form of the words |
| StringUtils.PascalFails | src/Yisoft.Framework/Utilities/StringUtils.cs:311 | Pascal casing fails exactly when some word is empty |
| StringUtils.PascalIgnoringCase | src/Yisoft.Framework/Utilities/StringUtils.cs:304-316 | lower-cased, the Pascal form is the concatenation of the words, lower-cased |
| StringUtils.CamelOf | src/Yisoft.Framework/Utilities/StringUtils.cs:297-302 | camel case fails exactly when Pascal case does, keeps the length, lower-cases only the first character |
| StringUtils.ToCamelCase | src/Yisoft.Framework/Utilities/StringUtils.cs:297-302 | the camel form of the Pascal form of the words |
| StringUtils.PascalTrailingSeparatorFails | src/Yisoft.Framework/Utilities/StringUtils.cs:311 | `ToPascalCase("a-")` throws, because the final empty word is indexed at 0; also line 378 of the same file |
| StringUtils.SplitWordsNotBlank | src/Yisoft.Framework/Utilities/StringUtils.cs:373-378 | with empty entries removed only the final word can be blank |
| StringUtils.SplitWordsNonBlank | src/Yisoft.Framework/Utilities/StringUtils.cs:373-378 | the intended split: the same words, without a blank final word when empty entries are removed |
| StringUtils.PascalNonBlankSucceeds | src/Yisoft.Framework/Utilities/StringUtils.cs:304-316 | over the intended split Pascal casing never fails |
| StringExtensions.DigitPredicates | src/Yisoft.Framework/Extensions/StringExtensions.cs:79-122 | a mobile number is 11 digits starting with '1', a postal code 5 or 6 digits, an area code 3 or 4 digits starting with '0'; null and empty are never numbers only |
| StringExtensions.PresenceMeaning | src/Yisoft.Framework/Extensions/StringExtensions.cs:229-236 | present is the negation of missing (null or white space), and too long adds length > maxLength |
| StringExtensions.EnsureLeadingSlash | src/Yisoft.Framework/Extensions/StringExtensions.cs:239 | a url that starts with '/' is returned unchanged; any other gets one '/' in front, so the result starts with '/' and ends with the url |
| StringExtensions.EnsureTrailingSlash | src/Yisoft.Framework/Extensions/StringExtensions.cs:242 | a url that ends with '/' is returned unchanged; any other gets one '/' after it, so the result ends with '/' and starts with the url |
| StringExtensions.RemoveLeadingSlash | src/Yisoft.Framework/Extensions/StringExtensions.cs:245-250 | null passes through; a url starting with '/' loses exactly that first character, and any other is returned unchanged |
| StringExtensions.RemoveTrailingSlash | src/Yisoft.Framework/Extensions/StringExtensions.cs:253-258 | null passes through; a url ending with '/' loses exactly that last character, and any other is returned unchanged |
| StringExtensions.SlashRoundTrips | src/Yisoft.Framework/Extensions/StringExtensions.cs:239-258 | adding a slash is idempotent, removing undoes adding, and adding undoes removing a single slash |
| StringExtensions.CleanUrlPath | src/Yisoft.Framework/Extensions/StringExtensions.cs:261-268 | blank gives "/"; otherwise one trailing '/' is dropped unless the url is exactly "/" |
| StringExtensions.LocalUrlMeaning | src/Yisoft.Framework/Extensions/StringExtensions.cs:271-281 | a local url starts with "/" or "~/" and never with "//" or "/\\"; "/" and every "~/..." are local; null and empty are not |
| StringExtensions.AddQueryString | src/Yisoft.Framework/Extensions/StringExtensions.cs:284-290 | the url, then '?' when it has none, otherwise '&' unless it already ends with one, then the query |
| StringExtensions.AddHashFragment | src/Yisoft.Framework/Extensions/StringExtensions.cs:293-298 | the url, then '#' exactly when it had none, then the fragment |
| StringExtensions.GetOriginMeaning | src/Yisoft.Framework/Extensions/StringExtensions.cs:300-313 | an origin exists exactly for "http://" and "https://" urls; it is the prefix up to, not including, the first '/' after the scheme's "//" |
| StringExtensions.GetOriginExample | src/Yisoft.Framework/Extensions/StringExtensions.cs:300-313 | the origin of "http://a/b" is "http://a" |
| StringExtensions.ToSpaceSeparatedString | src/Yisoft.Framework/Extensions/StringExtensions.cs:192-204 | the `foreach` that appends each element and a space, then trims, builds the space-separated form; null gives "" |
| StringExtensions.SpaceSeparatedRoundTrip | src/Yisoft.Framework/Extensions/StringExtensions.cs:192-212 | splitting the space-separated form of words without spaces gives the words back |
| StringExtensions.Distinct | src/Yisoft.Framework/Extensions/StringExtensions.cs:220 | `Distinct` keeps every element once and adds none |
| StringExtensions.Insert | src/Yisoft.Framework/Extensions/StringExtensions.cs:224 | inserting into an ascending list keeps it ascending and adds exactly the element |
| StringExtensions.Sort | src/Yisoft.Framework/Extensions/StringExtensions.cs:224 | sorting gives an ascending permutation |
| StringExtensions.BelowTransitive | src/Yisoft.Framework/Extensions/StringExtensions.cs:224 | the ordinal string order is transitive |
| StringExtensions.BelowTotal | src/Yisoft.Framework/Extensions/StringExtensions.cs:224 | the ordinal string order is total |
| StringExtensions.ParseScopesMeaning | src/Yisoft.Framework/Extensions/StringExtensions.cs:214-227 | null exactly for blank input; otherwise a non-empty ascending list holding exactly the space-separated tokens, each once |
| IOUtils.Collapse | src/Yisoft.Framework/Utilities/IOUtils.cs:220-230 | collapsing never lengthens, keeps the first character and introduces no new character |
| IOUtils.CollapseNoDouble | src/Yisoft.Framework/Utilities/IOUtils.cs:227 | the collapsed path has no two adjacent separators |
| IOUtils.CollapseKeeps | src/Yisoft.Framework/Utilities/IOUtils.cs:227 | a path without doubled separators is left as it is |
| IOUtils.ReplaceDouble | src/Yisoft.Framework/Utilities/IOUtils.cs:227 | one `Replace(d, s)` never lengthens, and shortens whenever a doubled separator is present, which is why the loop ends |
| IOUtils.ReplaceDoubleCollapse | src/Yisoft.Framework/Utilities/IOUtils.cs:227 | one replacement does not change the collapsed path the loop is heading for |
| IOUtils.DoubleFound | src/Yisoft.Framework/Utilities/IOUtils.cs:227 | `IndexOf(d)` is -1 exactly when no two adjacent separators remain |
| IOUtils.RemoveDoubleSeperators | src/Yisoft.Framework/Utilities/IOUtils.cs:220-230 | null for null or empty; otherwise the loop ends with the collapsed path, which has no doubled separator |
| IOUtils.FixPath | src/Yisoft.Framework/Utilities/IOUtils.cs:185-195 | the method computes the fixed path or throws as the specification says |
| IOUtils.FixPathMeaning | src/Yisoft.Framework/Utilities/IOUtils.cs:185-222 | null and "" throw; otherwise only the separator stands for '/' and '\\', none is doubled or leading, and a non-empty result ends in one |
| IOUtils.FixPathAllSeparators | src/Yisoft.Framework/Utilities/IOUtils.cs:189-192 | a path made only of separators fixes to "" |
| IOUtils.FormatPath | src/Yisoft.Framework/Utilities/IOUtils.cs:203-212 | null throws, and so does "" under a non-empty app path; otherwise the result starts with the app path and ends with the path, with one '/' inserted when the path does not begin with a slash |
| IOUtils.DropLastSegment | src/Yisoft.Framework/Utilities/IOUtils.cs:241 | removing the last segment keeps the prefix up to and including the last '/' |
| IOUtils.GetDirectoryPath | src/Yisoft.Framework/Utilities/IOUtils.cs:237-242 | null for null or empty; otherwise the path with '\\' turned into '/' and cut after its last '/' |
| IOUtils.GetDirectoryPathIdempotent | src/Yisoft.Framework/Utilities/IOUtils.cs:237-242 | taking the directory of a directory changes nothing |
| ValidationUtils.MobileIsValidPhone | src/Yisoft.Framework/Utilities/ValidationUtils.cs:20 | a mobile number is a valid phone number, and an all-digit valid phone number is a mobile number |
| ValidationUtils.ContainsChar | src/Yisoft.Framework/Utilities/ValidationUtils.cs:26-27 | `Contains` of a one-character string is membership |
| ValidationUtils.ValidEmailShape | src/Yisoft.Framework/Utilities/ValidationUtils.cs:22-32 | a valid address has an '@' and a '.' strictly inside it and no '@' directly followed by '.' |
| ValidationUtils.EmailExamples | src/Yisoft.Framework/Utilities/ValidationUtils.cs:22-32 | "a@b.c" is valid; "@b.c", "a@.c", "a@b." and "abc" are not |
| HostingEnvironments.NormalizeEnvName | src/Yisoft.Framework/HostingEnvironments.cs:32-37 | blank gives the default, or "" when the default is null; otherwise the name lower-cased character by character |
| HostingEnvironments.PostfixMeaning | src/Yisoft.Framework/HostingEnvironments.cs:39-48 | null input throws; otherwise the input is kept in front and followed by nothing exactly when the normalised name is the hidden value, else by '_' and the name |
| HostingEnvironments.PostfixBlankName | src/Yisoft.Framework/HostingEnvironments.cs:34-45 | a blank name adds nothing under a hidden value and "_" alone under a null one |
| ChineseZodiacs.FromNumber | src/Yisoft.Framework/ChineseZodiac.cs:21-100 | the cast `(ChineseZodiac) n` of 0..12 is `Unknown` exactly for 0 |
| DateTimeExtensions.DaysInMonth | src/Yisoft.Framework/Extensions/DateTimeExtensions.cs:106-141 | every month of the Gregorian calendar has 28 to 31 days, which bounds a valid `DateTime` |
| DateTimeExtensions.Make | src/Yisoft.Framework/Extensions/DateTimeExtensions.cs:106-141 | `new DateTime(y, mo, d, h, mi, s)` of valid parts is a valid value with no fraction and unspecified kind |
| DateTimeExtensions.GetChineseZodiac | src/Yisoft.Framework/Extensions/DateTimeExtensions.cs:33-40 | the zodiac of a valid year is never `Unknown` |
| DateTimeExtensions.ZodiacClosedForm | src/Yisoft.Framework/Extensions/DateTimeExtensions.cs:35-39 | the zodiac is number (year + 8) mod 12 + 1 |
| DateTimeExtensions.ZodiacPeriod | src/Yisoft.Framework/Extensions/DateTimeExtensions.cs:35-39 | years twelve apart have the same zodiac |
| DateTimeExtensions.ZodiacYearsFrom2017 | test/Yisoft.Framework.XUnitTest/ChineseZodiacUnitTest.cs:30-34 | 2017 to 2021 are Cock, Dog, Boar, Rat and Ox |
| DateTimeExtensions.ZodiacYearsFrom2022 | test/Yisoft.Framework.XUnitTest/ChineseZodiacUnitTest.cs:35-37 | 2022 to 2024 are Tiger, Hare and Dragon |
| DateTimeExtensions.ZodiacYearsFrom2025 | test/Yisoft.Framework.XUnitTest/ChineseZodiacUnitTest.cs:38-39 | 2025 and 2026 are Snake and Horse |
| DateTimeExtensions.ZodiacYearsFrom2027 | test/Yisoft.Framework.XUnitTest/ChineseZodiacUnitTest.cs:40-43 | 2027 to 2030 are Sheep, Monkey, Cock and Dog |
| DateTimeExtensions.FirstCovering | src/Yisoft.Framework/Extensions/DateTimeExtensions.cs:49-53 | `Where(...).FirstOrDefault()` gives a listed sign whose range covers the date, and `Unknown` only when none does |
| DateTimeExtensions.GetStarSign | src/Yisoft.Framework/Extensions/DateTimeExtensions.cs:47-54 | a sign other than `Unknown` covers the date's month and day |
| DateTimeExtensions.CoversExactlyCalendar | src/Yisoft.Framework/Constellation.cs:21-100 | for any month and day, exactly one sign of the table covers it, the one of the zodiac calendar |
| DateTimeExtensions.FirstCoveringFinds | src/Yisoft.Framework/Extensions/DateTimeExtensions.cs:49-53 | when exactly one listed sign covers a date, the first-match query returns it |
| DateTimeExtensions.StarSignUnique | src/Yisoft.Framework/Extensions/DateTimeExtensions.cs:47-54 | every valid date has a sign, never `Unknown`, and it is the only sign that covers the date |
| DateTimeExtensions.AccurateToMinute | src/Yisoft.Framework/Extensions/DateTimeExtensions.cs:106 | same date, hour and minute, no seconds |
| DateTimeExtensions.TenMinuteMark | src/Yisoft.Framework/Extensions/DateTimeExtensions.cs:110-117 | the if-chain gives the minute rounded down to a multiple of 10 |
| DateTimeExtensions.AccurateTo10Minute | src/Yisoft.Framework/Extensions/DateTimeExtensions.cs:108-120 | same date and hour, the minute rounded down to a multiple of 10, no seconds |
| DateTimeExtensions.QuarterMark | src/Yisoft.Framework/Extensions/DateTimeExtensions.cs:124-129 | the if-chain gives the minute rounded down to a multiple of 15 |
| DateTimeExtensions.AccurateTo15Minute | src/Yisoft.Framework/Extensions/DateTimeExtensions.cs:122-132 | same date and hour, the minute rounded down to a multiple of 15, no seconds |
| DateTimeExtensions.AccurateTo30MinuteAsWritten | src/Yisoft.Framework/Extensions/DateTimeExtensions.cs:134-139 | same date and hour, minute 0 up to and including minute 30 and 30 after it |
| DateTimeExtensions.HalfPastDropsToHour | src/Yisoft.Framework/Extensions/DateTimeExtensions.cs:136 | 12:30 goes to 12:00 although the quarter-hour truncation keeps 12:30, and truncating 12:35 to ten minutes first changes the half-hour result |
| DateTimeExtensions.AccurateTo30Minute | src/Yisoft.Framework/Extensions/DateTimeExtensions.cs:134-139 | the intended half-hour truncation: the minute rounded down to a multiple of 30 |
| DateTimeExtensions.AccurateToHour | src/Yisoft.Framework/Extensions/DateTimeExtensions.cs:141 | same date and hour, no minutes or seconds |
| DateTimeExtensions.TruncationsCompose | src/Yisoft.Framework/Extensions/DateTimeExtensions.cs:106-141 | every truncation is idempotent, and a coarser one after a finer one equals the coarser one alone |
| TimeSpanExtensions.FromParts | src/Yisoft.Framework/Extensions/TimeSpanExtensions.cs:22-28 | `new TimeSpan(d, h, m, s)` within range holds the total seconds in ticks |
| TimeSpanExtensions.NestedUnits | src/Yisoft.Framework/Extensions/TimeSpanExtensions.cs:22-28 | truncating quotients nest: minutes are whole seconds divided by 60, and so on up to days |
| TimeSpanExtensions.PartsAddUp | src/Yisoft.Framework/Extensions/TimeSpanExtensions.cs:22-28 | the `Days`, `Hours`, `Minutes` and `Seconds` components add up to the truncated total of each unit |
| TimeSpanExtensions.TrimToSeconds | src/Yisoft.Framework/Extensions/TimeSpanExtensions.cs:22 | the ticks truncated toward zero to whole seconds |
| TimeSpanExtensions.TrimToMinutes | src/Yisoft.Framework/Extensions/TimeSpanExtensions.cs:24 | the ticks truncated toward zero to whole minutes |
| TimeSpanExtensions.TrimToHours | src/Yisoft.Framework/Extensions/TimeSpanExtensions.cs:26 | the ticks truncated toward zero to whole hours |
| TimeSpanExtensions.TrimToDays | src/Yisoft.Framework/Extensions/TimeSpanExtensions.cs:28 | the ticks truncated toward zero to whole days |
| TimeSpanExtensions.TruncateTowardZero | src/Yisoft.Framework/Extensions/TimeSpanExtensions.cs:22-28 | truncation moves toward zero by less than one unit and never past it |
| TimeSpanExtensions.TrimToSecondsKeeps | src/Yisoft.Framework/Extensions/TimeSpanExtensions.cs:22 | the magnitude does not grow, days to seconds are kept, and trimming twice changes nothing |
| TimeSpanExtensions.TrimToMinutesKeeps | src/Yisoft.Framework/Extensions/TimeSpanExtensions.cs:24 | the magnitude does not grow, days to minutes are kept and seconds zeroed, it is idempotent, and trimming seconds first changes nothing |
| TimeSpanExtensions.TrimToHoursKeeps | src/Yisoft.Framework/Extensions/TimeSpanExtensions.cs:26 | the magnitude does not grow, days and hours are kept and the rest zeroed, it is idempotent, and trimming minutes first changes nothing |
| TimeSpanExtensions.TrimToDaysKeeps | src/Yisoft.Framework/Extensions/TimeSpanExtensions.cs:28 | the magnitude does not grow, days are kept and the rest zeroed, it is idempotent, and trimming hours first changes nothing |
| GroupQueues.Taken | src/Yisoft.Framework/Collections/Generic/GroupQueue.cs:23-28 | `Dequeue(count)` takes `count` items when there are that many and the count is positive, otherwise all of them |
| GroupQueues.GroupQueue.constructor | src/Yisoft.Framework/Collections/Generic/GroupQueue.cs:13 | a new queue is empty |
| GroupQueues.GroupQueue.FromCollection | src/Yisoft.Framework/Collections/Generic/GroupQueue.cs:15 | the queue holds the collection in order |
| GroupQueues.GroupQueue.WithCapacity | src/Yisoft.Framework/Collections/Generic/GroupQueue.cs:17 | a queue with a capacity starts empty |
| GroupQueues.GroupQueue.Enqueue | src/Yisoft.Framework/Collections/Generic/GroupQueue.cs:11 | the inherited `Enqueue` adds at the back |
| GroupQueues.GroupQueue.DequeueOne | src/Yisoft.Framework/Collections/Generic/GroupQueue.cs:25 | the inherited `Dequeue` removes and returns the front |
| GroupQueues.GroupQueue.Dequeue | src/Yisoft.Framework/Collections/Generic/GroupQueue.cs:19-31 | the returned items followed by what is left are the old queue, and as many are returned as `Taken` says: min(count, Count) for a positive count, everything otherwise |
| GroupQueues.FirstInFirstOut | src/Yisoft.Framework/Collections/Generic/GroupQueue.cs:19-31 | items come out in the order they went in: the whole batch, or its first `count` items |
| StringBuilderExtensions.StringBuilder.Append | src/Yisoft.Framework/Extensions/StringBuilderExtensions.cs:44 | `Append` adds the text at the end |
| StringBuilderExtensions.StringBuilder.Shorten | src/Yisoft.Framework/Extensions/StringBuilderExtensions.cs:49 | lowering `Length` by n drops the last n characters |
| StringBuilderExtensions.Rendered | src/Yisoft.Framework/Extensions/StringBuilderExtensions.cs:42 | each value is rendered by the join action, in order |
| StringBuilderExtensions.AppendEach | src/Yisoft.Framework/Extensions/StringBuilderExtensions.cs:40-47 | the `foreach` appends every rendered value followed by the separator after the old content |
| StringBuilderExtensions.AppendJoinWith | src/Yisoft.Framework/Extensions/StringBuilderExtensions.cs:32-52 | the same builder is returned, with the old content kept as a prefix and then the rendered values joined by the separator, none trailing; an empty sequence changes nothing |
| StringBuilderExtensions.AppendJoin | src/Yisoft.Framework/Extensions/StringBuilderExtensions.cs:24-30 | the string overload appends the values, null as empty, joined by the separator, ", " by default |
| StringBuilderExtensions.AppendedSplitsBack | src/Yisoft.Framework/Extensions/StringBuilderExtensions.cs:38-49 | when no rendered value holds the separator character, splitting what was appended gives the values back |
| Hashers.LongHashNonNegative | src/Yisoft.Framework/Utilities/Hasher.cs:51 | a `long` in the `int` range hashes to itself |
| Hashers.LongHashNegative | src/Yisoft.Framework/Utilities/Hasher.cs:51 | a negative `long` in the `int` range hashes to -1 - v, its low word exclusive-or the all-ones high word |
| Hashers.ValueHash | src/Yisoft.Framework/Utilities/Hasher.cs:58-81 | null contributes -1 |
| Hashers.Hasher.constructor | src/Yisoft.Framework/Utilities/Hasher.cs:25 | the state starts at 17 |
| Hashers.Hasher.WithSeed | src/Yisoft.Framework/Utilities/Hasher.cs:27 | the state starts at the seed |
| Hashers.Hasher.GetHashCode | src/Yisoft.Framework/Utilities/Hasher.cs:29-33 | returns the state and changes nothing |
| Hashers.Hasher.HashBool | src/Yisoft.Framework/Utilities/Hasher.cs:35-40 | the state becomes 37·h + (1 or 0), wrapped, and the same hasher is returned |
| Hashers.Hasher.HashInt | src/Yisoft.Framework/Utilities/Hasher.cs:42-47 | the state becomes 37·h + v, wrapped, and the same hasher is returned |
| Hashers.Hasher.HashLong | src/Yisoft.Framework/Utilities/Hasher.cs:49-54 | the state becomes 37·h plus the `long` hash, wrapped, and the same hasher is returned |
| Hashers.Hasher.HashValue | src/Yisoft.Framework/Utilities/Hasher.cs:56-69 | the state becomes 37·h plus the value's hash, or -1 for null, and the same hasher is returned |
| Hashers.Hasher.HashElements | src/Yisoft.Framework/Utilities/Hasher.cs:71-86 | a null sequence folds in one -1; otherwise the elements are folded in left to right, null as -1 |
| Hashers.Hasher.HashStructElements | src/Yisoft.Framework/Utilities/Hasher.cs:88-96 | the elements are folded in left to right |
| Hashers.ValueHashes | src/Yisoft.Framework/Utilities/Hasher.cs:79-82 | each element contributes its hash, null -1, in order |
| Hashers.Hashes | src/Yisoft.Framework/Utilities/Hasher.cs:90-93 | each element contributes its hash, in order |
| Hashers.WrapCombine | src/Yisoft.Framework/Utilities/Hasher.cs:37 | wrapping before or after the step 37·h + v gives the same 32-bit state |
| Hashers.FoldIsPolynomial | src/Yisoft.Framework/Utilities/Hasher.cs:35-96 | the state after a fold is the polynomial h·37^n + Σ v_i·37^(n-1-i) wrapped to 32 bits |
| Hashers.FoldAppend | src/Yisoft.Framework/Utilities/Hasher.cs:71-96 | hashing a + b is hashing a and then b |
| Hashers.ElementsEdgeCases | src/Yisoft.Framework/Utilities/Hasher.cs:71-86 | a sequence holding one null folds like a null sequence, and an empty one leaves the state unchanged |
| Hashers.HashOneTwo | src/Yisoft.Framework/Utilities/Hasher.cs:25-47 | hashing 1 and then 2 from a fresh hasher gives 23312 |
| ObjectCompare.ObjectCompareContext.constructor | src/Yisoft.Framework/ObjectCompareContext.cs:10-14 | the context keeps the object and starts at value 0 |
| ObjectCompare.NullOrder | src/Yisoft.Framework/Extensions/ObjectCompareExtensions.cs:35-37 | 0 exactly when both are non-null, otherwise -1 or 1 |
| ObjectCompare.NullOrderSwap | src/Yisoft.Framework/Extensions/ObjectCompareExtensions.cs:35-37 | swapping the arguments negates the order when one is null, and both null gives -1 either way |
| ObjectCompare.CompareWith | src/Yisoft.Framework/Extensions/ObjectCompareExtensions.cs:31-39 | a fresh context for the object whose value is the null order |
| ObjectCompare.Then | src/Yisoft.Framework/Extensions/ObjectCompareExtensions.cs:41-48 | the same context is returned; a non-zero value is kept, and a zero value becomes the comparison's result |
| ObjectCompare.End | src/Yisoft.Framework/Extensions/ObjectCompareExtensions.cs:57 | returns the context's value |
| ObjectCompare.FirstNonZeroMeaning | src/Yisoft.Framework/Extensions/ObjectCompareExtensions.cs:41-57 | the first non-zero result of a list, or 0 exactly when all are 0 |
| ObjectCompare.Applied | src/Yisoft.Framework/Extensions/ObjectCompareExtensions.cs:45 | each comparison is applied to the context's object |
| ObjectCompare.CompareChain | src/Yisoft.Framework/Extensions/ObjectCompareExtensions.cs:31-57 | a chain `CompareWith(...).Then(...)...End()` yields the first non-zero comparison, starting with the null order, or 0 |
| NameValueCollections.Keys | src/Yisoft.Framework/Extensions/NameValueCollectionExtensions.cs:55 | `AllKeys` lists the keys in insertion order |
| NameValueCollections.Find | src/Yisoft.Framework/Extensions/NameValueCollectionExtensions.cs:42-61 | the first entry whose key equals the name ignoring case, or -1 when there is none |
| NameValueCollections.OneString | src/Yisoft.Framework/Extensions/NameValueCollectionExtensions.cs:61 | a key with one value reads as that value |
| NameValueCollections.SetValue | src/Yisoft.Framework/Extensions/NameValueCollectionExtensions.cs:42 | `Set` replaces the values of an existing key in place or adds the key at the end |
| NameValueCollections.NameValueCollection.constructor | src/Yisoft.Framework/Json/Converters/NameValueCollectionConverter.cs:28 | a new collection is empty |
| NameValueCollections.NameValueCollection.Set | src/Yisoft.Framework/Extensions/NameValueCollectionExtensions.cs:42 | the entries become those `SetValue` describes |
| NameValueCollections.IgnoreCaseSymmetric | src/Yisoft.Framework/Extensions/NameValueCollectionExtensions.cs:42 | equality ignoring case is symmetric |
| NameValueCollections.FindByKeys | src/Yisoft.Framework/Extensions/NameValueCollectionExtensions.cs:42-61 | lookup depends only on the keys |
| NameValueCollections.SetValueMeaning | src/Yisoft.Framework/Extensions/NameValueCollectionExtensions.cs:42 | after `Set` the key reads as the new value, other keys read as before, and keys stay distinct: the last pair wins |
| NameValueCollections.Pair | src/Yisoft.Framework/Extensions/NameValueCollectionExtensions.cs:40-42 | an item that is stored has a non-empty key and value |
| NameValueCollections.ReadQueryString | src/Yisoft.Framework/Extensions/NameValueCollectionExtensions.cs:32-44 | null throws and leaves the collection alone; otherwise each non-empty '&' item with exactly two non-empty '=' parts is `Set` in order |
| NameValueCollections.PairEmptySides | src/Yisoft.Framework/Extensions/NameValueCollectionExtensions.cs:40-42 | "a=" and "=b" are ignored |
| NameValueCollections.PairExtraSeparators | src/Yisoft.Framework/Extensions/NameValueCollectionExtensions.cs:40-42 | "a=b=c" is ignored, while "a==b" stores a with value b |
| NameValueCollections.ToQueryString | src/Yisoft.Framework/Extensions/NameValueCollectionExtensions.cs:51-65 | the loop writes key=value for every key in `AllKeys` order, joined by '&'; an empty collection gives "" |
| NameValueCollections.SplitItems | src/Yisoft.Framework/Extensions/NameValueCollectionExtensions.cs:36 | splitting the '&'-joined items gives them back |
| NameValueCollections.PairOfItem | src/Yisoft.Framework/Extensions/NameValueCollectionExtensions.cs:40-42 | an item key=value without '&' or '=' in either part reads back as the pair |
| NameValueCollections.ReadEntries | src/Yisoft.Framework/Extensions/NameValueCollectionExtensions.cs:38-43 | reading well-formed items into an empty collection gives one entry per pair, in order |
| NameValueCollections.LookupEntriesOf | src/Yisoft.Framework/Extensions/NameValueCollectionExtensions.cs:61 | the first entry with a key reads as its value |
| NameValueCollections.WrittenKey | src/Yisoft.Framework/Extensions/NameValueCollectionExtensions.cs:57-61 | each key adds '&' when something was written, then key=value |
| NameValueCollections.WrittenItems | src/Yisoft.Framework/Extensions/NameValueCollectionExtensions.cs:55-62 | the first m keys write the first m items joined by '&' |
| NameValueCollections.WrittenEntriesOf | src/Yisoft.Framework/Extensions/NameValueCollectionExtensions.cs:51-65 | writing the entries of well-formed pairs gives their items joined by '&' |
| NameValueCollections.QueryStringRoundTrip | src/Yisoft.Framework/Extensions/NameValueCollectionExtensions.cs:32-65 | for distinct plain keys and plain values, reading a written query string and writing it again gives the same string, with no percent-encoding in either direction |

## Left out

**Outside the model**

- HTTP clients, object pools, streams, file and directory I/O, reflection and enum metadata, JSON, and regex-based helpers. These are outside the modelled core.
- Floating point:
  - `FileSizeFormat`, `Int64FromBase` (via `Math.Pow`), `ApproxEquals`, `Max(double?)`;
  - the `Rate` of `LevenshteinDistanceResult` and its ordering.
  - `MathUtils.FromBaseToBase` reads a base string in exact integer arithmetic instead.
- Byte counts under an encoding: `StringUtils.SubString` and `GetBytesLength`.
- The XXTEA string overloads (Base64 per section 4 of RFC 4648, and UTF-8). Only the byte-array `Encrypt`/`Decrypt` are modelled.
- Clock-based members: `GetDateDiffOfNow`, `CalculateAge`, `HasExceeded`, `HasExpired`, `GetLifetimeInSeconds`.
- `DateTimeExtensions.ToTimestamp` delegates to `DateTimeUtils.ToTimeStamp`, whose epoch conversion is not part of this model.

**Abstracted as parameters**

- The keyed hash (HMAC) of `TokenAlgorithm` is a function parameter. Its random positions, random salt draws and current time are passed in as values.
- `CharUnicodeInfo.GetUnicodeCategory`, `char.IsDigit`, `char.ToUpper`/`ToLower` and the regex word class `\w` are function parameters. No Unicode tables are encoded.
- Dafny `char` is a Unicode scalar value, not a UTF-16 code unit, so surrogate halves are not represented. The `\uXXXX` escape and full/half width take characters below U+10000.
- `GetHashCode` of arbitrary values and `IEqualityComparer<T>` are function parameters. `Hasher` fixes only the `bool`, `int` and `long` hashes.
- The `joinAction` of `AppendJoin<T>` is a rendering function from a value to the text it appends. An action that does anything else to the builder is not modelled.

**Deliberately weaker or narrower contracts**

- StringExtensions.EnsureLeadingSlash: `StartsWith("/")` uses the current culture in the source, which skips ignorable characters such as U+00AD and equates composed and decomposed forms; the model compares ordinally.
- StringExtensions.RemoveLeadingSlash: `StartsWith("/")` uses the current culture in the source, which skips ignorable characters such as U+00AD and equates composed and decomposed forms; the model compares ordinally.
- StringExtensions.EnsureTrailingSlash: `EndsWith("/")` uses the current culture in the source, which skips ignorable characters such as U+00AD and equates composed and decomposed forms; the model compares ordinally.
- StringExtensions.RemoveTrailingSlash: `EndsWith("/")` uses the current culture in the source, which skips ignorable characters such as U+00AD and equates composed and decomposed forms; the model compares ordinally.
- StringExtensions.CleanUrlPath: `EndsWith("/")` uses the current culture in the source, which skips ignorable characters such as U+00AD and equates composed and decomposed forms; the model compares ordinally.
- StringExtensions.AddQueryString: `EndsWith("&")` uses the current culture in the source, which skips ignorable characters such as U+00AD and equates composed and decomposed forms; the model compares ordinally.
- StringExtensions.GetOriginMeaning: the `StartsWith("http://")` and `StartsWith("https://")` tests of `GetOrigin` use the current culture in the source; the model compares prefixes ordinally.
- IOUtils.FormatPath: `StartsWith(appPath, StringComparison.CurrentCulture)` is modelled as an ordinal prefix test, so culture equivalences (ignorable characters, composed and decomposed forms) are not modelled.
- IOUtils.ReplaceDouble: `Replace(d, s, StringComparison.CurrentCulture)` is modelled as ordinal replacement of the doubled separator.
- Formats.Scan: the sign is recognised as the characters '+' and '-'; `Convert.ToInt32` takes its positive and negative signs from the current culture's `NumberFormatInfo`, which may be other strings (U+2212 MINUS SIGN, for example). This only changes which tokens are malformed.
- Formats.ParseInt32: inherits the fixed '+'/'-' signs of `Formats.Scan`, so a token signed with a culture's other sign string fails here where the source may accept it.
- ValidationUtils.IsValidPhoneNumber: `StartsWith("1")` uses the current culture in the source; the model tests the first character ordinally.
- ValidationUtils.IsValidEmailAddress: the `StartsWith`/`EndsWith` tests of "@" and "." use the current culture in the source; the model tests the first and last characters ordinally.
- NameValueCollections.Find: the key is compared with the invariant culture ignoring case in the source (`NameValueCollection`'s default key comparer); the model folds only the ASCII letters, so keys that differ only in non-ASCII case stay apart.
- NameValueCollections.SetValue: the key is compared with the invariant culture ignoring case in the source (`NameValueCollection`'s default key comparer); the model folds only the ASCII letters, so keys that differ only in non-ASCII case stay apart.
- NameValueCollections.NameValueCollection.Set: the key is compared with the invariant culture ignoring case in the source (`NameValueCollection`'s default key comparer); the model folds only the ASCII letters, so keys that differ only in non-ASCII case stay apart.
- NameValueCollections.ReadQueryString: each key it sets is compared with the invariant culture ignoring case in the source (`NameValueCollection`'s default key comparer); the model folds only the ASCII letters, so keys that differ only in non-ASCII case stay apart.
- EditDistance.Cost: the table cells are unbounded sums of the caller's weights. The source keeps them in `int` cells, which wrap once accumulated weights pass `int.MaxValue`; the model's distance is the exact one.
- StringDistances.FillCosts: computes the unbounded `EditDistance.Cost`, so it matches the source only while the accumulated weights stay inside the `int` range.
- StringDistances.StringDistance.LevenshteinDistance: computes the unbounded `EditDistance.Cost`, so it matches the source only while the accumulated weights stay inside the `int` range.
- StringDistances.StringDistance.LevenshteinChoices: computes the unbounded `EditDistance.Cost`, so it matches the source only while the accumulated weights stay inside the `int` range.
- Slices.Set: writes at the exact `Offset + index`. On a well-formed window over an array shorter than 2^31 this is the wrapped position as well (`Slices.GetAgrees` proves it for the getter); windows the guard as written lets through are described under "Findings".
- StringDistances.StringDistance.DiffWords: tokenises with a hand-written splitter (word runs, white-space runs, single other characters) rather than the regex `([\w\d]+|\s+|.)`.
- StringDistances.StringDistance.DiffText: models only the path that keeps line-ending differences. The other path calls a `Lines()` extension, which is not part of this model.
- MathUtils.Int64ToBase: requires an alphabet other than a single character when the input is positive. With one character the source loops forever.
- IOUtils.GetDirectoryPath: `path.Replace("\\", "/", StringComparison.CurrentCulture)` (IOUtils.cs:241) is modelled as ordinal replacement of each backslash by '/', so culture equivalences are not captured: under ICU a backslash followed by a combining mark such as U+0301 is not matched and is kept, so the source can return a different directory (for "a\\\u0301b" .NET gives "" where the model gives "a/"). On the text after that replacement, the regex replacement of `[^/]+?$` is modelled as removing the text after the last '/'; `$` also matches before a final '\n', but `Regex.Replace` removes every match, and that '\n' is a second match, so for this step the regex and `DropLastSegment` agree.
- StringExtensions.ParseScopesMeaning: sorts with the ordinal string order. The source's culture-sensitive default sort is not modelled.
- `ObjectCompare` culture comparisons: the `CompareTo(string, string, culture)` helpers are not modelled.
- StringUtils.SplitWordsLayout: proves that every word is a correctly cut piece of the trimmed input, with only separators and white space between words. It does not state the converse: that every category change inside the input closes a word.
- Xxtea.XxteaManaged.Encrypt: requires at most 0x7FFFFFF8 bytes, so the packed array with its length word fits an `int`-indexed .NET array.
- Xxtea.XxteaManaged.Decrypt: requires fewer than 2^31 bytes, for the same reason.
- GroupQueues.GroupQueue.WithCapacity: the capacity is only a sizing hint. Only the throw on a negative value matters, and a negative value is excluded here.
- BidirectionalDictionaries.Create: the capacity is likewise only a sizing hint, and only the throw on a negative value is modelled.
- TimeSpanExtensions.FromParts: excludes components whose total overflows a `TimeSpan`. A `TimeSpan` that is already valid never reaches that case.
- Hashers.Hasher.HashStructElements: takes a non-null sequence. The source throws on `null`, like any `foreach` over `null`.
- BidirectionalDictionaries.BidirectionalDictionary: custom key and value comparers passed to the constructor are not modelled. Keys and values are compared with Dafny equality, which stands for the default comparers.
- Null receivers of extension methods that dereference them (for example `IsChinaMobilePhoneNumber`, `EnsureLeadingSlash`, `ToSBC`) throw in the source. Here they take non-null strings.
- Other reference-type arguments the source uses without a null check are likewise non-null here, so the exception a null would raise is not modelled. Examples: a null `values` or, once something has been appended, a null `separator` of `AppendJoin<T>` (StringBuilderExtensions.cs:32-52) throws `NullReferenceException`; a null `appPath` makes `FormatPath`'s `StartsWith` throw `ArgumentNullException`. Some null arguments do not throw in the source and are not representable here either: a null `query` of `AddQueryString` makes `url + query` append nothing, so the result is the url followed by the '?' or '&' (StringExtensions.cs:284-290); a null element of `ToSpaceSeparatedString` makes `element + " "` append a lone space (StringExtensions.cs:200).
- Levenshtein.Compute: its `Rate` field is dropped. The distance is proved to lie below the rate's divisor, so the rate is in (0, 1].

## Findings

| source | as written | input that shows it | evidently intended | confidence | as-written member | corrected member |
|---|---|---|---|---|---|---|
| src/Yisoft.Framework/Utilities/StringUtils.cs:205-214 | `index + length` is computed in 32-bit arithmetic and wraps | `Mask("abc", 2, int.MaxValue)` masks nothing and returns "abc" | positions from `index` to the end become the mask character: "ab*" | high, not executed | StringUtils.MaskOverflow | StringUtils.Masked |
| src/Yisoft.Framework/Utilities/StringUtils.cs:311 | the final token is appended even when it is empty (line 378), and `ToPascalCase` reads `word[0]` | `ToPascalCase("a-")` splits into "a" and "", then throws `IndexOutOfRangeException` | empty entries removed, as the split option requests, so Pascal casing succeeds | high, not executed | StringUtils.PascalTrailingSeparatorFails | StringUtils.PascalNonBlankSucceeds |
| src/Yisoft.Framework/Extensions/DateTimeExtensions.cs:136 | minutes up to and including 30 map to 0 | 12:30 becomes 12:00, while the quarter-hour truncation keeps 12:30 | minutes rounded down to a multiple of 30, like the 10- and 15-minute truncations | medium, not executed | DateTimeExtensions.HalfPastDropsToHour | DateTimeExtensions.AccurateTo30Minute |
| src/Yisoft.Framework/IntelligentAlgorithms/Slice.cs:20 | `offset + length` is computed in 32-bit `int` and wraps | `new Slice<T>(new T[0], int.MaxValue, 1)` passes the guard, a window past the end of an empty array | offset + length checked without overflow, so the window lies inside the array | high, not executed | Slices.GuardOverflow | Slices.Create |
| src/Yisoft.Framework/IntelligentAlgorithms/Slice.cs:20 | a negative offset or length is not rejected | `new Slice<T>(a, -1, 1)` passes; `this[0]` reads `a[-1]` and throws while enumeration yields `a[0]` | negative offsets and lengths rejected, so indexer and enumeration agree | high, not executed | Slices.NegativeOffsetDisagrees | Slices.Create |
