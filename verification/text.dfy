/** The .NET string primitives the modelled code calls, written out over `seq<char>`.
  * Comparisons are ordinal (character by character). */
module Text {
  import opened Wrappers

  /** `char.IsWhiteSpace`: the Unicode space separators, line and paragraph separators,
    * and the control characters U+0009..U+000D and U+0085. */
  predicate IsWhiteSpace(c: char)
  {
    ('\U{0009}' <= c <= '\U{000D}') || c == ' ' || c == '\U{0085}' || c == '\U{00A0}'
    || c == '\U{1680}' || ('\U{2000}' <= c <= '\U{200A}') || c == '\U{2028}' || c == '\U{2029}'
    || c == '\U{202F}' || c == '\U{205F}' || c == '\U{3000}'
  }

  /** `s ?? string.Empty`, and `array ?? Array.Empty<T>()` */
  function OrEmpty<T>(s: Option<seq<T>>): (r: seq<T>)
    ensures s.Some? ==> r == s.value
    ensures s.None? ==> r == []
  {
    if s.None? then [] else s.value
  }

  predicate IsNullOrEmpty(s: Option<string>)
  {
    s.None? || |s.value| == 0
  }

  predicate AllWhiteSpace(s: string)
  {
    forall i :: 0 <= i < |s| ==> IsWhiteSpace(s[i])
  }

  /** `string.IsNullOrWhiteSpace` */
  predicate IsNullOrWhiteSpace(s: Option<string>)
  {
    s.None? || AllWhiteSpace(s.value)
  }

  function TrimStart(s: string): (r: string)
    ensures |r| <= |s| && r == s[|s| - |r|..]
    ensures |r| > 0 ==> !IsWhiteSpace(r[0])
    ensures AllWhiteSpace(s[..|s| - |r|])
  {
    if |s| > 0 && IsWhiteSpace(s[0]) then TrimStart(s[1..]) else s
  }

  function TrimEnd(s: string): (r: string)
    ensures |r| <= |s| && r == s[..|r|]
    ensures |r| > 0 ==> !IsWhiteSpace(r[|r| - 1])
    ensures AllWhiteSpace(s[|r|..])
  {
    if |s| > 0 && IsWhiteSpace(s[|s| - 1]) then TrimEnd(s[..|s| - 1]) else s
  }

  /** `string.Trim()` */
  function Trim(s: string): string
  {
    TrimEnd(TrimStart(s))
  }

  /** `string.Trim(c)`: strips every leading and trailing occurrence of `c`. */
  function TrimChar(s: string, c: char): (r: string)
    ensures |r| <= |s|
    ensures |r| > 0 ==> r[0] != c && r[|r| - 1] != c
    decreases |s|
  {
    if |s| > 0 && s[0] == c then TrimChar(s[1..], c)
    else if |s| > 0 && s[|s| - 1] == c then TrimChar(s[..|s| - 1], c)
    else s
  }

  /** `string.Split(sep)`: keeps empty entries, so the result is never empty. */
  function Split(s: string, sep: char): (r: seq<string>)
    ensures |r| >= 1
    decreases |s|
  {
    if |s| == 0 then [""]
    else
      var rest := Split(s[1..], sep);
      if s[0] == sep then [""] + rest else [[s[0]] + rest[0]] + rest[1..]
  }

  /** The entries of `parts` that are not empty (`StringSplitOptions.RemoveEmptyEntries`). */
  function NonEmpty(parts: seq<string>): (r: seq<string>)
    ensures |r| <= |parts|
    ensures forall i :: 0 <= i < |r| ==> |r[i]| > 0
  {
    if |parts| == 0 then []
    else if |parts[0]| == 0 then NonEmpty(parts[1..])
    else [parts[0]] + NonEmpty(parts[1..])
  }

  function SplitNonEmpty(s: string, sep: char): seq<string>
  {
    NonEmpty(Split(s, sep))
  }

  /** `string.Join(sep, parts)` */
  function Join(sep: string, parts: seq<string>): string
  {
    if |parts| == 0 then ""
    else if |parts| == 1 then parts[0]
    else parts[0] + sep + Join(sep, parts[1..])
  }

  /** `string.Concat(parts)` */
  function Concat(parts: seq<string>): string
  {
    if |parts| == 0 then "" else parts[0] + Concat(parts[1..])
  }

  lemma {:induction false} ConcatAppend(a: seq<string>, b: seq<string>)
    ensures Concat(a + b) == Concat(a) + Concat(b)
  {
    if |a| == 0 {
      assert a + b == b;
    } else {
      assert (a + b)[1..] == a[1..] + b;
      ConcatAppend(a[1..], b);
    }
  }

  /** Joining one more part appends the separator and the part. */
  lemma {:induction false} JoinAppend(sep: string, parts: seq<string>, last: string)
    requires |parts| >= 1
    ensures Join(sep, parts + [last]) == Join(sep, parts) + sep + last
    decreases |parts|
  {
    if |parts| > 1 {
      JoinAppend(sep, parts[1..], last);
      assert (parts + [last])[1..] == parts[1..] + [last];
    } else {
      assert (parts + [last])[1..] == [last];
    }
  }

  /** Each part followed by the separator: what a builder holds after appending part and
    * separator for every part. */
  function Terminated(sep: string, parts: seq<string>): string
  {
    if |parts| == 0 then ""
    else Terminated(sep, parts[..|parts| - 1]) + parts[|parts| - 1] + sep
  }

  /** Each part followed by the separator is the parts joined by it, plus one more. */
  lemma {:induction false} TerminatedJoin(sep: string, parts: seq<string>)
    requires |parts| >= 1
    ensures Terminated(sep, parts) == Join(sep, parts) + sep
    decreases |parts|
  {
    var n := |parts| - 1;
    if n == 0 {
      assert Terminated(sep, parts[..0]) == "";
    } else {
      TerminatedJoin(sep, parts[..n]);
      JoinAppend(sep, parts[..n], parts[n]);
      assert parts[..n] + [parts[n]] == parts;
    }
  }

  /** Joining the pieces of `Split` with the separator gives the string back. */
  lemma {:induction false} JoinSplit(s: string, sep: char)
    ensures Join([sep], Split(s, sep)) == s
  {
    if |s| > 0 {
      var rest := Split(s[1..], sep);
      JoinSplit(s[1..], sep);
      if s[0] == sep {
        assert Split(s, sep) == [""] + rest;
        assert ([""] + rest)[1..] == rest;
      } else {
        var r := [[s[0]] + rest[0]] + rest[1..];
        assert Split(s, sep) == r;
        if |rest| == 1 {
          assert Join([sep], rest) == rest[0];
        } else {
          assert r[1..] == rest[1..];
          assert Join([sep], rest) == rest[0] + [sep] + Join([sep], rest[1..]);
        }
      }
    }
  }

  predicate StartsWith(s: string, prefix: string)
  {
    |prefix| <= |s| && s[..|prefix|] == prefix
  }

  predicate EndsWith(s: string, suffix: string)
  {
    |suffix| <= |s| && s[|s| - |suffix|..] == suffix
  }

  predicate OccursAt(s: string, sub: string, i: int)
  {
    0 <= i && i + |sub| <= |s| && s[i..i + |sub|] == sub
  }

  predicate Contains(s: string, sub: string)
  {
    exists i :: 0 <= i <= |s| && OccursAt(s, sub, i)
  }

  /** `s.IndexOf(sub, from)`: the first occurrence at or after `from`, or -1. */
  function IndexOf(s: string, sub: string, from: nat): (r: int)
    ensures r == -1 || (from <= r && OccursAt(s, sub, r))
    ensures forall k :: from <= k < (if r == -1 then |s| + 1 else r) ==> !OccursAt(s, sub, k)
    decreases |s| + 1 - from
  {
    if from > |s| then -1
    else if OccursAt(s, sub, from) then from
    else IndexOf(s, sub, from + 1)
  }

  /** For a one-character pattern, `IndexOf` finds the first position holding that character. */
  lemma IndexOfSingle(s: string, c: char, from: nat)
    ensures var r := IndexOf(s, [c], from);
            && (r >= 0 ==> r < |s| && s[r] == c)
            && (forall j :: from <= j < (if r == -1 then |s| else r) ==> s[j] != c)
  {
    var r := IndexOf(s, [c], from);
    if r >= 0 {
      assert s[r..r + 1][0] == s[r];
    }
    forall j | from <= j < (if r == -1 then |s| else r)
      ensures s[j] != c
    {
      assert !OccursAt(s, [c], j);
      assert s[j..j + 1] == [s[j]];
    }
  }

  lemma ContainsIndexOf(s: string, sub: string)
    ensures Contains(s, sub) <==> IndexOf(s, sub, 0) != -1
  {
    if Contains(s, sub) {
      var i :| 0 <= i <= |s| && OccursAt(s, sub, i);
    }
  }

  /** `s.Replace(a, b)` for single characters. */
  function ReplaceChar(s: string, a: char, b: char): (r: string)
    ensures |r| == |s|
    ensures forall i :: 0 <= i < |s| ==> r[i] == (if s[i] == a then b else s[i])
  {
    if |s| == 0 then "" else [if s[0] == a then b else s[0]] + ReplaceChar(s[1..], a, b)
  }

  /** ASCII upper-casing, the folding `StringComparison.OrdinalIgnoreCase` applies to ASCII. */
  function AsciiUpper(c: char): char
  {
    if 'a' <= c <= 'z' then (c as int - 32) as char else c
  }

  predicate EqualsIgnoreCase(s: string, t: string)
  {
    |s| == |t| && forall i :: 0 <= i < |s| ==> AsciiUpper(s[i]) == AsciiUpper(t[i])
  }

  /** `s.ToUpper()` or `s.ToLower()`: the culture's mapping `f` applied to every character. */
  function MapChars(s: string, f: char -> char): (r: string)
    ensures |r| == |s| && forall i :: 0 <= i < |s| ==> r[i] == f(s[i])
  {
    if |s| == 0 then "" else [f(s[0])] + MapChars(s[1..], f)
  }

  /** Every part mapped with `f`. */
  function MapAll(parts: seq<string>, f: char -> char): (r: seq<string>)
    ensures |r| == |parts| && forall i :: 0 <= i < |parts| ==> r[i] == MapChars(parts[i], f)
  {
    if |parts| == 0 then [] else [MapChars(parts[0], f)] + MapAll(parts[1..], f)
  }

  lemma MapCharsAppend(a: string, b: string, f: char -> char)
    ensures MapChars(a + b, f) == MapChars(a, f) + MapChars(b, f)
  {
  }

  /** Mapping the joined string maps every part, and the separator when `f` keeps it. */
  lemma {:induction false} MapJoin(sep: string, parts: seq<string>, f: char -> char)
    requires MapChars(sep, f) == sep
    ensures MapChars(Join(sep, parts), f) == Join(sep, MapAll(parts, f))
    decreases |parts|
  {
    if |parts| > 1 {
      MapJoin(sep, parts[1..], f);
      MapCharsAppend(parts[0] + sep, Join(sep, parts[1..]), f);
      MapCharsAppend(parts[0], sep, f);
      assert MapAll(parts, f)[1..] == MapAll(parts[1..], f);
    }
  }

  /** Splitting a join at a separator that no part contains gives the parts back. */
  lemma {:induction false} SplitJoin(parts: seq<string>, sep: char)
    requires |parts| >= 1
    requires forall i :: 0 <= i < |parts| ==> sep !in parts[i]
    ensures Split(Join([sep], parts), sep) == parts
    decreases |parts|, |parts[0]|
  {
    var w := parts[0];
    if |w| > 0 {
      var rest := [w[1..]] + parts[1..];
      assert rest[1..] == parts[1..];
      assert forall i :: 0 <= i < |rest| ==> sep !in rest[i];
      SplitJoin(rest, sep);
      JoinHead(parts, sep);
      assert w[0] != sep;
      SplitOther(w[0], Join([sep], rest), sep);
      assert [w[0]] + w[1..] == w;
      assert [w] + parts[1..] == parts;
    } else if |parts| > 1 {
      SplitJoin(parts[1..], sep);
      assert Join([sep], parts) == [sep] + Join([sep], parts[1..]);
      SplitAtSeparator(Join([sep], parts[1..]), sep);
      assert [""] + parts[1..] == parts;
    }
  }

  /** A join whose first part is not empty starts with that part's first character. */
  lemma JoinHead(parts: seq<string>, sep: char)
    requires |parts| >= 1 && |parts[0]| > 0
    ensures Join([sep], parts) == [parts[0][0]] + Join([sep], [parts[0][1..]] + parts[1..])
  {
    var w := parts[0];
    var rest := [w[1..]] + parts[1..];
    assert rest[1..] == parts[1..];
    if |parts| == 1 {
      assert Join([sep], parts) == w && Join([sep], rest) == w[1..];
    } else {
      assert Join([sep], rest) == w[1..] + [sep] + Join([sep], parts[1..]);
    }
  }

  /** Splitting past a character that is not the separator extends the first piece. */
  lemma SplitOther(c: char, s: string, sep: char)
    requires c != sep
    ensures Split([c] + s, sep) == [[c] + Split(s, sep)[0]] + Split(s, sep)[1..]
  {
    assert ([c] + s)[1..] == s;
  }

  /** Splitting past a separator starts with an empty piece. */
  lemma SplitAtSeparator(s: string, sep: char)
    ensures Split([sep] + s, sep) == [""] + Split(s, sep)
  {
    assert ([sep] + s)[1..] == s;
  }

  /** Joining with the empty separator concatenates. */
  lemma {:induction false} JoinEmpty(parts: seq<string>)
    ensures Join("", parts) == Concat(parts)
    decreases |parts|
  {
    if |parts| > 1 {
      JoinEmpty(parts[1..]);
      assert parts[0] + "" == parts[0];
    } else if |parts| == 1 {
      assert Concat(parts[1..]) == "";
      assert parts[0] + "" == parts[0];
    }
  }

  /** A join of parts starts with the first part and ends with the last. */
  lemma {:induction false} JoinEnds(sep: string, parts: seq<string>)
    requires |parts| >= 1
    ensures StartsWith(Join(sep, parts), parts[0])
    ensures EndsWith(Join(sep, parts), parts[|parts| - 1])
    decreases |parts|
  {
    if |parts| > 1 {
      JoinEnds(sep, parts[1..]);
      var rest := Join(sep, parts[1..]);
      assert parts[1..][|parts| - 2] == parts[|parts| - 1];
      PrefixOfConcat(parts[0], sep, rest);
      SuffixOfConcat(parts[0] + sep, rest, parts[|parts| - 1]);
    }
  }

  /** A string starts with itself followed by anything. */
  lemma PrefixOfConcat(a: string, b: string, c: string)
    ensures StartsWith(a + b + c, a)
  {
    assert (a + b + c)[..|a|] == a;
  }

  /** A suffix of the second string is a suffix of the concatenation. */
  lemma SuffixOfConcat(a: string, b: string, c: string)
    requires EndsWith(b, c)
    ensures EndsWith(a + b, c)
  {
    assert (a + b)[|a + b| - |c|..] == b[|b| - |c|..];
  }

  /** Trimming leaves a string alone when neither end is white space. */
  lemma TrimUntouched(s: string)
    requires |s| > 0 ==> !IsWhiteSpace(s[0]) && !IsWhiteSpace(s[|s| - 1])
    ensures Trim(s) == s
  {
  }

  /** Trimming drops one trailing space after a string whose ends are not white space. */
  lemma TrimTrailingSpace(s: string)
    requires |s| > 0 && !IsWhiteSpace(s[0]) && !IsWhiteSpace(s[|s| - 1])
    ensures Trim(s + " ") == s
  {
    assert TrimStart(s + " ") == s + " ";
    assert (s + " ")[..|s + " "| - 1] == s;
    assert TrimEnd(s + " ") == TrimEnd(s);
  }

  /** `NonEmpty` keeps a sequence whose parts are all non-empty. */
  lemma {:induction false} NonEmptyKeeps(parts: seq<string>)
    requires forall i :: 0 <= i < |parts| ==> |parts[i]| > 0
    ensures NonEmpty(parts) == parts
    decreases |parts|
  {
    if |parts| > 0 {
      NonEmptyKeeps(parts[1..]);
    }
  }

  /** A string that is not all white space keeps a character after trimming. */
  lemma TrimKeeps(s: string)
    requires !AllWhiteSpace(s)
    ensures |Trim(s)| >= 1
  {
    var k :| 0 <= k < |s| && !IsWhiteSpace(s[k]);
    var a := TrimStart(s);
    assert a[k - (|s| - |a|)] == s[k];
  }

  /** `Trim(c)` keeps a contiguous piece of the string, starting at `k`. */
  lemma {:induction false} TrimCharSlice(s: string, c: char) returns (k: nat)
    ensures InSlice(TrimChar(s, c), s, k)
    decreases |s|
  {
    if |s| > 0 && s[0] == c {
      var j := TrimCharSlice(s[1..], c);
      k := j + 1;
      PieceAfterHead(TrimChar(s, c), s, j);
    } else if |s| > 0 && s[|s| - 1] == c {
      k := TrimCharSlice(s[..|s| - 1], c);
      PieceBeforeLast(TrimChar(s, c), s, k);
    } else {
      k := 0;
      assert s[0..|s|] == s;
    }
  }

  /** `r` is the piece of `s` that starts at `k`. */
  predicate InSlice(r: string, s: string, k: nat)
  {
    k + |r| <= |s| && r == s[k..k + |r|]
  }

  lemma PieceAfterHead(r: string, s: string, j: nat)
    requires |s| > 0 && InSlice(r, s[1..], j)
    ensures InSlice(r, s, j + 1)
  {
    assert s[1..][j..j + |r|] == s[j + 1..j + 1 + |r|];
  }

  lemma PieceBeforeLast(r: string, s: string, k: nat)
    requires |s| > 0 && InSlice(r, s[..|s| - 1], k)
    ensures InSlice(r, s, k)
  {
    assert s[..|s| - 1][k..k + |r|] == s[k..k + |r|];
  }
}
