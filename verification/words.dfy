/** The tokenizer `DiffWords` applies through the pattern `([\w\d]+|\s+|.)`: a maximal run
  * of word characters, a maximal run of white space, or any other single character. The
  * word class (`\w`, which already holds `\d`) is a Unicode category test and is a
  * parameter; `\s` is the white-space set of `char.IsWhiteSpace`. */
module Words {
  import opened Text

  datatype Class = Word | Space | Other

  /** The alternative of the pattern that a character starts: word first, then space. */
  function ClassOf(c: char, isWord: char -> bool): Class
  {
    if isWord(c) then Word else if IsWhiteSpace(c) then Space else Other
  }

  /** How many leading characters of `s` are of class `cls`. */
  function Prefix(s: string, cls: Class, isWord: char -> bool): (n: nat)
    ensures n <= |s|
    ensures forall k :: 0 <= k < n ==> ClassOf(s[k], isWord) == cls
    ensures n < |s| ==> ClassOf(s[n], isWord) != cls
  {
    if |s| > 0 && ClassOf(s[0], isWord) == cls then 1 + Prefix(s[1..], cls, isWord) else 0
  }

  /** The length of the match at the start of a non-empty string: the whole run for a word
    * or space character, a single character otherwise. */
  function Span(s: string, isWord: char -> bool): (n: nat)
    requires |s| > 0
    ensures 1 <= n <= |s|
    ensures forall k :: 0 <= k < n ==> ClassOf(s[k], isWord) == ClassOf(s[0], isWord)
    ensures ClassOf(s[0], isWord) != Other && n < |s| ==> ClassOf(s[n], isWord) != ClassOf(s[0], isWord)
    ensures ClassOf(s[0], isWord) == Other ==> n == 1
  {
    var cls := ClassOf(s[0], isWord);
    if cls == Other then 1 else Prefix(s, cls, isWord)
  }

  /** The successive matches of the pattern over `s`, left to right. */
  function Tokens(s: string, isWord: char -> bool): seq<string>
    decreases |s|
  {
    if |s| == 0 then [] else
      var n := Span(s, isWord);
      [s[..n]] + Tokens(s[n..], isWord)
  }

  /** A token is non-empty and all of one class; a token of the third class is one
    * character long. */
  predicate Homogeneous(t: string, isWord: char -> bool)
  {
    && |t| > 0
    && (forall k :: 0 <= k < |t| ==> ClassOf(t[k], isWord) == ClassOf(t[0], isWord))
    && (ClassOf(t[0], isWord) == Other ==> |t| == 1)
  }

  /** The matches cover the string: gluing them back together gives it. */
  lemma {:induction false} TokensCover(s: string, isWord: char -> bool)
    ensures Concat(Tokens(s, isWord)) == s
    decreases |s|
  {
    if |s| > 0 {
      var n := Span(s, isWord);
      TokensCover(s[n..], isWord);
      assert Tokens(s, isWord)[1..] == Tokens(s[n..], isWord);
      assert s[..n] + s[n..] == s;
    }
  }

  /** Every token is a non-empty run of one class, and two neighbouring tokens never both
    * belong to the same word or space run. */
  predicate Maximal(ts: seq<string>, isWord: char -> bool)
  {
    && (forall k :: 0 <= k < |ts| ==> Homogeneous(ts[k], isWord))
    && (forall k :: 0 < k < |ts| ==> Cut(ts, k, isWord))
  }

  /** Tokens `k - 1` and `k` are not two pieces of one word or space run. */
  predicate Cut(ts: seq<string>, k: int, isWord: char -> bool)
    requires 0 < k < |ts|
  {
    && |ts[k - 1]| > 0 && |ts[k]| > 0
    && (ClassOf(ts[k - 1][0], isWord) == Other || ClassOf(ts[k - 1][0], isWord) != ClassOf(ts[k][0], isWord))
  }

  /** The matches are maximal runs: each run of word or space characters is one token. */
  lemma {:induction false} TokensShape(s: string, isWord: char -> bool)
    ensures Maximal(Tokens(s, isWord), isWord)
    decreases |s|
  {
    if |s| > 0 {
      var n := Span(s, isWord);
      var rest := Tokens(s[n..], isWord);
      TokensShape(s[n..], isWord);
      var ts := Tokens(s, isWord);
      assert ts == [s[..n]] + rest;
      assert Homogeneous(ts[0], isWord);
      if |rest| > 0 {
        assert rest[0][0] == s[n];
      }
      forall k | 0 <= k < |ts|
        ensures Homogeneous(ts[k], isWord)
      {
        if k > 0 {
          assert ts[k] == rest[k - 1];
        }
      }
      forall k | 0 < k < |ts|
        ensures Cut(ts, k, isWord)
      {
        if k > 1 {
          assert ts[k] == rest[k - 1] && ts[k - 1] == rest[k - 2];
          assert Cut(rest, k - 1, isWord);
        }
      }
    }
  }
}
