/** `IOUtils`: normalising path separators. */
module IOUtils {
  import opened Wrappers
  import opened Text

  /** No two separators `c` stand next to each other. */
  predicate NoDouble(s: string, c: char)
  {
    forall i :: 0 <= i < |s| - 1 ==> !(s[i] == c && s[i + 1] == c)
  }

  /** Every run of separators `c` shortened to one: the reference meaning of removing
    * doubled separators. */
  function Collapse(s: string, c: char): (r: string)
    ensures |r| <= |s|
    ensures |s| > 0 ==> |r| > 0 && r[0] == s[0]
    ensures forall i :: 0 <= i < |r| ==> r[i] in s
    decreases |s|
  {
    if |s| < 2 then s
    else if s[0] == c && s[1] == c then Collapse(s[1..], c)
    else [s[0]] + Collapse(s[1..], c)
  }

  /** A collapsed string has no doubled separators. */
  lemma {:induction false} CollapseNoDouble(s: string, c: char)
    ensures NoDouble(Collapse(s, c), c)
    decreases |s|
  {
    if |s| >= 2 {
      CollapseNoDouble(s[1..], c);
    }
  }

  /** Collapsing leaves a string without doubled separators alone. */
  lemma {:induction false} CollapseKeeps(s: string, c: char)
    requires NoDouble(s, c)
    ensures Collapse(s, c) == s
    decreases |s|
  {
    if |s| >= 2 {
      CollapseKeeps(s[1..], c);
      assert [s[0]] + s[1..] == s;
    }
  }

  /** `path.Replace(d, s)` with `d` the doubled separator: each non-overlapping pair, read
    * left to right, becomes one separator. */
  function ReplaceDouble(s: string, c: char): (r: string)
    ensures |r| <= |s|
    ensures |s| > 0 ==> |r| > 0 && r[0] == s[0]
    ensures !NoDouble(s, c) ==> |r| < |s|
    decreases |s|
  {
    if |s| < 2 then s
    else if s[0] == c && s[1] == c then [c] + ReplaceDouble(s[2..], c)
    else
      assert !NoDouble(s, c) ==> !NoDouble(s[1..], c) by {
        if !NoDouble(s, c) {
          var i :| 0 <= i < |s| - 1 && s[i] == c && s[i + 1] == c;
          assert s[1..][i - 1] == s[i];
        }
      }
      [s[0]] + ReplaceDouble(s[1..], c)
  }

  /** Collapsing one more character: it joins a run of separators or stands alone. */
  lemma CollapseCons(x: char, t: string, c: char)
    ensures Collapse([x] + t, c) == if x == c && |t| > 0 && t[0] == c then Collapse(t, c) else [x] + Collapse(t, c)
  {
    assert ([x] + t)[1..] == t;
  }

  /** One round of `Replace` does not change what collapsing gives. */
  lemma {:induction false} ReplaceDoubleCollapse(s: string, c: char)
    ensures Collapse(ReplaceDouble(s, c), c) == Collapse(s, c)
    decreases |s|
  {
    if |s| >= 2 {
      if s[0] == c && s[1] == c {
        var t := s[2..];
        ReplaceDoubleCollapse(t, c);
        CollapseCons(c, ReplaceDouble(t, c), c);
        CollapseCons(c, t, c);
        assert s[1..] == [c] + t;
      } else {
        ReplaceDoubleCollapse(s[1..], c);
        CollapseCons(s[0], ReplaceDouble(s[1..], c), c);
      }
    }
  }

  /** Searching for two separators in a row finds them exactly when there are some. */
  lemma DoubleFound(p: string, c: char)
    ensures IndexOf(p, [c, c], 0) == -1 <==> NoDouble(p, c)
  {
    var i := IndexOf(p, [c, c], 0);
    if i != -1 {
      assert OccursAt(p, [c, c], i);
      assert p[i..i + 2][0] == p[i] && p[i..i + 2][1] == p[i + 1];
    } else {
      forall j | 0 <= j < |p| - 1
        ensures !(p[j] == c && p[j + 1] == c)
      {
        assert !OccursAt(p, [c, c], j);
        assert p[j..j + 2] == [p[j], p[j + 1]];
      }
    }
  }

  /** `RemoveDoubleSeperators(seperator, path)`: null for a null or empty path; otherwise
    * the path with every run of separators shortened to one. */
  method RemoveDoubleSeperators(seperator: char, path: Option<string>) returns (r: Option<string>)
    ensures r.None? <==> IsNullOrEmpty(path)
    ensures r.Some? ==> r.value == Collapse(path.value, seperator) && NoDouble(r.value, seperator)
  {
    if IsNullOrEmpty(path) {
      return None;
    }
    var p := path.value;
    while IndexOf(p, [seperator, seperator], 0) != -1
      invariant Collapse(p, seperator) == Collapse(path.value, seperator)
      decreases |p|
    {
      DoubleFound(p, seperator);
      ReplaceDoubleCollapse(p, seperator);
      p := ReplaceDouble(p, seperator);
    }
    DoubleFound(p, seperator);
    CollapseKeeps(p, seperator);
    r := Some(p);
  }

  /** The path `FixPath` returns, or the exception it throws. */
  function FixPathOf(path: Option<string>, seperator: char): Result<string>
  {
    if path.None? then Err(ArgumentNull)
    else
      var p := ReplaceChar(ReplaceChar(path.value, '\\', seperator), '/', seperator);
      if p == "" then Err(NullReference)
      else
        var q := TrimChar(Collapse(p, seperator), seperator);
        Ok(if q != "" then q + [seperator] else q)
  }

  /** `FixPath(path, seperator)`: every '\\' and '/' becomes the separator, runs of
    * separators are shortened, the ends are trimmed of separators and one is put at the
    * end of a non-empty result. An empty path fails, because the shortening returns null
    * before the trim. */
  method FixPath(path: Option<string>, seperator: char) returns (r: Result<string>)
    ensures r == FixPathOf(path, seperator)
  {
    if path.None? {
      return Err(ArgumentNull);
    }
    var p := ReplaceChar(ReplaceChar(path.value, '\\', seperator), '/', seperator);
    var cleaned := RemoveDoubleSeperators(seperator, Some(p));
    if cleaned.None? {
      return Err(NullReference);
    }
    var q := TrimChar(cleaned.value, seperator);
    if q != "" {
      q := q + [seperator];
    }
    r := Ok(q);
  }

  /** Every '\\' or '/' in `s` is the separator `c`. */
  predicate OnlySeparator(s: string, c: char)
  {
    forall i :: 0 <= i < |s| ==> (s[i] != '\\' && s[i] != '/') || s[i] == c
  }

  /** A fixed path uses only the given separator, never doubles it, does not start with it,
    * and ends with exactly one when it is not empty; null and empty paths fail. */
  lemma FixPathMeaning(path: Option<string>, seperator: char)
    ensures FixPathOf(path, seperator).Err? <==> IsNullOrEmpty(path)
    ensures FixPathOf(path, seperator).Ok? ==>
              var r := FixPathOf(path, seperator).value;
              && OnlySeparator(r, seperator)
              && NoDouble(r, seperator)
              && (|r| > 0 ==> r[0] != seperator && r[|r| - 1] == seperator)
  {
    if path.Some? && path.value != "" {
      var p := ReplaceChar(ReplaceChar(path.value, '\\', seperator), '/', seperator);
      assert OnlySeparator(p, seperator);
      var col := Collapse(p, seperator);
      CollapseNoDouble(p, seperator);
      CollapseOnly(p, seperator);
      var q := TrimChar(col, seperator);
      TrimCharKeeps(col, seperator);
      assert FixPathOf(path, seperator) == Ok(if q != "" then q + [seperator] else q);
      TerminatedShape(q, seperator);
    }
  }

  /** Collapsing adds no character. */
  lemma CollapseOnly(s: string, c: char)
    requires OnlySeparator(s, c)
    ensures OnlySeparator(Collapse(s, c), c)
  {
    var r := Collapse(s, c);
    forall i | 0 <= i < |r|
      ensures (r[i] != '\\' && r[i] != '/') || r[i] == c
    {
      assert r[i] in s;
    }
  }

  /** Trimming separators from both ends keeps a string free of doubled separators and of
    * other separators. */
  lemma TrimCharKeeps(s: string, c: char)
    requires NoDouble(s, c) && OnlySeparator(s, c)
    ensures NoDouble(TrimChar(s, c), c) && OnlySeparator(TrimChar(s, c), c)
  {
    var q := TrimChar(s, c);
    var k := TrimCharSlice(s, c);
    assert forall i :: 0 <= i < |q| ==> q[i] == s[k + i];
  }

  /** Putting one separator after a non-empty trimmed path without doubled separators ends
    * it with exactly one. */
  lemma TerminatedShape(q: string, c: char)
    requires NoDouble(q, c) && (|q| > 0 ==> q[0] != c && q[|q| - 1] != c)
    requires OnlySeparator(q, c)
    ensures var r := if q != "" then q + [c] else q;
            && OnlySeparator(r, c)
            && NoDouble(r, c)
            && (|r| > 0 ==> r[0] != c && r[|r| - 1] == c)
  {
  }

  /** A path of separators alone fixes to the empty string. */
  lemma FixPathAllSeparators(seperator: char)
    ensures FixPathOf(Some("/\\/"), seperator) == Ok("")
  {
    var p := ReplaceChar(ReplaceChar("/\\/", '\\', seperator), '/', seperator);
    assert p == [seperator, seperator, seperator];
    assert Collapse(p, seperator) == [seperator];
  }

  /** `FormatPath(path, appPath)`: the path unchanged when it starts with `appPath`,
    * otherwise `appPath` followed by the path with a '/' put in front unless it starts
    * with '/' or '\\'. A null path throws, and so does an empty one under a non-empty
    * `appPath`, on reading its first character. */
  function FormatPath(path: Option<string>, appPath: string): (r: Result<string>)
    ensures r.Err? <==> path.None? || (path.value == "" && appPath != "")
    ensures r.Ok? ==> StartsWith(r.value, appPath) && EndsWith(r.value, path.value)
    ensures r.Ok? && !StartsWith(path.value, appPath) ==>
              var rest := r.value[|appPath|..];
              |rest| > 0 && (rest[0] == '/' || rest[0] == '\\') && |rest| <= |path.value| + 1
  {
    if path.None? then Err(ArgumentNull)
    else if StartsWith(path.value, appPath) then Ok(path.value)
    else if |path.value| == 0 then Err(IndexOutOfRange)
    else
      var p := if path.value[0] != '/' && path.value[0] != '\\' then "/" + path.value else path.value;
      assert (appPath + p)[..|appPath|] == appPath && (appPath + p)[|appPath|..] == p;
      Ok(appPath + p)
  }

  /** The path with everything after its last '/' removed; empty when there is none. */
  function DropLastSegment(s: string): (r: string)
    ensures |r| <= |s| && r == s[..|r|]
    ensures |r| == 0 || r[|r| - 1] == '/'
    ensures forall i :: |r| <= i < |s| ==> s[i] != '/'
  {
    if |s| == 0 || s[|s| - 1] == '/' then s else DropLastSegment(s[..|s| - 1])
  }

  /** `GetDirectoryPath(path)`: null for a null or empty path; otherwise the path with '\\'
    * turned into '/' and the trailing run of characters other than '/' removed. */
  function GetDirectoryPath(path: Option<string>): (r: Option<string>)
    ensures r.None? <==> IsNullOrEmpty(path)
    ensures r.Some? ==>
              var p := ReplaceChar(path.value, '\\', '/');
              && |r.value| <= |p| && r.value == p[..|r.value|]
              && (r.value == "" || r.value[|r.value| - 1] == '/')
              && (forall i :: |r.value| <= i < |p| ==> p[i] != '/' && path.value[i] != '\\')
  {
    if IsNullOrEmpty(path) then None
    else Some(DropLastSegment(ReplaceChar(path.value, '\\', '/')))
  }

  /** A directory path is its own directory. */
  lemma GetDirectoryPathIdempotent(path: Option<string>)
    requires GetDirectoryPath(path).Some? && GetDirectoryPath(path).value != ""
    ensures GetDirectoryPath(GetDirectoryPath(path)) == GetDirectoryPath(path)
  {
    var d := GetDirectoryPath(path).value;
    assert forall i :: 0 <= i < |d| ==> d[i] != '\\';
    assert ReplaceChar(d, '\\', '/') == d;
  }
}
