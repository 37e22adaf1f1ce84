/** `StringExtensions`: the digit predicates for Chinese phone numbers and codes, the URL
  * and slash helpers, and the space-separated scope lists. `isDigit` stands for
  * `char.IsDigit`. */
module StringExtensions {
  import opened Wrappers
  import opened Text

  // ----- Digit predicates -----

  /** `IsNumberOnly(s)`: not null or empty, and every character a digit. */
  predicate IsNumberOnly(s: Option<string>, isDigit: char -> bool)
  {
    !IsNullOrEmpty(s) && forall i :: 0 <= i < |s.value| ==> isDigit(s.value[i])
  }

  /** `IsChinaMobilePhoneNumber(s)` */
  predicate IsChinaMobilePhoneNumber(s: string, isDigit: char -> bool)
  {
    |s| == 11 && s[0] == '1' && IsNumberOnly(Some(s), isDigit)
  }

  /** `IsChinaPostalCode(s)` */
  predicate IsChinaPostalCode(s: string, isDigit: char -> bool)
  {
    (|s| == 5 || |s| == 6) && IsNumberOnly(Some(s), isDigit)
  }

  /** `IsChinaTelephoneAreaCode(s)` */
  predicate IsChinaTelephoneAreaCode(s: string, isDigit: char -> bool)
  {
    (|s| == 3 || |s| == 4) && s[0] == '0' && IsNumberOnly(Some(s), isDigit)
  }

  /** The digit predicates spelled out: a mobile number is eleven digits starting with 1, a
    * postal code five or six digits, an area code three or four digits starting with 0;
    * null and empty strings are never numbers. */
  lemma DigitPredicates(s: string, isDigit: char -> bool)
    ensures IsChinaMobilePhoneNumber(s, isDigit) <==>
              |s| == 11 && s[0] == '1' && forall i :: 0 <= i < |s| ==> isDigit(s[i])
    ensures IsChinaPostalCode(s, isDigit) <==>
              (|s| == 5 || |s| == 6) && forall i :: 0 <= i < |s| ==> isDigit(s[i])
    ensures IsChinaTelephoneAreaCode(s, isDigit) <==>
              (|s| == 3 || |s| == 4) && s[0] == '0' && forall i :: 0 <= i < |s| ==> isDigit(s[i])
    ensures !IsNumberOnly(None, isDigit) && !IsNumberOnly(Some(""), isDigit)
    ensures IsChinaMobilePhoneNumber(s, isDigit) ==> isDigit('1')
  {
  }

  // ----- Presence -----

  /** `IsMissing(value)` */
  predicate IsMissing(value: Option<string>)
  {
    IsNullOrWhiteSpace(value)
  }

  /** `IsMissingOrTooLong(value, maxLength)` */
  predicate IsMissingOrTooLong(value: Option<string>, maxLength: int)
  {
    IsNullOrWhiteSpace(value) || |value.value| > maxLength
  }

  /** `IsPresent(value)` */
  predicate IsPresent(value: Option<string>)
  {
    !IsNullOrWhiteSpace(value)
  }

  /** Present is the opposite of missing, and a present value within the bound is neither
    * missing nor too long. */
  lemma PresenceMeaning(value: Option<string>, maxLength: int)
    ensures IsPresent(value) <==> !IsMissing(value)
    ensures IsMissingOrTooLong(value, maxLength) <==> IsMissing(value) || |value.value| > maxLength
    ensures IsPresent(value) ==> value.Some? && exists i :: 0 <= i < |value.value| && !IsWhiteSpace(value.value[i])
  {
  }

  // ----- Slashes -----

  /** `EnsureLeadingSlash(url)`: `url` with a '/' put in front unless it has one. */
  function EnsureLeadingSlash(url: string): (r: string)
    ensures StartsWith(r, "/")
    ensures |url| <= |r| <= |url| + 1 && r[|r| - |url|..] == url
    ensures StartsWith(url, "/") ==> r == url
  {
    if !StartsWith(url, "/") then "/" + url else url
  }

  /** `EnsureTrailingSlash(url)`: `url` with a '/' put after it unless it has one. */
  function EnsureTrailingSlash(url: string): (r: string)
    ensures EndsWith(r, "/")
    ensures |url| <= |r| <= |url| + 1 && r[..|url|] == url
    ensures EndsWith(url, "/") ==> r == url
  {
    if !EndsWith(url, "/") then url + "/" else url
  }

  /** `RemoveLeadingSlash(url)`: null stays null; one leading '/' is removed. */
  function RemoveLeadingSlash(url: Option<string>): (r: Option<string>)
    ensures r.None? <==> url.None?
    ensures url.Some? ==> |url.value| - 1 <= |r.value| <= |url.value| && r.value == url.value[|url.value| - |r.value|..]
    ensures url.Some? && |r.value| < |url.value| ==> url.value[0] == '/'
    ensures url.Some? && StartsWith(url.value, "/") ==> r.value == url.value[1..]
  {
    if url.Some? && StartsWith(url.value, "/") then Some(url.value[1..]) else url
  }

  /** `RemoveTrailingSlash(url)`: null stays null; one trailing '/' is removed. */
  function RemoveTrailingSlash(url: Option<string>): (r: Option<string>)
    ensures r.None? <==> url.None?
    ensures url.Some? ==> |url.value| - 1 <= |r.value| <= |url.value| && r.value == url.value[..|r.value|]
    ensures url.Some? && |r.value| < |url.value| ==> url.value[|url.value| - 1] == '/'
    ensures url.Some? && EndsWith(url.value, "/") ==> r.value == url.value[..|url.value| - 1]
  {
    if url.Some? && EndsWith(url.value, "/") then Some(url.value[..|url.value| - 1]) else url
  }

  /** Adding slashes is idempotent, removing a slash undoes adding it, and adding one
    * undoes removing it when only one was there. */
  lemma SlashRoundTrips(url: string)
    ensures EnsureLeadingSlash(EnsureLeadingSlash(url)) == EnsureLeadingSlash(url)
    ensures EnsureTrailingSlash(EnsureTrailingSlash(url)) == EnsureTrailingSlash(url)
    ensures !StartsWith(url, "/") ==> RemoveLeadingSlash(Some(EnsureLeadingSlash(url))) == Some(url)
    ensures !EndsWith(url, "/") ==> RemoveTrailingSlash(Some(EnsureTrailingSlash(url))) == Some(url)
    ensures StartsWith(url, "/") && !StartsWith(url[1..], "/") ==>
              EnsureLeadingSlash(RemoveLeadingSlash(Some(url)).value) == url
    ensures EndsWith(url, "/") && !EndsWith(url[..|url| - 1], "/") ==>
              EnsureTrailingSlash(RemoveTrailingSlash(Some(url)).value) == url
  {
    if !StartsWith(url, "/") {
      assert ("/" + url)[1..] == url;
    }
    if !EndsWith(url, "/") {
      assert (url + "/")[..|url|] == url;
    }
    if StartsWith(url, "/") {
      assert "/" + url[1..] == url;
    }
    if EndsWith(url, "/") {
      assert url[..|url| - 1] + "/" == url;
    }
  }

  /** `CleanUrlPath(url)`: a blank path becomes "/", and one trailing '/' is removed from
    * anything but "/". */
  function CleanUrlPath(url: Option<string>): (r: string)
    ensures IsNullOrWhiteSpace(url) ==> r == "/"
    ensures !IsNullOrWhiteSpace(url) ==>
              if url.value != "/" && EndsWith(url.value, "/") then url.value == r + "/" else r == url.value
  {
    var u := if IsNullOrWhiteSpace(url) then "/" else url.value;
    if u != "/" && EndsWith(u, "/") then u[..|u| - 1] else u
  }

  /** `IsLocalUrl(url)`: "/" or "/x" with x neither '/' nor '\\', or "~/...". */
  predicate IsLocalUrl(url: Option<string>)
  {
    !IsNullOrEmpty(url)
    && ((url.value[0] == '/' && (|url.value| == 1 || (url.value[1] != '/' && url.value[1] != '\\')))
        || (|url.value| > 1 && url.value[0] == '~' && url.value[1] == '/'))
  }

  /** A local URL is never protocol-relative ("//host" or "/\\host") and always starts with
    * '/' or "~/"; null and empty are not local. */
  lemma LocalUrlMeaning(url: Option<string>)
    ensures IsLocalUrl(url) ==> !StartsWith(url.value, "//") && !StartsWith(url.value, "/\\")
    ensures IsLocalUrl(url) ==> StartsWith(url.value, "/") || StartsWith(url.value, "~/")
    ensures url.Some? && (url.value == "/" || StartsWith(url.value, "~/")) ==> IsLocalUrl(url)
    ensures !IsLocalUrl(None) && !IsLocalUrl(Some(""))
  {
    if IsLocalUrl(url) && |url.value| >= 2 {
      assert url.value[..2] == [url.value[0], url.value[1]];
    }
    if url.Some? && StartsWith(url.value, "~/") {
      assert url.value[0] == "~/"[0] && url.value[1] == "~/"[1];
    }
  }

  // ----- Query strings and fragments -----

  /** `AddQueryString(url, query)`: '?' when the URL has none, otherwise '&' unless it
    * already ends with one, then the query. */
  function AddQueryString(url: string, query: string): (r: string)
    ensures StartsWith(r, url) && EndsWith(r, query)
    ensures var head := r[..|r| - |query|];
            && |url| <= |head| <= |url| + 1
            && '?' in head
            && |head| > 0 && (head[|head| - 1] == '?' || head[|head| - 1] == '&')
            && ('?' !in url ==> head == url + "?")
            && ('?' in url ==> head == if EndsWith(url, "&") then url else url + "&")
  {
    var u := if '?' !in url then url + "?" else if !EndsWith(url, "&") then url + "&" else url;
    assert u[..|url|] == url;
    assert (u + query)[..|u|] == u;
    u + query
  }

  /** `AddHashFragment(url, fragment)`: '#' when the URL has none, then the fragment. */
  function AddHashFragment(url: string, fragment: string): (r: string)
    ensures StartsWith(r, url) && EndsWith(r, fragment)
    ensures var head := r[..|r| - |fragment|];
            && |url| <= |head| <= |url| + 1
            && '#' in head
            && (head == url <==> '#' in url)
  {
    var u := if '#' !in url then url + "#" else url;
    assert u[..|url|] == url;
    assert (u + fragment)[..|u|] == u;
    u + fragment
  }

  // ----- Origin -----

  /** `GetOrigin(url)`: null unless the URL starts with "http://" or "https://"; otherwise
    * the URL up to the first '/' after the "//", or the whole URL when there is none. */
  function GetOrigin(url: Option<string>): Option<string>
  {
    if url.None? || (!StartsWith(url.value, "http://") && !StartsWith(url.value, "https://")) then None
    else
      var u := url.value;
      var idx := IndexOf(u, "//", 0);
      if idx <= 0 then None
      else
        var next := IndexOf(u, "/", idx + 2);
        if next >= 0 then Some(u[..next]) else Some(u)
  }

  /** The "//" of an http or https URL is the one after the scheme. */
  lemma SchemeSlashes(u: string)
    requires StartsWith(u, "http://") || StartsWith(u, "https://")
    ensures var k := if StartsWith(u, "http://") then 5 else 6;
            IndexOf(u, "//", 0) == k
  {
    var k := if StartsWith(u, "http://") then 5 else 6;
    var scheme := if k == 5 then "http://" else "https://";
    assert u[..k + 2] == scheme;
    assert u[k..k + 2] == scheme[k..k + 2] == "//";
    assert OccursAt(u, "//", k);
    forall j | 0 <= j < k
      ensures !OccursAt(u, "//", j)
    {
      assert u[j] == scheme[j] != '/';
      assert u[j..j + 2][0] == u[j];
    }
  }

  /** `GetOrigin` gives a value exactly for http and https URLs; the value is a prefix of
    * the URL that keeps the scheme, has no '/' after the "//", and ends where the URL ends
    * or just before a '/'. The `idx <= 0` branch is never taken. */
  lemma GetOriginMeaning(url: Option<string>)
    ensures GetOrigin(url).Some? <==> url.Some? && (StartsWith(url.value, "http://") || StartsWith(url.value, "https://"))
    ensures GetOrigin(url).Some? ==>
              var u, o := url.value, GetOrigin(url).value;
              var k := if StartsWith(u, "http://") then 7 else 8;
              && k <= |o| <= |u| && o == u[..|o|]
              && (forall j :: k <= j < |o| ==> o[j] != '/')
              && (|o| == |u| || u[|o|] == '/')
  {
    if url.Some? && (StartsWith(url.value, "http://") || StartsWith(url.value, "https://")) {
      var u := url.value;
      SchemeSlashes(u);
      var idx := IndexOf(u, "//", 0);
      IndexOfSingle(u, '/', idx + 2);
    }
  }

  /** The origin of "http://a/b" is "http://a". */
  lemma GetOriginExample()
    ensures GetOrigin(Some("http://a/b")) == Some("http://a")
  {
    var u := "http://a/b";
    assert u[..7] == "http://";
    SchemeSlashes(u);
    assert IndexOf(u, "//", 0) == 5;
    assert OccursAt(u, "/", 8);
    assert !OccursAt(u, "/", 7) by {
      assert u[7..8] == "a";
    }
    assert IndexOf(u, "/", 7) == 8;
    assert u[..8] == "http://a";
  }

  // ----- Space-separated lists -----

  /** The string `ToSpaceSeparatedString(list)` returns: empty for a null list, otherwise
    * the elements each followed by a space, trimmed. */
  function SpaceSeparated(list: Option<seq<string>>): string
  {
    if list.None? then "" else Trim(Terminated(" ", list.value))
  }

  /** `ToSpaceSeparatedString(list)` */
  method ToSpaceSeparatedString(list: Option<seq<string>>) returns (r: string)
    ensures r == SpaceSeparated(list)
  {
    if list.None? {
      return "";
    }
    var elements := list.value;
    var sb := "";
    for i := 0 to |elements|
      invariant sb == Terminated(" ", elements[..i])
    {
      assert elements[..i + 1][..i] == elements[..i];
      sb := sb + (elements[i] + " ");
    }
    assert elements[..|elements|] == elements;
    r := Trim(sb);
  }

  /** `FromSpaceSeparatedString(input)`: the trimmed input split at spaces, empty entries
    * removed. */
  function FromSpaceSeparatedString(input: string): seq<string>
  {
    SplitNonEmpty(Trim(input), ' ')
  }

  /** A word: not empty and without white space. */
  predicate IsWord(s: string)
  {
    |s| > 0 && forall i :: 0 <= i < |s| ==> !IsWhiteSpace(s[i])
  }

  /** Reading back a space-separated list of words gives the words. */
  lemma SpaceSeparatedRoundTrip(list: seq<string>)
    requires forall i :: 0 <= i < |list| ==> IsWord(list[i])
    ensures FromSpaceSeparatedString(SpaceSeparated(Some(list))) == list
  {
    if |list| == 0 {
      assert Split("", ' ') == [""];
    } else {
      var j := Join(" ", list);
      TerminatedJoin(" ", list);
      JoinEnds(" ", list);
      var first, last := list[0], list[|list| - 1];
      assert j[0] == first[0];
      assert j[|j| - 1] == last[|last| - 1] by {
        assert j[|j| - |last|..][|last| - 1] == last[|last| - 1];
      }
      TrimTrailingSpace(j);
      TrimUntouched(j);
      assert forall i :: 0 <= i < |list| ==> ' ' !in list[i] by {
        assert IsWhiteSpace(' ');
      }
      assert " " == [' '];
      SplitJoin(list, ' ');
      NonEmptyKeeps(list);
    }
  }

  // ----- Scopes -----

  /** `Distinct()`: the first occurrence of every element, in order. */
  function Distinct(xs: seq<string>): (r: seq<string>)
    ensures forall i, j :: 0 <= i < j < |r| ==> r[i] != r[j]
    ensures forall x :: x in r <==> x in xs
  {
    if |xs| == 0 then []
    else
      var init := Distinct(xs[..|xs| - 1]);
      var x := xs[|xs| - 1];
      assert forall y :: y in xs <==> y in xs[..|xs| - 1] || y == x by {
        assert xs == xs[..|xs| - 1] + [x];
      }
      if x in init then init else init + [x]
  }

  /** Ordinal string order: by character codes, a proper prefix first. */
  predicate Below(a: string, b: string)
    decreases |a|
  {
    |b| > 0 && (|a| == 0 || a[0] < b[0] || (a[0] == b[0] && Below(a[1..], b[1..])))
  }

  lemma {:induction false} BelowIrreflexive(a: string)
    ensures !Below(a, a)
    decreases |a|
  {
    if |a| > 0 {
      BelowIrreflexive(a[1..]);
    }
  }

  lemma {:induction false} BelowTransitive(a: string, b: string, c: string)
    requires Below(a, b) && Below(b, c)
    ensures Below(a, c)
    decreases |a|
  {
    if |a| > 0 && a[0] == b[0] && b[0] == c[0] {
      BelowTransitive(a[1..], b[1..], c[1..]);
    }
  }

  lemma {:induction false} BelowTotal(a: string, b: string)
    requires a != b
    ensures Below(a, b) || Below(b, a)
    decreases |a|
  {
    if |a| > 0 && |b| > 0 && a[0] == b[0] {
      assert a[1..] != b[1..];
      BelowTotal(a[1..], b[1..]);
    }
  }

  /** Strictly ascending in ordinal order. */
  predicate Ascending(xs: seq<string>)
  {
    forall i, j :: 0 <= i < j < |xs| ==> Below(xs[i], xs[j])
  }

  /** `x` put in its place in an ascending list that does not hold it. */
  function Insert(x: string, xs: seq<string>): (r: seq<string>)
    requires Ascending(xs) && x !in xs
    ensures Ascending(r)
    ensures multiset(r) == multiset(xs) + multiset{x}
  {
    if |xs| == 0 then [x]
    else if Below(x, xs[0]) then
      InsertFirst(x, xs);
      [x] + xs
    else
      BelowTotal(x, xs[0]);
      var rest := Insert(x, xs[1..]);
      InsertAfterHead(x, xs, rest);
      [xs[0]] + rest
  }

  /** A string below the head of an ascending list goes in front of it. */
  lemma InsertFirst(x: string, xs: seq<string>)
    requires Ascending(xs) && |xs| > 0 && Below(x, xs[0])
    ensures Ascending([x] + xs)
  {
    forall j | 0 < j < |xs| ensures Below(x, xs[j]) { BelowTransitive(x, xs[0], xs[j]); }
  }

  /** The head of an ascending list stays in front of the others with `x` put among them. */
  lemma InsertAfterHead(x: string, xs: seq<string>, rest: seq<string>)
    requires Ascending(xs) && |xs| > 0 && Below(xs[0], x)
    requires Ascending(rest) && multiset(rest) == multiset(xs[1..]) + multiset{x}
    ensures Ascending([xs[0]] + rest)
    ensures multiset([xs[0]] + rest) == multiset(xs) + multiset{x}
  {
    assert xs == [xs[0]] + xs[1..];
    forall j | 0 <= j < |rest| ensures Below(xs[0], rest[j]) {
      assert rest[j] in multiset(rest);
      assert rest[j] == x || rest[j] in xs[1..];
    }
  }

  /** `List<string>.Sort()` on distinct strings, in ordinal order. */
  function Sort(xs: seq<string>): (r: seq<string>)
    requires forall i, j :: 0 <= i < j < |xs| ==> xs[i] != xs[j]
    ensures Ascending(r)
    ensures multiset(r) == multiset(xs)
  {
    if |xs| == 0 then []
    else
      var rest := Sort(xs[1..]);
      HeadNotRepeated(xs, rest);
      Insert(xs[0], rest)
  }

  /** The first of distinct strings is not among any rearrangement of the others. */
  lemma HeadNotRepeated(xs: seq<string>, rest: seq<string>)
    requires |xs| > 0 && forall i, j :: 0 <= i < j < |xs| ==> xs[i] != xs[j]
    requires multiset(rest) == multiset(xs[1..])
    ensures xs[0] !in rest && multiset(rest) + multiset{xs[0]} == multiset(xs)
  {
    assert xs[0] !in multiset(xs[1..]);
    assert xs == [xs[0]] + xs[1..];
  }

  /** `ParseScopesString(scopes)`: null for a blank input; otherwise the distinct
    * space-separated scopes, sorted. */
  function ParseScopesString(scopes: Option<string>): Option<seq<string>>
  {
    if IsMissing(scopes) then None
    else
      var parsed := Distinct(SplitNonEmpty(Trim(scopes.value), ' '));
      if |parsed| == 0 then None else Some(Sort(parsed))
  }

  /** A string that does not start with the separator has a non-empty first piece. */
  lemma SplitFirstNonEmpty(s: string, sep: char)
    requires |s| > 0 && s[0] != sep
    ensures |NonEmpty(Split(s, sep))| > 0
  {
    assert |Split(s, sep)[0]| > 0;
  }

  /** The scopes of a non-blank string: at least one, no repeats, in ascending ordinal
    * order, and exactly the space-separated pieces of the input. */
  lemma ParseScopesMeaning(scopes: Option<string>)
    ensures ParseScopesString(scopes).None? <==> IsMissing(scopes)
    ensures ParseScopesString(scopes).Some? ==>
              var r := ParseScopesString(scopes).value;
              && |r| > 0
              && Ascending(r)
              && (forall x :: x in r <==> x in FromSpaceSeparatedString(scopes.value))
  {
    if !IsMissing(scopes) {
      TrimKeeps(scopes.value);
      var t := Trim(scopes.value);
      assert !IsWhiteSpace(t[0]);
      assert IsWhiteSpace(' ');
      SplitFirstNonEmpty(t, ' ');
      var parsed := Distinct(SplitNonEmpty(t, ' '));
      assert SplitNonEmpty(t, ' ')[0] in parsed;
      var r := Sort(parsed);
      forall x
        ensures x in r <==> x in parsed
      {
        assert x in r <==> x in multiset(r);
      }
    }
  }
}
