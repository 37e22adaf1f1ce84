/** `StringUtils`: masking, full-width and half-width conversion, `\uXXXX` escapes, reading
  * a boolean, and splitting an identifier into words by character category, with the
  * case joiners built on that split. The Unicode character database and the culture's case
  * mappings are parameters: `category` stands for `CharUnicodeInfo.GetUnicodeCategory`,
  * `upper` and `lower` for `char.ToUpper` and `char.ToLower`. */
module StringUtils {
  import opened Wrappers
  import opened Text
  import Formats
  import MathUtils

  // ----- ToBoolean -----

  /** ASCII upper-casing of a whole string. */
  function UpperAscii(s: string): (r: string)
    ensures |r| == |s| && forall i :: 0 <= i < |s| ==> r[i] == AsciiUpper(s[i])
  {
    if |s| == 0 then "" else [AsciiUpper(s[0])] + UpperAscii(s[1..])
  }

  /** `ToBoolean(str)`: "true" or "yes" in any ASCII case, or exactly "1". */
  function ToBoolean(str: Option<string>): (r: bool)
  {
    !IsNullOrEmpty(str)
    && (EqualsIgnoreCase(str.value, "true") || EqualsIgnoreCase(str.value, "yes") || str.value == "1")
  }

  /** A string reads as true exactly when it is "1" or upper-cases to "TRUE" or "YES";
    * null and the empty string read as false. */
  lemma ToBooleanMeaning(str: Option<string>)
    ensures ToBoolean(str) <==>
      str.Some? && (str.value == "1" || UpperAscii(str.value) == "TRUE" || UpperAscii(str.value) == "YES")
    ensures str.None? || str == Some("") ==> !ToBoolean(str)
  {
    if str.Some? {
      var s := str.value;
      if UpperAscii(s) == "TRUE" {
        assert forall i :: 0 <= i < 4 ==> AsciiUpper(s[i]) == AsciiUpper("true"[i]);
      }
      if UpperAscii(s) == "YES" {
        assert forall i :: 0 <= i < 3 ==> AsciiUpper(s[i]) == AsciiUpper("yes"[i]);
      }
      if EqualsIgnoreCase(s, "true") {
        assert UpperAscii(s) == "TRUE";
      }
      if EqualsIgnoreCase(s, "yes") {
        assert UpperAscii(s) == "YES";
      }
    }
  }

  // ----- Mask -----

  /** The last position `Mask` overwrites, as the C# computes it: `index + length` and the
    * decrement after it are 32-bit operations that wrap around. */
  function WrittenLast(index: Formats.int32, length: Formats.int32, len: nat): int
  {
    var maxIndex := Formats.Wrap32(index as int + length as int) as int;
    Formats.Wrap32((if maxIndex >= len then len else maxIndex) - 1) as int
  }

  /** Whether `Mask` overwrites position `i` of a string of length `len`. */
  predicate Overwrites(index: Formats.int32, length: Formats.int32, len: nat, i: int)
  {
    0 <= index as int < len && length > 0 && index as int <= i <= WrittenLast(index, length, len)
  }

  /** `Mask(str, index, length, maskChar)`: null stays null; an index outside the string or
    * a length that is not positive leaves the string as it is; otherwise the characters
    * from `index` up to the computed last position become `maskChar`. A mask that starts at
    * 0 and reaches the end is written as `PadLeft` of the empty string. */
  method Mask(str: Option<string>, index: Formats.int32, length: Formats.int32, maskChar: char)
    returns (r: Option<string>)
    ensures str.None? <==> r.None?
    ensures str.Some? ==> |r.value| == |str.value|
    ensures str.Some? ==> forall i :: 0 <= i < |str.value| ==>
      r.value[i] == if Overwrites(index, length, |str.value|, i) then maskChar else str.value[i]
  {
    if str.None? {
      return None;
    }
    var s := str.value;
    var strLength := |s|;
    if index < 0 || index as int > strLength - 1 || length <= 0 {
      return str;
    }
    var minIndex := index as int;
    var maxIndex := Formats.Wrap32(index as int + length as int) as int;
    if maxIndex >= strLength {
      maxIndex := strLength;
      if minIndex == 0 {
        var all := PadLeft("", strLength, maskChar);
        return Some(all);
      }
    }
    maxIndex := Formats.Wrap32(maxIndex - 1) as int;
    assert maxIndex == WrittenLast(index, length, strLength);
    var b := "";
    for i := 0 to strLength
      invariant |b| == i
      invariant forall k :: 0 <= k < i ==>
        b[k] == if Overwrites(index, length, strLength, k) then maskChar else s[k]
    {
      if i < minIndex || i > maxIndex {
        b := b + [s[i]];
      } else {
        b := b + [maskChar];
      }
    }
    return Some(b);
  }

  /** `string.PadLeft(width, c)` of the empty string: `width` copies of `c`. */
  function PadLeft(s: string, width: nat, c: char): (r: string)
    requires s == ""
    ensures |r| == width && forall k :: 0 <= k < width ==> r[k] == c
  {
    if width == 0 then "" else PadLeft(s, width - 1, c) + [c]
  }

  /** The mask the method evidently means: positions from `index` to the end of the string
    * or `length` characters on, whichever comes first, in unbounded arithmetic. */
  function Masked(s: string, index: int, length: int, c: char): (r: string)
    ensures |r| == |s|
    ensures forall i :: 0 <= i < |s| ==>
      r[i] == if 0 <= index < |s| && length > 0 && index <= i < index + length then c else s[i]
  {
    if |s| == 0 then ""
    else
      var i := |s| - 1;
      Masked(s[..i], index, length, c)
      + [if 0 <= index < |s| && length > 0 && index <= i < index + length then c else s[i]]
  }

  /** While `index + length` fits in 32 bits, `Mask` overwrites exactly the positions
    * `Masked` does. */
  lemma MaskWithoutOverflow(index: Formats.int32, length: Formats.int32, s: string, i: int)
    requires index as int + length as int < 0x8000_0000
    requires 0 <= i < |s|
    ensures Overwrites(index, length, |s|, i) <==>
      (0 <= index as int < |s| && length > 0 && index as int <= i < index as int + length as int)
  {
  }

  /** Masking "abc" from position 2 with `int.MaxValue` characters: `2 + int.MaxValue` wraps
    * to a negative end, so nothing is overwritten, where the mask evidently meant is "ab*". */
  lemma MaskOverflow()
    ensures WrittenLast(2, 0x7FFF_FFFF, 3) < 2
    ensures forall i :: 0 <= i < 3 ==> !Overwrites(2, 0x7FFF_FFFF, 3, i)
    ensures Masked("abc", 2, 0x7FFF_FFFF, '*') == "ab*"
  {
    assert Formats.Wrap32(2 + 0x7FFF_FFFF) as int == -0x7FFF_FFFF;
    var m := Masked("abc", 2, 0x7FFF_FFFF, '*');
    assert m[0] == 'a' && m[1] == 'b' && m[2] == '*';
  }

  // ----- \uXXXX -----

  /** The six characters `\uXXXX` that stand for a UTF-16 code unit: the four lower-case
    * hexadecimal digits of its value, most significant first. */
  function Escape(c: char): (r: string)
    requires c as int < 0x1_0000
    ensures |r| == 6 && r[0] == '\\' && r[1] == 'u'
    ensures forall k :: 2 <= k < 6 ==> Formats.HexValue(r[k]) >= 0
    ensures Formats.HexNumber(r[2..]) == c as int
  {
    var digits := Formats.Nibbles(c as int, 4);
    UnitNibbles(c as int);
    var r := "\\u" + digits;
    assert r[2..] == digits;
    r
  }

  /** Four hexadecimal digits hold a UTF-16 code unit exactly. */
  lemma UnitNibbles(u: nat)
    requires u < 0x1_0000
    ensures forall j :: 0 <= j < 4 ==> Formats.HexValue(Formats.Nibbles(u, 4)[j]) >= 0
    ensures Formats.HexNumber(Formats.Nibbles(u, 4)) == u
  {
    Formats.NibblesValue(u, 4);
    assert Formats.Pow16(4) == 0x1_0000;
  }

  /** The digits of `Escape` are the four nibbles of the code unit, shifted out high first. */
  lemma EscapeDigits(c: char)
    requires c as int < 0x1_0000
    ensures Escape(c)[2] == Formats.HexChar(c as int / 0x1000 % 0x10)
    ensures Escape(c)[3] == Formats.HexChar(c as int / 0x100 % 0x10)
    ensures Escape(c)[4] == Formats.HexChar(c as int / 0x10 % 0x10)
    ensures Escape(c)[5] == Formats.HexChar(c as int % 0x10)
  {
    var u := c as int;
    assert u / 0x10 / 0x10 == u / 0x100;
    assert u / 0x100 / 0x10 == u / 0x1000;
    assert Formats.Nibbles(u, 4) == Formats.Nibbles(u / 0x10, 3) + [Formats.HexChar(u % 0x10)];
    assert Formats.Nibbles(u / 0x10, 3) == Formats.Nibbles(u / 0x100, 2) + [Formats.HexChar(u / 0x10 % 0x10)];
    assert Formats.Nibbles(u / 0x100, 2) == Formats.Nibbles(u / 0x1000, 1) + [Formats.HexChar(u / 0x100 % 0x10)];
    assert Formats.Nibbles(u / 0x1000, 1) == [Formats.HexChar(u / 0x1000 % 0x10)];
  }

  /** `ToCharAsUnicode(c, buffer)`: writes `\`, `u` and the four hexadecimal digits into the
    * first six places of the buffer, one by one; a shorter buffer takes what fits and the
    * next write throws. */
  method ToCharAsUnicode(c: char, buffer: array<char>) returns (r: Result<()>)
    requires c as int < 0x1_0000
    modifies buffer
    ensures r.Ok? <==> buffer.Length >= 6
    ensures r.Err? ==> r.error == IndexOutOfRange
    ensures forall i :: 0 <= i < buffer.Length ==>
      buffer[i] == if i < 6 then Escape(c)[i] else old(buffer[i])
  {
    EscapeDigits(c);
    var u := c as int;
    if buffer.Length < 1 {
      return Err(IndexOutOfRange);
    }
    buffer[0] := '\\';
    if buffer.Length < 2 {
      return Err(IndexOutOfRange);
    }
    buffer[1] := 'u';
    if buffer.Length < 3 {
      return Err(IndexOutOfRange);
    }
    buffer[2] := MathUtils.IntToHex((u / 0x1000 % 0x10) as Formats.int32) as int as char;
    if buffer.Length < 4 {
      return Err(IndexOutOfRange);
    }
    buffer[3] := MathUtils.IntToHex((u / 0x100 % 0x10) as Formats.int32) as int as char;
    if buffer.Length < 5 {
      return Err(IndexOutOfRange);
    }
    buffer[4] := MathUtils.IntToHex((u / 0x10 % 0x10) as Formats.int32) as int as char;
    if buffer.Length < 6 {
      return Err(IndexOutOfRange);
    }
    buffer[5] := MathUtils.IntToHex((u % 0x10) as Formats.int32) as int as char;
    return Ok(());
  }

  // ----- Full-width and half-width -----

  /** One character of `ToSBC`: the space becomes the ideographic space U+3000, and every
    * other character below 127 moves up by 65248 into the full-width forms. */
  function FullWidth(c: char): (d: char)
    ensures d as int >= 127
  {
    if c == ' ' then '\U{3000}'
    else if c as int < 127 then (c as int + 65248) as char
    else c
  }

  /** One character of `ToDBC`: U+3000 becomes the space, and the full-width forms
    * U+FF01..U+FF5E move down by 65248. */
  function HalfWidth(c: char): (d: char)
  {
    if c == '\U{3000}' then ' '
    else if 65280 < c as int < 65375 then (c as int - 65248) as char
    else c
  }

  /** `ToDBC` undoes `ToSBC` on a character exactly when the character is printable ASCII,
    * or is above ASCII and neither U+3000 nor a full-width form. */
  lemma HalfWidthFullWidth(c: char)
    ensures HalfWidth(FullWidth(c)) == c <==>
      (32 <= c as int < 127) || (c as int >= 127 && c != '\U{3000}' && !(65280 < c as int < 65375))
  {
  }

  /** `ToSBC(input)`: the characters are copied into an array and converted in place. */
  method ToSbc(input: string) returns (r: string)
    ensures |r| == |input|
    ensures forall i :: 0 <= i < |input| ==> r[i] == FullWidth(input[i])
  {
    var c := new char[|input|](i requires 0 <= i < |input| => input[i]);
    for i := 0 to c.Length
      invariant forall k :: 0 <= k < i ==> c[k] == FullWidth(input[k])
      invariant forall k :: i <= k < c.Length ==> c[k] == input[k]
    {
      if c[i] == ' ' {
        c[i] := '\U{3000}';
      } else if c[i] as int < 127 {
        c[i] := (c[i] as int + 65248) as char;
      }
    }
    r := c[..];
  }

  /** `ToDBC(input)`: the characters are copied into an array and converted in place. */
  method ToDbc(input: string) returns (r: string)
    ensures |r| == |input|
    ensures forall i :: 0 <= i < |input| ==> r[i] == HalfWidth(input[i])
  {
    var c := new char[|input|](i requires 0 <= i < |input| => input[i]);
    for i := 0 to c.Length
      invariant forall k :: 0 <= k < i ==> c[k] == HalfWidth(input[k])
      invariant forall k :: i <= k < c.Length ==> c[k] == input[k]
    {
      if c[i] == '\U{3000}' {
        c[i] := ' ';
      } else if 65280 < c[i] as int < 65375 {
        c[i] := (c[i] as int - 65248) as char;
      }
    }
    r := c[..];
  }

  // ----- SplitByCharacterType -----

  /** `UnicodeCategory`, naming the members the tokenizer tests; every other category is
    * `OtherCategory` with its enumeration value. */
  datatype UnicodeCategory =
    | UppercaseLetter
    | LowercaseLetter
    | ModifierSymbol
    | ConnectorPunctuation
    | DashPunctuation
    | OtherPunctuation
    | OtherCategory(code: int)

  /** The categories at which the tokenizer cuts and drops the character. */
  predicate Separator(c: UnicodeCategory)
  {
    c.ModifierSymbol? || c.ConnectorPunctuation? || c.DashPunctuation? || c.OtherPunctuation?
  }

  /** The tokenizer's state after some characters: the words found so far, the places they
    * start in the trimmed input, where the pending word starts, and the category of the
    * last character read. */
  datatype Scan = Scan(words: seq<string>, starts: seq<nat>, tokenStart: nat, current: UnicodeCategory)

  /** One pass of the loop body at position `pos`. */
  function Step(t: string, s: Scan, pos: nat, category: char -> UnicodeCategory, camelCase: bool,
                removeEmpty: bool): (r: Scan)
    requires 1 <= pos < |t|
    requires s.tokenStart <= pos && (s.tokenStart == pos ==> Separator(s.current))
    ensures |s.starts| == |s.words| ==> |r.starts| == |r.words|
    ensures r.tokenStart <= pos + 1 && (r.tokenStart == pos + 1 ==> Separator(r.current))
    ensures r.current == category(t[pos])
  {
    var kind := category(t[pos]);
    if kind == s.current then s
    else
      var cut: (Option<string>, nat) :=
        if Separator(kind) then
          if pos != s.tokenStart then (Some(t[s.tokenStart..pos]), pos + 1) else (None, s.tokenStart)
        else if camelCase && kind == LowercaseLetter && s.current == UppercaseLetter then
          if pos - 1 != s.tokenStart then (Some(t[s.tokenStart..pos - 1]), pos - 1) else (None, s.tokenStart)
        else (Some(t[s.tokenStart..pos]), pos);
      var value, start := cut.0, cut.1;
      if value.Some? && !(removeEmpty && AllWhiteSpace(value.value)) then
        Scan(s.words + [value.value], s.starts + [s.tokenStart], start, kind)
      else
        Scan(s.words, s.starts, start, kind)
  }

  /** The state when the loop reaches position `pos`. */
  function ScanTo(t: string, pos: nat, category: char -> UnicodeCategory, camelCase: bool,
                  removeEmpty: bool): (r: Scan)
    requires 1 <= pos <= |t|
    ensures r.tokenStart <= pos && (r.tokenStart == pos ==> Separator(r.current))
    ensures r.current == category(t[pos - 1]) && |r.starts| == |r.words|
    decreases pos
  {
    if pos == 1 then Scan([], [], 0, category(t[0]))
    else Step(t, ScanTo(t, pos - 1, category, camelCase, removeEmpty), pos - 1, category, camelCase, removeEmpty)
  }

  /** The words `SplitByCharacterType` returns. */
  function SplitWords(original: Option<string>, category: char -> UnicodeCategory, camelCase: bool,
                      removeEmpty: bool): seq<string>
  {
    if IsNullOrWhiteSpace(original) then []
    else
      TrimKeeps(original.value);
      var t := Trim(original.value);
      var s := ScanTo(t, |t|, category, camelCase, removeEmpty);
      s.words + [t[s.tokenStart..]]
  }

  /** `SplitByCharacterType(original, camelCase, splitOptions)`: a blank input has no words;
    * otherwise the trimmed input is read left to right and a word closes wherever the
    * category changes. A separator closes the word before it and is dropped; with
    * `camelCase`, an upper-case letter followed by a lower-case one starts a new word. The
    * pending word is appended at the end, even when empty. */
  method SplitByCharacterType(original: Option<string>, category: char -> UnicodeCategory,
                              camelCase: bool, removeEmpty: bool)
    returns (words: seq<string>)
    ensures words == SplitWords(original, category, camelCase, removeEmpty)
  {
    if IsNullOrWhiteSpace(original) {
      return [];
    }
    TrimKeeps(original.value);
    var t := Trim(original.value);
    var list: seq<string> := [];
    ghost var starts: seq<nat> := [];
    var tokenStart: nat := 0;
    var currentType := category(t[0]);
    for pos := 1 to |t|
      invariant ScanTo(t, pos, category, camelCase, removeEmpty) == Scan(list, starts, tokenStart, currentType)
    {
      list, starts, tokenStart, currentType :=
        ScanStep(t, pos, category, camelCase, removeEmpty, list, starts, tokenStart, currentType);
    }
    words := list + [t[tokenStart..]];
  }

  /** The body of `SplitByCharacterType`'s loop at position `pos`: where the category
    * changes, the pending word is closed and kept unless it is blank and blanks are
    * removed. */
  method ScanStep(t: string, pos: nat, category: char -> UnicodeCategory, camelCase: bool,
                  removeEmpty: bool, list0: seq<string>, ghost starts0: seq<nat>, tokenStart0: nat,
                  currentType0: UnicodeCategory)
    returns (list: seq<string>, ghost starts: seq<nat>, tokenStart: nat, currentType: UnicodeCategory)
    requires 1 <= pos < |t|
    requires tokenStart0 <= pos && (tokenStart0 == pos ==> Separator(currentType0))
    ensures Scan(list, starts, tokenStart, currentType) ==
      Step(t, Scan(list0, starts0, tokenStart0, currentType0), pos, category, camelCase, removeEmpty)
  {
    list, starts, tokenStart, currentType := list0, starts0, tokenStart0, currentType0;
    var kind := category(t[pos]);
    if kind != currentType {
      var value: Option<string> := None;
      if kind.ModifierSymbol? || kind.ConnectorPunctuation? || kind.DashPunctuation? || kind.OtherPunctuation? {
        var newTokenStart := pos;
        if newTokenStart != tokenStart {
          value := Some(t[tokenStart..newTokenStart]);
          tokenStart := newTokenStart + 1;
        }
      } else if camelCase && kind == LowercaseLetter && currentType == UppercaseLetter {
        var newTokenStart := pos - 1;
        if newTokenStart != tokenStart {
          value := Some(t[tokenStart..newTokenStart]);
          tokenStart := newTokenStart;
        }
      } else {
        value := Some(t[tokenStart..pos]);
        tokenStart := pos;
      }
      currentType := kind;
      if value.Some? && !(removeEmpty && AllWhiteSpace(value.value)) {
        list := list + [value.value];
        starts := starts + [tokenStart0];
      }
    }
  }

  /** Everything in `t[a..b]` is a separator or white space. */
  predicate Dropped(t: string, a: nat, b: nat, category: char -> UnicodeCategory)
    requires a <= b <= |t|
  {
    forall k :: a <= k < b ==> Separator(category(t[k])) || IsWhiteSpace(t[k])
  }

  /** A word ends where the category changes, or, with `camelCase`, just before an
    * upper-case letter that a lower-case one follows. */
  predicate EndsAtChange(t: string, e: int, category: char -> UnicodeCategory, camelCase: bool)
  {
    0 < e < |t|
    && (category(t[e - 1]) != category(t[e])
        || (camelCase && category(t[e]) == UppercaseLetter && e + 1 < |t| && category(t[e + 1]) == LowercaseLetter))
  }

  /** The words are pieces of `t` at the given starts, in order and without overlap; each
    * ends at a change and, when empty entries are removed, none is blank; and whatever lies
    * before the first word, between two words, or between the last word and `upTo`, is
    * separators and white space. */
  predicate Laid(t: string, words: seq<string>, starts: seq<nat>, upTo: nat,
                 category: char -> UnicodeCategory, camelCase: bool, removeEmpty: bool)
    decreases |words|
  {
    && |starts| == |words|
    && upTo <= |t|
    && if |words| == 0 then Dropped(t, 0, upTo, category)
       else
         var n := |words| - 1;
         var e := starts[n] + |words[n]|;
         && e <= upTo
         && Dropped(t, e, upTo, category)
         && words[n] == t[starts[n]..e]
         && EndsAtChange(t, e, category, camelCase)
         && (removeEmpty ==> !AllWhiteSpace(words[n]))
         && Laid(t, words[..n], starts[..n], starts[n], category, camelCase, removeEmpty)
  }

  /** What the loop keeps true: the layout of the words found so far up to the pending one. */
  predicate ScanInvariant(t: string, s: Scan, category: char -> UnicodeCategory, camelCase: bool, removeEmpty: bool)
  {
    Laid(t, s.words, s.starts, s.tokenStart, category, camelCase, removeEmpty)
  }

  /** Closing the pending word at `e` and resuming at `next` keeps the invariant when the
    * word ends at a change, is not blank when blanks are removed, and what is skipped is
    * separators and white space. */
  lemma AppendKeeps(t: string, s: Scan, e: nat, next: nat, kind: UnicodeCategory,
                    category: char -> UnicodeCategory, camelCase: bool, removeEmpty: bool)
    requires ScanInvariant(t, s, category, camelCase, removeEmpty)
    requires s.tokenStart <= e <= next <= |t| && Dropped(t, e, next, category)
    requires EndsAtChange(t, e, category, camelCase)
    requires removeEmpty ==> !AllWhiteSpace(t[s.tokenStart..e])
    ensures ScanInvariant(t, Scan(s.words + [t[s.tokenStart..e]], s.starts + [s.tokenStart], next, kind),
                          category, camelCase, removeEmpty)
  {
    var words, starts := s.words + [t[s.tokenStart..e]], s.starts + [s.tokenStart];
    assert words[..|s.words|] == s.words && starts[..|s.words|] == s.starts;
  }

  /** Dropping the pending word and resuming at `next` keeps the invariant when what is
    * dropped is separators and white space. */
  lemma SkipKeeps(t: string, s: Scan, next: nat, kind: UnicodeCategory,
                  category: char -> UnicodeCategory, camelCase: bool, removeEmpty: bool)
    requires ScanInvariant(t, s, category, camelCase, removeEmpty)
    requires s.tokenStart <= next <= |t| && Dropped(t, s.tokenStart, next, category)
    ensures ScanInvariant(t, Scan(s.words, s.starts, next, kind), category, camelCase, removeEmpty)
  {
  }

  /** A blank piece is dropped. */
  lemma BlankDropped(t: string, a: nat, e: nat, category: char -> UnicodeCategory)
    requires a <= e <= |t| && AllWhiteSpace(t[a..e])
    ensures Dropped(t, a, e, category)
  {
    assert forall k :: a <= k < e ==> t[a..e][k - a] == t[k];
  }

  /** A dropped piece followed by a separator is dropped. */
  lemma DroppedExtend(t: string, a: nat, e: nat, category: char -> UnicodeCategory)
    requires a <= e < |t| && Dropped(t, a, e, category) && Separator(category(t[e]))
    ensures Dropped(t, a, e + 1, category)
  {
  }

  /** The loop body at a separator keeps the invariant. */
  lemma SeparatorKeeps(t: string, s: Scan, pos: nat, category: char -> UnicodeCategory, camelCase: bool, removeEmpty: bool)
    requires 1 <= pos < |t|
    requires s.tokenStart <= pos && (s.tokenStart == pos ==> Separator(s.current))
    requires s.current == category(t[pos - 1])
    requires ScanInvariant(t, s, category, camelCase, removeEmpty)
    requires category(t[pos]) != s.current && Separator(category(t[pos]))
    ensures ScanInvariant(t, Step(t, s, pos, category, camelCase, removeEmpty), category, camelCase, removeEmpty)
  {
    var a := s.tokenStart;
    if pos == a {
      SeparatorAtStart(t, s, pos, category, camelCase, removeEmpty);
    } else if removeEmpty && AllWhiteSpace(t[a..pos]) {
      SeparatorDropsBlank(t, s, pos, category, camelCase, removeEmpty);
    } else {
      SeparatorCloses(t, s, pos, category, camelCase, removeEmpty);
    }
  }

  lemma SeparatorAtStart(t: string, s: Scan, pos: nat, category: char -> UnicodeCategory, camelCase: bool, removeEmpty: bool)
    requires 1 <= pos < |t|
    requires s.tokenStart <= pos && (s.tokenStart == pos ==> Separator(s.current))
    requires ScanInvariant(t, s, category, camelCase, removeEmpty)
    requires category(t[pos]) != s.current && Separator(category(t[pos]))
    requires s.tokenStart == pos
    ensures ScanInvariant(t, Step(t, s, pos, category, camelCase, removeEmpty), category, camelCase, removeEmpty)
  {
    SeparatorStep(t, s, pos, category, camelCase, removeEmpty);
  }

  lemma SeparatorDropsBlank(t: string, s: Scan, pos: nat, category: char -> UnicodeCategory, camelCase: bool, removeEmpty: bool)
    requires 1 <= pos < |t|
    requires s.tokenStart <= pos && (s.tokenStart == pos ==> Separator(s.current))
    requires ScanInvariant(t, s, category, camelCase, removeEmpty)
    requires category(t[pos]) != s.current && Separator(category(t[pos]))
    requires s.tokenStart < pos && removeEmpty && AllWhiteSpace(t[s.tokenStart..pos])
    ensures ScanInvariant(t, Step(t, s, pos, category, camelCase, removeEmpty), category, camelCase, removeEmpty)
  {
    var a := s.tokenStart;
    SeparatorStep(t, s, pos, category, camelCase, removeEmpty);
    BlankDropped(t, a, pos, category);
    DroppedExtend(t, a, pos, category);
    SkipKeeps(t, s, pos + 1, category(t[pos]), category, camelCase, removeEmpty);
  }

  lemma SeparatorCloses(t: string, s: Scan, pos: nat, category: char -> UnicodeCategory, camelCase: bool, removeEmpty: bool)
    requires 1 <= pos < |t|
    requires s.tokenStart <= pos && (s.tokenStart == pos ==> Separator(s.current))
    requires ScanInvariant(t, s, category, camelCase, removeEmpty)
    requires category(t[pos]) != s.current && Separator(category(t[pos]))
    requires s.tokenStart < pos && !(removeEmpty && AllWhiteSpace(t[s.tokenStart..pos]))
    requires s.current == category(t[pos - 1])
    ensures ScanInvariant(t, Step(t, s, pos, category, camelCase, removeEmpty), category, camelCase, removeEmpty)
  {
    SeparatorStep(t, s, pos, category, camelCase, removeEmpty);
    AppendKeeps(t, s, pos, pos + 1, category(t[pos]), category, camelCase, removeEmpty);
  }

  /** At a separator the loop body closes the current piece, dropping it when it is blank
    * and blank pieces are removed, and the next piece starts after the separator. */
  lemma SeparatorStep(t: string, s: Scan, pos: nat, category: char -> UnicodeCategory, camelCase: bool, removeEmpty: bool)
    requires 1 <= pos < |t|
    requires s.tokenStart <= pos && (s.tokenStart == pos ==> Separator(s.current))
    requires category(t[pos]) != s.current && Separator(category(t[pos]))
    ensures var a, kind := s.tokenStart, category(t[pos]);
            Step(t, s, pos, category, camelCase, removeEmpty)
            == if pos == a then Scan(s.words, s.starts, a, kind)
               else if removeEmpty && AllWhiteSpace(t[a..pos]) then Scan(s.words, s.starts, pos + 1, kind)
               else Scan(s.words + [t[a..pos]], s.starts + [a], pos + 1, kind)
  {
  }

  /** The loop body at a lower-case letter after an upper-case one keeps the invariant
    * when splitting camel case. */
  lemma CamelKeeps(t: string, s: Scan, pos: nat, category: char -> UnicodeCategory, camelCase: bool, removeEmpty: bool)
    requires 1 <= pos < |t|
    requires s.tokenStart <= pos && (s.tokenStart == pos ==> Separator(s.current))
    requires s.current == category(t[pos - 1])
    requires ScanInvariant(t, s, category, camelCase, removeEmpty)
    requires camelCase && category(t[pos]) == LowercaseLetter && s.current == UppercaseLetter
    ensures ScanInvariant(t, Step(t, s, pos, category, camelCase, removeEmpty), category, camelCase, removeEmpty)
  {
    var a := s.tokenStart;
    if pos - 1 == a {
      CamelAtStart(t, s, pos, category, camelCase, removeEmpty);
    } else if removeEmpty && AllWhiteSpace(t[a..pos - 1]) {
      CamelDropsBlank(t, s, pos, category, camelCase, removeEmpty);
    } else {
      CamelCloses(t, s, pos, category, camelCase, removeEmpty);
    }
  }

  lemma CamelAtStart(t: string, s: Scan, pos: nat, category: char -> UnicodeCategory, camelCase: bool, removeEmpty: bool)
    requires 1 <= pos < |t|
    requires s.tokenStart <= pos && (s.tokenStart == pos ==> Separator(s.current))
    requires s.current == category(t[pos - 1])
    requires ScanInvariant(t, s, category, camelCase, removeEmpty)
    requires camelCase && category(t[pos]) == LowercaseLetter && s.current == UppercaseLetter
    requires s.tokenStart == pos - 1
    ensures ScanInvariant(t, Step(t, s, pos, category, camelCase, removeEmpty), category, camelCase, removeEmpty)
  {
    assert Step(t, s, pos, category, camelCase, removeEmpty) == Scan(s.words, s.starts, pos - 1, category(t[pos]));
  }

  lemma CamelDropsBlank(t: string, s: Scan, pos: nat, category: char -> UnicodeCategory, camelCase: bool, removeEmpty: bool)
    requires 1 <= pos < |t|
    requires s.tokenStart <= pos && (s.tokenStart == pos ==> Separator(s.current))
    requires s.current == category(t[pos - 1])
    requires ScanInvariant(t, s, category, camelCase, removeEmpty)
    requires camelCase && category(t[pos]) == LowercaseLetter && s.current == UppercaseLetter
    requires s.tokenStart < pos - 1 && removeEmpty && AllWhiteSpace(t[s.tokenStart..pos - 1])
    ensures ScanInvariant(t, Step(t, s, pos, category, camelCase, removeEmpty), category, camelCase, removeEmpty)
  {
    var a, kind := s.tokenStart, category(t[pos]);
    assert Step(t, s, pos, category, camelCase, removeEmpty) == Scan(s.words, s.starts, pos - 1, kind);
    BlankDropped(t, a, pos - 1, category);
    SkipKeeps(t, s, pos - 1, kind, category, camelCase, removeEmpty);
  }

  lemma CamelCloses(t: string, s: Scan, pos: nat, category: char -> UnicodeCategory, camelCase: bool, removeEmpty: bool)
    requires 1 <= pos < |t|
    requires s.tokenStart <= pos && (s.tokenStart == pos ==> Separator(s.current))
    requires s.current == category(t[pos - 1])
    requires ScanInvariant(t, s, category, camelCase, removeEmpty)
    requires camelCase && category(t[pos]) == LowercaseLetter && s.current == UppercaseLetter
    requires s.tokenStart < pos - 1 && !(removeEmpty && AllWhiteSpace(t[s.tokenStart..pos - 1]))
    ensures ScanInvariant(t, Step(t, s, pos, category, camelCase, removeEmpty), category, camelCase, removeEmpty)
  {
    CamelStep(t, s, pos, category, camelCase, removeEmpty);
    assert EndsAtChange(t, pos - 1, category, camelCase);
    AppendKeeps(t, s, pos - 1, pos - 1, category(t[pos]), category, camelCase, removeEmpty);
  }

  /** Before a lower-case letter that follows an upper-case one, the loop body closes the
    * current piece just before the upper-case letter, which starts the next piece. */
  lemma CamelStep(t: string, s: Scan, pos: nat, category: char -> UnicodeCategory, camelCase: bool, removeEmpty: bool)
    requires 1 <= pos < |t|
    requires s.tokenStart < pos - 1
    requires camelCase && category(t[pos]) == LowercaseLetter && s.current == UppercaseLetter
    requires !(removeEmpty && AllWhiteSpace(t[s.tokenStart..pos - 1]))
    ensures Step(t, s, pos, category, camelCase, removeEmpty)
            == Scan(s.words + [t[s.tokenStart..pos - 1]], s.starts + [s.tokenStart], pos - 1, category(t[pos]))
  {
  }

  /** Any other change of category keeps the invariant. */
  lemma ChangeKeeps(t: string, s: Scan, pos: nat, category: char -> UnicodeCategory, camelCase: bool, removeEmpty: bool)
    requires 1 <= pos < |t|
    requires s.tokenStart <= pos && (s.tokenStart == pos ==> Separator(s.current))
    requires s.current == category(t[pos - 1])
    requires ScanInvariant(t, s, category, camelCase, removeEmpty)
    requires category(t[pos]) != s.current && !Separator(category(t[pos]))
    requires !(camelCase && category(t[pos]) == LowercaseLetter && s.current == UppercaseLetter)
    ensures ScanInvariant(t, Step(t, s, pos, category, camelCase, removeEmpty), category, camelCase, removeEmpty)
  {
    var kind := category(t[pos]);
    var a := s.tokenStart;
    var r := Step(t, s, pos, category, camelCase, removeEmpty);
    if removeEmpty && AllWhiteSpace(t[a..pos]) {
      assert r == Scan(s.words, s.starts, pos, kind);
      BlankDropped(t, a, pos, category);
      SkipKeeps(t, s, pos, kind, category, camelCase, removeEmpty);
    } else {
      assert r == Scan(s.words + [t[a..pos]], s.starts + [a], pos, kind);
      AppendKeeps(t, s, pos, pos, kind, category, camelCase, removeEmpty);
    }
  }

  /** One pass of the loop body keeps the invariant. */
  lemma StepKeeps(t: string, s: Scan, pos: nat, category: char -> UnicodeCategory, camelCase: bool, removeEmpty: bool)
    requires 1 <= pos < |t|
    requires s.tokenStart <= pos && (s.tokenStart == pos ==> Separator(s.current))
    requires s.current == category(t[pos - 1])
    requires ScanInvariant(t, s, category, camelCase, removeEmpty)
    ensures ScanInvariant(t, Step(t, s, pos, category, camelCase, removeEmpty), category, camelCase, removeEmpty)
  {
    var kind := category(t[pos]);
    if kind == s.current {
      assert Step(t, s, pos, category, camelCase, removeEmpty) == s;
    } else if Separator(kind) {
      SeparatorKeeps(t, s, pos, category, camelCase, removeEmpty);
    } else if camelCase && kind == LowercaseLetter && s.current == UppercaseLetter {
      CamelKeeps(t, s, pos, category, camelCase, removeEmpty);
    } else {
      ChangeKeeps(t, s, pos, category, camelCase, removeEmpty);
    }
  }

  /** The invariant holds wherever the loop is. */
  lemma {:induction false} ScanKeeps(t: string, pos: nat, category: char -> UnicodeCategory, camelCase: bool, removeEmpty: bool)
    requires 1 <= pos <= |t|
    ensures ScanInvariant(t, ScanTo(t, pos, category, camelCase, removeEmpty), category, camelCase, removeEmpty)
    decreases pos
  {
    if pos > 1 {
      ScanKeeps(t, pos - 1, category, camelCase, removeEmpty);
      StepKeeps(t, ScanTo(t, pos - 1, category, camelCase, removeEmpty), pos - 1, category, camelCase, removeEmpty);
    }
  }

  /** The layout read as facts about each word: it is the piece of `t` at its start, the
    * pieces come in order without overlap, each ends at a change, and none is blank when
    * empty entries are removed. */
  lemma LaidPieces(t: string, words: seq<string>, starts: seq<nat>, upTo: nat,
                                      category: char -> UnicodeCategory, camelCase: bool, removeEmpty: bool)
    requires Laid(t, words, starts, upTo, category, camelCase, removeEmpty)
    ensures forall i :: 0 <= i < |words| ==>
              && starts[i] + |words[i]| <= upTo
              && words[i] == t[starts[i]..starts[i] + |words[i]|]
              && EndsAtChange(t, starts[i] + |words[i]|, category, camelCase)
              && (removeEmpty ==> !AllWhiteSpace(words[i]))
    ensures forall i, j :: 0 <= i < j < |words| ==> starts[i] + |words[i]| <= starts[j]
  {
    LaidEach(t, words, starts, upTo, category, camelCase, removeEmpty);
    LaidInOrder(t, words, starts, upTo, category, camelCase, removeEmpty);
    forall i | 0 <= i < |words|
      ensures && starts[i] + |words[i]| <= upTo
              && words[i] == t[starts[i]..starts[i] + |words[i]|]
              && EndsAtChange(t, starts[i] + |words[i]|, category, camelCase)
              && (removeEmpty ==> !AllWhiteSpace(words[i]))
    {
      assert PieceAt(t, words, starts, upTo, i, category, camelCase, removeEmpty);
    }
  }

  lemma {:induction false} LaidEach(t: string, words: seq<string>, starts: seq<nat>, upTo: nat,
                                    category: char -> UnicodeCategory, camelCase: bool, removeEmpty: bool)
    requires Laid(t, words, starts, upTo, category, camelCase, removeEmpty)
    ensures forall i :: 0 <= i < |words| ==> PieceAt(t, words, starts, upTo, i, category, camelCase, removeEmpty)
    decreases |words|
  {
    if |words| > 0 {
      var n := |words| - 1;
      LaidEach(t, words[..n], starts[..n], starts[n], category, camelCase, removeEmpty);
      forall i | 0 <= i < |words|
        ensures PieceAt(t, words, starts, upTo, i, category, camelCase, removeEmpty)
      {
        if i < n {
          assert PieceAt(t, words[..n], starts[..n], starts[n], i, category, camelCase, removeEmpty);
          assert words[..n][i] == words[i] && starts[..n][i] == starts[i];
        }
      }
    }
  }

  /** Word `i` is the piece of `t` at its start, ends by `upTo` at a change, and is not
    * blank when empty entries are removed. */
  predicate PieceAt(t: string, words: seq<string>, starts: seq<nat>, upTo: nat, i: nat,
                    category: char -> UnicodeCategory, camelCase: bool, removeEmpty: bool)
    requires i < |words| == |starts|
  {
    && starts[i] + |words[i]| <= upTo <= |t|
    && words[i] == t[starts[i]..starts[i] + |words[i]|]
    && EndsAtChange(t, starts[i] + |words[i]|, category, camelCase)
    && (removeEmpty ==> !AllWhiteSpace(words[i]))
  }

  lemma {:induction false} LaidInOrder(t: string, words: seq<string>, starts: seq<nat>, upTo: nat,
                                      category: char -> UnicodeCategory, camelCase: bool, removeEmpty: bool)
    requires Laid(t, words, starts, upTo, category, camelCase, removeEmpty)
    ensures forall i, j :: 0 <= i < j < |words| ==> starts[i] + |words[i]| <= starts[j]
    decreases |words|
  {
    if |words| > 0 {
      var n := |words| - 1;
      LaidInOrder(t, words[..n], starts[..n], starts[n], category, camelCase, removeEmpty);
      LaidEach(t, words[..n], starts[..n], starts[n], category, camelCase, removeEmpty);
      forall i, j | 0 <= i < j < |words|
        ensures starts[i] + |words[i]| <= starts[j]
      {
        assert PieceAt(t, words[..n], starts[..n], starts[n], i, category, camelCase, removeEmpty);
        assert words[..n][i] == words[i] && starts[..n][i] == starts[i];
        if j < n {
          assert starts[..n][j] == starts[j];
        }
      }
    }
  }


  /** Where each word of `SplitWords` starts in the trimmed input. */
  ghost function SplitStarts(original: Option<string>, category: char -> UnicodeCategory, camelCase: bool,
                             removeEmpty: bool): (r: seq<nat>)
    requires !IsNullOrWhiteSpace(original)
    ensures |r| == |SplitWords(original, category, camelCase, removeEmpty)|
  {
    TrimKeeps(original.value);
    var t := Trim(original.value);
    var s := ScanTo(t, |t|, category, camelCase, removeEmpty);
    s.starts + [s.tokenStart]
  }

  /** What `SplitByCharacterType` returns: nothing for a blank input; otherwise at least one
    * word, the last one running from its start to the end of the trimmed input, and the
    * others laid out before it as `Laid` (and `LaidPieces`) describe: pieces of the trimmed
    * input in order, each ending where the category changes or before a camel-case capital,
    * none blank when empty entries are removed, and only separators and white space
    * between them. */
  lemma SplitWordsLayout(original: Option<string>, category: char -> UnicodeCategory, camelCase: bool,
                         removeEmpty: bool)
    ensures IsNullOrWhiteSpace(original) <==> SplitWords(original, category, camelCase, removeEmpty) == []
    ensures !IsNullOrWhiteSpace(original) ==>
              var t := Trim(original.value);
              var r := SplitWords(original, category, camelCase, removeEmpty);
              var st := SplitStarts(original, category, camelCase, removeEmpty);
              var n := |r| - 1;
              && |r| >= 1
              && st[n] <= |t| && r[n] == t[st[n]..]
              && Laid(t, r[..n], st[..n], st[n], category, camelCase, removeEmpty)
  {
    if !IsNullOrWhiteSpace(original) {
      TrimKeeps(original.value);
      var t := Trim(original.value);
      var s := ScanTo(t, |t|, category, camelCase, removeEmpty);
      ScanKeeps(t, |t|, category, camelCase, removeEmpty);
      var r := SplitWords(original, category, camelCase, removeEmpty);
      var st := SplitStarts(original, category, camelCase, removeEmpty);
      assert r[..|s.words|] == s.words && st[..|s.words|] == s.starts;
    }
  }

  /** The categories of ASCII letters, digits, space and `-`; anything else is unassigned. */
  function AsciiCategory(c: char): UnicodeCategory
  {
    if 'A' <= c <= 'Z' then UppercaseLetter
    else if 'a' <= c <= 'z' then LowercaseLetter
    else if c == '-' then DashPunctuation
    else if '0' <= c <= '9' then OtherCategory(8)
    else if c == ' ' then OtherCategory(11)
    else OtherCategory(29)
  }

  /** "xYz-w" holds no blank at either end, so trimming keeps it. */
  lemma CamelDashTrimmed()
    ensures !IsNullOrWhiteSpace(Some("xYz-w")) && Trim("xYz-w") == "xYz-w"
  {
    var t := "xYz-w";
    assert !IsWhiteSpace(t[0]) && !IsWhiteSpace(t[4]);
    assert TrimStart(t) == t;
  }

  /** The capital after "x" closes "x". */
  lemma CamelDashCapital(removeEmpty: bool)
    ensures ScanTo("xYz-w", 2, AsciiCategory, true, removeEmpty) == Scan(["x"], [0], 1, UppercaseLetter)
  {
    var t := "xYz-w";
    assert ScanTo(t, 1, AsciiCategory, true, removeEmpty) == Scan([], [], 0, LowercaseLetter);
    assert t[0..1] == "x" && AsciiCategory(t[1]) == UppercaseLetter;
  }

  /** The lower-case letter after "Y" finds the camel-case cut already in place. */
  lemma CamelDashLower(removeEmpty: bool)
    ensures ScanTo("xYz-w", 3, AsciiCategory, true, removeEmpty) == Scan(["x"], [0], 1, LowercaseLetter)
  {
    CamelDashCapital(removeEmpty);
    assert AsciiCategory("xYz-w"[2]) == LowercaseLetter;
  }

  /** The first four steps over "xYz-w": "x" closes at the capital, the camel-case cut
    * before "Y" is already in place, and the dash closes "Yz". */
  lemma ScanCamelDash(removeEmpty: bool)
    ensures ScanTo("xYz-w", 4, AsciiCategory, true, removeEmpty) == Scan(["x", "Yz"], [0, 1], 4, DashPunctuation)
  {
    var t := "xYz-w";
    CamelDashLower(removeEmpty);
    assert AsciiCategory(t[3]) == DashPunctuation;
    assert t[1..3] == "Yz";
  }

  /** The letter after the dash closes the empty word between them, which is kept only
    * when empty entries are kept. */
  lemma CamelDashEnd(removeEmpty: bool)
    ensures ScanTo("xYz-w", 5, AsciiCategory, true, removeEmpty)
         == if removeEmpty then Scan(["x", "Yz"], [0, 1], 4, LowercaseLetter)
            else Scan(["x", "Yz", ""], [0, 1, 4], 4, LowercaseLetter)
  {
    var t := "xYz-w";
    ScanCamelDash(removeEmpty);
    assert t[4..4] == "" && AsciiCategory(t[4]) == LowercaseLetter;
  }

  /** Camel case and a dash split "xYz-w" into "x", "Yz" and "w". */
  lemma SplitCamelExample()
    ensures SplitWords(Some("xYz-w"), AsciiCategory, true, true) == ["x", "Yz", "w"]
  {
    CamelDashTrimmed();
    CamelDashEnd(true);
    assert "xYz-w"[4..] == "w";
  }

  /** With empty entries kept, the tokenizer cuts an empty word between a dash and the
    * letter after it. */
  lemma SplitKeepsEmptyExample()
    ensures SplitWords(Some("xYz-w"), AsciiCategory, true, false) == ["x", "Yz", "", "w"]
  {
    CamelDashTrimmed();
    CamelDashEnd(false);
    assert "xYz-w"[4..] == "w";
  }

  /** "a-" holds no blank at either end, so trimming keeps it. */
  lemma TrailingTrimmed()
    ensures !IsNullOrWhiteSpace(Some("a-")) && Trim("a-") == "a-"
  {
    var t := "a-";
    assert !IsWhiteSpace(t[0]) && !IsWhiteSpace(t[1]);
    assert TrimStart(t) == t;
  }

  /** The dash closes "a" and the pending word starts after it. */
  lemma TrailingScan()
    ensures ScanTo("a-", 2, AsciiCategory, true, true) == Scan(["a"], [0], 2, DashPunctuation)
  {
    var t := "a-";
    assert ScanTo(t, 1, AsciiCategory, true, true) == Scan([], [], 0, LowercaseLetter);
    assert t[0..1] == "a" && AsciiCategory(t[1]) == DashPunctuation;
  }

  /** The word after a trailing separator is empty and is returned even when empty entries
    * are removed. */
  lemma SplitTrailingExample()
    ensures SplitWords(Some("a-"), AsciiCategory, true, true) == ["a", ""]
  {
    TrailingTrimmed();
    TrailingScan();
    assert "a-"[2..] == "";
  }

  // ----- Case joiners -----

  /** `ToUnderscoreUpperCase`, `ToUnderscoreLowerCase`, `ToHyphenUpperCase`,
    * `ToHyphenLowerCase`, `ToDotUpperCase`, `ToDotLowerCase`, `ToWordUpperCase` and
    * `ToWordLowerCase`: the words, empty entries removed, joined with `sep` ("_", "-", "."
    * or " ") and mapped with the culture's `caseMap` (upper or lower). */
  function ToSeparatedCase(original: Option<string>, category: char -> UnicodeCategory, camelCase: bool,
                           sep: string, caseMap: char -> char): string
  {
    MapChars(Join(sep, SplitWords(original, category, camelCase, true)), caseMap)
  }

  /** `ToAllUpperCase` and `ToAllLowerCase`: the words concatenated and mapped. */
  function ToAllCase(original: Option<string>, category: char -> UnicodeCategory, camelCase: bool,
                     caseMap: char -> char): string
  {
    MapChars(Concat(SplitWords(original, category, camelCase, true)), caseMap)
  }

  /** A blank input gives the empty string; otherwise, when the mapping keeps the separator
    * and no mapped word contains it, splitting the result at the separator gives back
    * exactly the mapped words. */
  lemma SeparatedCaseSplits(original: Option<string>, category: char -> UnicodeCategory, camelCase: bool,
                            sep: char, caseMap: char -> char)
    ensures IsNullOrWhiteSpace(original) ==> ToSeparatedCase(original, category, camelCase, [sep], caseMap) == ""
    ensures var words := MapAll(SplitWords(original, category, camelCase, true), caseMap);
            && !IsNullOrWhiteSpace(original) && caseMap(sep) == sep
            && (forall i :: 0 <= i < |words| ==> sep !in words[i])
            ==> Split(ToSeparatedCase(original, category, camelCase, [sep], caseMap), sep) == words
  {
    var words := SplitWords(original, category, camelCase, true);
    SplitWordsLayout(original, category, camelCase, true);
    var mapped := MapAll(words, caseMap);
    if !IsNullOrWhiteSpace(original) && caseMap(sep) == sep && (forall i :: 0 <= i < |mapped| ==> sep !in mapped[i]) {
      assert MapChars([sep], caseMap) == [sep];
      MapJoin([sep], words, caseMap);
      SplitJoin(mapped, sep);
    }
  }

  /** `ToAll*Case` is the separated form with the empty separator. */
  lemma AllCaseIsEmptySeparator(original: Option<string>, category: char -> UnicodeCategory, camelCase: bool,
                                caseMap: char -> char)
    ensures ToAllCase(original, category, camelCase, caseMap) == ToSeparatedCase(original, category, camelCase, "", caseMap)
  {
    JoinEmpty(SplitWords(original, category, camelCase, true));
  }

  /** One word in Pascal case: its first character upper-cased and the rest lower-cased. */
  function PascalWord(w: string, upper: char -> char, lower: char -> char): (r: string)
    requires |w| >= 1
    ensures |r| == |w| && r[0] == upper(w[0]) && r[1..] == MapChars(w[1..], lower)
  {
    [upper(w[0])] + MapChars(w[1..], lower)
  }

  /** The result of the `ToPascalCase` loop over `words`: reading `word[0]` of an empty word
    * throws `IndexOutOfRangeException`. */
  function PascalOf(words: seq<string>, upper: char -> char, lower: char -> char): (r: Result<string>)
    ensures r.Err? ==> r.error == IndexOutOfRange
  {
    if |words| == 0 then Ok("")
    else
      var last := words[|words| - 1];
      match PascalOf(words[..|words| - 1], upper, lower)
      case Err(e) => Err(e)
      case Ok(p) => if |last| == 0 then Err(IndexOutOfRange) else Ok(p + PascalWord(last, upper, lower))
  }

  /** The loop over one more word: an empty one fails, any other one is appended. */
  lemma PascalStep(words: seq<string>, i: nat, s: string, upper: char -> char, lower: char -> char)
    requires i < |words| && PascalOf(words[..i], upper, lower) == Ok(s)
    ensures PascalOf(words[..i + 1], upper, lower) ==
              if |words[i]| == 0 then Err(IndexOutOfRange) else Ok(s + PascalWord(words[i], upper, lower))
  {
    assert words[..i + 1][..i] == words[..i];
  }

  /** `ToPascalCase(original)`: the words (camel case, empty entries removed), each with its
    * first character upper-cased and the rest lower-cased, concatenated. */
  method ToPascalCase(original: Option<string>, category: char -> UnicodeCategory, upper: char -> char,
                      lower: char -> char)
    returns (r: Result<string>)
    ensures r == PascalOf(SplitWords(original, category, true, true), upper, lower)
  {
    var words := SplitByCharacterType(original, category, true, true);
    r := AppendPascalWords(words, upper, lower);
  }

  /** The `foreach` loop of `ToPascalCase` over `words`, appending to a `StringBuilder`. */
  method AppendPascalWords(words: seq<string>, upper: char -> char, lower: char -> char)
    returns (r: Result<string>)
    ensures r == PascalOf(words, upper, lower)
  {
    var s := "";
    for i := 0 to |words|
      invariant PascalOf(words[..i], upper, lower) == Ok(s)
    {
      PascalStep(words, i, s, upper, lower);
      if |words[i]| == 0 {
        PascalFails(words, upper, lower);
        return Err(IndexOutOfRange);
      }
      ghost var before := s;
      s := s + [upper(words[i][0])];
      s := s + MapChars(words[i][1..], lower);
      assert s == before + PascalWord(words[i], upper, lower);
    }
    assert words[..|words|] == words;
    r := Ok(s);
  }

  /** `ToPascalCase` fails exactly when some word is empty. */
  lemma {:induction false} PascalFails(words: seq<string>, upper: char -> char, lower: char -> char)
    ensures PascalOf(words, upper, lower).Err? <==> exists i :: 0 <= i < |words| && |words[i]| == 0
    decreases |words|
  {
    if |words| > 0 {
      var n := |words| - 1;
      PascalFails(words[..n], upper, lower);
      assert forall i :: 0 <= i < n ==> words[..n][i] == words[i];
    }
  }

  /** A word in Pascal case, lower-cased, is the word lower-cased. */
  lemma PascalWordLower(w: string, upper: char -> char, lower: char -> char)
    requires |w| >= 1
    requires forall c :: lower(upper(c)) == lower(c) && lower(lower(c)) == lower(c)
    ensures MapChars(PascalWord(w, upper, lower), lower) == MapChars(w, lower)
  {
    var p := PascalWord(w, upper, lower);
    forall i | 0 <= i < |w|
      ensures MapChars(p, lower)[i] == MapChars(w, lower)[i]
    {
      if i > 0 {
        assert p[i] == p[1..][i - 1] == lower(w[i]);
      }
    }
  }

  /** When upper-casing or lower-casing followed by lower-casing is lower-casing, the
    * `ToPascalCase` result lower-cased is the words concatenated and lower-cased: the two
    * differ only in case. */
  lemma {:induction false} PascalIgnoringCase(words: seq<string>, upper: char -> char, lower: char -> char)
    requires forall c :: lower(upper(c)) == lower(c) && lower(lower(c)) == lower(c)
    ensures PascalOf(words, upper, lower).Ok? ==>
              MapChars(PascalOf(words, upper, lower).value, lower) == MapChars(Concat(words), lower)
    decreases |words|
  {
    if |words| > 0 && PascalOf(words, upper, lower).Ok? {
      var n := |words| - 1;
      var init, w := words[..n], words[n];
      PascalIgnoringCase(init, upper, lower);
      var q := PascalOf(init, upper, lower).value;
      assert words == init + [w];
      ConcatAppend(init, [w]);
      assert Concat([w]) == w + Concat([]);
      MapCharsAppend(q, PascalWord(w, upper, lower), lower);
      MapCharsAppend(Concat(init), w, lower);
      PascalWordLower(w, upper, lower);
    }
  }

  /** The Pascal-case form with its first character lower-cased. */
  function CamelOf(pascal: Result<string>, lower: char -> char): (r: Result<string>)
    ensures r.Err? <==> pascal.Err?
    ensures r.Ok? ==> |r.value| == |pascal.value| && (|r.value| > 0 ==> r.value[0] == lower(pascal.value[0]))
    ensures r.Ok? && |r.value| > 0 ==> r.value[1..] == pascal.value[1..]
    ensures r.Ok? && (forall c :: lower(lower(c)) == lower(c)) ==> MapChars(r.value, lower) == MapChars(pascal.value, lower)
  {
    match pascal
    case Err(e) => Err(e)
    case Ok(s) => if |s| < 1 then Ok("") else Ok([lower(s[0])] + s[1..])
  }

  /** `ToCamelCase(original)`: `ToPascalCase` with the first character lower-cased. */
  method ToCamelCase(original: Option<string>, category: char -> UnicodeCategory, upper: char -> char,
                     lower: char -> char)
    returns (r: Result<string>)
    ensures r == CamelOf(PascalOf(SplitWords(original, category, true, true), upper, lower), lower)
  {
    var pascal := ToPascalCase(original, category, upper, lower);
    if pascal.Err? {
      return Err(pascal.error);
    }
    var s := pascal.value;
    r := if |s| < 1 then Ok("") else Ok([lower(s[0])] + s[1..]);
  }

  // ----- The trailing empty word -----

  /** A name ending in a separator makes `ToPascalCase` throw: the split returns a trailing
    * empty word even though empty entries are removed, and reading its first character
    * fails. */
  lemma PascalTrailingSeparatorFails(upper: char -> char, lower: char -> char)
    ensures PascalOf(SplitWords(Some("a-"), AsciiCategory, true, true), upper, lower) == Err(IndexOutOfRange)
  {
    SplitTrailingExample();
    PascalFails(["a", ""], upper, lower);
  }

  /** With `removeEmpty`, every word of the split but the last is not blank. */
  lemma SplitWordsNotBlank(original: Option<string>, category: char -> UnicodeCategory, camelCase: bool)
    ensures var words := SplitWords(original, category, camelCase, true);
            forall i :: 0 <= i < |words| - 1 ==> !AllWhiteSpace(words[i])
  {
    var words := SplitWords(original, category, camelCase, true);
    SplitWordsLayout(original, category, camelCase, true);
    if words != [] {
      var n := |words| - 1;
      var st := SplitStarts(original, category, camelCase, true);
      LaidPieces(Trim(original.value), words[..n], st[..n], st[n], category, camelCase, true);
      assert forall i :: 0 <= i < n ==> words[..n][i] == words[i];
    }
  }

  /** The split with the trailing word subject to the same removal of blank entries as the
    * others: with `removeEmpty`, no word is blank. */
  function SplitWordsNonBlank(original: Option<string>, category: char -> UnicodeCategory, camelCase: bool,
                              removeEmpty: bool): (r: seq<string>)
    ensures removeEmpty ==> forall i :: 0 <= i < |r| ==> !AllWhiteSpace(r[i])
    ensures |r| <= |SplitWords(original, category, camelCase, removeEmpty)|
    ensures r == SplitWords(original, category, camelCase, removeEmpty)[..|r|]
  {
    var words := SplitWords(original, category, camelCase, removeEmpty);
    if removeEmpty then
      SplitWordsNotBlank(original, category, camelCase);
      if words != [] && AllWhiteSpace(words[|words| - 1]) then words[..|words| - 1] else words
    else words
  }

  /** With the trailing blank word removed, `ToPascalCase` cannot fail. */
  lemma PascalNonBlankSucceeds(original: Option<string>, category: char -> UnicodeCategory,
                               upper: char -> char, lower: char -> char)
    ensures PascalOf(SplitWordsNonBlank(original, category, true, true), upper, lower).Ok?
  {
    var words := SplitWordsNonBlank(original, category, true, true);
    PascalFails(words, upper, lower);
  }
}
