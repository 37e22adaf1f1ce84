/** `ValidationUtils`: quick checks of phone numbers and e-mail addresses. */
module ValidationUtils {
  import opened Wrappers
  import opened Text
  import StringExtensions

  /** `IsValidPhoneNumber(input)`: eleven characters starting with "1". */
  predicate IsValidPhoneNumber(input: Option<string>)
  {
    input.Some? && |input.value| == 11 && StartsWith(input.value, "1")
  }

  /** Every Chinese mobile number is a valid phone number; the converse needs digits. */
  lemma MobileIsValidPhone(s: string, isDigit: char -> bool)
    ensures StringExtensions.IsChinaMobilePhoneNumber(s, isDigit) ==> IsValidPhoneNumber(Some(s))
    ensures IsValidPhoneNumber(Some(s)) && (forall i :: 0 <= i < |s| ==> isDigit(s[i])) ==>
              StringExtensions.IsChinaMobilePhoneNumber(s, isDigit)
  {
    if |s| == 11 && s[0] == '1' {
      assert s[..1] == "1";
    }
  }

  /** `IsValidEmailAddress(input)`: not blank, holds '@' and '.', neither at either end,
    * and no '@' directly followed by '.'. */
  predicate IsValidEmailAddress(input: Option<string>)
  {
    !IsNullOrWhiteSpace(input)
    && Contains(input.value, "@")
    && Contains(input.value, ".")
    && !(StartsWith(input.value, "@") || StartsWith(input.value, "."))
    && !(EndsWith(input.value, "@") || EndsWith(input.value, "."))
    && !Contains(input.value, "@.")
  }

  /** A one-character string occurs where that character stands. */
  lemma ContainsChar(s: string, c: char)
    ensures Contains(s, [c]) <==> c in s
  {
    if c in s {
      var i :| 0 <= i < |s| && s[i] == c;
      assert s[i..i + 1] == [c];
      assert OccursAt(s, [c], i);
    }
    if Contains(s, [c]) {
      var i :| 0 <= i <= |s| && OccursAt(s, [c], i);
      assert s[i] == s[i..i + 1][0];
    }
  }

  /** A valid address has an '@' and a '.' strictly inside it, so it is at least four
    * characters long, and no '.' right after the '@'. */
  lemma ValidEmailShape(input: Option<string>)
    requires IsValidEmailAddress(input)
    ensures var s := input.value;
            && |s| >= 4
            && (exists i :: 0 < i < |s| - 1 && s[i] == '@')
            && (exists j :: 0 < j < |s| - 1 && s[j] == '.')
            && (forall i :: 0 <= i < |s| - 1 && s[i] == '@' ==> s[i + 1] != '.')
  {
    var s := input.value;
    ContainsChar(s, '@');
    ContainsChar(s, '.');
    var i :| 0 <= i < |s| && s[i] == '@';
    var j :| 0 <= j < |s| && s[j] == '.';
    assert s[0] == s[..1][0] && s[|s| - 1] == s[|s| - 1..][0];
    forall k | 0 <= k < |s| - 1 && s[k] == '@'
      ensures s[k + 1] != '.'
    {
      assert !OccursAt(s, "@.", k);
      assert s[k..k + 2] == [s[k], s[k + 1]];
    }
  }

  /** "a@b.c" is valid; "@b.c", "a@.c", "a@b." and "abc" are not. */
  lemma EmailExamples()
    ensures IsValidEmailAddress(Some("a@b.c"))
    ensures !IsValidEmailAddress(Some("@b.c"))
    ensures !IsValidEmailAddress(Some("a@.c"))
    ensures !IsValidEmailAddress(Some("a@b."))
    ensures !IsValidEmailAddress(Some("abc"))
  {
    var s := "a@b.c";
    assert !IsWhiteSpace(s[0]);
    assert OccursAt(s, "@", 1) && OccursAt(s, ".", 3);
    forall k | 0 <= k <= |s|
      ensures !OccursAt(s, "@.", k)
    {
      if k + 2 <= |s| {
        assert s[k..k + 2][0] == s[k] && s[k..k + 2][1] == s[k + 1];
      }
    }
    assert OccursAt("a@.c", "@.", 1);
    ContainsChar("abc", '@');
  }
}
