/** `HostingEnvironments`: environment names and the suffix they add to resource names.
  * `lower` stands for the culture's `char.ToLower`. */
module HostingEnvironments {
  import opened Wrappers
  import opened Text

  const Local: string := "local"
  const Development: string := "development"
  const Test: string := "test"
  const Staging: string := "staging"
  const Production: string := "production"

  /** `NormalizeEnvName(envName, defaultValue)`: the default (or "" when it is null) for a
    * blank name, otherwise the name lower-cased. */
  function NormalizeEnvName(envName: Option<string>, defaultValue: Option<string>, lower: char -> char): (r: string)
    ensures IsNullOrWhiteSpace(envName) ==> r == defaultValue.UnwrapOr("")
    ensures !IsNullOrWhiteSpace(envName) ==>
              |r| == |envName.value| && forall i :: 0 <= i < |r| ==> r[i] == lower(envName.value[i])
  {
    if IsNullOrWhiteSpace(envName) then defaultValue.UnwrapOr("")
    else MapChars(envName.value, lower)
  }

  /** `Postfix(input, envName, hiddenValue)`: `input`, followed by '_' and the normalised
    * name unless that name is the hidden one. */
  function Postfix(input: Option<string>, envName: Option<string>, hiddenValue: Option<string>,
                   lower: char -> char): Result<string>
  {
    if input.None? then Err(ArgumentNull)
    else
      var suffix := NormalizeEnvName(envName, hiddenValue, lower);
      var tail := if Some(suffix) == hiddenValue then "" else "_" + suffix;
      Ok(input.value + tail)
  }

  /** A null input throws; otherwise the input is kept in front, and nothing follows it
    * exactly when the normalised name is the hidden one; anything else follows an '_'. */
  lemma PostfixMeaning(input: Option<string>, envName: Option<string>, hiddenValue: Option<string>,
                       lower: char -> char)
    ensures Postfix(input, envName, hiddenValue, lower).Err? <==> input.None?
    ensures input.Some? ==>
              var r := Postfix(input, envName, hiddenValue, lower).value;
              var suffix := NormalizeEnvName(envName, hiddenValue, lower);
              && StartsWith(r, input.value)
              && (r == input.value <==> Some(suffix) == hiddenValue)
              && (r != input.value ==> r[|input.value|..] == "_" + suffix)
  {
    if input.Some? {
      var r := Postfix(input, envName, hiddenValue, lower).value;
      assert r[..|input.value|] == input.value;
      var suffix := NormalizeEnvName(envName, hiddenValue, lower);
      if Some(suffix) != hiddenValue {
        assert r[|input.value|..] == "_" + suffix;
      }
    }
  }

  /** A blank environment name adds nothing under a hidden value, and "_" alone under a
    * null one. */
  lemma PostfixBlankName(input: string, envName: Option<string>, hiddenValue: Option<string>, lower: char -> char)
    requires IsNullOrWhiteSpace(envName)
    ensures hiddenValue.Some? ==> Postfix(Some(input), envName, hiddenValue, lower) == Ok(input)
    ensures hiddenValue.None? ==> Postfix(Some(input), envName, hiddenValue, lower) == Ok(input + "_")
  {
    if hiddenValue.None? {
      assert "_" + "" == "_";
    } else {
      assert input + "" == input;
    }
  }
}
