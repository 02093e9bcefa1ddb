/**
 * `validateName`: the three checks a raw name goes through before an alias
 * is generated, in their fixed order. The source reports a failure by
 * showing a message and returning `false`; here the failure is a value.
 */
module Validator {
  import opened Text

  datatype Validation = Ok | EmptyInput | TooShort | InvalidCharacters

  /** The character class `[a-zA-Z0-9._-]`. */
  predicate IsNameChar(c: char) {
    'a' <= c <= 'z' || 'A' <= c <= 'Z' || '0' <= c <= '9' || c == '.' || c == '_' || c == '-'
  }

  /** The pattern `/^[a-zA-Z0-9._-]+$/`. */
  predicate MatchesNamePattern(s: string)
    ensures MatchesNamePattern(s) ==> NoWhitespace(s) && s != []
  {
    |s| > 0 && forall i :: 0 <= i < |s| ==> IsNameChar(s[i])
  }

  /**
   * Each error is stated on the raw input: empty means nothing but
   * whitespace; too short is measured in UTF-16 code units on the trimmed
   * name, internal whitespace included; invalid means some non-whitespace
   * character lies outside the class.
   */
  function ValidateName(name: string): (r: Validation)
    ensures r == EmptyInput <==> AllWhitespace(name)
    ensures r == TooShort <==> !AllWhitespace(name) && Utf16Length(Trim(name)) < 2
    ensures r == InvalidCharacters <==>
      && !AllWhitespace(name) && Utf16Length(Trim(name)) >= 2
      && exists i :: 0 <= i < |name| && !IsWhitespace(name[i]) && !IsNameChar(name[i])
    ensures r == Ok <==>
      && !AllWhitespace(name) && Utf16Length(Trim(name)) >= 2
      && forall i :: 0 <= i < |name| && !IsWhitespace(name[i]) ==> IsNameChar(name[i])
  {
    var clean := Trim(name);
    StrippedNameMatches(name);
    if clean == [] then EmptyInput
    else if Utf16Length(clean) < 2 then TooShort
    else if !MatchesNamePattern(StripWhitespace(clean)) then InvalidCharacters
    else Ok
  }

  /** The pattern test on the whitespace-free name is a test on every non-whitespace character of the raw name. */
  lemma StrippedNameMatches(name: string)
    ensures MatchesNamePattern(StripWhitespace(name)) <==>
      && !AllWhitespace(name)
      && forall i :: 0 <= i < |name| && !IsWhitespace(name[i]) ==> IsNameChar(name[i])
  {
    var t := StripWhitespace(name);
    StripWhitespaceMembers(name);
    if forall i :: 0 <= i < |name| && !IsWhitespace(name[i]) ==> IsNameChar(name[i]) {
      forall k | 0 <= k < |t| ensures IsNameChar(t[k]) {
        assert t[k] in name;
      }
    } else {
      var i :| 0 <= i < |name| && !IsWhitespace(name[i]) && !IsNameChar(name[i]);
      assert name[i] in t;
    }
  }

  /** A name whose trimmed form is a single character of the Basic Multilingual Plane is too short. */
  lemma OneCharacterIsTooShort(name: string)
    requires |Trim(name)| == 1 && Trim(name)[0] as int < 0x1_0000
    ensures ValidateName(name) == TooShort
  {
  }

  /**
   * The length is taken before internal whitespace is removed, so two
   * trimmed characters always pass it, whatever lies between them.
   */
  lemma TwoCharactersAreLongEnough(name: string)
    requires |Trim(name)| >= 2
    ensures ValidateName(name) != TooShort && ValidateName(name) != EmptyInput
  {
  }

  /** A character outside the class anywhere in the name, even between spaces, is rejected once the first two checks pass. */
  lemma ForeignCharacterIsInvalid(name: string, i: nat)
    requires i < |name| && !IsWhitespace(name[i]) && !IsNameChar(name[i])
    requires Utf16Length(Trim(name)) >= 2
    ensures ValidateName(name) == InvalidCharacters
  {
  }

  /** Input `""` or `"   "`: nothing but whitespace. */
  lemma EmptyExamples()
    ensures ValidateName("") == EmptyInput
    ensures ValidateName("   ") == EmptyInput
  {
  }

  /**
   * Input `"a"`: one character. This and the following examples take the
   * name as a parameter pinned by `requires`, not as a literal, which keeps
   * the verifier from unrolling the recursive string functions on it.
   */
  lemma TooShortExample(name: string)
    requires name == "a"
    ensures ValidateName(name) == TooShort
  {
    TrimUnchanged(name);
  }

  /** Input `"john@doe"`: the `@` is outside the class. */
  lemma InvalidExample(name: string)
    requires name == "john@doe"
    ensures ValidateName(name) == InvalidCharacters
  {
    assert name[0] == 'j' && name[|name| - 1] == 'e' && name[4] == '@';
    TrimUnchanged(name);
    ForeignCharacterIsInvalid(name, 4);
  }

  /** Input `"John Doe"`: internal whitespace is allowed, and so are capitals. */
  lemma AcceptedExample(name: string)
    requires name == "John Doe"
    ensures ValidateName(name) == Ok && Trim(name) == name
  {
    assert name[0] == 'J' && name[|name| - 1] == 'e';
    TrimUnchanged(name);
  }

  /** Input `"Jane_Doe-01"`: dots, underscores, hyphens and digits are allowed. */
  lemma PunctuationAccepted(name: string)
    requires name == "Jane_Doe-01"
    ensures ValidateName(name) == Ok
    ensures forall i :: 0 <= i < |name| ==> IsNameChar(name[i])
  {
    assert name[0] == 'J' && name[|name| - 1] == '1';
    TrimUnchanged(name);
    assert forall i :: 0 <= i < |name| ==> IsNameChar(name[i]);
  }
}
