/**
 * The two handlers that tie the pipeline to the page: `handleGenerate`
 * (validate, then generate through the tracking wrapper, then display) and
 * the input handler's decision whether the displayed alias still belongs
 * to what is in the name field.
 */
module Controller {
  import opened Wrappers
  import opened Text
  import opened Validator
  import opened Generator

  /** What one press of "generate" leaves on the page. */
  datatype GenerateOutcome =
    | Rejected(reason: Validation)  // an error message, no generation
    | Shown(address: string)        // the alias displayed in the result section
    | NothingShown                  // the generator returned null

  /** The page outcome of one press, and the usage event the tracked generator recorded, if any. */
  datatype Press = Press(outcome: GenerateOutcome, event: Option<UsageEvent>)

  /**
   * `handleGenerate`: the generator (the tracked one, which replaced the
   * original by the time a handler runs) is consulted only after the
   * validator accepts, so a usage event is recorded exactly for accepted
   * names; an accepted name always yields an alias of the published
   * format whose part before the first `+` is the cleaned name.
   */
  function HandleGenerate(name: string, k: Draw): (r: Press)
    ensures r.outcome.Rejected? <==> ValidateName(name) != Ok
    ensures r.outcome.Rejected? ==> r.outcome.reason == ValidateName(name) && r.event == None
    ensures !r.outcome.NothingShown?
    ensures r.outcome.Shown? ==>
      && MatchesAddressPattern(r.outcome.address)
      && FirstField(r.outcome.address, '+') == CleanName(name)
      && SplitAddress(r.outcome.address) == Some(AddressParts(CleanName(name), RandomNumber(k)))
      && r.event == Some(EmailGenerated(Utf16Length(Trim(name))))
  {
    var v := ValidateName(name);
    if v != Ok then Press(Rejected(v), None)
    else
      ValidNameGeneratesAlias(name, k);
      var t := TrackedGenerateEmail(name, k);
      match t.email
      case Some(a) => Press(Shown(a), t.event)
      case None => Press(NothingShown, t.event)
  }

  /**
   * The input handler's test, as written: the displayed alias stays
   * visible when the trimmed field equals the displayed text up to its
   * first `+`. A field that keeps the alias therefore holds, once
   * trimmed, a `+`-free prefix of the displayed text.
   */
  predicate ResultStaysVisible(input: string, shown: string)
    ensures ResultStaysVisible(input, shown) ==>
      && '+' !in Trim(input)
      && |Trim(input)| <= |shown| && Trim(input) == shown[..|Trim(input)|]
  {
    Trim(input) == FirstField(shown, '+')
  }

  /**
   * As written, an alias generated from an accepted name stays visible for
   * that same name only when trimming alone already yields the cleaned
   * name, that is, when the trimmed name has no capital letter and no
   * internal whitespace.
   */
  lemma StaysVisibleOnlyForCleanNames(name: string, k: Draw)
    requires ValidateName(name) == Ok
    ensures GenerateEmail(name, k).Some?
    ensures ResultStaysVisible(name, GenerateEmail(name, k).value) <==> Trim(name) == CleanName(name)
    ensures Trim(name) == CleanName(name) <==> NoWhitespace(Trim(name)) && Lower(Trim(name)) == Trim(name)
  {
    ValidNameGeneratesAlias(name, k);
    var t := Trim(name);
    if NoWhitespace(t) {
      StripWhitespaceOfWord(t);
    }
    StripWhitespaceOfLower(t);
    if t == CleanName(name) {
      assert NoWhitespace(t);
      StripWhitespaceOfWord(t);
    }
  }

  /**
   * Counterexample: the alias generated from `"John Doe"` does not count as
   * belonging to the field holding `"John Doe"`, so any edit that returns
   * the field to that very name hides it. The name is pinned by
   * `requires` rather than written as a literal, as in the other examples.
   */
  lemma OwnNameHidesAlias(name: string, k: Draw)
    requires name == "John Doe"
    ensures ValidateName(name) == Ok && GenerateEmail(name, k).Some?
    ensures !ResultStaysVisible(name, GenerateEmail(name, k).value)
  {
    AcceptedExample(name);
    CleanNameExample(name);
    StaysVisibleOnlyForCleanNames(name, k);
    assert |Trim(name)| == 8 && |CleanName(name)| == 7;
  }

  /**
   * The intended test: the alias still belongs to the field when the field
   * cleans to the alias's local part.
   */
  predicate ResultMatchesInput(input: string, shown: string) {
    CleanName(input) == FirstField(shown, '+')
  }

  /**
   * The two tests disagree once a trailing space is typed after `"John Doe"`:
   * as written the alias is hidden, although the field still cleans to its
   * local part and the intended test keeps it.
   */
  lemma TrailingSpaceSplitsTests(name: string, input: string, k: Draw)
    requires name == "John Doe" && input == name + " "
    ensures ValidateName(name) == Ok && GenerateEmail(name, k).Some?
    ensures !ResultStaysVisible(input, GenerateEmail(name, k).value)
    ensures ResultMatchesInput(input, GenerateEmail(name, k).value)
  {
    AcceptedExample(name);
    ValidNameGeneratesAlias(name, k);
    StripWhitespaceAppend(name, " ");
    assert StripWhitespace(" ") == [];
    assert CleanName(input) == CleanName(name);
    MatchesInputIffSameCleanName(name, input, k);
    var t := Trim(input);
    var a :| TrimmedAt(input, a, t);
    assert input[0] == 'J';
    assert t != [] && t[0] == 'J';
  }

  /**
   * With the intended test, an alias generated from an accepted name stays
   * visible exactly while the field cleans to the same local part; in
   * particular it stays visible for the name that produced it.
   */
  lemma MatchesInputIffSameCleanName(name: string, input: string, k: Draw)
    requires ValidateName(name) == Ok
    ensures GenerateEmail(name, k).Some?
    ensures ResultMatchesInput(input, GenerateEmail(name, k).value) <==> CleanName(input) == CleanName(name)
    ensures ResultMatchesInput(name, GenerateEmail(name, k).value)
  {
    ValidNameGeneratesAlias(name, k);
  }
}
