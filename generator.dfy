/**
 * `generateRandomNumber`, `generateEmail` and the usage-tracking wrapper
 * that later replaces `generateEmail`. The random draw is a parameter.
 */
module Generator {
  import opened Wrappers
  import opened Text
  import opened Decimal
  import opened Validator

  /** The fixed domain every alias ends with. */
  const Domain: string := "@crosseven.com"

  /** Number of digits in the disambiguator. */
  const SuffixDigits: nat := 5

  /** Length of `+NNNNN@crosseven.com`, everything after the local part. */
  const TailLength: nat := 1 + SuffixDigits + |Domain|

  /**
   * The integer part of `Math.random() * 90000`: the platform's random draw,
   * here supplied by the caller.
   */
  type Draw = k: int | 0 <= k < 90000

  /** The five-digit disambiguator: always in [10000, 99999], so it renders as five digits, the first not zero. */
  function RandomNumber(k: Draw): (n: nat)
    ensures 10000 <= n <= 99999
    ensures |DecimalString(n)| == SuffixDigits && DecimalString(n)[0] != '0'
  {
    FiveDigits(10000 + k);
    10000 + k
  }

  /**
   * `name.trim().toLowerCase().replace(/\s+/g, "")`. Equivalently, the
   * lowercased non-whitespace characters of the name, in order.
   */
  function CleanName(name: string): (r: string)
    ensures forall i :: 0 <= i < |r| ==> !IsWhitespace(r[i]) && !IsAsciiUpper(r[i])
    ensures r == [] <==> AllWhitespace(name)
    ensures r == Lower(StripWhitespace(name))
  {
    StripWhitespaceOfLower(Trim(name));
    StripWhitespace(Lower(Trim(name)))
  }

  /** `generateEmail(name)` as first defined: `None` stands for `null`. */
  function GenerateEmail(name: string, k: Draw): (r: Option<string>)
    ensures r == None <==> AllWhitespace(name)
    ensures r.Some? ==> SplitAddress(r.value) == Some(AddressParts(CleanName(name), RandomNumber(k)))
  {
    var clean := CleanName(name);
    if clean == [] then None
    else
      var a := clean + "+" + DecimalString(RandomNumber(k)) + Domain;
      SplitComposed(clean, RandomNumber(k));
      Some(a)
  }

  /** The two variable parts of an alias. */
  datatype AddressParts = AddressParts(localPart: string, suffix: nat)

  /**
   * Reads an alias back from its fixed-length tail: the local part, then
   * `+`, five digits and the domain. `None` when the tail does not fit.
   */
  function SplitAddress(a: string): Option<AddressParts> {
    if |a| < TailLength then None
    else
      var digits := a[|a| - TailLength + 1..|a| - |Domain|];
      if a[|a| - TailLength] == '+' && AllDigits(digits) && a[|a| - |Domain|..] == Domain
      then Some(AddressParts(a[..|a| - TailLength], DecimalValue(digits)))
      else None
  }

  lemma SplitComposed(local: string, n: nat)
    requires 10000 <= n <= 99999
    ensures SplitAddress(local + "+" + DecimalString(n) + Domain) == Some(AddressParts(local, n))
  {
    FiveDigits(n);
    DecimalRoundTrip(n);
    var d := DecimalString(n);
    var a := local + "+" + d + Domain;
    assert |a| == |local| + TailLength;
    assert a[..|a| - TailLength] == local;
    assert a[|a| - TailLength] == '+';
    assert a[|a| - TailLength + 1..|a| - |Domain|] == d;
    assert a[|a| - |Domain|..] == Domain;
  }

  /** The character class `[a-z0-9._-]` of a generated local part. */
  predicate IsLocalChar(c: char) {
    'a' <= c <= 'z' || '0' <= c <= '9' || c == '.' || c == '_' || c == '-'
  }

  /** The published output format `^[a-z0-9._-]+\+\d{5}@crosseven\.com$`. */
  predicate MatchesAddressPattern(a: string) {
    && |a| > TailLength
    && (forall i :: 0 <= i < |a| - TailLength ==> IsLocalChar(a[i]))
    && a[|a| - TailLength] == '+'
    && (forall i :: |a| - TailLength + 1 <= i < |a| - |Domain| ==> IsDigit(a[i]))
    && a[|a| - |Domain|..] == Domain
  }

  /**
   * For every name the validator accepts: an alias is produced, it has the
   * published format, its local part is the cleaned name, made only of
   * `[a-z0-9._-]`, and the address splits at its first `+` back to it.
   */
  lemma {:induction false} ValidNameGeneratesAlias(name: string, k: Draw)
    requires ValidateName(name) == Ok
    ensures GenerateEmail(name, k).Some?
    ensures var a := GenerateEmail(name, k).value;
      && MatchesAddressPattern(a)
      && a[..|a| - TailLength] == CleanName(name)
      && FirstField(a, '+') == CleanName(name)
  {
    var clean := CleanName(name);
    ValidCleanNameIsLocal(name);
    AliasShape(clean, RandomNumber(k));
  }

  /** The cleaned form of an accepted name is a non-empty word over `[a-z0-9._-]`. */
  lemma ValidCleanNameIsLocal(name: string)
    requires ValidateName(name) == Ok
    ensures var clean := CleanName(name);
      clean != [] && forall i :: 0 <= i < |clean| ==> IsLocalChar(clean[i])
  {
    StrippedNameMatches(name);
    LowerNameIsLocal(StripWhitespace(name), CleanName(name));
  }

  /** Lowercasing a word over `[a-zA-Z0-9._-]` gives a word over `[a-z0-9._-]`. */
  lemma LowerNameIsLocal(word: string, lowered: string)
    requires MatchesNamePattern(word) && lowered == Lower(word)
    ensures lowered != [] && forall i :: 0 <= i < |lowered| ==> IsLocalChar(lowered[i])
  {
  }

  lemma AliasShape(local: string, n: nat)
    requires local != [] && forall i :: 0 <= i < |local| ==> IsLocalChar(local[i])
    requires 10000 <= n <= 99999
    ensures var a := local + "+" + DecimalString(n) + Domain;
      && MatchesAddressPattern(a)
      && a[..|a| - TailLength] == local
      && FirstField(a, '+') == local
  {
    FiveDigits(n);
    var d := DecimalString(n);
    var a := local + "+" + d + Domain;
    assert a == local + ['+'] + (d + Domain);
    FirstFieldOfJoin(local, '+', d + Domain);
    assert |a| == |local| + TailLength;
    assert a[..|a| - TailLength] == local;
    assert forall i :: 0 <= i < |a| - TailLength ==> a[i] == local[i];
    assert forall i :: |a| - TailLength + 1 <= i < |a| - |Domain| ==> a[i] == d[i - (|a| - TailLength + 1)];
    assert a[|a| - |Domain|..] == Domain;
  }

  /** A usage-tracking record; its timestamp is not modelled. */
  datatype UsageEvent = EmailGenerated(nameLength: nat)

  datatype Tracked = Tracked(email: Option<string>, event: Option<UsageEvent>)

  /**
   * The wrapper installed over `generateEmail`: it returns the original's
   * result unchanged, and records an event, with the UTF-16 length of the
   * trimmed name, exactly when an address was produced.
   */
  function TrackedGenerateEmail(name: string, k: Draw): (r: Tracked)
    ensures r.email == GenerateEmail(name, k)
    ensures r.event.Some? <==> !AllWhitespace(name)
    ensures r.event.Some? ==> r.event.value.nameLength == Utf16Length(Trim(name)) >= 1
  {
    var email := GenerateEmail(name, k);
    if email.Some? then Tracked(email, Some(EmailGenerated(Utf16Length(Trim(name)))))
    else Tracked(email, None)
  }

  /**
   * Input `"John Doe"` gives the local part `johndoe`. Like the other
   * example lemmas, it takes the name as a parameter pinned by `requires`
   * rather than as a literal, which keeps the verifier from unrolling the
   * recursive string functions on the literal.
   */
  lemma CleanNameExample(name: string)
    requires name == "John Doe"
    ensures CleanName(name) == "johndoe"
  {
    var first, space, last := name[..4], name[4..5], name[5..];
    assert name == first + space + last;
    StripWhitespaceOfTwoWords(first, space, last);
    var r := Lower(first + last);
    assert |r| == 7;
    assert r[0] == 'j' && r[1] == 'o' && r[2] == 'h' && r[3] == 'n';
    assert r[4] == 'd' && r[5] == 'o' && r[6] == 'e';
  }

  /** Input `"Jane_Doe-01"` gives the local part `jane_doe-01`. */
  lemma PunctuationExample(name: string)
    requires name == "Jane_Doe-01"
    ensures CleanName(name) == "jane_doe-01"
  {
    PunctuationAccepted(name);
    NameCharsAreNotWhitespace(name);
    StripWhitespaceOfWord(name);
    LowerPunctuated(name, Lower(name));
  }

  /** A word over `[a-zA-Z0-9._-]` holds no whitespace. */
  lemma NameCharsAreNotWhitespace(s: string)
    requires forall i :: 0 <= i < |s| ==> IsNameChar(s[i])
    ensures NoWhitespace(s)
  {
  }

  /** Lowercasing `"Jane_Doe-01"` touches only its two capitals. */
  lemma LowerPunctuated(word: string, r: string)
    requires word == "Jane_Doe-01" && r == Lower(word)
    ensures r == "jane_doe-01"
  {
    var lowered := "jane_doe-01";
    assert |r| == |lowered|;
    forall i | 0 <= i < |r| ensures r[i] == lowered[i] {
      assert r[i] == LowerChar(word[i]);
    }
  }
}
