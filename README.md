# Alias address generator — Dafny model

The system turns a name typed into a web page into a disposable alias
address of the form `<local-part>+<NNNNN>@crosseven.com`. This project
models the pipeline behind the "generate" button, all in `script.js`:

- the validator `validateName`: trim, then reject an empty name, a name
  shorter than two characters, or one containing anything outside
  `[a-zA-Z0-9._-]` once internal whitespace is removed, in that order;
- the cleaner and formatter `generateEmail`: trim, lowercase, remove every
  whitespace run, return `null` when nothing is left, and otherwise append
  `+`, the random number and the fixed domain;
- the random draw `generateRandomNumber`, `floor(10000 + r * 90000)`;
- the usage-tracking wrapper that replaces `generateEmail`;
- the sequencing in `handleGenerate` (validate first, generate only then);
- the input handler's test whether the shown alias still belongs to the
  name field: it compares the trimmed field with the alias up to its first `+`.

In the source these functions also have effects: `validateName` shows
error messages, `generateRandomNumber` reads `Math.random`, the tracking
wrapper logs to the console, and the two handlers write to the page. With
those effects set aside (see "Left out"), each one decides its outcome
purely from its inputs and has no loop, so the model is functions and
lemmas, with no classes and no loops.

Modules (one per concern): `Text` (`text.dfy`: JavaScript `trim`,
`replace(/\s+/g, "")`, `toLowerCase`, `length`, `split(sep)[0]`), `Decimal`
(`decimal.dfy`: the number as text and back), `Validator`
(`validator.dfy`), `Generator` (`generator.dfy`), `Controller`
(`controller.dfy`) and `Wrappers` (`wrappers.dfy`: `Option`, standing for
`null`).

Modelling choices:

- Whitespace is the ECMAScript WhiteSpace and LineTerminator set. That is
  the set `trim` removes and `\s` matches, and it is spelled out code point
  by code point in `Text.IsWhitespace`.
- `length` counts UTF-16 code units. A character outside the Basic
  Multilingual Plane therefore counts as two. A name made of one such
  character passes the length check and is then rejected as
  `InvalidCharacters`, exactly as in the source. Only a single BMP
  character is `TooShort`.
- `Math.random()` is replaced by the integer draw `k` (`Generator.Draw`,
  `0 <= k < 90000`), and the number is `10000 + k`.
- `validateName` reports a failure by showing a message and returning
  `false`. Here it returns one of `Ok`, `EmptyInput`, `TooShort` or
  `InvalidCharacters`. On success the source returns `true`, not the
  trimmed name, and the model follows the code.
- At script.js:294 the source reassigns `generateEmail` to the tracking
  wrapper. `handleGenerate` looks the name up when it runs, so it calls the
  wrapper, and `Controller.HandleGenerate` goes through
  `Generator.TrackedGenerateEmail`.

## Model

| member | source | states |
|---|---|---|
| `Text.Utf16Length` | script.js:40 | the JavaScript length of a string lies between its character count and twice that; it is below 2 exactly for the empty string and a single BMP character |
| `Text.TrimStart` | script.js:33 | the result is the suffix of the input left after a run of whitespace, and it does not start with whitespace |
| `Text.TrimEnd` | script.js:33 | the result is the prefix of the input left before a run of whitespace, and it does not end with whitespace |
| `Text.Trim` | script.js:33 | `trim` returns an infix of the input with only whitespace before and after it; it gives the empty string exactly for an all-whitespace input; otherwise both ends are non-whitespace; it never lengthens the string and keeps every non-whitespace character in order |
| `Text.TrimIsInfix` | script.js:33 | dropping the leading and then the trailing whitespace removes one whitespace run at each end and keeps everything between them, internal whitespace included |
| `Text.TrimmedIsEmptyIff` | script.js:33-35 | trimming leaves the empty string exactly when the input is all whitespace |
| `Text.TrimUnchanged` | script.js:33 | a non-empty string with non-whitespace at both ends is its own trim |
| `Text.StripWhitespace` | script.js:47 | removing every whitespace run leaves no whitespace, never lengthens the string, and leaves nothing exactly when the input was all whitespace |
| `Text.StripWhitespaceMembers` | script.js:47 | a character survives stripping exactly when it occurs in the input and is not whitespace |
| `Text.StripWhitespaceAppend` | script.js:47 | stripping distributes over concatenation |
| `Text.StripWhitespaceOfWord` | script.js:47 | stripping leaves a string without whitespace unchanged |
| `Text.StripWhitespaceOfTwoWords` | script.js:21 | whitespace between two words disappears and the words are joined |
| `Text.StripWhitespaceOfTrimStart` | script.js:47 | stripping after dropping the leading whitespace gives the same result as stripping alone |
| `Text.StripWhitespaceOfTrimEnd` | script.js:47 | stripping after dropping the trailing whitespace gives the same result as stripping alone |
| `Text.StripWhitespaceOfTrimmed` | script.js:47 | stripping after trimming gives the same result as stripping alone, so the validator's `trim` before `replace` does not matter to the character check |
| `Text.LowerChar` | script.js:21 | lowercasing maps `A`–`Z` to `a`–`z` in the same position, never yields an upper-case ASCII letter, and leaves other characters alone |
| `Text.Lower` | script.js:21 | `toLowerCase` keeps the length, lowercases each character in place and neither creates nor removes whitespace |
| `Text.StripWhitespaceOfLower` | script.js:21 | lowercasing commutes with stripping whitespace |
| `Text.FirstField` | script.js:204 | `split(sep)[0]` is the longest prefix without `sep`, followed by `sep` or by the end of the string |
| `Text.FirstFieldOfJoin` | script.js:204 | splitting `x + sep + y` at the first `sep` gives back `x` whenever `x` has no `sep` |
| `Decimal.DecimalString` | script.js:28 | rendering a number gives a non-empty digit string that starts with `0` only for zero |
| `Decimal.DecimalRoundTrip` | script.js:28 | reading the rendered digits back gives the number |
| `Decimal.DecimalLength` | script.js:13-16 | a number in `[10^(k-1), 10^k)` renders as exactly `k` digits |
| `Decimal.FiveDigits` | script.js:13-16 | every number in [10000, 99999] renders as five digits, the first not `0` |
| `Validator.ValidateName` | script.js:32-55 | `EmptyInput` exactly for all-whitespace names; `TooShort` exactly when the trimmed name, internal whitespace included, is under 2 UTF-16 units; `InvalidCharacters` exactly when both earlier checks pass and some non-whitespace character is outside `[a-zA-Z0-9._-]`; `Ok` exactly when all three pass |
| `Validator.StrippedNameMatches` | script.js:45-47 | the pattern test on the whitespace-free name holds exactly when the name has a non-whitespace character and every non-whitespace character is in the class |
| `Validator.OneCharacterIsTooShort` | script.js:40-43 | a trimmed name of one BMP character is `TooShort` |
| `Validator.TwoCharactersAreLongEnough` | script.js:40-43 | a trimmed name of two or more characters is neither `EmptyInput` nor `TooShort`, however much whitespace it holds |
| `Validator.MatchesNamePattern` | script.js:46-47 | `/^[a-zA-Z0-9._-]+$/.test`: a non-empty word over `[a-zA-Z0-9._-]`, which therefore holds no whitespace |
| `Validator.ForeignCharacterIsInvalid` | script.js:45-52 | a character outside the class anywhere in a name whose trimmed form passes the length check (two or more UTF-16 units) gives `InvalidCharacters`, including a name that is one character outside the Basic Multilingual Plane |
| `Validator.EmptyExamples` | script.js:33-38 | `""` and `"   "` give `EmptyInput` |
| `Validator.TooShortExample` | script.js:40-43 | `"a"` gives `TooShort` |
| `Validator.InvalidExample` | script.js:45-52 | `"john@doe"` gives `InvalidCharacters` |
| `Validator.AcceptedExample` | script.js:32-55 | `"John Doe"` is accepted, and trimming leaves it unchanged |
| `Validator.PunctuationAccepted` | script.js:32-55 | `"Jane_Doe-01"` is accepted: every character is in the class |
| `Generator.RandomNumber` | script.js:14-16 | every draw gives a number in [10000, 99999] that renders as five digits, the first not zero |
| `Generator.CleanName` | script.js:21 | the cleaned name has no whitespace and no upper-case ASCII letter; it is empty exactly for all-whitespace names; it equals the lowercased non-whitespace characters of the name in order |
| `Generator.GenerateEmail` | script.js:19-29 | returns `None` exactly for all-whitespace names; otherwise the address reads back as the cleaned name and the drawn number |
| `Generator.SplitComposed` | script.js:28 | an address composed from a local part and a number in range reads back as those two |
| `Generator.ValidNameGeneratesAlias` | script.js:19-29 | for every accepted name an address is produced; it matches `^[a-z0-9._-]+\+\d{5}@crosseven\.com$`; its local part is the cleaned name; splitting it at the first `+` gives the cleaned name |
| `Generator.ValidCleanNameIsLocal` | script.js:21 | the cleaned form of an accepted name is non-empty and uses only `[a-z0-9._-]` |
| `Generator.LowerNameIsLocal` | script.js:21 | lowercasing a word over `[a-zA-Z0-9._-]` gives a word over `[a-z0-9._-]` |
| `Generator.AliasShape` | script.js:28 | a local part over `[a-z0-9._-]` joined with a five-digit number and the domain matches the address pattern and splits back at its first `+` |
| `Generator.TrackedGenerateEmail` | script.js:293-303 | the wrapper returns exactly what the original generator returns; it records an event exactly when an address was produced, carrying the trimmed name's UTF-16 length |
| `Generator.CleanNameExample` | script.js:21 | `"John Doe"` cleans to `johndoe` |
| `Generator.PunctuationExample` | script.js:21 | `"Jane_Doe-01"` cleans to `jane_doe-01`: dots, underscores, hyphens and digits are kept |
| `Controller.HandleGenerate` | script.js:152-162 | rejects exactly the names the validator rejects, with the validator's error, and then records no usage event, because the generator is not called; never ends with nothing shown; what it shows matches the address pattern, splits at its first `+` to the cleaned name, reads back as that name and the drawn number, and comes with the `email_generated` event carrying the trimmed name's UTF-16 length |
| `Controller.ResultStaysVisible` | script.js:204 | the test as written: the alias stays shown exactly when the trimmed field equals the shown text up to its first `+`, so a field that keeps it is, once trimmed, a `+`-free prefix of the shown text |
| `Controller.StaysVisibleOnlyForCleanNames` | script.js:204 | with the test as written, an alias from an accepted name stays shown for that name exactly when its trimmed form has no whitespace and no capital letter |
| `Controller.OwnNameHidesAlias` | script.js:204 | the alias generated from `"John Doe"` counts as stale for the field holding `"John Doe"` |
| `Controller.TrailingSpaceSplitsTests` | script.js:204 | after a trailing space is typed behind `"John Doe"`, the test as written hides its alias while the corrected test keeps it |
| `Controller.MatchesInputIffSameCleanName` | script.js:204 | with the corrected test, the alias stays shown exactly while the field cleans to the same local part, and always for the name that produced it |

## Findings

| source | as written | input that shows it | evidently intended | confidence | as-written member | corrected member |
|---|---|---|---|---|---|---|
| script.js:204 | the input handler compares `nameInput.value.trim()` with the shown alias up to its first `+`, but that prefix is the lowercased, whitespace-free name | generate from `John Doe` (alias `johndoe+NNNNN@crosseven.com`), then type a trailing space: the field `John Doe ` still cleans to `johndoe`, but its trim `John Doe` is not `johndoe`, so the result is hidden | hide the result only when the field no longer cleans to the shown local part | medium; not executed | `Controller.TrailingSpaceSplitsTests` | `Controller.MatchesInputIffSameCleanName` |

## Left out

- DOM effects: the three error-message texts and `showError`'s styling and focus; the removal of an existing error message by `handleGenerate` (script.js:145-148); the border-colour reset and error removal by the input handler (script.js:196-201); `showSuccessMessage`; scrolling; tooltips; the footer year. The model returns the error kind instead of a message.
- `copyToClipboard` and `handleCopy`: the asynchronous clipboard API, the `execCommand` fallback and `alert` are foreign calls.
- The timers: message auto-dismissal, the 300 ms delay and the loading state that the wrapper at script.js:240-248 puts around `handleGenerate`. Only Enter (script.js:189) and Ctrl/Cmd+Enter (script.js:255) reach that wrapper; the click listener bound at script.js:183 keeps the original handler. Neither path changes what the handler computes.
- `saveFormState` and `loadFormState`: a foreign key-value store.
- Keyboard shortcuts and listener wiring, because they only decide when a handler runs.
- Floating point: `Math.random()` becomes the integer draw, so the distribution of the suffix is not modelled.
- `toLowerCase` beyond ASCII. Non-ASCII characters are left as they are, whereas JavaScript also lowercases letters like `Ä` and the Kelvin sign. For names the validator accepts, every non-whitespace character is ASCII, so the model is exact there.
- Unpaired UTF-16 surrogates: a Dafny `char` is a Unicode scalar value, so strings holding a lone surrogate cannot be represented.
- Generator.TrackedGenerateEmail: the event carries no timestamp, because the clock is not modelled, and `console.log` is not modelled.
