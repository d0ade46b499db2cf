# GmailMatcher in Dafny

A Dafny model of `GmailMatcher`, the one class of the danjam/gmail-matcher PHP
library. It decides whether several email addresses reach the same Gmail
mailbox:

- an instance is built with a target domain, `gmail.com` by default or
  `googlemail.com`, fixed for its lifetime;
- `isGmailAddress` tests, ignoring letter case, whether an address ends in
  `@gmail.com` or `@googlemail.com`;
- `normalize` lower-cases an address, keeps what precedes its first `@`,
  deletes every dot there and appends `@` and the target domain;
- `match` rejects a list of exactly one address, validates the list (no
  falsy address, every address well formed, every address at Gmail, in that
  order, naming the first offender) and answers whether all addresses
  normalise to one value.

Files:

- `ascii_strings.dfy` (module `AsciiStrings`): `strtolower` on ASCII,
  the first piece of `explode('@', …)` and `str_replace('.', '', …)`, with
  their algebra (concatenation, commuting, idempotence).
- `php_arrays.dfy` (module `PhpArrays`): PHP truthiness, `array_filter` and
  `preg_grep` (`Filter`), `array_diff` (`Diff`) and `array_unique` (`Unique`)
  on value lists, and why `array_values(array_diff(…))[0]` is the first
  offending element in input order.
- `gmail_matcher.dfy` (module `GmailMatching`): error kinds, the accepted
  domain list, the regular expression, and the class `GmailMatcher` with the
  read-only field `normalizedDomain` and the operations `Create`,
  `IsGmailAddress`, `Validate`, `Normalize` and `Match`.
- `gmail_properties.dfy` (module `GmailProperties`): what holds across calls,
  and the values the repository's tests expect.

Modelling choices:

- Strings are `seq<char>`.
- Exceptions become values. Construction is `GmailMatcher.Create`, which
  returns `Err(BadConfig)` and no instance for a rejected domain.
  `validate` returns an `Outcome`, and `match` returns a `Result<bool>` whose
  error carries the kind of exception and, for the two address errors, the
  offending address.
- `FILTER_VALIDATE_EMAIL` is PHP's own email grammar. It is the parameter
  `isEmail` of `Validate` and `Match`. As PHP's filter does, an accepted
  address comes back unchanged and a rejected one becomes `false`, which
  `array_diff` compares as `""`.
- The regular expression `/@(gmail\.com|googlemail\.com)$/i` is the predicate
  `MatchesDomainPattern`, built from the accepted domain list. It includes
  PCRE's rule that `$` without the `D` modifier also matches before a final
  newline, so `foo@gmail.com\n` is accepted by `isGmailAddress` and by the
  domain check of validation (`GmailProperties.GmailAddressWithNewline`).
  Whether validation as a whole accepts it depends on the email syntax filter
  `isEmail`, which runs first.
- The count guard is `count($emails) === 1`, checked before validation. The
  exception message asks for "at last two" (meaning at least two) addresses, but the model follows
  the guard: an empty list passes it, validates, and `match` answers `false`.
- The target domain is a `const` field, so no operation can change it after
  construction; `normalize`, `isGmailAddress`, `validate` and `match` are
  functions of their arguments and that field.

## Model

| member | source | states |
|---|---|---|
| AsciiStrings.LowerChar | src/GmailMatcher.php:132 | strtolower on one character leaves no upper-case letter, maps a letter to the same letter of the alphabet and a non-letter to itself |
| AsciiStrings.Lower | src/GmailMatcher.php:132 | strtolower keeps the length, leaves no upper-case ASCII letter, puts the same letter of the alphabet wherever the input has a letter, and keeps every non-letter in place |
| AsciiStrings.BeforeFirstAt | src/GmailMatcher.php:132 | the first piece of explode('@') holds no '@', is a prefix of the input, and is followed by '@' whenever it is shorter than the input |
| AsciiStrings.RemoveDots | src/GmailMatcher.php:129-131 | str_replace('.', '') never lengthens the string |
| AsciiStrings.RemoveDotsSpec | src/GmailMatcher.php:129-133 | str_replace('.', '') keeps exactly the characters other than '.', never lengthens, and leaves a dot-free string unchanged |
| AsciiStrings.LowerAppend | src/GmailMatcher.php:132 | lower-casing a concatenation lower-cases each part |
| AsciiStrings.LowerOfLowerCase | src/GmailMatcher.php:132 | lower-casing an already lower-case string changes nothing |
| AsciiStrings.LowerKeepsNonLetter | src/GmailMatcher.php:132 | a character that is not a letter occurs in the lower-cased string iff it occurs in the original |
| AsciiStrings.BeforeFirstAtAppend | src/GmailMatcher.php:132 | cutting a + b at the first '@', when a has no '@', gives a followed by the cut of b |
| AsciiStrings.BeforeFirstAtStops | src/GmailMatcher.php:132 | nothing after an '@' reaches the first piece |
| AsciiStrings.BeforeFirstAtLower | src/GmailMatcher.php:132 | cutting at the first '@' and lower-casing commute |
| AsciiStrings.RemoveDotsAppend | src/GmailMatcher.php:129-133 | deleting dots distributes over concatenation |
| AsciiStrings.RemoveDotsLowerCase | src/GmailMatcher.php:129-133 | deleting dots keeps a string lower case |
| PhpArrays.Truthy | src/GmailMatcher.php:95 | a falsy string is empty or a single "0": the empty string is falsy, every string of two or more characters is truthy, and a one-character string is truthy iff it is not "0" |
| PhpArrays.Filter | src/GmailMatcher.php:95 | array_filter and preg_grep keep exactly the elements that pass, never lengthen the list, and return the list unchanged iff every element passes |
| PhpArrays.FilterAppend | src/GmailMatcher.php:108 | array_filter and preg_grep keep the input's order: filtering a concatenation filters each part |
| PhpArrays.Diff | src/GmailMatcher.php:104 | array_diff keeps exactly the elements of the first list whose value is absent from the second |
| PhpArrays.DiffAppend | src/GmailMatcher.php:104 | array_diff keeps the first list's order: the difference of a concatenation is the concatenation of the differences |
| PhpArrays.Unique | src/GmailMatcher.php:153-155 | array_unique keeps the same values, each once |
| PhpArrays.FilterAgrees | src/GmailMatcher.php:104 | filtering with two predicates that agree on the list gives the same result |
| PhpArrays.FilterHead | src/GmailMatcher.php:104 | the head of a non-empty filtered list is the first element of the input that passes, and every earlier element fails |
| PhpArrays.DiffHead | src/GmailMatcher.php:104 | when the values found in the second list are exactly those that pass a check and some element fails it, array_diff is non-empty and its first value is the first failing element in input order |
| PhpArrays.UniqueSingleton | src/GmailMatcher.php:153-155 | array_unique leaves exactly one value iff the list is non-empty and all its elements are equal |
| PhpArrays.AllOfPermutation | src/GmailMatcher.php:93-116 | whether every element passes a check does not depend on the order of the list |
| GmailMatching.ResolveNormalizedDomain | src/GmailMatcher.php:37-69 | no argument gives gmail.com; an argument is accepted iff it is exactly gmail.com or googlemail.com and then becomes the target; anything else is BadConfig |
| GmailMatching.GmailMatcher.Create | src/GmailMatcher.php:44-69 | construction succeeds iff the domain is accepted, yields a fresh instance whose target is the resolved domain (always one of the accepted pair), and otherwise fails with BadConfig |
| GmailMatching.MatchesDomainPattern | src/GmailMatcher.php:80 | the pattern '@', one of the accepted domains, then `$`, compared without regard to case, accepts a string iff its lower-cased form ends in @gmail.com or @googlemail.com, or it ends in a newline and the part before that newline does |
| GmailMatching.GmailMatcher.IsGmailAddress | src/GmailMatcher.php:165-168 | true only when the address has an '@'; for an address not ending in a newline, true iff its lower-cased form ends in @gmail.com or @googlemail.com; for one ending in a newline, true iff the part before the newline, lower-cased, does |
| GmailMatching.AcceptedDomainIsSuffix | src/GmailMatcher.php:78-81 | the case-insensitive pattern over the accepted domain list is a suffix test on the lower-cased address for @gmail.com or @googlemail.com |
| GmailMatching.AcceptedDomainNeedsAt | src/GmailMatcher.php:78-81 | a string the domain pattern accepts contains '@' |
| GmailMatching.EndsWithIgnoringCaseLower | src/GmailMatcher.php:80 | comparing a suffix case-insensitively against a lower-case pattern is a suffix test on the lower-cased string |
| GmailMatching.FilterVarArray | src/GmailMatcher.php:99 | filter_var_array keeps the list's length; at each position it holds the address unchanged iff the address passes the syntax filter, and false iff it fails |
| GmailMatching.AsStrings | src/GmailMatcher.php:104 | array_diff compares the filtered values as strings: a kept address as itself, false as "" |
| GmailMatching.SameAsInput | src/GmailMatcher.php:102 | a filtered list identical to the input holds no false, and its values are the input |
| GmailMatching.FilterVarArraySame | src/GmailMatcher.php:99-102 | the syntax-filtered list is identical to the input iff every address passes the filter |
| GmailMatching.FilterVarArrayValues | src/GmailMatcher.php:99-104 | once no address is falsy, an address's value occurs among the filtered values iff it passes the filter |
| GmailMatching.GmailMatcher.Validate | src/GmailMatcher.php:93-116 | fails with the empty error iff some address is falsy; otherwise with an invalid-email error iff some address fails the syntax filter, naming the first such address; otherwise with an invalid-Gmail error iff some address fails the domain pattern, naming the first such address; passes iff all three checks hold |
| GmailMatching.NormalizedLocalPart | src/GmailMatcher.php:129-133 | the rewritten local part has no dot, no '@' and no upper-case letter |
| GmailMatching.GmailMatcher.Normalize | src/GmailMatcher.php:127-134 | the result is its own first piece, '@' and the target domain; that first piece is the address's rewritten local part, so it is dot-free and lower case; defined for every string, with or without '@' |
| GmailMatching.GmailMatcher.Match | src/GmailMatcher.php:145-156 | exactly one address is a count error before any validation; otherwise it succeeds iff validation passes and reports validation's error otherwise; on success it is true iff there are at least two addresses and all normalise to the first one's normal form |
| GmailMatching.GmailMatcher.NormalizeAll | src/GmailMatcher.php:154 | array_map of normalize keeps the length, and each position holds that address's rewritten local part, '@' and the target domain |
| GmailMatching.GmailMatcher.NormalizedSingleton | src/GmailMatcher.php:153-155 | the mapped, de-duplicated list has one value iff the list is non-empty and every address normalises like the first |
| GmailProperties.NormalizeIdempotent | src/GmailMatcher.php:127-134 | normalising a normal form gives it back |
| GmailProperties.NormalizeIgnoresDot | src/GmailMatcher.php:129-133 | a dot inserted anywhere before the first '@' does not change the normal form |
| GmailProperties.NormalizeIgnoresCase | src/GmailMatcher.php:132 | addresses that differ only in letter case have the same normal form |
| GmailProperties.NormalizeIgnoresDomain | src/GmailMatcher.php:132 | whatever follows the first '@' does not change the normal form, so gmail.com and googlemail.com addresses agree |
| GmailProperties.NormalizeKeepsPlus | src/GmailMatcher.php:129-133 | the local part has a '+' iff the normal form's local part has one, so plus tags survive |
| GmailProperties.NormalizeOfAddress | src/GmailMatcher.php:127-134 | an address local@domain normalises to its local part lower-cased without dots, '@' and the target domain |
| GmailProperties.GmailAddressIgnoresTarget | src/GmailMatcher.php:165-168 | isGmailAddress gives the same answer on every instance, whatever its target domain |
| GmailProperties.GmailAddressNeedsAt | src/GmailMatcher.php:165-168 | a string without '@', the empty string included, is not a Gmail address |
| GmailProperties.GmailAddressAt | src/GmailMatcher.php:165-168 | any local part followed by a tail that lower-cases to @gmail.com or @googlemail.com is a Gmail address |
| GmailProperties.GmailAddressWithNewline | src/GmailMatcher.php:80 | for a string that does not end in a newline, appending one newline neither gains nor loses acceptance by isGmailAddress |
| GmailProperties.MatchPermutation | src/GmailMatcher.php:145-156 | reordering the addresses changes neither whether match succeeds, nor its verdict, nor the kind of error |
| GmailProperties.MatchTwo | src/GmailMatcher.php:145-156 | for two addresses that pass validation, match answers whether their normal forms are equal |
| GmailProperties.MatchAcrossDomains | tests/GmailMatcherTest.php:73 | the same local part at gmail.com and at googlemail.com matches |
| GmailProperties.MatchPlusTag | src/GmailMatcher.php:127-156 | local+tag@gmail.com and local@gmail.com do not match |
| GmailProperties.MatchDifferentLocalParts | tests/GmailMatcherTest.php:74 | two gmail.com addresses whose local parts differ after lower-casing and dot removal do not match |
| GmailProperties.LocalPartOfNormalForm | src/GmailMatcher.php:127-134 | the normal form of local@gmail.com, cut at its first '@', is the local part lower-cased without dots |
| GmailProperties.MatchRepeatedInvalid | src/GmailMatcher.php:99-106 | a truthy address the syntax filter rejects, given twice, is reported as an invalid email naming it |
| GmailProperties.MatchRepeatedNotGmail | src/GmailMatcher.php:108-115 | a well-formed address outside Gmail, given twice, is reported as an invalid Gmail address naming it |
| GmailProperties.MatchEdgeCases | src/GmailMatcher.php:95-97 | the empty list answers false, one address is a count error even if empty, and "" or "0" among two addresses is the empty error |
| GmailProperties.ConstructionExamples | tests/GmailMatcherTest.php:47-64 | no argument and googlemail.com are accepted; INVALID and GMAIL.COM are rejected |
| GmailProperties.NormalizeTestValues | tests/GmailMatcherTest.php:21-53 | f.o.o@gmail.com, FOO@GMAIL.COM and foo@googlemail.com normalise to foo@gmail.com; with target googlemail.com, foo@googlemail.com stays |
| GmailProperties.IsGmailAddressTestValues | src/GmailMatcher.php:165-168 | FOO@GOOGLEMAIL.COM and foo@gmail.com followed by a newline are Gmail addresses; foo@bar.com and "" are not |
| GmailProperties.MatchTestVerdicts | tests/GmailMatcherTest.php:69-91 | foo@gmail.com matches foo@googlemail.com and does not match bar@gmail.com |
| GmailProperties.MatchTestErrors | tests/GmailMatcherTest.php:126-127 | one address is a count error; two empty addresses are the empty error |
| GmailProperties.MatchTestInvalidEmail | tests/GmailMatcherTest.php:128 | INVALID twice is an invalid email naming INVALID |
| GmailProperties.MatchTestInvalidGmail | tests/GmailMatcherTest.php:129 | foo@bar.com twice is an invalid Gmail address naming foo@bar.com |

## Left out

- PHP's email grammar behind `FILTER_VALIDATE_EMAIL` is not modelled. It is
  the parameter `isEmail`, and every result holds for whatever predicate is
  passed.
- The PCRE engine is not modelled. The one pattern the class builds is
  stated directly as a suffix test, including the final-newline rule of `$`.
  `normalizedDomainsRegexString` is therefore not modelled as string building.
- Multibyte and locale behaviour of `strtolower` is left out: only the ASCII
  letters A-Z are lowered.
- PHP array keys are left out. Every list is the value sequence of a PHP
  array in iteration order; the strict comparisons `!==` at lines 95, 102 and
  111 compare lists whose keys agree whenever their values do.
- Exception classes and message texts (the `ERROR_*` constants) are left out.
  Only the kind of error and the offending address are kept.
- `GmailMatching.GmailMatcher.constructor` requires an accepted domain; the
  rejecting path of the PHP constructor is `GmailMatcher.Create`.
