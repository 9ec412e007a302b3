# The user schema's email rule, in Dafny

This project models the user record of `server/models/user.js`. The record has two
string paths, `email` and `password`, and both are required. The value assigned to
`email` is trimmed with `String.prototype.trim`. The trimmed value must then match an
anchored regular expression. If it does not, the email path fails with the message
"Please enter a vaild email address" (the misspelling is kept).

The model has six layers, one module each, plus a module of worked scenarios:

- `JsText` holds the ECMAScript primitives the rule relies on. These are the
  white-space class `\s`, the line terminators that a regular-expression `.` does not
  match, and `trim`.
- `EmailPattern` transcribes the regular expression part by part into predicates.
  Every concatenation becomes an existential over its split point, because a
  backtracking matcher tries every split. `ValidEmail(s)` holds when some `@` in `s`
  splits it into a local part and a domain.
- `EmailScan` is a deterministic reading of the same rule. It cuts at the last `@`,
  cuts the host name at its last dot, and splits the address literal at each dot.
  `CheckEmailCorrect` proves that it accepts exactly the strings `ValidEmail` accepts.
- `EmailFacts` proves what every accepted string looks like. It covers where the
  split must fall, where `@` and white space may stand, how the string must start
  and end (the anchoring), and how an accepted string relates to trimming.
- `EmailExamples` proves, from the transcription, that concrete strings are accepted
  or rejected.
- `UserSchema` models one write. `Validate` takes the values a caller assigned
  (`None` is an absent field). It returns `Saved(user)`, or `Rejected(errors)` with
  one error per failing path. On each path the `required` check comes before the
  format rule, so the format rule only reports on a non-empty trimmed value.
- `UserScenarios` applies `Validate` to concrete records.

Some details of the code that the model keeps:

- The expression has no flags. `^` and `$` therefore anchor the whole value, and
  every class is case-sensitive.
- The quoted alternative of the local part is `.(".+")`. It is one character, then a
  double quote, one or more characters, and a closing double quote. A regular
  expression `.` without the `s` flag does not match a line terminator, so none of
  those characters may be a line terminator. Without the `u` flag, that single `.`
  also matches exactly one UTF-16 code unit. A character outside the Basic
  Multilingual Plane therefore cannot stand in front of the opening quote
  (`IsSingleUnit`). Everywhere else a Dafny `char` above U+FFFF, which is two code
  units in JavaScript, gives the same verdict whether it is read as one character or
  as two. Both of its surrogate code units fall in the atom class and in `.+`, and in
  no other class of the rule, and neither is white space.
- The leading character may be white space. The quoted alternative is the only place
  in an accepted string where white space may stand (`WhiteSpaceOnlyInQuotedLocal`).
- Trimming happens before the format check. So ` "ab"@b.co` matches the expression,
  but the trimmed `"ab"@b.co` does not, and the write is refused
  (`TrimmingCanRejectQuotedForm`).
- The address literal checks only that each of the four groups is one to three
  digits. `a@[999.0.0.1]` is accepted.
- A domain never contains `@`. So although the quoted local form may contain `@`,
  the expression can split an accepted string only at its last `@` (`SplitIsLastAt`).

## Model

| member | source | states |
|---|---|---|
| JsText.IsLineTerminator | server/models/user.js:10 | the ECMAScript LineTerminator characters LF, CR, U+2028 and U+2029: the code units a regular-expression `.` without the `s` flag does not match |
| JsText.IsWhiteSpace | server/models/user.js:7 | the ECMAScript WhiteSpace and LineTerminator characters: the class `\s` of the expression, and the set `trim` removes |
| JsText.Trim | server/models/user.js:7 | `String.prototype.trim`: leading white space removed, then trailing white space |
| JsText.TrimStart | server/models/user.js:7 | the result is the longest suffix of the value that does not start with white space, and everything cut away is white space |
| JsText.TrimEnd | server/models/user.js:7 | the result is the longest prefix of the value that does not end with white space, and everything cut away is white space |
| JsText.TrimIsSlice | server/models/user.js:7 | `trim` returns a slice `s[a..b]` of its argument, everything outside the slice is white space, and the result has no white space at either end |
| JsText.TrimFixesExactlyTrimmed | server/models/user.js:7 | `trim` leaves a value unchanged if and only if neither end is white space |
| JsText.TrimIdempotent | server/models/user.js:7 | trimming a trimmed value changes nothing |
| JsText.TrimStartSkips | server/models/user.js:7 | white space in front of a string that does not start with white space is exactly what the leading trim removes |
| JsText.TrimEndSkips | server/models/user.js:7 | white space after a string that does not end with white space is exactly what the trailing trim removes |
| JsText.TrimSurrounded | server/models/user.js:7 | `trim` recovers any non-empty trimmed string from white space put around it |
| EmailPattern.IsDigit | server/models/user.js:10 | the class `[0-9]` |
| EmailPattern.IsAsciiLetter | server/models/user.js:10 | the class `[a-zA-Z]` |
| EmailPattern.IsLabelChar | server/models/user.js:10 | the class `[a-zA-Z\-0-9]`: an ASCII letter, a digit or `-` |
| EmailPattern.Run | server/models/user.js:10 | `P+` for a class `P`: a non-empty string of characters in the class |
| EmailPattern.Runs | server/models/user.js:10 | `P+(\.P+)*` for a class `P`: one run, then any number of runs each after a single dot |
| EmailPattern.IsAtomChar | server/models/user.js:10 | the class `[^<>()[\]\\.,;:\s@"]`: any character but those thirteen and white space |
| EmailPattern.IsSingleUnit | server/models/user.js:10 | the lone `.` before the opening quote: one UTF-16 code unit that is not a line terminator |
| EmailPattern.DotAtom | server/models/user.js:10 | the first local-part alternative: one or more runs of atom characters separated by single dots |
| EmailPattern.QuotedLocal | server/models/user.js:10 | the second local-part alternative `.(".+")`: one code unit, a double quote, one or more non-line-terminators, a double quote |
| EmailPattern.LocalPart | server/models/user.js:10 | the local-part group: the dotted atom form or the quoted form |
| EmailPattern.DigitGroup | server/models/user.js:10 | `[0-9]{1,3}`: one to three digits |
| EmailPattern.DigitGroups | server/models/user.js:10 | `n` digit groups separated by single dots |
| EmailPattern.IPv4Literal | server/models/user.js:10 | `[`, four groups of one to three digits separated by dots, `]` |
| EmailPattern.TopLabel | server/models/user.js:10 | `[a-zA-Z]{2,}`: two or more ASCII letters |
| EmailPattern.Hostname | server/models/user.js:10 | one or more labels over letters, digits and `-`, each followed by a dot, then two or more letters |
| EmailPattern.Domain | server/models/user.js:10 | the address literal or the host name |
| EmailPattern.IsSplit | server/models/user.js:10 | the `@` at a position has a local part before it and a domain after it |
| EmailPattern.ValidEmail | server/models/user.js:9-12 | the validator's verdict: the whole value matches the anchored expression, that is, some `@` splits it |
| EmailScan.CheckEmail | server/models/user.js:10 | the deterministic check: cut at the last `@`, then a flat dot-atom or the quoted form before it, and an address literal or a host name after it |
| EmailScan.RunsIff | server/models/user.js:10 | `P+(\.P+)*` matches exactly the non-empty strings over `P` and `.` with no dot at either end and no two dots in a row, for any class `P` without the dot |
| EmailScan.DigitGroupsIff | server/models/user.js:10 | `n` groups of `[0-9]{1,3}` joined by dots are exactly a string with `n` dot-separated fields of one to three digits each |
| EmailScan.IPv4CheckIff | server/models/user.js:10 | the bracketed literal of four digit groups matches exactly when the field-splitting check accepts |
| EmailScan.HostnameIff | server/models/user.js:10 | `([a-zA-Z\-0-9]+\.)+[a-zA-Z]{2,}` matches exactly when the text before the last dot is dot-separated labels and the text after it is two or more letters |
| EmailScan.DomainChars | server/models/user.js:10 | a domain holds only letters, digits, `-`, `.`, `[` and `]`, and ends with a letter or `]` |
| EmailScan.LocalCheckIff | server/models/user.js:10 | the local-part check agrees with both alternatives of the local part of the expression |
| EmailScan.DomainCheckIff | server/models/user.js:10 | the domain check agrees with both alternatives of the domain of the expression |
| EmailScan.SplitIsLastAt | server/models/user.js:10 | any `@` followed by a domain is the last `@` of the value |
| EmailScan.CheckEmailSound | server/models/user.js:10 | a value the deterministic check accepts matches the expression, split at its last `@` |
| EmailScan.CheckEmailComplete | server/models/user.js:10 | a value whose local part before its last `@` and domain after it satisfy the expression is accepted by the deterministic check |
| EmailScan.CheckEmailCorrect | server/models/user.js:9-12 | the deterministic check accepts a value if and only if the validator's anchored expression matches it |
| EmailFacts.DotAtomChars | server/models/user.js:10 | an unquoted local part is made of atom characters and dots, starts with an atom character and does not end with a dot |
| EmailFacts.SplitUnique | server/models/user.js:10 | the expression can split an accepted value at one `@` only |
| EmailFacts.SplitAtLastAt | server/models/user.js:10 | that split is at the `@` with no other `@` after it |
| EmailFacts.UnquotedHasOneAt | server/models/user.js:10 | with an unquoted local part, an accepted value contains exactly one `@` |
| EmailFacts.AfterSplit | server/models/user.js:10 | after the split every character is a domain character, and the value ends with a letter or `]` |
| EmailFacts.BeforeSplitUnquoted | server/models/user.js:10 | before the split of an unquoted local part every character is an atom character or a dot |
| EmailFacts.WhiteSpaceInLocalPart | server/models/user.js:10 | a local part containing white space is the quoted form, with the white space first or between the quotes |
| EmailFacts.WhiteSpaceOnlyInQuotedLocal | server/models/user.js:10 | white space in an accepted value stands only in the quoted local form: as its first character, or between the quotes |
| EmailFacts.NoWhiteSpaceInDomain | server/models/user.js:10 | neither the `@` of the split nor anything after it is white space |
| EmailFacts.DomainCharIsNotWhiteSpace | server/models/user.js:10 | no character of the domain classes is white space |
| EmailFacts.AcceptedHasAt | server/models/user.js:10 | every accepted value contains `@` |
| EmailFacts.AcceptedEnd | server/models/user.js:10 | anchoring at `$`: an accepted value ends with a letter or `]` |
| EmailFacts.AcceptedStart | server/models/user.js:10 | anchoring at `^`: an accepted value starts with an atom character, or with one code unit followed by a double quote |
| EmailFacts.RejectsTrailingCharacter | server/models/user.js:10 | appending any character other than a letter or `]` gives a value that is rejected |
| EmailFacts.RejectsLeadingCharacter | server/models/user.js:10 | prepending a non-atom character gives a rejected value unless a double quote follows it |
| EmailFacts.AcceptedIsTrimmed | server/models/user.js:7-10 | an accepted value that does not start with white space is left unchanged by `trim` |
| EmailExamples.SplitOf | server/models/user.js:10 | a local part, `@` and a domain together make an accepted value |
| EmailExamples.DigitGroupsCons | server/models/user.js:10 | a digit group, a dot and `n - 1` digit groups make `n` digit groups |
| EmailExamples.AddressLiteralOf | server/models/user.js:10 | four digit groups in brackets make an address literal |
| EmailExamples.FourGroups | server/models/user.js:10 | four digit groups joined by dots match `[0-9]{1,3}\.[0-9]{1,3}\.[0-9]{1,3}\.[0-9]{1,3}` |
| EmailExamples.LocalAndHost | server/models/user.js:10 | a local part, `@`, one label, a dot and a top label make an accepted value |
| EmailExamples.HostEmailAt | server/models/user.js:10 | the same with an unquoted local part of one atom |
| EmailExamples.HostEmailOf | server/models/user.js:10 | an atom, `@`, a label, a dot and two or more letters make an accepted value |
| EmailExamples.QuotedHostEmailAt | server/models/user.js:10 | the same with the quoted local form |
| EmailExamples.AcceptsPlusInLocalPart | server/models/user.js:10 | `a+b@b.co` is accepted, since `+` is not excluded |
| EmailExamples.AcceptsPlainAddress | server/models/user.js:10 | `a@b.co` is accepted |
| EmailExamples.AcceptsWordAddress | server/models/user.js:10 | `user@example.com` is accepted |
| EmailExamples.AcceptsHyphenEdgedLabel | server/models/user.js:10 | `a@-x-.co` is accepted: a label may start and end with `-` |
| EmailExamples.AcceptsQuotedLocalPart | server/models/user.js:10 | `x"ab"@b.co` is accepted |
| EmailExamples.AddressLiteralEmail | server/models/user.js:10 | one atom, `@` and four bracketed digit groups make an accepted value |
| EmailExamples.AcceptsAddressLiteral | server/models/user.js:10 | `a@[192.168.0.1]` is accepted |
| EmailExamples.AcceptsOutOfRangeAddressLiteral | server/models/user.js:10 | `a@[999.0.0.1]` is accepted: the numbers are not range-checked |
| EmailExamples.RejectIfPartsFail | server/models/user.js:10 | a value is rejected when the text before its last `@` is not a local part or the text after it is not a domain |
| EmailExamples.RejectsLeadingDot | server/models/user.js:10 | `.a@b.co` is rejected |
| EmailExamples.RejectsTrailingDotInLocalPart | server/models/user.js:10 | `a.@b.co` is rejected |
| EmailExamples.RejectsDoubleDot | server/models/user.js:10 | `a..b@b.co` is rejected |
| EmailExamples.RejectsSpaceInUnquotedLocalPart | server/models/user.js:10 | `a b@b.co` is rejected |
| EmailExamples.RejectsQuotedWithoutLeadingCharacter | server/models/user.js:10 | `"ab"@b.co` is rejected: the quoted form needs one character in front of the opening quote |
| EmailExamples.RejectsEmptyQuotes | server/models/user.js:10 | `x""@b.co` is rejected: the quotes must enclose at least one character |
| EmailExamples.RejectsSingleLabelHost | server/models/user.js:10 | `a@localhost` is rejected: a host name needs a dot |
| EmailExamples.RejectsOneLetterTopLabel | server/models/user.js:10 | `a@b.c` is rejected: the top label needs two letters |
| EmailExamples.RejectsDigitInTopLabel | server/models/user.js:10 | `a@b.c1` is rejected: the top label is letters only |
| EmailExamples.DigitGroupsFirstDot | server/models/user.js:10 | with two or more digit groups, the first dot is at position 1, 2 or 3 |
| EmailExamples.FirstGroupShort | server/models/user.js:10 | in an address literal the first dot comes within three digits of `[` |
| EmailExamples.DomainOpeningBracket | server/models/user.js:10 | a domain that opens with `[` is the address literal |
| EmailExamples.DomainAfterLastAt | server/models/user.js:10 | in an accepted value the text after the last `@` is a domain |
| EmailExamples.RejectsShortLiteral | server/models/user.js:10 | a bracketed domain shorter than `[0.0.0.0]` is rejected |
| EmailExamples.LongFirstGroupNotLiteral | server/models/user.js:10 | a text of six or more characters with no dot at indices 2, 3 and 4 (the second to fourth characters after a leading `[`) is not an address literal |
| EmailExamples.RejectsLongFirstGroup | server/models/user.js:10 | a value whose text after its last `@` is at least six characters long, starts with `[`, and has no dot at the second, third or fourth character after the `[` is rejected |
| EmailExamples.RejectsThreeGroupLiteral | server/models/user.js:10 | `a@[1.2.3]` is rejected |
| EmailExamples.RejectsFourDigitGroup | server/models/user.js:10 | `a@[1234.0.0.1]` is rejected |
| EmailExamples.RejectsWithoutAt | server/models/user.js:10 | a value without `@` is rejected |
| EmailExamples.RejectsMissingAt | server/models/user.js:10 | `not-an-email` is rejected |
| EmailExamples.RejectsTrailingPunctuation | server/models/user.js:10 | `a@b.co!` is rejected: nothing may follow the top label |
| EmailExamples.TrimOneLeading | server/models/user.js:7 | one white-space character in front of an otherwise trimmed string is all that `trim` removes |
| EmailExamples.AcceptsWhiteSpaceBeforeQuote | server/models/user.js:10 | ` "ab"@b.co` matches the expression: the character before the quote may be white space |
| EmailExamples.TrimsWhiteSpaceBeforeQuote | server/models/user.js:7 | trimming ` "ab"@b.co` removes the leading space |
| EmailExamples.TrimmingCanRejectQuotedForm | server/models/user.js:7-10 | a value can match the expression and still fail after trimming |
| UserSchema.ValidatorError | server/models/user.js:4-19 | why a path fails: the `required` check, or the format rule with its message |
| UserSchema.Outcome | server/models/user.js:3-20 | a write either stores the record or is refused with one error per failing path |
| UserSchema.InvalidEmailMessage | server/models/user.js:13 | the message of the format rule, "Please enter a vaild email address", spelling kept |
| UserSchema.Present | server/models/user.js:5 | the `required` check on a string path: the value is there and is not empty |
| UserSchema.CastEmail | server/models/user.js:7 | an assigned email is stored as `trim` of the value, so with no white space at either end, and it is stored unchanged exactly when it has none; an absent email stays absent |
| UserSchema.EmailError | server/models/user.js:4-14 | the email path passes exactly when the value is there and matches; it fails as required exactly when the value is absent or empty; any other failure carries the fixed message |
| UserSchema.PasswordError | server/models/user.js:16-19 | the password path fails, as required, exactly when the value is absent or empty |
| UserSchema.Errors | server/models/user.js:3-20 | each path is in the error map exactly when that path fails, with that path's error |
| UserSchema.Validate | server/models/user.js:3-20 | a write succeeds exactly when the trimmed email matches and the password is non-empty, and then stores the trimmed email; otherwise it is refused with at least one error, and exactly the failing paths are listed, with `Required` for a missing or blank value and the fixed message for a malformed email |
| UserSchema.SavedUserIsValid | server/models/user.js:3-20 | every written record has a non-empty, trimmed, matching email and a non-empty password |
| UserSchema.RevalidateSaved | server/models/user.js:3-20 | writing a written record again writes the same record |
| UserSchema.TrimBeforehandChangesNothing | server/models/user.js:7 | trimming the email before assigning it gives the same outcome |
| UserSchema.BlankEmailIsRequired | server/models/user.js:5-7 | an email of white space only is refused as missing, not as malformed |
| UserSchema.SavesWhenBothPass | server/models/user.js:3-20 | a value that matches after trimming and a non-empty password are written, with the trimmed email |
| UserSchema.SavesAcceptedAsGiven | server/models/user.js:3-20 | a matching value that does not start with white space is written unchanged |
| UserSchema.RejectsOnlyEmailFormat | server/models/user.js:8-14 | a non-blank malformed email with a valid password is refused on the email path alone, with the fixed message |
| UserSchema.RejectsOnlyEmailMissing | server/models/user.js:5 | a missing or blank email with a valid password is refused on the email path alone, as missing |
| UserSchema.RejectsOnlyPasswordMissing | server/models/user.js:17 | a missing or empty password with a valid email is refused on the password path alone, as missing |
| UserScenarios.SavesAs | server/models/user.js:3-20 | a value that trims to a matching `t`, with a non-empty password, is written with `t` |
| UserScenarios.TrimsPaddedAddress | server/models/user.js:7 | `"  a@b.co  "` trims to `"a@b.co"` |
| UserScenarios.SavesValidRecord | server/models/user.js:3-20 | `user@example.com` with password `secret` is written as given |
| UserScenarios.RejectsMalformedEmail | server/models/user.js:13 | `not-an-email` is refused on the email path with exactly "Please enter a vaild email address" |
| UserScenarios.RejectsEmptyEmail | server/models/user.js:5 | an empty email is refused on the email path as missing |
| UserScenarios.RejectsEmptyPassword | server/models/user.js:17 | an empty password is refused on the password path as missing |
| UserScenarios.SavesAddressLiteral | server/models/user.js:3-20 | `a@[192.168.0.1]` is written |
| UserScenarios.SavesTrimmedEmail | server/models/user.js:7 | `"  a@b.co  "` is accepted and stored as `"a@b.co"` |

## Left out

- The import of the persistence framework, the schema registration and the export of
  the model (lines 1, 3 and 20–23) are not modelled. Persistence, queries and
  connections live in that framework, which is not part of this model. `Validate` is
  the decision it takes for one write.
- The framework's error objects are not modelled: their classes, kinds and paths. An
  outcome is `Saved`, or `Rejected` with a map from each failing path to `Required` or
  to `Invalid(message)`.
- Validator order is modelled only as far as one rule goes: on a path, `required` is
  reported in place of the format rule.
- Casting is not modelled. A value of another type would be cast to a string before
  trimming; the model takes strings only.
- No general regular-expression engine is modelled. The expression is transcribed
  as predicates. The result of `value.match(re)` is an array or `null`, and the model
  keeps only whether it is non-null, as `ValidEmail`.
- Strings are sequences of Unicode scalar values. A JavaScript string may also hold
  a lone surrogate code unit, and no such string is modelled.
- `UserSchema.EmailError` uses `ValidEmail` directly, not the deterministic check.
  `EmailScan.CheckEmailCorrect` proves the two agree.
- Password hashing, uniqueness of emails and authentication do not appear in the
  schema and are not modelled.
- The rule is loosely based on the addr-spec of section 3.4.1 of RFC 5322, but the
  model follows the expression as written, not the RFC.
