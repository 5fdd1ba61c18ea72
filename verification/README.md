# Registration form validation, modelled in Dafny

`index.js` drives a one-page registration form. It has four text inputs (full name, email,
phone, birth date) and a terms checkbox. On submit it clears the five inline error slots,
refreshes the timestamp box, trims the name, email and phone values and runs all
five validators. If any validator returns a message, that message goes to the field's
error slot and nothing else happens. If all five pass, a row of six cells (timestamp,
name, email, phone, birth text, "Yes"/"No") is appended to the table, a success notice is
shown, the form is reset and the timestamp is refreshed again. The clear button only
empties the error slots and refreshes the timestamp.

The model has three modules:

- `Text` (`text.dfy`): the string operations the validators rely on. These are
  JavaScript's `trim()` and `split(/\s+/)` over the ECMAScript white-space and
  line-terminator characters. It also holds the facts that connect "a piece of the split"
  with "a word of the string", and `Utf16Length`, JavaScript's `length`: the number of
  UTF-16 code units, two for a character outside the Basic Multilingual Plane (an emoji,
  say). Both length rules count in these units. The name rule's `p.length < 2` does, and so
  does the email pattern's `{2,}`, because the expression has no `u` flag.
- `Validators` (`validators.dfy`): the five validators as pure functions with their exact
  messages, and lemmas that characterise each rule.
  - The email regular expression `^[^@\s]+@[^@\s]+\.[^@\s]{2,}$` is restated as
    `EmailMatchAt`: an `@` position and a `.` position that split the value into three
    runs of address characters. `ValidateEmail` decides it by scanning, and
    `EmailShapeMatchesPattern` proves the two agree on every string.
  - The phone patterns `^\+358\d{6,12}$` and `^0\d{5,12}$` are written out as
    `InternationalNumber` and `DomesticNumber`.
- `Form` (`form.dfy`): the page.
  - The `errors` object is a `Report`. The page's state is a class `Page` holding the
    timestamp text, a map from each field to its error slot's text, the success notice
    and the table rows.
  - Each handler is a method proved against a function on `PageState`
    (`Submitted`, `Cleared`). The properties of the handlers are lemmas about those
    functions.

The phone rule follows `index.js:50`: after `+358` it wants 6 to 12 digits. So
`+35812345` (five digits after the prefix) is rejected (`FiveDigitInternationalRejected`).

## Model

| member | source | states |
|---|---|---|
| Text.IsWhitespace | index.js:34-35 | defines the characters `trim()` strips and `\s` matches (the ECMAScript white-space and line-terminator code points; see the Unicode tables line under Left out); used by `Text.Trim`, `Text.SplitWhitespace` and the address and separator classes |
| Text.IndexOf | index.js:23 | the result is the first position of the character, or the length when it does not occur; used by `Form.ReplaceFirst` and `Validators.EmailShape` |
| Text.Trim | index.js:34 | the result is empty iff the value is all whitespace; otherwise it starts and ends with non-whitespace; it is the slice of the value after its leading whitespace run, and everything after it is whitespace |
| Text.TrimIdempotent | index.js:88-96 | trimming an already trimmed value (the submit handler trims, then the validators trim again) changes nothing |
| Text.SplitWhitespace | index.js:35 | `split(/\s+/)` yields at least one piece and no piece holds whitespace |
| Text.SplitCount | index.js:35-36 | the split has two or more pieces iff the string holds whitespace |
| Text.SplitTrimmedNonEmpty | index.js:35 | a string with non-whitespace at both ends splits into non-empty pieces only |
| Text.SplitKeepsContent | index.js:35 | the pieces, concatenated, are exactly the string's non-whitespace characters in order |
| Text.Utf16Length | index.js:37 | JavaScript's `length`, in UTF-16 code units, lies between the number of characters and twice it |
| Text.Utf16LengthAllBmp | index.js:37 | the `length` equals the number of characters exactly when every character lies in the Basic Multilingual Plane |
| Text.Utf16LengthAppend | index.js:43 | the `length` of a concatenation is the sum of the lengths |
| Text.Utf16LengthSuffix | index.js:43 | a later suffix of a string is never longer in UTF-16 units |
| Text.Utf16LengthBelowTwo | index.js:37 | a non-empty string has `length` below two exactly when it is one character of the Basic Multilingual Plane |
| Text.OneUnitPieceIsWord | index.js:37 | a piece of the split of `length` one comes from a one-unit word of the string (a Basic Multilingual Plane character with whitespace or an end on both sides) |
| Text.OneUnitWordIsPiece | index.js:37 | a one-unit word of the string is a piece of `length` one of its split |
| Text.TrimOneUnitWord | index.js:34-37 | trimming neither creates nor removes one-unit words |
| Validators.ValidateFullName | index.js:33-39 | the result is one of the three name messages or empty |
| Validators.FullNameRules | index.js:33-39 | the messages in order: missing iff all whitespace; incomplete iff one word; too short iff several words and some word of `length` one (a one-unit word); accepted iff several words and no one-unit word |
| Validators.ShortPieceIffOneUnitWord | index.js:37 | in a trimmed value, some piece of `length` below two exists iff the value has a one-unit word |
| Validators.HasShortPiece | index.js:37 | defines `parts.some((p) => p.length < 2)` in UTF-16 units; characterised by `Validators.ShortPieceIsOneUnit` and `Validators.ShortPieceIffOneUnitWord` |
| Validators.ShortPieceIsOneUnit | index.js:37 | among non-empty pieces, one of `length` below two is exactly one of `length` one |
| Validators.NameAcceptedWords | index.js:35-38 | an accepted name splits into at least two pieces, each of `length` two or more |
| Validators.TwoWordName | index.js:33-39 | two words joined by a space are accepted iff both have `length` two or more, else "too short" |
| Validators.TwoLetterNamesAccepted | index.js:33-39 | "Jo An" is accepted |
| Validators.OneLetterNameRejected | index.js:37 | "J An" gets the too-short message |
| Validators.AstralFirstNameAccepted | index.js:37 | a first name of one emoji (two UTF-16 units) followed by "Smith" is accepted |
| Validators.EmailMatchAt | index.js:43 | defines a match of the regular expression at a given `@` and `.`: three runs of address characters, the last of `length` two or more; characterised by `Validators.EmailShapeMatchesPattern` and `Validators.EmailPatternParts` |
| Validators.MatchesEmailPattern | index.js:43 | defines "the regular expression matches": some `@` and `.` give a match; characterised by `Validators.EmailRules` |
| Validators.EmailShape | index.js:43-44 | defines the scan `ValidateEmail` runs for `re.test(value)`; characterised by `Validators.EmailShapeMatchesPattern` |
| Validators.EmailShapeMatchesPattern | index.js:43-44 | the scanning decision holds exactly for the strings the regular expression matches |
| Validators.ShapeMatches | index.js:43 | the first `@` and the first `.` two or more characters after it, when the scan accepts, form a match |
| Validators.MatchHasShape | index.js:43 | every match passes the scan: its `@` is the only one, and the first `.` after it leaves an ending at least as long |
| Validators.EmailPatternParts | index.js:43 | in a match every character except the `@` is an address character |
| Validators.EmailPatternSingleAt | index.js:43 | a matching address has no whitespace and exactly one `@` |
| Validators.ValidateEmail | index.js:41-45 | the result is one of the two email messages or empty |
| Validators.EmailRules | index.js:41-45 | missing iff all whitespace; accepted iff the value matches the pattern; invalid iff neither |
| Validators.EmailAccepted | index.js:43-44 | local@domain.ending with non-empty parts of address characters and an ending of `length` two or more is accepted |
| Validators.PatternAccepted | index.js:44 | a value the regular expression matches is accepted |
| Validators.EmailOneUnitEndingRejected | index.js:43-44 | with no dot in the domain, an ending of one Basic Multilingual Plane character is rejected |
| Validators.EmailWithoutAtRejected | index.js:43-44 | a non-blank value without `@` is rejected |
| Validators.TwoLetterEndingAccepted | index.js:41-45 | "a@b.co" is accepted |
| Validators.DottedEndingAccepted | index.js:43 | "a@b.c.d" is accepted: the part after the first dot may hold further dots |
| Validators.OneLetterEndingRejected | index.js:43-44 | "a@b.c" is rejected |
| Validators.AstralEndingAccepted | index.js:43-44 | "a@b." followed by one emoji is accepted: the ending is two UTF-16 units |
| Validators.MissingAtRejected | index.js:43-44 | "a.com" is rejected |
| Validators.ValidatePhone | index.js:47-53 | the result is one of the two phone messages or empty |
| Validators.PhoneRules | index.js:47-53 | missing iff all whitespace; accepted iff the separator-free value is in one of the two Finnish formats; invalid iff neither |
| Validators.StripSeparators | index.js:49 | the result is no longer than the value and holds no whitespace, `-`, `(` or `)`; see also `Validators.StripSeparatorsClean` |
| Validators.InternationalNumber | index.js:50 | defines `^\+358\d{6,12}$`; characterised by `Validators.InternationalDigitCount` and `Validators.NumberDigits` |
| Validators.DomesticNumber | index.js:50 | defines `^0\d{5,12}$`; characterised by `Validators.DomesticDigitCount` and `Validators.NumberDigits` |
| Validators.StripSeparatorsAppend | index.js:49 | deleting separators distributes over concatenation |
| Validators.StripSeparatorsClean | index.js:49 | after deletion no whitespace, `-`, `(` or `)` is left |
| Validators.PhoneIgnoresSeparators | index.js:47-53 | unless only separators were typed, a number is judged exactly as its separator-free form |
| Validators.DigitCountStrip | index.js:49 | deleting separators keeps every digit |
| Validators.NumberDigits | index.js:50 | a number in either Finnish format holds 6 to 15 digits |
| Validators.PhoneAcceptedDigits | index.js:47-53 | an accepted phone value holds 6 to 15 digits as typed |
| Validators.CleanPhone | index.js:47-53 | a separator-free value not starting with whitespace is never "missing" and is accepted iff it is in one of the two formats |
| Validators.InternationalDigitCount | index.js:50 | "+358" and n digits is accepted iff 6 <= n <= 12 |
| Validators.DomesticDigitCount | index.js:50 | "0" and n digits is accepted iff 5 <= n <= 12 |
| Validators.SixDigitInternationalAccepted | index.js:50 | "+358123456" is accepted |
| Validators.FiveDigitInternationalRejected | index.js:50-52 | "+35812345" gets the Finnish-format message |
| Validators.AgeInYears | index.js:61-63 | the age is the difference of the years or one less; characterised by `Validators.AgeReached` |
| Validators.AgeReached | index.js:61-65 | the computed age reaches n exactly when the n-th birthday is not after today |
| Validators.ValidateBirth | index.js:55-66 | the result is one of the three birth messages or empty |
| Validators.Before | index.js:59 | defines `birthDate > now` as "an earlier calendar day"; characterised by `Validators.BirthRules` and `Validators.AgeReached` |
| Validators.BirthRules | index.js:55-66 | missing iff empty; future iff after today, even though a future date is also too young; too young iff not future and the 13th birthday is after today; accepted iff the 13th birthday is not after today |
| Validators.BirthBoundary | index.js:61-65 | born exactly 13 years before today passes; born any later day up to today is too young |
| Validators.ValidateTerms | index.js:68-70 | empty iff the box is checked, else the terms message |
| Form.FieldsCovered | index.js:12-18 | every field has an error slot and a place in the walk over the `errors` object |
| Form.Validate | index.js:95-101 | the `errors` object: the terms entry is empty iff the box is checked (each entry's rule is stated by `Form.ReportOfInputs`) |
| Form.Passed | index.js:103-111 | defines the final value of `valid`; characterised by `Form.PassedAllMessages` and `Form.Page.ShowErrors` |
| Form.PassedAllMessages | index.js:103-111 | the submission passes iff every field's message is empty |
| Form.ReportOfInputs | index.js:87-101 | on the raw inputs: each entry of the report is empty exactly when its rule (name words, email pattern, Finnish format of the trimmed phone, 13th birthday, checked box) holds |
| Form.Values | index.js:87-93 | birth text and box as given; name, email and phone trimmed, so a second trim changes nothing, and each is empty iff it was all whitespace |
| Form.Row | index.js:115 | six cells starting with the stamp; the last is "Yes" iff the box was checked; characterised by `Form.AcceptedRow` |
| Form.AcceptedRow | index.js:111-120 | an accepted row is stamp, name, email, phone, birth text, "Yes"; its name has two or more words of `length` two or more, its email matches the pattern, its phone has 6 to 15 digits, its birth date is at least 13 years back |
| Form.ReplaceFirst | index.js:23 | `replace` with a one-character pattern changes only the first occurrence and keeps the length |
| Form.Stamp | index.js:23 | the stamp is at most 19 characters of the ISO text, with the first `T` turned into a space |
| Form.IsoStamp | index.js:23 | for `date` `T` `time` followed by anything, the stamp is `date time` |
| Form.AppendRowWellFormed | index.js:115-122 | a row with the terms accepted keeps every row six cells long and ending in "Yes" |
| Form.SubmitKeepsRowsWellFormed | index.js:111-122 | a submission keeps every row six cells long and ending in "Yes" |
| Form.SubmitAppendsIffPassed | index.js:111-122 | a submission appends exactly one row, after the old ones, iff every field passed; otherwise the table and the notice are unchanged |
| Form.SubmitSlots | index.js:95-109 | after a submission each slot holds its own field's message, and all slots are empty iff every field passed |
| Form.Submitted | index.js:84-129 | the page state after a submission; characterised by `Form.SubmitAppendsIffPassed`, `Form.SubmitSlots`, `Form.SubmitKeepsRowsWellFormed` and `Form.Page.Submit` |
| Form.Cleared | index.js:134-135 | the page state after a clear; characterised by `Form.ClearIdempotent` and `Form.Page.Clear` |
| Form.ClearIdempotent | index.js:133-136 | clearing twice with the clock at the same instant equals clearing once (real presses read the clock again, so only the timestamp can differ); clearing keeps the table and the notice and empties all five slots |
| Form.Page.constructor | index.js:20-25 | the loaded page has the timestamp set, empty slots and notice, and no rows |
| Form.Page.SetTimestamp | index.js:21-24 | only the timestamp changes, to the stamp of the given instant |
| Form.Page.ClearErrors | index.js:28-30 | every slot is emptied, nothing else changes |
| Form.Page.ShowSuccess | index.js:73-75 | only the notice changes, to the success text |
| Form.Page.ShowErrors | index.js:103-109 | each non-empty message is written to its slot; the answer is true iff none was |
| Form.Page.Submit | index.js:82-130 | the new page state is `Submitted` of the old one, and the answer says whether a row was added |
| Form.Page.Clear | index.js:133-136 | the new page state is `Cleared` of the old one |
| Form.ClearTwice | index.js:133-136 | pressing clear twice, with the clock at the same instant both times, leaves the page valid and as one press does |

## Left out

- DOM lookups, event listeners and `preventDefault` (index.js:6-18, 82-83). Element creation for the row (index.js:114-120) is modelled only as the cell list.
- The success notice's opacity and its `setTimeout` fade (index.js:75-78): a cosmetic timer. Only the notice text is modelled.
- `form.reset()` (index.js:128): the form's inputs are parameters of `Submit`, not page state, because the reset values come from HTML that is not part of this model. The timestamp refresh after the reset is modelled.
- Reading the clock (`new Date()` in index.js:22 and 58): the current instant is a parameter. It is the ISO text for the timestamp and a `Date` (year, month, day) for the birth rule.
- Parsing the birth text with `new Date(value)` and time zones (index.js:57-63): `ValidateBirth` takes the parsed date as a parameter. It compares calendar dates, with no time of day. The model assumes every non-empty birth text denotes a date. The source accepts a non-empty text that `new Date` cannot parse: `Invalid Date > now` is false and the age is `NaN`, and `NaN < 13` is false, so such a text passes and is appended to the table, where `Form.AcceptedRow`'s claim about the birth date does not apply.
- Validators.ValidateBirth: the birth date comparison `birthDate > now` is modelled as "the birth date is after today" on calendar dates. An instant earlier on the same day is not distinguished.
- JavaScript strings may hold unpaired surrogate code units; a Dafny string holds Unicode scalar values only, so such input is not modelled. Every length the rules look at is counted in UTF-16 units (`Text.Utf16Length`). The timestamp's `substring(0, 19)` counts characters, which is the same for the ASCII text `toISOString` produces.
- Unicode tables: `trim()` and `\s` are modelled with one fixed list of code points (the ECMAScript white-space and line-terminator characters). No Unicode category lookup is modelled.
- The initial HTML of the page (empty error slots, empty notice, empty table) is assumed by `Form.Page.constructor`.
