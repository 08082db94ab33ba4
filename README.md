# ChandaViveka request validator, modelled in Dafny

ChandaViveka identifies the meter (chandas) of a Sanskrit verse (shloka).
Before a verse reaches the analysis controller, the Express middleware
`validateShlokaInput` checks the request body field `shloka`. It works in
four stages, and the first stage that fails decides the answer:

1. The field must be a string, and a non-empty one. `!shloka` makes the empty
   string fail here too.
2. The trimmed string must not be empty.
3. The trimmed string must not be longer than 1000 characters.
4. HTML-like tags are removed with `replace(/<[^>]*>?/gm, "")`.

A string that passes all four stages is written back into `req.body.shloka`,
and the request goes on to the controller. A failing stage gets status 400
and a fixed message. When `req.body` is undefined or null, destructuring it
throws, and the catch branch answers with status 500.

The project has three modules:

- `JsString` (`js_string.dfy`) models `String.prototype.trim` (section
  22.1.3.32 of ECMA-262). It removes WhiteSpace (section 12.2) and
  LineTerminator (section 12.3) code points from both ends. `KeptStart` and
  `KeptEnd` find the first and the last character that `trim` keeps, and
  each is characterised completely by its contract. `Trim` is proved to
  return the infix left after padding is removed from both ends.
- `TagStrip` (`tag_strip.dfy`) models the global regex replace as a
  left-to-right scan, `StripTags`. A `<` deletes itself and everything up to
  the next `>` inclusive, or to the end of the string if no `>` follows. The
  `[^>]*` is greedy, so a `<` inside a match does not start a new one. The
  scan is proved to agree with an independent reference (`StripTagsSnoc`).
  The reference predicate `InsideTag(s)` holds when some `<` in `s` has no
  `>` after it. `StripTagsSnoc` proves that appending a character `c` to the input appends `c` to the output exactly
  when `c` is not `<` and the input read so far is not inside a tag.
  `InsideTagSnoc` says how that condition changes with each character. The
  module also proves four properties of `StripTags`:
  - no `<` survives;
  - the output is a subsequence of the input;
  - text without `<` is unchanged;
  - stripping is idempotent.
- `ValidateInput` (`validate_input.dfy`) holds three things. `Validate` is
  the pure decision for a request body, and its contract states each stage's
  outcome as an if-and-only-if. The `Request` and `RequestBody` classes model
  the mutable Express request objects. The method `ValidateShlokaInput`
  follows the middleware's early returns, and on acceptance overwrites
  `req.body.shloka` in place. Its contract ties the answer to `Validate` of
  the old body. It also states that the field is changed only on acceptance.

Some consequences of the code as written are proved, not assumed:

- An input consisting only of a tag, such as `"<b>"`, passes the emptiness
  check and is stored as the empty string.
- An unclosed tag removes the rest of the text.
- The stored value is not trimmed again, so `"ab <i"` is stored as `"ab "`.
- Leading and trailing whitespace does not count towards the 1000-character
  bound.
- The message says "under 1000 characters", but the guard is `> 1000`, so a
  trimmed length of exactly 1000 is accepted. The model follows the guard.

## Model

| member | source | states |
|---|---|---|
| JsString.KeptStart | Backend/src/middleware/validateInput.js:15 | where `trim` starts keeping: every character from the start index up to the result is whitespace or a line terminator, and the character at the result, if any, is not |
| JsString.KeptEnd | Backend/src/middleware/validateInput.js:15 | where `trim` stops keeping: every character from the result up to the end index is trimmable, and the character before the result, if it lies in the range, is not |
| JsString.Trim | Backend/src/middleware/validateInput.js:15 | `shloka.trim()` is no longer than the input and neither starts nor ends with a trimmable character |
| JsString.TrimIsInfix | Backend/src/middleware/validateInput.js:15 | the trimmed string is the infix of the input that starts at the first kept character, with only trimmable characters before and after it |
| JsString.TrimEmptyIff | Backend/src/middleware/validateInput.js:15-16 | the trimmed string is empty exactly when every character of the input is whitespace or a line terminator |
| JsString.TrimUnchanged | Backend/src/middleware/validateInput.js:15 | a string that neither starts nor ends with whitespace is returned unchanged |
| JsString.TrimIdempotent | Backend/src/middleware/validateInput.js:15 | trimming twice is the same as trimming once |
| JsString.TrimKeepsAbsent | Backend/src/middleware/validateInput.js:15 | trimming introduces no character that was not in the input |
| JsString.TrimIgnoresLeadingPadding | Backend/src/middleware/validateInput.js:15 | whitespace put in front of a string does not change its trimmed form |
| JsString.TrimIgnoresTrailingPadding | Backend/src/middleware/validateInput.js:15 | whitespace put after a string does not change its trimmed form |
| TagStrip.CloseIndex | Backend/src/middleware/validateInput.js:32 | the greedy `[^>]*` stops exactly at the first `>`: no `>` before the returned index, a `>` at it unless it is the end |
| TagStrip.StripTags | Backend/src/middleware/validateInput.js:32 | the output of `replace(/<[^>]*>?/gm, "")` contains no `<` and is no longer than the input |
| TagStrip.InsideTagSnoc | Backend/src/middleware/validateInput.js:32 | reference automaton: after one more character the text is inside an unclosed tag exactly when that character is `<`, or it is not `>` and the text was already inside one |
| TagStrip.InsideTagEmpty | Backend/src/middleware/validateInput.js:32 | the reference starts outside any match |
| TagStrip.StripTagsSnoc | Backend/src/middleware/validateInput.js:32 | the scan agrees with the reference: appending a character appends it to the output exactly when it is not `<` and the text so far is not inside an unclosed tag |
| TagStrip.StripTagsAppend | Backend/src/middleware/validateInput.js:32 | text that does not end inside a tag is stripped independently of what follows it |
| TagStrip.StripTagsSubsequence | Backend/src/middleware/validateInput.js:32 | the output is a subsequence of the input (characters are only deleted, never reordered or added) |
| TagStrip.SubsequenceBounds | Backend/src/middleware/validateInput.js:32 | a subsequence is no longer than its source and its characters form a sub-multiset of the source's |
| TagStrip.StripTagsIdentity | Backend/src/middleware/validateInput.js:32 | text with no `<` is returned unchanged, stray `>` characters included |
| TagStrip.StripTagsIdempotent | Backend/src/middleware/validateInput.js:32 | stripping the output again changes nothing |
| ValidateInput.Validate | Backend/src/middleware/validateInput.js:4-44 | stage by stage, each as an if-and-only-if: status 500 exactly for a missing body; the "must be provided as a string" 400 exactly for a missing, non-string or empty value; the "cannot be empty" 400 exactly for whitespace only; the "Input too long" 400 exactly for a trimmed length over 1000; acceptance otherwise, with the trimmed text stripped of tags |
| ValidateInput.AcceptedIsClean | Backend/src/middleware/validateInput.js:15-32 | an accepted value has no `<`, is at most as long as the trimmed input and at most 1000 characters, and is a subsequence of the trimmed input |
| ValidateInput.AcceptedPlainText | Backend/src/middleware/validateInput.js:15-35 | when the trimmed input has no `<`, the stored value is exactly the trimmed input |
| ValidateInput.LeadingPaddingIgnored | Backend/src/middleware/validateInput.js:15-29 | for a non-empty `s`, leading whitespace changes neither the answer nor the stored value, so it does not count towards the length bound (for `s` empty the padded string is blank, not empty, and gets the other message) |
| ValidateInput.TrailingPaddingIgnored | Backend/src/middleware/validateInput.js:15-29 | for a non-empty `s`, the same for trailing whitespace |
| ValidateInput.RevalidateCleaned | Backend/src/middleware/validateInput.js:7-35 | validating the stored value again strips nothing more: the answer is the first-stage or emptiness rejection, or acceptance of the value's trimmed form |
| ValidateInput.EmptyStringIsNotProvided | Backend/src/middleware/validateInput.js:7-12 | the empty string is falsy and gets the "must be provided as a string" message, not the emptiness message |
| ValidateInput.MissingOrNonStringRejected | Backend/src/middleware/validateInput.js:7-12 | a missing or non-string `shloka` gets status 400 with the "must be provided as a string" message |
| ValidateInput.BlankStringRejected | Backend/src/middleware/validateInput.js:7-21 | every non-empty string of whitespace and line terminators only gets status 400 with the "cannot be empty" message |
| ValidateInput.BlankExampleRejected | Backend/src/middleware/validateInput.js:15-21 | `" \t\n"` gets status 400 with the "cannot be empty" message |
| ValidateInput.AcceptedWithoutTrimming | Backend/src/middleware/validateInput.js:15-35 | a string of at most 1000 characters with no whitespace at its ends is accepted with its tags removed |
| ValidateInput.TagOnlyAccepted | Backend/src/middleware/validateInput.js:16-35 | `"<b>"` passes the emptiness check and is stored as the empty string |
| ValidateInput.UnclosedTagRunsToEnd | Backend/src/middleware/validateInput.js:32-35 | in `"ab <i"` the unclosed tag removes the rest, and the stored `"ab "` is not trimmed again |
| ValidateInput.InnerOpenSwallowed | Backend/src/middleware/validateInput.js:32 | a `<` inside a tag does not start a new match: `"a<b<c>d"` becomes `"ad"` |
| ValidateInput.ValidateShlokaInput | Backend/src/middleware/validateInput.js:2-46 | the answer is `Validate` of the body before the call; `req.body.shloka` becomes the cleaned string on acceptance and is left unchanged on every rejection; `req.body` itself is not replaced |

## Left out

- The scansion engine and the meter matcher (syllable weights, pāda splitting, exact, partial, Anuṣṭubh and fuzzy matching) are not part of this model.
- `res.status(...).json(...)` and `next()` are Express calls. They are modelled only as the returned `Outcome`. Every rejection body also carries `success: false`, which the model leaves implicit.
- `console.error` in the catch branch is logging and is not modelled.
- The catch branch is modelled only for a missing `req.body`. Two other throws are left out because they happen outside this function's logic: a throw from `next()` after the write-back, and a failed write to a frozen body object.
- JavaScript string lengths count UTF-16 code units. The model counts `char`s and does not model surrogate pairs. Every code point `trim` removes is in the Basic Multilingual Plane.
- `Missing` and `NonString` stand for all non-string values. The middleware treats them all alike, so their JavaScript types and truthiness are not modelled further.
- Backend/src/middleware/authMiddleWare.js is not part of this model. It calls into Supabase, a foreign library.
- The frontend, the Express wiring under backend_temo/ and the HTTP tests under Backend/tests/ are not part of this model.
