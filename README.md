# Client-side input validation of the EDMS web application

The document-management application's browser script decides whether a form
may be submitted and whether a chosen file may be uploaded. This project
models those rules and proves what they accept:

- `Text`: the whitespace set of JavaScript (`\s`, and what
  `String.prototype.trim` strips) and `trim` itself.
- `Regex`: the two anchored regular expressions, `/^\d{3}-\d{3}-\d{4}$/`
  (phone) and `/^[^\s@]+@[^\s@]+\.[^\s@]+$/` (email). Each is written as a
  sequence of terms: a character class with a `{n}` or `+` quantifier. A small
  matcher gives them their meaning: every way of splitting the value among the
  terms is tried, which is the backtracking a regular-expression engine does.
  Lemmas prove each pattern equivalent to a plain description of the strings it
  accepts.
- `FormValidation`: `validateField` as a function, and `validateForm` as a
  method. The method loops over the required inputs without stopping early,
  then checks the password confirmation, the email and the phone. A form is the
  sequence of its `input` elements in document order. `querySelector` is "the
  first input with that name or type", and `querySelectorAll('input[required]')`
  is "the required inputs, in order".
- `FileUpload`: the file input's `change` handler. A class holds the input's
  chosen files and value, and a pure function gives the verdict on one file.
- `Options`: an optional value, for a missing element or an empty file list.

The only server file, `server.js`, renders one page and reads a shutdown
command from the console; it is not part of this model. The upload limit
modelled is the 10 MiB the browser script enforces.

## Model

| member | source | states |
|---|---|---|
| `Text.Trim` | public/js/app.js:128 | `String.prototype.trim`: strip whitespace from both ends; `TrimIsInfix`, `TrimEmptyIff` and `TrimIdempotent` characterise it |
| `Text.TrimStartSpec` | public/js/app.js:128 | trimming the start leaves the suffix that begins at the first non-space character; everything dropped is whitespace |
| `Text.TrimEndSpec` | public/js/app.js:128 | trimming the end leaves the prefix that ends at the last non-space character; everything dropped is whitespace |
| `Text.TrimIsInfix` | public/js/app.js:128 | `trim` returns a contiguous piece of the value, bordered by whitespace only, that neither starts nor ends with whitespace |
| `Text.TrimEmptyIff` | public/js/app.js:128-130 | a trimmed value is empty exactly when the original consists of whitespace only |
| `Text.TrimNoSpace` | public/js/app.js:128 | a value with no whitespace is unchanged by `trim` |
| `Text.TrimLeadingSpace` | public/js/app.js:128 | one whitespace character before a value without whitespace is trimmed away, leaving the value |
| `Text.TrimIdempotent` | public/js/app.js:128 | trimming twice gives the same result as trimming once |
| `Regex.Matches` | public/js/app.js:108 | `test` of an anchored pattern: the value splits into consecutive pieces, one per term, each of a length the term's quantifier allows and all in its class; `PhonePatternIff` and `EmailPatternIff` characterise it on the two patterns (also used at lines 118 and 137) |
| `Regex.PhonePatternIff` | public/js/app.js:117-118 | the phone pattern accepts a string exactly when it has length 12, '-' at positions 3 and 7, and an ASCII digit at every other position |
| `Regex.PhoneGroups` | public/js/app.js:117 | the phone pattern is three, three and four ASCII digits separated by '-', with nothing before or after |
| `Regex.EmailPatternIff` | public/js/app.js:107-108 | the email pattern accepts a string exactly when it has no whitespace and exactly one '@', the part before the '@' is non-empty, and the part after it contains a '.' that is neither its first nor its last character |
| `Regex.EmailSplit` | public/js/app.js:107 | a match is a non-empty `[^\s@]` run, then '@', then a domain matching `[^\s@]+\.[^\s@]+` |
| `Regex.AtIsUnique` | public/js/app.js:107 | in a string of the email shape no '@' occurs before or after the one separating the two parts |
| `Regex.DomainMatchShape` | public/js/app.js:107 | a domain the pattern accepts has no whitespace, no '@', and an inner '.' |
| `Regex.DomainShapeMatch` | public/js/app.js:107 | every domain with no whitespace, no '@' and an inner '.' is accepted |
| `Regex.CountOf` | public/js/app.js:107 | the count of a character is at most the length of the string, and it is zero exactly when the character does not occur |
| `Regex.IndexOf` | public/js/app.js:107 | the result is the position of the first occurrence of the character, or the length of the string when it does not occur |
| `FormValidation.ValidateField` | public/js/app.js:127-145 | `validateField` on the trimmed value; `ValidateFieldCases` states its four cases |
| `FormValidation.ValidateFieldCases` | public/js/app.js:127-145 | a required input whose trimmed value is blank fails; a blank optional input passes; a non-email input with content passes; an email input with content passes exactly when its trimmed value has the email shape |
| `FormValidation.RequiredBlankRejected` | public/js/app.js:128-133 | a required input holding only whitespace fails `validateField` |
| `FormValidation.NonEmailWithContentAccepted` | public/js/app.js:135-144 | a non-email input with at least one non-space character passes `validateField` |
| `FormValidation.QuerySelectorAll` | public/js/app.js:85 | the result holds exactly the inputs of the form that the selector matches, and no more inputs than the form has |
| `FormValidation.QuerySelectorAllSingle` | public/js/app.js:85 | a one-input form lists its input exactly when the selector matches it |
| `FormValidation.QuerySelectorAllAppend` | public/js/app.js:85 | the list for two consecutive pieces of a form is the first piece's list followed by the second's: document order, each input once |
| `FormValidation.QuerySelector` | public/js/app.js:94-95 | the result is absent exactly when no input matches the selector; when present it is an input of the form that matches and no earlier input matches: the first match in document order |
| `FormValidation.QuerySelectorIsFirstOfAll` | public/js/app.js:94-95 | `querySelector` gives the first element of what `querySelectorAll` lists for the same selector, and nothing when that list is empty |
| `FormValidation.RequiredInputs` | public/js/app.js:85 | `querySelectorAll('input[required]')`; `QuerySelectorAll`, `QuerySelectorAllAppend` and `AllRequiredPass` characterise it |
| `FormValidation.PasswordsMatch` | public/js/app.js:94-101 | when both password inputs exist their raw values are equal; `PasswordMismatchRejected` states the rejecting case |
| `FormValidation.EmailAccepted` | public/js/app.js:105-111 | the first email input, when present with a non-empty raw value, matches the email pattern; `FormAcceptsIff` restates it as the email shape |
| `FormValidation.PhoneAccepted` | public/js/app.js:115-122 | the first phone input, when present with a non-empty value, matches the phone pattern; `PhoneOnlyCheckedWhenPresent` and `FormAcceptsIff` characterise it |
| `FormValidation.FormAccepts` | public/js/app.js:84-124 | the verdict of `validateForm`: the four checks together; `ValidateForm` computes it and `FormAcceptsIff` states it in plain terms |
| `FormValidation.CheckEach` | public/js/app.js:87-91 | the result is true exactly when every input passes the check; the returned positions are exactly those of the inputs that fail it, in increasing order, so no input is skipped |
| `FormValidation.ValidateForm` | public/js/app.js:83-125 | the verdict is the conjunction of all four checks: every required input passes `validateField`, the passwords match, the email passes and the phone passes. The returned positions are exactly the required inputs `validateField` rejects, in increasing order, so every failing input is reported and none is skipped |
| `FormValidation.AllRequiredPass` | public/js/app.js:85-91 | the `forEach` over `querySelectorAll('input[required]')` passes exactly when every required input of the form passes `validateField` |
| `FormValidation.FormAcceptsIff` | public/js/app.js:84-124 | the form is accepted exactly when every required input passes `validateField`, the passwords match, the first email input's raw non-empty value has the email shape, and the first phone input's non-empty value is `ddd-ddd-dddd` |
| `FormValidation.PasswordMismatchRejected` | public/js/app.js:94-101 | when both password inputs exist and their raw values differ, the form is rejected |
| `FormValidation.PhoneOnlyCheckedWhenPresent` | public/js/app.js:115-122 | a missing or empty phone never rejects the form; a non-empty phone that is not `ddd-ddd-dddd` always rejects it |
| `FormValidation.EmailSurroundingSpaceRejected` | public/js/app.js:105-111 | a non-empty email value with leading or trailing whitespace rejects the form, because the form tests the untrimmed value |
| `FormValidation.EmailTrimDisagreement` | public/js/app.js:106-137 | an email input holding a valid address after a no-break space (U+00A0), which a browser leaves in an email input's value, passes `validateField` (which trims it), yet a form containing it is rejected |
| `FileUpload.CheckFile` | public/js/app.js:199-222 | the size check, then the exact-match allow-list; `AcceptedIff` and `OversizeRejectedFirst` characterise it |
| `FileUpload.SizeLimitIsInclusive` | public/js/app.js:200-201 | the limit is 10485760 bytes; a file of exactly that size passes the size check and one byte more fails it |
| `FileUpload.OversizeRejectedFirst` | public/js/app.js:199-205 | an oversized file is rejected for its size, even when its type is allowed |
| `FileUpload.AcceptedIff` | public/js/app.js:207-222 | a file is accepted exactly when it is within the limit and its MIME type equals one of the seven listed strings; it is refused for its type exactly when it is within the limit and its type is not listed |
| `FileUpload.AllowListIsExact` | public/js/app.js:208-218 | an upper-case spelling or a type with parameters appended is not accepted |
| `FileUpload.FileInput.Change` | public/js/app.js:193-225 | with no file chosen nothing happens; otherwise the first file gets the verdict of the size-then-type check; a rejection clears the input's value and file list, and an acceptance leaves the input as it was |
| `FileUpload.ChooseAndCheck` | public/js/app.js:201-222 | after the handler runs, the input keeps the chosen file exactly when it was accepted |

## Left out

- Error display: `showFieldError`, `clearFieldError` and the messages they show are not modelled. `ValidateForm` returns which required inputs would be marked, not the marks for the password, email and phone checks.
- Event wiring is not modelled: `initFormValidation` (submit cancelled when the verdict is false, blur and input handlers), the registration of the `change` listener, `initLoadingStates`, `initSearchEnhancements`, `initAnimations`, `showNotification` and the injected CSS. All of it is user-interface side effect.
- `showFileInfo` is not modelled. It only displays the file, and it formats the size as a floating-point number.
- `initAnalytics` is not modelled. It calls an external analytics global.
- `server.js` is not modelled. It is framework set-up, a database client, `app.listen` and a console shutdown prompt.
- The test files, mocks, test set-up and Jest configuration are not modelled. They exercise the server, not these rules.
- Registration, login, category inference, download-name sanitising and role checks on the server are not part of this model. Their source is not available.
- Characters: JavaScript strings are UTF-16 code units, while a Dafny `char` is a Unicode scalar value. Lone surrogates cannot be represented. For the values that can be, the two patterns accept the same strings either way, because a character outside the basic plane is neither whitespace, '@', '.', '-' nor a digit in any of its code units.
- Element types: one `inputType` field stands for both the `type` attribute matched by `input[type="email"]` and the `type` property compared in `validateField`. The browser's case normalisation of that attribute is not modelled.
- `FileUpload.FileInput.Change`: setting a file input's value to "" is modelled as also emptying its file list, which is what browsers do; the text the browser shows in `value` for a chosen file is not modelled.
- Input values: `Input.value` is whatever string the script reads. The browser's own cleanup of an email input's value (removing line breaks and trimming ASCII whitespace before the script sees it) is not modelled, so the model also admits values a browser never hands over, such as an email value with a leading ASCII space or made only of ASCII spaces. `EmailTrimDisagreement` uses a no-break space, which survives that cleanup.
