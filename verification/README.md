# Contact-form validation and submission, modelled in Dafny

The repository is the client side of a contact form: `script.js` validates
the form, checks the Cloudflare Turnstile CAPTCHA token, posts the form to
`/api/contact` and reports the result in a toast. This project models the
two parts of that script that hold decisions:

- `validateForm` (module `Validator`). It applies the presence rule to the
  `name`, `email` and `message` controls. It applies the email shape rule
  `^[^\s@]+@[^\s@]+\.[^\s@]+$` (module `EmailShape`). It applies the media-type
  allow-list `image/jpeg`, `image/png` behind the attachment guard (module
  `AttachmentGuard`).
- The decision sequence of the `submit` listener (module `SubmitHandler`).
  It is a pure function from the token, the validator's verdict and the
  request's result to the toast shown, whether the request was sent, whether
  the form was reset, the redirect scheduled, and whether the spinner is
  still visible at the end.

Module `JsText` holds the JavaScript semantics these rely on:
- what `\s` matches;
- string truthiness;
- `Array.prototype.join`, with a splitting function as its inverse.

The form is captured as a `Snapshot`: the names of the controls present, the
email value, the value of the attachment guard, and the attached files, each
with its name and media type. The guard is an input. `AttachmentGuard` computes
it two ways: as written, where it is always false, and as intended.

The script's own promise and its code disagree, and this model follows the
code. The presence table (script.js:18-22) lists `email`, and the comment
above the presence loop (script.js:24) says a missing field gets an
appropriate error. The code, however, reads `form.elements.email.value`
right after the presence loop, so a form without an `email` control throws a TypeError instead
(script.js:32). The throw happens outside the handler's `try`, so no toast
appears and the spinner stays visible. `ValidateForm` therefore returns a
`Validation` that is either `Returned(problems)` or `TypeErrorThrown`.

Each error the validator pushes is kept as the `Problem` it reports: a missing
required control (by caption), an invalid email, or a disallowed file (by
name). `Validator.Message` renders a problem as the exact string the script
pushes, and `Validator.ParseMessage` reads such a string back.

## Model

| member | source | states |
|---|---|---|
| `JsText.SplitJoin` | script.js:99 | Splitting the toast text at ", " returns the joined list, provided no part contains ", " itself; the join is lossless. |
| `EmailShape.PatternIffShape` | script.js:33 | The pattern read literally (run `@` run `.` run, with runs of characters other than whitespace and `@`) accepts exactly the strings with no whitespace, a single `@` with something before it, and after it a `.` that is neither first nor last. |
| `EmailShape.CheckShape` | script.js:33 | A single left-to-right scan decides the email shape; its answer equals both the shape in words and the pattern. |
| `Validator.ParseMessageInverse` | script.js:27-46 | The three kinds of text the validator pushes ("<caption> is required", "Please provide a valid email!", "Invalid file type: <name>. Only JPG and PNG files allowed!") read back as the problem each reports. |
| `Validator.MessageInjective` | script.js:27-46 | Two problems with the same text are the same problem. |
| `Validator.MessagesMention` | script.js:27-46 | A problem's text is among the returned strings exactly when the problem was found. |
| `Validator.MessagesInjective` | script.js:27-46 | Two lists of problems with the same texts are the same list. |
| `Validator.MissingFieldProblems` | script.js:25-29 | The presence rule over a field table yields at most one error per field. It yields none exactly when every control exists. |
| `Validator.MissingFieldProblemsAppend` | script.js:25-29 | The presence rule treats each field on its own and keeps table order. |
| `Validator.MissingFieldProblemsNameMissing` | script.js:25-29 | Every error of the presence rule names the caption of a field whose control is missing. |
| `Validator.RequiredProblemsInFieldOrder` | script.js:18-29 | Each missing required control adds exactly one "<caption> is required" error, in the order Full Name, Email, Message; only presence is tested. |
| `Validator.FileTypeProblems` | script.js:40-49 | The file-type rule yields at most one error per file. It yields none exactly when every media type is allowed. |
| `Validator.FileTypeProblemsAppend` | script.js:41-49 | The file-type rule judges each file on its own and keeps file order. |
| `Validator.FileTypeProblemsNameDisallowed` | script.js:43-49 | Every error of the file-type rule names a file whose media type is off the allow-list. |
| `Validator.FileTypeProblemsReportEach` | script.js:43-49 | Every file whose media type is off the allow-list is reported under its own name. |
| `Validator.FileTypeProblemsMention` | script.js:43-49 | A file's error is present exactly when some file of that name has a media type off the allow-list. |
| `Validator.FileTypeProblemsCount` | script.js:43-49 | A name is reported exactly as many times as there are disallowed files carrying it; errors for files with the same name are not merged. |
| `Validator.ValidateForm` | script.js:16-53 | The validator throws exactly when the `email` control is missing, and otherwise returns its list. |
| `Validator.ErrorListShape` | script.js:17-52 | The returned list is ordered. Required-field errors come first, at most two of them. Then comes at most one invalid-email error. File-type errors come last, and only under the guard. The first group is exactly the presence rule's list and the last exactly the file-type rule's list, so each disallowed file contributes one error, in file order. The list is never longer than 3 + the number of files. |
| `Validator.EmailRule` | script.js:32-35 | An empty email never produces the invalid-email error; a non-empty one produces it exactly once exactly when it fails the shape check. |
| `Validator.EmailRuleFollowsPattern` | script.js:33-35 | The same email rule stated against the pattern itself. |
| `Validator.FileTypeRule` | script.js:38-50 | A file-type error for a name appears exactly when the guard holds and a file of that name has a disallowed media type; it appears once for each such file. |
| `Validator.ValidateFormEmptyIff` | script.js:16-53 | The validator returns the empty list exactly when all three required controls exist, the email is empty or well shaped, and under the guard every file is allowed. |
| `Validator.EmailRequiredNeverReturned` | script.js:25-32 | "Email is required" is never part of a returned list, because the read at line 32 throws first. |
| `Validator.MessagesNonEmpty` | script.js:27-46 | Every returned string is non-empty. |
| `Validator.MessageFreeOfSeparator` | script.js:27-46 | An error's text is free of ", " when the caption or file name it embeds is free of ", " and a caption does not end in ','. |
| `Validator.ErrorsFreeOfSeparator` | script.js:25-49 | No returned string contains ", " unless an attached file's name does. |
| `Validator.ValidateFormIntended` | script.js:25-35 | With the email value read safely, the validator agrees with the code whenever the email control exists, and it reports "Email is required" exactly when that control is missing. |
| `AttachmentGuard.GuardAsWritten` | script.js:39 | `attachment.files > 0` is false for every attachment, since a FileList converts to NaN. |
| `AttachmentGuard.AsWrittenSkipsFileTypes` | script.js:38-50 | As written, no attachment ever produces a file-type message. |
| `AttachmentGuard.IntendedChecksFileTypes` | script.js:38-50 | With the `files.length > 0` guard, a file-type error for a name appears exactly when an attached file of that name has a disallowed media type, once per such file. |
| `AttachmentGuard.GifAcceptedAsWritten` | script.js:39-50 | A GIF attachment on an otherwise valid form passes the validator as written. |
| `AttachmentGuard.GifRejectedIntended` | script.js:39-50 | With the intended guard, the same form yields exactly the one message naming the GIF. |
| `SubmitHandler.Decide` | script.js:79-125 | The request is sent exactly when the token is truthy and validation returned no errors. The spinner stays visible, with no toast, exactly when the validator threw. The form is reset and the thank-you redirect is scheduled exactly on success. The toast is styled as an error exactly when the attempt did not succeed. |
| `SubmitHandler.CaptchaCheckedFirst` | script.js:86-94 | Without a truthy token, the outcome is the CAPTCHA error toast whatever the form and response. Nothing is sent and the spinner is hidden. |
| `SubmitHandler.ValidationErrorsShown` | script.js:97-102 | When validation returns errors, the toast is their join with ", ", no request is sent, and the response makes no difference. |
| `SubmitHandler.ValidationToastListsErrors` | script.js:97-99 | The validation toast splits back at ", " into exactly the validator's list when no file name contains ", ". |
| `SubmitHandler.ValidationToastDeterminesProblems` | script.js:97-99 | Two forms whose validation toasts read the same were refused for the same problems, when no file name contains ", ". |
| `SubmitHandler.RequestOutcome` | script.js:104-124 | On success: the success toast, a form reset, and `thank-you.html` after 1500 ms. A non-OK response whose truthy `error` member converts to a non-empty string shows that string; one whose `error` converts to the empty string shows "Failed to send email"; one without a truthy `error` shows "Request failed". An exception shows its message, or "Failed to send email" when the message is empty. The spinner ends hidden. |
| `SubmitHandler.ToastNeverBlank` | script.js:90-124 | Every toast the handler shows has non-empty text. |
| `SubmitHandler.SpinnerStuckWithoutEmailControl` | script.js:82-97 | As written, the spinner stays visible, with no toast, exactly when a token is present and the form has no `email` control. |
| `SubmitHandler.IntendedAlwaysSettles` | script.js:79-125 | With the email value read safely, every attempt ends with a toast and the spinner hidden. A form without an `email` control is refused with a toast that joins the corrected validator's messages, among them "Email is required". |

## Left out

- `showToast` (script.js:3-12): the toast's DOM update and its 3000 ms hide timer are left out. A later toast can be hidden early by an earlier toast's timer; that timing race is not modelled. The outcome records only the toast's text and styling.
- `showSpinner` (script.js:59-66): the class toggling is left out; only whether the spinner is visible when the handler stops is kept.
- The attachment label's `change` listener (script.js:71-77): pure DOM glue.
- `fetch`, `FormData`, `response.json()` and the redirect timer (script.js:83, 105-120) are not modelled. The request's result is the input `Response`, and the redirect is recorded as a target plus a delay.
- A non-OK response whose body is not JSON makes `response.json()` throw; that case is the `Exception` response.
- A truthy `error` member that is not a string is turned into a string by `new Error(...)`. The model takes `errorField` already in that string form, which can be empty (an `error` of `[]`); the catch clause then shows "Failed to send email". The string conversion itself is not modelled.
- A non-OK response whose JSON body is `null` makes reading `result.error` throw a TypeError inside the `try`; that case is the `Exception` response carrying the TypeError's message, which the browser chooses.
- `e.preventDefault()` and overlapping submissions: each call of the handler is modelled on its own.
- Strings are sequences of Unicode scalar values, whereas JavaScript strings are UTF-16 code units. The email shape depends only on which characters are whitespace or `@`, not on lengths, so it reads the same either way. Lone surrogates cannot be written in the model.
- Form controls are modelled by name only: a control either exists or it does not, and the `email` control's value is a string.
- `AttachmentGuard.GuardAsWritten`: its contract does not model JavaScript's full `>` algorithm on objects. It models only the conversion of a FileList to NaN, and that conversion fixes the result.

## Findings

| source | as written | input that shows it | evidently intended | confidence | as-written member | corrected member |
|---|---|---|---|---|---|---|
| script.js:32 | `form.elements.email.value` is read after the presence loop without a guard. A missing `email` control throws a TypeError outside the handler's `try`, so no toast appears and the spinner keeps spinning. | a truthy token and a form with no `email` control | the loop's "Email is required" message is shown and the spinner hidden (read the value as `form.elements.email?.value`) | medium; not executed | `SubmitHandler.SpinnerStuckWithoutEmailControl` | `SubmitHandler.IntendedAlwaysSettles` |
| script.js:39 | `attachment.files > 0` compares the FileList object with 0. The FileList converts to NaN, so the comparison is false and the file-type rule never runs. | an otherwise valid form with `cat.gif` of type `image/gif` attached | `attachment.files.length > 0`, so disallowed types are refused | high; not executed | `AttachmentGuard.GifAcceptedAsWritten` | `AttachmentGuard.GifRejectedIntended` |

Both corrections plug into the same model. The validator takes the guard as a
snapshot field, so `AttachmentGuard.CaptureIntended` feeds it the intended
guard. The submit decision `SubmitHandler.Decide` takes the validator's
verdict, so `SubmitHandler.HandleSubmitIntended` runs it on
`Validator.ValidateFormIntended`. The as-written compositions are kept beside
them so that the code's behaviour stays stated.
