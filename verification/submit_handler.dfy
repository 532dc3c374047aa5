/** The decision sequence of the form's `submit` listener: check the CAPTCHA
    token, run the validator, send the request, and turn its result into one
    toast. The DOM, the spinner, the timers and the network are abstracted
    away: what remains is a pure function from the token, the validator's
    verdict and the response to what the user ends up seeing. */
module SubmitHandler {
  import opened JsText
  import opened Validator

  /** A toast notification: its text and whether it is styled as an error. */
  datatype Toast = Toast(text: string, isError: bool)

  /** A scheduled navigation: where to, and after how many milliseconds. */
  datatype Redirect = Redirect(target: string, delayMs: nat)

  /** How the request ends, seen from the handler.
      - `Success`: `response.ok` holds;
      - `HttpError`: `response.ok` fails and the body parses as JSON to a value
        other than `null`; `errorField` is `Some` of the string conversion of its
        `error` member when that member is truthy, and `None` when it is absent
        or falsy. A truthy member may convert to the empty string (`[]` does);
      - `Exception`: the `try` block throws before its end with this message:
        `fetch` rejects, `response.json()` rejects on a body that is not JSON,
        or reading `error` of a `null` body throws a TypeError. */
  datatype Response = Success | HttpError(errorField: Option<string>) | Exception(message: string)

  /** What one submission leaves behind: the toast shown (if any), whether the
      request went out, whether the form was reset, the navigation scheduled,
      and whether the spinner is still visible when the handler stops. */
  datatype Outcome = Outcome(
    toast: Option<Toast>,
    requestIssued: bool,
    formReset: bool,
    redirect: Option<Redirect>,
    spinnerVisible: bool)

  const CaptchaMessage: string := "Please complete the CAPTCHA verification!"
  const SuccessMessage: string := "Message sent successfully!"
  const RequestFailedMessage: string := "Request failed"
  const SendFailedMessage: string := "Failed to send email"
  const ThankYouPage: string := "thank-you.html"
  const RedirectDelayMs: nat := 1500

  /** An error toast that ends the attempt with the spinner hidden. */
  function Refusal(text: string, requestIssued: bool): Outcome {
    Outcome(Some(Toast(text, true)), requestIssued, false, None, false)
  }

  /** The message of the Error thrown for a non-OK response:
      `result.error || "Request failed"`. The `||` has already tested the
      member's truthiness, so any string it carries is the message, even an
      empty one. */
  function HttpErrorMessage(errorField: Option<string>): string {
    if errorField.Some? then errorField.value else RequestFailedMessage
  }

  /** The catch clause's toast text: `error.message || "Failed to send email"`. */
  function CaughtMessage(message: string): string {
    if message != "" then message else SendFailedMessage
  }

  /** The `try` block once the request has been sent. */
  function AfterRequest(response: Response): Outcome {
    match response
    case Success =>
      Outcome(Some(Toast(SuccessMessage, false)), true, true, Some(Redirect(ThankYouPage, RedirectDelayMs)), false)
    case HttpError(errorField) => Refusal(CaughtMessage(HttpErrorMessage(errorField)), true)
    case Exception(message) => Refusal(CaughtMessage(message), true)
  }

  /** The listener's decisions in order. A validator that throws is called
      outside the `try`, so the exception leaves the handler: no toast, and
      the spinner shown at the start stays visible. */
  function Decide(token: Option<string>, validation: Validation, response: Response): (r: Outcome)
    ensures r.requestIssued <==> Truthy(token) && validation == Returned([])
    ensures r.spinnerVisible <==> Truthy(token) && validation.TypeErrorThrown?
    ensures r.toast.None? <==> r.spinnerVisible
    ensures r.formReset <==> r.requestIssued && response.Success?
    ensures r.redirect.Some? <==> r.formReset
    ensures r.redirect.Some? ==> r.redirect.value.target == ThankYouPage
    ensures r.toast.Some? ==> (r.toast.value.isError <==> !r.formReset)
  {
    if !Truthy(token) then Refusal(CaptchaMessage, false)
    else match validation
      case TypeErrorThrown => Outcome(None, false, false, None, true)
      case Returned(problems) =>
        if |problems| > 0 then Refusal(Join(Messages(problems), ListSeparator), false)
        else AfterRequest(response)
  }

  /** The `submit` listener as written. */
  function HandleSubmit(token: Option<string>, form: Snapshot, response: Response): Outcome {
    Decide(token, ValidateForm(form), response)
  }

  /** The listener with the email value read safely. */
  function HandleSubmitIntended(token: Option<string>, form: Snapshot, response: Response): Outcome {
    Decide(token, Returned(ValidateFormIntended(form)), response)
  }

  /** Without a token the CAPTCHA message is all that happens: the form and
      the response make no difference, nothing is sent, the spinner is hidden. */
  lemma CaptchaCheckedFirst(token: Option<string>, form: Snapshot, other: Snapshot, response: Response, otherResponse: Response)
    requires !Truthy(token)
    ensures HandleSubmit(token, form, response) == HandleSubmit(token, other, otherResponse)
    ensures HandleSubmit(token, form, response).toast == Some(Toast(CaptchaMessage, true))
    ensures !HandleSubmit(token, form, response).requestIssued
    ensures !HandleSubmit(token, form, response).spinnerVisible
  {
  }

  /** Validation errors are shown joined with ", " and nothing is sent,
      whatever the server would have answered. */
  lemma ValidationErrorsShown(token: Option<string>, form: Snapshot, response: Response, otherResponse: Response)
    requires Truthy(token)
    requires ValidateForm(form).Returned? && |ValidateForm(form).problems| > 0
    ensures HandleSubmit(token, form, response) == HandleSubmit(token, form, otherResponse)
    ensures HandleSubmit(token, form, response).toast ==
      Some(Toast(Join(Messages(ValidateForm(form).problems), ListSeparator), true))
    ensures !HandleSubmit(token, form, response).requestIssued
  {
  }

  /** The error toast can be read back into the validator's list: splitting
      its text at ", " gives the errors, provided no attached file name
      contains ", " itself. */
  lemma ValidationToastListsErrors(token: Option<string>, form: Snapshot, response: Response)
    requires Truthy(token)
    requires ValidateForm(form).Returned? && |ValidateForm(form).problems| > 0
    requires forall i :: 0 <= i < |form.files| ==> FreeOfSeparator(form.files[i].name)
    ensures HandleSubmit(token, form, response).toast.Some?
    ensures Split(HandleSubmit(token, form, response).toast.value.text) == Messages(ValidateForm(form).problems)
  {
    ErrorsFreeOfSeparator(form);
    SplitJoin(Messages(ValidateForm(form).problems));
  }

  /** Hence the toast determines the validator's verdict: two forms whose
      validation toasts read the same failed for the same reasons. */
  lemma ValidationToastDeterminesProblems(token: Option<string>, form: Snapshot, other: Snapshot, response: Response)
    requires Truthy(token)
    requires ValidateForm(form).Returned? && |ValidateForm(form).problems| > 0
    requires ValidateForm(other).Returned? && |ValidateForm(other).problems| > 0
    requires forall i :: 0 <= i < |form.files| ==> FreeOfSeparator(form.files[i].name)
    requires forall i :: 0 <= i < |other.files| ==> FreeOfSeparator(other.files[i].name)
    requires HandleSubmit(token, form, response).toast == HandleSubmit(token, other, response).toast
    ensures ValidateForm(form) == ValidateForm(other)
  {
    ValidationToastListsErrors(token, form, response);
    ValidationToastListsErrors(token, other, response);
    MessagesInjective(ValidateForm(form).problems, ValidateForm(other).problems);
  }

  /** Once the request is sent: success shows the success toast, resets the
      form and schedules the thank-you page after 1.5 s; a non-OK response
      shows the server's `error` text, "Failed to send email" when that text
      is empty, or "Request failed" when there is no truthy `error`; an
      exception shows its message, or "Failed to send email" when that is
      empty. */
  lemma RequestOutcome(token: Option<string>, form: Snapshot, response: Response)
    requires Truthy(token) && ValidateForm(form) == Returned([])
    ensures var r := HandleSubmit(token, form, response);
      && r.requestIssued && !r.spinnerVisible
      && (response.Success? ==>
            r.toast == Some(Toast(SuccessMessage, false)) && r.formReset
            && r.redirect == Some(Redirect(ThankYouPage, RedirectDelayMs)))
      && (response.HttpError? && Truthy(response.errorField) ==>
            r.toast == Some(Toast(response.errorField.value, true)))
      && (response == HttpError(Some("")) ==>
            r.toast == Some(Toast(SendFailedMessage, true)))
      && (response == HttpError(None) ==>
            r.toast == Some(Toast(RequestFailedMessage, true)))
      && (response.Exception? && response.message != "" ==>
            r.toast == Some(Toast(response.message, true)))
      && (response.Exception? && response.message == "" ==>
            r.toast == Some(Toast(SendFailedMessage, true)))
  {
  }

  /** Whenever a toast is shown, its text is not empty. */
  lemma ToastNeverBlank(token: Option<string>, form: Snapshot, response: Response)
    ensures HandleSubmit(token, form, response).toast.Some? ==>
      HandleSubmit(token, form, response).toast.value.text != ""
  {
    if Truthy(token) && ValidateForm(form).Returned? && |ValidateForm(form).problems| > 0 {
      MessagesNonEmpty(ValidateForm(form).problems);
      JoinNonEmpty(Messages(ValidateForm(form).problems), ListSeparator);
    }
  }

  /** As written, the spinner is left spinning, with no toast, exactly when a
      token is present and the form has no `email` control. */
  lemma SpinnerStuckWithoutEmailControl(token: Option<string>, form: Snapshot, response: Response)
    ensures HandleSubmit(token, form, response).spinnerVisible <==> Truthy(token) && "email" !in form.controls
    ensures HandleSubmit(token, form, response).toast.None? <==> Truthy(token) && "email" !in form.controls
  {
  }

  /** With the email value read safely, every attempt ends with a toast and
      the spinner hidden, and a form without an `email` control is refused
      with a toast joining the corrected validator's messages, among them
      "Email is required". */
  lemma IntendedAlwaysSettles(token: Option<string>, form: Snapshot, response: Response)
    ensures !HandleSubmitIntended(token, form, response).spinnerVisible
    ensures HandleSubmitIntended(token, form, response).toast.Some?
    ensures Truthy(token) && "email" !in form.controls ==>
      HandleSubmitIntended(token, form, response) ==
        Refusal(Join(Messages(ValidateFormIntended(form)), ListSeparator), false)
    ensures Message(Missing("Email")) in Messages(ValidateFormIntended(form)) <==> "email" !in form.controls
  {
    MessagesMention(ValidateFormIntended(form), Missing("Email"));
  }
}
