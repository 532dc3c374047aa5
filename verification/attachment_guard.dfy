/** The guard in front of the file-type rule, `attachment && attachment.files > 0`.
    It compares the FileList object itself with 0, and in JavaScript that
    comparison is always false, so as written the rule never runs. This module
    models the guard as written and the evidently intended
    `attachment.files.length > 0`, and how a snapshot is captured under each. */
module AttachmentGuard {
  import opened Validator

  /** The `attachment` control as the validator finds it. */
  datatype Attachment = NoControl | FileInput(files: seq<FileEntry>)

  /** A JavaScript number, as far as the comparison needs one. */
  datatype JsNumber = Finite(value: int) | NaN

  /** ToNumber of a FileList: ToPrimitive turns the object into the string
      "[object FileList]", which is not a numeric literal, so the number is
      NaN whatever the list holds. */
  function FileListToNumber(files: seq<FileEntry>): JsNumber {
    NaN
  }

  /** `a > b` on numbers: false as soon as either side is NaN. */
  function GreaterThan(a: JsNumber, b: JsNumber): bool {
    match (a, b)
    case (Finite(x), Finite(y)) => x > y
    case _ => false
  }

  /** The guard as written. It is false for every attachment, even one that
      holds files. */
  function GuardAsWritten(a: Attachment): (g: bool)
    ensures !g
  {
    a.FileInput? && GreaterThan(FileListToNumber(a.files), Finite(0))
  }

  /** The guard as intended: the control exists and holds at least one file. */
  function GuardIntended(a: Attachment): bool {
    a.FileInput? && |a.files| > 0
  }

  function FilesOf(a: Attachment): seq<FileEntry> {
    if a.FileInput? then a.files else []
  }

  /** The snapshot the validator sees in a browser, guard as written. The
      attachment is passed on its own rather than looked up in `controls`:
      the validator never tests `attachment` for presence, so whether
      `controls` lists it makes no difference to any result. */
  function CaptureAsWritten(controls: set<string>, emailValue: string, a: Attachment): Snapshot {
    Snapshot(controls, emailValue, GuardAsWritten(a), FilesOf(a))
  }

  /** The snapshot with the intended guard. */
  function CaptureIntended(controls: set<string>, emailValue: string, a: Attachment): Snapshot {
    Snapshot(controls, emailValue, GuardIntended(a), FilesOf(a))
  }

  /** As written, no attachment ever produces a file-type problem. */
  lemma AsWrittenSkipsFileTypes(controls: set<string>, emailValue: string, a: Attachment, name: string)
    requires "email" in controls
    ensures BadFileType(name) !in ValidateForm(CaptureAsWritten(controls, emailValue, a)).problems
  {
    FileTypeRule(CaptureAsWritten(controls, emailValue, a), name);
  }

  /** With the intended guard, a file-type problem appears exactly for each
      attached file whose media type is off the allow-list, once per such
      file. */
  lemma IntendedChecksFileTypes(controls: set<string>, emailValue: string, a: Attachment, name: string)
    requires "email" in controls
    ensures BadFileType(name) in ValidateForm(CaptureIntended(controls, emailValue, a)).problems <==>
      a.FileInput? && exists i :: 0 <= i < |a.files| && a.files[i].name == name && !IsAllowed(a.files[i])
    ensures multiset(ValidateForm(CaptureIntended(controls, emailValue, a)).problems)[BadFileType(name)] ==
      DisallowedNamed(FilesOf(a), name)
  {
    FileTypeRule(CaptureIntended(controls, emailValue, a), name);
  }

  const AllControls: set<string> := {"name", "email", "message", "attachment"}
  const SampleEmail: string := "a@b.co"
  const GifAttachment: Attachment := FileInput([FileEntry("cat.gif", "image/gif")])

  lemma SampleEmailWellShaped()
    ensures EmailShape.WellShaped(SampleEmail)
  {
    assert SampleEmail[1] == '@';
    assert EmailShape.OnlyAtSign(SampleEmail, 1);
    assert SampleEmail[2..][1] == '.';
  }

  /** A GIF attachment on an otherwise valid form passes the validator as
      written. */
  lemma GifAcceptedAsWritten()
    ensures ValidateForm(CaptureAsWritten(AllControls, SampleEmail, GifAttachment)) == Returned([])
  {
    SampleEmailWellShaped();
    ValidateFormEmptyIff(CaptureAsWritten(AllControls, SampleEmail, GifAttachment));
  }

  /** The same form is refused with the intended guard, with exactly one
      problem naming the file. */
  lemma GifRejectedIntended()
    ensures ValidateForm(CaptureIntended(AllControls, SampleEmail, GifAttachment)) ==
      Returned([BadFileType("cat.gif")])
  {
    SampleEmailWellShaped();
    var form := CaptureIntended(AllControls, SampleEmail, GifAttachment);
    RequiredProblemsInFieldOrder(form.controls);
    assert !IsAllowed(FileEntry("cat.gif", "image/gif"));
    assert [FileEntry("cat.gif", "image/gif")][1..] == [];
  }
}
