/** `validateForm` of script.js: the rules a contact-form snapshot is checked
    against before it is sent, and what the list of errors it returns looks
    like. Each error is kept as the `Problem` it reports; `Message` renders it
    as the exact text the script pushes. */
module Validator {
  import opened JsText
  import EmailShape

  /** One attached file: its name and its declared media type. */
  datatype FileEntry = FileEntry(name: string, mediaType: string)

  /** What the validator reads from the form.
      - `controls`: the names of the form controls that exist;
      - `emailValue`: the value of the `email` control, read only when it exists;
      - `attachmentGuard`: the value of the guard in front of the file-type rule;
      - `files`: the attachment's files, in order. */
  datatype Snapshot = Snapshot(
    controls: set<string>,
    emailValue: string,
    attachmentGuard: bool,
    files: seq<FileEntry>)

  /** A required control and the caption its error message uses. */
  datatype Field = Field(name: string, caption: string)

  const RequiredFields: seq<Field> :=
    [Field("name", "Full Name"), Field("email", "Email"), Field("message", "Message")]

  const AllowedTypes: seq<string> := ["image/jpeg", "image/png"]

  predicate IsAllowed(f: FileEntry) {
    f.mediaType in AllowedTypes
  }

  /** One error of the validator: a missing required control (by caption), an
      email of the wrong shape, or an attached file (by name) whose media type
      is not allowed. */
  datatype Problem = Missing(caption: string) | InvalidEmail | BadFileType(fileName: string)

  const RequiredSuffix: string := " is required"
  const InvalidEmailMessage: string := "Please provide a valid email!"
  const FileTypePrefix: string := "Invalid file type: "
  const FileTypeSuffix: string := ". Only JPG and PNG files allowed!"

  /** The text the script pushes for a problem. */
  function Message(p: Problem): string {
    match p
    case Missing(caption) => caption + RequiredSuffix
    case InvalidEmail => InvalidEmailMessage
    case BadFileType(name) => FileTypePrefix + name + FileTypeSuffix
  }

  /** The texts of a list of problems, in order: the array `validateForm` returns. */
  function Messages(ps: seq<Problem>): seq<string> {
    seq(|ps|, i requires 0 <= i < |ps| => Message(ps[i]))
  }

  /** How a call of the validator ends: it returns its errors, or it throws a
      TypeError while reading the value of a missing `email` control. */
  datatype Validation = Returned(problems: seq<Problem>) | TypeErrorThrown

  /** The presence rule over a table of fields: one problem per field whose
      control is missing, in table order. Presence is all that is tested; an
      empty value passes. */
  function MissingFieldProblems(fields: seq<Field>, controls: set<string>): (r: seq<Problem>)
    ensures |r| <= |fields|
    ensures r == [] <==> forall i :: 0 <= i < |fields| ==> fields[i].name in controls
  {
    if |fields| == 0 then []
    else
      var tail := MissingFieldProblems(fields[1..], controls);
      var head := if fields[0].name in controls then [] else [Missing(fields[0].caption)];
      assert forall i :: 1 <= i < |fields| ==> fields[i] == fields[1..][i - 1];
      head + tail
  }

  /** The email rule: a non-empty value that fails the shape check is a
      problem; an empty value is never checked. */
  function EmailProblems(email: string): seq<Problem> {
    if email != "" && !EmailShape.WellShaped(email) then [InvalidEmail] else []
  }

  /** The file-type rule: one problem per file whose media type is not on the
      allow-list, in file order. */
  function FileTypeProblems(files: seq<FileEntry>): (r: seq<Problem>)
    ensures |r| <= |files|
    ensures r == [] <==> forall i :: 0 <= i < |files| ==> IsAllowed(files[i])
  {
    if |files| == 0 then []
    else
      var tail := FileTypeProblems(files[1..]);
      var head := if IsAllowed(files[0]) then [] else [BadFileType(files[0].name)];
      assert forall i :: 1 <= i < |files| ==> files[i] == files[1..][i - 1];
      head + tail
  }

  /** The presence rule applied to the three required controls. */
  function RequiredProblems(controls: set<string>): seq<Problem> {
    MissingFieldProblems(RequiredFields, controls)
  }

  /** The file-type rule behind its guard. */
  function AttachmentProblems(form: Snapshot): seq<Problem> {
    if form.attachmentGuard then FileTypeProblems(form.files) else []
  }

  /** `validateForm(form)` as written: the presence rule, then the value of the
      `email` control is read (a TypeError when that control is missing), then
      the email rule, then the file-type rule when its guard holds. */
  function ValidateForm(form: Snapshot): (v: Validation)
    ensures v.TypeErrorThrown? <==> "email" !in form.controls
  {
    var required := RequiredProblems(form.controls);
    if "email" !in form.controls then TypeErrorThrown
    else Returned(required + EmailProblems(form.emailValue) + AttachmentProblems(form))
  }

  // ---------------------------------------------------------------------------
  // Messages

  /** Reads a returned text back as the problem it reports; `None` for a text
      the validator never pushes. */
  function ParseMessage(m: string): Option<Problem> {
    if m == InvalidEmailMessage then Some(InvalidEmail)
    else if |FileTypePrefix| + |FileTypeSuffix| <= |m|
         && m[..|FileTypePrefix|] == FileTypePrefix && m[|m| - |FileTypeSuffix|..] == FileTypeSuffix
    then Some(BadFileType(m[|FileTypePrefix|..|m| - |FileTypeSuffix|]))
    else if |RequiredSuffix| <= |m| && m[|m| - |RequiredSuffix|..] == RequiredSuffix
    then Some(Missing(m[..|m| - |RequiredSuffix|]))
    else None
  }

  /** Every text the validator pushes reads back as the problem it came from. */
  lemma ParseMessageInverse(p: Problem)
    ensures ParseMessage(Message(p)) == Some(p)
  {
    var m := Message(p);
    match p
    case Missing(c) =>
      assert m[|m| - 1] == 'd' != InvalidEmailMessage[|InvalidEmailMessage| - 1];
      assert |FileTypePrefix| + |FileTypeSuffix| <= |m| ==> m[|m| - |FileTypeSuffix|..][|FileTypeSuffix| - 1] == 'd';
      assert m[|m| - |RequiredSuffix|..] == RequiredSuffix;
      assert m[..|m| - |RequiredSuffix|] == c;
    case InvalidEmail =>
    case BadFileType(n) =>
      assert m[0] == 'I' != InvalidEmailMessage[0];
      assert m[..|FileTypePrefix|] == FileTypePrefix;
      assert m[|m| - |FileTypeSuffix|..] == FileTypeSuffix;
      assert m[|FileTypePrefix|..|m| - |FileTypeSuffix|] == n;
  }

  /** Different problems have different texts, so the returned strings tell
      exactly which problems were found. */
  lemma MessageInjective(p: Problem, q: Problem)
    requires Message(p) == Message(q)
    ensures p == q
  {
    ParseMessageInverse(p);
    ParseMessageInverse(q);
  }

  /** A problem's text is in the returned strings exactly when the problem is. */
  lemma MessagesMention(ps: seq<Problem>, p: Problem)
    ensures Message(p) in Messages(ps) <==> p in ps
  {
    if Message(p) in Messages(ps) {
      var i :| 0 <= i < |ps| && Messages(ps)[i] == Message(p);
      MessageInjective(ps[i], p);
    }
    if p in ps {
      var i :| 0 <= i < |ps| && ps[i] == p;
      assert Messages(ps)[i] == Message(p);
    }
  }

  lemma MessagesInjective(ps: seq<Problem>, qs: seq<Problem>)
    requires Messages(ps) == Messages(qs)
    ensures ps == qs
  {
    assert |ps| == |Messages(ps)| == |qs|;
    forall i | 0 <= i < |ps|
      ensures ps[i] == qs[i]
    {
      assert Messages(ps)[i] == Message(ps[i]) && Messages(qs)[i] == Message(qs[i]);
      MessageInjective(ps[i], qs[i]);
    }
  }

  // ---------------------------------------------------------------------------
  // The presence rule

  lemma {:induction false} MissingFieldProblemsAppend(a: seq<Field>, b: seq<Field>, controls: set<string>)
    ensures MissingFieldProblems(a + b, controls) == MissingFieldProblems(a, controls) + MissingFieldProblems(b, controls)
    decreases |a|
  {
    if |a| == 0 {
      assert a + b == b;
    } else {
      assert (a + b)[1..] == a[1..] + b;
      MissingFieldProblemsAppend(a[1..], b, controls);
    }
  }

  lemma MissingFieldProblemsSingle(f: Field, controls: set<string>)
    ensures MissingFieldProblems([f], controls) == if f.name in controls then [] else [Missing(f.caption)]
  {
    assert [f][1..] == [];
  }

  /** Each missing required control adds exactly one problem, in the order
      Full Name, Email, Message. */
  lemma RequiredProblemsInFieldOrder(controls: set<string>)
    ensures RequiredProblems(controls) ==
      (if "name" in controls then [] else [Missing("Full Name")]) +
      (if "email" in controls then [] else [Missing("Email")]) +
      (if "message" in controls then [] else [Missing("Message")])
  {
    var f0, f1, f2 := Field("name", "Full Name"), Field("email", "Email"), Field("message", "Message");
    assert RequiredFields == [f0, f1] + [f2];
    assert [f0, f1] == [f0] + [f1];
    MissingFieldProblemsAppend([f0, f1], [f2], controls);
    MissingFieldProblemsAppend([f0], [f1], controls);
    MissingFieldProblemsSingle(f0, controls);
    MissingFieldProblemsSingle(f1, controls);
    MissingFieldProblemsSingle(f2, controls);
  }

  /** A problem reporting a field of the table whose control is missing. */
  predicate NamesMissingField(p: Problem, fields: seq<Field>, controls: set<string>) {
    p.Missing? && exists i :: 0 <= i < |fields| && fields[i].name !in controls && p.caption == fields[i].caption
  }

  /** Every problem of the presence rule reports a field whose control is
      missing. */
  lemma {:induction false} MissingFieldProblemsNameMissing(fields: seq<Field>, controls: set<string>)
    ensures forall p :: p in MissingFieldProblems(fields, controls) ==> NamesMissingField(p, fields, controls)
    decreases |fields|
  {
    if |fields| > 0 {
      MissingFieldProblemsNameMissing(fields[1..], controls);
      forall p | p in MissingFieldProblems(fields[1..], controls)
        ensures NamesMissingField(p, fields, controls)
      {
        var i :| 0 <= i < |fields[1..]| && fields[1..][i].name !in controls && p.caption == fields[1..][i].caption;
        assert fields[1..][i] == fields[i + 1];
      }
    }
  }

  // ---------------------------------------------------------------------------
  // The file-type rule

  /** Problems of a concatenation are the concatenation of the problems: each
      file is judged on its own and the problems keep file order. */
  lemma {:induction false} FileTypeProblemsAppend(a: seq<FileEntry>, b: seq<FileEntry>)
    ensures FileTypeProblems(a + b) == FileTypeProblems(a) + FileTypeProblems(b)
    decreases |a|
  {
    if |a| == 0 {
      assert a + b == b;
    } else {
      assert (a + b)[1..] == a[1..] + b;
      FileTypeProblemsAppend(a[1..], b);
    }
  }

  /** A problem reporting an attached file whose media type is not allowed. */
  predicate NamesDisallowedFile(p: Problem, files: seq<FileEntry>) {
    p.BadFileType? && exists i :: 0 <= i < |files| && !IsAllowed(files[i]) && p.fileName == files[i].name
  }

  /** Every problem of the file-type rule reports a disallowed file. */
  lemma {:induction false} FileTypeProblemsNameDisallowed(files: seq<FileEntry>)
    ensures forall p :: p in FileTypeProblems(files) ==> NamesDisallowedFile(p, files)
    decreases |files|
  {
    if |files| > 0 {
      FileTypeProblemsNameDisallowed(files[1..]);
      forall p | p in FileTypeProblems(files[1..])
        ensures NamesDisallowedFile(p, files)
      {
        var i :| 0 <= i < |files[1..]| && !IsAllowed(files[1..][i]) && p.fileName == files[1..][i].name;
        assert files[1..][i] == files[i + 1];
      }
    }
  }

  /** Every disallowed file is reported, under its own name. */
  lemma {:induction false} FileTypeProblemsReportEach(files: seq<FileEntry>, i: int)
    requires 0 <= i < |files| && !IsAllowed(files[i])
    ensures BadFileType(files[i].name) in FileTypeProblems(files)
    decreases i
  {
    if i > 0 {
      assert files[1..][i - 1] == files[i];
      FileTypeProblemsReportEach(files[1..], i - 1);
    }
  }

  /** A file's problem is reported exactly when some file of that name has a
      media type off the allow-list. */
  lemma FileTypeProblemsMention(files: seq<FileEntry>, name: string)
    ensures BadFileType(name) in FileTypeProblems(files) <==>
      exists i :: 0 <= i < |files| && files[i].name == name && !IsAllowed(files[i])
  {
    FileTypeProblemsNameDisallowed(files);
    if exists i :: 0 <= i < |files| && files[i].name == name && !IsAllowed(files[i]) {
      var i :| 0 <= i < |files| && files[i].name == name && !IsAllowed(files[i]);
      FileTypeProblemsReportEach(files, i);
    }
  }

  /** How many attached files are named `name` and have a media type off the
      allow-list. */
  function DisallowedNamed(files: seq<FileEntry>, name: string): (c: nat)
    ensures c <= |files|
  {
    if |files| == 0 then 0
    else (if files[0].name == name && !IsAllowed(files[0]) then 1 else 0) + DisallowedNamed(files[1..], name)
  }

  /** The file-type rule reports a name exactly as many times as there are
      disallowed files of that name: duplicates are not merged. */
  lemma {:induction false} FileTypeProblemsCount(files: seq<FileEntry>, name: string)
    ensures multiset(FileTypeProblems(files))[BadFileType(name)] == DisallowedNamed(files, name)
    decreases |files|
  {
    if |files| > 0 {
      FileTypeProblemsCount(files[1..], name);
      var head := if IsAllowed(files[0]) then [] else [BadFileType(files[0].name)];
      assert FileTypeProblems(files) == head + FileTypeProblems(files[1..]);
      assert multiset(FileTypeProblems(files)) == multiset(head) + multiset(FileTypeProblems(files[1..]));
    }
  }

  // ---------------------------------------------------------------------------
  // The whole validator

  /** `ps` cut at `i` and `j` gives missing-field problems, at most one
      invalid-email problem, then file-type problems (only under the guard). */
  predicate GroupedAt(ps: seq<Problem>, form: Snapshot, i: int, j: int) {
    && 0 <= i <= j <= |ps| && j - i <= 1
    && (forall p :: p in ps[..i] ==> NamesMissingField(p, RequiredFields, form.controls))
    && (forall p :: p in ps[i..j] ==> p == InvalidEmail)
    && (forall p :: p in ps[j..] ==> form.attachmentGuard && NamesDisallowedFile(p, form.files))
  }

  /** The returned list is ordered: missing required fields, then at most one
      invalid email, then disallowed files, the last group only under the
      guard. As the email control must exist for the validator to return, at
      most two missing fields appear, so the list is never longer than
      3 + |files|. */
  lemma ErrorListShape(form: Snapshot)
    requires ValidateForm(form).Returned?
    ensures |ValidateForm(form).problems| <= 3 + |form.files|
    ensures exists i, j ::
      && i <= 2 && GroupedAt(ValidateForm(form).problems, form, i, j)
      && ValidateForm(form).problems[..i] == RequiredProblems(form.controls)
      && ValidateForm(form).problems[j..] == AttachmentProblems(form)
  {
    var ps := ValidateForm(form).problems;
    var required, email, attached := RequiredProblems(form.controls), EmailProblems(form.emailValue), AttachmentProblems(form);
    RequiredProblemsInFieldOrder(form.controls);
    MissingFieldProblemsNameMissing(RequiredFields, form.controls);
    FileTypeProblemsNameDisallowed(form.files);
    var i, j := |required|, |required| + |email|;
    assert ps[..i] == required;
    assert ps[i..j] == email;
    assert ps[j..] == attached;
    assert GroupedAt(ps, form, i, j) && ps[..i] == RequiredProblems(form.controls) && ps[j..] == AttachmentProblems(form);
  }

  /** An empty email value never produces the invalid-email problem; a
      non-empty one produces it exactly once, and exactly when it fails the
      shape check. */
  lemma EmailRule(form: Snapshot)
    requires "email" in form.controls
    ensures multiset(ValidateForm(form).problems)[InvalidEmail] ==
      if form.emailValue != "" && !EmailShape.WellShaped(form.emailValue) then 1 else 0
  {
    var required, attached := RequiredProblems(form.controls), AttachmentProblems(form);
    RequiredProblemsInFieldOrder(form.controls);
    FileTypeProblemsNameDisallowed(form.files);
    assert InvalidEmail !in required;
    assert InvalidEmail !in attached;
  }

  /** The same rule stated against the pattern `^[^\s@]+@[^\s@]+\.[^\s@]+$`
      itself rather than against its description in words. */
  lemma EmailRuleFollowsPattern(form: Snapshot)
    requires "email" in form.controls
    ensures multiset(ValidateForm(form).problems)[InvalidEmail] ==
      if form.emailValue != "" && !EmailShape.MatchesPattern(form.emailValue) then 1 else 0
  {
    EmailRule(form);
    EmailShape.PatternIffShape(form.emailValue);
  }

  /** File-type problems are reported exactly for the disallowed files when
      the guard holds, and never when it does not: a name is reported once
      for every disallowed file that carries it. */
  lemma FileTypeRule(form: Snapshot, name: string)
    requires "email" in form.controls
    ensures BadFileType(name) in ValidateForm(form).problems <==>
      form.attachmentGuard &&
      exists i :: 0 <= i < |form.files| && form.files[i].name == name && !IsAllowed(form.files[i])
    ensures multiset(ValidateForm(form).problems)[BadFileType(name)] ==
      if form.attachmentGuard then DisallowedNamed(form.files, name) else 0
  {
    var required, email := RequiredProblems(form.controls), EmailProblems(form.emailValue);
    RequiredProblemsInFieldOrder(form.controls);
    FileTypeProblemsMention(form.files, name);
    FileTypeProblemsCount(form.files, name);
    assert BadFileType(name) !in required && BadFileType(name) !in email;
  }

  /** The validator returns the empty list exactly when all three required
      controls exist, the email is empty or well shaped, and no disallowed
      file is checked. */
  lemma ValidateFormEmptyIff(form: Snapshot)
    ensures ValidateForm(form) == Returned([]) <==>
      && (forall i :: 0 <= i < |RequiredFields| ==> RequiredFields[i].name in form.controls)
      && (form.emailValue == "" || EmailShape.WellShaped(form.emailValue))
      && (form.attachmentGuard ==> forall i :: 0 <= i < |form.files| ==> IsAllowed(form.files[i]))
  {
    assert RequiredFields[1].name == "email";
  }

  /** "Email is required" is never part of a returned list: whenever it would
      be added, reading the email value throws before the list is returned. */
  lemma EmailRequiredNeverReturned(form: Snapshot)
    requires ValidateForm(form).Returned?
    ensures Missing("Email") !in ValidateForm(form).problems
    ensures Message(Missing("Email")) !in Messages(ValidateForm(form).problems)
  {
    RequiredProblemsInFieldOrder(form.controls);
    FileTypeProblemsNameDisallowed(form.files);
    MessagesMention(ValidateForm(form).problems, Missing("Email"));
  }

  // ---------------------------------------------------------------------------
  // Facts the submit handler relies on

  /** Every returned text is non-empty. */
  lemma MessagesNonEmpty(ps: seq<Problem>)
    ensures forall m :: m in Messages(ps) ==> m != ""
  {
    forall m | m in Messages(ps)
      ensures m != ""
    {
      var i :| 0 <= i < |ps| && Messages(ps)[i] == m;
      assert |m| >= |RequiredSuffix|;
    }
  }

  /** A problem whose caption or file name is free of ", " (and whose caption
      does not end in ',') has a text free of ", ". */
  lemma MessageFreeOfSeparator(p: Problem)
    requires p.Missing? ==> FreeOfSeparator(p.caption) && (|p.caption| > 0 ==> p.caption[|p.caption| - 1] != ',')
    requires p.BadFileType? ==> FreeOfSeparator(p.fileName)
    ensures FreeOfSeparator(Message(p))
  {
    match p
    case Missing(c) =>
      assert FreeOfSeparator(RequiredSuffix) by {
        forall i | 0 <= i < |RequiredSuffix| - 1 ensures RequiredSuffix[i] != ',' {}
      }
      ConcatFreeOfSeparator(c, RequiredSuffix);
    case InvalidEmail =>
      forall i | 0 <= i < |InvalidEmailMessage| - 1 ensures InvalidEmailMessage[i] != ',' {}
    case BadFileType(name) =>
      assert FreeOfSeparator(FileTypePrefix) by {
        forall i | 0 <= i < |FileTypePrefix| - 1 ensures FileTypePrefix[i] != ',' {}
      }
      assert FreeOfSeparator(FileTypeSuffix) by {
        forall i | 0 <= i < |FileTypeSuffix| - 1 ensures FileTypeSuffix[i] != ',' {}
      }
      ConcatFreeOfSeparator(FileTypePrefix, name);
      ConcatFreeOfSeparator(FileTypePrefix + name, FileTypeSuffix);
  }

  /** The captions of the required fields hold no ',' at all. */
  lemma RequiredCaptionsPlain()
    ensures forall i, j :: 0 <= i < |RequiredFields| && 0 <= j < |RequiredFields[i].caption| ==>
      RequiredFields[i].caption[j] != ','
  {
    forall i, j | 0 <= i < |RequiredFields| && 0 <= j < |RequiredFields[i].caption|
      ensures RequiredFields[i].caption[j] != ','
    {
      var c := RequiredFields[i].caption;
      assert c == "Full Name" || c == "Email" || c == "Message";
    }
  }

  /** No returned text contains ", " unless a file name brings one in. */
  lemma ErrorsFreeOfSeparator(form: Snapshot)
    requires ValidateForm(form).Returned?
    requires forall i :: 0 <= i < |form.files| ==> FreeOfSeparator(form.files[i].name)
    ensures forall m :: m in Messages(ValidateForm(form).problems) ==> FreeOfSeparator(m)
  {
    var ps := ValidateForm(form).problems;
    var required, email, attached := RequiredProblems(form.controls), EmailProblems(form.emailValue), AttachmentProblems(form);
    assert ps == required + email + attached;
    MissingFieldProblemsNameMissing(RequiredFields, form.controls);
    FileTypeProblemsNameDisallowed(form.files);
    RequiredCaptionsPlain();
    forall m | m in Messages(ps)
      ensures FreeOfSeparator(m)
    {
      var k :| 0 <= k < |ps| && Messages(ps)[k] == m;
      var p := ps[k];
      assert p in required || p in email || p in attached;
      if p.Missing? {
        assert p in required;
        var i :| 0 <= i < |RequiredFields| && RequiredFields[i].name !in form.controls && p.caption == RequiredFields[i].caption;
      } else if p.BadFileType? {
        assert p in attached;
        var i :| 0 <= i < |form.files| && !IsAllowed(form.files[i]) && p.fileName == form.files[i].name;
      }
      MessageFreeOfSeparator(p);
    }
  }

  // ---------------------------------------------------------------------------
  // The validator with the email value read safely

  /** `validateForm` as its presence rule evidently intends it: the email value
      is read as `form.elements.email?.value`, so a missing `email` control
      makes the value `undefined`, which is falsy and skips the email rule, and
      "Email is required" reaches the caller like the other two errors. */
  function ValidateFormIntended(form: Snapshot): (ps: seq<Problem>)
    ensures "email" in form.controls ==> ValidateForm(form) == Returned(ps)
    ensures Missing("Email") in ps <==> "email" !in form.controls
  {
    var email := if "email" in form.controls then EmailProblems(form.emailValue) else [];
    RequiredProblemsInFieldOrder(form.controls);
    FileTypeProblemsNameDisallowed(form.files);
    RequiredProblems(form.controls) + email + AttachmentProblems(form)
  }
}
