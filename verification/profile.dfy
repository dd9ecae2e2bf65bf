/**
 * The profile page's security panel: the password and PIN forms, their checks before any
 * request is sent, the messages and field resets that follow the server's reply, and the
 * batch range shown among the student's details.
 */
module Profile {
  import opened Wrappers
  import Text

  datatype Form = Form(currentPassword: string, newPassword: string, confirmPassword: string, pin: string)

  datatype Field = CurrentPassword | NewPassword | ConfirmPassword | Pin

  const EmptyForm: Form := Form("", "", "", "")

  function FieldOf(f: Form, field: Field): string
  {
    match field
    case CurrentPassword => f.currentPassword
    case NewPassword => f.newPassword
    case ConfirmPassword => f.confirmPassword
    case Pin => f.pin
  }

  /** Typing into one input: that field takes the new text and no other field changes. */
  function UpdateField(f: Form, field: Field, value: string): (r: Form)
    ensures FieldOf(r, field) == value
    ensures forall other :: other != field ==> FieldOf(r, other) == FieldOf(f, other)
  {
    match field
    case CurrentPassword => f.(currentPassword := value)
    case NewPassword => f.(newPassword := value)
    case ConfirmPassword => f.(confirmPassword := value)
    case Pin => f.(pin := value)
  }

  /** Two forms with the same fields are the same form. */
  lemma FormExtensional(f: Form, g: Form)
    requires forall field :: FieldOf(f, field) == FieldOf(g, field)
    ensures f == g
  {
    assert FieldOf(f, CurrentPassword) == FieldOf(g, CurrentPassword);
    assert FieldOf(f, NewPassword) == FieldOf(g, NewPassword);
    assert FieldOf(f, ConfirmPassword) == FieldOf(g, ConfirmPassword);
    assert FieldOf(f, Pin) == FieldOf(g, Pin);
  }

  /** Retyping a field's current text changes nothing; the later of two edits to a field wins. */
  lemma UpdateLaws(f: Form, field: Field, a: string, b: string)
    ensures UpdateField(f, field, FieldOf(f, field)) == f
    ensures UpdateField(UpdateField(f, field, a), field, b) == UpdateField(f, field, b)
  {
    FormExtensional(UpdateField(f, field, FieldOf(f, field)), f);
    FormExtensional(UpdateField(UpdateField(f, field, a), field, b), UpdateField(f, field, b));
  }

  datatype MessageKind = SuccessMessage | ErrorMessage

  datatype Message = Message(kind: MessageKind, text: string)

  datatype Page = Page(
    form: Form,
    message: Option<Message>,
    showChangePassword: bool,
    showChangePin: bool)

  /** The requests the panel sends. */
  datatype Request =
    | NoRequest
    | ChangePasswordRequest(currentPassword: string, password: string)
    | SetPinRequest(pin: string)

  /** The server's answer: accepted, refused with an optional message, or no usable reply. */
  datatype Reply = Accepted | Refused(msg: Option<string>) | Thrown

  /** Pressing "Update Password": the two new entries must agree before anything is sent. */
  function SubmitPassword(p: Page): (r: (Page, Request))
    ensures r.1 == NoRequest <==> p.form.newPassword != p.form.confirmPassword
    ensures r.1 == NoRequest ==> r.0 == p.(message := Some(Message(ErrorMessage, "New passwords do not match")))
    ensures r.1 != NoRequest ==>
      r.0 == p && r.1 == ChangePasswordRequest(p.form.currentPassword, p.form.newPassword)
  {
    if p.form.newPassword != p.form.confirmPassword then
      (p.(message := Some(Message(ErrorMessage, "New passwords do not match"))), NoRequest)
    else (p, ChangePasswordRequest(p.form.currentPassword, p.form.newPassword))
  }

  /** The password reply: success clears the three password fields and keeps the PIN. */
  function FinishPassword(p: Page, reply: Reply): (r: Page)
    ensures reply.Accepted? ==>
      && r.form == Form("", "", "", p.form.pin)
      && r.message == Some(Message(SuccessMessage, "Password changed successfully"))
      && !r.showChangePassword && r.showChangePin == p.showChangePin
    ensures reply.Refused? ==>
      r == p.(message := Some(Message(ErrorMessage, Text.MsgOr(reply.msg, "Failed to change password"))))
    ensures reply.Thrown? ==>
      r == p.(message := Some(Message(ErrorMessage, "An error occurred while changing password")))
  {
    match reply
    case Accepted =>
      p.(form := p.form.(currentPassword := "", newPassword := "", confirmPassword := ""),
         message := Some(Message(SuccessMessage, "Password changed successfully")),
         showChangePassword := false)
    case Refused(msg) => p.(message := Some(Message(ErrorMessage, Text.MsgOr(msg, "Failed to change password"))))
    case Thrown => p.(message := Some(Message(ErrorMessage, "An error occurred while changing password")))
  }

  /**
   * Pressing "Update PIN": only the length in UTF-16 code units is checked, not that the
   * characters are digits, so two characters outside the Basic Multilingual Plane pass.
   */
  function SubmitPin(p: Page): (r: (Page, Request))
    ensures r.1 == NoRequest <==> Text.Utf16Length(p.form.pin) != 4
    ensures r.1 == NoRequest ==> r.0 == p.(message := Some(Message(ErrorMessage, "PIN must be 4 digits")))
    ensures r.1 != NoRequest ==> r.0 == p && r.1 == SetPinRequest(p.form.pin)
  {
    if Text.Utf16Length(p.form.pin) != 4 then (p.(message := Some(Message(ErrorMessage, "PIN must be 4 digits"))), NoRequest)
    else (p, SetPinRequest(p.form.pin))
  }

  /** The PIN reply: success clears only the PIN field. */
  function FinishPin(p: Page, reply: Reply): (r: Page)
    ensures reply.Accepted? ==>
      && r.form == p.form.(pin := "")
      && r.message == Some(Message(SuccessMessage, "PIN changed successfully"))
      && !r.showChangePin && r.showChangePassword == p.showChangePassword
    ensures reply.Refused? ==>
      r == p.(message := Some(Message(ErrorMessage, Text.MsgOr(reply.msg, "Failed to change PIN"))))
    ensures reply.Thrown? ==>
      r == p.(message := Some(Message(ErrorMessage, "An error occurred while changing PIN")))
  {
    match reply
    case Accepted =>
      p.(form := p.form.(pin := ""), message := Some(Message(SuccessMessage, "PIN changed successfully")),
         showChangePin := false)
    case Refused(msg) => p.(message := Some(Message(ErrorMessage, Text.MsgOr(msg, "Failed to change PIN"))))
    case Thrown => p.(message := Some(Message(ErrorMessage, "An error occurred while changing PIN")))
  }

  /**
   * A request is only ever sent for a form that passed its check. A PIN that is sent has
   * between two and four characters, and exactly four iff none of them needs a surrogate pair.
   */
  lemma RequestsCarryCheckedForms(p: Page)
    ensures SubmitPassword(p).1.ChangePasswordRequest? ==> SubmitPassword(p).1.password == p.form.confirmPassword
    ensures SubmitPin(p).1.SetPinRequest? ==> Text.Utf16Length(SubmitPin(p).1.pin) == 4
    ensures SubmitPin(p).1.SetPinRequest? ==> 2 <= |SubmitPin(p).1.pin| <= 4
    ensures SubmitPin(p).1.SetPinRequest? ==>
      (|SubmitPin(p).1.pin| == 4 <==> forall i :: 0 <= i < |p.form.pin| ==> !Text.IsAstral(p.form.pin[i]))
  {
  }

  /**
   * The two forms do not disturb each other: a successful password change leaves the PIN
   * field as typed, a successful PIN change leaves the password fields as typed, and each
   * success leaves its own fields empty.
   */
  lemma SuccessResetsOnlyItsForm(p: Page)
    ensures FieldOf(FinishPassword(p, Accepted).form, Pin) == FieldOf(p.form, Pin)
    ensures forall field :: field != Pin ==> FieldOf(FinishPassword(p, Accepted).form, field) == ""
    ensures FieldOf(FinishPin(p, Accepted).form, Pin) == ""
    ensures forall field :: field != Pin ==> FieldOf(FinishPin(p, Accepted).form, field) == FieldOf(p.form, field)
  {
  }

  /** The batch range: the year four years before the passing-out year, then that year. */
  function BatchLabel(batch: int): string
  {
    Text.IntToString(batch - 4) + " - " + Text.IntToString(batch)
  }

  /** Both years read back from the label: the first from its front, the second from its end. */
  lemma BatchLabelReadsBack(batch: int)
    ensures Text.ParseInt(BatchLabel(batch)) == Some(batch - 4)
    ensures Text.ParseInt(BatchLabel(batch)[|Text.IntToString(batch - 4)| + 3..]) == Some(batch)
  {
    FirstYearReadsBack(batch);
    LastYearReadsBack(batch);
  }

  lemma FirstYearReadsBack(batch: int)
    ensures Text.ParseInt(BatchLabel(batch)) == Some(batch - 4)
  {
    var rest := " - " + Text.IntToString(batch);
    assert rest[0] == ' ';
    Text.ParseIntPrefix(batch - 4, rest);
    LabelSplits(batch, rest);
  }

  lemma LabelSplits(batch: int, rest: string)
    requires rest == " - " + Text.IntToString(batch)
    ensures BatchLabel(batch) == Text.IntToString(batch - 4) + rest
  {
  }

  lemma LastYearReadsBack(batch: int)
    ensures Text.ParseInt(BatchLabel(batch)[|Text.IntToString(batch - 4)| + 3..]) == Some(batch)
  {
    var text := BatchLabel(batch);
    assert text[|Text.IntToString(batch - 4)| + 3..] == Text.IntToString(batch);
    Text.ParseIntRoundTrip(batch);
  }
}
