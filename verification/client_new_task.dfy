/** The task-creation form (`NewTask.tsx`): its state, the round list the
    creator edits, the checks made before submitting, the body sent, and
    the reset after a successful submission. */
module NewTaskForm {
  import opened Wrappers
  import opened Text
  import opened Entities

  /** A round being written: its description and its deadline text. */
  datatype RoundDraft = RoundDraft(description: string, deadline: string)

  datatype Form = Form(
    title: string,
    description: string,
    deadline: string,
    rounds: seq<RoundDraft>,
    evaluationType: EvaluationType)

  /** The form when the page opens, and after each successful submission. */
  const EmptyForm: Form := Form("", "", "", [], TEXT)

  /** `handleAddRound`: a blank round at the end. */
  function AddRound(f: Form): (r: Form)
    ensures r.rounds == f.rounds + [RoundDraft("", "")]
    ensures r.(rounds := f.rounds) == f
  {
    f.(rounds := f.rounds + [RoundDraft("", "")])
  }

  /** The two round fields the form edits. */
  datatype RoundField = DescriptionField | DeadlineField

  function SetField(d: RoundDraft, field: RoundField, value: string): RoundDraft {
    match field
    case DescriptionField => d.(description := value)
    case DeadlineField => d.(deadline := value)
  }

  /** `handleRoundChange(index, field, value)`: only that round's field
      changes. */
  function ChangeRound(f: Form, index: int, field: RoundField, value: string): (r: Form)
    ensures |r.rounds| == |f.rounds| && r.(rounds := f.rounds) == f
    ensures forall i :: 0 <= i < |f.rounds| && i != index ==> r.rounds[i] == f.rounds[i]
    ensures 0 <= index < |f.rounds| && field == DescriptionField ==>
      r.rounds[index] == RoundDraft(value, f.rounds[index].deadline)
    ensures 0 <= index < |f.rounds| && field == DeadlineField ==>
      r.rounds[index] == RoundDraft(f.rounds[index].description, value)
  {
    f.(rounds := seq(|f.rounds|, i requires 0 <= i < |f.rounds| =>
      if i == index then SetField(f.rounds[i], field, value) else f.rounds[i]))
  }

  /** `handleRemoveRound(index)`: the rounds before and after it, in order. */
  function RemoveRound(f: Form, index: int): (r: Form)
    ensures r.(rounds := f.rounds) == f
    ensures 0 <= index < |f.rounds| ==> |r.rounds| == |f.rounds| - 1
    ensures 0 <= index < |f.rounds| ==> forall i :: 0 <= i < index ==> r.rounds[i] == f.rounds[i]
    ensures 0 <= index < |f.rounds| ==> forall i :: index <= i < |r.rounds| ==> r.rounds[i] == f.rounds[i + 1]
    ensures !(0 <= index < |f.rounds|) ==> r == f
  {
    if 0 <= index < |f.rounds| then f.(rounds := f.rounds[..index] + f.rounds[index + 1..]) else f
  }

  /** Removing the round just added gives the form back. */
  lemma RemoveAfterAdd(f: Form)
    ensures RemoveRound(AddRound(f), |f.rounds|) == f
  {
    var added := AddRound(f).rounds;
    assert added[..|f.rounds|] == f.rounds;
  }

  /** Setting a field to the value it has changes nothing. */
  lemma ChangeRoundToSameValue(f: Form, index: int)
    requires 0 <= index < |f.rounds|
    ensures ChangeRound(f, index, DeadlineField, f.rounds[index].deadline) == f
    ensures ChangeRound(f, index, DescriptionField, f.rounds[index].description) == f
  {
    assert ChangeRound(f, index, DeadlineField, f.rounds[index].deadline).rounds == f.rounds;
    assert ChangeRound(f, index, DescriptionField, f.rounds[index].description).rounds == f.rounds;
  }

  /** The body posted to create the task. `creator` is absent when nobody
      is logged in; `applicationDeadline` is `null` (`None`) once there are
      rounds. */
  datatype CreateBody = CreateBody(
    title: string,
    description: string,
    applicationDeadline: Option<string>,
    creator: Option<string>,
    rounds: seq<RoundDraft>,
    evaluationType: EvaluationType)

  datatype SubmitOutcome = Rejected(message: string) | Sent(body: CreateBody)

  const FillRequiredFields: string := "Please fill in all required fields"
  const SetApplicationDeadline: string := "Please set an application deadline"

  /** `handleSubmit`: title and description must not be blank, and a task
      without rounds needs a deadline. No date is compared with today. */
  function Submit(f: Form, username: Option<string>): (r: SubmitOutcome)
    ensures r.Sent? <==> JsTrim(f.title) != "" && JsTrim(f.description) != "" && (|f.rounds| > 0 || f.deadline != "")
    ensures (JsTrim(f.title) == "" || JsTrim(f.description) == "") ==> r == Rejected(FillRequiredFields)
    ensures r == Rejected(SetApplicationDeadline) <==>
      JsTrim(f.title) != "" && JsTrim(f.description) != "" && |f.rounds| == 0 && f.deadline == ""
    ensures r.Sent? ==> r.body.title == f.title && r.body.description == f.description
    ensures r.Sent? ==> r.body.rounds == f.rounds && r.body.evaluationType == f.evaluationType && r.body.creator == username
    ensures r.Sent? ==> (r.body.applicationDeadline.Some? <==> |f.rounds| == 0)
    ensures r.Sent? && |f.rounds| == 0 ==> r.body.applicationDeadline == Some(f.deadline)
  {
    if JsTrim(f.title) == "" || JsTrim(f.description) == "" then Rejected(FillRequiredFields)
    else if |f.rounds| == 0 && f.deadline == "" then Rejected(SetApplicationDeadline)
    else Sent(CreateBody(f.title, f.description, if |f.rounds| == 0 then Some(f.deadline) else None,
                         username, f.rounds, f.evaluationType))
  }

  /** The form after a submission that was sent: cleared on success, kept
      on failure. */
  function AfterSubmit(f: Form, succeeded: bool): (r: Form)
    ensures succeeded ==> r == EmptyForm
    ensures !succeeded ==> r == f
  {
    if succeeded then EmptyForm else f
  }

  /** The cleared form cannot be submitted again as it is. */
  lemma EmptyFormIsRejected(username: Option<string>)
    ensures Submit(EmptyForm, username) == Rejected(FillRequiredFields)
  {
    assert JsTrim("") == "";
  }
}
