/** The add-task modal: its form fields, validation, field edits and the data
    it submits. */
module AddTaskModal {
  import opened Wrappers
  import opened Text
  import opened Domain
  import TaskService

  /** The validation messages. */
  const TitleRequired: string := "Title is required"
  const CategoryRequired: string := "Category is required"

  /** The form's fields. */
  datatype Field = Title | Description | CategoryField | PriorityField | DueDate

  /** The form's values; an unset category or due date is the empty string. */
  datatype FormData = FormData(title: string, description: string, categoryId: string, priority: string, dueDate: string)

  /** The errors object: a field maps to its message, or to `null` once the user edits it. */
  type Errors = map<Field, Option<string>>

  /** The form a fresh modal starts from, and the one it is reset to. */
  function EmptyForm(): FormData {
    FormData("", "", "", Medium, "")
  }

  /** The value of one field. */
  function Get(form: FormData, f: Field): string {
    match f
    case Title => form.title
    case Description => form.description
    case CategoryField => form.categoryId
    case PriorityField => form.priority
    case DueDate => form.dueDate
  }

  /** `errors[field]` is truthy: a non-empty message is recorded for it. */
  predicate HasError(errors: Errors, f: Field) {
    f in errors && errors[f].Some? && errors[f].value != ""
  }

  /** `validateForm`'s new errors object: a message for a title that is empty
      after trimming and for an empty category, and nothing else. */
  function ValidateForm(form: FormData): (errors: Errors)
    ensures Title in errors <==> forall i :: 0 <= i < |form.title| ==> IsWhitespace(form.title[i])
    ensures CategoryField in errors <==> form.categoryId == ""
    ensures errors.Keys <= {Title, CategoryField}
    ensures forall f :: f in errors ==> HasError(errors, f)
  {
    var titleErrors: Errors := if Trim(form.title) == "" then map[Title := Some(TitleRequired)] else map[];
    if form.categoryId == "" then titleErrors[CategoryField := Some(CategoryRequired)] else titleErrors
  }

  /** `Object.keys(newErrors).length === 0`. */
  predicate IsValid(form: FormData) {
    |ValidateForm(form).Keys| == 0
  }

  /** The form validates exactly when the title has a non-whitespace character
      and a category is chosen; a whitespace-only title is rejected with an
      error on the title, and both errors are reported together when both fail. */
  lemma ValidIff(form: FormData)
    ensures IsValid(form) <==>
      (exists i :: 0 <= i < |form.title| && !IsWhitespace(form.title[i])) && form.categoryId != ""
    ensures (forall i :: 0 <= i < |form.title| ==> IsWhitespace(form.title[i])) && form.categoryId == "" ==>
      ValidateForm(form).Keys == {Title, CategoryField}
  {
    var e := ValidateForm(form);
    if Title in e {
      assert |e.Keys| > 0;
    }
    if CategoryField in e {
      assert |e.Keys| > 0;
    }
    if Title !in e && CategoryField !in e {
      assert e.Keys == {};
    }
  }

  /** `handleChange`: the field takes the value; its error is set to `null`
      if it had one. */
  function HandleChange(form: FormData, errors: Errors, f: Field, value: string): (r: (FormData, Errors))
    ensures Get(r.0, f) == value
    ensures forall g :: g != f ==> Get(r.0, g) == Get(form, g)
    ensures HasError(errors, f) ==> f in r.1 && r.1[f] == None
    ensures !HasError(errors, f) ==> r.1 == errors
    ensures r.1.Keys == errors.Keys && forall g :: g != f && g in errors ==> r.1[g] == errors[g]
  {
    var form' :=
      match f
      case Title => form.(title := value)
      case Description => form.(description := value)
      case CategoryField => form.(categoryId := value)
      case PriorityField => form.(priority := value)
      case DueDate => form.(dueDate := value);
    (form', if HasError(errors, f) then errors[f := None] else errors)
  }

  /** What `handleSubmit` leaves behind: the form, the errors, the data passed to
      `onSubmit` (if it was called), and whether the modal asked to close. */
  datatype SubmitOutcome = SubmitOutcome(form: FormData, errors: Errors, submitted: Option<TaskService.TaskInput>, closed: bool)

  /** The `taskData` object: every form field passed through, except that an
      empty due date becomes `null` and a set one is converted by `toIso`. */
  function TaskData(form: FormData, toIso: string -> string): TaskService.TaskInput {
    TaskService.TaskInput(form.title, Some(form.description), Some(form.categoryId), Some(form.priority),
      if form.dueDate != "" then Some(toIso(form.dueDate)) else None)
  }

  /** `handleSubmit`. `toIso` is `new Date(d).toISOString()`; `rejection` is how
      the awaited `onSubmit` settled (`None` when it resolved). */
  function HandleSubmit(form: FormData, toIso: string -> string, rejection: Option<string>): (r: SubmitOutcome)
    ensures r.errors == ValidateForm(form)
    ensures r.submitted.Some? <==> IsValid(form)
    ensures r.submitted.Some? ==>
      && r.submitted.value.title == form.title
      && r.submitted.value.description == Some(form.description)
      && r.submitted.value.categoryId == Some(form.categoryId)
      && r.submitted.value.priority == Some(form.priority)
      && (r.submitted.value.dueDate.None? <==> form.dueDate == "")
    ensures r.submitted.Some? && form.dueDate != "" ==> r.submitted.value.dueDate == Some(toIso(form.dueDate))
    ensures r.closed <==> IsValid(form) && rejection.None?
    ensures r.closed ==> r.form == EmptyForm()
    ensures !r.closed ==> r.form == form
  {
    var errors := ValidateForm(form);
    if |errors.Keys| != 0 then SubmitOutcome(form, errors, None, false)
    else
      var data := TaskData(form, toIso);
      match rejection
      case None => SubmitOutcome(EmptyForm(), errors, Some(data), true)
      case Some(_) => SubmitOutcome(form, errors, Some(data), false)
  }

  /** A valid submission hands the service a task whose fields are the form's:
      the priority chosen in the form (or "medium" when it is empty), the
      description as typed, and a due date exactly when one was entered. */
  lemma SubmittedTaskMatchesForm(form: FormData, toIso: string -> string, id: Id, now: Timestamp)
    requires IsValid(form)
    ensures
      var input := HandleSubmit(form, toIso, None).submitted.value;
      var t := TaskService.Create([], input, id, now).result.value;
      && t.title == form.title && t.description == form.description
      && t.categoryId == Some(form.categoryId) && form.categoryId != ""
      && (form.priority != "" ==> t.priority == form.priority)
      && (form.priority == "" ==> t.priority == Medium)
      && (t.dueDate.Some? <==> form.dueDate != "" && toIso(form.dueDate) != "")
  {
    ValidIff(form);
  }
}
