/**
 * The create-task form of the front end: its three pieces of component state
 * (`title`, `description`, `errors`) and the submit handler that validates
 * them, hands the typed values to the parent's `onSubmit` and resets the
 * fields.
 */
module TaskFormComponent {
  import opened Wrappers
  import opened JsStrings
  import Tasks
  import JsValues

  const TitleRequired := "Title is required"
  const DescriptionRequired := "Description is required"

  /** The `errors` state: a message per field, absent when that field passed. */
  datatype FormErrors = FormErrors(title: Option<string>, description: Option<string>)

  const NoErrors := FormErrors(None, None)

  /** `Object.keys(errors).length > 0` */
  predicate HasErrors(e: FormErrors) {
    e.title.Some? || e.description.Some?
  }

  /** What `onSubmit` receives: the typed values, untrimmed. */
  datatype CreateTaskDto = CreateTaskDto(title: string, description: string)

  /** The error map `handleSubmit` builds: a field gets its message exactly
      when it is blank, i.e. empty after `trim()`. */
  function Validate(title: string, description: string): (e: FormErrors)
    ensures e.title == (if Blank(title) then Some(TitleRequired) else None)
    ensures e.description == (if Blank(description) then Some(DescriptionRequired) else None)
  {
    TrimEmptyIffBlank(title);
    TrimEmptyIffBlank(description);
    FormErrors(
      if Trim(title) == "" then Some(TitleRequired) else None,
      if Trim(description) == "" then Some(DescriptionRequired) else None)
  }

  /** The form lets a pair through exactly when neither field is blank. */
  lemma AcceptedIffBothFilled(title: string, description: string)
    ensures !HasErrors(Validate(title, description)) <==> !Blank(title) && !Blank(description)
  {
  }

  /** A comparison of two guards: the form's blank check is stricter than the
      title guard of the file-backed POST route, and the title " " separates
      them. (The form's submissions do not go to that route.) */
  lemma FormIsStricterThanBackend(title: string, description: string)
    ensures !HasErrors(Validate(title, description)) ==> Tasks.TitleAccepted(JsValues.JStr(title))
    ensures Tasks.TitleAccepted(JsValues.JStr(" ")) && HasErrors(Validate(" ", description))
  {
    assert Blank([]);
    assert IsWhitespace(" "[0]);
  }

  class TaskForm {
    var title: string
    var description: string
    var errors: FormErrors
    /** The calls made to the parent's `onSubmit`, oldest first. */
    var submitted: seq<CreateTaskDto>

    /** A freshly mounted form: both fields empty, no errors, nothing sent. */
    constructor ()
      ensures title == "" && description == "" && errors == NoErrors && submitted == []
    {
      title, description, errors, submitted := "", "", NoErrors, [];
    }

    /** The title input's change handler. */
    method EditTitle(value: string)
      modifies this
      ensures title == value
      ensures description == old(description) && errors == old(errors) && submitted == old(submitted)
    {
      title := value;
    }

    /** The description textarea's change handler. */
    method EditDescription(value: string)
      modifies this
      ensures description == value
      ensures title == old(title) && errors == old(errors) && submitted == old(submitted)
    {
      description := value;
    }

    /** `handleSubmit`. With a blank field it records the errors and stops,
        leaving the typed values and calling nothing. Otherwise it clears the
        errors, calls `onSubmit` once with the values as typed, and, when that
        promise resolves (`submitResolves`), empties both fields; a rejected
        promise skips the reset. */
    method HandleSubmit(submitResolves: bool)
      modifies this
      ensures HasErrors(Validate(old(title), old(description))) ==>
        errors == Validate(old(title), old(description)) &&
        title == old(title) && description == old(description) && submitted == old(submitted)
      ensures !HasErrors(Validate(old(title), old(description))) ==>
        errors == NoErrors &&
        submitted == old(submitted) + [CreateTaskDto(old(title), old(description))] &&
        (submitResolves ==> title == "" && description == "") &&
        (!submitResolves ==> title == old(title) && description == old(description))
    {
      var newErrors := Validate(title, description);
      if HasErrors(newErrors) {
        errors := newErrors;
        return;
      }
      errors := NoErrors;
      submitted := submitted + [CreateTaskDto(title, description)];
      if !submitResolves {
        return;
      }
      title := "";
      description := "";
    }
  }
}
