/**
 * The search form of src/components/SearchForm.jsx: three text fields, a map
 * of error messages, validation (at least one field must hold a non-space
 * character), and submission of the untrimmed fields.
 */
module SearchForm {

  import opened Wrappers
  import Text

  datatype Field = Title | Author | Genre

  /** The key of a field in the errors map. */
  function FieldKey(f: Field): string {
    match f
    case Title => "title"
    case Author => "author"
    case Genre => "genre"
  }

  const GeneralKey: string := "general"
  const GeneralMessage: string := "Please fill in at least one search field"

  /** The three fields. */
  datatype FormData = FormData(title: string, author: string, genre: string) {

    function Get(f: Field): string {
      match f
      case Title => title
      case Author => author
      case Genre => genre
    }

    /** `{ ...prev, [field]: value }`. */
    function With(f: Field, value: string): (d: FormData)
      ensures d.Get(f) == value
      ensures forall g :: g != f ==> d.Get(g) == Get(g)
    {
      match f
      case Title => this.(title := value)
      case Author => this.(author := value)
      case Genre => this.(genre := value)
    }
  }

  const EmptyForm: FormData := FormData("", "", "")

  /** `Object.values(formData).some(value => value.trim() !== "")`. */
  predicate HasAnyValue(d: FormData) {
    Text.Trim(d.title) != "" || Text.Trim(d.author) != "" || Text.Trim(d.genre) != ""
  }

  /** A form has a value exactly when some field is not blank. */
  lemma HasAnyValueIffNotBlank(d: FormData)
    ensures HasAnyValue(d) <==> exists g :: !Text.IsBlank(d.Get(g))
  {
    Text.TrimEmptyIffBlank(d.title);
    Text.TrimEmptyIffBlank(d.author);
    Text.TrimEmptyIffBlank(d.genre);
    if HasAnyValue(d) {
      if Text.Trim(d.title) != "" {
        assert !Text.IsBlank(d.Get(Title));
      } else if Text.Trim(d.author) != "" {
        assert !Text.IsBlank(d.Get(Author));
      } else {
        assert !Text.IsBlank(d.Get(Genre));
      }
    }
  }

  /** The empty form has no value; typing a non-blank value into any field
      gives one. */
  lemma TypingGivesValue(d: FormData, f: Field, v: string)
    ensures !HasAnyValue(EmptyForm)
    ensures !Text.IsBlank(v) ==> HasAnyValue(d.With(f, v))
  {
    Text.TrimEmptyIffBlank("");
    if !Text.IsBlank(v) {
      HasAnyValueIffNotBlank(d.With(f, v));
      assert !Text.IsBlank(d.With(f, v).Get(f));
    }
  }

  /** The submit button is disabled while a search runs or when every field is
      blank. */
  predicate SubmitDisabled(isLoading: bool, d: FormData) {
    isLoading || !HasAnyValue(d)
  }

  /** The form's state. */
  class SearchFormState {
    var formData: FormData
    var errors: map<string, string>

    /** Empty fields and no errors. */
    constructor ()
      ensures formData == EmptyForm && errors == map[]
    {
      formData := EmptyForm;
      errors := map[];
    }

    /** Typing into a field: only that field changes, and a set error for it
        is cleared to `""`. */
    method HandleInputChange(f: Field, value: string)
      modifies this
      ensures formData == old(formData).With(f, value)
      ensures errors == if FieldKey(f) in old(errors) && old(errors)[FieldKey(f)] != ""
                        then old(errors)[FieldKey(f) := ""] else old(errors)
    {
      formData := formData.With(f, value);
      if FieldKey(f) in errors && errors[FieldKey(f)] != "" {
        errors := errors[FieldKey(f) := ""];
      }
    }

    /** The clear button of one field: only that field is emptied; the errors
        stay. */
    method ClearField(f: Field)
      modifies this
      ensures formData == old(formData).With(f, "")
      ensures errors == old(errors)
    {
      formData := formData.With(f, "");
    }

    /** The clear-all button: every field emptied, every error removed. */
    method ClearAllFields()
      modifies this
      ensures formData == EmptyForm && errors == map[]
    {
      formData := EmptyForm;
      errors := map[];
    }

    /** `validateForm`: succeeds exactly when some field has a value; a failure
        leaves only the general error, a success no error at all. */
    method ValidateForm() returns (ok: bool)
      modifies this
      ensures ok <==> HasAnyValue(formData)
      ensures formData == old(formData)
      ensures errors == if ok then map[] else map[GeneralKey := GeneralMessage]
    {
      if !HasAnyValue(formData) {
        errors := map[GeneralKey := GeneralMessage];
        return false;
      }
      errors := map[];
      return true;
    }

    /** `handleSubmit`: the data handed to `onSearch`, if validation passed; it
        is the form exactly as typed, not trimmed. */
    method HandleSubmit() returns (submitted: Option<FormData>)
      modifies this
      ensures submitted == if HasAnyValue(old(formData)) then Some(old(formData)) else None
      ensures formData == old(formData)
      ensures errors == if submitted.Some? then map[] else map[GeneralKey := GeneralMessage]
    {
      var ok := ValidateForm();
      submitted := if ok then Some(formData) else None;
    }
  }

  /** Pressing an enabled submit button always submits: validation cannot fail
      when the button is enabled. */
  method SubmitWhenEnabled(form: SearchFormState, isLoading: bool) returns (submitted: Option<FormData>)
    requires !SubmitDisabled(isLoading, form.formData)
    modifies form
    ensures submitted == Some(old(form.formData))
    ensures form.errors == map[]
  {
    submitted := form.HandleSubmit();
  }
}
