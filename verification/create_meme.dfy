/**
 * The create-meme form component (src/components/CreateMeme.jsx): its field
 * values and error messages, the validator, the request it submits and the
 * reset after a successful submission.
 */
module CreateMeme {
  import opened Memes
  import opened Text
  import Store

  const TitleRequired := "Title is required"
  const TagsRequired := "At least one tag is required"

  /**
   * The error map `validateForm` builds: one message per required field whose
   * value trims to nothing, and no other key.
   */
  function ValidationErrors(form: FormData): (errors: map<Field, string>)
    ensures errors.Keys <= {Title, Tags}
    ensures Title in errors <==> Trim(form.title) == []
    ensures Tags in errors <==> Trim(form.tags) == []
    ensures Title in errors ==> errors[Title] == TitleRequired
    ensures Tags in errors ==> errors[Tags] == TagsRequired
  {
    var withTitle: map<Field, string> := if Trim(form.title) == [] then map[Title := TitleRequired] else map[];
    if Trim(form.tags) == [] then withTitle[Tags := TagsRequired] else withTitle
  }

  /** The form passes validation exactly when neither required field is blank. */
  lemma ValidationPassesIffFilled(form: FormData)
    ensures ValidationErrors(form) == map[] <==> !Blank(form.title) && !Blank(form.tags)
  {
    TrimEmptyIffBlank(form.title);
    TrimEmptyIffBlank(form.tags);
    if Blank(form.title) {
      assert Title in ValidationErrors(form);
    }
    if Blank(form.tags) {
      assert Tags in ValidationErrors(form);
    }
  }

  /**
   * The request `handleSubmit` sends: the title as typed, the image URL as
   * typed or else the placeholder, and the parsed tags.
   */
  function BuildRequest(form: FormData, placeholder: string): (req: CreateRequest)
    ensures req.title == form.title
    ensures req.imageUrl == if form.imageUrl != [] then form.imageUrl else placeholder
    ensures placeholder != [] ==> req.imageUrl != []
    ensures req.tags == ParseTags(form.tags)
    ensures forall t | t in req.tags :: t != [] && Trim(t) == t && ',' !in t
  {
    ParseTagsWellFormed(form.tags);
    CreateRequest(form.title, if form.imageUrl != [] then form.imageUrl else placeholder, ParseTags(form.tags))
  }

  /**
   * This form and the inline form of the app send the same request, except
   * that only this one fills a missing image URL with the placeholder.
   */
  lemma BuildRequestMatchesApp(form: FormData, placeholder: string)
    ensures BuildRequest(form, placeholder) == Store.AppCreateRequest(form).(imageUrl := BuildRequest(form, placeholder).imageUrl)
    ensures form.imageUrl != [] ==> BuildRequest(form, placeholder) == Store.AppCreateRequest(form)
  {
  }

  /**
   * A tags field of a single comma is not blank, so the form is accepted,
   * yet the request carries no tag at all.
   */
  lemma CommaTagsPassWithoutTags(title: string, placeholder: string)
    requires !Blank(title)
    ensures ValidationErrors(FormData(title, "", ",")) == map[]
    ensures BuildRequest(FormData(title, "", ","), placeholder).tags == []
  {
    CommaIsNotBlankButHasNoTags();
    TrimEmptyIffBlank(",");
    ValidationPassesIffFilled(FormData(title, "", ","));
  }

  /** `{ ...errors, [field]: '' }` when that field shows an error; the key stays, emptied. */
  function ErrorCleared(errors: map<Field, string>, field: Field): (r: map<Field, string>)
    ensures r.Keys == errors.Keys
    ensures field in r ==> r[field] == []
    ensures forall g | g in errors && g != field :: r[g] == errors[g]
  {
    if field in errors && errors[field] != [] then errors[field := []] else errors
  }

  /** The component's state: `formData` and `errors`. */
  class CreateMemeForm {
    var formData: FormData
    var errors: map<Field, string>

    constructor()
      ensures formData == EmptyForm && errors == map[]
    {
      formData := EmptyForm;
      errors := map[];
    }

    /** `validateForm`: records the error map and reports whether it is empty. */
    method ValidateForm() returns (valid: bool)
      modifies this`errors
      ensures errors == ValidationErrors(formData)
      ensures valid <==> !Blank(formData.title) && !Blank(formData.tags)
    {
      var newErrors: map<Field, string> := map[];
      if Trim(formData.title) == [] {
        newErrors := newErrors[Title := TitleRequired];
      }
      if Trim(formData.tags) == [] {
        newErrors := newErrors[Tags := TagsRequired];
      }
      errors := newErrors;
      valid := |newErrors.Keys| == 0;
      ValidationPassesIffFilled(formData);
      assert valid <==> newErrors == map[] by {
        if newErrors != map[] {
          var k :| k in newErrors;
          assert k in newErrors.Keys;
        }
      }
    }

    /**
     * `handleSubmit`. `success` stands for the awaited result of
     * `onCreateMeme`; the callback is called only when validation passes,
     * which is when `request` is present, and then receives `request`.
     * The fields and errors are reset only when it reports success.
     */
    method HandleSubmit(placeholder: string, success: bool) returns (request: Option<CreateRequest>)
      modifies this`formData, this`errors
      ensures request.None? <==> Blank(old(formData).title) || Blank(old(formData).tags)
      ensures request.Some? ==> request.value == BuildRequest(old(formData), placeholder)
      ensures formData == if request.Some? && success then EmptyForm else old(formData)
      ensures errors == if request.Some? && success then map[] else ValidationErrors(old(formData))
    {
      var valid := ValidateForm();
      if !valid {
        return None;
      }
      request := Some(BuildRequest(formData, placeholder));
      if success {
        formData := EmptyForm;
        errors := map[];
      }
    }

    /** `handleInputChange`: sets one field and empties that field's error if it shows one. */
    method HandleInputChange(field: Field, value: string)
      modifies this`formData, this`errors
      ensures formData == WithField(old(formData), field, value)
      ensures errors == ErrorCleared(old(errors), field)
    {
      formData := WithField(formData, field, value);
      if field in errors && errors[field] != [] {
        errors := errors[field := []];
      }
    }
  }
}
