/**
 The "add widget" dialog: a two-field form (title and URL, both required),
 the error messages it shows, and what a submit emits. A required field is
 invalid exactly when it is empty; a field of spaces is valid.
 */
module AddWidgetModal {
  import opened Base

  /** One form control: its value and whether the user has edited or left it. */
  datatype Field = Field(value: string, dirty: bool, touched: bool)

  datatype Form = Form(title: Field, url: Field)

  /** `formErrors`: one optional message per field. */
  datatype Errors = Errors(title: Option<string>, url: Option<string>)

  const NoErrors := Errors(None, None)
  const TitleRequired := "Title is required"
  const UrlRequired := "URL is required"

  /** `Validators.required` fails on an empty value. */
  predicate Invalid(f: Field) {
    f.value == []
  }

  predicate Valid(form: Form) {
    !Invalid(form.title) && !Invalid(form.url)
  }

  /** `updateFormErrors`: a message for each invalid field the user has edited or left. */
  function FormErrors(form: Form): (e: Errors)
    ensures e.title.Some? <==> Invalid(form.title) && (form.title.dirty || form.title.touched)
    ensures e.url.Some? <==> Invalid(form.url) && (form.url.dirty || form.url.touched)
    ensures e.title.Some? ==> e.title.value == TitleRequired
    ensures e.url.Some? ==> e.url.value == UrlRequired
  {
    Errors(
      if Invalid(form.title) && (form.title.dirty || form.title.touched) then Some(TitleRequired) else None,
      if Invalid(form.url) && (form.url.dirty || form.url.touched) then Some(UrlRequired) else None)
  }

  /** A URL counts as having a scheme when it starts with `http://` or `https://`. */
  predicate HasScheme(url: string) {
    StartsWith(url, "http://") || StartsWith(url, "https://")
  }

  /** The submit handler's completion: `https://` is put in front of a URL without a scheme. */
  function CompleteScheme(url: string): (r: string)
    ensures HasScheme(r)
    ensures HasScheme(url) ==> r == url
    ensures !HasScheme(url) ==> r == "https://" + url
  {
    if HasScheme(url) then url
    else
      var r := "https://" + url;
      assert r[..8] == "https://";
      r
  }

  /** Completing twice is completing once, and the address typed is kept as the URL's tail. */
  lemma CompleteSchemeIdempotent(url: string)
    ensures CompleteScheme(CompleteScheme(url)) == CompleteScheme(url)
    ensures CompleteScheme(url)[|CompleteScheme(url)| - |url|..] == url
  {
  }

  /** The dialog after a submit: the form, the errors shown, what was emitted, and whether it closed. */
  datatype Submitted = Submitted(form: Form, errors: Errors, emitted: Option<(string, string)>, closed: bool)

  function TouchAll(form: Form): Form {
    Form(form.title.(touched := true), form.url.(touched := true))
  }

  /**
   `onSubmit`: every field is marked touched and the errors refreshed. A valid
   form emits the title and the completed URL, closes and clears the errors; an
   invalid one emits nothing and stays open, with a message on each empty field.
   */
  function OnSubmit(form: Form): (r: Submitted)
    ensures r.form == TouchAll(form)
    ensures r.emitted.Some? <==> Valid(form)
    ensures r.closed <==> Valid(form)
    ensures Valid(form) ==> r.emitted.value == (form.title.value, CompleteScheme(form.url.value)) && r.errors == NoErrors
    ensures !Valid(form) ==>
              && (r.errors.title.Some? <==> Invalid(form.title))
              && (r.errors.url.Some? <==> Invalid(form.url))
  {
    var touched := TouchAll(form);
    var errors := FormErrors(touched);
    if Valid(touched) then Submitted(touched, NoErrors, Some((form.title.value, CompleteScheme(form.url.value))), true)
    else Submitted(touched, errors, None, false)
  }

  /** Whatever is emitted has the typed, non-empty title and the typed URL, with a scheme put in front if it lacked one. */
  lemma EmittedIsComplete(form: Form)
    requires OnSubmit(form).emitted.Some?
    ensures var e := OnSubmit(form).emitted.value;
            && e.0 == form.title.value && e.0 != []
            && HasScheme(e.1) && (e.1 == form.url.value || e.1 == "https://" + form.url.value)
  {
  }
}
