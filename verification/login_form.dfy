/**
 The login form's state and the three handlers that change it. The form
 holds the two field values, the error message of each field and whether the
 password is shown in clear. React's `useState` setters become plain record
 updates applied one after the other; the `console.log` on a successful
 submit becomes the `proceeds` flag of the submit outcome.
 */
module LoginForm {
  import opened Credentials

  /** The two inputs, by their `name` attribute. */
  datatype Field = EmailOrUsername | Password

  function Other(f: Field): Field {
    match f
    case EmailOrUsername => Password
    case Password => EmailOrUsername
  }

  /** `errors` starts as an empty object, so a field may have no entry. */
  datatype Form = Form(
    emailOrUsername: string,
    password: string,
    errors: map<Field, string>,
    showPassword: bool)
  {
    function Value(f: Field): string {
      match f
      case EmailOrUsername => emailOrUsername
      case Password => password
    }

    /** JavaScript truthiness of `errors[f]`: an entry that is a non-empty
        string. */
    predicate HasError(f: Field) {
      f in errors && errors[f] != ""
    }
  }

  /** The state the form mounts with: empty fields, no errors, password hidden. */
  const Initial: Form := Form("", "", map[], false)

  lemma InitialShowsNothing(f: Field)
    ensures Initial.Value(f) == "" && !Initial.HasError(f) && !Initial.showPassword
  {
  }

  /** `togglePasswordVisibility`. */
  function TogglePasswordVisibility(form: Form): (next: Form)
    ensures next.showPassword == !form.showPassword
    ensures next.emailOrUsername == form.emailOrUsername && next.password == form.password
    ensures next.errors == form.errors
  {
    form.(showPassword := !form.showPassword)
  }

  lemma ToggleTwiceIsIdentity(form: Form)
    ensures TogglePasswordVisibility(TogglePasswordVisibility(form)) == form
  {
  }

  function SetValue(form: Form, f: Field, value: string): Form {
    match f
    case EmailOrUsername => form.(emailOrUsername := value)
    case Password => form.(password := value)
  }

  /** `handleInputChange`: store the typed value; if the field shows an error,
      blank that error. */
  function HandleInputChange(form: Form, f: Field, value: string): (next: Form)
    ensures next.Value(f) == value
    ensures next.Value(Other(f)) == form.Value(Other(f))
    ensures !next.HasError(f)
    ensures next.errors.Keys == form.errors.Keys
    ensures Other(f) in form.errors ==> next.errors[Other(f)] == form.errors[Other(f)]
    ensures !form.HasError(f) ==> next.errors == form.errors
    ensures next.showPassword == form.showPassword
  {
    var typed := SetValue(form, f, value);
    if form.HasError(f) then typed.(errors := form.errors[f := ""]) else typed
  }

  /** Typing the same value twice leaves the form as typing it once. */
  lemma InputChangeIdempotent(form: Form, f: Field, value: string)
    ensures var once := HandleInputChange(form, f, value);
      HandleInputChange(once, f, value) == once
  {
  }

  /** Edits to the two different fields commute. */
  lemma InputChangesCommute(form: Form, v1: string, v2: string)
    ensures HandleInputChange(HandleInputChange(form, EmailOrUsername, v1), Password, v2)
         == HandleInputChange(HandleInputChange(form, Password, v2), EmailOrUsername, v1)
  {
  }

  /** The outcome of a submit: the form with its new errors, and whether
      login proceeds. */
  datatype Submission = Submission(form: Form, proceeds: bool)

  /** `handleSubmit`: run both validators, store both messages, proceed when
      both are empty. */
  function HandleSubmit(form: Form): (s: Submission)
    ensures s.form.emailOrUsername == form.emailOrUsername && s.form.password == form.password
    ensures s.form.showPassword == form.showPassword
    ensures EmailOrUsername in s.form.errors && Password in s.form.errors
    ensures s.proceeds <==> IdentifierAcceptable(form.emailOrUsername) && PasswordAcceptable(form.password)
  {
    var identifierError := ValidateEmailOrUsername(form.emailOrUsername);
    var passwordError := ValidatePassword(form.password);
    var errors := map[EmailOrUsername := MessageText(identifierError), Password := MessageText(passwordError)];
    Submission(form.(errors := errors), identifierError == Valid && passwordError == Valid)
  }

  /** A submit stores each validator's message under its own field, replacing
      whatever was there. */
  lemma SubmitStoresBothMessages(form: Form)
    ensures var errors := HandleSubmit(form).form.errors;
      && errors[EmailOrUsername] == MessageText(ValidateEmailOrUsername(form.emailOrUsername))
      && errors[Password] == MessageText(ValidatePassword(form.password))
  {
  }

  /** After a submit a field shows an error exactly when its value is
      unacceptable, and login proceeds exactly when no error is shown. */
  lemma SubmitShowsErrorIffUnacceptable(form: Form)
    ensures var s := HandleSubmit(form);
      && (s.form.HasError(EmailOrUsername) <==> !IdentifierAcceptable(form.emailOrUsername))
      && (s.form.HasError(Password) <==> !PasswordAcceptable(form.password))
      && (s.proceeds <==> !s.form.HasError(EmailOrUsername) && !s.form.HasError(Password))
  {
  }

  /** Each stored message depends on its own field only: a submit reports
      the same password message whatever the identifier, and the other way
      round, and the errors shown before the submit play no part. */
  lemma SubmitFieldsIndependent(a: Form, b: Form)
    ensures a.password == b.password ==>
      HandleSubmit(a).form.errors[Password] == HandleSubmit(b).form.errors[Password]
    ensures a.emailOrUsername == b.emailOrUsername ==>
      HandleSubmit(a).form.errors[EmailOrUsername] == HandleSubmit(b).form.errors[EmailOrUsername]
  {
  }

  /** Submitting again without editing changes nothing. */
  lemma SubmitIdempotent(form: Form)
    ensures HandleSubmit(HandleSubmit(form).form) == HandleSubmit(form)
  {
  }

  /** After a submit (in particular a rejected one), editing a field clears
      that field's error at once, before any new validation, and keeps the
      other field's error. */
  lemma EditClearsOnlyItsError(form: Form, f: Field, value: string)
    ensures var rejected := HandleSubmit(form).form;
      var edited := HandleInputChange(rejected, f, value);
      && !edited.HasError(f)
      && (edited.HasError(Other(f)) <==> rejected.HasError(Other(f)))
  {
  }
}
