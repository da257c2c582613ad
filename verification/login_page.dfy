/** The login form (LoginActivity.kt): two text fields, the rule that enables
    the Login button, and the "Limpar" button that clears the form. */
module LoginPage {

  /** The form's saveable state. */
  datatype Form = Form(email: string, password: string)

  datatype Field = Email | Password

  /** Both fields start as the empty string. */
  function Initial(): Form
  {
    Form("", "")
  }

  /** The text a field currently shows. */
  function Get(f: Form, field: Field): string
  {
    match field
    case Email => f.email
    case Password => f.password
  }

  /** `onValueChange` of one text box: that field takes the typed text and the
      other keeps its own. */
  function Edit(f: Form, field: Field, value: string): (r: Form)
    ensures Get(r, field) == value
    ensures forall other :: other != field ==> Get(r, other) == Get(f, other)
  {
    match field
    case Email => f.(email := value)
    case Password => f.(password := value)
  }

  /** `email.isNotEmpty() && password.isNotEmpty()`: Login is enabled
      exactly when neither field is empty. */
  function LoginEnabled(f: Form): (enabled: bool)
    ensures enabled <==> forall field :: Get(f, field) != ""
  {
    assert Get(f, Email) == f.email && Get(f, Password) == f.password;
    |f.email| > 0 && |f.password| > 0
  }

  /** "Limpar": every field shows the empty string. */
  function Clear(f: Form): (r: Form)
    ensures forall field :: Get(r, field) == ""
  {
    Form("", "")
  }

  /** The form opens with Login disabled. */
  lemma InitialDisabled()
    ensures !LoginEnabled(Initial())
  {
  }

  /** Clearing returns the form to its initial state, which disables Login,
      and clearing twice is clearing once. */
  lemma ClearResets(f: Form)
    ensures Clear(f) == Initial()
    ensures !LoginEnabled(Clear(f))
    ensures Clear(Clear(f)) == Clear(f)
  {
  }
}
