/** The registration form (RegisterActivity.kt): four text fields and the
    rule that enables its "Confirmar Cadastro" button. */
module RegisterPage {

  /** The form's saveable state. */
  datatype Form = Form(name: string, email: string, password: string, repeatPassword: string)

  /** The form's fields, one per text box. */
  datatype Field = Name | Email | Password | RepeatPassword

  /** Every field starts as the empty string. */
  function Initial(): Form
  {
    Form("", "", "", "")
  }

  /** The text a field currently shows. */
  function Get(f: Form, field: Field): string
  {
    match field
    case Name => f.name
    case Email => f.email
    case Password => f.password
    case RepeatPassword => f.repeatPassword
  }

  /** `onValueChange` of one text box: that field takes the typed text. */
  function Edit(f: Form, field: Field, value: string): (r: Form)
    ensures Get(r, field) == value
    ensures forall other :: other != field ==> Get(r, other) == Get(f, other)
  {
    match field
    case Name => f.(name := value)
    case Email => f.(email := value)
    case Password => f.(password := value)
    case RepeatPassword => f.(repeatPassword := value)
  }

  /** `isNotEmpty` on each field and `password.equals(repeatPassword)`: the
      button is enabled exactly when no field is empty and the two passwords
      agree. */
  function ConfirmEnabled(f: Form): (enabled: bool)
    ensures enabled <==> (forall field :: Get(f, field) != "") && f.password == f.repeatPassword
  {
    assert Get(f, Name) == f.name && Get(f, Email) == f.email;
    assert Get(f, Password) == f.password && Get(f, RepeatPassword) == f.repeatPassword;
    |f.name| > 0 && |f.email| > 0 && |f.password| > 0 && |f.repeatPassword| > 0
    && f.password == f.repeatPassword
  }

  /** One empty field disables the button, whatever the others hold. */
  lemma EmptyFieldDisables(f: Form, field: Field)
    requires Get(f, field) == ""
    ensures !ConfirmEnabled(f)
  {
  }

  /** Different passwords disable the button even with every field filled. */
  lemma MismatchDisables(f: Form)
    requires f.password != f.repeatPassword
    ensures !ConfirmEnabled(f)
  {
  }

  /** The form opens with the button disabled. */
  lemma InitialDisabled()
    ensures !ConfirmEnabled(Initial())
  {
  }

  /** No trimming and no e-mail check: blanks count as filled, and any
      non-empty text is accepted as an e-mail. */
  lemma BlanksCountAsFilled()
    ensures ConfirmEnabled(Form(" ", " ", " ", " "))
    ensures ConfirmEnabled(Form("Ana", "not an e-mail", "x", "x"))
  {
  }
}
