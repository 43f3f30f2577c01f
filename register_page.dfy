/**
 * The registration form (frontend/src/pages/Register.jsx): the password-strength meter, its
 * label and colour, the per-field checks run when a field loses focus, and the checks run
 * before the form is sent.  The request itself is a parameter: its outcome is passed in.
 */
module RegisterPage {
  import opened Options
  import opened Text
  import UserModel
  import AuthController

  const MinPasswordLength := 6
  const StrongLength := 10
  const MaxStrength := 4

  /** `/[a-z]/.test(v)` */
  predicate HasLower(v: string) { exists i :: 0 <= i < |v| && IsLower(v[i]) }
  /** `/[A-Z]/.test(v)` */
  predicate HasUpper(v: string) { exists i :: 0 <= i < |v| && IsUpper(v[i]) }
  /** `/\d/.test(v)` */
  predicate HasDigit(v: string) { exists i :: 0 <= i < |v| && IsDigit(v[i]) }
  /** `/[^a-zA-Z\d]/.test(v)` */
  predicate HasSymbol(v: string) { exists i :: 0 <= i < |v| && !IsLower(v[i]) && !IsUpper(v[i]) && !IsDigit(v[i]) }

  function Point(b: bool): nat { if b then 1 else 0 }

  /** The five criteria, one point each, with the total capped at four. */
  function StrengthScore(v: string): (n: nat)
    ensures n <= MaxStrength
  {
    var points := Point(|v| >= MinPasswordLength) + Point(|v| >= StrongLength)
      + Point(HasLower(v) && HasUpper(v)) + Point(HasDigit(v)) + Point(HasSymbol(v));
    if points < MaxStrength then points else MaxStrength
  }

  /** The password branch of `handleChange`: a counter raised by one test after another. */
  method PasswordStrength(value: string) returns (strength: nat)
    ensures strength == StrengthScore(value)
  {
    strength := 0;
    if |value| >= MinPasswordLength { strength := strength + 1; }
    if |value| >= StrongLength { strength := strength + 1; }
    if HasLower(value) && HasUpper(value) { strength := strength + 1; }
    if HasDigit(value) { strength := strength + 1; }
    if HasSymbol(value) { strength := strength + 1; }
    if strength > MaxStrength { strength := MaxStrength; }
  }

  /** Typing one more character never lowers the strength: every criterion only gains. */
  lemma StrengthMonotone(v: string, c: char)
    ensures StrengthScore(v) <= StrengthScore(v + [c])
  {
    var w := v + [c];
    assert forall i :: 0 <= i < |v| ==> w[i] == v[i];
    if HasLower(v) { var i :| 0 <= i < |v| && IsLower(v[i]); assert IsLower(w[i]); }
    if HasUpper(v) { var i :| 0 <= i < |v| && IsUpper(v[i]); assert IsUpper(w[i]); }
    if HasDigit(v) { var i :| 0 <= i < |v| && IsDigit(v[i]); assert IsDigit(w[i]); }
    if HasSymbol(v) {
      var i :| 0 <= i < |v| && !IsLower(v[i]) && !IsUpper(v[i]) && !IsDigit(v[i]);
      assert !IsLower(w[i]) && !IsUpper(w[i]) && !IsDigit(w[i]);
    }
  }

  /** Without the length points the character classes give at most three: "Strong" needs six characters. */
  lemma StrongIsLongEnough(v: string)
    requires StrengthScore(v) == MaxStrength
    ensures |v| >= MinPasswordLength
  {
  }

  /** An empty password scores nothing, and a ten-character password of mixed classes scores the maximum. */
  lemma StrengthExamples()
    ensures StrengthScore("") == 0
    ensures StrengthScore("Abcdefgh12") == MaxStrength
  {
    var s := "Abcdefgh12";
    assert IsUpper(s[0]) && IsLower(s[1]) && IsDigit(s[8]);
  }

  /** `getPasswordStrengthText`. */
  function StrengthLabel(n: nat): (text: string)
    ensures text == "" <==> n == 0
    ensures text == "Weak" <==> 1 <= n <= 2
    ensures text == "Good" <==> n == 3
    ensures text == "Strong" <==> n >= 4
  {
    if n == 0 then "" else if n <= 2 then "Weak" else if n == 3 then "Good" else "Strong"
  }

  /** `getPasswordStrengthColor`: grey, red, yellow or green, on the same thresholds as the label. */
  function StrengthColor(n: nat): (color: string)
    ensures color == "bg-gray-300 dark:bg-gray-600" <==> StrengthLabel(n) == ""
    ensures color == "bg-red-500 dark:bg-red-400" <==> StrengthLabel(n) == "Weak"
    ensures color == "bg-yellow-500 dark:bg-yellow-400" <==> StrengthLabel(n) == "Good"
    ensures color == "bg-green-500 dark:bg-green-400" <==> StrengthLabel(n) == "Strong"
  {
    if n == 0 then "bg-gray-300 dark:bg-gray-600"
    else if n <= 2 then "bg-red-500 dark:bg-red-400"
    else if n == 3 then "bg-yellow-500 dark:bg-yellow-400"
    else "bg-green-500 dark:bg-green-400"
  }

  datatype Field = Username | Email | Password

  const Fields: set<Field> := {Username, Email, Password}

  lemma EveryField(f: Field)
    ensures f in Fields
  {
  }

  /** The input's `name` attribute. */
  function FieldName(f: Field): (name: string)
    ensures name != [] && IsLower(name[0])
  {
    match f
    case Username => "username"
    case Email => "email"
    case Password => "password"
  }

  /**
   * `^[^\s@]+@[^\s@]+\.[^\s@]+$`: no white space, exactly one `@` with something before it,
   * and a `.` after it with something between the two and something after it.
   */
  predicate ClientEmailPattern(s: string) {
    && NoSpace(s)
    && exists i, j :: 1 <= i && i + 2 <= j && j + 2 <= |s| && s[i] == '@' && s[j] == '.' &&
         forall k :: 0 <= k < |s| && k != i ==> s[k] != '@'
  }

  /** `handleBlur`'s checks, in order; `None` leaves the field's error as it was. */
  function BlurError(f: Field, value: string): (e: Option<string>)
    ensures IsBlank(value) ==> e == Some(Capitalize(FieldName(f)) + " is required")
    ensures !IsBlank(value) && f == Email ==>
      (e.None? <==> ClientEmailPattern(value)) && (e.Some? ==> e.value == "Please enter a valid email")
    ensures !IsBlank(value) && f == Password ==>
      (e.None? <==> |value| >= MinPasswordLength) && (e.Some? ==> e.value == "Password must be at least 6 characters")
    ensures !IsBlank(value) && f == Username ==> e.None?
  {
    if Trim(value) == [] then Some(Capitalize(FieldName(f)) + " is required")
    else if f == Email && !ClientEmailPattern(value) then Some("Please enter a valid email")
    else if f == Password && |value| < MinPasswordLength then Some("Password must be at least 6 characters")
    else None
  }

  /** The required-field message names the field with a capital letter: "Email is required". */
  lemma RequiredMessage()
    ensures BlurError(Email, " ") == Some("Email is required")
  {
    assert IsSpace(" "[0]);
    assert Trim(" ") == [];
    assert UpperChar('e') == 'E';
    CapitalizedName("email", "Email");
    assert FieldName(Email) == "email";
    assert Capitalize("email") + " is required" == "Email is required";
  }

  /** `handleSubmit`'s checks: no trimming, so blank but non-empty values get through. */
  function SubmitError(username: string, email: string, password: string): (e: Option<string>)
    ensures e.None? <==> username != [] && email != [] && password != [] && |password| >= MinPasswordLength
    ensures username == [] || email == [] || password == [] ==> e == Some("All fields are required")
    ensures username != [] && email != [] && password != [] && |password| < MinPasswordLength ==>
      e == Some("Password must be at least 6 characters")
  {
    if username == [] || email == [] || password == [] then Some("All fields are required")
    else if |password| < MinPasswordLength then Some("Password must be at least 6 characters")
    else None
  }

  /** What the form lets through is exactly what passes the server's first two checks in `register`. */
  lemma SubmitMatchesServerChecks(username: string, email: string, password: string)
    ensures SubmitError(username, email, password).None? <==>
      && !(AuthController.Falsy(Some(username)) || AuthController.Falsy(Some(email)) || AuthController.Falsy(Some(password)))
      && |password| >= AuthController.MinPasswordLength
  {
  }

  /** An address the form accepts on blur also passes the user schema's e-mail check once normalised. */
  lemma ClientEmailPassesSchema(value: string)
    requires ClientEmailPattern(value)
    ensures UserModel.EmailPattern(UserModel.NormalEmail(value))
  {
    UserModel.NormalOfUnspaced(value);
    LowerKeepsEmailShape(value);
  }

  /** Lower-casing keeps the `@`, the `.` and the absence of white space the schema looks for. */
  lemma LowerKeepsEmailShape(value: string)
    requires ClientEmailPattern(value)
    ensures UserModel.EmailPattern(Lower(value))
  {
    var r := Lower(value);
    var i, j :| 1 <= i && i + 2 <= j && j + 2 <= |value| && value[i] == '@' && value[j] == '.'
      && forall k :: 0 <= k < |value| && k != i ==> value[k] != '@';
    LowerKeepsMarks(value, i);
    LowerKeepsMarks(value, j);
    forall k | 0 <= k < |r| ensures !IsSpace(r[k]) {
      LowerKeepsMarks(value, k);
    }
  }

  /** How `register(formData)` ended. */
  datatype Outcome = Registered | Refused(message: Option<string>) | Threw

  class RegisterForm {
    var formData: map<Field, string>
    var fieldErrors: map<Field, string>
    var touched: map<Field, bool>
    var passwordStrength: nat
    var error: string

    /** Every field has a value, an error line and a touched flag, and the meter follows the password. */
    ghost predicate Valid()
      reads this
    {
      && formData.Keys == Fields && fieldErrors.Keys == Fields && touched.Keys == Fields
      && passwordStrength == StrengthScore(formData[Password])
    }

    constructor ()
      ensures Valid()
      ensures forall f :: f in Fields ==> formData[f] == [] && fieldErrors[f] == [] && !touched[f]
      ensures error == []
    {
      formData := map[Username := [], Email := [], Password := []];
      fieldErrors := map[Username := [], Email := [], Password := []];
      touched := map[Username := false, Email := false, Password := false];
      passwordStrength := 0;
      error := [];
    }

    /** `handleChange`: the value is stored, the field's error cleared, and the meter recomputed for the password. */
    method Change(f: Field, value: string)
      requires Valid()
      modifies this
      ensures Valid()
      ensures formData == old(formData)[f := value]
      ensures fieldErrors == old(fieldErrors)[f := []]
      ensures touched == old(touched) && error == old(error)
      ensures f != Password ==> passwordStrength == old(passwordStrength)
    {
      EveryField(f);
      formData := formData[f := value];
      if fieldErrors[f] != [] {
        fieldErrors := fieldErrors[f := []];
      }
      if f == Password {
        passwordStrength := PasswordStrength(value);
      }
    }

    /** `handleBlur`: the field is marked touched and its error set when a check fails. */
    method Blur(f: Field)
      requires Valid()
      modifies this
      ensures Valid()
      ensures touched == old(touched)[f := true]
      ensures formData == old(formData) && error == old(error) && passwordStrength == old(passwordStrength)
      ensures var e := BlurError(f, old(formData)[f]);
        fieldErrors == if e.Some? then old(fieldErrors)[f := e.value] else old(fieldErrors)
    {
      EveryField(f);
      var e := BlurError(f, formData[f]);
      touched := touched[f := true];
      fieldErrors := if e.Some? then fieldErrors[f := e.value] else fieldErrors;
    }

    /**
     * `handleSubmit`: the request goes out only when the checks pass; a registered user is
     * sent on to create a profile, a refusal shows the server's message or a default.
     */
    method Submit(outcome: Outcome) returns (sent: bool, navigated: bool)
      requires Valid()
      modifies this
      ensures Valid()
      ensures formData == old(formData) && fieldErrors == old(fieldErrors) && touched == old(touched)
      ensures passwordStrength == old(passwordStrength)
      ensures var e := SubmitError(formData[Username], formData[Email], formData[Password]);
        && (sent <==> e.None?)
        && (e.Some? ==> error == e.value)
      ensures navigated <==> sent && outcome == Registered
      ensures sent && outcome == Registered ==> error == []
      ensures sent && outcome.Refused? ==>
        error == if outcome.message.Some? && outcome.message.value != [] then outcome.message.value else "Registration failed"
      ensures sent && outcome == Threw ==> error == "An error occurred. Please try again."
    {
      error := [];
      sent, navigated := false, false;
      var username, email, password := formData[Username], formData[Email], formData[Password];
      if username == [] || email == [] || password == [] {
        error := "All fields are required";
        return;
      }
      if |password| < MinPasswordLength {
        error := "Password must be at least 6 characters";
        return;
      }
      sent := true;
      match outcome
      case Registered =>
        navigated := true;
      case Refused(message) =>
        error := if message.Some? && message.value != [] then message.value else "Registration failed";
      case Threw =>
        error := "An error occurred. Please try again.";
    }
  }
}
