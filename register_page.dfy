/**
 * The sign-up form (frontend/src/pages/RegisterPage.jsx): field edits, the
 * client-side validator and the payload it sends.
 */
module RegisterPage {
  import opened Wrappers
  import opened Text
  import AuthRoute

  datatype Field = Name | Email | Password | ConfirmPassword

  datatype RegisterForm = RegisterForm(name: string, email: string, password: string, confirmPassword: string)

  /** The field of the form with the given name. */
  function Get(form: RegisterForm, f: Field): string {
    match f
    case Name => form.name
    case Email => form.email
    case Password => form.password
    case ConfirmPassword => form.confirmPassword
  }

  const NameRequired := "Имя обязательно"
  const NameTooShort := "Имя должно содержать минимум 2 символа"
  const EmailRequired := "Email обязателен"
  const EmailInvalid := "Некорректный email адрес"
  const PasswordRequired := "Пароль обязателен"
  const PasswordTooShort := "Пароль должен содержать минимум 6 символов"
  const ConfirmRequired := "Подтверждение пароля обязательно"
  const Mismatch := "Пароли не совпадают"

  /** `s[a..b]` is a non-empty run of non-space characters (`\S+`). */
  predicate NonSpaceRun(s: string, a: int, b: int) {
    0 <= a < b <= |s| && forall k :: a <= k < b ==> !IsSpace(s[k])
  }

  /** `s[a..i]`, `s[i+1..j]` and `s[j+1..b]` are non-space runs, with `@` at `i` and `.` at `j`. */
  predicate EmailAt(s: string, a: int, i: int, j: int, b: int) {
    && NonSpaceRun(s, a, i) && i < |s| && s[i] == '@'
    && NonSpaceRun(s, i + 1, j) && j < |s| && s[j] == '.'
    && NonSpaceRun(s, j + 1, b)
  }

  /** `/\S+@\S+\.\S+/.test(s)`: some infix is a non-space run, `@`, a non-space run, `.`, a non-space run. */
  predicate LooksLikeEmail(s: string) {
    exists a, i, j, b | 0 <= a < i < j < b <= |s| :: EmailAt(s, a, i, j, b)
  }

  /** Space-free parts joined as `local@domain.tld` pass the pattern. */
  lemma JoinedAddressLooksLikeEmail(local: string, domain: string, tld: string)
    requires local != [] && domain != [] && tld != []
    requires forall k :: 0 <= k < |local| ==> !IsSpace(local[k])
    requires forall k :: 0 <= k < |domain| ==> !IsSpace(domain[k])
    requires forall k :: 0 <= k < |tld| ==> !IsSpace(tld[k])
    ensures LooksLikeEmail(local + "@" + domain + "." + tld)
  {
    var s := local + "@" + domain + "." + tld;
    var i := |local|;
    var j := i + 1 + |domain|;
    assert s[i] == '@' && s[j] == '.';
    assert !IsSpace('@') && !IsSpace('.');
    assert NonSpaceRun(s, 0, i) by {
      forall k | 0 <= k < i ensures !IsSpace(s[k]) { assert s[k] == local[k]; }
    }
    assert NonSpaceRun(s, i + 1, j) by {
      forall k | i + 1 <= k < j ensures !IsSpace(s[k]) { assert s[k] == domain[k - i - 1]; }
    }
    assert NonSpaceRun(s, j + 1, |s|) by {
      forall k | j + 1 <= k < |s| ensures !IsSpace(s[k]) { assert s[k] == tld[k - j - 1]; }
    }
    assert EmailAt(s, 0, i, j, |s|);
  }

  /** The pattern is unanchored: surrounding text, even white space, does not stop a match. */
  lemma PatternIsUnanchored(prefix: string, s: string, suffix: string)
    requires LooksLikeEmail(s)
    ensures LooksLikeEmail(prefix + s + suffix)
  {
    var a, i, j, b :| 0 <= a < i < j < b <= |s| && EmailAt(s, a, i, j, b);
    var t := prefix + s + suffix;
    var d := |prefix|;
    assert forall k :: 0 <= k < |s| ==> t[d + k] == s[k];
    RunShifted(s, t, d, a, i);
    RunShifted(s, t, d, i + 1, j);
    RunShifted(s, t, d, j + 1, b);
    assert EmailAt(t, d + a, d + i, d + j, d + b);
  }

  /** A run of `s` stays a run once `s` is copied into `t` at offset `d`. */
  lemma RunShifted(s: string, t: string, d: nat, lo: int, hi: int)
    requires NonSpaceRun(s, lo, hi) && d + |s| <= |t|
    requires forall k :: 0 <= k < |s| ==> t[d + k] == s[k]
    ensures NonSpaceRun(t, d + lo, d + hi)
  {
    forall k | d + lo <= k < d + hi ensures !IsSpace(t[k]) {
      assert t[k] == s[k - d];
    }
  }

  /** Without an `@` there is no match. */
  lemma NoAtNoMatch(s: string)
    requires forall k :: 0 <= k < |s| ==> s[k] != '@'
    ensures !LooksLikeEmail(s)
  {
    forall a, i, j, b | 0 <= a < i < j < b <= |s| ensures !EmailAt(s, a, i, j, b) {
      assert s[i] != '@';
    }
  }

  /** The message for one field, `None` when it passes. */
  function FieldError(form: RegisterForm, f: Field): Option<string> {
    match f
    case Name =>
      if IsBlank(form.name) then Some(NameRequired)
      else if |Trim(form.name)| < 2 then Some(NameTooShort) else None
    case Email =>
      if IsBlank(form.email) then Some(EmailRequired)
      else if !LooksLikeEmail(form.email) then Some(EmailInvalid) else None
    case Password =>
      if form.password == [] then Some(PasswordRequired)
      else if |form.password| < 6 then Some(PasswordTooShort) else None
    case ConfirmPassword =>
      if form.confirmPassword == [] then Some(ConfirmRequired)
      else if form.password != form.confirmPassword then Some(Mismatch) else None
  }

  /** What the validator demands, stated field by field. */
  predicate Acceptable(form: RegisterForm) {
    && |Trim(form.name)| >= 2
    && !IsBlank(form.email) && LooksLikeEmail(form.email)
    && |form.password| >= 6
    && form.confirmPassword == form.password
  }

  /** `errors` with the field's message recorded, when it has one. */
  function Recorded(errors: map<Field, string>, form: RegisterForm, f: Field): map<Field, string> {
    if FieldError(form, f).Some? then errors[f := FieldError(form, f).value] else errors
  }

  /** One block of `validateForm`: the field's checks, in order, setting its key at most once. */
  method CheckField(form: RegisterForm, f: Field, errors: map<Field, string>) returns (r: map<Field, string>)
    ensures r == Recorded(errors, form, f)
  {
    r := errors;
    match f
    case Name =>
      if IsBlank(form.name) {
        r := r[Name := NameRequired];
      } else if |Trim(form.name)| < 2 {
        r := r[Name := NameTooShort];
      }
    case Email =>
      if IsBlank(form.email) {
        r := r[Email := EmailRequired];
      } else if !LooksLikeEmail(form.email) {
        r := r[Email := EmailInvalid];
      }
    case Password =>
      if form.password == [] {
        r := r[Password := PasswordRequired];
      } else if |form.password| < 6 {
        r := r[Password := PasswordTooShort];
      }
    case ConfirmPassword =>
      if form.confirmPassword == [] {
        r := r[ConfirmPassword := ConfirmRequired];
      } else if form.password != form.confirmPassword {
        r := r[ConfirmPassword := Mismatch];
      }
  }

  /**
   * `validateForm`: the `errors` object, filled one field at a time. The
   * form is valid when no key was set.
   */
  method ValidateForm(form: RegisterForm) returns (errors: map<Field, string>, valid: bool)
    ensures forall f :: Lookup(errors, f) == FieldError(form, f)
    ensures valid <==> errors == map[]
  {
    errors := map[];
    errors := CheckField(form, Name, errors);
    var e1 := errors;
    errors := CheckField(form, Email, errors);
    var e2 := errors;
    errors := CheckField(form, Password, errors);
    var e3 := errors;
    errors := CheckField(form, ConfirmPassword, errors);
    assert Lookup(e1, Name) == FieldError(form, Name) && e1.Keys <= {Name};
    assert Lookup(e2, Name) == FieldError(form, Name) && Lookup(e2, Email) == FieldError(form, Email);
    assert e2.Keys <= {Name, Email};
    assert Lookup(e3, Name) == FieldError(form, Name) && Lookup(e3, Email) == FieldError(form, Email);
    assert Lookup(e3, Password) == FieldError(form, Password) && e3.Keys <= {Name, Email, Password};
    forall f ensures Lookup(errors, f) == FieldError(form, f) {
      match f
      case Name =>
      case Email =>
      case Password =>
      case ConfirmPassword =>
    }
    valid := |errors.Keys| == 0;
    assert valid <==> errors == map[] by {
      if |errors.Keys| == 0 { assert errors.Keys == {}; }
    }
  }

  /**
   * No field has an error exactly when the form is acceptable; the name is
   * measured trimmed, the password raw.
   */
  lemma NoErrorsIffAcceptable(form: RegisterForm)
    ensures (forall f :: FieldError(form, f).None?) <==> Acceptable(form)
  {
    if Acceptable(form) {
      assert !IsBlank(form.name);
      assert form.password != [] && form.confirmPassword != [];
    } else if IsBlank(form.email) {
      assert FieldError(form, Email).Some?;
    } else if !LooksLikeEmail(form.email) {
      assert FieldError(form, Email).Some?;
    } else if |Trim(form.name)| < 2 {
      assert FieldError(form, Name).Some?;
    } else if |form.password| < 6 {
      assert FieldError(form, Password).Some?;
    } else {
      assert FieldError(form, ConfirmPassword).Some?;
    }
  }

  /** `handleChange`: the field takes the value, and a set error on that field is cleared. */
  function Change(form: RegisterForm, errors: map<Field, string>, f: Field, value: string)
    : (r: (RegisterForm, map<Field, string>))
    ensures Get(r.0, f) == value
    ensures forall g :: g != f ==> Get(r.0, g) == Get(form, g)
    ensures forall g :: g != f ==> (g in r.1 <==> g in errors) && (g in errors ==> r.1[g] == errors[g])
    ensures f in errors && errors[f] != [] ==> f in r.1 && r.1[f] == []
    ensures !(f in errors && errors[f] != []) ==> r.1 == errors
  {
    var form' := match f
      case Name => form.(name := value)
      case Email => form.(email := value)
      case Password => form.(password := value)
      case ConfirmPassword => form.(confirmPassword := value);
    var errors' := if f in errors && errors[f] != [] then errors[f := ""] else errors;
    (form', errors')
  }

  /** `{ name, email, password }` as `register` receives it. */
  datatype RegisterPayload = RegisterPayload(name: string, email: string, password: string)

  /** `handleSubmit`: nothing is sent for an invalid form; otherwise name and email are trimmed, the password is not. */
  function Submit(form: RegisterForm): (r: Option<RegisterPayload>)
    ensures r.Some? <==> Acceptable(form)
    ensures r.Some? ==> r.value == RegisterPayload(Trim(form.name), Trim(form.email), form.password)
  {
    NoErrorsIffAcceptable(form);
    if forall f :: FieldError(form, f).None? then Some(RegisterPayload(Trim(form.name), Trim(form.email), form.password))
    else None
  }

  /** What the form sends passes the server's name and password checks; only the email check is the server's own. */
  lemma SubmittedPassesServerChecks(form: RegisterForm, isEmail: string -> bool)
    requires Submit(form).Some?
    ensures var p := Submit(form).value;
      AuthRoute.RegisterErrors(p.name, p.email, p.password, isEmail)
        == (if isEmail(p.email) then [] else [AuthRoute.EmailMessage])
  {
    TrimIdempotent(form.name);
  }
}
