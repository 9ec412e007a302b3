/** The user schema: a record with an `email` and a `password`, both required
    strings. The `email` value is trimmed when it is assigned and must then match
    the email format rule; a value that does not is reported with a fixed message.
    The persistence framework that runs these checks before a write is not part of
    this model: `Validate` is the decision it makes for one write. */
module UserSchema {
  import opened JsText
  import opened EmailPattern
  import opened EmailFacts

  datatype Option<T> = None | Some(value: T)

  /** The values a caller assigns before a write; `None` is an absent field. */
  datatype UserInput = UserInput(email: Option<string>, password: Option<string>)

  /** A record as it is written. */
  datatype User = User(email: string, password: string)

  /** The two paths of the schema. */
  datatype Path = Email | Password

  /** Why a path failed: the `required` check, or the `validate` rule with its
      message. */
  datatype ValidatorError = Required | Invalid(message: string)

  /** The record is written, or the write is refused with one error per failing
      path. */
  datatype Outcome = Saved(user: User) | Rejected(errors: map<Path, ValidatorError>)

  /** The message of the email `validate` rule, spelling kept. */
  const InvalidEmailMessage: string := "Please enter a vaild email address"

  /** The `trim: true` option: a string assigned to `email` is stored trimmed. */
  function CastEmail(v: Option<string>): (r: Option<string>)
    ensures r.Some? <==> v.Some?
    ensures r.Some? ==> r.value == Trim(v.value)
    ensures r.Some? ==> IsTrimmed(r.value) && (v.value == r.value <==> IsTrimmed(v.value))
  {
    match v
    case None => None
    case Some(s) =>
      TrimIsSlice(s);
      TrimFixesExactlyTrimmed(s);
      Some(Trim(s))
  }

  /** The `required: true` check on a string path: the value is there and is not
      the empty string. */
  predicate Present(v: Option<string>) {
    v.Some? && |v.value| > 0
  }

  /** The error of the email path, given the stored (trimmed) value: `required`
      is checked first, then the format rule. */
  function EmailError(v: Option<string>): (r: Option<ValidatorError>)
    ensures r == None <==> v.Some? && ValidEmail(v.value)
    ensures r == Some(Required) <==> !Present(v)
    ensures r.Some? && r.value.Invalid? ==> r.value.message == InvalidEmailMessage
  {
    if !Present(v) then Some(Required)
    else if !ValidEmail(v.value) then Some(Invalid(InvalidEmailMessage))
    else None
  }

  /** The error of the password path: `required` only. */
  function PasswordError(v: Option<string>): (r: Option<ValidatorError>)
    ensures r == None <==> Present(v)
    ensures r.Some? ==> r.value == Required
  {
    if Present(v) then None else Some(Required)
  }

  /** The errors of both paths, each checked on its own. */
  function Errors(email: Option<string>, password: Option<string>): (m: map<Path, ValidatorError>)
    ensures Email in m <==> EmailError(email).Some?
    ensures Email in m ==> m[Email] == EmailError(email).value
    ensures Password in m <==> PasswordError(password).Some?
    ensures Password in m ==> m[Password] == PasswordError(password).value
  {
    var e := if EmailError(email).Some? then map[Email := EmailError(email).value] else map[];
    var p := if PasswordError(password).Some? then map[Password := PasswordError(password).value] else map[];
    e + p
  }

  /** What a write of `input` does: the email is trimmed, both paths are
      validated, and the record is written only when neither fails. */
  function Validate(input: UserInput): (o: Outcome)
    ensures o.Saved? <==>
              && input.email.Some? && ValidEmail(Trim(input.email.value))
              && input.password.Some? && |input.password.value| > 0
    ensures o.Saved? ==> o.user == User(Trim(input.email.value), input.password.value)
    ensures o.Rejected? ==> |o.errors| > 0
    ensures o.Rejected? ==>
              && (Email in o.errors <==> !(input.email.Some? && ValidEmail(Trim(input.email.value))))
              && (Password in o.errors <==> !(input.password.Some? && |input.password.value| > 0))
    ensures o.Rejected? && Email in o.errors ==>
              (o.errors[Email] == Required <==> input.email.None? || Trim(input.email.value) == "")
    ensures o.Rejected? && Email in o.errors && o.errors[Email] != Required ==>
              o.errors[Email] == Invalid(InvalidEmailMessage)
    ensures o.Rejected? && Password in o.errors ==> o.errors[Password] == Required
  {
    var email := CastEmail(input.email);
    var errors := Errors(email, input.password);
    if Email !in errors && Password !in errors then
      Saved(User(email.value, input.password.value))
    else
      assert Email in errors || Password in errors;
      Rejected(errors)
  }

  // ---------------------------------------------------------------------------
  // What every write promises

  /** Every written record has a trimmed email that matches the format rule, and a
      non-empty password. */
  lemma SavedUserIsValid(input: UserInput)
    requires Validate(input).Saved?
    ensures var u := Validate(input).user;
            && |u.email| > 0 && IsTrimmed(u.email) && ValidEmail(u.email)
            && |u.password| > 0
  {
    TrimIsSlice(input.email.value);
  }

  /** Writing a written record again writes the same record. */
  lemma RevalidateSaved(input: UserInput)
    requires Validate(input).Saved?
    ensures var u := Validate(input).user;
            Validate(UserInput(Some(u.email), Some(u.password))) == Saved(u)
  {
    TrimIdempotent(input.email.value);
  }

  /** Trimming the email beforehand changes nothing about the write. */
  lemma TrimBeforehandChangesNothing(e: string, password: Option<string>)
    ensures Validate(UserInput(Some(Trim(e)), password)) == Validate(UserInput(Some(e), password))
  {
    TrimIdempotent(e);
    var o1 := Validate(UserInput(Some(Trim(e)), password));
    var o2 := Validate(UserInput(Some(e), password));
    if o1.Rejected? && o2.Rejected? {
      assert o1.errors.Keys == o2.errors.Keys;
    }
  }

  /** An email of white space only is reported as missing, not as malformed. */
  lemma BlankEmailIsRequired(e: string, password: Option<string>)
    requires forall i :: 0 <= i < |e| ==> IsWhiteSpace(e[i])
    ensures Validate(UserInput(Some(e), password)).Rejected?
    ensures Validate(UserInput(Some(e), password)).errors[Email] == Required
  {
  }

  // ---------------------------------------------------------------------------
  // The outcome of a write, case by case

  /** A map of errors with one path in it. */
  lemma OnlyPath(m: map<Path, ValidatorError>, k: Path)
    requires (Email in m <==> k == Email) && (Password in m <==> k == Password)
    ensures m == map[k := m[k]]
  {
    assert forall j :: j in m <==> j == k;
  }

  /** A valid email (after trimming) and a non-empty password: written, with the
      trimmed email. */
  lemma SavesWhenBothPass(e: string, p: string)
    requires ValidEmail(Trim(e)) && |p| > 0
    ensures Validate(UserInput(Some(e), Some(p))) == Saved(User(Trim(e), p))
  {
  }

  /** An address that matches and does not start with white space is written
      unchanged. */
  lemma SavesAcceptedAsGiven(e: string, p: string)
    requires ValidEmail(e) && !IsWhiteSpace(e[0]) && |p| > 0
    ensures Validate(UserInput(Some(e), Some(p))) == Saved(User(e, p))
  {
    AcceptedIsTrimmed(e);
    SavesWhenBothPass(e, p);
  }

  /** A non-blank email that does not match, and a non-empty password: refused on
      the email path only, with the message. */
  lemma RejectsOnlyEmailFormat(e: string, p: string)
    requires Trim(e) != "" && !ValidEmail(Trim(e)) && |p| > 0
    ensures Validate(UserInput(Some(e), Some(p))) == Rejected(map[Email := Invalid(InvalidEmailMessage)])
  {
    var o := Validate(UserInput(Some(e), Some(p)));
    assert o.Rejected? && Email in o.errors && Password !in o.errors;
    OnlyPath(o.errors, Email);
  }

  /** A missing or blank email and a non-empty password: refused on the email path
      only, as missing. */
  lemma RejectsOnlyEmailMissing(e: Option<string>, p: string)
    requires e.None? || Trim(e.value) == ""
    requires |p| > 0
    ensures Validate(UserInput(e, Some(p))) == Rejected(map[Email := Required])
  {
    var o := Validate(UserInput(e, Some(p)));
    assert o.Rejected? && Email in o.errors && Password !in o.errors;
    OnlyPath(o.errors, Email);
  }

  /** A valid email and a missing or empty password: refused on the password path
      only, as missing. */
  lemma RejectsOnlyPasswordMissing(e: string, p: Option<string>)
    requires ValidEmail(Trim(e))
    requires !Present(p)
    ensures Validate(UserInput(Some(e), p)) == Rejected(map[Password := Required])
  {
    var o := Validate(UserInput(Some(e), p));
    assert o.Rejected? && Email !in o.errors && Password in o.errors;
    OnlyPath(o.errors, Password);
  }
}
