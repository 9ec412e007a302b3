/** Writes of the user schema on concrete values: a valid record is written with
    its email trimmed, and each kind of failure is reported on its path. Each write
    is settled by a lemma of `UserSchema` once the facts about the concrete email
    are established on their own. */
module UserScenarios {
  import opened JsText
  import opened EmailPattern
  import opened EmailFacts
  import opened EmailExamples
  import opened UserSchema

  /** The record is written with `t` as its email, when `t` is what trimming
      leaves of `e` and matches. */
  lemma SavesAs(e: string, t: string, p: string)
    requires Trim(e) == t && ValidEmail(t) && |p| > 0
    ensures Validate(UserInput(Some(e), Some(p))) == Saved(User(t, p))
  {
    SavesWhenBothPass(e, p);
  }

  /** Trimming leaves `not-an-email` as it is. */
  lemma MalformedAddressUntrimmed()
    ensures Trim("not-an-email") == "not-an-email"
  {
    assert IsTrimmed("not-an-email");
    TrimFixesExactlyTrimmed("not-an-email");
  }

  /** `not-an-email` is not blank after trimming, and does not match. */
  lemma MalformedAddress()
    ensures Trim("not-an-email") != "" && !ValidEmail(Trim("not-an-email"))
  {
    MalformedAddressUntrimmed();
    RejectsMissingAt();
  }

  /** Trimming leaves `user@example.com` as it is. */
  lemma ExampleAddressUntrimmed()
    ensures Trim("user@example.com") == "user@example.com"
  {
    assert IsTrimmed("user@example.com");
    TrimFixesExactlyTrimmed("user@example.com");
  }

  /** `user@example.com` matches after trimming. */
  lemma ExampleAddress()
    ensures ValidEmail(Trim("user@example.com"))
  {
    ExampleAddressUntrimmed();
    AcceptsWordAddress();
  }

  /** Trimming leaves `a@[192.168.0.1]` as it is. */
  lemma LiteralAddressUntrimmed()
    ensures Trim("a@[192.168.0.1]") == "a@[192.168.0.1]"
  {
    assert IsTrimmed("a@[192.168.0.1]");
    TrimFixesExactlyTrimmed("a@[192.168.0.1]");
  }

  /** Trimming `"  a@b.co  "` leaves `"a@b.co"`. */
  lemma TrimsPaddedAddress()
    ensures Trim("  a@b.co  ") == "a@b.co"
  {
    assert "  a@b.co  " == "  " + "a@b.co" + "  ";
    assert IsTrimmed("a@b.co");
    TrimSurrounded("  ", "a@b.co", "  ");
  }

  /** A plain address and a password: the record is written as given. */
  lemma SavesValidRecord()
    ensures Validate(UserInput(Some("user@example.com"), Some("secret")))
            == Saved(User("user@example.com", "secret"))
  {
    ExampleAddressUntrimmed();
    AcceptsWordAddress();
    SavesAs("user@example.com", "user@example.com", "secret");
  }

  /** A malformed email: refused on the email path, with the message. */
  lemma RejectsMalformedEmail()
    ensures Validate(UserInput(Some("not-an-email"), Some("secret")))
            == Rejected(map[Email := Invalid("Please enter a vaild email address")])
  {
    MalformedAddress();
    RejectsOnlyEmailFormat("not-an-email", "secret");
  }

  /** An empty email: refused as missing. */
  lemma RejectsEmptyEmail()
    ensures Validate(UserInput(Some(""), Some("secret"))) == Rejected(map[Email := Required])
  {
    RejectsOnlyEmailMissing(Some(""), "secret");
  }

  /** An empty password: refused as missing. */
  lemma RejectsEmptyPassword()
    ensures Validate(UserInput(Some("user@example.com"), Some(""))) == Rejected(map[Password := Required])
  {
    ExampleAddress();
    RejectsOnlyPasswordMissing("user@example.com", Some(""));
  }

  /** An address literal: the record is written. */
  lemma SavesAddressLiteral()
    ensures Validate(UserInput(Some("a@[192.168.0.1]"), Some("x"))) == Saved(User("a@[192.168.0.1]", "x"))
  {
    LiteralAddressUntrimmed();
    AcceptsAddressLiteral();
    SavesAs("a@[192.168.0.1]", "a@[192.168.0.1]", "x");
  }

  /** White space around the email is removed before the check, and the record is
      written with the trimmed email. */
  lemma SavesTrimmedEmail()
    ensures Validate(UserInput(Some("  a@b.co  "), Some("secret"))) == Saved(User("a@b.co", "secret"))
  {
    TrimsPaddedAddress();
    AcceptsPlainAddress();
    SavesAs("  a@b.co  ", "a@b.co", "secret");
  }
}
