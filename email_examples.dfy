/** Concrete strings the email format rule accepts and rejects, each proved from
    the rule as transcribed. Acceptance is shown by naming the `@` the expression
    splits at; rejection by the deterministic check, which cuts at the last `@`. */
module EmailExamples {
  import opened JsText
  import opened EmailPattern
  import opened EmailScan
  import opened EmailFacts

  // ---------------------------------------------------------------------------
  // Building accepted strings from their parts

  lemma SplitOf(l: string, d: string)
    requires LocalPart(l) && Domain(d)
    ensures ValidEmail(l + "@" + d)
  {
    var s := l + "@" + d;
    assert s[..|l|] == l && s[|l| + 1..] == d;
    assert IsSplit(s, |l|);
  }

  lemma DigitGroupsCons(g: string, rest: string, n: nat)
    requires n > 1 && DigitGroup(g) && DigitGroups(rest, n - 1)
    ensures DigitGroups(g + "." + rest, n)
  {
    var s := g + "." + rest;
    assert s[..|g|] == g && s[|g| + 1..] == rest;
  }

  lemma AddressLiteralOf(q: string)
    requires DigitGroups(q, 4)
    ensures IPv4Literal("[" + q + "]")
  {
    var s := "[" + q + "]";
    assert s[1..|s| - 1] == q;
  }

  /** The four groups `a.b.c.d`. */
  lemma FourGroups(a: string, b: string, c: string, d: string)
    requires DigitGroup(a) && DigitGroup(b) && DigitGroup(c) && DigitGroup(d)
    ensures DigitGroups(a + "." + (b + "." + (c + "." + d)), 4)
  {
    DigitGroupsCons(c, d, 2);
    DigitGroupsCons(b, c + "." + d, 3);
    DigitGroupsCons(a, b + "." + (c + "." + d), 4);
  }

  // ---------------------------------------------------------------------------
  // Accepted

  /** A local part, `@` at `i`, a label, a dot at `j`, and the top label make an
      address. */
  lemma LocalAndHost(s: string, i: nat, j: nat)
    requires i < j < |s| && s[i] == '@' && s[j] == '.'
    requires LocalPart(s[..i]) && Run(s[i + 1..j], IsLabelChar) && TopLabel(s[j + 1..])
    ensures ValidEmail(s)
  {
    var d := s[i + 1..];
    assert d[..j - i - 1] == s[i + 1..j] && d[j - i..] == s[j + 1..];
    assert Hostname(d);
    assert IsSplit(s, i);
  }

  /** The same with an unquoted local part. */
  lemma HostEmailAt(s: string, i: nat, j: nat)
    requires i < j < |s| && s[i] == '@' && s[j] == '.'
    requires Run(s[..i], IsAtomChar) && Run(s[i + 1..j], IsLabelChar) && TopLabel(s[j + 1..])
    ensures ValidEmail(s)
  {
    assert DotAtom(s[..i]);
    LocalAndHost(s, i, j);
  }

  /** The same with a quoted local part. */
  lemma QuotedHostEmailAt(s: string, i: nat, j: nat)
    requires i < j < |s| && s[i] == '@' && s[j] == '.'
    requires QuotedLocal(s[..i]) && Run(s[i + 1..j], IsLabelChar) && TopLabel(s[j + 1..])
    ensures ValidEmail(s)
  {
    LocalAndHost(s, i, j);
  }

  /** `+` is not among the excluded characters of an unquoted local part. */
  lemma AcceptsPlusInLocalPart()
    ensures ValidEmail("a+b@b.co")
  {
    HostEmailAt("a+b@b.co", 3, 5);
  }

  lemma AcceptsPlainAddress()
    ensures ValidEmail("a@b.co")
  {
    HostEmailAt("a@b.co", 1, 3);
  }

  /** Letters on both sides of the `@`: the common form of an address. */
  lemma AcceptsWordAddress()
    ensures ValidEmail("user@example.com")
  {
    WordAddressParts();
    HostEmailOf("user", "example", "com");
    WordAddressText();
  }

  /** The atom, the label and the top label of `user@example.com`. */
  lemma WordAddressParts()
    ensures Run("user", IsAtomChar) && Run("example", IsLabelChar) && TopLabel("com")
  {
  }

  /** An atom, `@`, a label, a dot and a top label make an address. */
  lemma HostEmailOf(l: string, h: string, t: string)
    requires Run(l, IsAtomChar) && Run(h, IsLabelChar) && TopLabel(t)
    ensures ValidEmail(l + "@" + (h + "." + t))
  {
    var s := l + "@" + (h + "." + t);
    assert s[..|l|] == l && s[|l| + 1..|l| + 1 + |h|] == h && s[|l| + 2 + |h|..] == t;
    HostEmailAt(s, |l|, |l| + 1 + |h|);
  }

  lemma WordAddressText()
    ensures "user@example.com" == "user" + "@" + ("example" + "." + "com")
  {
  }

  /** A label may start and end with `-`. */
  lemma AcceptsHyphenEdgedLabel()
    ensures ValidEmail("a@-x-.co")
  {
    HostEmailAt("a@-x-.co", 1, 5);
  }

  /** Exactly one character before the opening quote, and text between the quotes. */
  lemma AcceptsQuotedLocalPart()
    ensures ValidEmail("x\"ab\"@b.co")
  {
    QuotedHostEmailAt("x\"ab\"@b.co", 5, 7);
  }

  /** A dot-atom local part and four digit groups in brackets make an address. */
  lemma AddressLiteralEmail(l: string, a: string, b: string, c: string, d: string)
    requires Run(l, IsAtomChar)
    requires DigitGroup(a) && DigitGroup(b) && DigitGroup(c) && DigitGroup(d)
    ensures ValidEmail(l + "@" + ("[" + (a + "." + (b + "." + (c + "." + d))) + "]"))
  {
    FourGroups(a, b, c, d);
    AddressLiteralOf(a + "." + (b + "." + (c + "." + d)));
    assert DotAtom(l);
    SplitOf(l, "[" + (a + "." + (b + "." + (c + "." + d))) + "]");
  }

  lemma AddressLiteralText()
    ensures "a@[192.168.0.1]" == "a" + "@" + ("[" + ("192" + "." + ("168" + "." + ("0" + "." + "1"))) + "]")
  {
  }

  lemma OutOfRangeLiteralText()
    ensures "a@[999.0.0.1]" == "a" + "@" + ("[" + ("999" + "." + ("0" + "." + ("0" + "." + "1"))) + "]")
  {
  }

  /** Four groups of digits in brackets: the address literal. */
  lemma AcceptsAddressLiteral()
    ensures ValidEmail("a@[192.168.0.1]")
  {
    assert Run("a", IsAtomChar);
    AddressLiteralEmail("a", "192", "168", "0", "1");
    AddressLiteralText();
  }

  /** The numbers of an address literal are not range-checked. */
  lemma AcceptsOutOfRangeAddressLiteral()
    ensures ValidEmail("a@[999.0.0.1]")
  {
    assert Run("a", IsAtomChar);
    AddressLiteralEmail("a", "999", "0", "0", "1");
    OutOfRangeLiteralText();
  }

  // ---------------------------------------------------------------------------
  // Rejected

  /** Cut at the last `@`, which is at `k`. */
  lemma RejectIfPartsFail(s: string, k: nat)
    requires k < |s| && s[k] == '@' && forall m :: k < m < |s| ==> s[m] != '@'
    requires !(DotSeparated(s[..k], IsAtomChar) || QuotedLocal(s[..k]))
             || !(IPv4Check(s[k + 1..]) || HostnameCheck(s[k + 1..]))
    ensures !ValidEmail(s)
  {
    LastIndexOfIs(s, '@', k);
    CheckEmailCorrect(s);
  }

  lemma RejectsLeadingDot()
    ensures !ValidEmail(".a@b.co")
  {
    RejectIfPartsFail(".a@b.co", 2);
  }

  lemma RejectsTrailingDotInLocalPart()
    ensures !ValidEmail("a.@b.co")
  {
    RejectIfPartsFail("a.@b.co", 2);
  }

  lemma RejectsDoubleDot()
    ensures !ValidEmail("a..b@b.co")
  {
    var s := "a..b@b.co";
    assert !NotDoubleDotAt(s[..4], 1);
    RejectIfPartsFail(s, 4);
  }

  lemma RejectsSpaceInUnquotedLocalPart()
    ensures !ValidEmail("a b@b.co")
  {
    var s := "a b@b.co";
    assert s[..3][1] == ' ' && !IsAtomChar(' ');
    RejectIfPartsFail(s, 3);
  }

  /** The quoted form needs one character in front of the opening quote. */
  lemma RejectsQuotedWithoutLeadingCharacter()
    ensures !ValidEmail("\"ab\"@b.co")
  {
    var s := "\"ab\"@b.co";
    assert !IsAtomChar(s[..4][0]);
    RejectIfPartsFail(s, 4);
  }

  /** The quoted form needs at least one character between the quotes. */
  lemma RejectsEmptyQuotes()
    ensures !ValidEmail("x\"\"@b.co")
  {
    var s := "x\"\"@b.co";
    assert !IsAtomChar(s[..3][1]);
    RejectIfPartsFail(s, 3);
  }

  /** A host name needs a dot. */
  lemma RejectsSingleLabelHost()
    ensures !ValidEmail("a@localhost")
  {
    var s := "a@localhost";
    var d := s[2..];
    assert LastIndexOf(d, '.') == -1;
    RejectIfPartsFail(s, 1);
  }

  /** The top label needs two letters. */
  lemma RejectsOneLetterTopLabel()
    ensures !ValidEmail("a@b.c")
  {
    var s := "a@b.c";
    var d := s[2..];
    LastIndexOfIs(d, '.', 1);
    RejectIfPartsFail(s, 1);
  }

  /** The top label is letters only. */
  lemma RejectsDigitInTopLabel()
    ensures !ValidEmail("a@b.c1")
  {
    var s := "a@b.c1";
    var d := s[2..];
    LastIndexOfIs(d, '.', 1);
    assert d[2..][1] == '1';
    RejectIfPartsFail(s, 1);
  }

  /** With more than one group, the first dot is within the first four characters. */
  lemma DigitGroupsFirstDot(q: string, n: nat)
    requires DigitGroups(q, n) && n > 1 && |q| > 3
    ensures q[1] == '.' || q[2] == '.' || q[3] == '.'
  {
    var k :| 0 < k < |q| && q[k] == '.' && DigitGroup(q[..k]);
    assert k <= 3;
  }

  /** The first group of an address literal ends within three digits of `[`. */
  lemma FirstGroupShort(d: string)
    requires IPv4Literal(d) && |d| > 5
    ensures d[2] == '.' || d[3] == '.' || d[4] == '.'
  {
    var q := d[1..|d| - 1];
    DigitGroupsFirstDot(q, 4);
    assert q[1] == d[2] && q[2] == d[3] && q[3] == d[4];
  }

  /** A domain that opens with `[` can only be the address literal. */
  lemma DomainOpeningBracket(d: string)
    requires Domain(d) && |d| > 0 && d[0] == '['
    ensures IPv4Literal(d)
  {
    if Hostname(d) {
      HostnameChars(d);
    }
  }

  /** Whatever the expression accepts, the text after the last `@` is a domain. */
  lemma DomainAfterLastAt(s: string, k: nat)
    requires k < |s| && s[k] == '@' && forall m :: k < m < |s| ==> s[m] != '@'
    requires ValidEmail(s)
    ensures Domain(s[k + 1..])
  {
    var i :| 0 <= i < |s| && IsSplit(s, i);
    SplitAtLastAt(s, i, k);
  }

  /** The address literal is at least `[0.0.0.0]` long. */
  lemma RejectsShortLiteral(s: string, k: nat)
    requires k + 1 < |s| && s[k] == '@' && forall m :: k < m < |s| ==> s[m] != '@'
    requires s[k + 1] == '[' && |s| - (k + 1) < 9
    ensures !ValidEmail(s)
  {
    if ValidEmail(s) {
      DomainAfterLastAt(s, k);
      var d := s[k + 1..];
      DomainOpeningBracket(d);
    }
  }

  /** A text with no dot at indices 2 to 4 (the second to fourth characters after a
      leading `[`) is not an address literal: its first group would be too long. */
  lemma LongFirstGroupNotLiteral(d: string)
    requires |d| > 5 && d[2] != '.' && d[3] != '.' && d[4] != '.'
    ensures !IPv4Literal(d)
  {
    if IPv4Literal(d) {
      FirstGroupShort(d);
    }
  }

  /** The first number of an address literal has at most three digits. */
  lemma RejectsLongFirstGroup(s: string, k: nat)
    requires k + 6 < |s| && s[k] == '@' && forall m :: k < m < |s| ==> s[m] != '@'
    requires s[k + 1] == '[' && s[k + 3] != '.' && s[k + 4] != '.' && s[k + 5] != '.'
    ensures !ValidEmail(s)
  {
    if ValidEmail(s) {
      DomainAfterLastAt(s, k);
      var d := s[k + 1..];
      DomainOpeningBracket(d);
      assert d[2] == s[k + 3] && d[3] == s[k + 4] && d[4] == s[k + 5];
      LongFirstGroupNotLiteral(d);
    }
  }

  /** An address literal needs four groups. */
  lemma RejectsThreeGroupLiteral()
    ensures !ValidEmail("a@[1.2.3]")
  {
    RejectsShortLiteral("a@[1.2.3]", 1);
  }

  /** A group of an address literal has at most three digits. */
  lemma RejectsFourDigitGroup()
    ensures !ValidEmail("a@[1234.0.0.1]")
  {
    RejectsLongFirstGroup("a@[1234.0.0.1]", 1);
  }

  /** No `@` at all. */
  lemma RejectsMissingAt()
    ensures !ValidEmail("not-an-email")
  {
    assert '@' !in "not-an-email";
    RejectsWithoutAt("not-an-email");
  }

  /** A string without `@` is rejected. */
  lemma RejectsWithoutAt(s: string)
    requires '@' !in s
    ensures !ValidEmail(s)
  {
    if ValidEmail(s) {
      AcceptedHasAt(s);
    }
  }

  /** The expression is anchored: nothing may follow the top label. */
  lemma RejectsTrailingPunctuation()
    ensures !ValidEmail("a@b.co!")
  {
    assert "a@b.co!" == "a@b.co" + ['!'];
    RejectsTrailingCharacter("a@b.co", '!');
  }

  /** One white-space character in front of a string that is otherwise trimmed is
      all that `trim` removes. */
  lemma TrimOneLeading(s: string)
    requires |s| > 1 && IsWhiteSpace(s[0]) && IsTrimmed(s[1..])
    ensures Trim(s) == s[1..]
  {
    assert TrimStart(s) == TrimStart(s[1..]);
    TrimFixesExactlyTrimmed(s[1..]);
    assert TrimStart(s[1..]) == s[1..];
  }

  /** One character, the quotes, and text between them: the character may be white
      space. */
  lemma AcceptsWhiteSpaceBeforeQuote()
    ensures ValidEmail(" \"ab\"@b.co")
  {
    QuotedHostEmailAt(" \"ab\"@b.co", 5, 7);
  }

  /** Trimming removes the space in front of the quoted local part. */
  lemma TrimsWhiteSpaceBeforeQuote()
    ensures Trim(" \"ab\"@b.co") == "\"ab\"@b.co"
  {
    var s := " \"ab\"@b.co";
    assert s[1..] == "\"ab\"@b.co";
    assert IsTrimmed(s[1..]);
    TrimOneLeading(s);
  }

  /** A quoted local part that begins with white space matches the expression, but
      trimming takes that white space away and what is left does not match. */
  lemma TrimmingCanRejectQuotedForm()
    ensures ValidEmail(" \"ab\"@b.co")
    ensures !ValidEmail(Trim(" \"ab\"@b.co"))
  {
    AcceptsWhiteSpaceBeforeQuote();
    TrimsWhiteSpaceBeforeQuote();
    RejectsQuotedWithoutLeadingCharacter();
  }
}
