/** The email format rule of the user schema: the anchored regular expression the
    `validator` of the `email` field matches its value against, transcribed part by
    part into predicates over the string. The expression has no flags, so `^` and `$`
    anchor the whole string (a full match) and every class is case-sensitive.

      ^( ([^<>()[\]\\.,;:\s@"]+(\.[^<>()[\]\\.,;:\s@"]+)*) | .(".+") )
       @( (\[[0-9]{1,3}\.[0-9]{1,3}\.[0-9]{1,3}\.[0-9]{1,3}\]) | (([a-zA-Z\-0-9]+\.)+[a-zA-Z]{2,}) )$

    A backtracking matcher tries every way of splitting the string, so each
    concatenation below is an existential over the split point. */
module EmailPattern {
  import opened JsText

  // ---------------------------------------------------------------------------
  // Character classes

  /** `[^<>()[\]\\.,;:\s@"]`: anything but these thirteen characters and `\s`. */
  predicate IsAtomChar(c: char) {
    c !in "<>()[]\\.,;:@\"" && !IsWhiteSpace(c)
  }

  /** `[0-9]` */
  predicate IsDigit(c: char) {
    '0' <= c <= '9'
  }

  /** `[a-zA-Z]` */
  predicate IsAsciiLetter(c: char) {
    'a' <= c <= 'z' || 'A' <= c <= 'Z'
  }

  /** `[a-zA-Z\-0-9]` */
  predicate IsLabelChar(c: char) {
    IsAsciiLetter(c) || c == '-' || IsDigit(c)
  }

  /** The `.` that stands alone before the opening quote. Without the `u` flag it
      matches exactly one UTF-16 code unit that is not a line terminator, so a
      character outside the Basic Multilingual Plane (two code units) cannot
      stand there. */
  predicate IsSingleUnit(c: char) {
    !IsLineTerminator(c) && c as int < 0x1_0000
  }

  // ---------------------------------------------------------------------------
  // Repetition

  /** `P+`: one or more characters of class `P`. */
  predicate Run(s: string, P: char -> bool) {
    |s| > 0 && forall i :: 0 <= i < |s| ==> P(s[i])
  }

  /** `P+(\.P+)*`: one or more runs of class `P`, separated by single dots. */
  predicate Runs(s: string, P: char -> bool)
    decreases |s|
  {
    || Run(s, P)
    || exists k :: 0 < k < |s| && s[k] == '.' && Run(s[..k], P) && Runs(s[k + 1..], P)
  }

  // ---------------------------------------------------------------------------
  // Local part

  /** Alternative (a): `[^<>()[\]\\.,;:\s@"]+(\.[^<>()[\]\\.,;:\s@"]+)*` */
  predicate DotAtom(s: string) {
    Runs(s, IsAtomChar)
  }

  /** Alternative (b): `.(".+")`, one character, then a double quote, one or more
      characters that are not line terminators, and a closing double quote. */
  predicate QuotedLocal(s: string) {
    && |s| >= 4
    && IsSingleUnit(s[0])
    && s[1] == '"'
    && s[|s| - 1] == '"'
    && forall i :: 2 <= i < |s| - 1 ==> !IsLineTerminator(s[i])
  }

  predicate LocalPart(s: string) {
    DotAtom(s) || QuotedLocal(s)
  }

  // ---------------------------------------------------------------------------
  // Domain

  /** `[0-9]{1,3}` */
  predicate DigitGroup(s: string) {
    1 <= |s| <= 3 && forall i :: 0 <= i < |s| ==> IsDigit(s[i])
  }

  /** `n` digit groups separated by single dots; `n == 4` is
      `[0-9]{1,3}\.[0-9]{1,3}\.[0-9]{1,3}\.[0-9]{1,3}`. */
  predicate DigitGroups(s: string, n: nat)
    decreases n
  {
    if n <= 1 then n == 1 && DigitGroup(s)
    else exists k :: 0 < k < |s| && s[k] == '.' && DigitGroup(s[..k]) && DigitGroups(s[k + 1..], n - 1)
  }

  /** `\[[0-9]{1,3}\.[0-9]{1,3}\.[0-9]{1,3}\.[0-9]{1,3}\]`: no check of the range
      of each number. */
  predicate IPv4Literal(s: string) {
    |s| >= 2 && s[0] == '[' && s[|s| - 1] == ']' && DigitGroups(s[1..|s| - 1], 4)
  }

  /** `[a-zA-Z]{2,}` */
  predicate TopLabel(s: string) {
    |s| >= 2 && forall i :: 0 <= i < |s| ==> IsAsciiLetter(s[i])
  }

  /** `([a-zA-Z\-0-9]+\.)+[a-zA-Z]{2,}`: one label and a dot, then either the top
      label or, recursively, more labels and dots. */
  predicate Hostname(s: string)
    decreases |s|
  {
    exists k :: 0 < k < |s| && s[k] == '.' && Run(s[..k], IsLabelChar)
      && (TopLabel(s[k + 1..]) || Hostname(s[k + 1..]))
  }

  predicate Domain(s: string) {
    IPv4Literal(s) || Hostname(s)
  }

  // ---------------------------------------------------------------------------
  // The whole expression

  /** The `@` at position `i` splits the value into a local part and a domain. */
  predicate IsSplit(s: string, i: int) {
    0 <= i < |s| && s[i] == '@' && LocalPart(s[..i]) && Domain(s[i + 1..])
  }

  /** The value matches the anchored expression: some `@` splits it into a local
      part and a domain. The split is existential because the quoted local form
      may itself contain `@`. */
  predicate ValidEmail(s: string) {
    exists i :: 0 <= i < |s| && IsSplit(s, i)
  }
}
