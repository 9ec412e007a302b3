/** What the email format rule promises about every string it accepts: where the
    address may split, where `@` and white space may stand, what its first and last
    characters are (the anchoring), and how it relates to trimming. */
module EmailFacts {
  import opened JsText
  import opened EmailPattern
  import opened EmailScan

  /** Every character of an unquoted local part is an atom character or a dot, and
      it neither starts nor ends with a dot. */
  lemma DotAtomChars(l: string)
    requires DotAtom(l)
    ensures |l| > 0 && IsAtomChar(l[0]) && l[|l| - 1] != '.'
    ensures forall m :: 0 <= m < |l| ==> IsAtomChar(l[m]) || l[m] == '.'
  {
    RunsIff(l, IsAtomChar);
  }

  /** The expression can split a string at one `@` only: the last one. */
  lemma SplitUnique(s: string, i: int, j: int)
    requires IsSplit(s, i) && IsSplit(s, j)
    ensures i == j
  {
    SplitIsLastAt(s, i);
    SplitIsLastAt(s, j);
  }

  /** The split is at whichever `@` has no other `@` after it. */
  lemma SplitAtLastAt(s: string, i: int, k: int)
    requires IsSplit(s, i)
    requires 0 <= k < |s| && s[k] == '@' && forall m :: k < m < |s| ==> s[m] != '@'
    ensures i == k
  {
    AfterSplit(s, i);
  }

  /** With an unquoted local part the accepted string holds exactly one `@`. */
  lemma UnquotedHasOneAt(s: string, i: int)
    requires IsSplit(s, i) && DotAtom(s[..i])
    ensures forall j :: 0 <= j < |s| && s[j] == '@' ==> j == i
  {
    SplitIsLastAt(s, i);
    BeforeSplitUnquoted(s, i);
  }

  /** What `DomainChars` says, read on the whole string: after the split every
      character is a domain character, and the last is a letter or `]`. */
  lemma AfterSplit(s: string, i: int)
    requires 0 <= i < |s| && Domain(s[i + 1..])
    ensures forall m :: i < m < |s| ==> IsDomainChar(s[m])
    ensures IsAsciiLetter(s[|s| - 1]) || s[|s| - 1] == ']'
  {
    var d := s[i + 1..];
    DomainChars(d);
    assert forall m :: i < m < |s| ==> s[m] == d[m - i - 1];
  }

  /** Before the split of an unquoted local part every character is an atom
      character or a dot. */
  lemma BeforeSplitUnquoted(s: string, i: int)
    requires 0 <= i <= |s| && DotAtom(s[..i])
    ensures forall m :: 0 <= m < i ==> IsAtomChar(s[m]) || s[m] == '.'
  {
    DotAtomChars(s[..i]);
    assert forall m :: 0 <= m < i ==> s[m] == s[..i][m];
  }

  /** White space in a local part makes it the quoted form, and stands either
      first or between the quotes. */
  lemma WhiteSpaceInLocalPart(l: string, j: int)
    requires LocalPart(l) && 0 <= j < |l| && IsWhiteSpace(l[j])
    ensures QuotedLocal(l)
    ensures j == 0 || 2 <= j < |l| - 1
  {
    if DotAtom(l) {
      DotAtomChars(l);
      assert false;
    }
  }

  /** White space can only stand in the quoted local form: as the one character
      before the opening quote, or between the quotes. */
  lemma WhiteSpaceOnlyInQuotedLocal(s: string, i: int, j: int)
    requires IsSplit(s, i)
    requires 0 <= j < |s| && IsWhiteSpace(s[j])
    ensures QuotedLocal(s[..i])
    ensures j == 0 || 2 <= j < i - 1
  {
    NoWhiteSpaceInDomain(s, i);
    assert s[..i][j] == s[j];
    WhiteSpaceInLocalPart(s[..i], j);
  }

  /** After the split, and at the `@` itself, there is no white space. */
  lemma NoWhiteSpaceInDomain(s: string, i: int)
    requires 0 <= i < |s| && s[i] == '@' && Domain(s[i + 1..])
    ensures forall m :: i <= m < |s| ==> !IsWhiteSpace(s[m])
  {
    AfterSplit(s, i);
    forall m | i < m < |s|
      ensures !IsWhiteSpace(s[m])
    {
      DomainCharIsNotWhiteSpace(s[m]);
    }
  }

  /** No character of a domain is white space. */
  lemma DomainCharIsNotWhiteSpace(c: char)
    requires IsDomainChar(c)
    ensures !IsWhiteSpace(c)
  {
  }

  /** Every accepted string holds an `@`. */
  lemma AcceptedHasAt(s: string)
    requires ValidEmail(s)
    ensures '@' in s
  {
    var i :| 0 <= i < |s| && IsSplit(s, i);
    assert s[i] == '@';
  }

  /** Anchoring at the end: an accepted string ends with a letter (the top label)
      or with `]` (the address literal). */
  lemma AcceptedEnd(s: string)
    requires ValidEmail(s)
    ensures IsAsciiLetter(s[|s| - 1]) || s[|s| - 1] == ']'
  {
    var i :| 0 <= i < |s| && IsSplit(s, i);
    AfterSplit(s, i);
  }

  /** Anchoring at the start: an accepted string starts with an atom character, or
      with one code unit followed by the opening quote. */
  lemma AcceptedStart(s: string)
    requires ValidEmail(s)
    ensures IsAtomChar(s[0]) || (|s| > 1 && IsSingleUnit(s[0]) && s[1] == '"')
  {
    var i :| 0 <= i < |s| && IsSplit(s, i);
    var l := s[..i];
    if DotAtom(l) {
      DotAtomChars(l);
    }
    assert s[0] == l[0];
  }

  /** Appending a character that is neither a letter nor `]` to any string gives a
      string the expression rejects. */
  lemma RejectsTrailingCharacter(s: string, c: char)
    requires !IsAsciiLetter(c) && c != ']'
    ensures !ValidEmail(s + [c])
  {
    if ValidEmail(s + [c]) {
      AcceptedEnd(s + [c]);
    }
  }

  /** A character that is not an atom character cannot be put in front of a
      string unless a double quote follows it. */
  lemma RejectsLeadingCharacter(c: char, s: string)
    requires !IsAtomChar(c) && (|s| == 0 || s[0] != '"')
    ensures !ValidEmail([c] + s)
  {
    if ValidEmail([c] + s) {
      AcceptedStart([c] + s);
    }
  }

  /** An accepted string that does not start with white space is already trimmed,
      so trimming it first changes nothing. */
  lemma AcceptedIsTrimmed(s: string)
    requires ValidEmail(s) && !IsWhiteSpace(s[0])
    ensures Trim(s) == s
  {
    AcceptedEnd(s);
    TrimFixesExactlyTrimmed(s);
  }
}
