/** A deterministic reading of the email format rule: where the regular expression
    backtracks over every `@` and every dot, this check cuts the value at its last
    `@`, the domain at its last dot, and the address literal at each dot, and looks
    at each piece once. `CheckEmailCorrect` proves it accepts exactly what the
    expression matches. */
module EmailScan {
  import opened JsText
  import opened EmailPattern

  // ---------------------------------------------------------------------------
  // Searching and splitting

  /** The first position of `c` in `s`, or `|s|` when `c` does not occur. */
  function IndexOf(s: string, c: char): (r: nat)
    ensures r <= |s|
    ensures r < |s| ==> s[r] == c
    ensures forall j :: 0 <= j < r ==> s[j] != c
    decreases |s|
  {
    if |s| == 0 then 0
    else if s[0] == c then 0
    else 1 + IndexOf(s[1..], c)
  }

  /** The last position of `c` in `s`, or -1 when `c` does not occur. */
  function LastIndexOf(s: string, c: char): (r: int)
    ensures -1 <= r < |s|
    ensures 0 <= r ==> s[r] == c
    ensures forall j :: r < j < |s| ==> s[j] != c
    decreases |s|
  {
    if |s| == 0 then -1
    else if s[|s| - 1] == c then |s| - 1
    else LastIndexOf(s[..|s| - 1], c)
  }

  /** The pieces of `s` between its dots, in order (as JavaScript's `split('.')`). */
  function Fields(s: string): (r: seq<string>)
    ensures |r| >= 1
    decreases |s|
  {
    var k := IndexOf(s, '.');
    if k == |s| then [s] else [s[..k]] + Fields(s[k + 1..])
  }

  /** Cutting at the first dot: the first field, then the fields of the rest. */
  lemma FieldsAtFirstDot(s: string, k: nat)
    requires k == IndexOf(s, '.') < |s|
    ensures Fields(s) == [s[..k]] + Fields(s[k + 1..])
  {
  }

  // ---------------------------------------------------------------------------
  // Dot-separated runs, read flat

  /** Non-empty, every character of class `P` or a dot, no dot at either end and no
      two dots in a row. */
  predicate DotSeparated(s: string, P: char -> bool) {
    && |s| > 0
    && s[0] != '.'
    && s[|s| - 1] != '.'
    && (forall i :: 0 <= i < |s| ==> P(s[i]) || s[i] == '.')
    && (forall i :: 0 <= i < |s| - 1 ==> NotDoubleDotAt(s, i))
  }

  /** No dot at `i` is followed by another. */
  predicate NotDoubleDotAt(s: string, i: int)
    requires 0 <= i < |s| - 1
  {
    s[i] == '.' ==> s[i + 1] != '.'
  }

  /** A run, a dot and a flat dot-separated string make a flat dot-separated
      string. */
  lemma FlatCons(s: string, k: nat, P: char -> bool)
    requires !P('.')
    requires 0 < k < |s| && s[k] == '.' && Run(s[..k], P) && DotSeparated(s[k + 1..], P)
    ensures DotSeparated(s, P)
  {
    var t := s[k + 1..];
    assert s[0] == s[..k][0];
    assert s[|s| - 1] == t[|t| - 1];
    forall i | 0 <= i < |s|
      ensures P(s[i]) || s[i] == '.'
      ensures i < k ==> s[i] != '.'
    {
      if i < k {
        assert s[i] == s[..k][i];
      } else if i > k {
        assert s[i] == t[i - k - 1];
      }
    }
    forall i | 0 <= i < |s| - 1
      ensures NotDoubleDotAt(s, i)
    {
      if i > k {
        assert NotDoubleDotAt(t, i - k - 1);
        assert s[i] == t[i - k - 1] && s[i + 1] == t[i - k];
      } else if i == k {
        assert s[i + 1] == t[0];
      }
    }
  }

  /** What follows a dot of a flat dot-separated string is flat dot-separated. */
  lemma FlatAfterDot(s: string, k: nat, P: char -> bool)
    requires DotSeparated(s, P) && k < |s| && s[k] == '.'
    ensures DotSeparated(s[k + 1..], P)
  {
    var t := s[k + 1..];
    assert k < |s| - 1 && NotDoubleDotAt(s, k);
    assert t[0] == s[k + 1];
    assert forall i :: 0 <= i < |t| ==> t[i] == s[k + 1 + i];
    forall i | 0 <= i < |t| - 1
      ensures NotDoubleDotAt(t, i)
    {
      assert NotDoubleDotAt(s, k + 1 + i);
    }
  }

  /** What precedes the first dot of a flat dot-separated string is a run. */
  lemma FlatBeforeFirstDot(s: string, k: nat, P: char -> bool)
    requires DotSeparated(s, P) && k == IndexOf(s, '.') < |s|
    ensures 0 < k && Run(s[..k], P)
  {
    assert forall i :: 0 <= i < k ==> s[..k][i] == s[i];
  }

  lemma {:induction false} RunsToFlat(s: string, P: char -> bool)
    requires !P('.')
    requires Runs(s, P)
    ensures DotSeparated(s, P)
    decreases |s|
  {
    if !Run(s, P) {
      var k :| 0 < k < |s| && s[k] == '.' && Run(s[..k], P) && Runs(s[k + 1..], P);
      RunsToFlat(s[k + 1..], P);
      FlatCons(s, k, P);
    }
  }

  lemma {:induction false} FlatToRuns(s: string, P: char -> bool)
    requires !P('.')
    requires DotSeparated(s, P)
    ensures Runs(s, P)
    decreases |s|
  {
    var k := IndexOf(s, '.');
    if k == |s| {
      assert Run(s, P);
    } else {
      FlatBeforeFirstDot(s, k, P);
      FlatAfterDot(s, k, P);
      FlatToRuns(s[k + 1..], P);
    }
  }

  /** The regular-expression form `P+(\.P+)*` and the flat form agree, for every
      class `P` that leaves out the dot. */
  lemma RunsIff(s: string, P: char -> bool)
    requires !P('.')
    ensures Runs(s, P) <==> DotSeparated(s, P)
  {
    if Runs(s, P) { RunsToFlat(s, P); }
    if DotSeparated(s, P) { FlatToRuns(s, P); }
  }

  // ---------------------------------------------------------------------------
  // The address literal

  /** `[`, four fields of one to three digits between the dots, `]`. */
  predicate IPv4Check(s: string) {
    && |s| >= 2
    && s[0] == '['
    && s[|s| - 1] == ']'
    && DigitFields(s[1..|s| - 1], 4)
  }

  /** All `n` fields of `s` are one to three digits. */
  predicate DigitFields(s: string, n: nat) {
    |Fields(s)| == n && AllDigitGroups(Fields(s))
  }

  /** A digit group has no dot, so a dot right after one is the first dot. */
  lemma FirstDotAfterGroup(s: string, j: nat)
    requires 0 < j < |s| && s[j] == '.' && DigitGroup(s[..j])
    ensures IndexOf(s, '.') == j
  {
    forall m | 0 <= m < j
      ensures s[m] != '.'
    {
      assert IsDigit(s[..j][m]);
    }
  }

  /** A digit group is a single field. */
  lemma FieldsOfGroup(s: string)
    requires DigitGroup(s)
    ensures Fields(s) == [s]
  {
    assert IndexOf(s, '.') == |s| by {
      forall m | 0 <= m < |s|
        ensures s[m] != '.'
      {
        assert IsDigit(s[m]);
      }
    }
  }

  /** Each piece of `fs` is one to three digits. */
  predicate AllDigitGroups(fs: seq<string>) {
    forall i :: 0 <= i < |fs| ==> DigitGroup(fs[i])
  }

  lemma AllDigitGroupsCons(g: string, rest: seq<string>)
    ensures AllDigitGroups([g] + rest) <==> DigitGroup(g) && AllDigitGroups(rest)
  {
    var fs := [g] + rest;
    assert fs[0] == g;
    assert forall i :: 0 <= i < |rest| ==> fs[i + 1] == rest[i];
  }

  lemma {:induction false} DigitGroupsToFields(s: string, n: nat)
    requires DigitGroups(s, n)
    ensures DigitFields(s, n)
    decreases n
  {
    if n > 1 {
      var j :| 0 < j < |s| && s[j] == '.' && DigitGroup(s[..j]) && DigitGroups(s[j + 1..], n - 1);
      FirstDotAfterGroup(s, j);
      FieldsAtFirstDot(s, j);
      DigitGroupsToFields(s[j + 1..], n - 1);
      AllDigitGroupsCons(s[..j], Fields(s[j + 1..]));
    } else {
      FieldsOfGroup(s);
      AllDigitGroupsCons(s, []);
    }
  }

  /** A digit group, a dot at `k` and `n - 1` more groups are `n` groups. */
  lemma DigitGroupsAt(s: string, k: nat, n: nat)
    requires n > 1 && 0 < k < |s| && s[k] == '.'
    requires DigitGroup(s[..k]) && DigitGroups(s[k + 1..], n - 1)
    ensures DigitGroups(s, n)
  {
  }

  lemma {:induction false} FieldsToDigitGroups(s: string, n: nat)
    requires DigitFields(s, n)
    ensures DigitGroups(s, n)
    decreases n
  {
    var k := FirstField(s, n);
    if k < |s| {
      FieldsToDigitGroups(s[k + 1..], n - 1);
      DigitGroupsAt(s, k, n);
    }
  }

  /** Where the first of `n` digit fields ends: at the first dot, which leaves
      `n - 1` fields after it, or at the end when `n` is one. */
  lemma FirstField(s: string, n: nat) returns (k: nat)
    requires DigitFields(s, n)
    ensures k == |s| ==> n == 1 && DigitGroup(s)
    ensures k < |s| ==> && 0 < k && s[k] == '.' && n > 1
                        && DigitGroup(s[..k]) && DigitFields(s[k + 1..], n - 1)
    ensures k <= |s|
  {
    k := IndexOf(s, '.');
    if k < |s| {
      var rest := Fields(s[k + 1..]);
      FieldsAtFirstDot(s, k);
      assert Fields(s) == [s[..k]] + rest;
      AllDigitGroupsCons(s[..k], rest);
    } else {
      assert Fields(s) == [s];
      AllDigitGroupsCons(s, []);
    }
  }

  /** `n` digit groups separated by dots are exactly `n` fields that are each one
      to three digits. */
  lemma DigitGroupsIff(s: string, n: nat)
    ensures DigitGroups(s, n) <==> DigitFields(s, n)
  {
    if DigitGroups(s, n) { DigitGroupsToFields(s, n); }
    if DigitFields(s, n) { FieldsToDigitGroups(s, n); }
  }

  lemma IPv4CheckIff(s: string)
    ensures IPv4Literal(s) <==> IPv4Check(s)
  {
    if |s| >= 2 {
      DigitGroupsIff(s[1..|s| - 1], 4);
    }
  }

  // ---------------------------------------------------------------------------
  // The host name

  /** Everything before the last dot is labels separated by single dots, and
      everything after it is two or more letters. */
  predicate HostnameCheck(s: string) {
    var j := LastIndexOf(s, '.');
    0 < j && DotSeparated(s[..j], IsLabelChar) && TopLabel(s[j + 1..])
  }

  /** The last position of `c` is the one after which `c` does not occur. */
  lemma LastIndexOfIs(s: string, c: char, j: nat)
    requires j < |s| && s[j] == c
    requires forall m :: j < m < |s| ==> s[m] != c
    ensures LastIndexOf(s, c) == j
  {
  }

  /** One label, a dot and the top label. */
  lemma HostnameCheckOneLabel(s: string, k: nat)
    requires 0 < k < |s| && s[k] == '.' && Run(s[..k], IsLabelChar) && TopLabel(s[k + 1..])
    ensures HostnameCheck(s)
  {
    var t := s[k + 1..];
    forall m | k < m < |s|
      ensures s[m] != '.'
    {
      assert s[m] == t[m - k - 1];
    }
    LastIndexOfIs(s, '.', k);
    assert Runs(s[..k], IsLabelChar);
    RunsIff(s[..k], IsLabelChar);
  }

  /** One label and a dot in front of a host name that passes the check. */
  lemma HostnameCheckMoreLabels(s: string, k: nat)
    requires 0 < k < |s| && s[k] == '.' && Run(s[..k], IsLabelChar) && HostnameCheck(s[k + 1..])
    ensures HostnameCheck(s)
  {
    var t := s[k + 1..];
    var jt := LastIndexOf(t, '.');
    var j := k + 1 + jt;
    assert s[j] == t[jt];
    forall m | j < m < |s|
      ensures s[m] != '.'
    {
      assert s[m] == t[m - k - 1];
    }
    LastIndexOfIs(s, '.', j);
    RunsIff(t[..jt], IsLabelChar);
    var p := s[..j];
    assert p[..k] == s[..k];
    assert p[k + 1..] == t[..jt];
    assert Runs(p, IsLabelChar);
    RunsIff(p, IsLabelChar);
    assert s[j + 1..] == t[jt + 1..];
  }

  lemma {:induction false} HostnameToCheck(s: string)
    requires Hostname(s)
    ensures HostnameCheck(s)
    decreases |s|
  {
    var k :| 0 < k < |s| && s[k] == '.' && Run(s[..k], IsLabelChar)
      && (TopLabel(s[k + 1..]) || Hostname(s[k + 1..]));
    if TopLabel(s[k + 1..]) {
      HostnameCheckOneLabel(s, k);
    } else {
      HostnameToCheck(s[k + 1..]);
      HostnameCheckMoreLabels(s, k);
    }
  }

  lemma {:induction false} HostnameFromRuns(s: string, j: nat)
    requires 0 < j < |s| && s[j] == '.'
    requires Runs(s[..j], IsLabelChar) && TopLabel(s[j + 1..])
    ensures Hostname(s)
    decreases j
  {
    var p := s[..j];
    if !Run(p, IsLabelChar) {
      var k :| 0 < k < |p| && p[k] == '.' && Run(p[..k], IsLabelChar) && Runs(p[k + 1..], IsLabelChar);
      NestedSlices(s, j, k);
      HostnameFromRuns(s[k + 1..], j - k - 1);
      HostnameAt(s, k);
    } else {
      HostnameAt(s, j);
    }
  }

  /** Slices of `s[..j]` read as slices of `s` and of `s[k + 1..]`. */
  lemma NestedSlices(s: string, j: nat, k: nat)
    requires 0 < k < j < |s|
    ensures s[..j][k] == s[k] && s[..j][..k] == s[..k]
    ensures s[..j][k + 1..] == s[k + 1..][..j - k - 1]
    ensures s[k + 1..][j - k - 1] == s[j] && s[k + 1..][j - k..] == s[j + 1..]
  {
  }

  /** A label, a dot at `k`, and then the top label or a host name make a host
      name. */
  lemma HostnameAt(s: string, k: nat)
    requires 0 < k < |s| && s[k] == '.' && Run(s[..k], IsLabelChar)
    requires TopLabel(s[k + 1..]) || Hostname(s[k + 1..])
    ensures Hostname(s)
  {
  }

  lemma HostnameIff(s: string)
    ensures Hostname(s) <==> HostnameCheck(s)
  {
    if Hostname(s) {
      HostnameToCheck(s);
    }
    if HostnameCheck(s) {
      var j := LastIndexOf(s, '.');
      RunsIff(s[..j], IsLabelChar);
      HostnameFromRuns(s, j);
    }
  }

  // ---------------------------------------------------------------------------
  // The whole address

  /** Cut at the last `@`; the left side is a flat dot-atom or the quoted form, the
      right side an address literal or a host name. */
  predicate CheckEmail(s: string) {
    var i := LastIndexOf(s, '@');
    && 0 <= i
    && (DotSeparated(s[..i], IsAtomChar) || QuotedLocal(s[..i]))
    && (IPv4Check(s[i + 1..]) || HostnameCheck(s[i + 1..]))
  }

  /** A domain is made of letters, digits, `-`, `.`, `[` and `]` only; in
      particular it has no `@`. */
  predicate IsDomainChar(c: char) {
    IsLabelChar(c) || c == '.' || c == '[' || c == ']'
  }

  lemma {:induction false} DigitGroupsChars(s: string, n: nat)
    requires DigitGroups(s, n)
    ensures forall m :: 0 <= m < |s| ==> IsDigit(s[m]) || s[m] == '.'
    decreases n
  {
    if n > 1 {
      var k :| 0 < k < |s| && s[k] == '.' && DigitGroup(s[..k]) && DigitGroups(s[k + 1..], n - 1);
      DigitGroupsChars(s[k + 1..], n - 1);
      forall m | 0 <= m < |s|
        ensures IsDigit(s[m]) || s[m] == '.'
      {
        if m < k {
          assert s[m] == s[..k][m];
        } else if m > k {
          assert s[m] == s[k + 1..][m - k - 1];
        }
      }
    }
  }

  lemma {:induction false} HostnameChars(s: string)
    requires Hostname(s)
    ensures forall m :: 0 <= m < |s| ==> IsLabelChar(s[m]) || s[m] == '.'
    ensures IsAsciiLetter(s[|s| - 1])
    decreases |s|
  {
    var k :| 0 < k < |s| && s[k] == '.' && Run(s[..k], IsLabelChar)
      && (TopLabel(s[k + 1..]) || Hostname(s[k + 1..]));
    var t := s[k + 1..];
    if Hostname(t) {
      HostnameChars(t);
    }
    assert s[|s| - 1] == t[|t| - 1];
    forall m | 0 <= m < |s|
      ensures IsLabelChar(s[m]) || s[m] == '.'
    {
      if m < k {
        assert s[m] == s[..k][m];
      } else if m > k {
        assert s[m] == t[m - k - 1];
      }
    }
  }

  lemma DomainChars(d: string)
    requires Domain(d)
    ensures forall m :: 0 <= m < |d| ==> IsDomainChar(d[m])
    ensures IsAsciiLetter(d[|d| - 1]) || d[|d| - 1] == ']'
  {
    if IPv4Literal(d) {
      var inner := d[1..|d| - 1];
      DigitGroupsChars(inner, 4);
      forall m | 0 < m < |d| - 1
        ensures IsDomainChar(d[m])
      {
        assert d[m] == inner[m - 1];
      }
    } else {
      HostnameChars(d);
    }
  }

  /** Every split the expression can take is at the last `@`: the domain has none. */
  lemma SplitIsLastAt(s: string, i: int)
    requires 0 <= i < |s| && s[i] == '@' && Domain(s[i + 1..])
    ensures i == LastIndexOf(s, '@')
  {
    var d := s[i + 1..];
    DomainChars(d);
    forall m | i < m < |s|
      ensures s[m] != '@'
    {
      assert s[m] == d[m - i - 1];
      assert IsDomainChar(d[m - i - 1]);
    }
    LastIndexOfIs(s, '@', i);
  }

  /** The deterministic check accepts exactly the strings the anchored expression
      matches. */
  lemma CheckEmailCorrect(s: string)
    ensures CheckEmail(s) <==> ValidEmail(s)
  {
    if CheckEmail(s) {
      CheckEmailSound(s);
    }
    if ValidEmail(s) {
      var j :| 0 <= j < |s| && IsSplit(s, j);
      SplitIsLastAt(s, j);
      CheckEmailComplete(s, j);
    }
  }

  /** The check of the local part agrees with the expression's local part. */
  lemma LocalCheckIff(l: string)
    ensures (DotSeparated(l, IsAtomChar) || QuotedLocal(l)) <==> LocalPart(l)
  {
    RunsIff(l, IsAtomChar);
  }

  /** The check of the domain agrees with the expression's domain. */
  lemma DomainCheckIff(d: string)
    ensures (IPv4Check(d) || HostnameCheck(d)) <==> Domain(d)
  {
    IPv4CheckIff(d);
    HostnameIff(d);
  }

  lemma CheckEmailSound(s: string)
    requires CheckEmail(s)
    ensures IsSplit(s, LastIndexOf(s, '@'))
  {
    var i := LastIndexOf(s, '@');
    LocalCheckIff(s[..i]);
    DomainCheckIff(s[i + 1..]);
  }

  lemma CheckEmailComplete(s: string, i: int)
    requires 0 <= i == LastIndexOf(s, '@')
    requires LocalPart(s[..i]) && Domain(s[i + 1..])
    ensures CheckEmail(s)
  {
    LocalPartChecked(s[..i]);
    DomainChecked(s[i + 1..]);
  }

  lemma LocalPartChecked(l: string)
    requires LocalPart(l)
    ensures DotSeparated(l, IsAtomChar) || QuotedLocal(l)
  {
    LocalCheckIff(l);
  }

  lemma DomainChecked(d: string)
    requires Domain(d)
    ensures IPv4Check(d) || HostnameCheck(d)
  {
    DomainCheckIff(d);
  }
}
