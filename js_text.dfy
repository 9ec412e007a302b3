/** The ECMAScript string primitives the email rule of the user schema relies on:
    the character classes `\s` and `.` of a regular expression without flags, and
    `String.prototype.trim`, which the schema's `trim: true` option applies to the
    value before it is validated. */
module JsText {

  /** LineTerminator of ECMAScript: LF, CR, LINE SEPARATOR, PARAGRAPH SEPARATOR.
      A regular-expression `.` (no `s` flag) matches every code unit but these. */
  predicate IsLineTerminator(c: char) {
    c == '\n' || c == '\r' || c as int == 0x2028 || c as int == 0x2029
  }

  /** WhiteSpace or LineTerminator of ECMAScript: the class `\s`, and the set of
      characters `trim` removes from both ends. */
  predicate IsWhiteSpace(c: char) {
    var n := c as int;
    n == 0x09 || n == 0x0B || n == 0x0C || n == 0x20 || n == 0xA0 || n == 0x1680
    || (0x2000 <= n <= 0x200A) || n == 0x202F || n == 0x205F || n == 0x3000
    || n == 0xFEFF || IsLineTerminator(c)
  }

  /** `s` with its leading white space removed: the longest suffix of `s` that does
      not start with white space. */
  function TrimStart(s: string): (r: string)
    ensures |r| <= |s| && r == s[|s| - |r|..]
    ensures forall i :: 0 <= i < |s| - |r| ==> IsWhiteSpace(s[i])
    ensures |r| > 0 ==> !IsWhiteSpace(r[0])
    decreases |s|
  {
    if |s| > 0 && IsWhiteSpace(s[0]) then TrimStart(s[1..]) else s
  }

  /** `s` with its trailing white space removed: the longest prefix of `s` that does
      not end with white space. */
  function TrimEnd(s: string): (r: string)
    ensures |r| <= |s| && r == s[..|r|]
    ensures forall i :: |r| <= i < |s| ==> IsWhiteSpace(s[i])
    ensures |r| > 0 ==> !IsWhiteSpace(r[|r| - 1])
    decreases |s|
  {
    if |s| > 0 && IsWhiteSpace(s[|s| - 1]) then TrimEnd(s[..|s| - 1]) else s
  }

  /** `String.prototype.trim`: the slice of `s` left once white space is removed from
      both ends. */
  function Trim(s: string): string {
    TrimEnd(TrimStart(s))
  }

  /** A string is trimmed when neither end is white space. */
  predicate IsTrimmed(s: string) {
    |s| == 0 || (!IsWhiteSpace(s[0]) && !IsWhiteSpace(s[|s| - 1]))
  }

  /** What `trim` returns: a contiguous slice `s[a..b]` of its argument, everything
      cut away on either side is white space, and what is left is trimmed. */
  lemma TrimIsSlice(s: string)
    ensures IsTrimmed(Trim(s))
    ensures exists a, b ::
              && 0 <= a <= b <= |s| && Trim(s) == s[a..b]
              && (forall i :: 0 <= i < a ==> IsWhiteSpace(s[i]))
              && (forall i :: b <= i < |s| ==> IsWhiteSpace(s[i]))
  {
    var t := TrimStart(s);
    var r := TrimEnd(t);
    var a := |s| - |t|;
    var b := a + |r|;
    assert r == s[a..b];
    if |r| > 0 {
      assert r[0] == t[0];
    }
  }

  /** A trimmed string is left as it is, and only a trimmed string is. */
  lemma TrimFixesExactlyTrimmed(s: string)
    ensures Trim(s) == s <==> IsTrimmed(s)
  {
    if IsTrimmed(s) && |s| > 0 {
      assert TrimStart(s) == s;
      assert TrimEnd(s) == s;
    }
    TrimIsSlice(s);
  }

  /** Trimming twice is trimming once. */
  lemma TrimIdempotent(s: string)
    ensures Trim(Trim(s)) == Trim(s)
  {
    TrimIsSlice(s);
    TrimFixesExactlyTrimmed(Trim(s));
  }

  /** White space in front of a string that does not start with white space is all
      that `TrimStart` removes. */
  lemma {:induction false} TrimStartSkips(a: string, t: string)
    requires forall i :: 0 <= i < |a| ==> IsWhiteSpace(a[i])
    requires |t| > 0 && !IsWhiteSpace(t[0])
    ensures TrimStart(a + t) == t
    decreases |a|
  {
    if |a| > 0 {
      assert (a + t)[1..] == a[1..] + t;
      TrimStartSkips(a[1..], t);
    } else {
      assert a + t == t;
    }
  }

  /** White space after a string that does not end with white space is all that
      `TrimEnd` removes. */
  lemma {:induction false} TrimEndSkips(t: string, b: string)
    requires forall i :: 0 <= i < |b| ==> IsWhiteSpace(b[i])
    requires |t| > 0 && !IsWhiteSpace(t[|t| - 1])
    ensures TrimEnd(t + b) == t
    decreases |b|
  {
    if |b| > 0 {
      assert (t + b)[..|t + b| - 1] == t + b[..|b| - 1];
      TrimEndSkips(t, b[..|b| - 1]);
    } else {
      assert t + b == t;
    }
  }

  /** `trim` gives back a non-empty trimmed string from between any white space
      put around it. */
  lemma TrimSurrounded(a: string, t: string, b: string)
    requires forall i :: 0 <= i < |a| ==> IsWhiteSpace(a[i])
    requires forall i :: 0 <= i < |b| ==> IsWhiteSpace(b[i])
    requires |t| > 0 && IsTrimmed(t)
    ensures Trim(a + t + b) == t
  {
    assert a + t + b == a + (t + b);
    assert (t + b)[0] == t[0];
    TrimStartSkips(a, t + b);
    TrimEndSkips(t, b);
  }
}
