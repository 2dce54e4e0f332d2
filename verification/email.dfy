/** The e-mail syntax check of the contact form: the pattern
    ^[^@\s]+@[^@\s]+\.[^@\s]+$ applied with Python's re.match.

    Two definitions are given and proved equal: the index-based predicate
    ValidEmail, which the validator uses, and RegexMatches, the language of the
    pattern written as concatenations of runs. */
module Email {

  /** Python 3's \s on str patterns: the characters for which str.isspace()
      holds: ASCII \t \n \v \f \r and space, the separators \x1c-\x1f, the
      next-line control U+0085, the Unicode space separators, and the line and
      paragraph separators U+2028 and U+2029. */
  predicate IsSpace(c: char) {
    c == ' ' || ('\t' <= c <= '\r') || ('\U{1c}' <= c <= '\U{1f}')
    || c == '\U{85}' || c == '\U{a0}' || c == '\U{1680}'
    || ('\U{2000}' <= c <= '\U{200a}') || c == '\U{2028}' || c == '\U{2029}'
    || c == '\U{202f}' || c == '\U{205f}' || c == '\U{3000}'
  }

  /** The character class [^@\s]. */
  predicate Plain(c: char) {
    c != '@' && !IsSpace(c)
  }

  /** [^@\s]+ : a non-empty run of plain characters. */
  predicate Run(s: string) {
    |s| > 0 && forall k :: 0 <= k < |s| ==> Plain(s[k])
  }

  /** A domain part: a run with a '.' that has text on both sides. */
  predicate Domain(d: string) {
    Run(d) && exists j :: 0 < j < |d| - 1 && d[j] == '.'
  }

  /** The whole string is local-part '@' domain. */
  predicate Shaped(m: string) {
    exists i :: 0 < i < |m| && m[i] == '@' && Run(m[..i]) && Domain(m[i + 1..])
  }

  /** re.match anchors at the start; '$' matches at the end of the string or
      just before one final newline. */
  predicate ValidEmail(e: string) {
    Shaped(e) || (|e| > 0 && e[|e| - 1] == '\n' && Shaped(e[..|e| - 1]))
  }

  /** The language of [^@\s]+@[^@\s]+\.[^@\s]+ as concatenations. */
  ghost predicate RegexLanguage(m: string) {
    exists l, a, b :: Run(l) && Run(a) && Run(b) && m == l + "@" + a + "." + b
  }

  /** The pattern with its anchors, as re.match evaluates it. */
  ghost predicate RegexMatches(e: string) {
    RegexLanguage(e) || (|e| > 0 && e[|e| - 1] == '\n' && RegexLanguage(e[..|e| - 1]))
  }

  lemma RunSlice(s: string, i: int, j: int)
    requires Run(s) && 0 <= i < j <= |s|
    ensures Run(s[i..j])
  {
  }

  lemma RunJoin(a: string, b: string)
    requires Run(a) && Run(b)
    ensures Run(a + "." + b)
  {
  }

  /** Every character of a well-shaped address other than its '@' is plain. */
  lemma ShapedChars(m: string, i: int)
    requires 0 < i < |m| && m[i] == '@' && Run(m[..i]) && Domain(m[i + 1..])
    ensures forall k :: 0 <= k < |m| && k != i ==> Plain(m[k])
  {
  }

  lemma ShapedToRegexLanguage(m: string, i: int)
    requires 0 < i < |m| && m[i] == '@' && Run(m[..i]) && Domain(m[i + 1..])
    ensures RegexLanguage(m)
  {
    var d := m[i + 1..];
    var j :| 0 < j < |d| - 1 && d[j] == '.';
    var l, a, b := m[..i], d[..j], d[j + 1..];
    RunSlice(d, 0, j);
    RunSlice(d, j + 1, |d|);
    assert d == a + "." + b;
    assert m == l + "@" + d;
    assert m == l + "@" + a + "." + b;
  }

  lemma RegexLanguageToShaped(m: string, l: string, a: string, b: string)
    requires Run(l) && Run(a) && Run(b) && m == l + "@" + a + "." + b
    ensures Shaped(m)
  {
    var i := |l|;
    var d := a + "." + b;
    assert m == l + "@" + d;
    assert m[..i] == l;
    assert m[i + 1..] == d;
    RunJoin(a, b);
    assert d[|a|] == '.';
  }

  /** The index-based shape and the pattern's language are the same set of strings. */
  lemma ShapedIsRegexLanguage(m: string)
    ensures Shaped(m) <==> RegexLanguage(m)
  {
    if Shaped(m) {
      var i :| 0 < i < |m| && m[i] == '@' && Run(m[..i]) && Domain(m[i + 1..]);
      ShapedToRegexLanguage(m, i);
    }
    if RegexLanguage(m) {
      var l, a, b :| Run(l) && Run(a) && Run(b) && m == l + "@" + a + "." + b;
      RegexLanguageToShaped(m, l, a, b);
    }
  }

  /** ValidEmail decides exactly what re.match with the pattern accepts. */
  lemma ValidEmailIsRegexMatch(e: string)
    ensures ValidEmail(e) <==> RegexMatches(e)
  {
    ShapedIsRegexLanguage(e);
    if |e| > 0 {
      ShapedIsRegexLanguage(e[..|e| - 1]);
    }
  }

  /** A valid address holds exactly one '@', with a non-empty local part before it. */
  lemma SingleAt(e: string)
    requires ValidEmail(e)
    ensures exists i :: 0 < i < |e| && e[i] == '@' && forall k :: 0 <= k < |e| && e[k] == '@' ==> k == i
  {
    if Shaped(e) {
      var i :| 0 < i < |e| && e[i] == '@' && Run(e[..i]) && Domain(e[i + 1..]);
      ShapedChars(e, i);
    } else {
      var m := e[..|e| - 1];
      var i :| 0 < i < |m| && m[i] == '@' && Run(m[..i]) && Domain(m[i + 1..]);
      ShapedChars(m, i);
      forall k | 0 <= k < |e| && e[k] == '@' ensures k == i {
        if k < |m| {
          assert m[k] == e[k];
        }
      }
      assert e[i] == m[i];
    }
  }

  /** Whitespace is never accepted, except one final newline. */
  lemma OnlyTrailingNewline(e: string, k: int)
    requires ValidEmail(e) && 0 <= k < |e| && IsSpace(e[k])
    ensures k == |e| - 1 && e[k] == '\n' && Shaped(e[..k])
  {
  }

  /** Appending one newline to a well-shaped address keeps it valid. */
  lemma TrailingNewlineTolerated(m: string)
    requires Shaped(m)
    ensures ValidEmail(m + "\n")
  {
  }

  /** Examples: accepted and rejected addresses. */
  lemma Examples()
    ensures ValidEmail("a@b.com")
    ensures ValidEmail("a@b.com\n")
    ensures !ValidEmail("a@b")
    ensures !ValidEmail("a@b.com\n\n")
    ensures !ValidEmail("a b@c.d")
  {
    var s := "a@b.com";
    assert s[..1] == "a" && s[2..] == "b.com";
    assert Run("b.com") && "b.com"[1] == '.';
    assert Shaped(s);
    TrailingNewlineTolerated(s);
    assert s + "\n" == "a@b.com\n";
    if ValidEmail("a@b") {
      assert false;
    }
    if ValidEmail("a@b.com\n\n") {
      OnlyTrailingNewline("a@b.com\n\n", 7);
    }
    if ValidEmail("a b@c.d") {
      OnlyTrailingNewline("a b@c.d", 1);
    }
  }
}
