/** The four regular expressions of the field validators, each written out by
    hand as the language it accepts, with a lemma that states that language in
    plain terms.

      name      /^[a-zA-Z\s]+$/
      email     /^[^\s@]+@[^\s@]+\.[^\s@]+$/
      phone     /^\+?[\d\s\-\(\)]+$/
      password  /(?=.*[a-z])(?=.*[A-Z])(?=.*\d)/   (unanchored)

    Every pattern is tested without flags: `\s` is JsString.IsSpace, `\d` is an
    ASCII digit, and `.` is any character but a line terminator. */
module Patterns {
  import opened JsString

  /** The bracketed character classes of the patterns. */
  datatype CharClass =
    | NameChar    // [a-zA-Z\s]
    | EmailChar   // [^\s@]
    | PhoneChar   // [\d\s\-\(\)]

  predicate InClass(k: CharClass, c: char) {
    match k
    case NameChar => IsAsciiLetter(c) || IsSpace(c)
    case EmailChar => !IsSpace(c) && c != '@'
    case PhoneChar => IsDigit(c) || IsSpace(c) || c == '-' || c == '(' || c == ')'
  }

  /** The whole of `s` matches `[k]+`: one class character, then either the
      end or a further match of `[k]+`. */
  predicate OneOrMore(k: CharClass, s: string)
    decreases |s|
  {
    |s| > 0 && InClass(k, s[0]) && (|s| == 1 || OneOrMore(k, s[1..]))
  }

  /** `[k]+` matches exactly the non-empty strings of class characters. */
  lemma {:induction false} OneOrMoreEvery(k: CharClass, s: string)
    ensures OneOrMore(k, s) <==> |s| > 0 && forall i :: 0 <= i < |s| ==> InClass(k, s[i])
    decreases |s|
  {
    if |s| > 1 {
      OneOrMoreEvery(k, s[1..]);
      if forall i :: 0 <= i < |s| ==> InClass(k, s[i]) {
        assert forall i :: 0 <= i < |s| - 1 ==> InClass(k, s[1..][i]) by {
          forall i | 0 <= i < |s| - 1 ensures InClass(k, s[1..][i]) { assert s[1..][i] == s[i + 1]; }
        }
      }
      if OneOrMore(k, s) {
        forall i | 0 <= i < |s| ensures InClass(k, s[i]) {
          if i > 0 { assert s[i] == s[1..][i - 1]; }
        }
      }
    }
  }

  // ---------------------------------------------------------------- name

  /** /^[a-zA-Z\s]+$/ */
  predicate NamePattern(s: string) {
    OneOrMore(NameChar, s)
  }

  /** A name matches exactly when it is non-empty and made of ASCII letters and
      spaces only. */
  lemma NamePatternIff(s: string)
    ensures NamePattern(s) <==> s != [] && forall i :: 0 <= i < |s| ==> IsAsciiLetter(s[i]) || IsSpace(s[i])
  {
    OneOrMoreEvery(NameChar, s);
  }

  // ---------------------------------------------------------------- email

  /** /^[^\s@]+@[^\s@]+\.[^\s@]+$/ : the string splits, at an `@` at index `i`
      and a `.` at index `j`, into three non-empty runs of `[^\s@]`. */
  predicate EmailPattern(s: string) {
    exists i, j :: 0 <= i < j < |s| && EmailSplit(s, i, j)
  }

  /** One way of matching the email pattern: `@` at `i`, `.` at `j`. */
  predicate EmailSplit(s: string, i: int, j: int)
    requires 0 <= i < j < |s|
  {
    && s[i] == '@'
    && s[j] == '.'
    && OneOrMore(EmailChar, s[..i])
    && OneOrMore(EmailChar, s[i + 1..j])
    && OneOrMore(EmailChar, s[j + 1..])
  }

  /** The shape of an accepted address, in plain terms: no space anywhere,
      exactly one `@`, at index `at`, with a non-empty part before it, and a
      `.` in the part after it that is neither that part's first nor its last
      character. */
  predicate WellFormedEmail(s: string) {
    exists at :: 0 < at < |s| && WellFormedAt(s, at)
  }

  predicate WellFormedAt(s: string, at: int)
    requires 0 < at < |s|
  {
    && s[at] == '@'
    && (forall k :: 0 <= k < |s| ==> !IsSpace(s[k]))
    && (forall k :: 0 <= k < |s| && k != at ==> s[k] != '@')
    && (exists d :: at + 1 < d < |s| - 1 && s[d] == '.')
  }

  lemma EmailPatternIff(s: string)
    ensures EmailPattern(s) <==> WellFormedEmail(s)
  {
    if EmailPattern(s) {
      var i, j :| 0 <= i < j < |s| && EmailSplit(s, i, j);
      EmailSplitIsWellFormed(s, i, j);
    }
    if WellFormedEmail(s) {
      var at :| 0 < at < |s| && WellFormedAt(s, at);
      var d :| at + 1 < d < |s| - 1 && s[d] == '.';
      WellFormedIsEmailSplit(s, at, d);
    }
  }

  lemma EmailSplitIsWellFormed(s: string, i: int, j: int)
    requires 0 <= i < j < |s| && EmailSplit(s, i, j)
    ensures 0 < i && WellFormedAt(s, i)
  {
    OneOrMoreEvery(EmailChar, s[..i]);
    OneOrMoreEvery(EmailChar, s[i + 1..j]);
    OneOrMoreEvery(EmailChar, s[j + 1..]);
    forall k | 0 <= k < |s| && k != i && k != j
      ensures !IsSpace(s[k]) && s[k] != '@'
    {
      if k < i {
        assert s[k] == s[..i][k];
      } else if k < j {
        assert s[k] == s[i + 1..j][k - i - 1];
      } else {
        assert s[k] == s[j + 1..][k - j - 1];
      }
    }
    assert i + 1 < j < |s| - 1;
  }

  lemma WellFormedIsEmailSplit(s: string, at: int, d: int)
    requires 0 < at < |s| && WellFormedAt(s, at)
    requires at + 1 < d < |s| - 1 && s[d] == '.'
    ensures EmailSplit(s, at, d)
  {
    var local, host, top := s[..at], s[at + 1..d], s[d + 1..];
    forall k | 0 <= k < |local| ensures InClass(EmailChar, local[k]) {
      assert local[k] == s[k];
    }
    forall k | 0 <= k < |host| ensures InClass(EmailChar, host[k]) {
      assert host[k] == s[k + at + 1];
    }
    forall k | 0 <= k < |top| ensures InClass(EmailChar, top[k]) {
      assert top[k] == s[k + d + 1];
    }
    OneOrMoreEvery(EmailChar, local);
    OneOrMoreEvery(EmailChar, host);
    OneOrMoreEvery(EmailChar, top);
  }

  // ---------------------------------------------------------------- phone

  /** /^\+?[\d\s\-\(\)]+$/ : `[\d\s\-\(\)]+` on the whole string, or a `+`
      followed by `[\d\s\-\(\)]+` on the rest. */
  predicate PhonePattern(s: string) {
    OneOrMore(PhoneChar, s) || (|s| > 0 && s[0] == '+' && OneOrMore(PhoneChar, s[1..]))
  }

  /** What follows the optional leading `+`. */
  function PhoneBody(s: string): string {
    if |s| > 0 && s[0] == '+' then s[1..] else s
  }

  /** A phone number in plain terms: an optional leading `+` followed by at
      least one digit, space, `-`, `(` or `)`, and nothing else. */
  predicate PhoneShape(s: string) {
    PhoneBody(s) != [] && forall i :: 0 <= i < |PhoneBody(s)| ==> InClass(PhoneChar, PhoneBody(s)[i])
  }

  lemma PhonePatternIff(s: string)
    ensures PhonePattern(s) <==> PhoneShape(s)
  {
    OneOrMoreEvery(PhoneChar, s);
    if |s| > 0 {
      OneOrMoreEvery(PhoneChar, s[1..]);
    }
  }

  // ---------------------------------------------------------------- password

  /** The three things the password lookaheads look for. */
  datatype Needed = Lowercase | Uppercase | Digit

  predicate Satisfies(n: Needed, c: char) {
    match n
    case Lowercase => IsLower(c)
    case Uppercase => IsUpper(c)
    case Digit => IsDigit(c)
  }

  /** `(?=.*[n])` succeeds at position `p`: some later character satisfies `n`
      and no line terminator stands between `p` and it. */
  predicate LookaheadAt(s: string, p: nat, n: Needed) {
    exists j :: p <= j < |s| && Satisfies(n, s[j]) && NoLineTerminator(s[p..j])
  }

  predicate NoLineTerminator(s: string) {
    forall k :: 0 <= k < |s| ==> !IsLineTerminator(s[k])
  }

  /** The unanchored test succeeds when all three lookaheads succeed at one
      and the same position. */
  predicate PasswordPattern(s: string) {
    exists p :: 0 <= p <= |s| && PasswordAt(s, p)
  }

  predicate PasswordAt(s: string, p: nat) {
    LookaheadAt(s, p, Lowercase) && LookaheadAt(s, p, Uppercase) && LookaheadAt(s, p, Digit)
  }

  /** `s` holds a character that satisfies `n`. */
  predicate Contains(s: string, n: Needed) {
    exists j :: 0 <= j < |s| && Satisfies(n, s[j])
  }

  /** A password that matches holds a lowercase letter, an uppercase letter
      and a digit. */
  lemma PasswordPatternSound(s: string)
    requires PasswordPattern(s)
    ensures Contains(s, Lowercase) && Contains(s, Uppercase) && Contains(s, Digit)
  {
    var p :| 0 <= p <= |s| && PasswordAt(s, p);
    var a :| p <= a < |s| && Satisfies(Lowercase, s[a]) && NoLineTerminator(s[p..a]);
    var b :| p <= b < |s| && Satisfies(Uppercase, s[b]) && NoLineTerminator(s[p..b]);
    var c :| p <= c < |s| && Satisfies(Digit, s[c]) && NoLineTerminator(s[p..c]);
    assert Satisfies(Lowercase, s[a]) && Satisfies(Uppercase, s[b]) && Satisfies(Digit, s[c]);
  }

  /** On one line, holding the three kinds of character is also enough. */
  lemma PasswordPatternComplete(s: string)
    requires NoLineTerminator(s)
    requires Contains(s, Lowercase) && Contains(s, Uppercase) && Contains(s, Digit)
    ensures PasswordPattern(s)
  {
    forall n: Needed | Contains(s, n) ensures LookaheadAt(s, 0, n) {
      var j :| 0 <= j < |s| && Satisfies(n, s[j]);
      assert NoLineTerminator(s[0..j]);
    }
    assert PasswordAt(s, 0);
  }

  /** The lookaheads do not look past a line break: every kind of character
      is present here, yet no single line holds all three. */
  lemma PasswordPatternStopsAtLineBreak()
    ensures var s := "abC\n1234";
      Contains(s, Lowercase) && Contains(s, Uppercase) && Contains(s, Digit) && !PasswordPattern(s)
  {
    var s := "abC\n1234";
    assert Satisfies(Lowercase, s[0]) && Satisfies(Uppercase, s[2]) && Satisfies(Digit, s[4]);
    forall p | 0 <= p <= |s| ensures !PasswordAt(s, p) {
      if p <= 3 {
        forall j | p <= j < |s| && Satisfies(Digit, s[j]) ensures !NoLineTerminator(s[p..j]) {
          assert s[p..j][3 - p] == s[3];
        }
      } else {
        forall j | p <= j < |s| ensures !Satisfies(Lowercase, s[j]) {
        }
      }
    }
  }
}
