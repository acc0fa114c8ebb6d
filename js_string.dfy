/** The parts of JavaScript's string built-ins that the sign-up and login code
    relies on: `String.prototype.trim`, the character class `\s`, `.length`
    (counted in UTF-16 code units) and `Number.prototype.toString` on a
    non-negative integer. A Dafny `char` is a Unicode scalar value. */
module JsString {

  /** The characters `trim` removes and `\s` matches: ECMAScript's WhiteSpace
      (TAB, VT, FF, SPACE, NO-BREAK SPACE, ZERO WIDTH NO-BREAK SPACE and every
      other space separator) together with its LineTerminator set. */
  predicate IsSpace(c: char) {
    var n := c as int;
    || (0x09 <= n <= 0x0D)
    || n == 0x20
    || n == 0xA0
    || n == 0x1680
    || (0x2000 <= n <= 0x200A)
    || n == 0x2028
    || n == 0x2029
    || n == 0x202F
    || n == 0x205F
    || n == 0x3000
    || n == 0xFEFF
  }

  /** LF, CR, LINE SEPARATOR and PARAGRAPH SEPARATOR: the characters the
      regular-expression `.` does not match. */
  predicate IsLineTerminator(c: char) {
    var n := c as int;
    n == 0x0A || n == 0x0D || n == 0x2028 || n == 0x2029
  }

  predicate IsDigit(c: char) { '0' <= c <= '9' }
  predicate IsLower(c: char) { 'a' <= c <= 'z' }
  predicate IsUpper(c: char) { 'A' <= c <= 'Z' }
  predicate IsAsciiLetter(c: char) { IsLower(c) || IsUpper(c) }

  /** Every character of `s` is a space. */
  predicate AllSpace(s: string) {
    forall k :: 0 <= k < |s| ==> IsSpace(s[k])
  }

  /** `s` with its leading spaces removed. */
  function TrimStart(s: string): (r: string)
    ensures |r| <= |s| && r == s[|s| - |r|..]
    ensures AllSpace(s[..|s| - |r|])
    ensures r != [] ==> !IsSpace(r[0])
  {
    if s != [] && IsSpace(s[0]) then
      var r := TrimStart(s[1..]);
      SpaceBefore(s, r);
      r
    else
      assert s[..0] == [];
      s
  }

  /** `s` with its trailing spaces removed. */
  function TrimEnd(s: string): (r: string)
    ensures |r| <= |s| && r == s[..|r|]
    ensures AllSpace(s[|r|..])
    ensures r != [] ==> !IsSpace(r[|r| - 1])
  {
    if s != [] && IsSpace(s[|s| - 1]) then
      var r := TrimEnd(s[..|s| - 1]);
      SpaceAfter(s, r);
      r
    else
      assert s[|s|..] == [];
      s
  }

  /** A suffix of `s[1..]` that only spaces precede is a suffix of `s` that
      only spaces precede, when `s` starts with a space. */
  lemma SpaceBefore(s: string, r: string)
    requires s != [] && IsSpace(s[0])
    requires |r| <= |s| - 1 && r == s[1..][|s| - 1 - |r|..] && AllSpace(s[1..][..|s| - 1 - |r|])
    ensures r == s[|s| - |r|..] && AllSpace(s[..|s| - |r|])
  {
    var head, cut := s[..|s| - |r|], s[1..][..|s| - 1 - |r|];
    forall k | 0 <= k < |head| ensures IsSpace(head[k]) {
      if k > 0 { assert head[k] == cut[k - 1]; }
    }
  }

  /** A prefix of `s[..|s| - 1]` that only spaces follow is a prefix of `s`
      that only spaces follow, when `s` ends with a space. */
  lemma SpaceAfter(s: string, r: string)
    requires s != [] && IsSpace(s[|s| - 1])
    requires |r| <= |s| - 1 && r == s[..|s| - 1][..|r|] && AllSpace(s[..|s| - 1][|r|..])
    ensures r == s[..|r|] && AllSpace(s[|r|..])
  {
    var tail, cut := s[|r|..], s[..|s| - 1][|r|..];
    forall k | 0 <= k < |tail| ensures IsSpace(tail[k]) {
      if k < |cut| { assert tail[k] == cut[k]; }
    }
  }

  /** `String.prototype.trim`. */
  function Trim(s: string): string {
    TrimEnd(TrimStart(s))
  }

  /** What `trim` keeps: a contiguous piece of the input that neither starts
      nor ends with a space, everything cut off on either side being space. */
  lemma TrimSpec(s: string)
    ensures SpaceAround(s, Trim(s))
    ensures Trim(s) != [] ==> !IsSpace(Trim(s)[0]) && !IsSpace(Trim(s)[|Trim(s)| - 1])
  {
    TrimIsSlice(s);
    TrimEndsNotSpace(TrimStart(s));
  }

  lemma TrimIsSlice(s: string)
    ensures SpaceAround(s, Trim(s))
  {
    var t := TrimStart(s);
    var i := SliceOfSlice(s, t, TrimEnd(t));
  }

  /** `r` is a contiguous piece of `s` with only space on either side of it. */
  predicate SpaceAround(s: string, r: string) {
    exists i :: 0 <= i <= |s| - |r| && r == s[i..i + |r|] && AllSpace(s[..i]) && AllSpace(s[i + |r|..])
  }

  /** Trimming the end of a string that does not start with a space leaves
      neither end a space. */
  lemma TrimEndsNotSpace(t: string)
    requires t != [] ==> !IsSpace(t[0])
    ensures TrimEnd(t) != [] ==> !IsSpace(TrimEnd(t)[0]) && !IsSpace(TrimEnd(t)[|TrimEnd(t)| - 1])
  {
    var r := TrimEnd(t);
    if r != [] {
      assert r[0] == t[0];
    }
  }

  /** A prefix `r` of a suffix `t` of `s`, with space cut off on both sides,
      is a slice of `s` with space on both sides. */
  lemma SliceOfSlice(s: string, t: string, r: string) returns (i: nat)
    requires |t| <= |s| && t == s[|s| - |t|..] && AllSpace(s[..|s| - |t|])
    requires |r| <= |t| && r == t[..|r|] && AllSpace(t[|r|..])
    ensures i == |s| - |t| && r == s[i..i + |r|] && AllSpace(s[..i]) && AllSpace(s[i + |r|..])
  {
    i := |s| - |t|;
    assert s[i + |r|..] == t[|r|..];
  }

  /** The result of `trim` is empty exactly when the input is all space:
      this is what the "required" checks test. */
  lemma TrimEmpty(s: string)
    ensures Trim(s) == [] <==> AllSpace(s)
  {
    var t := TrimStart(s);
    var i := |s| - |t|;
    if Trim(s) == [] {
      assert t == [];
      assert s[..i] == s;
    } else {
      assert !IsSpace(t[0]) && t[0] == s[i];
    }
  }

  /** A string that neither starts nor ends with a space is its own trim. */
  lemma {:induction false} TrimKeepsTrimmed(s: string)
    requires s != [] ==> !IsSpace(s[0]) && !IsSpace(s[|s| - 1])
    ensures Trim(s) == s
  {
  }

  /** Trimming twice is trimming once. */
  lemma TrimIdempotent(s: string)
    ensures Trim(Trim(s)) == Trim(s)
  {
    TrimSpec(s);
    TrimKeepsTrimmed(Trim(s));
  }

  /** Spaces added on either side, any number on each, are trimmed away
      again. */
  lemma TrimPadded(s: string, before: string, after: string)
    requires AllSpace(before) && AllSpace(after)
    ensures Trim(before + s + after) == Trim(s)
  {
    assert before + s + after == before + (s + after);
    TrimStartPadded(before, s + after);
    TrimStartAppend(s, after);
    if TrimStart(s) == [] {
      BlankTrimsToEmpty(after);
    } else {
      TrimEndPadded(TrimStart(s), after);
    }
  }

  lemma BlankTrimsToEmpty(pad: string)
    requires AllSpace(pad)
    ensures TrimStart(pad) == []
  {
    TrimStartPadded(pad, []);
    assert pad + [] == pad;
  }

  lemma {:induction false} TrimStartPadded(pad: string, s: string)
    requires AllSpace(pad)
    ensures TrimStart(pad + s) == TrimStart(s)
    decreases |pad|
  {
    if pad == [] {
      assert pad + s == s;
    } else {
      var rest := pad[1..];
      assert (pad + s)[0] == pad[0];
      assert (pad + s)[1..] == rest + s;
      assert AllSpace(rest) by {
        forall k | 0 <= k < |rest| ensures IsSpace(rest[k]) { assert rest[k] == pad[k + 1]; }
      }
      TrimStartPadded(rest, s);
    }
  }

  lemma {:induction false} TrimEndPadded(s: string, pad: string)
    requires AllSpace(pad)
    ensures TrimEnd(s + pad) == TrimEnd(s)
    decreases |pad|
  {
    if pad == [] {
      assert s + pad == s;
    } else {
      var rest := pad[..|pad| - 1];
      assert (s + pad)[|s + pad| - 1] == pad[|pad| - 1];
      assert (s + pad)[..|s + pad| - 1] == s + rest;
      assert AllSpace(rest) by {
        forall k | 0 <= k < |rest| ensures IsSpace(rest[k]) { assert rest[k] == pad[k]; }
      }
      TrimEndPadded(s, rest);
    }
  }

  lemma {:induction false} TrimStartAppend(s: string, tail: string)
    ensures TrimStart(s + tail) == if TrimStart(s) == [] then TrimStart(tail) else TrimStart(s) + tail
    decreases |s|
  {
    if s == [] {
      assert s + tail == tail;
    } else {
      assert (s + tail)[0] == s[0];
      if IsSpace(s[0]) {
        assert (s + tail)[1..] == s[1..] + tail;
        TrimStartAppend(s[1..], tail);
      }
    }
  }

  /** `.length`: the number of UTF-16 code units; a character beyond the Basic
      Multilingual Plane takes two. */
  function CodeUnits(s: string): (n: nat)
    ensures |s| <= n <= 2 * |s|
    ensures (forall k :: 0 <= k < |s| ==> s[k] as int < 0x10000) ==> n == |s|
  {
    if s == [] then 0 else (if s[0] as int < 0x10000 then 1 else 2) + CodeUnits(s[1..])
  }

  /** The character of a decimal digit. */
  function DigitChar(d: nat): (c: char)
    requires d < 10
    ensures IsDigit(c) && (c as int) - ('0' as int) == d
  {
    (('0' as int) + d) as char
  }

  /** `n.toString()` for a non-negative integer: its decimal digits, most
      significant first, without leading zeros. */
  function DecimalString(n: nat): (r: string)
    ensures r != [] && forall k :: 0 <= k < |r| ==> IsDigit(r[k])
    ensures |r| > 1 ==> r[0] != '0'
    decreases n
  {
    if n < 10 then [DigitChar(n)] else DecimalString(n / 10) + [DigitChar(n % 10)]
  }

  /** The value of a decimal digit character. */
  function DigitValue(c: char): (d: nat)
    requires IsDigit(c)
    ensures d < 10 && DigitChar(d) == c
  {
    (c as int) - ('0' as int)
  }

  /** The number a string of decimal digits denotes. */
  function DecimalValue(s: string): nat
    requires forall k :: 0 <= k < |s| ==> IsDigit(s[k])
  {
    if s == [] then 0 else 10 * DecimalValue(s[..|s| - 1]) + DigitValue(s[|s| - 1])
  }

  /** Reading back the digits `toString` writes gives the number again, so
      distinct clock readings give distinct identifier strings. */
  lemma {:induction false} DecimalRoundTrip(n: nat)
    ensures DecimalValue(DecimalString(n)) == n
    decreases n
  {
    var r := DecimalString(n);
    if n >= 10 {
      DecimalRoundTrip(n / 10);
      assert r[..|r| - 1] == DecimalString(n / 10);
    }
  }

  lemma DecimalStringInjective(m: nat, n: nat)
    ensures DecimalString(m) == DecimalString(n) ==> m == n
  {
    DecimalRoundTrip(m);
    DecimalRoundTrip(n);
  }
}
