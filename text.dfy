/** The JavaScript string operations the game relies on: `trim`, `toLowerCase`,
    the UTF-16 `length` of a string and the decimal rendering of a number. */
module Text {

  /** White space as ECMAScript defines it for `String.prototype.trim` and for the
      regular-expression class `\s`: the WhiteSpace and LineTerminator characters. */
  predicate IsWhiteSpace(c: char) {
    || c == '\t' || c == '\n' || c == '\U{B}' || c == '\U{C}' || c == '\r' || c == ' '
    || c == '\U{A0}' || c == '\U{1680}' || ('\U{2000}' <= c <= '\U{200A}')
    || c == '\U{2028}' || c == '\U{2029}' || c == '\U{202F}' || c == '\U{205F}'
    || c == '\U{3000}' || c == '\U{FEFF}'
  }

  ghost predicate AllWhiteSpace(w: string) {
    forall i :: 0 <= i < |w| ==> IsWhiteSpace(w[i])
  }

  /** Neither end of `r` is white space. */
  ghost predicate Trimmed(r: string) {
    r == [] || (!IsWhiteSpace(r[0]) && !IsWhiteSpace(r[|r| - 1]))
  }

  lemma TrimStartStep(s: string, n: nat)
    requires s != [] && IsWhiteSpace(s[0]) && n <= |s| - 1
    requires AllWhiteSpace(s[1..][..|s| - 1 - n])
    ensures s[1..][|s| - 1 - n..] == s[|s| - n..]
    ensures AllWhiteSpace(s[..|s| - n])
  {
    var w, rest := s[..|s| - n], s[1..][..|s| - 1 - n];
    forall i | 0 <= i < |w| ensures IsWhiteSpace(w[i]) {
      if i > 0 {
        assert w[i] == rest[i - 1];
      }
    }
  }

  function TrimStart(s: string): (r: string)
    ensures |r| <= |s| && r == s[|s| - |r|..]
    ensures AllWhiteSpace(s[..|s| - |r|])
    ensures r != [] ==> !IsWhiteSpace(r[0])
  {
    if s != [] && IsWhiteSpace(s[0]) then
      var r := TrimStart(s[1..]);
      TrimStartStep(s, |r|);
      r
    else s
  }

  lemma TrimEndStep(s: string, n: nat)
    requires s != [] && IsWhiteSpace(s[|s| - 1]) && n <= |s| - 1
    requires AllWhiteSpace(s[..|s| - 1][n..])
    ensures s[..|s| - 1][..n] == s[..n]
    ensures AllWhiteSpace(s[n..])
  {
    var w, rest := s[n..], s[..|s| - 1][n..];
    forall i | 0 <= i < |w| ensures IsWhiteSpace(w[i]) {
      if i < |rest| {
        assert w[i] == rest[i];
      }
    }
  }

  function TrimEnd(s: string): (r: string)
    ensures |r| <= |s| && r == s[..|r|]
    ensures AllWhiteSpace(s[|r|..])
    ensures r != [] ==> !IsWhiteSpace(r[|r| - 1])
  {
    if s != [] && IsWhiteSpace(s[|s| - 1]) then
      var r := TrimEnd(s[..|s| - 1]);
      TrimEndStep(s, |r|);
      r
    else s
  }

  /** How many white-space characters `s` starts with. */
  function LeadingSpace(s: string): nat {
    |s| - |TrimStart(s)|
  }

  lemma SliceOfSuffix(s: string, k: nat, n: nat)
    requires k + n <= |s|
    ensures s[k..][..n] == s[k..k + n] && s[k..][n..] == s[k + n..]
  {
  }

  /** `String.prototype.trim`: `s` with the white space at both ends removed. */
  function Trim(s: string): (r: string)
    ensures Trimmed(r)
    ensures LeadingSpace(s) + |r| <= |s| && r == s[LeadingSpace(s)..LeadingSpace(s) + |r|]
    ensures AllWhiteSpace(s[..LeadingSpace(s)]) && AllWhiteSpace(s[LeadingSpace(s) + |r|..])
  {
    var t := TrimStart(s);
    var r := TrimEnd(t);
    SliceOfSuffix(s, |s| - |t|, |r|);
    r
  }

  lemma {:induction false} TrimStartSkips(w: string, t: string)
    requires AllWhiteSpace(w)
    requires t == [] || !IsWhiteSpace(t[0])
    ensures TrimStart(w + t) == t
  {
    if w != [] {
      assert (w + t)[1..] == w[1..] + t;
      TrimStartSkips(w[1..], t);
    }
  }

  lemma {:induction false} TrimEndSkips(t: string, w: string)
    requires AllWhiteSpace(w)
    requires t == [] || !IsWhiteSpace(t[|t| - 1])
    ensures TrimEnd(t + w) == t
  {
    if w != [] {
      assert (t + w)[..|t + w| - 1] == t + w[..|w| - 1];
      TrimEndSkips(t, w[..|w| - 1]);
    }
  }

  /** `Trim` is characterised by its result: whatever is surrounded by white space
      and has no white space at either end is the trimmed string. */
  lemma TrimUnique(s: string, w1: string, r: string, w2: string)
    requires s == w1 + r + w2
    requires AllWhiteSpace(w1) && AllWhiteSpace(w2) && Trimmed(r)
    ensures Trim(s) == r
  {
    if r == [] {
      assert s == (w1 + w2) + [];
      assert AllWhiteSpace(w1 + w2);
      TrimStartSkips(w1 + w2, []);
    } else {
      assert s == w1 + (r + w2);
      TrimStartSkips(w1, r + w2);
      TrimEndSkips(r, w2);
    }
  }

  lemma TrimIdempotent(s: string)
    ensures Trim(Trim(s)) == Trim(s)
  {
    var r := Trim(s);
    assert r == [] + r + [];
    TrimUnique(r, [], r, []);
  }

  /** `Trim(s)` is empty exactly when `s` is all white space. */
  lemma TrimEmptyIff(s: string)
    ensures Trim(s) == [] <==> AllWhiteSpace(s)
  {
    if AllWhiteSpace(s) {
      assert s == s + [] + [];
      TrimUnique(s, s, [], []);
    }
  }

  /** `toLowerCase` on one character; the model covers ASCII and the Latin-1
      capitals (which include the Norwegian Æ, Ø and Å). */
  function LowerChar(c: char): char {
    if 'A' <= c <= 'Z' || ('\U{C0}' <= c <= '\U{DE}' && c != '\U{D7}') then (c as int + 32) as char else c
  }

  function ToLower(s: string): (r: string)
    ensures |r| == |s|
    ensures forall i :: 0 <= i < |s| ==> r[i] == LowerChar(s[i])
  {
    seq(|s|, i requires 0 <= i < |s| => LowerChar(s[i]))
  }

  /** Lower-casing never turns white space into something else, or back. */
  lemma LowerCharKeepsWhiteSpace(c: char)
    ensures IsWhiteSpace(LowerChar(c)) == IsWhiteSpace(c)
  {
  }

  /** Lower-casing keeps a string of white space all white space. */
  lemma LowerKeepsAllWhiteSpace(w: string)
    requires AllWhiteSpace(w)
    ensures AllWhiteSpace(ToLower(w))
  {
    forall i | 0 <= i < |w| ensures IsWhiteSpace(ToLower(w)[i]) {
      LowerCharKeepsWhiteSpace(w[i]);
    }
  }

  lemma LowerConcat(a: string, b: string, c: string)
    ensures ToLower(a + b + c) == ToLower(a) + ToLower(b) + ToLower(c)
  {
  }

  /** Lower-casing keeps a string without white space at its ends so. */
  lemma LowerKeepsTrimmed(r: string)
    requires Trimmed(r)
    ensures Trimmed(ToLower(r))
  {
    if r != [] {
      LowerCharKeepsWhiteSpace(r[0]);
      LowerCharKeepsWhiteSpace(r[|r| - 1]);
    }
  }

  /** Trimming and lower-casing commute: `s.toLowerCase().trim()` is
      `s.trim().toLowerCase()`. */
  lemma TrimLowerCommute(s: string)
    ensures Trim(ToLower(s)) == ToLower(Trim(s))
  {
    var r := Trim(s);
    var u1, u2 := TrimParts(s);
    LowerConcat(u1, r, u2);
    LowerKeepsAllWhiteSpace(u1);
    LowerKeepsAllWhiteSpace(u2);
    LowerKeepsTrimmed(r);
    TrimUnique(ToLower(s), ToLower(u1), ToLower(r), ToLower(u2));
  }

  /** `s.toLowerCase().trim()`: the normal form in which answers are compared.
      It is the lower-cased trim of `s`, with no white space at either end and
      no longer than `s`. */
  function Normalize(s: string): (n: string)
    ensures n == ToLower(Trim(s))
    ensures Trimmed(n) && |n| <= |s|
  {
    TrimLowerCommute(s);
    Trim(ToLower(s))
  }

  lemma WhiteSpaceConcat(a: string, b: string)
    requires AllWhiteSpace(a) && AllWhiteSpace(b)
    ensures AllWhiteSpace(a + b)
  {
  }

  lemma SplitAround(w1: string, u1: string, r: string, u2: string, w2: string)
    ensures w1 + (u1 + r + u2) + w2 == (w1 + u1) + r + (u2 + w2)
  {
  }

  lemma SplitAt(s: string, k: nat, r: string)
    requires k + |r| <= |s| && r == s[k..k + |r|]
    ensures s == s[..k] + r + s[k + |r|..]
  {
    assert s[..k] + r == s[..k + |r|];
  }

  /** `s` is its trimmed form with white space on either side. */
  lemma TrimParts(s: string) returns (u1: string, u2: string)
    ensures s == u1 + Trim(s) + u2 && AllWhiteSpace(u1) && AllWhiteSpace(u2)
  {
    var r := Trim(s);
    var k := LeadingSpace(s);
    u1, u2 := s[..k], s[k + |r|..];
    SplitAt(s, k, r);
  }

  /** White space added around a string does not survive trimming. */
  lemma TrimIgnoresPadding(w1: string, x: string, w2: string)
    requires AllWhiteSpace(w1) && AllWhiteSpace(w2)
    ensures Trim(w1 + x + w2) == Trim(x)
  {
    var r := Trim(x);
    var u1, u2 := TrimParts(x);
    var a, b := w1 + u1, u2 + w2;
    WhiteSpaceConcat(w1, u1);
    WhiteSpaceConcat(u2, w2);
    SplitAround(w1, u1, r, u2, w2);
    TrimUnique(w1 + x + w2, a, r, b);
  }

  /** Answers are compared up to white space at either end. */
  lemma NormalizeIgnoresPadding(w1: string, x: string, w2: string)
    requires AllWhiteSpace(w1) && AllWhiteSpace(w2)
    ensures Normalize(w1 + x + w2) == Normalize(x)
  {
    assert ToLower(w1 + x + w2) == ToLower(w1) + ToLower(x) + ToLower(w2);
    forall c ensures IsWhiteSpace(LowerChar(c)) == IsWhiteSpace(c) {
      LowerCharKeepsWhiteSpace(c);
    }
    TrimIgnoresPadding(ToLower(w1), ToLower(x), ToLower(w2));
  }

  /** Answers are compared without regard to case. */
  lemma NormalizeIgnoresCase(x: string)
    ensures Normalize(ToLower(x)) == Normalize(x)
  {
    var lx := ToLower(x);
    assert ToLower(lx) == lx;
    assert Normalize(lx) == Trim(ToLower(lx));
  }

  /** The length JavaScript reports for a string: UTF-16 code units, so a
      character outside the Basic Multilingual Plane counts twice. */
  function Utf16Length(s: string): (n: nat)
    ensures |s| <= n <= 2 * |s|
  {
    if s == [] then 0 else Utf16Length(s[..|s| - 1]) + (if s[|s| - 1] as int > 0xFFFF then 2 else 1)
  }

  predicate IsDigit(c: char) {
    '0' <= c <= '9'
  }

  function DigitChar(d: nat): (c: char)
    requires d < 10
    ensures IsDigit(c) && c as int - '0' as int == d
  {
    ('0' as int + d) as char
  }

  /** The decimal rendering JavaScript gives a non-negative integer
      (`n.toString()`, or `${n}` in a template). */
  function NatToString(n: nat): (s: string)
    ensures |s| >= 1
    ensures forall i :: 0 <= i < |s| ==> IsDigit(s[i])
    ensures s[0] == '0' <==> n == 0
    decreases n
  {
    if n < 10 then [DigitChar(n)] else NatToString(n / 10) + [DigitChar(n % 10)]
  }

  /** The number a string of decimal digits denotes. */
  function DecimalValue(s: string): nat
    requires forall i :: 0 <= i < |s| ==> IsDigit(s[i])
  {
    if s == [] then 0
    else
      assert IsDigit(s[|s| - 1]);
      DecimalValue(s[..|s| - 1]) * 10 + (s[|s| - 1] as int - '0' as int)
  }

  lemma {:induction false} DecimalRoundTrip(n: nat)
    ensures DecimalValue(NatToString(n)) == n
  {
    if n >= 10 {
      DecimalRoundTrip(n / 10);
      var s := NatToString(n);
      assert s[..|s| - 1] == NatToString(n / 10);
    }
  }

  /** Every number from 1000 to 9999 is written with exactly four digits. */
  lemma FourDigits(n: nat)
    requires 1000 <= n <= 9999
    ensures |NatToString(n)| == 4
  {
    assert |NatToString(n / 10 / 10 / 10)| == 1;
    assert |NatToString(n / 10 / 10)| == 2;
    assert |NatToString(n / 10)| == 3;
  }
}
