/**
 * The few C library behaviours the modules rely on, stated once.
 * A `char` of a Dafny string stands for one byte of a C string: nothing here
 * decodes UTF-8, so a truncation may cut a multi-byte sequence in two.
 */
module CStrings {

  const NUL: char := 0 as char
  /** The mIRC bold toggle (`\2`), shared by every reply that highlights a name. */
  const Bold: char := 2 as char

  /** The text `snprintf(buf, bufSize, ...)` leaves in `buf`: at most `bufSize - 1` bytes of the formatted text. */
  function Snprintf(formatted: string, bufSize: nat): (r: string)
    requires bufSize > 0
    ensures |r| < bufSize
    ensures r <= formatted
    ensures |formatted| < bufSize ==> r == formatted
    ensures |formatted| >= bufSize ==> |r| == bufSize - 1
  {
    if |formatted| < bufSize then formatted else formatted[..bufSize - 1]
  }

  /** What a `%s` conversion reads from a buffer: everything before the first NUL. */
  function CStr(s: string): (r: string)
    ensures r <= s
    ensures NUL !in r
    ensures |r| < |s| ==> s[|r|] == NUL
  {
    if s == [] || s[0] == NUL then [] else [s[0]] + CStr(s[1..])
  }

  lemma {:induction false} CStrOfPlainText(s: string)
    requires NUL !in s
    ensures CStr(s) == s
  {
    if s != [] {
      CStrOfPlainText(s[1..]);
    }
  }

  /** A C string ends at its first NUL: nothing after it is read. */
  lemma {:induction false} CStrStopsAtNul(s: string, rest: string)
    requires NUL !in s
    ensures CStr(s + [NUL] + rest) == s
  {
    if s == [] {
      assert (s + [NUL] + rest)[0] == NUL;
    } else {
      assert (s + [NUL] + rest)[1..] == s[1..] + [NUL] + rest;
      CStrStopsAtNul(s[1..], rest);
    }
  }

  predicate IsDigit(c: char) { '0' <= c <= '9' }

  function DigitChar(d: nat): (c: char)
    requires d < 10
    ensures IsDigit(c) && c as int - '0' as int == d
  {
    ('0' as int + d) as char
  }

  /** The decimal text of `%u`. */
  function Utoa(n: nat): (r: string)
    ensures 1 <= |r|
    ensures forall i :: 0 <= i < |r| ==> IsDigit(r[i])
    ensures r[0] == '0' ==> n == 0 && |r| == 1
    decreases n
  {
    if n < 10 then [DigitChar(n)] else Utoa(n / 10) + [DigitChar(n % 10)]
  }

  /** The number a string of decimal digits denotes (the reading `strtoul` would give). */
  function DecimalValue(s: string): nat
    requires forall i :: 0 <= i < |s| ==> IsDigit(s[i])
  {
    if s == [] then 0
    else
      assert IsDigit(s[|s| - 1]);
      DecimalValue(s[..|s| - 1]) * 10 + (s[|s| - 1] as int - '0' as int)
  }

  lemma {:induction false} DecimalRoundTrip(n: nat)
    ensures DecimalValue(Utoa(n)) == n
    decreases n
  {
    if n >= 10 {
      DecimalRoundTrip(n / 10);
      var r := Utoa(n);
      assert r[..|r| - 1] == Utoa(n / 10);
    }
  }

  lemma {:induction false} UtoaLength(n: nat, digits: nat)
    requires n < Pow10(digits)
    requires digits >= 1
    ensures |Utoa(n)| <= digits
    decreases n
  {
    if n >= 10 {
      UtoaLength(n / 10, digits - 1);
    }
  }

  function Pow10(k: nat): (p: nat)
    ensures p >= 1
  {
    if k == 0 then 1 else 10 * Pow10(k - 1)
  }

  /** ASCII `tolower`, the folding `strcasecmp` applies. */
  function ToLower(c: char): (r: char)
    ensures 'A' <= c <= 'Z' ==> r as int == c as int + 32
    ensures !('A' <= c <= 'Z') ==> r == c
  {
    if 'A' <= c <= 'Z' then (c as int + 32) as char else c
  }

  function Fold(s: string): (r: string)
    ensures |r| == |s|
    ensures forall i :: 0 <= i < |s| ==> r[i] == ToLower(s[i])
  {
    seq(|s|, i requires 0 <= i < |s| => ToLower(s[i]))
  }

  /** Folding twice folds no further: `Fold` lands in the lower-case text it maps to itself. */
  lemma FoldIdempotent(s: string)
    ensures Fold(Fold(s)) == Fold(s)
  {
    forall i | 0 <= i < |s|
      ensures Fold(Fold(s))[i] == Fold(s)[i]
    {
      assert !('A' <= Fold(s)[i] <= 'Z');
    }
  }

  /** No upper-case ASCII letter survives folding, and every other character is kept. */
  lemma FoldLowersCapitals(s: string, i: nat)
    requires i < |s|
    ensures !('A' <= Fold(s)[i] <= 'Z')
    ensures !('A' <= s[i] <= 'Z') ==> Fold(s)[i] == s[i]
    ensures 'A' <= s[i] <= 'Z' ==> Fold(s)[i] as int == s[i] as int + 32
  {
  }

  /** `strcasecmp(a, b) == 0`. */
  predicate StrCaseEq(a: string, b: string)
  {
    Fold(a) == Fold(b)
  }

  lemma StrCaseEqByChars(a: string, b: string)
    ensures StrCaseEq(a, b) <==> |a| == |b| && forall i :: 0 <= i < |a| ==> ToLower(a[i]) == ToLower(b[i])
  {
    if |a| == |b| && forall i :: 0 <= i < |a| ==> ToLower(a[i]) == ToLower(b[i]) {
      assert forall i :: 0 <= i < |a| ==> Fold(a)[i] == Fold(b)[i];
    }
  }
}
