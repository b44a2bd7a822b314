/** The few Python string operations the games use to parse typed moves:
    `strip`, `isdigit`, `int`, `isalpha` and `upper`, over the ASCII range
    (plus the other characters `str.isspace` accepts). */
module Text {

  /** A character `str.strip()` removes. */
  predicate IsSpace(c: char)
  {
    || c == ' ' || ('\U{9}' <= c <= '\U{D}') || ('\U{1C}' <= c <= '\U{1F}')
    || c == '\U{85}' || c == '\U{A0}' || c == '\U{1680}'
    || ('\U{2000}' <= c <= '\U{200A}') || c == '\U{2028}' || c == '\U{2029}'
    || c == '\U{202F}' || c == '\U{205F}' || c == '\U{3000}'
  }

  predicate IsDigit(c: char)
  {
    '0' <= c <= '9'
  }

  predicate IsLetter(c: char)
  {
    ('A' <= c <= 'Z') || ('a' <= c <= 'z')
  }

  /** `str.isdigit()`: non-empty and made of digits only. */
  predicate IsDigits(s: string)
  {
    |s| > 0 && forall i | 0 <= i < |s| :: IsDigit(s[i])
  }

  /** `str.isalpha()`: non-empty and made of letters only. */
  predicate IsAlpha(s: string)
  {
    |s| > 0 && forall i | 0 <= i < |s| :: IsLetter(s[i])
  }

  /** Index of the first character that is not white space (or `|s|`). */
  function LeftEnd(s: string): (a: nat)
    ensures a <= |s|
    ensures forall i | 0 <= i < a :: IsSpace(s[i])
    ensures a < |s| ==> !IsSpace(s[a])
  {
    if |s| == 0 || !IsSpace(s[0]) then 0 else 1 + LeftEnd(s[1..])
  }

  /** One past the last character that is not white space (or `0`). */
  function RightEnd(s: string): (b: nat)
    ensures b <= |s|
    ensures forall i | b <= i < |s| :: IsSpace(s[i])
    ensures b > 0 ==> !IsSpace(s[b - 1])
  {
    if |s| == 0 || !IsSpace(s[|s| - 1]) then |s| else RightEnd(s[..|s| - 1])
  }

  /** `str.strip()`: the text between the leading and the trailing white space. */
  function Strip(s: string): (r: string)
    ensures |r| <= |s|
    ensures |r| > 0 ==> !IsSpace(r[0]) && !IsSpace(r[|r| - 1])
  {
    var a := LeftEnd(s);
    var b := RightEnd(s);
    if a < b then s[a..b] else []
  }

  function DigitValue(c: char): (d: nat)
    requires IsDigit(c)
    ensures d < 10
  {
    (c as int) - ('0' as int)
  }

  /** `int(s)` for a string of decimal digits. */
  function DecimalValue(s: string): (n: nat)
    requires forall i | 0 <= i < |s| :: IsDigit(s[i])
  {
    if |s| == 0 then 0 else 10 * DecimalValue(s[..|s| - 1]) + DigitValue(s[|s| - 1])
  }

  /** `str(n)` for a natural number: its shortest decimal spelling. */
  function Decimal(n: nat): (s: string)
    ensures IsDigits(s)
  {
    var d := ['0' + ((n % 10) as char)];
    if n < 10 then d else Decimal(n / 10) + d
  }

  /** `str.upper()` on one character. */
  function Upper(c: char): (u: char)
    ensures IsLetter(c) ==> 'A' <= u <= 'Z'
    ensures !('a' <= c <= 'z') ==> u == c
  {
    if 'a' <= c <= 'z' then ((c as int) - 32) as char else c
  }

  /** Reading back a decimal spelling gives the number. */
  lemma {:induction false} DecimalRoundTrip(n: nat)
    ensures DecimalValue(Decimal(n)) == n
  {
    var s := Decimal(n);
    if n >= 10 {
      DecimalRoundTrip(n / 10);
      assert s[..|s| - 1] == Decimal(n / 10);
    }
  }

  /** A string with no white space at either end is left alone by `strip`. */
  lemma StripUnpadded(s: string)
    requires |s| > 0 ==> !IsSpace(s[0]) && !IsSpace(s[|s| - 1])
    ensures Strip(s) == s
  {
  }

  /** `strip` removes white space added around a string that has none at its ends. */
  lemma {:induction false} StripPadded(s: string, pre: string, post: string)
    requires |s| > 0 && !IsSpace(s[0]) && !IsSpace(s[|s| - 1])
    requires forall i | 0 <= i < |pre| :: IsSpace(pre[i])
    requires forall i | 0 <= i < |post| :: IsSpace(post[i])
    ensures Strip(pre + s + post) == s
  {
    var t := pre + s + post;
    LeftEndSkips(t, |pre|);
    RightEndSkips(t, |pre| + |s|);
    assert t[|pre|..|pre| + |s|] == s;
  }

  lemma {:induction false} LeftEndSkips(t: string, a: nat)
    requires a < |t| && !IsSpace(t[a])
    requires forall i | 0 <= i < a :: IsSpace(t[i])
    ensures LeftEnd(t) == a
  {
    if a > 0 {
      LeftEndSkips(t[1..], a - 1);
    }
  }

  lemma {:induction false} RightEndSkips(t: string, b: nat)
    requires 0 < b <= |t| && !IsSpace(t[b - 1])
    requires forall i | b <= i < |t| :: IsSpace(t[i])
    ensures RightEnd(t) == b
  {
    if b < |t| {
      RightEndSkips(t[..|t| - 1], b);
    }
  }
}
