/**
 * Character classes and string helpers with the meaning Python gives them:
 * `str.isspace` (which `\s` and `str.strip` use), ASCII `[A-Za-z]`, decimal
 * digits, `str.lower` on ASCII letters, `in` on strings, `int()` of a digit run.
 */
module Text {

  /** Python's `str.isspace`: the characters `\s` and `strip()` treat as whitespace. */
  predicate IsSpace(c: char) {
    '\t' <= c <= '\r' || '\U{1c}' <= c <= ' ' || c == '\U{85}' || c == '\U{a0}' || c == '\U{1680}'
    || '\U{2000}' <= c <= '\U{200a}' || c == '\U{2028}' || c == '\U{2029}' || c == '\U{202f}'
    || c == '\U{205f}' || c == '\U{3000}'
  }

  predicate IsDigit(c: char) {
    '0' <= c <= '9'
  }

  /** `[A-Za-z]`. */
  predicate IsLetter(c: char) {
    'A' <= c <= 'Z' || 'a' <= c <= 'z'
  }

  /** `\w`, restricted to ASCII. */
  predicate IsWordChar(c: char) {
    IsLetter(c) || IsDigit(c) || c == '_'
  }

  datatype CharClass = Space | Digit | Letter | WordOrSpace

  predicate InClass(c: char, k: CharClass) {
    match k
    case Space => IsSpace(c)
    case Digit => IsDigit(c)
    case Letter => IsLetter(c)
    case WordOrSpace => IsWordChar(c) || IsSpace(c)
  }

  /** Length of the longest run of class-`k` characters starting at `i`: what a greedy `k+` consumes. */
  function Run(s: string, i: nat, k: CharClass): (n: nat)
    requires i <= |s|
    ensures i + n <= |s|
    ensures forall j :: i <= j < i + n ==> InClass(s[j], k)
    ensures i + n == |s| || !InClass(s[i + n], k)
    decreases |s| - i
  {
    if i < |s| && InClass(s[i], k) then 1 + Run(s, i + 1, k) else 0
  }

  function Lower(c: char): char {
    if 'A' <= c <= 'Z' then (c as int + 32) as char else c
  }

  function LowerStr(s: string): (r: string)
    ensures |r| == |s| && forall j :: 0 <= j < |s| ==> r[j] == Lower(s[j])
  {
    if |s| == 0 then [] else [Lower(s[0])] + LowerStr(s[1..])
  }

  /** Does the lower-case word `w` occur at position `i` of `s`, ignoring ASCII case? */
  predicate HasWordAt(s: string, i: nat, w: string) {
    i + |w| <= |s| && LowerStr(s[i..i + |w|]) == w
  }

  /** `s.startswith(p)`. */
  predicate StartsWith(s: string, p: string) {
    |p| <= |s| && s[..|p|] == p
  }

  /** `sub` occurs in `s` starting at position `j`. */
  predicate OccursAt(s: string, sub: string, j: nat) {
    j + |sub| <= |s| && s[j..j + |sub|] == sub
  }

  /** Python's `sub in s`. */
  predicate Contains(s: string, sub: string) {
    exists j: nat | j <= |s| :: OccursAt(s, sub, j)
  }

  function StripStart(s: string): (r: string)
    ensures |r| <= |s| && r == s[|s| - |r|..]
    ensures forall j :: 0 <= j < |s| - |r| ==> IsSpace(s[j])
    ensures r == [] || !IsSpace(r[0])
  {
    if |s| > 0 && IsSpace(s[0]) then StripStart(s[1..]) else s
  }

  function StripEnd(s: string): (r: string)
    ensures |r| <= |s| && r == s[..|r|]
    ensures forall j :: |r| <= j < |s| ==> IsSpace(s[j])
    ensures r == [] || !IsSpace(r[|r| - 1])
  {
    if |s| > 0 && IsSpace(s[|s| - 1]) then StripEnd(s[..|s| - 1]) else s
  }

  /** How many leading whitespace characters `strip()` removes. */
  function StripOffset(s: string): nat {
    |s| - |StripStart(s)|
  }

  /** Python's `str.strip()`: drops leading and trailing whitespace and nothing else. */
  function Strip(s: string): (r: string)
    ensures r == [] || (!IsSpace(r[0]) && !IsSpace(r[|r| - 1]))
    ensures r == [] <==> forall j :: 0 <= j < |s| ==> IsSpace(s[j])
    ensures StripOffset(s) + |r| <= |s| && r == s[StripOffset(s)..StripOffset(s) + |r|]
    ensures forall j :: 0 <= j < StripOffset(s) || StripOffset(s) + |r| <= j < |s| ==> IsSpace(s[j])
  {
    StripEnd(StripStart(s))
  }

  /** Stripping a string that neither starts nor ends with whitespace changes nothing. */
  lemma StripUnchanged(s: string)
    requires s == [] || (!IsSpace(s[0]) && !IsSpace(s[|s| - 1]))
    ensures Strip(s) == s
  {
  }

  lemma StripIdempotent(s: string)
    ensures Strip(Strip(s)) == Strip(s)
  {
    StripUnchanged(Strip(s));
  }

  function DigitValue(c: char): (v: nat)
    requires IsDigit(c)
    ensures v < 10
  {
    c as int - '0' as int
  }

  function DigitChar(v: nat): (c: char)
    requires v < 10
    ensures IsDigit(c) && DigitValue(c) == v
  {
    ('0' as int + v) as char
  }

  /** Python's `int(s[i:j])` for a run of decimal digits. */
  function DigitsValue(s: string, i: nat, j: nat): nat
    requires i <= j <= |s|
    requires forall k :: i <= k < j ==> IsDigit(s[k])
    decreases j - i
  {
    if i == j then 0 else DigitsValue(s, i, j - 1) * 10 + DigitValue(s[j - 1])
  }

  function Pow10(k: nat): (p: nat)
    ensures p >= 1
  {
    if k == 0 then 1 else 10 * Pow10(k - 1)
  }

  /** A run of `j - i` digits reads as a number below `10^(j - i)`. */
  lemma {:induction false} DigitsBound(s: string, i: nat, j: nat)
    requires i <= j <= |s|
    requires forall k :: i <= k < j ==> IsDigit(s[k])
    ensures DigitsValue(s, i, j) < Pow10(j - i)
    decreases j - i
  {
    if i < j {
      DigitsBound(s, i, j - 1);
    }
  }

  /** At most `k` digits read as a number below `10^k`. */
  lemma DigitsBelow(s: string, i: nat, j: nat, k: nat)
    requires i <= j <= |s| && j - i <= k
    requires forall m :: i <= m < j ==> IsDigit(s[m])
    ensures DigitsValue(s, i, j) < Pow10(k)
    decreases k
  {
    if j - i == k {
      DigitsBound(s, i, j);
    } else {
      DigitsBelow(s, i, j, k - 1);
    }
  }

  /** `%02d`. */
  function Pad2(n: nat): (r: string)
    requires n < 100
    ensures |r| == 2 && IsDigit(r[0]) && IsDigit(r[1])
  {
    [DigitChar(n / 10), DigitChar(n % 10)]
  }

  /** `%04d`. */
  function Pad4(n: nat): (r: string)
    requires n < 10000
    ensures |r| == 4 && forall k :: 0 <= k < 4 ==> IsDigit(r[k])
  {
    [DigitChar(n / 1000), DigitChar(n / 100 % 10), DigitChar(n / 10 % 10), DigitChar(n % 10)]
  }

  /** Reading back a zero-padded two-digit field gives the number. */
  lemma {:induction false} Pad2Value(s: string, i: nat, n: nat)
    requires n < 100 && i + 2 <= |s| && s[i..i + 2] == Pad2(n)
    ensures forall k :: i <= k < i + 2 ==> IsDigit(s[k])
    ensures DigitsValue(s, i, i + 2) == n
  {
    assert s[i] == Pad2(n)[0] && s[i + 1] == Pad2(n)[1];
    assert DigitsValue(s, i, i) == 0;
  }

  /** Reading back a zero-padded four-digit field gives the number. */
  lemma {:induction false} Pad4Value(s: string, i: nat, n: nat)
    requires n < 10000 && i + 4 <= |s| && s[i..i + 4] == Pad4(n)
    ensures forall k :: i <= k < i + 4 ==> IsDigit(s[k])
    ensures DigitsValue(s, i, i + 4) == n
  {
    var p := Pad4(n);
    assert s[i] == p[0] && s[i + 1] == p[1] && s[i + 2] == p[2] && s[i + 3] == p[3];
    assert DigitsValue(s, i, i) == 0;
    assert DigitsValue(s, i, i + 1) == n / 1000;
    assert n / 100 == (n / 1000) * 10 + n / 100 % 10;
    assert DigitsValue(s, i, i + 2) == n / 100;
    assert n / 10 == (n / 100) * 10 + n / 10 % 10;
    assert DigitsValue(s, i, i + 3) == n / 10;
    assert n == (n / 10) * 10 + n % 10;
  }
}
