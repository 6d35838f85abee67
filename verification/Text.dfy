/** The string operations the sources share: decimal digits, prefixes and suffixes, and trimming. */
module Text {
  import opened Wrappers

  function Min(a: int, b: int): int { if a <= b then a else b }

  function Max(a: int, b: int): int { if a >= b then a else b }

  // ---------------------------------------------------------------- decimal digits

  function DigitChar(d: int): (c: char)
    requires 0 <= d < 10
    ensures IsDigit(c) && DigitValue(c) == d
  {
    '0' + (d as char)
  }

  predicate IsDigit(c: char) { '0' <= c <= '9' }

  function DigitValue(c: char): int
    requires IsDigit(c)
  {
    (c - '0') as int
  }

  /** `/^[0-9]+$/` */
  predicate AllDigits(s: string) {
    |s| > 0 && forall i | 0 <= i < |s| :: IsDigit(s[i])
  }

  /** How JavaScript prints a whole number that is not negative. */
  function Decimal(n: nat): (s: string)
    ensures AllDigits(s)
  {
    if n < 10 then [DigitChar(n)] else Decimal(n / 10) + [DigitChar(n % 10)]
  }

  /** The value of a run of digits, leading zeros included. */
  function DecimalValue(s: string): nat
    requires forall i | 0 <= i < |s| :: IsDigit(s[i])
  {
    if s == [] then 0 else 10 * DecimalValue(s[..|s| - 1]) + DigitValue(s[|s| - 1])
  }

  lemma {:induction false} DecimalRoundTrip(n: nat)
    ensures DecimalValue(Decimal(n)) == n
    ensures n > 0 ==> Decimal(n)[0] != '0'
  {
    if n >= 10 {
      DecimalRoundTrip(n / 10);
      assert Decimal(n)[..|Decimal(n)| - 1] == Decimal(n / 10);
    }
  }

  lemma DecimalStep(n: nat, d: int)
    requires n > 0 && 0 <= d < 10
    ensures Decimal(10 * n + d) == Decimal(n) + [DigitChar(d)]
  {
    assert (10 * n + d) / 10 == n && (10 * n + d) % 10 == d;
  }

  lemma LastDigit(a: string)
    requires AllDigits(a)
    ensures a == a[..|a| - 1] + [DigitChar(DigitValue(a[|a| - 1]))]
    ensures DecimalValue(a) == 10 * DecimalValue(a[..|a| - 1]) + DigitValue(a[|a| - 1])
  {
    hide DecimalValue;
    assert DigitChar(DigitValue(a[|a| - 1])) == a[|a| - 1];
    DecimalValueStep(a);
  }

  lemma DecimalValueStep(a: string)
    requires AllDigits(a)
    ensures DecimalValue(a) == 10 * DecimalValue(a[..|a| - 1]) + DigitValue(a[|a| - 1])
  {
  }

  lemma OneDigit(a: string)
    requires AllDigits(a) && |a| == 1
    ensures DecimalValue(a) == DigitValue(a[0]) && Decimal(DecimalValue(a)) == a
    ensures a[0] != '0' ==> DecimalValue(a) > 0
  {
    LastDigit(a);
    assert a[..0] == "";
  }

  /** Digits without a leading zero are how their value is printed. */
  lemma {:induction false} CanonicalDigits(a: string)
    requires AllDigits(a) && (a[0] != '0' || |a| == 1)
    ensures Decimal(DecimalValue(a)) == a
    ensures |a| > 1 ==> DecimalValue(a) >= 10
    ensures a[0] != '0' ==> DecimalValue(a) > 0
  {
    hide Decimal, DecimalValue;
    if |a| == 1 {
      OneDigit(a);
    } else {
      var init := a[..|a| - 1];
      CanonicalDigits(init);
      LastDigit(a);
      DecimalStep(DecimalValue(init), DigitValue(a[|a| - 1]));
    }
  }

  // ---------------------------------------------------------------- white space

  /** What `\s` matches and `trim` removes. */
  predicate IsSpace(c: char) {
    || '\U{0009}' <= c <= '\U{000D}' || c == ' ' || c == '\U{00A0}' || c == '\U{FEFF}' || c == '\U{1680}'
    || '\U{2000}' <= c <= '\U{200A}' || c == '\U{2028}' || c == '\U{2029}' || c == '\U{202F}'
    || c == '\U{205F}' || c == '\U{3000}'
  }

  function TrimStart(s: string): (r: string)
    ensures |r| <= |s| && r == s[|s| - |r|..]
    ensures r != "" ==> !IsSpace(r[0])
    ensures forall i | 0 <= i < |s| - |r| :: IsSpace(s[i])
  {
    if s != "" && IsSpace(s[0]) then TrimStart(s[1..]) else s
  }

  function TrimEnd(s: string): (r: string)
    ensures r <= s
    ensures r != "" ==> !IsSpace(r[|r| - 1])
    ensures forall i | |r| <= i < |s| :: IsSpace(s[i])
  {
    if s != "" && IsSpace(s[|s| - 1]) then TrimEnd(s[..|s| - 1]) else s
  }

  function Trim(s: string): string { TrimEnd(TrimStart(s)) }

  predicate Trimmed(s: string) {
    s == "" || (!IsSpace(s[0]) && !IsSpace(s[|s| - 1]))
  }

  function LowerChar(c: char): char {
    if 'A' <= c <= 'Z' then c + ('a' - 'A') else c
  }

  /** `toLowerCase()`, for the letters of ASCII. */
  function Lower(s: string): (r: string)
    ensures |r| == |s|
  {
    seq(|s|, i requires 0 <= i < |s| => LowerChar(s[i]))
  }

  /** The capital letters, 65 to 90, become the small ones, 97 to 122, and nothing else changes. */
  lemma LowerMeans(s: string, i: nat)
    requires i < |s|
    ensures Lower(s)[i] as int == s[i] as int + (if 65 <= s[i] as int <= 90 then 32 else 0)
  {
  }

  // ---------------------------------------------------------------- pieces of text

  /** `s.split(separator)` */
  function SplitOn(s: string, separator: char): (parts: seq<string>)
    ensures parts != []
    ensures forall i | 0 <= i < |parts| :: separator !in parts[i]
  {
    if s == "" then [""]
    else
      var rest := SplitOn(s[1..], separator);
      if s[0] == separator then [""] + rest else [[s[0]] + rest[0]] + rest[1..]
  }

  /** `parts.join(separator)` */
  function Join(parts: seq<string>, separator: string): string {
    if parts == [] then ""
    else if |parts| == 1 then parts[0]
    else parts[0] + separator + Join(parts[1..], separator)
  }

  predicate OccursAt(text: string, part: string, i: int) {
    0 <= i <= |text| - |part| && text[i..i + |part|] == part
  }

  predicate Contains(text: string, part: string) {
    exists i | 0 <= i <= |text| - |part| :: OccursAt(text, part, i)
  }

  lemma {:induction false} OccurrenceInTail(head: string, tail: string, part: string, i: int)
    requires OccursAt(head + tail, part, i) && i >= |head|
    ensures OccursAt(tail, part, i - |head|)
  {
    assert (head + tail)[i..i + |part|] == tail[i - |head|..i - |head| + |part|];
  }

  /** Trimming leaves a trimmed stretch of the text and takes nothing but white space. */
  lemma {:induction false} TrimKeepsTheMiddle(s: string)
    ensures Trimmed(Trim(s)) && Contains(s, Trim(s))
    ensures Trimmed(s) ==> Trim(s) == s
    ensures forall c | c in Trim(s) :: c in s
  {
    hide IsSpace, TrimStart, TrimEnd;
    var start := TrimStart(s);
    assert OccursAt(s, Trim(s), |s| - |start|);
    assert Trim(s) != "" ==> Trim(s)[0] == start[0];
  }
}
