/** The few string operations the game relies on: JavaScript's
    `toLowerCase` and `includes`, the decimal rendering of a number inside a
    template literal, and splitting a text into lines. Strings are sequences
    of Unicode scalar values. */
module Text {

  /** Upper-case letters that `toLowerCase` maps one-to-one onto a letter 32
      code points higher: ASCII `A`..`Z` and the Latin-1 capitals
      U+00C0..U+00DE except the multiplication sign U+00D7. */
  predicate IsUpper(c: char) {
    ('A' <= c <= 'Z') || ('\U{C0}' <= c <= '\U{DE}' && c != '\U{D7}')
  }

  predicate IsLower(c: char) {
    ('a' <= c <= 'z') || ('\U{E0}' <= c <= '\U{FE}' && c != '\U{F7}')
  }

  function LowerChar(c: char): (r: char)
    ensures IsUpper(c) ==> IsLower(r) && r as int == c as int + 32
    ensures !IsUpper(c) ==> r == c
    ensures !IsUpper(r)
  {
    if IsUpper(c) then (c as int + 32) as char else c
  }

  /** `s.toLowerCase()` over the characters `LowerChar` covers. */
  function Lower(s: string): (r: string)
    ensures |r| == |s|
    ensures forall k :: 0 <= k < |s| ==> r[k] == LowerChar(s[k])
    ensures forall k :: 0 <= k < |r| ==> !IsUpper(r[k])
    ensures forall k :: 0 <= k < |s| && !IsUpper(s[k]) ==> r[k] == s[k]
  {
    seq(|s|, k requires 0 <= k < |s| => LowerChar(s[k]))
  }

  /** Lower-casing twice is lower-casing once. */
  lemma LowerIdempotent(s: string)
    ensures Lower(Lower(s)) == Lower(s)
  {
  }

  /** `t` occurs in `s` starting at index `i`. */
  predicate OccursAt(s: string, t: string, i: int) {
    0 <= i && i + |t| <= |s| && s[i..i + |t|] == t
  }

  /** `s.includes(t)`: some occurrence of `t` in `s`. The empty string
      occurs everywhere. */
  function Includes(s: string, t: string): (r: bool)
    ensures r <==> exists i :: OccursAt(s, t, i)
    decreases |s|
  {
    if OccursAt(s, t, 0) then true
    else if |s| == 0 then false
    else
      OccursShift(s, t);
      Includes(s[1..], t)
  }

  /** Once `t` does not start `s`, its occurrences in `s` are those in the
      tail, one position further on. */
  lemma OccursShift(s: string, t: string)
    requires |s| > 0 && !OccursAt(s, t, 0)
    ensures (exists i :: OccursAt(s, t, i)) <==> (exists j :: OccursAt(s[1..], t, j))
  {
    forall i | OccursAt(s, t, i)
      ensures OccursAt(s[1..], t, i - 1)
    {
      assert s[1..][i - 1..i - 1 + |t|] == s[i..i + |t|];
    }
    forall j | OccursAt(s[1..], t, j)
      ensures OccursAt(s, t, j + 1)
    {
      assert s[1..][j..j + |t|] == s[j + 1..j + 1 + |t|];
    }
  }

  /** A two-character text is included only where its two characters stand
      side by side. */
  lemma IncludesPair(s: string, t: string)
    requires |t| == 2
    requires forall i :: 0 <= i < |s| - 1 ==> !(s[i] == t[0] && s[i + 1] == t[1])
    ensures !Includes(s, t)
  {
    forall i | 0 <= i && i + |t| <= |s| ensures !OccursAt(s, t, i) {
      var w := s[i..i + 2];
      assert w[0] == s[i] && w[1] == s[i + 1];
    }
  }

  predicate IsDigit(c: char) {
    '0' <= c <= '9'
  }

  function DigitChar(d: nat): (c: char)
    requires d < 10
    ensures IsDigit(c)
  {
    ('0' as int + d) as char
  }

  function DigitValue(c: char): (d: nat)
    requires IsDigit(c)
    ensures d < 10 && DigitChar(d) == c
  {
    c as int - '0' as int
  }

  /** The base-10 text of a non-negative number, as a template literal
      renders it: digits only, no leading zero. */
  function Decimal(n: nat): (r: string)
    ensures |r| >= 1
    ensures forall k :: 0 <= k < |r| ==> IsDigit(r[k])
    ensures r[0] == '0' ==> n == 0
  {
    if n < 10 then [DigitChar(n)] else Decimal(n / 10) + [DigitChar(n % 10)]
  }

  /** The number a string of digits denotes. */
  function DigitsValue(s: string): nat
    requires forall k :: 0 <= k < |s| ==> IsDigit(s[k])
  {
    if |s| == 0 then 0 else DigitsValue(s[..|s| - 1]) * 10 + DigitValue(s[|s| - 1])
  }

  /** Reading back the rendered digits gives the number. */
  lemma {:induction false} DecimalRoundTrip(n: nat)
    ensures DigitsValue(Decimal(n)) == n
  {
    if n >= 10 {
      var r := Decimal(n);
      assert r[..|r| - 1] == Decimal(n / 10);
      DecimalRoundTrip(n / 10);
      assert DigitValue(DigitChar(n % 10)) == n % 10;
    } else {
      assert DigitValue(DigitChar(n)) == n;
    }
  }

  /** Two numbers render alike only if they are equal. */
  lemma DecimalInjective(m: nat, n: nat)
    requires Decimal(m) == Decimal(n)
    ensures m == n
  {
    DecimalRoundTrip(m);
    DecimalRoundTrip(n);
  }

  /** `s.split('\n')`: the pieces between newlines, always at least one,
      none holding a newline. */
  function SplitLines(s: string): (r: seq<string>)
    ensures |r| >= 1
    ensures forall k :: 0 <= k < |r| ==> '\n' !in r[k]
  {
    if |s| == 0 then [""]
    else
      var rest := SplitLines(s[1..]);
      if s[0] == '\n' then [""] + rest else [[s[0]] + rest[0]] + rest[1..]
  }

  /** A text without a newline is a single line. */
  lemma {:induction false} SplitSingleLine(a: string)
    requires '\n' !in a
    ensures SplitLines(a) == [a]
  {
    if |a| > 0 {
      SplitSingleLine(a[1..]);
      assert [a[0]] + a[1..] == a;
    }
  }

  /** A newline-free line followed by a newline splits off as the first
      piece. */
  lemma {:induction false} SplitFirstLine(a: string, b: string)
    requires '\n' !in a
    ensures SplitLines(a + "\n" + b) == [a] + SplitLines(b)
  {
    if |a| == 0 {
      assert a + "\n" + b == "\n" + b;
      assert ("\n" + b)[1..] == b;
    } else {
      var s := a + "\n" + b;
      assert s[1..] == a[1..] + "\n" + b;
      SplitFirstLine(a[1..], b);
      assert [a[0]] + a[1..] == a;
    }
  }
}
