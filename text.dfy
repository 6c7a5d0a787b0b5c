/** The few JavaScript string operations the application relies on, with their
    JavaScript semantics: `substring` with clamped bounds, `split(".").pop()`,
    `toUpperCase` on ASCII text, and the decimal form of an integer that a
    template literal or an object key produces (with `parseInt` reading it back). */
module Text {
  import opened Wrappers

  function Min(a: int, b: int): int { if a <= b then a else b }
  function Max(a: int, b: int): int { if a <= b then b else a }
  function Clamp(i: int, len: nat): nat { if i < 0 then 0 else if i > len then len else i }

  /** `s.substring(start, end)`: both bounds clamped to [0, |s|], swapped when start > end. */
  function Substring(s: string, start: int, end: int): (r: string)
    ensures var a, b := Clamp(start, |s|), Clamp(end, |s|);
            r == s[Min(a, b)..Max(a, b)]
    ensures 0 <= start <= end <= |s| ==> r == s[start..end]
  {
    var a, b := Clamp(start, |s|), Clamp(end, |s|);
    if a <= b then s[a..b] else s[b..a]
  }

  /** `s.substring(start)`: from a clamped start to the end. */
  function SubstringFrom(s: string, start: int): (r: string)
    ensures start <= |s| ==> |r| == |s| - Clamp(start, |s|)
    ensures start >= |s| ==> r == ""
    ensures r == s[|s| - |r|..]
  {
    Substring(s, start, |s|)
  }

  /** `s.split(".").pop()`: the text after the last ".", or all of s when it has none. */
  function LastDotSegment(s: string): (r: string)
    ensures '.' !in r
    ensures |r| <= |s| && r == s[|s| - |r|..]
    ensures '.' !in s ==> r == s
    ensures '.' in s ==> |r| < |s| && s[|s| - |r| - 1] == '.'
  {
    if |s| == 0 then ""
    else if s[|s| - 1] == '.' then ""
    else
      var q := LastDotSegment(s[..|s| - 1]);
      SegmentStep(s, q);
      q + [s[|s| - 1]]
  }

  /** A last character other than a dot extends the last segment q of the text before it. */
  lemma SegmentStep(s: string, q: string)
    requires |s| > 0 && s[|s| - 1] != '.' && '.' !in q
    requires var pre := s[..|s| - 1];
             |q| <= |pre| && q == pre[|pre| - |q|..] &&
             ('.' !in pre ==> q == pre) &&
             ('.' in pre ==> |q| < |pre| && pre[|pre| - |q| - 1] == '.')
    ensures var r := q + [s[|s| - 1]];
            '.' !in r && |r| <= |s| && r == s[|s| - |r|..] &&
            ('.' !in s ==> r == s) &&
            ('.' in s ==> |r| < |s| && s[|s| - |r| - 1] == '.')
  {
    var pre, r := s[..|s| - 1], q + [s[|s| - 1]];
    assert s == pre + [s[|s| - 1]];
    assert s[|s| - |r|..] == pre[|pre| - |q|..] + [s[|s| - 1]];
    assert '.' in s ==> '.' in pre;
  }

  function UpperChar(c: char): (u: char)
    ensures 'a' <= c <= 'z' ==> 'A' <= u <= 'Z' && u as int == c as int - 32
    ensures !('a' <= c <= 'z') ==> u == c
  {
    if 'a' <= c <= 'z' then (c as int - 32) as char else c
  }

  /** `toUpperCase` restricted to ASCII letters: every other character is kept. The
      generated codes are ASCII; typed text need not be. */
  function ToUpper(s: string): (r: string)
    ensures |r| == |s|
    ensures forall i :: 0 <= i < |s| ==> r[i] == UpperChar(s[i])
    ensures forall i :: 0 <= i < |r| ==> !('a' <= r[i] <= 'z')
  {
    seq(|s|, i requires 0 <= i < |s| => UpperChar(s[i]))
  }

  lemma ToUpperIdempotent(s: string)
    ensures ToUpper(ToUpper(s)) == ToUpper(s)
  {
  }

  predicate IsDigit(c: char) { '0' <= c <= '9' }

  function DigitChar(d: int): (c: char)
    requires 0 <= d < 10
    ensures IsDigit(c) && c as int - '0' as int == d
  {
    ('0' as int + d) as char
  }

  /** The decimal digits of a natural number, most significant first, without leading zeros. */
  function NatToDecimal(n: nat): (r: string)
    ensures |r| > 0
    ensures forall i :: 0 <= i < |r| ==> IsDigit(r[i])
    ensures |r| > 1 ==> r[0] != '0'
  {
    if n < 10 then [DigitChar(n)] else NatToDecimal(n / 10) + [DigitChar(n % 10)]
  }

  /** What `${n}` gives for an integer n. */
  function IntToDecimal(n: int): string
  {
    if n < 0 then "-" + NatToDecimal(-n) else NatToDecimal(n)
  }

  function DigitsValue(s: string): nat
    requires forall i :: 0 <= i < |s| ==> IsDigit(s[i])
  {
    if |s| == 0 then 0 else DigitsValue(s[..|s| - 1]) * 10 + DigitValue(s[|s| - 1])
  }

  function DigitValue(c: char): nat
    requires IsDigit(c)
  {
    c as int - '0' as int
  }

  /** `parseInt` on the text of an integer: an optional "-" and at least one digit.
      Such text is read whole. Everything else is None here, which is NaN for the empty
      placeholder option but not for text with a numeric prefix, which `parseInt` reads. */
  function ParseDecimal(s: string): (r: Option<int>)
    ensures r.None? <==> (|s| == 0 || (s[0] != '-' && !IsDigit(s[0])) || s == "-" ||
                          exists i :: (if s[0] == '-' then 1 else 0) <= i < |s| && !IsDigit(s[i]))
  {
    var digits := if |s| > 0 && s[0] == '-' then s[1..] else s;
    if |digits| == 0 || exists i :: 0 <= i < |digits| && !IsDigit(digits[i]) then
      assert |s| > 0 && s[0] == '-' ==> forall i :: 1 <= i < |s| ==> s[i] == digits[i - 1];
      None
    else
      assert |s| > 0 && s[0] == '-' ==> forall i :: 1 <= i < |s| ==> s[i] == digits[i - 1];
      var v: int := DigitsValue(digits);
      if |s| > 0 && s[0] == '-' then Some(-v) else Some(v)
  }

  lemma {:induction false} NatToDecimalValue(n: nat)
    ensures DigitsValue(NatToDecimal(n)) == n
  {
    if n >= 10 {
      var r := NatToDecimal(n);
      var d := DigitChar(n % 10);
      assert r == NatToDecimal(n / 10) + [d];
      assert r[..|r| - 1] == NatToDecimal(n / 10);
      NatToDecimalValue(n / 10);
    }
  }

  /** Reading back the decimal form of an id gives the id: the round trip between an
      object key and `parseInt(key)`. */
  lemma DecimalRoundTrip(n: int)
    ensures ParseDecimal(IntToDecimal(n)) == Some(n)
  {
    if n < 0 {
      var t := NatToDecimal(-n);
      assert IntToDecimal(n)[1..] == t;
      NatToDecimalValue(-n);
    } else {
      NatToDecimalValue(n);
    }
  }
}
