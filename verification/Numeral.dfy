/** Decimal numerals of any length and the numbers they stand for. */
module Numeral {

  predicate IsDigit(c: char) { '0' <= c <= '9' }

  function DigitOf(c: char): int { c as int - '0' as int }

  function CharOf(d: int): (c: char)
    requires 0 <= d <= 9
    ensures IsDigit(c) && DigitOf(c) == d
  {
    (d + '0' as int) as char
  }

  predicate AllDigits(s: string) { forall i :: 0 <= i < |s| ==> IsDigit(s[i]) }

  /** d with n zeros behind it. */
  function Scale(d: int, n: nat): int { if n == 0 then d else 10 * Scale(d, n - 1) }

  /** The number a string of digits stands for, the highest digit first. */
  function Value(s: string): int {
    if s == "" then 0 else Scale(DigitOf(s[0]), |s| - 1) + Value(s[1..])
  }

  /** The same with the lowest digit first. */
  function LowFirst(s: string): int {
    if s == "" then 0 else LowFirst(s[..|s| - 1]) + Scale(DigitOf(s[|s| - 1]), |s| - 1)
  }

  function Reversed(s: string): (r: string)
    ensures |r| == |s|
  {
    if s == "" then "" else [s[|s| - 1]] + Reversed(s[..|s| - 1])
  }

  lemma {:induction false} ReversedValue(s: string)
    ensures Value(Reversed(s)) == LowFirst(s)
    ensures AllDigits(s) ==> AllDigits(Reversed(s))
    decreases |s|
  {
    if s != "" {
      ReversedValue(s[..|s| - 1]);
      assert Reversed(s)[1..] == Reversed(s[..|s| - 1]);
    }
  }

  lemma {:induction false} ReversedAt(s: string, k: nat)
    requires k < |s|
    ensures Reversed(s)[k] == s[|s| - 1 - k]
    decreases |s|
  {
    if k > 0 { ReversedAt(s[..|s| - 1], k - 1); }
  }

  lemma Appended(s: string, c: char)
    ensures LowFirst(s + [c]) == LowFirst(s) + Scale(DigitOf(c), |s|)
  {
    assert (s + [c])[..|s|] == s;
  }

  // --- powers of ten

  /** One more digit: ten times the number and the digit. */
  lemma {:induction false} ValueSnoc(s: string, c: char)
    ensures Value("") == 0 && Value(s + [c]) == 10 * Value(s) + (c as int - 48)
    decreases |s|
  {
    if s == "" {
      assert s + [c] == [c];
      assert Value([c]) == Scale(DigitOf(c), 0) + Value("");
    } else {
      ValueSnoc(s[1..], c);
      assert (s + [c])[1..] == s[1..] + [c];
    }
  }

  lemma {:induction false} ScaleSum(a: int, b: int, n: nat)
    ensures Scale(a + b, n) == Scale(a, n) + Scale(b, n)
    decreases n
  {
    if n > 0 { ScaleSum(a, b, n - 1); }
  }

  lemma {:induction false} ScaleTen(a: int, n: nat)
    ensures Scale(10 * a, n) == Scale(a, n + 1)
    decreases n
  {
    if n > 0 { ScaleTen(a, n - 1); }
  }

  lemma {:induction false} ScaleMul(a: int, b: int, n: nat)
    ensures a * Scale(b, n) == Scale(a * b, n)
    decreases n
  {
    if n > 0 {
      ScaleMul(a, b, n - 1);
      assert a * (10 * Scale(b, n - 1)) == 10 * (a * Scale(b, n - 1));
    }
  }

  lemma {:induction false} ScaleScale(a: int, m: nat, n: nat)
    ensures Scale(Scale(a, m), n) == Scale(a, m + n)
    decreases n
  {
    if n > 0 { ScaleScale(a, m, n - 1); }
  }

  lemma {:induction false} ScaleOrder(a: int, b: int, n: nat)
    requires a <= b
    ensures Scale(a, n) <= Scale(b, n)
    decreases n
  {
    if n > 0 { ScaleOrder(a, b, n - 1); }
  }

  lemma {:induction false} ScaleZero(n: nat)
    ensures Scale(0, n) == 0
    decreases n
  {
    if n > 0 { ScaleZero(n - 1); }
  }

  lemma {:induction false} ScaleGrows(m: nat, n: nat)
    requires m <= n
    ensures 0 < Scale(1, m) <= Scale(1, n)
    decreases n
  {
    if m < n {
      ScaleGrows(m, n - 1);
    } else if n > 0 {
      ScaleGrows(m - 1, n - 1);
    }
  }

  /** One column: what is left of a column sum and what is carried have its value. */
  lemma Column(sum: int, digit: int, carry: int, n: nat)
    requires sum == digit + 10 * carry
    ensures Scale(sum, n) == Scale(digit, n) + Scale(carry, n + 1)
  {
    ScaleSum(digit, 10 * carry, n);
    ScaleTen(carry, n);
  }

  // --- the low digits of a numeral

  function Low(s: string, i: nat): string { if i <= |s| then s[|s| - i..] else s }

  lemma LowNext(s: string, i: nat)
    requires i < |s|
    ensures Value(Low(s, i + 1)) == Scale(DigitOf(s[|s| - 1 - i]), i) + Value(Low(s, i))
  {
    assert Low(s, i + 1)[1..] == Low(s, i);
  }

  // --- the size of a numeral's value

  lemma {:induction false} Bounded(s: string)
    requires AllDigits(s)
    ensures 0 <= Value(s) < Scale(1, |s|)
    decreases |s|
  {
    if s != "" {
      Bounded(s[1..]);
      var d := DigitOf(s[0]);
      ScaleOrder(0, d, |s| - 1);
      ScaleZero(|s| - 1);
      ScaleOrder(d, 9, |s| - 1);
      ScaleSum(9, 1, |s| - 1);
      ScaleTen(1, |s| - 1);
    }
  }

  lemma {:induction false} LowFirstBounded(s: string)
    requires AllDigits(s)
    ensures 0 <= LowFirst(s) < Scale(1, |s|)
  {
    ReversedValue(s);
    Bounded(Reversed(s));
  }

  /** No zero leads, but for the numeral of zero. */
  predicate Normal(s: string) { s != "" && AllDigits(s) && (s[0] == '0' ==> |s| == 1) }

  lemma HighDigit(s: string)
    requires s != "" && AllDigits(s)
    ensures s[0] != '0' <==> Value(s) >= Scale(1, |s| - 1)
  {
    Bounded(s[1..]);
    var d := DigitOf(s[0]);
    ScaleZero(|s| - 1);
    if s[0] != '0' {
      ScaleOrder(1, d, |s| - 1);
    }
  }

  lemma NormalZero(s: string)
    requires Normal(s)
    ensures Value(s) == 0 <==> s == "0"
  {
    HighDigit(s);
    ScaleGrows(0, |s| - 1);
    if s[0] == '0' {
      assert s == "0";
      assert s[1..] == "";
    }
  }

  /** Of two normal numerals the longer one stands for more. */
  lemma LongerIsMore(s: string, t: string)
    requires Normal(s) && AllDigits(t) && |s| > |t|
    ensures |s| > 1 ==> Value(s) > Value(t)
  {
    if |s| > 1 {
      HighDigit(s);
      Bounded(t);
      ScaleGrows(|t|, |s| - 1);
    }
  }

  /** Of two numerals of one length the first different digit decides. */
  lemma {:induction false} FirstDifference(s: string, t: string, i: nat)
    requires AllDigits(s) && AllDigits(t) && i < |s| == |t| && s[..i] == t[..i] && s[i] > t[i]
    ensures Value(s) > Value(t)
    decreases i
  {
    var n := |s| - 1;
    if i == 0 {
      Bounded(s[1..]);
      Bounded(t[1..]);
      ScaleOrder(DigitOf(t[0]) + 1, DigitOf(s[0]), n);
      ScaleSum(DigitOf(t[0]), 1, n);
    } else {
      assert s[0] == s[..i][0] == t[..i][0] == t[0];
      assert s[1..][..i - 1] == s[..i][1..] && t[1..][..i - 1] == t[..i][1..];
      FirstDifference(s[1..], t[1..], i - 1);
    }
  }

  lemma {:induction false} LeadingZeros(s: string, k: nat)
    requires k <= |s| && forall i :: 0 <= i < k ==> s[i] == '0'
    ensures Value(s[k..]) == Value(s)
    decreases k
  {
    if k > 0 {
      ScaleZero(|s| - 1);
      LeadingZeros(s[1..], k - 1);
      assert s[1..][k - 1..] == s[k..];
    } else {
      assert s[k..] == s;
    }
  }

  lemma {:induction false} HighZeros(s: string, k: nat)
    requires k <= |s| && forall i :: k <= i < |s| ==> s[i] == '0'
    ensures LowFirst(s[..k]) == LowFirst(s)
    decreases |s|
  {
    if k < |s| {
      ScaleZero(|s| - 1);
      HighZeros(s[..|s| - 1], k);
      assert s[..|s| - 1][..k] == s[..k];
    } else {
      assert s[..k] == s;
    }
  }

  lemma {:induction false} OfZeros(s: string)
    requires forall i :: 0 <= i < |s| ==> s[i] == '0'
    ensures LowFirst(s) == 0
  {
    HighZeros(s, 0);
    assert s[..0] == "";
  }

  // --- signed numerals

  function Body(s: string): string { if s != "" && s[0] == '-' then s[1..] else s }

  /** An optional minus sign and at least one digit. */
  predicate WellFormed(s: string) { Body(s) != "" && AllDigits(Body(s)) }

  function SignedValue(s: string): int {
    if s != "" && s[0] == '-' then -Value(Body(s)) else Value(s)
  }

  /** The one numeral of a number. */
  predicate Canonical(s: string) { Normal(Body(s)) && s != "-0" }

  lemma NormalUnique(s: string, t: string)
    requires Normal(s) && Normal(t) && Value(s) == Value(t)
    ensures s == t
  {
    hide Value;
    if |s| > |t| {
      LongerIsMore(s, t);
    } else if |s| < |t| {
      LongerIsMore(t, s);
    } else {
      var i := 0;
      while i < |s|
        invariant 0 <= i <= |s| && s[..i] == t[..i]
      {
        if s[i] > t[i] {
          FirstDifference(s, t, i);
        } else if s[i] < t[i] {
          FirstDifference(t, s, i);
        }
        assert s[..i + 1] == s[..i] + [s[i]] && t[..i + 1] == t[..i] + [t[i]];
        i := i + 1;
      }
      assert s == s[..i] == t[..i] == t;
    }
  }

  /** Numbers and canonical numerals correspond one to one. */
  lemma CanonicalUnique(s: string, t: string)
    requires Canonical(s) && Canonical(t) && SignedValue(s) == SignedValue(t)
    ensures s == t
  {
    hide Value;
    var a, b := Body(s), Body(t);
    Bounded(a);
    Bounded(b);
    NormalZero(a);
    NormalZero(b);
    assert s == if s[0] == '-' then "-" + a else a;
    assert t == if t[0] == '-' then "-" + b else b;
    NormalUnique(a, b);
  }

  const DELIMS := " +\t\r\n"

  /** What is left when the delimiters at both ends are taken off. */
  function Strip(s: string): string { StripRight(StripLeft(s)) }

  function StripLeft(s: string): (r: string)
    ensures |r| <= |s|
  {
    if s != "" && s[0] in DELIMS then StripLeft(s[1..]) else s
  }

  function StripRight(s: string): (r: string)
    ensures |r| <= |s|
  {
    if s != "" && s[|s| - 1] in DELIMS then StripRight(s[..|s| - 1]) else s
  }

  /** The input denotes a number. */
  predicate Denotes(s: string) { WellFormed(Strip(s)) }

  predicate Minus(s: string) { Strip(s) != "" && Strip(s)[0] == '-' }

  function ValueOf(s: string): int { SignedValue(Strip(s)) }

  /** A signed numeral without delimiters denotes what it looks like. */
  lemma Plain(s: string)
    requires WellFormed(s)
    ensures Strip(s) == s && Denotes(s) && ValueOf(s) == SignedValue(s)
  {
    assert s[|s| - 1] == Body(s)[|Body(s)| - 1];
  }

  // --- what an input is made of

  /** A space, a plus sign, a tab, a carriage return or a line feed. */
  predicate Pads(c: char) { c in {' ', '+', '\t', '\r', '\n'} }

  predicate Padding(s: string) { forall i :: 0 <= i < |s| ==> Pads(s[i]) }

  lemma DelimsPad(c: char)
    ensures c in DELIMS <==> Pads(c)
  {
    assert DELIMS[0] == ' ' && DELIMS[1] == '+' && DELIMS[2] == '\t' && DELIMS[3] == '\r' && DELIMS[4] == '\n';
  }

  /** The digits with padding at both ends, and a minus sign in front of them or none. */
  ghost predicate Written(s: string, left: string, minus: bool, digits: string, right: string) {
    && s == left + (if minus then "-" else "") + digits + right && Padding(left) && Padding(right)
    && digits != "" && forall i :: 0 <= i < |digits| ==> '0' <= digits[i] <= '9'
  }

  lemma {:induction false} StripsLeft(left: string, t: string)
    requires Padding(left) && (t != "" ==> !Pads(t[0]))
    ensures StripLeft(left + t) == t
    decreases |left|
  {
    if left == "" {
      assert left + t == t;
      if t != "" { DelimsPad(t[0]); }
    } else {
      DelimsPad(left[0]);
      assert (left + t)[1..] == left[1..] + t;
      StripsLeft(left[1..], t);
    }
  }

  lemma {:induction false} StripsRight(t: string, right: string)
    requires Padding(right) && (t != "" ==> !Pads(t[|t| - 1]))
    ensures StripRight(t + right) == t
    decreases |right|
  {
    if right == "" {
      assert t + right == t;
      if t != "" { DelimsPad(t[|t| - 1]); }
    } else {
      var n := |right| - 1;
      DelimsPad(right[n]);
      assert (t + right)[..|t + right| - 1] == t + right[..n];
      StripsRight(t, right[..n]);
    }
  }

  lemma {:induction false} LeftOff(s: string) returns (left: string)
    ensures s == left + StripLeft(s) && Padding(left)
    ensures StripLeft(s) != "" ==> !Pads(StripLeft(s)[0])
    decreases |s|
  {
    hide Pads;
    left := "";
    if s != "" { DelimsPad(s[0]); }
    if s != "" && s[0] in DELIMS {
      var rest := LeftOff(s[1..]);
      left := [s[0]] + rest;
    }
  }

  lemma {:induction false} RightOff(s: string) returns (right: string)
    ensures s == StripRight(s) + right && Padding(right)
    ensures StripRight(s) != "" ==> !Pads(StripRight(s)[|StripRight(s)| - 1])
    decreases |s|
  {
    hide Pads;
    right := "";
    if s != "" { DelimsPad(s[|s| - 1]); }
    if s != "" && s[|s| - 1] in DELIMS {
      var rest := RightOff(s[..|s| - 1]);
      right := rest + [s[|s| - 1]];
    }
  }

  /** What is left between the padding at both ends. */
  lemma StripMeans(s: string) returns (left: string, right: string)
    ensures s == left + Strip(s) + right && Padding(left) && Padding(right)
    ensures Strip(s) != "" ==> !Pads(Strip(s)[0]) && !Pads(Strip(s)[|Strip(s)| - 1])
  {
    hide StripLeft, StripRight, Padding;
    left := LeftOff(s);
    right := RightOff(StripLeft(s));
  }

  /** What an input that is written so denotes. */
  lemma WrittenDenotes(s: string, left: string, minus: bool, digits: string, right: string)
    requires Written(s, left, minus, digits, right)
    ensures Denotes(s) && Minus(s) == minus && ValueOf(s) == if minus then -Value(digits) else Value(digits)
  {
    hide StripLeft, StripRight, Value;
    var t := (if minus then "-" else "") + digits;
    assert s == left + (t + right);
    StripsLeft(left, t + right);
    StripsRight(t, right);
    assert Body(t) == digits;
  }

  /** Only inputs that are written so denote a number. */
  lemma DenotesWritten(s: string) returns (left: string, minus: bool, digits: string, right: string)
    requires Denotes(s)
    ensures Written(s, left, minus, digits, right)
  {
    hide Strip;
    left, right := StripMeans(s);
    minus, digits := Minus(s), Body(Strip(s));
  }
}
