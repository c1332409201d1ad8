/** The big-number arithmetic of base/int.cc and the string helpers of base/util.cc it rests on. */
module BigInt {

  import opened Numeral

  datatype Code = Ok | NotAllDigits | SubError | InvalidParam

  // --- base/util.cc

  method Reverse(src: string) returns (dst: string)
    ensures dst == Reversed(src)
  {
    dst := "";
    var i := 0;
    while i < |src|
      invariant 0 <= i <= |src| == |Reversed(src)| && dst == Reversed(src)[..i]
    {
      ReversedAt(src, i);
      dst := dst + [src[|src| - 1 - i]];
      i := i + 1;
    }
  }

  method TrimLeftChar(s: string, delim: char) returns (out: string)
    ensures exists k :: 0 <= k <= |s| && out == s[k..] && forall i :: 0 <= i < k ==> s[i] == delim
    ensures out != "" ==> out[0] != delim
  {
    var i := 0;
    while i < |s| && s[i] == delim
      invariant 0 <= i <= |s| && forall j :: 0 <= j < i ==> s[j] == delim
    {
      i := i + 1;
    }
    out := s[i..];
  }

  method TrimRightChar(s: string, delim: char) returns (out: string)
    ensures exists k :: 0 <= k <= |s| && out == s[..k] && forall i :: k <= i < |s| ==> s[i] == delim
    ensures out != "" ==> out[|out| - 1] != delim
  {
    var i := |s| - 1;
    while i >= 0 && s[i] == delim
      invariant -1 <= i < |s| && forall j :: i < j < |s| ==> s[j] == delim
    {
      i := i - 1;
    }
    out := s[..i + 1];
  }

  method TrimLeft(s: string) returns (out: string)
    ensures out == StripLeft(s)
  {
    var i := 0;
    while i < |s| && s[i] in DELIMS
      invariant 0 <= i <= |s| && StripLeft(s[i..]) == StripLeft(s)
    {
      assert s[i..][1..] == s[i + 1..];
      i := i + 1;
    }
    out := s[i..];
  }

  method TrimRight(s: string) returns (out: string)
    ensures out == StripRight(s)
  {
    var i := |s| - 1;
    assert s[..i + 1] == s;
    while i >= 0 && s[i] in DELIMS
      invariant -1 <= i < |s| && StripRight(s[..i + 1]) == StripRight(s)
    {
      assert s[..i + 1][..i] == s[..i];
      i := i - 1;
    }
    out := s[..i + 1];
  }

  method Trim(s: string) returns (out: string)
    ensures out == Strip(s)
    ensures exists i, j :: 0 <= i <= j <= |s| && out == s[i..j] && Padding(s[..i]) && Padding(s[j..])
    ensures out != "" ==> out[0] !in {' ', '+', '\t', '\r', '\n'}
    ensures out != "" ==> out[|out| - 1] !in {' ', '+', '\t', '\r', '\n'}
  {
    hide Padding, StripLeft, StripRight;
    var buf := TrimLeft(s);
    out := TrimRight(buf);
    TrimmedParts(s);
  }

  lemma TrimmedParts(s: string)
    ensures exists i, j :: 0 <= i <= j <= |s| && Strip(s) == s[i..j] && Padding(s[..i]) && Padding(s[j..])
    ensures Strip(s) != "" ==> Strip(s)[0] !in {' ', '+', '\t', '\r', '\n'}
    ensures Strip(s) != "" ==> Strip(s)[|Strip(s)| - 1] !in {' ', '+', '\t', '\r', '\n'}
  {
    hide Strip;
    var left, right := StripMeans(s);
    var i, j := |left|, |s| - |right|;
    assert Strip(s) == s[i..j] && s[..i] == left && s[j..] == right;
  }

  /** Reads a number: its sign and its normal numeral. */
  method CheckAndGetIfIsAllNum(num: string) returns (isAllNum: bool, postNum: string, isNegative: bool)
    ensures isAllNum == Denotes(num)
    ensures isAllNum ==> Normal(postNum) && ValueOf(num) == if isNegative then -Value(postNum) else Value(postNum)
    ensures isAllNum ==> isNegative == Minus(num)
  {
    hide Value, Strip, Normal, SignedValue;
    isAllNum, postNum, isNegative := false, "", false;
    var hasNum := false;
    var tmpNum := Trim(num);
    var i := 0;
    while i < |tmpNum|
      invariant 0 <= i <= |tmpNum|
      invariant forall j :: 0 <= j < i ==> IsDigit(tmpNum[j]) || (j == 0 && tmpNum[j] == '-')
      invariant hasNum <==> i > (if i > 0 && tmpNum[0] == '-' then 1 else 0)
    {
      if IsDigit(tmpNum[i]) {
        hasNum := true;
      } else if i == 0 && tmpNum[i] == '-' {
      } else {
        NotWellFormed(tmpNum, i);
        return;
      }
      i := i + 1;
    }
    if hasNum {
      Formed(tmpNum);
      isAllNum := true;
      postNum, isNegative := Normalize(tmpNum);
    } else {
      assert |Body(tmpNum)| == 0;
    }
  }

  /** Takes the sign and the leading zeros off. */
  method Normalize(tmpNum: string) returns (postNum: string, isNegative: bool)
    requires WellFormed(tmpNum)
    ensures Normal(postNum) && SignedValue(tmpNum) == if isNegative then -Value(postNum) else Value(postNum)
    ensures isNegative == (tmpNum[0] == '-')
  {
    hide Value;
    isNegative := |tmpNum| > 0 && tmpNum[0] == '-';
    var body := if isNegative then tmpNum[1..] else tmpNum;
    postNum := TrimLeftChar(body, '0');
    NoLeadingZeros(body, postNum);
    if postNum == "" {
      postNum := "0";
      ZeroValue();
    }
  }

  lemma ZeroValue()
    ensures Value("0") == 0 == Value("")
  {}

  lemma NoLeadingZeros(s: string, t: string)
    requires AllDigits(s) && exists k :: 0 <= k <= |s| && t == s[k..] && forall i :: 0 <= i < k ==> s[i] == '0'
    ensures AllDigits(t) && Value(t) == Value(s)
  {
    var k :| 0 <= k <= |s| && t == s[k..] && forall i :: 0 <= i < k ==> s[i] == '0';
    LeadingZeros(s, k);
  }

  lemma Formed(s: string)
    requires forall j :: 0 <= j < |s| ==> IsDigit(s[j]) || (j == 0 && s[j] == '-')
    requires |s| > if |s| > 0 && s[0] == '-' then 1 else 0
    ensures WellFormed(s)
  {}

  lemma NotWellFormed(s: string, i: nat)
    requires i < |s| && !IsDigit(s[i]) && !(i == 0 && s[i] == '-')
    ensures !WellFormed(s)
  {
    if s[0] == '-' {
      assert Body(s)[i - 1] == s[i];
    }
  }

  /** Compares two normal numerals. */
  method GetBigAndLitteNum(postLn: string, postRn: string) returns (postBig: string, postLitte: string, subFlags: int)
    requires Normal(postLn) && Normal(postRn)
    ensures subFlags == 0 <==> Value(postLn) == Value(postRn)
    ensures subFlags > 0 ==> postBig == postLn && postLitte == postRn && Value(postLn) > Value(postRn)
    ensures subFlags < 0 ==> postBig == postRn && postLitte == postLn && Value(postLn) < Value(postRn)
    ensures subFlags != 0 ==> |postBig| >= |postLitte|
  {
    postBig, postLitte, subFlags := "", "", 0;
    if |postLn| > |postRn| {
      LongerIsMore(postLn, postRn);
      return postLn, postRn, 1;
    } else if |postLn| < |postRn| {
      LongerIsMore(postRn, postLn);
      return postRn, postLn, -1;
    }
    var i := 0;
    while i < |postLn|
      invariant 0 <= i <= |postLn| && postLn[..i] == postRn[..i]
    {
      if postLn[i] > postRn[i] {
        FirstDifference(postLn, postRn, i);
        return postLn, postRn, 1;
      } else if postLn[i] < postRn[i] {
        FirstDifference(postRn, postLn, i);
        return postRn, postLn, -1;
      }
      i := i + 1;
    }
    assert postLn == postLn[..i] == postRn[..i] == postRn;
  }

  // --- base/int.cc, the digit loops

  /** Appends the digit of a column sum below twenty. */
  method AddDigit(tmp: string, sum: int) returns (tmp': string, carry: int)
    requires 0 <= sum < 20 && AllDigits(tmp)
    ensures AllDigits(tmp') && |tmp'| == |tmp| + 1 && 0 <= carry <= 1
    ensures LowFirst(tmp') + Scale(carry, |tmp'|) == LowFirst(tmp) + Scale(sum, |tmp|)
  {
    var digit := sum;
    if digit >= 10 {
      carry := 1;
      digit := digit - 10;
    } else {
      carry := 0;
    }
    tmp' := tmp + [CharOf(digit)];
    Appended(tmp, CharOf(digit));
    Column(sum, digit, carry, |tmp|);
  }

  /** Appends the digit of a column difference. */
  method SubDigit(tmp: string, difference: int) returns (tmp': string, borrow: int)
    requires -10 <= difference < 10 && AllDigits(tmp)
    ensures AllDigits(tmp') && |tmp'| == |tmp| + 1 && -1 <= borrow <= 0
    ensures LowFirst(tmp') + Scale(borrow, |tmp'|) == LowFirst(tmp) + Scale(difference, |tmp|)
  {
    var digit := difference;
    if digit < 0 {
      borrow := -1;
      digit := digit + 10;
    } else {
      borrow := 0;
    }
    tmp' := tmp + [CharOf(digit)];
    Appended(tmp, CharOf(digit));
    Column(difference, digit, borrow, |tmp|);
  }

  lemma Empty(s: string, t: string)
    ensures LowFirst("") == 0 == Value(Low(s, 0)) == Value(Low(t, 0)) && Scale(0, 0) == 0
  {}

  lemma LowBeyond(s: string, i: nat)
    requires i >= |s|
    ensures Low(s, i + 1) == Low(s, i) == s
  {}

  lemma LowWhole(s: string, i: nat)
    requires i >= |s|
    ensures Low(s, i) == s
  {}

  lemma SumNormal(l: string, r: string, sum: string)
    requires Normal(l) && Normal(r) && AllDigits(sum) && Value(sum) == Value(l) + Value(r)
    requires var m := if |l| < |r| then |r| else |l|; |sum| == m || (|sum| == m + 1 && sum[0] != '0')
    ensures Normal(sum)
  {
    hide Value;
    var long := if |l| < |r| then r else l;
    Bounded(l);
    Bounded(r);
    HighDigit(long);
    HighDigit(sum);
  }

  method BigAddInternal(postLn: string, postRn: string) returns (result: string)
    requires AllDigits(postLn) && AllDigits(postRn)
    ensures AllDigits(result) && Value(result) == Value(postLn) + Value(postRn)
    ensures Normal(postLn) && Normal(postRn) ==> Normal(result)
  {
    hide Value, LowFirst, Scale, Reversed, Low;
    var i, carry, tmp := 0, 0, "";
    var minLen := if |postLn| < |postRn| then |postLn| else |postRn|;
    Empty(postLn, postRn);
    while i < minLen
      invariant 0 <= i <= minLen && |tmp| == i && AllDigits(tmp) && 0 <= carry <= 1
      invariant LowFirst(tmp) + Scale(carry, i) == Value(Low(postLn, i)) + Value(Low(postRn, i))
    {
      var l, r := DigitOf(postLn[|postLn| - 1 - i]), DigitOf(postRn[|postRn| - 1 - i]);
      LowNext(postLn, i);
      LowNext(postRn, i);
      ScaleSum(l, r, i);
      ScaleSum(l + r, carry, i);
      tmp, carry := AddDigit(tmp, l + r + carry);
      i := i + 1;
    }
    while i < |postLn|
      invariant minLen <= i && (i <= |postLn| || i == minLen) && |tmp| == i && AllDigits(tmp) && 0 <= carry <= 1
      invariant LowFirst(tmp) + Scale(carry, i) == Value(Low(postLn, i)) + Value(Low(postRn, i))
    {
      var l := DigitOf(postLn[|postLn| - 1 - i]);
      LowNext(postLn, i);
      LowBeyond(postRn, i);
      ScaleSum(l, carry, i);
      tmp, carry := AddDigit(tmp, l + carry);
      i := i + 1;
    }
    while i < |postRn|
      invariant |postLn| <= i && (i <= |postRn| || i == |postLn|) && |tmp| == i && AllDigits(tmp) && 0 <= carry <= 1
      invariant LowFirst(tmp) + Scale(carry, i) == Value(Low(postLn, i)) + Value(Low(postRn, i))
    {
      var r := DigitOf(postRn[|postRn| - 1 - i]);
      LowNext(postRn, i);
      LowBeyond(postLn, i);
      ScaleSum(r, carry, i);
      tmp, carry := AddDigit(tmp, r + carry);
      i := i + 1;
    }
    LowWhole(postLn, i);
    LowWhole(postRn, i);
    ScaleZero(i);
    if carry >= 1 {
      Appended(tmp, CharOf(carry));
      tmp := tmp + [CharOf(carry)];
    }
    ReversedValue(tmp);
    result := Reverse(tmp);
    if Normal(postLn) && Normal(postRn) {
      if carry >= 1 { ReversedAt(tmp, 0); }
      SumNormal(postLn, postRn, result);
    }
  }

  /** Subtracts normal numerals: the borrow is gone at the end, so that there is no error. */
  method BigSubInternal(postLn: string, postRn: string) returns (code: Code, result: string)
    requires Normal(postLn) && Normal(postRn)
    ensures code == Ok && Canonical(result) && SignedValue(result) == Value(postLn) - Value(postRn)
  {
    hide Value, LowFirst, Scale, Reversed, Low, SignedValue, Canonical;
    var big, litte, subFlags := GetBigAndLitteNum(postLn, postRn);
    if subFlags == 0 {
      ZeroCanonical();
      return Ok, "0";
    }
    var i, borrow, tmp := 0, 0, "";
    Empty(big, litte);
    while i < |litte|
      invariant 0 <= i <= |litte| && |tmp| == i && AllDigits(tmp) && -1 <= borrow <= 0
      invariant LowFirst(tmp) + Scale(borrow, i) == Value(Low(big, i)) - Value(Low(litte, i))
    {
      var l, r := DigitOf(big[|big| - 1 - i]), DigitOf(litte[|litte| - 1 - i]);
      LowNext(big, i);
      LowNext(litte, i);
      ScaleSum(l - r, r, i);
      ScaleSum(l - r, borrow, i);
      tmp, borrow := SubDigit(tmp, l - r + borrow);
      i := i + 1;
    }
    while i < |big|
      invariant |litte| <= i <= |big| && |tmp| == i && AllDigits(tmp) && -1 <= borrow <= 0
      invariant LowFirst(tmp) + Scale(borrow, i) == Value(Low(big, i)) - Value(Low(litte, i))
    {
      var l := DigitOf(big[|big| - 1 - i]);
      LowNext(big, i);
      LowBeyond(litte, i);
      ScaleSum(l, borrow, i);
      tmp, borrow := SubDigit(tmp, l + borrow);
      i := i + 1;
    }
    LowWhole(big, i);
    LowWhole(litte, i);
    BorrowGone(tmp, borrow);
    if borrow != 0 { return SubError, ""; }
    ScaleZero(i);
    var tmpResult := TrimRightChar(tmp, '0');
    Trimmed(tmp, tmpResult);
    var positive := tmpResult;
    if subFlags < 0 { tmpResult := tmpResult + "-"; }
    result := Reverse(tmpResult);
    Signed(positive, subFlags < 0, result);
    code := Ok;
  }

  lemma ZeroCanonical()
    ensures Canonical("0") && SignedValue("0") == 0
  {}

  /** The digits alone cannot make up for a borrow. */
  lemma BorrowGone(tmp: string, borrow: int)
    requires AllDigits(tmp) && -1 <= borrow <= 0 && LowFirst(tmp) + Scale(borrow, |tmp|) > 0
    ensures borrow == 0
  {
    hide Scale, LowFirst;
    LowFirstBounded(tmp);
    ScaleSum(1, -1, |tmp|);
    ScaleZero(|tmp|);
  }

  lemma Trimmed(s: string, t: string)
    requires AllDigits(s) && exists k :: 0 <= k <= |s| && t == s[..k] && forall i :: k <= i < |s| ==> s[i] == '0'
    ensures AllDigits(t) && LowFirst(t) == LowFirst(s)
  {
    var k :| 0 <= k <= |s| && t == s[..k] && forall i :: k <= i < |s| ==> s[i] == '0';
    HighZeros(s, k);
  }

  /** Digits, the lowest first and no zero last, read backwards with or without a sign. */
  lemma Signed(positive: string, negative: bool, result: string)
    requires positive != "" && AllDigits(positive) && LowFirst(positive) > 0 && positive[|positive| - 1] != '0'
    requires result == Reversed(if negative then positive + "-" else positive)
    ensures Canonical(result)
    ensures SignedValue(result) == if negative then -LowFirst(positive) else LowFirst(positive)
  {
    hide Value, LowFirst;
    ReversedValue(positive);
    ReversedAt(positive, 0);
    assert (positive + "-")[..|positive|] == positive;
    assert result == if negative then "-" + Reversed(positive) else Reversed(positive);
    assert Body(result) == Reversed(positive);
  }

  // --- multiplication

  /** One row: the numeral times one digit, i zeros behind it, the lowest digit first. */
  method MultiplyRow(postRn: string, digit: int, i: nat) returns (row: string)
    requires AllDigits(postRn) && 0 <= digit <= 9
    ensures AllDigits(row) && LowFirst(row) == Scale(digit * Value(postRn), i)
  {
    hide Value, LowFirst, Scale, Low;
    var carry, j := 0, 0;
    row := seq(i, _ => '0');
    OfZeros(row);
    Empty(postRn, postRn);
    ScaleZero(i);
    assert digit * 0 == 0;
    while j < |postRn|
      invariant 0 <= j <= |postRn| && |row| == i + j && AllDigits(row) && 0 <= carry <= 8
      invariant LowFirst(row) + Scale(carry, i + j) == Scale(digit * Value(Low(postRn, j)), i)
    {
      var r := DigitOf(postRn[|postRn| - 1 - j]);
      LowNext(postRn, j);
      RowStep(digit, r, Value(Low(postRn, j)), i, j);
      DigitProduct(digit, r);
      ScaleSum(digit * r, carry, i + j);
      var sum := digit * r + carry;
      carry := sum / 10;
      Column(sum, sum % 10, carry, i + j);
      Appended(row, CharOf(sum % 10));
      row := row + [CharOf(sum % 10)];
      j := j + 1;
    }
    LowWhole(postRn, j);
    ScaleZero(i + j);
    if carry > 0 {
      Appended(row, CharOf(carry));
      row := row + [CharOf(carry)];
    }
  }

  lemma DigitProduct(a: int, b: int)
    requires 0 <= a <= 9 && 0 <= b <= 9
    ensures 0 <= a * b <= 81
  {
    assert a * b <= 9 * b;
  }

  lemma RowStep(digit: int, r: int, low: int, i: nat, j: nat)
    ensures Scale(digit * (Scale(r, j) + low), i) == Scale(digit * r, i + j) + Scale(digit * low, i)
  {
    hide Scale;
    assert digit * (Scale(r, j) + low) == digit * Scale(r, j) + digit * low;
    ScaleMul(digit, r, j);
    ScaleSum(Scale(digit * r, j), digit * low, i);
    ScaleScale(digit * r, j, i);
  }

  method BigMultiplyInternal(postLn: string, postRn: string) returns (code: Code, result: string)
    requires AllDigits(postLn) && AllDigits(postRn)
    ensures code == if postLn == "" || postRn == "" then InvalidParam else Ok
    ensures code == Ok ==> Normal(result) && Value(result) == Value(postLn) * Value(postRn)
  {
    hide Value, LowFirst, Scale, Low;
    if postLn == "" || postRn == "" { return InvalidParam, ""; }
    var n := |postLn|;
    var rows: seq<string> := [];
    var i := 0;
    while i < n
      invariant 0 <= i <= n && |rows| == i
      invariant forall t: nat :: t < i ==> IsRow(rows[t], postLn, postRn, t)
    {
      var row := MultiplyRow(postRn, DigitOf(postLn[n - 1 - i]), i);
      rows := rows + [row];
      i := i + 1;
    }
    i := 0;
    while i < |rows|
      invariant 0 <= i <= |rows| == n
      invariant forall t: nat :: i <= t < n ==> IsRow(rows[t], postLn, postRn, t)
      invariant forall t: nat :: t < i ==> IsTerm(rows[t], postLn, postRn, t)
    {
      ReversedValue(rows[i]);
      var one := Reverse(rows[i]);
      rows := rows[i := one];
      i := i + 1;
    }
    var tmpSum := rows[0];
    assert IsTerm(rows[0], postLn, postRn, 0);
    FirstTerm(postLn, postRn, tmpSum);
    i := 1;
    while i < |rows|
      invariant 1 <= i <= |rows| == n && AllDigits(tmpSum) && Value(tmpSum) == Value(Low(postLn, i)) * Value(postRn)
      invariant forall t: nat :: t < n ==> IsTerm(rows[t], postLn, postRn, t)
    {
      assert IsTerm(rows[i], postLn, postRn, i);
      NextTerm(postLn, postRn, i);
      tmpSum := BigAddInternal(tmpSum, rows[i]);
      i := i + 1;
    }
    LowWhole(postLn, n);
    result := TrimLeftChar(tmpSum, '0');
    NoLeadingZeros(tmpSum, result);
    if result == "" {
      result := "0";
      ZeroValue();
    }
    code := Ok;
  }

  ghost predicate IsRow(row: string, postLn: string, postRn: string, t: nat) {
    && t < |postLn| && AllDigits(row)
    && LowFirst(row) == Scale(DigitOf(postLn[|postLn| - 1 - t]) * Value(postRn), t)
  }

  ghost predicate IsTerm(row: string, postLn: string, postRn: string, t: nat) {
    && t < |postLn| && AllDigits(row)
    && Value(row) == Scale(DigitOf(postLn[|postLn| - 1 - t]) * Value(postRn), t)
  }

  lemma FirstTerm(l: string, r: string, term: string)
    requires IsTerm(term, l, r, 0)
    ensures Value(term) == Value(Low(l, 1)) * Value(r)
  {
    hide Value, Low;
    var d, v := DigitOf(l[|l| - 1]), Value(r);
    LowNext(l, 0);
    Empty(l, l);
    assert Scale(d * v, 0) == d * v && Scale(d, 0) == d;
  }

  lemma NextTerm(l: string, r: string, i: nat)
    requires i < |l|
    ensures Value(Low(l, i)) * Value(r) + Scale(DigitOf(l[|l| - 1 - i]) * Value(r), i)
      == Value(Low(l, i + 1)) * Value(r)
  {
    hide Scale, Value, Low;
    var d, v, low := DigitOf(l[|l| - 1 - i]), Value(r), Value(Low(l, i));
    LowNext(l, i);
    ScaleMul(v, d, i);
    assert v * d == d * v;
    assert (Scale(d, i) + low) * v == v * Scale(d, i) + low * v;
  }

  // --- the signed operations

  /** A result with its sign put in front. */
  lemma Negated(post: string)
    requires Normal(post)
    ensures WellFormed("-" + post) && SignedValue("-" + post) == -Value(post)
    ensures Canonical("-" + post) <==> post != "0"
  {
    assert Body("-" + post) == post;
  }

  lemma Unsigned(post: string)
    requires Normal(post)
    ensures WellFormed(post) && SignedValue(post) == Value(post) && Canonical(post)
  {}

  lemma CanonicalPlain(s: string)
    requires Canonical(s)
    ensures WellFormed(s)
  {}

  method BigAdd(ln: string, rn: string) returns (code: Code, result: string)
    ensures code == if Denotes(ln) && Denotes(rn) then Ok else NotAllDigits
    ensures code == Ok ==> Denotes(result) && ValueOf(result) == ValueOf(ln) + ValueOf(rn)
    ensures code == Ok ==> (Canonical(result) <==> !(Minus(ln) && Minus(rn) && ValueOf(ln) + ValueOf(rn) == 0))
    ensures code == Ok && !Canonical(result) ==> result == "-0"
  {
    hide Value, Normal, Canonical, SignedValue, Strip, WellFormed;
    result := "";
    var isLnNum, postLn, isLnNegative := CheckAndGetIfIsAllNum(ln);
    if !isLnNum { return NotAllDigits, result; }
    var isRnNum, postRn, isRnNegative := CheckAndGetIfIsAllNum(rn);
    if !isRnNum { return NotAllDigits, result; }
    NormalDigits(postLn);
    NormalDigits(postRn);
    if isLnNegative == isRnNegative {
      result := BigAddInternal(postLn, postRn);
      Unsigned(result);
      NormalZero(result);
      if isLnNegative {
        Negated(result);
        result := "-" + result;
      }
    } else if isLnNegative {
      code, result := BigSubInternal(postRn, postLn);
      CanonicalPlain(result);
    } else {
      code, result := BigSubInternal(postLn, postRn);
      CanonicalPlain(result);
    }
    Plain(result);
    code := Ok;
  }

  lemma NormalDigits(s: string)
    requires Normal(s)
    ensures AllDigits(s) && s != ""
  {}

  method BigSub(ln: string, rn: string) returns (code: Code, result: string)
    ensures code == if Denotes(ln) && Denotes(rn) then Ok else NotAllDigits
    ensures code == Ok ==> Denotes(result) && ValueOf(result) == ValueOf(ln) - ValueOf(rn)
    ensures code == Ok ==> (Canonical(result) <==> !(Minus(ln) && !Minus(rn) && ValueOf(ln) - ValueOf(rn) == 0))
    ensures code == Ok && !Canonical(result) ==> result == "-0"
  {
    hide Value, Normal, Canonical, SignedValue, Strip, WellFormed;
    result := "";
    var isLnNum, postLn, isLnNegative := CheckAndGetIfIsAllNum(ln);
    if !isLnNum { return NotAllDigits, result; }
    var isRnNum, postRn, isRnNegative := CheckAndGetIfIsAllNum(rn);
    if !isRnNum { return NotAllDigits, result; }
    NormalDigits(postLn);
    NormalDigits(postRn);
    if isLnNegative && isRnNegative {
      code, result := BigSubInternal(postRn, postLn);
      CanonicalPlain(result);
    } else if !isLnNegative && !isRnNegative {
      code, result := BigSubInternal(postLn, postRn);
      CanonicalPlain(result);
    } else {
      result := BigAddInternal(postLn, postRn);
      Unsigned(result);
      NormalZero(result);
      if isLnNegative {
        Negated(result);
        result := "-" + result;
      }
    }
    Plain(result);
    code := Ok;
  }

  /** "-0" is a numeral of 0 with a minus sign. */
  lemma MinusZero()
    ensures Denotes("-0") && Minus("-0") && ValueOf("-0") == 0
    ensures Denotes("0") && !Minus("0") && ValueOf("0") == 0
  {
    assert Body("-0") == "0" && Body("0") == "0";
    Plain("-0");
    Plain("0");
  }

  /** The sums and differences that are not canonical: of "-0" and "-0", and of "-0" and "0". */
  method NegativeZeros() returns (sum: string, difference: string)
    ensures sum == "-0" && difference == "-0" && !Canonical("-0")
  {
    hide Denotes, Minus, ValueOf;
    MinusZero();
    var code;
    code, sum := BigAdd("-0", "-0");
    code, difference := BigSub("-0", "0");
  }

  method BigMultiply(ln: string, rn: string) returns (code: Code, result: string)
    ensures code == if Denotes(ln) && Denotes(rn) then Ok else NotAllDigits
    ensures code == Ok ==> Denotes(result) && ValueOf(result) == ValueOf(ln) * ValueOf(rn) && Canonical(result)
  {
    hide Value, Normal, Canonical, SignedValue, Strip, WellFormed;
    result := "";
    var isLnNum, postLn, isLnNegative := CheckAndGetIfIsAllNum(ln);
    if !isLnNum { return NotAllDigits, result; }
    var isRnNum, postRn, isRnNegative := CheckAndGetIfIsAllNum(rn);
    if !isRnNum { return NotAllDigits, result; }
    NormalDigits(postLn);
    NormalDigits(postRn);
    code, result := BigMultiplyInternal(postLn, postRn);
    Unsigned(result);
    NormalZero(result);
    Signs(Value(postLn), Value(postRn));
    if isLnNegative != isRnNegative {
      if result != "0" {
        Negated(result);
        result := "-" + result;
      }
    }
    Plain(result);
    code := Ok;
  }

  lemma Signs(a: int, b: int)
    ensures (-a) * (-b) == a * b && (-a) * b == -(a * b) == a * (-b)
  {}
}
