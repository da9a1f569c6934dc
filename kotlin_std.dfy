/**
  The part of the Kotlin/JVM runtime that the timer app leans on: nullable
  values, 32- and 64-bit integers with their wrap-around, integer division
  that truncates toward zero, `String.toIntOrNull()` with the JVM's decimal
  digits, `String.trim()` and the `"%02d"` format with ASCII digits.
 */
module KotlinStd {

  /** A Kotlin nullable value `T?`. */
  datatype Option<+T> = None | Some(value: T)

  const INT_MIN: int := -0x8000_0000
  const INT_MAX: int := 0x7fff_ffff
  const LONG_MIN: int := -0x8000_0000_0000_0000
  const LONG_MAX: int := 0x7fff_ffff_ffff_ffff

  /** Kotlin `Int`. */
  type Int32 = x: int | -0x8000_0000 <= x <= 0x7fff_ffff

  /** Kotlin `Long`. */
  type Int64 = x: int | -0x8000_0000_0000_0000 <= x <= 0x7fff_ffff_ffff_ffff

  /** `Long.toInt()`: keeps the low 32 bits and reads them as two's complement. */
  function ToInt(x: int): (r: Int32)
    ensures INT_MIN <= x <= INT_MAX ==> r == x
  {
    var m := x % 0x1_0000_0000;
    if m <= INT_MAX then m else m - 0x1_0000_0000
  }

  /** `toInt()` differs from its argument by a multiple of 2^32. */
  lemma ToIntWraps(x: int)
    ensures (ToInt(x) - x) % 0x1_0000_0000 == 0
  {
  }

  /** Just past `Int.MAX_VALUE`, `toInt()` lands on the negative side. */
  lemma ToIntJustAboveMax(x: int)
    requires INT_MAX < x < 0x1_0000_0000
    ensures ToInt(x) == x - 0x1_0000_0000
  {
  }

  /** The result of `Long` addition or subtraction, which wraps around on overflow. */
  function WrapLong(x: int): (r: Int64)
    ensures LONG_MIN <= x <= LONG_MAX ==> r == x
  {
    var m := x % 0x1_0000_0000_0000_0000;
    if m <= LONG_MAX then m else m - 0x1_0000_0000_0000_0000
  }

  /** `Long` arithmetic differs from the exact result by a multiple of 2^64. */
  lemma WrapLongWraps(x: int)
    ensures (WrapLong(x) - x) % 0x1_0000_0000_0000_0000 == 0
  {
  }

  /**
    Kotlin's `/` on integers (and `TimeUnit` conversions): the quotient is
    truncated toward zero, so the remainder takes the sign of the dividend.
   */
  function Div(a: int, b: int): (q: int)
    requires b > 0
    ensures a >= 0 ==> 0 <= q <= a && 0 <= a - q * b < b
    ensures a < 0 ==> a <= q <= 0 && -b < a - q * b <= 0
  {
    if a >= 0 then DivFacts(a, b); a / b
    else DivFacts(-a, b); -((-a) / b)
  }

  lemma DivFacts(a: nat, b: int)
    requires b > 0
    ensures 0 <= a / b <= a && 0 <= a - (a / b) * b < b
  {
    var q := a / b;
    var r := a % b;
    assert q * b + r == a && 0 <= r < b;
    assert q >= 0 by {
      if q < 0 {
        MulMonotone(-q, b);
      }
    }
    MulMonotone(q, b);
  }

  /** `x <= x * y` for `x >= 0` and `y >= 1`. */
  lemma MulMonotone(x: int, y: int)
    requires x >= 0 && y >= 1
    ensures x <= x * y
  {
    var i := 1;
    while i < y
      invariant 1 <= i <= y && x <= x * i
    {
      assert x * (i + 1) == x * i + x;
      i := i + 1;
    }
  }

  predicate IsDigit(c: char) {
    '0' <= c <= '9'
  }

  predicate AllDigits(s: string) {
    forall i :: 0 <= i < |s| ==> IsDigit(s[i])
  }

  function DigitChar(d: int): (c: char)
    requires 0 <= d < 10
    ensures IsDigit(c) && c as int - '0' as int == d
  {
    ('0' as int + d) as char
  }

  /** The value of a string of decimal digits, read most significant first. */
  function DigitsValue(s: string): nat
    requires AllDigits(s)
  {
    if s == [] then 0 else DigitsValue(s[..|s| - 1]) * 10 + (s[|s| - 1] as int - '0' as int)
  }

  /** The shortest decimal spelling of `n` (`Long.toString()` for `n >= 0`). */
  function Decimal(n: nat): (s: string)
    ensures |s| >= 1 && AllDigits(s) && DigitsValue(s) == n
    ensures s[0] == '0' ==> n == 0
    ensures n < 100 ==> |s| <= 2
  {
    if n < 10 then [DigitChar(n)]
    else
      var s := Decimal(n / 10) + [DigitChar(n % 10)];
      assert s[..|s| - 1] == Decimal(n / 10);
      s
  }

  /** A leading zero does not change the value of a digit string. */
  lemma {:induction false} LeadingZero(s: string)
    requires AllDigits(s)
    ensures AllDigits("0" + s) && DigitsValue("0" + s) == DigitsValue(s)
  {
    if s != [] {
      var t := s[..|s| - 1];
      LeadingZero(t);
      assert ("0" + s)[..|"0" + s| - 1] == "0" + t;
    }
  }

  /** `Int.toString()` / `Long.toString()`. */
  function ToStr(n: int): string {
    if n < 0 then "-" + Decimal(-n) else Decimal(n)
  }

  /**
    `String.format("%02d", n)` with ASCII digits: the decimal spelling,
    zero-padded to a width of at least two. A negative number already has
    two characters, so it is the sign and the unpadded digits of `-n`.
   */
  function Format02d(n: int): (s: string)
    ensures |s| >= 2 && (IsDigit(s[0]) || s[0] == '-')
    ensures n >= 0 ==> AllDigits(s) && DigitsValue(s) == n
    ensures 0 <= n < 100 ==> |s| == 2
    ensures n < 0 ==> s[0] == '-' && AllDigits(s[1..]) && DigitsValue(s[1..]) == -n && s[1] != '0'
  {
    if n < 0 then "-" + Decimal(-n)
    else if n < 10 then
      LeadingZero(Decimal(n));
      "0" + Decimal(n)
    else Decimal(n)
  }

  /**
    The zero of every run of ten decimal digits (general category Nd) in the
    Basic Multilingual Plane, in increasing order; this set has not changed
    since Unicode 7.0.
   */
  const DECIMAL_ZEROS: seq<int> := [
    0x0030, 0x0660, 0x06F0, 0x07C0, 0x0966, 0x09E6, 0x0A66, 0x0AE6, 0x0B66, 0x0BE6,
    0x0C66, 0x0CE6, 0x0D66, 0x0DE6, 0x0E50, 0x0ED0, 0x0F20, 0x1040, 0x1090, 0x17E0,
    0x1810, 0x1946, 0x19D0, 0x1A80, 0x1A90, 0x1B50, 0x1BB0, 0x1C40, 0x1C50, 0xA620,
    0xA8D0, 0xA900, 0xA9D0, 0xA9F0, 0xAA50, 0xABF0, 0xFF10]

  /** `c` lies in the run of ten digits starting at `DECIMAL_ZEROS[k]`. */
  predicate InRun(c: char, k: int)
    requires 0 <= k < |DECIMAL_ZEROS|
  {
    DECIMAL_ZEROS[k] <= c as int < DECIMAL_ZEROS[k] + 10
  }

  /** The value of `c` as a digit of one of the runs from the `k`-th on, if it is one. */
  function DigitFrom(c: char, k: nat): (d: Option<int>)
    requires k <= |DECIMAL_ZEROS|
    ensures d.Some? ==> 0 <= d.value < 10
    decreases |DECIMAL_ZEROS| - k
  {
    if k == |DECIMAL_ZEROS| then None
    else if InRun(c, k) then Some(c as int - DECIMAL_ZEROS[k])
    else DigitFrom(c, k + 1)
  }

  /** A value the search finds is the offset of `c` in one of the runs it visits. */
  lemma {:induction false} DigitFromFound(c: char, k: nat)
    requires k <= |DECIMAL_ZEROS| && DigitFrom(c, k).Some?
    ensures exists j :: k <= j < |DECIMAL_ZEROS| && c as int == DECIMAL_ZEROS[j] + DigitFrom(c, k).value
    decreases |DECIMAL_ZEROS| - k
  {
    if InRun(c, k) {
      assert c as int == DECIMAL_ZEROS[k] + DigitFrom(c, k).value;
    } else {
      DigitFromFound(c, k + 1);
    }
  }

  /** When the search finds nothing, `c` lies in none of the runs it visits. */
  lemma {:induction false} DigitFromNotFound(c: char, k: nat)
    requires k <= |DECIMAL_ZEROS| && DigitFrom(c, k).None?
    ensures forall j :: k <= j < |DECIMAL_ZEROS| ==> !InRun(c, j)
    decreases |DECIMAL_ZEROS| - k
  {
    if k < |DECIMAL_ZEROS| {
      DigitFromNotFound(c, k + 1);
    }
  }

  /** The runs of `zeros` lie in increasing order without overlapping. */
  predicate RunsAscending(zeros: seq<int>) {
    forall i :: 0 <= i < |zeros| - 1 ==> zeros[i] + 10 <= zeros[i + 1]
  }

  /** In ascending runs, an earlier run lies wholly below a later one. */
  lemma {:induction false} RunsAscendingApart(zeros: seq<int>, i: int, j: int)
    requires RunsAscending(zeros) && 0 <= i < j < |zeros|
    ensures zeros[i] + 10 <= zeros[j]
  {
    if i < j - 1 {
      RunsAscendingApart(zeros, i, j - 1);
    }
  }

  /** A character inside the `j`-th run has its offset in that run as its value. */
  lemma {:induction false} DigitFromInRun(c: char, k: nat, j: int)
    requires k <= j < |DECIMAL_ZEROS| && InRun(c, j)
    ensures DigitFrom(c, k) == Some(c as int - DECIMAL_ZEROS[j])
    decreases j - k
  {
    if k < j {
      DecimalZerosApart(k, j);
      assert !InRun(c, k);
      DigitFromInRun(c, k + 1, j);
    }
  }

  /**
    `Character.digit(c, 10)`, which `toIntOrNull` applies to every UTF-16
    code unit: the value of a decimal digit of any script, and null for
    anything else. A character outside the Basic Multilingual Plane is two
    surrogate code units, neither of them a digit.
   */
  function DigitValue(c: char): (d: Option<int>)
    ensures d.Some? ==> 0 <= d.value < 10
    ensures IsDigit(c) ==> d == Some(c as int - '0' as int)
    ensures c as int >= 0x1_0000 ==> d.None?
  {
    if c < '0' || c > '\U{FF19}' then None
    else if c <= '9' then Some(c as int - '0' as int)
    else DigitFrom(c, 1)
  }

  /** A digit of the run starting at `DECIMAL_ZEROS[k]` reads as its offset in that run. */
  lemma DigitValueInRun(c: char, k: int)
    requires 0 <= k < |DECIMAL_ZEROS| && InRun(c, k)
    ensures DigitValue(c) == Some(c as int - DECIMAL_ZEROS[k])
  {
    if k > 0 {
      DecimalZerosApart(0, k);
      if k < |DECIMAL_ZEROS| - 1 {
        DecimalZerosApart(k, |DECIMAL_ZEROS| - 1);
      }
      DigitFromInRun(c, 1, k);
    }
  }

  /** Exactly the characters of the runs are digits. */
  lemma DigitValueOnlyInRuns(c: char)
    ensures DigitValue(c).Some? <==> exists k :: 0 <= k < |DECIMAL_ZEROS| && InRun(c, k)
  {
    if c < '0' {
      BelowRuns(c);
    } else if c > '\U{FF19}' {
      AboveRuns(c);
    } else if c <= '9' {
      assert InRun(c, 0);
    } else {
      assert !InRun(c, 0);
      var d := DigitFrom(c, 1);
      if d.Some? {
        DigitFromFound(c, 1);
        var j :| 1 <= j < |DECIMAL_ZEROS| && c as int == DECIMAL_ZEROS[j] + d.value;
        assert InRun(c, j);
      } else {
        DigitFromNotFound(c, 1);
        forall k | 0 <= k < |DECIMAL_ZEROS|
          ensures !InRun(c, k)
        {
        }
      }
    }
  }

  /** Nothing below `'0'` lies in a run. */
  lemma BelowRuns(c: char)
    requires c < '0'
    ensures forall k :: 0 <= k < |DECIMAL_ZEROS| ==> !InRun(c, k)
  {
    forall k | 0 < k < |DECIMAL_ZEROS|
      ensures !InRun(c, k)
    {
      DecimalZerosApart(0, k);
    }
  }

  /** Nothing above the last fullwidth digit lies in a run. */
  lemma AboveRuns(c: char)
    requires c > '\U{FF19}'
    ensures forall k :: 0 <= k < |DECIMAL_ZEROS| ==> !InRun(c, k)
  {
    forall k | 0 <= k < |DECIMAL_ZEROS| - 1
      ensures !InRun(c, k)
    {
      DecimalZerosApart(k, |DECIMAL_ZEROS| - 1);
    }
  }

  /** An earlier run of the table lies wholly below a later one. */
  lemma DecimalZerosApart(i: int, j: int)
    requires 0 <= i < j < |DECIMAL_ZEROS|
    ensures DECIMAL_ZEROS[i] + 10 <= DECIMAL_ZEROS[j]
  {
    DecimalZerosAscending();
    RunsAscendingApart(DECIMAL_ZEROS, i, j);
  }

  lemma DecimalZerosAscending()
    ensures RunsAscending(DECIMAL_ZEROS)
  {
  }

  predicate AllDecimalDigits(s: string) {
    forall i :: 0 <= i < |s| ==> DigitValue(s[i]).Some?
  }

  /** The value of a string of decimal digits of any script, read most significant first. */
  function DecimalValue(s: string): nat
    requires AllDecimalDigits(s)
  {
    if s == [] then 0 else DecimalValue(s[..|s| - 1]) * 10 + DigitValue(s[|s| - 1]).value
  }

  /** On ASCII digits the two readings agree. */
  lemma {:induction false} AsciiDecimalValue(s: string)
    requires AllDigits(s)
    ensures AllDecimalDigits(s) && DecimalValue(s) == DigitsValue(s)
  {
    if s != [] {
      AsciiDecimalValue(s[..|s| - 1]);
      assert DigitValue(s[|s| - 1]) == Some(s[|s| - 1] as int - '0' as int);
    }
  }

  /**
    The digit loop of `toIntOrNull`: the value of `d` read most significant
    first, or null at the first character that is not a decimal digit.
   */
  function ParseDecimal(d: string): (r: Option<nat>)
    decreases |d|
  {
    if d == [] then Some(0)
    else
      var init := ParseDecimal(d[..|d| - 1]);
      var last := DigitValue(d[|d| - 1]);
      if init.None? || last.None? then None else Some(init.value * 10 + last.value)
  }

  /** The loop succeeds exactly on strings of decimal digits, with their value. */
  lemma {:induction false} ParseDecimalSpec(d: string)
    ensures ParseDecimal(d).Some? <==> AllDecimalDigits(d)
    ensures ParseDecimal(d).Some? ==> ParseDecimal(d).value == DecimalValue(d)
    decreases |d|
  {
    if d != [] {
      var init := d[..|d| - 1];
      ParseDecimalSpec(init);
      assert AllDecimalDigits(d) <==> AllDecimalDigits(init) && DigitValue(d[|d| - 1]).Some? by {
        assert forall i :: 0 <= i < |init| ==> init[i] == d[i];
      }
    }
  }

  /**
    `String.toIntOrNull()` for radix 10: an optional `-` or `+`, then at least
    one decimal digit, and a value that fits in an `Int`; anything else is null.
   */
  function ToIntOrNull(s: string): (r: Option<Int32>)
  {
    if s == [] then None
    else
      var negative := s[0] == '-';
      var digits := if s[0] == '-' || s[0] == '+' then s[1..] else s;
      var m := ParseDecimal(digits);
      if digits == [] || m.None? then None
      else
        var v: int := if negative then -(m.value as int) else m.value;
        if INT_MIN <= v <= INT_MAX then Some(v) else None
  }

  /** A sign-free run of ASCII digits within range parses as its value. */
  lemma ToIntOrNullAsciiDigits(d: string)
    requires d != [] && AllDigits(d) && DigitsValue(d) <= INT_MAX
    ensures ToIntOrNull(d) == Some(DigitsValue(d))
  {
    AsciiDecimalValue(d);
    ParseDecimalSpec(d);
    assert IsDigit(d[0]);
  }

  /** A minus sign before a run of ASCII digits within range negates its value. */
  lemma ToIntOrNullNegatedAsciiDigits(d: string)
    requires d != [] && AllDigits(d) && DigitsValue(d) <= -INT_MIN
    ensures ToIntOrNull("-" + d) == Some(-(DigitsValue(d) as int))
  {
    AsciiDecimalValue(d);
    ParseDecimalSpec(d);
    var s := "-" + d;
    assert s[0] == '-' && s[1..] == d;
  }

  /** Parsing is the inverse of printing on every `Int`. */
  lemma ToIntOrNullRoundTrip(n: Int32)
    ensures ToIntOrNull(ToStr(n)) == Some(n)
  {
    if n < 0 {
      ToIntOrNullNegatedAsciiDigits(Decimal(-(n as int)));
    } else {
      ToIntOrNullAsciiDigits(Decimal(n as int));
    }
  }

  /** An accepted string is a sign-free or signed run of decimal digits spelling the value. */
  lemma ToIntOrNullAccepted(s: string)
    requires ToIntOrNull(s).Some?
    ensures var d := if s[0] == '-' || s[0] == '+' then s[1..] else s;
      d != [] && AllDecimalDigits(d)
      && ToIntOrNull(s).value == if s[0] == '-' then -(DecimalValue(d) as int) else DecimalValue(d)
  {
    ParseDecimalSpec(if s[0] == '-' || s[0] == '+' then s[1..] else s);
  }

  /** A digit alone, or after a sign, parses as its value or its negation. */
  lemma ToIntOrNullOneDigit(c: char, v: int)
    requires DigitValue(c) == Some(v)
    ensures ToIntOrNull([c]) == Some(v)
    ensures ToIntOrNull(['+', c]) == Some(v) && ToIntOrNull(['-', c]) == Some(-v)
  {
    assert c != '-' && c != '+';
    assert [c][..0] == [];
    assert ParseDecimal([c]) == Some(v);
    assert ['+', c][1..] == [c] && ['-', c][1..] == [c];
  }

  /** Two digits after a plus sign parse as a two-digit number. */
  lemma ToIntOrNullTwoDigits(c1: char, v1: int, c2: char, v2: int)
    requires DigitValue(c1) == Some(v1) && DigitValue(c2) == Some(v2)
    ensures ToIntOrNull(['+', c1, c2]) == Some(10 * v1 + v2)
  {
    var b := [c1, c2];
    assert b[..1] == [c1] && [c1][..0] == [];
    assert ParseDecimal([c1]) == Some(v1);
    assert ParseDecimal(b) == Some(10 * v1 + v2);
    assert ['+', c1, c2][1..] == b;
  }

  /** Digits of other scripts are read too: an Arabic-Indic five parses as 5. */
  lemma ToIntOrNullArabicIndic()
    ensures ToIntOrNull("\U{0665}") == Some(5)
  {
    DigitValueInRun('\U{0665}', 1);
    ToIntOrNullOneDigit('\U{0665}', 5);
  }

  /** Fullwidth digits after a sign: "+１２" parses as 12. */
  lemma ToIntOrNullFullwidth()
    ensures ToIntOrNull("+\U{FF11}\U{FF12}") == Some(12)
  {
    DigitValueInRun('\U{FF11}', 36);
    DigitValueInRun('\U{FF12}', 36);
    ToIntOrNullTwoDigits('\U{FF11}', 1, '\U{FF12}', 2);
  }

  /** A Devanagari seven after a minus sign parses as -7. */
  lemma ToIntOrNullDevanagari()
    ensures ToIntOrNull("-\U{096D}") == Some(-7)
  {
    DigitValueInRun('\U{096D}', 4);
    ToIntOrNullOneDigit('\U{096D}', 7);
  }

  /** A mathematical digit outside the Basic Multilingual Plane is not read. */
  lemma ToIntOrNullSupplementary()
    ensures ToIntOrNull("\U{1D7D3}") == None
  {
  }

  /**
    Kotlin `Char.isWhitespace()`: the JVM whitespace controls (tab to carriage
    return, the four separators U+001C..U+001F) and every space separator,
    line separator and paragraph separator, non-breaking ones included.
   */
  predicate IsWhitespace(c: char) {
    var k := c as int;
    (0x09 <= k <= 0x0D) || (0x1C <= k <= 0x20) || k == 0xA0 || k == 0x1680
    || (0x2000 <= k <= 0x200A) || k == 0x2028 || k == 0x2029 || k == 0x202F
    || k == 0x205F || k == 0x3000
  }

  /** Drops the leading whitespace. */
  function TrimStart(s: string): (r: string)
    ensures |r| <= |s| && r == s[|s| - |r|..]
    ensures forall i :: 0 <= i < |s| - |r| ==> IsWhitespace(s[i])
    ensures r != [] ==> !IsWhitespace(r[0])
  {
    if s != [] && IsWhitespace(s[0]) then TrimStart(s[1..]) else s
  }

  /** Drops the trailing whitespace. */
  function TrimEnd(s: string): (r: string)
    ensures |r| <= |s| && r == s[..|r|]
    ensures forall i :: |r| <= i < |s| ==> IsWhitespace(s[i])
    ensures r != [] ==> !IsWhitespace(r[|r| - 1])
  {
    if s != [] && IsWhitespace(s[|s| - 1]) then TrimEnd(s[..|s| - 1]) else s
  }

  /** `s[i..j]` is what is left of `s` once leading and trailing whitespace is dropped. */
  predicate IsTrimmedInfix(s: string, i: int, j: int) {
    && 0 <= i <= j <= |s|
    && (forall k :: 0 <= k < i ==> IsWhitespace(s[k]))
    && (forall k :: j <= k < |s| ==> IsWhitespace(s[k]))
    && (i < j ==> !IsWhitespace(s[i]) && !IsWhitespace(s[j - 1]))
  }

  /** `String.trim()`. */
  function Trim(s: string): (r: string)
    ensures |r| <= |s|
    ensures r != [] ==> !IsWhitespace(r[0]) && !IsWhitespace(r[|r| - 1])
  {
    TrimEnd(TrimStart(s))
  }

  /** What trimming keeps is one contiguous piece of `s`, with only whitespace around it. */
  lemma TrimIsInfix(s: string)
    ensures exists i, j :: IsTrimmedInfix(s, i, j) && Trim(s) == s[i..j]
  {
    var a := TrimStart(s);
    var r := TrimEnd(a);
    var i := |s| - |a|;
    var j := i + |r|;
    assert r == s[i..j];
    assert forall k :: j <= k < |s| ==> s[k] == a[k - i];
    assert IsTrimmedInfix(s, i, j);
  }

  /** Trimming leaves nothing exactly when every character is whitespace. */
  lemma TrimEmptyIff(s: string)
    ensures Trim(s) == [] <==> forall i :: 0 <= i < |s| ==> IsWhitespace(s[i])
  {
    var a := TrimStart(s);
    if Trim(s) == [] {
      forall i | 0 <= i < |s| ensures IsWhitespace(s[i]) {
        if i >= |s| - |a| {
          assert s[i] == a[i - (|s| - |a|)];
        }
      }
    } else {
      var r := Trim(s);
      assert r[0] == a[0] == s[|s| - |a|];
    }
  }
}
