/** Decimal integers as int.Parse reads them (restricted to plain digit strings)
    and as a server writes them. */
module Numbers {
  import opened Wrappers
  import opened Errors

  const Int32MaxValue := 0x7FFF_FFFF

  predicate IsDigit(c: char) {
    '0' <= c <= '9'
  }

  predicate AllDigits(s: string) {
    forall k :: 0 <= k < |s| ==> IsDigit(s[k])
  }

  /** The number a digit string denotes, most significant digit first. */
  function DigitsValue(s: string): nat
    requires AllDigits(s)
    decreases |s|
  {
    if |s| == 0 then 0
    else DigitsValue(s[..|s| - 1]) * 10 + ((s[|s| - 1] as int) - ('0' as int))
  }

  /** int.Parse(s, NumberStyles.Integer, invariant culture) on a digit string:
      FormatException for empty or non-digit text, OverflowException above Int32.MaxValue. */
  function ParseInt32(s: string): (r: Result<int, Error>)
    ensures r.Success? <==> |s| > 0 && AllDigits(s) && DigitsValue(s) <= Int32MaxValue
    ensures r.Success? ==> 0 <= r.value <= Int32MaxValue && r.value == DigitsValue(s)
    ensures r.Failure? ==> r.error == FormatException || r.error == OverflowException
  {
    if |s| == 0 || !AllDigits(s) then Failure(FormatException)
    else if DigitsValue(s) > Int32MaxValue then Failure(OverflowException)
    else Success(DigitsValue(s))
  }

  function DigitChar(d: nat): (c: char)
    requires d < 10
    ensures IsDigit(c) && (c as int) - ('0' as int) == d
  {
    (('0' as int) + d) as char
  }

  /** The shortest decimal text of `n`. */
  function DecimalString(n: nat): (s: string)
    ensures |s| >= 1 && AllDigits(s)
    decreases n
  {
    if n < 10 then [DigitChar(n)] else DecimalString(n / 10) + [DigitChar(n % 10)]
  }

  lemma {:induction false} DecimalStringValue(n: nat)
    ensures DigitsValue(DecimalString(n)) == n
    decreases n
  {
    var s := DecimalString(n);
    if n < 10 {
      assert s[..|s| - 1] == [];
    } else {
      DecimalStringValue(n / 10);
      assert s[..|s| - 1] == DecimalString(n / 10);
    }
  }

  /** Parsing the decimal text of any Int32 value gives the value back. */
  lemma ParseDecimalString(n: nat)
    requires n <= Int32MaxValue
    ensures ParseInt32(DecimalString(n)) == Success(n)
  {
    DecimalStringValue(n);
  }
}
