/**
 * Stand-ins for the parts of the .NET base library that the decoder calls:
 * the exceptions it can raise, `ReadOnlySpan<char>.IndexOf`, and integer
 * parsing (`int.Parse`, `long.Parse`, `Convert.ToInt32`, `int.TryParse`, ...).
 *
 * Integer text is given a fixed grammar: an optional `+` or `-` sign followed
 * by one or more decimal digits; a value outside the target width is an
 * overflow.  The library's whitespace trimming and culture lookup are not
 * part of this model.
 */
module DotNet {
  import opened Wrappers

  /** The exception kinds the decoder and its accessors can raise. */
  datatype Exception =
    | ArgumentOutOfRange   // a span slice with a negative bound
    | Format               // text that is not an integer (int.Parse / Convert.ToInt32)
    | Overflow             // integer text outside the target width
    | InvalidCast          // thrown explicitly by the accessors

  const INT32_MIN: int := -0x8000_0000
  const INT32_MAX: int := 0x7fff_ffff
  const INT64_MIN: int := -0x8000_0000_0000_0000
  const INT64_MAX: int := 0x7fff_ffff_ffff_ffff

  predicate IsInt32(n: int) { INT32_MIN <= n <= INT32_MAX }
  predicate IsInt64(n: int) { INT64_MIN <= n <= INT64_MAX }

  /** `string` to `ReadOnlySpan<char>`: a null string gives the empty span. */
  function AsSpan(s: Option<string>): string
  {
    match s
    case None => ""
    case Some(t) => t
  }

  /** `ReadOnlySpan<char>.IndexOf(c)`: the first position of `c`, or -1. */
  function IndexOf(s: string, c: char): (r: int)
    ensures -1 <= r < |s|
    ensures r == -1 <==> c !in s
    ensures 0 <= r ==> s[r] == c
    ensures forall j :: 0 <= j < r ==> s[j] != c
  {
    if |s| == 0 then -1
    else if s[0] == c then 0
    else
      var k := IndexOf(s[1..], c);
      if k == -1 then -1 else k + 1
  }

  predicate IsDigit(c: char) { '0' <= c <= '9' }

  predicate AllDigits(s: string) { forall i :: 0 <= i < |s| ==> IsDigit(s[i]) }

  /** The number written by a string of decimal digits, most significant first. */
  function DigitsValue(s: string): nat
    requires AllDigits(s)
  {
    if |s| == 0 then 0
    else 10 * DigitsValue(s[..|s| - 1]) + (s[|s| - 1] as int - '0' as int)
  }

  predicate HasSign(s: string) { |s| > 0 && (s[0] == '-' || s[0] == '+') }

  /** The digits of integer text: everything after an optional sign. */
  function Magnitude(s: string): string
  {
    if HasSign(s) then s[1..] else s
  }

  /** Integer text: an optional sign followed by at least one decimal digit. */
  predicate IsIntegerText(s: string)
  {
    |Magnitude(s)| > 0 && AllDigits(Magnitude(s))
  }

  function IntegerTextValue(s: string): int
    requires IsIntegerText(s)
  {
    var m: int := DigitsValue(Magnitude(s));
    if |s| > 0 && s[0] == '-' then -m else m
  }

  /** The three outcomes of parsing integer text into a fixed width. */
  datatype IntParse = Parsed(number: int) | BadFormat | OutOfRange

  /** Parses `s` as integer text whose value must lie in `lo..hi`. */
  function ParseInteger(s: string, lo: int, hi: int): (r: IntParse)
    ensures r.BadFormat? <==> !IsIntegerText(s)
    ensures r.Parsed? <==> IsIntegerText(s) && lo <= IntegerTextValue(s) <= hi
    ensures r.Parsed? ==> r.number == IntegerTextValue(s) && lo <= r.number <= hi
  {
    if !IsIntegerText(s) then BadFormat
    else
      var n := IntegerTextValue(s);
      if lo <= n <= hi then Parsed(n) else OutOfRange
  }

  /** `int.Parse` / `int.TryParse`: integer text in the Int32 range. */
  function ParseInt32(s: string): (r: IntParse)
    ensures r.BadFormat? <==> !IsIntegerText(s)
    ensures r.OutOfRange? <==> IsIntegerText(s) && !IsInt32(IntegerTextValue(s))
    ensures r.Parsed? ==> r.number == IntegerTextValue(s) && IsInt32(r.number)
  {
    ParseInteger(s, INT32_MIN, INT32_MAX)
  }

  /** `long.Parse` / `long.TryParse`: integer text in the Int64 range. */
  function ParseInt64(s: string): (r: IntParse)
    ensures r.BadFormat? <==> !IsIntegerText(s)
    ensures r.OutOfRange? <==> IsIntegerText(s) && !IsInt64(IntegerTextValue(s))
    ensures r.Parsed? ==> r.number == IntegerTextValue(s) && IsInt64(r.number)
  {
    ParseInteger(s, INT64_MIN, INT64_MAX)
  }

  /** `int.Parse` / `long.Parse`: the parsed value, or the exception they throw. */
  function ParseOrThrow(p: IntParse): (r: Result<int, Exception>)
    ensures r.Ok? <==> p.Parsed?
    ensures r.Ok? ==> r.value == p.number
    ensures r.Err? ==> r.error == (if p.BadFormat? then Format else Overflow)
  {
    match p
    case Parsed(n) => Ok(n)
    case BadFormat => Err(Format)
    case OutOfRange => Err(Overflow)
  }

  function DigitChar(d: nat): (c: char)
    requires d < 10
    ensures IsDigit(c) && c as int - '0' as int == d
  {
    ('0' as int + d) as char
  }

  /** The canonical decimal text of a natural number, without sign or leading zeros. */
  function FormatNat(n: nat): (s: string)
    ensures |s| > 0 && AllDigits(s)
  {
    if n < 10 then [DigitChar(n)] else FormatNat(n / 10) + [DigitChar(n % 10)]
  }

  /** The canonical decimal text of an integer: `-` then the digits of a negative value. */
  function FormatInt(n: int): (s: string)
    ensures IsIntegerText(s)
  {
    if n < 0 then "-" + FormatNat(-n) else FormatNat(n)
  }

  lemma {:induction false} DigitsValueOfFormatNat(n: nat)
    ensures DigitsValue(FormatNat(n)) == n
  {
    if n >= 10 {
      var s := FormatNat(n);
      assert s[..|s| - 1] == FormatNat(n / 10);
      DigitsValueOfFormatNat(n / 10);
    }
  }

  /** Round trip: parsing the canonical text of `n` yields `n` exactly when it fits the width. */
  lemma ParseFormatInt(n: int, lo: int, hi: int)
    ensures ParseInteger(FormatInt(n), lo, hi) == if lo <= n <= hi then Parsed(n) else OutOfRange
  {
    var s := FormatInt(n);
    if n < 0 {
      assert Magnitude(s) == FormatNat(-n);
      DigitsValueOfFormatNat(-n);
    } else {
      assert !HasSign(s);
      DigitsValueOfFormatNat(n);
    }
  }
}
