/** Text helpers shared by the codecs. A C++ `char` is a Dafny `char` holding its
    unsigned value, so a byte string is a `string` whose characters are below 256. */
module Text {

  datatype Option<+T> = None | Some(value: T) {
    predicate IsFailure() { None? }
    function PropagateFailure<U>(): Option<U>
      requires None?
    {
      None
    }
    function Extract(): T
      requires Some?
    {
      value
    }
  }

  predicate IsDigit(c: char) { '0' <= c <= '9' }

  predicate AllDigits(s: string) { forall i :: 0 <= i < |s| ==> IsDigit(s[i]) }

  function DigitValue(c: char): nat
    requires IsDigit(c)
  {
    c as int - '0' as int
  }

  function DigitChar(n: nat): char
    requires n < 10
  {
    ('0' as int + n) as char
  }

  /** The number a string of decimal digits denotes. */
  function DecimalValue(s: string): nat
    requires AllDigits(s)
  {
    if s == [] then 0 else 10 * DecimalValue(s[..|s| - 1]) + DigitValue(s[|s| - 1])
  }

  function Decimal(n: nat): string {
    if n < 10 then [DigitChar(n)] else Decimal(n / 10) + [DigitChar(n % 10)]
  }

  lemma {:induction false} DecimalRoundTrip(n: nat)
    ensures Decimal(n) != [] && AllDigits(Decimal(n)) && DecimalValue(Decimal(n)) == n
  {
    if n >= 10 {
      DecimalRoundTrip(n / 10);
      var s := Decimal(n);
      assert s[..|s| - 1] == Decimal(n / 10);
    }
  }

  function Pow10(k: nat): nat { if k == 0 then 1 else 10 * Pow10(k - 1) }

  lemma {:induction false} DecimalLength(n: nat, k: nat)
    requires k > 0 && n < Pow10(k)
    ensures |Decimal(n)| <= k
  {
    if n >= 10 {
      assert Pow10(k) == 10 * Pow10(k - 1);
      DecimalLength(n / 10, k - 1);
    }
  }

  // ---- 64-bit signed numbers ----

  const INT64_MIN: int := -0x8000_0000_0000_0000
  const INT64_MAX: int := 0x7fff_ffff_ffff_ffff

  predicate InInt64(x: int) { INT64_MIN <= x <= INT64_MAX }

  /** Stream output of a signed number. */
  function PrintInt(x: int): string {
    if x < 0 then ['-'] + Decimal(-x) else Decimal(x)
  }

  /** std::from_chars over a whole token: an optional minus sign, at least one digit,
      nothing else, and a value that fits 64 bits. */
  function FromChars(s: string): (r: Option<int>)
    ensures r.Some? ==> InInt64(r.value)
  {
    var digits := if s != [] && s[0] == '-' then s[1..] else s;
    if digits == [] || !AllDigits(digits) then None
    else
      var value: int := if s[0] == '-' then -(DecimalValue(digits) as int) else DecimalValue(digits);
      if InInt64(value) then Some(value) else None
  }

  lemma PrintedIntReadsBack(x: int)
    requires InInt64(x)
    ensures FromChars(PrintInt(x)) == Some(x)
  {
    if x < 0 {
      DecimalRoundTrip(-x);
      assert PrintInt(x)[1..] == Decimal(-x);
    } else {
      DecimalRoundTrip(x);
      assert IsDigit(Decimal(x)[0]);
    }
  }
}
