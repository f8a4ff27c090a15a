/** Content-Length (section 8.6 of RFC 9110), parsed without overflow. */
module ContentLength {
  import opened Text

  const SIZE_MAX: nat := 0xffff_ffff_ffff_ffff

  datatype Status = Valid | Invalid | TooLarge

  lemma {:induction false} PrefixIsNoLarger(s: string, n: nat)
    requires AllDigits(s) && n <= |s|
    ensures AllDigits(s[..n]) && DecimalValue(s[..n]) <= DecimalValue(s)
  {
    if n < |s| {
      PrefixIsNoLarger(s[..|s| - 1], n);
      assert s[..|s| - 1][..n] == s[..n];
    } else {
      assert s[..n] == s;
    }
  }

  /** Some prefix of digits already exceeds the maximum. */
  predicate PrefixExceeds(value: string, maximum: nat) {
    exists n :: 0 <= n <= |value| && AllDigits(value[..n]) && DecimalValue(value[..n]) > maximum
  }

  /** No prefix of digits reaches past a character that is not a digit. */
  lemma DigitsStopBefore(value: string, i: nat)
    requires i < |value| && !IsDigit(value[i])
    ensures forall n :: 0 <= n <= |value| && AllDigits(value[..n]) ==> n <= i
    ensures !AllDigits(value)
  {
    forall n | i < n <= |value| ensures !AllDigits(value[..n]) {
      assert value[..n][i] == value[i];
    }
  }

  lemma NextDigit(value: string, i: nat)
    requires i < |value| && AllDigits(value[..i]) && IsDigit(value[i])
    ensures AllDigits(value[..i + 1])
    ensures DecimalValue(value[..i + 1]) == 10 * DecimalValue(value[..i]) + DigitValue(value[i])
  {
    assert value[..i + 1][..i] == value[..i];
  }

  lemma EmptyIsZero()
    ensures DecimalValue("") == 0
  {
  }

  method Parse(value: string, maximum: nat) returns (status: Status, length: nat)
    requires maximum <= SIZE_MAX
    ensures status == Valid <==> value != "" && AllDigits(value) && DecimalValue(value) <= maximum
    ensures status == TooLarge <==> PrefixExceeds(value, maximum)
    ensures length == if status == Valid then DecimalValue(value) else 0
  {
    hide DecimalValue;
    EmptyIsZero();
    assert value[..0] == "";
    if value == "" {
      return Invalid, 0;
    }
    var parsed := 0;
    for i := 0 to |value|
      invariant AllDigits(value[..i]) && parsed == DecimalValue(value[..i]) <= maximum
      invariant forall n :: 0 <= n <= i ==> DecimalValue(value[..n]) <= maximum
    {
      if !IsDigit(value[i]) {
        DigitsStopBefore(value, i);
        return Invalid, 0;
      }
      var digit := DigitValue(value[i]);
      NextDigit(value, i);
      if parsed > (SIZE_MAX - digit) / 10 {
        assert DecimalValue(value[..i + 1]) > maximum;
        assert !(AllDigits(value) && DecimalValue(value) <= maximum) by {
          if AllDigits(value) { PrefixIsNoLarger(value, i + 1); }
        }
        return TooLarge, 0;
      }
      parsed := parsed * 10 + digit;
      assert parsed <= SIZE_MAX;  // fits the machine word
      if parsed > maximum {
        if AllDigits(value) { PrefixIsNoLarger(value, i + 1); }
        return TooLarge, 0;
      }
    }
    assert value[..|value|] == value;
    return Valid, parsed;
  }
}
