/**
 The decimal printers of `libs/unity/unity.c` and the decimal numerals they produce.
 */
module UnityPrint {
  import opened Arithmetic

  //////////////////////////////////////////////////////////////////////////////
  // Numerals
  //////////////////////////////////////////////////////////////////////////////

  predicate IsDigit(c: char) {
    '0' <= c <= '9'
  }

  function Digit(d: nat): (c: char)
    requires d < 10
    ensures IsDigit(c) && DigitValue(c) == d
  {
    ('0' as int + d) as char
  }

  function DigitValue(c: char): (d: nat)
    requires IsDigit(c)
    ensures d < 10
  {
    c as int - '0' as int
  }

  predicate AllDigits(s: string) {
    forall k :: 0 <= k < |s| ==> IsDigit(s[k])
  }

  /* The number a string of digits denotes. */
  function Value(s: string): nat
    requires AllDigits(s)
  {
    if s == [] then 0 else 10 * Value(s[..|s| - 1]) + DigitValue(s[|s| - 1])
  }

  /* Digits without a leading zero. */
  predicate IsNumeral(s: string) {
    s != [] && AllDigits(s) && (s[0] == '0' ==> |s| == 1)
  }

  /* The numeral of n. */
  function Decimal(n: nat): (s: string)
    ensures s != [] && AllDigits(s)
  {
    if n < 10 then [Digit(n)] else Decimal(n / 10) + [Digit(n % 10)]
  }

  lemma ValueSnoc(s: string, d: nat)
    requires AllDigits(s) && d < 10
    ensures AllDigits(s + [Digit(d)]) && Value(s + [Digit(d)]) == 10 * Value(s) + d
  {
    assert (s + [Digit(d)])[..|s|] == s;
  }

  /* Decimal(n) is a numeral, and it denotes n. */
  lemma {:induction false} DecimalDenotes(n: nat)
    ensures IsNumeral(Decimal(n)) && Value(Decimal(n)) == n
    ensures Decimal(n)[0] == '0' ==> n == 0
  {
    if n < 10 {
      assert [Digit(n)][..0] == [];
    } else {
      DecimalDenotes(n / 10);
      ValueSnoc(Decimal(n / 10), n % 10);
    }
  }

  lemma DecimalSnoc(v: nat, d: nat)
    requires v > 0 && d < 10
    ensures Decimal(10 * v + d) == Decimal(v) + [Digit(d)]
  {
    assert (10 * v + d) / 10 == v && (10 * v + d) % 10 == d;
  }

  /* It is the only numeral that does. */
  lemma {:induction false} NumeralUnique(s: string)
    requires IsNumeral(s)
    ensures s == Decimal(Value(s))
    ensures s[0] != '0' ==> Value(s) > 0
    decreases |s|
  {
    var m := |s| - 1;
    var d := DigitValue(s[m]);
    assert s == s[..m] + [Digit(d)];
    if m == 0 {
      assert s[..0] == [];
    } else {
      hide Decimal;
      assert s[0] == s[..m][0];
      NumeralUnique(s[..m]);
      ValueSnoc(s[..m], d);
      DecimalSnoc(Value(s[..m]), d);
    }
  }

  function Signed(x: int): string {
    if x < 0 then "-" + Decimal(-x) else Decimal(x)
  }

  /* The number a signed numeral denotes. */
  function SignedValue(s: string): int
    requires s != [] && AllDigits(if s[0] == '-' then s[1..] else s)
  {
    if s[0] == '-' then 0 - Value(s[1..]) else Value(s)
  }

  lemma SignedDenotes(x: int)
    ensures AllDigits(if Signed(x)[0] == '-' then Signed(x)[1..] else Signed(x))
    ensures SignedValue(Signed(x)) == x
  {
    DecimalDenotes(if x < 0 then -x else x);
    if x < 0 {
      assert Signed(x)[1..] == Decimal(-x);
    }
  }

  //////////////////////////////////////////////////////////////////////////////
  // The printers
  //////////////////////////////////////////////////////////////////////////////

  function Pow10(k: nat): (p: nat)
    ensures p > 0
  {
    if k == 0 then 1 else 10 * Pow10(k - 1)
  }

  /* Everything written with UNITY_OUTPUT_CHAR. */
  class Output {
    var text: string
    const limit: nat  // UNITY_UINT holds 0 .. limit - 1

    constructor (limit: nat)
      ensures text == "" && this.limit == limit
    {
      text := "";
      this.limit := limit;
    }

    method OutputChar(c: char)
      modifies this
      ensures text == old(text) + [c]
    {
      text := text + [c];
    }

    /* UnityPrintNumberUnsigned: exactly the decimal numeral of the number. */
    method PrintNumberUnsigned(number: nat)
      requires number < limit
      modifies this
      ensures text == old(text) + Decimal(number)
    {
      var divisor := 1;
      ghost var k: nat := 0;
      while number / divisor > 9
        invariant divisor == Pow10(k) && text == old(text)
        invariant k > 0 ==> divisor <= number
        decreases number - divisor
      {
        RoomForNextDivisor(number, divisor);
        assert divisor * 10 < limit;  // the multiplication does not overflow
        divisor := divisor * 10;
        k := k + 1;
      }

      if k > 0 {
        LeadingDigit(number, divisor);
      }
      ghost var shown, above := "", 1;  // what this call has printed so far, and the divisor before
      while true
        invariant divisor == Pow10(k) && text == old(text) + shown
        invariant shown == "" ==> number / divisor <= 9 && (k > 0 ==> number / divisor > 0)
        invariant above > 0
        invariant shown != "" ==> above == divisor * 10 && number / above > 0 && shown == Decimal(number / above)
        decreases k
      {
        DivTwice(number, divisor, 10);
        NextDigit(number / divisor, shown);
        shown, above := Decimal(number / divisor), divisor;
        OutputChar(Digit(number / divisor % 10));
        divisor := divisor / 10;
        if divisor == 0 {
          break;
        }
        k := k - 1;
      }
    }

    /* UnityPrintNumber, for any signed value of the same width, the minimum included. */
    method PrintNumber(numberToPrint: int)
      requires limit % 2 == 0 && -(limit / 2) <= numberToPrint < limit / 2
      modifies this
      ensures text == old(text) + Signed(numberToPrint)
    {
      hide Negated, Decimal;
      var number := if numberToPrint < 0 then numberToPrint + limit else numberToPrint;  // the cast to unsigned
      if numberToPrint < 0 {
        OutputChar('-');
        NegatedIsMagnitude(numberToPrint, limit);
        number := Negated(number, limit);
      }
      PrintNumberUnsigned(number);
    }
  }

  /* (~number) + 1 on an unsigned type with `limit` values. */
  function Negated(number: int, limit: nat): int
    requires limit > 0
  {
    ((limit - 1 - number) + 1) % limit
  }

  lemma NegatedIsMagnitude(x: int, limit: nat)
    requires 0 < -x < limit
    ensures Negated(x + limit, limit) == -x
  {
    DivModUnique(-x, 0, -x, limit);
  }

  lemma RoomForNextDivisor(number: nat, divisor: nat)
    requires divisor > 0 && number / divisor > 9
    ensures divisor * 10 <= number
  {
    assert number == (number / divisor) * divisor + number % divisor;
    MulOrder(9, number / divisor, divisor);
    assert 9 * divisor + divisor == divisor * 10;
  }

  lemma LeadingDigit(number: nat, divisor: nat)
    requires 0 < divisor <= number
    ensures number / divisor > 0
  {
    assert number == (number / divisor) * divisor + number % divisor;
  }

  /* Printing the last digit of q behind the numeral of q / 10 completes that of q. */
  lemma NextDigit(q: nat, shown: string)
    requires if shown == "" then q <= 9 else q / 10 > 0 && shown == Decimal(q / 10)
    ensures shown + [Digit(q % 10)] == Decimal(q)
  {
  }
}
