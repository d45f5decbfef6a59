/** Decimal numerals, written and read back. */
module Decimals {
  import opened Options

  function Digit(d: nat): char
    requires d < 10
  {
    "0123456789"[d]
  }

  function Decimal(n: nat): (text: string)
    ensures text != []
    ensures forall c :: c in text ==> '0' <= c <= '9'
  {
    if n < 10 then [Digit(n)] else Decimal(n / 10) + [Digit(n % 10)]
  }

  /** The number a numeral names; None when some character is no digit, or there are none. */
  function DecimalValue(text: string): Option<nat> {
    if text == [] then None
    else
      var last := text[|text| - 1];
      if !('0' <= last <= '9') then None
      else
        var unit := last as int - '0' as int;
        if |text| == 1 then Some(unit)
        else
          match DecimalValue(text[..|text| - 1])
          case None => None
          case Some(high) => Some(10 * high + unit)
  }

  lemma {:induction false} DecimalRoundTrip(n: nat)
    ensures DecimalValue(Decimal(n)) == Some(n)
  {
    if n >= 10 {
      DecimalRoundTrip(n / 10);
      assert Decimal(n)[..|Decimal(n)| - 1] == Decimal(n / 10);
    }
  }

  ghost predicate IsNumeral(c: char) {
    exists d: nat :: d < 10 && c == Digit(d)
  }

  lemma NumeralsAre(c: char)
    ensures IsNumeral(c) <==> '0' <= c <= '9'
  {
    if '0' <= c <= '9' {
      assert Digit(c as int - '0' as int) == c;
    }
  }

  /** A text names a number exactly when it is made of the ten numerals, and of at least one. */
  lemma {:induction false} NamesNumberIff(text: string)
    ensures DecimalValue(text).Some? <==> text != [] && forall i :: 0 <= i < |text| ==> IsNumeral(text[i])
  {
    if text != [] {
      NumeralsAre(text[|text| - 1]);
      hide IsNumeral;
      if |text| > 1 {
        var init := text[..|text| - 1];
        NamesNumberIff(init);
        assert forall i :: 0 <= i < |init| ==> init[i] == text[i];
      }
    }
  }
}
