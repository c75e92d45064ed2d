/** Decimal notation, as the printers and parsers of both languages use it. */
module Decimal {
  function DigitChar(d: nat): char
    requires d < 10
  {
    "0123456789"[d]
  }

  /** The decimal notation of a number. */
  function Str(n: nat): (s: string)
    ensures |s| > 0
  {
    if n < 10 then [DigitChar(n)] else Str(n / 10) + [DigitChar(n % 10)]
  }

  function DigitValue(c: char): nat {
    if '0' <= c <= '9' then c as nat - '0' as nat else 0
  }

  /** Digits are the characters from zero on. */
  lemma DigitsInOrder(d: nat)
    requires d < 10
    ensures DigitChar(d) as int == '0' as int + d && DigitValue(DigitChar(d)) == d
  {
    var s := "0123456789";
    assert s[0] == '0' && s[1] == '1' && s[2] == '2' && s[3] == '3' && s[4] == '4';
    assert s[5] == '5' && s[6] == '6' && s[7] == '7' && s[8] == '8' && s[9] == '9';
  }

  /** The number a string of decimal digits stands for. */
  function Int(s: string): nat {
    if s == "" then 0 else Int(s[..|s| - 1]) * 10 + DigitValue(s[|s| - 1])
  }

  /** Reading back what was written. */
  lemma {:induction false} IntOfStr(n: nat)
    ensures Int(Str(n)) == n
  {
    if n >= 10 {
      IntOfStr(n / 10);
      assert Str(n)[..|Str(n)| - 1] == Str(n / 10);
    } else {
      assert Str(n)[..0] == "";
    }
  }
}
