/** JavaScript's `Number(string)` restricted to integers, and the decimal
    rendering it inverts. */
module Numbers {
  import opened Text

  /** A JavaScript number as the housekeeper sees it: not-a-number or an
      integer. */
  datatype Numeric = NaN | Int(value: int)

  predicate IsDigit(c: char)
  {
    '0' <= c <= '9'
  }

  predicate AllDigits(s: string)
  {
    forall k :: 0 <= k < |s| ==> IsDigit(s[k])
  }

  /** The value of a string of decimal digits; the empty string reads as 0. */
  function DigitsValue(s: string): nat
    requires AllDigits(s)
  {
    if s == [] then 0
    else DigitsValue(s[..|s| - 1]) * 10 + (s[|s| - 1] as int - '0' as int)
  }

  /** `Number(s)`: surrounding white space is ignored, a blank string is 0,
      an optionally signed run of decimal digits is its value, and anything
      else is NaN. */
  function ToNumber(s: string): (n: Numeric)
    ensures AllSpace(s) ==> n == Int(0)
  {
    assert AllSpace(s) ==> Trim(s) == [] by {
      if AllSpace(s) {
        AllSpaceTrim(s);
      }
    }
    ReadTrimmed(Trim(s))
  }

  /** The value of a string with the white space already removed. */
  function ReadTrimmed(t: string): Numeric
  {
    if t == [] then Int(0)
    else if (t[0] == '-' || t[0] == '+') && |t| > 1 && AllDigits(t[1..]) then
      var v: int := DigitsValue(t[1..]);
      Int(if t[0] == '-' then -v else v)
    else if AllDigits(t) then Int(DigitsValue(t))
    else NaN
  }

  function DigitChar(d: nat): char
    requires d < 10
  {
    ('0' as int + d) as char
  }

  /** The decimal digits of a natural number, most significant first. */
  function Digits(n: nat): (s: string)
    ensures s != [] && AllDigits(s)
  {
    if n < 10 then [DigitChar(n)] else Digits(n / 10) + [DigitChar(n % 10)]
  }

  /** `String(n)` for an integer. */
  function Decimal(n: int): string
  {
    if n < 0 then "-" + Digits(-n) else Digits(n)
  }

  lemma {:induction false} DigitsValueDigits(n: nat)
    ensures DigitsValue(Digits(n)) == n
  {
    if n >= 10 {
      var s := Digits(n);
      assert s[..|s| - 1] == Digits(n / 10);
      DigitsValueDigits(n / 10);
    }
  }

  lemma DigitsTrimmed(n: nat)
    ensures Trim(Digits(n)) == Digits(n)
  {
    var d := Digits(n);
    assert IsDigit(d[0]) && IsDigit(d[|d| - 1]);
  }

  lemma ToNumberDigits(n: nat)
    ensures ToNumber(Digits(n)) == Int(n)
  {
    var d := Digits(n);
    DigitsTrimmed(n);
    var t := Trim(d);
    assert t == d;
    assert IsDigit(t[0]);
    assert t[0] != '-' && t[0] != '+';
    assert AllDigits(t);
    DigitsValueDigits(n);
    assert ToNumber(d) == Int(DigitsValue(t));
  }

  /** A rendered negative integer reads back as itself. */
  lemma ToNumberNegative(n: int)
    requires n < 0
    ensures ToNumber(Decimal(n)) == Int(n)
  {
    var m: nat := -n;
    var d := Digits(m);
    var s := "-" + d;
    assert Decimal(n) == s;
    assert s[1..] == d;
    assert s[|s| - 1] == d[|d| - 1];
    assert IsDigit(d[|d| - 1]);
    assert Trimmed(s);
    DigitsValueDigits(m);
    assert ReadTrimmed(s) == Int(-(m as int));
  }

  /** Reading back a rendered integer gives the integer. */
  lemma ToNumberDecimal(n: int)
    ensures ToNumber(Decimal(n)) == Int(n)
  {
    if n < 0 {
      ToNumberNegative(n);
    } else {
      ToNumberDigits(n);
    }
  }

  /** `Number` ignores white space around its argument. */
  lemma ToNumberPadded(p: string, s: string, q: string)
    requires AllSpace(p) && AllSpace(q)
    ensures ToNumber(p + s + q) == ToNumber(s)
  {
    TrimPadded(p, s, q);
  }
}
