/** Python's decimal conversions between `int` and `str`: `str(n)`, the
    zero-padded format spec `{n:0W}`, and `int(s)` on an already stripped string. */
module PyInt {
  import opened Results

  predicate IsDigit(c: char) {
    '0' <= c <= '9'
  }

  predicate AllDigits(s: string) {
    forall i :: 0 <= i < |s| ==> IsDigit(s[i])
  }

  function DigitChar(d: nat): (c: char)
    requires d < 10
    ensures IsDigit(c)
  {
    ('0' as int + d) as char
  }

  function DigitValue(c: char): (d: nat)
    requires IsDigit(c)
    ensures d < 10
  {
    c as int - '0' as int
  }

  /** The decimal digits of `n`, most significant first, with no leading zero. */
  function NatDigits(n: nat): (s: string)
    ensures |s| >= 1 && AllDigits(s)
    ensures |s| > 1 ==> s[0] != '0'
    decreases n
  {
    if n < 10 then [DigitChar(n)] else NatDigits(n / 10) + [DigitChar(n % 10)]
  }

  /** The number a string of decimal digits denotes (leading zeros allowed). */
  function DigitsValue(s: string): nat
    requires AllDigits(s)
    decreases |s|
  {
    if |s| == 0 then 0 else 10 * DigitsValue(s[..|s| - 1]) + DigitValue(s[|s| - 1])
  }

  /** `str(n)` */
  function IntToString(n: int): (s: string)
    ensures |s| >= 1
    ensures n >= 0 ==> AllDigits(s)
    ensures n < 0 ==> s[0] == '-' && AllDigits(s[1..])
    ensures n >= 0 && |s| > 1 ==> s[0] != '0'
    ensures n < 0 ==> |s| >= 2 && s[1] != '0'
  {
    if n < 0 then "-" + NatDigits(-n) else NatDigits(n)
  }

  function Zeros(k: nat): (z: string)
    ensures |z| == k && forall i :: 0 <= i < k ==> z[i] == '0'
  {
    seq(k, _ => '0')
  }

  /** Left-pads a digit string with zeros to at least `width` characters. */
  function PadDigits(s: string, width: int): (r: string)
    requires AllDigits(s)
    ensures AllDigits(r)
    ensures |r| == if |s| >= width then |s| else width
  {
    if |s| >= width then s else Zeros(width - |s|) + s
  }

  /** The format spec `{n:0W}`: sign first, then the digits zero-padded so that
      the whole field is at least `width` characters wide. */
  function FormatZeroPadded(n: int, width: int): (s: string)
    ensures |s| >= width
    ensures |s| == if |IntToString(n)| >= width then |IntToString(n)| else width
    ensures n >= 0 ==> AllDigits(s)
    ensures n < 0 ==> |s| >= 1 && s[0] == '-' && AllDigits(s[1..])
  {
    if n < 0 then "-" + PadDigits(NatDigits(-n), width - 1) else PadDigits(NatDigits(n), width)
  }

  datatype ParseError = InvalidLiteral(text: string)

  /** `int(s)` for a string with no surrounding whitespace: an optional sign
      followed by at least one decimal digit; anything else is a `ValueError`. */
  function ParseInt(s: string): (r: Result<int, ParseError>)
    ensures r.Err? ==> r.error == InvalidLiteral(s)
    ensures |s| == 0 ==> r.Err?
    ensures r.Ok? <==> |s| > 0 && (AllDigits(s) || ((s[0] == '-' || s[0] == '+') && |s| > 1 && AllDigits(s[1..])))
    ensures r.Ok? && s[0] == '-' ==> r.value <= 0
    ensures r.Ok? && s[0] != '-' ==> r.value >= 0
  {
    if |s| > 0 && (s[0] == '-' || s[0] == '+') then
      var body := s[1..];
      if |body| > 0 && AllDigits(body) then
        Ok(if s[0] == '-' then 0 - DigitsValue(body) as int else DigitsValue(body))
      else Err(InvalidLiteral(s))
    else if |s| > 0 && AllDigits(s) then Ok(DigitsValue(s))
    else Err(InvalidLiteral(s))
  }

  lemma {:induction false} DigitValueOfDigitChar(d: nat)
    requires d < 10
    ensures DigitValue(DigitChar(d)) == d
  {
  }

  /** Reading the digits of `n` back gives `n`. */
  lemma {:induction false} DigitsValueOfNatDigits(n: nat)
    ensures DigitsValue(NatDigits(n)) == n
    decreases n
  {
    var s := NatDigits(n);
    if n < 10 {
      assert s[..0] == [];
      DigitValueOfDigitChar(n);
    } else {
      DigitsValueOfNatDigits(n / 10);
      assert s[..|s| - 1] == NatDigits(n / 10);
      DigitValueOfDigitChar(n % 10);
    }
  }

  /** `10 ** k` */
  function Pow10(k: nat): (p: nat)
    ensures p >= 1
  {
    if k == 0 then 1 else 10 * Pow10(k - 1)
  }

  /** A number below `10 ** w` has at most `w` digits. */
  lemma {:induction false} NatDigitsFit(n: nat, w: nat)
    requires 1 <= w && n < Pow10(w)
    ensures |NatDigits(n)| <= w
    decreases w
  {
    if n >= 10 {
      assert n / 10 < Pow10(w - 1);
      NatDigitsFit(n / 10, w - 1);
    }
  }

  /** `str(n)` of a non-negative number below `10 ** w` fits in `w` characters. */
  lemma {:induction false} IntToStringFits(n: int, w: nat)
    requires 1 <= w
    ensures 0 <= n < Pow10(w) ==> |IntToString(n)| <= w
  {
    if 0 <= n < Pow10(w) {
      NatDigitsFit(n, w);
    }
  }

  lemma {:induction false} DigitsValueOfZeros(k: nat)
    ensures DigitsValue(Zeros(k)) == 0
    decreases k
  {
    if k > 0 {
      assert Zeros(k)[..k - 1] == Zeros(k - 1);
      DigitsValueOfZeros(k - 1);
    }
  }

  /** Leading zeros do not change the value of a digit string. */
  lemma {:induction false} DigitsValueLeadingZeros(k: nat, s: string)
    requires AllDigits(s)
    ensures DigitsValue(Zeros(k) + s) == DigitsValue(s)
    decreases |s|
  {
    if |s| == 0 {
      assert Zeros(k) + s == Zeros(k);
      DigitsValueOfZeros(k);
    } else {
      var z := Zeros(k) + s;
      assert z[..|z| - 1] == Zeros(k) + s[..|s| - 1];
      DigitsValueLeadingZeros(k, s[..|s| - 1]);
    }
  }

  /** `int` of a non-empty digit string is its value. */
  lemma {:induction false} ParseDigits(s: string)
    requires |s| > 0 && AllDigits(s)
    ensures ParseInt(s) == Ok(DigitsValue(s) as int)
  {
    assert IsDigit(s[0]);
  }

  /** `int` of a minus sign followed by digits is the negated value. */
  lemma {:induction false} ParseNegativeDigits(s: string)
    requires |s| > 1 && s[0] == '-' && AllDigits(s[1..])
    ensures ParseInt(s) == Ok(0 - DigitsValue(s[1..]) as int)
  {
  }

  /** Zero padding does not change the value of a digit string. */
  lemma {:induction false} PadDigitsValue(s: string, width: int)
    requires AllDigits(s)
    ensures DigitsValue(PadDigits(s, width)) == DigitsValue(s)
  {
    if |s| < width {
      DigitsValueLeadingZeros(width - |s|, s);
    }
  }

  /** Reading back a zero-padded digit string, with or without a minus sign
      in front, gives the (negated) value of the digits. */
  lemma {:induction false} ParsePadded(d: string, width: int)
    requires |d| >= 1 && AllDigits(d)
    ensures ParseInt(PadDigits(d, width)) == Ok(DigitsValue(d) as int)
    ensures ParseInt("-" + PadDigits(d, width)) == Ok(0 - DigitsValue(d) as int)
  {
    var field := PadDigits(d, width);
    PadDigitsValue(d, width);
    ParseDigits(field);
    assert ("-" + field)[1..] == field;
    ParseNegativeDigits("-" + field);
  }

  /** `int(f"{n:0W}") == n`: zero padding never changes the number read back. */
  lemma {:induction false} ParseZeroPadded(n: int, width: int)
    ensures ParseInt(FormatZeroPadded(n, width)) == Ok(n)
  {
    var m: nat := if n < 0 then -n else n;
    var d := NatDigits(m);
    DigitsValueOfNatDigits(m);
    ParsePadded(d, if n < 0 then width - 1 else width);
  }

  /** `int(str(n)) == n` */
  lemma {:induction false} ParseIntToString(n: int)
    ensures ParseInt(IntToString(n)) == Ok(n)
  {
    var m: nat := if n < 0 then -n else n;
    var d := NatDigits(m);
    DigitsValueOfNatDigits(m);
    assert PadDigits(d, 0) == d;
    ParsePadded(d, 0);
  }

  /** Distinct numbers format to distinct zero-padded fields. */
  lemma {:induction false} FormatZeroPaddedInjective(a: int, b: int, width: int)
    requires FormatZeroPadded(a, width) == FormatZeroPadded(b, width)
    ensures a == b
  {
    ParseZeroPadded(a, width);
    ParseZeroPadded(b, width);
  }
}
