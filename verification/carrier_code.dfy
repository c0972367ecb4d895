/** `CarrierCodeGenerator.GenerateNextCode`: "CAR-" followed by
    `currentMaxId + 1` formatted with the "D3" specifier. The addition is
    32-bit and wraps; the formatter pads the digits to at least three and
    puts a minus sign in front of a negative number. */
module CarrierCodeGenerator {

  const Int32Min: int := -0x8000_0000
  const Int32Max: int := 0x7FFF_FFFF

  /** A C# `int`. */
  type Int32 = x: int | -0x8000_0000 <= x <= 0x7FFF_FFFF

  /** Two's-complement wrap-around of an unbounded result into an `int`. */
  function Wrap32(x: int): (r: Int32)
    ensures Int32Min <= x <= Int32Max ==> r == x
  {
    (x + 0x8000_0000) % 0x1_0000_0000 - 0x8000_0000
  }

  function DigitChar(d: nat): char
    requires d < 10
  {
    ('0' as int + d) as char
  }

  predicate IsDigits(s: string) {
    forall i :: 0 <= i < |s| ==> '0' <= s[i] <= '9'
  }

  /** The decimal digits of n, most significant first, without padding. */
  function Digits(n: nat): (s: string)
    ensures |s| >= 1 && IsDigits(s)
  {
    if n < 10 then [DigitChar(n)] else Digits(n / 10) + [DigitChar(n % 10)]
  }

  /** The value of a string of decimal digits; the inverse of Digits. */
  function ParseDecimal(s: string): nat
    requires IsDigits(s)
  {
    if s == [] then 0
    else ParseDecimal(s[..|s| - 1]) * 10 + (s[|s| - 1] as int - '0' as int)
  }

  function Zeros(k: nat): (z: string)
    ensures |z| == k && IsDigits(z)
  {
    seq(k, _ => '0')
  }

  /** `ToString("D3")` on a non-negative number's digits. */
  function Pad3(s: string): (r: string)
    ensures |r| == if |s| >= 3 then |s| else 3
  {
    if |s| >= 3 then s else Zeros(3 - |s|) + s
  }

  /** `n.ToString("D3")`. */
  function FormatD3(n: int): string {
    if n < 0 then "-" + Pad3(Digits(-n)) else Pad3(Digits(n))
  }

  const Prefix: string := "CAR-"

  function GenerateNextCode(currentMaxId: Int32): (code: string)
    ensures |code| >= 7 && code[..4] == Prefix
  {
    var nextNumber := Wrap32(currentMaxId + 1);
    Prefix + FormatD3(nextNumber)
  }

  /** Reading the digits back gives the number: Digits is injective. */
  lemma {:induction false} ParseDigits(n: nat)
    ensures ParseDecimal(Digits(n)) == n
  {
    if n >= 10 {
      ParseDigits(n / 10);
      var d := Digits(n);
      assert d[..|d| - 1] == Digits(n / 10);
    }
  }

  /** Leading zeros do not change the value. */
  lemma {:induction false} ParseLeadingZeros(k: nat, s: string)
    requires IsDigits(s)
    ensures IsDigits(Zeros(k) + s) && ParseDecimal(Zeros(k) + s) == ParseDecimal(s)
    decreases |s|
  {
    if s == [] {
      assert Zeros(k) + s == Zeros(k);
      ZerosParseToZero(k);
    } else {
      var t := Zeros(k) + s;
      assert t[..|t| - 1] == Zeros(k) + s[..|s| - 1];
      ParseLeadingZeros(k, s[..|s| - 1]);
    }
  }

  lemma {:induction false} ZerosParseToZero(k: nat)
    ensures ParseDecimal(Zeros(k)) == 0
  {
    if k > 0 {
      assert Zeros(k)[..k - 1] == Zeros(k - 1);
      ZerosParseToZero(k - 1);
    }
  }

  /** The suffix of a code decodes to the number it was made from. */
  function DecodeSuffix(code: string): nat
    requires |code| >= 4 && IsDigits(code[4..])
  {
    ParseDecimal(code[4..])
  }

  /** For a non-negative id below `int.MaxValue` the addition does not wrap,
      the suffix is all digits, and it decodes to currentMaxId + 1. */
  lemma CodeRoundTrip(currentMaxId: Int32)
    requires 0 <= currentMaxId < Int32Max
    ensures var code := GenerateNextCode(currentMaxId);
      IsDigits(code[4..]) && DecodeSuffix(code) == currentMaxId + 1
  {
    var n := currentMaxId + 1;
    var d := Digits(n);
    var code := GenerateNextCode(currentMaxId);
    assert code[4..] == Pad3(d);
    ParseDigits(n);
    if |d| < 3 {
      ParseLeadingZeros(3 - |d|, d);
    }
  }

  /** Distinct ids give distinct codes, as the unique index on
      `CarrierCode` requires. */
  lemma CodesDistinct(m1: Int32, m2: Int32)
    requires 0 <= m1 < Int32Max && 0 <= m2 < Int32Max && m1 != m2
    ensures GenerateNextCode(m1) != GenerateNextCode(m2)
  {
    CodeRoundTrip(m1);
    CodeRoundTrip(m2);
  }

  function Pow10(k: nat): (p: nat)
    ensures p >= 1
  {
    if k == 0 then 1 else 10 * Pow10(k - 1)
  }

  /** A number below 10^k has at most k digits. */
  lemma {:induction false} DigitsLength(n: nat, k: nat)
    requires 1 <= k && n < Pow10(k)
    ensures |Digits(n)| <= k
  {
    if n >= 10 {
      DigitsLength(n / 10, k - 1);
    }
  }

  /** Up to 998 the code has the fixed shape CAR-ddd. */
  lemma CodeLengthSmall(currentMaxId: Int32)
    requires 0 <= currentMaxId <= 998
    ensures |GenerateNextCode(currentMaxId)| == 7
  {
    assert Pow10(3) == 1000;
    DigitsLength(currentMaxId + 1, 3);
  }

  /** Without wrap-around a code has at most 14 characters, so it fits the
      20-character `CarrierCode` column. */
  lemma CodeFitsColumn(currentMaxId: Int32)
    requires 0 <= currentMaxId < Int32Max
    ensures |GenerateNextCode(currentMaxId)| <= 14 <= 20
  {
    assert Pow10(10) == 10000000000;
    DigitsLength(currentMaxId + 1, 10);
  }

  /** At `int.MaxValue` the increment wraps to `int.MinValue` and the code
      carries a minus sign. */
  lemma CodeAtMaxValueWraps()
    ensures GenerateNextCode(Int32Max) == "CAR--2147483648"
  {
    CodeAtMaxShape();
    DigitsOfMinMagnitude();
    SpellCode(GenerateNextCode(Int32Max), Digits(2147483648));
  }

  /** At `int.MaxValue` the formatter receives `int.MinValue`. */
  lemma CodeAtMaxShape()
    ensures GenerateNextCode(Int32Max) == Prefix + "-" + Digits(2147483648)
  {
    WrapAtMax();
  }

  /** Spelling out the code from its digits. */
  lemma SpellCode(code: string, digits: string)
    requires code == Prefix + "-" + digits && digits == "2147483648"
    ensures code == "CAR--2147483648"
  {
  }

  lemma WrapAtMax()
    ensures Wrap32(Int32Max + 1) == Int32Min
  {
  }

  lemma DigitsOfMinMagnitude()
    ensures Digits(2147483648) == "2147483648"
  {
    assert Digits(2) == "2";
    assert Digits(21) == Digits(2) + "1";
    assert Digits(214) == Digits(21) + "4";
    assert Digits(2147) == Digits(214) + "7";
    assert Digits(21474) == Digits(2147) + "4";
    assert Digits(214748) == Digits(21474) + "8";
    assert Digits(2147483) == Digits(214748) + "3";
    assert Digits(21474836) == Digits(2147483) + "6";
    assert Digits(214748364) == Digits(21474836) + "4";
    assert Digits(2147483648) == Digits(214748364) + "8";
  }
}
