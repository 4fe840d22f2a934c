/** The six-digit verification code of server.js: an integer in [100000, 999999]
    rendered as its decimal string, as JavaScript's Number.prototype.toString does
    for a non-negative integer (no sign, no leading zeros). */
module OtpCode {

  const CODE_LOW := 100000
  const CODE_HIGH := 999999

  predicate IsDigit(c: char) {
    '0' <= c <= '9'
  }

  predicate AllDigits(s: string) {
    forall i :: 0 <= i < |s| ==> IsDigit(s[i])
  }

  function DigitChar(d: nat): (c: char)
    requires d < 10
    ensures IsDigit(c)
  {
    ('0' as int + d) as char
  }

  function DigitValue(c: char): (d: nat)
    requires IsDigit(c)
    ensures d < 10 && DigitChar(d) == c
  {
    c as int - '0' as int
  }

  function Pow10(k: nat): (p: nat)
    ensures p >= 1
  {
    if k == 0 then 1 else 10 * Pow10(k - 1)
  }

  /** The decimal rendering of n: most significant digit first, no leading zeros. */
  function Decimal(n: nat): (s: string)
    ensures |s| >= 1 && AllDigits(s)
    ensures s[0] == '0' <==> n == 0
    ensures n == 0 ==> s == "0"
    decreases n
  {
    if n < 10 then [DigitChar(n)] else Decimal(n / 10) + [DigitChar(n % 10)]
  }

  /** The number a string of digits denotes (the inverse reading of Decimal). */
  function ValueOf(s: string): nat
    requires AllDigits(s)
  {
    if |s| == 0 then 0 else 10 * ValueOf(s[..|s| - 1]) + DigitValue(s[|s| - 1])
  }

  /** Reading back the rendering of n gives n. */
  lemma {:induction false} ValueOfDecimal(n: nat)
    ensures ValueOf(Decimal(n)) == n
    decreases n
  {
    var s := Decimal(n);
    if n < 10 {
      assert s[..|s| - 1] == [];
    } else {
      assert s[..|s| - 1] == Decimal(n / 10);
      ValueOfDecimal(n / 10);
    }
  }

  /** A number with exactly k decimal digits renders as k characters. */
  lemma {:induction false} DecimalLength(n: nat, k: nat)
    requires 1 <= k && Pow10(k - 1) <= n < Pow10(k)
    ensures |Decimal(n)| == k
    decreases k
  {
    if k > 1 {
      assert Pow10(k - 1) == 10 * Pow10(k - 2);
      DecimalLength(n / 10, k - 1);
    }
  }

  /** A digit string of length k lies below 10^k, and at or above 10^(k-1)
      when its first digit is not '0'. */
  lemma {:induction false} ValueBounds(s: string)
    requires AllDigits(s) && |s| >= 1
    ensures ValueOf(s) < Pow10(|s|)
    ensures s[0] != '0' ==> ValueOf(s) >= Pow10(|s| - 1)
    decreases |s|
  {
    var p := s[..|s| - 1];
    if |s| > 1 {
      assert p[0] == s[0];
      ValueBounds(p);
    }
  }

  /** Rendering the value of a canonical digit string (no leading zero unless it is "0")
      gives the string back. */
  lemma {:induction false} DecimalOfValue(s: string)
    requires AllDigits(s) && |s| >= 1 && (|s| > 1 ==> s[0] != '0')
    ensures Decimal(ValueOf(s)) == s
    decreases |s|
  {
    var p := s[..|s| - 1];
    var d := DigitValue(s[|s| - 1]);
    if |s| > 1 {
      assert p[0] == s[0];
      ValueBounds(p);
      DecimalOfValue(p);
      var n := ValueOf(s);
      assert n == 10 * ValueOf(p) + d;
      assert n / 10 == ValueOf(p) && n % 10 == d;
      assert s == p + [s[|s| - 1]];
    } else {
      assert s == [s[0]];
    }
  }

  /** generateOTP (server.js:59-61) once the random draw has been reduced to an
      integer n in [100000, 999999]: exactly six digits, the first one not '0',
      denoting n. */
  function GenerateOtp(n: int): (code: string)
    requires CODE_LOW <= n <= CODE_HIGH
    ensures |code| == 6 && AllDigits(code) && code[0] != '0'
    ensures ValueOf(code) == n
  {
    assert Pow10(5) == 100000 && Pow10(6) == 1000000;
    DecimalLength(n, 6);
    ValueOfDecimal(n);
    Decimal(n)
  }

  /** Every string of the shape [1-9][0-9]{5} is the code of exactly one draw. */
  lemma CodeShapeOnto(code: string)
    requires |code| == 6 && AllDigits(code) && code[0] != '0'
    ensures CODE_LOW <= ValueOf(code) <= CODE_HIGH
    ensures GenerateOtp(ValueOf(code)) == code
  {
    ValueBounds(code);
    DecimalOfValue(code);
  }
}
