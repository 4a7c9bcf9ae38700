/** The two `fmt` verbs that number extracted tracks: `%0<w>d` (decimal) and
    `%0<w>x` (lower-case hexadecimal), both padded on the left with zeros to
    at least w characters. Only non-negative operands are formatted. */
module Format {

  /** The digit for value d, as `fmt` writes it (lower-case for 10..15). */
  function DigitChar(d: nat): (c: char)
    requires d < 16
  {
    if d < 10 then ('0' as int + d) as char else ('a' as int + d - 10) as char
  }

  /** The value of a digit character; 0 for anything else. */
  function DigitValue(c: char): nat
  {
    if '0' <= c <= '9' then c as int - '0' as int
    else if 'a' <= c <= 'f' then c as int - 'a' as int + 10
    else 0
  }

  predicate IsDigit(c: char, base: nat) {
    ('0' <= c <= '9' && c as int - '0' as int < base) ||
    ('a' <= c <= 'f' && c as int - 'a' as int + 10 < base)
  }

  lemma DigitRoundTrip(d: nat, base: nat)
    requires d < base <= 16
    ensures IsDigit(DigitChar(d), base) && DigitValue(DigitChar(d)) == d
  {
  }

  /** The digits of n in the given base, most significant first, with no
      leading zero (zero itself is "0"). */
  function Radix(n: nat, base: nat): (s: string)
    requires 2 <= base <= 16
    ensures |s| >= 1
    decreases n
  {
    if n < base then [DigitChar(n)]
    else
      DivStep(n, base);
      Radix(n / base, base) + [DigitChar(n % base)]
  }

  /** One step of digit extraction shrinks the number. */
  lemma DivStep(n: nat, base: nat)
    requires 2 <= base <= n
    ensures 1 <= n / base < n && n % base < base
  {
    var q, r := n / base, n % base;
    assert n == base * q + r;
    assert base * q >= 2 * q by {
      assert (base - 2) * q >= 0;
    }
  }

  /** The number a digit string denotes, most significant digit first. */
  function ValueOf(s: string, base: nat): nat
    requires 2 <= base <= 16
  {
    if s == [] then 0 else ValueOf(s[..|s| - 1], base) * base + DigitValue(s[|s| - 1])
  }

  function Zeros(k: nat): (z: string)
    ensures |z| == k && forall i :: 0 <= i < k ==> z[i] == '0'
  {
    seq(k, _ => '0')
  }

  /** Left-pads s with '0' up to the given width; never shortens it. */
  function ZeroPad(s: string, width: nat): (r: string)
    ensures |r| == if |s| >= width then |s| else width
  {
    if |s| >= width then s else Zeros(width - |s|) + s
  }

  /** The digits of n are digits of its base. */
  lemma {:induction false} RadixDigits(n: nat, base: nat)
    requires 2 <= base <= 16
    ensures forall i :: 0 <= i < |Radix(n, base)| ==> IsDigit(Radix(n, base)[i], base)
    decreases n
  {
    if n < base {
      DigitRoundTrip(n, base);
    } else {
      DivStep(n, base);
      DigitRoundTrip(n % base, base);
      RadixDigits(n / base, base);
    }
  }

  /** A padded number is zeros followed by the number's own digits, so every
      character of it is a digit of the base. */
  lemma PaddedDigits(n: nat, base: nat, width: nat)
    requires 2 <= base <= 16
    ensures var s, r := Radix(n, base), ZeroPad(Radix(n, base), width);
            r[|r| - |s|..] == s &&
            (forall i :: 0 <= i < |r| - |s| ==> r[i] == '0') &&
            forall i :: 0 <= i < |r| ==> IsDigit(r[i], base)
  {
    RadixDigits(n, base);
  }

  /** `%0<width>d`. */
  function Decimal(n: nat, width: nat): (s: string)
    ensures |s| >= width
  {
    ZeroPad(Radix(n, 10), width)
  }

  /** `%0<width>x`. */
  function Hex(n: nat, width: nat): (s: string)
    ensures |s| >= width
  {
    ZeroPad(Radix(n, 16), width)
  }

  function Pow(base: nat, k: nat): nat
  {
    if k == 0 then 1 else base * Pow(base, k - 1)
  }

  /** Reading the digits back gives the number. */
  lemma {:induction false} RadixRoundTrip(n: nat, base: nat)
    requires 2 <= base <= 16
    ensures ValueOf(Radix(n, base), base) == n
    decreases n
  {
    if n < base {
      DigitRoundTrip(n, base);
      assert Radix(n, base)[..0] == [];
    } else {
      var s := Radix(n, base);
      DivStep(n, base);
      assert s[..|s| - 1] == Radix(n / base, base);
      DigitRoundTrip(n % base, base);
      assert n == n / base * base + n % base;
      RadixRoundTrip(n / base, base);
    }
  }

  lemma {:induction false} ZerosValue(k: nat, base: nat)
    requires 2 <= base <= 16
    ensures ValueOf(Zeros(k), base) == 0
  {
    if k > 0 {
      assert Zeros(k)[..k - 1] == Zeros(k - 1);
      ZerosValue(k - 1, base);
    }
  }

  /** Leading zeros do not change the value of a digit string. */
  lemma {:induction false} LeadingZeros(k: nat, s: string, base: nat)
    requires 2 <= base <= 16
    ensures ValueOf(Zeros(k) + s, base) == ValueOf(s, base)
    decreases |s|
  {
    if s == [] {
      assert Zeros(k) + s == Zeros(k);
      ZerosValue(k, base);
    } else {
      var t := Zeros(k) + s;
      assert t[..|t| - 1] == Zeros(k) + s[..|s| - 1];
      LeadingZeros(k, s[..|s| - 1], base);
    }
  }

  /** A zero-padded number reads back as the number: `%0<w>d` and `%0<w>x`
      lose nothing. */
  lemma PaddedRoundTrip(n: nat, base: nat, width: nat)
    requires 2 <= base <= 16
    ensures ValueOf(ZeroPad(Radix(n, base), width), base) == n
  {
    var s := Radix(n, base);
    RadixRoundTrip(n, base);
    if |s| < width {
      LeadingZeros(width - |s|, s, base);
    }
  }

  lemma MulCancel(a: int, x: int, y: int)
    requires a > 0 && a * x < a * y
    ensures x < y
  {
  }

  lemma DivBelow(n: nat, base: nat, p: nat)
    requires base > 0 && n < base * p
    ensures n / base < p
  {
    assert base * (n / base) <= n;
    MulCancel(base, n / base, p);
  }

  /** A number below base^k has at most k digits (and always at least one). */
  lemma {:induction false} RadixShort(n: nat, base: nat, k: nat)
    requires 2 <= base <= 16 && n < Pow(base, k)
    ensures |Radix(n, base)| <= if k == 0 then 1 else k
    decreases n
  {
    if n >= base {
      assert k != 0;
      DivStep(n, base);
      DivBelow(n, base, Pow(base, k - 1));
      RadixShort(n / base, base, k - 1);
    }
  }

  /** `%08x` of a `uint32` is exactly eight characters. */
  lemma HexWidth(n: nat)
    requires n < 0x1_0000_0000
    ensures |Hex(n, 8)| == 8
  {
    assert Pow(16, 8) == 0x1_0000_0000;
    RadixShort(n, 16, 8);
  }

  /** Only zero itself is written with a leading '0'. */
  lemma {:induction false} RadixNoLeadingZero(n: nat, base: nat)
    requires 2 <= base <= 16 && n > 0
    ensures Radix(n, base)[0] != '0'
    decreases n
  {
    if n >= base {
      DivStep(n, base);
      RadixNoLeadingZero(n / base, base);
    }
  }

  /** Examples: `%03d` of 7 and of 1234, `%08x` of 0x14. */
  lemma FormatExamples()
    ensures Decimal(7, 3) == "007" && Decimal(1234, 3) == "1234"
    ensures Hex(0x14, 8) == "00000014"
  {
  }

  /** `%03d` of a number below 1000 is exactly three characters. */
  lemma DecimalWidth(n: nat)
    requires n < 1000
    ensures |Decimal(n, 3)| == 3
  {
    assert Pow(10, 3) == 1000;
    RadixShort(n, 10, 3);
  }
}
