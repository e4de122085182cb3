/** The slice of the Java platform the inventory app relies on: 32-bit `int`,
    signed `byte`, nullable references, and `Integer.toString(int, int)`. */
module Java {

  /** A nullable reference: `None` is Java's `null`. */
  datatype Option<+T> = None | Some(value: T)

  /** `Integer.MIN_VALUE` and `Integer.MAX_VALUE`. */
  const MIN_VALUE: int := -0x8000_0000
  const MAX_VALUE: int := 0x7fff_ffff

  /** Java `int`. */
  type Int32 = x: int | MIN_VALUE <= x <= MAX_VALUE

  /** Java `byte` (signed). */
  type JByte = x: int | -128 <= x < 128

  /** Two's-complement wrap-around of an exact result into an `int`. */
  function Wrap32(x: int): (r: Int32)
    ensures (x - r) % 0x1_0000_0000 == 0
    ensures MIN_VALUE <= x <= MAX_VALUE ==> r == x
  {
    var m := x % 0x1_0000_0000;
    if m <= MAX_VALUE then m else m - 0x1_0000_0000
  }

  /** `b & 0xff` for a byte `b`: its value read as unsigned. */
  function Unsigned(b: JByte): (u: nat)
    ensures u < 256
    ensures u % 256 == b % 256
  {
    if b < 0 then b + 256 else b
  }

  /** `(byte) u`: the inverse of `Unsigned` on 0..255. */
  function Signed(u: nat): (b: JByte)
    requires u < 256
    ensures Unsigned(b) == u
  {
    if u < 128 then u else u - 256
  }

  /** The value of a character read as a lower-case digit of some base up to
      36 (0-9, then a-z), or -1 for any other character. This is the decoder
      the digit and hex round trips read text back with. */
  function DigitValue(c: char): (d: int)
    ensures -1 <= d < 36
  {
    if '0' <= c <= '9' then c as int - '0' as int
    else if 'a' <= c <= 'z' then c as int - 'a' as int + 10
    else -1
  }

  /** `Character.forDigit`: the lower-case character of digit `d`. */
  function DigitChar(d: nat): (c: char)
    requires d < 36
    ensures DigitValue(c) == d
    ensures d < 10 <==> '0' <= c <= '9'
  {
    if d < 10 then ('0' as int + d) as char else ('a' as int + d - 10) as char
  }

  /** The digits of `n` in base `radix`, most significant first, without
      leading zeros ("0" for zero). */
  function Digits(n: nat, radix: nat): (s: string)
    requires 2 <= radix <= 36
    ensures |s| >= 1
    decreases n
  {
    if n < radix then [DigitChar(n)]
    else Digits(n / radix, radix) + [DigitChar(n % radix)]
  }

  /** Every character of the text is a digit of the radix. */
  lemma {:induction false} DigitsInRadix(n: nat, radix: nat)
    requires 2 <= radix <= 36
    ensures forall i :: 0 <= i < |Digits(n, radix)| ==> 0 <= DigitValue(Digits(n, radix)[i]) < radix
    decreases n
  {
    if n >= radix {
      var q, m := n / radix, n % radix;
      DivModRadix(n, radix);
      var p := Digits(q, radix);
      var s := p + [DigitChar(m)];
      assert Digits(n, radix) == s;
      DigitsInRadix(q, radix);
      forall i | 0 <= i < |s| ensures 0 <= DigitValue(s[i]) < radix {
        if i < |p| {
          assert s[i] == p[i];
        }
      }
    }
  }

  /** Reads a digit string back as a number (Horner's rule). */
  function ParseDigits(s: string, radix: nat): int
  {
    if s == [] then 0
    else ParseDigits(s[..|s| - 1], radix) * radix + DigitValue(s[|s| - 1])
  }

  /** Appending one digit multiplies by the radix and adds the digit. */
  lemma ParseDigitsAppend(s: string, c: char, radix: nat)
    ensures ParseDigits(s + [c], radix) == ParseDigits(s, radix) * radix + DigitValue(c)
  {
    assert (s + [c])[..|s + [c]| - 1] == s;
  }

  /** Euclidean division by the radix, as the digit recursion uses it. */
  lemma DivModRadix(n: nat, radix: nat)
    requires 2 <= radix <= n
    ensures n == (n / radix) * radix + n % radix
    ensures n / radix < n
  {
  }

  lemma {:induction false} DigitsRoundTrip(n: nat, radix: nat)
    requires 2 <= radix <= 36
    ensures ParseDigits(Digits(n, radix), radix) == n
    decreases n
  {
    if n >= radix {
      var q, m := n / radix, n % radix;
      DivModRadix(n, radix);
      var p := Digits(q, radix);
      assert Digits(n, radix) == p + [DigitChar(m)];
      ParseDigitsAppend(p, DigitChar(m), radix);
      DigitsRoundTrip(q, radix);
    }
  }

  /** Only zero is written with a leading '0'. */
  lemma {:induction false} DigitsNoLeadingZero(n: nat, radix: nat)
    requires 2 <= radix <= 36
    ensures Digits(n, radix)[0] == '0' <==> n == 0
    decreases n
  {
    if n >= radix {
      var q := n / radix;
      DivModRadix(n, radix);
      assert q >= 1;
      DigitsNoLeadingZero(q, radix);
      assert Digits(n, radix)[0] == Digits(q, radix)[0];
    } else {
      assert DigitValue(Digits(n, radix)[0]) == n;
    }
  }

  /** The radix `Integer.toString` uses: the requested one when it lies in
      2..36, otherwise 10. */
  function EffectiveRadix(radix: int): (b: nat)
    ensures 2 <= b <= 36
    ensures 2 <= radix <= 36 ==> b == radix
  {
    if 2 <= radix <= 36 then radix else 10
  }

  /** Some digits of the radix, reading back as `n`, without a leading zero;
      zero is the single digit "0". */
  ghost predicate WritesNumber(d: string, n: nat, radix: nat)
  {
    && |d| >= 1
    && (forall k :: 0 <= k < |d| ==> 0 <= DigitValue(d[k]) < radix)
    && ParseDigits(d, radix) == n
    && (d[0] == '0' <==> n == 0)
    && (n == 0 ==> |d| == 1)
  }

  /** `Integer.toString(i, radix)`: a leading '-' for negative values, then
      the lower-case digits of the magnitude; an out-of-range radix means 10. */
  function IntToString(i: int, radix: int): (s: string)
    ensures i >= 0 ==> WritesNumber(s, i, EffectiveRadix(radix))
    ensures i < 0 ==> |s| >= 2 && s[0] == '-' && WritesNumber(s[1..], -i, EffectiveRadix(radix))
  {
    var b := EffectiveRadix(radix);
    var n: nat := if i < 0 then -i else i;
    DigitsInRadix(n, b);
    DigitsRoundTrip(n, b);
    DigitsNoLeadingZero(n, b);
    if i < 0 then
      assert ("-" + Digits(n, b))[1..] == Digits(n, b);
      "-" + Digits(n, b)
    else Digits(n, b)
  }

  /** A non-negative number's decimal text consists of decimal digits only. */
  lemma DecimalIsDigits(n: nat)
    ensures forall i :: 0 <= i < |IntToString(n, 10)| ==> '0' <= IntToString(n, 10)[i] <= '9'
  {
    var s := IntToString(n, 10);
    forall i | 0 <= i < |s| ensures '0' <= s[i] <= '9' {
      assert 0 <= DigitValue(s[i]) < 10;
    }
  }
}
