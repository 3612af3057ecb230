/** The pieces of C string formatting the logger relies on: truncation by
    snprintf, `%d`, `%02x`, and the substring test of strstr. Strings are
    the characters before the terminating NUL. */
module CText {

  /** What snprintf keeps of `s` in a buffer that holds `n` characters and
      a NUL. */
  function Truncate(s: string, n: nat): (r: string)
    ensures |r| <= n && |r| <= |s|
    ensures r == s[..|r|]
    ensures |s| <= n ==> r == s
    ensures |s| > n ==> |r| == n
  {
    if |s| <= n then s else s[..n]
  }

  /** `k` occurs in `s` starting at position `i`. */
  predicate OccursAt(s: string, k: string, i: int) {
    0 <= i <= |s| - |k| && s[i..i + |k|] == k
  }

  /** strstr(s, k) != NULL. */
  predicate Contains(s: string, k: string) {
    exists i | 0 <= i <= |s| - |k| :: OccursAt(s, k, i)
  }

  /** `base` raised to the power `k`. */
  function Pow(base: nat, k: nat): (r: nat)
    ensures base >= 1 ==> r >= 1
  {
    if k == 0 then 1 else base * Pow(base, k - 1)
  }

  /** The lower-case digit for `d`. */
  function DigitChar(d: nat): (c: char)
    requires d < 16
    ensures DigitValue(c) == d
  {
    if d < 10 then ('0' as int + d) as char else ('a' as int + d - 10) as char
  }

  /** The value of a lower-case hex or decimal digit. */
  function DigitValue(c: char): int {
    if '0' <= c <= '9' then c as int - '0' as int
    else if 'a' <= c <= 'f' then c as int - 'a' as int + 10
    else -1
  }

  /** The digits of `n` in `base`, most significant first, no leading zeros. */
  function Digits(n: nat, base: nat): (s: string)
    requires 2 <= base <= 16
    ensures |s| >= 1
    decreases n
  {
    if n < base then [DigitChar(n)]
    else
      DivShrinks(n, base);
      Digits(n / base, base) + [DigitChar(n % base)]
  }

  /** One division step: quotient and remainder rebuild `n`, and the
      quotient is smaller. */
  lemma DivStep(n: nat, base: nat)
    requires 2 <= base <= n
    ensures n == (n / base) * base + n % base && 0 <= n % base < base
    ensures 1 <= n / base < n
  {
    var q, r := n / base, n % base;
    assert n == q * base + r && 0 <= r < base;
    MulAtLeastDouble(q, base);
  }

  lemma DivShrinks(n: nat, base: nat)
    requires 2 <= base <= n
    ensures n / base < n
  {
    DivStep(n, base);
  }

  lemma {:induction false} MulAtLeastDouble(q: nat, base: nat)
    requires base >= 2
    ensures q * base >= 2 * q
    decreases q
  {
    if q > 0 {
      MulAtLeastDouble(q - 1, base);
      assert q * base == (q - 1) * base + base;
    }
  }

  /** The number a string of digits stands for in `base`. */
  function ReadDigits(s: string, base: nat): int
    decreases |s|
  {
    if s == [] then 0 else ReadDigits(s[..|s| - 1], base) * base + DigitValue(s[|s| - 1])
  }

  /** Every character Digits prints is a digit below the base. */
  lemma {:induction false} DigitsInBase(n: nat, base: nat)
    requires 2 <= base <= 16
    ensures forall i :: 0 <= i < |Digits(n, base)| ==> 0 <= DigitValue(Digits(n, base)[i]) < base
    decreases n
  {
    if n >= base {
      DivStep(n, base);
      var s := Digits(n / base, base);
      DigitsInBase(n / base, base);
      assert Digits(n, base) == s + [DigitChar(n % base)];
    }
  }

  /** Reading back the digits of `n` gives `n`. */
  lemma {:induction false} DigitsRoundTrip(n: nat, base: nat)
    requires 2 <= base <= 16
    ensures ReadDigits(Digits(n, base), base) == n
    decreases n
  {
    if n >= base {
      DivStep(n, base);
      var s := Digits(n / base, base);
      DigitsRoundTrip(n / base, base);
      var t := Digits(n, base);
      assert t == s + [DigitChar(n % base)];
      assert t[..|t| - 1] == s;
      assert ReadDigits(t, base) == (n / base) * base + n % base;
    }
  }

  /** `n` has exactly `k` digits when base^(k-1) <= n < base^k. */
  lemma {:induction false} DigitsLength(n: nat, base: nat, k: nat)
    requires 2 <= base <= 16 && k >= 1
    requires Pow(base, k - 1) <= n < Pow(base, k)
    ensures |Digits(n, base)| == k
    decreases k
  {
    if k > 1 {
      var p := Pow(base, k - 2);
      assert Pow(base, k - 1) == base * p;
      assert Pow(base, k) == base * (base * p);
      MulAtLeastOne(base, p);
      DivBounds(n, base, p);
      DigitsLength(n / base, base, k - 1);
      assert Digits(n, base) == Digits(n / base, base) + [DigitChar(n % base)];
    }
  }

  lemma MulAtLeastOne(a: nat, p: nat)
    requires p >= 1
    ensures a * p >= a
  {
  }

  /** Dividing by `base` moves a number down one power of `base`. */
  lemma DivBounds(n: nat, base: nat, p: nat)
    requires base >= 2 && base * p <= n < base * (base * p)
    ensures p <= n / base < base * p
  {
    var q := n / base;
    var r := n % base;
    assert n == q * base + r && 0 <= r < base;
    assert p * base < (q + 1) * base;
    MulStrict(p, q + 1, base);
    assert q * base < (base * p) * base;
    MulStrict(q, base * p, base);
  }

  lemma MulStrict(a: int, b: int, c: int)
    requires c > 0 && a * c < b * c
    ensures a < b
  {
  }

  /** `%d`. */
  function Decimal(n: int): (s: string)
    ensures |s| >= 1
  {
    if n < 0 then "-" + Digits(-n, 10) else Digits(n, 10)
  }

  /** `%02x` of an unsigned value: lower-case hex, zero-padded to two
      digits, which only a value below 16 needs. */
  function Hex02(u: nat): (s: string)
    ensures |s| >= 2
  {
    if u < 16 then ['0', DigitChar(u)] else Digits(u, 16)
  }

  /** A byte is printed by `%02x` as exactly two digits that read back as
      the byte. */
  lemma Hex02Byte(b: nat)
    requires b < 256
    ensures |Hex02(b)| == 2
    ensures 16 * DigitValue(Hex02(b)[0]) + DigitValue(Hex02(b)[1]) == b
  {
    var h := Digits(b, 16);
    if b < 16 {
      assert h == [DigitChar(b)];
      assert Hex02(b) == ['0', DigitChar(b)];
    } else {
      assert b / 16 < 16;
      assert Digits(b / 16, 16) == [DigitChar(b / 16)];
      assert h == Digits(b / 16, 16) + [DigitChar(b % 16)];
    }
  }
}
