/** Positional numerals: what the number printers write, and that it can be read back. */
module Numerals {
  import opened Arithmetic

  const DIGITS: string := "0123456789abcdef"

  function Digit(d: nat): (c: char)
    requires d < 16
    ensures DigitValue(c) == d && c != '\0'
    ensures d < 10 ==> c as int == '0' as int + d
    ensures c == '0' <==> d == 0
  {
    DIGITS[d]
  }

  function DigitValue(c: char): nat {
    if '0' <= c <= '9' then c as int - '0' as int
    else if 'a' <= c <= 'f' then c as int - 'a' as int + 10
    else 0
  }

  // Division by a variable base, by repeated subtraction. DivMod says it is division.
  function Quot(n: nat, b: nat): (q: nat)
    requires b >= 2
    ensures n > 0 ==> q < n
    ensures n == 0 ==> q == 0
  {
    if n < b then 0 else 1 + Quot(n - b, b)
  }

  function Rem(n: nat, b: nat): (r: nat)
    requires b >= 2
    ensures r < b
  {
    if n < b then n else Rem(n - b, b)
  }

  lemma {:induction false} DivMod(n: nat, b: nat)
    requires b >= 2
    ensures Quot(n, b) == n / b && Rem(n, b) == n % b
    ensures Quot(n, b) * b + Rem(n, b) == n
  {
    if n < b {
      SmallDivision(n, b);
    } else {
      DivMod(n - b, b);
      DivisionStep(n, b);
    }
  }

  lemma SmallDivision(n: nat, b: nat)
    requires n < b
    ensures n / b == 0 && n % b == n
  {
  }

  lemma DivisionStep(n: nat, b: nat)
    requires n >= b >= 2
    ensures n / b == (n - b) / b + 1 && n % b == (n - b) % b
    ensures ((n - b) / b + 1) * b == (n - b) / b * b + b
  {
    var q, r := (n - b) / b, (n - b) % b;
    assert n == b * (q + 1) + r;
    DivisionUnique(n, b, q + 1, r);
  }

  /** The digits of n, most significant first; none at all for 0. */
  function Numeral(n: nat, base: nat): string
    requires 2 <= base <= 16
    decreases n
  {
    if n == 0 then "" else Numeral(Quot(n, base), base) + [Digit(Rem(n, base))]
  }

  /** The digits of n, with "0" for 0. */
  function Shown(n: nat, base: nat): string
    requires 2 <= base <= 16
  {
    if n == 0 then "0" else Numeral(n, base)
  }

  function Zeros(k: nat): (s: string)
    ensures |s| == k && forall i :: 0 <= i < k ==> s[i] == '0'
  {
    seq(k, _ => '0')
  }

  /** Zeros in front, up to the given width. */
  function PadTo(s: string, width: nat): string {
    if |s| < width then Zeros(width - |s|) + s else s
  }

  function Parse(s: string, base: nat): nat {
    if s == "" then 0 else Parse(s[..|s| - 1], base) * base + DigitValue(s[|s| - 1])
  }

  lemma ParseSnoc(s: string, c: char, base: nat)
    ensures Parse(s + [c], base) == Parse(s, base) * base + DigitValue(c)
  {
    assert (s + [c])[..|s|] == s;
  }

  /** Reading the digits gives the number back, and there is no leading zero. */
  lemma {:induction false} ParseNumeral(n: nat, base: nat)
    requires 2 <= base <= 16
    ensures Parse(Numeral(n, base), base) == n
    ensures n > 0 ==> Numeral(n, base) != "" && Numeral(n, base)[0] != '0'
    decreases n
  {
    if n > 0 {
      var q, r := Quot(n, base), Rem(n, base);
      ParseNumeral(q, base);
      ParseSnoc(Numeral(q, base), Digit(r), base);
      DivMod(n, base);
    }
  }

  // ----- the digits one by one -----

  /** The digits and what they stand for. */
  lemma DigitTable(d: nat)
    requires d < 16
    ensures Digit(d) == "0123456789abcdef"[d] && DigitValue("0123456789abcdef"[d]) == d
  {
  }

  lemma DivideTwice(n: nat, b: nat, p: nat)
    requires b > 0 && p > 0
    ensures b * p > 0 && n / (b * p) == n / b / p
  {
    var q, r := n / b, n % b;
    var u, v := q / p, q % p;
    assert n == b * q + r && q == p * u + v;
    assert b * q == (b * p) * u + b * v by {
      assert b * (p * u + v) == b * (p * u) + b * v;
      assert b * (p * u) == (b * p) * u;
    }
    MulMonotone(b, v + 1, p);
    assert b * (v + 1) == b * v + b;
    DivisionUnique(n, b * p, u, b * v + r);
  }

  /** The i-th digit from the right is the number divided by base to the i, modulo base. */
  lemma {:induction false} NumeralPositions(n: nat, base: nat, i: nat)
    requires 2 <= base <= 16 && i < |Numeral(n, base)|
    ensures Pow(base, i) > 0 && 0 <= n / Pow(base, i) % base < 16
    ensures Numeral(n, base)[|Numeral(n, base)| - 1 - i] == "0123456789abcdef"[n / Pow(base, i) % base]
    decreases i
  {
    DivMod(n, base);
    PowPositive(base, i);
    if i == 0 {
      DigitTable(Rem(n, base));
    } else {
      NumeralPositions(Quot(n, base), base, i - 1);
      DivideTwice(n, base, Pow(base, i - 1));
    }
  }

  lemma {:induction false} ParseZeros(k: nat, s: string, base: nat)
    ensures Parse(Zeros(k) + s, base) == Parse(s, base)
    decreases k + |s|
  {
    var t := Zeros(k) + s;
    if s != "" {
      assert t[..|t| - 1] == Zeros(k) + s[..|s| - 1];
      ParseZeros(k, s[..|s| - 1], base);
    } else if k > 0 {
      assert t[..|t| - 1] == Zeros(k - 1) + "";
      ParseZeros(k - 1, "", base);
    }
  }

  /** A number has at most k digits exactly when it is below base to the k. */
  lemma {:induction false} NumeralLength(n: nat, base: nat, k: nat)
    requires 2 <= base <= 16
    ensures |Numeral(n, base)| <= k <==> n < Pow(base, k)
    decreases k
  {
    if k == 0 {
    } else if n == 0 {
      PowPositive(base, k);
    } else {
      NumeralLength(Quot(n, base), base, k - 1);
      DivMod(n, base);
      DivBound(n, base, Quot(n, base), Rem(n, base), Pow(base, k - 1));
    }
  }

  lemma {:induction false} PowPositive(b: nat, e: nat)
    requires b > 0
    ensures Pow(b, e) > 0
  {
    if e > 0 {
      PowPositive(b, e - 1);
    }
  }

  lemma DivBound(n: nat, b: nat, q: nat, r: nat, p: nat)
    requires n == q * b + r && r < b
    ensures q < p <==> n < b * p
  {
    if q < p {
      MulMonotone(b, q + 1, p);
      assert b * (q + 1) == b * q + b;
    } else {
      MulMonotone(b, p, q);
    }
  }

  lemma {:induction false} PowMonotone(a: nat, b: nat, e: nat)
    requires a <= b
    ensures Pow(a, e) <= Pow(b, e)
  {
    if e > 0 {
      PowMonotone(a, b, e - 1);
      MulMonotone(a, Pow(a, e - 1), Pow(b, e - 1));
      assert a * Pow(b, e - 1) <= b * Pow(b, e - 1) by {
        MulMonotone(Pow(b, e - 1), a, b);
      }
    }
  }

  lemma {:induction false} PowSum(b: nat, d: nat, e: nat)
    ensures Pow(b, d + e) == Pow(b, d) * Pow(b, e)
    decreases d
  {
    if d > 0 {
      PowSum(b, d - 1, e);
      assert b * (Pow(b, d - 1) * Pow(b, e)) == (b * Pow(b, d - 1)) * Pow(b, e);
    }
  }

  lemma Pow2To64()
    ensures Pow(2, 64) == 0x1_0000_0000_0000_0000
  {
    assert Pow(2, 4) == 16;
    PowSum(2, 4, 4);
    PowSum(2, 8, 8);
    PowSum(2, 16, 16);
    PowSum(2, 32, 32);
  }

  lemma Pow16To16()
    ensures Pow(16, 16) == 0x1_0000_0000_0000_0000
  {
    assert Pow(16, 4) == 65536;
    PowSum(16, 4, 4);
    PowSum(16, 8, 8);
  }

  lemma Pow10To20()
    ensures Pow(10, 20) == 100000000000000000000
  {
    assert Pow(10, 5) == 100000;
    PowSum(10, 5, 5);
    PowSum(10, 10, 10);
  }

  /** A 64-bit number never has more than 64 digits, 16 in base 16 and 20 in base 10. */
  lemma WordLength(n: nat, base: nat)
    requires 2 <= base <= 16 && n < 0x1_0000_0000_0000_0000
    ensures |Numeral(n, base)| <= 64
    ensures base == 16 ==> |Numeral(n, base)| <= 16
    ensures base == 10 ==> |Numeral(n, base)| <= 20
  {
    Pow2To64();
    PowMonotone(2, base, 64);
    NumeralLength(n, base, 64);
    Pow16To16();
    NumeralLength(n, base, 16);
    Pow10To20();
    NumeralLength(n, base, 20);
  }
}
