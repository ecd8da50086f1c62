/** Integer powers modulo 2^32: squaring against repeated multiplication. */
module Powers {
  import opened Arithmetic

  const SPAN: nat := 0x1_0000_0000

  lemma {:induction false} PowSquare(n: nat, k: nat)
    ensures Pow(n * n, k) == Pow(n, 2 * k)
  {
    if k > 0 {
      PowSquare(n, k - 1);
      Twice(n, 2 * k - 2);
      assert (n * n) * Pow(n, 2 * k - 2) == n * (n * Pow(n, 2 * k - 2));
    }
  }

  lemma Twice(n: nat, k: nat)
    ensures Pow(n, k + 2) == n * (n * Pow(n, k))
  {
    assert Pow(n, k + 2) == n * Pow(n, k + 1);
  }

  lemma AddMultiple(x: int, k: int)
    ensures (x + k * SPAN) % SPAN == x % SPAN
  {
  }

  /** A factor may be reduced before multiplying. */
  lemma ReduceFactor(a: nat, b: nat)
    ensures (a % SPAN * b) % SPAN == (a * b) % SPAN
  {
    var q, r := a / SPAN, a % SPAN;
    assert a == q * SPAN + r;
    assert a * b == r * b + (q * b) * SPAN by {
      Distribute(q, r, b);
    }
    AddMultiple(r * b, q * b);
  }

  lemma Distribute(q: nat, r: nat, b: nat)
    ensures (q * SPAN + r) * b == r * b + (q * b) * SPAN
  {
    assert (q * SPAN + r) * b == (q * SPAN) * b + r * b;
    assert (q * SPAN) * b == (q * b) * SPAN;
  }

  lemma {:induction false} ReduceBase(n: nat, k: nat)
    ensures Pow(n % SPAN, k) % SPAN == Pow(n, k) % SPAN
  {
    if k > 0 {
      var m := n % SPAN;
      ReduceBase(n, k - 1);
      ReduceFactor(n, Pow(m, k - 1));
      ReduceFactor(Pow(m, k - 1), n);
      ReduceFactor(Pow(n, k - 1), n);
      assert n * Pow(m, k - 1) == Pow(m, k - 1) * n && n * Pow(n, k - 1) == Pow(n, k - 1) * n;
    }
  }

  lemma Regroup(a: nat, n: nat, q: nat)
    ensures (a * n) * q == a * (n * q)
  {
  }

  lemma PowHalves(num: nat, power: nat)
    ensures power % 2 == 1 ==> Pow(num, power) == num * Pow(num * num, power / 2)
    ensures power % 2 == 0 ==> Pow(num, power) == Pow(num * num, power / 2)
  {
    PowSquare(num, power / 2);
  }

  lemma OddRound(answer: nat, num: nat, p: nat, q: nat)
    requires p % SPAN == q % SPAN
    ensures (answer * num % SPAN * p) % SPAN == (answer * (num * q)) % SPAN
  {
    ReduceFactor(answer * num, p);
    SameFactor(answer * num, p, q);
    Regroup(answer, num, q);
  }

  // one round of the loop: what is still to be multiplied stays the same modulo 2^32
  lemma Round(answer: nat, num: nat, power: nat)
    requires power > 0
    ensures var a := if power % 2 == 1 then answer * num % SPAN else answer;
            (a * Pow(num * num % SPAN, power / 2)) % SPAN == (answer * Pow(num, power)) % SPAN
  {
    var p, q := Pow(num * num % SPAN, power / 2), Pow(num * num, power / 2);
    PowHalves(num, power);
    ReduceBase(num * num, power / 2);
    if power % 2 == 1 {
      OddRound(answer, num, p, q);
    } else {
      SameFactor(answer, p, q);
    }
  }

  lemma SameFactor(b: nat, p: nat, q: nat)
    requires p % SPAN == q % SPAN
    ensures (b * p) % SPAN == (b * q) % SPAN
  {
    ReduceFactor(p, b);
    ReduceFactor(q, b);
    assert b * p == p * b && b * q == q * b;
  }

  /** The squaring loop gives the power modulo 2^32, for all 32-bit arguments. */
  method CalculatePowerUsingLsb(num0: nat, power0: nat) returns (answer: nat)
    requires num0 < 0x1_0000_0000 && power0 < 0x1_0000_0000
    ensures answer == Pow(num0, power0) % 0x1_0000_0000
  {
    var num: nat, power: nat := num0, power0;
    answer := 1;
    while power > 0
      invariant answer < SPAN && num < SPAN
      invariant (answer * Pow(num, power)) % SPAN == Pow(num0, power0) % SPAN
      decreases power
    {
      Round(answer, num, power);
      if power % 2 == 1 {
        answer := answer * num % SPAN;
      }
      num := num * num % SPAN;
      power := power / 2;
    }
  }

  const POWERS_OF_TWO: seq<nat> := [
    2, 4, 8, 16, 32, 64,
    128, 256, 512, 1024, 2048, 4096,
    8192, 16384, 32768, 65536, 131072, 262144,
    524288, 1048576, 2097152, 4194304, 8388608, 16777216,
    33554432, 67108864, 134217728, 268435456, 536870912, 1073741824,
    2147483648, 4294967295
  ]

  lemma {:induction false} TableEntry(k: nat)
    requires k < 31
    ensures POWERS_OF_TWO[k] == Pow(2, k + 1) < SPAN
  {
    if k > 0 {
      TableEntry(k - 1);
      assert POWERS_OF_TWO[k] == 2 * POWERS_OF_TWO[k - 1];
    }
  }

  lemma {:induction false} HighPowersVanish(k: nat)
    requires k >= 32
    ensures Pow(2, k) % SPAN == 0
  {
    assert Pow(2, k) == 2 * Pow(2, k - 1);
    if k == 32 {
      TableEntry(30);
    } else {
      HighPowersVanish(k - 1);
      DoubleVanishes(Pow(2, k - 1));
    }
  }

  lemma DoubleVanishes(x: nat)
    requires x % SPAN == 0
    ensures 2 * x % SPAN == 0
  {
  }

  datatype Result = OutsideTable | Value(value: nat)

  /** ppowi is the power modulo 2^32 for all 32-bit arguments except powers of two from the
      32nd on: there the table is off by one, and then comes to its end. */
  method Ppowi(num: nat, power: nat) returns (r: Result)
    requires num < 0x1_0000_0000 && power < 0x1_0000_0000
    ensures r == Value(Pow(num, power) % 0x1_0000_0000) <==> !(num == 2 && power >= 32)
    ensures num == 2 && power == 32 ==> r == Value(0xFFFF_FFFF)
    ensures num == 2 && power > 32 ==> r == OutsideTable
  {
    if power == 0 {
      return Value(1);
    }
    if power == 1 {
      assert Pow(num, 1) == num * Pow(num, 0);
      return Value(num);
    }
    if num == 2 {
      if power >= 32 {
        HighPowersVanish(power);
      } else {
        TableEntry(power - 1);
      }
      if power - 1 >= |POWERS_OF_TWO| {
        return OutsideTable;
      }
      return Value(POWERS_OF_TWO[power - 1]);
    }
    var answer := CalculatePowerUsingLsb(num, power);
    return Value(answer);
  }
}
