/** The printers of kio.c that build a number in a character buffer. */
module NumberStrings {
  import opened Arithmetic
  import opened Numerals

  const SPAN32: int := 0x1_0000_0000
  const SPAN64: int := 0x1_0000_0000_0000_0000
  const INT64_MIN: int := -0x8000_0000_0000_0000

  // 64-bit two's complement, and division as in C
  function Wrap64(x: int): int { (x - INT64_MIN) % SPAN64 + INT64_MIN }

  function Quotient10(x: int): int { if x < 0 then -(-x / 10) else x / 10 }

  function Remainder10(x: int): int { x - Quotient10(x) * 10 }

  predicate IsInt64(x: int) { INT64_MIN <= x < -INT64_MIN }

  /** The decimal form of a signed number. */
  function Decimal(num: int): string {
    if num < 0 then "-" + Numeral(-num, 10) else Shown(num, 10)
  }

  function ParseDecimal(s: string): int {
    if s != "" && s[0] == '-' then -(Parse(s[1..], 10) as int) else Parse(s, 10)
  }

  lemma ParseDecimalInverts(num: int)
    ensures ParseDecimal(Decimal(num)) == num
  {
    var n: nat := if num < 0 then -num else num;
    ParseNumeral(n, 10);
    if num == 0 {
      ParseSnoc("", '0', 10);
      assert "" + ['0'] == "0";
    } else if num > 0 {
      NumeralDigits(n, 10, 0);
    } else {
      assert Decimal(num)[1..] == Numeral(n, 10);
    }
  }

  lemma {:induction false} NumeralDigits(n: nat, base: nat, i: nat)
    requires 2 <= base <= 16 && i < |Numeral(n, base)|
    ensures Numeral(n, base)[i] != '-' && Numeral(n, base)[i] != '\0'
    ensures base == 10 ==> '0' <= Numeral(n, base)[i] <= '9'
    decreases n
  {
    if i < |Numeral(Quot(n, base), base)| {
      NumeralDigits(Quot(n, base), base, i);
    }
  }

  /** What is in a buffer up to its terminator. */
  ghost predicate Holds(buffer: seq<char>, s: string) {
    |s| < |buffer| && buffer[..|s|] == s && buffer[|s|] == '\0' && '\0' !in s
  }

  lemma ShownHasNoNul(n: nat)
    ensures '\0' !in Shown(n, 10)
  {
    forall i | 0 <= i < |Shown(n, 10)| ensures Shown(n, 10)[i] != '\0' {
      if n > 0 {
        NumeralDigits(n, 10, i);
      }
    }
  }

  lemma DecimalHasNoNul(num: int)
    ensures '\0' !in Decimal(num)
  {
    if num < 0 {
      ShownHasNoNul(-num);
    } else {
      ShownHasNoNul(num);
    }
  }

  /** The length of the decimal form, sign included. Negating the least 64-bit number wraps,
      and then only the sign is counted. */
  method DigitCount(num0: int) returns (count: nat)
    requires IsInt64(num0)
    ensures count == if num0 == INT64_MIN then 1 else |Decimal(num0)|
  {
    var num := num0;
    count := 0;
    if num == 0 {
      return 1;
    }
    if num < 0 {
      num := Wrap64(num * -1);
      count := count + 1;
    }
    ghost var sign := count;
    ghost var n := num;
    while num > 0
      invariant num0 == INT64_MIN ==> num == INT64_MIN && count == 1
      invariant num0 != INT64_MIN ==> num >= 0 && count + |Numeral(num, 10)| == sign + |Numeral(n, 10)|
      decreases num
    {
      DivMod(num, 10);
      count := count + 1;
      num := num / 10;
    }
  }

  method DigitCountUnsigned(num0: nat) returns (count: nat)
    ensures count == |Shown(num0, 10)|
  {
    var num: int := num0;
    count := 0;
    if num < 10 {
      SmallNumeral(num);
      return 1;
    }
    while num > 0
      invariant num >= 0 && count + |Numeral(num, 10)| == |Numeral(num0, 10)|
      decreases num
    {
      DivMod(num, 10);
      count := count + 1;
      num := num / 10;
    }
  }

  /** In the middle of the digit loop: cells from `at + 1` on hold what is no longer in num. */
  ghost predicate Filling(was: seq<char>, now: seq<char>, off: nat, at: int, end: nat, n: nat, num: nat) {
    && |now| == |was| && off <= at + 1 <= end <= |was|
    && |Numeral(num, 10)| <= at + 1 - off
    && now[..at + 1] == was[..at + 1] && now[end..] == was[end..]
    && Numeral(num, 10) + now[at + 1..end] == Numeral(n, 10)
  }

  lemma FillStep(was: seq<char>, now: seq<char>, off: nat, at: int, end: nat, n: nat, num: nat)
    requires Filling(was, now, off, at, end, n, num) && num > 0
    ensures off <= at < |now|
    ensures Filling(was, now[at := Digit(num % 10)], off, at - 1, end, n, num / 10)
  {
    DivMod(num, 10);
    var next := now[at := Digit(num % 10)];
    assert next[at..end] == [Digit(num % 10)] + now[at + 1..end];
    assert Numeral(num / 10, 10) + next[at..end] == Numeral(num, 10) + now[at + 1..end];
    assert next[..at] == now[..at + 1][..at];
  }

  lemma FillDone(was: seq<char>, now: seq<char>, off: nat, at: int, end: nat, n: nat)
    requires Filling(was, now, off, at, end, n, 0)
    ensures |Numeral(n, 10)| <= end
    ensures now == was[..end - |Numeral(n, 10)|] + Numeral(n, 10) + was[end..]
  {
    assert now == now[..at + 1] + now[at + 1..end] + now[end..];
  }

  /** The loop shared by lltoa, ulltoa and zero_extend_3: digits from the last to the first,
      ending at number[off + index0]. The index is an unsigned number of the given span and
      wraps below 0; false is returned when a store falls outside the buffer. */
  method FillDigits(num0: int, number: array<char>, off: nat, index0: nat, span: nat) returns (ok: bool)
    requires number.Length < span && off + index0 < number.Length
    requires num0 >= 0 ==> |Numeral(num0, 10)| <= index0 + 1
    requires num0 < 0 ==> num0 == INT64_MIN && index0 == 0
    modifies number
    ensures ok <==> num0 >= 0
    ensures ok ==> var end := off + index0 + 1;
                   && |Numeral(num0, 10)| <= end
                   && number[..] == old(number[..])[..end - |Numeral(num0, 10)|] + Numeral(num0, 10) + old(number[..])[end..]
  {
    var num, index := num0, index0;
    ghost var was := number[..];
    ghost var end := off + index0 + 1;
    ghost var at: int := off + index0;
    while num != 0
      invariant num0 < 0 ==> (num == INT64_MIN && index == 0) || (num == Quotient10(INT64_MIN) && index == span - 1)
      invariant num0 >= 0 ==> num >= 0 && Filling(was, number[..], off, at, end, num0, num)
      invariant num0 >= 0 ==> index == if at < off then span - 1 else at - off
      decreases if num < 0 then -num else num
    {
      if num0 >= 0 {
        FillStep(was, number[..], off, at, end, num0, num);
      }
      if off + index >= number.Length {
        return false;
      }
      number[off + index] := (Remainder10(num) + '0' as int) as char;
      index := if index == 0 then span - 1 else index - 1;
      num := Quotient10(num);
      at := at - 1;
    }
    FillDone(was, number[..], off, at, end, num0);
    ok := true;
  }

  /** lltoa writes the decimal form of every 64-bit number but the least one; for that one a
      digit would be stored outside any buffer. */
  method Lltoa(num0: int, number: array<char>) returns (ok: bool)
    requires IsInt64(num0) && number.Length == 64
    modifies number
    ensures ok <==> num0 != INT64_MIN
    ensures ok ==> Holds(number[..], Decimal(num0))
  {
    var num := num0;
    var dgcount := DigitCount(num);
    DecimalHasNoNul(num0);
    if num0 != INT64_MIN {
      DecimalFits(num0);
    }
    var index := dgcount - 1;
    if num == 0 && dgcount == 1 {
      number[0] := '0';
      number[1] := '\0';
      ok := true;
    } else {
      if num < 0 {
        number[0] := '-';
        num := Wrap64(num * -1);
      }
      ghost var was := number[..];
      ok := FillDigits(num, number, 0, index, SPAN32);
      if !ok {
        return;
      }
      Terminated(was, number[..], if num0 < 0 then "-" else "", Numeral(num, 10));
      number[dgcount] := '\0';
    }
  }

  // a sign or nothing, the digits, and a terminator behind them
  lemma Terminated(was: seq<char>, now: seq<char>, sign: string, digits: string)
    requires |sign| + |digits| < |was| && was[..|sign|] == sign
    requires now == was[..|sign|] + digits + was[|sign| + |digits|..]
    requires '\0' !in sign + digits
    ensures Holds(now[|sign| + |digits| := '\0'], sign + digits)
  {
  }

  lemma DecimalFits(num: int)
    requires IsInt64(num)
    ensures 1 <= |Decimal(num)| <= 21
  {
    WordLength(if num < 0 then -num else num, 10);
    ParseNumeral(if num < 0 then -num else num, 10);
  }

  lemma ShownFits(num: nat)
    requires num < SPAN64
    ensures 1 <= |Shown(num, 10)| <= 20
  {
    WordLength(num, 10);
    ParseNumeral(num, 10);
  }

  method Ulltoa(num: nat, number: array<char>)
    requires num < SPAN64 && number.Length == 64
    modifies number
    ensures Holds(number[..], Shown(num, 10))
    ensures number[|Shown(num, 10)| + 1..] == old(number[|Shown(num, 10)| + 1..])
  {
    var dgcount := DigitCountUnsigned(num);
    ShownHasNoNul(num);
    ShownFits(num);
    var index := dgcount - 1;
    if num == 0 && dgcount == 1 {
      number[0] := '0';
      number[1] := '\0';
    } else {
      var _ := FillDigits(num, number, 0, index, SPAN64);
      number[dgcount] := '\0';
    }
  }

  /** Three digits for a number below 1000. Of 0 only two are written; the third cell keeps
      the character it had. */
  function Extended(num: nat, third: char): string {
    if num == 0 then "00" + [third] else PadTo(Numeral(num, 10), 3)
  }

  method ZeroExtend3(num: nat, number: array<char>, off: nat)
    requires num < SPAN64 && off + 21 <= number.Length == 64
    modifies number
    ensures number[..off] == old(number[..off])
    ensures var s := Extended(num, old(number[off + 2]));
            off + |s| < 64 && number[off..off + |s|] == s && number[off + |s|] == '\0'
  {
    var dgcount := DigitCountUnsigned(num);
    ShownFits(num);
    var index := dgcount - 1;
    if num < 10 {
      index := index + 2;
      dgcount := dgcount + 2;
      number[off] := '0';
      number[off + 1] := '0';
      SmallNumeral(num);
    } else if num < 100 {
      index := index + 1;
      dgcount := dgcount + 1;
      number[off] := '0';
      SmallNumeral(num);
    } else {
      SmallNumeral(num);
    }
    if num == 0 && dgcount == 1 {
      assert false;
    } else {
      ghost var was := number[..];
      var _ := FillDigits(num, number, off, index, SPAN64);
      number[off + dgcount] := '\0';
    }
  }

  lemma SmallNumeral(num: nat)
    ensures 0 < num < 10 ==> |Numeral(num, 10)| == 1
    ensures 10 <= num < 100 ==> |Numeral(num, 10)| == 2
    ensures 100 <= num ==> |Numeral(num, 10)| >= 3
  {
    NumeralLength(num, 10, 0);
    NumeralLength(num, 10, 1);
    NumeralLength(num, 10, 2);
    assert Pow(10, 1) == 10 * Pow(10, 0);
    assert Pow(10, 2) == 10 * Pow(10, 1);
  }

  /** Seconds, a dot and three digits of milliseconds. */
  function Seconds(num: nat, third: char): string {
    Shown(num / 1000, 10) + "." + Extended(num % 1000, third)
  }

  method MillisecondsAsSeconds(num: nat, buf: array<char>)
    requires num < SPAN64 && buf.Length == 64
    modifies buf
    ensures |Shown(num / 1000, 10)| <= 20
    ensures var s := Seconds(num, old(buf[..])[|Shown(num / 1000, 10)| + 3]);
            |s| < 64 && buf[..|s|] == s && buf[|s|] == '\0'
  {
    var idx := DigitCountUnsigned(num / 1000);
    ShownFits(num / 1000);
    ghost var was := buf[..];
    Ulltoa(num / 1000, buf);
    buf[idx] := '.';
    ghost var mid := buf[..];
    ZeroExtend3(num % 1000, buf, idx + 1);
    ghost var s := Seconds(num, was[idx + 3]);
    ghost var e := Extended(num % 1000, was[idx + 3]);
    assert mid[idx + 3] == was[idx + 3];
    assert buf[..idx + 1] == mid[..idx + 1] == Shown(num / 1000, 10) + ".";
    assert buf[..|s|] == buf[..idx + 1] + buf[idx + 1..idx + 1 + |e|];
  }

  /** Reads "S.mmm" as a number of milliseconds. */
  function ParseSeconds(s: string): nat
    requires |s| >= 4
  {
    Parse(s[..|s| - 4], 10) * 1000 + Parse(s[|s| - 3..], 10)
  }

  ghost predicate WellFormedSeconds(s: string) {
    && |s| >= 5 && s[|s| - 4] == '.'
    && forall i :: |s| - 3 <= i < |s| ==> '0' <= s[i] <= '9'
  }

  lemma PaddedDigits(num: nat)
    requires 0 < num < 1000
    ensures |PadTo(Numeral(num, 10), 3)| == 3
    ensures forall i :: 0 <= i < 3 ==> '0' <= PadTo(Numeral(num, 10), 3)[i] <= '9'
  {
    NumeralLength(num, 10, 3);
    assert Pow(10, 1) == 10 * Pow(10, 0) && Pow(10, 2) == 10 * Pow(10, 1) && Pow(10, 3) == 10 * Pow(10, 2);
    var s := Numeral(num, 10);
    forall i | 0 <= i < |s| ensures '0' <= s[i] <= '9' {
      NumeralDigits(num, 10, i);
    }
  }

  lemma PaddedInverts(num: nat, width: nat, base: nat)
    requires 2 <= base <= 16
    ensures Parse(PadTo(Numeral(num, base), width), base) == num
  {
    ParseNumeral(num, base);
    PaddedParse(Numeral(num, base), width, base);
  }

  lemma PaddedParse(s: string, width: nat, base: nat)
    ensures Parse(PadTo(s, width), base) == Parse(s, base)
  {
    if |s| < width {
      ParseZeros(width - |s|, s, base);
    }
  }

  lemma ShownInverts(num: nat)
    ensures Shown(num, 10) != "" && Parse(Shown(num, 10), 10) == num
  {
    ParseNumeral(num, 10);
    ParseSnoc("", '0', 10);
    assert "" + ['0'] == "0";
  }

  lemma ThirdCell(third: char)
    ensures Parse("00" + [third], 10) == DigitValue(third)
  {
    ParseSnoc("00", third, 10);
    ParseSnoc("0", '0', 10);
    ParseSnoc("", '0', 10);
    assert "0" + ['0'] == "00" && "" + ['0'] == "0";
  }

  lemma ThreeParts(a: string, e: string)
    requires |e| == 3
    ensures var s := a + "." + e;
            |s| == |a| + 4 && s[|s| - 4] == '.' && s[..|s| - 4] == a && s[|s| - 3..] == e
  {
  }

  lemma ExtendedLength(num: nat, third: char)
    requires num < 1000
    ensures |Extended(num, third)| == 3
  {
    if num > 0 {
      PaddedDigits(num);
    }
  }

  lemma SecondsParts(num: nat, third: char)
    ensures var s := Seconds(num, third);
            && |s| >= 5 && s[|s| - 4] == '.'
            && s[..|s| - 4] == Shown(num / 1000, 10)
            && s[|s| - 3..] == Extended(num % 1000, third) && |Extended(num % 1000, third)| == 3
  {
    ShownInverts(num / 1000);
    ExtendedLength(num % 1000, third);
    ThreeParts(Shown(num / 1000, 10), Extended(num % 1000, third));
  }

  /** The string reads back as the number of milliseconds exactly when some digit of the
      milliseconds was written by value, or the buffer happened to hold a '0' already. */
  lemma SecondsInverts(num: nat, third: char)
    ensures WellFormedSeconds(Seconds(num, third)) && ParseSeconds(Seconds(num, third)) == num
            <==> num % 1000 != 0 || third == '0'
  {
    var s := Seconds(num, third);
    SecondsParts(num, third);
    ShownInverts(num / 1000);
    var e := Extended(num % 1000, third);
    assert forall i :: |s| - 3 <= i < |s| ==> s[i] == e[i - (|s| - 3)];
    if num % 1000 != 0 {
      PaddedDigits(num % 1000);
      PaddedInverts(num % 1000, 3, 10);
    } else {
      ThirdCell(third);
      assert s[|s| - 1] == third;
      if '0' <= third <= '9' {
        assert DigitValue(third) == 0 <==> third == '0';
      }
    }
  }
}
