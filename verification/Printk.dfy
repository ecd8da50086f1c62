/** The format interpreter behind printk, over the characters it hands to the screen. */
module Printk {
  import opened Arithmetic
  import opened Numerals
  import opened Texts
  import N = NumberStrings

  const WORD: int := 0x1_0000_0000_0000_0000

  // ----- arguments -----

  /** One argument slot: a 64-bit register image, or a pointer to a string. */
  datatype Arg = Word(bits: int) | Text(text: string)

  datatype Kind = NoArgument | AnyWord | SignedWord | AString

  function Signed32(bits: int): int {
    (bits + 0x8000_0000) % 0x1_0000_0000 - 0x8000_0000
  }

  /** A slot of the right kind. The least 64-bit number has no negation, so it is no argument
      for a signed 64-bit directive. */
  predicate Suits(a: Arg, k: Kind) {
    match k
    case NoArgument => true
    case AnyWord => a.Word? && 0 <= a.bits < WORD
    case SignedWord => a.Word? && 0 <= a.bits < WORD && N.Wrap64(a.bits) != N.INT64_MIN
    case AString => a.Text? && '\0' !in a.text
  }

  // ----- directives -----

  datatype Conversion =
    | Percent | Int32 | UInt32 | Int64 | UInt64
    | Radix(prefix: char, base: nat, wide: bool)
    | Char | Str
    | Long      // l or ll in front of something else: nothing is printed
    | Unknown(c: char)

  /** What is read at a '%': a conversion, whether a 0 came before it, and what follows; or the
      end of the format right behind l or ll. */
  datatype Scanned = Found(conversion: Conversion, zero: bool, rest: string) | Overrun

  function WithZero(s: Scanned): Scanned {
    if s.Found? then s.(zero := true) else s
  }

  /** s is the format behind a '%'. */
  function Scan(s: string): (r: Scanned)
    ensures r.Found? ==> |r.rest| <= |s|
  {
    if s == "" then Found(Unknown('\0'), false, s)
    else match s[0]
      case '%' => Found(Percent, false, s[1..])
      case '0' => WithZero(Scan(s[1..]))
      case 'i' => Found(Int32, false, s[1..])
      case 'd' => Found(Int32, false, s[1..])
      case 'l' => ScanLong(s[1..])
      case 'u' => Found(UInt32, false, s[1..])
      case 'b' => Found(Radix('b', 2, false), false, s[1..])
      case 'X' => Found(Radix('X', 16, false), false, s[1..])
      case 'x' => Found(Radix('x', 16, false), false, s[1..])
      case 'o' => Found(Radix('o', 8, false), false, s[1..])
      case 'p' => Found(Radix('x', 16, true), false, s[1..])
      case 'c' => Found(Char, false, s[1..])
      case 's' => Found(Str, false, s[1..])
      case _ => Found(Unknown(s[0]), false, s)
  }

  // behind one l
  function ScanLong(s: string): (r: Scanned)
    ensures r.Found? ==> |r.rest| <= |s|
  {
    if s == "" then Overrun
    else match s[0]
      case 'l' => ScanLongLong(s[1..])
      case 'u' => Found(UInt64, false, s[1..])
      case 'd' => Found(Int64, false, s[1..])
      case 'b' => Found(Radix('b', 2, true), false, s[1..])
      case 'x' => Found(Radix('x', 16, true), false, s[1..])
      case _ => Found(Long, false, s)
  }

  // behind two
  function ScanLongLong(s: string): (r: Scanned)
    ensures r.Found? ==> |r.rest| <= |s|
  {
    if s == "" then Overrun
    else match s[0]
      case 'u' => Found(UInt64, false, s[1..])
      case 'd' => Found(Int64, false, s[1..])
      case _ => Found(Long, false, s)
  }

  // ----- what a conversion prints -----

  function KindOf(c: Conversion): Kind {
    match c
    case Int32 => AnyWord
    case UInt32 => AnyWord
    case Int64 => SignedWord
    case UInt64 => AnyWord
    case Radix(_, _, _) => AnyWord
    case Char => AnyWord
    case Str => AString
    case _ => NoArgument
  }

  function KindsOf(c: Conversion): seq<Kind> {
    if KindOf(c) == NoArgument then [] else [KindOf(c)]
  }

  predicate KnownBase(c: Conversion) { c.Radix? ==> c.base in {2, 8, 16} && c.prefix != '\0' }

  // the unsigned printers look at the padding flag and clear it
  predicate Clears(c: Conversion) { c.UInt32? || c.UInt64? || c.Radix? }

  function PadWidth(base: nat): nat {
    if base == 16 then 16 else if base == 2 then 64 else if base == 10 then 20 else 0
  }

  /** The digits that decimal_to_base prints. */
  function BaseText(n: nat, base: nat, zeroPad: bool): string
    requires 2 <= base <= 16
  {
    if zeroPad then PadTo(Numeral(n, base), PadWidth(base)) else Shown(n, base)
  }

  function Low32(bits: int): nat { bits % 0x1_0000_0000 }

  function Complaint(c: char): string {
    UNIMPLEMENTED + (Visible(c) + "\n")
  }

  function Printed(c: Conversion, arg: Arg, zeroPad: bool): string
    requires KnownBase(c) && Suits(arg, KindOf(c))
  {
    match c
    case Percent => "%"
    case Int32 => N.Decimal(Signed32(arg.bits))
    case UInt32 => BaseText(Low32(arg.bits), 10, zeroPad)
    case Int64 => N.Decimal(N.Wrap64(arg.bits))
    case UInt64 => BaseText(arg.bits, 10, zeroPad)
    case Radix(p, base, wide) => ['0', p] + BaseText(if wide then arg.bits else Low32(arg.bits), base, zeroPad)
    case Char => Visible((arg.bits % 256) as char)
    case Str => arg.text
    case Long => ""
    case Unknown(x) => Complaint(x)
  }

  lemma ScanBase(s: string)
    ensures Scan(s).Found? ==> KnownBase(Scan(s).conversion)
  {
  }

  // ----- whole formats -----

  /** The kinds of the arguments a format takes, in order. */
  function Kinds(format: string): seq<Kind>
    decreases |format|
  {
    if format == "" then []
    else if format[0] != '%' then Kinds(format[1..])
    else
      var d := Scan(format[1..]);
      if d.Overrun? then [] else KindsOf(d.conversion) + Kinds(d.rest)
  }

  predicate ArgsFit(format: string, args: seq<Arg>) {
    |Kinds(format)| <= |args| && forall i :: 0 <= i < |Kinds(format)| ==> Suits(args[i], Kinds(format)[i])
  }

  /** The interpreter runs past the terminator: the format ends right behind l or ll. */
  predicate RunsOver(format: string)
    decreases |format|
  {
    if format == "" then false
    else if format[0] != '%' then RunsOver(format[1..])
    else
      var d := Scan(format[1..]);
      d.Overrun? || RunsOver(d.rest)
  }

  /** The format does not end inside a directive. */
  predicate Complete(format: string)
    decreases |format|
  {
    if format == "" then true
    else if format[0] != '%' then Complete(format[1..])
    else
      var d := Scan(format[1..]);
      d.Found? && !EndsOpen(d) && Complete(d.rest)
  }

  // a directive that was decided by the character behind it, and there was none
  predicate EndsOpen(d: Scanned) {
    d.Found? && d.conversion == Unknown('\0')
  }

  datatype Rendering = Rendering(out: string, zeroPad: bool)

  // the argument of a conversion, if it takes one
  function First(c: Conversion, args: seq<Arg>): Arg
    requires |KindsOf(c)| <= |args|
  {
    if KindOf(c) == NoArgument then Word(0) else args[0]
  }

  lemma FirstSuits(format: string, args: seq<Arg>)
    requires ArgsFit(format, args) && format != "" && format[0] == '%' && Scan(format[1..]).Found?
    ensures var d := Scan(format[1..]);
            && |KindsOf(d.conversion)| <= |args|
            && Suits(First(d.conversion, args), KindOf(d.conversion))
            && ArgsFit(d.rest, args[|KindsOf(d.conversion)|..])
  {
    var d := Scan(format[1..]);
    var k := KindsOf(d.conversion);
    assert Kinds(format) == k + Kinds(d.rest);
    assert k != [] ==> Kinds(format)[0] == k[0];
    forall i | 0 <= i < |Kinds(d.rest)| ensures Suits(args[|k|..][i], Kinds(d.rest)[i]) {
      assert Kinds(d.rest)[i] == Kinds(format)[|k| + i];
    }
  }

  /** The meaning of a format: what is printed and the padding flag at the end. */
  function Render(format: string, args: seq<Arg>, zeroPad: bool): Rendering
    requires ArgsFit(format, args)
    decreases |format|
  {
    if format == "" then Rendering("", zeroPad)
    else if format[0] != '%' then
      var r := Render(format[1..], args, zeroPad);
      Rendering(Visible(format[0]) + r.out, r.zeroPad)
    else
      var d := Scan(format[1..]);
      if d.Overrun? then Rendering("", zeroPad)
      else
        ScanBase(format[1..]);
        FirstSuits(format, args);
        var pad := zeroPad || d.zero;
        var r := Render(d.rest, args[|KindsOf(d.conversion)|..], if Clears(d.conversion) then false else pad);
        Rendering(Printed(d.conversion, First(d.conversion, args), pad) + r.out, r.zeroPad)
  }

  // ----- composition -----

  lemma ScanLongLongExtends(s: string, g: string)
    requires ScanLongLong(s).Found?
    ensures ScanLongLong(s + g) == ScanLongLong(s).(rest := ScanLongLong(s).rest + g)
  {
    assert (s + g)[1..] == s[1..] + g;
  }

  lemma ScanLongExtends(s: string, g: string)
    requires ScanLong(s).Found?
    ensures ScanLong(s + g) == ScanLong(s).(rest := ScanLong(s).rest + g)
  {
    assert (s + g)[1..] == s[1..] + g;
    if s[0] == 'l' {
      ScanLongLongExtends(s[1..], g);
    }
  }

  lemma {:induction false} ScanExtends(s: string, g: string)
    requires Scan(s).Found? && !EndsOpen(Scan(s))
    ensures Scan(s + g) == Scan(s).(rest := Scan(s).rest + g)
    decreases |s|
  {
    if s != "" {
      assert (s + g)[1..] == s[1..] + g;
      if s[0] == '0' {
        ScanExtends(s[1..], g);
      } else if s[0] == 'l' {
        ScanLongExtends(s[1..], g);
      }
    }
  }

  /** Which arguments are taken, and whether the terminator is passed, follows from the
      parts; neither depends on what the arguments are. */
  lemma {:induction false} KindsCompose(f: string, g: string)
    requires Complete(f)
    ensures Kinds(f + g) == Kinds(f) + Kinds(g)
    ensures RunsOver(f + g) <==> RunsOver(g)
    ensures !RunsOver(f)
    decreases |f|
  {
    if f == "" {
      assert f + g == g;
    } else {
      assert (f + g)[1..] == f[1..] + g;
      if f[0] != '%' {
        KindsCompose(f[1..], g);
      } else {
        ScanExtends(f[1..], g);
        KindsCompose(Scan(f[1..]).rest, g);
      }
    }
  }

  lemma ArgsCompose(f: string, g: string, args: seq<Arg>)
    requires Complete(f) && ArgsFit(f + g, args)
    ensures |Kinds(f)| <= |args| && ArgsFit(f, args) && ArgsFit(g, args[|Kinds(f)|..])
  {
    KindsCompose(f, g);
    var k := |Kinds(f)|;
    forall i | 0 <= i < |Kinds(f)| ensures Suits(args[i], Kinds(f)[i]) {
      assert Kinds(f + g)[i] == Kinds(f)[i];
    }
    forall i | 0 <= i < |Kinds(g)| ensures Suits(args[k..][i], Kinds(g)[i]) {
      assert Kinds(f + g)[k + i] == Kinds(g)[i];
    }
  }

  /** Printing f + g is printing f, then g with the arguments that are left and with the
      padding flag as f left it. */
  lemma {:induction false} RenderCompose(f: string, g: string, args: seq<Arg>, zeroPad: bool)
    requires Complete(f) && ArgsFit(f + g, args)
    ensures |Kinds(f)| <= |args| && ArgsFit(f, args) && ArgsFit(g, args[|Kinds(f)|..])
    ensures var r := Render(f, args, zeroPad);
            var q := Render(g, args[|Kinds(f)|..], r.zeroPad);
            Render(f + g, args, zeroPad) == Rendering(r.out + q.out, q.zeroPad)
    decreases |f|
  {
    ArgsCompose(f, g, args);
    if f == "" {
      assert f + g == g;
      assert args[0..] == args;
    } else if f[0] != '%' {
      RenderComposeLiteral(f, g, args, zeroPad);
    } else {
      RenderComposeDirective(f, g, args, zeroPad);
    }
  }

  lemma {:induction false} RenderComposeLiteral(f: string, g: string, args: seq<Arg>, zeroPad: bool)
    requires Complete(f) && f != "" && f[0] != '%'
    requires ArgsFit(f + g, args) && |Kinds(f)| <= |args| && ArgsFit(f, args) && ArgsFit(g, args[|Kinds(f)|..])
    ensures var r := Render(f, args, zeroPad);
            var q := Render(g, args[|Kinds(f)|..], r.zeroPad);
            Render(f + g, args, zeroPad) == Rendering(r.out + q.out, q.zeroPad)
    decreases |f|, 0
  {
    assert (f + g)[1..] == f[1..] + g;
    RenderCompose(f[1..], g, args, zeroPad);
    var r := Render(f[1..], args, zeroPad);
    var q := Render(g, args[|Kinds(f)|..], r.zeroPad);
    Associative(Visible(f[0]), r.out, q.out);
  }

  lemma {:induction false} RenderComposeDirective(f: string, g: string, args: seq<Arg>, zeroPad: bool)
    requires Complete(f) && f != "" && f[0] == '%'
    requires ArgsFit(f + g, args) && |Kinds(f)| <= |args| && ArgsFit(f, args) && ArgsFit(g, args[|Kinds(f)|..])
    ensures var r := Render(f, args, zeroPad);
            var q := Render(g, args[|Kinds(f)|..], r.zeroPad);
            Render(f + g, args, zeroPad) == Rendering(r.out + q.out, q.zeroPad)
    decreases |f|, 0
  {
    var d := Scan(f[1..]);
    var k := |KindsOf(d.conversion)|;
    DirectiveExtends(f, g);
    ScanBase(f[1..]);
    FirstSuits(f, args);
    FirstSuits(f + g, args);
    var pad := if Clears(d.conversion) then false else zeroPad || d.zero;
    RenderCompose(d.rest, g, args[k..], pad);
    DropTwice(args, k, |Kinds(d.rest)|);
    RenderDirective(f, args, zeroPad);
    RenderDirective(f + g, args, zeroPad);
    var r := Render(d.rest, args[k..], pad);
    var q := Render(g, args[|Kinds(f)|..], r.zeroPad);
    Associative(Printed(d.conversion, First(d.conversion, args), zeroPad || d.zero), r.out, q.out);
  }

  lemma DropTwice(args: seq<Arg>, i: nat, j: nat)
    requires i + j <= |args|
    ensures args[i..][j..] == args[i + j..]
  {
  }

  lemma DirectiveExtends(f: string, g: string)
    requires Complete(f) && f != "" && f[0] == '%'
    ensures Scan(f[1..]).Found? && Complete(Scan(f[1..]).rest)
    ensures (f + g)[0] == '%' && Scan((f + g)[1..]) == Scan(f[1..]).(rest := Scan(f[1..]).rest + g)
    ensures Kinds(f) == KindsOf(Scan(f[1..]).conversion) + Kinds(Scan(f[1..]).rest)
  {
    assert (f + g)[1..] == f[1..] + g;
    ScanExtends(f[1..], g);
  }

  // Render of a format that begins with a directive
  lemma RenderDirective(f: string, args: seq<Arg>, zeroPad: bool)
    requires ArgsFit(f, args) && f != "" && f[0] == '%' && Scan(f[1..]).Found?
    ensures var d := Scan(f[1..]);
            && KnownBase(d.conversion) && |KindsOf(d.conversion)| <= |args|
            && Suits(First(d.conversion, args), KindOf(d.conversion))
            && ArgsFit(d.rest, args[|KindsOf(d.conversion)|..])
    ensures var d := Scan(f[1..]);
            var pad := zeroPad || d.zero;
            var r := Render(d.rest, args[|KindsOf(d.conversion)|..], if Clears(d.conversion) then false else pad);
            Render(f, args, zeroPad) == Rendering(Printed(d.conversion, First(d.conversion, args), pad) + r.out, r.zeroPad)
  {
    ScanBase(f[1..]);
    FirstSuits(f, args);
  }

  // ----- passing the terminator, by the text alone -----

  // where the interpreter is: in the text, behind a '%' and its zeros, behind l, behind ll
  datatype Place = Copying | Open | Long1 | Long2

  function Outside(c: char): Place { if c == '%' then Open else Copying }

  function NextPlace(p: Place, c: char): Place {
    match p
    case Copying => Outside(c)
    case Open => if c == '0' then Open else if c == 'l' then Long1 else Copying
    case Long1 => if c == 'l' then Long2 else if c in {'u', 'd', 'b', 'x'} then Copying else Outside(c)
    case Long2 => if c in {'u', 'd'} then Copying else Outside(c)
  }

  function PlaceAfter(p: Place, s: string): Place
    decreases |s|
  {
    if s == "" then p else PlaceAfter(NextPlace(p, s[0]), s[1..])
  }

  predicate InLong(p: Place) { p == Long1 || p == Long2 }

  lemma {:induction false} PlaceAfterLast(p: Place, s: string, c: char)
    ensures PlaceAfter(p, s + [c]) == NextPlace(PlaceAfter(p, s), c)
    decreases |s|
  {
    if s == "" {
      assert (s + [c])[1..] == "";
    } else {
      assert (s + [c])[1..] == s[1..] + [c];
      PlaceAfterLast(NextPlace(p, s[0]), s[1..], c);
    }
  }

  lemma ScanLongPlace(s: string)
    ensures if ScanLong(s).Overrun? then InLong(PlaceAfter(Long1, s))
            else InLong(PlaceAfter(Long1, s)) <==> InLong(PlaceAfter(Copying, ScanLong(s).rest))
  {
    if s != "" && s[0] == 'l' && s[1..] != "" {
      assert s[1..][0] == s[1];
    }
  }

  lemma {:induction false} ScanPlace(s: string)
    ensures if Scan(s).Overrun? then InLong(PlaceAfter(Open, s))
            else InLong(PlaceAfter(Open, s)) <==> InLong(PlaceAfter(Copying, Scan(s).rest))
    decreases |s|
  {
    if s != "" {
      if s[0] == '0' {
        ScanPlace(s[1..]);
      } else if s[0] == 'l' {
        ScanLongPlace(s[1..]);
      }
    }
  }

  lemma {:induction false} RunsOverPlace(format: string)
    ensures RunsOver(format) <==> InLong(PlaceAfter(Copying, format))
    decreases |format|
  {
    if format != "" {
      if format[0] != '%' {
        RunsOverPlace(format[1..]);
      } else {
        ScanPlace(format[1..]);
        if Scan(format[1..]).Found? {
          RunsOverPlace(Scan(format[1..]).rest);
        }
      }
    }
  }

  /** How many groups of a '%' and zeros stand one behind the other at the end of s. */
  function Groups(s: string): nat
    decreases |s|
  {
    if s == "" then 0
    else
      var front, last := s[..|s| - 1], s[|s| - 1];
      if last == '0' then Groups(front) else if last == '%' then Groups(front) + 1 else 0
  }

  lemma {:induction false} OpenPercent(s: string)
    ensures PlaceAfter(Copying, s) == Open <==> Groups(s) % 2 == 1
    decreases |s|
  {
    if s != "" {
      var front, last := s[..|s| - 1], s[|s| - 1];
      assert s == front + [last];
      PlaceAfterLast(Copying, front, last);
      OpenPercent(front);
    }
  }

  // the format ends in l behind an open directive
  predicate EndsInL(s: string) {
    s != "" && s[|s| - 1] == 'l' && Groups(s[..|s| - 1]) % 2 == 1
  }

  lemma OneL(s: string)
    ensures PlaceAfter(Copying, s) == Long1 <==> EndsInL(s)
  {
    if s != "" {
      var front, last := s[..|s| - 1], s[|s| - 1];
      assert s == front + [last];
      PlaceAfterLast(Copying, front, last);
      OpenPercent(front);
    }
  }

  // the format ends in ll behind an open directive
  predicate EndsInLl(s: string) {
    s != "" && s[|s| - 1] == 'l' && EndsInL(s[..|s| - 1])
  }

  lemma TwoLs(s: string)
    ensures PlaceAfter(Copying, s) == Long2 <==> EndsInLl(s)
  {
    if s != "" {
      var front, last := s[..|s| - 1], s[|s| - 1];
      assert s == front + [last];
      PlaceAfterLast(Copying, front, last);
      OneL(front);
    }
  }

  /** The formats that pass the terminator: those that end in l or ll behind an odd number of
      consecutive groups of a '%' and zeros. */
  lemma OverrunEnd(format: string)
    ensures RunsOver(format) <==> EndsInL(format) || EndsInLl(format)
  {
    RunsOverPlace(format);
    OneL(format);
    TwoLs(format);
  }

  /** Text without directives prints as it is and takes no arguments. */
  lemma {:induction false} PlainText(s: string, args: seq<Arg>, zeroPad: bool)
    requires '%' !in s && '\0' !in s
    ensures Kinds(s) == [] && Complete(s)
    ensures Render(s, args, zeroPad) == Rendering(s, zeroPad)
    decreases |s|
  {
    if s != "" {
      PlainText(s[1..], args, zeroPad);
    }
  }

  // a %c and a line end
  const CHARACTER_LINE: string := "%c\n"

  lemma CharacterAndNewline(c: char)
    requires c as int < 256
    ensures Kinds(CHARACTER_LINE) == [AnyWord] && ArgsFit(CHARACTER_LINE, [Word(c as int)])
    ensures Render(CHARACTER_LINE, [Word(c as int)], false).out == Visible(c) + "\n"
  {
    var args, g := [Word(c as int)], CHARACTER_LINE;
    assert g[1..] == "c\n" && "c\n"[1..] == "\n";
    assert Scan(g[1..]) == Found(Char, false, "\n");
    PlainText("\n", args[1..], false);
    assert Kinds(g) == [AnyWord] + Kinds("\n");
    RenderDirective(g, args, false);
  }

  lemma TextThen(f: string, g: string, args: seq<Arg>)
    requires '%' !in f && '\0' !in f && ArgsFit(g, args)
    ensures ArgsFit(f + g, args) && Render(f + g, args, false).out == f + Render(g, args, false).out
  {
    PlainText(f, args, false);
    KindsCompose(f, g);
    RenderCompose(f, g, args, false);
    assert args[|Kinds(f)|..] == args;
  }

  const UNIMPLEMENTED: string := "Format unimplemented: "

  lemma NoDirective()
    ensures '%' !in UNIMPLEMENTED && '\0' !in UNIMPLEMENTED
  {
  }

  /** The message about an unknown directive is what printk makes of its own format for it:
      the text, a %c and a line end. */
  lemma ComplaintIsPrinted(c: char)
    requires c as int < 256
    ensures ArgsFit(UNIMPLEMENTED + CHARACTER_LINE, [Word(c as int)])
    ensures Render(UNIMPLEMENTED + CHARACTER_LINE, [Word(c as int)], false).out == Complaint(c)
  {
    NoDirective();
    CharacterAndNewline(c);
    TextThen(UNIMPLEMENTED, CHARACTER_LINE, [Word(c as int)]);
  }

  // ----- the directives one by one -----

  predicate IsDigit(c: char, base: nat) {
    ('0' <= c <= '9' || 'a' <= c <= 'f') && DigitValue(c) < base
  }

  /** s is n in the base: as it is, without leading zeros, or padded to the width of 64 bits in
      bases 16, 2 and 10. */
  ghost predicate Writes(s: string, n: nat, base: nat, zeroPad: bool) {
    && 2 <= base <= 16
    && Parse(s, base) == n
    && (forall i :: 0 <= i < |s| ==> IsDigit(s[i], base))
    && (!zeroPad ==> s == "0" || (s != "" && s[0] != '0'))
    && (zeroPad && base == 16 ==> |s| == 16)
    && (zeroPad && base == 2 ==> |s| == 64)
    && (zeroPad && base == 10 ==> |s| == 20)
    && (zeroPad && base == 8 ==> s == "" || s[0] != '0')
  }

  lemma BaseTextWrites(n: nat, base: nat, zeroPad: bool)
    requires base in {2, 8, 10, 16} && n < WORD
    ensures Writes(BaseText(n, base, zeroPad), n, base, zeroPad)
  {
    var s := BaseText(n, base, zeroPad);
    BaseTextInverts(n, base, zeroPad);
    ParseNumeral(n, base);
    forall j | 0 <= j < |s| ensures IsDigit(s[j], base) {
      BaseTextDigit(n, base, zeroPad, j);
    }
  }

  lemma BaseTextDigit(n: nat, base: nat, zeroPad: bool, j: nat)
    requires 2 <= base <= 16 && j < |BaseText(n, base, zeroPad)|
    ensures IsDigit(BaseText(n, base, zeroPad)[j], base)
  {
    if n == 0 || j < |BaseText(n, base, zeroPad)| - |Numeral(n, base)| {
      assert BaseText(n, base, zeroPad)[j] == '0';
    } else {
      NumeralDigit(n, base, j - (|BaseText(n, base, zeroPad)| - |Numeral(n, base)|));
    }
  }

  lemma {:induction false} NumeralDigit(n: nat, base: nat, j: nat)
    requires 2 <= base <= 16 && j < |Numeral(n, base)|
    ensures IsDigit(Numeral(n, base)[j], base)
    decreases n
  {
    if j < |Numeral(Quot(n, base), base)| {
      NumeralDigit(Quot(n, base), base, j);
    } else {
      DigitTable(Rem(n, base));
      DigitRange(Rem(n, base));
    }
  }

  lemma DigitRange(d: nat)
    requires d < 16
    ensures '0' <= Digit(d) <= '9' || 'a' <= Digit(d) <= 'f'
  {
  }

  // a format of one directive that takes a word
  lemma OneWord(f: string, c: Conversion, n: int, zeroPad: bool)
    requires f != "" && f[0] == '%' && Scan(f[1..]) == Found(c, false, "") && 0 <= n < WORD
    requires KindOf(c) == AnyWord || (KindOf(c) == SignedWord && n != 0x8000_0000_0000_0000)
    ensures |Kinds(f)| == 1 && ArgsFit(f, [Word(n)]) && KnownBase(c) && Suits(Word(n), KindOf(c))
    ensures Render(f, [Word(n)], zeroPad) == Rendering(Printed(c, Word(n), zeroPad), if Clears(c) then false else zeroPad)
  {
    ScanBase(f[1..]);
    assert Kinds(f) == KindsOf(c) + Kinds("") == [KindOf(c)];
    RenderDirective(f, [Word(n)], zeroPad);
    assert Printed(c, Word(n), zeroPad) + "" == Printed(c, Word(n), zeroPad);
  }

  /** The unsigned directives: their text in front, the base, and whether 32 or 64 bits are
      taken. They clear the padding flag. */
  ghost predicate PrintsUnsigned(f: string, prefix: string, base: nat, span: int, n: int, zeroPad: bool) {
    && |Kinds(f)| == 1 && ArgsFit(f, [Word(n)])
    && var r := Render(f, [Word(n)], zeroPad);
    && prefix <= r.out && span > 0 && Writes(r.out[|prefix|..], n % span, base, zeroPad)
    && !r.zeroPad
  }

  lemma Assembled(f: string, prefix: string, base: nat, span: int, n: int, zeroPad: bool, m: nat)
    requires |Kinds(f)| == 1 && ArgsFit(f, [Word(n)]) && span > 0 && m == n % span && m < WORD
    requires base in {2, 8, 10, 16}
    requires Render(f, [Word(n)], zeroPad) == Rendering(prefix + BaseText(m, base, zeroPad), false)
    ensures PrintsUnsigned(f, prefix, base, span, n, zeroPad)
  {
    BaseTextWrites(m, base, zeroPad);
    Behind(prefix, BaseText(m, base, zeroPad));
  }

  lemma TakenBits(n: int)
    requires 0 <= n < WORD
    ensures Low32(n) == n % 0x1_0000_0000 && n == n % 0x1_0000_0000_0000_0000
  {
  }

  lemma NarrowDirective(f: string, n: int, zeroPad: bool)
    requires f != "" && f[0] == '%' && Scan(f[1..]) == Found(UInt32, false, "") && 0 <= n < WORD
    ensures PrintsUnsigned(f, "", 10, 0x1_0000_0000, n, zeroPad)
  {
    OneWord(f, UInt32, n, zeroPad);
    TakenBits(n);
    Behind("", BaseText(Low32(n), 10, zeroPad));
    Assembled(f, "", 10, 0x1_0000_0000, n, zeroPad, Low32(n));
  }

  lemma WideDirective(f: string, n: int, zeroPad: bool)
    requires f != "" && f[0] == '%' && Scan(f[1..]) == Found(UInt64, false, "") && 0 <= n < WORD
    ensures PrintsUnsigned(f, "", 10, 0x1_0000_0000_0000_0000, n, zeroPad)
  {
    OneWord(f, UInt64, n, zeroPad);
    TakenBits(n);
    Behind("", BaseText(n, 10, zeroPad));
    Assembled(f, "", 10, 0x1_0000_0000_0000_0000, n, zeroPad, n);
  }

  lemma NarrowPrefixed(f: string, p: char, base: nat, n: int, zeroPad: bool)
    requires f != "" && f[0] == '%' && Scan(f[1..]) == Found(Radix(p, base, false), false, "") && 0 <= n < WORD
    ensures PrintsUnsigned(f, ['0', p], base, 0x1_0000_0000, n, zeroPad)
  {
    OneWord(f, Radix(p, base, false), n, zeroPad);
    TakenBits(n);
    Assembled(f, ['0', p], base, 0x1_0000_0000, n, zeroPad, Low32(n));
  }

  lemma WidePrefixed(f: string, p: char, base: nat, n: int, zeroPad: bool)
    requires f != "" && f[0] == '%' && Scan(f[1..]) == Found(Radix(p, base, true), false, "") && 0 <= n < WORD
    ensures PrintsUnsigned(f, ['0', p], base, 0x1_0000_0000_0000_0000, n, zeroPad)
  {
    OneWord(f, Radix(p, base, true), n, zeroPad);
    TakenBits(n);
    Assembled(f, ['0', p], base, 0x1_0000_0000_0000_0000, n, zeroPad, n);
  }

  lemma Behind(prefix: string, s: string)
    ensures prefix <= prefix + s && (prefix + s)[|prefix|..] == s
    ensures "" + s == s
  {
  }

  /** Every directive for an unsigned number, on every 64-bit argument. */
  lemma UnsignedDirectives(n: int, zeroPad: bool)
    requires 0 <= n < 0x1_0000_0000_0000_0000
    ensures PrintsUnsigned("%u", "", 10, 0x1_0000_0000, n, zeroPad)
    ensures PrintsUnsigned("%lu", "", 10, 0x1_0000_0000_0000_0000, n, zeroPad)
    ensures PrintsUnsigned("%llu", "", 10, 0x1_0000_0000_0000_0000, n, zeroPad)
    ensures PrintsUnsigned("%b", "0b", 2, 0x1_0000_0000, n, zeroPad)
    ensures PrintsUnsigned("%lb", "0b", 2, 0x1_0000_0000_0000_0000, n, zeroPad)
    ensures PrintsUnsigned("%o", "0o", 8, 0x1_0000_0000, n, zeroPad)
    ensures PrintsUnsigned("%x", "0x", 16, 0x1_0000_0000, n, zeroPad)
    ensures PrintsUnsigned("%X", "0X", 16, 0x1_0000_0000, n, zeroPad)
    ensures PrintsUnsigned("%lx", "0x", 16, 0x1_0000_0000_0000_0000, n, zeroPad)
    ensures PrintsUnsigned("%p", "0x", 16, 0x1_0000_0000_0000_0000, n, zeroPad)
  {
    ScanWords();
    NarrowDirective("%u", n, zeroPad);
    WideDirective("%lu", n, zeroPad);
    WideDirective("%llu", n, zeroPad);
    NarrowPrefixed("%b", 'b', 2, n, zeroPad);
    WidePrefixed("%lb", 'b', 2, n, zeroPad);
    NarrowPrefixed("%o", 'o', 8, n, zeroPad);
    NarrowPrefixed("%x", 'x', 16, n, zeroPad);
    NarrowPrefixed("%X", 'X', 16, n, zeroPad);
    WidePrefixed("%lx", 'x', 16, n, zeroPad);
    WidePrefixed("%p", 'x', 16, n, zeroPad);
  }

  lemma ScanWords()
    ensures Scan("%u"[1..]) == Found(UInt32, false, "") && Scan("%lu"[1..]) == Found(UInt64, false, "")
    ensures Scan("%llu"[1..]) == Found(UInt64, false, "")
    ensures Scan("%b"[1..]) == Found(Radix('b', 2, false), false, "")
    ensures Scan("%lb"[1..]) == Found(Radix('b', 2, true), false, "")
    ensures Scan("%o"[1..]) == Found(Radix('o', 8, false), false, "")
    ensures Scan("%x"[1..]) == Found(Radix('x', 16, false), false, "")
    ensures Scan("%X"[1..]) == Found(Radix('X', 16, false), false, "")
    ensures Scan("%lx"[1..]) == Found(Radix('x', 16, true), false, "")
    ensures Scan("%p"[1..]) == Found(Radix('x', 16, true), false, "")
  {
    assert "%u"[1..] == "u" && "%b"[1..] == "b" && "%o"[1..] == "o";
    assert "%x"[1..] == "x" && "%X"[1..] == "X" && "%p"[1..] == "p";
    assert "%lu"[1..] == "lu" && "lu"[1..] == "u" && "%lb"[1..] == "lb" && "lb"[1..] == "b";
    assert "%lx"[1..] == "lx" && "lx"[1..] == "x";
    assert "%llu"[1..] == "llu" && "llu"[1..] == "lu";
  }

  /** A signed number: its digits, behind a '-' if it is negative. The flag stays. */
  ghost predicate PrintsSigned(f: string, num: int, n: int, zeroPad: bool) {
    && |Kinds(f)| == 1 && ArgsFit(f, [Word(n)])
    && var r := Render(f, [Word(n)], zeroPad);
    && r.zeroPad == zeroPad
    && if num < 0 then r.out != "" && r.out[0] == '-' && Writes(r.out[1..], -num, 10, false)
       else Writes(r.out, num, 10, false)
  }

  lemma SignedDirective(f: string, c: Conversion, n: int, num: int, zeroPad: bool)
    requires f != "" && f[0] == '%' && Scan(f[1..]) == Found(c, false, "") && 0 <= n < WORD
    requires c == Int32 || (c == Int64 && n != 0x8000_0000_0000_0000)
    requires num == if c == Int32 then Signed32(n) else N.Wrap64(n)
    ensures PrintsSigned(f, num, n, zeroPad)
  {
    OneWord(f, c, n, zeroPad);
    SignedAssembled(f, num, n, zeroPad);
  }

  lemma SignedAssembled(f: string, num: int, n: int, zeroPad: bool)
    requires |Kinds(f)| == 1 && ArgsFit(f, [Word(n)]) && N.IsInt64(num)
    requires Render(f, [Word(n)], zeroPad) == Rendering(N.Decimal(num), zeroPad)
    ensures PrintsSigned(f, num, n, zeroPad)
  {
    DecimalParts(num);
    BaseTextWrites(if num < 0 then -num else num, 10, false);
  }

  lemma DecimalParts(num: int)
    ensures if num < 0 then N.Decimal(num) != "" && N.Decimal(num)[0] == '-'
                            && N.Decimal(num)[1..] == BaseText(-num, 10, false)
            else N.Decimal(num) == BaseText(num, 10, false)
  {
    if num < 0 {
      Behind("-", Numeral(-num, 10));
    }
  }

  /** The directives for signed numbers print the number that the low 32 or all 64 bits stand
      for in two's complement; the least 64-bit number aside. */
  lemma SignedDirectives(n: int, zeroPad: bool)
    requires 0 <= n < 0x1_0000_0000_0000_0000
    ensures var low := n % 0x1_0000_0000;
            var num := if low < 0x8000_0000 then low else low - 0x1_0000_0000;
            PrintsSigned("%d", num, n, zeroPad) && PrintsSigned("%i", num, n, zeroPad)
    ensures var num := if n < 0x8000_0000_0000_0000 then n else n - 0x1_0000_0000_0000_0000;
            n != 0x8000_0000_0000_0000 ==> PrintsSigned("%ld", num, n, zeroPad) && PrintsSigned("%lld", num, n, zeroPad)
  {
    ScanSigned();
    SignedDirective("%d", Int32, n, Signed32(n), zeroPad);
    SignedDirective("%i", Int32, n, Signed32(n), zeroPad);
    TwosComplement(n);
    if n != 0x8000_0000_0000_0000 {
      SignedDirective("%ld", Int64, n, N.Wrap64(n), zeroPad);
      SignedDirective("%lld", Int64, n, N.Wrap64(n), zeroPad);
    }
  }

  lemma TwosComplement(n: int)
    requires 0 <= n < 0x1_0000_0000_0000_0000
    ensures var low := n % 0x1_0000_0000;
            Signed32(n) == if low < 0x8000_0000 then low else low - 0x1_0000_0000
    ensures N.Wrap64(n) == if n < 0x8000_0000_0000_0000 then n else n - 0x1_0000_0000_0000_0000
  {
  }

  lemma ScanSigned()
    ensures Scan("%d"[1..]) == Found(Int32, false, "") && Scan("%i"[1..]) == Found(Int32, false, "")
    ensures Scan("%ld"[1..]) == Found(Int64, false, "") && Scan("%lld"[1..]) == Found(Int64, false, "")
  {
    assert "%d"[1..] == "d" && "%i"[1..] == "i";
    assert "%ld"[1..] == "ld" && "ld"[1..] == "d";
    assert "%lld"[1..] == "lld" && "lld"[1..] == "ld";
  }

  /** A character, the low 8 bits of its argument; a string; a percent sign. */
  lemma TextDirectives(n: int, s: string, zeroPad: bool)
    requires 0 <= n < 0x1_0000_0000_0000_0000 && '\0' !in s
    ensures ArgsFit("%c", [Word(n)]) && |Kinds("%c")| == 1
    ensures Render("%c", [Word(n)], zeroPad)
            == Rendering(if n % 256 == 0 then "" else [(n % 256) as char], zeroPad)
    ensures ArgsFit("%s", [Text(s)]) && |Kinds("%s")| == 1
    ensures Render("%s", [Text(s)], zeroPad) == Rendering(s, zeroPad)
    ensures ArgsFit("%%", []) && Kinds("%%") == [] && Render("%%", [], zeroPad) == Rendering("%", zeroPad)
  {
    OneCharacter("%c", n, zeroPad);
    OneString("%s", s, zeroPad);
    PercentSign("%%", zeroPad);
  }

  lemma OneCharacter(f: string, n: int, zeroPad: bool)
    requires f == "%c" && 0 <= n < WORD
    ensures ArgsFit(f, [Word(n)]) && |Kinds(f)| == 1
    ensures Render(f, [Word(n)], zeroPad) == Rendering(if n % 256 == 0 then "" else [(n % 256) as char], zeroPad)
  {
    assert f[1..] == "c" && "c"[1..] == "";
    OneWord(f, Char, n, zeroPad);
  }

  lemma OneString(f: string, s: string, zeroPad: bool)
    requires f == "%s" && '\0' !in s
    ensures ArgsFit(f, [Text(s)]) && |Kinds(f)| == 1 && Render(f, [Text(s)], zeroPad) == Rendering(s, zeroPad)
  {
    assert f[1..] == "s" && "s"[1..] == "";
    assert Kinds(f) == KindsOf(Str) + Kinds("");
    RenderDirective(f, [Text(s)], zeroPad);
    assert s + "" == s;
  }

  lemma PercentSign(f: string, zeroPad: bool)
    requires f == "%%"
    ensures ArgsFit(f, []) && Kinds(f) == [] && Render(f, [], zeroPad) == Rendering("%", zeroPad)
  {
    assert f[1..] == "%" && "%"[1..] == "";
    assert Kinds(f) == KindsOf(Percent) + Kinds("");
    RenderDirective(f, [], zeroPad);
  }

  /** A 0 behind the '%' does nothing but set the flag. */
  lemma ZeroSetsFlag(s: string, args: seq<Arg>, zeroPad: bool)
    requires ArgsFit("%0" + s, args)
    ensures ArgsFit("%" + s, args) && Render("%0" + s, args, zeroPad).out == Render("%" + s, args, true).out
    ensures !RunsOver("%" + s) ==> Render("%0" + s, args, zeroPad) == Render("%" + s, args, true)
    ensures Kinds("%0" + s) == Kinds("%" + s)
  {
    var f, g := "%0" + s, "%" + s;
    assert f[1..] == "0" + s && ("0" + s)[1..] == s && g[1..] == s;
    if Scan(s).Found? {
      RenderDirective(f, args, zeroPad);
      RenderDirective(g, args, true);
    }
  }

  // a character that no directive begins with
  predicate NoDirectiveCharacter(c: char) {
    c !in "%0idlubXxopcs"
  }

  /** A character that is none of the directives brings the message with it, and is then
      printed as text; a '%' at the end of the format brings the message without one. */
  lemma UnknownDirectives(c: char, zeroPad: bool)
    requires NoDirectiveCharacter(c) && c != '\0'
    ensures Kinds(['%', c]) == [] && ArgsFit(['%', c], [])
    ensures Render(['%', c], [], zeroPad) == Rendering("Format unimplemented: " + [c] + "\n" + [c], zeroPad)
    ensures Kinds("%") == [] && ArgsFit("%", [])
    ensures Render("%", [], zeroPad) == Rendering("Format unimplemented: \n", zeroPad)
  {
    var f := ['%', c];
    assert f[1..] == [c] && [c][1..] == "" && "%"[1..] == "";
    assert c != '%' by { assert "%0idlubXxopcs"[0] == '%'; }
    UnknownScan(c);
    PlainText([c], [], zeroPad);
    RenderDirective(f, [], zeroPad);
    assert UNIMPLEMENTED + ([c] + "\n") + [c] == "Format unimplemented: " + [c] + "\n" + [c];
    RenderDirective("%", [], zeroPad);
    assert UNIMPLEMENTED + ("" + "\n") + "" == "Format unimplemented: \n";
  }

  lemma UnknownScan(c: char)
    requires NoDirectiveCharacter(c) && c != '\0'
    ensures Scan([c]) == Found(Unknown(c), false, [c])
  {
    var s := "%0idlubXxopcs";
    assert s[0] == '%' && s[1] == '0' && s[2] == 'i' && s[3] == 'd' && s[4] == 'l' && s[5] == 'u' && s[6] == 'b';
    assert s[7] == 'X' && s[8] == 'x' && s[9] == 'o' && s[10] == 'p' && s[11] == 'c' && s[12] == 's';
  }

  /** One or two l in front of anything else print nothing. */
  lemma LongDirectives(c: char, zeroPad: bool)
    requires c !in "%ludbx" && c != '\0'
    ensures ArgsFit(['%', 'l', c], []) && Render(['%', 'l', c], [], zeroPad) == Rendering([c], zeroPad)
    ensures ArgsFit(['%', 'l', 'l', c], []) && Render(['%', 'l', 'l', c], [], zeroPad) == Rendering([c], zeroPad)
  {
    var f, g, s := ['%', 'l', c], ['%', 'l', 'l', c], "%ludbx";
    assert s[0] == '%' && s[1] == 'l' && s[2] == 'u' && s[3] == 'd' && s[4] == 'b' && s[5] == 'x';
    assert f[1..] == ['l', c] && ['l', c][1..] == [c];
    assert g[1..] == ['l', 'l', c] && ['l', 'l', c][1..] == ['l', c];
    PlainText([c], [], zeroPad);
    RenderDirective(f, [], zeroPad);
    RenderDirective(g, [], zeroPad);
    assert "" + [c] == [c];
  }

  // ----- the padding flag -----

  predicate HasClearing(format: string)
    decreases |format|
  {
    if format == "" then false
    else if format[0] != '%' then HasClearing(format[1..])
    else
      var d := Scan(format[1..]);
      d.Found? && (Clears(d.conversion) || HasClearing(d.rest))
  }

  predicate HasZero(format: string)
    decreases |format|
  {
    if format == "" then false
    else if format[0] != '%' then HasZero(format[1..])
    else
      var d := Scan(format[1..]);
      d.Found? && (d.zero || HasZero(d.rest))
  }

  /** A 0 stays in force through literal text and signed, character and string conversions,
      up to the next unsigned one, which uses it and clears it. */
  lemma {:induction false} PaddingPersists(f: string, args: seq<Arg>, zeroPad: bool)
    requires ArgsFit(f, args) && !HasClearing(f)
    ensures Render(f, args, zeroPad).zeroPad == (zeroPad || HasZero(f))
    ensures Render(f, args, zeroPad).out == Render(f, args, false).out
    decreases |f|
  {
    if f != "" {
      if f[0] != '%' {
        PaddingPersists(f[1..], args, zeroPad);
        PaddingPersists(f[1..], args, false);
      } else {
        var d := Scan(f[1..]);
        if d.Found? {
          FirstSuits(f, args);
          ScanBase(f[1..]);
          PaddingPersists(d.rest, args[|KindsOf(d.conversion)|..], zeroPad || d.zero);
          PaddingPersists(d.rest, args[|KindsOf(d.conversion)|..], d.zero);
        }
      }
    }
  }

  // ----- unsigned digits can be read back -----

  /** What decimal_to_base prints reads back as the number. Unpadded it has no leading zero;
      padded it has exactly 16, 64 or 20 digits in bases 16, 2 and 10, and none in front of the
      number in another base; it never exceeds the 64-cell buffer. Only padded zero in another
      base prints nothing. */
  lemma BaseTextInverts(n: nat, base: nat, zeroPad: bool)
    requires 2 <= base <= 16 && n < WORD
    ensures var s := BaseText(n, base, zeroPad);
            && Parse(s, base) == n
            && |s| <= 64
            && (!zeroPad ==> s == "0" || (s != "" && s[0] != '0'))
            && (zeroPad && base == 16 ==> |s| == 16)
            && (zeroPad && base == 2 ==> |s| == 64)
            && (zeroPad && base == 10 ==> |s| == 20)
            && (zeroPad && base !in {2, 10, 16} ==> s == Numeral(n, base))
            && (s == "" <==> n == 0 && zeroPad && base !in {2, 10, 16})
  {
    ParseNumeral(n, base);
    WordLength(n, base);
    N.PaddedInverts(n, PadWidth(base), base);
    ParseSnoc("", '0', base);
    assert "" + ['0'] == "0";
  }

  /** Counted from the right, its i-th digit is the number divided by base to the i, modulo
      base; zeros in front included. */
  lemma BaseTextPositions(n: nat, base: nat, zeroPad: bool, i: nat)
    requires 2 <= base <= 16 && i < |BaseText(n, base, zeroPad)|
    ensures Pow(base, i) > 0 && 0 <= n / Pow(base, i) % base < 16
    ensures BaseText(n, base, zeroPad)[|BaseText(n, base, zeroPad)| - 1 - i]
            == "0123456789abcdef"[n / Pow(base, i) % base]
  {
    BaseTextCells(n, base, zeroPad, i);
    PowPositive(base, i);
    if i < |Numeral(n, base)| {
      NumeralPositions(n, base, i);
    } else {
      NumeralLength(n, base, i);
      ZeroPosition(n, Pow(base, i), base);
    }
  }

  // the digits, and zeros in front of them
  lemma BaseTextCells(n: nat, base: nat, zeroPad: bool, i: nat)
    requires 2 <= base <= 16 && i < |BaseText(n, base, zeroPad)|
    ensures var s, t := Numeral(n, base), BaseText(n, base, zeroPad);
            t[|t| - 1 - i] == if i < |s| then s[|s| - 1 - i] else '0'
  {
  }

  lemma ZeroPosition(n: nat, p: nat, base: nat)
    requires n < p && base >= 2
    ensures n / p % base == 0
  {
    SmallDivision(n, p);
    SmallDivision(0, base);
  }

  lemma BaseTextNoNul(n: nat, base: nat, zeroPad: bool)
    requires 2 <= base <= 16
    ensures '\0' !in BaseText(n, base, zeroPad)
  {
    forall i | 0 <= i < |Numeral(n, base)| ensures Numeral(n, base)[i] != '\0' {
      N.NumeralDigits(n, base, i);
    }
  }

  // ----- the program -----

  function Reverse(s: string): (r: string)
    ensures |r| == |s| && forall i :: 0 <= i < |s| ==> r[i] == s[|s| - 1 - i]
  {
    seq(|s|, i requires 0 <= i < |s| => s[|s| - 1 - i])
  }

  lemma ReverseSnoc(s: string, c: char)
    ensures Reverse(s + [c]) == [c] + Reverse(s)
  {
  }

  // the character under the cursor, which may stand on the terminator
  function Cell(format: string, pos: nat): char
    requires pos <= |format|
  {
    if pos < |format| then format[pos] else '\0'
  }

  lemma ScanZero(format: string, pos: nat)
    requires pos < |format| && format[pos] == '0'
    ensures Scan(format[pos..]) == WithZero(Scan(format[pos + 1..]))
    ensures WithZero(Scan(format[pos..])) == WithZero(Scan(format[pos + 1..]))
  {
    assert format[pos..][1..] == format[pos + 1..];
  }

  function Flagged(s: Scanned, seen: bool): Scanned { if seen then WithZero(s) else s }

  // one more zero in front of what is scanned
  lemma SkipZero(whole: Scanned, format: string, pos: nat, seen: bool)
    requires pos < |format| && format[pos] == '0' && whole == Flagged(Scan(format[pos..]), seen)
    ensures whole == Flagged(Scan(format[pos + 1..]), true)
  {
    ScanZero(format, pos);
  }

  // the argument that a directive takes is there
  predicate Ready(d: Scanned, args: seq<Arg>) {
    d.Found? ==> && KnownBase(d.conversion) && |KindsOf(d.conversion)| <= |args|
                 && Suits(First(d.conversion, args), KindOf(d.conversion))
  }

  // the zeros only make a difference to the flag
  lemma FlaggedScan(whole: Scanned, format: string, pos: nat, seen: bool, args: seq<Arg>)
    requires pos <= |format| && Cell(format, pos) != '0' && whole == Flagged(Scan(format[pos..]), seen)
    requires Ready(whole, args)
    ensures var d := Scan(format[pos..]);
            && Ready(d, args) && (d.Found? <==> whole.Found?)
            && (d.Found? ==> whole == Found(d.conversion, seen, d.rest))
  {
    assert pos < |format| ==> format[pos..][0] == format[pos];
  }

  /** The interpreter in the middle of a format: the cursor, the arguments not yet taken, the
      padding flag and what has been printed. */
  datatype Progress = Progress(pos: nat, args: seq<Arg>, zeroPad: bool, out: string)

  predicate InFormat(format: string, p: Progress) {
    p.pos <= |format| && ArgsFit(format[p.pos..], p.args)
  }

  // everything that will have been printed, and the arguments that will be left
  function Final(format: string, p: Progress): string
    requires InFormat(format, p)
  {
    p.out + Render(format[p.pos..], p.args, p.zeroPad).out
  }

  function Left(format: string, p: Progress): seq<Arg>
    requires InFormat(format, p)
  {
    p.args[|Kinds(format[p.pos..])|..]
  }

  /** q is further on in the format than p and will end in the same way. */
  predicate Continues(format: string, p: Progress, q: Progress) {
    && InFormat(format, p) && InFormat(format, q) && p.pos < q.pos
    && Final(format, q) == Final(format, p) && Left(format, q) == Left(format, p)
    && RunsOver(format[q.pos..]) == RunsOver(format[p.pos..])
  }

  lemma LiteralContinues(format: string, p: Progress)
    requires InFormat(format, p) && p.pos < |format| && format[p.pos] != '%'
    ensures Continues(format, p, p.(pos := p.pos + 1, out := p.out + Visible(format[p.pos])))
  {
    var f := format[p.pos..];
    assert f[1..] == format[p.pos + 1..];
    Associative(p.out, Visible(f[0]), Render(f[1..], p.args, p.zeroPad).out);
  }

  lemma DirectiveReady(format: string, p: Progress)
    requires InFormat(format, p) && p.pos < |format| && format[p.pos] == '%'
    ensures Ready(Scan(format[p.pos + 1..]), p.args)
    ensures Scan(format[p.pos + 1..]).Overrun? ==>
              RunsOver(format[p.pos..]) && Final(format, p) == p.out
  {
    var f := format[p.pos..];
    assert f[1..] == format[p.pos + 1..];
    if Scan(f[1..]).Found? {
      RenderDirective(f, p.args, p.zeroPad);
    }
  }

  lemma DirectiveContinues(format: string, p: Progress, q: Progress)
    requires InFormat(format, p) && p.pos < |format| && format[p.pos] == '%'
    requires Ready(Scan(format[p.pos + 1..]), p.args)
    requires p.pos < q.pos <= |format|
    requires var d := Scan(format[p.pos + 1..]);
             && d.Found? && format[q.pos..] == d.rest
             && q.args == p.args[|KindsOf(d.conversion)|..]
             && q.zeroPad == (if Clears(d.conversion) then false else p.zeroPad || d.zero)
             && q.out == p.out + Printed(d.conversion, First(d.conversion, p.args), p.zeroPad || d.zero)
    ensures Continues(format, p, q)
  {
    var f := format[p.pos..];
    assert f[1..] == format[p.pos + 1..];
    var d := Scan(f[1..]);
    RenderDirective(f, p.args, p.zeroPad);
    Associative(p.out, Printed(d.conversion, First(d.conversion, p.args), p.zeroPad || d.zero),
      Render(d.rest, q.args, q.zeroPad).out);
    assert Kinds(f) == KindsOf(d.conversion) + Kinds(d.rest);
  }

  class Printer {
    // every character handed to the screen so far
    var out: string
    // the arguments not yet taken, as in a va_list
    var argp: seq<Arg>

    constructor (args: seq<Arg>)
      ensures out == "" && argp == args
    {
      out, argp := "", args;
    }

    method PrintChar(c: char)
      modifies this`out
      ensures out == old(out) + Visible(c)
    {
      if c == '\0' {
        return;
      }
      out := out + [c];
    }

    method PrintString(s: string)
      requires '\0' !in s
      modifies this`out
      ensures out == old(out) + s
    {
      var i := 0;
      while i < |s|
        invariant i <= |s| && out == old(out) + s[..i]
      {
        assert s[..i + 1] == s[..i] + [s[i]];
        PrintChar(s[i]);
        i := i + 1;
      }
      assert s[..i] == s;
    }

    /** Prints n in the base, padded if the flag is set, and clears the flag. */
    method DecimalToBase(n: nat, base: nat, zeroPad: bool) returns (pad: bool)
      requires n < WORD && base <= 16 && base != 1
      modifies this`out
      ensures base == 0 ==> out == old(out) && pad == zeroPad
      ensures base != 0 ==> out == old(out) + BaseText(n, base, zeroPad) && !pad
    {
      var num := new char[64];
      if base == 0 {
        return zeroPad;
      }
      if n == 0 && !zeroPad {
        PrintChar('0');
        return false;
      }
      WordLength(n, base);
      var i := DigitsInto(num, n, base);
      if zeroPad {
        i := Extend(num, i, PadWidth(base));
      }
      BaseTextNoNul(n, base, zeroPad);
      PrintBackwards(num, i, BaseText(n, base, zeroPad));
      return false;
    }

    /** The last loop of decimal_to_base: the cells from number i - 1 down to the first. */
    method PrintBackwards(num: array<char>, i: nat, ghost text: string)
      requires i <= num.Length && text == Reverse(num[..i]) && '\0' !in text
      modifies this`out
      ensures out == old(out) + text
    {
      var j: int := i - 1;
      while j >= 0
        invariant -1 <= j < i
        invariant out == old(out) + text[..i - 1 - j]
      {
        assert text[i - 1 - j] == num[j];
        assert text[..i - j] == text[..i - 1 - j] + [num[j]];
        PrintChar(num[j]);
        j := j - 1;
      }
      assert text[..i] == text;
    }

    // the next argument of a conversion that takes one
    method VaArg() returns (arg: Arg)
      requires argp != []
      modifies this`argp
      ensures arg == old(argp)[0] && argp == old(argp)[1..]
    {
      arg := argp[0];
      argp := argp[1..];
    }

    /** Takes the argument of a conversion, prints it, and gives the new padding flag. */
    method Convert(c: Conversion, zeroPad: bool) returns (pad: bool)
      requires KnownBase(c) && KindOf(c) != NoArgument && argp != [] && Suits(argp[0], KindOf(c))
      modifies this
      ensures out == old(out) + Printed(c, old(argp)[0], zeroPad)
      ensures argp == old(argp)[1..]
      ensures pad == if Clears(c) then false else zeroPad
    {
      pad := zeroPad;
      var arg := VaArg();
      match c
      case Int32 => PrintLongLong(Signed32(arg.bits));
      case Int64 => PrintLongLong(N.Wrap64(arg.bits));
      case UInt32 => pad := DecimalToBase(Low32(arg.bits), 10, zeroPad);
      case UInt64 => pad := DecimalToBase(arg.bits, 10, zeroPad);
      case Radix(p, base, wide) => pad := PrintPrefixed(p, if wide then arg.bits else Low32(arg.bits), base, zeroPad);
      case Char => PrintChar((arg.bits % 256) as char);
      case Str => PrintString(arg.text);
    }

    method PrintPrefixed(prefix: char, n: nat, base: nat, zeroPad: bool) returns (pad: bool)
      requires prefix != '\0' && n < WORD && 2 <= base <= 16
      modifies this`out
      ensures out == old(out) + (['0', prefix] + BaseText(n, base, zeroPad)) && !pad
    {
      PrintChar('0');
      PrintChar(prefix);
      pad := DecimalToBase(n, base, zeroPad);
    }

    // the message that printk prints about a directive it does not know
    method PrintComplaint(c: char)
      modifies this`out
      ensures out == old(out) + Complaint(c)
    {
      NoDirective();
      PrintString(UNIMPLEMENTED);
      PrintChar(c);
      PrintChar('\n');
    }

    /** Interprets one directive: the cursor comes in on the '%' and goes out on the last
        character that was used up, before the step that ends every round of the main loop.
        For a directive that the next character decides, that is one step back. False means
        that the step would pass the terminator. */
    method Directive(format: string, at: nat, zeroPad: bool) returns (pos: int, pad: bool, inside: bool)
      requires '\0' !in format && at < |format| && format[at] == '%'
      requires Ready(Scan(format[at + 1..]), argp)
      modifies this
      ensures inside <==> Scan(format[at + 1..]).Found?
      ensures !inside ==> out == old(out) && pos == |format|
      ensures inside ==>
                var d := Scan(format[at + 1..]);
                && at <= pos < |format|
                && format[pos + 1..] == d.rest
                && out == old(out) + Printed(d.conversion, First(d.conversion, old(argp)), zeroPad || d.zero)
                && argp == old(argp)[|KindsOf(d.conversion)|..]
                && pad == if Clears(d.conversion) then false else zeroPad || d.zero
    {
      var first;
      first, pad := SkipZeros(format, at, zeroPad);
      FlaggedScan(Scan(format[at + 1..]), format, first, first > at + 1, argp);
      pos, pad, inside := Switch(format, first, pad);
    }

    /** The `goto format` of the case '0': the flag is set and the next character looked at. */
    method SkipZeros(format: string, at: nat, zeroPad: bool) returns (pos: nat, pad: bool)
      requires at < |format|
      ensures at < pos <= |format| && Cell(format, pos) != '0'
      ensures Scan(format[at + 1..]) == Flagged(Scan(format[pos..]), pos > at + 1)
      ensures pad <==> zeroPad || pos > at + 1
    {
      pad := zeroPad;
      pos := at + 1;
      ghost var whole := Scan(format[pos..]);
      while Cell(format, pos) == '0'
        invariant at < pos <= |format|
        invariant pad <==> zeroPad || pos > at + 1
        invariant whole == Flagged(Scan(format[pos..]), pos > at + 1)
        decreases |format| - pos
      {
        SkipZero(whole, format, pos, pos > at + 1);
        pad := true;
        pos := pos + 1;
      }
    }

    /** The switch over the character under the cursor. */
    method Switch(format: string, at: nat, zeroPad: bool) returns (pos: int, pad: bool, inside: bool)
      requires '\0' !in format && 0 < at <= |format| && Cell(format, at) != '0'
      requires Ready(Scan(format[at..]), argp)
      modifies this
      ensures inside <==> Scan(format[at..]).Found?
      ensures !inside ==> out == old(out) && pos == |format|
      ensures inside ==>
                var d := Scan(format[at..]);
                && at - 1 <= pos < |format|
                && format[pos + 1..] == d.rest
                && out == old(out) + Printed(d.conversion, First(d.conversion, old(argp)), zeroPad)
                && argp == old(argp)[|KindsOf(d.conversion)|..]
                && pad == if Clears(d.conversion) then false else zeroPad
    {
      pos, pad, inside := at, zeroPad, true;
      match Cell(format, pos)
      case '%' => PrintChar('%');
      case 'i' => pad := Convert(Int32, zeroPad);
      case 'd' => pad := Convert(Int32, zeroPad);
      case 'l' => pos, pad, inside := LongSwitch(format, pos, zeroPad);
      case 'u' => pad := Convert(UInt32, zeroPad);
      case 'b' => pad := Convert(Radix('b', 2, false), zeroPad);
      case 'X' => pad := Convert(Radix('X', 16, false), zeroPad);
      case 'x' => pad := Convert(Radix('x', 16, false), zeroPad);
      case 'o' => pad := Convert(Radix('o', 8, false), zeroPad);
      case 'p' => pad := Convert(Radix('x', 16, true), zeroPad);
      case 'c' => pad := Convert(Char, zeroPad);
      case 's' => pad := Convert(Str, zeroPad);
      case _ =>
        PrintComplaint(Cell(format, pos));
        pos := pos - 1;
    }

    /** The cases behind one l and behind two. */
    method LongSwitch(format: string, at: nat, zeroPad: bool) returns (pos: int, pad: bool, inside: bool)
      requires '\0' !in format && at < |format|
      requires Ready(ScanLong(format[at + 1..]), argp)
      modifies this
      ensures inside <==> ScanLong(format[at + 1..]).Found?
      ensures !inside ==> out == old(out) && pos == |format|
      ensures inside ==>
                var d := ScanLong(format[at + 1..]);
                && at <= pos < |format|
                && format[pos + 1..] == d.rest
                && out == old(out) + Printed(d.conversion, First(d.conversion, old(argp)), zeroPad)
                && argp == old(argp)[|KindsOf(d.conversion)|..]
                && pad == if Clears(d.conversion) then false else zeroPad
    {
      pos, pad, inside := at + 1, zeroPad, true;
      assert format[at + 1..] != "" ==> format[at + 1..][1..] == format[at + 2..];
      if Cell(format, pos) == '\0' {
        return pos, pad, false;
      }
      match Cell(format, pos)
      case 'l' =>
        pos := pos + 1;
        assert format[at + 2..] != "" ==> format[at + 2..][1..] == format[at + 3..];
        if Cell(format, pos) == '\0' {
          return pos, pad, false;
        }
        if Cell(format, pos) == 'u' {
          pad := Convert(UInt64, zeroPad);
        } else if Cell(format, pos) == 'd' {
          pad := Convert(Int64, zeroPad);
        } else {
          pos := pos - 1;
        }
      case 'u' => pad := Convert(UInt64, zeroPad);
      case 'd' => pad := Convert(Int64, zeroPad);
      case 'b' => pad := Convert(Radix('b', 2, true), zeroPad);
      case 'x' => pad := Convert(Radix('x', 16, true), zeroPad);
      case _ => pos := pos - 1;
    }

    /** One round of the main loop: a character or a directive. It always gets ahead, although
        the cursor may step back on the way. */
    method Round(format: string, at: nat, zeroPad: bool) returns (pos: nat, pad: bool, inside: bool)
      requires '\0' !in format && at < |format| && InFormat(format, Progress(at, argp, zeroPad, out))
      modifies this
      ensures inside ==> Continues(format, Progress(at, old(argp), zeroPad, old(out)), Progress(pos, argp, pad, out))
      ensures !inside ==> RunsOver(format[at..]) && out == Final(format, Progress(at, old(argp), zeroPad, old(out)))
    {
      ghost var p := Progress(at, argp, zeroPad, out);
      var last: int := at;
      pad, inside := zeroPad, true;
      if format[at] == '%' {
        DirectiveReady(format, p);
        last, pad, inside := Directive(format, at, zeroPad);
      } else {
        LiteralContinues(format, p);
        PrintChar(format[at]);
      }
      pos := last + 1;
      if inside && format[at] == '%' {
        DirectiveContinues(format, p, Progress(pos, argp, pad, out));
      }
    }

    /** actual_print: round after round until the cursor stands on the terminator. False means
        that it passed the terminator. */
    method ActualPrint(format: string) returns (inside: bool)
      requires '\0' !in format && ArgsFit(format, argp)
      modifies this
      ensures out == old(out) + Render(format, old(argp), false).out
      ensures inside ==> argp == old(argp)[|Kinds(format)|..]
      ensures inside <==> !RunsOver(format)
    {
      var zeroPad := false;
      var pos := 0;
      inside := true;
      ghost var start := Progress(0, argp, false, out);
      assert format[0..] == format;
      while pos < |format|
        invariant InFormat(format, Progress(pos, argp, zeroPad, out))
        invariant Final(format, Progress(pos, argp, zeroPad, out)) == Final(format, start)
        invariant Left(format, Progress(pos, argp, zeroPad, out)) == Left(format, start)
        invariant RunsOver(format[pos..]) <==> RunsOver(format)
        decreases |format| - pos
      {
        pos, zeroPad, inside := Round(format, pos, zeroPad);
        if !inside {
          return;
        }
      }
    }

    method PrintLongLong(num: int)
      requires N.IsInt64(num) && num != N.INT64_MIN
      modifies this`out
      ensures out == old(out) + N.Decimal(num)
    {
      var strNum := new char[64];
      var ok := N.Lltoa(num, strNum);
      PrintCells(strNum, N.Decimal(num));
    }

    // print_string of a buffer
    method PrintCells(cells: array<char>, ghost s: string)
      requires N.Holds(cells[..], s)
      modifies this`out
      ensures out == old(out) + s
    {
      var n := 0;
      while cells[n] != '\0'
        invariant n <= |s| && out == old(out) + s[..n]
        invariant n < |s| ==> cells[n] == cells[..][..|s|][n] == s[n]
        decreases |s| - n
      {
        assert s[..n + 1] == s[..n] + [s[n]];
        PrintChar(cells[n]);
        n := n + 1;
        assert n < |s| ==> cells[n] == cells[..][..|s|][n];
      }
      assert s[..n] == s;
    }
  }

  lemma DigitMoves(m: nat, n: nat, base: nat, cells: string)
    requires 2 <= base <= 16 && m > 0
    requires Numeral(m, base) + Reverse(cells) == Numeral(n, base)
    ensures |Numeral(m, base)| == |Numeral(Quot(m, base), base)| + 1
    ensures Numeral(Quot(m, base), base) + Reverse(cells + [Digit(Rem(m, base))]) == Numeral(n, base)
  {
    DigitShifts(Numeral(Quot(m, base), base), Digit(Rem(m, base)), cells);
  }

  lemma DigitShifts(q: string, c: char, cells: string)
    ensures q + Reverse(cells + [c]) == (q + [c]) + Reverse(cells)
  {
    ReverseSnoc(cells, c);
  }

  /** The first loop of decimal_to_base: the digits, least significant first. */
  method DigitsInto(num: array<char>, n: nat, base: nat) returns (i: nat)
    requires 2 <= base <= 16 && |Numeral(n, base)| <= num.Length
    modifies num
    ensures i == |Numeral(n, base)| && Reverse(num[..i]) == Numeral(n, base)
  {
    i := 0;
    var m: nat := n;
    while m > 0
      invariant i <= num.Length && |Numeral(m, base)| + i == |Numeral(n, base)|
      invariant Numeral(m, base) + Reverse(num[..i]) == Numeral(n, base)
      decreases m
    {
      ghost var was := num[..i];
      DigitMoves(m, n, base, was);
      DivMod(m, base);
      num[i] := DIGITS[m % base];
      assert num[..i + 1] == was + [Digit(Rem(m, base))];
      m := m / base;
      i := i + 1;
    }
  }

  /** The zero-extending loops: '0' cells up to the width, which is 0 for other bases. */
  method Extend(num: array<char>, i0: nat, width: nat) returns (i: nat)
    requires i0 <= num.Length && width <= num.Length
    modifies num
    ensures i == if i0 < width then width else i0
    ensures Reverse(num[..i]) == PadTo(old(Reverse(num[..i0])), width)
  {
    i := i0;
    while i < width
      invariant i0 <= i && (i <= width || i == i0)
      invariant i <= num.Length
      invariant num[..i0] == old(num[..i0]) && forall k :: i0 <= k < i ==> num[k] == '0'
    {
      num[i] := '0';
      i := i + 1;
    }
  }
}