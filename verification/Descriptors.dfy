/** Packing a segment descriptor into a 64-bit word, bit by bit. A word is the sequence of its
    bits, bit 0 first. */
module Descriptors {

  const GDT_MAX_ENTRIES: nat := 8192

  type Word = w: seq<bool> | |w| == 64 witness Zero()

  function Zero(): seq<bool> { seq(64, _ => false) }

  function Bit(n: nat, i: nat): bool
    decreases i
  {
    if i == 0 then n % 2 == 1 else Bit(n / 2, i - 1)
  }

  /** The low bits of a number. */
  function Bits(n: nat, width: nat): (s: seq<bool>)
    ensures |s| == width
  {
    seq(width, i requires 0 <= i < width => Bit(n, i))
  }

  function Value(s: seq<bool>): nat {
    if s == [] then 0 else (if s[0] then 1 else 0) + 2 * Value(s[1..])
  }

  function Pow2(k: nat): nat {
    if k == 0 then 1 else 2 * Pow2(k - 1)
  }

  lemma {:induction false} ValueBits(n: nat, width: nat)
    requires n < Pow2(width)
    ensures Value(Bits(n, width)) == n
    decreases width
  {
    if width > 0 {
      ValueBits(n / 2, width - 1);
      assert Bits(n, width)[1..] == Bits(n / 2, width - 1);
    }
  }

  lemma BitsPrefix(n: nat, short: nat, long: nat)
    requires short <= long
    ensures Bits(n, long)[..short] == Bits(n, short)
  {
  }

  lemma SomePowers()
    ensures Pow2(4) == 16 && Pow2(8) == 256 && Pow2(16) == 65536 && Pow2(24) == 0x100_0000
  {
    assert Pow2(4) == 16;
    assert Pow2(8) == 16 * Pow2(4);
    assert Pow2(12) == 16 * Pow2(8);
    assert Pow2(16) == 16 * Pow2(12);
    assert Pow2(20) == 16 * Pow2(16);
    assert Pow2(24) == 16 * Pow2(20);
  }

  // bitwise or
  function Or(a: Word, b: Word): Word { seq(64, i requires 0 <= i < 64 => a[i] || b[i]) }

  /** The pattern's low bits at positions lo to hi - 1, and no others. */
  function Field(pattern: Word, lo: nat, hi: nat): Word
    requires lo <= hi <= 64
  {
    seq(64, i requires 0 <= i < 64 => lo <= i < hi && pattern[i - lo])
  }

  /** Ors the low bits of the pattern into num, one at a time, at positions lo to hi - 1. Bit i
      is picked by shifting a 32-bit signed 1, which is defined for i below 31 only; the method
      stops there and says so. */
  method SetSeveralBits(num0: Word, lo: nat, hi: nat, pattern: Word) returns (num: Word, defined: bool)
    requires lo <= hi <= 64
    ensures defined <==> hi - lo <= 31
    ensures defined ==> num == Or(num0, Field(pattern, lo, hi))
  {
    num := num0;
    var idx, i := lo, 0;
    while idx < hi
      invariant lo <= idx <= hi && i == idx - lo <= 31
      invariant forall j :: 0 <= j < 64 ==> (num[j] <==> num0[j] || (lo <= j < idx && pattern[j - lo]))
    {
      if i >= 31 {
        return num, false;
      }
      num := num[idx := num[idx] || pattern[i]];
      idx := idx + 1;
      i := i + 1;
    }
    defined := true;
  }

  // ----- the layout of section 3.4.5 of the Intel SDM, volume 3A -----

  /** A 32-bit base, a limit, an access byte and flags. */
  datatype Descriptor = Descriptor(base: nat, limit: nat, access: nat, flags: nat)

  /** The C types of the parameters. */
  predicate Typed(d: Descriptor) {
    d.base < 0x1_0000_0000 && d.limit < 0x1_0000_0000 && d.access < 256 && d.flags < 256
  }

  /** The fields of a descriptor, by their places in the word. */
  function Decode(w: Word): Descriptor {
    Descriptor(
      Value(w[16..40]) + 0x100_0000 * Value(w[56..64]),
      Value(w[0..16]) + 0x1_0000 * Value(w[48..52]),
      Value(w[40..48]),
      Value(w[52..56]))
  }

  /** Six fields side by side. */
  function Join(l0: seq<bool>, b0: seq<bool>, a: seq<bool>, l1: seq<bool>, f: seq<bool>, b1: seq<bool>): Word
    requires |l0| == 16 && |b0| == 24 && |a| == 8 && |l1| == 4 && |f| == 4 && |b1| == 8
  {
    l0 + b0 + a + l1 + f + b1
  }

  lemma JoinSlices(l0: seq<bool>, b0: seq<bool>, a: seq<bool>, l1: seq<bool>, f: seq<bool>, b1: seq<bool>)
    requires |l0| == 16 && |b0| == 24 && |a| == 8 && |l1| == 4 && |f| == 4 && |b1| == 8
    ensures var w := Join(l0, b0, a, l1, f, b1);
            w[0..16] == l0 && w[16..40] == b0 && w[40..48] == a && w[48..52] == l1 && w[52..56] == f && w[56..64] == b1
  {
  }

  lemma DecodeSlices(w: Word, d: Descriptor)
    requires Typed(d)
    requires w[0..16] == Bits(d.limit % 0x1_0000, 16) && w[16..40] == Bits(d.base % 0x100_0000, 24)
    requires w[40..48] == Bits(d.access, 8) && w[48..52] == Bits(d.limit / 0x1_0000 % 16, 4)
    requires w[52..56] == Bits(d.flags % 16, 4) && w[56..64] == Bits(d.base / 0x100_0000, 8)
    ensures Decode(w) == d.(limit := d.limit % 0x10_0000, flags := d.flags % 16)
  {
    FieldValues(d);
    Halves(d);
  }

  /** The bits that filling in a descriptor sets. */
  function Packed(d: Descriptor): Word
    requires Typed(d)
  {
    Join(Bits(d.limit % 0x1_0000, 16), Bits(d.base % 0x100_0000, 24), Bits(d.access, 8),
         Bits(d.limit / 0x1_0000 % 16, 4), Bits(d.flags % 16, 4), Bits(d.base / 0x100_0000, 8))
  }

  lemma FieldValues(d: Descriptor)
    requires Typed(d)
    ensures Value(Bits(d.limit % 0x1_0000, 16)) == d.limit % 0x1_0000
    ensures Value(Bits(d.base % 0x100_0000, 24)) == d.base % 0x100_0000
    ensures Value(Bits(d.access, 8)) == d.access
    ensures Value(Bits(d.limit / 0x1_0000 % 16, 4)) == d.limit / 0x1_0000 % 16
    ensures Value(Bits(d.flags % 16, 4)) == d.flags % 16
    ensures Value(Bits(d.base / 0x100_0000, 8)) == d.base / 0x100_0000
  {
    SomePowers();
    ValueBits(d.limit % 0x1_0000, 16);
    ValueBits(d.base % 0x100_0000, 24);
    ValueBits(d.access, 8);
    ValueBits(d.limit / 0x1_0000 % 16, 4);
    ValueBits(d.flags % 16, 4);
    ValueBits(d.base / 0x100_0000, 8);
  }

  lemma Halves(d: Descriptor)
    ensures d.limit % 0x1_0000 + 0x1_0000 * (d.limit / 0x1_0000 % 16) == d.limit % 0x10_0000
    ensures d.base % 0x100_0000 + 0x100_0000 * (d.base / 0x100_0000) == d.base
  {
  }

  /** Decoding the packed bits gives back the base and the access byte, the low 20 bits of the
      limit and the low 4 of the flags; so everything, exactly when the limit has no more than
      20 bits and the flags no more than 4. */
  lemma DecodePacked(d: Descriptor)
    requires Typed(d)
    ensures Decode(Packed(d)) == d.(limit := d.limit % 0x10_0000, flags := d.flags % 16)
    ensures Decode(Packed(d)) == d <==> d.limit < 0x10_0000 && d.flags < 16
  {
    DecodeSlices(Packed(d), d) by {
      JoinSlices(Bits(d.limit % 0x1_0000, 16), Bits(d.base % 0x100_0000, 24), Bits(d.access, 8),
        Bits(d.limit / 0x1_0000 % 16, 4), Bits(d.flags % 16, 4), Bits(d.base / 0x100_0000, 8));
    }
  }

  lemma {:induction false} ValueConcat(a: seq<bool>, b: seq<bool>)
    ensures Value(a + b) == Value(a) + Pow2(|a|) * Value(b)
  {
    if a == [] {
      assert a + b == b;
    } else {
      assert (a + b)[1..] == a[1..] + b;
      ValueConcat(a[1..], b);
      DoubleProduct(Pow2(|a| - 1), Value(b));
    }
  }

  lemma DoubleProduct(p: nat, v: nat)
    ensures 2 * (p * v) == (2 * p) * v
  {
  }

  lemma JoinValue(l0: seq<bool>, b0: seq<bool>, a: seq<bool>, l1: seq<bool>, f: seq<bool>, b1: seq<bool>)
    requires |l0| == 16 && |b0| == 24 && |a| == 8 && |l1| == 4 && |f| == 4 && |b1| == 8
    ensures Value(Join(l0, b0, a, l1, f, b1))
            == Value(l0) + 0x1_0000 * Value(b0) + 0x100_0000_0000 * Value(a) + 0x1_0000_0000_0000 * Value(l1)
               + 0x10_0000_0000_0000 * Value(f) + 0x100_0000_0000_0000 * Value(b1)
  {
    SomePowers();
    ValueConcat(l0 + b0 + a + l1 + f, b1);
    ValueConcat(l0 + b0 + a + l1, f);
    ValueConcat(l0 + b0 + a, l1);
    ValueConcat(l0 + b0, a);
    ValueConcat(l0, b0);
    MorePowers();
  }

  lemma MorePowers()
    ensures Pow2(40) == 0x100_0000_0000 && Pow2(48) == 0x1_0000_0000_0000
    ensures Pow2(52) == 0x10_0000_0000_0000 && Pow2(56) == 0x100_0000_0000_0000
  {
    SomePowers();
    assert Pow2(28) == 16 * Pow2(24);
    assert Pow2(32) == 16 * Pow2(28);
    assert Pow2(36) == 16 * Pow2(32);
    assert Pow2(40) == 16 * Pow2(36);
    assert Pow2(44) == 16 * Pow2(40);
    assert Pow2(48) == 16 * Pow2(44);
    assert Pow2(52) == 16 * Pow2(48);
    assert Pow2(56) == 16 * Pow2(52);
  }

  /** The packed word as a number: which field is where. */
  lemma PackedValue(d: Descriptor)
    requires Typed(d)
    ensures Value(Packed(d))
            == d.limit % 0x1_0000 + 0x1_0000 * (d.base % 0x100_0000) + 0x100_0000_0000 * d.access
               + 0x1_0000_0000_0000 * (d.limit / 0x1_0000 % 16) + 0x10_0000_0000_0000 * (d.flags % 16)
               + 0x100_0000_0000_0000 * (d.base / 0x100_0000)
  {
    FieldValues(d);
    JoinValue(Bits(d.limit % 0x1_0000, 16), Bits(d.base % 0x100_0000, 24), Bits(d.access, 8),
      Bits(d.limit / 0x1_0000 % 16, 4), Bits(d.flags % 16, 4), Bits(d.base / 0x100_0000, 8));
  }

  /** Six patterns or-ed in, each at its place. */
  function Fields(w: Word, l0: Word, b0: Word, a: Word, l1: Word, f: Word, b1: Word): Word {
    Or(Or(Or(Or(Or(Or(w, Field(l0, 0, 16)), Field(b0, 16, 40)), Field(a, 40, 48)),
      Field(l1, 48, 52)), Field(f, 52, 56)), Field(b1, 56, 64))
  }

  lemma FieldsJoin(w: Word, l0: Word, b0: Word, a: Word, l1: Word, f: Word, b1: Word)
    ensures Fields(w, l0, b0, a, l1, f, b1) == Or(w, Join(l0[..16], b0[..24], a[..8], l1[..4], f[..4], b1[..8]))
  {
  }

  lemma FieldsPacked(w: Word, d: Descriptor)
    requires Typed(d)
    ensures Fields(w, Bits(d.limit % 0x1_0000, 64), Bits(d.base % 0x100_0000, 64), Bits(d.access, 64),
                   Bits(d.limit / 0x1_0000 % 16, 64), Bits(d.flags % 16, 64), Bits(d.base / 0x100_0000, 64))
            == Or(w, Packed(d))
  {
    FieldsJoin(w, Bits(d.limit % 0x1_0000, 64), Bits(d.base % 0x100_0000, 64), Bits(d.access, 64),
      Bits(d.limit / 0x1_0000 % 16, 64), Bits(d.flags % 16, 64), Bits(d.base / 0x100_0000, 64));
    BitsPrefix(d.limit % 0x1_0000, 16, 64);
    BitsPrefix(d.base % 0x100_0000, 24, 64);
    BitsPrefix(d.access, 8, 64);
    BitsPrefix(d.limit / 0x1_0000 % 16, 4, 64);
    BitsPrefix(d.flags % 16, 4, 64);
    BitsPrefix(d.base / 0x100_0000, 8, 64);
  }

  lemma OrZero(w: Word)
    ensures Or(Zero(), w) == w
  {
  }

  class Table {
    const gdtDescriptors: array<Word>

    constructor ()
      ensures gdtDescriptors.Length == 8192 && fresh(gdtDescriptors)
      ensures forall i :: 0 <= i < 8192 ==> gdtDescriptors[i] == Zero()
    {
      gdtDescriptors := new Word[GDT_MAX_ENTRIES](_ => Zero());
    }

    /** Fills in one slot. Bits are only ever set: a slot that is not zero keeps its old ones,
        and a zero slot then decodes to what was filled in. */
    method FillGdtDescriptorItem(vector: nat, d: Descriptor)
      requires vector < gdtDescriptors.Length && Typed(d)
      modifies gdtDescriptors
      ensures gdtDescriptors[..] == old(gdtDescriptors[..])[vector := Or(old(gdtDescriptors[vector]), Packed(d))]
      ensures old(gdtDescriptors[vector]) == Zero() ==>
                Decode(gdtDescriptors[vector]) == d.(limit := d.limit % 0x10_0000, flags := d.flags % 16)
    {
      ghost var w := gdtDescriptors[vector];
      var item, defined := SetSeveralBits(gdtDescriptors[vector], 0, 16, Bits(d.limit % 0x1_0000, 64));
      gdtDescriptors[vector] := item;
      item, defined := SetSeveralBits(gdtDescriptors[vector], 16, 40, Bits(d.base % 0x100_0000, 64));
      gdtDescriptors[vector] := item;
      item, defined := SetSeveralBits(gdtDescriptors[vector], 40, 48, Bits(d.access, 64));
      gdtDescriptors[vector] := item;
      item, defined := SetSeveralBits(gdtDescriptors[vector], 48, 52, Bits(d.limit / 0x1_0000 % 16, 64));
      gdtDescriptors[vector] := item;
      item, defined := SetSeveralBits(gdtDescriptors[vector], 52, 56, Bits(d.flags % 16, 64));
      gdtDescriptors[vector] := item;
      item, defined := SetSeveralBits(gdtDescriptors[vector], 56, 64, Bits(d.base / 0x100_0000, 64));
      gdtDescriptors[vector] := item;
      FieldsPacked(w, d);
      OrZero(Packed(d));
      DecodePacked(d);
    }
  }
}
