/** Blocks of the kernel heap as intervals of byte addresses, and what one allocator call
    does to the list of free blocks, as functions on sequences of blocks.

    A block owns its 24-byte header (next, prev, size) and the `size` bytes behind it. */
module Blocks {

  const HEADER: nat := 24
  // spare bytes a block needs before it is split: a header and 32 bytes behind it
  const MIN_ALLOC: nat := HEADER + 32
  const WORD_SPAN: nat := 0x1_0000_0000_0000_0000

  datatype Block = Block(addr: nat, size: nat) {
    function End(): nat { addr + HEADER + size }

    predicate Covers(x: int) { addr <= x < End() }

    // what a caller of kmalloc receives
    function Payload(): nat { addr + HEADER }
  }

  /** 64-bit rounding up to a multiple of the pointer size; the sum may wrap. */
  function AlignUp(n: nat): nat {
    (n + 7) % WORD_SPAN / 8 * 8
  }

  /** The rounded request is the least multiple of 8 that is big enough, exactly when the
      64-bit sum does not wrap; when it wraps the request becomes 0. */
  lemma AlignUpMeaning(n: nat)
    requires n < 0x1_0000_0000_0000_0000
    ensures AlignUp(n) % 8 == 0
    ensures n <= AlignUp(n) <==> n <= 0xFFFF_FFFF_FFFF_FFF8
    ensures n <= 0xFFFF_FFFF_FFFF_FFF8 ==> AlignUp(n) < n + 8
    ensures n > 0xFFFF_FFFF_FFFF_FFF8 ==> AlignUp(n) == 0
  {
  }

  // ----- counting the blocks that cover a byte -----

  /** How many blocks of s cover byte x. */
  ghost function Count(s: seq<Block>, x: int): nat {
    if s == [] then 0 else (if s[0].Covers(x) then 1 else 0) + Count(s[1..], x)
  }

  /** Total number of bytes owned by the blocks of s, headers included. */
  ghost function Bytes(s: seq<Block>): nat {
    if s == [] then 0 else HEADER + s[0].size + Bytes(s[1..])
  }

  lemma {:induction false} CountConcat(s: seq<Block>, t: seq<Block>, x: int)
    ensures Count(s + t, x) == Count(s, x) + Count(t, x)
  {
    if s == [] {
      assert s + t == t;
    } else {
      assert (s + t)[1..] == s[1..] + t;
      CountConcat(s[1..], t, x);
    }
  }

  lemma {:induction false} BytesConcat(s: seq<Block>, t: seq<Block>)
    ensures Bytes(s + t) == Bytes(s) + Bytes(t)
  {
    if s == [] {
      assert s + t == t;
    } else {
      assert (s + t)[1..] == s[1..] + t;
      BytesConcat(s[1..], t);
    }
  }

  lemma CountOne(b: Block, x: int)
    ensures Count([b], x) == if b.Covers(x) then 1 else 0
  {
  }

  lemma BytesOne(b: Block)
    ensures Bytes([b]) == HEADER + b.size
  {
  }

  ghost predicate Covered(s: seq<Block>, x: int) {
    exists i :: 0 <= i < |s| && s[i].Covers(x)
  }

  /** A byte is covered by some block of s exactly when its count is not zero. */
  lemma {:induction false} CountPositive(s: seq<Block>, x: int)
    ensures Count(s, x) > 0 <==> Covered(s, x)
  {
    if s != [] {
      CountPositive(s[1..], x);
      if Count(s[1..], x) > 0 {
        var i :| 0 <= i < |s[1..]| && s[1..][i].Covers(x);
        assert s[i + 1].Covers(x);
      }
      if Covered(s, x) {
        var i :| 0 <= i < |s| && s[i].Covers(x);
        assert i == 0 || s[1..][i - 1].Covers(x);
      }
    }
  }

  /** Count and Bytes of a sequence with the slice [i, j) exchanged for t. */
  lemma CountSplice(s: seq<Block>, i: nat, j: nat, t: seq<Block>, x: int)
    requires i <= j <= |s|
    ensures Count(s[..i] + t + s[j..], x) + Count(s[i..j], x) == Count(s, x) + Count(t, x)
  {
    CountConcat(s[..i] + t, s[j..], x);
    CountConcat(s[..i], t, x);
    assert s == s[..i] + s[i..j] + s[j..];
    CountConcat(s[..i] + s[i..j], s[j..], x);
    CountConcat(s[..i], s[i..j], x);
  }

  lemma BytesSplice(s: seq<Block>, i: nat, j: nat, t: seq<Block>)
    requires i <= j <= |s|
    ensures Bytes(s[..i] + t + s[j..]) + Bytes(s[i..j]) == Bytes(s) + Bytes(t)
  {
    BytesConcat(s[..i] + t, s[j..]);
    BytesConcat(s[..i], t);
    assert s == s[..i] + s[i..j] + s[j..];
    BytesConcat(s[..i] + s[i..j], s[j..]);
    BytesConcat(s[..i], s[i..j]);
  }

  ghost predicate Disjoint(a: Block, b: Block) {
    a.End() <= b.addr || b.End() <= a.addr
  }

  ghost predicate AllDisjoint(s: seq<Block>) {
    forall i, j :: 0 <= i < j < |s| ==> Disjoint(s[i], s[j])
  }

  lemma {:induction false} DisjointCount(s: seq<Block>, x: int)
    requires AllDisjoint(s)
    ensures Count(s, x) <= 1
  {
    if s != [] {
      forall i, j | 0 <= i < j < |s[1..]| ensures Disjoint(s[1..][i], s[1..][j]) {
        assert s[1..][i] == s[i + 1] && s[1..][j] == s[j + 1];
      }
      DisjointCount(s[1..], x);
      CountPositive(s[1..], x);
      assert s[0].Covers(x) ==> forall i :: 0 <= i < |s[1..]| ==> !s[1..][i].Covers(x);
    }
  }

  lemma {:induction false} CountTwice(s: seq<Block>, i: nat, j: nat, x: int)
    requires i < j < |s| && s[i].Covers(x) && s[j].Covers(x)
    ensures Count(s, x) >= 2
  {
    if i == 0 {
      assert s[1..][j - 1].Covers(x);
      CountPositive(s[1..], x);
    } else {
      CountTwice(s[1..], i - 1, j - 1, x);
    }
  }

  /** No byte is counted twice exactly when the blocks are pairwise disjoint. */
  lemma DisjointByCount(s: seq<Block>)
    ensures (forall x: int :: Count(s, x) <= 1) <==> AllDisjoint(s)
  {
    if AllDisjoint(s) {
      forall x: int ensures Count(s, x) <= 1 {
        DisjointCount(s, x);
      }
    } else {
      var i, j :| 0 <= i < j < |s| && !Disjoint(s[i], s[j]);
      var x := if s[i].addr < s[j].addr then s[j].addr else s[i].addr;
      CountTwice(s, i, j, x);
    }
  }

  /** Ascending by address, without overlap. */
  ghost predicate Ordered(s: seq<Block>) {
    forall i, j :: 0 <= i < j < |s| ==> s[i].End() <= s[j].addr
  }

  // ----- kmalloc -----

  /** Position of the first block, in list order, that can hold n bytes; |free| if none. */
  function FirstFit(free: seq<Block>, n: nat): (k: nat)
    ensures k <= |free|
    ensures forall j :: 0 <= j < k ==> free[j].size < n
    ensures k < |free| ==> free[k].size >= n
  {
    if free == [] then 0
    else if free[0].size >= n then 0
    else 1 + FirstFit(free[1..], n)
  }

  predicate Splits(b: Block, n: nat)
    requires n <= b.size
  {
    b.size - n >= MIN_ALLOC
  }

  /** The part of b that a request for n bytes takes. */
  function Taken(b: Block, n: nat): Block
    requires n <= b.size
  {
    if Splits(b, n) then Block(b.addr, n) else b
  }

  /** What is left of a split block. */
  function Remainder(b: Block, n: nat): Block
    requires n <= b.size && Splits(b, n)
  {
    Block(b.addr + HEADER + n, b.size - n - HEADER)
  }

  /** The free list after the block at position k served a request for n bytes. */
  function Allot(free: seq<Block>, k: nat, n: nat): seq<Block>
    requires k < |free| && n <= free[k].size
  {
    if Splits(free[k], n)
    then free[..k] + [Remainder(free[k], n)] + free[k + 1..]
    else free[..k] + [] + free[k + 1..]
  }

  // ----- kfree -----

  /** Position of the first free block at a higher address; |free| if none. */
  function InsertIndex(free: seq<Block>, addr: nat): (k: nat)
    ensures k <= |free|
    ensures forall j :: 0 <= j < k ==> free[j].addr <= addr
    ensures k < |free| ==> free[k].addr > addr
  {
    if free == [] then 0
    else if free[0].addr > addr then 0
    else 1 + InsertIndex(free[1..], addr)
  }

  function Place(free: seq<Block>, b: Block): seq<Block> {
    var k := InsertIndex(free, b.addr);
    free[..k] + [b] + free[k..]
  }

  /** The merge test of the defragmenting pass. A header at address 0 counts as no block. */
  predicate Touches(a: Block, b: Block) {
    a.addr != 0 && a.End() == b.addr
  }

  function Join(a: Block, b: Block): Block {
    Block(a.addr, a.size + HEADER + b.size)
  }

  /** One left-to-right pass; a merged block goes on absorbing its successors. */
  function Coalesce(s: seq<Block>): seq<Block>
    decreases |s|
  {
    if |s| < 2 then s
    else if Touches(s[0], s[1]) then Coalesce([Join(s[0], s[1])] + s[2..])
    else [s[0]] + Coalesce(s[1..])
  }

  function Release(free: seq<Block>, b: Block): seq<Block> {
    Coalesce(Place(free, b))
  }

  /** No two neighbours are left to merge. */
  ghost predicate Coalesced(s: seq<Block>) {
    forall i :: 0 <= i < |s| - 1 ==> !Touches(s[i], s[i + 1])
  }
}
