/** Allocating and freeing undo each other, and how many allocations a free list can serve. */
module RoundTrip {
  import opened Arithmetic
  import opened Blocks
  import opened Coalescing

  lemma CoalescedSlice(s: seq<Block>, i: nat, j: nat)
    requires Coalesced(s) && i <= j <= |s|
    ensures Coalesced(s[i..j])
  {
    forall m | 0 <= m < |s[i..j]| - 1 ensures !Touches(s[i..j][m], s[i..j][m + 1]) {
      assert !Touches(s[i + m], s[i + m + 1]);
    }
  }

  /** Nothing before position k in the list lies higher than the block there. */
  ghost predicate NothingHigherBefore(free: seq<Block>, k: nat)
    requires k < |free|
  {
    forall j :: 0 <= j < k ==> free[j].addr <= free[k].addr
  }

  /** What it takes for kfree to undo an allocation from the block at position k. */
  ghost predicate Undoable(free: seq<Block>, k: nat, n: nat)
    requires k < |free| && n <= free[k].size
  {
    && NothingHigherBefore(free, k)
    && (if Splits(free[k], n) then free[k].addr != 0
        else k + 1 < |free| ==> free[k].addr < free[k + 1].addr)
  }

  // ----- when it is undone -----

  lemma RoundTripWhole(free: seq<Block>, k: nat, n: nat)
    requires Coalesced(free)
    requires k < |free| && n <= free[k].size && !Splits(free[k], n) && Undoable(free, k, n)
    ensures Release(Allot(free, k, n), Taken(free[k], n)) == free
  {
    WholeInserted(free, k);
    TakenOut(free, k);
    CoalesceStays(free);
  }

  lemma TakenOut(free: seq<Block>, k: nat)
    requires k < |free|
    ensures var t := free[..k] + [] + free[k + 1..];
            t[..k] + [free[k]] + t[k..] == free
  {
  }

  lemma WholeInserted(free: seq<Block>, k: nat)
    requires k < |free| && NothingHigherBefore(free, k)
    requires k + 1 < |free| ==> free[k].addr < free[k + 1].addr
    ensures InsertIndex(free[..k] + [] + free[k + 1..], free[k].addr) == k
  {
    InsertedAt(free[..k] + [] + free[k + 1..], free[k].addr, k);
  }

  // the list that kfree hands to the pass, and what the pass does to its front part
  lemma PlacedPair(free: seq<Block>, k: nat, n: nat)
    requires Coalesced(free)
    requires k < |free| && n <= free[k].size && Splits(free[k], n) && NothingHigherBefore(free, k)
    ensures Place(Allot(free, k, n), Taken(free[k], n))
            == free[..k] + ([Taken(free[k], n), Remainder(free[k], n)] + free[k + 1..])
    ensures Release(Allot(free, k, n), Taken(free[k], n))
            == free[..k] + Coalesce([Taken(free[k], n), Remainder(free[k], n)] + free[k + 1..])
  {
    SplitInserted(free, k, n);
    CoalescedPrefix(free, k);
    CoalesceAfterPrefix(free[..k], [Taken(free[k], n), Remainder(free[k], n)] + free[k + 1..]);
  }

  lemma CoalescedPrefix(free: seq<Block>, k: nat)
    requires Coalesced(free) && k < |free|
    ensures Coalesced(free[..k]) && (k > 0 ==> !Touches(free[k - 1], free[k]))
  {
    CoalescedSlice(free, 0, k);
    if k > 0 {
      assert !Touches(free[k - 1], free[k - 1 + 1]);
    }
  }

  lemma SplitInserted(free: seq<Block>, k: nat, n: nat)
    requires k < |free| && n <= free[k].size && Splits(free[k], n) && NothingHigherBefore(free, k)
    ensures Place(Allot(free, k, n), Taken(free[k], n))
            == free[..k] + ([Taken(free[k], n), Remainder(free[k], n)] + free[k + 1..])
  {
    InsertedAt(Allot(free, k, n), free[k].addr, k);
  }

  lemma CoalescePair(a: Block, b: Block, tail: seq<Block>)
    requires Touches(a, b)
    ensures Coalesce([a, b] + tail) == Coalesce([Join(a, b)] + tail)
  {
    var s := [a, b] + tail;
    assert s[2..] == tail;
  }

  lemma CoalesceSuffix(free: seq<Block>, k: nat)
    requires Coalesced(free) && k <= |free|
    ensures Coalesce(free[k..]) == free[k..]
  {
    CoalescedSlice(free, k, |free|);
    assert free[k..|free|] == free[k..];
    CoalesceStays(free[k..]);
  }

  lemma SplitCloses(free: seq<Block>, k: nat, n: nat)
    requires k < |free| && n <= free[k].size && Splits(free[k], n) && free[k].addr != 0
    requires Coalesce(free[k..]) == free[k..]
    ensures free[..k] + Coalesce([Taken(free[k], n), Remainder(free[k], n)] + free[k + 1..]) == free
  {
    CoalescePair(Taken(free[k], n), Remainder(free[k], n), free[k + 1..]);
    assert [free[k]] + free[k + 1..] == free[k..];
    assert free[..k] + free[k..] == free;
  }

  lemma RoundTripSplit(free: seq<Block>, k: nat, n: nat)
    requires Coalesced(free)
    requires k < |free| && n <= free[k].size && Splits(free[k], n) && Undoable(free, k, n)
    ensures Release(Allot(free, k, n), Taken(free[k], n)) == free
  {
    PlacedPair(free, k, n);
    CoalesceSuffix(free, k);
    SplitCloses(free, k, n);
  }

  // ----- when it is not -----

  lemma FirstGrows(b: Block, q: seq<Block>)
    ensures Coalesce([b] + q) != [] && Coalesce([b] + q)[0].addr == b.addr
    ensures Coalesce([b] + q)[0].size >= b.size
    decreases |q|
  {
    var s := [b] + q;
    if q != [] {
      assert s[0] == b && s[1] == q[0];
      if Touches(b, q[0]) {
        assert [Join(b, q[0])] + s[2..] == [Join(b, q[0])] + q[1..];
        FirstGrows(Join(b, q[0]), q[1..]);
      }
    }
  }

  // a list that first differs from free in the address at position i is not merged into free
  lemma NeverBack(free: seq<Block>, i: nat, q: seq<Block>)
    requires Coalesced(free) && i < |free| && q != [] && q[0].addr != free[i].addr
    ensures Coalesce(free[..i] + q) != free
  {
    assert q == [q[0]] + q[1..];
    if i == 0 || !Touches(free[i - 1], q[0]) {
      CoalescedSlice(free, 0, i);
      CoalesceAfterPrefix(free[..i], q);
      FirstGrows(q[0], q[1..]);
      assert (free[..i] + Coalesce(q))[i] == Coalesce(q)[0];
    } else {
      NeverBackGrown(free, i, q);
    }
  }

  lemma NeverBackGrown(free: seq<Block>, i: nat, q: seq<Block>)
    requires Coalesced(free) && 0 < i < |free| && q != [] && Touches(free[i - 1], q[0])
    ensures Coalesce(free[..i] + q) != free
  {
    var b := free[i - 1];
    CoalescedSlice(free, 0, i - 1);
    if i > 1 {
      assert !Touches(free[i - 2], free[i - 2 + 1]);
    }
    assert free[..i] + q == free[..i - 1] + ([b, q[0]] + q[1..]);
    CoalesceAfterPrefix(free[..i - 1], [b, q[0]] + q[1..]);
    CoalescePair(b, q[0], q[1..]);
    FirstGrows(Join(b, q[0]), q[1..]);
    assert (free[..i - 1] + Coalesce([Join(b, q[0])] + q[1..]))[i - 1].size > b.size;
  }

  // a higher block earlier in the list: the freed block goes in before that
  lemma HigherBefore(free: seq<Block>, k: nat, n: nat)
    requires Coalesced(free)
    requires k < |free| && n <= free[k].size && !NothingHigherBefore(free, k)
    ensures Release(Allot(free, k, n), Taken(free[k], n)) != free
  {
    var t, a := Allot(free, k, n), Taken(free[k], n);
    var i := InsertIndex(t, a.addr);
    var j :| 0 <= j < k && free[j].addr > free[k].addr;
    assert t[j] == free[j];
    assert t[..i] == free[..i];
    assert Place(t, a) == free[..i] + ([a] + t[i..]);
    NeverBack(free, i, [a] + t[i..]);
  }

  // a whole block with a lower one behind it: the freed block goes in behind that
  lemma LowerBehind(free: seq<Block>, k: nat, n: nat)
    requires Coalesced(free)
    requires k + 1 < |free| && n <= free[k].size && !Splits(free[k], n) && NothingHigherBefore(free, k)
    requires free[k + 1].addr < free[k].addr
    ensures Release(Allot(free, k, n), Taken(free[k], n)) != free
  {
    var t, a := Allot(free, k, n), free[k];
    var i := InsertIndex(t, a.addr);
    assert t[k] == free[k + 1] && forall j :: 0 <= j < k ==> t[j] == free[j];
    assert i > k;
    assert Place(t, a) == free[..k] + (t[k..i] + [a] + t[i..]);
    NeverBack(free, k, t[k..i] + [a] + t[i..]);
  }

  lemma RoundTripAtZero(free: seq<Block>, k: nat, n: nat)
    requires AllDisjoint(free) && Coalesced(free)
    requires k < |free| && n <= free[k].size && Splits(free[k], n) && free[k].addr == 0 && NothingHigherBefore(free, k)
    ensures Release(Allot(free, k, n), Taken(free[k], n)) != free
  {
    var a := Taken(free[k], n);
    PlacedPair(free, k, n);
    CoalesceAtZero(Place(Allot(free, k, n), a), a);
    assert Place(Allot(free, k, n), a)[k] == a;
    forall i | 0 <= i < |free| ensures free[i] != a {
      assert i < k ==> Disjoint(free[i], free[k]);
      assert k < i ==> Disjoint(free[k], free[i]);
    }
  }

  /** kfree after kmalloc restores the free list exactly when the list had nothing to merge, no
      block before the one taken lies higher, and then: a block that was split is not at
      address 0; a block that was taken whole has a higher one behind it, if any. This is for
      lists in any order. */
  lemma MallocFreeRoundTrip(free: seq<Block>, k: nat, n: nat)
    requires AllDisjoint(free)
    requires k < |free| && n <= free[k].size
    ensures Release(Allot(free, k, n), Taken(free[k], n)) == free <==> Coalesced(free) && Undoable(free, k, n)
  {
    if !Coalesced(free) {
      CoalesceCoalesced(Place(Allot(free, k, n), Taken(free[k], n)));
    } else if !NothingHigherBefore(free, k) {
      HigherBefore(free, k, n);
    } else if Splits(free[k], n) {
      if free[k].addr == 0 {
        RoundTripAtZero(free, k, n);
      } else {
        RoundTripSplit(free, k, n);
      }
    } else if k + 1 < |free| && free[k + 1].addr <= free[k].addr {
      assert Disjoint(free[k], free[k + 1]);
      LowerBehind(free, k, n);
    } else {
      RoundTripWhole(free, k, n);
    }
  }

  /** In an ascending list only the split of a block at address 0 is not undone. */
  lemma OrderedUndoable(free: seq<Block>, k: nat, n: nat)
    requires Ordered(free) && k < |free| && n <= free[k].size
    ensures AllDisjoint(free)
    ensures Undoable(free, k, n) <==> !(free[k].addr == 0 && Splits(free[k], n))
  {
    forall i, j | 0 <= i < j < |free| ensures Disjoint(free[i], free[j]) {
      assert free[i].End() <= free[j].addr;
    }
  }

  // ----- capacity -----

  /** How many successive requests for n bytes a single block can serve. */
  function Serves(size: nat, n: nat): nat
    decreases size
  {
    if size < n then 0
    else if size - n < MIN_ALLOC then 1
    else 1 + Serves(size - n - HEADER, n)
  }

  function Capacity(free: seq<Block>, n: nat): nat {
    if free == [] then 0 else Serves(free[0].size, n) + Capacity(free[1..], n)
  }

  datatype Outcome = Exhausted | Served(free: seq<Block>)

  /** k successive requests for n bytes. */
  function AllotMany(free: seq<Block>, n: nat, k: nat): Outcome
    decreases k
  {
    if k == 0 then Served(free)
    else
      var i := FirstFit(free, n);
      if i == |free| then Exhausted else AllotMany(Allot(free, i, n), n, k - 1)
  }

  lemma {:induction false} CapacityConcat(s: seq<Block>, t: seq<Block>, n: nat)
    ensures Capacity(s + t, n) == Capacity(s, n) + Capacity(t, n)
  {
    if s == [] {
      assert s + t == t;
    } else {
      assert (s + t)[1..] == s[1..] + t;
      CapacityConcat(s[1..], t, n);
    }
  }

  lemma {:induction false} NoFitNoCapacity(free: seq<Block>, n: nat)
    requires forall j :: 0 <= j < |free| ==> free[j].size < n
    ensures Capacity(free, n) == 0
  {
    if free != [] {
      NoFitNoCapacity(free[1..], n);
    }
  }

  lemma AllotUsesOne(free: seq<Block>, k: nat, n: nat)
    requires k < |free| && n <= free[k].size
    ensures Capacity(Allot(free, k, n), n) + 1 == Capacity(free, n)
  {
    var b := free[k];
    var t := if Splits(b, n) then [Remainder(b, n)] else [];
    CapacityConcat(free[..k] + t, free[k + 1..], n);
    CapacityConcat(free[..k], t, n);
    assert free == free[..k] + [b] + free[k + 1..];
    CapacityConcat(free[..k] + [b], free[k + 1..], n);
    CapacityConcat(free[..k], [b], n);
  }

  /** From any free list, k successive requests for n bytes all succeed exactly when the
      blocks together have that capacity, wherever first fit goes looking. */
  lemma {:induction false} RequestsServed(free: seq<Block>, n: nat, k: nat)
    ensures AllotMany(free, n, k).Served? <==> Capacity(free, n) >= k
    decreases k
  {
    if k > 0 {
      var i := FirstFit(free, n);
      if i == |free| {
        NoFitNoCapacity(free, n);
      } else {
        AllotUsesOne(free, i, n);
        RequestsServed(Allot(free, i, n), n, k - 1);
      }
    }
  }

  /** The size a block needs to serve k requests for n bytes. */
  function Needed(n: nat, k: nat): nat
    requires k >= 1
  {
    if k == 1 then n else (k - 1) * (n + HEADER) + Max(n, 32)
  }

  lemma NeededStep(n: nat, k: nat)
    requires k >= 2
    ensures k >= 3 ==> Needed(n, k) == Needed(n, k - 1) + n + HEADER
    ensures Needed(n, k) >= n + MIN_ALLOC
  {
    assert (k - 1) * (n + HEADER) == (k - 2) * (n + HEADER) + (n + HEADER);
    assert (k - 2) * (n + HEADER) >= 0;
  }

  /** A block serves k requests exactly from the size Needed on. */
  lemma {:induction false} ServesBound(size: nat, n: nat, k: nat)
    requires k >= 1
    ensures Serves(size, n) >= k <==> size >= Needed(n, k)
    decreases k
  {
    if k > 1 {
      NeededStep(n, k);
      if size >= n + MIN_ALLOC {
        ServesBound(size - n - HEADER, n, k - 1);
      }
    }
  }

  /** From one free block: k >= 2 requests succeed exactly from this size on. */
  lemma SingleBlockBound(b: Block, n: nat, k: nat)
    requires k >= 2
    ensures AllotMany([b], n, k).Served? <==> b.size >= (k - 1) * (n + HEADER) + Max(n, 32)
  {
    RequestsServed([b], n, k);
    assert [b][1..] == [];
    ServesBound(b.size, n, k);
  }
}
