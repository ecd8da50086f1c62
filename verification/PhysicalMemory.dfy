/** Seeding the heap from the firmware's memory map, and the allocations that the kernel makes
    to try it out. */
module PhysicalMemory {
  import opened Blocks
  import opened HeapRuns
  import opened KernelHeap
  import Arithmetic
  import Coalescing
  import Confluence
  import LinkedList
  import RoundTrip

  const E820_MAX_ENTRIES: nat := 100
  const E820_TYPE_USABLE: nat := 1

  datatype Entry = Entry(baseaddr: nat, length: nat, entryType: nat)

  /** The usable entries of the map, in map order. */
  function Usable(m: seq<Entry>): seq<Entry> {
    if m == [] then []
    else (if m[0].entryType == E820_TYPE_USABLE then [m[0]] else []) + Usable(m[1..])
  }

  /** The usable entries are those of type 1, each as often as in the map. */
  lemma {:induction false} UsableType(m: seq<Entry>, e: Entry)
    ensures multiset(Usable(m))[e] == if e.entryType == 1 then multiset(m)[e] else 0
  {
    if m != [] {
      UsableType(m[1..], e);
      assert m == [m[0]] + m[1..];
      var front := if m[0].entryType == E820_TYPE_USABLE then [m[0]] else [];
      assert multiset(Usable(m)) == multiset(front) + multiset(Usable(m[1..]));
    }
  }

  /** us are the entries of type 1 of the map, in its order; `at` are their places in it. */
  ghost predicate InMapOrder(m: seq<Entry>, us: seq<Entry>, at: seq<nat>) {
    && |at| == |us|
    && (forall k :: 0 <= k < |at| ==> at[k] < |m| && us[k] == m[at[k]] && m[at[k]].entryType == 1)
    && (forall j, k :: 0 <= j < k < |at| ==> at[j] < at[k])
    && (forall i :: 0 <= i < |m| && m[i].entryType == 1 ==> i in at)
  }

  function OneFurther(at: seq<nat>): seq<nat> { seq(|at|, k requires 0 <= k < |at| => at[k] + 1) }

  // in front of the map, an entry of another type
  lemma OrderSkip(m: seq<Entry>, us: seq<Entry>, at: seq<nat>)
    requires m != [] && m[0].entryType != 1 && InMapOrder(m[1..], us, at)
    ensures InMapOrder(m, us, OneFurther(at))
  {
    forall i | 0 <= i < |m| && m[i].entryType == 1 ensures i in OneFurther(at) {
      FurtherPlace(m, us, at, i);
    }
  }

  lemma OrderTake(m: seq<Entry>, us: seq<Entry>, at: seq<nat>)
    requires m != [] && m[0].entryType == 1 && InMapOrder(m[1..], us, at)
    ensures InMapOrder(m, [m[0]] + us, [0] + OneFurther(at))
  {
    TakenEntries(m, us, at);
    TakenAscend(at);
    forall i | 0 <= i < |m| && m[i].entryType == 1 ensures i in [0] + OneFurther(at) {
      if i > 0 {
        FurtherPlace(m, us, at, i);
      }
    }
  }

  lemma TakenEntries(m: seq<Entry>, us: seq<Entry>, at: seq<nat>)
    requires m != [] && m[0].entryType == 1 && |at| == |us|
    requires forall k :: 0 <= k < |at| ==> at[k] < |m[1..]| && us[k] == m[1..][at[k]] && m[1..][at[k]].entryType == 1
    ensures var all := [0] + OneFurther(at);
            forall k :: 0 <= k < |all| ==> all[k] < |m| && ([m[0]] + us)[k] == m[all[k]] && m[all[k]].entryType == 1
  {
  }

  lemma TakenAscend(at: seq<nat>)
    requires forall j, k :: 0 <= j < k < |at| ==> at[j] < at[k]
    ensures var all := [0] + OneFurther(at); forall j, k :: 0 <= j < k < |all| ==> all[j] < all[k]
  {
  }

  lemma FurtherPlace(m: seq<Entry>, us: seq<Entry>, at: seq<nat>, i: nat)
    requires m != [] && InMapOrder(m[1..], us, at) && 1 <= i < |m| && m[i].entryType == 1
    ensures i in OneFurther(at)
  {
    assert m[1..][i - 1] == m[i];
    var k :| 0 <= k < |at| && at[k] == i - 1;
    assert OneFurther(at)[k] == i;
  }

  lemma {:induction false} UsableOrder(m: seq<Entry>) returns (at: seq<nat>)
    ensures InMapOrder(m, Usable(m), at)
  {
    if m == [] {
      at := [];
    } else {
      var rest := UsableOrder(m[1..]);
      if m[0].entryType == 1 {
        OrderTake(m, Usable(m[1..]), rest);
        at := [0] + OneFurther(rest);
      } else {
        OrderSkip(m, Usable(m[1..]), rest);
        at := OneFurther(rest);
        assert [] + Usable(m[1..]) == Usable(m[1..]);
      }
    }
  }

  function TotalLength(us: seq<Entry>): nat {
    if us == [] then 0 else us[0].length + TotalLength(us[1..])
  }

  /** Bytes lost to the alignment of the first header of each region. */
  function Padding(us: seq<Entry>): int {
    if us == [] then 0 else AlignUp(us[0].baseaddr) - us[0].baseaddr + Padding(us[1..])
  }

  predicate Roomy(e: Entry) {
    AlignUp(e.baseaddr) + HEADER <= e.baseaddr + e.length
  }

  function RegionOf(e: Entry): Block
    requires Roomy(e)
  {
    RegionBlock(e.baseaddr, e.length)
  }

  /** The heap after malloc_addblock for each entry in turn. */
  ghost function Seeded(s: HeapState, us: seq<Entry>): HeapState
    requires forall i :: 0 <= i < |us| ==> Roomy(us[i])
    decreases |us|
  {
    if us == [] then s else Seeded(AfterAddRegion(s, RegionOf(us[0])), us[1..])
  }

  /** The usable entries leave room for a header, lie in memory, and are disjoint. */
  ghost predicate Usables(us: seq<Entry>, limit: nat) {
    && (forall i :: 0 <= i < |us| ==>
          && us[i].baseaddr + us[i].length <= limit && us[i].baseaddr <= AlignUp(us[i].baseaddr)
          && Roomy(us[i]))
    && (forall i, j :: 0 <= i < j < |us| ==> Disjoint(RegionOf(us[i]), RegionOf(us[j])))
  }

  /** The sentinel lies in none of the regions, which the memory map does not promise: see
      SentinelOwned. */
  ghost predicate SentinelApart(us: seq<Entry>, head: nat)
    requires forall i :: 0 <= i < |us| ==> Roomy(us[i])
  {
    forall i :: 0 <= i < |us| ==> Away(RegionOf(us[i]), head)
  }

  /** No header at the start of a region lies on the sentinel. */
  ghost predicate Seedable(us: seq<Entry>, head: nat, limit: nat) {
    Usables(us, limit) && forall i :: 0 <= i < |us| ==> HeaderAway(RegionOf(us[i]), head)
  }

  lemma {:induction false} UsablePrefix(m: seq<Entry>, i: nat)
    requires i < |m|
    ensures Usable(m[..i + 1]) == Usable(m[..i]) + if m[i].entryType == E820_TYPE_USABLE then [m[i]] else []
  {
    if i == 0 {
      assert m[..1] == [m[0]] && m[..0] == [] && [m[0]][1..] == [];
    } else {
      UsablePrefix(m[1..], i - 1);
      assert m[..i + 1][1..] == m[1..][..i] && m[..i][1..] == m[1..][..i - 1];
    }
  }

  lemma {:induction false} UsableShorter(m: seq<Entry>, i: nat)
    requires i <= |m|
    ensures |Usable(m[..i])| <= |Usable(m)|
  {
    if i > 0 {
      UsableShorter(m[1..], i - 1);
      assert m[..i][1..] == m[1..][..i - 1];
    }
  }

  lemma {:induction false} TotalPrefix(us: seq<Entry>, i: nat)
    requires i < |us|
    ensures TotalLength(us[..i + 1]) == TotalLength(us[..i]) + us[i].length
  {
    if i == 0 {
      assert us[..1] == [us[0]] && us[..0] == [] && [us[0]][1..] == [];
    } else {
      TotalPrefix(us[1..], i - 1);
      assert us[..i + 1][1..] == us[1..][..i] && us[..i][1..] == us[1..][..i - 1];
    }
  }

  lemma {:induction false} SeededPrefix(s: HeapState, us: seq<Entry>, i: nat)
    requires i < |us| && forall j :: 0 <= j < |us| ==> Roomy(us[j])
    ensures Seeded(s, us[..i + 1]) == AfterAddRegion(Seeded(s, us[..i]), RegionOf(us[i]))
    decreases |us|
  {
    if i == 0 {
      assert us[..1] == [us[0]] && us[..0] == [] && [us[0]][1..] == [];
    } else {
      SeededPrefix(AfterAddRegion(s, RegionOf(us[0])), us[1..], i - 1);
      assert us[..i + 1][1..] == us[1..][..i] && us[..i][1..] == us[1..][..i - 1];
    }
  }

  /** Seeding puts the regions into the list in reverse order, on top of what was there. */
  lemma {:induction false} SeededRegions(s: HeapState, us: seq<Entry>)
    requires forall j :: 0 <= j < |us| ==> Roomy(us[j])
    ensures var t := Seeded(s, us);
            && t.live == s.live
            && |t.free| == |us| + |s.free| && |t.regions| == |us| + |s.regions|
            && (forall j :: 0 <= j < |us| ==>
                  t.free[|us| - 1 - j] == RegionOf(us[j]) && t.regions[|us| - 1 - j] == RegionOf(us[j]))
            && t.free[|us|..] == s.free && t.regions[|us|..] == s.regions
    decreases |us|
  {
    if us != [] {
      var s' := AfterAddRegion(s, RegionOf(us[0]));
      SeededRegions(s', us[1..]);
      var t := Seeded(s', us[1..]);
      assert t.free[|us| - 1..][0] == RegionOf(us[0]) && t.free[|us|..] == t.free[|us| - 1..][1..];
      assert t.regions[|us| - 1..][0] == RegionOf(us[0]) && t.regions[|us|..] == t.regions[|us| - 1..][1..];
      forall j | 0 < j < |us| ensures t.free[|us| - 1 - j] == RegionOf(us[j]) && t.regions[|us| - 1 - j] == RegionOf(us[j]) {
        assert us[j] == us[1..][j - 1];
      }
    }
  }

  /** The heap owns what the usable entries offer, less the alignment padding. */
  lemma {:induction false} SeededBytes(s: HeapState, us: seq<Entry>)
    requires forall j :: 0 <= j < |us| ==> Roomy(us[j])
    ensures Bytes(Seeded(s, us).regions) == Bytes(s.regions) + TotalLength(us) - Padding(us)
    decreases |us|
  {
    if us != [] {
      SeededBytes(AfterAddRegion(s, RegionOf(us[0])), us[1..]);
      BytesConcat([RegionOf(us[0])], s.regions);
      BytesOne(RegionOf(us[0]));
    }
  }

  lemma PrefixRegion(us: seq<Entry>, i: nat, limit: nat, r: Block)
    requires Usables(us, limit) && i < |us| && r in Seeded(EMPTY, us[..i]).regions
    ensures Disjoint(r, RegionOf(us[i]))
  {
    var t := Seeded(EMPTY, us[..i]);
    SeededRegions(EMPTY, us[..i]);
    var j :| 0 <= j < |t.regions| && t.regions[j] == r;
    assert t.regions[i - 1 - (i - 1 - j)] == RegionOf(us[..i][i - 1 - j]);
    assert Disjoint(RegionOf(us[i - 1 - j]), RegionOf(us[i]));
  }

  lemma SeededStep(us: seq<Entry>, i: nat)
    requires i < |us| && forall j :: 0 <= j < |us| ==> Roomy(us[j])
    ensures Seeded(EMPTY, us[..i + 1]) == AfterAddRegion(Seeded(EMPTY, us[..i]), RegionOf(us[i]))
  {
    SeededPrefix(EMPTY, us, i);
  }

  /** Seeding from disjoint usable entries gives a tiled heap. */
  lemma {:induction false} SeededInv(us: seq<Entry>, limit: nat, i: nat)
    requires Usables(us, limit) && limit < WORD_SPAN && i <= |us|
    ensures Inv(Seeded(EMPTY, us[..i]))
    decreases i
  {
    if i > 0 {
      SeededInv(us, limit, i - 1);
      SeededStep(us, i - 1);
      NextSeparate(us, limit, i - 1);
      AddRegionInv(Seeded(EMPTY, us[..i - 1]), RegionOf(us[i - 1]));
    }
  }

  lemma NextSeparate(us: seq<Entry>, limit: nat, i: nat)
    requires Usables(us, limit) && i < |us| && Inv(Seeded(EMPTY, us[..i]))
    ensures Confluence.Separate(Seeded(EMPTY, us[..i]).regions, [RegionOf(us[i])])
  {
    var regions := Seeded(EMPTY, us[..i]).regions;
    forall r | r in regions ensures Disjoint(r, RegionOf(us[i])) {
      PrefixRegion(us, i, limit, r);
    }
    RegionSeparate(regions, RegionOf(us[i]));
  }

  lemma RegionSeparate(regions: seq<Block>, b: Block)
    requires RegionsDisjoint(regions) && forall r :: r in regions ==> Disjoint(r, b)
    ensures Confluence.Separate(regions, [b])
  {
    forall x: int ensures Count(regions, x) + Count([b], x) <= 1 {
      CountOne(b, x);
      CountPositive(regions, x);
      assert Count(regions, x) <= 1;
      forall j | 0 <= j < |regions| ensures !(regions[j].Covers(x) && b.Covers(x)) {
        assert Disjoint(regions[j], b);
      }
    }
  }

  // whatever has been allocated and freed since
  lemma TotalOwned(s: HeapState, us: seq<Entry>)
    requires forall j :: 0 <= j < |us| ==> Roomy(us[j])
    requires Bytes(s.free) + Bytes(s.live) == Bytes(s.regions) && s.regions == Seeded(EMPTY, us).regions
    ensures Bytes(s.free) + Bytes(s.live) + Padding(us) == TotalLength(us)
    ensures (Bytes(s.free) + Bytes(s.live) + Padding(us)) % WORD_SPAN == TotalLength(us) % WORD_SPAN
  {
    SeededBytes(EMPTY, us);
  }

  /** In every state reachable after seeding, free and live blocks add up to the total length
      of the usable memory less the padding. */
  lemma Conservation(us: seq<Entry>, limit: nat, ops: seq<Op>)
    requires Usables(us, limit) && limit < WORD_SPAN
    requires Legal(Seeded(EMPTY, us), ops) && NoRegions(ops)
    ensures var s := Run(Seeded(EMPTY, us), ops);
            Bytes(s.free) + Bytes(s.live) == TotalLength(us) - Padding(us)
  {
    SeededInv(us, limit, |us|);
    assert us[..|us|] == us;
    RunInv(Seeded(EMPTY, us), ops);
    RunRegions(Seeded(EMPTY, us), ops);
    SeededBytes(EMPTY, us);
  }

  predicate Descending(us: seq<Entry>)
    requires forall i :: 0 <= i < |us| ==> Roomy(us[i])
  {
    forall i, j :: 0 <= i < j < |us| ==> RegionOf(us[j]).addr < RegionOf(us[i]).addr
  }

  lemma AscendingDescends(us: seq<Entry>, limit: nat)
    requires Usables(us, limit) && Ordered(Seeded(EMPTY, us).free)
    ensures Descending(us)
  {
    var t, n := Seeded(EMPTY, us).free, |us| - 1;
    SeededRegions(EMPTY, us);
    forall i, j | 0 <= i < j < |us| ensures RegionOf(us[j]).addr < RegionOf(us[i]).addr {
      assert t[n - j].End() <= t[n - i].addr;
    }
  }

  lemma DescendingAscends(us: seq<Entry>, limit: nat)
    requires Usables(us, limit) && Descending(us)
    ensures Ordered(Seeded(EMPTY, us).free)
  {
    var t, n := Seeded(EMPTY, us).free, |us| - 1;
    SeededRegions(EMPTY, us);
    forall i, j | 0 <= i < j < |t| ensures t[i].End() <= t[j].addr {
      assert t[n - (n - i)] == RegionOf(us[n - i]) && t[n - (n - j)] == RegionOf(us[n - j]);
      assert Disjoint(RegionOf(us[n - j]), RegionOf(us[n - i]));
    }
  }

  /** The seeded list is ascending exactly when the map lists its usable regions from high to
      low. */
  lemma SeededOrdered(us: seq<Entry>, limit: nat)
    requires Usables(us, limit)
    ensures Ordered(Seeded(EMPTY, us).free) <==> Descending(us)
  {
    if Ordered(Seeded(EMPTY, us).free) {
      AscendingDescends(us, limit);
    } else if Descending(us) {
      DescendingAscends(us, limit);
    }
  }

  // ----- the sentinel -----

  predicate Holds(e: Entry, a: nat) {
    e.baseaddr <= a < e.baseaddr + e.length
  }

  lemma RegionHolds(e: Entry, a: nat)
    requires Roomy(e) && e.baseaddr <= AlignUp(e.baseaddr) && a % 8 == 0
    ensures RegionOf(e).Covers(a) <==> Holds(e, a)
  {
  }

  predicate Held(us: seq<Entry>, a: nat) {
    exists i :: 0 <= i < |us| && Holds(us[i], a)
  }

  lemma SeededCovers(us: seq<Entry>, limit: nat, a: nat)
    requires Usables(us, limit) && a % 8 == 0
    ensures Covered(Seeded(EMPTY, us).regions, a) <==> Held(us, a)
  {
    var t, n := Seeded(EMPTY, us).regions, |us| - 1;
    SeededRegions(EMPTY, us);
    forall j | 0 <= j < |us| ensures t[n - j].Covers(a) <==> Holds(us[j], a) {
      RegionHolds(us[j], a);
    }
    if Covered(t, a) {
      var j :| 0 <= j < |t| && t[j].Covers(a);
      assert t[n - (n - j)].Covers(a);
      assert Holds(us[n - j], a);
    }
  }

  /** After any run, an aligned word belongs to a free or live block exactly when a usable
      entry of the map holds it. */
  lemma OwnedWords(us: seq<Entry>, limit: nat, ops: seq<Op>, a: nat)
    requires Usables(us, limit) && limit < WORD_SPAN && a % 8 == 0
    requires Legal(Seeded(EMPTY, us), ops) && NoRegions(ops)
    ensures Covered(All(Run(Seeded(EMPTY, us), ops)), a) <==> Held(us, a)
  {
    SeededInv(us, limit, |us|);
    assert us[..|us|] == us;
    RunInv(Seeded(EMPTY, us), ops);
    RunRegions(Seeded(EMPTY, us), ops);
    TilingCovers(Run(Seeded(EMPTY, us), ops), a);
    SeededCovers(us, limit, a);
  }

  /** After any run of the state machine, the sentinel of the free list overlaps a free or live
      block exactly when some usable entry holds one of its two words. The map of a machine whose
      usable memory starts at 0 holds the kernel image, and the sentinel with it; nothing takes
      that out. The memory follows the run as long as no header comes to lie on the sentinel
      (KernelHeap.StaysAway). */
  lemma SentinelOwned(us: seq<Entry>, limit: nat, ops: seq<Op>, head: nat)
    requires Usables(us, limit) && limit < WORD_SPAN && head % 8 == 0
    requires Legal(Seeded(EMPTY, us), ops) && NoRegions(ops)
    ensures var s := Run(Seeded(EMPTY, us), ops);
            (Covered(All(s), head) || Covered(All(s), head + 8))
            <==> Held(us, head) || Held(us, head + 8)
  {
    OwnedWords(us, limit, ops, head);
    OwnedWords(us, limit, ops, head + 8);
  }

  /** SentinelApart is what keeps the sentinel out of every block: it holds exactly when no
      usable entry holds one of its words. */
  lemma SentinelApartMeaning(us: seq<Entry>, limit: nat, head: nat)
    requires Usables(us, limit) && head % 8 == 0
    ensures SentinelApart(us, head)
            <==> !Held(us, head) && !Held(us, head + 8)
  {
    forall i | 0 <= i < |us| ensures Away(RegionOf(us[i]), head) <==> !Holds(us[i], head) && !Holds(us[i], head + 8) {
      EntryApart(us[i], head);
    }
  }

  lemma EntryApart(e: Entry, head: nat)
    requires Roomy(e) && e.baseaddr <= AlignUp(e.baseaddr) && head % 8 == 0
    ensures Away(RegionOf(e), head) <==> !Holds(e, head) && !Holds(e, head + 8)
  {
    RegionHolds(e, head);
    RegionHolds(e, head + 8);
  }

  /** The owner of a block that covers the sentinel breaks the list with any store there that
      is not the link it finds. */
  lemma SentinelStore(m: map<nat, nat>, r: seq<nat>, v: nat)
    requires LinkedList.Ring(m, r)
    ensures r[0] in m
    ensures LinkedList.Ring(m[r[0] := v], r) <==> v == m[r[0]]
  {
    assert LinkedList.Linked(m, r, 0);
    if v == m[r[0]] {
      assert m[r[0] := v] == m;
    } else {
      assert !LinkedList.Linked(m[r[0] := v], r, 0);
    }
  }

  lemma NextAddable(us: seq<Entry>, head: nat, limit: nat, i: nat)
    requires Seedable(us, head, limit) && i < |us|
    ensures Addable(Seeded(EMPTY, us[..i]), head, limit, us[i].baseaddr, us[i].length)
  {
    forall r | r in Seeded(EMPTY, us[..i]).regions ensures Disjoint(r, RegionOf(us[i])) {
      PrefixRegion(us, i, limit, r);
    }
  }

  /** kmalloc_init: one region per entry, in map order. */
  method KmallocInit(heap: Heap, usable: array<Entry>, count: nat)
    requires heap.Valid() && heap.state == EMPTY
    requires count <= usable.Length && Seedable(usable[..count], heap.head, heap.limit)
    modifies heap, heap.ram
    ensures heap.Valid() && heap.state == Seeded(EMPTY, usable[..count])
  {
    var i := 0;
    ghost var us := usable[..count];
    while i < count
      invariant i <= count && us == usable[..count]
      invariant heap.Valid() && heap.state == Seeded(EMPTY, us[..i])
    {
      NextAddable(us, heap.head, heap.limit, i);
      SeededPrefix(EMPTY, us, i);
      heap.MallocAddBlock(usable[i].baseaddr, usable[i].length);
      i := i + 1;
    }
    assert us[..count] == us;
  }

  // ----- the trial allocations -----

  datatype Outcome = Panicked | Halted

  /** The state after the two strings have been allocated and freed again. */
  ghost function AfterStrings(s: HeapState): HeapState
    requires StringsFreeable(s)
  {
    var s1 := AfterMalloc(s, 600);
    var s2 := AfterMalloc(s1, 6);
    AfterFree(AfterFree(s2, MallocResult(s1, 6)), MallocResult(s, 600))
  }

  ghost predicate StringsFreeable(s: HeapState) {
    var s1 := AfterMalloc(s, 600);
    var s2 := AfterMalloc(s1, 6);
    && Freeable(s2, MallocResult(s1, 6))
    && Freeable(AfterFree(s2, MallocResult(s1, 6)), MallocResult(s, 600))
  }

  /** Everything pmem_map asks the seeded heap for can be served. */
  ghost predicate Survives(s: HeapState) {
    && Fits(s, 600) && Fits(AfterMalloc(s, 600), 6)
    && StringsFreeable(s)
    && RoundTrip.Capacity(AfterStrings(s).free, 24) >= 1024
  }

  /** The trial puts no header and no string on the sentinel, as far as it gets. */
  ghost predicate TrialAway(s: HeapState, head: nat) {
    Fits(s, 600) ==>
      var s1 := AfterMalloc(s, 600);
      && HeadersAway(s1, head) && MallocResult(s, 600) != head
      && (Fits(s1, 6) ==>
            && HeadersAway(AfterMalloc(s1, 6), head) && MallocResult(s1, 6) != head
            && (StringsFreeable(s) ==> LoopAway(AfterStrings(s), head, 1024)))
  }

  /** Neither do n requests for 24 bytes. */
  ghost predicate LoopAway(s: HeapState, head: nat, n: nat)
    decreases n
  {
    n > 0 && Fits(s, 24) ==> HeadersAway(AfterMalloc(s, 24), head) && LoopAway(AfterMalloc(s, 24), head, n - 1)
  }

  /** "Hello" and its terminator over the first six bytes of a word. */
  function HelloOver(w: nat): nat {
    w / 0x1_0000_0000_0000 * 0x1_0000_0000_0000 + 0x6F_6C6C_6548
  }

  /** Byte by byte, the lowest address first: the five letters, a NUL, and two bytes as before. */
  lemma HelloBytes(w: nat)
    ensures var h := HelloOver(w);
            && h % 256 == 'H' as int && h / 0x100 % 256 == 'e' as int && h / 0x1_0000 % 256 == 'l' as int
            && h / 0x100_0000 % 256 == 'l' as int && h / 0x1_0000_0000 % 256 == 'o' as int
            && h / 0x100_0000_0000 % 256 == 0 && h / 0x1_0000_0000_0000 == w / 0x1_0000_0000_0000
  {
    var q, h := w / 0x1_0000_0000_0000, HelloOver(w);
    assert h == 0x1_0000_0000_0000 * q + 0x6F_6C6C_6548;
    HelloByte(h, 1, 0x1_0000_0000_0000 * q + 0x6F_6C6C_6548, 0, 0x100_0000_0000 * q + 0x6F6C_6C65, 'H');
    HelloByte(h, 0x100, 0x100_0000_0000 * q + 0x6F6C_6C65, 0x48, 0x1_0000_0000 * q + 0x6F_6C6C, 'e');
    HelloByte(h, 0x1_0000, 0x1_0000_0000 * q + 0x6F_6C6C, 0x6548, 0x100_0000 * q + 0x6F6C, 'l');
    HelloByte(h, 0x100_0000, 0x100_0000 * q + 0x6F6C, 0x6C_6548, 0x1_0000 * q + 0x6F, 'l');
    HelloByte(h, 0x1_0000_0000, 0x1_0000 * q + 0x6F, 0x6C6C_6548, 0x100 * q, 'o');
    HelloByte(h, 0x100_0000_0000, 0x100 * q, 0x6F_6C6C_6548, q, '\0');
    Arithmetic.DivisionUnique(h, 0x1_0000_0000_0000, q, 0x6F_6C6C_6548);
  }

  // h has the byte at a unit, with `high` from there on and `higher` behind it
  lemma HelloByte(h: nat, unit: nat, high: nat, low: nat, higher: nat, byte: char)
    requires unit in {1, 0x100, 0x1_0000, 0x100_0000, 0x1_0000_0000, 0x100_0000_0000}
    requires low < unit && h == unit * high + low && high == 0x100 * higher + byte as int && byte as int < 256
    ensures h / unit % 256 == byte as int
  {
    Arithmetic.DivisionUnique(h, unit, high, low);
    Arithmetic.DivisionUnique(high, 0x100, higher, byte as int);
  }

  // freeing the newer of two blocks leaves the older one to be freed
  lemma FreedNewest(s: HeapState, size: nat, p: nat)
    requires Inv(s) && size < WORD_SPAN && Fits(s, size)
    requires HEADER <= p && LiveIndex(s.live, p - HEADER) < |s.live|
    ensures Freeable(AfterMalloc(s, size), MallocResult(s, size))
    ensures AfterFree(AfterMalloc(s, size), MallocResult(s, size)).live == s.live
  {
    NewestIndex(s, size);
    var t := AfterMalloc(s, size);
    assert t.live[..|s.live|] + [] + t.live[|s.live| + 1..] == s.live;
  }

  lemma StringsAreFreeable(s: HeapState)
    requires Inv(s) && Fits(s, 600) && Fits(AfterMalloc(s, 600), 6)
    ensures StringsFreeable(s)
  {
    MallocInv(s, 600);
    NewestIndex(s, 600);
    FreedNewest(AfterMalloc(s, 600), 6, MallocResult(s, 600));
  }

  // i requests of the loop have been served, with which the capacity adds up to total
  ghost predicate MidLoop(s: HeapState, head: nat, i: nat, total: nat) {
    i <= 1024 && LoopAway(s, head, 1024 - i) && RoundTrip.Capacity(s.free, 24) + i == total
  }

  // one more request of the loop
  lemma LoopStep(s: HeapState, head: nat, i: nat, total: nat)
    requires MidLoop(s, head, i, total) && i < 1024 && HeadersAway(s, head)
    ensures HeadersAway(AfterMalloc(s, 24), head)
    ensures if Fits(s, 24) then MidLoop(AfterMalloc(s, 24), head, i + 1, total) else total == i
  {
    assert AlignUp(24) == 24;
    var k := FirstFit(s.free, 24);
    if Fits(s, 24) {
      RoundTrip.AllotUsesOne(s.free, k, 24);
    } else {
      RoundTrip.NoFitNoCapacity(s.free, 24);
    }
  }

  class PhysicalMap {
    var usableMap: array<Entry>
    var usableMapLen: nat
    var totalLength: nat

    constructor ()
      ensures usableMap.Length == 100 && usableMapLen == 0 && totalLength == 0
      ensures fresh(usableMap)
    {
      usableMap := new Entry[E820_MAX_ENTRIES](_ => Entry(0, 0, 0));
      usableMapLen, totalLength := 0, 0;
    }

    /** Copies the usable entries, in order. */
    method Filter(e820Map: seq<Entry>)
      requires usableMapLen == 0 && |Usable(e820Map)| <= usableMap.Length
      modifies this, usableMap
      ensures usableMap == old(usableMap) && totalLength == old(totalLength)
      ensures usableMapLen == |Usable(e820Map)| && usableMap[..usableMapLen] == Usable(e820Map)
    {
      var i := 0;
      while i < |e820Map|
        invariant i <= |e820Map| && usableMap == old(usableMap) && totalLength == old(totalLength)
        invariant usableMapLen == |Usable(e820Map[..i])| <= usableMap.Length
        invariant usableMap[..usableMapLen] == Usable(e820Map[..i])
      {
        UsablePrefix(e820Map, i);
        UsableShorter(e820Map, i + 1);
        if e820Map[i].entryType == E820_TYPE_USABLE {
          usableMap[usableMapLen] := e820Map[i];
          usableMapLen := usableMapLen + 1;
        }
        i := i + 1;
      }
      assert e820Map[..i] == e820Map;
    }

    method SumLengths()
      requires usableMapLen <= usableMap.Length && totalLength == 0
      modifies this
      ensures usableMap == old(usableMap) && usableMapLen == old(usableMapLen)
      ensures totalLength == TotalLength(usableMap[..usableMapLen]) % WORD_SPAN
    {
      ghost var us := usableMap[..usableMapLen];
      var i := 0;
      while i < usableMapLen
        invariant usableMap == old(usableMap) && usableMapLen == old(usableMapLen)
        invariant i <= usableMapLen == |us| && us == usableMap[..usableMapLen]
        invariant totalLength == TotalLength(us[..i]) % WORD_SPAN
      {
        TotalPrefix(us, i);
        totalLength := (totalLength + usableMap[i].length) % WORD_SPAN;
        i := i + 1;
      }
      assert us[..i] == us;
    }

    /** Seeds the heap and runs the trial allocations, up to a panic or the final halt. */
    method PmemMap(heap: Heap, e820Map: seq<Entry>) returns (outcome: Outcome)
      requires usableMapLen == 0 && totalLength == 0 && usableMap.Length == 100
      requires |e820Map| <= 100
      requires heap.Valid() && heap.state == EMPTY
      requires Seedable(Usable(e820Map), heap.head, heap.limit)
      requires TrialAway(Seeded(EMPTY, Usable(e820Map)), heap.head)
      modifies this, usableMap, heap, heap.ram
      ensures heap.Valid() && heap.state.regions == Seeded(EMPTY, Usable(e820Map)).regions
      ensures totalLength == TotalLength(Usable(e820Map)) % WORD_SPAN
      ensures (Bytes(heap.state.free) + Bytes(heap.state.live) + Padding(Usable(e820Map))) % WORD_SPAN == totalLength
      ensures outcome.Halted? <==> Survives(Seeded(EMPTY, Usable(e820Map)))
    {
      ghost var us := Usable(e820Map);
      UsableBound(e820Map);
      Filter(e820Map);
      SumLengths();
      KmallocInit(heap, usableMap, usableMapLen);
      outcome := Trial(heap);
      TotalOwned(heap.state, us);
    }
  }

  method Trial(heap: Heap) returns (outcome: Outcome)
    requires heap.Valid() && TrialAway(heap.state, heap.head)
    modifies heap, heap.ram
    ensures heap.Valid() && heap.state.regions == old(heap.state).regions
    ensures outcome.Halted? <==> Survives(old(heap.state))
  {
    ghost var s := heap.state;
    var p := NewString(heap, 600);
    if p == 0 {
      return Panicked;
    }
    var q := NewString(heap, 6);
    if q == 0 {
      return Panicked;
    }
    StringsAreFreeable(s);
    heap.Kfree(q);
    heap.Kfree(p);
    assert heap.state == AfterStrings(s);
    outcome := Exhaust(heap);
  }

  /** Allocates a string and fills it, unless the heap is exhausted. */
  method NewString(heap: Heap, size: nat) returns (p: nat)
    requires heap.Valid() && size in {6, 600}
    requires HeadersAway(AfterMalloc(heap.state, size), heap.head)
    requires Fits(heap.state, size) ==> MallocResult(heap.state, size) != heap.head
    modifies heap, heap.ram
    ensures heap.Valid() && heap.state == AfterMalloc(old(heap.state), size)
    ensures p == MallocResult(old(heap.state), size)
    ensures p != 0 <==> Fits(old(heap.state), size)
  {
    ghost var s := heap.state;
    p := heap.Kmalloc(size);
    if p != 0 {
      NewestIndex(s, size);
      StoreHello(heap, p, heap.state.live[|s.live|]);
    }
  }

  /** strcpy of "Hello" into a block that was just handed out. */
  method StoreHello(heap: Heap, p: nat, ghost b: Block)
    requires heap.Valid() && b in heap.state.live && p == b.Payload() && b.size >= 8 && p != heap.head
    modifies heap.ram
    ensures heap.Valid() && heap.state == old(heap.state)
    ensures p in old(heap.ram.word) && heap.ram.word == old(heap.ram.word)[p := HelloOver(old(heap.ram.word)[p])]
  {
    BlockPlaced(heap.state, heap.head, heap.limit, b);
    heap.StorePayload(p, HelloOver(heap.ram.word[p]), b);
  }

  /** 1024 requests for 24 bytes that are never freed. */
  method Exhaust(heap: Heap) returns (outcome: Outcome)
    requires heap.Valid() && LoopAway(heap.state, heap.head, 1024)
    modifies heap, heap.ram
    ensures heap.Valid() && heap.state.regions == old(heap.state).regions
    ensures outcome.Halted? <==> RoundTrip.Capacity(old(heap.state).free, 24) >= 1024
  {
    ghost var total := RoundTrip.Capacity(heap.state.free, 24);
    var i := 0;
    while i < 1024
      invariant heap.Valid() && heap.state.regions == old(heap.state).regions
      invariant MidLoop(heap.state, heap.head, i, total)
    {
      LoopStep(heap.state, heap.head, i, total);
      var m := heap.Kmalloc(24);
      if m == 0 {
        return Panicked;
      }
      i := i + 1;
    }
    return Halted;
  }

  lemma {:induction false} UsableBound(m: seq<Entry>)
    ensures |Usable(m)| <= |m|
  {
    if m != [] {
      UsableBound(m[1..]);
    }
  }

  // ----- how much memory the trial needs -----

  // the strings come and go without a trace when the first block of a merged list serves them
  lemma Restored(s: HeapState)
    requires Inv(s) && Coalesced(s.free) && s.free != [] && s.free[0].addr != 0
    requires s.free[0].size >= if |s.free| == 1 then 656 else 688
    ensures Fits(s, 600) && Fits(AfterMalloc(s, 600), 6)
    ensures StringsFreeable(s) && AfterStrings(s) == s
  {
    FrontServes(s, 600);
    var s1 := AfterMalloc(s, 600);
    MallocInv(s, 600);
    FreeDisjoint(s);
    Coalescing.AllotCoalesced(s.free, 0, 600);
    assert AlignUp(6) == 8 && FirstFit(s1.free, 8) == 0;
    StringsAreFreeable(s);
    MallocThenFree(s, 600);
    MallocThenFree(s1, 6);
  }

  // a request that splits the first block
  lemma FrontServes(s: HeapState, size: nat)
    requires s.free != [] && size in {6, 24, 600} && AlignUp(size) + MIN_ALLOC <= s.free[0].size
    ensures AlignUp(6) == 8 && AlignUp(24) == 24 && AlignUp(600) == 600
    ensures var b, n := s.free[0], AlignUp(size);
            && Fits(s, size) && FirstFit(s.free, n) == 0 && Splits(b, n)
            && AfterMalloc(s, size).free == [Remainder(b, n)] + s.free[1..]
            && AfterMalloc(s, size).live == s.live + [Block(b.addr, n)]
  {
    assert s.free[..0] + [Remainder(s.free[0], AlignUp(size))] + s.free[1..]
        == [Remainder(s.free[0], AlignUp(size))] + s.free[1..];
  }

  // what the first request leaves of a single block
  lemma AllotLeaves(region: Block)
    requires Fits(OneRegion(region), 600) && Fits(AfterMalloc(OneRegion(region), 600), 6)
    ensures region.size >= 656
    ensures AfterMalloc(OneRegion(region), 600).free == [Block(region.addr + 624, region.size - 624)]
    ensures AfterMalloc(OneRegion(region), 600).live == [Block(region.addr, 600)]
  {
    assert AlignUp(600) == 600;
    assert FirstFit([region], 600) == 0;
  }

  /** A machine with a single usable region above address 0 gets through exactly when the
      block made of the region has 49136 bytes. */
  lemma SurvivesAboveZero(region: Block)
    requires 0 < region.addr && region.addr % 8 == 0 && region.End() < WORD_SPAN
    ensures Survives(OneRegion(region)) <==> region.size >= 49136
  {
    var s := OneRegion(region);
    assert AlignUp(600) == 600 && AlignUp(6) == 8;
    SingleCapacity(region);
    if Fits(s, 600) && Fits(AfterMalloc(s, 600), 6) {
      AllotLeaves(region);
      OneRegionInv(region);
      Restored(s);
    } else if region.size >= 656 {
      BigEnough(region);
    }
  }

  // ----- the sentinel inside a region -----

  // a request served by a block that is clear of the sentinel
  lemma MallocAway(s: HeapState, size: nat, head: nat)
    requires HeadersAway(s, head)
    requires Fits(s, size) ==> Away(s.free[FirstFit(s.free, AlignUp(size))], head)
    ensures HeadersAway(AfterMalloc(s, size), head)
  {
    if Fits(s, size) {
      var n, t := AlignUp(size), AfterMalloc(s, size);
      var k := FirstFit(s.free, n);
      var b := s.free[k];
      assert b in All(s);
      forall c | c in All(t) ensures HeaderAway(c, head) {
        if c in t.live {
          assert c in s.live || c == Taken(b, n);
        } else {
          assert c in s.free || (Splits(b, n) && c == Remainder(b, n));
        }
      }
    }
  }

  // n requests served by a first block that is clear of the sentinel
  lemma {:induction false} FrontLoopAway(s: HeapState, head: nat, n: nat)
    requires HeadersAway(s, head) && s.free != [] && Away(s.free[0], head)
    requires s.free[0].size + 16 >= 48 * n
    ensures LoopAway(s, head, n)
    decreases n
  {
    if n > 0 {
      assert AlignUp(24) == 24 && FirstFit(s.free, 24) == 0;
      MallocAway(s, 24, head);
      if n > 1 {
        FrontServes(s, 24);
        FrontLoopAway(AfterMalloc(s, 24), head, n - 1);
      }
    }
  }

  /** A map whose usable entries are all clear of the sentinel keeps everything clear of it. */
  lemma ApartAway(us: seq<Entry>, head: nat, limit: nat)
    requires Usables(us, limit) && limit < WORD_SPAN && SentinelApart(us, head)
    ensures Seedable(us, head, limit) && RegionsAway(Seeded(EMPTY, us).regions, head)
    ensures TrialAway(Seeded(EMPTY, us), head)
  {
    var s, n := Seeded(EMPTY, us), |us| - 1;
    SeededRegions(EMPTY, us);
    SeededInv(us, limit, |us|);
    assert us[..|us|] == us;
    forall r | r in s.regions ensures Away(r, head) {
      var j :| 0 <= j < |s.regions| && s.regions[j] == r;
      assert s.regions[n - (n - j)] == RegionOf(us[n - j]);
    }
    ClearTrial(s, head);
  }

  /** Whatever else the map holds, the sentinel included: when its last usable entry is clear of
      the sentinel, lies above address 0 and has the room, the trial never touches the sentinel
      and ends in the halt. */
  lemma LastEntryServes(s: HeapState, head: nat)
    requires Inv(s) && HeadersAway(s, head) && Coalesced(s.free)
    requires s.free != [] && Away(s.free[0], head) && s.free[0].addr != 0 && s.free[0].size >= 49136
    ensures TrialAway(s, head) && Survives(s)
  {
    Restored(s);
    FrontServes(s, 600);
    MallocAway(s, 600, head);
    var s1 := AfterMalloc(s, 600);
    FrontServes(s1, 6);
    MallocAway(s1, 6, head);
    FrontLoopAway(s, head, 1024);
    FrontCapacity(s.free);
  }

  lemma FrontCapacity(free: seq<Block>)
    requires free != [] && free[0].size >= 49136
    ensures RoundTrip.Capacity(free, 24) >= 1024
  {
    SingleCapacity(free[0]);
  }

  // a region clear of the sentinel lets no block on it
  lemma {:induction false} ClearLoop(s: HeapState, head: nat, n: nat)
    requires Inv(s) && RegionsAway(s.regions, head)
    ensures LoopAway(s, head, n)
    decreases n
  {
    if n > 0 {
      MallocInv(s, 24);
      ClearHeaders(AfterMalloc(s, 24), head);
      ClearLoop(AfterMalloc(s, 24), head, n - 1);
    }
  }

  lemma ClearHeaders(s: HeapState, head: nat)
    requires Inv(s) && RegionsAway(s.regions, head)
    ensures HeadersAway(s, head)
  {
    forall b | b in All(s) ensures HeaderAway(b, head) {
      BlockAway(s, head, b);
    }
  }

  // the string is in a block that is clear of the sentinel
  lemma ClearString(s: HeapState, size: nat, head: nat)
    requires Inv(s) && RegionsAway(s.regions, head) && size in {6, 600} && Fits(s, size)
    ensures Inv(AfterMalloc(s, size)) && HeadersAway(AfterMalloc(s, size), head) && MallocResult(s, size) != head
  {
    var b := s.free[FirstFit(s.free, AlignUp(size))];
    MallocInv(s, size);
    ClearHeaders(AfterMalloc(s, size), head);
    assert b in All(s);
    BlockAway(s, head, b);
    assert AlignUp(6) == 8 && AlignUp(600) == 600;
  }

  /** When no region holds the sentinel, the trial keeps away from it. */
  lemma ClearTrial(s: HeapState, head: nat)
    requires Inv(s) && RegionsAway(s.regions, head)
    ensures TrialAway(s, head)
  {
    if Fits(s, 600) {
      ClearString(s, 600, head);
      var s1 := AfterMalloc(s, 600);
      if Fits(s1, 6) {
        ClearString(s1, 6, head);
        var s2 := AfterMalloc(s1, 6);
        StringsAreFreeable(s);
        FreeInv(s2, MallocResult(s1, 6));
        FreeInv(AfterFree(s2, MallocResult(s1, 6)), MallocResult(s, 600));
        ClearLoop(AfterStrings(s), head, 1024);
      }
    }
  }

  /** The usual map of a PC, whose low entry holds the kernel image and so the sentinel: the
      boot works all the same, because the list begins with the high entry. */
  lemma UsualBoot(m: seq<Entry>, head: nat, limit: nat)
    requires m == [Entry(0, 0x9_FC00, 1), Entry(0xF_0000, 0x1_0000, 2), Entry(0x10_0000, 0x7EE_0000, 1)]
    requires 0x1000 <= head && head + 16 <= 0x9_FC00 && head % 8 == 0 && 0x7FE_0000 <= limit < WORD_SPAN
    ensures Usable(m) == [m[0], m[2]]
    ensures Held(Usable(m), head) && Seedable(Usable(m), head, limit) && !SentinelApart(Usable(m), head)
    ensures TrialAway(Seeded(EMPTY, Usable(m)), head) && Survives(Seeded(EMPTY, Usable(m)))
  {
    ThreeEntries(m);
    TwoEntryBoot(Usable(m), head, limit);
  }

  lemma TwoEntryBoot(us: seq<Entry>, head: nat, limit: nat)
    requires us == [Entry(0, 0x9_FC00, 1), Entry(0x10_0000, 0x7EE_0000, 1)]
    requires 0x1000 <= head && head + 16 <= 0x9_FC00 && head % 8 == 0 && 0x7FE_0000 <= limit < WORD_SPAN
    ensures Held(us, head) && Seedable(us, head, limit) && !SentinelApart(us, head)
    ensures TrialAway(Seeded(EMPTY, us), head) && Survives(Seeded(EMPTY, us))
  {
    assert AlignUp(0) == 0 && AlignUp(0x10_0000) == 0x10_0000;
    var low, high := RegionOf(us[0]), RegionOf(us[1]);
    assert Usables(us, limit);
    assert !Away(low, head) && Holds(us[0], head);
    var s := Seeded(EMPTY, us);
    SeededInv(us, limit, 2);
    assert us[..2] == us;
    SeededRegions(EMPTY, us);
    assert s.free == [high, low] by {
      assert s.free[2 - 1 - 0] == low && s.free[2 - 1 - 1] == high;
    }
    assert s.live == [];
    forall b | b in All(s) ensures HeaderAway(b, head) {
      assert b == high || b == low;
    }
    LastEntryServes(s, head);
  }

  // the reserved entry is left out
  lemma ThreeEntries(m: seq<Entry>)
    requires |m| == 3 && m[0].entryType == 1 && m[1].entryType == 2 && m[2].entryType == 1
    ensures Usable(m) == [m[0], m[2]]
  {
    assert Usable(m[3..]) == [];
    assert m[1..][1..] == m[2..] && m[2..][1..] == m[3..];
    assert Usable(m[2..]) == [m[2]] && Usable(m[1..]) == [m[2]];
  }

  lemma SingleCapacity(b: Block)
    ensures RoundTrip.Capacity([b], 24) >= 1024 <==> b.size >= 49136
    ensures RoundTrip.Capacity([b], 24) == RoundTrip.Serves(b.size, 24)
  {
    RoundTrip.ServesBound(b.size, 24, 1024);
    assert [b][1..] == [];
  }

  lemma BigEnough(region: Block)
    requires region.size >= 656
    ensures Fits(OneRegion(region), 600) && Fits(AfterMalloc(OneRegion(region), 600), 6)
  {
    assert AlignUp(600) == 600 && AlignUp(6) == 8;
    assert FirstFit([region], 600) == 0;
    var s1 := AfterMalloc(OneRegion(region), 600);
    assert s1.free == [Block(region.addr + 624, region.size - 624)];
    assert FirstFit(s1.free, 8) == 0;
  }

  lemma Serves600()
    ensures RoundTrip.Serves(600, 24) == 12
  {
    RoundTrip.ServesBound(600, 24, 12);
    RoundTrip.ServesBound(600, 24, 13);
  }

  /** At address 0 the front part of the split region is never merged again, which costs one
      more request: 49184 bytes are needed. */
  lemma SurvivesAtZero(region: Block)
    requires region.addr == 0 && region.End() < WORD_SPAN
    ensures Survives(OneRegion(region)) <==> region.size >= 49184
  {
    var s := OneRegion(region);
    if Fits(s, 600) && Fits(AfterMalloc(s, 600), 6) {
      AllotLeaves(region);
      SplitForGood(region);
      Serves600();
      var b := Block(624, region.size - 624);
      SingleCapacity(b);
      assert [Block(0, 600), b][1..] == [b];
      RoundTrip.ServesBound(b.size, 24, 1012);
    } else if region.size >= 656 {
      BigEnough(region);
    }
  }

  lemma SplitForGood(region: Block)
    requires region.addr == 0 && region.End() < WORD_SPAN
    requires Fits(OneRegion(region), 600) && Fits(AfterMalloc(OneRegion(region), 600), 6)
    ensures StringsFreeable(OneRegion(region))
    ensures AfterStrings(OneRegion(region)).free == [Block(0, 600), Block(624, region.size - 624)]
  {
    SecondString(region);
    FirstString(region);
    FreedAtZero(AfterMalloc(OneRegion(region), 600), region.size - 624);
  }

  lemma FirstString(region: Block)
    requires region.addr == 0
    requires Fits(OneRegion(region), 600) && Fits(AfterMalloc(OneRegion(region), 600), 6)
    ensures MallocResult(OneRegion(region), 600) == 24 && region.size >= 656
    ensures AfterMalloc(OneRegion(region), 600).free == [Block(624, region.size - 624)]
    ensures AfterMalloc(OneRegion(region), 600).live == [Block(0, 600)]
  {
    AllotLeaves(region);
  }

  // the second string comes and goes without a trace
  lemma SecondString(region: Block)
    requires region.addr == 0 && region.End() < WORD_SPAN
    requires Fits(OneRegion(region), 600) && Fits(AfterMalloc(OneRegion(region), 600), 6)
    ensures var s1 := AfterMalloc(OneRegion(region), 600);
            && Freeable(AfterMalloc(s1, 6), MallocResult(s1, 6))
            && AfterFree(AfterMalloc(s1, 6), MallocResult(s1, 6)) == s1
  {
    OneRegionInv(region);
    MallocInv(OneRegion(region), 600);
    AllotLeaves(region);
    SingleOrdered(Block(624, region.size - 624));
    MallocThenFree(AfterMalloc(OneRegion(region), 600), 6);
  }

  lemma SingleOrdered(b: Block)
    ensures Ordered([b]) && Coalesced([b])
  {
  }

  // the front part goes back in front of the rest, and stays apart from it
  lemma FreedAtZero(s1: HeapState, size: nat)
    requires s1.free == [Block(624, size)] && s1.live == [Block(0, 600)]
    ensures Freeable(s1, 24)
    ensures AfterFree(s1, 24).free == [Block(0, 600), Block(624, size)]
  {
    var b, r := Block(0, 600), Block(624, size);
    assert LiveIndex(s1.live, 0) == 0;
    assert InsertIndex([r], 0) == 0;
    assert Place([r], b) == [b, r];
    NotMergedAtZero(b, r);
  }

  lemma NotMergedAtZero(b: Block, r: Block)
    requires b.addr == 0
    ensures Coalesce([b, r]) == [b, r]
  {
    assert [b, r][1..] == [r];
  }
}
