/** The heap as a state machine over its three calls, and what holds in every reachable
    state: for any list order, and more when the free list is ascending. */
module HeapRuns {
  import opened Blocks
  import opened Coalescing
  import Confluence
  import RoundTrip

  /** free: the free list, in list order. live: the blocks handed out. regions: the blocks
      that malloc_addblock seeded, which is the memory the heap manages. */
  datatype HeapState = HeapState(free: seq<Block>, live: seq<Block>, regions: seq<Block>)

  const EMPTY: HeapState := HeapState([], [], [])

  datatype Op = AddRegion(block: Block) | Malloc(size: nat) | Free(ptr: nat)

  /** Position of the live block with this header; |live| if there is none. */
  function LiveIndex(live: seq<Block>, addr: int): (k: nat)
    ensures k <= |live|
    ensures forall j :: 0 <= j < k ==> live[j].addr != addr
    ensures k < |live| ==> live[k].addr == addr
  {
    if live == [] then 0
    else if live[0].addr == addr then 0
    else 1 + LiveIndex(live[1..], addr)
  }

  predicate Fits(s: HeapState, size: nat) {
    size > 0 && FirstFit(s.free, AlignUp(size)) < |s.free|
  }

  // the pointer that kmalloc returns; 0 is NULL
  function MallocResult(s: HeapState, size: nat): nat {
    if Fits(s, size) then s.free[FirstFit(s.free, AlignUp(size))].Payload() else 0
  }

  function AfterMalloc(s: HeapState, size: nat): HeapState {
    if Fits(s, size) then
      var n := AlignUp(size);
      var k := FirstFit(s.free, n);
      HeapState(Allot(s.free, k, n), s.live + [Taken(s.free[k], n)], s.regions)
    else s
  }

  predicate Freeable(s: HeapState, ptr: nat) {
    ptr == 0 || LiveIndex(s.live, ptr - HEADER) < |s.live|
  }

  function AfterFree(s: HeapState, ptr: nat): HeapState
    requires Freeable(s, ptr)
  {
    if ptr == 0 then s
    else
      var k := LiveIndex(s.live, ptr - HEADER);
      HeapState(Release(s.free, s.live[k]), s.live[..k] + [] + s.live[k + 1..], s.regions)
  }

  function AfterAddRegion(s: HeapState, b: Block): HeapState {
    HeapState([b] + s.free, s.live, [b] + s.regions)
  }

  // ----- runs -----

  ghost predicate Enabled(s: HeapState, op: Op) {
    match op
    case AddRegion(b) => b.addr % 8 == 0 && b.End() < WORD_SPAN && Confluence.Separate(s.regions, [b])
    case Malloc(size) => size < WORD_SPAN
    case Free(ptr) => Freeable(s, ptr)
  }

  ghost function Step(s: HeapState, op: Op): HeapState
    requires Enabled(s, op)
  {
    match op
    case AddRegion(b) => AfterAddRegion(s, b)
    case Malloc(size) => AfterMalloc(s, size)
    case Free(ptr) => AfterFree(s, ptr)
  }

  ghost predicate Legal(s: HeapState, ops: seq<Op>)
    decreases |ops|
  {
    ops == [] || (Enabled(s, ops[0]) && Legal(Step(s, ops[0]), ops[1..]))
  }

  ghost function Run(s: HeapState, ops: seq<Op>): HeapState
    requires Legal(s, ops)
    decreases |ops|
  {
    if ops == [] then s else Run(Step(s, ops[0]), ops[1..])
  }

  // ----- tiling -----

  ghost predicate RegionsDisjoint(regions: seq<Block>) {
    forall x: int :: Count(regions, x) <= 1
  }

  ghost predicate Aligned(s: seq<Block>) {
    forall i :: 0 <= i < |s| ==> s[i].addr % 8 == 0
  }

  /** Every byte is owned by as many blocks as there are regions around it. */
  ghost predicate Tiled(s: HeapState) {
    forall x: int :: Count(s.free, x) + Count(s.live, x) == Count(s.regions, x)
  }

  ghost predicate Inv(s: HeapState) {
    && RegionsDisjoint(s.regions)
    && (forall i :: 0 <= i < |s.regions| ==> s.regions[i].End() < WORD_SPAN)
    && Tiled(s)
    && Bytes(s.free) + Bytes(s.live) == Bytes(s.regions)
    && Aligned(s.free) && Aligned(s.live)
  }

  lemma MallocTiled(s: HeapState, size: nat)
    requires Tiled(s) && Fits(s, size)
    ensures Tiled(AfterMalloc(s, size))
    ensures Bytes(AfterMalloc(s, size).free) + Bytes(AfterMalloc(s, size).live) == Bytes(s.free) + Bytes(s.live)
  {
    var n := AlignUp(size);
    var k := FirstFit(s.free, n);
    var t := [Taken(s.free[k], n)];
    var s' := AfterMalloc(s, size);
    forall x: int ensures Count(s'.free, x) + Count(s'.live, x) == Count(s'.regions, x) {
      AllotCount(s.free, k, n, x);
      CountConcat(s.live, t, x);
      assert Count(s.free, x) + Count(s.live, x) == Count(s.regions, x);
    }
    AllotBytes(s.free, k, n);
    BytesConcat(s.live, t);
  }

  lemma MallocAligned(s: HeapState, size: nat)
    requires Aligned(s.free) && Aligned(s.live) && Fits(s, size)
    ensures Aligned(AfterMalloc(s, size).free) && Aligned(AfterMalloc(s, size).live)
  {
    assert AlignUp(size) % 8 == 0;
    assert s.free[FirstFit(s.free, AlignUp(size))].addr % 8 == 0;
  }

  lemma MallocInv(s: HeapState, size: nat)
    requires Inv(s) && size < WORD_SPAN
    ensures Inv(AfterMalloc(s, size))
  {
    if Fits(s, size) {
      MallocTiled(s, size);
      MallocAligned(s, size);
    }
  }

  lemma {:induction false} CoalesceAligned(s: seq<Block>)
    requires Aligned(s)
    ensures Aligned(Coalesce(s))
    decreases |s|
  {
    if |s| >= 2 {
      if Touches(s[0], s[1]) {
        CoalesceAligned([Join(s[0], s[1])] + s[2..]);
      } else {
        CoalesceAligned(s[1..]);
      }
    }
  }

  lemma FreeInv(s: HeapState, ptr: nat)
    requires Inv(s) && Freeable(s, ptr)
    ensures Inv(AfterFree(s, ptr))
  {
    if ptr != 0 {
      var k := LiveIndex(s.live, ptr - HEADER);
      var b := s.live[k];
      var s' := AfterFree(s, ptr);
      assert s.live[k..k + 1] == [b];
      forall x: int ensures Count(s'.free, x) + Count(s'.live, x) == Count(s'.regions, x) {
        ReleaseCount(s.free, b, x);
        CountSplice(s.live, k, k + 1, [], x);
        assert Count(s.free, x) + Count(s.live, x) == Count(s.regions, x);
      }
      ReleaseBytes(s.free, b);
      BytesSplice(s.live, k, k + 1, []);
      CoalesceAligned(Place(s.free, b));
    }
  }

  lemma AddRegionInv(s: HeapState, b: Block)
    requires Inv(s) && Enabled(s, AddRegion(b))
    ensures Inv(AfterAddRegion(s, b))
  {
    var s' := AfterAddRegion(s, b);
    forall x: int ensures Count(s'.regions, x) <= 1
                  ensures Count(s'.free, x) + Count(s'.live, x) == Count(s'.regions, x)
    {
      CountConcat([b], s.regions, x);
      CountConcat([b], s.free, x);
      assert Count(s.regions, x) + Count([b], x) <= 1;
      assert Count(s.free, x) + Count(s.live, x) == Count(s.regions, x);
    }
    BytesConcat([b], s.regions);
    BytesConcat([b], s.free);
  }

  lemma StepInv(s: HeapState, op: Op)
    requires Inv(s) && Enabled(s, op)
    ensures Inv(Step(s, op))
  {
    match op
    case AddRegion(b) => AddRegionInv(s, b);
    case Malloc(size) => MallocInv(s, size);
    case Free(ptr) => FreeInv(s, ptr);
  }

  lemma {:induction false} RunInv(s: HeapState, ops: seq<Op>)
    requires Inv(s) && Legal(s, ops)
    ensures Inv(Run(s, ops))
    decreases |ops|
  {
    if ops != [] {
      StepInv(s, ops[0]);
      RunInv(Step(s, ops[0]), ops[1..]);
    }
  }

  /** In a tiled heap no two blocks overlap, whether free or live. */
  lemma TilingDisjoint(s: HeapState)
    requires RegionsDisjoint(s.regions) && Tiled(s)
    ensures AllDisjoint(s.free + s.live)
  {
    forall x: int ensures Count(s.free + s.live, x) <= 1 {
      CountConcat(s.free, s.live, x);
      assert Count(s.free, x) + Count(s.live, x) == Count(s.regions, x) <= 1;
    }
    DisjointByCount(s.free + s.live);
  }

  lemma TilingCovers(s: HeapState, x: int)
    requires Tiled(s)
    ensures Covered(s.free + s.live, x) <==> Covered(s.regions, x)
  {
    CountConcat(s.free, s.live, x);
    CountPositive(s.free + s.live, x);
    CountPositive(s.regions, x);
    assert Count(s.free, x) + Count(s.live, x) == Count(s.regions, x);
  }

  /** In every reachable state the blocks, free and live together, are pairwise disjoint,
      cover exactly the bytes of the regions, and have the same total size as they do. */
  lemma TilingOfEveryRun(ops: seq<Op>)
    requires Legal(EMPTY, ops)
    ensures var s := Run(EMPTY, ops);
            && AllDisjoint(s.free + s.live)
            && (forall x: int :: Covered(s.free + s.live, x) <==> Covered(s.regions, x))
            && Bytes(s.free) + Bytes(s.live) == Bytes(s.regions)
  {
    RunInv(EMPTY, ops);
    var s := Run(EMPTY, ops);
    TilingDisjoint(s);
    forall x: int ensures Covered(s.free + s.live, x) <==> Covered(s.regions, x) {
      TilingCovers(s, x);
    }
  }

  // ----- order -----

  lemma LiveSeparate(s: HeapState, k: nat)
    requires RegionsDisjoint(s.regions) && Tiled(s) && k < |s.live|
    ensures Confluence.Separate(s.free, [s.live[k]])
  {
    var b := s.live[k];
    forall x: int ensures Count(s.free, x) + Count([b], x) <= 1 {
      CountSplice(s.live, k, k + 1, [], x);
      assert s.live[k..k + 1] == [b];
      assert Count(s.free, x) + Count(s.live, x) == Count(s.regions, x) <= 1;
    }
  }

  /** kmalloc and kfree keep an ascending list ascending; kfree always leaves a merged one. */
  lemma StepOrdered(s: HeapState, op: Op)
    requires Inv(s) && Enabled(s, op) && Ordered(s.free) && !op.AddRegion?
    ensures Ordered(Step(s, op).free)
    ensures op.Free? && op.ptr != 0 ==> Coalesced(Step(s, op).free)
  {
    match op
    case Malloc(size) =>
      if Fits(s, size) {
        AllotOrdered(s.free, FirstFit(s.free, AlignUp(size)), AlignUp(size));
      }
    case Free(ptr) =>
      if ptr != 0 {
        var k := LiveIndex(s.live, ptr - HEADER);
        LiveSeparate(s, k);
        Confluence.ReleaseOrdered(s.free, s.live[k]);
      }
  }

  /** After kfree, in a list in any order, two free blocks touch exactly when two that were not
      neighbours in the list did once the block was in its place. */
  lemma FreeTouching(s: HeapState, ptr: nat)
    requires Inv(s) && Freeable(s, ptr) && ptr != 0
    ensures SomeTouch(AfterFree(s, ptr).free)
            <==> Stray(Place(s.free, s.live[LiveIndex(s.live, ptr - HEADER)]))
  {
    var k := LiveIndex(s.live, ptr - HEADER);
    LiveSeparate(s, k);
    Confluence.SeparateBlocks(s.free, s.live[k]);
    FreeDisjoint(s);
    ReleaseTouching(s.free, s.live[k]);
  }

  /** malloc_addblock keeps the list ascending exactly when the new region lies below every
      block of the list: regions have to be added from high to low. */
  lemma AddRegionOrdered(s: HeapState, b: Block)
    requires Ordered(s.free)
    ensures Ordered(AfterAddRegion(s, b).free) <==> (s.free == [] || b.End() <= s.free[0].addr)
  {
    var t := AfterAddRegion(s, b).free;
    if s.free != [] && b.End() <= s.free[0].addr {
      forall i, j | 0 <= i < j < |t| ensures t[i].End() <= t[j].addr {
        assert j > 1 ==> s.free[0].End() <= s.free[j - 1].addr;
        assert i > 0 ==> s.free[i - 1].End() <= s.free[j - 1].addr;
      }
    } else if s.free != [] {
      assert t[0] == b && t[1] == s.free[0];
    }
  }

  ghost predicate NoRegions(ops: seq<Op>) {
    forall i :: 0 <= i < |ops| ==> !ops[i].AddRegion?
  }

  ghost predicate NothingAtZero(s: HeapState) {
    Count(s.regions, 0) == 0
  }

  lemma NoBlockAtZero(s: HeapState, i: nat)
    requires Tiled(s) && NothingAtZero(s) && i < |s.free|
    ensures s.free[i].addr != 0
  {
    CountPositive(s.free, 0);
    assert Count(s.free, 0) + Count(s.live, 0) == Count(s.regions, 0);
    assert !s.free[i].Covers(0);
  }

  /** Above address 0, an ascending merged free list stays one through every run of kmalloc
      and kfree. */
  lemma {:induction false} RunStaysCanonical(s: HeapState, ops: seq<Op>)
    requires Inv(s) && Ordered(s.free) && Coalesced(s.free) && NothingAtZero(s)
    requires Legal(s, ops) && NoRegions(ops)
    ensures Ordered(Run(s, ops).free) && Coalesced(Run(s, ops).free)
    decreases |ops|
  {
    if ops != [] {
      var op := ops[0];
      assert !ops[0].AddRegion?;
      StepInv(s, op);
      StepOrdered(s, op);
      if op.Malloc? && Fits(s, op.size) {
        var k := FirstFit(s.free, AlignUp(op.size));
        NoBlockAtZero(s, k);
        FreeDisjoint(s);
        AllotCoalesced(s.free, k, AlignUp(op.size));
      }
      RunStaysCanonical(Step(s, op), ops[1..]);
    }
  }

  // ----- a list that is not ascending -----

  // two regions added from low to high, and the pieces freed high one first
  function ScatteringOps(): seq<Op> {
    [AddRegion(Block(8, 800)), AddRegion(Block(1000, 304)), Malloc(240), Malloc(104), Free(1024), Free(32)]
  }

  ghost predicate Leads(s: HeapState, op: Op, t: HeapState) {
    Enabled(s, op) && Step(s, op) == t
  }

  // the states that a run passes through
  lemma {:induction false} RunThrough(ops: seq<Op>, states: seq<HeapState>)
    requires |states| == |ops| + 1
    requires forall i :: 0 <= i < |ops| ==> Leads(states[i], ops[i], states[i + 1])
    ensures Legal(states[0], ops) && Run(states[0], ops) == states[|ops|]
    decreases |ops|
  {
    if ops != [] {
      forall i | 0 <= i < |ops[1..]|
        ensures Leads(states[1..][i], ops[1..][i], states[1..][i + 1])
      {
        assert Leads(states[i + 1], ops[i + 1], states[i + 1 + 1]);
      }
      RunThrough(ops[1..], states[1..]);
      assert Leads(states[0], ops[0], states[0 + 1]);
    }
  }

  lemma TwoRegions()
    ensures var low, high := Block(8, 800), Block(1000, 304);
            && Enabled(EMPTY, AddRegion(low)) && Enabled(AfterAddRegion(EMPTY, low), AddRegion(high))
  {
    var low, high := Block(8, 800), Block(1000, 304);
    assert AfterAddRegion(EMPTY, low).regions == [low];
    forall x: int ensures Count([], x) + Count([low], x) <= 1 && Count([low], x) + Count([high], x) <= 1 {
      CountOne(low, x);
      CountOne(high, x);
    }
  }

  lemma ScatteredMallocs(regions: seq<Block>)
    ensures var s := HeapState([Block(1000, 304), Block(8, 800)], [], regions);
            AfterMalloc(AfterMalloc(s, 240), 104)
            == HeapState([Block(1264, 40), Block(136, 672)], [Block(1000, 240), Block(8, 104)], regions)
  {
    var s := HeapState([Block(1000, 304), Block(8, 800)], [], regions);
    assert AlignUp(240) == 240 && FirstFit(s.free, 240) == 0;
    var t := AfterMalloc(s, 240);
    assert t == HeapState([Block(1264, 40), Block(8, 800)], [Block(1000, 240)], regions);
    assert AlignUp(104) == 104;
    SecondFits(Block(1264, 40), Block(8, 800), 104);
  }

  lemma SecondFits(a: Block, b: Block, n: nat)
    requires a.size < n <= b.size
    ensures FirstFit([a, b], n) == 1
  {
    assert [a, b][1..] == [b];
  }

  lemma ScatteredFrees(regions: seq<Block>)
    ensures var s := HeapState([Block(1264, 40), Block(136, 672)], [Block(1000, 240), Block(8, 104)], regions);
            && Freeable(s, 1024) && Freeable(AfterFree(s, 1024), 32)
            && AfterFree(AfterFree(s, 1024), 32)
               == HeapState([Block(8, 104), Block(1000, 304), Block(136, 672)], [], regions)
  {
    var s := HeapState([Block(1264, 40), Block(136, 672)], [Block(1000, 240), Block(8, 104)], regions);
    FirstReleased();
    assert LiveIndex(s.live, 1000) == 0;
    var t := AfterFree(s, 1024);
    assert t == HeapState([Block(1000, 304), Block(136, 672)], [Block(8, 104)], regions);
    SecondReleased();
    assert LiveIndex(t.live, 8) == 0;
  }

  lemma FirstReleased()
    ensures Release([Block(1264, 40), Block(136, 672)], Block(1000, 240)) == [Block(1000, 304), Block(136, 672)]
  {
    var free, b := [Block(1264, 40), Block(136, 672)], Block(1000, 240);
    assert InsertIndex(free, 1000) == 0;
    assert Place(free, b) == [b, Block(1264, 40)] + [Block(136, 672)];
    CoalesceJoin(b, Block(1264, 40), [Block(136, 672)]);
    CoalesceStays([Block(1000, 304), Block(136, 672)]);
    assert [Join(b, Block(1264, 40))] + [Block(136, 672)] == [Block(1000, 304), Block(136, 672)];
  }

  lemma SecondReleased()
    ensures Release([Block(1000, 304), Block(136, 672)], Block(8, 104))
            == [Block(8, 104), Block(1000, 304), Block(136, 672)]
  {
    var free, b := [Block(1000, 304), Block(136, 672)], Block(8, 104);
    assert InsertIndex(free, 8) == 0;
    assert Place(free, b) == [b, Block(1000, 304), Block(136, 672)];
    CoalesceStays([b, Block(1000, 304), Block(136, 672)]);
  }

  lemma SixOps(s0: HeapState, s1: HeapState, s2: HeapState, s3: HeapState, s4: HeapState, s5: HeapState,
               s6: HeapState, ops: seq<Op>)
    requires ops == ScatteringOps()
    requires Leads(s0, AddRegion(Block(8, 800)), s1) && Leads(s1, AddRegion(Block(1000, 304)), s2)
    requires Leads(s2, Malloc(240), s3) && Leads(s3, Malloc(104), s4)
    requires Leads(s4, Free(1024), s5) && Leads(s5, Free(32), s6)
    ensures Legal(s0, ops) && Run(s0, ops) == s6
  {
    SixSteps(ops, s0, s1, s2, s3, s4, s5, s6);
  }

  lemma SixSteps(ops: seq<Op>, s0: HeapState, s1: HeapState, s2: HeapState, s3: HeapState, s4: HeapState,
                 s5: HeapState, s6: HeapState)
    requires |ops| == 6 && Leads(s0, ops[0], s1) && Leads(s1, ops[1], s2) && Leads(s2, ops[2], s3)
    requires Leads(s3, ops[3], s4) && Leads(s4, ops[4], s5) && Leads(s5, ops[5], s6)
    ensures Legal(s0, ops) && Run(s0, ops) == s6
  {
    RunThrough(ops, [s0, s1, s2, s3, s4, s5, s6]);
  }

  lemma ScatteredStates() returns (s1: HeapState, s2: HeapState, s3: HeapState, s4: HeapState, s5: HeapState,
                                   s6: HeapState)
    ensures Leads(EMPTY, AddRegion(Block(8, 800)), s1) && Leads(s1, AddRegion(Block(1000, 304)), s2)
    ensures Leads(s2, Malloc(240), s3) && Leads(s3, Malloc(104), s4)
    ensures Leads(s4, Free(1024), s5) && Leads(s5, Free(32), s6)
    ensures s6.free == [Block(8, 104), Block(1000, 304), Block(136, 672)]
  {
    TwoRegions();
    s1 := AfterAddRegion(EMPTY, Block(8, 800));
    s2 := AfterAddRegion(s1, Block(1000, 304));
    assert s2.free == [Block(1000, 304), Block(8, 800)] && s2.live == [];
    ScatteredMallocs(s2.regions);
    s3 := AfterMalloc(s2, 240);
    s4 := AfterMalloc(s3, 104);
    ScatteredFrees(s2.regions);
    s5 := AfterFree(s4, 1024);
    s6 := AfterFree(s5, 32);
  }

  lemma ScatteredLegal()
    ensures Legal(EMPTY, ScatteringOps())
    ensures Run(EMPTY, ScatteringOps()).free == [Block(8, 104), Block(1000, 304), Block(136, 672)]
  {
    var s1, s2, s3, s4, s5, s6 := ScatteredStates();
    SixOps(EMPTY, s1, s2, s3, s4, s5, s6, ScatteringOps());
  }

  // the middle block is taken whole
  lemma MiddleTaken(a: Block, b: Block, c: Block)
    requires a.size < 304 == b.size
    ensures Fits(HeapState([a, b, c], [], []), 304) && FirstFit([a, b, c], AlignUp(304)) == 1
    ensures Allot([a, b, c], 1, AlignUp(304)) == [a, c]
  {
    assert AlignUp(304) == 304 && [a, b, c][1..] == [b, c];
  }

  /** A reachable merged list in which two blocks touch, and the allocation that makes them
      neighbours: no block is at address 0. */
  lemma ScatteredRun()
    ensures Legal(EMPTY, ScatteringOps())
    ensures var s := Run(EMPTY, ScatteringOps());
            && s.free == [Block(8, 104), Block(1000, 304), Block(136, 672)]
            && Coalesced(s.free) && SomeTouch(s.free)
            && AfterMalloc(s, 304).free == [Block(8, 104), Block(136, 672)]
            && !Coalesced([Block(8, 104), Block(136, 672)])
  {
    ScatteredLegal();
    ScatteredTouching([Block(8, 104), Block(1000, 304), Block(136, 672)], [Block(8, 104), Block(136, 672)]);
    MiddleTaken(Block(8, 104), Block(1000, 304), Block(136, 672));
  }

  lemma ScatteredTouching(s: seq<Block>, t: seq<Block>)
    requires s == [Block(8, 104), Block(1000, 304), Block(136, 672)] && t == [s[0], s[2]]
    ensures Coalesced(s) && SomeTouch(s) && !Coalesced(t)
  {
    assert Touches(s[0], s[2]) && Touches(t[0], t[0 + 1]);
  }

  /** kmalloc returns NULL exactly when nothing was asked for or no free block is big enough
      for the rounded request; then the heap is unchanged. */
  lemma MallocFails(s: HeapState, size: nat)
    ensures MallocResult(s, size) == 0 <==>
            size == 0 || forall i :: 0 <= i < |s.free| ==> s.free[i].size < AlignUp(size)
    ensures MallocResult(s, size) == 0 ==> AfterMalloc(s, size) == s
  {
  }

  ghost predicate IsFirstFit(free: seq<Block>, k: nat, n: nat) {
    k < |free| && free[k].size >= n && forall j :: 0 <= j < k ==> free[j].size < n
  }

  /** kmalloc takes the first block in list order that is big enough. The caller gets an
      8-aligned pointer to at least the rounded request and less than 56 bytes more; in an
      ascending list no block that is big enough lies lower. What remains of a split block
      keeps its end and its place in the list, with 32 bytes or more behind its header. */
  lemma MallocFirstFit(s: HeapState, size: nat, k: nat)
    requires Inv(s) && 0 < size < WORD_SPAN
    requires IsFirstFit(s.free, k, AlignUp(size))
    ensures var n, b, t := AlignUp(size), s.free[k], AfterMalloc(s, size);
            && MallocResult(s, size) == b.addr + 24 && MallocResult(s, size) % 8 == 0
            && MallocResult(s, size) + t.live[|s.live|].size == t.live[|s.live|].End()
            && |t.live| == |s.live| + 1 && t.live[..|s.live|] == s.live
            && t.live[|s.live|].addr == b.addr
            && n <= t.live[|s.live|].size < n + 56
            && (b.size - n >= 56 ==>
                  && t.live[|s.live|].size == n
                  && |t.free| == |s.free|
                  && t.free[k].addr == b.addr + 24 + n
                  && t.free[k].End() == b.End()
                  && t.free[k].size >= 32
                  && forall j :: 0 <= j < |s.free| && j != k ==> t.free[j] == s.free[j])
            && (b.size - n < 56 ==>
                  && t.live[|s.live|] == b
                  && t.free == s.free[..k] + s.free[k + 1..])
    ensures Ordered(s.free) ==>
              forall j :: 0 <= j < |s.free| && s.free[j].size >= AlignUp(size) ==> s.free[k].addr <= s.free[j].addr
  {
    AlignUpMeaning(size);
    assert FirstFit(s.free, AlignUp(size)) == k;
    assert s.free[..k] + [] + s.free[k + 1..] == s.free[..k] + s.free[k + 1..];
  }

  /** The caller can use all the bytes it asked for exactly when the rounding did not wrap. */
  lemma MallocBigEnough(s: HeapState, size: nat)
    requires size < WORD_SPAN && Fits(s, size)
    ensures size <= 0xFFFF_FFFF_FFFF_FFF8 ==> AfterMalloc(s, size).live[|s.live|].size >= size
    ensures size > 0xFFFF_FFFF_FFFF_FFF8 ==> AfterMalloc(s, size).live[|s.live|].size < 56
  {
    AlignUpMeaning(size);
  }

  // ----- kfree undoes kmalloc -----

  // no other live block has the header of the block just handed out
  lemma NewestIndex(s: HeapState, size: nat)
    requires Inv(s) && size < WORD_SPAN && Fits(s, size)
    ensures LiveIndex(AfterMalloc(s, size).live, MallocResult(s, size) - HEADER) == |s.live|
  {
    var t := AfterMalloc(s, size);
    MallocInv(s, size);
    TilingDisjoint(t);
    var b := t.live[|s.live|];
    forall j | 0 <= j < |s.live| ensures t.live[j].addr != b.addr {
      assert Disjoint((t.free + t.live)[|t.free| + j], (t.free + t.live)[|t.free| + |s.live|]);
    }
  }

  /** Freeing what was just allocated restores the whole state exactly when the free list, in
      whatever order, was merged and the allocation can be undone in it. In an ascending list
      that fails only when the request split a block with its header at address 0. */
  lemma MallocThenFree(s: HeapState, size: nat)
    requires Inv(s) && size < WORD_SPAN && Fits(s, size)
    ensures Freeable(AfterMalloc(s, size), MallocResult(s, size))
    ensures var k := FirstFit(s.free, AlignUp(size));
            AfterFree(AfterMalloc(s, size), MallocResult(s, size)) == s
            <==> Coalesced(s.free) && RoundTrip.Undoable(s.free, k, AlignUp(size))
    ensures Ordered(s.free) ==>
              var b := s.free[FirstFit(s.free, AlignUp(size))];
              AfterFree(AfterMalloc(s, size), MallocResult(s, size)) == s
              <==> Coalesced(s.free) && !(b.addr == 0 && Splits(b, AlignUp(size)))
  {
    var n := AlignUp(size);
    NewestIndex(s, size);
    FreeDisjoint(s);
    RoundTrip.MallocFreeRoundTrip(s.free, FirstFit(s.free, n), n);
    if Ordered(s.free) {
      RoundTrip.OrderedUndoable(s.free, FirstFit(s.free, n), n);
    }
    var t := AfterMalloc(s, size);
    assert t.live[..|s.live|] + [] + t.live[|s.live| + 1..] == s.live;
  }

  lemma FreeDisjoint(s: HeapState)
    requires RegionsDisjoint(s.regions) && Tiled(s)
    ensures AllDisjoint(s.free)
  {
    TilingDisjoint(s);
    forall i, j | 0 <= i < j < |s.free| ensures Disjoint(s.free[i], s.free[j]) {
      assert Disjoint((s.free + s.live)[i], (s.free + s.live)[j]);
    }
  }

  /** Freeing live blocks in any two orders ends in the same free list. */
  lemma FreeOrderIrrelevant(s: HeapState, p: seq<Block>, q: seq<Block>)
    requires Inv(s) && multiset(p) == multiset(q) && multiset(p) <= multiset(s.live)
    ensures Confluence.ReleaseAll(s.free, p) == Confluence.ReleaseAll(s.free, q)
  {
    forall x: int ensures Count(s.free, x) + Count(q, x) <= 1 {
      Confluence.CountSubset(q, s.live, x);
      assert Count(s.free, x) + Count(s.live, x) == Count(s.regions, x) <= 1;
    }
    Confluence.FreeOrderConfluence(s.free, p, q);
  }

  /** The calls of kfree for these blocks, first to last. */
  function FreeOps(bs: seq<Block>): (ops: seq<Op>)
    ensures |ops| == |bs|
    ensures forall i :: 0 <= i < |bs| ==> ops[i] == Free(bs[i].Payload())
  {
    seq(|bs|, i requires 0 <= i < |bs| => Free(bs[i].Payload()))
  }

  lemma LiveOwner(s: HeapState, b: Block)
    requires Inv(s) && b in s.live
    ensures LiveIndex(s.live, b.addr) < |s.live| && s.live[LiveIndex(s.live, b.addr)] == b
  {
    var k := LiveIndex(s.live, b.addr);
    var j :| 0 <= j < |s.live| && s.live[j] == b;
    LiveDistinct(s);
  }

  lemma LiveDistinct(s: HeapState)
    requires Inv(s)
    ensures forall i, j :: 0 <= i < j < |s.live| ==> s.live[i].addr != s.live[j].addr
  {
    TilingDisjoint(s);
    forall i, j | 0 <= i < j < |s.live| ensures s.live[i].addr != s.live[j].addr {
      assert Disjoint((s.free + s.live)[|s.free| + i], (s.free + s.live)[|s.free| + j]);
    }
  }

  lemma FreeOne(s: HeapState, b: Block)
    requires Inv(s) && b in s.live
    ensures Freeable(s, b.Payload())
    ensures AfterFree(s, b.Payload()).free == Release(s.free, b)
  {
    LiveOwner(s, b);
  }

  lemma FreeOneLive(s: HeapState, b: Block)
    requires Inv(s) && b in s.live && Freeable(s, b.Payload())
    ensures multiset(AfterFree(s, b.Payload()).live) == multiset(s.live) - multiset{b}
  {
    LiveOwner(s, b);
    var k := LiveIndex(s.live, b.addr);
    var rest := s.live[..k] + [] + s.live[k + 1..];
    assert AfterFree(s, b.Payload()).live == rest;
    LiveWithout(s.live, k);
  }

  lemma LiveWithout(live: seq<Block>, k: nat)
    requires k < |live|
    ensures multiset(live[..k] + [] + live[k + 1..]) == multiset(live) - multiset{live[k]}
  {
    Confluence.Without(live, k);
    assert live[..k] + [] + live[k + 1..] == live[..k] + live[k + 1..];
  }

  lemma HeadAndTail(bs: seq<Block>, m: multiset<Block>)
    requires bs != [] && multiset(bs) <= m
    ensures bs[0] in m && multiset(bs[1..]) <= m - multiset{bs[0]}
  {
    assert bs == [bs[0]] + bs[1..];
    assert multiset(bs) == multiset{bs[0]} + multiset(bs[1..]);
    assert bs[0] in multiset(bs);
  }

  lemma FirstStep(s: HeapState, op: Op, ops: seq<Op>)
    requires Enabled(s, op) && Legal(Step(s, op), ops)
    ensures Legal(s, [op] + ops) && Run(s, [op] + ops) == Run(Step(s, op), ops)
  {
    assert ([op] + ops)[1..] == ops;
  }

  lemma FreeOpsFirst(bs: seq<Block>)
    requires bs != []
    ensures FreeOps(bs) == [Free(bs[0].Payload())] + FreeOps(bs[1..])
  {
  }

  /** Freeing live blocks one call after the other is a legal run, and what it leaves is the
      free list that ReleaseAll describes. */
  lemma {:induction false} FreeRun(s: HeapState, bs: seq<Block>)
    requires Inv(s) && multiset(bs) <= multiset(s.live)
    ensures Legal(s, FreeOps(bs))
    ensures Run(s, FreeOps(bs)).free == Confluence.ReleaseAll(s.free, bs)
    decreases |bs|
  {
    if bs != [] {
      var b := bs[0];
      HeadAndTail(bs, multiset(s.live));
      FreeOne(s, b);
      FreeOneLive(s, b);
      FreeInv(s, b.Payload());
      var next := AfterFree(s, b.Payload());
      FreeRun(next, bs[1..]);
      FirstStep(s, Free(b.Payload()), FreeOps(bs[1..]));
      FreeOpsFirst(bs);
      Confluence.ReleaseFirst(s.free, bs);
    }
  }

  /** Two runs of kfree calls for the same blocks, in whatever orders, end with the same
      free list. The list they start from may be in any order too. */
  lemma FreeRunsConfluent(s: HeapState, p: seq<Block>, q: seq<Block>)
    requires Inv(s) && multiset(p) == multiset(q) && multiset(p) <= multiset(s.live)
    ensures Legal(s, FreeOps(p)) && Legal(s, FreeOps(q))
    ensures Run(s, FreeOps(p)).free == Run(s, FreeOps(q)).free
  {
    FreeRun(s, p);
    FreeRun(s, q);
    FreeOrderIrrelevant(s, p, q);
  }

  // the heap after malloc_addblock has been called for one region
  function OneRegion(region: Block): HeapState {
    HeapState([region], [], [region])
  }

  lemma OneRegionInv(region: Block)
    requires region.addr % 8 == 0 && region.End() < WORD_SPAN
    ensures Inv(OneRegion(region)) && AfterAddRegion(EMPTY, region) == OneRegion(region)
    ensures Ordered([region]) && Coalesced([region])
  {
    forall x: int ensures Count([region], x) <= 1 {
      CountOne(region, x);
    }
  }

  lemma {:induction false} RunRegions(s: HeapState, ops: seq<Op>)
    requires Legal(s, ops) && NoRegions(ops)
    ensures Run(s, ops).regions == s.regions
    decreases |ops|
  {
    if ops != [] {
      assert !ops[0].AddRegion?;
      RunRegions(Step(s, ops[0]), ops[1..]);
    }
  }

  // something is live, or nothing is left to merge
  ghost predicate LiveOrMerged(s: HeapState) {
    s.live != [] || Coalesced(s.free)
  }

  lemma {:induction false} RunOrdered(s: HeapState, ops: seq<Op>)
    requires Inv(s) && Ordered(s.free) && LiveOrMerged(s) && Legal(s, ops) && NoRegions(ops)
    ensures Ordered(Run(s, ops).free) && LiveOrMerged(Run(s, ops))
    decreases |ops|
  {
    if ops != [] {
      assert !ops[0].AddRegion?;
      StepInv(s, ops[0]);
      StepOrdered(s, ops[0]);
      RunOrdered(Step(s, ops[0]), ops[1..]);
    }
  }

  /** After any run of kmalloc and kfree in a heap seeded with an ascending merged list, freeing
      what is still live, in any order, gives that list back, unless a block of it at address 0
      is in pieces. */
  lemma SeedingRecovered(seeded: HeapState, ops: seq<Op>, order: seq<Block>)
    requires Inv(seeded) && seeded.live == [] && Ordered(seeded.free) && Coalesced(seeded.free)
    requires Legal(seeded, ops) && NoRegions(ops)
    requires multiset(order) == multiset(Run(seeded, ops).live)
    ensures var s := Run(seeded, ops);
            && Legal(s, FreeOps(order))
            && (Run(s, FreeOps(order)).free == seeded.free <==> Confluence.WholeAtZero(seeded.free, s.free + s.live))
  {
    var s := Run(seeded, ops);
    RunInv(seeded, ops);
    RunOrdered(seeded, ops);
    RunRegions(seeded, ops);
    FreeRun(s, order);
    FreeOrderIrrelevant(s, order, s.live);
    forall x: int ensures Count(s.free, x) + Count(s.live, x) == Count(seeded.free, x) {
      assert Count(seeded.free, x) + Count(seeded.live, x) == Count(seeded.regions, x);
      assert Count(s.free, x) + Count(s.live, x) == Count(s.regions, x);
    }
    Confluence.FreeingEverything(s.free, s.live, seeded.free);
  }

  /** A heap with one region: its single block comes back, unless it starts at address 0 and is
      in pieces. */
  lemma OneRegionRecovered(region: Block, ops: seq<Op>, order: seq<Block>)
    requires region.addr % 8 == 0 && region.End() < WORD_SPAN
    requires Legal(OneRegion(region), ops) && NoRegions(ops)
    requires multiset(order) == multiset(Run(OneRegion(region), ops).live)
    ensures var s := Run(OneRegion(region), ops);
            && Legal(s, FreeOps(order))
            && (Run(s, FreeOps(order)).free == [region]
                <==> region.addr != 0 || region in s.free || region in s.live)
  {
    OneRegionInv(region);
    SeedingRecovered(OneRegion(region), ops, order);
  }
}
