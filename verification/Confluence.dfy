/** The order of frees does not matter: for a list in any order, because placing blocks and
    merging commute; for an ascending list also because the result is a canonical form, which
    depends only on which bytes are free. */
module Confluence {
  import opened Blocks
  import opened Coalescing
  import opened Texts

  lemma OrderedTail(s: seq<Block>)
    requires Ordered(s) && s != []
    ensures Ordered(s[1..])
    ensures forall i :: 0 <= i < |s[1..]| ==> s[0].End() <= s[1..][i].addr
  {
  }

  lemma NothingBelow(s: seq<Block>, x: int)
    requires forall i :: 0 <= i < |s| ==> x < s[i].addr
    ensures Count(s, x) == 0
  {
    CountPositive(s, x);
  }

  /** The two lists agree on the block whose header is at address 0, if there is one. */
  ghost predicate SameAtZero(s: seq<Block>, t: seq<Block>) {
    forall b: Block :: b.addr == 0 ==> (b in s <==> b in t)
  }

  // the first free byte of the one list is not below the first of the other
  lemma FirstNotBelow(f: seq<Block>, g: seq<Block>)
    requires Ordered(f) && Ordered(g) && f != []
    requires forall x: int :: Count(f, x) == Count(g, x)
    ensures g != [] && g[0].addr <= f[0].addr
  {
    var x := f[0].addr;
    assert Count(f, x) == Count(g, x);
    if g == [] || x < g[0].addr {
      NothingBelow(g, x);
    }
  }

  // the first block of the one list does not end before the first of the other
  lemma FirstEndsNotBefore(f: seq<Block>, g: seq<Block>)
    requires Ordered(f) && Ordered(g) && f != [] && g != []
    requires Coalesced(f) && f[0].addr == g[0].addr
    requires SameAtZero(f, g)
    requires forall x: int :: Count(f, x) == Count(g, x)
    ensures g[0].End() <= f[0].End()
  {
    var x := f[0].End();
    assert f[0] in f;
    CoalescedTail(f);
    CountPositive(f, x);
    CountPositive(g, x);
    assert Count(f, x) == Count(g, x);
    assert g[0].Covers(x) ==> Count(g, x) > 0;
  }

  /** Two ascending lists without mergeable neighbours that cover the same bytes are the
      same list: the maximal free intervals, in order. */
  lemma {:induction false} CanonicalForm(f: seq<Block>, g: seq<Block>)
    requires Ordered(f) && Coalesced(f)
    requires Ordered(g) && Coalesced(g)
    requires SameAtZero(f, g)
    requires forall x: int :: Count(f, x) == Count(g, x)
    ensures f == g
    decreases |f|
  {
    if f != [] {
      FirstNotBelow(f, g);
    }
    if g != [] {
      FirstNotBelow(g, f);
    }
    if f != [] && g != [] {
      FirstEndsNotBefore(f, g);
      FirstEndsNotBefore(g, f);
      assert f[0] == g[0];
      OrderedTail(f);
      OrderedTail(g);
      CoalescedTail(f);
      CoalescedTail(g);
      forall x: int ensures Count(f[1..], x) == Count(g[1..], x) {
        assert Count(f, x) == Count(g, x);
      }
      forall b: Block | b.addr == 0 ensures b in f[1..] <==> b in g[1..] {
      }
      CanonicalForm(f[1..], g[1..]);
      assert f == [f[0]] + f[1..] && g == [g[0]] + g[1..];
    }
  }

  // ----- freeing many blocks -----

  /** kfree called on the blocks of bs, first to last. */
  ghost function ReleaseAll(free: seq<Block>, bs: seq<Block>): seq<Block>
    decreases |bs|
  {
    if bs == [] then free else ReleaseAll(Release(free, bs[0]), bs[1..])
  }

  lemma ReleaseFirst(free: seq<Block>, bs: seq<Block>)
    requires bs != []
    ensures ReleaseAll(free, bs) == ReleaseAll(Release(free, bs[0]), bs[1..])
  {
  }

  ghost predicate Separate(s: seq<Block>, t: seq<Block>) {
    forall x: int :: Count(s, x) + Count(t, x) <= 1
  }

  lemma SeparateBlocks(free: seq<Block>, b: Block)
    requires Separate(free, [b])
    ensures forall i :: 0 <= i < |free| ==> Disjoint(free[i], b)
  {
    forall i | 0 <= i < |free| ensures Disjoint(free[i], b) {
      var x := if free[i].addr < b.addr then b.addr else free[i].addr;
      assert Count(free, x) + Count([b], x) <= 1;
      CountPositive(free, x);
      assert [b][0].Covers(x) ==> Count([b], x) > 0;
    }
  }

  lemma ReleaseOrdered(free: seq<Block>, b: Block)
    requires Ordered(free) && Separate(free, [b])
    ensures Ordered(Release(free, b)) && Coalesced(Release(free, b))
  {
    SeparateBlocks(free, b);
    PlaceOrdered(free, b);
    CoalesceOrdered(Place(free, b));
    CoalesceCoalesced(Place(free, b));
  }

  lemma ReleaseAtZero(free: seq<Block>, b: Block, z: Block)
    requires z.addr == 0
    ensures z in Release(free, b) <==> z in free || z == b
  {
    CoalesceAtZero(Place(free, b), z);
    var k := InsertIndex(free, b.addr);
    assert free == free[..k] + free[k..];
  }

  /** The result of freeing a sequence of blocks into a list in any order: merged, covering
      exactly the bytes that were free before and those of the freed blocks, and ascending if
      the list was. */
  lemma {:induction false} ReleaseAllResult(free: seq<Block>, bs: seq<Block>)
    requires Separate(free, bs)
    ensures Ordered(free) ==> Ordered(ReleaseAll(free, bs))
    ensures bs != [] || Coalesced(free) ==> Coalesced(ReleaseAll(free, bs))
    ensures forall x: int :: Count(ReleaseAll(free, bs), x) == Count(free, x) + Count(bs, x)
    ensures forall z: Block :: z.addr == 0 ==> (z in ReleaseAll(free, bs) <==> z in free || z in bs)
    decreases |bs|
  {
    if bs != [] {
      var next := Release(free, bs[0]);
      forall x: int ensures Count(next, x) + Count(bs[1..], x) == Count(free, x) + Count(bs, x)
                    ensures Count(free, x) + Count([bs[0]], x) <= 1
                    ensures Count(next, x) + Count(bs[1..], x) <= 1
      {
        ReleaseCount(free, bs[0], x);
        CountOne(bs[0], x);
        assert Count(free, x) + Count(bs, x) <= 1;
      }
      CoalesceCoalesced(Place(free, bs[0]));
      if Ordered(free) {
        ReleaseOrdered(free, bs[0]);
      }
      ReleaseAllResult(next, bs[1..]);
      forall z: Block | z.addr == 0 ensures z in ReleaseAll(free, bs) <==> z in free || z in bs {
        ReleaseAtZero(free, bs[0], z);
        assert bs == [bs[0]] + bs[1..];
      }
    }
  }

  // q holds the first block of p somewhere, and the others around it
  lemma TakeFirst(p: seq<Block>, q: seq<Block>) returns (k: nat)
    requires multiset(p) <= multiset(q) && p != []
    ensures k < |q| && q[k] == p[0]
    ensures multiset(p[1..]) <= multiset(q[..k] + q[k + 1..])
    ensures multiset(p) == multiset(q) ==> multiset(p[1..]) == multiset(q[..k] + q[k + 1..])
  {
    assert p[0] in multiset(p);
    k :| 0 <= k < |q| && q[k] == p[0];
    Without(q, k);
    WithoutFirst(p);
  }

  lemma WithoutFirst(p: seq<Block>)
    requires p != []
    ensures multiset(p[1..]) == multiset(p) - multiset{p[0]}
  {
    assert p == [p[0]] + p[1..];
  }

  lemma Without(q: seq<Block>, k: nat)
    requires k < |q|
    ensures multiset(q[..k] + q[k + 1..]) == multiset(q) - multiset{q[k]}
  {
    assert q == q[..k] + [q[k]] + q[k + 1..];
  }

  lemma {:induction false} CountSubset(p: seq<Block>, q: seq<Block>, x: int)
    requires multiset(p) <= multiset(q)
    ensures Count(p, x) <= Count(q, x)
    decreases |p|
  {
    if p != [] {
      var k := TakeFirst(p, q);
      CountSubset(p[1..], q[..k] + q[k + 1..], x);
      CountWithout(q, k, x);
    }
  }

  lemma CountWithout(q: seq<Block>, k: nat, x: int)
    requires k < |q|
    ensures Count(q, x) == Count(q[..k] + q[k + 1..], x) + if q[k].Covers(x) then 1 else 0
  {
    CountSplice(q, k, k + 1, [], x);
    assert q[..k] + [] + q[k + 1..] == q[..k] + q[k + 1..] && q[k..k + 1] == [q[k]];
    CountOne(q[k], x);
  }

  // ----- the order of the calls, for lists in any order -----

  ghost predicate ClearOf(s: seq<Block>, b: Block) {
    forall i :: 0 <= i < |s| ==> Disjoint(s[i], b)
  }

  // the place of an address lies between two merged blocks
  ghost predicate MergedCut(s: seq<Block>, addr: nat) {
    var i, k := InsertIndex(s, addr), InsertIndex(Coalesce(s), addr);
    Coalesce(s)[..k] == Coalesce(s[..i]) && Coalesce(s)[k..] == Coalesce(s[i..])
  }

  lemma {:induction false} InsertMerged(s: seq<Block>, b: Block)
    requires ClearOf(s, b)
    ensures MergedCut(s, b.addr)
    decreases |s|
  {
    if |s| < 2 {
      assert InsertIndex(s, b.addr) == |s| || InsertIndex(s, b.addr) == 0;
    } else if s[0].addr > b.addr {
      CoalesceCoalesced(s);
      assert s[0..] == s && Coalesce(s)[0..] == Coalesce(s);
    } else if Touches(s[0], s[1]) {
      assert Disjoint(s[0], b) && Disjoint(s[1], b);
      ClearJoined(s, b);
      InsertMerged([Join(s[0], s[1])] + s[2..], b);
      CutJoined(s[0], s[1], s[2..], b.addr);
      assert s == [s[0], s[1]] + s[2..];
    } else {
      ClearTail(s, b);
      InsertMerged(s[1..], b);
      CutSkipped(s[0], s[1..], b.addr);
      assert s == [s[0]] + s[1..];
    }
  }

  lemma ClearTail(s: seq<Block>, b: Block)
    requires ClearOf(s, b) && s != []
    ensures ClearOf(s[1..], b)
  {
    forall i | 0 <= i < |s[1..]| ensures Disjoint(s[1..][i], b) {
      assert s[1..][i] == s[i + 1];
    }
  }

  lemma ClearJoined(s: seq<Block>, b: Block)
    requires ClearOf(s, b) && |s| >= 2 && Touches(s[0], s[1])
    ensures ClearOf([Join(s[0], s[1])] + s[2..], b)
  {
    var t := [Join(s[0], s[1])] + s[2..];
    assert Disjoint(s[0], b) && Disjoint(s[1], b);
    forall i | 0 <= i < |t| ensures Disjoint(t[i], b) {
      assert i > 0 ==> t[i] == s[i + 1];
    }
  }

  lemma CutJoined(x: Block, y: Block, rest: seq<Block>, addr: nat)
    requires Touches(x, y) && x.addr <= addr && y.addr <= addr
    requires MergedCut([Join(x, y)] + rest, addr)
    ensures MergedCut([x, y] + rest, addr)
  {
    var j, m := Join(x, y), InsertIndex(rest, addr);
    CoalesceJoin(x, y, rest);
    CutBehindPair(x, y, rest, addr);
    InsertBehind(j, rest, addr);
    CoalesceJoin(x, y, rest[..m]);
  }

  lemma CutBehindPair(x: Block, y: Block, rest: seq<Block>, addr: nat)
    requires x.addr <= addr && y.addr <= addr
    ensures var m, s := InsertIndex(rest, addr), [x, y] + rest;
            InsertIndex(s, addr) == m + 2 && s[..m + 2] == [x, y] + rest[..m] && s[m + 2..] == rest[m..]
  {
    var m := InsertIndex(rest, addr);
    InsertedAt([x, y] + rest, addr, m + 2);
  }

  lemma CutSkipped(x: Block, t: seq<Block>, addr: nat)
    requires (t != [] ==> !Touches(x, t[0])) && x.addr <= addr && MergedCut(t, addr)
    ensures MergedCut([x] + t, addr)
  {
    var i := InsertIndex(t, addr);
    CoalesceSkip(x, t);
    InsertBehind(x, t, addr);
    InsertBehind(x, Coalesce(t), addr);
    CoalesceSkip(x, t[..i]);
  }

  lemma InsertBehind(x: Block, t: seq<Block>, addr: nat)
    requires x.addr <= addr
    ensures var i := InsertIndex(t, addr);
            && InsertIndex([x] + t, addr) == i + 1
            && ([x] + t)[..i + 1] == [x] + t[..i] && ([x] + t)[i + 1..] == t[i..]
  {
    assert ([x] + t)[1..] == t;
  }

  /** A pass before a block is placed makes no difference to the pass after it. */
  lemma PlaceMerged(s: seq<Block>, b: Block)
    requires ClearOf(s, b)
    ensures Coalesce(Place(Coalesce(s), b)) == Coalesce(Place(s, b))
  {
    InsertMerged(s, b);
    var i := InsertIndex(s, b.addr);
    MergeAround(s[..i], b, s[i..]);
  }

  lemma MergeAround(u: seq<Block>, b: Block, v: seq<Block>)
    ensures Coalesce(Coalesce(u) + [b] + Coalesce(v)) == Coalesce(u + [b] + v)
  {
    var c := Coalesce(v);
    CoalesceFront(u, [b] + c);
    CoalesceBack(u + [b], v);
    Associative(Coalesce(u), [b], c);
    Associative(u, [b], c);
  }

  lemma PlaceBetween(u: seq<Block>, v: seq<Block>, b: Block)
    requires forall i :: 0 <= i < |u| ==> u[i].addr <= b.addr
    requires v != [] ==> v[0].addr > b.addr
    ensures Place(u + v, b) == u + ([b] + v)
  {
    InsertedAt(u + v, b.addr, |u|);
  }

  // the list cut at the places of two blocks
  lemma CutTwice(s: seq<Block>, a: nat, b: nat) returns (u: seq<Block>, m: seq<Block>, v: seq<Block>)
    requires a < b
    ensures s == u + (m + v)
    ensures (forall i :: 0 <= i < |u| ==> u[i].addr <= a) && (forall i :: 0 <= i < |m| ==> m[i].addr <= b)
    ensures (m != [] ==> m[0].addr > a) && (v != [] ==> v[0].addr > b)
  {
    var i, j := InsertIndex(s, a), InsertIndex(s, b);
    assert i <= j;
    u, m, v := s[..i], s[i..j], s[j..];
  }

  // the lower block goes in front, whichever comes first
  lemma PlaceInOrder(u: seq<Block>, a: Block, m: seq<Block>, b: Block, v: seq<Block>)
    requires a.addr < b.addr
    requires (forall i :: 0 <= i < |u| ==> u[i].addr <= a.addr) && (forall i :: 0 <= i < |m| ==> m[i].addr <= b.addr)
    requires (m != [] ==> m[0].addr > a.addr) && (v != [] ==> v[0].addr > b.addr)
    ensures Place(Place(u + (m + v), a), b) == Place(Place(u + (m + v), b), a)
  {
    PlaceLower(u, a, m, b, v);
    PlaceHigher(u, a, m, b, v);
  }

  lemma PlaceLower(u: seq<Block>, a: Block, m: seq<Block>, b: Block, v: seq<Block>)
    requires a.addr < b.addr
    requires (forall i :: 0 <= i < |u| ==> u[i].addr <= a.addr) && (forall i :: 0 <= i < |m| ==> m[i].addr <= b.addr)
    requires (m != [] ==> m[0].addr > a.addr) && (v != [] ==> v[0].addr > b.addr)
    ensures Place(Place(u + (m + v), a), b) == u + ([a] + (m + ([b] + v)))
  {
    PlaceBetween(u, m + v, a);
    Associative([a], m, v);
    Associative(u, [a] + m, v);
    PlaceBetween(u + ([a] + m), v, b);
    Associative(u, [a] + m, [b] + v);
    Associative([a], m, [b] + v);
  }

  lemma PlaceHigher(u: seq<Block>, a: Block, m: seq<Block>, b: Block, v: seq<Block>)
    requires a.addr < b.addr
    requires (forall i :: 0 <= i < |u| ==> u[i].addr <= a.addr) && (forall i :: 0 <= i < |m| ==> m[i].addr <= b.addr)
    requires (m != [] ==> m[0].addr > a.addr) && (v != [] ==> v[0].addr > b.addr)
    ensures Place(Place(u + (m + v), b), a) == u + ([a] + (m + ([b] + v)))
  {
    Associative(u, m, v);
    PlaceBetween(u + m, v, b);
    Associative(u, m, [b] + v);
    PlaceBetween(u, m + ([b] + v), a);
  }

  lemma PlaceCommutes(s: seq<Block>, a: Block, b: Block)
    requires a.addr != b.addr
    ensures Place(Place(s, a), b) == Place(Place(s, b), a)
  {
    if a.addr < b.addr {
      var u, m, v := CutTwice(s, a.addr, b.addr);
      PlaceInOrder(u, a, m, b, v);
    } else {
      var u, m, v := CutTwice(s, b.addr, a.addr);
      PlaceInOrder(u, b, m, a, v);
    }
  }

  lemma PlaceClear(s: seq<Block>, a: Block, b: Block)
    requires ClearOf(s, b) && Disjoint(a, b)
    ensures ClearOf(Place(s, a), b)
  {
  }

  /** Two calls of kfree commute. */
  lemma ReleaseCommutes(s: seq<Block>, a: Block, b: Block)
    requires ClearOf(s, a) && ClearOf(s, b) && Disjoint(a, b)
    ensures Release(Release(s, a), b) == Release(Release(s, b), a)
  {
    PlaceClear(s, a, b);
    PlaceClear(s, b, a);
    PlaceMerged(Place(s, a), b);
    PlaceMerged(Place(s, b), a);
    PlaceCommutes(s, a, b);
  }

  ghost predicate AllClear(s: seq<Block>, bs: seq<Block>) {
    && AllDisjoint(bs)
    && forall j :: 0 <= j < |bs| ==> ClearOf(s, bs[j])
  }

  /** The blocks of bs in their places, without any pass. */
  ghost function PlaceAll(free: seq<Block>, bs: seq<Block>): seq<Block>
    decreases |bs|
  {
    if bs == [] then free else PlaceAll(Place(free, bs[0]), bs[1..])
  }

  lemma PlaceFirstClear(s: seq<Block>, bs: seq<Block>)
    requires AllClear(s, bs) && bs != []
    ensures AllClear(Place(s, bs[0]), bs[1..])
  {
    forall j | 0 <= j < |bs[1..]| ensures ClearOf(Place(s, bs[0]), bs[1..][j]) {
      assert Disjoint(bs[0], bs[j + 1]);
      PlaceClear(s, bs[0], bs[j + 1]);
    }
  }

  // lists that the pass does not tell apart stay so
  lemma {:induction false} PlaceAllMerged(s: seq<Block>, t: seq<Block>, bs: seq<Block>)
    requires AllClear(s, bs) && AllClear(t, bs) && Coalesce(s) == Coalesce(t)
    ensures Coalesce(PlaceAll(s, bs)) == Coalesce(PlaceAll(t, bs))
    decreases |bs|
  {
    if bs != [] {
      PlaceMerged(s, bs[0]);
      PlaceMerged(t, bs[0]);
      PlaceFirstClear(s, bs);
      PlaceFirstClear(t, bs);
      PlaceAllMerged(Place(s, bs[0]), Place(t, bs[0]), bs[1..]);
    }
  }
  // a block from the middle may be placed first
  lemma {:induction false} PlaceAnyFirst(s: seq<Block>, bs: seq<Block>, k: nat)
    requires AllDisjoint(bs) && k < |bs|
    ensures PlaceAll(s, bs) == PlaceAll(Place(s, bs[k]), bs[..k] + bs[k + 1..])
    decreases k
  {
    var rest := bs[..k] + bs[k + 1..];
    if k == 0 {
      assert rest == bs[1..];
    } else {
      DisjointTail(bs);
      PlaceAnyFirst(Place(s, bs[0]), bs[1..], k - 1);
      assert Disjoint(bs[0], bs[k]);
      PlaceCommutes(s, bs[0], bs[k]);
      WithoutTail(bs, k);
    }
  }

  lemma WithoutTail(bs: seq<Block>, k: nat)
    requires 0 < k < |bs|
    ensures var rest := bs[..k] + bs[k + 1..];
            rest[0] == bs[0] && rest[1..] == bs[1..][..k - 1] + bs[1..][k..]
  {
  }

  lemma DisjointTail(bs: seq<Block>)
    requires AllDisjoint(bs) && bs != []
    ensures AllDisjoint(bs[1..])
  {
    forall i, j | 0 <= i < j < |bs[1..]| ensures Disjoint(bs[1..][i], bs[1..][j]) {
      assert Disjoint(bs[i + 1], bs[j + 1]);
    }
  }

  lemma DisjointWithout(bs: seq<Block>, k: nat)
    requires AllDisjoint(bs) && k < |bs|
    ensures AllDisjoint(bs[..k] + bs[k + 1..])
  {
    var rest := bs[..k] + bs[k + 1..];
    forall i, j | 0 <= i < j < |rest| ensures Disjoint(rest[i], rest[j]) {
      assert rest[i] == bs[if i < k then i else i + 1] && rest[j] == bs[if j < k then j else j + 1];
    }
  }

  lemma SameLength(p: seq<Block>, q: seq<Block>)
    requires multiset(p) == multiset(q)
    ensures |p| == |q|
  {
    assert |multiset(p)| == |p| && |multiset(q)| == |q|;
  }

  /** Without passes, the order in which disjoint blocks are placed does not matter. */
  lemma {:induction false} PlaceOrder(s: seq<Block>, p: seq<Block>, q: seq<Block>)
    requires AllDisjoint(q) && multiset(p) == multiset(q)
    ensures PlaceAll(s, p) == PlaceAll(s, q)
    decreases |p|
  {
    SameLength(p, q);
    if p != [] {
      var k := TakeFirst(p, q);
      DisjointWithout(q, k);
      PlaceOrder(Place(s, p[0]), p[1..], q[..k] + q[k + 1..]);
      PlaceAnyFirst(s, q, k);
    } else {
      assert q == [];
    }
  }

  /** Running the pass after every block is running it once, when all are placed. */
  lemma {:induction false} OnePassAtTheEnd(free: seq<Block>, bs: seq<Block>)
    requires AllClear(free, bs)
    ensures Coalesce(ReleaseAll(free, bs)) == Coalesce(PlaceAll(free, bs))
    ensures bs != [] ==> ReleaseAll(free, bs) == Coalesce(PlaceAll(free, bs))
    decreases |bs|
  {
    if bs != [] {
      var placed, next := Place(free, bs[0]), Release(free, bs[0]);
      PlaceFirstClear(free, bs);
      MergedClear(placed, bs[1..]);
      OnePassAtTheEnd(next, bs[1..]);
      CoalesceIdempotent(placed);
      PlaceAllMerged(next, placed, bs[1..]);
      CoalesceIdempotent(PlaceAll(free, bs));
    }
  }

  lemma {:induction false} MergedClearOne(s: seq<Block>, b: Block)
    requires ClearOf(s, b)
    ensures ClearOf(Coalesce(s), b)
    decreases |s|
  {
    if |s| >= 2 {
      if Touches(s[0], s[1]) {
        ClearJoined(s, b);
        MergedClearOne([Join(s[0], s[1])] + s[2..], b);
      } else {
        assert Disjoint(s[0], b);
        ClearTail(s, b);
        MergedClearOne(s[1..], b);
      }
    }
  }

  lemma MergedClear(s: seq<Block>, bs: seq<Block>)
    requires AllClear(s, bs)
    ensures AllClear(Coalesce(s), bs)
  {
    forall j | 0 <= j < |bs| ensures ClearOf(Coalesce(s), bs[j]) {
      MergedClearOne(s, bs[j]);
    }
  }

  lemma {:induction false} SeparateClear(s: seq<Block>, bs: seq<Block>)
    requires Separate(s, bs)
    ensures AllClear(s, bs)
  {
    forall x: int ensures Count(bs, x) <= 1 {
      assert Count(s, x) + Count(bs, x) <= 1;
    }
    DisjointByCount(bs);
    forall j | 0 <= j < |bs| ensures ClearOf(s, bs[j]) {
      forall x: int ensures Count(s, x) + Count([bs[j]], x) <= 1 {
        assert Count(s, x) + Count(bs, x) <= 1;
        CountPositive(bs, x);
        CountOne(bs[j], x);
      }
      SeparateBlocks(s, bs[j]);
    }
  }

  /** Blocks freed in two different orders leave the same free list, whatever the order of
      the list they are freed into. */
  lemma FreeOrderConfluence(free: seq<Block>, p: seq<Block>, q: seq<Block>)
    requires Separate(free, q) && multiset(p) == multiset(q)
    ensures ReleaseAll(free, p) == ReleaseAll(free, q)
  {
    SameLength(p, q);
    SeparatePermuted(free, p, q);
    SeparateClear(free, p);
    SeparateClear(free, q);
    OnePassAtTheEnd(free, p);
    OnePassAtTheEnd(free, q);
    PlaceOrder(free, p, q);
  }

  lemma SeparatePermuted(free: seq<Block>, p: seq<Block>, q: seq<Block>)
    requires Separate(free, q) && multiset(p) == multiset(q)
    ensures Separate(free, p)
  {
    forall x: int ensures Count(free, x) + Count(p, x) <= 1 {
      CountSubset(p, q, x);
      assert Count(free, x) + Count(q, x) <= 1;
    }
  }

  // a block of the list whose header is at address 0 is still in one piece
  ghost predicate WholeAtZero(seeded: seq<Block>, owned: seq<Block>) {
    forall z :: z in seeded && z.addr == 0 ==> z in owned
  }

  lemma OrderedSeparate(free: seq<Block>, live: seq<Block>, seeded: seq<Block>)
    requires Ordered(seeded)
    requires forall x: int :: Count(free, x) + Count(live, x) == Count(seeded, x)
    ensures Separate(free, live)
  {
    DisjointByCount(seeded) by {
      forall i, j | 0 <= i < j < |seeded| ensures Disjoint(seeded[i], seeded[j]) {
      }
    }
    forall x: int ensures Count(free, x) + Count(live, x) <= 1 {
      assert Count(free, x) + Count(live, x) == Count(seeded, x) <= 1;
    }
  }

  // an ascending list that covers byte 0 has one block there
  lemma AtZero(r: seq<Block>, seeded: seq<Block>, z: Block)
    requires Ordered(r) && WholeAtZero(seeded, r) && z in r && z.addr == 0
    requires Count(r, 0) == Count(seeded, 0)
    ensures z in seeded
  {
    var i :| 0 <= i < |r| && r[i] == z;
    assert r[i].Covers(0);
    CountPositive(r, 0);
    CountPositive(seeded, 0);
    var j :| 0 <= j < |seeded| && seeded[j].Covers(0);
    var n :| 0 <= n < |r| && r[n] == seeded[j];
    assert i == n;
  }

  /** Freeing every live block gives back the ascending merged list that the heap was seeded
      with, exactly when a call was made or nothing is left to merge, and a block of it at
      address 0 has not been split: the pass never merges into a block whose header is at
      address 0. */
  lemma FreeingEverything(free: seq<Block>, live: seq<Block>, seeded: seq<Block>)
    requires Ordered(free) && Ordered(seeded) && Coalesced(seeded)
    requires forall x: int :: Count(free, x) + Count(live, x) == Count(seeded, x)
    ensures ReleaseAll(free, live) == seeded
            <==> (live != [] || Coalesced(free)) && WholeAtZero(seeded, free + live)
  {
    OrderedSeparate(free, live, seeded);
    ReleaseAllResult(free, live);
    var r := ReleaseAll(free, live);
    assert WholeAtZero(seeded, free + live) <==> WholeAtZero(seeded, r);
    if (live != [] || Coalesced(free)) && WholeAtZero(seeded, r) {
      forall x: int ensures Count(r, x) == Count(seeded, x) {
        assert Count(free, x) + Count(live, x) == Count(seeded, x);
      }
      forall z: Block | z.addr == 0 ensures z in r <==> z in seeded {
        if z in r {
          AtZero(r, seeded, z);
        }
      }
      CanonicalForm(r, seeded);
    }
  }
}
