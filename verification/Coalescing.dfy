/** What the defragmenting pass and the two list updates keep: the bytes covered, the order
    by address, and the absence of mergeable neighbours. */
module Coalescing {
  import opened Blocks

  // ----- the pass -----

  lemma {:induction false} CoalesceCount(s: seq<Block>, x: int)
    ensures Count(Coalesce(s), x) == Count(s, x)
    decreases |s|
  {
    if |s| >= 2 {
      if Touches(s[0], s[1]) {
        var j := [Join(s[0], s[1])] + s[2..];
        CoalesceCount(j, x);
        assert j[1..] == s[1..][1..];
      } else {
        CoalesceCount(s[1..], x);
        assert ([s[0]] + Coalesce(s[1..]))[1..] == Coalesce(s[1..]);
      }
    }
  }

  lemma {:induction false} CoalesceBytes(s: seq<Block>)
    ensures Bytes(Coalesce(s)) == Bytes(s)
    decreases |s|
  {
    if |s| >= 2 {
      if Touches(s[0], s[1]) {
        var j := [Join(s[0], s[1])] + s[2..];
        CoalesceBytes(j);
        assert j[1..] == s[1..][1..];
      } else {
        CoalesceBytes(s[1..]);
        assert ([s[0]] + Coalesce(s[1..]))[1..] == Coalesce(s[1..]);
      }
    }
  }

  /** The first block keeps its address, and no neighbours are left to merge. */
  lemma {:induction false} CoalesceCoalesced(s: seq<Block>)
    ensures Coalesced(Coalesce(s))
    ensures s != [] ==> Coalesce(s) != [] && Coalesce(s)[0].addr == s[0].addr
    decreases |s|
  {
    if |s| >= 2 {
      if Touches(s[0], s[1]) {
        CoalesceCoalesced([Join(s[0], s[1])] + s[2..]);
      } else {
        CoalesceCoalesced(s[1..]);
      }
    }
  }

  /** A list with nothing to merge passes unchanged, so one pass is enough for ever. */
  lemma {:induction false} CoalesceFixed(s: seq<Block>)
    ensures Coalesced(s) <==> Coalesce(s) == s
  {
    if Coalesced(s) {
      CoalesceStays(s);
    }
    CoalesceCoalesced(s);
  }

  lemma {:induction false} CoalesceStays(s: seq<Block>)
    requires Coalesced(s)
    ensures Coalesce(s) == s
  {
    if |s| >= 2 {
      assert !Touches(s[0], s[0 + 1]);
      forall i | 0 <= i < |s[1..]| - 1 ensures !Touches(s[1..][i], s[1..][i + 1]) {
        assert !Touches(s[i + 1], s[i + 1 + 1]);
      }
      CoalesceStays(s[1..]);
    }
  }

  lemma CoalesceIdempotent(s: seq<Block>)
    ensures Coalesce(Coalesce(s)) == Coalesce(s)
  {
    CoalesceCoalesced(s);
    CoalesceStays(Coalesce(s));
  }

  lemma {:induction false} CoalesceOrdered(s: seq<Block>)
    requires Ordered(s)
    ensures Ordered(Coalesce(s))
    ensures s != [] ==> Coalesce(s) != [] && Coalesce(s)[0].addr == s[0].addr
    decreases |s|
  {
    if |s| >= 2 {
      if Touches(s[0], s[1]) {
        CoalesceOrdered([Join(s[0], s[1])] + s[2..]);
      } else {
        CoalesceOrdered(s[1..]);
        var t := Coalesce(s[1..]);
        forall j | 0 <= j < |t| ensures s[0].End() <= t[j].addr {
          assert j > 0 ==> t[0].End() <= t[j].addr;
        }
      }
    }
  }

  lemma CoalescedTail(s: seq<Block>)
    requires Coalesced(s) && s != []
    ensures Coalesced(s[1..])
    ensures |s| >= 2 ==> !Touches(s[0], s[1])
  {
    forall i | 0 <= i < |s[1..]| - 1 ensures !Touches(s[1..][i], s[1..][i + 1]) {
      assert !Touches(s[i + 1], s[i + 1 + 1]);
    }
    if |s| >= 2 {
      assert !Touches(s[0], s[0 + 1]);
    }
  }

  /** A prefix with nothing to merge is passed over: only its last block can absorb. */
  lemma {:induction false} CoalesceAfterPrefix(s: seq<Block>, t: seq<Block>)
    requires Coalesced(s)
    requires s != [] && t != [] ==> !Touches(s[|s| - 1], t[0])
    ensures Coalesce(s + t) == s + Coalesce(t)
  {
    if s == [] {
      assert s + t == t;
      assert s + Coalesce(t) == Coalesce(t);
    } else if t == [] {
      assert s + t == s;
      CoalesceStays(s);
    } else {
      CoalescedTail(s);
      CoalesceAfterPrefix(s[1..], t);
      var u := s + t;
      assert u[0] == s[0] && u[1..] == s[1..] + t;
      assert Coalesce(u) == [u[0]] + Coalesce(u[1..]);
      assert [s[0]] + (s[1..] + Coalesce(t)) == s + Coalesce(t);
    }
  }

  // ----- merging a part first -----

  /** A part in front may be merged before the whole is. */
  lemma {:induction false} CoalesceFront(a: seq<Block>, b: seq<Block>)
    ensures Coalesce(Coalesce(a) + b) == Coalesce(a + b)
    decreases |a|
  {
    if |a| >= 2 {
      if Touches(a[0], a[1]) {
        var j := [Join(a[0], a[1])] + a[2..];
        CoalesceFront(j, b);
        assert (a + b)[2..] == a[2..] + b;
        assert [Join(a[0], a[1])] + (a[2..] + b) == j + b;
      } else {
        CoalesceFront(a[1..], b);
        FrontSkip(a[0], a[1..], b);
        assert [a[0]] + a[1..] == a;
      }
    }
  }

  lemma FrontSkip(x: Block, t: seq<Block>, b: seq<Block>)
    requires t != [] && !Touches(x, t[0]) && Coalesce(Coalesce(t) + b) == Coalesce(t + b)
    ensures Coalesce(Coalesce([x] + t) + b) == Coalesce([x] + t + b)
  {
    CoalesceCoalesced(t);
    CoalesceSkip(x, t);
    CoalesceSkip(x, Coalesce(t) + b);
    CoalesceSkip(x, t + b);
    BehindOne(x, Coalesce(t), b);
    BehindOne(x, t, b);
  }

  lemma BehindOne(x: Block, t: seq<Block>, b: seq<Block>)
    ensures [x] + t + b == [x] + (t + b)
  {
  }

  // a block that does not touch its successor is passed over
  lemma CoalesceSkip(x: Block, t: seq<Block>)
    requires t != [] ==> !Touches(x, t[0])
    ensures Coalesce([x] + t) == [x] + Coalesce(t)
  {
    assert ([x] + t)[1..] == t;
  }

  lemma CoalesceJoin(x: Block, y: Block, t: seq<Block>)
    requires Touches(x, y)
    ensures Coalesce([x, y] + t) == Coalesce([Join(x, y)] + t)
  {
    assert ([x, y] + t)[2..] == t;
  }

  // the same for the part behind one block
  lemma {:induction false} CoalesceBehind(x: Block, b: seq<Block>)
    ensures Coalesce([x] + Coalesce(b)) == Coalesce([x] + b)
    decreases |b|
  {
    CoalesceCoalesced(b);
    if |b| >= 2 {
      if !Touches(x, b[0]) {
        CoalesceSkip(x, b);
        CoalesceSkip(x, Coalesce(b));
        CoalesceIdempotent(b);
      } else if Touches(b[0], b[1]) {
        var j, rest := Join(b[0], b[1]), b[2..];
        CoalesceBehind(x, [j] + rest);
        JoinTwice(x, b[0], b[1], rest);
        assert [x, b[0], b[1]] + rest == [x] + b && [x, j] + rest == [x] + ([j] + rest);
      } else {
        CoalesceBehind(Join(x, b[0]), b[1..]);
        JoinFront(x, b[0], b[1..]);
        JoinFront(x, b[0], Coalesce(b[1..]));
        assert [b[0]] + b[1..] == b;
      }
    }
  }

  lemma JoinFront(x: Block, y: Block, t: seq<Block>)
    requires Touches(x, y)
    ensures Coalesce([x] + ([y] + t)) == Coalesce([Join(x, y)] + t)
  {
    CoalesceJoin(x, y, t);
    PairInFront(x, y, t);
  }

  lemma PairInFront(x: Block, y: Block, t: seq<Block>)
    ensures [x] + ([y] + t) == [x, y] + t
  {
  }

  // three in a row are joined from the left or from the right
  lemma JoinTwice(x: Block, y: Block, z: Block, rest: seq<Block>)
    requires Touches(x, y) && Touches(y, z)
    ensures Coalesce([x, y, z] + rest) == Coalesce([x, Join(y, z)] + rest)
  {
    assert [x, y, z] + rest == [x, y] + ([z] + rest);
    CoalesceJoin(x, y, [z] + rest);
    assert [Join(x, y)] + ([z] + rest) == [Join(x, y), z] + rest;
    CoalesceJoin(Join(x, y), z, rest);
    CoalesceJoin(x, Join(y, z), rest);
  }

  /** A part behind may be merged before the whole is. */
  lemma {:induction false} CoalesceBack(a: seq<Block>, b: seq<Block>)
    ensures Coalesce(a + Coalesce(b)) == Coalesce(a + b)
    decreases |a|
  {
    if a == [] {
      CoalesceIdempotent(b);
      assert a + b == b && a + Coalesce(b) == Coalesce(b);
    } else {
      var c := Coalesce(b);
      CoalesceBack(a[1..], b);
      CoalesceBehind(a[0], a[1..] + c);
      CoalesceBehind(a[0], a[1..] + b);
      assert [a[0]] + (a[1..] + c) == a + c;
      assert [a[0]] + (a[1..] + b) == a + b;
    }
  }

  /** Blocks with their header at address 0 are neither created, resized nor absorbed. */
  lemma {:induction false} CoalesceAtZero(s: seq<Block>, b: Block)
    requires b.addr == 0
    ensures b in Coalesce(s) <==> b in s
    decreases |s|
  {
    if |s| >= 2 {
      if Touches(s[0], s[1]) {
        var j := [Join(s[0], s[1])] + s[2..];
        CoalesceAtZero(j, b);
        assert s == [s[0], s[1]] + s[2..];
        assert j[0] != b && s[0] != b && s[1] != b;
      } else {
        CoalesceAtZero(s[1..], b);
        assert s == [s[0]] + s[1..];
      }
    }
  }

  // ----- inserting a freed block -----

  // the insertion stops at the first higher block
  lemma InsertedAt(t: seq<Block>, addr: nat, k: nat)
    requires k <= |t|
    requires forall j :: 0 <= j < k ==> t[j].addr <= addr
    requires k < |t| ==> t[k].addr > addr
    ensures InsertIndex(t, addr) == k
  {
  }

  lemma PlaceCount(free: seq<Block>, b: Block, x: int)
    ensures Count(Place(free, b), x) == Count(free, x) + Count([b], x)
  {
    var k := InsertIndex(free, b.addr);
    CountSplice(free, k, k, [b], x);
  }

  lemma PlaceBytes(free: seq<Block>, b: Block)
    ensures Bytes(Place(free, b)) == Bytes(free) + Bytes([b])
  {
    var k := InsertIndex(free, b.addr);
    BytesSplice(free, k, k, [b]);
  }

  lemma PlaceOrdered(free: seq<Block>, b: Block)
    requires Ordered(free)
    requires forall i :: 0 <= i < |free| ==> Disjoint(free[i], b)
    ensures Ordered(Place(free, b))
  {
  }

  lemma ReleaseCount(free: seq<Block>, b: Block, x: int)
    ensures Count(Release(free, b), x) == Count(free, x) + Count([b], x)
  {
    CoalesceCount(Place(free, b), x);
    PlaceCount(free, b, x);
  }

  lemma ReleaseBytes(free: seq<Block>, b: Block)
    ensures Bytes(Release(free, b)) == Bytes(free) + Bytes([b])
  {
    CoalesceBytes(Place(free, b));
    PlaceBytes(free, b);
  }

  // ----- taking a block -----

  lemma AllotCount(free: seq<Block>, k: nat, n: nat, x: int)
    requires k < |free| && n <= free[k].size
    ensures Count(Allot(free, k, n), x) + Count([Taken(free[k], n)], x) == Count(free, x)
  {
    var b := free[k];
    assert free[k..k + 1] == [b];
    var t := if Splits(b, n) then [Remainder(b, n)] else [];
    CountSplice(free, k, k + 1, t, x);
  }

  lemma AllotBytes(free: seq<Block>, k: nat, n: nat)
    requires k < |free| && n <= free[k].size
    ensures Bytes(Allot(free, k, n)) + Bytes([Taken(free[k], n)]) == Bytes(free)
  {
    var b := free[k];
    assert free[k..k + 1] == [b];
    var t := if Splits(b, n) then [Remainder(b, n)] else [];
    BytesSplice(free, k, k + 1, t);
  }

  lemma AllotOrdered(free: seq<Block>, k: nat, n: nat)
    requires Ordered(free)
    requires k < |free| && n <= free[k].size
    ensures Ordered(Allot(free, k, n))
  {
  }

  /** An allocation from a merged list, in any order, leaves mergeable neighbours behind in two
      cases only: it splits a block at address 0 that the pass was not able to merge with the
      block behind it, or it takes a whole block from between two that touch. */
  lemma AllotCoalesced(free: seq<Block>, k: nat, n: nat)
    requires AllDisjoint(free) && Coalesced(free)
    requires k < |free| && n <= free[k].size
    ensures Coalesced(Allot(free, k, n)) <==>
            if Splits(free[k], n)
            then !(free[k].addr == 0 && k + 1 < |free| && free[k].End() == free[k + 1].addr)
            else !(0 < k && k + 1 < |free| && Touches(free[k - 1], free[k + 1]))
  {
    if Splits(free[k], n) {
      SplitCoalesced(free, k, n);
    } else {
      WholeCoalesced(free, k);
    }
  }

  lemma SplitCoalesced(free: seq<Block>, k: nat, n: nat)
    requires AllDisjoint(free) && Coalesced(free)
    requires k < |free| && n <= free[k].size && Splits(free[k], n)
    ensures Coalesced(Allot(free, k, n))
            <==> !(free[k].addr == 0 && k + 1 < |free| && free[k].End() == free[k + 1].addr)
  {
    var t, b := Allot(free, k, n), free[k];
    forall i | 0 <= i < |t| - 1 && i != k ensures !Touches(t[i], t[i + 1]) {
      assert !Touches(free[i], free[i + 1]);
      assert Disjoint(free[i], free[i + 1]);
    }
    if k + 1 < |free| {
      assert !Touches(free[k], free[k + 1]);
      assert t[k] == Remainder(b, n) && t[k + 1] == free[k + 1];
      assert Touches(t[k], t[k + 1]) <==> b.End() == free[k + 1].addr;
    }
  }

  lemma WholeCoalesced(free: seq<Block>, k: nat)
    requires Coalesced(free) && k < |free|
    ensures Coalesced(free[..k] + [] + free[k + 1..])
            <==> !(0 < k && k + 1 < |free| && Touches(free[k - 1], free[k + 1]))
  {
    var t := free[..k] + [] + free[k + 1..];
    forall i | 0 <= i < |t| - 1 && i + 1 != k ensures !Touches(t[i], t[i + 1]) {
      if i + 1 < k {
        assert !Touches(free[i], free[i + 1]);
      } else {
        assert !Touches(free[i + 1], free[i + 1 + 1]);
      }
    }
    if 0 < k && k + 1 < |free| {
      assert t[k - 1] == free[k - 1] && t[k - 1 + 1] == free[k + 1];
    }
  }

  // ----- blocks that touch without being neighbours -----

  /** Two blocks that touch but do not follow each other in the list, so that the pass does not
      merge them. */
  ghost predicate Stray(s: seq<Block>) {
    exists i, j :: 0 <= i < |s| && 0 <= j < |s| && j != i + 1 && Touches(s[i], s[j])
  }

  ghost predicate SomeTouch(s: seq<Block>) {
    exists i, j :: 0 <= i < |s| && 0 <= j < |s| && Touches(s[i], s[j])
  }

  // s with the blocks at k and k + 1 joined
  function JoinedAt(s: seq<Block>, k: nat): seq<Block>
    requires k + 1 < |s|
  {
    s[..k] + [Join(s[k], s[k + 1])] + s[k + 2..]
  }

  // where the block at i ends up when those at k and k + 1 are joined
  function IndexOf(i: nat, k: nat): nat { if i <= k then i else i - 1 }

  lemma JoinedDisjoint(s: seq<Block>, k: nat)
    requires AllDisjoint(s) && k + 1 < |s| && Touches(s[k], s[k + 1])
    ensures AllDisjoint(JoinedAt(s, k))
  {
    var t := JoinedAt(s, k);
    forall i, j | 0 <= i < j < |t| ensures Disjoint(t[i], t[j]) {
      var x, y := if i <= k then i else i + 1, if j <= k then j else j + 1;
      assert Disjoint(s[x], s[y]);
      assert j == k ==> Disjoint(s[x], s[k + 1]);
      assert i == k ==> Disjoint(s[k + 1], s[y]);
    }
  }

  lemma EndsApart(s: seq<Block>, i: nat, j: nat)
    requires AllDisjoint(s) && i < |s| && j < |s|
    ensures i != j ==> s[i].addr != s[j].addr && s[i].End() != s[j].End()
  {
    if i < j {
      assert Disjoint(s[i], s[j]);
    } else if j < i {
      assert Disjoint(s[j], s[i]);
    }
  }

  lemma JoinedStray(s: seq<Block>, k: nat, i: nat, j: nat)
    requires AllDisjoint(s) && k + 1 < |s| && Touches(s[k], s[k + 1])
    requires i < |s| && j < |s| && j != i + 1 && Touches(s[i], s[j])
    ensures Stray(JoinedAt(s, k))
  {
    var t := JoinedAt(s, k);
    EndsApart(s, i, k);
    EndsApart(s, j, k + 1);
    assert i != k && j != k + 1;
    var x, y := IndexOf(i, k), IndexOf(j, k);
    assert t[x].addr != 0 && t[x].End() == s[i].End() && t[y].addr == s[j].addr;
    assert Touches(t[x], t[y]) && y != x + 1;
  }

  lemma StrayJoined(s: seq<Block>, k: nat, x: nat, y: nat)
    requires k + 1 < |s| && Touches(s[k], s[k + 1])
    requires x < |s| - 1 && y < |s| - 1 && y != x + 1 && Touches(JoinedAt(s, k)[x], JoinedAt(s, k)[y])
    ensures Stray(s)
  {
    var i, j := if x < k then x else x + 1, if y <= k then y else y + 1;
    assert Touches(s[i], s[j]) && j != i + 1;
  }

  lemma CoalesceJoinedAt(s: seq<Block>, k: nat)
    requires k + 1 < |s| && Touches(s[k], s[k + 1])
    ensures Coalesce(s) == Coalesce(JoinedAt(s, k))
  {
    var u, v := s[..k], s[k + 2..];
    CoalesceJoinBehind(u, s[k], s[k + 1], v);
    AroundPair(s, k);
  }

  lemma AroundPair(s: seq<Block>, k: nat)
    requires k + 1 < |s|
    ensures s == s[..k] + ([s[k], s[k + 1]] + s[k + 2..])
    ensures JoinedAt(s, k) == s[..k] + ([Join(s[k], s[k + 1])] + s[k + 2..])
  {
  }

  lemma CoalesceJoinBehind(u: seq<Block>, x: Block, y: Block, v: seq<Block>)
    requires Touches(x, y)
    ensures Coalesce(u + ([x, y] + v)) == Coalesce(u + ([Join(x, y)] + v))
  {
    CoalesceJoin(x, y, v);
    CoalesceBack(u, [x, y] + v);
    CoalesceBack(u, [Join(x, y)] + v);
  }

  /** After a pass over a list of disjoint blocks in any order, two blocks touch exactly when two
      that were not neighbours touched before. */
  lemma {:induction false} CoalesceTouching(s: seq<Block>)
    requires AllDisjoint(s)
    ensures SomeTouch(Coalesce(s)) <==> Stray(s)
    decreases |s|
  {
    if Coalesced(s) {
      CoalesceStays(s);
    } else {
      var k :| 0 <= k < |s| - 1 && Touches(s[k], s[k + 1]);
      var t := JoinedAt(s, k);
      CoalesceJoinedAt(s, k);
      JoinedDisjoint(s, k);
      CoalesceTouching(t);
      if Stray(s) {
        var i, j :| 0 <= i < |s| && 0 <= j < |s| && j != i + 1 && Touches(s[i], s[j]);
        JoinedStray(s, k, i, j);
      } else if Stray(t) {
        var i, j :| 0 <= i < |t| && 0 <= j < |t| && j != i + 1 && Touches(t[i], t[j]);
        StrayJoined(s, k, i, j);
      }
    }
  }

  /** So it is with kfree. */
  lemma ReleaseTouching(free: seq<Block>, b: Block)
    requires AllDisjoint(free) && forall i :: 0 <= i < |free| ==> Disjoint(free[i], b)
    ensures SomeTouch(Release(free, b)) <==> Stray(Place(free, b))
  {
    PlaceDisjoint(free, b);
    CoalesceTouching(Place(free, b));
  }

  lemma PlaceDisjoint(free: seq<Block>, b: Block)
    requires AllDisjoint(free) && forall i :: 0 <= i < |free| ==> Disjoint(free[i], b)
    ensures AllDisjoint(Place(free, b))
  {
    var k, t := InsertIndex(free, b.addr), Place(free, b);
    forall i, j | 0 <= i < j < |t| ensures Disjoint(t[i], t[j]) {
      assert i != k ==> t[i] == free[IndexOf(i, k)];
      assert j != k ==> t[j] == free[IndexOf(j, k)];
      assert i != k && j != k ==> Disjoint(free[IndexOf(i, k)], free[IndexOf(j, k)]);
    }
  }

  lemma BehindBoth(s: seq<Block>, i: nat, m: nat, j: nat)
    requires Ordered(s) && i < m < j < |s|
    ensures s[i].End() < s[j].addr
  {
    assert s[i].End() <= s[m].addr && s[m].End() <= s[j].addr;
  }

  /** In an ascending list only neighbours touch. */
  lemma OrderedStray(s: seq<Block>)
    requires Ordered(s)
    ensures !Stray(s)
  {
    forall i, j | 0 <= i < |s| && 0 <= j < |s| && j != i + 1 ensures !Touches(s[i], s[j]) {
      if i + 1 < j {
        BehindBoth(s, i, i + 1, j);
      }
    }
  }
}
