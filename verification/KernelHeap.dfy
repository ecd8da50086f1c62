/** The allocator itself: block headers live in the memory it manages, linked into a ring
    through a sentinel. Each method is proved to do what HeapRuns says its call does, and to
    leave every word alone that is not in a header of a free or moved block. */
module KernelHeap {
  import opened Blocks
  import opened HeapRuns
  import opened LinkedList
  import Coalescing
  import Confluence

  /** The header of b, with its size at offset 16. */
  ghost predicate Stored(m: map<nat, nat>, b: Block) {
    b.addr in m && b.addr + 8 in m && b.addr + 16 in m && m[b.addr + 16] == b.size
  }

  function Addrs(s: seq<Block>): (r: seq<nat>)
    ensures |r| == |s|
    ensures forall i :: 0 <= i < |s| ==> r[i] == s[i].addr
  {
    seq(|s|, i requires 0 <= i < |s| => s[i].addr)
  }

  function Nodes(head: nat, free: seq<Block>): seq<nat> {
    [head] + Addrs(free)
  }

  // address of the k-th block of the list, or the sentinel behind the last one
  function NodeAt(head: nat, free: seq<Block>, k: nat): nat {
    if k < |free| then free[k].addr else head
  }

  function All(s: HeapState): seq<Block> {
    s.free + s.live
  }

  ghost predicate InHeader(s: seq<Block>, a: nat) {
    exists b :: b in s && b.addr <= a < b.addr + HEADER
  }

  /** The block does not overlap the two words of the sentinel. */
  ghost predicate Away(b: Block, head: nat) {
    b.End() <= head || head + 16 <= b.addr
  }

  /** Its header does not; the sentinel may lie in the bytes behind the header. */
  ghost predicate HeaderAway(b: Block, head: nat) {
    b.addr + HEADER <= head || head + 16 <= b.addr
  }

  ghost predicate HeadersAway(s: HeapState, head: nat) {
    forall b :: b in All(s) ==> HeaderAway(b, head)
  }

  /** Every aligned word below the limit is there to be read and written. */
  ghost predicate Ram(m: map<nat, nat>, limit: nat) {
    forall a: nat :: a < limit && a % 8 == 0 ==> a in m
  }

  /** The state of the heap is what the memory says. */
  ghost predicate Represents(m: map<nat, nat>, head: nat, s: HeapState) {
    Ring(m, Nodes(head, s.free)) && forall b :: b in All(s) ==> Stored(m, b)
  }

  /** Words that do not lie in the sentinel or in the header of one of these blocks are the
      same in both memories. */
  ghost predicate OnlyHeaders(m: map<nat, nat>, w: map<nat, nat>, head: nat, s: seq<Block>) {
    && w.Keys == m.Keys
    && forall a :: a in m && a != head && a != head + 8 && !InHeader(s, a) ==> w[a] == m[a]
  }

  ghost predicate HeadersWithin(s: seq<Block>, t: seq<Block>) {
    forall a: nat :: InHeader(s, a) ==> InHeader(t, a)
  }

  lemma HeadersTransitive(s: seq<Block>, t: seq<Block>, u: seq<Block>)
    requires HeadersWithin(s, t) && HeadersWithin(t, u)
    ensures HeadersWithin(s, u)
  {
  }

  lemma HeadersChain(m: map<nat, nat>, v: map<nat, nat>, w: map<nat, nat>, head: nat, s: seq<Block>, t: seq<Block>)
    requires OnlyHeaders(m, v, head, s) && OnlyHeaders(v, w, head, t) && HeadersWithin(t, s)
    ensures OnlyHeaders(m, w, head, s)
  {
  }

  /** The bytes of these blocks, headers included, are the same in both memories, but for the
      words of the sentinel where one of the blocks holds them. */
  ghost predicate SameBytes(m: map<nat, nat>, w: map<nat, nat>, head: nat, s: seq<Block>) {
    forall b, a: nat :: b in s && b.Covers(a) && a in m && a != head && a != head + 8 ==> a in w && w[a] == m[a]
  }

  /** A tiled heap in regions that lie below the limit, with no header on the sentinel. */
  ghost predicate Placed(s: HeapState, head: nat, limit: nat) {
    Inv(s) && HeadersAway(s, head) && forall r :: r in s.regions ==> r.End() <= limit
  }

  lemma BlockPlaced(s: HeapState, head: nat, limit: nat, b: Block)
    requires Placed(s, head, limit) && b in All(s)
    ensures HeaderAway(b, head) && b.End() <= limit && b.addr % 8 == 0
  {
    var i :| 0 <= i < |All(s)| && All(s)[i] == b;
    assert i < |s.free| ==> b == s.free[i];
    assert i >= |s.free| ==> b == s.live[i - |s.free|];
    TilingCovers(s, b.End() - 1);
    assert All(s)[i].Covers(b.End() - 1);
    assert Covered(s.regions, b.End() - 1);
  }

  /** No two blocks overlap, and no header overlaps the sentinel. */
  lemma Layout(s: HeapState, head: nat, limit: nat)
    requires Placed(s, head, limit)
    ensures forall b, c :: b in All(s) && c in All(s) && b != c ==> Disjoint(b, c)
    ensures forall b :: b in All(s) ==> HeaderAway(b, head) && b.End() <= limit && b.addr % 8 == 0
    ensures forall i, j :: 0 <= i < j < |s.free| ==> Disjoint(s.free[i], s.free[j])
    ensures forall b, c :: b in s.free && c in s.live ==> Disjoint(b, c)
  {
    TilingDisjoint(s);
    var all := All(s);
    forall b, c | b in all && c in all && b != c ensures Disjoint(b, c) {
      var i :| 0 <= i < |all| && all[i] == b;
      var j :| 0 <= j < |all| && all[j] == c;
      assert if i < j then Disjoint(all[i], all[j]) else Disjoint(all[j], all[i]);
    }
    forall b | b in all ensures HeaderAway(b, head) && b.End() <= limit && b.addr % 8 == 0 {
      BlockPlaced(s, head, limit, b);
    }
    forall i, j | 0 <= i < j < |s.free| ensures Disjoint(s.free[i], s.free[j]) {
      assert Disjoint(all[i], all[j]);
    }
    forall b, c | b in s.free && c in s.live ensures Disjoint(b, c) {
      var i :| 0 <= i < |s.free| && s.free[i] == b;
      var j :| 0 <= j < |s.live| && s.live[j] == c;
      assert Disjoint(all[i], all[|s.free| + j]);
    }
  }

  /** Stores into headers of free blocks do not reach the live ones. */
  lemma LiveUntouched(s: HeapState, head: nat, limit: nat, m: map<nat, nat>, w: map<nat, nat>, h: seq<Block>, keep: seq<Block>)
    requires Placed(s, head, limit)
    requires OnlyHeaders(m, w, head, h)
    requires forall b :: b in keep ==> b in All(s) && forall c :: c in h ==> Disjoint(b, c)
    ensures SameBytes(m, w, head, keep)
  {
    forall b, a: nat | b in keep && b.Covers(a) && a in m && a != head && a != head + 8
      ensures a in w && w[a] == m[a]
    {
      forall c | c in h ensures !(c.addr <= a < c.addr + HEADER) {
        assert Disjoint(b, c);
      }
    }
  }

  // ----- cutting a block in two, on the state -----

  /** The block at position k cut after n bytes; both parts stay in the list. */
  function Cut(s: HeapState, k: nat, n: nat): HeapState
    requires k < |s.free| && n <= s.free[k].size && Splits(s.free[k], n)
  {
    s.(free := s.free[..k] + [Taken(s.free[k], n), Remainder(s.free[k], n)] + s.free[k + 1..])
  }

  lemma CutCount(s: HeapState, k: nat, n: nat, x: int)
    requires k < |s.free| && n <= s.free[k].size && Splits(s.free[k], n)
    ensures Count(Cut(s, k, n).free, x) == Count(s.free, x)
  {
    var a, r := Taken(s.free[k], n), Remainder(s.free[k], n);
    assert s.free[k..k + 1] == [s.free[k]] && [a, r] == [a] + [r];
    CountSplice(s.free, k, k + 1, [a, r], x);
    CountConcat([a], [r], x);
    CountOne(s.free[k], x);
    CountOne(a, x);
    CountOne(r, x);
  }

  lemma CutBytes(s: HeapState, k: nat, n: nat)
    requires k < |s.free| && n <= s.free[k].size && Splits(s.free[k], n)
    ensures Bytes(Cut(s, k, n).free) == Bytes(s.free)
  {
    var a, r := Taken(s.free[k], n), Remainder(s.free[k], n);
    assert s.free[k..k + 1] == [s.free[k]] && [a, r] == [a] + [r];
    BytesSplice(s.free, k, k + 1, [a, r]);
    BytesConcat([a], [r]);
    BytesOne(s.free[k]);
    BytesOne(a);
    BytesOne(r);
  }

  lemma CutInv(s: HeapState, k: nat, n: nat)
    requires Inv(s) && k < |s.free| && n <= s.free[k].size && Splits(s.free[k], n) && n % 8 == 0
    ensures Inv(Cut(s, k, n))
  {
    CutTiled(s, k, n);
    CutBytes(s, k, n);
    CutAligned(s.free, k, n);
  }

  lemma CutTiled(s: HeapState, k: nat, n: nat)
    requires Tiled(s) && k < |s.free| && n <= s.free[k].size && Splits(s.free[k], n)
    ensures Tiled(Cut(s, k, n))
  {
    var t := Cut(s, k, n);
    forall x: int ensures Count(t.free, x) + Count(t.live, x) == Count(t.regions, x) {
      CutCount(s, k, n, x);
      assert Count(s.free, x) + Count(s.live, x) == Count(s.regions, x);
    }
  }

  lemma CutAligned(free: seq<Block>, k: nat, n: nat)
    requires Aligned(free) && k < |free| && n <= free[k].size && Splits(free[k], n) && n % 8 == 0
    ensures Aligned(free[..k] + [Taken(free[k], n), Remainder(free[k], n)] + free[k + 1..])
  {
    assert free[k].addr % 8 == 0;
  }

  // the new header does not overlap any node, and the stores of sizes keep the links
  lemma CutApart(s: HeapState, head: nat, limit: nat, k: nat, n: nat, i: nat)
    requires Placed(s, head, limit) && i < |Nodes(head, s.free)|
    requires k < |s.free| && n <= s.free[k].size && Splits(s.free[k], n)
    requires HeaderAway(Remainder(s.free[k], n), head)
    ensures ClearOf(Nodes(head, s.free)[i], s.free[k].addr, Remainder(s.free[k], n).addr)
  {
    assert s.free[k] in All(s);
    BlockPlaced(s, head, limit, s.free[k]);
    TilingDisjoint(s);
    var all := s.free + s.live;
    assert 0 < i && i - 1 < k ==> Disjoint(all[i - 1], all[k]);
    assert k < i - 1 ==> Disjoint(all[k], all[i - 1]);
  }

  lemma CutRing(s: HeapState, head: nat, limit: nat, m: map<nat, nat>, w: map<nat, nat>, k: nat, n: nat)
    requires Placed(s, head, limit) && Represents(m, head, s) && Ram(m, limit)
    requires k < |s.free| && n <= s.free[k].size && Splits(s.free[k], n) && n % 8 == 0
    requires HeaderAway(Remainder(s.free[k], n), head)
    requires var b, r := s.free[k], Remainder(s.free[k], n);
             w == m[r.addr + 16 := r.size][b.addr + 16 := n]
    ensures var r := Remainder(s.free[k], n).addr;
            && r in w && r + 8 in w
            && Ring(w, Nodes(head, s.free))
            && forall i :: 0 <= i < |Nodes(head, s.free)| ==> Apart(r, Nodes(head, s.free)[i])
  {
    var b, r := s.free[k], Remainder(s.free[k], n);
    assert b in All(s) && Stored(m, b);
    BlockPlaced(s, head, limit, b);
    RemainderInRam(m, limit, b, n);
    CutClear(s, head, limit, k, n);
    TwoSizes(m, w, Nodes(head, s.free), b.addr, n, r.addr, r.size);
  }

  lemma RemainderInRam(m: map<nat, nat>, limit: nat, b: Block, n: nat)
    requires n <= b.size && Splits(b, n) && Ram(m, limit)
    requires b.addr % 8 == 0 && n % 8 == 0 && b.End() <= limit
    ensures var r := Remainder(b, n).addr; r in m && r + 8 in m && r + 16 in m
  {
  }

  lemma CutClear(s: HeapState, head: nat, limit: nat, k: nat, n: nat)
    requires Placed(s, head, limit)
    requires k < |s.free| && n <= s.free[k].size && Splits(s.free[k], n)
    requires HeaderAway(Remainder(s.free[k], n), head)
    ensures forall i :: 0 <= i < |Nodes(head, s.free)| ==>
              ClearOf(Nodes(head, s.free)[i], s.free[k].addr, Remainder(s.free[k], n).addr)
  {
    forall i | 0 <= i < |Nodes(head, s.free)|
      ensures ClearOf(Nodes(head, s.free)[i], s.free[k].addr, Remainder(s.free[k], n).addr)
    {
      CutApart(s, head, limit, k, n, i);
    }
  }

  // a node shares no word with the new header and none with the two sizes stored
  predicate ClearOf(node: nat, b: nat, r: nat) {
    Apart(r, node) && r + 16 !in {node, node + 8} && b + 16 !in {node, node + 8}
  }

  lemma TwoSizes(m: map<nat, nat>, w: map<nat, nat>, nodes: seq<nat>, b: nat, x: nat, r: nat, y: nat)
    requires Ring(m, nodes) && b + 16 in m && r + 16 in m
    requires w == m[r + 16 := y][b + 16 := x]
    requires forall i :: 0 <= i < |nodes| ==> ClearOf(nodes[i], b, r)
    ensures Ring(w, nodes) && forall i :: 0 <= i < |nodes| ==> Apart(r, nodes[i])
  {
    forall i | 0 <= i < |nodes| ensures SameNode(m, w, nodes[i]) && Apart(r, nodes[i]) {
      assert ClearOf(nodes[i], b, r);
      TwoStores(m, w, r + 16, y, b + 16, x, nodes[i]);
    }
    RingFrame(m, w, nodes);
  }

  lemma TwoStores(m: map<nat, nat>, w: map<nat, nat>, a: nat, x: nat, b: nat, y: nat, node: nat)
    requires w == m[a := x][b := y] && a !in {node, node + 8} && b !in {node, node + 8}
    ensures SameNode(m, w, node)
  {
  }

  /** The address of the sentinel or of the header of some block. */
  ghost predicate IsNode(s: HeapState, head: nat, x: nat) {
    x == head || exists b :: b in All(s) && b.addr == x
  }

  lemma FreeIsNode(s: HeapState, head: nat, k: nat)
    ensures IsNode(s, head, NodeAt(head, s.free, k))
  {
    assert k < |s.free| ==> s.free[k] in All(s);
  }

  // the link words of a node are not the size of any block
  lemma LinkNotSize(s: HeapState, head: nat, limit: nat, x: nat)
    requires Placed(s, head, limit)
    requires IsNode(s, head, x)
    ensures forall c :: c in All(s) ==> c.addr + 16 != x && c.addr + 16 != x + 8
  {
    Layout(s, head, limit);
    if x != head {
      var b :| b in All(s) && b.addr == x;
      forall c | c in All(s) ensures c.addr + 16 != x && c.addr + 16 != x + 8 {
        assert c != b ==> Disjoint(b, c);
      }
    }
  }

  // sizes stored before a list update are still stored after it
  lemma SizesKept(s: HeapState, head: nat, limit: nat, m: map<nat, nat>, w: map<nat, nat>, x: nat, y: nat, z: nat)
    requires Placed(s, head, limit)
    requires IsNode(s, head, x)
    requires IsNode(s, head, y)
    requires IsNode(s, head, z)
    requires w.Keys == m.Keys
    requires forall a :: a in m && a !in {x, x + 8, y, y + 8, z, z + 8} ==> w[a] == m[a]
    requires forall c :: c in All(s) ==> Stored(m, c)
    ensures forall c :: c in All(s) ==> Stored(w, c)
  {
    LinkNotSize(s, head, limit, x);
    LinkNotSize(s, head, limit, y);
    LinkNotSize(s, head, limit, z);
  }

  // both parts of a cut block have their sizes in place before the list is updated
  lemma CutStored(s: HeapState, head: nat, limit: nat, m: map<nat, nat>, w: map<nat, nat>, k: nat, n: nat)
    requires Placed(s, head, limit) && Represents(m, head, s) && Ram(m, limit)
    requires k < |s.free| && n <= s.free[k].size && Splits(s.free[k], n) && n % 8 == 0
    requires var b, r := s.free[k], Remainder(s.free[k], n);
             w == m[r.addr + 16 := r.size][b.addr + 16 := n]
    ensures forall c :: c in All(Cut(s, k, n)) ==> Stored(w, c)
    ensures w.Keys == m.Keys
  {
    var b := s.free[k];
    assert b in All(s) && Stored(m, b);
    BlockPlaced(s, head, limit, b);
    PartsStored(m, w, limit, b, n);
    forall c | c in All(Cut(s, k, n)) ensures Stored(w, c) {
      if c != Taken(b, n) && c != Remainder(b, n) {
        CutOther(s, k, n, c);
        OtherStored(m, w, b, n, c);
      }
    }
  }

  lemma PartsStored(m: map<nat, nat>, w: map<nat, nat>, limit: nat, b: Block, n: nat)
    requires n <= b.size && Splits(b, n) && Stored(m, b) && Ram(m, limit)
    requires b.addr % 8 == 0 && n % 8 == 0 && b.End() <= limit
    requires w == m[Remainder(b, n).addr + 16 := Remainder(b, n).size][b.addr + 16 := n]
    ensures Stored(w, Taken(b, n)) && Stored(w, Remainder(b, n)) && w.Keys == m.Keys
  {
    RemainderInRam(m, limit, b, n);
  }

  // the sizes of the two parts are not in the header of a block clear of them
  lemma OtherStored(m: map<nat, nat>, w: map<nat, nat>, b: Block, n: nat, c: Block)
    requires n <= b.size && Splits(b, n) && Disjoint(c, b) && Stored(m, c)
    requires w == m[Remainder(b, n).addr + 16 := Remainder(b, n).size][b.addr + 16 := n]
    ensures Stored(w, c)
  {
  }

  // the other blocks are where they were, clear of both parts
  lemma CutOther(s: HeapState, k: nat, n: nat, c: Block)
    requires RegionsDisjoint(s.regions) && Tiled(s)
    requires k < |s.free| && n <= s.free[k].size && Splits(s.free[k], n)
    requires c in All(Cut(s, k, n)) && c != Taken(s.free[k], n) && c != Remainder(s.free[k], n)
    ensures c in All(s) && Disjoint(c, s.free[k])
  {
    TilingDisjoint(s);
    var all := s.free + s.live;
    if c in s.live {
      var j :| 0 <= j < |s.live| && s.live[j] == c;
      assert Disjoint(all[k], all[|s.free| + j]);
    } else if c in s.free[..k] {
      var j :| 0 <= j < k && s.free[j] == c;
      assert Disjoint(all[j], all[k]);
    } else {
      var j :| 0 <= j < |s.free[k + 1..]| && s.free[k + 1..][j] == c;
      assert Disjoint(all[k], all[k + 1 + j]);
    }
  }

  lemma CutNodes(s: HeapState, head: nat, k: nat, n: nat)
    requires k < |s.free| && n <= s.free[k].size && Splits(s.free[k], n)
    ensures InsertAfter(Nodes(head, s.free), k + 1, Remainder(s.free[k], n).addr) == Nodes(head, Cut(s, k, n).free)
  {
  }

  lemma CutNeighbours(s: HeapState, head: nat, k: nat, n: nat)
    requires k < |s.free| && n <= s.free[k].size && Splits(s.free[k], n)
    ensures var t, r, next := Cut(s, k, n), Remainder(s.free[k], n).addr, Succ(Nodes(head, s.free), k + 1);
            IsNode(t, head, s.free[k].addr) && IsNode(t, head, r) && IsNode(t, head, next)
  {
    var t := Cut(s, k, n);
    FreeIsNode(t, head, k);
    FreeIsNode(t, head, k + 1);
    FreeIsNode(t, head, k + 2);
    assert t.free[k].addr == s.free[k].addr && t.free[k + 1] == Remainder(s.free[k], n);
    assert k + 1 < |s.free| ==> t.free[k + 2] == s.free[k + 1];
  }

  lemma CutPlaced(s: HeapState, head: nat, limit: nat, k: nat, n: nat)
    requires Placed(s, head, limit)
    requires k < |s.free| && n <= s.free[k].size && Splits(s.free[k], n) && n % 8 == 0
    requires HeaderAway(Remainder(s.free[k], n), head)
    ensures Placed(Cut(s, k, n), head, limit)
  {
    CutInv(s, k, n);
    assert s.free[k] in All(s);
    forall c | c in All(Cut(s, k, n)) ensures HeaderAway(c, head) {
      if c != Taken(s.free[k], n) && c != Remainder(s.free[k], n) {
        CutOther(s, k, n, c);
      }
    }
  }

  // the list update that puts the rest behind the front part
  lemma CutLinked(s: HeapState, head: nat, limit: nat, w: map<nat, nat>, v: map<nat, nat>, k: nat, n: nat)
    requires Placed(s, head, limit)
    requires k < |s.free| && n <= s.free[k].size && Splits(s.free[k], n) && n % 8 == 0
    requires HeaderAway(Remainder(s.free[k], n), head)
    requires forall c :: c in All(Cut(s, k, n)) ==> Stored(w, c)
    requires var r, next := Remainder(s.free[k], n).addr, Succ(Nodes(head, s.free), k + 1);
             && Ring(v, InsertAfter(Nodes(head, s.free), k + 1, r))
             && v.Keys == w.Keys
             && forall a :: a in v && a !in {r, r + 8, s.free[k].addr, next + 8} ==> v[a] == w[a]
    ensures Represents(v, head, Cut(s, k, n))
  {
    var t := Cut(s, k, n);
    CutPlaced(s, head, limit, k, n);
    CutNodes(s, head, k, n);
    CutNeighbours(s, head, k, n);
    var r, next := Remainder(s.free[k], n).addr, Succ(Nodes(head, s.free), k + 1);
    SizesKept(t, head, limit, w, v, r, s.free[k].addr, next);
  }

  lemma CutFrame(s: HeapState, head: nat, m: map<nat, nat>, w: map<nat, nat>, v: map<nat, nat>, k: nat, n: nat)
    requires k < |s.free| && n <= s.free[k].size && Splits(s.free[k], n)
    requires var b, r := s.free[k], Remainder(s.free[k], n);
             w == m[r.addr + 16 := r.size][b.addr + 16 := n]
    requires v.Keys == w.Keys == m.Keys
    requires var r, next := Remainder(s.free[k], n).addr, Succ(Nodes(head, s.free), k + 1);
             forall a :: a in v && a !in {r, r + 8, s.free[k].addr, next + 8} ==> v[a] == w[a]
    ensures OnlyHeaders(m, v, head, Cut(s, k, n).free)
  {
    var t := Cut(s, k, n);
    assert t.free[k] in t.free && t.free[k + 1] in t.free;
    if k + 1 < |s.free| {
      assert t.free[k + 2] == s.free[k + 1] && t.free[k + 2] in t.free;
    }
  }

  lemma CutDone(s: HeapState, head: nat, limit: nat, m: map<nat, nat>, w: map<nat, nat>, v: map<nat, nat>, k: nat, n: nat)
    requires Placed(s, head, limit)
    requires k < |s.free| && n <= s.free[k].size && Splits(s.free[k], n) && n % 8 == 0
    requires HeaderAway(Remainder(s.free[k], n), head)
    requires forall c :: c in All(Cut(s, k, n)) ==> Stored(w, c)
    requires w == m[Remainder(s.free[k], n).addr + 16 := Remainder(s.free[k], n).size][s.free[k].addr + 16 := n]
    requires v.Keys == w.Keys == m.Keys
    requires Ring(v, InsertAfter(Nodes(head, s.free), k + 1, Remainder(s.free[k], n).addr))
    requires var r, next := Remainder(s.free[k], n).addr, Succ(Nodes(head, s.free), k + 1);
             forall a :: a in v && a !in {r, r + 8, s.free[k].addr, next + 8} ==> v[a] == w[a]
    ensures Placed(Cut(s, k, n), head, limit) && Represents(v, head, Cut(s, k, n))
    ensures OnlyHeaders(m, v, head, Cut(s, k, n).free)
  {
    CutPlaced(s, head, limit, k, n);
    CutLinked(s, head, limit, w, v, k, n);
    CutFrame(s, head, m, w, v, k, n);
  }

  // ----- handing out a block of the list, on the state -----

  function Handed(s: HeapState, k: nat): HeapState
    requires k < |s.free|
  {
    HeapState(s.free[..k] + s.free[k + 1..], s.live + [s.free[k]], s.regions)
  }

  lemma HandedInv(s: HeapState, k: nat)
    requires Inv(s) && k < |s.free|
    ensures Inv(Handed(s, k))
    ensures forall b :: b in All(Handed(s, k)) ==> b in All(s)
  {
    var t := Handed(s, k);
    assert t.free == s.free[..k] + [] + s.free[k + 1..];
    assert s.free[k..k + 1] == [s.free[k]];
    forall x: int ensures Count(t.free, x) + Count(t.live, x) == Count(t.regions, x) {
      CountSplice(s.free, k, k + 1, [], x);
      CountConcat(s.live, [s.free[k]], x);
      assert Count(s.free, x) + Count(s.live, x) == Count(s.regions, x);
    }
    BytesSplice(s.free, k, k + 1, []);
    BytesConcat(s.live, [s.free[k]]);
  }

  lemma UnlinkFrame(s: HeapState, head: nat, m: map<nat, nat>, w: map<nat, nat>, k: nat)
    requires k < |s.free| && w.Keys == m.Keys
    requires var b, r := s.free[k].addr, Nodes(head, s.free);
             forall a :: a in w && a !in {b, b + 8, Pred(r, k + 1), Succ(r, k + 1) + 8} ==> w[a] == m[a]
    ensures OnlyHeaders(m, w, head, s.free)
  {
    assert s.free[k] in s.free;
    assert k > 0 ==> s.free[k - 1] in s.free;
    assert k + 1 < |s.free| ==> s.free[k + 1] in s.free;
  }

  // cutting and handing out is what an allocation is
  lemma HandedOut(s: HeapState, k: nat, size: nat)
    requires size > 0 && k == FirstFit(s.free, AlignUp(size)) && k < |s.free|
    ensures var n := AlignUp(size);
            AfterMalloc(s, size) == if Splits(s.free[k], n) then Handed(Cut(s, k, n), k) else Handed(s, k)
    ensures var n := AlignUp(size);
            Splits(s.free[k], n) ==>
              forall a: nat :: InHeader(Cut(s, k, n).free, a) ==> InHeader(s.free + AfterMalloc(s, size).free, a)
  {
    var n, b := AlignUp(size), s.free[k];
    if Splits(b, n) {
      var t := Cut(s, k, n);
      assert t.free[..k] == s.free[..k] && t.free[k + 1..] == [Remainder(b, n)] + s.free[k + 1..];
      assert Handed(t, k).free == Allot(s.free, k, n);
      forall a: nat | InHeader(t.free, a) ensures InHeader(s.free + AfterMalloc(s, size).free, a) {
        var c :| c in t.free && c.addr <= a < c.addr + HEADER;
        if c == Taken(b, n) {
          assert b in s.free + AfterMalloc(s, size).free;
        } else {
          assert c in AfterMalloc(s, size).free;
        }
      }
    } else {
      assert Handed(s, k).free == Allot(s.free, k, n);
    }
  }

  // a store behind the header of a live block touches no header at all
  lemma PayloadStore(s: HeapState, head: nat, limit: nat, m: map<nat, nat>, b: Block, a: nat, v: nat)
    requires Placed(s, head, limit) && Represents(m, head, s) && b in s.live
    requires a in m && a % 8 == 0 && b.Payload() <= a && a + 8 <= b.End() && a != head && a != head + 8
    ensures Represents(m[a := v], head, s)
  {
    Layout(s, head, limit);
    var w := m[a := v];
    var r := Nodes(head, s.free);
    assert b in All(s);
    forall i | 0 <= i < |r| ensures SameNode(m, w, r[i]) {
      if i > 0 {
        assert r[i] == s.free[i - 1].addr && s.free[i - 1] in s.free && s.free[i - 1] in All(s);
        assert Disjoint(s.free[i - 1], b);
      }
      if i == 0 {
        assert Linked(m, r, 0);
      }
    }
    RingFrame(m, w, r);
    forall c | c in All(s) ensures Stored(w, c) {
      assert Stored(m, c);
      assert c != b ==> Disjoint(c, b);
    }
  }

  // ----- putting a block back into the list, on the state -----

  /** The live block at position j back in the list, nothing merged yet. */
  function Returned(s: HeapState, j: nat): HeapState
    requires j < |s.live|
  {
    HeapState(Place(s.free, s.live[j]), s.live[..j] + [] + s.live[j + 1..], s.regions)
  }

  lemma ReturnedTiled(s: HeapState, j: nat)
    requires Tiled(s) && j < |s.live|
    ensures Tiled(Returned(s, j))
    ensures Bytes(Returned(s, j).free) + Bytes(Returned(s, j).live) == Bytes(s.free) + Bytes(s.live)
  {
    var t, b := Returned(s, j), s.live[j];
    assert s.live[j..j + 1] == [b];
    forall x: int ensures Count(t.free, x) + Count(t.live, x) == Count(t.regions, x) {
      Coalescing.PlaceCount(s.free, b, x);
      CountSplice(s.live, j, j + 1, [], x);
      assert Count(s.free, x) + Count(s.live, x) == Count(s.regions, x);
    }
    Coalescing.PlaceBytes(s.free, b);
    BytesSplice(s.live, j, j + 1, []);
  }

  lemma ReturnedInv(s: HeapState, j: nat)
    requires Inv(s) && j < |s.live|
    ensures Inv(Returned(s, j))
    ensures forall b :: b in All(Returned(s, j)) ==> b in All(s)
  {
    ReturnedTiled(s, j);
    ReturnedAligned(s, j);
    ReturnedMembers(s, j);
  }

  lemma ReturnedAligned(s: HeapState, j: nat)
    requires Aligned(s.free) && Aligned(s.live) && j < |s.live|
    ensures Aligned(Returned(s, j).free) && Aligned(Returned(s, j).live)
  {
    assert s.live[j].addr % 8 == 0;
  }

  lemma ReturnedMembers(s: HeapState, j: nat)
    requires j < |s.live|
    ensures forall b :: b in All(Returned(s, j)) ==> b in All(s)
  {
    var t := Returned(s, j);
    forall b | b in All(t) ensures b in All(s) {
      if b in t.free {
        assert b in s.free || b == s.live[j];
      } else {
        assert b in s.live;
      }
    }
  }

  lemma ReturnedRing(s: HeapState, head: nat, j: nat)
    requires j < |s.live|
    ensures var k := InsertIndex(s.free, s.live[j].addr);
            Nodes(head, Returned(s, j).free) == InsertAfter(Nodes(head, s.free), k, s.live[j].addr)
  {
  }

  lemma NodeApart(s: HeapState, head: nat, limit: nat, j: nat, i: nat)
    requires Placed(s, head, limit) && j < |s.live| && i < |Nodes(head, s.free)|
    ensures Apart(s.live[j].addr, Nodes(head, s.free)[i])
  {
    var b := s.live[j];
    assert b in All(s);
    BlockPlaced(s, head, limit, b);
    if i > 0 {
      TilingDisjoint(s);
      assert Disjoint((s.free + s.live)[i - 1], (s.free + s.live)[|s.free| + j]);
    }
  }

  lemma NodeOwner(s: HeapState, head: nat, i: nat)
    requires i < |Nodes(head, s.free)|
    ensures IsNode(s, head, Nodes(head, s.free)[i])
  {
    if i > 0 {
      FreeIsNode(s, head, i - 1);
    }
  }

  lemma ReturnedNodes(s: HeapState, head: nat, limit: nat, j: nat)
    requires Placed(s, head, limit) && j < |s.live|
    ensures var b, k, r := s.live[j], InsertIndex(s.free, s.live[j].addr), Nodes(head, s.free);
            && Nodes(head, Returned(s, j).free) == InsertAfter(r, k, b.addr)
            && (forall i :: 0 <= i < |r| ==> Apart(b.addr, r[i]))
            && IsNode(s, head, r[k]) && IsNode(s, head, Succ(r, k))
            && Succ(r, k) == NodeAt(head, s.free, k)
  {
    var k, r := InsertIndex(s.free, s.live[j].addr), Nodes(head, s.free);
    ReturnedRing(s, head, j);
    forall i | 0 <= i < |r| ensures Apart(s.live[j].addr, r[i]) {
      NodeApart(s, head, limit, j, i);
    }
    NodeOwner(s, head, k);
    NodeOwner(s, head, if k + 1 == |r| then 0 else k + 1);
  }

  // what the insertion finds in memory
  lemma InsertReady(s: HeapState, head: nat, limit: nat, m: map<nat, nat>, j: nat)
    requires Placed(s, head, limit) && Represents(m, head, s) && j < |s.live|
    ensures s.live[j].addr in m && s.live[j].addr + 8 in m
    ensures var k, r := InsertIndex(s.free, s.live[j].addr), Nodes(head, s.free);
            Succ(r, k) == NodeAt(head, s.free, k) && |r| == |s.free| + 1 && r[0] == head
    ensures forall i :: 0 <= i < |Nodes(head, s.free)| ==> Apart(s.live[j].addr, Nodes(head, s.free)[i])
  {
    ReturnedNodes(s, head, limit, j);
    assert s.live[j] in All(s) && Stored(m, s.live[j]);
  }

  // what the insertion leaves in memory
  lemma ReturnedStored(s: HeapState, head: nat, limit: nat, m: map<nat, nat>, w: map<nat, nat>, j: nat, k: nat)
    requires Placed(s, head, limit) && Represents(m, head, s)
    requires j < |s.live| && k == InsertIndex(s.free, s.live[j].addr)
    requires Ring(w, InsertAfter(Nodes(head, s.free), k, s.live[j].addr)) && w.Keys == m.Keys
    requires forall a :: a in w && a !in {s.live[j].addr, s.live[j].addr + 8, Nodes(head, s.free)[k], NodeAt(head, s.free, k) + 8} ==> w[a] == m[a]
    ensures Placed(Returned(s, j), head, limit) && Represents(w, head, Returned(s, j))
    ensures OnlyHeaders(m, w, head, s.free + [s.live[j]])
  {
    ReturnedInv(s, j);
    ReturnedNodes(s, head, limit, j);
    assert s.live[j] in All(s);
    SizesKept(s, head, limit, m, w, s.live[j].addr, Nodes(head, s.free)[k], NodeAt(head, s.free, k));
    ReturnedFrame(s, head, m, w, s.live[j], k);
  }

  lemma ReturnedFrame(s: HeapState, head: nat, m: map<nat, nat>, w: map<nat, nat>, b: Block, k: nat)
    requires k <= |s.free| && w.Keys == m.Keys
    requires forall a :: a in w && a !in {b.addr, b.addr + 8, Nodes(head, s.free)[k], NodeAt(head, s.free, k) + 8} ==> w[a] == m[a]
    ensures OnlyHeaders(m, w, head, s.free + [b])
  {
    assert b in s.free + [b];
    assert k > 0 ==> Nodes(head, s.free)[k] == s.free[k - 1].addr && s.free[k - 1] in s.free + [b];
    assert k < |s.free| ==> s.free[k] in s.free + [b];
  }

  // ----- one merge of the pass, on the state -----

  function Merge(s: HeapState, k: nat): HeapState
    requires k + 1 < |s.free|
  {
    s.(free := s.free[..k] + [Join(s.free[k], s.free[k + 1])] + s.free[k + 2..])
  }

  lemma MergeInv(s: HeapState, k: nat)
    requires Inv(s) && k + 1 < |s.free| && s.free[k].End() == s.free[k + 1].addr
    ensures Inv(Merge(s, k))
  {
    var a, b := s.free[k], s.free[k + 1];
    var t := Merge(s, k);
    assert s.free[k..k + 2] == [a, b];
    forall x: int ensures Count(t.free, x) + Count(t.live, x) == Count(t.regions, x) {
      CountSplice(s.free, k, k + 2, [Join(a, b)], x);
      assert [a, b][1..] == [b];
      CountOne(b, x);
      CountOne(Join(a, b), x);
      assert Count(s.free, x) + Count(s.live, x) == Count(s.regions, x);
    }
    BytesSplice(s.free, k, k + 2, [Join(a, b)]);
    assert [a, b][1..] == [b];
    BytesOne(b);
    BytesOne(Join(a, b));
  }

  // ----- the pass, seen from the middle -----

  /** The first k blocks of cur have been passed: what is left to do is to run the pass from
      the last of them on. */
  ghost predicate Passed(all: seq<Block>, cur: seq<Block>, k: nat)
    requires k <= |cur|
  {
    if k == 0 then cur == all else Coalesce(all) == cur[..k - 1] + Coalesce(cur[k - 1..])
  }

  lemma PassStep(all: seq<Block>, cur: seq<Block>, k: nat)
    requires k < |cur| && Passed(all, cur, k)
    requires k > 0 ==> !Touches(cur[k - 1], cur[k])
    ensures Passed(all, cur, k + 1)
  {
    if k > 0 {
      var t := cur[k - 1..];
      assert t[1..] == cur[k..] && t[0] == cur[k - 1] && t[1] == cur[k];
      assert cur[..k - 1] + ([cur[k - 1]] + Coalesce(cur[k..])) == cur[..k] + Coalesce(cur[k..]);
    } else {
      assert cur[0..] == all;
    }
  }

  lemma AbsorbStep(all: seq<Block>, s: HeapState, k: nat)
    requires 0 < k < |s.free| && Passed(all, s.free, k)
    requires Touches(s.free[k - 1], s.free[k])
    ensures Passed(all, Merge(s, k - 1).free, k)
  {
    var cur, next := s.free, Merge(s, k - 1).free;
    var t := cur[k - 1..];
    assert t[0] == cur[k - 1] && t[1] == cur[k] && t[2..] == cur[k + 1..];
    assert next[k - 1..] == [Join(t[0], t[1])] + t[2..];
    assert next[..k - 1] == cur[..k - 1];
  }

  predicate Merges(free: seq<Block>, k: nat)
    requires k < |free|
  {
    k > 0 && Touches(free[k - 1], free[k])
  }

  /** The state after the pass has visited the k-th block of the list. */
  function Visited(s: HeapState, k: nat): HeapState
    requires k < |s.free|
  {
    if Merges(s.free, k) then Merge(s, k - 1) else s
  }

  lemma VisitedMeaning(all: seq<Block>, s: HeapState, head: nat, k: nat)
    requires k < |s.free| && Passed(all, s.free, k)
    ensures var t, k' := Visited(s, k), if Merges(s.free, k) then k else k + 1;
            && 0 < k' <= |t.free| && Passed(all, t.free, k')
            && t.free[k'..] == s.free[k..][1..]
            && t.free[k' - 1].addr == (if Merges(s.free, k) then s.free[k - 1] else s.free[k]).addr
            && NodeAt(head, t.free, k') == NodeAt(head, s.free, k + 1)
            && HeadersWithin(t.free, s.free)
  {
    assert s.free[k + 1..] == s.free[k..][1..];
    if Merges(s.free, k) {
      AbsorbStep(all, s, k);
      assert Merge(s, k - 1).free[k..] == s.free[k + 1..];
      forall a: nat | InHeader(Merge(s, k - 1).free, a) ensures InHeader(s.free, a) {
        MergeHeaders(s, k - 1, a);
      }
      NodeSuffix(head, s.free, k + 1, Merge(s, k - 1).free, k);
    } else {
      PassStep(all, s.free, k);
    }
  }

  // the block under the cursor is the next one of the original list
  lemma NextVisited(all: seq<Block>, i: nat, cur: seq<Block>, k: nat)
    requires i <= |all| && k < |cur| && cur[k..] == all[i..]
    ensures i < |all| && all[i] == cur[k]
    ensures all[i + 1..] == cur[k..][1..]
    ensures Addrs(all)[..i] + [cur[k].addr] == Addrs(all)[..i + 1]
  {
    assert |cur| - k == |cur[k..]| == |all[i..]| == |all| - i;
    assert cur[k] == cur[k..][0] && all[i] == all[i..][0];
  }

  /** The pass in the middle of the list `all`: i of its blocks have been visited, which left
      k blocks in front of the cursor of the list `cur`. */
  ghost predicate MidPass(all: seq<Block>, cur: seq<Block>, i: nat, k: nat, last: nat, visited: seq<nat>) {
    && i <= |all| && k <= |cur|
    && visited == Addrs(all)[..i]
    && cur[k..] == all[i..]
    && Passed(all, cur, k)
    && last == (if k == 0 then 0 else cur[k - 1].addr)
    && HeadersWithin(cur, all)
  }

  lemma MidPassStep(all: seq<Block>, s: HeapState, head: nat, i: nat, k: nat, last: nat, visited: seq<nat>)
    requires MidPass(all, s.free, i, k, last, visited) && k < |s.free|
    ensures i < |all|
    ensures var k' := if Merges(s.free, k) then k else k + 1;
            && MidPass(all, Visited(s, k).free, i + 1, k', if Merges(s.free, k) then last else s.free[k].addr,
                       visited + [s.free[k].addr])
            && NodeAt(head, Visited(s, k).free, k') == NodeAt(head, s.free, k + 1)
  {
    NextVisited(all, i, s.free, k);
    VisitedMeaning(all, s, head, k);
    HeadersTransitive(Visited(s, k).free, s.free, all);
  }

  lemma PassDone(all: seq<Block>, cur: seq<Block>)
    requires Passed(all, cur, |cur|)
    ensures cur == Coalesce(all)
  {
    if cur != [] {
      assert cur[..|cur| - 1] + cur[|cur| - 1..] == cur;
    }
  }

  lemma MergeMembers(s: HeapState, k: nat, c: Block)
    requires k + 1 < |s.free| && c in All(Merge(s, k))
    ensures c == Join(s.free[k], s.free[k + 1]) || (c in All(s) && (c in s.live || c in s.free[..k] + s.free[k + 2..]))
  {
  }

  lemma MergeHeaders(s: HeapState, k: nat, a: nat)
    requires k + 1 < |s.free| && InHeader(Merge(s, k).free, a)
    ensures InHeader(s.free, a)
  {
    var c :| c in Merge(s, k).free && c.addr <= a < c.addr + HEADER;
    assert c in All(Merge(s, k));
    if c == Join(s.free[k], s.free[k + 1]) {
      assert s.free[k] in s.free;
    }
  }

  lemma MergePlaced(s: HeapState, head: nat, limit: nat, k: nat)
    requires Placed(s, head, limit) && k + 1 < |s.free| && s.free[k].End() == s.free[k + 1].addr
    ensures Placed(Merge(s, k), head, limit)
  {
    MergeInv(s, k);
    assert s.free[k] in All(s);
    forall c | c in All(Merge(s, k)) ensures HeaderAway(c, head) {
      MergeMembers(s, k, c);
    }
  }

  // storing a size leaves the links alone
  lemma SizeStore(s: HeapState, head: nat, limit: nat, m: map<nat, nat>, w: map<nat, nat>, b: Block)
    requires Placed(s, head, limit) && Ring(m, Nodes(head, s.free)) && b in All(s)
    requires b.addr + 16 in m && w.Keys == m.Keys
    requires forall x :: x in m && x != b.addr + 16 ==> w[x] == m[x]
    ensures Ring(w, Nodes(head, s.free))
  {
    Layout(s, head, limit);
    var r := Nodes(head, s.free);
    forall i | 0 <= i < |r| ensures SameNode(m, w, r[i]) {
      assert i > 0 ==> r[i] == s.free[i - 1].addr && s.free[i - 1] in All(s);
      assert i > 0 && s.free[i - 1] != b ==> Disjoint(s.free[i - 1], b);
    }
    RingFrame(m, w, r);
  }

  // the words written by a merge: the joined size, and the links around the absorbed block
  ghost predicate MergeWrites(s: HeapState, head: nat, m: map<nat, nat>, w: map<nat, nat>, k: nat)
    requires k + 1 < |s.free|
  {
    var a, b, q := s.free[k], s.free[k + 1], NodeAt(head, s.free, k + 2);
    && w.Keys == m.Keys
    && (forall x :: x in m && x != a.addr + 16 && x !in {b.addr, b.addr + 8, a.addr, q + 8} ==> w[x] == m[x])
    && a.addr + 16 in w && w[a.addr + 16] == a.size + HEADER + b.size
  }

  lemma MergeFrame(s: HeapState, head: nat, m: map<nat, nat>, w: map<nat, nat>, k: nat)
    requires k + 1 < |s.free| && MergeWrites(s, head, m, w, k)
    ensures OnlyHeaders(m, w, head, s.free)
  {
    assert s.free[k] in s.free && s.free[k + 1] in s.free;
    assert k + 2 < |s.free| ==> s.free[k + 2] in s.free;
  }

  lemma MergeStored(s: HeapState, head: nat, limit: nat, m: map<nat, nat>, w: map<nat, nat>, k: nat, c: Block)
    requires Placed(s, head, limit) && k + 1 < |s.free| && MergeWrites(s, head, m, w, k)
    requires forall d :: d in All(s) ==> Stored(m, d)
    requires c in All(Merge(s, k))
    ensures Stored(w, c)
  {
    var a, b, q := s.free[k], s.free[k + 1], NodeAt(head, s.free, k + 2);
    assert a in All(s) && b in All(s);
    assert q == head || (s.free[k + 2] in All(s) && s.free[k + 2].addr == q);
    LinkNotSize(s, head, limit, a.addr);
    LinkNotSize(s, head, limit, b.addr);
    LinkNotSize(s, head, limit, q);
    MergeMembers(s, k, c);
    assert Stored(m, a);
    if c != Join(a, b) {
      NotMerged(s, k, c);
      assert Stored(m, c);
    }
  }

  lemma NotMerged(s: HeapState, k: nat, c: Block)
    requires RegionsDisjoint(s.regions) && Tiled(s) && k + 1 < |s.free|
    requires c in s.live || c in s.free[..k] + s.free[k + 2..]
    ensures Disjoint(c, s.free[k])
  {
    TilingDisjoint(s);
    if c in s.live {
      var j :| 0 <= j < |s.live| && s.live[j] == c;
      assert Disjoint((s.free + s.live)[k], (s.free + s.live)[|s.free| + j]);
    } else if c in s.free[..k] {
      var j :| 0 <= j < k && s.free[j] == c;
      assert Disjoint((s.free + s.live)[j], (s.free + s.live)[k]);
    } else {
      var j :| 0 <= j < |s.free[k + 2..]| && s.free[k + 2..][j] == c;
      assert Disjoint((s.free + s.live)[k], (s.free + s.live)[k + 2 + j]);
    }
  }

  lemma NodesAround(head: nat, free: seq<Block>, k: nat)
    requires k + 1 < |free|
    ensures var r := Nodes(head, free);
            r[k + 2] == free[k + 1].addr && Pred(r, k + 2) == free[k].addr && Succ(r, k + 2) == NodeAt(head, free, k + 2)
  {
  }

  lemma MergeWritten(s: HeapState, head: nat, limit: nat, m: map<nat, nat>, w: map<nat, nat>, v: map<nat, nat>, k: nat)
    requires Placed(s, head, limit) && k + 1 < |s.free|
    requires s.free[k].addr + 16 in m
    requires w == m[s.free[k].addr + 16 := s.free[k].size + HEADER + s.free[k + 1].size]
    requires v.Keys == w.Keys
    requires var a, b, q := s.free[k], s.free[k + 1], NodeAt(head, s.free, k + 2);
             forall x :: x in v && x !in {b.addr, b.addr + 8, a.addr, q + 8} ==> v[x] == w[x]
    ensures MergeWrites(s, head, m, v, k)
  {
    var a, b, q := s.free[k], s.free[k + 1], NodeAt(head, s.free, k + 2);
    assert a in All(s) && b in All(s);
    assert q == head || (s.free[k + 2] in All(s) && s.free[k + 2].addr == q);
    LinkNotSize(s, head, limit, b.addr);
    LinkNotSize(s, head, limit, q);
  }

  lemma AbsorbedState(s: HeapState, head: nat, limit: nat, m: map<nat, nat>, w: map<nat, nat>, v: map<nat, nat>, k: nat)
    requires Placed(s, head, limit) && Represents(m, head, s) && k + 1 < |s.free|
    requires s.free[k].End() == s.free[k + 1].addr
    requires s.free[k].addr + 16 in m
    requires w == m[s.free[k].addr + 16 := s.free[k].size + HEADER + s.free[k + 1].size]
    requires v.Keys == w.Keys
    requires var a, b, q := s.free[k], s.free[k + 1], NodeAt(head, s.free, k + 2);
             forall x :: x in v && x !in {b.addr, b.addr + 8, a.addr, q + 8} ==> v[x] == w[x]
    requires Ring(v, RemoveAt(Nodes(head, s.free), k + 2))
    ensures Placed(Merge(s, k), head, limit) && Represents(v, head, Merge(s, k))
    ensures OnlyHeaders(m, v, head, s.free)
  {
    MergeWritten(s, head, limit, m, w, v, k);
    MergeFrame(s, head, m, v, k);
    MergePlaced(s, head, limit, k);
    MergeAllStored(s, head, limit, m, v, k);
    MergedNodes(s, head, k);
  }

  lemma MergedNodes(s: HeapState, head: nat, k: nat)
    requires k + 1 < |s.free|
    ensures RemoveAt(Nodes(head, s.free), k + 2) == Nodes(head, Merge(s, k).free)
  {
  }

  lemma MergeAllStored(s: HeapState, head: nat, limit: nat, m: map<nat, nat>, w: map<nat, nat>, k: nat)
    requires Placed(s, head, limit) && k + 1 < |s.free| && MergeWrites(s, head, m, w, k)
    requires forall d :: d in All(s) ==> Stored(m, d)
    ensures forall c :: c in All(Merge(s, k)) ==> Stored(w, c)
  {
    forall c | c in All(Merge(s, k)) ensures Stored(w, c) {
      MergeStored(s, head, limit, m, w, k, c);
    }
  }

  // what the traversal finds in the k-th node of the ring, and that no block is the sentinel
  lemma NextNode(s: HeapState, head: nat, limit: nat, m: map<nat, nat>, k: nat)
    requires Placed(s, head, limit) && Represents(m, head, s) && k <= |s.free|
    ensures NodeAt(head, s.free, k) in m
    ensures k < |s.free| ==> m[NodeAt(head, s.free, k)] == NodeAt(head, s.free, k + 1)
    ensures head in m && m[head] == NodeAt(head, s.free, 0)
    ensures NodeAt(head, s.free, k) == head <==> k == |s.free|
    ensures NodeAt(head, s.free, 0) in m
  {
    var r := Nodes(head, s.free);
    assert Linked(m, r, 0);
    assert s.free != [] ==> Linked(m, r, 1);
    if k < |s.free| {
      assert Linked(m, r, k + 1);
      assert s.free[k] in All(s);
      BlockPlaced(s, head, limit, s.free[k]);
    }
  }

  lemma NodeSuffix(head: nat, f: seq<Block>, i: nat, g: seq<Block>, j: nat)
    requires i <= |f| && j <= |g| && f[i..] == g[j..]
    ensures NodeAt(head, f, i) == NodeAt(head, g, j)
  {
    assert |f| - i == |f[i..]| == |g[j..]| == |g| - j;
    assert i < |f| ==> f[i..][0] == g[j..][0];
  }

  // the block that a call of kfree moves, if any
  function Moved(s: HeapState, ptr: nat): seq<Block>
    requires Freeable(s, ptr)
  {
    if ptr == 0 then [] else [s.live[LiveIndex(s.live, ptr - HEADER)]]
  }

  // the insertion and the pass together
  lemma FreeFrame(s: HeapState, head: nat, limit: nat, m: map<nat, nat>, v: map<nat, nat>, w: map<nat, nat>, j: nat)
    requires Placed(s, head, limit) && j < |s.live|
    requires OnlyHeaders(m, v, head, s.free + [s.live[j]])
    requires OnlyHeaders(v, w, head, Returned(s, j).free)
    ensures OnlyHeaders(m, w, head, s.free + [s.live[j]])
    ensures SameBytes(m, w, head, Returned(s, j).live)
  {
    var t := Returned(s, j);
    var h := s.free + [s.live[j]];
    forall c ensures c in t.free <==> c in h {
      var k := InsertIndex(s.free, s.live[j].addr);
      assert s.free == s.free[..k] + s.free[k..];
    }
    forall a: nat | InHeader(t.free, a) ensures InHeader(h, a) {
      var c :| c in t.free && c.addr <= a < c.addr + HEADER;
      assert c in h;
    }
    ReturnedInv(s, j);
    Layout(t, head, limit);
    forall b, c | b in t.live && c in h ensures Disjoint(b, c) {
      assert c in t.free;
    }
    LiveUntouched(t, head, limit, m, w, h, t.live);
  }

  // no store of kmalloc goes into a block that was live before
  lemma MallocFrame(s: HeapState, head: nat, limit: nat, m: map<nat, nat>, w: map<nat, nat>, size: nat)
    requires Placed(s, head, limit) && size < WORD_SPAN && HeadersAway(AfterMalloc(s, size), head)
    requires OnlyHeaders(m, w, head, s.free + AfterMalloc(s, size).free)
    ensures SameBytes(m, w, head, s.live)
  {
    var t := AfterMalloc(s, size);
    MallocInv(s, size);
    Layout(s, head, limit);
    Layout(t, head, limit);
    forall b, c | b in s.live && c in s.free + t.free ensures Disjoint(b, c) {
      assert b in t.live;
    }
    LiveUntouched(s, head, limit, m, w, s.free + t.free, s.live);
  }

  // ----- adding a region -----

  /** The block that malloc_addblock makes of size bytes at addr. */
  function RegionBlock(addr: nat, size: nat): Block
    requires AlignUp(addr) + HEADER <= addr + size
  {
    Block(AlignUp(addr), addr + size - AlignUp(addr) - HEADER)
  }

  /** Room for a header after alignment that is clear of the sentinel, below the limit and clear
      of the regions added before. */
  ghost predicate Addable(s: HeapState, head: nat, limit: nat, addr: nat, size: nat) {
    && AlignUp(addr) + HEADER <= addr + size <= limit
    && addr <= AlignUp(addr)
    && HeaderAway(RegionBlock(addr, size), head)
    && forall r :: r in s.regions ==> Disjoint(r, RegionBlock(addr, size))
  }

  lemma AddablePlaced(s: HeapState, head: nat, limit: nat, addr: nat, size: nat)
    requires Placed(s, head, limit) && limit < WORD_SPAN && Addable(s, head, limit, addr, size)
    ensures Enabled(s, AddRegion(RegionBlock(addr, size)))
    ensures Placed(AfterAddRegion(s, RegionBlock(addr, size)), head, limit)
    ensures forall c :: c in All(s) ==> Disjoint(c, RegionBlock(addr, size))
  {
    var b := RegionBlock(addr, size);
    forall x: int ensures Count(s.regions, x) + Count([b], x) <= 1 {
      CountOne(b, x);
      CountPositive(s.regions, x);
      assert Count(s.regions, x) <= 1;
    }
    AddRegionInv(s, b);
    forall c | c in All(s) ensures Disjoint(c, b) {
      var i :| 0 <= i < |All(s)| && All(s)[i] == c;
      var x := if c.addr < b.addr then b.addr else c.addr;
      TilingCovers(s, x);
      CountPositive(s.regions, x);
      assert !(All(s)[i].Covers(x) && b.Covers(x));
    }
  }

  // ----- whole runs -----

  /** The regions that a run adds lie in memory. */
  ghost predicate InMemory(ops: seq<Op>, limit: nat) {
    forall i :: 0 <= i < |ops| && ops[i].AddRegion? ==> ops[i].block.End() <= limit
  }

  /** No state that the run passes through has a header on the sentinel. */
  ghost predicate StaysAway(s: HeapState, ops: seq<Op>, head: nat)
    requires Legal(s, ops)
    decreases |ops|
  {
    HeadersAway(s, head) && (ops == [] || StaysAway(Step(s, ops[0]), ops[1..], head))
  }

  ghost predicate RegionsAway(regions: seq<Block>, head: nat) {
    forall r :: r in regions ==> Away(r, head)
  }

  // blocks in regions clear of the sentinel are clear of it
  lemma BlockAway(s: HeapState, head: nat, b: Block)
    requires Tiled(s) && RegionsAway(s.regions, head) && b in All(s)
    ensures Away(b, head)
  {
    var i :| 0 <= i < |All(s)| && All(s)[i] == b;
    var x := if b.addr < head then head else b.addr;
    if b.Covers(x) {
      TilingCovers(s, x);
      assert All(s)[i].Covers(x);
      var j :| 0 <= j < |s.regions| && s.regions[j].Covers(x);
      assert Away(s.regions[j], head);
    }
  }

  /** A run in regions that are clear of the sentinel never puts a header on it. */
  lemma {:induction false} AwayForEver(s: HeapState, ops: seq<Op>, head: nat)
    requires Inv(s) && Legal(s, ops) && RegionsAway(s.regions, head)
    requires forall i :: 0 <= i < |ops| && ops[i].AddRegion? ==> Away(ops[i].block, head)
    ensures StaysAway(s, ops, head)
    decreases |ops|
  {
    forall b | b in All(s) ensures HeaderAway(b, head) {
      BlockAway(s, head, b);
    }
    if ops != [] {
      assert ops[0].AddRegion? ==> Away(ops[0].block, head);
      StepInv(s, ops[0]);
      AwayForEver(Step(s, ops[0]), ops[1..], head);
    }
  }

  /** What goes wrong otherwise: when the header of a free block lies on the sentinel, no memory
      holds the list, unless its size word is the sentinel's first and the size happens to be
      the address of the first block. */
  lemma NoSuchRing(m: map<nat, nat>, head: nat, s: HeapState, k: nat)
    requires k < |s.free| && !HeaderAway(s.free[k], head) && s.free[k].addr % 8 == 0 && head % 8 == 0
    ensures Represents(m, head, s) ==> s.free[k].addr + 16 == head && s.free[k].size == s.free[0].addr
  {
    var r := Nodes(head, s.free);
    assert r[0] == head && r[k + 1] == s.free[k].addr && r[1] == s.free[0].addr;
    if Represents(m, head, s) {
      assert Apart(r[0], r[k + 1]) && Linked(m, r, 0);
      assert s.free[k] in All(s) && Stored(m, s.free[k]);
    }
  }

  lemma EnabledAddable(s: HeapState, head: nat, limit: nat, b: Block)
    requires limit < WORD_SPAN && Enabled(s, AddRegion(b)) && HeaderAway(b, head) && b.End() <= limit
    ensures Addable(s, head, limit, b.addr, HEADER + b.size) && RegionBlock(b.addr, HEADER + b.size) == b
  {
    assert AlignUp(b.addr) == b.addr;
    Confluence.SeparateBlocks(s.regions, b);
  }

  lemma NewHeader(s: HeapState, head: nat, limit: nat, m: map<nat, nat>, w: map<nat, nat>, b: Block)
    requires Placed(s, head, limit) && Represents(m, head, s) && Ram(m, limit)
    requires b.addr % 8 == 0 && b.End() <= limit && HeaderAway(b, head)
    requires forall c :: c in All(s) ==> Disjoint(c, b)
    requires w == m[b.addr + 16 := b.size]
    ensures w.Keys == m.Keys && b.addr in w && b.addr + 8 in w
    ensures Ring(w, Nodes(head, s.free))
    ensures forall i :: 0 <= i < |Nodes(head, s.free)| ==> Apart(b.addr, Nodes(head, s.free)[i])
  {
    var r := Nodes(head, s.free);
    assert b.addr + 16 in m;
    Layout(s, head, limit);
    forall i | 0 <= i < |r| ensures Apart(b.addr, r[i]) && SameNode(m, w, r[i]) {
      if i > 0 {
        assert r[i] == s.free[i - 1].addr && s.free[i - 1] in All(s);
      }
    }
    RingFrame(m, w, r);
  }

  lemma NewSizeStored(s: HeapState, m: map<nat, nat>, w: map<nat, nat>, b: Block)
    requires forall c :: c in All(s) ==> Stored(m, c) && Disjoint(c, b)
    requires w == m[b.addr + 16 := b.size] && b.addr in w && b.addr + 8 in w
    ensures forall c :: c in All(AfterAddRegion(s, b)) ==> Stored(w, c)
  {
    forall c | c in All(AfterAddRegion(s, b)) && c != b ensures Stored(w, c) {
      assert c in All(s);
    }
  }

  lemma NewNodes(s: HeapState, head: nat, b: Block)
    ensures var t := AfterAddRegion(s, b);
            && [head, b.addr] + Nodes(head, s.free)[1..] == Nodes(head, t.free)
            && IsNode(t, head, b.addr) && IsNode(t, head, Succ(Nodes(head, s.free), 0))
  {
    FreeIsNode(AfterAddRegion(s, b), head, 0);
    FreeIsNode(AfterAddRegion(s, b), head, 1);
  }

  lemma NewBlockStored(s: HeapState, head: nat, limit: nat, m: map<nat, nat>, w: map<nat, nat>, v: map<nat, nat>, b: Block)
    requires Represents(m, head, s)
    requires Placed(AfterAddRegion(s, b), head, limit)
    requires forall c :: c in All(s) ==> Disjoint(c, b)
    requires w == m[b.addr + 16 := b.size] && b.addr in w && b.addr + 8 in w && w.Keys == m.Keys == v.Keys
    requires Ring(v, [head, b.addr] + Nodes(head, s.free)[1..])
    requires forall a :: a in v && a !in {b.addr, b.addr + 8, head, Succ(Nodes(head, s.free), 0) + 8} ==> v[a] == w[a]
    ensures Represents(v, head, AfterAddRegion(s, b))
  {
    var t := AfterAddRegion(s, b);
    NewSizeStored(s, m, w, b);
    NewNodes(s, head, b);
    SizesKept(t, head, limit, w, v, b.addr, head, Succ(Nodes(head, s.free), 0));
  }

  lemma NewBlockFrame(s: HeapState, head: nat, limit: nat, m: map<nat, nat>, w: map<nat, nat>, v: map<nat, nat>, b: Block)
    requires Placed(s, head, limit)
    requires forall c :: c in All(s) ==> Disjoint(c, b)
    requires w == m[b.addr + 16 := b.size] && w.Keys == m.Keys == v.Keys
    requires forall a :: a in v && a !in {b.addr, b.addr + 8, head, Succ(Nodes(head, s.free), 0) + 8} ==> v[a] == w[a]
    ensures OnlyHeaders(m, v, head, s.free + [b])
    ensures SameBytes(m, v, head, s.live)
  {
    var h := s.free + [b];
    var next := Succ(Nodes(head, s.free), 0);
    assert b in h && (next == head || (next == s.free[0].addr && s.free[0] in h));
    Layout(s, head, limit);
    forall c, d | c in s.live && d in h ensures Disjoint(c, d) {
      assert c in All(s);
    }
    LiveUntouched(s, head, limit, m, v, h, s.live);
  }

  lemma NewBlockDone(s: HeapState, head: nat, limit: nat, m: map<nat, nat>, w: map<nat, nat>, v: map<nat, nat>, b: Block)
    requires Placed(s, head, limit) && Represents(m, head, s)
    requires Placed(AfterAddRegion(s, b), head, limit)
    requires forall c :: c in All(s) ==> Disjoint(c, b)
    requires w == m[b.addr + 16 := b.size] && b.addr in w && b.addr + 8 in w && w.Keys == m.Keys == v.Keys
    requires Ring(v, [head, b.addr] + Nodes(head, s.free)[1..])
    requires forall a :: a in v && a !in {b.addr, b.addr + 8, head, Succ(Nodes(head, s.free), 0) + 8} ==> v[a] == w[a]
    ensures Represents(v, head, AfterAddRegion(s, b))
    ensures OnlyHeaders(m, v, head, s.free + [b])
    ensures SameBytes(m, v, head, s.live)
  {
    NewBlockStored(s, head, limit, m, w, v, b);
    NewBlockFrame(s, head, limit, m, w, v, b);
  }

  class Heap {
    const ram: Memory
    // address of the sentinel `free_list`
    const head: nat
    // end of the physical memory
    const limit: nat
    ghost var state: HeapState

    ghost predicate Valid()
      reads this, ram
    {
      && limit < WORD_SPAN
      && Ram(ram.word, limit)
      && Placed(state, head, limit)
      && Represents(ram.word, head, state)
    }

    constructor (ram: Memory, head: nat, limit: nat)
      requires limit < WORD_SPAN && Ram(ram.word, limit)
      requires head in ram.word && head + 8 in ram.word
      modifies ram
      ensures Valid() && state == EMPTY
      ensures this.ram == ram && this.head == head && this.limit == limit
      ensures ram.word == old(ram.word)[head := head][head + 8 := head]
    {
      this.ram, this.head, this.limit := ram, head, limit;
      state := EMPTY;
      new;
      ram.word := ram.word[head := head][head + 8 := head];
    }

    /** The search loop of kmalloc: the header of the first block that is big enough, or the
        sentinel. */
    method FindFit(n: nat) returns (found: nat, ghost k: nat)
      requires Valid()
      ensures k == FirstFit(state.free, n)
      ensures found == NodeAt(head, state.free, FirstFit(state.free, n))
      ensures found == head <==> forall j :: 0 <= j < |state.free| ==> state.free[j].size < n
    {
      NextNode(state, head, limit, ram.word, 0);
      found := ram.word[head];
      k := 0;
      while found != head && ram.word[found + 16] < n
        invariant k <= |state.free|
        invariant found == NodeAt(head, state.free, k)
        invariant found == head <==> k == |state.free|
        invariant k < |state.free| ==> Stored(ram.word, state.free[k])
        invariant forall j :: 0 <= j < k ==> state.free[j].size < n
        decreases |state.free| - k
      {
        NextNode(state, head, limit, ram.word, k);
        found := ram.word[found];
        k := k + 1;
        NextNode(state, head, limit, ram.word, k);
        assert k < |state.free| ==> state.free[k] in All(state);
      }
    }

    /** Cuts the block at position k after n bytes; the rest follows it in the list. */
    method Split(found: nat, n: nat, ghost k: nat)
      requires Valid() && k < |state.free| && found == state.free[k].addr
      requires n % 8 == 0 && n <= state.free[k].size && Splits(state.free[k], n)
      requires HeaderAway(Remainder(state.free[k], n), head)
      modifies this, ram
      ensures Valid()
      ensures state == Cut(old(state), k, n)
      ensures OnlyHeaders(old(ram.word), ram.word, head, state.free)
    {
      ghost var s := state;
      ghost var m := ram.word;
      ghost var r := Nodes(head, s.free);
      assert Stored(m, s.free[k]) by { assert s.free[k] in All(s); }
      var newBlock := found + HEADER + n;
      ram.word := ram.word[newBlock + 16 := ram.word[found + 16] - n - HEADER];
      ram.word := ram.word[found + 16 := n];
      ghost var w := ram.word;
      CutRing(s, head, limit, m, w, k, n);
      CutStored(s, head, limit, m, w, k, n);
      assert Linked(w, r, k + 1);
      ram.ListAdd_(newBlock, found, ram.word[found], r, k + 1);
      state := Cut(s, k, n);
      CutDone(s, head, limit, m, w, ram.word, k, n);
    }

    /** Takes the block at position k out of the list and hands it out. */
    method Unlink(found: nat, ghost k: nat)
      requires Valid() && k < |state.free| && found == state.free[k].addr
      modifies this, ram
      ensures Valid()
      ensures state == Handed(old(state), k)
      ensures OnlyHeaders(old(ram.word), ram.word, head, old(state).free)
    {
      ghost var s := state;
      ghost var m := ram.word;
      ghost var r := Nodes(head, s.free);
      ram.ListDel(found, r, k + 1);
      state := Handed(s, k);
      HandedInv(s, k);
      assert RemoveAt(r, k + 1) == Nodes(head, state.free);
      ghost var p, q := Pred(r, k + 1), Succ(r, k + 1);
      NodeOwner(s, head, k);
      FreeIsNode(s, head, k);
      FreeIsNode(s, head, k + 1);
      SizesKept(s, head, limit, m, ram.word, found, p, q);
      UnlinkFrame(s, head, m, ram.word, k);
    }

    method Kmalloc(size: nat) returns (ptr: nat)
      requires Valid() && size < WORD_SPAN && HeadersAway(AfterMalloc(state, size), head)
      modifies this, ram
      ensures Valid()
      ensures ptr == MallocResult(old(state), size)
      ensures state == AfterMalloc(old(state), size)
      ensures OnlyHeaders(old(ram.word), ram.word, head, old(state).free + state.free)
      ensures SameBytes(old(ram.word), ram.word, head, old(state).live)
    {
      ptr := 0;
      if size > 0 {
        var n := AlignUp(size);
        var found;
        ghost var k;
        found, k := FindFit(n);
        if found != head {
          ptr := found + HEADER;
          ghost var s, m := state, ram.word;
          assert Stored(ram.word, s.free[k]) by { assert s.free[k] in All(s); }
          if ram.word[found + 16] - n >= MIN_ALLOC {
            AlignUpMeaning(size);
            assert Remainder(s.free[k], n) in All(AfterMalloc(s, size)) by {
              assert AfterMalloc(s, size).free[k] == Remainder(s.free[k], n);
            }
            Split(found, n, k);
          }
          Unlink(found, k);
          HandedOut(s, k, size);
          MallocFrame(s, head, limit, m, ram.word, size);
        }
      }
    }

    /** The search loop of kfree: the first free block at a higher address, or the sentinel. */
    method FindSpot(addr: nat) returns (spot: nat, ghost k: nat)
      requires Valid()
      ensures k == InsertIndex(state.free, addr)
      ensures spot == NodeAt(head, state.free, InsertIndex(state.free, addr))
      ensures spot == head <==> forall j :: 0 <= j < |state.free| ==> state.free[j].addr <= addr
    {
      NextNode(state, head, limit, ram.word, 0);
      spot := ram.word[head];
      k := 0;
      while spot != head && spot <= addr
        invariant k <= |state.free|
        invariant spot == NodeAt(head, state.free, k)
        invariant spot == head <==> k == |state.free|
        invariant forall j :: 0 <= j < k ==> state.free[j].addr <= addr
        decreases |state.free| - k
      {
        NextNode(state, head, limit, ram.word, k);
        spot := ram.word[spot];
        k := k + 1;
        NextNode(state, head, limit, ram.word, k);
      }
    }

    /** kfree's two ways of linking a block: before a node of the list, or at its tail. */
    method LinkBefore(current: nat, spot: nat, ghost r: seq<nat>, ghost k: nat)
      requires Ring(ram.word, r) && k < |r| && r[0] == head && spot == Succ(r, k)
      requires spot == head <==> k + 1 == |r|
      requires current in ram.word && current + 8 in ram.word
      requires forall i :: 0 <= i < |r| ==> Apart(current, r[i])
      modifies ram
      ensures Ring(ram.word, InsertAfter(r, k, current))
      ensures ram.word.Keys == old(ram.word).Keys
      ensures forall a :: a in ram.word && a !in {current, current + 8, r[k], spot + 8} ==> ram.word[a] == old(ram.word)[a]
    {
      if spot != head {
        assert Linked(ram.word, r, k + 1);
        ram.ListAdd_(current, ram.word[spot + 8], spot, r, k);
      } else {
        ram.ListAddTail(current, head, r);
        assert InsertAfter(r, k, current) == r + [current];
      }
    }

    method InsertAt(current: nat, spot: nat, ghost j: nat, ghost k: nat)
      requires Valid() && j < |state.live| && current == state.live[j].addr
      requires k == InsertIndex(state.free, current) && spot == NodeAt(head, state.free, k)
      requires spot == head <==> k == |state.free|
      modifies this, ram
      ensures Valid()
      ensures state == Returned(old(state), j)
      ensures OnlyHeaders(old(ram.word), ram.word, head, old(state).free + [old(state).live[j]])
    {
      ghost var s, m := state, ram.word;
      InsertReady(s, head, limit, m, j);
      LinkBefore(current, spot, Nodes(head, s.free), k);
      ReturnedStored(s, head, limit, m, ram.word, j, k);
      state := Returned(s, j);
    }

    /** Links the live block at position j into the list, before the first higher block. */
    method Insert(current: nat, ghost j: nat)
      requires Valid() && j < |state.live| && current == state.live[j].addr
      modifies this, ram
      ensures Valid()
      ensures state == Returned(old(state), j)
      ensures OnlyHeaders(old(ram.word), ram.word, head, old(state).free + [old(state).live[j]])
    {
      var spot;
      ghost var k;
      spot, k := FindSpot(current);
      InsertAt(current, spot, j, k);
    }

    /** last_block takes over the block behind it, which leaves the list. */
    method Absorb(lastBlock: nat, block: nat, ghost k: nat)
      requires Valid() && k + 1 < |state.free|
      requires lastBlock == state.free[k].addr && block == state.free[k + 1].addr
      requires state.free[k].End() == block
      modifies this, ram
      ensures Valid()
      ensures state == Merge(old(state), k)
      ensures OnlyHeaders(old(ram.word), ram.word, head, old(state).free)
    {
      ghost var s := state;
      ghost var m := ram.word;
      ghost var r := Nodes(head, s.free);
      assert Stored(m, s.free[k]) && Stored(m, s.free[k + 1]) by {
        assert s.free[k] in All(s) && s.free[k + 1] in All(s);
      }
      ram.word := ram.word[lastBlock + 16 := ram.word[lastBlock + 16] + (HEADER + ram.word[block + 16])];
      SizeStore(s, head, limit, m, ram.word, s.free[k]);
      NodesAround(head, s.free, k);
      ghost var w := ram.word;
      ram.ListDel(block, r, k + 2);
      AbsorbedState(s, head, limit, m, w, ram.word, k);
      state := Merge(s, k);
    }

    /** The body of the pass for one block: merge it into last_block or pass over it. */
    method Visit(lastBlock: nat, block: nat, ghost k: nat) returns (last: nat)
      requires Valid() && k < |state.free|
      requires lastBlock == if k == 0 then 0 else state.free[k - 1].addr
      requires block == state.free[k].addr
      modifies this, ram
      ensures Valid()
      ensures state == Visited(old(state), k)
      ensures last == if Merges(old(state).free, k) then lastBlock else block
      ensures OnlyHeaders(old(ram.word), ram.word, head, old(state).free)
    {
      assert k > 0 ==> state.free[k - 1] in All(state) && Stored(ram.word, state.free[k - 1]);
      if lastBlock != 0 && lastBlock + HEADER + ram.word[lastBlock + 16] == block {
        Absorb(lastBlock, block, k - 1);
        last := lastBlock;
      } else {
        last := block;
      }
    }

    /** defrag_free_list: one pass over the list. `temp` is read before the block it follows
        may be unlinked, so that every block of the list is visited once, in order, whichever
        of them are unlinked on the way. */
    method DefragFreeList() returns (ghost visited: seq<nat>)
      requires Valid()
      modifies this, ram
      ensures Valid()
      ensures state == old(state).(free := Coalesce(old(state).free))
      ensures visited == Addrs(old(state).free)
      ensures OnlyHeaders(old(ram.word), ram.word, head, old(state).free)
    {
      ghost var s := state;
      ghost var k := 0;  // blocks passed; the last of them is last_block
      ghost var i := 0;  // original blocks visited
      visited := [];
      var lastBlock := 0;
      NextNode(state, head, limit, ram.word, 0);
      var block := ram.word[head];
      var temp := ram.word[block];
      while block != head
        invariant Valid() && state == s.(free := state.free)
        invariant MidPass(s.free, state.free, i, k, lastBlock, visited)
        invariant block == NodeAt(head, state.free, k)
        invariant block == head <==> k == |state.free|
        invariant block != head ==> temp == NodeAt(head, state.free, k + 1)
        invariant OnlyHeaders(old(ram.word), ram.word, head, s.free)
        decreases |s.free| - i
      {
        ghost var before, v := state, ram.word;
        MidPassStep(s.free, before, head, i, k, lastBlock, visited);
        lastBlock := Visit(lastBlock, block, k);
        HeadersChain(old(ram.word), v, ram.word, head, s.free, before.free);
        visited := visited + [block];
        k := if Merges(before.free, k) then k else k + 1;
        NextNode(state, head, limit, ram.word, k);
        i := i + 1;
        block := temp;
        temp := ram.word[temp];
      }
      PassDone(s.free, state.free);
    }

    /** Frees a live block; NULL is ignored. */
    method Kfree(ptr: nat)
      requires Valid() && Freeable(state, ptr)
      modifies this, ram
      ensures Valid()
      ensures state == AfterFree(old(state), ptr)
      ensures OnlyHeaders(old(ram.word), ram.word, head, old(state).free + Moved(old(state), ptr))
      ensures SameBytes(old(ram.word), ram.word, head, state.live)
      ensures ptr == 0 ==> state == old(state) && ram.word == old(ram.word)
    {
      if ptr != 0 {
        ghost var s := state;
        ghost var m := ram.word;
        ghost var j := LiveIndex(s.live, ptr - HEADER);
        var current := ptr - HEADER;
        Insert(current, j);
        ghost var v := ram.word;
        ghost var visited := DefragFreeList();
        FreeFrame(s, head, limit, m, v, ram.word, j);
      }
    }

    /** malloc_addblock: makes one free block of a region and puts it first in the list. */
    method MallocAddBlock(addr: nat, size: nat)
      requires Valid() && Addable(state, head, limit, addr, size)
      modifies this, ram
      ensures Valid()
      ensures state == AfterAddRegion(old(state), RegionBlock(addr, size))
      ensures OnlyHeaders(old(ram.word), ram.word, head, old(state).free + [RegionBlock(addr, size)])
      ensures SameBytes(old(ram.word), ram.word, head, old(state).live)
    {
      ghost var s, m := state, ram.word;
      ghost var b := RegionBlock(addr, size);
      ghost var r := Nodes(head, s.free);
      AddablePlaced(s, head, limit, addr, size);
      var block := AlignUp(addr);
      ram.word := ram.word[block + 16 := addr + size - block - HEADER];
      NewHeader(s, head, limit, m, ram.word, b);
      ghost var w := ram.word;
      ram.ListAdd(block, head, r);
      NewBlockDone(s, head, limit, m, w, ram.word, b);
      state := AfterAddRegion(s, b);
    }

    /** What a caller of kmalloc may do: store a word behind the header of its block, unless
        that is a word of the sentinel. */
    method StorePayload(a: nat, v: nat, ghost b: Block)
      requires Valid() && b in state.live
      requires a % 8 == 0 && b.Payload() <= a && a + 8 <= b.End() && a != head && a != head + 8
      modifies ram
      ensures Valid() && state == old(state)
      ensures a in old(ram.word) && ram.word == old(ram.word)[a := v]
    {
      BlockPlaced(state, head, limit, b);
      assert a in ram.word;
      PayloadStore(state, head, limit, ram.word, b, a, v);
      ram.word := ram.word[a := v];
    }

    /** One call, as an operation of the state machine. */
    method Perform(op: Op)
      requires Valid() && Enabled(state, op) && HeadersAway(Step(state, op), head)
      requires op.AddRegion? ==> op.block.End() <= limit
      modifies this, ram
      ensures Valid() && state == Step(old(state), op)
    {
      match op
      case AddRegion(b) =>
        assert AfterAddRegion(state, b).free[0] == b && b in All(AfterAddRegion(state, b));
        EnabledAddable(state, head, limit, b);
        MallocAddBlock(b.addr, HEADER + b.size);
      case Malloc(size) =>
        var ptr := Kmalloc(size);
      case Free(ptr) =>
        Kfree(ptr);
    }

    /** Every legal run of calls on the memory that puts no header on the sentinel is the run of
        the state machine, so that what is proved of every run holds of the blocks in memory. */
    method PerformAll(ops: seq<Op>)
      requires Valid() && Legal(state, ops) && StaysAway(state, ops, head) && InMemory(ops, limit)
      modifies this, ram
      ensures Valid() && state == Run(old(state), ops)
    {
      var i := 0;
      assert ops[0..] == ops;
      while i < |ops|
        invariant i <= |ops| && Valid()
        invariant Legal(state, ops[i..]) && StaysAway(state, ops[i..], head)
        invariant Run(state, ops[i..]) == Run(old(state), ops)
      {
        assert ops[i..][0] == ops[i] && ops[i..][1..] == ops[i + 1..];
        Perform(ops[i]);
        i := i + 1;
      }
    }
  }
}
