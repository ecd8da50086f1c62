/** The circular doubly linked list, with its links stored in the memory it runs through.

    A node at address a keeps `next` in the word at a and `prev` in the word at a + 8. */
module LinkedList {
  import Arithmetic

  /** Two nodes do not share a word. */
  predicate Apart(a: nat, b: nat) {
    a + 16 <= b || b + 16 <= a
  }

  ghost predicate Distinct(r: seq<nat>) {
    forall i, j :: 0 <= i < j < |r| ==> Apart(r[i], r[j])
  }

  function Succ(r: seq<nat>, i: nat): nat
    requires i < |r|
  {
    if i + 1 == |r| then r[0] else r[i + 1]
  }

  function Pred(r: seq<nat>, i: nat): nat
    requires i < |r|
  {
    if i == 0 then r[|r| - 1] else r[i - 1]
  }

  ghost predicate Linked(m: map<nat, nat>, r: seq<nat>, i: nat)
    requires i < |r|
  {
    && r[i] in m && m[r[i]] == Succ(r, i)
    && r[i] + 8 in m && m[r[i] + 8] == Pred(r, i)
  }

  /** r is the ring of nodes met when following `next` from r[0], and `prev` leads back. */
  ghost predicate Ring(m: map<nat, nat>, r: seq<nat>) {
    r != [] && Distinct(r) && forall i :: 0 <= i < |r| ==> Linked(m, r, i)
  }

  /** Following a link and then the opposite one leads back to the node. */
  lemma LinksInverse(m: map<nat, nat>, r: seq<nat>, i: nat)
    requires Ring(m, r) && i < |r|
    ensures r[i] in m && m[r[i]] + 8 in m && m[m[r[i]] + 8] == r[i]
    ensures r[i] + 8 in m && m[r[i] + 8] in m && m[m[r[i] + 8]] == r[i]
  {
    var s := if i + 1 == |r| then 0 else i + 1;
    var p := if i == 0 then |r| - 1 else i - 1;
    assert Linked(m, r, i) && Linked(m, r, s) && Linked(m, r, p);
  }

  // the node reached from a by following `next` n times
  ghost function Follow(m: map<nat, nat>, a: nat, n: nat): nat
    decreases n
  {
    if n == 0 || a !in m then a else Follow(m, m[a], n - 1)
  }

  // the index reached from i after n steps round a ring of the given size
  function Around(i: nat, n: nat, size: nat): (k: nat)
    requires i < size
    ensures k < size
    decreases n
  {
    if n == 0 then i else Around(if i + 1 == size then 0 else i + 1, n - 1, size)
  }

  lemma {:induction false} FollowAround(m: map<nat, nat>, r: seq<nat>, i: nat, n: nat)
    requires Ring(m, r) && i < |r|
    ensures Follow(m, r[i], n) == r[Around(i, n, |r|)]
    decreases n
  {
    if n > 0 {
      assert Linked(m, r, i);
      FollowAround(m, r, if i + 1 == |r| then 0 else i + 1, n - 1);
    }
  }

  lemma {:induction false} AroundTurns(i: nat, n: nat, size: nat) returns (turns: nat)
    requires i < size
    ensures i + n == size * turns + Around(i, n, size)
    decreases n
  {
    if n == 0 {
      turns := 0;
    } else if i + 1 == size {
      turns := AroundTurns(0, n - 1, size);
      assert size * (turns + 1) == size * turns + size;
      turns := turns + 1;
    } else {
      turns := AroundTurns(i + 1, n - 1, size);
    }
  }

  /** Following next n times, any number of times round. */
  lemma FollowRing(m: map<nat, nat>, r: seq<nat>, i: nat, n: nat)
    requires Ring(m, r) && i < |r|
    ensures 0 <= (i + n) % |r| < |r| && Follow(m, r[i], n) == r[(i + n) % |r|]
  {
    FollowAround(m, r, i, n);
    var turns := AroundTurns(i, n, |r|);
    Arithmetic.DivisionUnique(i + n, |r|, turns, Around(i, n, |r|));
  }

  lemma {:induction false} AroundOnce(i: nat, n: nat, size: nat)
    requires i < size && i + n <= size
    ensures Around(i, n, size) == if i + n == size then 0 else i + n
    decreases n
  {
    if n > 1 {
      AroundOnce(i + 1, n - 1, size);
    }
  }

  // the first turn of a ring
  lemma FollowOnce(m: map<nat, nat>, r: seq<nat>, n: nat)
    requires Ring(m, r) && n <= |r|
    ensures Follow(m, r[0], n) == if n == |r| then r[0] else r[n]
  {
    FollowAround(m, r, 0, n);
    AroundOnce(0, n, |r|);
  }

  /** The memory determines the ring: two rings from the same node are the same sequence. */
  lemma RingUnique(m: map<nat, nat>, r: seq<nat>, t: seq<nat>)
    requires Ring(m, r) && Ring(m, t) && r[0] == t[0]
    ensures r == t
  {
    forall i | 0 <= i < |r| && i < |t| ensures r[i] == t[i] {
      FollowOnce(m, r, i);
      FollowOnce(m, t, i);
    }
    FollowOnce(m, r, |r|);
    FollowOnce(m, t, |t|);
    if |r| < |t| {
      FollowOnce(m, t, |r|);
    } else if |t| < |r| {
      FollowOnce(m, r, |t|);
    }
  }

  function InsertAfter(r: seq<nat>, k: nat, n: nat): seq<nat>
    requires k < |r|
  {
    r[..k + 1] + [n] + r[k + 1..]
  }

  function RemoveAt(r: seq<nat>, k: nat): seq<nat>
    requires k < |r|
  {
    r[..k] + r[k + 1..]
  }

  class Memory {
    // 64-bit words by the address of their first byte
    var word: map<nat, nat>

    /** Links n between two neighbours of the ring. */
    method ListAdd_(n: nat, prev: nat, next: nat, ghost r: seq<nat>, ghost k: nat)
      requires Ring(word, r) && k < |r| && prev == r[k] && next == Succ(r, k)
      requires n in word && n + 8 in word
      requires forall i :: 0 <= i < |r| ==> Apart(n, r[i])
      modifies this
      ensures Ring(word, InsertAfter(r, k, n))
      ensures word.Keys == old(word.Keys)
      ensures forall a :: a in word && a !in {n, n + 8, prev, next + 8} ==> word[a] == old(word)[a]
    {
      ghost var s := if k + 1 == |r| then 0 else k + 1;
      assert Linked(word, r, k) && Linked(word, r, s);
      word := word[next + 8 := n];
      word := word[n := next];
      word := word[n + 8 := prev];
      word := word[prev := n];
      Inserted(old(word), word, r, k, n);
    }

    method ListAdd(n: nat, head: nat, ghost r: seq<nat>)
      requires Ring(word, r) && head == r[0]
      requires n in word && n + 8 in word
      requires forall i :: 0 <= i < |r| ==> Apart(n, r[i])
      modifies this
      ensures Ring(word, [head, n] + r[1..])
      ensures word.Keys == old(word.Keys)
      ensures forall a :: a in word && a !in {n, n + 8, head, Succ(r, 0) + 8} ==> word[a] == old(word)[a]
    {
      assert Linked(word, r, 0);
      ListAdd_(n, head, word[head], r, 0);
      assert InsertAfter(r, 0, n) == [head, n] + r[1..];
    }

    method ListAddTail(n: nat, head: nat, ghost r: seq<nat>)
      requires Ring(word, r) && head == r[0]
      requires n in word && n + 8 in word
      requires forall i :: 0 <= i < |r| ==> Apart(n, r[i])
      modifies this
      ensures Ring(word, r + [n])
      ensures word.Keys == old(word.Keys)
      ensures forall a :: a in word && a !in {n, n + 8, Pred(r, 0), head + 8} ==> word[a] == old(word)[a]
    {
      assert Linked(word, r, 0);
      ListAdd_(n, word[head + 8], head, r, |r| - 1);
      assert InsertAfter(r, |r| - 1, n) == r + [n];
    }

    method ListDel_(prev: nat, next: nat, ghost r: seq<nat>, ghost k: nat)
      requires Ring(word, r) && 0 < k < |r| && prev == Pred(r, k) && next == Succ(r, k)
      modifies this
      ensures Ring(word, RemoveAt(r, k))
      ensures word.Keys == old(word.Keys)
      ensures forall a :: a in word && a !in {prev, next + 8} ==> word[a] == old(word)[a]
    {
      ghost var s := if k + 1 == |r| then 0 else k + 1;
      assert Linked(word, r, k - 1) && Linked(word, r, s);
      word := word[next + 8 := prev];
      word := word[prev := next];
      Removed(old(word), word, r, k);
    }

    /** Unlinks a node other than the sentinel and clears its own links. */
    method ListDel(entry: nat, ghost r: seq<nat>, ghost k: nat)
      requires Ring(word, r) && 0 < k < |r| && entry == r[k]
      modifies this
      ensures Ring(word, RemoveAt(r, k))
      ensures word.Keys == old(word.Keys)
      ensures entry in word && entry + 8 in word && word[entry] == 0 && word[entry + 8] == 0
      ensures forall a :: a in word && a !in {entry, entry + 8, Pred(r, k), Succ(r, k) + 8} ==> word[a] == old(word)[a]
    {
      assert Linked(word, r, k);
      ListDel_(word[entry + 8], word[entry], r, k);
      ghost var m := word;
      word := word[entry := 0];
      word := word[entry + 8 := 0];
      RemovedApart(r, k);
      assert forall i :: 0 <= i < |RemoveAt(r, k)| ==> Linked(m, RemoveAt(r, k), i);
      RingFrame(m, word, RemoveAt(r, k));
    }
  }

  lemma InsertedDistinct(r: seq<nat>, k: nat, n: nat)
    requires Distinct(r) && k < |r|
    requires forall i :: 0 <= i < |r| ==> Apart(n, r[i])
    ensures Distinct(InsertAfter(r, k, n))
  {
    var t := InsertAfter(r, k, n);
    forall i, j | 0 <= i < j < |t| ensures Apart(t[i], t[j]) {
      if i == k + 1 {
        assert t[j] == r[j - 1];
      } else if j == k + 1 {
        assert t[i] == r[i];
      } else {
        assert t[i] == r[if i <= k then i else i - 1] && t[j] == r[if j <= k then j else j - 1];
      }
    }
  }

  lemma InsertedLinked(m: map<nat, nat>, w: map<nat, nat>, r: seq<nat>, k: nat, n: nat, i: nat)
    requires Distinct(r) && k < |r| && i < |r| && Linked(m, r, i)
    requires n in m && n + 8 in m
    requires Apart(n, r[i]) && Succ(r, k) + 8 in m && r[k] in m
    requires w == m[Succ(r, k) + 8 := n][n := Succ(r, k)][n + 8 := r[k]][r[k] := n]
    ensures Linked(w, InsertAfter(r, k, n), if i <= k then i else i + 1)
  {
    var t := InsertAfter(r, k, n);
    var s := if k + 1 == |r| then 0 else k + 1;
    assert i < k ==> Apart(r[i], r[k]);
    assert k < i ==> Apart(r[k], r[i]);
    assert i < s ==> Apart(r[i], r[s]);
    assert s < i ==> Apart(r[s], r[i]);
    assert r[i] != r[k] + 8 && r[i] + 8 != r[k] && r[i] != r[s] + 8 && r[i] + 8 != r[s];
  }

  lemma Inserted(m: map<nat, nat>, w: map<nat, nat>, r: seq<nat>, k: nat, n: nat)
    requires Ring(m, r) && k < |r|
    requires n in m && n + 8 in m
    requires forall i :: 0 <= i < |r| ==> Apart(n, r[i])
    requires w == m[Succ(r, k) + 8 := n][n := Succ(r, k)][n + 8 := r[k]][r[k] := n]
    ensures Ring(w, InsertAfter(r, k, n))
  {
    var t := InsertAfter(r, k, n);
    InsertedDistinct(r, k, n);
    var s := if k + 1 == |r| then 0 else k + 1;
    assert Linked(m, r, k) && Linked(m, r, s);
    forall i | 0 <= i < |t| ensures Linked(w, t, i) {
      if i != k + 1 {
        assert Linked(m, r, if i <= k then i else i - 1);
        InsertedLinked(m, w, r, k, n, if i <= k then i else i - 1);
      } else {
        assert Apart(n, r[k]) && Apart(n, r[s]);
      }
    }
  }

  lemma RemovedDistinct(r: seq<nat>, k: nat)
    requires Distinct(r) && k < |r|
    ensures Distinct(RemoveAt(r, k))
  {
    var t := RemoveAt(r, k);
    forall i, j | 0 <= i < j < |t| ensures Apart(t[i], t[j]) {
      assert t[i] == r[if i < k then i else i + 1] && t[j] == r[if j < k then j else j + 1];
    }
  }

  lemma RemovedApart(r: seq<nat>, k: nat)
    requires Distinct(r) && k < |r|
    ensures forall i :: 0 <= i < |RemoveAt(r, k)| ==> Apart(r[k], RemoveAt(r, k)[i])
  {
    var t := RemoveAt(r, k);
    forall i | 0 <= i < |t| ensures Apart(r[k], t[i]) {
      if i < k {
        assert Apart(r[i], r[k]);
      } else {
        assert Apart(r[k], r[i + 1]);
      }
    }
  }

  lemma RemovedLinked(m: map<nat, nat>, w: map<nat, nat>, r: seq<nat>, k: nat, i: nat)
    requires Distinct(r) && 0 < k < |r| && i < |r| && i != k && Linked(m, r, i)
    requires w == m[Succ(r, k) + 8 := Pred(r, k)][Pred(r, k) := Succ(r, k)]
    ensures Linked(w, RemoveAt(r, k), if i < k then i else i - 1)
  {
    var t := RemoveAt(r, k);
    var p := k - 1;
    var s := if k + 1 == |r| then 0 else k + 1;
    assert i < p ==> Apart(r[i], r[p]);
    assert p < i ==> Apart(r[p], r[i]);
    assert i < s ==> Apart(r[i], r[s]);
    assert s < i ==> Apart(r[s], r[i]);
    assert t[|t| - 1] == r[if s == 0 then p else |r| - 1];
    assert t[0] == r[0] && (i > k + 1 ==> t[i - 2] == r[i - 1]);
    assert r[i] != r[p] + 8 && r[i] + 8 != r[p] && r[i] != r[s] + 8 && r[i] + 8 != r[s];
  }

  lemma Removed(m: map<nat, nat>, w: map<nat, nat>, r: seq<nat>, k: nat)
    requires Ring(m, r) && 0 < k < |r|
    requires w == m[Succ(r, k) + 8 := Pred(r, k)][Pred(r, k) := Succ(r, k)]
    ensures Ring(w, RemoveAt(r, k))
  {
    RemovedDistinct(r, k);
    var t := RemoveAt(r, k);
    forall i | 0 <= i < |t| ensures Linked(w, t, i) {
      assert Linked(m, r, if i < k then i else i + 1);
      RemovedLinked(m, w, r, k, if i < k then i else i + 1);
    }
  }

  ghost predicate SameNode(m: map<nat, nat>, w: map<nat, nat>, a: nat) {
    && (a in m ==> a in w && w[a] == m[a])
    && (a + 8 in m ==> a + 8 in w && w[a + 8] == m[a + 8])
  }

  /** Words outside the nodes of a ring do not matter to it. */
  lemma RingFrame(m: map<nat, nat>, w: map<nat, nat>, r: seq<nat>)
    requires Ring(m, r)
    requires w.Keys == m.Keys
    requires forall i :: 0 <= i < |r| ==> SameNode(m, w, r[i])
    ensures Ring(w, r)
  {
    forall i | 0 <= i < |r| ensures Linked(w, r, i) {
      assert Linked(m, r, i) && SameNode(m, w, r[i]);
    }
  }
}
