/** What each heap step does to memory, and that it keeps a heap well formed. */
module HeapSteps {
  import opened HeapShape

  /** Block `a` has the same header and the same contents in both memories. */
  ghost predicate SameBlock(m: Memory, m': Memory, a: int) {
    && 0 <= a < |m| && a + m[a].Size() <= |m| && |m'| == |m|
    && m'[a] == m[a]
    && forall q {:trigger m'[q]} :: a < q < a + m[a].Size() ==> m'[q] == m[q]
  }

  ghost predicate SameBlocks(m: Memory, m': Memory, blocks: set<int>) {
    forall a {:trigger SameBlock(m, m', a)} :: a in blocks ==> SameBlock(m, m', a)
  }

  /** A write to a header, to a quantum of a free block or beyond the top leaves live blocks alone. */
  lemma WriteOutsideBlock(m: Memory, s: Shape, a: int, q: int, v: Quantum)
    requires Tiled(m, s) && a in s.live && 0 <= q < |m|
    requires q < POOL || s.top <= q || (q != a && s.IsHead(q)) || BlockOf(m, s, q) in s.free
    ensures SameBlock(m, m[q := v], a)
  {
    assert s.IsHead(a);
    if POOL <= q < s.top {
      var b := BlockOf(m, s, q);
    }
  }

  // ----- returning a block to the free list

  /** `p` is the node of the free list after which block `b` belongs. */
  ghost predicate IsPredecessor(m: Memory, s: Shape, p: int, b: int) {
    && 0 <= p < b < |m| && s.IsNode(p)
    && m[p].Next() < |m| && (m[p].Next() == BASE || b < m[p].Next())
  }

  function JoinUp(m: Memory, p: int, b: int): bool
    requires 0 <= p < |m| && 0 <= b < |m|
  {
    b + m[b].Size() == m[p].Next()
  }

  function JoinDown(m: Memory, p: int, b: int): bool
    requires 0 <= p < |m| && 0 <= b < |m|
  {
    p + m[p].Size() == b
  }

  ghost function FreedShape(m: Memory, s: Shape, p: int, b: int): Shape
    requires 0 <= p < |m| && 0 <= b < |m|
  {
    Shape(s.free - (if JoinUp(m, p, b) then {m[p].Next() as int} else {}) + (if JoinDown(m, p, b) then {} else {b}),
          s.live - {b}, s.top)
  }

  /** The memory after a block has been returned: its header absorbs the block above when that
      one is free and adjacent, and is absorbed by the one below likewise. */
  function FreedMemory(m: Memory, p: int, b: int): Memory
    requires 0 <= p < |m| && 0 <= b < |m|
    requires m[p].Next() < |m|
  {
    var n := m[p].Next();
    var h := if JoinUp(m, p, b) then Header(m[n].Next(), m[b].Size() + m[n].Size()) else Header(n, m[b].Size());
    m[b := h][p := if JoinDown(m, p, b) then Header(h.next, m[p].Size() + h.size) else Header(b, m[p].Size())]
  }

  lemma FreeKeepsTiles(m: Memory, s: Shape, p: int, b: int)
    requires WellFormed(m, s) && b in s.live && IsPredecessor(m, s, p, b)
    ensures Tiled(FreedMemory(m, p, b), FreedShape(m, s, p, b))
  {
    assert s.IsHead(b) && (p != BASE ==> s.IsHead(p));
    var n := m[p].next;
    assert n != BASE ==> s.IsHead(n) && s.IsNode(n);
    var m', s' := FreedMemory(m, p, b), FreedShape(m, s, p, b);
    forall a | s'.IsHead(a) ensures IsBlock(m', s', a) {
      assert s.IsHead(a);
      forall r | a < r < a + m'[a].size ensures !s'.IsHead(r) { if s.IsHead(r) {} }
    }
    if s'.top > POOL {
      assert s.IsHead(POOL);
    }
  }

  lemma FreeKeepsLinks(m: Memory, s: Shape, p: int, b: int)
    requires WellFormed(m, s) && b in s.live && IsPredecessor(m, s, p, b)
    ensures Linked(FreedMemory(m, p, b), FreedShape(m, s, p, b))
  {
    assert s.IsHead(b) && s.IsNode(p);
    var n := m[p].next;
    assert n != BASE ==> s.IsHead(n) && s.IsNode(n);
    var m', s' := FreedMemory(m, p, b), FreedShape(m, s, p, b);
    forall a | s'.IsNode(a) ensures IsLink(m', s', a) {
      assert a != b ==> s.IsNode(a);
    }
  }

  lemma FreeKeepsCoalesced(m: Memory, s: Shape, p: int, b: int)
    requires WellFormed(m, s) && b in s.live && IsPredecessor(m, s, p, b)
    ensures Coalesced(FreedMemory(m, p, b), FreedShape(m, s, p, b))
  {
    assert s.IsHead(b) && s.IsNode(p) && (p != BASE ==> s.IsHead(p));
    var n := m[p].next;
    assert n != BASE ==> s.IsHead(n) && s.IsNode(n);
    var m', s' := FreedMemory(m, p, b), FreedShape(m, s, p, b);
    forall a | a in s'.free && s'.IsNode(a) && 0 <= a < |m'| ensures a + m'[a].Size() !in s'.free {
      assert a != b ==> s.IsNode(a) && s.IsHead(a);
    }
  }

  /** Returning a live block keeps the heap well formed and leaves every other live block alone. */
  lemma FreeKeepsHeap(m: Memory, s: Shape, p: int, b: int)
    requires WellFormed(m, s) && b in s.live && IsPredecessor(m, s, p, b)
    ensures WellFormed(FreedMemory(m, p, b), FreedShape(m, s, p, b))
    ensures FreedShape(m, s, p, b).IsNode(p)
    ensures SameBlocks(m, FreedMemory(m, p, b), s.live - {b})
  {
    FreeKeepsTiles(m, s, p, b);
    FreeKeepsLinks(m, s, p, b);
    FreeKeepsCoalesced(m, s, p, b);
    var m' := FreedMemory(m, p, b);
    assert s.IsHead(b) && (p != BASE ==> s.IsHead(p));
    forall a | a in s.live - {b} ensures SameBlock(m, m', a) {
      assert s.IsHead(a);
    }
  }

  // ----- taking a block from the free list

  /** The memory and shape after a whole free block `p`, linked from `prev`, has been taken. */
  function TakenWhole(m: Memory, prev: int, p: int): Memory
    requires 0 <= prev < |m| && 0 <= p < |m|
  {
    m[prev := Header(m[p].Next(), m[prev].Size())]
  }

  lemma TakeWholeKeepsHeap(m: Memory, s: Shape, prev: int, p: int)
    requires WellFormed(m, s) && s.IsNode(prev) && 0 <= prev < |m| && m[prev].Next() == p && p in s.free && 0 <= p < |m|
    ensures WellFormed(TakenWhole(m, prev, p), Shape(s.free - {p}, s.live + {p}, s.top))
    ensures SameBlocks(m, TakenWhole(m, prev, p), s.live)
    ensures TakenWhole(m, prev, p)[p].Size() == m[p].Size()
  {
    var m', s' := TakenWhole(m, prev, p), Shape(s.free - {p}, s.live + {p}, s.top);
    assert IsLink(m, s, prev) && s.IsNode(p) && s.IsHead(p) && (prev != BASE ==> s.IsHead(prev));
    forall a | s'.IsHead(a) ensures IsBlock(m', s', a) {
      assert s.IsHead(a);
      forall r | a < r < a + m'[a].size ensures !s'.IsHead(r) { assert !s.IsHead(r); }
    }
    if s'.top > POOL { assert s.IsHead(POOL); }
    forall a | s'.IsNode(a) ensures IsLink(m', s', a) && (a in s'.free ==> a + m'[a].Size() !in s'.free) {
      assert s.IsNode(a) && IsLink(m, s, a);
    }
    forall a | a in s.live ensures SameBlock(m, m', a) { assert s.IsHead(a); }
  }

  /** The memory after the last `n` quanta of the larger free block `p` have been split off. */
  function TakenTail(m: Memory, p: int, n: nat): Memory
    requires 0 <= p < |m| && 1 <= n < m[p].Size() && p + m[p].Size() <= |m|
  {
    var rest := m[p].Size() - n;
    var m1 := m[p := Header(m[p].Next(), rest)];
    m1[p + rest := Header(m1[p + rest].Next(), n)]
  }

  lemma TakeTailKeepsHeap(m: Memory, s: Shape, p: int, n: nat)
    requires WellFormed(m, s) && p in s.free && 0 <= p < |m| && 1 <= n < m[p].Size() && p + m[p].Size() <= |m|
    ensures var t := p + m[p].Size() - n;
            && POOL <= t < s.top && !s.IsHead(t)
            && WellFormed(TakenTail(m, p, n), Shape(s.free, s.live + {t}, s.top))
            && TakenTail(m, p, n)[t].Size() == n
    ensures SameBlocks(m, TakenTail(m, p, n), s.live)
  {
    var t := p + m[p].Size() - n;
    var m', s' := TakenTail(m, p, n), Shape(s.free, s.live + {t}, s.top);
    assert s.IsNode(p) && s.IsHead(p);
    assert !s.IsHead(t);
    forall a | s'.IsHead(a) ensures IsBlock(m', s', a) {
      assert a != t ==> s.IsHead(a);
      forall r | a < r < a + m'[a].size ensures !s'.IsHead(r) { assert !s.IsHead(r); }
    }
    if s'.top > POOL { assert s.IsHead(POOL); }
    forall a | s'.IsNode(a) ensures IsLink(m', s', a) && (a in s'.free ==> a + m'[a].Size() !in s'.free) {
      assert s.IsNode(a) && IsLink(m, s, a);
    }
    BlockIsUnique(m, s, t, p);
    forall a | a in s.live ensures SameBlock(m, m', a) {
      assert s.IsHead(a);
      WriteOutsideBlock(m, s, a, t, m'[t]);
    }
  }

  // ----- extending the used part of the pool

  /** A block carved from the untouched pool becomes a live block at the old top. */
  lemma GrowKeepsHeap(m: Memory, s: Shape, n: nat)
    requires WellFormed(m, s) && n >= 1 && s.top + n <= |m|
    ensures WellFormed(m[s.top := Header(m[s.top].Next(), n)], Shape(s.free, s.live + {s.top}, s.top + n))
    ensures SameBlocks(m, m[s.top := Header(m[s.top].Next(), n)], s.live)
  {
    var m', s' := m[s.top := Header(m[s.top].Next(), n)], Shape(s.free, s.live + {s.top}, s.top + n);
    assert !s.IsHead(s.top);
    forall a | s'.IsHead(a) ensures IsBlock(m', s', a) {
      assert a != s.top ==> s.IsHead(a);
      forall r | a < r < a + m'[a].size ensures !s'.IsHead(r) {
        assert s.IsHead(r) ==> r < s.top;
      }
    }
    if s.top > POOL { assert s.IsHead(POOL); }
    assert s'.IsHead(POOL);
    forall a | s'.IsNode(a) ensures IsLink(m', s', a) && (a in s'.free ==> a + m'[a].Size() !in s'.free) {
      assert s.IsNode(a) && IsLink(m, s, a);
    }
    forall a | a in s.live ensures SameBlock(m, m', a) { assert s.IsHead(a); }
  }
}
