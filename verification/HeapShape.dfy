/** The free-list heap of memmgr.c as a value: one quantum of memory, the shape of a heap
    (which addresses carry a free or a live block header) and what makes a shape well formed.
    Addresses count quanta; 0 is the null pointer, 1 is the static `base` header and the pool
    begins at 2, so `base` lies below the pool. */
module HeapShape {
  import opened Bytes

  const NULL: nat := 0
  const BASE: nat := 1
  const POOL: nat := 2
  const QUANTUM: nat := 8
  const MIN_POOL_ALLOC_QUANTAS: nat := 128
  const WORD: nat := 0x1_0000_0000

  /** One quantum of pool memory. The same eight bytes are a block header or user data;
      each view can be read through the other, as the C union does. */
  datatype Quantum = Header(next: nat, size: nat) | Data(bytes: seq<Byte>) {
    function Next(): nat {
      match this
      case Header(n, _) => n
      case Data(bs) => if |bs| == QUANTUM then Decode(bs[..4]) else 0
    }

    function Size(): nat {
      match this
      case Header(_, s) => s
      case Data(bs) => if |bs| == QUANTUM then Decode(bs[4..]) else 0
    }

    function Bytes(): (bs: seq<Byte>)
      ensures |bs| == QUANTUM
    {
      match this
      case Header(n, s) => Encode32(n) + Encode32(s)
      case Data(bs) => if |bs| == QUANTUM then bs else seq(QUANTUM, _ => 0)
    }
  }

  type Memory = seq<Quantum>

  /** Block headers of a heap: addresses of free blocks, of live blocks, and the end of the
      part of the pool handed out so far. */
  datatype Shape = Shape(free: set<int>, live: set<int>, top: int) {
    ghost predicate IsNode(a: int) { a == BASE || a in free }
    ghost predicate IsHead(a: int) { a in free || a in live }
  }

  /** Every quantum of [POOL, top) belongs to exactly one block. */
  ghost predicate Tiled(m: Memory, s: Shape) {
    && POOL <= s.top <= |m|
    && (s.top > POOL ==> s.IsHead(POOL))
    && (forall a {:trigger s.IsHead(a)} :: s.IsHead(a) ==> IsBlock(m, s, a))
  }

  /** Block `a` is nonempty, holds no other header, and ends at the next header or the top. */
  ghost predicate IsBlock(m: Memory, s: Shape, a: int)
    requires s.top <= |m|
  {
    && !(a in s.free && a in s.live)
    && POOL <= a < s.top && m[a].Header?
    && m[a].size >= 1
    && a + m[a].size <= s.top
    && (a + m[a].size == s.top || a + m[a].size in s.free || a + m[a].size in s.live)
    && (forall r {:trigger s.IsHead(r)} :: a < r < a + m[a].size ==> !s.IsHead(r))
  }

  /** The free list is one cycle through `base` in address order. */
  ghost predicate Linked(m: Memory, s: Shape) {
    && POOL <= s.top <= |m| && BASE !in s.free
    && m[BASE].Header? && m[BASE].size == 0
    && (forall a {:trigger s.IsNode(a)} :: s.IsNode(a) ==> IsLink(m, s, a))
  }

  /** Node `a` lies in the used pool or is `base`, and links to the next free block above it,
      or to `base` when there is none. */
  ghost predicate IsLink(m: Memory, s: Shape, a: int)
    requires s.top <= |m|
  {
    && BASE <= a < s.top && m[a].Header?
    && var n := m[a].next;
      if n == BASE then forall g :: g in s.free ==> g <= a
      else n in s.free && a < n && forall g :: g in s.free ==> g <= a || n <= g
  }

  /** No free block ends where another one begins. */
  ghost predicate Coalesced(m: Memory, s: Shape)
    requires s.top <= |m|
  {
    forall a {:trigger s.IsNode(a)} :: a in s.free && s.IsNode(a) && 0 <= a < |m| ==> a + m[a].Size() !in s.free
  }

  ghost predicate WellFormed(m: Memory, s: Shape) {
    Tiled(m, s) && Linked(m, s) && Coalesced(m, s)
  }

  // ----- the partition of the pool

  /** The block that a quantum of the used pool belongs to. */
  ghost function BlockOf(m: Memory, s: Shape, q: int): (a: int)
    requires Tiled(m, s) && POOL <= q < s.top
    ensures s.IsHead(a) && IsBlock(m, s, a) && a <= q < a + m[a].size
    decreases q
  {
    if s.IsHead(q) then q
    else
      var a := BlockOf(m, s, q - 1);
      a
  }

  /** Exactly one block holds each quantum: the one BlockOf names. */
  lemma BlockIsUnique(m: Memory, s: Shape, q: int, a: int)
    requires Tiled(m, s) && POOL <= q < s.top
    requires s.IsHead(a) && a <= q < a + m[a].Size()
    ensures a == BlockOf(m, s, q)
  {
    var b := BlockOf(m, s, q);
    assert IsBlock(m, s, a) && s.IsHead(a) && s.IsHead(b);
  }

  /** The free list is determined by the live blocks and the top alone: whatever order blocks
      were freed in, the free blocks are the maximal gaps between the live ones. */
  lemma FreeListIsCanonical(m1: Memory, s1: Shape, m2: Memory, s2: Shape)
    requires WellFormed(m1, s1) && WellFormed(m2, s2)
    requires s1.top == s2.top && s1.live == s2.live
    requires forall a :: a in s1.live && 0 <= a < s1.top ==> m1[a].Size() == m2[a].Size()
    ensures s1.free == s2.free
    ensures forall a :: s1.IsNode(a) && 0 <= a < s1.top ==> m1[a] == m2[a]
  {
    forall a | a in s1.free ensures a in s2.free { FreeHeadTransfers(m1, s1, m2, s2, a); }
    forall a | a in s2.free ensures a in s1.free { FreeHeadTransfers(m2, s2, m1, s1, a); }
    forall a | s1.IsNode(a) ensures m1[a] == m2[a] {
      assert s2.IsNode(a);
      if a != BASE {
        FreeExtentTransfers(m1, s1, m2, s2, a);
        FreeExtentTransfers(m2, s2, m1, s1, a);
      }
    }
  }

  lemma FreeHeadTransfers(m1: Memory, s1: Shape, m2: Memory, s2: Shape, a: int)
    requires WellFormed(m1, s1) && WellFormed(m2, s2)
    requires s1.top == s2.top && s1.live == s2.live
    requires forall b :: b in s1.live && 0 <= b < s1.top ==> m1[b].Size() == m2[b].Size()
    requires a in s1.free
    ensures a in s2.free
  {
    assert s1.IsHead(a);
    var g := BlockOf(m2, s2, a);
    assert g in s2.live ==> s1.IsHead(g);
    if g in s2.free && g < a {
      var e := BlockOf(m1, s1, a - 1);
      if e in s1.free {
        assert s1.IsNode(e);
      } else {
        assert s2.IsHead(e);
      }
    }
  }

  lemma FreeExtentTransfers(m1: Memory, s1: Shape, m2: Memory, s2: Shape, a: int)
    requires WellFormed(m1, s1) && WellFormed(m2, s2)
    requires s1.top == s2.top && s1.live == s2.live && s1.free == s2.free
    requires a in s1.free
    ensures 0 <= a < s1.top && m1[a].Size() <= m2[a].Size()
  {
    assert s1.IsHead(a) && s2.IsHead(a) && s2.IsNode(a);
    if m2[a].size < m1[a].size {
      assert s1.IsHead(a + m2[a].size);
    }
  }

  // ----- the free list as a cycle

  /** The address reached after following `next` k times from `base`. */
  ghost function Walk(m: Memory, s: Shape, k: nat): (a: int)
    requires Linked(m, s)
    ensures s.IsNode(a) && BASE <= a < s.top
  {
    if k == 0 then BASE
    else m[Walk(m, s, k - 1)].Next()
  }

  ghost function Below(s: Shape, a: int): set<int> { set g | g in s.free && g < a }

  /** Walking from `base` meets the free blocks in address order: after k steps exactly k - 1
      free blocks lie below the one reached. */
  lemma {:induction false} WalkAscends(m: Memory, s: Shape, k: nat)
    requires Linked(m, s) && 1 <= k <= |s.free|
    ensures Walk(m, s, k) in s.free
    ensures |Below(s, Walk(m, s, k))| == k - 1
  {
    var b := Walk(m, s, k - 1);
    var n := m[b].Next();
    assert s.IsNode(b) && IsLink(m, s, b);
    if k == 1 {
      forall g | g in s.free ensures g > BASE { assert s.IsNode(g); }
      assert n == BASE ==> s.free == {};
      assert Below(s, n) == {};
    } else {
      WalkAscends(m, s, k - 1);
      assert n == BASE ==> s.free == Below(s, b) + {b};
      assert Below(s, n) == Below(s, b) + {b};
    }
  }

  /** The free list is one cycle: |free| + 1 steps from `base` lead back to `base`. */
  lemma WalkReturns(m: Memory, s: Shape)
    requires Linked(m, s)
    ensures Walk(m, s, |s.free| + 1) == BASE
  {
    var b := Walk(m, s, |s.free|);
    assert s.IsNode(b) && IsLink(m, s, b);
    if m[b].next != BASE {
      if |s.free| > 0 {
        WalkAscends(m, s, |s.free|);
        SubsetSize(Below(s, b) + {b} + {m[b].next}, s.free);
      }
    }
  }

  /** Every free block is met on the cycle, at the step its rank among the free blocks gives. */
  lemma WalkMeets(m: Memory, s: Shape, a: int)
    requires Linked(m, s) && a in s.free
    ensures |Below(s, a)| < |s.free| && Walk(m, s, |Below(s, a)| + 1) == a
  {
    SubsetSize(Below(s, a) + {a}, s.free);
    var i := |Below(s, a)| + 1;
    WalkAscends(m, s, i);
    BelowOrder(s, Walk(m, s, i), a);
    BelowOrder(s, a, Walk(m, s, i));
  }

  /** No free block is met twice on the cycle, and the addresses ascend. */
  lemma WalkIsStrict(m: Memory, s: Shape, i: nat, j: nat)
    requires Linked(m, s) && 1 <= i < j <= |s.free|
    ensures Walk(m, s, i) < Walk(m, s, j)
  {
    WalkAscends(m, s, i);
    WalkAscends(m, s, j);
    BelowOrder(s, Walk(m, s, i), Walk(m, s, j));
  }

  lemma BelowOrder(s: Shape, a: int, b: int)
    requires a in s.free && b in s.free
    ensures b < a ==> |Below(s, b)| < |Below(s, a)|
  {
    if b < a {
      SubsetSize(Below(s, b) + {b}, Below(s, a));
    }
  }

  lemma SubsetSize(x: set<int>, y: set<int>)
    requires x <= y
    ensures |x| <= |y|
  {
    assert y == x + (y - x);
  }
}
