/** The memory manager of memmgr.c: first-fit allocation over a fixed pool that is claimed
    lazily, with an address-ordered, coalescing, circular free list. */
module Heap {
  import opened Bytes
  import opened HeapShape
  import opened HeapSteps

  /** What the firmware header says about the device, as set_mem_pool reads it. */
  datatype Device = Unknown | Casio(family: char, model: int)

  function PoolBytes(d: Device): nat {
    if d.Unknown? || d.family != 'C' then 0
    else if d.model < 160 then 3072 * 1024
    else 8192 * 1024
  }

  /** Overrun is the outcome in which the 32-bit room test passes although the pool has no room
      for the block, so that the C code goes on to write a header for memory it does not own. */
  datatype Outcome = Null | Ptr(addr: int) | Overrun

  // ----- 32-bit arithmetic of the request

  /** Quanta for a request and its header; the sum wraps at 32 bits. */
  function Quantas(nbytes: nat): nat {
    (nbytes + QUANTUM - 1) % WORD / QUANTUM + 1
  }

  /** Quanta claimed from the pool for a request of n quanta. */
  function Claim(n: nat): nat {
    if n < MIN_POOL_ALLOC_QUANTAS then MIN_POOL_ALLOC_QUANTAS else n
  }

  /** The room test as coded: product and sum both wrap at 32 bits. */
  predicate RoomTest(freePos: nat, n: nat, poolSize: nat) {
    Wrapped(freePos + Wrapped(n * QUANTUM)) <= poolSize
  }

  function Wrapped(n: nat): nat { n % WORD }

  /** A block of Quantas(nbytes) quanta holds nbytes behind its header exactly when the
      rounding sum does not wrap, and then none of them is too many. */
  lemma QuantasHoldRequest(nbytes: nat)
    requires nbytes < WORD
    ensures 1 <= Quantas(nbytes) && Claim(Quantas(nbytes)) * QUANTUM <= WORD
    ensures (Quantas(nbytes) - 1) * QUANTUM >= nbytes <==> nbytes + QUANTUM - 1 < WORD
    ensures nbytes > 0 && nbytes + QUANTUM - 1 < WORD ==> (Quantas(nbytes) - 2) * QUANTUM < nbytes
  {
  }

  /** Concrete failure: the largest request gets a block without room for a single byte. */
  lemma LargestRequestGetsNothing()
    ensures Quantas(0xffff_ffff) == 1
  {
  }

  /** By number: the pools of the two kinds of device, and the least that is claimed. */
  lemma SizesAre(model: int, n: nat)
    ensures PoolBytes(Unknown) == 0 && PoolBytes(Casio('D', model)) == 0
    ensures PoolBytes(Casio('C', model)) == if model >= 160 then 8_388_608 else 3_145_728
    ensures Claim(n) >= n && Claim(n) >= 128 && (Claim(n) == n || Claim(n) == 128)
  {
  }

  /** A header written as a header and read as bytes, or the other way round, is the same header. */
  lemma ViewsAgree(next: nat, size: nat)
    requires next < WORD && size < WORD
    ensures var d := Data(Header(next, size).Bytes()); d.Next() == next && d.Size() == size
    ensures Data(Header(next, size).Bytes()).Bytes() == Header(next, size).Bytes()
  {
    hide Encode32, Decode;
    var bs := Encode32(next) + Encode32(size);
    assert bs[..4] == Encode32(next) && bs[4..] == Encode32(size);
    Encode32RoundTrip(next);
    Encode32RoundTrip(size);
  }

  /** The coded room test agrees with the true one exactly when no sum reaches 2^32; when one
      does, the test always passes. */
  lemma RoomTestIsExact(freePos: nat, nbytes: nat, poolSize: nat)
    requires nbytes < WORD && freePos <= poolSize < WORD
    ensures var n := Claim(Quantas(nbytes));
            && (RoomTest(freePos, n, poolSize) == (freePos + n * QUANTUM <= poolSize) <==> freePos + n * QUANTUM < WORD)
            && (freePos + n * QUANTUM >= WORD ==> RoomTest(freePos, n, poolSize))
  {
    QuantasHoldRequest(nbytes);
  }

  /** A failing sum: sixteen bytes of a pool of 64 KiB are claimed, and a request near 2^32 passes. */
  lemma WrappedRoomTestPasses()
    ensures var n := Claim(Quantas(0xffff_fff0));
            RoomTest(16, n, 0x1_0000) && 16 + n * QUANTUM > 0x1_0000
  {
  }

  lemma ClaimIsEnough(n: nat)
    ensures Claim(n) >= n
  {
  }

  /** What the room test says of a claim: passed, the position after it is a multiple of a quantum
      inside the pool; failed, the pool is too small; and it passes whenever its sum wraps. */
  lemma RoomAfterTest(freePos: nat, n: nat, poolSize: nat)
    requires freePos % QUANTUM == 0 && poolSize % QUANTUM == 0 && freePos <= poolSize < WORD
    requires n * QUANTUM <= WORD
    ensures RoomTest(freePos, n, poolSize) <==> freePos + n * QUANTUM <= poolSize || freePos + n * QUANTUM >= WORD
    ensures n * QUANTUM < WORD ==> Wrapped(n * QUANTUM) == n * QUANTUM
    ensures (freePos + n * QUANTUM) % QUANTUM == 0 && (freePos + n * QUANTUM) / QUANTUM == freePos / QUANTUM + n
    ensures freePos + n * QUANTUM <= poolSize ==> freePos / QUANTUM + n <= poolSize / QUANTUM
  {
  }

  // ----- the order in which the free list is searched

  /** How far, in addresses, a search that stands at `a` is from coming round to `start`. */
  function Distance(start: int, end: int, a: int): int {
    if a <= start then start - a else start + end - a
  }

  lemma DistanceBelow(start: int, end: int, a: int)
    requires 0 <= start < end && 0 <= a < end
    ensures 0 <= Distance(start, end, a)
  {
  }

  /** No free block can hold n quanta. */
  ghost predicate NoFit(m: Memory, s: Shape, n: nat) {
    forall f :: f in s.free && 0 <= f < |m| ==> m[f].Size() < n
  }

  /** Of the free blocks that can hold n quanta, `f` is met first by a search that begins
      behind `start` and follows the free list. */
  ghost predicate FirstFit(m: Memory, s: Shape, start: int, f: int, n: nat) {
    && f in s.free && 0 <= f < |m| && m[f].Size() >= n
    && forall g :: g in s.free && 0 <= g < |m| && Distance(start, |m|, g) > Distance(start, |m|, f) ==> m[g].Size() < n
  }

  /** A node of the free list lies in the used pool or is `base`, and so does the one it links to. */
  lemma LinkedOn(m: Memory, s: Shape, a: int)
    requires WellFormed(m, s) && s.IsNode(a)
    ensures BASE <= a < s.top && IsLink(m, s, a)
    ensures s.IsNode(m[a].Next()) && BASE <= m[a].Next() < s.top && IsLink(m, s, m[a].Next())
  {
    assert IsLink(m, s, a);
    assert s.IsNode(m[a].Next()) && IsLink(m, s, m[a].Next());
  }

  /** A search from `start` that stands at `p` has passed only free blocks too small for n quanta. */
  ghost predicate Passed(m: Memory, s: Shape, start: int, p: int, n: nat) {
    forall g :: g in s.free && 0 <= g < |m| && Distance(start, |m|, g) > Distance(start, |m|, p) ==> m[g].Size() < n
  }

  /** The search begins at the node behind `start`, the farthest from coming round to it. */
  lemma SearchBegins(m: Memory, s: Shape, start: int, n: nat)
    requires WellFormed(m, s) && s.IsNode(start)
    ensures 0 <= start < |m| && s.IsNode(m[start].Next()) && 0 <= m[start].Next() < |m|
    ensures Passed(m, s, start, m[start].Next(), n)
  {
    LinkedOn(m, s, start);
    forall g | g in s.free ensures Distance(start, |m|, g) <= Distance(start, |m|, m[start].Next()) {
      assert s.IsNode(g) && IsLink(m, s, g);
    }
  }

  /** Each step of the search comes closer to `start` and skips no free block. */
  lemma SearchAdvances(m: Memory, s: Shape, start: int, p: int, n: nat)
    requires WellFormed(m, s) && s.IsNode(start) && s.IsNode(p) && p != start
    ensures 0 <= p < |m|
    ensures 0 <= Distance(start, |m|, m[p].Next()) < Distance(start, |m|, p)
    ensures Passed(m, s, start, p, n) && m[p].Size() < n ==> Passed(m, s, start, m[p].Next(), n)
  {
    LinkedOn(m, s, p);
    LinkedOn(m, s, start);
    forall g | g in s.free && Distance(start, |m|, g) < Distance(start, |m|, p)
      ensures Distance(start, |m|, g) <= Distance(start, |m|, m[p].Next())
    {
      assert s.IsNode(g) && IsLink(m, s, g);
    }
  }

  /** A search that has come round to `start` has seen every free block. */
  lemma SearchEnds(m: Memory, s: Shape, start: int, n: nat)
    requires WellFormed(m, s) && s.IsNode(start) && 0 <= start < |m| && m[start].Size() < n
    requires Passed(m, s, start, start, n)
    ensures NoFit(m, s, n)
  {
    assert IsLink(m, s, start);
  }

  /** The search stops at the first free block that fits. */
  lemma SearchFinds(m: Memory, s: Shape, start: int, p: int, n: nat)
    requires WellFormed(m, s) && s.IsNode(p) && 0 <= p < |m| && m[p].Size() >= n >= 1
    requires Passed(m, s, start, p, n)
    ensures FirstFit(m, s, start, p, n) && !NoFit(m, s, n)
  {
  }

  lemma FitIsFree(m: Memory, s: Shape, prevp: int, p: int, n: nat)
    requires WellFormed(m, s) && s.IsNode(p) && s.IsNode(prevp) && 0 <= prevp < |m| && 0 <= p < |m|
    requires m[prevp].Next() == p && m[p].Size() >= n >= 1
    ensures p in s.free && p !in s.live && POOL <= p && p + m[p].Size() <= s.top <= |m|
    ensures prevp != p
  {
    assert IsLink(m, s, prevp) && IsLink(m, s, p) && s.IsHead(p);
  }

  /** Bytes a block holds behind its header. */
  function Capacity(header: Quantum): nat {
    if header.Size() == 0 then 0 else (header.Size() - 1) * QUANTUM
  }

  /** Byte i of the contents that start at quantum `ap`. */
  function ByteAt(m: Memory, ap: int, i: nat): Byte
    requires 0 <= ap && ap + i / QUANTUM < |m|
  {
    m[ap + i / QUANTUM].Bytes()[i % QUANTUM]
  }

  /** Live blocks lie in the used pool and do not overlap. */
  lemma LiveBlocksAreDisjoint(m: Memory, s: Shape, a: int, b: int)
    requires WellFormed(m, s) && a in s.live && b in s.live && a != b
    ensures POOL <= a < s.top && POOL <= b < s.top <= |m|
    ensures a + m[a].Size() <= b || b + m[b].Size() <= a
    ensures 1 <= m[a].Size() && a + m[a].Size() <= s.top && b + m[b].Size() <= s.top
  {
    assert s.IsHead(a) && s.IsHead(b);
  }

  /** Writing to the contents of one live block keeps the heap and every other live block. */
  lemma WriteInsideKeepsHeap(m: Memory, m': Memory, s: Shape, h: int)
    requires WellFormed(m, s) && h in s.live && |m'| == |m| && 0 <= h < |m|
    requires forall q {:trigger m'[q]} :: 0 <= q < |m| && !(h < q < h + m[h].Size()) ==> m'[q] == m[q]
    ensures WellFormed(m', s) && SameBlocks(m, m', s.live - {h})
  {
    assert s.IsHead(h) && IsBlock(m, s, h);
    assert forall a :: s.IsHead(a) ==> !(h < a < h + m[h].Size());
    HeadersDecide(m, m', s);
    forall a | a in s.live - {h} ensures SameBlock(m, m', a) {
      LiveBlocksAreDisjoint(m, s, a, h);
    }
  }

  /** Only the headers decide whether a heap is well formed. */
  lemma HeadersDecide(m: Memory, m': Memory, s: Shape)
    requires WellFormed(m, s) && |m'| == |m|
    requires forall a {:trigger m'[a]} :: 0 <= a < |m| && (a == BASE || s.IsHead(a)) ==> m'[a] == m[a]
    ensures WellFormed(m', s)
  {
    if s.top > POOL { assert s.IsHead(POOL); }
    forall a | s.IsHead(a) ensures IsBlock(m', s, a) {
      assert IsBlock(m, s, a);
    }
    forall a | s.IsNode(a) ensures IsLink(m', s, a) && (a in s.free ==> a + m'[a].Size() !in s.free) {
      assert IsLink(m, s, a) && (a != BASE ==> s.IsHead(a));
    }
  }

  class Manager {
    const poolSize: nat
    const mem: array<Quantum>
    var freep: int
    var poolFreePos: nat
    ghost var shape: Shape

    ghost predicate Valid()
      reads this, mem
    {
      && Sized()
      && shape.top == POOL + poolFreePos / QUANTUM
      && if freep == NULL then shape == Shape({}, {}, POOL)
         else WellFormed(mem[..], shape) && shape.IsNode(freep)
    }

    ghost predicate Sized()
      reads this
    {
      && poolSize % QUANTUM == 0 && poolSize < WORD && mem.Length == POOL + poolSize / QUANTUM
      && poolFreePos % QUANTUM == 0 && poolFreePos <= poolSize
    }

    /** memmgr_init. */
    constructor (device: Device)
      ensures Valid() && fresh(mem)
      ensures poolSize == PoolBytes(device) && shape == Shape({}, {}, POOL)
    {
      poolSize := PoolBytes(device);
      mem := new Quantum[POOL + PoolBytes(device) / QUANTUM](_ => Header(0, 0));
      freep := NULL;
      poolFreePos := 0;
      shape := Shape({}, {}, POOL);
    }

    /** The search loop of memmgr_free: the node behind which `block` belongs, found by following
        the free list from `freep` and breaking at the link that wraps round. */
    method FindPlace(block: int) returns (p: int)
      requires WellFormed(mem[..], shape) && shape.IsNode(freep) && block in shape.live
      ensures IsPredecessor(mem[..], shape, p, block)
    {
      ghost var m := mem[..];
      assert shape.IsHead(block) && IsBlock(m, shape, block);
      assert IsLink(m, shape, freep);
      p := freep;
      while !(block > p && block < mem[p].Next())
        invariant shape.IsNode(p) && IsLink(m, shape, p)
        decreases Distance(block, |m|, p)
      {
        if p >= mem[p].Next() && (block > p || block < mem[p].Next()) {
          break;
        }
        assert shape.IsNode(m[p].Next()) && IsLink(m, shape, m[p].Next());
        assert m[p].Next() != BASE ==> shape.IsHead(m[p].Next());
        p := mem[p].Next();
      }
      assert p != BASE ==> shape.IsHead(p);
      assert shape.IsNode(m[p].Next()) && IsLink(m, shape, m[p].Next());
    }

    /** The splice of memmgr_free: `block` is linked in behind `p` and joined with free neighbours. */
    method Splice(p: int, block: int)
      requires Sized() && 0 < p < block < mem.Length && mem[p].Next() < mem.Length
      modifies mem
      ensures mem[..] == FreedMemory(old(mem[..]), p, block)
    {
      var n := mem[p].Next();
      if block + mem[block].Size() == n {
        mem[block] := Header(mem[block].Next(), mem[block].Size() + mem[n].Size());
        mem[block] := Header(mem[n].Next(), mem[block].Size());
      } else {
        mem[block] := Header(n, mem[block].Size());
      }
      if p + mem[p].Size() == block {
        mem[p] := Header(mem[p].Next(), mem[p].Size() + mem[block].Size());
        mem[p] := Header(mem[block].Next(), mem[p].Size());
      } else {
        mem[p] := Header(block, mem[p].Size());
      }
    }

    /** memmgr_free for a non-null pointer: `block` goes back to the free list. */
    method Release(block: int)
      requires Sized() && WellFormed(mem[..], shape) && shape.IsNode(freep)
      requires block in shape.live
      modifies `freep, `shape, mem
      ensures WellFormed(mem[..], shape) && shape.IsNode(freep)
      ensures shape.live == old(shape.live) - {block} && shape.top == old(shape.top)
      ensures SameBlocks(old(mem[..]), mem[..], old(shape.live) - {block})
      ensures IsPredecessor(old(mem[..]), old(shape), freep, block)
      ensures mem[..] == FreedMemory(old(mem[..]), freep, block)
      ensures shape == FreedShape(old(mem[..]), old(shape), freep, block) && Resumes(shape, freep, block)
    {
      var p := FindPlace(block);
      PredecessorResumes(mem[..], shape, p, block);
      FreeKeepsHeap(mem[..], shape, p, block);
      shape := FreedShape(mem[..], shape, p, block);
      Splice(p, block);
      freep := p;
    }

    /** Writes the header of a fresh block at the top of the used pool and returns the block to
        the free list, where it becomes `t` or joins the free block `t` that ended there. */
    method Extend(h: int, nquantas: nat) returns (ghost t: int)
      requires Sized() && WellFormed(mem[..], shape) && shape.IsNode(freep)
      requires h == shape.top && nquantas >= 1 && h + nquantas <= mem.Length
      modifies `freep, `shape, mem
      ensures WellFormed(mem[..], shape) && shape.IsNode(freep)
      ensures shape.live == old(shape.live) && shape.top == old(shape.top) + nquantas
      ensures SameBlocks(old(mem[..]), mem[..], old(shape.live))
      ensures IsTopBlock(mem[..], shape, freep, t, nquantas)
      ensures OthersSame(old(mem[..]), old(shape), mem[..], shape, t)
      ensures TopStart(old(mem[..]), old(shape), t)
    {
      ghost var m, s := mem[..], shape;
      GrowKeepsHeap(m, s, nquantas);
      OutsideIsNotHead(m, s, h);
      mem[h] := Header(mem[h].Next(), nquantas);
      shape := Shape(s.free, s.live + {h}, s.top + nquantas);
      ghost var m1, s1 := mem[..], shape;
      Release(h);
      t := TopBlock(m1, s1, freep, h);
      TopBlockStart(m, s, m1, s1, freep, h, t);
      SameBlocksCompose(m, m1, mem[..], s.live, s1.live - {h});
      assert s1.live - {h} == s.live;
    }

    /** get_mem_from_pool. */
    method GetMemFromPool(n: nat) returns (r: Outcome, ghost t: int)
      requires Sized() && WellFormed(mem[..], shape) && shape.IsNode(freep)
      requires shape.top == POOL + poolFreePos / QUANTUM
      requires n >= 1 && Claim(n) * QUANTUM <= WORD
      modifies `freep, `shape, `poolFreePos, mem
      ensures Sized() && WellFormed(mem[..], shape) && shape.IsNode(freep)
      ensures shape.top == POOL + poolFreePos / QUANTUM
      ensures r.Null? <==>
              old(poolFreePos) + Claim(n) * QUANTUM > poolSize && old(poolFreePos) + Claim(n) * QUANTUM < WORD
      ensures r.Overrun? <==> old(poolFreePos) + Claim(n) * QUANTUM >= WORD
      ensures !r.Ptr? ==> unchanged(this) && unchanged(mem)
      ensures r.Ptr? ==> r.addr == freep && Grown(old(mem[..]), old(shape), mem[..], shape, n, freep, t)
    {
      hide WellFormed, SameBlocks, OthersSame, TopStart, Wrapped, Claim, Grown;
      var nquantas := Claim(n);
      ClaimIsEnough(n);
      RoomAfterTest(poolFreePos, nquantas, poolSize);
      var total := Wrapped(nquantas * QUANTUM);
      if Wrapped(poolFreePos + total) <= poolSize {
        if poolFreePos + nquantas * QUANTUM >= WORD {
          return Overrun, 0;
        }
        t := Extend(POOL + poolFreePos / QUANTUM, nquantas);
        GrownIs(old(mem[..]), old(shape), mem[..], shape, n, freep, t);
        poolFreePos := poolFreePos + total;
        return Ptr(freep), t;
      } else {
        return Null, 0;
      }
    }

    /** The scan of memmgr_alloc: the first free block behind `freep` that can hold n quanta, with
        the node it is linked from; when none can, the pool is extended once. */
    method Scan(n: nat) returns (r: Outcome, prevp: int, p: int)
      requires Sized() && WellFormed(mem[..], shape) && shape.IsNode(freep)
      requires shape.top == POOL + poolFreePos / QUANTUM
      requires n >= 1 && Claim(n) * QUANTUM <= WORD
      modifies `freep, `shape, `poolFreePos, mem
      ensures Sized() && WellFormed(mem[..], shape) && shape.IsNode(freep)
      ensures shape.top == POOL + poolFreePos / QUANTUM
      ensures shape.live == old(shape.live) && SameBlocks(old(mem[..]), mem[..], old(shape.live))
      ensures r.Ptr? <==> !NoFit(old(mem[..]), old(shape), n) || old(poolFreePos) + Claim(n) * QUANTUM <= poolSize
      ensures r.Overrun? <==> NoFit(old(mem[..]), old(shape), n) && old(poolFreePos) + Claim(n) * QUANTUM >= WORD
      ensures !r.Ptr? ==> unchanged(this) && mem[..] == old(mem[..])
      ensures r.Ptr? ==> Cut(old(mem[..]), old(shape), old(freep), p, n)
      ensures r.Ptr? ==>
                && shape.IsNode(prevp) && 0 <= prevp < mem.Length && mem[prevp].Next() == p
                && shape.IsNode(p) && 0 <= p < mem.Length && mem[p].Size() >= n
                && if NoFit(old(mem[..]), old(shape), n)
                   then shape.top == old(shape.top) + Claim(n) && p + mem[p].Size() == shape.top
                   else shape == old(shape) && mem[..] == old(mem[..])
                        && FirstFit(old(mem[..]), shape, old(freep), p, n)
    {
      hide WellFormed, SameBlocks, Passed, NoFit, FirstFit, Grown, TopStart, Cut, Distance, Claim;
      ghost var m0, s0, start := mem[..], shape, freep;
      SearchBegins(m0, s0, start, n);
      SameBlocksRefl(m0, s0);
      prevp := freep;
      p := mem[prevp].Next();
      ghost var extended, t := false, NULL;
      while true
        invariant Sized() && shape.top == POOL + poolFreePos / QUANTUM
        invariant WellFormed(mem[..], shape) && shape.IsNode(freep)
        invariant shape.IsNode(prevp) && 0 <= prevp < mem.Length && p == mem[prevp].Next()
        invariant shape.IsNode(p) && 0 <= p < mem.Length
        invariant if extended
                  then NoFit(m0, s0, n) && old(poolFreePos) + Claim(n) * QUANTUM <= poolSize
                       && Grown(m0, s0, mem[..], shape, n, freep, t) && (p == t || freep == t)
                  else mem[..] == m0 && shape == s0 && freep == start && poolFreePos == old(poolFreePos)
                       && Passed(m0, s0, start, p, n)
        decreases !extended, Distance(freep, mem.Length, p)
      {
        LinkedOn(mem[..], shape, freep);
        DistanceBelow(freep, mem.Length, p);
        if extended {
          GrownFacts(m0, s0, mem[..], shape, n, freep, t);
        }
        if mem[p].Size() >= n {
          if extended {
            GrownFitsAtTop(m0, s0, mem[..], shape, n, freep, t, p);
            GrownStart(m0, s0, mem[..], shape, n, freep, t);
          } else {
            SearchFinds(m0, s0, start, p, n);
            FoundIsCut(m0, s0, start, p, n);
          }
          return Ptr(p), prevp, p;
        } else if p == freep {
          SearchEnds(m0, s0, start, n);
          r, t := GetMemFromPool(n);
          if !r.Ptr? {
            assert mem[..] == m0;
            return;
          }
          GrownFacts(m0, s0, mem[..], shape, n, freep, t);
          p := r.addr;
          extended := true;
        } else {
          SearchAdvances(mem[..], shape, freep, p, n);
        }
        prevp := p;
        LinkedOn(mem[..], shape, prevp);
        p := mem[prevp].Next();
      }
    }

    /** memmgr_alloc. */
    method Alloc(nbytes: nat) returns (r: Outcome)
      requires Valid() && nbytes < WORD
      modifies `freep, `shape, `poolFreePos, mem
      ensures Valid()
      ensures SameBlocks(old(mem[..]), mem[..], old(shape.live))
      ensures nbytes == 0 ==> r == Null && unchanged(this) && unchanged(mem)
      ensures r.Ptr? <==> nbytes > 0 && (!old(NoFits(nbytes)) || old(RoomLeft(nbytes)))
      ensures r.Overrun? <==> nbytes > 0 && old(NoFits(nbytes)) && old(PoolSumWraps(nbytes))
      ensures !r.Ptr? ==> shape == old(shape) && poolFreePos == old(poolFreePos)
      ensures nbytes > 0 && !r.Ptr? ==> Untouched(old(freep), old(mem[..]))
      ensures r.Ptr? ==>
                Allotted(old(mem[..]), old(shape), old(freep), mem[..], shape, freep, r.addr - 1, Quantas(nbytes))
    {
      hide WellFormed, SameBlocks, NoFit, Allotted, Quantas, Claim;
      ghost var start, m, s := freep, mem[..], shape;
      StaySame(start, m, s);
      if nbytes == 0 {
        return Null;
      }
      var nquantas := Quantas(nbytes);
      QuantasHoldRequest(nbytes);
      Begin(nquantas);
      ghost var m0 := mem[..];
      r := AllocStarted(nquantas);
      SameBlocksCompose(m, m0, mem[..], s.live, s.live);
      if r.Ptr? && start == NULL {
        AllottedFirst(m, m0, s, BASE, mem[..], shape, freep, r.addr - 1, nquantas);
      }
    }

    lemma StaySame(start: int, m: Memory, s: Shape)
      requires if start == NULL then s.live == {} else WellFormed(m, s)
      ensures SameBlocks(m, m, s.live)
    {
      if start != NULL {
        SameBlocksRefl(m, s);
      }
    }

    /** The first call makes `base` a free list of its own. */
    method Begin(ghost n: nat)
      requires Valid()
      modifies `freep, mem
      ensures Valid() && freep != NULL && Untouched(old(freep), old(mem[..]))
      ensures SameBlocks(old(mem[..]), mem[..], shape.live)
      ensures NoFit(mem[..], shape, n) == NoFit(old(mem[..]), shape, n)
      ensures old(freep) == NULL ==> shape.free == {}
    {
      StaySame(freep, mem[..], shape);
      if freep == NULL {
        mem[BASE] := Header(BASE, 0);
        freep := BASE;
      }
    }

    /** memmgr_alloc once the free list has been begun. */
    method AllocStarted(n: nat) returns (r: Outcome)
      requires Sized() && WellFormed(mem[..], shape) && shape.IsNode(freep)
      requires shape.top == POOL + poolFreePos / QUANTUM
      requires n >= 1 && Claim(n) * QUANTUM <= WORD
      modifies `freep, `shape, `poolFreePos, mem
      ensures Sized() && WellFormed(mem[..], shape) && shape.IsNode(freep)
      ensures shape.top == POOL + poolFreePos / QUANTUM
      ensures freep != NULL
      ensures old(shape.live) <= shape.live && SameBlocks(old(mem[..]), mem[..], old(shape.live))
      ensures r.Ptr? <==> !NoFit(old(mem[..]), old(shape), n) || old(poolFreePos) + Claim(n) * QUANTUM <= poolSize
      ensures r.Overrun? <==> NoFit(old(mem[..]), old(shape), n) && old(poolFreePos) + Claim(n) * QUANTUM >= WORD
      ensures !r.Ptr? ==> unchanged(this) && mem[..] == old(mem[..])
      ensures r.Ptr? ==> Allotted(old(mem[..]), old(shape), old(freep), mem[..], shape, freep, r.addr - 1, n)
    {
      hide WellFormed, SameBlocks, NoFit, FirstFit, Cut, Allotted, Resumes, Claim;
      ghost var m, s, start := mem[..], shape, freep;
      LinkedOn(m, s, freep);
      var prevp, p;
      r, prevp, p := Scan(n);
      if r.Ptr? {
        ghost var m1, s1 := mem[..], shape;
        FitIsFree(m1, s1, prevp, p, n);
        LinkResumes(m1, s1, prevp, p);
        var h := Take(prevp, p, n);
        SameBlocksCompose(m, m1, mem[..], s.live, s.live);
        freep := prevp;
        ResumesStill(s1, shape, prevp, p);
        LinkedOn(mem[..], shape, freep);
        AllottedIs(m, s, start, mem[..], shape, freep, p, h, n);
        r := Ptr(h + 1);
      }
    }

    /** The tail of the loop body of memmgr_alloc: block `p`, linked from `prevp`, is taken whole
        or split, and the block of exactly n quanta becomes live. */
    method Take(prevp: int, p: int, n: nat) returns (h: int)
      requires Sized() && WellFormed(mem[..], shape) && shape.IsNode(prevp) && 0 <= prevp < mem.Length
      requires n >= 1 && shape.IsNode(p) && 0 <= p < mem.Length && mem[prevp].Next() == p && mem[p].Size() >= n
      modifies `shape, mem
      ensures WellFormed(mem[..], shape) && shape.IsNode(prevp)
      ensures p in old(shape.free) && h == p + old(mem[p].Size()) - n && h !in old(shape.live)
      ensures 0 <= h < mem.Length && mem[h].Size() == n && h + n <= shape.top
      ensures shape.live == old(shape.live) + {h} && shape.top == old(shape.top) && shape.free <= old(shape.free)
      ensures SameBlocks(old(mem[..]), mem[..], old(shape.live))
    {
      hide WellFormed, SameBlocks;
      FitIsFree(mem[..], shape, prevp, p, n);
      if mem[p].Size() == n {
        TakeWholeKeepsHeap(mem[..], shape, prevp, p);
        mem[prevp] := Header(mem[p].Next(), mem[prevp].Size());
        shape := Shape(shape.free - {p}, shape.live + {p}, shape.top);
        h := p;
      } else {
        TakeTailKeepsHeap(mem[..], shape, p, n);
        var rest := mem[p].Size() - n;
        h := p + rest;
        mem[p] := Header(mem[p].Next(), rest);
        mem[h] := Header(mem[h].Next(), n);
        shape := Shape(shape.free, shape.live + {h}, shape.top);
      }
    }

    /** memmgr_free; only null and the address behind a live header may be passed. */
    method Free(ap: int)
      requires Valid() && (ap != NULL ==> ap - 1 in shape.live)
      modifies `freep, `shape, mem
      ensures Valid()
      ensures ap == NULL ==> unchanged(this) && unchanged(mem)
      ensures ap != NULL ==> shape.live == old(shape.live) - {ap - 1} && shape.top == old(shape.top)
      ensures ap != NULL ==> SameBlocks(old(mem[..]), mem[..], old(shape.live) - {ap - 1})
      ensures ap != NULL ==> Resumes(shape, freep, ap - 1)
    {
      if ap != NULL {
        Release(ap - 1);
      }
    }

    /** One byte is written at offset i of the contents that start at quantum `ap`. */
    method StoreByte(ap: int, i: nat, b: Byte)
      requires 0 <= ap && ap + i / QUANTUM < mem.Length
      modifies mem
      ensures forall q :: 0 <= q < mem.Length && q != ap + i / QUANTUM ==> mem[q] == old(mem[q])
      ensures mem[ap + i / QUANTUM].Bytes() == old(mem[ap + i / QUANTUM].Bytes())[i % QUANTUM := b]
    {
      var q := ap + i / QUANTUM;
      mem[q] := Data(mem[q].Bytes()[i % QUANTUM := b]);
    }

    /** A client writes one byte into a live block. */
    method ClientStore(ap: int, i: nat, b: Byte)
      requires Valid() && ap - 1 in shape.live && 0 < ap <= mem.Length && i < Capacity(mem[ap - 1])
      requires ap + i / QUANTUM < mem.Length
      modifies mem
      ensures Valid()
      ensures SameBlocks(old(mem[..]), mem[..], shape.live - {ap - 1})
      ensures mem[ap - 1] == old(mem[ap - 1]) && ByteAt(mem[..], ap, i) == b
      ensures forall j :: 0 <= j < Capacity(mem[ap - 1]) && j != i && ap + j / QUANTUM < mem.Length
                          ==> ByteAt(mem[..], ap, j) == ByteAt(old(mem[..]), ap, j)
    {
      ghost var m := mem[..];
      StoreByte(ap, i, b);
      WriteInsideKeepsHeap(m, mem[..], shape, ap - 1);
    }

    /** memcpy of n bytes between the contents of two blocks. */
    method CopyBytes(dst: int, src: int, n: nat)
      requires 0 <= dst && 0 <= src
      requires dst + (n + QUANTUM - 1) / QUANTUM <= mem.Length && src + (n + QUANTUM - 1) / QUANTUM <= mem.Length
      requires dst + (n + QUANTUM - 1) / QUANTUM <= src || src + (n + QUANTUM - 1) / QUANTUM <= dst
      modifies mem
      ensures forall j :: 0 <= j < n ==> ByteAt(mem[..], dst, j) == ByteAt(old(mem[..]), src, j)
      ensures forall q :: 0 <= q < mem.Length && !(dst <= q < dst + (n + QUANTUM - 1) / QUANTUM) ==>
                mem[q] == old(mem[q])
    {
      hide Quantum.Bytes;
      for i := 0 to n
        invariant forall j :: 0 <= j < i ==> ByteAt(mem[..], dst, j) == ByteAt(old(mem[..]), src, j)
        invariant forall q :: 0 <= q < mem.Length && !(dst <= q < dst + (i + QUANTUM - 1) / QUANTUM) ==>
                    mem[q] == old(mem[q])
      {
        StoreByte(dst, i, mem[src + i / QUANTUM].Bytes()[i % QUANTUM]);
      }
    }

    /** The end of memmgr_realloc: n bytes move to the new block and the old one is freed. */
    method MoveBlock(dst: int, src: int, n: nat)
      requires Valid() && dst - 1 in shape.live && src - 1 in shape.live && dst != src
      requires 0 < dst <= mem.Length && 0 < src <= mem.Length
      requires n <= Capacity(mem[dst - 1]) && n <= Capacity(mem[src - 1])
      modifies `freep, `shape, mem
      ensures Valid() && shape.live == old(shape.live) - {src - 1} && Resumes(shape, freep, src - 1)
      ensures mem[dst - 1] == old(mem[dst - 1])
      ensures SameBlocks(old(mem[..]), mem[..], old(shape.live) - {src - 1} - {dst - 1})
      ensures dst + (n + QUANTUM - 1) / QUANTUM <= mem.Length && src + (n + QUANTUM - 1) / QUANTUM <= mem.Length
      ensures forall j :: 0 <= j < n ==> ByteAt(mem[..], dst, j) == ByteAt(old(mem[..]), src, j)
    {
      hide WellFormed, Quantum.Bytes;
      ghost var m := mem[..];
      LiveBlocksAreDisjoint(m, shape, src - 1, dst - 1);
      LiveBlocksAreDisjoint(m, shape, dst - 1, src - 1);
      CopyBytes(dst, src, n);
      ghost var m1 := mem[..];
      WriteInsideKeepsHeap(m, m1, shape, dst - 1);
      Free(src);
      assert SameBlock(m1, mem[..], dst - 1);
      SameBlocksCompose(m, m1, mem[..], old(shape.live) - {src - 1} - {dst - 1}, old(shape.live) - {src - 1});
    }

    /** memmgr_realloc. A copy longer than the new block is reported as an overrun. */
    method Realloc(ptr: int, size: nat) returns (r: Outcome)
      requires Valid() && size < WORD && (ptr != NULL ==> ptr - 1 in shape.live && 0 < ptr <= mem.Length)
      modifies `freep, `shape, `poolFreePos, mem
      ensures Valid()
      ensures r.Ptr? <==>
              size > 0 && (!old(NoFits(size)) || old(RoomLeft(size))) && (ptr != NULL ==> old(CopyFits(ptr, size)))
      ensures r.Null? <==> size == 0 || (old(NoFits(size)) && !old(RoomLeft(size)) && !old(PoolSumWraps(size)))
      ensures r.Null? && ptr != NULL && size == 0 ==>
                && shape.live == old(shape.live) - {ptr - 1}
                && SameBlocks(old(mem[..]), mem[..], old(shape.live) - {ptr - 1})
      ensures r.Null? && (ptr == NULL || size > 0) ==>
                shape == old(shape) && SameBlocks(old(mem[..]), mem[..], old(shape.live))
      ensures r.Null? && size > 0 ==> Untouched(old(freep), old(mem[..]))
      ensures ptr != NULL && (size == 0 || r.Ptr?) ==> Resumes(shape, freep, ptr - 1)
      ensures ptr == NULL && r.Ptr? ==>
                && Allotted(old(mem[..]), old(shape), old(freep), mem[..], shape, freep, r.addr - 1, Quantas(size))
                && SameBlocks(old(mem[..]), mem[..], old(shape.live))
      ensures ptr != NULL && r.Ptr? ==> Moved(old(mem[..]), old(shape), mem[..], shape, ptr, r.addr, size)
    {
      hide WellFormed, Allotted, NoFit, Moved, HeapShape.Shape.IsNode;
      if ptr == NULL {
        r := Alloc(size);
        return;
      }
      if size == 0 {
        Free(ptr);
        ghost var freed := mem[..];
        r := Alloc(0);
        assert mem[..] == freed;
        return;
      }
      r := Alloc(size);
      if r.Ptr? {
        r := MoveToNew(ptr, r.addr, size, old(mem[..]), old(shape), old(freep));
      }
    }

    /** The part of memmgr_realloc behind a successful allocation. */
    method MoveToNew(ptr: int, addr: int, size: nat, ghost m0: Memory, ghost s0: Shape, ghost start: int)
      returns (r: Outcome)
      requires Valid() && |m0| == mem.Length && ptr - 1 in s0.live && 0 < ptr <= mem.Length && size < WORD
      requires Allotted(m0, s0, start, mem[..], shape, freep, addr - 1, Quantas(size))
      requires SameBlocks(m0, mem[..], s0.live)
      modifies `freep, `shape, mem
      ensures Valid() && !r.Null?
      ensures r.Ptr? <==> Min(size, Capacity(m0[ptr - 1])) <= (Quantas(size) - 1) * QUANTUM
      ensures r.Ptr? ==> r.addr == addr && Moved(m0, s0, mem[..], shape, ptr, addr, size)
      ensures r.Ptr? ==> Resumes(shape, freep, ptr - 1)
    {
      hide WellFormed, NoFit;
      assert SameBlock(m0, mem[..], ptr - 1);
      ghost var m := mem[..];
      LiveBlocksAreDisjoint(m, shape, ptr - 1, addr - 1);
      var oldSize := Capacity(mem[ptr - 1]);
      var n := if oldSize < size then oldSize else size;
      if n > Capacity(mem[addr - 1]) {
        return Overrun;
      }
      MoveBlock(addr, ptr, n);
      SameBlocksCompose(m0, m, mem[..], s0.live - {ptr - 1}, s0.live - {ptr - 1});
      r := Ptr(addr);
    }

    /** What a reallocation copies fits the block its request gets. */
    ghost predicate CopyFits(ptr: int, size: nat)
      requires size < WORD && 0 < ptr <= mem.Length
      reads this, mem
    {
      Min(size, Capacity(mem[ptr - 1])) <= (Quantas(size) - 1) * QUANTUM
    }

    /** Search and free list are as they were, begun by now if they had not been. */
    ghost predicate Untouched(start: int, m: Memory)
      requires |m| > BASE
      reads this, mem
    {
      if start == NULL then freep == BASE && mem[..] == m[BASE := Header(BASE, 0)] else freep == start && mem[..] == m
    }

    ghost predicate NoFits(nbytes: nat)
      reads this, mem
    {
      NoFit(mem[..], shape, Quantas(nbytes))
    }

    /** The unclaimed pool can hold what the request would claim from it. */
    ghost predicate RoomLeft(nbytes: nat)
      reads this
    {
      poolFreePos + Claim(Quantas(nbytes)) * QUANTUM <= poolSize
    }

    ghost predicate PoolSumWraps(nbytes: nat)
      reads this
    {
      poolFreePos + Claim(Quantas(nbytes)) * QUANTUM >= WORD
    }
  }

  /** From (m, s) with the search starting at `start`, block `h` of n quanta has become live in
      (m', s'): the tail of the first free block that fits or, when none fits, the quanta just
      below the new top of a pool extended once. The next search begins behind `start'`, the node
      that the block it was cut from comes behind. */
  ghost predicate Allotted(m: Memory, s: Shape, start: int, m': Memory, s': Shape, start': int, h: int, n: nat) {
    && POOL <= h < |m'| && h + n <= s'.top && m'[h].Size() == n
    && h !in s.live && s'.live == s.live + {h}
    && s'.top == s.top + (if NoFit(m, s, n) then Claim(n) else 0)
    && exists f :: Cut(m, s, start, f, n) && TailOf(m, s, s', f, h, n) && Resumes(s', start', f)
  }

  lemma AllottedIs(m: Memory, s: Shape, start: int, m': Memory, s': Shape, start': int, f: int, h: int, n: nat)
    requires POOL <= h < |m'| && h + n <= s'.top && m'[h].Size() == n
    requires h !in s.live && s'.live == s.live + {h}
    requires s'.top == s.top + (if NoFit(m, s, n) then Claim(n) else 0)
    requires Cut(m, s, start, f, n) && TailOf(m, s, s', f, h, n) && Resumes(s', start', f)
    ensures Allotted(m, s, start, m', s', start', h, n)
  {
    hide Cut, NoFit;
  }

  lemma ResumesStill(s: Shape, s': Shape, p: int, f: int)
    requires Resumes(s, p, f) && s'.IsNode(p) && s'.free <= s.free
    ensures Resumes(s', p, f)
  {
  }

  /** The first allocation of all begins with an empty free list, whatever `base` held. */
  lemma AllottedFirst(
    m: Memory, m0: Memory, s: Shape, start: int, m': Memory, s': Shape, start': int, h: int, n: nat)
    requires s.free == {} && Allotted(m0, s, start, m', s', start', h, n)
    ensures Allotted(m, s, NULL, m', s', start', h, n)
  {
    var f :| Cut(m0, s, start, f, n) && TailOf(m0, s, s', f, h, n) && Resumes(s', start', f);
    assert Cut(m, s, NULL, f, n) && TailOf(m, s, s', f, h, n);
  }

  /** The n quanta from `h` end where the block that begins at `f`, extended if need be, ends. */
  ghost predicate TailOf(m: Memory, s: Shape, s': Shape, f: int, h: int, n: nat) {
    if NoFit(m, s, n) then h + n == s'.top else 0 <= f < |m| && h + n == f + m[f].Size()
  }

  /** Where the next search begins: at the node of the free list that `f` comes behind, the last
      one below it. */
  ghost predicate Resumes(s: Shape, p: int, f: int) {
    s.IsNode(p) && p < f && forall g :: g in s.free ==> g <= p || f <= g
  }

  /** `f` is where a block begins that is made of fresh quanta at the top: the free block that ends
      there, if there is one, or the top itself. */
  ghost predicate TopStart(m: Memory, s: Shape, f: int) {
    || (f in s.free && 0 <= f < |m| && f + m[f].Size() == s.top)
    || (f == s.top && forall g :: g in s.free && 0 <= g < |m| ==> g + m[g].Size() != s.top)
  }

  /** `f` is the block that a request for n quanta is cut from. */
  ghost predicate Cut(m: Memory, s: Shape, start: int, f: int, n: nat) {
    if NoFit(m, s, n) then TopStart(m, s, f) else FirstFit(m, s, start, f, n)
  }

  /** The pool has been extended once for n quanta, and `t` is now the free block at its top. */
  ghost predicate Grown(m: Memory, s: Shape, m': Memory, s': Shape, n: nat, p: int, t: int) {
    && s'.live == s.live && s'.top == s.top + Claim(n) && SameBlocks(m, m', s.live)
    && IsTopBlock(m', s', p, t, n) && OthersSame(m, s, m', s', t) && TopStart(m, s, t)
  }

  /** The node that links to `f` is the last one below it. */
  lemma LinkResumes(m: Memory, s: Shape, p: int, f: int)
    requires WellFormed(m, s) && s.IsNode(p) && 0 <= p < |m| && m[p].Next() == f && f in s.free
    ensures Resumes(s, p, f)
  {
    assert IsLink(m, s, p);
  }

  /** After a block has been returned, its predecessor is still a node, and the last one below it. */
  lemma PredecessorResumes(m: Memory, s: Shape, p: int, b: int)
    requires WellFormed(m, s) && b in s.live && IsPredecessor(m, s, p, b)
    ensures Resumes(FreedShape(m, s, p, b), p, b)
  {
    assert IsLink(m, s, p) && s.IsHead(b);
    assert p != BASE ==> s.IsHead(p);
  }

  lemma GrownIs(m: Memory, s: Shape, m': Memory, s': Shape, n: nat, p: int, t: int)
    requires s'.live == s.live && s'.top == s.top + Claim(n) && SameBlocks(m, m', s.live)
    requires IsTopBlock(m', s', p, t, Claim(n)) && OthersSame(m, s, m', s', t) && TopStart(m, s, t)
    ensures Grown(m, s, m', s', n, p, t)
  {
    hide SameBlocks, OthersSame, TopStart;
  }

  /** The live block behind `ptr` has become the one behind `addr`, of the size asked for and with
      as much of the old contents as both can hold; all other live blocks are as they were. */
  ghost predicate Moved(m: Memory, s: Shape, m': Memory, s': Shape, ptr: int, addr: int, size: nat) {
    && 0 < ptr <= |m| == |m'| && 0 < addr <= |m'| && addr - 1 !in s.live
    && s'.live == s.live - {ptr - 1} + {addr - 1}
    && Capacity(m'[addr - 1]) == (Quantas(size) - 1) * QUANTUM
    && SameBlocks(m, m', s.live - {ptr - 1})
    && var n := Min(size, Capacity(m[ptr - 1]));
       && ptr + (n + QUANTUM - 1) / QUANTUM <= |m| && addr + (n + QUANTUM - 1) / QUANTUM <= |m'|
       && forall j :: 0 <= j < n ==> ByteAt(m', addr, j) == ByteAt(m, ptr, j)
  }

  /** Free block `t` ends at the top, can hold n quanta, and is `p` or linked from `p`. */
  ghost predicate IsTopBlock(m: Memory, s: Shape, p: int, t: int, n: nat) {
    && t in s.free && POOL <= t < |m| && m[t].Size() >= n && t + m[t].Size() == s.top
    && (t == p || (0 <= p < |m| && m[p].Next() == t))
  }

  /** Every free block other than `t` was free before, with the same size. */
  ghost predicate OthersSame(m: Memory, s: Shape, m': Memory, s': Shape, t: int) {
    forall g :: g in s'.free && g != t && 0 <= g < |m| && |m'| == |m| ==> g in s.free && m'[g].Size() == m[g].Size()
  }

  /** What an extension leaves alone, and where its block is. */
  lemma GrownFacts(m: Memory, s: Shape, m': Memory, s': Shape, n: nat, p: int, t: int)
    requires Grown(m, s, m', s', n, p, t)
    ensures s'.live == s.live && s'.top == s.top + Claim(n) && SameBlocks(m, m', s.live)
    ensures 0 <= t < |m'| && m'[t].Size() >= n && t + m'[t].Size() == s'.top
    ensures t == p || (0 <= p < |m'| && m'[p].Next() == t)
  {
  }

  lemma GrownStart(m: Memory, s: Shape, m': Memory, s': Shape, n: nat, p: int, t: int)
    requires Grown(m, s, m', s', n, p, t)
    ensures NoFit(m, s, n) ==> forall start :: Cut(m, s, start, t, n)
  {
    hide IsTopBlock, OthersSame, SameBlocks;
  }

  lemma FoundIsCut(m: Memory, s: Shape, start: int, f: int, n: nat)
    requires FirstFit(m, s, start, f, n)
    ensures Cut(m, s, start, f, n)
  {
  }

  /** After an extension for a request that did not fit, only the top block can hold it. */
  lemma GrownFitsAtTop(m: Memory, s: Shape, m': Memory, s': Shape, n: nat, start: int, t: int, p: int)
    requires Grown(m, s, m', s', n, start, t) && NoFit(m, s, n) && |m'| == |m| && WellFormed(m', s')
    requires s'.IsNode(p) && 0 <= p < |m'| && m'[p].Size() >= n >= 1
    ensures p == t
  {
  }

  /** A block returned at the very top ends the free list, alone or joined to the block below. */
  lemma TopBlock(m: Memory, s: Shape, p: int, h: int) returns (t: int)
    requires WellFormed(m, s) && h in s.live && IsPredecessor(m, s, p, h) && h + m[h].Size() == s.top
    ensures IsTopBlock(FreedMemory(m, p, h), FreedShape(m, s, p, h), p, t, m[h].Size())
    ensures OthersSame(m, s, FreedMemory(m, p, h), FreedShape(m, s, p, h), t)
    ensures t == if JoinDown(m, p, h) then p else h
  {
    assert s.IsHead(h) && IsBlock(m, s, h) && s.IsNode(p) && IsLink(m, s, p);
    var n := m[p].next;
    assert n != BASE ==> s.IsHead(n);
    assert p != BASE ==> s.IsHead(p);
    t := if JoinDown(m, p, h) then p else h;
  }

  /** It begins where the free block at the top began, or at the old top. */
  lemma TopBlockStart(m: Memory, s: Shape, m1: Memory, s1: Shape, p: int, h: int, t: int)
    requires WellFormed(m, s) && WellFormed(m1, s1) && h == s.top && |m1| == |m|
    requires s1.free == s.free && forall g :: 0 <= g < h ==> m1[g] == m[g]
    requires IsPredecessor(m1, s1, p, h) && t == if JoinDown(m1, p, h) then p else h
    ensures TopStart(m, s, t)
  {
    assert IsLink(m1, s1, p) && (p != BASE ==> s.IsHead(p));
    forall g | g in s.free && 0 <= g < |m| && g + m[g].Size() == s.top ensures g == p {
      assert s.IsHead(g) && IsBlock(m, s, g);
    }
  }

  lemma OutsideIsNotHead(m: Memory, s: Shape, h: int)
    requires Tiled(m, s) && h >= s.top
    ensures !s.IsHead(h)
  {
  }

  lemma SameBlocksRefl(m: Memory, s: Shape)
    requires WellFormed(m, s)
    ensures SameBlocks(m, m, s.live)
  {
    forall a | a in s.live ensures SameBlock(m, m, a) {
      assert s.IsHead(a);
    }
  }

  /** Blocks that survive two steps unchanged survive both. */
  lemma SameBlocksCompose(m1: Memory, m2: Memory, m3: Memory, blocks: set<int>, more: set<int>)
    requires SameBlocks(m1, m2, blocks) && SameBlocks(m2, m3, more) && blocks <= more
    ensures SameBlocks(m1, m3, blocks)
  {
    forall a | a in blocks ensures SameBlock(m1, m3, a) {
      assert SameBlock(m1, m2, a) && SameBlock(m2, m3, a);
    }
  }

  /** Freeing the block that an allocation returned brings back the free list the heap had before,
      headers included, when the pool was not extended. */
  lemma FreeUndoesAlloc(
    m: Memory, s: Shape, start: int, m1: Memory, s1: Shape, start1: int, h: int, n: nat, m2: Memory, s2: Shape)
    requires WellFormed(m, s) && SameBlocks(m, m1, s.live)
    requires !NoFit(m, s, n) && Allotted(m, s, start, m1, s1, start1, h, n)
    requires WellFormed(m2, s2) && s2.live == s1.live - {h} && s2.top == s1.top && SameBlocks(m1, m2, s1.live - {h})
    ensures s2.free == s.free && s2.live == s.live
    ensures forall a :: s.IsNode(a) && 0 <= a < s.top ==> m2[a] == m[a]
  {
    forall a | a in s.live && 0 <= a < s.top ensures m[a].Size() == m2[a].Size() {
      assert SameBlock(m, m1, a) && SameBlock(m1, m2, a);
    }
    FreeListIsCanonical(m, s, m2, s2);
  }
}
