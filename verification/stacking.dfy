/** Allocators that really run on the boundary-tag heap: the heap's answers are passed to the layer
    above, and what the layer gives back is freed in the heap. Whatever is called, the blocks of the
    layer are exactly live blocks of the heap, which is what usage accounting rests on. */
module Stacking {
  import opened Alignment
  import opened BlockLayout
  import opened BlockMoves
  import opened Options
  import opened Pointers
  import opened Usage
  import opened UsageLayers
  import RalcArena
  import RalcGen
  import RalcPool
  import Rlist

  // ---- Blocks held in the heap -----------------------------------------------------------------------

  /** A new block of the heap is another one for the layer. */
  lemma {:induction false} HeldMore(heap: map<nat, seq<nat>>, heap': map<nat, seq<nat>>, rs: seq<Region>,
                                    g: RalcGen.Grant, need: nat)
    requires Held(heap, rs) && RalcGen.Granted(heap, heap', g, need)
    ensures Held(heap', rs + [Region(g.ptr, g.size)]) && Held(heap', [Region(g.ptr, g.size)] + rs)
    ensures forall r :: r in rs ==> r.ptr != g.ptr
  {
    var r := Region(g.ptr, g.size);
    forall q | q in rs
      ensures HeldOne(heap', q) && q.ptr != g.ptr
    {
      assert HeldOne(heap, q);
    }
    assert HeldOne(heap', r);
    assert forall i :: 0 <= i < |rs| ==> rs[i] in rs;
  }

  /** Freeing a block of the layer leaves the others. */
  lemma {:induction false} HeldLess(heap: map<nat, seq<nat>>, rs: seq<Region>, i: nat)
    requires Held(heap, rs) && i < |rs|
    ensures rs[i].ptr in heap && Held(heap - {rs[i].ptr}, Others(rs, i))
  {
    var p, os := rs[i].ptr, Others(rs, i);
    assert rs[i] in rs && HeldOne(heap, rs[i]);
    assert forall k :: 0 <= k < |os| ==> os[k] == rs[if k < i then k else k + 1];
    forall r | r in os
      ensures HeldOne(heap - {p}, r)
    {
      var k :| 0 <= k < |os| && os[k] == r;
      assert r in rs && HeldOne(heap, r);
    }
  }

  /** A layer's block that has been resized, and perhaps moved. */
  lemma {:induction false} HeldResettled(heap: map<nat, seq<nat>>, heap': map<nat, seq<nat>>, rs: seq<Region>, i: nat,
                                         g: RalcGen.Grant, need: nat)
    requires Held(heap, rs) && i < |rs| && RalcGen.Resettled(heap, heap', rs[i].ptr, g, need)
    ensures Held(heap', rs[i := Region(g.ptr, g.size)])
  {
    var rs' := rs[i := Region(g.ptr, g.size)];
    forall k | 0 <= k < |rs'|
      ensures HeldOne(heap', rs'[k])
      ensures forall l :: 0 <= l < |rs'| && l != k ==> rs'[l].ptr != rs'[k].ptr
    {
      assert rs[k] in rs && HeldOne(heap, rs[k]);
      forall l | 0 <= l < |rs'| && l != k
        ensures rs'[l].ptr != rs'[k].ptr
      {
        assert rs[l] in rs && HeldOne(heap, rs[l]);
      }
    }
  }

  /** Payloads of the heap do not overlap. */
  lemma {:induction false} PayloadsApart(gen: RalcGen.RalcGen, p: nat, q: nat)
    requires gen.Valid() && p in gen.Heap() && q in gen.Heap() && p < q
    ensures 0 < p && p + |gen.Heap()[p]| <= q
  {
    hide Laid, Live, Span, WellFormed;
    var t, mem, bs := gen.target, gen.buf[..], gen.blocks;
    var i := RalcGen.BlockAt(t, gen.cap, mem, bs, p);
    var j := RalcGen.BlockAt(t, gen.cap, mem, bs, q);
    if i < j {
      PayloadsIncrease(t, bs, i, j);
    } else {
      assert i != j;
      PayloadsIncrease(t, bs, j, i);
    }
  }

  lemma {:induction false} PayloadPositive(gen: RalcGen.RalcGen, p: nat)
    requires gen.Valid() && p in gen.Heap()
    ensures p > 0
  {
    hide Laid, Live, Span, WellFormed;
    var i := RalcGen.BlockAt(gen.target, gen.cap, gen.buf[..], gen.blocks, p);
  }

  /** Blocks of the heap start at aligned addresses. */
  lemma {:induction false} HeldAligned(gen: RalcGen.RalcGen, rs: seq<Region>, i: nat)
    requires gen.Valid() && Held(gen.Heap(), rs) && i < |rs|
    ensures Multiple(gen.target.alignment, rs[i].ptr)
  {
    hide Laid, Live, Span, WellFormed;
    assert rs[i] in rs && HeldOne(gen.Heap(), rs[i]);
    RalcGen.LiveAligned(gen.target, gen.cap, gen.buf[..], gen.blocks, rs[i].ptr);
  }

  // ---- Arena -------------------------------------------------------------------------------------------

  ghost predicate ArenaOn(gen: RalcGen.RalcGen, arena: RalcArena.RalcArena)
    reads gen, gen.buf, arena
  {
    gen.Valid() && arena.Valid() && Held(gen.Heap(), ArenaRegions(arena.header, arena.Levels()))
  }

  lemma {:induction false} PushedRegions(header: nat, st: seq<RalcArena.Level>, size: nat, a: Answer)
    requires a.Granted? ==> a.size >= header + size
    ensures ArenaRegions(header, RalcArena.Pushed(st, size, header, a)) ==
            if RalcArena.Fits(st, size) || a.Refused? then ArenaRegions(header, st)
            else ArenaRegions(header, st) + [Region(a.ptr, a.size)]
  {
  }

  lemma {:induction false} RewoundRegions(header: nat, st: seq<RalcArena.Level>, n: nat)
    ensures |RalcArena.Rewound(st, n)| <= |st|
    ensures ArenaRegions(header, RalcArena.Rewound(st, n)) == ArenaRegions(header, st)[..|RalcArena.Rewound(st, n)|]
    decreases |st|
  {
    if n > 0 && st != [] {
      var k := |st| - 1;
      if st[k].size <= n {
        RewoundRegions(header, st[..k], n - st[k].size);
      }
    }
  }

  /** Every payload is still there, as it was. */
  ghost predicate AllKept(heap: map<nat, seq<nat>>, heap': map<nat, seq<nat>>) {
    forall p :: p in heap ==> p in heap' && heap'[p] == heap[p]
  }

  ghost function Ptrs(rs: seq<Region>): set<nat> {
    set r | r in rs :: r.ptr
  }

  /** The layer's frees, in the order in which it makes them; `fs` are the blocks freed, `keep` those
      the layer keeps. */
  method GiveBack(gen: RalcGen.RalcGen, freed: seq<nat>, ghost fs: seq<Region>, ghost keep: seq<Region>)
    requires gen.Valid() && Held(gen.Heap(), fs + keep)
    requires |fs| == |freed| && forall k :: 0 <= k < |fs| ==> fs[k].ptr == freed[k]
    modifies gen, gen.buf
    ensures gen.Valid() && Held(gen.Heap(), keep)
    ensures gen.Heap() == old(gen.Heap()) - Ptrs(fs)
  {
    hide Held, Laid, Live, Span, WellFormed, Coalesced, Ptrs;
    ghost var heap0 := gen.Heap();
    assert fs[0..] == fs && fs[..|fs|] == fs;
    NoPtrs(fs);
    for i := 0 to |freed|
      invariant gen.Valid() && Held(gen.Heap(), fs[i..] + keep)
      invariant gen.Heap() == heap0 - Ptrs(fs[..i])
    {
      ghost var rs := fs[i..] + keep;
      HeldLess(gen.Heap(), rs, 0);
      assert rs[0] == fs[i] && Others(rs, 0) == fs[i + 1..] + keep;
      OneMorePtr(fs, i);
      gen.Free(freed[i]);
    }
    assert fs[|fs|..] + keep == keep;
  }

  lemma {:induction false} NoPtrs(fs: seq<Region>)
    ensures Ptrs(fs[..0]) == {} && fs[0..0] == fs[..0]
  {
  }

  lemma {:induction false} OneMorePtr(fs: seq<Region>, i: nat)
    requires i < |fs|
    ensures Ptrs(fs[..i + 1]) == Ptrs(fs[..i]) + {fs[i].ptr}
  {
    assert fs[..i + 1] == fs[..i] + [fs[i]];
  }

  /** The order in which blocks are listed does not matter. */
  lemma {:induction false} HeldReordered(heap: map<nat, seq<nat>>, rs: seq<Region>, rs': seq<Region>, from: seq<nat>)
    requires Held(heap, rs) && |from| == |rs'|
    requires forall k :: 0 <= k < |from| ==> from[k] < |rs| && rs'[k] == rs[from[k]]
    requires forall k, l :: 0 <= k < l < |from| ==> from[k] != from[l]
    ensures Held(heap, rs')
  {
    forall r | r in rs'
      ensures HeldOne(heap, r)
    {
      var k :| 0 <= k < |rs'| && rs'[k] == r;
      assert rs[from[k]] in rs;
    }
    forall k, l | 0 <= k < l < |rs'|
      ensures rs'[k].ptr != rs'[l].ptr
    {
      assert rs[from[k]].ptr != rs[from[l]].ptr by {
        assert from[k] < from[l] || from[l] < from[k];
      }
    }
  }

  /** The heap refuses a request exactly as `FirstFitIsComplete` says. */
  ghost predicate Refuses(gen: RalcGen.RalcGen, request: nat)
    requires gen.Valid()
    reads gen, gen.buf
  {
    Placed(gen.target, gen.cap, gen.blocks, AlignUp(gen.target.alignment, request)).None?
  }

  /** The same for a resizing, as `ResizeIsComplete` says. */
  ghost predicate RefusesResize(gen: RalcGen.RalcGen, ptr: nat, request: nat)
    requires gen.Valid()
    reads gen, gen.buf
  {
    var i := IndexAt(gen.target, 0, gen.blocks, ptr);
    i < |gen.blocks| && Resized(gen.target, gen.cap, gen.blocks, i, AlignUp(gen.target.alignment, request)).None?
  }

  /** The heap has either not granted anything and not changed, or granted `g` and kept all else. */
  ghost predicate Answered(heap: map<nat, seq<nat>>, heap': map<nat, seq<nat>>, g: Option<RalcGen.Grant>, need: nat) {
    match g
    case None => heap' == heap
    case Some(grant) => RalcGen.Granted(heap, heap', grant, need)
  }

  function ArenaAnswer(g: Option<RalcGen.Grant>): Answer {
    match g
    case None => Refused
    case Some(grant) => Granted(grant.ptr, grant.size)
  }

  /** Arena and heap share one alignment, of which the chunk headers and the sizes in use are multiples. */
  ghost predicate AlignedArena(gen: RalcGen.RalcGen, arena: RalcArena.RalcArena)
    requires arena.Valid()
    reads arena
  {
    && arena.alignment == gen.target.alignment && Multiple(arena.alignment, arena.header)
    && RalcArena.AlignedStack(arena.alignment, arena.Levels())
  }

  /** A new chunk has the configured capacity, or room for twice the object if that is no larger than the
      object. */
  function ChunkFor(chunkCap: nat, size: nat): (cap: nat)
    ensures chunkCap > size ==> cap == chunkCap
    ensures chunkCap <= size ==> cap == 2 * size
  {
    if chunkCap > size then chunkCap else size * 2
  }

  /** ralcArena_push on the heap, which is asked only if the top chunk is full. `g` is what it granted. */
  method ArenaPush(gen: RalcGen.RalcGen, arena: RalcArena.RalcArena, request: nat)
    returns (r: Option<RalcArena.Object>, ghost g: Option<RalcGen.Grant>)
    requires ArenaOn(gen, arena)
    modifies gen, gen.buf, arena
    ensures ArenaOn(gen, arena)
    ensures var size, st, k := arena.Aligned(request), old(arena.Levels()), |old(arena.Levels())| - 1;
            var full := k < 0 || st[k].cap - st[k].size < size;
            && Answered(old(gen.Heap()), gen.Heap(), g, arena.header + ChunkFor(old(arena.chunkCap), size))
            && (g.Some? ==> full)
            && (r.None? <==> full && old(Refuses(gen, arena.header + ChunkFor(arena.chunkCap, arena.Aligned(request)))))
            && (r.None? ==> g.None? && arena.Levels() == st)
            && (r.Some? ==>
                  && arena.Levels() == RalcArena.Pushed(st, size, arena.header, ArenaAnswer(g))
                  && RalcArena.AtTop(arena.Levels(), r.value) && r.value.size == size)
    ensures r.Some? ==>
              && Multiple(arena.alignment, r.value.size) && request <= r.value.size && 0 < r.value.size
              && r.value.size < (if request > 0 then request else 1) + arena.alignment
    ensures old(AlignedArena(gen, arena)) ==>
              && AlignedArena(gen, arena)
              && (r.Some? ==> Multiple(arena.alignment, RalcArena.Address(arena.header, r.value)))
  {
    hide Held, Laid, Live, LiveAddrs, Span, WellFormed, Placed, Step, AlignUp;
    hide RalcArena.Stacked, RalcArena.View, RalcArena.Pushed, RalcArena.Total, RalcArena.Sound, RalcArena.Spread;
    hide RalcArena.Outside, RalcArena.AlignedStack, Multiple;
    ghost var h, st, rs := arena.header, arena.Levels(), ArenaRegions(arena.header, arena.Levels());
    var aligned := arena.Aligned(request);
    g := None;
    var answer := Refused;
    var room := arena.HasRoom(aligned);
    if !room {
      var grant := gen.Alloc(arena.Request(aligned));
      g := grant;
      if grant.Some? {
        answer := Granted(grant.value.ptr, grant.value.size);
        HeldMore(old(gen.Heap()), gen.Heap(), rs, grant.value, arena.Request(aligned));
        NewToArena(gen, arena, rs, grant.value, aligned);
        RoomForRequest(arena, aligned);
      }
    }
    OutsideRefused(h, st);
    PushedRegions(h, st, aligned, answer);
    r := arena.Push(request, answer);
  }

  lemma {:induction false} OutsideRefused(header: nat, st: seq<RalcArena.Level>)
    ensures RalcArena.Outside(header, st, Refused)
  {
  }

  /** What ralcArena_push asks for holds the object. */
  lemma {:induction false} RoomForRequest(arena: RalcArena.RalcArena, aligned: nat)
    ensures arena.Request(aligned) >= arena.header + aligned
  {
  }

  /** A block that the heap has just granted overlaps no chunk of the arena. */
  lemma {:induction false} NewToArena(gen: RalcGen.RalcGen, arena: RalcArena.RalcArena, rs: seq<Region>,
                                      g: RalcGen.Grant, aligned: nat)
    requires gen.Valid() && arena.Valid() && rs == ArenaRegions(arena.header, arena.Levels())
    requires Held(gen.Heap(), [Region(g.ptr, g.size)] + rs) && g.size >= arena.Request(aligned)
    ensures arena.Suits(aligned, Granted(g.ptr, g.size))
  {
    hide Laid, Live, Span, WellFormed, RalcArena.Total, RalcArena.Sound, RalcArena.Spread;
    var all, st := [Region(g.ptr, g.size)] + rs, arena.Levels();
    assert all[0] in all && HeldOne(gen.Heap(), all[0]);
    PayloadPositive(gen, g.ptr);
    forall i | 0 <= i < |st|
      ensures st[i].chunk != g.ptr && Disjoint(st[i].chunk, arena.header + st[i].cap, g.ptr, g.size)
    {
      assert all[i + 1] == rs[i] && all[i + 1] in all && HeldOne(gen.Heap(), rs[i]);
      assert all[0].ptr != all[i + 1].ptr;
      if st[i].chunk < g.ptr {
        PayloadsApart(gen, st[i].chunk, g.ptr);
      } else {
        PayloadsApart(gen, g.ptr, st[i].chunk);
      }
    }
    forall q | q in arena.mem
      ensures q != g.ptr
    {
      var i :| 0 <= i < |arena.stack| && arena.stack[i] == q;
      assert st[i].chunk == q;
    }
  }

  /** ralcArena_rewind on the heap. */
  method ArenaRewind(gen: RalcGen.RalcGen, arena: RalcArena.RalcArena, mark: nat)
    requires ArenaOn(gen, arena) && mark <= arena.size
    modifies gen, gen.buf, arena
    ensures ArenaOn(gen, arena)
    ensures arena.Levels() == RalcArena.Rewound(old(arena.Levels()), old(arena.size) - mark)
    ensures |arena.Levels()| <= |old(arena.Levels())|
    ensures old(AlignedArena(gen, arena)) && Multiple(arena.alignment, mark) ==> AlignedArena(gen, arena)
    ensures gen.Heap() == old(gen.Heap()) - Ptrs(ArenaRegions(arena.header, old(arena.Levels()))[|arena.Levels()|..])
  {
    hide Held, Ptrs, Laid, Live, LiveAddrs, Span, WellFormed, Multiple;
    hide RalcArena.Rewound, RalcArena.Total, RalcArena.Sound, RalcArena.AlignedStack;
    ghost var h, st, stack := arena.header, arena.Levels(), arena.stack;
    ghost var rs := ArenaRegions(h, st);
    var distance := arena.size - mark;
    var freed := arena.Rewind(mark);
    RewoundRegions(h, st, distance);
    ghost var fs := TopDown(gen.Heap(), rs, |arena.Levels()|);
    GiveBack(gen, freed, fs, rs[..|arena.Levels()|]);
  }

  /** ralcArena_clear on the heap. */
  method ArenaClear(gen: RalcGen.RalcGen, arena: RalcArena.RalcArena)
    requires ArenaOn(gen, arena)
    modifies gen, gen.buf, arena
    ensures ArenaOn(gen, arena) && arena.Levels() == []
    ensures gen.Heap() == old(gen.Heap()) - Ptrs(ArenaRegions(arena.header, old(arena.Levels())))
  {
    hide Held, Ptrs, Laid, Live, LiveAddrs, Span, WellFormed, RalcArena.Total, RalcArena.Sound;
    ghost var rs := ArenaRegions(arena.header, arena.Levels());
    var freed := arena.Clear();
    ghost var fs := TopDown(gen.Heap(), rs, 0);
    GiveBack(gen, freed, fs, rs[..0]);
    assert rs[0..] == rs;
    assert rs[..0] == ArenaRegions(arena.header, arena.Levels());
  }

  /** The blocks above position `n`, from the top down. */
  lemma {:induction false} TopDown(heap: map<nat, seq<nat>>, rs: seq<Region>, n: nat) returns (fs: seq<Region>)
    requires Held(heap, rs) && n <= |rs|
    ensures |fs| == |rs| - n && (forall k :: 0 <= k < |fs| ==> fs[k] == rs[|rs| - 1 - k])
    ensures Held(heap, fs + rs[..n])
    ensures Ptrs(fs) == Ptrs(rs[n..])
  {
    var m := |rs| - n;
    fs := seq(m, k requires 0 <= k < m => rs[|rs| - 1 - k]);
    var from := seq(|rs|, k requires 0 <= k < |rs| => if k < m then (|rs| - 1 - k) as nat else (k - m) as nat);
    HeldReordered(heap, rs, fs + rs[..n], from);
    forall r
      ensures r in fs <==> r in rs[n..]
    {
      if r in fs {
        var k :| 0 <= k < m && fs[k] == r;
        assert rs[n..][m - 1 - k] == r;
      }
      if r in rs[n..] {
        var k :| 0 <= k < m && rs[n..][k] == r;
        assert fs[m - 1 - k] == r;
      }
    }
  }

  // ---- Pool --------------------------------------------------------------------------------------------

  ghost predicate PoolOn(gen: RalcGen.RalcGen, pool: RalcPool.RalcPool)
    reads gen, gen.buf, pool
  {
    gen.Valid() && pool.Valid() && Held(gen.Heap(), PoolRegions(pool.mem, pool.chain))
  }

  /** Where pool and heap share one alignment, slots in use start at multiples of it. */
  lemma {:induction false} PoolAligned(gen: RalcGen.RalcGen, pool: RalcPool.RalcPool, slot: nat)
    requires PoolOn(gen, pool) && slot in pool.live
    requires var a := gen.target.alignment; Multiple(a, pool.shape.header) && Multiple(a, pool.shape.elemSize)
    ensures Multiple(gen.target.alignment, slot)
  {
    hide Held, Laid, Live, Span, WellFormed, Multiple, RalcPool.Threaded, RalcPool.CapSum, RalcPool.IsSlot;
    var rs := PoolRegions(pool.mem, pool.chain);
    forall c | c in pool.mem
      ensures Multiple(gen.target.alignment, c)
    {
      var i :| 0 <= i < |pool.chain| && pool.chain[i] == c;
      HeldAligned(gen, rs, i);
    }
    assert slot in pool.slots;
    RalcPool.SlotAligned(gen.target.alignment, pool.shape, pool.mem, slot);
  }

  /** ralcPool_alloc on the heap, which is asked only if no slot is free. `g` is what it granted. */
  method PoolAlloc(gen: RalcGen.RalcGen, pool: RalcPool.RalcPool) returns (r: nat, ghost g: Option<RalcGen.Grant>)
    requires PoolOn(gen, pool)
    modifies gen, gen.buf, pool
    ensures PoolOn(gen, pool)
    ensures Answered(old(gen.Heap()), gen.Heap(), g, pool.shape.header + pool.chunkCap * pool.shape.elemSize)
    ensures g.Some? ==> old(pool.free) == []
    ensures r == NULL <==>
              && old(pool.free) == []
              && old(Refuses(gen, pool.shape.header + pool.chunkCap * pool.shape.elemSize))
    ensures r == NULL ==>
              g.None? && pool.live == old(pool.live) && pool.free == old(pool.free) && pool.chain == old(pool.chain)
    ensures r != NULL ==>
              && r !in old(pool.live) && pool.live == old(pool.live) + {r}
              && pool.chain == (match g case None => old(pool.chain) case Some(grant) => [grant.ptr] + old(pool.chain))
              && (g.None? ==> [r] + pool.free == old(pool.free))
              && (forall p :: p in old(pool.live) ==>
                    p in pool.slots && p in old(pool.slots) && pool.slots[p] == old(pool.slots)[p])
  {
    hide Held, Laid, Live, LiveAddrs, Span, WellFormed, Placed, Step;
    hide RalcPool.Chained, RalcPool.Threaded, RalcPool.Parted, RalcPool.CapSum, RalcPool.NewSlots;
    ghost var mem, chain, rs := pool.mem, pool.chain, PoolRegions(pool.mem, pool.chain);
    g := None;
    var answer := Refused;
    RalcPool.NoneFree(pool.slots, pool.freeSlots, pool.free);
    if pool.freeSlots == NULL {
      var grant := gen.Alloc(pool.Request());
      g := grant;
      if grant.Some? {
        answer := Granted(grant.value.ptr, grant.value.size);
        HeldMore(old(gen.Heap()), gen.Heap(), rs, grant.value, pool.Request());
        NewToPool(gen, pool, rs, grant.value);
      }
    }
    r := pool.Alloc(answer);
    if answer.Granted? {
      ChunkRegions(mem, chain, answer.ptr, pool.mem[answer.ptr]);
    }
  }

  /** A block that the heap has just granted overlaps no chunk. */
  lemma {:induction false} NewToPool(gen: RalcGen.RalcGen, pool: RalcPool.RalcPool, rs: seq<Region>, g: RalcGen.Grant)
    requires gen.Valid() && pool.Valid() && rs == PoolRegions(pool.mem, pool.chain)
    requires Held(gen.Heap(), [Region(g.ptr, g.size)] + rs) && g.size >= pool.Request()
    ensures pool.Suits(Granted(g.ptr, g.size))
  {
    hide Laid, Live, Span, WellFormed, RalcPool.Threaded, RalcPool.Parted, RalcPool.CapSum;
    var all := [Region(g.ptr, g.size)] + rs;
    assert all[0] in all && HeldOne(gen.Heap(), all[0]);
    PayloadPositive(gen, g.ptr);
    forall c | c in pool.mem
      ensures c != g.ptr && Disjoint(c, pool.mem[c].blockSize, g.ptr, g.size)
    {
      var i :| 0 <= i < |pool.chain| && pool.chain[i] == c;
      assert all[i + 1] == rs[i] && all[i + 1] in all && HeldOne(gen.Heap(), rs[i]);
      if c < g.ptr {
        PayloadsApart(gen, c, g.ptr);
      } else {
        assert all[0].ptr != all[i + 1].ptr;
        PayloadsApart(gen, g.ptr, c);
      }
    }
  }

  lemma {:induction false} ChunkRegions(mem: map<nat, RalcPool.Chunk>, chain: seq<nat>, p: nat, c: RalcPool.Chunk)
    requires p !in mem && forall q :: q in chain ==> q in mem
    ensures PoolRegions(mem[p := c], [p] + chain) == [Region(p, c.blockSize)] + PoolRegions(mem, chain)
  {
    assert forall i :: 0 <= i < |chain| ==> chain[i] in chain;
  }

  /** ralcPool_clear on the heap. */
  method PoolClear(gen: RalcGen.RalcGen, pool: RalcPool.RalcPool)
    requires PoolOn(gen, pool)
    modifies gen, gen.buf, pool
    ensures PoolOn(gen, pool) && pool.chain == []
    ensures gen.Heap() == old(gen.Heap()) - Ptrs(PoolRegions(old(pool.mem), old(pool.chain)))
  {
    hide Held, Ptrs, Laid, Live, Span, WellFormed;
    hide RalcPool.Chained, RalcPool.Threaded, RalcPool.Parted, RalcPool.CapSum;
    ghost var rs := PoolRegions(pool.mem, pool.chain);
    assert rs + [] == rs;
    var freed := pool.Clear();
    GiveBack(gen, freed, rs, []);
    assert PoolRegions(pool.mem, pool.chain) == [];
  }

  // ---- List --------------------------------------------------------------------------------------------

  ghost predicate ListOn(gen: RalcGen.RalcGen, list: Rlist.List, header: nat)
    reads gen, gen.buf, list
  {
    && gen.Valid() && list.Valid()
    && Held(gen.Heap(), ListRegions(header, list.mem, list.nodes))
    && Backed(gen.Heap(), header, list.mem)
  }

  /** Behind its header, the block of each element holds the element's payload. */
  ghost predicate Backed(heap: map<nat, seq<nat>>, header: nat, mem: map<nat, Rlist.Elem>) {
    forall p :: p in mem ==> BackedOne(heap, header, p, mem[p].data)
  }

  ghost predicate BackedOne(heap: map<nat, seq<nat>>, header: nat, p: nat, data: seq<int>) {
    && p in heap && |heap[p]| == header + |data|
    && forall k :: 0 <= k < |data| ==> heap[p][header + k] == data[k]
  }

  /** The bytes behind the header of a granted block. */
  method Payload(gen: RalcGen.RalcGen, g: RalcGen.Grant, header: nat) returns (data: seq<int>)
    requires gen.Valid() && g.ptr in gen.Heap() && |gen.Heap()[g.ptr]| == g.size >= header
    ensures |data| == g.size - header && BackedOne(gen.Heap(), header, g.ptr, data)
  {
    hide Laid, Live, Span, WellFormed;
    ghost var i := RalcGen.BlockAt(gen.target, gen.cap, gen.buf[..], gen.blocks, g.ptr);
    RalcGen.PayloadBytes(gen.target, gen.buf[..], gen.blocks, i, g.ptr);
    var bytes := gen.buf[g.ptr + header..g.ptr + g.size];
    data := seq(|bytes|, k requires 0 <= k < |bytes| => bytes[k] as int);
  }

  /** rlist_insert on the heap. */
  method ListInsert(gen: RalcGen.RalcGen, list: Rlist.List, header: nat, obj: nat, size: nat)
    returns (r: nat, ghost j: nat, ghost g: Option<RalcGen.Grant>)
    requires ListOn(gen, list, header) && (obj == NULL || obj in list.mem)
    modifies gen, gen.buf, list
    ensures ListOn(gen, list, header)
    ensures Answered(old(gen.Heap()), gen.Heap(), g, header + size)
    ensures r == (match g case None => NULL case Some(grant) => grant.ptr)
    ensures r == NULL <==> old(Refuses(gen, header + size))
    ensures r == NULL ==> g.None? && list.nodes == old(list.nodes) && list.mem == old(list.mem)
    ensures j <= |old(list.nodes)| && At(old(list.nodes), j) == obj && (obj == NULL ==> j == |old(list.nodes)|)
    ensures r != NULL ==>
              && list.nodes == old(list.nodes)[..j] + [r] + old(list.nodes)[j..]
              && r in list.mem && |list.mem[r].data| >= size && Rlist.PayloadsKept(old(list.mem), list.mem, r)
  {
    hide Held, Laid, Live, LiveAddrs, Span, WellFormed, Placed, Step, Backed, BackedOne;
    hide Rlist.Mirrored, Rlist.PayloadsKept;
    ghost var mem, s := list.mem, list.nodes;
    ghost var rs := ListRegions(header, mem, s);
    var answer := Rlist.Refused;
    var grant := gen.Alloc(header + size);
    g := grant;
    if grant.Some? {
      HeldMore(old(gen.Heap()), gen.Heap(), rs, grant.value, header + size);
      PayloadPositive(gen, grant.value.ptr);
      NewToList(mem, s, rs, header, grant.value.ptr);
      var data := Payload(gen, grant.value, header);
      answer := Rlist.Granted(grant.value.ptr, data);
    }
    r, j := list.Insert(obj, size, answer);
    if answer.Granted? {
      InsertHeld(gen.Heap(), header, mem, list.mem, s, list.nodes, j, answer.ptr, answer.data);
      InsertBacked(old(gen.Heap()), gen.Heap(), header, mem, list.mem, s, list.nodes, j, answer.ptr, answer.data);
    }
  }

  lemma {:induction false} NewToList(mem: map<nat, Rlist.Elem>, s: seq<nat>, rs: seq<Region>, header: nat, p: nat)
    requires Rlist.Mirrored(mem, s) && rs == ListRegions(header, mem, s)
    requires forall r :: r in rs ==> r.ptr != p
    ensures p !in mem
  {
    forall q | q in mem
      ensures q != p
    {
      var i :| 0 <= i < |s| && s[i] == q;
      assert rs[i].ptr == q && rs[i] in rs;
    }
  }

  /** An element whose payload was kept stands for the same block. */
  lemma {:induction false} SameRegion(header: nat, mem: map<nat, Rlist.Elem>, mem': map<nat, Rlist.Elem>, s: seq<nat>,
                                      s': seq<nat>, k: nat, k': nat, p: nat)
    requires Rlist.Mirrored(mem, s) && Rlist.Mirrored(mem', s') && Rlist.PayloadsKept(mem, mem', p)
    requires k < |s| && k' < |s'| && s[k] == s'[k'] && s[k] != p
    ensures ListRegions(header, mem', s')[k'] == ListRegions(header, mem, s)[k]
  {
    Rlist.MirroredParts(mem, s, k);
    Rlist.MirroredParts(mem', s', k');
    hide Rlist.Mirrored;
  }

  lemma {:induction false} NewRegion(header: nat, mem: map<nat, Rlist.Elem>, s: seq<nat>, k: nat)
    requires Rlist.Mirrored(mem, s) && k < |s|
    ensures s[k] in mem && ListRegions(header, mem, s)[k] == Region(s[k], header + |mem[s[k]].data|)
  {
    Rlist.MirroredParts(mem, s, k);
    hide Rlist.Mirrored;
  }

  lemma {:induction false} InsertHeld(
      heap: map<nat, seq<nat>>, header: nat, mem: map<nat, Rlist.Elem>, mem': map<nat, Rlist.Elem>, s: seq<nat>,
      s': seq<nat>, j: nat, p: nat, data: seq<int>)
    requires Rlist.Mirrored(mem, s) && Rlist.Mirrored(mem', s') && j <= |s| && s' == s[..j] + [p] + s[j..]
    requires p !in mem && p in mem' && mem'[p].data == data && Rlist.PayloadsKept(mem, mem', p)
    requires Held(heap, [Region(p, header + |data|)] + ListRegions(header, mem, s))
    ensures Held(heap, ListRegions(header, mem', s'))
  {
    hide Held, ListRegions, Rlist.Mirrored, Rlist.PayloadsKept;
    var rs, rs' := ListRegions(header, mem, s), ListRegions(header, mem', s');
    var all := [Region(p, header + |data|)] + rs;
    var from := seq(|s'|, k requires 0 <= k < |s'| => if k == j then 0 else if k < j then k + 1 else k);
    forall k | 0 <= k < |from|
      ensures from[k] < |all| && rs'[k] == all[from[k]]
    {
      if k == j {
        NewRegion(header, mem', s', j);
      } else {
        var k0 := if k < j then k else k - 1;
        NewRegion(header, mem, s, k0);
        SameRegion(header, mem, mem', s, s', k0, k, p);
        assert all[k0 + 1] == rs[k0];
      }
    }
    HeldReordered(heap, all, rs', from);
  }

  lemma {:induction false} InsertBacked(
      heap: map<nat, seq<nat>>, heap': map<nat, seq<nat>>, header: nat, mem: map<nat, Rlist.Elem>,
      mem': map<nat, Rlist.Elem>, s: seq<nat>, s': seq<nat>, j: nat, p: nat, data: seq<int>)
    requires Rlist.Mirrored(mem, s) && Rlist.Mirrored(mem', s') && j <= |s| && s' == s[..j] + [p] + s[j..]
    requires p in mem' && mem'[p].data == data && Rlist.PayloadsKept(mem, mem', p)
    requires Backed(heap, header, mem) && AllKept(heap, heap') && BackedOne(heap', header, p, data)
    ensures Backed(heap', header, mem')
  {
    assert s == s[..j] + s[j..];
    forall q | q in mem'
      ensures BackedOne(heap', header, q, mem'[q].data)
    {
      assert q in s';
      if q != p {
        assert q in s && q in mem && BackedOne(heap, header, q, mem[q].data);
      }
    }
  }

  /** rlist_remove on the heap. */
  method ListRemove(gen: RalcGen.RalcGen, list: Rlist.List, header: nat, obj: nat,
                    n: nat) returns (following: nat, ghost j: nat)
    requires ListOn(gen, list, header) && n <= list.count
    requires if n == 0 then obj == NULL else obj in list.mem
    requires n > 0 ==> forall k :: 0 <= k < |list.nodes| && list.nodes[k] == obj ==> k + n <= |list.nodes|
    modifies gen, gen.buf, list
    ensures ListOn(gen, list, header)
    ensures j + n <= |old(list.nodes)| && (n > 0 ==> old(list.nodes)[j] == obj)
    ensures following == if n == 0 then NULL else At(old(list.nodes), j + n)
    ensures list.nodes == old(list.nodes)[..j] + old(list.nodes)[j + n..]
    ensures gen.Heap() == old(gen.Heap()) - Ptrs(ListRegions(header, old(list.mem), old(list.nodes))[j..j + n])
    ensures Rlist.PayloadsKept(old(list.mem), list.mem, NULL)
  {
    hide Held, Ptrs, Laid, Live, Span, WellFormed, Backed, BackedOne, Rlist.Mirrored, Rlist.PayloadsKept;
    ghost var mem, s := list.mem, list.nodes;
    ghost var rs := ListRegions(header, mem, s);
    var freed;
    following, freed, j := list.Remove(obj, n);
    if n == 0 {
      j := 0;
      SameList(mem, s);
      NoPtrs(rs);
      return;
    }
    RunFirst(gen.Heap(), rs, j, n);
    GiveBack(gen, freed, rs[j..j + n], rs[..j] + rs[j + n..]);
    RemoveLeaves(old(gen.Heap()), header, mem, list.mem, s, list.nodes, j, n);
  }

  lemma {:induction false} SameList(mem: map<nat, Rlist.Elem>, s: seq<nat>)
    ensures Rlist.PayloadsKept(mem, mem, NULL) && s == s[..0] + s[0..]
  {
  }

  lemma {:induction false} RunFirst(heap: map<nat, seq<nat>>, rs: seq<Region>, j: nat, n: nat)
    requires Held(heap, rs) && j + n <= |rs|
    ensures Held(heap, rs[j..j + n] + (rs[..j] + rs[j + n..]))
  {
    var all := rs[j..j + n] + (rs[..j] + rs[j + n..]);
    var from := seq(|rs|, k requires 0 <= k < |rs| => if k < n then j + k else if k < n + j then (k - n) as nat else k);
    HeldReordered(heap, rs, all, from);
  }

  lemma {:induction false} RemoveLeaves(heap: map<nat, seq<nat>>, header: nat, mem: map<nat, Rlist.Elem>,
                                        mem': map<nat, Rlist.Elem>, s: seq<nat>, s': seq<nat>, j: nat, n: nat)
    requires Rlist.Mirrored(mem, s) && Rlist.Mirrored(mem', s') && j + n <= |s| && s' == s[..j] + s[j + n..]
    requires Rlist.PayloadsKept(mem, mem', NULL) && Backed(heap, header, mem)
    ensures var rs := ListRegions(header, mem, s);
            ListRegions(header, mem', s') == rs[..j] + rs[j + n..] && Backed(heap - Ptrs(rs[j..j + n]), header, mem')
  {
    RemoveRegions(header, mem, mem', s, s', j, n);
    var rs := ListRegions(header, mem, s);
    hide NoDup, Rlist.LinkAt, BackedOne;
    forall q | q in mem'
      ensures BackedOne(heap - Ptrs(rs[j..j + n]), header, q, mem'[q].data)
    {
      Rlist.RemoveMember(s, j, j + n, q);
      assert q in s' && q in mem && BackedOne(heap, header, q, mem[q].data);
      NotInRun(header, mem, s, rs, j, n, q);
      SameBytes(heap, heap - Ptrs(rs[j..j + n]), header, q, mem[q].data);
    }
  }

  lemma {:induction false} NotInRun(header: nat, mem: map<nat, Rlist.Elem>, s: seq<nat>, rs: seq<Region>, j: nat,
                                    n: nat, q: nat)
    requires rs == ListRegions(header, mem, s) && j + n <= |s| && q !in s[j..j + n]
    ensures q !in Ptrs(rs[j..j + n])
  {
    forall r | r in rs[j..j + n]
      ensures r.ptr != q
    {
      var k :| 0 <= k < n && rs[j..j + n][k] == r;
      assert r.ptr == s[j..j + n][k];
    }
  }

  lemma {:induction false} RemoveRegions(header: nat, mem: map<nat, Rlist.Elem>, mem': map<nat, Rlist.Elem>,
                                         s: seq<nat>, s': seq<nat>, j: nat, n: nat)
    requires Rlist.Mirrored(mem, s) && Rlist.Mirrored(mem', s') && j + n <= |s| && s' == s[..j] + s[j + n..]
    requires Rlist.PayloadsKept(mem, mem', NULL)
    ensures var rs := ListRegions(header, mem, s); ListRegions(header, mem', s') == rs[..j] + rs[j + n..]
  {
    Rlist.NullIsNot(mem, s);
    hide ListRegions, Rlist.Mirrored, Rlist.PayloadsKept;
    var rs, rs' := ListRegions(header, mem, s), ListRegions(header, mem', s');
    forall k | 0 <= k < |s'|
      ensures rs'[k] == (rs[..j] + rs[j + n..])[k]
    {
      SameRegion(header, mem, mem', s, s', if k < j then k else k + n, k, NULL);
    }
  }

  /** rlist_resize on the heap, whose realloc refuses only what its alloc refuses too: the fallback
      never succeeds there. */
  method ListResize(gen: RalcGen.RalcGen, list: Rlist.List, header: nat, obj: nat,
                    newSize: nat) returns (r: nat, ghost j: nat)
    requires ListOn(gen, list, header) && obj in list.mem
    modifies gen, gen.buf, list
    ensures ListOn(gen, list, header)
    ensures j < |old(list.nodes)| && old(list.nodes)[j] == obj
    ensures r == NULL <==> old(RefusesResize(gen, obj, header + newSize))
    ensures r == NULL ==> list.nodes == old(list.nodes) && list.mem == old(list.mem) && gen.Heap() == old(gen.Heap())
    ensures r != NULL ==>
              && list.nodes == Put(old(list.nodes), j, r)
              && r in list.mem && |list.mem[r].data| >= newSize
              && Rlist.KeepsPrefix(old(list.mem)[obj].data, list.mem[r].data, newSize)
              && Rlist.PayloadsKept(old(list.mem), list.mem, r)
              && r in gen.Heap() && gen.Heap() == (old(gen.Heap()) - {obj})[r := gen.Heap()[r]]
  {
    hide Held, Laid, Live, LiveAddrs, Span, WellFormed, Placed, Resized, Step, Backed, BackedOne, NoRoom;
    hide Rlist.Mirrored, Rlist.KeepsPrefix, Put, Rlist.PayloadsKept;
    ghost var mem, s, heap0 := list.mem, list.nodes, gen.Heap();
    ghost var rs := ListRegions(header, mem, s);
    BackedAt(heap0, header, mem, obj);
    var re, al := Rlist.Refused, Rlist.Refused;
    ghost var bs0 := gen.blocks;
    var g := gen.Realloc(Some(obj), header + newSize);
    Rlist.NullIsNot(mem, s);
    ghost var i := list.Position(obj);
    if g.Some? {
      assert rs[i].ptr == obj;
      PayloadPositive(gen, g.value.ptr);
      var data := Payload(gen, g.value, header);
      re := Rlist.Granted(g.value.ptr, data);
      HeldResettled(heap0, gen.Heap(), rs, i, g.value, header + newSize);
      ResettledElem(heap0, gen.Heap(), header, mem, s, obj, g.value, data, newSize);
    } else {
      assert gen.Heap() == heap0;
      RefusedTwice(gen, obj, header + newSize);
      g := gen.Alloc(header + newSize);
    }
    r, j := list.Resize(obj, newSize, re, al);
    assert At(s, j) == obj;
    if re.Granted? {
      ResizeLeaves(heap0, gen.Heap(), header, mem, list.mem, s, j, re.ptr, re.data);
    }
  }

  lemma {:induction false} BackedAt(heap: map<nat, seq<nat>>, header: nat, mem: map<nat, Rlist.Elem>, p: nat)
    requires Backed(heap, header, mem) && p in mem
    ensures p in heap && |heap[p]| == header + |mem[p].data|
  {
    assert BackedOne(heap, header, p, mem[p].data);
  }

  /** What the heap's realloc refuses, its alloc refuses. */
  lemma {:induction false} RefusedTwice(gen: RalcGen.RalcGen, ptr: nat, request: nat)
    requires gen.Valid() && ptr in gen.Heap()
    requires RefusesResize(gen, ptr, request)
    ensures Refuses(gen, request)
  {
    hide Laid, Live, Span, WellFormed, Placed, Resized, NoRoom;
    var i := RalcGen.BlockAt(gen.target, gen.cap, gen.buf[..], gen.blocks, ptr);
    var need := AlignUp(gen.target.alignment, request);
    ResizeIsComplete(gen.target, gen.cap, gen.blocks, i, need);
    FirstFitIsComplete(gen.target, gen.cap, gen.blocks, need);
  }

  /** A resettled block suits the list as the answer of ralc_realloc. */
  lemma {:induction false} ResettledElem(
      heap: map<nat, seq<nat>>, heap': map<nat, seq<nat>>, header: nat, mem: map<nat, Rlist.Elem>, s: seq<nat>,
      obj: nat, g: RalcGen.Grant, data: seq<int>, newSize: nat)
    requires RalcGen.Resettled(heap, heap', obj, g, header + newSize) && Backed(heap, header, mem) && obj in mem
    requires |data| == g.size - header && BackedOne(heap', header, g.ptr, data) && g.ptr > 0
    ensures Rlist.SuitsRealloc(mem, obj, Rlist.Granted(g.ptr, data), newSize)
  {
    assert BackedOne(heap, header, obj, mem[obj].data);
    forall q | q in mem
      ensures q in heap
    {
      assert BackedOne(heap, header, q, mem[q].data);
    }
    forall k | 0 <= k < |mem[obj].data| && k < newSize
      ensures k < |data| && data[k] == mem[obj].data[k]
    {
      assert heap[obj][header + k] == heap'[g.ptr][header + k];
    }
  }

  lemma {:induction false} SameBytes(heap: map<nat, seq<nat>>, heap': map<nat, seq<nat>>, header: nat, p: nat,
                                     data: seq<int>)
    requires BackedOne(heap, header, p, data) && p in heap' && (p in heap ==> heap'[p] == heap[p])
    ensures BackedOne(heap', header, p, data)
  {
  }

  lemma {:induction false} ResizeLeaves(
      heap: map<nat, seq<nat>>, heap': map<nat, seq<nat>>, header: nat, mem: map<nat, Rlist.Elem>,
      mem': map<nat, Rlist.Elem>, s: seq<nat>, j: nat, p: nat, data: seq<int>)
    requires Rlist.Mirrored(mem, s) && j < |s| && Rlist.Mirrored(mem', Put(s, j, p))
    requires (p == s[j] || p !in mem) && p in mem' && mem'[p].data == data && Rlist.PayloadsKept(mem, mem', p)
    requires p in heap' && s[j] in heap && heap' == (heap - {s[j]})[p := heap'[p]]
    requires Backed(heap, header, mem) && BackedOne(heap', header, p, data)
    ensures ListRegions(header, mem', Put(s, j, p)) == ListRegions(header, mem, s)[j := Region(p, header + |data|)]
    ensures Backed(heap', header, mem')
  {
    var s' := Put(s, j, p);
    ResizeRegions(header, mem, mem', s, s', j, p);
    PutElements(s, j, p);
    hide NoDup, Rlist.LinkAt, BackedOne, Put;
    forall q | q in mem'
      ensures BackedOne(heap', header, q, mem'[q].data)
    {
      if q != p {
        assert q in s' && q in s && q in mem && q != s[j] && BackedOne(heap, header, q, mem[q].data);
        SameBytes(heap, heap', header, q, mem[q].data);
      }
    }
  }

  lemma {:induction false} ResizeRegions(header: nat, mem: map<nat, Rlist.Elem>, mem': map<nat, Rlist.Elem>,
                                         s: seq<nat>, s': seq<nat>, j: nat, p: nat)
    requires Rlist.Mirrored(mem, s) && j < |s| && Rlist.Mirrored(mem', s') && s' == Put(s, j, p)
    requires (p == s[j] || p !in mem) && p in mem' && Rlist.PayloadsKept(mem, mem', p)
    ensures ListRegions(header, mem', s') == ListRegions(header, mem, s)[j := Region(p, header + |mem'[p].data|)]
  {
    hide ListRegions, Rlist.Mirrored, Rlist.PayloadsKept;
    var rs, rs' := ListRegions(header, mem, s), ListRegions(header, mem', s');
    forall k | 0 <= k < |s|
      ensures rs'[k] == rs[j := Region(p, header + |mem'[p].data|)][k]
    {
      if k == j {
        NewRegion(header, mem', s', j);
      } else {
        Rlist.MirroredParts(mem, s, k);
        Rlist.Apart(s, k, j);
        SameRegion(header, mem, mem', s, s', k, k, p);
      }
    }
  }

  // ---- A pool on an arena on the heap ----------------------------------------------------------------

  /** An arena on a heap of 2048 bytes, with one object of 32 bytes in one chunk. */
  method OneObject() returns (gen: RalcGen.RalcGen, arena: RalcArena.RalcArena, first: RalcArena.Object)
    ensures fresh(gen) && fresh(gen.buf) && fresh(arena)
    ensures ArenaOn(gen, arena) && |gen.Heap()| == 1
    ensures arena.alignment == 8 && first.size == 32 && first.offset == 0
    ensures |arena.Levels()| == 1 && arena.Levels()[0].chunk == first.chunk
    ensures arena.Levels()[0].size == 32 && arena.Levels()[0].cap >= 1000
  {
    hide Held, Laid, Live, Span, WellFormed, Placed;
    hide RalcArena.Stacked, RalcArena.View, RalcArena.Total, RalcArena.Sound, RalcArena.Spread;
    var buf := new nat[2048];
    gen := new RalcGen.RalcGen(Target(8, 8), buf);
    arena := new RalcArena.RalcArena(8, 24, 1000);
    NoneHeld(gen.Heap(), arena.header, arena.Levels());
    RoomInEmpty(gen, 1024);
    var r;
    ghost var g;
    r, g := ArenaPush(gen, arena, 32);
    first := r.value;
    assert gen.Heap().Keys == {g.value.ptr};
    OneKey(gen.Heap(), g.value.ptr);
  }

  /** The same arena with a second object behind the first. */
  method TwoInOneChunk()
    returns (gen: RalcGen.RalcGen, arena: RalcArena.RalcArena, first: RalcArena.Object, second: RalcArena.Object)
    ensures ArenaOn(gen, arena) && |gen.Heap()| == 1
    ensures Packed(arena.Levels(), [first, second]) && RalcArena.Holds(arena.Levels(), first)
    ensures first.size == second.size == 32 && first.offset == 0 && second.offset == 32 && first.chunk == second.chunk
  {
    hide Held, Laid, Live, Span, WellFormed, Placed;
    hide RalcArena.Stacked, RalcArena.View, RalcArena.Total, RalcArena.Sound, RalcArena.Spread;
    gen, arena, first := OneObject();
    var r;
    ghost var g;
    r, g := ArenaPush(gen, arena, 32);
    second := r.value;
    assert RalcArena.HeldBy(arena.Levels()[0], first) && RalcArena.HeldBy(arena.Levels()[0], second);
  }

  lemma {:induction false} OneKey(heap: map<nat, seq<nat>>, p: nat)
    requires heap.Keys == {p}
    ensures |heap| == 1
  {
    assert |heap| == |heap.Keys|;
  }

  lemma {:induction false} NoneHeld(heap: map<nat, seq<nat>>, header: nat, st: seq<RalcArena.Level>)
    requires st == []
    ensures Held(heap, ArenaRegions(header, st))
  {
  }

  lemma {:induction false} RoomInEmpty(gen: RalcGen.RalcGen, request: nat)
    requires gen.Valid() && gen.blocks == [] && gen.target.Header() + request + gen.target.alignment <= gen.cap
    ensures !Refuses(gen, request)
  {
    var need := AlignUp(gen.target.alignment, request);
    AlignUpIsLeast(gen.target.alignment, request);
    FirstFitIsComplete(gen.target, gen.cap, gen.blocks, need);
  }

  /** A pool with slots of 8 bytes and one slot to a chunk, whose chunks are blocks of 32 bytes at the
      given addresses. */
  method TwoChunks(p: nat, q: nat) returns (pool: RalcPool.RalcPool)
    requires p > 0 && p + 32 <= q
    ensures pool.Valid() && pool.chain == [q, p] && RalcPool.Footprint(pool.mem, pool.chain) == 64
  {
    hide RalcPool.Threaded, RalcPool.Parted, RalcPool.CapSum, RalcPool.IsSlot;
    pool := new RalcPool.RalcPool(8, 24, 8, 8, 1);
    OneSlot(pool.shape, p);
    hide RalcPool.NewSlots, Multiple;
    var a := pool.Alloc(Granted(p, 32));
    var b := pool.Alloc(Granted(q, 32));
    hide RalcPool.Chained;
    TwoChunkBytes(pool.mem, pool.chain);
  }

  /** A block of 32 bytes has room for a header of 24 and one slot of 8. */
  lemma {:induction false} OneSlot(sh: RalcPool.Shape, p: nat)
    requires sh.header == 24 && 8 <= sh.elemSize < 16 && Multiple(8, sh.elemSize)
    ensures sh.elemSize == 8 && |RalcPool.NewSlots(sh, p, 0, 1)| == 1
  {
  }

  lemma {:induction false} TwoChunkBytes(mem: map<nat, RalcPool.Chunk>, chain: seq<nat>)
    requires |chain| == 2 && forall c :: c in chain ==> c in mem && mem[c].blockSize == 32
    ensures RalcPool.Footprint(mem, chain) == 64
  {
    assert chain[1..] == [chain[1]] && [chain[1]][1..] == [];
    assert chain[0] in chain && chain[1] in chain;
    assert RalcPool.Footprint(mem, [chain[1]]) == 32 + RalcPool.Footprint(mem, []);
  }

  /** A pool whose two chunks are objects in one chunk of an arena on the heap. The arena passes on the
      heap's block count, which is 1, so the pool's assertion on the block count fails. */
  method PoolOverArenaFails() returns (usage: Usage, r: Option<Usage>)
    ensures usage.blockCount == 1 && r.None?
  {
    hide Held, Packed, RalcArena.Stacked, RalcArena.View;
    hide RalcPool.Chained, RalcPool.Threaded, RalcPool.Parted, RalcPool.CapSum, RalcPool.Footprint;
    var gen, arena, first, second := TwoInOneChunk();
    PayloadOfChunk(gen, arena, first);
    var pool := TwoChunks(RalcArena.Address(arena.header, first), RalcArena.Address(arena.header, second));
    var parent := GenLayer(gen, ArenaRegions(arena.header, arena.Levels()));
    usage := ArenaLayer(parent, gen.cap, arena);
    SumOfTwo(ObjectRegions(arena.header, [first, second]));
    r := pool.GetUsage(usage);
  }

  lemma {:induction false} SumOfTwo(rs: seq<Region>)
    requires |rs| == 2
    ensures Sum(rs) == rs[0].size + rs[1].size
  {
    assert rs[1..] == [rs[1]] && [rs[1]][1..] == [];
    assert Sum([rs[1]]) == rs[1].size + Sum([]);
  }

  /** Objects of an arena on the heap do not stand at NULL. */
  lemma {:induction false} PayloadOfChunk(gen: RalcGen.RalcGen, arena: RalcArena.RalcArena, o: RalcArena.Object)
    requires ArenaOn(gen, arena) && RalcArena.Holds(arena.Levels(), o)
    ensures RalcArena.Address(arena.header, o) > 0
  {
    hide RalcArena.Stacked, RalcArena.View, Laid, Live, Span;
    var i :| 0 <= i < |arena.Levels()| && RalcArena.HeldBy(arena.Levels()[i], o);
    var rs := ArenaRegions(arena.header, arena.Levels());
    assert rs[i] in rs && HeldOne(gen.Heap(), rs[i]);
    PayloadPositive(gen, rs[i].ptr);
  }
}
