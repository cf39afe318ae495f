/** rat/src/rat_ralcPool.c: a pool of fixed-size slots. Chunks are blocks of a parent allocator, kept
    in a map from address to header, and slots in a map from address to contents; the free list is
    threaded through the first word of each slot. 0 is NULL. What the parent answers is passed in. */
module RalcPool {
  import opened Alignment
  import opened Numbers
  import opened Options
  import opened Pointers
  import opened Usage

  datatype Chunk = Chunk(next: Ptr, cap: nat, blockSize: nat)

  /** The contents of a slot: its first word, which may be a link, and the bytes behind it. */
  datatype Contents = Contents(link: nat, rest: seq<nat>)

  /** HEADER_SIZE and the slot size; a slot is a word long at least. */
  datatype Shape = Shape(header: nat, elemSize: nat) {
    /** Where slot `i` of the chunk at `c` stands. */
    function Slot(c: Ptr, i: nat): Ptr {
      c + header + i * elemSize
    }

    /** Bytes of `n` slots. */
    function Bytes(n: nat): (b: nat) {
      n * elemSize
    }

    /** A chunk has as many slots as its block has room for. */
    ghost predicate Sized(c: Chunk) {
      elemSize > 0 && c.blockSize >= header && c.cap == (c.blockSize - header) / elemSize
    }
  }

  // ---- Arithmetic of slots ---------------------------------------------------------------------------

  /** The slots of a chunk lie within its block, behind the header. */
  lemma {:induction false} SlotWithin(sh: Shape, c: Ptr, chunk: Chunk, i: nat)
    requires sh.Sized(chunk) && i < chunk.cap
    ensures c + sh.header <= sh.Slot(c, i) && sh.Slot(c, i) + sh.elemSize <= c + chunk.blockSize
  {
    TimesMonotone(i + 1, chunk.cap, sh.elemSize);
    assert (i + 1) * sh.elemSize == i * sh.elemSize + sh.elemSize;
    assert i * sh.elemSize >= 0;
  }

  /** Two slots of a chunk do not overlap. */
  lemma {:induction false} SlotsApart(sh: Shape, c: Ptr, i: nat, j: nat)
    requires i < j
    ensures sh.Slot(c, i) + sh.elemSize <= sh.Slot(c, j)
  {
    TimesMonotone(i + 1, j, sh.elemSize);
    assert (i + 1) * sh.elemSize == i * sh.elemSize + sh.elemSize;
  }

  /** A block of at least `header + n * elemSize` bytes has at least `n` slots. */
  lemma {:induction false} RoomFor(sh: Shape, chunk: Chunk, n: nat)
    requires sh.elemSize > 0 && chunk.blockSize >= sh.header + sh.Bytes(n)
    requires chunk.cap == (chunk.blockSize - sh.header) / sh.elemSize
    ensures sh.Sized(chunk) && chunk.cap >= n
  {
    var q := chunk.cap;
    assert (q + 1) * sh.elemSize == q * sh.elemSize + sh.elemSize;
    assert n * sh.elemSize >= 0;
    if q < n {
      TimesMonotone(q + 1, n, sh.elemSize);
    }
  }

  // ---- The chunks --------------------------------------------------------------------------------------

  /** The chunks of `chain` are linked from `head` on, and are all there are; their blocks do not
      overlap. */
  ghost predicate Chained(sh: Shape, mem: map<Ptr, Chunk>, head: Ptr, chain: seq<Ptr>) {
    && NoDup(chain)
    && (forall c :: c in mem <==> c in chain)
    && NULL !in mem
    && head == At(chain, 0)
    && (forall i :: 0 <= i < |chain| ==> ChunkAt(mem, chain, i))
    && (forall c :: c in mem ==> sh.Sized(mem[c]))
    && (forall c, d :: c in mem && d in mem && c != d ==> Disjoint(c, mem[c].blockSize, d, mem[d].blockSize))
  }

  ghost predicate ChunkAt(mem: map<Ptr, Chunk>, chain: seq<Ptr>, i: nat)
    requires i < |chain|
  {
    chain[i] in mem && mem[chain[i]].next == At(chain, i + 1)
  }

  /** Some chunk has a slot at `p`. */
  ghost predicate IsSlot(sh: Shape, mem: map<Ptr, Chunk>, p: Ptr) {
    exists c: Ptr, i: nat :: c in mem && i < mem[c].cap && p == sh.Slot(c, i)
  }

  /** Slots of all chunks of `s`. */
  ghost function CapSum(mem: map<Ptr, Chunk>, s: seq<Ptr>): nat
    requires forall c :: c in s ==> c in mem
  {
    if s == [] then 0 else mem[s[0]].cap + CapSum(mem, s[1..])
  }

  /** Bytes of the blocks that hold the chunks of `s`. */
  ghost function Footprint(mem: map<Ptr, Chunk>, s: seq<Ptr>): nat
    requires forall c :: c in s ==> c in mem
  {
    if s == [] then 0 else mem[s[0]].blockSize + Footprint(mem, s[1..])
  }

  lemma {:induction false} CapSumSame(mem: map<Ptr, Chunk>, mem': map<Ptr, Chunk>, s: seq<Ptr>)
    requires forall c :: c in s ==> c in mem && c in mem' && mem'[c] == mem[c]
    ensures CapSum(mem', s) == CapSum(mem, s) && Footprint(mem', s) == Footprint(mem, s)
  {
    if s != [] {
      CapSumSame(mem, mem', s[1..]);
    }
  }

  /** A new chunk at the head of the chain. */
  lemma {:induction false} AddChunk(sh: Shape, mem: map<Ptr, Chunk>, head: Ptr, chain: seq<Ptr>, p: Ptr, chunk: Chunk)
    requires Chained(sh, mem, head, chain) && p != NULL && p !in mem && chunk.next == head && sh.Sized(chunk)
    requires forall c :: c in mem ==> Disjoint(c, mem[c].blockSize, p, chunk.blockSize)
    ensures Chained(sh, mem[p := chunk], p, [p] + chain)
    ensures CapSum(mem[p := chunk], [p] + chain) == chunk.cap + CapSum(mem, chain)
  {
    hide Chained, CapSum;
    ChunkFacts(sh, mem, head, chain);
    ChainAdd(sh, mem, head, chain, p, chunk);
    hide NoDup;
    var mem', chain' := mem[p := chunk], [p] + chain;
    assert chain'[1..] == chain;
    CapSumSame(mem, mem', chain);
    CapSumStep(mem', chain');
  }

  lemma {:induction false} CapSumStep(mem: map<Ptr, Chunk>, s: seq<Ptr>)
    requires |s| > 0 && forall c :: c in s ==> c in mem
    ensures s[0] in mem && (forall c :: c in s[1..] ==> c in mem)
    ensures CapSum(mem, s) == mem[s[0]].cap + CapSum(mem, s[1..])
  {
    assert s[0] in s;
  }

  lemma {:induction false} ChainAdd(sh: Shape, mem: map<Ptr, Chunk>, head: Ptr, chain: seq<Ptr>, p: Ptr, chunk: Chunk)
    requires Chained(sh, mem, head, chain) && p != NULL && p !in mem && chunk.next == head && sh.Sized(chunk)
    requires forall c :: c in mem ==> Disjoint(c, mem[c].blockSize, p, chunk.blockSize)
    ensures Chained(sh, mem[p := chunk], p, [p] + chain)
  {
    var mem', chain' := mem[p := chunk], [p] + chain;
    forall i | 0 <= i < |chain'|
      ensures ChunkAt(mem', chain', i)
    {
      if i > 0 {
        assert ChunkAt(mem, chain, i - 1) && chain[i - 1] in chain;
      }
    }
    assert forall i :: 0 <= i < |chain| ==> chain[i] in chain;
    assert forall c :: c in chain' <==> c == p || c in chain;
  }

  // ---- The free list -----------------------------------------------------------------------------------

  /** The slots of `free` are threaded from `head` on through their first words. A list without
      repetitions that ends in NULL is acyclic. */
  ghost predicate Threaded(slots: map<Ptr, Contents>, head: Ptr, free: seq<Ptr>) {
    && NoDup(free)
    && NULL !in free
    && head == At(free, 0)
    && (forall i :: 0 <= i < |free| ==> ThreadAt(slots, free, i))
  }

  ghost predicate ThreadAt(slots: map<Ptr, Contents>, free: seq<Ptr>, i: nat)
    requires i < |free|
  {
    free[i] in slots && slots[free[i]].link == At(free, i + 1)
  }

  lemma {:induction false} PushFree(slots: map<Ptr, Contents>, head: Ptr, free: seq<Ptr>, p: Ptr, c: Contents)
    requires c.link == head && Threaded(slots, head, free) && p != NULL && p !in free
    ensures Threaded(slots[p := c], p, [p] + free)
  {
    var slots', free' := slots[p := c], [p] + free;
    forall i | 0 <= i < |free'|
      ensures ThreadAt(slots', free', i)
    {
      if i > 0 {
        assert ThreadAt(slots, free, i - 1) && free[i - 1] in free;
      }
    }
    assert forall i :: 0 <= i < |free| ==> free[i] in free;
  }

  lemma {:induction false} NoneFree(slots: map<Ptr, Contents>, head: Ptr, free: seq<Ptr>)
    requires Threaded(slots, head, free)
    ensures head == At(free, 0) && (head == NULL <==> free == [])
  {
    assert |free| > 0 ==> free[0] in free;
  }

  lemma {:induction false} PopFree(slots: map<Ptr, Contents>, head: Ptr, free: seq<Ptr>)
    requires Threaded(slots, head, free) && head != NULL
    ensures |free| > 0 && head == free[0] && head in slots && head !in free[1..]
    ensures Threaded(slots, slots[head].link, free[1..])
  {
    var rest := free[1..];
    assert ThreadAt(slots, free, 0);
    forall i | 0 <= i < |rest|
      ensures ThreadAt(slots, rest, i)
    {
      assert ThreadAt(slots, free, i + 1);
    }
  }

  /** Words of slots off the list do not matter to it. */
  lemma {:induction false} SameThread(slots: map<Ptr, Contents>, slots': map<Ptr, Contents>, head: Ptr, free: seq<Ptr>)
    requires Threaded(slots, head, free)
    requires forall p :: p in free ==> p in slots' && (p in slots ==> slots'[p] == slots[p])
    ensures Threaded(slots', head, free)
  {
    forall i | 0 <= i < |free|
      ensures ThreadAt(slots', free, i)
    {
      assert ThreadAt(slots, free, i) && free[i] in free;
    }
  }

  /** Every slot of every chunk is either free or live. */
  ghost predicate Parted(sh: Shape, mem: map<Ptr, Chunk>, slots: map<Ptr, Contents>, free: seq<Ptr>, live: set<Ptr>) {
    && (forall p :: p in slots <==> IsSlot(sh, mem, p))
    && (forall p :: p in slots <==> p in free || p in live)
    && (forall p :: p in free ==> p !in live)
    && NULL !in slots
  }

  /** The slots [i, cap) of the chunk at `c`, in order. */
  ghost function NewSlots(sh: Shape, c: Ptr, i: nat, cap: nat): seq<Ptr>
    decreases cap - i
  {
    if i >= cap then [] else [sh.Slot(c, i)] + NewSlots(sh, c, i + 1, cap)
  }

  lemma {:induction false} NewSlotsAt(sh: Shape, c: Ptr, i: nat, cap: nat)
    requires i <= cap
    ensures |NewSlots(sh, c, i, cap)| == cap - i
    ensures forall k :: 0 <= k < cap - i ==> NewSlots(sh, c, i, cap)[k] == sh.Slot(c, i + k)
    decreases cap - i
  {
    if i < cap {
      NewSlotsAt(sh, c, i + 1, cap);
    }
  }

  lemma {:induction false} InNewSlots(sh: Shape, c: Ptr, i: nat, cap: nat, p: Ptr)
    requires i <= cap
    ensures p in NewSlots(sh, c, i, cap) <==> exists k: nat :: i <= k < cap && p == sh.Slot(c, k)
    decreases cap - i
  {
    if i < cap {
      InNewSlots(sh, c, i + 1, cap, p);
    }
  }

  /** No two slots overlap, of whatever chunks they are. */
  lemma {:induction false} SlotsDisjoint(sh: Shape, mem: map<Ptr, Chunk>, head: Ptr, chain: seq<Ptr>, p: Ptr, q: Ptr)
    requires Chained(sh, mem, head, chain) && IsSlot(sh, mem, p) && IsSlot(sh, mem, q) && p != q
    ensures Disjoint(p, sh.elemSize, q, sh.elemSize)
  {
    var c: Ptr, i: nat :| c in mem && i < mem[c].cap && p == sh.Slot(c, i);
    var d: Ptr, j: nat :| d in mem && j < mem[d].cap && q == sh.Slot(d, j);
    if c == d {
      if i < j {
        SlotsApart(sh, c, i, j);
      } else {
        assert i != j;
        SlotsApart(sh, c, j, i);
      }
    } else {
      SlotWithin(sh, c, mem[c], i);
      SlotWithin(sh, d, mem[d], j);
    }
  }

  /** Slots of aligned chunks are aligned. */
  lemma {:induction false} SlotAligned(a: nat, sh: Shape, mem: map<Ptr, Chunk>, p: Ptr)
    requires a > 0 && Multiple(a, sh.header) && Multiple(a, sh.elemSize)
    requires IsSlot(sh, mem, p) && forall c :: c in mem ==> Multiple(a, c)
    ensures Multiple(a, p)
  {
    var c: Ptr, i: nat :| c in mem && i < mem[c].cap && p == sh.Slot(c, i);
    MultipleTimes(a, sh.elemSize, i);
    MultipleSum(a, c, sh.header + i * sh.elemSize);
    MultipleSum(a, sh.header, i * sh.elemSize);
  }

  /** A slot of a chunk about to be added is not a slot already. */
  lemma {:induction false} NotYetSlot(sh: Shape, mem: map<Ptr, Chunk>, p: Ptr, chunk: Chunk, i: nat)
    requires sh.Sized(chunk) && i < chunk.cap
    requires forall c :: c in mem ==> sh.Sized(mem[c]) && Disjoint(c, mem[c].blockSize, p, chunk.blockSize)
    ensures !IsSlot(sh, mem, sh.Slot(p, i))
  {
    SlotWithin(sh, p, chunk, i);
    if IsSlot(sh, mem, sh.Slot(p, i)) {
      var c: Ptr, j: nat :| c in mem && j < mem[c].cap && sh.Slot(p, i) == sh.Slot(c, j);
      SlotWithin(sh, c, mem[c], j);
    }
  }

  lemma {:induction false} SlotsOfMore(sh: Shape, mem: map<Ptr, Chunk>, p: Ptr, chunk: Chunk, q: Ptr)
    requires p !in mem
    ensures IsSlot(sh, mem[p := chunk], q) <==> IsSlot(sh, mem, q) || q in NewSlots(sh, p, 0, chunk.cap)
  {
    InNewSlots(sh, p, 0, chunk.cap, q);
    var mem' := mem[p := chunk];
    if IsSlot(sh, mem, q) {
      var c: Ptr, i: nat :| c in mem && i < mem[c].cap && q == sh.Slot(c, i);
      assert c in mem' && i < mem'[c].cap;
    }
    if q in NewSlots(sh, p, 0, chunk.cap) {
      var k: nat :| 0 <= k < chunk.cap && q == sh.Slot(p, k);
      assert p in mem' && k < mem'[p].cap;
    }
  }

  class RalcPool {
    const shape: Shape
    const chunkCap: nat
    var mem: map<Ptr, Chunk>
    var slots: map<Ptr, Contents>
    var chunks: Ptr
    var freeSlots: Ptr
    var count: nat
    ghost var chain: seq<Ptr>
    ghost var free: seq<Ptr>
    ghost var live: set<Ptr>

    ghost predicate Valid()
      reads this
    {
      && shape.elemSize > 0 && chunkCap > 0
      && Chained(shape, mem, chunks, chain)
      && Threaded(slots, freeSlots, free)
      && Parted(shape, mem, slots, free, live)
      && (forall c :: c in chain ==> c in mem)
      && |free| + |live| == CapSum(mem, chain)
      && count == |live|
    }

    /** ralcPool_init; `header` is the aligned size of a chunk header, `wordSize` that of a link. */
    constructor (alignment: nat, header: nat, wordSize: nat, elemSize: nat, initChunkCap: nat)
      requires alignment > 0 && wordSize > 0
      ensures Valid() && mem == map[] && chain == [] && free == [] && live == {}
      ensures elemSize <= shape.elemSize && wordSize <= shape.elemSize && Multiple(alignment, shape.elemSize)
      ensures shape.header == header && chunkCap == if initChunkCap > 0 then initChunkCap else 1
      ensures shape.elemSize < (if elemSize > wordSize then elemSize else wordSize) + alignment
    {
      var least := if elemSize > wordSize then elemSize else wordSize;
      AlignUpIsLeast(alignment, least);
      shape := Shape(header, AlignUp(alignment, least));
      chunkCap := if initChunkCap > 0 then initChunkCap else 1;
      mem, slots, chunks, freeSlots, count := map[], map[], NULL, NULL, 0;
      chain, free, live := [], [], {};
    }

    /** What grow asks the parent for. */
    function Request(): nat
      reads this
    {
      shape.header + shape.Bytes(chunkCap)
    }

    /** A granted block is large enough, and apart from the chunks there are. */
    ghost predicate Suits(a: Answer)
      reads this
    {
      a.Granted? ==>
        && a.ptr != NULL && a.ptr !in mem && a.size >= Request()
        && forall c :: c in mem ==> Disjoint(c, mem[c].blockSize, a.ptr, a.size)
    }

    /** Slots a block of `size` bytes is cut into: less than a slot is left over. */
    function SlotsIn(size: nat): (n: nat)
      requires shape.elemSize > 0 && size >= shape.header
      ensures shape.header + n * shape.elemSize <= size < shape.header + n * shape.elemSize + shape.elemSize
    {
      (size - shape.header) / shape.elemSize
    }

    /** grow: a new chunk, all of whose slots go to the front of the free list, lowest first. */
    method Grow(answer: Answer) returns (ok: bool)
      requires Valid() && Suits(answer)
      modifies this`mem, this`slots, this`chunks, this`freeSlots, this`chain, this`free
      ensures Valid() && ok == answer.Granted?
      ensures !ok ==> mem == old(mem) && slots == old(slots) && chain == old(chain) && free == old(free)
      ensures ok ==>
                && answer.size >= shape.header && SlotsIn(answer.size) >= chunkCap
                && chain == [answer.ptr] + old(chain)
                && mem == old(mem)[answer.ptr := Chunk(old(chunks), SlotsIn(answer.size), answer.size)]
                && free == NewSlots(shape, answer.ptr, 0, SlotsIn(answer.size)) + old(free)
                && (forall p :: p in old(slots) ==> p in slots && slots[p] == old(slots)[p])
    {
      hide Chained, Threaded, Parted, CapSum, IsSlot, NewSlots;
      if answer.Refused? {
        return false;
      }
      ChunkFacts(shape, mem, chunks, chain);
      var p: Ptr := answer.ptr;
      var chunk := Chunk(chunks, (answer.size - shape.header) / shape.elemSize, answer.size);
      RoomFor(shape, chunk, chunkCap);
      ghost var mem0, slots0, free0 := mem, slots, free;
      AddChunk(shape, mem, chunks, chain, p, chunk);
      mem := mem[p := chunk];
      chunks := p;
      chain := [p] + chain;
      Thread(p, chunk, mem0);
      PartedMore(shape, mem0, slots0, free0, live, p, chunk, slots, free);
      NewSlotsAt(shape, p, 0, chunk.cap);
      ok := true;
    }

    /** The loop of grow, from the last slot down. */
    method Thread(p: Ptr, chunk: Chunk, ghost mem0: map<Ptr, Chunk>)
      requires Threaded(slots, freeSlots, free) && Parted(shape, mem0, slots, free, live)
      requires shape.Sized(chunk) && p != NULL
      requires forall c :: c in mem0 ==> shape.Sized(mem0[c]) && Disjoint(c, mem0[c].blockSize, p, chunk.blockSize)
      modifies this`slots, this`freeSlots, this`free
      ensures Threaded(slots, freeSlots, free) && free == NewSlots(shape, p, 0, chunk.cap) + old(free)
      ensures forall q :: q in slots <==> q in old(slots) || q in NewSlots(shape, p, 0, chunk.cap)
      ensures forall q :: q in old(slots) ==> q in slots && slots[q] == old(slots)[q]
      ensures forall q :: q in NewSlots(shape, p, 0, chunk.cap) ==> q !in old(slots) && q != NULL
    {
      hide Threaded, Parted, IsSlot, NewSlots;
      ghost var slots0, free0, cap := slots, free, chunk.cap;
      LastSlots(shape, p, cap, free0);
      for i := chunk.cap downto 0
        invariant Threaded(slots, freeSlots, free) && free == NewSlots(shape, p, i, cap) + free0
        invariant forall q :: q in slots <==> q in slots0 || q in NewSlots(shape, p, i, cap)
        invariant forall q :: q in slots0 ==> q in slots && slots[q] == slots0[q]
        invariant forall q :: q in NewSlots(shape, p, i, cap) ==> q !in slots0 && q != NULL
      {
        OneMoreSlot(shape, mem0, slots0, free0, live, p, chunk, i);
        var slot := shape.Slot(p, i);
        var rest: seq<nat> := *;
        PushFree(slots, freeSlots, free, slot, Contents(freeSlots, rest));
        slots := slots[slot := Contents(freeSlots, rest)];
        freeSlots := slot;
        free := [slot] + free;
        assert free == NewSlots(shape, p, i, cap) + free0;
      }
    }

    /** ralcPool_alloc: the slot freed last, or else the first slot of a new chunk. */
    method Alloc(answer: Answer) returns (r: Ptr)
      requires Valid() && Suits(answer)
      modifies this
      ensures Valid()
      ensures r == NULL <==> old(free) == [] && answer.Refused?
      ensures r == NULL ==>
                && mem == old(mem) && slots == old(slots)
                && chain == old(chain) && free == old(free) && live == old(live)
      ensures r != NULL ==>
                && r !in old(live) && live == old(live) + {r}
                && (forall p :: p in old(live) ==> p in slots && p in old(slots) && slots[p] == old(slots)[p])
                && (|old(free)| > 0 ==> slots == old(slots))
                && [r] + free == (if |old(free)| > 0 then old(free)
                                  else NewSlots(shape, answer.ptr, 0, SlotsIn(answer.size)))
                && chain == (if |old(free)| > 0 then old(chain) else [answer.ptr] + old(chain))
                && mem == (if |old(free)| > 0 then old(mem)
                           else old(mem)[answer.ptr := Chunk(old(chunks), SlotsIn(answer.size), answer.size)])
    {
      hide Chained, Threaded, Parted, CapSum, IsSlot, NewSlots;
      LiveWords(shape, mem, slots, free, live);
      NoneFree(slots, freeSlots, free);
      if freeSlots == NULL {
        var ok := Grow(answer);
        if !ok {
          return NULL;
        }
        NewSlotsAt(shape, answer.ptr, 0, SlotsIn(answer.size));
        NoneFree(slots, freeSlots, free);
      }
      r := Take();
    }

    /** The end of ralcPool_alloc: the first free slot is unlinked. */
    method Take() returns (slot: Ptr)
      requires Valid() && |free| > 0
      modifies this`freeSlots, this`count, this`free, this`live
      ensures Valid()
      ensures [slot] + free == old(free) && slot !in old(live) && live == old(live) + {slot} && slot != NULL
    {
      hide Chained, Threaded, Parted, CapSum, IsSlot;
      NoneFree(slots, freeSlots, free);
      PopFree(slots, freeSlots, free);
      PartedTake(shape, mem, slots, free, live, freeSlots);
      slot := freeSlots;
      freeSlots := slots[slot].link;
      count := count + 1;
      free := free[1..];
      live := live + {slot};
    }

    /** ralcPool_free: the link overwrites the slot. */
    method Free(ptr: Ptr)
      requires Valid() && ptr in live
      modifies this`slots, this`freeSlots, this`count, this`free, this`live
      ensures Valid()
      ensures free == [ptr] + old(free) && live == old(live) - {ptr}
      ensures ptr in old(slots) && slots == old(slots)[ptr := old(slots)[ptr].(link := At(old(free), 0))]
      ensures forall p :: p in live ==> p in slots && p in old(slots) && slots[p] == old(slots)[p]
    {
      hide Chained, Threaded, Parted, CapSum, IsSlot;
      LiveWords(shape, mem, slots, free, live);
      NoneFree(slots, freeSlots, free);
      var c := slots[ptr].(link := freeSlots);
      PartedGive(shape, mem, slots, free, live, ptr, c);
      PushFree(slots, freeSlots, free, ptr, c);
      slots := slots[ptr := c];
      freeSlots := ptr;
      count := count - 1;
      free := [ptr] + free;
      live := live - {ptr};
    }

    /** The caller writes to a live slot. */
    method Write(ptr: Ptr, value: Contents)
      requires Valid() && ptr in live
      modifies this`slots
      ensures Valid() && ptr in old(slots) && slots == old(slots)[ptr := value]
    {
      hide Chained, Threaded, CapSum, IsSlot;
      SameThread(slots, slots[ptr := value], freeSlots, free);
      slots := slots[ptr := value];
    }

    /** ralcPool_clear: each header is read before its block is given back; the slots go with it.
        `freed` are the blocks given back, in order. */
    method Clear() returns (freed: seq<Ptr>)
      requires Valid()
      modifies this
      ensures Valid() && mem == map[] && chain == [] && free == [] && live == {}
      ensures freed == old(chain)
    {
      hide Threaded, Parted, CapSum, NoDup, IsSlot;
      ghost var mem0, s := mem, chain;
      ChunkFacts(shape, mem, chunks, chain);
      ghost var k := 0;
      freed := [];
      var chunk := chunks;
      while chunk != NULL
        invariant k <= |s| && chunk == At(s, k) && freed == s[..k]
        invariant forall c :: c in mem <==> c in s[k..]
        invariant forall c :: c in mem ==> c in mem0 && mem[c] == mem0[c]
        decreases |s| - k
      {
        assert ChunkAt(mem0, s, k) && s[k] in s[k..];
        Behind(s, k);
        var next := mem[chunk].next;
        mem := mem - {chunk};
        freed := freed + [chunk];
        chunk := next;
        k := k + 1;
      }
      NoneLeft(s, k, mem0, mem);
      chunks, freeSlots, count, slots := NULL, NULL, 0, map[];
      chain, free, live := [], [], {};
      NothingHeld(shape);
    }

    /** ralcPool_getUsage, from the parent's usage, which accounts for the chunks as blocks. None
        stands for the failing assertion at line 149: it fails exactly if the parent counts fewer
        blocks than there are chunks. */
    method GetUsage(parent: Usage) returns (r: Option<Usage>)
      requires Valid() && Footprint(mem, chain) <= parent.blockSize
      ensures r.None? <==> parent.blockCount < |chain|
      ensures r.Some? ==>
                && r.value.Total() == parent.Total()
                && r.value.blockCount == parent.blockCount - |chain| + |live|
                && r.value.blockSize == parent.blockSize - Footprint(mem, chain) + shape.Bytes(|live|)
                && r.value.holeCount == parent.holeCount + |free|
                && r.value.holeSize == parent.holeSize + shape.Bytes(|free|)
    {
      hide Threaded, Parted, CapSum, IsSlot, Footprint, NoDup;
      var chunkCount: nat, cap: nat, systemSize: nat := 0, 0, 0;
      var chunk := chunks;
      SumNothing(shape, mem, chain);
      while chunk != NULL
        invariant chunkCount <= |chain| && chunk == At(chain, chunkCount)
        invariant forall c :: c in chain[chunkCount..] ==> c in mem
        invariant cap + CapSum(mem, chain[chunkCount..]) == CapSum(mem, chain)
        invariant systemSize + shape.Bytes(cap) + Footprint(mem, chain[chunkCount..]) == Footprint(mem, chain)
        decreases |chain| - chunkCount
      {
        assert ChunkAt(mem, chain, chunkCount);
        CapFits(shape, mem[chunk]);
        SumStep(shape, mem, chain, chunkCount, cap);
        systemSize := systemSize + (mem[chunk].blockSize - shape.Bytes(mem[chunk].cap));
        cap := cap + mem[chunk].cap;
        chunkCount := chunkCount + 1;
        chunk := mem[chunk].next;
      }
      assert chunkCount == |chain| || At(chain, chunkCount) in chain;
      SumEnd(shape, mem, chain, chunkCount);
      var holeCount: nat := cap - count;
      var holeSize := shape.Bytes(holeCount);
      BytesSum(shape, holeCount, count);
      if chunkCount > parent.blockCount {
        return None;
      }
      r := Some(Usage(parent.blockCount - chunkCount + count, parent.blockSize - (systemSize + holeSize),
                      parent.holeCount + holeCount, parent.holeSize + holeSize, parent.systemSize + systemSize));
    }
  }

  // ---- What the methods rest on ------------------------------------------------------------------------

  lemma {:induction false} LastSlots(sh: Shape, p: Ptr, cap: nat, free: seq<Ptr>)
    ensures NewSlots(sh, p, cap, cap) == [] && NewSlots(sh, p, cap, cap) + free == free
  {
  }

  lemma {:induction false} OneMoreSlot(sh: Shape, mem: map<Ptr, Chunk>, slots: map<Ptr, Contents>, free: seq<Ptr>,
                                       live: set<Ptr>, p: Ptr, chunk: Chunk, i: nat)
    requires Parted(sh, mem, slots, free, live) && sh.Sized(chunk) && i < chunk.cap && p != NULL
    requires forall c :: c in mem ==> sh.Sized(mem[c]) && Disjoint(c, mem[c].blockSize, p, chunk.blockSize)
    ensures var slot := sh.Slot(p, i);
            && slot != NULL && slot !in slots
            && slot !in NewSlots(sh, p, i + 1, chunk.cap) + free
            && NewSlots(sh, p, i, chunk.cap) == [slot] + NewSlots(sh, p, i + 1, chunk.cap)
  {
    var slot := sh.Slot(p, i);
    SlotWithin(sh, p, chunk, i);
    NotYetSlot(sh, mem, p, chunk, i);
    InNewSlots(sh, p, i + 1, chunk.cap, slot);
    forall k: nat | i + 1 <= k < chunk.cap
      ensures slot != sh.Slot(p, k)
    {
      SlotsApart(sh, p, i, k);
    }
  }

  lemma {:induction false} PartedMore(
      sh: Shape, mem: map<Ptr, Chunk>, slots: map<Ptr, Contents>, free: seq<Ptr>, live: set<Ptr>, p: Ptr,
      chunk: Chunk, slots': map<Ptr, Contents>, free': seq<Ptr>)
    requires Parted(sh, mem, slots, free, live) && p !in mem
    requires free' == NewSlots(sh, p, 0, chunk.cap) + free
    requires forall q :: q in slots' <==> q in slots || q in NewSlots(sh, p, 0, chunk.cap)
    requires forall q :: q in NewSlots(sh, p, 0, chunk.cap) ==> q !in slots && q != NULL
    ensures Parted(sh, mem[p := chunk], slots', free', live)
  {
    hide IsSlot, NewSlots;
    forall q
      ensures q in slots' <==> IsSlot(sh, mem[p := chunk], q)
    {
      SlotsOfMore(sh, mem, p, chunk, q);
    }
  }

  lemma {:induction false} PartedTake(sh: Shape, mem: map<Ptr, Chunk>, slots: map<Ptr, Contents>, free: seq<Ptr>,
                                      live: set<Ptr>, p: Ptr)
    requires Parted(sh, mem, slots, free, live) && |free| > 0 && p == free[0] && p !in free[1..]
    ensures Parted(sh, mem, slots, free[1..], live + {p})
    ensures p !in live && |live + {p}| == |live| + 1 && |free[1..]| == |free| - 1
  {
    hide IsSlot;
    assert free == [p] + free[1..];
  }

  lemma {:induction false} PartedGive(sh: Shape, mem: map<Ptr, Chunk>, slots: map<Ptr, Contents>, free: seq<Ptr>,
                                      live: set<Ptr>, p: Ptr, c: Contents)
    requires Parted(sh, mem, slots, free, live) && p in live
    ensures p in slots && p !in free && p != NULL
    ensures Parted(sh, mem, slots[p := c], [p] + free, live - {p})
    ensures |live - {p}| == |live| - 1
  {
    hide IsSlot;
  }

  lemma {:induction false} LiveWords(sh: Shape, mem: map<Ptr, Chunk>, slots: map<Ptr, Contents>, free: seq<Ptr>,
                                     live: set<Ptr>)
    requires Parted(sh, mem, slots, free, live)
    ensures forall p :: p in live ==> p in slots && p !in free
  {
    hide IsSlot;
  }

  lemma {:induction false} Behind(chain: seq<Ptr>, k: nat)
    requires NoDup(chain) && k < |chain|
    ensures forall c :: c in chain[k + 1..] <==> c in chain[k..] && c != chain[k]
  {
    assert chain[k..] == [chain[k]] + chain[k + 1..];
  }

  lemma {:induction false} NoneLeft(chain: seq<Ptr>, k: nat, mem0: map<Ptr, Chunk>, mem: map<Ptr, Chunk>)
    requires k <= |chain| && At(chain, k) == NULL && NULL !in mem0
    requires forall c :: c in mem <==> c in chain[k..]
    requires forall c :: c in chain ==> c in mem0
    ensures mem == map[] && chain[..k] == chain
  {
    assert k == |chain| || At(chain, k) in chain;
  }

  lemma {:induction false} NothingHeld(sh: Shape)
    ensures Chained(sh, map[], NULL, []) && Threaded(map[], NULL, [])
    ensures Parted(sh, map[], map[], [], {}) && CapSum(map[], []) == 0
  {
  }

  /** What the chain says about each chunk. */
  lemma {:induction false} ChunkFacts(sh: Shape, mem: map<Ptr, Chunk>, head: Ptr, chain: seq<Ptr>)
    requires Chained(sh, mem, head, chain)
    ensures NULL !in mem && (forall c :: c in mem <==> c in chain) && head == At(chain, 0) && chain[0..] == chain
    ensures forall c :: c in mem ==> sh.Sized(mem[c])
  {
  }

  /** The slots of a chunk fit in its block. */
  lemma {:induction false} CapFits(sh: Shape, c: Chunk)
    requires sh.Sized(c)
    ensures c.blockSize >= sh.Bytes(c.cap)
  {
  }

  lemma {:induction false} BytesSum(sh: Shape, m: nat, n: nat)
    ensures sh.Bytes(m + n) == sh.Bytes(m) + sh.Bytes(n)
    ensures sh.Bytes(m) >= 0 && sh.Bytes(n) >= 0
  {
  }

  lemma {:induction false} SumNothing(sh: Shape, mem: map<Ptr, Chunk>, chain: seq<Ptr>)
    ensures chain[0..] == chain && sh.Bytes(0) == 0
  {
  }

  lemma {:induction false} SumStep(sh: Shape, mem: map<Ptr, Chunk>, chain: seq<Ptr>, k: nat, cap: nat)
    requires k < |chain| && forall c :: c in chain[k..] ==> c in mem
    ensures forall c :: c in chain[k + 1..] ==> c in mem
    ensures chain[k] in mem
    ensures var c := mem[chain[k]];
            && CapSum(mem, chain[k..]) == c.cap + CapSum(mem, chain[k + 1..])
            && Footprint(mem, chain[k..]) == c.blockSize + Footprint(mem, chain[k + 1..])
            && sh.Bytes(cap + c.cap) == sh.Bytes(cap) + sh.Bytes(c.cap)
  {
    assert chain[k..][1..] == chain[k + 1..];
    assert chain[k..][0] == chain[k] && chain[k] in chain[k..];
    BytesSum(sh, cap, mem[chain[k]].cap);
  }

  lemma {:induction false} SumEnd(sh: Shape, mem: map<Ptr, Chunk>, chain: seq<Ptr>, k: nat)
    requires k == |chain|
    ensures CapSum(mem, chain[k..]) == 0 && Footprint(mem, chain[k..]) == 0
  {
  }
}
