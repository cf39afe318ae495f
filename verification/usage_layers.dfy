/** The usage of allocators stacked on each other: an arena, a pool or a list whose blocks live in a
    boundary-tag heap. */
module UsageLayers {
  import opened BlockLayout
  import opened BlockMoves
  import opened Options
  import opened Usage
  import RalcArena
  import RalcGen
  import RalcPool
  import Rlist

  /** A block that a layer has obtained from its parent. */
  datatype Region = Region(ptr: nat, size: nat)

  ghost function Sum(rs: seq<Region>): nat {
    if rs == [] then 0 else rs[0].size + Sum(rs[1..])
  }

  ghost predicate Distinct(rs: seq<Region>) {
    forall i, j :: 0 <= i < j < |rs| ==> rs[i].ptr != rs[j].ptr
  }

  /** Every block of the layer is live in the heap and has the size that the layer noted. */
  ghost predicate Held(heap: map<nat, seq<nat>>, rs: seq<Region>) {
    Distinct(rs) && forall r :: r in rs ==> HeldOne(heap, r)
  }

  ghost predicate HeldOne(heap: map<nat, seq<nat>>, r: Region) {
    r.ptr in heap && |heap[r.ptr]| == r.size
  }

  // ---- What a layer holds is part of what the heap accounts for -----------------------------------------

  lemma {:induction false} SumConcat(a: seq<Region>, b: seq<Region>)
    ensures Sum(a + b) == Sum(a) + Sum(b)
  {
    if a == [] {
      assert a + b == b;
    } else {
      assert (a + b)[1..] == a[1..] + b;
      SumConcat(a[1..], b);
    }
  }

  /** All but entry `i`. */
  ghost function Others(rs: seq<Region>, i: nat): seq<Region>
    requires i < |rs|
  {
    rs[..i] + rs[i + 1..]
  }

  lemma {:induction false} SumOthers(rs: seq<Region>, i: nat)
    requires i < |rs|
    ensures Sum(rs) == rs[i].size + Sum(Others(rs, i)) && |rs| == 1 + |Others(rs, i)|
  {
    var tail := [rs[i]] + rs[i + 1..];
    assert rs == rs[..i] + tail && tail[1..] == rs[i + 1..];
    SumConcat(rs[..i], tail);
    SumConcat(rs[..i], rs[i + 1..]);
  }

  lemma {:induction false} OthersHeld(heap: map<nat, seq<nat>>, rest: map<nat, seq<nat>>, rs: seq<Region>, i: nat,
                                      data: nat, payload: seq<nat>)
    requires Held(heap, rs) && i < |rs| && rs[i].ptr == data && heap == rest[data := payload]
    ensures Held(rest, Others(rs, i))
  {
    var os := Others(rs, i);
    assert forall k :: 0 <= k < |os| ==> os[k] == rs[if k < i then k else k + 1];
    forall r | r in os
      ensures HeldOne(rest, r)
    {
      var k :| 0 <= k < |os| && os[k] == r;
      assert r in rs && HeldOne(heap, r);
    }
  }

  /** The distinct blocks a layer holds in the heap are no more, and no larger, than all live blocks. */
  lemma {:induction false} HeldFits(t: Target, mem: seq<nat>, off: nat, bs: seq<Block>, rs: seq<Region>)
    requires t.word > 0 && off + Span(t, bs) <= |mem| && Held(Live(t, mem, off, bs), rs)
    ensures Sum(rs) <= Bytes(bs, false) && |rs| <= Count(bs, false)
    decreases |bs|
  {
    if bs == [] {
      assert |rs| > 0 ==> HeldOne(map[], rs[0]);
    } else {
      var data := off + t.Header();
      var rest := Live(t, mem, data + bs[0].size, bs[1..]);
      if !bs[0].unused && exists i :: 0 <= i < |rs| && rs[i].ptr == data {
        var i :| 0 <= i < |rs| && rs[i].ptr == data;
        var payload := mem[data..data + bs[0].size];
        OthersHeld(rest[data := payload], rest, rs, i, data, payload);
        HeldFits(t, mem, data + bs[0].size, bs[1..], Others(rs, i));
        SumOthers(rs, i);
        assert HeldOne(rest[data := payload], rs[i]);
      } else {
        StillHeld(Live(t, mem, off, bs), rest, rs, data);
        HeldFits(t, mem, data + bs[0].size, bs[1..], rs);
      }
    }
  }

  lemma {:induction false} StillHeld(heap: map<nat, seq<nat>>, rest: map<nat, seq<nat>>, rs: seq<Region>, data: nat)
    requires Held(heap, rs)
    requires
      || heap == rest
      || (data in heap && heap == rest[data := heap[data]] && forall i :: 0 <= i < |rs| ==> rs[i].ptr != data)
    ensures Held(rest, rs)
  {
    forall r | r in rs
      ensures HeldOne(rest, r)
    {
      assert HeldOne(heap, r);
    }
  }

  // ---- The blocks of each layer ----------------------------------------------------------------------

  ghost function ArenaRegions(header: nat, st: seq<RalcArena.Level>): (rs: seq<Region>)
    ensures |rs| == |st|
  {
    seq(|st|, i requires 0 <= i < |st| => Region(st[i].chunk, header + st[i].cap))
  }

  lemma {:induction false} ArenaFootprint(header: nat, st: seq<RalcArena.Level>)
    ensures Sum(ArenaRegions(header, st)) == RalcArena.Footprint(header, st)
    decreases |st|
  {
    if st != [] {
      var k := |st| - 1;
      var last := Region(st[k].chunk, header + st[k].cap);
      ArenaFootprint(header, st[..k]);
      assert ArenaRegions(header, st) == ArenaRegions(header, st[..k]) + [last];
      SumConcat(ArenaRegions(header, st[..k]), [last]);
      assert Sum([last]) == last.size;
    }
  }

  ghost function PoolRegions(mem: map<nat, RalcPool.Chunk>, chain: seq<nat>): (rs: seq<Region>)
    requires forall c :: c in chain ==> c in mem
    ensures |rs| == |chain|
  {
    seq(|chain|, i requires 0 <= i < |chain| => Region(chain[i], mem[chain[i]].blockSize))
  }

  lemma {:induction false} PoolFootprint(mem: map<nat, RalcPool.Chunk>, chain: seq<nat>)
    requires forall c :: c in chain ==> c in mem
    ensures Sum(PoolRegions(mem, chain)) == RalcPool.Footprint(mem, chain)
  {
    if chain != [] {
      PoolFootprint(mem, chain[1..]);
      assert PoolRegions(mem, chain)[1..] == PoolRegions(mem, chain[1..]);
    }
  }

  ghost function ListRegions(header: nat, mem: map<nat, Rlist.Elem>, s: seq<nat>): (rs: seq<Region>)
    ensures |rs| == |s|
  {
    seq(|s|, i requires 0 <= i < |s| => Region(s[i], header + if s[i] in mem then |mem[s[i]].data| else 0))
  }

  lemma {:induction false} ListFootprint(header: nat, mem: map<nat, Rlist.Elem>, s: seq<nat>)
    ensures Sum(ListRegions(header, mem, s)) == Rlist.Footprint(header, mem, s)
  {
    if s != [] {
      ListFootprint(header, mem, s[1..]);
      assert ListRegions(header, mem, s)[1..] == ListRegions(header, mem, s[1..]);
    }
  }

  // ---- What an arena grants --------------------------------------------------------------------------

  ghost predicate ObjectsApart(o: RalcArena.Object, o': RalcArena.Object) {
    o.chunk != o'.chunk || o.offset + o.size <= o'.offset || o'.offset + o'.size <= o.offset
  }

  /** Objects that lie in the used parts of the chunks and do not overlap: what an arena has granted. */
  ghost predicate Packed(st: seq<RalcArena.Level>, objs: seq<RalcArena.Object>) {
    && (forall i :: 0 <= i < |objs| ==> RalcArena.Holds(st, objs[i]))
    && (forall i, j :: 0 <= i < j < |objs| ==> ObjectsApart(objs[i], objs[j]))
  }

  ghost function ObjectRegions(header: nat, objs: seq<RalcArena.Object>): (rs: seq<Region>)
    ensures |rs| == |objs|
  {
    seq(|objs|, i requires 0 <= i < |objs| => Region(RalcArena.Address(header, objs[i]), objs[i].size))
  }

  /** The `n` bytes from `offset` on in the chunk at `chunk`. */
  ghost function Cells(chunk: nat, offset: nat, n: nat): set<(nat, nat)> {
    if n == 0 then {} else Cells(chunk, offset, n - 1) + {(chunk, offset + n - 1)}
  }

  lemma {:induction false} InCells(chunk: nat, offset: nat, n: nat)
    ensures |Cells(chunk, offset, n)| == n
    ensures forall c :: c in Cells(chunk, offset, n) <==> c.0 == chunk && offset <= c.1 < offset + n
  {
    if n > 0 {
      InCells(chunk, offset, n - 1);
    }
  }

  ghost function UsedCells(st: seq<RalcArena.Level>): set<(nat, nat)> {
    if st == [] then {} else UsedCells(st[..|st| - 1]) + Cells(st[|st| - 1].chunk, 0, st[|st| - 1].size)
  }

  ghost function ObjectCells(objs: seq<RalcArena.Object>): set<(nat, nat)> {
    if objs == [] then {} else Cells(objs[0].chunk, objs[0].offset, objs[0].size) + ObjectCells(objs[1..])
  }

  lemma {:induction false} UnionSize<T>(a: set<T>, b: set<T>)
    ensures |a + b| <= |a| + |b| && (a !! b ==> |a + b| == |a| + |b|)
  {
    assert |a + b| == |a| + |b| - |a * b|;
  }

  lemma {:induction false} PartSize<T>(a: set<T>, b: set<T>)
    requires a <= b
    ensures |a| <= |b|
  {
    UnionSize(a, b - a);
    assert a + (b - a) == b;
  }

  lemma {:induction false} UsedSize(st: seq<RalcArena.Level>)
    ensures |UsedCells(st)| <= RalcArena.Total(st)
    ensures forall i, c :: 0 <= i < |st| && c in Cells(st[i].chunk, 0, st[i].size) ==> c in UsedCells(st)
    decreases |st|
  {
    if st != [] {
      var k := |st| - 1;
      UsedSize(st[..k]);
      InCells(st[k].chunk, 0, st[k].size);
      UnionSize(UsedCells(st[..k]), Cells(st[k].chunk, 0, st[k].size));
      forall i, c | 0 <= i < |st| && c in Cells(st[i].chunk, 0, st[i].size)
        ensures c in UsedCells(st)
      {
        assert i < k ==> st[..k][i] == st[i];
      }
    }
  }

  lemma {:induction false} InObjects(objs: seq<RalcArena.Object>, c: (nat, nat)) returns (i: nat)
    requires c in ObjectCells(objs)
    ensures i < |objs| && c in Cells(objs[i].chunk, objs[i].offset, objs[i].size)
  {
    if c in Cells(objs[0].chunk, objs[0].offset, objs[0].size) {
      i := 0;
    } else {
      var k := InObjects(objs[1..], c);
      i := k + 1;
    }
  }

  lemma {:induction false} ObjectsSize(header: nat, objs: seq<RalcArena.Object>)
    requires forall i, j :: 0 <= i < j < |objs| ==> ObjectsApart(objs[i], objs[j])
    ensures |ObjectCells(objs)| == Sum(ObjectRegions(header, objs))
  {
    if objs != [] {
      var o, rest := objs[0], objs[1..];
      assert forall i :: 0 <= i < |rest| ==> rest[i] == objs[i + 1];
      ObjectsSize(header, rest);
      assert ObjectRegions(header, objs)[1..] == ObjectRegions(header, rest);
      InCells(o.chunk, o.offset, o.size);
      forall c | c in ObjectCells(rest)
        ensures c !in Cells(o.chunk, o.offset, o.size)
      {
        var i := InObjects(rest, c);
        InCells(rest[i].chunk, rest[i].offset, rest[i].size);
        assert ObjectsApart(objs[0], objs[i + 1]);
      }
      UnionSize(Cells(o.chunk, o.offset, o.size), ObjectCells(rest));
    }
  }

  /** What an arena has granted is no more than what is in use. */
  lemma {:induction false} PackedFits(header: nat, st: seq<RalcArena.Level>, objs: seq<RalcArena.Object>)
    requires Packed(st, objs)
    ensures Sum(ObjectRegions(header, objs)) <= RalcArena.Total(st)
  {
    hide Cells, UsedCells;
    ObjectsSize(header, objs);
    UsedSize(st);
    forall c | c in ObjectCells(objs)
      ensures c in UsedCells(st)
    {
      var i := InObjects(objs, c);
      var o := objs[i];
      InCells(o.chunk, o.offset, o.size);
      var k :| 0 <= k < |st| && RalcArena.HeldBy(st[k], o);
      InCells(st[k].chunk, 0, st[k].size);
    }
    PartSize(ObjectCells(objs), UsedCells(st));
  }

  // ---- Layer by layer --------------------------------------------------------------------------------

  /** The record adds up to `cap` and covers the blocks `rs`. */
  ghost predicate Accounts(u: Usage, cap: nat, rs: seq<Region>) {
    u.Total() == cap && Sum(rs) <= u.blockSize
  }

  /** The record counts the blocks `rs`. */
  ghost predicate Counts(u: Usage, rs: seq<Region>) {
    |rs| <= u.blockCount
  }

  /** A record that covers blocks covers any of them. */
  lemma {:induction false} PartFits(rs: seq<Region>, all: seq<Region>)
    requires Distinct(rs) && forall r :: r in rs ==> r in all
    ensures Sum(rs) <= Sum(all) && |rs| <= |all|
    decreases |rs|
  {
    if rs != [] {
      assert rs[0] in rs;
      var i :| 0 <= i < |all| && all[i] == rs[0];
      forall r | r in rs[1..]
        ensures r in Others(all, i)
      {
        var k :| 0 <= k < |rs| - 1 && rs[1..][k] == r;
        assert r == rs[k + 1] && r in rs && r.ptr != rs[0].ptr;
        StillThere(all, i, r);
      }
      PartFits(rs[1..], Others(all, i));
      SumOthers(all, i);
    }
  }

  lemma {:induction false} StillThere(all: seq<Region>, i: nat, r: Region)
    requires i < |all| && r in all && r != all[i]
    ensures r in Others(all, i)
  {
    var j :| 0 <= j < |all| && all[j] == r;
    assert Others(all, i)[if j < i then j else j - 1] == r;
  }

  /** Live slots of a pool as blocks. */
  ghost predicate Slots(live: set<nat>, elemSize: nat, rs: seq<Region>) {
    Distinct(rs) && forall r :: r in rs ==> r.ptr in live && r.size == elemSize
  }

  lemma {:induction false} SlotsFit(sh: RalcPool.Shape, live: set<nat>, rs: seq<Region>)
    requires Slots(live, sh.elemSize, rs)
    ensures Sum(rs) <= sh.Bytes(|live|) && |rs| <= |live|
    decreases |rs|
  {
    RalcPool.BytesSum(sh, 0, |live|);
    if rs != [] {
      var p := rs[0].ptr;
      assert rs[0] in rs;
      forall r | r in rs[1..]
        ensures r in rs && r.ptr != p
      {
        var k :| 0 <= k < |rs| - 1 && rs[1..][k] == r;
        assert r == rs[k + 1];
      }
      SlotsFit(sh, live - {p}, rs[1..]);
      RalcPool.BytesSum(sh, |live| - 1, 1);
      assert sh.Bytes(1) == sh.elemSize;
    }
  }

  /** The heap's record accounts for and counts any blocks held in it. */
  method GenLayer(gen: RalcGen.RalcGen, ghost rs: seq<Region>) returns (u: Usage)
    requires gen.Valid() && Held(gen.Heap(), rs)
    ensures Accounts(u, gen.cap, rs) && Counts(u, rs) && u.blockCount == |gen.Heap()|
  {
    hide Live, Span, Held, Bytes;
    GenHolds(gen, rs);
    u := gen.GetUsage();
  }

  /** An arena on any parent whose record accounts for its chunks: nothing underflows, the total stays,
      and the record accounts for whatever the arena has granted. */
  method ArenaLayer(parent: Usage, ghost cap: nat, arena: RalcArena.RalcArena) returns (u: Usage)
    requires arena.Valid() && Accounts(parent, cap, ArenaRegions(arena.header, arena.Levels()))
    ensures u.blockCount == parent.blockCount && u.Total() == cap
    ensures forall objs: seq<RalcArena.Object> ::
              Packed(arena.Levels(), objs) ==> Accounts(u, cap, ObjectRegions(arena.header, objs))
  {
    hide RalcArena.Footprint;
    ArenaFootprint(arena.header, arena.Levels());
    u := arena.GetUsage(parent);
    forall objs: seq<RalcArena.Object> | Packed(arena.Levels(), objs)
      ensures Accounts(u, cap, ObjectRegions(arena.header, objs))
    {
      PackedFits(arena.header, arena.Levels(), objs);
    }
  }

  /** A list: its record accounts for the payloads, and counts them if the parent counts the elements. */
  method ListLayer(parent: Usage, ghost cap: nat, list: Rlist.List, header: nat) returns (u: Usage)
    requires list.Valid() && Accounts(parent, cap, ListRegions(header, list.mem, list.nodes))
    ensures Accounts(u, cap, ListRegions(0, list.mem, list.nodes)) && u.blockCount == parent.blockCount
    ensures Counts(parent, ListRegions(header, list.mem, list.nodes)) ==>
              Counts(u, ListRegions(0, list.mem, list.nodes))
  {
    hide Rlist.Footprint, Rlist.Mirrored;
    ListFootprint(header, list.mem, list.nodes);
    ListFootprint(0, list.mem, list.nodes);
    u := list.GetUsage(header, parent);
  }

  /** A pool, whose parent must count the chunks as well: its record accounts for and counts any live
      slots. */
  method PoolLayer(parent: Usage, ghost cap: nat, pool: RalcPool.RalcPool) returns (r: Option<Usage>)
    requires pool.Valid() && Accounts(parent, cap, PoolRegions(pool.mem, pool.chain))
    requires Counts(parent, PoolRegions(pool.mem, pool.chain))
    ensures r.Some? && r.value.Total() == cap
    ensures forall rs: seq<Region> ::
              Slots(pool.live, pool.shape.elemSize, rs) ==> Accounts(r.value, cap, rs) && Counts(r.value, rs)
  {
    hide RalcPool.Footprint, RalcPool.Chained;
    PoolFootprint(pool.mem, pool.chain);
    r := pool.GetUsage(parent);
    forall rs: seq<Region> | Slots(pool.live, pool.shape.elemSize, rs)
      ensures Accounts(r.value, cap, rs) && Counts(r.value, rs)
    {
      SlotsFit(pool.shape, pool.live, rs);
    }
  }

  // ---- Stacked on the heap ---------------------------------------------------------------------------

  /** An arena on the heap: no subtraction underflows and no byte of the buffer is lost or counted twice. */
  method ArenaOverGen(gen: RalcGen.RalcGen, arena: RalcArena.RalcArena) returns (u: Usage)
    requires gen.Valid() && arena.Valid() && Held(gen.Heap(), ArenaRegions(arena.header, arena.Levels()))
    ensures u.Total() == gen.cap
    ensures forall objs: seq<RalcArena.Object> ::
              Packed(arena.Levels(), objs) ==> Accounts(u, gen.cap, ObjectRegions(arena.header, objs))
  {
    var parent := GenLayer(gen, ArenaRegions(arena.header, arena.Levels()));
    u := ArenaLayer(parent, gen.cap, arena);
  }

  /** A list on the heap. */
  method ListOverGen(gen: RalcGen.RalcGen, list: Rlist.List, header: nat) returns (u: Usage)
    requires gen.Valid() && list.Valid() && Held(gen.Heap(), ListRegions(header, list.mem, list.nodes))
    ensures u.Total() == gen.cap
    ensures u.blockSize >= Rlist.Footprint(0, list.mem, list.nodes) && u.blockCount >= |list.nodes|
  {
    ListFootprint(0, list.mem, list.nodes);
    var parent := GenLayer(gen, ListRegions(header, list.mem, list.nodes));
    u := ListLayer(parent, gen.cap, list, header);
  }

  /** A pool on the heap, which counts the chunks as blocks: the assertion on the block count holds. */
  method PoolOverGen(gen: RalcGen.RalcGen, pool: RalcPool.RalcPool) returns (r: Option<Usage>)
    requires gen.Valid() && pool.Valid() && Held(gen.Heap(), PoolRegions(pool.mem, pool.chain))
    ensures r.Some? && r.value.Total() == gen.cap
    ensures forall rs: seq<Region> ::
              Slots(pool.live, pool.shape.elemSize, rs) ==> Accounts(r.value, gen.cap, rs) && Counts(r.value, rs)
  {
    var parent := GenLayer(gen, PoolRegions(pool.mem, pool.chain));
    r := PoolLayer(parent, gen.cap, pool);
  }

  lemma {:induction false} GenHolds(gen: RalcGen.RalcGen, rs: seq<Region>)
    requires gen.Valid() && Held(gen.Heap(), rs)
    ensures Sum(rs) <= Bytes(gen.blocks, false) && |rs| <= |gen.Heap()|
  {
    hide Bytes, Count, Held;
    HeldFits(gen.target, gen.buf[..], 0, gen.blocks, rs);
    LiveKeys(gen.target, gen.buf[..], 0, gen.blocks);
    CountsAddUp(gen.target, 0, gen.blocks);
    assert |gen.Heap()| == |gen.Heap().Keys|;
  }

  // ---- Deeper stacks ---------------------------------------------------------------------------------

  /** A list whose elements are objects of an arena on the heap. */
  method ListOverArenaOverGen(gen: RalcGen.RalcGen, arena: RalcArena.RalcArena, list: Rlist.List, header: nat,
                              ghost objs: seq<RalcArena.Object>) returns (u: Usage)
    requires gen.Valid() && arena.Valid() && Held(gen.Heap(), ArenaRegions(arena.header, arena.Levels()))
    requires list.Valid() && Packed(arena.Levels(), objs)
    requires ListRegions(header, list.mem, list.nodes) == ObjectRegions(arena.header, objs)
    ensures Accounts(u, gen.cap, ListRegions(0, list.mem, list.nodes))
  {
    hide Held, Packed, ListRegions, ObjectRegions, Accounts;
    var parent := ArenaOverGen(gen, arena);
    u := ListLayer(parent, gen.cap, list, header);
  }

  /** An arena whose chunks are slots of a pool on the heap. */
  method ArenaOverPoolOverGen(gen: RalcGen.RalcGen, pool: RalcPool.RalcPool,
                              arena: RalcArena.RalcArena) returns (u: Usage)
    requires gen.Valid() && pool.Valid() && Held(gen.Heap(), PoolRegions(pool.mem, pool.chain))
    requires arena.Valid() && Slots(pool.live, pool.shape.elemSize, ArenaRegions(arena.header, arena.Levels()))
    ensures u.Total() == gen.cap
    ensures forall objs: seq<RalcArena.Object> ::
              Packed(arena.Levels(), objs) ==> Accounts(u, gen.cap, ObjectRegions(arena.header, objs))
  {
    hide Held, Packed, Slots, ArenaRegions, ObjectRegions, Accounts;
    var r := PoolOverGen(gen, pool);
    u := ArenaLayer(r.value, gen.cap, arena);
  }
}
