/** A dynamic array whose buffer really is a block of the boundary-tag heap: what rat/src/rat_rdyn.c asks
    for is asked of the heap, and the amortised bound holds with the heap's own rounding. */
module RdynOnHeap {
  import opened Alignment
  import opened BlockLayout
  import BlockMoves
  import opened Numbers
  import opened Options
  import opened RdynCost
  import RalcGen
  import Rdyn
  import Stacking

  /** The array has a buffer if and only if `block` is live in the heap, and uses as much of it as
      elements fit. */
  ghost predicate DynOn<T(0)>(gen: RalcGen.RalcGen, d: Rdyn.Rdyn<T>, block: Option<nat>)
    reads gen, gen.buf, d
  {
    && gen.Valid() && d.Valid()
    && d.buf as object? != gen.buf as object
    && (block.None? <==> d.buf == null)
    && (block.Some? ==> block.value in gen.Heap() && d.cap == Elements(|gen.Heap()[block.value]|, d.elemSize))
  }

  /** How many elements a block has room for. */
  function Elements(size: nat, elemSize: nat): nat
    requires elemSize > 0
  {
    size / elemSize
  }

  /** What the heap may grant on top of a request, in bytes and so at most in elements. */
  function Slack(t: Target): nat {
    t.alignment + t.Header()
  }

  /** The terms on which the heap grants. */
  function HeapTerms(t: Target): Terms {
    Within(0, 1, Slack(t))
  }

  /** All payloads but that of `block` are as they were. */
  ghost predicate OthersKept(heap: map<nat, seq<nat>>, heap': map<nat, seq<nat>>, block: Option<nat>) {
    forall p :: p in heap && block != Some(p) ==> p in heap' && heap'[p] == heap[p]
  }

  /** A block that the heap has granted meanwhile takes the place of no other payload. */
  ghost predicate NewOrSame(heap: map<nat, seq<nat>>, block: Option<nat>, block': Option<nat>) {
    block' == block || block'.None? || block'.value !in heap
  }

  /** A heap with these blocks refuses an array with this block room for `wanted` elements. */
  ghost predicate Refuses(t: Target, cap: nat, bs: seq<Block>, block: Option<nat>, elemSize: nat, wanted: nat)
    requires t.Ok()
  {
    var need := AlignUp(t.alignment, wanted * elemSize);
    if block.None? then BlockMoves.Placed(t, cap, bs, need).None?
    else
      var i := BlockMoves.IndexAt(t, 0, bs, block.value);
      i < |bs| && BlockMoves.Resized(t, cap, bs, i, need).None?
  }

  /** A granted block is within the terms, whatever the size of an element. */
  lemma {:induction false} SnugIsNear(t: Target, g: RalcGen.Grant, elemSize: nat, wanted: nat)
    requires t.Ok() && elemSize > 0 && RalcGen.Snug(t, g, wanted * elemSize) && g.size >= wanted * elemSize
    ensures Room(HeapTerms(t), g.size / elemSize, wanted)
  {
    var cap := g.size / elemSize;
    AlignUpIsLeast(t.alignment, wanted * elemSize);
    Rdyn.Quotient(g.size, elemSize, wanted);
    assert cap * elemSize <= g.size;
    TimesMonotone(1, elemSize, Slack(t));
    assert (wanted + Slack(t)) * elemSize == wanted * elemSize + Slack(t) * elemSize;
    FactorLess(cap, wanted + Slack(t), elemSize);
  }

  lemma {:induction false} FactorLess(m: nat, n: nat, k: nat)
    requires m * k < n * k
    ensures m < n
  {
    if n <= m {
      TimesMonotone(n, m, k);
    }
  }

  /** The requests of reallocBuf, and the heap's answers. The heap refuses the second if it refuses the
      first. */
  method Ask<T(0)>(gen: RalcGen.RalcGen, block: Option<nat>, elemSize: nat, wanted: nat)
    returns (g: Option<nat>, a: Rdyn.Answers<T>)
    requires gen.Valid() && elemSize > 0 && (block.Some? ==> block.value in gen.Heap())
    modifies gen, gen.buf
    ensures gen.Valid() && Rdyn.SuitBoth(a, elemSize, wanted)
    ensures g.None? <==> a.Refused()
    ensures g.None? <==> Refuses(gen.target, gen.cap, old(gen.blocks), block, elemSize, wanted)
    ensures g.None? ==> gen.Heap() == old(gen.Heap()) && gen.blocks == old(gen.blocks)
    ensures g.Some? ==>
              && g.value in gen.Heap() && |a.Fill()| == Elements(|gen.Heap()[g.value]|, elemSize)
              && Room(HeapTerms(gen.target), |a.Fill()|, wanted)
    ensures OthersKept(old(gen.Heap()), gen.Heap(), block)
    ensures NewOrSame(old(gen.Heap()), block, if g.None? then block else g)
  {
    hide Laid, Live, LiveAddrs, Span, WellFormed, BlockMoves.Placed, BlockMoves.Resized, BlockMoves.Step, RalcGen.Snug;
    var size := wanted * elemSize;
    ghost var heap := gen.Heap();
    var grant := gen.Realloc(block, size);
    if grant.None? {
      assert gen.Heap() == heap;
      if block.Some? {
        Stacking.RefusedTwice(gen, block.value, size);
      }
      grant := gen.Alloc(size);
      return None, Rdyn.Answers(Rdyn.Refused, Rdyn.Refused);
    }
    SnugIsNear(gen.target, grant.value, elemSize, wanted);
    var x: T := *;
    g := Some(grant.value.ptr);
    a := Rdyn.Answers(Rdyn.Granted(grant.value.size, seq(grant.value.size / elemSize, _ => x)), Rdyn.Refused);
  }

  /** rdyn_push on the heap. It fails exactly if the elements do not fit and the heap refuses both
      requests; `first` says that the first was not needed, or met. */
  method PushOn<T(0)>(gen: RalcGen.RalcGen, d: Rdyn.Rdyn<T>, block: Option<nat>, n: nat)
    returns (block': Option<nat>, ok: bool, first: bool)
    requires DynOn(gen, d, block)
    modifies gen, gen.buf, d`buf, d`count, d`cap, d`relocated, d`held, d.buf
    ensures DynOn(gen, d, block') && (d.buf == old(d.buf) || fresh(d.buf))
    ensures OthersKept(old(gen.Heap()), gen.Heap(), block) && NewOrSame(old(gen.Heap()), block, block')
    ensures first <==>
              || old(d.count) + n <= old(d.cap)
              || !Refuses(gen.target, gen.cap, old(gen.blocks), block, d.elemSize, Wanted(old(d.count) + n))
    ensures ok <==> first || !Refuses(gen.target, gen.cap, old(gen.blocks), block, d.elemSize, old(d.count) + n)
    ensures !ok ==> block' == block && gen.Heap() == old(gen.Heap()) && d.Contents() == old(d.Contents())
    ensures ok ==> d.count == old(d.count) + n && d.Contents()[..old(d.count)] == old(d.Contents())
    ensures first ==> Step(HeapTerms(gen.target), old(d.Spent()), Edit.Push(n), d.Spent())
  {
    hide Room, Rdyn.Suits, Rdyn.SuitBoth, Laid, Live, Span, WellFormed, Refuses, OthersKept, NewOrSame, Elements;
    var a, b := Rdyn.Answers(Rdyn.Refused, Rdyn.Refused), Rdyn.Answers(Rdyn.Refused, Rdyn.Refused);
    var g: Option<nat> := None;
    first := true;
    var wanted, enough := Wanted(d.count + n), d.count + n;
    Untouched(gen.Heap(), block);
    RefusedSuits<T>(d.elemSize, wanted);
    RefusedSuits<T>(d.elemSize, enough);
    if d.Asks(Edit.Push(n)) {
      g, a := Ask(gen, block, d.elemSize, wanted);
      if g.None? {
        first := false;
        g, b := Ask(gen, block, d.elemSize, enough);
      }
    }
    var at := d.Push(n, a, b);
    block' := if g.Some? then g else block;
    ok := at.Some? || n == 0;
  }

  lemma {:induction false} Untouched(heap: map<nat, seq<nat>>, block: Option<nat>)
    ensures OthersKept(heap, heap, block) && NewOrSame(heap, block, block)
  {
  }

  lemma {:induction false} RefusedSuits<T>(elemSize: nat, cap: nat)
    requires elemSize > 0
    ensures Rdyn.SuitBoth(Rdyn.Answers<T>.Answers(Rdyn.Refused, Rdyn.Refused), elemSize, cap)
  {
  }

  /** rdyn_pop on the heap. */
  method PopOn<T(0)>(gen: RalcGen.RalcGen, d: Rdyn.Rdyn<T>, block: Option<nat>, n: nat) returns (block': Option<nat>)
    requires DynOn(gen, d, block) && n <= d.count
    modifies gen, gen.buf, d`buf, d`count, d`cap, d`relocated, d`held, d.buf
    ensures DynOn(gen, d, block') && (d.buf == null || d.buf == old(d.buf) || fresh(d.buf))
    ensures OthersKept(old(gen.Heap()), gen.Heap(), block) && NewOrSame(old(gen.Heap()), block, block')
    ensures block'.None? && block.Some? ==> gen.Heap() == old(gen.Heap()) - {block.value}
    ensures d.count == old(d.count) - n && d.Contents() == old(d.Contents())[..d.count]
    ensures Step(HeapTerms(gen.target), old(d.Spent()), Edit.Pop(n), d.Spent())
  {
    hide Room, Rdyn.Suits, Rdyn.SuitBoth, Laid, Live, Span, WellFormed, Refuses, OthersKept, NewOrSame, Elements;
    var a := Rdyn.Answers(Rdyn.Refused, Rdyn.Refused);
    var wanted := ShrunkCap(d.count - n);
    block' := block;
    Untouched(gen.Heap(), block);
    RefusedSuits<T>(d.elemSize, wanted);
    if d.Asks(Edit.Pop(n)) && block.Some? {
      var g;
      g, a := Ask(gen, block, d.elemSize, wanted);
      block' := if g.Some? then g else block;
    } else if block.Some? && d.allowShrink && n == d.count {
      FreedAlone(gen.Heap(), block.value);
      gen.Free(block.value);
      block' := None;
    }
    d.Pop(n, a);
  }

  lemma {:induction false} FreedAlone(heap: map<nat, seq<nat>>, p: nat)
    ensures OthersKept(heap, heap - {p}, Some(p)) && NewOrSame(heap, Some(p), None)
  {
  }

  /** One edit of a run; `first` says that its first request was not needed, or met. */
  method EditOn<T(0)>(gen: RalcGen.RalcGen, d: Rdyn.Rdyn<T>, block: Option<nat>, edit: Edit)
    returns (block': Option<nat>, first: bool)
    requires DynOn(gen, d, block) && (edit.Pop? ==> edit.n <= d.count)
    modifies gen, gen.buf, d`buf, d`count, d`cap, d`relocated, d`held, d.buf
    ensures DynOn(gen, d, block') && (d.buf == null || d.buf == old(d.buf) || fresh(d.buf))
    ensures OthersKept(old(gen.Heap()), gen.Heap(), block) && NewOrSame(old(gen.Heap()), block, block')
    ensures !first ==>
              && edit.Push? && old(d.count) + edit.n > old(d.cap)
              && Refuses(gen.target, gen.cap, old(gen.blocks), block, d.elemSize, Wanted(old(d.count) + edit.n))
    ensures first ==> Step(HeapTerms(gen.target), old(d.Spent()), edit, d.Spent())
  {
    hide Step, Laid, Live, Span, WellFormed, Refuses, OthersKept, NewOrSame, HeapTerms, Elements, Wanted;
    first := true;
    match edit {
      case Push(n) =>
        var ok;
        block', ok, first := PushOn(gen, d, block, n);
      case Pop(n) =>
        block' := PopOn(gen, d, block, n);
    }
  }

  /** A run of pushes and pops on a new array on any heap, up to the first push whose first request the
      heap refuses. The edits made by then meet the bound, other payloads are kept, and `c` is what
      they cost. */
  method RunOn<T(0)>(gen: RalcGen.RalcGen, elemSize: nat, allowShrink: bool, edits: seq<Edit>)
    returns (d: Rdyn.Rdyn<T>, block: Option<nat>, done: nat,
             ghost c: Cost, ghost refusing: Option<(seq<Block>, Option<nat>)>)
    requires gen.Valid() && elemSize > 0 && Legal(edits)
    modifies gen, gen.buf
    ensures DynOn(gen, d, block) && OthersKept(old(gen.Heap()), gen.Heap(), None)
    ensures done <= |edits| && Run(HeapTerms(gen.target), edits[..done], c)
    ensures 2 * c.relocated <= 12 * Pushed(edits[..done]) + 4 * Popped(edits[..done]) + 3 * Slack(gen.target) * done
    ensures done == |edits| ==> d.Spent() == c && d.count == Pushed(edits) - Popped(edits)
    ensures done < |edits| ==>
              && edits[done].Push? && c.count + edits[done].n > c.cap
              && refusing.Some?
              && var (bs, held) := refusing.value;
                 Refuses(gen.target, gen.cap, bs, held, elemSize, Wanted(c.count + edits[done].n))
  {
    hide Step, Run, Laid, Live, Span, WellFormed, Refuses, OthersKept, NewOrSame, Slack, HeapTerms, Elements;
    ghost var heap0 := gen.Heap();
    d := new Rdyn.Rdyn<T>(elemSize);
    d.allowShrink := allowShrink;
    block, done, c, refusing := None, 0, d.Spent(), None;
    NothingRun(HeapTerms(gen.target));
    Untouched(heap0, None);
    while done < |edits|
      invariant DynOn(gen, d, block) && fresh(d) && fresh(d.held) && done <= |edits|
      invariant OthersKept(heap0, gen.Heap(), None) && (block.Some? ==> block.value !in heap0)
      invariant Run(HeapTerms(gen.target), edits[..done], c) && d.Spent() == c && d.elemSize == elemSize
    {
      EditIsLegal(HeapTerms(gen.target), edits, done, c);
      ghost var heap, before, bs := gen.Heap(), block, gen.blocks;
      var first;
      block, first := EditOn(gen, d, block, edits[done]);
      KeptOn(heap0, heap, gen.Heap(), before, block);
      if !first {
        refusing := Some((bs, before));
        break;
      }
      RunStep(HeapTerms(gen.target), edits[..done], c, edits[done], d.Spent());
      done, c := done + 1, d.Spent();
    }
    assert edits[..|edits|] == edits;
    HeapRun(gen.target, edits[..done], c);
  }

  lemma {:induction false} HeapRun(t: Target, edits: seq<Edit>, c: Cost)
    requires Run(HeapTerms(t), edits, c)
    ensures 2 * c.relocated <= 12 * Pushed(edits) + 4 * Popped(edits) + 3 * Slack(t) * |edits|
    ensures c.count == Pushed(edits) - Popped(edits)
  {
    AmortisedWithin(0, 1, Slack(t), edits, c);
    RunCount(HeapTerms(t), edits, c);
    hide Run, Pushed, Popped, Slack;
    NothingOnTop(c.relocated, Pushed(edits), Popped(edits), Slack(t), |edits|);
  }

  /** The bound where p is 0 and q is 1. */
  lemma {:induction false} NothingOnTop(x: nat, y: nat, z: nat, s: nat, n: nat)
    requires 2 * (1 - 2 * 0) * x <= 12 * (1 - 0) * y + 4 * (1 + 0) * z + 3 * (1 * s) * n
    ensures 2 * x <= 12 * y + 4 * z + 3 * s * n
  {
  }

  lemma {:induction false} KeptOn(heap0: map<nat, seq<nat>>, heap: map<nat, seq<nat>>, heap': map<nat, seq<nat>>,
                                  block: Option<nat>, block': Option<nat>)
    requires OthersKept(heap0, heap, None) && (block.Some? ==> block.value !in heap0)
    requires OthersKept(heap, heap', block) && NewOrSame(heap, block, block')
    ensures OthersKept(heap0, heap', None) && (block'.Some? ==> block'.value !in heap0)
  {
  }
}
