/** rat/src/rat_ralcArena.c: a chunked bump allocator with mark and rewind. Chunks are blocks of a
    parent allocator, kept in a map from address to header; 0 is NULL. What the parent answers is
    passed in. */
module RalcArena {
  import opened Alignment
  import opened Options
  import opened Pointers
  import opened Usage

  datatype Chunk = Chunk(next: Ptr, cap: nat, size: nat)

  /** An object: `size` bytes at `offset` in the payload of a chunk. */
  datatype Object = Object(chunk: Ptr, offset: nat, size: nat)

  // ---- The stack of chunks as a sequence, top last ------------------------------------------------

  /** A chunk as the outside sees it. */
  datatype Level = Level(chunk: Ptr, cap: nat, size: nat)

  ghost function Total(st: seq<Level>): nat {
    if st == [] then 0 else Total(st[..|st| - 1]) + st[|st| - 1].size
  }

  /** Every chunk holds something, and no more than its capacity. */
  ghost predicate Sound(st: seq<Level>) {
    forall i :: 0 <= i < |st| ==> 0 < st[i].size <= st[i].cap
  }

  /** Popping `n` bytes off the top. */
  ghost function Rewound(st: seq<Level>, n: nat): seq<Level>
    decreases |st|
  {
    if n == 0 || st == [] then st
    else
      var k := |st| - 1;
      if st[k].size > n then st[..k] + [st[k].(size := st[k].size - n)] else Rewound(st[..k], n - st[k].size)
  }

  /** `st` has grown from `base`: at most the top chunk of `base` holds more, the rest lies above. */
  ghost predicate Extends(base: seq<Level>, st: seq<Level>) {
    && |base| <= |st|
    && (forall i :: 0 <= i < |base| - 1 ==> st[i] == base[i])
    && (|base| > 0 ==>
          var k := |base| - 1;
          st[k].chunk == base[k].chunk && st[k].cap == base[k].cap && st[k].size >= base[k].size)
  }

  /** The top chunk has room for `size` more bytes. */
  ghost predicate Fits(st: seq<Level>, size: nat) {
    |st| > 0 && st[|st| - 1].cap - st[|st| - 1].size >= size
  }

  /** The stack after a push of `size` aligned bytes, given the parent's answer. */
  ghost function Pushed(st: seq<Level>, size: nat, header: nat, a: Answer): seq<Level> {
    var k := |st| - 1;
    if Fits(st, size) then st[..k] + [st[k].(size := st[k].size + size)]
    else if a.Granted? && a.size >= header + size then st + [Level(a.ptr, a.size - header, size)]
    else st
  }

  // ---- Rewinding restores ------------------------------------------------------------------------

  lemma {:induction false} TotalNone()
    ensures Total([]) == 0
  {
  }

  lemma {:induction false} TotalSnoc(st: seq<Level>, l: Level)
    ensures Total(st + [l]) == Total(st) + l.size
  {
    assert (st + [l])[..|st|] == st;
  }

  lemma {:induction false} ExtendsTotal(base: seq<Level>, st: seq<Level>)
    requires Extends(base, st)
    ensures Total(base) <= Total(st)
    decreases |st|
  {
    var k := |st| - 1;
    if |st| > |base| {
      ExtendsTotal(base, st[..k]);
    } else if k >= 0 {
      assert base[..k] == st[..k];
    }
  }

  /** Rewinding to the mark of a stack that has since only grown brings back that very stack. */
  lemma {:induction false} RewindRestores(base: seq<Level>, st: seq<Level>)
    requires Extends(base, st) && Sound(base) && Sound(st)
    ensures Total(base) <= Total(st) && Rewound(st, Total(st) - Total(base)) == base
    decreases |st|
  {
    ExtendsTotal(base, st);
    var k := |st| - 1;
    if |st| > |base| {
      ExtendsTotal(base, st[..k]);
      RewindRestores(base, st[..k]);
    } else if k >= 0 {
      assert base[..k] == st[..k];
      assert base == base[..k] + [base[k]];
    }
  }

  /** Rewinding to any later mark keeps what the mark of `base` stands for. */
  lemma {:induction false} RewindExtends(base: seq<Level>, st: seq<Level>, n: nat)
    requires Extends(base, st) && Sound(base) && Sound(st) && Total(base) + n <= Total(st)
    ensures Extends(base, Rewound(st, n)) && Sound(Rewound(st, n))
    ensures Total(Rewound(st, n)) == Total(st) - n
    decreases |st|
  {
    TotalNone();
    hide Total, Extends;
    if n > 0 && st != [] {
      var k := |st| - 1;
      assert st == st[..k] + [st[k]];
      TotalSnoc(st[..k], st[k]);
      ExtendsPart(base, st);
      if st[k].size > n {
        TotalSnoc(st[..k], st[k].(size := st[k].size - n));
        ShrinkExtends(base, st, n);
      } else {
        RewindExtends(base, st[..k], n - st[k].size);
      }
    }
  }

  /** Either the top chunk lies above `base`, or it is the top chunk of `base` with no less in it. */
  lemma {:induction false} ExtendsPart(base: seq<Level>, st: seq<Level>)
    requires Extends(base, st) && |st| > 0
    ensures var k := |st| - 1;
            if |base| < |st| then Extends(base, st[..k])
            else base[..k] == st[..k] && Total(base) == Total(st[..k]) + base[k].size
  {
    var k := |st| - 1;
    if |base| == |st| {
      assert base[..k] == st[..k];
    }
  }

  lemma {:induction false} ShrinkExtends(base: seq<Level>, st: seq<Level>, n: nat)
    requires Extends(base, st) && |st| > 0 && st[|st| - 1].size > n
    requires |base| == |st| ==> base[|st| - 1].size + n <= st[|st| - 1].size
    ensures var k := |st| - 1; Extends(base, st[..k] + [st[k].(size := st[k].size - n)])
  {
  }

  /** One turn of the loop of rewind. */
  lemma {:induction false} RewindStep(st: seq<Level>, n: nat)
    requires 0 < n <= Total(st)
    ensures var k := |st| - 1;
            && k >= 0
            && (st[k].size > n ==>
                  var st' := st[..k] + [st[k].(size := st[k].size - n)];
                  Rewound(st, n) == st' == Rewound(st', 0))
            && (st[k].size <= n ==>
                  Rewound(st, n) == Rewound(st[..k], n - st[k].size) && Total(st[..k]) >= n - st[k].size)
  {
  }

  lemma {:induction false} RewindNothing(st: seq<Level>)
    ensures Rewound(st, 0) == st
  {
  }

  lemma {:induction false} ExtendsNothing(st: seq<Level>)
    ensures Extends([], st) && Sound([]) && Total([]) == 0
  {
  }

  lemma {:induction false} PushExtends(base: seq<Level>, st: seq<Level>, size: nat, header: nat, a: Answer)
    requires Extends(base, st) && Sound(st) && size > 0
    ensures Extends(base, Pushed(st, size, header, a)) && Sound(Pushed(st, size, header, a))
  {
  }

  lemma {:induction false} PushSound(st: seq<Level>, size: nat, header: nat, a: Answer)
    requires Sound(st) && size > 0
    ensures var st' := Pushed(st, size, header, a);
            Sound(st') && Total(st') == if st' == st then Total(st) else Total(st) + size
  {
    hide Total;
    var k := |st| - 1;
    if k >= 0 {
      assert st == st[..k] + [st[k]];
      TotalSnoc(st[..k], st[k]);
      TotalSnoc(st[..k], st[k].(size := st[k].size + size));
    }
    if a.Granted? && a.size >= header + size {
      TotalSnoc(st, Level(a.ptr, a.size - header, size));
    }
  }

  // ---- Blocks and objects ----------------------------------------------------------------------------

  /** The blocks of different chunks, headers included, do not overlap. */
  ghost predicate Spread(header: nat, st: seq<Level>) {
    forall i, j :: 0 <= i < j < |st| ==> Disjoint(st[i].chunk, header + st[i].cap, st[j].chunk, header + st[j].cap)
  }

  /** A granted block overlaps none of the chunks there are. */
  ghost predicate Outside(header: nat, st: seq<Level>, a: Answer) {
    a.Granted? ==> forall i :: 0 <= i < |st| ==> Disjoint(st[i].chunk, header + st[i].cap, a.ptr, a.size)
  }

  lemma {:induction false} PushSpread(st: seq<Level>, size: nat, header: nat, a: Answer)
    requires Spread(header, st) && Outside(header, st, a)
    ensures Spread(header, Pushed(st, size, header, a))
  {
  }

  lemma {:induction false} RewindSpread(header: nat, st: seq<Level>, n: nat)
    requires Spread(header, st)
    ensures Spread(header, Rewound(st, n))
    decreases |st|
  {
    if n > 0 && st != [] && st[|st| - 1].size <= n {
      RewindSpread(header, st[..|st| - 1], n - st[|st| - 1].size);
    }
  }

  /** Object `o` ends where the used part of the top chunk ends. */
  ghost predicate AtTop(st: seq<Level>, o: Object) {
    |st| > 0 && var top := st[|st| - 1]; o.chunk == top.chunk && o.offset + o.size == top.size <= top.cap
  }

  /** Where an object stands. */
  function Address(header: nat, o: Object): Ptr {
    o.chunk + header + o.offset
  }

  /** Object `o` lies in the part of its chunk that is in use. */
  ghost predicate Holds(st: seq<Level>, o: Object) {
    exists i :: 0 <= i < |st| && HeldBy(st[i], o)
  }

  ghost predicate HeldBy(l: Level, o: Object) {
    l.chunk == o.chunk && o.offset + o.size <= l.size
  }

  /** A successful push keeps the objects there were, and the bytes of the new one are none of theirs. */
  lemma {:induction false} PushedIsApart(st: seq<Level>, size: nat, header: nat, a: Answer, pushed: Object, o: Object)
    requires size > 0 && Sound(st) && Spread(header, st) && Outside(header, st, a)
    requires Holds(st, o) && Pushed(st, size, header, a) != st
    requires AtTop(Pushed(st, size, header, a), pushed) && pushed.size == size
    ensures Holds(Pushed(st, size, header, a), o) && Holds(Pushed(st, size, header, a), pushed)
    ensures Disjoint(Address(header, o), o.size, Address(header, pushed), pushed.size)
  {
    var st' := Pushed(st, size, header, a);
    var i :| 0 <= i < |st| && HeldBy(st[i], o);
    assert HeldBy(st'[i], o) && HeldBy(st'[|st'| - 1], pushed);
  }

  // ---- Alignment -----------------------------------------------------------------------------------

  /** Chunks start at multiples of `a`, and multiples of `a` are in use. */
  ghost predicate AlignedStack(a: nat, st: seq<Level>)
    requires a > 0
  {
    forall i :: 0 <= i < |st| ==> Multiple(a, st[i].chunk) && Multiple(a, st[i].size)
  }

  /** So the marks are multiples of `a`. */
  lemma {:induction false} TotalAligned(a: nat, st: seq<Level>)
    requires a > 0 && AlignedStack(a, st)
    ensures Multiple(a, Total(st))
  {
    if st != [] {
      TotalAligned(a, st[..|st| - 1]);
      MultipleSum(a, Total(st[..|st| - 1]), st[|st| - 1].size);
    }
  }

  lemma {:induction false} PushAligned(a: nat, st: seq<Level>, size: nat, header: nat, answer: Answer)
    requires a > 0 && AlignedStack(a, st) && Multiple(a, size) && (answer.Granted? ==> Multiple(a, answer.ptr))
    ensures AlignedStack(a, Pushed(st, size, header, answer))
  {
    if st != [] {
      MultipleSum(a, st[|st| - 1].size, size);
    }
  }

  lemma {:induction false} RewindAligned(a: nat, st: seq<Level>, n: nat)
    requires a > 0 && AlignedStack(a, st) && Multiple(a, n)
    ensures AlignedStack(a, Rewound(st, n))
    decreases |st|
  {
    var k := |st| - 1;
    if n > 0 && k >= 0 {
      if st[k].size > n {
        MultipleSum(a, n, st[k].size - n);
      } else {
        MultipleSum(a, st[k].size, n - st[k].size);
        RewindAligned(a, st[..k], n - st[k].size);
      }
    }
  }

  lemma {:induction false} RewoundAligned(a: nat, st: seq<Level>, mark: nat)
    requires a > 0 && mark <= Total(st)
    ensures AlignedStack(a, st) && Multiple(a, mark) ==> AlignedStack(a, Rewound(st, Total(st) - mark))
  {
    if AlignedStack(a, st) && Multiple(a, mark) {
      TotalAligned(a, st);
      MultipleSum(a, mark, Total(st) - mark);
      RewindAligned(a, st, Total(st) - mark);
    }
  }

  /** An object on top of an aligned stack starts at a multiple of `a`. */
  lemma {:induction false} ObjectAligned(a: nat, header: nat, st: seq<Level>, o: Object)
    requires a > 0 && AlignedStack(a, st) && AtTop(st, o) && Multiple(a, header) && Multiple(a, o.size)
    ensures Multiple(a, Address(header, o))
  {
    MultipleSum(a, o.size, o.offset);
    MultipleSum(a, o.chunk, header + o.offset);
    MultipleSum(a, header, o.offset);
  }

  // ---- Whole runs ----------------------------------------------------------------------------------

  datatype Op = Push(size: nat, answer: Answer) | Rewind(mark: nat)

  /** `after` is reached from `before` by pushes and by rewinds to marks not below `floor`. */
  ghost predicate Runs(floor: nat, header: nat, before: seq<Level>, ops: seq<Op>, after: seq<Level>)
    decreases |ops|
  {
    if ops == [] then after == before
    else
      match ops[0]
      case Push(size, a) => size > 0 && Runs(floor, header, Pushed(before, size, header, a), ops[1..], after)
      case Rewind(mark) =>
        floor <= mark <= Total(before) && Runs(floor, header, Rewound(before, Total(before) - mark), ops[1..], after)
  }

  lemma {:induction false} RunExtends(base: seq<Level>, header: nat, before: seq<Level>, ops: seq<Op>,
                                      after: seq<Level>)
    requires Extends(base, before) && Sound(base) && Sound(before) && Runs(Total(base), header, before, ops, after)
    ensures Extends(base, after) && Sound(after)
    decreases |ops|
  {
    if ops != [] {
      match ops[0] {
        case Push(size, a) =>
          PushExtends(base, before, size, header, a);
          RunExtends(base, header, Pushed(before, size, header, a), ops[1..], after);
        case Rewind(mark) =>
          RewindExtends(base, before, Total(before) - mark);
          RunExtends(base, header, Rewound(before, Total(before) - mark), ops[1..], after);
      }
    }
  }

  /** Whatever is pushed after a mark, and however inner marks are rewound to, rewinding to the mark
      restores the chunks and their sizes exactly. */
  lemma {:induction false} MarkAndRewind(base: seq<Level>, header: nat, ops: seq<Op>, after: seq<Level>)
    requires Sound(base) && Runs(Total(base), header, base, ops, after)
    ensures Total(base) <= Total(after) && Rewound(after, Total(after) - Total(base)) == base
  {
    RunExtends(base, header, base, ops, after);
    RewindRestores(base, after);
  }

  lemma {:induction false} StillAligned(a: nat, header: nat, st: seq<Level>, size: nat, answer: Answer,
                                        st': seq<Level>, o: Object)
    requires a > 0 && Multiple(a, size) && st' == Pushed(st, size, header, answer) && AtTop(st', o) && o.size == size
    ensures AlignedStack(a, st) && (answer.Granted? ==> Multiple(a, answer.ptr)) ==>
              AlignedStack(a, st') && (Multiple(a, header) ==> Multiple(a, Address(header, o)))
  {
    hide AlignedStack, AtTop;
    if AlignedStack(a, st) && (answer.Granted? ==> Multiple(a, answer.ptr)) {
      PushAligned(a, st, size, header, answer);
      if Multiple(a, header) {
        ObjectAligned(a, header, st', o);
      }
    }
  }

  /** The sizes pushed, the chunks granted and the marks rewound to are aligned. */
  ghost predicate AlignedOp(a: nat, op: Op)
    requires a > 0
  {
    match op
    case Push(size, answer) => Multiple(a, size) && (answer.Granted? ==> Multiple(a, answer.ptr))
    case Rewind(mark) => Multiple(a, mark)
  }

  /** A run on such operands keeps the stack aligned. */
  lemma {:induction false} RunAligned(a: nat, floor: nat, header: nat, before: seq<Level>, ops: seq<Op>,
                                      after: seq<Level>)
    requires a > 0 && AlignedStack(a, before) && Runs(floor, header, before, ops, after)
    requires forall i :: 0 <= i < |ops| ==> AlignedOp(a, ops[i])
    ensures AlignedStack(a, after)
    decreases |ops|
  {
    hide AlignedStack;
    if ops != [] {
      assert AlignedOp(a, ops[0]);
      match ops[0] {
        case Push(size, answer) =>
          PushAligned(a, before, size, header, answer);
          RunAligned(a, floor, header, Pushed(before, size, header, answer), ops[1..], after);
        case Rewind(mark) =>
          RewoundAligned(a, before, mark);
          RunAligned(a, floor, header, Rewound(before, Total(before) - mark), ops[1..], after);
      }
    }
  }

  // ---- The code ------------------------------------------------------------------------------------

  /** The chunks of `stack` are linked from the top, `head`, down, and are all the memory there is. */
  ghost predicate Stacked(mem: map<Ptr, Chunk>, head: Ptr, stack: seq<Ptr>) {
    && NoDup(stack)
    && (forall p :: p in mem <==> p in stack)
    && NULL !in mem
    && head == Below(stack, |stack|)
    && (forall i :: 0 <= i < |stack| ==> LinkDown(mem, stack, i))
  }

  ghost predicate LinkDown(mem: map<Ptr, Chunk>, stack: seq<Ptr>, i: nat)
    requires i < |stack|
  {
    stack[i] in mem && mem[stack[i]].next == Below(stack, i)
  }

  /** The chunk below position `i`. */
  function Below(stack: seq<Ptr>, i: int): Ptr {
    if 0 < i <= |stack| then stack[i - 1] else NULL
  }

  ghost function LevelOf(mem: map<Ptr, Chunk>, p: Ptr): Level {
    if p in mem then Level(p, mem[p].cap, mem[p].size) else Level(p, 0, 0)
  }

  ghost function View(mem: map<Ptr, Chunk>, stack: seq<Ptr>): (st: seq<Level>)
    ensures |st| == |stack|
    ensures forall i :: 0 <= i < |st| ==> st[i] == LevelOf(mem, stack[i])
  {
    seq(|stack|, i requires 0 <= i < |stack| => LevelOf(mem, stack[i]))
  }

  lemma {:induction false} TopOf(mem: map<Ptr, Chunk>, head: Ptr, stack: seq<Ptr>)
    requires Stacked(mem, head, stack)
    ensures head != NULL <==> |stack| > 0
    ensures |stack| > 0 ==>
              var k := |stack| - 1;
              && head in mem && head == stack[k] && head !in stack[..k]
              && stack == stack[..k] + [head]
              && mem[head].next == Below(stack[..k], k)
              && View(mem, stack)[k] == Level(head, mem[head].cap, mem[head].size)
    ensures View(mem, stack) == [] <==> stack == []
  {
    if |stack| > 0 {
      assert LinkDown(mem, stack, |stack| - 1);
    }
  }

  /** Changing the size of the top chunk. */
  lemma {:induction false} SetTop(mem: map<Ptr, Chunk>, head: Ptr, stack: seq<Ptr>, size: nat)
    requires Stacked(mem, head, stack) && |stack| > 0
    ensures head in mem
    ensures var mem' := mem[head := mem[head].(size := size)];
            var st, k := View(mem, stack), |stack| - 1;
            && Stacked(mem', head, stack)
            && View(mem', stack) == st[..k] + [st[k].(size := size)]
  {
    TopOf(mem, head, stack);
    hide View;
    var mem' := mem[head := mem[head].(size := size)];
    var rest := stack[..|stack| - 1];
    forall i | 0 <= i < |stack|
      ensures LinkDown(mem', stack, i)
    {
      assert LinkDown(mem, stack, i);
    }
    SameView(mem, mem', rest);
    assert View(mem, stack)[..|rest|] == View(mem, rest);
    assert View(mem', stack) == View(mem', rest) + [LevelOf(mem', head)];
  }

  lemma {:induction false} PopMembers(mem: map<Ptr, Chunk>, mem': map<Ptr, Chunk>, rest: seq<Ptr>, head: Ptr)
    requires forall p :: p in mem <==> p in rest + [head]
    requires head !in rest && mem' == mem - {head}
    ensures forall p :: p in mem' <==> p in rest
    ensures forall p :: p in rest ==> p in mem && mem'[p] == mem[p]
  {
    assert forall p :: p in rest + [head] <==> p in rest || p == head;
  }

  /** Popping the top chunk. */
  lemma {:induction false} PopTop(mem: map<Ptr, Chunk>, head: Ptr, stack: seq<Ptr>)
    requires Stacked(mem, head, stack) && |stack| > 0
    ensures head in mem
    ensures var k := |stack| - 1;
            && Stacked(mem - {head}, mem[head].next, stack[..k])
            && View(mem - {head}, stack[..k]) == View(mem, stack)[..k]
  {
    TopOf(mem, head, stack);
    hide View, LevelOf;
    var rest, mem' := stack[..|stack| - 1], mem - {head};
    PopMembers(mem, mem', rest, head);
    PopLinks(mem, mem', stack, rest);
    SameView(mem, mem', rest);
    hide LinkDown, LevelOf;
    assert View(mem, stack)[..|rest|] == View(mem, rest);
  }

  lemma {:induction false} PopLinks(mem: map<Ptr, Chunk>, mem': map<Ptr, Chunk>, stack: seq<Ptr>, rest: seq<Ptr>)
    requires |stack| > 0 && rest == stack[..|stack| - 1]
    requires forall i :: 0 <= i < |stack| ==> LinkDown(mem, stack, i)
    requires forall p :: p in rest ==> p in mem && p in mem' && mem'[p] == mem[p]
    ensures forall i :: 0 <= i < |rest| ==> LinkDown(mem', rest, i)
  {
    forall i | 0 <= i < |rest|
      ensures LinkDown(mem', rest, i)
    {
      assert LinkDown(mem, stack, i) && rest[i] in rest;
    }
  }

  /** Pushing a new chunk. */
  lemma {:induction false} PushTop(mem: map<Ptr, Chunk>, head: Ptr, stack: seq<Ptr>, p: Ptr, c: Chunk)
    requires Stacked(mem, head, stack) && p != NULL && p !in mem && c.next == head
    ensures Stacked(mem[p := c], p, stack + [p])
    ensures View(mem[p := c], stack + [p]) == View(mem, stack) + [Level(p, c.cap, c.size)]
  {
    hide View;
    var stack', mem' := stack + [p], mem[p := c];
    assert forall q :: q in stack' <==> q in stack || q == p;
    forall i | 0 <= i < |stack'|
      ensures LinkDown(mem', stack', i)
    {
      if i < |stack| {
        assert LinkDown(mem, stack, i) && stack[i] in stack;
      }
    }
    PushDistinct(stack, p);
    SameView(mem, mem', stack);
    assert View(mem', stack') == View(mem', stack) + [LevelOf(mem', p)];
  }

  lemma {:induction false} PushDistinct(stack: seq<Ptr>, p: Ptr)
    requires NoDup(stack) && p !in stack
    ensures NoDup(stack + [p])
  {
    assert forall i :: 0 <= i < |stack| ==> stack[i] in stack;
  }

  lemma {:induction false} SameView(mem: map<Ptr, Chunk>, mem': map<Ptr, Chunk>, s: seq<Ptr>)
    requires forall p :: p in s ==> p in mem && p in mem' && mem'[p] == mem[p]
    ensures View(mem', s) == View(mem, s)
  {
    assert forall i :: 0 <= i < |s| ==> s[i] in s;
  }

  /** `freed` are the chunks that `before` has above `after`, from the top down. */
  ghost predicate Popped(before: seq<Ptr>, after: seq<Ptr>, freed: seq<Ptr>) {
    && |before| == |after| + |freed| && after == before[..|after|]
    && forall k :: 0 <= k < |freed| ==> freed[k] == before[|before| - 1 - k]
  }

  lemma {:induction false} PoppedNone(before: seq<Ptr>)
    ensures Popped(before, before, [])
  {
  }

  lemma {:induction false} PoppedOne(before: seq<Ptr>, after: seq<Ptr>, freed: seq<Ptr>)
    requires Popped(before, after, freed) && |after| > 0
    ensures Popped(before, after[..|after| - 1], freed + [after[|after| - 1]])
  {
  }

  class RalcArena {
    const alignment: nat
    /** HEADER_SIZE */
    const header: nat
    var mem: map<Ptr, Chunk>
    var chunks: Ptr
    var chunkCap: nat
    var size: nat
    ghost var stack: seq<Ptr>

    ghost predicate Valid()
      reads this
    {
      && alignment > 0
      && Stacked(mem, chunks, stack)
      && Sound(View(mem, stack)) && Spread(header, View(mem, stack))
      && size == Total(View(mem, stack))
    }

    ghost function Levels(): seq<Level>
      requires Valid()
      reads this
    {
      View(mem, stack)
    }

    /** ralcArena_init; `header` is the aligned size of a chunk header. */
    constructor (alignment: nat, header: nat, initChunkCap: nat)
      requires alignment > 0
      ensures Valid() && mem == map[] && Levels() == []
      ensures this.alignment == alignment && this.header == header && chunkCap == initChunkCap
    {
      this.alignment, this.header := alignment, header;
      mem, chunks, chunkCap, size, stack := map[], NULL, initChunkCap, 0, [];
    }

    /** ralcArena_chunkAllocSize */
    function ChunkAllocSize(cap: nat): nat {
      header + cap
    }

    /** What a push of `aligned` bytes asks the parent for when the top chunk is full. */
    function Request(aligned: nat): nat
      reads this
    {
      if chunkCap > aligned then ChunkAllocSize(chunkCap) else ChunkAllocSize(aligned * 2)
    }

    /** The test of ralcArena_push on the top chunk. */
    method HasRoom(aligned: nat) returns (ok: bool)
      requires Valid()
      ensures ok <==> Fits(Levels(), aligned)
    {
      hide Stacked, View;
      TopOf(mem, chunks, stack);
      ok := chunks != NULL && mem[chunks].cap - mem[chunks].size >= aligned;
    }

    /** What the parent may answer to a push of `aligned` bytes. */
    ghost predicate Suits(aligned: nat, answer: Answer)
      requires Valid()
      reads this
    {
      && Outside(header, Levels(), answer)
      && (answer.Granted? ==> answer.ptr != NULL && answer.ptr !in mem && answer.size >= Request(aligned))
    }

    /** The bytes a push of `request` bytes takes: the least multiple of the alignment that holds them,
        and one byte at least. */
    function Aligned(request: nat): (size: nat)
      requires alignment > 0
      ensures Multiple(alignment, size) && request <= size && 0 < size
      ensures request == 0 ==> size < 1 + alignment
      ensures request > 0 ==> size < request + alignment
    {
      AlignUpIsLeast(alignment, if request > 0 then request else 1);
      AlignUp(alignment, if request > 0 then request else 1)
    }

    /** ralcArena_push where the top chunk has room. */
    method Bump(aligned: nat) returns (o: Object)
      requires Valid() && Fits(Levels(), aligned) && aligned > 0
      modifies this`mem, this`size
      ensures Valid() && size == old(size) + aligned
      ensures Levels() == Pushed(old(Levels()), aligned, header, Refused) && AtTop(Levels(), o) && o.size == aligned
    {
      hide Stacked, View, Total, Sound, Spread;
      ghost var st := View(mem, stack);
      PushSound(st, aligned, header, Refused);
      PushSpread(st, aligned, header, Refused);
      TopOf(mem, chunks, stack);
      SetTop(mem, chunks, stack, mem[chunks].size + aligned);
      o := Object(chunks, mem[chunks].size, aligned);
      mem := mem[chunks := mem[chunks].(size := mem[chunks].size + aligned)];
      size := size + aligned;
    }

    /** ralcArena_push where a new chunk is needed. */
    method AddChunk(aligned: nat, answer: Answer) returns (o: Object)
      requires Valid() && !Fits(Levels(), aligned) && aligned > 0
      requires Suits(aligned, answer) && answer.Granted?
      modifies this`mem, this`chunks, this`size, this`stack
      ensures Valid() && size == old(size) + aligned
      ensures Levels() == Pushed(old(Levels()), aligned, header, answer) && AtTop(Levels(), o) && o.size == aligned
    {
      hide Stacked, View, Total, Sound, Spread, Outside;
      ghost var st := View(mem, stack);
      PushSound(st, aligned, header, answer);
      PushSpread(st, aligned, header, answer);
      var c := Chunk(chunks, answer.size - header, aligned);
      PushTop(mem, chunks, stack, answer.ptr, c);
      mem := mem[answer.ptr := c];
      chunks := answer.ptr;
      stack := stack + [answer.ptr];
      size := size + aligned;
      o := Object(answer.ptr, 0, aligned);
    }

    /** ralcArena_push */
    method Push(request: nat, answer: Answer) returns (r: Option<Object>)
      requires Valid() && Suits(Aligned(request), answer)
      modifies this
      ensures Valid() && chunkCap == old(chunkCap)
      ensures var aligned := Aligned(request);
              && request <= aligned && aligned > 0
              && (r.None? <==> answer.Refused? && !Fits(old(Levels()), aligned))
              && (r.None? ==> size == old(size) && Levels() == old(Levels()))
              && (r.Some? ==>
                    && size == old(size) + aligned
                    && Levels() == Pushed(old(Levels()), aligned, header, answer)
                    && AtTop(Levels(), r.value) && r.value.size == aligned)
      ensures r.Some? ==>
                && Multiple(alignment, r.value.size) && request <= r.value.size && 0 < r.value.size
                && r.value.size < (if request > 0 then request else 1) + alignment
      ensures var st, k := old(Levels()), |old(Levels())| - 1;
              var room := k >= 0 && st[k].cap - st[k].size >= Aligned(request);
              && (r.None? <==> !room && answer.Refused?)
              && (room ==> r.Some? && r.value.chunk == st[k].chunk && r.value.offset == st[k].size)
              && (!room && r.Some? ==> answer.Granted? && r.value.chunk == answer.ptr && r.value.offset == 0)
      ensures AlignedStack(alignment, old(Levels())) && (answer.Granted? ==> Multiple(alignment, answer.ptr)) ==>
                && AlignedStack(alignment, Levels())
                && (r.Some? && Multiple(alignment, header) ==> Multiple(alignment, Address(header, r.value)))
    {
      hide Stacked, View, Total, Sound, Spread, Outside, AlignedStack;
      var aligned := Aligned(request);
      AlignUpIsLeast(alignment, if request > 0 then request else 1);
      var o;
      var room := HasRoom(aligned);
      if room {
        o := Bump(aligned);
      } else if answer.Refused? {
        return None;
      } else {
        o := AddChunk(aligned, answer);
      }
      r := Some(o);
      StillAligned(alignment, header, old(Levels()), aligned, answer, Levels(), o);
    }

    /** ralcArena_mark */
    method Mark() returns (mark: nat)
      requires Valid()
      ensures mark == Total(Levels()) && (AlignedStack(alignment, Levels()) ==> Multiple(alignment, mark))
    {
      hide Stacked, Spread, Sound, Total, View, AlignedStack;
      if AlignedStack(alignment, Levels()) {
        TotalAligned(alignment, Levels());
      }
      mark := size;
    }

    /** ralcArena_rewind; `freed` are the blocks given back, in order. */
    method Rewind(mark: nat) returns (freed: seq<Ptr>)
      requires Valid() && mark <= size
      modifies this
      ensures Valid() && size == mark && chunkCap == old(chunkCap)
      ensures Popped(old(stack), stack, freed)
      ensures Levels() == Rewound(old(Levels()), old(size) - mark)
      ensures AlignedStack(alignment, old(Levels())) && Multiple(alignment, mark) ==> AlignedStack(alignment, Levels())
    {
      hide Stacked, View, Rewound, Total, Sound, Extends, Popped, Below, Spread, AlignedStack;
      ghost var st0, stack0 := View(mem, stack), stack;
      freed := [];
      PoppedNone(stack);
      var left: nat := size - mark;
      ghost var distance := left;
      ExtendsNothing(st0);
      RewindExtends([], st0, left);
      RewindSpread(header, st0, left);
      while left > 0
        invariant Stacked(mem, chunks, stack) && Total(View(mem, stack)) >= left
        invariant Rewound(View(mem, stack), left) == Rewound(st0, distance)
        invariant Popped(stack0, stack, freed)
        invariant unchanged(this`size, this`chunkCap)
        decreases |stack|, left
      {
        ghost var st := View(mem, stack);
        RewindStep(st, left);
        TopOf(mem, chunks, stack);
        if mem[chunks].size > left {
          SetTop(mem, chunks, stack, mem[chunks].size - left);
          mem := mem[chunks := mem[chunks].(size := mem[chunks].size - left)];
          left := 0;
          break;
        }
        PoppedOne(stack0, stack, freed);
        var top, held := PopChunk();
        left := left - held;
        freed := freed + [top];
      }
      RewindNothing(View(mem, stack));
      RewoundAligned(alignment, st0, mark);
      size := mark;
    }

    /** Taking the top chunk off: its header is read before it is given back. */
    method PopChunk() returns (top: Ptr, held: nat)
      requires Stacked(mem, chunks, stack) && |stack| > 0
      modifies this`mem, this`chunks, this`stack
      ensures Stacked(mem, chunks, stack) && stack == old(stack)[..|old(stack)| - 1]
      ensures top == old(stack)[|old(stack)| - 1]
      ensures View(mem, stack) == old(View(mem, stack))[..|stack|] && held == old(View(mem, stack))[|stack|].size
    {
      hide Stacked, View;
      TopOf(mem, chunks, stack);
      PopTop(mem, chunks, stack);
      top, held := chunks, mem[chunks].size;
      chunks := mem[top].next;
      mem := mem - {top};
      stack := stack[..|stack| - 1];
    }

    /** ralcArena_clear: each chunk header is read before the chunk is given back. */
    method Clear() returns (freed: seq<Ptr>)
      requires Valid()
      modifies this
      ensures Valid() && mem == map[] && Levels() == [] && size == 0
      ensures Popped(old(stack), [], freed)
    {
      hide Stacked, View, Popped;
      ghost var stack0 := stack;
      freed := [];
      PoppedNone(stack);
      while chunks != NULL
        invariant Stacked(mem, chunks, stack) && Popped(stack0, stack, freed)
        decreases |stack|
      {
        TopOf(mem, chunks, stack);
        PoppedOne(stack0, stack, freed);
        var top, held := PopChunk();
        freed := freed + [top];
      }
      NothingStacked(mem, stack);
      size := 0;
    }

    /** ralcArena_getUsage, from the parent's usage, which accounts for the chunks as blocks. */
    method GetUsage(parent: Usage) returns (u: Usage)
      requires Valid() && Footprint(header, Levels()) <= parent.blockSize
      ensures u.Total() == parent.Total()
      ensures u.blockSize == parent.blockSize - Footprint(header, Levels()) + size
      ensures u.systemSize == parent.systemSize + Headers(header, |Levels()|)
      ensures u.blockCount == parent.blockCount && u.holeCount == parent.holeCount + OpenChunks(Levels())
    {
      hide Stacked, View, Total, Sound, Footprint, Headers, OpenChunks, Spread;
      ghost var st := Levels();
      var holeSize, chunkCount, chunkHoleCount: nat := 0, 0, 0;
      var chunk := chunks;
      ghost var below := stack;
      Topmost(header, st);
      HeadersStep(header, 0);
      WalkDown(mem, chunks, stack, stack);
      while chunk != NULL
        invariant |below| <= |stack| && below == stack[..|below|] && chunk == Below(below, |below|)
        invariant chunkCount == |stack| - |below|
        invariant
          Footprint(header, st[..|below|]) + Headers(header, chunkCount) + holeSize + (size - Total(st[..|below|]))
          == Footprint(header, st)
        invariant Total(st[..|below|]) <= size && holeSize >= 0
        invariant OpenChunks(st[..|below|]) + chunkHoleCount == OpenChunks(st)
        decreases |below|
      {
        WalkDown(mem, chunks, stack, below);
        LevelStep(header, st, |below| - 1);
        HeadersStep(header, chunkCount);
        chunkCount := chunkCount + 1;
        var remaining := mem[chunk].cap - mem[chunk].size;
        chunkHoleCount := chunkHoleCount + if remaining > 0 then 1 else 0;
        holeSize := holeSize + remaining;
        chunk := mem[chunk].next;
        below := below[..|below| - 1];
      }
      WalkDown(mem, chunks, stack, below);
      EmptyLevels(header);
      var systemSize := Headers(header, chunkCount);
      u := Usage(parent.blockCount, parent.blockSize - (systemSize + holeSize), parent.holeCount + chunkHoleCount,
                 parent.holeSize + holeSize, parent.systemSize + systemSize);
    }
  }

  /** The bytes of the parent's blocks that hold the chunks. */
  ghost function Footprint(header: nat, st: seq<Level>): nat {
    if st == [] then 0 else Footprint(header, st[..|st| - 1]) + header + st[|st| - 1].cap
  }

  /** Chunks with space left. */
  ghost function OpenChunks(st: seq<Level>): nat {
    if st == [] then 0
    else OpenChunks(st[..|st| - 1]) + if st[|st| - 1].cap > st[|st| - 1].size then 1 else 0
  }

  /** The positions of chunks with space left. */
  ghost function Open(st: seq<Level>): set<nat> {
    set i: nat | i < |st| && st[i].size < st[i].cap
  }

  lemma {:induction false} OpenChunksAreCounted(st: seq<Level>)
    ensures OpenChunks(st) == |Open(st)|
  {
    if st != [] {
      var k := |st| - 1;
      OpenChunksAreCounted(st[..k]);
      if st[k].size < st[k].cap {
        assert Open(st) == Open(st[..k]) + {k};
      } else {
        assert Open(st) == Open(st[..k]);
      }
    }
  }

  /** Bytes of `n` chunk headers. */
  function Headers(header: nat, n: nat): nat {
    n * header
  }

  lemma {:induction false} HeadersStep(header: nat, n: nat)
    ensures Headers(header, 0) == 0 && Headers(header, n + 1) == Headers(header, n) + header
  {
  }

  lemma {:induction false} LevelStep(header: nat, st: seq<Level>, k: nat)
    requires Sound(st) && k < |st|
    ensures Footprint(header, st[..k + 1]) == Footprint(header, st[..k]) + header + st[k].cap
    ensures Total(st[..k + 1]) == Total(st[..k]) + st[k].size && st[k].size <= st[k].cap
    ensures OpenChunks(st[..k + 1]) == OpenChunks(st[..k]) + if st[k].cap > st[k].size then 1 else 0
  {
    assert st[..k + 1][..k] == st[..k];
  }

  lemma {:induction false} EmptyLevels(header: nat)
    ensures Footprint(header, []) == 0 && Total([]) == 0 && OpenChunks([]) == 0
  {
  }

  lemma {:induction false} Topmost(header: nat, st: seq<Level>)
    ensures st[..|st|] == st
  {
  }

  lemma {:induction false} NothingStacked(mem: map<Ptr, Chunk>, stack: seq<Ptr>)
    requires Stacked(mem, NULL, stack)
    ensures stack == [] && mem == map[] && View(mem, stack) == [] && Sound([]) && Total([]) == 0
    ensures forall header :: Spread(header, [])
    ensures Stacked(mem, NULL, stack)
  {
    TopOf(mem, NULL, stack);
  }

  /** What a walk down the stack finds below position `|below|`. */
  lemma {:induction false} WalkDown(mem: map<Ptr, Chunk>, head: Ptr, stack: seq<Ptr>, below: seq<Ptr>)
    requires Stacked(mem, head, stack) && |below| <= |stack| && below == stack[..|below|]
    ensures stack == stack[..|stack|] && head == Below(stack, |stack|)
    ensures Below(below, |below|) != NULL <==> |below| > 0
    ensures |below| > 0 ==>
              var k := |below| - 1;
              && below[k] in mem && mem[below[k]].next == Below(below[..k], k) && below[..k] == stack[..k]
              && View(mem, stack)[k] == Level(below[k], mem[below[k]].cap, mem[below[k]].size)
  {
    if |below| > 0 {
      assert LinkDown(mem, stack, |below| - 1);
    }
  }
}
