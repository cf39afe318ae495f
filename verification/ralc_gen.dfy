/** rat/src/rat_ralcGen.c: a general-purpose allocator over one caller-provided buffer, with its
    block headers stored in that buffer. */
module RalcGen {
  import opened Alignment
  import opened BlockLayout
  import opened BlockMoves
  import opened Numbers
  import opened Options
  import opened Usage

  /** `value | bit` for a `bit` of 0 or 1. */
  function OrBit(value: nat, bit: nat): nat
    requires bit <= 1
  {
    if value % 2 < bit then value + 1 else value
  }

  // ---- What the stored headers say -----------------------------------------------------------

  lemma {:induction false} SizesAreEven(t: Target, bs: seq<Block>)
    requires t.Ok() && WellFormed(t, bs)
    ensures forall i :: 0 <= i < |bs| ==> bs[i].size % 2 == 0
  {
    forall i | 0 <= i < |bs|
      ensures bs[i].size % 2 == 0
    {
      MultipleIsEven(t.alignment, bs[i].size);
    }
  }

  lemma {:induction false} SpanPositive(t: Target, bs: seq<Block>)
    requires t.word > 0
    ensures |bs| > 0 <==> Span(t, bs) > 0
  {
  }

  /** The header of block `i`, where it ends, and when that is the end of the used buffer. */
  lemma {:induction false} HeaderAt(t: Target, mem: seq<nat>, bs: seq<Block>, i: nat)
    requires t.Ok() && WellFormed(t, bs) && Laid(t, mem, 0, 0, bs) && i < |bs|
    ensures var b := Span(t, bs[..i]);
            && b + t.Header() + bs[i].size <= Span(t, bs) <= |mem|
            && mem[b] == LastSize(0, bs[..i]) + bs[i].Flag()
            && mem[b + t.word] == bs[i].size
            && Span(t, bs[..i + 1]) == b + t.Header() + bs[i].size
            && (i + 1 < |bs| <==> b + t.Header() + bs[i].size < Span(t, bs))
    ensures bs[i].size % 2 == 0 && LastSize(0, bs[..i]) % 2 == 0
  {
    SizesAreEven(t, bs);
    HeaderSpan(t, bs, i);
    LaidFits(t, mem, 0, 0, bs);
    assert bs == bs[..i] + bs[i..];
    LaidConcat(t, mem, 0, 0, bs[..i], bs[i..]);
  }

  lemma {:induction false} HeaderSpan(t: Target, bs: seq<Block>, i: nat)
    requires t.word > 0 && i < |bs|
    ensures var e := Span(t, bs[..i]) + t.Header() + bs[i].size;
            Span(t, bs[..i + 1]) == e <= Span(t, bs) && (i + 1 < |bs| <==> e < Span(t, bs))
  {
    assert bs[..i + 1] == bs[..i] + [bs[i]];
    SpanConcat(t, bs[..i], [bs[i]]);
    SpanOne(t, bs[i]);
    assert bs == bs[..i + 1] + bs[i + 1..];
    SpanConcat(t, bs[..i + 1], bs[i + 1..]);
    SpanPositive(t, bs[i + 1..]);
  }

  /** One live block: its header and its payload. */
  lemma {:induction false} OneBlock(t: Target, mem: seq<nat>, b: nat, prev: nat, size: nat)
    requires t.word > 0 && b + t.Header() + size <= |mem|
    requires mem[b] == prev && mem[b + t.word] == size
    ensures var data := b + t.Header();
            && Laid(t, mem, b, prev, [Block(size, false)])
            && Span(t, [Block(size, false)]) == t.Header() + size
            && Live(t, mem, b, [Block(size, false)]) == map[data := mem[data..data + size]]
  {
    assert [Block(size, false)][1..] == [];
  }

  lemma {:induction false} ReplaceMiddle(a: map<nat, seq<nat>>, p: map<nat, seq<nat>>, ptr: nat, v: seq<nat>,
                                         v': seq<nat>)
    requires Apart(map[ptr := v], p)
    ensures a + (map[ptr := v'] + p) == (a + (map[ptr := v] + p))[ptr := v']
  {
    assert ptr in map[ptr := v];
  }

  lemma {:induction false} MiddleWrite(t: Target, mem: seq<nat>, mem': seq<nat>, bs: seq<Block>, pre: seq<Block>,
                                       size: nat, post: seq<Block>, ptr: nat)
    requires t.word > 0 && bs == pre + ([Block(size, false)] + post) && Laid(t, mem, 0, 0, bs)
    requires ptr == Span(t, pre) + t.Header() && ptr + size <= |mem| == |mem'|
    requires Patched(mem, mem', Span(t, pre), ptr + size, size, post)
    requires mem[Span(t, pre)] == mem'[Span(t, pre)] == LastSize(0, pre)
    requires mem[Span(t, pre) + t.word] == mem'[Span(t, pre) + t.word] == size
    ensures Span(t, bs) <= |mem|
    ensures Laid(t, mem', 0, 0, bs)
    ensures Live(t, mem', 0, bs) == Live(t, mem, 0, bs)[ptr := mem'[ptr..ptr + size]]
  {
    hide Live, Laid, Span;
    var b := Span(t, pre);
    var mid := [Block(size, false)];
    OneBlock(t, mem, b, LastSize(0, pre), size);
    OneBlock(t, mem', b, LastSize(0, pre), size);
    var a, m, m', p := Splice(t, mem, mem', bs, bs, pre, mid, mid, post, b, ptr + size, size);
    ReplaceMiddle(a, p, ptr, mem[ptr..ptr + size], mem'[ptr..ptr + size]);
  }

  /** Writing inside one live payload changes that payload and nothing else. */
  lemma {:induction false} PayloadWrite(t: Target, mem: seq<nat>, mem': seq<nat>, bs: seq<Block>, i: nat)
    requires t.Ok() && WellFormed(t, bs) && Laid(t, mem, 0, 0, bs) && Span(t, bs) <= |mem|
    requires i < |bs| && !bs[i].unused && |mem'| == |mem|
    requires var ptr := PayloadAt(t, bs, i);
             forall k :: 0 <= k < |mem| && !(ptr <= k < ptr + bs[i].size) ==> mem'[k] == mem[k]
    ensures var ptr := PayloadAt(t, bs, i);
            && ptr + bs[i].size <= |mem|
            && Laid(t, mem', 0, 0, bs)
            && Live(t, mem', 0, bs) == Live(t, mem, 0, bs)[ptr := mem'[ptr..ptr + bs[i].size]]
  {
    hide Live, Laid, Span, WellFormed;
    var pre, post := bs[..i], bs[i + 1..];
    assert bs == pre + ([Block(bs[i].size, false)] + post);
    HeaderAt(t, mem, bs, i);
    StepOn(t, mem, bs, i, Span(t, pre));
    MiddleWrite(t, mem, mem', bs, pre, bs[i].size, post, PayloadAt(t, bs, i));
  }

  lemma {:induction false} LiveNone(t: Target, mem: seq<nat>, off: nat)
    requires t.word > 0 && off <= |mem|
    ensures Span(t, []) == 0 && Live(t, mem, off, []) == map[]
  {
  }

  lemma {:induction false} HoleIsAligned(t: Target, bs: seq<Block>, k: nat, need: nat)
    requires t.Ok() && WellFormed(t, bs) && k < |bs| && need <= bs[k].size && Multiple(t.alignment, need)
    ensures Multiple(t.alignment, Carve(t, bs[k].size, need)[0].size)
  {
    CarveAligned(t, bs[k].size, need);
  }

  /** What the code finds when it steps back from block `i`, whose header is at `b`. */
  lemma {:induction false} StepBack(t: Target, mem: seq<nat>, bs: seq<Block>, i: nat, b: nat)
    requires t.Ok() && WellFormed(t, bs) && Laid(t, mem, 0, 0, bs) && i < |bs| && b == Span(t, bs[..i])
    ensures b + t.Header() <= |mem|
    ensures b > 0 <==> i > 0
    ensures i > 0 ==>
              var before := Span(t, bs[..i - 1]);
              && before + t.Header() + bs[i - 1].size == b
              && mem[b] - mem[b] % 2 == bs[i - 1].size
              && mem[before] % 2 == bs[i - 1].Flag()
              && mem[before + t.word] == bs[i - 1].size
  {
    hide Laid, Span, WellFormed, Multiple;
    assert bs[..0] == [];
    SpanNone(t);
    HeaderAt(t, mem, bs, i);
    if i > 0 {
      HeaderAt(t, mem, bs, i - 1);
    }
  }

  /** What the code finds when it steps on from block `i`, whose header is at `b`. */
  lemma {:induction false} StepOn(t: Target, mem: seq<nat>, bs: seq<Block>, i: nat, b: nat)
    requires t.Ok() && WellFormed(t, bs) && Laid(t, mem, 0, 0, bs) && i < |bs| && b == Span(t, bs[..i])
    ensures var next := b + t.Header() + bs[i].size;
            && next == Span(t, bs[..i + 1]) <= Span(t, bs) <= |mem|
            && LastSize(0, bs[..i + 1]) == bs[i].size == mem[b + t.word]
            && mem[b] % 2 == bs[i].Flag()
            && (i + 1 < |bs| <==> next < Span(t, bs))
            && (i + 1 < |bs| ==>
                  && next + t.Header() + bs[i + 1].size <= Span(t, bs)
                  && mem[next] == bs[i].size + bs[i + 1].Flag()
                  && mem[next] % 2 == bs[i + 1].Flag()
                  && mem[next + t.word] == bs[i + 1].size)
  {
    hide Laid, Span, WellFormed, Multiple;
    HeaderAt(t, mem, bs, i);
    if i + 1 < |bs| {
      HeaderAt(t, mem, bs, i + 1);
    }
  }

  /** What the cells of a carved stretch must hold. */
  lemma {:induction false} CarvedLaid(t: Target, mem: seq<nat>, b: nat, prev: nat, available: nat, used: nat)
    requires t.word > 0 && used <= available && b + t.Header() + available <= |mem|
    requires var bs := Carve(t, available, used);
             && mem[b] == prev && mem[b + t.word] == bs[0].size
             && (|bs| == 2 ==>
                   var next := b + t.Header() + used;
                   mem[next] == used + 1 && mem[next + t.word] == bs[1].size)
    ensures Laid(t, mem, b, prev, Carve(t, available, used))
  {
    var bs := Carve(t, available, used);
    assert |bs| == 2 ==> bs[1..] == [bs[1]] && bs[1..][1..] == [];
    assert |bs| == 1 ==> bs[1..] == [];
  }

  /** Dropping the one live payload in the middle. */
  lemma {:induction false} DropMiddle(a: map<nat, seq<nat>>, m: map<nat, seq<nat>>, p: map<nat, seq<nat>>, ptr: nat)
    requires m.Keys == {ptr} && Apart(a, m) && Apart(m, p)
    ensures a + (map[] + p) == (a + (m + p)) - {ptr}
    ensures a == (a + m) - {ptr}
  {
    assert ptr in m;
  }

  /** A hole: its header, and nothing live. */
  lemma {:induction false} OneHole(t: Target, mem: seq<nat>, b: nat, prev: nat, size: nat)
    requires t.word > 0 && b + t.Header() + size <= |mem|
    requires mem[b] == prev + 1 && mem[b + t.word] == size
    ensures Laid(t, mem, b, prev, [Block(size, true)])
    ensures Span(t, [Block(size, true)]) == t.Header() + size
    ensures Live(t, mem, b, [Block(size, true)]) == map[]
  {
    assert [Block(size, true)][1..] == [];
  }

  lemma {:induction false} OneLiveKey(t: Target, mem: seq<nat>, b: nat, mid: seq<Block>, i: nat)
    requires t.word > 0 && b + Span(t, mid) <= |mem|
    requires i < |mid| && !mid[i].unused && (forall j :: 0 <= j < |mid| && j != i ==> mid[j].unused)
    ensures Live(t, mem, b, mid).Keys == {b + Span(t, mid[..i]) + t.Header()}
  {
    LiveKeys(t, mem, b, mid);
    OnlyLive(t, b, mid, i);
  }

  /** Turning `mid`, in which only `ptr` is live, into one hole. */
  lemma {:induction false} MiddleMerge(t: Target, mem: seq<nat>, mem': seq<nat>, bs: seq<Block>, bs': seq<Block>,
                    pre: seq<Block>, mid: seq<Block>, post: seq<Block>, hole: nat, ptr: nat)
    requires t.word > 0 && bs == pre + (mid + post) && Laid(t, mem, 0, 0, bs)
    requires bs' == pre + ([Block(hole, true)] + post)
    requires |mid| > 0 && Span(t, mid) == t.Header() + hole && Span(t, pre) + Span(t, mid) <= |mem| == |mem'|
    requires Live(t, mem, Span(t, pre), mid).Keys == {ptr}
    requires Patched(mem, mem', Span(t, pre), Span(t, pre) + Span(t, mid), hole, post)
    requires mem'[Span(t, pre)] == LastSize(0, pre) + 1 && mem'[Span(t, pre) + t.word] == hole
    ensures Span(t, bs) == Span(t, bs') <= |mem|
    ensures Laid(t, mem', 0, 0, bs')
    ensures Live(t, mem', 0, bs') == Live(t, mem, 0, bs) - {ptr}
  {
    OneHole(t, mem', Span(t, pre), LastSize(0, pre), hole);
    var a, m, m', p := Splice(t, mem, mem', bs, bs', pre, mid, [Block(hole, true)], post,
                              Span(t, pre), Span(t, pre) + Span(t, mid), hole);
    assert Apart(a, m);
    assert Apart(m, p);
    assert m == Live(t, mem, Span(t, pre), mid);
    assert m.Keys == {ptr};
    DropMiddle(a, m, p, ptr);
  }

  /** Cutting `mid`, in which only `ptr` is live, off at the end of the buffer. */
  lemma {:induction false} TailMerge(t: Target, mem: seq<nat>, bs: seq<Block>, pre: seq<Block>, mid: seq<Block>,
                                     ptr: nat)
    requires t.word > 0 && bs == pre + mid && Laid(t, mem, 0, 0, bs)
    requires Span(t, pre) + Span(t, mid) <= |mem| && Live(t, mem, Span(t, pre), mid).Keys == {ptr}
    ensures Span(t, pre) + Span(t, mid) == Span(t, bs) <= |mem|
    ensures Laid(t, mem, 0, 0, pre)
    ensures Live(t, mem, 0, pre) == Live(t, mem, 0, bs) - {ptr}
  {
    Cut(t, mem, 0, 0, pre, mid);
    DropMiddle(Live(t, mem, 0, pre), Live(t, mem, Span(t, pre), mid), map[], ptr);
  }

  /** The stretch that freeing block `i` turns into a hole, and the header behind it. */
  lemma {:induction false} MergedStretch(t: Target, mem: seq<nat>, bs: seq<Block>, i: nat)
    requires t.Ok() && WellFormed(t, bs) && Laid(t, mem, 0, 0, bs) && i + 1 < |bs| && !bs[i].unused
    ensures var lo, hi, hole := MergeStart(bs, i), Beyond(bs, i), MergedSize(t, bs, i);
            var start := Span(t, bs[..lo]);
            && hi < |bs|
            && start + t.Header() + hole < Span(t, bs) <= |mem|
            && (mem[start] == LastSize(0, bs[..lo]) || mem[start] == LastSize(0, bs[..lo]) + 1)
            && LastSize(0, bs[..lo]) % 2 == 0
            && hole % 2 == 0
            && mem[start + t.Header() + hole] % 2 == bs[hi].Flag()
  {
    BeyondInside(t, bs, i);
    hide Laid, Span, MergedSize, Multiple, WellFormed, MergeStart, Beyond, LastSize;
    var lo, hi := MergeStart(bs, i), Beyond(bs, i);
    FirstWord(t, mem, bs, lo, Span(t, bs[..lo]));
    MergedAligned(t, bs, i);
    MultipleIsEven(t.alignment, MergedSize(t, bs, i));
    MergedEnd(t, bs, i);
    FirstWord(t, mem, bs, hi, Span(t, bs[..hi]));
  }

  /** The first word of header `i`. */
  lemma {:induction false} FirstWord(t: Target, mem: seq<nat>, bs: seq<Block>, i: nat, b: nat)
    requires t.Ok() && WellFormed(t, bs) && Laid(t, mem, 0, 0, bs) && i < |bs| && b == Span(t, bs[..i])
    ensures b < Span(t, bs) <= |mem| && mem[b] % 2 == bs[i].Flag()
    ensures (mem[b] == LastSize(0, bs[..i]) || mem[b] == LastSize(0, bs[..i]) + 1) && LastSize(0, bs[..i]) % 2 == 0
  {
    hide Laid, Span, WellFormed, Multiple, LastSize;
    HeaderAt(t, mem, bs, i);
  }

  /** Where the stretch that freeing block `i` merges ends. */
  lemma {:induction false} MergedEnd(t: Target, bs: seq<Block>, i: nat)
    requires t.word > 0 && i < |bs|
    ensures Span(t, bs[..Beyond(bs, i)]) == Span(t, bs[..MergeStart(bs, i)]) + t.Header() + MergedSize(t, bs, i)
  {
    hide Span, MergedSize;
    var lo, hi := MergeStart(bs, i), Beyond(bs, i);
    assert bs[..hi] == bs[..lo] + bs[lo..hi];
    SpanConcat(t, bs[..lo], bs[lo..hi]);
    MergedSpan(t, bs, i);
  }

  lemma {:induction false} BeyondInside(t: Target, bs: seq<Block>, i: nat)
    requires t.Ok() && WellFormed(t, bs) && i + 1 < |bs|
    ensures Beyond(bs, i) < |bs|
  {
    assert bs[i + 1].unused ==> HoleEndsAt(bs, i + 2);
  }

  /** What block_merge has to leave in the buffer when it makes a hole. */
  lemma {:induction false} MergedHeap(t: Target, cap: nat, mem: seq<nat>, mem': seq<nat>, bs: seq<Block>, i: nat,
                                      start: nat, hole: nat, ptr: nat)
    requires Good(t, cap, bs) && Laid(t, mem, 0, 0, bs) && i + 1 < |bs| && !bs[i].unused
    requires start == Span(t, bs[..MergeStart(bs, i)]) && hole == MergedSize(t, bs, i) && ptr == PayloadAt(t, bs, i)
    requires start + t.Header() + hole <= |mem|
    requires Patched(mem, mem', start, start + t.Header() + hole, hole, bs[Beyond(bs, i)..])
    requires mem'[start] == LastSize(0, bs[..MergeStart(bs, i)]) + 1 && mem'[start + t.word] == hole
    ensures Good(t, cap, Coalesced(t, bs, i))
    ensures Span(t, bs) == Span(t, Coalesced(t, bs, i)) <= |mem|
    ensures Laid(t, mem', 0, 0, Coalesced(t, bs, i))
    ensures Live(t, mem', 0, Coalesced(t, bs, i)) == Live(t, mem, 0, bs) - {ptr}
  {
    hide Live, Laid, Span, WellFormed;
    var lo := MergeStart(bs, i);
    var pre, mid, post := bs[..lo], bs[lo..Beyond(bs, i)], bs[Beyond(bs, i)..];
    assert bs == pre + (mid + post);
    assert bs[..i] == pre + mid[..i - lo];
    SpanConcat(t, pre, mid[..i - lo]);
    MergedSpan(t, bs, i);
    FreedGood(t, cap, bs, i);
    OneLiveKey(t, mem, start, mid, i - lo);
    MiddleMerge(t, mem, mem', bs, Coalesced(t, bs, i), pre, mid, post, hole, ptr);
  }

  /** When the merged block ends the buffer, the headers before it are all that remains. */
  lemma {:induction false} TruncatedHeap(t: Target, cap: nat, mem: seq<nat>, bs: seq<Block>, i: nat, ptr: nat)
    requires Good(t, cap, bs) && Laid(t, mem, 0, 0, bs) && i + 1 == |bs| && !bs[i].unused
    requires ptr == PayloadAt(t, bs, i)
    ensures Good(t, cap, Coalesced(t, bs, i))
    ensures Span(t, Coalesced(t, bs, i)) + t.Header() + MergedSize(t, bs, i) == Span(t, bs) <= |mem|
    ensures Laid(t, mem, 0, 0, Coalesced(t, bs, i))
    ensures Live(t, mem, 0, Coalesced(t, bs, i)) == Live(t, mem, 0, bs) - {ptr}
  {
    hide Live, Laid, Span, WellFormed;
    var lo := MergeStart(bs, i);
    var pre, mid := bs[..lo], bs[lo..];
    assert bs == pre + mid;
    assert bs[..i] == pre + mid[..i - lo];
    SpanConcat(t, pre, mid[..i - lo]);
    assert bs[lo..Beyond(bs, i)] == mid;
    MergedSpan(t, bs, i);
    FreedGood(t, cap, bs, i);
    LaidFits(t, mem, 0, 0, bs);
    SpanConcat(t, pre, mid);
    OneLiveKey(t, mem, Span(t, pre), mid, i - lo);
    TailMerge(t, mem, bs, pre, mid, ptr);
  }

  /** Exchanging what is live in the middle, at most `ptr`, for `ptr` with new bytes. */
  lemma {:induction false} SetMiddle(a: map<nat, seq<nat>>, m: map<nat, seq<nat>>, p: map<nat, seq<nat>>, ptr: nat,
                                     v: seq<nat>)
    requires m.Keys <= {ptr} && Apart(map[ptr := v], p)
    ensures a + (map[ptr := v] + p) == (a + (m + p))[ptr := v]
    ensures a + map[ptr := v] == (a + m)[ptr := v]
  {
    assert ptr in map[ptr := v];
    assert forall k :: k in m ==> k in m.Keys;
  }

  lemma {:induction false} CarvedLive(t: Target, mem: seq<nat>, b: nat, available: nat, used: nat)
    requires t.word > 0 && used <= available && b + t.Header() + available <= |mem|
    ensures var bs := Carve(t, available, used);
            var data := b + t.Header();
            Span(t, bs) == t.Header() + available && Live(t, mem, b, bs) == map[data := mem[data..data + bs[0].size]]
  {
    var bs := Carve(t, available, used);
    var data := b + t.Header();
    var next := data + bs[0].size;
    if |bs| == 2 {
      assert bs[1..] == [bs[1]] && bs[1..][1..] == [];
      assert Span(t, bs[1..]) == t.Header() + bs[1].size;
      assert Live(t, mem, next, bs[1..]) == map[];
    } else {
      assert bs[1..] == [];
      assert Live(t, mem, next, bs[1..]) == map[];
    }
    assert Live(t, mem, b, bs) == Live(t, mem, next, bs[1..])[data := mem[data..next]];
  }

  /** `mid`, in which at most `ptr` was live, becomes `mid'`, in which just `ptr` is. */
  lemma {:induction false} MiddleSplit(t: Target, mem: seq<nat>, mem': seq<nat>, bs: seq<Block>, bs': seq<Block>,
                                       pre: seq<Block>, mid: seq<Block>, mid': seq<Block>, post: seq<Block>,
                                       b: nat, e: nat, ptr: nat, bytes: seq<nat>)
    requires t.word > 0 && Laid(t, mem, 0, 0, bs)
    requires bs == pre + (mid + post) && bs' == pre + (mid' + post)
    requires |mid| > 0 && |mid'| > 0 && b == Span(t, pre) && e == b + Span(t, mid) == b + Span(t, mid')
    requires Patched(mem, mem', b, e, LastSize(0, mid'), post)
    requires Laid(t, mem', b, LastSize(0, pre), mid')
    requires e <= |mem| == |mem'|
    requires Live(t, mem, b, mid).Keys <= {ptr} && Live(t, mem', b, mid') == map[ptr := bytes]
    ensures Span(t, bs) == Span(t, bs') <= |mem|
    ensures Laid(t, mem', 0, 0, bs')
    ensures Live(t, mem', 0, bs') == Live(t, mem, 0, bs)[ptr := bytes]
  {
    var a, m, m', p := Splice(t, mem, mem', bs, bs', pre, mid, mid', post, b, e, LastSize(0, mid'));
    SetMiddle(a, m, p, ptr, bytes);
  }

  /** What block_split has to leave in the buffer. */
  lemma {:induction false} SplitHeap(t: Target, mem: seq<nat>, mem': seq<nat>, bs: seq<Block>, bs': seq<Block>,
                                     lo: nat, hi: nat, available: nat, need: nat, b: nat)
    requires t.word > 0 && Laid(t, mem, 0, 0, bs) && lo < hi <= |bs| && need <= available
    requires bs' == bs[..lo] + (Carve(t, available, need) + bs[hi..])
    requires b == Span(t, bs[..lo]) && Span(t, bs[lo..hi]) == t.Header() + available
    requires b + t.Header() + available <= |mem| == |mem'|
    requires LiveAddrs(t, b, bs[lo..hi]) <= {b + t.Header()}
    requires Patched(mem, mem', b, b + t.Header() + available, LastSize(0, Carve(t, available, need)), bs[hi..])
    requires Laid(t, mem', b, LastSize(0, bs[..lo]), Carve(t, available, need))
    ensures Span(t, bs) == Span(t, bs') <= |mem|
    ensures Laid(t, mem', 0, 0, bs')
    ensures var ptr := b + t.Header();
            var used := Carve(t, available, need)[0].size;
            ptr + used <= |mem| && Live(t, mem', 0, bs') == Live(t, mem, 0, bs)[ptr := mem'[ptr..ptr + used]]
  {
    hide Live, LiveAddrs, Laid, Span, Patched;
    var pre, mid, post := bs[..lo], bs[lo..hi], bs[hi..];
    assert bs == pre + (mid + post);
    var ptr := b + t.Header();
    CarvedLive(t, mem', b, available, need);
    LiveKeys(t, mem, b, mid);
    var mid' := Carve(t, available, need);
    MiddleSplit(t, mem, mem', bs, bs', pre, mid, mid', post, b, ptr + available, ptr, mem'[ptr..ptr + mid'[0].size]);
  }

  /** A live block of `size` bytes becomes the last one, behind `pre`, in place of `rest`, in
      which at most its own address was live. */
  lemma {:induction false} TailWrite(t: Target, mem: seq<nat>, mem': seq<nat>, bs: seq<Block>, bs': seq<Block>,
                                     pre: seq<Block>, rest: seq<Block>, size: nat, b: nat)
    requires t.word > 0 && bs == pre + rest && Laid(t, mem, 0, 0, bs) && bs' == pre + [Block(size, false)]
    requires b == Span(t, pre) && b + t.Header() + size <= |mem| == |mem'| && b + Span(t, rest) <= |mem|
    requires Live(t, mem, b, rest).Keys <= {b + t.Header()}
    requires forall i :: 0 <= i < b ==> mem'[i] == mem[i]
    requires mem'[b] == LastSize(0, pre) && mem'[b + t.word] == size
    ensures Span(t, bs) <= |mem| && Span(t, bs') == b + t.Header() + size
    ensures Laid(t, mem', 0, 0, bs')
    ensures var ptr := b + t.Header();
            Live(t, mem', 0, bs') == Live(t, mem, 0, bs)[ptr := mem'[ptr..ptr + size]]
  {
    hide Live, Laid, Span;
    var ptr := b + t.Header();
    OneBlock(t, mem', b, LastSize(0, pre), size);
    var a := Retail(t, mem, mem', pre, rest, [Block(size, false)]);
    SetMiddle(a, Live(t, mem, b, rest), map[], ptr, mem'[ptr..ptr + size]);
  }

  /** The bytes of a live payload are the cells after its header. */
  lemma {:induction false} PayloadBytes(t: Target, mem: seq<nat>, bs: seq<Block>, i: nat, ptr: nat)
    requires t.word > 0 && Laid(t, mem, 0, 0, bs) && i < |bs| && !bs[i].unused && ptr == PayloadAt(t, bs, i)
    ensures Span(t, bs) <= |mem|
    ensures ptr in Live(t, mem, 0, bs)
    ensures ptr + bs[i].size <= |mem| && Live(t, mem, 0, bs)[ptr] == mem[ptr..ptr + bs[i].size]
  {
    hide Laid, Live, Span;
    var pre, rest := bs[..i], bs[i..];
    assert bs == pre + rest;
    Cut(t, mem, 0, 0, pre, rest);
    HeadPayload(t, mem, Span(t, pre), LastSize(0, pre), rest);
  }

  /** The payload of a live first block. */
  lemma {:induction false} HeadPayload(t: Target, mem: seq<nat>, off: nat, prev: nat, bs: seq<Block>)
    requires t.word > 0 && off + Span(t, bs) <= |mem| && |bs| > 0 && !bs[0].unused
    ensures var ptr := off + t.Header();
            && ptr + bs[0].size <= |mem|
            && ptr in Live(t, mem, off, bs) && Live(t, mem, off, bs)[ptr] == mem[ptr..ptr + bs[0].size]
  {
  }

  lemma {:induction false} HoleIsInside(t: Target, bs: seq<Block>, k: nat)
    requires t.Ok() && WellFormed(t, bs) && k < |bs| && bs[k].unused
    ensures k + 1 < |bs| && !bs[k + 1].unused
  {
    assert HoleEndsAt(bs, k + 1);
  }

  /** The stretch that live block `i` can grow over, and the header behind it. */
  lemma {:induction false} ReachedStretch(t: Target, mem: seq<nat>, bs: seq<Block>, i: nat, need: nat)
    requires t.Ok() && WellFormed(t, bs) && Laid(t, mem, 0, 0, bs) && i + 1 < |bs| && !bs[i].unused
    requires Multiple(t.alignment, need)
    ensures var b, hi, available := Span(t, bs[..i]), Beyond(bs, i), Reach(t, bs, i);
            && hi < |bs|
            && b + t.Header() + available < Span(t, bs) <= |mem|
            && (mem[b] == LastSize(0, bs[..i]) || mem[b] == LastSize(0, bs[..i]) + 1)
            && LastSize(0, bs[..i]) % 2 == available % 2 == need % 2 == 0
            && mem[b + t.Header() + available] % 2 == bs[hi].Flag()
            && Span(t, bs[i..hi]) == t.Header() + available
            && LiveAddrs(t, b, bs[i..hi]) <= {b + t.Header()}
  {
    hide Laid, Span, LiveAddrs;
    var hi := Beyond(bs, i);
    HeaderAt(t, mem, bs, i);
    ReachAligned(t, bs, i);
    MultipleIsEven(t.alignment, Reach(t, bs, i));
    MultipleIsEven(t.alignment, need);
    assert bs[i + 1].unused ==> HoleEndsAt(bs, i + 2);
    assert bs[..hi] == bs[..i] + bs[i..hi];
    SpanConcat(t, bs[..i], bs[i..hi]);
    ReachSpan(t, bs, i);
    HeaderAt(t, mem, bs, hi);
    OnlyLive(t, Span(t, bs[..i]), bs[i..hi], 0);
    SpanNone(t);
    assert bs[i..hi][..0] == [];
  }

  /** What a granted request returns: the payload address and its actual size. */
  datatype Grant = Grant(ptr: nat, size: nat)

  /** Address and size of grant `g` are aligned, and less than a header is given away on top of the
      aligned request. */
  ghost predicate Snug(t: Target, g: Grant, request: nat)
    requires t.Ok()
  {
    && Multiple(t.alignment, g.ptr) && Multiple(t.alignment, g.size)
    && g.size < AlignUp(t.alignment, request) + t.Header()
  }

  /** Live payloads start at aligned addresses and have aligned sizes. */
  lemma {:induction false} LiveAligned(t: Target, cap: nat, mem: seq<nat>, bs: seq<Block>, ptr: nat)
    requires Good(t, cap, bs) && Laid(t, mem, 0, 0, bs) && Span(t, bs) <= |mem| && ptr in Live(t, mem, 0, bs)
    ensures Multiple(t.alignment, ptr) && Multiple(t.alignment, |Live(t, mem, 0, bs)[ptr]|)
  {
    var i := BlockAt(t, cap, mem, bs, ptr);
    hide Laid, Live, Span;
    PayloadAligned(t, bs, i);
  }

  /** Grant `g` is a new live payload; all others are as they were. */
  ghost predicate Granted(before: map<nat, seq<nat>>, after: map<nat, seq<nat>>, g: Grant, need: nat) {
    && g.ptr !in before && g.ptr in after
    && need <= g.size == |after[g.ptr]|
    && after == before[g.ptr := after[g.ptr]]
  }

  /** Live payload `ptr` has become grant `g`: no other payload changed, and the bytes that fit
      were kept. */
  ghost predicate Resettled(before: map<nat, seq<nat>>, after: map<nat, seq<nat>>, ptr: nat, g: Grant, need: nat) {
    && ptr in before && g.ptr in after
    && (g.ptr == ptr || g.ptr !in before)
    && after == (before - {ptr})[g.ptr := after[g.ptr]]
    && need <= g.size == |after[g.ptr]|
    && (forall k :: 0 <= k < |before[ptr]| && k < g.size ==> after[g.ptr][k] == before[ptr][k])
  }

  /** A request to resize payload `ptr` has been met by grant `g`. */
  ghost predicate Met(t: Target, before: map<nat, seq<nat>>, after: map<nat, seq<nat>>, ptr: nat, g: Grant,
                      request: nat)
    requires t.Ok()
  {
    Snug(t, g, request) && Resettled(before, after, ptr, g, request)
  }

  lemma {:induction false} ResettledSnug(t: Target, cap: nat, mem: seq<nat>, bs: seq<Block>, before: map<nat, seq<nat>>,
                                         ptr: nat, g: Grant, need: nat)
    requires Good(t, cap, bs) && Laid(t, mem, 0, 0, bs) && Span(t, bs) <= |mem| && Multiple(t.alignment, need)
    requires Resettled(before, Live(t, mem, 0, bs), ptr, g, need) && g.size < need + t.Header()
    ensures Met(t, before, Live(t, mem, 0, bs), ptr, g, need)
  {
    hide Laid, Live, Span, WellFormed;
    LiveAligned(t, cap, mem, bs, g.ptr);
    AlignUpIsLeast(t.alignment, need);
  }

  /** What meets the aligned request meets the request. */
  lemma {:induction false} RequestMet(t: Target, before: map<nat, seq<nat>>, after: map<nat, seq<nat>>, ptr: nat,
                                      g: Grant, need: nat, request: nat)
    requires t.Ok() && need == AlignUp(t.alignment, request) && Met(t, before, after, ptr, g, need)
    ensures Met(t, before, after, ptr, g, request)
  {
    AlignUpIsLeast(t.alignment, request);
    AlignUpIsLeast(t.alignment, need);
  }

  /** The live block at `ptr` can be resized to the aligned request where it stands. */
  ghost predicate InPlace(t: Target, cap: nat, bs: seq<Block>, ptr: nat, request: nat)
    requires t.Ok()
  {
    var i := IndexAt(t, 0, bs, ptr);
    i < |bs| && FitsInPlace(t, cap, bs, i, AlignUp(t.alignment, request))
  }

  /** A grant, and then a move of the payload into it, resettle a payload that did not fit. */
  lemma {:induction false} Relocated(t: Target, before: map<nat, seq<nat>>, granted: map<nat, seq<nat>>,
                                     after: map<nat, seq<nat>>, ptr: nat, g: Grant, need: nat)
    requires t.Ok() && ptr in before && Granted(before, granted, g, need) && |before[ptr]| <= need
    requires Snug(t, g, need) && ptr in granted && Shifted(granted, after, ptr, g)
    ensures Met(t, before, after, ptr, g, need)
  {
    assert granted[ptr] == before[ptr];
    assert forall k :: 0 <= k < |before[ptr]| ==> after[g.ptr][k] == after[g.ptr][..|before[ptr]|][k];
  }

  /** Live payload `ptr` has been copied to the start of grant `g` and given back. */
  ghost predicate Shifted(before: map<nat, seq<nat>>, after: map<nat, seq<nat>>, ptr: nat, g: Grant)
    requires ptr in before
  {
    && g.ptr in after && |after[g.ptr]| == g.size >= |before[ptr]|
    && after == (before - {ptr})[g.ptr := after[g.ptr]]
    && after[g.ptr][..|before[ptr]|] == before[ptr]
  }

  /** A payload that stays where it is keeps the bytes that fit. */
  lemma {:induction false} KeptInPlace(mem: seq<nat>, mem': seq<nat>, before: map<nat, seq<nat>>,
                                       after: map<nat, seq<nat>>, ptr: nat, used: nat, need: nat)
    requires ptr in before && ptr + |before[ptr]| <= |mem| == |mem'| && before[ptr] == mem[ptr..ptr + |before[ptr]|]
    requires ptr + used <= |mem| && need <= used && after == before[ptr := mem'[ptr..ptr + used]]
    requires forall k :: ptr <= k < ptr + used ==> mem'[k] == mem[k]
    ensures Resettled(before, after, ptr, Grant(ptr, used), need)
  {
  }

  /** A live block, its header and its payload. */
  lemma {:induction false} LiveBlock(t: Target, cap: nat, mem: seq<nat>, bs: seq<Block>, i: nat, ptr: nat)
    requires Good(t, cap, bs) && Laid(t, mem, 0, 0, bs) && i < |bs| && !bs[i].unused && ptr == PayloadAt(t, bs, i)
    ensures ptr >= t.Header() && ptr - t.Header() == Span(t, bs[..i])
    ensures Span(t, bs) <= |mem| && ptr + bs[i].size <= |mem|
    ensures mem[ptr - t.Header() + t.word] == bs[i].size
    ensures ptr in Live(t, mem, 0, bs) && Live(t, mem, 0, bs)[ptr] == mem[ptr..ptr + bs[i].size]
  {
    hide Laid, Live, Span, WellFormed;
    HeaderAt(t, mem, bs, i);
    PayloadBytes(t, mem, bs, i, ptr);
  }

  /** The block that owns a live address. */
  lemma {:induction false} BlockAt(t: Target, cap: nat, mem: seq<nat>, bs: seq<Block>, ptr: nat) returns (i: nat)
    requires Good(t, cap, bs) && Laid(t, mem, 0, 0, bs) && Span(t, bs) <= |mem| && ptr in Live(t, mem, 0, bs)
    ensures i < |bs| && !bs[i].unused && ptr == PayloadAt(t, bs, i) && i == IndexAt(t, 0, bs, ptr)
    ensures bs[i].size == |Live(t, mem, 0, bs)[ptr]| && ptr + bs[i].size <= |mem|
  {
    hide Laid, Live, LiveAddrs, Span, WellFormed;
    LiveKeys(t, mem, 0, bs);
    assert ptr in Live(t, mem, 0, bs).Keys;
    PayloadOfLive(t, 0, bs, ptr);
    i := IndexAt(t, 0, bs, ptr);
    PayloadBytes(t, mem, bs, i, ptr);
  }

  lemma {:induction false} FirstBytes(mem: seq<nat>, ptr: nat, size: nat, n: nat)
    requires n <= size && ptr + size <= |mem|
    ensures mem[ptr..ptr + size][..n] == mem[ptr..ptr + n]
  {
  }

  class RalcGen {
    const target: Target
    const buf: array<nat>
    const cap: nat
    var size: nat
    ghost var blocks: seq<Block>

    /** The stored headers describe `blocks`, which are well formed and fill `buf[..size]`. */
    ghost predicate Valid()
      reads this, buf
    {
      && cap == buf.Length
      && size == Span(target, blocks)
      && Good(target, cap, blocks)
      && Laid(target, buf[..], 0, 0, blocks)
    }

    /** The live payloads by address. */
    ghost function Heap(): map<nat, seq<nat>>
      requires Valid()
      reads this, buf
    {
      Live(target, buf[..], 0, blocks)
    }

    /** ralcGen_init */
    constructor (target: Target, buf: array<nat>)
      requires target.Ok()
      ensures Valid() && this.target == target && this.buf == buf && size == 0
      ensures Heap() == map[] && blocks == []
    {
      this.target := target;
      this.buf := buf;
      cap := buf.Length;
      size := 0;
      blocks := [];
    }

    /** block_setSize */
    method BlockSetSize(b: nat, newSize: nat)
      requires target.Ok() && b + target.Header() <= buf.Length && size <= buf.Length
      modifies buf
      ensures buf[b + target.word] == newSize
      ensures var next := b + target.Header() + newSize;
              && (next < size ==> buf[next] == OrBit(newSize, old(buf[next]) % 2))
              && (forall i :: 0 <= i < buf.Length && i != b + target.word && (i == next ==> next >= size)
                    ==> buf[i] == old(buf[i]))
    {
      buf[b + target.word] := newSize;
      var next := b + target.Header() + newSize;
      if next >= size {
        return;
      }
      buf[next] := OrBit(newSize, buf[next] % 2);
    }

    /** block_setSize, and the other header word. */
    method SetHeader(b: nat, newSize: nat, prevSizeUnused: nat)
      requires target.Ok() && b + target.Header() + newSize < size <= buf.Length
      modifies buf
      ensures buf[b] == prevSizeUnused && buf[b + target.word] == newSize
      ensures var next := b + target.Header() + newSize;
              && buf[next] == OrBit(newSize, old(buf[next]) % 2)
              && (forall i :: 0 <= i < buf.Length && i != b && i != b + target.word && i != next ==>
                    buf[i] == old(buf[i]))
    {
      BlockSetSize(b, newSize);
      buf[b] := prevSizeUnused;
    }

    /** block_split: `available` payload bytes from `b` on, ending where the header of `post[0]`
        starts, become a live block and, if a header fits, a hole. */
    method BlockSplit(b: nat, available: nat, usedSize: nat, ghost prev: nat, ghost post: seq<Block>)
      returns (used: nat)
      requires target.Ok() && usedSize <= available && usedSize % 2 == available % 2 == prev % 2 == 0
      requires b + target.Header() + available < size <= buf.Length
      requires buf[b] == prev || buf[b] == prev + 1
      requires |post| > 0 && post[0].Flag() == buf[b + target.Header() + available] % 2
      modifies buf
      ensures var bs := Carve(target, available, usedSize);
              && used == bs[0].size
              && Laid(target, buf[..], b, prev, bs)
              && Patched(old(buf[..]), buf[..], b, b + target.Header() + available, LastSize(0, bs), post)
      ensures forall i :: b + target.Header() <= i < b + target.Header() + used ==> buf[i] == old(buf[i])
    {
      hide Laid, Multiple;
      used := usedSize;
      var remaining := available - usedSize;
      if remaining >= target.Header() {
        SetHeader(b + target.Header() + usedSize, remaining - target.Header(), 1);
      } else {
        used := available;
      }
      SetHeader(b, used, buf[b] - buf[b] % 2);
      CarvedLaid(target, buf[..], b, prev, available, usedSize);
    }

    /** The end of block_merge: the header at `b`, behind a block of `prev` bytes and before that
        of `post[0]`, becomes the header of a hole. */
    method BlockSetHole(b: nat, newSize: nat, ghost prev: nat, ghost post: seq<Block>)
      requires target.Ok() && newSize % 2 == prev % 2 == 0
      requires b + target.Header() + newSize < size <= buf.Length
      requires buf[b] == prev || buf[b] == prev + 1
      requires |post| > 0 && post[0].Flag() == buf[b + target.Header() + newSize] % 2
      modifies buf
      ensures buf[b] == prev + 1 && buf[b + target.word] == newSize
      ensures Patched(old(buf[..]), buf[..], b, b + target.Header() + newSize, newSize, post)
    {
      BlockSetSize(b, newSize);
      buf[b] := OrBit(buf[b], 1);
    }

    /** block_merge, where blocks follow: the merged stretch becomes a hole. */
    method MakeHole(start: nat, hole: nat, ghost i: nat)
      requires Valid() && i + 1 < |blocks| && !blocks[i].unused
      requires start == Span(target, blocks[..MergeStart(blocks, i)]) && hole == MergedSize(target, blocks, i)
      modifies this, buf
      ensures Valid() && blocks == Coalesced(target, old(blocks), i)
      ensures Heap() == old(Heap()) - {PayloadAt(target, old(blocks), i)}
    {
      hide Laid, Live, Span, WellFormed, Patched, MergedSize;
      ghost var mem, bs := buf[..], blocks;
      ghost var lo, hi := MergeStart(bs, i), Beyond(bs, i);
      MergedStretch(target, mem, bs, i);
      BlockSetHole(start, hole, LastSize(0, bs[..lo]), bs[hi..]);
      blocks := Coalesced(target, bs, i);
      ghost var mem' := buf[..];
      MergedHeap(target, cap, mem, mem', bs, i, start, hole, PayloadAt(target, bs, i));
    }

    /** block_merge, where nothing follows: the merged stretch is cut off. */
    method Truncate(stretch: nat, ghost i: nat)
      requires Valid() && i + 1 == |blocks| && !blocks[i].unused
      requires stretch == target.Header() + MergedSize(target, blocks, i)
      modifies this
      ensures Valid() && blocks == Coalesced(target, old(blocks), i)
      ensures Heap() == old(Heap()) - {PayloadAt(target, old(blocks), i)}
    {
      hide Laid, Live, Span, WellFormed, MergedSize;
      TruncatedHeap(target, cap, buf[..], blocks, i, PayloadAt(target, blocks, i));
      size := size - stretch;
      blocks := Coalesced(target, blocks, i);
    }

    /** block_merge: gives back live block `i`, whose header is at `b`. */
    method BlockMerge(b: nat, ghost i: nat)
      requires Valid() && i < |blocks| && !blocks[i].unused && b == Span(target, blocks[..i])
      modifies this, buf
      ensures Valid() && blocks == Coalesced(target, old(blocks), i)
      ensures Heap() == old(Heap()) - {b + target.Header()}
    {
      hide Laid, Live, Span, WellFormed, Coalesced;
      ghost var mem, bs := buf[..], blocks;
      StepBack(target, mem, bs, i, b);
      StepOn(target, mem, bs, i, b);

      var totalSize := buf[b + target.word];
      var addedSize := 0;
      if b > 0 {
        var prev := b - target.Header() - (buf[b] - buf[b] % 2);
        addedSize := if buf[prev] % 2 == 1 then buf[prev + target.word] + target.Header() else 0;
      }
      totalSize := totalSize + addedSize;
      var start := b - addedSize;
      assert start == Span(target, bs[..MergeStart(bs, i)]);
      var next := start + target.Header() + totalSize;
      if next >= size {
        Truncate(target.Header() + totalSize, i);
        return;
      }
      totalSize := totalSize + if buf[next] % 2 == 1 then target.Header() + buf[next + target.word] else 0;
      MakeHole(start, totalSize, i);
    }

    /** ralcGen_alloc, where a hole fits: block `k`, whose header is at `b`, is split. */
    method TakeHole(b: nat, need: nat, ghost k: nat) returns (used: nat)
      requires Valid() && k < |blocks| && b == Span(target, blocks[..k])
      requires blocks[k].unused && blocks[k].size >= need && Multiple(target.alignment, need)
      modifies this, buf
      ensures Valid() && size == old(size)
      ensures blocks == old(blocks[..k] + (Carve(target, blocks[k].size, need) + blocks[k + 1..]))
      ensures used < need + target.Header()
      ensures var ptr := b + target.Header();
              ptr !in old(Heap()) ==> Granted(old(Heap()), Heap(), Grant(ptr, used), need)
    {
      hide Laid, Live, LiveAddrs, Span, WellFormed, Patched, Multiple, FirstFit, Carve, AlignUp;
      CarveIsTight(target, blocks[k].size, need);
      ghost var mem, bs := buf[..], blocks;
      ghost var bs' := bs[..k] + (Carve(target, bs[k].size, need) + bs[k + 1..]);
      HeaderAt(target, mem, bs, k);
      StepOn(target, mem, bs, k, b);
      HoleIsInside(target, bs, k);
      MultipleIsEven(target.alignment, need);
      FittedGood(target, cap, bs, k, need);
      HoleIsAligned(target, bs, k, need);
      SpanOne(target, bs[k]);
      NoneLive(target, b, bs[k..k + 1]);
      assert bs[k..k + 1] == [bs[k]];
      used := BlockSplit(b, buf[b + target.word], need, LastSize(0, bs[..k]), bs[k + 1..]);
      blocks := bs';
      SplitHeap(target, mem, buf[..], bs, bs', k, k + 1, bs[k].size, need, b);
    }

    /** ralcGen_alloc, where no hole fits: a block is put behind the last one. */
    method Extend(prevSize: nat, need: nat)
      requires Valid() && prevSize == LastSize(0, blocks) && Multiple(target.alignment, need)
      requires size + target.Header() + need <= cap
      modifies this, buf
      ensures Valid() && blocks == old(blocks) + [Block(need, false)]
      ensures var ptr := old(size) + target.Header();
              ptr !in old(Heap()) ==> Granted(old(Heap()), Heap(), Grant(ptr, need), need)
    {
      hide Laid, Live, LiveAddrs, Span, WellFormed;
      ghost var mem, bs := buf[..], blocks;
      assert bs == bs + [];
      SpanNone(target);
      LiveNone(target, mem, size);
      AppendedGood(target, cap, bs, [], need);
      var b := size;
      size := size + target.Header() + need;
      buf[b] := prevSize;
      buf[b + target.word] := need;
      blocks := bs + [Block(need, false)];
      TailWrite(target, mem, buf[..], bs, blocks, bs, [], need, b);
    }

    /** The loop of ralcGen_alloc: the first hole of at least `need` bytes, or the end of the used
        buffer, and the size of the block before it. */
    method FindHole(need: nat) returns (b: nat, prevSize: nat, ghost k: nat)
      requires Valid()
      ensures k == FirstFit(blocks, need) && k <= |blocks|
      ensures b == Span(target, blocks[..k]) && prevSize == LastSize(0, blocks[..k]) && (b < size <==> k < |blocks|)
    {
      hide Laid, Span, WellFormed;
      ghost var mem, bs := buf[..], blocks;
      prevSize, b, k := 0, 0, 0;
      SpanNone(target);
      SpanPositive(target, bs);
      while b < size
        invariant k <= |bs| && b == Span(target, bs[..k]) && prevSize == LastSize(0, bs[..k])
        invariant forall j :: 0 <= j < k ==> !(bs[j].unused && bs[j].size >= need)
        invariant b < size <==> k < |bs|
        decreases size - b
      {
        StepOn(target, mem, bs, k, b);
        if buf[b] % 2 == 1 && buf[b + target.word] >= need {
          break;
        }
        assert !(bs[k].unused && bs[k].size >= need);
        prevSize := buf[b + target.word];
        b := b + target.Header() + buf[b + target.word];
        k := k + 1;
      }
    }

    /** ralcGen_alloc. The out size is part of the grant: a refused request writes none. */
    method Alloc(request: nat) returns (r: Option<Grant>)
      requires Valid()
      modifies this, buf
      ensures Valid()
      ensures match Placed(target, cap, old(blocks), AlignUp(target.alignment, request))
              case None => r.None? && size == old(size) && blocks == old(blocks) && buf[..] == old(buf[..])
              case Some((bs, ptr)) => r.Some? && r.value.ptr == ptr && blocks == bs
      ensures blocks == Step(target, cap, old(blocks), Op.Alloc(request))
      ensures r.Some? ==> Snug(target, r.value, request) && Granted(old(Heap()), Heap(), r.value, request)
    {
      hide Laid, Live, LiveAddrs, Span, WellFormed, Patched, FirstFit;
      var need := AlignUp(target.alignment, request);
      AlignUpIsLeast(target.alignment, request);
      ghost var bs := blocks;
      PlacedAddrs(target, cap, bs, need);
      LiveKeys(target, buf[..], 0, bs);
      assert bs[..|bs|] == bs;
      var b, prevSize, k := FindHole(need);
      if b < size {
        var used := TakeHole(b, need, k);
        LiveAligned(target, cap, buf[..], blocks, b + target.Header());
        return Some(Grant(b + target.Header(), used));
      }
      if cap - size < target.Header() + need {
        return None;
      }
      Extend(prevSize, need);
      LiveAligned(target, cap, buf[..], blocks, b + target.Header());
      return Some(Grant(b + target.Header(), need));
    }

    /** ralcGen_realloc of the last block: the end of the used buffer moves. */
    method MoveEnd(b: nat, need: nat, ghost i: nat)
      requires Valid() && i + 1 == |blocks| && !blocks[i].unused && b == Span(target, blocks[..i])
      requires Multiple(target.alignment, need) && b + target.Header() + need <= cap
      modifies this, buf
      ensures Valid() && blocks == old(blocks)[..i] + [Block(need, false)]
      ensures Met(target, old(Heap()), Heap(), b + target.Header(), Grant(b + target.Header(), need), need)
    {
      hide Laid, Live, LiveAddrs, Span, WellFormed, Multiple, Resettled, Met, AlignUp;
      LiveBlock(target, cap, buf[..], blocks, i, b + target.Header());
      ghost var before := Heap();
      ghost var mem, bs := buf[..], blocks;
      ghost var pre, rest := bs[..i], [bs[i]];
      assert bs == pre + rest;
      HeaderAt(target, mem, bs, i);
      SpanOne(target, bs[i]);
      LiveKeys(target, mem, b, rest);
      OnlyLive(target, b, rest, 0);
      SpanNone(target);
      assert rest[..0] == [];
      AppendedGood(target, cap, pre, rest, need);
      size := b + target.Header() + need;
      buf[b + target.word] := need;
      blocks := pre + [Block(need, false)];
      TailWrite(target, mem, buf[..], bs, blocks, pre, rest, need, b);
      KeptInPlace(mem, buf[..], before, Heap(), b + target.Header(), need, need);
      ResettledSnug(target, cap, buf[..], blocks, before, b + target.Header(), Grant(b + target.Header(), need), need);
    }

    /** ralcGen_realloc where the block and the hole behind it, `available` bytes, suffice. */
    method ResplitInPlace(b: nat, available: nat, need: nat, ghost i: nat) returns (used: nat)
      requires Valid() && i + 1 < |blocks| && !blocks[i].unused && b == Span(target, blocks[..i])
      requires available == Reach(target, blocks, i) && need <= available && Multiple(target.alignment, need)
      modifies this, buf
      ensures Valid() && size == old(size)
      ensures blocks == old(blocks[..i] + (Carve(target, available, need) + blocks[Beyond(blocks, i)..]))
      ensures used == Carve(target, available, need)[0].size
      ensures Met(target, old(Heap()), Heap(), b + target.Header(), Grant(b + target.Header(), used), need)
    {
      hide Laid, Live, LiveAddrs, Span, WellFormed, Patched, Multiple, Resettled, Met;
      LiveBlock(target, cap, buf[..], blocks, i, b + target.Header());
      ghost var before := Heap();
      ghost var mem, bs := buf[..], blocks;
      ghost var hi := Beyond(bs, i);
      ghost var bs' := bs[..i] + (Carve(target, available, need) + bs[hi..]);
      ReachedStretch(target, mem, bs, i, need);
      ReachedGood(target, cap, bs, i, need);
      used := BlockSplit(b, available, need, LastSize(0, bs[..i]), bs[hi..]);
      blocks := bs';
      SplitHeap(target, mem, buf[..], bs, bs', i, hi, available, need, b);
      KeptInPlace(mem, buf[..], before, Heap(), b + target.Header(), used, need);
      CarveIsTight(target, available, need);
      ResettledSnug(target, cap, buf[..], blocks, before, b + target.Header(), Grant(b + target.Header(), used), need);
    }

    /** The memcpy of ralcGen_realloc, into the payload of live block `j`. */
    method CopyPayload(src: nat, dst: nat, n: nat, ghost j: nat)
      requires Valid() && j < |blocks| && !blocks[j].unused && dst == PayloadAt(target, blocks, j)
      requires n <= blocks[j].size && src + n <= buf.Length && dst + n <= buf.Length
      modifies buf
      ensures Valid()
      ensures dst in Heap() && |Heap()[dst]| == blocks[j].size && Heap()[dst][..n] == old(buf[..][src..src + n])
      ensures Heap() == old(Heap())[dst := Heap()[dst]]
    {
      hide Laid, Live, Span, WellFormed;
      ghost var mem := buf[..];
      PayloadBytes(target, mem, blocks, j, dst);
      CopyBytes(src, dst, n);
      PayloadWrite(target, mem, buf[..], blocks, j);
      FirstBytes(buf[..], dst, blocks[j].size, n);
    }

    /** memcpy within the buffer. */
    method CopyBytes(src: nat, dst: nat, n: nat)
      requires src + n <= buf.Length && dst + n <= buf.Length
      modifies buf
      ensures buf[..][dst..dst + n] == old(buf[..][src..src + n])
      ensures forall k :: 0 <= k < buf.Length && !(dst <= k < dst + n) ==> buf[k] == old(buf[k])
    {
      forall k | 0 <= k < n {
        buf[dst + k] := buf[src + k];
      }
    }

    /** The end of ralcGen_realloc: the payload of block `j` is copied into grant `g`, and the block
        is given back. */
    method MovePayload(ptr: nat, g: Grant, ghost j: nat)
      requires Valid() && j < |blocks| && !blocks[j].unused && ptr == PayloadAt(target, blocks, j)
      requires ptr in Heap() && g.ptr in Heap() && g.ptr != ptr && |Heap()[g.ptr]| == g.size >= blocks[j].size
      modifies this, buf
      ensures Valid() && blocks == Coalesced(target, old(blocks), j)
      ensures Shifted(old(Heap()), Heap(), ptr, g)
    {
      hide Laid, Live, LiveAddrs, Span, WellFormed, Coalesced, Multiple;
      ghost var before, mem := Heap(), buf[..];
      LiveBlock(target, cap, mem, blocks, j, ptr);
      ghost var to := BlockAt(target, cap, mem, blocks, g.ptr);
      var b := ptr - target.Header();
      var n := buf[b + target.word];
      assert before[ptr] == mem[ptr..ptr + n];
      CopyPayload(ptr, g.ptr, n, to);
      BlockMerge(b, j);
    }

    /** ralcGen_realloc where the payload has to move: allocate, copy, give the old block back. */
    method Relocate(ptr: nat, need: nat, ghost i: nat) returns (r: Option<Grant>)
      requires Valid() && i < |blocks| && !blocks[i].unused && ptr == PayloadAt(target, blocks, i)
      requires Multiple(target.alignment, need) && blocks[i].size < need
      modifies this, buf
      ensures Valid()
      ensures match Placed(target, cap, old(blocks), need)
              case None => r.None? && size == old(size) && blocks == old(blocks) && buf[..] == old(buf[..])
              case Some((bs, ptr')) =>
                var j := IndexAt(target, 0, bs, ptr);
                r.Some? && r.value.ptr == ptr' && j < |bs| && blocks == Coalesced(target, bs, j)
      ensures r.Some? ==> Met(target, old(Heap()), Heap(), ptr, r.value, need)
    {
      hide Laid, Live, LiveAddrs, Span, WellFormed, Coalesced, Multiple, Placed, Resettled, Shifted, Met, Snug, AlignUp;
      ghost var bs, before := blocks, Heap();
      AlignUpIsLeast(target.alignment, need);
      LiveBlock(target, cap, buf[..], bs, i, ptr);
      PlacedKeepsBlock(target, cap, bs, need, i);
      r := Alloc(need);
      if r.Some? {
        ghost var granted := Heap();
        ghost var j := IndexAt(target, 0, blocks, ptr);
        LiveBlock(target, cap, buf[..], blocks, j, ptr);
        MovePayload(ptr, r.value, j);
        Relocated(target, before, granted, Heap(), ptr, r.value, need);
      }
    }

    /** ralcGen_realloc of a live payload. */
    method Resize(ptr: nat, request: nat) returns (r: Option<Grant>)
      requires Valid() && ptr in Heap()
      modifies this, buf
      ensures Valid()
      ensures var bs := old(blocks);
              var i := IndexAt(target, 0, bs, ptr);
              i < |bs| &&
              match Resized(target, cap, bs, i, AlignUp(target.alignment, request))
              case None => r.None? && size == old(size) && blocks == bs && buf[..] == old(buf[..])
              case Some((bs', ptr')) => r.Some? && r.value.ptr == ptr' && blocks == bs'
      ensures r.Some? ==> Met(target, old(Heap()), Heap(), ptr, r.value, request)
      ensures InPlace(target, cap, old(blocks), ptr, request) ==> r.Some?
      ensures r.Some? ==> (r.value.ptr == ptr <==> InPlace(target, cap, old(blocks), ptr, request))
    {
      hide Laid, Live, LiveAddrs, Span, WellFormed, Coalesced, Multiple, Placed, Carve, Met, AlignUp, FitsInPlace;
      var need := AlignUp(target.alignment, request);
      AlignUpIsLeast(target.alignment, request);
      ghost var mem, bs := buf[..], blocks;
      ghost var i := BlockAt(target, cap, mem, bs, ptr);
      LiveBlock(target, cap, mem, bs, i, ptr);
      LastSpan(target, bs, i);
      ResizeIsInPlace(target, cap, bs, i, need);

      var b := ptr - target.Header();
      StepOn(target, mem, bs, i, b);
      var next := ptr + buf[b + target.word];
      var available := buf[b + target.word];
      if next >= size {
        var newBufSize := size - buf[b + target.word] + need;
        if newBufSize <= cap {
          MoveEnd(b, need, i);
          RequestMet(target, old(Heap()), Heap(), ptr, Grant(ptr, need), need, request);
          return Some(Grant(ptr, need));
        }
      } else {
        available := available + if buf[next] % 2 == 1 then target.Header() + buf[next + target.word] else 0;
      }
      if available >= need {
        var used := ResplitInPlace(b, available, need, i);
        RequestMet(target, old(Heap()), Heap(), ptr, Grant(ptr, used), need, request);
        return Some(Grant(ptr, used));
      }
      r := Relocate(ptr, need, i);
      if r.Some? {
        RequestMet(target, old(Heap()), Heap(), ptr, r.value, need, request);
      }
    }

    /** ralcGen_realloc; `None` is the NULL pointer, which asks for an allocation. */
    method Realloc(opt: Option<nat>, request: nat) returns (r: Option<Grant>)
      requires Valid() && (opt.Some? ==> opt.value in Heap())
      modifies this, buf
      ensures Valid()
      ensures var op := if opt.Some? then Op.Realloc(opt.value, request) else Op.Alloc(request);
              blocks == Step(target, cap, old(blocks), op)
      ensures r.None? <==>
              var bs, need := old(blocks), AlignUp(target.alignment, request);
              if opt.None? then Placed(target, cap, bs, need).None?
              else
                var i := IndexAt(target, 0, bs, opt.value);
                i < |bs| && Resized(target, cap, bs, i, need).None?
      ensures r.None? ==> size == old(size) && blocks == old(blocks) && buf[..] == old(buf[..])
      ensures r.Some? && opt.Some? ==> Met(target, old(Heap()), Heap(), opt.value, r.value, request)
      ensures opt.Some? && InPlace(target, cap, old(blocks), opt.value, request) ==> r.Some?
      ensures r.Some? && opt.Some? ==>
                (r.value.ptr == opt.value <==> InPlace(target, cap, old(blocks), opt.value, request))
      ensures r.Some? && opt.None? ==> Snug(target, r.value, request) && Granted(old(Heap()), Heap(), r.value, request)
    {
      hide Placed, Resized, InPlace;
      if opt.None? {
        r := Alloc(request);
      } else {
        r := Resize(opt.value, request);
      }
    }

    /** ralcGen_free */
    method Free(ptr: nat)
      requires Valid() && ptr in Heap()
      modifies this, buf
      ensures Valid()
      ensures var i := IndexAt(target, 0, old(blocks), ptr);
              i < |old(blocks)| && blocks == Coalesced(target, old(blocks), i)
      ensures blocks == Step(target, cap, old(blocks), Op.Free(ptr))
      ensures Heap() == old(Heap()) - {ptr}
      ensures Heap() == map[] ==> size == 0
    {
      ghost var i := BlockAt(target, cap, buf[..], blocks, ptr);
      LiveBlock(target, cap, buf[..], blocks, i, ptr);
      BlockMerge(ptr - target.Header(), i);
      NothingLive();
    }

    /** A buffer in which nothing is live is entirely free again. */
    lemma {:induction false} NothingLive()
      requires Valid()
      ensures Heap() == map[] ==> size == 0
    {
      LiveKeys(target, buf[..], 0, blocks);
      if Heap() == map[] {
        NothingLiveIsEmpty(target, cap, blocks);
      }
    }

    /** ralcGen_clear */
    method Clear()
      requires Valid()
      modifies this
      ensures Valid() && size == 0 && Heap() == map[]
      ensures blocks == Step(target, cap, old(blocks), Op.Clear)
    {
      size := 0;
      blocks := [];
    }

    /** ralcGen_getUsage */
    method GetUsage() returns (u: Usage)
      requires Valid()
      ensures u.blockCount == |Heap()|
      ensures u.blockSize == Bytes(blocks, false)
      ensures u.holeCount == Count(blocks, true)
      ensures u.Total() == cap
      ensures u.systemSize == target.Header() * |blocks| + Least(cap - size, target.Header())
    {
      hide Laid, Live, LiveAddrs, Span, WellFormed, Multiple, Tally, Count, Bytes;
      ghost var mem, bs := buf[..], blocks;
      var blockCount: nat, blockSize: nat, holeCount: nat, holeSize: nat := 0, 0, 0, 0;
      var b: nat := 0;
      ghost var k := 0;
      SpanPositive(target, bs);
      TallyStart(target, bs);
      while b < size
        invariant k <= |bs| && b == Span(target, bs[..k]) && (b < size <==> k < |bs|)
        invariant Tally(bs[..k], blockCount, blockSize, holeCount, holeSize)
        decreases size - b
      {
        StepOn(target, mem, bs, k, b);
        TallyStep(bs, k, blockCount, blockSize, holeCount, holeSize);
        var isUnused := buf[b] % 2;
        var s := buf[b + target.word];
        blockCount := blockCount + (1 - isUnused);
        blockSize := blockSize + if isUnused == 1 then 0 else s;
        holeCount := holeCount + isUnused;
        holeSize := holeSize + if isUnused == 1 then s else 0;
        b := b + target.Header() + s;
        k := k + 1;
      }
      assert bs[..k] == bs;
      TallyEnd(target, mem, bs, blockCount, blockSize, holeCount, holeSize);
      var remaining := cap - size;
      holeSize := holeSize + if remaining > target.Header() then remaining - target.Header() else 0;
      u := Usage(blockCount, blockSize, holeCount, holeSize, cap - blockSize - holeSize);
    }
  }

  /** The counters hold what the blocks walked so far add up to. */
  ghost predicate Tally(bs: seq<Block>, blockCount: nat, blockSize: nat, holeCount: nat, holeSize: nat) {
    && blockCount == Count(bs, false) && blockSize == Bytes(bs, false)
    && holeCount == Count(bs, true) && holeSize == Bytes(bs, true)
  }

  lemma {:induction false} TallyStart(t: Target, bs: seq<Block>)
    ensures Span(t, bs[..0]) == 0 && Tally(bs[..0], 0, 0, 0, 0)
  {
  }

  lemma {:induction false} TallyStep(bs: seq<Block>, k: nat, blockCount: nat, blockSize: nat, holeCount: nat,
                                     holeSize: nat)
    requires k < |bs| && Tally(bs[..k], blockCount, blockSize, holeCount, holeSize)
    ensures var flag, size := bs[k].Flag(), bs[k].size;
            Tally(bs[..k + 1], blockCount + (1 - flag), blockSize + (if flag == 1 then 0 else size),
                  holeCount + flag, holeSize + (if flag == 1 then size else 0))
  {
    assert bs[..k + 1] == bs[..k] + [bs[k]];
    CountSnoc(bs[..k], bs[k], true);
    CountSnoc(bs[..k], bs[k], false);
  }

  lemma {:induction false} TallyEnd(t: Target, mem: seq<nat>, bs: seq<Block>, blockCount: nat, blockSize: nat,
                                    holeCount: nat, holeSize: nat)
    requires t.word > 0 && Span(t, bs) <= |mem| && Tally(bs, blockCount, blockSize, holeCount, holeSize)
    ensures blockSize + holeSize + t.Header() * |bs| == Span(t, bs) && t.Header() * |bs| >= 0
    ensures blockCount == |Live(t, mem, 0, bs)| && blockSize == Bytes(bs, false) && holeCount == Count(bs, true)
  {
    BytesAddUp(t, bs);
    LiveKeys(t, mem, 0, bs);
    CountsAddUp(t, 0, bs);
    assert |Live(t, mem, 0, bs)| == |Live(t, mem, 0, bs).Keys|;
  }

}
