/** The byte layout of the boundary-tag heap of rat/src/rat_ralcGen.c: what the headers
    stored in the buffer say, and what a rewrite of a few of them does to the whole.

    The buffer is modelled one cell per byte address. A `size_t` header field is kept whole in
    the cell of its first byte; no field is ever read or written through its other bytes. */
module BlockLayout {
  import opened Alignment

  /** sizeof(size_t) and RAT_ALIGNMENT; the block header is two words. */
  datatype Target = Target(word: nat, alignment: nat) {
    function Header(): nat { 2 * word }

    /** The alignment leaves the low bit of a size free and divides the header size. */
    ghost predicate Ok() {
      word > 0 && alignment > 0 && alignment % 2 == 0 && Multiple(alignment, Header())
    }
  }

  datatype Block = Block(size: nat, unused: bool) {
    function Flag(): nat { if unused then 1 else 0 }
  }

  /** Bytes covered by consecutive blocks, headers included. */
  ghost function Span(t: Target, bs: seq<Block>): nat {
    if bs == [] then 0 else t.Header() + bs[0].size + Span(t, bs[1..])
  }

  /** The payload size a block that follows `bs` must record as its predecessor's. */
  ghost function LastSize(prev: nat, bs: seq<Block>): nat {
    if bs == [] then prev else bs[|bs| - 1].size
  }

  /** The headers of `bs` are stored in `mem` from `off` on, and the first of them records
      `prev` as the size of its predecessor. */
  ghost predicate Laid(t: Target, mem: seq<nat>, off: nat, prev: nat, bs: seq<Block>)
    decreases |bs|
  {
    bs != [] ==>
      && t.word > 0
      && off + t.Header() + bs[0].size <= |mem|
      && mem[off] == prev + bs[0].Flag()
      && mem[off + t.word] == bs[0].size
      && Laid(t, mem, off + t.Header() + bs[0].size, bs[0].size, bs[1..])
  }

  /** Sizes are aligned; every hole is followed by a live block, so no two holes are neighbours
      and the last block is never a hole. */
  ghost predicate WellFormed(t: Target, bs: seq<Block>)
    requires t.Ok()
  {
    && (forall i :: 0 <= i < |bs| ==> Multiple(t.alignment, bs[i].size))
    && (forall i :: 0 <= i < |bs| ==> bs[i].unused ==> HoleEndsAt(bs, i + 1))
  }

  ghost predicate HoleEndsAt(bs: seq<Block>, i: nat) {
    i < |bs| && !bs[i].unused
  }

  /** The payload addresses of the live blocks among `bs`, which start at `off`. */
  ghost function LiveAddrs(t: Target, off: nat, bs: seq<Block>): set<nat>
    decreases |bs|
  {
    if bs == [] then {}
    else
      var data := off + t.Header();
      (if bs[0].unused then {} else {data}) + LiveAddrs(t, data + bs[0].size, bs[1..])
  }

  /** The live payloads: from the address of a payload to its bytes. */
  ghost function Live(t: Target, mem: seq<nat>, off: nat, bs: seq<Block>): map<nat, seq<nat>>
    requires t.word > 0 && off + Span(t, bs) <= |mem|
    decreases |bs|
  {
    if bs == [] then map[]
    else
      var data := off + t.Header();
      var rest := Live(t, mem, data + bs[0].size, bs[1..]);
      if bs[0].unused then rest else rest[data := mem[data..data + bs[0].size]]
  }

  /** No address is live in both. */
  ghost predicate Apart(a: map<nat, seq<nat>>, b: map<nat, seq<nat>>) {
    forall k :: k in a ==> k !in b
  }

  // ---- Splitting a run of blocks -------------------------------------------------------

  lemma {:induction false} SpanConcat(t: Target, a: seq<Block>, b: seq<Block>)
    ensures Span(t, a + b) == Span(t, a) + Span(t, b)
  {
    if a == [] {
      assert a + b == b;
    } else {
      assert (a + b)[1..] == a[1..] + b;
      SpanConcat(t, a[1..], b);
    }
  }

  lemma {:induction false} AddrsConcat(t: Target, off: nat, a: seq<Block>, b: seq<Block>)
    requires t.word > 0
    ensures LiveAddrs(t, off, a + b) == LiveAddrs(t, off, a) + LiveAddrs(t, off + Span(t, a), b)
    ensures LiveAddrs(t, off, a) !! LiveAddrs(t, off + Span(t, a), b)
    decreases |a|
  {
    AddrsBounds(t, off, a);
    AddrsBounds(t, off + Span(t, a), b);
    if a == [] {
      assert a + b == b;
    } else {
      assert (a + b)[1..] == a[1..] + b;
      AddrsConcat(t, off + t.Header() + a[0].size, a[1..], b);
    }
  }

  lemma {:induction false} AddrsBounds(t: Target, off: nat, bs: seq<Block>)
    ensures forall p :: p in LiveAddrs(t, off, bs) ==> off + t.Header() <= p <= off + Span(t, bs)
    decreases |bs|
  {
    if bs != [] {
      AddrsBounds(t, off + t.Header() + bs[0].size, bs[1..]);
    }
  }

  lemma {:induction false} LaidConcat(t: Target, mem: seq<nat>, off: nat, prev: nat, a: seq<Block>, b: seq<Block>)
    ensures Laid(t, mem, off, prev, a + b) <==>
            Laid(t, mem, off, prev, a) && Laid(t, mem, off + Span(t, a), LastSize(prev, a), b)
    decreases |a|
  {
    if a == [] {
      assert a + b == b;
    } else {
      assert (a + b)[1..] == a[1..] + b;
      LaidConcat(t, mem, off + t.Header() + a[0].size, a[0].size, a[1..], b);
    }
  }

  lemma {:induction false} LaidFits(t: Target, mem: seq<nat>, off: nat, prev: nat, bs: seq<Block>)
    requires off <= |mem| && Laid(t, mem, off, prev, bs)
    ensures off + Span(t, bs) <= |mem|
    decreases |bs|
  {
    if bs != [] {
      LaidFits(t, mem, off + t.Header() + bs[0].size, bs[0].size, bs[1..]);
    }
  }

  lemma {:induction false} LiveApart(t: Target, mem: seq<nat>, off: nat, a: seq<Block>, b: seq<Block>)
    requires t.word > 0 && off + Span(t, a) + Span(t, b) <= |mem|
    ensures Apart(Live(t, mem, off, a), Live(t, mem, off + Span(t, a), b))
  {
    hide Live, Span;
    LiveBounds(t, mem, off, a);
    LiveBounds(t, mem, off + Span(t, a), b);
  }

  /** The live payloads of a block and of those behind it. */
  ghost function Prepend(b: Block, data: nat, bytes: seq<nat>, rest: map<nat, seq<nat>>): map<nat, seq<nat>> {
    if b.unused then rest else rest[data := bytes]
  }

  lemma {:induction false} PrependConcat(b: Block, data: nat, bytes: seq<nat>, m: map<nat, seq<nat>>,
                                         n: map<nat, seq<nat>>)
    requires data !in n
    ensures Prepend(b, data, bytes, m + n) == Prepend(b, data, bytes, m) + n
  {
  }

  lemma {:induction false} LiveStep(t: Target, mem: seq<nat>, off: nat, b: Block, rest: seq<Block>)
    requires t.word > 0 && off + t.Header() + b.size + Span(t, rest) <= |mem|
    ensures var data := off + t.Header();
            && Span(t, [b] + rest) == t.Header() + b.size + Span(t, rest)
            && Live(t, mem, off, [b] + rest)
               == Prepend(b, data, mem[data..data + b.size], Live(t, mem, data + b.size, rest))
  {
    assert ([b] + rest)[1..] == rest;
  }

  lemma {:induction false} LiveConcat(t: Target, mem: seq<nat>, off: nat, a: seq<Block>, b: seq<Block>)
    requires t.word > 0 && off + Span(t, a) + Span(t, b) <= |mem|
    ensures Span(t, a + b) == Span(t, a) + Span(t, b)
    ensures Live(t, mem, off, a + b) == Live(t, mem, off, a) + Live(t, mem, off + Span(t, a), b)
    decreases |a|, 0
  {
    SpanConcat(t, a, b);
    if |a| == 0 {
      assert a + b == b;
    } else {
      var first, rest := a[0], a[1..];
      assert a == [first] + rest && a + b == [first] + (rest + b);
      LiveConcatStep(t, mem, off, first, rest, b);
    }
  }

  lemma {:induction false} LiveConcatStep(t: Target, mem: seq<nat>, off: nat, first: Block, rest: seq<Block>,
                                          b: seq<Block>)
    requires t.word > 0 && off + t.Header() + first.size + Span(t, rest) + Span(t, b) <= |mem|
    ensures Span(t, [first] + rest) == t.Header() + first.size + Span(t, rest)
    ensures Span(t, [first] + (rest + b)) == t.Header() + first.size + Span(t, rest) + Span(t, b)
    ensures Live(t, mem, off, [first] + (rest + b))
            == Live(t, mem, off, [first] + rest) + Live(t, mem, off + Span(t, [first] + rest), b)
    decreases |rest|, 1
  {
    hide Live, Span, Prepend;
    var data := off + t.Header();
    var next := data + first.size;
    LiveConcat(t, mem, next, rest, b);
    LiveStep(t, mem, off, first, rest);
    LiveStep(t, mem, off, first, rest + b);
    var end := Live(t, mem, next + Span(t, rest), b);
    LiveBounds(t, mem, next + Span(t, rest), b);
    PrependConcat(first, data, mem[data..next], Live(t, mem, next, rest), end);
  }

  lemma {:induction false} LiveKeys(t: Target, mem: seq<nat>, off: nat, bs: seq<Block>)
    requires t.word > 0 && off + Span(t, bs) <= |mem|
    ensures Live(t, mem, off, bs).Keys == LiveAddrs(t, off, bs)
    decreases |bs|
  {
    if bs != [] {
      LiveKeys(t, mem, off + t.Header() + bs[0].size, bs[1..]);
    }
  }

  /** Live payloads lie inside the run, each after its own header. */
  lemma {:induction false} LiveBounds(t: Target, mem: seq<nat>, off: nat, bs: seq<Block>)
    requires t.word > 0 && off + Span(t, bs) <= |mem|
    ensures forall p :: p in Live(t, mem, off, bs) ==>
              off + t.Header() <= p && p + |Live(t, mem, off, bs)[p]| <= off + Span(t, bs)
    decreases |bs|
  {
    if bs != [] {
      LiveBounds(t, mem, off + t.Header() + bs[0].size, bs[1..]);
    }
  }

  // ---- Frames ----------------------------------------------------------------------------

  /** Only the first header word of a run mentions what comes before it. */
  lemma {:induction false} RunFrame(t: Target, mem: seq<nat>, mem': seq<nat>, off: nat, prev: nat, prev': nat,
                                    bs: seq<Block>)
    requires t.word > 0 && |mem'| == |mem| && off <= |mem|
    requires Laid(t, mem, off, prev, bs)
    requires forall i :: off < i < off + Span(t, bs) && i < |mem| ==> mem'[i] == mem[i]
    requires bs != [] && off < |mem| ==> mem'[off] == prev' + bs[0].Flag()
    ensures off + Span(t, bs) <= |mem|
    ensures Laid(t, mem', off, prev', bs)
    ensures Live(t, mem', off, bs) == Live(t, mem, off, bs)
    decreases |bs|
  {
    LaidFits(t, mem, off, prev, bs);
    if bs != [] {
      var data := off + t.Header();
      RunFrame(t, mem, mem', data + bs[0].size, bs[0].size, bs[0].size, bs[1..]);
      assert mem'[data..data + bs[0].size] == mem[data..data + bs[0].size];
    }
  }

  lemma {:induction false} RunSame(t: Target, mem: seq<nat>, mem': seq<nat>, off: nat, prev: nat, bs: seq<Block>)
    requires t.word > 0 && |mem'| == |mem| && off <= |mem|
    requires Laid(t, mem, off, prev, bs)
    requires forall i :: off <= i < off + Span(t, bs) && i < |mem| ==> mem'[i] == mem[i]
    ensures off + Span(t, bs) <= |mem|
    ensures Laid(t, mem', off, prev, bs)
    ensures Live(t, mem', off, bs) == Live(t, mem, off, bs)
  {
    RunFrame(t, mem, mem', off, prev, prev, bs);
  }

  // ---- Rewriting part of the heap --------------------------------------------------------

  /** `a` and then `b` cover `mem` from `off`; their live payloads are those of both, kept apart. */
  ghost predicate Joined(t: Target, mem: seq<nat>, off: nat, a: seq<Block>, b: seq<Block>) {
    && t.word > 0
    && off + Span(t, a) + Span(t, b) <= |mem|
    && Span(t, a + b) == Span(t, a) + Span(t, b)
    && Live(t, mem, off, a + b) == Live(t, mem, off, a) + Live(t, mem, off + Span(t, a), b)
    && Apart(Live(t, mem, off, a), Live(t, mem, off + Span(t, a), b))
  }

  lemma {:induction false} Cut(t: Target, mem: seq<nat>, off: nat, prev: nat, a: seq<Block>, b: seq<Block>)
    requires t.word > 0 && off <= |mem| && Laid(t, mem, off, prev, a + b)
    ensures Laid(t, mem, off, prev, a)
    ensures Laid(t, mem, off + Span(t, a), LastSize(prev, a), b)
    ensures Joined(t, mem, off, a, b)
  {
    LaidConcat(t, mem, off, prev, a, b);
    LaidFits(t, mem, off, prev, a);
    LaidFits(t, mem, off + Span(t, a), LastSize(prev, a), b);
    LiveConcat(t, mem, off, a, b);
    LiveApart(t, mem, off, a, b);
  }

  lemma {:induction false} Join(t: Target, mem: seq<nat>, off: nat, prev: nat, a: seq<Block>, b: seq<Block>)
    requires t.word > 0 && off <= |mem|
    requires Laid(t, mem, off, prev, a)
    requires Laid(t, mem, off + Span(t, a), LastSize(prev, a), b)
    ensures Laid(t, mem, off, prev, a + b)
    ensures Joined(t, mem, off, a, b)
  {
    LaidConcat(t, mem, off, prev, a, b);
    Cut(t, mem, off, prev, a, b);
  }

  /** Replaces everything after `pre` by `tail`; `a` is what stays live before it. */
  lemma {:induction false} Retail(t: Target, mem: seq<nat>, mem': seq<nat>, pre: seq<Block>, rest: seq<Block>,
                                  tail: seq<Block>)
    returns (a: map<nat, seq<nat>>)
    requires t.word > 0 && |mem'| == |mem| && Laid(t, mem, 0, 0, pre + rest)
    requires forall i :: 0 <= i < Span(t, pre) && i < |mem| ==> mem'[i] == mem[i]
    requires Laid(t, mem', Span(t, pre), LastSize(0, pre), tail)
    ensures Span(t, pre) + Span(t, rest) == Span(t, pre + rest) <= |mem|
    ensures Span(t, pre) + Span(t, tail) == Span(t, pre + tail) <= |mem|
    ensures Laid(t, mem', 0, 0, pre + tail)
    ensures Live(t, mem, 0, pre + rest) == a + Live(t, mem, Span(t, pre), rest)
    ensures Live(t, mem', 0, pre + tail) == a + Live(t, mem', Span(t, pre), tail)
    ensures Apart(a, Live(t, mem, Span(t, pre), rest))
    ensures Apart(a, Live(t, mem', Span(t, pre), tail))
  {
    hide Live, Laid, Span;
    Cut(t, mem, 0, 0, pre, rest);
    RunSame(t, mem, mem', 0, 0, pre);
    Join(t, mem', 0, 0, pre, tail);
    a := Live(t, mem, 0, pre);
  }

  /** `mem'` differs from `mem` only in the cells [b, e] and puts at `e` the first header word of
      `post` behind a block of `last` bytes. */
  ghost predicate Patched(mem: seq<nat>, mem': seq<nat>, b: nat, e: nat, last: nat, post: seq<Block>) {
    && |mem'| == |mem|
    && (forall i :: 0 <= i < b && i < |mem| ==> mem'[i] == mem[i])
    && (forall i :: e < i < |mem| ==> mem'[i] == mem[i])
    && (post != [] && e < |mem| ==> mem'[e] == last + post[0].Flag())
  }

  /** Replaces `mid` by `mid'`, both in the cells [b, e), between `pre` and `post`; `a` and `p` are
      what stays live on the two sides, `m` and `m'` what is live in the middle before and after. */
  lemma {:induction false} Splice(t: Target, mem: seq<nat>, mem': seq<nat>, bs: seq<Block>, bs': seq<Block>,
               pre: seq<Block>, mid: seq<Block>, mid': seq<Block>, post: seq<Block>, b: nat, e: nat, last: nat)
    returns (a: map<nat, seq<nat>>, m: map<nat, seq<nat>>, m': map<nat, seq<nat>>, p: map<nat, seq<nat>>)
    requires t.word > 0 && Laid(t, mem, 0, 0, bs)
    requires bs == pre + (mid + post) && bs' == pre + (mid' + post)
    requires |mid| > 0 && |mid'| > 0 && b == Span(t, pre) && e == b + Span(t, mid) == b + Span(t, mid')
    requires last == LastSize(0, mid') && Patched(mem, mem', b, e, last, post)
    requires Laid(t, mem', b, LastSize(0, pre), mid')
    ensures e <= |mem|
    ensures m == Live(t, mem, b, mid) && m' == Live(t, mem', b, mid')
    ensures Apart(a, m) && Apart(a, m') && Apart(a, p) && Apart(m, p) && Apart(m', p)
    ensures Span(t, bs') == Span(t, bs) <= |mem|
    ensures Laid(t, mem', 0, 0, bs')
    ensures Live(t, mem, 0, bs) == a + (m + p)
    ensures Live(t, mem', 0, bs') == a + (m' + p)
  {
    hide Live, Laid, Span;
    Cut(t, mem, 0, 0, pre, mid + post);
    Cut(t, mem, b, LastSize(0, pre), mid, post);
    RunFrame(t, mem, mem', e, LastSize(0, mid), last, post);
    Join(t, mem', b, LastSize(0, pre), mid', post);
    a := Retail(t, mem, mem', pre, mid + post, mid' + post);
    m, m', p := Live(t, mem, b, mid), Live(t, mem', b, mid'), Live(t, mem, e, post);
  }
}
