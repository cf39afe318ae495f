/** What each heap operation of rat/src/rat_ralcGen.c does to the sequence of blocks, and what
    every run of them keeps. Nothing here mentions the stored headers; `BlockLayout` does. */
module BlockMoves {
  import opened Alignment
  import opened BlockLayout
  import opened Options

  /** The lowest hole of at least `need` bytes; `|bs|` when there is none. */
  ghost function FirstFit(bs: seq<Block>, need: nat): (k: nat)
    ensures k <= |bs|
    ensures forall j :: 0 <= j < k ==> !(bs[j].unused && bs[j].size >= need)
    ensures k < |bs| ==> bs[k].unused && bs[k].size >= need
  {
    if bs == [] then 0
    else if bs[0].unused && bs[0].size >= need then 0
    else 1 + FirstFit(bs[1..], need)
  }

  /** `available` payload bytes cut into a live block and, where a header fits, a hole. */
  ghost function Carve(t: Target, available: nat, used: nat): (bs: seq<Block>)
    requires used <= available
    ensures |bs| > 0 && !bs[0].unused && used <= bs[0].size
  {
    if available - used >= t.Header()
    then [Block(used, false), Block(available - used - t.Header(), true)]
    else [Block(available, false)]
  }

  /** Payload bytes block `i` can use without moving: its own and those of a hole behind it. */
  ghost function Reach(t: Target, bs: seq<Block>, i: nat): nat
    requires i < |bs|
  {
    bs[i].size + if i + 1 < |bs| && bs[i + 1].unused then t.Header() + bs[i + 1].size else 0
  }

  /** The first block behind block `i` that `Reach` does not take in. */
  ghost function Beyond(bs: seq<Block>, i: nat): (hi: nat)
    requires i < |bs|
    ensures i < hi <= |bs|
  {
    if i + 1 < |bs| && bs[i + 1].unused then i + 2 else i + 1
  }

  /** Where the hole left by block `i` starts once it is merged with a hole before it. */
  ghost function MergeStart(bs: seq<Block>, i: nat): (lo: nat)
    requires i < |bs|
    ensures lo <= i
  {
    if i > 0 && bs[i - 1].unused then i - 1 else i
  }

  /** Bytes of the hole that freeing block `i` leaves. */
  ghost function MergedSize(t: Target, bs: seq<Block>, i: nat): nat
    requires i < |bs|
  {
    var lo := MergeStart(bs, i);
    (if lo < i then t.Header() + bs[lo].size else 0) + Reach(t, bs, i)
  }

  /** The blocks after block `i` is freed: merged both ways, or cut off at the end. */
  ghost function Coalesced(t: Target, bs: seq<Block>, i: nat): seq<Block>
    requires i < |bs|
  {
    var lo := MergeStart(bs, i);
    if i + 1 == |bs| then bs[..lo]
    else bs[..lo] + ([Block(MergedSize(t, bs, i), true)] + bs[Beyond(bs, i)..])
  }

  /** The index of the block whose payload starts at `ptr`, counting from address `off`. */
  ghost function IndexAt(t: Target, off: nat, bs: seq<Block>, ptr: nat): (i: nat)
    ensures i <= |bs|
    decreases |bs|
  {
    if bs == [] || ptr == off + t.Header() then 0
    else 1 + IndexAt(t, off + t.Header() + bs[0].size, bs[1..], ptr)
  }

  /** The address of the payload of block `i`. */
  ghost function PayloadAt(t: Target, bs: seq<Block>, i: nat): nat
    requires i < |bs|
  {
    Span(t, bs[..i]) + t.Header()
  }

  /** The heap and the address that a request for `need` bytes yields, if any. */
  ghost function Placed(t: Target, cap: nat, bs: seq<Block>, need: nat): Option<(seq<Block>, nat)> {
    var k := FirstFit(bs, need);
    if k < |bs| then
      Some((bs[..k] + (Carve(t, bs[k].size, need) + bs[k + 1..]), PayloadAt(t, bs, k)))
    else if cap < Span(t, bs) + t.Header() + need then None
    else Some((bs + [Block(need, false)], Span(t, bs) + t.Header()))
  }

  /** The heap and the address that resizing live block `i` to `need` bytes yields, if any. */
  ghost function Resized(t: Target, cap: nat, bs: seq<Block>, i: nat, need: nat): Option<(seq<Block>, nat)>
    requires i < |bs|
  {
    var ptr := PayloadAt(t, bs, i);
    if i + 1 == |bs| && Span(t, bs) - bs[i].size + need <= cap then
      Some((bs[..i] + [Block(need, false)], ptr))
    else if Reach(t, bs, i) >= need then
      Some((bs[..i] + (Carve(t, Reach(t, bs, i), need) + bs[Beyond(bs, i)..]), ptr))
    else
      match Placed(t, cap, bs, need)
      case None => None
      case Some((bs', ptr')) =>
        var j := IndexAt(t, 0, bs', ptr);
        if j < |bs'| then Some((Coalesced(t, bs', j), ptr')) else None
  }

  // ---- Addresses -------------------------------------------------------------------------

  lemma {:induction false} IndexOfPayload(t: Target, off: nat, bs: seq<Block>, i: nat)
    requires t.word > 0 && i < |bs|
    ensures IndexAt(t, off, bs, off + Span(t, bs[..i]) + t.Header()) == i
    decreases |bs|
  {
    if i > 0 {
      assert bs[..i][1..] == bs[1..][..i - 1];
      IndexOfPayload(t, off + t.Header() + bs[0].size, bs[1..], i - 1);
    }
  }

  lemma {:induction false} PayloadOfLive(t: Target, off: nat, bs: seq<Block>, ptr: nat)
    requires t.word > 0 && ptr in LiveAddrs(t, off, bs)
    ensures var i := IndexAt(t, off, bs, ptr);
            i < |bs| && !bs[i].unused && ptr == off + Span(t, bs[..i]) + t.Header()
    decreases |bs|
  {
    var next := off + t.Header() + bs[0].size;
    AddrsBounds(t, next, bs[1..]);
    if ptr != off + t.Header() {
      PayloadOfLive(t, next, bs[1..], ptr);
      var i := IndexAt(t, off, bs, ptr);
      assert bs[..i][1..] == bs[1..][..i - 1];
    }
  }

  /** Among holes, one live block is the only one with a live address. */
  lemma {:induction false} OnlyLive(t: Target, off: nat, bs: seq<Block>, i: nat)
    requires t.word > 0 && i < |bs| && !bs[i].unused
    requires forall j :: 0 <= j < |bs| && j != i ==> bs[j].unused
    ensures LiveAddrs(t, off, bs) == {off + Span(t, bs[..i]) + t.Header()}
    decreases |bs|
  {
    var next := off + t.Header() + bs[0].size;
    if i == 0 {
      NoneLive(t, next, bs[1..]);
    } else {
      assert bs[..i][1..] == bs[1..][..i - 1];
      OnlyLive(t, next, bs[1..], i - 1);
    }
  }

  lemma {:induction false} NoneLive(t: Target, off: nat, bs: seq<Block>)
    requires forall j :: 0 <= j < |bs| ==> bs[j].unused
    ensures LiveAddrs(t, off, bs) == {}
    decreases |bs|
  {
    if bs != [] {
      NoneLive(t, off + t.Header() + bs[0].size, bs[1..]);
    }
  }

  /** The addresses before, in and behind the middle of a heap, which are all different. */
  ghost predicate ThreeParts(t: Target, pre: seq<Block>, mid: seq<Block>, post: seq<Block>) {
    var b, o := Span(t, pre), Span(t, pre) + Span(t, mid);
    && LiveAddrs(t, 0, pre + (mid + post))
       == LiveAddrs(t, 0, pre) + (LiveAddrs(t, b, mid) + LiveAddrs(t, o, post))
    && LiveAddrs(t, 0, pre) !! LiveAddrs(t, b, mid)
    && LiveAddrs(t, 0, pre) !! LiveAddrs(t, o, post)
    && LiveAddrs(t, b, mid) !! LiveAddrs(t, o, post)
    && Span(t, pre + (mid + post)) == o + Span(t, post)
  }

  lemma {:induction false} IntoThree(t: Target, pre: seq<Block>, mid: seq<Block>, post: seq<Block>)
    requires t.word > 0
    ensures ThreeParts(t, pre, mid, post)
  {
    hide LiveAddrs, Span;
    AddrsConcat(t, 0, pre, mid + post);
    AddrsConcat(t, Span(t, pre), mid, post);
    SpanConcat(t, pre, mid + post);
    SpanConcat(t, mid, post);
  }

  lemma {:induction false} CarveSpan(t: Target, off: nat, available: nat, used: nat)
    requires t.word > 0 && used <= available
    ensures Span(t, Carve(t, available, used)) == t.Header() + available
    ensures LiveAddrs(t, off, Carve(t, available, used)) == {off + t.Header()}
  {
    var bs := Carve(t, available, used);
    OnlyLive(t, off, bs, 0);
    assert bs[1..] == [] || (bs[1..] == [bs[1]] && bs[1..][1..] == []);
  }

  // ---- Every operation keeps the heap well formed ------------------------------------------

  /** What holds between operations. */
  ghost predicate Good(t: Target, cap: nat, bs: seq<Block>) {
    t.Ok() && WellFormed(t, bs) && Span(t, bs) <= cap
  }

  lemma {:induction false} WellFormedSplice(t: Target, pre: seq<Block>, mid: seq<Block>, mid': seq<Block>,
                                            post: seq<Block>)
    requires t.Ok() && WellFormed(t, pre + (mid + post)) && mid' != []
    requires forall i :: 0 <= i < |mid'| ==> Multiple(t.alignment, mid'[i].size)
    requires forall i :: 0 <= i < |mid'| - 1 ==> mid'[i].unused ==> !mid'[i + 1].unused
    requires mid'[|mid'| - 1].unused ==> |post| > 0 && !post[0].unused
    requires mid'[0].unused && |pre| > 0 ==> !pre[|pre| - 1].unused
    ensures WellFormed(t, pre + (mid' + post))
  {
    var before, after := pre + (mid + post), pre + (mid' + post);
    var d := |mid'| - |mid|;
    forall i | 0 <= i < |after|
      ensures Multiple(t.alignment, after[i].size)
      ensures after[i].unused ==> HoleEndsAt(after, i + 1)
    {
      if i < |pre| {
        assert after[i] == before[i];
        assert i + 1 < |pre| ==> after[i + 1] == before[i + 1];
      } else if i < |pre| + |mid'| {
        assert after[i] == mid'[i - |pre|];
      } else {
        assert after[i] == before[i - d];
        assert after[i].unused ==> HoleEndsAt(before, i - d + 1);
      }
    }
  }

  lemma {:induction false} CarveAligned(t: Target, available: nat, used: nat)
    requires t.Ok() && used <= available && Multiple(t.alignment, available) && Multiple(t.alignment, used)
    ensures forall b :: b in Carve(t, available, used) ==> Multiple(t.alignment, b.size)
  {
    MultipleSum(t.alignment, used, available - used);
    if available - used >= t.Header() {
      MultipleSum(t.alignment, t.Header(), available - used - t.Header());
    }
  }

  lemma {:induction false} ReachAligned(t: Target, bs: seq<Block>, i: nat)
    requires t.Ok() && WellFormed(t, bs) && i < |bs|
    ensures Multiple(t.alignment, Reach(t, bs, i))
  {
    if i + 1 < |bs| && bs[i + 1].unused {
      MultipleSum(t.alignment, bs[i].size, t.Header() + bs[i + 1].size);
      MultipleSum(t.alignment, t.Header(), bs[i + 1].size);
    }
  }

  lemma {:induction false} SpanNone(t: Target)
    ensures Span(t, []) == 0
  {
  }

  lemma {:induction false} SpanOne(t: Target, b: Block)
    ensures Span(t, [b]) == t.Header() + b.size
  {
    assert [b][1..] == [];
  }

  /** A block with the hole behind it covers its reach. */
  lemma {:induction false} ReachSpan(t: Target, bs: seq<Block>, i: nat)
    requires i < |bs|
    ensures Span(t, bs[i..Beyond(bs, i)]) == t.Header() + Reach(t, bs, i)
  {
    SpanOne(t, bs[i]);
    if Beyond(bs, i) == i + 2 {
      SpanOne(t, bs[i + 1]);
      SpanConcat(t, [bs[i]], [bs[i + 1]]);
      assert bs[i..i + 2] == [bs[i]] + [bs[i + 1]];
    } else {
      assert bs[i..i + 1] == [bs[i]];
    }
  }

  /** Growing a live block over the room behind it and giving the rest back keeps the heap well
      formed. */
  lemma {:induction false} CarveGood(t: Target, cap: nat, pre: seq<Block>, mid: seq<Block>, post: seq<Block>,
                                     available: nat, need: nat)
    requires Good(t, cap, pre + (mid + post))
    requires Multiple(t.alignment, available) && Multiple(t.alignment, need) && need <= available
    requires Span(t, mid) == t.Header() + available
    requires available - need >= t.Header() ==> |post| > 0 && !post[0].unused
    ensures Good(t, cap, pre + (Carve(t, available, need) + post))
  {
    var mid' := Carve(t, available, need);
    CarveAligned(t, available, need);
    CarveSpan(t, Span(t, pre), available, need);
    WellFormedSplice(t, pre, mid, mid', post);
    IntoThree(t, pre, mid, post);
    IntoThree(t, pre, mid', post);
  }

  lemma {:induction false} SwapMiddle(a: set<nat>, m: set<nat>, m': set<nat>, p: set<nat>)
    requires a !! m && m !! p
    ensures a + (m' + p) == (a + (m + p)) - m + m'
  {
  }

  lemma {:induction false} CarveAddrs(t: Target, pre: seq<Block>, mid: seq<Block>, post: seq<Block>, available: nat,
                                      need: nat)
    requires t.word > 0 && need <= available
    requires Span(t, mid) == t.Header() + available
    ensures var b := Span(t, pre);
            LiveAddrs(t, 0, pre + (Carve(t, available, need) + post)) ==
            LiveAddrs(t, 0, pre + (mid + post)) - LiveAddrs(t, b, mid) + {b + t.Header()}
    ensures Span(t, pre) + t.Header() !in LiveAddrs(t, 0, pre + (mid + post)) - LiveAddrs(t, Span(t, pre), mid)
  {
    hide LiveAddrs, Span, Carve;
    CarveSpan(t, Span(t, pre), available, need);
    IntoThree(t, pre, mid, post);
    IntoThree(t, pre, Carve(t, available, need), post);
    var b, o := Span(t, pre), Span(t, pre) + Span(t, mid);
    SwapMiddle(LiveAddrs(t, 0, pre), LiveAddrs(t, b, mid), {b + t.Header()}, LiveAddrs(t, o, post));
  }

  lemma {:induction false} FittedGood(t: Target, cap: nat, bs: seq<Block>, k: nat, need: nat)
    requires Good(t, cap, bs) && Multiple(t.alignment, need)
    requires k < |bs| && bs[k].unused && bs[k].size >= need
    ensures Good(t, cap, bs[..k] + (Carve(t, bs[k].size, need) + bs[k + 1..]))
  {
    var pre, post := bs[..k], bs[k + 1..];
    assert bs == pre + ([bs[k]] + post);
    SpanOne(t, bs[k]);
    assert HoleEndsAt(bs, k + 1);
    CarveGood(t, cap, pre, [bs[k]], post, bs[k].size, need);
  }

  lemma {:induction false} AppendedGood(t: Target, cap: nat, pre: seq<Block>, rest: seq<Block>, need: nat)
    requires Good(t, cap, pre + rest) && Multiple(t.alignment, need)
    requires Span(t, pre) + t.Header() + need <= cap
    ensures Good(t, cap, pre + [Block(need, false)])
  {
    var mid' := [Block(need, false)];
    assert pre + mid' == pre + (mid' + []);
    assert pre + rest == pre + (rest + []);
    WellFormedSplice(t, pre, rest, mid', []);
    SpanConcat(t, pre, mid');
    SpanOne(t, Block(need, false));
  }

  /** A granted request keeps the heap well formed. */
  lemma {:induction false} PlacedGood(t: Target, cap: nat, bs: seq<Block>, need: nat)
    requires Good(t, cap, bs) && Multiple(t.alignment, need)
    ensures var r := Placed(t, cap, bs, need); r.Some? ==> Good(t, cap, r.value.0)
  {
    var k := FirstFit(bs, need);
    if k < |bs| {
      FittedGood(t, cap, bs, k, need);
    } else if cap >= Span(t, bs) + t.Header() + need {
      assert bs + [] == bs;
      AppendedGood(t, cap, bs, [], need);
    }
  }

  /** A granted request yields one new live address and takes none away. */
  lemma {:induction false} PlacedAddrs(t: Target, cap: nat, bs: seq<Block>, need: nat)
    requires t.word > 0
    ensures var r := Placed(t, cap, bs, need);
            r.Some? ==>
              && r.value.1 !in LiveAddrs(t, 0, bs)
              && LiveAddrs(t, 0, r.value.0) == LiveAddrs(t, 0, bs) + {r.value.1}
  {
    hide LiveAddrs, Span, Carve;
    var k := FirstFit(bs, need);
    if k < |bs| {
      TakenAddrs(t, bs, k, need);
    } else {
      AppendedAddrs(t, bs, need);
    }
  }

  lemma {:induction false} TakenAddrs(t: Target, bs: seq<Block>, k: nat, need: nat)
    requires t.word > 0 && k < |bs| && bs[k].unused && need <= bs[k].size
    ensures var ptr, bs' := PayloadAt(t, bs, k), bs[..k] + (Carve(t, bs[k].size, need) + bs[k + 1..]);
            ptr !in LiveAddrs(t, 0, bs) && LiveAddrs(t, 0, bs') == LiveAddrs(t, 0, bs) + {ptr}
  {
    hide LiveAddrs, Span, Carve;
    var pre, post := bs[..k], bs[k + 1..];
    assert bs == pre + ([bs[k]] + post);
    SpanOne(t, bs[k]);
    NoneLive(t, Span(t, pre), [bs[k]]);
    CarveAddrs(t, pre, [bs[k]], post, bs[k].size, need);
  }

  lemma {:induction false} AppendedAddrs(t: Target, bs: seq<Block>, need: nat)
    requires t.word > 0
    ensures var ptr := Span(t, bs) + t.Header();
            && ptr !in LiveAddrs(t, 0, bs)
            && LiveAddrs(t, 0, bs + [Block(need, false)]) == LiveAddrs(t, 0, bs) + {ptr}
  {
    hide LiveAddrs, Span;
    AddrsConcat(t, 0, bs, [Block(need, false)]);
    SpanNone(t);
    assert [Block(need, false)][..0] == [];
    OnlyLive(t, Span(t, bs), [Block(need, false)], 0);
    AddrsBounds(t, 0, bs);
  }

  lemma {:induction false} FreedGood(t: Target, cap: nat, bs: seq<Block>, i: nat)
    requires Good(t, cap, bs) && i < |bs| && !bs[i].unused
    ensures Good(t, cap, Coalesced(t, bs, i))
  {
    var lo, hi := MergeStart(bs, i), Beyond(bs, i);
    var pre, mid, post := bs[..lo], bs[lo..hi], bs[hi..];
    assert bs == pre + (mid + post);
    IntoThree(t, pre, mid, post);
    if i + 1 < |bs| {
      var mid' := [Block(MergedSize(t, bs, i), true)];
      MergedSpan(t, bs, i);
      MergedAligned(t, bs, i);
      SpanOne(t, mid'[0]);
      assert |post| > 0;
      WellFormedSplice(t, pre, mid, mid', post);
      IntoThree(t, pre, mid', post);
    } else {
      forall j | 0 <= j < lo
        ensures Multiple(t.alignment, pre[j].size) && (pre[j].unused ==> HoleEndsAt(pre, j + 1))
      {
        assert pre[j] == bs[j] && (bs[j].unused ==> HoleEndsAt(bs, j + 1));
      }
    }
  }

  lemma {:induction false} MergeAddrs(t: Target, pre: seq<Block>, mid: seq<Block>, post: seq<Block>, i: nat, hole: nat)
    requires t.word > 0 && i < |mid| && !mid[i].unused
    requires forall j :: 0 <= j < |mid| && j != i ==> mid[j].unused
    requires Span(t, mid) == t.Header() + hole
    ensures var rest := LiveAddrs(t, 0, pre + (mid + post)) - {Span(t, pre) + Span(t, mid[..i]) + t.Header()};
            && LiveAddrs(t, 0, pre + ([Block(hole, true)] + post)) == rest
            && (|post| == 0 ==> LiveAddrs(t, 0, pre) == rest)
  {
    var mid' := [Block(hole, true)];
    IntoThree(t, pre, mid, post);
    OnlyLive(t, Span(t, pre), mid, i);
    SpanOne(t, mid'[0]);
    IntoThree(t, pre, mid', post);
    NoneLive(t, Span(t, pre), mid');
    var b, o := Span(t, pre), Span(t, pre) + Span(t, mid);
    SwapMiddle(LiveAddrs(t, 0, pre), LiveAddrs(t, b, mid), {}, LiveAddrs(t, o, post));
  }

  /** The blocks that freeing block `i` merges, and those before and behind them. */
  lemma {:induction false} FreedParts(t: Target, bs: seq<Block>, i: nat)
    returns (pre: seq<Block>, mid: seq<Block>, post: seq<Block>, at: nat)
    requires i < |bs| && !bs[i].unused
    ensures bs == pre + (mid + post) && pre == bs[..MergeStart(bs, i)] && mid == bs[MergeStart(bs, i)..Beyond(bs, i)]
    ensures at < |mid| && !mid[at].unused && (forall j :: 0 <= j < |mid| && j != at ==> mid[j].unused)
    ensures bs[..i] == pre + mid[..at]
    ensures i + 1 == |bs| ==> post == []
    ensures Coalesced(t, bs, i) == if i + 1 == |bs| then pre else pre + ([Block(MergedSize(t, bs, i), true)] + post)
  {
    hide MergedSize;
    var lo, hi := MergeStart(bs, i), Beyond(bs, i);
    pre, mid, post, at := bs[..lo], bs[lo..hi], bs[hi..], i - lo;
    assert bs == pre + (mid + post);
    assert bs[..i] == pre + mid[..at];
  }

  /** Freeing takes away exactly the freed address. */
  lemma {:induction false} FreedAddrs(t: Target, bs: seq<Block>, i: nat)
    requires t.word > 0 && i < |bs| && !bs[i].unused
    ensures LiveAddrs(t, 0, Coalesced(t, bs, i)) == LiveAddrs(t, 0, bs) - {PayloadAt(t, bs, i)}
  {
    hide LiveAddrs, Span, MergedSize, MergeStart, Beyond, Coalesced;
    var pre, mid, post, at := FreedParts(t, bs, i);
    SpanConcat(t, pre, mid[..at]);
    MergedSpan(t, bs, i);
    MergeAddrs(t, pre, mid, post, at, MergedSize(t, bs, i));
  }

  lemma {:induction false} MergedSpan(t: Target, bs: seq<Block>, i: nat)
    requires i < |bs|
    ensures Span(t, bs[MergeStart(bs, i)..Beyond(bs, i)]) == t.Header() + MergedSize(t, bs, i)
  {
    ReachSpan(t, bs, i);
    var mid := bs[MergeStart(bs, i)..Beyond(bs, i)];
    assert MergeStart(bs, i) < i ==> mid[1..] == bs[i..Beyond(bs, i)];
  }

  lemma {:induction false} MergedAligned(t: Target, bs: seq<Block>, i: nat)
    requires t.Ok() && WellFormed(t, bs) && i < |bs|
    ensures Multiple(t.alignment, MergedSize(t, bs, i))
  {
    ReachAligned(t, bs, i);
    var lo := MergeStart(bs, i);
    if lo < i {
      MultipleSum(t.alignment, t.Header(), bs[lo].size);
      MultipleSum(t.alignment, t.Header() + bs[lo].size, Reach(t, bs, i));
    }
  }

  /** A block away from a replaced one keeps its address. */
  lemma {:induction false} IndexAfterSwap(t: Target, bs: seq<Block>, k: nat, mid': seq<Block>, i: nat) returns (j: nat)
    requires t.word > 0 && k < |bs| && i < |bs| && i != k && Span(t, mid') == Span(t, [bs[k]])
    ensures var bs' := bs[..k] + (mid' + bs[k + 1..]);
            j < |bs'| && j == IndexAt(t, 0, bs', PayloadAt(t, bs, i)) && bs'[j] == bs[i]
  {
    var bs' := bs[..k] + (mid' + bs[k + 1..]);
    if i < k {
      j := i;
      assert bs'[..i] == bs[..i];
    } else {
      j := i - 1 + |mid'|;
      var between := bs[k + 1..i];
      assert bs[..i] == bs[..k] + ([bs[k]] + between);
      assert bs'[..j] == bs[..k] + (mid' + between);
      SpanConcat(t, bs[..k], [bs[k]] + between);
      SpanConcat(t, [bs[k]], between);
      SpanConcat(t, bs[..k], mid' + between);
      SpanConcat(t, mid', between);
    }
    IndexOfPayload(t, 0, bs', j);
  }

  /** A granted request leaves every live block where and as large as it was. */
  lemma {:induction false} PlacedKeepsBlock(t: Target, cap: nat, bs: seq<Block>, need: nat, i: nat)
    requires t.word > 0 && i < |bs| && !bs[i].unused
    ensures var r := Placed(t, cap, bs, need);
            r.Some? ==>
              var j := IndexAt(t, 0, r.value.0, PayloadAt(t, bs, i));
              j < |r.value.0| && r.value.0[j] == bs[i] && PayloadAt(t, r.value.0, j) == PayloadAt(t, bs, i)
  {
    var r := Placed(t, cap, bs, need);
    var k := FirstFit(bs, need);
    if k < |bs| {
      CarveSpan(t, 0, bs[k].size, need);
      SpanOne(t, bs[k]);
      var j := IndexAfterSwap(t, bs, k, Carve(t, bs[k].size, need), i);
    } else if r.Some? {
      assert r.value.0[..i] == bs[..i];
      IndexOfPayload(t, 0, r.value.0, i);
    }
    if r.Some? {
      PlacedAddrs(t, cap, bs, need);
      LivePayload(t, bs, i);
      PayloadOfLive(t, 0, r.value.0, PayloadAt(t, bs, i));
    }
  }

  lemma {:induction false} LivePayload(t: Target, bs: seq<Block>, i: nat)
    requires t.word > 0 && i < |bs| && !bs[i].unused
    ensures PayloadAt(t, bs, i) in LiveAddrs(t, 0, bs)
  {
    assert bs == bs[..i] + bs[i..];
    AddrsConcat(t, 0, bs[..i], bs[i..]);
  }

  lemma {:induction false} ReachedGood(t: Target, cap: nat, bs: seq<Block>, i: nat, need: nat)
    requires Good(t, cap, bs) && i < |bs| && !bs[i].unused && Multiple(t.alignment, need)
    requires i + 1 < |bs| && Reach(t, bs, i) >= need
    ensures Good(t, cap, bs[..i] + (Carve(t, Reach(t, bs, i), need) + bs[Beyond(bs, i)..]))
  {
    var pre, mid, post := bs[..i], bs[i..Beyond(bs, i)], bs[Beyond(bs, i)..];
    assert bs == pre + (mid + post);
    ReachSpan(t, bs, i);
    ReachAligned(t, bs, i);
    assert bs[i + 1].unused ==> HoleEndsAt(bs, i + 2);
    CarveGood(t, cap, pre, mid, post, Reach(t, bs, i), need);
  }

  /** A granted resize keeps the heap well formed. */
  lemma {:induction false} ResizedGood(t: Target, cap: nat, bs: seq<Block>, i: nat, need: nat)
    requires Good(t, cap, bs) && i < |bs| && !bs[i].unused && Multiple(t.alignment, need)
    ensures var r := Resized(t, cap, bs, i, need); r.Some? ==> Good(t, cap, r.value.0)
  {
    LastSpan(t, bs, i);
    if i + 1 == |bs| && Span(t, bs) - bs[i].size + need <= cap {
      assert bs == bs[..i] + [bs[i]];
      AppendedGood(t, cap, bs[..i], [bs[i]], need);
    } else if Reach(t, bs, i) >= need {
      ReachedGood(t, cap, bs, i, need);
    } else {
      var p := Placed(t, cap, bs, need);
      if p.Some? {
        PlacedGood(t, cap, bs, need);
        PlacedKeepsBlock(t, cap, bs, need, i);
        FreedGood(t, cap, p.value.0, IndexAt(t, 0, p.value.0, PayloadAt(t, bs, i)));
      }
    }
  }

  lemma {:induction false} LastSpan(t: Target, bs: seq<Block>, i: nat)
    requires i < |bs|
    ensures Span(t, bs) >= PayloadAt(t, bs, i) + bs[i].size
    ensures i + 1 == |bs| ==> Span(t, bs) == PayloadAt(t, bs, i) + bs[i].size
  {
    assert bs == bs[..i] + ([bs[i]] + bs[i + 1..]);
    SpanConcat(t, bs[..i], [bs[i]] + bs[i + 1..]);
    SpanConcat(t, [bs[i]], bs[i + 1..]);
    SpanOne(t, bs[i]);
    assert i + 1 == |bs| ==> bs[i + 1..] == [];
  }

  lemma {:induction false} TailAddrs(t: Target, pre: seq<Block>, last: Block, last': Block)
    requires t.word > 0 && !last.unused && !last'.unused
    ensures Span(t, pre) + t.Header() in LiveAddrs(t, 0, pre + [last])
    ensures LiveAddrs(t, 0, pre + [last']) == LiveAddrs(t, 0, pre + [last])
  {
    AddrsConcat(t, 0, pre, [last]);
    AddrsConcat(t, 0, pre, [last']);
    OnlyLive(t, Span(t, pre), [last], 0);
    OnlyLive(t, Span(t, pre), [last'], 0);
  }

  lemma {:induction false} ReachedAddrs(t: Target, bs: seq<Block>, i: nat, need: nat)
    requires t.word > 0 && i < |bs| && !bs[i].unused && need <= Reach(t, bs, i)
    ensures LiveAddrs(t, 0, bs[..i] + (Carve(t, Reach(t, bs, i), need) + bs[Beyond(bs, i)..])) == LiveAddrs(t, 0, bs)
  {
    var pre, mid, post := bs[..i], bs[i..Beyond(bs, i)], bs[Beyond(bs, i)..];
    assert bs == pre + (mid + post);
    ReachSpan(t, bs, i);
    OnlyLive(t, Span(t, pre), mid, 0);
    CarveAddrs(t, pre, mid, post, Reach(t, bs, i), need);
    LivePayload(t, bs, i);
  }

  /** A granted resize exchanges the old address for the new one, which is the old one or fresh. */
  lemma {:induction false} ResizedAddrs(t: Target, cap: nat, bs: seq<Block>, i: nat, need: nat)
    requires t.word > 0 && i < |bs| && !bs[i].unused
    ensures var r := Resized(t, cap, bs, i, need);
            var ptr := PayloadAt(t, bs, i);
            r.Some? ==>
              && (r.value.1 == ptr || r.value.1 !in LiveAddrs(t, 0, bs))
              && LiveAddrs(t, 0, r.value.0) == LiveAddrs(t, 0, bs) - {ptr} + {r.value.1}
  {
    var ptr := PayloadAt(t, bs, i);
    LivePayload(t, bs, i);
    if i + 1 == |bs| && Span(t, bs) - bs[i].size + need <= cap {
      assert bs == bs[..i] + [bs[i]];
      TailAddrs(t, bs[..i], bs[i], Block(need, false));
    } else if Reach(t, bs, i) >= need {
      ReachedAddrs(t, bs, i, need);
    } else {
      var p := Placed(t, cap, bs, need);
      if p.Some? {
        PlacedAddrs(t, cap, bs, need);
        PlacedKeepsBlock(t, cap, bs, need, i);
        FreedAddrs(t, p.value.0, IndexAt(t, 0, p.value.0, ptr));
      }
    }
  }

  /** Addresses grow with the index, so payloads of different blocks do not overlap. */
  lemma {:induction false} PayloadsIncrease(t: Target, bs: seq<Block>, i: nat, j: nat)
    requires i < j < |bs|
    ensures PayloadAt(t, bs, i) + bs[i].size + t.Header() <= PayloadAt(t, bs, j)
  {
    assert bs[..j] == bs[..i] + ([bs[i]] + bs[i + 1..j]);
    SpanConcat(t, bs[..i], [bs[i]] + bs[i + 1..j]);
    SpanConcat(t, [bs[i]], bs[i + 1..j]);
    SpanOne(t, bs[i]);
  }

  /** Blocks cover a multiple of the alignment. */
  lemma {:induction false} SpanAligned(t: Target, bs: seq<Block>)
    requires t.Ok() && forall i :: 0 <= i < |bs| ==> Multiple(t.alignment, bs[i].size)
    ensures Multiple(t.alignment, Span(t, bs))
  {
    if bs != [] {
      SpanAligned(t, bs[1..]);
      MultipleSum(t.alignment, t.Header(), bs[0].size + Span(t, bs[1..]));
      MultipleSum(t.alignment, bs[0].size, Span(t, bs[1..]));
    }
  }

  /** Every payload starts at a multiple of the alignment. */
  lemma {:induction false} PayloadAligned(t: Target, bs: seq<Block>, i: nat)
    requires t.Ok() && WellFormed(t, bs) && i < |bs|
    ensures Multiple(t.alignment, PayloadAt(t, bs, i))
  {
    SpanAligned(t, bs[..i]);
    MultipleSum(t.alignment, Span(t, bs[..i]), t.Header());
  }

  /** What is given away when a block is cut is less than a header. */
  lemma {:induction false} CarveIsTight(t: Target, available: nat, need: nat)
    requires t.word > 0 && need <= available
    ensures Carve(t, available, need)[0].size < need + t.Header()
  {
  }

  // ---- Accounting --------------------------------------------------------------------------

  /** How many of the blocks are holes, or are not. */
  ghost function Count(bs: seq<Block>, unused: bool): nat {
    if bs == [] then 0 else (if bs[0].unused == unused then 1 else 0) + Count(bs[1..], unused)
  }

  /** The payload bytes in holes, or in live blocks. */
  ghost function Bytes(bs: seq<Block>, unused: bool): nat {
    if bs == [] then 0 else (if bs[0].unused == unused then bs[0].size else 0) + Bytes(bs[1..], unused)
  }

  lemma {:induction false} CountSnoc(bs: seq<Block>, b: Block, unused: bool)
    ensures Count(bs + [b], unused) == Count(bs, unused) + (if b.unused == unused then 1 else 0)
    ensures Bytes(bs + [b], unused) == Bytes(bs, unused) + (if b.unused == unused then b.size else 0)
  {
    if bs == [] {
      assert bs + [b] == [b];
    } else {
      assert (bs + [b])[1..] == bs[1..] + [b];
      CountSnoc(bs[1..], b, unused);
    }
  }

  /** Payload and headers add up. */
  lemma {:induction false} BytesAddUp(t: Target, bs: seq<Block>)
    ensures Span(t, bs) == Bytes(bs, true) + Bytes(bs, false) + t.Header() * |bs|
  {
    if bs != [] {
      BytesAddUp(t, bs[1..]);
      assert t.Header() * |bs| == t.Header() * (|bs| - 1) + t.Header();
    }
  }

  lemma {:induction false} AddOne(s: set<nat>, x: nat)
    ensures {} + s == s
    ensures x !in s ==> |{x} + s| == |s| + 1
  {
    if x !in s {
      assert ({x} + s) - {x} == s;
    }
  }

  /** Live blocks are counted by their addresses, and all blocks are live or holes. */
  lemma {:induction false} CountsAddUp(t: Target, off: nat, bs: seq<Block>)
    requires t.word > 0
    ensures |LiveAddrs(t, off, bs)| == Count(bs, false) && Count(bs, false) + Count(bs, true) == |bs|
    decreases |bs|
  {
    if bs != [] {
      var data := off + t.Header();
      CountsAddUp(t, data + bs[0].size, bs[1..]);
      AddrsBounds(t, data + bs[0].size, bs[1..]);
      var rest := LiveAddrs(t, data + bs[0].size, bs[1..]);
      assert data !in rest;
      AddOne(rest, data);
    }
  }

  // ---- When a request is refused -------------------------------------------------------------

  ghost predicate Fits(b: Block, need: nat) {
    b.unused && b.size >= need
  }

  /** No hole is large enough, and the end of the buffer is too near. */
  ghost predicate NoRoom(t: Target, cap: nat, bs: seq<Block>, need: nat) {
    && (forall j :: 0 <= j < |bs| ==> !Fits(bs[j], need))
    && cap < Span(t, bs) + t.Header() + need
  }

  /** An allocation is refused exactly if there is no room. Otherwise it yields the lowest hole that
      is large enough, and only without one the end of the used buffer. */
  lemma {:induction false} FirstFitIsComplete(t: Target, cap: nat, bs: seq<Block>, need: nat)
    ensures var r := Placed(t, cap, bs, need);
            && (r.None? <==> NoRoom(t, cap, bs, need))
            && (forall k :: 0 <= k < |bs| && Fits(bs[k], need) && (forall j :: 0 <= j < k ==> !Fits(bs[j], need)) ==>
                  r.Some? && r.value.1 == PayloadAt(t, bs, k))
            && (r.Some? && (forall j :: 0 <= j < |bs| ==> !Fits(bs[j], need)) ==> r.value.1 == Span(t, bs) + t.Header())
  {
    hide Span, Carve;
    var f := FirstFit(bs, need);
    assert f < |bs| ==> Fits(bs[f], need);
    assert forall j :: 0 <= j < f ==> !Fits(bs[j], need);
  }

  /** In an empty heap the first block stands behind a header of two words. */
  lemma {:induction false} FirstBlock(t: Target, cap: nat, need: nat)
    ensures Placed(t, cap, [], need) ==
            if cap < 2 * t.word + need then None else Some(([Block(need, false)], 2 * t.word))
  {
    assert [] + [Block(need, false)] == [Block(need, false)];
  }

  /** A reallocation is refused exactly if the block cannot grow at the end of the buffer, cannot
      grow over a hole behind it, and there is no room for a new block. */
  lemma {:induction false} ResizeIsComplete(t: Target, cap: nat, bs: seq<Block>, i: nat, need: nat)
    requires t.word > 0 && i < |bs| && !bs[i].unused
    ensures Resized(t, cap, bs, i, need).None? <==>
            && !(i + 1 == |bs| && Span(t, bs) - bs[i].size + need <= cap)
            && Reach(t, bs, i) < need
            && NoRoom(t, cap, bs, need)
  {
    FirstFitIsComplete(t, cap, bs, need);
    PlacedKeepsBlock(t, cap, bs, need, i);
    hide Span, Placed, NoRoom, IndexAt;
  }

  /** Live block `i` can have `need` bytes where it stands: by moving the end of the used buffer, or
      within its own bytes and those of a hole behind it. */
  ghost predicate FitsInPlace(t: Target, cap: nat, bs: seq<Block>, i: nat, need: nat)
    requires i < |bs|
  {
    || (i + 1 == |bs| && Span(t, bs) - bs[i].size + need <= cap)
    || bs[i].size >= need
    || (i + 1 < |bs| && bs[i + 1].unused && bs[i].size + t.Header() + bs[i + 1].size >= need)
  }

  /** A reallocation leaves the block where it is exactly if it fits there. Otherwise the payload moves
      to the lowest hole that is large enough, and only without one to the end of the used buffer. */
  lemma {:induction false} ResizeIsInPlace(t: Target, cap: nat, bs: seq<Block>, i: nat, need: nat)
    requires t.word > 0 && i < |bs| && !bs[i].unused
    ensures var r, ptr := Resized(t, cap, bs, i, need), PayloadAt(t, bs, i);
            && (FitsInPlace(t, cap, bs, i, need) ==> r.Some?)
            && (r.Some? ==> (r.value.1 == ptr <==> FitsInPlace(t, cap, bs, i, need)))
            && (r.Some? && r.value.1 != ptr ==> FirstPlace(t, bs, need, r.value.1))
  {
    FirstFitIsComplete(t, cap, bs, need);
    PlacedKeepsBlock(t, cap, bs, need, i);
    PlacedAddrs(t, cap, bs, need);
    LivePayload(t, bs, i);
    hide Span, Placed, IndexAt, LiveAddrs, Coalesced;
  }

  /** Address `p` is that of the lowest hole of at least `need` bytes, or behind the last block if there
      is none. */
  ghost predicate FirstPlace(t: Target, bs: seq<Block>, need: nat, p: nat) {
    && (forall k :: 0 <= k < |bs| && Fits(bs[k], need) && (forall j :: 0 <= j < k ==> !Fits(bs[j], need)) ==>
          p == PayloadAt(t, bs, k))
    && ((forall j :: 0 <= j < |bs| ==> !Fits(bs[j], need)) ==> p == Span(t, bs) + t.Header())
  }

  // ---- Whole runs --------------------------------------------------------------------------

  datatype Op = Alloc(size: nat) | Realloc(ptr: nat, newSize: nat) | Free(ptr: nat) | Clear

  /** Callers may only resize and free what is live. */
  ghost predicate Allowed(t: Target, bs: seq<Block>, op: Op) {
    match op
    case Realloc(ptr, _) => ptr in LiveAddrs(t, 0, bs)
    case Free(ptr) => ptr in LiveAddrs(t, 0, bs)
    case _ => true
  }

  /** The blocks after one operation; a refused request changes nothing. */
  ghost function Step(t: Target, cap: nat, bs: seq<Block>, op: Op): seq<Block>
    requires t.Ok()
  {
    match op
    case Alloc(size) =>
      var r := Placed(t, cap, bs, AlignUp(t.alignment, size));
      if r.Some? then r.value.0 else bs
    case Realloc(ptr, newSize) =>
      var i := IndexAt(t, 0, bs, ptr);
      if i == |bs| then bs
      else
        var r := Resized(t, cap, bs, i, AlignUp(t.alignment, newSize));
        if r.Some? then r.value.0 else bs
    case Free(ptr) =>
      var i := IndexAt(t, 0, bs, ptr);
      if i == |bs| then bs else Coalesced(t, bs, i)
    case Clear => []
  }

  /** `after` is reachable from `before` by a run of allowed operations. */
  ghost predicate Runs(t: Target, cap: nat, before: seq<Block>, ops: seq<Op>, after: seq<Block>)
    requires t.Ok()
    decreases |ops|
  {
    if ops == [] then after == before
    else Allowed(t, before, ops[0]) && Runs(t, cap, Step(t, cap, before, ops[0]), ops[1..], after)
  }

  /** After any run the blocks tile the used part of the buffer, no two holes are neighbours and
      the last block is not a hole. */
  lemma {:induction false} RunKeepsGood(t: Target, cap: nat, before: seq<Block>, ops: seq<Op>, after: seq<Block>)
    requires Good(t, cap, before) && Runs(t, cap, before, ops, after)
    ensures Good(t, cap, after)
    decreases |ops|
  {
    if ops != [] {
      match ops[0] {
        case Alloc(size) =>
          AlignUpIsLeast(t.alignment, size);
          PlacedGood(t, cap, before, AlignUp(t.alignment, size));
        case Realloc(ptr, newSize) =>
          AlignUpIsLeast(t.alignment, newSize);
          PayloadOfLive(t, 0, before, ptr);
          ResizedGood(t, cap, before, IndexAt(t, 0, before, ptr), AlignUp(t.alignment, newSize));
        case Free(ptr) =>
          PayloadOfLive(t, 0, before, ptr);
          FreedGood(t, cap, before, IndexAt(t, 0, before, ptr));
        case Clear =>
      }
      RunKeepsGood(t, cap, Step(t, cap, before, ops[0]), ops[1..], after);
    }
  }

  /** A heap without live blocks has no blocks at all. */
  lemma {:induction false} NothingLiveIsEmpty(t: Target, cap: nat, bs: seq<Block>)
    requires Good(t, cap, bs) && LiveAddrs(t, 0, bs) == {}
    ensures bs == []
  {
    if bs != [] {
      var last := |bs| - 1;
      assert bs[last].unused ==> HoleEndsAt(bs, last + 1);
      LivePayload(t, bs, last);
    }
  }

  ghost function Frees(order: seq<nat>): seq<Op> {
    seq(|order|, i requires 0 <= i < |order| => Free(order[i]))
  }

  /** Freeing every live block once, in any order, is allowed and empties the buffer. */
  lemma {:induction false} FreeingAllEmpties(t: Target, cap: nat, bs: seq<Block>, order: seq<nat>)
    requires Good(t, cap, bs)
    requires forall p :: p in order <==> p in LiveAddrs(t, 0, bs)
    requires forall i, j :: 0 <= i < j < |order| ==> order[i] != order[j]
    ensures Runs(t, cap, bs, Frees(order), [])
    decreases |order|
  {
    if order == [] {
      NothingLiveIsEmpty(t, cap, bs);
    } else {
      var ptr := order[0];
      assert ptr in order;
      PayloadOfLive(t, 0, bs, ptr);
      var i := IndexAt(t, 0, bs, ptr);
      var bs' := Coalesced(t, bs, i);
      FreedGood(t, cap, bs, i);
      FreedAddrs(t, bs, i);
      forall p
        ensures p in order[1..] <==> p in LiveAddrs(t, 0, bs')
      {
        assert order == [ptr] + order[1..];
      }
      FreeingAllEmpties(t, cap, bs', order[1..]);
      assert Frees(order)[1..] == Frees(order[1..]);
    }
  }
}
