/** rat/src/rat_rdyn.c: a dynamic array over an allocator that may refuse, move, or return more than
    it was asked for. An element is one array cell; sizes are in bytes, `elemSize` to an element.
    What the allocator answers is passed in. */
module Rdyn {
  import opened Numbers
  import opened Options
  import Rarr
  import opened RdynCost

  /** What ralc_alloc and ralc_realloc answer: NULL, or a block of `size` bytes; `fill` is what its
      elements hold where nothing is carried over. */
  datatype Answer<T> = Refused | Granted(size: nat, fill: seq<T>)

  /** The answers to one reallocBuf: that of ralc_realloc, and that of the ralc_alloc it falls back on. */
  datatype Answers<T> = Answers(re: Answer<T>, al: Answer<T>) {
    predicate Refused() {
      re.Refused? && al.Refused?
    }

    /** What the elements of the granted block hold where nothing is carried over. */
    function Fill(): seq<T> {
      if re.Granted? then re.fill else if al.Granted? then al.fill else []
    }
  }

  /** A granted block is no smaller than was asked for. */
  ghost predicate Suits<T>(a: Answer<T>, elemSize: nat, cap: nat)
    requires elemSize > 0
  {
    a.Granted? ==> a.size >= cap * elemSize && |a.fill| == a.size / elemSize
  }

  ghost predicate SuitBoth<T>(a: Answers<T>, elemSize: nat, cap: nat)
    requires elemSize > 0
  {
    Suits(a.re, elemSize, cap) && Suits(a.al, elemSize, cap)
  }

  /** The granted block holds as many elements as were asked for. */
  lemma {:induction false} RoomEnough<T>(a: Answers<T>, elemSize: nat, cap: nat)
    requires elemSize > 0 && SuitBoth(a, elemSize, cap) && !a.Refused()
    ensures |a.Fill()| >= cap
  {
    var size := if a.re.Granted? then a.re.size else a.al.size;
    Quotient(size, elemSize, cap);
  }

  lemma {:induction false} Quotient(size: nat, elemSize: nat, cap: nat)
    requires elemSize > 0 && size >= cap * elemSize
    ensures size / elemSize >= cap
  {
    var q := size / elemSize;
    assert size < q * elemSize + elemSize;
    assert (q + 1) * elemSize == q * elemSize + elemSize;
    if q < cap {
      TimesMonotone(q + 1, cap, elemSize);
    }
  }

  /** How many elements reallocBuf carries over: ralc_realloc those that fit the request, the
      fallback only as many as it is told. */
  ghost function Carried<T>(cells: seq<T>, a: Answers<T>, newCap: nat, copied: nat): nat {
    if a.re.Granted? then Least(|cells|, newCap) else copied
  }

  /** The new block after the first `k` elements have been carried over. */
  ghost function Filled<T>(cells: seq<T>, fill: seq<T>, k: nat): (r: seq<T>)
    requires k <= |cells| && k <= |fill|
    ensures |r| == |fill|
  {
    cells[..k] + fill[k..]
  }

  /** memcpy between different blocks. */
  method MemCpy<T>(to: array<T>, from: array<T>, n: nat)
    requires to != from && n <= to.Length && n <= from.Length
    modifies to
    ensures to[..] == Filled(from[..], old(to[..]), n)
  {
    for i := 0 to n
      invariant to[..] == from[..i] + old(to[..])[i..]
    {
      to[i] := from[i];
    }
  }

  class Rdyn<T(0)> {
    const elemSize: nat
    var buf: array?<T>
    var cap: nat
    var count: nat
    var allowShrink: bool
    /** How many elements all the reallocations so far had to carry over. */
    ghost var relocated: nat
    /** The blocks that the allocator has granted and not been given back. */
    ghost var held: set<array<T>>

    ghost predicate Valid()
      reads this
    {
      && elemSize > 0 && count <= cap
      && (if buf == null then cap == 0 else cap > 0 && buf.Length == cap)
      && held == Holding(buf)
    }

    static ghost function Holding(arr: array?<T>): set<array<T>> {
      if arr == null then {} else {arr}
    }

    /** What the cost of an operation depends on. */
    ghost function Spent(): Cost
      reads this
    {
      Cost(count, cap, relocated)
    }

    /** The whole buffer. */
    ghost function Cells(): seq<T>
      reads this, buf
    {
      if buf == null then [] else buf[..]
    }

    /** The sequence that the array represents. */
    ghost function Contents(): (s: seq<T>)
      requires Valid()
      reads this, buf
      ensures |s| == count
    {
      Cells()[..count]
    }

    /** rdyn_init */
    constructor (elemSize: nat)
      requires elemSize > 0
      ensures Valid() && Contents() == [] && this.elemSize == elemSize && cap == 0 && !allowShrink && relocated == 0
    {
      this.elemSize := elemSize;
      buf, cap, count, allowShrink, relocated, held := null, 0, 0, false, 0, {};
    }

    /** reallocBuf: a new buffer, or null. The old block is taken back by ralc_realloc or freed by the
        fallback. */
    method ReallocBuf(newCap: nat, copied: nat, a: Answers<T>) returns (arr: array?<T>)
      requires Valid() && copied <= count && copied <= newCap && SuitBoth(a, elemSize, newCap)
      modifies this`held
      ensures arr == null <==> a.Refused()
      ensures held == if arr == null then old(held) else {arr}
      ensures arr != null ==>
                && fresh(arr) && arr.Length == |a.Fill()| >= newCap
                && copied <= Carried(Cells(), a, newCap, copied) <= Least(|Cells()|, newCap)
                && arr[..] == Filled(Cells(), a.Fill(), Carried(Cells(), a, newCap, copied))
    {
      if a.Refused() {
        return null;
      }
      RoomEnough(a, elemSize, newCap);
      hide Suits, SuitBoth;
      var fill := a.Fill();
      var k := if a.re.Granted? then Least(cap, newCap) else copied;
      arr := new T[|fill|](i requires 0 <= i < |fill| => fill[i]);
      assert arr[..] == fill;
      held := held + {arr};
      if buf != null {
        MemCpy(arr, buf, k);
        held := held - {buf};
      }
    }

    /** The answers to grow: `first` to the request for half as much again, `second` to the one for
        just enough. */
    ghost predicate SuitGrowth(n: nat, first: Answers<T>, second: Answers<T>)
      requires Valid()
      reads this
    {
      && SuitBoth(first, elemSize, Wanted(count + n))
      && SuitBoth(second, elemSize, count + n)
    }

    /** grow fails only if the elements do not fit and all four requests are refused. */
    ghost predicate CannotGrow(n: nat, first: Answers<T>, second: Answers<T>)
      reads this
    {
      count + n > cap && first.Refused() && second.Refused()
    }

    /** grow */
    method Grow(n: nat, first: Answers<T>, second: Answers<T>) returns (ok: bool)
      requires Valid() && SuitGrowth(n, first, second)
      modifies this`buf, this`count, this`cap, this`relocated, this`held
      ensures Valid() && (buf == old(buf) || fresh(buf))
      ensures ok == !old(CannotGrow(n, first, second))
      ensures !ok ==> buf == old(buf) && cap == old(cap) && count == old(count)
      ensures ok ==> count == old(count) + n && Contents()[..old(count)] == old(Contents())
      ensures Capacity(old(cap), cap, old(count), n, first, second)
      ensures relocated == old(relocated) + if buf == old(buf) then 0 else old(count)
      ensures buf != old(buf) <==> ok && old(count) + n > old(cap)
    {
      var newCount := count + n;
      if newCount <= cap {
        count := newCount;
        return true;
      }
      var arr := ReallocBuf(Wanted(newCount), count, first);
      if arr == null {
        arr := ReallocBuf(newCount, count, second);
        if arr == null {
          return false;
        }
      }
      relocated := relocated + count;
      buf, count, cap := arr, newCount, arr.Length;
      return true;
    }

    /** shrink: a refusal to shrink is tolerated. */
    method Shrink(n: nat, a: Answers<T>)
      requires Valid() && n <= count && SuitShrink(n, a)
      modifies this`buf, this`count, this`cap, this`relocated, this`held
      ensures Valid() && (buf == null || buf == old(buf) || fresh(buf))
      ensures Contents() == old(Contents())[..old(count) - n]
      ensures buf == null <==> old(buf) == null || (allowShrink && n == old(count))
      ensures buf != null ==> (buf != old(buf) <==> allowShrink && count <= old(cap) / 2 && !a.Refused())
      ensures cap == if buf == null then 0 else if buf == old(buf) then old(cap) else |a.Fill()|
      ensures relocated == old(relocated) + if buf != null && buf != old(buf) then count else 0
    {
      if !allowShrink {
        count := count - n;
        return;
      }
      if count <= n {
        Clear();
        return;
      }
      var newCount := count - n;
      if newCount <= cap / 2 {
        var arr := ReallocBuf(ShrunkCap(newCount), newCount, a);
        if arr != null {
          relocated := relocated + newCount;
          buf, cap := arr, arr.Length;
        }
      }
      count := newCount;
    }

    ghost predicate SuitShrink(n: nat, a: Answers<T>)
      requires Valid() && n <= count
      reads this
    {
      SuitBoth(a, elemSize, ShrunkCap(count - n))
    }

    /** rdyn_insert. The result is the address of the new run, as an index into the buffer; NULL if
        growing failed, and NULL too if there still is no buffer, because nothing was inserted into
        an array without one. */
    method Insert(index: nat, n: nat, first: Answers<T>, second: Answers<T>) returns (r: Option<nat>)
      requires Valid() && index <= count && SuitGrowth(n, first, second)
      modifies this`buf, this`count, this`cap, this`relocated, this`held, buf
      ensures Valid() && (buf == old(buf) || fresh(buf))
      ensures r.None? <==> old(CannotGrow(n, first, second)) || (n == 0 && old(buf) == null)
      ensures r.None? ==>
                buf == old(buf) && cap == old(cap) && Contents() == old(Contents()) && relocated == old(relocated)
      ensures r.Some? ==> r.value == index && Rarr.Opened(old(Contents()), Contents(), index, n)
      ensures Capacity(old(cap), cap, old(count), n, first, second)
      ensures relocated == old(relocated) + if buf == old(buf) then 0 else old(count)
      ensures buf != old(buf) <==> r.Some? && old(count) + n > old(cap)
    {
      ghost var s := Contents();
      var ok := Grow(n, first, second);
      if !ok || buf == null {
        return None;
      }
      assert Contents()[..|s|] == s;
      assert buf[..count - n] == s;
      var at := Rarr.Insert(buf, count, index, n);
      return Some(at);
    }

    /** rdyn_remove */
    method Remove(index: nat, n: nat, a: Answers<T>) returns (r: Option<nat>)
      requires Valid() && index + n <= count && SuitShrink(n, a)
      modifies this`buf, this`count, this`cap, this`relocated, this`held, buf
      ensures Valid() && (buf == null || buf == old(buf) || fresh(buf))
      ensures Contents() == Rarr.Closed(old(Contents()), index, n)
      ensures r == if buf == null then None else Some(index)
      ensures buf == null <==> old(buf) == null || (allowShrink && n == old(count))
      ensures buf != null ==> (buf != old(buf) <==> allowShrink && count <= old(cap) / 2 && !a.Refused())
      ensures cap == if buf == null then 0 else if buf == old(buf) then old(cap) else |a.Fill()|
      ensures relocated == old(relocated) + if buf != null && buf != old(buf) then count else 0
    {
      if buf != null {
        var at := Rarr.Remove(buf, count, index, n);
      }
      Shrink(n, a);
      r := if buf == null then None else Some(index);
    }

    /** rdyn_push, at the cost of a step. */
    method Push(n: nat, first: Answers<T>, second: Answers<T>) returns (r: Option<nat>)
      requires Valid() && SuitGrowth(n, first, second)
      modifies this`buf, this`count, this`cap, this`relocated, this`held, buf
      ensures Valid() && (buf == old(buf) || fresh(buf))
      ensures r.None? <==> old(CannotGrow(n, first, second)) || (n == 0 && old(buf) == null)
      ensures r.None? ==> buf == old(buf) && Spent() == old(Spent()) && Contents() == old(Contents())
      ensures r.Some? ==>
                r.value == old(count) && count == old(count) + n && Contents()[..old(count)] == old(Contents())
      ensures Capacity(old(cap), cap, old(count), n, first, second)
      ensures relocated == old(relocated) + if buf == old(buf) then 0 else old(count)
      ensures buf != old(buf) <==> r.Some? && old(count) + n > old(cap)
      ensures forall t: Terms :: (old(Asks(Edit.Push(n))) ==> Meets(t, Edit.Push(n), first, Wanted(old(count) + n)))
                ==> Step(t, old(Spent()), Edit.Push(n), Spent())
    {
      hide Room;
      r := Insert(count, n, first, second);
    }

    /** Whether an edit asks the allocator for a block. */
    predicate Asks(edit: Edit)
      reads this
    {
      match edit
      case Push(n) => count + n > cap
      case Pop(n) => allowShrink && n < count && count - n <= cap / 2
    }

    /** How many elements it asks for first. */
    function Asked(edit: Edit): nat
      requires edit.Pop? ==> edit.n <= count
      reads this
    {
      match edit
      case Push(n) => Wanted(count + n)
      case Pop(n) => ShrunkCap(count - n)
    }

    /** rdyn_pop */
    method Pop(n: nat, a: Answers<T>)
      requires Valid() && n <= count && SuitShrink(n, a)
      modifies this`buf, this`count, this`cap, this`relocated, this`held, buf
      ensures Valid() && (buf == null || buf == old(buf) || fresh(buf))
      ensures count == old(count) - n && Contents() == old(Contents())[..count]
      ensures buf != null ==> (buf != old(buf) <==> allowShrink && count <= old(cap) / 2 && !a.Refused())
      ensures cap == if buf == null then 0 else if buf == old(buf) then old(cap) else |a.Fill()|
      ensures buf == null <==> old(buf) == null || (allowShrink && n == old(count))
      ensures relocated == old(relocated) + if buf != null && buf != old(buf) then count else 0
      ensures forall t: Terms ::
                && (t.Kept? ==> !allowShrink)
                && (old(Asks(Edit.Pop(n))) ==> Meets(t, Edit.Pop(n), a, ShrunkCap(count)))
                ==> Step(t, old(Spent()), Edit.Pop(n), Spent())
    {
      hide Room;
      var at := Remove(count - n, n, a);
    }

    /** One edit of a run, on any allocator; `i` is its number. Only a push fails, and then changes
        nothing. */
    method Apply(edit: Edit, i: nat, parent: Allocator<T>) returns (ok: bool)
      requires Valid() && SuitsAll(parent, elemSize) && (edit.Pop? ==> edit.n <= count)
      modifies this`buf, this`count, this`cap, this`relocated, this`held, buf
      ensures Valid() && (buf == null || buf == old(buf) || fresh(buf))
      ensures !ok <==>
                && edit.Push? && old(Asks(edit))
                && parent(i, old(Asked(edit))).Refused() && parent(i, old(count) + edit.n).Refused()
      ensures !ok ==> buf == old(buf) && Spent() == old(Spent()) && Contents() == old(Contents())
      ensures ok ==> count == if edit.Push? then old(count) + edit.n else old(count) - edit.n
      ensures var k := Least(old(count), count); Contents()[..k] == old(Contents())[..k]
      ensures forall t: Terms ::
                && (t.Kept? ==> !allowShrink)
                && (old(Asks(edit)) ==> Meets(t, edit, parent(i, old(Asked(edit))), old(Asked(edit))))
                ==> Step(t, old(Spent()), edit, Spent())
    {
      hide Suits, SuitBoth, Room;
      match edit {
        case Push(n) =>
          var wanted, enough := Wanted(count + n), count + n;
          var at := Push(n, parent(i, wanted), parent(i, enough));
          ok := at.Some? || n == 0;
        case Pop(n) =>
          var wanted := ShrunkCap(count - n);
          Pop(n, parent(i, wanted));
          ok := true;
      }
    }

    /** The answers that rdyn_resize may need. */
    ghost predicate SuitResize(oldCount: nat, newCount: nat, first: Answers<T>, second: Answers<T>)
      requires Valid()
      reads this
    {
      if newCount > oldCount then SuitGrowth(newCount - oldCount, first, second)
      else oldCount - newCount <= count && SuitShrink(oldCount - newCount, first)
    }

    /** rdyn_resize: the run of `oldCount` elements at `index` is given `newCount`. What the two runs
        have in common, and all around, stays. */
    method Resize(index: nat, oldCount: nat, newCount: nat, first: Answers<T>,
                  second: Answers<T>) returns (r: Option<nat>)
      requires Valid() && index + oldCount <= count && SuitResize(oldCount, newCount, first, second)
      modifies this`buf, this`count, this`cap, this`relocated, this`held, buf
      ensures Valid() && (buf == null || buf == old(buf) || fresh(buf))
      ensures var kept := index + Least(oldCount, newCount);
              && (r.Some? ==>
                    && r.value == index && count == old(count) - oldCount + newCount
                    && Contents()[..kept] == old(Contents())[..kept]
                    && Contents()[index + newCount..] == old(Contents())[index + oldCount..])
      ensures newCount > oldCount ==>
                && (r.None? <==> old(CannotGrow(newCount - oldCount, first, second)))
                && (r.None? ==> buf == old(buf) && cap == old(cap) && Contents() == old(Contents()))
      ensures newCount <= oldCount ==>
                && (r.None? <==> old(buf) == null || (allowShrink && newCount == 0 && oldCount == old(count)))
                && Contents() == Rarr.Closed(old(Contents()), index + newCount, oldCount - newCount)
    {
      hide Suits, SuitBoth, Rarr.Opened, Rarr.Closed, Capacity, Wanted, ShrunkCap;
      var at;
      ghost var s := Contents();
      if newCount > oldCount {
        at := Insert(index + oldCount, newCount - oldCount, first, second);
        if at.Some? {
          OpenedKeeps(s, Contents(), index, index + oldCount, newCount - oldCount);
        }
      } else {
        at := Remove(index + newCount, oldCount - newCount, first);
        ClosedKeeps(s, index + newCount, oldCount - newCount);
      }
      r := if at.Some? then Some(index) else None;
    }

    /** rdyn_setCap. More elements than fit the new capacity are given up. */
    method SetCap(newCap: nat, a: Answers<T>) returns (ok: bool)
      requires Valid() && SuitBoth(a, elemSize, newCap)
      modifies this`buf, this`count, this`cap, this`relocated, this`held
      ensures Valid() && (buf == null || buf == old(buf) || fresh(buf))
      ensures ok <==> newCap == 0 || !a.Refused()
      ensures !ok ==> buf == old(buf) && cap == old(cap) && Contents() == old(Contents())
      ensures newCap == 0 ==> buf == null && cap == 0
      ensures ok && newCap > 0 ==>
                cap == |a.Fill()| >= newCap && Contents() == Fitted(old(Contents()), newCap, a.Fill())
    {
      if newCap == 0 {
        Clear();
        return true;
      }
      ghost var s := Contents();
      var copied := if count < newCap then count else newCap;
      var arr := ReallocBuf(newCap, copied, a);
      if arr == null {
        return false;
      }
      FittedFromFilled(Cells(), count, newCap, a.Fill(), Carried(Cells(), a, newCap, copied));
      hide Filled, Fitted;
      relocated := relocated + copied;
      buf, cap := arr, arr.Length;
      if count > cap {
        count := cap;
      }
      return true;
    }

    /** rdyn_clear */
    method Clear()
      requires Valid()
      modifies this`buf, this`count, this`cap, this`held
      ensures Valid() && buf == null && Contents() == [] && held == {}
    {
      if buf != null {
        held := held - {buf};
      }
      buf, count, cap := null, 0, 0;
    }
  }

  /** The capacity after room for `n` more elements has been asked for. */
  ghost predicate Capacity<T>(cap: nat, cap': nat, count: nat, n: nat, first: Answers<T>, second: Answers<T>) {
    cap' ==
    if count + n <= cap || (first.Refused() && second.Refused()) then cap
    else if first.Refused() then |second.Fill()|
    else |first.Fill()|
  }

  lemma {:induction false} OpenedKeeps<T>(before: seq<T>, after: seq<T>, index: nat, at: nat, n: nat)
    requires index <= at <= |before| && Rarr.Opened(before, after, at, n)
    ensures |after| == |before| + n && after[..at] == before[..at] && after[at + n..] == before[at..]
  {
  }

  lemma {:induction false} ClosedKeeps<T>(s: seq<T>, at: nat, n: nat)
    requires at + n <= |s|
    ensures Rarr.Closed(s, at, n)[..at] == s[..at] && Rarr.Closed(s, at, n)[at..] == s[at + n..]
  {
  }

  // ---- What setCap keeps -----------------------------------------------------------------------------

  /** The sequence after the capacity has been set to `newCap` and the new block holds `fill`. */
  ghost function Fitted<T>(s: seq<T>, newCap: nat, fill: seq<T>): (r: seq<T>)
    requires newCap <= |fill|
    ensures |r| == Least(|s|, |fill|)
  {
    var m := Least(|s|, newCap);
    s[..m] + fill[m..Least(|s|, |fill|)]
  }

  /** The buffer that reallocBuf returns holds just that, whichever way it came about. */
  lemma {:induction false} FittedFromFilled<T>(cells: seq<T>, count: nat, newCap: nat, fill: seq<T>, k: nat)
    requires count <= |cells| && newCap <= |fill|
    requires Least(count, newCap) <= k <= Least(|cells|, newCap)
    ensures count <= newCap ==> Filled(cells, fill, k)[..count] == Fitted(cells[..count], newCap, fill)
    ensures count > newCap ==> Filled(cells, fill, k)[..Least(count, |fill|)] == Fitted(cells[..count], newCap, fill)
  {
  }

  /** Elements up to the requested capacity always survive, and the rest is what the block held. */
  lemma {:induction false} FittedAt<T>(s: seq<T>, newCap: nat, fill: seq<T>, i: nat)
    requires newCap <= |fill| && i < Least(|s|, |fill|)
    ensures Fitted(s, newCap, fill)[i] == if i < newCap then s[i] else fill[i]
  {
  }

  lemma {:induction false} FittedExactly<T>(s: seq<T>, newCap: nat, fill: seq<T>)
    requires newCap <= |fill| && (|s| <= newCap || |fill| == newCap)
    ensures Fitted(s, newCap, fill) <= s
  {
  }

  /** The array is sure to hold a prefix of what it held exactly if nothing had to be given up or the
      block is no larger than was asked for: otherwise the final count reaches into elements that
      were never copied. */
  lemma {:induction false} FittedIsPrefix<T(!new)>(s: seq<T>, newCap: nat, actual: nat, x: T, y: T)
    requires newCap <= actual && x != y
    ensures (forall fill: seq<T> :: |fill| == actual ==> Fitted(s, newCap, fill) <= s) <==>
            |s| <= newCap || actual == newCap
  {
    hide Fitted;
    if newCap < |s| && newCap < actual {
      var other := if s[newCap] == x then y else x;
      var fill := seq(actual, i => other);
      FittedAt(s, newCap, fill, newCap);
    } else {
      forall fill: seq<T> | |fill| == actual
        ensures Fitted(s, newCap, fill) <= s
      {
        FittedExactly(s, newCap, fill);
      }
    }
  }

  /** Whatever capacity a caller sets, and whatever the allocator answers, the array holds a prefix of
      what it held if and only if the capacity was not set below the count. */
  lemma {:induction false} SetCapKeepsPrefix<T(!new)>(s: seq<T>, newCap: nat, x: T, y: T)
    requires x != y
    ensures (forall fill: seq<T> :: newCap <= |fill| ==> Fitted(s, newCap, fill) <= s) <==> |s| <= newCap
  {
    hide Fitted;
    FittedIsPrefix(s, newCap, newCap + 1, x, y);
    forall fill: seq<T> | newCap <= |fill| && |s| <= newCap
      ensures Fitted(s, newCap, fill) <= s
    {
      FittedExactly(s, newCap, fill);
    }
  }

  /** An array of 1, 2, 3, 4 whose capacity is set to 1, while the allocator grants no less than a
      block of four: the count stays 4, and reaches into elements that were never copied. */
  method SetCapKeepsForeignElements() returns (d: Rdyn<int>)
    ensures d.Valid() && d.Contents() == [1, 7, 7, 7]
  {
    d := new Rdyn<int>(4);
    var room := Answers(Granted(24, [0, 0, 0, 0, 0, 0]), Refused);
    var at := d.Insert(0, 4, room, room);
    d.buf[0], d.buf[1], d.buf[2], d.buf[3] := 1, 2, 3, 4;
    assert d.Contents() == [1, 2, 3, 4];
    hide Fitted;
    var ok := d.SetCap(1, Answers(Refused, Granted(16, [7, 7, 7, 7])));
    FittedExample([1, 2, 3, 4], [7, 7, 7, 7]);
  }

  lemma {:induction false} FittedExample(s: seq<int>, fill: seq<int>)
    requires s == [1, 2, 3, 4] && fill == [7, 7, 7, 7]
    ensures Fitted(s, 1, fill) == [1, 7, 7, 7]
  {
    assert s[..1] == [1] && fill[1..4] == [7, 7, 7];
  }

  /** Inserting nothing into a fresh array returns NULL, whatever the allocator would have granted. */
  method InsertingNothingReturnsNull() returns (r: Option<nat>)
    ensures r.None?
  {
    var d := new Rdyn<int>(4);
    var room := Answers(Granted(16, [0, 0, 0, 0]), Granted(16, [0, 0, 0, 0]));
    r := d.Insert(0, 0, room, room);
  }

  // ---- Amortised cost --------------------------------------------------------------------------------

  /** What an allocator answers to the requests that edit `i` makes for so many elements. */
  type Allocator<T> = (nat, nat) -> Answers<T>

  ghost predicate SuitsAll<T>(parent: Allocator<T>, elemSize: nat)
    requires elemSize > 0
  {
    forall i, cap :: SuitBoth(parent(i, cap), elemSize, cap)
  }

  /** An answer to the first request of an edit is such as the terms say; a pop may be refused. */
  ghost predicate Meets<T>(t: Terms, edit: Edit, a: Answers<T>, cap: nat) {
    if a.Refused() then edit.Pop? else Room(t, |a.Fill()|, cap)
  }

  /** An allocator that grants the pushes what they ask for, on the terms `t`. */
  ghost predicate Grants<T>(parent: Allocator<T>, t: Terms, edits: seq<Edit>) {
    forall i, cap :: 0 <= i < |edits| ==> Meets(t, edits[i], parent(i, cap), cap)
  }

  lemma {:induction false} GrantsAt<T>(parent: Allocator<T>, t: Terms, edits: seq<Edit>, i: nat, cap: nat)
    requires Grants(parent, t, edits) && i < |edits|
    ensures Meets(t, edits[i], parent(i, cap), cap)
  {
  }

  /** A whole run of edits against any allocator that grants what the pushes ask for. The costs are those
      of a run on the terms on which it grants, and so meet the bound for these terms: without shrinking
      whatever the size of the blocks, with shrinking if blocks are within less than half as much again. */
  method EditAll<T(0)>(elemSize: nat, allowShrink: bool, edits: seq<Edit>, parent: Allocator<T>, ghost t: Terms)
    returns (d: Rdyn<T>)
    requires elemSize > 0 && Legal(edits) && SuitsAll(parent, elemSize) && Grants(parent, t, edits)
    requires t.Kept? ==> !allowShrink
    ensures d.Valid() && d.allowShrink == allowShrink && d.count == Pushed(edits) - Popped(edits)
    ensures Run(t, edits, d.Spent())
    ensures t.Kept? ==> d.relocated <= 3 * Pushed(edits)
    ensures t == Within(0, 1, 0) ==> d.relocated <= 4 * Pushed(edits) + 3 * Popped(edits)
    ensures t.Within? && 2 * t.p < t.q ==>
              2 * (t.q - 2 * t.p) * d.relocated
              <= 12 * (t.q - t.p) * Pushed(edits) + 4 * (t.q + t.p) * Popped(edits) + 3 * (t.q * t.s) * |edits|
  {
    hide Step, Run, SuitsAll, Grants, Meets;
    d := new Rdyn<T>(elemSize);
    d.allowShrink := allowShrink;
    NothingRun(t);
    for i := 0 to |edits|
      invariant fresh(d) && fresh(d.held) && d.Valid() && d.elemSize == elemSize && d.allowShrink == allowShrink
      invariant Run(t, edits[..i], d.Spent())
    {
      EditIsLegal(t, edits, i, d.Spent());
      GrantsAt(parent, t, edits, i, d.Asked(edits[i]));
      ghost var before := d.Spent();
      var ok := d.Apply(edits[i], i, parent);
      RunStep(t, edits[..i], before, edits[i], d.Spent());
    }
    assert edits[..|edits|] == edits;
    RunCount(t, edits, d.Spent());
    RunIsBounded(t, edits, d.Spent());
  }

  lemma {:induction false} RunIsBounded(t: Terms, edits: seq<Edit>, c: Cost)
    requires Run(t, edits, c)
    ensures t.Kept? ==> c.relocated <= 3 * Pushed(edits)
    ensures t == Within(0, 1, 0) ==> c.relocated <= 4 * Pushed(edits) + 3 * Popped(edits)
    ensures t.Within? && 2 * t.p < t.q ==>
              2 * (t.q - 2 * t.p) * c.relocated
              <= 12 * (t.q - t.p) * Pushed(edits) + 4 * (t.q + t.p) * Popped(edits) + 3 * (t.q * t.s) * |edits|
  {
    hide Run;
    match t {
      case Kept => AmortisedPush(edits, c);
      case Within(p, q, s) =>
        if 2 * p < q {
          AmortisedWithin(p, q, s, edits, c);
        }
        if t == Within(0, 1, 0) {
          AmortisedExactly(edits, c);
        }
    }
  }

  /** A block of elements of one byte for so many of them. */
  function Zeros(size: nat): (a: Answers<int>)
    ensures (forall cap: nat :: cap <= size ==> SuitBoth(a, 1, cap)) && !a.Refused() && |a.Fill()| == size
  {
    var block := Granted(size, seq(size, _ => 0));
    Answers(block, block)
  }

  /** At the border there is no bound: for every factor, a run on an array that may shrink relocates
      more, against an allocator that grants half as much again. The blocks keep to the terms of one
      half, and each pop replaces the buffer. */
  method ShrinkingWithoutBound(factor: nat) returns (d: Rdyn<int>, ghost edits: seq<Edit>)
    ensures d.Valid() && d.allowShrink && Run(Within(1, 2, 0), edits, d.Spent())
    ensures d.relocated > factor * (Moved(edits) + |edits|)
  {
    hide Suits, SuitBoth, Rows, Run, Step, Meets, HalfMore, Wanted, ShrunkCap, Thinned, Moved, PushThenPops;
    var n := 6 * factor + 2;
    d := new Rdyn<int>(1);
    d.allowShrink := true;
    edits := PushThenPops(n, n - 1, 1);
    RoundedUp(Wanted(n));
    HalfMoreDoubles(n);
    ThinnedStart(n);
    var at := d.Push(n, Zeros(HalfMore(Wanted(n))), Zeros(n));
    for k := 0 to n - 1
      invariant fresh(d) && fresh(d.held) && d.Valid() && d.allowShrink && d.elemSize == 1
      invariant d.Spent() == Thinned(n, k) && d.cap >= 2 * d.count - 1
    {
      PopOne(d, n, k);
    }
    ThinningOutgrows(1, 2, 0, factor, n, edits);
  }

  /** A pop of one that finds just enough room to replace the buffer, and leaves as much behind. */
  method PopOne(d: Rdyn<int>, n: nat, k: nat)
    requires d.Valid() && d.allowShrink && d.elemSize == 1 && k + 1 < n
    requires d.Spent() == Thinned(n, k) && d.cap >= 2 * d.count - 1
    modifies d`buf, d`count, d`cap, d`relocated, d`held, d.buf
    ensures d.Valid() && fresh(d.buf)
    ensures d.Spent() == Thinned(n, k + 1) && d.cap >= 2 * d.count - 1
  {
    hide Suits, SuitBoth, Rows, Step, Meets, HalfMore, ShrunkCap;
    var count := n - k - 1;
    RoundedUp(ShrunkCap(count));
    HalfMoreDoubles(count);
    ThinnedStep(n, k);
    d.Pop(1, Zeros(HalfMore(ShrunkCap(count))));
  }

  lemma {:induction false} RoundedUp(wanted: nat)
    ensures HalfMore(wanted) >= wanted
  {
  }

  lemma {:induction false} ThinnedStart(n: nat)
    requires n > 0
    ensures Thinned(n, 0) == Cost(n, HalfMore(Wanted(n)), 0)
  {
  }

  lemma {:induction false} ThinnedStep(n: nat, k: nat)
    requires k + 1 < n
    ensures Thinned(n, k + 1) == Cost(n - k - 1, HalfMore(ShrunkCap(n - k - 1)), Thinned(n, k).relocated + n - k - 1)
  {
  }

  /** Nor is there one where the first request of grow is refused each time and the second granted with
      nothing to spare: each push of one element replaces the buffer. */
  method GrudgingGrowthWithoutBound(factor: nat) returns (d: Rdyn<int>, n: nat)
    ensures d.Valid() && d.count == n && d.relocated > factor * n
  {
    n := 2 * factor + 2;
    d := new Rdyn<int>(1);
    for k := 0 to n
      invariant fresh(d) && fresh(d.held) && d.Valid() && d.elemSize == 1
      invariant d.count == d.cap == k && 2 * d.relocated == k * (k - 1)
    {
      var at := d.Push(1, Answers(Refused, Refused), Zeros(k + 1));
      assert (k + 1) * k == k * (k - 1) + 2 * k;
    }
    assert n * (n - 1) == 2 * (factor * n) + n;
  }
}
