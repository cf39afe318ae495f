/** rat/src/rat_rarr.c: shifting runs of array elements in place, and binary search. An element is one
    array cell, so `index * elemSize` is the index. */
module Rarr {

  // ---- Shifting ------------------------------------------------------------------------------------

  /** memmove: what stands at [src, src + n) is copied to [dst, dst + n). */
  ghost function Moved<T>(s: seq<T>, dst: nat, src: nat, n: nat): (r: seq<T>)
    requires dst + n <= |s| && src + n <= |s|
    ensures |r| == |s|
  {
    s[..dst] + s[src..src + n] + s[dst + n..]
  }

  /** memmove copies from the end that does not overwrite what is still to be read. */
  method MemMove<T>(a: array<T>, dst: nat, src: nat, n: nat)
    requires dst + n <= a.Length && src + n <= a.Length
    modifies a
    ensures a[..] == Moved(old(a[..]), dst, src, n)
  {
    if dst <= src {
      for i := 0 to n
        invariant forall k :: 0 <= k < a.Length ==> a[k] == old(if dst <= k < dst + i then a[src + k - dst] else a[k])
      {
        a[dst + i] := a[src + i];
      }
    } else {
      for i := n downto 0
        invariant forall k :: 0 <= k < a.Length ==>
                    a[k] == old(if dst + i <= k < dst + n then a[src + k - dst] else a[k])
      {
        a[dst + i] := a[src + i];
      }
    }
  }

  /** `after` is `before` with a run of `n` elements, whatever they hold, put in at `index`. */
  ghost predicate Opened<T>(before: seq<T>, after: seq<T>, index: nat, n: nat)
    requires index <= |before|
  {
    |after| == |before| + n && after[..index] == before[..index] && after[index + n..] == before[index..]
  }

  /** `s` without the `n` elements from `index` on. */
  function Closed<T>(s: seq<T>, index: nat, n: nat): (r: seq<T>)
    requires index + n <= |s|
    ensures |r| == |s| - n
  {
    s[..index] + s[index + n..]
  }

  /** rarr_insert; `len` is the length after the insertion. */
  method Insert<T>(a: array<T>, len: nat, index: nat, n: nat) returns (r: nat)
    requires index + n <= len <= a.Length
    modifies a
    ensures r == index
    ensures Opened(old(a[..len - n]), a[..len], index, n)
    ensures a[index..index + n] == old(a[index..index + n]) && a[len..] == old(a[len..])
  {
    MemMove(a, index + n, index, len - index - n);
    assert a[..len][index + n..] == old(a[index..len - n]) == old(a[..len - n])[index..];
    return index;
  }

  /** rarr_remove; `len` is the length before the removal. */
  method Remove<T>(a: array<T>, len: nat, index: nat, n: nat) returns (r: nat)
    requires index + n <= len <= a.Length
    modifies a
    ensures r == index
    ensures a[..len - n] == Closed(old(a[..len]), index, n)
    ensures a[len - n..] == old(a[len - n..])
  {
    MemMove(a, index, index + n, len - index - n);
    assert old(a[..len])[index + n..] == old(a[index + n..len]);
    return index;
  }

  /** rarr_resize. `len` is the larger of the two lengths; the result is where the runs differ. */
  method Resize<T>(a: array<T>, len: nat, index: nat, oldCount: nat, newCount: nat) returns (r: nat)
    requires index + oldCount <= len <= a.Length && index + newCount <= len
    modifies a
    ensures r == index + if oldCount < newCount then oldCount else newCount
    ensures a[len..] == old(a[len..])
    ensures oldCount < newCount ==> Opened(old(a[..len - (newCount - oldCount)]), a[..len], r, newCount - oldCount)
    ensures oldCount >= newCount ==> a[..len - (oldCount - newCount)] == Closed(old(a[..len]), r, oldCount - newCount)
  {
    if oldCount < newCount {
      r := Insert(a, len, index + oldCount, newCount - oldCount);
    } else {
      r := Remove(a, len, index + newCount, oldCount - newCount);
    }
  }

  /** Removing what was inserted restores the sequence. */
  lemma {:induction false} CloseUndoesOpen<T>(before: seq<T>, after: seq<T>, index: nat, n: nat)
    requires index <= |before| && Opened(before, after, index, n)
    ensures Closed(after, index, n) == before
  {
    assert before == before[..index] + before[index..];
  }

  // ---- Binary search ---------------------------------------------------------------------------------

  /** A comparison that is a total preorder. */
  ghost predicate Preorder<T(!new)>(cmp: (T, T) -> int) {
    && (forall x, y :: cmp(x, y) <= 0 <==> cmp(y, x) >= 0)
    && (forall x, y, z :: cmp(x, y) <= 0 && cmp(y, z) <= 0 ==> cmp(x, z) <= 0)
  }

  ghost predicate Ascending<T>(cmp: (T, T) -> int, s: seq<T>) {
    forall i, j :: 0 <= i < j < |s| ==> cmp(s[i], s[j]) <= 0
  }

  ghost predicate Descending<T>(cmp: (T, T) -> int, s: seq<T>) {
    forall i, j :: 0 <= i < j < |s| ==> cmp(s[i], s[j]) >= 0
  }

  /** rarr_binSearch on an ascending array: the leftmost match, or else the place to insert. */
  method BinSearch<T(!new)>(a: array<T>, len: nat, cmp: (T, T) -> int, target: T) returns (found: bool, index: nat)
    requires len <= a.Length && Preorder(cmp) && Ascending(cmp, a[..len])
    ensures index <= len
    ensures forall i :: 0 <= i < index ==> cmp(a[i], target) < 0
    ensures forall i :: index <= i < len ==> cmp(a[i], target) >= 0
    ensures found <==> exists i :: 0 <= i < len && cmp(a[i], target) == 0
    ensures found ==> index < len && cmp(a[index], target) == 0
  {
    hide Preorder, Ascending;
    var left: nat, right: nat := 0, len;
    ghost var s := a[..len];
    while left < right
      invariant left <= right <= len
      invariant forall i :: 0 <= i < left ==> cmp(s[i], target) < 0
      invariant forall i :: right <= i < len ==> cmp(s[i], target) >= 0
    {
      var mid := left + (right - left) / 2;
      Monotone(cmp, s, mid, target);
      if cmp(a[mid], target) < 0 {
        left := mid + 1;
      } else {
        right := mid;
      }
    }
    index := left;
    found := left < len && cmp(a[left], target) == 0;
    assert forall i :: 0 <= i < len ==> a[i] == s[i];
    if left < len {
      Monotone(cmp, s, left, target);
    }
  }

  /** rarr_binSearch_desc on a descending array: the rightmost match, or else the place to insert. */
  method BinSearchDesc<T(!new)>(a: array<T>, len: nat, cmp: (T, T) -> int, target: T) returns (found: bool, index: nat)
    requires len <= a.Length && Preorder(cmp) && Descending(cmp, a[..len])
    ensures index <= len
    ensures found <==> exists i :: 0 <= i < len && cmp(a[i], target) == 0
    ensures found ==> index < len && cmp(a[index], target) == 0
    ensures forall i :: 0 <= i < index ==> if found then cmp(a[i], target) >= 0 else cmp(a[i], target) > 0
    ensures forall i :: (if found then index + 1 else index) <= i < len ==> cmp(a[i], target) < 0
  {
    hide Preorder, Descending;
    var left: nat, right: nat := 0, len;
    ghost var s := a[..len];
    while left < right
      invariant left <= right <= len
      invariant forall i :: 0 <= i < left ==> cmp(s[i], target) >= 0
      invariant forall i :: right <= i < len ==> cmp(s[i], target) < 0
    {
      var mid := left + (right - left) / 2;
      MonotoneDesc(cmp, s, mid, target);
      if cmp(a[mid], target) >= 0 {
        left := mid + 1;
      } else {
        right := mid;
      }
    }
    assert forall i :: 0 <= i < len ==> a[i] == s[i];
    if left > 0 {
      MonotoneDesc(cmp, s, left - 1, target);
    }
    if left > 0 && cmp(a[left - 1], target) == 0 {
      return true, left - 1;
    }
    return false, left;
  }

  /** What one comparison tells about the elements on either side. */
  lemma {:induction false} Monotone<T(!new)>(cmp: (T, T) -> int, s: seq<T>, mid: nat, target: T)
    requires Preorder(cmp) && Ascending(cmp, s) && mid < |s|
    ensures cmp(s[mid], target) < 0 ==> forall i :: 0 <= i <= mid ==> cmp(s[i], target) < 0
    ensures cmp(s[mid], target) >= 0 ==> forall i :: mid <= i < |s| ==> cmp(s[i], target) >= 0
    ensures cmp(s[mid], target) > 0 ==> forall i :: mid <= i < |s| ==> cmp(s[i], target) > 0
  {
    forall i | 0 <= i <= mid
      ensures cmp(s[mid], target) < 0 ==> cmp(s[i], target) < 0
    {
      Between(cmp, s[i], s[mid], target);
    }
    forall i | mid <= i < |s|
      ensures cmp(s[mid], target) >= 0 ==> cmp(s[i], target) >= 0
      ensures cmp(s[mid], target) > 0 ==> cmp(s[i], target) > 0
    {
      Between(cmp, s[mid], s[i], target);
    }
  }

  lemma {:induction false} MonotoneDesc<T(!new)>(cmp: (T, T) -> int, s: seq<T>, mid: nat, target: T)
    requires Preorder(cmp) && Descending(cmp, s) && mid < |s|
    ensures cmp(s[mid], target) >= 0 ==> forall i :: 0 <= i <= mid ==> cmp(s[i], target) >= 0
    ensures cmp(s[mid], target) > 0 ==> forall i :: 0 <= i <= mid ==> cmp(s[i], target) > 0
    ensures cmp(s[mid], target) < 0 ==> forall i :: mid <= i < |s| ==> cmp(s[i], target) < 0
  {
    forall i | 0 <= i <= mid
      ensures cmp(s[mid], target) >= 0 ==> cmp(s[i], target) >= 0
      ensures cmp(s[mid], target) > 0 ==> cmp(s[i], target) > 0
    {
      Between(cmp, s[mid], s[i], target);
    }
    forall i | mid <= i < |s|
      ensures cmp(s[mid], target) < 0 ==> cmp(s[i], target) < 0
    {
      Between(cmp, s[i], s[mid], target);
    }
  }

  /** Of two elements in order, the target lies above the larger only if it lies above the smaller. */
  lemma {:induction false} Between<T(!new)>(cmp: (T, T) -> int, x: T, y: T, target: T)
    requires Preorder(cmp) && (x == y || cmp(x, y) <= 0 || cmp(y, x) >= 0)
    ensures cmp(y, target) < 0 ==> cmp(x, target) < 0
    ensures cmp(y, target) <= 0 ==> cmp(x, target) <= 0
    ensures cmp(x, target) > 0 ==> cmp(y, target) > 0
    ensures cmp(x, target) >= 0 ==> cmp(y, target) >= 0
  {
    assert cmp(x, y) <= 0 || x == y;
    assert cmp(target, x) <= 0 ==> cmp(target, y) <= 0;
  }

  /** An element put in where an unsuccessful or successful search points keeps the array sorted. */
  lemma {:induction false} InsertionKeepsAscending<T(!new)>(cmp: (T, T) -> int, s: seq<T>, index: nat, target: T)
    requires Preorder(cmp) && Ascending(cmp, s) && index <= |s|
    requires forall i :: 0 <= i < index ==> cmp(s[i], target) < 0
    requires forall i :: index <= i < |s| ==> cmp(s[i], target) >= 0
    ensures Ascending(cmp, s[..index] + [target] + s[index..])
  {
    var t := s[..index] + [target] + s[index..];
    assert cmp(target, target) <= 0 || cmp(target, target) >= 0;
    forall i, j | 0 <= i < j < |t|
      ensures cmp(t[i], t[j]) <= 0
    {
      if j == index {
        assert t[i] == s[i];
      } else if i == index {
        assert t[j] == s[j - 1];
      } else {
        assert t[i] == s[if i < index then i else i - 1] && t[j] == s[if j < index then j else j - 1];
      }
    }
  }
}
