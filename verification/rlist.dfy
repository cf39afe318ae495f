/** rat/src/rat_rlist.c: a doubly linked list whose elements are blocks of a parent allocator.

    Pointers are addresses, 0 is NULL; element memory is a map from address to record. What the
    parent answers is passed in: refused, or an address and the payload bytes found behind the
    header, which may be more than were asked for. */
module Rlist {
  import opened Numbers
  import opened Pointers
  import opened Usage

  /** elem, with `size` bytes of payload. */
  datatype Elem = Elem(prev: Ptr, next: Ptr, size: nat, data: seq<int>)

  datatype Answer = Refused | Granted(ptr: Ptr, data: seq<int>)

  ghost function Elements(s: seq<Ptr>): set<Ptr> {
    set q | q in s
  }

  /** The list memory is exactly the elements of `s`, and their links in the two directions are
      mirror images. */
  ghost predicate Mirrored(mem: map<Ptr, Elem>, s: seq<Ptr>) {
    && NoDup(s)
    && (forall p :: p in mem <==> p in s)
    && NULL !in s
    && (forall j :: 0 <= j < |s| ==> LinkAt(mem, s, j))
    && (forall p :: p in mem ==> mem[p].size == |mem[p].data|)
  }

  /** The links of the element at position `j`. */
  ghost predicate LinkAt(mem: map<Ptr, Elem>, s: seq<Ptr>, j: nat)
    requires j < |s|
  {
    s[j] in mem && mem[s[j]].prev == At(s, j - 1) && mem[s[j]].next == At(s, j + 1)
  }

  /** `*(&p->next) = q`, where `p` may be NULL. */
  function SetNext(mem: map<Ptr, Elem>, p: Ptr, q: Ptr): map<Ptr, Elem> {
    if p in mem then mem[p := mem[p].(next := q)] else mem
  }

  function SetPrev(mem: map<Ptr, Elem>, p: Ptr, q: Ptr): map<Ptr, Elem> {
    if p in mem then mem[p := mem[p].(prev := q)] else mem
  }

  /** No payload but that of `p` differs. */
  ghost predicate PayloadsKept(mem: map<Ptr, Elem>, mem': map<Ptr, Elem>, p: Ptr) {
    forall q :: q in mem && q in mem' && q != p ==> mem'[q].data == mem[q].data
  }

  // ---- What relinking does to the sequence --------------------------------------------------------

  /** Position `j` is where `p` stands; it stands nowhere else. */
  lemma {:induction false} OnlyAt(s: seq<Ptr>, p: Ptr) returns (j: nat)
    requires NoDup(s) && p in s
    ensures j < |s| && s[j] == p && forall k :: 0 <= k < |s| && k != j ==> s[k] != p
  {
    j :| 0 <= j < |s| && s[j] == p;
  }

  // In each lemma, `before` and `after` are the neighbours of the change; NULL where there is none.

  /** `mem'` differs from `mem` in the link forward of `before`, in the link back of `after`, and in
      the addresses of `moved`. */
  ghost predicate Relinked(mem: map<Ptr, Elem>, mem': map<Ptr, Elem>, before: Ptr, forward: Ptr, after: Ptr,
                           back: Ptr, moved: set<Ptr>) {
    && (before in mem && before != NULL && before !in moved ==>
          before in mem' && mem'[before] == mem[before].(next := forward))
    && (after in mem && after != NULL && after !in moved ==> after in mem' && mem'[after] == mem[after].(prev := back))
    && (forall q :: q in mem && q !in moved && q != before && q != after ==> q in mem' && mem'[q] == mem[q])
    && (forall q :: q in mem' ==> q in mem || q in moved)
  }

  lemma {:induction false} InsertElements(s: seq<Ptr>, s': seq<Ptr>, j: nat, p: Ptr)
    requires NoDup(s) && p !in s && j <= |s| && s' == s[..j] + [p] + s[j..]
    ensures NoDup(s') && forall q :: q in s' <==> q == p || q in s
  {
    assert s == s[..j] + s[j..];
    forall a, b | 0 <= a < b < |s'|
      ensures s'[a] != s'[b]
    {
      var a0, b0 := if a < j then a else a - 1, if b < j then b else b - 1;
      assert a != j ==> s'[a] == s[a0] && s[a0] in s;
      assert b != j ==> s'[b] == s[b0] && s[b0] in s;
    }
  }

  lemma {:induction false} InsertLink(mem: map<Ptr, Elem>, mem': map<Ptr, Elem>, s: seq<Ptr>, s': seq<Ptr>, j: nat,
                                      p: Ptr, k: nat)
    requires Mirrored(mem, s) && j <= |s| && s' == s[..j] + [p] + s[j..] && k < |s'| && p !in mem
    requires Relinked(mem, mem', At(s, j - 1), p, At(s, j), p, {p})
    requires p in mem' && mem'[p].prev == At(s, j - 1) && mem'[p].next == At(s, j)
    ensures LinkAt(mem', s', k)
  {
    hide NoDup;
    var k0 := if k < j then k else k - 1;
    if k != j {
      assert s'[k] == s[k0] && s[k0] in s && LinkAt(mem, s, k0);
      assert NoDupAt(s, k0, j - 1) && NoDupAt(s, k0, j) by { Apart(s, k0, j - 1); Apart(s, k0, j); }
    }
  }

  ghost predicate NoDupAt(s: seq<Ptr>, k: nat, j: int)
    requires k < |s|
  {
    0 <= j < |s| && j != k ==> s[k] != s[j]
  }

  lemma {:induction false} Apart(s: seq<Ptr>, k: nat, j: int)
    requires NoDup(s) && k < |s|
    ensures NoDupAt(s, k, j)
  {
  }

  /** A new element `p` between positions j - 1 and j. */
  lemma {:induction false} InsertMirrored(mem: map<Ptr, Elem>, mem': map<Ptr, Elem>, s: seq<Ptr>, s': seq<Ptr>,
                                          j: nat, p: Ptr)
    requires Mirrored(mem, s) && j <= |s| && s' == s[..j] + [p] + s[j..] && p != NULL && p !in mem
    requires Relinked(mem, mem', At(s, j - 1), p, At(s, j), p, {p})
    requires p in mem' && mem'[p].prev == At(s, j - 1) && mem'[p].next == At(s, j) && mem'[p].size == |mem'[p].data|
    ensures Mirrored(mem', s')
  {
    InsertElements(s, s', j, p);
    forall k | 0 <= k < |s'|
      ensures LinkAt(mem', s', k)
    {
      InsertLink(mem, mem', s, s', j, p, k);
    }
  }

  lemma {:induction false} RemoveElements(s: seq<Ptr>, s': seq<Ptr>, j: nat, k: nat)
    requires NoDup(s) && j <= k <= |s| && s' == s[..j] + s[k..]
    ensures NoDup(s') && forall q :: q in s' <==> q in s && q !in s[j..k]
  {
    var head, run, tail := s[..j], s[j..k], s[k..];
    assert s == head + (run + tail);
    forall q
      ensures q in s' <==> q in s && q !in run
    {
      RemoveMember(s, j, k, q);
    }
    forall a, b | 0 <= a < b < |s'|
      ensures s'[a] != s'[b]
    {
      assert s'[a] == s[if a < j then a else a - j + k] && s'[b] == s[if b < j then b else b - j + k];
    }
  }

  lemma {:induction false} RemoveMember(s: seq<Ptr>, j: nat, k: nat, q: Ptr)
    requires NoDup(s) && j <= k <= |s|
    ensures q in s[..j] + s[k..] <==> q in s && q !in s[j..k]
  {
    var head, run, tail := s[..j], s[j..k], s[k..];
    assert s == head + (run + tail);
    if q in run {
      hide NoDup;
      NotOutside(s, head, run, tail, q);
    }
  }

  lemma {:induction false} NotOutside(s: seq<Ptr>, head: seq<Ptr>, run: seq<Ptr>, tail: seq<Ptr>, q: Ptr)
    requires NoDup(s) && s == head + (run + tail) && q in run
    ensures q !in head && q !in tail
  {
    var b :| 0 <= b < |run| && run[b] == q;
    OnlyThere(s, |head| + b, q);
    hide NoDup;
    assert forall a :: 0 <= a < |head| ==> head[a] == s[a];
    assert forall a :: 0 <= a < |tail| ==> tail[a] == s[|head| + |run| + a];
  }

  lemma {:induction false} OnlyThere(s: seq<Ptr>, i: nat, q: Ptr)
    requires NoDup(s) && i < |s| && s[i] == q
    ensures forall a :: 0 <= a < |s| && a != i ==> s[a] != q
  {
  }

  lemma {:induction false} RemoveLink(mem: map<Ptr, Elem>, mem': map<Ptr, Elem>, s: seq<Ptr>, s': seq<Ptr>, j: nat,
                                      k: nat, moved: set<Ptr>, i: nat)
    requires Mirrored(mem, s) && j < k <= |s| && s' == s[..j] + s[k..] && i < |s'|
    requires forall q :: q in moved <==> q in s[j..k]
    requires Relinked(mem, mem', At(s, j - 1), At(s, k), At(s, k), At(s, j - 1), moved)
    ensures LinkAt(mem', s', i)
  {
    hide NoDup, Mirrored;
    var i0 := if i < j then i else i - j + k;
    MirroredParts(mem, s, i0);
    RemoveElements(s, s', j, k);
    assert s'[i] == s[i0] && s'[i] in s';
    Apart(s, i0, j - 1);
    Apart(s, i0, k);
  }

  lemma {:induction false} MirroredParts(mem: map<Ptr, Elem>, s: seq<Ptr>, j: nat)
    requires Mirrored(mem, s) && j < |s|
    ensures NoDup(s) && NULL !in s && LinkAt(mem, s, j) && s[j] in s && s[j] != NULL
  {
  }

  /** Taking out the run of positions [j, k). */
  lemma {:induction false} RemoveMirrored(mem: map<Ptr, Elem>, mem': map<Ptr, Elem>, s: seq<Ptr>, s': seq<Ptr>,
                                          j: nat, k: nat, moved: set<Ptr>)
    requires Mirrored(mem, s) && j < k <= |s| && s' == s[..j] + s[k..]
    requires forall q :: q in moved <==> q in s[j..k]
    requires Relinked(mem, mem', At(s, j - 1), At(s, k), At(s, k), At(s, j - 1), moved)
    requires forall q :: q in mem' ==> q !in moved
    ensures Mirrored(mem', s')
  {
    RemoveElements(s, s', j, k);
    forall i | 0 <= i < |s'|
      ensures LinkAt(mem', s', i)
    {
      RemoveLink(mem, mem', s, s', j, k, moved, i);
    }
    RemoveMembers(mem, mem', s, s', j, k, moved);
  }

  lemma {:induction false} RemoveMembers(mem: map<Ptr, Elem>, mem': map<Ptr, Elem>, s: seq<Ptr>, s': seq<Ptr>, j: nat,
                                         k: nat, moved: set<Ptr>)
    requires Mirrored(mem, s) && j < k <= |s| && (forall q :: q in s' <==> q in s && q !in s[j..k])
    requires forall q :: q in moved <==> q in s[j..k]
    requires Relinked(mem, mem', At(s, j - 1), At(s, k), At(s, k), At(s, j - 1), moved)
    requires forall q :: q in mem' ==> q !in moved
    ensures forall q :: q in mem' <==> q in s'
    ensures forall q :: q in mem' ==> mem'[q].size == |mem'[q].data|
  {
    hide NoDup, LinkAt;
  }

  lemma {:induction false} MoveLink(mem: map<Ptr, Elem>, mem': map<Ptr, Elem>, s: seq<Ptr>, j: nat, p: Ptr, i: nat)
    requires Mirrored(mem, s) && j < |s| && p != NULL && (p == s[j] || p !in mem) && i < |s|
    requires Relinked(mem, mem', At(s, j - 1), p, At(s, j + 1), p, {s[j], p})
    requires p in mem' && mem'[p].prev == At(s, j - 1) && mem'[p].next == At(s, j + 1)
    ensures LinkAt(mem', Put(s, j, p), i)
  {
    hide NoDup;
    assert LinkAt(mem, s, i) && s[i] in s;
    Apart(s, i, j);
    Apart(s, i, j - 1);
    Apart(s, i, j + 1);
  }

  /** The element at position `j` moves to address `p`. */
  lemma {:induction false} MoveMirrored(mem: map<Ptr, Elem>, mem': map<Ptr, Elem>, s: seq<Ptr>, j: nat, p: Ptr)
    requires Mirrored(mem, s) && j < |s| && p != NULL && (p == s[j] || p !in mem)
    requires Relinked(mem, mem', At(s, j - 1), p, At(s, j + 1), p, {s[j], p})
    requires s[j] in mem' ==> s[j] == p
    requires p in mem' && mem'[p].prev == At(s, j - 1) && mem'[p].next == At(s, j + 1) && mem'[p].size == |mem'[p].data|
    ensures Mirrored(mem', Put(s, j, p))
  {
    PutElements(s, j, p);
    forall i | 0 <= i < |s|
      ensures LinkAt(mem', Put(s, j, p), i)
    {
      MoveLink(mem, mem', s, j, p, i);
    }
    MoveMembers(mem, mem', s, j, p);
  }

  lemma {:induction false} MoveMembers(mem: map<Ptr, Elem>, mem': map<Ptr, Elem>, s: seq<Ptr>, j: nat, p: Ptr)
    requires Mirrored(mem, s) && j < |s| && p != NULL && (p == s[j] || p !in mem)
    requires Relinked(mem, mem', At(s, j - 1), p, At(s, j + 1), p, {s[j], p})
    requires s[j] in mem' ==> s[j] == p
    requires p in mem' && mem'[p].size == |mem'[p].data|
    ensures forall q :: q in mem' <==> q == p || (q in s && q != s[j])
    ensures forall q :: q in mem' ==> mem'[q].size == |mem'[q].data|
  {
    hide NoDup, LinkAt;
  }

  // ---- The code ------------------------------------------------------------------------------

  /** A granted block is new, and holds at least what was asked for. */
  ghost predicate Suits(mem: map<Ptr, Elem>, a: Answer, size: nat) {
    a.Granted? ==> a.ptr != NULL && a.ptr !in mem && |a.data| >= size
  }

  /** ralc_realloc keeps the address or takes a new one, and keeps the bytes that fit the request. */
  ghost predicate SuitsRealloc(mem: map<Ptr, Elem>, obj: Ptr, a: Answer, size: nat)
    requires obj in mem
  {
    a.Granted? ==>
      && a.ptr != NULL && (a.ptr == obj || a.ptr !in mem)
      && |a.data| >= size
      && KeepsPrefix(mem[obj].data, a.data, size)
  }

  /** The bytes of `from` that fit in `size` are those of `to`. */
  ghost predicate KeepsPrefix(from: seq<int>, to: seq<int>, size: nat) {
    forall k :: 0 <= k < |from| && k < size ==> k < |to| && to[k] == from[k]
  }

  /** The payload of an element that has been resized: what ralc_realloc returned, or the bytes that
      fit copied over those of a new block. */
  function NewData(data: seq<int>, re: Answer, al: Answer): seq<int> {
    if re.Granted? then re.data
    else if al.Granted? then
      var m := Least(|data|, |al.data|);
      data[..m] + al.data[m..]
    else data
  }

  class List {
    var mem: map<Ptr, Elem>
    var first: Ptr
    var last: Ptr
    var count: nat
    /** The sequence that the list represents. */
    ghost var nodes: seq<Ptr>

    ghost predicate Valid()
      reads this
    {
      && Mirrored(mem, nodes)
      && first == At(nodes, 0) && last == At(nodes, |nodes| - 1) && count == |nodes|
    }

    /** rlist_init */
    constructor ()
      ensures Valid() && nodes == []
    {
      mem, first, last, count, nodes := map[], NULL, NULL, 0, [];
    }

    /** Where `obj` stands; NULL stands behind the end. */
    lemma {:induction false} Position(obj: Ptr) returns (j: nat)
      requires Valid() && (obj == NULL || obj in mem)
      ensures j <= |nodes| && At(nodes, j) == obj && (j == |nodes| <==> obj == NULL)
      ensures j < |nodes| ==> LinkAt(mem, nodes, j)
      ensures forall k :: 0 <= k <= |nodes| && At(nodes, k) == obj ==> k == j
    {
      if obj == NULL {
        j := |nodes|;
        assert forall k :: 0 <= k < |nodes| ==> nodes[k] in nodes;
      } else {
        j := OnlyAt(nodes, obj);
      }
    }

    /** rlist_insert: before `obj`, or at the back when it is NULL. */
    method Insert(obj: Ptr, size: nat, answer: Answer) returns (r: Ptr, ghost j: nat)
      requires Valid() && (obj == NULL || obj in mem) && Suits(mem, answer, size)
      modifies this
      ensures Valid() && j <= |old(nodes)| && At(old(nodes), j) == obj && (obj == NULL ==> j == |old(nodes)|)
      ensures r == if answer.Granted? then answer.ptr else NULL
      ensures r == NULL ==> mem == old(mem) && nodes == old(nodes)
      ensures r != NULL ==>
                && nodes == old(nodes)[..j] + [r] + old(nodes)[j..]
                && r in mem && mem[r].data == answer.data && PayloadsKept(old(mem), mem, r)
    {
      hide Mirrored, SetPrev, SetNext, LinkAt, PayloadsKept, Relinked;
      j := Position(obj);
      if answer.Refused? {
        return NULL, j;
      }
      ghost var mem0, s := mem, nodes;
      NeighboursOf(mem, s, j);
      PrevOf(mem, s, j);
      var p := answer.ptr;
      r := p;
      var prev, next;
      if obj != NULL {
        next := obj;
        prev := mem[obj].prev;
        mem := SetPrev(mem, obj, p);
      } else {
        next := NULL;
        prev := last;
        last := p;
      }
      if prev != NULL {
        mem := SetNext(mem, prev, p);
      } else {
        first := p;
      }
      mem := mem[p := Elem(prev, next, |answer.data|, answer.data)];
      count := count + 1;
      nodes := s[..j] + [p] + s[j..];
      InsertRelinked(mem0, mem, s, j, p, answer.data);
      InsertMirrored(mem0, mem, s, nodes, j, p);
      InsertEnds(s, j, p);
    }

    /** rlist_resize. `re` is what ralc_realloc answers, `al` what ralc_alloc answers after a
        refusal. A refused realloc leaves the requested size alone, so that the fallback asks for
        the same. */
    method Resize(obj: Ptr, newSize: nat, re: Answer, al: Answer) returns (r: Ptr, ghost j: nat)
      requires Valid() && obj in mem && SuitsRealloc(mem, obj, re, newSize) && Suits(mem, al, newSize)
      modifies this
      ensures Valid() && j < |old(nodes)| && old(nodes)[j] == obj
      ensures r == if re.Granted? then re.ptr else if al.Granted? then al.ptr else NULL
      ensures r == NULL ==> mem == old(mem) && nodes == old(nodes)
      ensures r != NULL ==>
                && nodes == Put(old(nodes), j, r)
                && r in mem && mem[r].data == NewData(old(mem[obj].data), re, al) && |mem[r].data| >= newSize
                && KeepsPrefix(old(mem[obj].data), mem[r].data, newSize)
                && PayloadsKept(old(mem), mem, r)
    {
      hide Mirrored, LinkAt, PayloadsKept, Relinked, KeepsPrefix, Put, SetNext, SetPrev, NewData;
      j := Position(obj);
      ghost var mem0, s := mem, nodes;
      NullIsNot(mem0, s);
      PrevOf(mem0, s, j);
      r := MoveBlock(obj, newSize, re, al);
      if r == NULL {
        return;
      }
      ghost var data := mem[r].data;
      var prev, next := mem[r].prev, mem[r].next;
      if prev != NULL {
        mem := SetNext(mem, prev, r);
      } else {
        first := r;
      }
      if next != NULL {
        mem := SetPrev(mem, next, r);
      } else {
        last := r;
      }
      StillThere(mem0, s, j, r, data, mem);
      mem := mem[r := mem[r].(size := |mem[r].data|)];
      nodes := Put(s, j, r);
      MoveRelinked(mem0, mem, s, j, r, data);
      MoveMirrored(mem0, mem, s, j, r);
      MoveEnds(s, j, r);
    }

    /** The first half of rlist_resize: the block is resized by the parent, or copied to a new one
        and given back. The header moves along as it is. */
    method MoveBlock(obj: Ptr, newSize: nat, re: Answer, al: Answer) returns (r: Ptr)
      requires Mirrored(mem, nodes) && obj in mem && SuitsRealloc(mem, obj, re, newSize) && Suits(mem, al, newSize)
      modifies this`mem
      ensures r == if re.Granted? then re.ptr else if al.Granted? then al.ptr else NULL
      ensures r == NULL ==> mem == old(mem)
      ensures r != NULL ==>
                && r in mem && (r == obj || r !in old(mem))
                && mem == (old(mem) - {obj})[r := old(mem[obj]).(data := mem[r].data)]
                && mem[r].data == NewData(old(mem[obj].data), re, al)
                && |mem[r].data| >= newSize && KeepsPrefix(old(mem[obj].data), mem[r].data, newSize)
    {
      hide Mirrored, KeepsPrefix;
      var e := mem[obj];
      if re.Granted? {
        r := re.ptr;
        mem := (mem - {obj})[r := e.(data := re.data)];
      } else if al.Granted? {
        r := al.ptr;
        var m := Least(|e.data|, |al.data|);
        mem := mem[r := e.(data := e.data[..m] + al.data[m..])];
        mem := mem - {obj};
        CopiedPrefix(e.data, al.data, newSize);
      } else {
        r := NULL;
      }
    }

    /** rlist_remove: the run of `n` elements from `obj` on. `freed` are the elements given back, in
        order. */
    method Remove(obj: Ptr, n: nat) returns (following: Ptr, freed: seq<Ptr>, ghost j: nat)
      requires Valid() && n <= count
      requires if n == 0 then obj == NULL else obj in mem
      requires n > 0 ==> forall k :: 0 <= k < |nodes| && nodes[k] == obj ==> k + n <= |nodes|
      modifies this
      ensures Valid()
      ensures n == 0 ==> following == NULL && freed == [] && nodes == old(nodes) && mem == old(mem)
      ensures n > 0 ==>
                && j + n <= |old(nodes)| && old(nodes)[j] == obj
                && freed == old(nodes)[j..j + n]
                && nodes == old(nodes)[..j] + old(nodes)[j + n..]
                && following == At(old(nodes), j + n) == At(nodes, j)
                && PayloadsKept(old(mem), mem, NULL)
    {
      hide Mirrored, SetPrev, SetNext, LinkAt, PayloadsKept, Freed;
      j := 0;
      if n == 0 {
        return NULL, [], j;
      }
      j := Position(obj);
      ghost var mem0, s := mem, nodes;
      PrevOf(mem0, s, j);
      var elem := obj;
      var before := mem[elem].prev;
      NullIsNot(mem0, s);
      assert s[j] == obj;
      elem, freed := FreeRun(elem, n, j);
      ghost var left := mem;
      RunNeighbours(mem0, s, j, n);
      if before != NULL {
        mem := SetNext(mem, before, elem);
      } else {
        first := elem;
      }
      if elem != NULL {
        mem := SetPrev(mem, elem, before);
      } else {
        last := before;
      }
      count := count - n;
      nodes := s[..j] + s[j + n..];
      following := elem;
      RunRemoved(mem0, left, mem, s, nodes, j, n);
    }

    /** The loop of rlist_remove: each element is read before it is given back. */
    method FreeRun(obj: Ptr, n: nat, ghost j: nat) returns (elem: Ptr, freed: seq<Ptr>)
      requires Mirrored(mem, nodes) && n > 0 && j + n <= |nodes| && nodes[j] == obj
      modifies this`mem
      ensures elem == At(nodes, j + n) && freed == nodes[j..j + n] && Freed(old(mem), mem, nodes, j, n)
    {
      hide Mirrored;
      ghost var mem0, s := mem, nodes;
      elem, freed := obj, [];
      FreedNone(mem0, s, j);
      for i := 0 to n
        invariant elem == At(s, j + i) && freed == s[j..j + i]
        invariant Freed(mem0, mem, s, j, i)
      {
        FreedStep(mem0, mem, s, j, i);
        PrevOf(mem0, s, j + i);
        var next := mem[elem].next;
        mem := mem - {elem};
        freed := freed + [elem];
        elem := next;
      }
    }

    /** rlist_index */
    method Index(obj: Ptr) returns (index: nat)
      requires Valid() && obj in mem
      ensures index < |nodes| && nodes[index] == obj
    {
      ghost var target := Position(obj);
      var elem := first;
      index := 0;
      while elem != obj
        invariant index <= target && elem == nodes[index]
        decreases target - index
      {
        assert LinkAt(mem, nodes, index);
        index := index + 1;
        elem := mem[elem].next;
      }
    }

    /** rlist_at, from whichever end is nearer. */
    method Nth(index: nat) returns (obj: Ptr)
      requires Valid() && index < count
      ensures obj in mem && obj == nodes[index]
    {
      assert LinkAt(mem, nodes, index);
      if index < count / 2 {
        obj := first;
        var left: nat := index;
        while left > 0
          invariant left <= index && obj == nodes[index - left]
        {
          assert LinkAt(mem, nodes, index - left);
          left := left - 1;
          obj := mem[obj].next;
        }
      } else {
        obj := last;
        var left: nat := count - index - 1;
        while left > 0
          invariant left <= count - index - 1 && obj == nodes[index + left]
        {
          assert LinkAt(mem, nodes, index + left);
          left := left - 1;
          obj := mem[obj].prev;
        }
      }
    }

    /** rlist_getUsage, from the parent's usage, which accounts for the elements as blocks, header and
        payload together. */
    method GetUsage(header: nat, parent: Usage) returns (u: Usage)
      requires Valid() && Footprint(header, mem, nodes) <= parent.blockSize
      ensures u.Total() == parent.Total()
      ensures u.blockSize == parent.blockSize - Footprint(header, mem, nodes) + Footprint(0, mem, nodes)
      ensures u.blockCount == parent.blockCount && u.holeCount == parent.holeCount && u.holeSize == parent.holeSize
    {
      HeadersAddUp(header, mem, nodes);
      var systemSize: nat := count * header;
      u := parent.(systemSize := parent.systemSize + systemSize, blockSize := parent.blockSize - systemSize);
    }

    /** rlist_at and rlist_index are inverses. */
    method IndexOfNth(index: nat) returns (again: nat)
      requires Valid() && index < count
      ensures again == index
    {
      var obj := Nth(index);
      again := Index(obj);
    }
  }

  /** Bytes of the elements of `s`, each behind a header. */
  ghost function Footprint(header: nat, mem: map<Ptr, Elem>, s: seq<Ptr>): nat {
    if s == [] then 0
    else header + (if s[0] in mem then |mem[s[0]].data| else 0) + Footprint(header, mem, s[1..])
  }

  lemma {:induction false} HeadersAddUp(header: nat, mem: map<Ptr, Elem>, s: seq<Ptr>)
    ensures |s| * header >= 0
    ensures Footprint(header, mem, s) == |s| * header + Footprint(0, mem, s)
  {
    if s != [] {
      HeadersAddUp(header, mem, s[1..]);
      assert |s| * header == |s[1..]| * header + header;
    }
  }

  lemma {:induction false} NullIsNot(mem: map<Ptr, Elem>, s: seq<Ptr>)
    requires Mirrored(mem, s)
    ensures NULL !in mem && forall j :: 0 <= j < |s| ==> s[j] != NULL
  {
    assert forall j :: 0 <= j < |s| ==> s[j] in s;
  }

  lemma {:induction false} CopiedPrefix(from: seq<int>, to: seq<int>, size: nat)
    requires size <= |to|
    ensures var m := Least(|from|, |to|);
            |from[..m] + to[m..]| == |to| && KeepsPrefix(from, from[..m] + to[m..], size)
  {
  }

  lemma {:induction false} MoveRelinked(mem: map<Ptr, Elem>, mem': map<Ptr, Elem>, s: seq<Ptr>, j: nat, p: Ptr,
                                        data: seq<int>)
    requires Mirrored(mem, s) && j < |s| && p != NULL && (p == s[j] || p !in mem) && s[j] in mem
    requires var prev, next := At(s, j - 1), At(s, j + 1);
             var e := mem[s[j]].(data := data);
             var m0 := (mem - {s[j]})[p := e];
             var m1 := if prev != NULL then SetNext(m0, prev, p) else m0;
             var m2 := if next != NULL then SetPrev(m1, next, p) else m1;
             p in m2 && mem' == m2[p := m2[p].(size := |data|)]
    ensures Relinked(mem, mem', At(s, j - 1), p, At(s, j + 1), p, {s[j], p}) && PayloadsKept(mem, mem', p)
    ensures p in mem' && mem'[p].prev == At(s, j - 1) && mem'[p].next == At(s, j + 1)
    ensures mem'[p].data == data && mem'[p].size == |data|
    ensures s[j] in mem' ==> s[j] == p
  {
    NeighboursOf(mem, s, j);
    NeighboursOf(mem, s, j + 1);
    PrevOf(mem, s, j);
    Apart(s, j, j - 1);
    Apart(s, j, j + 1);
    assert j > 0 && j + 1 < |s| ==> NoDupAt(s, j - 1, j + 1) by {
      if j > 0 {
        Apart(s, j - 1, j + 1);
      }
    }
  }

  lemma {:induction false} StillThere(mem: map<Ptr, Elem>, s: seq<Ptr>, j: nat, p: Ptr, data: seq<int>,
                                      m2: map<Ptr, Elem>)
    requires Mirrored(mem, s) && j < |s| && p != NULL && (p == s[j] || p !in mem) && s[j] in mem
    requires var prev, next := At(s, j - 1), At(s, j + 1);
             var m0 := (mem - {s[j]})[p := mem[s[j]].(data := data)];
             var m1 := if prev != NULL then SetNext(m0, prev, p) else m0;
             m2 == if next != NULL then SetPrev(m1, next, p) else m1
    ensures p in m2 && m2[p].data == data
  {
  }

  /** The first `i` elements of the run from position `j` on have been given back. */
  ghost predicate Freed(mem0: map<Ptr, Elem>, mem: map<Ptr, Elem>, s: seq<Ptr>, j: nat, i: nat)
    requires j + i <= |s|
  {
    && (forall q :: q in mem <==> q in mem0 && q !in s[j..j + i])
    && (forall q :: q in mem && q in mem0 ==> mem[q] == mem0[q])
  }

  lemma {:induction false} FreedNone(mem: map<Ptr, Elem>, s: seq<Ptr>, j: nat)
    requires j <= |s|
    ensures Freed(mem, mem, s, j, 0)
  {
  }

  lemma {:induction false} NotYetFreed(s: seq<Ptr>, j: nat, i: nat)
    requires NoDup(s) && j + i < |s|
    ensures s[j + i] !in s[j..j + i]
  {
  }

  lemma {:induction false} FreedStep(mem0: map<Ptr, Elem>, mem: map<Ptr, Elem>, s: seq<Ptr>, j: nat, i: nat)
    requires Mirrored(mem0, s) && j + i < |s| && Freed(mem0, mem, s, j, i)
    ensures s[j + i] in mem && mem[s[j + i]] == mem0[s[j + i]]
    ensures Freed(mem0, mem - {s[j + i]}, s, j, i + 1)
  {
    hide Mirrored, NoDup;
    MirroredParts(mem0, s, j + i);
    NotYetFreed(s, j, i);
    OneMoreInRun(s, j, i, s[j..j + i], s[j..j + i + 1]);
  }

  lemma {:induction false} OneMoreInRun(s: seq<Ptr>, j: nat, i: nat, run: seq<Ptr>, longer: seq<Ptr>)
    requires j + i < |s| && run == s[j..j + i] && longer == s[j..j + i + 1]
    ensures forall q :: q in longer <==> q in run || q == s[j + i]
  {
    assert longer == run + [s[j + i]];
  }

  /** The neighbours of the run from position `j` on are not in it, and not each other. */
  lemma {:induction false} RunNeighbours(mem: map<Ptr, Elem>, s: seq<Ptr>, j: nat, n: nat)
    requires Mirrored(mem, s) && n > 0 && j + n <= |s|
    ensures var before, after := At(s, j - 1), At(s, j + n);
            && before !in s[j..j + n] && after !in s[j..j + n]
            && (before != NULL <==> j > 0) && (after != NULL <==> j + n < |s|)
            && (before != NULL ==> before in mem && before != after) && (after != NULL ==> after in mem)
            && NULL !in mem
  {
    NullIsNot(mem, s);
    var run := s[j..j + n];
    forall q | q in run
      ensures q != At(s, j - 1) && q != At(s, j + n)
    {
      var i :| 0 <= i < n && run[i] == q;
      assert q == s[j + i];
    }
    assert j > 0 ==> s[j - 1] in s;
    assert j + n < |s| ==> s[j + n] in s;
  }

  lemma {:induction false} MoveEnds(s: seq<Ptr>, j: nat, p: Ptr)
    requires j < |s|
    ensures |Put(s, j, p)| == |s|
    ensures At(Put(s, j, p), 0) == (if j == 0 then p else At(s, 0))
    ensures At(Put(s, j, p), |s| - 1) == (if j + 1 == |s| then p else At(s, |s| - 1))
  {
  }

  lemma {:induction false} RemoveEnds(mem: map<Ptr, Elem>, s: seq<Ptr>, j: nat, n: nat)
    requires Mirrored(mem, s) && n > 0 && j + n <= |s|
    ensures var s' := s[..j] + s[j + n..];
            && |s'| == |s| - n
            && At(s', 0) == (if j > 0 then At(s, 0) else At(s, j + n))
            && At(s', |s'| - 1) == (if j + n < |s| then At(s, |s| - 1) else At(s, j - 1))
            && At(s', j) == At(s, j + n)
  {
  }

  lemma {:induction false} RemoveRelinked(mem0: map<Ptr, Elem>, left: map<Ptr, Elem>, mem': map<Ptr, Elem>,
                                          s: seq<Ptr>, j: nat, n: nat)
    requires Mirrored(mem0, s) && n > 0 && j + n <= |s| && Freed(mem0, left, s, j, n)
    requires var before, after := At(s, j - 1), At(s, j + n);
             var m1 := if before != NULL then SetNext(left, before, after) else left;
             mem' == if after != NULL then SetPrev(m1, after, before) else m1
    ensures Relinked(mem0, mem', At(s, j - 1), At(s, j + n), At(s, j + n), At(s, j - 1), Elements(s[j..j + n]))
    ensures forall q :: q in mem' ==> q !in Elements(s[j..j + n])
    ensures PayloadsKept(mem0, mem', NULL)
  {
    hide Mirrored;
    RunNeighbours(mem0, s, j, n);
  }

  /** Bypassing a run that has been given back takes it out of the list. */
  lemma {:induction false} RunRemoved(mem0: map<Ptr, Elem>, left: map<Ptr, Elem>, mem': map<Ptr, Elem>, s: seq<Ptr>,
                                      s': seq<Ptr>, j: nat, n: nat)
    requires Mirrored(mem0, s) && n > 0 && j + n <= |s| && Freed(mem0, left, s, j, n)
    requires var before, after := At(s, j - 1), At(s, j + n);
             var m1 := if before != NULL then SetNext(left, before, after) else left;
             mem' == if after != NULL then SetPrev(m1, after, before) else m1
    requires s' == s[..j] + s[j + n..]
    ensures Mirrored(mem', s') && PayloadsKept(mem0, mem', NULL)
    ensures |s'| == |s| - n
    ensures At(s', 0) == (if j > 0 then At(s, 0) else At(s, j + n))
    ensures At(s', |s'| - 1) == (if j + n < |s| then At(s, |s| - 1) else At(s, j - 1))
    ensures At(s', j) == At(s, j + n)
  {
    hide Mirrored, SetPrev, SetNext, PayloadsKept, Relinked, Freed;
    RemoveRelinked(mem0, left, mem', s, j, n);
    RemoveMirrored(mem0, mem', s, s', j, j + n, Elements(s[j..j + n]));
    RemoveEnds(mem0, s, j, n);
  }

  lemma {:induction false} PrevOf(mem: map<Ptr, Elem>, s: seq<Ptr>, j: nat)
    requires Mirrored(mem, s)
    ensures j < |s| ==> s[j] in mem && mem[s[j]].prev == At(s, j - 1) && mem[s[j]].next == At(s, j + 1)
  {
    assert j < |s| ==> LinkAt(mem, s, j);
  }

  lemma {:induction false} InsertEnds(s: seq<Ptr>, j: nat, p: Ptr)
    requires j <= |s|
    ensures var s' := s[..j] + [p] + s[j..];
            && At(s', 0) == (if j == 0 then p else At(s, 0))
            && At(s', |s'| - 1) == (if j == |s| then p else At(s, |s| - 1))
            && |s'| == |s| + 1
  {
  }

  lemma {:induction false} InsertRelinked(mem: map<Ptr, Elem>, mem': map<Ptr, Elem>, s: seq<Ptr>, j: nat, p: Ptr,
                                          data: seq<int>)
    requires Mirrored(mem, s) && j <= |s| && p != NULL && p !in mem
    requires var prev, next := At(s, j - 1), At(s, j);
             var m1 := if next != NULL then SetPrev(mem, next, p) else mem;
             var m2 := if prev != NULL then SetNext(m1, prev, p) else m1;
             mem' == m2[p := Elem(prev, next, |data|, data)]
    ensures Relinked(mem, mem', At(s, j - 1), p, At(s, j), p, {p}) && PayloadsKept(mem, mem', p)
  {
    NeighboursOf(mem, s, j);
  }

  /** The neighbours of the gap before position `j` are elements, different from each other. */
  lemma {:induction false} NeighboursOf(mem: map<Ptr, Elem>, s: seq<Ptr>, j: nat)
    requires Mirrored(mem, s) && j <= |s|
    ensures At(s, j - 1) != NULL <==> j > 0
    ensures At(s, j - 1) != NULL ==> At(s, j - 1) in mem
    ensures At(s, j) != NULL <==> j < |s|
    ensures At(s, j) != NULL ==> At(s, j) in mem && At(s, j) != At(s, j - 1)
  {
    assert j > 0 ==> s[j - 1] in s;
    assert j < |s| ==> s[j] in s;
  }
}
