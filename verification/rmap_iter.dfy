/** rmap_iterAll of rat/src/rat_rmap.c: an iterator that walks all buckets and may remove the
    element it returned last. */
module RmapIter {
  import opened Pointers
  import opened Rmap
  import opened RmapLayout

  // ---- Where an iterator stands ----------------------------------------------------------------

  /** The iterator has entered buckets below `bucketIndex` and stands at position `pos` of the last
      of them: `next` is the element there and `prevNext` the link that points at it. */
  ghost predicate AtNext(chains: seq<seq<Ptr>>, bucketIndex: nat, pos: nat, next: Ptr, prevNext: Link) {
    && bucketIndex <= |chains|
    && (bucketIndex == 0 ==> next == NULL && pos == 0)
    && (bucketIndex > 0 ==>
          var s := chains[bucketIndex - 1];
          pos <= |s| && next == At(s, pos) && prevNext == LinkTo(s, bucketIndex - 1, pos))
  }

  /** `last` is the element just before, if it is still there. */
  ghost predicate AtLast(chains: seq<seq<Ptr>>, bucketIndex: nat, pos: nat, last: Ptr, lastPrevNext: Link)
    requires bucketIndex <= |chains|
  {
    last != NULL ==>
      && bucketIndex > 0
      && var s := chains[bucketIndex - 1];
         0 < pos <= |s| && last == s[pos - 1] && lastPrevNext == LinkTo(s, bucketIndex - 1, pos - 1)
  }

  /** The elements still ahead of that position, in order. */
  ghost function Remaining(chains: seq<seq<Ptr>>, bucketIndex: nat, pos: nat): seq<Ptr> {
    (if 0 < bucketIndex <= |chains| && pos <= |chains[bucketIndex - 1]| then chains[bucketIndex - 1][pos..] else [])
    + Flat(chains, bucketIndex)
  }

  lemma {:induction false} SkipToBucket(chains: seq<seq<Ptr>>, bucketIndex: nat, pos: nat)
    requires bucketIndex < |chains| && (bucketIndex > 0 ==> pos == |chains[bucketIndex - 1]|)
    ensures Remaining(chains, bucketIndex + 1, 0) == Remaining(chains, bucketIndex, pos)
  {
    assert chains[bucketIndex][0..] == chains[bucketIndex];
  }

  lemma {:induction false} TakeOne(chains: seq<seq<Ptr>>, bucketIndex: nat, pos: nat)
    requires 0 < bucketIndex <= |chains| && pos < |chains[bucketIndex - 1]|
    ensures Remaining(chains, bucketIndex, pos)
            == [chains[bucketIndex - 1][pos]] + Remaining(chains, bucketIndex, pos + 1)
  {
    var s := chains[bucketIndex - 1];
    assert s[pos..] == [s[pos]] + s[pos + 1..];
  }

  lemma {:induction false} NextWithin(chains: seq<seq<Ptr>>, bucketIndex: nat, pos: nat, next: Ptr, prevNext: Link)
    requires AtNext(chains, bucketIndex, pos, next, prevNext)
    ensures bucketIndex <= |chains|
  {
  }

  /** On entering a bucket its slot points at the pending element. */
  lemma {:induction false} AtBucket(chains: seq<seq<Ptr>>, i: nat, head: Ptr)
    requires i < |chains| && head == At(chains[i], 0)
    ensures AtNext(chains, i + 1, 0, head, BucketSlot(i))
  {
  }

  /** Dropping the element returned last moves the position back by one and nothing else. */
  lemma {:induction false} DropLast(chains: seq<seq<Ptr>>, chains': seq<seq<Ptr>>, bucketIndex: nat, pos: nat,
                                    next: Ptr, prevNext: Link, last: Ptr, lastPrevNext: Link)
    requires AtNext(chains, bucketIndex, pos, next, prevNext)
    requires AtLast(chains, bucketIndex, pos, last, lastPrevNext) && last != NULL
    requires chains' == chains[bucketIndex - 1 := Drop(chains[bucketIndex - 1], pos - 1)]
    ensures AtNext(chains', bucketIndex, pos - 1, next, lastPrevNext)
    ensures Remaining(chains', bucketIndex, pos - 1) == Remaining(chains, bucketIndex, pos)
  {
    var s := chains[bucketIndex - 1];
    FlatSame(chains, chains', bucketIndex);
    assert Drop(s, pos - 1)[pos - 1..] == s[pos..];
  }

  /** What the map's invariant says about one position. */
  lemma {:induction false} MapWalk<Key(!new), Value>(m: Map<Key, Value>, i: nat, j: nat)
    requires m.Valid() && i < |m.chains|
    ensures |m.chains| == m.bucketCount == |m.buckets| && m.buckets[i] == At(m.chains[i], 0)
    ensures j < |m.chains[i]| ==>
              var p := m.chains[i][j];
              && p != NULL && p in m.mem && m.mem[p].next == At(m.chains[i], j + 1)
              && Spot(m.mem, m.chains, i, j, p, LinkTo(m.chains[i], i, j))
  {
    Walk(m.mem, m.buckets, m.chains, i, j);
  }

  lemma {:induction false} MapSize<Key(!new), Value>(m: Map<Key, Value>)
    requires m.Valid()
    ensures |m.chains| == m.bucketCount && m.count == |m.mem| && Lawful(m.laws) && KeysApart(m.laws, m.mem)
  {
  }

  class IterAll<Key(!new), Value> {
    const table: Map<Key, Value>
    var bucketIndex: nat
    var next: Ptr
    var prevNext: Link
    var last: Ptr
    var lastPrevNext: Link
    /** The position of the pending element in the chain of the bucket entered last. */
    ghost var pos: nat

    /** The saved links always point at the pending element and at the element returned last. */
    ghost predicate Valid()
      reads this, table
    {
      && table.Valid()
      && AtNext(table.chains, bucketIndex, pos, next, prevNext)
      && AtLast(table.chains, bucketIndex, pos, last, lastPrevNext)
    }

    /** The elements that are still to be returned, in order. */
    ghost function Todo(): seq<Ptr>
      requires Valid()
      reads this, table
    {
      Remaining(table.chains, bucketIndex, pos)
    }

    /** rmap_getAll */
    constructor (table: Map<Key, Value>)
      requires table.Valid()
      ensures Valid() && this.table == table && Todo() == Flat(table.chains, 0)
    {
      this.table := table;
      bucketIndex, next, prevNext, last, lastPrevNext, pos := 0, NULL, NoLink, NULL, NoLink, 0;
    }

    /** No pending element means the end of a chain. */
    lemma {:induction false} PendingNull()
      requires Valid() && next == NULL
      ensures bucketIndex > 0 ==> pos == |table.chains[bucketIndex - 1]|
    {
      hide Map.Valid, Good;
      if bucketIndex > 0 && pos < |table.chains[bucketIndex - 1]| {
        MapWalk(table, bucketIndex - 1, pos);
      }
    }

    /** One turn of the loop of rmap_iterAll_next: on to the next bucket. */
    method EnterBucket()
      requires Valid() && last == NULL && next == NULL && bucketIndex < table.bucketCount
      modifies this`bucketIndex, this`next, this`prevNext, this`pos
      ensures Valid() && bucketIndex == old(bucketIndex) + 1 && Todo() == old(Todo())
    {
      hide Housed, Good, Lawful, Filed, AllLinked, KeysApart, Flat, Spot, Remaining, LinkTo, AtNext;
      MapSize(table);
      PendingNull();
      MapWalk(table, bucketIndex, 0);
      SkipToBucket(table.chains, bucketIndex, pos);
      AtBucket(table.chains, bucketIndex, table.buckets[bucketIndex]);
      prevNext := BucketSlot(bucketIndex);
      next := table.buckets[bucketIndex];
      bucketIndex := bucketIndex + 1;
      pos := 0;
    }

    /** The loop: on to the next bucket that is not empty. */
    method SkipEmpty()
      requires Valid() && last == NULL
      modifies this`bucketIndex, this`next, this`prevNext, this`pos
      ensures Valid() && Todo() == old(Todo())
      ensures next == NULL ==> Todo() == []
    {
      hide Housed, Good, Lawful, Filed, AllLinked, KeysApart, Flat, Spot, Remaining, LinkTo, AtNext, AtLast;
      while next == NULL && bucketIndex < table.bucketCount
        invariant Valid() && Todo() == old(Todo())
        decreases table.bucketCount - bucketIndex
      {
        EnterBucket();
      }
      if next == NULL {
        MapSize(table);
        NextWithin(table.chains, bucketIndex, pos, next, prevNext);
        PendingNull();
        NothingRemains(table.chains, bucketIndex, pos);
      }
    }

    /** rmap_iterAll_next */
    method Next() returns (elem: Ptr)
      requires Valid()
      modifies this
      ensures Valid()
      ensures elem == NULL ==> old(Todo()) == [] == Todo()
      ensures elem != NULL ==> old(Todo()) == [elem] + Todo() && elem in table.mem && last == elem
    {
      hide Housed, Good, Lawful, Filed, AllLinked, KeysApart, Flat, Spot, Remaining;
      last, lastPrevNext := NULL, NoLink;
      SkipEmpty();
      elem := next;
      if elem == NULL {
        return;
      }
      NonEmpty();
      MapWalk(table, bucketIndex - 1, pos);
      TakeOne(table.chains, bucketIndex, pos);
      last := elem;
      lastPrevNext := prevNext;
      next := table.mem[elem].next;
      prevNext := NextOf(elem);
      pos := pos + 1;
    }

    /** A pending element stands in the chain of the bucket entered last. */
    lemma {:induction false} NonEmpty()
      requires Valid() && next != NULL
      ensures 0 < bucketIndex <= |table.chains| && pos < |table.chains[bucketIndex - 1]|
      ensures next == table.chains[bucketIndex - 1][pos]
      ensures prevNext == LinkTo(table.chains[bucketIndex - 1], bucketIndex - 1, pos)
    {
      hide Map.Valid, Good;
    }

    /** rmap_iterAll_removeElem */
    method RemoveElem()
      requires Valid() && last != NULL
      modifies this, table
      ensures Valid() && Todo() == old(Todo()) && last == NULL
      ensures old(last) in old(table.mem) && table.mem.Keys == old(table.mem).Keys - {old(last)}
      ensures SameData(old(table.mem), table.mem) && table.count == old(table.count) - 1
      ensures table.Contents() == Without(table.laws, old(table.Contents()), old(table.mem[last].key))
    {
      hide Good, Flat, Spot, Remaining, Lawful, KeysApart, Model, SameData, Without, StoreNext, StoreBucket;
      ghost var chains0 := table.chains;
      MapSize(table);
      MapWalk(table, bucketIndex - 1, pos - 1);
      SelfEqual(table.laws, table.mem[last].key);
      table.Unlink(lastPrevNext, last, table.mem[last].key, bucketIndex - 1, pos - 1);
      DropLast(chains0, table.chains, bucketIndex, pos, next, prevNext, last, lastPrevNext);
      prevNext := lastPrevNext;
      last, lastPrevNext := NULL, NoLink;
      pos := pos - 1;
    }
  }

  lemma {:induction false} NothingRemains(chains: seq<seq<Ptr>>, bucketIndex: nat, pos: nat)
    requires bucketIndex >= |chains| && (0 < bucketIndex <= |chains| ==> pos == |chains[bucketIndex - 1]|)
    ensures Remaining(chains, bucketIndex, pos) == []
  {
  }

  lemma {:induction false} SelfEqual<K(!new)>(laws: Laws<K>, k: K)
    requires Lawful(laws)
    ensures laws.equals(k, k)
  {
  }

  // ---- A full iteration ------------------------------------------------------------------------

  /** Part-way through an iteration over the elements `all` of `mem0`. */
  ghost predicate Iterating<K, V>(mem0: map<Ptr, Node<K, V>>, mem: map<Ptr, Node<K, V>>, all: seq<Ptr>,
                                  visited: seq<Ptr>, elem: Ptr, todo: seq<Ptr>, doomed: set<Ptr>) {
    && all == visited + ((if elem == NULL then [] else [elem]) + todo)
    && (elem == NULL ==> todo == [])
    && (forall p :: p in mem <==> p in mem0 && !(p in visited && p in doomed))
    && SameData(mem0, mem)
  }

  lemma {:induction false} IteratingStep<K, V>(
      mem0: map<Ptr, Node<K, V>>, mem: map<Ptr, Node<K, V>>, mem': map<Ptr, Node<K, V>>, all: seq<Ptr>,
      visited: seq<Ptr>, elem: Ptr, todo: seq<Ptr>, elem': Ptr, todo': seq<Ptr>, doomed: set<Ptr>)
    requires Iterating(mem0, mem, all, visited, elem, todo, doomed) && elem != NULL && elem in mem
    requires if elem in doomed then mem'.Keys == mem.Keys - {elem} && SameData(mem, mem') else mem' == mem
    requires if elem' == NULL then todo == [] == todo' else todo == [elem'] + todo'
    ensures Iterating(mem0, mem', all, visited + [elem], elem', todo', doomed)
  {
    SameDataTrans(mem0, mem, mem');
    forall p
      ensures p in mem' <==> p in mem0 && !(p in visited + [elem] && p in doomed)
    {
      assert p in mem' <==> p in mem'.Keys;
      assert p in mem <==> p in mem.Keys;
      assert p in visited + [elem] <==> p in visited || p == elem;
    }
  }

  /** A full iteration that removes the elements of `doomed` as it meets them returns every element
      of the map exactly once, ends, and leaves exactly the others. */
  method IterateAndRemove<Key(!new), Value>(table: Map<Key, Value>, doomed: set<Ptr>) returns (visited: seq<Ptr>)
    requires table.Valid()
    modifies table
    ensures table.Valid()
    ensures NoDup(visited) && forall p :: p in visited <==> p in old(table.mem)
    ensures forall p :: p in table.mem <==> p in old(table.mem) && p !in doomed
    ensures SameData(old(table.mem), table.mem) && table.count == |table.mem|
  {
    hide Good, Flat, SameData, NoDup, Remaining, Iterating, AtNext, AtLast;
    visited := [];
    var iter := new IterAll(table);
    ghost var mem0, all := table.mem, iter.Todo();
    AllElements(table);
    var elem := iter.Next();
    IteratingStart(mem0, all, elem, iter.Todo(), doomed);
    while elem != NULL
      invariant iter.Valid() && iter.table == table && fresh(iter)
      invariant elem != NULL ==> elem in table.mem && iter.last == elem
      invariant Iterating(mem0, table.mem, all, visited, elem, iter.Todo(), doomed)
      decreases |iter.Todo()|, if elem == NULL then 0 else 1
    {
      var returned := elem;
      ghost var mem1, todo1 := table.mem, iter.Todo();
      if elem in doomed {
        iter.RemoveElem();
      }
      elem := iter.Next();
      IteratingStep(mem0, mem1, table.mem, all, visited, returned, todo1, elem, iter.Todo(), doomed);
      visited := visited + [returned];
    }
    IteratingEnd(mem0, table.mem, all, visited, iter.Todo(), doomed);
    MapSize(table);
  }

  lemma {:induction false} IteratingStart<K, V>(mem0: map<Ptr, Node<K, V>>, all: seq<Ptr>, elem: Ptr, todo: seq<Ptr>,
                                                doomed: set<Ptr>)
    requires if elem == NULL then all == [] == todo else all == [elem] + todo
    ensures Iterating(mem0, mem0, all, [], elem, todo, doomed)
  {
  }

  lemma {:induction false} IteratingEnd<K, V>(mem0: map<Ptr, Node<K, V>>, mem: map<Ptr, Node<K, V>>, all: seq<Ptr>,
                                              visited: seq<Ptr>, todo: seq<Ptr>, doomed: set<Ptr>)
    requires Iterating(mem0, mem, all, visited, NULL, todo, doomed)
    requires forall p :: p in all <==> p in mem0
    ensures visited == all && SameData(mem0, mem)
    ensures forall p :: p in mem <==> p in mem0 && p !in doomed
  {
    assert visited + ([] + []) == visited;
  }

  lemma {:induction false} AllElements<Key(!new), Value>(table: Map<Key, Value>)
    requires table.Valid()
    ensures NoDup(Flat(table.chains, 0)) && forall p :: p in Flat(table.chains, 0) <==> p in table.mem
  {
    FlatElements(table.mem, table.chains, 0);
  }
}
