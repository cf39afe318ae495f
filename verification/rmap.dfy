/** rat/src/rat_rmap.c: a chained hash map with copied keys and power-of-two bucket counts.

    What the two allocators answer is passed in: an address, or NULL. Value storage is the caller's to
    initialize; its first contents are passed in too. */
module Rmap {
  import opened Bits
  import opened Pointers
  import opened RmapLayout

  const INIT_BUCKET_COUNT: nat := 4
  const INIT_BITS: nat := 2

  /** What elemsRalc answers: a new address, or NULL. */
  ghost predicate Fresh<K, V>(mem: map<Ptr, Node<K, V>>, p: Ptr) {
    p == NULL || p !in mem
  }

  /** A map with buckets holds exactly the block at `block`, any other none. */
  ghost predicate Housed(bucketCount: nat, block: Ptr, blocks: set<Ptr>) {
    NULL !in blocks && blocks == if bucketCount > 0 then {block} else {}
  }

  class Map<Key(!new), Value> {
    const laws: Laws<Key>
    /** The bucket array, and the address of the block that holds it. */
    var buckets: seq<Ptr>
    var bucketsBlock: Ptr
    var bucketCount: nat
    var count: nat
    /** The memory that elemsRalc has granted to this map and not been given back. */
    var mem: map<Ptr, Node<Key, Value>>
    /** The blocks that bucketsRalc has granted to this map and not been given back. */
    var bucketBlocks: set<Ptr>
    ghost var bits: nat
    ghost var chains: seq<seq<Ptr>>

    /** All but the bound on the load. */
    ghost predicate Sound()
      reads this
    {
      && Good(laws, buckets, bucketCount, count, bits, mem, chains)
      && Housed(bucketCount, bucketsBlock, bucketBlocks)
    }

    ghost predicate Valid()
      reads this
    {
      Sound() && 4 * count <= 3 * bucketCount
    }

    /** The finite map, keyed by the stored key of each class. */
    ghost function Contents(): map<Key, Value>
      requires Sound()
      reads this
    {
      Model(laws, mem)
    }

    ghost predicate Present(key: Key)
      reads this
    {
      exists p :: p in mem && laws.equals(key, mem[p].key)
    }

    /** What bucketsRalc answers: a new address, or NULL. */
    ghost predicate FreshBlock(block: Ptr)
      reads this
    {
      block !in bucketBlocks
    }

    /** rmap_init */
    constructor (laws: Laws<Key>)
      requires Lawful(laws)
      ensures Valid() && mem == map[] && Contents() == map[] && this.laws == laws && bucketCount == 0
    {
      this.laws := laws;
      buckets, bucketCount, count, mem := [], 0, 0, map[];
      bucketsBlock, bucketBlocks := NULL, {};
      bits, chains := 0, [];
    }

    /** The chain walk of rmap_set, rmap_get, rmap_getOrAdd and rmap_remove. */
    method Search(key: Key, hashVal: nat) returns (link: Link, elem: Ptr, ghost i: nat, ghost j: nat)
      requires Valid() && bucketCount > 0 && hashVal == laws.hash(key)
      ensures elem == NULL ==> !Present(key)
      ensures elem != NULL ==>
                && elem in mem && Spot(mem, chains, i, j, elem, link) && i == Slot(hashVal, bucketCount)
                && laws.equals(key, mem[elem].key) && mem[elem].hashVal == hashVal
    {
      hide Housed, Lawful, Slot, KeysApart, Filed, AllLinked, Linked, Spot;
      SlotInRange(hashVal, bits);
      var b := Slot(hashVal, bucketCount);
      i := b;
      ghost var s := chains[i];
      j := 0;
      link := BucketSlot(b);
      elem := buckets[b];
      Walk(mem, buckets, chains, i, j);
      while elem != NULL
        invariant j <= |s| && elem == At(s, j) && link == LinkTo(s, i, j)
        invariant forall k :: 0 <= k < j ==> s[k] in mem && !laws.equals(key, mem[s[k]].key)
        decreases |s| - j
      {
        Walk(mem, buckets, chains, i, j);
        if mem[elem].hashVal == hashVal && laws.equals(key, mem[elem].key) {
          return;
        }
        assert !laws.equals(key, mem[elem].key) by {
          HashOf(laws, mem, elem);
          Equal(laws, key, mem[elem].key, key);
        }
        link := NextOf(elem);
        elem := mem[elem].next;
        j := j + 1;
      }
      assert j == |s| by { Walk(mem, buckets, chains, i, j); }
      NotInChain(laws, mem, chains, key, i);
    }

    /** rmap_get: the element whose value the result points at. */
    method Get(key: Key) returns (elem: Ptr)
      requires Valid()
      ensures elem == NULL <==> !Present(key)
      ensures elem != NULL ==>
                && elem in mem && laws.equals(key, mem[elem].key)
                && mem[elem].key in Contents() && Contents()[mem[elem].key] == mem[elem].value
    {
      hide Housed, Lawful, Slot, KeysApart, Filed, AllLinked, Model;
      elem := NULL;
      if bucketCount > 0 {
        var hashVal := laws.hash(key);
        var link;
        ghost var i, j;
        link, elem, i, j := Search(key, hashVal);
        if elem != NULL {
          ModelEntry(laws, mem, elem);
        }
      } else {
        EmptyMap();
      }
    }

    lemma {:induction false} EmptyMap()
      requires Sound() && bucketCount == 0
      ensures mem == map[]
    {
    }

    /** rmap_remove */
    method Remove(key: Key) returns (found: bool)
      requires Valid()
      modifies this
      ensures Valid() && found == old(Present(key))
      ensures Contents() == Without(laws, old(Contents()), key)
      ensures SameData(old(mem), mem) && bucketCount == old(bucketCount)
    {
      hide Housed, Lawful, Slot, KeysApart, Filed, AllLinked, Model, StoreNext, StoreBucket;
      found := false;
      if bucketCount > 0 {
        var hashVal := laws.hash(key);
        var link, elem;
        ghost var i, j;
        link, elem, i, j := Search(key, hashVal);
        if elem != NULL {
          Unlink(link, elem, key, i, j);
          return true;
        }
      } else {
        EmptyMap();
      }
      NothingRemoved(laws, mem, key);
    }

    /** The last steps of rmap_remove and rmap_iterAll_removeElem: bypass the element and free it. */
    method Unlink(link: Link, elem: Ptr, ghost key: Key, ghost i: nat, ghost j: nat)
      requires Valid() && Spot(mem, chains, i, j, elem, link) && laws.equals(key, mem[elem].key)
      modifies this
      ensures Valid()
      ensures chains == old(chains)[i := Drop(old(chains[i]), j)] && mem.Keys == old(mem).Keys - {elem}
      ensures SameData(old(mem), mem) && bucketCount == old(bucketCount) && count == old(count) - 1
      ensures buckets == StoreBucket(old(buckets), link, old(mem[elem].next))
      ensures mem == StoreNext(old(mem), link, old(mem[elem].next)) - {elem}
      ensures Contents() == Without(laws, old(Contents()), key)
    {
      hide Housed, Lawful, Slot, KeysApart, Filed, AllLinked, Linked, Model, StoreNext, StoreBucket, Drop, SameData;
      ghost var mem0, buckets0, chains0 := mem, buckets, chains;
      var next := mem[elem].next;
      buckets := StoreBucket(buckets, link, next);
      mem := StoreNext(mem, link, next) - {elem};
      count := count - 1;
      chains := chains[i := Drop(chains[i], j)];
      UnlinkedGood(laws, buckets0, bucketCount, old(count), bits, mem0, chains0, buckets, mem, chains, i, j, elem, link,
                   key);
      hide Good, Without;
    }

    /** rehash */
    method Rehash(newBucketCount: nat, ghost newBits: nat, block: Ptr) returns (ok: bool)
      requires Sound() && newBucketCount == Pow2(newBits) && FreshBlock(block)
      modifies this
      ensures Sound() && ok == (block != NULL)
      ensures !ok ==> bucketCount == old(bucketCount) && mem == old(mem) && chains == old(chains)
      ensures ok ==> bucketCount == newBucketCount
      ensures mem.Keys == old(mem).Keys && SameData(old(mem), mem)
      ensures count == old(count) && Contents() == old(Contents())
    {
      hide Housed, Lawful, KeysApart, Filed, AllLinked, Model, Slot, SameData;
      SameDataSelf(mem);
      if block == NULL {
        return false;
      }
      Pow2Grows(0, newBits);
      ghost var mem0 := mem;
      var newBuckets;
      ghost var newChains;
      newBuckets, newChains := MoveAll(newBucketCount, newBits);
      TakeBlock(block, newBucketCount);
      hide Pow2;
      buckets, bucketCount := newBuckets, newBucketCount;
      bits, chains := newBits, newChains;
      RelinkedSame(laws, mem0, mem);
      return true;
    }

    /** The new bucket array takes the place of the old one, which is given back if there is one. */
    method TakeBlock(block: Ptr, ghost newBucketCount: nat)
      requires FreshBlock(block) && block != NULL && newBucketCount > 0
      requires Housed(bucketCount, bucketsBlock, bucketBlocks)
      modifies this`bucketsBlock, this`bucketBlocks
      ensures bucketsBlock == block && Housed(newBucketCount, block, bucketBlocks)
    {
      bucketBlocks := bucketBlocks + {block};
      if bucketCount > 0 {
        bucketBlocks := bucketBlocks - {bucketsBlock};
      }
      bucketsBlock := block;
    }

    /** The outer loop of rehash: from one bucket to the next, all elements are moved to new buckets. */
    method MoveAll(newBucketCount: nat,
                   ghost newBits: nat) returns (newBuckets: seq<Ptr>, ghost newChains: seq<seq<Ptr>>)
      requires Sound() && newBucketCount == Pow2(newBits)
      modifies this`mem
      ensures |newBuckets| == |newChains| == newBucketCount
      ensures Filed(mem, newChains) && AllLinked(mem, newBuckets, newChains)
      ensures mem.Keys == old(mem).Keys && SameData(old(mem), mem)
    {
      hide Housed, Lawful, KeysApart, Filed, AllLinked, Model, Slot, Moving, SameData;
      SameDataSelf(mem);
      ghost var mem0 := mem;
      newBuckets := seq(newBucketCount, _ => NULL);
      newChains := seq(newBucketCount, _ => []);
      ghost var part: map<Ptr, Node<Key, Value>> := map[];
      NothingFiled(part, newBuckets, newChains);
      if bucketCount == 0 {
        EmptyMap();
        return;
      }
      MovingStart(mem, chains);
      for i := 0 to bucketCount
        invariant |newBuckets| == |newChains| == newBucketCount
        invariant Moving(mem0, mem, part, chains, i, 0)
        invariant Filed(part, newChains) && AllLinked(part, newBuckets, newChains)
      {
        newBuckets, newChains, part := MoveChain(i, newBits, newBuckets, newChains, part, mem0);
      }
      MovingEnd(mem0, mem, part, chains);
    }

    /** The inner loop of rehash: the chain of bucket `i` is moved to the new buckets. */
    method MoveChain(i: nat, ghost newBits: nat, buckets0: seq<Ptr>, ghost chains0: seq<seq<Ptr>>,
                     ghost part0: map<Ptr, Node<Key, Value>>, ghost mem0: map<Ptr, Node<Key, Value>>)
      returns (newBuckets: seq<Ptr>, ghost newChains: seq<seq<Ptr>>, ghost part: map<Ptr, Node<Key, Value>>)
      requires |buckets| == |chains| && i < |chains| && Filed(mem0, chains) && AllLinked(mem0, buckets, chains)
      requires |buckets0| == |chains0| == Pow2(newBits)
      requires Moving(mem0, mem, part0, chains, i, 0)
      requires Filed(part0, chains0) && AllLinked(part0, buckets0, chains0)
      modifies this`mem
      ensures |newBuckets| == |newChains| == |buckets0|
      ensures Moving(mem0, mem, part, chains, i + 1, 0)
      ensures Filed(part, newChains) && AllLinked(part, newBuckets, newChains)
    {
      hide Filed, AllLinked, Linked, Slot, Moving, SameData, Spot;
      newBuckets, newChains, part := buckets0, chains0, part0;
      var elem := buckets[i];
      ghost var s := chains[i];
      ghost var j := 0;
      Walk(mem0, buckets, chains, i, j);
      while elem != NULL
        invariant j <= |s| && elem == At(s, j)
        invariant |newBuckets| == |newChains| == |buckets0|
        invariant Moving(mem0, mem, part, chains, i, j)
        invariant Filed(part, newChains) && AllLinked(part, newBuckets, newChains)
        decreases |s| - j
      {
        Walk(mem0, buckets, chains, i, j);
        MovingStep(mem0, mem, part, chains, i, j, elem, NULL);
        var next := mem[elem].next;
        SlotInRange(mem[elem].hashVal, newBits);
        var b := Slot(mem[elem].hashVal, |newBuckets|);
        ghost var n := mem[elem].(next := newBuckets[b]);
        MovingStep(mem0, mem, part, chains, i, j, elem, newBuckets[b]);
        PushStep(part, newBuckets, newChains, elem, n, b);
        mem := mem[elem := mem[elem].(next := newBuckets[b])];
        newBuckets := newBuckets[b := elem];
        part := part[elem := n];
        newChains := newChains[b := [elem] + newChains[b]];
        elem := next;
        j := j + 1;
      }
      assert j == |s| by { Walk(mem0, buckets, chains, i, j); }
      MovingNextBucket(mem0, mem, part, chains, i);
    }

    /** add: a new element for a key that is not present. More buckets are asked for exactly if one more
        element would fill more than three quarters of them. */
    method Add(hashVal: nat, key: Key, block: Ptr, newElem: Ptr, junk: Value) returns (elem: Ptr)
      requires Valid() && !Present(key) && hashVal == laws.hash(key) && Fresh(mem, newElem) && FreshBlock(block)
      modifies this
      ensures Valid()
      ensures elem == if 4 * (old(count) + 1) > 3 * old(bucketCount) && block == NULL then NULL else newElem
      ensures bucketCount == if 4 * (old(count) + 1) > 3 * old(bucketCount) && block != NULL
                             then (if old(bucketCount) == 0 then 4 else 2 * old(bucketCount)) else old(bucketCount)
      ensures elem == NULL ==> mem.Keys == old(mem).Keys && SameData(old(mem), mem) && Contents() == old(Contents())
      ensures elem != NULL ==>
                && mem.Keys == old(mem).Keys + {elem} && elem !in old(mem) && SameData(old(mem), mem - {elem})
                && mem[elem].key == key && mem[elem].value == junk
                && Contents() == old(Contents())[key := junk]
    {
      hide Housed, Lawful, KeysApart, Filed, AllLinked, Model, Slot, SameData;
      SameDataSelf(mem);
      LoadFits(bucketCount, count, bits);
      if count >= bucketCount / 2 + bucketCount / 4 {
        var newBucketCount := if bucketCount > 0 then bucketCount * 2 else INIT_BUCKET_COUNT;
        var ok := Rehash(newBucketCount, if bucketCount > 0 then bits + 1 else INIT_BITS, block);
        if !ok {
          return NULL;
        }
        StillAbsent(laws, old(mem), mem, key);
      }
      ghost var mem1 := mem;
      elem := Push(hashVal, key, newElem, junk);
      SameDataTrans(old(mem), mem1, if elem == NULL then mem else mem - {elem});
    }

    /** The end of add, where there is room: the element is allocated and pushed. */
    method Push(hashVal: nat, key: Key, newElem: Ptr, junk: Value) returns (elem: Ptr)
      requires Valid() && !Present(key) && hashVal == laws.hash(key) && Fresh(mem, newElem)
      requires bucketCount > 0 && 4 * (count + 1) <= 3 * bucketCount
      modifies this
      ensures Valid() && elem == newElem && bucketCount == old(bucketCount)
      ensures elem == NULL ==> mem == old(mem) && Contents() == old(Contents())
      ensures elem != NULL ==>
                && mem.Keys == old(mem).Keys + {elem} && elem !in old(mem) && SameData(old(mem), mem - {elem})
                && mem[elem].key == key && mem[elem].value == junk
                && Contents() == old(Contents())[key := junk]
    {
      hide Housed, Lawful, KeysApart, Filed, AllLinked, Model, Slot, SameData, Pow2;
      SlotInRange(hashVal, bits);
      var b := Slot(hashVal, bucketCount);
      elem := newElem;
      if elem == NULL {
        return;
      }
      var n := Node(buckets[b], hashVal, key, junk);
      PushedGood(laws, buckets, bucketCount, count, bits, mem, chains, elem, n, b);
      mem := mem[elem := n];
      buckets := buckets[b := elem];
      chains := chains[b := [elem] + chains[b]];
      count := count + 1;
    }

    /** rmap_set. `r` is what ralc_realloc answers for the element of an equal key: NULL, the same
        address, or a new one; `newElem` is what ralc_alloc answers on elemsRalc. */
    method Set(key: Key, block: Ptr, r: Ptr, newElem: Ptr, junk: Value) returns (elem: Ptr)
      requires Valid() && Fresh(mem, newElem) && FreshBlock(block)
      requires Fresh(mem, r) || laws.equals(key, mem[r].key)
      modifies this
      ensures Valid()
      ensures elem == NULL <==> if old(Present(key)) then r == NULL && newElem == NULL
                                else newElem == NULL || (4 * (old(count) + 1) > 3 * old(bucketCount) && block == NULL)
      ensures elem != NULL ==> elem == if old(Present(key)) && r != NULL then r else newElem
      ensures bucketCount == if !old(Present(key)) && 4 * (old(count) + 1) > 3 * old(bucketCount) && block != NULL
                             then (if old(bucketCount) == 0 then 4 else 2 * old(bucketCount)) else old(bucketCount)
      ensures elem == NULL ==> Contents() == old(Contents()) && mem.Keys == old(mem).Keys && SameData(old(mem), mem)
      ensures elem != NULL ==>
                && elem in mem && mem[elem].key == key
                && Contents() == Without(laws, old(Contents()), key)[key := mem[elem].value]
                && Others(laws, old(mem), mem, key)
    {
      hide Housed, Lawful, KeysApart, Filed, AllLinked, Model, Slot, SameData, Spot, Others;
      SameDataSelf(mem);
      var hashVal := laws.hash(key);
      ghost var mem0, contents0 := mem, Contents();
      if bucketCount > 0 {
        var link, found;
        ghost var i, j;
        link, found, i, j := Search(key, hashVal);
        if found != NULL {
          FoundAt(laws, mem, chains, i, j, found, link, key, r);
          if r != NULL {
            elem := r;
            Replace(link, found, key, r, Node(mem[found].next, mem[found].hashVal, key, mem[found].value), i, j);
          } else if newElem != NULL {
            elem := newElem;
            Replace(link, found, key, newElem, Node(mem[found].next, hashVal, key, junk), i, j);
          } else {
            elem := NULL;
          }
          return;
        }
      } else {
        EmptyMap();
      }
      NothingRemoved(laws, mem, key);
      elem := Add(hashVal, key, block, newElem, junk);
      if elem != NULL {
        OthersAdd(laws, mem0, mem, elem, key);
      }
    }

    /** rmap_set, where the key is present: `n` at `p` takes the place of the element found. */
    method Replace(link: Link, found: Ptr, key: Key, p: Ptr, n: Node<Key, Value>, ghost i: nat, ghost j: nat)
      requires Valid() && Spot(mem, chains, i, j, found, link) && laws.equals(key, mem[found].key)
      requires p != NULL && (p == found || p !in mem)
      requires n.next == mem[found].next && n.hashVal == laws.hash(key) == mem[found].hashVal && n.key == key
      modifies this
      ensures Valid() && bucketCount == old(bucketCount) && count == old(count)
      ensures p in mem && mem[p] == n && mem.Keys == old(mem).Keys - {found} + {p}
      ensures Contents() == Without(laws, old(Contents()), key)[key := n.value]
      ensures Others(laws, old(mem), mem, key)
    {
      hide Housed, Lawful, KeysApart, Filed, AllLinked, Linked, Model, Slot, StoreNext, StoreBucket;
      hide Others, Replaced, Put;
      ghost var mem0, buckets0, chains0 := mem, buckets, chains;
      mem := (mem - {found})[p := n];
      mem := StoreNext(mem, link, p);
      buckets := StoreBucket(buckets, link, p);
      chains := chains[i := Put(chains[i], j, p)];
      ReplaceMem(mem0, mem, found, p, n, link);
      ReplacedGood(laws, buckets0, bucketCount, count, bits, mem0, chains0, buckets, mem, chains, i, j, found, p, n,
                   link);
      hide Good, Without;
    }

    /** rmap_getOrAdd */
    method GetOrAdd(key: Key, block: Ptr, newElem: Ptr, junk: Value) returns (found: bool, elem: Ptr)
      requires Valid() && Fresh(mem, newElem) && FreshBlock(block)
      modifies this
      ensures Valid() && found == old(Present(key))
      ensures found ==>
                mem == old(mem) && elem in mem && laws.equals(key, mem[elem].key) && Contents() == old(Contents())
      ensures !found ==> elem == if 4 * (old(count) + 1) > 3 * old(bucketCount) && block == NULL then NULL else newElem
      ensures bucketCount == if !found && 4 * (old(count) + 1) > 3 * old(bucketCount) && block != NULL
                             then (if old(bucketCount) == 0 then 4 else 2 * old(bucketCount)) else old(bucketCount)
      ensures elem == NULL ==> Contents() == old(Contents()) && mem.Keys == old(mem).Keys && SameData(old(mem), mem)
      ensures !found && elem != NULL ==>
                && elem in mem && mem[elem].key == key && Contents() == old(Contents())[key := junk]
                && Others(laws, old(mem), mem, key)
    {
      hide Housed, Lawful, KeysApart, Filed, AllLinked, Model, Slot, SameData, Others;
      SameDataSelf(mem);
      var hashVal := laws.hash(key);
      ghost var mem0 := mem;
      if bucketCount > 0 {
        var link;
        ghost var i, j;
        link, elem, i, j := Search(key, hashVal);
        if elem != NULL {
          return true, elem;
        }
      } else {
        EmptyMap();
      }
      found := false;
      elem := Add(hashVal, key, block, newElem, junk);
      if elem != NULL {
        OthersAdd(laws, mem0, mem, elem, key);
      }
    }

    /** rmap_clear */
    method Clear()
      requires Valid()
      modifies this
      ensures Valid() && bucketCount == 0 && mem == map[] && bucketBlocks == {} && Contents() == map[]
    {
      hide Housed, Lawful, KeysApart, Filed, AllLinked, Slot, Clearing, Model;
      if bucketCount == 0 {
        EmptyMap();
        EmptyIsGood(laws, bits, mem);
        NotHoused(bucketsBlock, bucketBlocks);
        return;
      }
      ghost var mem0 := mem;
      ClearingStart(mem, chains);
      for i := 0 to bucketCount
        invariant unchanged(this`buckets, this`bucketsBlock, this`bucketBlocks, this`bucketCount, this`chains)
        invariant Clearing(mem0, mem, chains, i, 0)
      {
        ClearChain(i, mem0);
      }
      ClearingEnd(mem0, mem, chains);
      GiveBlockBack();
      buckets, bucketsBlock, bucketCount, count, chains := [], NULL, 0, 0, [];
      EmptyIsGood(laws, bits, mem);
    }

    /** The bucket array is given back. */
    method GiveBlockBack()
      requires bucketCount > 0 && Housed(bucketCount, bucketsBlock, bucketBlocks)
      modifies this`bucketBlocks
      ensures bucketBlocks == {} && Housed(0, NULL, bucketBlocks)
    {
      bucketBlocks := bucketBlocks - {bucketsBlock};
    }

    /** The inner loop of rmap_clear: every element is read before, and freed exactly once. */
    method ClearChain(i: nat, ghost mem0: map<Ptr, Node<Key, Value>>)
      requires |buckets| == |chains| && i < |chains| && Filed(mem0, chains) && AllLinked(mem0, buckets, chains)
      requires Clearing(mem0, mem, chains, i, 0)
      modifies this`mem
      ensures Clearing(mem0, mem, chains, i + 1, 0)
    {
      hide Filed, AllLinked, Linked, Slot, Clearing, Spot;
      var elem := buckets[i];
      ghost var s := chains[i];
      ghost var j := 0;
      Walk(mem0, buckets, chains, i, j);
      while elem != NULL
        invariant j <= |s| && elem == At(s, j)
        invariant Clearing(mem0, mem, chains, i, j)
        decreases |s| - j
      {
        Walk(mem0, buckets, chains, i, j);
        ClearingStep(mem0, mem, chains, i, j, elem);
        var next := mem[elem].next;
        mem := mem - {elem};
        elem := next;
        j := j + 1;
      }
      assert j == |s| by { Walk(mem0, buckets, chains, i, j); }
      ClearingNextBucket(mem0, mem, chains, i);
    }
  }

  lemma {:induction false} NotHoused(block: Ptr, blocks: set<Ptr>)
    requires Housed(0, block, blocks)
    ensures blocks == {} && Housed(0, NULL, blocks)
  {
  }

  /** Bypassing an element and giving it back. */
  lemma {:induction false} UnlinkedGood<K(!new), V>(
      laws: Laws<K>, buckets: seq<Ptr>, bucketCount: nat, count: nat, bits: nat, mem: map<Ptr, Node<K, V>>,
      chains: seq<seq<Ptr>>, buckets': seq<Ptr>, mem': map<Ptr, Node<K, V>>, chains': seq<seq<Ptr>>, i: nat, j: nat,
      elem: Ptr, link: Link, key: K)
    requires Good(laws, buckets, bucketCount, count, bits, mem, chains)
    requires Spot(mem, chains, i, j, elem, link) && elem in mem && laws.equals(key, mem[elem].key)
    requires mem' == StoreNext(mem, link, mem[elem].next) - {elem}
    requires buckets' == StoreBucket(buckets, link, mem[elem].next)
    requires i < |chains| && j < |chains[i]| && chains' == chains[i := Drop(chains[i], j)]
    ensures count > 0 && Good(laws, buckets', bucketCount, count - 1, bits, mem', chains')
    ensures mem'.Keys == mem.Keys - {elem} && SameData(mem, mem')
    ensures Model(laws, mem') == Without(laws, Model(laws, mem), key)
  {
    hide Lawful, Slot, KeysApart, Filed, AllLinked, Model, StoreNext, Pow2;
    DropStep(mem, mem', buckets, buckets', chains, chains', i, j, elem, link);
    ModelRemove(laws, mem, elem, key);
    KeysApartPart(laws, mem, mem');
    ModelSame(laws, mem - {elem}, mem');
    CountRemove(mem, mem', elem);
  }

  /** Pushing an element whose key is in no class there is. */
  lemma {:induction false} PushedGood<K(!new), V>(
      laws: Laws<K>, buckets: seq<Ptr>, bucketCount: nat, count: nat, bits: nat, mem: map<Ptr, Node<K, V>>,
      chains: seq<seq<Ptr>>, p: Ptr, n: Node<K, V>, b: nat)
    requires Good(laws, buckets, bucketCount, count, bits, mem, chains)
    requires p != NULL && p !in mem && n.hashVal == laws.hash(n.key)
    requires forall q :: q in mem ==> !laws.equals(n.key, mem[q].key)
    requires b < bucketCount && b == Slot(n.hashVal, bucketCount) && n.next == buckets[b]
    ensures Good(laws, buckets[b := p], bucketCount, count + 1, bits, mem[p := n], chains[b := [p] + chains[b]])
    ensures mem[p := n].Keys == mem.Keys + {p} && SameData(mem, mem[p := n] - {p})
    ensures Model(laws, mem[p := n]) == Model(laws, mem)[n.key := n.value]
  {
    hide Lawful, KeysApart, Filed, AllLinked, Model, Slot, SameData, Pow2;
    PushStep(mem, buckets, chains, p, n, b);
    ModelAdd(laws, mem, p, n);
    CountAdd(mem, p, n);
    AddedMem(mem, p, n);
  }

  /** Putting an element in the place of one with an equal key. */
  lemma {:induction false} ReplacedGood<K(!new), V>(
      laws: Laws<K>, buckets: seq<Ptr>, bucketCount: nat, count: nat, bits: nat, mem: map<Ptr, Node<K, V>>,
      chains: seq<seq<Ptr>>, buckets': seq<Ptr>, mem': map<Ptr, Node<K, V>>, chains': seq<seq<Ptr>>, i: nat, j: nat,
      found: Ptr, p: Ptr, n: Node<K, V>, link: Link)
    requires Good(laws, buckets, bucketCount, count, bits, mem, chains)
    requires Spot(mem, chains, i, j, found, link) && found in mem && laws.equals(n.key, mem[found].key)
    requires p != NULL && (p == found || p !in mem)
    requires n.next == mem[found].next && n.hashVal == laws.hash(n.key) == mem[found].hashVal
    requires Replaced(mem, mem', found, p, n, link) && buckets' == StoreBucket(buckets, link, p)
    requires i < |chains| && j < |chains[i]| && chains' == chains[i := Put(chains[i], j, p)]
    ensures Good(laws, buckets', bucketCount, count, bits, mem', chains')
    ensures p in mem' && mem'[p] == n && mem'.Keys == mem.Keys - {found} + {p}
    ensures Model(laws, mem') == Without(laws, Model(laws, mem), n.key)[n.key := n.value]
    ensures Others(laws, mem, mem', n.key)
  {
    hide Lawful, KeysApart, Filed, AllLinked, Linked, Model, Slot, StoreNext, NoDup, Others, Pow2;
    AtSpot(mem, buckets, chains, i, j);
    ReplaceStep(mem, mem', buckets, buckets', chains, chains', i, j, found, p, n, link);
    ReplaceModel(laws, mem, mem', found, p, n, link);
    ReplaceCount(mem, mem', found, p);
  }

  lemma {:induction false} EmptyIsGood<K(!new), V>(laws: Laws<K>, bits: nat, mem: map<Ptr, Node<K, V>>)
    requires Lawful(laws) && mem == map[]
    ensures Good(laws, [], 0, 0, bits, mem, []) && Model(laws, mem) == map[]
  {
  }

  /** The elements of other classes are where they were and hold what they held. */
  ghost predicate Others<K, V>(laws: Laws<K>, mem0: map<Ptr, Node<K, V>>, mem: map<Ptr, Node<K, V>>, key: K) {
    forall p :: p in mem0 && !laws.equals(key, mem0[p].key) ==> p in mem && mem[p] == mem0[p].(next := mem[p].next)
  }

  lemma {:induction false} OthersAdd<K, V>(laws: Laws<K>, mem0: map<Ptr, Node<K, V>>, mem: map<Ptr, Node<K, V>>,
                                           p: Ptr, key: K)
    requires mem.Keys == mem0.Keys + {p} && p !in mem0 && SameData(mem0, mem - {p})
    ensures Others(laws, mem0, mem, key)
  {
    forall q | q in mem0
      ensures q in mem && mem[q] == mem0[q].(next := mem[q].next)
    {
      assert q in mem.Keys;
      assert q in mem - {p};
    }
  }

  lemma {:induction false} SameDataTrans<K, V>(mem0: map<Ptr, Node<K, V>>, mem1: map<Ptr, Node<K, V>>,
                                               mem: map<Ptr, Node<K, V>>)
    requires SameData(mem0, mem1) && (SameData(mem1, mem) || mem == mem1)
    ensures SameData(mem0, mem)
  {
  }

  lemma {:induction false} StillAbsent<K, V>(laws: Laws<K>, mem0: map<Ptr, Node<K, V>>, mem: map<Ptr, Node<K, V>>,
                                             key: K)
    requires SameData(mem0, mem) && !exists p :: p in mem0 && laws.equals(key, mem0[p].key)
    ensures !exists p :: p in mem && laws.equals(key, mem[p].key)
  {
  }

  lemma {:induction false} AddedMem<K, V>(mem: map<Ptr, Node<K, V>>, p: Ptr, n: Node<K, V>)
    requires p !in mem
    ensures mem[p := n].Keys == mem.Keys + {p} && SameData(mem, mem[p := n] - {p})
  {
    assert mem[p := n] - {p} == mem;
  }

  lemma {:induction false} CountAdd<K, V>(mem: map<Ptr, Node<K, V>>, p: Ptr, n: Node<K, V>)
    requires p !in mem
    ensures |mem[p := n]| == |mem| + 1
  {
    assert |mem.Keys| == |mem| && |mem[p := n].Keys| == |mem[p := n]|;
    assert mem[p := n].Keys == mem.Keys + {p};
  }

  lemma {:induction false} ReplaceCount<K, V>(mem0: map<Ptr, Node<K, V>>, mem: map<Ptr, Node<K, V>>, found: Ptr, p: Ptr)
    requires found in mem0 && (p == found || p !in mem0) && mem.Keys == mem0.Keys - {found} + {p}
    ensures |mem| == |mem0|
  {
    assert |mem.Keys| == |mem| && |mem0.Keys| == |mem0|;
    var rest := mem0.Keys - {found};
    assert mem0.Keys == rest + {found} && mem.Keys == rest + {p};
  }

  /** The load test says that one more element would fill more than three quarters of the buckets, and
      doubling makes room for it. */
  lemma {:induction false} LoadFits(bucketCount: nat, count: nat, bits: nat)
    requires bucketCount > 0 ==> bucketCount == Pow2(bits)
    requires 4 * count <= 3 * bucketCount
    ensures count < bucketCount / 2 + bucketCount / 4 <==> 4 * (count + 1) <= 3 * bucketCount
    ensures bucketCount > 0 ==> Pow2(bits + 1) == bucketCount * 2 && 4 * (count + 1) <= 3 * (bucketCount * 2)
    ensures bucketCount == 0 ==> Pow2(INIT_BITS) == INIT_BUCKET_COUNT && 4 * (count + 1) <= 3 * INIT_BUCKET_COUNT
  {
    FirstPowers();
    if bucketCount > 0 && bits > 1 {
      ShiftsAreArithmetic(1, bits - 1);
      ShiftsAreArithmetic(1, bits - 2);
      Quarters(Pow2(bits - 2), count);
    }
    hide Shl;
  }

  lemma {:induction false} FirstPowers()
    ensures Pow2(0) == 1 && Pow2(1) == 2 && Pow2(2) == 4
  {
  }

  lemma {:induction false} Quarters(quarter: nat, count: nat)
    ensures 4 * quarter / 2 == 2 * quarter && 4 * quarter / 4 == quarter
    ensures count < 2 * quarter + quarter <==> 4 * (count + 1) <= 3 * (4 * quarter)
  {
  }

  lemma {:induction false} FoundAt<K(!new), V>(laws: Laws<K>, mem: map<Ptr, Node<K, V>>, chains: seq<seq<Ptr>>,
                                               i: nat, j: nat, found: Ptr, link: Link, key: K, r: Ptr)
    requires Lawful(laws) && KeysApart(laws, mem)
    requires Spot(mem, chains, i, j, found, link) && laws.equals(key, mem[found].key)
    requires Fresh(mem, r) || laws.equals(key, mem[r].key)
    ensures r == NULL || r == found || r !in mem
    ensures mem[found].hashVal == laws.hash(key)
  {
    Equal(laws, key, mem[found].key, key);
    if r in mem && r != NULL && r != found && laws.equals(key, mem[r].key) {
      OtherClass(laws, mem, found, r, key);
    }
  }

  /** Replacing the element of a class exchanges its key and value in the finite map. */
  lemma {:induction false} ReplaceModel<K(!new), V>(
      laws: Laws<K>, mem0: map<Ptr, Node<K, V>>, mem: map<Ptr, Node<K, V>>, found: Ptr, p: Ptr, n: Node<K, V>,
      link: Link)
    requires Lawful(laws) && KeysApart(laws, mem0) && found in mem0 && laws.equals(n.key, mem0[found].key)
    requires p == found || p !in mem0
    requires n.hashVal == laws.hash(n.key)
    requires Replaced(mem0, mem, found, p, n, link) && (link.NextOf? ==> link.elem != p)
    ensures KeysApart(laws, mem)
    ensures Model(laws, mem) == Without(laws, Model(laws, mem0), n.key)[n.key := n.value]
    ensures Others(laws, mem0, mem, n.key)
  {
    hide Lawful, KeysApart, Model;
    var rest := mem0 - {found};
    ModelRemove(laws, mem0, found, n.key);
    forall q | q in rest
      ensures !laws.equals(n.key, rest[q].key)
    {
      OtherClass(laws, mem0, found, q, n.key);
    }
    ModelAdd(laws, rest, p, n);
    var whole := rest[p := n];
    forall q | q in mem
      ensures q in whole && mem[q] == whole[q].(next := mem[q].next)
    {
      assert q in mem.Keys;
    }
    assert mem.Keys == whole.Keys;
    ModelSame(laws, whole, mem);
  }

  lemma {:induction false} RelinkedSame<K(!new), V>(laws: Laws<K>, mem0: map<Ptr, Node<K, V>>,
                                                    mem: map<Ptr, Node<K, V>>)
    requires Lawful(laws) && KeysApart(laws, mem0) && SameData(mem0, mem) && mem.Keys == mem0.Keys
    ensures KeysApart(laws, mem) && Model(laws, mem) == Model(laws, mem0) && |mem| == |mem0|
  {
    ModelSame(laws, mem0, mem);
    assert |mem.Keys| == |mem| && |mem0.Keys| == |mem0|;
  }

  /** What the code finds at position `j` of the chain of bucket `i`. */
  lemma {:induction false} Walk<K, V>(mem: map<Ptr, Node<K, V>>, buckets: seq<Ptr>, chains: seq<seq<Ptr>>, i: nat,
                                      j: nat)
    requires Filed(mem, chains) && AllLinked(mem, buckets, chains) && i < |chains|
    ensures |buckets| == |chains| && buckets[i] == At(chains[i], 0)
    ensures j < |chains[i]| ==>
              var p := chains[i][j];
              && p != NULL && p in mem && mem[p].next == At(chains[i], j + 1)
              && Spot(mem, chains, i, j, p, LinkTo(chains[i], i, j))
  {
    assert Linked(mem, buckets[i], chains[i]);
    if j < |chains[i]| {
      AtSpot(mem, buckets, chains, i, j);
    }
  }

  lemma {:induction false} HashOf<K, V>(laws: Laws<K>, mem: map<Ptr, Node<K, V>>, p: Ptr)
    requires KeysApart(laws, mem) && p in mem
    ensures mem[p].hashVal == laws.hash(mem[p].key)
  {
  }

  lemma {:induction false} NothingRemoved<K(!new), V>(laws: Laws<K>, mem: map<Ptr, Node<K, V>>, key: K)
    requires Lawful(laws) && KeysApart(laws, mem)
    requires !exists p :: p in mem && laws.equals(key, mem[p].key)
    ensures Model(laws, mem) == Without(laws, Model(laws, mem), key)
  {
    hide Lawful, KeysApart;
  }

  lemma {:induction false} CountRemove<K, V>(mem: map<Ptr, Node<K, V>>, mem': map<Ptr, Node<K, V>>, p: Ptr)
    requires p in mem && mem'.Keys == mem.Keys - {p}
    ensures |mem| > 0 && |mem'| == |mem| - 1
  {
    assert |mem.Keys| == |mem| && |mem'.Keys| == |mem'|;
    assert mem'.Keys + {p} == mem.Keys;
  }
}
