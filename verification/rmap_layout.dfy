/** The linked structure of rat/src/rat_rmap.c: buckets, chains of elements, and what each relinking
    does to them. Pointers are addresses, 0 is NULL, and element memory is a map from address to
    record, so that a freed address may be granted again. */
module RmapLayout {
  import opened Bits
  import opened Numbers
  import opened Pointers

  /** elemHeader with its key and value. */
  datatype Node<K, V> = Node(next: Ptr, hashVal: nat, key: K, value: V)

  /** A pointer to a link: to a bucket, or to the `next` field of an element. */
  datatype Link = NoLink | BucketSlot(index: nat) | NextOf(elem: Ptr)

  /** The caller's hash and equality. */
  datatype Laws<!K> = Laws(hash: K -> nat, equals: (K, K) -> bool)

  /** Equality is an equivalence that the hash respects (rat/include/rat/rmap.h:12). */
  ghost predicate Lawful<K(!new)>(laws: Laws<K>) {
    && (forall k :: laws.equals(k, k))
    && (forall k, l :: laws.equals(k, l) ==> laws.equals(l, k) && laws.hash(k) == laws.hash(l))
    && (forall k, l, m :: laws.equals(k, l) && laws.equals(l, m) ==> laws.equals(k, m))
  }

  /** The bucket of a hash value: `hashVal & (bucketCount - 1)`. */
  function Slot(hashVal: nat, bucketCount: nat): nat
    requires bucketCount > 0
  {
    And(hashVal, bucketCount - 1)
  }

  lemma {:induction false} SlotInRange(hashVal: nat, bits: nat)
    ensures Pow2(bits) > 0 && Slot(hashVal, Pow2(bits)) < Pow2(bits)
  {
    AndMask(hashVal, bits);
    Split(hashVal, bits);
  }

  /** Where the bucket count is a power of two, the bucket is the remainder of the hash value. */
  lemma {:induction false} SlotIsRemainder(hashVal: nat, bits: nat)
    ensures Pow2(bits) > 0 && Slot(hashVal, Pow2(bits)) == hashVal % Pow2(bits)
  {
    hide And, Shl, Shr, Low;
    AndMask(hashVal, bits);
    ShiftsAreArithmetic(hashVal, bits);
  }

  // ---- One chain -----------------------------------------------------------------------------

  /** The elements of `s` are linked in order from `head`. */
  ghost predicate Linked<K, V>(mem: map<Ptr, Node<K, V>>, head: Ptr, s: seq<Ptr>) {
    && head == At(s, 0)
    && (forall j :: 0 <= j < |s| ==> s[j] != NULL && s[j] in mem && mem[s[j]].next == At(s, j + 1))
  }

  function Drop(s: seq<Ptr>, j: nat): seq<Ptr>
    requires j < |s|
  {
    s[..j] + s[j + 1..]
  }

  /** The link that points at position `j` of the chain of bucket `i`. */
  function LinkTo(s: seq<Ptr>, i: nat, j: nat): Link
    requires j <= |s|
  {
    if j == 0 then BucketSlot(i) else NextOf(s[j - 1])
  }

  /** Element memory after `*link = p`. */
  function StoreNext<K, V>(mem: map<Ptr, Node<K, V>>, link: Link, p: Ptr): map<Ptr, Node<K, V>> {
    match link
    case NextOf(e) => if e in mem then mem[e := mem[e].(next := p)] else mem
    case _ => mem
  }

  /** The buckets after `*link = p`. */
  function StoreBucket(buckets: seq<Ptr>, link: Link, p: Ptr): seq<Ptr> {
    match link
    case BucketSlot(i) => if i < |buckets| then buckets[i := p] else buckets
    case _ => buckets
  }

  lemma {:induction false} LinkedFrame<K, V>(mem: map<Ptr, Node<K, V>>, mem': map<Ptr, Node<K, V>>, head: Ptr,
                                             s: seq<Ptr>)
    requires Linked(mem, head, s)
    requires forall p :: p in s ==> p in mem' && p in mem && mem'[p].next == mem[p].next
    ensures Linked(mem', head, s)
  {
    forall j | 0 <= j < |s|
      ensures s[j] != NULL && s[j] in mem' && mem'[s[j]].next == At(s, j + 1)
    {
      assert s[j] in s;
    }
  }

  lemma {:induction false} LinkedAt<K, V>(mem: map<Ptr, Node<K, V>>, head: Ptr, s: seq<Ptr>, j: nat)
    requires Linked(mem, head, s) && j < |s|
    ensures s[j] in mem && mem[s[j]].next == At(s, j + 1)
  {
  }

  /** Bypassing position `j` of a chain. */
  lemma {:induction false} LinkedDrop<K, V>(mem: map<Ptr, Node<K, V>>, mem': map<Ptr, Node<K, V>>, head: Ptr,
                                            head': Ptr, s: seq<Ptr>, j: nat)
    requires Linked(mem, head, s) && NoDup(s) && j < |s|
    requires if j == 0 then head' == At(s, 1) else head' == head
    requires forall k :: 0 <= k < |s| && k != j && k + 1 != j ==> s[k] in mem' && mem'[s[k]].next == mem[s[k]].next
    requires j > 0 ==> s[j - 1] in mem' && mem'[s[j - 1]].next == At(s, j + 1)
    ensures Linked(mem', head', Drop(s, j))
  {
    hide NoDup, At, Drop;
    var s' := Drop(s, j);
    AtFirst(s);
    DropAt(s, s', j, 0);
    forall k | 0 <= k < |s'|
      ensures s'[k] != NULL && s'[k] in mem' && mem'[s'[k]].next == At(s', k + 1)
    {
      DropAt(s, s', j, k);
      DropAt(s, s', j, k + 1);
      var from := if k < j then k else k + 1;
      assert s'[k] == s[from];
      assert s[from] != NULL && mem[s[from]].next == At(s, from + 1);
    }
  }

  lemma {:induction false} AtFirst(s: seq<Ptr>)
    ensures forall k :: 0 <= k < |s| ==> At(s, k) == s[k]
  {
  }

  /** Where position `k` behind a dropped element comes from. */
  lemma {:induction false} DropAt(s: seq<Ptr>, s': seq<Ptr>, j: nat, k: nat)
    requires j < |s| && s' == Drop(s, j)
    ensures |s'| == |s| - 1 && At(s', k) == At(s, if k < j then k else k + 1)
    ensures k < |s'| ==> s'[k] == At(s', k)
  {
  }

  /** Putting an element in the place of position `j`. */
  lemma {:induction false} LinkedReplace<K, V>(mem: map<Ptr, Node<K, V>>, mem': map<Ptr, Node<K, V>>, head: Ptr,
                                               head': Ptr, s: seq<Ptr>, j: nat, p: Ptr)
    requires Linked(mem, head, s) && NoDup(s) && j < |s| && p != NULL && p in mem'
    requires mem'[p].next == At(s, j + 1)
    requires if j == 0 then head' == p else head' == head
    requires forall k :: 0 <= k < |s| && k != j && k + 1 != j ==> s[k] in mem' && mem'[s[k]].next == mem[s[k]].next
    requires j > 0 ==> s[j - 1] in mem' && mem'[s[j - 1]].next == p
    ensures Linked(mem', head', Put(s, j, p))
  {
  }

  /** Pushing an element in front of a chain. */
  lemma {:induction false} LinkedPush<K, V>(mem: map<Ptr, Node<K, V>>, mem': map<Ptr, Node<K, V>>, head: Ptr,
                                            s: seq<Ptr>, p: Ptr)
    requires Linked(mem, head, s) && p != NULL && p in mem' && mem'[p].next == head
    requires forall q :: q in s ==> q in mem' && q in mem && mem'[q].next == mem[q].next
    ensures Linked(mem', p, [p] + s)
  {
    LinkedFrame(mem, mem', head, s);
  }

  // ---- All chains ------------------------------------------------------------------------------

  /** Every element hangs exactly once, in the chain of its hash value. */
  ghost predicate Filed<K, V>(mem: map<Ptr, Node<K, V>>, chains: seq<seq<Ptr>>) {
    && (forall i, p :: 0 <= i < |chains| && p in chains[i] ==> p in mem && Slot(mem[p].hashVal, |chains|) == i)
    && (forall p :: p in mem ==> Placed(mem, chains, p))
    && (forall i :: 0 <= i < |chains| ==> NoDup(chains[i]))
  }

  ghost predicate Placed<K, V>(mem: map<Ptr, Node<K, V>>, chains: seq<seq<Ptr>>, p: Ptr)
    requires p in mem
  {
    && p != NULL
    && |chains| > 0
    && var i := Slot(mem[p].hashVal, |chains|);
       i < |chains| && p in chains[i]
  }

  ghost predicate AllLinked<K, V>(mem: map<Ptr, Node<K, V>>, buckets: seq<Ptr>, chains: seq<seq<Ptr>>) {
    |buckets| == |chains| && forall i :: 0 <= i < |chains| ==> Linked(mem, buckets[i], chains[i])
  }

  /** At most one element for each class of equal keys. */
  ghost predicate KeysApart<K, V>(laws: Laws<K>, mem: map<Ptr, Node<K, V>>) {
    && (forall p :: p in mem ==> mem[p].hashVal == laws.hash(mem[p].key))
    && (forall p, q :: p in mem && q in mem && laws.equals(mem[p].key, mem[q].key) ==> p == q)
  }

  /** What holds between operations, but for the load. */
  ghost predicate Good<K(!new), V>(laws: Laws<K>, buckets: seq<Ptr>, bucketCount: nat, count: nat, bits: nat,
                                   mem: map<Ptr, Node<K, V>>, chains: seq<seq<Ptr>>) {
    && Lawful(laws)
    && |buckets| == |chains| == bucketCount
    && (bucketCount > 0 ==> bucketCount == Pow2(bits))
    && Filed(mem, chains)
    && AllLinked(mem, buckets, chains)
    && KeysApart(laws, mem)
    && count == |mem|
  }

  // ---- The finite map --------------------------------------------------------------------------

  lemma {:induction false} KeysDistinct<K(!new), V>(laws: Laws<K>, mem: map<Ptr, Node<K, V>>)
    requires Lawful(laws) && KeysApart(laws, mem)
    ensures forall p, q :: p in mem && q in mem && mem[p].key == mem[q].key ==> p == q
  {
  }

  /** From the stored key of each class to its value. */
  ghost function Model<K(!new), V>(laws: Laws<K>, mem: map<Ptr, Node<K, V>>): map<K, V>
    requires Lawful(laws) && KeysApart(laws, mem)
  {
    KeysDistinct(laws, mem);
    map p | p in mem :: mem[p].key := mem[p].value
  }

  /** `m` without the class of `key`. */
  ghost function Without<K, V>(laws: Laws<K>, m: map<K, V>, key: K): map<K, V> {
    map k | k in m && !laws.equals(key, k) :: m[k]
  }

  /** Apart from links, `mem'` holds what `mem` holds for the elements it still has. */
  ghost predicate SameData<K, V>(mem: map<Ptr, Node<K, V>>, mem': map<Ptr, Node<K, V>>) {
    forall p :: p in mem' ==> p in mem && mem'[p] == mem[p].(next := mem'[p].next)
  }

  lemma {:induction false} SameDataSelf<K, V>(mem: map<Ptr, Node<K, V>>)
    ensures SameData(mem, mem)
  {
  }

  lemma {:induction false} KeysApartPart<K, V>(laws: Laws<K>, mem: map<Ptr, Node<K, V>>, mem': map<Ptr, Node<K, V>>)
    requires KeysApart(laws, mem) && SameData(mem, mem')
    ensures KeysApart(laws, mem')
  {
  }

  lemma {:induction false} Equal<K(!new)>(laws: Laws<K>, k: K, l: K, m: K)
    requires Lawful(laws)
    ensures laws.equals(k, k)
    ensures laws.equals(k, l) ==> laws.equals(l, k) && laws.hash(k) == laws.hash(l)
    ensures laws.equals(k, l) && laws.equals(l, m) ==> laws.equals(k, m)
  {
  }

  lemma {:induction false} ModelEntry<K(!new), V>(laws: Laws<K>, mem: map<Ptr, Node<K, V>>, p: Ptr)
    requires Lawful(laws) && KeysApart(laws, mem) && p in mem
    ensures mem[p].key in Model(laws, mem) && Model(laws, mem)[mem[p].key] == mem[p].value
  {
  }

  lemma {:induction false} ModelOwner<K(!new), V>(laws: Laws<K>, mem: map<Ptr, Node<K, V>>, k: K) returns (p: Ptr)
    requires Lawful(laws) && KeysApart(laws, mem) && k in Model(laws, mem)
    ensures p in mem && mem[p].key == k && Model(laws, mem)[k] == mem[p].value
  {
    p :| p in mem && mem[p].key == k;
  }

  /** Relinking alone leaves the finite map as it is. */
  lemma {:induction false} ModelSame<K(!new), V>(laws: Laws<K>, mem: map<Ptr, Node<K, V>>, mem': map<Ptr, Node<K, V>>)
    requires Lawful(laws) && KeysApart(laws, mem) && SameData(mem, mem') && mem'.Keys == mem.Keys
    ensures KeysApart(laws, mem') && Model(laws, mem') == Model(laws, mem)
  {
    KeysApartPart(laws, mem, mem');
    hide Lawful, Model, KeysApart;
    var m, m' := Model(laws, mem), Model(laws, mem');
    forall k | k in m
      ensures k in m' && m'[k] == m[k]
    {
      var p := ModelOwner(laws, mem, k);
      assert p in mem'.Keys;
      ModelEntry(laws, mem', p);
    }
    forall k | k in m'
      ensures k in m
    {
      var p := ModelOwner(laws, mem', k);
      ModelEntry(laws, mem, p);
    }
  }

  /** Taking an element out takes its class out of the finite map. */
  lemma {:induction false} ModelRemove<K(!new), V>(laws: Laws<K>, mem: map<Ptr, Node<K, V>>, p: Ptr, key: K)
    requires Lawful(laws) && KeysApart(laws, mem) && p in mem && laws.equals(key, mem[p].key)
    ensures KeysApart(laws, mem - {p})
    ensures Model(laws, mem - {p}) == Without(laws, Model(laws, mem), key)
  {
    hide Lawful, Model, KeysApart;
    var mem' := mem - {p};
    KeysApartPart(laws, mem, mem');
    var m, m' := Model(laws, mem), Model(laws, mem');
    forall k | k in m && !laws.equals(key, k)
      ensures k in m' && m'[k] == m[k]
    {
      var q := ModelOwner(laws, mem, k);
      ModelEntry(laws, mem', q);
    }
    forall k | k in m'
      ensures k in m && !laws.equals(key, k)
    {
      var q := ModelOwner(laws, mem', k);
      ModelEntry(laws, mem, q);
      OtherClass(laws, mem, p, q, key);
    }
  }

  /** A key equal to that of one element is equal to that of no other. */
  lemma {:induction false} OtherClass<K(!new), V>(laws: Laws<K>, mem: map<Ptr, Node<K, V>>, p: Ptr, q: Ptr, key: K)
    requires Lawful(laws) && KeysApart(laws, mem) && p in mem && q in mem && p != q
    requires laws.equals(key, mem[p].key)
    ensures !laws.equals(key, mem[q].key)
  {
    hide Lawful;
    Equal(laws, key, mem[p].key, key);
    Equal(laws, mem[p].key, key, mem[q].key);
  }

  lemma {:induction false} KeysApartAdd<K(!new), V>(laws: Laws<K>, mem: map<Ptr, Node<K, V>>, p: Ptr, n: Node<K, V>)
    requires Lawful(laws) && KeysApart(laws, mem) && p !in mem && n.hashVal == laws.hash(n.key)
    requires forall q :: q in mem ==> !laws.equals(n.key, mem[q].key)
    ensures KeysApart(laws, mem[p := n])
  {
    hide Lawful;
    var mem' := mem[p := n];
    forall q, r | q in mem' && r in mem' && laws.equals(mem'[q].key, mem'[r].key)
      ensures q == r
    {
      Equal(laws, mem'[q].key, mem'[r].key, mem'[q].key);
    }
  }

  /** An element of a new class adds its key to the finite map. */
  lemma {:induction false} ModelAdd<K(!new), V>(laws: Laws<K>, mem: map<Ptr, Node<K, V>>, p: Ptr, n: Node<K, V>)
    requires Lawful(laws) && KeysApart(laws, mem) && p !in mem && n.hashVal == laws.hash(n.key)
    requires forall q :: q in mem ==> !laws.equals(n.key, mem[q].key)
    ensures KeysApart(laws, mem[p := n])
    ensures Model(laws, mem[p := n]) == Model(laws, mem)[n.key := n.value]
  {
    hide Lawful, Model, KeysApart;
    var mem' := mem[p := n];
    KeysApartAdd(laws, mem, p, n);
    var m, m' := Model(laws, mem), Model(laws, mem');
    ModelEntry(laws, mem', p);
    Equal(laws, n.key, n.key, n.key);
    forall k | k in m
      ensures k in m' && k != n.key && m'[k] == m[k]
    {
      var q := ModelOwner(laws, mem, k);
      ModelEntry(laws, mem', q);
    }
    forall k | k in m'
      ensures k == n.key || k in m
    {
      var q := ModelOwner(laws, mem', k);
      if q != p {
        ModelEntry(laws, mem, q);
      }
    }
  }

  /** A key that its own chain does not hold is nowhere. */
  lemma {:induction false} NotInChain<K(!new), V>(laws: Laws<K>, mem: map<Ptr, Node<K, V>>, chains: seq<seq<Ptr>>,
                                                  key: K, i: nat)
    requires Lawful(laws) && Filed(mem, chains) && KeysApart(laws, mem)
    requires i < |chains| && i == Slot(laws.hash(key), |chains|)
    requires forall p :: p in chains[i] && p in mem ==> !laws.equals(key, mem[p].key)
    ensures forall p :: p in mem ==> !laws.equals(key, mem[p].key)
  {
    hide Lawful;
    forall p | p in mem
      ensures !laws.equals(key, mem[p].key)
    {
      Equal(laws, key, mem[p].key, key);
      assert Placed(mem, chains, p);
    }
  }

  // ---- Filing under relinking ------------------------------------------------------------------

  /** Removing position `j` of chain `i`. */
  lemma {:induction false} FiledDrop<K, V>(mem: map<Ptr, Node<K, V>>, mem': map<Ptr, Node<K, V>>,
                                           chains: seq<seq<Ptr>>, i: nat, j: nat)
    requires Filed(mem, chains) && i < |chains| && j < |chains[i]|
    requires SameData(mem, mem') && mem'.Keys == mem.Keys - {chains[i][j]}
    ensures Filed(mem', chains[i := Drop(chains[i], j)])
  {
    var p, s := chains[i][j], chains[i];
    var chains' := chains[i := Drop(s, j)];
    DropElements(s, j);
    forall k, q | 0 <= k < |chains'| && q in chains'[k]
      ensures q in mem' && Slot(mem'[q].hashVal, |chains'|) == k
    {
      assert q in chains[k] && p in chains[i];
      assert q != p && q in mem.Keys;
    }
    forall q | q in mem'
      ensures Placed(mem', chains', q)
    {
      assert Placed(mem, chains, q);
    }
  }

  lemma {:induction false} DropElements(s: seq<Ptr>, j: nat)
    requires j < |s| && NoDup(s)
    ensures NoDup(Drop(s, j))
    ensures forall q :: q in Drop(s, j) <==> q in s && q != s[j]
  {
    var s' := Drop(s, j);
    forall q | q in s && q != s[j]
      ensures q in s'
    {
      var k :| 0 <= k < |s| && s[k] == q;
      assert s'[if k < j then k else k - 1] == q;
    }
    forall q | q in s'
      ensures q in s && q != s[j]
    {
      var k :| 0 <= k < |s'| && s'[k] == q;
      assert q == s[if k < j then k else k + 1];
    }
  }

  /** Putting `p'` at position `j` of chain `i`. */
  lemma {:induction false} FiledReplace<K, V>(mem: map<Ptr, Node<K, V>>, mem': map<Ptr, Node<K, V>>,
                                              chains: seq<seq<Ptr>>, i: nat, j: nat, p': Ptr)
    requires Filed(mem, chains) && i < |chains| && j < |chains[i]|
    requires p' != NULL && (p' == chains[i][j] || p' !in mem)
    requires mem'.Keys == mem.Keys - {chains[i][j]} + {p'}
    requires forall q :: q in mem' && q != p' ==> mem'[q] == mem[q].(next := mem'[q].next)
    requires Slot(mem'[p'].hashVal, |chains|) == i
    ensures Filed(mem', chains[i := Put(chains[i], j, p')])
  {
    hide Filed, NoDup, Slot, Put;
    var p, s := chains[i][j], chains[i];
    var s', chains' := Put(s, j, p'), chains[i := Put(s, j, p')];
    InChain(mem, chains, i, j);
    if p' in s {
      InBucket(mem, chains, i, p');
    }
    PutElements(s, j, p');
    forall k, q | 0 <= k < |chains'| && q in chains'[k]
      ensures q in mem' && Slot(mem'[q].hashVal, |chains'|) == k
    {
      ReplacedHome(mem, mem', chains, i, p, p', s', k, q);
    }
    forall q | q in mem'
      ensures Placed(mem', chains', q)
    {
      if q != p' {
        assert q in mem.Keys;
        FiledPlaced(mem, chains, q);
      }
    }
    forall k | 0 <= k < |chains'|
      ensures NoDup(chains'[k])
    {
      if k != i {
        FiledNoDup(mem, chains, k);
      }
    }
    FiledIntro(mem', chains');
  }

  lemma {:induction false} InBucket<K, V>(mem: map<Ptr, Node<K, V>>, chains: seq<seq<Ptr>>, k: nat, q: Ptr)
    requires Filed(mem, chains) && k < |chains| && q in chains[k]
    ensures q in mem && Slot(mem[q].hashVal, |chains|) == k
  {
  }

  lemma {:induction false} FiledPlaced<K, V>(mem: map<Ptr, Node<K, V>>, chains: seq<seq<Ptr>>, q: Ptr)
    requires Filed(mem, chains) && q in mem
    ensures Placed(mem, chains, q)
  {
  }

  lemma {:induction false} FiledNoDup<K, V>(mem: map<Ptr, Node<K, V>>, chains: seq<seq<Ptr>>, k: nat)
    requires Filed(mem, chains) && k < |chains|
    ensures NoDup(chains[k])
  {
  }

  lemma {:induction false} FiledIntro<K, V>(mem: map<Ptr, Node<K, V>>, chains: seq<seq<Ptr>>)
    requires forall i, p :: 0 <= i < |chains| && p in chains[i] ==> p in mem && Slot(mem[p].hashVal, |chains|) == i
    requires forall p :: p in mem ==> Placed(mem, chains, p)
    requires forall i :: 0 <= i < |chains| ==> NoDup(chains[i])
    ensures Filed(mem, chains)
  {
  }

  /** After a replacement, each element of a chain is where its hash value says. */
  lemma {:induction false} ReplacedHome<K, V>(
      mem: map<Ptr, Node<K, V>>, mem': map<Ptr, Node<K, V>>, chains: seq<seq<Ptr>>, i: nat, p: Ptr, p': Ptr,
      s': seq<Ptr>, k: nat, q: Ptr)
    requires Filed(mem, chains) && i < |chains| && p in chains[i] && k < |chains|
    requires (p' == p || p' !in mem) && mem'.Keys == mem.Keys - {p} + {p'}
    requires forall q :: q in mem' && q != p' ==> mem'[q] == mem[q].(next := mem'[q].next)
    requires Slot(mem'[p'].hashVal, |chains|) == i
    requires forall q :: q in s' <==> q == p' || (q in chains[i] && q != p)
    requires q in if k == i then s' else chains[k]
    ensures q in mem' && Slot(mem'[q].hashVal, |chains|) == k
  {
    hide Filed, Slot;
    InBucket(mem, chains, i, p);
    if k != i || q != p' {
      InBucket(mem, chains, k, q);
      assert q in mem.Keys;
    }
  }

  /** Pushing a new `p` in front of chain `i`. */
  lemma {:induction false} FiledPush<K, V>(mem: map<Ptr, Node<K, V>>, mem': map<Ptr, Node<K, V>>,
                                           chains: seq<seq<Ptr>>, i: nat, p: Ptr)
    requires Filed(mem, chains) && i < |chains| && p != NULL && p !in mem
    requires p in mem' && mem' == mem[p := mem'[p]]
    requires Slot(mem'[p].hashVal, |chains|) == i
    ensures Filed(mem', chains[i := [p] + chains[i]])
  {
    var s' := [p] + chains[i];
    var chains' := chains[i := s'];
    PushElements(chains[i], p) by {
      assert p !in chains[i];
    }
    hide NoDup, Slot;
    forall q | q in mem'
      ensures Placed(mem', chains', q)
    {
      assert q != p ==> Placed(mem, chains, q);
    }
  }

  lemma {:induction false} PushElements(s: seq<Ptr>, p: Ptr)
    requires NoDup(s) && p !in s
    ensures NoDup([p] + s)
    ensures forall q :: q in [p] + s <==> q == p || q in s
  {
    var s' := [p] + s;
    forall a, b | 0 <= a < b < |s'|
      ensures s'[a] != s'[b]
    {
      assert s'[b] == s[b - 1] && s'[b] in s;
      assert a > 0 ==> s'[a] == s[a - 1];
    }
  }

  /** Pushing a new element in front of the bucket of its hash value. */
  lemma {:induction false} PushStep<K, V>(mem: map<Ptr, Node<K, V>>, buckets: seq<Ptr>, chains: seq<seq<Ptr>>, p: Ptr,
                                          n: Node<K, V>, b: nat)
    requires Filed(mem, chains) && AllLinked(mem, buckets, chains) && p != NULL && p !in mem
    requires b < |chains| && b == Slot(n.hashVal, |chains|) && n.next == buckets[b]
    ensures Filed(mem[p := n], chains[b := [p] + chains[b]])
    ensures AllLinked(mem[p := n], buckets[b := p], chains[b := [p] + chains[b]])
  {
    hide Filed, AllLinked, Slot;
    FiledPush(mem, mem[p := n], chains, b, p);
    PushLinks(mem, buckets, chains, p, n, b);
  }

  lemma {:induction false} PushLinks<K, V>(mem: map<Ptr, Node<K, V>>, buckets: seq<Ptr>, chains: seq<seq<Ptr>>, p: Ptr,
                                           n: Node<K, V>, b: nat)
    requires Filed(mem, chains) && AllLinked(mem, buckets, chains) && p != NULL && p !in mem
    requires b < |chains| && n.next == buckets[b]
    ensures AllLinked(mem[p := n], buckets[b := p], chains[b := [p] + chains[b]])
  {
    hide Filed, Linked;
    var mem', buckets', chains' := mem[p := n], buckets[b := p], chains[b := [p] + chains[b]];
    forall i | 0 <= i < |chains'|
      ensures Linked(mem', buckets'[i], chains'[i])
    {
      assert Linked(mem, buckets[i], chains[i]);
      forall q | q in chains[i]
        ensures q in mem && q in mem' && mem'[q].next == mem[q].next
      {
        InBucket(mem, chains, i, q);
      }
      if i == b {
        LinkedPush(mem, mem', buckets[b], chains[b], p);
      } else {
        LinkedFrame(mem, mem', buckets[i], chains[i]);
      }
    }
  }

  /** Position `j` of chain `i`, and the link that points at it. */
  ghost predicate Spot<K, V>(mem: map<Ptr, Node<K, V>>, chains: seq<seq<Ptr>>, i: nat, j: nat, p: Ptr, link: Link) {
    && i < |chains| && j < |chains[i]|
    && p == chains[i][j] && p in mem
    && link == LinkTo(chains[i], i, j)
    && (link.NextOf? ==> link.elem in mem && link.elem in chains[i] && link.elem != p)
  }

  lemma {:induction false} AtSpot<K, V>(mem: map<Ptr, Node<K, V>>, buckets: seq<Ptr>, chains: seq<seq<Ptr>>, i: nat,
                                        j: nat)
    requires Filed(mem, chains) && AllLinked(mem, buckets, chains) && i < |chains| && j < |chains[i]|
    ensures Spot(mem, chains, i, j, chains[i][j], LinkTo(chains[i], i, j))
    ensures Linked(mem, buckets[i], chains[i]) && NoDup(chains[i])
    ensures chains[i][j] != NULL && Slot(mem[chains[i][j]].hashVal, |chains|) == i
    ensures |buckets| == |chains| && forall k :: 0 <= k < |chains[i]| ==> chains[i][k] in mem
    ensures mem[chains[i][j]].next == At(chains[i], j + 1)
  {
    hide Filed, Linked;
    LinkedAt(mem, buckets[i], chains[i], j);
    InChain(mem, chains, i, j);
    if j > 0 {
      InChain(mem, chains, i, j - 1);
    }
    forall k | 0 <= k < |chains[i]|
      ensures chains[i][k] in mem
    {
      InChain(mem, chains, i, k);
    }
  }

  lemma {:induction false} InChain<K, V>(mem: map<Ptr, Node<K, V>>, chains: seq<seq<Ptr>>, i: nat, j: nat)
    requires Filed(mem, chains) && i < |chains| && j < |chains[i]|
    ensures NoDup(chains[i]) && chains[i][j] in chains[i]
    ensures var p := chains[i][j]; p in mem && p != NULL && Slot(mem[p].hashVal, |chains|) == i
  {
    assert chains[i][j] in chains[i];
    assert Placed(mem, chains, chains[i][j]);
  }

  /** `mem'` differs from `mem` at most in `p`, which may be gone, in `p'`, and in the next field
      behind `link`. */
  ghost predicate TouchesOnly<K, V>(mem: map<Ptr, Node<K, V>>, mem': map<Ptr, Node<K, V>>, p: Ptr, p': Ptr,
                                    link: Link) {
    forall q :: q in mem && q != p && q != p' && (link.NextOf? ==> q != link.elem) ==> q in mem' && mem'[q] == mem[q]
  }

  /** Relinking inside one chain does not touch the others. */
  lemma {:induction false} OtherChains<K, V>(
      mem: map<Ptr, Node<K, V>>, mem': map<Ptr, Node<K, V>>, buckets: seq<Ptr>, buckets': seq<Ptr>,
      chains: seq<seq<Ptr>>, chains': seq<seq<Ptr>>, i: nat, j: nat, p: Ptr, p': Ptr, link: Link)
    requires Filed(mem, chains) && AllLinked(mem, buckets, chains) && Spot(mem, chains, i, j, p, link)
    requires p' == p || p' !in mem
    requires TouchesOnly(mem, mem', p, p', link)
    requires |buckets'| == |chains'| == |chains|
    requires forall k :: 0 <= k < |chains| && k != i ==> buckets'[k] == buckets[k] && chains'[k] == chains[k]
    requires Linked(mem', buckets'[i], chains'[i])
    ensures AllLinked(mem', buckets', chains')
  {
    assert p in chains[i];
    forall k | 0 <= k < |chains'|
      ensures Linked(mem', buckets'[k], chains'[k])
    {
      if k != i {
        assert Linked(mem, buckets[k], chains[k]);
        forall q | q in chains[k]
          ensures q in mem' && q in mem && mem'[q].next == mem[q].next
        {
          assert q in mem && Slot(mem[q].hashVal, |chains|) == k;
        }
        LinkedFrame(mem, mem', buckets[k], chains[k]);
      }
    }
  }

  /** Bypassing position `j` of chain `i` and giving its element `p` back. */
  lemma {:induction false} DropStep<K, V>(
      mem: map<Ptr, Node<K, V>>, mem': map<Ptr, Node<K, V>>, buckets: seq<Ptr>, buckets': seq<Ptr>,
      chains: seq<seq<Ptr>>, chains': seq<seq<Ptr>>, i: nat, j: nat, p: Ptr, link: Link)
    requires Filed(mem, chains) && AllLinked(mem, buckets, chains) && Spot(mem, chains, i, j, p, link)
    requires mem' == StoreNext(mem, link, mem[p].next) - {p} && buckets' == StoreBucket(buckets, link, mem[p].next)
    requires chains' == chains[i := Drop(chains[i], j)]
    ensures SameData(mem, mem') && mem'.Keys == mem.Keys - {p}
    ensures Filed(mem', chains') && AllLinked(mem', buckets', chains')
  {
    hide Filed, AllLinked, Linked, Slot;
    var s := chains[i];
    AtSpot(mem, buckets, chains, i, j);
    FiledDrop(mem, mem', chains, i, j);
    forall k | 0 <= k < |s| && k != j && k + 1 != j
      ensures s[k] in mem' && mem'[s[k]].next == mem[s[k]].next
    {
      assert s[k] != p && (j > 0 ==> s[k] != s[j - 1]);
    }
    LinkedDrop(mem, mem', buckets[i], buckets'[i], s, j);
    OtherChains(mem, mem', buckets, buckets', chains, chains', i, j, p, p, link);
  }

  /** Element memory with `n` at `p'` for the element at `p`, and `link` pointing at it. */
  ghost predicate Replaced<K, V>(mem: map<Ptr, Node<K, V>>, mem': map<Ptr, Node<K, V>>, p: Ptr, p': Ptr,
                                 n: Node<K, V>, link: Link) {
    && mem'.Keys == mem.Keys - {p} + {p'} && p' in mem' && mem'[p'] == n
    && (forall q :: q in mem && q != p && q != p' && (link.NextOf? ==> q != link.elem) ==>
          q in mem' && mem'[q] == mem[q])
    && (link.NextOf? ==> link.elem in mem && link.elem in mem' && mem'[link.elem] == mem[link.elem].(next := p'))
  }

  lemma {:induction false} ReplaceMem<K, V>(mem: map<Ptr, Node<K, V>>, mem': map<Ptr, Node<K, V>>, p: Ptr, p': Ptr,
                                            n: Node<K, V>, link: Link)
    requires p in mem && (p' == p || p' !in mem)
    requires link.NextOf? ==> link.elem in mem && link.elem != p
    requires mem' == StoreNext((mem - {p})[p' := n], link, p')
    ensures Replaced(mem, mem', p, p', n, link)
  {
  }

  /** Putting element `n` at `p'` in the place of position `j` of chain `i`. */
  lemma {:induction false} ReplaceStep<K, V>(
      mem: map<Ptr, Node<K, V>>, mem': map<Ptr, Node<K, V>>, buckets: seq<Ptr>, buckets': seq<Ptr>,
      chains: seq<seq<Ptr>>, chains': seq<seq<Ptr>>, i: nat, j: nat, p: Ptr, p': Ptr, n: Node<K, V>, link: Link)
    requires Filed(mem, chains) && AllLinked(mem, buckets, chains) && Spot(mem, chains, i, j, p, link)
    requires p' != NULL && (p' == p || p' !in mem) && n.next == mem[p].next && Slot(n.hashVal, |chains|) == i
    requires Replaced(mem, mem', p, p', n, link) && buckets' == StoreBucket(buckets, link, p')
    requires chains' == chains[i := Put(chains[i], j, p')]
    ensures Filed(mem', chains') && AllLinked(mem', buckets', chains')
  {
    hide Filed, AllLinked, Linked, Slot;
    var s := chains[i];
    AtSpot(mem, buckets, chains, i, j);
    FiledReplace(mem, mem', chains, i, j, p');
    forall k | 0 <= k < |s| && k != j && k + 1 != j
      ensures s[k] in mem' && mem'[s[k]].next == mem[s[k]].next
    {
      assert s[k] != p && s[k] != p' && (j > 0 ==> s[k] != s[j - 1]);
    }
    LinkedReplace(mem, mem', buckets[i], buckets'[i], s, j, p');
    OtherChains(mem, mem', buckets, buckets', chains, chains', i, j, p, p', link);
  }

  // ---- Rehashing -----------------------------------------------------------------------------

  /** Element `p` is among those that a walk to position `j` of bucket `i` has passed. */
  ghost predicate Passed<K, V>(mem: map<Ptr, Node<K, V>>, chains: seq<seq<Ptr>>, i: nat, j: nat, p: Ptr)
    requires p in mem && |chains| > 0
  {
    var b := Slot(mem[p].hashVal, |chains|);
    b < i || (b == i && i < |chains| && p in chains[i][..Least(j, |chains[i]|)])
  }

  /** Half-way through a rehash: `part` are the elements passed so far, relinked; the others are as
      they were in `mem0`. */
  ghost predicate Moving<K, V>(mem0: map<Ptr, Node<K, V>>, mem: map<Ptr, Node<K, V>>, part: map<Ptr, Node<K, V>>,
                               chains: seq<seq<Ptr>>, i: nat, j: nat)
    requires |chains| > 0
  {
    && mem.Keys == mem0.Keys && SameData(mem0, mem)
    && (forall p :: p in mem0 && p !in part ==> p in mem && mem[p] == mem0[p])
    && (forall p :: p in part ==> p in mem && part[p] == mem[p])
    && (forall p :: p in part ==> p in mem0 && Passed(mem0, chains, i, j, p))
    && (forall p :: p in mem0 && Passed(mem0, chains, i, j, p) ==> p in part)
  }

  lemma {:induction false} MovingStart<K, V>(mem: map<Ptr, Node<K, V>>, chains: seq<seq<Ptr>>)
    requires |chains| > 0
    ensures Moving(mem, mem, map[], chains, 0, 0)
  {
  }

  lemma {:induction false} MovingStep<K, V>(
      mem0: map<Ptr, Node<K, V>>, mem: map<Ptr, Node<K, V>>, part: map<Ptr, Node<K, V>>, chains: seq<seq<Ptr>>,
      i: nat, j: nat, p: Ptr, next: Ptr)
    requires Filed(mem0, chains) && i < |chains| && j < |chains[i]| && p == chains[i][j] && p in mem0
    requires Moving(mem0, mem, part, chains, i, j)
    ensures p !in part && p in mem && mem[p] == mem0[p]
    ensures var n := mem[p].(next := next); Moving(mem0, mem[p := n], part[p := n], chains, i, j + 1)
  {
    hide Filed, Slot;
    InChain(mem0, chains, i, j);
    PassedOneMore(mem0, chains, i, j, p);
    hide Passed;
  }

  /** Stepping past position `j` passes the element there and no other. */
  lemma {:induction false} PassedOneMore<K, V>(mem: map<Ptr, Node<K, V>>, chains: seq<seq<Ptr>>, i: nat, j: nat, p: Ptr)
    requires i < |chains| && j < |chains[i]| && p == chains[i][j] && p in mem && NoDup(chains[i])
    requires Slot(mem[p].hashVal, |chains|) == i
    ensures !Passed(mem, chains, i, j, p)
    ensures forall q :: q in mem ==> (Passed(mem, chains, i, j + 1, q) <==> q == p || Passed(mem, chains, i, j, q))
  {
    hide Slot;
    var s := chains[i];
    assert p !in s[..j];
    assert s[..j + 1] == s[..j] + [p];
  }

  lemma {:induction false} MovingNextBucket<K, V>(mem0: map<Ptr, Node<K, V>>, mem: map<Ptr, Node<K, V>>,
                                                  part: map<Ptr, Node<K, V>>, chains: seq<seq<Ptr>>, i: nat)
    requires Filed(mem0, chains) && i < |chains| && Moving(mem0, mem, part, chains, i, |chains[i]|)
    ensures Moving(mem0, mem, part, chains, i + 1, 0)
  {
    var s := chains[i];
    assert s[..|s|] == s;
    forall q | q in mem0
      ensures Passed(mem0, chains, i + 1, 0, q) <==> Passed(mem0, chains, i, |s|, q)
    {
      assert Placed(mem0, chains, q);
    }
  }

  lemma {:induction false} MovingEnd<K, V>(mem0: map<Ptr, Node<K, V>>, mem: map<Ptr, Node<K, V>>,
                                           part: map<Ptr, Node<K, V>>, chains: seq<seq<Ptr>>)
    requires |chains| > 0 && Filed(mem0, chains) && Moving(mem0, mem, part, chains, |chains|, 0)
    ensures part == mem && mem.Keys == mem0.Keys && SameData(mem0, mem)
  {
    forall q | q in mem
      ensures q in part
    {
      assert q in mem.Keys;
      assert Placed(mem0, chains, q);
    }
  }

  lemma {:induction false} NothingFiled<K, V>(mem: map<Ptr, Node<K, V>>, buckets: seq<Ptr>, chains: seq<seq<Ptr>>)
    requires mem == map[] && |buckets| == |chains|
    requires forall i :: 0 <= i < |chains| ==> buckets[i] == NULL && chains[i] == []
    ensures Filed(mem, chains) && AllLinked(mem, buckets, chains)
  {
  }

  // ---- Clearing --------------------------------------------------------------------------------

  /** Half-way through rmap_clear: the elements passed so far have been given back. */
  ghost predicate Clearing<K, V>(mem0: map<Ptr, Node<K, V>>, mem: map<Ptr, Node<K, V>>, chains: seq<seq<Ptr>>, i: nat,
                                 j: nat)
    requires |chains| > 0
  {
    && (forall p :: p in mem ==> p in mem0 && mem[p] == mem0[p] && !Passed(mem0, chains, i, j, p))
    && (forall p :: p in mem0 && !Passed(mem0, chains, i, j, p) ==> p in mem)
  }

  lemma {:induction false} ClearingStart<K, V>(mem: map<Ptr, Node<K, V>>, chains: seq<seq<Ptr>>)
    requires |chains| > 0
    ensures Clearing(mem, mem, chains, 0, 0)
  {
  }

  lemma {:induction false} ClearingStep<K, V>(mem0: map<Ptr, Node<K, V>>, mem: map<Ptr, Node<K, V>>,
                                              chains: seq<seq<Ptr>>, i: nat, j: nat, p: Ptr)
    requires Filed(mem0, chains) && i < |chains| && j < |chains[i]| && p == chains[i][j] && p in mem0
    requires Clearing(mem0, mem, chains, i, j)
    ensures p in mem && mem[p] == mem0[p]
    ensures Clearing(mem0, mem - {p}, chains, i, j + 1)
  {
    var s := chains[i];
    assert p in s;
    assert p !in s[..j];
    assert s[..j + 1] == s[..j] + [p];
    forall q | q in mem0
      ensures Passed(mem0, chains, i, j + 1, q) <==> q == p || Passed(mem0, chains, i, j, q)
    {
    }
  }

  lemma {:induction false} ClearingNextBucket<K, V>(mem0: map<Ptr, Node<K, V>>, mem: map<Ptr, Node<K, V>>,
                                                    chains: seq<seq<Ptr>>, i: nat)
    requires Filed(mem0, chains) && i < |chains| && Clearing(mem0, mem, chains, i, |chains[i]|)
    ensures Clearing(mem0, mem, chains, i + 1, 0)
  {
    var s := chains[i];
    assert s[..|s|] == s;
    forall q | q in mem0
      ensures Passed(mem0, chains, i + 1, 0, q) <==> Passed(mem0, chains, i, |s|, q)
    {
      assert Placed(mem0, chains, q);
    }
  }

  lemma {:induction false} ClearingEnd<K, V>(mem0: map<Ptr, Node<K, V>>, mem: map<Ptr, Node<K, V>>,
                                             chains: seq<seq<Ptr>>)
    requires |chains| > 0 && Filed(mem0, chains) && Clearing(mem0, mem, chains, |chains|, 0)
    ensures mem == map[]
  {
    forall q | q in mem0
      ensures Passed(mem0, chains, |chains|, 0, q)
    {
      assert Placed(mem0, chains, q);
    }
    assert mem.Keys == {};
  }

  // ---- Iteration -------------------------------------------------------------------------------

  /** All elements from bucket `i` on, in the order of a walk. */
  ghost function Flat(chains: seq<seq<Ptr>>, i: nat): seq<Ptr>
    decreases |chains| - i
  {
    if i >= |chains| then [] else chains[i] + Flat(chains, i + 1)
  }

  lemma {:induction false} FlatSame(chains: seq<seq<Ptr>>, chains': seq<seq<Ptr>>, i: nat)
    requires |chains| == |chains'| && forall k :: i <= k < |chains| ==> chains[k] == chains'[k]
    ensures Flat(chains, i) == Flat(chains', i)
    decreases |chains| - i
  {
    if i < |chains| {
      FlatSame(chains, chains', i + 1);
    }
  }

  /** A walk from bucket `i` on meets exactly the elements filed there, each once. */
  lemma {:induction false} FlatElements<K, V>(mem: map<Ptr, Node<K, V>>, chains: seq<seq<Ptr>>, i: nat)
    requires Filed(mem, chains)
    ensures NoDup(Flat(chains, i))
    ensures forall p ::
              p in Flat(chains, i) <==> p in mem && Placed(mem, chains, p) && Slot(mem[p].hashVal, |chains|) >= i
    decreases |chains| - i
  {
    if i < |chains| {
      FlatElements(mem, chains, i + 1);
      var s, rest := chains[i], Flat(chains, i + 1);
      forall p | p in s
        ensures p in mem && Placed(mem, chains, p) && p !in rest
      {
      }
      forall p | p in mem && Placed(mem, chains, p) && Slot(mem[p].hashVal, |chains|) >= i
        ensures p in s + rest
      {
      }
      NoDupConcat(s, rest);
    }
  }

  lemma {:induction false} NoDupConcat(s: seq<Ptr>, t: seq<Ptr>)
    requires NoDup(s) && NoDup(t) && forall p :: p in s ==> p !in t
    ensures NoDup(s + t)
  {
    forall j, k | 0 <= j < k < |s + t|
      ensures (s + t)[j] != (s + t)[k]
    {
      assert j < |s| ==> s[j] in s;
      assert k >= |s| ==> t[k - |s|] in t;
    }
  }
}
