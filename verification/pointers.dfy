/** Addresses: how the linked structures of rat/src name their records. */
module Pointers {

  type Ptr = nat
  const NULL: Ptr := 0

  /** Element `j` of a chain of addresses, NULL beyond its ends. */
  function At(s: seq<Ptr>, j: int): Ptr {
    if 0 <= j < |s| then s[j] else NULL
  }

  ghost predicate NoDup(s: seq<Ptr>) {
    forall j, k :: 0 <= j < k < |s| ==> s[j] != s[k]
  }

  /** The `size` bytes at `p` and the `size'` bytes at `q` do not overlap. */
  ghost predicate Disjoint(p: Ptr, size: nat, q: Ptr, size': nat) {
    p + size <= q || q + size' <= p
  }

  /** What ralc_alloc answers: NULL, or a block of at least the requested size. */
  datatype Answer = Refused | Granted(ptr: Ptr, size: nat)

  /** A chain in which the element at `j` has moved to `p`. */
  function Put(s: seq<Ptr>, j: nat, p: Ptr): seq<Ptr>
    requires j < |s|
  {
    s[j := p]
  }

  /** Only the address that moved is exchanged. */
  lemma {:induction false} PutElements(s: seq<Ptr>, j: nat, p: Ptr)
    requires j < |s| && NoDup(s) && (p !in s || p == s[j])
    ensures NoDup(Put(s, j, p))
    ensures forall q :: q in Put(s, j, p) <==> q == p || (q in s && q != s[j])
  {
    var s' := Put(s, j, p);
    assert s'[j] == p;
    forall q | q in s && q != s[j]
      ensures q in s'
    {
      var k :| 0 <= k < |s| && s[k] == q;
      assert s'[k] == q;
    }
    forall q | q in s' && q != p
      ensures q in s && q != s[j]
    {
      var k :| 0 <= k < |s'| && s'[k] == q;
      assert q == s[k];
    }
    forall a, b | 0 <= a < b < |s'|
      ensures s'[a] != s'[b]
    {
      assert s[a] in s && s[b] in s;
    }
  }
}
