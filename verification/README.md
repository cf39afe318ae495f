# Verification of ratlib's allocators and collections

ratlib is a C99 library of allocators and collections. This project models its hard parts in Dafny
and proves what they promise:

| file | models |
|---|---|
| `alignment.dfy`, `numbers.dfy`, `options.dfy`, `pointers.dfy`, `usage.dfy` | RAT_ALIGN, arithmetic, results that may be missing, addresses, the usage record |
| `block_layout.dfy`, `block_moves.dfy`, `ralc_gen.dfy` | `ralcGen`, the boundary-tag heap: the header words stored in the buffer, the moves on the sequence of blocks that they describe, and the code |
| `rmap_layout.dfy`, `rmap.dfy`, `rmap_iter.dfy` | `rmap`, the chained hash map: its links, its operations, its removing iterator |
| `bits.dfy`, `gf2.dfy`, `rcrc.dfy`, `rcrc_theory.dfy` | `rcrc`, the bit-serial CRC: words, polynomials over GF(2), the code, and what the checksum means |
| `rhash.dfy`, `rhash_native.dfy`, `rhash_values.dfy` | `rhash`, streaming HalfSipHash-1-3-32; the reference of its tests; values |
| `rlist.dfy`, `ralc_arena.dfy`, `ralc_pool.dfy` | the linked list, arena and pool over a parent allocator |
| `usage_layers.dfy`, `stacking.dfy` | usage accounting of these on top of the heap, and their operations really running on it |
| `rarr.dfy`, `rdyn.dfy` | in-place array shifts, binary search, and the dynamic array |
| `rdyn_cost.dfy`, `rdyn_on_heap.dfy` | what the growth and shrink policies cost, and the dynamic array really running on the heap |

`dafny verify dfyconfig.toml` checks everything.

## How the source is modelled

- **Classes.** Each C structure that its functions update in place is a class with the same fields.
  A ghost field holds what it stands for (the blocks of the heap, the sequence of a list, the
  message so far), and `Valid()` ties the two together. Every operation that callers see keeps
  `Valid()`, so `Valid()` holds after every run. A method that is only a step of an operation, such
  as the inner loop of rehash, states what it keeps instead.
- **Memory.** The heap's buffer is an array with one cell for each byte offset; a `size_t` header
  word is kept whole in the cell of its first byte. The nodes of lists, maps, arenas and pools live
  in a map from address to record, and 0 is NULL. A freed address may be granted again.
- **Parent allocators.** What a parent answers is a parameter of the call: refused, or an address
  and a size of at least what was asked for. `requires` clauses on answers state only the contract
  of rat/include/rat/ralc.h:33-43. `ralc_realloc` may keep the address, move, or refuse.
- **Words.** CRC and hash words are natural numbers with explicit truncation to 64 or 32 bits;
  shifts and bitwise operations are defined one bit at a time.
- **Callbacks.** The map's `hash` and `equals` are any functions where `equals` is an equivalence
  that `hash` respects; comparison functions are any total preorder.

## Where the code differs from what one would expect

- A CRC with a nonzero initial value over a message shorter than the register does not agree with
  the reference model of the RevEng catalogue: the message bits run out before all bits of the
  initial value have been folded in, and `rcrc_result` pads with plain zeros. `MatchesReference`
  gives the exact condition, `ShortMessageWitness` a failing input.
- `rdyn_insert` of no elements into an array without a buffer returns NULL although nothing
  failed. The contract of `Rdyn.Rdyn.Insert` says exactly when NULL is returned;
  `InsertingNothingReturnsNull` is such a call.
- `rdyn_setCap` below the element count, when the allocator rounds the capacity up, keeps a count
  that reaches into elements that were never copied. `SetCapKeepsPrefix` gives the condition that a
  caller can check, `FittedIsPrefix` the one for a given block, and `SetCapKeepsForeignElements` is
  such a call.
- A dynamic array that may shrink has an amortised bound only if the allocator does not round up by
  half or more. `BoundedIffBelowHalf` is the exact condition for blocks of at most 1 + p/q times the
  request and s elements more: 2p < q. `AmortisedWithin` is the bound, with a term for the length of
  the run, which `BoundedByMovedIffNoSlack` shows to be needed unless s is 0. At one half each pop may
  replace the buffer: `ShrinkingWithoutBound` is such a run of the class. `ralcGen` gives less than an
  alignment and a header on top, so an array on it is bounded (`RunOn`). Where the first request of
  grow keeps being refused and only the second is granted, pushes have no bound either:
  `GrudgingGrowthWithoutBound`.
- The assertion at rat/src/rat_ralcPool.c:149 needs a parent that counts the pool's chunks. It
  holds over `ralcGen`; it fails over an arena, which passes on its own parent's block count.
  `RalcPool.GetUsage` gives the exact condition, `PoolOverArenaFails` a failing run.
- A message followed by its own CRC is expected to have a constant checksum, the residue, which is zero
  without a final exclusive or. It has only if the initial value was folded in completely:
  `AppendedChecksum` says what the checksum is otherwise, and that over an odd polynomial it then
  differs; `AppendedWitness` is a failing input.

## Model

| member | source | states |
|---|---|---|
| `Alignment.AlignUpIsLeast` | rat/include/rat/extra.h:38-41 | rounding up yields the least multiple of the alignment that is no smaller, and leaves multiples alone |
| `BlockMoves.RunKeepsGood` | rat/src/rat_ralcGen.c:31-201 | after any run of alloc, realloc, free and clear the blocks are aligned and fit the buffer, no two holes are neighbours, and the last block is never a hole |
| `BlockMoves.FreeingAllEmpties` | rat/src/rat_ralcGen.c:64-95 | freeing all live blocks, in any order and from any reachable heap, ends in the empty heap |
| `BlockMoves.NothingLiveIsEmpty` | rat/src/rat_ralcGen.c:64-95 | a heap in which nothing is live has no block, so no hole can outlive the last live block |
| `BlockMoves.FirstFitIsComplete` | rat/src/rat_ralcGen.c:115-139 | an allocation is refused if and only if no hole is large enough and header plus size do not fit the end; otherwise it yields the lowest hole that is large enough, and the end only without one |
| `BlockMoves.FirstBlock` | rat/src/rat_ralcGen.c:10-28 | the first block of an empty heap stands behind a header of two words |
| `BlockMoves.ResizeIsComplete` | rat/src/rat_ralcGen.c:150-186 | a reallocation is refused if and only if growth at the end, growth over the following hole and a fresh allocation are all impossible |
| `BlockMoves.ResizeIsInPlace` | rat/src/rat_ralcGen.c:148-186 | a reallocation leaves the block where it stands if and only if the end can move or its bytes and a following hole suffice, and is then never refused; otherwise the payload goes to the lowest hole that is large enough, or to the end without one |
| `BlockMoves.PlacedGood` | rat/src/rat_ralcGen.c:108-139 | an allocation keeps the invariant of the heap |
| `BlockMoves.PlacedAddrs` | rat/src/rat_ralcGen.c:108-139 | an allocation adds one address to the live ones, which was not live before |
| `BlockMoves.PlacedKeepsBlock` | rat/src/rat_ralcGen.c:108-139 | an allocation leaves every other live block where it is, with its size |
| `BlockMoves.FreedGood` | rat/src/rat_ralcGen.c:64-95 | merging both ways and cutting off the end keeps the invariant of the heap |
| `BlockMoves.FreedAddrs` | rat/src/rat_ralcGen.c:64-95 | freeing removes exactly the freed address from the live ones |
| `BlockMoves.ResizedGood` | rat/src/rat_ralcGen.c:141-186 | every branch of realloc keeps the invariant, also when the new block is carved from the hole before the old one |
| `BlockMoves.ResizedAddrs` | rat/src/rat_ralcGen.c:141-186 | realloc replaces one live address by one that is the same or was not live |
| `BlockMoves.PayloadsIncrease` | rat/src/rat_ralcGen.c:18-28 | payloads of different blocks do not overlap |
| `BlockMoves.PayloadAligned` | rat/include/rat/extra.h:38-41 | every payload of a well-formed heap starts at a multiple of the alignment |
| `BlockMoves.BytesAddUp` | rat/src/rat_ralcGen.c:204-226 | the used part of the buffer is live bytes, hole bytes and headers, without rest |
| `RalcGen.HeaderAt` | rat/src/rat_ralcGen.c:18-28 | the stored words of every header hold the block's size and its predecessor's size with its own unused flag; stepping by the stored sizes ends exactly at the end of the used buffer |
| `RalcGen.StepBack` | rat/src/rat_ralcGen.c:24-28 | the stored previous size leads from each header to that of its predecessor |
| `RalcGen.LiveAligned` | rat/src/rat_ralcGen.c:108-186 | whatever is live starts at a multiple of the alignment and is a multiple of it long |
| `RalcGen.RalcGen.constructor` | rat/src/rat_ralcGen.c:98-106 | a fresh heap is valid and empty |
| `RalcGen.RalcGen.BlockSetSize` | rat/src/rat_ralcGen.c:31-41 | the size is stored in both places, the follower's flag and all else stay |
| `RalcGen.RalcGen.BlockSplit` | rat/src/rat_ralcGen.c:42-63 | the stretch becomes a live block and, if a header fits, a hole; the follower records the new size and the kept payload is untouched |
| `RalcGen.RalcGen.BlockMerge` | rat/src/rat_ralcGen.c:64-95 | the stored headers describe the coalesced blocks, and the freed payload is the only one to go |
| `RalcGen.RalcGen.FindHole` | rat/src/rat_ralcGen.c:115-127 | the walk over stored sizes stops at the first hole that fits, or at the end, knowing the size before it |
| `RalcGen.RalcGen.Alloc` | rat/src/rat_ralcGen.c:108-139 | the stored heap refines first fit; a grant is a new live payload, aligned, of at least the requested size and less than a header above the aligned request, and no other payload changes; a refusal changes nothing in the buffer |
| `RalcGen.RalcGen.MoveEnd` | rat/src/rat_ralcGen.c:154-163 | growing or shrinking the last block keeps its bytes and all others |
| `RalcGen.RalcGen.ResplitInPlace` | rat/src/rat_ralcGen.c:164-173 | absorbing a following hole or splitting in place keeps the bytes that fit, and all other payloads |
| `RalcGen.RalcGen.CopyPayload` | rat/src/rat_ralcGen.c:178-178 | the copy reaches the new payload and changes no other |
| `RalcGen.RalcGen.CopyBytes` | rat/src/rat_ralcGen.c:178-178 | exactly the target bytes change, to the source bytes |
| `RalcGen.RalcGen.MovePayload` | rat/src/rat_ralcGen.c:178-179 | after the copy and the merge the old bytes stand in the new block, the old block is gone, and no other payload changed |
| `RalcGen.RalcGen.Relocate` | rat/src/rat_ralcGen.c:175-181 | allocate, copy and merge the old block move the payload; a refusal leaves the buffer as it was |
| `RalcGen.RalcGen.Resize` | rat/src/rat_ralcGen.c:148-186 | in every branch the first min(old, new) bytes survive, no other payload changes, the address stays if and only if the request fits in place, the grant is aligned and less than a header above the aligned request, and the stored heap refines the moves on blocks |
| `RalcGen.RalcGen.Realloc` | rat/src/rat_ralcGen.c:141-186 | as before, and NULL asks for an allocation; a refusal leaves the buffer as it was; what fits in place is never refused and never moves |
| `RalcGen.RalcGen.Free` | rat/src/rat_ralcGen.c:188-193 | exactly the freed payload is gone, all others keep their bytes, and when nothing is left the used size is 0 |
| `RalcGen.RalcGen.Clear` | rat/src/rat_ralcGen.c:196-201 | nothing is live and the whole buffer is free |
| `RalcGen.RalcGen.GetUsage` | rat/src/rat_ralcGen.c:204-226 | block count and bytes are those of the live payloads, and the record adds up to the capacity |
| `RmapLayout.SlotIsRemainder` | rat/src/rat_rmap.c:102-102 | the bucket is the hash value modulo the bucket count |
| `RmapLayout.ModelSame` | rat/src/rat_rmap.c:57-90 | relinking without changing data leaves the finite map alone |
| `RmapLayout.ModelRemove` | rat/src/rat_rmap.c:211-234 | dropping an element removes exactly the class of its key |
| `RmapLayout.ModelAdd` | rat/src/rat_rmap.c:92-114 | an element of a new class adds exactly its key |
| `RmapLayout.NotInChain` | rat/src/rat_rmap.c:169-185 | a key that the chain of its hash value does not hold is nowhere in the map |
| `RmapLayout.PushStep` | rat/src/rat_rmap.c:102-112 | pushing to a bucket keeps every element in the chain of its hash value exactly once |
| `RmapLayout.DropStep` | rat/src/rat_rmap.c:225-226 | storing the successor through the link takes out one element and leaves all chains intact |
| `RmapLayout.ReplaceStep` | rat/src/rat_rmap.c:147-161 | storing a moved element through the link replaces one element and leaves all chains intact |
| `RmapLayout.FlatElements` | rat/src/rat_rmap.c:282-307 | bucket by bucket, the chains hold every element exactly once |
| `Rmap.LoadFits` | rat/src/rat_rmap.c:97-100 | the load test says that one more element would fill more than three quarters of the buckets, and doubling keeps 4 * count <= 3 * bucketCount |
| `Rmap.Map.constructor` | rat/src/rat_rmap.c:117-130 | a fresh map is valid, empty and without buckets |
| `Rmap.Map.Search` | rat/src/rat_rmap.c:138-165 | the walk finds the element of an equal key together with the link that points at it, or proves the key absent |
| `Rmap.Map.Get` | rat/src/rat_rmap.c:169-185 | NULL exactly if no equal key is in the map; otherwise the value that the finite map holds |
| `Rmap.Map.Rehash` | rat/src/rat_rmap.c:57-90 | for any power of two: keeps the elements and the finite map, files each element under the new mask, and exchanges the bucket block; a refusal changes nothing |
| `Rmap.Map.MoveAll` | rat/src/rat_rmap.c:73-83 | walking all chains moves every element to the bucket of the new mask, whatever the new power of two |
| `Rmap.Map.TakeBlock` | rat/src/rat_rmap.c:85-88 | the new bucket array is the only block held: the old one has been given back |
| `Rmap.Map.Add` | rat/src/rat_rmap.c:92-114 | adds exactly the new key; asks for twice the buckets, or 4, exactly if one more element would fill more than three quarters of them; fails exactly if that or the element is refused, and then the finite map is unchanged |
| `Rmap.Map.Set` | rat/src/rat_rmap.c:132-167 | the class of the key is replaced or added, every other element keeps address and data, whether realloc keeps, moves or refuses; a new key fails exactly at the load of add or if its element is refused; on failure the finite map is unchanged |
| `Rmap.Map.Replace` | rat/src/rat_rmap.c:147-161 | an element that moved takes the place of the old one in its chain and in the finite map |
| `Rmap.Map.GetOrAdd` | rat/src/rat_rmap.c:187-209 | returns the element of an equal key and changes nothing, or adds the key, at the load of add; failure leaves the finite map unchanged |
| `Rmap.Map.Remove` | rat/src/rat_rmap.c:211-234 | removes exactly the class of the key and says whether there was one |
| `Rmap.Map.Clear` | rat/src/rat_rmap.c:247-265 | every element and the bucket array are given back and the map is empty |
| `Rmap.Map.GiveBlockBack` | rat/src/rat_rmap.c:261-262 | no bucket block is held any more |
| `RmapIter.IterAll.constructor` | rat/src/rat_rmap.c:268-280 | all elements are ahead of a fresh iterator |
| `RmapIter.IterAll.SkipEmpty` | rat/src/rat_rmap.c:289-294 | skipping empty buckets loses no element |
| `RmapIter.IterAll.Next` | rat/src/rat_rmap.c:282-307 | returns the first of the elements ahead; NULL exactly if there is none |
| `RmapIter.IterAll.RemoveElem` | rat/src/rat_rmap.c:309-321 | removes the element returned last through its saved link; the elements ahead stay, and the saved link of the pending one is right again |
| `RmapIter.IterateAndRemove` | rat/src/rat_rmap.c:268-321 | a full iteration that removes any subset terminates, visits every element exactly once, and leaves exactly the others with the right count |
| `Gf2.RemIsTheRemainder` | rat/src/rat_rcrc.c:204-211 | shift and reduce computes the one polynomial of lower degree that differs from the message by a multiple of the generator |
| `Gf2.RemLinear` | rat/src/rat_rcrc.c:204-211 | the remainder is linear over GF(2) |
| `Gf2.RemShlIsZero` | rat/src/rat_rcrc.c:224-235 | over an odd polynomial, zero bits fed to a register clear it only if it was clear |
| `Rcrc.RegisterStepReduces` | rat/src/rat_rcrc.c:206-208 | one register step in 64-bit arithmetic is one step of the division on the low bits, whatever stands above them |
| `Rcrc.FoldStep` | rat/src/rat_rcrc.c:190-202 | the byte folded in at each offset is the part of the initial value that these message bits meet |
| `Rcrc.Reflect` | rat/src/rat_rcrc.c:10-22 | the loop reverses the low bits |
| `Bits.ReverseBit` | rat/src/rat_rcrc.c:10-22 | what reversal means: bit i of the result is bit n - 1 - i of the word |
| `Bits.ShiftsAreArithmetic` | rat/src/rat_rcrc.c:184-244 | shifts and truncation are multiplication, division and remainder by powers of two |
| `Bits.XorBit` | rat/src/rat_rcrc.c:204-211 | exclusive or, bit by bit |
| `RcrcTheory.MessageBit` | rat/src/rat_rcrc.c:184-212 | which bit of which byte each coefficient of the message polynomial is, with and without reflection |
| `RcrcTheory.GeneratorBit` | rat/src/rat_rcrc.c:204-211 | the generator has the terms of poly and x^width |
| `RcrcTheory.ChecksumBit` | rat/src/rat_rcrc.c:224-244 | for all parameters each bit of the result is that of the final exclusive or and the bit of the division remainder at its place, or at its place from the top if the output is reflected |
| `Rcrc.Rcrc.constructor` | rat/src/rat_rcrc.c:168-182 | the register of the empty message |
| `Rcrc.Rcrc.AddByte` | rat/src/rat_rcrc.c:184-212 | the low bits of the register stay the remainder of the message so far with the initial value folded in |
| `Rcrc.Rcrc.FeedBits` | rat/src/rat_rcrc.c:204-211 | the bit loop divides eight more bits |
| `Rcrc.Rcrc.Add` | rat/src/rat_rcrc.c:214-222 | the same for any number of bytes |
| `Rcrc.Rcrc.Result` | rat/src/rat_rcrc.c:224-244 | the result is the finished remainder of the folded message times x^width, whose bits `ChecksumBit` gives |
| `Rcrc.Calc` | rat/src/rat_rcrc.c:248-256 | the one-shot form yields the same checksum |
| `RcrcTheory.ChecksumIsRemainder` | rat/src/rat_rcrc.c:224-244 | the masked value before reflection and exclusive or is the remainder of the polynomial division, and no other |
| `RcrcTheory.DirectIsRemainder` | rat/include/rat/rcrc.h:10-11 | the register form that preloads the initial value computes the remainder of message times x^width plus initial value times x^bits |
| `RcrcTheory.MatchesReference` | rat/src/rat_rcrc.c:190-244 | the lazy form agrees with the preloaded form if and only if the message is at least as long as the register or the bits of the initial value it misses are zero |
| `RcrcTheory.ShortMessageWitness` | rat/src/rat_rcrc.c:190-244 | for CRC-16 with all-ones initial value it disagrees on the empty message and on every one-byte message |
| `RcrcTheory.AppendedRemainder` | rat/src/rat_rcrc.c:184-212 | a message followed by its checksum leaves the final exclusive or and exactly those bits in the register |
| `RcrcTheory.AppendedChecksum` | rat/src/rat_rcrc.c:184-244 | for whole-byte widths and bits fed and shown in one order: the checksum of a message followed by its checksum, least significant byte first for reflected algorithms and last for others, is the residue if no bits of the initial value are unmet, for odd polynomials only then, and otherwise the given remainder |
| `RcrcTheory.MessageOfAppendix` | rat/src/rat_rcrc.c:224-244 | the checksum put behind a message adds the remainder and the final exclusive or to the polynomial, in either byte order |
| `RcrcTheory.PlainResidue` | rat/src/rat_rcrc.c:224-244 | the residue is zero without a final exclusive or |
| `RcrcTheory.AppendedWitness` | rat/src/rat_rcrc.c:190-244 | for CRC-16 with all-ones initial value the empty message followed by its checksum does not have the residue |
| `RcrcTheory.BurstDetected` | rat/src/rat_rcrc.c:184-244 | over an odd polynomial, messages of one length that differ within as many consecutive bits as the register has get different checksums |
| `RcrcTheory.ChecksumAffine` | rat/src/rat_rcrc.c:184-244 | for messages of equal length the exclusive or of three checksums is the checksum of their exclusive or |
| `Rhash.RoundIsBijection` | rat/src/rat_rhash.c:17-33 | the round is a bijection on the four words |
| `Rhash.LengthOnTop` | rat/src/rat_rhash.c:116-116 | the length byte lands above the remaining bytes and touches none of them |
| `Rhash.AbsorbConcat` | rat/src/rat_rhash.c:87-95 | absorbing two stretches of whole words one after the other is absorbing both |
| `Rhash.AbsorbShort` | rat/src/rat_rhash.c:101-104 | less than a word behind whole words stays pending |
| `Rhash.SipRounds` | rat/src/rat_rhash.c:76-77 | the loop over rounds |
| `Rhash.Gather` | rat/src/rat_rhash.c:66-73 | bytes shifted in behind those held make the little-endian word of all of them |
| `Rhash.Rhash.constructor` | rat/src/rat_rhash.c:36-46 | the state of the empty message |
| `Rhash.Rhash.Add` | rat/src/rat_rhash.c:47-105 | the state depends on the concatenated message only; `rem` holds its last size mod 4 bytes and zeros above |
| `Rhash.Rhash.Result` | rat/src/rat_rhash.c:106-128 | the result is the one-shot hash of the message |
| `Rhash.Calc` | rat/src/rat_rhash.c:129-137 | the one-shot form computes the hash |
| `Rhash.HashPieces` | rat/src/rat_rhash.c:47-128 | any partition of a message, with empty and sub-word pieces, yields the state and the hash of the whole |
| `RhashNative.RotlIsArithmetic` | rat/src/rat_rhash.c:15-15 | a rotation is multiplication and division by powers of two |
| `RhashNative.ExorIsMix` | rat/src/rat_rhash.c:17-33 | the exclusive or of words is the built-in one of their bytes |
| `RhashNative.RoundIsCopiedRound` | tests/test_rhash.c:12-28 | the round is that of the tests, statement by statement on built-in operations |
| `RhashNative.HashIsExpected` | tests/test_rhash.c:45-73 | for every key and message the hash is that of the reference in the tests: key constants, number and order of rounds, bytes of words and tail, length on top |
| `RhashValues.HashOfNothing` | rat/src/rat_rhash.c:129-137 | the value for the empty message |
| `RhashValues.HashOfOne` | rat/src/rat_rhash.c:129-137 | the value for one byte |
| `RhashValues.HashOfTwo` | rat/src/rat_rhash.c:129-137 | the value for two bytes |
| `RhashValues.HashOfSeven` | rat/src/rat_rhash.c:129-137 | the value for a whole word and a tail of three bytes |
| `Rlist.InsertMirrored` | rat/src/rat_rlist.c:45-68 | linking in an element keeps the links of the two directions mirror images |
| `Rlist.RemoveMirrored` | rat/src/rat_rlist.c:122-130 | bypassing a run keeps them mirror images |
| `Rlist.MoveMirrored` | rat/src/rat_rlist.c:92-101 | pointing the neighbours at a moved element keeps them mirror images |
| `Rlist.List.constructor` | rat/src/rat_rlist.c:26-35 | a fresh list is valid and empty |
| `Rlist.List.Insert` | rat/src/rat_rlist.c:37-72 | the sequence gains one element before the given one or at the back; no other payload changes; a refusal changes nothing |
| `Rlist.List.MoveBlock` | rat/src/rat_rlist.c:78-90 | the bytes that fit survive realloc as well as the fallback of allocate, copy and free |
| `Rlist.List.Resize` | rat/src/rat_rlist.c:74-105 | the element keeps its place in the sequence at its new address, and the payload bytes that fit; it fails only if both requests are refused, and then nothing has changed |
| `Rlist.List.Remove` | rat/src/rat_rlist.c:107-134 | exactly the run is gone, the element behind it is returned, no other payload changes |
| `Rlist.List.Index` | rat/src/rat_rlist.c:165-177 | the position of the element |
| `Rlist.List.Nth` | rat/src/rat_rlist.c:179-198 | the element at the position, from whichever end |
| `Rlist.List.IndexOfNth` | rat/src/rat_rlist.c:165-198 | the two are inverses |
| `Rlist.List.GetUsage` | rat/src/rat_rlist.c:201-214 | element headers move from block to system bytes, the total stays, nothing underflows |
| `RalcArena.RewindRestores` | rat/src/rat_ralcArena.c:106-131 | rewinding a stack that has only grown to the old mark yields the old stack |
| `RalcArena.PushExtends` | rat/src/rat_ralcArena.c:46-97 | a push only grows the stack, and keeps every chunk's size positive and within its capacity |
| `RalcArena.RewindExtends` | rat/src/rat_ralcArena.c:106-131 | rewinding to a later mark leaves the older stack below |
| `RalcArena.PushedIsApart` | rat/src/rat_ralcArena.c:55-91 | a push keeps the objects there were, and no byte of the new object is one of theirs, in whatever chunks they are |
| `RalcArena.PushSpread` | rat/src/rat_ralcArena.c:81-91 | a push keeps the blocks of the chunks from overlapping |
| `RalcArena.RewindSpread` | rat/src/rat_ralcArena.c:106-131 | so does a rewind |
| `RalcArena.TotalAligned` | rat/src/rat_ralcArena.c:99-104 | the marks of an aligned stack are multiples of the alignment |
| `RalcArena.PushAligned` | rat/src/rat_ralcArena.c:53-94 | a push of an aligned size keeps chunks and sizes aligned |
| `RalcArena.RewindAligned` | rat/src/rat_ralcArena.c:106-131 | so does a rewind by an aligned distance |
| `RalcArena.RunAligned` | rat/src/rat_ralcArena.c:46-131 | so does every run with aligned chunks and marks |
| `RalcArena.ObjectAligned` | rat/src/rat_ralcArena.c:53-91 | an object on top of an aligned stack starts at a multiple of the alignment |
| `RalcArena.RunExtends` | rat/src/rat_ralcArena.c:46-131 | so does every well-nested run |
| `RalcArena.MarkAndRewind` | rat/src/rat_ralcArena.c:46-131 | after any well-nested run of pushes and inner rewinds, rewinding to the mark restores the chunks and their sizes exactly |
| `RalcArena.RalcArena.constructor` | rat/src/rat_ralcArena.c:35-44 | a fresh arena is valid and empty |
| `RalcArena.RalcArena.Aligned` | rat/src/rat_ralcArena.c:53-53 | a push takes the least multiple of the alignment that holds the request and one byte |
| `RalcArena.RalcArena.HasRoom` | rat/src/rat_ralcArena.c:55-58 | whether the top chunk has room |
| `RalcArena.RalcArena.Bump` | rat/src/rat_ralcArena.c:55-65 | the object is taken from the top chunk, and nothing else changes |
| `RalcArena.RalcArena.AddChunk` | rat/src/rat_ralcArena.c:81-94 | the new chunk becomes the top and holds the object alone |
| `RalcArena.RalcArena.PopChunk` | rat/src/rat_ralcArena.c:125-127 | exactly the top chunk goes, and its size is reported |
| `RalcArena.RalcArena.Push` | rat/src/rat_ralcArena.c:46-97 | the linked chunks refine the stack; the object takes the least multiple of the alignment that holds the request and one byte; it is cut from the top chunk exactly if that has so many bytes left, and otherwise starts the new chunk; it is aligned if the chunks are; it fails exactly if the top chunk is full and the parent refuses |
| `RalcArena.RalcArena.Mark` | rat/src/rat_ralcArena.c:99-104 | the mark is the sum of the chunk sizes, and aligned if they are |
| `RalcArena.RalcArena.Rewind` | rat/src/rat_ralcArena.c:106-131 | the loop over linked chunks pops exactly the given bytes, and gives back exactly the chunks popped, from the top down |
| `RalcArena.RalcArena.Clear` | rat/src/rat_ralcArena.c:139-153 | every chunk is given back |
| `RalcArena.RalcArena.GetUsage` | rat/src/rat_ralcArena.c:155-183 | chunk headers become system bytes and free chunk space becomes holes; the total stays, nothing underflows |
| `RalcArena.OpenChunksAreCounted` | rat/src/rat_ralcArena.c:155-183 | the holes added are the chunks with space left |
| `RalcPool.SlotsDisjoint` | rat/src/rat_ralcPool.c:50-55 | no two slots overlap, of whatever chunks they are |
| `RalcPool.SlotWithin` | rat/src/rat_ralcPool.c:34-46 | every slot lies inside its chunk's block, behind the header |
| `RalcPool.SlotAligned` | rat/src/rat_ralcPool.c:50-76 | every slot of an aligned chunk starts at a multiple of the alignment |
| `RalcPool.RalcPool.constructor` | rat/src/rat_ralcPool.c:61-76 | slots are aligned and hold a link at least; a chunk has one slot at least |
| `RalcPool.RalcPool.SlotsIn` | rat/src/rat_ralcPool.c:45-45 | a chunk has as many slots as its block holds: less than a slot is left over |
| `RalcPool.RalcPool.Grow` | rat/src/rat_ralcPool.c:29-58 | the slots of the new chunk, lowest first, precede the old free list; no slot or word that was there changes |
| `RalcPool.RalcPool.Thread` | rat/src/rat_ralcPool.c:50-55 | the loop threads the new slots, all of them different from the old |
| `RalcPool.RalcPool.Alloc` | rat/src/rat_ralcPool.c:78-90 | never returns a live slot; takes the slot freed last, or the first of a new chunk; live slots keep their contents; fails exactly if no slot is free and the parent refuses |
| `RalcPool.RalcPool.Take` | rat/src/rat_ralcPool.c:85-89 | unlinking the first free slot keeps the free list and the partition |
| `RalcPool.RalcPool.Free` | rat/src/rat_ralcPool.c:92-100 | the slot becomes the first free one, its first word a link and the rest as it was; no other slot changes |
| `RalcPool.RalcPool.Write` | rat/src/rat_ralcPool.c:22-23 | whatever callers write to live slots, in the first word or behind it, the free list and the partition into free and live slots hold |
| `RalcPool.RalcPool.Clear` | rat/src/rat_ralcPool.c:103-117 | every chunk is given back |
| `RalcPool.RalcPool.GetUsage` | rat/src/rat_ralcPool.c:120-158 | chunks become live slots, free slots and system bytes; the total stays, nothing underflows; the assertion on the block count fails if and only if the parent counts fewer blocks than there are chunks |
| `UsageLayers.HeldFits` | rat/src/rat_ralcGen.c:204-226 | distinct blocks held in the heap are no more and no larger than the heap's usage reports |
| `UsageLayers.PackedFits` | rat/src/rat_ralcArena.c:46-97 | objects that an arena holds without overlap are no larger together than what is in use |
| `UsageLayers.PartFits` | rat/include/rat/ralc.h:11-17 | a record that covers and counts blocks does so for any of them |
| `UsageLayers.SlotsFit` | rat/src/rat_ralcPool.c:144-156 | any live slots are no more than the live slots |
| `UsageLayers.GenLayer` | rat/src/rat_ralcGen.c:204-226 | the heap's record covers and counts whatever blocks are held in the heap |
| `UsageLayers.ArenaLayer` | rat/src/rat_ralcArena.c:155-183 | on any parent whose record covers the chunks: the total stays, and the record covers whatever objects the arena has granted |
| `UsageLayers.ListLayer` | rat/src/rat_rlist.c:201-214 | on any parent whose record covers the elements: the total stays, and the record covers the payloads, and counts them if the parent counts the elements |
| `UsageLayers.PoolLayer` | rat/src/rat_ralcPool.c:120-158 | on any parent whose record covers and counts the chunks: the assertion holds, the total stays, and the record covers and counts any live slots |
| `UsageLayers.ArenaOverGen` | rat/src/rat_ralcArena.c:155-183 | for an arena on the heap the record adds up to the heap's capacity and covers whatever the arena has granted |
| `UsageLayers.ListOverGen` | rat/src/rat_rlist.c:201-214 | for a list on the heap too, and the payloads of the list are counted as block bytes |
| `UsageLayers.PoolOverGen` | rat/src/rat_ralcPool.c:120-158 | for a pool on the heap too, it counts the live slots, and the assertion on the block count never fails |
| `UsageLayers.ListOverArenaOverGen` | rat/src/rat_rlist.c:201-214 | three layers: for a list of arena objects on the heap |
| `UsageLayers.ArenaOverPoolOverGen` | rat/src/rat_ralcArena.c:155-183 | three layers: for an arena in pool slots on the heap |
| `Stacking.GiveBack` | rat/src/rat_ralcGen.c:188-193 | the frees of a layer remove exactly its blocks from the heap, and leave those it keeps |
| `Stacking.ArenaPush` | rat/src/rat_ralcArena.c:46-97 | an arena on the heap: its chunks stay live blocks of the heap; the levels and the object are those of the push, aligned where arena and heap share one alignment; the heap is asked, for a header and the chunk capacity or twice the object, exactly if the top chunk has too few bytes left; NULL exactly if it then refuses; all payloads there were are kept |
| `Stacking.ArenaRewind` | rat/src/rat_ralcArena.c:106-131 | rewinding restores the arena and frees exactly the chunks above in the heap |
| `Stacking.ArenaClear` | rat/src/rat_ralcArena.c:139-153 | clearing frees exactly the arena's chunks in the heap |
| `Stacking.PoolAlloc` | rat/src/rat_ralcPool.c:78-90 | a pool on the heap: its chunks stay live blocks of the heap and do not overlap; NULL exactly if no slot is free and the heap refuses a header and the slots of a chunk; live slots and all payloads there were are kept |
| `Stacking.PoolAligned` | rat/src/rat_ralcPool.c:61-90 | every slot in use of a pool on the heap starts at a multiple of the alignment |
| `Stacking.PoolClear` | rat/src/rat_ralcPool.c:103-117 | clearing frees exactly the pool's chunks in the heap |
| `Stacking.ListInsert` | rat/src/rat_rlist.c:37-72 | a list on the heap: every element stays a live block that holds its payload behind the header; NULL exactly if the heap has no room; all payloads there were are kept |
| `Stacking.ListRemove` | rat/src/rat_rlist.c:107-134 | removing a run frees exactly its blocks in the heap; the empty run changes nothing |
| `Stacking.ListResize` | rat/src/rat_rlist.c:74-105 | resizing through the heap's realloc keeps place and payload prefix and all other payloads of heap and list; it fails exactly if the heap cannot resize, and then changes neither |
| `Stacking.RefusedTwice` | rat/src/rat_ralcGen.c:141-186 | what the heap's realloc refuses its alloc refuses, so the fallback of allocate, copy and free never succeeds on the heap |
| `Stacking.TwoInOneChunk` | rat/src/rat_ralcArena.c:46-97 | two pushes on an arena on a heap yield two objects in one chunk, the heap's only block |
| `Stacking.TwoChunks` | rat/src/rat_ralcPool.c:29-58 | two allocations from a pool with one slot to a chunk take two chunks |
| `Stacking.PoolOverArenaFails` | rat/src/rat_ralcPool.c:149-149 | with the two objects as the pool's chunks and the heap's own record the assertion fails |
| `Rarr.MemMove` | rat/src/rat_rarr.c:14-22 | overlapping runs move without loss |
| `Rarr.Insert` | rat/src/rat_rarr.c:9-16 | the elements before and behind the gap are those of the shorter array, and nothing beyond changes |
| `Rarr.Remove` | rat/src/rat_rarr.c:17-24 | the rest of the elements close up, and nothing beyond changes |
| `Rarr.Resize` | rat/src/rat_rarr.c:25-39 | opens or closes the gap where the two runs differ, and returns that place |
| `Rarr.CloseUndoesOpen` | rat/src/rat_rarr.c:9-24 | removing what was inserted restores the sequence |
| `Rarr.BinSearch` | rat/src/rat_rarr.c:41-62 | found if and only if some element compares equal; the index splits the array into smaller and not smaller elements, so it is the leftmost match or the place to insert |
| `Rarr.BinSearchDesc` | rat/src/rat_rarr.c:64-91 | the same on descending arrays, with the rightmost match |
| `Rarr.InsertionKeepsAscending` | rat/include/rat/rarr.h:25-29 | inserting where the search points keeps the array sorted |
| `Rdyn.RoomEnough` | rat/src/rat_rdyn.c:29-31 | the capacity computed from the granted bytes is at least the requested one |
| `Rdyn.MemCpy` | rat/src/rat_rdyn.c:26-26 | exactly the first elements are copied |
| `Rdyn.Rdyn.constructor` | rat/src/rat_rdyn.c:94-104 | a fresh array is valid, empty and without a buffer |
| `Rdyn.Rdyn.ReallocBuf` | rat/src/rat_rdyn.c:10-34 | what survives realloc, and what survives allocate, copy and free; null exactly if both are refused; afterwards the new block is the only one held |
| `Rdyn.Rdyn.Grow` | rat/src/rat_rdyn.c:36-60 | the old elements stay; it fails exactly if room is missing and both sizes are refused in both ways, and then nothing has changed |
| `Rdyn.Rdyn.Shrink` | rat/src/rat_rdyn.c:62-91 | the first elements stay, also when shrinking the buffer is refused; says when the buffer is replaced or given back |
| `Rdyn.Rdyn.Insert` | rat/src/rat_rdyn.c:107-115 | opens a gap in the sequence; says exactly when NULL is returned; a failed insert changes nothing |
| `Rdyn.Rdyn.Push` | rat/src/rat_rdyn.c:36-60 | appends; says what is relocated, and that the cost is that of a step of the runs on whatever terms the first request is granted |
| `Rdyn.Rdyn.Pop` | rat/src/rat_rdyn.c:62-91 | the first elements stay, at the cost of a step of the runs on whatever terms the request is granted; it may be refused |
| `Rdyn.Rdyn.Apply` | rat/src/rat_rdyn.c:36-91 | one push or pop against any allocator: only a push fails, exactly if it needs room and both requests are refused, and then nothing changes; otherwise the elements stay, and the cost is that of a step on the terms on which the first request was granted |
| `Rdyn.Rdyn.Remove` | rat/src/rat_rdyn.c:130-137 | closes the run in the sequence, whatever the allocator answers |
| `Rdyn.Rdyn.Resize` | rat/src/rat_rdyn.c:117-128 | the run changes its length, its common part and all around it stay; says exactly when NULL is returned |
| `Rdyn.Rdyn.SetCap` | rat/src/rat_rdyn.c:140-158 | elements up to the requested capacity stay, the rest of the count is what the block held; a failure changes nothing |
| `Rdyn.Rdyn.Clear` | rat/src/rat_rdyn.c:160-168 | the block is given back, so that none is held, and the array is empty |
| `Rdyn.FittedIsPrefix` | rat/src/rat_rdyn.c:150-156 | the array is sure to hold a prefix of its old contents if and only if nothing had to be given up or the block is no larger than was asked for |
| `Rdyn.SetCapKeepsPrefix` | rat/src/rat_rdyn.c:140-158 | whatever the allocator answers, the array holds a prefix of its old contents if and only if the capacity was not set below the count |
| `Rdyn.SetCapKeepsForeignElements` | rat/src/rat_rdyn.c:140-158 | an array of 1, 2, 3, 4 set to capacity 1 may come to hold 1, 7, 7, 7 |
| `Rdyn.InsertingNothingReturnsNull` | rat/src/rat_rdyn.c:107-115 | inserting nothing into a fresh array returns NULL though the allocator grants everything |
| `RdynCost.AmortisedPush` | rat/src/rat_rdyn.c:36-60 | while the buffer is kept when elements are popped, and however generous the allocator is, any run relocates at most three elements for each pushed |
| `RdynCost.AmortisedExactly` | rat/src/rat_rdyn.c:36-91 | where the allocator is exact, any run of pushes and pops relocates at most four elements for each pushed and three for each popped |
| `RdynCost.AmortisedWithin` | rat/src/rat_rdyn.c:36-91 | for blocks of at most 1 + p/q times the request and s elements more, 2p < q: the bound on what any run relocates, in the elements pushed and popped and the length of the run |
| `RdynCost.BoundedIffBelowHalf` | rat/src/rat_rdyn.c:36-91 | for such blocks, runs are bounded by a multiple of the elements pushed and popped and of their length if and only if 2p < q |
| `RdynCost.BoundedByMovedIffNoSlack` | rat/src/rat_rdyn.c:36-91 | they are bounded by a multiple of the elements alone if and only if, besides, s is 0 |
| `RdynCost.HalfMoreDoubles` | rat/src/rat_rdyn.c:47-79 | rounding up by half after either request leaves room for at least twice as many elements less one, so the next pop of one shrinks again |
| `RdynCost.Wanted` | rat/src/rat_rdyn.c:47-47 | half as much again, rounded down |
| `RdynCost.ShrunkCap` | rat/src/rat_rdyn.c:81-81 | a third more, rounded down |
| `Rdyn.EditAll` | rat/src/rat_rdyn.c:36-91 | a whole run of pushes and pops on the array, against any allocator that grants the pushes on given terms and may refuse to shrink: a run on these terms, within the bounds for them |
| `Rdyn.ShrinkingWithoutBound` | rat/src/rat_rdyn.c:78-88 | at the border: for every factor a run of the class against an allocator that rounds up by half relocates more than that many times the elements pushed and popped and the length of the run |
| `Rdyn.GrudgingGrowthWithoutBound` | rat/src/rat_rdyn.c:47-54 | that the first requests are granted is needed: where each is refused and the second met exactly, pushing one by one relocates more than any factor times the elements pushed |
| `RdynOnHeap.SnugIsNear` | rat/src/rat_ralcGen.c:51-59 | what the heap grants is the request and less than an alignment and a header more |
| `RdynOnHeap.Ask` | rat/src/rat_rdyn.c:10-34 | the requests of reallocBuf to the heap: refused exactly if the heap cannot resize or has no room, for then the fallback is refused too; otherwise a live block within the terms; all other payloads are kept |
| `RdynOnHeap.PushOn` | rat/src/rat_rdyn.c:36-60 | a push on the heap: the buffer stays a live block of the heap; fails exactly if room is missing and the heap refuses both requests; a step of the runs if the first is not refused |
| `RdynOnHeap.PopOn` | rat/src/rat_rdyn.c:62-91 | a pop on the heap: the buffer stays a live block or is freed, other payloads are kept; always a step of the runs |
| `RdynOnHeap.RunOn` | rat/src/rat_rdyn.c:36-91 | a whole run on any heap, up to the first push whose first request the heap refuses: at most six elements relocated for each pushed, two for each popped, and one and a half times alignment plus header for each edit; all other payloads are kept |

## Left out

- rat/src/rat_ralc.c, rat/src/rat_ralcCustom.c: dispatch by kind and callback; its answers are parameters here.
- rat/src/rat_rorder.c, rat/src/rat_rcmp.c, rat/src/rat_rring.c, rat/include/rat/rbit.h: fixed-width identities and one-line functions would add only easy members.
- The table of named CRC algorithms: constants without logic. `rcrc_initFromId` and `rcrc_calcFromId` only look them up.
- Wrap-around of `size_t` at extreme sizes, and the assertions that guard against it: sizes are unbounded.
- Misuse: double free, foreign pointers, stale marks, keys that alias map storage, `restrict`.
- Bytes inside headers: a header word of `ralcGen` is one cell, and other headers are records beside the payload, so writing part of a header is not modelled.
- Padding between key and value in map elements, and the default hash and equality of the map: `hash` and `equals` stay abstract.
- Contents of a map value after `rmap_set`: the caller is to write it, so it is an arbitrary value here.
- Contents of the gap that an insertion opens: the caller is to write it.
- Bytes inside an element of a dynamic array: an element is one array cell.
- The address of a dynamic array's buffer in `rdyn.dfy`: whether a granted realloc moved it is not observable there.
- The bytes of a dynamic array's elements on the heap: `rdyn_on_heap.dfy` ties the buffer to a live block and its size, not to the bytes in it.
- RunOn: says nothing about the cost after the first refused request, because there is no bound then.
- Formatting, benchmarks, tests and platform configuration.
