# VeriBlock Proof-of-Proof library: a verification model

A Dafny model of the consensus library, with proofs of what its algorithms promise. The model keeps
the form of the code: operators that rewrite bytes in place are methods over arrays, the block tree
is a heap of block objects with levels, flags, payload-id lists, tips and a payload index, and
encoders and decoders append to write streams and move read streams forward. Functions and lemmas
state what these compute.

| part | files |
|---|---|
| 256-bit arithmetic, compact bits, BTC work | Numbers, Word256, ByteShifts, Decimals, CompactBits, ArithUint256, BtcWork |
| Base58 and Base59 | Radix, Base58, Base59 |
| VarInt, compact sizes, transactions | Codec, Streams, VarInt, BtcTransaction, TransactionStreams |
| VBK encoding of PopData | Serde, Address, Entities, PopData, EntityStreams, PayloadSizes |
| altchain block tree | BlockIndexes, Chains, PayloadsIndex, TreeShape, TreeInvariants, AltBlockTree, TreeTheorems |
| mempool filter and books | CountingContext, MempoolFilter, MemPool, ValueSortedMap |
| command group cache | CommandGroupCache |
| PoP rewards | Rewards |

`dafny verify dfyconfig.toml` checks everything.

A tree invariant (`AltTree.AltBlockTree.Valid`) is established by the constructor and kept by every
operation, in any order, so what the lemmas of `TreeTheorems` say of a tree that meets it holds in
every reachable state. The same goes for `MemPools.MemPool.Agree` with `InFlightOk`, for
`ValueSortedMaps.ValueSortedMap.Valid` and for `CommandGroupCaches.CommandGroupCache.Valid`.

Hash functions, the outcome of stateless, stateful and contextual checks, the execution of commands
and whether a payload can be loaded are parameters.

## Findings

Where the code does not do what a reader would expect of it, the code is kept, and a lemma says
exactly when.

- Block size limit (counting_context.hpp:60-69): a payload is compared with the limit by the counts
  from before it, and the 256th payload of a kind makes its count one byte longer. The body can end
  one byte above the limit, and the assertion at the end of the filter fails. With the default limits
  256 ATVs can do it. `CountingContexts.SizeLimitIff` gives the exact ranges of limits.
- Sorted values in flight (value_sorted_map.hpp:52-67): erasing a key removes some value equivalent
  to its value, not necessarily that value. The mempool compares heights alone, so its sorted lists can
  keep a payload that is no longer in flight and lack one that is; `tryConnectPayloads` resubmits the
  stale one. `ValueSortedMaps.SortedHoldsValuesIff` gives the exact condition on the comparator.
- Keystone rewards (default_poprewards_calculator.cpp:168-172): the comment says that past the
  threshold the reward ceases to grow. With the default slope for keystones it falls before it.
  `Rewards.CurveRisesIff` gives the exact condition on the curve. It carries over to the rewards up to
  the truncation bound `Rewards.Blur`: on a rising curve a reward can still be a unit less than that of
  a lower score (`Rewards.RewardLosesAUnit`), never more than the bound (`Rewards.GentleRewardsRise`).
- Publication data (consts.hpp:71-73): the limit on the whole is six bytes less than the limits of
  the fields allow, so there are transactions that are written and then refused.
  `PopDataCodec.VbkTxRoundTrip` gives the exact condition.
- A VBK block's nonce has eight bytes in memory and five on the wire.
- BTC retarget: the timespan is a difference of 32-bit words, so a clock that runs backward by up to
  2^32 - 4T, T being the target timespan, counts as the longest, where the signed difference would
  count as the shortest (`BtcWork.BackwardClockCountsAsMaximum`); `BtcWork.ClampIsSignedIff` says
  exactly when the two agree. The product of target and timespan is reduced modulo 2^256;
  `BtcWork.ScalingIsExactIff` says exactly when that is harmless.
- A transaction without inputs but with outputs is not read back.
- `DecodeBase59` of an empty text leaves the output vector as it was.
- `isBlockOutdated`: the branch that spares ancestors of the final block is never reached, because a
  lower candidate has been dealt with before; ancestors of the final block are outdated.
- `BlockPayloadMutator::add` keeps the id of a payload whose commands failed among the ids seen: a
  failed call leaves them alone if and only if the payload is a stateful duplicate. The loop of the
  mempool filter then drops every later payload with that id, and a second direct call of `add` with it
  does not get past the assertion at its start (alt_block_tree.cpp:554-558).
- The command cache drops an arbitrary entry, possibly the one just put, while nothing has been looked
  up, and with a size of zero or one it never keeps anything. `CommandGroupCaches.NewEntryStaysIff`
  says exactly when a new entry is sure to stay.

## Model

| member | source | states |
|---|---|---|
| Arith.ArithUint256.AddAssign | include/veriblock/pop/arith_uint256.hpp:142-150 | The bytes become those of the sum modulo 2^256, the operand being allowed to be the same object. |
| Arith.ArithUint256.Increment | include/veriblock/pop/arith_uint256.hpp:175-180 | The carry loop adds one modulo 2^256. |
| Arith.ArithUint256.Decrement | include/veriblock/pop/arith_uint256.hpp:189-196 | The borrow loop subtracts one modulo 2^256. |
| Arith.ArithUint256.Complement | include/veriblock/pop/arith_uint256.hpp:62-68 | Inverting every byte gives 2^256 - 1 minus the value, in a new object. |
| Arith.ArithUint256.Negate | include/veriblock/pop/arith_uint256.hpp:70-77 | Inverting and incrementing gives the negative modulo 2^256. |
| Arith.ArithUint256.SubAssign | include/veriblock/pop/arith_uint256.hpp:152-155 | Adding the negative is subtraction modulo 2^256. |
| Arith.ArithUint256.CompareTo | src/pop/arith_uint256.cpp:65-75 | -1, 0 or 1 as the values compare as integers, from the top byte down. |
| Arith.ArithUint256.ShiftLeftAssign | src/pop/arith_uint256.cpp:77-93 | The byte loop multiplies by 2^shift modulo 2^256, for every 32-bit shift, also beyond the width. |
| Arith.ArithUint256.ShiftRightAssign | src/pop/arith_uint256.cpp:95-111 | The byte loop divides by 2^shift, for every 32-bit shift. |
| Arith.ArithUint256.MulAssign32 | src/pop/arith_uint256.cpp:113-121 | The carry loop multiplies by a 32-bit word modulo 2^256. |
| Arith.ArithUint256.MulAssign | src/pop/arith_uint256.cpp:123-135 | The schoolbook loops give the product modulo 2^256. |
| Arith.ArithUint256.DivAssign | src/pop/arith_uint256.cpp:137-162 | Shift-and-subtract ends with exactly the quotient, the local numerator being the remainder; it throws exactly for a zero divisor, and the value is then zero. |
| Arith.ArithUint256.Bits | src/pop/arith_uint256.cpp:164-176 | The position of the highest set bit, counted from one; zero for zero. |
| Arith.ArithUint256.GetLow64 | src/pop/arith_uint256.cpp:201-205 | The value modulo 2^64. |
| Arith.ArithUint256.ToString | src/pop/arith_uint256.cpp:42-54 | Dividing by ten and reversing the digits gives the decimal notation of the value. |
| Arith.ArithUint256.FromString | src/pop/arith_uint256.cpp:56-63 | The value that multiply-by-ten-and-add gives for any text, modulo 2^256. |
| Decimals.ParseDecimal | src/pop/arith_uint256.cpp:42-63 | Parsing the decimal notation of any 256-bit number gives the number back. |
| Decimals.DecimalInjective | src/pop/arith_uint256.cpp:42-54 | Two numbers never print alike. |
| Arith.ArithUint256.FromBits | src/pop/arith_uint256.cpp:18-40 | The decoded value is mantissa times 256^(size - 3), modulo 2^256. |
| Arith.ArithUint256.CompactFlags | src/pop/arith_uint256.cpp:18-40 | The overflow flag is set exactly when the unreduced value does not fit 256 bits, the negative flag exactly for a set sign bit on a non-zero mantissa. |
| CompactBits.OverflowIsExact | src/pop/arith_uint256.cpp:18-40 | The three size comparisons of the overflow flag together say that mantissa * 256^(size - 3) is at least 2^256. |
| Arith.ArithUint256.ToBits | src/pop/arith_uint256.cpp:178-199 | The encoder returns the compact form of the value; both of its assertions hold for every value. |
| CompactBits.EncodeFits | src/pop/arith_uint256.cpp:178-199 | The mantissa stays below the sign bit, the size within 33, and the mantissa is zero only for zero. |
| CompactBits.CompactRoundsDown | src/pop/arith_uint256.cpp:18-40 | Decoding an encoding never exceeds the value, misses it by less than 2^-15 of the result, and is exact below 2^23. |
| CompactBits.CompactIsStable | src/pop/arith_uint256.cpp:178-199 | Encoding a decoded encoding gives the same encoding. |
| BtcWork.GetBlockProof | src/pop/blockchain/btc_blockchain_util.cpp:22-36 | The proof is floor(2^256 / (target + 1)) for a usable target, computed without overflow, and zero for a negative, overflowing or zero one. |
| BtcWork.TargetLeavesRoom | src/pop/blockchain/btc_blockchain_util.cpp:22-36 | A target that does not overflow leaves room for the one that is added: the divisor is never zero. |
| BtcWork.CalculateNextWorkRequired | src/pop/blockchain/btc_blockchain_util.cpp:51-81 | The clamped and scaled target, in compact form, as the object arithmetic computes it. |
| BtcWork.RetargetAtMostFourfold | src/pop/blockchain/btc_blockchain_util.cpp:51-81 | A retarget gives at most four times the old target and at most the limit, without any condition on the old target. |
| BtcWork.RetargetAtLeastQuarter | src/pop/blockchain/btc_blockchain_util.cpp:51-81 | When old * timespan fits 256 bits and 4T a word, the next target, read back from its compact form, is at least the limit or old * floor(T/4) / T, less one unit of the division and the 2^-15 of the compact form. |
| BtcWork.ScalingIsExactIff | src/pop/blockchain/btc_blockchain_util.cpp:51-81 | Multiplying and dividing gives the exact scaled target if and only if the product stays below 2^256; otherwise it gives less. |
| BtcWork.ClampIsSignedIff | src/pop/blockchain/btc_blockchain_util.cpp:51-81 | The clamped 32-bit difference is the clamped signed difference of the timestamps if and only if the clock does not run backward or runs backward by at least 2^32 - floor(T/4); where 4T does not fit a word, the wrapped maximum must besides be at least floor(T/4) and cut nothing off. |
| BtcWork.BackwardClockCountsAsMaximum | src/pop/blockchain/btc_blockchain_util.cpp:51-81 | A last timestamp before the first one counts as the longest timespan exactly for a gap of at most 2^32 - 4T, and as the shortest exactly for one of at least 2^32 - floor(T/4). |
| BtcWork.GetNextWorkRequired | src/pop/blockchain/btc_blockchain_util.cpp:85-123 | The required work of a block on a linked chain, including the walk back over minimum-difficulty blocks; it aborts exactly when the source asserts. |
| BtcWork.TargetsStayBelowLimit | src/pop/blockchain/btc_blockchain_util.cpp:164-173 | On any chain whose blocks carry the required work, from bootstrap blocks within the limit, every target stays within the limit. |
| Radix.ReradixInverse | src/pop/base58.cpp:44-152 | Changing the base and back gives the same digits, leading zeros included; both text codecs are this function. |
| Base58.EncodeBase58 | src/pop/base58.cpp:113-152 | The digit-buffer loops return the base-58 text of the bytes, and the carry is zero at every assertion. |
| Base58.MultiplyAdd | src/pop/base58.cpp:79-87 | The inner carry loop multiplies the buffer by the base and adds the digit; no carry is left when the result fits the buffer. |
| Base58.CountOnes | src/pop/base58.cpp:50-64 | The leading ones are counted, or are more than the result may have bytes. |
| Base58.DecodeCString | src/pop/base58.cpp:44-111 | Decoding under a length limit returns the bytes of the word between the spaces, or fails exactly when it is no word or the result is too long. |
| Base58.DecodeBase58 | src/pop/base58.cpp:154-161 | Fails on an embedded NUL; otherwise the limit of one more than the text never takes effect. |
| Base58.DecodeEncoded | src/pop/base58.cpp:113-152 | Decoding an encoding gives the bytes back, for every byte string. |
| Base58.EncodeDecoded | src/pop/base58.cpp:44-111 | Encoding a decoded text of the alphabet gives the text back. |
| Base58.EncodeBufferSuffices | src/pop/base58.cpp:113-152 | n * 138 / 100 + 1 digits always hold n bytes. |
| Base58.DecodeBufferSuffices | src/pop/base58.cpp:44-111 | n * 733 / 1000 + 1 bytes always hold n digits. |
| Base59.DivMod | src/pop/base59.cpp:32-52 | One in-place division: quotient times divisor plus remainder is the old number, and bytes in front stay. |
| Base59.EncodeBase59 | src/pop/base59.cpp:54-93 | The division loop terminates with the base-59 text after at most two steps a byte, so the scratch index never underflows. |
| Base59.DecodeBase59 | src/pop/base59.cpp:100-147 | Succeeds exactly for texts of the alphabet, takes one step a digit, and leaves the output as it was otherwise. |
| Base59.DecodeEncoded | src/pop/base59.cpp:54-147 | Decoding an encoding gives the bytes back if and only if there are bytes or the output was empty. |
| Base59.EncodeDecoded | src/pop/base59.cpp:54-147 | Encoding a decoded text gives the text back if and only if it is not empty or the output was empty. |
| VarInt.WriteVarInt | include/veriblock/bfi/bitcoin/serialize.hpp:497-511 | Filling the scratch buffer backwards and writing it out appends the encoding, for every width; the buffer is never overrun. |
| VarInt.ReadVarInt | include/veriblock/bfi/bitcoin/serialize.hpp:513-533 | The loop over the stream is the reader that the bijection is proved of, including both overflow tests. |
| VarInt.GetSizeOfVarInt | include/veriblock/bfi/bitcoin/serialize.hpp:482-492 | The size is the length of the encoding. |
| VarInt.VarIntFits | include/veriblock/bfi/bitcoin/serialize.hpp:497-511 | The encoding of a number of w bits takes at most (w + 6) / 7 bytes. |
| VarInt.VarIntRoundTrip | include/veriblock/bfi/bitcoin/serialize.hpp:497-533 | Reading a written number gives it back and leaves what follows. |
| VarInt.VarIntIsCanonical | include/veriblock/bfi/bitcoin/serialize.hpp:513-533 | Whatever is accepted is the encoding of the number read: encoding it again gives the bytes consumed. |
| VarInt.VarIntPrefixFree | include/veriblock/bfi/bitcoin/serialize.hpp:435-457 | No encoding is another one or its beginning. |
| VarInt.VarIntThroughStreams | include/veriblock/bfi/bitcoin/serialize.hpp:497-533 | For every width of at least seven bits, a number written to a stream is read back with nothing left. |
| VarInt.VarIntReencoded | include/veriblock/bfi/bitcoin/serialize.hpp:497-533 | For every width, what is read from a stream and written again are the bytes that were consumed. |
| VarInt.SizeRoundTrip | include/veriblock/bfi/bitcoin/serialize.hpp:394-433 | A compact size comes back exactly up to MAX_SIZE; above it the reader throws. |
| VarInt.SizeIsCanonical | include/veriblock/bfi/bitcoin/serialize.hpp:411-433 | An accepted compact size is in its shortest form. |
| TransactionStreams.WriteCompactSize | include/veriblock/bfi/bitcoin/serialize.hpp:394-409 | Appends the shortest form of the size. |
| TransactionStreams.ReadCompactSize | include/veriblock/bfi/bitcoin/serialize.hpp:411-433 | Reads it, with the canonicity and size tests. |
| TransactionStreams.ReadByteVector | include/veriblock/bfi/bitcoin/serialize.hpp:795-810 | Reading in pieces of limited size gives the vector that reading at once would give. |
| TransactionStreams.SerializeTransaction | include/veriblock/bfi/bitcoin/transaction.hpp:179-207 | Appends the extended form exactly when witnesses are allowed and there are some. |
| TransactionStreams.UnserializeTransaction | include/veriblock/bfi/bitcoin/transaction.hpp:138-177 | The branches over marker, flag and superfluous witnesses, moving the stream forward. |
| TransactionStreams.TransactionThroughStreams | include/veriblock/bfi/bitcoin/transaction.hpp:138-207 | Through streams, a transaction comes back if and only if it has inputs or no outputs. |
| BtcTransaction.TransactionRoundTrip | include/veriblock/bfi/bitcoin/transaction.hpp:138-207 | With witnesses allowed and lengths within MAX_SIZE, the round trip holds if and only if the inputs are not empty or the outputs are (section "Serialization" of BIP 144). |
| BtcTransaction.LegacyRoundTrip | include/veriblock/bfi/bitcoin/transaction.hpp:138-207 | Without witnesses allowed, the transaction comes back with its witnesses stripped. |
| BlockIndexes.BlockIndex.RaiseValidity | include/veriblock/pop/blockchain/block_index.hpp:195-212 | Raises the level exactly when the block is not marked FAILED_POP and stands below it. |
| BlockIndexes.BlockIndex.LowerValidity | include/veriblock/pop/blockchain/block_index.hpp:214-227 | Lowers the level exactly when the block is not marked FAILED_POP and stands above it. |
| BlockIndexes.BlockIndex.SetPayloads | include/veriblock/pop/blockchain/alt_block_addon.hpp:53-57 | Replaces the ids of one kind and no others. |
| BlockIndexes.BlockIndex.InsertPayloadIds | include/veriblock/pop/blockchain/alt_block_addon.hpp:61-65 | Appends ids of one kind. |
| BlockIndexes.BlockIndex.RemovePayloadId | include/veriblock/pop/blockchain/alt_block_addon.hpp:44-50 | Takes out the first occurrence of an id. |
| BlockIndexes.AppendThenRemove | include/veriblock/pop/blockchain/alt_block_addon.hpp:44-65 | Removing an id that was new undoes appending it. |
| BlockIndexes.BlockIndex.GetAncestor | include/veriblock/pop/blockchain/block_index.hpp:347-363 | The ancestor at the height, or null exactly when no ancestor has that height. |
| BlockIndexes.BlockIndex.IsDescendantOf | include/veriblock/pop/blockchain/block_index.hpp:336-338 | Says whether the other block is among the ancestors (a block is its own). |
| BlockIndexes.OneAncestorPerHeight | include/veriblock/pop/blockchain/block_index.hpp:347-363 | A block has at most one ancestor at a height. |
| BlockIndexes.GetForkBlock | include/veriblock/pop/blockchain/block_index.hpp:428-443 | The highest common ancestor, or null exactly when there is none. |
| BlockIndexes.IsBlockOutdated | include/veriblock/pop/blockchain/block_index.hpp:448-481 | The recursion ends, and holds exactly when the candidate is not the final block or a descendant of it. |
| Chains.Chain.SetTip | include/veriblock/pop/blockchain/chain.hpp:102-117 | Rewriting slots down to the first shared block leaves in every slot the ancestor of the new tip at that height. |
| Chains.Chain.ContainsAncestors | include/veriblock/pop/blockchain/chain.hpp:50-52 | The chain contains exactly the ancestors of its tip from its start height on. |
| PayloadsIndexes.PayloadsIndex.Add | include/veriblock/pop/blockchain/payloads_index.hpp:81-83 | Adds one pair of id and block and no other. |
| PayloadsIndexes.PayloadsIndex.Remove | include/veriblock/pop/blockchain/payloads_index.hpp:85-100 | Removes that pair and no other; ids without blocks leave the map. |
| AltTree.AltBlockTree.constructor | src/pop/blockchain/alt_block_tree.cpp:72-110 | The bootstrapped tree meets the invariant of all that follows. |
| AltTree.AltBlockTree.TryAddTip | include/veriblock/pop/blockchain/base_block_tree.hpp:474-490 | A valid block without valid successors becomes a tip and its predecessor stops being one. |
| AltTree.AltBlockTree.InvalidateSubtree | include/veriblock/pop/blockchain/base_block_tree.hpp:265-316 | Marks the root of the subtree, spreads FAILED_CHILD exactly below it, moves the active tip off it and leaves the tips exact. |
| AltTree.AltBlockTree.RevalidateSubtree | include/veriblock/pop/blockchain/base_block_tree.hpp:340-379 | Takes the mark away and leaves FAILED_CHILD exactly where a failed ancestor remains; the tips are exact again. |
| AltTree.AltBlockTree.InvalidateBlock | include/veriblock/pop/blockchain/base_block_tree.hpp:265-316 | The public operation keeps the whole invariant, and the active tip becomes the predecessor if it was inside the subtree. |
| AltTree.AltBlockTree.RevalidateBlock | include/veriblock/pop/blockchain/base_block_tree.hpp:340-379 | The public operation keeps the whole invariant. |
| AltTree.AltBlockTree.InsertBlockHeader | include/veriblock/pop/blockchain/base_block_tree.hpp:568-599 | A new block one higher, at level TREE, without payloads, failed exactly when its predecessor is. |
| AltTree.AltBlockTree.AcceptBlockHeader | src/pop/blockchain/alt_block_tree.cpp:292-333 | Keeps the invariant, inserts exactly the unknown block with a known predecessor, and reports whether it is there and valid. |
| AltTree.AltBlockTree.CommitPayloadsIds | src/pop/blockchain/alt_block_tree.cpp:112-124 | Stores the ids in the block and the pairs in the index, which stays exact. |
| AltTree.AltBlockTree.SetPayloads | src/pop/blockchain/alt_block_tree.cpp:182-219 | Stores a body in a block that has none; the block is ready to connect exactly when its predecessor is connected. |
| AltTree.AltBlockTree.ConnectBlock | src/pop/blockchain/alt_block_tree.cpp:245-290 | Connects one block, marks it FAILED_POP exactly for a stateful duplicate, and reports validity; its assertions hold. |
| AltTree.AltBlockTree.AcceptBlock | src/pop/blockchain/alt_block_tree.cpp:140-180 | Keeps the invariant: after the stack loop every block is connected exactly when it is the root or has a body and a connected predecessor. |
| AltTree.AltBlockTree.RemoveAllPayloads | src/pop/blockchain/alt_block_tree.cpp:435-477 | Keeps the invariant: the body, its index pairs, the level and the FAILED_POP mark are gone. |
| AltTree.AltBlockTree.ApplyBlock | include/veriblock/pop/blockchain/pop/pop_state_machine.hpp:83-153 | Applies a block exactly when its commands execute or it has none; otherwise it is marked FAILED_POP. |
| AltTree.AltBlockTree.UnapplyBlock | include/veriblock/pop/blockchain/pop/pop_state_machine.hpp:160-184 | Takes the last block off the applied chain. |
| AltTree.AltBlockTree.Apply | include/veriblock/pop/blockchain/pop/pop_state_machine.hpp:258-296 | Applies all blocks up to the target or none of them. |
| AltTree.AltBlockTree.SetState | src/pop/blockchain/alt_block_tree.cpp:610-630 | Switches exactly when the target is valid and every block from the fork to it executes, changing the level of no block off the chain to it; otherwise the old state is back, and the target is failed. |
| AltTree.AltBlockTree.OverrideTip | src/pop/blockchain/alt_block_tree.cpp:632-655 | The active tip is the one given. |
| AltTree.AltBlockTree.RemoveLeaf | include/veriblock/pop/blockchain/base_block_tree.hpp:243-251 | Removes one leaf from the tree, the index and the tips, and keeps the invariant. |
| AltTree.BlockPayloadMutator.IsStatefulDuplicate | src/pop/blockchain/alt_block_tree.cpp:518-539 | Says whether an earlier block of the chain or a finalized one stores the id. |
| AltTree.BlockPayloadMutator.HasStatefulDuplicates | src/pop/blockchain/alt_block_tree.cpp:221-243 | Says whether any payload of the block is such a duplicate. |
| AltTree.BlockPayloadMutator.Add | src/pop/blockchain/alt_block_tree.cpp:547-594 | Appends the id exactly when it is no duplicate and its commands execute; a failure leaves the lists and the index as they were. |
| TreeTheorems.ConnectedIffBodies | src/pop/blockchain/alt_block_tree.cpp:140-180 | In every reachable tree a block is connected exactly when it and all its ancestors above the root have bodies. |
| TreeTheorems.RecordFixesTree | src/pop/blockchain/alt_block_tree.cpp:140-180 | Forward links, flags, tips, the count of applied blocks and the index follow from the headers, the marks, the stored ids, the active tip, and which blocks are connected or had commands refused. |
| TreeTheorems.ArrivalOrderDoesNotMatter | src/pop/blockchain/alt_block_tree.cpp:140-180 | Two trees with the same headers, bodies and marks, in which the same blocks had commands refused, agree on connection, failures, tips and the index, however they came about. |
| TreeTheorems.IndexFindsContainingBlocks | include/veriblock/pop/blockchain/payloads_index.hpp:102-110 | The index finds exactly the blocks that store the id. |
| TreeTheorems.NoSharedPayloads | src/pop/blockchain/alt_block_tree.cpp:245-290 | A connected block without FAILED_POP shares no id with a proper ancestor or a finalized block. |
| TreeTheorems.PayloadsDistinctAlongChain | src/pop/blockchain/alt_block_tree.cpp:245-290 | Along the chain of any valid connected tip, different blocks store different payloads. |
| CountingContexts.CountingContext.CanFit | include/veriblock/pop/blockchain/pop/counting_context.hpp:20-42 | Compares with the limits by the counts from before the payload. |
| CountingContexts.OneStep | include/veriblock/pop/blockchain/pop/counting_context.hpp:20-69 | An accepted payload breaks the size limit exactly when it is the 256th of its kind and filled the limit to the last byte. |
| CountingContexts.SizeAlmostWithin | include/veriblock/pop/blockchain/pop/counting_context.hpp:20-69 | In any order of payloads, the estimate exceeds the limit by at most one byte. |
| CountingContexts.SizeLimitIff | src/pop/blockchain/mempool_block_tree.cpp:42-52 | Every body filled in the order VBK, VTB, ATV keeps the size limit if and only if the limit holds an empty body and lies outside three ranges, one for each kind that may come to 256 payloads. |
| CountingContexts.Overrun | src/pop/blockchain/mempool_block_tree.cpp:42-52 | Inside such a range, a body of payloads of sizes that occur ends one byte above the limit. |
| CountingContexts.DefaultLimitsCanBeOverrun | include/veriblock/pop/blockchain/alt_chain_params.hpp:270-274 | The default limits lie inside the range for ATVs. |
| CountingContexts.SizesOccur | include/veriblock/pop/blockchain/pop/counting_context.hpp:44-57 | The sizes that payloads of a kind have are exactly a range, for any hash functions of 32 bytes. |
| PayloadSizes.AddressIs22Bytes | src/pop/entities/address.cpp:220-245 | Every valid address, standard or multisig, takes 22 bytes, so 24 on the wire. |
| PayloadSizes.AtvSizes | src/pop/entities/atv.cpp:44-56 | ATVs have exactly the sizes from 162 to 31102. |
| PayloadSizes.VtbSizes | src/pop/entities/vtb.cpp:48-60 | VTBs have exactly the sizes from 319 to 5501604. |
| MempoolFilter.ApplyPayloads | src/pop/blockchain/mempool_block_tree.cpp:285-321 | The candidates of one kind that are kept, in order, are exactly the ids appended to the block; every other one was refused for a reason, its commands being executed after what was kept before it. |
| MempoolFilter.FilterInvalidPayloads | src/pop/blockchain/mempool_block_tree.cpp:323-382 | The survivors are distinct, unused before, in order and within the counts, and the commands of each succeed after those before it; every dropped candidate was used before, failed after what was kept until then, repeated an id or did not fit; blocks, levels, flags, links, tips, active tip and index are as before; the final size assertion holds when the limits cannot be overrun. |
| MemPools.MemPool.constructor | src/pop/mempool.cpp:344-344 | The empty books agree. |
| MemPools.MemPool.GetOrPutVbkRelation | src/pop/mempool.cpp:192-203 | Adds an empty relation and the block exactly when there is none. |
| MemPools.MemPool.SubmitAtv | src/pop/mempool.cpp:216-249 | Books, parks or refuses an ATV by the outcome of the checks; the books agree in each case. |
| MemPools.MemPool.SubmitVtb | src/pop/mempool.cpp:251-281 | The same for a VTB. |
| MemPools.MemPool.SubmitVbkBlock | src/pop/mempool.cpp:283-320 | The same for a VBK block, with a relation only for blocks outside the stable tree. |
| MemPools.MemPool.ConnectAtv | include/veriblock/pop/mempool.hpp:371-381 | Stores the payload and appends it to the relation of its block. |
| MemPools.MemPool.TryConnectPayloads | src/pop/mempool.cpp:322-342 | The stored ids grow by exactly those in flight that pass both checks now. |
| MemPools.MemPool.CleanUp | src/pop/mempool.cpp:90-148 | Each relation and each in-flight map is exactly what the staleness rules leave of it, and the final size assertion holds. |
| MemPools.MemPool.RemoveAll | src/pop/mempool.cpp:150-190 | A removed id can only come back from flight, and what is neither removed nor stale is still stored. |
| MemPools.MemPool.Clear | src/pop/mempool.cpp:205-214 | Everything is empty. |
| MemPools.MemPool.StoredExactlyWhenListed | src/pop/mempool.cpp:90-214 | In every reachable state a payload is stored exactly when it is listed, and it is listed under its own block. |
| MemPools.CleanStale | include/veriblock/pop/mempool.hpp:406-414 | Erases exactly the values in flight that no longer pass. |
| MemPools.InFlightListCanGoStale | include/veriblock/pop/mempool.hpp:349-364 | By the comparators of the mempool, which compare heights alone, a run leads to a sorted list that does not hold the values of the map. |
| ValueSortedMaps.ValueSortedMap.Insert | include/veriblock/pop/value_sorted_map.hpp:81-104 | Sets the key in the map; the sorted list loses a value equivalent to the old one and gains the new one in order. |
| ValueSortedMaps.ValueSortedMap.Erase | include/veriblock/pop/value_sorted_map.hpp:52-67 | Removes the key, and one equivalent value from the list; the lookup and the size assertion cannot fail. |
| ValueSortedMaps.ValueSortedMap.Clear | include/veriblock/pop/value_sorted_map.hpp:115-122 | Both are empty. |
| ValueSortedMaps.ClassesAgreeOverRuns | include/veriblock/pop/value_sorted_map.hpp:52-122 | Over every run, each class of equivalent values has as many members in the list as keys in the map. |
| ValueSortedMaps.SortedHoldsValuesIff | include/veriblock/pop/value_sorted_map.hpp:52-122 | Over every run the list holds exactly the values of the map, if and only if the comparator tells all different values apart. |
| ValueSortedMaps.WrongValueStays | include/veriblock/pop/value_sorted_map.hpp:52-67 | With two equivalent values, inserting both and erasing the second key can leave the second value in the list. |
| CommandGroupCaches.CommandGroupCache.Put | src/pop/command_group_cache.cpp:14-19 | Inserts an unknown group and truncates: the state afterwards is one that the transition relation allows, no other value changes, and the new entry is there if there was room or some entry had been used. |
| CommandGroupCaches.NewEntryStaysIff | src/pop/command_group_cache.cpp:14-19 | A new entry is in the cache afterwards, whatever entry a full cache drops, if and only if there is room for one more or some entry has been used. |
| CommandGroupCaches.FoundWasInserted | src/pop/command_group_cache.cpp:14-79 | Over every run of the operations, an entry that is found holds the value of the put that inserted it, and has been there ever since. |
| CommandGroupCaches.CommandGroupCache.Get | src/pop/command_group_cache.cpp:24-37 | Returns the value that was put, evicts nothing, and moves the id to the front. |
| CommandGroupCaches.CommandGroupCache.Remove | src/pop/command_group_cache.cpp:39-47 | Removes the id from cache and list and reports whether it had been used. |
| CommandGroupCaches.CommandGroupCache.Truncate | src/pop/command_group_cache.cpp:55-67 | At the size limit, drops the least recently used entry, or some entry if none was used. |
| CommandGroupCaches.CommandGroupCache.Refer | src/pop/command_group_cache.cpp:69-79 | The list of ids is the old one with this id moved or put to the front. |
| Rewards.RoundsRepeat | src/pop/rewards/default_poprewards_calculator.cpp:106-121 | The rounds repeat with the keystone interval; only keystones have the keystone round when it lies behind the others. |
| Rewards.RewardFollowsTheCurve | src/pop/rewards/default_poprewards_calculator.cpp:134-176 | The reward is the exact product of slope, capped score and ratio, up to the loss of the two truncations and one unit of slope. |
| Rewards.RewardIsCapped | src/pop/rewards/default_poprewards_calculator.cpp:134-176 | The reward is at most threshold times round ratio when the slope starts at or below the threshold. |
| Rewards.RewardStopsAtTheThreshold | src/pop/rewards/default_poprewards_calculator.cpp:159-173 | Past the threshold the reward depends on the score no more. |
| Rewards.FlatRewardIsTheRatio | src/pop/rewards/default_poprewards_calculator.cpp:140-145 | In a flat round before the start of the slope, every block earns the ratio of the round. |
| Rewards.CurveRisesIff | src/pop/rewards/default_poprewards_calculator.cpp:79-103 | The curve is non-decreasing up to the threshold T if and only if slope * (2T - 1) is at most 1 + slope * start in fixed point, or the slope takes everything from the first unit. |
| Rewards.GentleRewardsRise | src/pop/rewards/default_poprewards_calculator.cpp:134-176 | On such a curve a higher score is not paid less, up to the bound on truncation. |
| Rewards.RewardFallsWithTheCurve | src/pop/rewards/default_poprewards_calculator.cpp:134-176 | Where the curve falls by more than that bound, the reward falls. |
| Rewards.DefaultCurves | include/veriblock/pop/blockchain/alt_chain_params.hpp:82-96 | By the default parameters the curve rises to the threshold in normal rounds and does not for keystones. |
| Rewards.RewardLosesAUnit | src/pop/rewards/default_poprewards_calculator.cpp:134-176 | By the default parameters, in a round whose curve rises to the threshold, a higher score earns one unit less, lost in truncation. |
| Rewards.KeystoneRewardFallsBeforeTheThreshold | src/pop/rewards/default_poprewards_calculator.cpp:159-173 | By the default parameters a keystone with score 3.0 earns less than one with score 2.85. |
| Rewards.GetBestPublicationHeight | src/pop/rewards/default_poprewards_calculator.cpp:38-48 | The lowest height of a publication on the best chain, or -1 exactly when there is none. |
| Rewards.ScoreFromEndorsements | src/pop/rewards/default_poprewards_calculator.cpp:190-205 | The sum of the weights of the endorsements, each relative to the first publication, in one word. |
| Rewards.CalculateDifficulty | src/pop/rewards/default_poprewards_calculator.cpp:207-226 | The mean score of the blocks before, never below one; none exactly for an interval of zero. |
| Rewards.MeanIsExact | src/pop/rewards/default_poprewards_calculator.cpp:207-226 | Dividing by the interval as a fixed-point number is the plain division. |
| Rewards.PayEndorsements | src/pop/rewards/default_poprewards_calculator.cpp:245-264 | The loop pays the endorsements up to the first ATV that cannot be loaded. |
| Rewards.CalculatePayoutsInner | src/pop/rewards/default_poprewards_calculator.cpp:228-266 | Which of the three outcomes it has, with what is in the map in each of them. |
| Rewards.PayoutsWithinReward | src/pop/rewards/default_poprewards_calculator.cpp:228-266 | The payouts of a block from an empty map add up to at most its reward, also when loading stops early. |
| Rewards.ShortfallIsSmall | src/pop/rewards/default_poprewards_calculator.cpp:228-266 | They fall short of it by less than two units for each counted endorsement, when the first weight is at least one and the reward fits 64 bits. |
| Rewards.CalculatePayouts | src/pop/rewards/default_poprewards_calculator.cpp:268-276 | The sum of the payouts is at most threshold times ratio of the round. |
| Streams.WriteStream.WriteBE | include/veriblock/pop/write_stream.hpp:44-55 | Appends the low bytes of the number, highest first. |
| Streams.WriteStream.WriteLE | include/veriblock/pop/write_stream.hpp:60-64 | Appends the bytes of the number, lowest first. |
| Streams.ReadStream.ReadBE | include/veriblock/pop/read_stream.hpp:68-81 | Reads a big-endian number and moves by its size, or fails exactly when there are too few bytes. |
| Streams.ReadStream.ReadLE | include/veriblock/pop/read_stream.hpp:98-112 | Reads a little-endian number and moves by its size, or fails exactly when there are too few bytes. |
| Serde.TrimmedArray | src/pop/serde.cpp:43-59 | The shortest big-endian form of a non-negative number, and all eight bytes of a negative one. |
| Serde.ByteCountLeast | src/pop/serde.cpp:43-59 | The number of bytes is the least that hold the number. |
| Serde.SingleBERoundTrip | include/veriblock/pop/serde.hpp:128-137 | A trimmed number comes back from a reader wide enough for it. |
| Serde.FixedBERoundTrip | include/veriblock/pop/serde.hpp:128-173 | A number in full width comes back, negative ones too. |
| Serde.ByteLenRoundTrip | src/pop/serde.cpp:76-100 | A value behind a one-byte length comes back within the limits. |
| Serde.VarLenRoundTrip | src/pop/serde.cpp:61-111 | A value behind a trimmed length comes back within the limits. |
| Serde.ArrayRoundTrip | include/veriblock/pop/serde.hpp:318-378 | A container of values that come back comes back. |
| Serde.NetworkByteRoundTrip | src/pop/serde.cpp:160-186 | The pair comes back if and only if the network byte differs from the expected type, or without a network byte the type is the expected one. |
| Serde.ReadSingleBEValue | include/veriblock/pop/serde.hpp:128-137 | The stream operation is the reader that the round trips are about. |
| Serde.ReadVarLenValue | src/pop/serde.cpp:61-74 | The stream operation is the reader that the round trips are about. |
| Serde.WriteSingleBEValue | src/pop/serde.cpp:102-106 | The stream operation appends the form that the round trips are about. |
| Addresses.AddressRoundTrip | src/pop/entities/address.cpp:195-316 | Every valid address comes back, through Base58 or Base59; the estimate is the length. |
| Entities.VbkBlockRoundTrip | src/pop/entities/vbkblock.cpp:194-255 | A block comes back with its nonce modulo 2^40, so if and only if the nonce is below 2^40; 66 bytes. |
| Entities.BtcBlockRoundTrip | src/pop/entities/btcblock.cpp:109-151 | A header comes back through reversed hashes; 81 bytes. |
| Entities.OutputRoundTrip | src/pop/entities/output.cpp:25-55 | An output comes back; the estimate is the length. |
| PopDataCodec.PublicationDataRoundTrip | src/pop/entities/publication_data.cpp:22-69 | Comes back within the limits of its fields; the estimate is the length. |
| PopDataCodec.FieldLimitsDoNotSuffice | include/veriblock/pop/consts.hpp:65-73 | Fields within their limits can make publication data six bytes longer than the limit on the whole. |
| PopDataCodec.VbkTxRoundTrip | src/pop/entities/vbktx.cpp:24-154 | A transaction comes back exactly when its publication data is within that limit, and is refused otherwise; the estimate is the length. |
| PopDataCodec.MerklePathRoundTrip | src/pop/entities/merkle_path.cpp:19-130 | A path comes back with the subject that the reader is given; the estimate is the length. |
| PopDataCodec.VbkMerklePathRoundTrip | src/pop/entities/vbk_merkle_path.cpp:23-124 | A path comes back; the estimate is the length. |
| PopDataCodec.VbkPopTxRoundTrip | src/pop/entities/vbkpoptx.cpp:26-153 | A PoP transaction comes back exactly when its raw form is within MAX_POPDATA_SIZE, and is refused otherwise; the estimate is the length. |
| PopDataCodec.ATVRoundTrip | src/pop/entities/atv.cpp:26-98 | An ATV within the limits of its readers comes back; the estimate is the length. |
| PopDataCodec.VTBRoundTrip | src/pop/entities/vtb.cpp:30-90 | A VTB within the limits of its readers comes back; the estimate is the length. |
| PopDataCodec.PopDataRoundTrip | src/pop/entities/popdata.cpp:40-157 | Decoding an encoded PopData gives it back and leaves what follows, and estimateSize is the encoded length. |
| EntityStreams.ReadAddressFrom | src/pop/entities/address.cpp:285-316 | The decoder on the stream is the reader of the round trip. |
| EntityStreams.WriteVbkBlockTo | src/pop/entities/vbkblock.cpp:30-94 | Appends the encoding of the block. |
| EntityStreams.ReadVbkBlockFrom | src/pop/entities/vbkblock.cpp:194-255 | The decoder on the stream is the reader of the round trip. |
| EntityStreams.WriteBtcBlockTo | src/pop/entities/btcblock.cpp:25-38 | Appends the encoding of the header. |
| EntityStreams.ReadBtcBlockFrom | src/pop/entities/btcblock.cpp:109-151 | The decoder on the stream is the reader of the round trip. |
| EntityStreams.WriteVbkTxTo | src/pop/entities/vbktx.cpp:24-45 | Appends the encoding, with the loop over the outputs and the nested streams. |
| EntityStreams.ReadVbkTxFrom | src/pop/entities/vbktx.cpp:87-154 | The decoder on the streams is the reader of the round trip. |
| EntityStreams.ReadMerklePathFrom | src/pop/entities/merkle_path.cpp:73-130 | The decoder on the streams is the reader of the round trip. |
| EntityStreams.WriteVbkPopTxTo | src/pop/entities/vbkpoptx.cpp:26-46 | Appends the encoding, with the Bitcoin context. |
| EntityStreams.ReadVbkPopTxFrom | src/pop/entities/vbkpoptx.cpp:88-153 | The decoder on the streams is the reader of the round trip. |
| EntityStreams.WritePopDataTo | src/pop/entities/popdata.cpp:40-56 | Appends the encoding: VBK blocks, VTBs, ATVs. |
| EntityStreams.ReadPopDataFrom | src/pop/entities/popdata.cpp:103-157 | The decoder on the stream is the reader of the round trip. |
| EntityStreams.PopDataThroughStreams | src/pop/entities/popdata.cpp:40-157 | PopData written to a stream and read from another comes back. |

## Left out

- Finalization, loading from storage, temporary deletion and the removal of larger subtrees of the
  tree: only the removal of a leaf is modelled, which is what the mempool filter needs.
- The fork-resolution comparator, `determineBestChain` and `comparePopScore`.
- AltTree.AltBlockTree.SetState: whether commands execute is a parameter, required to hold for blocks
  that were applied before, as the status CAN_BE_APPLIED promises; the commands themselves, and the VBK
  tree that they act on, are not part of this model.
- AltTree.AltBlockTree.ApplyBlock: the same exclusion of a failing block that is known to be applicable.
- AltTree.AltBlockTree.Apply: the same exclusion.
- AltTree.AltBlockTree.RemoveLeaf: the block is deallocated at once; temporary deletion is left out.
- MempoolFilter.FilterInvalidPayloads: whether the commands of a payload succeed is a parameter, a
  function of the part of the body that was kept before it and of the payload; the VBK tree that the
  commands act on is not part of this model.
- AltTree.AltBlockTree.InvalidateBlock: modelled for the reason FAILED_BLOCK; FAILED_POP is set only by
  connecting or applying a block.
- AltTree.AltBlockTree.AcceptBlockHeader: the checks of the header against time are not modelled.
- Block heights, counts and sizes are unbounded numbers except where the code computes in words.
- Base59.DecodeBase59: characters above 127, where the code depends on the sign of `char`; the same holds
  for Base58 texts.
- Arith.ArithUint256.GetLow64: a little-endian host, as the code copies the bytes into a word.
- The entity decoders return a value instead of filling the fields of an
  object that exists, so what a failed decoding leaves in it is not modelled; the reasons of failures
  are not distinguished.
- TransactionStreams.ReadInputs, ReadOutputs and ReadStack: vectors of objects are resized as they are
  read, not in steps.
- The cached hashes of blocks, JSON, text output, logging and signals.
- Merkle roots, ids of entities and everything that only composes hash functions.
- ValueSortedMaps.ValueSortedMap.Erase: the overload that takes an iterator is the same operation for a
  key that is there; the order of iteration is not modelled.
- MemPools.MemPool.SubmitAtv: the ATVs of a relation are a list, in the order of arrival, where the code
  keeps a set ordered by fee; that the block of an ATV or VTB is determined by its id, a hash, is a
  precondition.
- MemPools.MemPool.CleanUp: whether a payload is valid in context is taken to depend on its id alone
  while one pass lasts.
- The order of candidates and the weak and strong equivalence of payloads in the mempool.
- Rewards.CalculatePayouts: scores are taken of blocks with fewer than 2^64 endorsements; parameters are
  fixed-point numbers, the conversion from `double` is not modelled.
- VBK difficulty, which goes through `double`; the search for publication data in Bitcoin transactions;
  the thread pool of the validator; language bindings.
