# Machine asset tools, verified

This project models the core of the Cartesi machine asset tools and proves what it keeps. Three parts of the C++ code
are modelled in the form they have there, and a plain specification stands beside each of them:

- **The ledger.** `MemoryLedgers.MemoryLedger` is the memory-backed ledger: two-way asset and account tables, id
  counters, balance counters per account, a map of references into two dense balance lists, and deletion by moving the
  last entry into the hole. `LedgerSpec` is the same ledger as plain maps, one transition per operation; every method of
  the object is proved to take exactly that transition. `LedgerInvariants` and `LedgerTheorems` then prove what holds of
  every run, and `LedgerLaws` states for each operation, in the fields of its request, what it answers and changes.
  `BasicLedgers` is the simple ledger that keeps zero balances and has no limits, and `BasicTheorems` proves
  that nothing there fails halfway or loses units. `Simulation` says exactly when the two ledgers give the same answers,
  and `Lockstep` runs the two objects side by side.
- **The Merkle tree.** `MerkleSpec` defines every node of a tree by recursion over padded leaves, and `ProofSpec` says what
  a proof means. `CompleteTree.CompleteMerkleTree` stores only the non-pristine prefix of each level and repairs each
  level from its old last entry; `HashTreeProofs.HashTreeProof` verifies, updates and slices. `WordHash` connects trees of
  word hashes to the recursive hash of a byte buffer, and `AccountDrive` runs the whole chain from ledger records to a
  proof of one balance.
- **Byte level.** `Amounts` has the checked big-endian addition and subtraction for arrays of any length, `AbiLists` the
  reader and writer of Solidity `uint256[]` arguments with 64-bit sizes that wrap.

The hash is an uninterpreted pair of functions, one over the bytes of a word and one over two hashes. Nothing is assumed
about it except where a lemma names injectivity as a hypothesis.

## Results worth knowing

- **Failure.** An operation that fails leaves the ledger exactly as it was, with one exception, and that exception is
  characterised exactly: `Torn`. A transfer stores the debit before it tries the credit, and if the receiver has no entry
  and the table is full after the debit, the debit stays. `TornReachable` gives a run of four calls after which a transfer
  of a nonzero amount is torn.
- **Conservation.** Supply equals the sum of balances after an operation exactly when the operation is not a torn transfer
  of a nonzero amount, and over a whole run without clearing exactly when no transfer of the run was. The lost units never
  come back short of clearing the ledger, and the asset can then never be removed (`LostForGood`).
- **Overflow of a balance.** Every balance is covered by its asset's supply, so the overflow checks on balances can never
  fire in deposit or transfer. The error code for it is still seen: a deposit of zero reports it, and nothing else does.
- **Zero amounts.** Withdrawals and transfers of zero are accepted and can store an entry that holds zero.
  `ZeroEntriesExact` and `RunNonzeroExactly` say exactly when. Removing the asset of such an entry leaves an entry whose
  asset is gone; it can never be deleted by itself, so its account can never be removed (`OrphanForGood`,
  `OrphanReachable`). That every entry belongs to a live asset is therefore false in general; `StrandingExact` and
  `RunStrandsExactly` prove that it holds after an operation, and after a run that does not clear, exactly if no removal
  took away an asset that an entry still named.
- **Two ledgers.** Memory ledger and basic ledger agree on an operation, from any states that are alike, exactly under
  `Agrees`: the operation is one both offer and finds room, or it clears a ledger that has issued no id yet. Over a run
  that does not clear, the replies are the same exactly if that holds of every operation.
- **Clearing.** `clear` keeps the id counters and the base asset flag. If a base asset was defined, none can ever be
  created again, not even after another clear (`ClearLocksBase`, `BaseLockedForGood`).
- **Leaves.** The tree's constructor accepts more leaves than fit. Every node in range is still right, because leaves past
  the end cannot be seen from any of them (`NodesIgnoreOverflow`). A tree whose root has size 0 issues no proofs at all, because the proof
  constructor refuses that size; for every other size every proof issued verifies.
- **Slices.** The check at the end of `slice` never fails, not even for a proof that does not verify itself.
- **ABI lists.** What is read back is the list up to 2^59 words. The list comes back unchanged exactly when it is shorter
  than that; longer lists write a length word that the reader's own byte count wraps around.

Where comments and code disagree, the model follows the code. Both token types with an id store the type byte of the
single-unit type in the key table, so one (address, id) pair cannot be filed under both (`OneTypePerPair`). A zero 12-byte prefix turns a
32-byte id into a wallet address only when the id is passed as bytes, not when it is passed in an account record. A
find request for the base asset ignores the id it is given if the flag is set, a create-or-find request does not. The
basic ledger answers a remove request with success and does nothing.

Throws the source marks "shouldn't be here" are proved unreachable in two ways. In the deletion of a balance the branches
that find a key list empty, a key missing or the account gone are there in the object and proved dead. For the tables
`InternalThrowsUnreachable` says exactly when a missing asset, a missing account or an insertion error is reported, and
none of these is a hit in a key table that misses the id table.

`dafny verify dfyconfig.toml` checks the project. Ids and sizes are natural numbers; 20-byte and 32-byte fields are their
big-endian values with explicit limits, and `LimitsAreWidths`, `PackedInjective`, `ZeroPrefixBytes` and `RecordInjective`
tie them to bytes.

## Model

| member | source | states |
|---|---|---|
| Amounts.CheckedAdd | src/utils.cpp:13-24 | for arrays of any length, with the result possibly in place of an operand: true exactly if the sum fits, and the bytes are worth the sum modulo the width; 16-bit intermediates suffice |
| Amounts.SubByte | src/utils.cpp:34-41 | one digit of the subtraction: digit, subtrahend and borrow in make up minuend and borrow out, within 16 bits |
| Amounts.CheckedSub | src/utils.cpp:27-44 | true exactly if there is no underflow; the bytes are worth the difference modulo the width |
| Amounts.WrappedResultsAreModulo | src/utils.cpp:13-44 | the two wrapped results are the sum and difference modulo 256^n |
| Amounts.AddUndoneBySub | src/utils.cpp:13-44 | a successful addition is undone byte for byte by the subtraction |
| Amounts.IsZeroMeansZero | src/utils.cpp:46-49 | the byte comparison with zero decides whether the number is zero |
| PristineTree.PristineMerkleTree.constructor | misc/pristine-merkle-tree.cpp:32-54 | entry k of the table is the hash of an all-zero subtree of size k |
| PristineTree.PristineMerkleTree.Build | misc/pristine-merkle-tree.cpp:36-54 | refuses exactly the bad sizes |
| PristineTree.PristineMerkleTree.GetHash | misc/pristine-merkle-tree.cpp:56-61 | the all-zero hash of every size in range, the range error for every other |
| MerkleSpec.CountIsCeiling | misc/complete-merkle-tree.cpp:118-119 | repeated halving rounded up is n / 2^j rounded up: the length a level must have |
| MerkleSpec.NodeSettled | misc/complete-merkle-tree.cpp:114-117 | appending leaves cannot change a node followed by another non-pristine node |
| MerkleSpec.PristineNode | misc/complete-merkle-tree.cpp:101-104 | a node past the stored prefix of its level is the all-zero hash of that level |
| MerkleSpec.PadLeavesAreInvisible | misc/complete-merkle-tree.cpp:107-132 | appending hashes of zero words changes no node of any level |
| MerkleSpec.CountFits | misc/complete-merkle-tree.cpp:118-119 | a level needs at most one entry exactly if all leaves are below its first node |
| MerkleSpec.NodesIgnoreOverflow | misc/complete-merkle-tree.h:65-71 | leaves past the capacity of the tree reach no node in range, of any size |
| MerkleSpec.ReplacedElsewhere | misc/hash-tree-proof.h:187-198 | replacing a node changes no node off the path to the root |
| MerkleSpec.ReplacedLeaf | misc/hash-tree-proof.h:187-198 | replacing a stored leaf is rebuilding the tree with that leaf |
| Shifts.ShrIsDivision | misc/complete-merkle-tree.cpp:48-48 | a shift right is the quotient by 2^k, and aligning subtracts the remainder |
| Shifts.AlignClears | misc/complete-merkle-tree.cpp:48-51 | an aligned address is a multiple of 2^k at most 2^k below; an address is aligned exactly if it is a multiple |
| Shifts.BitIsParity | misc/hash-tree-proof.h:190-190 | the bit test is the parity of the quotient by 2^k |
| Shifts.FlipIsOneBit | misc/complete-merkle-tree.cpp:57-57 | flipping a bit adds or subtracts 2^k and leaves the lower bits |
| Shifts.ShrFlip | misc/complete-merkle-tree.cpp:56-59 | flipping bit k of any address, aligned or not, leads to the sibling of its ancestor of size k |
| CompleteTree.ExactBecomesStale | misc/complete-merkle-tree.cpp:114-117 | after an append an exact level is wrong in its last entry at most |
| CompleteTree.RedoLevel | misc/complete-merkle-tree.cpp:111-130 | redoing a level from its old last entry on gives the exact level |
| CompleteTree.CompleteMerkleTree.constructor | misc/complete-merkle-tree.cpp:32-38 | an empty tree of the given sizes |
| CompleteTree.CompleteMerkleTree.Build | misc/complete-merkle-tree.h:65-71 | refuses exactly the bad sizes; otherwise every level holds exactly the non-pristine nodes of the recursive tree over the leaves, and the top level at most one exactly if the leaves fit |
| CompleteTree.CompleteMerkleTree.BubbleUp | misc/complete-merkle-tree.cpp:107-132 | makes every level exact for the current leaves and keeps the leaves |
| CompleteTree.CompleteMerkleTree.GetNodeHash | misc/complete-merkle-tree.cpp:95-105 | every node in range equals the recursive tree's node, stored or not; exactly the other addresses and sizes give the range error |
| CompleteTree.CompleteMerkleTree.GetRootHash | misc/complete-merkle-tree.h:75-77 | the root of the recursive tree |
| CompleteTree.CompleteMerkleTree.PushBack | misc/complete-merkle-tree.cpp:65-72 | refuses exactly a full tree; otherwise appends one leaf and leaves every level exact |
| CompleteTree.CompleteMerkleTree.GetProof | misc/complete-merkle-tree.cpp:44-61 | fails exactly for a bad size, a root of size 0, an address that is no multiple of the node size, or one outside the tree; otherwise the proof the recursive tree defines |
| CompleteTree.CompleteMerkleTree.FillSiblings | misc/complete-merkle-tree.cpp:56-59 | looking siblings up by one flipped bit of the target address finds the siblings of the path |
| ProofSpec.NodeAtIs | misc/complete-merkle-tree.cpp:97-97 | the node at an address is the one numbered by the quotient |
| ProofSpec.ClimbOfIssued | misc/complete-merkle-tree.cpp:44-61 | climbing an issued proof passes through the tree's own nodes at every size |
| ProofSpec.IssuedVerifies | misc/complete-merkle-tree.cpp:44-61 | every proof a tree issues verifies |
| ProofSpec.ClimbReplaces | misc/hash-tree-proof.h:187-198 | bubbling a new hash up an issued proof gives the root of the tree with that one node replaced |
| ProofSpec.SliceVerifies | misc/hash-tree-proof.h:241-243 | every slice verifies, so its final check never fails |
| ProofSpec.SliceOfSlice | misc/hash-tree-proof.h:202-245 | slicing twice is slicing once |
| ProofSpec.SliceOfIssued | misc/hash-tree-proof.h:202-245 | slicing an issued proof gives, field for field, the proof issued at the address less its remainder by the new node size |
| ProofSpec.FullSlice | misc/hash-tree-proof.h:202-245 | a proof is its own full slice exactly if it verifies and its address is a multiple of its target size |
| ProofSpec.VerifiedIsIssued | misc/hash-tree-proof.h:176-198 | a verifying proof with the tree's root is the tree's own proof in every field, or one of its levels shows two pairs with the same hash |
| ProofSpec.VerifiedBindsTarget | misc/hash-tree-proof.h:176-198 | with an injective hash, a proof with the tree's root verifies exactly if it is the tree's own |
| HashTreeProofs.HashTreeProof.Build | misc/hash-tree-proof.h:43-56 | refuses exactly the bad sizes; otherwise room for one sibling per size |
| HashTreeProofs.HashTreeProof.GetSiblingHash | misc/hash-tree-proof.h:128-130 | the sibling of a size in range, the range error otherwise |
| HashTreeProofs.HashTreeProof.SetSiblingHash | misc/hash-tree-proof.h:135-137 | changes the sibling of one size in range and nothing otherwise |
| HashTreeProofs.HashTreeProof.BubbleUp | misc/hash-tree-proof.h:187-198 | the loop reaches the root hash of the climb |
| HashTreeProofs.HashTreeProof.Verify | misc/hash-tree-proof.h:176-178 | decides whether the climb ends in the root hash |
| HashTreeProofs.HashTreeProof.Slice | misc/hash-tree-proof.h:202-245 | refuses exactly the bad sizes; otherwise a new proof that is the slice, at the address less its remainder by the new target size, and the last check cannot fail |
| HashTreeProofs.HashTreeProof.CopySiblings | misc/hash-tree-proof.h:229-238 | copies exactly the kept siblings while climbing to the new root |
| WordHash.TwoWords | misc/i-hasher.h:141-145 | the left half's hash goes first |
| WordHash.TreeHashIsRoot | misc/i-hasher.h:134-154 | the recursive hash of 2^m words is the root over the hashes of the words |
| WordHash.TreeHashDefined | misc/i-hasher.h:134-154 | the recursive hash succeeds exactly on a power of two of leaves |
| WordHash.WordTreeRoot | misc/complete-merkle-tree.h:65-71 | a tree built from the word hashes of a buffer has the recursive hash of the zero-padded buffer as its root |
| WordHash.PristineIsZeroHash | misc/pristine-merkle-tree.cpp:45-53 | the all-zero hash of size k is the recursive hash of 2^k zero bytes |
| WordHash.WindowHash | misc/i-hasher.h:134-154 | any aligned window of a buffer has the tree node above it as its recursive hash |
| AbiLists.CopyInto | src/parser_impl.cpp:167-168 | copies the bytes to their place and touches no other |
| AbiLists.PeekList | src/parser_impl.cpp:91-113 | accepts exactly if both words fit 64 bits and the wrapped byte count fits the payload; returns those bytes and the offset buffer past its word; reports which error |
| AbiLists.GetList | src/parser_impl.cpp:115-125 | the count and place of the list, which are the only ones a reader can find; the offset buffer is moved past its word |
| AbiLists.SizesAreWidths | src/parser_impl.cpp:92-93 | sizes are 8 bytes wide, and 2^59 words are where a byte count wraps |
| AbiLists.CountIsHonest | src/parser_impl.cpp:106-110 | the count returned is the length word exactly if the byte count does not wrap |
| AbiLists.ReserveUints | src/parser_impl.cpp:127-156 | fails exactly for want of room, and then changes nothing; otherwise writes the offset and length words and nothing else |
| AbiLists.PutList | src/parser_impl.cpp:158-170 | the same for the whole list, with the data behind its length word |
| AbiLists.PutIsRead | src/parser_impl.cpp:91-170 | a list just put is read back through its offset word up to the wrap, and unchanged exactly below 2^59 words |
| AbiLists.PutKeepsRead | src/parser_impl.cpp:158-170 | putting another list behind it leaves a list readable |
| AbiLists.TwoPuts | src/parser_impl.cpp:1401-1411 | two lists put one behind the other both read back, unchanged exactly if both are below 2^59 words |
| AbiLists.PutTwoLists | src/parser_impl.cpp:1386-1411 | the same for the call sequence of a batch voucher, failing exactly for want of room; the offset words are the first two words, token ids first |
| LedgerTypes.PackedLayout | src/ledger_impl.h:18-24 | the key bytes are the type byte, the 20 address bytes and the 32 id bytes |
| LedgerTypes.WalletIsLastBytes | src/ledger_impl.cpp:1217-1224 | the wallet address of an account is the last 20 of its 32 id bytes |
| LedgerTypes.PackedInjective | src/ledger_impl.h:18-24 | comparing the 53 key bytes is comparing type byte, address and id |
| LedgerTypes.ZeroPrefixBytes | src/ledger_impl.cpp:1217-1224 | a word starts with 12 zero bytes exactly if it is an address, which is then its last 20 bytes |
| LedgerTypes.LimitsAreWidths | src/utils.cpp:13-44 | the limits on amounts and addresses are those of 32 and 20 bytes |
| DenseStore.AddVirtualBalances | src/ledger_impl.cpp:1379-1388 | a new virtual entry changes one balance |
| DenseStore.AddWithdrawableBalances | src/ledger_impl.cpp:1390-1433 | a new record changes one balance |
| DenseStore.UpdateBalances | src/ledger_impl.cpp:1451-1506 | overwriting through a reference changes one balance, though many references share a list |
| DenseStore.RemoveBalances | src/ledger_impl.cpp:1461-1571 | moving the last entry into the hole forgets one key and changes no other balance |
| DenseStore.RemoveOk | src/ledger_impl.cpp:1461-1571 | and keeps keys distinct, references exact, records right and the free slots zero |
| DenseStore.DenseLayout | src/ledger_impl.cpp:1390-1432 | keys are distinct; a slot is in use exactly below the length of the key list, and zero above |
| DenseStore.RemoveSwaps | src/ledger_impl.cpp:1461-1571 | entry by entry: the last entry is at the hole, the other entries where they were, and the freed record zero |
| DenseStore.SlotFields | src/ledger_impl.cpp:1392-1428 | a new record holds type code, the low 20 bytes of the account id, address, token id, amount and no padding |
| DenseStore.RecordExactly | src/ledger_impl.cpp:1371-1432 | a balance of a live asset has a record exactly for a wallet and an asset that can leave; field by field it holds the code of the type, the account's address, the asset's address and id, the amount, no padding |
| MemoryLedgers.MemoryLedger.constructor | src/ledger_impl.cpp:722-760 | over a zeroed region, the empty ledger |
| MemoryLedgers.MemoryLedger.RemoveAsset | src/ledger_impl.cpp:828-884 | takes the specified step of the tables and leaves the balances alone |
| MemoryLedgers.MemoryLedger.RetrieveAsset | src/ledger_impl.cpp:896-1102 | finds, creates or removes as specified, for every way to name an asset, with the error of each failure |
| MemoryLedgers.MemoryLedger.RemoveAccount | src/ledger_impl.cpp:1128-1160 | the counter decides whether any balance names the account |
| MemoryLedgers.MemoryLedger.RetrieveAccount | src/ledger_impl.cpp:1161-1311 | finds, creates or removes as specified, for every way to name an account, and returns the number of balances of an account it found |
| MemoryLedgers.MemoryLedger.GetBalance | src/ledger_impl.cpp:1313-1348 | reads the abstract balance through map, reference and list; a record index exactly for record balances, and that record holds key and amount |
| MemoryLedgers.MemoryLedger.SetBalance | src/ledger_impl.cpp:1350-1579 | changes exactly one abstract balance, or fails with the specified error and changes nothing |
| MemoryLedgers.MemoryLedger.ChangeEntry | src/ledger_impl.cpp:1449-1579 | an existing entry is overwritten, or forgotten if the new amount is zero |
| MemoryLedgers.MemoryLedger.FillSlot | src/ledger_impl.cpp:1392-1428 | writing only the fields an asset type has gives the full record, and what each field then holds |
| MemoryLedgers.MemoryLedger.InsertWithdrawable | src/ledger_impl.cpp:1390-1444 | appends the record, its key, its reference and one count |
| MemoryLedgers.MemoryLedger.DeleteVirtual | src/ledger_impl.cpp:1461-1498 | the deletion of a virtual balance |
| MemoryLedgers.MemoryLedger.DeleteWithdrawable | src/ledger_impl.cpp:1507-1571 | the deletion of a record, field by field, with the freed slot zeroed |
| MemoryLedgers.MemoryLedger.Deposit | src/ledger_impl.cpp:1581-1625 | takes the specified step; a failure leaves lists and records as they were |
| MemoryLedgers.MemoryLedger.Withdraw | src/ledger_impl.cpp:1627-1664 | takes the specified step; a failure leaves lists and records as they were |
| MemoryLedgers.MemoryLedger.Transfer | src/ledger_impl.cpp:1666-1711 | takes the specified step; a failure that is not torn leaves lists and records as they were |
| MemoryLedgers.MemoryLedger.PostTransfer | src/ledger_impl.cpp:1703-1705 | stores the debit, and the credit only after it; if the credit fails the debit stays |
| MemoryLedgers.MemoryLedger.Clear | src/ledger_impl.cpp:762-778 | empties tables and records, keeps counters and flag, and zeroes every slot although it visits only the used ones |
| MemoryLedgers.MemoryLedger.Execute | src/ledger_impl.cpp:762-1711 | any operation takes the plain-map ledger of the object through exactly the specified step, and a failure that is not torn leaves lists and records as they were |
| MemoryLedgers.MemoryLedger.Replay | src/ledger_impl.cpp:762-1711 | any run of calls takes it through exactly the specified run, with the specified replies |
| MemoryLedgers.CountedUp | src/ledger_impl.cpp:1438-1444 | counting up the account of a new key keeps every counter equal to the number of keys that name its account |
| MemoryLedgers.CountedDown | src/ledger_impl.cpp:1489-1498 | counting down the account of a deleted key does the same, and never below zero |
| MemoryLedgers.FindKey | src/ledger_impl.cpp:1476-1479 | the first position of a key in a key list |
| LedgerInvariants.TotalChange | src/ledger_impl.cpp:1581-1711 | changing one balance moves its asset's sum by as much and no other sum |
| LedgerInvariants.BalancesWithinSupply | src/ledger_impl.cpp:1593-1619 | any two accounts' balances of a live asset are together covered by its supply |
| LedgerInvariants.DepositSound | src/ledger_impl.cpp:1581-1625 | keeps the invariant, adds to the sum what it adds to the supply, changes nothing on failure; the overflow code means a zero deposit |
| LedgerInvariants.WithdrawSound | src/ledger_impl.cpp:1627-1664 | keeps the invariant, takes from the sum what it takes from the supply, changes nothing on failure |
| LedgerInvariants.TransferSound | src/ledger_impl.cpp:1666-1711 | keeps the invariant, cannot overflow, and success leaves every sum unchanged |
| LedgerInvariants.StepKeepsInv | src/ledger_impl.cpp:762-1711 | every operation keeps tables inverse, ids below counters, at most one live base asset, balances placed and covered, capacity |
| LedgerInvariants.ReachableInv | src/ledger_impl.cpp:722-1711 | so does every run from creation |
| LedgerTheorems.TransferAtomic | src/ledger_impl.cpp:1666-1711 | a transfer fails and yet changes the ledger exactly if it is torn, and then only the debit stays |
| LedgerTheorems.FailureIsAtomic | src/ledger_impl.cpp:762-1711 | any failing operation leaves the ledger as it was exactly if it is not a torn transfer |
| LedgerTheorems.InternalThrowsUnreachable | src/ledger_impl.cpp:896-1311 | removals never miss a key table; a missing asset or account is reported exactly for a request that must not create and names nothing live; an insertion error exactly for a key or base asset already taken |
| LedgerTheorems.GapStep | src/ledger_impl.cpp:1581-1711 | only a torn transfer changes the difference between supply and balances, by its amount |
| LedgerTheorems.ConservationExact | src/ledger_impl.cpp:1581-1711 | supply equals the sum of balances after an operation exactly if it is not torn with a nonzero amount |
| LedgerTheorems.RunConserves | src/ledger_impl.cpp:1581-1711 | runs without such a transfer conserve, clearing included |
| LedgerTheorems.RunConservesExactly | src/ledger_impl.cpp:1581-1711 | runs that do not clear conserve exactly if no transfer on the way was torn |
| LedgerTheorems.ReachableConservation | src/ledger_impl.cpp:722-1711 | the same from creation with any limits |
| LedgerTheorems.LostForGood | src/ledger_impl.cpp:828-834 | lost units are never recovered and their asset stays live for good |
| LedgerTheorems.TornReachable | src/ledger_impl.cpp:1704-1705 | a ledger with one balance slot reaches a torn transfer |
| LedgerTheorems.UniqueHolder | src/ledger_impl.cpp:1597-1600 | a single-unit token has supply 0 or 1 and at most one holder, who has one; if conserved, a holder exactly if in circulation |
| LedgerTheorems.ZeroEntriesExact | src/ledger_impl.cpp:1353-1447 | the first zero entry is stored exactly by a zero amount for an account without an entry while there is room |
| LedgerTheorems.RunNonzeroExactly | src/ledger_impl.cpp:1353-1447 | throughout a run no entry is zero exactly if no operation stores a zero amount |
| LedgerTheorems.PositiveRun | src/ledger_impl.cpp:1353-1447 | with positive amounts every entry is nonzero and its asset live |
| LedgerTheorems.StrandingExact | src/ledger_impl.cpp:828-884 | after an operation every entry still belongs to a live asset exactly if it did not remove an asset that an entry names |
| LedgerTheorems.RunStrandsExactly | src/ledger_impl.cpp:828-884 | the same at the end of any run that does not clear |
| LedgerTheorems.ReachableStranding | src/ledger_impl.cpp:722-1711 | the same from creation with any limits |
| LedgerTheorems.OrphanForGood | src/ledger_impl.cpp:828-884 | an entry whose asset is gone stays, and so does its account |
| LedgerTheorems.OrphanReachable | src/ledger_impl.cpp:828-884 | four calls reach such an entry |
| LedgerTheorems.OneTypePerPair | src/ledger_impl.cpp:853-868 | two live assets of the types with an id have the same address and id exactly if they are the same asset |
| LedgerTheorems.IdsNeverReused | src/ledger_impl.cpp:1128-1311 | over any run ids only grow, new assets and accounts have new ids, and live ones keep their identity |
| LedgerTheorems.ClearLocksBase | src/ledger_impl.cpp:762-778 | clearing locks the base asset out exactly if one was defined |
| LedgerTheorems.BaseLockedForGood | src/ledger_impl.cpp:762-778 | and no later run makes a base asset live again |
| LedgerLaws.AssetKeysExact | src/ledger_impl.cpp:958-1100 | the key table holds exactly the live token assets, under type byte 2 and address, or 3, address and id |
| LedgerLaws.TokenAssetsDistinct | src/ledger_impl.cpp:958-1100 | two live token assets are one exactly if they agree on class, address and id |
| LedgerLaws.FindsAsset | src/ledger_impl.cpp:896-1102 | a find, or a find-or-create, that names a live asset by id, as base asset, or by address and id, answers with it and changes nothing |
| LedgerLaws.MissesAsset | src/ledger_impl.cpp:896-1102 | a find or removal that names no live asset reports it and changes nothing |
| LedgerLaws.RemovesAsset | src/ledger_impl.cpp:828-884 | refused while in circulation; otherwise exactly the named asset goes, and with a base asset the flag |
| LedgerLaws.CreatesAsset | src/ledger_impl.cpp:896-1102 | the errors of a creation in their order; otherwise the type, address and id asked for are stored with no supply under the next id, and nothing else changes |
| LedgerLaws.OneBaseAsset | src/ledger_impl.cpp:896-1102 | at most one base asset is live, and it is the recorded one |
| LedgerLaws.BaseFoundExactly | src/ledger_impl.cpp:900-948 | in every reachable ledger whose flag is set, a find for the base asset gives exactly the live base asset, whatever id is passed |
| LedgerLaws.LiveRecords | src/ledger_impl.cpp:896-1311 | live ids are below counters and limits, unused fields are zero, wallets have a zero prefix |
| LedgerLaws.AccountKeysExact | src/ledger_impl.cpp:1241-1300 | the key table holds exactly the live accounts with an address or id, under it |
| LedgerLaws.SameAccountExactly | src/ledger_impl.cpp:1213-1245 | two requests by bytes or record name the same account exactly if their words agree |
| LedgerLaws.SecondRequest | src/ledger_impl.cpp:1161-1311 | asked for one word and then for another, the ledger answers with the same account exactly if the words are the same |
| LedgerLaws.FindsAccount | src/ledger_impl.cpp:1161-1311 | a find, or a find-or-create, that names a live account answers with it and changes nothing |
| LedgerLaws.MissesAccount | src/ledger_impl.cpp:1161-1311 | a find or removal that names no live account reports it and changes nothing |
| LedgerLaws.RemovesAccount | src/ledger_impl.cpp:1128-1160 | refused while a balance names the account; otherwise exactly that account goes |
| LedgerLaws.CreatesAccount | src/ledger_impl.cpp:1161-1311 | the errors of a creation; otherwise the address or id asked for is stored under the next id, as a wallet exactly by the rules of each way to ask, and nothing else changes |
| LedgerLaws.Deposits | src/ledger_impl.cpp:1581-1625 | every code in its order; on success balance and supply grow by the amount and nothing else changes |
| LedgerLaws.Withdraws | src/ledger_impl.cpp:1627-1664 | every code in its order; on success balance and supply shrink by the amount, and a stored balance of zero is dropped |
| LedgerLaws.Transfers | src/ledger_impl.cpp:1666-1711 | every code in its order; on success the amount moves; with no room for the receiver the debit alone is left |
| LedgerLaws.StartsEmpty | src/ledger_impl.cpp:722-760 | every field of a new ledger, each limit its own |
| LedgerLaws.Clears | src/ledger_impl.cpp:762-778 | every field after clearing: tables and balances empty, limits, counters and base flag kept |
| LedgerLaws.RunsCompose | src/ledger_impl.cpp:762-1711 | runs go on where they stopped, with one reply for every operation |
| BasicLedgers.BasicLedger.constructor | src/ledger_impl.h:116-116 | the empty basic ledger |
| BasicLedgers.BasicLedger.GetBalance | src/ledger_impl.cpp:442-456 | the stored balance, or zero; refuses a request for its record |
| BasicLedgers.BasicLedger.Clear | src/ledger_impl.cpp:50-56 | empties every table |
| BasicTheorems.BasicFailureIsAtomic | src/ledger_impl.cpp:115-583 | every failing operation of the basic ledger leaves it as it was, transfers included |
| BasicTheorems.BasicStepKeepsInv | src/ledger_impl.cpp:115-583 | every operation keeps ids numbered by table size, balances placed, and each supply equal to the sum of its balances |
| BasicTheorems.BasicRefusals | src/ledger_impl.cpp:115-440 | base assets are refused, removals accepted without effect, clearing empties every table |
| BasicTheorems.MoveKeeps | src/ledger_impl.cpp:543-583 | moving an amount between two accounts changes no sum |
| BasicTheorems.BasicReachable | src/ledger_impl.cpp:115-583 | conservation without condition: it holds after every run from creation |
| Simulation.AssetsAlike | src/ledger_impl.cpp:115-286 | a request for an asset that finds room gets the same id, record or error from both ledgers and files the same |
| Simulation.AccountsAlike | src/ledger_impl.cpp:308-440 | the same for a request for an account |
| Simulation.DepositAlike | src/ledger_impl.cpp:470-509 | a deposit that finds room gets the same result from both and leaves all balances and supplies alike |
| Simulation.WithdrawAlike | src/ledger_impl.cpp:511-541 | the same for a withdrawal, although one ledger deletes a balance that reaches zero |
| Simulation.TransferAlike | src/ledger_impl.cpp:543-583 | the same for a transfer |
| Simulation.CrowdedExact | src/ledger_impl.cpp:1355-1357 | a full table is reported exactly if the operation needs an id or a slot and none is free, taking into account what a debit frees |
| Simulation.StepAlike | src/ledger_impl.cpp:115-1711 | for every operation, base assets, removals and clearing included: the ledgers give the same reply and stay alike exactly if they agree on it |
| Simulation.RunAlike | src/ledger_impl.cpp:115-1711 | over any run, clearing included, the same replies and alike states throughout exactly if they agree throughout; without clearing, the same replies only then |
| Simulation.RoomIsEnough | src/ledger_impl.cpp:1355-1357 | the ledgers agree throughout a run of shared operations if one id and two balance slots per operation are free |
| Simulation.FreshLedgersAlike | src/ledger_impl.cpp:115-1711 | from creation, with enough room, no run of shared operations tells the two ledgers apart |
| Lockstep.RunBoth | src/ledger_impl.cpp:115-1711 | the same calls made on both objects: the same replies, and alike states after, if the ledgers agree throughout; without clearing, the same replies only then |
| Lockstep.ReadBoth | src/ledger_impl.cpp:1313-1348 | while alike, both objects read every balance the same |
| Lockstep.RunBothFresh | src/ledger_impl.cpp:115-1711 | two new objects with room: the same replies to any shared calls, and the same balances after |
| AccountDrive.RecordInjective | include/libcma/ledger.h:89-96 | equal record bytes are equal records |
| AccountDrive.RecordValues | include/libcma/ledger.h:89-96 | the bytes of a record: code, address, token address, id, amount, padding, each at its place |
| AccountDrive.DriveSmallest | tools/account-driver-reader.cpp:521-526 | the tree size computed from the number of balances is the smallest with room for all records |
| AccountDrive.DriveFits | tools/account-driver-reader.cpp:521-521 | the tree size computed from the number of balances has room for all of them |
| AccountDrive.ProveRecord | tools/account-driver-reader.cpp:510-532 | for any index, checked or not: refuses exactly a zero type field, an oversized drive or an address outside the tree; otherwise returns the tree's proof at that address |
| AccountDrive.AddressExact | tools/account-driver-reader.cpp:532-532 | inside a drive that fits a tree no record address wraps or leaves the tree |
| AccountDrive.RecordNode | tools/account-driver-reader.cpp:249-257 | the node above record i is the recursive hash of its 128 bytes |
| AccountDrive.IssuedRecordProof | tools/account-driver-reader.cpp:521-532 | an issued proof verifies, its target is the hash of the record, its root the hash of the zero-padded balance region |
| AccountDrive.OccupiedPrefixSuffices | tools/account-driver-reader.cpp:528-531 | hashing only the occupied records gives the same tree |
| AccountDrive.FreeHasherIsInjective | misc/i-hasher.h:90-110 | an injective hash exists, so the statements that name one are not empty |
| AccountDrive.TreeHashInjective | misc/i-hasher.h:134-154 | with injective hashes, equal recursive hashes of buffers of one size mean equal bytes |
| AccountDrive.PresentedRecord | tools/account-driver-reader.cpp:277-300 | bytes presented with a verifying proof against the drive's root are the record stored there |
| AccountDrive.ProvenBalance | src/ledger_impl.cpp:1390-1432 | such bytes are zero exactly for an unused record; otherwise their fields hold one key's balance, its account's address and no padding, and for a live asset its type code, address and id |

## Left out

- MemoryLedgers.MemoryLedger.constructor: assumes the balance region is zero when a ledger is created over it, because the
  source's constructors do not clear it themselves.
- MemoryLedgers.MemoryLedger.SetBalance: pointers into the balance lists are positions, so the list of virtual balances may
  grow past what was reserved for it without invalidating them.
- MemoryLedgers.MemoryLedger.RetrieveAsset: results are returned as values; null out-parameters and invalid enumeration
  values cannot be formed.
- MemoryLedgers.MemoryLedger.RetrieveAccount: the same.
- MemoryLedgers.MemoryLedger.Deposit: amounts inside the ledger are numbers below 2^256 with explicit overflow checks; the
  byte loops that make those checks are proved separately in `Amounts`.
- Simulation.RunAlike: over runs that clear, replies alone may agree for a while after the states have parted; it does
  not say for how long.
- LedgerTheorems.RunConserves: needs the absence of torn transfers, because the property is false without it.
- AccountDrive.ProveRecord: for an index past the balance region, which the drive reader does not check, the type field it
  reads there is a parameter.
- Shared memory: the boost allocator, file mapping, flushing, region sizes. Vectors, maps and lists are `seq` and `map`
  fields that the methods reassign; the record region is an array. Hash tables are maps.
- The C interface, the magic word and error texts: errors are values of one datatype.
- Keccak-256 and the begin/add/end protocol of the hashers: the hash is a pair of functions.
- libcmt is not part of this model; its buffer split, its word reader and its word writer are stated as small functions in
  `AbiLists`, with a range that ends before it begins having length zero and pointer sums that do not wrap.
- The rest of the parser: decoding and encoding of single fields and JSON, and the third argument of a batch voucher.
- Trees have a root size below 64, as the source demands; a proof object on its own may be larger here, where the source
  would shift a 64-bit address too far. The word size of a tree is not limited by the width of an int.
- The drive reader's options, printing, search by owner, and proofs taken from a machine snapshot.
