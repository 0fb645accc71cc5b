# Pettycoin, verified in Dafny

Pettycoin is a sharded proof-of-work block chain node.  Much of its code keeps redundant
structures in step: cached answers about the block tree, hash tables that hide hash bits in
pointers, indexes of transactions and of the outputs they spend, partly filled shards, a
miner process that mirrors the daemon's pending transactions.  This project models that code
and proves, for every run, that each cached structure agrees with the simple definition it
stands for, and, where it does not, exactly when it fails.  It does the same for the code
whose answer has a simple definition of its own: sorting, proof of work, balancing a
transaction, reading JSON.

`dafny verify dfyconfig.toml` checks everything.  Each module stands alone except for the
imports it names.

| file | what it holds |
|---|---|
| `wrappers.dfy`, `sequences.dfy`, `bit_shift.dfy` | optional values, sequences and byte order, powers of two and right shifts |
| `block_tree.dfy`, `longest.dfy`, `step_towards.dfy` | the block tree, lists of heaviest blocks, walking between blocks |
| `chain_invariant.dfy`, `chain_steps.dfy`, `chain_events.dfy`, `chain.dfy`, `chain_check.dfy` | chain selection: the invariant, the effect of each helper, events and what they amount to, the state object, the assertions of `check_chains` |
| `chain_record.dfy`, `chain_history.dfy`, `chain_front.dfy`, `chain_silent.dfy` | what the events say and what the cached answers are after any of them; how longest_knowns[0] moves, and what that should send back to pending |
| `probing.dfy`, `htable_words.dfy`, `htable.dfy` | the open-addressing hash table |
| `strmap.dfy` | the crit-bit string map |
| `asort.dfy` | the quicksort on an explicit stack |
| `tx_order.dfy`, `merkle.dfy`, `block_shard.dfy`, `shard_history.dfy` | transaction order, merkle proofs, filling a shard, and what it holds after any arrivals |
| `tx_index.dfy`, `tx_history.dfy` | the transaction and input indexes, double spends, both after any events |
| `pending.dfy`, `miner.dfy`, `mirror.dfy` | pending transactions, the miner, the two kept in step |
| `todo.dfy` | outstanding requests to peers |
| `difficulty.dfy` | compact targets, the proof-of-work test, retargeting, work |
| `amounts.dfy` | fees, rewards, and whether inputs pay for outputs |
| `json_tree.dfy`, `jsmn_machine.dfy`, `jsmn_invalid.dfy`, `jsmn.dfy`, `json.dfy` | JSON values and the text they stand in, what the tokenizer computes, which texts are invalid, the tokenizer, walking its tokens |

How things are modelled:

- A block pointer is the block's arrival number; the genesis block is 0.  `struct block`'s
  fields are kept by column: linked structure and work, shard counters, the set of
  `all_known` blocks, the set of blocks with a complaint.
- `list_head` lists and `tal` arrays are sequences held in fields of a class.
- A machine word in the hash table is the set of its 1-bits, so masks are set operations.
- The double SHA-256 is a free constructor, so it is injective.
- The sort works on elements; swapping them byte by byte is one swap.  `size_t` has any number
  of bits that can count the elements, and the stack one entry per bit.
- A JSON buffer is a C string: a NUL follows it.  `json.c` compiles `jsmn.c` in strict mode
  without parent links, and never asks it to only count tokens.
- Clocks, `calloc`, the proof-of-work test and the outcomes of `create_refs` and
  `check_tx_inputs_and_refs` are parameters.

Where the code does not do what its own assertions or comments promise:

- `check_chains` (chain.c:104-107) asserts that `preferred_chain` is `longest_chains[0]`
  whenever a longest known block leads to a longest chain.  Two tips of equal work are enough
  to break it: the lists keep arrival order, `preferred_chain` follows the depth-first order.
  `TieTripsCheckChains` reaches such a state with four blocks; `AssertedExactly` says when the
  assertions hold; `ConnectedPreferredIsLongest` is what is true instead.
- `new_longest` (chain.c:345-349) may move longest_knowns[0] too, but only `update_known`
  (chain.c:310-313) sends the transactions of the branch that is left back to pending.
  `FrontExactly` says when it moves; what goes back is all that should if and only if it did not
  (`ReturnedExactly`); `FrontMovesSilently` is a run of five events where nothing goes back.
- `create_proof` (proof.c:30-39) takes its siblings from offset 0 or `1 << i` whatever the
  transaction; `CreatedProofExactly` shows that its proofs check for the first two
  transactions of a shard and for no others.
- `put_txhash_in_shard` (check_block.c:257-289) keeps the canned proofs after the last hash,
  which `check_block_shard` (block_shard.c:80-81) asserts cannot be.  Of the assertions on proofs
  only this one can fail (`OnlyStaleProofsFail`), and it fails exactly after hashes have filled
  the last slots of a shard that already held something: `RecvTxHash`, `RecvShard`, `Receive`.
- `todo_forget_about_block` (todo.c:326-327) drops requests without releasing the peers'
  counters.  What leaks is tracked exactly and never comes back (`Apply`).  A peer from whom
  MAX_REQUESTS have leaked is asked nothing more until it disconnects (`Run`); with fewer it
  can still be asked (`AskAgain`); `StarvedPeer` is a run that starves one.
- `upgrade_tx_in_hashes` (tx_in_hashes.c:61-71) does not look whether the place is still listed.
  In a block with a complaint it adds the inputs of a transaction that no listed place has:
  `UpgradeTxInHashes` keeps the index right if and only if the place is listed, the transaction
  is known elsewhere, or it has no inputs; `LeakedInputs` is a run that fails.
- `remove_tx_from_hashes` (tx_in_hashes.c:44-47) reads the transaction of every slot it is given,
  so the loop of `complaint_on_all` (complain.c:24-29) gets to the end if and only if every slot of
  the block is filled: `RemoveBlock`.
- `get_difficulty` (difficulty.c:117-121) compares a signed time with an unsigned one, so the
  clamp is the promised one if and only if time does not run backwards (`ClampExactly`); when it
  does, the target becomes four times easier, not four times harder.  `BackwardsStaysEasy` is the
  first period after the genesis block of Makefile:23; `BackwardsHappens` builds such a chain, with
  timestamps that pass `check_timestamp`.
- `encode_difficulty` (difficulty.c:69) asserts that the mantissa is below 0xFFFFFF, which
  shuts out one mantissa that fits: `EncodeExactly` says for which numbers.  `AssertionReached`
  gets there from one difficulty at every exponent, with one late second; `AssertionHappens` is an
  accepted chain of 8064 blocks from the genesis block of Makefile:23 that gets there.
- `difficulty_one_sixteenth` (difficulty.c:37-44) saturates at exponent 31 but lets exponent 32
  grow to 33, which `beats_target` refuses (`OneSixteenthUsable`).  With a genesis exponent of at
  most 31 no accepted chain gets there: `ChainUsable`.
- `cmp_times` (timestamp.c:9-16) makes the same test twice.  It orders times exactly when they
  are all equal (`CmpTimesExactly`).  Since it never says "less", sorting with it leaves up to
  four times alone and reverses all but the ends of up to eleven, so the median of
  `check_timestamp` is the time at a fixed position: `MedianTime`.
- `tx_amount_sent` of a gateway transaction (tx.c:64-73) is right exactly when the sum is below
  2^32 (`GatewayAmountSent`); `GatewayAmountWraps` is a transaction that wraps.
- `json_get_member` (json.c:80-93) returns the token after an object whose last name has no
  value: `JsonGetMember`, and `MissingValue` for the text `{"a"}`.
- `jsmn_parse_string` (jsmn.c:116-142) looks past the end of the text after a backslash.  What has
  arrived of a good text is never invalid while the rest is there (`PrefixNotInvalid`); a buffer that
  ends with what has arrived, so that a NUL follows, is called invalid if and only if it ends right after the backslash of an
  escape (`CutBufferExactly`), and `json_parse_input` then gives up on a request that would be fine.
- An entry of the hash table is told from an empty bucket exactly when its pointer shows a
  bit other than bit 0 (`EncodeValidExactly`); pointers that share their highest bit always
  do (`SharedTopBitSuits`).

## Model

| member | source | states |
|---|---|---|
| BlockTree.BlockPreceedsIsAncestry | chain.h:13-22 | block_preceeds, with its depth cut-off, is exactly "reached by following prev" |
| BlockTree.ExtendTree | block.c:94-113 | linking a new block keeps depth, parent and children lists consistent, moves no old block, and gives the new block its parent's work plus its own |
| BlockTree.WalkVisits | chain.c:182-183 | a recursion over the children lists that turns back at some blocks visits exactly the blocks reached by paths that avoid them |
| BlockTree.WalkOrder | chain.c:182-183 | in depth-first order: a block before those below it, and of two branches the older first |
| Longest.VisitsHeaviest | chain.c:171-180 | keeping a list by set_single and append, over any sequence of visits, lists exactly the blocks with the most work |
| Longest.VisitsFront | chain.c:171-180 | the front of that list is the first block met that has the final work |
| Longest.VisitsChange | chain.c:249-267 | the list is touched if and only if some visited block has at least the old work |
| StepTowards.StepTowards | chain.c:22-49 | returns the child of the deepest common ancestor on the way to target, and nothing exactly when target is curr or precedes it; terminates |
| StepTowards.StealPendingTxs | chain.c:277-291 | moves exactly the ancestors of the old tip that the new tip lacks, tip first |
| ChainInvariant.PreferredIsHeaviest | chain.c:187-203 | preferred_chain is an uncomplained descendant of longest_knowns[0], and none has more work |
| ChainInvariant.NothingKnownAboveKnown | chain.c:92-98 | no uncomplained descendant of longest_knowns[0] is all-known |
| ChainInvariant.ConnectedPreferredIsLongest | chain.c:205-227 | if any longest known leads to any longest chain, then longest_knowns[0] leads to longest_chains[0] and preferred_chain is one of the longest chains |
| ChainInvariant.DisconnectedPreferredIsShorter | chain.c:101-107 | if none does, preferred_chain has less work than the longest chains |
| ChainSteps.LearnedKnown | chain.c:230-275 | update_known_recursive makes all_known right for every uncomplained block: set exactly when the block and all its ancestors have every shard |
| ChainSteps.LearnedLists | chain.c:249-267 | ... and longest_knowns again lists exactly the heaviest all-known blocks, started incrementally or from the genesis block |
| ChainSteps.KnownUpdatedSettles | chain.c:298-319 | update_known restores the whole invariant from a state where one block and its descendants are unsettled |
| ChainSteps.KnownRecomputed | chain.c:438-450 | the brute-force recomputation restores it from any state whose all_known flags are sound |
| ChainSteps.ReorderedKeeps | chain.c:213-227 | swapping the first connected pair to the front loses no block and leaves that pair in front |
| ChainSteps.AddedGood | chain.c:386-400 | the new block competes for longest chain without disturbing the flags of older blocks |
| ChainSteps.AddedBad | block.c:118-123 | a new block below a complaint changes none of the cached answers |
| ChainSteps.ComplaintReaches | complain.c:12-34 | complaint_on_all reaches exactly the block and its descendants |
| Chain.BlockAllKnown | block.c:148-157 | true exactly when every shard is complete |
| Chain.ChainState.constructor | state.c:28-69 | the state with only the genesis block satisfies the invariant |
| Chain.ChainState.FindLongestDescendents | chain.c:163-184 | the list after visiting the uncomplained subtree in depth-first order |
| Chain.ChainState.UpdatePreferredChain | chain.c:187-203 | preferred_chain is the first heaviest block met below longest_knowns[0]; reports whether it moved |
| Chain.ChainState.FindConnectedPair | chain.c:58-74 | the first connected pair, chains before knowns, or none exists |
| Chain.ChainState.OrderAndPrefer | chain.c:347-349 | that pair is swapped to the front and preferred_chain follows |
| Chain.ChainState.UpdateKnownRecursive | chain.c:230-275 | the flags set and the list kept by the recursion, and whether the list changed |
| Chain.ChainState.UpdateKnown | chain.c:298-319 | the effect on all pointers, and exactly which blocks go back to pending when longest_knowns[0] moves |
| Chain.ChainState.UpdateBlockPtrsNewBlock | chain.c:382-416 | after a new uncomplained block the invariant holds again; which block is longest_knowns[0] in between, and exactly which blocks go back to pending |
| Chain.ChainState.UpdateBlockPtrsNewShard | chain.c:420-427 | after a shard completes the invariant holds again, and the ancestors of the old longest_knowns[0] that the new one lacks have gone back to pending |
| Chain.ChainState.UpdateBlockPtrsInvalidated | chain.c:438-450 | after marking complaints the invariant holds again, unless the genesis block has one; nothing more goes back to pending |
| Chain.ChainState.AddBlock | block.c:79-129 | every new block leaves the invariant true; the whole new state is stated, with what goes back to pending when longest_knowns[0] moves |
| Chain.ChainState.PutTx | check_block.c:232-246 | so does every new transaction, even when checking it raises complaints before the shard is counted; what the complaints and the move of longest_knowns[0] send back to pending is stated |
| Chain.ChainState.ComplaintOnAll | complain.c:12-34 | marks the block and all its descendants and sends each back to pending, in depth-first order |
| Chain.ChainState.PublishComplaint | complain.c:36-60 | marks exactly those and sends each back to pending once, is a no-op on a block with a complaint, and restores the invariant; on the genesis block it leaves all pointers there |
| Chain.ChainState.Apply | chain.c:382-450 | each event does what the ledger of events records: parent and work of a new block, the shard's count, the complaints |
| Chain.ChainState.Run | chain.c:382-450 | after every run of new blocks, new transactions and complaints the invariant holds, and tree, work, shards and complaints are those the events record |
| ChainRecord.BlockArrives | block.c:94-113 | an event adds a block if and only if it is a block with work below one that is there: the next number, that parent, that work, empty shards of those sizes |
| ChainRecord.BlockKept | block.c:94-113 | and the block keeps its parent and its work to the end of the run |
| ChainRecord.BlockCame | block.c:94-113 | every block but the genesis block comes from such an event |
| ChainRecord.BadExactly | complain.c:12-34 | after any events a block has a complaint if and only if some event complains about it or about a block above it, before or after it came |
| ChainRecord.CountExactly | check_block.c:232-246 | a shard's count is the number of its transactions heard of since its block came, up to its size |
| ChainHistory.ChainsFromEvents | chain.c:382-416 | longest_chains are exactly the uncomplained blocks with the largest sum of works from the genesis block |
| ChainHistory.KnownsFromEvents | chain.c:230-275 | longest_knowns are exactly those with the largest sum among the blocks known with all blocks above them |
| ChainHistory.PreferredFromEvents | chain.c:187-203 | preferred_chain has the largest sum of those below longest_knowns[0] |
| ChainHistory.AfterEvents | chain.c:382-450 | all three from the start, after any events |
| ChainFront.FrontExactly | chain.c:213-227 | if a new block has more work than the longest chains, or as much and no longest known led to those, the first longest known that leads to it, if there is one, comes to the front; otherwise the front stays |
| ChainFront.ReturnedExactly | chain.c:310-313 | what update_known sends back is what the whole move should send back if and only if new_longest had not moved longest_knowns[0] before |
| ChainSilent.FrontMovesSilently | chain.c:345-349 | a run in which longest_knowns[0] moves to another branch and nothing goes back to pending |
| ChainCheck.IncrementalIsRecomputed | chain.c:438-450 | as sets, the incremental longest_chains, longest_knowns and all_known equal a recomputation from the genesis block |
| ChainCheck.AssertedExactly | chain.c:81-116 | check_chains' assertions hold if and only if no longest known leads to a longest chain or the front longest chain is the first a depth-first walk meets |
| ChainCheck.TieTripsCheckChains | chain.c:104-107 | a run of four blocks that reaches a state where the assertion fails |
| Probing.PlaceProbed | ccan/ccan/htable/htable.c:116-128 | storing an entry in the first bucket without a live one keeps every entry reachable from its home |
| Probing.SweepMove | ccan/ccan/htable/htable.c:184-188 | rehashing in place: an entry taken out and added again lands between its home and its old bucket, and the swept part stays unbroken |
| Probing.SweepEnd | ccan/ccan/htable/htable.c:169-191 | when the sweep is done every entry is reachable and no tombstone is left |
| Probing.EmptyExists | ccan/ccan/htable/htable.c:143-144 | a table within its limits has an empty bucket |
| HtableWords.EncodeValidExactly | ccan/ccan/htable/htable.c:199-213 | a stored word is never mistaken for empty or deleted, whatever the hash, exactly when the pointer shows a bit other than bit 0 |
| HtableWords.EncodeRaw | ccan/ccan/htable/htable.c:19-28 | the pointer comes back out of the word |
| HtableWords.RewrittenEncodes | ccan/ccan/htable/htable.c:216-233 | update_common rewrites each word into the one the narrower mask would have stored |
| HtableWords.BucketExactly | ccan/ccan/htable/htable.c:62-65 | the home bucket is the hash modulo the size of the table |
| HtableWords.HashPtrBitsExactly | ccan/ccan/htable/htable.c:35-43 | which bits of a hash are hidden, bit by bit |
| Htable.SharedTopBitSuits | ccan/ccan/htable/htable.c:199-213 | pointers with the same highest bit always show it |
| Htable.Htable.constructor | ccan/ccan/htable/htable.c:45-53 | an empty valid table |
| Htable.Htable.HtAdd | ccan/ccan/htable/htable.c:116-128 | the entry goes to the first bucket, from its home on, without a live entry |
| Htable.Htable.DoubleTable | ccan/ccan/htable/htable.c:130-167 | the bigger table is valid, has room, and holds the same entries the same number of times |
| Htable.Htable.RehashTable | ccan/ccan/htable/htable.c:169-191 | in place: the table stays valid, holds the same entries, and has no tombstones |
| Htable.Htable.UpdateCommon | ccan/ccan/htable/htable.c:194-234 | all words are re-encoded under the new mask, and the new pointer fits it |
| Htable.Htable.Add | ccan/ccan/htable/htable.c:236-249 | one more copy of the pointer and nothing else; fails only when doubling is needed and memory is out |
| Htable.Htable.HtableVal | ccan/ccan/htable/htable.c:67-81 | the next bucket with the right hidden bits before an empty one; terminates |
| Htable.Htable.Lookup | ccan/ccan/htable/htable.c:83-95 | a walk ends, meets no bucket twice, and meets every entry with that hash |
| Htable.Htable.DelVal | ccan/ccan/htable/htable.c:265-273 | the bucket becomes a tombstone and the table stays valid |
| Htable.Htable.Del | ccan/ccan/htable/htable.c:251-263 | finds the pointer exactly when it is stored, and removes one copy |
| Htable.Htable.RunOps | ccan/ccan/htable/htable.c:236-273 | after any run of additions and deletions, with all the doubling and rehashing they cause, the table holds exactly the multiset the run describes, up to the first pointer that would be taken for an empty or deleted bucket; pointers that share their highest bit all get in |
| Htable.TallyExactly | ccan/ccan/htable/htable.c:236-263 | how many copies that is: the largest surplus of additions over deletions from any point of the run on |
| StrMap.Closest | ccan/ccan/strmap/strmap.c:19-36 | follows the string's bits down to a leaf |
| StrMap.ClosestFinds | ccan/ccan/strmap/strmap.c:19-36 | a string in the map is its own closest member |
| StrMap.FirstDiff | ccan/ccan/strmap/strmap.c:73-80 | the first byte where two strings differ, NUL included, or they are equal |
| StrMap.InsertedValid | ccan/ccan/strmap/strmap.c:100-121 | splicing the new node keeps positions increasing on every path and adds exactly one binding |
| StrMap.Get | ccan/ccan/strmap/strmap.c:38-50 | finds exactly what the map holds |
| StrMap.Add | ccan/ccan/strmap/strmap.c:52-122 | refuses exactly the strings present; otherwise the map gains that binding |
| StrMap.RemovedValid | ccan/ccan/strmap/strmap.c:163-171 | raising the other child keeps the tree valid and removes exactly one binding |
| StrMap.Del | ccan/ccan/strmap/strmap.c:124-174 | returns the value if there is one and removes that binding only |
| StrMap.InOrderSorted | ccan/ccan/strmap/strmap.c:176-185 | iterate visits strings in increasing unsigned byte order |
| StrMap.InOrderKeys | ccan/ccan/strmap/strmap.c:176-185 | ... and exactly the strings of the map |
| StrMap.Prefix | ccan/ccan/strmap/strmap.c:198-231 | returns a valid map of exactly the strings that start with the prefix |
| StrMap.Map.Insert | ccan/ccan/strmap/strmap.c:63-68 | refines a finite map, the empty map included |
| StrMap.Map.Delete | ccan/ccan/strmap/strmap.c:132-166 | refines a finite map, down to the empty one |
| Asort.ScanUp | ccan/ccan/asort/asort.c:148-149 | the unguarded scan stops inside the part, at an element not below the pivot |
| Asort.ScanDown | ccan/ccan/asort/asort.c:151-152 | the same from the other side |
| Asort.Collapse | ccan/ccan/asort/asort.c:140-171 | the part is rearranged into elements up to and from the pivot; both parts are shorter and not empty, so no size_t difference is negative |
| Asort.CutsKept | ccan/ccan/asort/asort.c:140-171 | everything settled before stays settled, and every position between the two new parts is settled |
| Asort.NextOutlined | ccan/ccan/asort/asort.c:178-201 | dropping the small parts loses no two positions further apart than the threshold |
| Asort.NextHalving | ccan/ccan/asort/asort.c:190-201 | a part at height k of the stack has at most n / 2^k elements |
| Asort.PushFits | ccan/ccan/asort/asort.c:60-67 | the fixed stack has room for every push |
| Asort.Advance | ccan/ccan/asort/asort.c:178-201 | pops and pushes leave the parts still to be done on the stack |
| Asort.Quicksort | ccan/ccan/asort/asort.c:108-203 | a permutation in which positions further apart than the threshold are in order |
| Asort.PlaceSentinel | ccan/ccan/asort/asort.c:214-228 | the smallest of the first threshold is the smallest of all |
| Asort.Insert | ccan/ccan/asort/asort.c:235-254 | the unguarded scan stops at the sentinel at the latest; the sorted part grows by one |
| Asort.Asort | ccan/ccan/asort/asort.c:95-257 | a sorted permutation, whenever "not less" is total and transitive; with a comparator that never says less, up to four elements stay and up to eleven have all but the ends reversed |
| Asort.SortedAscends | ccan/ccan/asort/asort.c:95-257 | every total preorder qualifies, and sorted then has its usual sense |
| Asort.CmpTimesExactly | timestamp.c:9-16 | the comparator of check_timestamp agrees with itself on a list of times if and only if they are all equal |
| Asort.MedianTime | timestamp.c:20-38 | what check_timestamp takes for the median of at most eleven times is the time at a fixed position |
| TxOrder.TxCmpOrder | tx_cmp.c:55-78 | tx_cmp is antisymmetric and zero only on equal transactions |
| TxOrder.TxCmpTransitive | tx_cmp.c:55-78 | tx_cmp is transitive |
| TxOrder.TxCmpExactly | tx_cmp.c:11-79 | by address in byte order, then by marshalled bytes: where two part the smaller byte comes first, and a prefix before what it begins |
| TxOrder.OrderFollowsShards | shard.h:8-14 | tx_cmp order implies shard order, for every shard order |
| TxOrder.ShardOfExactly | shard.h:8-14 | the shards cut the addresses into 2^order equal ranges of their first two bytes |
| Merkle.ProofMerklesTo | proof.c:43-61 | the loop folds the leaf and its siblings up to a root |
| Merkle.ClimbBinds | proof.c:43-83 | two proofs for one root and offset carry the same leaf and the same siblings |
| Merkle.TruePathFolds | merkle_recurse.c:19-45 | the true sibling path of every offset folds to the root |
| Merkle.AcceptedIsLeaf | proof.c:63-83 | for a root built from a list of pairs, an accepted pair is the leaf at that offset |
| Merkle.RootBinds | merkle_recurse.c:19-45 | lists of pairs with the same root are the same list |
| Merkle.CreateProof | proof.c:30-39 | the subtrees create_proof hashes |
| Merkle.CreatedProofExactly | proof.c:30-39 | in a shard without repeated entries a created proof checks if and only if the offset is 0 or 1 |
| BlockShard.CommittedOnce | check_block.c:205-224 | whatever the root, it commits to at most one pair at each offset |
| BlockShard.FilledReproducesRoot | block_shard.c:122-127 | a completely filled shard hashes to the block's root if and only if that root was made from some list of that length |
| BlockShard.KnownBinds | merkle_txs.c:12-33 | shards known in full that have the same root hold the same transactions with the same references |
| BlockShard.Shard.constructor | block_shard.c:31-41 | an empty shard is valid |
| BlockShard.Shard.CountersExact | block_shard.c:61-70 | txcount and hashcount tell exactly whether slots are missing |
| BlockShard.Shard.CheckProofByHash | proof.c:63-83 | accepts exactly the offsets within the shard whose proof folds to the root |
| BlockShard.Shard.CheckTxOrdering | check_block.c:99-136 | looking only at the nearest known neighbours, accepts if and only if inserting keeps all known transactions strictly sorted, and otherwise names a slot that conflicts |
| BlockShard.Shard.OnlyStaleProofsFail | block_shard.c:80-110 | at every step check_block_shard's assertions about proofs hold if and only if no proofs are kept once all hashes are there |
| BlockShard.Shard.CreateProofFor | proof.c:10-40 | create_proof's assertion never fails on a filled slot; while slots are missing it returns a proof that checks |
| BlockShard.Shard.PutProof | check_block.c:291-311 | keeps the first proof for a slot, leaves other slots alone, and adds none once all hashes are there |
| BlockShard.Shard.PutTx | check_block.c:199-255 | its assertions never fail; counters stay exact; slots only advance; the assertion on proofs always holds after a new transaction |
| BlockShard.Shard.PutTxHash | check_block.c:257-289 | its assertion never fails; counters stay exact; slots only advance |
| BlockShard.Shard.RecvTx | recv_tx.c:96-130 | a transaction with its proof is stored if and only if it is proven, check_tx_inputs_and_refs accepts it, and it is in order |
| BlockShard.Shard.RecvTxHash | peer.c:780-797 | a hash pair with its proof is stored if and only if it is proven and new; the assertion on proofs then holds if and only if another slot is missing or there is only one |
| BlockShard.Shard.RecvShard | recv_block.c:345-364 | a genuine list fills exactly the missing slots; if there were any, the assertion on proofs then holds if and only if all were missing |
| BlockShard.Shard.TryResolve | recv_block.c:216-247 | a hash turns into its transaction if and only if that is in order |
| BlockShard.Shard.Receive | check_block.c:199-289 | for any arrival, what becomes of every slot, and exactly when the assertion on proofs holds afterwards |
| BlockShard.Shard.Run | check_block.c:199-289 | over any interleaving of arrivals: every slot is as the arrivals one after the other leave it, counters exact, known transactions sorted, slots move Unknown, Hash, Tx and never change their pair, and while slots are missing exactly the filled ones have a proof that checks |
| ShardHistory.OneReceived | check_block.c:199-246 | in a shard of an honest block an arrival changes a slot if and only if it proves or names what the block was made from |
| ShardHistory.SlotsExactly | check_block.c:199-289 | after any arrivals in any order: a slot holds its transaction if that came with a proof, or came after anything proven for the slot; the right hash if only such was proven; else nothing |
| ShardHistory.AfterArrivals | check_block.c:199-289 | the same through the operations, from the empty shard |
| BlockShard.StaleProofs | check_block.c:272-288 | a run after which all hashes are there and the proofs are still kept |
| TxIndex.Index.constructor | state.c:37-38 | empty indexes satisfy the invariant |
| TxIndex.Index.GetTx | txhash.c:41-72 | finds a transaction exactly when some listed place or pending entry has it in full |
| TxIndex.Index.InputHashAddTx | inputhash.c:72-89 | each input is indexed once more |
| TxIndex.Index.InputHashDelTx | inputhash.c:91-115 | each input is indexed once less |
| TxIndex.Index.AddTxHashToHashes | tx_in_hashes.c:6-16 | a new hash keeps the index invariant |
| TxIndex.Index.AddTxToHashes | tx_in_hashes.c:18-32 | a new transaction keeps it: inputs are indexed once however many places hold the transaction |
| TxIndex.Index.UpgradeTxInHashes | tx_in_hashes.c:61-71 | turning a hash into its transaction keeps it if and only if the place is listed, the transaction is known elsewhere, or it spends nothing |
| TxIndex.LeakedInputs | tx_in_hashes.c:61-71 | a run after which the index holds inputs of a transaction that nothing lists |
| TxIndex.Index.Step | check_block.c:205-230 | each event does to places, dropped places and pending entries what it says, and keeps the invariant, except a transaction for a place that was taken out |
| TxIndex.Index.Run | tx_in_hashes.c:6-106 | after every run, places and pending entries are those the events enter; without such latecomers the inputs indexed are, each once, those of exactly the fully known transactions |
| TxIndex.Index.TxHashDel | txhash.c:74-111 | removes exactly that element |
| TxIndex.Index.RemoveTxFromHashes | tx_in_hashes.c:34-59 | removal keeps it, and removing twice changes nothing |
| TxIndex.Index.RemoveBlock | complain.c:24-29 | the loop over all places of a block gets to the end if and only if every slot is filled, and then exactly those places have been taken out |
| TxIndex.Index.AddPendingTxToHashes | tx_in_hashes.c:73-90 | a pending transaction keeps it |
| TxIndex.Index.RemovePendingTxFromHashes | tx_in_hashes.c:92-106 | removal keeps it, and is harmless for a transaction that was not listed |
| TxIndex.Index.FindDoublespend | check_tx.c:104-144 | returns a conflict if and only if some fully known place other than me, on a chain with the block, spends the output: the same as scanning every place that no complaint has taken out |
| TxHistory.SlotExactly | check_block.c:205-230 | after any events a place is filled if and only if something arrived for it, stands for what arrived first, and holds the transaction if and only if that arrived in full |
| TxHistory.DroppedExactly | tx_in_hashes.c:34-59 | a place is out if and only if it was taken out after something had arrived |
| TxHistory.PendingExactly | tx_in_hashes.c:73-106 | a transaction is pending if and only if it was added and not removed since |
| TxHistory.ConflictExactly | check_tx.c:104-144 | a place conflicts if and only if a spend of the output arrived for it in full, and it is not out, not me, and on a chain with the block |
| TxHistory.FindAfter | check_tx.c:104-144 | after any run without latecomers tx_find_doublespend finds a conflict if and only if the arrival of one is among the events |
| Pending.FindPendingInArr | pending.c:81-102 | finds the transaction exactly when present, else the place where it belongs |
| Pending.InsertKeepsSorted | pending.c:133-134 | inserting there keeps the array strictly sorted |
| Miner.IncrementNonce2 | pettycoin-generate.c:212-221 | adds one with carry |
| Miner.IncrementedCounts | pettycoin-generate.c:212-221 | as a number nonce2 counts up by one and wraps only after all its values |
| Miner.HashBlockInjective | hash_block.c:7-38 | blocks with the same hash have the same header, counts, merkles, previous hashes and tailer |
| Miner.TriesCount | pettycoin-generate.c:239-250 | both nonces, read as one number, count up by one with every failed try |
| Miner.NeverTwice | pettycoin-generate.c:224-254 | whatever the clock says, no block is hashed twice before every pair of nonces has been tried |
| Miner.TimestampAge | pettycoin-generate.c:242-244 | the timestamp is what the clock said when nonce1 last passed a multiple of 65536 |
| Miner.ReplaySnoc | pettycoin-generate.c:173-195 | replaying a longer queue applies the last update to the replay of the rest |
| Miner.WorkingBlock.constructor | pettycoin-generate.c:110-171 | a new working block's caches agree with its contents |
| Miner.WorkingBlock.AddTx | pettycoin-generate.c:173-210 | inserts the hashes at their place and brings merkles, their hash and the midstate up to date |
| Miner.WorkingBlock.SolveBlock | pettycoin-generate.c:224-254 | the digest from the cached midstate equals hash_block from scratch; a solution leaves header and tailer alone, a failure moves on to the next try and keeps the midstate right |
| Mirror.InsertMirrors | generating.c:184-202 | a positional insert in the daemon and its update in the miner have the same effect |
| Mirror.HashesArePairs | merkle_hashes.c:6-20 | the miner's hashes of pending transactions are the pairs of a shard that holds them |
| Mirror.DigestBinds | hash_block.c:7-38 | blocks with the same digest have the same transactions with the same references, in the same shards and order, and the same header, previous hashes and tailer |
| Mirror.Generating.constructor | generating.c:204-215 | a fresh miner followed by init_updates' queue equals the pending array |
| Mirror.Generating.InsertPendingTx | pending.c:104-140 | inserts in order unless the shard is full or references fail, and keeps the mirror |
| Mirror.Generating.SendUpdate | generating.c:119-147 | moving the oldest update into the pipe keeps the mirror |
| Mirror.Generating.ReadUpdate | pettycoin-generate.c:284-296 | reading an update keeps it, and add_tx's assertions never fail |
| Mirror.Generating.Mine | pettycoin-generate.c:380-388 | a solution carries the hash of the block that is written; a failure goes on with the next nonces |
| Mirror.Generating.Act | generating.c:119-310 | what an insertion, a send, a read and a try do to both processes |
| Mirror.Generating.Run | generating.c:119-310 | over any interleaving, every step does what its action says; the miner's hashes followed by the updates on their way equal the hashes of the strictly sorted pending arrays of at most 255 |
| Mirror.Generating.CatchUp | generating.c:119-147 | once everything is delivered the miner works on exactly the pending transactions: its merkle of a shard is the root of a shard that holds them with their references |
| Todo.TodoState.constructor | state.c:36-49 | no peers and no requests satisfy the invariant |
| Todo.TodoState.FindTodo | todo.c:61-86 | the request with that key, or there is none |
| Todo.TodoState.NewRequest | todo.c:92-125 | a request with a new key goes to the end of the list; never a second one with the same key |
| Todo.TodoState.AllocPeer | peer.c:1671-1714 | a number nobody has and no request remembers, or all are taken |
| Todo.TodoState.GetTodoPkt | todo.c:345-360 | the first request the peer has not been asked, unless it has MAX_REQUESTS open or has been asked everything |
| Todo.TodoState.DeleteTodo | todo.c:211-224 | every peer decremented exists and has something to decrement |
| Todo.TodoState.FinishTodo | todo.c:226-268 | the assertion never fails; success removes the request with that key and releases what was waited for on it, failure sets one failed bit and releases one count if we were waiting, and nothing else |
| Todo.TodoState.RemovePeer | todo.c:200-209 | no bit of the peer survives |
| Todo.TodoState.ForgetAboutBlock | todo.c:312-329 | drops exactly the block's requests, keeps the order of the others, and leaks exactly the open ones |
| Todo.TodoState.Apply | todo.c:92-360 | what every event does to requests and counters; what has leaked from a connected peer's counter never decreases |
| Todo.TodoState.AskAgain | todo.c:345-360 | a peer of whom nothing is awaited can be asked something new if and only if fewer than MAX_REQUESTS have leaked |
| Todo.TodoState.Run | todo.c:92-360 | every step of a run does what its event says; in every run failed bits are asked bits, asked bits name live peers, keys are distinct, counters are at most MAX_REQUESTS and at least the open questions, and exactly those if no block is forgotten; a starved peer is sent nothing until it disconnects; between two polls that send a peer the same request the peer disconnects, the request is answered, or its block is forgotten |
| Todo.StarvedPeer | todo.c:326-327 | a run of asking for shards of blocks that are then forgotten, which starves a peer of whom nothing is awaited, with a question left to ask |
| Difficulty.BeatsTarget | difficulty.h:24-44 | true exactly when the hash, read little-endian, is below mantissa times 256^(exp-3) |
| Difficulty.NormalOrder | difficulty.c:144-147 | comparing exponents, then mantissas, compares targets |
| Difficulty.EncodeRounds | difficulty.c:51-73 | encoding gives a normal form and rounds down by less than one unit of the mantissa |
| Difficulty.EncodeExactly | difficulty.c:51-73 | it gives up exactly on numbers of at most three bytes, and its assertion fails exactly on numbers whose first three bytes are 0xFF |
| Difficulty.DecodeEncode | difficulty.c:21-73 | decoding a normal difficulty and encoding it again gives it back |
| Difficulty.ClampExactly | difficulty.c:117-121 | the time used is the actual one clamped to a quarter and four times the ideal if and only if time does not run backwards |
| Difficulty.RetargetBounds | difficulty.c:117-149 | for any timestamps a retarget stays at or below the genesis target and within a factor of four, up to rounding |
| Difficulty.RetargetExactly | difficulty.c:117-149 | a retarget that gives a difficulty gives the target times the clamped time over the ideal, rounded down to a mantissa, or the genesis difficulty if that is easier than allowed |
| Difficulty.AssertionReached | difficulty.c:69 | at every exponent, a difficulty whose retarget one second late fails the assertion, whatever the genesis block |
| Difficulty.OnSchedule | difficulty.c:132-149 | blocks on schedule leave the difficulty as it was |
| Difficulty.ChainBounds | check_block.c:79-80 | along every accepted chain no target exceeds the genesis target, and each is within a factor of four of the one before, up to rounding |
| Difficulty.BackwardsStaysEasy | difficulty.c:102-121 | a first period that ends before the genesis timestamp leaves the difficulty of Makefile:23 as it is, for every ideal time, where the promised clamp quarters the target |
| Difficulty.RisingTimely | timestamp.c:20-38 | rising timestamps after the genesis block pass check_timestamp, whichever position it takes |
| Difficulty.BackwardsHappens | difficulty.c:102-121 | there is such a chain, with the genesis block of Makefile:23-24, that is accepted block by block and passes check_timestamp |
| Difficulty.EncodeUnique | difficulty.c:51-73 | a number within one unit above a mantissa encodes to that mantissa |
| Difficulty.AssertionHappens | difficulty.c:69 | an accepted chain from that genesis block, passing check_timestamp, after which get_difficulty fails the assertion |
| Difficulty.OneSixteenthBounds | difficulty.c:30-49 | between one and sixteen times the target, exactly sixteen when the mantissa has room |
| Difficulty.OneSixteenthExactly | difficulty.c:30-49 | sixteen times the target, rounded down to the mantissa that is left; only exponent 31 saturates |
| Difficulty.OneSixteenthUsable | difficulty.c:30-49 | beats_target accepts the result unless the exponent was 32 and the mantissa large |
| Difficulty.ChainUsable | recv_block.c:28-29 | it accepts it for every block of an accepted chain whose genesis exponent is at most 31 |
| Difficulty.WorkGrows | difficulty.c:155-180 | total work strictly increases exactly for targets below 2^256 |
| Difficulty.WorkExactly | difficulty.c:155-180 | the work added is 2^256 / (target + 1), rounded down |
| Difficulty.TargetFits | difficulty.h:31-32 | which are all those beats_target accepts |
| Difficulty.HarderIsMoreWork | difficulty.c:155-180 | a smaller target counts for at least as much work |
| Amounts.RewardGivesBackFee | protocol.h:50-55 | the reward computed from a total is the fee that was paid, for every amount |
| Amounts.CorrectAmountExactly | check_tx.c:248-265 | no 32-bit sum wraps on checked transactions: the test accepts if and only if, in integers, inputs equal payment, change and fee |
| Amounts.GatewayAmountSent | tx.c:64-73 | the sum of the outputs modulo 2^32, which is the sum if and only if that is below 2^32 |
| Amounts.GatewayAmountWraps | tx.c:64-73 | eight largest outputs add up to 0 |
| Amounts.CheckTxInputs | check_tx.c:268-327 | the first bad input, else the last unknown one, else whether the 32-bit sums agree, which on checked transactions is whether inputs balance outputs |
| JsmnMachine.ScanStringExactly | jsmn/jsmn.c:86-148 | a string ends at e if and only if whole characters and escapes lead there and a quote follows |
| JsmnInvalid.ScanStringBad | jsmn/jsmn.c:116-142 | a string is bad if and only if whole characters lead to a backslash with no escape after it; at the end of the text it is only cut short |
| JsmnMachine.ScanPrimitiveExactly | jsmn/jsmn.c:37-81 | a primitive ends at the first delimiter, all characters before it printable |
| JsmnInvalid.ScanPrimitiveBad | jsmn/jsmn.c:37-66 | a primitive is bad if and only if a character that is not printable comes before any delimiter |
| JsmnMachine.ParseSound | jsmn/jsmn.c:153-271 | a forest that is returned stands in the text |
| JsmnMachine.TreeParsed | jsmn/jsmn.c:153-271 | a tree that stands in the text is read as one step, whatever is open around it |
| JsmnMachine.ParsesExactly | jsmn/jsmn.c:153-271 | the parser yields a forest if and only if the forest fills the text and its tokens fit |
| JsmnMachine.ReadingUnique | jsmn/jsmn.c:153-271 | a text has at most one reading |
| JsmnMachine.ParseMoreRoom | json.c:208-210 | more tokens change nothing once there are enough |
| JsmnMachine.ParseEnoughRoom | json.c:208-210 | one token for each character is enough |
| JsmnInvalid.InvalidExactly | jsmn/jsmn.c:153-271 | with room, a text is invalid if and only if it reads well up to a place where something stands that offends: a closing bracket that closes nothing or the wrong kind, a character that begins nothing, a bad string or primitive |
| JsmnInvalid.PrefixNotInvalid | json.c:205-207 | no first part of a text that some forest fills is invalid |
| JsmnInvalid.CutBufferExactly | jsmn/jsmn.c:116-142 | a buffer that ends with that first part is invalid if and only if it ends right after the backslash of an escape |
| Jsmn.SuperIsLastOpen | jsmn/jsmn.c:208-227 | toksuper is always the last token without an end |
| Jsmn.Parser.ParsePrimitive | jsmn/jsmn.c:37-81 | one token if there is room, or the error with position and tokens as before |
| Jsmn.Parser.ParseString | jsmn/jsmn.c:86-148 | the same for strings, with cut short and bad told apart; no read goes past the terminating NUL |
| Jsmn.Parser.Open | jsmn/jsmn.c:166-183 | a new open token, counted in the one around it |
| Jsmn.Parser.Close | jsmn/jsmn.c:184-229 | the search finds the innermost open token; it is closed if the bracket matches |
| Jsmn.Parser.JsmnParse | jsmn/jsmn.c:153-271 | on success the tokens are the preorder listing of the forest, sizes are numbers of children, and the count is the number of tokens this call used; after an error it can be resumed with more tokens as if it had had them from the start |
| Json.EveryTokenBegins | json.c:69-78 | every token of a forest begins a tree |
| Json.JsonNext | json.c:69-78 | the first token after the tree |
| Json.JsonGetArr | json.c:95-110 | the element with that index, or nothing past the last |
| Json.JsonGetMember | json.c:80-93 | the token after a matching name inside the object; if names have no children, after the first one that matches, and inside the object if and only if something follows it there |
| Json.TreeUnique | json.c:69-78 | where a tree ends is a matter of the tokens alone |
| Json.ReadExactly | json.c:189-221 | with room, a text is parsed into a forest if and only if the forest fills it |
| Json.JsonParseInput | json.c:189-221 | the doubling loop ends; tokens come back exactly for the texts some forest fills, and they list that forest; valid is false exactly for the texts where something offends, and true for those only cut short |
| Json.MissingValue | json.c:88-90 | for the text with one name and no value the result is the extra token past the object |

## Left out

- Sockets, the poll loop, forking the miner, the block file and the peer cache: plumbing.
- Logging, JSON-RPC commands, the wallet and the gateway programs.
- SHA-256, RIPEMD-160, ECDSA and BIGNUM internals: hashes are free constructors and work is a natural number.
- Difficulty in the block tree: a new block's work is a positive parameter of `AddBlock`; how much it is, is `WorkExactly`, and that it is positive is `WorkGrows` with `TargetFits`.
- `check_timestamp` beyond the time it compares with.
- TX_CLAIM and `reward_get_tx`.
- `recheck_merkles` (chain.c:352-378): its complaint is not implemented in the source, so it changes nothing.
- `json_delve`, `json_get_params` and the functions that write JSON.
- `drop_pending_tx`, `recheck_pending_txs` and the sync and horizon packets.
- Feature votes in `add_tx`: the source starts from 0 and only clears bits, so the vote is always 0.
- StrMap.Add: works on tree values and rebuilds the path; splicing in place and `malloc` failure are not captured.
- StrMap.Del: the same.
- Htable.Htable.constructor: the one-bucket table that aliases perfect_bit is an array of its own; the alias is never followed in the source.
- Json.JsonGetMember: which name is found first is stated for objects whose names have no children; for others only that the name is inside the object.
- Amounts.CheckTxInputs: an output number one past a gateway transaction's outputs (tx.c:12) reads an amount that is not part of this model.
- Chain.ChainState.Run: passes over complaints about the genesis block, after which no good block is left; `PublishComplaint` states what they do.
- Chain.ChainState.ComplaintOnAll: taking the transactions out of the indexes is modelled apart, as `RemoveBlock`.
