# A model of the chain core, the price tables and the debt replay

This project models the parts of the repository whose correctness is not visible from one
function: the vendored chain core of the crawler, and the pieces of the web application
that keep derived data. It proves what they promise over all inputs, runs or schedules.

How the modules belong together:

- `BlockTree` is the tree of hash-linked headers; a store maps each hash to the one header
  that has it. `RawDb` is the key-value database: one map for each kind of key, and batches
  that take effect when written, while reads go to the database. `ForkChoice` is the
  decision between two heads.
- `HeaderChain` and `BlockChain` are the two chains as classes, with the walks, batches and
  loops of the source. `HeaderProofs` and `BlockProofs` hold what is proved about trees,
  paths, difficulties, branches and the transaction index. The class invariants say that
  everything in the database except the stored tree and the head is redundant, and the
  contracts say that it always comes out right.
- `ChainIndexer` is the section indexer; `IndexerProofs` is the same thing as a system of
  atomic steps, in which the canonical map may change in any way between two steps and
  between two comparisons of a rollback, and the process may die between any two writes.
  `StaleReport` runs it on the map that the block chain leaves.
- `GasPool`, `StateTransition` and `StateProcessor` are gas and ether accounting;
  `TransitionProofs` specifies one transaction, `TransactionRules` says in the fields of a
  transaction which are taken and who pays what, and `BalanceProofs` says who can end up in
  debt. The EVM is any function that returns at most the gas it was given and creates no
  ether.
- `HashLookup` is the memoising lookup of block hashes. `PriceView` is the price crawler
  and the aggregator on shared tables, either of which may die at any point. `StableDebt`
  and `AsOfJoin` belong to the debt replay, `DerivationPath`, `PathNotation` and `WhiteSpace` to the
  wallet accounts, `BlockTimes` to the parallel fetch of block times. `Decimal`, `Numbers` and
  `Wrappers` are shared.

What the proofs brought to light:

- A reorganisation to a lower head whose parent is already canonical leaves canonical
  entries above the new head: the branch then has at most one block, the loop that writes
  it does not run, and the deletion starts above the old head
  (`eth_crawler/pkg/000/core/blockchain.go:2051-2082`). `BlockChain.ReorgTo` gives the exact
  condition, `BlockChain.StaleEntry` a run. The transaction index is right even then.
- Such an entry can stop the verification of the section index too early: a section of the
  old chain is then reported below it, and the reorganisation is not announced either,
  because the old head still reads as canonical (`StaleReport.StaleSectionIsReported`, on
  the map of that run). `IndexerProofs.CanonicalExactly` gives the exact condition; a
  report that does not reach above the head of the chain is always right
  (`StaleReport.ReportBelowHead`).
- `GetAncestor` takes the zero hash at a number above the head for canonical and answers
  from the canonical map; `HeaderChain.AncestorOfNothing` is a concrete call.
- With the base fee switched off, a message with zero fees has a negative effective tip:
  the producer pays the base fee, and its balance may go below zero
  (`BalanceProofs.ProducerInDebt`). `BalanceProofs.SafeExactly` gives the exact condition
  on message and block under which no state and no EVM lead to a negative balance, and
  `FreeCallIsSafeExactly` the one on a single call. Nobody but the producer is ever driven
  below zero.
- The access-list part of intrinsic gas has no overflow check and wraps; this cannot happen
  for a message that fits into memory.
- `ray_mul` and `ray_div` keep the half unit that was meant for integer rounding, so every
  product is half a unit too large and a debt grows by half a unit in no time at all. The
  integer versions that are kept as comments round to the nearest, and one is neutral for
  them exactly on amounts that are not negative.
- The event key orders events by block and index exactly if indices have at most six
  digits (`AsOfJoin.SortsRightExactly`, with the one exception of index 10^6 in block 0).
- The empty derivation path prints as `m`, which does not parse. The documentation says
  that whitespace is ignored; the code ignores it around parts and quotes and refuses it
  anywhere else. `WhiteSpace.SpaceIsIgnoredExactly` gives the exact condition,
  `InnerSpaceIsNotIgnored` a path.
- The `replace` option of `insert_price` never replaces anything: the lookup before it
  includes the new value and fails on the unique key first.
- An aggregator that dies after writing prices and before widening its record leaves prices
  outside the record (`PriceView.DeadRunLeavesPrice`); they are right all the same. The
  table is exact on the record exactly if nothing has been written since the last completed
  pass (`PriceView.ExactUntilWritten`).
- `get_block_time` on a single block computes a stretch of zero and starts workers for
  ever; on longer ranges it fetches each boundary block twice and up to one stretch too
  much.
- The last-section report with nothing stored has a block number of 2^64 - 1.

## Model

| member | source | states |
|---|---|---|
| BlockTree.AncestorCompose | eth_crawler/pkg/000/core/headerchain.go:406-438 | walking up in two stages reaches the same ancestor as walking up at once |
| BlockTree.AgreeBelow | eth_crawler/pkg/000/core/headerchain.go:171-183 | two branches that meet at one height agree at every height below it, which is why a backward walk may stop at the first cross link |
| BlockTree.PathKept | eth_crawler/pkg/000/core/headerchain.go:209-260 | a store that keeps everything up to a header keeps the whole path to it |
| BlockTree.CutKeepsTree | eth_crawler/pkg/000/core/headerchain.go:574-645 | deleting everything above a height leaves a parent-closed tree |
| BlockTree.CutIsBelow | eth_crawler/pkg/000/core/headerchain.go:574-645 | what a cut leaves is exactly what lies at or below the height |
| ForkChoice.ReorgNeeded | eth_crawler/pkg/000/core/forkchoice.go:77-108 | fails exactly when one of the two total difficulties is unknown; a heavier header and one past the terminal difficulty always win, and otherwise only a header that is heavier, or equally heavy and not higher, can win |
| ForkChoice.ChoiceFollowsWeight | eth_crawler/pkg/000/core/forkchoice.go:91-106 | the heavier header wins, of two equally heavy ones the lower, then the preserved one; asked both ways round the choice never switches twice unless the coin decides |
| ForkChoice.TiesAreSettled | eth_crawler/pkg/000/core/forkchoice.go:86-108 | with no terminal difficulty reached the heavier header wins, of two equally heavy ones the lower; at equal height the head stays if it is preserved, gives way if only the other one is, and if neither is the draw decides |
| HeaderProofs.WantedByWeight | eth_crawler/pkg/000/core/forkchoice.go:77-108 | without a terminal difficulty a switch never goes to a lighter header and a refusal never leaves a heavier one, whatever the coin says |
| HeaderProofs.WantedInTies | eth_crawler/pkg/000/core/forkchoice.go:77-108 | the same for stored headers, by the difficulties of their paths; from the terminal difficulty on every header is wanted |
| HeaderProofs.ChoiceKeepsHeaviest | eth_crawler/pkg/000/core/forkchoice.go:77-108 | choosing between the head and one attached header leaves a heaviest one of all, for either outcome of the coin |
| HeaderChain.HeaderChain.constructor | eth_crawler/pkg/000/core/headerchain.go:79-113 | a new chain consists of its genesis header, with the difficulty of that header as total difficulty, and satisfies the invariant |
| HeaderProofs.NextAttachable | eth_crawler/pkg/000/core/headerchain.go:217-246 | in a contiguous batch, once one header is new all later ones are, so only the suffix has to be written |
| HeaderProofs.NextHeader | eth_crawler/pkg/000/core/headerchain.go:217-246 | one turn of the import loop: the header attaches, its difficulty is the sum along its path, and a header that was known leaves the store as it is |
| HeaderChain.HeaderChain.QueueImport | eth_crawler/pkg/000/core/headerchain.go:217-246 | the queued batch adds exactly the headers that were not stored, a suffix of the import, with difficulties equal to the sums along their paths |
| HeaderChain.HeaderChain.WriteHeaders | eth_crawler/pkg/000/core/headerchain.go:209-260 | stores the union of old and imported headers, reports exactly the number of new ones, refuses only an unknown parent; every difficulty stays parent difficulty plus own |
| HeaderProofs.WalkBack | eth_crawler/pkg/000/core/headerchain.go:171-183 | off the old path the walk can always go on: the header is not the root and its parent is stored |
| HeaderProofs.UnwindOne | eth_crawler/pkg/000/core/headerchain.go:171-183 | one turn of the walk off the old path finds the stored parent and queues the entry for the header left |
| HeaderProofs.CrossLink | eth_crawler/pkg/000/core/headerchain.go:171-183 | when the backward walk stops at an entry that already agrees, everything below agrees with the new branch too |
| HeaderChain.HeaderChain.QueueWalkBack | eth_crawler/pkg/000/core/headerchain.go:155-183 | the walk terminates without error at the cross link, and what it overwrites plus what it leaves is the path below the first imported header |
| HeaderProofs.ExtendedIsPath | eth_crawler/pkg/000/core/headerchain.go:186-196 | after the imported run has been written on top, the map is exactly the path to its last header |
| HeaderChain.HeaderChain.QueueExtend | eth_crawler/pkg/000/core/headerchain.go:186-196 | from any map that is right below the run, the batch leads to the exact path and the head marker of its last header, although hashes are taken from the next header |
| RawDb.QueueDeleteCanonFrom | eth_crawler/pkg/000/core/headerchain.go:157-163 | the loop that stops at the first gap deletes all entries from a number upwards |
| HeaderChain.HeaderChain.Reorg | eth_crawler/pkg/000/core/headerchain.go:139-203 | extending or switching, the map is afterwards exactly the path to the new head, and no error is possible on a valid chain |
| HeaderChain.HeaderChain.ChooseHead | eth_crawler/pkg/000/core/headerchain.go:286-293 | the decision on stored headers is the fork choice between their path difficulties |
| HeaderChain.HeaderChain.WriteHeadersAndSetHead | eth_crawler/pkg/000/core/headerchain.go:270-306 | new head if and only if the fork choice wants it and it is not already on the path; counts and status of the result; failure changes nothing |
| HeaderChain.HeaderChain.InsertHeaderChain | eth_crawler/pkg/000/core/headerchain.go:375-399 | an import is exactly one step of the abstract chain, reports canonical status exactly when the head moved, and keeps the head a heaviest stored header |
| HeaderProofs.ImportKeepsHeaviest | eth_crawler/pkg/000/core/headerchain.go:270-306 | one import keeps the head a heaviest header and never lowers its difficulty, for either outcome of the coin |
| HeaderProofs.RunKeepsHeaviest | eth_crawler/pkg/000/core/headerchain.go:270-306 | the same over every run of imports from every valid state |
| RawDb.WriteDeletes | eth_crawler/pkg/000/core/headerchain.go:612-640 | a batch of deletions acts as one set difference on each map, so rewinding may queue them in any order |
| HeaderChain.HeaderChain.HeightsAbove | eth_crawler/pkg/000/core/headerchain.go:613-619 | the upward scan that stops at the first empty height finds every occupied height, highest first |
| HeaderProofs.RewoundIsCut | eth_crawler/pkg/000/core/headerchain.go:621-640 | the accumulated deletions cut headers, difficulties and canonical map at the height of the new head |
| HeaderChain.HeaderChain.StepToParent | eth_crawler/pkg/000/core/headerchain.go:583-609 | one round moves the head to its stored parent and writes the marker before anything is deleted |
| HeaderChain.HeaderChain.SetHead | eth_crawler/pkg/000/core/headerchain.go:574-645 | terminates with the head at the canonical header of the target height and nothing of any fork above it, including forks higher than the old head; a target at or above the head changes nothing |
| HeaderProofs.OffPath | eth_crawler/pkg/000/core/headerchain.go:419-434 | each single step from a non-canonical header comes exactly one step closer to the canonical chain |
| HeaderProofs.FirstOnPath | eth_crawler/pkg/000/core/headerchain.go:419-434 | the distance is the number of parent steps after which, and not before, the walk is on the canonical path |
| HeaderChain.HeaderChain.StepsToCanonical | eth_crawler/pkg/000/core/headerchain.go:418-434 | the steps the budget pays for lead to the first canonical header, or to the ancestor if that comes first; a direct parent costs nothing |
| HeaderChain.HeaderChain.GetAncestor | eth_crawler/pkg/000/core/headerchain.go:406-438 | for a stored header the result is the ancestor the plain walk finds, or failure exactly when the budget is below the number of single steps needed, and the budget drops by exactly those steps; for a hash that is not stored, ancestor 0 is the hash itself, and otherwise the call fails, at most one step into the budget, but for the zero hash above the head |
| HeaderChain.AncestorOfNothing | eth_crawler/pkg/000/core/headerchain.go:418-428 | on a new chain, the second ancestor of the zero hash at number 2 is the genesis block |
| BlockChain.BlockChain.constructor | eth_crawler/pkg/000/core/blockchain.go:705-731 | a chain of one block satisfies the invariant exactly, its total difficulty is that of the block, and its head is a heaviest block |
| BlockChain.BlockChain.WriteHeadBlock | eth_crawler/pkg/000/core/blockchain.go:775-796 | the batch makes a block canonical, indexes its transactions and moves all markers, and nothing else |
| BlockProofs.AttachBlock | eth_crawler/pkg/000/core/blockchain.go:1212-1232 | storing a block under a known parent keeps the tree, the difficulties and the path and index of every other block |
| BlockProofs.IndexFinds | eth_crawler/pkg/000/core/blockchain.go:775-796 | the index of a chain has a transaction under a number if and only if the block of that number on the chain holds it |
| BlockChain.BlockChain.WriteBlock | eth_crawler/pkg/000/core/blockchain.go:1212-1232 | fails exactly for an unknown parent and then changes nothing; otherwise adds one block and leaves the canonical map and the index alone |
| BlockChain.BlockChain.FindCommon | eth_crawler/pkg/000/core/blockchain.go:1974-2027 | the walks never fail on a valid store and end at the lowest common ancestor; the dropped transactions are exactly those above it |
| BlockProofs.DifferAbove | eth_crawler/pkg/000/core/blockchain.go:2003-2027 | two paths that differ at a height differ everywhere above, so the first meeting point is the lowest common ancestor |
| BlockProofs.WalkDown | eth_crawler/pkg/000/core/blockchain.go:1974-1992 | the parent of every walked block is stored with its body |
| BlockProofs.DropDown | eth_crawler/pkg/000/core/blockchain.go:1974-1992 | one step down a branch finds the parent with its body and collects exactly the transactions of the block left |
| BlockProofs.NotMetYet | eth_crawler/pkg/000/core/blockchain.go:2003-2027 | two walks at different blocks of one height are not at the root, and their paths differ everywhere above |
| BlockProofs.BranchIsFresh | eth_crawler/pkg/000/core/blockchain.go:2065-2069 | with transactions unique along a chain, none of the dropped ones also occurs below the common ancestor |
| BlockProofs.IndexUpToStart | eth_crawler/pkg/000/core/blockchain.go:2051-2069 | before the new branch is written the index is that of the common ancestor plus only dropped transactions |
| BlockProofs.TxDifference | eth_crawler/pkg/000/core/types/transaction.go:418-433 | keeps exactly the transactions of the first list that do not occur in the second |
| BlockProofs.LongBranch | eth_crawler/pkg/000/core/blockchain.go:2051-2062 | the new branch has two blocks or more exactly when the parent of its head is not on the old path |
| BlockChain.BlockChain.AdoptBranch | eth_crawler/pkg/000/core/blockchain.go:2051-2062 | writes the new branch bottom up except its head, leaving map and index right up to that parent |
| BlockChain.BlockChain.DeleteStale | eth_crawler/pkg/000/core/blockchain.go:2065-2082 | removes the index entries of transactions that were dropped and not added again, and every canonical entry above the current block |
| BlockChain.BlockChain.Reorg | eth_crawler/pkg/000/core/blockchain.go:1962-2100 | afterwards the map is exact for the current block and the index is that of the parent of the new head; side blocks are announced upwards from the common ancestor |
| BlockProofs.FinishReorg | eth_crawler/pkg/000/core/blockchain.go:2051-2082 | after the head itself is written the path is complete and the index is exact although `addedTxs` lacks its transactions; nothing is left above it if and only if the reorganisation was not a short one to a lower head |
| BlockProofs.ExactAfterExact | eth_crawler/pkg/000/core/blockchain.go:2051-2082 | for a map that was exact the condition is that the reorganisation is not a short one |
| BlockChain.BlockChain.ReorgTo | eth_crawler/pkg/000/core/blockchain.go:1962-2082 | `reorg` followed by `writeHeadBlock`: map exact if and only if the new head is not lower than the old one or its parent is off the old path; otherwise the map is that of the old chain with one entry overwritten |
| BlockChain.BlockChain.ExtendTo | eth_crawler/pkg/000/core/blockchain.go:775-796 | a child of the head extends map and index exactly |
| BlockChain.BlockChain.WriteKnownBlock | eth_crawler/pkg/000/core/blockchain.go:1199-1208 | makes any stored block the head; from any valid map it is exact afterwards if and only if the block is a child of the head and nothing was left above it, or is no child and the reorganisation is not a short one |
| BlockChain.BlockChain.ChooseHead | eth_crawler/pkg/000/core/blockchain.go:1310-1314 | the decision is the fork choice between path difficulties |
| BlockChain.BlockChain.WriteBlockAndSetHead | eth_crawler/pkg/000/core/blockchain.go:1306-1331 | whole insertion, from any valid map: which block is head, that its index is exact, that it stays a heaviest block, exactly when the map is exact, and what the map is after a short reorganisation |
| BlockChain.HeavySibling | eth_crawler/pkg/000/core/blockchain.go:2051-2082 | a heavy block beside the first of two light ones is wanted and is a short reorganisation |
| BlockChain.StaleEntry | eth_crawler/pkg/000/core/blockchain.go:2051-2082 | a concrete run after which the head is at height 1 and the map still has the entry of the old chain for height 2 |
| IndexerProofs.SetValidKeeps | eth_crawler/pkg/000/core/chain_indexer.go:479-491 | rolling back keeps the index valid and the remaining heads |
| IndexerProofs.HeadsBelowCanonical | eth_crawler/pkg/000/core/chain_indexer.go:422-431 | on a map linked below it one canonical head makes all lower heads canonical, whatever the map holds above |
| IndexerProofs.CanonicalExactly | eth_crawler/pkg/000/core/chain_indexer.go:422-431 | with a canonical top head, all heads are canonical if and only if every stored section end on the map is reached by as many parent steps as a section has blocks from the next one; parent links up to the top block are enough |
| IndexerProofs.VerifyRollsBack | eth_crawler/pkg/000/core/chain_indexer.go:422-431 | whatever the canonical map does between two comparisons, the rollback removes exactly the heads that were not canonical when they were looked at, down to one that was |
| IndexerProofs.VerifiedIsCanonical | eth_crawler/pkg/000/core/chain_indexer.go:422-431 | all sections left are canonical on the map of the last comparison if and only if they are linked on it; parent links up to the last of their blocks are enough |
| IndexerProofs.VerifyKeepsCanonical | eth_crawler/pkg/000/core/chain_indexer.go:422-431 | on a map that stays the same no canonical section is lost, and only canonical ones survive if and only if those left are linked on it |
| IndexerProofs.StillNext | eth_crawler/pkg/000/core/chain_indexer.go:350-351 | the re-check of the previous head succeeds exactly when nothing below the section was rolled back |
| IndexerProofs.FinishCommits | eth_crawler/pkg/000/core/chain_indexer.go:350-368 | a section is committed if and only if it succeeded and is still the next one, what is known stays, and the cascaded head is its last block; otherwise the index is verified and what is known is reset |
| IndexerProofs.ReadKeeps | eth_crawler/pkg/000/core/chain_indexer.go:397-413 | every successful read extends an unbroken chain of headers from the previous head |
| IndexerProofs.ReadStops | eth_crawler/pkg/000/core/chain_indexer.go:397-413 | a missing hash, a missing header, a wrong parent or a refusal ends the section without a result |
| IndexerProofs.StepKeeps | eth_crawler/pkg/000/core/chain_indexer.go:243-381 | every step of the system, a crash between two writes of a step included, keeps a head for each stored section, linked section by section, and the section in flight built on one of them |
| IndexerProofs.PartialRollback | eth_crawler/pkg/000/core/chain_indexer.go:479-491 | every point of a rollback, and of one rollback after another, is a state the crash of the system allows for: no stored section loses its head |
| IndexerProofs.PartialCommit | eth_crawler/pkg/000/core/chain_indexer.go:350-352 | so is the point between head and count of a commit |
| IndexerProofs.StepKeepsTight | eth_crawler/pkg/000/core/chain_indexer.go:479-491 | without crashes no heads are ever left over above the stored sections |
| IndexerProofs.RunKeepsTight | eth_crawler/pkg/000/core/chain_indexer.go:479-491 | in every state of a run without crashes section heads exist exactly below the stored count |
| IndexerProofs.RunKeeps | eth_crawler/pkg/000/core/chain_indexer.go:243-381 | the same over every run, crashes included |
| IndexerProofs.ReportIsCanonical | eth_crawler/pkg/000/core/chain_indexer.go:434-440 | after any interleaving and any crashes a report ends on a hash that is canonical when it is looked at and has lost only heads that were not; everything reported is canonical on that map if and only if its sections are linked there, and parent links up to the last reported block are enough; heads left over by a crash never get into it |
| IndexerProofs.QuietReport | eth_crawler/pkg/000/core/chain_indexer.go:434-440 | a report that nothing disturbs misses no canonical section, and names only canonical ones if and only if what it names is linked on the map |
| IndexerProofs.BeginIsCanonical | eth_crawler/pkg/000/core/chain_indexer.go:320-337 | no section is ever begun on a head that is not canonical when it is looked at; those below it are canonical if and only if they are linked on the map then |
| IndexerProofs.AnnouncedKeeps | eth_crawler/pkg/000/core/chain_indexer.go:248-281 | an announced reorganisation keeps exactly the sections, stored or known, that end at or below the common ancestor |
| IndexerProofs.AnnouncedCascade | eth_crawler/pkg/000/core/chain_indexer.go:248-274 | and lowers the head that children were told of to the end of the last of them, if it is above |
| IndexerProofs.EndIsKept | eth_crawler/pkg/000/core/chain_indexer.go:248-274 | a section that ends at the ancestor itself is kept, in an example of two sections |
| IndexerProofs.AnnouncedHead | eth_crawler/pkg/000/core/chain_indexer.go:276-298 | an announced head makes known exactly the sections that end the required number of confirmations below it |
| IndexerProofs.AnnouncedReorg | eth_crawler/pkg/000/core/chain_indexer.go:248-281 | and those are canonical on the new chain without being verified |
| IndexerProofs.SectionIsRead | eth_crawler/pkg/000/core/chain_indexer.go:397-413 | a section taken up on a canonical head of a complete linked chain is read to its last block |
| IndexerProofs.SectionIsStored | eth_crawler/pkg/000/core/chain_indexer.go:348-369 | a section read to its end and accepted is stored if nothing was rolled back meanwhile |
| IndexerProofs.SectionIsIndexed | eth_crawler/pkg/000/core/chain_indexer.go:317-381 | left alone on a complete linked chain the indexer commits the canonical head of the next section |
| ChainIndexer.ChainIndexer.constructor | eth_crawler/pkg/000/core/chain_indexer.go:471-476 | a process starts from the stored count and knows nothing yet |
| ChainIndexer.ChainIndexer.SetValidSections | eth_crawler/pkg/000/core/chain_indexer.go:479-491 | the loop removes exactly the heads from the new count up |
| ChainIndexer.ChainIndexer.VerifyLastHead | eth_crawler/pkg/000/core/chain_indexer.go:422-431 | the loop is the rollback of the system, with the canonical map read again at each comparison |
| ChainIndexer.ChainIndexer.NewHead | eth_crawler/pkg/000/core/chain_indexer.go:243-298 | an announcement is the step of the system |
| ChainIndexer.ChainIndexer.Sections | eth_crawler/pkg/000/core/chain_indexer.go:434-440 | reports the verified sections; with none stored the block number wraps to the largest 64-bit number and the hash is zero, unless one is stored for the section of that number |
| ChainIndexer.ChainIndexer.BeginUpdate | eth_crawler/pkg/000/core/chain_indexer.go:317-337 | takes up work exactly if more is known than stored, on the verified top head |
| ChainIndexer.ChainIndexer.ProcessSection | eth_crawler/pkg/000/core/chain_indexer.go:388-417 | succeeds exactly when reset, every read and the commit succeed and all parents match; then the result ends a whole section over the given head |
| ChainIndexer.ChainIndexer.EndUpdate | eth_crawler/pkg/000/core/chain_indexer.go:348-369 | commits or starts over as the system does |
| ChainIndexer.TurnIsRead | eth_crawler/pkg/000/core/chain_indexer.go:397-413 | one turn of the processing loop is the read step of the system |
| StaleReport.StaleSectionIsReported | eth_crawler/pkg/000/core/chain_indexer.go:214-231 | a run from an empty index, on the map a short reorganisation leaves, after which a report names a section that is not canonical; the reorganisation is not announced |
| StaleReport.ChainLeavesStaleMap | eth_crawler/pkg/000/core/blockchain.go:2051-2082 | the block chain does leave that map |
| StaleReport.ChainIsLinked | eth_crawler/pkg/000/core/blockchain.go:775-796 | the map of a valid block chain is linked up to its head, whatever is left above |
| StaleReport.ReportBelowHead | eth_crawler/pkg/000/core/chain_indexer.go:422-431 | on such a map a verified index that does not reach above the head is canonical throughout |
| GasPool.GasPool.AddGas | eth_crawler/pkg/000/core/gaspool.go:29-35 | adds, or panics exactly above 64 bits and changes nothing |
| GasPool.GasPool.SubGas | eth_crawler/pkg/000/core/gaspool.go:39-45 | takes gas exactly if there is enough |
| TransitionProofs.DivisionTest | eth_crawler/pkg/000/core/state_transition.go:139-150 | the overflow test by division is exact |
| TransitionProofs.IntrinsicDoesNotWrap | eth_crawler/pkg/000/core/state_transition.go:118-157 | for messages that fit into memory intrinsic gas is the unbounded sum and at least the base price, although the access list part is unchecked |
| TransitionProofs.Wraps | eth_crawler/pkg/000/core/state_transition.go:152-155 | 64 bits keep smaller numbers, and 2^64 makes no difference |
| StateTransition.IntrinsicGas | eth_crawler/pkg/000/core/state_transition.go:118-157 | the 64-bit loop computes that price, failing exactly when the data overflow |
| TransactionRules.IntrinsicInNumbers | eth_crawler/pkg/000/core/state_transition.go:118-157 | intrinsic gas in numbers: 21000 or 53000, 4 for a zero byte and 16 or 68 for another, 2400 for an address and 1900 for a key |
| StateTransition.StateTransition.BuyGas | eth_crawler/pkg/000/core/state_transition.go:192-212 | which error, in which order; gas and balance are taken together or not at all |
| StateTransition.StateTransition.PreCheck | eth_crawler/pkg/000/core/state_transition.go:214-259 | which check fails first, and that a failure changes nothing |
| StateTransition.StateTransition.RefundGas | eth_crawler/pkg/000/core/state_transition.go:356-371 | the refund is capped, the sender is paid back, and the pool panics only above 64 bits |
| StateTransition.StateTransition.TransitionDb | eth_crawler/pkg/000/core/state_transition.go:275-354 | the method does what the specification says, and the pool cannot panic |
| TransitionProofs.TransferConserves | eth_crawler/pkg/000/core/evm.go:121-124 | a transfer moves ether without creating any, to the sender itself too |
| TransitionProofs.PriceSplits | eth_crawler/pkg/000/core/state_transition.go:343-347 | the price splits into base fee and effective tip; the tip is non-negative exactly when the cap covers the base fee |
| TransitionProofs.EtherIsConserved | eth_crawler/pkg/000/core/state_transition.go:275-371 | a successful transaction lowers the sum of all balances by exactly gas used times base fee, plus what the EVM burns |
| TransitionProofs.SettledBalances | eth_crawler/pkg/000/core/state_transition.go:336-371 | at the end the sender is paid for the gas left, the producer for the gas used, and nobody else anything |
| TransitionProofs.CallsDoNotReplay | eth_crawler/pkg/000/core/state_transition.go:216-228 | a message that has run as a call fails with a low nonce ever after, provided the EVM never lowers nonces |
| TransitionProofs.TransferCheckIsRedundant | eth_crawler/pkg/000/core/state_transition.go:315-318 | with a fee cap the check of the transfer cannot fail once gas has been bought |
| TransitionProofs.SucceedsExactly | eth_crawler/pkg/000/core/state_transition.go:275-318 | a message with a fee cap succeeds if and only if it passes the checks and funds, pool and gas suffice |
| TransitionProofs.TransferCheckWithoutCap | eth_crawler/pkg/000/core/state_transition.go:192-205 | without a cap the transfer is affordable after buying gas exactly if the balance also covered the value, which is not asked for |
| BalanceProofs.NobodyGoesNegative | eth_crawler/pkg/000/core/state_transition.go:192-212 | no balance goes below zero, unless the message is a free call and the base fee that is switched off is positive |
| BalanceProofs.OnlyProducerGoesNegative | eth_crawler/pkg/000/core/state_transition.go:336-371 | no address but the producer is ever driven below zero, the sender included, by free calls too |
| BalanceProofs.CheckedCoversBaseFee | eth_crawler/pkg/000/core/state_transition.go:236-257 | passing the checks means the cap covers the base fee, or it is such a free call |
| BalanceProofs.FreeCallCostsProducer | eth_crawler/pkg/000/core/state_transition.go:343-347 | a free call takes the base fee for all gas used out of the producer's balance, whoever sends it |
| BalanceProofs.FreeCallIsSafeExactly | eth_crawler/pkg/000/core/state_transition.go:343-347 | a successful free call leaves no balance negative if and only if what the EVM leaves to the producer covers the base fee for all gas used |
| BalanceProofs.UnpaidIsUnsafe | eth_crawler/pkg/000/core/state_transition.go:236-257 | whenever a free call at a positive base fee can succeed at all, there are a world and a sound EVM that leave the producer in debt |
| BalanceProofs.SafeExactly | eth_crawler/pkg/000/core/state_transition.go:236-257 | no world, pool or sound EVM leads to a negative balance if and only if the message is not a free call, or the base fee is zero, or its nonce and gas limit keep it from using gas in any state |
| BalanceProofs.ProducerInDebt | eth_crawler/pkg/000/core/state_transition.go:343-347 | a concrete free call: 21000 gas at base fee 7 on an empty world leaves the producer at -147000 |
| TransitionProofs.GasIsAccountedFor | eth_crawler/pkg/000/core/state_transition.go:356-376 | gas used and gas left in the pool add up to what was there; refunds leave at least four fifths (half before London) of the intrinsic gas used |
| TransitionProofs.RefundExactly | eth_crawler/pkg/000/core/state_transition.go:356-361 | the refund is the whole counter as long as it is at most a fifth of the gas spent (half of it before London), and otherwise just that share |
| StateProcessor.AsMessage | eth_crawler/pkg/000/core/types/transaction.go:594-614 | the price is the fee cap, or with a base fee the smaller of cap and tip plus base fee; fails exactly without a valid sender |
| TransactionRules.MessageOf | eth_crawler/pkg/000/core/types/transaction.go:594-614 | the message carries the fields of the transaction; its price is the tip on top of the base fee as far as the cap allows, or the fixed price |
| TransactionRules.RunsExactly | eth_crawler/pkg/000/core/state_transition.go:214-318 | a block takes a transaction if and only if its sender is valid with that nonce and no code, its caps are in order and cover the base fee, and funds, pool and gas limit suffice |
| TransactionRules.TransactionPays | eth_crawler/pkg/000/core/state_transition.go:275-371 | in the fields of the transaction: the state the EVM gets, gas used after the refund, what sender and producer end up with, nobody else anything, and pool, counters and receipt |
| TransactionRules.RefusedFor | eth_crawler/pkg/000/core/state_transition.go:214-234 | which nonce or sender is refused with which error, without a trace |
| TransactionRules.RefusedForFunds | eth_crawler/pkg/000/core/state_transition.go:192-206 | the funds asked for, with and without a fee cap, and then the pool, without a trace |
| TransactionRules.RefusedLate | eth_crawler/pkg/000/core/state_transition.go:299-318 | failures after gas has been bought, which leave it bought |
| StateProcessor.ApplyTransaction | eth_crawler/pkg/000/core/state_processor.go:95-139 | one transaction: receipt, cumulative counter, pool and state |
| StateProcessor.Process | eth_crawler/pkg/000/core/state_processor.go:59-93 | the loop computes the specification of a block, failing with the first failing transaction |
| StateProcessor.OneMoreTransaction | eth_crawler/pkg/000/core/state_processor.go:59-93 | a block starts with the whole gas limit, and its last transaction is run on what those before it have led to |
| StateProcessor.FailureStays | eth_crawler/pkg/000/core/state_processor.go:79-89 | the first error decides the block |
| StateProcessor.GasAddsUp | eth_crawler/pkg/000/core/state_processor.go:59-93 | after every prefix pool plus used gas is the gas limit, and each cumulative receipt is the prefix sum; no counter wraps |
| StateProcessor.EtherAddsUp | eth_crawler/pkg/000/core/state_processor.go:59-93 | over every prefix ether disappears only as base fee times gas used and by burning |
| StateProcessor.BalancesStayNonNegative | eth_crawler/pkg/000/core/state_processor.go:59-93 | if no transaction is a free call at a positive base fee, no balance is ever negative between transactions |
| StateProcessor.BlocksAreBounded | eth_crawler/pkg/000/core/state_processor.go:59-93 | every transaction uses at least 16800 gas after London (10500 before), so that a block holds at most its limit divided by that |
| HashLookup.WalkGrows | eth_crawler/pkg/000/core/evm.go:101-111 | headers added later never change an answer that was found |
| HashLookup.WalkFurther | eth_crawler/pkg/000/core/evm.go:101-111 | one header further down is one parent step of the fresh walk |
| HashLookup.WalkFindsAncestor | eth_crawler/pkg/000/core/evm.go:81-112 | in a complete tree the fresh walk finds the ancestor |
| HashLookup.CacheSurvives | eth_crawler/pkg/000/core/evm.go:84-86 | the cache stays right while headers are added |
| HashLookup.CacheGrows | eth_crawler/pkg/000/core/evm.go:101-107 | each appended hash is the next ancestor, and past genesis a zero |
| HashLookup.MinusWraps | eth_crawler/pkg/000/core/evm.go:86-99 | differences of 64-bit numbers are right up to 2^64 |
| HashLookup.HashLookup.GetHash | eth_crawler/pkg/000/core/evm.go:86-112 | every query, after any queries and failures, answers as a fresh walk would; from the reference number up the answer is zero although the index wraps |
| PriceView.TotalsOfSameRows | oracleWeb/datavisualization/views.py:91-94 | the average of a block depends only on its rows, not on their order or on other rows |
| PriceView.TotalsAdd | oracleWeb/datavisualization/views.py:91-94 | rows are counted and summed one by one |
| PriceView.MeanIsBetween | oracleWeb/datavisualization/views.py:91-94 | the mean times the number of rows is their sum, and it lies between the smallest and the largest |
| PriceView.MeanOfTwo | oracleWeb/datavisualization/views.py:91-94 | the mean of two rows lies halfway between them |
| PriceView.WindowIsComplete | oracleWeb/datastorage/views.py:688-720 | a window whose rows are all in leaves no gap behind it |
| PriceView.WindowCatchesUp | oracleWeb/datastorage/views.py:688-720 | an undisturbed window moves the summary on to the head or by 20000 blocks, with all logs up to there |
| PriceView.InsertNeverFails | oracleWeb/datastorage/views.py:258-288 | on logs with one value each the unique key is never violated |
| PriceView.WriteIsExact | oracleWeb/datavisualization/views.py:64-123 | stored prices and new means together cover the summary exactly, whatever passes that died have left |
| PriceView.StepKeeps | oracleWeb/datavisualization/views.py:37-123 | every step of crawler or aggregator keeps the invariant, either dying at any point included |
| PriceView.RunKeeps | oracleWeb/datavisualization/views.py:37-123 | the same over every interleaving, with either loop dying any number of times |
| PriceView.ViewIsRight | oracleWeb/datavisualization/views.py:119-123 | in every state every stored price is the mean of a block whose rows are complete, every recorded block with rows has a price, and nothing is recorded that is not complete |
| PriceView.PriceIsMeanOfLogs | oracleWeb/datavisualization/views.py:89-107 | in every state the price of a block is the mean of all its logs, and a recorded block with logs has one |
| PriceView.PriceIsBetweenLogs | oracleWeb/datavisualization/views.py:89-107 | in every state the price of a block, times the number of its logs, is their sum, and lies in their range |
| PriceView.StepKeepsTidy | oracleWeb/datavisualization/views.py:108-123 | a completed pass makes the table exactly the recorded interval, and every step but a pass that dies with prices to write keeps it so |
| PriceView.ExactUntilWritten | oracleWeb/datavisualization/views.py:108-123 | in any state, whichever loop died and wherever, the table is exact on the record if and only if no price was written since the last completed pass |
| PriceView.ViewIsExact | oracleWeb/datavisualization/views.py:108-123 | from a completed pass on the table is exact on the recorded interval whenever no pass is at work, until one dies |
| PriceView.DeadPassLeavesPrices | oracleWeb/datavisualization/views.py:108-123 | in every reachable state in which a pass has written its prices and not its record there are prices outside the record, so dying there always leaves the table inexact |
| PriceView.DeadRunLeavesPrice | oracleWeb/datavisualization/views.py:108-123 | a concrete run: two new blocks, and the pass dies after writing the price of the first |
| PriceView.PassCatchesUp | oracleWeb/datavisualization/views.py:119-123 | an undisturbed pass that finds anything new records the whole summary and makes the table exact, whatever passes that died have left |
| PriceView.PriceTables.InsertPrice | oracleWeb/datastorage/views.py:258-288 | adds a row unless it is there, and fails exactly on a different value for the same log, with and without the option to replace |
| PriceView.PriceTables.NextWindow | oracleWeb/datastorage/views.py:688-703 | there is a next window exactly if the chain has moved on; it starts at the end of the last and ends at the head or 20000 blocks later |
| PriceView.PriceTables.BlockMeans | oracleWeb/datavisualization/views.py:64-107 | the query and grouping loops compute the means of exactly the selected blocks |
| PriceView.PriceTables.BlockGranularityUpdate | oracleWeb/datavisualization/views.py:37-123 | from any prices that are right a pass makes the table exact on the record, and catches up if there is anything new |
| StableDebt.RayMulAddsHalf | oracleWeb/debtmonitor/debt_function.py:45-50 | a ray product is half a unit too large |
| StableDebt.ScaledRoundTrip | oracleWeb/debtmonitor/debt_function.py:50-51 | scaling down and up again drifts by (index/RAY + 1)/2 |
| StableDebt.IntRayIsNearest | oracleWeb/debtmonitor/debt_function.py:48-49 | on integers products and quotients are rounded to the nearest, halves up |
| StableDebt.RayIsNeutralOnIntegers | oracleWeb/debtmonitor/debt_function.py:46-50 | multiplying by one ray changes nothing on integers, exactly for amounts that are not negative, and always changes a real amount |
| StableDebt.IntScaledRoundTrip | oracleWeb/debtmonitor/debt_function.py:48-49 | on integers scaling down and up again drifts by at most (index/RAY + 1)/2, which on reals it always does |
| StableDebt.YearlyRate | oracleWeb/debtmonitor/debt_function.py:44-47 | rates are per year of 365 days, in units of 10^-27 |
| StableDebt.FactorIsExpansion | oracleWeb/debtmonitor/debt_function.py:151-160 | the factor is the first four binomial terms plus the two half-unit roundings, exactly |
| StableDebt.ExpansionAccuracy | oracleWeb/debtmonitor/debt_function.py:151-160 | the four terms never exceed the true power and fall short of it by at most the next term times the power |
| StableDebt.FactorBounds | oracleWeb/debtmonitor/debt_function.py:151-160 | the factor is at least 1 + nx and at most (1+x)^n plus [n(n-1)/4 + n(n-1)(n-2)(1+x)/12]/RAY, and close to it from below |
| StableDebt.FactorGrows | oracleWeb/debtmonitor/debt_function.py:151-160 | the factor never decreases with time |
| StableDebt.BalanceGrows | oracleWeb/debtmonitor/debt_function.py:146-164 | the balance grows at least by simple interest and half a unit, and by exactly half a unit in no time |
| StableDebt.YearOfInterest | oracleWeb/debtmonitor/debt_function.py:146-164 | a debt of 1000 at ten per cent is above 1100 after a year |
| Decimal.IntOfStr | oracleWeb/debtmonitor/debt_function.py:52 | reading a printed number gives it back |
| Decimal.DigitsInOrder | oracleWeb/debtmonitor/debt_function.py:52 | the digits are the characters from zero to nine, in order |
| AsOfJoin.KeyValue | oracleWeb/debtmonitor/debt_function.py:52 | the pasted key is the block shifted by six digits, or by more if the index is longer, plus the index |
| AsOfJoin.KeyIsPositional | oracleWeb/debtmonitor/debt_function.py:52 | it is block times 10^6 plus index if and only if the index is below 10^6 (or the block is 0) |
| AsOfJoin.KeyInNumbers | oracleWeb/debtmonitor/debt_function.py:52 | up to index 999999 the key is a million times the block plus the index |
| AsOfJoin.KeyOrders | oracleWeb/debtmonitor/debt_function.py:52 | below that bound keys order events by block and index, and tell them apart |
| AsOfJoin.LongIndexOvertakes | oracleWeb/debtmonitor/debt_function.py:52 | an index of more than six digits sorts after the first event of the next block, but for index 10^6 of block 0 |
| AsOfJoin.SortsRightExactly | oracleWeb/debtmonitor/debt_function.py:52 | an event sorts before every later event with an index of at most six digits if and only if its own index has at most six digits, or it is index 10^6 of block 0 |
| AsOfJoin.SevenDigitsBreakTheOrder | oracleWeb/debtmonitor/debt_function.py:52 | with a seven-digit index an earlier event sorts after a later one |
| AsOfJoin.IdxMaxIsMax | oracleWeb/debtmonitor/views.py:733-734 | the grouped maximum is a row of the group that no row beats |
| AsOfJoin.IdxMaxIsFirst | oracleWeb/debtmonitor/views.py:733-734 | of several rows with the largest key the first is taken |
| AsOfJoin.JoinIsLookup | oracleWeb/debtmonitor/views.py:679-734 | merge, filter and grouped maximum keep exactly the row that filter, sort and last would find; interactions without an earlier state drop out exactly where the lookup has no row |
| AsOfJoin.JoinIsLatest | oracleWeb/debtmonitor/views.py:679-734 | the join keeps, by block and index, the latest state of the reserve at or before the interaction |
| AsOfJoin.NothingToJoin | oracleWeb/debtmonitor/views.py:679-734 | without an earlier state of the reserve there is no row |
| DerivationPath.PartsAreRead | eth_crawler/pkg/000/accounts/hd.go:91-116 | a list of parts is accepted if and only if each part is, and each level is what its part is read as |
| DerivationPath.AcceptedExactly | eth_crawler/pkg/000/accounts/hd.go:68-117 | a path is accepted if and only if its first part is not blank, there is a level, and every level is readable; the result is the root followed by the levels as read, all 32-bit |
| DerivationPath.ParseDerivationPath | eth_crawler/pkg/000/accounts/hd.go:68-117 | the loop computes the parser specification, stopping at the first bad part |
| DerivationPath.String | eth_crawler/pkg/000/accounts/hd.go:122-136 | the loop prints the canonical notation |
| DerivationPath.NumberRoundTrip | eth_crawler/pkg/000/accounts/hd.go:100-104 | a printed number is read in base ten, never as octal |
| DerivationPath.PrefixedRoundTrip | eth_crawler/pkg/000/accounts/hd.go:100-104 | a number printed in base 16, 8 or 2 behind its prefix is read in that base |
| DerivationPath.OctalRoundTrip | eth_crawler/pkg/000/accounts/hd.go:100-104 | behind a single leading zero it is read as octal |
| DerivationPath.ComponentRoundTrip | eth_crawler/pkg/000/accounts/hd.go:91-113 | every level, hardened or not, is read back |
| DerivationPath.RoundTrip | eth_crawler/pkg/000/accounts/hd.go:68-136 | parsing a printed path gives it back if and only if it is not empty |
| DerivationPath.Normalised | eth_crawler/pkg/000/accounts/hd.go:68-136 | printing and parsing what was accepted changes nothing |
| DerivationPath.PrintIsInjective | eth_crawler/pkg/000/accounts/hd.go:122-136 | different paths print differently |
| DerivationPath.RelativeIsBelowRoot | eth_crawler/pkg/000/accounts/hd.go:72-90 | a relative path is the default root followed by the levels of the same absolute path |
| PathNotation.QuoteHardens | eth_crawler/pkg/000/accounts/hd.go:95-113 | a quote adds 2^31 to a number below 2^31, and makes any other an error |
| PathNotation.PlainLevel | eth_crawler/pkg/000/accounts/hd.go:100-113 | without a quote every number below 2^32 is a level |
| PathNotation.QuoteIsPrinted | eth_crawler/pkg/000/accounts/hd.go:122-136 | a level is printed with a quote exactly from 2^31 on |
| PathNotation.DefaultRoot | eth_crawler/pkg/000/accounts/hd.go:31 | the default root is `m/44'/60'/0'/0` |
| PathNotation.HexNumbers | eth_crawler/pkg/000/accounts/hd.go:100-104 | 44 in hexadecimal |
| PathNotation.OctalNumbers | eth_crawler/pkg/000/accounts/hd.go:100-104 | 44 in both notations of octal |
| PathNotation.BinaryNumbers | eth_crawler/pkg/000/accounts/hd.go:100-104 | 3 in binary |
| PathNotation.UnderscoreBetween | eth_crawler/pkg/000/accounts/hd.go:100-104 | an underscore may stand between digits and behind the zero of an octal number |
| PathNotation.UnderscoreElsewhere | eth_crawler/pkg/000/accounts/hd.go:100-104 | it may not stand in front, behind, or twice |
| PathNotation.Signs | eth_crawler/pkg/000/accounts/hd.go:100-106 | a sign may stand in front and counts |
| PathNotation.SpaceCodes | eth_crawler/pkg/000/accounts/hd.go:91-99 | which code points are white space |
| WhiteSpace.SplitOfStripped | eth_crawler/pkg/000/accounts/hd.go:72 | splitting at slashes and removing white space can be exchanged |
| WhiteSpace.SpaceBreaksNumber | eth_crawler/pkg/000/accounts/hd.go:100-104 | no string with white space in it is a number, in any base |
| WhiteSpace.PartIgnoresOuterSpace | eth_crawler/pkg/000/accounts/hd.go:91-104 | an accepted part has white space only around number and quote, and such white space makes no difference |
| WhiteSpace.OuterSpaceIsIgnored | eth_crawler/pkg/000/accounts/hd.go:63-104 | a path with white space only around parts and quotes is parsed, or refused, as it is without |
| WhiteSpace.AcceptedIgnoresSpace | eth_crawler/pkg/000/accounts/hd.go:63-67 | every accepted path parses to the same with all white space removed |
| WhiteSpace.SpaceIsIgnoredExactly | eth_crawler/pkg/000/accounts/hd.go:63-67 | a path is accepted if and only if it is accepted without white space and has it only around parts and quotes |
| WhiteSpace.InnerSpaceIsNotIgnored | eth_crawler/pkg/000/accounts/hd.go:63-67 | `m/4 4` is refused although `m/44` is a path |
| BlockTimes.FewWorkers | eth_crawler/main.go:547-553 | never more than eleven workers are started |
| BlockTimes.StretchIsTenth | eth_crawler/main.go:537-547 | ten stretches cover the range and shorter ones would not; the channel holds twenty results |
| BlockTimes.SendNeverBlocks | eth_crawler/main.go:540-551 | in every reachable state a worker with a result can send it at once |
| BlockTimes.NoDeadlock | eth_crawler/main.go:540-558 | until main has returned some step is possible |
| BlockTimes.StepKeeps | eth_crawler/main.go:546-604 | every step keeps every result in exactly one place: worker, channel or collection |
| BlockTimes.EverySchedule | eth_crawler/main.go:537-558 | every schedule is bounded, blocks no send and stops only when main has returned |
| BlockTimes.CollectedBlocks | eth_crawler/main.go:547-558 | the result holds every block of the range, at most one stretch more, boundary blocks twice and all others once |
| BlockTimes.SingleBlockNeverEnds | eth_crawler/main.go:547-553 | on a single block main starts workers for ever |
| BlockTimes.ReversedRangeIsEmpty | eth_crawler/main.go:547-558 | on a reversed range nobody is started and the result is empty |
| BlockTimes.GetMultipleBlockInfo | eth_crawler/main.go:573-605 | a worker fetches exactly its stretch, both ends included |
| BlockTimes.StartWorkers | eth_crawler/main.go:547-553 | the loop ends for every range but a single block, with adjoining stretches that pass the end |

## Left out

- Caches (headers, numbers, difficulties, blocks): transparent, so not modelled.
- Ancient store, state tries, snapshots, receipts, logs and events other than the announced side blocks: pure storage or notification.
- Interrupted header imports (`procInterrupt`): a batch that is never written changes nothing.
- Head selection with a terminal total difficulty: the decision is modelled, but the statements about difficulty are only made without it.
- `SetHead` with update or delete callbacks, and its fallback to the genesis header: the first call back into the block chain, the second does not occur on a parent-closed store.
- HeaderChain.HeaderChain.constructor: starts a new chain; picking up the head marker of an existing database is not modelled.
- BlockChain.BlockChain.constructor: starts a new chain; rewinding an existing one to its genesis block first is not modelled.
- BlockChain.BlockChain.WriteBlock: receipts, preimages and the commit of the state, which may fail, are not modelled.
- HeaderChain.HeaderChain.GetAncestor: the canonical hash is read twice in the source to notice a concurrent change; here nothing runs in between, so one read stands for both.
- ChainIndexer.ChainIndexer.NewHead: block numbers are unbounded, where the source adds one in 64 bits; checkpoints and children are fixed to none.
- `eventLoop` of the indexer: announcements of any head or ancestor may come at any time instead.
- The update channel of the indexer: an update may begin whenever more is known than stored, which allows every schedule the channel allows.
- ChainIndexer.ChainIndexer.VerifyLastHead: no checkpoint bounds the rollback.
- ChainIndexer.ChainIndexer.EndUpdate: does not notify child indexers, and does not return early when the indexer is shut down.
- The unlocked rollback when a backend refuses a section is one atomic step; a data race inside it is not modelled.
- ChainIndexer.ChainIndexer.Sections: assumes that the block count of all stored sections fits into 64 bits.
- EVM execution, signatures and hashing: abstract. A creation raises the nonce inside the EVM.
- Total ether is summed over all accounts; that the EVM neither creates ether nor returns more gas than it got is an assumption about it, as is that it never lowers a nonce where that is used.
- Tracing, access-list preparation, DAO fork, block rewards and the removal of empty accounts: no effect on gas or on the sums of balances before rewards.
- StateProcessor.ApplyTransaction: a receipt holds gas and status; logs, their bloom filter and the address of a created contract are not modelled.
- StateProcessor.Process: logs, the DAO fork and the rewards added at the end of a block are not modelled.
- `IsFake` messages keep a nonce of any value; fees and caps are non-negative, as decoding guarantees.
- HashLookup.HashLookup.GetHash: assumes that genesis headers have a zero parent and that nothing is stored under the zero hash.
- Price tables: several pairs, thread start and stop, manual ranges and manual summary refresh; one pair's tables suffice for the invariant. Rows up to the end of the summary are assumed complete at the start, and one aggregator runs at a time.
- PriceView.PriceTables.InsertPrice: the row of the block-number table, which a price only refers to, is not modelled.
- PriceView.PriceTables.BlockGranularityUpdate: manual ranges from the request are not modelled.
- StableDebt.IntRayMul: divides exactly, where the comment in the source divides in floating point before it truncates.
- Price and debt values are reals; floating-point rounding is not modelled.
- The rest of the debt replay (ledger dictionaries, health factors, liquidation rows) and everything statistical: opaque libraries or plain bookkeeping.
- AsOfJoin.JoinIsLookup: liquidation rows, which get a placeholder reserve and a lookup of their own, are not modelled.
- BlockTimes.GetMultipleBlockInfo: which blocks are fetched, without their timestamps; a fetch that fails is not modelled.
- Number parsing follows Go's rules for base zero (sign, `0b`, `0o`, `0x`, leading zero for octal, single underscores); math/big itself is not part of this model.
- Path iterators and JSON marshalling of derivation paths: one-line wrappers.
- BlockTimes.CollectedBlocks: a fetch that fails ends the process in the source and is not modelled; timestamps are carried along with the numbers and left out. The stretch is computed exactly, where the source divides in floating point, which agrees below 2^50.
- RPC clients, CSV writers, Django views, templates and charts: no claims to prove.
