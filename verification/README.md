# Verified model of a Bitcoin full node's core

A Dafny model of the consensus state and the data structures of the node, with
proofs of what they are relied upon for. `dafny verify dfyconfig.toml` checks
everything. Classes stand for what the program updates in place, functions on
plain values for what those classes mean, and lemmas for the promises.

**Coins and chain state** (`Coins`, `CoinsCache`, `CacheStack`, `Ledger`,
`LedgerUndo`, `LedgerRedo`, `LedgerStored`, `Supply`, `Validation`, `ChainState`,
`History`, `Storage`). `Ledger` gives the rules for connecting and disconnecting a
block on a plain txid-to-coins map. `CoinsCache` has the write-back caches with their DIRTY and
FRESH flags, stacked over a database to any depth; its methods are proved to act
on the plain map that the stack stands for. `Validation` runs the node's checks
and updates on such a cache and is proved to follow the rules exactly.
`LedgerUndo` shows that disconnecting undoes connecting, `LedgerRedo` that whatever
disconnects cleanly connects again, `Supply` that no block mints more than its
subsidy. Storage loses part of a negative version:
`LedgerStored` shows that nothing depends on it, and exactly when it shows. In
`ChainState` all of this meets: whatever was connected, disconnected, flushed or
refused, the coins are those of the active chain alone, but for negative versions
that went through storage, and their value is at most what its subsidies come to.
`History` tells from the transactions of a chain alone which outputs are unspent and
what may come next, and shows that the coins map says exactly that: spends are of
unspent outputs, coinbases mature, and no output is spent twice. `Storage` shows
that what is read back there is what the byte formats give.

**Script-check queue** (`CheckQueue`). A step relation over one master and any
number of workers, one step for each critical section. Every verdict is right in
every interleaving, neither the master nor the workers are left asleep while there is
work, the queue is idle between rounds, and a wait is bounded by a measure.

**Partial Merkle trees** (`MerkleTree`, `MerkleProofs`, `MerkleSizes`,
`MerkleBlock`). The encoding of section "Partial Merkle branch format" of BIP 37
with its round trip through packed bytes, its exact size, soundness for whatever a
peer may send, and the refusal of trees with twins and of anything left over.

**Block tree** (`SkipSteps`, `ChainIndex`, `BlockTree`). Skip pointers and how far
they lead, the indexed active chain and locators; and the counting of blocks whose
data arrives in any order.

**Address manager** (`AddrBook`, `AddrSteps`, `AddrMan`, `AddrCheck`, `AddrRun`,
`AddrLife`, `AddrSave`, `AddrLoad`, `AddrAnyFile`, `AddrRoundTrip`). All operations on the two bucket
tables, the two maps, the random order and the counters, with bucket hashes and
random draws arbitrary; the manager's self-check, proved to hold after any run; what
a run can do to one address; and its file format, proved to bring back what was
saved and to load consistently from any sensible file.

**Arithmetic and codecs** (`Limbs`, `LimbShifts`, `ArithUint256`, `CompactTarget`,
`Base58`, `VarInt`, `Compressor`, `CoinsCodec`, `UndoCodec`, `Formats`, `Bloom`). 256-bit
numbers as eight limbs updated in place, compact targets, Base58 with its fixed
buffers, the compact form of coins and undo records, and the rolling Bloom
filter. `Numbers` and `Bits` hold the arithmetic these share.

## Assumptions

- Within one block no two different transactions have the same txid:
  `CollisionFree` says so for each block of a chain, and it is a precondition
  where it is needed. `CoinbasesMature`, `NoRepeats` and `NoDoubleSpend` ask it of the
  whole chain (`Identified`).
- The hash of a Merkle node is a constructor, hence collision-free. A txid may
  itself be a node.
- Keyed bucket hashes and Bloom hashes are arbitrary functions, and random draws
  are parameters, so what is proved holds for all of them.
- Restoring a public key from its compressed form is a parameter (`Curve`) of
  which only the round trip for valid keys is assumed.
- Heights of blocks are below 64 * 840000. At and above that the subsidy is
  shifted by 64 bits or more, which the language does not define.

## Where code and documentation differ

- The guard `halvings >= 64` in `GetBlockSubsidy` is commented out
  (src/main.cpp:1197-1199). The model keeps it out and bounds the height instead.
- The format comment promises at most 2 * N - 1 flag bits for N hashes
  (src/merkleblock.h:47), and a size of at most 10 + ceil(32.25 * N) bytes
  (src/merkleblock.h:31-35). Neither holds in general. `FlagBits` gives the exact
  number of bits, `FlagBitsPromise` and `SizePromise` say exactly when the promises
  are kept, `ThreeTxidsBreakIt` and `AllOf1025BreakIt` are trees that break them.
- A negative transaction version passes all checks, but only its lowest seven bits
  are stored, in the database (src/coins.h:186) and in the undo files
  (src/undo.h:38-41), and read back as a positive version. So a flush can change
  coins, and disconnecting a block need not restore them, although it reports no
  inconsistency. The program repairs this in one comparison only and calls it
  harmless (src/main.cpp:1640-1644). `FlushTip`, `StoredDisconnectIsExact` and `Run`
  of `ChainState` say exactly when coins are unchanged, `NegativeVersionIsLost` and
  `FlushingShows` are inputs that lose a version.
- `Flush` hands the cached best block down even when it was never read or set. It
  is then null, and a cache below takes it over, while the database does not.
  `FlushKeepsBest` states exactly when the best block survives, and
  `LoseBestBlock` builds a stack where it does not.
- A number multiplied by itself in place becomes zero, because it is cleared before
  it is read (src/arith_uint256.cpp:70-75). The contract of `Multiply` says so, and
  `TwoTimesItself` is an instance.
- The table of variable-length integers is wrong for two of its numbers
  (src/serialize.h:325-326): 16511 is written as ff 7f and 65535 as 82 fe 7f, while
  the bytes given there are the encodings of 32895 and 65407. `Formats.Table` shows
  all of them.
- Setting the shortcuts of a Bloom filter again (src/bloom.cpp:199-210) changes the
  answers of a filter that has no hash functions, unless they said the same before;
  `UpdateEmptyFull` says exactly when.

## Model

| member | source | states |
|---|---|---|
| `Coins.TrimNullsCuts` | src/coins.h:111-117 | Cleaning cuts off exactly the null outputs at the end, and leaves nothing exactly when every output is null |
| `Coins.Cleanup` | src/coins.h:111-117 | The loop from the back drops the null outputs at the end and no others |
| `Coins.ClearUnspendable` | src/coins.h:119-125 | Every provably unspendable output becomes null, all others stay, and the result is cleaned |
| `Coins.Spend` | src/coins.cpp:35-42 | Spending succeeds exactly when the output is there and unspent; then it is nulled and the coins cleaned, else nothing changes |
| `Coins.FadedIsExact` | src/serialize.h:343-358 | Storage changes nothing exactly when no version in it is negative |
| `CoinsCache.OverlayAt` | src/coins.cpp:72-97 | What a layer answers for a txid: its own entry if it has one, a pruned one meaning absent, else what the layer below answers |
| `CoinsCache.OverlayPull` | src/coins.cpp:72-88 | Caching what the layer below has, or a pruned entry for what it lacks, changes no answer |
| `CoinsCache.OverlayTake` | src/coins.cpp:148-186 | Writing one entry of a batch below and removing it from the batch leaves the combined view as it was; a clean entry may be skipped |
| `CoinsCache.CoinsViewDB.BatchWrite` | src/txdb.cpp:60-78 | The database ends up as itself overlaid by the batch, with what storage keeps of every version, and takes the best block over unless it is null |
| `CoinsCache.CoinsViewCache.constructor` | src/coins.cpp:61 | A new layer answers like the one it stands on |
| `CoinsCache.CoinsViewCache.FetchCoins` | src/coins.cpp:72-88 | A lookup through any number of layers changes no view of any of them, adds at most that one entry, and finds exactly what the view holds |
| `CoinsCache.CoinsViewCache.KeepFetched` | src/coins.cpp:80-87 | The fetched coins are cached clean, FRESH exactly when pruned, and accounted for |
| `CoinsCache.CoinsViewCache.GetCoins` | src/coins.cpp:90-97 | Not found means absent from the view; found coins are those of the view, or pruned and absent |
| `CoinsCache.CoinsViewCache.HaveCoins` | src/coins.cpp:129-136 | True exactly for the txids of the view, although only emptiness of the outputs is looked at |
| `CoinsCache.CoinsViewCache.GetBestBlock` | src/coins.cpp:138-142 | Answers with the best block as seen through the layers, and remembers it |
| `CoinsCache.CoinsViewCache.SetBestBlock` | src/coins.cpp:144-146 | Sets the best block and changes no coins |
| `CoinsCache.CoinsViewCache.ModifyCoins` | src/coins.cpp:99-118 | Hands out the coins of the view, or empty coins, with the entry marked DIRTY, and FRESH where the layer below lacks it, without changing the view |
| `CoinsCache.CoinsViewCache.CloseModifier` | src/coins.cpp:249-266 | Closing an edit makes the view the old one with the cleaned coins put in, even when the entry itself is dropped, and the memory counter exact again |
| `CoinsCache.CoinsViewCache.WriteEntry` | src/coins.cpp:150-182 | Each case of taking over one dirty entry of a child, including dropping it, updates the view by that entry |
| `CoinsCache.CoinsViewCache.BatchWrite` | src/coins.cpp:148-186 | A layer that takes a batch over answers as before overlaid by the batch; the FRESH assertion cannot fail, and the best block is overwritten |
| `CoinsCache.CoinsViewCache.Flush` | src/coins.cpp:188-193 | The layer below becomes what this view was or, when it is the database, what storage keeps of that; no deeper view changes, the cache and its counter are empty |
| `CoinsCache.CoinsViewCache.FlushKeepsBest` | src/coins.cpp:148-193 | Flushing preserves the best block exactly if this layer read or set one, stands on the database, or stands on a layer without one of its own that differs from what is below that |
| `CoinsCache.CoinsViewCache.ViewIsCanonical` | src/coins.cpp:72-88 | No view ever holds an entry without unspent outputs, or one that is not cleaned |
| `CacheStack.Run` | src/coins.cpp:72-193 | For any sequence of edits, reads, new layers, flushes and dropped layers, all views of the stack are what the same operations make of plain maps, every read answers from them, and all counters are exact |
| `CacheStack.OneMap` | src/coins.cpp:72-193 | When a layer is dropped only with nothing unflushed in it and no version is negative, the top of a stack of any depth is one plain map with the edits applied |
| `CacheStack.LoseBestBlock` | src/coins.cpp:148-193 | A layer that never read its best block, flushed onto one that had set one, takes that back to the database's |
| `LedgerUndo.RestoreSpent` | src/main.cpp:1583-1607 | Nulling an output, cleaning, padding and putting it back restores the outputs exactly |
| `LedgerUndo.SpendOneUndone` | src/main.cpp:1357-1382 | The record made when an output is spent restores the whole map when applied, whether or not it was the last output |
| `LedgerUndo.SpendAllUndone` | src/main.cpp:1652-1664 | Restoring inputs in reverse order undoes spending them in order, also when several come from one parent |
| `LedgerUndo.MadeOutputsMatch` | src/main.cpp:1635-1650 | What a transaction added passes the comparison made before it is removed, and removing it restores the map |
| `LedgerUndo.TxUndone` | src/main.cpp:1629-1666 | Taking one transaction back after adding it restores the map and reports no inconsistency |
| `LedgerUndo.TxidsDistinct` | src/main.cpp:1750-1755 | No txid occurs twice in a block that connects: a second copy would spend its inputs again |
| `LedgerUndo.TxsUndone` | src/main.cpp:1629-1666 | Taking the transactions of a block back in reverse, each from its own record, undoes connecting them, whatever they spend of each other |
| `LedgerUndo.DisconnectUndoesConnect` | src/main.cpp:1609-1675 | For every block that connects, disconnecting it with the undo data just as made restores exactly the map before, and is clean |
| `LedgerStored.FadedConnectBlock` | src/main.cpp:1715-1821 | A block connects on coins that storage has changed exactly if it connects on the exact ones, with the same coins but for old versions, the same fees, and the same undo records once stored |
| `LedgerStored.StoredOneUndone` | src/main.cpp:1583-1607 | A stored record puts its output back; coins of which it was the last output come back with what is kept of their version |
| `LedgerStored.StoredOneIsExact` | src/main.cpp:1583-1607 | A spent output put back from its stored record gives exactly the map before if and only if outputs were left or the version is not negative |
| `LedgerStored.FadedMatch` | src/main.cpp:1635-1650 | The comparison with what the block made passes for stored coins, too, thanks to the repair of negative versions |
| `LedgerStored.GoneForGood` | src/main.cpp:1772-1812 | Coins that are spent to the last output within a block do not come back in it |
| `LedgerStored.StoredDisconnect` | src/main.cpp:1609-1675 | For every block that connects, disconnecting it from the stored undo data, on coins that storage may have changed, is clean and restores the map before, but with stored versions where the block spent the last output |
| `LedgerStored.StoredDisconnectIsExact` | src/main.cpp:1609-1675 | It restores exactly the map before if and only if no transaction that the block spends to its last output has a negative version |
| `LedgerStored.NegativeVersionIsLost` | src/main.cpp:1639-1644 | A block that spends the last output of a transaction of version -1 connects and is cleanly disconnected, but the version is 127 then |
| `LedgerStored.BlockVersions` | src/main.cpp:1357-1382 | Versions are those of the transactions: where none is negative none becomes so |
| `LedgerRedo.ApplyOneRedone` | src/main.cpp:1583-1607 | What one undo record puts back, whatever it holds of an output that can be spent, spending that output takes away again, to exactly the map before |
| `LedgerRedo.UnspendAllRedone` | src/main.cpp:1657-1668 | So do the records of a transaction, restored from the last and spent from the first |
| `LedgerRedo.MatchMeansMade` | src/main.cpp:1635-1652 | The comparison passes only on the outputs that the transaction made, but for a negative version |
| `LedgerRedo.CleanMeansRedone` | src/main.cpp:1609-1675 | Whatever undo data of spendable outputs a block is disconnected with: if that is clean, applying its transactions again leads back to the same map, but for the versions of transactions with a negative one |
| `Supply.SpendOneTakesValue` | src/coins.cpp:35-42 | Spending an output takes exactly its value out of the total |
| `Supply.SpendAllTakesValue` | src/main.cpp:1362-1378 | Available distinct inputs can all be spent, take their combined value out, and leave every other output where it was |
| `Supply.FromTxValue` | src/coins.h:88-94 | What a transaction adds is its output value less what is provably unspendable |
| `Supply.TxConserves` | src/main.cpp:1430-1451 | For one transaction, total plus fees plus burnt value is conserved, and fees are not negative |
| `Supply.BlockConserves` | src/main.cpp:1772-1821 | A block changes the unspent total by its coinbase value less fees and burnt value, hence raises it by its subsidy at most |
| `Supply.FadedTotal` | src/coins.h:177-204 | Storage loses no value |
| `Supply.IssuedByEra` | src/main.cpp:1194-1205 | The sum of the subsidies up to any height, era by era |
| `Supply.SubsidySchedule` | src/main.cpp:1194-1205 | The subsidy is 50 coins divided by two to the number of 840000-block periods passed, rounded down |
| `Supply.IssueStaysWithinMaxMoney` | src/main.cpp:1194-1205 | The subsidies of all heights below 64 halvings never exceed MAX_MONEY together |
| `Validation.GetValueOut` | src/primitives/transaction.cpp:90-100 | The loop sums the outputs |
| `Validation.CheckTransaction` | src/main.cpp:797-852 | Accepts exactly the transactions with inputs, outputs, values and total in range, no input twice, and no null input unless coinbase |
| `Validation.CheckBlock` | src/main.cpp:2584-2642 | Accepts exactly the blocks whose first transaction is the only coinbase and whose transactions are all valid |
| `Validation.AccessOutput` | src/coins.cpp:199-204 | Looks an output up through the cache |
| `Validation.HaveInputs` | src/coins.cpp:218-230 | True exactly when every input of a non-coinbase is an unspent output of the view |
| `Validation.GetValueIn` | src/coins.cpp:206-216 | The sum of the outputs spent, nothing for a coinbase |
| `Validation.CheckInputs` | src/main.cpp:1398-1451 | Succeeds exactly when the inputs are available, mature if coinbase, in range, and worth at least the outputs, wherever the loop stops; what that means along a chain is `History.SpendsAreSound` |
| `Validation.SpendInput` | src/main.cpp:1362-1378 | Spends one input through the cache and records its metadata exactly when it was the last output |
| `Validation.UpdateCoins` | src/main.cpp:1357-1382 | Edits the cache to exactly the map, and returns exactly the undo record, that the rules give |
| `Validation.AddOutputs` | src/main.cpp:1380-1381 | Puts the outputs of a transaction into the view in place of what was there |
| `Validation.ApplyTxInUndo` | src/main.cpp:1583-1607 | Restores one output through the cache, and is clean exactly when the record fits |
| `Validation.RestoreInputs` | src/main.cpp:1652-1664 | Restores the inputs of a transaction, the last first |
| `Validation.RemoveOutputs` | src/main.cpp:1635-1650 | Removes the outputs of a transaction whatever they are, and says whether they were as the block made them |
| `Validation.DisconnectBlock` | src/main.cpp:1609-1675 | On the cache, gives exactly the map that undoing on a plain map gives, is clean exactly then, and sets the best block to the previous one |
| `Validation.CheckOverwrites` | src/main.cpp:1750-1755 | True exactly when no transaction has the txid of one with unspent outputs |
| `Validation.ConnectTx` | src/main.cpp:1774-1811 | Checks one transaction, then spends and adds; fees and undo records grow as the rules say |
| `Validation.CanUpdate` | src/main.cpp:1366-1370 | After the input checks every input can be spent, so the assertion made when spending holds |
| `Validation.ConnectBlock` | src/main.cpp:1715-1850 | On the cache, accepts exactly the blocks the rules accept, with exactly their map and undo data, and sets the best block |
| `ChainState.ReplaySound` | src/main.cpp:2082-2139 | Along every chain that connects from the empty map, each block can be disconnected with its undo data as made, back to the map before it |
| `ChainState.SupplyBound` | src/main.cpp:1194-1205 | Along every connected chain the unspent total is at most the subsidies of its heights, and these are at most MAX_MONEY |
| `ChainState.ApplyBlock` | src/main.cpp:2097-2111 | A block connected through a temporary cache changes the tip cache as the rules say, or, on failure, not at all |
| `ChainState.UnapplyBlock` | src/main.cpp:2042-2047 | The same for disconnecting |
| `ChainState.FlushTip` | src/main.cpp:1965-1966 | Writing the cache to the database keeps the best block and leaves of the coins what storage keeps: they are unchanged exactly if no version among them is negative |
| `ChainState.FlushingShows` | src/main.cpp:1639-1644 | Connecting a block whose coinbase has version -1 and flushing leads to coins of version 127 |
| `ChainState.VersionsStay` | src/main.cpp:1357-1382 | On a chain without negative versions no coins have one |
| `ChainState.ChainState.constructor` | src/main.cpp:2082-2139 | Starts with no tip and no coins |
| `ChainState.ChainState.WriteUndo` | src/main.cpp:1831-1848 | Undo data is written the first time only, and is what storage keeps of it |
| `ChainState.ChainState.ConnectTip` | src/main.cpp:2082-2139 | Succeeds exactly when the extended chain connects from the empty map, also on coins that storage has changed; the new coins are exact; a failed connect leaves tip and coins unchanged |
| `ChainState.ChainState.DisconnectTip` | src/main.cpp:2032-2070 | From the stored undo data always succeeds but for the genesis block, which has none, moves the tip to its predecessor, and says which coins stay exact |
| `ChainState.ChainState.FlushStateToDisk` | src/main.cpp:1884-1978 | Keeps the tip, and of the coins what storage keeps |
| `ChainState.ChainState.Run` | src/main.cpp:2032-2139 | After any run of connects, disconnects and flushes, failures included, the tip is the one the rules lead to, it is the best block, and the coins are those that connecting the blocks of its chain in order from the empty map gives, but for the stored versions of those that are not exact any more: the same coins exactly if no other has a negative version, and always if no transaction of the chain has one |
| `ChainState.ChainState.UnspentBounded` | src/main.cpp:1194-1205 | After any run the unspent total of the coins is at most what the heights of the chain issue, and that at most MAX_MONEY |
| `History.MakerMade` | src/coins.h:78-96 | An unspent output is one of the last transaction with its txid, and not provably unspendable |
| `History.UnspentSince` | src/coins.h:78-96 | An unspent output was made at some point of the history, and neither spent nor made anew since |
| `History.TxReflected` | src/main.cpp:1357-1382 | Updating the coins keeps the map in step with the history: exactly the unspent outputs are available, with the coinbase flag, height and version of the transaction that made them |
| `History.SameInputs` | src/main.cpp:1398-1455 | The checks on the coins let through exactly the transactions that may follow the history |
| `History.NoOverwriteAgrees` | src/main.cpp:1742-1756 | The test against overwriting passes exactly when no txid of the block has an unspent output in the history |
| `History.BlockAgrees` | src/main.cpp:1715-1821 | A block connects on the coins exactly when it may follow the history |
| `History.ReplaysExactly` | src/main.cpp:1715-1821 | A chain can be connected block by block from the empty map exactly when its transactions follow each other as the history asks, and the coins are then exactly its unspent outputs |
| `History.SpendsAreSound` | src/main.cpp:1406-1429 | On any chain that connects every output spent was made by the last transaction with its txid, was not spent since, is not provably unspendable, and is at least 100 blocks old if that transaction is a coinbase |
| `History.CoinbasesMature` | src/main.cpp:1423-1428 | Where txids identify transactions: a block that spends what the coinbase of an ancestor made is at least 100 blocks above it |
| `History.NothingFromNothing` | src/main.cpp:797-852 | On any chain that connects every transaction has inputs and outputs in the money range, no repeated or null input, and gives out no more than it spends |
| `History.BlocksAreSound` | src/main.cpp:1715-1821 | Every block of such a chain has passed the checks on blocks alone, has exactly its first transaction as coinbase, which claims at most the fees and the scheduled subsidy, and overwrites no unspent output |
| `History.NoRepeats` | src/main.cpp:1738-1756 | Where txids identify transactions: if no two coinbases of a chain share one then no two transactions do, although a copy of a spent one is not tested for |
| `History.NoDoubleSpend` | src/main.cpp:1406-1413 | Then no output is ever spent twice |
| `History.AvailableIsUnspent` | src/coins.h:78-96 | What the coins of a chain have available, through storage or not, are exactly its unspent outputs with their values |
| `Storage.CoinsReadBack` | src/coins.h:177-238 | All coins of a connected chain, whether or not they were stored before, are read back from their bytes in exactly the stored form |
| `Storage.UndoReadsBack` | src/undo.h:36-53 | and so are all undo records of its blocks |
| `CheckQueue.NextKeepsInv` | src/checkqueue.h:69-127 | Every step of any thread keeps the invariant: nTodo equals checks queued plus checks held in batches, the idle and total counters count threads, and failures are not lost |
| `CheckQueue.RunInv` | src/checkqueue.h:69-127 | The invariant holds in every state of every run with any number of workers |
| `CheckQueue.BatchSizeFits` | src/checkqueue.h:110-117 | A batch has at least one check and never more than are queued, and a batch of more than one is within the cap and within its share among all threads |
| `CheckQueue.NextKeepsHistory` | src/checkqueue.h:91-127 | No check is lost or counted in two waits |
| `CheckQueue.EveryVerdictIsRight` | src/checkqueue.h:140-143 | In every run each wait returned true exactly when all checks added for it succeed, although checks after a failure are skipped |
| `CheckQueue.IdleBetweenRounds` | src/checkqueue.h:164-168 | Whenever the master is outside and added nothing since its last wait, the idle test of a new controller succeeds |
| `CheckQueue.MasterIsNotStranded` | src/checkqueue.h:77-104 | Whenever the master sleeps without a notification some worker holds a batch; without workers it never sleeps |
| `CheckQueue.NextAttends` | src/checkqueue.h:146-158 | No step leaves checks in the queue with a worker asleep and none awake: adding one check wakes one, adding more wakes all, and a critical section that leaves some takes some |
| `CheckQueue.WorkersAreWoken` | src/checkqueue.h:146-158 | In every run in which the notification of one picks a sleeping worker where there is one: while checks are queued and a worker sleeps, some worker is working or about to wake |
| `CheckQueue.LastWorkerNotifies` | src/checkqueue.h:80-86 | The worker that brings nTodo to zero notifies the sleeping master |
| `CheckQueue.SomeoneCanMove` | src/checkqueue.h:69-127 | While the master waits some thread can make progress |
| `CheckQueue.EnabledStepExists` | src/checkqueue.h:69-127 | An enabled step can be taken: no counter goes below zero |
| `CheckQueue.WaitIsBounded` | src/checkqueue.h:69-127 | During a wait no schedule takes more steps than the measure of the work at its start, plus two for each spurious wakeup |
| `MerkleTree.InWidth` | src/merkleblock.h:66-68 | A node is within the tree width at its height exactly when it covers a leaf |
| `MerkleTree.Children` | src/merkleblock.cpp:63-78 | The two children split the leaves of a node, and the right one exists exactly when it covers a leaf |
| `MerkleProofs.ExtractBuilt` | src/merkleblock.cpp:98-132 | Decoding the encoding of any subtree yields its hash and its matched txids in order, consumes exactly that encoding, and complains exactly if a node it descends into has two children of equal hash |
| `MerkleProofs.TwinsDiffer` | src/merkleblock.cpp:121-124 | With distinct txids no two neighbouring nodes have equal hashes |
| `MerkleProofs.DistinctHaveNoTwins` | src/merkleblock.cpp:119-125 | So a tree over distinct txids is never refused for twins |
| `MerkleProofs.RepeatedLastSameRoot` | src/merkleblock.cpp:63-78 | An odd list with its last txid repeated has the same Merkle root as the list |
| `MerkleProofs.TwinsRefused` | src/merkleblock.cpp:119-125 | but an encoding in which the repeated txid is matched is refused |
| `MerkleProofs.RoundTrip` | src/merkleblock.cpp:150-181 | What was built, packed into bytes and unpacked with padding decodes to exactly the matched txids in order and to the Merkle root, but for trees with twins, which are refused |
| `MerkleProofs.HashesBounded` | src/merkleblock.cpp:80-96 | An encoding never has more hashes than leaves, or than bits |
| `MerkleProofs.HashesPerMatch` | src/merkleblock.cpp:80-96 | An encoding has at most one hash more than matches times height |
| `MerkleProofs.EncodingIsSmall` | src/merkleblock.h:36-40 | The hash count of a whole tree is within both bounds |
| `MerkleSizes.BitsCounted` | src/merkleblock.cpp:80-96 | Every encoding has one bit less than twice its hashes, and one more for each node with one child that it descends into |
| `MerkleSizes.HashesCounted` | src/merkleblock.cpp:80-96 | Every encoding has one hash, and one more for each node with two children that it descends into |
| `MerkleSizes.LastCounted` | src/merkleblock.h:66-68 | Only the last node of a level can have one child: there is one for each level of odd width with a match under the last node above it (a lopsided level) |
| `MerkleSizes.FlagBits` | src/merkleblock.h:45-48 | The exact number of flag bits of a whole tree, from its hashes, the number of transactions and the mask |
| `MerkleSizes.FlagBitsPromise` | src/merkleblock.h:45-48 | The documented bound of 2 * N - 1 flag bits holds if and only if there is no such level below the root |
| `MerkleSizes.PowersOfTwoKeepIt` | src/merkleblock.h:45-48 | It holds for every mask when the number of transactions is a power of two |
| `MerkleSizes.SizesFromMask` | src/merkleblock.h:31-48 | The numbers of hashes and of flag bytes follow from the mask alone |
| `MerkleSizes.ThreeTxidsBreakIt` | src/merkleblock.h:45-48 | Three txids with the last matched give four bits for two hashes |
| `MerkleSizes.SizePromise` | src/merkleblock.h:31-35 | The documented size of 10 + ceil(32.25 * N) bytes is kept if and only if the mask needs at most 252 bytes of flags, or no more of them than a quarter of the hashes it needs, and always where no level is lopsided |
| `MerkleSizes.AllOf1025BreakIt` | src/merkleblock.h:31-35 | 1025 txids, all matched, take 33068 bytes, one more than documented |
| `MerkleProofs.SubtreeSound` | src/merkleblock.cpp:98-132 | Whatever bits and hashes decode without complaint to the hash of a subtree yield txids of that subtree at increasing positions |
| `MerkleProofs.Soundness` | src/merkleblock.cpp:150-181 | Whatever a peer sends, if it decodes to the root of a block with as many transactions, every txid handed out is in the block, in block order |
| `MerkleProofs.RestIgnored` | src/merkleblock.cpp:98-132 | A subtree that decodes without complaint decodes the same whatever bits and hashes come after its own |
| `MerkleProofs.NothingLeftOver` | src/merkleblock.cpp:150-181 | What is accepted is refused with one more hash or enough bits for one more byte, and otherwise keeps its root; it has no more than the largest number of transactions, and no more hashes than those |
| `MerkleBlock.PackBits` | src/merkleblock.h:100-102 | Bits are packed eight to a byte, lowest first, and the rest is zero |
| `MerkleBlock.UnpackBits` | src/merkleblock.h:95-97 | Unpacking reads back every bit of every byte |
| `MerkleBlock.CalcTreeHeight` | src/merkleblock.cpp:139-142 | The loop finds the least height of width one |
| `MerkleBlock.CoversMatch` | src/merkleblock.cpp:82-84 | Whether any leaf under a node is matched |
| `MerkleBlock.PartialMerkleTree.constructor` | src/merkleblock.cpp:134-146 | The object holds the encoding of the tree over the txids and mask |
| `MerkleBlock.PartialMerkleTree.TraverseAndBuild` | src/merkleblock.cpp:80-96 | Appends exactly the bits and hashes of the subtree |
| `MerkleBlock.PartialMerkleTree.TraverseAndExtract` | src/merkleblock.cpp:98-132 | Advances counters, matches and the bad flag as the decoder on plain values does |
| `MerkleBlock.PartialMerkleTree.ExtractMatches` | src/merkleblock.cpp:150-181 | Returns the root and matches, or the null hash whenever a size, padding or leftover check fails |
| `MerkleBlock.SendAndReceive` | src/merkleblock.h:88-105 | Built, packed, unpacked and decoded again gives the matched txids, and the root unless the tree has twins, which distinct txids never do |
| `ArithUint256.Uint256.Assign` | src/arith_uint256.h:88-95 | Assigning 64 bits gives that value |
| `ArithUint256.Uint256.Add` | src/arith_uint256.h:135-145 | Addition with carries is addition modulo 2^256, also of a number to itself |
| `ArithUint256.Uint256.Negate` | src/arith_uint256.h:77-84 | Complement plus one is negation modulo 2^256 |
| `ArithUint256.Uint256.Subtract` | src/arith_uint256.h:147-151 | Subtraction modulo 2^256 |
| `ArithUint256.Uint256.Increment` | src/arith_uint256.h:173-180 | Increment modulo 2^256, wrapping through all limbs |
| `ArithUint256.Uint256.Decrement` | src/arith_uint256.h:190-197 | Decrement modulo 2^256, borrowing through all limbs |
| `ArithUint256.Uint256.MultiplySmall` | src/arith_uint256.cpp:56-65 | Multiplication by 32 bits modulo 2^256 |
| `ArithUint256.Uint256.MultiplyRow` | src/arith_uint256.cpp:73-78 | One row of long multiplication adds exactly its product, but for a multiple of 2^256, and leaves the other factor alone |
| `ArithUint256.Uint256.Multiply` | src/arith_uint256.cpp:68-81 | Long multiplication is multiplication modulo 2^256; a number multiplied by itself in place becomes zero |
| `ArithUint256.TwoTimesItself` | src/arith_uint256.cpp:68-81 | Two multiplied by itself in place is zero |
| `ArithUint256.ScaledStep` | src/arith_uint256.cpp:75-77 | The 64-bit intermediate does not overflow, and low part and carry together keep the product |
| `ArithUint256.Uint256.ShiftLeft` | src/arith_uint256.cpp:22-36 | Left shift multiplies by the power of two modulo 2^256, for every shift |
| `ArithUint256.Uint256.ShiftRight` | src/arith_uint256.cpp:39-53 | Right shift is the floor quotient by the power of two, for every shift |
| `LimbShifts.LeftStep` | src/arith_uint256.cpp:29-34 | Where the bits of one limb go on a left shift, and what is lost |
| `LimbShifts.RightStep` | src/arith_uint256.cpp:46-51 | Where the bits of one limb go on a right shift |
| `ArithUint256.Uint256.Bits` | src/arith_uint256.cpp:172-184 | The position of the highest set bit plus one, zero for zero |
| `ArithUint256.Uint256.CompareTo` | src/arith_uint256.cpp:110-119 | Compares the numbers, and equality means equal limbs |
| `ArithUint256.Uint256.EqualTo` | src/arith_uint256.cpp:122-133 | Equality with a 64-bit number |
| `ArithUint256.Uint256.Divide` | src/arith_uint256.cpp:84-107 | The exact floor quotient for every non-zero divisor; zero fails, with the number already cleared |
| `ArithUint256.Uint256.DivideStep` | src/arith_uint256.cpp:98-103 | One step keeps dividend = quotient times divisor + rest, rest below the shifted divisor, and the quotient bits disjoint |
| `CompactTarget.OverflowIsExact` | src/arith_uint256.cpp:217-220 | The overflow flag is set exactly when the denoted number needs more than 256 bits |
| `CompactTarget.DenotesMantissa` | src/arith_uint256.h:260-278 | In one formula: the 23-bit mantissa times 256 to the power of the exponent less three, rounded down |
| `CompactTarget.DocumentedForms` | src/arith_uint256.h:270-273 | The documented forms of two numbers, and that of one that must avoid the sign bit |
| `CompactTarget.TestForms` | src/test/arith_uint256_tests.cpp:417-538 | The values, signs and overflow that the tests list |
| `CompactTarget.SetCompact` | src/arith_uint256.cpp:204-222 | The number becomes the denoted one modulo 2^256; both flags are exact |
| `CompactTarget.GetCompact` | src/arith_uint256.cpp:224-245 | Gives the compact form in 32 bits, with both assertions holding for every number |
| `CompactTarget.CompactForm` | src/arith_uint256.cpp:226-239 | The form is the exponent and mantissa with the mantissa between 2^15 and 2^23 |
| `CompactTarget.FormsOrdered` | src/arith_uint256.cpp:224-245 | There is only one such exponent and mantissa, and they order as the numbers do |
| `CompactTarget.CompactIsMonotone` | src/arith_uint256.cpp:224-245 | Larger targets never get smaller compact forms |
| `CompactTarget.CompactRounds` | src/arith_uint256.cpp:204-245 | Encoding and decoding v > 0 never rounds up, loses less than v / 2^15, and is a fixed point |
| `CompactTarget.CompactFits` | src/arith_uint256.cpp:240-242 | The form of a 256-bit number fits 32 bits and never overflows when decoded |
| `CompactTarget.NegativeForm` | src/arith_uint256.cpp:243 | With the sign the same number is denoted and reported negative |
| `SkipSteps.InvertLowers` | src/chain.cpp:62 | Clearing the lowest one bit lowers a number |
| `SkipSteps.SkipGoesBack` | src/chain.cpp:65-73 | The skip height is below the height |
| `SkipSteps.InvertClears` | src/chain.cpp:62 | What is cleared of a number is the largest power of two that divides it |
| `SkipSteps.OddGains` | src/chain.cpp:75-97 | On the way to the lower half of a block of heights a step from an odd height of the upper half leaves it or takes away a one bit |
| `SkipSteps.EvenGains` | src/chain.cpp:75-97 | and so do one or two steps from an even height |
| `SkipSteps.HopsBounded` | src/chain.cpp:64-97 | Below height 2^k every ancestor is reached in at most k * k steps |
| `ChainIndex.BlockIndex.AncestorsValid` | src/chain.cpp:75-108 | Every ancestor of a well-linked block is well linked |
| `ChainIndex.BlockIndex.BuildSkip` | src/chain.cpp:104-108 | The skip pointer set on a new block is its ancestor at the skip height |
| `ChainIndex.BlockIndex.GetAncestor` | src/chain.cpp:75-97 | Following skips where that pays finds the block that walking back one by one finds, below height 2^k in at most k * k passes of the loop |
| `ChainIndex.Chain.ContainsPath` | src/chain.h:379-381 | A block is in the chain exactly when the chain holds its whole path up to it |
| `ChainIndex.Chain.SetTip` | src/chain.cpp:13-23 | Stopping early at the first block already there gives the same chain as rebuilding it |
| `ChainIndex.Chain.FindFork` | src/chain.cpp:53-59 | Finds the highest block that the chain and the other block have in common |
| `ChainIndex.Chain.GetLocator` | src/chain.cpp:25-51 | The locator holds the blocks of the path at the locator heights, down to genesis |
| `ChainIndex.LocatorHeightsAre` | src/chain.cpp:25-51 | The heights of a locator, exactly: eleven in a row from the start, then steps of two, four and so on, and zero last |
| `ChainIndex.Chain.FindForkInGlobalIndex` | src/main.cpp:502-515 | The first entry that is known and in the chain, else genesis |
| `ChainIndex.LocatorIsShort` | src/chain.cpp:25-51 | A locator for height h >= 1 has at most 12 + log2(h) entries |
| `ChainIndex.LocatorClose` | src/chain.cpp:25-51 | The first entry at or below a fork is no further below it than the fork is below the start |
| `ChainIndex.LocateFork` | src/main.cpp:502-515 | A receiver that shares genesis and knows the fork finds a common block no further below the fork than the fork is below the locator start |
| `BlockTree.StepPropagates` | src/main.cpp:2458-2476 | Counting the front of the queue and queueing what waited for it keeps everything else right |
| `BlockTree.ArrivalPropagates` | src/main.cpp:2452-2481 | A block whose data arrives is queued exactly when nothing below it is missing, else it waits for its predecessor |
| `BlockTree.CountsAreRight` | src/main.cpp:2452-2481 | Once the queue is empty nChainTx is non-zero exactly when the block and all its ancestors have arrived, and is then the sum of nTx on the path |
| `BlockTree.PropagatedIsSettled` | src/main.cpp:2441-2484 | Then the waiting lists hold exactly the received blocks with a missing ancestor, each below its predecessor |
| `BlockTree.BlockTree.AddToBlockIndex` | src/main.cpp:2406-2438 | A new header changes no count and no waiting list |
| `BlockTree.BlockTree.ReceivedBlockTransactions` | src/main.cpp:2441-2484 | After the data of a block arrives, in any order, counts and waiting lists are right again, and the loop over the queue ends |
| `BlockTree.ArrivalOrderIrrelevant` | src/main.cpp:2441-2484 | Two states with the same headers and data agree in all counts and waiting blocks, whatever the order of arrival |
| `AddrBook.CreateStep` | src/addrman.cpp:87-97 | A created id is known and ordered, in no table, and not counted yet |
| `AddrBook.DeleteStep` | src/addrman.cpp:119-131 | Dropping an id without references that is last in order keeps the rest consistent |
| `AddrBook.RefDropStep` | src/addrman.cpp:133-146 | Freeing a slot keeps counts equal to occurrences; the id leaves the consistent part when it was its last |
| `AddrBook.RefAddStep` | src/addrman.cpp:301-304 | Taking a free slot keeps counts equal to occurrences |
| `AddrBook.UntryStep` | src/addrman.cpp:167-176 | Taking an id out of its tried slot |
| `AddrBook.TryStep` | src/addrman.cpp:189-193 | Putting an id without references into its free tried slot |
| `AddrBook.KnownMeansHeld` | src/addrman.cpp:380-454 | Between operations an id is known exactly when some table holds it |
| `AddrMan.AddrMan.constructor` | src/addrman.h:437-461 | A fresh manager is empty and consistent |
| `AddrMan.AddrMan.Find` | src/addrman.cpp:74-85 | Finds the id of a network address exactly when there is one |
| `AddrMan.AddrMan.Create` | src/addrman.cpp:87-97 | Adds one id at the end of the order with fresh statistics |
| `AddrMan.AddrMan.SwapRandom` | src/addrman.cpp:99-117 | Exchanges two positions and nothing else; its assertions hold |
| `AddrMan.AddrMan.Delete` | src/addrman.cpp:119-131 | Removes exactly that id; its assertions hold |
| `AddrMan.AddrMan.ClearNew` | src/addrman.cpp:133-146 | Frees exactly that slot and deletes what it held exactly when it is referenced no more |
| `AddrMan.AddrMan.LeaveNewTable` | src/addrman.cpp:150-160 | The id is gone from every bucket, its count is zero, and nothing else changed |
| `AddrMan.AddrMan.TakeSlot` | src/addrman.cpp:301-304 | Clears a slot and gives it to the id, counting one reference more |
| `AddrMan.AddrMan.Evict` | src/addrman.cpp:166-189 | The id in a tried slot goes back to the new table at the place its source gives, whatever was there |
| `AddrMan.AddrMan.MakeSpace` | src/addrman.cpp:166-189 | A tried slot is empty afterwards; what it held is back in the new table |
| `AddrMan.AddrMan.EnterTried` | src/addrman.cpp:189-193 | An id without references takes its free tried slot |
| `AddrMan.AddrMan.MakeTried` | src/addrman.cpp:148-194 | The whole move: the tried slot holds the id, it is in no new bucket, an evicted id is back in its place, everything else is kept; all assertions hold |
| `AddrMan.AddrMan.FindBucket` | src/addrman.cpp:223-233 | From any starting bucket the search finds one exactly for an id that is not tried |
| `AddrMan.AddrMan.Good_` | src/addrman.cpp:196-244 | An address known with this port gets its statistics set and ends up tried, what it displaces goes back to the new table; the exit for no bucket found is never taken |
| `AddrMan.AddrMan.AddNew` | src/addrman.cpp:283-312 | A new address gets a reference in its bucket when there is room, and otherwise leaves no trace; nothing else changes but what lost its place |
| `AddrMan.AddrMan.Refresh` | src/addrman.cpp:255-282 | A known address gets the newer time and the services added, and asks for one more place exactly if something new was heard, it is not tried, has less than eight places and wins the draw |
| `AddrMan.AddrMan.RefreshInfo` | src/addrman.cpp:256-263 | Time and services of an address that was heard of again |
| `AddrMan.AddrMan.Draw` | src/addrman.cpp:277-282 | The draw is won with one chance in 2 to the number of places |
| `AddrMan.AddrMan.PutInBucket` | src/addrman.cpp:290-310 | Takes the slot exactly when it is free or its holder may be pushed out; an id with no place at all is deleted |
| `AddrMan.AddrMan.Add_` | src/addrman.cpp:246-312 | Reports new exactly for a routable unknown address; in every branch the new state follows from the old one by the rules for adding, and stays consistent |
| `AddrMan.AddrMan.Attempt_` | src/addrman.cpp:314-334 | Stamps the attempt on an address known with this port, and counts the failure when it is to be counted and none was since the last success anywhere: over a run, at most one in each stretch between successes (`AddrLife.CountedOnce`) |
| `AddrMan.AddrMan.Connected_` | src/addrman.cpp:478-496 | The time of an address known with this port moves when it is more than twenty minutes old |
| `AddrMan.AddrMan.GetAddr_` | src/addrman.cpp:457-476 | Returns distinct addresses that are not terrible, at most 23 in 100 of those known and 2500 in all, and all there are when they are fewer; only the random order changes |
| `AddrCheck.AllPositionsTaken` | src/addrman.cpp:406-407 | Each id at its own position and as many positions as ids make the order a bijection |
| `AddrCheck.CheckEntries` | src/addrman.cpp:388-412 | The first loop passes exactly when every entry is sound, and collects the tried ids and the reference counts |
| `AddrCheck.CheckTried` | src/addrman.cpp:419-431 | The second loop, with the final emptiness test, passes exactly when each tried id is in exactly its slot |
| `AddrCheck.CheckNew` | src/addrman.cpp:433-449 | The third loop, with the final emptiness test, passes exactly when every occurrence is in place and counts equal occurrences |
| `AddrCheck.Check_` | src/addrman.cpp:380-454 | The self-check returns zero exactly on the states described |
| `AddrCheck.ValidPasses` | src/addrman.cpp:380-454 | Every consistent manager passes the self-check |
| `AddrCheck.PassesMeansValid` | src/addrman.cpp:380-454 | A manager that passes, and whose address map agrees, is consistent |
| `AddrRun.Run` | src/addrman.cpp:196-496 | From an empty manager, every operation with any random draw takes the step its rule gives, every state on the way is consistent, and in the end the self-check returns zero |
| `AddrRun.NothingInvented` | src/addrman.cpp:148-334 | At any point of any run every address known was heard of in a routable addition, and every tried one was marked as good |
| `AddrLife.StepStats` | src/addrman.cpp:196-334 | An operation changes the statistics of the address it is about and of no other |
| `AddrLife.CountedOnce` | src/addrman.cpp:314-334 | In any run, between two successes with anyone, an address gets exactly one failure counted if one is to be counted and none was since the success before, and none otherwise |
| `AddrLife.GoodForAWeek` | src/addrman.cpp:32-52 | For a week after a success an address is not terrible, whatever attempts fail, unless its time is in the future or older than 30 days |
| `AddrLife.SuccessForgives` | src/addrman.cpp:212-215 | A success with an address takes its failures back to zero |
| `AddrLife.ThreeFailures` | src/addrman.cpp:43-44 | An address that never answered, and failed three times to be counted, is terrible a minute after the last attempt |
| `AddrLife.NothingUnlearned` | src/addrman.cpp:251-263 | As long as an address is known its time never goes back and no service is forgotten |
| `AddrLife.ConnectedIsRecent` | src/addrman.cpp:478-496 | A known address that was connected to counts as seen within the last twenty minutes |
| `AddrLife.HeardIsKept` | src/addrman.cpp:251-263 | Hearing of a known address keeps all services heard, and its time ends up at most an hour before the one heard less the penalty if it was heard to be online, and a day otherwise |
| `AddrLife.FreeSlotTaken` | src/addrman.cpp:285-311 | An unknown routable address whose source leads to a free slot is known afterwards and holds it |
| `AddrLife.OneDrawInMany` | src/addrman.cpp:277-282 | Of any 2^n draws in a row exactly one lets an address with n places ask for one more |
| `AddrLife.GoodIsTried` | src/addrman.cpp:148-245 | A known address marked as good is in its tried slot; what was there is known still, and no address is forgotten but one that had its only place where that went |
| `AddrLife.AddForgetsNone` | src/addrman.cpp:290-311 | Adding addresses never forgets one that is not terrible |
| `AddrLife.NotForgotten` | src/addrman.cpp:196-311 | In any stretch of a run without a success an address that is not terrible stays known |
| `AddrSave.PickedAll` | src/addrman.h:298-317 | The ids written first are exactly the new ones, those written second the tried ones, as many as counted |
| `AddrSave.SaveInfos` | src/addrman.h:298-317 | The records are written in id order, the assertions on the counts hold, and the index of each id is right |
| `AddrSave.SaveBuckets` | src/addrman.h:318-331 | The indexes of each bucket are written in slot order |
| `AddrSave.Serialize` | src/addrman.h:285-332 | The file of a consistent manager |
| `AddrLoad.Unserialize` | src/addrman.h:335-430 | Loading any complete file gives exactly what its records and indexes make, or fails on a wrong key size |
| `AddrLoad.Prune` | src/addrman.h:414-424 | Exactly the new entries without references are deleted, and the order stays right |
| `AddrAnyFile.LoadedIsConsistent` | src/addrman.h:335-420 | Any complete file whose records have distinct addresses and sensible statistics loads into a consistent manager, whatever positions it holds and whether or not they can be used |
| `AddrAnyFile.UnusableKeepsFirst` | src/addrman.h:355-371 | From a file whose positions cannot be used exactly those new records are kept that are first for the slot their source leads to, with one reference, which is there |
| `AddrRoundTrip.OneMorePlace` | src/addrman.h:397-412 | Each index that was written finds its old slot free and a reference to spare |
| `AddrRoundTrip.SavedComesBack` | src/addrman.h:285-430 | Loading what was saved from any consistent manager gives a consistent one that is equal up to the names of ids: same tables, counts, references and stored fields, nothing lost |
| `AddrRoundTrip.Reload` | src/addrman.h:285-430 | The same for the two procedures run one after the other |
| `Base58.EncodeBufferSuffices` | src/base58.cpp:75-86 | The buffer of 138/100 digits per byte holds every number of so many bytes, for every length |
| `Base58.DecodeBufferSuffices` | src/base58.cpp:32-47 | The buffer of 733/1000 bytes per character holds every number of so many characters, for every length |
| `Base58.Alphabet` | src/base58.cpp:18-19 | The alphabet ascends and has all digits and letters but 0, I, O and l |
| `Base58.MultiplyAdd` | src/base58.cpp:40-46 | The inner loop multiplies the number in the buffer and adds, with the rest in the carry |
| `Base58.DigitsNumber` | src/base58.cpp:89-98 | Digits without leading zeros denote their number |
| `Base58.NumberDigits` | src/base58.cpp:89-98 | and are the only such digits |
| `Base58.EncodeBase58` | src/base58.cpp:67-100 | Gives the encoding: one for each leading zero byte, then the minimal digits; the carry assertion always holds |
| `Base58.DecodeBase58` | src/base58.cpp:21-65 | Accepts exactly one word of the alphabet between spaces and gives its bytes; the carry assertion always holds |
| `Base58.DecodeEncode` | src/base58.cpp:21-100 | Every byte string comes back from its encoding |
| `Base58.EncodeDecode` | src/base58.cpp:21-100 | Every accepted string is, but for spaces around it, the encoding of what it decodes to |
| `Base58.EncodeDecodeExact` | src/base58.cpp:21-100 | Without spaces it is exactly that |
| `VarInt.ReadWritten` | src/serialize.h:343-372 | A variable-length integer is read back from any stream that holds it, and its end is found |
| `VarInt.ReadIsWritten` | src/serialize.h:306-324 | Every integer has one encoding: whatever parses is what would be written |
| `Formats.WrittenEncodes` | src/serialize.h:307-313 | What is written follows the documented formula: every byte but the last has bit 128 set, and each of them counts one more than its low bits |
| `Formats.SizeClasses` | src/serialize.h:315-316 | A number takes k bytes exactly if it is in the k-th size class: 1 up to 127, 2 up to 16511, 3 up to 2113663 |
| `Formats.Table` | src/serialize.h:322-327 | The encodings of the numbers in the documented table, two of which are not what it says |
| `VarInt.GetSizeOfVarInt` | src/serialize.h:330-341 | The size computed is the number of bytes written, for negative numbers too |
| `VarInt.WriteVarInt` | src/serialize.h:343-358 | The buffer filled backwards and written in reverse is the encoding of what is kept of the number |
| `VarInt.ReadVarInt` | src/serialize.h:360-372 | Reading into a fixed width gives the value modulo that width |
| `Compressor.AmountsRoundTrip` | src/compressor.cpp:142-185 | Compressing and decompressing amounts are inverse to each other in both directions, on all numbers |
| `Formats.RoundAmountsShrink` | src/compressor.cpp:133-140 | An amount of few digits in a unit of up to 10^9 is compressed to at most ten times those digits |
| `Formats.AmountPairs` | src/test/compress_tests.cpp:42-47 | The pairs that the tests list |
| `Compressor.CompressAmount` | src/compressor.cpp:142-159 | The loop computes the compressed amount, modulo 2^64 |
| `Compressor.DecompressAmount` | src/compressor.cpp:161-185 | The loop computes the amount, modulo 2^64 |
| `Compressor.AmountFits` | src/compressor.cpp:142-159 | Amounts in the money range compress without overflow |
| `Compressor.ScriptRoundTrip` | src/compressor.cpp:48-131 | A script with a special form is restored from it |
| `Compressor.ReadScriptWritten` | src/compressor.h:66-91 | A script is read back from the stream, special or not |
| `Compressor.ReadTxOutWritten` | src/compressor.h:108-120 | An output with a value in range is read back from the stream, through 64-bit arithmetic |
| `Compressor.SaveTxOut` | src/compressor.h:108-120 | Writes that form of an output |
| `Compressor.GetTxOutSize` | src/compressor.h:58-64 | The size computed for an output is the number of bytes written |
| `Compressor.LoadTxOut` | src/compressor.h:108-120 | Reads that form, or fails at the end of the stream |
| `CoinsCodec.LastIsUsed` | src/coins.cpp:17-33 | The last byte of the mask is not zero, and none behind it is |
| `CoinsCodec.CalcMaskSize` | src/coins.cpp:17-33 | Counts the mask bytes up to the last that is not zero, and those that are not zero |
| `CoinsCodec.ReadMaskWritten` | src/coins.h:217-228 | Reading until so many bytes were not zero stops right after the last mask byte |
| `CoinsCodec.ReadOutsWritten` | src/coins.h:229-234 | The outputs come back in their places |
| `CoinsCodec.CodeParts` | src/coins.h:181-217 | Coinbase bit, first two outputs and mask count are recovered from the code, although it is stored one less where it must be positive |
| `CoinsCodec.CoinsRoundTrip` | src/coins.h:177-238 | Coins in range are read back cleaned, with what is kept of their version, from any stream that holds them, consuming exactly their bytes |
| `Formats.FirstExample` | src/coins.h:38-50 | The bytes of the first documented example |
| `Formats.SecondExample` | src/coins.h:53-70 | The bytes of the second, with its bitvector |
| `CoinsCodec.Serialize` | src/coins.h:177-204 | Writes that form of any coins that are not pruned, of negative versions too; the assertion on what is unspent holds |
| `CoinsCodec.GetSerializeSize` | src/coins.h:154-175 | The size computed is the number of bytes written |
| `CoinsCodec.Unserialize` | src/coins.h:206-238 | Reads that form, or fails at the end of the stream |
| `UndoCodec.UndoRoundTrip` | src/undo.h:36-53 | What is read back of a record is the record but for its version, which is zero without a height and loses its high bits when negative |
| `Bloom.BloomFilter.Insert` | src/bloom.cpp:60-71 | Sets exactly the bits of the key; it and all earlier keys are found; a full filter is left alone |
| `Bloom.BloomFilter.Check` | src/bloom.cpp:87-101 | Answers from the bits, or from the shortcuts |
| `Bloom.BloomFilter.Clear` | src/bloom.cpp:117-122 | Afterwards nothing is found |
| `Bloom.FullAndEmpty` | src/bloom.cpp:199-210 | With all bits set every key is found, with none no key |
| `Bloom.BloomFilter.UpdateEmptyFull` | src/bloom.cpp:199-210 | Afterwards every answer is what the bits say; where the shortcuts were right before, or there are no hashes, no answer changes if and only if there are hashes or the shortcuts already said so |
| `Bloom.RollingBloomFilter.Insert` | src/bloom.cpp:223-235 | Through both staggered clears and the wrap of the counter, the bits set in each filter are those of the keys it reaches back to, no more and no fewer |
| `Bloom.RollingBloomFilter.Check` | src/bloom.cpp:237-243 | Answers exactly from the recent keys: true for each of the last nElements, and otherwise only if each bit of the key is one that some of the last 2 * nElements keys has; so a new or cleared filter finds nothing |
| `Bloom.RollingBloomFilter.Clear` | src/bloom.cpp:245-250 | Forgets everything |
| `Bloom.InsertAll` | src/bloom.cpp:212-250 | After any run of insertions no key of the window is missed, and none is found whose bits are not all those of the last 2 * nElements keys |

## Left out

- Validation.CheckBlock: proof of work, the header, the block's Merkle root, sizes, signature-operation counts and the coinbase script size are one given boolean of the block; which reject code is reported is not modelled.
- Validation.CheckInputs: script checks are part of that boolean as well; the queue that runs them is modelled by itself in `CheckQueue`.
- Validation.GetValueOut: throws when a sum leaves the money range; the model only sums, since every caller here has checked the transaction before.
- Validation.DisconnectBlock: says nothing about the coins when it is not clean, because the temporary cache is then dropped; the start-up check that goes on with an unclean view is not modelled.
- Validation.ConnectBlock: the genesis block, which skips all checks, is a case of `ChainState.ConnectTip`; undo data is kept in a map from blocks, as it is read back, instead of files with checksums and lengths; that this is what the bytes of each record give is `Storage.UndoReadsBack`.
- ChainState.ChainState.ConnectTip: an extension of the tip only; choosing the best chain, marking blocks as invalid, memory pool, wallets and notifications are not modelled.
- ChainState.ChainState.FlushStateToDisk: always writes; when the program decides to write, and failing writes, are not modelled.
- CoinsCache.CoinsViewDB.BatchWrite: the database is a map of what is read back, whose write never fails; that this is what the bytes give is `Storage.CoinsReadBack`; its key format and statistics are not modelled.
- CoinsCache.CoinsViewCache.BatchWrite: memory usage of coins is any given function of their value, so the growth of vectors and of the hash map is not modelled; neither is swapping the backing view.
- Coins: a coins record is a value; the edit in progress is held apart and put back when the modifier closes. `GetPriority` and statistics are left out.
- Transactions keep no input scripts and sequence numbers, and scripts are byte sequences of which only the special forms and a leading OP_RETURN matter; the size limit on unspendable scripts does not exist in this version.
- CheckQueue.RunInv: the quit flag is never set in the program, so workers never leave; destruction of the queue is left out.
- MerkleProofs.Soundness: for node hashes without collisions; the stream format of the hash list and of the header around the tree is left out, as is choosing matches by a filter.
- BlockTree.BlockTree.ReceivedBlockTransactions: sequence ids, candidate tips, file positions and failed or pruned blocks are left out.
- BlockTree.BlockTree.AddToBlockIndex: chain work and the best header are left out; the headers of a block's ancestors come before it, as its caller makes sure.
- ChainIndex.Chain.GetLocator: block pointers are used where the program has hashes, since a block is found by its hash.
- AddrMan: the bucket tables are maps whose missing slots stand for -1; `Select_`, whose loops end only with probability, and clearing a manager in use are left out; locking is not modelled.
- AddrSave.Serialize: the file is a value with its records and indexes; the byte format of the fields, a truncated stream, and the key itself, which only enters the hashes, are left out.
- ArithUint256: conversion to double and hexadecimal text is left out.
- ArithUint256.Uint256.DivideStep: shifting one into the sign bit of an int is taken to set bit 31.
- Base58.DecodeBase58: strings are sequences without a null character; the versioned and checksummed forms, addresses and keys are left out.
- CoinsCodec.Unserialize: amounts are read and written in 64 bits, but the 32-bit widths of versions, heights, the code and script lengths are not modelled, nor that of record counts.
- CoinsCodec.CoinsRoundTrip: heights are not negative and values are in the money range, as the checks make sure; outside of it the compressed amount can exceed 64 bits.
- Bloom.RollingBloomFilter.Insert: sizing a filter by its false-positive rate uses floating point; the sizes are given and not empty, and twice the element count is taken not to overflow.
- Disk files, LevelDB, sockets, RPC, mining, wallets, alerts, checkpoints and start-up are left out.
