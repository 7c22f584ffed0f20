# Verified models of a Bitcoin full node

This project models the parts of the node (C++, Bitcoin Core 0.14 lineage) whose correctness rests on
invariants that no single function shows, and proves those invariants for all inputs and all runs.
Where the source updates objects in place, the model is a class with the same fields and loops, specified
by pure functions; the theorems are about those functions, and about whole runs of the class.

| file | what it models | main results |
|---|---|---|
| `Coins.dfy` | the stack of coin caches with its DIRTY and FRESH flags | any legal sequence of reads, writes, creations, spends, evictions, pushes and flushes on a stack of any depth is indistinguishable from the same sequence on a stack of plain maps; the "FRESH flag misapplied" error cannot occur; `ModifyNewCoins` keeps the cache consistent exactly under the condition its callers must grant |
| `CoinsCodec.dfy` | the stored form of coins, amount compression | the stored form place by place, for writing and for reading, as documented; what comes back of any coins, and exactly when they come back unchanged; amount compression has its documented form and is a bijection |
| `CheckQueue.dfy` | the script check queue as a state machine over interleavings | in every interleaving of one master and any number of workers `Wait` returns true exactly when no check failed, and then every check has run as often as it was added; no wake-up is lost, neither of the master nor of the workers; `Wait` ends |
| `PartialMerkle.dfy` | partial Merkle trees | round trip for every block and mask, with the exact condition under which the root is refused; authenticity of whatever is extracted, up to an explicit hash collision; both bounds on the number of hashes; for the flag bits and for the size in bytes, which can exceed what is documented, the exact condition and an example; the root is the one that pairing the txids level by level gives |
| `BlockMerkle.dfy` | the Merkle root of a block, computed in one pass with 32 hashes | the pass computes the root that pairing level by level gives, and reports a repetition exactly if two complete neighbours are the same; without repetitions and collisions the root commits to the list |
| `AddrIndex.dfy`, `AddrMan.dfy`, `AddrCheck.dfy`, `AddrStore.dfy`, `AddrRead.dfy` | the address manager | no sequence of operations breaks the structure that `Check_` looks at, and its result is zero exactly if the times are in order and the key is not null; `Good_` and `Add_` do what they promise, field by field, and forget only terrible addresses; saving and loading gives the same manager, and a file of any version or bucket count gives a sound one |
| `Mempool.dfy`, `Miner.dfy` | block assembly | parents before children, limits never exceeded, running totals exact, the accounted size included; the totals of a package are those of what is missing in the block, unless it was turned down before; when the candidates run out, every transaction is in the block or has a reason not to be, and every early end has its reason |
| `Cuckoo.dfy` | the signature cache | one element in, at most one out, and out only by overwriting a free entry or at the end of a full chain of displacements; displaced elements take their epochs along; looking in eight places is looking in the whole table; the table's live part is bounded by the epoch size |
| `Base58.dfy` | Base58 and Base58Check | both round trips, and the buffers are large enough for every input |
| `RollingBloom.dfy` | the rolling Bloom filter | a position is marked exactly when a key of the last three generations has it; the last keys are always found |
| `Limbs.dfy`, `Shifts.dfy`, `Arith.dfy`, `Work.dfy` | 256-bit arithmetic, compact targets, block work | every operator computes its number modulo the word size, for any width; block work is exactly 2^256 divided by target plus one; a number in compact form is the number truncated |
| `Chain.dfy` | skip links, the active chain, locators | skip-link walks find the same ancestor as following parents; forks are the last common ancestor; locators descend strictly and have logarithmic length |
| `CompactBlock.dfy` | compact block relay, with its 16-bit positions | a block is rebuilt if and only if it has at most 65536 transactions and different short ids, and only transactions that could not be had are asked for |
| `InFlight.dfy` | which block was asked of which peer | after any sequence of events queues, map and counters agree, no peer is asked for more than 16 blocks, and the blocks asked for are exactly the right ones |
| `Options.dfy`, `Sequences.dfy`, `Numbers.dfy` | helpers | |

Where code and comments of the source disagree, or an expected property fails, the model follows the code:

- `src/merkleblock.h:47` promises at most 2N-1 flag bits for N hashes. `PartialMerkle.FlagBitsExceeded` is a
  tree with 5 bits for 2 hashes, and `PartialMerkle.FlagBitsBound` states exactly when the bound holds.
- `src/merkleblock.h:31-34` gives a hard guarantee on the serialized size. `PartialMerkle.SizeExceeded` is a block
  of 1025 transactions, all matched, that takes one byte more; `PartialMerkle.SizeExact` is the size of every tree,
  and `PartialMerkle.SizeBound` states exactly when the guarantee is kept, both by counts over the matches.
- `src/consensus/merkle.cpp:45` says that the root is computed for up to 2^32 leaves. The 32 hashes kept on the way
  reach for 2^31 and no more (`BlockMerkle.LevelsSuffice`).
- A package that was turned down and is tracked again starts from the totals of the pool (`src/miner.cpp:397-402`),
  with ancestors that are in the block. `Miner.CountedAgain` shows it, `Miner.TotalsExactly` states exactly when
  totals are right, and those of packages that were never turned down always are (`Miner.ExactTotals`).
- Compact blocks of 65537 to 100000 transactions pass the first test of `InitData`, but the places of their short ids
  are kept in 16 bits. `CompactBlock.TakenPlace` is a message where the last short id gets the place of the coinbase,
  `CompactBlock.NeverReturning` one on which the search for places does not end, and `CompactBlock.OwnPlaces`,
  `CompactBlock.EndlessExactly` and `CompactBlock.Relay` state exactly when all is well.
- `src/cuckoocache.h:395-396` says that the first displacement goes to the first of the eight places. The code goes
  to the second one, and so does `Cuckoo.Cache.NextLoc`.
- A block transactions request may carry an index after the largest 16-bit one, which the reader's 16-bit offset
  accepts from the start again. `CompactBlock.NotIncreasing` shows one, and `CompactBlock.AscendsExactly` states,
  by the sum of the differences in the message, exactly when the decoded indexes ascend.
- The version of coins is written as a variable-length integer of type `int`, which keeps only seven bits of a negative
  number. `CoinsCodec.VersionLost` shows it, and `CoinsCodec.RoundTrip` states exactly when coins come back.
- `Good_` with the time zero makes an address tried that never succeeded, to which `Check_` objects.
  `AddrIndex.GoodTimed` and `AddrMan.AddressManager.Good` state exactly when it does not.
- The fees of a package are reduced by the modified fee of the first ancestor that enters the block and by the plain
  fee of all others (`src/miner.h:125`, `src/miner.cpp:400`). `Miner.FeesDrift` is a package
  for which that is wrong, and `Miner.FeesExact` states exactly when it is right.
- A 256-bit number multiplied by itself in place becomes 0, because it is cleared before it is read
  (`Arith.BaseUint.Multiply`).

Clocks, random numbers, hash functions, script checks and orders that depend on hashes are parameters or open
choices, so every result holds whatever they are.

## Model

| member | source | states |
|---|---|---|
| `Coins.Cleanup` | src/coins.h:114-119 | drops exactly the spent outputs at the end |
| `Coins.Spend` | src/coins.cpp:35-42 | succeeds exactly if the output is there and unspent; then that output and no other becomes unavailable, everything else stays, and no spent output is left at the end |
| `Coins.CoinsViewDB.constructor` | src/txdb.cpp:28-30 | an empty database stands for no coins |
| `Coins.CoinsViewDB.BatchWrite` | src/txdb.cpp:47-68 | the database then stands for its old contents overlaid with the dirty entries; pruned entries are erased |
| `Coins.Stores` | src/coins.cpp:99-118 | writing an entry whose flags are right for the base view keeps the cache invariant and changes the contents at that key only |
| `Coins.Restores` | src/coins.cpp:72-88 | an entry that says what the cache already stood for may be cached without changing the contents |
| `Coins.NewCoinsFlags` | src/coins.cpp:134-153 | the flags given to coins being created are right if and only if the transaction is a coinbase, is cached already, or is absent from the base view |
| `Coins.Drops` | src/coins.cpp:252-259 | dropping an entry makes the cache stand for the base view again at that key |
| `Coins.LivesOn` | src/coins.cpp:134-153 | a cached unpruned entry is among the contents |
| `Coins.Closes` | src/coins.cpp:322-334 | closing a modifier, which erases a fresh pruned entry and trims any other, keeps the invariant |
| `Coins.MergeEntries` | src/coins.cpp:188-243 | throws exactly if some entry of the child is misapplied; otherwise, in whatever order, every dirty entry is taken over with its coins, as dirty, and as fresh exactly if it was fresh in the parent or, not cached there, in the child; it vanishes exactly if it is then fresh and pruned; all other entries stay |
| `Coins.MergeKeepsInvariant` | src/coins.cpp:188-243 | merging a child whose flags are right restores the parent's own invariant over its base, with the contents overlaid |
| `Coins.NeverMisapplied` | src/coins.cpp:209-215 | a child whose flags are right never meets the "FRESH flag misapplied" error |
| `Coins.FlushMovesContents` | src/coins.cpp:245-250 | overlaying the base contents with a consistent child's entries gives exactly the child's contents |
| `Coins.SameContents` | src/coins.h:137-145 | contents that answer every lookup alike are the same |
| `Coins.View.GetCoins` | src/coins.cpp:52-53 | a lookup through any stack of views returns the contents of its top and changes no level's contents |
| `Coins.View.BatchWrite` | src/coins.cpp:56 | a batch written to any view overlays its contents and leaves the levels below it alone |
| `Coins.CoinsViewCache.constructor` | src/coins.cpp:61 | an empty cache stands for what its base stands for |
| `Coins.CoinsViewCache.FetchCoins` | src/coins.cpp:72-88 | fills the cache without changing what any level stands for; a pruned entry is fetched as fresh |
| `Coins.CoinsViewCache.GetCoins` | src/coins.cpp:90-97 | returns exactly the contents at the key |
| `Coins.CoinsViewCache.HaveCoins` | src/coins.cpp:164-171 | the shortcut of testing for outputs is exact: true if and only if there are unspent coins |
| `Coins.CoinsViewCache.ModifyCoins` | src/coins.cpp:99-118 | opens a modifier; the contents stay, the entry is dirty, and it is fresh exactly if the coins do not exist below |
| `Coins.CoinsViewCache.ModifyNewCoins` | src/coins.cpp:134-153 | throws exactly if a non-coinbase finds unspent coins cached; otherwise the cache stays consistent if and only if the transaction is a coinbase, was cached, or is absent below |
| `Coins.CoinsViewCache.Assign` | src/coins.h:364-365 | a write through a modifier changes the contents at its key and nothing else |
| `Coins.CoinsViewCache.EndModify` | src/coins.cpp:322-334 | closing a modifier stores the trimmed coins, or erases the entry if it was fresh and is now spent |
| `Coins.CoinsViewCache.Uncache` | src/coins.cpp:252-259 | evicts only unmodified entries, and never changes the contents |
| `Coins.CoinsViewCache.BatchWrite` | src/coins.cpp:188-243 | takes over a child's entries in any order, as in `MergeEntries`; with right flags it never throws and the contents are the overlay |
| `Coins.CoinsViewCache.Flush` | src/coins.cpp:245-250 | never throws on a consistent cache; the base then stands for exactly what the cache stood for, and the cache is empty |
| `Coins.Modifies` | src/coins.cpp:99-118 | modifying coins through the cache is modifying the plain map |
| `Coins.Creates` | src/coins.cpp:134-153 | creating coins through the cache is an insertion into the plain map |
| `Coins.Use` | src/coins.cpp:72-259 | every operation on the top cache answers and acts as on a stack of plain maps |
| `Coins.Step` | src/coins.cpp:61-259 | so does pushing a new cache and flushing and dropping the top one |
| `Coins.Run` | src/coins.cpp:61-259 | every legal sequence of operations on a stack of any depth gives the answers and contents that a stack of plain maps gives |
| `CoinsCodec.CompressAmount` | src/compressor.cpp:142-159 | computes the compressed form in 64 bits: trailing zeroes, last digit, rest |
| `CoinsCodec.DecompressAmount` | src/compressor.cpp:161-185 | computes the amount that a number stands for, in 64 bits |
| `CoinsCodec.DecompressCompressed` | src/compressor.cpp:142-185 | decompressing a compressed amount gives it back, for every amount |
| `CoinsCodec.CompressDecompressed` | src/compressor.cpp:142-185 | compressing a decompressed number gives it back, so the code is a bijection |
| `CoinsCodec.CompressForm` | src/compressor.cpp:133-141 | the documented form 1 + 10 (9 n + d - 1) + e of an amount with n before its last digit d and e zeroes after it, e below 9 |
| `CoinsCodec.CompressRound` | src/compressor.cpp:133-141 | the documented form 1 + 10 (n - 1) + 9 of an amount with nine zeroes or more |
| `CoinsCodec.CompressFits` | src/compressor.cpp:142-159 | no compressed amount of money exceeds 64 bits, so none is changed |
| `CoinsCodec.AmountKept` | src/compressor.h:107-116 | an amount comes back if its compressed form has no more than 64 bits, even a negative one |
| `CoinsCodec.CalcMaskSize` | src/coins.cpp:17-33 | counts the mask bytes up to the last one that is not zero, and those that are not zero |
| `CoinsCodec.MaskBits` | src/coins.h:168-175 | bit p of a mask byte says whether its output is unspent |
| `CoinsCodec.WriteByte` | src/coins.h:168-175 | builds exactly that byte |
| `CoinsCodec.CodeNatural` | src/coins.h:160-163 | the header code of coins that are not pruned never underflows |
| `CoinsCodec.CodeRead` | src/coins.h:191-196 | the header code determines the coinbase flag, the first two outputs and the number of mask bytes |
| `CoinsCodec.Serialize` | src/coins.h:157-183 | writes any coins that are not pruned, whatever their version, height and amounts, in the documented layout: version, header code, mask bytes, an amount and a script for each unspent output in order, height; what each of these is, is stated by its place |
| `CoinsCodec.Unserialize` | src/coins.h:186-217 | reads exactly the streams the grammar accepts, and fails on all others; what it returns is read off by place: version, the bits of the header code, one flag per mask bit, the amount and script of each output that is there at twice its rank, height, and the rest of the stream |
| `CoinsCodec.EncodingLaid` | src/coins.h:21-38 | the stored form has the documented layout, and the mask ends with a byte that is not zero and covers all unspent outputs |
| `CoinsCodec.MaskLaid` | src/coins.h:168-175 | bit p of mask byte b stands for output 2 + 8 b + p |
| `CoinsCodec.OutsLaid` | src/coins.h:176-180 | each unspent output stands at twice the number of unspent outputs before it, the amount before the script |
| `CoinsCodec.ParseReads` | src/coins.h:186-217 | an accepted stream determines the coins by the same places |
| `CoinsCodec.Documented` | src/coins.h:40-52 | the documented example is stored as documented |
| `CoinsCodec.MaskRead` | src/coins.h:197-207 | the mask loop reads exactly the mask bytes that were written |
| `CoinsCodec.OutsRead` | src/coins.h:208-213 | the outputs land in the places they came from |
| `CoinsCodec.ParseEncoding` | src/coins.h:157-217 | what reading gives back of any coins: without trailing spent outputs, with the amounts that 64 bits hold and seven bits of a negative version or height; and the rest of the stream is left |
| `CoinsCodec.RoundTrip` | src/coins.h:157-217 | clean coins whose amounts fit come back exactly if and only if version and height are not negative |
| `CoinsCodec.VersionLost` | src/coins.h:164-165 | coins of version -1 come back with version 127 |
| `CheckQueue.InitKeeps` | src/checkqueue.h:131 | a new queue satisfies the invariant |
| `CheckQueue.StepKeeps` | src/checkqueue.h:69-158 | every atomic step of every thread keeps the invariant: nTodo counts the checks queued or held, failures are held or recorded, what was dealt with has run, whoever sleeps will be woken, and while there is work in the queue not all workers in the loop wait |
| `CheckQueue.Next` | src/checkqueue.h:69-158 | a step from a good state leads to a good state with the same threads, in which work in the queue is attended to by a worker if there is one in the loop |
| `CheckQueue.BatchSize` | src/checkqueue.h:110 | a batch has at least one check, never more than are queued, and never more than the batch size |
| `CheckQueue.BatchIsFair` | src/checkqueue.h:105-110 | a batch of more than one check leaves as many for every other thread, and one below the batch size is the largest that does |
| `CheckQueue.AddWakes` | src/checkqueue.h:146-158 | after more than one check is added no worker waits any more; after a single one a worker that waited, if there is one, has been woken; nobody else is touched |
| `CheckQueue.WorkersKept` | src/checkqueue.h:69-158 | every step keeps this: while there is work in the queue and a worker waits, another worker is about to enter, at work or woken |
| `CheckQueue.WorkersGoOn` | src/checkqueue.h:69-127 | while there is work in the queue some worker in the loop can make progress, whatever the master does |
| `CheckQueue.WorkersEmptyQueue` | src/checkqueue.h:69-127 | so where no worker can make progress the queue is empty |
| `CheckQueue.FailureStopsChecks` | src/checkqueue.h:118-124 | after a failure the rest of the batch is not run, and a batch taken later starts out failed |
| `CheckQueue.InsideIsAsleep` | src/checkqueue.h:164-168 | when nobody is working, every thread in the loop is asleep and nothing is held |
| `CheckQueue.IdleBetweenRounds` | src/checkqueue.h:184-191 | whenever the master has added nothing the queue is idle, so the assertion of the control object cannot fail |
| `CheckQueue.WaitIsExact` | src/checkqueue.h:140-143 | Wait returns true exactly if no check of the round returned false; then the checks that have run and passed are exactly the added ones, each as often as it was added, and the queue is idle |
| `CheckQueue.NeverStuck` | src/checkqueue.h:69-127 | while the master waits some thread can make progress: no wake-up is lost |
| `CheckQueue.ProgressIsMade` | src/checkqueue.h:69-127 | every productive step lowers a natural number |
| `CheckQueue.WaitEnds` | src/checkqueue.h:140-143 | however the threads are scheduled, a run of productive steps is bounded by that number |
| `CheckQueue.EveryRunIsExact` | src/checkqueue.h:69-158 | the same exactness for every interleaving from construction on, with any number of workers and any batch size |
| `PartialMerkle.WidthIsShift` | src/merkleblock.h:66-68 | the shift computes the number of nodes at a height, halving and rounding up |
| `PartialMerkle.RootIsByLevels` | src/merkleblock.cpp:61-76 | the hash of the root, which building and extraction are about, is what is left after hashing neighbours in pairs from the left, level by level, a last odd one with itself |
| `PartialMerkle.MatchedExactly` | src/merkleblock.cpp:78-82 | the matched positions of a range are listed each once, in order, and no others |
| `PartialMerkle.ExtractBuilt` | src/merkleblock.cpp:78-132 | extracting a subtree from wherever its encoding lies gives its hash, its matches and the position after it, and objects exactly if two siblings above a match have the same hash |
| `PartialMerkle.SubtreeAuthentic` | src/merkleblock.cpp:96-132 | for arbitrary bits and hashes: a subtree that comes out with the right hash has only genuine matches, or two different pairs with the same hash are exhibited |
| `PartialMerkle.HashesPerTxid` | src/merkleblock.h:36-40 | at most one hash per transaction |
| `PartialMerkle.HashPerEnd` | src/merkleblock.cpp:83-93 | the hashes are those of the nodes where the descent towards the matches ends, one each, in order |
| `PartialMerkle.EndsCover` | src/merkleblock.cpp:83-93 | these nodes stand side by side from left to right and cover all transactions, each once |
| `PartialMerkle.FlagPerVisit` | src/merkleblock.cpp:78-94 | the flags are those of the nodes visited, in order: whether a match is below |
| `PartialMerkle.VisitsInOrder` | src/merkleblock.cpp:78-94 | nodes are visited depth first: a node before those below it, and left before right |
| `PartialMerkle.HashesPerMatch` | src/merkleblock.h:36-40 | at most one hash more than matches times height |
| `PartialMerkle.BitsPerHash` | src/merkleblock.h:42-48 | exactly how many flag bits there are: 2N-1 plus the single-child nodes above matches |
| `PartialMerkle.FlagBitsBound` | src/merkleblock.h:42-48 | the documented 2N-1 bound holds if and only if no single-child node at the right edge has a match below it |
| `PartialMerkle.FlagBitsExceeded` | src/merkleblock.h:42-48 | a tree of five transactions exceeds the documented bound |
| `PartialMerkle.LastNodeRagged` | src/merkleblock.h:42-48 | the single-child nodes above matches are exactly those at the right edge, one per ragged height |
| `PartialMerkle.SizeExact` | src/merkleblock.h:31-48 | the serialized size of every tree, counted over the matches, against the documented guarantee: the excess is that of the counts and of the flag bits of single-child nodes |
| `PartialMerkle.SizeBound` | src/merkleblock.h:31-34 | by counts over the matches: the documented guarantee on the size is kept by an acceptable tree if and only if its flag bits take less than 253 bytes or those of single-child nodes fit into the last byte |
| `PartialMerkle.SizeExceeded` | src/merkleblock.h:31-34 | a block of 1025 matched transactions takes one byte more than guaranteed |
| `PartialMerkle.PackBits` | src/merkleblock.h:99-104 | bit p of the bytes is flag p, and the padding is zero |
| `PartialMerkle.UnpackBits` | src/merkleblock.h:92-98 | flag p is bit p of the bytes |
| `PartialMerkle.RootRecovered` | src/merkleblock.cpp:150-181 | extraction from the root gives the root hash, all matches, and uses up all bits and hashes |
| `PartialMerkle.RoundTrip` | src/merkleblock.cpp:134-181 | for every block and mask: what is extracted after packing is exactly the matched txids and positions, and the Merkle root unless two siblings above a match have the same hash |
| `PartialMerkle.HashBounds` | src/merkleblock.h:36-40 | both documented bounds on the number of hashes |
| `PartialMerkle.Authenticity` | src/merkleblock.cpp:150-181 | whatever partial tree is received: if it yields the Merkle root of a list of as many txids, every match is the list's txid at its position, in ascending order, or a hash collision is exhibited |
| `PartialMerkle.TreeHeight` | src/merkleblock.cpp:140-143 | the loop finds the least height with a single node |
| `PartialMerkle.IsParentOfMatch` | src/merkleblock.cpp:79-82 | true exactly if a txid below the node is matched |
| `PartialMerkle.PartialMerkleTree.constructor` | src/merkleblock.cpp:134-146 | holds the depth-first encoding of the whole tree |
| `PartialMerkle.PartialMerkleTree.Received` | src/merkleblock.h:92-98 | holds the bits and hashes of the message |
| `PartialMerkle.PartialMerkleTree.TraverseAndBuild` | src/merkleblock.cpp:78-94 | appends the encoding of the subtree, which `ExtractBuilt` inverts |
| `PartialMerkle.PartialMerkleTree.TraverseAndExtract` | src/merkleblock.cpp:96-132 | the extraction that `ExtractBuilt` and `SubtreeAuthentic` are about, with its failure flag; the hash of two children is that of `RootIsByLevels` |
| `PartialMerkle.PartialMerkleTree.ExtractMatches` | src/merkleblock.cpp:150-181 | the whole extraction that `RoundTrip` and `Authenticity` are about, with all its refusals |
| `PartialMerkle.AcceptedOnly` | src/merkleblock.cpp:150-181 | what is accepted has a plausible number of transactions and hashes, uses up every hash and every byte of flags, and raised no objection |
| `PartialMerkle.Relay` | src/merkleblock.cpp:134-181 | building, packing, unpacking and extracting with the class itself, end to end |
| `BlockMerkle.Combine` | src/consensus/merkle.cpp:65-90 | a new leaf is combined with the complete subtrees on its left; afterwards every one bit of the count has the hash of its subtree, and a repetition has been noticed exactly if there is one so far |
| `BlockMerkle.LowestLevel` | src/consensus/merkle.cpp:94-100 | finds the last complete subtree, which is the last node of its level and has no neighbour |
| `BlockMerkle.Sweep` | src/consensus/merkle.cpp:91-127 | going up the right edge, with an odd node combined with itself, gives the root |
| `BlockMerkle.ComputeMerkleRoot` | src/consensus/merkle.cpp:46-137 | the root of the tree, which is what pairing level by level gives, and 0 of no leaves; mutated if and only if two neighbours with all their leaves present have the same hash |
| `BlockMerkle.LevelsSuffice` | src/consensus/merkle.cpp:45-61 | 32 levels suffice if and only if there are at most 2^31 leaves |
| `BlockMerkle.CarryOn` | src/consensus/merkle.cpp:70-84 | a zero bit of the count means that the left neighbour is complete and kept at that level |
| `BlockMerkle.SameHash` | src/consensus/merkle.cpp:35-42 | without repetitions and collisions, nodes of one level with the same hash have the same leaves below them |
| `BlockMerkle.RootCommits` | src/consensus/merkle.cpp:35-42 | two lists with trees of the same height and the same root, neither reported as mutated, are the same, or a collision is exhibited |
| `BlockMerkle.Repeated` | src/consensus/merkle.cpp:14-30 | the documented example of two lists with one root, of which the longer is reported |
| `AddrIndex.SwapKeeps` | src/addrman.cpp:93-111 | swapping two entries of vRandom keeps the manager's invariant |
| `AddrIndex.DeleteKeeps` | src/addrman.cpp:113-125 | deleting an address without references keeps the invariant, and its swap is always in range |
| `AddrIndex.ReleaseKeeps` | src/addrman.cpp:127-140 | freeing a place and dropping the reference keeps reference counts equal to the places held |
| `AddrIndex.OccupyKeeps` | src/addrman.cpp:302-305 | taking a free place and counting the reference keeps the invariant |
| `AddrIndex.LeaveTriedKeeps` | src/addrman.cpp:167-170 | taking an address out of the tried table keeps the invariant for the others |
| `AddrIndex.EnterTriedKeeps` | src/addrman.cpp:183-187 | putting an address into its free place in the tried table keeps the invariant |
| `AddrIndex.CreateKeeps` | src/addrman.cpp:81-91 | a new address gets an unused id and keeps the maps inverse to each other |
| `AddrIndex.ClearNewKeeps` | src/addrman.cpp:127-140 | clearing a place, with deletion of an address that loses its last reference, keeps the invariant |
| `AddrIndex.ClearNewOthers` | src/addrman.cpp:127-140 | clearing a place affects its occupant only, which is forgotten exactly if this was its last reference |
| `AddrIndex.ForgetNewKeeps` | src/addrman.cpp:144-154 | removing an address from all new buckets takes its references and nothing else |
| `AddrIndex.EvictKeeps` | src/addrman.cpp:161-182 | moving a tried address back to the new table keeps the invariant |
| `AddrIndex.EvictOthers` | src/addrman.cpp:161-182 | the evicted address ends up in its home place with one reference and is otherwise unchanged; only that place's occupant is affected: it has one reference less, or is forgotten exactly if it was its last |
| `AddrIndex.MakeTriedKeeps` | src/addrman.cpp:142-188 | moving an address to the tried table keeps the structure that Check_ demands |
| `AddrIndex.MakeTriedOutcome` | src/addrman.cpp:142-188 | the address is in its tried place without references; the former occupant is back in the new table, in its home place with one reference; nobody else is affected but the one whose place that is, which has one reference less or is forgotten with its last; nothing else changes in any of them |
| `AddrIndex.HasBucket` | src/addrman.cpp:219-234 | the search for a bucket of an untried address always finds one, so Good_ never gives up |
| `AddrIndex.InLimbo` | src/addrman.h:435-443 | an address is without references exactly if it was left without a place |
| `AddrIndex.GoodIsTried` | src/addrman.cpp:190-240 | after Good_ a known address is tried, in its place, with success and try at the time given, no attempts, no references and all else as it was; an unknown one changes nothing |
| `AddrIndex.GoodTimed` | src/addrman.cpp:190-240 | the times stay in order if and only if the time of success is positive or the address is unknown |
| `AddrIndex.InsertKeeps` | src/addrman.cpp:291-311 | giving or refusing a place leaves no address without references |
| `AddrIndex.InsertOutcome` | src/addrman.cpp:291-311 | the exact table and reference count afterwards; only a terrible address is forgotten, and a first reference is refused only by a better occupant |
| `AddrIndex.NewsMovesOn` | src/addrman.cpp:251-264 | news never makes an address look older, and adds services without removing any |
| `AddrIndex.AddKeeps` | src/addrman.cpp:242-313 | adding keeps the structure that Check_ demands |
| `AddrIndex.AddOutcome` | src/addrman.cpp:242-313 | adding leaves the tried table and the order of times alone, forgets no address but a terrible one, ignores unroutable addresses, never makes a known one look older, and keeps a new one if and only if its place is free or held by one that is terrible or has another place; a new one is then stored with the address, services, source and penalised time announced, one reference and no history |
| `AddrIndex.AddNewOutcome` | src/addrman.cpp:284-311 | all that becomes of a new address: what is stored of it, and that it is referred to from its place and from nowhere else, or from nowhere |
| `AddrIndex.AddKnownOutcome` | src/addrman.cpp:256-311 | all that becomes of a known address: its time is the announced one less the penalty exactly if it had none or lags by more than an hour or a day and the penalty; services are added; it gets one more place exactly if the news is still news, it is not tried, has room, the draw in 2^n falls on zero, and the place is free or held by a terrible address; and nothing else changes |
| `AddrIndex.TerribleExactly` | src/addrman.cpp:33-51 | the limits in seconds: tried in the last minute, ten minutes ahead, thirty days, three attempts, seven days and ten attempts |
| `AddrIndex.NoteKeeps` | src/addrman.cpp:315-335 | recording attempts, times and services keeps the invariant |
| `AddrIndex.OrderLists` | src/addrman.cpp:462-481 | vRandom lists every known address exactly once |
| `AddrIndex.SwapStep` | src/addrman.cpp:462-481 | drawing the next address at random changes nothing but the order from there on |
| `AddrCheck.CheckedIsOk` | src/addrman.cpp:385-459 | structure and times are exactly what Check_ looks at together with what it does not look at; on a sound structure Check_ looks at the times only |
| `AddrStore.IsomorphicIsOk` | src/addrman.h:346-449 | a manager with the same addresses in the same places under other ids satisfies the invariant too |
| `AddrStore.IsomorphicTimed` | src/addrman.h:346-449 | and its times are in order too |
| `AddrStore.AddressesFit` | src/addrman.h:366-372 | the limits that loading imposes are never exceeded by a manager that satisfies the invariant |
| `AddrStore.StageNew` | src/addrman.h:374-391 | each loaded new address extends the correspondence by one |
| `AddrStore.StageNextTried` | src/addrman.h:394-412 | each loaded tried address finds its place free |
| `AddrStore.StageSlot` | src/addrman.h:415-431 | each loaded place goes to the address that held it |
| `AddrStore.StageEnd` | src/addrman.h:346-449 | once all is loaded the two managers correspond |
| `AddrRead.ReadingNew` | src/addrman.h:374-391 | reading one more new address, with its home place if the table must be rebuilt, keeps the structure sound but for addresses without a place, which are counted |
| `AddrRead.ReadingTried` | src/addrman.h:394-412 | so does reading a tried one, whose place is taken afterwards |
| `AddrRead.ReadingPlace` | src/addrman.h:415-431 | so does reading a place, whatever number it names |
| `AddrRead.BucketsOk` | src/addrman.h:346-431 | so does reading a whole file of any version and any bucket count |
| `AddrRead.ReadIn` | src/addrman.h:374-412 | every address is as a record of the file says |
| `AddrRead.RecordedTimes` | src/addrman.h:346-449 | if the times in the file are in order, those of the manager are |
| `AddrRead.SavedIsAccepted` | src/addrman.h:356-372 | a file that was saved is accepted, and no address occurs twice in it |
| `AddrRead.SavedAll` | src/addrman.h:296-431 | reading what was saved gives the same addresses in the same places, with none left without a place |
| `AddrMan.AddressManager.constructor` | src/addrman.h:451-475 | a new manager is valid and knows nobody |
| `AddrMan.AddressManager.Find` | src/addrman.cpp:68-79 | finds exactly the known addresses |
| `AddrMan.AddressManager.SwapRandom` | src/addrman.cpp:93-111 | swaps in vRandom and in both entries, as `SwapKeeps` assumes |
| `AddrMan.AddressManager.Delete` | src/addrman.cpp:113-125 | removes the address from all four structures, as `DeleteKeeps` assumes; its callers meet the three asserts at its start |
| `AddrMan.AddressManager.ClearNew` | src/addrman.cpp:127-140 | the transition of `ClearNewKeeps` and `ClearNewOthers`; its assert holds |
| `AddrMan.AddressManager.RemoveFromBucket` | src/addrman.cpp:145-151 | one step of the removal from all new buckets |
| `AddrMan.AddressManager.RemoveFromNew` | src/addrman.cpp:144-154 | the transition of `ForgetNewKeeps` |
| `AddrMan.AddressManager.MoveToNew` | src/addrman.cpp:161-182 | the transition of `EvictKeeps` and `EvictOthers`; the place in the new table is free when it is taken, as asserted |
| `AddrMan.AddressManager.MakeTried` | src/addrman.cpp:142-188 | the transition of `MakeTriedKeeps` and `MakeTriedOutcome`; no references are left and the place in the tried table is free, as asserted |
| `AddrMan.AddressManager.FindBucket` | src/addrman.cpp:219-229 | finds a bucket holding the address if there is one, whatever random bucket it starts from |
| `AddrMan.AddressManager.Good` | src/addrman.cpp:190-240 | keeps the structure sound, for any time; a manager that Check_ accepted stays so if and only if the time is positive or the address is unknown; the transition of `GoodIsTried` |
| `AddrMan.AddressManager.Create` | src/addrman.cpp:81-91 | the transition of `CreateKeeps` |
| `AddrMan.AddressManager.Insert` | src/addrman.cpp:291-311 | the transition of `InsertKeeps` and `InsertOutcome` |
| `AddrMan.AddressManager.Refresh` | src/addrman.cpp:256-283 | updates a known address as in `NewsMovesOn` and `AddKnownOutcome`, and tells whether it should get one more place, with odds that halve with each place it has |
| `AddrMan.AddressManager.Add` | src/addrman.cpp:242-313 | keeps the structure sound and a valid manager valid; the transition of `AddOutcome`, `AddNewOutcome` and `AddKnownOutcome`; returns true exactly for an unknown routable address |
| `AddrMan.AddressManager.Attempt` | src/addrman.cpp:315-335 | keeps the structure sound, for any time, and a valid manager valid if and only if the time is not negative or the address is unknown; counts a failure only once per success of any other address |
| `AddrMan.AddressManager.Connected` | src/addrman.cpp:483-501 | keeps the structure sound and a valid manager valid; moves the time only if it is older than 20 minutes |
| `AddrMan.AddressManager.SetServices` | src/addrman.cpp:503-519 | keeps the structure sound and a valid manager valid; changes the services of that address only |
| `AddrMan.AddressManager.GetAddr` | src/addrman.cpp:462-481 | at most 23 percent and 2500 addresses, all presentable and none twice, and all presentable ones if the bound is not reached |
| `AddrMan.AddressManager.CheckInfos` | src/addrman.cpp:393-417 | accepts exactly if every single address is in order; collects the tried ones and the reference counts |
| `AddrMan.AddressManager.CheckInfo` | src/addrman.cpp:394-416 | accepts exactly if this address is in order |
| `AddrMan.AddressManager.CheckTried` | src/addrman.cpp:424-452 | accepts exactly if the tried table holds every tried address once, in its place |
| `AddrMan.AddressManager.CheckNew` | src/addrman.cpp:438-454 | accepts exactly if the new table holds every new address as often as it is counted, in right places |
| `AddrMan.AddressManager.Check` | src/addrman.cpp:385-459 | returns zero if and only if everything it looks at is in order, the key included; on a sound structure if and only if the times are in order and the key is not null |
| `AddrMan.AddressManager.SaveNew` | src/addrman.h:309-319 | writes every new address once and numbers them consistently |
| `AddrMan.AddressManager.SaveTried` | src/addrman.h:320-328 | writes every tried address once |
| `AddrMan.AddressManager.Save` | src/addrman.h:296-343 | the file holds the whole state |
| `AddrMan.AddressManager.LoadNew` | src/addrman.h:374-392 | reads the new addresses as `ReadingNew` describes |
| `AddrMan.AddressManager.LoadTried` | src/addrman.h:394-413 | reads the tried addresses as `ReadingTried` describes, and counts those whose place is taken |
| `AddrMan.AddressManager.LoadBucket` | src/addrman.h:415-431 | reads the places of one bucket as `ReadingPlace` describes |
| `AddrMan.AddressManager.TakeHome` | src/addrman.h:384-389 | refers to an address from its home place exactly if that is free |
| `AddrMan.AddressManager.Prune` | src/addrman.h:433-443 | deletes exactly the addresses without references and counts them; the others keep everything but their place in vRandom |
| `AddrMan.AddressManager.Load` | src/addrman.h:346-449 | from a file of any version and bucket count: a sound manager, valid if the times in the file are in order; every address is as the file says; a tried one is lost only if its place is taken, and so is a new one whose table must be rebuilt; and a manager that was saved comes back, in the same places |
| `AddrMan.Unserialize` | src/addrman.h:346-372 | a file is refused exactly if its key has another size, it claims too many addresses, or ends too early |
| `AddrMan.Restart` | src/addrman.h:296-449 | saving and loading gives the same addresses in the same places, up to ids |
| `AddrMan.Run` | src/addrman.cpp:190-519 | whatever sequence of operations a manager goes through from its construction on, its structure is sound, and Check_ returns 0 if and only if the times are in order and the key is not null, as they are if no time given was out of range |
| `Mempool.AncestorsClosed` | src/txmempool.h:583-590 | ancestors of ancestors are ancestors, in the pool and earlier |
| `Mempool.FewerAncestors` | src/miner.h:87-97 | an ancestor has fewer ancestors, so sorting by their number puts parents first |
| `Mempool.ClosedUnderAncestors` | src/miner.cpp:248-257 | a set with all parents of its members has all their ancestors |
| `Miner.OrderedAppend` | src/miner.cpp:358-366 | appending a transaction whose parents are in keeps parents before children |
| `Miner.OrderedIsClosed` | src/miner.cpp:358-366 | such a block contains all parents of its transactions |
| `Miner.SortedIsOrdered` | src/miner.cpp:428-437 | in a package sorted by ancestor count every parent comes earlier or is in the block already |
| `Miner.TracksEnough` | src/miner.h:37-51 | tracked totals never fall short of what remains to be added of a package |
| `Miner.CachedTracks` | src/miner.h:38-44 | the totals the pool keeps are right for a package of which nothing is in the block |
| `Miner.TracksNext` | src/miner.h:119-131 | taking one included ancestor off the totals keeps them right, the fees included |
| `Miner.FeesExact` | src/miner.h:119-131 | tracked fees are the modified fees of what is left if and only if the ancestors included after the first have not been prioritised on balance |
| `Miner.FeesDrift` | src/miner.cpp:397-405 | two ancestors of which the second was prioritised leave a package with the wrong fees |
| `Miner.NotInBlockYet` | src/miner.cpp:384-409 | a descendant of a new transaction is not in the block yet, unless it is new itself |
| `Miner.TracksOn` | src/miner.cpp:384-409 | growing the block keeps the totals of all other packages right |
| `Miner.UpdatedIsUpToDate` | src/miner.cpp:384-409 | if every package never turned down has had exactly its ancestors in the block taken off, that holds again after all of an addition has been taken off |
| `Miner.TotalsExactly` | src/miner.h:37-51 | the totals of a package are those of what is missing of it in the block if and only if every ancestor there that has not been taken off has size 0 |
| `Miner.CountedAgain` | src/miner.cpp:397-402 | two ancestors are in the block, and the package is tracked anew when the second enters: the first is counted again |
| `Miner.ExactTotals` | src/miner.h:37-51 | the totals of such a package are exactly those of what is missing of it in the block |
| `Miner.StillLeftOut` | src/miner.cpp:272-304 | a reason to leave a transaction out persists while the block fills |
| `Miner.PressedOn` | src/miner.cpp:306-347 | misses are counted only close to a limit, and a block is finished only closer still or after more than 50 of them; a transaction that fits does neither |
| `Miner.SelectionFails` | src/miner.cpp:523-557 | a package that is turned down is left out, and never counted twice among the failures in a row |
| `Miner.SelectionAdds` | src/miner.cpp:559-575 | after a package is added everything behind is still in the block, tracked or left out, and the count of failures starts again |
| `Miner.TheTotals` | src/miner.cpp:509-521 | the totals under consideration are those of the package without some of its ancestors in the block, and exactly those of what is missing if it was not turned down before |
| `Miner.ThePackage` | src/miner.cpp:505-549 | the totals under consideration cover what is left of the package |
| `Miner.BlockAssembler.constructor` | src/miner.cpp:84-119 | the limits are exactly the settings in 32 bits, clamped to what leaves room for header and coinbase; one that is not given follows from the other, or is the default |
| `Miner.BlockAssembler.Reset` | src/miner.cpp:121-137 | an empty block whose totals are the reserved ones |
| `Miner.BlockAssembler.IsStillDependent` | src/miner.cpp:248-257 | false exactly if all parents are in the block |
| `Miner.BlockAssembler.TestPackage` | src/miner.cpp:272-280 | true exactly if weight and signature operations stay below the limits |
| `Miner.BlockAssembler.TestPackageTransactions` | src/miner.cpp:287-304 | true exactly if every transaction may be included and the size stays below its limit |
| `Miner.BlockAssembler.TestForBlock` | src/miner.cpp:306-356 | true exactly if the transaction is final and fits; the exact conditions under which the block is declared finished or a miss is counted |
| `Miner.BlockAssembler.AddToBlock` | src/miner.cpp:358-382 | appends one transaction; all totals stay the exact sums over the block |
| `Miner.BlockAssembler.SortForBlock` | src/miner.cpp:428-437 | the package in order of ancestor count, complete and without duplicates |
| `Miner.BlockAssembler.AddPackage` | src/miner.cpp:562-570 | adds exactly what is missing of the package, parents first, within the limits; the accounted size covers it |
| `Miner.BlockAssembler.UpdateDescendants` | src/miner.cpp:388-407 | takes the size, signature operations and fee of one new transaction off the totals of all its descendants outside the block, those of the pool if none were tracked, and leaves all other totals alone |
| `Miner.BlockAssembler.UpdatePackagesForAdded` | src/miner.cpp:384-409 | afterwards exactly the packages that were tracked or have a new ancestor are tracked, each with the sums over its new ancestors taken off, and all totals are right for the new block |
| `Miner.BlockAssembler.Test` | src/miner.cpp:523-557 | the exact conditions for both tests: totals below the limits; all of the rest includable and its size, if accounted for, below the limit; a package is turned down only with a reason that persists |
| `Miner.BlockAssembler.Take` | src/miner.cpp:562-575 | adds a package and brings all tracked totals up to date, so that those of packages never turned down stay exact; without accounting the size stays |
| `Miner.BlockAssembler.AddPackageTxs` | src/miner.cpp:449-577 | keeps order, limits and exact totals; if it runs out of candidates, every offered transaction is in the block or has a reason to be left out; it stops early only at a package with a too low fee, whose size and signature operations are exactly those of what is missing unless it was turned down before, or within 4000 of the weight limit after more than 1000 different transactions in a row that are too large |
| `Miner.BlockAssembler.Consider` | src/miner.cpp:523-575 | adds a package or turns it down for a reason, and keeps count of the failures in a row |
| `Miner.BlockAssembler.Offer` | src/miner.cpp:618-643 | adds one transaction by priority, lets it wait for a parent, or refuses it with a reason and at most one miss |
| `Miner.BlockAssembler.AddPriorityTxs` | src/miner.cpp:579-659 | keeps order, limits and exact totals, with the size of every transaction it adds accounted for; if exhausted, every transaction is in, waits for a parent, or does not fit; the block is declared finished only within 400 of the weight, 100 of the size or 8 of the signature limit, or when more than 50 transactions were refused close to it |
| `Miner.Requeue` | src/miner.cpp:645-655 | children of a new transaction move from waiting to the queue, and nothing is lost |
| `Miner.Requeued` | src/miner.cpp:612-657 | so the number of candidates falls with every transaction added |
| `Miner.BlockAssembler.SetAccounting` | src/miner.cpp:590-658 | size accounting may be switched on where every transaction so far has been accounted for, without upsetting the totals |
| `Miner.BlockAssembler.CreateNewBlock` | src/miner.cpp:139-192 | whatever the pool and the settings: parents before children, all limits kept, exact totals, and no offered transaction left out without a reason when candidates run out; the size is exactly that of the block if it is accounted for and stays below its limit, and that of the part chosen by priority if it is not |
| `Cuckoo.BitFlags.constructor` | src/cuckoocache.h:61-68 | room for at least the requested flags, all set |
| `Cuckoo.BitFlags.Set` | src/cuckoocache.h:92-95 | sets one flag and no other |
| `Cuckoo.BitFlags.Unset` | src/cuckoocache.h:103-106 | clears one flag and no other |
| `Cuckoo.BitFlags.IsSet` | src/cuckoocache.h:113-116 | reads the flag |
| `Cuckoo.LiveUpdate` | src/cuckoocache.h:264-296 | how one changed place changes the number of live entries of the epoch |
| `Cuckoo.HasIsMember` | src/cuckoocache.h:443-453 | looking in the eight places is looking in the whole table |
| `Cuckoo.Swap` | src/cuckoocache.h:406-414 | swapping the element in hand with one that is kept loses nothing and keeps everything in its places |
| `Cuckoo.Put` | src/cuckoocache.h:384-391 | putting it into a free place exchanges exactly one old entry for the new element |
| `Cuckoo.OneForOne` | src/cuckoocache.h:363-365 | what that exchange means for membership: exactly the lost element goes, and nothing is stored twice |
| `Cuckoo.TrailOn` | src/cuckoocache.h:406-414 | one displacement more continues the chain: no free place, next place in turn, and what was there is in hand |
| `Cuckoo.TrailStuck` | src/cuckoocache.h:382-391 | only an element without any free place displaces another one |
| `Cuckoo.EpochsFollow` | src/cuckoocache.h:406-411 | a displaced element takes its epoch along, and the inserted one is of the current epoch: the pairs of elements and epochs are conserved |
| `Cuckoo.Cache.constructor` | src/cuckoocache.h:315-329 | an empty table, all of it free, of size and epoch size as computed |
| `Cuckoo.Cache.AllowErase` | src/cuckoocache.h:241-244 | marks one place as free |
| `Cuckoo.Cache.PleaseKeep` | src/cuckoocache.h:250-253 | marks one place as taken |
| `Cuckoo.Cache.Find` | src/cuckoocache.h:443-453 | finds the element if one of its eight places holds it |
| `Cuckoo.Cache.Contains` | src/cuckoocache.h:443-453 | true exactly if the table holds the element; erasing frees exactly one place that holds it, and only then |
| `Cuckoo.Cache.CountUnused` | src/cuckoocache.h:270-275 | counts the live entries of the current epoch |
| `Cuckoo.Cache.Age` | src/cuckoocache.h:280-286 | frees exactly the entries of the previous epoch and makes the current one the previous |
| `Cuckoo.Cache.EpochCheck` | src/cuckoocache.h:264-296 | exactly when an epoch ends; then the entries of the previous one are free and the current one is the previous, and otherwise nothing changes; the exact countdown, at least one, a sixteenth of the epoch and what is left of it; the live entries of the epoch, the next one and the countdown stay within the bound |
| `Cuckoo.Cache.FindFree` | src/cuckoocache.h:384-386 | the first free place of the element, if it has one |
| `Cuckoo.Cache.NextLoc` | src/cuckoocache.h:406 | the place after the last one looked at, cyclically |
| `Cuckoo.Cache.Fill` | src/cuckoocache.h:384-391 | stores the element with its epoch and takes the place |
| `Cuckoo.Cache.Insert` | src/cuckoocache.h:368-416 | a present element is kept and moves to the current epoch; another one ends in its first free place, possibly after displacements, or the last displaced element is dropped, and that only after exactly as many displacements as the depth limit allows, each of an element without a free place to its next place; epochs move as in `EpochsFollow`; the table holds what it held and the new element except exactly that one entry, and every element is in one of its places |
| `Base58.EncodeRoom` | src/base58.cpp:81 | 138/100 of the length is room enough for every byte string |
| `Base58.DecodeRoom` | src/base58.cpp:34 | 733/1000 of the length is room enough for every text |
| `Base58.Ascending` | src/base58.cpp:18-19 | no character occurs twice in the alphabet |
| `Base58.AlphabetIs` | src/base58.cpp:18-19 | the alphabet is the digits and letters without 0, O, I and l; with `Ascending`, in the order of their codes |
| `Base58.CharOfDigit` | src/base58.cpp:18-19 | every digit's character stands for that digit |
| `Base58.DigitOfChar` | src/base58.cpp:18-19 | and the other way round |
| `Base58.ConvertBack` | src/base58.cpp:21-109 | conversion between any two bases that keeps leading zeroes is undone by converting back |
| `Base58.DecodeEncode` | src/base58.cpp:21-109 | decoding an encoded byte string gives it back |
| `Base58.EncodeDecode` | src/base58.cpp:21-109 | encoding what was decoded gives the text back without surrounding white space |
| `Base58.EncodeIsNumber` | src/base58.cpp:71-109 | the text stands for the same number as the bytes, with as many leading ones as there are leading zeroes |
| `Base58.MulAdd` | src/base58.cpp:85-95 | the carry loop multiplies the number in the buffer and adds a digit, without overflow |
| `Base58.SkipZeroes` | src/base58.cpp:99-102 | skips to the digits of the number |
| `Base58.EncodeBase58` | src/base58.cpp:71-109 | the encoding that `DecodeEncode` inverts |
| `Base58.ReadCharacters` | src/base58.cpp:36-53 | fails exactly on texts that do not decode; otherwise the bytes of the number read |
| `Base58.DecodeBase58` | src/base58.cpp:21-69 | the decoding that `EncodeDecode` inverts, including white space and all failures |
| `Base58.DecodeString` | src/base58.cpp:116-119 | a string is read up to its first NUL |
| `Base58.EncodeBase58Check` | src/base58.cpp:121-128 | a text that decodes to the bytes followed by their four checksum bytes |
| `Base58.DecodeBase58Check` | src/base58.cpp:130-145 | succeeds exactly if the text decodes and its last four bytes are the checksum of the others, which are returned |
| `Base58.DecodeEncodeCheck` | src/base58.cpp:121-145 | what was encoded with a checksum is decoded again |
| `Base58.EncodeDecodeCheck` | src/base58.cpp:121-145 | only texts that were encoded with a checksum are decoded |
| `RollingBloom.WipedTag` | src/bloom.cpp:257-265 | the mask arithmetic clears a position that carries the number and no other |
| `RollingBloom.PutTag` | src/bloom.cpp:273-275 | the two bits are written at one position and nowhere else |
| `RollingBloom.Wipe` | src/bloom.cpp:259-265 | every position that carries the number is cleared, and no other |
| `RollingBloom.StillMarked` | src/bloom.cpp:251-265 | reusing a number leaves the marks of the last two generations alone |
| `RollingBloom.Unreused` | src/bloom.cpp:251-265 | the number that is reused is that of the generation before the last two |
| `RollingBloom.StillRecent` | src/bloom.cpp:251-265 | a mark that survives a new generation was left by a key of a recent one |
| `RollingBloom.TracedOn` | src/bloom.cpp:267-276 | after an insertion every mark is the new key's or was there for a reason |
| `RollingBloom.RollingFilter.constructor` | src/bloom.cpp:217-242 | an empty filter with generations of half the elements, rounded up |
| `RollingBloom.RollingFilter.Reset` | src/bloom.cpp:305-313 | forgets everything |
| `RollingBloom.RollingFilter.Contains` | src/bloom.cpp:285-297 | true exactly if all positions of the key are marked |
| `RollingBloom.RollingFilter.NextGeneration` | src/bloom.cpp:251-266 | starts a generation and keeps the invariant |
| `RollingBloom.RollingFilter.Mark` | src/bloom.cpp:269-276 | marks the positions of the key with the generation's number and touches no other |
| `RollingBloom.RollingFilter.Insert` | src/bloom.cpp:249-277 | keeps the invariant with one more key |
| `RollingBloom.RollingFilter.RecentAreKept` | src/bloom.h:113-114 | the last two generations' worth of keys are always found |
| `RollingBloom.RollingFilter.MarkedIsRecent` | src/bloom.h:113-114 | a position is marked if and only if a key of the current or the last two generations has it |
| `RollingBloom.RollingFilter.RecentIsLate` | src/bloom.h:113-114 | such a key is among the last three generations' worth |
| `Shifts.LeftShift` | src/arith_uint256.cpp:22-36 | limbs combined as in the loop are the number times a power of two, modulo the width |
| `Shifts.RightShift` | src/arith_uint256.cpp:39-53 | limbs combined as in the loop are the number divided by a power of two |
| `Shifts.NoCommonBits` | src/arith_uint256.cpp:29-34 | the parts that meet in a limb have no bit in common, so their bitwise or is their sum |
| `Arith.LeftOr` | src/arith_uint256.cpp:29-34 | in every step of the left shift or-ing a limb is adding to it |
| `Arith.RightOr` | src/arith_uint256.cpp:46-51 | in every step of the right shift or-ing a limb is adding to it |
| `Arith.AlignedOr` | src/arith_uint256.cpp:100 | the quotient bit to be set is not set yet |
| `Arith.BaseUint.constructor` | src/arith_uint256.h:51-57 | the number given |
| `Arith.BaseUint.Copy` | src/arith_uint256.h:38-42 | the same number in an array of its own |
| `Arith.BaseUint.Assign` | src/arith_uint256.h:88-95 | the number given |
| `Arith.BaseUint.Add` | src/arith_uint256.h:135-145 | the sum modulo the width, also if both operands are the same object |
| `Arith.BaseUint.Increment` | src/arith_uint256.h:173-180 | one more, modulo the width |
| `Arith.BaseUint.Decrement` | src/arith_uint256.h:190-197 | one less, modulo the width |
| `Arith.BaseUint.Complement` | src/arith_uint256.h:69-75 | the largest number minus this one |
| `Arith.BaseUint.Negate` | src/arith_uint256.h:77-84 | the negative, modulo the width |
| `Arith.BaseUint.Subtract` | src/arith_uint256.h:147-151 | the difference modulo the width, also if both operands are the same object |
| `Arith.BaseUint.CompareTo` | src/arith_uint256.cpp:110-119 | the sign of the comparison of the numbers |
| `Arith.BaseUint.MultiplySmall` | src/arith_uint256.cpp:56-65 | the product with a 32-bit number, modulo the width |
| `Arith.BaseUint.AddMultiple` | src/arith_uint256.cpp:73-78 | adds one limb's multiple of the other operand at that limb's place |
| `Arith.BaseUint.Multiply` | src/arith_uint256.cpp:68-81 | the product modulo the width for two objects; 0 for a number multiplied by itself in place |
| `Arith.MultiplySelf` | src/arith_uint256.cpp:68-81 | the loop over an operand that has just been cleared adds nothing |
| `Arith.BaseUint.ShiftLeft` | src/arith_uint256.cpp:22-36 | the number times two to the shift, modulo the width, for every shift |
| `Arith.BaseUint.ShiftRight` | src/arith_uint256.cpp:39-53 | the number divided by two to the shift, for every shift |
| `Arith.BaseUint.Clear` | src/arith_uint256.cpp:25-26 | zero |
| `Arith.BaseUint.Bits` | src/arith_uint256.cpp:172-184 | the position of the highest bit set plus one, or zero |
| `Arith.BaseUint.Take` | src/arith_uint256.cpp:98-101 | sets the quotient bit and takes the shifted divisor off |
| `Arith.DivisionStep` | src/arith_uint256.cpp:97-104 | each step of the long division keeps number = quotient * divisor + rest with a shrinking rest |
| `Arith.BaseUint.FindQuotient` | src/arith_uint256.cpp:97-104 | the loop finds the quotient |
| `Arith.BaseUint.Divide` | src/arith_uint256.cpp:84-107 | the quotient rounded down, also if both operands are the same object; refuses a zero divisor |
| `Work.OverflowIsExact` | src/arith_uint256.cpp:217-220 | the three size tests hold exactly if the target does not fit into 256 bits |
| `Work.SetCompact` | src/arith_uint256.cpp:204-222 | the number a compact form stands for, modulo 2^256; the overflow flag is exact, and the sign flag is set exactly for a negative nonzero number |
| `Work.KnownTargets` | src/test/arith_uint256_tests.cpp:412-531 | targets of known compact forms |
| `Work.NotLargest` | src/chain.cpp:126-132 | an accepted target is never the largest number, so adding one does not wrap |
| `Work.ProofArith` | src/chain.cpp:128-132 | the quotient that fits plus one is the quotient of 2^256 |
| `Work.Expected` | src/chain.cpp:128-132 | computes 2^256 / (target + 1) in 256 bits |
| `Work.GetBlockProof` | src/chain.cpp:120-133 | the work is the floor of 2^256 / (target + 1), and 0 for a zero, negative or overflowing target |
| `Work.MantissaBound` | src/arith_uint256.cpp:226-234 | the first bytes of a number fit into 24 bits, and the highest of these is set exactly if the number doubled takes a byte more |
| `Work.CompactStandsFor` | src/arith_uint256.cpp:204-244 | what size, sign and 23 bits made from a number stand for is the number truncated to the bytes that have room, with its sign |
| `Work.FirstBytes` | src/arith_uint256.cpp:228-233 | the first three bytes of the number |
| `Work.Pack` | src/arith_uint256.cpp:240-243 | size, sign and mantissa side by side, in 32 bits; both asserts hold |
| `Work.GetCompact` | src/arith_uint256.cpp:224-245 | the compact form, read back, is the number truncated to its first three bytes, counting a sign bit; it is negative exactly if asked for and not zero |
| `Chain.GetSkipHeight` | src/chain.cpp:73-81 | a skip link goes back |
| `Chain.SkipHeightIs` | src/chain.cpp:70-81 | a link goes back by the lowest one bit of an even height, and by the two lowest ones above the last of an odd height |
| `Chain.AncestorOfAncestor` | src/chain.cpp:83-107 | an ancestor's ancestor is the block's ancestor |
| `Chain.AncestorsBuilt` | src/chain.cpp:114-118 | ancestors have right skip links too |
| `Chain.BlockIndex.constructor` | src/chain.cpp:114-118 | a new entry's skip link leads to its ancestor at the skip height |
| `Chain.BlockIndex.GetAncestor` | src/chain.cpp:83-107 | the walk over skip links ends at the ancestor that following parents gives; null exactly if the height is out of range |
| `Chain.LastCommonAncestor` | src/net_processing.cpp:452-467 | a common ancestor such that the branches differ above it |
| `Chain.ActiveChain.constructor` | src/chain.h:418-421 | an empty chain |
| `Chain.ActiveChain.ContainsAncestors` | src/chain.h:447-449 | a block in the chain has all its ancestors there |
| `Chain.ActiveChain.SetTip` | src/chain.cpp:11-21 | the chain is then exactly the branch of the new tip, although the loop stops where the old chain agrees |
| `Chain.ActiveChain.FindFork` | src/chain.cpp:51-60 | the last block the branch has in common with the chain; null only if there is none |
| `Chain.ActiveChain.GetLocator` | src/chain.cpp:23-49 | starts at the block, ends at the genesis block, descends strictly, by one ten times and then by doubling steps |
| `Chain.BackStep` | src/chain.cpp:23-49 | the distances of a locator: ten single steps, then each twice the one before |
| `Chain.LocatorLength` | src/chain.cpp:23-49 | a locator has at most 12 entries more than the logarithm of the height |
| `CompactBlock.EncodeIndexes` | src/blockencodings.h:62-67 | writes the gaps between indexes, in 64 bits |
| `CompactBlock.DecodeIndexes` | src/blockencodings.h:42-61 | reads the indexes that gaps stand for, or fails if one exceeds 16 bits |
| `CompactBlock.DecodeEncoded` | src/blockencodings.h:38-68 | decoding the gaps gives the indexes back |
| `CompactBlock.Arrives` | src/blockencodings.h:38-68 | encoded indexes are decoded again if and only if they ascend, and otherwise the message is refused |
| `CompactBlock.DecodedIncreasing` | src/blockencodings.h:55-61 | among decoded lists those ascend in which none but the last index is the largest 16-bit number |
| `CompactBlock.AscendsExactly` | src/blockencodings.h:42-61 | a message is accepted with ascending indexes if and only if its differences and the steps between them add up to at most the largest 16-bit number |
| `CompactBlock.NotIncreasing` | src/blockencodings.h:55-61 | a message whose decoded indexes do not ascend |
| `CompactBlock.MakeCompact` | src/blockencodings.cpp:20-30 | the first transaction in full, short ids of all others in order |
| `CompactBlock.PlacePrefilled` | src/blockencodings.cpp:58-76 | accepts exactly the messages whose full transactions are there and have 16-bit places up to which all are accounted for; then they land at their differential places and leave exactly one free place per short id |
| `CompactBlock.PlacesDecoded` | src/blockencodings.cpp:58-68 | indexes that are the gaps between places give the places back |
| `CompactBlock.MapShortIds` | src/blockencodings.cpp:78-104 | the i-th short id gets the i-th free place, in 16 bits; ends with success exactly if the short ids differ and no bucket is overfull, and does not end exactly if there is a short id and no place that 16 bits can number is free |
| `CompactBlock.EndlessExactly` | src/blockencodings.cpp:82-87 | that happens exactly if 65536 transactions were sent in full |
| `CompactBlock.OwnPlaces` | src/blockencodings.cpp:82-87 | every short id has its own free place if and only if there are at most 65536 transactions |
| `CompactBlock.LastPlace` | src/blockencodings.cpp:82-87 | with more, the last short id gets a place 65536 too low |
| `CompactBlock.TakenPlace` | src/blockencodings.cpp:82-87 | a message where that is the place of the transaction sent in full |
| `CompactBlock.NeverReturning` | src/blockencodings.cpp:82-87 | a message on which the search for places does not end |
| `CompactBlock.MatchOwn` | src/blockencodings.cpp:106-165 | free places get own transactions with their short id; a place stays free only if no own transaction has it or more than one; the count is exact; no other place is touched |
| `CompactBlock.TriedOn` | src/blockencodings.cpp:112-127 | one more own transaction keeps that property |
| `CompactBlock.TriedWhenFull` | src/blockencodings.cpp:128-132 | stopping once all places are filled misses nothing |
| `CompactBlock.PartialBlock.constructor` | src/blockencodings.h:194-201 | an empty block |
| `CompactBlock.PartialBlock.InitData` | src/blockencodings.cpp:50-170 | for every message the exact status; on success the block is laid out with its full transactions, the places of the short ids are right if and only if there are at most 65536 transactions, and then free places hold own transactions that match |
| `CompactBlock.PartialBlock.MissingIndexes` | src/net_processing.cpp:2069-2073 | exactly the free places, in order, in 16 bits |
| `CompactBlock.PartialBlock.FillBlock` | src/blockencodings.cpp:178-219 | invalid exactly if the number of transactions sent is not that of free places; otherwise the k-th one sent goes to the k-th free place, and the status is the check's |
| `CompactBlock.SendBlockTransactions` | src/net_processing.cpp:1152-1162 | the transactions asked for, in order; refused exactly if an index is outside the block |
| `CompactBlock.MatchedIsRight` | src/blockencodings.cpp:106-165 | without false matches every place filled is filled with the block's own transaction |
| `CompactBlock.AskedIsNeeded` | src/net_processing.cpp:2069-2073 | a transaction is asked for only if no own one has its short id, or more than one has |
| `CompactBlock.CompactStarts` | src/blockencodings.cpp:50-104 | a block sent by `MakeCompact` is started exactly if its short ids differ and no bucket is overfull |
| `CompactBlock.WrongIndexes` | src/net_processing.cpp:2069-2073 | beyond 65536 transactions the last ones are asked for by indexes that are wrong or do not ascend |
| `CompactBlock.StartedRight` | src/blockencodings.cpp:106-165 | what is there after matching is the block's own, and what is not there is needed |
| `CompactBlock.Relay` | src/net_processing.cpp:2054-2083 | sending compactly, matching, asking, answering and filling rebuilds the block if and only if it has at most 65536 transactions, different short ids and no overfull bucket, and asks for nothing that could have been had |
| `InFlight.CountsChange` | src/net_processing.cpp:310-364 | changing one peer changes the two counters by what that peer contributes |
| `InFlight.CountsDrop` | src/net_processing.cpp:277-305 | so does removing one |
| `InFlight.Unlinked` | src/net_processing.cpp:310-330 | taking a block off its queue and the map keeps all queues and the map in agreement |
| `InFlight.Relinked` | src/net_processing.cpp:335-364 | so does putting one on |
| `InFlight.PeerGone` | src/net_processing.cpp:289-291 | a peer that leaves takes exactly its blocks with it |
| `InFlight.MissingOnes` | src/net_processing.cpp:2321-2329 | the blocks to ask for are not in flight and none is listed twice |
| `InFlight.Downloads.constructor` | src/net_processing.cpp:109-118 | nothing in flight, no peers, all counts zero |
| `InFlight.Downloads.InitializeNode` | src/net_processing.cpp:265-275 | a new peer has nothing in flight; all books stay balanced |
| `InFlight.Downloads.UpdatePreferredDownload` | src/net_processing.cpp:235-243 | the number of preferred peers stays exact |
| `InFlight.Downloads.MarkBlockAsReceived` | src/net_processing.cpp:310-330 | returns whether the block was requested; exactly that entry leaves queue and map, and all counters stay exact |
| `InFlight.Downloads.MarkBlockAsInFlight` | src/net_processing.cpp:335-364 | returns false exactly if the block is in flight from this peer; otherwise it leaves whoever had it and joins the end of this peer's queue, and all counters stay exact |
| `InFlight.Downloads.FinalizeNode` | src/net_processing.cpp:277-305 | the peer and exactly its blocks are gone; when the last peer leaves nothing is in flight and all counts are zero, so the assertions cannot fail |
| `InFlight.Downloads.OnCompactBlock` | src/net_processing.cpp:2040-2044 | an announced block is asked of the peer exactly if nobody was asked and the peer has room |
| `InFlight.Downloads.WalkBack` | src/net_processing.cpp:2318-2329 | collects all missing blocks, or reports exactly if there are too many |
| `InFlight.Downloads.FetchDirectly` | src/net_processing.cpp:2317-2351 | asks for the missing blocks from the earliest on, all of them or until the peer has 16; for none if there are too many |
| `InFlight.Downloads.FindNextBlocksToDownload` | src/net_processing.cpp:505-553 | the missing blocks towards the peer's best one, in order, up to the count, the first invalid block or the window's end; names as staller exactly the other peer that holds the first missing block when there is nothing to ask for |
| `InFlight.Downloads.Download` | src/net_processing.cpp:3196-3203 | asks for exactly these blocks and never exceeds 16 |
| `InFlight.Run` | src/net_processing.cpp:235-364 | after any sequence of events the books are balanced and no peer has more than 16 blocks in flight |

## Left out

- CompactBlock.MapShortIds: the bucket test of the hash table is an arbitrary predicate.
- CompactBlock.PartialBlock.InitData: `extra_count`, which is only logged, is not kept.
- CompactBlock.Relay: assumes that the coinbase is not repeated, and that an own transaction with the short id of one in the block is that one; otherwise the rebuilt block is left to the check that `FillBlock` makes.
- CoinsCodec.Serialize: the stream is one of tokens, so the byte forms of variable-length integers and compressed scripts are not modelled; pruned coins, which the source asserts not to get, are excluded.
- CoinsCodec.RoundTrip: amounts whose compressed form has more than 64 bits, which are not amounts of money, are covered by `ParseEncoding` only.
- Coins.CoinsViewCache.Flush: the best block hash and the memory usage counter that the caches also carry are not modelled.
- Coins.Run: `AccessCoins`, `HaveCoinsInCache`, `GetValueIn` and `GetPriority` only read what is modelled and are left out.
- CheckQueue.WaitEnds: a bound on productive steps; that a runnable thread is eventually scheduled is left to the operating system, and so is `fQuit`.
- PartialMerkle.TreeHeight: widths are unbounded numbers; the source's 32-bit sums do not wrap for the block sizes that `ExtractMatches` admits.
- PartialMerkle.SizeBound: is about trees that `ExtractMatches` accepts; `SizeExact` is about all.
- PartialMerkle.RoundTrip: is about at most MAX_BLOCK_BASE_SIZE / 60 transactions, the most that `ExtractMatches` accepts, and starts with an empty position list, which the source appends to without clearing.
- BlockMerkle.ComputeMerkleRoot: more than 2^31 leaves, for which the source has no room; Merkle branches and the witness root are left out.
- BlockMerkle.RootCommits: is about trees of the same height; the hashes one level up of a list are a shorter list with its root.
- AddrMan.Unserialize: a file with a negative count, or in which an address occurs twice, is left out; no manager writes one.
- AddrMan.AddressManager.Load: is about the files that `Unserialize` accepts.
- AddrMan.AddressManager.Find: the port-insensitive map is read without the insertion of a default entry that the source's lookup makes for an unknown id.
- AddrMan: `Select_`, `GetChance`, which work on floating point odds, and `Clear` are left out.
- Miner.BlockAssembler.UpdatePackagesForAdded: the fees of a package that was not tracked depend on which new ancestor comes first; `FeesExact` is about them.
- Miner.BlockAssembler.AddPackageTxs: which package scores best is left open, so nothing is said about the fees collected being high; that virtual size times four bounds the weight is an assumption about the pool.
- Miner.BlockAssembler.CreateNewBlock: the coinbase transaction, its commitment, the header and the final validity test are left out.
- Miner.BlockAssembler.AddPriorityTxs: priorities are left open; which transactions are allowed for free is a set.
- Mempool.AncestorsClosed: acyclicity of the pool is given by a depth per transaction; how the pool keeps its cached totals up to date is not modelled.
- Cuckoo.Cache.constructor: takes the depth limit as a number instead of computing it as a floating point logarithm.
- Cuckoo.Cache.Insert: one thread; concurrent erasure by readers through the atomic flags is not modelled.
- RollingBloom.RollingFilter.constructor: takes the number of words and of hash functions instead of computing them with floating point logarithms; false-positive rates are not modelled.
- Base58.EncodeBase58Check: the checksum is an arbitrary function to four bytes.
- Arith.BaseUint.Divide: a zero divisor is reported as failure, where the source throws.
- Work.GetBlockProof: `GetBlockProofEquivalentTime` is left out.
- Chain.GetSkipHeight: `n & (n - 1)` is computed arithmetically.
- Chain.BlockIndex.constructor: the skip link is set at construction, where the source sets it right after linking.
- InFlight.Downloads.FindNextBlocksToDownload: the successors towards the peer's best block are given as a list instead of being fetched in batches of 128; witness support is part of their validity, and `pindexLastCommonBlock` is not kept.
- InFlight.Downloads.MarkBlockAsInFlight: download timers, partial blocks and the list iterators handed out are not modelled.
- The keyed Bloom filter `CBloomFilter`, script interpretation, transaction validation, the wallet, RPC and the network layer would each be a project of their own.
