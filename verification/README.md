# Coinyecoin core, modelled and proved in Dafny

A model of the parts of the node whose correctness rests on reasoning across several
functions, with proofs of what they promise. Sockets, files, clocks, random numbers,
cryptographic hashes and public-key arithmetic are parameters; everything else follows the
C++ code branch by branch. Classes whose methods update fields are classes here, loops are
loops with invariants, and each method is proved against a function or property of values,
about which the theorems are stated.

`dafny verify dfyconfig.toml` checks the whole project.

| files | what they model |
|---|---|
| CoinsData, CoinsViews, CoinsViewCache | one transaction's unspent outputs; stacks of write-back caches of any depth, which show what plain maps would show on every run |
| VarInt, Compressor, CoinsSerialize, CoinsStream | the stored form of coins: variable-length integers, amount and script compression, the unspentness mask, reading back |
| Mining, BlockAssembler | block assembly over any mempool DAG: order, closure, limits, termination, and that nothing which fits is left out unseen |
| AddrManState, AddrManInvariant, AddrManRuns, AddrManEffects, AddrMan | the address manager's five redundant indexes on every run of its operations, and what each operation does to them |
| AddrManSpread | how few buckets the addresses or sources of one group reach, on every run |
| AddrManFile, AddrManReload, AddrManStream | saving the address manager and loading it again |
| MerkleTree, PartialMerkleTree | partial Merkle trees: soundness against any sender, round trip, sizes |
| MerkleRoot, MerkleBranch | the one-pass Merkle root of a block, its check for repeats, and Merkle branches |
| CheckQueue | the parallel check queue under every interleaving |
| Arithmetic, Limbs, LimbShifts, ArithUint, Compact, ProofOfWork | 256-bit arithmetic on 32-bit limbs, compact targets, block proof and retargeting |
| SkipList, Chain | the skip list over block indexes, with its exact worst case, and the active chain |
| Cuckoo | the cuckoo cache with its epochs |
| Base58, Base58Text | base-58 text with and without checksum |
| RollingBloom | the rolling Bloom filter |
| NetMessages | cutting a peer's byte stream into messages |
| AuxPow | merged-mining proofs |

Where the code does not do what its comments or its use suggest, the model follows the code
and states what holds instead:

- A transaction with a negative version loses it when its coins are stored, because a
  negative number is written as its low seven bits (src/serialize.h:317-331, used at
  src/coins.h:164): CoinsSerialize.RoundTripExactly, CoinsSerialize.NegativeVersionIsLost.
- A flush can lose the best block when the flushed cache never learned its own
  (src/coins.cpp:241): CoinsViews.FlushKeepsBestBlock, CoinsViews.FlushLosesBestBlock. Over
  whole runs: CoinsViews.MeantExactly, CoinsViews.RunKeepsBestBlocks.
- The comment at src/merkleblock.h:47 bounds the flag bits by 2N - 1; nodes with a single
  child take one bit more each: MerkleTree.BitBoundExact, MerkleTree.BitBoundFails. For the
  same reason the size can exceed the "hard guarantee" of src/merkleblock.h:34 a little:
  MerkleTree.SizeBoundExact, MerkleTree.SizeBoundFails.
- A failed extraction returns the null hash together with the pairs found so far, so a null
  root would vouch for nothing (src/merkleblock.cpp:150-181): MerkleTree.SoundExactly.
- The one-pass Merkle root is documented as limited to 2^32 leaves (src/consensus/merkle.cpp:45);
  its 32-bit count is rounded up to a power of two and fits if and only if there are at most
  2^31: MerkleRoot.CounterFits.
- The skip list is documented as O(log n) (src/chain.cpp:70). Its worst case is quadratic in
  the bit length of the height, and exactly known: SkipList.WorstCase,
  SkipList.WorstCaseReached, SkipList.NotLogarithmic. The 110 steps documented for 2^18
  blocks (src/chain.cpp:107-108) are right: SkipList.DocumentedMaximum.
- `a *= a` on one and the same object gives zero, because the factor is read while the
  product is written (src/arith_uint256.cpp:68-81): ArithUint.BaseUint.MulAssign.
- The comment at src/cuckoocache.h:395-396 says that the first eviction takes the first
  slot; the search ends at 8 and `(1 + 8) & 7` is 1, so it takes the second:
  Cuckoo.EvictionOrder. Where an element has equal slots next to each other, the element just
  put in can be moved at once (src/cuckoocache.h:401): Cuckoo.EvictionRepeats.
- Without the merged-mining header one coinbase script can be accepted for two blocks
  (src/auxpow.cpp:129-136): AuxPow.LegacyScriptIsAmbiguous. Exactly the scripts with the
  header, or with one place at most for a root, prove one block: AuxPow.OneBlockExactly,
  AuxPow.OneRootExactly, AuxPow.OneLegacyCommitment.
- HaveCoins tests that the stored outputs are not an empty list, which is visibility only
  for cleaned-up coins; every run keeps them so: CoinsViews.RunKeepsHaveCoinsExact.

## Model

| member | source | states |
|---|---|---|
| CoinsData.CleanupFacts | src/coins.h:112-118 | Cleaning up changes no availability, is idempotent, and leaves nothing exactly when every output is spent |
| CoinsData.CleanupLoop | src/coins.h:112-118 | The pop loop removes exactly the null outputs at the end |
| CoinsData.Spend | src/coins.cpp:35-42 | Succeeds exactly on an available output; afterwards precisely that output is gone, every other one is unchanged, and no null output is last |
| CoinsViews.FetchIsSilent | src/coins.cpp:72-97 | A read through any number of caches changes what no level shows, keeps every flag truthful and returns what was there |
| CoinsViews.FetchBestIsSilent | src/coins.cpp:178-182 | Asking for the best block changes what no level shows and does not change the answer |
| CoinsViews.UncacheIsSilent | src/coins.cpp:252-259 | Dropping a clean entry changes what no level shows |
| CoinsViews.OpenIsSilent | src/coins.cpp:99-126 | Opening a modifier changes what no level shows; it starts from the visible coins, or from empty ones |
| CoinsViews.CloseShows | src/coins.cpp:322-334 | Closing a modifier makes the cache show exactly the written coins for that id and the old ones for all others, with truthful flags, whether the entry is kept or erased |
| CoinsViews.WriteRefines | src/coins.cpp:99-126 | A whole write through ModifyCoins is one update of a plain map on the top level and nothing below it |
| CoinsViews.OpenNewSound | src/coins.cpp:134-153 | ModifyNewCoins leaves truthful flags where the coins are not visible, and always for a coinbase |
| CoinsViews.WriteNewRefines | src/coins.cpp:134-153 | A whole write through ModifyNewCoins is one update of a plain map and does not throw, under the BIP 30 assumption for a non-coinbase |
| CoinsViews.NewCoinsNeedsBip30 | src/coins.cpp:134-153 | The assumption is exact: for a non-coinbase the call runs through and leaves truthful flags if and only if the coins are not visible |
| CoinsViews.MergeSound | src/coins.cpp:188-240 | Merging one child entry never meets the misapplied-FRESH exception and leaves an entry that is truthful over the grandparent |
| CoinsViews.BatchWriteSound | src/coins.cpp:188-243 | Writing a truthful child into a database or cache never throws, keeps the flags truthful and makes it show what the child showed |
| CoinsViews.FlushRefines | src/coins.cpp:245-250 | Flush never throws and makes the level below show what the top showed, with all levels further down unchanged |
| CoinsViews.FlushKeepsBestBlock | src/coins.cpp:188-250 | Flush keeps the best block if and only if the flushed cache knows its own, or the hash it overwrites hid none |
| CoinsViews.StepStands | src/coins.cpp:178-250 | Which block every level stands at, and whether it holds a hash of its own, after each operation, in terms of the same before it |
| CoinsViews.MeantExactly | src/coins.cpp:178-250 | An operation keeps every level at the block set on it or flushed into it if and only if no null hash is set over a block and no cache that was neither told nor asked is flushed onto a cache that stands at another block than the level below |
| CoinsViews.RunKeepsBestBlocks | src/coins.cpp:178-250 | Over every run of such operations, on a stack of any depth, every level stands at the block last set on it or flushed into it |
| CoinsViews.FlushLosesBestBlock | src/coins.cpp:188-250 | A three-level stack whose flush loses the best block |
| CoinsViews.StepRefines | src/coins.cpp:72-259 | Every operation on a stack of any depth, including pushing and dropping a cache, does to the shown maps what it does to a stack of plain maps, and does not throw |
| CoinsViews.RunRefines | src/coins.cpp:72-259 | The same for every run of operations: the layered caches refine plain maps and neither exception is reachable |
| CoinsViews.HaveCoinsExact | src/coins.cpp:164-171 | Over cleaned-up coins HaveCoins is true exactly for visible coins |
| CoinsViews.StepKeepsClean | src/coins.cpp:72-259 | Every operation keeps all coins in the stack cleaned up |
| CoinsViews.RunKeepsHaveCoinsExact | src/coins.cpp:164-171 | So on every run HaveCoins answers whether the coins are visible |
| CoinsViewCache.CoinsViewDb.BatchWrite | src/coins.cpp:188-243 | The database after a batch: dirty entries replace or erase what was stored, nothing else changes |
| CoinsViewCache.CoinsViewCache.OverDb | src/coins.cpp:61-61 | A new cache over a database shows what the database holds |
| CoinsViewCache.CoinsViewCache.OverCache | src/coins.cpp:61-61 | A new cache over a cache shows what that cache shows |
| CoinsViewCache.CoinsViewCache.FetchCoins | src/coins.cpp:72-88 | The recursive fetch leaves the whole stack as the specification says and returns the coins found |
| CoinsViewCache.CoinsViewCache.HaveCoins | src/coins.cpp:164-171 | Answers from the fetched entry, filling the caches on the way |
| CoinsViewCache.CoinsViewCache.SetBestBlock | src/coins.cpp:184-186 | The hash is replaced and nothing else changes |
| CoinsViewCache.CoinsViewCache.GetBestBlock | src/coins.cpp:178-182 | The first non-null hash on the way down, remembered in every cache passed |
| CoinsViewCache.CoinsViewCache.ModifyCoins | src/coins.cpp:99-126 | Opens the only modifier on a dirty entry, fetched from below or new |
| CoinsViewCache.CoinsViewCache.ModifyNewCoins | src/coins.cpp:134-153 | Opens a modifier without asking below; throws exactly when a non-coinbase id has unspent coins in the cache |
| CoinsViewCache.CoinsViewCache.Uncache | src/coins.cpp:252-259 | Erases the entry exactly when it is neither dirty nor fresh |
| CoinsViewCache.CoinsViewCache.TakeEntry | src/coins.cpp:188-240 | One child entry is merged by its flags, every other entry is untouched, and the exception is met exactly for a misapplied FRESH flag |
| CoinsViewCache.CoinsViewCache.TakeAll | src/coins.cpp:188-240 | The loop over the child's entries has the result of the pointwise merge, in whatever order it runs |
| CoinsViewCache.CoinsViewCache.BatchWrite | src/coins.cpp:188-243 | The merged cache with the child's block hash, or the exception, exactly as specified |
| CoinsViewCache.CoinsViewCache.Flush | src/coins.cpp:245-250 | Everything goes to the base, which may itself be a cache, and the cache is emptied |
| CoinsViewCache.CoinsModifier.Set | src/coins.cpp:317-321 | A write through the open modifier changes that entry's coins only |
| CoinsViewCache.CoinsModifier.End | src/coins.cpp:322-334 | The destructor cleans up and erases a fresh pruned entry, and closes the modifier |
| VarInt.Write | src/serialize.h:317-331 | The digits fit the fixed buffer for every number of the given width, and come out most significant first |
| VarInt.ReadLoop | src/serialize.h:334-345 | The loop accumulates digits until an unmarked one, or meets the end of the stream |
| VarInt.DecodeEncode | src/serialize.h:317-345 | Reading what was written gives the number back, stops exactly at its end and never wraps |
| VarInt.OneEncoding | src/serialize.h:276-298 | Every integer has exactly one encoding: a stream means n and goes on with t if and only if it is the encoding of n followed by t |
| VarInt.EveryStreamMeans | src/serialize.h:276-298 | No redundancy: every stream with an unmarked byte starts with the encoding of some number |
| VarInt.DecodeExactly | src/serialize.h:333-346 | The reader gives what the stream means modulo its width, so it accepts the encoding of what it returns if and only if the number meant fits |
| VarInt.DecodeEncodeSigned | src/serialize.h:317-345 | A signed number comes back if and only if it is not negative; a negative one comes back as its low seven bits |
| Compressor.DecompressCompressed | src/compressor.cpp:142-185 | Decompressing a compressed amount gives it back, for every natural number |
| Compressor.CompressDecompressed | src/compressor.cpp:142-185 | Compressing a decompressed amount gives it back, so the encoding is a bijection |
| Compressor.CompressedFits | src/compressor.cpp:142-159 | A compressed amount is at most nine times the amount, so no amount in MoneyRange leaves 64 bits |
| Compressor.CompressAmount | src/compressor.cpp:142-159 | The loop computes the compressed amount modulo 2^64 for every 64-bit input |
| Compressor.DecompressAmount | src/compressor.cpp:161-185 | The loop computes the decompressed amount modulo 2^64 for every 64-bit input |
| Compressor.DecompressCompress | src/compressor.cpp:12-137 | A compressed script begins with its kind, has that kind's length, and decompresses to the script |
| Compressor.CompressDecompress | src/compressor.cpp:12-137 | Whatever decompresses to a script is that script's compressed form: no script has two |
| Compressor.ReadScriptBytes | src/compressor.h:56-87 | A stored script is read back exactly if it is within MAX_SCRIPT_SIZE; a longer one is skipped and becomes a lone OP_RETURN |
| CoinsSerialize.ReadOutBytes | src/compressor.h:106-118 | A stored output with an amount in MoneyRange and a script within the limit is read back, and reading stops at its end |
| CoinsSerialize.FlagsMatch | src/coins.h:167-202 | The two header bits and the mask bits tell of every output, and of none past the end, whether it is unspent |
| CoinsSerialize.MaskReads | src/coins.h:167-202 | Counting non-zero bytes, the reader takes exactly the mask bytes that were written |
| CoinsSerialize.PrunedMask | src/coins.h:156-162 | The assertion of Serialize holds exactly for coins with an unspent output |
| CoinsSerialize.ReadOutsBytes | src/coins.h:176-208 | The outputs are read back in order, with null outputs where the flags are off |
| CoinsSerialize.UnserializeSerialized | src/coins.h:156-217 | Reading back gives the cleaned-up coins and the rest of the stream, with version and height as the signed encoding leaves them |
| CoinsSerialize.RoundTripExactly | src/coins.h:156-217 | So coins come back up to Cleanup if and only if version and height are not negative |
| CoinsSerialize.NegativeVersionIsLost | src/coins.h:156-217 | Coins of a transaction with version -1 come back with version 127 |
| CoinsStream.CalcMaskSize | src/coins.cpp:17-33 | The nested loops give the length of the mask without trailing zero bytes and its number of non-zero bytes |
| CoinsStream.WriteMaskByte | src/coins.h:167-174 | The byte whose bits are the availability of its eight outputs, also past the end |
| CoinsStream.Serialize | src/coins.h:156-183 | The loops write the specified bytes and the assertion on the header code holds |
| CoinsStream.ReadFlags | src/coins.h:190-202 | The mask loop reads and unrolls as specified on every stream, including a truncated one |
| CoinsStream.Unserialize | src/coins.h:185-217 | The loops read what the specification reads on every stream whatever |
| Mining.AddAllKeepsShape | src/miner.cpp:333-357 | Adding a run of transactions whose ancestors come first keeps the block in order, closed under ancestors, free of repeats and correctly totalled |
| Mining.PackageExtends | src/miner.cpp:403-422 | A package sorted by ancestor count has every missing ancestor before its transaction |
| Mining.PackageFits | src/miner.cpp:247-255 | A package that passes the test with figures not below its true totals leaves the block within weight and sigop limits |
| Mining.UpdateKeeps | src/miner.cpp:359-384 | Updating descendants of an added package keeps every cached figure exact, or at least not too low for transactions that failed before |
| Mining.LoopStartOk | src/miner.cpp:424-444 | Package selection starts in a state that satisfies its invariant |
| Mining.CandidateFigures | src/miner.cpp:445-498 | The candidate is not in the block, as asserted, and the figures tested are never below the true totals of its missing ancestors; they are equal to them unless it failed before |
| Mining.TurnKeeps | src/miner.cpp:445-551 | Every turn of package selection keeps the block ordered, closed and within limits, whatever the fees decide |
| Mining.TurnEnds | src/miner.cpp:445-551 | Every turn lowers a lexicographic measure, so package selection terminates |
| Mining.EveryRunOk | src/miner.cpp:424-552 | The invariant holds in every state that package selection can reach over any mempool DAG |
| BlockAssembler.BlockAssembler.ResetBlock | src/miner.cpp:113-129 | The empty block is valid and within its limits |
| BlockAssembler.BlockAssembler.AddToBlock | src/miner.cpp:333-357 | Appends the transaction and adds its weight, sigops and, where counted, bytes |
| BlockAssembler.BlockAssembler.IsStillDependent | src/miner.cpp:223-232 | True exactly while some parent is not in the block |
| BlockAssembler.BlockAssembler.TestForBlock | src/miner.cpp:281-331 | True exactly when weight, size where counted, sigops and finality allow the transaction; how the finished flag and the counter of last tries change |
| BlockAssembler.BlockAssembler.TryPriority | src/miner.cpp:612-620 | Takes the transaction exactly if it fits by weight, bytes, sigops and finality, keeping the block valid |
| BlockAssembler.BlockAssembler.AddPriorityTxs | src/miner.cpp:554-634 | Any order of the priority heap leaves a valid block, and the loop terminates; which of its ends was met, and when the queue runs out whoever is not in the block has a forbidden witness, misses a parent or did not fit at some moment |
| BlockAssembler.BlockAssembler.UpdatePackagesForAdded | src/miner.cpp:359-384 | The nested loops produce the specified figures for all descendants, in any order |
| BlockAssembler.BlockAssembler.PackageOf | src/miner.cpp:234-245 | The transaction and its ancestors that are not yet in the block |
| BlockAssembler.BlockAssembler.TestPackageTransactions | src/miner.cpp:262-279 | True exactly when every transaction is final and allowed as to its witness and the summed bytes stay below the limit |
| BlockAssembler.BlockAssembler.SortForBlock | src/miner.cpp:403-410 | A permutation of the package ordered by ancestor count |
| BlockAssembler.BlockAssembler.AddPackageTxs | src/miner.cpp:424-552 | The package loop ends with a valid block that extends the old one, and says why: when nothing is left, every transaction of the index is in the block or, at some prefix of it, the true totals of its missing family did not fit or were not allowed; otherwise a candidate's fee rate was too low, or more than 1000 refused candidates in a row met a block within 4000 of its weight |
| BlockAssembler.BlockAssembler.Evaluate | src/miner.cpp:480-551 | A candidate whose missing family fits is in the block afterwards, and one that is taken did fit, by true totals; only a candidate that failed before may be turned away on stale figures; the turn is the specified one |
| BlockAssembler.BlockAssembler.CreateNewBlock | src/miner.cpp:131-221 | From an empty block, priority and package selection leave parents before children, ancestors included, totals exact and limits kept, and only transactions that are final and allowed as to witnesses; when selection ran to its end nothing that fits was left out unseen |
| AddrManInvariant.InvPassesCheck | src/addrman.cpp:385-460 | The invariant, in which nRefCount is the number of new-table slots that hold the id, implies every condition of the program's own check |
| AddrManInvariant.DeleteKeeps | src/addrman.cpp:113-125 | Deleting an unreferenced entry keeps all five indexes consistent, and its assertions hold |
| AddrManInvariant.ClearKeeps | src/addrman.cpp:127-140 | Clearing a new slot keeps the indexes consistent, deletes the entry exactly when that was its last place, and touches no other entry |
| AddrManInvariant.RefKeeps | src/addrman.cpp:300-304 | Taking a free slot for an entry keeps the indexes consistent |
| AddrManInvariant.TouchKeeps | src/addrman.cpp:315-335 | Changing an entry's statistics keeps the invariant |
| AddrManRuns.LeaveNewKeeps | src/addrman.cpp:142-154 | Leaving the new table takes the entry out of every bucket that holds it, and its reference count reaches zero as asserted |
| AddrManRuns.EvictKeeps | src/addrman.cpp:161-182 | Moving a tried entry back to the new table, over whatever is there, keeps the indexes consistent in the middle of MakeTried |
| AddrManRuns.MakeTriedKeeps | src/addrman.cpp:142-188 | The whole eviction chain keeps the invariant and no assertion fails |
| AddrManRuns.GoodKeeps | src/addrman.cpp:190-240 | Good_ keeps the invariant for positive times |
| AddrManRuns.GoodFindsBucket | src/addrman.cpp:219-234 | Good_ never takes its exit for an entry without a bucket |
| AddrManRuns.PlaceKeeps | src/addrman.cpp:290-312 | The second half of Add_ keeps the invariant, whether the entry wins the slot, loses it or is deleted again |
| AddrManRuns.AddKeeps | src/addrman.cpp:242-313 | Add_ keeps the invariant for every address, source, penalty, time and random number |
| AddrManRuns.AttemptKeeps | src/addrman.cpp:315-335 | Attempt_ keeps the invariant |
| AddrManRuns.ConnectedKeeps | src/addrman.cpp:483-501 | Connected_ keeps the invariant |
| AddrManRuns.SetServicesKeeps | src/addrman.cpp:503-519 | SetServices_ keeps the invariant |
| AddrManRuns.ChosenStable | src/addrman.cpp:462-481 | Swapping later positions of vRandom does not change the sample taken from earlier ones |
| AddrManRuns.ChosenDistinct | src/addrman.cpp:462-481 | Sampled addresses belong to entries of the manager that are not terrible, no two to the same address |
| AddrManRuns.StepKeeps | src/addrman.cpp:81-313 | Every operation keeps the invariant and all its assertions hold |
| AddrManRuns.RunKeeps | src/addrman.cpp:81-313 | Every run of operations keeps the invariant |
| AddrManRuns.EmptyInv | src/addrman.h:451-475 | A newly constructed manager satisfies the invariant |
| AddrManRuns.EveryRunPassesCheck | src/addrman.cpp:385-460 | Every state a new manager can reach passes the program's own consistency check |
| AddrManSpread.TriedSpread | src/addrman.cpp:12-17 | In a consistent manager the entries of one address group are in at most 8 tried buckets |
| AddrManSpread.NewSpread | src/addrman.cpp:19-25 | What the sources of one group put into the new table is in at most 64 new buckets |
| AddrManSpread.PlaceWrites | src/addrman.cpp:290-312 | Add_ writes only the place to which the announcing source sends the entry |
| AddrManSpread.EvictWrites | src/addrman.cpp:161-182 | An eviction writes only the place to which the source of the evicted entry sends it |
| AddrManSpread.StepWrites | src/addrman.cpp:81-313 | Every operation changes the new table only where one source sends its entry, and keeps addresses and sources of entries |
| AddrManSpread.EveryRunIsSpread | src/addrman.h:120-132 | On every run of a new manager both bounds hold, for every group, with each place of the new table traced to who put its entry there |
| AddrManSpread.OneGroupIsConfined | src/addrman.h:120-132 | On every run whose announcements all come from sources of one group, the whole new table is in at most 64 buckets |
| AddrManRuns.EveryRunIsSafe | src/addrman.cpp:81-313 | In every reachable state no operation can fail an assertion, and Good_ finds the bucket of the entry it moves |
| AddrMan.CAddrMan.Find | src/addrman.cpp:68-79 | The id under an address if it leads to an entry, otherwise none |
| AddrMan.CAddrMan.Create | src/addrman.cpp:81-91 | A new entry in all three indexes under a new id |
| AddrMan.CAddrMan.SwapRandom | src/addrman.cpp:93-111 | The two ids exchange their places and know it |
| AddrMan.CAddrMan.Delete | src/addrman.cpp:113-125 | The entry leaves all indexes and the new counter drops |
| AddrMan.CAddrMan.ClearNew | src/addrman.cpp:127-140 | The slot is free and its entry loses one reference, or its life |
| AddrMan.CAddrMan.LeaveNew | src/addrman.cpp:142-154 | The loop over all buckets removes exactly the entry's own slots |
| AddrMan.CAddrMan.Evict | src/addrman.cpp:161-182 | The tried slot is free and its entry is back in its home bucket |
| AddrMan.CAddrMan.MakeTried | src/addrman.cpp:142-188 | The entry moves from the new to the tried table as specified |
| AddrMan.CAddrMan.Good_ | src/addrman.cpp:190-240 | Reaches the specified state, keeps the invariant and meets its assertions; a known entry of the new table is afterwards in its tried place and in no other, with its statistics set, and the entry it pushed out is in the new place where its source sends it |
| AddrMan.CAddrMan.SearchBuckets | src/addrman.cpp:219-230 | The search from a random bucket finds one that holds the entry if there is any |
| AddrMan.CAddrMan.Add_ | src/addrman.cpp:242-313 | Reaches the specified state and answer, keeps the invariant and meets its assertions; an unknown address is stored in its new place with the lowered time unless the holder of that place is not terrible and has no other, a known one is renewed and gets one more place exactly if the tests let it, and nothing else changes |
| AddrMan.CAddrMan.MayRepeatLoop | src/addrman.cpp:266-283 | The doubling loop lets a repeated address through exactly when the random number is a multiple of 2^nRefCount and the other tests pass |
| AddrMan.CAddrMan.Attempt_ | src/addrman.cpp:315-335 | Reaches the specified state and keeps the invariant; the time of the last try of a known address is set |
| AddrMan.CAddrMan.GetAddr_ | src/addrman.cpp:462-481 | A sample of distinct addresses within the size limit, as large as it can be, taken in the order of a shuffle by the numbers drawn, that leaves all entries as they were |
| AddrManFile.WithinLimits | src/addrman.h:366-372 | A consistent manager has no more entries than the tables have places, so the reader never refuses its file |
| AddrManFile.OrderOrders | src/addrman.h:309-328 | The writer lists every entry exactly once, those of the new table first, as many as the counters say |
| AddrManFile.UnkIsPos | src/addrman.h:309-319 | The number written for an entry of the new table is its place in that list |
| AddrManReload.TablesReload | src/addrman.h:374-431 | Loading entries, tried slots and new slots rebuilds all tables with renumbered ids: no slot is found taken and no reference is refused |
| AddrManReload.UnserializeSerialized | src/addrman.h:295-449 | The reader accepts the file of a consistent manager and yields that manager renumbered; nothing is pruned |
| AddrManReload.ReloadedIsRenumbered | src/addrman.h:295-449 | Entry by entry all saved fields, the table membership and the reference counts agree, and all three indexes lead to the same entries under the new numbers |
| AddrManReload.RoundTrip | src/addrman.h:295-449 | Saving and loading loses no entry, keeps the key and all saved fields up to renumbering, and gives a manager that satisfies the invariant again |
| AddrManStream.PruningIsSafe | src/addrman.h:433-444 | Whatever file is read, the assertions of Delete hold when unreferenced entries are pruned |
| AddrManStream.Serialize | src/addrman.h:296-343 | The loops write the specified file and neither counter assertion fails |
| AddrManStream.Unserialize | src/addrman.h:346-449 | The loops read as specified on every file, refusing a wrong key size and too many entries |
| MerkleTree.WidthClosedForm | src/merkleblock.h:65-68 | The shifted width is what halving with rounding up gives level by level |
| MerkleTree.ShapeOrdered | src/merkleblock.cpp:61-76 | The leaves below a node are exactly those in its range, in order and at one depth |
| MerkleTree.HashFixesFirstLeaf | src/merkleblock.cpp:61-76 | Equal node hashes at one height have equal first transactions below them, unless two pairs of the tree collide |
| MerkleTree.SiblingsDiffer | src/merkleblock.cpp:61-76 | For distinct transactions two sibling nodes never have equal hashes, unless two pairs of the tree collide |
| MerkleTree.FlagIsAnyMatch | src/merkleblock.cpp:78-85 | The flag of a node is set exactly when a leaf below it is marked |
| MerkleTree.ExtractSound | src/merkleblock.cpp:96-132 | A traversal that reaches the true hash of a node has extracted only genuine pairs below it, for any bits and hashes, unless a pair it hashed collides with one of the tree |
| MerkleTree.ExtractMatchesSound | src/merkleblock.cpp:150-181 | Whatever is sent: if the extraction ends in the true root of a list of that length, and that root is not the null hash that failure returns, every extracted transaction is in the list at its index, unless a pair hashed on the way collides with one of the full tree |
| MerkleTree.SoundExactly | src/merkleblock.cpp:150-181 | With a pair hash without collisions, the true root vouches for the extracted pairs, whatever is sent, if and only if it is not the null hash |
| MerkleTree.NullRootMisleads | src/merkleblock.cpp:150-181 | For every list with a null root there is a proof whose failure returns that root together with a wrong pair |
| MerkleTree.BelowExact | src/merkleblock.cpp:78-94 | The pairs meant to be extracted are exactly the marked transactions in the node's range |
| MerkleTree.ExtractBuilt | src/merkleblock.cpp:78-132 | Extracting what was built consumes exactly its bits and hashes and gives the node's hash and marked pairs |
| MerkleTree.HashCount | src/merkleblock.h:31-40 | At most one hash a transaction, and at most 1 + matches * height |
| MerkleTree.BitCount | src/merkleblock.h:31-40 | The number of bits is 2N - 1 plus one for every descended node with a single child |
| MerkleTree.BitBoundExact | src/merkleblock.h:42-48 | The documented bound of 2N - 1 bits holds if and only if no single-child node is descended |
| MerkleTree.BitBoundFails | src/merkleblock.h:42-48 | Three transactions with the last one marked need four bits for two hashes |
| MerkleTree.SinglesExactly | src/merkleblock.cpp:78-94 | The descended single-child nodes are counted by the odd widths below the root under whose last node a transaction is marked |
| MerkleTree.BitBoundByWidths | src/merkleblock.h:42-48 | The documented bound of 2N - 1 bits holds if and only if no odd width below the root has a marked transaction under its last node |
| MerkleTree.SinglesBound | src/merkleblock.cpp:78-94 | At most one single-child node at each height |
| MerkleTree.SizeBoundExact | src/merkleblock.h:31-48 | The serialized size in terms of the hashes and of the single-child nodes counted by widths and marks, and the documented bound 10 + ceil(32.25 * N) on it: it holds if and only if the bits fit in 252 bytes or the single-child nodes fit into what rounding up N/4 leaves free |
| MerkleTree.SizeBoundFails | src/merkleblock.h:31-48 | 1012 transactions, all marked, take 32648 bytes, one more than documented |
| MerkleTree.BuildThenExtract | src/merkleblock.cpp:61-181 | For distinct transactions whose tree has no collision, and any mask, build, pack, unpack and extract gives the full root and exactly the marked transactions at their positions |
| PartialMerkleTree.CalcHashAt | src/merkleblock.cpp:61-76 | The recursion by height and position gives the hash of the tree below the node, repeating a missing right child; the same tree as the one whose root is in the block header (MerkleRoot.ComputeMerkleRoot, MerkleRoot.SmallTrees) |
| PartialMerkleTree.PackBits | src/merkleblock.h:99-104 | The bits in whole bytes, least significant first |
| PartialMerkleTree.UnpackBits | src/merkleblock.h:92-98 | All bits of the bytes, in order |
| PartialMerkleTree.PackThenUnpack | src/merkleblock.h:88-105 | Packing and unpacking gives the bits back, padded with zeros to whole bytes |
| PartialMerkleTree.CPartialMerkleTree.Height | src/merkleblock.cpp:134-143 | The least height at which one node is left |
| PartialMerkleTree.CPartialMerkleTree.TraverseAndBuild | src/merkleblock.cpp:78-94 | Appends exactly the bits and hashes of the subtree |
| PartialMerkleTree.CPartialMerkleTree.ParentOfMatch | src/merkleblock.cpp:80-83 | The loop over the leaves finds whether one is marked |
| PartialMerkleTree.CPartialMerkleTree.Build | src/merkleblock.cpp:134-146 | The bits and hashes of the whole block |
| PartialMerkleTree.CPartialMerkleTree.TraverseAndExtract | src/merkleblock.cpp:96-132 | Walks the vectors as specified, flagging overflow and equal siblings; below a parent of a match left before right |
| PartialMerkleTree.CPartialMerkleTree.ExtractMatches | src/merkleblock.cpp:150-181 | Root and matches as specified, or the null hash, after all plausibility tests |
| PartialMerkleTree.Exchange | src/merkleblock.cpp:61-181 | For distinct transactions whose tree has no collision, building, packing, reading and extracting on two objects gives the full root and exactly the marked transactions and positions |
| PartialMerkleTree.CPartialMerkleTree.Read | src/merkleblock.h:88-98 | A tree read from a stream holds the hashes and the unpacked bits and is not marked bad |
| CheckQueue.RunBatchIsAnd | src/checkqueue.h:121-124 | A batch ends true exactly when it began true and all its checks are true |
| CheckQueue.BatchFits | src/checkqueue.h:105-117 | A batch has at least one check and never more than the queue, so no pop meets an empty queue |
| CheckQueue.AddKeeps | src/checkqueue.h:149-161 | Adding checks keeps the invariant, with the new checks owed to the next Wait |
| CheckQueue.FinishKeeps | src/checkqueue.h:79-89 | Cleaning up after a batch accounts for it once, lowers nTodo and notifies a waiting master when it was the last |
| CheckQueue.SettleIdle | src/checkqueue.h:91-104 | With an empty queue a worker goes to wait, and the master waits or returns true exactly when every check added since the last Wait is true |
| CheckQueue.SettleBusy | src/checkqueue.h:105-120 | With work in the queue a thread takes a batch and the invariant holds |
| CheckQueue.StepKeeps | src/checkqueue.h:69-127 | Every step of every thread keeps the invariant and is safe |
| CheckQueue.RunKeeps | src/checkqueue.h:69-161 | Every interleaving keeps the invariant |
| CheckQueue.EveryWaitIsRight | src/checkqueue.h:69-161 | For any number of workers and any interleaving, nTodo counts queued and in-flight checks and every Wait returned true exactly when all checks added since the previous one are true |
| CheckQueue.MasterIsNeverForgotten | src/checkqueue.h:80-104 | A waiting master has been notified and will return, or some worker holds a batch whose end will notify it |
| CheckQueue.WorkRunsOut | src/checkqueue.h:69-127 | While the master is inside Wait the work left never grows and each finished batch lowers it |
| CheckQueue.WaitDoesNotHang | src/checkqueue.h:69-146 | If no batch is running and no notification is pending, the master is not inside Wait |
| Limbs.AddIsMod | src/arith_uint256.h:135-145 | Carry propagation computes the sum modulo 2^(32 n) |
| Limbs.ComplementValue | src/arith_uint256.h:69-75 | The complement is the modulus minus one minus the value |
| Limbs.IncIsMod | src/arith_uint256.h:173-180 | Prefix increment adds one modulo 2^(32 n) |
| Limbs.SubIsMod | src/arith_uint256.h:147-151 | Adding the negation subtracts modulo 2^(32 n), exactly when there is no borrow |
| Limbs.MulSmallIsMod | src/arith_uint256.cpp:55-65 | Multiplying by a 32-bit number gives the product modulo 2^(32 n) |
| Limbs.MulIsMod | src/arith_uint256.cpp:67-81 | The schoolbook rows give the product modulo 2^(32 n) |
| LimbShifts.ShlValue | src/arith_uint256.cpp:21-36 | The limbs that a left shift writes are the product by a power of two modulo 2^(32 n) |
| LimbShifts.ShrValue | src/arith_uint256.cpp:38-53 | The limbs that a right shift writes are the quotient by a power of two |
| LimbShifts.HighestDecides | src/arith_uint256.cpp:109-119 | The highest limb that differs decides the comparison of values |
| LimbShifts.TopBit | src/arith_uint256.cpp:171-184 | The top bit of the top non-zero limb gives the bit length of the value |
| ArithUint.DivideTurn | src/arith_uint256.cpp:96-105 | One turn of the division keeps quotient times divisor plus remainder equal to the number |
| ArithUint.BaseUint.SetSmall | src/arith_uint256.h:88-95 | Assigning a 64-bit number |
| ArithUint.BaseUint.AddAssign | src/arith_uint256.h:135-145 | The sum modulo the width, also when a number is added to itself |
| ArithUint.BaseUint.Complemented | src/arith_uint256.h:69-75 | A new number with the complementary value |
| ArithUint.BaseUint.Increment | src/arith_uint256.h:173-180 | The carry loop adds one modulo the width |
| ArithUint.BaseUint.Negated | src/arith_uint256.h:77-84 | A new number with the negated limbs |
| ArithUint.BaseUint.SubAssign | src/arith_uint256.h:147-151 | The difference modulo the width, exact without borrow |
| ArithUint.BaseUint.MulSmallAssign | src/arith_uint256.cpp:55-65 | The product with a 32-bit number modulo the width |
| ArithUint.BaseUint.MulAssign | src/arith_uint256.cpp:67-81 | The product modulo the width for two distinct numbers; a number multiplied by itself in place becomes zero |
| ArithUint.BaseUint.ShlAssign | src/arith_uint256.cpp:21-36 | The value times a power of two modulo the width, for every shift |
| ArithUint.BaseUint.ShrAssign | src/arith_uint256.cpp:38-53 | The value divided by a power of two, for every shift |
| ArithUint.BaseUint.DivAssign | src/arith_uint256.cpp:83-107 | The quotient; division by zero throws, after the number was set to zero |
| ArithUint.BaseUint.CompareTo | src/arith_uint256.cpp:109-119 | The sign of the difference of the values |
| ArithUint.BaseUint.Bits | src/arith_uint256.cpp:171-184 | The bit length of the value, zero for zero |
| Compact.OverflowExact | src/arith_uint256.cpp:204-222 | The overflow flag is set if and only if the mathematical value of the compact number does not fit 256 bits |
| Compact.EncodeFields | src/arith_uint256.cpp:224-245 | The encoding of any value never has the sign bit and never overflows when read |
| Compact.EncodeRounds | src/arith_uint256.cpp:224-245 | Reading an encoding gives D with D <= N < D * (1 + 2^-15), and zero exactly for zero |
| ProofOfWork.SetCompact | src/arith_uint256.cpp:204-222 | The shifts store the mathematical value modulo 2^256 and set both flags exactly |
| ProofOfWork.GetCompact | src/arith_uint256.cpp:224-245 | The shifts compute the specified encoding of the value |
| ProofOfWork.ProofFormula | src/chain.cpp:155-161 | ~t / (t + 1) + 1 is floor(2^256 / (t + 1)) |
| ProofOfWork.GetBlockProof | src/chain.cpp:149-162 | For every nBits the limb operations give floor(2^256 / (target + 1)), or zero for a negative, zero or overflowing target |
| ProofOfWork.NextWorkRequired | src/coinyecoin.cpp:40-86 | The retarget computes the specified target and its encoding through the limb operations; within the widths the target is the old one times the elapsed time over the timespan, damped to an eighth for Digishield, clamped and cut at the limit |
| ProofOfWork.SpanBounds | src/coinyecoin.cpp:45-71 | The modulated and clamped timespan stays within its bounds for every rule set |
| ProofOfWork.NextTargetExact | src/coinyecoin.cpp:73-83 | When the product fits 256 bits the target is the exact quotient, at most powLimit |
| ProofOfWork.RetargetBounded | src/coinyecoin.cpp:40-86 | The next target is within the clamped ratios up to the rounding of the encoding, at most powLimit, and when it is not zero CheckProofOfWork accepts exactly the hashes up to it |
| SkipList.GetSkipHeight | src/chain.cpp:98-110 | The skip pointer always leads strictly lower |
| SkipList.DropBound | src/chain.cpp:112-136 | From p + 2^j, with p a multiple of 2^(j+1), down to any height after p + 1 takes at most Drop(j) steps |
| SkipList.DropClosed | src/chain.cpp:112-136 | Drop(2i) is i^2 + 3i - 2 and Drop(2i+1) is i^2 + 4i |
| SkipList.DropReached | src/chain.cpp:112-136 | From 2^j to height 2 takes exactly Drop(j) steps |
| SkipList.WorstCase | src/chain.cpp:101-136 | From any height below 2^k, k at least 10, to any lower one GetAncestor takes at most Drop(k-1) + k - 4 steps |
| SkipList.WorstCaseReached | src/chain.cpp:101-136 | For every such k the walk from 2^k - 8 to height 2 takes exactly this many |
| SkipList.DocumentedMaximum | src/chain.cpp:106-108 | The documented maximum among 2^18 blocks: 110 steps |
| SkipList.NotLogarithmic | src/chain.cpp:70-70 | The documented O(log n) does not hold: no linear function of the bit length of the height bounds the steps |
| Chain.BlockIndex.Extend | src/chain.cpp:143-147 | A block built on a valid block has the skip pointer that walking back would give |
| Chain.BlockIndex.GetAncestor | src/chain.cpp:112-136 | Following skip pointers reaches the block that following pprev one at a time reaches, and null outside the range, in the number of steps that SkipList counts |
| Chain.BlockIndex.WalkWalk | src/chain.cpp:112-136 | Walking to an ancestor and on from it is walking there directly |
| Chain.CChain.SetTip | src/chain.cpp:40-50 | The incremental update gives the whole path to the new tip, from any earlier tip |
| Chain.CChain.FindFork | src/chain.cpp:80-89 | The result is on the chain and an ancestor of the block, and no common block is higher; null exactly when there is none |
| Chain.CChain.GetLocator | src/chain.cpp:52-78 | Ancestors from the start down to height 0, entry i at depth i up to the tenth and at depth 9 + 2^(i-10) after that, strictly descending, at most 12 + log2(height + 1) of them |
| Chain.CChain.Earlier | src/chain.cpp:66-73 | Taking the next block off the chain or by the skip list is the same block |
| Cuckoo.LiveUpdate | src/cuckoocache.h:384-413 | Rewriting a slot exchanges exactly its old element for the new one among the live elements |
| Cuckoo.CounterMakesRoom | src/cuckoocache.h:264-296 | After the ageing check one more insert keeps the live part of the epoch plus the counter within epoch_size + max(1, epoch_size / 16) |
| Cuckoo.EvictionRepeats | src/cuckoocache.h:392-407 | A list with a repeated slot in which the slot just written is taken again |
| Cuckoo.EvictionOrder | src/cuckoocache.h:392-407 | The first eviction takes the second slot; a later one takes the slot just written again if and only if the slot after its first occurrence is the same, so never among distinct slots |
| Cuckoo.Cache.Setup | src/cuckoocache.h:315-329 | An empty cache of 2^depth slots in which nothing is live |
| Cuckoo.Cache.AllowErase | src/cuckoocache.h:241-244 | Marking a slot takes at most its own element out of the live ones |
| Cuckoo.Cache.Contains | src/cuckoocache.h:443-453 | True for every live element, and only for elements that were inserted or the default one; erasing flags the first slot that holds it and no other, and removes at most that element |
| Cuckoo.Cache.EpochCheck | src/cuckoocache.h:264-296 | Counts down, or scans and ages exactly when the counter is used up and a whole epoch is live, making room for one insert; which slots are given up is stated slot by slot |
| Cuckoo.Cache.Displace | src/cuckoocache.h:382-416 | The chain of evictions: each element in hand takes the next of its slots from an element of a full table, until one lands on garbage before the depth limit, or the last one is dropped after exactly that many; table, flags and epochs are given |
| Cuckoo.Cache.Insert | src/cuckoocache.h:368-417 | An element that is present, or has garbage among its slots, is kept in the current epoch and nothing is dropped; something is dropped only after depth-limit evictions that met no garbage, and it is the last in the chain; counted with multiplicity all live elements stay live save at most that one; all invariants hold |
| Cuckoo.Cache.InsertEraseRecheck | src/cuckoocache.h:419-431 | After insert, an element found and released is still found |
| Base58.RebasedTwice | src/base58.cpp:21-109 | Changing digits with leading zeros to another base and back gives the same digits, for every two bases |
| Base58.MulAddInPlace | src/base58.cpp:45-54 | The carry loop multiplies the number in the buffer and adds a digit, touching only the digits in use, and nothing is carried out |
| Base58.Rebase | src/base58.cpp:71-101 | Digit by digit the buffer ends with the canonical digits of the number, if the size suffices |
| Base58.RoomToEncode | src/base58.cpp:81-83 | The 138/100 buffer suffices for every input, so the carry assertion of EncodeBase58 holds |
| Base58.RoomToDecode | src/base58.cpp:33-35 | The 733/1000 buffer suffices for every input, so the carry assertion of DecodeBase58 holds |
| Base58Text.CharFacts | src/base58.cpp:18-19 | No two digits share a character and none is white space |
| Base58Text.DecodeEncoded | src/base58.cpp:21-109 | Decoding an encoding gives the bytes back, whatever they are |
| Base58Text.EncodeDecoded | src/base58.cpp:21-109 | A text that decodes is, between its white space, the encoding of what it decodes to |
| Base58Text.DecodeEncodedCheck | src/base58.cpp:121-145 | Decoding with checksum undoes encoding with checksum |
| Base58Text.EncodeDecodedCheck | src/base58.cpp:121-145 | A text accepted with its checksum is the encoding of its payload, between white space |
| Base58Text.EncodeBase58 | src/base58.cpp:71-109 | The loops give the specified text for every byte string |
| Base58Text.DecodeWord | src/base58.cpp:36-54 | Character by character, stopping at white space or refusing a character outside the alphabet |
| Base58Text.DecodeBase58 | src/base58.cpp:21-69 | The loops accept and decode exactly one word between white space |
| Base58Text.EncodeBase58Check | src/base58.cpp:121-128 | The encoding of the bytes and their four checksum bytes |
| Base58Text.DecodeBase58Check | src/base58.cpp:130-145 | The payload exactly when there are four bytes of matching checksum |
| RollingBloom.WipeCell | src/bloom.cpp:257-265 | The masks empty exactly the cells of the generation that is reused |
| RollingBloom.WrittenGen | src/bloom.cpp:269-276 | Writing a cell stores the generation in it and changes no other cell |
| RollingBloom.MarkedOlder | src/bloom.cpp:249-265 | Cells that survive a wipe hold a generation one older and are not the wiped ones |
| RollingBloom.MarkedStill | src/bloom.cpp:269-276 | Overwriting a cell only makes it younger |
| RollingBloom.Filter.Contains | src/bloom.cpp:285-297 | True exactly when every cell of the key is a cell of some key of the last three generations; in particular for each of the last 2 * ceil(nElements / 2) + 1 inserted keys |
| RollingBloom.Filter.Wipe | src/bloom.cpp:257-265 | The loop over the word pairs empties the cells of one generation only |
| RollingBloom.Filter.Rotate | src/bloom.cpp:249-266 | Starting the next generation wipes the cells of the one it replaces and keeps the keys of the two before it |
| RollingBloom.Filter.Insert | src/bloom.cpp:249-277 | The key joins the log and the filter keeps every recent key, despite wipes and overwritten cells |
| RollingBloom.Filter.Reset | src/bloom.cpp:305-313 | No key and no set cell |
| RollingBloom.Filter.constructor | src/bloom.cpp:217-243 | A new filter, for at least one element |
| NetMessages.ParseMore | src/net.cpp:684-734 | More bytes change neither the messages already complete nor a verdict against the stream |
| NetMessages.ParseWire | src/net.cpp:763-809 | Well-formed messages sent one after the other are parsed as those messages |
| NetMessages.CNetMessage.ReadHeader | src/net.cpp:763-792 | Takes at least one byte, never more than the header lacks; refuses exactly an oversized announcement |
| NetMessages.CNetMessage.ReadData | src/net.cpp:794-809 | Takes at least one byte and never past the message; the bytes received grow by exactly those, whatever was allocated ahead |
| NetMessages.CNode.Turn | src/net.cpp:691-731 | One turn takes at least one byte and completes at most one message, or refuses the stream |
| NetMessages.CNode.ReceiveMsgBytes | src/net.cpp:684-734 | After any chunk the complete messages, the one begun and the verdict are those of parsing all bytes received as one piece; complete tells whether a message was completed |
| NetMessages.CNode.ReceiveChunks | src/net.cpp:684-734 | Any chunking of a stream gives the messages and the verdict of the whole |
| NetMessages.CNetMessage.AsFrame | src/net.h:542-547 | A complete message holds exactly its payload |
| AuxPow.CheckMerkleBranch | src/auxpow.cpp:185-202 | The loop folds the branch by the bits of the index, and gives the null hash for index -1 |
| AuxPow.FoldedSame | src/auxpow.cpp:185-202 | At one index, branches of one length with one root start from one hash, unless two pairs they hash collide |
| AuxPow.ExpectedIndexAnyWidth | src/auxpow.cpp:159-183 | The slot computed in 32 bits is the one computed without any overflow |
| AuxPow.HeaderFixesRoot | src/auxpow.cpp:106-128 | A script that holds the merged-mining header accepts only the 32 bytes after it as root |
| AuxPow.OneCommitment | src/auxpow.cpp:80-157 | Two proofs accepted for one chain with one coinbase script that holds the header prove the same block, with the same branch and index, unless two pairs they hash collide |
| AuxPow.OneRootExactly | src/auxpow.cpp:129-157 | Without the header a script commits to one root at most if and only if one place at most among its first 21 starts 32 bytes that first occur there and are followed by a tree size |
| AuxPow.OneLegacyCommitment | src/auxpow.cpp:80-157 | Two proofs accepted for one chain with one script without the header that has one such place prove the same block, with the same branch and index, unless two pairs they hash collide |
| AuxPow.OneBlockExactly | src/auxpow.cpp:80-157 | No two proofs accepted with a script prove different blocks without a hash collision if and only if the script holds the header or has one such place at most |
| AuxPow.LegacyScriptIsAmbiguous | src/auxpow.cpp:129-136 | Without the header one script is accepted for two different blocks |
| CoinsViewCache.CoinsViewCache.BaseGetCoins | src/coins.cpp:72-75 | The call to the base, a database or another cache, returns its coins and fills its caches |
| CoinsViewCache.CoinsModifier.constructor | src/coins.cpp:317-320 | The one modifier is open and the cache is otherwise as it was |
| CoinsStream.IsZeroByte | src/coins.cpp:21-26 | The inner loop finds whether the mask byte is zero |
| CoinsStream.WriteSigned | src/serialize.h:317-331 | A signed number as its low seven bits when small or negative, else as digits |
| CoinsStream.WriteOut | src/compressor.h:106-118 | The compressed amount and the script of one output |
| CoinsStream.WriteOuts | src/coins.h:176-180 | The outputs that are not null, in order |
| CoinsStream.WriteMask | src/coins.h:167-174 | The mask up to its last non-zero byte |
| CoinsStream.PushBits | src/coins.h:197-200 | The eight flags of a byte, least significant first |
| CoinsStream.ReadOneOut | src/compressor.h:106-118 | One output off the stream, with the amount wrapped to 64 bits |
| CoinsStream.ReadAllOuts | src/coins.h:204-208 | One output for every set flag, a null one for every other |
| BlockAssembler.BlockAssembler.PriorityTurn | src/miner.cpp:587-632 | One turn takes any entry of the heap, forgets none, keeps the block and the queues valid, and makes progress |
| BlockAssembler.BlockAssembler.Release | src/miner.cpp:620-630 | Exactly the waiting children of an added transaction return to the queue, none twice |
| BlockAssembler.BlockAssembler.ServeDescendants | src/miner.cpp:367-381 | The inner loop lowers every descendant's figures by one added transaction |
| BlockAssembler.BlockAssembler.TestPackage | src/miner.cpp:247-255 | The test by size times four and by sigops |
| BlockAssembler.BlockAssembler.AddPackage | src/miner.cpp:541-545 | The sorted package enters the block and leaves the modified set |
| BlockAssembler.BlockAssembler.TakePackage | src/miner.cpp:537-550 | Sort, add and update together, in the order of the source |
| BlockAssembler.BlockAssembler.PackageTurn | src/miner.cpp:445-551 | One turn keeps the invariant, settles or keeps every transaction, counts failures in a row, and lowers the measure unless it stops for the reason it gives |
| AddrMan.CAddrMan.AddKnown | src/addrman.cpp:256-312 | A known address is refreshed and gets one more place only if the tests let it |
| AddrMan.CAddrMan.AddUnknown | src/addrman.cpp:284-312 | An unknown address gets an entry, a lowered time and a place or none |
| AddrMan.CAddrMan.Place | src/addrman.cpp:290-312 | The slot is taken over, kept, or the new entry deleted again |
| AddrMan.CAddrMan.SampleOne | src/addrman.cpp:470-480 | One turn exchanges the ids of two positions and samples the one that came to the front unless it is terrible |
| AddrManStream.WriteNew | src/addrman.h:309-319 | Numbers every id and writes the referenced entries, never more than nNew |
| AddrManStream.WriteTried | src/addrman.h:320-328 | Writes the tried entries, never more than nTried |
| AddrManStream.WriteBucket | src/addrman.h:329-342 | The numbers of the entries in a bucket, in order of place |
| AddrManStream.ReadBucket | src/addrman.h:416-431 | Places the listed entries of one bucket that are free and allowed |
| AddrManStream.ReadTables | src/addrman.h:374-431 | The three loading loops in turn, for every file |
| CheckQueue.FreshInv | src/checkqueue.h:134-134 | A new queue satisfies the invariant, for any batch size and number of threads |
| CheckQueue.EnterKeeps | src/checkqueue.h:86-89 | A thread that enters the loop is counted |
| CheckQueue.WakeKeeps | src/checkqueue.h:101-103 | A thread that wakes, notified or not, is no longer counted as idle |
| CheckQueue.NothingInFlight | src/checkqueue.h:91-100 | When nTodo is zero the queue is empty, no batch is running and no failure is pending |
| ArithUint.BaseUint.AddRow | src/arith_uint256.cpp:71-78 | One row of the product is added from its position on, dropping what exceeds the width |
| ArithUint.BaseUint.DivideLoop | src/arith_uint256.cpp:96-105 | Shifting down and subtracting leaves the quotient bits and a remainder below the divisor |
| ArithUint.BaseUint.SetQuotientBit | src/arith_uint256.cpp:100-101 | Setting a clear bit adds its weight |
| ArithUint.BaseUint.TopBitOf | src/arith_uint256.cpp:174-180 | The search from the top finds the highest set bit of a limb |
| ProofOfWork.GetLow64 | src/arith_uint256.h:245-249 | The two lowest limbs are the value modulo 2^64 |
| ProofOfWork.InverseOf | src/chain.cpp:155-161 | On a target from 1 to 2^256 - 2 the limb operations give floor(2^256 / (target + 1)) without overflow |
| ProofOfWork.ModulatedSpan | src/coinyecoin.cpp:45-71 | The steps of modulation and clamping give the specified span, whose target is stated in numbers by ProofOfWork.RetargetInNumbers |
| Chain.BlockIndex.Genesis | src/chain.cpp:143-147 | A block without predecessor is valid and has no skip pointer |
| Chain.CChain.ForkStart | src/chain.cpp:84-85 | The block itself or its ancestor at the height of the chain; no higher ancestor is on the chain |
| Chain.CChain.LocateFrom | src/chain.cpp:52-78 | Entry by entry the step is one up to the eleventh and doubles after it, which fixes every height and keeps the list short |
| Cuckoo.Cache.Find | src/cuckoocache.h:443-453 | The first of its eight slots that holds the element; there is one for every live element |
| Cuckoo.Cache.CountRecent | src/cuckoocache.h:270-275 | The number of live elements of the current epoch |
| Cuckoo.Cache.Age | src/cuckoocache.h:280-286 | Everything not of the current epoch may be erased, and the current epoch becomes the old one |
| Cuckoo.Cache.Store | src/cuckoocache.h:376-390 | A slot of the element takes it and is kept; exactly the old content of that slot is given up |
| Cuckoo.Cache.FindGarbage | src/cuckoocache.h:383-387 | The first of the eight slots that may be overwritten |
| Cuckoo.NextSlot | src/cuckoocache.h:406-406 | One of the element's own slots |
| Base58.WithoutZeros | src/base58.cpp:60-63 | The digits in use without leading zeros are the canonical digits of the number |
| Base58Text.SkipSpaces | src/base58.cpp:23-25 | Exactly the white space |
| Base58Text.SkipOnes | src/base58.cpp:26-32 | Exactly the leading ones |
| RollingBloom.Filter.LookUp | src/bloom.cpp:285-297 | The loop over the hash functions finds whether all cells are set |
| RollingBloom.Filter.WriteKey | src/bloom.cpp:269-276 | All cells of the key get the current generation and no other recent key is harmed |
| NetMessages.CNetMessage.constructor | src/net.h:528-534 | A new message has received nothing |
| NetMessages.CNetMessage.Absorb | src/net.cpp:697-710 | Bytes go to the header or the payload; refused exactly when the header announces too much |
| NetMessages.CNode.CurrentMessage | src/net.cpp:693-698 | The message being received, or a new one after a complete one |
| NetMessages.CNode.Feed | src/net.cpp:700-716 | The bytes taken move the parse of the stream on by exactly those bytes, or the stream is refused as the parse refuses it |
| AuxPow.ExpectedIndex | src/auxpow.cpp:159-183 | The slot lies below the size of the tree |
| AuxPow.Search | src/auxpow.cpp:109-113 | The first occurrence, or the end |
| CoinsSerialize.DocumentedExample | src/coins.h:40-52 | The first documented example, for any key hash, is written byte by byte as documented |
| AuxPow.PlacedExactly | src/auxpow.cpp:106-136 | The searches accept a root exactly when its first occurrence follows the only header, or starts within 20 bytes of a script without one |
| AuxPow.AcceptedExactly | src/auxpow.cpp:80-157 | What check accepts, both ways and without the order of its tests: a generate transaction under the parent's root, a foreign chain id where strict, a short branch, and a well-placed root with matching size and slot |
| RollingBloom.SourcedOlder | src/bloom.cpp:249-265 | After a wipe every set cell belongs to a key of the two generations kept |
| RollingBloom.Filter.SetExactly | src/bloom.cpp:249-297 | A cell is set exactly when a key of the last three generations has it |
| Cuckoo.Cache.Move | src/cuckoocache.h:384-413 | The slot takes the element, its flag and its epoch, and nothing else changes; the one being inserted is still kept in the current epoch or is in hand again |
| Mining.NextIsExact | src/miner.cpp:281-331 | The test of a single transaction by the block's running totals says whether its own figures fit after what the block holds |
| Mining.PopConsidered | src/miner.cpp:587-612 | A transaction taken off the queue is in the waiting set with a parent missing, or was refused |
| Mining.AddedConsidered | src/miner.cpp:613-632 | When a transaction was added only its children can be waiting for nothing, and they are queued again |
| Mining.TestsAreExact | src/miner.cpp:247-279 | With true figures the two tests of a package say exactly whether the missing family of a transaction fits and is allowed |
| Mining.AcceptsWhatFits | src/miner.cpp:500-537 | An accepted package fits, and a package that fits is accepted unless its figures are stale from a failure |
| Mining.TurnSettles | src/miner.cpp:445-551 | Every turn keeps every transaction to come, in the block, or refused at some prefix of it; an accepted candidate is in the block |
| Mining.EvaluatedKeeps | src/miner.cpp:500-551 | A turn that evaluates a candidate extends the block, or puts a refused candidate on the list of failures |
| Mining.EveryRunSettles | src/miner.cpp:424-552 | Over every run of package selection: when nothing is left, every transaction is in the block or was refused while it was filled |
| AddrManEffects.AddStores | src/addrman.cpp:284-312 | An unknown routable address is reported as new and stored with its lowered time in the place its source sends it to, which its old holder loses; if that holder is not terrible and has no other place, everything stays as it was |
| AddrManEffects.AddRenews | src/addrman.cpp:256-312 | A known address is never reported as new; its time and services are renewed and it gets one more place exactly if it is not tried, has fewer than eight, the random number allows it and the place is free or its holder terrible |
| AddrManEffects.PlaceWins | src/addrman.cpp:290-305 | An entry without places takes its place, whose holder loses one reference or its life, and no other entry changes |
| AddrManEffects.PlaceLoses | src/addrman.cpp:306-312 | An entry without places that does not win is deleted and the rest is as before |
| AddrManEffects.ClearLoses | src/addrman.cpp:127-140 | Clearing a place takes one reference from its holder, or deletes it with the last one, and changes no other entry |
| AddrManEffects.GoodMoves | src/addrman.cpp:190-240 | A known entry of the new table moves to its tried place and leaves all others; the entry it pushes out goes to the new place where its own source sends it, whose holder loses that place |
| AddrManEffects.GoodElse | src/addrman.cpp:190-217 | For any other address Good_ changes at most statistics and the time of the last success |
| AddrManEffects.AttemptExactly | src/addrman.cpp:315-335 | Only the try times and the count of a known address change, the count only since the last success |
| AddrManEffects.ConnectedExactly | src/addrman.cpp:483-501 | Only the time of a known address changes, when it is more than twenty minutes old |
| AddrManEffects.SetServicesExactly | src/addrman.cpp:503-519 | Only the services of a known address change |
| ProofOfWork.RetargetInNumbers | src/coinyecoin.cpp:40-86 | For every rule set, elapsed time and old target, within the widths: the new target is the old one times the (damped) time over the timespan, and outside the clamps that of the nearer clamp |
| ProofOfWork.DigishieldEighth | src/coinyecoin.cpp:45-56 | Being 8d seconds off the timespan r scales the target by (r + d) / r |
| ProofOfWork.RetargetMonotone | src/coinyecoin.cpp:40-86 | The target never falls when more time has passed |
| ProofOfWork.SpanMonotone | src/coinyecoin.cpp:45-71 | The modulated span never falls when more time has passed |
| Cuckoo.Cache.ChainGrows | src/cuckoocache.h:392-413 | One more eviction makes the chain one longer and moves one element |
| Chain.DepthsDouble | src/chain.cpp:52-78 | The depths of a locator's entries are one apart up to the eleventh, and then twice as far each time |
| MerkleTree.SameHashSameParts | src/merkleblock.cpp:96-132 | Two traversals with the same flag bits that reach one hash used the same hashes, unless two pairs collide |
| MerkleTree.RootFixesHashes | src/merkleblock.cpp:150-181 | Of all partial trees of one shape only one gives a root that is not null, unless two pairs collide |
| MerkleTree.DamageShows | src/merkleblock.cpp:150-181 | Changing any of the hashes of a partial tree changes the root it gives, unless two pairs collide |
| PartialMerkleTree.CPartialMerkleTree.ExtractChildren | src/merkleblock.cpp:115-131 | Below a parent of a match the left and, if there is one, the right child are extracted in turn; equal children are flagged |
| PartialMerkleTree.RootsAgree | src/merkleblock.cpp:61-181 | The root that the receiver extracts is the one that the pass over all transactions puts into the header |
| MerkleRoot.ComputeMerkleRoot | src/consensus/merkle.cpp:46-137 | The constant-space pass gives the root of the tree in which an odd last node is doubled, for every number of leaves up to 2^31, and the flag is set exactly when two full siblings are equal |
| MerkleRoot.AddLeaf | src/consensus/merkle.cpp:65-90 | Taking in a leaf combines it with the nodes of the trailing zero bits of the new count |
| MerkleRoot.Sweep | src/consensus/merkle.cpp:91-127 | The sweep over the rightmost branch, with the rounded count, reaches the root |
| MerkleRoot.CounterFits | src/consensus/merkle.cpp:45-127 | The rounded count ends at 2^height and fits 32 bits if and only if there are at most 2^31 leaves |
| MerkleRoot.SmallTrees | src/consensus/merkle.cpp:9-43 | The roots of one, two and three leaves, left before right |
| MerkleRoot.TwinsAreSeen | src/consensus/merkle.cpp:9-43 | Equal siblings anywhere in the tree mean that two full siblings are equal, which is what the pass looks for |
| MerkleRoot.RootDecides | src/consensus/merkle.cpp:9-43 | Two lists of one height with one root, neither reported, are the same list, unless two pairs collide |
| MerkleRoot.DocumentedRepeat | src/consensus/merkle.cpp:9-43 | The documented lists 1 to 6 and 1 to 6, 5, 6 have one root, and the second is reported |
| MerkleRoot.OtherHeight | src/consensus/merkle.cpp:9-43 | Without equal heights one root can belong to two lists that are not reported |
| MerkleBranch.ComputeMerkleBranch | src/consensus/merkle.cpp:46-143 | The pass collects the siblings of the given leaf on its way to the root, and nothing for a position without leaf |
| MerkleBranch.AddLeafFollowing | src/consensus/merkle.cpp:65-90 | Taking in a leaf keeps track of the level at which the followed leaf is and of its siblings up to there |
| MerkleBranch.SweepFollowing | src/consensus/merkle.cpp:91-127 | The sweep adds the remaining siblings, a doubled node being its own |
| MerkleBranch.OneMatchLevel | src/consensus/merkle.cpp:62-90 | At every count only one level of the stored nodes has the followed leaf below it |
| MerkleBranch.ComputeMerkleRootFromBranch | src/consensus/merkle.cpp:145-156 | Folds the branch from the leaf up by the bits of the position |
| MerkleBranch.BranchClimbs | src/consensus/merkle.cpp:145-156 | Folding the siblings of a leaf gives the node above it at every level |
| MerkleBranch.BranchThenRoot | src/consensus/merkle.cpp:133-156 | For every leaf, its branch and position give the root of all leaves |
| AuxPow.BranchLeadsToRoot | src/auxpow.cpp:185-202 | In a full tree of 2^h slots the branch of a slot at its position folds to the root |
| AuxPow.RootFixesLeaf | src/auxpow.cpp:185-202 | Nothing but the content of that slot folds to that root at that position, unless two pairs collide |
| Compressor.DocumentedAmounts | src/compressor.cpp:133-140 | The documented formulas for amounts with up to eight and with nine trailing zeros |
| Compressor.ShortForms | src/compressor.cpp:48-77 | The short forms of the four kinds of scripts, byte by byte |
| VarInt.DocumentedTable | src/serialize.h:292-297 | The documented table of encodings |
| CoinsSerialize.SecondExample | src/coins.h:55-72 | The second documented example, for any two key hashes, is written byte by byte as documented |
| CheckQueue.BatchShares | src/checkqueue.h:105-110 | A batch is not empty and not larger than allowed, leaves as much for every other thread, and is the largest such |
| CoinsViews.AccessLeaves | src/coins.cpp:72-97 | A read leaves a clean copy in the cache, fresh exactly if nothing is visible below; other entries stay |
| CoinsViews.ModifyLeaves | src/coins.cpp:99-126 | A whole modification leaves a dirty entry with the cleaned-up coins, or none if they are spent and nothing below shows them |
| CoinsViews.ModifyNewLeaves | src/coins.cpp:134-153 | The same for new coins, and when the call throws |
| CoinsViews.WriteLeaves | src/coins.cpp:188-243 | What each entry written from a child leaves in the parent |
| CoinsViews.UncacheLeaves | src/coins.cpp:252-259 | An entry is dropped exactly if it is neither dirty nor fresh |

## Left out

- CoinsViews: SetBackend, the memory accounting in cachedCoinsUsage, GetValueIn, HaveInputs and the floating-point GetPriority.
- CoinsSerialize: the bytes of an unserializable entry; scripts of 2^31 bytes and more and entries with 2^32 - 16 outputs and more, whose sizes do not fit the 32-bit fields.
- CoinsSerialize.UnserializeSerialized: a script that is not compressible because its public key is not fully valid is stored verbatim; the two public-key operations are parameters of which only their being inverse to each other is used.
- Mining: fee totals and feerates are not modelled; which candidate they prefer is open, so every choice is covered, and whether a candidate's rate is too low, or its priority lets the priority phase go on, is a parameter. The witness commitment and the coinbase are not modelled. Mempool totals are taken to be right, as the mempool guarantees.
- BlockAssembler.BlockAssembler.TestForBlock: finality of a transaction, and whether its witness is allowed, is membership in a given set.
- AddrManState: the bucket hashes and GetGroup are parameters; a table slot that holds -1 is absent from a map; Select_, GetChance and Clear on a manager that is not empty are not modelled; integers are unbounded.
- AddrManRuns.ConnectedKeeps: Connected_ and SetServices_ are modelled as functions only, since they update one entry.
- AddrManFile: the file is a sequence of items in groups, not of bytes; the loops of AddrManStream update a value instead of the object's fields.
- MerkleTree: digests are natural numbers and the pair hash is a parameter; only MerkleTree.SoundExactly takes it to be injective, the other results exclude collisions among the pairs that are hashed.
- MerkleRoot: the root and the branch are two passes here, where the program runs one routine with two optional results; lists of more than 2^31 leaves, for which the 32-bit counter of the sweep wraps; the witness root.
- CheckQueue: the mutex makes each critical section one step; fQuit is never set in the code and is left out.
- ArithUint: conversions to and from strings and floating point.
- ProofOfWork.NextWorkRequired: the choice of the retarget interval and the minimum-difficulty rules.
- Chain: the links of a block index are fixed when it is built; 32-bit overflow of the locator's step for heights near 2^31.
- Cuckoo.Cache.Setup: the number of slots is a parameter, since it comes out of a floating-point logarithm; flags are booleans instead of packed atomic bits, and one operation is one step.
- Base58Text: strings end at their last character instead of at a NUL; white space is that of the C locale; version bytes and addresses.
- RollingBloom.Filter.constructor: the numbers of words and hash functions are parameters, since they come out of floating-point formulas; the false-positive rate is not modelled.
- NetMessages: the checksum, the message start bytes and the command are not looked at here, as in the code; send queues and byte counters per command are not modelled.
- AuxPow: the proof of work of the parent block.
- Compact-block reconstruction, script evaluation, wallet, RPC and the rest of the networking code.
