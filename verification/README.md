# Virthub: models and proofs

Virthub keeps key-value cache blocks of large language models in memory that several
nodes share. This project models the parts whose correctness is not visible in one
function: the Robin Hood hash index and the radix tree that find blocks, the page diff
that carries changes between nodes, the invalidation ring between processes, the lock
queue, the page table of the control plane, the staging slots that move between four
owners, the precision predictor, the frame codec, the FP8 formats and the stride
detector. `dafny verify dfyconfig.toml` checks everything.

Code that updates state in place is a class or a method over an `array` with loop
invariants; each such method is tied to a value-level function or ghost map, and the laws
are lemmas about those. Pure code is functions and lemmas.

| files | models | main results |
|---|---|---|
| `HashTable`, `FullTable`, `InsertLoop`, `HashIndex`, `IndexRuns`, `LoadRace`, `RaceServer`, `InsertLimits` | the open-addressing table of `src/index/src/hash_index.rs` | every run of calls, at every capacity, answers as a plain map (`Run`): an insert fails exactly above three quarters of the slots or, from 65536 slots on, when its home is taken, and a lookup gives the value of the last successful insert (`AnsweredByHistory`). Every schedule of callers whose load check is outside the lock follows a map-level specification, inserts into a full table included (`ServeAll`). Such an insert fails and loses exactly one key (`LosesOne`). For every hash and tables below 65536 slots, n concurrent inserters leave an empty slot in every interleaving exactly when 4n is below the capacity (`RoomExactly`), and lose no key, and no stored key, exactly when 4n is at most the capacity (`LossExactly`); from 65536 slots on no key is lost, and the table can be filled only if every slot is the home of some key |
| `PageDiff`, `PagePatch`, `PageDiffLaws` | `src/klnk/klnk-core/src/diff.rs` | the diff is the only one of its shape (`Unique`); patching restores every page of length n exactly when n is at most 2^32 (`RoundTripExactly`); patches commute exactly when they agree (`OrderIrrelevantExactly`) |
| `InvalidationRing`, `InvalidationBuffer` | `src/klnk/klnk-daemon/src/invalidation.rs` | over all interleavings, messages arrive in order, once and intact exactly when writers test for room and write no word after the valid word (`SafeExactly`) |
| `RadixTrie`, `RadixTree`, `AddressOrbit` | `src/index/src/radix_tree.rs` | the heap of nodes refines a map; a range lookup lists what is mapped at the addresses its cursor visits, wrapped or not, and returns exactly when a condition on start, end and the lowest set bit of the step holds (`ReturnsExactly`) |
| `LockQueue` | locks of `src/klnk/klnk-core/src/control_plane.rs` | mutual exclusion (`MutualExclusion`); first come, first served over whole runs (`Fifo`, `ServedInTurn`, `NoOvertaking`) |
| `PageTable`, `PageTableLaws`, `AddressOrbit` | regions and pages of the same file | the table covers the live regions at every moment exactly when removed regions share no page base and registrations that never return enter no page of their own (`CoverExactly`); versions count writes, and state and owner are those of the last update (`EntryTellsHistory`) |
| `StagingPool`, `SlotOwnership`, `SlotHistory` | `src/store/src/staging_pool.rs` and its users | no slot is in two places in any run (`AlwaysPartitioned`), and each serves the page it was popped for (`SlotsServeTheirPages`); a pool of n slots serves at most n page moves (`MovesBounded`), and some run reaches n |
| `Precision` | `src/precision/src` | reversals of the pressure level are paid for by the variation of the readings (`AntiThrashing`), and the bound is sharp; the exact conditions for every pressure level and every precision (`PressureExactly`, `LevelExactly`) |
| `FrameCodec` | `src/klnk/klnk-net/src/control_transport.rs` | however a byte stream is cut, the same messages come out (`CutsDoNotMatter`, `StreamRoundTrip`), and what is made of any buffer (`DecodeExactly`) |
| `Fp8`, `Fp8Laws`, `Fp8Nearest`, `Fp8Order` | `src/store/src/quantization.rs` | over all finite floats, conditions on magnitudes alone that say exactly when the half-unit error bound holds (`ErrorExactly`), when the code is the nearest of all 256 (`NearestExactly`) and when a pair keeps its order (`OrderExactly`) |
| `StrideDetector` | `src/klnk/klnk-ebpf/src/lib.rs` | a recommendation is always backed by the history (`Sound`); in every run it is made exactly for a new address once enough moves outweigh the idle accesses among them (`CompleteExactly`); processes do not influence one another (`Isolated`) |

## Reading notes

- Hash index. The hash is an arbitrary function. The probe bound is the capacity cast to
  16 bits (`hash_index.rs:180`), so tables of 65536 slots and more have bound 0; there an
  insert is refused when another stored key has the same home slot, and whatever the hash
  there are two such keys (`SecondInsertRefused`). The contract states this instead of
  excluding those tables. The load check at line 139 is made before the table lock is
  taken; `HashIndex.Insert` treats an insert as one step, and `LoadRace` as two. In a full
  table the swaps of the insert loop go on until the carried distance exceeds the bound
  (`Spin`). After that an entry at home may store the capacity as its distance instead of 0;
  the placement law `WellPlaced` admits this, and lookups and removals stay correct.
- Page diff. Chunk offsets are cast to 32 bits, so a page longer than 2^32 bytes loses
  changes (`LostChange`).
- Invalidation ring. A writer reserves a position by compare and swap on the tail and then
  writes its entry; the poller reads and clears entries word by word. The poller takes a
  nonzero valid word as the sign of a complete entry (`invalidation.rs:166-171`). The
  repository fixes neither the order in which remote writers write the four words nor
  whether they test for room: its own `write_entry`, compiled for tests only, tests for room
  (line 194) and writes the valid word first (line 143), and the module text (lines 12-15)
  names only the swap and the write. Both are parameters (`Plan`), and `SafeExactly` says
  which plans keep messages intact.
- Page table. Registering a region that overlaps another is allowed and removing it
  deletes the shared page entries (`SharedBaseLost`); `CoverKeptExactly` states exactly
  when the entries stop matching the live regions. A registration whose loop never ends
  appears in runs as one event for each round, between the events of other callers.
- Staging slots. When a page moves out of a slot the slot is never pushed back
  (`handler.rs:317-330`), a failed remote read in the fault
  handler keeps it as well (lines 312-314), and a replaced prefetch entry is dropped with its
  slot (`prefetch.rs:275`); `SlotsConserved` counts all of these as departed.
- Pressure levels. `docs/PRECISION_PREDICTION.md:109-114` lets Elevated fall to Nominal
  below 0.78, and `src/master/src/scheduler.rs:437` expects Critical to fall to Nominal in
  one update; the code (`hysteresis.rs:40-68`) does neither, and the model follows the code.
- FP8. A code with exponent field 0 is dequantised without dividing its mantissa by 8 or 4
  (`quantization.rs:63` and `124`), so small values miss the error bound and can pass larger
  ones (`OrderLost`); the three exact laws give the limits on both sides.
- Stride detector. The comment at `lib.rs:164` speaks of halving the confidence after an
  idle gap; the code subtracts one, and the model follows the code.
- Machine numbers. 64-bit arithmetic wraps around everywhere, as a release build computes
  it: strides, blocks that start beyond the end of their sequence, and the address loops of
  the radix tree and the page table. Such a loop may go on for ever; `None` of `LookupRange`
  and `Endless` of `RegisterRegion` stand for a call that never returns. Readings of memory
  pressure are reals.
- The message serialiser is an arbitrary pair of functions (`Wire`).

## Model

| member | source | states |
|---|---|---|
| HashTable.Chain | src/index/src/hash_index.rs:169-182 | every slot between an entry's home and the entry is occupied and its entry is displaced at least proportionally |
| HashTable.Reach | src/index/src/hash_index.rs:198-200 | a probe for a stored key meets no empty slot and no closer-to-home entry before the key, which justifies the early exit |
| HashTable.SeekFails | src/index/src/hash_index.rs:198-200 | an empty slot or a less displaced entry proves that the key sought is not stored anywhere, also in a full table |
| HashTable.SeekOn | src/index/src/hash_index.rs:202-211 | passing any other entry keeps the search lawful; it goes at most one step further than once around |
| HashTable.ProbeOn | src/index/src/hash_index.rs:206-211 | passing an occupied slot keeps the probe invariant and comes nearer to an empty slot |
| HashTable.Displace | src/index/src/hash_index.rs:169-174 | taking the slot of a less displaced entry keeps the table invariant, and the evicted entry continues as a lawful probe |
| HashTable.DisplaceContents | src/index/src/hash_index.rs:169-174 | after a displacement, storing the evicted pair gives the map that storing the original pair would have given |
| HashTable.Settle | src/index/src/hash_index.rs:154-161 | ending a probe in an empty slot keeps the invariant and stores exactly the carried pair |
| HashTable.SetValue | src/index/src/hash_index.rs:163-167 | updating the value of a stored key keeps the invariant and changes only that pair |
| FullTable.SpinPass | src/index/src/hash_index.rs:169-182 | in a full table every round keeps placement and order, and either moves on unchanged or raises the sum of the distances, so the loop ends |
| FullTable.DropsStored | src/index/src/hash_index.rs:169-182 | if all keys have one home and no insert has dropped a key before, an insert of a new key into a full table puts it into the home slot and drops the key that was there |
| InsertLoop.LoopOn | src/index/src/hash_index.rs:169-182 | one round of the insert loop past an occupied slot, in a table with room, a full one and a large one: it leaves with the promised outcome or goes on with a smaller measure |
| HashTable.MoveGap | src/index/src/hash_index.rs:246-250 | moving one entry back over the gap keeps all placement and order laws except at the gap's new place |
| HashTable.ShiftContents | src/index/src/hash_index.rs:246-250 | the backward shift changes no stored pair |
| HashTable.ShiftTotal | src/index/src/hash_index.rs:246-250 | each shift lowers the sum of the distances, so a removal ends also in a full table |
| HashTable.CloseGap | src/index/src/hash_index.rs:241-244 | stopping at an empty slot or an entry at home restores the full table invariant |
| HashTable.HasEmptySlot | src/index/src/hash_index.rs:126-131 | a table that stores fewer keys than slots has an empty slot, which ends every loop |
| HashTable.EmptyIsStrict | src/index/src/hash_index.rs:169-182 | in a table with an empty slot every stored distance is below the capacity |
| HashIndex.NextPowerOfTwo | src/index/src/hash_index.rs:93-93 | the capacity is a power of two, at least the request and less than twice it |
| HashIndex.ProbeLimitOfPow2 | src/index/src/hash_index.rs:180-180 | the 16-bit cast keeps capacities up to 32768 and turns every larger power of two into 0 |
| HashIndex.HomeTaken | src/index/src/hash_index.rs:176-182 | in a table where all entries are at home, the home slot is foreign exactly when another stored key has that home |
| HashIndex.ConcurrentHashIndex.constructor | src/index/src/hash_index.rs:92-106 | a new index is valid, empty, and as large as promised |
| HashIndex.ConcurrentHashIndex.CheckCapacity | src/index/src/hash_index.rs:126-131 | refuses exactly when more than three quarters of the slots are taken |
| HashIndex.ConcurrentHashIndex.Insert | src/index/src/hash_index.rs:137-184 | succeeds exactly when the map-level rule does not refuse, which below 65536 slots is the load limit of three quarters, then stores the pair; otherwise nothing changes |
| HashIndex.ConcurrentHashIndex.InsertLocked | src/index/src/hash_index.rs:141-183 | in every table, full ones included, keeps the invariant: stores the pair; or refuses a key whose home is taken in a large table, with nothing changed; or, for a new key in a full smaller table, fails and drops exactly the key that the spinning loop carries last |
| HashIndex.ConcurrentHashIndex.Place | src/index/src/hash_index.rs:151-183 | the displacement loop ends, with the outcome that its setting allows: room, a large table or a full one |
| HashIndex.ConcurrentHashIndex.PassSlot | src/index/src/hash_index.rs:169-177 | the round in place is the round of the specification: the bucket and the carried entry change places exactly when the bucket is less displaced, and the distance grows by one |
| HashIndex.ConcurrentHashIndex.Get | src/index/src/hash_index.rs:187-213 | returns exactly the stored value, or the missing-key error exactly when the key is absent |
| HashIndex.ConcurrentHashIndex.Remove | src/index/src/hash_index.rs:216-260 | removes exactly that key, returns its value, and keeps the invariant; an absent key changes nothing |
| HashIndex.ConcurrentHashIndex.Search | src/index/src/hash_index.rs:220-259 | finds the slot of the key, or the key occurs nowhere |
| HashIndex.ConcurrentHashIndex.CloseUp | src/index/src/hash_index.rs:234-251 | the in-place backward shift leaves a lawful table of all other pairs |
| HashIndex.ConcurrentHashIndex.Iter | src/index/src/hash_index.rs:283-291 | lists exactly the stored pairs, each once |
| HashIndex.ConcurrentHashIndex.Run | src/index/src/hash_index.rs:137-265 | any sequence of insert, get, remove and len answers as the plain map does, for every capacity |
| IndexRuns.AnsweredByHistory | src/index/src/hash_index.rs:126-265 | in every run an insert is answered CapacityExceeded exactly when more than three quarters of the slots are taken or, from 65536 slots on, another stored key has the same home; lookups and removals answer with the last stored value of the key, or that it is missing |
| IndexRuns.StoredIsLast | src/index/src/hash_index.rs:137-260 | a key is stored after a run exactly when an insert of it succeeded and no removal came after, with the value of the last such insert |
| IndexRuns.LoadBound | src/index/src/hash_index.rs:126-139 | no run stores more than three quarters of the capacity and one key |
| InsertLimits.SecondInsertRefused | src/index/src/hash_index.rs:176-182 | whatever the hash, a table storing one key refuses some other key exactly when it has 65536 slots or more |
| LoadRace.Overshoot | src/index/src/hash_index.rs:137-141 | with the load check and the locked insert as separate steps of n callers, the stored keys and those on their way exceed three quarters of the capacity by at most n in every interleaving |
| IndexRuns.InsertIsCheckThenCommit | src/index/src/hash_index.rs:137-141 | an insert as one step is the check and the commit of one caller, in state and answer |
| InsertLimits.RoomExactly | src/index/src/hash_index.rs:137-141 | for every capacity and hash, n callers leave an empty slot in every interleaving exactly when 4n is below the capacity, or the table has 65536 slots or more and some slot is nobody's home |
| InsertLimits.LossExactly | src/index/src/hash_index.rs:137-182 | for every capacity and hash, no schedule of n callers drops a key exactly when 4n is at most the capacity, or the table has 65536 slots or more; and no schedule has to drop a stored key exactly then |
| InsertLimits.LosesOne | src/index/src/hash_index.rs:169-182 | an insert of a new key into a full table of up to 65535 slots ends with CapacityExceeded and loses exactly one of the capacity + 1 keys |
| InsertLimits.StoredKeyLost | src/index/src/hash_index.rs:137-182 | for every hash and every such capacity, a schedule of one caller more than a quarter of it that ends in an insert which fails, stores its key and removes a stored one |
| RaceServer.Serve | src/index/src/hash_index.rs:137-260 | one step of any such schedule on the table itself keeps it valid, gives a state and the answer of the specification, and does lose a stored key when the specification says so |
| RaceServer.ServeAll | src/index/src/hash_index.rs:137-260 | every schedule of calls, without exception, keeps the table valid, goes through states of the specification and gives its answers |
| PageDiff.Trim | src/klnk/klnk-core/src/diff.rs:104-114 | the trimmed run starts and ends with a differing byte and cuts off only equal bytes |
| PageDiff.RunEnd | src/klnk/klnk-core/src/diff.rs:97-102 | finds the maximal run of differing words |
| PageDiff.ScanWords | src/klnk/klnk-core/src/diff.rs:90-125 | the word loop yields trimmed, separated, complete spans of the word area |
| PageDiff.ScanTail | src/klnk/klnk-core/src/diff.rs:127-138 | the byte loop completes them to the canonical spans of the whole page |
| PageDiff.ComputeDiff | src/klnk/klnk-core/src/diff.rs:64-145 | the size error exactly for different lengths; otherwise the encoding of the canonical spans of the two pages |
| PageDiffLaws.Unique | src/klnk/klnk-core/src/diff.rs:90-138 | a pair of pages has only one canonical list of spans, so the contract of ComputeDiff fixes its result |
| PageDiffLaws.WordGap | src/klnk/klnk-core/src/diff.rs:97-102 | chunks of the word area are at least eight bytes apart |
| PageDiffLaws.SizeBound | src/klnk/klnk-core/src/diff.rs:45-47 | a diff carries at most eight bytes for each changed byte |
| PagePatch.PatchFits | src/klnk/klnk-core/src/diff.rs:148-167 | patching succeeds exactly when every chunk ends inside the page |
| PagePatch.PatchedByte | src/klnk/klnk-core/src/diff.rs:155-164 | a byte of the patched page is that of the last chunk that covers it, or as it was |
| PagePatch.PatchStops | src/klnk/klnk-core/src/diff.rs:155-162 | a patch stops at the first chunk out of bounds, names it, and leaves the page as the chunks before it make it |
| PagePatch.ApplyPatch | src/klnk/klnk-core/src/diff.rs:148-167 | the array in place becomes the page of the chunk-by-chunk specification, with its result, also when it stops in the middle |
| PagePatch.PatchIsOverlay | src/klnk/klnk-core/src/diff.rs:155-164 | applying the encoding of spans overwrites exactly the covered bytes |
| PagePatch.RoundTripExactly | src/klnk/klnk-core/src/diff.rs:116-164 | diff then patch restores every page of length n exactly when n is at most 2^32 |
| PagePatch.LostChange | src/klnk/klnk-core/src/diff.rs:116-121 | for every longer length there are two pages whose patched baseline misses a change |
| PagePatch.EmptyExactly | src/klnk/klnk-core/src/diff.rs:50-52 | the diff is empty exactly when the pages are equal |
| PagePatch.OrderIrrelevantExactly | src/klnk/klnk-core/src/diff.rs:148-167 | two diffs can be applied in either order exactly when they agree on the bytes that both cover |
| PagePatch.Merge | src/klnk/klnk-core/src/diff.rs:148-167 | two writers of one baseline with disjoint extents merge: all changes of both and no others |
| InvalidationRing.StepKeeps | src/klnk/klnk-daemon/src/invalidation.rs:119-202 | every step of any writer and of the poller keeps the ring invariant |
| InvalidationRing.SafeExactly | src/klnk/klnk-daemon/src/invalidation.rs:140-202 | accepted messages are a prefix of the reserved ones in all reachable states exactly when writers test for room and write no word after the valid word |
| InvalidationRing.OverrunAccepted | src/klnk/klnk-daemon/src/invalidation.rs:192-202 | without the test for room, some run accepts the newest message in place of the oldest, whatever the order of the words |
| InvalidationRing.TornAccepted | src/klnk/klnk-daemon/src/invalidation.rs:140-149 | with a word written after the valid word, some run accepts a message nobody sent |
| InvalidationRing.SafePlans | src/klnk/klnk-daemon/src/invalidation.rs:140-202 | with the test for room, writing all words at once is safe and writing the valid word first is not; without it not even the former is |
| InvalidationRing.NoneOverwritten | src/klnk/klnk-daemon/src/invalidation.rs:192-202 | with a safe plan, every reserved and unaccepted message is in its slot or still with its own writer |
| InvalidationBuffer.DrainableIs | src/klnk/klnk-daemon/src/invalidation.rs:156-186 | characterises the number of entries one poll may take |
| InvalidationBuffer.Buffer.AdvanceTailAtomic | src/klnk/klnk-daemon/src/invalidation.rs:119-123 | compare and swap on the tail, with the value found |
| InvalidationBuffer.SwapIsReservation | src/klnk/klnk-daemon/src/invalidation.rs:119-123 | that swap is the step of the ring protocol in which a writer that has checked reserves its position or gives up |
| InvalidationBuffer.Buffer.WriteEntry | src/klnk/klnk-daemon/src/invalidation.rs:192-202 | appends the message exactly when the ring is not full |
| InvalidationBuffer.WriteIsWriterRun | src/klnk/klnk-daemon/src/invalidation.rs:192-202 | such a call is an undisturbed run of writer steps of the ring protocol: it reserves and fills the slot at the tail exactly when fewer than 1024 entries are pending |
| InvalidationBuffer.Buffer.ProcessPending | src/klnk/klnk-daemon/src/invalidation.rs:156-186 | hands over the longest prefix of entries that are published and that a callback with a state of its own accepts, in order, clears their slots and keeps the rest |
| InvalidationBuffer.DrainIsPollerRun | src/klnk/klnk-daemon/src/invalidation.rs:156-186 | one such drain is a run of poller steps of the ring protocol that takes the same entries and publishes the same head |
| RadixTrie.ChunksDetermine | src/index/src/radix_tree.rs:92-95 | the four 16-bit chunks determine the address |
| RadixTrie.ChunksCompose | src/index/src/radix_tree.rs:92-95 | the chunks are the base-65536 digits of the address, the highest first |
| RadixTrie.OnPath | src/index/src/radix_tree.rs:143-161 | every level on the path of a mapped address is present |
| RadixTrie.AddBranch | src/index/src/radix_tree.rs:121-128 | hanging a fresh branch keeps the trie law and maps no address |
| RadixTrie.PutLeaf | src/index/src/radix_tree.rs:110-119 | setting a leaf keeps the trie law and maps exactly that address |
| RadixTree.ConcurrentRadixTree.constructor | src/index/src/radix_tree.rs:83-88 | a new tree is valid and maps nothing |
| RadixTree.ConcurrentRadixTree.Insert | src/index/src/radix_tree.rs:102-137 | always succeeds and adds exactly that address to the map the heap of nodes stands for |
| RadixTree.ConcurrentRadixTree.Lookup | src/index/src/radix_tree.rs:143-168 | returns exactly the mapped value or the unmapped error |
| RadixTree.ConcurrentRadixTree.LookupRange | src/index/src/radix_tree.rs:174-191 | the pairs mapped at the visited addresses, in the order of the visits; no answer exactly when the wrapping cursor never reaches the end |
| RadixTree.FoundMembers | src/index/src/radix_tree.rs:183-188 | a pair is listed exactly when its address is visited and mapped to its value; ascending visits give an ascending list |
| RadixTree.RangeStraight | src/index/src/radix_tree.rs:174-191 | if the first grid point at or after the end fits, the answer is exactly the mapped grid addresses of the range in increasing order |
| AddressOrbit.OrbitExactly | src/index/src/radix_tree.rs:183-188 | the addresses that the wrapping cursor can reach are exactly those congruent to the start modulo the lowest set bit of the step |
| AddressOrbit.ReturnsExactly | src/index/src/radix_tree.rs:183-188 | the wrapping loop ends exactly when the range is empty, or the step is not 0 and the greatest address congruent to the start modulo the lowest set bit of the step is at or beyond the end |
| AddressOrbit.VisitsDistinct | src/index/src/radix_tree.rs:183-188 | a loop that ends visits no address twice, wrapped or not |
| AddressOrbit.VisitsStraight | src/index/src/radix_tree.rs:183-188 | a loop that does not wrap visits exactly the grid points of the range, in increasing order |
| LockQueue.LockTable.AcquireLock | src/klnk/klnk-core/src/control_plane.rs:312-347 | joins the queue of the resource once; answered Ok exactly for the front; no other queue moves |
| LockQueue.LockTable.ReleaseLock | src/klnk/klnk-core/src/control_plane.rs:350-378 | the front leaves and the next one owns; anybody else gets the not-held error |
| LockQueue.LockTable.Serve | src/klnk/klnk-core/src/control_plane.rs:312-378 | any run of calls gives every resource the queue and every call the answer of the queue specification |
| LockQueue.AnsweredByFront | src/klnk/klnk-core/src/control_plane.rs:312-378 | in every run an acquire is answered Ok exactly when the client is then at the front, a release exactly when it was; every other call gets the error with its own resource and client |
| LockQueue.MutualExclusion | src/klnk/klnk-core/src/control_plane.rs:329-345 | after an acquire answered Ok, and until a release by the same client answered Ok, every acquire of the resource by another client is refused |
| LockQueue.Fifo | src/klnk/klnk-core/src/control_plane.rs:312-378 | after any run the queue is everyone who was in it or joined, in order, without the first so many that were served, and nobody twice |
| LockQueue.ServedInTurn | src/klnk/klnk-core/src/control_plane.rs:358-365 | the client waiting at index k owns after exactly k + 1 successful releases and not before |
| LockQueue.NoOvertaking | src/klnk/klnk-core/src/control_plane.rs:358-365 | while a client waits, the owner is always one that was not behind it |
| PageTable.BasesOfFitting | src/klnk/klnk-core/src/control_plane.rs:119-133 | the bases of a region within the address space are its page addresses, one page size apart |
| PageTable.EndlessPages | src/klnk/klnk-core/src/control_plane.rs:119-133 | a registration loop that never ends visits exactly the addresses congruent to the start modulo the lowest set bit of the page size, all below the end |
| PageTable.ControlPlane.RegisterRegion | src/klnk/klnk-core/src/control_plane.rs:109-137 | a fresh entry at every address the wrapping loop visits, and the region; the exists error with nothing changed; or, exactly when the loop never ends, a call that never returns, with the entries of any number of rounds and no region |
| PageTable.ControlPlane.EnterRounds | src/klnk/klnk-core/src/control_plane.rs:124-133 | the first rounds of a loop that never ends, whose guard stays true |
| PageTable.ControlPlane.EnterPages | src/klnk/klnk-core/src/control_plane.rs:121-133 | the loop enters exactly the visited addresses, with wrap-around |
| PageTable.ControlPlane.ClearPages | src/klnk/klnk-core/src/control_plane.rs:146-153 | the same loop of a removal removes exactly these |
| PageTable.ControlPlane.DeregisterRegion | src/klnk/klnk-core/src/control_plane.rs:140-158 | removes the region and the entries at its bases, or the not-found error with nothing changed; it always returns |
| PageTable.ControlPlane.UpdatePageState | src/klnk/klnk-core/src/control_plane.rs:175-193 | changes one known entry as specified and no other |
| PageTable.ControlPlane.AddReaderNode | src/klnk/klnk-core/src/control_plane.rs:206-216 | adds a holder once to a known entry |
| PageTable.ControlPlane.RemoveReaderNode | src/klnk/klnk-core/src/control_plane.rs:226-234 | removes a holder from a known entry |
| PageTableLaws.CoverKeptExactly | src/klnk/klnk-core/src/control_plane.rs:109-234 | an event keeps the entries equal to the bases of live regions exactly when it neither removes a region that shares a base with another nor is a round of an endless registration on a page that no live region has |
| PageTableLaws.CoverExactly | src/klnk/klnk-core/src/control_plane.rs:109-234 | over a whole run, the table covers the live regions at every moment exactly when every step is tidy in this sense |
| PageTableLaws.SharedBaseLost | src/klnk/klnk-core/src/control_plane.rs:140-158 | for every two regions with a common base, registering both and removing the first leaves the second without an entry |
| PageTableLaws.CoverCanFail | src/klnk/klnk-core/src/control_plane.rs:140-158 | a concrete run of regions within the address space that loses the cover |
| PageTableLaws.VersionCountsWrites | src/klnk/klnk-core/src/control_plane.rs:175-193 | the version of a page is the number of exclusive-write updates since it was last registered |
| PageTableLaws.HoldersAreReaders | src/klnk/klnk-core/src/control_plane.rs:206-234 | a node is a holder exactly when its last addition was not followed by its removal, an exclusive write or a new registration of the page |
| PageTableLaws.HoldersDistinct | src/klnk/klnk-core/src/control_plane.rs:206-216 | no node is listed twice in any run |
| PageTableLaws.HoldersInOrder | src/klnk/klnk-core/src/control_plane.rs:206-216 | the readers of a page are listed in the order in which they came |
| PageTableLaws.EntryTellsHistory | src/klnk/klnk-core/src/control_plane.rs:109-193 | in every run the state and owner of a page are those of its last update since it was registered, or Invalid and the local node; address, metadata and page size are those of the registration, the size at least 4096 |
| PageTableLaws.RegionsAreRegistered | src/klnk/klnk-core/src/control_plane.rs:109-158 | an identifier names the first region that was registered under it since it was last free |
| StagingPool.SlotsApart | src/store/src/staging_pool.rs:151-163 | different slots never share an address |
| StagingPool.OpenPool | src/store/src/staging_pool.rs:83-143 | the errors for zero slots, an unaligned slot size and a failed or null mapping, in this order, and otherwise a pool with all slots free |
| StagingPool.StagingMemoryPool.PopSlot | src/store/src/staging_pool.rs:151-163 | hands out the oldest free slot, or the exhausted error exactly when none is free |
| StagingPool.StagingMemoryPool.PushSlot | src/store/src/staging_pool.rs:166-180 | all outcomes; the free list stays free of duplicates exactly when the slot was not in it, was out of range or met a full queue |
| StagingPool.StagingMemoryPool.PopSlotsBatch | src/store/src/staging_pool.rs:184-193 | hands out as many of the oldest slots as there are, in order |
| StagingPool.FirstInFirstOut | src/store/src/staging_pool.rs:151-180 | over every run, the slots handed out followed by the free ones are the initial ones followed by those taken back, and the counter counts the difference |
| SlotOwnership.QueueHasRoom | src/store/src/staging_pool.rs:166-180 | a task that holds a slot always finds room in the queue, so no push is lost |
| SlotOwnership.StepKeeps | src/klnk/klnk-daemon/src/prefetch.rs:251-294 | every step of the prefetcher and of the fault handler keeps the ownership invariant |
| SlotOwnership.AlwaysPartitioned | src/klnk/klnk-uffd/src/handler.rs:273-361 | in every run each slot is in exactly one of the free queue, the prefetch cache, one task's hands and the departed slots |
| SlotOwnership.SlotsConserved | src/klnk/klnk-uffd/src/handler.rs:273-361 | the four counts add up to the pool, and the active counter is what is not free |
| SlotOwnership.MovesBounded | src/klnk/klnk-uffd/src/handler.rs:284-330 | departed slots are exactly the moves, the failed moves of prefetched slots, the failed reads and the replaced entries, so a pool of n slots serves at most n page moves, less one for each of the others |
| SlotOwnership.MovesReached | src/klnk/klnk-uffd/src/handler.rs:332-361 | for every k up to n some run makes exactly k moves |
| SlotOwnership.HandsApart | src/klnk/klnk-uffd/src/handler.rs:273-330 | the memory of two slots in the hands of tasks or in the prefetch cache never overlaps |
| SlotHistory.SlotsServeTheirPages | src/klnk/klnk-daemon/src/prefetch.rs:251-294 | in every run a slot cached for an address was popped by a prefetch of that address whose read ended well, and every task holds a slot popped for the address it works on |
| SlotHistory.PrefetchIsCached | src/klnk/klnk-daemon/src/prefetch.rs:270-279 | a prefetch that was read is cached under its own address, and the slot it replaces departs |
| SlotHistory.SlotGiven | src/klnk/klnk-uffd/src/handler.rs:273-361 | a start gives a task without a slot the first free one, and a fault on a prefetched page the one cached for it; otherwise nothing changes |
| SlotHistory.SlotReturns | src/klnk/klnk-uffd/src/handler.rs:332-361 | a failed prefetch read and a failed move of a popped slot give the slot back, to the end of the queue |
| SlotHistory.SlotDeparts | src/klnk/klnk-uffd/src/handler.rs:284-330 | a successful move, a failed fetch read and a failed move of a cached slot let the slot depart, each counted as what it is |
| SlotHistory.FetchGoesOn | src/klnk/klnk-uffd/src/handler.rs:306-316 | after a successful fetch read the task goes on to move the same slot |
| Precision.AfterMonotone | src/precision/src/hysteresis.rs:40-68 | pointwise higher readings never lead to a lower level |
| Precision.PressureExactly | src/precision/src/hysteresis.rs:40-68 | over every trace the level is Critical exactly when a reading of 0.88 was met and none below 0.82 since, and Nominal exactly when one below 0.70 was met outside Critical and none of 0.78 since |
| Precision.AntiThrashing | src/precision/src/hysteresis.rs:40-68 | for every trace, 0.06 times the number of reversals is at most the total variation of the readings |
| Precision.SharpFromStart | src/precision/src/hysteresis.rs:40-68 | for every n and every small margin a trace reverses n times with a variation of 0.06 plus the margin for each |
| Precision.ProfileByDistance | src/precision/src/lut.rs:22-35 | by distance from the nearer end, the two outermost layers are critical, the four outermost have the bonus, and critical layers always have it |
| Precision.BonusApartFromPruning | src/precision/src/lut.rs:22-35 | no layer has both the bonus and the permission to prune exactly in networks of more than 16 layers |
| Precision.Unpack | src/precision/src/policy.rs:65-90 | the packed policy word gives back precision, residual flag and the low 24 bits of the head mask |
| Precision.LevelBits | src/precision/src/policy.rs:14-71 | the two lowest bits are 0, 1, 2 and 3 for the four levels |
| Precision.PredictMonotone | src/precision/src/predictor.rs:82-142 | higher pressure never gives a block more precision |
| Precision.RunMonotone | src/precision/src/predictor.rs:82-180 | the same through hysteresis and for every block of a batch, for every pair of pointwise ordered traces |
| Precision.PrunedExactly | src/precision/src/predictor.rs:82-142 | the exact condition on layer, windows, pressure and retrieval flag for pruning, for all starts and lengths, and the head mask and residual flag that go with it |
| Precision.LevelExactly | src/precision/src/predictor.rs:82-142 | the exact condition on windows, distance from the nearer end, pressure and flag for each of the four levels |
| Precision.WindowsAreLossless | src/precision/src/predictor.rs:90-97 | sink and local tokens get FP16 with all heads, in any layer and under any pressure |
| Precision.BatchIsPointwise | src/precision/src/predictor.rs:160-180 | a batch answers each block as the single prediction does, in order |
| Precision.DefaultWindows | src/precision/src/predictor.rs:25-54 | the default windows are 16 and 64 tokens |
| FrameCodec.Be32RoundTrip | src/klnk/klnk-net/src/control_transport.rs:200-215 | the length field survives modulo 2^32 |
| FrameCodec.FrameBytes | src/klnk/klnk-net/src/control_transport.rs:200-215 | the bytes of a frame: version 1, the length in big-endian order, flags 0 or 2, the payload |
| FrameCodec.DecodeExactly | src/klnk/klnk-net/src/control_transport.rs:156-194 | for every buffer, exactly when decoding waits, which error refuses it and what is consumed, and which message comes out |
| FrameCodec.RoundTripExactly | src/klnk/klnk-net/src/control_transport.rs:156-215 | an encoded message decodes to itself and leaves the rest untouched exactly when its payload is at most 16 MiB |
| FrameCodec.Stable | src/klnk/klnk-net/src/control_transport.rs:156-194 | more bytes never change a decision already made |
| FrameCodec.CutsDoNotMatter | src/klnk/klnk-net/src/control_transport.rs:156-194 | feeding a stream in any pieces gives the messages, buffer or error of the whole stream |
| FrameCodec.StreamRoundTrip | src/klnk/klnk-net/src/control_transport.rs:156-215 | a list of encoded messages, cut anywhere, is received as that list with nothing left over |
| FrameCodec.FrameBuffer.EncodeInto | src/klnk/klnk-net/src/control_transport.rs:200-215 | appends the frame to the buffer |
| FrameCodec.FrameBuffer.DecodeNext | src/klnk/klnk-net/src/control_transport.rs:156-194 | consumes exactly what the specification consumes, in all outcomes |
| FrameCodec.FrameBuffer.Receive | src/klnk/klnk-net/src/control_transport.rs:156-194 | the receive loop yields the drained stream and keeps the undecoded rest |
| Fp8.QuantizeBits | src/store/src/quantization.rs:11-54 | the guard-bit and sticky-bit steps compute the arithmetic quantisation |
| Fp8.RoundBits | src/store/src/quantization.rs:32-35 | what the round bit and the sticky bit say about the lost part of the mantissa |
| Fp8.SpecialCodes | src/store/src/quantization.rs:11-26 | the codes of NaN, of both infinities and of both zeros |
| Fp8Laws.ErrorExactly | src/store/src/quantization.rs:11-130 | over all finite floats, the round trip is within half a unit exactly for zero and for magnitudes between the two limits of the format |
| Fp8Laws.SmallFails | src/store/src/quantization.rs:57-69 | every normal float below the lower limit misses the bound |
| Fp8Laws.LargeExactly | src/store/src/quantization.rs:43-44 | above the exponent range the bound holds exactly up to the upper limit |
| Fp8Nearest.NearestExactly | src/store/src/quantization.rs:11-130 | over all finite floats and all 256 codes, the chosen code is the nearest exactly for values flushed to zero and for values from the lower limit up to halfway between the infinity code and the next |
| Fp8Nearest.TiesToEven | src/store/src/quantization.rs:32-41 | a value halfway between two codes gets the even one |
| Fp8Order.ReachExactly | src/store/src/quantization.rs:57-69 | the code of a value is below k times the smallest normal code exactly when the value is below a stated limit |
| Fp8Order.FieldExactly | src/store/src/quantization.rs:45-49 | below the lower limit, the mantissa field is at least k exactly from an eighth (a quarter in E5M2) of the limit of k on |
| Fp8Order.OrderExactly | src/store/src/quantization.rs:11-130 | every pair of finite floats keeps its order exactly when it is not a pair of one sign whose magnitudes lie on both sides of the lower limit, the larger below the limit of some k and the smaller at least an eighth (a quarter in E5M2) of that limit |
| Fp8Order.OrderKept | src/store/src/quantization.rs:72-130 | zero and all values from the lower limit on, however large, keep their order |
| Fp8Order.OrderLost | src/store/src/quantization.rs:45-66 | in both formats half the smallest normal value gets a larger code than the smallest normal value |
| StrideDetector.StrideDetector.ProcessEvent | src/klnk/klnk-ebpf/src/lib.rs:154-197 | moves the state and answers as the run specification does, in the order of the source's updates |
| StrideDetector.Isolated | src/klnk/klnk-ebpf/src/lib.rs:154-203 | the state of a process and every answer to it depend only on its own accesses since it was last cleared |
| StrideDetector.AlwaysFollows | src/klnk/klnk-ebpf/src/lib.rs:154-203 | after any interleaving, the state of a process is backed by its own history of addresses |
| StrideDetector.Sound | src/klnk/klnk-ebpf/src/lib.rs:154-197 | every recommendation continues an arithmetic progression of at least the minimal confidence, with a bounded count |
| StrideDetector.ConfidenceBound | src/klnk/klnk-ebpf/src/lib.rs:162-180 | in every run the confidence is at least the trail less the idle accesses since the stride last changed |
| StrideDetector.ConfidenceWithoutRepeats | src/klnk/klnk-ebpf/src/lib.rs:162-180 | it is exactly that if no idle access repeats an address |
| StrideDetector.ConfidenceExactly | src/klnk/klnk-ebpf/src/lib.rs:162-180 | in every run the confidence is at least m exactly when, from some access since the stride last changed on, the moves exceed the later idle accesses by m |
| StrideDetector.Complete | src/klnk/klnk-ebpf/src/lib.rs:154-197 | in every run, a recommendation comes only for a new address whose trail reaches the minimal confidence, and comes for every one whose trail also makes up for the idle accesses |
| StrideDetector.CompleteExactly | src/klnk/klnk-ebpf/src/lib.rs:154-197 | in every run a recommendation comes exactly for a new address when the minimal confidence is 0 or is earned in this sense |
| StrideDetector.AdviceExactly | src/klnk/klnk-ebpf/src/lib.rs:170-193 | a recommendation names the process, the signed 64-bit stride from its last address, the address one stride further, and twice the earned confidence, cut at the maximum |
| StrideDetector.PrefetchContinues | src/klnk/klnk-daemon/src/prefetch.rs:186-192 | the prefetched addresses are one stride apart, also across the 64-bit wrap |

## Left out

- InvalidationRing.SafeExactly: one poller, sequentially consistent words and a tail that does not reach 2^64; progress of the poller is not stated.
- InvalidationBuffer.Buffer.WriteEntry: one call runs to its end before the next; interleavings are in InvalidationRing.
- InvalidationBuffer.Buffer.ProcessPending: the callback decides from the messages it was called with; decisions that depend on anything else are not modelled.
- Builds with overflow checks, which stop where this model wraps around.
- StagingPool.OpenPool: a pool whose size in bytes passes 2^64.
- Precision.AntiThrashing: readings are reals, without the rounding or NaN of floats.
- Raft consensus and the coherence protocol across nodes.
- FP4 and E8M0 codes and the packing of two FP4 codes into a byte.
- GPU kernels, eviction policies, tier migration and compression of frames.
- Metadata setters, batch wrappers of the control plane, the registry of remote nodes, counters and statistics, each a map update or a sum.
- Failures of userfaultfd and io_uring calls; configuration; language bindings and connectors.
- The FNV details of the hash function, which no result depends on.
- Memory orderings weaker than sequential consistency.
