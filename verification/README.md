# Verification of the ardb data structures

Ardb is a server for the Redis protocol that keeps every Redis type in an ordered key/value store.
This project models the algorithms and state machines at its centre and proves, for all inputs and
all runs, what they promise. `dafny verify dfyconfig.toml` checks the whole project.

**HyperLogLog** (`Hll*.dfy`). A stored HyperLogLog is a string: a 16-byte header with a cached
cardinality, then 16384 six-bit registers, either packed ("dense") or as run-length opcodes
("sparse") that are edited in place. `HllRegisters` gives both forms their meaning, a sequence of 16384
numbers. `HllSparse`, `HllAdd` and `HllDense` are the in-place edits on byte arrays: finding an
opcode, splitting it, splicing, merging neighbours, promotion. `HllCount` has the three sums behind
an estimate. `HllElements` says which registers a *set* of elements has, independent of order.
`HllCommands` is a store with PFADD, PFMERGE and PFCOUNT, and the theorem about every run of them.
`HllBits` proves that the bit macros are the arithmetic used elsewhere.

**B-tree** (`BTree*.dfy`). The container behind every ordered map and set of the server. A tree is a
datatype, a place in it a node with the frames above it (`BTreeContext`), an iterator a path
(`BTreeIterator`). On these, `BTreeInsert` is rebalancing and splitting, `BTreeErase` merging,
rebalancing and shrinking, `BTreeSet` and `BTreeRuns` the whole operations and runs of them, for any
node capacity of at least 3 and any strict order. `BTreeLocate` is the search with a three-way comparison, as
trees keyed by strings use it, and that it changes nothing. `BTreeNode` has the node operations on arrays, with
their swap loops and child, parent and position fields.

**Stream consumer groups** (`Stream*.dfy`). Stream IDs and their encoding; then a consumer group with
its two indexes of pending entries, its stored image and a ledger of what happened to every delivered
message. `StreamGroups` states the effect of each command as a function and proves what it keeps,
`StreamCommands` is the group object with its loops, `StreamRuns` the theorems about every run,
evictions from the cache included.

**Lists** (`List*.dfy`) with integer and then fractional indexes, **sets** (`Set*.dfy`) with recorded
bounds and scans cut short by them, under the comparison the code really makes, **bitmaps** (`BitScan`, `BitCount`), **JSON** (`JsonText`,
`Json`, `JsonPointer`) and **merge operands** (`MergeFold`): each is a fast or stored form proved
equal to a plain sequence, set, bit position, tree or one-by-one application. `Blocked` is the index of
clients that wait for keys. `DataOrder` is the
comparison of stored strings; `Basics`, `Powers` and `ByteSums` hold what several parts share.

The storage engine is an ordered map with sorted iteration bounded to one user key, commands are
atomic, and clock, hash function and cardinality estimate are arbitrary inputs.

Eleven properties one might expect do not hold of the code. Each is stated with the exact condition
under which the code does meet it, and with an input for which it does not:

- A generated stream ID is above the last one unless the clock has not passed the last ID and its
  sequence number is the largest (`StreamIds.NextIdAbove`, `StreamIds.NextIdWraps`). Over runs of XADD
  the accepted IDs increase exactly when no request meets this (`StreamIds.AcceptedIncrease`).
- A group read for new messages replies the unread elements unless the last delivered ID has the
  largest sequence number; then it reads pending entries instead, and so does every later one
  (`StreamCommands.NewOnlyComplete`, `StreamCommands.NewOnlyStuck`, `StreamCommands.NeverOffered`). The
  source comment says that no overflow can happen there.
- An XCLAIM that succeeds for a consumer the group does not know leaves an entry without an owner,
  which a reload would list (`StreamRuns.StrayClaim`, `StreamGroups.ClaimedOwned`,
  `StreamRuns.RunReloads`).
- LTRIM is slicing unless it is asked to keep just the first of several elements; then it removes
  nothing (`Lists.TrimExact`, `Lists.TrimKeepsAll`).
- The recorded bounds of a list are the indexes of its first and last element after every command but
  an LREM that takes an end element and leaves others; then a bound stays where that element was
  (`Lists.List.Rem`, `ListRemoval.SparesEnds`, `Lists.BoundLags`, `ListRuns.StaleBound`). Elements are
  still found, since no bound is ever too narrow.
- RPOPLPUSH conserves the elements unless it pops one for a destination of another type; then the
  element is lost (`ListRuns.MoveConserves`, `ListRuns.RPopLPush`, `ListRuns.MoveLoses`).
- The comparison of two integer members is that of their values exactly when their difference fits in
  64 bits (`SetOrder.NumericExact`), and it orders a set of members exactly when the integers lie
  within half a turn of the 64-bit circle (`SetOrder.OrderedExact`, `SetOrder.Cycle`).
- The bounds that SADD records for a new set bracket its members on the same condition
  (`Sets.BoundsExact`, `Sets.BoundsAstray`). The theorems about set commands and set algebra are stated
  under it: `base` is where such a half turn starts.
- SREM keeps length and bounds exact, and replies the number of members removed, unless it names a
  member twice and the engine's lookups do not see the removals of the write batch
  (`Sets.SetKey.SRem`, `Sets.RemoveTwice`). The RocksDB and LevelDB engines are of this kind.
- Unblocking a client clears its table of keys unless no wait set is left at all; then the table stays
  (`Blocked.Index.Unblock`, `Blocked.StaleTable`).
- A JSON pointer built for a node leads back to it unless an earlier sibling of a node on the way has
  the same name, ignoring case (`JsonPointer.PointerRoundTrip`, `JsonPointer.PointerAstray`).

## Model

| member | source | states |
|---|---|---|
| HllRegisters.DenseGetSet | src/command/hyperloglog.cpp:339-361 | reading register j after writing register i gives the new value if i = j and the old one otherwise, across byte boundaries |
| HllRegisters.DenseSetRegs | src/command/hyperloglog.cpp:339-361 | a dense write changes exactly one of the 16384 registers |
| HllRegisters.SparseConcat | src/command/hyperloglog.cpp:363-388 | the registers of a concatenation of opcode strings are the concatenation of their registers |
| HllRegisters.ZeroWritten | src/command/hyperloglog.cpp:363-388 | a written ZERO opcode decodes to its run of zeros |
| HllRegisters.XZeroWritten | src/command/hyperloglog.cpp:363-388 | a written two-byte XZERO opcode decodes to its run of zeros |
| HllRegisters.ValWritten | src/command/hyperloglog.cpp:363-388 | a written VAL opcode decodes to its run of its value |
| HllBits.GetMacro | src/command/hyperloglog.cpp:339-347 | the shift-and-mask register read equals the arithmetic layout of three bytes for every register position |
| HllBits.SetFirstByte0 | src/command/hyperloglog.cpp:349-361 | the first byte a register write produces at bit offset 0 is that of the arithmetic layout |
| HllBits.SetFirstByte1 | src/command/hyperloglog.cpp:349-361 | the first byte a register write produces at bit offset 6 is that of the arithmetic layout |
| HllBits.SetFirstByte2 | src/command/hyperloglog.cpp:349-361 | the first byte a register write produces at bit offset 4 is that of the arithmetic layout |
| HllBits.SetFirstByte3 | src/command/hyperloglog.cpp:349-361 | the first byte a register write produces at bit offset 2 is that of the arithmetic layout |
| HllBits.SetSecondByte | src/command/hyperloglog.cpp:349-361 | the second byte a register write produces is that of the arithmetic layout, for every offset |
| HllBits.SetMacro | src/command/hyperloglog.cpp:349-361 | the bytes a register write leaves are the three-byte layout with exactly that register written, for every register position |
| HllBits.SparseKinds | src/command/hyperloglog.cpp:363-372 | the mask tests on an opcode byte agree with its arithmetic kinds |
| HllBits.ValValue | src/command/hyperloglog.cpp:372 | the value field of a VAL opcode as a quotient and remainder |
| HllBits.XZeroBit | src/command/hyperloglog.cpp:386 | the first byte of a written XZERO opcode as a sum |
| HllBits.ValByte | src/command/hyperloglog.cpp:378-380 | a written VAL opcode as a sum of its fields |
| HllBits.RegisterOffset | src/command/hyperloglog.cpp:339-361 | byte and bit offset of register i, in groups of four registers |
| HllBits.CacheFlag | src/command/hyperloglog.cpp:193-194 | the cache-valid test and the invalidation act on bit 7 of the first cardinality byte |
| HllDense.GetRegister | src/command/hyperloglog.cpp:339-347 | reads the register the dense layout says |
| HllDense.SetRegister | src/command/hyperloglog.cpp:349-361 | changes that register in the array and no byte outside the register area |
| HllDense.DecodeSparse | src/command/hyperloglog.cpp:649-677 | filling a zeroed dense area run by run gives the sparse registers followed by zeros, header untouched |
| HllDense.SparseToDense | src/command/hyperloglog.cpp:625-687 | promotion keeps all registers and the header but for the encoding byte; fails, changing nothing, when runs do not cover 16384 registers |
| HllSparse.Sds.Splice | src/command/hyperloglog.cpp:921-931 | moving the tail and copying the new opcodes replaces exactly the old opcode bytes |
| HllSparse.FindOpcode | src/command/hyperloglog.cpp:734-774 | the opcode found is the one whose run covers the register; its offset, first register and predecessor are exact |
| HllSparse.MergeVals | src/command/hyperloglog.cpp:953-974 | one VAL for two adjacent ones of the same value keeps all registers |
| HllSparse.MergeAdjacent | src/command/hyperloglog.cpp:939-976 | scanning five opcodes and merging VALs in place keeps all registers, never grows the string |
| HllAdd.DenseAdd | src/command/hyperloglog.cpp:499-516 | raises one dense register to the maximum, returns 1 exactly when it rose |
| HllAdd.SplitOpcode | src/command/hyperloglog.cpp:843-919 | the at most five bytes written for a split run decode to left run, new value, right run |
| HllAdd.RaiseRegister | src/command/hyperloglog.cpp:843-931 | substituting those opcodes raises exactly that register |
| HllAdd.PlanUpdate | src/command/hyperloglog.cpp:776-923 | an update is planned exactly when the register is below the count, and the plan raises it |
| HllAdd.SparseUpdate | src/command/hyperloglog.cpp:720-981 | room, plan, substitution, merge, cache invalidation, or promotion when the size limit would be passed |
| HllAdd.PromoteAndAdd | src/command/hyperloglog.cpp:983-997 | promotion followed by a dense add raises the register and returns 1 |
| HllAdd.SparseAdd | src/command/hyperloglog.cpp:705-998 | result 0 exactly when nothing changes; otherwise the registers with one raised to the count, still covering 16384, at most 3 bytes longer, within the size limit if it grew; every promotion returns 1; -1 exactly for an empty opcode string |
| HllCount.BuildTable | src/command/hyperloglog.cpp:1129-1142 | table of 2^-k for k below 64 |
| HllCount.SparseSum | src/command/hyperloglog.cpp:1004-1045 | the run-wise sum is the sum of 2^-reg and the zero count of the registers; invalid exactly when they are not 16384 |
| HllCount.DenseSum | src/command/hyperloglog.cpp:522-615 | the unrolled dense sum is the same sum and zero count of the dense registers |
| HllCount.RawSum | src/command/hyperloglog.cpp:1055-1110 | the word-wise sum of raw registers is the same sum and zero count |
| HllCount.Count | src/command/hyperloglog.cpp:1123-1189 | the count of a stored string is the estimate of its registers, whichever the representation |
| HllCount.CountRaw | src/command/hyperloglog.cpp:1123-1189 | so is the count of raw registers |
| HllElements.PatLen | src/command/hyperloglog.cpp:456-484 | register index and position of the first set bit of a hash, unique as such |
| HllElements.RegsOfUnique | src/command/hyperloglog.cpp:456-484 | a set of elements determines its registers |
| HllElements.RegsOfAdd | src/command/hyperloglog.cpp:456-516 | adding an element raises one register to the maximum |
| HllElements.RegsOfUnion | src/command/hyperloglog.cpp:1224-1278 | register-wise maxima are the registers of the union |
| HllCommands.FreshIsEmpty | src/command/hyperloglog.cpp:1284-1314 | a new HyperLogLog has all registers zero and a valid cached cardinality of zero |
| HllCommands.AddElement | src/command/hyperloglog.cpp:1192-1214 | adding to either representation gives the registers of the set with the element; 1 exactly when a register rose |
| HllCommands.AddAll | src/command/hyperloglog.cpp:1347-1393 | a list of elements gives the registers of the set with all of them, across promotion |
| HllCommands.MergeInto | src/command/hyperloglog.cpp:1224-1278 | raw maxima take in the registers of a stored string of either representation |
| HllCommands.CardRoundTrip | src/command/hyperloglog.cpp:1473-1518 | the eight little-endian cardinality bytes read back as the cardinality |
| HllCommands.CacheWritten | src/command/hyperloglog.cpp:1497-1512 | writing the cached cardinality changes no register |
| HllCommands.HllStore.PFAdd | src/command/hyperloglog.cpp:1396-1444 | the key then stands for its old set and the new elements; 1 exactly when it was created or a register rose; other keys untouched |
| HllCommands.HllStore.PFMerge | src/command/hyperloglog.cpp:1561-1663 | the first key then stands for the union of all; nothing changes when a key is no HyperLogLog |
| HllCommands.HllStore.PFCount | src/command/hyperloglog.cpp:1446-1521 | always the estimate of the current registers, from the cache or not, whatever ran before |
| HllCommands.HllStore.PFCountUnion | src/command/hyperloglog.cpp:1522-1558 | the estimate of the registers of the union of the keys |
| HllCommands.Run | src/command/hyperloglog.cpp:1347-1663 | after any run of PFADD, PFMERGE and PFCOUNT, in a store that may hold other strings, every HyperLogLog has the registers of the set of elements that reached it, every cache read as valid holds the estimate of those registers, and the other strings are as they were |
| HllCommands.SameSetSameRegisters | src/command/hyperloglog.cpp:1347-1663 | the same set gives the same registers and cached count, however it was reached |
| BTreeSearch.LinearSearch | deps/cpp-btree/btree.h:601-611 | the first position whose value is not below the key |
| BTreeSearch.BinarySearch | deps/cpp-btree/btree.h:632-645 | the same position |
| BTreeSearch.LocateRank | deps/cpp-btree/btree.h:2243-2254 | the descent to a leaf ends at the key's rank among all values |
| BTreeLocate.LinearSearchTo | deps/cpp-btree/btree.h:614-630 | the first position whose value is not below the key, and whether it is the key |
| BTreeLocate.BinarySearchTo | deps/cpp-btree/btree.h:647-669 | the same, going on below a match |
| BTreeLocate.LocatedSame | deps/cpp-btree/btree.h:2256-2271 | a descent that stops on a match stops exactly when the plain search finds the key, at the iterator that one climbs to; otherwise both end at the same place |
| BTreeLocate.SameInsert | deps/cpp-btree/btree.h:1749-1770 | insertion by key gives the same tree and iterator with either comparison |
| BTreeLocate.SameErase | deps/cpp-btree/btree.h:1940-1949 | so does erasure by key |
| BTreeInsert.JoinedWithLeft | deps/cpp-btree/btree.h:2002-2028 | a node joined with its left sibling keeps contents, level and the rank of every position |
| BTreeInsert.MoveLeftRoomy | deps/cpp-btree/btree.h:2002-2028 | moving values to the left sibling, biased by the insert position, leaves room at the chosen node and the insertion at its rank |
| BTreeInsert.MoveRightRoomy | deps/cpp-btree/btree.h:2030-2054 | so does moving values to the right sibling |
| BTreeInsert.SplitRoomy | deps/cpp-btree/btree.h:2055-2100 | so does a split, biased by the insert position |
| BTreeInsert.MakeRoom | deps/cpp-btree/btree.h:1993-2100 | rebalance_or_split terminates, keeps the tree well formed and its contents, and ends at a node with room where the pending insertion has the same in-order rank |
| BTreeIterator.NextRank | deps/cpp-btree/btree.h:1672-1692 | increment goes to the next in-order rank, and past the end exactly from the last |
| BTreeIterator.PrevRank | deps/cpp-btree/btree.h:1712-1732 | decrement goes to the previous one |
| BTreeSet.InternalInsertKeeps | deps/cpp-btree/btree.h:2206-2235 | inserting at a leaf position, making room first where needed, puts the value at that rank of the contents and gives an iterator to it |
| BTreeSet.InsertUniqueCorrect | deps/cpp-btree/btree.h:1749-1770 | a new key enters the contents at its place, an equal key changes nothing; the tree stays sorted, of equal leaf depth, with 1 to max values per node and one more child than values; the iterator points to the key |
| BTreeSet.SizeExact | deps/cpp-btree/btree.h:2206-2235 | the reported size is the number of values |
| BTreeErase.MergeLeftDamage | deps/cpp-btree/btree.h:2118-2127 | merging with the left sibling keeps contents, depth and the iterator's rank and moves the missing value one level up |
| BTreeErase.MergeRightDamage | deps/cpp-btree/btree.h:2128-2134 | so does merging with the right sibling |
| BTreeErase.TakeRightMended | deps/cpp-btree/btree.h:2135-2147 | taking values from the right sibling repairs the node |
| BTreeErase.TakeLeftMended | deps/cpp-btree/btree.h:2148-2163 | so does taking values from the left sibling |
| BTreeErase.ShrinkMended | deps/cpp-btree/btree.h:2167-2192 | an empty root vanishes, or gives way to its only child |
| BTreeErase.NotEmpty | deps/cpp-btree/btree.h:2115-2165 | where neither merging nor taking applies the node is not empty |
| BTreeErase.RepairMended | deps/cpp-btree/btree.h:1895-1916 | the walk up after an erasure gives a well-formed tree with the same contents and the position at the same rank |
| BTreeErase.EraseCorrect | deps/cpp-btree/btree.h:1869-1929 | exactly one value goes, the tree stays well formed and its size exact, and the iterator leads to the in-order successor, also for values of inner nodes and through merges, rebalances and shrinking |
| BTreeRuns.EraseUniqueCorrect | deps/cpp-btree/btree.h:1940-1949 | erasing by key removes that key if present and reports 1, else changes nothing and reports 0 |
| BTreeRuns.RunCorrect | deps/cpp-btree/btree.h:1749-1949 | after any run of insertions and erasures the tree is well formed and holds exactly what the same run leaves in a sorted sequence |
| BTreeNode.RebalanceRightToLeft | deps/cpp-btree/btree.h:1466-1510 | in place: left values, separator, right values keep their concatenation, cut at the new place; all children keep order and get right parent and position; values and subtrees are the join and cut of the tree model |
| BTreeNode.RebalanceLeftToRight | deps/cpp-btree/btree.h:1513-1555 | the same in the other direction |
| BTreeNode.Split | deps/cpp-btree/btree.h:1558-1596 | in place: the upper values and children go to the new node, the one between enters the parent, the new node beside the old one; values and subtrees are the cut of the tree model |
| BTreeNode.Merge | deps/cpp-btree/btree.h:1599-1628 | in place: left values, separator and right values end up in the left node with all children in order; the parent loses separator and slot; values and subtrees are the join of the tree model |
| BTreeNode.RemoveValue | deps/cpp-btree/btree.h:1448-1463 | in place: one value and the child to its right leave, later children move down with their positions |
| BTreeNode.RecutIsCut | deps/cpp-btree/btree.h:1466-1555 | re-cut values and kids are those of the join and cut of the tree model; the rebalances end with it |
| BTreeNode.MergeIsJoin | deps/cpp-btree/btree.h:1599-1628 | concatenated values and kids are those of the join; the merge ends with it |
| BTreeNode.SplitIsCut | deps/cpp-btree/btree.h:1558-1596 | parted values and kids are those of the cut; the split ends with it |
| StreamIds.NextIdAbove | src/command/t_stream.cpp:134-147 | exactly when a generated ID is above the last one |
| StreamIds.NextIdWraps | src/command/t_stream.cpp:134-147 | a last ID after which the generated one is lower |
| StreamIds.AcceptedIncrease | src/command/t_stream.cpp:722-732 | whatever the clock does, accepted IDs strictly increase over a run of XADD exactly when no generated ID meets the sequence wrap |
| StreamIds.EncodeRoundTrip | src/types.cpp:486-512 | the 16-byte encoding decodes to the ID |
| StreamIds.EncodeOrder | src/types.cpp:331-345 | encoded IDs compare as strings exactly as IDs compare |
| StreamPending.PendingDisjoint | src/command/t_stream.cpp:395-415 | pending lists of two consumers share no entry |
| StreamPending.LoadGroup | src/command/t_stream.cpp:261-298 | loading gives last ID, entries and consumers that the stored keys stand for |
| StreamPending.ReloadSame | src/command/t_stream.cpp:193-215 | loading gives back the group, up to consumers with nothing pending, exactly when every entry has an owner |
| StreamGroups.PendingBelowLast | src/command/t_stream.cpp:1951-1959 | every pending ID is at most lastid and was delivered as new |
| StreamGroups.CreatedSound | src/command/t_stream.cpp:475-499 | a new group is sound |
| StreamGroups.AcknowledgeSound | src/command/t_stream.cpp:812-851 | acknowledging keeps the indexes, the stored image and the ledger in agreement |
| StreamGroups.DroppedSound | src/command/t_stream.cpp:587-621 | so does deleting a consumer with all it holds |
| StreamGroups.PlacedSound | src/command/t_stream.cpp:395-424 | so does giving an entry to a consumer |
| StreamGroups.DeliveredSound | src/command/t_stream.cpp:1946-1959 | so does a delivery above lastid, whose ID was not pending |
| StreamGroups.ClaimedSound | src/command/t_stream.cpp:1396-1436 | so does a claim |
| StreamGroups.ClaimedOwned | src/command/t_stream.cpp:395-415 | a claim keeps every entry owned exactly when the claimer is known or gets nothing |
| StreamGroups.ReloadedSound | src/command/t_stream.cpp:261-298 | so does eviction followed by a load; with all entries owned it changes nothing but consumers without entries |
| StreamCommands.NewOnlyComplete | src/command/t_stream.cpp:1878-1976 | a read for new messages replies the elements above lastid, up to the count, exactly when lastid's sequence number is not the largest, or the stream's last ID is not above lastid, or there is neither an unread element nor a pending entry of that millisecond |
| StreamCommands.NewOnlyStuck | src/command/t_stream.cpp:1886-1929 | with the largest sequence number it replies only IDs up to lastid, delivers nothing as new and leaves lastid, so the next read does the same |
| StreamCommands.NeverOffered | src/command/t_stream.cpp:1886-1929 | a group and a stream with an unread element that no such read replies |
| StreamCommands.DeliverAllSound | src/command/t_stream.cpp:1931-1975 | any number of new deliveries keeps the group sound |
| StreamCommands.DeliverAllNews | src/command/t_stream.cpp:1937-1975 | all of them are news in order, tracked exactly when they ask for an acknowledgement, and the last one is lastid |
| StreamCommands.RedeliverAllSound | src/command/t_stream.cpp:1899-1929 | reading pending entries again moves nothing |
| StreamCommands.RedeliverAllCounts | src/command/t_stream.cpp:1911-1914 | it counts one more delivery of each, at the time it was made, and of no other |
| StreamCommands.Group.constructor | src/command/t_stream.cpp:475-499 | creates the sound, empty group at the given ID |
| StreamCommands.Group.UpdateNack | src/command/t_stream.cpp:395-424 | the entry leaves its old owner's list for the new one's if there is such a consumer; the record bears the name in any case |
| StreamCommands.Group.XAck | src/command/t_stream.cpp:812-851 | exactly the named pending entries go, from both indexes and the store, and are counted once each; a bad ID ends the command after those before it |
| StreamCommands.Group.XClaim | src/command/t_stream.cpp:1300-1436 | exactly the named entries that are idle long enough change hands with counts kept; any bad argument and nothing changes |
| StreamCommands.Group.DelConsumer | src/command/t_stream.cpp:587-621 | the consumer and exactly its entries go |
| StreamCommands.Group.XReadGroup | src/command/t_stream.cpp:1878-1976 | nothing, the consumer's pending entries from the start on in order, or the new elements up to the count, with the state each leaves |
| StreamCommands.Group.Reload | src/command/t_stream.cpp:261-298 | eviction and load as one step on the object |
| StreamRuns.StepSound | src/command/t_stream.cpp:395-1976 | every command keeps the group sound and the ledger complete; every entry keeps an owner unless the command is a stray claim |
| StreamRuns.RunSound | src/command/t_stream.cpp:395-1976 | over every run: pending lists are exactly the owned part of the group's list, the store mirrors it, no ID is delivered as new twice, and each tracked ID is exactly one of pending, acknowledged or dropped |
| StreamRuns.RunReloads | src/command/t_stream.cpp:261-298 | over every run without stray claims, eviction and reload give back the group at any time; the first stray claim ends this |
| StreamRuns.StrayClaim | src/command/t_stream.cpp:402-415 | a claim for an unknown consumer after which reloading gives another group |
| StreamRuns.Perform | src/command/t_stream.cpp:395-1976 | the group object takes exactly the steps that the run theorems speak of |
| ListStore.TruncOutside | src/command/t_list.cpp:396-416 | one below or above a truncated fractional bound is outside the bound |
| Lists.PushFits | src/command/t_list.cpp:391-421 | a pushed element lands outermost, no element is outside the recorded bounds, and exact bounds stay exact, in integer and fractional mode |
| Lists.InsertFits | src/command/t_list.cpp:290-339 | an element inserted half way to the neighbour, or one beyond the end, lands beside the pivot and within the bounds, and exact bounds stay exact |
| Lists.EndsFound | src/command/t_list.cpp:163-175 | iterators put at the recorded bounds find the first and the last element, also where the bounds are wider |
| Lists.List.Push | src/command/t_list.cpp:354-438 | pushing values in turn, at either end, on a list present or absent, with the X forms; exact bounds stay exact |
| Lists.List.Pop | src/command/t_list.cpp:118-235 | takes the first or last element, in both modes; the key vanishes with the last one; exact bounds stay exact |
| Lists.List.Insert | src/command/t_list.cpp:242-352 | puts the value beside the first pivot; replies for a bad word, a missing list, a missing pivot; exact bounds stay exact |
| Lists.List.At | src/command/t_list.cpp:36-111 | the element at a position, counted from the end when negative, in both modes |
| Lists.List.Set | src/command/t_list.cpp:646-737 | replaces the element at a position, in both modes; out of range and missing lists; exact bounds stay exact |
| Lists.List.Range | src/command/t_list.cpp:449-516 | the slice between two positions, in both modes |
| Lists.List.Trim | src/command/t_list.cpp:739-884 | removes front and back elements, by index or by iterators from both ends; exact bounds stay exact |
| Lists.TrimExact | src/command/t_list.cpp:757-871 | the trim is the slice exactly when it is not asked to keep just the first of several elements |
| Lists.TrimKeepsAll | src/command/t_list.cpp:787-802 | trimming a list of two to its first element keeps both |
| Lists.List.Rem | src/command/t_list.cpp:517-644 | removes the first or last elements equal to the value and counts them; no bound becomes too narrow, whether or not the batch's removals are visible; exact bounds stay exact exactly when nothing is left or neither end element is among those removed |
| ListRemoval.SparesEnds | src/command/t_list.cpp:576-625 | both end elements stay exactly when each differs from the value, or is the far one and more are equal than go |
| Lists.EndsStay | src/command/t_list.cpp:601-625 | bounds that are not narrowed are those of what is left exactly when both end elements stay |
| Lists.BoundLags | src/command/t_list.cpp:601-625 | two elements, the first removed: the lower bound is 0 and the first index 1 |
| ListRuns.StaleBound | src/command/t_list.cpp:517-644 | a push and a removal after which the bounds are not those of the elements |
| ListRemoval.RemovedCounts | src/command/t_list.cpp:517-644 | as many elements equal to the value go as asked for, or all there are, and no other |
| ListRuns.Run | src/command/t_list.cpp:36-884 | every run of pushes, pops, insertions, updates, trims, removals and reads gives the replies and ends with the contents that a plain sequence would, and with exact bounds if every removal spares both ends or empties the list |
| ListRuns.RPopLPush | src/command/t_list.cpp:899-925 | the last element of one list becomes the first of the other, or rotates when they are the same; with keys of another type the errors, and the elements of both keys are conserved exactly when there is nothing to move or the destination is no other type |
| ListRuns.MoveConserves | src/command/t_list.cpp:899-925 | that condition, for what the two keys hold before and after |
| ListRuns.MoveLoses | src/command/t_list.cpp:899-925 | a move that loses its element |
| DataOrder.CompareIsLess | src/types.cpp:331-345 | the string comparison is the lexicographic order, 0 exactly for equal strings |
| SetOrder.NumericExact | src/types.cpp:277-281 | the comparison of two integers is that of their values exactly when their difference fits in 64 bits |
| SetOrder.Cycle | src/types.cpp:277-281 | three integers each less than the next in a circle |
| SetOrder.OrderedExact | src/types.cpp:269-345 | the comparison is a strict total order of a set of members exactly when its integers lie within half a turn |
| SetOrder.Total | src/types.cpp:269-345 | on such members it is total and strict |
| SetOrder.Transitive | src/types.cpp:269-345 | and transitive |
| Sets.BoundsExact | src/db/codec.cpp:483-502 | the bounds recorded for a new set bracket its members exactly when its integers lie within half a turn |
| Sets.BoundsAstray | src/db/codec.cpp:483-502 | three integers whose recorded bounds do not bracket them |
| Sets.PutAllUnion | src/command/t_set.cpp:58-85 | putting the arguments into the store gives the union, in order |
| Sets.DelAllDifference | src/command/t_set.cpp:481-496 | deleting the arguments gives the difference, in order |
| Sets.NamedOnce | src/command/t_set.cpp:481-496 | as many members go as arguments name one, fewer exactly when a member is named twice |
| Sets.SetKey.SAdd | src/command/t_set.cpp:34-120 | the arguments are put into the store, the reply counts the new ones, bounds are widened by each and still bracket all members |
| Sets.SetKey.SRem | src/command/t_set.cpp:465-515 | the arguments are deleted; the reply is the number of members removed exactly when lookups see the batch or no member is named twice; length and bounds stay exact on that condition or when no member is left |
| Sets.RemoveTwice | src/command/t_set.cpp:479-506 | a removal that leaves a member without a meta record and replies one too many |
| Sets.SetKey.SPop | src/command/t_set.cpp:281-363 | from the recorded lower bound on, the lowest members go, as many as asked, and bounds still bracket the rest |
| Sets.AfterMeans | src/command/t_set.cpp:34-515 | what each command leaves, as a set: union, difference, or all but the lowest |
| Sets.Run | src/command/t_set.cpp:34-515 | over a run of the three commands the bounds bracket all members, the length is exact and the members are what the commands leave in turn, exactly when no removal is of the inexact kind; the first one that is ends this |
| SetAlgebra.Scan | src/command/t_set.cpp:592-606 | a scan from the lower bound to the first member above the upper one meets exactly the members between |
| SetAlgebra.SDiff | src/command/t_set.cpp:517-606 | pruned by bounds, for any number of keys: exactly the members of the first set in none of the others |
| SetAlgebra.SInter | src/command/t_set.cpp:662-756 | pruned by bounds, for any number of keys: exactly the members of all sets |
| BitScan.SkipWhole | src/command/t_bitset.cpp:138-159 | whole bytes up to alignment and whole words passed over hold no wanted bit |
| BitScan.LoadByte | src/command/t_bitset.cpp:168-178 | a byte loaded into the word keeps the bits loaded before and adds its own |
| BitScan.BitPos | src/command/t_bitset.cpp:120-208 | the least position of the wanted bit under zero padding, -1 exactly when no 1 exists, for any start alignment; the final scan never runs out |
| BitCount.SwarIs | src/command/t_bitset.cpp:63-72 | counting in parallel inside a 32-bit word gives the number of ones of its four bytes |
| BitCount.PopCount | src/command/t_bitset.cpp:39-79 | sixteen bytes at a time plus single bytes: the number of one bits of the string |
| JsonText.PrintString | deps/cJSON/cJSON.c:253-309 | the two-pass printer writes the quoted, escaped string |
| JsonText.ReadString | deps/cJSON/cJSON.c:193-250 | the byte-by-byte loop reads the string the grammar says, surrogate pairs included |
| JsonText.UnescapeEscape | deps/cJSON/cJSON.c:204-242 | every printed escape, of section 7 of RFC 8259, means the byte it was printed for |
| JsonText.StringRoundTrip | deps/cJSON/cJSON.c:193-309 | a printed string parses to the same bytes |
| JsonText.IntRoundTrip | deps/cJSON/cJSON.c:96-162 | a printed integer parses to the same number |
| Json.ArrayRoundTrip | deps/cJSON/cJSON.c:407-512 | a printed array parses to the same items |
| Json.ObjectRoundTrip | deps/cJSON/cJSON.c:515-659 | a printed object parses to the same members in order |
| Json.RoundTrip | deps/cJSON/cJSON.c:358-659 | parsing a printed tree at any depth, formatted or not, gives the tree and stops right after it |
| Json.DocumentRoundTrip | deps/cJSON/cJSON.c:324-346 | so does parsing a whole printed document |
| JsonPointer.Compare | deps/cJSON/cJSON_Utils.c:15-24 | compares a plain name with an encoded one as the definition says |
| JsonPointer.MatchesEncoded | deps/cJSON/cJSON_Utils.c:15-37 | a name matches the encoding of another exactly when they differ in case only, with '~' and '/' as in section 3 of RFC 6901 |
| JsonPointer.FindPlace | deps/cJSON/cJSON_Utils.c:39-70 | the search finds every node and gives its pointer |
| JsonPointer.Follow | deps/cJSON/cJSON_Utils.c:72-90 | the segment-by-segment loop arrives at the node that resolution on the tree gives |
| JsonPointer.PointerRoundTrip | deps/cJSON/cJSON_Utils.c:39-90 | following the pointer of a node leads to that node exactly when every member on the way is the first of its name, ignoring case |
| JsonPointer.PointerAstray | deps/cJSON/cJSON_Utils.c:15-90 | a tree and a node whose pointer leads to another node |
| Blocked.Index.Block | src/command/blocked.cpp:101-129 | the client joins exactly the wait sets of its keys, and its table has them |
| Blocked.JoiningMeans | src/command/blocked.cpp:111-127 | who waits for what after that |
| Blocked.Index.Unblock | src/command/blocked.cpp:59-99 | the client leaves all wait sets, emptied ones of its keys go, its table goes unless no wait set was left |
| Blocked.StaleTable | src/command/blocked.cpp:59-99 | two clients served for one key; the second to unblock keeps its table |
| Blocked.Index.Signal | src/command/blocked.cpp:131-151 | a key is noted as ready exactly when it has a wait set |
| Blocked.Index.Wake | src/command/blocked.cpp:152-228 | exactly the clients that wait for a ready key and can be served leave its wait set |
| Blocked.Index.WakeKey | src/command/blocked.cpp:183-222 | the walk over a wait set ends, since every client in it has a table |
| Blocked.Run | src/command/blocked.cpp:59-228 | over every run a client is in a wait set exactly when its table has the key and it was not served for it since it blocked |
| MergeFold.MergePair | src/command/merge.cpp:146-187 | one folded operand does what two do in turn, on absent, well-typed and wrong-typed values |
| MergeFold.FoldedApplies | src/command/merge.cpp:146-254 | so does any bracketing of folds of any number of operands |
| MergeFold.FoldedKinds | src/command/merge.cpp:146-152 | folding succeeds exactly when all operands are of one kind |

## Left out

- HllAdd.SparseAdd: of malformed sparse strings only the empty one is modelled; on others the source reads past its buffer.
- HyperLogLog: the bias polynomial, floating-point rounding and the hash function are uninterpreted; sums are exact reals.
- HyperLogLog: the reply for a corrupted string is not reached in a store that only these commands write; strings that are no HyperLogLog are modelled by the header test alone.
- HllBits: the 14-bit length of a two-byte opcode is taken as its arithmetic value.
- B-tree: hinted and multi insertion, assignment, range erasure, tree swap and memory layout; parent pointers are frames and paths in the whole-tree model, fields in `BTreeNode`.
- Streams: XADD length trimming, XDEL, XTRIM, group deletion, XCLAIM options (not reached by the argument loop), blocked reads and the table of groups with its error replies.
- Streams: consumers' last-seen times; the two tables share entries by ID and owner name instead of by pointer; delivery counts are unbounded.
- StreamIds: conversion to network byte order is big-endian encoding.
- Lists: 64-bit overflow of indexes and rounding of midpoints; blocking pops.
- ListRuns.Run: bounds one way only; a later pop or trim makes a stale bound exact again.
- ListRuns.RPopLPush: the error reply stands for the wrong-type message; keys of other types are not changed by these commands and hold nothing else here.
- Sets: what an ordered store does under a comparison that is no order; so commands are stated for integers within half a turn, and the converse only for the comparison and for the bounds of a new set.
- Sets.Run: stops at the first removal that leaves the meta record wrong; what later commands make of such a key is not modelled.
- Sets.SetKey.SPop: the absolute value of the lowest 64-bit count; integers within half a turn.
- Sets.SetKey.SAdd: integers within half a turn.
- Sets.SetKey.SRem: integers within half a turn.
- SetAlgebra.SDiff: integers within half a turn.
- SetAlgebra.SInter: integers within half a turn.
- Sets: modes that do not keep lengths and bounds, SMOVE and the storing forms of the set algebra.
- BitCount.PopCount: the 256-entry table is taken to hold the number of one bits of its index.
- Bitmaps: BITOP and the commands around the two scans.
- JSON: numbers that are not ints are parsed but not printed; escapes that run past the end of the text have no meaning; arrays and objects are parsed and printed by recursion on the text instead of loops over buffers; memory failures.
- JsonPointer.Follow: the source reads an array index into an int; indexes that do not fit are not modelled.
- Blocked: locks and asynchronous replies, timeouts, what serving a client does, and keys that become ready while it is served.
- JSON Patch, hashes, geo, scripting, replication, configuration and the network layer.
