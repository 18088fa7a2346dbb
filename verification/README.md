# Persistent radix indexes, modelled and proved

This project models the parts of a collection of persistent-memory radix indexes whose correctness is
hardest to see, and proves what they are for.

* **WRERT node** (`Slot`, `Segment`, `Split`, `SplitMethods`, `Directory`, `Header`, `WrertNode`). A node is an
  extendible hash of 32-bit subkeys. A segment has 48 buckets; a rotating third of them holds entries tagged
  with version L-1, the rest entries tagged L, for local depth L. A split relabels the main buckets as the new
  shared buckets and rewrites only the old shared ones, in place, leaving stale slots that only their version
  tells apart. The class `Node` keeps its directory and its segments in arrays and writes them as the code does;
  its contents are the finite map `View()`.
* **WRERT tree** (`NodeMemory`, `WrertModel`, `Wrert`). Two levels of such nodes form a map over 64-bit keys. The
  class `Wrert` keeps objects by address; `WrertModel` has the same tree as a value and shows for each structural
  step what it does to the map.
* **WORT** (`Nibbles`, `WortModel`, `WortStore`, `Wort`). A trie of nibbles whose nodes store six nibbles of a prefix that may be
  longer. Memory is what a log of stores and fences makes of it. A crash may lose any of the stores behind the last fence, such
  as one of the two of a prefix split, and leaves anything of a cell that is being written; whatever it leaves, at any time, is
  proved to be a map from before or after the update, and readers and writers are proved right on trees with any number of
  stale headers left over.
* **ROART** (`Prefixes`, `RoartKeys`, `RoartLayout`, `RoartModel`, `RoartPrefix`, `RoartState`, `RoartStore`, `Roart`,
  `RoartRun`). An adaptive radix tree over the bytes of a key, with four kinds of nodes, removal that leaves holes, compaction,
  growth, shrinking, and nodes that give way to their last child. Prefixes are edited after pointers, and slots byte by byte, so
  a crash leaves prefixes that are too long or too short, indices without a child, and nodes with too few children. The tree's
  invariant asks nothing of a prefix but its shape. `put`, `get`, `update` and `remove` are proved on all such trees, with the
  exact condition where the code then goes wrong, with what a crash may leave of each, at any time; runs of them say which crash
  costs which guarantee. `RoartLookup` has `get` as a function of memory; `RoartCollision` what an insertion does in a slot that
  a crash left an index for; `RoartStale`, `RoartMisled` and `RoartStray` are runs in which the code goes wrong.
* **ROART range lookup** (`RoartList`, `RoartWay`, `RoartVerdict`, `RoartRange`, `RoartBound`, `RoartMissed`). Which keys a lookup lists in
  any such tree, in order and cut off at a size, and when it starts again or reads a leaf as a node; when its comparison with both
  bounds is right; and lookups that miss.
* **WOART node** (`WoartNode`, `WoartChild`). The four kinds of nodes of WOART: search, the least child, and `add_child` store
  by store. Whatever a crash leaves, at any time, the pointer leads to a well-formed node with the old children or with the new one too.
* **ERT node** (`ErtNode`). An extendible hash with lazy deletion: a split copies the upper half of a segment and leaves
  the copied entries behind, which later insertions tell by their top bits and overwrite. The node is proved to be a map.
* **Lock words** (`RwLock`, `VersionLock`). The spin read-write lock and the version word of ROART nodes, as step
  systems with any number of threads.
* **Stores** (`Store`). What a crash may leave of a log of stores and fences, for any kind of store; WORT, WOART and ROART use it.

`Bits`, `Options`, `Addresses` and `Counting` are shared helpers. Verify with `dafny verify dfyconfig.toml`.

## How to read the models

* Machine integers: subkeys, addresses and keys are bounded naturals (`U32`, `U48`, `U64`). A shift is repeated
  halving (`Shr`), a mask a remainder; wrap-around is written out where it can happen.
* A WRERT slot keeps 48 bits of a value. A value at or above 2^48 is therefore stored modulo 2^48; the tree's
  contract says so (`Agree`) instead of ruling such values out, and is exact for values below 2^48. A record reached
  through a slot keeps all 64 bits. `search` answers a missing key with the all-ones word, so a stored all-ones word
  reads as missing: `OrFailed` has that ambiguity.
* The 512-bit vector instructions are lane-wise functions on sequences of eight words.
* New memory is zeroed and its addresses are fresh and below 2^48; an insertion asks for two free addresses.
* `computePrefix` advances its pointer argument and not the count behind it (wrert/wrert_node.cpp:65), and `search`
  passes an uninitialised one. The count is taken to be 0, so the paths through `putDirNode` and `getDirNode` are
  never reached. `insert` passes a key position scaled by 4 and not 8 to `computePrefix`; only the root has a
  prefix, where the position is 0, so this makes no difference.
* A header's prefix length is 6 (not assigned yet), 0 or 1, and only the root has 1.
* When several directory doublings happen in one insertion, the source links each new node in turn; the model links
  the last one.
* In WORT, WOART and ROART the program can change memory in one way only: it appends a store to the log. `Replay` is memory as the
  log makes it, and `MayLeave` what a crash may leave: a fence makes what was stored before it durable, and of the stores behind
  the last one any subset may be kept (`AnySubset`). A store is one word or less, and is kept whole or not at all; the writing of
  a new cell is one store of which any part may be kept (`Parts`), so a cell that something points to has to be durable. The crash
  clauses of `Put`, `Update`, `Remove` and `AddChild` speak of every point of the log from the call on.
* In WORT every key has the same length, values are the eight bytes that the value pointer leads to, and header
  bytes behind the stored nibbles, which are never read, are not modelled. `places` says where a cell sits in the key space; it is
  an annotation that no operation reads.
* In ROART keys are the eight bytes of a 64-bit key. The arrays of a node are sequences inside its cell, which the
  methods rebuild slot by slot. The lane-wise key search of a node with 16 slots is the loop over its slots, and `std::sort`
  in `getChildren` is insertion into a sorted sequence. Operations run alone, and their restart loops are taken once. Alone,
  `get`, `update` and `remove` never restart; `put` does once after each repair, because the repair locks and unlocks the node and
  so changes the version that roart/roart.cpp:801 read (817, 898 and 969 then fail); the second pass finds the prefix
  repaired and goes on from there, with the same result. A range lookup that meets a prefix too short starts again for ever;
  its model says `Restart`.
* The states of a ROART tree: `Clean`, all prefixes are right; `Described`, each is right from some byte on, which is what one
  crash leaves; `Honest`, no node turns the keys below it away (`Turned` is the same for one key's way); `Repairable`, a wrong
  prefix has a wrong length (`RepairableOn` is the same for one key's way); `Quiet`, no insertion or removal inside a node was cut
  off. `Kept` and `KeptRight` say what a step does to them: every prefix describes its node, or is right, or was there before.
  Each store is flushed between fences before the next one. Prefix lengths are unbounded; the code keeps them in 32 bits.
* A walk through a ROART node compares the stored bytes of its prefix and then those of a leaf below. `SeenAt` is the byte that it
  sees at a level, `Seen` all of a node's, and `SeenFrom` those of a key below a cell; they are the key's own unless a node on its
  way turns it away. What a range lookup lists is stated with them, for trees of any kind.
* `remove` calls `getSecondChild` on whatever node has two children; on other kinds than N4 that is `assert(false)`. The model
  answers `Stopped` there and changes nothing.
* A WOART bitmap is one word, and `find_next_bit` and `find_next_zero_bit` find the next set or clear bit. The key and the
  child of a node with 16 slots are flushed together in no order, so a crash may keep either. A node's path header is not
  modelled.
* In ERT's node subkeys are 32 bits and not 0, which stands for an empty slot; the flag of a subkey is a field of its own. An
  existing subkey without a flag keeps having none, as the comparison at ert/ERT_node_int.cpp:229 has it. A doubled node is
  returned instead of stored through `beforeAddress`.
* A lock step is one access to the shared word; local variables of a thread are part of its state.

## What came out of it

* `putSegNode` looks for a free slot by comparing eight bits of the version only, without the valid flag. Zeroed
  main slots of a segment at depth 0 and zeroed shared slots at depth 1 then look taken, so it may pass over free
  slots; `VersionSearchMeaning` states what it finds, and `PutSegNode` is right all the same.
* `put` has a branch that only writes the value when the free slot happens to hold the same subkey in a stale entry;
  that would lose the key. `NoGhostOf` shows that the branch is never taken for a new subkey, because every written
  subkey that belongs to a segment is live in it.
* A split needs 17 subkeys that agree on L+5 bits, so depths never exceed 23 and no shift amount is negative
  (`OverflowBoundsDepth`).
* ROART's `remove` joins the prefix of a node with that of the child that takes its place, unchecked. If one of them is left
  over from a crash, the joined prefix may turn away every key below the node. `JoinedAt` says for which bytes, and
  `JoinedExactly` for which lengths some bytes make it so: the child's prefix starts at another byte than the one right
  below its parent, but below the path, and the comparison starts among the four stored bytes. `JoinsByLength` reads that off
  a tree, and `Remove` keeps `Honest` exactly if the join is honest (`JoinsHonestly`). `StaleJoinMisses` is a run: a clean tree
  of three keys, a `put` that a crash cuts off, two removals, and then `get` misses both remaining keys.
* All lookups are right exactly if no node turns its keys away (`HonestExactly`); a present key is missed exactly if a node on
  its way does. The lookup of an absent key finds a value exactly if its way leads to a leaf of the last level without skipping a byte
  (`AnswerExactly`); in an honest tree that never happens.
* `put` repairs the nodes on its way, and a lookup then finds its key, unless a wrong prefix there has the right length
  (`RepairableExactly`). Two crashes and a removal after them leave such a prefix (`WrongJoinReached`): put then leaves it, for a key
  that is present, at a byte that is not the node's (`ScanLeaves`), and forks there: the key has two leaves then, and the key next
  to it, which the node turned away, is still not found (`PutTwice`).
* A removal that shrinks a node first clears the slot in the node that is still linked. After a crash there, an N16 with two
  children is left, and the next `remove` of a key in one of its leaves runs into `assert(false)`: `ClearedStops` says exactly when.
  Without such a crash it never does (`TwoMeansN4`, `QuietNeverStops`).
* An insertion into an N48 stores the index before the child. If a crash keeps the index only, the next insertion of another
  byte uses the same slot, and then both bytes lead to the new child (`InsertedExactly`). `get` compares the leaf's key with its
  own unless the node is on the last level and no byte was skipped on the way, so all lookups stay right except exactly there
  (`CollisionExactly`); `StrayFinds` is a run in which a lookup of a key that the tree does not hold finds another key's value.
  In a node of any level, a later `put` of the other byte with the same bytes behind takes the leaf for a duplicate and stores its
  value there (`DuplicateOverwrites`).
* `lookupRange` compares a node's bytes with both bounds also behind the byte where the bounds part. `VerdictExactly` says when each
  of its verdicts is right for all keys below: `Contained` always; `Outside` if and only if the node's bytes come before the lower
  bound's where they first differ, or after the upper bound's, or the upper bound is the least key below; `BothMatch` if and only if
  the bytes are the upper bound's, and the lower bound's too, unless one of the bounds has only zeros behind them. Where no verdict on
  the way is wrong, exactly the range is listed (`RangeRight`, `RangeExact`). `StraddleMisses` is a clean tree of two keys, both in the
  range, of which none is found (`OutsideMisses` for any such node), and `StaleJoinHides` one whose node turns its keys away. In a
  clean tree, for bounds that part at some byte, a lookup goes wrong only if a node on their common way reaches past that byte and
  does not lie strictly between them there, or if a leaf lies on the way (`PartedRange`).
* A child that is a leaf is read as a node if the bounds share all bytes up to it (`LeafIsRead`). Bounds with different first bytes are
  safe: in a clean tree such a lookup is exact and never starts again (`FirstBytesApart`).
* `lookupRange` starts again exactly if a prefix that is too short lies where both bounds lead, or where the lower bound leads behind
  the byte where they part, or where the upper one does and no more of the listed entries come before it than were asked for.
* Over runs of operations a crash between a pointer and a prefix costs that all prefixes are right, and one inside a node that no node
  is half-done; without the first kind every removal joins rightly, and without the second no put meets a leftover index and no
  removal stops (`RunWithCrashes`). Without crashes every operation is kept (`RunWithoutCrashes`).
* A crash inside WORT's `put` may leave its size one behind the map for good (`Reopen`).
* The read-write lock excludes readers and writers for any number of threads, but its reader bits are right in all runs
  only below 2^31 threads: `BitsExact` gives the condition in both directions. From every reachable state some run of the
  threads leads to any given one writing, or reading (`WriteReachable`, `ReadReachable`).
* The comment in roart/roart_node.h:166 speaks of 3 bits of type and 59 of version; the code shifts by 60. The fields are
  right exactly while fewer than 2^58 - 1 critical sections have ended (`FieldsExact`), and a validated read can only be
  fooled by a multiple of 2^62 sections in between (`Validated`).

## Model

| member | source | states |
|---|---|---|
| Slots.MasksDecide | wrert/wrert_node.h:105-109 | the packed 42-bit comparison, the 10-bit one and the subkey comparison decide validity, version and subkey exactly, negative versions included |
| Slots.LiveLanes | wrert/wrert.cpp:122-124 | the lane mask of the valid-and-version comparison has a lane exactly for each live slot |
| Slots.KeyLanes | wrert/wrert.cpp:126-127 | the subkey mask has a lane exactly for each slot with the subkey, live or not |
| Slots.HitLanes | wrert/wrert_node.cpp:249-252 | the mask of getSegNode has a lane exactly for each live slot with the subkey |
| Slots.ScanMeaning | wrert/wrert.cpp:91-109 | on a bucket with a live prefix the scalar loop finds the subkey's slot, the first free slot, or that the bucket is full |
| Slots.SearchGroup | wrert/wrert.cpp:117-154 | one group of eight lanes answers as the scalar loop does from there, or finds eight live slots of other subkeys |
| Slots.SearchForInsert | wrert/wrert.cpp:112-154 | the grouped search equals the scalar loop kept beside it in comments |
| Slots.SearchVersion | wrert/wrert_node.cpp:166-184 | the first slot whose eight version bits differ |
| Slots.SearchBoth | wrert/wrert_node.cpp:236-262 | the interleaved search of two buckets finds the entry that either bucket has, shared first within a group |
| Segments.SegmentNumberTop | wrert/wrert_node.h:23-24 | the directory index is the subkey's top bits |
| Segments.IndexTops | wrert/wrert_node.h:54-58 | bucket indices are top bits of the subkey, and one level deeper they split in two |
| Segments.PositionsPartition | wrert/wrert_node.h:172-180 | the shared third and the main buckets lie at distinct positions that cover the segment, for each rotation |
| Segments.ZeroSegmentOk | wrert/wrert_node.h:202-211 | a zeroed segment is well-formed at depth 0 and empty |
| Segments.SegmentInsert | wrert/wrert_node.cpp:479-489 | writing the first free slot keeps the segment invariant and adds one entry to its lookup, no other lookup changes |
| Segments.SegmentUpdate | wrert/wrert.cpp:241-245 | overwriting the value of a live slot keeps the invariant and changes one entry |
| Splits.MovedLookup | wrert/wrert_node.cpp:299-331 | the slots moved to a new main bucket answer for its subkeys what the old shared bucket answered |
| Splits.RedistributedOk | wrert/wrert_node.cpp:299-331 | a bucket written over by a split is a live prefix with the new version; every later slot is invalid or older |
| Splits.HalfLookup | wrert/wrert_node.cpp:271-331 | conservation: a half answers for each of its subkeys what the whole segment answered |
| Splits.HalfOk | wrert/wrert_node.cpp:271-331 | either half of a well-formed segment is well-formed one level deeper, with the shared third rotated, and conserves all lookups |
| Splits.WrittenBefore | wrert/wrert_node.cpp:295-331 | every subkey found written in a half was written in the segment before |
| SplitMethods.Redistribute | wrert/wrert_node.cpp:299-331 | the counting loops fill each main bucket with exactly the moved slots, in order; no bucket overflows and nothing else is written |
| SplitMethods.SplitSegment | wrert/wrert_node.cpp:271-331 | the in-place split leaves two well-formed segments that conserve all lookups; no source slot is overwritten before it is read |
| Directory.Encode | wrert/wrert_node.cpp:352 | the stored offset byte decodes to the offset again |
| Directory.RelinkedLinked | wrert/wrert_node.cpp:346-353 | after the relinking loop the directory again has one aligned group of entries per segment |
| Directory.DoubledLinked | wrert/wrert_node.cpp:373-380 | a directory copied entry by entry twice is linked at the next depth |
| Directory.LocalSides | wrert/wrert_node.cpp:275-279 | comparing the directory index with the middle of the group is deciding the next bit of the subkey |
| Directory.DoublingSides | wrert/wrert_node.cpp:397-432 | comparing the doubled index decides the next bit of the subkey |
| Directory.OverflowNeedsRoom | wrert/wrert_node.cpp:212-215 | a full main bucket and one more subkey are 17 subkeys sharing L+5 bits |
| Directory.OverflowBoundsDepth | wrert/wrert_node.cpp:268-271 | hence a split happens at local depth 22 at most |
| Headers.SubKeysSplit | wrert/wrert_node.h:32-33 | the two subkeys of a key are its halves, and a key is determined by them |
| Headers.BytesInjective | wrert/wrert_node.h:44-52 | prefix bytes stand for a subkey exactly if each byte does |
| Headers.AssignPrefix | wrert/wrert_node.cpp:87-97 | the prefix bytes stand for the key's first subkey |
| Headers.ComputePrefix | wrert/wrert_node.cpp:39-75 | -1 for a new header, otherwise the number of prefix subkeys that the key matches |
| WrertNodes.Node.constructor | wrert/wrert_node.h:242-262 | a new node is valid and empty |
| WrertNodes.Node.GetSegNode | wrert/wrert_node.cpp:217-262 | finds the slot of a subkey exactly if the node holds it |
| WrertNodes.Node.Get | wrert/wrert_node.cpp:217-262 | answers with the node's map |
| WrertNodes.Node.FindSlot | wrert/wrert.cpp:64-230 | the slot of a held subkey, or the slot where it may go, or that its main bucket is full |
| WrertNodes.Node.WriteSlot | wrert/wrert_node.cpp:475-492 | the two ways of writing a slot add or update exactly one entry of the node's map |
| WrertNodes.Node.NoGhostOf | wrert/wrert_node.cpp:476-478 | a free slot never holds the new subkey as a stale entry |
| WrertNodes.Node.RelinkEntries | wrert/wrert_node.cpp:346-353 | the loop relinks exactly the entries of one segment |
| WrertNodes.Node.SplitLocal | wrert/wrert_node.cpp:271-355 | a local split keeps the node valid and its map unchanged, and deepens the segment |
| WrertNodes.Node.CopyTwice | wrert/wrert_node.cpp:373-380 | the copy loop doubles each directory entry |
| WrertNodes.Node.Double | wrert/wrert_node.cpp:360-470 | a doubling gives a new valid node with the same map, one level deeper for the split segment |
| WrertNodes.Node.Put | wrert/wrert_node.cpp:268-493 | slot write, local split or doubling, through any number of nested splits: the node's map changes in one subkey |
| WrertNodes.Node.FindFreeSlot | wrert/wrert_node.cpp:166-214 | the slot that putSegNode picks is free, and without one the main bucket is full or the segment is at depth 0 |
| WrertNodes.VersionSearchMeaning | wrert/wrert_node.cpp:173-204 | what a search by eight version bits finds in a well-formed bucket |
| WrertNodes.Node.PutSegNode | wrert/wrert_node.cpp:132-215 | terminates and adds the subkey to the node's map |
| WrertNodes.Node.SplitDepth | wrert/wrert_node.cpp:268-271 | where a put splits, the local depth is at most 22 |
| NodeMemory.FewKeysRoom | wrert/wrert.cpp:316-327 | a node with one subkey at most has room, so building a new node never grows it |
| WrertModel.PrefixAssigned | wrert/wrert.cpp:48-54 | giving the first prefix does not change the map |
| WrertModel.RootPut | wrert/wrert.cpp:234-246 | a key under the root's prefix ends in the root: one key is added or updated |
| WrertModel.RecordAdded | wrert/wrert.cpp:248-258 | the first key of a high half becomes a record: one key is added |
| WrertModel.RecordUpdated | wrert/wrert.cpp:265-272 | a new value in a key's record updates that key only |
| WrertModel.ChildPut | wrert/wrert.cpp:234-246 | a key that ends in a child node, moved or not, is the only one to change |
| WrertModel.PushedDown | wrert/wrert.cpp:273-295 | two keys of one high half move to a new child node: the old key keeps its value, the new one is added |
| WrertModel.PrefixSplit | wrert/wrert.cpp:299-360 | a new root above the old one: all old keys keep their values, one is added |
| WrertModel.RunHolds | wrert/wrert.cpp:30-364 | after any run of insertions the tree holds the last value of every key and nothing else |
| Wrerts.Wrert.constructor | wrert/wrert.cpp:30-45 | a new tree is valid and empty |
| Wrerts.Wrert.Search | wrert/wrert.cpp:366-423 | search answers with the tree's map, or the failure word; where all values are below 2^48, with the failure word exactly for absent keys |
| Wrerts.Wrert.PutLinked | wrert/wrert_node.cpp:464-470 | a put whose node doubled is re-linked through the parent's slot or the root pointer |
| Wrerts.Wrert.AssignRootPrefix | wrert/wrert.cpp:48-54 | keeps the tree valid and its map |
| Wrerts.Wrert.EndHere | wrert/wrert.cpp:234-246 | inserts the key in the node where it ends |
| Wrerts.Wrert.AddRecord | wrert/wrert.cpp:248-258 | inserts the key as a record of the root |
| Wrerts.Wrert.UpdateRecord | wrert/wrert.cpp:265-272 | inserts by updating the record |
| Wrerts.Wrert.PushDown | wrert/wrert.cpp:273-295 | inserts by building a child node with both keys |
| Wrerts.Wrert.SplitRootPrefix | wrert/wrert.cpp:299-360 | inserts by putting a new root above the old one |
| Wrerts.Wrert.Insert | wrert/wrert.cpp:30-364 | every path of insert keeps the tree valid and changes the map in exactly one key |
| Nibbles.GetIndex | wort/wort.cpp:51-56 | the shift and mask pick the nibble at a depth |
| Nibbles.NibsInjective | wort/wort.cpp:51-56 | different keys have different nibbles |
| Nibbles.NibsOrder | wort/wort.cpp:51-56 | the first different nibble decides the order of keys |
| WortModel.Descends | wort/wort.cpp:201-206 | of two cells one above the other, the upper has a child on the way to the lower: there is one path to each cell |
| WortModel.OneLeaf | wort/wort.cpp:116-125 | a key is in one leaf only |
| WortModel.Toward | wort/wort.cpp:201-206 | from any cell on a present key's way the key's next nibble leads on to its leaf |
| WortModel.ForkAdded | wort/wort.cpp:303-328 | linking a new node above a leaf or a node adds exactly one key |
| WortModel.LeafAdded | wort/wort.cpp:399-405 | a leaf in an empty child slot adds exactly one key |
| WortModel.RootAdded | wort/wort.cpp:284-288 | the first leaf makes a map with one key |
| WortModel.ValueSet | wort/wort.cpp:295-301 | a new value in a leaf changes one key |
| WortModel.HeaderSet | wort/wort.cpp:274-278 | a header may become the right one, or one with another depth, without changing the map |
| WortModel.SplitCrash | wort/wort.cpp:375-386 | whichever of the two stores of a prefix split a crash keeps, the tree is valid and holds the map from before or after |
| WortModel.PartAfter | wort/wort.cpp:270-271 | two leaves below different children share exactly the node's full prefix |
| WortModel.Mismatch | wort/wort.cpp:165-172 | a key that leaves the stored nibbles is absent |
| WortModel.ListsWhole | wort/wort.cpp:424-444 | the list from the root is the map, every entry once |
| WortModel.RunWithCrashes | wort/wort.cpp:281-422 | over any run with crashes the map holds every completed update, and each crashed one entirely or not at all |
| Stores.AnySubset | wort/wort.cpp:30-49 | of single-word stores behind the last fence a crash may keep any subset, and leaves nothing else |
| Stores.TwoLeft | wort/wort.cpp:380-386 | of two stores of any kind behind a fence: none, either one or a part of it, or both, and nothing else |
| WortStores.CellsWritten | wort/wort.cpp:375-379 | new cells that nothing points to may hold anything after a crash: the map is the same |
| Worts.Wort.CheckPrefix | wort/wort.cpp:105-114 | counts the stored nibbles that the key matches, up to the first mismatch |
| Worts.Wort.Minimum | wort/wort.cpp:128-140 | the leaf with the least key below a cell |
| Worts.Wort.LongestCommonPrefix | wort/wort.cpp:142-151 | the number of nibbles two keys share from a depth on |
| Worts.Wort.TwoLeaves | wort/wort.cpp:261-268 | leaves below the first two children, which part right behind the node's prefix |
| Worts.Wort.Rebuild | wort/wort.cpp:176-189 | the header rebuilt from two leaves is the right one |
| Worts.Wort.Get | wort/wort.cpp:153-210 | answers with the map on every valid tree, stale headers included |
| Worts.Wort.PrefixMismatch | wort/wort.cpp:237-256 | the exact nibble where the key leaves the full prefix, also beyond the six stored nibbles |
| Worts.Wort.RecoveryPrefix | wort/wort.cpp:258-279 | leaves the right header and the same map, also after a crash in between |
| Worts.Wort.SplitLeaf | wort/wort.cpp:303-328 | adds the key by a new node above the leaf; whatever a crash leaves is the map before or after |
| Worts.Wort.SplitPrefix | wort/wort.cpp:341-388 | adds the key by a new node above the split prefix, in short and long form; whatever a crash leaves is the map before or after |
| Worts.Wort.StorePair | wort/wort.cpp:380-386 | of the two stores behind one fence a crash may keep either one, both or none, and each is the map before or after |
| Worts.Wort.AddLeaf | wort/wort.cpp:399-405 | adds the key in an empty child slot; whatever a crash leaves is the map before or after |
| Worts.Wort.RecursiveInsert | wort/wort.cpp:281-333 | below any pointer, changes the map in exactly one key and returns the old value |
| Worts.Wort.InsertBelow | wort/wort.cpp:335-406 | the same for a node whose header is right |
| Worts.Wort.Put | wort/wort.cpp:408-422 | the map changes in one key, size stays the number of keys, and all memory that a crash may leave at any time of the call is the map before or after |
| Worts.Wort.Reopen | wort/wort.cpp:408-422 | memory that a crash left is used as it is: every other key has its value and the key its old or its new one, and the size falls one behind the map exactly if the key is new and was kept |
| Worts.Wort.AllSubtree | wort/wort.cpp:424-444 | appends exactly the entries below a cell, in strictly ascending key order |
| RoartKeys.Fkey | roart/roart.cpp:779-782 | the loop spells out the key's bytes |
| RoartKeys.BytesDiffer | roart/roart.cpp:779-782 | different keys have different bytes |
| RoartKeys.BytesOrder | roart/roart_node.cpp:1110-1118 | the first different byte decides the order of keys |
| RoartLayouts.GetChild | roart/roart_node.cpp:559-585 | answers with the child for a key byte in all four layouts |
| RoartLayouts.Insert | roart/roart_node.cpp:1165-1187 | adds one child, and one more for each byte whose index was left over for the slot, and changes no other; or fails exactly if all slots were handed out |
| RoartLayouts.HalfInsertedSame | roart/roart_node.cpp:1657-1683 | between the two stores of an insertion the node has the same children |
| RoartLayouts.InsertedExactly | roart/roart_node.cpp:1657-1683 | an insertion changes the child of no other byte if and only if no other byte has an index left over for the same slot |
| RoartLayouts.Change | roart/roart_node.cpp:379-408 | repoints one child and changes no other |
| RoartLayouts.Remove | roart/roart_node.cpp:1504-1520 | removes one child and changes no other, or refuses exactly below the kind's threshold |
| RoartLayouts.CopyTo | roart/roart_node.h:351-369 | a copy into any kind with enough slots has the same children and no holes |
| RoartLayouts.CountToThree | roart/roart_node.cpp:1326-1338 | counts the children up to 3 |
| RoartLayouts.AnyChild | roart/roart_node.cpp:1248-1270 | a leaf if there is one, otherwise some child |
| RoartLayouts.SecondChild | roart/roart_node.cpp:1273-1293 | of two children the other one, with its byte |
| RoartLayouts.GetChildren | roart/roart_node.cpp:1296-1324 | exactly the children in a range of bytes, in ascending order |
| RoartLayouts.BoundedLive | roart/roart_node.cpp:501-557 | no more children than slots handed out, so a copy always fits where one is made |
| RoartModel.Descends | roart/roart.cpp:173-199 | there is one path to each cell |
| RoartModel.OneParent | roart/roart.cpp:173-199 | only one slot points to a cell |
| RoartModel.LeafAdded | roart/roart_node.cpp:417-418 | a leaf in an empty slot adds exactly one key |
| RoartModel.NodeMoved | roart/roart_node.cpp:437-454 | a copy of another kind in a node's place keeps the map |
| RoartModel.LeafMoved | roart/roart.cpp:272-282 | a new leaf in an old one's place updates exactly one key |
| RoartModel.ForkAdded | roart/roart.cpp:821-867 | a new node above a leaf or node adds exactly one key, whatever state prefixes are in |
| RoartModel.LeafRemoved | roart/roart_node.cpp:1226-1246 | emptying a leaf's slot removes exactly one key |
| RoartModel.MergeRemoved | roart/roart.cpp:1133-1173 | the other of two children in their parent's place removes exactly one key, whatever state prefixes are in |
| RoartModel.GrownAdded | roart/roart_node.cpp:437-454 | a bigger or compacted copy with the leaf adds exactly one key |
| RoartPrefixes.CheckPrefix | roart/roart.cpp:1270-1295 | no match exactly if a stored byte that lies in the node's range differs from the key |
| RoartPrefixes.BelowMatches | roart/roart.cpp:1270-1295 | a key below a node mismatches exactly if the node turns its keys away |
| RoartPrefixes.MatchMeans | roart/roart.cpp:1280-1294 | a full match at a node that does not is a match of all the node's bytes |
| RoartPrefixes.DescribesHonest | roart/roart.cpp:1274-1277 | a prefix that is right from any byte on, too long or too short, turns no key away |
| RoartPrefixes.RightLengthExactly | roart/roart.cpp:1388-1419 | of the prefixes of the right length, exactly those that turn no key away are right |
| RoartPrefixes.SeenExactly | roart/roart.cpp:1425-1470 | a walk sees a node's own bytes exactly if the node does not turn its keys away |
| RoartPrefixes.Joined | roart/roart_node.cpp:771-786 | joining right prefixes gives the right prefix |
| RoartPrefixes.JoinedAt | roart/roart_node.cpp:771-786 | a joined prefix turns keys away exactly if a byte that is compared differs from the one it stands for |
| RoartPrefixes.JoinedExactly | roart/roart_node.cpp:771-786 | for which lengths of path, parent and child, and starts of their prefixes, some bytes make a join turn keys away |
| RoartPrefixes.JoinedBelowRight | roart/roart_node.cpp:771-786 | the same below a right parent: the child's prefix starts below the path, above the byte behind the parent, and fewer than four bytes above |
| RoartStates.HonestExactly | roart/roart.cpp:139-201 | all present keys are found exactly if no node turns its keys away |
| RoartStates.RepairableExactly | roart/roart.cpp:1391-1470 | what put compares at prefixes of the right length is a part of all present keys below exactly if the tree is repairable |
| RoartStates.KeptKeeps | roart/roart.cpp:774-1059 | a step whose prefixes describe their nodes or were there before keeps lookups right and wrong prefixes repairable |
| RoartStates.ForkKept | roart/roart.cpp:858-875 | after the first store of a split all prefixes describe their nodes or were there before; after the second they are right or were there before |
| RoartStates.PrefixUp | roart/roart.cpp:1167-1173 | after both stores of a merge lookups are right exactly if the join is honest, and clean trees stay clean |
| RoartStates.JoinsByLength | roart/roart_node.cpp:771-786 | in a tree that crashes left, whether a removal may turn keys away can be told from lengths |
| RoartStates.TwoMeansN4 | roart/roart_node.cpp:817-830 | where no removal was cut off, a node with two children, other than the root, is an N4 |
| RoartStates.QuietNeverStops | roart/roart_node.cpp:817-830 | there remove never runs into the assertion |
| RoartStates.ClearedStops | roart/roart_node.cpp:622-655 | after a crash between clearing the slot and swinging the pointer, a later remove runs into it exactly for the keys of the two leaves left in an N16 |
| RoartRuns.RunWithCrashes | roart/roart.cpp:204-1193 | over any run of puts, updates and removals with crashes that is spared the two cases a crash may cost: the map is that of the operations that were kept, all completed ones are but for removals that stop, prefixes are right until a crash between a pointer and a prefix, nodes are settled until one inside a node |
| RoartRuns.RunWithoutCrashes | roart/roart.cpp:204-1193 | without crashes every operation is kept, nothing stops, and every tree is clean and quiet, with nothing asked of the run |
| RoartRuns.StepCut | roart/roart.cpp:858-875 | a crash costs one of two things, and the operation is all or nothing |
| RoartStale.StaleJoinMisses | roart/roart.cpp:1133-1173 | from a clean tree, a crashed put and two removals lead to a tree in which both remaining keys are missed |
| RoartMisled.WrongJoinReached | roart/roart.cpp:1133-1173 | from a clean tree, a crashed put, a crashed removal and another removal lead to a prefix of the right length that is wrong |
| RoartMisled.ScanLeaves | roart/roart.cpp:1425-1470 | there put leaves the prefix for a present key at a byte that is not the node's |
| RoartMisled.PutTwice | roart/roart.cpp:814-881 | after the fork at that byte the key has two leaves, and the key next to it is not found |
| RoartLookups.AnswerExactly | roart/roart.cpp:139-201 | a present key is found unless a node on its way turns it away; an absent one finds a leaf's value exactly if the bytes that the way to the leaf compares are the key's and none is skipped |
| RoartLookups.HonestAnswers | roart/roart.cpp:139-201 | where no node turns keys away get is right for every key, present or not |
| RoartCollisions.CollisionAnswer | roart/roart.cpp:173-199 | after an insertion into a slot that another byte has an index for, every lookup answers as if the index were not there, but for those that come to the node with that byte |
| RoartCollisions.CollisionExactly | roart/roart.cpp:183-190 | then all lookups are right if and only if the node is above the last level or bytes were skipped on the way to it |
| RoartCollisions.DuplicateOverwrites | roart/roart.cpp:996-1008 | a later put of the other byte that takes the leaf for its own changes the value of the first key, and its own is not found |
| RoartStrays.StrayFinds | roart/roart_node.cpp:1657-1683 | a clean tree, a put that a crash cuts off and the next put lead to a tree in which an absent key is found with another key's value |
| RoartStores.CellStored | roart/roart.cpp:1219-1240 | a new cell that nothing points to may hold anything after a crash: the map is the same, and prefixes and nodes are as before |
| Roarts.Roart.Get | roart/roart.cpp:139-201 | answers as get does on any memory whose way is in order: a present key is found exactly if no node on its way turns it away; an absent one finds a leaf's value exactly if its way ends there without a look at the key |
| Roarts.Roart.Update | roart/roart.cpp:204-289 | updates a present key exactly if no node on its way turns it away, and otherwise changes nothing; all memory that a crash may leave at any time is the map before or after, with no prefix worse |
| Roarts.Roart.AnyLeafBelow | roart/roart_node.cpp:870-882 | some leaf below a node |
| Roarts.Roart.Repair | roart/roart.cpp:1391-1419 | rewrites a prefix of the wrong length to the right length and bytes, passes over one of the right length, and keeps the map |
| Roarts.Roart.CheckPessimistic | roart/roart.cpp:1388-1475 | repairs the prefix and finds the first byte where the key leaves what is seen of it; with a right prefix that is where it leaves the node, with the bytes behind |
| Roarts.Roart.SplitPrefix | roart/roart.cpp:814-881 | adds the key; whatever a crash leaves is the map before or after, and a prefix that describes its node at worst |
| Roarts.Roart.PutAtLeaf | roart/roart.cpp:968-1054 | updates the leaf's value, or puts a new node above two leaves |
| Roarts.Roart.InsertChild | roart/roart_node.cpp:501-557 | adds the key by compacting, inserting or growing, or lets two bytes lead to its leaf exactly if one has an index left over for the slot |
| Roarts.Roart.Put | roart/roart.cpp:774-1059 | the map changes in one key, a lookup then finds it, and all memory that a crash may leave at any time of the call is the map from before or after; or, exactly if the key ends in a node where another byte has an index left over for its slot, both bytes lead to its leaf |
| Roarts.Roart.Shrink | roart/roart_node.cpp:622-657 | clears the slot in the linked node and then puts a smaller copy in its place; whatever a crash leaves is the map with or without the key |
| Roarts.Roart.RemoveChild | roart/roart_node.cpp:659-693 | removes the key in place or by shrinking |
| Roarts.Roart.MergeUp | roart/roart.cpp:1133-1177 | removes the key by giving the node's place to its other child, whatever state prefixes are in, and joins the prefixes |
| Roarts.Roart.Remove | roart/roart.cpp:1061-1193 | the map loses exactly a present key that is not turned away, or the program stops exactly at a node of two that is no N4; lookups stay right exactly if the join is honest; all memory that a crash may leave at any time is with or without the key |
| RoartWays.SeenRight | roart/roart.cpp:1477-1511 | a walk sees a present key's own bytes if no node on its way turns it away |
| RoartWays.SideOf | roart/roart.cpp:1477-1511 | the side of a bound that a walk puts a key on: what it sees of the node decides, then the next byte, then what comes below |
| RoartRanges.CheckPrefixCompare | roart/roart.cpp:1477-1511 | says that the prefix is too short exactly if it is; otherwise on which side of the bound the bytes lie that are seen of the node |
| RoartRanges.Copy | roart/roart.cpp:538-561 | meets all entries below a cell in ascending order, until the result is full |
| RoartRanges.FindStart | roart/roart.cpp:562-606 | meets exactly the entries below a cell that are seen from start on, or gives up exactly if start's way meets a prefix too short |
| RoartRanges.FindEnd | roart/roart.cpp:607-652 | meets exactly the entries below a cell that are seen before end, or gives up exactly if end's way meets a prefix too short before the result is full |
| RoartRanges.CheckPrefixEquals | roart/roart.cpp:1513-1551 | of the bytes that are seen of a node: contained exactly if one lies strictly between the bounds' and no earlier one outside them; outside exactly if one lies outside and all earlier ones are a bound's; a match exactly if all are |
| RoartRanges.SplitChildren | roart/roart.cpp:688-717 | where the bounds part: the first entries listed, or a restart exactly if a bound's way is cut short in time |
| RoartRanges.LookupRange | roart/roart.cpp:516-742 | in any tree: the first entries listed where the walk along both bounds ends, in ascending order, and whether there are more; a restart exactly if a way is cut short in time; a leaf read as a node exactly if the walk ends at one |
| RoartVerdicts.VerdictMeans | roart/roart.cpp:1513-1551 | the same three outcomes in closed form for any bytes and bounds |
| RoartBounds.VerdictExactly | roart/roart.cpp:1513-1551 | for all keys below a node, when each verdict of the comparison with both bounds is right, in both directions |
| RoartBounds.RangeRight | roart/roart.cpp:662-735 | a present key that no node turns away is listed exactly if it is in the range, where no verdict on the way is wrong |
| RoartBounds.RangeExact | roart/roart.cpp:516-742 | so in an honest tree the lookup finds the first entries of [start, end) |
| RoartBounds.FirstBytesApart | roart/roart.cpp:516-742 | in a clean tree a lookup between bounds with different first bytes always finds the first entries of [start, end) |
| RoartBounds.PartedRange | roart/roart.cpp:516-742 | in a clean tree, for bounds that part at some byte and no node on their common way that reaches past it other than strictly between them there: a leaf is read as a node exactly if one lies on the way, and otherwise the lookup finds the first entries of [start, end) |
| RoartBounds.OutsideMisses | roart/roart.cpp:1541-1545 | a node that lies in the range as a whole and is left out: a key below it is present and in the range, and the lookup finds nothing |
| RoartMisses.StraddleMisses | roart/roart.cpp:1541-1545 | a clean tree whose two keys are both in the range, of which the lookup finds none |
| RoartMisses.StaleJoinHides | roart/roart.cpp:666-673 | the same at a node that turns its keys away, after the run of RoartStale |
| RoartMisses.LeafIsRead | roart/roart.cpp:659-666 | a tree of one key in which a lookup reads the leaf as a node |
| WoartNodes.FindChild | woart/woart.cpp:194-233 | the child for a byte exactly if the node has one, in all four kinds |
| WoartNodes.LeastChild | woart/woart.cpp:305-340 | the child with the least byte |
| WoartNodes.Grow16 | woart/woart.cpp:444-463 | a node with 48 slots that has the 16 children and the new one |
| WoartChildren.NodeRef.AddChild | woart/woart.cpp:575-588 | adds exactly one child, and in all memory that a crash may leave at any time the pointer leads to a well-formed node with the children from before or after |
| WoartChildren.NodeRef.AddChild4 | woart/woart.cpp:466-530 | the same for a node with 4 slots: child, then the sorted slot word |
| WoartChildren.NodeRef.AddSlot16 | woart/woart.cpp:426-443 | key and child behind one fence, of which a crash may keep either, then their bit |
| ErtNodes.FindPlace | ert/ERT_node_int.cpp:33-48 | the key's slot, or one that it may take, or -1 exactly if there is none |
| ErtNodes.FullBoundsDepth | ert/ERT_node_int.cpp:157-159 | a full bucket needs five keys that share depth + 8 bits, so no segment splits at depth 22 |
| ErtNodes.HalvesOk | ert/ERT_node_int.cpp:159-197 | both halves of a split are well-formed one level deeper, with the moved entries left behind in the lower |
| ErtNodes.ErtNode.Get | ert/ERT_node_int.cpp:257-264 | answers with the node's map |
| ErtNodes.ErtNode.Split | ert/ERT_node_int.cpp:159-197 | splits a segment and keeps the map |
| ErtNodes.ErtNode.Double | ert/ERT_node_int.cpp:204-215 | a directory of twice the size with the same map |
| ErtNodes.ErtNode.Put | ert/ERT_node_int.cpp:140-251 | the map changes in one key, through any number of splits and doublings; that key then has the value given, a new key the flag given, and an old one a flag exactly if it had one and is given one |
| RwLocks.InvStep | YCSB-C/ert/ERT_rwlock.h:35-93 | every step keeps the word equal to readers plus 2^31 for the one owner of the flag |
| RwLocks.RunExclusive | YCSB-C/ert/ERT_rwlock.h:59-93 | in every reachable state a thread past write_lock excludes all others, for any number of threads |
| RwLocks.WriterDrains | YCSB-C/ert/ERT_rwlock.h:35-43 | while the flag is set the number of readers does not rise |
| RwLocks.ReadersGone | YCSB-C/ert/ERT_rwlock.h:80-83 | the check that ends write_lock succeeds exactly if no thread reads |
| RwLocks.WriteReachable | YCSB-C/ert/ERT_rwlock.h:59-93 | from every reachable state some run leads to any given thread holding the lock for writing |
| RwLocks.ReadReachable | YCSB-C/ert/ERT_rwlock.h:35-57 | and to any given thread reading |
| RwLocks.BitsExact | YCSB-C/ert/ERT_rwlock.h:39-40 | the reader bits differ from the number of readers in some run exactly if there are 2^31 threads or more |
| VersionLocks.InvStep | roart/roart_node.cpp:313-345 | every step keeps the word equal to type, version and bits of the sections begun and ended, wrap-around included |
| VersionLocks.OneHolder | roart/roart_node.cpp:313-341 | at most one thread holds the lock, and then the lock bit is set and the obsolete bit is not |
| VersionLocks.ObsoleteStays | roart/roart_node.h:232-234 | obsolete is permanent, and nobody locks an obsolete node |
| VersionLocks.UnlockMarks | roart/roart_node.h:228-234 | the holder's obsolete unlock sets the obsolete bit, the plain one does not, and both free the lock |
| VersionLocks.LockAlone | roart/roart_node.cpp:313-327 | an undisturbed attempt to lock succeeds exactly if the node is not obsolete and no thread holds the lock |
| VersionLocks.UpgradeExactly | roart/roart_node.cpp:329-341 | a thread that read the word gets the lock exactly if the word is still the same, free and not obsolete, and otherwise changes nothing |
| VersionLocks.ObsoleteExactly | roart/roart_node.h:232-234 | over any run the word is obsolete exactly if an earlier step was an obsolete unlock, and then nobody holds the lock |
| VersionLocks.Validated | roart/roart_node.cpp:707-713 | a validation succeeds exactly if the bits are as before and a multiple of 2^62 sections lie in between |
| VersionLocks.FieldsExact | roart/roart_node.cpp:303-306 | type and version read from the word are right exactly below 2^58 - 1 ended sections |
| VersionLocks.RunSafe | roart/roart_node.cpp:313-345 | over any run: one holder, obsolete stays, the version never falls |
| VersionLocks.ReadUndisturbed | roart/roart_node.cpp:711-713 | a validated read saw no critical section begin or end, given fewer than 2^58 |

## Left out

* WRERT range scans and WORT range scans: their bounds are not tight across prefixes.
* WRERT crash recovery, flushes and fences inside a WRERT node: splits rewrite the old segment in place before the directory switches.
- Roarts.Roart.Put: asks that wrong prefixes on the key's way have wrong lengths (`RepairableOn`); `ScanLeaves` and `PutTwice` show what the code does at one of the right length. What updates, removals and copies do to a node in which two bytes lead to one child is not part of the model, beyond lookups and the duplicate leaf. States of memory in which a child is stored but not yet counted are not part of it.
- RoartRuns.RunWithCrashes: asks that puts after a crash inside a node meet no leftover index and that removals after a crash between a pointer and a prefix join prefixes that describe the node (`Spared`); `CollisionExactly`, `JoinedAt` and `JoinsByLength` say what happens otherwise.
* ROART's operations run alone: their restarts, concurrent readers and the lock words inside nodes are not part of the tree model. Leaf arrays and packed entries are compiled out. Deletion of unlinked memory is not modelled.
* Durability of a ROART node's own counts: `count` and `compactCount` are taken to agree with the slots. `rebuild_node`, which would recompute them (roart/roart_node.cpp:918-1045), is called from nowhere.
* WOART's tree: prefixes, `woart_put` and `woart_get` as a map, and `minimum` over a subtree, of which only the step in one node is modelled. WOART's crash recovery exits the program.
* ERT's tree above its hash nodes, the key-value nodes of a header, crash states inside an ERT node, and its lock beyond the word.
* `remove` of WRERT has no body in the source.
* A WRERT segment is an array of buckets, and a bucket is a sequence of 16 slots that is replaced as a whole; a write inside a bucket is an update of that sequence.
* Lock acquisition order, fairness and waiting times: a spinning thread takes steps that change nothing.
