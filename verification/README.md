# cpp-ethereum: verified models of its core

Dafny models of the algorithmic core of cpp-ethereum, with proofs. `dafny verify dfyconfig.toml`
checks the whole project.

**Trie** (`Nibbles`, `Trie`, `TrieInsert`, `TrieDelete`, `TrieBlocked`, `TrieMisgraft`, `TrieNode`,
`TrieScope`, `TrieProbe`, `OverlayStore`, `TrieStore`, `TrieHash`, `TrieCheck`, `TrieRun`, `TrieOrder`,
`TrieIterator`, `TrieCommon`, `TrieBytes`, `TrieDigest`).
Plain trees with a canonical form (`Trie`) and the rewrites on them (`TrieInsert`, `TrieDelete`);
the class `GenericTrieDB`, whose recursive methods edit nodes kept in a reference-counted store and
are proved against those rewrites, counts included; the one-shot builder of `TrieHash.cpp`; the
explicit-stack iterator; whole runs of inserts, removes and flushes. A stored node is a value whose
references are inline nodes or hashes, and `TrieBytes` ties it to its RLP bytes: sizes, hex-prefix
keys, reading back. A hash of 32 bytes cannot be injective; the trie needs no more than that no two
nodes collide that can arise from the keys and values at hand, its scope (`TrieScope`), and
`TrieDigest` states this and the results for a hash of node bytes. The structure is that of
Appendices C and D of the Ethereum Yellow Paper.

**RLP** (`Rlp`, `RlpWriter`, `RlpReader`). Encoding and strict decoding as inverse functions
(Appendix B of the Yellow Paper), the stream that patches list headers into written output, and the
reader with its index cache and iterator.

**RangeMask** (`RangeMasks`). A set of integers as a map of intervals.

**Ethash** (`EthashWords`, `EthashDag`, `EthashMemory`, `EthashSeal`, `EthashEpochs`,
`EthashHeader`). Data-set items, the fill and the hash as loops over word arrays against recursive
definitions (Appendix J of the Yellow Paper); evaluation and seal checks; the seed-hash caches; gas
limit and difficulty (section 4.3.4 of the Yellow Paper). Keccak is a pair of arbitrary functions.

**Blocks** (`BlockTree`, `Uncles`, `Rewards`, `Sealing`). The block tree and uncles, picked and
checked (section 11.1 of the Yellow Paper); rewards; the commit, uncommit and seal operations of
`Block`; the validator's replay. Executing one transaction, `State::commit` and the digests in a
header are arbitrary functions; a hash determines the header it is the hash of.

What the code does where one might expect otherwise:

- `deleteAt` goes wrong for some keys that are prefixes of others. Below a leaf it takes the leaf's
  value for a hash and goes on in the node stored under it (libdevcore/TrieDB.h:976-980, 1058); at
  the end of the key it may read a nibble past the end (:1024), which only an assertion guards; and
  it takes a lone branch value for a hash (:1043, 943): one of more than 32 bytes throws, one that
  is the hash of a stored two-item node has that node grafted in its place. `DeleteCompletesIff`
  says exactly when none of this happens, `AliasMisgrafted` and `OverrunHits` give inputs; over
  prefix-free keys it never does. Where an assertion guards, the models follow a build without
  assertions: a missing node throws unless the key is exhausted.
- `place` kills the hash of a branch that was never stored (libdevcore/TrieDB.h:1072-1087). Such a
  node is not canonical, so no count is lost (`NeverStored`).
- `EthashAux::number` refuses the seed hash of epoch 2048 but leaves it in its cache, so that a
  second call accepts it (`RefusedThenAccepted`).
- The fill and the hash cut node and page counts to 32 bits; from 256 GiB on the hash can ask for
  nodes that the fill did not write (`InBoundsIff`). The size check of the hash accepts multiples
  of 32, that of the fill only multiples of 128.
- `enact` accepts a header whose state root equals the parent's whatever the state is
  (libethereum/Block.cpp:666; `StaleRootAccepted`).
- The producer never picks a child of the genesis block as an uncle, although the validator would
  accept one (`EligibleIff`, `GenesisChildNotPicked`).
- A RangeMask subtracted from itself is left unchanged (`RangeMask.Subtract`).
- Before Homestead the raised difficulty can wrap below the lowered one (`FrontierIff`).
- A gas limit step of one or two can give a child limit that is refused (`ChildGasLimitInputs`,
  `StepOfTwoRefused`).

## Model

| member | source | states |
|---|---|---|
| `TrieRun.RootOfRun` | libdevcore/TrieDB.h:782-1199 | after any finished run of inserts, removes and flushes from an empty trie the root node is that of the canonical trie of the resulting map, equals what rlp256 builds from the map, the root is its hash, and check(true) holds, with a disk or without; the run finishes if no removal may be blocked, only if none surely is, and exactly so when no value is the hash of a node |
| `TrieRun.Run` | libdevcore/TrieDB.h:782-939 | the same on any valid trie: a finished run leaves the map the operations describe, every node resolvable across flushes, and exact counts exact |
| `TrieRun.RunOne` | libdevcore/TrieDB.h:782-939 | a single operation finishes exactly when it is no removal that keys, values and store block |
| `TrieRun.FlushedStateSurvives` | libdevcore/OverlayDB.cpp:48-123 | after a flush and any later run, finished or ended by an exception, rolling back and reopening the flushed root gives the flushed contents; the later run finishes if no removal in it may be blocked, and only if none surely is |
| `TrieRun.PrefixFreeClear` | libdevcore/TrieDB.h:952-1070 | runs over a prefix-free set of keys never meet a blocked removal |
| `TrieRun.BlockedBounds` | libdevcore/TrieDB.h:941-1070 | the map alone bounds the blocked removals from both sides, whatever else the store holds |
| `TrieRun.PlainDecides` | libdevcore/TrieDB.h:941-1070 | when no value is the hash of a node the two bounds coincide and the map alone decides |
| `Trie.CanonicalUnique` | libdevcore/TrieDB.h:838-1199 | two canonical tries with the same contents are the same trie |
| `Trie.Fork` | libdevcore/TrieDB.h:952-1053 | below every branch of a canonical trie two stored keys part at the next nibble |
| `TrieInsert.InsertGet` | libdevcore/TrieDB.h:838-927 | insertion is map update: the key reads back its value, every other key is unchanged, for arbitrary keys |
| `TrieInsert.InsertCanonical` | libdevcore/TrieDB.h:838-927 | insertion of a non-empty value keeps a trie canonical |
| `TrieInsert.CleveStep` | libdevcore/TrieDB.h:1116-1131 | splitting a node after the shared nibbles does not change what the insertion arrives at and leaves it a direct step |
| `TrieInsert.BranchStep` | libdevcore/TrieDB.h:1171-1199 | turning a two-item node into a branch does not change what the insertion arrives at |
| `TrieDelete.DeleteGet` | libdevcore/TrieDB.h:952-1070 | a removal that succeeds is map deletion, and one that finds nothing had nothing to delete |
| `TrieDelete.DeleteCanonical` | libdevcore/TrieDB.h:952-1070 | a removal that succeeds leaves the trie canonical: no branch with one entry, no extension over a two-item node |
| `TrieBlocked.DeleteCompletesIff` | libdevcore/TrieDB.h:952-1053 | a removal is carried out, or finds nothing, exactly when none of these holds: a stored key ends inside the removed key with nothing beyond it and following its value as a hash finds something or fails; the absent key stops at a fork; the key is the only continuation of one whose value exceeds 32 bytes or names a stored two-item node |
| `TrieMisgraft.MisgraftGet` | libdevcore/TrieDB.h:1041-1046 | of the removal on plain trees: when a branch value names a two-item node, that key and the removed one are lost and the contents of the named node appear in their place, everything else unchanged |
| `TrieBlocked.PrefixFreeCompletes` | libdevcore/TrieDB.h:952-1053 | over prefix-free keys a removal is always carried out |
| `TrieStore.GenericTrieDB.UniqueInUse` | libdevcore/TrieCommon.cpp:116-128 | the loop finds the one slot in use, and 255 exactly when two are in use or none is |
| `TrieScope.HashInjective` | libdevcore/TrieDB.h:294-299 | where no two nodes of the scope collide, a hash determines its whole tree |
| `TrieScope.WithinInserted` | libdevcore/TrieDB.h:838-927 | insertion of a pair of the scope stays in the scope |
| `TrieProbe.AliasMisgrafted` | libdevcore/TrieDB.h:1041-1046 | an input: with the hash of a stored leaf as value under aa, removing aabb loses that value and puts the leaf under aa1 |
| `TrieProbe.OverrunHits` | libdevcore/TrieDB.h:974-985 | an input: removing a key that was never stored edits the node that the value of a shorter key names |
| `TrieProbe.FollowMeans` | libdevcore/TrieDB.h:974-985 | running past a leaf whose value names a tree that can be looked up is harmless iff the rest of the key is not stored in that tree and removing it from there would not be blocked either |
| `TrieProbe.ProbeIsDelete` | libdevcore/TrieDB.h:952-1062 | below such a tree the descent finds nothing iff removing the key from the tree would find nothing |
| `TrieStore.GenericTrieDB.SearchNode` | libdevcore/TrieDB.h:952-1062 | the descent through values taken for hashes reads only and finds what the store holds there, with its four ways to fail |
| `TrieNode.OccKidsUpdate` | libdevcore/TrieDB.h:297-306 | replacing one child changes the occurrences of every hash by exactly that child's share |
| `OverlayStore.OverlayDB.Lookup` | libdevcore/OverlayDB.cpp:125-132 | exactly what is on disk or in the table (referenced, if references are enforced) is found, under its own hash |
| `OverlayStore.OverlayDB.Exists` | libdevcore/OverlayDB.cpp:134-139 | what is on disk or referenced exists, and with enforced references nothing else |
| `OverlayStore.OverlayDB.Insert` | libdevcore/MemoryDB.cpp:86-102 | one reference more to that node, nothing else changes |
| `OverlayStore.OverlayDB.Kill` | libdevcore/MemoryDB.cpp:104-131 | one reference less where there is one; a count never goes below zero, entries stay |
| `OverlayStore.OverlayDB.Commit` | libdevcore/OverlayDB.cpp:48-100 | the disk gains exactly the referenced entries, the table is emptied, and no reference is lost on the way |
| `OverlayStore.OverlayDB.Rollback` | libdevcore/OverlayDB.cpp:117-123 | the table is emptied, the disk untouched |
| `OverlayStore.OverlayDB.Purge` | libdevcore/MemoryDB.cpp:160-178 | unreferenced entries go, every count stays |
| `OverlayStore.OverlayDB.Keys` | libdevcore/MemoryDB.cpp:180-190 | the hashes with a positive count |
| `TrieStore.GenericTrieDB.constructor` | libdevcore/TrieDB.h:75 | a fresh trie is empty and adds one reference to the empty node |
| `TrieStore.GenericTrieDB.SetRoot` | libdevcore/TrieDB.h:77-88 | finds the root iff it can be looked up or is the empty one, which is created when missing; a root whose nodes are on disk or counted gives back its trie |
| `TrieStore.GenericTrieDB.Insert` | libdevcore/TrieDB.h:782-794 | map update on the stored trie, and the references to every hash move by the change in occurrences |
| `TrieStore.GenericTrieDB.Remove` | libdevcore/TrieDB.h:929-939 | carried out iff nothing blocks it, then map deletion with the same count law; an absent key changes neither root nor store; an exception leaves the root, and the store too unless it is the one for a long branch value, which loses exactly the references of the removed leaf and its branch |
| `TrieStore.GenericTrieDB.At` | libdevcore/TrieDB.h:796-799 | reads the value stored under the key, empty if none |
| `TrieStore.GenericTrieDB.AtAux` | libdevcore/TrieDB.h:801-831 | reads the value below a node |
| `TrieStore.GenericTrieDB.MergeAt` | libdevcore/TrieDB.h:838-908 | returns the stored form of the inserted tree and moves counts by the change in occurrences |
| `TrieStore.GenericTrieDB.MergeAtAux` | libdevcore/TrieDB.h:910-927 | the same through a reference to a child, resolving and re-storing it |
| `TrieStore.GenericTrieDB.DeleteAt` | libdevcore/TrieDB.h:952-1053 | nothing, a fault, or the stored form of the deleted tree, as the plain tree deletion says, with exact counts and the store untouched where nothing was changed |
| `TrieStore.GenericTrieDB.DeleteAtAux` | libdevcore/TrieDB.h:1055-1070 | the same through a reference to a child |
| `TrieStore.GenericTrieDB.Rejig` | libdevcore/TrieDB.h:992-1050 | a branch that lost an entry becomes the stored form of its canonical replacement, with exact counts; a value that names a two-item node makes that node lose a reference |
| `TrieStore.GenericTrieDB.Graft` | libdevcore/TrieDB.h:1133-1154 | an extension over a two-item node becomes one node and the inner node loses its reference |
| `TrieStore.GenericTrieDB.Cleve` | libdevcore/TrieDB.h:1116-1131 | a node split after some nibbles, stored, with its counts |
| `TrieStore.GenericTrieDB.Branch` | libdevcore/TrieDB.h:1171-1199 | a two-item node as a branch, stored, with its counts |
| `TrieStore.GenericTrieDB.StreamNode` | libdevcore/TrieDB.h:1107-1114 | a node of 32 bytes or more is stored and referred to by hash, a smaller one is inlined |
| `TrieStore.GenericTrieDB.KillNode` | libdevcore/TrieDB.h:305-306 | drops the reference of a node of 32 bytes or more |
| `TrieStore.GenericTrieDB.NeverStored` | libdevcore/TrieDB.h:1072-1087 | the intermediate node whose hash place() kills can have no reference, so the kill is harmless |
| `TrieStore.GenericTrieDB.Deref` | libdevcore/TrieDB.h:947-950 | resolves a reference to the stored form of its tree |
| `TrieStore.GenericTrieDB.ReplaceRoot` | libdevcore/TrieDB.h:786-793 | the old root loses its reference, the new one gains one, and nothing else moves |
| `TrieCheck.LeftOvers` | libdevcore/TrieDB.h:163-213 | exactly the referenced hashes that do not occur in the trie |
| `TrieCheck.Check` | libdevcore/TrieDB.h:223-234 | check(true) holds iff every referenced hash occurs in the trie, and so on every trie that has its store to itself, flushed or not |
| `TrieCheck.DescendList` | libdevcore/TrieDB.h:186-205 | the walk erases exactly the hashes occurring below a node and never finds a canonical trie invalid |
| `TrieHash.Rlp256` | libdevcore/TrieHash.cpp:94-105 | the root node of the one canonical trie with the listed contents |
| `TrieHash.Hash256` | libdevcore/TrieHash.cpp:107-110 | the root hash of that trie |
| `TrieHash.Hash256Rlp` | libdevcore/TrieHash.cpp:27-79 | the node of a canonical trie holding exactly the entries of the range |
| `TrieHash.Hash256Aux` | libdevcore/TrieHash.cpp:81-92 | the reference, inlined or hashed, to such a node |
| `TrieHash.SharedPrefix` | libdevcore/TrieHash.cpp:38-48 | the longest prefix shared by all keys of the range |
| `TrieHash.Enumerate` | libdevcore/TrieHash.cpp:55-77 | the branch that distributes the entries of the range over its slots |
| `TrieIterator.Collect` | libdevcore/TrieDB.h:510-770 | iteration from lower_bound(k) yields exactly the stored keys not below k, each once, ascending, with its own value |
| `TrieIterator.Iterator.Begin` | libdevcore/TrieDB.h:510-515 | begin() stands before all entries in order |
| `TrieIterator.Iterator.LowerBound` | libdevcore/TrieDB.h:517-522 | lower_bound stands on the first entry not below the key, at the end iff there is none |
| `TrieIterator.Iterator.Next` | libdevcore/TrieDB.h:673-770 | ++ moves to the first of the entries ahead, to the end iff there is none |
| `TrieIterator.Iterator.At` | libdevcore/TrieDB.h:524-533 | the entry the trail stands on |
| `TrieIterator.Walk` | libdevcore/TrieDB.h:535-770 | the loop over the trail ends on the first wanted entry or with an empty trail |
| `TrieIterator.EnterTwoItem` | libdevcore/TrieDB.h:573-614 | a leaf or extension is entered, passed or skipped without losing or repeating an entry |
| `TrieIterator.EnterBranch` | libdevcore/TrieDB.h:615-639 | the slot to look at first, on entering a branch or going on in it, leaves exactly the wanted entries ahead |
| `TrieIterator.Scan` | libdevcore/TrieDB.h:641-669 | the scan of the slots stops on the value, enters a child or leaves the branch without losing or repeating an entry |
| `TrieIterator.Drain` | libdevcore/TrieDB.h:673-770 | repeated ++ yields all entries ahead in order and ends with an empty trail |
| `TrieOrder.EntriesList` | libdevcore/TrieDB.h:510-770 | the in-order entries of a canonical tree are the sorted listing of its contents |
| `TrieCommon.SharedNibbles` | libdevcore/TrieCommon.h:38-48 | the length of the longest common prefix |
| `TrieCommon.Contains` | libdevcore/TrieCommon.h:65-66 | true iff the argument is a prefix |
| `TrieCommon.IsEarlierThan` | libdevcore/TrieCommon.h:69-85 | true iff lexicographically before |
| `TrieCommon.HexPrefixRoundTrip` | libdevcore/TrieCommon.h:97-112 | key and leaf flag read back from the hex-prefix form |
| `TrieCommon.HexPrefixForms` | libdevcore/TrieCommon.h:97-112 | exactly which byte strings re-encode to themselves: two flags only, zero padding |
| `TrieCommon.HexPrefixEncodeVector` | libdevcore/TrieCommon.cpp:46-61 | writes the hex-prefix form of a range of a nibble vector |
| `TrieCommon.HexPrefixEncode` | libdevcore/TrieCommon.cpp:63-82 | writes the hex-prefix form of a range of nibbles of a byte string |
| `TrieCommon.HexPrefixEncode2` | libdevcore/TrieCommon.cpp:84-114 | writes the hex-prefix form of two nibble slices joined |
| `TrieBytes.SizeIs` | libdevcore/TrieDB.h:1107-1114 | the size that decides between inlining and hashing is the length of the node's RLP bytes |
| `TrieBytes.NodeReadBack` | libdevcore/TrieDB.h:838-927 | a node is recovered from its RLP items |
| `TrieBytes.BytesReadBack` | libdevcore/TrieDB.h:838-927 | a node is recovered from its bytes, so no two nodes share their bytes |
| `TrieBytes.CollisionIsByteCollision` | libdevcore/TrieDB.h:297 | two nodes collide only where the byte hash itself collides |
| `TrieDigest.RootBytesOfRun` | libdevcore/TrieHash.cpp:94-110 | with a 32-byte hash of node bytes that has no collision between nodes of the run's scope, the root node's bytes after any finished run are those rlp256 builds from the map, and the root is their hash |
| `TrieDigest.NoCollisionIff` | libdevcore/TrieDB.h:297 | what the trie asks of the node hash holds iff the byte hash has no collision between the bytes of the scope's nodes |
| `TrieDigest.AskedForExists` | libdevcore/TrieDB.h:297 | a 32-byte hash that meets it, for one scope |
| `Rlp.DecodeEncode` | libdevcore/RLP.cpp:159-228 | strict decoding of an encoding returns the item tree |
| `Rlp.EncodeDecode` | libdevcore/RLP.cpp:159-228 | bytes that the strict decoder accepts re-encode to themselves, so wrapped single bytes and non-minimal lengths are rejected |
| `Rlp.RlpBijection` | libdevcore/RLP.cpp:29-130 | acceptance with a given tree iff the bytes are that tree's encoding |
| `Rlp.EncodeInjective` | libdevcore/RLP.cpp:108-117 | different item trees have different encodings |
| `Rlp.SizeRead` | libdevcore/RLP.cpp:108-117 | the size read from an encoding with anything behind it is the encoding's length |
| `Rlp.HeaderRead` | libdevcore/RLP.cpp:159-215 | a written header is read back as the length it was written for |
| `RlpWriter.StreamWritesEncoding` | libdevcore/RLP.cpp:230-349 | on a fresh stream the calls for an item tree leave exactly its encoding and no open list |
| `RlpWriter.FeedItem` | libdevcore/RLP.cpp:237-315 | on any stream the calls for an item tree act as appending its encoding as one item, closing lists at any depth |
| `RlpWriter.StackEmptyIff` | libdevcore/RLP.cpp:237-284 | the list stack is empty iff the items appended fill all declared slots |
| `RlpWriter.SizeNeedsEight` | libdevcore/RLP.cpp:342-349 | a count takes at most eight bytes iff it is a size_t |
| `RlpWriter.WriteItem` | libdevcore/RLP.cpp:230-349 | driving a stream through appendList and append writes the encoding |
| `RlpWriter.WriteTokens` | libdevcore/RLP.cpp:230-349 | any sequence of calls changes the stream as the token function says |
| `RlpWriter.RLPStream.NoteAppended` | libdevcore/RLP.cpp:237-274 | closes every list that becomes complete, patching its header in, or throws when a list is overfull |
| `RlpWriter.RLPStream.PatchHeader` | libdevcore/RLP.cpp:251-270 | the payload moves up and the header of its length lands before it |
| `RlpWriter.RLPStream.Append` | libdevcore/RLP.cpp:296-315 | appends the encoding of a string, without its leading zeros if compact, and notes one item |
| `RlpWriter.Strip` | libdevcore/RLP.cpp:300-301 | the loop over leading zeros leaves a string that says the same number and starts with no zero |
| `RlpWriter.RLPStream.AppendList` | libdevcore/RLP.cpp:276-294 | opens a list, or appends the empty one as an item |
| `RlpWriter.RLPStream.PushInt` | libdevcore/RLP.h:455-462 | the big-endian bytes written backwards into the room made for them |
| `RlpReader.AccessAll` | libdevcore/RLP.cpp:76-91 | any sequence of accesses through one cache, in or out of range, gives what positional decoding gives |
| `RlpReader.RLP.At` | libdevcore/RLP.cpp:76-91 | the same for one access from any state of the cache |
| `RlpReader.WalkTo` | libdevcore/RLP.cpp:84-89 | the walk stops on the wanted item or on the first index past the end, with a truthful cache |
| `RlpReader.RLP.ItemCount` | libdevcore/RLP.cpp:217-228 | the number of items of a well-formed list |
| `RlpReader.RLP.Iterate` | libdevcore/RLP.cpp:48-74 | the iterator visits every item in order and ends |
| `RlpReader.EncodedCuts` | libdevcore/RLP.cpp:217-228 | the payload of an encoded list is well formed and its items are the encodings of the list's items |
| `RangeMasks.Merge` | libdevcore/RangeMask.h:233-291 | the loop ends, adds exactly the range, and keeps the intervals non-empty, sorted, disjoint and non-adjacent |
| `RangeMasks.RangeMask.UnionWithRange` | libdevcore/RangeMask.h:233-291 | the same on the mask itself |
| `RangeMasks.RangeMask.UnionWith` | libdevcore/RangeMask.h:102-109 | the union of the members and of the ground ranges, also of a mask with itself |
| `RangeMasks.RangesUnique` | libdevcore/RangeMask.h:217-221 | two masks in that form with the same members are stored alike |
| `RangeMasks.RangeMask.Inverted` | libdevcore/RangeMask.h:78-91 | the complement within the ground range, in the same form |
| `RangeMasks.Complement` | libdevcore/RangeMask.h:78-91 | the loop over the gaps gives the complement of any stored intervals within the ground range |
| `RangeMasks.RangeMask.Invert` | libdevcore/RangeMask.h:93-95 | the mask becomes its complement |
| `RangeMasks.InvertTwice` | libdevcore/RangeMask.h:93-95 | complementing in place twice passes through the complement and restores the stored intervals |
| `RangeMasks.ComplementTwice` | libdevcore/RangeMask.h:78-91 | a mask that complements the complement of a mask has the very intervals of that mask |
| `RangeMasks.RangeMask.Subtract` | libdevcore/RangeMask.h:97-98 | set difference, except that a mask subtracted from itself is left as it was |
| `RangeMasks.RangeMask.Contains` | libdevcore/RangeMask.h:123-129 | membership |
| `RangeMasks.RangeMask.Next` | libdevcore/RangeMask.h:181-192 | the smallest larger member, or the end of the ground range; after 2^32 - 1 the search wraps to zero |
| `RangeMasks.RangeMask.Members` | libdevcore/RangeMask.h:157-180 | iteration visits exactly the members, ascending |
| `RangeMasks.RangeMask.Size` | libdevcore/RangeMask.h:194-201 | the number of members |
| `RangeMasks.RangeMask.Full` | libdevcore/RangeMask.h:136-139 | true iff every element of the ground range is a member |
| `RangeMasks.RangeMask.FirstOut` | libdevcore/RangeMask.h:203-208 | the first element that is no member |
| `EthashDag.FullEqualsLight` | libethash/internal.c:185-294 | over a data set filled from the cache the full computation gives the light computation's result and mix hash, for every header, nonce, and size whose pages fit |
| `EthashDag.InBoundsIff` | libethash/internal.c:156-183 | with the 32-bit truncations, every node the hash can ask for was written by the fill iff the truncated page count is below 2^31; all sizes under 256 GiB qualify |
| `EthashDag.MixAgrees` | libethash/internal.c:216-257 | the mix after any number of accesses depends only on the nodes of reachable pages |
| `EthashMemory.CalculateDagItem` | libethash/internal.c:93-154 | the in-place rounds leave the data-set item in its place and every other word alone |
| `EthashMemory.BlendParents` | libethash/internal.c:116-152 | the parent loop, each parent chosen by the node's current words, equals the recursive definition |
| `EthashMemory.ComputeFullData` | libethash/internal.c:156-183 | succeeds iff the size is whole pages and the callback never stops it, and then has filled every node the 32-bit count covers with its item |
| `EthashMemory.Hash` | libethash/internal.c:185-294 | fails iff the size is no multiple of 32, else gives the functional hash over the array or over the cache, no read leaving the array |
| `EthashMemory.Access` | libethash/internal.c:213-257 | the access loop over the mix buffer equals the recursive definition |
| `EthashMemory.MixInPage` | libethash/internal.c:219-255 | one page blended into the two halves of the mix |
| `EthashMemory.CompressMix` | libethash/internal.c:276-284 | the in-place compression equals its functional form although it overwrites what it reads |
| `EthashMemory.Finish` | libethash/internal.c:276-294 | the final hash is taken over the seed's bytes and the compressed mix |
| `EthashMemory.ComputeQuickHash` | libethash/internal.c:296-310 | the buffer written in place gives, for the mix hash of any full or light computation, that computation's result |
| `EthashMemory.CheckDifficulty` | libethash/internal.h:54-67 | the byte-wise comparison is the numeric one on big-endian numbers |
| `EthashMemory.FirstDifference` | libethash/internal.h:59-65 | the first differing byte decides the order of the numbers |
| `EthashWords.BytesOfWords` | libethash/internal.h:25-36 | bytes written and seen through the words of a node are unchanged |
| `EthashWords.XorBound` | libethash/fnv.h:30-35 | exclusive or stays within the width of its operands |
| `EthashSeal.Eval` | libethashseal/EthashAux.cpp:250-259 | the value over the loaded data set, over the cache, or the fixed fallback; an exception only from the full computation |
| `EthashSeal.EvalFilled` | libethashseal/EthashAux.cpp:250-259 | the value does not depend on whether the full data set is loaded; with neither data set nor cache it is the fallback |
| `EthashSeal.SlowImpliesQuick` | libethashseal/Ethash.cpp:255-284 | the slow condition implies the quick one below epoch 2048, for the fallback value too |
| `EthashSeal.QuickVerifySeal` | libethashseal/Ethash.cpp:238-253 | true iff the number is below 2048 epochs and the quick hash is at most the boundary |
| `EthashSeal.VerifySeal` | libethashseal/Ethash.cpp:255-284 | true iff the number is below 2048 epochs and the evaluated value meets the slow condition: the quick check turns nothing else away, also when evaluation falls back |
| `EthashSeal.HashLess` | libdevcore/FixedHash.h:97 | the byte-wise order of hashes is the numeric one |
| `EthashSeal.HashAtMost` | libdevcore/FixedHash.h:99 | the same for at most |
| `EthashEpochs.GetSeedHash` | libethash/internal.c:312-320 | zero hashed once for each epoch |
| `EthashEpochs.EthashAux.SeedHash` | libethashseal/EthashAux.cpp:68-90 | the cached seed hash is the computed one, and the cache only grows |
| `EthashEpochs.EthashAux.Number` | libethashseal/EthashAux.cpp:92-111 | a first block of an epoch with that seed hash; on a cache miss an exception iff no epoch below 2048 has it |
| `EthashEpochs.Search` | libethashseal/EthashAux.cpp:99-101 | the walk finds the first epoch with the seed hash and notes every epoch it passes |
| `EthashEpochs.EthashAux.RoundTrip` | libethashseal/EthashAux.cpp:68-111 | number(seedHash(n)) is the first block of n's epoch whatever is cached, if no two epochs share a seed hash |
| `EthashEpochs.EthashAux.RefusedThenAccepted` | libethashseal/EthashAux.cpp:99-106 | the seed hash of epoch 2048 is refused by an empty cache and accepted right after |
| `EthashHeader.ChildGasLimitIff` | libethashseal/Ethash.cpp:171-180 | for every parent and target, the producer's gas limit is accepted by verify iff it lies within the absolute limits and the step condition holds |
| `EthashHeader.ChildGasLimitInputs` | libethashseal/Ethash.cpp:171-180 | where no sum wraps, the same as a condition on the parent's limit, the gas floor, the step and the share alone |
| `EthashHeader.ChosenIff` | libethashseal/Ethash.cpp:171-180 | the chosen limit is strictly within one step of the parent's iff there is a step and, for a falling limit, the share for gas used leaves room, with the cases of wrapping sums |
| `EthashHeader.ChildGasLimitAccepted` | libethashseal/Ethash.cpp:116-128 | so every parent within its own limit, with a step of at least three and the limits in range, gets an accepted child limit |
| `EthashHeader.StepOfTwoRefused` | libethashseal/Ethash.cpp:116-128 | with a step of two a full parent gets a child limit that verify refuses |
| `EthashHeader.CalculateDifficulty` | libethashseal/Ethash.cpp:187-229 | at least the minimum difficulty, an exception exactly for a genesis block |
| `EthashHeader.SlowerIsEasier` | libethashseal/Ethash.cpp:199-213 | a later timestamp never raises the difficulty, before Homestead provided the raised one does not wrap |
| `EthashHeader.FrontierIff` | libethashseal/Ethash.cpp:198-200 | before Homestead a late block is no harder than one in time iff the raised difficulty does not wrap or the bound divisor is one, or the minimum or maximum hides it |
| `EthashHeader.RaisedIff` | libethashseal/Ethash.cpp:198-200 | before Homestead the raised difficulty is not below the lowered one iff the sum does not wrap or the bound divisor is one |
| `EthashHeader.FrontierWraps` | libethashseal/Ethash.cpp:198-200 | an input: at the largest difficulty the block in time is the easier one |
| `EthashHeader.PopulatedAccepted` | libethashseal/Ethash.cpp:231-236 | a header populated from its parent passes verify's difficulty and gas checks |
| `BlockTree.AllKinFrom` | libethereum/BlockChain.cpp:1377-1391 | the block, its ancestors of so many generations and the uncles these cite |
| `BlockTree.AncestorNumber` | libethereum/BlockChain.cpp:1377-1391 | ancestors are known down to the genesis block, each one number lower |
| `BlockTree.AncestorIsKin` | libethereum/BlockChain.cpp:1377-1391 | every ancestor of so many generations is kin |
| `BlockTree.CitedIsKin` | libethereum/BlockChain.cpp:1377-1391 | every uncle they cite is kin |
| `BlockTree.KinIs` | libethereum/BlockChain.cpp:1377-1391 | there are no other kin |
| `Uncles.ExpectedParent` | libethereum/Block.cpp:635-636 | the walk arrives at the ancestor of that depth |
| `Uncles.CheckUncle` | libethereum/Block.cpp:584-644 | accepts iff the uncle is new, of depth one to six, follows its parent, and that parent is the expected ancestor; each fault is reported exactly when it is the first that applies |
| `Uncles.EnactUncles` | libethereum/Block.cpp:563-654 | accepts iff at most two uncles, all different, none excluded, each related; all of them are rewarded |
| `Uncles.PickUncles` | libethereum/Block.cpp:768-793 | at most two different eligible uncles, and all eligible ones if fewer than two are picked |
| `Uncles.PickChildren` | libethereum/Block.cpp:780-791 | the same over the children of one ancestor |
| `Uncles.EligibleIff` | libethereum/Block.cpp:768-793 | the producer looks for exactly the known blocks that the validator lets through, less the children of the genesis block |
| `Uncles.GenesisChildNotPicked` | libethereum/Block.cpp:776-778 | a chain on which the validator accepts a child of the genesis block and the producer picks nothing |
| `Uncles.PickedAccepted` | libethereum/Block.cpp:563-654 | every list the producer picks passes the validator's checks, also on a chain that has grown since |
| `Uncles.UncleOffBranch` | libethereum/Block.cpp:572-594 | in a chain of accepted blocks no cited uncle is an ancestor of the block citing it |
| `Uncles.UncleOnce` | libethereum/Block.cpp:572-594 | in a chain of accepted blocks a block and an ancestor of it never cite the same uncle |
| `Uncles.ImportKeeps` | libethereum/Block.cpp:563-654 | importing an accepted block keeps the tree well formed and every block in it accepted |
| `Rewards.ApplyRewards` | libethereum/Block.cpp:707-716 | the loop pays as the reward function says |
| `Rewards.RewardedBalance` | libethereum/Block.cpp:707-716 | every address ends with its balance, its uncle credits and, for the author, the reward plus a thirty-second of it per uncle, modulo 2^256; nothing else changes |
| `Sealing.Block.constructor` | libethereum/Block.cpp:124-143 | a reset block has no transactions, is neither committed nor sealed |
| `Sealing.Block.Execute` | libethereum/Block.cpp:683-705 | takes rewards back first, then appends the transaction iff unsealed, kept and the execution does not throw; reverted, it leaves the pending state |
| `Sealing.Block.CommitToSeal` | libethereum/Block.cpp:756-847 | the state is that of the transactions with the rewards applied once, however often it was committed before; refused on a sealed block |
| `Sealing.Block.UncommitToSeal` | libethereum/Block.cpp:849-856 | the state without rewards again |
| `Sealing.Block.SealBlock` | libethereum/Block.cpp:858-884 | seals iff committed and under the header committed to; the state returns to the one before rewards |
| `Sealing.Prepare` | libethereum/Block.cpp:768-844 | the header describes the transactions, uncles and the state with rewards |
| `Sealing.Perform` | libethereum/Block.cpp:683-884 | over any sequence of operations the transactions are the old ones followed by those executed with an answer of true and kept, in order; every answer is the one the operations before it call for; a committed state is that of the transactions with the rewards applied exactly once, any other the one without |
| `Sealing.PerformOne` | libethereum/Block.cpp:683-884 | one operation: what it adds to the transactions, when it answers true, and what it does to the committed and sealed marks |
| `Sealing.Replay` | libethereum/Block.cpp:514-538 | the replay equals the run of the transactions |
| `Sealing.Enact` | libethereum/Block.cpp:489-681 | accepts iff replay, receipts root, bloom, uncles, state root and gas agree with the header, and ends in the rewarded state |
| `Sealing.StaleRootAccepted` | libethereum/Block.cpp:661-681 | an input: the rewards change the state root and a header that still states its parent's root is accepted, any root but these two refused |
| `Sealing.SealedAccepted` | libethereum/Block.cpp:489-681 | every block sealed after any operations is acceptable to a validator with the same parent state and at least the producer's chain |

## Left out

- TrieStore.GenericTrieDB.constructor: the store may hold trie nodes of the scope only, not contract code or nodes of other keys and values.
- TrieStore.GenericTrieDB.Insert: requires a non-empty value, as the callers guarantee; an empty value would leave a non-canonical node.
- TrieStore.GenericTrieDB.Remove: once it edits a node that a value named, or reads past the end of a key, the further course is not modelled; what a misgraft does to the contents is stated by `MisgraftGet`, its further counts are not.
- OverlayStore.OverlayDB.Commit: one atomic step, without the retry loop and the process exit after ten failures.
- OverlayStore.OverlayDB.Insert: counts are unbounded; the 32-bit counter of the original would wrap after 2^32 references to one node.
- RlpWriter.RLPStream.Append: integers are appended through their bytes, append(bigint) is not modelled.
- EthashDag.FullEqualsLight: asks for fewer than 2^31 pages after truncation, the exact condition for every access to hit a filled node.
- EthashMemory.ComputeFullData: the scalar code path only, not the SSE and MIC ones.
- EthashEpochs.GetSeedHash: from 2^32 epochs on the 32-bit counter of the original never reaches its bound and the loop does not end; the model's counter is unbounded.
- Sealing.Block.Execute: committed and reverted permanence; uncommitted execution and the result handed to the caller are not modelled.
- Sealing.Enact: starts from the parent's state as given; the total difficulty returned and the database rollback before a throw are not modelled.
- EthashHeader.SlowerIsEasier: before Homestead asks that the raised difficulty does not wrap; `FrontierIff` has the exact condition.
- Keccak, signatures and all other cryptography: arbitrary functions, without collisions in the scope of a trie.
- The cache of Ethash (ethash_compute_cache_nodes) and the tables of its sizes: the results hold for every cache and size.
- Secure and fat trie variants, m_aux, lookupAux, and the guards for concurrent access in the stores.
- RLP conversions to integers, strings and containers, and the non-strict decoding flags.
- RangeMask::lowest and lastIn: they would only add easy members.
- orderedTrieRoot: hash256 of a map keyed by encoded positions, nothing of its own.
- Copying and assigning a Block, and Block::sync with its wall-clock deadline.
- State, Executive, BlockChain, the transaction queue, networking, key management, the command-line tools: outside these models.
