# lab-bcos: state trie, encodings and wire parsers

A Dafny model of the parts of lab-bcos that decide what a node stores and what it reads off the
wire, with proofs of what they promise. `dafny verify dfyconfig.toml` checks the whole project.

**The state trie.** `Rlp`, `RlpStream` and `RlpView` model the Recursive Length Prefix format
(Appendix B of the Ethereum Yellow Paper): the writer with its stack of open lists, the strict
reader, and the list view with its remembered position. `HexPrefix` models the compact key notation
(Appendix C). `Trie`, `TrieDelete`, `TrieFault` and `TrieBuild` treat the Merkle Patricia
trie (Appendix D) as a tree of values; `TrieHash` and `MapHash` model the hash of a map
computed from scratch. `NodeStore` is the reference-counted store, with or without a disk behind it
(`OverlayDB` and `MemoryDB`). `TrieDb` is the stored trie itself: insertion, removal, lookup and
commit on encoded nodes, each proved against the tree that the root stands for. `TrieRefs`,
`TrieSteps` and `TrieDeleteSteps` hold the bookkeeping of references behind it. `TrieCanon` and
`TrieRun` put the parts together: whatever the history, the root is the hash of the map of
contents (and by `TrieBinding` it commits to that map), every reference count is the number of
mentions in the unfolded tree, and every node can be read back. `TrieWalk` and `TrieIterator` do the
same for iteration and lower bounds.

**Blocks.** `Block` models the cached lists of transactions and receipts of a block, their cached
roots, and the check that recomputes the root of the transactions from the encoded block.

**Other parts.** `RangeMask` models the set of numbers kept as ranges; `HttpBody` and `HttpUrl` the
body framing and the URL machines of the HTTP parser (sections 3.6.1 and 4.4 of RFC 2616). `Numerals`
and `UrlGrammar` say what numerals and URLs are without reference to the parser, and `UrlMatch` proves
that the parser takes exactly these URLs. `Channel` models the reassembly of length-prefixed messages,
`Abi` the contract ABI. `Options` and `Pieces` are small shared definitions.

How the model reads the program:

- The hash function is a parameter `H`. Where the program relies on hashes being distinct, the
  contracts say so of the byte strings in play only (`CollisionFree(H, U)`): those in the store,
  those of the tree and those that the operation writes. Nothing is assumed about other strings.
- A view of encoded bytes is modelled by the item tree that it decodes to. `Rlp.ParseEncode` and
  `Rlp.EncodeParse` prove that the two correspond one to one.
- Methods of the program that update fields are methods of a class here. Ghost fields hold the tree
  and the map that the fields stand for. The ghost parameters of the steps of `TrieDb` are the node
  that an item encodes, the references held elsewhere, and the byte strings in play.
- An exception is a result: an `Option`, a `Result`, an error field, or the value `Fault`.

Four findings that the proofs rest on:

- Insertion conserves reference counts for arbitrary keys. `place` kills the node it is given even
  when that node was just made and never stored, but then it is a branch with one slot in use, and
  no node of a trie in normal form is one (`TrieSteps.LonelyIsDead`).
- Removal is not total. On some keys the program goes astray: it takes a stored value for the mention
  of a node, or reads the next nibble of a key that is at its end. `TrieFault.FaultExactly` and
  `TrieDb.Remove` give these keys, one direction and the other, in terms of what is stored before
  the call. Keys of which none is a prefix of another are never among them. `ShortValueCanFault`
  shows that a value need not be too long for a hash to be taken for one.
- A sealed block passes its own check with fewer than 2^32 transactions and, unless hashes collide,
  with no more: the root is computed under positions cut to 32 bits and checked over a number cut to
  32 bits (`Block.RootsMeet`).
- Subtracting a range mask in place from itself leaves it as it was instead of emptying it, and
  subtraction adds numbers when the subtrahend has the larger ground range; `RangeMask.DifferenceExactly`
  gives the exact condition.

## Model

| member | source | states |
|---|---|---|
| Rlp.SizeOfEncoding | libdevcore/RLP.cpp:120-129 | the size read off the front of an encoding is the length of that encoding, whatever bytes follow |
| Rlp.HeaderIsCanonical | libdevcore/RLP.cpp:131-227 | any header that the reader accepts is the one the writer would have written: no spare length bytes, no leading zeros, no two-byte form of a single byte |
| Rlp.ParseEncode | libdevcore/RLP.cpp:40-58 | strict decoding of the encoding of any item tree gives back the tree |
| Rlp.EncodeParse | libdevcore/RLP.cpp:120-227 | any byte string that is accepted at every level re-encodes to itself, so accepted strings and items correspond one to one |
| Rlp.PrefixFree | libdevcore/RLP.cpp:229-240 | no encoding is a proper prefix of another: if two encodings with tails give the same bytes, items and tails are the same |
| Rlp.EncodeInjective | libdevcore/RLP.cpp:40-58 | different items have different encodings |
| Rlp.Format | libdevcore/RLP.cpp:295-336 | the bytes of the format in numbers: 128 and 192 in front of up to 55 bytes, 183 and 247 in front of the digits of a longer length, and a byte below 128 by itself |
| Rlp.ViewIs | libdevcore/RLP.cpp:40-58 | the bytes that a strict view accepts are exactly the encoded strings and the encoded payloads |
| Rlp.EncodeIntIsData | libdevcore/RLP.cpp:338-362 | the writer's case split for integers of any size comes to the encoding of the shortest big-endian byte string |
| Rlp.IntRoundTrip | libdevcore/RLP.h:376-397 | an integer that was written is read back |
| Rlp.IntCanonical | libdevcore/RLP.cpp:144-169 | bytes that are read as an integer are the ones written for that integer |
| RlpStream.NoteCloses | libdevcore/RLP.cpp:265-291 | the last item of an open list turns the bytes since its start into the encoded list and counts as one item of the list around it |
| RlpStream.EmitIsEncode | libdevcore/RLP.cpp:249-336 | writing a tree depth first has the same effect as appending its whole encoding as one item, also when one append closes several lists |
| RlpStream.EmitWhole | libdevcore/RLP.cpp:242-336 | a tree written to a fresh stream leaves no open list and exactly its encoding |
| RlpStream.WriteBigEndian | libdevcore/RLP.h:728-734 | the backward loop writes the big-endian digits and touches nothing else |
| RlpStream.BytesRequired | libdevcore/CommonData.h:254-263 | the loop counts the big-endian digits |
| RlpStream.InsertListHeader | libdevcore/RLP.cpp:265-289 | moving the payload and writing the header in front gives the encoded list in place |
| RlpStream.RlpStream.NoteAppended | libdevcore/RLP.cpp:249-293 | the loop over the list stack ends in the state of the specification, and reports the count that does not fit |
| RlpStream.RlpStream.AppendRaw | libdevcore/RLP.cpp:242-247 | raw bytes are appended and counted as the given number of items |
| RlpStream.RlpStream.PushInt | libdevcore/RLP.h:728-734 | exactly the digits of the number are appended |
| RlpStream.RlpStream.PushCount | libdevcore/RLP.cpp:364-371 | the length of a length and the length are appended, or nothing when there is no room for them |
| RlpStream.RlpStream.Append | libdevcore/RLP.cpp:315-336 | appending bytes is emitting a data item |
| RlpStream.RlpStream.AppendInt | libdevcore/RLP.cpp:338-362 | appending an integer is emitting its shortest big-endian form |
| RlpStream.RlpStream.AppendList | libdevcore/RLP.cpp:295-313 | a list of some items is opened; an empty list is emitted at once |
| RlpStream.RlpStream.Write | libdevcore/RLP.cpp:242-336 | a whole tree written through the stream's own methods adds its encoding as one item |
| RlpStream.RlpStream.WriteAll | libdevcore/RLP.cpp:242-336 | the items written one after the other through the methods of the stream leave it as the specification of depth-first writing does |
| RlpView.ScanStep | libdevcore/RLP.cpp:96-101 | one step of the scan goes from an item and its end to the next item and its end |
| RlpView.NothingPastTheEnd | libdevcore/RLP.cpp:96-102 | once the scan has run out every later index is empty |
| RlpView.ItemAtEncodeAll | libdevcore/RLP.cpp:88-103 | in the payload of a list the item at an index is the encoding of that item, and there is nothing past the last one |
| RlpView.CutEncodeAll | libdevcore/RLP.cpp:229-240 | the payload of an encoded list is cut into the encodings of its items |
| RlpView.SizeOfFront | libdevcore/RLP.h:478-481 | an item cut off by its size has that size by itself |
| RlpView.NthBehind | libdevcore/RLP.cpp:88-103 | whatever stands behind an item does not matter to reading it by its index, and is read on its own |
| RlpView.ListView.At | libdevcore/RLP.cpp:88-103 | for every sequence of requests the remembered position gives what a fresh scan from the left gives |
| RlpView.ListView.Items | libdevcore/RLP.cpp:229-240 | the number of items of the list |
| HexPrefix.SharedNibbles | libdevcore/TrieCommon.h:38-50 | the length of the longest common prefix of two slices |
| HexPrefix.IsEarlierThan | libdevcore/TrieCommon.h:86-98 | a slice is earlier than a prefix exactly when it is lexicographically less |
| HexPrefix.LessTotal | libdevcore/TrieCommon.h:86-98 | the order of nibble strings is total and asymmetric |
| HexPrefix.ToNibblesInjective | libdevcore/CommonData.cpp:116-126 | different byte strings have different nibbles |
| HexPrefix.NibblesOfByte | libdevcore/CommonData.cpp:116-126 | a byte is sixteen times its first nibble and its second |
| HexPrefix.EncodedNibbles | libdevcore/TrieCommon.cpp:30-61 | the nibbles of the notation are a flag of two for a leaf and one for an odd key, a zero where the key is even, and the key |
| HexPrefix.EncodedInverts | libdevcore/TrieCommon.h:110-125 | the key and the leaf flag are read back from the notation, for every key and flag |
| HexPrefix.EncodedOnto | libdevcore/TrieCommon.cpp:30-44 | every byte string with admissible flags is the notation of the key and flag read from it |
| HexPrefix.EncodeVector | libdevcore/TrieCommon.cpp:46-61 | the overload over a nibble vector gives the notation of the selected range |
| HexPrefix.EncodeSlice | libdevcore/TrieCommon.cpp:63-85 | the overload over packed bytes gives the notation of the same nibbles |
| HexPrefix.EncodeTwo | libdevcore/TrieCommon.cpp:87-118 | the overload over two slices gives the notation of their concatenation |
| Trie.AtCleve | libdevcore/TrieDB.h:1193-1208 | cutting a node in two changes no lookup |
| Trie.AtToBranch | libdevcore/TrieDB.h:1251-1279 | turning a two-item node into a branch changes no lookup |
| Trie.AtMerged | libdevcore/TrieDB.h:900-970 | insertion is map update: its key has the new value and every other key keeps its own, for arbitrary keys |
| Trie.MergeForks | libdevcore/TrieDB.h:941-946 | a branch made on the way is left with two slots in use |
| Trie.MergedNormal | libdevcore/TrieDB.h:900-970 | insertion keeps the normal form: extensions have a key and lead to branches, and branches use two slots or more |
| Trie.NormalIsUnique | libdevcore/TrieDB.h:913-970 | two trees in normal form with the same lookups are the same tree |
| TrieDelete.UniqueInUseIs | libdevcore/TrieCommon.cpp:120-132 | the scan gives a slot exactly when it is the only one in use |
| TrieDelete.ScanWithoutValue | libdevcore/TrieDB.h:1071-1079 | a scan that passes over the value of a branch finds the one child that would be left |
| TrieDelete.CollapseNormal | libdevcore/TrieDB.h:1115-1121 | merging and grafting the only slot left gives a tree in normal form |
| TrieDelete.DeletedDeletes | libdevcore/TrieDB.h:1021-1124 | removal deletes exactly its key and keeps the normal form, and reports absence exactly for keys that are not stored |
| TrieDelete.DeletedPlain | libdevcore/TrieDB.h:1008-1124 | what the store holds decides only whether removal goes astray: where it does not, the result is a function of the tree and the key |
| TrieFault.FaultExactly | libdevcore/TrieDB.h:1021-1124 | for any tree in normal form, key and state of the store, removal goes astray if and only if the key clashes with what is stored: it passes a stored key that nothing goes on from (the value of that leaf is then taken for the mention of a node); or it is not stored and stored keys part right after it (its next nibble is then read past its end); or it is stored, it alone goes on from another stored key, and that key has a value that the program takes for the hash of a two-item node once the leaf is gone |
| TrieFault.StoppedExactly | libdevcore/TrieDB.h:1045-1049 | removal goes on into the value of a leaf exactly on a key that passes a stored key that nothing goes on from, and there is only one such leaf |
| TrieFault.PrefixFreeNeverFaults | libdevcore/TrieDB.h:1021-1124 | over keys of which none is a prefix of another, removal never does, whatever the store holds |
| TrieFault.RemovalCanFault | libdevcore/TrieDB.h:1045-1049 | over the empty key alone, removal of a longer key takes the value of the leaf for the mention of a node |
| TrieBuild.BuildIsNormal | libdevcore/TrieHash.cpp:27-85 | the tree built from sorted entries is in normal form |
| TrieBuild.BuildRepresents | libdevcore/TrieHash.cpp:27-85 | it holds exactly the entries |
| TrieHash.SharedPre | libdevcore/TrieHash.cpp:39-53 | the loop finds how far all keys of the range agree, although it stops early |
| TrieHash.PadIsNumber | libdevcore/RLP.h:408-425 | a string read as a hash is the same number in 32 bytes |
| TrieHash.Hash256Rlp | libdevcore/TrieHash.cpp:27-85 | the recursive routine writes the item of the tree over its range of entries |
| TrieHash.Hash256Aux | libdevcore/TrieHash.cpp:87-99 | a part is mentioned in line when short and by its hash otherwise |
| TrieHash.RunEnd | libdevcore/TrieHash.cpp:67-72 | the inner loop ends where the entries with the next nibble begin |
| TrieHash.Hash256Slot | libdevcore/TrieHash.cpp:67-78 | each slot holds the reference to the tree over its own run of entries |
| TrieHash.Hash256Branch | libdevcore/TrieHash.cpp:60-83 | the sixteen runs and the value make up the item of the branch |
| MapHash.HexMap | libdevcore/TrieHash.cpp:101-108 | the entries of a map are listed, each once, in the order of their nibbles |
| MapHash.TreeIs | libdevcore/TrieHash.cpp:101-112 | any tree in normal form with the contents of a map is the tree that the map is hashed as |
| MapHash.Hash256 | libdevcore/TrieHash.cpp:101-117 | the hash of a map is the hash of the root of its one tree in normal form |
| TrieCanon.AgreesMerged | libdevcore/TrieDB.h:838-851 | insertion under a byte key updates the map of contents at that key |
| TrieCanon.AgreesDeleted | libdevcore/TrieDB.h:995-1005 | removal of a byte key takes that key out of the map of contents |
| TrieCanon.HistoryIndependent | libdevcore/TrieDB.h:900-970 | the tree is a function of the contents |
| TrieCanon.Canonical | libdevcore/TrieHash.cpp:27-112 | a tree in normal form is the one built from scratch out of its contents |
| TrieCanon.EveryMapIsListed | libdevcore/TrieHash.cpp:101-112 | every map without empty values has a sorted list of its entries |
| TrieCanon.NoClash | libdevcore/TrieDB.h:1021-1124 | over prefix-free keys removal clashes with nothing and its result does not depend on the store |
| TrieCanon.RunReaches | libdevcore/TrieDB.h:838-1005 | every run of insertions, removals and commits over prefix-free keys goes through whatever the store holds, to a tree in normal form that holds the contents |
| TrieCanon.RunIsCanonical | libdevcore/TrieDB.h:838-1005 | after any such run the tree is the one built from scratch, whatever the order or history |
| TrieBinding.RootBinds | libdevcore/TrieDB.h:1183-1190 | the hash of the root commits to the whole tree: where hashes are distinct on the nodes of two trees, equal root hashes mean equal trees |
| TrieBinding.HashBinds | libdevcore/TrieHash.cpp:101-117 | the hash of a map commits to the map: where hashes are distinct on the nodes over two maps, equal hashes mean equal maps |
| TrieRefs.BelowMerged | libdevcore/TrieDB.h:900-992 | every node kept in the store below the changed tree was kept before or is put there by the insertion |
| TrieRefs.BelowIsReferenced | libdevcore/TrieDB.h:1183-1190 | every node kept in the store is counted at least once in the unfolded tree |
| TrieRefs.ReferencedIsBelow | libdevcore/TrieDB.h:1183-1190 | every hash counted in the unfolded tree is that of a node kept below the root |
| TrieDeleteSteps.NodeHasTwoItems | libdevcore/TrieDB.h:1008-1012 | the item count read off the stored bytes of a node is two exactly for leaves and extensions |
| TrieDeleteSteps.TwoItemsIs | libdevcore/TrieDB.h:1008-1012 | of stored bytes exactly an encoded list of two items has two; encoded strings and other lists do not; other bytes and lists that do not divide are rejected |
| TrieDeleteSteps.ShortValueCanFault | libdevcore/TrieDB.h:1104-1121 | a branch whose value is the hash of a stored pair, and whose only other key is removed: the value is read for every length up to 32 bytes, it leads to the pair, and with the pair in its place the value of the branch is lost |
| TrieDeleteSteps.UnreadableIs | libdevcore/TrieDB.h:1127-1131 | a value leads to nothing readable exactly when it is longer than 32 bytes or no encoding is found under it |
| TrieDeleteSteps.RefusesExactly | libdevcore/TrieDB.h:1127-1131 | that value is too long for a hash, or leads to nothing or to unreadable bytes, exactly when the stored value of such a key is and does |
| TrieSteps.LonelyIsDead | libdevcore/TrieDB.h:1146-1148 | the hash of a branch with a single slot in use, which placing a value kills without having stored it, is held by nobody |
| TrieSteps.PlaceStep | libdevcore/TrieDB.h:1146-1161 | placing a value leaves the references of the node's other slots |
| TrieSteps.ReshapeStep | libdevcore/TrieDB.h:933-946 | what holds before a node is cut or branched holds again when insertion re-enters with the same key |
| TrieDeleteSteps.CollapseStep | libdevcore/TrieDB.h:1108-1122 | when a slot is left alone, the references of the merged or grafted node are those of the slot, less the one that the graft takes out |
| TrieDeleteSteps.BelowDeleted | libdevcore/TrieDB.h:1021-1143 | every node kept below the tree after a removal was kept before or is put there by the removal |
| NodeStore.NodeStore.Insert | libdevcore/MemoryDB.cpp:85-98 | the value is stored under the hash and its count goes up by one |
| NodeStore.NodeStore.Kill | libdevcore/MemoryDB.cpp:100-114 | a positive count goes down by one; otherwise nothing changes and the failure is reported |
| NodeStore.NodeStore.Keys | libdevcore/MemoryDB.cpp:163-173 | the hashes with a positive count |
| NodeStore.NodeStore.LookupIs | libdevcore/MemoryDB.cpp:56-73 | under reference counting a hash without references is not found in memory; any other entry comes before the disk |
| NodeStore.NodeStore.Finds | libdevcore/OverlayDB.cpp:126-133 | a string whose hash is counted is found under its hash, in memory or on disk |
| NodeStore.NodeStore.InsertTracked | libdevcore/TrieDB.h:315-321 | inserting a string adds one reference to its hash and keeps every string under its own hash |
| NodeStore.NodeStore.KillTracked | libdevcore/OverlayDB.cpp:142-161 | killing a hash takes away one reference, or changes nothing where there is none |
| NodeStore.NodeStore.Commit | libdevcore/OverlayDB.cpp:48-101 | every entry with a positive count goes to the disk, the rest of the disk is kept, and the memory is emptied |
| NodeStore.NodeStore.CommitTracked | libdevcore/OverlayDB.cpp:48-101 | every hash that was counted is on disk after a commit |
| TrieDb.TrieDb.KillNode | libdevcore/TrieDB.h:328-337 | a node of 32 bytes or more loses one reference, a shorter one is not in the store |
| TrieDb.TrieDb.StreamNode | libdevcore/TrieDB.h:1183-1190 | a node of 32 bytes or more is stored and mentioned by hash, a shorter one is written in line |
| TrieDb.TrieDb.Cleve | libdevcore/TrieDB.h:1193-1208 | the item of the cut node, with the references of the old node taken out and those of the new one put in |
| TrieDb.TrieDb.Branch | libdevcore/TrieDB.h:1251-1279 | the item of the branch, with the references exchanged |
| TrieDb.TrieDb.BranchSlot | libdevcore/TrieDB.h:1266-1272 | the rest of a two-item node below the branch made of it, stored or in line, with the references of the branch |
| TrieDb.TrieDb.Place | libdevcore/TrieDB.h:1146-1161 | the item with the new value, with the references exchanged |
| TrieDb.TrieDb.MergeAtAux | libdevcore/TrieDB.h:973-992 | the mention of the changed subtree, read through and written back to the store with the counts of its references |
| TrieDb.TrieDb.MergeAt | libdevcore/TrieDB.h:900-970 | the item of the changed node; every reference count becomes that of the changed tree, and the recursion ends |
| TrieDb.TrieDb.IsTwoItemNode | libdevcore/TrieDB.h:1008-1012 | an item leads to a list of two items, by itself or as a hash of up to 32 bytes padded in front, and a longer string or unreadable bytes in the store are refused |
| TrieDb.TrieDb.IsTwoItemRef | libdevcore/TrieDB.h:1008-1012 | a mention leads to a leaf or extension |
| TrieDb.TrieDb.UniqueSlot | libdevcore/TrieCommon.cpp:120-132 | the scan of an encoded branch gives the only slot in use |
| TrieDb.TrieDb.Graft | libdevcore/TrieDB.h:1211-1232 | the two keys are joined, and the reference to the lower node is taken out |
| TrieDb.TrieDb.MergeSlot | libdevcore/TrieDB.h:1235-1248 | the only slot of a branch becomes a two-item node, grafted where it has to be |
| TrieDb.TrieDb.StillSeems | libdevcore/TrieDB.h:1104-1115 | killing a branch does not change where a value leads, so the test made afterwards has the answer it had before |
| TrieDb.TrieDb.Rejig | libdevcore/TrieDB.h:1107-1122 | a branch left with one slot is replaced and any other is kept; it goes astray exactly when the value is alone and is taken for a hash |
| TrieDb.TrieDb.DeleteLeaf | libdevcore/TrieDB.h:1037-1058 | exactly our leaf is removed with its reference; another key changes nothing; one that goes on past the leaf is refused or goes astray, as the value there can be read |
| TrieDb.TrieDb.DeleteAtAux | libdevcore/TrieDB.h:1127-1143 | the mention of the subtree without the key; no change of the store when the key is absent or refused; refused and astray exactly where the specification is |
| TrieDb.TrieDb.DeleteAt | libdevcore/TrieDB.h:1021-1124 | the item of the node without the key and the reference counts of the tree without it; nothing at all when the key is absent or refused; refused and astray exactly where the specification is |
| TrieDb.TrieDb.AtAux | libdevcore/TrieDB.h:860-891 | lookup through the store gives the value that the tree holds |
| TrieDb.TrieDb.At | libdevcore/TrieDB.h:854-857 | the value stored under a key, and no bytes when there is none |
| TrieDb.TrieDb.Init | libdevcore/TrieDB.h:77-81 | an empty trie with one reference to its root, and nothing new in the store but the encoding of the empty trie |
| TrieDb.TrieDb.Insert | libdevcore/TrieDB.h:838-851 | the contents are updated at the key; the root is the hash of the tree in normal form; each hash is counted as often as the unfolded tree mentions it, the root once; every node can be read back |
| TrieDb.TrieDb.Remove | libdevcore/TrieDB.h:995-1005 | for any key and any valid state, told from the state before the call: removal is done if and only if the key does not clash with what is stored, and then the contents lose exactly the key and the rest holds as for insertion, an absent key changing neither the root nor the store; it is halted if and only if the key passes a stored key that nothing goes on from and whose value cannot be read as a node, and then nothing at all has changed |
| TrieDb.TrieDb.Commit | libdevcore/OverlayDB.cpp:48-101 | after a commit every node reachable from the root is still found, so no lookup changes |
| TrieDb.TrieDb.DescendKey | libdevcore/TrieDB.h:178-187 | the hash of a node and the hashes of all nodes below it are struck out of the mask |
| TrieDb.TrieDb.DescendEntry | libdevcore/TrieDB.h:190-199 | the same for a mention of a node, in line or by hash |
| TrieDb.TrieDb.DescendList | libdevcore/TrieDB.h:202-224 | the same for an item; no valid trie has a pair below an extension, so the scan never calls one invalid |
| TrieDb.TrieDb.LeftOvers | libdevcore/TrieDB.h:227-232 | the scan goes through in every valid state and gives the counted hashes that the root does not lead to; over the memory database there are none |
| TrieDb.TrieDb.RootIsHash256 | libdevcore/TrieHash.cpp:101-117 | the root is the hash of the map of contents computed from scratch |
| TrieDb.TrieDb.RootCommits | libdevcore/TrieDB.h:838-1005 | two tries whose nodes hash apart have the same root exactly when they have the same contents |
| TrieRun.Perform | libdevcore/TrieDB.h:838-1005 | one insertion, removal or commit over prefix-free keys leads from a valid state to the next |
| TrieRun.RunAll | libdevcore/TrieDB.h:838-1005 | from any valid state, any run of insertions, removals and commits over prefix-free keys reaches the contents that the operations lead to; the root is the hash of that map, all counts are right and all nodes can be read; hashes need to be distinct on the strings that the run brings into play |
| TrieRun.RunFromEmpty | libdevcore/TrieDB.h:77-1005 | from an empty store, with a disk or without, after any such run: every key is looked up as the operations leave it; the root is the hash of the map computed from scratch; the scan finds the trie sound; without a disk every hash is counted as often as the unfolded tree mentions it, the root once, and nothing is left over |
| TrieWalk.WalkFinds | libdevcore/TrieDB.h:735-823 | every entry of the walk is a key below its path with the value stored there |
| TrieWalk.WalkHas | libdevcore/TrieDB.h:735-823 | every stored key is in the walk |
| TrieWalk.WalkSorted | libdevcore/TrieDB.h:735-823 | the walk is in strictly ascending order, so no entry comes twice |
| TrieWalk.WalkListsAll | libdevcore/TrieDB.h:735-823 | the walk lists the contents of the trie |
| TrieWalk.FromIs | libdevcore/TrieDB.h:605-732 | a lower bound leaves a tail of the walk, and in it exactly the keys that are not less than the bound |
| TrieWalk.FromParted | libdevcore/TrieDB.h:646-656 | a leaf or extension that parts from the bound is kept whole or dropped whole, as the comparison says |
| TrieWalk.FromBranch | libdevcore/TrieDB.h:676-686 | of a branch the bound drops the value and the slots before its nibble, searches that slot, and keeps the slots after it |
| TrieWalk.KidTurned | libdevcore/TrieDB.h:676-726 | entering the slot of the bound's nibble leaves the same entries ahead, with less work to do |
| TrieWalk.BranchAhead | libdevcore/TrieDB.h:676-732 | a branch whose slot for the bound is empty is visited from that slot on |
| TrieIterator.TrieIterator.Scan | libdevcore/TrieDB.h:704-731 | the slot loop stops at a value, enters the next child in use, or leaves the node, and passes over no entry |
| TrieIterator.TrieIterator.EnterPair | libdevcore/TrieDB.h:636-674 | a leaf or extension is shown, entered or skipped according to the bound |
| TrieIterator.TrieIterator.Turn | libdevcore/TrieDB.h:608-731 | one round of the search either shows the first entry ahead or keeps the entries ahead and has less work left |
| TrieIterator.TrieIterator.Seek | libdevcore/TrieDB.h:605-732 | the search ends, at the first entry that is not before the bound or past the last one |
| TrieIterator.TrieIterator.Next | libdevcore/TrieDB.h:735-823 | the iterator moves to the next entry, or lets go of the trie after the last one |
| TrieIterator.TrieIterator.Begin | libdevcore/TrieDB.h:573-579 | a new iterator is at the first entry |
| TrieIterator.TrieIterator.LowerBound | libdevcore/TrieDB.h:582-588 | the entries from the position on are exactly those whose keys are not less than the given one |
| TrieIterator.TrieIterator.At | libdevcore/TrieDB.h:591-602 | the entry shown is a key of the contents, a whole number of bytes, with its value |
| TrieIterator.Listing | libdevcore/TrieDB.h:409-414 | running over the whole trie meets every entry once, in ascending order, and ends |
| RangeMask.TidyIsUnique | libdevcore/RangeMask.h:238-242 | ranges that are non-empty and leave gaps are determined by the set they stand for |
| RangeMask.Complement | libdevcore/RangeMask.h:77-90 | the loop over the gaps gives the complement in the ground range, with gaps again |
| RangeMask.ComplementTwice | libdevcore/RangeMask.h:73-90 | inverting twice gives back the same ranges |
| RangeMask.Size | libdevcore/RangeMask.h:216-222 | the number of numbers in the set |
| RangeMask.Lowest | libdevcore/RangeMask.h:65-71 | the smallest numbers of the set, as many as asked for or all of them |
| RangeMask.DifferenceExactly | libdevcore/RangeMask.h:102-106 | subtraction by inverting, adding and inverting is set difference exactly when the subtrahend covers what its ground range adds, and always when that lies inside |
| RangeMask.DifferenceCanAdd | libdevcore/RangeMask.h:102-106 | nothing over [0, 1) less nothing over [0, 2) is the number 1 |
| RangeMask.RangeMask.UnionWith | libdevcore/RangeMask.h:254-312 | the merge loop ends, adds exactly the range, and keeps the ranges non-empty with gaps between them |
| RangeMask.RangeMask.UnionWithOne | libdevcore/RangeMask.h:126-126 | exactly one number is added |
| RangeMask.RangeMask.UnionWithMask | libdevcore/RangeMask.h:110-117 | the sets and the ground ranges are united; a mask united with itself stays the same |
| RangeMask.RangeMask.Inverted | libdevcore/RangeMask.h:77-90 | a new mask with the complement |
| RangeMask.RangeMask.Invert | libdevcore/RangeMask.h:94-94 | the mask becomes its complement |
| RangeMask.RangeMask.Subtract | libdevcore/RangeMask.h:102-106 | a range inside the ground range is taken away |
| RangeMask.RangeMask.SubtractMask | libdevcore/RangeMask.h:102-106 | the difference, over the united ground ranges; a mask subtracted in place from itself is inverted twice and stays the same |
| RangeMask.RangeMask.LowestItems | libdevcore/RangeMask.h:65-71 | a new mask with the smallest numbers |
| RangeMask.RangeMask.Contains | libdevcore/RangeMask.h:128-134 | membership |
| RangeMask.RangeMask.Next | libdevcore/RangeMask.h:204-213 | the smallest number above, or the end of the ground range when there is none |
| RangeMask.RangeMask.Full | libdevcore/RangeMask.h:138-143 | nothing of the ground range is missing |
| RangeMask.RangeMask.FirstOut | libdevcore/RangeMask.h:224-229 | the smallest number from the start of the ground range on that is not in the set |
| RangeMask.RangeMask.LastIn | libdevcore/RangeMask.h:231-236 | the largest number in the set, or the start of the ground range when it is empty |
| HttpBody.GuardedDigit | libchannelserver/http_parser.cpp:1685-1697 | behind the overflow test the 64-bit arithmetic does not wrap and never reaches the value that stands for no length |
| HttpBody.ValueSpelled | libchannelserver/http_parser.cpp:433-433 | decimal digits have the value whose numeral they are, leading zeros included, and no other byte is a digit |
| HttpBody.HexSpelled | libchannelserver/http_parser.cpp:228-233 | hexadecimal digits, in either case and with leading zeros, have the value whose numeral they are, and no other byte is a digit |
| HttpBody.NumeralIsRead | libchannelserver/http_parser.cpp:2120-2165 | the hexadecimal numeral of any number is read as the number, with a leading zero too |
| HttpBody.RunIsSane | libchannelserver/http_parser.cpp:2062-2246 | the assertions that the parser makes in the states of a body hold after every input, from any state in which they hold |
| HttpBody.CutsDoNotMatter | libchannelserver/http_parser.cpp:743-748 | the outcome of any number of calls depends on the whole input only |
| HttpBody.IdentityBody | libchannelserver/http_parser.cpp:2062-2099 | a body of a declared length is exactly that many bytes |
| HttpBody.ReadContentLength | libchannelserver/http_parser.cpp:1662-1705 | a length is accepted exactly when it is a decimal numeral of at most 2^64 - 7 followed by spaces, and then it is the number |
| HttpBody.ChunkedIsTaken | libchannelserver/http_parser.cpp:2120-2246 | every chunked body whose size lines are hexadecimal numerals of the sizes, within the limits of 2^64 - 17 and 80 KiB, is taken whole, and what is delivered is the data of its chunks in order |
| HttpBody.ChunkedIsAllThatIsTaken | libchannelserver/http_parser.cpp:2120-2246 | an input that leads past the last chunk begins with such a body, and its data is what is delivered |
| HttpBody.HttpParser.HeadersDone | libchannelserver/http_parser.cpp:2002-2058 | which body a message has, told from the message: none when the body is skipped, after CONNECT, with length zero, and without a length for requests, upgrades and responses 1xx, 204 and 304; else chunks, a declared length, or all up to the end of the connection |
| HttpBody.HttpParser.OneByte | libchannelserver/http_parser.cpp:2120-2246 | in the states that take no data the parser does what the byte machine does, and its assertions hold |
| HttpBody.HttpParser.TakeData | libchannelserver/http_parser.cpp:2062-2099 | data taken in bulk is the data that the byte machine takes |
| HttpBody.HttpParser.TakeRest | libchannelserver/http_parser.cpp:2104-2108 | without a length all of the input is data |
| HttpBody.HttpParser.TakeByte | libchannelserver/http_parser.cpp:2232-2246 | the line end after a chunk delivers the data marked before it |
| HttpBody.HttpParser.Execute | libchannelserver/http_parser.cpp:673-748 | a call does what the byte machine does on its input, reports the bytes taken, and has delivered exactly the body so far; if it fails, a beginning of it |
| HttpBody.HttpParser.Feed | libchannelserver/http_parser.cpp:673-748 | however an input is cut into calls, the state and the delivered body are those of the whole input |
| HttpBody.HttpParser.ReadNothing | libchannelserver/http_parser.cpp:2287-2310 | a message without a body is complete where its header ends, with nothing delivered |
| HttpBody.HttpParser.ReadToEnd | libchannelserver/http_parser.cpp:2104-2108 | any other response without a length delivers everything up to the end of the connection, however the input is cut |
| HttpBody.HttpParser.ReadDeclared | libchannelserver/http_parser.cpp:2062-2101 | a message with a declared length, however its input is cut: exactly so many bytes are delivered, and fewer only when the input ends before |
| HttpBody.HttpParser.ReadChunked | libchannelserver/http_parser.cpp:2120-2252 | a chunked message, however its input is cut: the last chunk is passed exactly when the input begins with a well-sized chunked body, and then exactly the data of its chunks is delivered |
| HttpUrl.RankGrows | libchannelserver/http_parser.cpp:504-671 | the URL machine never goes back to an earlier part |
| HttpUrl.ScanUrl | libchannelserver/http_parser.cpp:2558-2628 | the text is rejected exactly when the machine dies; otherwise each field is the run of exactly the bytes that belong to it |
| HttpUrl.NotePart | libchannelserver/http_parser.cpp:2485-2532 | the bookkeeping of a byte of the authority extends the part in use or begins a new one |
| HttpUrl.ParseHost | libchannelserver/http_parser.cpp:2463-2552 | the authority is accepted exactly when its machine ends in a complete host or port, and user information, host and port are the runs of the bytes that belong to them |
| HttpUrl.LocatedInside | libchannelserver/http_parser.cpp:2463-2552 | every field lies inside the text, the parts of the authority lie inside its run, and the port is made of digits |
| HttpUrl.Disjoint | libchannelserver/http_parser.cpp:2558-2682 | no two fields overlap |
| HttpUrl.ReadPort | libchannelserver/http_parser.cpp:2651-2679 | the decimal value of a run of digits, refused exactly when it is above 65535 |
| UrlMatch.OuterShape | libchannelserver/http_parser.cpp:504-671 | every text that the URL machine takes is a schema, an authority, a path, a query and a fragment with their delimiters, as far as they go |
| UrlMatch.OuterFields | libchannelserver/http_parser.cpp:2558-2628 | the fields that the scan finds in such a text are the runs of these parts |
| UrlMatch.AuthorityShape | libchannelserver/http_parser.cpp:2369-2461 | every text that the machine of the authority takes to its end is user information, a host or a bracketed address with a zone, and a port |
| UrlMatch.AuthorityWalks | libchannelserver/http_parser.cpp:2369-2461 | the machine takes every such authority to its end, through the states of its parts |
| UrlMatch.UrlFields | libchannelserver/http_parser.cpp:2558-2642 | the fields found in the text of a URL of the grammar are exactly the runs of its parts |
| UrlMatch.PassesUrl | libchannelserver/http_parser.cpp:2558-2642 | every text that both machines take is the text of a URL of the grammar |
| UrlMatch.ParseUrl | libchannelserver/http_parser.cpp:2558-2682 | exactly the texts of a grammar that does not know of the machines are accepted: [schema "://" [userinfo "@"] host [":" port]] [path] ["?" query] ["#" fragment], for CONNECT a host and a port alone, with a port of at most 65535; the fields are the runs of these parts and the port is the number that its digits spell |
| Channel.Encode | libchannelserver/ChannelMessage.h:49-61 | the message is appended in its wire form |
| Channel.DecodeIs | libchannelserver/ChannelMessage.h:65-91 | what the length in front decides, in numbers: fewer than 42 bytes or than the length are incomplete, more than 10485760 is too long, less than 42 too short |
| Channel.TooLongEnds | libchannelserver/ChannelMessage.h:72-77 | a length above 10485760 ends the session with nothing delivered |
| Channel.DecodeWire | libchannelserver/ChannelMessage.h:65-91 | a message with a 32-byte sequence and at most 10 MiB is decoded from its wire form, whatever follows |
| Channel.DecodeBeginning | libchannelserver/ChannelMessage.h:67-82 | a proper beginning of it is reported as incomplete |
| Channel.DrainCut | libchannelserver/ChannelSession.cpp:226-259 | decoding early and decoding late deliver the same messages and leave the same rest |
| Channel.DrainStream | libchannelserver/ChannelSession.cpp:226-259 | from any beginning of a stream exactly the complete messages are taken, and the beginning of the next one is kept |
| Channel.ChannelSession.OnRead | libchannelserver/ChannelSession.cpp:209-259 | the loop ends, hands on the messages that are now complete and keeps the rest; a new read is started exactly when the rest decodes as incomplete, the session ends exactly on a length above the limit, and a length below that of a header stalls it |
| Channel.ChannelSession.OnReads | libchannelserver/ChannelSession.cpp:209-259 | any beginning of a stream of messages, cut into reads in any way: the messages that have arrived whole are delivered in order and the beginning of the next one is kept; a whole stream is delivered with nothing left over |
| Abi.PatchedIsHead | libethcore/ABI.h:98-105 | writing the places of the strings into the head afterwards gives the head with the right places |
| Abi.LayoutAt | libethcore/ABI.h:98-113 | the words of an argument stand at its slot, and its string at the place that the head gives, the strings one after the other without gaps |
| Abi.LayoutEncodes | libethcore/ABI.h:37-123 | every byte of the encoding is as the ABI has it: a number fills its 32-byte word, a string of fixed length stands in the head, and any other string stands in the tail at the place that the head gives, behind its length and before zeros up to a whole word |
| Abi.RoundTrip | libethcore/ABI.h:170-199 | reading the layout with the types of the arguments gives back the arguments |
| Abi.MeaningIsRead | libethcore/ABI.h:133-199 | any bytes that mean an argument at a place are read as the argument |
| Abi.PastTheEnd | libethcore/ABI.h:133-160 | where a word would go past the end, a number is zero and a string of fixed length is zeros |
| Abi.PatchPlaces | libethcore/ABI.h:98-105 | the loop gives each string the end of the one before as its place |
| Abi.ContractAbi.Serialise | libethcore/ABI.h:37-79 | each type adds its words to the head, and a string its data to the tail |
| Abi.ContractAbi.AbiIn | libethcore/ABI.h:90-123 | the encoding of a list of arguments is head and tail, and every byte of it is as the ABI has it |
| Abi.ContractAbi.AbiOut | libethcore/ABI.h:133-199 | values are read one after the other, each type moving on by the words it takes |
| Abi.ContractAbi.InAndOut | libethcore/ABI.h:90-199 | encoding and decoding again gives back the arguments |
| Block.NewIndex | libethcore/Block.cpp:107-115 | up to 2^32 items, every position has a key of its own in the map that is hashed |
| Block.OneMoreKey | libethcore/Block.cpp:107-115 | with positions cut to 32 bits, a new item has a new key below 2^32 items, and from there on its key is taken and the first item stays |
| Block.RootsMeet | libethcore/BlockHeader.cpp:283-291 | the root that a block computes and the one that the check computes are the same for fewer than 2^32 items and, where hashes are distinct on the nodes of the two trees, differ for all others |
| Block.TrieRootOver | libdevcore/TrieHash.h:36-42 | the root over the items of a payload under the encodings of their positions, their number cut to 32 bits |
| Block.Verify | libethcore/BlockHeader.cpp:281-291 | for any bytes: an absent block passes; otherwise the second item is read, without looking at the rest, and the root passes exactly when it is the one over the items listed there, their number cut to 32 bits |
| Block.ListedWhole | libethcore/BlockHeader.cpp:283-286 | of the encoding of a block the check reads exactly the encodings of its transactions |
| Block.KindsOfViews | libdevcore/RLP.h:408-425 | a view is a list exactly when it is an encoded payload, and is read as a hash exactly when it is an encoded string of at most 32 bytes |
| Block.ReadBlock | libethcore/Block.cpp:154-185 | what is read has lists for the block, its header and its transactions, the hash of its header, and the transactions that the check reads |
| Block.ReadEncoded | libethcore/Block.cpp:74-185 | reading what was written gives back header, transactions, receipts, hash and signatures |
| Block.Gather | libethcore/Block.cpp:106-116 | the loop collects the payload of the list and the map over the items that have keys of their own |
| Block.Block.SetTransactions | libethcore/Block.h:89-93 | new transactions, with the caches cleared |
| Block.Block.AppendTransactions | libethcore/Block.h:107-112 | more transactions, with the caches cleared |
| Block.Block.SetReceipts | libethcore/Block.h:95-99 | new receipts, with the caches cleared |
| Block.Block.SetHeader | libethcore/Block.h:114-114 | another header leaves what is cached right |
| Block.Block.SetSignatures | libethcore/Block.h:116-119 | new signatures |
| Block.Block.HeaderHash | libethcore/BlockHeader.cpp:125-135 | the cached hash is that of the present header |
| Block.Block.CalTransactionRoot | libethcore/Block.cpp:99-121 | the cached list and root are those of the present transactions, and the header gets the root on request |
| Block.Block.CalReceiptRoot | libethcore/Block.cpp:124-149 | the same for the receipts |
| Block.Block.EncodeBlock | libethcore/Block.cpp:74-95 | the encoded block is a list in which a reader finds five items: the header, the transactions, the receipts, the hash of the header and the signatures, the cached lists among them |
| Block.Replay | libethcore/Block.h:89-172 | any history of setters, root computations and encodings keeps what is cached right |
| Block.CheckEncoded | libethcore/BlockHeader.cpp:281-291 | the encoded block passes the check exactly when its header holds the root over its transactions, their number cut to 32 bits |
| Block.SealAndVerify | libethcore/Block.cpp:74-121 | after any history, once the root is set: with fewer than 2^32 transactions the encoded block passes the check, and with more it fails where hashes are distinct on the nodes of the two trees |

## Left out

- TrieDb.TrieDb.Remove: where it is neither done nor halted, the program has taken a value for the mention of a stored node, or has read past the end of the key; the model stops there and says no more. What the program does then depends on the bytes it finds: it throws, fails an assertion, grafts a foreign node, or by accident finds nothing to do. A halt is an exception or a failed assertion in the program.
- TrieDb.TrieDb.Insert: keys of fewer than 2^30 bytes, because positions in a key are cast to signed 32-bit numbers, and values below 2^63 bytes, so that all lengths fit the reader; reference counts are unbounded here and 32 bits in the program.
- TrieIterator.TrieIterator.Next: `next()` and `next(key)` are one search here, with an empty key for the former; the exit for nodes that are neither empty nor of 2 or 17 items cannot be taken in a valid trie and is not modelled. The trie must not change while an iterator is in use.
- RangeMask.RangeMask.UnionWith: numbers are unbounded, so there is no wrap-around; the branch for a next range that starts at the present number cannot be taken, because that range starts later.
- RangeMask.RangeMask.constructor: the ground range must not end before it begins, which the program does not test.
- UrlMatch.ParseUrl: texts of at most 65535 bytes, because offsets and lengths have 16 bits.
- HttpBody.HttpParser.Execute: begins and ends in the states of a body; header states, header names, pausing and failing callbacks are not part of this model. The strict build is modelled.
- HttpBody.HttpParser.TakeData: the second body hook of the identity state is not modelled; its range is computed from a mark that has just been cleared.
- Channel.ChannelSession.OnRead: a declared length shorter than the header makes the program copy a reversed range; the model takes this as the exception that ends the loop without another read. Sockets, timers and the handling of messages are not part of this model.
- Abi.ContractAbi.AbiIn: encodings below 2^32 bytes, because places are written as 32-bit numbers, and an empty identifier; the identifier's hash prefix, hashes as arguments and the decoding of `bool` are not modelled.
- Abi.ContractAbi.AbiOut: places and lengths of strings are taken as they are; the program casts them to 64 bits.
- Block.Block.EncodeBlock: the number and gas checks of the header are not modelled; transactions, receipts, signatures and header fields are opaque items. Setters of the extra data of a header, which keep its cached hash, are not modelled.
- Block.ReadBlock: the decoding of single header fields, transactions, receipts and signatures is not modelled; a block is read into a fresh object, where no hash is cached.
- Block.Verify: the other checks of the header are not modelled, and unreadable bytes are one error.
- Block.SealAndVerify: a block whose encoding is longer than the reader accepts is reported as an error.
- MemoryDB's `purge`, `exists` and the auxiliary table, and OverlayDB's `rollback` and retry loop: they would only add easy members.
- Locks and threads around stores, blocks and sessions: every operation is modelled as one step.
- Keccak, signatures and other cryptography: the hash is a parameter.
- LevelDB, files, JSON, logging, consensus, sealing, the transaction pool and the execution of transactions: not part of this model.
- Trie views with hashed keys and the printing of the debugging scan: thin layers over the parts modelled here.
