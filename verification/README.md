# Verified model of the typeberry core

Typeberry is a TypeScript node for the JAM protocol (Gray Paper 0.7.1 and 0.7.2). This project models the data
structures and state machines of its `packages/core` in Dafny and proves what they promise. Wherever the code has a
fast, in-place form, that form is modelled as a method over mutable state and proved equal to a short recursive
definition; the promises are then proved of the definition, for all inputs, all runs and all reachable states.

`dafny verify dfyconfig.toml` checks everything.

## What is modelled

**State trie** (`TrieKeys`, `TrieNodes`, `TrieMerkle`, `TrieRoot`, `TrieTree`, `TrieStore`, `TrieInsert`, `Trie`). Two
independent computations of one root: the backwards stack pass over sorted leaves, and the incremental trie whose
nodes live in a store keyed by hash modulo the top bit. Both are compared with the recursive Merklization of Gray
Paper 0.7.2, Appendix D.2 (`TrieMerkle.MerkleRoot`). Over every run of the incremental trie each reachable node is
stored, pruning never takes a node that is still reachable, and the walk never meets a missing node. The hash function
is a parameter. Nothing is assumed of it globally: only that no two of the finitely many nodes of the run at hand
collide modulo the top bit, and that none of them hashes to zero. `Trie.SourceRoots` states the result for the code's
own 64-byte nodes and 32-byte hashes.

**Codec** (`Bytes`, `Naturals`, `Descriptors`, `RoundTrip`, `Skipping`, `SkipLimits`, `Encoder`, `EncodeValue`,
`Decoder`, `Locality`, `Views`). Descriptors are a datatype with one constructor per combinator; `Encode`, `Decode` and
`Skip` give their meaning on byte strings. The classes `Encoder` (growing buffer), `Decoder` (cursor) and the lazy
views (caches and cursors) are proved to compute exactly that, failures included.

**Collections** (`BlobTree`, `BlobDictionary`, `BlobConversions`, `BlobRuns`, `BlobStrays`, `SortedCollections`). The
dictionary keeps its nodes, lists, maps and shared leaf objects on the heap, beside the insertion-ordered index of key
objects; a ghost map from paths to nodes describes the tree.

**Erasure coding** (`ErasureCoding`, `Chunking`, `Sharding`), **Merkle mountain range** (`Mmr`), **frame reassembly**
(`Frames`), **worker pool** (`Executor`), **gas** (`Gas`) and **shuffle** (`Shuffle`).

## What does not hold

Reading the code closely shows places where it does less than its documentation or its name suggests. The model
follows the code, and each place has its exact condition or an example:

- `computeStateRoot` gives a wrong root whenever there are two or more leaves and the smallest is the only one whose
  first key bit is 0 (`TrieRoot.ComputeStateRoot`, `TrieRoot.LoneLeftRootDiffers`, `TrieRoot.LoneLeftExample`).
- Overwriting a leaf leaves the old leaf in the store when old and new value have the same zero-padded bytes, as with
  an empty value and `[0]` (`Trie.InMemoryTrie.Set`, `Trie.HeadOnlyChangeExample`). The root is right; iterating over
  the stored leaves is not.
- The dictionary skipper passes over all keys and then all values, while the encoding alternates. For fixed-size keys
  and blob values it fails on some valid encoding as soon as there are two entries (`Skipping.DictionarySkipFails`,
  `SkipLimits.VariableValuesFail`, `SkipLimits.FixedLengthExactly`).
- The exact hint of a fixed bit vector is rounded down, so a fixed-size class that holds one is skipped wrongly unless
  its length is a whole number of bytes (`Skipping.ClassShortcutExactly`, `Skipping.MisalignedClassFails`).
- An empty sequence view with a length prefix re-encodes to no bytes (`Views.EncodedIsSliceExactly`,
  `Views.EmptySequence`).
- Compact numbers in longer forms are accepted, so decoding and encoding again may change the bytes
  (`Naturals.LongerFormsAccepted`).
- A blob dictionary is a finite map for keys of one number of six-byte chunks, and for any two lengths with different
  numbers of chunks there is a run that it does not answer as one (`BlobRuns.Serve`, `BlobRuns.Disagreement`). When a
  list becomes a map, a key that ends within its chunk is left out of place. `get` still finds it there, but `set`
  makes a second leaf, so that `get` goes on giving the old value (`BlobStrays.SetThenGet`, `BlobStrays.OldValue`), and
  `delete` gives false (`BlobStrays.DeleteThenGet`, `BlobStrays.NotDeleted`). When that list becomes a map too, the key
  is lost, though still counted (`BlobStrays.LostKey`).
- `get` of an absent key may answer with the value of a prefix (`BlobDictionary.BlobDictionary.FoundAnswer`,
  `BlobStrays.PrefixAnswers`).
- After a failed access a view goes on from the moved cursor with the old index, so that what it gives next may start at
  a wrong place (`Views.SequenceView.Get`, `Views.ObjectView.Get`, `Views.AfterFailure`).
- `shardsToChunks` reads back what `chunksToShards` dealt only below a surplus of 1023 bytes
  (`Sharding.ReadBackExactly`). With fewer than 1023 bytes in all, but some, it divides by zero and never ends
  (`Sharding.EndlessExactly`).
- `getPeaks` never ends for a mountain of more than 2^30 leaves (`Mmr.NeverFound`).
- The limit on buffered network data is checked only when a frame is complete
  (`Frames.FragmentHandler.Receive`).
- A pool started with no workers leaves its tasks waiting for ever exactly when there are at most five of them
  (`Executor.StrandedExactly`).
- `SortedSet.fromTwoSortedCollections` removes duplicates, but throws when one side is empty and the other has some
  (`SortedCollections.SetFromTwo`, `SortedCollections.DuplicatesThrow`).
- A gas counter set above its start reports all of the initial gas as used (`Gas.GasCounter.Used`).

## Model

All sources are below `packages/core/`.

| member | source | states |
|---|---|---|
| TrieRoot.ComputeStateRoot | packages/core/trie/trie.ts:30-100 | the backwards stack pass over sorted leaves returns the recursive Merkle root (Gray Paper 0.7.2, Appendix D.2) unless two or more leaves have the smallest one alone in the left half; then it returns the branch of that leaf and zero |
| TrieRoot.LoneLeftRootDiffers | packages/core/trie/trie.ts:66-95 | in that excluded family the returned root is never the Merkle root, short of a hash collision or a right half hashing to zero |
| TrieRoot.LoneLeftExample | packages/core/trie/trie.ts:66-95 | any two leaves whose first key bits differ already form such a set |
| TrieRoot.LastStepLoneLeft | packages/core/trie/trie.ts:66-95 | why: the last step pushes one zero too many and merges the leaf with it |
| TrieRoot.PushAndMerge | packages/core/trie/trie.ts:60-96 | the two inner loops, one pushing zeros and one merging, compute the step of the pass |
| TrieRoot.NeighbourSharesMost | packages/core/trie/trie.ts:44-54 | no later leaf shares more bits with a leaf than its neighbour, so looking at neighbours is enough |
| TrieRoot.MergeLevel | packages/core/trie/trie.ts:86-95 | merging one level turns the sub-trie of a leaf into the sub-trie one bit higher, the pending sibling being the Merkle root of the other side |
| TrieRoot.MoveLeft | packages/core/trie/trie.ts:60-64 | moving to the previous leaf leaves exactly its pending right siblings on the stack |
| TrieRoot.StepDown | packages/core/trie/trie.ts:66-82 | going deeper, the pushed zeros are the missing siblings |
| TrieRoot.StepUp | packages/core/trie/trie.ts:76-95 | going up, every merge uses the pending sibling of its level |
| TrieRoot.PassStep | packages/core/trie/trie.ts:60-96 | the loop invariant: after each leaf the stack holds the finished sub-trie above its pending siblings |
| TrieKeys.FindSharedPrefix | packages/core/trie/trie.ts:390-405 | the byte and mask search finds the length of the longest common bit prefix |
| TrieKeys.SharedPrefixUnique | packages/core/trie/trie.ts:390-405 | that length is the only one at which two keys agree before and differ at |
| TrieKeys.ByteDifference | packages/core/trie/trie.ts:390-405 | the first differing bit of two bytes is the highest set bit of their xor, and it decides their order |
| TrieKeys.FirstBitDifference | packages/core/trie/trie.ts:351-405 | reading bits byte by byte places the end of the shared prefix at 8 i + m |
| TrieKeys.KeyOrderIsPathOrder | packages/core/trie/trie.ts:30-54 | sorting leaves by key bytes sorts them by key bits |
| TrieKeys.UnpackPack | packages/core/trie/trie.ts:351-358 | bits packed into key bytes are read back unchanged |
| TrieKeys.PackUnpack | packages/core/trie/trie.ts:351-358 | and key bytes are determined by their bits |
| TrieTree.CanonicalRoot | packages/core/trie/trie.ts:175-214 | a trie with minimal branching hashes to the recursive Merkle root of its leaves |
| TrieTree.CanonicalUnique | packages/core/trie/trie.ts:175-214 | the leaves alone determine such a trie |
| TrieTree.PutCanonical | packages/core/trie/trie.ts:175-214 | writing a leaf keeps the branching minimal and replaces or adds exactly that leaf |
| TrieTree.PutSame | packages/core/trie/trie.ts:175-214 | writing a leaf that is already there changes nothing |
| TrieTree.PutSubs | packages/core/trie/trie.ts:199-211 | every sub-trie after a write holds the new leaf or was there before |
| TrieTree.ForkIsNotBelow | packages/core/trie/trie.ts:199-211 | a rewritten branch occurs neither in its untouched side nor in its new side |
| TrieStore.TreeHashIsRoot | packages/core/trie/trie.ts:154-160 | the hash of a stored trie, left references without their top bit, is its Merkle root |
| TrieStore.SlotDeterminesTree | packages/core/trie/nodesDb.ts:47-78 | without collisions a store key, hash modulo top bit, determines the whole sub-trie |
| TrieStore.SlotsDisjoint | packages/core/trie/nodesDb.ts:47-78 | tries with no common sub-trie occupy different store keys |
| TrieStore.NodesDb.Get | packages/core/trie/nodesDb.ts:20-24 | the node stored under the hash, top bit ignored |
| TrieStore.NodesDb.Remove | packages/core/trie/nodesDb.ts:66-70 | takes away exactly the entry of that hash |
| TrieStore.NodesDb.Insert | packages/core/trie/nodesDb.ts:72-78 | stores the node under its hash modulo the top bit and returns the full hash |
| TrieStore.FindNodeToReplace | packages/core/trie/trie.ts:232-265 | the walk ends within 248 bits, never misses a node, visits exactly the branches on the key's path, and ends at the leaf or gap found there |
| TrieStore.StepDown | packages/core/trie/trie.ts:232-265 | one step: the child is in the store, or the trie is empty there and the stored reference is zero |
| TrieInsert.CommonBits | packages/core/trie/trie.ts:302-313 | the bits shared by both leaves from the given depth on, and the bit at which they part |
| TrieInsert.CreateSubtree | packages/core/trie/trie.ts:274-346 | builds exactly the branches that separate two leaves, whichever side the old leaf's hash came from, and leaves every other entry of the store alone |
| TrieInsert.PlaceLeaf | packages/core/trie/trie.ts:175-198 | what the insertion puts in place of the leaf or the gap found is the trie with the leaf written, wholly stored |
| TrieInsert.RemovalIsSafe | packages/core/trie/trie.ts:199-211 | the entry of an old branch on the path is used neither by its sibling side nor by the rewritten side, so removing it loses nothing |
| TrieInsert.ClimbStep | packages/core/trie/trie.ts:199-211 | one turn of the path update: old branch out, new branch in, everything still reachable is stored and everything else is as before |
| TrieInsert.InsertLeaf | packages/core/trie/trie.ts:175-214 | the whole insertion: the new root node, and a store that lost the old path and gained the new one, but for the leaf left behind by a change of head only |
| TrieInsert.LeftBehindOnPath | packages/core/trie/trie.ts:175-214 | a leaf left behind can only be the one on the written key's own path |
| Trie.InMemoryTrie.constructor | packages/core/trie/trie.ts:128-132 | the empty trie |
| Trie.InMemoryTrie.Set | packages/core/trie/trie.ts:134-138 | over any run: the leaf replaces that of its key, every reachable node is stored, and a store without stale nodes stays so exactly when the write does not change only a leaf's head byte |
| Trie.InMemoryTrie.GetRootHash | packages/core/trie/trie.ts:154-160 | the recursive Merkle root of the entries |
| Trie.InMemoryTrie.FromLeaves | packages/core/trie/trie.ts:118-126 | leaf by leaf, last write wins |
| Trie.InMemoryTrie.StoredLeaves | packages/core/trie/nodesDb.ts:30-38 | a store without stale nodes lists exactly the leaves of the trie |
| Trie.NodesAreStored | packages/core/trie/nodesDb.ts:20-24 | every node of the trie is in the store |
| Trie.HeadOnlyChangeExample | packages/core/trie/nodes.ts:173-191 | writing [0] over an empty value is a change of the head byte only |
| Trie.LeftBehindIsForeign | packages/core/trie/trie.ts:175-214 | what such a write leaves behind belongs to no part of the new trie, and there is nothing left behind otherwise |
| Trie.LastWriteWins | packages/core/trie/trie.ts:118-126 | a leaf survives a run exactly when no later leaf has its key |
| Trie.RunLeaves | packages/core/trie/trie.ts:118-126 | the trie after a run holds exactly those leaves |
| Trie.OrderDoesNotMatter | packages/core/trie/trie.ts:118-138 | runs that end with the same leaves end with the same trie, hence the same root |
| Trie.BothRoots | packages/core/trie/trie.ts:30-138 | on sorted leaves the incremental trie gives the Merkle root, and the stack pass the same one outside its excluded family |
| Trie.SourceRoots | packages/core/trie/trie.ts:30-138 | both computations over the code's own 64-byte nodes and 32-byte hashes, given only that no two nodes of the run collide modulo the top bit and none hashes to zero |
| Trie.SourceMerkle | packages/core/trie/trie.ts:154-160 | the Merkle root over stored nodes, left references masked, is the Merkle root over node bytes |
| Trie.NodesFromBytes | packages/core/trie/nodesDb.ts:47-78 | collision-freeness of the 64-byte strings of a run is that of its nodes |
| TrieMerkle.DepthSuffices | packages/core/trie/trie.ts:30-100 | leaves with different keys part within 248 bits, so the recursive root never runs out of key bits |
| TrieMerkle.SameHashing | packages/core/trie/trie.ts:30-100 | hashings that agree on every leaf and branch give the same root |
| TrieNodes.RawRoundTrip | packages/core/trie/nodes.ts:79-240 | the 64 bytes of a node are read back as that node |
| TrieNodes.ParseRoundTrip | packages/core/trie/nodes.ts:79-240 | any 64 bytes are those of the node they are read as |
| TrieNodes.RawInjective | packages/core/trie/nodes.ts:79-240 | different nodes have different bytes, so only the hash can make them collide |
| TrieNodes.LeafFieldsRoundTrip | packages/core/trie/nodes.ts:173-240 | type, key, length and value or value hash come back from a leaf, at every value length |
| TrieNodes.BranchFieldsRoundTrip | packages/core/trie/nodes.ts:120-148 | a branch gives back the right hash and the left hash without its first bit |
| TrieNodes.PayloadDoesNotDetermineLeaf | packages/core/trie/nodes.ts:173-191 | zero padding lets two values of one key differ in the head byte alone |
| TrieNodes.FromSubNodes | packages/core/trie/nodes.ts:120-129 | fills the buffer with the branch encoding |
| TrieNodes.FromValue | packages/core/trie/nodes.ts:173-191 | fills the buffer with the leaf encoding |
| Naturals.CompactRoundTrip | packages/core/codec/encoder.ts:272-318 | every value below 2^64 is decoded back, and exactly its bytes are consumed |
| Naturals.CompactRoundTrip32 | packages/core/codec/decoder.ts:191-225 | the same for the 32-bit decoder below 2^32 |
| Naturals.FirstByteFixesLength | packages/core/codec/decoder.ts:381-391 | the first byte alone tells the number of further bytes and the high part |
| Naturals.TablesArePowers | packages/core/codec/decoder.ts:381-391 | the mask and bound tables are the powers of two of the definition |
| Naturals.PrefixFree | packages/core/codec/encoder.ts:272-318 | a stream of encoded numbers splits in one way only |
| Naturals.ShortestForm | packages/core/codec/encoder.ts:272-318 | no shorter byte string decodes to the value, and no other of the same length |
| Naturals.LongerFormsAccepted | packages/core/codec/decoder.ts:228-250 | the decoder also takes longer forms, so re-encoding need not reproduce the input |
| Naturals.Decode32Exactly | packages/core/codec/decoder.ts:191-225 | the 32-bit decoder accepts exactly the forms of at most five bytes denoting a value below 2^32, and then agrees with the 64-bit one |
| Descriptors.SortEntriesSorted | packages/core/codec/descriptors.ts:334-346 | the order in which a dictionary is written is a permutation with strictly ascending keys |
| RoundTrip.IntRoundTripExactly | packages/core/codec/encoder.ts:156-256 | a fixed-width integer comes back exactly when it lies in the range of its signedness |
| RoundTrip.DecodeEncode | packages/core/codec/descriptors.ts:251-589 | for every descriptor and fitting value: decoding the encoding followed by anything gives the value, dictionaries in key order, and leaves exactly the rest |
| RoundTrip.LeafRoundTrip | packages/core/codec/descriptors.ts:60-248 | the round trip of descriptors without parts |
| RoundTrip.BitsVarRoundTrip | packages/core/codec/decoder.ts:274-299 | bit vectors of any length come back, padding bits and all |
| RoundTrip.DecodeEncodeItems | packages/core/codec/decoder.ts:316-322 | the round trip of item lists |
| RoundTrip.DecodeEncodeEntries | packages/core/codec/descriptors.ts:347-364 | sorted entries pass the decoder's order and duplicate checks and come back in order |
| RoundTrip.DecodeEncodeFields | packages/core/codec/descriptors.ts:546-589 | the round trip of fields in order |
| RoundTrip.NewKey | packages/core/codec/descriptors.ts:347-364 | in ascending entries the next key is new and after the last one, so neither check fires |
| Skipping.SkipAgrees | packages/core/codec/skip.ts:31-75 | whenever decoding succeeds, skipping stops at the same byte, for descriptors whose fixed-size classes are aligned and whose dictionaries have parts of fixed size, parts that skip alike, one part of size zero, or at most one entry |
| Skipping.SkipAgreesAlternating | packages/core/codec/descriptors.ts:365-369 | keys and values coded alike: skipping keys first makes no difference |
| Skipping.SkipAgreesKeysOnly | packages/core/codec/descriptors.ts:365-369 | values without bytes: skipping the keys is enough |
| Skipping.SkipAgreesValuesOnly | packages/core/codec/descriptors.ts:365-369 | keys without bytes: skipping the values is enough |
| Skipping.SkipFixed | packages/core/codec/skip.ts:66-75 | fixed-size descriptors are skipped by their true size, whatever the bytes are |
| Skipping.FixedDecode | packages/core/codec/descriptors.ts:52-57 | decoding a fixed-size descriptor consumes its true size |
| Skipping.ExactHints | packages/core/codec/descriptors.ts:241-248 | a hint is marked exact exactly for fixed-size descriptors; it never exceeds the true size and equals it exactly when every bit vector is a whole number of bytes |
| Skipping.ClassShortcutExactly | packages/core/codec/descriptors.ts:556-564 | a class skipped by its hint is skipped correctly if and only if its bit vectors are whole bytes |
| Skipping.MisalignedClassFails | packages/core/codec/descriptors.ts:556-564 | a class of one vector of four bits: decoding reads the byte, skipping none |
| Skipping.DictionarySkipFails | packages/core/codec/descriptors.ts:365-369 | a valid encoding of two entries on which the skipper fails |
| SkipLimits.VariableValuesFail | packages/core/codec/descriptors.ts:365-369 | for any two or more keys of a fixed size there are blob values whose valid encoding the skipper fails on |
| SkipLimits.FixedLengthExactly | packages/core/codec/descriptors.ts:365-369 | a dictionary of fixed-size keys and blob values with a fixed number of entries is skipped rightly if and only if that number is at most one |
| Skipping.SkipNatAgrees | packages/core/codec/skip.ts:31-35 | skipping a number of either width stops where decoding it does |
| Encoder.Encoder.Growing | packages/core/codec/encoder.ts:84-88 | a growing encoder starts empty, whatever length was expected |
| Encoder.Encoder.Into | packages/core/codec/encoder.ts:79-82 | an encoder over a given destination starts empty and cannot grow |
| Encoder.Encoder.EnsureBigEnough | packages/core/codec/encoder.ts:451-480 | growing keeps the bytes written; a silent request never fails, another fails exactly past the limit |
| Encoder.Encoder.PutBytes | packages/core/codec/encoder.ts:325-356 | appends the bytes, or changes nothing when they do not fit below the limit |
| Encoder.Encoder.VarU64 | packages/core/codec/encoder.ts:272-318 | writes the compact form of the number, or fails at the limit |
| Encoder.FindLength | packages/core/codec/encoder.ts:272-300 | the descending search finds the shortest length that holds the number |
| EncodeValue.ApplySizeHint | packages/core/codec/encoder.ts:434-442 | a size hint never changes what has been written |
| EncodeValue.EncodeValue | packages/core/codec/descriptors.ts:60-589 | every combinator appends exactly the encoding of the value, or fails with a prefix of it because the limit is reached |
| EncodeValue.EncodeDictionary | packages/core/codec/descriptors.ts:334-346 | entries are sorted before they are written |
| EncodeValue.EncodeOptional | packages/core/codec/encoder.ts:400-407 | the presence flag and the value |
| EncodeValue.EncodePairs | packages/core/codec/descriptors.ts:340-346 | keys and values alternate |
| EncodeValue.EncodeList | packages/core/codec/encoder.ts:414-432 | the item loop appends the items in order |
| EncodeValue.EncodeRecord | packages/core/codec/descriptors.ts:546-589 | the field loop appends the fields in order |
| EncodeValue.EncodeObject | packages/core/codec/encoder.ts:98-105 | the result is the encoding for any starting size, and fails exactly when it is longer than the overall maximum |
| Decoder.Decoder.Clone | packages/core/codec/decoder.ts:89-91 | a second cursor at the same place |
| Decoder.Decoder.Advance | packages/core/codec/decoder.ts:346-349 | moves on exactly when the data suffices, else stays |
| Decoder.Decoder.Number | packages/core/codec/decoder.ts:112-164 | reads a little-endian number and leaves the rest |
| Decoder.Decoder.VarU64 | packages/core/codec/decoder.ts:228-250 | the byte loop computes the compact decoding |
| Decoder.Decoder.VarU32 | packages/core/codec/decoder.ts:191-225 | the five unrolled cases compute the 32-bit compact decoding |
| Decoder.Decoder.Bool | packages/core/codec/decoder.ts:172-183 | fails at the end of the data or above 1 |
| Decoder.Decoder.BitVecFixLen | packages/core/codec/decoder.ts:274-293 | reads whole bytes and rejects set padding bits exactly as the pure decoding does |
| Decoder.Decoder.DecodeValue | packages/core/codec/descriptors.ts:60-589 | the imperative decoder of every combinator computes the pure decoding, failures included |
| Decoder.Decoder.DecodeList | packages/core/codec/decoder.ts:316-322 | the item loop |
| Decoder.Decoder.DecodeMap | packages/core/codec/descriptors.ts:347-364 | the dictionary loop with its order and duplicate checks |
| Decoder.Decoder.DecodeRecord | packages/core/codec/descriptors.ts:546-589 | the field loop |
| Decoder.Decoder.SkipValue | packages/core/codec/skip.ts:31-75 | the imperative skipper of every combinator, exact hints included, moves as the pure skipping does, and stops where `SkipStop` says when it throws |
| Decoder.Decoder.SkipList | packages/core/codec/skip.ts:66-70 | the item loop of the skipper |
| Decoder.Decoder.SkipRecord | packages/core/codec/descriptors.ts:556-564 | the field loop of the class skipper |
| Decoder.DecodeObject | packages/core/codec/decoder.ts:33-39 | succeeds exactly when the bytes are one value and nothing more |
| Locality.DecodeLocal | packages/core/codec/decoder.ts:33-39 | the consumed bytes in front of anything else decode to the same value and leave exactly the rest |
| Views.ViewField.Materialize | packages/core/codec/view.ts:13-53 | the value decoded at the field's place, however often and after whatever other access |
| Views.ViewField.View | packages/core/codec/view.ts:13-53 | for every descriptor: the same view each time, showing the bytes at the field's place; a fresh one has fresh caches and cursors and is there exactly when its bytes can be read |
| Views.DecodeView | packages/core/codec/descriptors.ts:251-490 | the view of any descriptor: lazy sequences and objects are opened and skipped, everything else is decoded, and the cursor ends where reading ends |
| Views.DecodeInside | packages/core/codec/descriptors.ts:251-413 | views inside an optional, a pair or a dictionary, each opened at its own place |
| Views.DecodeBoth | packages/core/codec/descriptors.ts:387-413 | the second view of a pair starts where reading the first ends |
| Views.DecodeViewEntries | packages/core/codec/descriptors.ts:347-381 | keys are decoded, values opened as views, with the same order and duplicate checks |
| Views.ViewReadsSame | packages/core/codec/descriptors.ts:251-490 | whenever the value decodes, reading its view stops at the same byte |
| Views.ShownStandsFor | packages/core/codec/view.ts:13-53 | and the view stands for the decoded value, nested sequences and objects included |
| Views.ViewField.Encoded | packages/core/codec/view.ts:13-53 | the slice the skipper passes over at the field's place |
| Views.OpenSequence | packages/core/codec/descriptors.ts:661-715 | opening a sequence view moves the original decoder past the sequence and the view's items end there |
| Views.OpenObject | packages/core/codec/descriptors.ts:616-659 | opening an object view moves the original decoder past the object |
| Views.SequenceView.constructor | packages/core/codec/view.ts:182-189 | the view starts at the first item with an empty cache |
| Views.SequenceView.Get | packages/core/codec/view.ts:218-230 | in any order and repetition: the cached field at the place where skipping the earlier items ends, nothing beyond the length, failure exactly when skipping fails; after a failure, cached items are still found and others are read from where the cursor was left |
| Views.SequenceView.DecodeUpTo | packages/core/codec/view.ts:247-277 | the cursor sits just after the last cached item, or where skipping the next one throws; cached fields stay the same objects |
| Views.SequenceView.DecodeNext | packages/core/codec/view.ts:256-271 | one turn: a fresh field at the cursor, which moves past it; a turn that fails caches nothing and leaves the cursor where skipping throws |
| Views.SequenceView.MovedRight | packages/core/codec/view.ts:247-277 | items decoded on from a cursor in its place are each where skipping the earlier ones ends, and fail exactly when that does |
| Views.SequenceView.MapMaterialized | packages/core/codec/view.ts:203-211 | every item decoded at its own place |
| Views.SequenceView.Encoded | packages/core/codec/view.ts:233-245 | the slice of the sequence, but no bytes at all for an empty one |
| Views.EncodedIsSliceExactly | packages/core/codec/view.ts:233-245 | that answer is the slice if and only if there is an item or no length prefix |
| Views.EmptySequence | packages/core/codec/view.ts:233-245 | the view of an empty sequence of booleans: its length is zero, for which the answer is no bytes, while its slice is one byte |
| Views.AfterFailure | packages/core/codec/view.ts:218-277 | a view of one blob that is cut short: the first access fails, the second gives an item that starts inside the blob |
| Views.ObjectView.constructor | packages/core/codec/view.ts:67-74 | the view starts at the first field with an empty cache |
| Views.ObjectView.Get | packages/core/codec/view.ts:106-113 | in any order and repetition: the cached field at the place where skipping the earlier fields ends; after a failure, cached fields are still found and others are read from where the cursor was left |
| Views.ObjectView.DecodeUpTo | packages/core/codec/view.ts:115-152 | the same for fields |
| Views.ObjectView.DecodeNext | packages/core/codec/view.ts:127-146 | one turn of that loop |
| Views.ObjectView.MovedRight | packages/core/codec/view.ts:115-152 | the same for fields |
| Views.ObjectView.Encoded | packages/core/codec/view.ts:87-101 | the slice the fields occupy |
| Views.ObjectView.Materialize | packages/core/codec/view.ts:80-84 | every field decoded at its own place |
| Views.ItemsAgree | packages/core/codec/view.ts:218-230 | whenever the whole sequence decodes, the i-th item view stands for the i-th decoded item |
| Views.MapAgrees | packages/core/codec/view.ts:203-211 | and mapping over the view gives the decoded items |
| Views.FieldsAgree | packages/core/codec/view.ts:80-84 | whenever the object decodes, its view materializes to the same fields |
| Views.FieldAgrees | packages/core/codec/view.ts:106-113 | and each single field view stands for the decoded field |
| Views.EncodedDecodesAlone | packages/core/codec/view.ts:87-101 | the slice given as the encoding decodes, on its own, to the same value |
| BlobRuns.Serve | packages/core/collections/blob-dictionary.ts:105-262 | any run of set, get and delete: when all keys have one number of six-byte chunks it leaves the map and gives the answers a plain finite map would, with any threshold; a run that sets a key and then, in rounds, longer keys with the same stem and the first one again does not |
| BlobRuns.Disagreement | packages/core/collections/blob-dictionary.ts:105-262 | the converse is never empty: for any two lengths with different numbers of chunks and any threshold up to 2^56 there is such a run over keys of these lengths |
| BlobRuns.Answered | packages/core/collections/blob-dictionary.ts:105-262 | one request: what it does to tree and leaves and what it answers, in a run like a finite map or not |
| BlobRuns.LongSet | packages/core/collections/blob-dictionary.ts:105-160 | a round sets a longer key: the first one is pushed out of place, or goes to a deeper list, or the list has one more key and still fits the threshold |
| BlobRuns.TrackSet | packages/core/collections/blob-dictionary.ts:105-160 | where the leaf of the first key is after each request, until all rounds are over |
| BlobRuns.TrackGet | packages/core/collections/blob-dictionary.ts:187-215 | reading the first key when it is out of place gives the value before the last one |
| BlobStrays.SetThenGet | packages/core/collections/blob-dictionary.ts:172-215 | what has been set is read back if and only if no leaf of the key is out of place, or it holds the same value |
| BlobStrays.DeleteThenGet | packages/core/collections/blob-dictionary.ts:187-262 | delete finds a key exactly when it has a leaf in place; a leaf out of place stays and goes on being found |
| BlobStrays.OldValue | packages/core/collections/blob-dictionary.ts:172-215 | a dictionary after a one-byte key, one of seven bytes and the first again with another value: the index lists the new value, the old one is found |
| BlobStrays.NotDeleted | packages/core/collections/blob-dictionary.ts:187-262 | a dictionary after a one-byte key, one of seven bytes and deleting the first: it is still in the index and still found |
| BlobStrays.LostKey | packages/core/collections/blob-dictionary.ts:105-215 | a dictionary after a six-byte key and one of thirteen set twice: the index has both, the first is not found |
| BlobStrays.PrefixAnswers | packages/core/collections/blob-dictionary.ts:187-215 | a dictionary with a value for the empty key only: that value is found for any other key |
| BlobRuns.FromEntries | packages/core/collections/blob-dictionary.ts:83-89 | entries set one by one; with one number of chunks the result is the entries in order of first setting, the last value of each key |
| BlobConversions.OneCountIsSafe | packages/core/collections/blob-dictionary.ts:105-262 | with one number of chunks no conversion puts a key out of place and no list node on the way has a leaf of its own |
| BlobConversions.Followed | packages/core/collections/blob-dictionary.ts:105-160 | a leaf in a list on the way of a key that is set stays there, goes to a deeper list or is put out of place, by whether the list becomes a map and how long its own key is |
| BlobConversions.Crowded | packages/core/collections/blob-dictionary.ts:440-449 | a list holds every key in place that leads to it, so with one more it is longer than their number |
| BlobDictionary.BlobDictionary.Set | packages/core/collections/blob-dictionary.ts:172-177 | for any key: the key gets exactly one leaf in place, other leaves keep their values, exactly the short keys of a list that becomes a map go out of place; with none out of place before, the index is updated as insertion-ordered entries are |
| BlobDictionary.BlobDictionary.Delete | packages/core/collections/blob-dictionary.ts:255-262 | for any key: true exactly when the key has a leaf in place, which goes from tree and index; exactly the short keys of a list that becomes a map go out of place |
| BlobDictionary.BlobDictionary.Get | packages/core/collections/blob-dictionary.ts:187-215 | the value of the leaf out of place, else of the leaf in place, else of a list node with a leaf of its own on the way |
| BlobDictionary.BlobDictionary.FoundAnswer | packages/core/collections/blob-dictionary.ts:187-215 | there is at most one leaf of each of the three kinds, so each alone decides what is found |
| BlobDictionary.BlobDictionary.Has | packages/core/collections/blob-dictionary.ts:243-245 | exactly when there is such a leaf |
| BlobDictionary.BlobDictionary.InternalSet | packages/core/collections/blob-dictionary.ts:105-160 | the walk changes exactly the leaf of the key, returns a leaf exactly when it was added or removed, and tells which list became a map |
| BlobDictionary.BlobDictionary.Descend | packages/core/collections/blob-dictionary.ts:133-157 | one level down at a map node, creating the missing child only when setting |
| BlobDictionary.BlobDictionary.ListStep | packages/core/collections/blob-dictionary.ts:122-131 | insert or remove in a list node, which becomes a map node exactly when it has outgrown the threshold and the key goes beyond the next chunk |
| BlobDictionary.BlobDictionary.ListInsert | packages/core/collections/blob-dictionary.ts:440-449 | an equal subkey is overwritten in place, another one appended |
| BlobDictionary.BlobDictionary.ListRemove | packages/core/collections/blob-dictionary.ts:431-438 | takes the item of the subkey out of the list |
| BlobDictionary.BlobDictionary.NodeSet | packages/core/collections/blob-dictionary.ts:406-413 | sets the leaf of a node, overwriting in place |
| BlobDictionary.BlobDictionary.NodeRemove | packages/core/collections/blob-dictionary.ts:396-404 | takes the leaf out of a node |
| BlobDictionary.BlobDictionary.ConvertListChildrenToMap | packages/core/collections/blob-dictionary.ts:371-377 | the tree stays right and holds the same leaves in place but those of subkeys that end within their chunk, which are out of place then |
| BlobDictionary.FromListNode | packages/core/collections/blob-dictionary.ts:466-485 | groups the items by chunk, shortened, in their order, in fresh list nodes |
| BlobTree.GraftShape | packages/core/collections/blob-dictionary.ts:466-485 | turning any list into a map keeps the tree right with exactly the leaves whose subkeys go on after the next chunk |
| BlobTree.GraftStrays | packages/core/collections/blob-dictionary.ts:466-485 | and which leaf is out of place for each key after that |
| BlobDictionary.BlobDictionary.Size | packages/core/collections/blob-dictionary.ts:50-52 | the cardinality of the map |
| BlobDictionary.BlobDictionary.Iterate | packages/core/collections/blob-dictionary.ts:295-299 | keys and values in insertion order |
| BlobDictionary.EntriesAreMap | packages/core/collections/blob-dictionary.ts:172-262 | insertion-ordered entries are a finite map: update, erase, lookup and size are those of the map |
| BlobTree.BytesAsU48 | packages/core/collections/blob-dictionary.ts:346-358 | the shifting loop computes the number of a chunk, 32-bit wrap-around included |
| BlobTree.ChunkNumbersDiffer | packages/core/collections/blob-dictionary.ts:346-358 | chunks of at most six bytes have equal numbers only when equal, and every number is an exact double |
| BlobTree.AppendItemShape | packages/core/collections/blob-dictionary.ts:440-449 | appending a new subkey keeps the tree right and adds exactly that leaf |
| BlobTree.RemoveItemShape | packages/core/collections/blob-dictionary.ts:431-438 | removing an item keeps the tree right and loses exactly that leaf |
| BlobTree.PutLeafShape | packages/core/collections/blob-dictionary.ts:396-413 | setting or clearing a node's leaf keeps the tree right |
| BlobTree.AddChildShape | packages/core/collections/blob-dictionary.ts:487-495 | a new empty child keeps the tree right and changes no leaf |
| SortedCollections.BinarySearch | packages/core/collections/sorted-array.ts:137-165 | finds an equal element exactly when there is one, and otherwise the place where it belongs; of several equal ones the first middle that halving meets |
| SortedCollections.SortedArray.Insert | packages/core/collections/sorted-array.ts:81-84 | puts the element at the place halving finds, the others keep their order, and the array stays sorted |
| SortedCollections.SortedArray.RemoveOne | packages/core/collections/sorted-array.ts:114-122 | takes out the matching element halving finds, exactly when there is one, and keeps the order |
| SortedCollections.SortedArray.Has | packages/core/collections/sorted-array.ts:124-126 | agrees with linear search |
| SortedCollections.SortedArray.FindExact | packages/core/collections/sorted-array.ts:95-111 | an equal stored element exactly when there is one |
| SortedCollections.SortedArray.Pop | packages/core/collections/sorted-array.ts:91-93 | takes out the last element |
| SortedCollections.MergeArrays | packages/core/collections/sorted-array.ts:168-203 | the three loops compute the stable merge |
| SortedCollections.MergeAscending | packages/core/collections/sorted-array.ts:168-203 | merging sorted lists gives a sorted list |
| SortedCollections.MergeElements | packages/core/collections/sorted-array.ts:168-203 | and keeps every element as often as it was there |
| SortedCollections.Compact | packages/core/collections/sorted-set.ts:101-126 | compacting in the array that is still being read leaves exactly the elements that differ from their predecessor |
| SortedCollections.DedupStrict | packages/core/collections/sorted-set.ts:101-126 | what is left of a sorted list is strictly sorted and taken from it |
| SortedCollections.UnionRight | packages/core/collections/sorted-set.ts:101-126 | the union of two sorted collections is strictly sorted and holds, up to the comparator, exactly the elements of both |
| SortedCollections.SetFromTwo | packages/core/collections/sorted-set.ts:101-126 | the union; it throws if and only if one side is empty and the other has duplicates |
| SortedCollections.DuplicatesThrow | packages/core/collections/sorted-set.ts:101-126 | nothing and one element twice: it throws |
| SortedCollections.CheckStrict | packages/core/collections/sorted-set.ts:60-75 | passes exactly the strictly sorted lists |
| SortedCollections.SetFromArray | packages/core/collections/sorted-set.ts:20-36 | a strictly sorted set with, up to the comparator, exactly the elements of the array |
| SortedCollections.SortedSet.Insert | packages/core/collections/sorted-set.ts:78-83 | adds the element unless an equal one is there, and keeps the set strictly sorted |
| SortedCollections.SortedSet.Replace | packages/core/collections/sorted-set.ts:90-98 | the new element displaces an equal one, which is given back, or is added |
| Chunking.AnyChunksRestore | packages/core/erasure-coding/erasure-coding.ts:66-119 | encoding any byte string and decoding any 342 different chunks of it gives it back, given Reed-Solomon recovery and redundancy shards that use only the columns the originals use |
| Chunking.DecodeDataAndTrim | packages/core/erasure-coding/erasure-coding.ts:81-86 | any 342 different chunks of padded data, cut to any expected length, are the padded data cut to it |
| Chunking.DecodeData | packages/core/erasure-coding/erasure-coding.ts:96-119 | chunks of a piecewise encoding decode to the data; odd or unequal chunk lengths are rejected |
| Chunking.PadAndEncodeData | packages/core/erasure-coding/erasure-coding.ts:66-76 | zero padding to whole pieces, then chunking |
| Chunking.ChunkingFunction | packages/core/erasure-coding/erasure-coding.ts:343-361 | chunk c is point c of every piece in order (Gray Paper, Appendix H); lengths that are no whole pieces are rejected |
| Chunking.Unzip | packages/core/erasure-coding/erasure-coding.ts:265-274 | the strided copy loops take every k-th byte |
| Chunking.Lace | packages/core/erasure-coding/erasure-coding.ts:289-303 | the interleaving copy loops |
| Chunking.LaceUnzip | packages/core/erasure-coding/erasure-coding.ts:265-303 | lacing undoes unzipping |
| Chunking.UnzipLace | packages/core/erasure-coding/erasure-coding.ts:265-303 | and unzipping undoes lacing |
| Chunking.Transpose | packages/core/erasure-coding/erasure-coding.ts:315-331 | rows become columns |
| Chunking.TransposeTwice | packages/core/erasure-coding/erasure-coding.ts:315-331 | transposing twice changes nothing |
| ErasureCoding.EncodePoints | packages/core/erasure-coding/erasure-coding.ts:126-156 | the bytes spread over 64-byte shards and back are the points of the code |
| ErasureCoding.DecodePiece | packages/core/erasure-coding/erasure-coding.ts:163-207 | any 342 points of a piece with different indices give the piece back |
| ErasureCoding.Gather | packages/core/erasure-coding/erasure-coding.ts:163-190 | original points go straight to the result, all points to the decoder's input, each at its place |
| ErasureCoding.Fill | packages/core/erasure-coding/erasure-coding.ts:190-207 | restored shards complete the result |
| Sharding.ChunksToShards | packages/core/erasure-coding/erasure-coding.ts:398-421 | the shards are consecutive stretches of the chunks written down twice |
| Sharding.EveryChunkDealt | packages/core/erasure-coding/erasure-coding.ts:398-421 | every chunk is dealt to some validator |
| Sharding.ShardsToChunks | packages/core/erasure-coding/erasure-coding.ts:364-395 | cuts the shards into equal pieces numbered on from shard to shard modulo 1023 |
| Sharding.EndlessExactly | packages/core/erasure-coding/erasure-coding.ts:364-395 | the loop over a chunk number that may be infinite never ends if and only if the shards hold between 1 and 1022 bytes in all |
| Sharding.ReadBackExactly | packages/core/erasure-coding/erasure-coding.ts:364-421 | every validator's own chunks come back with index and content if and only if (V m - 1023) s < 1023, where V validators get m = ceil(1023 / V) chunks of s bytes each |
| Sharding.FullAndTiny | packages/core/erasure-coding/erasure-coding.ts:364-421 | that always holds for 1023 validators, and for 6 exactly below 341 bytes a chunk |
| Sharding.LastShardEmpty | packages/core/erasure-coding/erasure-coding.ts:364-421 | above 2046 validators the last shard comes out empty and the reader rejects the unequal shards |
| Sharding.AlignedBytes | packages/core/erasure-coding/erasure-coding.ts:398-410 | the two roundings up give ceil(1023 / V) whole chunks at any chunk length |
| Sharding.DerivedSize | packages/core/erasure-coding/erasure-coding.ts:364-375 | the chunk size the reader derives is right exactly when the surplus is below 1023 bytes |
| Sharding.ShardIsChunks | packages/core/erasure-coding/erasure-coding.ts:398-421 | a shard is the joined chunks of its validator, wrap-around included |
| Sharding.PieceIsChunk | packages/core/erasure-coding/erasure-coding.ts:376-392 | cutting a shard at chunk borders gives each chunk with its number |
| Mmr.AppendAll | packages/core/mmr/index.ts:61-79 | after n appends the mountains cover the n leaves in order, with sizes the binary form of n |
| Mmr.MerkleMountainRange.Append | packages/core/mmr/index.ts:61-79 | the pop-and-merge loop computes the addition of one mountain of size 1 |
| Mmr.AppendCovers | packages/core/mmr/index.ts:61-79 | appending keeps every mountain the perfect Merkle root of its own block of leaves, the older block on the left |
| Mmr.BinaryCounter | packages/core/mmr/index.ts:61-79 | mountains that cover n leaves have the strictly decreasing powers of two of n as sizes |
| Mmr.SizesAreBinaryForm | packages/core/mmr/index.ts:124-148 | strictly descending powers of two are the binary form of their sum |
| Mmr.AppendAgrees | packages/core/mmr/index.ts:61-79 | appending to the mountains is the recursive append of Gray Paper Appendix E.2 to the list of peaks |
| Mmr.MerkleMountainRange.GetSuperPeakHash | packages/core/mmr/index.ts:86-98 | folds the mountains' hashes as the recursive super-peak of Gray Paper Appendix E.2 does |
| Mmr.PeaksInOrder | packages/core/mmr/index.ts:86-120 | the hashes folded are the peaks that are not null, in order of the list |
| Mmr.SuperPeakOf | packages/core/mmr/index.ts:36-98 | for a list of peaks: the super-peak of Gray Paper Appendix E.2 over that list |
| Mmr.MerkleMountainRange.FromPeaks | packages/core/mmr/index.ts:36-48 | the mountains a list of peaks stands for, largest first |
| Mmr.MerkleMountainRange.GetPeaks | packages/core/mmr/index.ts:101-120 | the list of peaks without trailing nulls that stands for the mountains; the scan ends as no mountain exceeds 2^30 |
| Mmr.PeaksUnique | packages/core/mmr/index.ts:101-120 | there is only one such list |
| Mmr.PeaksRoundTrip | packages/core/mmr/index.ts:36-120 | from peaks and back: the list without its trailing nulls |
| Mmr.MountainsRoundTrip | packages/core/mmr/index.ts:36-120 | to peaks and back: the same mountains |
| Mmr.NeverFound | packages/core/mmr/index.ts:101-120 | a mountain of more than 2^30 leaves is met at no position of the 32-bit scan, which then never ends |
| Executor.StepInv | packages/core/concurrent/parent.ts:60-133 | every step keeps the invariant: a worker is free or runs one task, tasks are neither lost nor doubled, workers plus one starting stay within the maximum, a waiting queue means no free worker |
| Executor.ReachableInv | packages/core/concurrent/parent.ts:28-185 | so does every run, in which workers and settled tasks never become fewer |
| Executor.EachTaskOnce | packages/core/concurrent/parent.ts:88-185 | in every reachable state each submitted task is in exactly one place among queue, workers and settled tasks, so it settles at most once |
| Executor.StrandedExactly | packages/core/concurrent/parent.ts:88-133 | after any run: tasks wait with nothing left to happen if and only if the pool was started with no workers and run was called at least once and at most five times |
| Executor.RunCounts | packages/core/concurrent/parent.ts:88-133 | as long as a pool without workers has started none, every call is in the queue, and there are at most five |
| Executor.NeverStranded | packages/core/concurrent/parent.ts:28-133 | a pool started with a worker has settled everything when nothing is left to happen |
| Executor.ProcessInv | packages/core/concurrent/parent.ts:105-133 | dispatching leaves nothing that could be dispatched |
| Executor.Executor.Run | packages/core/concurrent/parent.ts:88-102 | queue, dispatch, and start a worker where the code does |
| Executor.Executor.ProcessEntryFromTaskQueue | packages/core/concurrent/parent.ts:105-133 | pairs the newest task with the newest free worker |
| Executor.Executor.OnWorkerReady | packages/core/concurrent/parent.ts:60-75 | a started worker joins and takes a task |
| Executor.Executor.OnMessage | packages/core/concurrent/parent.ts:170-185 | an answer settles its task, frees the worker and goes on with the queue |
| Executor.Executor.InitNewWorker | packages/core/concurrent/parent.ts:60-75 | starts a worker only below the maximum |
| Executor.Initialize | packages/core/concurrent/parent.ts:28-40 | rejects exactly a zero maximum or a minimum above it |
| Executor.Drive | packages/core/concurrent/parent.ts:28-185 | any order of calls, starts and answers ends in the state of the run |
| Frames.Run | packages/core/networking/message.ts:19-57 | however the stream is cut into data calls, the frames of the whole stream are delivered in order, unless some call overflows; then those of the pieces before the first such call are |
| Frames.FragmentHandler.Receive | packages/core/networking/message.ts:19-57 | one call delivers the complete frames of retained and new bytes and retains exactly the undelivered suffix; it throws exactly when a frame is completed in a buffer above the maximum |
| Frames.StreamsContinue | packages/core/networking/message.ts:19-57 | further bytes continue where the last complete frame ended |
| Frames.NothingMoreToDeliver | packages/core/networking/message.ts:19-57 | what is retained holds no complete frame |
| Frames.FrameHeader | packages/core/networking/message.ts:9-11 | a message behind its length prefix is read back, whatever follows |
| Frames.FramesRoundTrip | packages/core/networking/message.ts:9-57 | framed messages, empty ones included, are delivered as they were |
| Frames.SentIsDelivered | packages/core/networking/message.ts:9-57 | in whatever pieces their bytes arrive |
| Gas.GasCounter.Sub | packages/core/pvm-interpreter/gas.ts:28-36 | charges in full or empties the counter, keeping the account of all charges |
| Gas.GasCounter.Set | packages/core/pvm-interpreter/gas.ts:20-22 | lowering counts as a charge |
| Gas.GasCounter.Used | packages/core/pvm-interpreter/gas.ts:38-47 | the sum of all charges, and the initial gas once they exceed it or the gas was raised above the start |
| Gas.StepPays | packages/core/pvm-interpreter/interpreter.ts:174-284 | every step charges something, takes what it charges, and runs out of gas exactly when it charges more than there is |
| Gas.RunPays | packages/core/pvm-interpreter/interpreter.ts:170-172 | a run stops within gas + 1 steps and takes exactly the sum of its charges |
| Gas.Interpreter.NextStep | packages/core/pvm-interpreter/interpreter.ts:174-284 | resumes after a host call, charges first, then traps, panics, charges for memory growth or dispatches |
| Gas.Interpreter.Perform | packages/core/pvm-interpreter/interpreter.ts:205-284 | memory growth is paid before it takes effect |
| Gas.Interpreter.RunProgram | packages/core/pvm-interpreter/interpreter.ts:170-172 | the loop ends and computes the run |
| Gas.ExecutePays | packages/core/pvm-host-calls/host-calls-executor.ts:90-170 | the resume loop makes no more host calls than there is gas; consumed gas is the sum of all charges, and an underflow anywhere gives out-of-gas with exactly the initial gas |
| Gas.Execute | packages/core/pvm-host-calls/host-calls-executor.ts:90-170 | the loop ends and computes the resume loop's result and final state |
| Gas.GetReturnValue | packages/core/pvm-host-calls/host-calls-executor.ts:53-88 | consumed gas with out-of-gas, panic or the loaded result |
| Gas.RunWithHostCalls | packages/core/pvm-host-calls/host-calls-executor.ts:172-182 | a fresh instance run to its end never consumes more than the initial gas |
| Shuffle.FisherYatesShuffle | packages/core/shuffling/shuffling.ts:14-31 | the in-place loop computes the recursive definition of Gray Paper Appendix F, consumes its input, and changes nothing when the entropy has the wrong length |
| Shuffle.ShufflePermutes | packages/core/shuffling/shuffling.ts:14-31 | the result is a permutation |
| Shuffle.ChoicesDecideOrder | packages/core/shuffling/shuffling.ts:14-31 | different choices give different orders, so none is reached twice |
| Shuffle.HashToNumberSequence | packages/core/shuffling/shuffling.ts:33-48 | numbers are the little-endian quarters of the hashes of entropy and counter, the scratch buffer overwritten in between |
| Shuffle.TakeAll | packages/core/shuffling/shuffling.ts:14-31 | the swap-and-shorten loop |

## Left out

- Hash functions and Reed-Solomon coding are parameters. The code is assumed to restore missing original shards from any 342 shards with different indices, and to leave the unused columns of redundancy shards zero when those of the originals are; `Shuffle` assumes hashes of 32 bytes.
- What a PVM instruction or a host call does is a parameter of `Gas`, as are the gas table, whose entries are only assumed to be positive, and the result region read from memory. Argument decoding, basic blocks and `calculateBlockGasCost` are not modelled.
- Gas.Execute: assumes that host calls never raise the gas, without which the loop need not end.
- Gas.ExecutePays: assumes that host calls never raise the gas, without which the loop need not end.
- Gas.RunWithHostCalls: assumes that host calls never raise the gas, without which the loop need not end.
- Skipping.SkipAgrees: the condition on dictionaries is sufficient. Its converse is proved for fixed-size keys and blob values (`SkipLimits.FixedLengthExactly`); for other pairs of codings that differ it depends on the bytes.
- SkipLimits.VariableValuesFail: for keys that take less than 2^32 bytes together, since the length of the first value has to count over them.
- SkipLimits.FixedLengthExactly: for keys that take less than 2^32 bytes together.
- BlobRuns.Disagreement: for thresholds up to 2^56. An array has less than 2^32 elements, so at larger ones no list of the code ever becomes a map.
- Views.SequenceView.Encoded: requires that no access failed before; what it gives otherwise is not stated.
- Views.SequenceView.MapMaterialized: requires that no access failed before.
- Views.ObjectView.Encoded: requires that no access failed before.
- Views.ObjectView.Materialize: requires that no access failed before.
- Skipping.MaxHint: gives 0 for a union without variants, where `Math.max` of nothing is minus infinity. Such a union has no values, and its hint is never exact.
- Sharding.ShardsToChunks: requires that the shards are unequal or hold no bytes or at least 1023 in all, because the code does not end otherwise (`Sharding.EndlessExactly`).
- Mmr.MerkleMountainRange.GetPeaks: requires mountains of at most 2^30 leaves, because the code does not end otherwise.
- Mmr.PeaksRoundTrip: requires peak lists whose trimmed form has at most 31 places, because the code does not end otherwise.
- Mmr.MountainsRoundTrip: requires mountains of at most 2^30 leaves, because the code does not end otherwise.
- Chunking.DecodeData: what comes back when the chunks do not belong to one encoding is not stated.
- Chunking.DecodeDataAndTrim: the same.
- The descriptors `custom`, `select` and `string`, the `convert` wrappers, and the `typicalLength` option of sequences, which only tunes a size hint.
- Fields of classes are named by position.
- The duplicate check of a decoded dictionary compares keys as values; the string keys of its JavaScript map are not modelled.
- Setting `undefined` in a blob dictionary, which the code treats as a removal.
- The trie's temporary flip of a bit in the caller's hash buffer: the store is a map keyed by the masked hash. `InMemoryTrie` as text.
- `SortedArray.fromArray`, `fromSortedArray` and `slice`; 32-bit index arithmetic in the binary search, which needs more than 2^30 elements.
- `split` and `join` of erasure coding apart from their use in chunking, and the generated test vectors.
- `Executor.destroy`, workers that fail to start, and calls of `initNewWorker` from outside. Nothing is claimed about fairness: the queue is last-in, first-out.
- Cryptography, networking other than frame reassembly, JSON, the command line, logging, metrics and the remaining thin wrappers of `packages/core`, which would add only easy members.
