# Willow SDK: verified model

A Dafny model of the parts of the Willow TypeScript SDK that decide what a client may believe: the GroveDB proof
verifier, the query selection and the node's JSON, the nonce allocator and the submission protocol, the encodings a
signature covers, and the Ethereum trie check. `dafny verify dfyconfig.toml` checks it.

Each algorithm the SDK runs by changing state is a method or a class here (the stack machine, the tree, the collector,
the readers, the parser, the writer, the allocator, the client), proved equal to a function of its inputs or of the old
state; what the SDK promises is proved of those functions.

## The system

**GroveDB proofs.** A merk proof is a stream of operations for a stack machine (`Executor`, run by `MerkTree`), which
builds a partial binary tree and hashes it. A layered proof (`LayerVerifier`, run by `GroveVerifier` and
`AbsenceCheck`) chains such trees. The meaning of a proof is a statement about a *real grove* (`Grove`): nested search
trees whose entries are values, references (hashed with the bytes of their target) and subtrees. `Soundness` and
`AbsenceSoundness` prove that whatever is accepted with a real grove's root is true of that grove; `HonestProofs`,
`HonestLayers` and `HonestAbsence` prove which of a real grove's own proofs are accepted: all that show enough. Hashes
are ideal (`Hash`): a free datatype, so two hashes are equal only when they were made the same way from the same parts,
with `Other` for 32 bytes that are no such hash. `HashLayout` proves that the byte layout under each kind of hash tells
its parts apart, and exactly when two layouts of different kinds coincide, as they carry no tag; `IdealHashes` that
comparing bytes is comparing ideal hashes exactly where no such two hashes meet, which the soundness theorems assume. `BincodeReading`, `MerkFormat`, `ElementCodec` and
`ProofDecoding` are the bytes of proofs and elements, read by `BincodeReader` and `MerkDecoder`.

**Numbers and JSON.** `ParseF64` proves the integer-only decimal-to-double conversion correctly rounded, against the
rational value of the text (`Double`, `JsonNumber`). `ExactDecimal` is exact decimal equality; `JsonValue` and
`JsonPrint` are the node's JSON reading and compact writing, `JsonParser` the parser that runs; `JsBinding` binds a
returned JavaScript value to a proven document. `SortKeys`, `StableSort` and `QuerySelection` are the selection a query
makes and the check of a response; `QueryRequest` reads and refuses a request as the API does; `QuerySoundness` ties an
accepted response to the real grove's own items.

**Nonces and submission.** `NonceState` merges reports of used nonces, `Nonces` is the allocator, `NonceRuns` its
safety over every run of its steps in any interleaving, told by the history of events alone. `TxSubmit` classifies one
post's answer and `Settlement` is the send, retry and resubmit protocol, each run of which is a run of the allocator
with the steps other writes make at each await. `ConcurrentWrites` is any number of writes whose steps interleave, and
exactly when they never share a nonce.

**Signed bytes.** `SubgroveWire`, `SubgroveBincode` and `BincodeWriter` are the bincode of a registration;
`SignedMessages` the messages signatures cover. `Mpt` and `MptSoundness` are the Ethereum trie walk and the trie it is
about; a node too short to be referenced by its hash is inline in its parent there.

Text is a sequence of UTF-16 code units. An operation that throws in the SDK gives `None`, a refusing result, or a
verdict here.

## Model

| member | source | states |
|---|---|---|
| Bytes.CompareBytes | src/grovedb/tree.ts:193-200 | the sign of the comparison is the lexicographic order on byte strings, zero exactly for equal ones |
| MerkTree.Tree.Attach | src/grovedb/tree.ts:95-111 | a child is attached on a side only where none is, and never to a pruned node; the tree's partial-tree value changes by exactly that |
| MerkTree.Tree.IntoHash | src/grovedb/tree.ts:116-119 | the collapsed node stands for the same root hash, with nothing below it |
| MerkTree.Tree.Nodes | src/grovedb/tree.ts:179-187 | the nodes left to right |
| MerkTree.StackMachine.PushNode | src/grovedb/executor.ts:55-77 | a keyed push is taken only in key order for an unchanged direction, and leaves the specified stack, last key and direction |
| MerkTree.StackMachine.AttachChild | src/grovedb/executor.ts:79-89 | the top two trees are joined as the operation says, or the stream is refused |
| MerkTree.ExecuteOps | src/grovedb/executor.ts:38-134 | the mutable stack machine and its visitor compute exactly the specified execution and visit the pushed nodes in order |
| ExecutorProperties.PushOrderIsTreeOrder | src/grovedb/executor.ts:38-134 | for every accepted upright stream the tree's in-order nodes are the pushed ones in push order; for every accepted inverted stream, in reverse |
| ExecutorProperties.PushedNodesAreTreeNodes | src/grovedb/executor.ts:38-134 | whatever the mix of directions, the nodes visited are exactly the nodes of the final tree |
| ExecutorProperties.IncreasingIffJoinsInOrder | src/grovedb/executor.ts:38-134 | an accepted stream of any directions builds a tree whose keys strictly increase in order if and only if, each time two trees are joined, the last key of the one going left is below the first key of the one going right |
| ExecutorProperties.TreeKeysIncrease | src/grovedb/executor.ts:55-77 | the order check alone ensures this for every accepted stream all upright, or all inverted |
| ExecutorProperties.MixedStreamMayDisorder | src/grovedb/executor.ts:55-77 | and does not for one of both directions: this stream is accepted and its tree has two keys the wrong way round |
| ExecutorProperties.CollapseIsInvisible | src/grovedb/executor.ts:82-112 | collapsing children or not, the same streams are accepted and the root hash is the same |
| ExecutorProperties.TreeHashesAreLeaves | src/grovedb/tree.ts:95-111 | in an executed tree a pruned node has nothing below it |
| HonestProofs.EmitExecutes | src/grovedb/executor.ts:79-133 | the operations a tree is written as, run by the machine, build that tree again |
| HonestLayers.PruningExecutes | src/grovedb/executor.ts:38-134 | every pruning of a real search tree, written as operations, is accepted with the real tree's root hash, collapsed or not |
| HonestLayers.HonestLayerAccepted | src/grovedb/verifier.ts:299-385 | an honest layered proof of a path, any pruning at its end, is accepted with the real grove's root, and records where the path ends at an empty subtree |
| HonestLayers.HonestCompleteLayerAccepted | src/grovedb/verifier.ts:458-497 | an honest proof is accepted as a complete layer if and only if every node at the path's end gives its value and no subtree there is full (or it stops at an empty subtree before), then with the real root and exactly the entries |
| HonestLayers.FullProofIsHonest | src/grovedb/verifier.ts:458-497 | the unpruned proof of any path of a real grove is such an honest proof, so one exists |
| HonestAbsence.ProvesAbsentIffShown | src/grovedb/verifier.ts:505-533 | a pruning of a real tree proves a key absent if and only if the key is absent and both its neighbouring keys are shown |
| HonestAbsence.HonestAbsenceAccepted | src/grovedb/verifier.ts:402-419 | an honest proof, whatever it prunes, is accepted as one of a key's absence exactly when the key is absent at the path and both its neighbours are shown there (or it stops at an empty subtree before), then with the real root |
| HonestAbsence.FullProofProvesAbsence | src/grovedb/verifier.ts:402-419 | the unpruned proof of a path proves exactly the keys absent there to be so |
| LayerVerifier.EnvelopeDepthBound | src/grovedb/verifier.ts:132-152 | a proof's envelope descends at most the queried path |
| GroveVerifier.ExecuteWithQuery | src/grovedb/executor.ts:156-237 | the query execution's root and result set are the specified tree's hash and the visited nodes' entries |
| GroveVerifier.VerifyLayerProof | src/grovedb/verifier.ts:299-385 | the recursion that appends to shared result lists computes exactly the specified layer result, added to what was there |
| GroveVerifier.DescendEnvelope | src/grovedb/verifier.ts:132-152 | the loop computes the specified depth and refuses a lower layer off the path |
| GroveVerifier.VerifyGroveProof | src/grovedb/verifier.ts:184-213 | header, envelope, layers and early stop checked as specified |
| GroveVerifier.VerifyWholeSubtree | src/grovedb/verifier.ts:458-497 | the whole-subtree verification computes the specified complete layer |
| AbsenceCheck.CollectNodes | src/grovedb/verifier.ts:505-516 | the explicit-stack traversal gives the nodes in order |
| AbsenceCheck.MerkProvesAbsent | src/grovedb/verifier.ts:505-533 | true exactly when the keyed nodes ascend and the key falls in a gap between two adjacent keyed nodes, or past a keyed first or last node |
| AbsenceCheck.VerifyAbsence | src/grovedb/verifier.ts:402-419 | gives the specified absence verification |
| Soundness.LayerSound | src/grovedb/verifier.ts:261-385 | every entry surfaced by an accepted layer with a real tree's root is stored at that path and key with those bytes (a reference's target's), its element and whether it is a subtree read from them; an entry without a value is at least a key there, and every subtree recorded empty is empty, through all nested layers |
| Soundness.CompleteLayerSound | src/grovedb/verifier.ts:458-497 | an accepted complete layer is exactly the real subtree's entries in key order, with the stored bytes; one that stops early has none and stops at a really empty subtree |
| Soundness.EarlyStopSound | src/grovedb/verifier.ts:184-213 | a proof may stop short of the path only at a subtree that is really empty |
| AbsenceSoundness.GapIsEmpty | src/grovedb/verifier.ts:505-533 | in any partial tree mixing pruned, hidden-key and revealed nodes, nothing of the real tree lies between two adjacent keyed nodes |
| AbsenceSoundness.KeyAbsenceSound | src/grovedb/verifier.ts:402-419 | an accepted absence proof with a real grove's root is of a key that grove does not hold at that path |
| HashLayout.EncodeVarint | src/grovedb/varint.ts:25-36 | the loop writes the specified LEB128 |
| HashLayout.ValuePreimage | src/grovedb/hash.ts:29-35 | the filled buffer is the length prefix and the value |
| HashLayout.KvPreimage | src/grovedb/hash.ts:60-72 | the filled buffer is the key's length prefix, the key and the value hash |
| HashLayout.NodePreimage | src/grovedb/hash.ts:78-84 | the filled buffer is the three hashes in their places |
| HashLayout.CombinePreimage | src/grovedb/hash.ts:90-95 | the filled buffer is the two hashes in their places |
| HashLayout.ValueLayoutTells | src/grovedb/hash.ts:25-35 | two values with the same hashed bytes are equal |
| HashLayout.KvLayoutTells | src/grovedb/hash.ts:56-72 | two key and value-hash pairs with the same hashed bytes are equal |
| HashLayout.NodeLayoutTells | src/grovedb/hash.ts:74-84 | two triples of hashes with the same hashed bytes are equal |
| HashLayout.CombineLayoutTells | src/grovedb/hash.ts:86-95 | two pairs of hashes with the same hashed bytes are equal |
| HashLayout.KindsThatNeverMeet | src/grovedb/hash.ts:25-95 | no value's hashed bytes are a key's, and no node's are two combined hashes' |
| HashLayout.WhenValueMeets | src/grovedb/hash.ts:25-95 | a value is hashed over the bytes of two combined hashes, or of a node, exactly when it is these 63, or 95, bytes of them |
| HashLayout.WhenKvMeets | src/grovedb/hash.ts:56-95 | a key and value hash are hashed over the bytes of two combined hashes, or of a node, exactly when the key is these 31, or 63, bytes of them |
| IdealHashes.ToldApartIffNoneMeet | src/grovedb/hash.ts:17-95 | over the bytes of any collision-free hash function, two hashes of any family with their parts are the same bytes only when they are the same ideal hash, if and only if no value or key of the family coincides so with a combined hash or a node of it |
| BincodeWriting.VarintReads | src/grovedb/bincode.ts:87-128 | every number up to 2^128 - 1, in its shortest form, reads back with what follows left over |
| BincodeWriting.SignedReads | src/grovedb/bincode.ts:159-170 | every zigzagged integer reads back as itself |
| BincodeWriting.VecOfByteVecReads | src/grovedb/bincode.ts:225-230 | every list of byte strings reads back |
| BincodeReader.Reader.Varint | src/grovedb/bincode.ts:87-128 | the offset-moving reader gives the specified number and leaves the specified bytes |
| BincodeReader.Reader.ByteVec | src/grovedb/bincode.ts:183-189 | likewise for a length and that many bytes |
| BincodeReader.Reader.OptionByteVec | src/grovedb/bincode.ts:201-208 | likewise for an optional byte string, any tag but 0 and 1 refused |
| BincodeReader.Reader.VecOfByteVec | src/grovedb/bincode.ts:225-230 | likewise for the list, read by a loop |
| BincodeReader.Reader.ReferencePath | src/grovedb/element.ts:132-161 | every reference form consumes its own bytes and gives its collapsed path |
| BincodeReader.Reader.OneElement | src/grovedb/element.ts:56-117 | each element variant is read field by field as specified |
| BincodeReader.DeserializeElement | src/grovedb/element.ts:45-54 | the element the whole bytes are, trailing bytes refused |
| ElementCodec.ReferencePathReads | src/grovedb/element.ts:132-161 | each of the seven reference forms reads back as the byte strings it carries |
| ElementCodec.ElementRoundTrip | src/grovedb/element.ts:45-117 | every element's stored bytes deserialize to it, a reference with its collapsed path |
| MerkFormat.LebReads | src/grovedb/varint.ts:93-119 | every u64 reads back from its LEB128 |
| MerkFormat.I128Reads | src/grovedb/merk-decoder.ts:243-256 | every i128 reads back from its sixteen little-endian bytes |
| MerkFormat.ValueReads | src/grovedb/merk-decoder.ts:306-322 | every value up to 64 MiB reads back, under the one length form its size allows |
| MerkFormat.FeatureReads | src/grovedb/merk-decoder.ts:231-276 | every feature type reads back |
| MerkFormat.OpsRoundTrip | src/grovedb/merk-decoder.ts:83-152 | the bytes of any list of operations read back as those operations |
| MerkFormat.OpShrinks | src/grovedb/merk-decoder.ts:83-152 | each operation takes at least one byte, so decoding ends on all bytes |
| MerkDecoder.Decoder.Varint64 | src/grovedb/varint.ts:93-119 | the accumulating loop gives the specified u64, refusing an eleventh byte and a value past 2^64 - 1 |
| MerkDecoder.Decoder.ValueLength | src/grovedb/merk-decoder.ts:306-322 | a large operation's length is refused below 64 KiB and past 64 MiB |
| MerkDecoder.Decoder.Feature | src/grovedb/merk-decoder.ts:231-276 | the specified feature type, unknown codes refused |
| MerkDecoder.Decoder.Node | src/grovedb/merk-decoder.ts:154-226 | the node of the operation's form, field by field |
| MerkDecoder.Decoder.Next | src/grovedb/merk-decoder.ts:83-152 | the specified next operation and unread bytes |
| MerkDecoder.DecodeMerkOps | src/grovedb/merk-decoder.ts:364-367 | all operations the bytes hold, in order |
| ProofDecoding.DecodeLayerProof | src/grovedb/decoder.ts:39-57 | the depth-capped recursion over one reader gives the specified nested layers |
| ProofDecoding.DecodeGroveDBProof | src/grovedb/decoder.ts:71-90 | variant, layers and option read as specified, trailing bytes refused |
| ProofDecoding.LayerReads | src/grovedb/decoder.ts:37-57 | a written layer reads back exactly when it is nested within the cap, and is refused otherwise |
| ProofDecoding.ProofRoundTrip | src/grovedb/decoder.ts:39-90 | a written proof is read back, its operations decoded, as the proof the verifier runs on, exactly when it is nested at most 64 deep |
| ParseF64.SkipZeros | src/proof/node-json.ts:294-297 | the first non-zero from the start |
| ParseF64.DropZeros | src/proof/node-json.ts:300-303 | the end without trailing zeros |
| ParseF64.RoundRatio | src/proof/node-json.ts:403-427 | from a ratio of integers, the double nearest it, ties to even, subnormals and overflow included |
| ParseF64.RoundDigits | src/proof/node-json.ts:384-402 | from the significant digits and exponent, the correctly rounded double, past 800 digits too |
| ParseF64.ParseDouble | src/proof/node-json.ts:378-428 | for every number text below 2^30 characters, the double nearest the exact rational it writes, ties to even, infinity past the rounding limit |
| ParseF64.TruncationRounds | src/proof/node-json.ts:388-396 | cutting to 800 digits with a sticky 1 rounds to the same double, as every midpoint has fewer digits |
| ParseF64.DoublesFollowValues | src/proof/node-json.ts:378-428 | equal values give the same double and larger values no smaller one |
| ExactDecimal.ExactMeans | src/proof/node-json.ts:313-345 | digits and exponent of a number text's normal form write its exact value |
| ExactDecimal.ExactIffEqual | src/proof/node-json.ts:351-362 | two normal forms are equal exactly when the rationals are |
| ExactDecimal.LongExponentDoesNotFit | src/proof/node-json.ts:326-344 | an exponent too long to be read does not fit an i128, so dropping it early loses nothing |
| ExactDecimal.NumbersEqualIffSameValue | src/proof/node-json.ts:347-362 | for texts with an exact decimal, equality holds exactly for equal rationals |
| ExactDecimal.NumbersEqualIsEquivalence | src/proof/node-json.ts:347-362 | number equality is an equivalence on all texts |
| ExactDecimal.ExactTextsAreTold | src/proof/shared.ts:83-120 | two texts JavaScript carries exactly and reads as one number write the same rational |
| CanonicalNumber.CanonicalIdempotent | src/proof/node-json.ts:64-78 | keeping a kept number changes nothing |
| CanonicalNumber.CanonicalKeepsValue | src/proof/node-json.ts:64-78 | the kept text writes the token's value |
| JsonParser.Parser.Ws | src/proof/node-json.ts:114-121 | the index moves past the white space and no further |
| JsonParser.Parser.Number | src/proof/node-json.ts:160-180 | the token's text, by the index loops |
| JsonParser.Parser.Escape | src/proof/node-json.ts:202-233 | one escape; escaped surrogates only in pairs |
| JsonParser.Parser.String | src/proof/node-json.ts:189-240 | the string's characters, by slices between escapes |
| JsonParser.Parser.Value | src/proof/node-json.ts:123-147 | the value read at the index and the index after it |
| JsonParser.Parser.Array | src/proof/node-json.ts:242-258 | the array's items, nesting past 127 refused |
| JsonParser.Parser.Object | src/proof/node-json.ts:260-287 | the object's fields, a repeated key replaced in place, a private first key irreproducible |
| JsonParser.ParseText | src/proof/node-json.ts:96-107 | the parser decides every text as the grammar function does, and ends on every text |
| JsonRoundTrip.TextReads | src/proof/node-json.ts:96-288 | every value with kept numbers, nesting at most 127 and no private first key reads back from its compact text |
| JsonRoundTrip.ReadIsReadable | src/proof/node-json.ts:123-288 | every value read is one of those |
| JsonRoundTrip.ReadWrittenAgain | src/proof/node-json.ts:96-107 | so every value read, written and read again, is the same value |
| JsonLength.TextLengthIsByteCount | src/proof/node-json.ts:484-519 | the computed text length is the UTF-8 length of the compact text |
| JsonEquality.NodeEqualIsEquivalence | src/proof/node-json.ts:436-461 | JSON equality is an equivalence on all nested values |
| JsBinding.BindingTellsDocuments | src/proof/shared.ts:108-164 | two proven documents bound to one returned value have the same structure and the same exact numbers |
| Utf8.CompareCodePoints | src/proof/query-selection.ts:349-362 | the two-index comparison is the order of code points, zero exactly for equal texts |
| Utf8.PointOrderIsByteOrder | src/proof/query-selection.ts:348-362 | code point order is the order of the UTF-8 bytes (section 1 of RFC 3629) |
| Utf8.LengthIsByteCount | src/proof/node-json.ts:464-481 | the computed UTF-8 length is the number of UTF-8 bytes |
| SortKeys.SignificantDigits | src/proof/query-selection.ts:303-317 | the one-pass count is the number of digits of the text's normal form |
| SortKeys.SortNumber | src/proof/query-selection.ts:324-327 | the finite correctly rounded double, by whichever reading, or none |
| SortKeys.CompareKeys | src/proof/query-selection.ts:371-387 | the comparison that runs has the sign of the specified one |
| SortKeys.CompareIsTotalPreorder | src/proof/query-selection.ts:364-387 | any two keys compare, opposite ways when swapped, transitively |
| SortKeys.NumbersCompareByValue | src/proof/query-selection.ts:376-381 | numbers compare by the doubles' real values, the two zeros tying |
| SortKeys.StringsSortByBytes | src/proof/query-selection.ts:348-362 | strings sort by their UTF-8 bytes |
| StableSort.PartsAreThePath | src/proof/query-selection.ts:273-283 | a dotted path's parts hold no dot and join to the path |
| StableSort.OnlyStableSort | src/proof/query-selection.ts:389-395 | sorting, in either direction, gives the one sorted permutation with ties in their first order |
| StableSort.PagesAreWhole | src/proof/query-selection.ts:422-426 | consecutive pages are the whole selection, none of it twice |
| QuerySelection.KeyOfDocument | src/proof/query-selection.ts:329-346 | the sort key of the field's value, by its kind |
| QuerySelection.SortByField | src/proof/query-selection.ts:389-395 | keying each document with its place and sorting gives the specified order |
| QuerySelection.SelectDocuments | src/proof/query-selection.ts:403-427 | the loop over entries, the sort and the slice give the specified selection, or none where an entry makes it irreproducible |
| QuerySelection.CheckQueryResult | src/proof/query-selection.ts:489-542 | accepts exactly a response whose counts are the selection's and whose documents are bound to it one for one |
| QueryRequest.QueryRefusal | src/proof/query-selection.ts:177-224 | refuses exactly a body with an unknown key, a filter, sort, limit, offset or other member the API does not take, lengths counted in UTF-8 bytes |
| QueryRequest.QuerySelectionOf | src/proof/query-selection.ts:244-271 | gives the selection a request's text asks for, or why it is refused or not verifiable |
| QueryRequest.RequestReads | src/proof/query-selection.ts:244-271 | every selection within the API's bounds is what the compact text of its own body asks for |
| QueryRequest.ReadIsAskable | src/proof/query-selection.ts:177-271 | whatever a text asks for is within those bounds |
| QueryRequest.VerifyQuerySelection | src/proof/query-selection.ts:572-583 | gives a root exactly when the request asks for a selection, the proof verifies, the root is the expected one, and the response is accepted for that selection |
| QuerySoundness.SelectionIsFiltering | src/proof/query-selection.ts:403-421 | selecting entry by entry is filtering the documents the real grove's own items hold |
| QuerySoundness.QueryResultSound | src/proof/query-selection.ts:446-542 | for a real grove's root, an accepted response's total and documents are exactly the filtered, sorted, sliced selection from the grove's own items at the path |
| QuerySoundness.ResponseTellsPages | src/proof/query-selection.ts:523-541 | a response accepted for two groves answers for the same documents in both, number for number |
| NonceState.MergeIsUnion | src/consensus/nonces.ts:48-72 | a nonce is used in merged reports exactly when one of them shows it used |
| NonceState.MergeIsJoin | src/consensus/nonces.ts:56-65 | merging is commutative, associative and idempotent on 24-bit masks |
| NonceState.MergeAllIsUnion | src/consensus/nonces.ts:48-72 | any number of reports merged have the highest base and every nonce any of them shows used |
| NonceState.ReportOrderIsNothing | src/consensus/nonces.ts:219-228 | the same reports give the same state in whatever order and however often they arrive |
| Nonces.NonceAllocator.RefreshAccount | src/consensus/nonces.ts:224-239 | the report merged in, then exactly the used nonces and the holds of 120 s or more dropped |
| Nonces.NonceAllocator.TakeNonce | src/consensus/nonces.ts:161-176 | the whole new state and the lowest free nonce, or which error |
| Nonces.NonceAllocator.ReleaseNonce | src/consensus/nonces.ts:179-181 | the nonce, and nothing else, is no longer taken |
| Nonces.NonceAllocator.HoldNonce | src/consensus/nonces.ts:187-190 | the nonce is taken from now |
| Nonces.NonceAllocator.SettleNonce | src/consensus/nonces.ts:197-208 | given back exactly for a refusal, not pending, whose log does not keep it; held otherwise |
| NonceRuns.RunTracks | src/consensus/nonces.ts:125-240 | after every run the allocator's state is what the history of events says |
| NonceRuns.TakeIsLowestFree | src/consensus/nonces.ts:152-176 | after every run with a clock that never goes back, a take returns the lowest of the 24 nonces above the highest base reported that is neither reported used nor held for under 120 s, and says the window is full only when all 24 are so blocked |
| NonceRuns.NoncesAreDistinct | src/consensus/nonces.ts:115-176 | a nonce handed out twice was given back in between, or 120 s had passed since it was last held |
| NonceRuns.BaseNeverDrops | src/consensus/nonces.ts:219-228 | a base once seen is never lost or lowered |
| TxSubmit.GivesBackExactly | src/internal/tx.ts:80-152 | an answer gives the nonce back exactly when the chain refused the transaction, or the API its body on a first post, and the log does not say the nonce is held, used or spent |
| Settlement.ConsensusClient.BroadcastTransaction | src/consensus/client.ts:758-794 | the retry loop's answer, the posts made, and one renewed hold before each, whatever steps other writes make while it awaits |
| Settlement.ConsensusClient.SendSigned | src/consensus/client.ts:691-717 | the allocator's whole new state and how the send ends, for every sequence of post outcomes and whatever other writes do at each await |
| Settlement.ConsensusClient.Resubmit | src/consensus/client.ts:677-682 | the same state and outcome for a resubmission |
| Settlement.ConsensusClient.NextNonce | src/consensus/client.ts:895-905 | a failed read falls back on the newest state seen once it has failed, and throws only when there is none |
| Settlement.ConsensusClient.SubmitWithNonce | src/consensus/client.ts:642-659 | the whole new state and outcome of a new write, whichever step fails and whatever other writes do at each await |
| Settlement.SendSettles | src/consensus/client.ts:691-794 | a send gives its nonce back exactly when nothing of a new write was sent or the last post was answered with a freeing refusal; otherwise the nonce is held from the send's last step |
| Settlement.NoClientErrorFreesARepeat | src/consensus/client.ts:745-789 | a send whose first post threw, or a resubmission, that makes a step giving the nonce back was last answered otherwise than by a 4xx |
| Settlement.ResubmitFreesOnlyOnRefusal | src/consensus/client.ts:677-717 | a resubmission makes a step giving the nonce back if and only if the chain itself refused the write with a log that does not keep it |
| Settlement.SubmissionIsARun | src/consensus/client.ts:642-717 | each write, with what others do in between, is a run of the allocator's steps, so every property of all runs holds of writes |
| Settlement.WriteSettles | src/consensus/client.ts:642-717 | a new write gives its nonce back, and leaves it free, exactly when signing failed or its send gives it back; otherwise it leaves it held |
| ConcurrentWrites.ExclusiveIffEntersIdle | src/consensus/nonces.ts:115-118 | over every interleaving of writes, however late their steps: no two writes in flight ever have one account's nonce and none ever loses its hold, if and only if a write not in flight (a resubmission beginning, or one whose last step is 120 s ago) holds or gives back a nonce only while no write in flight has it |
| ConcurrentWrites.TimelyWritesAreExclusive | src/consensus/client.ts:642-717 | for writes that make their steps within 120 s of one another, if and only if a resubmission begins only while no write in flight has its nonce |
| ConcurrentWrites.ResubmissionMayShare | src/consensus/client.ts:661-717 | a run of timely writes where that fails: a refused resubmission gives back a nonce another write is using, and a third takes it |
| BincodeWriter.Writer.Reserve | src/consensus/bincode.ts:19-26 | the doubled buffer has the room and keeps what was written |
| BincodeWriter.Writer.Int | src/consensus/bincode.ts:29-37 | exactly the little-endian bytes are appended, or nothing, refused exactly when the width does not hold the value |
| BincodeWriter.Writer.Blob | src/consensus/bincode.ts:61-64 | exactly the length and the bytes are appended |
| BincodeWriter.Writer.Strings | src/consensus/bincode.ts:68-72 | exactly the count and each string are appended |
| BincodeWriter.Writer.Grant | src/consensus/bincode.ts:108-116 | exactly a key grant's seven fields are appended, in order |
| BincodeWriter.Writer.SubgroveMode | src/consensus/bincode.ts:118-165 | exactly the mode's variant and fields are appended |
| BincodeWriter.RegisterSubgroveBincode | src/consensus/bincode.ts:172-205 | the growing buffer ends as the specified encoding of the body, refused exactly when some integer is outside its width |
| SubgroveBincode.ModeReads | src/consensus/bincode.ts:118-165 | every mode reads back, with all its options, lists and enums |
| SubgroveBincode.BodyReads | src/consensus/bincode.ts:172-205 | a decoder recovers every field of every registration but the signature, with what follows left over |
| SubgroveBincode.EncodingsAreDistinct | src/consensus/bincode.ts:167-205 | different registrations have different encodings, none the start of another's |
| SignedMessages.IsWellFormed | src/consensus/fields.ts:16-28 | true exactly for a text without a lone surrogate |
| SignedMessages.FlatLines | src/consensus/fields.ts:44-59 | no line of a signable transaction holds a line feed |
| SignedMessages.RotateTells | src/consensus/types.ts:1128-1143 | equal lines are of rotations with equal fields, any number of grants included |
| SignedMessages.RevokeTells | src/consensus/types.ts:1161-1165 | equal colon-joined revokes have equal fields, by the id and DID rules |
| SignedMessages.MessagesAreUnambiguous | src/consensus/types.ts:916-1181 | two signable transactions with equal messages are of one kind with equal fields, data and registration bodies through their hashes |
| SignedMessages.RegistrationsAreTold | src/consensus/types.ts:1044-1057 | where SHA-256 tells two registrations' encodings apart, equal messages are of equal registrations in every field |
| Mpt.BytesToNibbles | src/eth-state/mpt.ts:137-144 | the filled array is the bytes' nibbles |
| Mpt.DecodeCompactPath | src/eth-state/mpt.ts:167-184 | the loop gives the specified path and kind |
| Mpt.VerifyMptProof | src/eth-state/mpt.ts:31-125 | the loop accepts exactly as the specified walk |
| MptSoundness.HexPrefixReads | src/eth-state/mpt.ts:160-184 | decoding a path's hex-prefix encoding (Appendix C of the Yellow Paper) gives it back |
| MptSoundness.VerifiedIsLookedUp | src/eth-state/mpt.ts:31-125 | for any trie, inline nodes and all, an accepted non-empty value is the one the trie's lookup gives (Appendix D of the Yellow Paper), and an accepted absence is too unless the key's path meets an inline child of a branch; below an inline child of an extension nothing is accepted |
| MptSoundness.VerifiedIsLookedUpIff | src/eth-state/mpt.ts:76-88 | every value verified for a key is the looked-up one if and only if the key has no value behind an inline child of a branch |
| MptSoundness.InlineValueReadAsAbsent | src/eth-state/mpt.ts:76-88 | such a trie, and a key in it whose absence its own proof verifies |
| MptSoundness.HonestProofVerifies | src/eth-state/mpt.ts:31-125 | the trie's own proof verifies for what the walk makes of the key (its value, where its path meets no inline node) and for nothing else |

## Left out

- Hash collisions: merk hashes are ideal, so proofs with two hashes that meet as `IdealHashes` says are not covered; the trie walk assumes only that no proof node has the hash of a trie node without being it.
- Cryptographic primitives: BLAKE3, Keccak and SHA-256 are ideal or parameters, signatures are opaque, and RLP decoding (the ethers library) is a parameter.
- JavaScript's own number reading and writing, UTF-8 decoding and array sort: parameters with their specified behaviour, or the specified result.
- TxSubmit.GivesBackExactly: the wording of a pending result's message is not modelled, nor a CheckTx log that is a JSON array, which can be searched as a text can.
- ConcurrentWrites.ExclusiveIffEntersIdle: a step's time is an input; that a post and the wait after it end within 120 s is the caller's configuration.
- The verifier's result limit and the option not to deserialize elements, which verified reads do not use.
- The root-only fast verification, which repeats the layer recursion without its checks.
- Decoding a merk proof where the verifier first needs it: `ProofDecoding.Interpret` decodes every layer up front; a layer that does not decode is refused either way, as every layer is visited.
- Building the wire object of a registration from the caller's options, with its defaults and schema check: the encoder's domain is every wire object with values in range.
- QueryRequest.QuerySelectionOf: a request is its JSON text; writing the caller's object as that text is JavaScript's own.
- Transfer, DeregisterSubgrove and SubmitAnchor messages, which are not labelled lines, and the DID document's JSON.
- The ABCI nonce state's byte format and the shared allocator per API URL.
- Network and I/O: fetching, RPC, subscriptions, timeouts and waiting; each post's outcome is an input.
- Light-client header verification, whose vote bytes are a placeholder in the source.
- Manifest, completeness, daily-statistics and schema codecs and chunk Merkle roots, which would add easy members only.
