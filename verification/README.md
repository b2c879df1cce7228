# A verified model of the Partitioned Binary Tree

This project models the Partitioned Binary Tree (PBT) of this repository and what is built on it: the in-place
Python tree and its eager Rust twin, Merkle proofs for one and for many keys, the witness wire formats, the
caching client, redundant retrieval with retries, code chunking, account migration and VectorFold proofs.
`dafny verify dfyconfig.toml` checks all of it.

## How it is organised

- `Basics`, `BigEndian`: bytes, 32-byte words, results, bit paths with their terminator bit, big-endian integers.
- `StemTree`: the tree as a value, the canonical form, and the abstract map from stem prefixes to 256 values.
- `History`: keys, and whole histories of insertions and deletions compared with a plain dictionary.
- `Order`: the order of byte strings, and sorted lists.
- `Merkle`, `Batch`: hashing, proofs, soundness, completeness; multi-key proofs.
- `Widths`: which widths `verify_proof` needs although it does not check them.
- `Nodes`, `HeapTree`: the Python node objects with mutable children and lazily filled hash caches, and the
  operations of `pbt/tree.py` on them. One class with a `kind` stands for the three node classes.
- `RustTree`, `RustBatch`: the Rust tree, which rebuilds itself and stores every internal hash.
- `Wire`, `Packets`, `Manifests`: proof blobs, stem witness packets, bucket manifests.
- `Client`: the partially stateless client with its least-recently-used stem cache.
- `Quorum`, `Fetching`, `Reliability`, `Retries`: agreement of providers, fetch plans, reliability telemetry and tuning,
  the retry loop.
- `Layout`, `Chunking`, `Embedding`: constants both languages share, code chunks, and the keys and pages of the
  Python embedding.
- `Writes`, `Migration`: sequences of writes, the Rust key derivation, account migration.
- `VectorFold`, `FoldBinding`: proofs that commit to every intermediate hash of a path, and what an accepted one
  proves in a mode that tells stems and pairs of digests apart.
- `Gemini`: the prototype mode that does not, and what becomes of acceptance there.

Functions that the code and its specification share, such as the bits of a byte, the order of byte strings or the
layout of a record, have a lemma of their own that says what they compute without naming them: weights, offsets, tags
and bounds are written out there.

## How hashing is modelled

The active hash is an arbitrary function `H` from byte strings to 32-byte words, the same throughout a run; every
statement holds for all of them. No injectivity is assumed. A statement that rests on collision resistance
says instead: either the claim holds, or there are two different byte strings with equal hashes, one out of the
finite set of strings that computing the tree's root hashes (`Payloads`) and one out of the finite set that
the verifier hashes (`ProofPayloads`). Empty, internal and stem payloads are told apart by length (0, 64, and
8203 bytes and the prefix), which is proved (`PayloadKinds`). For VectorFold proofs a
collision is one of the primitive below the mode: two different byte strings fed to Blake3 (`FoldBinding`), or two
different pairs of words given to the compression function, those inside stems included (`Gemini`).

`Err` stands for ValueError and OverflowError in Python and for `Err` in Rust.

## Where the code and its documentation differ

The model follows the code.

- README.md:230 lets every single-child internal node collapse into the child. `_delete` keeps a lone internal
  child (`pbt/tree.py:221-235`); only a lone stem replaces its parent. `History.LoneChildSurvives` gives a history of
  three insertions and a deletion that ends with such a node, and `StemTree.LoneChildExactly` says when a node has a
  lone child: if and only if all the stems below it agree on the next path bit.
- `delete` says that setting a leaf to EMPTY_VALUE is deletion (`pbt/tree.py:190`). `History.InsertEmptyVersusDelete`
  says exactly when that is so: when another leaf of the stem survives. Otherwise insertion leaves an all-empty stem,
  which no read sees and which changes the tree (`History.HollowStemIsInvisible`).
- `get_proof` says its proof verifies (`pbt/tree.py:289-290`). It does exactly when the key's stem is in the tree
  (`Merkle.HonestProofExactly`).
- `verify_proof` says it accepts only the correct value (`pbt/tree.py:340-341`). It checks no widths, and without them
  that fails in two ways: a value that is not 32 bytes wide (`Widths.CutZerosLie`, `Widths.LooseProofLies`,
  `Widths.ShiftedProofVerifies`), and a sibling of more than 8171 bytes, which can hold a stem's payload up to its last
  leaf (`Widths.LongSiblingLies`). There is no third way: behind a guard on the widths acceptance means the correct
  value if and only if the guard admits 32-byte values only and no sibling above 8171 bytes (`Widths.GuardExactly`).
  The wire decoder's guard is stricter, so what it lets through is sound (`Packets.AcceptedBytesAreTrue`).
- `insert` says that the input root is not modified in place for internal and empty nodes (`pbt/tree.py:80-82`). For
  empty nodes it is not, and for internal nodes it always is: `HeapTree.InsertNode` leaves an empty root unchanged and
  returns a new object, and returns the internal root it was given, which then spells the changed tree.
- `encode_bucket_manifest_v1` writes manifests that the decoder refuses: more than 16384 commitments, or a root that
  is not the root of the commitments (`Manifests.DecodeEncodeManifest`).
- The deduplicated siblings of a batch are described as a commitment surface (`pbt/tree.py:273-275`), but the verifier
  accepts any ascending list in their place (`Batch.DeduplicatedSiblingsAreFree`). An accepted batch is the tree's own
  if and only if that list is the siblings of its proofs (`Batch.AcceptedBatchExactly`).
- `verify_vector_fold_proof` accepts two modes. In the Poseidon2 mode an accepted proof carries the tree's own value
  (`FoldBinding.AcceptedFoldIsTrue`). In the Gemini prototype one compression function hashes stems, pairs of digests
  and pairs of leaves alike (`pbt-rs/src/hash.rs:138`, `pbt-rs/src/hash.rs:166-182`; `Gemini.StemIsPair`), so a leaf
  pair can be read as a stem: for every compression function and all prefixes there is a tree, built by two insertions,
  and an accepted proof of a value it does not hold (`Gemini.NestedStemLies`). No condition on prefixes helps:
  acceptance means the correct value exactly where no prefix is in use, collisions of the compression function apart
  (`Gemini.GeminiTrueExactly`). Prefixes that agree in their first 32 bytes are not told apart either
  (`Gemini.GeminiForgetsPrefixes`, `Gemini.HollowNeighbourBuilds`).

## Model

| member | source | states |
|---|---|---|
| Basics.BitsSpellByte | pbt/tree.py:41-41 | the eight bits of a byte, weighted 128 to 1 from position 0, make up the byte |
| Basics.PathSpellsPrefix | pbt/tree.py:33-44 | the path of a prefix, read most significant bit first, is its bytes, then 1, then zeros |
| Basics.SpellingIsUnique | pbt/tree.py:33-44 | there is one such path |
| Basics.DistinctPathsDiverge | pbt/tree.py:33-44 | distinct prefixes, none assumed prefix-free, have paths that differ no later than bit 8 * max length |
| Basics.SharedPathIsShort | pbt/tree.py:120-137 | two distinct prefixes share at most 8 * max length path bits: the measure with which splitting terminates |
| StemTree.StemsLieOnPath | pbt/tree.py:109-117 | every stem of a canonical subtree lies on the bit path that leads to the subtree |
| StemTree.StemsSpellPath | pbt/tree.py:109-117 | the path to a canonical subtree begins the spelling, bit by weighted bit, of every stem below |
| StemTree.GetReadsMap | pbt/tree.py:166-179 | `get` reads the abstract stem map |
| StemTree.SplitAddsStem | pbt/tree.py:120-151 | a split adds exactly the new leaf to the map, keeps the other stem, and is canonical, chains of lone internal nodes included |
| StemTree.InsertRefinesPut | pbt/tree.py:92-117 | insertion keeps the tree canonical and updates exactly one leaf of the map |
| StemTree.CollapseIsCanonical | pbt/tree.py:221-235 | the collapse rule restores the canonical form and loses no stem |
| StemTree.DeleteRefinesMap | pbt/tree.py:200-235 | deletion keeps the tree canonical through collapses of any height, erases exactly one leaf, and drops a stem left empty |
| StemTree.InternalCoversTwo | pbt/tree.py:221-235 | every internal node of a canonical tree has two different stems below it |
| StemTree.LoneChildExactly | pbt/tree.py:221-235 | an internal node has a lone child if and only if all stems below it agree on the next path bit |
| StemTree.CanonicalIsUnique | pbt/tree.py:92-235 | canonical trees with equal stem maps are equal |
| StemTree.CanonicalIsCanon | pbt/tree.py:92-235 | a canonical tree is the tree built from its map by splitting on the next path bit |
| StemTree.HeightBound | pbt/tree.py:298-307 | with prefixes of at most n bytes no path has more than 8n + 1 levels |
| History.SplitKey | pbt/tree.py:60-69 | exactly the keys of two or more bytes split, into prefix and subindex |
| History.ApplyRefinesMap | pbt/tree.py:76-89 | each call of `insert` and `delete`, rejected ones included, does to the stem map what it should |
| History.Run | pbt/tree.py:76-235 | every history from the empty tree ends in a canonical tree |
| History.RunIsCanon | pbt/tree.py:76-235 | after every history the tree is the canonical tree of the map that the same history builds |
| History.ReadsLikeDictionary | pbt/tree.py:158-179 | after every history every key reads as in a plain dictionary, EMPTY_VALUE where it is absent |
| History.RunKeepsNoHollowStem | pbt/tree.py:200-211 | if no empty value is put, no stem without a leaf remains |
| History.TreeIsTheState | pbt/tree.py:76-235 | without empty values, two histories give the same tree if and only if they give the same dictionary |
| History.TreeIsTheStemMap | pbt/tree.py:76-235 | for all histories, the tree and the stem map determine each other |
| History.HollowStemIsInvisible | pbt/tree.py:94-107 | putting an empty value under an absent stem changes the tree and no read: why empty values are excluded above |
| History.InsertEmptyVersusDelete | pbt/tree.py:186-211 | inserting EMPTY_VALUE equals deletion if and only if another leaf of the stem survives |
| History.DeleteUndoesInsert | pbt/tree.py:76-235 | deletion undoes an insertion if and only if the leaf was empty and its stem, if present, held another leaf |
| History.LoneChildSurvives | pbt/tree.py:221-235 | a history after which deletion has left an internal node with a lone internal child |
| Merkle.StemPayloadLayout | pbt/nodes.py:115-116 | what is hashed for a stem: the tag PBT:STEM:v1, the prefix, and each leaf at its offset |
| Merkle.StemPayloadInjective | pbt/nodes.py:112-117 | the bytes hashed for a stem of 256 words determine prefix and values |
| Merkle.PayloadKinds | pbt/nodes.py:27-117 | the payloads of empty, internal and stem nodes have lengths 0, 64 and 8203 + the prefix: domain separation |
| Merkle.RootBindsTree | pbt/tree.py:242-244 | equal roots come from equal trees or from a collision between the strings the two trees hash |
| Merkle.RootIsTheState | pbt/tree.py:242-244 | without empty values, equal dictionaries give equal roots, and equal roots give equal dictionaries or a collision |
| Merkle.RootIsTheStemMap | pbt/tree.py:242-244 | the same for all histories, with the stem map in place of the dictionary |
| Merkle.VerifyProof | pbt/tree.py:336-366 | the loop computes the fold of the path; a short key raises |
| Merkle.FoldTraces | pbt/tree.py:351-366 | a path of safe widths that folds to a tree's root runs through that tree, past its own hashes, or exhibits a collision |
| Merkle.TraceIsHonest | pbt/tree.py:336-366 | in a canonical tree only the key's own path bits lead to its stem, although the verifier never compares them |
| Merkle.AcceptedProofIsHonest | pbt/tree.py:336-366 | soundness: an accepted proof with 32-byte values and siblings too short to hold a stem carries the tree's stem, value and path, or exhibits a collision |
| Merkle.HonestProofVerifies | pbt/tree.py:285-322 | the tree's proof for a present stem has fixed widths and verifies |
| Merkle.HonestProofExactly | pbt/tree.py:285-322 | `get_proof` carries what `get` returns, and verifies exactly when the stem is present, collisions apart |
| Merkle.VerifiesExactly | pbt/tree.py:336-366 | without a collision, a proof of safe widths verifies if and only if the stem is present and the proof is the tree's own |
| Merkle.AcceptsSameBytes | pbt/tree.py:336-366 | for proofs of any widths: without a collision, the fold is accepted if and only if the last string hashed is the one whose hash is the root |
| Widths.ShiftedProofVerifies | pbt/tree.py:345-352 | without width checks, a proof accepted for a leaf other than the first is also accepted for a longer key |
| Widths.LooseProofLies | pbt/tree.py:336-366 | a concrete tree and an accepted proof of a wrong 32-byte value, for every hash function |
| Widths.CutZerosLie | pbt/tree.py:345-352 | for every list of value widths that are not all 32, a tree and an accepted proof with those widths of a value the tree does not hold |
| Widths.LongSiblingLies | pbt/tree.py:358-364 | a concrete tree and an accepted proof of 256 proper words, with one sibling of 8172 bytes, of a wrong value, for every hash function |
| Widths.GuardExactly | pbt/tree.py:336-366 | the exact condition: behind a guard on value widths and sibling length, every accepted proof carries the correct value if and only if the values are 32 bytes wide and siblings at most 8171; collisions apart |
| Order.LexIsByteOrder | pbt/tree.py:375-375 | the order of byte strings: a string that begins the other comes first, else the smaller byte at the first difference decides |
| Order.IsAscendingMeans | pbt/tree.py:414-415 | the order check compares every pair of neighbours, and so all pairs |
| Order.AscendingMeans | pbt/tree.py:403-404 | ascending lists are those in the order of their bytes |
| Batch.BuiltBatchIsSorted | pbt/tree.py:375-392 | keys and siblings of a built batch: each requested key and each sibling of a proof once, in the order of their bytes |
| Order.SortedSetSorts | pbt/tree.py:375-375 | deduplicated sorting keeps exactly the elements, in strictly ascending order |
| Order.SortedSetFixpoint | pbt/tree.py:403-404 | the canonical-order check passes exactly for strictly ascending keys |
| Batch.BatchIsCanonical | pbt/tree.py:369-392 | a batch does not depend on the order or repetition of the requested keys |
| Batch.VerifyMultiProof | pbt/tree.py:395-425 | a batch is accepted if and only if its keys are strictly, and its siblings weakly, in the order of their bytes, it is aligned, and each proof verifies; it raises if and only if it reaches a key that is too short |
| Batch.AcceptedBatchIsHonest | pbt/tree.py:395-425 | every value and proof of an accepted batch of safe widths is the tree's own |
| Batch.AcceptedBatchExactly | pbt/tree.py:395-425 | an accepted batch of safe widths is the tree's own if and only if its deduplicated siblings are those of its proofs |
| Batch.DeduplicatedSiblingsAreFree | pbt/tree.py:414-415 | any other ascending list of siblings is accepted as well |
| Batch.HonestBatchExactly | pbt/tree.py:369-425 | `get_multi_proof` verifies if all requested stems are present, and otherwise only through a collision |
| Nodes.HashContext.EmptyHash | pbt/nodes.py:24-32 | the module-wide empty hash is computed once and is the hash of the empty string |
| Nodes.Node.SetValue | pbt/tree.py:103-106 | overwriting a leaf and invalidating keeps the node's cache coherent |
| Nodes.Node.SetChildren | pbt/tree.py:111-117 | replacing children and invalidating keeps every cache below coherent |
| Nodes.Node.NodeHash | pbt/nodes.py:50-117 | the lazy hash equals the cache-free hash; only caches are filled, coherently |
| Nodes.Node.IsEmpty | pbt/nodes.py:119-120 | true exactly when all leaves are EMPTY_VALUE |
| HeapTree.SplitNode | pbt/tree.py:120-151 | the split on objects builds the specified tree around the existing stem object |
| HeapTree.InsertNode | pbt/tree.py:92-117 | in-place insertion yields the specified tree, without sharing, with coherent caches; an internal root object stays the root, an empty one is left as it was |
| HeapTree.GetNode | pbt/tree.py:166-179 | reading the objects reads the specified tree |
| HeapTree.DeleteNode | pbt/tree.py:200-235 | in-place deletion and collapse yield the specified tree with coherent caches |
| HeapTree.GetProof | pbt/tree.py:285-322 | proof generation returns the specified proof, whose path bits begin the spelling of the prefix, and keeps every cache coherent |
| HeapTree.GetMultiProof | pbt/tree.py:369-392 | one proof per distinct key; keys and siblings in the order of their bytes; raises exactly when a key is too short |
| HeapTree.Perform | pbt/tree.py:76-322 | each call on the objects answers as on the cache-free tree; a rejected write changes nothing |
| HeapTree.Replay | pbt/tree.py:76-392 | any interleaving of insert, delete, get, get_proof, get_multi_proof and root_hash answers as the cache-free tree of its writes, and keeps all caches coherent |
| Wire.CheckEncodable | pbt/stem_subscription.py:829-841 | which proofs encode |
| Wire.EncodeProofBlob | pbt/stem_subscription.py:829-855 | the buffer loop writes the proof's blob, and fails exactly for proofs that do not encode |
| Wire.DecodeProofBlob | pbt/stem_subscription.py:858-906 | the offset loop computes the specified decoding, errors included |
| Wire.ReadExact | pbt/stem_subscription.py:788-791 | reading at an offset is taking from the rest |
| Wire.ReadSized | pbt/stem_subscription.py:794-817 | the same for length-prefixed fields with a maximum |
| Wire.DecodeEncodeProof | pbt/stem_subscription.py:829-906 | every proof within the limits decodes from its blob |
| Wire.EncodeDecodeProof | pbt/stem_subscription.py:829-906 | every accepted blob is the encoding of what it decodes to, which has the fixed widths |
| Wire.ProofBlobLayout | pbt/stem_subscription.py:843-855 | where each field of a proof blob is: lengths, key, value, leaves, siblings, bits |
| Wire.ProofLimits | pbt/stem_subscription.py:858-906 | the limits of the proof decoder in numbers |
| BigEndian.FromBytesAppend | pbt/stem_subscription.py:794-817 | bytes further to the front weigh 256 times as much for each byte behind them |
| BigEndian.EightBytes | pbt/stem_subscription.py:920-923 | a number in eight bytes, its weights written out |
| Packets.CheckPacket | pbt/stem_subscription.py:909-928 | which packets encode |
| Packets.DecodeStemWitnessPacket | pbt/stem_subscription.py:992-1034 | the offset-advancing decoder computes the specified decoding, errors included |
| Packets.PacketLength | pbt/stem_subscription.py:27-33 | the limits on the fields imply the limit on the whole packet |
| Packets.DecodeEncodePacket | pbt/stem_subscription.py:986-1034 | every packet within the limits survives the wire |
| Packets.EncodeDecodePacket | pbt/stem_subscription.py:986-1034 | every accepted blob is the encoding of its packet |
| Packets.CodecIsBijective | pbt/stem_subscription.py:986-1034 | a blob decodes to a packet if and only if the packet is within the limits and encodes to that blob |
| Packets.PacketLayout | pbt/stem_subscription.py:909-933 | where each field of a packet is, and the hash of all of it behind |
| Packets.PacketLimits | pbt/stem_subscription.py:992-1034 | the limits of the packet decoder in numbers |
| Packets.VerifyWitnessMeans | pbt/stem_subscription.py:1282-1291 | exactly which packets verify, and which raise |
| Packets.VerifiedPacketIsHonest | pbt/stem_subscription.py:1282-1291 | an accepted fixed-width packet carries the tree's whole stem and the key's value, or exhibits a collision |
| Packets.AcceptedBytesAreTrue | pbt/stem_subscription.py:992-1291 | end to end: bytes that decode and verify against a tree's root carry the tree's value, or exhibit a collision |
| Packets.HonestProofFits | pbt/stem_subscription.py:27-33 | with prefixes of at most 256 bytes, an honest proof has at most 2049 siblings and fits every proof limit |
| Packets.HonestPacketArrives | pbt/stem_subscription.py:986-1291 | the honest packet for a present stem fits, decodes to itself and verifies |
| Manifests.HashConcat | pbt/stem_subscription.py:769-773 | the loop computes the chained root |
| Manifests.ChainBinds | pbt/stem_subscription.py:769-773 | equal roots come from equal commitment lists (length, items, order) or from a collision |
| Manifests.BuildBucketManifest | pbt/stem_subscription.py:1256-1274 | succeeds exactly for encodable packets of that epoch and bucket; lists their commitments, each as often, in the order of their bytes |
| Manifests.PayloadInjective | pbt/stem_subscription.py:909-928 | a packet's payload determines the packet |
| Manifests.RootIsTheBucket | pbt/stem_subscription.py:1256-1274 | two buckets have the same root if and only if they hold the same packets, each as often, in any order; collisions apart |
| Manifests.VerifyBucketManifest | pbt/stem_subscription.py:1277-1279 | accepts exactly the manifests whose root is that of their commitments |
| Manifests.EncodeBucketManifest | pbt/stem_subscription.py:1037-1058 | writes the manifest's bytes, and fails exactly for manifests that do not encode |
| Manifests.DecodeBucketManifest | pbt/stem_subscription.py:1061-1093 | the offset-advancing decoder computes the specified decoding |
| Manifests.DecodeEncodeManifest | pbt/stem_subscription.py:1037-1093 | an encoded manifest comes back exactly when it is not too long and its root is right; else which error it meets |
| Manifests.EncodeDecodeManifest | pbt/stem_subscription.py:1037-1093 | an accepted blob is the only encoding of its manifest |
| Manifests.ManifestLayout | pbt/stem_subscription.py:1050-1058 | where each field of a manifest is |
| Manifests.AcceptedManifestIsTheBucket | pbt/stem_subscription.py:1061-1093 | an accepted blob with an honest provider's root lists exactly that bucket's packets, or exhibits a collision |
| Client.RecencyIsByLastTouch | pbt/stem_subscription.py:655-681 | the recency order holds the touched stems once each, by last touch |
| Client.TouchKeepsSuffix | pbt/stem_subscription.py:660-668 | bounded replacement keeps exactly the suffix of the unbounded recency order |
| Client.PutTracks | pbt/stem_subscription.py:660-668 | caching a stem keeps the cache equal to the most recently touched stems, and stores its values |
| Client.VerifyPacketMeans | pbt/stem_subscription.py:611-616 | exactly which packets a client accepts, and when it raises |
| Client.MakeClient | pbt/stem_subscription.py:622-629 | fails exactly for a bound that is not positive; starts with an empty cache |
| Client.PartiallyStatelessStemClient.ClearCache | pbt/stem_subscription.py:641-642 | empties the cache |
| Client.PartiallyStatelessStemClient.SetVerifiedBlockRoot | pbt/stem_subscription.py:631-639 | rotates the root; clears the cache unless asked not to |
| Client.PartiallyStatelessStemClient.VerifyAndCachePacket | pbt/stem_subscription.py:655-670 | an accepted packet becomes the most recent stem and may evict the least recent; a rejected one changes nothing |
| Client.PartiallyStatelessStemClient.CachedValue | pbt/stem_subscription.py:672-681 | hits, misses, the returned leaf and the refreshed recency; hits + misses equals the number of reads |
| Client.CachingAgrees | pbt/stem_subscription.py:655-670 | caching an accepted fixed-width packet keeps every cached stem equal to that of the tree it was verified against, or the packet exhibits a collision |
| Client.HitAgrees | pbt/stem_subscription.py:672-681 | a hit, at any subindex, is what `get` returns in the tree the stem was verified against |
| Client.Handle | pbt/stem_subscription.py:619-681 | each event answers as the ledger says and moves client and ledger alike |
| Client.Serve | pbt/stem_subscription.py:619-681 | every run of deliveries, reads and rotations, clearing or not: each answer, the hits and misses, and the cached stems in their order, all told from the events alone |
| Client.DefaultHitsAreCurrent | pbt/stem_subscription.py:631-639 | if every rotation clears, a read answers with the value in the tree behind the trusted root at that moment exactly when its stem is among the most recent |
| RustTree.InsertAgrees | pbt-rs/src/tree.rs:263-325 | Rust insertion gives the same shape; every stored hash is the pair hash of its children |
| RustTree.DeleteAgrees | pbt-rs/src/tree.rs:348-395 | the same for deletion and its collapse |
| RustTree.GetAgrees | pbt-rs/src/tree.rs:327-346 | Rust reads equal Python reads |
| RustTree.HashAgrees | pbt-rs/src/tree.rs:392-431 | with the default pair hash the stored hashes are the Merkle hashes |
| RustTree.SameShapeSameNode | pbt-rs/src/tree.rs:392-431 | shape and hasher determine all stored hashes, whatever the pair hash |
| RustTree.OwnedTree.Insert | pbt-rs/src/tree.rs:133-138 | the owned tree changes as specified and stays well hashed; fails exactly for short keys |
| RustTree.OwnedTree.Delete | pbt-rs/src/tree.rs:145-150 | the same for deletion |
| RustTree.OwnedTree.Get | pbt-rs/src/tree.rs:140-143 | reads the specified value; fails exactly for short keys |
| RustTree.OwnedTree.RootHash | pbt-rs/src/tree.rs:129-131 | the stored root, which is the Merkle root under the default pair hash |
| RustTree.OwnedTree.GetProof | pbt-rs/src/tree.rs:152-186 | the proof from stored hashes, which is the Python proof under the default pair hash |
| RustTree.VerifyProofWithHasher | pbt-rs/src/tree.rs:433-471 | accepts what the Python verifier accepts and has path bits 0 and 1 only; false on short keys |
| RustTree.ClientsAgree | pbt-rs/src/tree.rs:116-186 | after every history both clients have the same shape and reads, and under the default pair hash the same root and siblings |
| RustBatch.GetMultiProof | pbt-rs/src/tree.rs:192-219 | one stored proof per distinct key; keys and siblings in the order of their bytes; fails exactly when a key is too short |
| RustBatch.BatchesAgree | pbt-rs/src/tree.rs:192-219 | after every history both clients build the same batch |
| RustBatch.StepsUpIsStrict | pbt-rs/src/tree.rs:222-224 | comparing neighbours decides strict ascent |
| RustBatch.VerifyMultiProof | pbt-rs/src/tree.rs:221-252 | accepts exactly the batches the Python verifier accepts whose path bits are 0 and 1 |
| Quorum.VerifyRedundantPacketSet | pbt/stem_subscription.py:738-766 | true exactly when enough distinct providers sent valid packets that agree, unless a short key is met first |
| Quorum.QuorumIsTrue | pbt/stem_subscription.py:738-766 | the value a group agrees on is the tree's, or a packet of the group exhibits a collision |
| Quorum.FreshMeans | pbt/stem_subscription.py:718-735 | fresh packets are those with an epoch from current - lag to current + skew |
| Quorum.FreshCountMeans | pbt/stem_subscription.py:259-271 | how many packets are inside that window |
| Quorum.QuorumMeans | pbt/stem_subscription.py:251-282 | a quorum is a set of enough providers, each with a packet inside the window, for the trusted root, that verifies and carries one key and value |
| Quorum.EvaluateResponse | pbt/stem_subscription.py:251-282 | accepts only with such a set, rejects only without one, and rejects whenever too few packets are inside the window; raises only on a packet inside the window with a short key |
| Quorum.AcceptedResponseIsTrue | pbt/stem_subscription.py:251-282 | whatever enough providers agree on, for every such group, is what the tree holds, or a fresh valid packet of the group exhibits a collision |
| Fetching.BucketForStemMeans | pbt/stem_subscription.py:1206-1220 | a stem's bucket: tag, salt, eight epoch bytes and stem hashed, the first eight bytes as a number, modulo the count |
| Fetching.BucketStringsDiffer | pbt/stem_subscription.py:1217-1219 | different stems are hashed as different strings |
| Fetching.CandidateMeans | pbt/stem_subscription.py:1241-1248 | a nonce's bucket: tag, seed, eight epoch bytes and four nonce bytes |
| Fetching.ScoreMeans | pbt/stem_subscription.py:704-709 | a provider's score: tag, seed, eight epoch bytes and provider |
| Fetching.SelectionByDigest | pbt/stem_subscription.py:703-715 | the chosen providers come in the order of their digests and before all others |
| Fetching.BuildCoverBucketSet | pbt/stem_subscription.py:1223-1253 | returns min(bucket_count, targets + cover) buckets with all targets among them, in the order of the nonces; raises on bad arguments, else only when covers are asked for and the epoch does not fit or all 2^32 nonces do not suffice |
| Fetching.CoverSetsNest | pbt/stem_subscription.py:1239-1251 | of two cover sets of the same session the smaller is inside the larger |
| Fetching.RankedIsAvailable | pbt/stem_subscription.py:699-713 | the ranking lists each available provider once |
| Fetching.SelectionWidens | pbt/stem_subscription.py:684-715 | the selection has distinct available providers, as many as asked for if there are, and asking for more only adds |
| Fetching.PlanFetch | pbt/stem_subscription.py:212-249 | the target buckets are exactly those of the requested stems, digests written out; the cover buckets and the providers, by digest; raises only when there is no such plan |
| Fetching.WiderPolicyWiderPlan | pbt/stem_subscription.py:212-249 | widening a policy only adds buckets and providers |
| Reliability.ContainsMeans | pbt/stem_subscription.py:388-391 | when a reason has a text in it |
| Reliability.TelemetryCountsReports | pbt/stem_subscription.py:372-402 | a provider's counters are the counts of its reports, its failure streak, and its failures of each kind, by the text of the reason |
| Reliability.ProviderReliabilityTracker.RecordResult | pbt/stem_subscription.py:372-402 | records exactly one report, for one provider |
| Reliability.TuningAdds | pbt/stem_subscription.py:476-496 | tuning adds one for a low success rate and one for a long streak, both written out, up to the caps |
| Reliability.TuningWidens | pbt/stem_subscription.py:461-496 | for any caps, tuning gives a valid policy, wider than the old one exactly when no cap is negative, by at most two, however floats round; and when it raises |
| Retries.PacketReportMeans | pbt/stem_subscription.py:559-578 | what is reported of a packet of a rejected response, and as which kind of failure |
| Retries.NextPolicyAdds | pbt/stem_subscription.py:587-600 | by how much the next attempt widens |
| Retries.RecordResponse | pbt/stem_subscription.py:558-582 | a rejected response leaves one report for each packet, and one for each planned provider that stayed silent; it raises exactly on a fresh packet with a short key, with the packets before it recorded |
| Retries.WideningKeepsQuorum | pbt/stem_subscription.py:251-282 | widening never changes which responses are accepted |
| Retries.Attempt | pbt/stem_subscription.py:540-582 | one attempt: its plan, its verdict by the base policy's quorum, its telemetry, also when it raises |
| Retries.SimulateEpochFetch | pbt/stem_subscription.py:499-602 | the whole run, for any behaviour of the network: each attempt's policy, plan and telemetry, the verdict, where it ends, and why and in which state it raises |
| Retries.PoliciesWiden | pbt/stem_subscription.py:587-600 | along a run policies stay valid and widen, and the quorum size stays the base policy's |
| Retries.RetriesOnlyWiden | pbt/stem_subscription.py:499-602 | each attempt asks for all buckets and providers of every attempt before it |
| Chunking.ZeroRemainingIsStart | pbt/embedding.py:251-256 | the running counter is zero exactly at the instruction starts of the scan N(i, w) of section 9.4.3 of the Yellow Paper |
| Chunking.ChunkCode | pbt/embedding.py:225-260 | each chunk alone, from its stored offset, classifies its bytes as the scan of the whole code does, across PUSHes over several chunks |
| Chunking.ChunksReassemble | pbt/embedding.py:210-222 | the chunks' payloads, concatenated and cut to length, are the bytecode |
| Embedding.KeyMeans | pbt/embedding.py:55-140 | every key written out: subtree, hashed strings, leaf |
| Embedding.PageMeans | pbt/embedding.py:105-153 | which indices are on which page |
| Embedding.KeyExists | pbt/embedding.py:44-140 | a part has a key exactly when its index is not negative and its page number fits 32 bytes |
| Embedding.PagesAreStems | pbt/embedding.py:88-153 | two parts share a stem if and only if they share account, page index and kind of page; collisions apart |
| Embedding.PythonKeysAreInjective | pbt/embedding.py:74-140 | distinct parts have distinct keys, collisions apart |
| Embedding.DecodeBasicMeans | pbt/embedding.py:199-207 | the decoder reads version, balance, nonce and code size at bytes 0, 4, 12 and 20, most significant first |
| Embedding.BasicDataBijective | pbt/embedding.py:160-207 | encoding and decoding the basic-data leaf invert each other on all inputs, and the leaf has the fields at those bytes |
| Writes.PutAllReads | pbt-rs/src/tree.rs:133-138 | after any writes each key reads its last write, else what it read before; exactly the written stems appear |
| Writes.SameWritesSameTree | pbt-rs/src/tree.rs:133-138 | writes that agree on every last value give the same tree, all-empty stems included |
| Migration.KeyOfMeans | pbt-rs/src/ethereum.rs:28-141 | every key written out: subtree, tagged hashed strings, leaf |
| Migration.KeysAreInjective | pbt-rs/src/ethereum.rs:36-141 | distinct parts of accounts have distinct keys, unless the hashed preimages that place them collide |
| Migration.ChunkCode | pbt-rs/src/migration.rs:29-44 | the loop cuts the code into its 31-byte chunks, byte 0 a placeholder |
| Migration.RInsertAll | pbt-rs/src/tree.rs:133-138 | the owned tree after a list of writes is well hashed and has the specified shape |
| Migration.MigrateAccount | pbt-rs/src/migration.rs:46-76 | never fails, and leaves the owned tree, stored hashes included, that the account's leaves, written in order, make of it |
| Migration.BasicDataMeans | pbt-rs/src/migration.rs:17-27 | the basic-data leaf has the version at bytes 0-3, the balance at 4-11, the nonce at 12-19 and the code size at 20-31 |
| Migration.PlainChunkMeans | pbt-rs/src/migration.rs:33-42 | byte 0 of a chunk is 0, the others are the code's, zeros behind its end |
| Migration.MigrateAll | pbt-rs/src/migration.rs:46-76 | migrating accounts one call after the other leaves the owned tree that their joined writes make of it, of which the rows below speak |
| Migration.RInsertAllAppend | pbt-rs/src/tree.rs:133-138 | writing one list after the other is writing the joined list, stored hashes included |
| Migration.MigrationIsIdempotent | pbt-rs/src/migration.rs:46-76 | migrating the same accounts again changes nothing, stored hashes included, whatever the hasher |
| Migration.MigrationOrderIsFree | pbt-rs/src/migration.rs:46-76 | accounts with distinct addresses may be migrated in any order: the same owned tree and root, whatever the hasher; collisions of placing preimages apart |
| Migration.MigratedPartsReadBack | pbt-rs/src/migration.rs:46-76 | every basic-data, code-hash and chunk leaf and the last value of every slot reads back from the owned tree after the migration |
| Migration.MigratedLeavesMean | pbt-rs/src/migration.rs:46-63 | what a migrated account's header leaves say, byte for byte, also to the Python decoder: version, balance, nonce, code size and code hash |
| Migration.MigratedCodeMeans | pbt-rs/src/migration.rs:65-68 | what its code leaves say, byte for byte |
| VectorFold.Poseidon2Means | pbt-rs/src/hash.rs:35-43 | the Poseidon2 hash is Blake3 of the tag poseidon2: and the input |
| VectorFold.VerifyVectorFoldProof | pbt-rs/src/proof_format.rs:225-270 | accepted if and only if the commitments are precisely the intermediate folds of the spelled path and end at the final root |
| VectorFold.StepsSpellPath | pbt-rs/src/proof_format.rs:187-209 | the steps of a classic path spell that path and commit to its folds |
| VectorFold.CommittedStepsAreSteps | pbt-rs/src/proof_format.rs:240-267 | steps that commit to their folds are the steps of the path they spell and of no other |
| VectorFold.BuildVectorFoldProof | pbt-rs/src/proof_format.rs:167-223 | succeeds exactly when the mode's fold of the key's path is the tree's root; the proof is then accepted for that root and carries the key's path |
| VectorFold.AcceptedVectorFoldIsHonest | pbt-rs/src/proof_format.rs:225-270 | in Poseidon2 mode an accepted proof for a tree's root is moreover the tree's own classic proof, collisions apart |
| FoldBinding.FoldLeadsToStem | pbt-rs/src/proof_format.rs:240-267 | in a mode that tells its inputs apart, a fold that ends at a tree's root runs along the stem's own path to the stem, or exhibits a collision of the primitive |
| FoldBinding.AcceptedFoldIsTrue | pbt-rs/src/proof_format.rs:225-270 | in a mode that tells its inputs apart, an accepted proof carries the key's stem, value and path, or exhibits a collision of the primitive |
| FoldBinding.TaggedIsSeparated | pbt-rs/src/hash.rs:142-150 | a mode that hashes one tagged byte string tells stems, pairs and the empty string apart |
| FoldBinding.Poseidon2HashesLike | pbt-rs/src/hash.rs:35-43 | the Poseidon2 hasher and mode agree and are such a mode over Blake3 |
| FoldBinding.OwnedRootIsModeRoot | pbt-rs/src/tree.rs:34-56 | the stored root of a tree hashed by a mode's hasher is the root in that mode |
| FoldBinding.BuildComparesDigests | pbt-rs/src/proof_format.rs:167-223 | in any mode, Gemini included, building succeeds exactly when the claimed stem and the node at the end of the key's path have one digest, collisions of the pair hash apart |
| FoldBinding.BuildSucceedsExactly | pbt-rs/src/proof_format.rs:167-223 | building succeeds when the key's stem is in the tree, in any mode; and only then in a mode that tells its inputs apart, collisions of the primitive apart |
| Gemini.HashStem | pbt-rs/src/hash.rs:166-182 | the loop over halving levels computes the specified stem hash |
| Gemini.PrefixBlockMeans | pbt-rs/src/hash.rs:168-170 | the block is the first 32 bytes of the prefix, then zeros |
| Gemini.StemIsPair | pbt-rs/src/hash.rs:138-182 | a stem hash is a pair hash: one and the same call |
| Gemini.SpineFoldsToTop | pbt-rs/src/hash.rs:171-180 | folding the first value along its siblings is the reduction of the values |
| Gemini.NestedStemLies | pbt-rs/src/proof_format.rs:225-270 | for every compression function and all prefixes, a tree of one stem built by two insertions and an accepted proof of a value it does not hold |
| Gemini.GeminiTrueExactly | pbt-rs/src/proof_format.rs:225-270 | in the Gemini mode acceptance means the correct value exactly where no prefix is in use; collisions of the compression function, between the tree's calls and the verifier's, apart |
| Gemini.GeminiForgetsPrefixes | pbt-rs/src/hash.rs:166-171 | in the Gemini mode a proof accepted for one prefix is accepted for every other with the same zero-padded first 32 bytes |
| Gemini.HollowNeighbourBuilds | pbt-rs/src/proof_format.rs:167-223 | in the Gemini mode building succeeds for an absent stem if an all-empty one shares its first 32 bytes |

## Left out

- Concrete hash functions (the insides of Blake3 and of the Gemini compression): library calls or prototypes; `H` is arbitrary.
- Switching the active hash during a run (`pbt/hash.py`): node caches are not reset there, so coherence is for a fixed hash.
- Classic Rust proofs under an overridden `hash_pair` (Gemini): the verifier does not call it, so completeness is not claimed.
- Gemini's compression function: an arbitrary function of two words; its rounds are not modelled.
- `compress`/JSON/bincode/gzip wrappers of proofs, JSON-RPC envelopes, the subscription registration record: foreign or dynamically typed codecs, or easy members next to the packet codec.
- Wallet rules, gas, metadata, SLA registry, ephemeral lens, interest commitments, leakage metric: single-branch or floating-point members next to the core.
- Client.PartiallyStatelessStemClient.constructor: demands a positive bound, which `MakeClient` checks as the source's constructor does.
- Batch.AcceptedBatchIsHonest: says nothing about the deduplicated siblings, which the verifier only checks for order; `Batch.AcceptedBatchExactly` does.
- Float arithmetic of success rates: rounding and summation are arbitrary functions, so nothing depends on how they round.
- Migration.MigrateAccount: words are 64 bits wide (`usize`); the push offset of chunks is the source's placeholder 0, so the PUSH property is stated for the Python chunks only.
- Embedding: addresses are 32 bytes, as the type alias of the source says; Python and Rust derive different keys (only the Rust preimages are tagged), so no agreement of keys between them is stated.
- Python sets and dictionaries with unspecified order: only their sorted or order-free use is modelled.
- Identity of empty node objects: `Nodes.Node` makes a new one wherever the source does, and nothing is claimed about which.
- Sharing of node objects between trees: a tree owns its nodes; the source's functions have no other intended use.
- Text of error messages: kept where the order of checks is modelled, without the formatted arguments.
