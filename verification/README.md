# Verified model of the ledger verifier

The repository verifies signed, hash-linked ledgers and the bundles that carry them. This project models its codecs,
its Merkle arithmetic, its graph checks and its pass over the events, and proves what they promise for all inputs.

Digests, CRC-32, signature checks, CBOR key encoding and payload decoding are parameters of the model. Injectivity of a
digest is assumed only where a statement says so, as a precondition; such digests have no fixed width in the model.

- `Bits`, `MerkleTree`, `MerkleProofs`: tree hash, audit paths and consistency proofs of RFC 6962 against the verifier's
  loops and bit arithmetic. `ExportProofs`, `HeadCoverage`: the checkpoint and proof loops of an export, and what they
  prove under a head that lags behind.
- `Bytes`, `Sorting`, `Zip`: the stored-only archive writer and its reader.
- `CborHead`, `Preimages`, `AuthoredEvent`: shortest-form heads and the byte strings that are hashed or signed.
- `Text`, `CborDecoder`, `CoseSign1`: the TypeScript package's decoder and encoders. `CborSyntax`: what the decoder
  accepts, stated apart from it. `NativeCose`: the Rust writers. `Structures`: the hashed and signed strings as CBOR.
- `CanonicalCbor`, `JsonCbor`: the canonicalizer and the conversion between JSON and CBOR.
- `LineageGraph`, `Attachments`: the three-colour search and the attachment lineage.
- `Supersession`: nested verification of predecessor bundles.
- `EventSet`, `LedgerReport`, `LedgerProperties`, `EventLookup`: the event loop, what it reports on any ledger, what a
  ledger without failures satisfies, and the index for later passes.
- `TreeHashes`, `Agreement`: the tagged hashes of leaves and nodes, and what equal hashes or roots say about two ledgers.
- `Erasure`, `Ledger`: evidence of destroyed keys, and both passes together.

Where the code has loops or updates state, a method with the same loop or a class with the same fields is proved against
a function, and the promises are lemmas about that function. `dafny verify dfyconfig.toml` checks everything.

Four promises hold only under a condition, which the model states exactly:

- Recovering the authored event lowers the first byte of the map head, so it inverts the appending of the hash exactly
  for maps of at most 22 other entries and hashes that do not contain the key (`AuthoredEvent.StripsAppendedExactly`).
- Domain separation truncates lengths to 32 bits. Components of any length are kept apart under one tag, and two tags
  share a preimage exactly when one begins the other and their lengths agree modulo 2^32 (`Preimages.TagsMeetExactly`).
  Tags are text in the source; the condition is on their bytes, so it decides for any two texts.
- Inclusion records are checked against the head checkpoint's root, but at the size of the ledger. If no leaf is a node
  hash, they are audit paths of the ledger exactly when that checkpoint covers it or no leaf stands, under the same turns,
  where the head's tree has an equal one (`HeadCoverage.ConclusiveExactly`). For distinct leaves, such as those of a
  single chain, the second case says that the head's tree needs fewer bits (`HeadCoverage.DistinctExactly`).
  `ExportProofs.LaggingHead` is an example of the rest. Under a collision-free digest the code's two tags ensure that no
  leaf is a node hash (`TreeHashes.TagsSeparate`).
- The shift by the inner proof length is defined for sizes up to half of the 64-bit range or indices in the upper half
  (`MerkleProofs.ShiftSafeExactly`); the two proof verifiers require that.

## Model

| member | source | states |
|---|---|---|
| Bits.ShrDivides | crates/integrity-verify/src/trellis/merkle.rs:106-119 | shifting right by k bits divides by two to the k |
| Bits.BitLengthBounds | crates/integrity-verify/src/trellis/merkle.rs:106-113 | the word width minus the leading zeros is the number of bits needed, no more and no fewer |
| Bits.XorDiffers | crates/integrity-verify/src/trellis/merkle.rs:106-113 | a bit of the exclusive or is one exactly where the two indices differ |
| Bits.PopCountCounts | crates/integrity-verify/src/trellis/merkle.rs:115-119 | the number of ones is the number of positions at which the shifted word is odd |
| Bits.TrailingZerosFactor | crates/integrity-verify/src/trellis/merkle.rs:189-199 | a size is an odd number times two to its trailing zeros, and the same shift takes the last index to that number less one |
| MerkleTree.MerkleRoot | crates/integrity-verify/src/trellis/merkle.rs:68-94 | the level-by-level loop returns the recursive tree hash of section 2.1 of RFC 6962, and the all-zero digest for no leaves |
| MerkleTree.PairUp | crates/integrity-verify/src/trellis/merkle.rs:68-94 | one round of the inner loop hashes neighbours and promotes an unpaired last node unchanged |
| MerkleTree.PairLevelKeepsMth | crates/integrity-verify/src/trellis/merkle.rs:68-94 | pairing a level, for any number of nodes, does not change the recursive tree hash |
| MerkleTree.RootBindsLeaves | crates/integrity-verify/src/trellis/merkle.rs:68-94 | with an injective node hash, two lists of one length with one root are one list |
| MerkleProofs.ChainInnerMerkle | crates/integrity-verify/src/trellis/merkle.rs:121-130 | the loop that tests bit after bit of the index is the fold over siblings on either side |
| MerkleProofs.ChainInnerRightMerkle | crates/integrity-verify/src/trellis/merkle.rs:132-143 | the loop that hashes left siblings only is the fold over the set bits of the index |
| MerkleProofs.ChainBorderRightMerkle | crates/integrity-verify/src/trellis/merkle.rs:145-150 | the border loop is the fold over left siblings |
| MerkleProofs.RootFromInclusionProof | crates/integrity-verify/src/trellis/merkle.rs:152-168 | the verifier returns a root exactly for an index below the size and a proof of the expected length, namely the fold over it |
| MerkleProofs.ShiftSafeExactly | crates/integrity-verify/src/trellis/merkle.rs:106-119 | the 64-bit shift by the inner length stays below the word width exactly for sizes up to half the range or indices in the upper half |
| MerkleProofs.ProofLengthUp | crates/integrity-verify/src/trellis/merkle.rs:106-119 | inner length and proof length shrink by the bit that one level of the tree removes |
| MerkleProofs.InclusionComplete | crates/integrity-verify/src/trellis/merkle.rs:152-168 | a leaf with its audit path (section 2.1.1 of RFC 6962) always reconstructs the root, whatever the hash |
| MerkleProofs.InclusionExact | crates/integrity-verify/src/trellis/merkle.rs:152-168 | with an injective hash the root is reconstructed by that leaf and that path and by nothing else, so the expected length is the path's length |
| MerkleProofs.RootFromConsistencyProof | crates/integrity-verify/src/trellis/merkle.rs:170-215 | the verifier's rejections and its two simultaneous folds, for all 64-bit sizes for which the shift is defined |
| MerkleProofs.ShiftBelowInner | crates/integrity-verify/src/trellis/merkle.rs:170-215 | the trailing zeros of the old size are strictly below the inner length, so the branch that guards the subtraction is never taken |
| MerkleProofs.ConsistencyComplete | crates/integrity-verify/src/trellis/merkle.rs:170-215 | the proof of section 2.1.2 of RFC 6962 is always accepted with the old root and yields the new root, whatever the hash |
| MerkleProofs.ConsistencySound | crates/integrity-verify/src/trellis/merkle.rs:170-215 | with an injective hash, an accepted proof below the new size shows the true old root and is the proof of RFC 6962 |
| MerkleProofs.ConsistencyExact | crates/integrity-verify/src/trellis/merkle.rs:170-215 | both directions together, equal sizes included |
| ExportProofs.VerifyCheckpoints | crates/integrity-verify/src/trellis/export.rs:633-764 | the checkpoint loop, with its prior digest and head root, computes the chain of checks and stops at an unreadable link |
| ExportProofs.VerifyInclusions | crates/integrity-verify/src/trellis/export.rs:800-893 | the inclusion loop reports at most one failure a record, in order |
| ExportProofs.VerifyConsistencies | crates/integrity-verify/src/trellis/export.rs:911-979 | the consistency loop recomputes both roots and reports at most one failure a record, in order |
| ExportProofs.VerifyExportProofs | crates/integrity-verify/src/trellis/export.rs:633-979 | checkpoint, head-digest, inclusion and consistency failures, in that order |
| ExportProofs.CheckpointsExactly | crates/integrity-verify/src/trellis/export.rs:633-764 | the chain is accepted exactly when each checkpoint states the root of its first leaves and names its predecessor's digest |
| ExportProofs.InclusionsExactly | crates/integrity-verify/src/trellis/export.rs:800-893 | against the root of all leaves exactly the audit paths of the leaves are accepted |
| ExportProofs.ConsistenciesExactly | crates/integrity-verify/src/trellis/export.rs:911-979 | exactly the consistency proofs between prefixes of the leaves are accepted |
| ExportProofs.AcceptedExactly | crates/integrity-verify/src/trellis/export.rs:633-979 | an export whose last checkpoint covers all leaves is accepted exactly when its chain, head and proofs are those of its own leaves |
| ExportProofs.ReportsExactly | crates/integrity-verify/src/trellis/export.rs:633-979 | everything that is reported of an export, in order and by kind, against the last checkpoint of the right scope and size, and exactly when an unreadable link ends the verification |
| ExportProofs.LaggingHead | crates/integrity-verify/src/trellis/export.rs:800-893 | a concrete export whose head covers three of four leaves is accepted with a path that is no audit path of its tree |
| HeadCoverage.FoldIsFolded | crates/integrity-verify/src/trellis/merkle.rs:121-168 | the verifier's fold from the leaf up is the fold along the tree from the root down |
| HeadCoverage.FoldMeetsLeaf | crates/integrity-verify/src/trellis/merkle.rs:152-168 | a fold that gives the root of any tree of separated leaves has gone the turns to that very leaf in it |
| HeadCoverage.RootBindsSize | crates/integrity-verify/src/trellis/merkle.rs:68-94 | trees of separated leaves with one root have one size |
| HeadCoverage.RecordsExactly | crates/integrity-verify/src/trellis/export.rs:800-893 | against a head of any size exactly those leaves are accepted, with exactly those paths, that stand under the same turns for an equal leaf of the head's tree |
| HeadCoverage.StandingIsAccepted | crates/integrity-verify/src/trellis/export.rs:800-893 | such a leaf is accepted although its audit path in the ledger's tree is another |
| HeadCoverage.ConclusiveExactly | crates/integrity-verify/src/trellis/export.rs:800-893 | all accepted records are audit paths of the ledger exactly when the head covers it or no leaf stands where the head's tree has an equal one |
| HeadCoverage.DistinctExactly | crates/integrity-verify/src/trellis/export.rs:800-893 | for distinct leaves the second case says that m - 1 has fewer bits than n - 1 |
| HeadCoverage.AcceptedExactly | crates/integrity-verify/src/trellis/export.rs:633-979 | which exports are accepted, whatever their last checkpoint covers |
| TreeHashes.TagsSeparate | crates/integrity-verify/src/trellis/merkle.rs:57-66 | with a collision-free digest the code's node hash is injective and no leaf is a node hash, as their two tags do not meet |
| TreeHashes.RootBindsHashes | crates/integrity-verify/src/trellis/merkle.rs:57-94 | two non-empty lists of event hashes, of any lengths, have one root exactly if they are one list |
| TreeHashes.FixedWidthJoinsApart | crates/integrity-verify/src/trellis/merkle.rs:61-66 | digests of one width, written one after the other, are told apart |
| Bytes.LessExactly | crates/integrity-bundle/src/lib.rs:239-246 | one string is less than another exactly if, at the first place where they differ, it has the smaller byte or has ended |
| Zip.Bundle.AddEntry | crates/integrity-bundle/src/lib.rs:221-223 | an entry is appended |
| Zip.Bundle.ToZipBytes | crates/integrity-bundle/src/lib.rs:239-339 | the writer's loop returns the archive of the sorted entries or an error, as WritesExactly and RoundTrip characterise it, and leaves the entries as they were |
| Zip.FindEocd | crates/integrity-bundle/src/lib.rs:446-463 | the backward scan finds the last end-record signature that leaves room for a record |
| Zip.ReadCentralDirectory | crates/integrity-bundle/src/lib.rs:130-205 | the cursor loop reads the announced number of central records, each with its local payload |
| Zip.ReadStoredZip | crates/integrity-bundle/src/lib.rs:91-205 | the reader, on any bytes, indexes inside them and returns what ReadsExactly says or an error |
| Zip.PayloadReadsBack | crates/integrity-bundle/src/lib.rs:356-444 | a written local section is read back as its payload |
| Zip.RoundTrip | crates/integrity-bundle/src/lib.rs:91-339 | whatever is written successfully is read back as exactly the entries, each path before those of all later entries: at their first difference it has the smaller byte, or it ends |
| Zip.WritesExactly | crates/integrity-bundle/src/lib.rs:239-339 | an archive is written exactly for fewer than 2^16 entries of distinct ASCII paths below 64 KiB with payloads and sections below 4 GiB |
| Zip.HeaderBytes | crates/integrity-bundle/src/lib.rs:239-339 | the bytes of local and central headers: version 2.0, stored, the fixed date, no attributes |
| Zip.ReadsExactly | crates/integrity-bundle/src/lib.rs:91-205 | exactly the bytes with a last end record, a directory and local sections at the stated offsets, with little-endian fields and matching checksums, are read, and as those entries |
| Zip.RecordExactly | crates/integrity-bundle/src/lib.rs:130-190 | a central record is read exactly when it and the local section it points to hold the entry's name, sizes, checksum and payload at their offsets |
| Zip.OrderDoesNotMatter | crates/integrity-bundle/src/lib.rs:239-339 | permuting the added entries changes neither success nor the bytes |
| Zip.ArchiveBindsEntries | crates/integrity-bundle/src/lib.rs:239-339 | two archives are equal exactly when their entries are permutations of each other |
| Zip.PayloadsAreShorter | crates/integrity-bundle/src/lib.rs:356-444 | every entry read has an ASCII path and is, with its path, at least 30 bytes shorter than the archive |
| CborHead.HeadReadsBack | crates/integrity-cbor/src/lib.rs:655-676 | a shortest-form head is read back, whatever follows it (section 3 of RFC 8949) |
| CborHead.HeadBytes | crates/integrity-cbor/src/lib.rs:655-676 | the bytes of a head: the argument in the first byte, or big-endian in the fewest of one, two, four or eight bytes |
| CborHead.HeadPrefixFree | crates/integrity-cbor/src/lib.rs:655-676 | no head is the beginning of another |
| CborHead.BstrPrefixFree | crates/integrity-cbor/src/lib.rs:86-90 | nor is a byte string the beginning of another |
| Preimages.SigStructureInjective | crates/integrity-cose/src/lib.rs:559-567 | equal signature inputs mean equal protected headers and equal payloads (section 4.4 of RFC 9052) |
| Preimages.DomainPreimageInjective | crates/integrity-cbor/src/lib.rs:121-128 | for tags below four gibibytes equal preimages mean equal tags and equal components, whatever their length |
| Preimages.DomainPreimageBytes | crates/integrity-cbor/src/lib.rs:121-128 | tag and component follow one another, each after its length modulo 2^32 in four big-endian bytes |
| Preimages.SameTagBinds | crates/integrity-cbor/src/lib.rs:121-128 | one tag of any length keeps all components apart |
| Preimages.TagsMeetExactly | crates/integrity-cbor/src/lib.rs:121-128 | two tags of any lengths share a preimage exactly when one begins the other and their lengths agree modulo 2^32 |
| Preimages.LongTagsCollide | crates/integrity-cbor/src/lib.rs:121-128 | every tag of four gibibytes or more shares a preimage with the shorter tag it begins with |
| Preimages.KeptApartExactly | crates/integrity-cbor/src/lib.rs:121-128 | a tag is kept apart from all tags below four gibibytes exactly if it is below that itself |
| Preimages.CanonicalPreimageInjective | crates/integrity-verify/src/trellis/merkle.rs:42-55 | equal canonical-event preimages mean equal scopes and equal event bytes |
| Structures.SigStructureIsCbor | crates/integrity-cose/src/lib.rs:559-567 | the signature input spells the array of the context Signature1, the protected header, an empty string and the payload |
| Structures.CanonicalIsCbor | crates/integrity-verify/src/trellis/merkle.rs:42-55 | the event preimage spells the map of version 1, the scope and the event |
| AuthoredEvent.RecoveredExactly | crates/integrity-verify/src/trellis/merkle.rs:21-40 | exactly which canonical events have an authored preimage, and which one |
| AuthoredEvent.StripsAppendedExactly | crates/integrity-verify/src/trellis/merkle.rs:14-40 | stripping an appended hash recovers the original map exactly when it had at most 22 entries and the hash does not contain the key |
| CanonicalCbor.ResultIsCanonical | crates/integrity-cbor/src/lib.rs:158-203 | the result has, at every depth, maps in which each encoded key precedes those of all later entries, at their first difference by the smaller byte or by ending, and no infinite or negative-zero float |
| CanonicalCbor.FixedExactly | crates/integrity-cbor/src/lib.rs:158-203 | exactly the canonical values are left as they are |
| CanonicalCbor.Idempotent | crates/integrity-cbor/src/lib.rs:158-203 | canonicalizing twice is canonicalizing once |
| CanonicalCbor.OrderInvariant | crates/integrity-cbor/src/lib.rs:158-203 | values equal up to permuting map entries at any depth both fail or have one result (section 4.2.1 of RFC 8949) |
| CanonicalCbor.ResultIsSame | crates/integrity-cbor/src/lib.rs:158-203 | the result differs from the input only in the order of map entries |
| CanonicalCbor.CanonicalFormExactly | crates/integrity-cbor/src/lib.rs:158-203 | the result, without a word on how it is found: the canonical value that differs from the input only in the order of map entries, and an error if there is none |
| CanonicalCbor.CanonicalFormDecides | crates/integrity-cbor/src/lib.rs:158-203 | two values with canonical forms have the same one exactly when they differ only in the order of map entries |
| JsonCbor.PathStack.Push | crates/integrity-cbor/src/lib.rs:402-402 | a key is pushed on the shared path |
| JsonCbor.PathStack.Pop | crates/integrity-cbor/src/lib.rs:405-405 | the last key is popped |
| JsonCbor.JsonToCborAtPath | crates/integrity-cbor/src/lib.rs:364-419 | the recursive conversion returns the converted value and, when it succeeds, leaves the shared path as it was |
| JsonCbor.CborToJson | crates/integrity-cbor/src/lib.rs:297-343 | the recursive reader returns the JSON value; later entries of a map replace earlier ones |
| JsonCbor.ConvertsExactly | crates/integrity-cbor/src/lib.rs:351-419 | exactly the values with 64-bit signed integers and without negative zero convert |
| JsonCbor.RoundTrip | crates/integrity-cbor/src/lib.rs:270-419 | a converted value is read back as itself exactly when all its strings carry no tag, tag 0 or tag 32, and is refused otherwise |
| JsonCbor.ConvertedIsCanonical | crates/integrity-cbor/src/lib.rs:268-419 | with an encoder that keeps text keys apart, conversion gives a value with strictly sorted maps at every depth |
| JsonCbor.ConvertedIsFixed | crates/integrity-cbor/src/lib.rs:227-274 | so canonicalization leaves a converted value alone |
| JsonCbor.ConvertedDenotes | crates/integrity-cbor/src/lib.rs:364-419 | a converted value says what the JSON value says: numbers, strings with the tag of the first rule for their path, and for each member an entry |
| JsonCbor.ReadsExactly | crates/integrity-cbor/src/lib.rs:297-343 | exactly the values with 64-bit signed integers, finite floats but negative zero, text keys and no tag but 0 and 32 are read |
| JsonCbor.ReadSays | crates/integrity-cbor/src/lib.rs:297-343 | what is read says what the value says: byte strings in base64, members in key order, and of entries with one key the last |
| Text.RoundTrip | packages/integrity-cose/src/index.ts:349-352 | which strings survive UTF-8 encoding and strict decoding: those without lone surrogates and without a leading byte-order mark |
| Text.ArrivesRepaired | packages/integrity-cose/src/index.ts:349-352 | what arrives of any string: each lone surrogate replaced by U+FFFD and a leading byte-order mark dropped |
| Text.ScalarBytes | packages/integrity-cose/src/index.ts:349-352 | the one to four bytes of a scalar value: its bits in groups of six |
| Text.ScalarsExactly | packages/integrity-cose/src/index.ts:349-352 | exactly what scalar values are written as is read, so no longer form and no surrogate |
| CborDecoder.Decoder.ReadLength | packages/integrity-cose/src/index.ts:444-463 | the length reader consumes and returns what the grammar says, for every input |
| CborDecoder.Decoder.Read | packages/integrity-cose/src/index.ts:410-436 | the recursive decoder ends on every input, moves only forward, and reads what the grammar says |
| CborDecoder.Decoder.ReadArray | packages/integrity-cose/src/index.ts:474-476 | the announced number of values, in order |
| CborDecoder.Decoder.ReadMap | packages/integrity-cose/src/index.ts:478-489 | the announced pairs, in which MapIsParsed refuses a number that is twice a key |
| CborDecoder.Decoder.ReadFully | packages/integrity-cose/src/index.ts:404-408 | one value and nothing after it |
| CborSyntax.ParsesExactly | packages/integrity-cose/src/index.ts:404-489 | a value is parsed exactly off the front of bytes that spell it, where spelling is defined apart from the decoder: heads with any of four argument widths, strings, items and pairs one after the other, no number twice a key of one map |
| CborSyntax.MapIsParsed | packages/integrity-cose/src/index.ts:478-489 | a map with well-formed keys and values is parsed if no number is a key twice, and else refused as a duplicate label |
| CborSyntax.SetExactly | packages/integrity-cose/src/index.ts:478-489 | a text, boolean or null key that occurs again takes the place of its first entry, any other key is appended |
| CoseSign1.JoinChunks | packages/integrity-cose/src/index.ts:388-397 | the buffer holds the chunks one after the other |
| CoseSign1.DecodeCoseSign1 | packages/integrity-cose/src/index.ts:59-105 | the decoder's result or first error, for every input |
| CoseSign1.DecodesExactly | packages/integrity-cose/src/index.ts:59-105 | what is decoded, without the decoder: bytes that spell tag 18 around four fields, with a header string that spells a map, no retired label, typed known labels, a short method URI and an empty unprotected header |
| CoseSign1.RepeatedLabelInHeader | packages/integrity-cose/src/index.ts:478-489 | an envelope whose header has a number for a label twice is refused as a duplicate label |
| CoseSign1.HeaderReadsBack | packages/integrity-cose/src/index.ts:478-489 | a written header map with distinct labels is read back whole |
| CoseSign1.RepeatedLabelRefused | packages/integrity-cose/src/index.ts:478-489 | and one in which a label occurs twice is refused |
| CoseSign1.DetachedRoundTrip | packages/integrity-cose/src/index.ts:59-105 | what comes back from any encoded detached-signature envelope |
| CoseSign1.DetachedRoundTripExact | packages/integrity-cose/src/index.ts:59-105 | all five inputs come back exactly when the URI survives text coding and has at most 512 bytes |
| CoseSign1.SubstrateRoundTrip | packages/integrity-cose/src/index.ts:222-242 | what comes back from any encoded substrate envelope; a negative suite identifier is written but refused on reading |
| CoseSign1.DetachedHeaderEncodes | packages/integrity-cose/src/index.ts:196-210 | exactly which inputs can be encoded |
| CoseSign1.CoseSign1Encodes | packages/integrity-cose/src/index.ts:244-256 | exactly which envelopes can be encoded |
| CoseSign1.DecodedIsRewritten | packages/integrity-cose/src/index.ts:59-105 | whatever bytes are decoded, the three parts that come out can be encoded again, and that envelope decodes to the same result |
| NativeCose.DetachedHeadersAgree | crates/integrity-cose/src/lib.rs:545-556 | the Rust and TypeScript writers produce the same detached-signature header |
| NativeCose.SubstrateHeadersAgree | crates/integrity-cose/src/lib.rs:517-536 | and the same substrate header |
| NativeCose.EnvelopesAgree | crates/integrity-cose/src/lib.rs:571-588 | and the same envelope |
| NativeCose.NativeEnvelopeReadsBack | crates/integrity-cose/src/lib.rs:545-588 | an envelope written in Rust is read back by the TypeScript decoder with all its parts |
| LineageGraph.Search.Visit | crates/integrity-verify/src/trellis/util.rs:136-157 | one visit finds a cycle or closes its node; it ends because the white nodes dwindle |
| LineageGraph.HasLineageCycle | crates/integrity-verify/src/trellis/util.rs:115-165 | true exactly when some non-empty walk leads from a node back to itself, whatever the order of visits |
| LineageGraph.AllFinishedIsAcyclic | crates/integrity-verify/src/trellis/util.rs:115-165 | nodes whose edges all lead to nodes finished earlier carry no cycle |
| Attachments.TopologyFailures | crates/integrity-verify/src/trellis/export.rs:1697-1756 | the three passes report duplicates, then a cycle, then unresolved and forward priors, in order |
| Attachments.LinksAreRows | crates/integrity-verify/src/trellis/export.rs:1714-1727 | the edges of the lineage graph are the rows whose two ends are both events |
| Attachments.CycleImpliesForwardReference | crates/integrity-verify/src/trellis/export.rs:1728-1754 | a reported cycle never comes without a forward reference |
| Attachments.AcceptedExactly | crates/integrity-verify/src/trellis/export.rs:1697-1756 | nothing is reported exactly for distinct bindings whose priors are found at smaller indices |
| Attachments.ReportsExactly | crates/integrity-verify/src/trellis/export.rs:1697-1756 | everything that is reported, in order: repeated bindings, a cycle if rows lead from an event back to itself, then unresolved and forward priors |
| Attachments.PriorChainsAreWellFounded | crates/integrity-verify/src/trellis/export.rs:1697-1756 | in an accepted manifest chains of priors run strictly backwards and are bounded by an index |
| Attachments.RepetitionsReported | crates/integrity-verify/src/trellis/export.rs:1703-1712 | a binding with k rows is reported k - 1 times |
| Supersession.ParseExportZip | crates/integrity-verify/src/trellis/export.rs:1680-1693 | members by the name after the first slash, later ones replacing earlier ones, or an error |
| Supersession.MembersExactly | crates/integrity-verify/src/trellis/export.rs:1680-1693 | an archive is read exactly if its entries are and all have a slash; each name then holds the bytes of the last entry that has it after its first slash |
| Supersession.MembersAreShorter | crates/integrity-verify/src/trellis/export.rs:1680-1693 | every member is at least 30 bytes shorter than its archive |
| Supersession.TraversalPath.Insert | crates/integrity-verify/src/trellis/supersession.rs:137-144 | the id is inserted; the answer says whether it was new |
| Supersession.TraversalPath.Remove | crates/integrity-verify/src/trellis/supersession.rs:188-188 | the id is removed |
| Supersession.VerifyExportZip | crates/integrity-verify/src/trellis/export.rs:153-173 | mutual recursion with the walk ends for every archive because nested archives are shorter; the report is what ArchiveAcceptedExactly, FatalExactly and ReportedExactly say |
| Supersession.ArchiveAcceptedExactly | crates/integrity-verify/src/trellis/export.rs:153-173 | an archive is accepted exactly if it is read, its manifest is, no other check stops or fails, and it has no graph or one that fits |
| Supersession.FatalExactly | crates/integrity-verify/src/trellis/export.rs:153-173 | a report is fatal exactly for archives that cannot be read or fail for good; any other begins with the failures of the other checks |
| Supersession.ReportedExactly | crates/integrity-verify/src/trellis/supersession.rs:22-190 | each kind of failure is in the report exactly if another check has put it there or the graph gives reason for it, stated per kind |
| Supersession.VerifySupersessionGraph | crates/integrity-verify/src/trellis/supersession.rs:22-75 | the graph checks of one export, in order |
| Supersession.VerifyPredecessorBundles | crates/integrity-verify/src/trellis/supersession.rs:130-190 | the walk reports what its specification says and leaves the shared path as it was on entry |
| Supersession.RowCycleExactly | crates/integrity-verify/src/trellis/supersession.rs:117-128 | silent exactly when no row is the head and no chain id is named twice |
| Supersession.LinkagesContained | crates/integrity-verify/src/trellis/supersession.rs:90-115 | silent exactly when every superseded chain is named with its checkpoint |
| Supersession.TrailsAreShort | crates/integrity-verify/src/trellis/supersession.rs:130-190 | nesting depth is bounded by the archive size |
| Supersession.CycleReportedExactly | crates/integrity-verify/src/trellis/supersession.rs:130-190 | a cycle is reported exactly when some trail of nested rows meets a chain id again |
| Supersession.OtherPathsAddOnlyCycles | crates/integrity-verify/src/trellis/supersession.rs:130-190 | a graph whose walk was silent can only show cycles below other ids |
| Supersession.AcceptedGraph | crates/integrity-verify/src/trellis/supersession.rs:192-239 | an accepted bundle's graph loads without any failure, so a second walk through it can only find cycles |
| Supersession.RowsReportOnlyMismatches | crates/integrity-verify/src/trellis/supersession.rs:145-187 | a row by itself reports nothing but one mismatch of its bundle: the failure branches of the nested graph are never taken |
| Supersession.SilentExactly | crates/integrity-verify/src/trellis/supersession.rs:130-190 | the walk is silent exactly when no trail meets an id again and none leads to a row that reports something |
| Supersession.GraphAcceptedExactly | crates/integrity-verify/src/trellis/supersession.rs:22-75 | what accepting an export says about its supersession graph at every depth, both ways |
| Supersession.FaultyExactly | crates/integrity-verify/src/trellis/supersession.rs:130-190 | a trail of any depth leads to a faulty row exactly if one of the rows at hand is faulty: its bundle is missing, not accepted by itself or another than the row says |
| Supersession.CyclicExactly | crates/integrity-verify/src/trellis/supersession.rs:130-190 | a trail meets an id again exactly if some trail leads to an id that was being visited at the start |
| Supersession.MismatchReportedExactly | crates/integrity-verify/src/trellis/supersession.rs:130-190 | a bundle is reported exactly if a row that is walked names it and its bundle is missing, not accepted or another than the row says |
| Supersession.GraphFitsExactly | crates/integrity-verify/src/trellis/supersession.rs:22-75 | acceptance of a graph row by row: every bundle matches, no chain is named twice, all superseded chains are named, and no trail leads back to the head |
| EventSet.VerifyEvents | crates/integrity-verify/src/trellis/mod.rs:424-873 | the event loop with all its running state is the step function applied to one event after the other, with early return; RunReports, StopsExactly and RunCollects say what that gives |
| EventSet.BeforeExactly | crates/integrity-verify/src/trellis/mod.rs:741-753 | times are ordered by their nanoseconds since the epoch |
| EventSet.FatalStays | crates/integrity-verify/src/trellis/mod.rs:501-627 | nothing after a fatal event is looked at |
| LedgerReport.RunReports | crates/integrity-verify/src/trellis/mod.rs:501-873 | any run that is not stopped reports, event by event and in a fixed order of kinds, exactly the failures that FailsRead states in terms of the settings and of the events read before |
| LedgerReport.FailuresExactly | crates/integrity-verify/src/trellis/mod.rs:501-873 | a failure of any kind is reported exactly if some event fails in that way, an admitted one for want of a valid signature included |
| LedgerReport.StopsExactly | crates/integrity-verify/src/trellis/mod.rs:501-627 | a run stops with a kind exactly if its first fatal event is so for that reason: key class, unknown key, suite, payload or registry |
| LedgerReport.RunCollects | crates/integrity-verify/src/trellis/mod.rs:755-872 | the summaries, the evidence of destroyed keys and the outcomes of transitions that a run collects are exactly those of the events it reads |
| LedgerProperties.SilentExactly | crates/integrity-verify/src/trellis/mod.rs:501-873 | a run reports nothing exactly when every event is sound, in a sense that mentions no running state and no function of the pass |
| LedgerProperties.SilentIsSigned | crates/integrity-verify/src/trellis/mod.rs:984-994 | with no failures every event names a registered key that has signed its header and payload |
| LedgerProperties.TimesNeverDecrease | crates/integrity-verify/src/trellis/mod.rs:741-753 | with no failures authored times never decrease between any two positions |
| LedgerProperties.SameIdentitySameHash | crates/integrity-verify/src/trellis/mod.rs:637-655 | with no failures any two events of one scope and idempotency key have one hash |
| LedgerProperties.NamesPredecessor | crates/integrity-verify/src/trellis/mod.rs:709-739 | with no failures every event after the first names its predecessor's hash, or none at sequence zero |
| LedgerProperties.TransitionsJoin | crates/integrity-verify/src/trellis/mod.rs:783-872 | with no failures consecutive transitions of a kind join end to end |
| LedgerProperties.FirstTransitionJoins | crates/integrity-verify/src/trellis/mod.rs:455-458 | with no failures the first transition of a kind starts at the declared state |
| LedgerProperties.CustodyRiseIsDuallyAttested | crates/integrity-verify/src/trellis/util.rs:167-178 | with no failures a custody rank above the declared one was reached by a transition that raised it and has both attestations |
| Agreement.HashBindsPayload | crates/integrity-verify/src/trellis/merkle.rs:42-55 | with an injective digest equal event hashes mean equal payload bytes |
| Agreement.AgreeBackwards | crates/integrity-verify/src/trellis/mod.rs:709-739 | two ledgers without failures that share an event hash agree payload by payload back to the nearest event that names no predecessor |
| Agreement.SameHeadSameLedger | crates/integrity-verify/src/trellis/mod.rs:709-739 | if only the first event of each names none, they hold the same payloads |
| EventLookup.BuildEventDetailsLookup | crates/integrity-verify/src/trellis/mod.rs:954-982 | every decoded event is found, a hash at the first event that has it, a position at the earliest of the pooled events that have it |
| Agreement.ChainHashesAreDistinct | crates/integrity-verify/src/trellis/mod.rs:709-739 | a ledger without failures whose events all name a predecessor, but for the first, repeats no hash |
| Agreement.ChainLeavesAreDistinct | crates/integrity-verify/src/trellis/merkle.rs:57-59 | so the leaves of its tree are distinct |
| Agreement.SameRootSameLedger | crates/integrity-verify/src/trellis/merkle.rs:42-94 | two non-empty ledgers of any lengths, verified or not, have one root exactly if they hold the same payloads in the same order |
| Erasure.FinalizeErasureEvidence | crates/integrity-verify/src/trellis/erasure.rs:23-194 | the grouping, chain and attestation passes with their maps, conflict sets and counters, which ReportsExactly and CountersExact characterise |
| Erasure.ReportsExactly | crates/integrity-verify/src/trellis/erasure.rs:23-194 | everything that is found, in order: per row a class other than the registered one and first disagreements, then per signing or subject key its later uses and wraps, then missing attestations; and every row of the result |
| Erasure.GroupsExactly | crates/integrity-verify/src/trellis/erasure.rs:75-112 | a group keeps what its first evidence says and is a conflict exactly when it is not constant |
| Erasure.TimeConflictsReportedOnce | crates/integrity-verify/src/trellis/erasure.rs:77-94 | as many time conflicts are reported as keys have inconstant times, each at the row that first disagrees |
| Erasure.ClassConflictsReportedOnce | crates/integrity-verify/src/trellis/erasure.rs:95-112 | likewise for key classes |
| Erasure.ConflictsReportedOnce | crates/integrity-verify/src/trellis/erasure.rs:23-194 | the later passes add no conflict and remove none |
| Erasure.CountersExact | crates/integrity-verify/src/trellis/erasure.rs:129-178 | for constant groups of class signing or subject the counters are the numbers of later uses and wraps; otherwise they stay zero |
| Erasure.SilentExactly | crates/integrity-verify/src/trellis/erasure.rs:23-194 | nothing is found exactly when the evidence is consistent and attested and no destroyed key is used again |
| Erasure.DestroyedKeysStayUnused | crates/integrity-verify/src/trellis/erasure.rs:129-178 | with no findings no summary after the destruction uses the key |
| Ledger.VerifyLedger | crates/integrity-verify/src/trellis/mod.rs:424-881 | the event pass followed by the erasure pass |
| Ledger.DestroyedKeysStayUnused | crates/integrity-verify/src/trellis/mod.rs:755-775 | in a ledger without failures no event authored after the destruction of a signing or subject key is signed with it or wrapped for it |

## Left out

- Ed25519, ECDSA, SHA-2, CRC-32 and the JSON text reader: foreign primitives, parameters of the model.
- Zip.ReadStoredZip: does not model machine-word overflow of offset sums, which 32-bit fields cannot reach on 64-bit words.
- Zip.WritesExactly: does not say which error is returned otherwise, as errors of archives are messages in the source.
- Structures.SigStructureIsCbor: requires parts below 4 GiB, because the decoder it speaks of knows no longer lengths.
- Structures.CanonicalIsCbor: requires a scope below 4 GiB for the same reason.
- CoseSign1.DecodesExactly: does not say which error is thrown otherwise; RepeatedLabelInHeader does for repeated labels.
- Zip.PayloadsAreShorter: counts the 30-byte local header and the path only, not the central record, because that is what the nesting argument needs.
- MerkleProofs.RootFromInclusionProof: requires sizes for which the 64-bit shift is defined; beyond them the source overflows.
- MerkleProofs.RootFromConsistencyProof: requires the same of the last old leaf's index and the new size.
- ExportProofs.AcceptedExactly: is about heads that cover the ledger, without assuming separated leaves; HeadCoverage.AcceptedExactly is about all heads.
- ExportProofs.VerifyCheckpoints: does not model suite, key and signature checks of a checkpoint, which end the verification when they fail.
- JsonCbor.ConvertsExactly: assumes an encoder that accepts every text key, as the library's encoder does, and does not say which error is returned otherwise.
- CanonicalCbor.CanonicalFormExactly: does not say which error is returned when there is no canonical form.
- EventSet.VerifyEvents: models a payload's decoded fields as one record given by a parameter; field-by-field decoding is left out, a missing payload after a valid signature cannot occur, and the payloads kept for later finalizers other than erasure are not collected.
- Ledger.VerifyLedger: does not run the certificate, user-attestation and correction finalizers, which can only add failures.
- AuthoredEvent.RecoveredExactly: requires that the event does not begin with a text string, for which the source's slice bounds would be reversed; decoding has already established a map.
- Supersession.VerifyExportZip: failures of all other export checks are one parameter, placed before the graph's own failures; only their order differs from the source.
- Certificate, user-attestation and correction finalizers, interop sidecars, open clocks and catalog cross-checks: field comparisons over the same events.
- The text format of the supersession graph and hexadecimal coding: the graph reader is a parameter.
- Record validators, response-proof resolvers and signature adapters: callbacks and verdict gates.
- The universal-phase restatements in chain.rs, bundle.rs, cose.rs and report.rs: easier forms of the event-loop and archive properties.
- Failure messages and report rendering: failures are kinds with a location.
- Command line, fixture discovery, clocks and randomness: input and output.
