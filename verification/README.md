# Verified model of the evidence tooling

The repository's Python tools check, merge, read and compare evidence about protocol runs: Ethereum receipts
under a pinned header, registries of artifacts, submissions of independent runners, token ledgers, and the texts
all of these are written in. This Dafny project models those checks and proves what they are for.

`dafny verify dfyconfig.toml` checks everything. There are no axioms and no assumptions.

## What is modelled

**Receipt inclusion.** `BigEndian`, `Rlp`, `HexPrefix` and `JsonRpcText` are the codecs. `TrieProof` is the proof
walk, once as a function and once as the source's loop; `Trie` has tries as in Appendix D of the Ethereum Yellow Paper
and shows that the walk accepts exactly their honest proofs. `Bloom`, `Receipt` and `Envelope` are log blooms, receipt
encodings and transaction envelopes; `ReceiptFormat` says field by field what the encoded bytes are, and `Signatures`
which sender is recovered from which fields. `Inclusion` is `verify_case`, `CaseChecks` the exact condition of each of
its steps, and `InclusionGuarantees` what its caller can rely on. The main results are `Inclusion.EndToEndBinding` and
`InclusionGuarantees.PinDeterminesOutcome`. Keccak, SHA-256 and public-key recovery are function parameters about
which nothing is assumed; binding results therefore read "equal, or here are two different supplied byte strings with
one hash".

**Registries and graphs.** `CycleAudit` and `AncestorPath` are the two depth-first searches, over walks defined in
`Graphs`. `RegistryClosure`, `MergePlanner` and `RegistryBuilder` select, merge and register artifacts, `PlannedIds`
shows when a plan depends on the order of its entries, and `Registry` holds what they share and the auditor's checks.
The file system is a map from path to content.

**Consensus.** `Mailbox` deduplicates submissions, `Consensus` counts agreement, and `Quorum` shows what agreement
means when some runners are dishonest. `ReadingOrder` shows when it depends on the order in which messages are read.

**Texts.** `EdnReader` and `NotebookEdn` are two independent EDN readers. `EdnLayout` says what each takes for a gap
and for the end of a word, `EdnRoundTrip` proves that each reads back every printed value of `EdnData` from such
layouts, `EdnDisagreement` has the texts on which they differ, and `EdnEdges` the texts outside the printed form.
`CanonicalJson` is the canonical JSON text, `JsonReader` an RFC 8259 reader that recovers every printed value, and
`JsonInjective` the proof that the canonical text is canonical. `AbiCalldata`, `WithdrawCall` and `ClaimIdentity` are
length-framed encodings. `JsonDiffs` holds the structural diffs, and
`DiffPlaces` says exactly which places the leaf-level one reports.

**Ledgers.** `TokenLedger` checks one transaction, `TokenCapture` a run of contiguous one-transaction blocks. What the
chain answers is a parameter.

Python code that updates state in loops is modelled by methods and classes with the same loops and fields, each
proved equal to a specification function or to a stated property; the properties are then lemmas about the
specification. A `raise` is an `Err` whose constructor says which one.

## Where code and documentation differ

- `deduplicate_submissions` documents that an equivocating runner's submissions are excluded; the code keeps the
  latest of them (`scripts/forensic/mailbox.py:353-357`, `:396-398`). The model keeps the latest.
- `scripts/edn.py` reads a subset of EDN, in which commas are whitespace; its reader rejects them, and takes an
  unclosed collection to end with the text. The model does the same.
- In EDN strings `\n`, `\t` and `\r` stand for control characters. Both readers drop the backslash and keep the letter
  (`scripts/edn.py:87-89`, `scripts/notebook_shots_util.py:32-34`), and so does the model. Printed strings escape only
  the quote and the backslash.
- `capture` carries `before_by_account` and `supply_before` through its loop but takes every before snapshot anew
  (`scripts/forensic/pro29_token_accounting.py:249-259`, `:294-295`); they only give the final figures. That
  consecutive snapshots meet follows from the blocks being consecutive, which is what the model proves.

## What turned out not to hold

- `_rlp` is not prefix-free from 2^64 bytes on: `Rlp.LocalRlpAmbiguousAtLimit`, with the exact condition in
  `Rlp.LocalRlpRoundTrip`.
- The planner's logical id of a path depends on entry order exactly when the entries for that path carry two ids:
  `PlannedIds.IdsDependOnOrder` and `PlannedIds.PlannedIdIgnoresOrderExactly`.
- The winner of a field depends on submission order exactly when another value is as frequent, at any threshold:
  `Quorum.TiesDependOnOrder` and `Quorum.WinnerIgnoresOrderExactly`.
- The message kept for a runner depends on reading order exactly when two can be kept: two with the runner's greatest
  timestamp (`ReadingOrder.TiedTimestampsDependOnOrder`), or two that declare one hash, which is never recomputed
  (`scripts/forensic/mailbox.py:420-428`, `ReadingOrder.EqualHashesDependOnOrder`). The exact conditions are
  `ReadingOrder.KeptIgnoresOrderExactly` and `ReadingOrder.DeduplicationIgnoresOrderExactly`.
- The two EDN readers do not agree on every printed text. With a comment directly behind an integer or keyword, as in
  `12;c`, the first reads a longer string (`EdnDisagreement.CommentBehindWord`); with a string directly behind it, as in
  `12"a"`, the second does (`EdnDisagreement.StringBehindWord`). Each reader's exact condition on the next character is
  `EdnRoundTrip.WordIsReadExactly` and `EdnRoundTrip.WordIsTokenExactly`, and where they part
  `EdnDisagreement.WordReadDifferently`.
- `_ancestor_path` marks a node after its parents, so on cyclic input it runs out of stack, and so it does on an
  acyclic chain longer than the recursion limit: `AncestorPath.ListAncestors` and `AncestorPath.ChainNeedsItsLength`.
  Below the number of ids this is one-way: a failure shows a walk longer than the limit, but with such a walk the order
  of visits can still keep the nesting within it.
- A claim's calldata is not fixed by what is read from it: `WithdrawCall.TrailingBytesIgnored`.

## Model

| member | source | states |
|---|---|---|
| `BigEndian.WidthIsMinimal` | scripts/forensic/replay_pro28_local_capture.py:52-55 | `(bit_length + 7) // 8` bytes hold the value and one byte fewer does not, so `to_bytes` neither overflows nor pads |
| `BigEndian.IntBytes` | scripts/forensic/replay_pro28_local_capture.py:52-55 | the bytes have no leading zero and spell the number back |
| `BigEndian.IntBytesOfValue` | scripts/forensic/ethereum_receipt_inclusion.py:70-73 | every byte string `_rlp_int` accepts is the one that `_int_bytes` writes for its value: the other half of the bijection |
| `BigEndian.CanonicalWidth` | scripts/forensic/replay_pro28_local_capture.py:52-55 | a canonical integer has at most k bytes exactly when its value is below 256^k |
| `BigEndian.FromBytesConcat` | scripts/forensic/ethereum_receipt_inclusion.py:70-73 | bytes count by their place, the front ones most: `int.from_bytes(value, "big")` of a concatenation is the front's value times 256 to the number of bytes behind it, plus theirs |
| `Rlp.DecodeEncode` | scripts/forensic/replay_pro28_local_capture.py:58-70 | decoding an encoding followed by anything returns the item and leaves the rest untouched |
| `Rlp.EncodeDecode` | scripts/forensic/ethereum_receipt_inclusion.py:119-124 | whatever strict decoding accepts is the item's one encoding, followed by the rest |
| `Rlp.Canonicity` | scripts/forensic/ethereum_receipt_inclusion.py:119-124 | a byte string decodes to an item if and only if it is that item's encoding, so the re-encoding check never rejects what strict decoding accepts |
| `Rlp.PrefixFree` | scripts/forensic/replay_pro28_local_capture.py:58-70 | two encodings that start one text are encodings of the same item with the same rest |
| `Rlp.EncodeInjective` | scripts/forensic/replay_pro28_local_capture.py:58-70 | different items have different encodings |
| `Rlp.StringForms` | scripts/forensic/replay_pro28_local_capture.py:65-70 | a string is encoded as itself if it is one byte below 0x80, behind 0x80 plus its length up to 55 bytes, behind 0xB7 plus the width of its big-endian length and that length from 56 bytes on, and not at all from 2^64 |
| `Rlp.ListForms` | scripts/forensic/replay_pro28_local_capture.py:59-64 | a list is the concatenation of its items' encodings behind 0xC0 plus its length up to 55 bytes, or behind 0xF7 plus the width of its length and that length |
| `Rlp.LocalRlpIsEncode` | scripts/forensic/replay_pro28_local_capture.py:58-70 | `_rlp` is the Yellow Paper's encoder on every list and every string below 2^64 bytes |
| `Rlp.LocalRlpRoundTrip` | scripts/forensic/replay_pro28_local_capture.py:58-70 | what `_rlp` writes decodes to its argument if and only if the argument is a list or a string below 2^64 bytes |
| `Rlp.LocalRlpAmbiguousAtLimit` | scripts/forensic/replay_pro28_local_capture.py:67-70 | from 2^64 bytes on the encoding of the empty list is a proper prefix of such a string's encoding |
| `HexPrefix.CompactRoundTrip` | scripts/forensic/ethereum_receipt_inclusion.py:80-90 | `_compact_path` reads a path and leaf flag if and only if the bytes are their hex-prefix encoding |
| `HexPrefix.NibblesPrefix` | scripts/forensic/ethereum_receipt_inclusion.py:76-77 | byte strings whose nibbles are prefixes are prefixes themselves |
| `HexPrefix.NibblesAre` | scripts/forensic/ethereum_receipt_inclusion.py:76-77 | nibbles 2i and 2i+1 are the high and the low half of byte i |
| `HexPrefix.CompactBytes` | scripts/forensic/ethereum_receipt_inclusion.py:80-90 | the hex-prefix bytes one by one: leaf flag in bit 5 and parity in bit 4 of the first, a zero or the odd nibble in its low half, then two nibbles of the path each |
| `JsonRpcText.QuantityRoundTrip` | scripts/forensic/ethereum_receipt_inclusion.py:64-67 | every number in its shortest lower-case hexadecimal text is read back by `_quantity` |
| `JsonRpcText.HexBytesRoundTrip` | scripts/forensic/ethereum_receipt_inclusion.py:55-61 | every byte string in lower-case hexadecimal is read back by `_hex_bytes`, with or without its size demanded |
| `JsonRpcText.CaseDoesNotMatter` | scripts/forensic/ethereum_receipt_inclusion.py:37-67 | texts that differ only in the case of hexadecimal digits have one value |
| `TrieProof.VerifyIndexedTrieProof` | scripts/forensic/ethereum_receipt_inclusion.py:93-159 | the loop over `remaining`, `expected_ref`, `cursor` and `steps` computes the recursive walk bounded by 128 nodes, along the key that `TrieProof.IndexKeyDecodes` reads back |
| `TrieProof.IndexKeyDecodes` | scripts/forensic/ethereum_receipt_inclusion.py:98 | the walked key, packed back to bytes, decodes to the canonical big-endian bytes whose value is the index: the key is that of the index and of no other |
| `TrieProof.WalkBinding` | scripts/forensic/ethereum_receipt_inclusion.py:99-159 | two accepted walks from one reference along one path, whatever their node lists, end in one value, or two different nodes hash alike |
| `TrieProof.IndexedProofBinding` | scripts/forensic/ethereum_receipt_inclusion.py:93-159 | one root and one index have one proven value for all accepted proofs, or two different nodes hash alike |
| `TrieProof.IndexKeysPrefixFree` | scripts/forensic/ethereum_receipt_inclusion.py:98 | the trie key of one index is never a prefix of another's |
| `Trie.StepOfHonestNode` | scripts/forensic/ethereum_receipt_inclusion.py:119-157 | reading the encoding of a trie node makes exactly the step that the trie's own structure calls for, success or error |
| `Trie.WalkIsHonest` | scripts/forensic/ethereum_receipt_inclusion.py:99-159 | an accepted walk from an honest node used an honest proof and returned the trie's lookup, or one of its nodes collides with a node on the path |
| `Trie.HonestWalk` | scripts/forensic/ethereum_receipt_inclusion.py:99-159 | an honest proof, with or without the inlined nodes, proves the lookup if the path has at most the allowed number of nodes and is rejected as too deep otherwise |
| `Trie.Soundness` | scripts/forensic/ethereum_receipt_inclusion.py:93-159 | a proof accepted against a well-formed trie's root proves what the trie holds at the index (empty for absent), lies within 128 nodes and is an honest proof, or exhibits a hash collision |
| `Trie.Completeness` | scripts/forensic/ethereum_receipt_inclusion.py:93-159 | every honest proof for an index on a path is accepted with the stored value exactly when the path has at most 128 nodes |
| `Trie.StoredValueHasPath` | scripts/forensic/ethereum_receipt_inclusion.py:93-159 | a stored (non-empty) value lies on such a path, so completeness applies to it |
| `Bloom.OrInPlace` | scripts/forensic/ethereum_receipt_inclusion.py:174 | the in-place update is the specified filter with one more bit |
| `Bloom.AddValue` | scripts/forensic/ethereum_receipt_inclusion.py:170-174 | the innermost loop sets the three bits of one value in the array and nothing else |
| `Bloom.ComputeLogsBloom` | scripts/forensic/ethereum_receipt_inclusion.py:162-175 | the nested loops compute the bloom of the logs' addresses and topics |
| `Bloom.BloomIsExact` | scripts/forensic/ethereum_receipt_inclusion.py:162-175 | a bit is set if and only if some address or topic of the logs sets it |
| `Bloom.LogValuesAre` | scripts/forensic/ethereum_receipt_inclusion.py:164-169 | the hashed values are exactly the addresses and topics that occur |
| `Bloom.BloomIgnoresOrder` | scripts/forensic/ethereum_receipt_inclusion.py:162-175 | logs with the same members have the same bloom, whatever their order or repetition |
| `Bloom.BloomOfConcatenation` | scripts/forensic/ethereum_receipt_inclusion.py:162-175 | the bloom of a concatenation is the bitwise or of the blooms of its parts |
| `Bloom.BloomAsNumber` | scripts/forensic/ethereum_receipt_inclusion.py:162-175 | read as one 2048-bit number, the bloom has bit n if and only if n is the low eleven bits of the first, second or third 16-bit word of the hash of a log's address or topic |
| `Receipt.ParseReceipt` | scripts/forensic/ethereum_receipt_inclusion.py:178-219 | an accepted receipt has a one-byte type, a status bit or a 32-byte root, 20-byte addresses, 32-byte topics, and a bloom that is the bloom of its logs |
| `Receipt.EncodeLogs` | scripts/forensic/ethereum_receipt_inclusion.py:206-216 | the log loop returns the parsed logs and their encodable form, or the first malformed log's error |
| `Receipt.EncodeRpcReceipt` | scripts/forensic/ethereum_receipt_inclusion.py:178-219 | the method computes the encoding and type that `ReceiptFormat.EncodedReceipt` describes, or the first error |
| `Receipt.SerializeInjective` | scripts/forensic/ethereum_receipt_inclusion.py:178-219 | receipts with equal encodings have equal type, status or root, cumulative gas, bloom and logs |
| `ReceiptFormat.EncodedReceipt` | scripts/forensic/ethereum_receipt_inclusion.py:178-219 | a receipt is encoded with a type if and only if its fields read as such, and the bytes are: the type unless it is 0, then the RLP list of empty string, byte 1 or the 32 root bytes, the canonical cumulative gas, the bloom, and for each log in order the list of address, list of topics, and data; the bloom is that of the logs |
| `Envelope.RlpInt` | scripts/forensic/ethereum_receipt_inclusion.py:70-73 | an accepted integer re-encodes to the bytes it was read from |
| `Envelope.FieldsRoundTrip` | scripts/forensic/ethereum_receipt_inclusion.py:241-264 | the twelve encoded fields are read back, unchanged, if and only if the transaction meets the numeric and width limits |
| `Envelope.FieldsCanonical` | scripts/forensic/ethereum_receipt_inclusion.py:241-264 | twelve fields that were accepted are the encoding of what was read |
| `Envelope.EnvelopeRoundTrip` | scripts/forensic/replay_pro28_local_capture.py:80-98 | a built envelope is parsed if and only if the limits hold, then as type 2 with the same twelve fields, and the signing payload is 0x02 followed by the encoding of exactly the first nine |
| `Envelope.EnvelopeCanonical` | scripts/forensic/ethereum_receipt_inclusion.py:222-265 | conversely, bytes parsed as type 2 meet the limits and are exactly what the builder makes of the parsed fields |
| `Signatures.EnvelopeFields` | scripts/forensic/replay_pro28_local_capture.py:80-98 | a built envelope is 0x02 and a list of twelve: chain id, nonce, priority fee, maximum fee, gas, destination, value, input, access list, parity, r and s, in this order, integers canonical |
| `Signatures.SenderOfEnvelope` | scripts/forensic/ethereum_receipt_inclusion.py:240-291 | from a built envelope a sender is recovered if and only if the limits hold, the chain id is the expected one, parity and signature are in range with s in the lower half, and recovery of the hash of 0x02 and the nine signed fields with (parity, r, s) gives that sender |
| `Signatures.SenderOfLegacy` | scripts/forensic/ethereum_receipt_inclusion.py:266-291 | from a legacy transaction a sender is recovered if and only if its nine fields have the legacy form, v is 35 + 2 * chain id + parity, the signature is in range, and recovery of the hash of the first six fields, the chain id and two empty strings with (parity, r, s) gives that sender |
| `Signatures.RecoveredFrom` | scripts/forensic/ethereum_receipt_inclusion.py:222-291 | every transaction that yields a sender is one the builder makes, of type 2, or the encoding of a list, of type 0, so one of the two rows above applies to it |
| `Inclusion.HeaderIsExact` | scripts/forensic/ethereum_receipt_inclusion.py:294-317 | bytes are accepted as a header, with a given number, parent and roots, if and only if they are the encoding of at least fifteen fields with the fixed widths, integers without leading zeros and gas used within the limit that hold those values; the identity is the hash of the bytes |
| `Inclusion.FindHeader` | scripts/forensic/ethereum_receipt_inclusion.py:354-374 | the ancestry loop computes the climb from the block header to the anchor, with the first error in the source's order |
| `Inclusion.VerifyCase` | scripts/forensic/ethereum_receipt_inclusion.py:320-448 | the method returns the verdict that `InclusionGuarantees.VerdictIsExact` describes, or the first error |
| `Inclusion.ClimbHeight` | scripts/forensic/ethereum_receipt_inclusion.py:361-374 | climbing n ancestry headers raises the height by exactly n |
| `Inclusion.ClimbBinding` | scripts/forensic/ethereum_receipt_inclusion.py:361-374 | two climbs of one length to one header hash start from one header hash, or two of their headers collide |
| `Inclusion.AcceptedFacts` | scripts/forensic/ethereum_receipt_inclusion.py:320-417 | acceptance means: the header decodes and climbs to the anchor, both proofs prove the supplied bytes under the header's roots, the sender is recovered from them, and the receipt encodes to the proven bytes with the transaction's type |
| `Inclusion.AnchorHeight` | scripts/forensic/ethereum_receipt_inclusion.py:361-374 | the anchor's number is the block's number plus the number of ancestry headers |
| `Inclusion.HeaderBinding` | scripts/forensic/ethereum_receipt_inclusion.py:354-374 | two accepted cases under one anchor with one block number have one header, or two supplied byte strings collide |
| `Inclusion.ProofBinding` | scripts/forensic/ethereum_receipt_inclusion.py:412-417 | under one header, two accepted cases with one index have the same transaction and receipt bytes, or two supplied nodes collide |
| `Inclusion.EndToEndBinding` | scripts/forensic/ethereum_receipt_inclusion.py:320-448 | anchor hash and number, block number and transaction index determine the whole verdict (header, transaction bytes, type, sender, receipt bytes) and the receipt's status, gas, bloom and logs, or two different supplied headers or nodes hash alike |
| `Inclusion.ReceiptIsInTrie` | scripts/forensic/ethereum_receipt_inclusion.py:415-417 | if the header commits to a trie, the accepted receipt is what that trie holds at the index, or a node collides |
| `InclusionGuarantees.TrustIsPinnedAndTimely` | scripts/forensic/ethereum_receipt_inclusion.py:328-351 | an accepted context hashes to the pin, is in force at the given time and claims no finality |
| `InclusionGuarantees.PinDeterminesOutcome` | scripts/forensic/ethereum_receipt_inclusion.py:320-448 | one pin, block number and index have one outcome for all contexts, proofs and times, or there is a SHA-256 collision of two contexts or a keccak collision of two supplied byte strings |
| `InclusionGuarantees.ReferencesAreChecked` | scripts/forensic/ethereum_receipt_inclusion.py:376-397 | the accepted receipt names the transaction's hash, its index, and the block's hash and number, and the recovered sender is the expected one |
| `InclusionGuarantees.VerdictIsExact` | scripts/forensic/ethereum_receipt_inclusion.py:320-448 | a verdict is given if and only if context, header chain, transaction, receipt and references are consistent with every field of it, in the sense of the exact conditions below, and both proofs prove its bytes under the header's roots |
| `CaseChecks.TrustIsExact` | scripts/forensic/ethereum_receipt_inclusion.py:328-353 | an anchor is accepted if and only if the context has at most 64 KiB, hashes to the pin, names one of the two chain families and non-empty sources, is in force at the given time, claims no finality, and states the anchor's 32-byte hash, number and positive chain id |
| `CaseChecks.HeaderFieldsAre` | scripts/forensic/ethereum_receipt_inclusion.py:294-317 | bytes are the header with this hash, number, parent and roots if and only if the hash is theirs and they encode at least fifteen strings of which field 0 is the parent, 4 and 5 the roots, 8 the number, with the fixed widths, canonical integers and gas used within the limit |
| `CaseChecks.ClimbIsExact` | scripts/forensic/ethereum_receipt_inclusion.py:361-374 | the climb succeeds if and only if the headers are linked by parent hash and number, one by one, and have at most 8 MiB together |
| `CaseChecks.HeaderIsConnected` | scripts/forensic/ethereum_receipt_inclusion.py:354-374 | a block header is accepted if and only if it has at most 64 KiB and at most 8192 linked headers lead from it to the anchor's hash and number |
| `CaseChecks.TransactionIsSigned` | scripts/forensic/ethereum_receipt_inclusion.py:376-386 | a transaction is accepted if and only if its index is not negative, it has at most 128 KiB, and its recovered sender is the expected one |
| `CaseChecks.ReferencesAreExact` | scripts/forensic/ethereum_receipt_inclusion.py:388-397 | the receipt's references are accepted if and only if it names the transaction's hash, its index, and the block's hash and number |
| `CaseChecks.ProofsAreExact` | scripts/forensic/ethereum_receipt_inclusion.py:401-411 | two proofs are accepted if and only if they are lists of at most 128 hexadecimal nodes each, with at most 4 MiB together |
| `InclusionGuarantees.AcceptanceIsExact` | scripts/forensic/ethereum_receipt_inclusion.py:320-448 | for a header that commits to two tries: a consistent case with honest proofs gets exactly that verdict, and a case that gets it is consistent and its proofs are honest ones of what the tries hold, or one of its nodes collides with a node of a trie |
| `CycleAudit.BuildDependencies` | scripts/evidence/audit_artifacts.py:181-184 | the loop builds the dict in which a later artifact replaces an earlier one with its id, and its insertion order |
| `CycleAudit.LastEntryCounts` | scripts/evidence/audit_artifacts.py:181-184 | an id has these dependencies if and only if the last artifact with the id has them |
| `CycleAudit.KeysByFirstEntry` | scripts/evidence/audit_artifacts.py:181-184 | the search starts from every id once, in the order of first occurrence |
| `CycleAudit.StackCycle` | scripts/evidence/audit_artifacts.py:195-197 | the stack from a GRAY node on, closed with that node, is a closed walk |
| `CycleAudit.CycleFinder.ReportCycle` | scripts/evidence/audit_artifacts.py:195-197 | exactly the closed walk from the GRAY node is appended |
| `CycleAudit.CycleFinder.Dfs` | scripts/evidence/audit_artifacts.py:189-201 | the search keeps GRAY = on the stack, BLACK = finished, reported lists closed walks, and finished nodes successors-first but for edges that close a reported cycle; it restores the stack and finishes the node, and exceeds the recursion limit only along a walk of more different nodes |
| `CycleAudit.OrderedMeansAcyclic` | scripts/evidence/audit_artifacts.py:189-206 | a successors-first listing of all nodes rules out every cycle |
| `CycleAudit.FindCycles` | scripts/evidence/audit_artifacts.py:179-206 | every reported list is a closed walk between registered ids, without the edges that close them no cycle is left, and the list is empty if and only if the graph is acyclic; the recursion limit is exceeded only on a walk of more different ids than the limit |
| `CycleAudit.EveryCycleIsCut` | scripts/evidence/audit_artifacts.py:189-206 | every closed walk in the graph uses an edge that closes a reported cycle, so none goes unnoticed |
| `AncestorPath.Visitor.Visit` | scripts/forensic/mechanism_persistence.py:120-126 | a visit that returns lists the node and only nodes it reaches, parents first; one that exceeds the recursion limit has followed a walk longer than the limit |
| `AncestorPath.ListAncestors` | scripts/forensic/mechanism_persistence.py:116-130 | it returns if and only if the nested visits fit the recursion limit, and then exactly the non-empty hashes and their ancestors, each once, every parent before its children; with a limit of at least the number of ids that is if and only if no cycle is within reach, and any failure shows a walk longer than the limit |
| `AncestorPath.ChainNeedsItsLength` | scripts/forensic/mechanism_persistence.py:120-126 | a visit to the head of an acyclic chain returns if and only if the recursion limit is at least the number of its nodes |
| `AncestorPath.ListingMeansNoCycle` | scripts/forensic/mechanism_persistence.py:116-130 | such a list exists only if no cycle is within reach, so on cyclic input there is nothing the source could return |
| `AncestorPath.LongWalkHasCycle` | scripts/forensic/mechanism_persistence.py:120-126 | a walk with more nodes than there are ids runs into a cycle, so running out of stack means cyclic input |
| `Registry.LinkDependencies` | scripts/evidence/write_scenario_run_manifest.py:260-267 | each entry records exactly its registered inputs with the registered hash; the registry passes the unique-id and dangling-reference checks |
| `Registry.ReferencesAre` | scripts/evidence/write_scenario_run_manifest.py:262-265 | inputs are recorded one by one and in order, repetitions included: the recorded form of a list is that of its front followed by that of its rest |
| `Registry.OneReference` | scripts/evidence/write_scenario_run_manifest.py:262-265 | one input is recorded with the registered hash if it is registered, and passed over otherwise |
| `Registry.LinkedIsClosed` | scripts/evidence/audit_artifacts.py:297-340 | a registry linked from drafts with distinct ids has no duplicate id, no dangling reference, and records only hashes that are registered under the id |
| `RegistryClosure.SelectRoots` | scripts/evidence/write_scenario_run_manifest.py:239-242 | the loop selects the artifacts at or above the importance level, in order |
| `RegistryClosure.RootsAre` | scripts/evidence/write_scenario_run_manifest.py:239-242 | each artifact is selected or not by its own level, whatever stands before and behind it; order and repetitions are kept |
| `RegistryClosure.FoundIsFirst` | scripts/evidence/write_scenario_run_manifest.py:251 | an artifact is found for an id if and only if it is the first that has the id |
| `RegistryClosure.RegisterRoots` | scripts/evidence/write_scenario_run_manifest.py:244 | the dict holds exactly the roots' ids, each with the last root of that id, in the order of first occurrence |
| `RegistryClosure.RegisterInputs` | scripts/evidence/write_scenario_run_manifest.py:249-256 | one pass of the worklist registers the popped artifact's available inputs and keeps: everything reached belongs to every closed set, and everything active is on the worklist or has its inputs registered |
| `RegistryClosure.Resolve` | scripts/evidence/write_scenario_run_manifest.py:244-256 | the worklist terminates with the least set of ids that contains the roots and is closed under available inputs |
| `RegistryClosure.WriteRegistry` | scripts/evidence/write_scenario_run_manifest.py:235-267 | the registry holds exactly that least closure, the selected ids first; each entry is that of the last selected artifact with its id, or else of the first artifact with it, and records exactly its available inputs; there are no duplicate ids, no dangling reference and only registered hashes |
| `MergePlanner.MergeEntry` | scripts/evidence/consolidate_test_artifacts.py:362-401 | one more entry keeps: the paths seen, no conflict if and only if entries for one path agree on content, then first id, least source and hash per path, and otherwise one conflict, with both ids, hashes and sources, for exactly the entries whose content differs from the record of their path |
| `MergePlanner.CollectByPath` | scripts/evidence/consolidate_test_artifacts.py:362-401 | the first pass raises exactly for an unreadable or misdeclared source, with the first one's error |
| `MergePlanner.PlanActions` | scripts/evidence/consolidate_test_artifacts.py:403-424 | the second pass links absent destinations, reuses equal ones, and reports exactly the paths whose destination differs, in order, with the file on the left and the record on the right |
| `MergePlanner.ResolveMergeActions` | scripts/evidence/consolidate_test_artifacts.py:351-425 | planning raises if and only if some entry is bad, for the first one and as unreadable or misdeclared; is free of conflicts if and only if entries for one path agree and existing destinations fit, and then is the plan: one action per path in path order with first id, least source, hash and kind; otherwise the conflicts are the clashing entries in reading order and the differing destinations in path order, each with its ids, hashes and sources |
| `MergePlanner.PlanIgnoresOrder` | scripts/evidence/consolidate_test_artifacts.py:351-425 | raising, conflicting, and each path's hash, source and action are the same for every order of the same entries |
| `MergePlanner.PlanIsUnique` | scripts/evidence/consolidate_test_artifacts.py:351-425 | one list of entries has one plan |
| `PlannedIds.IdsIgnoreOrder` | scripts/evidence/consolidate_test_artifacts.py:375-401 | the logical id of a path is independent of order when the entries for that path carry one id, whatever other paths carry |
| `PlannedIds.IdsDependOnOrder` | scripts/evidence/consolidate_test_artifacts.py:351-425 | with two ids on a path, the plans of two orders of the same entries give that path the two ids |
| `PlannedIds.PlannedIdIgnoresOrderExactly` | scripts/evidence/consolidate_test_artifacts.py:351-425 | all orders of the entries plan one id for a path if and only if the entries for that path carry one id |
| `MergePlanner.RunRoot.Apply` | scripts/evidence/consolidate_test_artifacts.py:436-439 | applying changes the file system to the one specified |
| `MergePlanner.ApplyMerges` | scripts/evidence/consolidate_test_artifacts.py:436-439 | applying a plan without conflicts changes no existing file, creates only planned destinations, and leaves every entry's path with content of that entry's hash |
| `MergePlanner.ReplanOnlyReuses` | scripts/evidence/consolidate_test_artifacts.py:351-439 | planning again after applying raises nothing, conflicts with nothing and only reuses |
| `RegistryBuilder.LogicalIdEntries` | scripts/evidence/consolidate_test_artifacts.py:445-464 | it raises if and only if one id has two contents, naming the id of the first action that contradicts an earlier one; otherwise each id is given its action with the least path |
| `RegistryBuilder.BuildRegistry` | scripts/evidence/consolidate_test_artifacts.py:467-528 | building succeeds if and only if no id has two contents and every id's action has its merged file and a declaration; the registry then has one entry per id in id order, made of the id's least-path action, recording exactly its registered inputs, with no duplicate id, dangling reference or path with two ids; otherwise the error is that of the first contradiction or of the least id that fails |
| `RegistryBuilder.NoPathCollision` | scripts/evidence/audit_artifacts.py:304-315 | no two ids of a built registry share a path |
| `RegistryBuilder.RegistryMatchesPlan` | scripts/evidence/consolidate_test_artifacts.py:436-528 | after a plan was applied, every registry entry has id, path and hash of the planned action that comes first for its id, and the hash is that of a collected entry for the path |
| `RegistryBuilder.AppliedPlanBuilds` | scripts/evidence/consolidate_test_artifacts.py:436-528 | after a plan was applied no merged file is missing, so an action fails to register if and only if its id is undeclared |
| `RegistryBuilder.Consolidate` | scripts/evidence/consolidate_test_artifacts.py:633-663 | from collected entries to registry: planning errors and conflicts occur exactly under the planner's conditions and leave the files unchanged; otherwise the files are the applied plan, whether or not registration succeeds; conflicts are reported as the planner describes them; registration fails if and only if the plan gives one id two contents or an action that comes first for its id is undeclared, with the first contradiction or the least undeclared id as error; and a registry holds the collected contents |
| `Mailbox.GroupByRunner` | scripts/forensic/mailbox.py:360-372 | messages are grouped by well-named runner in order of first appearance, and each other message leaves a warning |
| `Mailbox.UniqueByHash` | scripts/forensic/mailbox.py:376-383 | one message per hash is kept, the first |
| `Mailbox.KeepOne` | scripts/forensic/mailbox.py:376-400 | of a runner's messages with different hashes the latest is kept, the first read among equal timestamps |
| `Mailbox.DeduplicateSubmissions` | scripts/forensic/mailbox.py:350-417 | one submission per well-named runner, and a warning for every malformed id and every equivocating runner |
| `Mailbox.LatestIsGreatest` | scripts/forensic/mailbox.py:396-398 | no message of the runner has a greater timestamp than the one kept |
| `Mailbox.NoneIsLater` | scripts/forensic/mailbox.py:396-398 | the kept timestamp does not precede, at the first differing character or as a proper prefix, that of any other message of the runner |
| `Mailbox.LatestIsFirst` | scripts/forensic/mailbox.py:396-398 | the kept message stands where all messages before it have, in the same sense, earlier timestamps: of equal greatest ones it is the first |
| `Mailbox.UniqueAreFirsts` | scripts/forensic/mailbox.py:376-383 | the unique messages are those whose hash no message before them has, in the order of the list |
| `Mailbox.RunnersAreFirsts` | scripts/forensic/mailbox.py:360-375 | runners come in the order of their first well-named messages |
| `Mailbox.EquivocationWarningsAre` | scripts/forensic/mailbox.py:384-395 | a runner is warned of as equivocating if and only if its messages have more than one hash, with the numbers of its messages and of its hashes |
| `Mailbox.WellNamedMeans` | scripts/forensic/mailbox.py:365 | a runner id is usable if and only if it is there and has a character that is not blank |
| `Mailbox.MalformedWarningsAre` | scripts/forensic/mailbox.py:363-371 | a message is warned of as malformed, by its hash, if and only if it has no usable runner id |
| `Ids.LessTextMeans` | scripts/forensic/mailbox.py:397 | one text is less than another if and only if up to some position they are equal and there it ends or has the lesser character: Python's order of strings |
| `Mailbox.EquivocationIsDetected` | scripts/forensic/mailbox.py:376-395 | an equivocation warning is given if and only if the runner posted two different hashes |
| `Consensus.CountValues` | scripts/forensic/consensus.py:207 | the counter holds each value's number of occurrences, in order of first occurrence |
| `Consensus.MostCommon` | scripts/forensic/consensus.py:208 | the winner is the most frequent value, the earliest of several |
| `Consensus.AgreeOn` | scripts/forensic/consensus.py:199-221 | the result for one field: winner, count, and confirmed if and only if the count reaches the threshold |
| `Consensus.ComputeAgreement` | scripts/forensic/consensus.py:179-222 | one such result for every field that occurs, in field order, with the number of occurrences of every value; none without submissions |
| `Consensus.ValuesConcat` | scripts/forensic/consensus.py:199-204 | a field's values come from the submissions that have it, one each, in the order of the submissions |
| `Consensus.DefaultThresholdIs` | scripts/forensic/consensus.py:187-189 | the default threshold is the least number that is at least 2 and leaves out at most one submission |
| `Consensus.VerdictMeans` | scripts/forensic/consensus.py:225-238 | inconclusive exactly without fields, diverged exactly if some field diverged, and otherwise confirmed with or without failures exactly as some exit code is not zero or none |
| `Consensus.AgreedHashExists` | scripts/forensic/consensus.py:241-246 | there is an agreed hash if and only if the overview field is confirmed |
| `Quorum.CountIsReporters` | scripts/forensic/consensus.py:198-208 | after deduplication a value's count is the number of runners that report it |
| `Quorum.NoFalseQuorum` | scripts/forensic/consensus.py:198-212 | if honest runners report one value and fewer than threshold runners are dishonest, no other value is confirmed, whatever is posted |
| `Quorum.HonestQuorum` | scripts/forensic/consensus.py:198-212 | with at least threshold honest voters and fewer dishonest runners, the honest value is always confirmed |
| `Quorum.DefaultThresholdIsMajority` | scripts/forensic/consensus.py:187-189 | the default threshold exceeds half the submissions, for every number of them |
| `Quorum.AgreementIgnoresOrder` | scripts/forensic/consensus.py:198-212 | above half, count and status of a field, and the winner if confirmed, do not depend on the order of submissions |
| `Quorum.TiesDependOnOrder` | scripts/forensic/consensus.py:207-208 | each of several most frequent values wins for some order of the same submissions |
| `Quorum.WinnerIgnoresOrderExactly` | scripts/forensic/consensus.py:207-208 | a winner wins in every order of the submissions if and only if no other value occurs as often, whatever the threshold |
| `Quorum.CountsIgnoreOrder` | scripts/forensic/consensus.py:207 | the counts of all values of a field are the same in every order |
| `ReadingOrder.KeptInSomeOrder` | scripts/forensic/mailbox.py:376-400 | a runner's message is kept in some reading order if and only if each of the runner's other hashes occurs with a message that is not later |
| `ReadingOrder.KeptIgnoresOrderExactly` | scripts/forensic/mailbox.py:376-400 | the message kept for a runner is the same in every reading order if and only if only one can be kept in this sense |
| `ReadingOrder.DecidedByTimestamps` | scripts/forensic/mailbox.py:376-400 | where equal declared hashes mean equal messages, that is the case if and only if the runner's greatest timestamp belongs to one message |
| `ReadingOrder.TiedTimestampsDependOnOrder` | scripts/forensic/mailbox.py:396-398 | in every list of messages, two different ones of a runner with its greatest timestamp are both kept, in different orders |
| `ReadingOrder.EqualHashesDependOnOrder` | scripts/forensic/mailbox.py:376-383 | a message that declares the hash of one that can be kept and is no earlier can be kept too, so two different messages with one declared hash make the order decide |
| `ReadingOrder.EqualHashOfTwo` | scripts/forensic/mailbox.py:378-383 | of two messages of a runner with one declared hash the one read first is kept, whatever their timestamps |
| `ReadingOrder.DeduplicationIgnoresOrder` | scripts/forensic/mailbox.py:350-417 | lists of the same messages lead to the same submissions when the messages that can be kept for a runner agree on the summary |
| `ReadingOrder.DeduplicationIgnoresOrderExactly` | scripts/forensic/mailbox.py:350-417 | and only then do all reading orders lead to the same submissions |
| `ReadingOrder.ConsensusIgnoresOrder` | scripts/forensic/consensus.py:179-222 | from mailbox to agreement: under that condition and the default threshold, counts, status and every confirmed winner do not depend on the reading order |
| `Consensus.AgreedHashIsConfirmed` | scripts/forensic/consensus.py:241-246 | the agreed hash is the winner of a confirmed overview field |
| `Quorum.RoundIsHonest` | scripts/forensic/consensus.py:179-246 | over a whole round with fewer than threshold dishonest runners, the agreed hash and every field of a confirmed verdict are what the honest runners report |
| `Decimals.ReadDecimal` | scripts/edn.py:109-112 | the integer that is read from a printed integer is that integer |
| `Decimals.Unsigned` | scripts/edn.py:109-112 | digits are the number they spell, with an optional plus or minus sign |
| `Decimals.Underscores` | scripts/edn.py:109-112 | an underscore between digits is read over; two in a row, or one at either end, make the text no integer |
| `Whitespace.SpacesAre` | scripts/edn.py:33 | the 29 characters for which `str.isspace` holds |
| `EdnReader.Reader.SkipBlank` | scripts/edn.py:29-39 | the position moves past exactly the whitespace and comments |
| `EdnReader.Reader.StringLiteral` | scripts/edn.py:83-94 | the moving position reads the specified string, escapes included |
| `EdnReader.Reader.Value` | scripts/edn.py:41-112 | the recursive descent over the position reads the specified value and stops where it ends; every value takes at least one character, which gives termination |
| `EdnReader.ParseEdn` | scripts/edn.py:115-117 | the first value of the text, or the specified error |
| `NotebookEdn.TokenizeText` | scripts/notebook_shots_util.py:16-49 | the index loop produces the specified tokens |
| `NotebookEdn.ParseEdn` | scripts/notebook_shots_util.py:121-129 | tokenizing, parsing and the trailing-input check give the specified result |
| `EdnRoundTrip.WordIsReadExactly` | scripts/edn.py:96-112 | the first reader reads an integer or keyword and stops behind it if and only if the text ends there or the next character is outside its token class; a comment sign is inside that class |
| `EdnRoundTrip.ReadPrinted` | scripts/edn.py:41-112 | the first reader reads back every printable value, and leaves exactly what follows, from every layout with its whitespace and comments as gaps in which each integer and keyword ends in this sense |
| `EdnRoundTrip.WordIsTokenExactly` | scripts/notebook_shots_util.py:44-48 | the second reader's first token is an integer or keyword alone if and only if the text ends there or the next character is outside its run class; a double quote is inside that class |
| `EdnRoundTrip.TokenizeLayout` | scripts/notebook_shots_util.py:16-49 | for a layout with its separators, commas included, and comments as gaps: the tokenizer recovers exactly the tokens, and then those of what follows, if and only if each integer and keyword ends in this sense |
| `EdnRoundTrip.NoTokensExactly` | scripts/notebook_shots_util.py:16-28 | a text has no tokens if and only if it is separators and comments, the last comment with or without newline |
| `EdnRoundTrip.ParsePrinted` | scripts/notebook_shots_util.py:61-118 | the parser reads back the value from its tokens, whatever follows |
| `EdnRoundTrip.ParseLayout` | scripts/notebook_shots_util.py:121-129 | from every such layout the second reader reads back the value if only separators and comments follow, and reports trailing input otherwise |
| `EdnRoundTrip.BothReadersRecover` | scripts/edn.py:115-117 | every nested value of maps, vectors, keywords, strings and integers is recovered by both readers, which therefore agree, from every layout whose gaps are gaps and whose words end for both |
| `EdnDisagreement.WordReadDifferently` | scripts/edn.py:21 | behind an integer or keyword, one reader reads the word alone and the other does not if and only if the next character is a semicolon, a double quote, a hash sign or whitespace other than blank, tab, carriage return and newline |
| `EdnDisagreement.CommentBehindWord` | scripts/edn.py:96-112 | for every integer or keyword with a comment directly behind it, the second reader returns the word and the first a longer string that takes in the comment's first characters |
| `EdnDisagreement.StringBehindWord` | scripts/notebook_shots_util.py:44-48 | for every integer or keyword with a string directly behind it, the first reader returns the word and leaves the string, and the second never returns the word |
| `EdnEdges.SymbolIsRead` | scripts/edn.py:104-112 | any other token is an integer if Python reads one in it, and else itself |
| `EdnEdges.SetIsRead` | scripts/edn.py:70-81 | a set literal of printed scalars is read as the set of what they stand for, and what follows is left |
| `EdnEdges.UnclosedVector` | scripts/edn.py:60-68 | a vector that the text does not close is read as the items up to the end of the text |
| `EdnEdges.UnclosedMap` | scripts/edn.py:48-58 | a map likewise as its pairs |
| `EdnEdges.UnclosedSet` | scripts/edn.py:70-81 | a set likewise as its members |
| `EdnEdges.ReadErrors` | scripts/edn.py:44-106 | closing brackets, parentheses and commas, a hash without brace, a colon without token, a quote without closing quote and blank texts are the errors of the first reader that the source raises for them |
| `EdnEdges.CollectionAsKey` | scripts/edn.py:56-58 | a vector as a map key is an error of the first reader |
| `EdnEdges.AtomsAre` | scripts/notebook_shots_util.py:104-118 | exactly which texts the second reader takes for nil, which for true and false, which for which integer, which for floats, and which for strings |
| `EdnEdges.ParenthesesAreRead` | scripts/notebook_shots_util.py:69-89 | a list in parentheses is read as one in brackets |
| `EdnEdges.UnclosedIsError` | scripts/notebook_shots_util.py:80-102 | lists, vectors and maps that are not closed are errors of the second reader |
| `EdnEdges.CollectionAsKeyParsed` | scripts/notebook_shots_util.py:100-102 | and so is a vector as a map key |
| `EdnEdges.UnterminatedIsRead` | scripts/notebook_shots_util.py:29-42 | a string without closing quote goes on to the end of the text and is no error of the second reader |
| `EdnEdges.BlankIsNil` | scripts/notebook_shots_util.py:121-125 | a text without tokens is read as nil |
| `CanonicalJson.ArrangedAscends` | scripts/bundle_verify.py:55 | sorting distinct keys gives them in strictly ascending order |
| `CanonicalJson.SortKeysIdempotent` | scripts/bundle_verify.py:53-60 | sorting keys again changes nothing, so `sort_keys=True` after `sort_key` is redundant |
| `CanonicalJson.EncodersAgree` | scripts/differential_fuzz.py:29-36 | the fuzzer's encoder prints the same text as the verifier's for every value |
| `JsonReader.StringRead` | scripts/bundle_verify.py:60 | a reader of RFC 8259 strings recovers every string from its ASCII spelling, escapes and surrogate pairs included, whatever follows the closing quote |
| `JsonReader.ValueRead` | scripts/bundle_verify.py:60 | a reader of RFC 8259 texts recovers every value from the text printed for it and leaves exactly what follows, unless that starts with a digit |
| `JsonReader.DumpsRead` | scripts/bundle_verify.py:60 | the whole printed text is read as the value |
| `JsonInjective.CanonicalRead` | scripts/bundle_verify.py:49-60 | a canonical text is read as the value it was made for, with its keys sorted, which equals the value |
| `JsonInjective.SpellingsReadable` | scripts/bundle_verify.py:60 | an escaped string can be told from what follows its closing quote: ASCII escapes, letters and surrogate pairs are uniquely readable |
| `JsonInjective.ValuesReadable` | scripts/bundle_verify.py:60 | a printed value can be told from what follows it, so equal texts print equal values |
| `JsonInjective.SameWhenSorted` | scripts/bundle_verify.py:53-58 | two values are equal up to key order if and only if sorting their keys makes them identical |
| `JsonInjective.CanonicalDecidesEquality` | scripts/bundle_verify.py:49-60 | two values have the same canonical text if and only if they are equal, whatever the order of their keys |
| `TokenLedger.Post` | scripts/forensic/pro29_token_accounting.py:145-159 | one event moves its amount from source to recipient and mints or burns, or is rejected for a negative amount or an unobserved party, in that order |
| `TokenLedger.ValidateTransactionDeltas` | scripts/forensic/pro29_token_accounting.py:131-170 | the loop over the expected deltas returns that verdict, with the source's order of errors |
| `TokenLedger.NetTotalIsSupply` | scripts/forensic/pro29_token_accounting.py:142-159 | over all accounts the events' net effects add up to mints less burns, self-transfers included |
| `TokenLedger.Conservation` | scripts/forensic/pro29_token_accounting.py:131-170 | of every accepted transaction the sum of balance changes equals the supply change |
| `TokenLedger.NetIs` | scripts/forensic/pro29_token_accounting.py:142-159 | an account's net effect is what it received less what it sent; the supply's is what the zero address sent less what it received |
| `TokenLedger.AcceptedChanges` | scripts/forensic/pro29_token_accounting.py:160-170 | of an accepted transaction every observed balance grew by exactly what the account received less what it sent, and the supply by what was minted less what was burned |
| `TokenLedger.AcceptedExactly` | scripts/forensic/pro29_token_accounting.py:139-170 | a transaction is accepted if and only if both snapshots cover the same accounts with non-negative balances, every event has a non-negative amount and observed parties, every balance moved by what the account received less what it sent, and the supply by mints less burns |
| `TokenCapture.Prepare` | scripts/forensic/pro29_token_accounting.py:190-216 | the comparisons of the block list with its set and with a range succeed if and only if no two transactions share a block and every block between two observed ones is observed; preparation then requires each block to hold just its transaction, equal log rows and exactly one mint, and raises the first of these that fails, for the first block that fails |
| `TokenCapture.DistinctByCount` | scripts/forensic/pro29_token_accounting.py:190-192 | a list is as long as its set is large if and only if nothing occurs in it twice |
| `TokenCapture.ObservedByRange` | scripts/forensic/pro29_token_accounting.py:193-195 | the set of blocks is the range from least to greatest if and only if no block between two observed ones is missing |
| `TokenCapture.MintsAre` | scripts/forensic/pro29_token_accounting.py:212-213 | the rows that count as mints are those from the zero address to another, each as often as it occurs |
| `TokenCapture.RowsAre` | scripts/forensic/pro29_token_accounting.py:230-232 | the rows of some transactions are those that name one of them, each as often as it occurs |
| `TokenCapture.AccountsAre` | scripts/forensic/pro29_token_accounting.py:218-226 | observed are the manifest's accounts and every party of a row but the zero address |
| `TokenCapture.SnapshotIs` | scripts/forensic/pro29_token_accounting.py:249-268 | a snapshot is taken if and only if it holds the chain's answers for exactly the observed accounts, or zeros where the token has no code |
| `TokenCapture.TxAcceptedExactly` | scripts/forensic/pro29_token_accounting.py:241-276 | a transaction of a run is accepted if and only if the token has code at its block exactly from the deployment block on, and the chain's answers for the block before and its own reconcile with the rows of the transaction |
| `TokenCapture.RunAcceptedExactly` | scripts/forensic/pro29_token_accounting.py:187-276 | a run is accepted if and only if it has transactions, one in each of a range of blocks without gap, each alone in its block at index 0 by the chain's answer, equal rows from receipts and chain, exactly one row that mints, the token's code exactly from that row's block on, and snapshots that reconcile for every transaction |
| `TokenCapture.Observe` | scripts/forensic/pro29_token_accounting.py:235-293 | one transaction is observed if and only if code presence fits the deployment block, both snapshots can be taken, and its events explain the change; otherwise the error is that of the first of these |
| `TokenCapture.Capture` | scripts/forensic/pro29_token_accounting.py:178-295 | capture succeeds if and only if the run is prepared and every transaction is accepted, and returns the observation of each and the last snapshot as final balances and supply; otherwise the error is the preparation's or that of the first transaction that is refused |
| `TokenCapture.BlocksAreConsecutive` | scripts/forensic/pro29_token_accounting.py:190-195 | distinct, gap-free, ordered blocks are consecutive, so one transaction's after is the next one's before |
| `TokenCapture.RunIsExplained` | scripts/forensic/pro29_token_accounting.py:234-295 | over an accepted run the final balances and supply are the first before snapshot plus the fold of all Transfer events, and the sum of balances moves with the supply |
| `TokenCapture.ReportIsExplained` | scripts/forensic/pro29_token_accounting.py:178-329 | the reported final balances and supply are the first before snapshot plus all Transfer events, and the sum of reported balances moved with the reported supply |
| `TokenCapture.AllTokensAccountedFor` | scripts/forensic/pro29_token_accounting.py:234-295 | a run that starts before the token exists ends with observed balances that add up to the supply, which is mints less burns |
| `AbiCalldata.Word` | scripts/forensic/pro28_receipts.py:254-257 | a word is made exactly for uint256 values, and reads back to the value |
| `AbiCalldata.Dynamic` | scripts/forensic/pro28_receipts.py:260-262 | the encoding exists if and only if the length fits a word, and is a word that spells the length, the bytes, and zeros up to a whole word |
| `AbiCalldata.CalldataExists` | scripts/forensic/pro28_receipts.py:265-281 | calldata is made if and only if the key has 32 bytes and the lengths and offsets fit a word |
| `AbiCalldata.CalldataRoundTrip` | scripts/forensic/pro28_receipts.py:265-281 | reading through the head offsets recovers selector, key, public values and proof, for all lengths |
| `AbiCalldata.CalldataLayout` | scripts/forensic/pro28_receipts.py:254-281 | the calldata byte by byte: selector 0x41493c60, key, offset 96, offset of the proof, length, bytes and zero padding of the public values, and the same for the proof |
| `AbiCalldata.CalldataInjective` | scripts/forensic/pro28_receipts.py:265-281 | equal calldata means equal key, public values and proof |
| `AbiCalldata.DynamicAt` | scripts/forensic/pro28_receipts.py:260-262 | what `_abi_dynamic` makes, placed where a head word points to, is read back by length and bytes, whatever surrounds it |
| `WithdrawCall.OpensExactly` | scripts/forensic/pro28_receipts.py:843-867 | the claim reader opens calldata as a withdrawal if and only if the calldata holds, at some 32-aligned tuple and claim offsets, the words of operation, index, amount and lengths, the zero-padded beneficiary and the claim bytes of that withdrawal, at most 128 of them |
| `WithdrawCall.WithdrawRoundTrip` | scripts/forensic/pro28_receipts.py:843-867 | the standard ABI encoding of every withdrawal, followed by anything, is opened as that withdrawal if and only if its claim has at most 128 bytes |
| `WithdrawCall.TrailingBytesIgnored` | scripts/forensic/pro28_receipts.py:843-867 | bytes behind an opened call change nothing, so the opening does not fix the calldata |
| `ClaimIdentity.WriteVarint` | scripts/forensic/pro30_allocator_state.py:81-86 | the shifting loop writes the specified base-128 length |
| `ClaimIdentity.VarintBytes` | scripts/forensic/pro30_allocator_state.py:81-86 | byte i is the low seven bits of the length shifted right by 7i, with bit 7 set on all bytes but the last, and the last is the first at which less than 0x80 is left |
| `ClaimIdentity.Utf8Form` | scripts/forensic/pro30_allocator_state.py:80 | a character takes one to four bytes by the limits 0x80, 0x800 and 0x10000 of its code point, and all but the first are continuation bytes |
| `ClaimIdentity.VarintRoundTrip` | scripts/forensic/pro30_allocator_state.py:81-86 | the length is read back whatever follows, so no length prefix is a prefix of another |
| `ClaimIdentity.VarintMinimal` | scripts/forensic/pro30_allocator_state.py:81-86 | no readable encoding of a number is shorter, and none of the same length is different |
| `ClaimIdentity.Utf8Injective` | scripts/forensic/pro30_allocator_state.py:80 | different claim ids have different UTF-8 bytes |
| `ClaimIdentity.PayloadSelfDelimiting` | scripts/forensic/pro30_allocator_state.py:78-87 | payloads followed by anything are equal only for the same claim id and the same rest |
| `ClaimIdentity.BuildPayload` | scripts/forensic/pro30_allocator_state.py:78-87 | the payload is 0x20, the length as read back and the UTF-8 bytes; no text starts both with it and with the payload of another claim id |
| `JsonDiffs.StructuralDiff` | scripts/trace_compare.py:96-134 | the first result is what only the left has and the second what only the right has, in the sense of the next five rows, computed the same way for either side |
| `JsonDiffs.ReportedIsOwnPart` | scripts/trace_compare.py:96-134 | what is reported for a side is part of that side: a dict of its keys with parts of their values, a list of parts of its items in order, or the value itself |
| `JsonDiffs.ReportedKeys` | scripts/trace_compare.py:101-115 | of two dicts, a reported dict has exactly the keys of its side that the other lacks, with their values, and those under which something is reported, with that; nothing is reported only if the other has every key |
| `JsonDiffs.ReportedItems` | scripts/trace_compare.py:117-132 | of two lists, a reported list has, index by index and in order, what is reported of an item, and each item beyond the other's length |
| `JsonDiffs.ReportedWhole` | scripts/trace_compare.py:96-134 | different values that are not two dicts or two lists are reported whole, each for its own side |
| `JsonDiffs.WorldIs` | scripts/trace_compare.py:137-165 | of a step, the entries of its world but the trace are compared |
| `JsonDiffs.DiffDicts` | scripts/trace_compare.py:101-115 | the loop over the sorted union of keys fills both sides as specified |
| `JsonDiffs.DiffLists` | scripts/trace_compare.py:117-132 | the loop over the longer length fills both sides as specified |
| `JsonDiffs.NothingMeansEqual` | scripts/trace_compare.py:96-134 | both results are None if and only if the trees are equal, nulls inside included |
| `JsonDiffs.DiffTraces` | scripts/trace_compare.py:137-165 | None if and only if the traces have equal length and equal worlds, otherwise the least differing index with that step's diff, or the length mismatch |
| `JsonDiffs.CollectDiffs` | scripts/json_diff_report.py:16-45 | the recursive method with its loops returns the specified entries in order |
| `JsonDiffs.DiffsAreSound` | scripts/json_diff_report.py:16-45 | at every entry's path the trees differ and hold exactly what the entry says, null where there is nothing |
| `JsonDiffs.DiffsAreComplete` | scripts/json_diff_report.py:16-45 | every place where the trees differ is reported by an entry on the way to it or below it |
| `JsonDiffs.NoDiffsMeansEqual` | scripts/json_diff_report.py:16-45 | there is no entry if and only if the trees are equal |
| `DiffPlaces.PlacesAreReported` | scripts/json_diff_report.py:16-45 | an entry is reported if and only if the trees differ at its path, it says what each has there, both have a dict or both a list on all of the way, and at the place itself they do not: the differences exactly at the leaves |
| `DiffPlaces.EntriesInOrder` | scripts/json_diff_report.py:20-43 | entries come in the order of their paths, by key and by index at the first difference, so no place is reported twice |

## Left out

- Inclusion.Verify: does not model the field-name and schema checks of the case object and the trusted context, nor JSON parsing; the context's parser is a parameter, and the pin is the digest rather than its hexadecimal spelling.
- Envelope.SignedRawTransaction: starts from integers and bytes that `_int` and `_hex_bytes` have read from the RPC fields.
- Rlp.Encode: the `rlp` library is not part of the repository; Appendix B of the Yellow Paper stands in for it, without the library's recursion limits.
- AncestorPath.ListAncestors: Python's recursion limit is a parameter; below the number of ids the condition for returning is the bounded visit itself, of which a walk longer than the limit is only necessary; `_parent_edges`, which builds the parent map, is not modelled.
- CycleAudit.FindCycles: Python's recursion limit is a parameter; below the number of ids, whether a search that meets a longer walk also exceeds the limit depends on the order of visits and is not stated.
- RegistryClosure.WriteRegistry: the selected ids come first and in order; the order of the entries that the worklist adds behind them is not stated.
- MergePlanner.RunRoot: hard links are copies here, and paths are opaque keys: no aliasing, symbolic links, directories or races between planning and applying.
- RegistryBuilder.Consolidate: starts from the collected entries; collecting them, schema validation of the result and writing it are left out.
- Registry.HasPathCollision: compares registered paths, not resolved ones.
- Mailbox.DeduplicateSubmissions: timestamps are texts compared as Python compares them; loading and verifying message files is left out.
- Consensus.ComputeAgreement: values are the texts `str` gives; the order of the counts in a result's dict and building certificates are left out.
- EdnRoundTrip.BothReadersRecover: the printed subset has no sets, lists, floats, booleans or symbols, on which the readers differ by design (`EdnEdges` has each reader's own), and no keyword with a character that ends a word for either reader; at the level of values, that each word ends is stated as sufficient only, since a later pair with the same key can hide a misread one; digits are ASCII, and Python's limit on the length of integer texts is not modelled.
- NotebookEdn.ParseValue: floats are kept as their text, and `1`, `1.0` and `true` are three map keys here where Python's dict has one.
- JsonReader.ReadNumber: reads integers; a number with a fraction or an exponent is not read, as the model's values have none.
- CanonicalJson.Canonical: strings are sequences of Unicode scalar values, so lone surrogates do not occur (with them, a split pair and the character it spells would share a text); floats and non-string keys are left out. `json.dumps` is modelled from its documented ASCII output.
- TokenCapture.Capture: receipts are loaded and their logs decoded beforehand; RPC transport, block hashes, decimals and the written report are left out.
- AbiCalldata.VerifyCalldata: works on bytes; the hexadecimal key and result are not modelled.
- WithdrawCall.Open: the transaction's group and recipient, decoding the claim bytes as UTF-8, and the comparison with the observed payout are left out, and so are the other calls whose calldata is read.
- JsonDiffs.Collect: paths are lists of steps; rendering them as text, where a dot in a key becomes ambiguous, is left out.
- JsonDiffs.OnlyLeft: Python's equality of `1`, `True` and `1.0` is left out.
- `derive_claim` and `verify_bundle`: a decision table around the canonical text.
- AUD-5b (Unicode normalization) and the audits other than AUD-5a, AUD-5c, AUD-6a and AUD-6c.
- Command lines, network and subprocess calls, archives, reports, screenshots and fixed fixtures.
