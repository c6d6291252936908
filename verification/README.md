# Agent manifest: proofs about its proof engine, canonical form and verdicts

This project models the Python package `agent_manifest` in Dafny and proves what its
verifiers accept and refuse. Three parts:

1. **Merkle proofs.** Trees, audit paths and SUBPROOF by recursion; the verifiers as loops
   over two counters, over bit counts and over intervals; checkpoint protocols for memory
   logs and audit chains on top. Digests are symbolic at the byte level (`Hashing.dfy`): a
   digest is 32 opaque bytes that remember algorithm and input, so prefixes, concatenations
   and lengths are those of the program, and a digest determines what was hashed.
2. **Canonical JSON** (RFC 8785 sections 3.2.2.2, 3.2.2.3 and 3.2.3). Numbers as exact
   decimals, strings, UTF-16 key order, the serializer as loops, a parser that inverts it, and
   a meaning (exact reals, maps) that canonical text determines and is determined by. The
   signing pre-images, the COSE payload, the nesting scanner and the memory leaves build on it.
3. **Chains and state.** Delegation chains, approvals, signatures and the overall verdict, the
   TPM and TDX byte formats, and the file-backed revocation list.

Loops of the source are methods with invariants, proved against recursive functions;
`MerkleTree` and `FileCRL` are classes whose methods state the new state outright. `dafny
verify dfyconfig.toml` checks everything.

What a specification function means is said a second time, without it: `NumberFormat`,
`JsonForms`, `DeltaLaws`, `ContinuityLaws`, `DelegationLaws`, `ApprovalLaws` and
`VerdictReasons` state each outcome exactly, on the fields of the inputs; `Interop` and
`Layouts` spell out the bytes, names and constants another implementation has to share.

## Where the code and its promises part

- The inclusion verifier never checks the length of the leaf hash it is given. For a leaf of
  the stored length it is exact; for other lengths the same bytes cut elsewhere pass
  (`Inclusion.CutMatters`), and `Inclusion.InclusionExactAnyLength` says exactly which.
- The serializer allows a container that emits nothing inside 64 others; the payload gate then
  refuses the text at 65 levels. `Nesting.ScannerIsRight` gives the exact condition on the value
  to be serialized, `Nesting.PayloadGate` that on a manifest, and `Nesting.EmittedIsRefused` the
  input: a manifest with a field that holds an empty list inside 63 others.
- `FileCRL.revoke` appends without looking at the end of the file. When the last line of a
  loaded file has no line end, the new record is glued to it: an authenticated file no longer
  loads, and in development mode both records vanish on reload. `Revocation.RevokeSyncsExactly`,
  `Revocation.DevelopmentSyncsExactly` and `Revocation.GluedRecordSyncsExactly` say exactly when
  the list stays in agreement, `Revocation.OneGluedRecord` gives the input.
- A record that requires an approval but has none gives a VALID verdict unless approvals are
  enforced (`VerdictLaws.MissingApprovalIsValid`). `VerdictLaws.RequiredApproval`: a required
  approval is there, and good, if and only if there is any.
- Time can turn a verdict VALID. A memory baseline that cannot be compared, or differs, keeps a
  manifest from being VALID only until its time to live is over; then it is no longer compared
  (`VerdictLaws.LapseTurnsValid`). `VerdictLaws.ValidEarlier` gives the exact condition under
  which a manifest that is VALID was VALID before.
- The delta budget is compared with a rounded quotient: from 3 leaves to 4 the double nearest to
  1/3 passes although the growth exceeds it (`Budgets.RoundingOvershoots`). Between two sizes
  accepted budgets are kept exactly when the quotient is not rounded down
  (`Budgets.BudgetsKeptExactly`), and no run gains more than one part in 2^53 - 1 of each budget
  (`Budgets.DoublesStayInBudget`).
- The catalog root is promised not to depend on the order in which tools are supplied. That
  holds exactly when no two different tools share an id (`Catalog.CatalogForgetsOrderExactly`).
- The v0.1 signature covers an allow-list of 23 fields (`Interop.SignedContents`). Its comment names
  three fields that are left out; `evidence_requirements` is outside the list too, and inside the
  v0.2 payload.
- Only the root's `max_delegation_depth` is compared with the length of a chain; no theorem
  here claims a limit per hop.
- `verify_consistency` accepts any two roots of digest size with an empty proof at first size 0; exactness is
  claimed for first sizes above 0. `_CHAIN_PREFIX` is the unprintable byte 0x02 in the file.

## Model

| member | source | states |
|---|---|---|
| `Bits.SplitPoint` | python/src/agent_manifest/_merkle.py:229-234 | the doubling loop returns the split point; for n of at least 2 that is the one power of two k with k < n <= 2k |
| `Bits.SplitByBitLength` | python/src/agent_manifest/_merkle.py:361-381 | `1 << ((n - 1).bit_length() - 1)`, the split of the interval walk, is the split point of the recursion |
| `Bits.PowerOfTwoTest` | python/src/agent_manifest/_merkle.py:349 | `m & (m - 1) == 0` holds for exactly the powers of two |
| `Hashing.DomainsSeparate` | python/src/agent_manifest/_merkle.py:52-211 | leaf, node, chain and empty digests never coincide, whatever follows the prefix byte |
| `Interop.ThreeLeaves` | python/src/agent_manifest/_merkle.py:52-211 | the roots of trees of no, one and three leaves, spelled down to the bytes that are hashed and the algorithm |
| `MerkleShape.CountersFollowSides` | python/src/agent_manifest/_merkle.py:252-292 | the two counters of the bottom-up loops walk exactly the path the top-down recursion takes to leaf i |
| `Merkle.HonestPathClimbs` | python/src/agent_manifest/_merkle.py:203-226 | every audit path folds back to the tree head, for every tree and leaf |
| `Merkle.ExpectedLengthIsSides` | python/src/agent_manifest/_merkle.py:237-249 | the expected path length is the number of levels on the path |
| `Inclusion.ComputeRootFromProof` | python/src/agent_manifest/_merkle.py:252-292 | the shifting loop gives the root of a path of the right shape, and None for every wrong index, size or path length |
| `Inclusion.InclusionExact` | python/src/agent_manifest/_merkle.py:125-168 | RFC 9162 section 2.1.3.2: for a leaf hash of the stored length, a proof gives the tree head if and only if leaf and path are the honest ones |
| `Inclusion.InclusionExactAnyLength` | python/src/agent_manifest/_merkle.py:252-292 | without the length condition: exactly which leaf and first sibling still give the head; every later sibling is forced |
| `Inclusion.CutMatters` | python/src/agent_manifest/_merkle.py:252-292 | concrete family where a leaf of another length passes: the node hash does not mark where its left input ends |
| `Rekor.CheckInclusion` | python/src/agent_manifest/_rekor_verify.py:88-111 | the bit-counting loop accepts exactly the proofs whose root the RFC 9162 verifier reconstructs; it rejects all others |
| `Rekor.RekorLengthIsExpectedLength` | python/src/agent_manifest/_rekor_verify.py:96-99 | bit_length plus bit_count is the expected audit path length, for all index < size |
| `Rekor.SideAt` | python/src/agent_manifest/_rekor_verify.py:101-106 | sibling k is on the left exactly when the level is past the inner ones or bit k of the index is set |
| `MerkleTree.MerkleTree.constructor` | python/src/agent_manifest/_merkle.py:93-100 | a new tree has no leaves |
| `MerkleTree.MerkleTree.AddLeaf` | python/src/agent_manifest/_merkle.py:102-109 | appends the leaf hash of the preimage and returns it |
| `MerkleTree.MerkleTree.AddPrehashedLeaf` | python/src/agent_manifest/_merkle.py:111-113 | appends the given leaf hash unchanged |
| `MerkleTree.MerkleTree.Root` | python/src/agent_manifest/_merkle.py:115-119 | the tree head, or the empty-tree digest |
| `MerkleTree.MerkleTree.ProveInclusion` | python/src/agent_manifest/_merkle.py:125-142 | the honest proof, or an index error outside the tree |
| `MerkleTree.MerkleTree.VerifyInclusion` | python/src/agent_manifest/_merkle.py:144-168 | for a leaf hash of the stored length, accepts a proof exactly when it is the one the tree would make |
| `MerkleTree.MerkleTree.ProveConsistency` | python/src/agent_manifest/_merkle.py:170-187 | the honest consistency proof for 0 < m <= n, an error otherwise |
| `MerkleTree.RootBindsPreimages` | python/src/agent_manifest/_merkle.py:102-119 | two trees filled from preimages share a root if and only if algorithm and preimage lists are equal, lengths included |
| `Consistency.FoldTerms` | python/src/agent_manifest/_merkle.py:435-456 | the fold reconstructs old and new root when the number of terms fits the counters, and reports None when there are too many |
| `Consistency.VerifyConsistency` | python/src/agent_manifest/_merkle.py:295-358 | accepts exactly the well-shaped proofs that reconstruct both given roots |
| `Consistency.EdgeSizes` | python/src/agent_manifest/_merkle.py:332-347 | an empty first tree is accepted with an empty proof and any roots of 32 bytes, equal sizes exactly with equal roots and an empty proof, a shrinking tree never |
| `Consistency.CountersFollowJoin` | python/src/agent_manifest/_merkle.py:435-456 | after the trailing one bits are shifted away the counters walk exactly the path from the node that ends at m to the root |
| `ConsistencyExact.CompleteSubproof` | python/src/agent_manifest/_merkle.py:189-197 | the complete SUBPROOF drops its first node exactly when m is a power of two, and that node is then the old root |
| `ConsistencyExact.ConsistencyIsExact` | python/src/agent_manifest/_merkle.py:170-211 | RFC 9162 section 2.1.4.2 against 2.1.4.1: for 0 < m <= n, accepted against MTH(D) if and only if the first root is MTH(D[..m]) and the proof the honest one |
| `ConsistencyExact.HonestProofFits` | python/src/agent_manifest/_merkle.py:335-338 | no honest proof is longer than the bit_length(n) + 1 guard |
| `ConsistencyExact.MthInjective` | python/src/agent_manifest/_merkle.py:203-211 | tree heads over digest lists of one length agree only for one list |
| `Ranges.ConsistencyRanges` | python/src/agent_manifest/_merkle.py:361-381 | the interval walk terminates and returns the intervals of the SUBPROOF nodes in proof order |
| `Ranges.RangesRefineSubproof` | python/src/agent_manifest/_merkle.py:189-197 | node j is the head of interval j, no interval crosses m, and the intervals partition [m, n) when m is a power of two and [0, n) otherwise |
| `Append.HashAppended` | python/src/agent_manifest/_merkle.py:419-426 | the appended iterable is hashed only when every element is bytes and their number is n - m |
| `Append.CheckAppended` | python/src/agent_manifest/_merkle.py:427-432 | accepts when every proof node behind m is the head of the appended leaves it covers |
| `Append.VerifyConsistencyAppend` | python/src/agent_manifest/_merkle.py:384-432 | accepts exactly the advances whose consistency proof holds and whose right-hand nodes cover the appended leaves |
| `Append.AppendIsExact` | python/src/agent_manifest/_merkle.py:384-432 | for every old log with the first root: accepted if and only if the second root is the head of that log followed by the hashed preimages and the proof is honest, within the size cap |
| `Append.AppendedIsUnique` | python/src/agent_manifest/_merkle.py:384-432 | for given roots and sizes at most one proof and one appended sequence pass, without knowing the old log |
| `Sorting.SortCanonical` | python/src/agent_manifest/_merkle.py:509-518 | sorting forgets exactly the order |
| `Corpus.BuildCorpusTree` | python/src/agent_manifest/_merkle.py:475-518 | builds the tree over the sorted leaf hashes, or refuses above the leaf limit |
| `Corpus.CorpusRootBindsLeaves` | python/src/agent_manifest/_merkle.py:475-518 | two corpora share a root if and only if their leaves are equal as multisets |
| `Corpus.CorpusRootIgnoresOrder` | python/src/agent_manifest/_merkle.py:475-518 | permuting the documents never changes the root |
| `Corpus.RootInHashOrder` | python/src/agent_manifest/_merkle.py:504-518 | the root is that of any rising list of the same leaf hashes |
| `Interop.OneDocument` | python/src/agent_manifest/_merkle.py:504-508 | the bytes of a document leaf: id, a zero byte, content, behind the leaf prefix |
| `Sorting.StableSortCanonical` | python/src/agent_manifest/_merkle.py:573 | a stable sort by a key forgets the order of elements with different keys and nothing else |
| `Catalog.BuildCatalogTree` | python/src/agent_manifest/_merkle.py:526-591 | the tree over the tools sorted by id, or an error for too many tools, a hash of another algorithm or an id that does not encode |
| `Catalog.LeafDataInjective` | python/src/agent_manifest/_merkle.py:576-589 | the leaf determines id and both hashes, even for ids with a zero byte |
| `Catalog.CatalogRootBindsTools` | python/src/agent_manifest/_merkle.py:526-591 | two catalogs share a root if and only if they hold the same tools in the same order under every id |
| `Catalog.CatalogForgetsOrderExactly` | python/src/agent_manifest/_merkle.py:526-591 | reordering the tools never changes the root if and only if no two different tools share an id |
| `Catalog.RootInIdOrder` | python/src/agent_manifest/_merkle.py:573-591 | the root is that of any list that rises by id, by code points and prefixes first, and agrees with the tools under every id |
| `Interop.OneTool` | python/src/agent_manifest/_merkle.py:526-589 | the bytes of a tool leaf: id, a zero byte, the two digests, behind the leaf prefix |
| `Interop.UsableTools` | python/src/agent_manifest/_merkle.py:573-585 | a tool is refused exactly for a surrogate in its id or a hash of another algorithm |
| `MemoryDelta.MemoryMerkleTree` | python/src/agent_manifest/_memory_delta.py:95-114 | the tree over the encoded operations in order, or an error when there are too many or one does not encode |
| `MemoryDelta.FoldKv` | python/src/agent_manifest/_memory_delta.py:122-136 | last-writer-wins fold, or an error for an unsupported operation |
| `MemoryDelta.FoldKeepsLastWriter` | python/src/agent_manifest/_memory_delta.py:122-136 | the state holds a key exactly when the last operation on it is a PUT, with that value |
| `MemoryDelta.FromOps` | python/src/agent_manifest/_memory_delta.py:156-162 | a checkpoint that anchors root and size of the log |
| `MemoryDelta.VerifyDelta` | python/src/agent_manifest/_memory_delta.py:191-264 | drift, rollback, expired, budget or accepted, in that order of precedence, for any rounding of the division; on the fields in `DeltaLaws.DeltaReasons` |
| `DeltaLaws.DeltaReasons` | python/src/agent_manifest/_memory_delta.py:191-264 | each of the five reasons if and only if, against the log behind the previous checkpoint: the next root and size are those of log plus operations with the honest proof; the sequence number rises; now is at most approvedAt + ttl of the next checkpoint, which ends before year 10000; the growth is affordable |
| `DeltaLaws.ReasonsInOrder` | python/src/agent_manifest/_memory_delta.py:191-264 | from any previous checkpoint, of a known log or not: drift when roots, algorithms, numbers, sizes or the number of operations do not fit; otherwise the first of the other reasons that applies |
| `DeltaLaws.PreviousWindowUnread` | python/src/agent_manifest/_memory_delta.py:251-256 | the verdict is the same whatever approval date, time to live and budget the previous checkpoint has |
| `MemoryDelta.BoundIsExact` | python/src/agent_manifest/_memory_delta.py:226-248 | against the log behind the previous checkpoint, an advance is bound exactly when the next one anchors log plus operations and the proof is honest |
| `MemoryDelta.RunAnchorsWholeLog` | python/src/agent_manifest/_memory_delta.py:191-264 | after any run of accepted advances the last checkpoint anchors the first log followed by all operations |
| `MemoryDelta.RunRaisesSequence` | python/src/agent_manifest/_memory_delta.py:249-250 | the sequence number rises with every accepted advance |
| `DeltaLaws.RunIsCurrent` | python/src/agent_manifest/_memory_delta.py:251-264 | in an accepted run every checkpoint was within its own window when it was accepted, and its growth affordable |
| `MemoryDelta.DeltasFoldToWholeLog` | python/src/agent_manifest/_memory_delta.py:122-136 | folding the deltas one after another is folding the whole log |
| `Budgets.BudgetsKeptExactly` | python/src/agent_manifest/_memory_delta.py:257-264 | between two sizes every accepted budget is kept if and only if the rounded quotient times the old size is at least the added size, that is, unless the quotient is rounded down |
| `Budgets.RoundingOvershoots` | python/src/agent_manifest/_memory_delta.py:257-264 | correctly rounded doubles round 1/3 down: from 3 leaves to 4 the double nearest to 1/3 passes as budget and is exceeded |
| `Budgets.DoublesCover` | python/src/agent_manifest/_memory_delta.py:257-264 | a quotient of log sizes rounded to the nearest double loses at most one part in 2^53 |
| `Budgets.SomeDivision` | python/src/agent_manifest/_memory_delta.py:257-264 | there is a division that rounds every quotient of log sizes to a nearest double |
| `Budgets.RunStaysInBudget` | python/src/agent_manifest/_memory_delta.py:191-264 | the final size is at most the first size times the product of (1 + slack * budget), for any slack that makes up for the quotients of this run |
| `Budgets.DoublesStayInBudget` | python/src/agent_manifest/_memory_delta.py:191-264 | with correctly rounded doubles every accepted run stays within its budgets, each enlarged by one part in 2^53 - 1 |
| `MemoryLeaves.EncodeKv` | python/src/agent_manifest/_memory_delta.py:47-53 | tag and canonical payload of one operation, or an error |
| `MemoryLeaves.KvLeafBinds` | python/src/agent_manifest/_memory_delta.py:47-53 | two operations share a leaf if and only if they are the same operation on the same key with values that mean the same |
| `MemoryLeaves.EncodeVector` | python/src/agent_manifest/_memory_delta.py:56-70 | tag and canonical payload of one vector operation, or an error |
| `MemoryLeaves.VectorLeafBinds` | python/src/agent_manifest/_memory_delta.py:56-70 | two vector operations share a leaf if and only if every field means the same; a raw embedding never equals any other, not even its own hex text |
| `MemoryLeaves.EncodeGraph` | python/src/agent_manifest/_memory_delta.py:73-86 | tag and canonical payload of one node or edge, or an error |
| `MemoryLeaves.GraphLeafBinds` | python/src/agent_manifest/_memory_delta.py:73-86 | two graph operations share a leaf if and only if they add the same node or the same edge |
| `MemoryLeaves.TagsSeparate` | python/src/agent_manifest/_memory_delta.py:30-39 | leaves under different representation tags are never equal |
| `Interop.KvFields` | python/src/agent_manifest/_memory_delta.py:30-53 | tag, field names and values of PUT and DEL leaves, spelled out |
| `Interop.VectorFields` | python/src/agent_manifest/_memory_delta.py:34-70 | the same for vector leaves, raw and other embeddings |
| `Interop.GraphFields` | python/src/agent_manifest/_memory_delta.py:38-86 | the same for node and edge leaves |
| `Interop.SpelledLeaf` | python/src/agent_manifest/_memory_delta.py:47-86 | a leaf is its tag and the canonical bytes of any dict with its fields, in whatever order |
| `MemoryLeaves.RootBindsLog` | python/src/agent_manifest/_memory_delta.py:95-119 | two key-value logs share a root if and only if they hold the same operations in the same order |
| `MemoryLeaves.RootBindsVectors` | python/src/agent_manifest/_memory_delta.py:95-119 | the same for logs of vector operations |
| `MemoryLeaves.RootBindsGraph` | python/src/agent_manifest/_memory_delta.py:95-119 | the same for logs of graph operations |
| `MemoryLeaves.RootBindsState` | python/src/agent_manifest/_memory_delta.py:122-136 | equal roots fold to states with the same keys and values of the same meaning |
| `AuditContinuity.HashChainRoot` | python/src/agent_manifest/_audit_continuity.py:70-83 | the chain over the leaves, the empty digest for none |
| `AuditContinuity.ExtendHashChain` | python/src/agent_manifest/_audit_continuity.py:86-97 | the chain head after folding the leaves onto a root |
| `AuditContinuity.ExtendIsAppend` | python/src/agent_manifest/_audit_continuity.py:70-97 | extending the root of a non-empty log by b gives the root of the log followed by b |
| `AuditContinuity.ChainBindsEntries` | python/src/agent_manifest/_audit_continuity.py:60-83 | over entry leaves equal chain roots mean equal logs, whatever the lengths |
| `AuditContinuity.ChainIsNoTree` | python/src/agent_manifest/_audit_continuity.py:51-83 | a chain of two or more entries never shares its root with a Merkle tree over leaves |
| `Interop.TwoEntries` | python/src/agent_manifest/_audit_continuity.py:51-83 | the chain over two audit entries, spelled down to the bytes that are hashed |
| `AuditContinuity.VerifyContinuity` | python/src/agent_manifest/_audit_continuity.py:140-245 | discontinuity, rollback, expired or accepted, in that order of precedence; on the fields in `ContinuityLaws` |
| `ContinuityLaws.ChainReasons` | python/src/agent_manifest/_audit_continuity.py:140-245 | each reason for a hash-chained trace if and only if, against the log behind the signed checkpoint: the current root and size are those of log plus leaves within the cap; the numbers advance; now is within the window of the current checkpoint |
| `ContinuityLaws.MerkleReasons` | python/src/agent_manifest/_audit_continuity.py:140-245 | the same for a Merkle log, against the log behind the current checkpoint: the signed root is that of its first leaves, and the proof the honest one |
| `ContinuityLaws.ReasonsInOrder` | python/src/agent_manifest/_audit_continuity.py:140-245 | from any signed checkpoint, of a known log or not: discontinuity when roots, algorithms, numbers or sizes do not fit; otherwise the first of the other reasons that applies |
| `ContinuityLaws.OtherTraceStays` | python/src/agent_manifest/_audit_continuity.py:140-245 | a trace of any other kind is always a discontinuity |
| `ContinuityLaws.RunIsCurrent` | python/src/agent_manifest/_audit_continuity.py:236-245 | in an accepted run every checkpoint was within its own window when it was accepted |
| `AuditContinuity.RunIsMonotone` | python/src/agent_manifest/_audit_continuity.py:230-235 | along accepted runs size never shrinks, the sequence number never falls, and rises whenever the size changes |
| `AuditContinuity.ChainedRunExtendsLog` | python/src/agent_manifest/_audit_continuity.py:140-245 | after a hash-chained run the last root is the chain of the first log and every leaf appended since |
| `AuditContinuity.ChainedRunKeepsPrefix` | python/src/agent_manifest/_audit_continuity.py:140-245 | any log behind the last checkpoint starts with the log signed first |
| `AuditContinuity.MerkleRunKeepsPrefix` | python/src/agent_manifest/_audit_continuity.py:140-245 | the same for Merkle logs: every log behind the first root is a positional prefix of the last log |
| `Decimals.ValueUnique` | python/src/agent_manifest/_canonicalize.py:196-225 | decimals with stripped digits are equal exactly when their values are |
| `Numerals.DigitsAndExponentExact` | python/src/agent_manifest/_canonicalize.py:196-225 | on the repr of any non-zero float: no leading or trailing zero digit, and exactly the value repr shows |
| `Numerals.PlacedReadsBack` | python/src/agent_manifest/_canonicalize.py:249-263 | each of the four placements is a numeral that denotes the decimal it was made from; which of the four it is: `NumberFormat.FloatLayout` |
| `Numerals.FloatPrintsItsValue` | python/src/agent_manifest/_canonicalize.py:228-263 | the printed text denotes exactly the digits repr shows |
| `NumberFormat.FloatLayout` | python/src/agent_manifest/_canonicalize.py:228-263 | the layout from the value alone, on every finite float: an exponent if and only if the value is not zero and below 10^-6 or at least 10^21 in magnitude, then one non-zero digit before the point and no padding in the exponent; otherwise a point if and only if the value is no integer, and no leading zero but a single one; never a trailing zero behind the point |
| `NumberFormat.WholeExactly` | python/src/agent_manifest/_canonicalize.py:249-256 | stripped digits denote an integer if and only if none of them stands behind the point |
| `Numerals.FloatsPrintApart` | python/src/agent_manifest/_canonicalize.py:228-263 | two floats print alike if and only if the values their repr shows are equal |
| `Numerals.IntAndFloatPrintAlike` | python/src/agent_manifest/_canonicalize.py:89-102 | an integer in the safe range prints like the float of the same value |
| `Strings.Quote` | python/src/agent_manifest/_canonicalize.py:142-193 | the RFC 8785 section 3.2.2.2 escapes, or an error on a lone surrogate |
| `Strings.QuoteReadsBack` | python/src/agent_manifest/_canonicalize.py:142-193 | quoted text reads back to the string and takes exactly its own characters |
| `JsonForms.Escapes` | python/src/agent_manifest/_canonicalize.py:142-193 | how every character stands in a string: two-character escapes for quote, backslash and five controls, lower-case \u00 escapes for the other controls, itself otherwise |
| `Strings.ByteOrderIsUnitOrder` | python/src/agent_manifest/_canonicalize.py:134 | comparing UTF-16-BE bytes compares code units |
| `Strings.KeyOrderTotal` | python/src/agent_manifest/_canonicalize.py:134 | the key order is total and distinct keys never tie |
| `Strings.LexExactly` | python/src/agent_manifest/_canonicalize.py:134 | the order by its definition: one is a prefix of the other, or smaller where they first differ |
| `JsonForms.SurrogatePairs` | python/src/agent_manifest/_canonicalize.py:134 | UTF-16 units of every character: itself, or a high and a low surrogate that spell it |
| `Json.SerializeInt` | python/src/agent_manifest/_canonicalize.py:89-100 | the integer branch: the text of its decimal, or an error outside the safe range |
| `Json.SerializeFloat` | python/src/agent_manifest/_canonicalize.py:101-102 | the float branch: the text of its decimal, or an error when not finite; its layout is that of `NumberFormat.FloatLayout` |
| `Json.Serialize` | python/src/agent_manifest/_canonicalize.py:78-111 | the one-pass serializer emits the text of the normal form, with the errors of each branch in order |
| `JsonForms.SerializesExactly` | python/src/agent_manifest/_canonicalize.py:78-139 | a value serializes if and only if, at every depth up to 64: integers are safe, floats finite, texts and keys free of lone surrogates, keys strings and values supported |
| `JsonForms.ScalarFaults` | python/src/agent_manifest/_canonicalize.py:78-111 | which error a value that holds no others has |
| `JsonForms.ContainerFaults` | python/src/agent_manifest/_canonicalize.py:78-133 | the errors of containers that are too deep, of keys with a lone surrogate, and of items |
| `JsonForms.FirstItemFaults` | python/src/agent_manifest/_canonicalize.py:105-106 | a list has the error of its first item that has one |
| `JsonForms.Literals` | python/src/agent_manifest/_canonicalize.py:78-90 | null, true, false and empty containers |
| `JsonForms.ContainerTexts` | python/src/agent_manifest/_canonicalize.py:105-139 | brackets and braces around the joined contents |
| `JsonForms.ItemsJoin` | python/src/agent_manifest/_canonicalize.py:105-106 | items joined by commas without space |
| `JsonForms.MembersJoin` | python/src/agent_manifest/_canonicalize.py:135-139 | members joined by commas: quoted key, colon, value |
| `Json.SerializeItems` | python/src/agent_manifest/_canonicalize.py:105-106 | the list branch, item by item |
| `Json.CheckKeys` | python/src/agent_manifest/_canonicalize.py:126-133 | the key check in insertion order: the first key that is no string or has a surrogate decides the error |
| `Json.SerializeDict` | python/src/agent_manifest/_canonicalize.py:114-139 | the dict branch: key check, key order, null members dropped |
| `JsonParser.PrintReadsBack` | python/src/agent_manifest/_canonicalize.py:35-53 | printed text of any normal form parses back to it, all of it |
| `JsonMeaning.Canonicalize` | python/src/agent_manifest/_canonicalize.py:35-53 | the text of the normal form at depth 0 |
| `JsonMeaning.SortedKeysIncrease` | python/src/agent_manifest/_canonicalize.py:126-139 | emitted keys are strictly increasing |
| `JsonMeaning.UnitOrder` | python/src/agent_manifest/_canonicalize.py:115-134 | that increase is UTF-16 code-unit order |
| `JsonMeaning.CanonicalRoundTrip` | python/src/agent_manifest/_canonicalize.py:35-139 | parsing canonical text consumes all of it and gives a value that means what the input means |
| `JsonMeaning.SameTextSameMeaning` | python/src/agent_manifest/_canonicalize.py:35-139 | two values share canonical text if and only if they mean the same: up to dropped nulls, tuples, int and float, -0 and insertion order |
| `Utf8.EncodeInjective` | python/src/agent_manifest/_canonicalize.py:53 | texts share their UTF-8 bytes only if equal |
| `JsonForms.Octets` | python/src/agent_manifest/_canonicalize.py:53 | the UTF-8 octets of every character, by RFC 3629 section 3 |
| `Nesting.PayloadNestingDepth` | python/src/agent_manifest/_cose.py:835-866 | the one-pass scan over depth, deepest, in_string and escaped |
| `Nesting.ScannerIsRight` | python/src/agent_manifest/_cose.py:869-885 | on canonical text the scan is the structural nesting whatever the strings hold; it is at most 65, and passes the 64-level gate if and only if the serialized value has no hollow container (no items, or no member that is emitted) inside exactly 64 others |
| `Nesting.HollowIsEmpty` | python/src/agent_manifest/_canonicalize.py:105-139 | a hollow container of the value is exactly an empty container of what is emitted, at every depth |
| `Nesting.PayloadGate` | python/src/agent_manifest/_cose.py:869-885 | the gate refuses the payload of a manifest if and only if it has a hollow container inside exactly 64 others |
| `Nesting.EmittedIsRefused` | python/src/agent_manifest/_cose.py:869-885 | a manifest whose one field is an empty list inside 63 others serializes, and its payload scans to 65 |
| `Nesting.CanonicalIsCapped` | python/src/agent_manifest/_canonicalize.py:78-111 | the depth cap of the serializer as a bound on nesting, met exactly by such an empty container |
| `Signing.SigningPreImage` | python/src/agent_manifest/_signing.py:229-252 | the canonical bytes of the signed fields with approvals blanked |
| `Signing.CosePayload` | python/src/agent_manifest/_cose.py:186-205 | the canonical bytes of the payload fields with approvals left out |
| `Signing.PreImageIsAgreement` | python/src/agent_manifest/_signing.py:125-160 | pre-images are equal if and only if the manifests agree on every signed field, approvals blanked and nulls absent |
| `Signing.PayloadIsAgreement` | python/src/agent_manifest/_cose.py:137-205 | payloads are equal if and only if the manifests agree on every field but the three attached ones, approvals left out |
| `Signing.ApprovalsLeftOut` | python/src/agent_manifest/_signing.py:240-250 | blanking and leaving out approvals see the same of a HITL record: all members but the approvals |
| `Interop.SignedContents` | python/src/agent_manifest/_signing.py:125-250 | what is signed, field by field: exactly the 23 named fields as they stand, in the record an empty list of approvals and everything else as it stands |
| `Interop.PayloadContents` | python/src/agent_manifest/_cose.py:137-205 | what an envelope carries: everything but the three attached fields, the record without approvals |
| `Signing.AttestedPreImage` | python/src/agent_manifest/_verify.py:1588-1598 | the canonical bytes that the hash in an attestation report is taken over |
| `Signing.ManifestHashIsAgreement` | python/src/agent_manifest/_verify.py:1588-1598 | two manifests share their hash if and only if they agree on every field but the attestation and the log entry |
| `Signatures.KeyIssuerMismatch` | python/src/agent_manifest/_verify.py:487-521 | a mismatch exactly when there is a policy and the key is not listed for the issuer |
| `Signatures.CheckSignature` | python/src/agent_manifest/_verify.py:940-1100 | mismatch, missing and verified, each exactly when it should be: version, profile, trusted key, issuer, key, bytes |
| `Signatures.VouchedExactly` | python/src/agent_manifest/_verify.py:926-1100 | a detached signature is vouched for if and only if the version and profile allow it, its key is trusted and listed for the issuer, its algorithm is one of three, the key can be used, and the scheme accepts it over the pre-image |
| `Signatures.DisputedExactly` | python/src/agent_manifest/_verify.py:926-1100 | it is disputed if and only if one of these fails for a relying party with keys; without an issuer policy neither |
| `Signatures.EnvelopeExactly` | python/src/agent_manifest/_verify.py:487-521 | an envelope is disputed if and only if one of its signers is not listed for the issuer |
| `Signatures.CheckDetached` | python/src/agent_manifest/_verify.py:1019-1100 | the checks that need trusted keys, in their order |
| `Signatures.ProfileIsKept` | python/src/agent_manifest/_verify.py:926-1016 | under the signed post-quantum profile only a post-quantum algorithm is vouched for, and a classical one is always disputed |
| `Signatures.VouchedIsUndisputed` | python/src/agent_manifest/_verify.py:1019-1100 | a detached signature that verifies never comes with a mismatch |
| `Signatures.SignedBytesSettleFinding` | python/src/agent_manifest/_verify.py:926-1100 | manifests with one pre-image get the same findings for the same block: no unsigned field but the block has a say |
| `Delegation.CheckHop` | python/src/agent_manifest/_delegation.py:350-431 | the checks of one hop in their order: shape, index, signature over the whole grant, narrowing; on the fields in `DelegationLaws` |
| `Delegation.VerifyHops` | python/src/agent_manifest/_delegation.py:350-431 | Ok with the constrained hops when every hop passes, otherwise the fault of the first hop that fails |
| `Delegation.VerifyDelegationChain` | python/src/agent_manifest/_delegation.py:246-347 | accepted or unverifiable exactly for chains that meet every check; which of the two; and when the failure is a wrong signature; on the fields in `DelegationLaws.AcceptedExactly` and `DelegationLaws.InvalidSignatureExactly` |
| `DelegationLaws.AcceptedExactly` | python/src/agent_manifest/_delegation.py:246-431 | a chain is accepted or unverifiable if and only if it is empty, or every hop is readable and `check` is good under the trusted key of its principal over its own fields, every hop inherits from every earlier one, the root is the issuer by principal or manifest, and its grant allows as many hops as follow: on the fields, with the grants as read |
| `DelegationLaws.InvalidSignatureExactly` | python/src/agent_manifest/_delegation.py:350-404 | the outcome is an invalid signature if and only if some hop is the first that does not pass and its check says that the signature is wrong |
| `DelegationLaws.ConstrainedExactly` | python/src/agent_manifest/_delegation.py:421-431 | the hops reported as unverifiable are exactly those whose grants carry constraints |
| `DelegationLaws.ReadScopeExactly` | python/src/agent_manifest/_delegation.py:156-183 | a grant reads as a scope if and only if each of its five fields does: lists of strings, whole numbers in the safe range, absent or null where that is allowed |
| `DelegationLaws.InheritsIsWithin` | python/src/agent_manifest/_delegation.py:446-561 | inheriting, on the lists and numbers of two grants, is inclusion of authority |
| `Delegation.NarrowsIsWithin` | python/src/agent_manifest/_delegation.py:446-561 | the field-by-field check is exactly inclusion of authority: every tool, class, constraint, lifetime and depth of the child within the parent |
| `Delegation.NarrowingIsGlobal` | python/src/agent_manifest/_delegation.py:350-431 | in an accepted or unverifiable chain authority narrows between any two hops |
| `Delegation.AcceptedIsGlobalNarrowing` | python/src/agent_manifest/_delegation.py:246-431 | a chain is accepted if and only if its hops are well formed and signed, authority narrows between every two, the root is bound and the root limit kept |
| `Delegation.ConstrainedSuffix` | python/src/agent_manifest/_delegation.py:421-431 | the hops reported as unverifiable are a suffix of the chain |
| `Delegation.PrefixAccepted` | python/src/agent_manifest/_delegation.py:246-347 | cutting hops off the end keeps a chain accepted |
| `Delegation.ExtendAccepted` | python/src/agent_manifest/_delegation.py:246-347 | one more hop is accepted exactly when it passes on its own, narrows the last one and the root allows it |
| `Delegation.SignedBytesSettleHop` | python/src/agent_manifest/_delegation.py:109-130 | two hops are signed over the same bytes if and only if index, manifest, principal, date and the meaning of the whole grant are the same; then the scope that is enforced is the same |
| `Grants.WholeNumberExact` | python/src/agent_manifest/_delegation.py:81-90 | a JSON value is read as the integer i if and only if it means i and i is in the safe range, whether written as integer or float |
| `Grants.SameGrantSameScope` | python/src/agent_manifest/_delegation.py:156-183 | grants that mean the same are read as the same scope |
| `Grants.SameScopeSameJudgement` | python/src/agent_manifest/_verify.py:1424-1500 | approved scopes that mean the same have the same duration and risk tier |
| `Statements.StatementBytes` | python/src/agent_manifest/_delegation.py:109-130 | the canonical bytes of a hop, an approval or a revocation |
| `Statements.BytesBindStatement` | python/src/agent_manifest/_delegation.py:569-601 | the bytes of two hops, approvals or revocations are equal if and only if kind, every field and the meaning of the scope are, so no signature carries over |
| `Interop.HopFields` | python/src/agent_manifest/_delegation.py:109-130 | names and values of the six fields of a signed hop |
| `Interop.ApprovalFields` | python/src/agent_manifest/_delegation.py:569-601 | names and values of the fields of a signed approval, with and without its method |
| `Interop.RevocationFields` | python/src/agent_manifest/_revocation.py:130-136 | names and values of the four fields of a signed revocation |
| `Interop.SpelledStatement` | python/src/agent_manifest/_delegation.py:109-130 | the signed bytes are those of any dict with these fields, in whatever order |
| `Approvals.JudgeApproval` | python/src/agent_manifest/_verify.py:1411-1500 | the checks of one approval in their order; on the fields in `ApprovalLaws.JudgeExactly` |
| `Approvals.WeighApprovals` | python/src/agent_manifest/_verify.py:1411-1547 | the early-exit loop: approved, invalid, insufficient, expired or unverifiable in that precedence, a mismatch for all but the first and last; the defensive branch is unreachable; on the fields in `ApprovalLaws.WeighedExactly` |
| `Approvals.CheckHitl` | python/src/agent_manifest/_verify.py:1375-1557 | the result for a record, present or not; enforcement without mismatch and without unverifiable means a good approval |
| `ApprovalLaws.JudgeExactly` | python/src/agent_manifest/_verify.py:1411-1500 | each of the five judgements on the fields; good if and only if the duration is a positive whole number, now is at most approvedAt + duration, from level 2 on the method is no software key and for high and critical risk a hardware key, and the approver has a trusted key under which the signature checks |
| `ApprovalLaws.WeighedExactly` | python/src/agent_manifest/_verify.py:1411-1547 | each result of an array by such approvals: approved if and only if one is good |
| `ApprovalLaws.HitlExactly` | python/src/agent_manifest/_verify.py:1375-1557 | result and mismatch for every record and enforcement |
| `Approvals.OrderFree` | python/src/agent_manifest/_verify.py:1411-1547 | the result depends only on the multiset of approvals |
| `Approvals.Merge` | python/src/agent_manifest/_verify.py:1502-1547 | the result of two arrays together is the higher ranked of their results |
| `Approvals.OneGoodSuffices` | python/src/agent_manifest/_verify.py:1406-1505 | one good approval gives APPROVED whatever surrounds it |
| `Approvals.ApprovedEarlier` | python/src/agent_manifest/_verify.py:1441-1475 | later time, a higher level or lost keys never turn a result into APPROVED |
| `Approvals.SignedBytesSettleApproval` | python/src/agent_manifest/_delegation.py:569-601 | the signed bytes settle everything an approval is judged by: manifest, date, approver, procedure, duration, risk tier |
| `Verdict.CheckArtifacts` | python/src/agent_manifest/_verify.py:1103-1128 | a mismatch exactly for a bound artifact with another runtime hash; the unverified list is exactly the bound artifacts without one |
| `Verdict.CheckRules` | python/src/agent_manifest/_verify.py:1147-1291 | mismatches exactly for a declared enforcement mode that is not the runtime one, a flagged assessment, or a poisoning scan of another corpus, of none, flagged, or missing at level 1 |
| `Verdict.CheckTrace` | python/src/agent_manifest/_verify.py:633-709 | a mismatch exactly when both roots are there, differ, and the continuity evidence does not prove the signed chain a prefix of the running one |
| `Verdict.CheckContents` | python/src/agent_manifest/_verify.py:1130-1321 | what all artifacts say, the baseline compared only until it lapses |
| `Verdict.CheckDelegation` | python/src/agent_manifest/_verify.py:1329-1372 | the four delegation results and when a mismatch is reported |
| `Verdict.CheckAttestation` | python/src/agent_manifest/_verify.py:1579-1658 | verified exactly with a report that binds this manifest and an appraisal bound to it; a mismatch exactly for a present block that does not bind it |
| `Verdict.CheckTransparency` | python/src/agent_manifest/_verify.py:1660-1690 | present and verified for either carrier, evidence bound to this manifest |
| `Verdict.Gate` | python/src/agent_manifest/_verify.py:838-924 | version, schema, revocation and validity window, in that order; on the fields in `VerdictReasons.RevokedAndExpired` and `VerdictReasons.ValidIsLive` |
| `Verdict.CheckAttachments` | python/src/agent_manifest/_verify.py:1329-1658 | delegation, approvals and attestation together: what contradicts and what cannot be decided |
| `Verdict.FinalResult` | python/src/agent_manifest/_verify.py:1700-1765 | the chain of conditions, as the precedence of contradicting, undecidable and missing evidence |
| `Verdict.Verify` | python/src/agent_manifest/_verify.py:838-1765 | the overall result as the precedence of contradicting, undecidable and missing evidence; MISMATCH exactly when mismatches are reported; on the fields in `VerdictReasons.VerdictExactly` |
| `VerdictReasons.VerdictExactly` | python/src/agent_manifest/_verify.py:838-1765 | every verdict with its reason, on the fields of manifest, evidence and demands: version, schema, revocation, dates, then objections, missing signature, undecided, lacking, unattested, valid |
| `VerdictReasons.ValidIsLive` | python/src/agent_manifest/_verify.py:838-924 | VALID: supported version, valid schema, not revoked, and issued and not expired when both dates are given |
| `VerdictReasons.RevokedAndExpired` | python/src/agent_manifest/_verify.py:889-924 | for a supported version and a valid schema: REVOKED if and only if the id is revoked, EXPIRED if and only if it is not, both dates read, it was issued and has run out |
| `VerdictReasons.EnforcedIsApproved` | python/src/agent_manifest/_verify.py:1375-1765 | VALID under enforced approvals: one of them is open, strong enough and signed by its approver |
| `ManifestVerdict.VerifyManifest` | python/src/agent_manifest/_verify.py:838-1765 | the verdict on a manifest as it arrives, its signature checked and its hash computed |
| `ManifestVerdict.ValidIsSigned` | python/src/agent_manifest/_verify.py:926-1765 | a VALID manifest with a detached signature has one by a trusted key that may sign for its issuer, over its signed fields, under an algorithm its profile permits |
| `ManifestVerdict.SignedBytesSettleVerdict` | python/src/agent_manifest/_verify.py:838-1765 | manifests with the same signed bytes and block get the same verdict for the same parts, when no attestation is attached |
| `ManifestVerdict.ReportBindsContent` | python/src/agent_manifest/_verify.py:1579-1625 | a report binds two manifests if and only if they agree on every field but the attestation and the log entry |
| `ManifestVerdict.ReportedHash` | python/src/agent_manifest/_verify.py:1588-1598 | the hash a report must name: SHA-256 over the canonical bytes of any dict with the fields of the manifest but the two |
| `ManifestVerdict.MissingApprovalArrives` | python/src/agent_manifest/_verify.py:1375-1388 | the same input in a signed envelope, through the whole verification: VALID |
| `VerdictLaws.ValidIsDeserved` | python/src/agent_manifest/_verify.py:1700-1765 | VALID if and only if every condition holds: version, window, signature, artifacts and baseline, rules, trace, chain, approval, attestation, transparency |
| `VerdictLaws.RequiredApproval` | python/src/agent_manifest/_verify.py:1375-1388 | a VALID manifest whose record requires an approval has a good one if and only if it has any; under enforcement it always has |
| `VerdictLaws.MissingApprovalIsValid` | python/src/agent_manifest/_verify.py:1375-1388 | a dated, fully bound manifest at any time: an approval is required, there is none, and the verdict is VALID |
| `VerdictLaws.MilderKeepsValid` | python/src/agent_manifest/_verify.py:1660-1765 | VALID under demands is VALID under any milder demands, the level included |
| `VerdictLaws.LapseTurnsValid` | python/src/agent_manifest/_verify.py:1293-1318 | a dated, fully bound manifest: INCOMPLETE or MISMATCH within the hour of its baseline, VALID after it |
| `VerdictLaws.BaselineVerdict` | python/src/agent_manifest/_verify.py:1293-1318 | the verdict on such a manifest with only a baseline in question, for every baseline and every time within its validity |
| `VerdictLaws.ValidEarlier` | python/src/agent_manifest/_verify.py:1293-1318 | given VALID at a time: VALID at an earlier time since issue if and only if the baseline had lapsed then, has not lapsed yet, or passes the comparison |
| `Wire.ReadSizedExact` | python/src/agent_manifest/_tpm_verify.py:74-84 | a sized buffer is read if and only if the bytes are its encoding followed by the rest |
| `Tpm.ReadU16` | python/src/agent_manifest/_tpm_verify.py:74-77 | the cursor read of a 16-bit field, None at the end |
| `Tpm.Read2B` | python/src/agent_manifest/_tpm_verify.py:80-84 | the cursor read of a sized buffer, None when truncated |
| `Tpm.UnwrapAttest` | python/src/agent_manifest/_tpm_verify.py:157-184 | exactly the structures with the magic, bare or behind their size |
| `Tpm.FramingIsUnambiguous` | python/src/agent_manifest/_tpm_verify.py:157-184 | no blob can be read under both framings |
| `Tpm.ParseAttest` | python/src/agent_manifest/_tpm_verify.py:187-216 | accepts exactly the framed encodings of headers with the magic, and gives back every field and the signed bytes |
| `Tpm.AttestExact` | python/src/agent_manifest/_tpm_verify.py:187-216 | decoding and encoding a header are inverse |
| `Layouts.HeaderLayout` | python/src/agent_manifest/_tpm_verify.py:187-216 | the header field by field, widths and byte order spelled out |
| `Tpm.ParseSelections` | python/src/agent_manifest/_tpm_verify.py:276-287 | the loop over selections against the decoder of a list, truncation included |
| `Tpm.QuoteInfoExact` | python/src/agent_manifest/_tpm_verify.py:263-293 | a quote body decodes if and only if it is the encoding of selections and digest with nothing after it |
| `Tpm.ParseQuote` | python/src/agent_manifest/_tpm_verify.py:251-301 | accepts exactly the framed encodings of quotes; raw is every signed byte |
| `Layouts.QuoteLayout` | python/src/agent_manifest/_tpm_verify.py:251-301 | magic and type of a quote, and its body |
| `Layouts.SelectionLayout` | python/src/agent_manifest/_tpm_verify.py:276-287 | a selection: algorithm, size of its bitmap, bitmap |
| `Tpm.BothFramingsQuote` | python/src/agent_manifest/_tpm_verify.py:157-301 | a structure is the same quote bare and size-prefixed |
| `Tpm.QuoteIsUnique` | python/src/agent_manifest/_tpm_verify.py:251-301 | one blob holds one quote |
| `Tpm.ParseNvCertifyInfo` | python/src/agent_manifest/_tpm_verify.py:219-238 | accepts exactly the encodings of NV certify info, without trailing bytes |
| `Tpm.ParseNvCertify` | python/src/agent_manifest/_tpm_verify.py:241-248 | accepts exactly the framed encodings of NV certifications |
| `Layouts.NvLayout` | python/src/agent_manifest/_tpm_verify.py:219-238 | the type and the body of an NV certification |
| `Layouts.BigFour` | python/src/agent_manifest/_tpm_verify.py:74-84 | the four-byte big-endian integer, byte by byte |
| `Tpm.Indices` | python/src/agent_manifest/_tpm_verify.py:118-125 | the selected registers: bit j of byte i selects 8i + j |
| `Layouts.RegisterBits` | python/src/agent_manifest/_tpm_verify.py:118-125 | registers from the low bit of a byte up |
| `Tpm.SelectionDeterminesBitmap` | python/src/agent_manifest/_tpm_verify.py:118-125 | bitmaps of one length select the same registers only if equal |
| `Tdx.ParseCert` | python/src/agent_manifest/_tdx_verify.py:176-206 | the certification data, against its decoder |
| `Tdx.ParseQuoteSignature` | python/src/agent_manifest/_tdx_verify.py:132-214 | accepts exactly the quotes that begin with the encoding of a section of proper sizes, so the section is rebuilt byte for byte |
| `Tdx.QuoteExact` | python/src/agent_manifest/_tdx_verify.py:132-214 | a quote decodes to a section and a rest if and only if it is that encoding followed by that rest |
| `Tdx.SectionIsUnique` | python/src/agent_manifest/_tdx_verify.py:149-214 | the three nested lengths leave no choice |
| `Layouts.TdxLayout` | python/src/agent_manifest/_tdx_verify.py:132-163 | 632 signed bytes, then the section behind its size |
| `Layouts.TdxSection` | python/src/agent_manifest/_tdx_verify.py:164-183 | the section: two fields of 64 bytes, then data of type 6 behind its size |
| `Layouts.TdxCertification` | python/src/agent_manifest/_tdx_verify.py:184-214 | the certification data: 384 and 64 bytes, authentication data behind a two-byte size, the chain as data of type 5 |
| `Layouts.LittleFour` | python/src/agent_manifest/_tdx_verify.py:132-163 | the four-byte little-endian integer, byte by byte |
| `Revocation.VerifyRevocationSignature` | python/src/agent_manifest/_revocation.py:95-151 | true exactly with a long enough signature of the trusted key over the record |
| `Revocation.VerifiesExactly` | python/src/agent_manifest/_revocation.py:95-151 | a record verifies if and only if it has a signature of at least 86 characters, names the id of the key, and the scheme accepts it over its own four fields |
| `Revocation.SignedBytesSettleRevocation` | python/src/agent_manifest/_revocation.py:130-136 | two records are signed over the same bytes if and only if manifest, date, reason and authority are the same |
| `Revocation.FileCrl.constructor` | python/src/agent_manifest/_revocation.py:188-196 | an empty cache on a file |
| `Revocation.FileCrl.Open` | python/src/agent_manifest/_revocation.py:188-198 | opening loads the file when there is one; without error cache and file agree |
| `Revocation.FileCrl.Load` | python/src/agent_manifest/_revocation.py:200-258 | publishes the last-record-wins map of the file or, on any error, nothing |
| `Revocation.ScanExact` | python/src/agent_manifest/_revocation.py:226-258 | the loop yields all records, or fails exactly when there are too many or a line is unsound |
| `Revocation.LoadsExactly` | python/src/agent_manifest/_revocation.py:200-258 | a file loads if and only if it has at most 50 MiB, no line with ink after a million records, and under a trusted key every such line holds a record that verifies |
| `Revocation.LoadFault` | python/src/agent_manifest/_revocation.py:200-258 | which error a file has: too large a file, then what fails first line by line, the number of records before the record itself |
| `Revocation.FileCrl.Revoke` | python/src/agent_manifest/_revocation.py:260-267 | adds to cache and file a record that verifies, and changes neither otherwise |
| `Revocation.FileCrl.IsRevoked` | python/src/agent_manifest/_revocation.py:269-270 | membership in the cache |
| `Revocation.FileCrl.GetRecord` | python/src/agent_manifest/_revocation.py:272-273 | the cached record |
| `Revocation.LoadSyncs` | python/src/agent_manifest/_revocation.py:200-258 | loading succeeds exactly within the limits and with sound lines, and leaves cache and file in agreement |
| `Revocation.ReloadReproduces` | python/src/agent_manifest/_revocation.py:200-258 | within the limits, reloading a list in agreement with its file gives the same cache |
| `Revocation.RunKeepsSync` | python/src/agent_manifest/_revocation.py:154-180 | every state reached from agreement with a terminated last line keeps it, and every record of an authenticated file verifies |
| `Revocation.RevokedStays` | python/src/agent_manifest/_revocation.py:260-270 | once revoked, an id stays revoked |
| `Revocation.RevokeSyncsExactly` | python/src/agent_manifest/_revocation.py:260-267 | an authenticated list stays in agreement if and only if the text after its last line end is blank; otherwise its file no longer loads |
| `Revocation.DevelopmentSyncsExactly` | python/src/agent_manifest/_revocation.py:226-267 | in development mode a list stays in agreement if and only if the text after the last line end is blank, or the terminated lines alone already say what the cache says with the new record |
| `Revocation.GluedRecordSyncsExactly` | python/src/agent_manifest/_revocation.py:226-267 | with a record w on an unterminated last line: in agreement after revoking r if and only if adding w and then r to what the terminated lines say changes nothing |
| `Revocation.GluedRecordIsLost` | python/src/agent_manifest/_revocation.py:226-267 | within the limits such a file loads, as exactly what its terminated lines say |
| `Revocation.OneGluedRecord` | python/src/agent_manifest/_revocation.py:226-267 | a file of one record without a line end loads as empty after one revocation |

## Left out

- Inclusion.InclusionExact: for leaf hashes of the stored length; the case of other lengths is `Inclusion.InclusionExactAnyLength`.
- Append.AppendIsExact: for a non-empty old log, as the verifier refuses first size 0.
- Corpus.CorpusRootBindsLeaves: speaks of leaf bytes, since an id that contains a zero byte does not determine where the id ends; the sort order of digests is a parameter that is a total order.
- Budgets.RoundingOvershoots: that Python divides integers with correct rounding is taken from the language.
- MemoryLeaves.KvLeafBinds: keys are text, as they are in JSON.
- Json.Serialize: Python's shortest `repr` digits are taken as given, so what a float denotes is what they show.
- Signatures.CheckSignature: the key reader and the signature scheme over bytes are parameters, and an envelope enters with what its appraisal found; the refusals of that appraisal itself are not modelled.
- Verdict.Verify: a mismatch is its field name, without the expected and actual text, and those of the early checks are one entry. The root computed from the listed tools enters as the observed hash of a binding. Warnings and the field-by-field report are not modelled.
- ManifestVerdict.VerifyManifest: the parts of a manifest stand beside its JSON, as the values that are read out of it. A manifest with no canonical form under an attestation counts as a mismatch, where the program raises the serializer's error.
- Verdict.CheckContents: a baseline whose window ends after year 9999 lapses at no time here, where the program raises OverflowError.
- Delegation.VerifyDelegationChain: the signature scheme is a parameter over statements, whose bytes are those of `Statements`, and so is the timestamp reader; a statement that has no bytes counts as bad input.
- Approvals.WeighApprovals: one clock reading serves the whole loop; the approval signature check is a parameter.
- Revocation.RunKeepsSync: assumes that JSON lines round trip and that a record behind other text on its line is no record. Concurrent calls and edits or deletions of the file by others are not modelled.
- Tdx.ParseQuoteSignature: the fields of the TD report and the signatures over the section are not modelled.
- MemoryDelta.VerifyDelta: an exception while operations are being encoded counts as an operation that does not encode.
- Signature schemes, certificates, hash functions and constant-time comparison: parameters, symbolic digests and plain equality.
- Hex and base64 text, algorithm names and unknown algorithms: a root is the digest its text spells, or not of that form.
- Type checks on arguments: the datatypes hold what passes them; malformed values that matter are constructors of their own.
- Schema validation, CBOR decoding, fetching, command-line tools, and the Rekor checkpoint text.
- Clocks and timestamp text: instants are integers, microseconds since year 1, with an offset where the code compares offsets.
