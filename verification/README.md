# Offline verification of hash-committed records

This project models the offline verifiers of the repository and proves what their verdicts establish. Records are
committed by hash, chained or arranged in Merkle trees, canonicalised as JSON, and signed. SHA-256, SHA-512 and the
signature equations of foreign libraries are parameters: every theorem holds for every hash function, and a binding
claim reads "the values are equal, or two different preimages with the same digest are exhibited".

`dafny verify dfyconfig.toml` verifies everything. The modules, one per file:

- `Basics`, `Octets`, `Ordering`, `Residues`: optional values and powers of two, byte strings and collisions, sorting and
  permutations, arithmetic modulo p.
- `Merkle`, `Inclusion`: the recursive tree hash, the bottom-up level loop with odd-node promotion, the two provers, the
  iterative (fn, sn) verifier of section 2.1.3.2 of RFC 9162, completeness and soundness.
- `ScanBinding`: what a scan verdict over a corpus root says about the documents a decision consumed.
- `EvidenceRoot`, `EvidenceSet`: the canonical root over pinned sources, and the validator, resolver and builder around it.
- `Acquisition`, `AcquisitionMeaning`: the ordering log, claims, the attempt walk with its retry rule and the eligibility
  verdict, against a declarative predicate (`Acquires`), and what that predicate says of the records alone (`Means`).
- `AttemptGuard`, `SessionChain`: hash-chained histories, their runs, and what a head held elsewhere binds.
- `CanonicalJson`, `NumberLayout`: the canonical printers with an independent parser, and the ECMAScript number layout
  with an independent reader and a rational value.
- `DoubleAndAdd`, `Schnorr`, `Edwards`: scalar multiplication loops over a group given up to an equality, the BIP-340
  round trip, and extended-coordinate addition against the affine twisted-Edwards law.
- `Nenrin`, `NenrinAcceptance`, `NenrinMeaning`: the NENRIN provenance bundle procedure, all six steps, what acceptance
  establishes, and the bundles it accepts, read off their records alone (`Acceptable`).
- `MeshSync`: reading a node through its cursor, and convergence per origin and namespace.

Six results correct a natural expectation, and each is proved together with the exact condition under which the
expectation holds. A byte-identical copy of a valid claim counts as a later attempt, so it keeps a RESULT exactly when
the copied claim is an attested NO_RESULT (`Acquisition.DuplicateClaim`). Terminals that differ only in scope do not
conflict and the first in list order is used, so putting a second one in front keeps a RESULT exactly when it covers the
required scope (`Acquisition.FirstTerminalDecides`). The inclusion verifier does not look at lengths: the position of an
accepted leaf is sound exactly for leaves of 32 bytes and of more than 64, and at every index every other length is
accepted for some forged leaf (`Inclusion.PositionSoundExactly`). A leaf joins id and content with a NUL that nothing
refuses inside them. So a NO_FINDING over a corpus root can be given for a document that is not in the corpus, exactly
when that document holds a NUL (`ScanBinding.InCorpusExactly`), and for one that the published scanner flags, exactly
when its content holds a NUL (`ScanBinding.UnflaggedExactly`); the scanner reads contents only, so a NUL in the id does not
get past it. `check_decision` recomputes the retrieval and would report such a decision, but `subject_bound` does not
consult it. Both failures need a hash that does not collide on the few strings involved; one exists for every document
(`ScanBinding.TellingApart`). Evidence leaves have the same weakness, which is why the validator refuses NULs
(`EvidenceRoot.LeafDeterminesItem`). The mesh detail is keyed by origin and namespace joined with a slash, so one pair can
overwrite another and the detail can look converged when the verdict is not; `MeshSync.DetailTellsExactly` says for which
origins that is impossible.

The number theory behind the curves is assumed, never proved: a prime modulus (`Residues.Field`), completeness and
associativity of the affine Edwards law (`Edwards.CurveFacts`), and a group of the stated order with lifts of
x-coordinates (`Schnorr.CurveLaws`). Closure of the Edwards law, its neutral element, and that the source's cross-multiplied
test is an equivalence respected by its addition are proved, so the extended points satisfy `DoubleAndAdd.Lawful`.

## Model

| member | source | states |
|---|---|---|
| `Merkle.SplitIsLargestPow2` | examples/scan-subject-binding/check.py:26-27 | the doubling loop's split point is a power of two below n and no larger power of two is below n |
| `Merkle.FindSplit` | examples/scan-subject-binding/check.py:26-27 | the while loop ends at that split point |
| `Merkle.ComputeMth` | examples/scan-subject-binding/check.py:24-28 | the recursive procedure with its own split search computes the tree hash of section 2.1.1 of RFC 9162 |
| `Merkle.LevelKeepsMth` | examples/sequence-integrity-recompute/check_sequence_integrity.py:214-218 | pairing one level up, an odd last node promoted, leaves the recursive tree hash unchanged |
| `Merkle.BottomUpIsMth` | examples/sequence-integrity-recompute/check_sequence_integrity.py:212-219 | for every non-empty list the bottom-up construction equals the recursive split |
| `Merkle.PairUp` | examples/sequence-integrity-recompute/check_sequence_integrity.py:214-218 | one pass of the loop yields exactly the next level |
| `Merkle.BuildRoot` | examples/sequence-integrity-recompute/check_sequence_integrity.py:212-219 | the level loop returns the recursive tree hash of its leaves |
| `Merkle.TwoLeaves` | examples/scan-subject-binding/check.py:22-28 | two leaves hash as the digest of the byte 1, the left and the right digest |
| `Inclusion.BuildTree` | examples/sequence-integrity-recompute/build_sequence_fixture.py:47-58 | the fixture's loop returns the recursive tree hash and every level, leaves first |
| `Inclusion.InclusionProof` | examples/sequence-integrity-recompute/build_sequence_fixture.py:60-69 | the loop over levels lists one step per level that has a sibling, with its side |
| `Inclusion.ApplyInclusion` | examples/sequence-integrity-recompute/check_sequence_integrity.py:249-254 | the loop folds the steps from the leaf upward |
| `Inclusion.PathByLevel` | examples/scan-subject-binding/build.py:28-33 | the recursive path starts with the leaf level's sibling and continues with the path one level up |
| `Inclusion.ProversAgree` | examples/sequence-integrity-recompute/build_sequence_fixture.py:60-69 | for every list and index the level proof lists the siblings of the recursive path and folds to the tree hash |
| `Inclusion.VerifyInclusion` | examples/scan-subject-binding/check.py:32-45 | the (fn, sn) loop, for whatever integers and byte strings the proof carries, accepts exactly when the recursive climb reaches the root |
| `Inclusion.InclusionComplete` | examples/scan-subject-binding/build.py:28-33 | for every list and index the recursively built path is accepted at that index and size |
| `Inclusion.InclusionSound` | examples/scan-subject-binding/check.py:32-45 | an accepted leaf of 32 bytes, or of more than 64, at index i is the list's element i, or a hashed node collides with a node of the tree |
| `Inclusion.PathLength` | examples/scan-subject-binding/check.py:36-45 | an accepted proof has exactly as many siblings as the honest one, whatever its bytes |
| `Inclusion.AcceptsExactly` | examples/scan-subject-binding/check.py:32-45 | a 32-byte leaf and a path are accepted below the size exactly when they are the list's element and its honest path, or a collision is exhibited; an index at or above the size is never accepted |
| `Inclusion.RecutLeafAccepted` | examples/scan-subject-binding/check.py:32-45 | in every tree of two leaves or more, at every index and for every length up to 64, a leaf of that length is accepted while hashing nothing but nodes of the tree |
| `Inclusion.PositionSoundExactly` | examples/scan-subject-binding/check.py:32-45 | in a tree of two leaves or more without collisions of its own, at every index, all accepted leaves of a length are in position or exhibit a collision if and only if the length is 32 or more than 64 |
| `Inclusion.HalfIsShift` | examples/scan-subject-binding/check.py:38-44 | halving and the low bit, as the proofs use them, are the right shift and the remainder by two, for negative numbers too |
| `Inclusion.MembershipSound` | examples/scan-subject-binding/check.py:32-45 | for any claimed index and size an accepted leaf-type hash is the hash of a listed preimage, or a collision is exhibited |
| `Inclusion.RootBinds` | examples/scan-subject-binding/check.py:24-29 | equal roots mean the same ordered list of leaf preimages, also across sizes, or a collision is exhibited |
| `ScanBinding.LeafPreInjective` | examples/scan-subject-binding/check.py:23 | a leaf preimage determines a NUL-free document, and a document among documents whose ids hold no NUL |
| `ScanBinding.LeafDeterminesDoc` | examples/scan-subject-binding/check.py:23 | exactly the NUL-free documents are determined by their leaf preimages |
| `ScanBinding.ProvedIsInCorpus` | examples/scan-subject-binding/check.py:87-90 | a proved leaf is the leaf of a corpus document, or a collision is exhibited |
| `ScanBinding.NoFindingConsumesScanned` | examples/scan-subject-binding/check.py:75-97 | a NO_FINDING over the corpus root: a scanned document that the published scanner does not flag has the consumed document's leaf, and is that document where it is NUL-free or no id holds a NUL; or a collision is exhibited |
| `ScanBinding.FlaggedIsNotConsumed` | examples/scan-subject-binding/check.py:55-97 | no document that the rerun scanner flags, and whose content holds no NUL, is consumed under a reproduced NO_FINDING over a corpus root, or a collision is exhibited; a NUL in its id alone does not get it past the scanner |
| `ScanBinding.NulEscapesCorpus` | examples/scan-subject-binding/check.py:75-97 | for every document with a NUL and every hash that does not collide on the strings involved, a NO_FINDING over a named corpus without that document is given to a decision that consumes it, both declared roots being right |
| `ScanBinding.NulEscapesScanner` | examples/scan-subject-binding/check.py:55-97 | for every document with a NUL in its content there is a pattern that flags it and not that corpus, so that the NO_FINDING is a reproduced one |
| `ScanBinding.InCorpusExactly` | examples/scan-subject-binding/check.py:75-97 | a document consumed under a NO_FINDING over a corpus root is always in that corpus, up to collisions, if and only if it is NUL-free |
| `ScanBinding.UnflaggedExactly` | examples/scan-subject-binding/check.py:55-97 | a document consumed under a reproduced NO_FINDING over a corpus root is never one that the rerun scanner flags, up to collisions, if and only if its content is NUL-free |
| `ScanBinding.NoFindingOfEffective` | examples/scan-subject-binding/check.py:82-83 | a NO_FINDING over the effective digest: the scanned list is the one retrieved document (one with its leaf, if not NUL-free), or a collision is exhibited, and the published scanner does not flag what was retrieved |
| `ScanBinding.HonestDecisionEstablished` | examples/scan-subject-binding/build.py:57-63 | a decision built with the prover's paths is established, unless the published scanner reproduces a finding |
| `ScanBinding.GradeExactly` | examples/scan-subject-binding/check.py:75-97 | REPRODUCED exactly for a finding or none under the published scanner, AUTHENTICATED_REPORT exactly for none under another, no grade exactly without a verdict; NOT_VALID exactly for a scan that is not clean |
| `ScanBinding.EffectiveExactly` | examples/scan-subject-binding/check.py:82-97 | a clean scan of the effective digest is NO_FINDING, or CONTRADICTED exactly when the published scanner was named and its pattern occurs in the lowercased content |
| `ScanBinding.RootExactly` | examples/scan-subject-binding/check.py:84-97 | a scan of another subject establishes something exactly when it is recordwise, names the corpus root that the decision names, and a carried proof of the document's leaf is accepted |
| `ScanBinding.OnlyOneDocument` | examples/scan-subject-binding/check.py:78-81 | without a subject, or with another number of retrieved documents than one, nothing is established |
| `EvidenceRoot.ComputeRoot` | tools/evidence_set_check.py:65-77 | the level loop over sorted leaves returns the canonical root, none for no items |
| `EvidenceRoot.RootOfPermutation` | tools/evidence_set_check.py:61-77 | the root does not depend on the order of the items |
| `EvidenceRoot.LeafPreInjective` | tools/evidence_set_check.py:52-54 | a NUL-free item is determined by its leaf preimage |
| `EvidenceRoot.NulMovesBoundary` | tools/evidence_set_check.py:94-96 | a NUL inside any of the four members gives another item with the same leaf preimage |
| `EvidenceRoot.LeafDeterminesItem` | tools/evidence_set_check.py:52-54 | exactly the NUL-free items are determined by their leaf preimages |
| `EvidenceRoot.RootBindsItems` | tools/evidence_set_check.py:52-77 | equal roots of two lists, one of them NUL-free, mean equal canonically sorted items, whatever the sizes, or a collision is exhibited |
| `EvidenceRoot.CanonicalDeterminesItems` | tools/evidence_set_check.py:61-62 | equal canonical lists mean the same items with the same multiplicities |
| `EvidenceRoot.LeafBytes` | tools/evidence_set_check.py:52-54 | the leaf bytes are the prefix and the four members in order, each after a NUL |
| `EvidenceRoot.NodeBytes` | tools/evidence_set_check.py:57-58 | the node bytes of two leaves are the prefix and the two digests, each after a NUL |
| `EvidenceRoot.ItemLeExactly` | tools/evidence_set_check.py:61-62 | items compare by url, then snippet, kind and time, each by the first differing byte |
| `EvidenceSet.RootIgnoresOrderAndUnpinned` | tools/evidence_set_check.py:65-67 | sets with the same pinned entries have the same root, whatever their order and their unpinned entries |
| `EvidenceSet.CheckEntry` | tools/evidence_set_check.py:80-133 | an entry adds exactly the conditions whose rules it breaks, and returns exactly the members that failed their own check |
| `EvidenceSet.EntryOkIsNoFailure` | tools/evidence_set_check.py:80-133 | an entry is well formed exactly when no condition holds of it, and then no member failed |
| `EvidenceSet.FindRepeat` | tools/evidence_set_check.py:201-206 | a repeat is reported exactly when two entries with readable bound tuples are the same retrieval |
| `EvidenceSet.CheckSet` | tools/evidence_set_check.py:170-206 | the set rules add exactly the conditions that hold, each suppressed when a member it takes as input failed |
| `EvidenceSet.WellFormedIsNoFailure` | tools/evidence_set_check.py:148-213 | a set is well formed exactly when its version is supported and no condition holds of it |
| `EvidenceSet.Validate` | tools/evidence_set_check.py:148-213 | the conditions reported are exactly those that hold, in evaluation order; none exactly for well-formed sets of a supported version, with the derived counts, flag and root; an unsupported version is reported apart |
| `EvidenceSet.LeastIsLeast` | tools/evidence_set_check.py:197-199 | the least retrieval time is one of the entries' times and no entry's is smaller |
| `EvidenceSet.LeastBytewise` | tools/evidence_set_check.py:197-199 | no entry's time stands before the least one at their first differing byte |
| `EvidenceSet.HexIsDigest` | tools/evidence_set_check.py:97-103 | a digest member is well formed exactly when it is the lowercase hexadecimal text of 32 bytes |
| `EvidenceSet.RetrievalsDiffer` | tools/evidence_set_check.py:136-141 | in a well-formed set two entries of one url and time are both pinned, to different contents or kinds |
| `EvidenceSet.FlagAgainstDeclared` | tools/evidence_set_check.py:185-195 | the flag is judged against the declared counts, right or wrong |
| `EvidenceSet.OnePinnedRoot` | tools/evidence_set_check.py:52-77 | with one pinned source the declared root is the digest of the prefix and its four members, each after a NUL |
| `EvidenceSet.BuiltIsWellFormed` | tools/evidence_set_check.py:245-256 | every non-empty list of valid entries without repeats builds a well-formed set |
| `EvidenceSet.Build` | tools/evidence_set_check.py:245-256 | a set is returned exactly for valid entries without repeats, and it is the declared, well-formed one |
| `EvidenceSet.BuiltIsUnique` | tools/evidence_set_check.py:148-256 | a well-formed set that declares everything is the set that building from its sources gives |
| `EvidenceSet.SharedRootBindsItems` | tools/evidence_set_check.py:148-213 | two well-formed sets declaring the same root have the same canonically sorted pinned items, or a collision is exhibited |
| `EvidenceSet.TamperedHalts` | tools/evidence_set_check.py:148-223 | replacing a built set's root, a count, the flag or the least time halts, whatever content is held, exactly when the new value is present and another one |
| `EvidenceSet.ReportItems` | tools/evidence_set_check.py:227-234 | an item matches exactly when it is pinned and its digest is held, and differs exactly when it is pinned and only its url is held |
| `EvidenceSet.Resolve` | tools/evidence_set_check.py:216-242 | halt exactly for a malformed supported payload; resolved exactly when nothing is malformed, the version is supported, every source is pinned and every digest is held; unknown otherwise; the items are reported for a well-formed payload only |
| `EvidenceSet.ResolvedExactly` | tools/evidence_set_check.py:226-238 | resolved exactly for a well-formed set every source of which is pinned to a digest that is held |
| `Acquisition.WalkLog` | examples/procedure-manifest-v003/check.py:84-92 | the log walk succeeds exactly on a numbered, linked, hashed chain, and indexes each hash with its last entry |
| `Acquisition.OrderingTerm` | examples/procedure-manifest-v003/check.py:80-104 | true exactly when an anchor-attested chained log places the dispute before the entry of every valid claim; cannot_establish exactly when the log is not attested or does not hold the dispute and all claims; false otherwise |
| `Acquisition.OneHashPerAttempt` | examples/procedure-manifest-v003/check.py:181-188 | the check passes exactly when no attempt has two valid claims with different hashes |
| `Acquisition.Walk` | examples/procedure-manifest-v003/check.py:195-231 | the loop with its breaks and flags stops at the first claim it may not go past, with that claim's terminals deciding the outcome; it ends without violation at a chosen claim exactly when all claims before the last are attested NO_RESULT and the last has agreeing terminals other than NO_RESULT |
| `Acquisition.WalkDecides` | examples/procedure-manifest-v003/check.py:195-251 | the ordered walk and the order-free predicate on the bag of claims select the same claim and output |
| `Acquisition.Evaluate` | examples/procedure-manifest-v003/check.py:135-260 | the verdict is RESULT for a claim and output exactly when the declarative acquisition predicate holds of them; the state and the four terms are those of the place where the package is refused or the walk stops |
| `Acquisition.TermsDecide` | examples/procedure-manifest-v003/check.py:232-260 | the verdict is RESULT exactly when all four reported terms are true, the state is a terminal result and the last claim's terminals carry an output hash |
| `AcquisitionMeaning.AcquiresExactly` | examples/procedure-manifest-v003/check.py:80-251 | acquiring, read off the records alone: provider-signed claims of the derived run and an allowed attempt, provider-signed terminals, an anchor-signed chained log entering the dispute before every such claim, and the retry, request and scope rules; an equivalence |
| `AcquisitionMeaning.UnsignedIsAuthorized` | examples/procedure-manifest-v003/check.py:158-179 | a package none of whose claims the provider signed stays AUTHORIZED, with a false first term and no result |
| `AcquisitionMeaning.RivalsAreReported` | examples/procedure-manifest-v003/check.py:181-189 | two provider-signed claims of one attempt with different hashes are reported as an equivocation, with no result |
| `Acquisition.EquivocationIncurable` | examples/procedure-manifest-v003/check.py:181-237 | after two valid claims of one attempt with different hashes, or disagreeing attested terminals of a valid claim, no extension of claims and terminals acquires anything |
| `Acquisition.ClaimOrderIrrelevant` | examples/procedure-manifest-v003/check.py:158-163 | reordering the claims of a package never changes what is acquired |
| `Acquisition.DuplicateClaim` | examples/procedure-manifest-v003/check.py:207-221 | in every package, with a valid claim copied exactly the same is acquired as before if the claim is an attested NO_RESULT, and nothing otherwise; a copy never creates a RESULT |
| `Acquisition.FirstTerminalDecides` | examples/procedure-manifest-v003/check.py:191-237 | putting an agreeing attested terminal with another scope first keeps a RESULT if and only if its scope covers the required one |
| `AttemptGuard.Guard.constructor` | examples/smolagents-mutation-after-authorization/decision_record_per_attempt.py:69-75 | a new guard is in the initial state |
| `AttemptGuard.Guard.EnterStep` | examples/smolagents-mutation-after-authorization/decision_record_per_attempt.py:77-79 | a new step takes the state machine's step transition |
| `AttemptGuard.Guard.CurrentHead` | examples/smolagents-mutation-after-authorization/decision_record_per_attempt.py:81-82 | the head is the length of the log and the hash of its last record |
| `AttemptGuard.Guard.DecideCall` | examples/smolagents-mutation-after-authorization/decision_record_per_attempt.py:84-104 | one record per call, allowed exactly when the arguments bind and the policy allows, appended and linked, nothing executed |
| `AttemptGuard.Guard.Guarded` | examples/smolagents-mutation-after-authorization/decision_record_per_attempt.py:106-118 | a call takes the state machine's call transition and dispatches exactly when allowed |
| `AttemptGuard.VerifyChain` | examples/smolagents-mutation-after-authorization/decision_record_per_attempt.py:128-143 | the loop accepts exactly linked logs whose preimages recompute and whose n-th record has the head's hash |
| `AttemptGuard.VerifiesExactly` | examples/smolagents-mutation-after-authorization/decision_record_per_attempt.py:128-143 | a log verifies exactly when the first record names nothing, every other the hash of the one before it, all preimages recompute, and the head's hash is that of its last record |
| `AttemptGuard.ApplyKeeps` | examples/smolagents-mutation-after-authorization/decision_record_per_attempt.py:77-118 | every event keeps the log linked, executions equal to allowed records, and coordinates increasing |
| `AttemptGuard.EveryRun` | examples/smolagents-mutation-after-authorization/decision_record_per_attempt.py:68-118 | the invariant holds after every sequence of events, with exactly one record per attempt |
| `AttemptGuard.RunCounts` | examples/smolagents-mutation-after-authorization/decision_record_per_attempt.py:68-118 | after any events the step, the call index, the length of the log and the executions are the counts of new steps, calls in the step, calls, and calls that bind and are allowed |
| `AttemptGuard.CallRecorded` | examples/smolagents-mutation-after-authorization/decision_record_per_attempt.py:84-104 | every call has its record at its place in the log, with its tool, arguments, caller, policy, step and number, allowed exactly when the arguments bind and the policy allows |
| `AttemptGuard.IdsDistinct` | examples/smolagents-mutation-after-authorization/decision_record_per_attempt.py:84-104 | two records of a run have different attempt ids, or different coordinates with one hash are exhibited |
| `AttemptGuard.LogVerifiesEarlierHeads` | examples/smolagents-mutation-after-authorization/decision_record_per_attempt.py:128-143 | a run's log verifies against its own head and against every head issued earlier in the run |
| `AttemptGuard.HeadBinds` | examples/smolagents-mutation-after-authorization/decision_record_per_attempt.py:81-143 | a presented log that verifies against a head issued by a run agrees with the run's first n records exactly, or two records with one hash are exhibited |
| `SessionChain.Check` | tools/session_chain_check.py:35-81 | empty logs establish nothing; FAIL exactly for entries that do not chain, a head later than the last entry, a head that differs from the entry of its number, or one just before the first entry that it does not attach to; PASS exactly when not FAIL and some head is for a presented entry |
| `SessionChain.WalkEntries` | tools/session_chain_check.py:41-54 | the loop reports no reason exactly when numbers, content hashes, links and heads are consistent |
| `SessionChain.CompareHeads` | tools/session_chain_check.py:57-76 | the comparison fails exactly on a later, differing or detached head and passes exactly with an inside head otherwise |
| `SessionChain.ContradictsExactly` | tools/session_chain_check.py:57-73 | the comparison's own condition is those three, on consecutively numbered entries |
| `SessionChain.ChainAgrees` | tools/session_chain_check.py:41-54 | one agreeing head makes all presented records up to it the ledger's, or a collision is exhibited |
| `SessionChain.PassAgrees` | tools/session_chain_check.py:55-81 | with genuine heads, agreement reaches every inside head and so the newest |
| `SessionChain.CheckAgainstLedger` | tools/session_chain_check.py:35-81 | PASS with heads of one genuine ledger means that no head is later than the last entry, that the segment attaches to the head before it, and that its records are the ledger's up to every inside head |
| `SessionChain.CheckGenuineSlice` | tools/session_chain_check.py:35-81 | a contiguous ledger slice with genuine heads FAILs exactly when some head is later than its end, and otherwise PASSes exactly when some head falls inside it |
| `SessionChain.CheckTruncated` | tools/session_chain_check.py:61-73 | whatever heads are held, one for an entry after the slice's end gives FAIL |
| `CanonicalJson.WriteString` | tools/_rfc8785.py:47-61 | the character loop writes the quoted, escaped string |
| `CanonicalJson.ReadQuoted` | examples/nenrin-cleanroom-verifier/nenrin_cleanroom.py:25-40 | a reader recovers every string, control characters and lone surrogates included, and what follows it |
| `CanonicalJson.ParsePrint` | tools/_rfc8785.py:64-74 | a parser inverts the printer on every nested value and leaves the rest of the text |
| `CanonicalJson.Utf16Injective` | tools/_rfc8785.py:70-73 | the UTF-16 sort key tells keys of Unicode scalar values apart |
| `CanonicalJson.TextDecodes` | tools/_rfc8785.py:64-74 | parsing canonical text gives the value with its members in key order at every depth |
| `CanonicalJson.SameCanon` | tools/_rfc8785.py:70-73 | two values are the same, member order aside, exactly when their canonical forms are equal |
| `CanonicalJson.EqualTextEqualValue` | tools/_rfc8785.py:64-74 | in both dialects, for strings with lone surrogates too, equal canonical text means the same value whatever the key insertion order, and conversely |
| `CanonicalJson.TextInOrder` | tools/_rfc8785.py:70-73 | canonical text is the print of the same value with the keys of every object, at every depth, in increasing order of UTF-16 units or code points |
| `CanonicalJson.CanonInOrder` | examples/nenrin-cleanroom-verifier/nenrin_cleanroom.py:55-58 | in the canonical form each key is a proper prefix of, or smaller at the first difference than, every key after it |
| `CanonicalJson.UnitsExactly` | tools/_rfc8785.py:72 | a code point above 0xFFFF is compared as the high and low surrogate that stand for it |
| `CanonicalJson.WordsWritten` | tools/_rfc8785.py:64-74 | the words, brackets and separators, code point by code point |
| `CanonicalJson.ObjectWritten` | tools/_rfc8785.py:73 | an object is braces, quoted keys, colons, values and commas |
| `CanonicalJson.EscapesWritten` | tools/_rfc8785.py:47-61 | which characters are escaped and how, and that every other is written as itself |
| `CanonicalJson.DigitsCanonical` | tools/_rfc8785.py:12-16 | no integer is written with a leading zero |
| `CanonicalJson.SafeIntegers` | examples/nenrin-cleanroom-verifier/nenrin_cleanroom.py:51-53 | integers have a text exactly within 2^53 - 1 of zero |
| `NumberLayout.LayoutDecodes` | tools/_rfc8785.py:32-44 | a reader recovers digits and point position from each of the four layouts |
| `NumberLayout.LayoutInjective` | tools/_rfc8785.py:32-44 | distinct normalised pairs of digits and point position give distinct texts |
| `NumberLayout.NormalizeKeepsValue` | tools/_rfc8785.py:27-31 | stripping zeros and shifting the point keeps the decimal value |
| `NumberLayout.TextDenotesInput` | tools/_rfc8785.py:20-44 | for every integer part, fraction and exponent of a non-zero number the text denotes exactly that value, with its sign |
| `NumberLayout.ExponentExactly` | tools/_rfc8785.py:32-43 | the exponent form is used exactly for values of 10^21 and above and below 10^-6 |
| `NumberLayout.FormExactly` | tools/_rfc8785.py:32-43 | one non-zero digit before the point in the exponent form, no exponent and no needless leading zero in the others, never a trailing zero in a fraction |
| `NumberLayout.ImplementationsAgree` | examples/work-acceptance-record-cold/war_check.py:132-158 | the two implementations write the same text for every non-zero input |
| `DoubleAndAdd.TimesDouble` | _bip340_nostr.py:63-71 | multiples of a doubled point are even multiples of the point |
| `DoubleAndAdd.Step` | tools/_ed25519.py:38-45 | one loop step moves the low bit into the accumulator and keeps what is owed |
| `DoubleAndAdd.MulWhile` | _bip340_nostr.py:63-71 | the while-k loop is k-fold addition for every k |
| `DoubleAndAdd.MulFixed` | examples/x402-receipt-authorization-commitment/bip340.py:34-40 | the fixed-step loop is addition of the scalar's low bits, so k-fold addition for every scalar that fits |
| `DoubleAndAdd.BothForms` | examples/x402-receipt-authorization-commitment/bip340.py:34-40 | the two loop forms agree for every scalar below two to the number of steps |
| `Schnorr.BytesRoundTrip` | examples/x402-receipt-authorization-commitment/bip340.py:53-58 | reading the big-endian bytes of a number that fits gives the number |
| `Schnorr.BigEndian` | examples/x402-receipt-authorization-commitment/bip340.py:57-58 | the first byte is the most significant |
| `Schnorr.EvenScalarLifts` | examples/x402-receipt-authorization-commitment/bip340.py:61-74 | negating a scalar whose point has odd y gives the point that lifting its x-coordinate gives |
| `Schnorr.RecomputesNoncePoint` | examples/x402-receipt-authorization-commitment/bip340.py:80-93 | s times the generator plus (order - e) times the key is the nonce point, through the reduction of s |
| `Schnorr.SignedVerifies` | examples/x402-receipt-authorization-commitment/bip340.py:61-93 | verification accepts every signature that signing returns, under the signer's public key |
| `Schnorr.SignExactly` | examples/x402-receipt-authorization-commitment/bip340.py:68-81 | signing refuses exactly a key out of range and a zero nonce, and the signature starts with the x of the nonce's point |
| `Schnorr.VerifyExactly` | examples/x402-receipt-authorization-commitment/bip340.py:84-93 | under the key of a secret with even scalar d, r and s are accepted exactly when some nonce below the order has an even point with x equal to r, and s is that nonce plus challenge times d, reduced |
| `Schnorr.OneResponse` | examples/x402-receipt-authorization-commitment/bip340.py:84-93 | for one key, message and r at most one s is accepted |
| `Schnorr.RunVerify` | examples/x402-receipt-authorization-commitment/bip340.py:84-93 | the verifier as it is run, on fixed-step multiplication loops, decides that acceptance predicate |
| `Schnorr.RunEventVerify` | _bip340_nostr.py:85-101 | the verifier for event ids, on while-k loops, decides the same predicate on 32-byte messages and refuses all others |
| `Schnorr.ReduceIsRemainder` | examples/x402-receipt-authorization-commitment/bip340.py:75-81 | reduction by repeated subtraction, as the proofs use it, is the remainder |
| `Edwards.SumKeepsProduct` | tools/_ed25519.py:28-35 | the sum of any two coordinate quadruples satisfies X*Y = Z*T modulo p |
| `Edwards.SumDefined` | tools/_ed25519.py:28-35 | the sum's third coordinate is non-zero exactly when both affine denominators are |
| `Edwards.AddRepresentsSum` | tools/_ed25519.py:28-35 | where both denominators are non-zero the sum represents the affine twisted-Edwards sum |
| `Edwards.EqIsAffineEquality` | tools/_ed25519.py:48-49 | for non-zero third coordinates the cross-multiplied test is equality of the affine points |
| `Edwards.SumOnCurve` | tools/_ed25519.py:28-35 | the affine sum of two curve points is a curve point |
| `Edwards.AddOfPoints` | tools/_ed25519.py:28-35 | addition maps extended curve points to an extended curve point for the affine sum |
| `Edwards.PointsLawful` | tools/_ed25519.py:28-49 | extended points with the source's addition and equality obey the group laws the loops need |
| `Edwards.Mul` | tools/_ed25519.py:38-45 | the loop over extended coordinates represents the k-fold affine sum |
| `Nenrin.Report.constructor` | examples/nenrin-cleanroom-verifier/nenrin_cleanroom.py:269-270 | a new report has no refusal and no finding |
| `Nenrin.Report.Refuse` | examples/nenrin-cleanroom-verifier/nenrin_cleanroom.py:272-274 | one refusal is appended, findings stay |
| `Nenrin.Report.Find` | examples/nenrin-cleanroom-verifier/nenrin_cleanroom.py:276-277 | one finding is appended, refusals stay |
| `NenrinAcceptance.PairPassesExactly` | examples/nenrin-cleanroom-verifier/nenrin_cleanroom.py:301-318 | a receipt or intent passes exactly when it and the grant carry their own ids and sound bindings, it names the grant, is the named provider's, lies inside the window, and its action is the granted one value for value |
| `Nenrin.Deduplicate` | examples/nenrin-cleanroom-verifier/nenrin_cleanroom.py:333-344 | keeps the first record of each canonical text and every record without one |
| `NenrinAcceptance.DistinctCovers` | examples/nenrin-cleanroom-verifier/nenrin_cleanroom.py:333-344 | every candidate receipt is kept or has the text of a kept one, and the first candidate is the primary |
| `Nenrin.InitialSegment` | examples/nenrin-cleanroom-verifier/nenrin_cleanroom.py:378-380 | comparing the sorted distinct numbers with a range is the test that every number above zero has its predecessor |
| `Nenrin.CheckChain` | examples/nenrin-cleanroom-verifier/nenrin_cleanroom.py:373-391 | broken exactly when a number is missing, a gap exists, a root names a predecessor, or a link names no id one step earlier |
| `Nenrin.CheckWitnesses` | examples/nenrin-cleanroom-verifier/nenrin_cleanroom.py:392-399 | disagreement is reported exactly when two observations of one position report different verdicts |
| `Nenrin.Reconcile` | examples/nenrin-cleanroom-verifier/nenrin_cleanroom.py:421-434 | lists one authentic receipt per distinct receipt id, the first authentic receipt first |
| `Nenrin.Step0` | examples/nenrin-cleanroom-verifier/nenrin_cleanroom.py:346-353 | adds exactly the identity refusals whose conditions hold |
| `Nenrin.Step1` | examples/nenrin-cleanroom-verifier/nenrin_cleanroom.py:355-399 | adds exactly the delegation refusals and findings whose conditions hold |
| `Nenrin.Step2` | examples/nenrin-cleanroom-verifier/nenrin_cleanroom.py:401-434 | adds exactly the execution refusals and findings whose conditions hold, and returns the reconciled receipt |
| `Nenrin.Verify` | examples/nenrin-cleanroom-verifier/nenrin_cleanroom.py:321-486 | the codes and findings reported are exactly those whose declarative conditions hold; accepted exactly when no code's condition holds |
| `NenrinMeaning.ReadExactly` | examples/nenrin-cleanroom-verifier/nenrin_cleanroom.py:321-344 | signatures count unless switched off by false, slots and lists are read from their own members, and what makes a bundle malformed |
| `NenrinMeaning.EqualIsSame` | examples/nenrin-cleanroom-verifier/nenrin_cleanroom.py:304-313 | the equality used on members is sameness of values, truth values counted as integers |
| `NenrinMeaning.RootedExactly` | examples/nenrin-cleanroom-verifier/nenrin_cleanroom.py:373-391 | the chain test passes exactly when every observation has a linked path from a root |
| `NenrinMeaning.AcceptedExactly` | examples/nenrin-cleanroom-verifier/nenrin_cleanroom.py:321-486 | the procedure accepts exactly the bundles, read off their records alone, with one task throughout, independently witnessed, signed and rooted observations, a grant signed by its caller and executed by the provider it names, evidence and links in order, and an intent that fulfils the grant |
| `NenrinMeaning.AcceptedTask` | examples/nenrin-cleanroom-verifier/nenrin_cleanroom.py:346-353 | in an accepted bundle the task is a non-empty string that every observation, receipt, non-empty grant and non-empty intent carries |
| `NenrinMeaning.SeqExactly` | examples/nenrin-cleanroom-verifier/nenrin_cleanroom.py:374-377 | a sequence number is an integer member of a hop that is an object; a truth value is none |
| `NenrinMeaning.DisagreementExactly` | examples/nenrin-cleanroom-verifier/nenrin_cleanroom.py:392-399 | disagreement is found exactly when two observations of one position report different verdicts |
| `NenrinMeaning.AuthorityExactly` | examples/nenrin-cleanroom-verifier/nenrin_cleanroom.py:314-316 | an open grant, and a grant to the caller itself, are found exactly through a first receipt or an intent that is bound to it, by its provider and in its window |
| `NenrinAcceptance.AcceptedExecution` | examples/nenrin-cleanroom-verifier/nenrin_cleanroom.py:401-434 | acceptance with a grant means a named provider, the primary receipt reconciled, and one id among all authentic receipts |
| `NenrinAcceptance.OneIdOneContent` | examples/nenrin-cleanroom-verifier/nenrin_cleanroom.py:203-213 | receipts recomputing to one id have one preimage text, or two texts with one digest are exhibited |
| `NenrinAcceptance.SameTextAuthentic` | examples/nenrin-cleanroom-verifier/nenrin_cleanroom.py:339-343 | a receipt with the canonical text of an authentic one is authentic under the same id, so dropping duplicates drops no evidence |
| `NenrinAcceptance.AcceptedGrant` | examples/nenrin-cleanroom-verifier/nenrin_cleanroom.py:301-434 | an accepted bundle with a grant: provider named, the reconciled receipt is the first the bundle carries, it fulfils the grant, caller and provider signed over the preimages where signatures count, and every authentic receipt the bundle carries, kept or dropped, has its id and content |
| `NenrinAcceptance.AcceptedIntent` | examples/nenrin-cleanroom-verifier/nenrin_cleanroom.py:436-463 | an accepted bundle with an intent has a grant that the intent fulfils, the declared action is the executed one value for value, and no divergence is ever found |
| `NenrinAcceptance.AcceptedEvidence` | examples/nenrin-cleanroom-verifier/nenrin_cleanroom.py:465-477 | in an accepted bundle with a grant the primary receipt's evidence is absent or of a known form, and exactly one of the two evidence findings is reported |
| `NenrinAcceptance.AcceptedLinks` | examples/nenrin-cleanroom-verifier/nenrin_cleanroom.py:479-485 | in an accepted bundle with a grant every observation that links to a receipt links to the id the primary receipt carries |
| `NenrinAcceptance.DelegationPath` | examples/nenrin-cleanroom-verifier/nenrin_cleanroom.py:373-391 | in an unbroken chain every observation at sequence s ends a linked path of s + 1 observations from a root |
| `NenrinAcceptance.AcceptedDelegation` | examples/nenrin-cleanroom-verifier/nenrin_cleanroom.py:355-391 | in an accepted bundle every observation has such a path and every observation recomputes and is independently witnessed and signed as required |
| `MeshSync.EndUnique` | examples/erc8309-mesh-sync/check_mesh_sync.py:24-37 | a cursor chain ends after one number of pages only |
| `MeshSync.LoopNeverEnds` | examples/erc8309-mesh-sync/check_mesh_sync.py:28-29 | a chain that returns to a token never ends, however far it is followed |
| `MeshSync.Enumerate` | examples/erc8309-mesh-sync/check_mesh_sync.py:24-37 | terminates; COMPLETE exactly when the cursor chain ends, with all pages' records in order; ERROR only for a chain that returns or dangles |
| `MeshSync.CheckNode` | examples/erc8309-mesh-sync/check_mesh_sync.py:52-60 | nothing is missing exactly when the namespace is served, enumerable and covers what was produced; otherwise the reason and count are right |
| `MeshSync.CheckNamespace` | examples/erc8309-mesh-sync/check_mesh_sync.py:51-61 | the report names exactly the nodes that fall short, each with its reason |
| `MeshSync.PerOrigin` | examples/erc8309-mesh-sync/check_mesh_sync.py:46-63 | CONVERGED exactly when every node holds every origin's records in every namespace; each key carries the report of its last pair |
| `MeshSync.DetailDecides` | examples/erc8309-mesh-sync/check_mesh_sync.py:61-63 | the detail is converged everywhere exactly when every pair that is the last of its key is held, and convergence always shows |
| `MeshSync.KeyOverwritten` | examples/erc8309-mesh-sync/check_mesh_sync.py:61 | two origins whose pairs share the key a/b/c: every detail entry is converged while the verdict is not |
| `MeshSync.DetailTellsExactly` | examples/erc8309-mesh-sync/check_mesh_sync.py:61-63 | whatever the nodes serve, the detail is converged everywhere exactly when the verdict is CONVERGED, if and only if the namespace and records of every overwritten pair also stand in pairs that are the last of their keys |
| `MeshSync.DistinctKeysCovered` | examples/erc8309-mesh-sync/check_mesh_sync.py:61 | that condition holds wherever no two pairs share a key |

## Left out

- Network, chain, relay and file access, command lines, vector builders and runners, mutants and `DISABLED` switches.
- SHA-256, SHA-512, keccak, base64, base58 key decoding and X.509: opaque functions or not part of this model.
- The checkers `verifier.py` and `mandate_check.py`, resolution-payment pairs, trace manifests and crosswalks: ladders of independent branches, not modelled.
- The `invinoveritas-admission-chain-v1` profile of `evaluate` and submission commitments: that profile never reaches RESULT.
- Primality, square roots in `_lift_x`, completeness and associativity of the curve laws, and the affine formulas inside `bip340.py:_add`: assumptions on an abstract field and group. Point decoding and encoding in `tools/_ed25519.py` are not modelled.
- Integers of magnitude 2^53 and above and non-integer numbers inside JSON values: the RFC 8785 printer collapses them to doubles, so injectivity is stated for safe integers. The shortest-digits text of a double is the input of `NumberLayout`.
- UTF-8 encoding of canonical text: texts are compared as code points. The `sha256:` prefix and hexadecimal spelling of digests are dropped, digests are bytes or opaque text.
- Records with members missing or of a type that makes the Python code raise: such inputs have no verdict in the source. In the delegation chain a predecessor id that is not a string makes the source raise where it cannot be looked up; the model refuses it.
- The text of reasons in reports: codes, findings, states, terms and verdicts are modelled, `Nenrin` and `Acquisition` keep no reasons list.
- Unicode lowercasing in the published scanner is a function that maps the empty text to itself and does not reach across a NUL (`ScanBinding.Folds`); lowercasing of ASCII letters is one (`ScanBinding.AsciiLowerFolds`).
- Calendar reading of timestamps: `Nenrin` and `EvidenceSet` take the reading, or the form test, as a function.
- Member names and fixed words of NENRIN records are a parameter (`World.spell`); no result depends on their spelling.
- A stateful guard policy: its answer arrives with the event. Heads with a negative length are not modelled.
- A mesh cursor that names the table's own `start` key, which makes the source raise; rule R3 (declared and signed fields) and the totals comparison of the mesh checker.
