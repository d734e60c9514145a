# T-Trace lineage, handoff and receipt checks: a verified model

This project models the verification logic of T-Trace and its OpenPoC experiments: compact append-only proofs over a
duplicate-last Merkle tree, the rolling chains of reconciliation cycles and of witness-policy handoffs, witness quorums
and equivocation, and the stream verifiers for traces, receipts, cross-source evidence, artifact handoffs and the effect
gate. It proves what those checks establish, over every input and every run.

Run `dafny verify dfyconfig.toml` to check everything.

## How the model is built

- **Digests are free.** `Records.DigestOf` has one constructor per kind of hashed record, and `MerkleTree.Hash` has leaf
  and node constructors, so digests are collision-free; `Zero`, `Foreign`, `ZeroHash` and `Other` stand for the all-zero
  digest and for digests that belong to no modelled record. Nothing is assumed about digests a caller supplies.
- **JSON objects are typed records.** Fields that every check compares with one fixed constant (schema names, fixed
  statuses) are dropped. Checks that only guard the dynamic shape of a value are vacuous on typed records.
- **Errors are values.** A raised `ValueError` or a decision with a reason is an `Err` or `Some(fault)` with one
  constructor per reason, in the order the code tests them. Where a theorem says that a branch is dead, the branch is
  still in the model.
- **The Merkle and frontier algorithms are modelled once**, over any commitment type, with a flag `strict` for the
  handoff profile, whose copies also refuse the all-zero digest.
- **Loops stay loops.** Code that updates variables is a method, tied by its postcondition to a specification function;
  the theorems are lemmas about that function. The effect gate's objects are classes.
- Reconciliation orders branch tips by a string comparison of digests; the model takes that order as a parameter `lt`
  and asks only that it is trichotomous. The raw-evidence substring search of a compaction step is a parameter
  `leaks`.

## Map of the files

| file | content |
|---|---|
| `Bits.dfy` | powers of two, `bit_length`, `n & -n`, `n & (n - 1)` by halving |
| `MerkleTree.dfy` | levels, roots, paths; what an accepted path and a root commit to |
| `BlockShapes.dfy` | the peaks of a prefix and the dyadic cover of a suffix |
| `Frontier.dfy` | subtree roots, bagging, cascading appends; append-only soundness and completeness |
| `Records.dfy` | all records and their digests |
| `PortableCausality.dfy` | two-branch reconciliation |
| `LineageCompaction.dfy`, `LineageMembership.dfy`, `LineageConsistency.dfy` | accumulator runs, history anchors and disclosure, consistency between anchors, authority statements |
| `AuthorityLogs.dfy` | whole logs of statements by one authority, and which pairs out of two logs are reported |
| `WitnessSets.dfy`, `LineageWitness.dfy`, `WitnessHandoff.dfy` | quorum arithmetic, witness quorums, dual-quorum policy handoff |
| `Countersigning.dfy`, `SelfForks.dfy` | packages any quorum can sign, over any policy; which double signers are forced to fork their own logs |
| `HandoffChain.dfy`, `HandoffMembership.dfy`, `HandoffConsistency.dfy` | the chain of handoffs, its anchors, disclosure and consistency |
| `TraceValidation.dfy` | the one-pass trace validator, over Python's times: finite, infinite and NaN |
| `SortedKeys.dfy`, `CanonicalJson.dfy`, `ReceiptBytes.dfy`, `ReceiptLogs.dfy` | canonical bytes, signed receipts, hash-linked logs |
| `CrossSource.dfy`, `ArtifactHandoff.dfy` | cross-source reconciliation and the artifact-handoff verdict built on it |
| `EffectGate.dfy` | recorder, store, gate and bypassable runtime |
| `SampleRuns.dfy`, `SampleChains.dfy`, `SampleForks.dfy` | concrete runs, packages, witnessed successors, splits, chains and forks: the theorems about accepted inputs are not vacuous |

## Findings

- **Suffix block sizes need not have one strict peak.** Extending 4 leaves to 12 gives blocks of sizes 4 and 4
  (`SuffixSizesMayRepeat`). The sizes always grow strictly and then shrink strictly. With h the highest bit in which m
  and n differ, they have one strict peak unless m and n both have bits below h and `h - m % h` has the bit length of
  `n % h` (`StrictPeakExact`).
- **A `NaN` time hides a step back.** `json.loads` accepts `NaN`, and every comparison with it is false, so times 5, NaN
  and 3 on one thread pass (`CleanButNotMonotone`). An error-free pass means that no record is earlier than its direct
  predecessor on the thread (`NoErrorsExactlyWhenClean`); without NaN times that is monotonicity over all pairs
  (`CleanWithoutNaN`), and that guard is exact (`NaNGuardExact`).
- **A direct `finalize` can break conservation.** `recorder` is a public field of the runtime. `FinalizeExact` gives the
  condition on one call, `ConservationExact` on whole runs.
- **Consistent lineage anchors need not share accumulators.** Neither the cycle commitments nor the anchor fields that
  the verifier compares cover the accumulator contract, so a newer history can repeat every state and reconciliation
  of an older one under another contract, and a package between the two is accepted (`ContractsMayDiffer`).
  `AcceptedHistoriesExtend` has the exact condition. In the handoff profile acceptance always reaches the older tip
  (`AcceptedHandoffHistoriesExtend`).
- **Twin statements can hide a fork.** A same-sequence conflict needs equal predecessors and different anchors. An
  authority that signs two statements about one anchor, with different provenance, can extend each of them
  differently, and as long as no tree size is published twice with different roots no pair of statements is reported
  (`TwinsAreNeverReported`, in both profiles). `SplitLogsAreDetected`, `SplitLogsAreAttributed` and
  `SplitHandoffLogsAreDetected` give the exact condition over whole logs.
- **A lineage disclosure does not bind the whole disclosed accumulator.** `AccumulatorBindingExact` gives the exact
  bound part: index, state, reconciliation and cycle commitment. The predecessor digests, the identity, the epoch and
  the contracts of a disclosed accumulator can be replaced by any others that make it valid (`PredecessorIsNotBound`).
  The profile's section 4 (`spec/lineage-membership-profile-v0.1.md`) asks the producer of an anchor to check the
  predecessor links, and the verifier of a disclosure has no access to them. The handoff profile binds the complete
  record (`HandoffDisclosureBinds`).
- **Not every double signer forks its own log.** The continuity checks cover a witness only if it also signed the
  package before. Such a witness who signs both sides of a split must use one sequence number and one predecessor
  twice. A newcomer may, and need not (`SigningBeforeForcesTheFork`, `SigningActiveForcesTheFork`). The number of
  witnesses that are forced is at least max(0, 3t - 2n) and can be exactly that, for every policy
  (`RepeatSignerBoundIsTight`, `RepeatRotatorBoundIsTight`).
- **The genesis of a handoff chain does not pin the lineage view.** Chains of one genesis can part at their first
  package over different producer statements. There is no ref to fork there, and the rotation detector refuses to
  compare the two (`FirstPackagesPartUnseen`). Parting anywhere later is a detected fork (`ChainsNestOrPart`).
- **Dead checks.** The self-checks of the reconciliation, accumulator, anchor, chain, statement, disclosure and
  consistency builders, the quorum-intersection branches of the witness and handoff verifiers, the start, alignment and
  frontier-shape errors of the frontier fold, the closing test of a Merkle path, and the boundary-ref check of the
  handoff consistency builder can never fail once the tests before them have passed.
- **An unauthorised receipt withholds support.** `VerdictExact`: if any supplied receipt lacks historical authority, the
  artifact-handoff verdict is insufficient evidence, whatever the other receipts say, unless a claim is violated.

## Model

| member | source | states |
|---|---|---|
| `Bits.AndNegateIsLowBit` | ttrace/lineage_consistency_core.py:348-352 | `cursor & -cursor` is the largest power of two dividing the cursor, for every positive cursor |
| `Bits.AndPredecessorIsPow2` | ttrace/lineage_consistency_core.py:170-171 | the test `n & (n - 1) == 0` holds exactly for the powers of two |
| `Bits.BitLengthShift` | ttrace/lineage_consistency_core.py:325 | `1 << (n.bit_length() - 1)` is the largest power of two at most n |
| `Bits.AlignedIsMod` | ttrace/lineage_consistency_core.py:302 | the `%` alignment test agrees with alignment by halving |
| `MerkleTree.BuildNextLevel` | ttrace/lineage_membership.py:368-374 | the pairing loop yields the parents of one level, an odd last node paired with itself |
| `MerkleTree.MerkleRoot` | ttrace/lineage_membership.py:377-383 | the level loop fails exactly on an empty or inadmissible leaf list and otherwise returns the duplicate-last root |
| `MerkleTree.MerklePath` | ttrace/lineage_membership.py:386-404 | the path loop fails exactly on an index out of range and otherwise returns the siblings from leaf to root |
| `MerkleTree.ExpectedPathLength` | ttrace/lineage_membership.py:407-415 | the halving loop counts the levels above the leaves |
| `MerkleTree.VerifyMerklePath` | ttrace/lineage_membership.py:418-461 | the verifying loop accepts exactly when every entry fits and the climb ends in the root |
| `MerkleTree.PathSound` | ttrace/lineage_membership.py:418-461 | an accepted leaf is the leaf of the list at that index, and the path is the only one |
| `MerkleTree.PathClimbs` | ttrace/lineage_membership.py:386-404 | every built path has the expected length and climbs to the root |
| `MerkleTree.PathExact` | ttrace/lineage_membership.py:386-461 | verification accepts a triple of leaf, index and path if and only if it is the real one |
| `MerkleTree.PathLengthIsCeilLog` | ttrace/lineage_membership.py:407-415 | the expected length is the least k with n at most 2^k |
| `MerkleTree.ClosingTestImplied` | ttrace/lineage_membership.py:461 | the test `width == 1 and index == 0` is implied by the length and index tests before the loop |
| `MerkleTree.RootInjectiveSameSize` | ttrace/lineage_membership.py:377-383 | for a fixed size the root determines every leaf |
| `MerkleTree.RightmostOfRoot` | ttrace/lineage_membership.py:368-383 | the rightmost leaf of a duplicate-last root is the last leaf |
| `MerkleTree.RootDeterminesHistory` | ttrace/lineage_membership.py:342-383 | equal roots of indexed leaves force equal lengths and equal commitment lists |
| `MerkleTree.LastPathPinsSize` | ttrace/lineage_membership.py:705-721 | an accepted path for "the last of n" pins n and the last commitment, whatever n is claimed |
| `MerkleTree.ClimbInjective` | ttrace/lineage_membership.py:418-461 | against any digest, real root or not, one index and width has at most one accepted leaf and path |
| `MerkleTree.RootIsDup` | ttrace/lineage_membership.py:377-383 | the level-by-level root is the top-down node over the padded width |
| `BlockShapes.PrefixBlockShapes` | ttrace/lineage_consistency_core.py:318-329 | the loop from the highest bit finds the peaks that the lowest-bit recursion describes |
| `BlockShapes.PrefixShapesExact` | ttrace/lineage_consistency_core.py:318-329 | peaks tile [0, n), shrink strictly, and there is one per set bit of n |
| `BlockShapes.SuffixBlockSize` | ttrace/lineage_consistency_core.py:342-354 | the inner loop's size, from the lowest bit and repeated halving |
| `BlockShapes.SuffixBlockShapes` | ttrace/lineage_consistency_core.py:332-357 | the outer loop terminates and fails exactly on an empty or negative range |
| `BlockShapes.SuffixTiles` | ttrace/lineage_consistency_core.py:332-357 | suffix blocks tile [m, n) with powers of two that divide their start |
| `BlockShapes.SuffixShapesExact` | ttrace/lineage_consistency_core.py:332-357 | sizes grow strictly and then shrink strictly, so there are at most two blocks per bit of n - m |
| `BlockShapes.SuffixSizesMayRepeat` | ttrace/lineage_consistency_core.py:332-357 | from 4 to 12 leaves the two phases meet in two blocks of size 4 |
| `BlockShapes.MostAlignedExact` | ttrace/lineage_consistency_core.py:342-354 | with h the highest bit in which m and n differ, exactly one number in [m, n] has the greatest lowest set bit: m when m has no bits below h, else n with its bits below h cleared |
| `BlockShapes.PivotIsMostAligned` | ttrace/lineage_consistency_core.py:332-357 | the size loop stops growing at exactly that number |
| `BlockShapes.StrictPeakExact` | ttrace/lineage_consistency_core.py:332-357 | the sizes have one strict peak if and only if not (m and n both have bits below h, and h - m mod h has the same bit length as n mod h), for every 0 < m < n |
| `Frontier.SubtreeRootExact` | ttrace/lineage_consistency_core.py:294-315 | on every input: the range error exactly outside the aligned power-of-two ranges of the list, the leaf error exactly on inadmissible leaves inside them, and otherwise the tree's own node |
| `Frontier.BuildBlocksExact` | ttrace/lineage_consistency_core.py:360-371 | blocks built for tiling shapes are the tree's own nodes |
| `Frontier.BagFrontierToMembershipRoot` | ttrace/lineage_consistency_core.py:400-420 | the bagging loop computes the recursive bag, with its shape errors |
| `Frontier.BagIsRoot` | ttrace/lineage_consistency_core.py:400-420 | bagging the peaks of any nonempty list gives its level-by-level root and never fails |
| `Frontier.BagInjective` | ttrace/lineage_consistency_core.py:400-420 | for fixed shapes, equal bags come from equal frontiers |
| `Frontier.AppendBlockInPlace` | ttrace/lineage_consistency_core.py:423-454 | the cascading merge loop computes the recursive append, with its start and alignment errors |
| `Frontier.AppendReachesPeaks` | ttrace/lineage_consistency_core.py:730-739 | folding the suffix blocks onto the peaks of m leaves gives exactly the peaks of n leaves, in shapes and digests |
| `Frontier.AppendAllInjective` | ttrace/lineage_consistency_core.py:423-454 | equal results of two folds of the same shapes force equal frontiers and equal appended blocks |
| `Frontier.PrefixShapesBag` | ttrace/lineage_consistency_core.py:400-420 | a frontier of prefix shapes always bags, whatever its digests |
| `Frontier.ShapesSuffice` | ttrace/lineage_consistency_core.py:724-740 | once both shape tests pass, the start, alignment and new-frontier errors cannot occur, for any digests |
| `Frontier.FoldAppendBlocks` | ttrace/lineage_consistency_core.py:730-735 | the fold loop over the appended blocks |
| `Frontier.CheckFrontier` | ttrace/lineage_consistency_core.py:713-744 | the verifier's frontier section, with its error order |
| `Frontier.AppendOnlySound` | ttrace/lineage_consistency_core.py:641-799 | acceptance against two real roots makes the old leaf list a prefix of the new one and fixes the frontier and the blocks |
| `Frontier.AppendOnlyComplete` | ttrace/lineage_consistency_core.py:550-626 | for a proper prefix the built frontier and blocks exist and are accepted |
| `Frontier.AppendOnlyExact` | ttrace/lineage_consistency_core.py:550-799 | a proof exists if and only if the old list is a prefix of the new one |
| `Frontier.FrontierIsUnique` | ttrace/lineage_consistency_core.py:713-744 | between any two digests, real roots or not, a pair of sizes has at most one accepted frontier and list of appended blocks |
| `PortableCausality.SelfChecksNeverFail` | ttrace/portable_causality.py:388-579 | the final self-check, the tip self-check and the duplicate tests never fire, and every agreement passes the independent validator |
| `PortableCausality.AssembledIsValid` | ttrace/portable_causality.py:582-751 | checked branches and votes assemble into an agreement the validator accepts |
| `PortableCausality.ReconciliationIsCanonical` | ttrace/portable_causality.py:388-579 | permuting branches or votes changes neither acceptance nor any field of an accepted agreement |
| `LineageCompaction.CommitmentBinds` | ttrace/lineage_compaction.py:99-139 | a cycle commitment determines index, common state and the whole agreement |
| `LineageCompaction.AdvanceSelfCheckNeverFails` | ttrace/lineage_compaction.py:472-557 | an advance fails for its caller's reasons only: its own validation and accumulator checks are dead |
| `LineageCompaction.StepIsWellBuilt` | ttrace/lineage_compaction.py:417-557 | one accepted step keeps a record well built and linked to its predecessor |
| `LineageCompaction.AgreementMovesTwoEpochs` | ttrace/lineage_compaction.py:199-253 | every cycle ends two epochs after its common state and keeps its identity |
| `LineageCompaction.RunInvariant` | ttrace/lineage_compaction.py:330-557 | after k cycles of any run the count is k, the epoch has moved by 2k, and each cycle starts where the last one ended |
| `LineageMembership.ValidateCycleChain` | ttrace/lineage_membership.py:312-339 | the loop accepts exactly the complete histories of the tip and otherwise reports the first faulty record |
| `LineageMembership.RunsAreValidHistories` | ttrace/lineage_membership.py:216-339 | every seed/advance run passes the chain validation |
| `LineageMembership.TipDeterminesHistory` | ttrace/lineage_membership.py:216-339 | two histories with one tip are equal |
| `LineageMembership.BuildAnchor` | ttrace/lineage_membership.py:498-535 | an anchor is built exactly for valid contracts and a valid history |
| `LineageMembership.AnchorIsValid` | ttrace/lineage_membership.py:464-535 | the anchor self-check never fires |
| `LineageMembership.DisclosureBinds` | ttrace/lineage_membership.py:605-741 | against a real history an accepted disclosure carries that history's common state and reconciliation at its index |
| `LineageMembership.DisclosureIsUnique` | ttrace/lineage_membership.py:605-741 | two accepted disclosures at one index of one anchor, real or not, agree on the tip, the whole proof and the whole cycle, and differ at most in the unbound part of the disclosed accumulator |
| `LineageMembership.BuiltDisclosureVerifies` | ttrace/lineage_membership.py:548-602 | the disclosure built for any index of a real history is accepted |
| `LineageMembership.PredecessorIsNotBound` | ttrace/lineage_membership.py:664-687 | predecessor digests of a disclosed accumulator can be replaced without being noticed |
| `LineageMembership.AccumulatorBindingExact` | ttrace/lineage_membership.py:664-687 | a replaced accumulator is accepted if and only if it is valid and agrees on the four bound fields |
| `LineageConsistency.ConsistencySound` | ttrace/lineage_consistency_core.py:641-799 | an accepted package makes the old commitment list a proper prefix of the new one, without trusting the claimed sizes |
| `LineageConsistency.BuildConsistencyPackage` | ttrace/lineage_consistency_core.py:550-626 | the builder succeeds exactly for two valid histories with a proper commitment prefix, and its result verifies |
| `LineageConsistency.BuiltPackageVerifies` | ttrace/lineage_consistency_core.py:605-626 | every package assembled that way is accepted, including the context and epoch checks |
| `LineageConsistency.ConsistencyExact` | ttrace/lineage_consistency_core.py:550-799 | between the anchors of two real histories an accepted package exists if and only if the older commitments are a proper prefix of the newer ones |
| `LineageConsistency.ConsistencyProofIsUnique` | ttrace/lineage_consistency_core.py:641-799 | between any two anchors, real or not, there is at most one accepted package |
| `LineageConsistency.AcceptedHistoriesExtend` | ttrace/lineage_consistency_core.py:641-799 | for two real histories acceptance means the newer one repeats every state and reconciliation of the older one; it repeats the records, and so passes through the older tip, if and only if the two seeds agree on accumulator and authorisation contract |
| `LineageConsistency.PackagesCompose` | ttrace/lineage_consistency_core.py:641-799 | over any sequence of accepted packages the first committed list is a prefix of every later one |
| `LineageConsistency.SplitSuccessorsAreDetected` | ttrace/lineage_consistency.py:204-372 | two accepted successors of one statement are reported as a same-sequence conflict exactly when their anchors differ |
| `AuthorityLogs.OneLogNeverConflicts` | ttrace/lineage_consistency.py:270-330 | two statements of one log of accepted successors are never reported against each other |
| `AuthorityLogs.SplitDetectionExact` | ttrace/lineage_consistency.py:270-330 | two logs that part at index d contain a reported pair if and only if the entries at d name different anchors or the logs later reach one tree size with different roots |
| `LineageConsistency.SplitLogsAreDetected` | ttrace/lineage_consistency.py:204-372 | the same for whole logs of accepted authorised packages; with equal anchors at d the two statements there are twins that differ in provenance alone |
| `LineageConsistency.SeededLogsNestOrSplit` | ttrace/lineage_consistency.py:204-372 | two comparable logs from sequence 1 either part at some index, or one extends the other and no pair is reported |
| `WitnessSets.OrderedListingUnique` | ttrace/lineage_witness.py:562-564 | a set of names has one ordered listing without repetition |
| `SortedKeys.OverlapIsSorted` | ttrace/lineage_witness.py:562-564 | for an ordered list without repetition the overlap is `sorted(set(a) & set(b))` |
| `WitnessSets.QuorumsIntersect` | ttrace/lineage_witness.py:247-252 | two quorums of one electorate share at least the excess of their sizes over it |
| `WitnessSets.ThreeQuorumsIntersect` | ttrace/lineage_witness.py:247-252 | three quorums of one electorate share at least the excess of their sizes over twice the electorate |
| `WitnessSets.ThreeQuorumsMayMeetExactly` | ttrace/lineage_witness.py:247-252 | for every electorate and majority threshold some three quorums share no more than that |
| `LineageWitness.AcceptedQuorumsIntersect` | ttrace/lineage_witness.py:470-524 | two accepted packages under one policy share at least 2t - n, which is at least one, witnesses |
| `LineageWitness.WitnessedIntersectionNeverFails` | ttrace/lineage_witness.py:536-598 | the intersection-insufficient branch of witnessed consistency is unreachable |
| `LineageWitness.SplitDetectionIsTotal` | ttrace/lineage_witness.py:601-690 | for two accepted packages under one policy the detector always reaches a verdict, and it is a split exactly on conflicting statements |
| `LineageWitness.DoubleSignersAreReal` | ttrace/lineage_witness.py:601-690 | each split names at least 2t - n distinct authorised witnesses, each with two different observations from the packages |
| `LineageWitness.SplitSuccessorsAreAttributed` | ttrace/lineage_witness.py:536-690 | two witnessed successors of one old package bind one anchor or are detected as a split |
| `SelfForks.RepeatSignersForkTheirLogs` | ttrace/lineage_witness.py:536-690 | in a split from one old package, every double signer who also signed the old package holds two different observations with one sequence number and one predecessor, and there are at least 3t - 2n of them |
| `SelfForks.SigningBeforeForcesTheFork` | ttrace/lineage_witness.py:536-690 | for every accepted package, any two accepted extensions of it to different anchors and every authorised witness: all pairs of successors that the witness signs twice fork its log if and only if it signed the package; some pair always does |
| `SelfForks.RepeatSignerBoundIsTight` | ttrace/lineage_witness.py:536-690 | for every policy and any two accepted extensions of one endpoint there is a split in which exactly max(0, 3t - 2n) double signers fork their logs |
| `LineageWitness.SplitLogsAreAttributed` | ttrace/lineage_witness.py:536-690 | two whole witnessed logs of one policy that part at d contain a proven split if and only if the anchors at d differ or the logs later reach one tree size with different roots |
| `WitnessHandoff.ActiveMeetsHandoff` | ttrace/lineage_witness_handoff.py:646-673 | an active and a handoff quorum of one policy share at least 2t - n witnesses |
| `WitnessHandoff.ContinuityIntersectionNeverFails` | ttrace/lineage_witness_handoff.py:646-673 | both continuity-intersection branches of the handoff verifier are unreachable |
| `WitnessHandoff.ConflictingRotationsAreAttributed` | ttrace/lineage_witness_handoff.py:890-987 | two accepted rotations from one old policy and statement conflict exactly when they mean different things, and then real double signers are named |
| `SelfForks.RepeatRotatorsForkTheirLogs` | ttrace/lineage_witness_handoff.py:646-987 | for two rotations of different meaning from one active package, every double signer who also signed that package holds two different handoff observations with one sequence number and one predecessor, and there are at least 3t - 2n of them |
| `SelfForks.SigningActiveForcesTheFork` | ttrace/lineage_witness_handoff.py:646-987 | for every accepted active package and every authorised witness: all pairs of rotations of different meaning that the witness signs twice fork its log if and only if it signed the active package; some pair always does |
| `SelfForks.RepeatRotatorBoundIsTight` | ttrace/lineage_witness_handoff.py:646-987 | over every policy there is an active package with two such rotations in which exactly max(0, 3t - 2n) double signers fork their logs |
| `HandoffChain.BuildRefNeverFails` | ttrace/lineage_witness_handoff_chain.py:348-397 | the step and ref self-checks never raise once the caller's tests have passed |
| `HandoffChain.SeedExact` | ttrace/lineage_witness_handoff_chain.py:457-510 | a seed succeeds exactly for an accepted package that matches the pinned genesis, and what its ref records |
| `HandoffChain.AdvanceExact` | ttrace/lineage_witness_handoff_chain.py:513-562 | an advance succeeds exactly for an accepted package that carries the tip's activation forward, and what its ref records |
| `HandoffChain.VerifyChain` | ttrace/lineage_witness_handoff_chain.py:616-662 | the replay loop returns the verdict of the recursive replay, with its error order |
| `HandoffChain.RunInvariant` | ttrace/lineage_witness_handoff_chain.py:309-562 | after k handoffs the count is k, the epoch is genesis plus k, and the tip describes the last package |
| `HandoffChain.ActivationCarriesForward` | ttrace/lineage_witness_handoff_chain.py:537-546 | each package's old active package is the previous package's activation package |
| `HandoffChain.RunIsContiguous` | ttrace/lineage_witness_handoff_chain.py:513-562 | handoff i starts at genesis epoch plus i, and policy identifier and lineage view never change |
| `HandoffChain.TipDeterminesPackages` | ttrace/lineage_witness_handoff_chain.py:298-397 | equal tips force equal genesis and equal package lists |
| `HandoffChain.VerdictIsTheRun` | ttrace/lineage_witness_handoff_chain.py:616-662 | exactly the run that ends in the expected tip is accepted, and it is the only one |
| `HandoffChain.ConsumedPackageIsRejected` | ttrace/lineage_witness_handoff_chain.py:529-532 | every package a run has consumed is refused at this and every later tip |
| `HandoffChain.ForkExact` | ttrace/lineage_witness_handoff_chain.py:665-723 | two accepted successors of one ref fork exactly when the packages differ, and the evidence names both |
| `HandoffChain.ForksAreAttributed` | ttrace/lineage_witness_handoff_chain.py:665-723 | two accepted successors of one ref are a rotation conflict if and only if they mean different things; they then fork the chain, and at least 2t - n distinct old witnesses are named, each with two different observations held in the two packages |
| `HandoffChain.ChainsNestOrPart` | ttrace/lineage_witness_handoff_chain.py:616-723 | two whole chains of one genesis nest, or part at exactly one position: past the first package they fork their common ref there, and the rotation detector decides the two packages exactly when they start from one producer statement, as a conflict with named double signers exactly when meanings differ |
| `HandoffMembership.ValidateHandoffHistory` | ttrace/lineage_witness_handoff_chain_membership.py:140-205 | the loop returns every handoff's record or the first fault; its two inner re-checks are dead |
| `HandoffMembership.HistoryFaultExact` | ttrace/lineage_witness_handoff_chain_membership.py:140-205 | the history check passes exactly for replays that end in the tip |
| `HandoffMembership.BuildHandoffAnchor` | ttrace/lineage_witness_handoff_chain_membership.py:381-420 | the anchor self-check fails only for an invalid tip, a wrong count or zero contracts |
| `HandoffMembership.BuildMembershipAnchor` | ttrace/lineage_witness_handoff_chain_membership.py:423-442 | an anchor is built exactly for valid contracts and a valid history |
| `HandoffMembership.RebuildImpliesRefChecks` | ttrace/lineage_witness_handoff_chain_membership.py:621-643 | three later tests of the disclosure verifier are implied by its rebuild |
| `HandoffMembership.HandoffDisclosureBinds` | ttrace/lineage_witness_handoff_chain_membership.py:533-692 | an accepted disclosure carries exactly the history's record at its index: predecessor ref, package, step, ref and commitment |
| `HandoffMembership.HandoffDisclosureIsUnique` | ttrace/lineage_witness_handoff_chain_membership.py:533-692 | two accepted disclosures at one index of one anchor, real or not, are equal in every field |
| `HandoffMembership.BuiltHandoffDisclosureVerifies` | ttrace/lineage_witness_handoff_chain_membership.py:445-513 | the disclosure built for any index of a real history is accepted |
| `HandoffConsistency.HandoffConsistencySound` | ttrace/lineage_witness_handoff_chain_consistency.py:539-696 | an accepted package makes the old commitment list a proper prefix of the new one, without trusting the claimed sizes |
| `HandoffConsistency.CommitmentPrefixExact` | ttrace/lineage_witness_handoff_chain_consistency.py:461-468 | a commitment prefix is exactly a package prefix under the same genesis |
| `HandoffConsistency.PrefixReachesOldTip` | ttrace/lineage_witness_handoff_chain_consistency.py:469-472 | the boundary-ref check is implied by the prefix check |
| `HandoffConsistency.BuildHandoffConsistencyPackage` | ttrace/lineage_witness_handoff_chain_consistency.py:436-536 | the builder succeeds exactly when the old packages are a proper prefix under one genesis, never raises its boundary error, and its result verifies |
| `HandoffConsistency.BuiltHandoffPackageVerifies` | ttrace/lineage_witness_handoff_chain_consistency.py:497-536 | every package assembled that way is accepted, including the nine context fields and the epoch |
| `HandoffConsistency.HandoffConsistencyExact` | ttrace/lineage_witness_handoff_chain_consistency.py:436-696 | between the anchors of two real chains an accepted package exists if and only if the older packages are a proper prefix of the newer ones under one genesis |
| `HandoffConsistency.HandoffConsistencyProofIsUnique` | ttrace/lineage_witness_handoff_chain_consistency.py:539-696 | between any two anchors, real or not, there is at most one accepted package |
| `HandoffConsistency.AcceptedHandoffHistoriesExtend` | ttrace/lineage_witness_handoff_chain_consistency.py:539-696 | for two real histories acceptance means the newer one starts with the older packages and passes through the older tip |
| `HandoffConsistency.SplitHandoffSuccessorsAreDetected` | ttrace/lineage_witness_handoff_chain_consistency.py:854-1036 | two accepted successors of one statement are reported exactly when their anchors differ |
| `HandoffConsistency.SplitHandoffLogsAreDetected` | ttrace/lineage_witness_handoff_chain_consistency.py:854-1036 | two whole logs of accepted authorised packages that part at d contain a reported pair if and only if the anchors at d differ or the logs later reach one tree size with different roots; with equal anchors the statements at d differ in provenance alone |
| `HandoffConsistency.SeededHandoffLogsNestOrSplit` | ttrace/lineage_witness_handoff_chain_consistency.py:854-1036 | two comparable logs from sequence 1 either part at some index, or one extends the other and no pair is reported |
| `TraceValidation.ValidateRecords` | ttrace/validation.py:29-92 | the one-pass loop reports the errors of the state machine on every trace, infinite and NaN times included, and none exactly on a clean trace |
| `TraceValidation.NoErrorsExactlyWhenClean` | ttrace/validation.py:29-92 | for every trace: no errors if and only if ids are unique, threads are causally ordered, and no record's time is `<` that of the record just before it on its thread; the state then summarises the trace |
| `TraceValidation.CleanWithoutNaN` | ttrace/validation.py:29-92 | when no time is NaN, a trace is clean if and only if every record is admitted and every thread is monotone over all pairs of records |
| `TraceValidation.CleanButNotMonotone` | ttrace/validation.py:17-92 | times 5, NaN and 3 on one thread give no errors although 3 is before 5 |
| `TraceValidation.NaNHidesStepBack` | ttrace/validation.py:72-77 | a NaN between any two times lets the later record step back unreported |
| `TraceValidation.NaNGuardExact` | ttrace/validation.py:29-92 | for any set of admitted times, an error-free pass guarantees monotone threads if and only if NaN is not admitted or no two admitted times are comparable |
| `TraceValidation.OneErrorPerRecord` | ttrace/validation.py:36-90 | at most one error per record, in line order |
| `TraceValidation.FirstErrorIsFirstMisfit` | ttrace/validation.py:36-90 | for every trace the first reported line is the first record that does not fit the clean trace before it |
| `TraceValidation.RegisteredIds` | ttrace/validation.py:54-57 | on any trace the registered ids are those of all earlier records with a usable id, whatever else failed |
| `TraceValidation.DuplicatesExact` | ttrace/validation.py:54-57 | a duplicate is reported exactly when an earlier record carries the id |
| `TraceValidation.ErrorAtLine` | ttrace/validation.py:36-90 | the error list holds a fault at a line exactly when the step at that line reports it |
| `SortedKeys.Sorted` | openpoc/action_receipt_compat_v01.py:147 | the sorted key list is ordered, without repetition, and lists exactly the keys |
| `CanonicalJson.QuoteUnique` | openpoc/action_receipt_compat_v01.py:123-124 | reading a quoted string determines it and the rest of the text |
| `CanonicalJson.IntTextUnique` | openpoc/action_receipt_compat_v01.py:134-135 | reading a number before a delimiter determines it and the rest of the text |
| `CanonicalJson.EncodeUnique` | openpoc/action_receipt_compat_v01.py:127-149 | reading a canonical value determines it and the rest of the text |
| `CanonicalJson.CanonicalInjective` | openpoc/action_receipt_compat_v01.py:127-149 | equal canonical texts come from equal values, dictionaries taken as maps |
| `ReceiptBytes.SignedReceiptInjective` | openpoc/action_receipt_compat_v01.py:152-184 | the signed text determines every signed member, and which optional ones are present |
| `ReceiptBytes.SignedHeadInjective` | openpoc/action_receipt_compat_v01.py:363-375 | the signed head text determines the assertion |
| `ReceiptBytes.ReceiptsAreNotHeads` | openpoc/action_receipt_compat_v01.py:152-375 | no text is signed both as a receipt and as a head assertion |
| `ReceiptLogs.FirstChainBreak` | openpoc/action_receipt_compat_v01.py:242-259 | the loop returns the first broken link, or None exactly on an unbroken log |
| `ReceiptLogs.LastLineFixesLog` | openpoc/action_receipt_compat_v01.py:242-259 | two unbroken logs with one last line are the same log |
| `ReceiptLogs.ReplacementIsLocated` | openpoc/action_receipt_compat_v01.py:242-259 | replacing an inner line breaks the log there or at the next line, and nowhere earlier |
| `ReceiptLogs.FirstRepeatedStepId` | openpoc/action_receipt_compat_v01.py:272-292 | the first pass returns the least position whose step id occurred before |
| `ReceiptLogs.FirstSequenceFaults` | openpoc/action_receipt_compat_v01.py:301-328 | the second pass returns the least gap and the least repeat or regression |
| `ReceiptLogs.ProfileViolations` | openpoc/action_receipt_compat_v01.py:262-330 | all three results are least positions, and both sequence results are None when no record carries a number |
| `ReceiptLogs.SeqProfileExact` | openpoc/action_receipt_compat_v01.py:301-328 | with the profile active neither result is set exactly when record i carries i |
| `ReceiptLogs.HeadFixesLog` | openpoc/action_receipt_compat_v01.py:416-429 | a matching head hash fixes the unbroken log, its count and its chain id |
| `CrossSource.GroupRecords` | openpoc/verify_cross_source.py:214-316 | the grouping loop builds the groups, the errors and the excluded records of the recursive specification |
| `CrossSource.GroupsExact` | openpoc/verify_cross_source.py:303-310 | a correlation and side hold exactly the first in-scope record that names them |
| `CrossSource.ErrorsExact` | openpoc/verify_cross_source.py:218-333 | no correlation errors exactly when every record is well bound, no two in-scope records share correlation and side, and some record is in scope |
| `CrossSource.ClassifyGroups` | openpoc/verify_cross_source.py:335-370 | the classification loop fills the three lists of the recursive specification |
| `CrossSource.AssessCrossSource` | openpoc/verify_cross_source.py:142-395 | the whole assessment, with its request errors, the record limit and the invalid-trace report |
| `CrossSource.ClassificationExact` | openpoc/verify_cross_source.py:335-370 | matched, missing and conflicting are decided by what was seen in scope on both sides, and partition the observed correlations |
| `CrossSource.ConsistentExact` | openpoc/verify_cross_source.py:372-378 | "consistent" means final snapshots, no errors, and one digest on both sides of every observed correlation |
| `CrossSource.OneCorrelation` | openpoc/verify_cross_source.py:313-395 | when at most one correlation is in scope, status, matched, missing and conflicting lists are functions of which side was seen and whether the digests agree |
| `CrossSource.ExcludedExact` | openpoc/verify_cross_source.py:218-302 | the excluded list names exactly the sides of the well-bound records outside the scope |
| `ArtifactHandoff.HistoricalExact` | ttrace/artifact_handoff.py:228-249 | historical authority holds exactly for a signed, observed receipt under a fresh key status without an event by then and an archived policy in force |
| `ArtifactHandoff.RevocationIsNotRetroactive` | ttrace/artifact_handoff.py:221-267 | wherever a key event stands in the list, it changes no earlier observation's authority and blocks current authority |
| `ArtifactHandoff.AtCutoffIsScopeFilter` | ttrace/artifact_handoff.py:275-279 | the receipt's cutoff test is the cross-source scope filter |
| `ArtifactHandoff.ProjectionNeverRaises` | ttrace/artifact_handoff.py:282-309 | the comparison request built from a valid context is always accepted |
| `ArtifactHandoff.ProjectedTraceIsClean` | ttrace/artifact_handoff.py:296-303 | the records built from authorised receipts form a clean trace without binding errors |
| `ArtifactHandoff.ProjectionExact` | ttrace/artifact_handoff.py:282-309 | every field of the projection for every valid context and package: empty while a receipt is unauthorised or names another correlation; otherwise the expected correlation matches exactly when both roles are seen with one digest, the missing side is the one unseen role, and the excluded sides are the present roles not seen at the cutoff |
| `ArtifactHandoff.VerifyArtifactHandoff` | ttrace/artifact_handoff.py:312-393 | the loop over the roles fills the details; it fails exactly on an invalid context, an invalid receipt or a repeated step id, and reports the first of them in the code's order |
| `ArtifactHandoff.VerdictExact` | ttrace/artifact_handoff.py:282-380 | the verdict as a function of claims, authority, finality and which roles were seen by the cutoff |
| `ArtifactHandoff.SupportedExact` | ttrace/artifact_handoff.py:282-380 | support holds exactly when both roles are present, authorised, inside window and cutoff, claim-matching, and snapshots are final |
| `EffectGate.EveryRunConserves` | openpoc/effect_gate.py:58-176 | over every interleaving of gate, bypass and guarded direct `finalize` calls, failed calls included, applied ids are the disjoint union of receipted and bypassed ids, and each receipt attests the applied effect under its own precommitment |
| `EffectGate.FinalizeExact` | openpoc/effect_gate.py:95-109 | in a conserved state a direct `finalize` keeps conservation if and only if its precommitment is not bound, or exactly its effect is applied and not bypassed |
| `EffectGate.ConservationExact` | openpoc/effect_gate.py:58-176 | over any run, conservation holds at every step if and only if every direct `finalize` met that guard |
| `EffectGate.UnreceiptedMeansBypassed` | openpoc/effect_gate.py:156-176 | in a run whose direct `finalize` calls met the guard, effects without a receipt are exactly the bypassed ones |
| `EffectGate.RunsOnlyGrow` | openpoc/effect_gate.py:58-176 | no operation removes or changes an applied effect, and none a receipt when direct `finalize` calls meet the guard |
| `EffectGate.Recorder.Precommit` | openpoc/effect_gate.py:70-79 | the new precommitment table, and nothing else |
| `EffectGate.Recorder.Finalize` | openpoc/effect_gate.py:95-109 | a receipt exactly for a bound precommitment, and the new receipt table |
| `EffectGate.EffectStore.Apply` | openpoc/effect_gate.py:126-129 | an effect is added exactly when its id is new |
| `EffectGate.Gate.Execute` | openpoc/effect_gate.py:143-153 | an effect is applied exactly when a receipt is returned; finalize never raises here |
| `EffectGate.BypassableRuntime.ExecuteViaGate` | openpoc/effect_gate.py:164-166 | the call is one step of the state machine and fails only for a repeated id |
| `EffectGate.BypassableRuntime.ExecuteBypass` | openpoc/effect_gate.py:168-176 | the call is one step of the state machine that leaves no receipt |
| `EffectGate.BypassableRuntime.Perform` | openpoc/effect_gate.py:58-176 | any call sequence on the objects, direct `finalize` included, reaches the state of the run, where applied ids are conserved if every direct `finalize` met the guard |
| `EffectGate.FinalizeWithoutEffect` | openpoc/effect_gate.py:95-109 | called outside the gate, finalize can issue a receipt for an effect that was never applied |
| `SampleRuns.OrdersExist` | ttrace/portable_causality.py:502 | orders with the one property the reconciliation needs exist |
| `SampleRuns.LineageRunsExist` | ttrace/lineage_compaction.py:330-557 | seed/advance runs of every length exist, over every accumulator contract, in variants that part after the first cycle |
| `SampleRuns.WitnessedSuccessorsExist` | ttrace/lineage_witness.py:536-598 | over every policy every accepted consistency package has witnessed statements on both ends, whichever quorums sign |
| `Countersigning.NextQuorumIsWitnessed` | ttrace/lineage_witness.py:536-598 | any quorum of the policy can extend any accepted package to any accepted endpoint; newcomers may claim any place in their log |
| `SampleRuns.ContractsMayDiffer` | ttrace/lineage_consistency_core.py:550-799 | for any two lengths there are real histories joined by an accepted package where the newer one does not pass through the older tip |
| `SampleRuns.TwinsAreNeverReported` | ttrace/lineage_consistency.py:204-372 | any two accepted extensions of one endpoint to different sizes can follow twin first statements, and no pair of the four statements is reported |
| `SampleRuns.SplitsAreCaught` | ttrace/lineage_witness.py:536-690 | any two accepted extensions of one endpoint to different anchors, one signed by witnesses u and v and one by v and w, are a proven split that names v alone, whose log forks |
| `SampleRuns.NewcomersForkAtWill` | ttrace/lineage_witness.py:536-690 | two-of-three, after a package that only u and w signed: the split names v alone, and v's log forks when v starts at one sequence number on both sides and does not when it claims two |
| `SampleRuns.CaughtOrMissed` | ttrace/lineage_witness.py:536-690 | for any two different lengths there are real runs that share one cycle and then reach different states, caught in the one way and missed in the other |
| `Countersigning.RotatedVerifies` | ttrace/lineage_witness_handoff.py:811-887 | any quorum of the policy can rotate the policy of any accepted package, under any handoff contract |
| `SampleChains.ChainsExist` | ttrace/lineage_witness_handoff_chain.py:457-562 | from every accepted package handoff chains of every length exist |
| `SampleChains.ForksExist` | ttrace/lineage_witness_handoff_chain.py:513-723 | at their tips any two handoff contracts give two accepted successors of different meaning, which fork the chain and are a rotation conflict |
| `SampleChains.FirstPackagesPartUnseen` | ttrace/lineage_witness_handoff_chain.py:457-510 | packages over one policy with different producer statements start chains of one genesis, of any lengths, that part at the first package, and the rotation detector refuses to compare them |
| `SampleForks.TwinsAreNeverReported` | ttrace/lineage_witness_handoff_chain_consistency.py:854-1036 | any two accepted extensions of one handoff endpoint to different sizes can follow twin first statements, and no pair of the four statements is reported |
| `SampleForks.PartedChainsAreMissed` | ttrace/lineage_witness_handoff_chain_consistency.py:436-1036 | from every accepted package and at every length there are two real chains that share that length and then rotate with different meaning, with accepted packages to both, missed in that way |

## Left out

- SHA-256, Ed25519, hexadecimal and base64 decoding, UTF-8 encoding and `json.loads`: library calls. Digests are free
  constructors or an injective function, signature validity is an input, texts are sequences of Unicode scalar values.
- Free digests are also acyclic: no modelled record contains its own digest. SHA-256 is only assumed to behave that way.
- Dynamic shape checks, boolean-as-integer guards and recursion-depth errors: vacuous on typed records.
- ISO 8601 parsing and floating-point rounding: finite times are integers of milliseconds or reals. Infinite and NaN
  times are modelled where the code accepts them, in the trace validator.
- Numbers that Python's `==` equates: where the code compares a size, an index or a count only by `==`, it also takes
  `3.0` for `3`. The model has integers there, so uniqueness and injectivity hold up to that equality.
- Effect payloads are immutable strings; the source holds a dictionary that a caller could change after its digest was
  taken.
- Python's limit on the digits of a converted integer: `str` is total in the model.
- Receipt, decision and evidence fields that are fixed constants or plain copies of fields already in the model.
- `verify_receipt`'s field checks: their outcome is the `signed` input of a receipt file or head assertion.
- Decoding, field-shape, hexadecimal and transport-digest checks of an artifact-handoff package: they run before
  everything modelled and can only reject.
- Serialized fork, split and equivocation evidence validators: they recompute the modelled decision and compare bytes.
- Builders of observations, policies, role certificates and quorum packages: they assemble fields and call the modelled
  verifiers.
- `_contains_forbidden_disclosure_key`: it looks for keys that no typed record has.
- `_validated_cycle_commitments` repeats the chain validation that the modelled builder already runs.
- The older statement functions in `ttrace/lineage_consistency_core.py`: `ttrace/lineage_consistency.py` replaces
  them, and the model has the replacements.
- Transition refs, the active-tip shape check, command lines, Markdown, file system, Git export and corpus generation.
- LineageCompaction.RunInvariant: raw-evidence leakage is a parameter, so nothing is said about which steps it rejects.
