# RankLock: authorization, locks and transaction plans, modelled and proved in Dafny

RankLock lets a committee release exactly one wire label per bit of a Groth16 point, at most once per funded slot, and ties
that release to Bitcoin transactions, pairing locks and a NACK protocol. This project models the logic of those parts and
proves what they are for.

* **Release and execution** (`LabelTree`, `LabelRelease`, `Sealing`, `Manifests`, `SlotLedger`, `Execution`, `Signatures`). Setup commits
  to every label pair under a two-level hash root and seals the slot's program under a seed. A release opens one label per
  point bit. Execution authenticates, burns the slot, reconstructs the root, opens, parses and replays. Proved: reconstruction
  and setup give one root; without hash collisions a release that passes the root check is the opening that setup and the
  point dictate; over every run of requests each slot is served at most once, ends as a success or as malformed, and keeps
  the record of the first request that could claim it; what a successful execution returns is a function of setup and the
  point; somebody who cannot sign cannot spend a slot.
* **Shares and schedules** (`CutAndChoose`, `Binomials`, `AdditiveShares`). The exact failure probability of a random
  partition, the smallest balanced schedule against every other split, and pairing certificates that add up.
* **Pairing algebra** (`PositiveLock`, `BasisSeparatedKzg`, `InputAuth`, over `PrimeField` and `Groups`). Group elements are
  exponents modulo a prime order and a pairing multiplies them. Proved: which proofs open a lock, which openings decrypt,
  which witnesses pass the input gadgets, and what two tokens give away.
* **Transactions** (`Codecs`, `BitcoinTransaction`, `TransactionPlan`). A strict parser that inverts serialization, plan
  codecs with a sentinel, and plans that accept exactly the lists with the committed stripped bytes.
* **Challenges, one-time signatures, statements, fixture entropy** (`Beacon`, `Lamport`, `CounterproofSemantics`, `Entropy`).
* **The validity-first integration** (`PatchEngine`, `NackDuties`). The counted-replacement engine with its dry run, and the
  two handlers that must ask for the same NACKs.

Hashes are arbitrary functions from byte strings to 32-byte digests. No hash with 32-byte digests is injective, so binding
theorems assume that the finite set of strings hashed by the parties involved is free of collisions (`CollisionFree`); each
theorem names that set. Signatures are treated alike: unforgeability is assumed of the one signature a request or a manifest
carries, never of a key as a whole. Exceptions become the error case of a result. Loops that update state are methods proved against a
function; theorems over runs are about those functions.

## Results that differ from what the code or its documentation suggests

* `BoundedSlotLedger.finalize` does not fix an outcome: a later call replaces it. `SuccessCanBeOverwritten` is such a run and
  `FinalizeOverwrites` says exactly which calls leave a record alone. Execution itself finalizes a slot once.
* Decryption at the evaluation point tau always fails, because the header has no encoding there, although the opening
  verifies (`DecryptsExactly`, `OpeningAtTauDoesNotDecrypt`); the accepted proof is unique at every other point and at no point where it is tau
  (`AcceptedProofUnique`).
* The Lamport digest has no boundary between context and input: one signature covers every split of the same byte string
  (`SignatureBindsConcatenation`, `ContextBoundaryIsNotBound`).
* A template whose continuation index is 0xFFFFFFFF is valid but does not parse back (`TemplateParsesBack`).
* With saturating addition every entry matures at the last two heights (`MatureExactly`).
* A job list with a repeated target, such as the installer's own, can pass the dry run and fail the real one, or the reverse
  (`RepeatedTargetsDisagree`); `DryRunFaithful` says exactly when the two agree. Installation is all-or-nothing for every
  list because of the pre-flight, except that the pre-flight checks the second NACK diff against a tree without the first
  (`Install`, `NackDiffsCanConflict`).
* Version 1 of the positive lock also opens for an invalid proof whose mask starts like that of setup, which only a payload
  shorter than one hash block leaves room for (`UnlockV1ByMask`, `UnlockV1Exactly`).
* Over a composite group order, two tokens of a coordinate need not give the others (`ForgeEqualsAuthority`).
* The closing self-checks of the release parser, of synthetic division and of the aggregate certificate can never fire
  (`ParseCompact`, `OpeningQuotient`, `AggregateCertifiedOutputs`).

## Model

| member | source | states |
|---|---|---|
| Execution.Execute | src/ranklock/authorized_labels.py:601-689 | a refusal leaves the ledger as it was; otherwise the slot is burned first and its one record is the success with the replay returned, or malformed |
| Execution.Admit | src/ranklock/authorized_labels.py:617-640 | the ordered checks before the burn accept exactly: verified manifest, own context, activated descriptor and artifact, authorizer's signature |
| Execution.Evaluate | src/ranklock/authorized_labels.py:652-677 | the steps after the burn: root check, canonical point, opening, parsing, label width, replay, each failure ending the attempt |
| Execution.BeginHonours | src/ranklock/authorized_labels.py:644-651 | an admitted request is begun exactly when its slot is in range, unused and of this ledger's context, and finalizing by the evaluation gives its record |
| Execution.RefusedExactly | src/ranklock/authorized_labels.py:617-651 | an execution is refused exactly when one of the listed checks of manifest, release, artifact or ledger fails, among them an authorizer signature that does not verify |
| Execution.ExecuteAll | scripts/generate_v0241_security_qualification.py:475-529 | executing requests one after the other on one ledger leaves exactly the fold of their claims, and each request is told what its place in the run demands |
| Execution.LedgerExactly | src/ranklock/authorized_labels.py:615-689 | after any run a slot is used exactly when it was before or some request could claim it, and it keeps forever the record of the first such request and how that one evaluated |
| Execution.ServedExactly | src/ranklock/authorized_labels.py:615-651 | a request of a run is served exactly when it can claim its slot, the slot was free and no earlier request could claim it |
| Execution.ServedOnce | src/ranklock/authorized_labels.py:643-651 | no run serves two requests for one slot, whatever releases they carry |
| Execution.RunAccounting | src/ranklock/authorized_labels.py:643-689 | over any run every slot in use ends as success or malformed, uses grow by the served requests, successes by the replays, both bounded by the slot count |
| Execution.ArtifactRootBinds | src/ranklock/authorized_labels.py:631-638 | one artifact root names one artifact for a slot |
| Execution.EvaluationBound | src/ranklock/authorized_labels.py:652-677 | for an honestly set up slot, passing the root check means opening the setup tree at the point, and the result is then fixed by setup and point; failing it always fails the attempt |
| Execution.OpeningEvaluates | src/ranklock/authorized_labels.py:652-677 | the sealed setup artifact under a release of the setup tree replays the setup plaintext with the x labels and the y labels that the point chooses |
| Execution.ReplayDetermined | src/ranklock/authorized_labels.py:652-677 | two successful executions of a slot at one point return the same replay, in whatever ledgers |
| Execution.HonestReleaseSucceeds | src/ranklock/authorized_labels.py:601-689 | an honestly issued release of an honestly set up slot is admitted and served on a free slot, with the replay that setup dictates |
| Execution.AdmittedIsIssued | src/ranklock/authorized_labels.py:639-640 | if its signature, wherever it verifies under the authorizer's key, was made over an issued release's message, an admitted release equals an issued one up to that signature |
| Execution.OutsiderCannotSpend | src/ranklock/authorized_labels.py:615-651 | so, when issued releases open the setup tree, an admitted request for the slot opens it too and evaluates as setup dictates |
| Execution.RecordNamesRelease | src/ranklock/authorized_labels.py:644-651 | the authorization digest that the ledger records names one release, up to its signature |
| Execution.RecordNamesPoint | src/ranklock/authorized_labels.py:644-651 | the input digest that the ledger records names the point |
| Execution.HonestContributorFixesSetup | src/ranklock/authorized_labels.py:617-638 | if the signature that the manifest carries for one required key was made over an honest manifest, every admitted request runs in that manifest's context and against its descriptors |
| Manifests.BodyBinds | src/ranklock/bounded_mpc_embryo.py:212-330 | a body encoding, whatever follows it, fixes context, lock, every descriptor and every contributor, despite the variable-length payload |
| Manifests.SigningDigestBinds | src/ranklock/bounded_mpc_embryo.py:332-334 | a signed manifest digest names one body |
| Manifests.ChecksumBinds | src/ranklock/bounded_mpc_embryo.py:403-409 | a checksum names the body and every signature |
| Manifests.VerifiedChecksumNames | src/ranklock/bounded_mpc_embryo.py:403-455 | two verified manifests with one checksum are one manifest, for one key set and context |
| Manifests.Verify | src/ranklock/bounded_mpc_embryo.py:427-455 | accepts exactly the required keys in any order, the expected context, the fitting checksum and a signature of every contributor |
| Manifests.ContributorSigned | src/ranklock/bounded_mpc_embryo.py:427-455 | a verified manifest carries the signature of every required key |
| LabelRelease.ContextDigestBinds | src/ranklock/authorized_labels.py:85-117 | a context digest fixes all nine fields |
| LabelRelease.CanonicalUnique | src/ranklock/authorized_labels.py:486-498 | an affine point has at most one canonical encoding |
| LabelRelease.SigningMessageBinds | src/ranklock/authorized_labels.py:393-420 | a signed message fixes header, opening count and every opening, so everything but the signature |
| LabelRelease.CompactBinds | src/ranklock/authorized_labels.py:422-428 | no two releases share a compact encoding |
| LabelRelease.ParseOpenings | src/ranklock/authorized_labels.py:462-474 | the cursor loop reads openings whose encodings concatenate to the bytes between header and signature |
| LabelRelease.ParseCompact | src/ranklock/authorized_labels.py:442-484 | accepts exactly the strings of the announced length with at least one opening pair, returns a release that encodes to them, and undoes the encoding |
| LabelRelease.ReconstructRoot | src/ranklock/authorized_labels.py:486-530 | the loop returns the root of the label-hash pairs that the release reveals at its point, or raises for a non-canonical point or an opening count beyond two bytes |
| LabelRelease.IssueOpenings | src/ranklock/authorized_labels.py:560-576 | opening i shows the pair member selected by the point's bit and the hash of the other |
| LabelRelease.OpensByBits | src/ranklock/authorized_labels.py:558-576 | opening j shows the first label of pair j exactly when bit j of x is 0, opening n + j follows y alike, and the sibling is the hash of the other label |
| LabelRelease.IssueLabelRelease | src/ranklock/authorized_labels.py:547-598 | an issued release opens the tree at the canonical point, names its root and key, and carries the signature of its own message |
| LabelRelease.OpeningReconstructs | src/ranklock/authorized_labels.py:486-530 | a release that opens a tree reconstructs that tree's root |
| LabelRelease.ReleaseBinding | src/ranklock/authorized_labels.py:486-530 | a release that reconstructs a tree's root has its context, slot, seed and number of openings, and at every index the chosen label and the sibling's hash |
| LabelRelease.RootCheckExact | src/ranklock/authorized_labels.py:653-654 | the root check passes exactly for the releases that open the tree |
| LabelRelease.PublicRoot | src/ranklock/authorized_labels.py:251-296 | the public route over label hashes and the seed commitment gives the tree's root |
| LabelRelease.ReleaseUnique | src/ranklock/authorized_labels.py:486-530 | two releases at one point with one root agree on context, slot, seed, labels and siblings |
| LabelRelease.LabelsDeterminePoint | src/ranklock/authorized_labels.py:558-576 | releases of one tree with equal labels were made for the same point |
| LabelTree.RootBinds | src/ranklock/authorized_labels.py:231-316 | a root fixes context, slot, width, seed commitment and every label-hash pair |
| LabelTree.LabelPreimageBinds | src/ranklock/authorized_labels.py:218-228 | a hashed label string names context, slot, coordinate, bit and label |
| LabelTree.PairPreimageBinds | src/ranklock/authorized_labels.py:231-248 | a hashed pair string names context, slot, coordinate, bit and both label hashes |
| LabelTree.RootFromLabelHashPairs | src/ranklock/authorized_labels.py:251-296 | accepts exactly well-sized inputs and returns the root they commit to |
| LabelTree.RootFromPairs | src/ranklock/authorized_labels.py:319-360 | hashing labels, pairs and all pairs gives the committed root of the tree, or raises when slot or width does not fit |
| LabelTree.FromInputEncodings | src/ranklock/authorized_labels.py:162-215 | accepts exactly two templates with one 16-byte label per bit, equal masks and an offset of 1 to 2^128 - 1, and returns a tree whose root is its own pairs' root |
| LabelTree.CoordinatePairs | src/ranklock/authorized_labels.py:192-204 | the inner loop yields each label with its partner offset by the coordinate's delta |
| LabelTree.TreeOfIsConsistent | src/ranklock/authorized_labels.py:206-215 | a tree made from encodings commits to its own pairs |
| LabelTree.PairDiffers | src/ranklock/authorized_labels.py:187-204 | the first label of a pair is the template's, and the second differs from it by exactly the coordinate's delta |
| Sealing.SeedCommitmentBinds | src/ranklock/adaptive_sealing.py:39-42 | a seed commitment opens to one seed |
| Sealing.PadTranscriptInjective | src/ranklock/adaptive_sealing.py:45-63 | distinct contexts, slots, seeds or lengths expand distinct transcripts |
| Sealing.OpenUndoesSeal | src/ranklock/adaptive_sealing.py:66-99 | opening under the same context, slot and seed gives back the plaintext, at equal length |
| Sealing.SealedEqualExactly | src/ranklock/adaptive_sealing.py:45-82 | two sealed slots of one plaintext are equal exactly when their pads are |
| Sealing.SealNames | src/ranklock/adaptive_sealing.py:45-99 | without colliding pads one plaintext and one sealed slot fix context, slot and seed, and a sealed slot opens to its plaintext under no other context, slot or seed |
| Sealing.ParseSlots | src/ranklock/adaptive_sealing.py:119-128 | the framing loop accepts exactly when the announced lengths use up the bytes, and cuts them in order |
| Sealing.SlotsUnique | src/ranklock/adaptive_sealing.py:119-128 | announced lengths cut the bytes in one way only |
| SlotLedger.BoundedSlotLedger.Open | src/ranklock/bounded_mpc_embryo.py:557-560 | a ledger exists exactly for a 32-byte context and 1 to 65535 slots, and starts unused |
| SlotLedger.BoundedSlotLedger.Begin | src/ranklock/bounded_mpc_embryo.py:562-588 | refuses out-of-range, used, foreign-context and mis-sized attempts without change, otherwise adds one burned record |
| SlotLedger.BoundedSlotLedger.Finalize | src/ranklock/bounded_mpc_embryo.py:590-598 | sets the outcome of a started slot to one of the five allowed ones and changes nothing else |
| SlotLedger.BoundedSlotLedger.Remaining | src/ranklock/bounded_mpc_embryo.py:603-605 | the unused slots, never negative |
| SlotLedger.UsesBounded | src/ranklock/bounded_mpc_embryo.py:570-588 | a ledger never records more uses than it has slots |
| SlotLedger.RunBurnsOnce | src/ranklock/bounded_mpc_embryo.py:562-605 | over any run of begin and finalize calls a burned slot stays burned for the same attempt and uses grow by exactly the accepted begins, within the slot count |
| SlotLedger.NeverBegunTwice | src/ranklock/bounded_mpc_embryo.py:570-588 | no run accepts two begins of one slot |
| SlotLedger.FinishedStays | src/ranklock/bounded_mpc_embryo.py:562-598 | over any run a finished slot stays finished, whatever outcome replaces the first |
| SlotLedger.FinalizeOverwrites | src/ranklock/bounded_mpc_embryo.py:590-598 | a call leaves a record alone exactly when it is a begin, concerns another slot, names an unknown outcome or repeats the recorded one |
| SlotLedger.SuccessCanBeOverwritten | src/ranklock/bounded_mpc_embryo.py:590-598 | a finished success that a later call turns into a timeout |
| CutAndChoose.DefeatsExactly | src/ranklock/additive_projective_ceremony.py:157-163 | the live sets that pass the audit with every live copy malformed are the malformed set itself if it has the live size, else none |
| CutAndChoose.PartitionSoundness | src/ranklock/additive_projective_ceremony.py:157-163 | the failure probability never exceeds 1/C(t+q,q), with equality exactly for q malformed copies |
| Binomials.SubsetsSize | src/ranklock/additive_projective_ceremony.py:163-167 | there are C(n,q) choices of q copies |
| Binomials.CentralIsLargest | src/ranklock/additive_projective_ceremony.py:197-207 | no split of n copies beats the balanced one |
| Binomials.CentralRises | src/ranklock/additive_projective_ceremony.py:197-207 | balanced soundness never falls when copies are added |
| CutAndChoose.MinimumBalancedSchedule | src/ranklock/additive_projective_ceremony.py:197-207 | the search ends with bits < n <= 2*bits copies; a balanced schedule reaches the target exactly from n copies on, and no split of any shape with fewer copies reaches it |
| CutAndChoose.ReachingNeedsCopies | src/ranklock/additive_projective_ceremony.py:165-167 | bits of soundness need more than that many copies |
| AdditiveShares.Aggregate | src/ranklock/additive_projective_ceremony.py:68-85 | the sum of the encoded points, raising for an empty list, undecodable bytes or the identity |
| AdditiveShares.CertificateIsExact | src/ranklock/additive_projective_ceremony.py:88-106 | the certificate for the anchor [r]delta passes for [r]A and nothing else |
| AdditiveShares.AggregateIsCertified | src/ranklock/additive_projective_ceremony.py:120-136 | certified shares make both sums vanish together and otherwise certify the sum |
| AdditiveShares.AggregateCertifiedOutputs | src/ranklock/additive_projective_ceremony.py:109-137 | exact error conditions, among them no failing final certificate; returns both sums |
| AdditiveShares.ContributorShareFixture | src/ranklock/additive_projective_ceremony.py:210-237 | raises exactly for a zero scale or a zero sum and returns all multiples and the multiple of the sum |
| AdditiveShares.SharesAggregate | src/ranklock/additive_projective_ceremony.py:210-237 | for any number of contributors the fixture's shares are certified and sum to [sum r_i]A and [sum r_i]delta |
| PositiveLock.HashStream | src/ranklock/babe_positive_lock.py:63-72 | the growing buffer is the stream of counter blocks cut to the length, or an overflow of the four-byte counter |
| PositiveLock.MaskPrefix | src/ranklock/babe_positive_lock.py:63-72 | a shorter mask is a prefix of a longer one |
| PositiveLock.MaskBlocksName | src/ranklock/babe_positive_lock.py:63-72 | a whole block of a mask names lock version, statement digest, session and its own position, so no block repeats |
| PositiveLock.SetupMasks | src/ranklock/babe_positive_lock.py:336-391 | both versions store the payload masked under their own domain, statement digest and session of setup |
| PositiveLock.MaskedNames | src/ranklock/babe_positive_lock.py:336-391 | one payload of a block or more and one masked string name lock version, statement digest and session |
| ByteStrings.XorBitwise | src/ranklock/babe_positive_lock.py:56-60 | a bit of an exclusive or is set exactly when that bit of one operand alone is |
| PositiveLock.SumG1 | src/ranklock/babe_positive_lock.py:75-79 | the running sum of all points |
| PositiveLock.Accumulator | src/ranklock/babe_positive_lock.py:116-125 | vk_x as ic_0 plus the weighted inputs, raising exactly for a wrong count or a non-canonical input |
| PositiveLock.AccumulatedExactly | src/ranklock/babe_positive_lock.py:116-125 | the accumulated point is ic_0 plus the inner product of the other points with the inputs |
| PositiveLock.VerifiesExactly | src/ranklock/babe_positive_lock.py:307-333 | a proof verifies exactly when a*b = alpha*beta + vk_x*gamma + c*delta |
| PositiveLock.ProofFixesEachInput | src/ranklock/babe_positive_lock.py:319-333 | a proof that verifies for one input vector verifies for none that differs from it in one input |
| PositiveLock.VkPreimageBinds | src/ranklock/babe_positive_lock.py:104-114 | the hashed key string names one context, four points and input points |
| PositiveLock.StatementBinding | src/ranklock/babe_positive_lock.py:288-304 | a statement digest names one key digest, one session context and one input vector |
| PositiveLock.StatementDigestNames | src/ranklock/babe_positive_lock.py:104-304 | so a statement digest names one key with all its points, one input vector and one session context |
| PositiveLock.OtherStatementRejected | src/ranklock/babe_positive_lock.py:423-470 | a lock of either version never opens under another key, input vector or session context |
| PositiveLock.RefusedV2 | src/ranklock/babe_positive_lock.py:452-491 | whatever the lock, version 2 raises for another key or statement digest, an invalid proof or an uncertified output |
| PositiveLock.RefusedV1 | src/ranklock/babe_positive_lock.py:414-449 | version 1 raises for another key or statement digest or an uncertified output |
| PositiveLock.SessionIffValid | src/ranklock/babe_positive_lock.py:394-449 | the certificate passes exactly for [r]A, and the session then derived is the one of setup exactly when the proof verifies |
| PositiveLock.UnlockV2Exactly | src/ranklock/babe_positive_lock.py:452-491 | for the lock's own statement it opens to the payload of setup for a valid proof with [r]A and raises for every other proof and output |
| PositiveLock.UnlockV1Sound | src/ranklock/babe_positive_lock.py:414-449 | rejects other outputs, opens for valid proofs, and never releases another payload without a collision |
| PositiveLock.UnlockV1ByMask | src/ranklock/babe_positive_lock.py:432-449 | with [r]A version 1 opens exactly when the session derived from the proof has the mask of setup |
| PositiveLock.UnlockV1Exactly | src/ranklock/babe_positive_lock.py:414-449 | for payloads of 32 bytes or more it opens exactly for a valid proof with [r]A |
| PositiveLock.LockParsesBack | src/ranklock/babe_positive_lock.py:204-242 | a valid lock parses back from its encoding |
| PositiveLock.LockParseExactly | src/ranklock/babe_positive_lock.py:220-242 | bytes that parse are the encoding of what they parse to |
| PositiveLock.FixtureVerifies | src/ranklock/babe_positive_lock.py:501-536 | the solved fixture proof verifies for every canonical input |
| BasisSeparatedKzg.PolyTrim | src/ranklock/real_kzg_we.py:43-49 | reduces, keeps the last coefficient, drops trailing zeros and the polynomial function with it unchanged |
| BasisSeparatedKzg.TrimExactly | src/ranklock/real_kzg_we.py:43-49 | every kept coefficient is the reduced one, every dropped one is zero, and the last kept one is not unless it stands alone |
| BasisSeparatedKzg.PolynomialEvaluate | src/ranklock/real_kzg_we.py:52-57 | Horner's loop computes p(z) modulo the order |
| BasisSeparatedKzg.OpeningQuotient | src/ranklock/real_kzg_we.py:60-73 | value and quotient of an exact division by X - z; the closing comparison never fires |
| BasisSeparatedKzg.DivisionIdentity | src/ranklock/real_kzg_we.py:66-70 | p(x) is remainder + (x - z) * quotient(x) at every x |
| BasisSeparatedKzg.QuotientDivides | src/ranklock/real_kzg_we.py:60-73 | p(X) - p(z) is (X - z) times the published quotient |
| BasisSeparatedKzg.Generate | src/ranklock/basis_separated_kzg.py:103-128 | the loop publishes all powers of tau and the same powers scaled by rho, raising exactly for bad bounds or zero secrets |
| BasisSeparatedKzg.Msm | src/ranklock/basis_separated_kzg.py:144-155 | the sum over the nonzero scalars is the full product sum; too long a vector or the identity raises |
| BasisSeparatedKzg.Commit | src/ranklock/basis_separated_kzg.py:157-160 | the product sum over the commitment basis, raising for an empty polynomial |
| BasisSeparatedKzg.SrsEvaluates | src/ranklock/basis_separated_kzg.py:113-160 | for every coefficient vector in range commitments are p(tau) and opening sums are rho * p(tau) |
| BasisSeparatedKzg.Open | src/ranklock/basis_separated_kzg.py:162-171 | the value at z and the encoded quotient sum, raising exactly when the quotient is too long or its point is the identity |
| BasisSeparatedKzg.VerifyEquation | src/ranklock/basis_separated_kzg.py:253-274 | the pairing check is proof * (tau - z) = (C - y) * rho |
| BasisSeparatedKzg.HonestOpeningVerifies | src/ranklock/basis_separated_kzg.py:162-171 | openings of committed polynomials verify |
| BasisSeparatedKzg.AcceptedProofUnique | src/ranklock/basis_separated_kzg.py:253-274 | a second proof is accepted exactly when the evaluation point is tau |
| BasisSeparatedKzg.DecryptionSession | src/ranklock/basis_separated_kzg.py:277-327 | away from tau decryption derives the encryption session from exactly the openings that verify |
| BasisSeparatedKzg.ForeignOpeningFails | src/ranklock/basis_separated_kzg.py:253-327 | an opening of another point or value, or an undecodable proof, neither verifies nor decrypts |
| BasisSeparatedKzg.DecryptsOnlyAccepted | src/ranklock/basis_separated_kzg.py:308-327 | if no other session opens the payload, decryption returns the secret for exactly the openings that verify away from tau |
| BasisSeparatedKzg.DecryptsExactly | src/ranklock/basis_separated_kzg.py:308-327 | an accepted opening decrypts to the secret exactly when the point is not tau |
| BasisSeparatedKzg.OpeningAtTauDoesNotDecrypt | src/ranklock/basis_separated_kzg.py:229-327 | at tau the opening of p(X) = X verifies and decrypting with it always fails |
| BasisSeparatedKzg.ScaledRhoSession | src/ranklock/basis_separated_kzg.py:330-339 | publishing r[rho] gives everybody the encryption session |
| InputAuth.MakeAuthority | src/ranklock/algebraic_input_auth.py:145-156 | exact construction errors; the authority built holds the reduced tag, bases and slopes, tag and slopes nonzero |
| InputAuth.AggregateTokens | src/ranklock/algebraic_input_auth.py:212-232 | accepts exactly tokens in order over one field and returns values and both sums |
| InputAuth.ExpectedAggregateKey | src/ranklock/algebraic_input_auth.py:246-255 | the running sum is the reduced sum of the selected keys, raising for mixed fields or widths |
| InputAuth.GadgetsAcceptExactly | src/ranklock/algebraic_input_auth.py:235-278 | both gadgets accept exactly the witness whose signature is tag * sum(a_i + v_i * b_i) |
| InputAuth.HonestAggregate | src/ranklock/algebraic_input_auth.py:206-232 | aggregating the selected tokens gives that witness |
| InputAuth.MadeTokens | src/ranklock/algebraic_input_auth.py:145-203 | an authority made from raw scalars publishes a_i + v * b_i and issues tokens tag * (a_i + v * b_i), modulo the order |
| InputAuth.ForgeEqualsAuthority | src/ranklock/algebraic_input_auth.py:296-322 | two tokens of one coordinate give each of its 256 tokens exactly when the difference of their values is invertible modulo the group order, and raise otherwise |
| InputAuth.ForgeRaises | src/ranklock/algebraic_input_auth.py:296-322 | forging raises for targets that are no byte, foreign coordinates or fields, and equal values |
| InputAuth.PrimeOrderInverts | src/ranklock/algebraic_input_auth.py:305-310 | modulo a prime order that is so exactly for different values |
| Beacon.DeriveFieldChallenge | src/ranklock/beacon.py:20-55 | the value comes from the least acceptable counter, is below the modulus and not forbidden; errors exactly when no counter is acceptable or an input is unsupported |
| Beacon.ExactlyUniform | src/ranklock/beacon.py:38-54 | every allowed residue has exactly floor(2^256/m) accepted candidates, a forbidden one none |
| Beacon.CandidatesAreDigests | src/ranklock/beacon.py:49 | candidates and 256-bit digests correspond |
| Beacon.PreimageInjective | src/ranklock/beacon.py:41-48 | distinct label, transcript, beacon or counter hash distinct strings |
| Beacon.CandidateBinds | src/ranklock/beacon.py:40-49 | without a collision equal candidates come from one label, transcript, beacon and counter |
| Lamport.Keygen | src/ranklock/authenticated_witness_lift.py:65-79 | the nested loops give 256 pairs of derived secrets, raising exactly for an empty seed |
| Lamport.BitsInjective | src/ranklock/authenticated_witness_lift.py:36-37 | byte strings with the same bits are equal |
| Lamport.BitsHighestFirst | src/ranklock/authenticated_witness_lift.py:36-37 | the bits are those of the bytes in order, within a byte the highest first |
| Lamport.SignatureReveals | src/ranklock/authenticated_witness_lift.py:82-89 | a signature reveals at each digest bit the secret of that bit |
| Lamport.VerifiesExactly | src/ranklock/authenticated_witness_lift.py:82-106 | honest signatures verify and no other signature does |
| Lamport.SecretsDistinct | src/ranklock/authenticated_witness_lift.py:70-79 | all 512 secrets differ |
| Lamport.SignaturesDiffer | src/ranklock/authenticated_witness_lift.py:82-89 | inputs with different digests reveal different secrets somewhere |
| Lamport.SignatureBindsConcatenation | src/ranklock/authenticated_witness_lift.py:32-33 | a signature carries over to another context and input exactly when both spell the same bytes |
| Lamport.ContextBoundaryIsNotBound | src/ranklock/authenticated_witness_lift.py:32-33 | one signature covering two different context and input pairs |
| Lamport.AuthenticationFixesInput | src/ranklock/authenticated_witness_lift.py:133-146 | a witness with the signature of one input is accepted exactly for that input and a proof of its invalidity |
| CounterproofSemantics.ComputeContextDigest | src/ranklock/authenticated_counterproof_semantics.py:46-57 | the step-by-step digest hashes domain, four length-prefixed fields and two indices in order |
| CounterproofSemantics.ComputeStatementDigest | src/ranklock/authenticated_counterproof_semantics.py:103-109 | the step-by-step digest hashes both inner digests and two length-prefixed fields |
| CounterproofSemantics.ContextPreimageInjective | src/ranklock/authenticated_counterproof_semantics.py:46-57 | variable-length context fields are unambiguous |
| CounterproofSemantics.StatementDigestBinds | src/ranklock/authenticated_counterproof_semantics.py:68-109 | equal digests force equal contexts, transactions, public values and relation tags |
| CounterproofSemantics.AcceptedStatementUnique | src/ranklock/authenticated_counterproof_semantics.py:111-121 | a proof's statement digest is accepted by at most one semantic statement, whoever signed it |
| CounterproofSemantics.AcceptsExactly | src/ranklock/authenticated_counterproof_semantics.py:80-121 | a statement is rejected exactly when a width, the transaction digest, the operator's signature, the proof or the proven digest fails |
| CounterproofSemantics.SigningMessageBinds | src/ranklock/authenticated_counterproof_semantics.py:72-78 | a signed message names one context and one transaction |
| CounterproofSemantics.AcceptedWasSigned | src/ranklock/authenticated_counterproof_semantics.py:80-121 | if its signature is no forgery, an accepted statement is about a context and a transaction that the operator signed together |
| CounterproofSemantics.AuthenticatedProofVerifies | src/ranklock/authenticated_counterproof_semantics.py:124-150 | a signed transaction verifies, in a context that differs only in the transaction digest |
| Codecs.CompactLawful | src/ranklock/bitcoin_authorization.py:55-93 | compact sizes parse back and only the shortest form parses |
| Codecs.ManyParseBack | src/ranklock/bitcoin_authorization.py:153-165 | a vector of encoded items parses back, whatever follows |
| Codecs.ManyReadExactly | src/ranklock/bitcoin_authorization.py:153-165 | a parsed vector is valid and is exactly the bytes that were read |
| BitcoinTransaction.ParseExactly | src/ranklock/bitcoin_authorization.py:125-237 | a byte string parses to a transaction exactly when it is that valid transaction's serialization within the size limit |
| BitcoinTransaction.StrippedDetermines | src/ranklock/bitcoin_authorization.py:210-234 | stripped bytes fix everything but the witnesses |
| BitcoinTransaction.StrippedIsWitnessless | src/ranklock/bitcoin_authorization.py:210-222 | the stripped bytes are the serialization of the same transaction without witnesses |
| BitcoinTransaction.OutpointNamesOutput | src/ranklock/bitcoin_authorization.py:153-165 | an outpoint is a transaction's id with an output index exactly when the input carries that transaction's double hash and the index on the wire |
| BitcoinTransaction.EncodingDetermines | src/ranklock/bitcoin_authorization.py:211-222 | one SegWit serialization, one transaction |
| BitcoinTransaction.SerializerEncodes | scripts/generate_v025_committee_qualification.py:196-235 | the hand-written serializer writes the canonical serialization of one one-input transaction, raising exactly for bad widths |
| BitcoinTransaction.SerializerParses | scripts/generate_v025_committee_qualification.py:196-235 | its output parses to that transaction exactly when it respects the parser's byte and item limits |
| BitcoinTransaction.WitnessIndependent | scripts/generate_v025_committee_qualification.py:196-235 | two outputs of the serializer within the limits that differ in witness arguments parse to transactions with equal stripped bytes and txid, and equal wtxids exactly for equal stacks |
| BitcoinTransaction.WtxidBinds | src/ranklock/bitcoin_authorization.py:211-235 | a witness id names one SegWit transaction |
| BitcoinTransaction.IdsAgreeExactly | src/ranklock/bitcoin_authorization.py:42-45 | without collisions the two ids of a transaction agree exactly when it carries no witnesses |
| Entropy.TranscriptBinds | scripts/generate_v025_committee_qualification.py:120-128 | under one seed a transcript names its domain and counter |
| Entropy.Source.Draw | scripts/generate_v025_committee_qualification.py:115-128 | the counter advances on every call and no transcript is ever expanded twice |
| Entropy.Source.Scalar | scripts/generate_v025_committee_qualification.py:130-131 | a nonzero scalar below the order from one draw |
| TransactionPlan.TemplateParsesBack | src/ranklock/authorization_transaction_plan.py:109-132 | a valid template parses back exactly when its continuation index is not the sentinel |
| TransactionPlan.TemplateReadsExactly | src/ranklock/authorization_transaction_plan.py:198-237 | bytes that parse as a template are its encoding |
| TransactionPlan.PlanParsesBack | src/ranklock/authorization_transaction_plan.py:303-361 | a valid plan parses back exactly when no template continues through the sentinel |
| TransactionPlan.PlanReadsExactly | src/ranklock/authorization_transaction_plan.py:337-361 | bytes that parse as a plan are its encoding |
| TransactionPlan.PlanDigestBinds | src/ranklock/authorization_transaction_plan.py:313-315 | a plan digest names one plan |
| TransactionPlan.BuiltTemplateAccepts | src/ranklock/authorization_transaction_plan.py:134-196 | a template accepts the transaction it was built from |
| TransactionPlan.StrippedDecides | src/ranklock/authorization_transaction_plan.py:171-196 | a template decides alike about transactions with the same stripped bytes |
| TransactionPlan.PlanAcceptsExactly | src/ranklock/authorization_transaction_plan.py:328-387 | a built plan accepts its own transactions and exactly the lists with the same stripped bytes, whatever their witnesses |
| TransactionPlan.AcceptedListIsChain | src/ranklock/authorization_transaction_plan.py:261-335 | every accepted list is, on the wire, one chain of spends from the deposit through existing outputs with the committed values and scripts |
| TransactionPlan.CollectExactly | src/ranklock/authorization_transaction_plan.py:374-384 | building fails exactly when some template fails, and keeps order |
| TransactionPlan.BuildsExactly | src/ranklock/authorization_transaction_plan.py:261-387 | a plan is built exactly from 1 to 65535 transactions that parse, have the named input and output, and on the wire spend the deposit and then each other with distinct ids; it holds the given genesis hash and deposit and records every transaction |
| PatchEngine.ReplaceIsJoin | integration/alpen-validity-first-f94c-v025/apply_validity_first.py:57-69 | replacement cuts at the counted occurrences, the empty anchor around every character included, and joins the same pieces with the new text |
| PatchEngine.PiecesLeftmost | integration/alpen-validity-first-f94c-v025/apply_validity_first.py:57-69 | the kept pieces are cut leftmost: no occurrence begins before the anchor that ends a piece, none at all in the last |
| PatchEngine.PiecesUnique | integration/alpen-validity-first-f94c-v025/apply_validity_first.py:57-69 | no other cut of the text at the anchor is leftmost |
| PatchEngine.ReplaceLength | integration/alpen-validity-first-f94c-v025/apply_validity_first.py:57-69 | each counted occurrence changes the length by the difference of the two texts |
| PatchEngine.OnceIsExactlyOne | integration/alpen-validity-first-f94c-v025/apply_validity_first.py:57-76 | replacing once and replacing exactly one occurrence are the same edit |
| PatchEngine.Repository.PatchFile | integration/alpen-validity-first-f94c-v025/apply_validity_first.py:79-88 | writes the in-order fold of the edits exactly when the file exists and every edit matches, and nothing in a dry run |
| PatchEngine.Repository.InstallOverlay | integration/alpen-validity-first-f94c-v025/apply_validity_first.py:91-104 | installs a bundled file exactly when there is no file yet or replacing it is expected |
| PatchEngine.Repository.SpliceFile | integration/alpen-validity-first-f94c-v025/apply_validity_first.py:519-657 | rewrites an existing file by a splice of its own, or fails without change |
| PatchEngine.Repository.Apply | integration/alpen-validity-first-f94c-v025/apply_validity_first.py:107-210 | on the pinned tree runs the jobs in order up to the first failure; any other tree is refused unchanged |
| PatchEngine.Repository.RunNackDeltas | integration/alpen-validity-first-f94c-v025/apply_validity_first.py:1268-1288 | a dry run checks both NACK diffs against one tree, a real run applies the second behind the first |
| PatchEngine.Repository.Preflight | integration/alpen-validity-first-f94c-v025/apply_validity_first.py:1408-1426 | accepts exactly when jobs, formatting and acknowledgement diff succeed on a disposable pinned tree and both NACK diffs apply to the result |
| PatchEngine.Repository.Install | integration/alpen-validity-first-f94c-v025/apply_validity_first.py:1504-1515 | for every job list the installation completes exactly when dry run, pre-flight and both NACK diffs succeed, and otherwise leaves every file as it was, but for a second NACK diff that fails behind the first |
| PatchEngine.NackDiffsCanConflict | integration/alpen-validity-first-f94c-v025/apply_validity_first.py:1268-1288 | NACK diffs that the pre-flight accepts and the installation cannot complete |
| PatchEngine.DryRunExactly | integration/alpen-validity-first-f94c-v025/apply_validity_first.py:50-210 | a dry run changes no file and passes exactly when every job applies to the given files |
| PatchEngine.RealRunInTurn | integration/alpen-validity-first-f94c-v025/apply_validity_first.py:50-210 | the real run succeeds exactly when every job applies to what its predecessors on the same target leave |
| PatchEngine.DryRunFaithful | integration/alpen-validity-first-f94c-v025/apply_validity_first.py:50-210 | the dry run predicts the real run exactly when some first job of a target does not apply, or the jobs on repeated targets all apply to the given files just when they all apply in turn |
| PatchEngine.RealRunInstalls | integration/alpen-validity-first-f94c-v025/apply_validity_first.py:50-210 | a real run succeeds exactly when the jobs of each target succeed one behind the other, and leaves in every file what its own jobs made of it |
| PatchEngine.PatchesConcatenate | integration/alpen-validity-first-f94c-v025/apply_validity_first.py:79-88 | a target patched several times ends as the fold of the concatenated edit lists |
| PatchEngine.RepeatedTargetsDisagree | integration/alpen-validity-first-f94c-v025/apply_validity_first.py:50-88 | job lists with a repeated target on which either run fails alone |
| NackDuties.MatureExactly | integration/alpen-validity-first-f94c-v025/apply_validity_first.py:556-569 | the saturating gate is tip + 1 >= conf + delay, except that the last two heights always pass |
| NackDuties.NacksExactly | integration/alpen-validity-first-f94c-v025/apply_validity_first.py:562-587 | a NACK is due exactly for the slots of un-nacked, matured entries, where the slot has a subgraph and signatures |
| NackDuties.CollectedConcatenate | integration/alpen-validity-first-f94c-v025/apply_validity_first.py:563-587 | entries are treated one by one and in order |
| NackDuties.CounterProofPosted.BlockNacks | integration/alpen-validity-first-f94c-v025/apply_validity_first.py:562-587 | the block handler's loop, with the event's height and the owner's slots, yields exactly those NACKs in order |
| NackDuties.CounterProofPosted.RetryNacks | integration/alpen-validity-first-f94c-v025/apply_validity_first.py:715-738 | the retry handler's loop, with the last height and the slots of the point of view, yields exactly those NACKs in order |
| NackDuties.CounterProofPosted.NewBlock | integration/alpen-validity-first-f94c-v025/apply_validity_first.py:540-652 | records the height and answers slash, NACKs, contested payout, acknowledgement or proof timeout in that order of precedence; an overflowing proof deadline aborts |
| NackDuties.CounterProofPosted.Retry | integration/alpen-validity-first-f94c-v025/apply_validity_first.py:690-768 | an own graph asks for the missing bridge proof and then the NACKs; another graph acknowledges, counters, stays silent or raises |
| NackDuties.CounterProofPosted.ProcessCounterproof | integration/alpen-validity-first-f94c-v025/new_files/crates/bridge-sm/src/graph/transitions/counterproof.rs:127-181 | a duplicate or rejected counterproof changes nothing; an accepted one is inserted in order, sets the height and may ask for an acknowledgement |
| NackDuties.RunKeepsOrder | integration/alpen-validity-first-f94c-v025/new_files/crates/bridge-sm/src/graph/transitions/counterproof.rs:140-164 | over every run the posted counterproofs stay in order, one per counterprover |
| NackDuties.EntriesExactly | integration/alpen-validity-first-f94c-v025/new_files/crates/bridge-sm/src/graph/transitions/counterproof.rs:140-176 | over every run the entries are those of the start and those that an accepted counterproof left |
| NackDuties.HeightIsLatest | integration/alpen-validity-first-f94c-v025/new_files/crates/bridge-sm/src/graph/transitions/counterproof.rs:159-176 | the height after a run is that of its last block or accepted counterproof |
| NackDuties.PostedExactly | integration/alpen-validity-first-f94c-v025/new_files/crates/bridge-sm/src/graph/transitions/counterproof.rs:127-248 | over every run a counterproof is accepted exactly when it passes validation, is the first of its counterprover and has a slot, usable if an acknowledgement is due; and only the own one, with a refuted proof, asks for anything |
| NackDuties.HandlersAgree | integration/alpen-validity-first-f94c-v025/apply_validity_first.py:553-739 | on an own graph with no slash due a block and the retry after it ask for the same ordered NACKs, although each resolves slots and reads the height in its own way; a block without NACKs asks for a due contested payout and nothing else |
| NackDuties.EligibleUntilNacked | integration/alpen-validity-first-f94c-v025/apply_validity_first.py:563-569 | along rising heights, with counterproofs arriving, an eligible entry stays eligible exactly until its NACK is recorded |
| NackDuties.NackAskedExactly | integration/alpen-validity-first-f94c-v025/apply_validity_first.py:553-739 | once an entry of an own graph has matured, every block without a due slash and every retry of the run asks for its NACK exactly until that NACK is recorded; a block with a due slash answers with the slash alone |
| NackDuties.AckAskedExactly | integration/alpen-validity-first-f94c-v025/apply_validity_first.py:605-750 | on another operator's graph, once the own counterproof is confirmed and the proof refuted, every block with no timeout due and every retry of the run asks for its acknowledgement exactly until its NACK is recorded |
| NackDuties.NoSlotToAcknowledge | integration/alpen-validity-first-f94c-v025/apply_validity_first.py:605-750 | without a usable slot blocks stay silent while every retry until the NACK raises |
| NackDuties.CounterproofAskedExactly | integration/alpen-validity-first-f94c-v025/apply_validity_first.py:605-766 | before that confirmation blocks are silent and every retry asks for the own counterproof, or raises when its duty cannot be built |
| NackDuties.ProofTimeoutExactly | integration/alpen-validity-first-f94c-v025/apply_validity_first.py:636-652 | for an unrefuted, unfulfilled claim a block with no timeout due asks for the bridge-proof timeout exactly beyond contest height plus timelock; an overflowing sum aborts; retries ask for nothing |

## Left out

- Execute: does not tell the exception classes apart; every refusal before the burn is one value, every failure after it another.
- IssueLabelRelease: says when issue may succeed, and that it does when signing returns 64 bytes, because signing is a parameter.
- NewBlock: the slash and contested-payout timeouts are parameters, because the functions that decide them are not part of this repository.
- Retry: whether the duty of an own counterproof can be built is a parameter, for the same reason.
- ProcessCounterproof: the checks of operator index, transaction id and witness bytes are one flag; counterproofs that open the state, bridge proofs that arrive within it and the NACK that ends it are not events of the model.
- Install: failures of git and the file system, the copied sidecar fixture and the check-only mode; formatting and diffs are functions from tree to tree.
- The key derivation and associated data of the KZG envelope: its cipher is a function of session and statement.
- SHA-256, SHAKE-256, ChaCha20-Poly1305, BIP 340 and BN254 themselves: functions with stated laws; point compression may raise on any point.
- Hiding, extractability, unpredictability of the beacon and every probability but the exact counts; floating-point rounding of `log2`.
- The duty-free-bits parser and replay, and the nonce namespace it validates: two functions that may fail, called in the original's order.
- Of a manifest the optional generator-hash check and the parser: execution uses neither. Contributors are sorted by construction, so comparing sorted keys is a comparison of multisets.
- The durable two-phase ledger, committee authorization and sidecars: not part of this model.
- Byte-level views of fields the model keeps as values: transaction version and lock time as integers, input sequences, witness digests and the binding record of one transaction.
- The parsing cursor of the transaction reader is the unread rest of the bytes, and the ordered map of counterproofs is the sequence of its entries in key order.
- The three continuation fields of a template are one optional record, so the mixed case that construction rejects cannot be written down.
- Group elements are values, so aliasing of point objects and their projective representations are not captured.
- The taproot script builder, the selector template and the rest of the qualification script: fixture data.
- What the individual splices, edits and diffs of the installer say.
- Cost inventories, claim-boundary records, checkpoints, documents and the attack demonstrations that only build fixtures.
