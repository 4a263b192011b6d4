# Vexo consensus: a Dafny model

This project models the parts of the Vexo proof-of-stake framework whose
correctness is hardest to see from the code, and proves what they promise.
`dafny verify dfyconfig.toml` covers everything.

- **Data availability** (`GF256`, `Matrix`, `Vandermonde`, `TxCodec`, `Chunks`,
  `Merkle`, `Erasure`, `Availability`): the field GF(256), Gauss-Jordan elimination in
  place, matrices of powers, the transaction codec, chunking, the Merkle tree, and
  Reed-Solomon recovery from any subset of chunks.
- **Canonical ordering** (`FairOrdering`): the merge of per-signer chains has one
  possible result for each multiset of transactions, and the check accepts
  exactly that one.
- **Addresses** (`BitGroups`, `Bech32`): bit regrouping, the GF(32) checksum, and
  an encoder and decoder that are inverse both ways.
- **Finality** (`Validators`, `Signers`, `Certificates`, `Finality`,
  `AccountableSafety`): quorum certificates from votes, the verifier that accepts
  them, and conflicting proofs that expose a third of the voting power.
- **Consensus on one node** (`BlockTree`, `CommitLog`, `Timeouts`, `Evidence`,
  `Ballots`, `StateMachine`): a class whose invariant every handler keeps, so that
  it holds in every run, whatever messages arrive in whatever order.
- **State that survives crashes** (`VoteWal`, `BatchDag`, `StagedStore`): in each a
  cache or a log agrees with a simple reference.
- **Packets, nonces, fees** (`IbcKeys`, `Ibc`, `Ante`, `BaseFee`).

SHA-256 is an ideal hash: where its structure matters a hash is a term of the
datatype `Types.Hash`, one constructor for each kind of preimage, and elsewhere it
is a function given as a parameter; a claim that rests on there being no collision
names the two inputs that would collide. 64-bit counters that can wrap or saturate do so
in the model. A map that the source nests by height and round is one map with a
tuple as its key. A map iteration in Go takes its elements in any order here too.
Identifiers, keys and namespaces are byte strings.

Some promises do not hold on all inputs. For these the model keeps the code as it
is, shows an input on which the promise fails, and proves it under a condition that
can be looked up beforehand:

- three or more parity shards (`Availability.ThreeParityShardsMayFail`): recovery
  succeeds if and only if the equations used are non-singular. One or two parity
  shards always guarantee this, and so does a run of consecutive missing chunks with
  any number of shards. For evenly spaced missing chunks, two among them,
  `Availability.SpacedRecoverable` turns it into equations modulo 255 between the
  logarithms of the shards and the distance of the chunks;
- a total voting power that was cut off at 64 bits. Two quorums share a third of the
  power for all sums up to the cut, and for no larger sum in general
  (`Validators.SaturatedOverlap`); they meet at all for sums below four thirds of it,
  and for no larger sum in general (`Validators.SaturatedQuorums`);
- a node that goes on after the append of a vote was lost and signs the same height
  and round again (`VoteWal.GoingOnSignsTwice`): released votes have one target in all
  runs where this does not happen (`VoteWal.Run`), and every state in which it can
  happen leads to two targets (`VoteWal.ForgottenSignsTwice`). Timeout votes have one
  certificate in every run;
- a block in which one signer mixes native and raw Ethereum transactions
  (`Ante.MixedBlockPassesCheck`, `Ante.MixedBlockExecutes`): the check of a block and its execution agree if and
  only if there is none (`Ante.CheckAgainstExecution`);
- a packet timed out by a caller who names another timeout than it was sent with
  (`Ibc.TimedOutEarly`, `Ibc.Keeper.TimelyExactly`);
- fee limits whose minimum is above the maximum (`BaseFee.MaximumWins`).

## Model

| member | source | states |
|---|---|---|
| GF256.OrderOfTwo | dataavailability/dataavailability.go:866-882 | no power of 2 in the 0x11d field between the 0th and the 255th is one, so 2 is a generator |
| GF256.EveryByteIsAPower | dataavailability/dataavailability.go:866-882 | every non-zero byte is a power of 2, so the logarithm table is total |
| GF256.BuildTables | dataavailability/dataavailability.go:866-882 | the loop fills the tables with the powers of 2 and their logarithms |
| GF256.MulIsProduct | dataavailability/dataavailability.go:884-889 | multiplication through the tables equals shift-and-add multiplication in the field |
| GF256.MulAssociates | dataavailability/dataavailability.go:884-889 | multiplication through the tables is associative |
| GF256.MulDistributes | dataavailability/dataavailability.go:884-889 | multiplication through the tables distributes over exclusive or |
| GF256.PowIsIterated | dataavailability/dataavailability.go:891-900 | the table power equals repeated multiplication, for all 64-bit and larger exponents |
| GF256.InvSpec | dataavailability/dataavailability.go:902-907 | every non-zero byte times its inverse is one |
| GF256.SamePower | dataavailability/dataavailability.go:866-900 | two powers of 2 are equal if and only if their exponents agree modulo 255 |
| Matrix.InvertMatrix | dataavailability/dataavailability.go:802-846 | elimination in place succeeds exactly on square non-singular matrices, and its result is the inverse |
| Matrix.NoPivotMeansSingular | dataavailability/dataavailability.go:802-846 | a column without a pivot proves that the matrix has a non-trivial kernel |
| Matrix.InverseTimesMatrix | dataavailability/dataavailability.go:802-846 | every row of the computed inverse times every column of the matrix is an entry of the identity |
| Vandermonde.TooManyRoots | dataavailability/dataavailability.go:739-780 | a polynomial over the field with as many different roots as coefficients is zero |
| Vandermonde.SingularIfSame | dataavailability/dataavailability.go:739-780 | a matrix whose rows are scaled powers of points is singular if and only if two points are the same |
| TxCodec.EncodeTransactions | dataavailability/dataavailability.go:526-538 | the loop produces the length-prefixed encoding |
| TxCodec.DecodeTransactions | dataavailability/dataavailability.go:540-563 | the loop agrees with the recursive decoder on every input, errors included |
| TxCodec.DecodeEncode | dataavailability/dataavailability.go:526-563 | decoding an encoding gives the transactions back |
| TxCodec.EncodeDecode | dataavailability/dataavailability.go:526-563 | whatever the decoder accepts is the encoding of its result, so encodings are unique |
| TxCodec.DigitAt | dataavailability/dataavailability.go:848-852 | the bytes of a number are its digits to base 256, the most significant one first |
| Chunks.SplitChunks | dataavailability/dataavailability.go:565-584 | the chunks are the consecutive pieces of the data, and sizes out of range are refused |
| Chunks.JoinSplit | dataavailability/dataavailability.go:565-584 | joining the chunks gives the data back |
| Merkle.MerkleRoot | dataavailability/dataavailability.go:638-656 | the level-by-level loop computes the recursive root, with odd nodes paired with themselves |
| Merkle.RootIsTop | dataavailability/dataavailability.go:638-656 | the root is the node that positions and levels alone define as the top |
| Merkle.MerklePath | dataavailability/dataavailability.go:658-684 | the loop collects the siblings on the way from a leaf to the root |
| Merkle.PathReachesRoot | dataavailability/dataavailability.go:658-694 | climbing the path built for any leaf reaches the root |
| Merkle.VerifyChunkProof | dataavailability/dataavailability.go:203-219 | a proof is accepted if and only if its fields are in range and its path climbs to its commitment |
| Merkle.AcceptedProofIsGenuine | dataavailability/dataavailability.go:203-219 | a proof accepted against the root of a chunk list carries a chunk of that list, whatever the length of its path |
| Merkle.BuildChunkProof | dataavailability/dataavailability.go:168-201 | the proof built for an index is accepted and carries the root and the chunk of that index |
| Merkle.VerifySamples | dataavailability/dataavailability.go:305-356 | samples are accepted if and only if each requested index is proved exactly once, with the report computed from them |
| Merkle.SamplesAreGenuine | dataavailability/dataavailability.go:305-356 | accepted samples against a root cover exactly the requested indices with the data of the committed chunks |
| Erasure.XorMulInto | dataavailability/dataavailability.go:708-719 | the in-place loop adds a scaled vector to the buffer |
| Erasure.AdjustParity | dataavailability/dataavailability.go:739-780 | subtracting the known chunks from a parity chunk leaves the combination of the missing ones |
| Erasure.GenuineEquation | dataavailability/dataavailability.go:739-780 | for genuine chunks each adjusted parity row is an equation that the missing chunks satisfy |
| Erasure.SolveRecovers | dataavailability/dataavailability.go:739-780 | applying the inverse to the right sides gives each missing chunk |
| Erasure.RecoverGroup | dataavailability/dataavailability.go:739-791 | a group is solved if and only if it misses no more chunks than it holds parity for and its equations are non-singular, and then with the genuine chunks |
| Availability.ChunkRoot | dataavailability/dataavailability.go:611-625 | the root is taken over the leaves in index order |
| Availability.BuildProof | dataavailability/dataavailability.go:104-131 | the proof commits to the split encoding of the transactions; options out of range are refused |
| Availability.ReedSolomonParity | dataavailability/dataavailability.go:586-609 | every byte of a parity chunk is the field sum of the bytes that the chunks of its group have at that place, each times a power of its shard's point; a chunk too short to have one adds nothing |
| Availability.CombineSkips | dataavailability/dataavailability.go:586-609 | combining padded chunks is that sum over the chunks as they are |
| Availability.ParitySums | dataavailability/dataavailability.go:586-609 | so a parity chunk holds that sum at every place up to the chunk size, for whole groups and for a shorter last one |
| Availability.CollectData | dataavailability/dataavailability.go:414-506 | data chunks are accepted if and only if all are in range and no index repeats |
| Availability.CollectParity | dataavailability/dataavailability.go:414-506 | parity chunks are filed by group and shard, and refused on range or repetition |
| Availability.RecoverData | dataavailability/dataavailability.go:414-506 | against a proof for some data the result is that data or an error, whatever the chunks; the inputs are called invalid exactly for fields or chunks out of range or an index that repeats; genuine chunks are recovered if and only if every group is solvable, and fail only for want of chunks |
| Availability.RecoverTransactions | dataavailability/dataavailability.go:358-364 | a result for arbitrary chunks is the committed transaction list, and genuine chunks give it back if and only if recoverable |
| Availability.BuiltIsGenuine | dataavailability/dataavailability.go:586-609 | any distinct chunks and parity chunks out of those built for the data count as genuine, in any order |
| Availability.SmallParityRecovers | dataavailability/dataavailability.go:739-780 | with one or two parity shards every group with no more missing chunks than parity chunks is recovered |
| Availability.SpacedRecoverable | dataavailability/dataavailability.go:739-780 | a group with evenly spaced missing chunks is recovered if and only if no two of the shards used have logarithms that agree modulo 255 when scaled by the distance |
| Availability.RunsRecover | dataavailability/dataavailability.go:414-506 | with any number of parity shards, all is recovered if each group misses one chunk or a run of consecutive chunks, no more than it holds parity for |
| Availability.TwoMissingRecoverable | dataavailability/dataavailability.go:739-780 | with two chunks missing, a group is recovered if and only if its first two parity shards are not alike at the distance of the chunks |
| Availability.ThreeParityShardsMayFail | dataavailability/dataavailability.go:739-780 | with three parity shards two missing chunks and two parity chunks can be unsolvable |
| Availability.CommitmentNotZero | dataavailability/dataavailability.go:508-524 | no transaction list has a blank commitment, so an attached one is never taken for missing data |
| Availability.CommitmentBinding | dataavailability/dataavailability.go:133-136 | two transaction lists with the same commitment are the same list |
| Availability.ShortCommitment | dataavailability/dataavailability.go:133-136 | up to 1024 bytes of encoding the commitment is the hash of one chunk, and up to twice as many that of two |
| FairOrdering.TransactionChains | fairordering/fairordering.go:118-155 | the chains hold exactly the input, one sorted chain per signer and one for each unsigned transaction |
| FairOrdering.PopLeast | fairordering/fairordering.go:94-116 | the popped entry is one that no other goes before, and the rest stays |
| Sorting.LexIsPrecedes | fairordering/fairordering.go:94-99 | the comparison by bytes decides at the first place where the hashes differ, the smaller byte first |
| FairOrdering.LeastIsNext | fairordering/fairordering.go:45-63 | the least queued head is the eligible transaction with the least hash |
| FairOrdering.SortTxs | fairordering/fairordering.go:45-63 | the output is a permutation of the input and the only canonical order of it: nothing comes before what it waits for, and whatever does not wait comes in the order of the hash bytes |
| FairOrdering.CanonicalUnique | fairordering/fairordering.go:69-77 | a multiset of transactions has at most one canonical order |
| FairOrdering.CanonicalNonces | fairordering/fairordering.go:131-152 | a canonical order keeps every signer's nonces non-decreasing |
| FairOrdering.CanonicalIsInOrder | fairordering/fairordering.go:45-99 | a list is canonical if and only if nothing comes before a lower nonce of its signer, and of all that need not wait for another the one with the least hash comes next, least at the first byte that differs |
| FairOrdering.IsOrdered | fairordering/fairordering.go:69-77 | a list is accepted if and only if it is in canonical order, said with hash bytes, nonces and places |
| BitGroups.ConvertBits | address/bech32.go:112-137 | the result spells the same number in the other width, and an error means that no such regrouping exists |
| BitGroups.RegroupBack | address/bech32.go:112-137 | padding to 5 bits and regrouping back to 8 bits without padding are the same relation |
| Bech32.Polymod | address/bech32.go:97-110 | the register loop folds the linear step over all values; what the step adds is `Bech32.FeedbackIsProduct` |
| Bech32.FeedbackIsProduct | address/bech32.go:97-110 | what a step feeds back is the symbol shifted out times the generator polynomial, whose coefficients are 29, 22, 20, 21, 29 and 18 in GF(32) |
| Bech32.GeneratorIsMultiple | address/bech32.go:97-110 | the five constants are the multiples 1, 2, 4, 8 and 16 of that polynomial |
| Bech32.StepLinear | address/bech32.go:97-110 | one step of the register is linear over exclusive or |
| Bech32.ChecksumIsLinear | address/bech32.go:70-83 | six more symbols add their packed value to the register that six zeros leave |
| Bech32.ChecksumUnique | address/bech32.go:70-83 | exactly one choice of six symbols makes a word valid |
| Bech32.NearbyErrors | address/bech32.go:81-110 | two words with the same register that differ in at most six neighbouring symbols are the same word |
| Bech32.CreateChecksum | address/bech32.go:70-79 | the created checksum is that one choice |
| Bech32.ExpandHrp | address/bech32.go:85-95 | the loops list the high bits, a zero and the low bits of the characters |
| Bech32.ExpandInjective | address/bech32.go:85-95 | the listed values fix the human readable part |
| Bech32.ValidateHrp | address/address.go:83-93 | a human readable part is valid if and only if it is non-empty, lower-case and printable |
| Bech32.Encode | address/bech32.go:15-33 | the result is the one text that encodes the human readable part and the payload |
| Bech32.Decode | address/bech32.go:35-68 | the decoder returns the one meaning of a text and refuses texts without one, with the source's three errors |
| Bech32.EncodingUnique | address/bech32.go:15-33 | a payload has at most one encoding |
| Bech32.MeaningUnique | address/bech32.go:35-68 | a text has at most one meaning |
| Bech32.EncodingDecodes | address/bech32.go:15-68 | an encoding is lower-case and means what was encoded |
| Bech32.DecodeEncoded | address/bech32.go:15-68 | decoding the encoding of any payload under a valid human readable part gives both back |
| Bech32.EncodeDecoded | address/bech32.go:15-68 | encoding what was decoded gives the lower-case form of the text |
| Bech32.NearbyTexts | address/bech32.go:35-68 | two encodings that differ in at most six neighbouring symbols are the same text |
| Bech32.ErrorsRefused | address/bech32.go:35-68 | so a text with up to six neighbouring symbols changed decodes to nothing |
| Bech32.WrongSymbolRefused | address/bech32.go:35-68 | nor does one with a single wrong symbol, wherever it is |
| Bech32.FromPublicKey | address/address.go:38-51 | the address of a key is the encoding of the first twenty bytes of the hash of prefix, key and line end; it is valid for its own human readable part and for no other |
| Bech32.Validate | address/address.go:53-65 | an address is valid if and only if it decodes to twenty bytes under the expected part |
| Validators.TwoThirdsThreshold | types/types.go:73-84 | the threshold is the least power that is two thirds of the total |
| Validators.NewSnapshot | validator/set.go:17-33 | the loop keeps the last validator of each id and the sum of the powers, cut off at 64 bits |
| Validators.PowerIsWeight | validator/set.go:17-49 | adding up the powers of distinct ids gives the weight of their set |
| Validators.QuorumOverlap | types/types.go:73-91 | for every set, two quorums share at least what twice the threshold exceeds the sum of the powers by |
| Validators.QuorumsIntersect | types/types.go:86-91 | two quorums share a third of the total, if the total was not cut off |
| Validators.DisjointQuorums | types/types.go:73-91 | no two disjoint groups are quorums while the sum of the powers is below twice the threshold |
| Validators.RoomForOne | types/types.go:73-84 | that is so for every total that was not cut off, and otherwise exactly for sums below four thirds of the 64-bit range |
| Validators.SaturatedOverlap | validator/set.go:17-33 | for every sum that is cut off some set has two quorums that share less than a third of the total |
| Validators.SaturatedQuorums | types/types.go:65-91 | for every sum not below twice the threshold some set has two disjoint quorums |
| Signers.EncodeSigners | finality/proof.go:62-68 | the encoded list stands for the given ids and no others, for non-empty comma-free ids |
| Signers.ParseSigners | finality/proof.go:70-84 | parsing finds the one list of names that a signer list encodes, or none |
| Signers.SplitJoin | finality/proof.go:62-84 | splitting a joined list gives the parts back |
| Signers.JoinSplit | finality/proof.go:62-84 | joining the parts of a split gives the text back |
| Certificates.Aggregate | crypto/deterministic.go:54-67 | the loop hashes the concatenated signatures and refuses missing ones |
| Certificates.VerifyAggregate | crypto/deterministic.go:69-86 | an aggregate is accepted if and only if it is that of the keys' signatures |
| Certificates.SignatureFixesMessage | crypto/deterministic.go:46-52 | a signature that is good for two messages is a hash collision |
| Certificates.AggregateFixesMessage | crypto/deterministic.go:69-86 | so is an aggregate |
| Certificates.VoteBytesAre | signbytes/signbytes.go:9-16 | the signed bytes are the tag, height and round in eight bytes each, and the hash |
| Certificates.VoteMessageFixes | signbytes/signbytes.go:9-16 | two signed messages are equal if and only if height, round and written hash are |
| Certificates.DomainsSeparate | crypto/domain.go:118-131 | messages of domains that differ at some character are different |
| Certificates.Collect | consensus/state_machine.go:412-459 | signers, power and aggregate are collected from the known voters in id order, and failure means that no quorum can be collected |
| Certificates.BuildQuorumCert | consensus/state_machine.go:412-468 | a certificate is built if and only if the known voters allow one, and it is made of them |
| Certificates.BuiltHasQuorum | consensus/state_machine.go:412-468 | a built certificate carries exactly the weight of its known voters, which is a quorum |
| Certificates.OneQuorum | consensus/state_machine.go:412-440 | of two disjoint groups of voters at most one gets a certificate, while the powers have no room for two quorums |
| Finality.CheckSigners | finality/verifier.go:139-158 | signers are accepted if and only if distinct, known and within 64 bits, with their power and keys |
| Finality.VerifyQuorumCert | finality/verifier.go:122-170 | a certificate is accepted if and only if a quorum of distinct validators signed this height, round and block |
| Finality.CertFixesVote | finality/verifier.go:122-170 | one signature of the same signers is good for one height, round and block, unless it shows a hash collision |
| Finality.ChangedCertRefused | finality/verifier.go:122-170 | so an accepted certificate is refused with any other height, round or block, unless that shows a hash collision |
| Finality.VerifyCommitChain | finality/verifier.go:172-222 | a commit chain is accepted if and only if every link follows and certifies the one before it |
| Finality.ChainFixesRoot | finality/verifier.go:172-222 | accepted chains that end in the same hash have the same headers and start from the same block |
| Finality.VerifyFinalityProof | finality/verifier.go:98-120 | a proof is accepted if and only if set, heights, certificate and chain are |
| Finality.SignedIsRoot | finality/proof.go:39-60 | what was signed for an accepted proof is its own block at its own height, and for a link of its chain the block before it |
| Finality.BuiltCertAccepted | finality/verifier.go:122-170 | every certificate built from verified votes passes the verifier for the same set, with the deterministic backend |
| Finality.BuiltProofAccepted | finality/builder.go:5-17 | so does the finality proof made from such a certificate, which is about the voted block under the set of its own height |
| AccountableSafety.FaultPowerThreshold | finality/attack_detector.go:234-243 | the threshold is the least power that is a third of the total |
| AccountableSafety.OverlappingVotingPower | finality/attack_detector.go:193-224 | the overlap is the sorted intersection of the signers with its weight |
| AccountableSafety.ComparedBlock | finality/attack_detector.go:183-191 | the block that the detector compares is the one that an accepted proof is about |
| AccountableSafety.Detect | finality/attack_detector.go:118-181 | accepted conflicting proofs always give a violation, which names exactly the signers of both |
| AccountableSafety.ConflictMeetsThreshold | finality/attack_detector.go:60-62 | what the violation of a conflict holds is at least a third of the total power and not below the threshold, which is not zero |
| AccountableSafety.AttackDetector.Observe | finality/attack_detector.go:90-112 | the first accepted proof of a height is kept, and a later conflicting one exposes its double signers |
| BlockTrees.ExtendsIsPartialOrder | consensus/block_tree.go:84-99 | extending is reflexive, antisymmetric and transitive, and one block's ancestors form a chain |
| BlockTrees.GrowthKeepsAncestry | consensus/block_tree.go:34-47 | inserting blocks keeps every ancestry |
| BlockTrees.SameHash | consensus/hash.go:10-33 | a block hash fixes the header up to a blank transaction root |
| BlockTrees.SameTransactions | consensus/hash.go:10-33 | among blocks with a blank or right transaction root the hash fixes the transactions too |
| BlockTrees.BlockTree.Insert | consensus/block_tree.go:34-47 | the node is stored under its hash, keeps the certificate it had, and its justification is observed |
| BlockTrees.BlockTree.SetQuorumCert | consensus/block_tree.go:54-69 | a certificate is stored only at a known block of its height |
| BlockTrees.BlockTree.ObserveQuorumCert | consensus/block_tree.go:71-78 | the high certificate only moves to a better one |
| BlockTrees.BlockTree.Extends | consensus/block_tree.go:84-99 | the walk ends and decides ancestry |
| BlockTrees.DecisionHasDescendants | consensus/commit_rule.go:31-61 | a decided block has two descendants in the tree, linked by previous block hash, at the next two heights; which blocks are decided is `BlockTrees.DecisionExactly` |
| BlockTrees.DecisionExactly | consensus/commit_rule.go:31-61 | a block is decided with a certificate if and only if the tree has a block two heights above that carries a certificate for a block one height above, which carries this certificate for it |
| CommitLog.Logged | consensus/state_machine.go:593-611 | a new decision keeps the log strictly increasing in height, with distinct hashes and both indexes exact |
| Timeouts.TimeoutCollector.AddVote | consensus/timeout.go:43-56 | the first timeout vote of a validator in a round stays and a later one is refused if and only if its certificate has another height, round or block; no other vote changes |
| Timeouts.TimeoutCollector.BuildTimeoutCert | consensus/timeout.go:70-128 | a certificate is built if and only if a quorum of known validators timed out, with a best certificate of theirs |
| Timeouts.Pacemaker.AdvanceRound | consensus/pacemaker.go:29-43 | stale certificates are refused and the pacemaker moves strictly ahead unless the round counter wraps |
| ConflictEvidence.NewEvidenceVerifies | consensus/evidence.go:254-277 | evidence is made of two votes if and only if they conflict, and then passes its check |
| ConflictEvidence.NewTimeoutEvidenceVerifies | consensus/evidence.go:279-302 | evidence is made of two timeout votes if and only if their certificates differ in height, round or block, and then passes its check |
| ConflictEvidence.HonestNeverNamed | consensus/evidence.go:778-824 | sound evidence never names a validator with one target per height and round among the verified votes |
| Ballots.RecordKeepsBallots | consensus/state_machine.go:679-693 | recording a vote keeps every vote filed under its own target and voter |
| Ballots.Recorded | consensus/state_machine.go:679-703 | recording adds the vote under its own target and voter, and changes nothing else |
| Ballots.VotersDisjoint | consensus/state_machine.go:679-703 | the voters of different blocks of one height and round are disjoint |
| Ballots.OneCertifiedBlock | consensus/state_machine.go:412-440 | so at most one block of a height and round can be certified |
| Consensus.StateMachine.constructor | consensus/state_machine.go:70-105 | a new machine satisfies the invariant |
| Consensus.Screen | consensus/state_machine.go:180-209 | a proposal is accepted if and only if it meets all ten conditions on proposer, signature, chain, height, validator set, order, data and justification, and is otherwise refused for the first in that order which it does not meet |
| Consensus.StateMachine.OnProposal | consensus/state_machine.go:171-238 | keeps the invariant; says when a proposal is refused, stale, unsafe or accepted; every new entry of the log is a block that starts three at successive heights in the tree, and once the proposal is inserted every block that starts three is in the log, unless a clash is reported |
| Consensus.StateMachine.CreateProposal | consensus/state_machine.go:138-169 | the proposal holds the given transactions in canonical order, builds on the block of the certificate chosen unless told otherwise, carries the commitment to its data, and passes the data, parent and lock checks when these are left to the machine |
| Consensus.StateMachine.ProposeToItself | consensus/state_machine.go:138-238 | a machine never refuses its own proposal for order, data, parent or lock; it refuses it exactly for a bad signature or a missing height, calls it stale only if certified already or behind, and otherwise accepts it unless a due decision clashes |
| Consensus.StateMachine.ProposalQC | consensus/state_machine.go:653-668 | the certificate to build on is the lock if there is no high certificate, the high one if there is no lock, and else the high one if and only if its block extends that of the lock |
| Consensus.StateMachine.IsSafeProposal | consensus/state_machine.go:613-622 | a proposal is safe if and only if it builds on the lock or on a certificate not below it |
| Consensus.StateMachine.ApplyCommitRule | consensus/state_machine.go:593-611 | a decision is logged once, conflicts exactly with another block of its height, and keeps the log |
| Consensus.StateMachine.ApplyKnownCommitRules | consensus/state_machine.go:254-265 | in any order of visiting, all blocks that start three at successive heights are logged or a real clash is reported, and no other block is |
| Consensus.DueExactly | consensus/state_machine.go:593-611 | the decision due at a block is that on the first of the three blocks that end there, and none without such three |
| Consensus.StateMachine.ValidateVote | consensus/state_machine.go:306-333 | a vote is admitted if and only if signed, fresh, for a known block of its height and safe |
| Consensus.SignatureFixesVote | consensus/state_machine.go:306-333 | two votes with one signature under one key have the same height, round and block, unless they show a hash collision |
| Consensus.StateMachine.RecordVote | consensus/state_machine.go:679-693 | a vote for another block becomes sound evidence and every other vote is counted |
| Consensus.StateMachine.UpdateLockedQC | consensus/state_machine.go:670-677 | the lock only moves to a better certificate |
| Consensus.StateMachine.OnVote | consensus/state_machine.go:271-304 | keeps the invariant; a vote is counted if and only if admitted and not conflicting, and a new certificate moves tree and lock |
| Consensus.StateMachine.OnTimeoutVote | consensus/state_machine.go:335-370 | keeps the invariant; a timeout vote is counted if and only if signed, known and not conflicting, conflicts become evidence, and the pacemaker and the high certificate move if and only if a fresh certificate can be built |
| Consensus.StateMachine.ObserveCommittedBlock | consensus/state_machine.go:394-410 | keeps the invariant; a block is added with the certificate that names it, which may move the lock, and any other certificate moves nothing |
| Consensus.StateMachine.UpdateValidatorSet | consensus/state_machine.go:117-128 | keeps the invariant; timeout votes start afresh |
| Consensus.StateMachine.StartRound | consensus/state_machine.go:107-115 | keeps the invariant and puts status and pacemaker at the round |
| Consensus.StateMachine.OneCertified | consensus/state_machine.go:412-440 | in every reachable state at most one block of a height and round can be certified |
| Consensus.StateMachine.CertifiedIsAccepted | consensus/state_machine.go:513-532 | what a machine certifies under one validator set is accepted by the finality verifier |
| Consensus.StateMachine.NoDoubleCounting | consensus/state_machine.go:679-693 | in every reachable state voters are disjoint, and every evidence holds two conflicting votes that verify under the key of the validator it names in a set the machine has had; so no evidence names a validator under whose key no two conflicting votes verify, whatever forged votes arrived |
| Consensus.OneTargetIsHonest | consensus/state_machine.go:306-356 | whoever signs one target per height and round has no two conflicting votes among the verified ones |
| VoteWal.Wal.Open | consensus/wal.go:190-241 | opening rebuilds the maps from the file and fails on an incomplete line |
| VoteWal.Wal.RecordVote | consensus/wal.go:111-134 | a second block is refused; the map is set before the append, whatever becomes of that on disk |
| VoteWal.LocalVoter.LocalVote | node/consensus_loop.go:118-152 | an earlier choice is repeated and a new one is logged before it is released; that released votes have one target and can be read back is lost if and only if a vote is signed again whose append was lost |
| VoteWal.LocalVoter.TimeoutRound | node/consensus_loop.go:542-600 | a timeout vote is released if and only if cached or written with the certificate in memory; released ones keep one certificate per height and round, whatever becomes of appends |
| VoteWal.LocalVoter.RecordProposal | node/consensus_loop.go:668-676 | logging a proposal disturbs neither votes nor timeout votes |
| VoteWal.LocalVoter.RemoveTimeoutVotes | node/consensus_loop.go:1188-1196 | dropping cached timeout votes disturbs neither, since the log still refuses another certificate |
| VoteWal.LocalVoter.Restart | consensus/wal.go:61-79 | after a crash the maps again equal the replay of the log, unless a line is incomplete |
| VoteWal.Run | node/consensus_loop.go:118-152 | in every run of votes, timeout votes, proposals, commits, failed appends, crashes and restarts, released timeout votes have one certificate per height and round, and released votes one block if no process votes again after losing the append |
| VoteWal.ForgottenSignsTwice | consensus/wal.go:111-134 | from every state in which a vote is in memory but not on disk there is a run that signs two blocks |
| VoteWal.GoingOnSignsTwice | consensus/wal.go:111-134 | a node that goes on after one lost append can sign two blocks |
| BatchDag.Acyclic | mempool/dag.go:100-128 | along every path of parents the insertion rank falls, so there is no cycle |
| BatchDag.Dag.AddBatch | mempool/dag.go:100-128 | a batch is added, and logged first, if and only if it is new and its parents are known |
| BatchDag.Dag.AddBatchUnchecked | mempool/dag.go:136-148 | tips stay the batches no batch names, children the batches that name them |
| BatchDag.EmitBatch | mempool/wal.go:195-217 | the recursion ends and writes a batch after all its ancestors, each once |
| BatchDag.Compact | mempool/wal.go:195-223 | whatever the log held, and in any order of visiting, the compacted log lists every batch once and after its parents |
| BatchDag.OpenDurableDag | mempool/wal.go:53-96 | reading such a log back meets no error and holds exactly its batches |
| BatchDag.Reopen | mempool/wal.go:53-96 | reading the log back, compacted or not, rebuilds the same batches, children and tips |
| StagedStores.StagedKeyInjective | app/staged_store.go:234-236 | a staged key fixes namespace and key, also for namespaces with colons |
| StagedStores.ApplyIsLastWrite | app/staged_store.go:46-57 | what a key holds after the writes depends on the last write to it, or on the base |
| StagedStores.StagedStore.Set | app/staged_store.go:32-44 | the staged contents change at one key |
| StagedStores.StagedStore.Delete | app/staged_store.go:59-71 | the staged contents lose one key |
| StagedStores.StagedStore.SetBatch | app/staged_store.go:73-93 | the writes are staged in order, up to a cancelled context |
| StagedStores.StagedStore.Get | app/staged_store.go:46-57 | a read equals that of the base with the writes applied in order |
| StagedStores.StagedStore.ExportPrefix | app/staged_store.go:109-153 | an export lists exactly the staged entries under the prefix, once each and in key order |
| StagedStores.StagedStore.ExportNamespace | app/staged_store.go:155-198 | an export of a namespace lists exactly its staged entries |
| StagedStores.ExportUnique | app/staged_store.go:109-198 | two exports of the same contents are the same list |
| StagedStores.StagedStore.ImportNamespace | app/staged_store.go:200-216 | afterwards the namespace holds exactly the pairs, the last one winning, and other namespaces are unchanged; only a cancelled context stops it short |
| IbcKeys.PacketKeyInjective | ibc/ibc.go:781-783 | a packet key fixes path and sequence, also for paths with slashes |
| IbcKeys.TimeoutKeyInjective | ibc/ibc.go:789-795 | an index key fixes height, path and sequence |
| IbcKeys.PrefixOfHeight | ibc/ibc.go:789-795 | only index keys of one height start with its prefix |
| IbcKeys.PacketKeyOf | ibc/ibc.go:797-804 | the first separator of an index key gives its packet key back |
| Ibc.SendKeepsIndex | ibc/ibc.go:309-344 | sending keeps the timeout index equal to the open receipts with a timeout |
| Ibc.CloseKeepsIndex | ibc/ibc.go:346-449 | acknowledging and timing out keep it so |
| Ibc.PathFixes | ibc/ibc.go:777-783 | for ports without slashes the path of a packet fixes its port and channel |
| Ibc.Keeper.NextSequence | ibc/ibc.go:669-685 | the next sequence is one more than the packets sent, and none after the last 64-bit number |
| Ibc.Keeper.SendPacket | ibc/ibc.go:309-344 | exactly the next packet of a path is accepted, and receipts exist for exactly the sequences sent |
| Ibc.Keeper.AcknowledgePacket | ibc/ibc.go:346-393 | exactly an open receipt is acknowledged, and never one that timed out |
| Ibc.Keeper.TimeoutPacket | ibc/ibc.go:405-449 | an open receipt is timed out if and only if the height is not below the timeout that the caller's packet names |
| Ibc.Keeper.TimelyExactly | ibc/ibc.go:405-449 | a receipt is never timed out before its own timeout if and only if the caller's packet names none, or one not before it |
| Ibc.TimedOutEarly | ibc/ibc.go:405-449 | any packet can be timed out at any height by naming that height |
| Ibc.Keeper.TimeoutReceiptsAt | ibc/ibc.go:467-496 | the receipts due at a height are exactly those that a scan of the whole store finds, in key order |
| Ibc.Keeper.SetRecord | ibc/ibc.go:157-283 | client, connection and channel records leave packets alone |
| Ante.AccountKeeper.CheckTx | app/ante.go:91-110 | a transaction passes if and only if it is admissible and carries the expected nonce |
| Ante.AccountKeeper.AfterTx | app/ante.go:145-166 | the nonce, or the successor of an Ethereum nonce, is stored unless it has none |
| Ante.AfterSequence | app/account.go:20-52 | the stored sequence reads back, and other accounts keep theirs |
| Ante.CheckBlock | app/ante.go:112-139 | the loop decides whether every signer's nonces continue from the first expected one |
| Ante.CheckBlockAgrees | app/ante.go:91-166 | where no signer mixes kinds, execution in order accepts exactly the blocks that pass the check and whose sequences can be stored |
| Ante.MixedNeverBoth | app/ante.go:91-166 | a block in which a signer mixes kinds is never accepted by both |
| Ante.CheckAgainstExecution | app/ante.go:91-166 | a checked block executes if and only if no signer mixes kinds and all sequences can be stored; an executed block passes the check if and only if no signer mixes kinds |
| Ante.MixedBlockPassesCheck | app/ante.go:112-139 | such a block can pass the block check and fail in execution |
| Ante.MixedBlockExecutes | app/ante.go:141-166 | such a block can be executed and fail the block check |
| Ante.AccountKeeper.Execute | app/ante.go:141-166 | executing in order succeeds if and only if every check and every update does, leaves the stored sequences of all of them, and agrees with the block check where no signer mixes kinds |
| BaseFee.NextBaseFeeMonotone | economics/base_fee.go:14-57 | more gas never gives a lower fee, over all 64-bit inputs |
| BaseFee.DeltaMonotone | economics/base_fee.go:39-47 | the change grows with the distance from the target, also across the overflow guard |
| BaseFee.StepSize | economics/base_fee.go:14-57 | the step is what target and denominator together divide the product of fee and distance to, or the denominator's part of the largest number if the product overflows; up it is at least one, down it stops at zero, and the limits come last; without a fee, target or denominator the fee stays |
| BaseFee.NextBaseFeeBounds | economics/base_fee.go:14-57 | with consistent limits the fee stays within them, and moves up above the target and not up below it |
| BaseFee.MaximumWins | economics/base_fee.go:49-57 | with a minimum above the maximum the fee leaves the minimum |

## Left out

- BitGroups.ConvertBits: takes widths from 1 to 8; the two calls regroup 8 to 5 bits and back.
- Bech32.Polymod: takes 5-bit values, which is all that its callers pass.
- Bech32.CreateChecksum: takes ASCII human readable parts only, as does its caller.
- Bech32.ExpandHrp: takes ASCII human readable parts only, as do its callers.
- Bech32.Encode: takes ASCII human readable parts only, because its one caller validates them first; the source would read others as UTF-8.
- Consensus.StateMachine.OneCertified: needs powers without room for two quorums, which `Validators.SaturatedQuorums` shows to be the weakest condition on their sum; whether a particular set above it splits into two quorums is not decided.
- AccountableSafety.ConflictMeetsThreshold: needs a total that was not cut off, which `Validators.SaturatedOverlap` shows to be the weakest condition on the sum of the powers.
- Consensus.StateMachine.CertifiedIsAccepted: is about machines whose validator set has not been replaced, since votes are checked against the set at the time they arrive.
- Consensus.StateMachine.ApplyCommitRule: takes candidates from the tree, as the machine's own calls do.
- BlockTrees.BlockTree.Insert: takes a block under its own hash with a justification of its parent, which the machine has checked before.
- VoteWal.Run: needs a log; a node without one is not modelled. Signing is one outcome, and its own machine's answer to a timeout vote is not looked at.
- VoteWal.LocalVoter.LocalVote: stores hashes themselves; their hexadecimal form on disk is not modelled.
- FairOrdering.PopLeast: stands for container/heap with any least entry; the sift operations are not modelled.
- Erasure.RecoverGroup: is called for groups that miss a chunk, with parity chunks that were checked for range and size.
- Ibc.PathFixes: takes ports without slashes; with slashes, different ports and channels can have one path.
- Ibc.Keeper.SetRecord: stores records without the checks and transitions of the handshakes.
- Ibc.Keeper.AcknowledgePacket: takes the outcome of the path lookups as a parameter.
- Ibc.Keeper.TimeoutPacket: takes the outcome of the path lookups as a parameter.
- Ibc.Keeper.SendPacket: takes the outcome of the channel, connection and client lookups as a parameter, and always has a batch store.
- Ante.AccountKeeper.CheckTx: has signature, fee and gas checks as one admissible flag.
- Ante.AccountKeeper.AfterTx: assumes that fee collection succeeds.
- Ante.CheckBlock: takes parsed transactions; signatures, fee and gas checks are one admissible flag, fee collection is assumed to succeed, and a missing store is not modelled.
- BatchDag.Compact: covers the batches of the log; transactions in it, file errors during compaction, and an append that fails but stays on disk are not modelled.
- BatchDag.OpenDurableDag: replays batches; transactions in the log are not modelled.
- StagedStores.StagedStore.ExportNamespace: reads a base that supports snapshots and does not fail.
- StagedStores.StagedStore.ExportPrefix: reads a base that supports exports and does not fail.
- Availability.RecoverData: counts in unbounded numbers; sizes in a forged proof that overflow 64-bit sums, and a chunk size within the data length of the largest integer, are not modelled.
- Sampling plans (PlanSamples, Plan2DSamples, deterministicSampleIndices), whose termination depends on hash values.
- Agreement between different machines, which this code alone does not decide.
- A custom block hash for the state machine, ApplyCommitRule called from outside, proposer selection, and the byte layout of signed proposals and timeout votes, which are parameters.
- Pending and unknown vote caches, broadcasting, and metrics of the vote reactor.
- Contexts other than where a cancelled one cuts a batch short, locks and goroutines, JSON and hexadecimal round trips of records, and all file and network access.
- IBC clients, handshakes and proofs; governance, slashing, state proofs, and the EVM modules.
