/** The consensus state machine: proposals, votes, timeouts, locks and commits on one node. */
module Consensus {
  import opened Types
  import opened Validators
  import opened Certificates
  import opened BlockTrees
  import opened Timeouts
  import opened ConflictEvidence
  import opened CommitLog
  import opened Ballots
  import Availability
  import FairOrdering
  import Finality
  import Signers
  import Sorting

  datatype Phase = Propose | Voting | Commit

  datatype Status = Status(
    height: Uint64, round: Uint64, phase: Phase, lastFinalized: Hash, validatorSetHash: Hash, lastTimeoutCert: TimeoutCert)

  datatype Proposal = Proposal(block: Block, round: Uint64, proposer: ValidatorID, justifyQC: QuorumCert, signature: Bytes)

  /** What a machine is set up with. Signing bytes, proposer selection and the placeholder for
      unsigned votes are given from outside. */
  datatype Config = Config(
    chainID: string,
    signatures: Option<(Bytes, Bytes, Bytes) -> bool>,
    aggregator: Option<seq<Bytes> -> Option<Bytes>>,
    enforceProposer: bool,
    selectProposer: (seq<Validator>, nat, nat) -> Option<ValidatorID>,
    rules: nat -> FairOrdering.Rules,
    hashBytes: HashBytes,
    proposalMessage: Proposal -> Bytes,
    timeoutMessage: TimeoutVote -> Bytes,
    unsignedVote: Vote -> Bytes,
    unsignedTimeout: TimeoutVote -> Bytes)

  datatype ProposalError =
    | NotAValidator | UnexpectedProposer | BadSignature | ChainMismatch | MissingHeight | SetMismatch
    | OrderMismatch | DataMismatch | JustifyTooHigh | JustifyMismatch | StaleProposal | UnsafeProposal | ConflictingCommit

  datatype VoteError =
    | UnknownVoter | NoHeight | NoBlockHash | BadVoteSignature | StaleVote | UnknownBlock | HeightMismatch | UnsafeVote
    | ConflictingBallot

  datatype TimeoutFailure = BadTimeoutSignature | Refused(refusal: TimeoutError) | NotBuilt(reason: BuildError) | StaleCert

  // --------------------------------------------------------------------- pieces of the state

  ghost predicate CommitsOk(committed: seq<CommitDecision>, committedSet: set<Hash>, byHeight: map<nat, Hash>,
                            lastFinalized: Hash, blocks: Blocks) {
    ValidLog(committed, committedSet, byHeight) && lastFinalized == LastFinalized(committed) &&
    AllHaveDescendants(committed, blocks)
  }

  ghost predicate TimeoutsVerified(votes: map<(Uint64, Uint64), RoundVotes>, verified: set<TimeoutVote>) {
    forall h: Uint64, r: Uint64, id | id in RoundOf(votes, h, r) :: RoundOf(votes, h, r)[id] in verified
  }

  /** The decision that a block of the tree calls for. */
  function DecisionAt(blocks: Blocks, blockHash: Hash): Option<CommitDecision> {
    var candidate := CandidateFor(blocks, blockHash);
    if candidate.None? then None else Decide(candidate.value)
  }

  /** Every block at the start of a three-chain that ends in one of these is committed. */
  ghost predicate Caught(blocks: Blocks, hashes: set<Hash>, committedSet: set<Hash>) {
    forall h, n: nat, b1, qc | h in hashes && ThreeChain(blocks, h, n, b1, qc) :: b1 in committedSet
  }

  /** A three-chain starts at a height where the log holds another block. */
  ghost predicate Clash(blocks: Blocks, committed: seq<CommitDecision>) {
    exists h, d, b1, qc :: d in committed && ThreeChain(blocks, h, d.committedHeight, b1, qc) && d.committedBlockHash != b1
  }

  /** What was added to the log: blocks that were not in it, each with the height and the certificate of a three-chain
      that it starts. */
  ghost predicate AddedFrom(blocks: Blocks, before: seq<CommitDecision>, committedSet: set<Hash>, after: seq<CommitDecision>) {
    forall d | d in after && d !in before :: d.committedBlockHash !in committedSet && StartsChain(blocks, d)
  }

  ghost predicate StartsChain(blocks: Blocks, d: CommitDecision) {
    exists h :: ThreeChain(blocks, h, d.committedHeight, d.committedBlockHash, d.commitQC)
  }

  /** The certificate is made of the votes counted for the block. */
  ghost predicate Certified(config: Config, snapshot: Snapshot, votes: Votes, height: Uint64, round: Uint64, blockHash: Hash, cert: QuorumCert) {
    config.aggregator.Some? &&
    BuiltFrom(snapshot, config.aggregator.value, VotesFor(votes, height, round, blockHash), height, round, blockHash, cert)
  }

  lemma CertifiedFields(config: Config, snapshot: Snapshot, votes: Votes, height: Uint64, round: Uint64, blockHash: Hash, cert: QuorumCert)
    requires Certified(config, snapshot, votes, height, round, blockHash, cert)
    ensures cert.height == height && cert.round == round && cert.blockHash == blockHash
  {
    hide CollectedFrom;
  }

  /** Votes are filed properly, and their signatures were all found good. */
  ghost predicate VotingOk(votes: Votes, voted: Voted, verified: set<Vote>) {
    ValidBallots(votes, voted) && AllVerified(voted, verified)
  }

  lemma VotingStillOk(votes: Votes, voted: Voted, before: set<Vote>, after: set<Vote>)
    requires VotingOk(votes, voted, before) && before <= after
    ensures VotingOk(votes, voted, after)
  {
    hide ValidBallots;
  }

  predicate TimeoutSigned(config: Config, snapshot: Snapshot, vote: TimeoutVote) {
    config.signatures.Some? ==>
      vote.signature != [] && vote.validatorID in snapshot.byID &&
      config.signatures.value(snapshot.byID[vote.validatorID].publicKey, config.timeoutMessage(vote), vote.signature)
  }

  predicate VoteSigned(config: Config, snapshot: Snapshot, vote: Vote) {
    config.signatures.Some? ==>
      vote.signature != [] && vote.validatorID in snapshot.byID &&
      config.signatures.value(snapshot.byID[vote.validatorID].publicKey,
                              VoteMessage(config.hashBytes, vote.height, vote.round, vote.blockHash), vote.signature)
  }

  // -------------------------------------------------------------------- who signed a vote

  /** The signature is there and verifies under the key, if signatures are checked at all. */
  ghost predicate GoodSignature(config: Config, publicKey: Bytes, message: Bytes, signature: Bytes) {
    config.signatures.None? || (signature != [] && config.signatures.value(publicKey, message, signature))
  }

  /** The vote is from a validator of the set and signed under its key. */
  ghost predicate Verifies(config: Config, snapshot: Snapshot, vote: Vote) {
    vote.validatorID in snapshot.byID &&
    GoodSignature(config, snapshot.byID[vote.validatorID].publicKey,
                  VoteMessage(config.hashBytes, vote.height, vote.round, vote.blockHash), vote.signature)
  }

  ghost predicate TimeoutVerifies(config: Config, snapshot: Snapshot, vote: TimeoutVote) {
    vote.validatorID in snapshot.byID &&
    GoodSignature(config, snapshot.byID[vote.validatorID].publicKey, config.timeoutMessage(vote), vote.signature)
  }

  /** With the deterministic backend a signature is good for one height, round and block, unless two inputs of the
      signatures have the same hash. */
  lemma SignatureFixesVote(sha: Bytes -> Bytes, config: Config, snapshot: Snapshot, a: Vote, b: Vote)
    requires config.signatures == Some(Deterministic(sha).verify) && |config.hashBytes(a.blockHash)| == |config.hashBytes(b.blockHash)|
    requires a.validatorID == b.validatorID && a.signature == b.signature
    requires Verifies(config, snapshot, a) && Verifies(config, snapshot, b)
    ensures (a.height == b.height && a.round == b.round && config.hashBytes(a.blockHash) == config.hashBytes(b.blockHash)) ||
      var key := snapshot.byID[a.validatorID].publicKey;
      Collide(sha, key + VoteMessage(config.hashBytes, a.height, a.round, a.blockHash),
              key + VoteMessage(config.hashBytes, b.height, b.round, b.blockHash))
  {
    hide VoteMessage;
    VoteMessageFixes(config.hashBytes, a.height, a.round, a.blockHash, b.height, b.round, b.blockHash);
    var m := VoteMessage(config.hashBytes, a.height, a.round, a.blockHash);
    var n := VoteMessage(config.hashBytes, b.height, b.round, b.blockHash);
    if m != n { SignatureFixesMessage(sha, snapshot.byID[a.validatorID].publicKey, m, n, a.signature); }
  }

  /** The vote verifies for one of the validator sets. */
  ghost predicate Authentic(config: Config, sets: set<Snapshot>, vote: Vote) {
    exists s :: s in sets && Verifies(config, s, vote)
  }

  ghost predicate AuthenticTimeout(config: Config, sets: set<Snapshot>, vote: TimeoutVote) {
    exists s :: s in sets && TimeoutVerifies(config, s, vote)
  }

  ghost predicate AllAuthentic(config: Config, sets: set<Snapshot>, verified: set<Vote>, timeouts: set<TimeoutVote>) {
    (forall v | v in verified :: Authentic(config, sets, v)) && forall v | v in timeouts :: AuthenticTimeout(config, sets, v)
  }

  /** Both votes of the evidence are from the validator it names, and verify. */
  ghost predicate AuthenticEvidence(config: Config, sets: set<Snapshot>, e: Evidence) {
    match e.proof
    case Votes(first, second) =>
      first.validatorID == e.validator == second.validatorID && Authentic(config, sets, first) && Authentic(config, sets, second)
    case TimeoutVotes(first, second) =>
      first.validatorID == e.validator == second.validatorID && AuthenticTimeout(config, sets, first) && AuthenticTimeout(config, sets, second)
  }

  /** Of all votes there could be, no two that verify for this validator contradict each other. */
  ghost predicate SignedOneTarget(config: Config, sets: set<Snapshot>, id: ValidatorID) {
    (forall v, w | Authentic(config, sets, v) && Authentic(config, sets, w) && v.validatorID == id == w.validatorID &&
                   v.height == w.height && v.round == w.round :: v.blockHash == w.blockHash) &&
    (forall v, w | AuthenticTimeout(config, sets, v) && AuthenticTimeout(config, sets, w) && v.validatorID == id == w.validatorID &&
                   v.height == w.height && v.round == w.round :: SameQC(v.highQC, w.highQC))
  }

  /** More validator sets, and one more vote that verifies, leave the others as they were. */
  lemma StillAuthentic(config: Config, before: set<Snapshot>, after: set<Snapshot>, verified: set<Vote>, timeouts: set<TimeoutVote>)
    requires AllAuthentic(config, before, verified, timeouts) && before <= after
    ensures AllAuthentic(config, after, verified, timeouts)
  {
    hide Verifies, TimeoutVerifies;
    forall v | v in verified ensures Authentic(config, after, v) { assert Authentic(config, before, v); }
    forall v | v in timeouts ensures AuthenticTimeout(config, after, v) { assert AuthenticTimeout(config, before, v); }
  }

  /** The verified votes once this one has been looked at. */
  ghost function WithVote(config: Config, snapshot: Snapshot, verified: set<Vote>, vote: Vote): set<Vote> {
    verified + if Verifies(config, snapshot, vote) then {vote} else {}
  }

  ghost function WithTimeoutVote(config: Config, snapshot: Snapshot, timeouts: set<TimeoutVote>, vote: TimeoutVote): set<TimeoutVote> {
    timeouts + if TimeoutVerifies(config, snapshot, vote) then {vote} else {}
  }

  lemma VoteNoted(config: Config, sets: set<Snapshot>, snapshot: Snapshot, votes: Votes, voted: Voted, evidence: seq<Evidence>,
                  verified: set<Vote>, timeouts: set<TimeoutVote>, vote: Vote)
    requires AllAuthentic(config, sets, verified, timeouts) && snapshot in sets
    requires VotingOk(votes, voted, verified) && AllSound(evidence, verified, timeouts)
    ensures var after := WithVote(config, snapshot, verified, vote);
      AllAuthentic(config, sets, after, timeouts) && VotingOk(votes, voted, after) && AllSound(evidence, after, timeouts) &&
      verified <= after && (Verifies(config, snapshot, vote) ==> vote in after)
  {
    hide Verifies, TimeoutVerifies, AuthenticTimeout, VotingOk, AllSound;
    var after := WithVote(config, snapshot, verified, vote);
    if Verifies(config, snapshot, vote) { assert Authentic(config, sets, vote); }
    VotingStillOk(votes, voted, verified, after);
    MoreVerified(evidence, verified, timeouts, after, timeouts);
  }

  lemma TimeoutNoted(config: Config, sets: set<Snapshot>, snapshot: Snapshot, votes: map<(Uint64, Uint64), RoundVotes>,
                     evidence: seq<Evidence>, verified: set<Vote>, timeouts: set<TimeoutVote>, vote: TimeoutVote)
    requires AllAuthentic(config, sets, verified, timeouts) && snapshot in sets
    requires TimeoutsVerified(votes, timeouts) && AllSound(evidence, verified, timeouts)
    ensures var after := WithTimeoutVote(config, snapshot, timeouts, vote);
      AllAuthentic(config, sets, verified, after) && TimeoutsVerified(votes, after) && AllSound(evidence, verified, after) &&
      timeouts <= after && (TimeoutVerifies(config, snapshot, vote) ==> vote in after)
  {
    hide Verifies, TimeoutVerifies, Authentic, TimeoutsVerified, AllSound;
    var after := WithTimeoutVote(config, snapshot, timeouts, vote);
    if TimeoutVerifies(config, snapshot, vote) { assert AuthenticTimeout(config, sets, vote); }
    MoreTimeouts(votes, timeouts, after);
    MoreVerified(evidence, verified, timeouts, verified, after);
  }

  lemma SoundIsAuthentic(config: Config, sets: set<Snapshot>, verified: set<Vote>, timeouts: set<TimeoutVote>, e: Evidence)
    requires AllAuthentic(config, sets, verified, timeouts) && Sound(e, verified, timeouts)
    ensures AuthenticEvidence(config, sets, e)
  {
    hide Authentic, AuthenticTimeout;
  }

  /** Whoever signs one target per height and round is honest as far as verified votes go, whatever else arrives. */
  lemma OneTargetIsHonest(config: Config, sets: set<Snapshot>, verified: set<Vote>, timeouts: set<TimeoutVote>, id: ValidatorID)
    requires AllAuthentic(config, sets, verified, timeouts) && SignedOneTarget(config, sets, id)
    ensures Honest(id, verified, timeouts)
  {
    hide Authentic, AuthenticTimeout;
  }

  /** The block extends the lock, or was justified by a certificate not below it. */
  ghost predicate SafeVoteTarget(lockedQC: QuorumCert, blocks: Blocks, node: BlockNode)
    requires IsTree(blocks)
  {
    lockedQC.height == 0 || node.justifyQC.height >= lockedQC.height || node.hash == lockedQC.blockHash ||
    ExtendsIn(blocks, node.hash, lockedQC.blockHash)
  }

  /** A signed vote of a validator, not stale, for a known block of its height that is safe to vote for. */
  ghost predicate VoteAdmitted(config: Config, snapshot: Snapshot, status: Status, lockedQC: QuorumCert, blocks: Blocks, vote: Vote)
    requires IsTree(blocks)
  {
    Verifies(config, snapshot, vote) && vote.height > 0 && vote.blockHash != ZeroHash &&
    vote.height >= status.height && (vote.height == status.height ==> vote.round >= status.round) &&
    vote.blockHash in blocks && blocks[vote.blockHash].block.header.height == vote.height &&
    SafeVoteTarget(lockedQC, blocks, blocks[vote.blockHash])
  }

  lemma AdmittedFacts(config: Config, snapshot: Snapshot, status: Status, lockedQC: QuorumCert, blocks: Blocks, vote: Vote)
    requires IsTree(blocks)
    ensures VoteAdmitted(config, snapshot, status, lockedQC, blocks, vote) ==>
      vote.validatorID in snapshot.byID && vote.height > 0 && vote.blockHash in blocks &&
      blocks[vote.blockHash].block.header.height == vote.height && Verifies(config, snapshot, vote)
  {
    hide VoteSigned;
  }

  // -------------------------------------------------------------------------------- proposals

  predicate ProposerOk(config: Config, snapshot: Snapshot, height: Uint64, round: Uint64, proposer: ValidatorID) {
    !config.enforceProposer || config.selectProposer(snapshot.validators, height, round) == Some(proposer)
  }

  predicate ProposalSigned(config: Config, snapshot: Snapshot, p: Proposal)
    requires p.proposer in snapshot.byID
  {
    config.signatures.Some? ==>
      p.signature != [] &&
      config.signatures.value(snapshot.byID[p.proposer].publicKey, config.proposalMessage(p), p.signature)
  }

  /** The order of a block's transactions is the canonical one for its height. */
  ghost predicate OrderOk(config: Config, block: Block) {
    FairOrdering.Canonical(config.rules(block.header.height), block.txs)
  }

  predicate JustifyOk(p: Proposal) {
    p.justifyQC.height > 0 ==> p.justifyQC.blockHash == p.block.header.previousBlockHash
  }

  /** What is asked of a proposal before the tree and the lock are looked at, in this order. */
  const CHECKS: seq<ProposalError> := [
    NotAValidator, UnexpectedProposer, BadSignature, ChainMismatch, MissingHeight, SetMismatch, OrderMismatch, DataMismatch,
    JustifyTooHigh, JustifyMismatch]

  /** The proposal gives no reason for this error. */
  ghost predicate Meets(config: Config, snapshot: Snapshot, p: Proposal, check: ProposalError) {
    var header := p.block.header;
    match check
    case NotAValidator => p.proposer in snapshot.byID
    case UnexpectedProposer =>
      !config.enforceProposer || config.selectProposer(snapshot.validators, header.height, p.round) == Some(p.proposer)
    case BadSignature =>
      p.proposer in snapshot.byID ==> GoodSignature(config, snapshot.byID[p.proposer].publicKey, config.proposalMessage(p), p.signature)
    case ChainMismatch => header.chainID == config.chainID
    case MissingHeight => header.height > 0
    case SetMismatch => header.validatorSetHash == snapshot.hash
    case OrderMismatch => OrderOk(config, p.block)
    case DataMismatch =>
      if header.consensusHash == ZeroHash then p.block.txs == [] else header.consensusHash == Availability.Commitment(p.block.txs)
    case JustifyTooHigh => p.justifyQC.height <= header.height
    case JustifyMismatch => p.justifyQC.height == 0 || p.justifyQC.blockHash == header.previousBlockHash
    case _ => true
  }

  ghost predicate MeetsFirst(config: Config, snapshot: Snapshot, p: Proposal, n: nat)
    requires n <= |CHECKS|
  {
    forall k | 0 <= k < n :: Meets(config, snapshot, p, CHECKS[k])
  }

  /** The proposal meets all conditions, or the error is the first one it does not meet. */
  ghost predicate FirstReason(config: Config, snapshot: Snapshot, p: Proposal, err: Option<ProposalError>) {
    match err
    case None => MeetsFirst(config, snapshot, p, |CHECKS|)
    case Some(e) => exists k :: 0 <= k < |CHECKS| && CHECKS[k] == e && !Meets(config, snapshot, p, e) && MeetsFirst(config, snapshot, p, k)
  }

  /** The reason for which a proposal is refused, if there is one. */
  ghost function Refusal(config: Config, snapshot: Snapshot, p: Proposal): (err: Option<ProposalError>)
    ensures FirstReason(config, snapshot, p, err)
  {
    RefusalFrom(config, snapshot, p, 0)
  }

  ghost function RefusalFrom(config: Config, snapshot: Snapshot, p: Proposal, n: nat): (err: Option<ProposalError>)
    requires n <= |CHECKS| && MeetsFirst(config, snapshot, p, n)
    ensures FirstReason(config, snapshot, p, err)
    decreases |CHECKS| - n
  {
    if n == |CHECKS| then None
    else if !Meets(config, snapshot, p, CHECKS[n]) then Some(CHECKS[n])
    else RefusalFrom(config, snapshot, p, n + 1)
  }

  lemma OneReason(config: Config, snapshot: Snapshot, p: Proposal, a: Option<ProposalError>, b: Option<ProposalError>)
    requires FirstReason(config, snapshot, p, a) && FirstReason(config, snapshot, p, b)
    ensures a == b
  {
    hide Meets;
    var i := FirstPlace(config, snapshot, p, a);
    var j := FirstPlace(config, snapshot, p, b);
  }

  lemma FirstPlace(config: Config, snapshot: Snapshot, p: Proposal, err: Option<ProposalError>) returns (k: nat)
    requires FirstReason(config, snapshot, p, err)
    ensures k <= |CHECKS| && MeetsFirst(config, snapshot, p, k) && (err.None? <==> k == |CHECKS|)
    ensures k < |CHECKS| ==> err == Some(CHECKS[k]) && !Meets(config, snapshot, p, CHECKS[k])
  {
    hide Meets;
    if err.None? { return |CHECKS|; }
    k :| 0 <= k < |CHECKS| && CHECKS[k] == err.value && !Meets(config, snapshot, p, err.value) && MeetsFirst(config, snapshot, p, k);
  }

  lemma NextCheck(config: Config, snapshot: Snapshot, p: Proposal, n: nat)
    requires n < |CHECKS| && MeetsFirst(config, snapshot, p, n)
    ensures if Meets(config, snapshot, p, CHECKS[n]) then MeetsFirst(config, snapshot, p, n + 1) else FirstReason(config, snapshot, p, Some(CHECKS[n]))
  {
    hide Meets;
  }

  method Screen(config: Config, snapshot: Snapshot, p: Proposal) returns (err: Option<ProposalError>)
    ensures FirstReason(config, snapshot, p, err)
  {
    hide Availability.Commitment, FairOrdering.Canonical, FirstReason, MeetsFirst;
    var header := p.block.header;
    assert MeetsFirst(config, snapshot, p, 0) by { MeetsNone(config, snapshot, p); }
    NextCheck(config, snapshot, p, 0);
    if p.proposer !in snapshot.byID { return Some(NotAValidator); }
    NextCheck(config, snapshot, p, 1);
    if !ProposerOk(config, snapshot, header.height, p.round, p.proposer) { return Some(UnexpectedProposer); }
    NextCheck(config, snapshot, p, 2);
    if !ProposalSigned(config, snapshot, p) { return Some(BadSignature); }
    NextCheck(config, snapshot, p, 3);
    if header.chainID != config.chainID { return Some(ChainMismatch); }
    NextCheck(config, snapshot, p, 4);
    if header.height == 0 { return Some(MissingHeight); }
    NextCheck(config, snapshot, p, 5);
    if header.validatorSetHash != snapshot.hash { return Some(SetMismatch); }
    NextCheck(config, snapshot, p, 6);
    var ordered := FairOrdering.IsOrdered(config.rules(header.height), p.block.txs);
    if !ordered { return Some(OrderMismatch); }
    NextCheck(config, snapshot, p, 7);
    if !Availability.DataMatches(header.consensusHash, p.block.txs) { return Some(DataMismatch); }
    NextCheck(config, snapshot, p, 8);
    if p.justifyQC.height > 0 && p.justifyQC.height > header.height { return Some(JustifyTooHigh); }
    NextCheck(config, snapshot, p, 9);
    if !JustifyOk(p) { return Some(JustifyMismatch); }
    AllMet(config, snapshot, p);
    return None;
  }

  lemma MeetsNone(config: Config, snapshot: Snapshot, p: Proposal)
    ensures MeetsFirst(config, snapshot, p, 0)
  {}

  lemma AllMet(config: Config, snapshot: Snapshot, p: Proposal)
    requires MeetsFirst(config, snapshot, p, 10)
    ensures FirstReason(config, snapshot, p, None)
  {}

  lemma NotRefused(config: Config, snapshot: Snapshot, p: Proposal)
    requires Refusal(config, snapshot, p).None?
    ensures JustifyOk(p) && p.block.header.height > 0
  {
    hide OrderOk, Availability.DataMatches, ProposalSigned, ProposerOk, RefusalFrom;
    assert MeetsFirst(config, snapshot, p, 10);
    assert Meets(config, snapshot, p, CHECKS[9]) && Meets(config, snapshot, p, CHECKS[4]);
  }

  /** A proposal that meets all conditions but two is refused for these. */
  lemma OwnRefusal(config: Config, snapshot: Snapshot, p: Proposal)
    requires p.proposer in snapshot.byID && ProposerOk(config, snapshot, p.block.header.height, p.round, p.proposer)
    requires p.block.header.chainID == config.chainID && p.block.header.validatorSetHash == snapshot.hash && OrderOk(config, p.block)
    requires Availability.DataMatches(p.block.header.consensusHash, p.block.txs) && JustifyOk(p)
    requires p.justifyQC.height <= p.block.header.height
    ensures Refusal(config, snapshot, p) ==
      if !ProposalSigned(config, snapshot, p) then Some(BadSignature) else if p.block.header.height == 0 then Some(MissingHeight) else None
  {
    hide OrderOk, Availability.Commitment, Refusal;
    var k := FirstPlace(config, snapshot, p, Refusal(config, snapshot, p));
    if !ProposalSigned(config, snapshot, p) {
      assert !Meets(config, snapshot, p, CHECKS[2]);
    } else if p.block.header.height == 0 {
      assert !Meets(config, snapshot, p, CHECKS[4]);
    }
  }

  /** A refusal is one of the conditions that the proposal does not meet. */
  lemma RefusedFor(config: Config, snapshot: Snapshot, p: Proposal)
    ensures var refusal := Refusal(config, snapshot, p);
      refusal.Some? ==> refusal.value in CHECKS && !Meets(config, snapshot, p, refusal.value)
  {
    hide Meets, RefusalFrom;
  }

  /** The proposal builds on the lock, or on a certificate not below it. */
  ghost predicate SafeProposal(lockedQC: QuorumCert, blocks: Blocks, p: Proposal)
    requires IsTree(blocks)
  {
    lockedQC.height == 0 || p.justifyQC.height >= lockedQC.height ||
    p.block.header.previousBlockHash == lockedQC.blockHash ||
    ExtendsIn(blocks, p.block.header.previousBlockHash, lockedQC.blockHash)
  }

  /** The block is known and already has a certificate. */
  predicate KnownCertified(blocks: Blocks, blockHash: Hash) {
    blockHash in blocks && blocks[blockHash].quorumCert.height > 0
  }

  predicate Behind(status: Status, height: Uint64, round: Uint64) {
    height < status.height || (height == status.height && round < status.round)
  }

  // ------------------------------------------------------------------------------ the machine

  class StateMachine {
    const config: Config
    const tree: BlockTree
    var snapshot: Snapshot
    var status: Status
    var votes: Votes
    var votedVotes: Voted
    var evidence: seq<Evidence>
    var timeouts: TimeoutCollector
    var pacemaker: Pacemaker
    var lockedQC: QuorumCert
    var committed: seq<CommitDecision>
    var committedSet: set<Hash>
    var commitIndex: map<nat, Hash>

    /** The received votes whose signatures were found good, and the validator sets there have been. */
    ghost var verified: set<Vote>
    ghost var verifiedTimeouts: set<TimeoutVote>
    ghost var sets: set<Snapshot>

    ghost predicate Valid()
      reads this, tree, timeouts
    {
      ValidSet(snapshot) && tree.Valid() && timeouts.Valid() &&
      timeouts.snapshot == snapshot && timeouts.aggregator == config.aggregator &&
      TimeoutsVerified(timeouts.votes, verifiedTimeouts) && AllSound(evidence, verified, verifiedTimeouts) &&
      snapshot in sets && AllAuthentic(config, sets, verified, verifiedTimeouts) &&
      VotingOk(votes, votedVotes, verified) && NotBelow(tree.highQC, lockedQC) &&
      CommitsOk(committed, committedSet, commitIndex, status.lastFinalized, tree.blocks)
    }

    /** What no step ever takes back: blocks, certificates, decisions and evidence. */
    twostate predicate Advanced()
      reads this, tree
    {
      Grows(old(tree.blocks), tree.blocks) &&
      NotBelow(lockedQC, old(lockedQC)) && NotBelow(tree.highQC, old(tree.highQC)) &&
      (forall d | d in old(committed) :: d in committed) && old(evidence) <= evidence &&
      old(verified) <= verified && old(verifiedTimeouts) <= verifiedTimeouts && old(sets) <= sets
    }

    constructor (config: Config, snapshot: Snapshot)
      requires ValidSet(snapshot)
      ensures Valid() && fresh(tree) && fresh(timeouts) && fresh(pacemaker)
      ensures this.config == config && this.snapshot == snapshot && committed == [] && evidence == [] && sets == {snapshot}
      ensures tree.blocks == map[] && tree.highQC == lockedQC == NO_CERT && votes == map[] && votedVotes == map[]
      ensures status == Status(0, 0, Propose, ZeroHash, snapshot.hash, NO_TIMEOUT)
    {
      this.config, this.snapshot := config, snapshot;
      status := Status(0, 0, Propose, ZeroHash, snapshot.hash, NO_TIMEOUT);
      votes, votedVotes, evidence := map[], map[], [];
      timeouts := new TimeoutCollector(snapshot, config.aggregator);
      pacemaker := new Pacemaker(0, 0);
      tree := new BlockTree();
      lockedQC := NO_CERT;
      committed, committedSet, commitIndex := [], {}, map[];
      verified, verifiedTimeouts, sets := {}, {}, {snapshot};
    }

    // ------------------------------------------------------------------------------ commits

    /** A decision is logged at most once, and never next to another block of its height. */
    method ApplyCommitRule(blockHash: Hash) returns (conflict: bool)
      requires tree.Valid() && DecisionAt(tree.blocks, blockHash).Some?
      requires CommitsOk(committed, committedSet, commitIndex, status.lastFinalized, tree.blocks)
      modifies this`committed, this`committedSet, this`commitIndex, this`status
      ensures CommitsOk(committed, committedSet, commitIndex, status.lastFinalized, tree.blocks)
      ensures status == old(status).(lastFinalized := status.lastFinalized)
      ensures var decision := DecisionAt(tree.blocks, blockHash).value;
        conflict <==> decision.committedBlockHash !in old(committedSet) && decision.committedHeight in old(commitIndex)
      ensures var decision := DecisionAt(tree.blocks, blockHash).value;
        if conflict || decision.committedBlockHash in old(committedSet)
        then committed == old(committed) && committedSet == old(committedSet) && commitIndex == old(commitIndex)
        else (forall d :: d in committed <==> d in old(committed) || d == decision) &&
             committedSet == old(committedSet) + {decision.committedBlockHash}
    {
      hide ValidLog, AllHaveDescendants, CandidateFor, HasTwoDescendants, Decide;
      var decision := DecisionAt(tree.blocks, blockHash).value;
      if decision.committedBlockHash in committedSet { return false; }
      IndexedIsCommitted(committed, committedSet, commitIndex, decision.committedHeight);
      if decision.committedHeight in commitIndex && commitIndex[decision.committedHeight] != decision.committedBlockHash {
        return true;
      }
      DecisionHasDescendants(tree.blocks, blockHash, decision);
      Logged(committed, committedSet, commitIndex, decision);
      ghost var before := committed;
      commitIndex := commitIndex[decision.committedHeight := decision.committedBlockHash];
      committedSet := committedSet + {decision.committedBlockHash};
      committed := Sorting.Sort(committed + [decision], DecisionLeq);
      status := status.(lastFinalized := committed[|committed| - 1].committedBlockHash);
      AllLinked(before, committed, decision, tree.blocks);
      return false;
    }

    /** Looks at every block of the tree, in any order. On success no decision is left to take; it
        stops at a decision that clashes with the log. */
    method ApplyKnownCommitRules() returns (conflict: bool)
      requires tree.Valid() && CommitsOk(committed, committedSet, commitIndex, status.lastFinalized, tree.blocks)
      modifies this`committed, this`committedSet, this`commitIndex, this`status
      ensures CommitsOk(committed, committedSet, commitIndex, status.lastFinalized, tree.blocks)
      ensures status == old(status).(lastFinalized := status.lastFinalized)
      ensures forall d | d in old(committed) :: d in committed
      ensures if conflict then Clash(tree.blocks, committed) else Caught(tree.blocks, tree.blocks.Keys, committedSet)
      ensures AddedFrom(tree.blocks, old(committed), old(committedSet), committed)
    {
      hide CommitsOk, DecisionAt, IsTree, JustifyLinked, Caught, StartsChain, ThreeChain;
      var rest := tree.blocks.Keys;
      NothingToCatch(tree.blocks, committedSet);
      assert tree.blocks.Keys - rest == {};
      while rest != {}
        invariant rest <= tree.blocks.Keys
        invariant CommitsOk(committed, committedSet, commitIndex, status.lastFinalized, tree.blocks)
        invariant status == old(status).(lastFinalized := status.lastFinalized)
        invariant forall d | d in old(committed) :: d in committed
        invariant Caught(tree.blocks, tree.blocks.Keys - rest, committedSet) && old(committedSet) <= committedSet
        invariant AddedFrom(tree.blocks, old(committed), old(committedSet), committed)
        decreases |rest|
      {
        var blockHash :| blockHash in rest;
        ghost var done, set_ := tree.blocks.Keys - rest, committedSet;
        rest := rest - {blockHash};
        assert tree.blocks.Keys - rest == done + {blockHash};
        DueExactly(tree.blocks, blockHash);
        if DecisionAt(tree.blocks, blockHash).Some? {
          conflict := ApplyCommitRule(blockHash);
          if conflict {
            IndexClash(blockHash);
            return true;
          }
        }
        CatchOne(tree.blocks, done, blockHash, set_, committedSet);
      }
      assert tree.blocks.Keys - {} == tree.blocks.Keys;
      return false;
    }

    lemma IndexClash(blockHash: Hash)
      requires tree.Valid() && CommitsOk(committed, committedSet, commitIndex, status.lastFinalized, tree.blocks)
      requires DecisionAt(tree.blocks, blockHash).Some?
      requires DecisionAt(tree.blocks, blockHash).value.committedHeight in commitIndex
      requires DecisionAt(tree.blocks, blockHash).value.committedBlockHash !in committedSet
      ensures Clash(tree.blocks, committed)
    {
      hide DecisionAt, ThreeChain, IsTree, JustifyLinked;
      var decision := DecisionAt(tree.blocks, blockHash).value;
      DueExactly(tree.blocks, blockHash);
      var d :| d in committed && d.committedHeight == decision.committedHeight;
      assert LogsHash(committed, d.committedBlockHash);
      assert ThreeChain(tree.blocks, blockHash, d.committedHeight, decision.committedBlockHash, decision.commitQC);
    }

    // ---------------------------------------------------------------------------- certificates

    /** The certificate a new proposal builds on: never below the lock. */
    method ProposalQC() returns (qc: QuorumCert)
      requires tree.Valid() && NotBelow(tree.highQC, lockedQC)
      ensures qc.height >= lockedQC.height && (qc.height == 0 ==> lockedQC.height == 0)
      ensures tree.highQC.height == 0 ==> qc == lockedQC
      ensures tree.highQC.height > 0 && lockedQC.height == 0 ==> qc == tree.highQC
      ensures tree.highQC.height > 0 && lockedQC.height > 0 ==>
        qc == if ExtendsIn(tree.blocks, tree.highQC.blockHash, lockedQC.blockHash) then tree.highQC else lockedQC
    {
      var highQC := tree.highQC;
      if highQC.height == 0 { return lockedQC; }
      if lockedQC.height == 0 { return highQC; }
      var extends_ := tree.Extends(highQC.blockHash, lockedQC.blockHash);
      if extends_ { return highQC; }
      return lockedQC;
    }

    /** The lock moves only to a better certificate. */
    method UpdateLockedQC(qc: QuorumCert)
      modifies this`lockedQC
      ensures lockedQC == Better(qc, old(lockedQC))
    {
      if qc.height == 0 || qc.blockHash == ZeroHash { return; }
      if IsBetterQC(qc, lockedQC) { lockedQC := qc; }
    }

    /** The certificate that the counted votes give a block. */
    method BuildQuorumCertFor(height: Uint64, round: Uint64, blockHash: Hash) returns (r: Result<QuorumCert, BuildError>)
      requires ValidSet(snapshot)
      ensures r.Ok? ==> Certified(config, snapshot, votes, height, round, blockHash, r.value)
      ensures r.Err? ==> forall cert :: !Certified(config, snapshot, votes, height, round, blockHash, cert)
    {
      hide BuiltFrom;
      r := BuildQuorumCert(snapshot, config.aggregator, VotesFor(votes, height, round, blockHash), height, round, blockHash);
    }

    /** In every reachable state at most one block of a height and round can be certified. */
    lemma OneCertified(height: Uint64, round: Uint64, a: Hash, certA: QuorumCert, b: Hash, certB: QuorumCert)
      requires Valid() && RoomForOneQuorum(Sum(snapshot.validators))
      requires Certified(config, snapshot, votes, height, round, a, certA) && Certified(config, snapshot, votes, height, round, b, certB)
      ensures a == b
    {
      hide BuiltFrom, ValidBallots, VotesFor, Sum;
      OneCertifiedBlock(snapshot, config.aggregator.value, votes, votedVotes, height, round, a, certA, b, certB);
    }

    /** With the deterministic backend and one validator set, what the machine certifies is accepted
        by the finality verifier for that set. */
    lemma CertifiedIsAccepted(sha: Bytes -> Bytes, strict: bool, height: Uint64, round: Uint64, blockHash: Hash, cert: QuorumCert)
      requires Valid() && sets == {snapshot} && Certified(config, snapshot, votes, height, round, blockHash, cert)
      requires config.signatures == Some(Deterministic(sha).verify) && config.aggregator == Some(Deterministic(sha).aggregate)
      requires forall data :: sha(data) != []
      requires forall id | id in snapshot.byID :: Signers.Plain(id)
      ensures Finality.CertAccepted(
        Finality.Verifier(snapshot, Some(Deterministic(sha).verifyAggregate), strict, config.hashBytes),
        cert, height, blockHash, VoteBytes(config.hashBytes, height, round, blockHash))
    {
      hide BuiltFrom, Finality.CertAccepted, VoteBytes, VoteMessage, Deterministic, Signers.Plain, CommitsOk, IsTree, JustifyLinked;
      var cast := VotesFor(votes, height, round, blockHash);
      forall id | id in cast ensures Verifies(config, snapshot, cast[id]) && Filed(cast[id], height, round, blockHash, id) {
        assert OneVote(votedVotes, height, round, id, cast[id]);
        assert Authentic(config, sets, cast[id]);
      }
      assert Finality.VerifiedVotes(sha, config.hashBytes, snapshot, cast, height, round, blockHash);
      Finality.BuiltCertAccepted(sha, config.hashBytes, snapshot, strict, cast, height, round, blockHash, cert);
    }

    // -------------------------------------------------------------------------------- proposals

    /** A block that leaves its parent and its commitment to the machine. */
    predicate Blank(block: Block, justifyQC: QuorumCert) {
      justifyQC.height == 0 && block.header.previousBlockHash == ZeroHash && block.header.consensusHash == ZeroHash
    }

    /** The proposal holds the given transactions in canonical order under a header for this chain and
        validator set. If everything is left to the machine it also satisfies the other checks that
        OnProposal makes of its data, its parent and its safety. */
    method CreateProposal(block: Block, round: Uint64, proposer: ValidatorID, justifyQC: QuorumCert)
      returns (r: Result<Proposal, ProposalError>)
      requires Valid()
      ensures r.Ok? <==> proposer in snapshot.byID && ProposerOk(config, snapshot, block.header.height, round, proposer)
      ensures r.Err? ==> r.error == if proposer !in snapshot.byID then NotAValidator else UnexpectedProposer
      ensures r.Ok? ==>
        var p := r.value;
        p.round == round && p.proposer == proposer && multiset(p.block.txs) == multiset(block.txs) && OrderOk(config, p.block) &&
        p.block.header == block.header.(
          chainID := config.chainID, validatorSetHash := snapshot.hash, txRoot := TxRoot(p.block.txs),
          previousBlockHash := p.block.header.previousBlockHash, consensusHash := p.block.header.consensusHash) &&
        (justifyQC.height > 0 ==> p.justifyQC == justifyQC) &&
        p.block.header.previousBlockHash ==
          (if block.header.previousBlockHash == ZeroHash && p.justifyQC.height > 0 then p.justifyQC.blockHash else block.header.previousBlockHash) &&
        p.block.header.consensusHash ==
          (if block.header.consensusHash == ZeroHash && block.txs != [] then Availability.Commitment(p.block.txs) else block.header.consensusHash)
      ensures r.Ok? && Blank(block, justifyQC) ==>
        var p := r.value;
        Availability.DataMatches(p.block.header.consensusHash, p.block.txs) && JustifyOk(p) &&
        SafeProposal(lockedQC, tree.blocks, p) && (p.justifyQC == lockedQC || p.justifyQC == tree.highQC)
    {
      hide ValidSet, VotingOk, TimeoutsVerified, AllSound, AllAuthentic, CommitsOk, IsTree, JustifyLinked, TimeoutCollector.Valid,
           FairOrdering.Canonical, ExtendsIn, ProposerOk, Availability.Commitment;
      if proposer !in snapshot.byID { return Err(NotAValidator); }
      if !ProposerOk(config, snapshot, block.header.height, round, proposer) { return Err(UnexpectedProposer); }
      var justify := justifyQC;
      if justifyQC.height == 0 { justify := ProposalQC(); }
      var header := block.header.(chainID := config.chainID, validatorSetHash := snapshot.hash);
      if header.previousBlockHash == ZeroHash && justify.height > 0 {
        header := header.(previousBlockHash := justify.blockHash);
      }
      var txs := FairOrdering.SortTxs(config.rules(header.height), block.txs);
      header := header.(txRoot := TxRoot(txs));
      Availability.CommitmentNotZero(txs);
      if header.consensusHash == ZeroHash && |txs| > 0 {
        header := header.(consensusHash := Availability.Commitment(txs));
      }
      return Ok(Proposal(Block(header, txs), round, proposer, justify, []));
    }

    /** What becomes of a machine's own proposal, if its height is not below that of the certificate it builds on: it is
        never refused for its order, its data, its parent or its safety. It is refused exactly for a bad signature or a
        missing height. Otherwise it is stale only if its block is certified already or it is behind, and it is accepted
        if neither is so and no due decision clashes with the log. */
    method ProposeToItself(block: Block, round: Uint64, proposer: ValidatorID, sign: Proposal -> Bytes)
      returns (created: Option<Proposal>, err: Option<ProposalError>)
      requires Valid() && Blank(block, NO_CERT)
      modifies this`committed, this`committedSet, this`commitIndex, this`status, tree
      ensures Valid() && Advanced()
      ensures created.Some? <==> proposer in snapshot.byID && ProposerOk(config, snapshot, block.header.height, round, proposer)
      ensures created.None? ==> err == Some(NotAValidator) || err == Some(UnexpectedProposer)
      ensures created.Some? && created.value.justifyQC.height <= block.header.height ==>
        var p := created.value;
        var known := HashBlock(p.block) in old(tree.blocks) && old(tree.blocks)[HashBlock(p.block)].quorumCert.height > 0;
        var behind := block.header.height < old(status).height || (block.header.height == old(status).height && round < old(status).round);
        p.round == round && p.proposer == proposer && p.block.header.height == block.header.height &&
        (err == Some(BadSignature) <==> !ProposalSigned(config, snapshot, p)) &&
        (err == Some(MissingHeight) <==> ProposalSigned(config, snapshot, p) && block.header.height == 0) &&
        (err.None? || err == Some(BadSignature) || err == Some(MissingHeight) || err == Some(StaleProposal) || err == Some(ConflictingCommit)) &&
        (err == Some(StaleProposal) ==> known || behind) &&
        (err == Some(ConflictingCommit) ==> Clash(tree.blocks, committed)) &&
        (err.None? ==>
          !known && !behind && tree.blocks == WithBlock(old(tree.blocks), p) && Caught(tree.blocks, tree.blocks.Keys, committedSet) &&
          status.height == block.header.height && status.round == round && status.phase == Voting)
    {
      hide ValidSet, VotingOk, TimeoutsVerified, AllSound, AllAuthentic, CommitsOk, JustifyLinked, TimeoutCollector.Valid, Grows, Caught, Clash,
           Availability.DataMatches, OrderOk, ProposalSigned, ProposerOk, IsTree, SafeProposal, JustifyOk, WithBlock, HashBlock,
           Refusal;
      NoGrowth(tree.blocks);
      var result := CreateProposal(block, round, proposer, NO_CERT);
      if result.Err? { return None, Some(result.error); }
      var p := result.value;
      var signed := p.(signature := sign(p));
      created := Some(signed);
      assert SafeProposal(lockedQC, tree.blocks, signed) && JustifyOk(signed) by { SignatureIrrelevant(lockedQC, tree.blocks, p, signed); }
      if signed.justifyQC.height <= block.header.height { OwnRefusal(config, snapshot, signed); }
      err := OnProposal(signed);
    }

    method IsSafeProposal(p: Proposal) returns (safe: bool)
      requires tree.Valid()
      ensures safe <==> SafeProposal(lockedQC, tree.blocks, p)
    {
      hide ExtendsIn;
      if lockedQC.height == 0 || p.justifyQC.height >= lockedQC.height { return true; }
      if p.block.header.previousBlockHash == lockedQC.blockHash { return true; }
      safe := tree.Extends(p.block.header.previousBlockHash, lockedQC.blockHash);
    }

    /** Puts the block into the tree and takes the decisions that are then due. */
    method InsertAndCommit(p: Proposal) returns (conflict: bool)
      requires tree.Valid() && CommitsOk(committed, committedSet, commitIndex, status.lastFinalized, tree.blocks)
      requires JustifyOk(p)
      modifies this`committed, this`committedSet, this`commitIndex, this`status, tree
      ensures tree.Valid() && CommitsOk(committed, committedSet, commitIndex, status.lastFinalized, tree.blocks)
      ensures Grows(old(tree.blocks), tree.blocks) && tree.highQC == Better(p.justifyQC, old(tree.highQC))
      ensures tree.blocks == WithBlock(old(tree.blocks), p)
      ensures status == old(status).(lastFinalized := status.lastFinalized)
      ensures forall d | d in old(committed) :: d in committed
      ensures if conflict then Clash(tree.blocks, committed) else Caught(tree.blocks, tree.blocks.Keys, committedSet)
      ensures AddedFrom(tree.blocks, old(committed), old(committedSet), committed)
    {
      hide CommitsOk, IsTree, JustifyLinked, Grows, Caught, Clash, AddedFrom, HashBlock, Better;
      tree.Insert(p.block, HashBlock(p.block), p.justifyQC);
      CommitsKept(committed, committedSet, commitIndex, status.lastFinalized, old(tree.blocks), tree.blocks);
      conflict := ApplyKnownCommitRules();
    }

    /** A proposal that passes the checks is put into the tree, unless its block is already certified or
        it is unsafe. It is accepted, and moves the machine to its height and round, unless it is behind
        them or a due decision clashes with the log. */
    method OnProposal(p: Proposal) returns (err: Option<ProposalError>)
      requires Valid()
      modifies this`committed, this`committedSet, this`commitIndex, this`status, tree
      ensures Valid() && Advanced()
      ensures var refusal, hash, height := Refusal(config, snapshot, p), HashBlock(p.block), p.block.header.height;
        var known := hash in old(tree.blocks) && old(tree.blocks)[hash].quorumCert.height > 0;
        var behind := height < old(status).height || (height == old(status).height && p.round < old(status).round);
        var safe := SafeProposal(lockedQC, old(tree.blocks), p);
        (refusal.Some? ==> err == refusal && status == old(status) && committed == old(committed)) &&
        (refusal.None? ==> err.None? || err == Some(UnsafeProposal) || err == Some(StaleProposal) || err == Some(ConflictingCommit)) &&
        (err == Some(UnsafeProposal) <==> refusal.None? && !known && !behind && !safe) &&
        (err == Some(StaleProposal) ==> refusal.None? && (known || behind)) &&
        (err == Some(ConflictingCommit) ==> refusal.None? && Clash(tree.blocks, committed)) &&
        (err.None? ==> refusal.None? && !known && !behind && safe) &&
        tree.blocks == if refusal.None? && !known && (behind || safe) then WithBlock(old(tree.blocks), p) else old(tree.blocks)
      ensures err.None? || err == Some(StaleProposal) ==> Caught(tree.blocks, tree.blocks.Keys, committedSet)
      ensures AddedFrom(tree.blocks, old(committed), old(committedSet), committed)
      ensures err.None? ==>
        status.height == p.block.header.height && status.round == p.round && status.phase == Voting
      ensures err.Some? ==> status == old(status).(lastFinalized := status.lastFinalized)
    {
      hide ValidSet, VotingOk, TimeoutsVerified, AllSound, AllAuthentic, CommitsOk, IsTree, JustifyLinked, Grows, Refusal,
           TimeoutCollector.Valid, NotBelow, WithBlock, Caught, Clash, AddedFrom, SafeProposal, JustifyOk, HashBlock, Better,
           FirstReason, CHECKS;
      NoGrowth(tree.blocks);
      NotBetterThanItself(lockedQC);
      NotBetterThanItself(tree.highQC);
      RefusalKinds(config, snapshot, p);
      err := Screen(config, snapshot, p);
      OneReason(config, snapshot, p, err, Refusal(config, snapshot, p));
      NothingAdded(tree.blocks, committed, committedSet);
      if err.Some? { return; }
      NotRefused(config, snapshot, p);
      var conflict: bool;
      if KnownCertified(tree.blocks, HashBlock(p.block)) {
        conflict := ApplyKnownCommitRules();
        err := Some(if conflict then ConflictingCommit else StaleProposal);
        return;
      }
      var behind := Behind(status, p.block.header.height, p.round);
      if !behind {
        var safe := IsSafeProposal(p);
        if !safe {
          err := Some(UnsafeProposal);
          return;
        }
      }
      conflict := InsertAndCommit(p);
      BetterLock(lockedQC, old(tree.highQC), p.justifyQC);
      if conflict {
        err := Some(ConflictingCommit);
      } else if behind {
        err := Some(StaleProposal);
      } else {
        status := status.(height := p.block.header.height, round := p.round, phase := Voting);
      }
    }

    // ------------------------------------------------------------------------------------ votes

    /** A vote for another block than before becomes evidence; any other vote is counted. */
    method RecordVote(vote: Vote) returns (conflict: bool)
      requires VotingOk(votes, votedVotes, verified) && vote in verified
      requires AllSound(evidence, verified, verifiedTimeouts)
      modifies this`votes, this`votedVotes, this`evidence
      ensures VotingOk(votes, votedVotes, verified)
      ensures AllSound(evidence, verified, verifiedTimeouts) && old(evidence) <= evidence
      ensures conflict <==> Conflicts(old(votedVotes), vote)
      ensures conflict ==>
        votes == old(votes) && votedVotes == old(votedVotes) && |evidence| == |old(evidence)| + 1 &&
        evidence[|old(evidence)|].validator == vote.validatorID
      ensures !conflict ==>
        votes == RecordVotes(old(votes), vote) && votedVotes == RecordVoted(old(votedVotes), vote) && evidence == old(evidence)
    {
      hide Sound;
      var voted := VotedIn(votedVotes, vote.height, vote.round);
      if vote.validatorID in voted && voted[vote.validatorID].blockHash != vote.blockHash {
        var previous := voted[vote.validatorID];
        var made := NewConflictingVoteEvidence(previous, vote);
        MadeEvidence(previous, vote, verified, verifiedTimeouts);
        if made.Ok? { evidence := evidence + [made.value]; }
        return true;
      }
      RecordKeepsBallots(votes, votedVotes, vote);
      RecordKeepsVerified(votedVotes, vote, verified);
      votes, votedVotes := RecordVotes(votes, vote), RecordVoted(votedVotes, vote);
      return false;
    }

    method ValidateVote(vote: Vote) returns (err: Option<VoteError>)
      requires tree.Valid() && vote.validatorID in snapshot.byID
      ensures err.None? <==> VoteAdmitted(config, snapshot, status, lockedQC, tree.blocks, vote)
      ensures err != Some(ConflictingBallot)
    {
      hide ExtendsIn, VoteMessage;
      if vote.height == 0 { return Some(NoHeight); }
      if vote.blockHash == ZeroHash { return Some(NoBlockHash); }
      if !VoteSigned(config, snapshot, vote) { return Some(BadVoteSignature); }
      if status.height > 0 && vote.height < status.height { return Some(StaleVote); }
      if vote.height == status.height && vote.round < status.round { return Some(StaleVote); }
      if vote.blockHash !in tree.blocks { return Some(UnknownBlock); }
      var node := tree.blocks[vote.blockHash];
      if node.block.header.height != vote.height { return Some(HeightMismatch); }
      if lockedQC.height == 0 || node.justifyQC.height >= lockedQC.height || node.hash == lockedQC.blockHash {
        return None;
      }
      var extends_ := tree.Extends(node.hash, lockedQC.blockHash);
      return if extends_ then None else Some(UnsafeVote);
    }

    /** The vote as it is counted: an unsigned one gets a placeholder when signatures are not checked. */
    function SignedVote(vote: Vote): (signed: Vote)
      ensures signed == vote.(signature := signed.signature)
      ensures config.signatures.Some? || vote.signature != [] ==> signed == vote
    {
      if config.signatures.Some? || vote.signature != [] then vote else vote.(signature := config.unsignedVote(vote))
    }

    /** If the counted votes certify the block, the certificate is kept in the tree and may move the lock. */
    method Certify(height: Uint64, round: Uint64, blockHash: Hash) returns (ghost cert: Option<QuorumCert>)
      requires ValidSet(snapshot) && tree.Valid() && NotBelow(tree.highQC, lockedQC)
      requires height > 0 && blockHash in tree.blocks && tree.blocks[blockHash].block.header.height == height
      requires CommitsOk(committed, committedSet, commitIndex, status.lastFinalized, tree.blocks)
      modifies this`lockedQC, this`status, tree
      ensures tree.Valid() && NotBelow(tree.highQC, lockedQC) && Grows(old(tree.blocks), tree.blocks)
      ensures CommitsOk(committed, committedSet, commitIndex, status.lastFinalized, tree.blocks)
      ensures tree.blocks.Keys == old(tree.blocks.Keys)
      ensures NotBelow(lockedQC, old(lockedQC)) && NotBelow(tree.highQC, old(tree.highQC))
      ensures cert.None? ==> lockedQC == old(lockedQC) && tree.highQC == old(tree.highQC) && tree.blocks == old(tree.blocks)
      ensures cert.None? ==> forall c :: !Certified(config, snapshot, votes, height, round, blockHash, c)
      ensures status == if cert.None? then old(status) else old(status).(phase := Commit)
      ensures cert.Some? ==>
        Certified(config, snapshot, votes, height, round, blockHash, cert.value) && tree.blocks[blockHash].quorumCert == cert.value &&
        lockedQC == Better(cert.value, old(lockedQC)) && tree.highQC == Better(cert.value, old(tree.highQC))
    {
      hide ValidSet, CommitsOk, IsTree, JustifyLinked, Grows, BuiltFrom, VotesFor;
      cert := None;
      NoGrowth(tree.blocks);
      var qc := BuildQuorumCertFor(height, round, blockHash);
      if qc.Err? { return; }
      cert := Some(qc.value);
      CertifiedFields(config, snapshot, votes, height, round, blockHash, qc.value);
      var setErr := tree.SetQuorumCert(qc.value);
      assert setErr.None?;
      UpdateLockedQC(qc.value);
      status := status.(phase := Commit);
      CommitsKept(committed, committedSet, commitIndex, status.lastFinalized, old(tree.blocks), tree.blocks);
    }

    /** A vote is counted exactly when it is admitted and does not conflict with an earlier one. If the
        counted votes then certify the block, the certificate is kept in the tree and may move the lock. */
    method OnVote(received: Vote) returns (err: Option<VoteError>, ghost cert: Option<QuorumCert>)
      requires Valid()
      modifies this`votes, this`votedVotes, this`evidence, this`lockedQC, this`status, this`verified, tree
      ensures Valid() && Advanced()
      ensures verified == WithVote(config, snapshot, old(verified), SignedVote(received))
      ensures var vote := SignedVote(received);
        (err.None? <==> old(VoteAdmitted(config, snapshot, status, lockedQC, tree.blocks, vote)) && !Conflicts(old(votedVotes), vote)) &&
        (err == Some(ConflictingBallot) <==> old(VoteAdmitted(config, snapshot, status, lockedQC, tree.blocks, vote)) && Conflicts(old(votedVotes), vote)) &&
        (err.None? ==> votes == RecordVotes(old(votes), vote) && votedVotes == RecordVoted(old(votedVotes), vote)) &&
        (err.None? ==> evidence == old(evidence) && tree.blocks.Keys == old(tree.blocks.Keys)) &&
        (err.Some? ==> votes == old(votes) && votedVotes == old(votedVotes) && cert.None?)
      ensures err.Some? && err != Some(ConflictingBallot) ==> evidence == old(evidence)
      ensures cert.None? ==> lockedQC == old(lockedQC) && tree.highQC == old(tree.highQC) && tree.blocks == old(tree.blocks)
      ensures cert.None? && err.None? ==>
        forall c :: !Certified(config, snapshot, votes, received.height, received.round, received.blockHash, c)
      ensures cert.Some? ==>
        Certified(config, snapshot, votes, received.height, received.round, received.blockHash, cert.value) && received.blockHash in tree.blocks &&
        tree.blocks[received.blockHash].quorumCert == cert.value && lockedQC == Better(cert.value, old(lockedQC)) &&
        tree.highQC == Better(cert.value, old(tree.highQC))
      ensures status == if cert.None? then old(status) else old(status).(phase := Commit)
    {
      hide ValidSet, VotingOk, TimeoutsVerified, AllSound, AllAuthentic, CommitsOk, IsTree, JustifyLinked, Verifies, WithVote,
           Grows, TimeoutCollector.Valid, Certified, VoteAdmitted, VoteSigned, Conflicts, NotBelow, RecordVotes, RecordVoted;
      var vote := SignedVote(received);
      NoGrowth(tree.blocks);
      NotBetterThanItself(lockedQC);
      NotBetterThanItself(tree.highQC);
      VoteNoted(config, sets, snapshot, votes, votedVotes, evidence, verified, verifiedTimeouts, vote);
      verified := WithVote(config, snapshot, verified, vote);
      AdmittedFacts(config, snapshot, status, lockedQC, tree.blocks, vote);
      cert, err := None, Some(UnknownVoter);
      if vote.validatorID in snapshot.byID {
        err := ValidateVote(vote);
        if err.None? {
          var conflict := RecordVote(vote);
          if conflict {
            err := Some(ConflictingBallot);
          } else {
            cert := Certify(vote.height, vote.round, vote.blockHash);
          }
        }
      }
    }

    // --------------------------------------------------------------------------------- timeouts

    function SignedTimeout(vote: TimeoutVote): (signed: TimeoutVote)
      ensures signed == vote.(signature := signed.signature)
      ensures config.signatures.Some? || vote.signature != [] ==> signed == vote
    {
      if config.signatures.Some? || vote.signature != [] then vote else vote.(signature := config.unsignedTimeout(vote))
    }

    /** A timeout vote that conflicts with an earlier one becomes evidence. When the votes of the round
        make a certificate, the pacemaker moves behind it and its best certificate is observed. */
    method OnTimeoutVote(received: TimeoutVote) returns (r: Result<TimeoutCert, TimeoutFailure>)
      requires Valid()
      modifies this`status, this`evidence, this`verifiedTimeouts, tree`highQC, timeouts, pacemaker
      ensures Valid() && Advanced()
      ensures verifiedTimeouts == WithTimeoutVote(config, snapshot, old(verifiedTimeouts), SignedTimeout(received))
      ensures r.Ok? ==>
        config.aggregator.Some? && r.value.height == received.height && r.value.round == received.round &&
        TimeoutBuiltFrom(snapshot, config.aggregator.value, timeouts.VotesForRound(received.height, received.round),
                         received.height, received.round, r.value) &&
        tree.highQC == Better(r.value.highQC, old(tree.highQC)) &&
        status == old(status).(height := pacemaker.height, round := pacemaker.round, phase := Propose, lastTimeoutCert := r.value)
      ensures r.Err? ==>
        status == old(status) && tree.highQC == old(tree.highQC) &&
        pacemaker.height == old(pacemaker.height) && pacemaker.round == old(pacemaker.round)
      ensures r.Ok? ==> pacemaker.height == received.height && pacemaker.round == Next(received.round)
      ensures var vote := SignedTimeout(received);
        var counted := TimeoutVerifies(config, snapshot, vote) && !Contradicts(old(timeouts.votes), vote);
        (!counted <==> r.Err? && (r.error.BadTimeoutSignature? || r.error.Refused?)) &&
        timeouts.votes == if !counted || vote.validatorID in old(timeouts.VotesForRound(vote.height, vote.round))
                          then old(timeouts.votes) else WithTimeout(old(timeouts.votes), vote)
      ensures r.Err? && r.error.NotBuilt? && config.aggregator.Some? ==>
        forall cert :: !TimeoutBuiltFrom(snapshot, config.aggregator.value, timeouts.VotesForRound(received.height, received.round),
                                         received.height, received.round, cert)
      ensures r.Err? && r.error.StaleCert? ==>
        received.height < pacemaker.height || (received.height == pacemaker.height && received.round < pacemaker.round)
      ensures r == Err(Refused(TimeoutError.ConflictingTimeoutVote)) <==> |evidence| > |old(evidence)|
      ensures |evidence| > |old(evidence)| ==> evidence[|old(evidence)|].validator == received.validatorID
    {
      hide ValidSet, VotingOk, CommitsOk, BlockTree.Valid, TimeoutCollector.Valid, TimeoutsVerified, Grows, AllSound, AllAuthentic,
           TimeoutVerifies, Contradicts, WithTimeoutVote, TimeoutBuiltFrom, Better, NotBelow, WithTimeout, RoundOf, Next;
      var vote := SignedTimeout(received);
      NoGrowth(tree.blocks);
      NotBetterThanItself(lockedQC);
      NotBetterThanItself(tree.highQC);
      TimeoutNoted(config, sets, snapshot, timeouts.votes, evidence, verified, verifiedTimeouts, vote);
      verifiedTimeouts := WithTimeoutVote(config, snapshot, verifiedTimeouts, vote);
      var err := AddTimeoutVote(vote);
      if err.Some? { return Err(err.value); }
      r := AdvanceByTimeouts(vote.height, vote.round);
    }

    /** When the votes of the round make a certificate, the pacemaker moves behind it and its best
        certificate is observed. */
    method AdvanceByTimeouts(height: Uint64, round: Uint64) returns (r: Result<TimeoutCert, TimeoutFailure>)
      requires timeouts.Valid() && NotBelow(tree.highQC, lockedQC)
      modifies this`status, pacemaker, tree`highQC
      ensures NotBelow(tree.highQC, lockedQC) && NotBelow(tree.highQC, old(tree.highQC))
      ensures r.Ok? ==>
        timeouts.aggregator.Some? && r.value.height == height && r.value.round == round &&
        TimeoutBuiltFrom(timeouts.snapshot, timeouts.aggregator.value, timeouts.VotesForRound(height, round), height, round, r.value) &&
        tree.highQC == Better(r.value.highQC, old(tree.highQC)) && pacemaker.height == height && pacemaker.round == Next(round) &&
        status == old(status).(height := pacemaker.height, round := pacemaker.round, phase := Propose, lastTimeoutCert := r.value)
      ensures r.Err? ==>
        status == old(status) && tree.highQC == old(tree.highQC) && (r.error.NotBuilt? || r.error.StaleCert?) &&
        pacemaker.height == old(pacemaker.height) && pacemaker.round == old(pacemaker.round)
      ensures r.Err? && r.error.NotBuilt? && timeouts.aggregator.Some? ==>
        forall cert :: !TimeoutBuiltFrom(timeouts.snapshot, timeouts.aggregator.value, timeouts.VotesForRound(height, round), height, round, cert)
      ensures r.Err? && r.error.StaleCert? ==> height < pacemaker.height || (height == pacemaker.height && round < pacemaker.round)
    {
      hide TimeoutCollector.Valid, TimeoutBuiltFrom, Better, NotBelow;
      NotBetterThanItself(tree.highQC);
      var cert := timeouts.BuildTimeoutCert(height, round);
      if cert.Err? { return Err(NotBuilt(cert.error)); }
      TimeoutFields(timeouts.snapshot, timeouts.aggregator.value, timeouts.VotesForRound(height, round), height, round, cert.value);
      var stale := pacemaker.AdvanceRound(cert.value);
      if stale { return Err(StaleCert); }
      BetterLock(lockedQC, tree.highQC, cert.value.highQC);
      tree.ObserveQuorumCert(cert.value.highQC);
      status := status.(height := pacemaker.height, round := pacemaker.round, phase := Propose, lastTimeoutCert := cert.value);
      return Ok(cert.value);
    }

    method AddTimeoutVote(vote: TimeoutVote) returns (err: Option<TimeoutFailure>)
      requires timeouts.Valid() && timeouts.snapshot == snapshot
      requires TimeoutVerifies(config, snapshot, vote) ==> vote in verifiedTimeouts
      requires TimeoutsVerified(timeouts.votes, verifiedTimeouts) && AllSound(evidence, verified, verifiedTimeouts)
      modifies this`evidence, timeouts
      ensures timeouts.Valid() && TimeoutsVerified(timeouts.votes, verifiedTimeouts)
      ensures AllSound(evidence, verified, verifiedTimeouts) && old(evidence) <= evidence
      ensures err.None? <==> TimeoutVerifies(config, snapshot, vote) && !Contradicts(old(timeouts.votes), vote)
      ensures timeouts.votes == if err.Some? || vote.validatorID in old(timeouts.VotesForRound(vote.height, vote.round))
                                then old(timeouts.votes) else WithTimeout(old(timeouts.votes), vote)
      ensures err == Some(Refused(TimeoutError.ConflictingTimeoutVote)) <==> |evidence| > |old(evidence)|
      ensures |evidence| > |old(evidence)| ==> evidence[|old(evidence)|].validator == vote.validatorID
      ensures err.Some? ==> err.value.BadTimeoutSignature? || err.value.Refused?
    {
      hide ValidSet, Sound, WithTimeout;
      if !TimeoutSigned(config, snapshot, vote) { return Some(BadTimeoutSignature); }
      var previous := timeouts.ConflictingVote(vote);
      if vote in verifiedTimeouts { AddedVerified(timeouts.votes, vote, verifiedTimeouts); }
      var refusal := timeouts.AddVote(vote);
      assert refusal.Some? ==> refusal.value == UnknownValidator || refusal.value == TimeoutError.ConflictingTimeoutVote;
      if refusal.Some? {
        if previous.Some? && refusal == Some(TimeoutError.ConflictingTimeoutVote) {
          var made := NewConflictingTimeoutVoteEvidence(previous.value, vote);
          MadeTimeoutEvidence(previous.value, vote, verified, verifiedTimeouts);
          if made.Ok? { evidence := evidence + [made.value]; }
        }
        return Some(Refused(refusal.value));
      }
      return None;
    }

    // ------------------------------------------------------------------------- other operations

    /** A block that comes with its certificate is added and may move the lock. */
    method ObserveCommittedBlock(block: Block, qc: QuorumCert) returns (err: Option<TreeError>)
      requires Valid()
      modifies this`lockedQC, tree
      ensures Valid() && Advanced()
      ensures err.None? <==> qc.height == block.header.height && qc.height > 0 && qc.blockHash == HashBlock(block)
      ensures err.None? ==>
        var node := if qc.blockHash in old(tree.blocks) then old(tree.blocks)[qc.blockHash]
                    else BlockNode(block, qc.blockHash, block.header.previousBlockHash, NO_CERT, NO_CERT);
        tree.blocks == old(tree.blocks)[qc.blockHash := node.(quorumCert := qc)] &&
        lockedQC == Better(qc, old(lockedQC)) && tree.highQC == Better(qc, old(tree.highQC))
      ensures err.Some? ==> lockedQC == old(lockedQC) && tree.highQC == old(tree.highQC)
    {
      hide ValidSet, VotingOk, TimeoutsVerified, AllSound, AllAuthentic, CommitsOk, IsTree, JustifyLinked, TimeoutCollector.Valid, HashBlock;
      if qc.height != block.header.height || qc.blockHash != HashBlock(block) { return Some(InvalidBlockCert); }
      if qc.blockHash !in tree.blocks { tree.Insert(block, qc.blockHash, NO_CERT); }
      assert tree.blocks[qc.blockHash].block.header.height == qc.height by { HeightOfHash(tree.blocks, qc.blockHash, block); }
      err := tree.SetQuorumCert(qc);
      CommitsKept(committed, committedSet, commitIndex, status.lastFinalized, old(tree.blocks), tree.blocks);
      if err.Some? { return; }
      UpdateLockedQC(qc);
    }

    /** Votes and evidence stay; timeout votes start afresh. */
    method UpdateValidatorSet(next: Snapshot)
      requires Valid() && ValidSet(next)
      modifies this`snapshot, this`sets, this`status, this`timeouts
      ensures Valid() && Advanced() && fresh(timeouts) && timeouts.votes == map[] && sets == old(sets) + {next}
      ensures snapshot == next && status == old(status).(validatorSetHash := next.hash)
    {
      hide ValidSet, ValidBallots, AllVerified, AllSound, CommitsOk, IsTree, JustifyLinked, AllAuthentic;
      StillAuthentic(config, sets, sets + {next}, verified, verifiedTimeouts);
      snapshot, sets := next, sets + {next};
      status := status.(validatorSetHash := next.hash);
      timeouts := new TimeoutCollector(next, config.aggregator);
    }

    method StartRound(height: Uint64, round: Uint64)
      requires Valid()
      modifies this`status, this`pacemaker
      ensures Valid() && Advanced() && fresh(pacemaker) && pacemaker.height == height && pacemaker.round == round
      ensures status == old(status).(height := height, round := round, phase := Propose)
    {
      hide ValidSet, VotingOk, AllSound, AllAuthentic, CommitsOk, IsTree, JustifyLinked, TimeoutsVerified;
      status := status.(height := height, round := round, phase := Propose);
      pacemaker := new Pacemaker(height, round);
    }

    // ------------------------------------------------------------------ what holds of every run

    /** In every reachable state the voters of different blocks of a round are disjoint, and every evidence holds two
        conflicting votes that verify for the validator it names. So it never names a validator under whose key no two
        conflicting votes verify, whatever forged votes have arrived. */
    lemma NoDoubleCounting(height: Uint64, round: Uint64, a: Hash, b: Hash, honest: ValidatorID)
      requires Valid() && a != b
      ensures VotesFor(votes, height, round, a).Keys !! VotesFor(votes, height, round, b).Keys
      ensures forall i | 0 <= i < |evidence| :: Sound(evidence[i], verified, verifiedTimeouts) && AuthenticEvidence(config, sets, evidence[i])
      ensures Honest(honest, verified, verifiedTimeouts) || SignedOneTarget(config, sets, honest) ==>
        forall i | 0 <= i < |evidence| :: evidence[i].validator != honest
    {
      hide ValidBallots, Honest, Sound, CommitsOk, IsTree, JustifyLinked, AllAuthentic, AuthenticEvidence, SignedOneTarget;
      VotersDisjoint(votes, votedVotes, height, round, a, b);
      forall i | 0 <= i < |evidence| ensures AuthenticEvidence(config, sets, evidence[i]) {
        SoundIsAuthentic(config, sets, verified, verifiedTimeouts, evidence[i]);
      }
      if SignedOneTarget(config, sets, honest) { OneTargetIsHonest(config, sets, verified, verifiedTimeouts, honest); }
      if Honest(honest, verified, verifiedTimeouts) { HonestNeverNamed(honest, evidence, verified, verifiedTimeouts); }
    }
  }

  lemma NothingAdded(blocks: Blocks, committed: seq<CommitDecision>, committedSet: set<Hash>)
    ensures AddedFrom(blocks, committed, committedSet, committed)
  {}

  lemma NothingToCatch(blocks: Blocks, committedSet: set<Hash>)
    ensures Caught(blocks, {}, committedSet)
  {}

  /** The decision that is due at a block, said with three-chains. */
  lemma DueExactly(blocks: Blocks, blockHash: Hash)
    requires IsTree(blocks)
    ensures DecisionAt(blocks, blockHash).Some? ==>
      var d := DecisionAt(blocks, blockHash).value;
      ThreeChain(blocks, blockHash, d.committedHeight, d.committedBlockHash, d.commitQC) && StartsChain(blocks, d)
    ensures forall n: nat, b1, qc | ThreeChain(blocks, blockHash, n, b1, qc) ::
      DecisionAt(blocks, blockHash).Some? && DecisionAt(blocks, blockHash).value == CommitDecision(n, b1, qc)
  {
    hide IsTree, CandidateFor, Decide;
    if DecisionAt(blocks, blockHash).Some? { DecisionExactly(blocks, blockHash, DecisionAt(blocks, blockHash).value); }
    forall n: nat, b1, qc | ThreeChain(blocks, blockHash, n, b1, qc)
      ensures DecisionAt(blocks, blockHash).Some? && DecisionAt(blocks, blockHash).value == CommitDecision(n, b1, qc)
    {
      DecisionExactly(blocks, blockHash, CommitDecision(n, b1, qc));
    }
  }

  lemma CatchOne(blocks: Blocks, done: set<Hash>, blockHash: Hash, before: set<Hash>, after: set<Hash>)
    requires IsTree(blocks) && Caught(blocks, done, before) && before <= after
    requires DecisionAt(blocks, blockHash).Some? ==> DecisionAt(blocks, blockHash).value.committedBlockHash in after
    ensures Caught(blocks, done + {blockHash}, after)
  {
    hide DecisionAt, IsTree, ThreeChain;
    DueExactly(blocks, blockHash);
  }

  lemma IndexedIsCommitted(committed: seq<CommitDecision>, committedSet: set<Hash>, byHeight: map<nat, Hash>, height: nat)
    requires ValidLog(committed, committedSet, byHeight)
    ensures height in byHeight ==> byHeight[height] in committedSet
  {
    if height in byHeight {
      var x :| x in committed && x.committedHeight == height;
      assert LogsHash(committed, x.committedBlockHash);
    }
  }

  lemma AllLinked(before: seq<CommitDecision>, after: seq<CommitDecision>, decision: CommitDecision, blocks: Blocks)
    requires AllHaveDescendants(before, blocks)
    requires HasTwoDescendants(blocks, decision.committedBlockHash, decision.committedHeight)
    requires forall d :: d in after <==> d in before || d == decision
    ensures AllHaveDescendants(after, blocks)
  {
    hide HasTwoDescendants;
    forall i | 0 <= i < |after|
      ensures HasTwoDescendants(blocks, after[i].committedBlockHash, after[i].committedHeight)
    {
      assert after[i] in after;
    }
  }

  lemma MadeEvidence(previous: Vote, vote: Vote, verified: set<Vote>, timeouts: set<TimeoutVote>)
    requires previous in verified && vote in verified && previous.blockHash != vote.blockHash
    requires previous.validatorID == vote.validatorID && previous.height == vote.height && previous.round == vote.round
    ensures var made := NewConflictingVoteEvidence(previous, vote);
      made.Ok? && Sound(made.value, verified, timeouts) && made.value.validator == vote.validatorID
  {}

  lemma NoGrowth(blocks: Blocks)
    ensures Grows(blocks, blocks)
  {}

  lemma RecordKeepsVerified(voted: Voted, vote: Vote, verified: set<Vote>)
    requires AllVerified(voted, verified) && vote in verified
    ensures AllVerified(RecordVoted(voted, vote), verified)
  {
    var more := RecordVoted(voted, vote);
    forall h: Uint64, r: Uint64, id | id in VotedIn(more, h, r) ensures VotedIn(more, h, r)[id] in verified {
      if (h, r, id) != (vote.height, vote.round, vote.validatorID) { assert id in VotedIn(voted, h, r); }
    }
  }

  lemma CommitsKept(committed: seq<CommitDecision>, committedSet: set<Hash>, byHeight: map<nat, Hash>, lastFinalized: Hash,
                    before: Blocks, after: Blocks)
    requires CommitsOk(committed, committedSet, byHeight, lastFinalized, before) && Grows(before, after)
    ensures CommitsOk(committed, committedSet, byHeight, lastFinalized, after)
  {
    hide AllHaveDescendants, Grows, ValidLog;
    DescendantsKept(committed, before, after);
  }

  lemma NotBetterThanItself(qc: QuorumCert)
    ensures NotBelow(qc, qc)
  {}

  /** The tree with the block of a proposal in it. */
  function WithBlock(blocks: Blocks, p: Proposal): Blocks {
    var blockHash := HashBlock(p.block);
    blocks[blockHash := BlockNode(p.block, blockHash, p.block.header.previousBlockHash, p.justifyQC,
      if blockHash in blocks then blocks[blockHash].quorumCert else NO_CERT)]
  }

  lemma RefusalKinds(config: Config, snapshot: Snapshot, p: Proposal)
    ensures var refusal := Refusal(config, snapshot, p);
      refusal != Some(UnsafeProposal) && refusal != Some(StaleProposal) && refusal != Some(ConflictingCommit)
  {
    RefusedFor(config, snapshot, p);
  }

  /** Observing another certificate keeps the high certificate from falling behind the lock. */
  lemma BetterLock(lockedQC: QuorumCert, highQC: QuorumCert, qc: QuorumCert)
    requires NotBelow(highQC, lockedQC)
    ensures NotBelow(Better(qc, highQC), lockedQC)
  {}

  lemma SignatureIrrelevant(lockedQC: QuorumCert, blocks: Blocks, p: Proposal, signed: Proposal)
    requires IsTree(blocks) && signed == p.(signature := signed.signature)
    ensures SafeProposal(lockedQC, blocks, p) ==> SafeProposal(lockedQC, blocks, signed)
    ensures JustifyOk(p) ==> JustifyOk(signed)
  {}

  lemma MadeTimeoutEvidence(previous: TimeoutVote, vote: TimeoutVote, verified: set<Vote>, timeouts: set<TimeoutVote>)
    requires previous in timeouts && vote in timeouts && !SameQC(previous.highQC, vote.highQC)
    requires previous.validatorID == vote.validatorID && previous.height == vote.height && previous.round == vote.round
    ensures var made := NewConflictingTimeoutVoteEvidence(previous, vote);
      made.Ok? && Sound(made.value, verified, timeouts) && made.value.validator == vote.validatorID
  {}

  lemma TimeoutFields(snapshot: Snapshot, aggregate: seq<Bytes> -> Option<Bytes>, votes: RoundVotes,
                      height: Uint64, round: Uint64, cert: TimeoutCert)
    requires TimeoutBuiltFrom(snapshot, aggregate, votes, height, round, cert)
    ensures cert.height == height && cert.round == round
  {}

  lemma HeightOfHash(blocks: Blocks, hash: Hash, block: Block)
    requires IsTree(blocks) && hash in blocks && hash == HashBlock(block)
    ensures blocks[hash].block.header.height == block.header.height
  {
    SameHash(blocks[hash].block, block);
  }

  lemma AddedVerified(votes: map<(Uint64, Uint64), RoundVotes>, vote: TimeoutVote, verified: set<TimeoutVote>)
    requires TimeoutsVerified(votes, verified) && vote in verified
    ensures TimeoutsVerified(WithTimeout(votes, vote), verified)
  {
    var more := WithTimeout(votes, vote);
    forall h: Uint64, r: Uint64, id | id in RoundOf(more, h, r) ensures RoundOf(more, h, r)[id] in verified {
      if (h, r, id) != (vote.height, vote.round, vote.validatorID) { assert id in RoundOf(votes, h, r); }
    }
  }

  lemma MoreTimeouts(votes: map<(Uint64, Uint64), RoundVotes>, before: set<TimeoutVote>, after: set<TimeoutVote>)
    requires TimeoutsVerified(votes, before) && before <= after
    ensures TimeoutsVerified(votes, after)
  {}
}
