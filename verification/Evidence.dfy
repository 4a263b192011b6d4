/** Evidence of conflicting votes, and the check a third party makes of it. */
module ConflictEvidence {
  import opened Types
  import opened Validators
  import opened Certificates
  import opened Timeouts

  /** The pair of votes that an evidence carries. */
  datatype VotePair = Votes(first: Vote, second: Vote) | TimeoutVotes(firstTimeout: TimeoutVote, secondTimeout: TimeoutVote)

  datatype EvidenceType = ConflictingVote | ConflictingTimeoutVote | OtherType

  datatype Evidence = Evidence(kind: EvidenceType, validator: ValidatorID, height: Uint64, round: Uint64, proof: VotePair)

  datatype EvidenceError = UnknownType | PairMismatch | NoConflict

  function NewConflictingVoteEvidence(first: Vote, second: Vote): Result<Evidence, EvidenceError> {
    if first.validatorID != second.validatorID || first.height != second.height || first.round != second.round
    then Err(PairMismatch)
    else if first.blockHash == second.blockHash then Err(NoConflict)
    else Ok(Evidence(ConflictingVote, first.validatorID, first.height, first.round, Votes(first, second)))
  }

  function NewConflictingTimeoutVoteEvidence(first: TimeoutVote, second: TimeoutVote): Result<Evidence, EvidenceError> {
    if first.validatorID != second.validatorID || first.height != second.height || first.round != second.round
    then Err(PairMismatch)
    else if SameQC(first.highQC, second.highQC) then Err(NoConflict)
    else Ok(Evidence(
      EvidenceType.ConflictingTimeoutVote, first.validatorID, first.height, first.round, TimeoutVotes(first, second)))
  }

  function VerifyConflictingVoteEvidence(evidence: Evidence): Option<EvidenceError> {
    if evidence.kind != ConflictingVote || !evidence.proof.Votes? then Some(UnknownType)
    else
      var first, second := evidence.proof.first, evidence.proof.second;
      if first.validatorID != evidence.validator || first.height != evidence.height || first.round != evidence.round
      then Some(PairMismatch)
      else if second.validatorID != evidence.validator || second.height != evidence.height || second.round != evidence.round
      then Some(PairMismatch)
      else if first.blockHash == second.blockHash then Some(NoConflict)
      else None
  }

  function VerifyConflictingTimeoutVoteEvidence(evidence: Evidence): Option<EvidenceError> {
    if evidence.kind != EvidenceType.ConflictingTimeoutVote || !evidence.proof.TimeoutVotes? then Some(UnknownType)
    else
      var first, second := evidence.proof.firstTimeout, evidence.proof.secondTimeout;
      if first.validatorID != evidence.validator || first.height != evidence.height || first.round != evidence.round
      then Some(PairMismatch)
      else if second.validatorID != evidence.validator || second.height != evidence.height || second.round != evidence.round
      then Some(PairMismatch)
      else if SameQC(first.highQC, second.highQC) then Some(NoConflict)
      else None
  }

  /** The evidence passes its check, and both of its votes had been found authentic. */
  ghost predicate Sound(evidence: Evidence, verified: set<Vote>, timeouts: set<TimeoutVote>) {
    (VerifyConflictingVoteEvidence(evidence).None? &&
     evidence.proof.first in verified && evidence.proof.second in verified) ||
    (VerifyConflictingTimeoutVoteEvidence(evidence).None? &&
     evidence.proof.firstTimeout in timeouts && evidence.proof.secondTimeout in timeouts)
  }

  ghost predicate AllSound(evidence: seq<Evidence>, verified: set<Vote>, timeouts: set<TimeoutVote>) {
    forall i | 0 <= i < |evidence| :: Sound(evidence[i], verified, timeouts)
  }

  /** The validator has no two targets among the verified votes of one height and round. */
  ghost predicate Honest(id: ValidatorID, verified: set<Vote>, timeouts: set<TimeoutVote>) {
    (forall v, w | v in verified && w in verified && v.validatorID == id == w.validatorID && v.height == w.height && v.round == w.round ::
      v.blockHash == w.blockHash) &&
    (forall v, w | v in timeouts && w in timeouts && v.validatorID == id == w.validatorID && v.height == w.height && v.round == w.round ::
      SameQC(v.highQC, w.highQC))
  }

  lemma HonestNeverNamed(id: ValidatorID, evidence: seq<Evidence>, verified: set<Vote>, timeouts: set<TimeoutVote>)
    requires AllSound(evidence, verified, timeouts) && Honest(id, verified, timeouts)
    ensures forall i | 0 <= i < |evidence| :: evidence[i].validator != id
  {
    forall i | 0 <= i < |evidence| ensures evidence[i].validator != id {
      assert Sound(evidence[i], verified, timeouts);
    }
  }

  /** What a constructor makes of two votes passes the matching check; it makes something of them
      exactly when they conflict. */
  lemma NewEvidenceVerifies(first: Vote, second: Vote)
    ensures NewConflictingVoteEvidence(first, second).Ok? <==>
      first.validatorID == second.validatorID && first.height == second.height && first.round == second.round &&
      first.blockHash != second.blockHash
    ensures NewConflictingVoteEvidence(first, second).Ok? ==>
      var evidence := NewConflictingVoteEvidence(first, second).value;
      VerifyConflictingVoteEvidence(evidence).None? && evidence.validator == first.validatorID &&
      evidence.proof == Votes(first, second)
  {}

  lemma NewTimeoutEvidenceVerifies(first: TimeoutVote, second: TimeoutVote)
    ensures NewConflictingTimeoutVoteEvidence(first, second).Ok? <==>
      first.validatorID == second.validatorID && first.height == second.height && first.round == second.round &&
      (first.highQC.height, first.highQC.round, first.highQC.blockHash) != (second.highQC.height, second.highQC.round, second.highQC.blockHash)
    ensures NewConflictingTimeoutVoteEvidence(first, second).Ok? ==>
      var evidence := NewConflictingTimeoutVoteEvidence(first, second).value;
      VerifyConflictingTimeoutVoteEvidence(evidence).None? && evidence.validator == first.validatorID &&
      evidence.proof == TimeoutVotes(first, second)
  {}

  lemma MoreVerified(evidence: seq<Evidence>, verified: set<Vote>, timeouts: set<TimeoutVote>, more: set<Vote>, moreTimeouts: set<TimeoutVote>)
    requires AllSound(evidence, verified, timeouts) && verified <= more && timeouts <= moreTimeouts
    ensures AllSound(evidence, more, moreTimeouts)
  {
    forall i | 0 <= i < |evidence| ensures Sound(evidence[i], more, moreTimeouts) {
      assert Sound(evidence[i], verified, timeouts);
    }
  }
}
