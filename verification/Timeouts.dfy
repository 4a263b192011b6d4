/** Timeout votes, the certificates built from them, and the pacemaker they drive. */
module Timeouts {
  import opened Types
  import opened Validators
  import opened Signers
  import opened Certificates
  import opened BlockTrees

  datatype TimeoutVote = TimeoutVote(height: Uint64, round: Uint64, validatorID: ValidatorID, highQC: QuorumCert, signature: Bytes)

  datatype TimeoutCert = TimeoutCert(height: Uint64, round: Uint64, highQC: QuorumCert, signers: Bytes, signature: Bytes)

  const NO_TIMEOUT: TimeoutCert := TimeoutCert(0, 0, NO_CERT, [], [])

  /** The two certificates are for the same block at the same height and round. */
  predicate SameQC(first: QuorumCert, second: QuorumCert) {
    first.height == second.height && first.round == second.round && first.blockHash == second.blockHash
  }

  datatype TimeoutError = UnknownValidator | ConflictingTimeoutVote

  type RoundVotes = map<ValidatorID, TimeoutVote>

  function TimeoutSignatures(votes: RoundVotes): map<ValidatorID, Bytes> {
    map id | id in votes :: votes[id].signature
  }

  /** The certificate is signed by a quorum and carries a best certificate of its signers. */
  ghost predicate TimeoutBuiltFrom(snapshot: Snapshot, aggregate: seq<Bytes> -> Option<Bytes>, votes: RoundVotes,
                                   height: Uint64, round: Uint64, cert: TimeoutCert) {
    (exists c :: CollectedFrom(snapshot, aggregate, map id | id in votes :: votes[id].signature, c) &&
                 cert.signers == Join(c.ids) && cert.signature == c.aggregate) &&
    cert.height == height && cert.round == round && BestOf(snapshot, votes, cert.highQC)
  }

  ghost predicate BestOf(snapshot: Snapshot, votes: RoundVotes, best: QuorumCert) {
    (best == NO_CERT || exists id :: id in votes && id in snapshot.byID && votes[id].highQC == best) &&
    forall id | id in votes && id in snapshot.byID :: NotBelow(best, votes[id].highQC)
  }

  function RoundOf(votes: map<(Uint64, Uint64), RoundVotes>, height: Uint64, round: Uint64): RoundVotes {
    if (height, round) in votes then votes[(height, round)] else map[]
  }

  function WithTimeout(votes: map<(Uint64, Uint64), RoundVotes>, vote: TimeoutVote): map<(Uint64, Uint64), RoundVotes> {
    votes[(vote.height, vote.round) := RoundOf(votes, vote.height, vote.round)[vote.validatorID := vote]]
  }

  /** The validator's earlier vote of that round carries a certificate of another height, round or block. */
  ghost predicate Contradicts(votes: map<(Uint64, Uint64), RoundVotes>, vote: TimeoutVote) {
    (vote.height, vote.round) in votes && vote.validatorID in votes[(vote.height, vote.round)] &&
    var earlier := votes[(vote.height, vote.round)][vote.validatorID].highQC;
    earlier.height != vote.highQC.height || earlier.round != vote.highQC.round || earlier.blockHash != vote.highQC.blockHash
  }

  class TimeoutCollector {
    const snapshot: Snapshot
    const aggregator: Option<seq<Bytes> -> Option<Bytes>>
    var votes: map<(Uint64, Uint64), RoundVotes>

    ghost predicate Valid()
      reads this
    {
      ValidSet(snapshot) &&
      forall h: Uint64, r: Uint64, id | id in RoundOf(votes, h, r) ::
        RoundOf(votes, h, r)[id].height == h && RoundOf(votes, h, r)[id].round == r && RoundOf(votes, h, r)[id].validatorID == id
    }

    constructor (snapshot: Snapshot, aggregator: Option<seq<Bytes> -> Option<Bytes>>)
      requires ValidSet(snapshot)
      ensures Valid() && votes == map[] && this.snapshot == snapshot && this.aggregator == aggregator
    {
      this.snapshot, this.aggregator, votes := snapshot, aggregator, map[];
    }

    function VotesForRound(height: Uint64, round: Uint64): RoundVotes
      reads this
    {
      RoundOf(votes, height, round)
    }

    /** The first vote of a validator in a round stays; a later one may only repeat its certificate. */
    method AddVote(vote: TimeoutVote) returns (err: Option<TimeoutError>)
      requires Valid()
      modifies this
      ensures Valid()
      ensures err == Some(UnknownValidator) <==> vote.validatorID !in snapshot.byID
      ensures err == Some(ConflictingTimeoutVote) <==>
        vote.validatorID in snapshot.byID && Contradicts(old(votes), vote)
      ensures votes == if err.Some? || vote.validatorID in old(VotesForRound(vote.height, vote.round))
                       then old(votes) else WithTimeout(old(votes), vote)
      ensures err.None? ==>
        (vote.height, vote.round) in votes && vote.validatorID in votes[(vote.height, vote.round)] &&
        var kept := votes[(vote.height, vote.round)][vote.validatorID];
        kept.highQC.height == vote.highQC.height && kept.highQC.round == vote.highQC.round && kept.highQC.blockHash == vote.highQC.blockHash
      ensures forall h: Uint64, r: Uint64, id | (h, r) in old(votes) && id in old(votes)[(h, r)] ::
        (h, r) in votes && id in votes[(h, r)] && votes[(h, r)][id] == old(votes)[(h, r)][id]
      ensures forall h: Uint64, r: Uint64, id | (h, r) in votes && id in votes[(h, r)] ::
        ((h, r) in old(votes) && id in old(votes)[(h, r)]) || votes[(h, r)][id] == vote
    {
      hide ValidSet;
      if vote.validatorID !in snapshot.byID { return Some(UnknownValidator); }
      var roundVotes := VotesForRound(vote.height, vote.round);
      if vote.validatorID in roundVotes {
        if !SameQC(roundVotes[vote.validatorID].highQC, vote.highQC) { return Some(ConflictingTimeoutVote); }
        return None;
      }
      votes := WithTimeout(votes, vote);
      forall h: Uint64, r: Uint64, id | id in RoundOf(votes, h, r)
        ensures RoundOf(votes, h, r)[id].height == h && RoundOf(votes, h, r)[id].round == r && RoundOf(votes, h, r)[id].validatorID == id
      {
        if (h, r, id) != (vote.height, vote.round, vote.validatorID) { assert id in RoundOf(old(votes), h, r); }
      }
      return None;
    }

    function ConflictingVote(vote: TimeoutVote): Option<TimeoutVote>
      reads this
    {
      var roundVotes := VotesForRound(vote.height, vote.round);
      if vote.validatorID !in roundVotes || SameQC(roundVotes[vote.validatorID].highQC, vote.highQC) then None
      else Some(roundVotes[vote.validatorID])
    }

    method BuildTimeoutCert(height: Uint64, round: Uint64) returns (r: Result<TimeoutCert, BuildError>)
      requires Valid()
      ensures r.Ok? ==>
        aggregator.Some? && TimeoutBuiltFrom(snapshot, aggregator.value, VotesForRound(height, round), height, round, r.value)
      ensures r.Err? && aggregator.Some? ==>
        forall cert :: !TimeoutBuiltFrom(snapshot, aggregator.value, VotesForRound(height, round), height, round, cert)
    {
      hide CollectedFrom, Join, ValidSet;
      var roundVotes := VotesForRound(height, round);
      var collected := Collect(snapshot, aggregator, TimeoutSignatures(roundVotes));
      if collected.Err? { return Err(collected.error); }
      var highQC := BestCertificate(snapshot, roundVotes);
      var c := collected.value;
      return Ok(TimeoutCert(height, round, highQC, Join(c.ids), c.aggregate));
    }
  }

  /** The best certificate carried by known voters, whatever order they are visited in. */
  method BestCertificate(snapshot: Snapshot, votes: RoundVotes) returns (highQC: QuorumCert)
    ensures BestOf(snapshot, votes, highQC)
  {
    highQC := NO_CERT;
    var rest := votes.Keys;
    while rest != {}
      invariant rest <= votes.Keys
      invariant highQC == NO_CERT || exists id :: id in votes && id in snapshot.byID && votes[id].highQC == highQC
      invariant forall id | id in votes && id !in rest && id in snapshot.byID :: NotBelow(highQC, votes[id].highQC)
      decreases |rest|
    {
      var id :| id in rest;
      rest := rest - {id};
      if id in snapshot.byID && IsBetterQC(votes[id].highQC, highQC) {
        highQC := votes[id].highQC;
      }
    }
  }

  /** The height and round a node works on. */
  class Pacemaker {
    var height: Uint64
    var round: Uint64

    constructor (height: Uint64, round: Uint64)
      ensures this.height == height && this.round == round
    {
      this.height, this.round := height, round;
    }

    /** A certificate is refused exactly when it is for an earlier height, or an earlier round of this
        one. Otherwise the pacemaker is right behind it: ahead of where it was, unless the round
        counter wraps around. */
    method AdvanceRound(cert: TimeoutCert) returns (stale: bool)
      modifies this
      ensures stale <==> cert.height < old(height) || (cert.height == old(height) && cert.round < old(round))
      ensures stale ==> height == old(height) && round == old(round)
      ensures !stale ==> height == cert.height && round == (cert.round + 1) % (MAX_UINT64 + 1)
      ensures !stale && height == old(height) ==> (round > old(round) <==> cert.round < MAX_UINT64)
    {
      if cert.height < height { return true; }
      if cert.height > height {
        height, round := cert.height, (cert.round + 1) % (MAX_UINT64 + 1);
        return false;
      }
      if cert.round < round { return true; }
      round := (cert.round + 1) % (MAX_UINT64 + 1);
      return false;
    }
  }
}
