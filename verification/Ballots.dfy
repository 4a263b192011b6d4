/** The votes a machine has counted, by block and by voter. */
module Ballots {
  import opened Types
  import opened Validators
  import opened Certificates

  type Votes = map<(Uint64, Uint64, Hash), map<ValidatorID, Vote>>
  type Voted = map<(Uint64, Uint64), map<ValidatorID, Vote>>

  /** The votes counted for a block at a height and round. */
  function VotesFor(votes: Votes, height: Uint64, round: Uint64, blockHash: Hash): map<ValidatorID, Vote> {
    if (height, round, blockHash) in votes then votes[(height, round, blockHash)] else map[]
  }

  /** The vote of each validator at a height and round. */
  function VotedIn(voted: Voted, height: Uint64, round: Uint64): map<ValidatorID, Vote> {
    if (height, round) in voted then voted[(height, round)] else map[]
  }

  /** Every counted vote is filed under its own target, and is its voter's one vote of that round. */
  ghost predicate ValidBallots(votes: Votes, voted: Voted) {
    (forall h: Uint64, r: Uint64, hash, id | id in VotesFor(votes, h, r, hash) ::
      Filed(VotesFor(votes, h, r, hash)[id], h, r, hash, id) && OneVote(voted, h, r, id, VotesFor(votes, h, r, hash)[id])) &&
    (forall h: Uint64, r: Uint64, id | id in VotedIn(voted, h, r) ::
      Filed(VotedIn(voted, h, r)[id], h, r, VotedIn(voted, h, r)[id].blockHash, id))
  }

  predicate Filed(vote: Vote, height: Uint64, round: Uint64, blockHash: Hash, id: ValidatorID) {
    vote.height == height && vote.round == round && vote.blockHash == blockHash && vote.validatorID == id
  }

  predicate OneVote(voted: Voted, height: Uint64, round: Uint64, id: ValidatorID, vote: Vote) {
    id in VotedIn(voted, height, round) && VotedIn(voted, height, round)[id] == vote
  }

  function RecordVotes(votes: Votes, vote: Vote): Votes {
    votes[(vote.height, vote.round, vote.blockHash) :=
      VotesFor(votes, vote.height, vote.round, vote.blockHash)[vote.validatorID := vote]]
  }

  function RecordVoted(voted: Voted, vote: Vote): Voted {
    voted[(vote.height, vote.round) := VotedIn(voted, vote.height, vote.round)[vote.validatorID := vote]]
  }

  /** The voter has already voted for another block of that height and round. */
  predicate Conflicts(voted: Voted, vote: Vote) {
    vote.validatorID in VotedIn(voted, vote.height, vote.round) &&
    VotedIn(voted, vote.height, vote.round)[vote.validatorID].blockHash != vote.blockHash
  }

  lemma RecordKeepsBallots(votes: Votes, voted: Voted, vote: Vote)
    requires ValidBallots(votes, voted) && !Conflicts(voted, vote)
    ensures ValidBallots(RecordVotes(votes, vote), RecordVoted(voted, vote))
  {
    var more, moreVoted := RecordVotes(votes, vote), RecordVoted(voted, vote);
    forall h: Uint64, r: Uint64, hash, id | id in VotesFor(more, h, r, hash)
      ensures Filed(VotesFor(more, h, r, hash)[id], h, r, hash, id) && OneVote(moreVoted, h, r, id, VotesFor(more, h, r, hash)[id])
    {
      if (h, r, id) != (vote.height, vote.round, vote.validatorID) {
        assert id in VotesFor(votes, h, r, hash);
      } else if hash != vote.blockHash {
        assert id in VotesFor(votes, h, r, hash);
      }
    }
    forall h: Uint64, r: Uint64, id | id in VotedIn(moreVoted, h, r)
      ensures Filed(VotedIn(moreVoted, h, r)[id], h, r, VotedIn(moreVoted, h, r)[id].blockHash, id)
    {
      if (h, r, id) != (vote.height, vote.round, vote.validatorID) { assert id in VotedIn(voted, h, r); }
    }
  }

  /** Recording adds the vote where it belongs and nothing else. */
  lemma Recorded(votes: Votes, voted: Voted, vote: Vote, height: Uint64, round: Uint64, blockHash: Hash, id: ValidatorID)
    ensures var after := RecordVotes(votes, vote);
      ((height, round, blockHash) in after && id in after[(height, round, blockHash)] <==>
        ((height, round, blockHash) in votes && id in votes[(height, round, blockHash)]) ||
        (height == vote.height && round == vote.round && blockHash == vote.blockHash && id == vote.validatorID)) &&
      ((height, round, blockHash) in after && id in after[(height, round, blockHash)] ==>
        after[(height, round, blockHash)][id] ==
        if height == vote.height && round == vote.round && blockHash == vote.blockHash && id == vote.validatorID
        then vote else votes[(height, round, blockHash)][id])
    ensures var after := RecordVoted(voted, vote);
      ((height, round) in after && id in after[(height, round)] <==>
        ((height, round) in voted && id in voted[(height, round)]) ||
        (height == vote.height && round == vote.round && id == vote.validatorID)) &&
      ((height, round) in after && id in after[(height, round)] ==>
        after[(height, round)][id] ==
        if height == vote.height && round == vote.round && id == vote.validatorID then vote else voted[(height, round)][id])
  {}

  /** The voters of different blocks of one height and round are disjoint. */
  lemma VotersDisjoint(votes: Votes, voted: Voted, height: Uint64, round: Uint64, a: Hash, b: Hash)
    requires ValidBallots(votes, voted) && a != b
    ensures VotesFor(votes, height, round, a).Keys !! VotesFor(votes, height, round, b).Keys
  {
    forall id | id in VotesFor(votes, height, round, a) ensures id !in VotesFor(votes, height, round, b) {
      assert Filed(VotesFor(votes, height, round, a)[id], height, round, a, id);
      assert OneVote(voted, height, round, id, VotesFor(votes, height, round, a)[id]);
    }
  }

  /** So at most one block of a height and round can be certified. */
  lemma OneCertifiedBlock(snapshot: Snapshot, aggregate: seq<Bytes> -> Option<Bytes>, votes: Votes, voted: Voted,
                          height: Uint64, round: Uint64, a: Hash, certA: QuorumCert, b: Hash, certB: QuorumCert)
    requires ValidSet(snapshot) && RoomForOneQuorum(Sum(snapshot.validators)) && ValidBallots(votes, voted)
    requires BuiltFrom(snapshot, aggregate, VotesFor(votes, height, round, a), height, round, a, certA)
    requires BuiltFrom(snapshot, aggregate, VotesFor(votes, height, round, b), height, round, b, certB)
    ensures a == b
  {
    hide BuiltFrom, ValidBallots, VotesFor, Sum;
    if a != b {
      VotersDisjoint(votes, voted, height, round, a, b);
      OneQuorum(snapshot, aggregate, height, round, VotesFor(votes, height, round, a), a, certA,
                VotesFor(votes, height, round, b), b, certB);
    }
  }

  ghost predicate AllVerified(voted: Voted, verified: set<Vote>) {
    forall h: Uint64, r: Uint64, id | id in VotedIn(voted, h, r) :: VotedIn(voted, h, r)[id] in verified
  }
}
