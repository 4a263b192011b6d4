/** The vote log, and the validator that must never sign two blocks, nor two timeout certificates, of one
    height and round. */
module VoteWal {
  import opened Types
  import opened Validators
  import opened Certificates
  import opened Timeouts

  type Key = (ValidatorID, Uint64, Uint64)
  type Target = (Uint64, Uint64, Hash)

  /** What the log keeps of a certificate. */
  function Fingerprint(qc: QuorumCert): Target {
    (qc.height, qc.round, qc.blockHash)
  }

  datatype Event =
    | ProposalEvent(proposer: ValidatorID, proposalHeight: Uint64, proposalRound: Uint64, proposalHash: Hash)
    | VoteEvent(voter: ValidatorID, height: Uint64, round: Uint64, blockHash: Hash)
    | TimeoutEvent(timedOut: ValidatorID, timeoutHeight: Uint64, timeoutRound: Uint64, highQC: Target)

  /** The votes that reading a log back gives: the last one under each key. */
  function ReplayVotes(events: seq<Event>): map<Key, Hash> {
    if |events| == 0 then map[]
    else
      var before, last := ReplayVotes(events[..|events| - 1]), events[|events| - 1];
      if last.VoteEvent? then before[(last.voter, last.height, last.round) := last.blockHash] else before
  }

  function ReplayTimeouts(events: seq<Event>): map<Key, Target> {
    if |events| == 0 then map[]
    else
      var before, last := ReplayTimeouts(events[..|events| - 1]), events[|events| - 1];
      if last.TimeoutEvent? then before[(last.timedOut, last.timeoutHeight, last.timeoutRound) := last.highQC] else before
  }

  lemma ReplayAppend(events: seq<Event>, event: Event)
    ensures ReplayVotes(events + [event]) ==
      if event.VoteEvent? then ReplayVotes(events)[(event.voter, event.height, event.round) := event.blockHash] else ReplayVotes(events)
    ensures ReplayTimeouts(events + [event]) ==
      if event.TimeoutEvent? then ReplayTimeouts(events)[(event.timedOut, event.timeoutHeight, event.timeoutRound) := event.highQC]
      else ReplayTimeouts(events)
  {
    assert (events + [event])[..|events|] == events;
  }

  // ---------------------------------------------------------------------------- the file

  /** The lines on disk, whether the last one lacks its line end, and whether one is incomplete. */
  datatype Disk = Disk(lines: seq<Event>, unended: bool, torn: bool)

  /** What an append may do: succeed, or fail with nothing, everything, everything but the line end or a part of
      the line on disk. */
  datatype Outcome = Written | Lost | Kept | Unended | Torn

  /** Whatever follows a line without an end spoils it. */
  function Appended(disk: Disk, event: Event, outcome: Outcome): Disk {
    if outcome == Lost then disk
    else if disk.unended || outcome == Torn then disk.(torn := true)
    else disk.(lines := disk.lines + [event], unended := outcome == Unended)
  }

  datatype WalError = Closed | DoubleSign | AppendFailed | SigningFailed

  class Wal {
    var disk: Disk
    var votes: map<Key, Hash>
    var timeouts: map<Key, Target>
    var closed: bool

    /** The maps are what reading the file back would give. */
    ghost predicate InSync()
      reads this
    {
      !disk.torn && votes == ReplayVotes(disk.lines) && timeouts == ReplayTimeouts(disk.lines)
    }

    constructor ()
      ensures InSync() && disk == Disk([], false, false) && !closed
    {
      disk, votes, timeouts, closed := Disk([], false, false), map[], map[], false;
    }

    /** Opening reads the file back, and fails on an incomplete line. */
    method Open() returns (ok: bool)
      modifies this
      ensures ok <==> !old(disk).torn
      ensures disk == old(disk)
      ensures ok ==> InSync() && !closed
      ensures !ok ==> closed && votes == map[] && timeouts == map[]
    {
      votes, timeouts, closed := map[], map[], true;
      if disk.torn { return false; }
      var file := disk.lines;
      for i := 0 to |file|
        invariant disk == old(disk) && closed
        invariant votes == ReplayVotes(file[..i]) && timeouts == ReplayTimeouts(file[..i])
      {
        assert file[..i + 1] == file[..i] + [file[i]];
        ReplayAppend(file[..i], file[i]);
        Apply(file[i]);
      }
      assert file[..|file|] == file;
      closed := false;
      return true;
    }

    method Apply(event: Event)
      modifies this`votes, this`timeouts
      ensures votes == if event.VoteEvent? then old(votes)[(event.voter, event.height, event.round) := event.blockHash] else old(votes)
      ensures timeouts == if event.TimeoutEvent?
                          then old(timeouts)[(event.timedOut, event.timeoutHeight, event.timeoutRound) := event.highQC] else old(timeouts)
    {
      match event
      case VoteEvent(id, height, round, hash) => votes := votes[(id, height, round) := hash];
      case TimeoutEvent(id, height, round, highQC) => timeouts := timeouts[(id, height, round) := highQC];
      case ProposalEvent(_, _, _, _) =>
    }

    method AppendLocked(event: Event, outcome: Outcome) returns (ok: bool)
      modifies this`disk
      ensures ok <==> outcome == Written
      ensures disk == Appended(old(disk), event, outcome)
    {
      disk := Appended(disk, event, outcome);
      return outcome == Written;
    }

    method RecordProposal(event: Event, outcome: Outcome) returns (err: Option<WalError>)
      modifies this`disk
      ensures err == (if closed then Some(Closed) else if outcome != Written then Some(AppendFailed) else None)
      ensures disk == if closed then old(disk) else Appended(old(disk), event, outcome)
    {
      if closed { return Some(Closed); }
      var ok := AppendLocked(event, outcome);
      return if ok then None else Some(AppendFailed);
    }

    /** A second, different block is refused. Otherwise the vote is entered in the map first and
        appended to the file after that. */
    method RecordVote(vote: Vote, outcome: Outcome) returns (err: Option<WalError>)
      modifies this`disk, this`votes
      ensures var key := (vote.validatorID, vote.height, vote.round);
        var clash := key in old(votes) && old(votes)[key] != vote.blockHash;
        var event := VoteEvent(vote.validatorID, vote.height, vote.round, vote.blockHash);
        err == (if closed then Some(Closed) else if clash then Some(DoubleSign) else if outcome != Written then Some(AppendFailed) else None) &&
        votes == (if closed || clash then old(votes) else old(votes)[key := vote.blockHash]) &&
        disk == if closed || clash then old(disk) else Appended(old(disk), event, outcome)
    {
      if closed { return Some(Closed); }
      var key := (vote.validatorID, vote.height, vote.round);
      if key in votes && votes[key] != vote.blockHash { return Some(DoubleSign); }
      votes := votes[key := vote.blockHash];
      var ok := AppendLocked(VoteEvent(vote.validatorID, vote.height, vote.round, vote.blockHash), outcome);
      return if ok then None else Some(AppendFailed);
    }

    method RecordTimeoutVote(vote: TimeoutVote, outcome: Outcome) returns (err: Option<WalError>)
      modifies this`disk, this`timeouts
      ensures var key := (vote.validatorID, vote.height, vote.round);
        var clash := key in old(timeouts) && old(timeouts)[key] != Fingerprint(vote.highQC);
        var event := TimeoutEvent(vote.validatorID, vote.height, vote.round, Fingerprint(vote.highQC));
        err == (if closed then Some(Closed) else if clash then Some(DoubleSign) else if outcome != Written then Some(AppendFailed) else None) &&
        timeouts == (if closed || clash then old(timeouts) else old(timeouts)[key := Fingerprint(vote.highQC)]) &&
        disk == if closed || clash then old(disk) else Appended(old(disk), event, outcome)
    {
      if closed { return Some(Closed); }
      var key := (vote.validatorID, vote.height, vote.round);
      if key in timeouts && timeouts[key] != Fingerprint(vote.highQC) { return Some(DoubleSign); }
      timeouts := timeouts[key := Fingerprint(vote.highQC)];
      var ok := AppendLocked(TimeoutEvent(vote.validatorID, vote.height, vote.round, Fingerprint(vote.highQC)), outcome);
      return if ok then None else Some(AppendFailed);
    }
  }

  // ---------------------------------------------------------------------- what was released

  /** All votes for one height and round are for one block. */
  ghost predicate OneTarget(released: set<Vote>) {
    forall v, w | v in released && w in released && v.height == w.height && v.round == w.round :: v.blockHash == w.blockHash
  }

  /** All timeout votes for one height and round carry a certificate of one block. */
  ghost predicate OneCertificate(released: set<TimeoutVote>) {
    forall v, w | v in released && w in released && v.height == w.height && v.round == w.round ::
      v.highQC.height == w.highQC.height && v.highQC.round == w.highQC.round && v.highQC.blockHash == w.highQC.blockHash
  }

  ghost predicate VotesIn(released: set<Vote>, id: ValidatorID, votes: map<Key, Hash>) {
    forall v | v in released :: (id, v.height, v.round) in votes && votes[(id, v.height, v.round)] == v.blockHash
  }

  ghost predicate TimeoutsIn(released: set<TimeoutVote>, id: ValidatorID, timeouts: map<Key, Target>) {
    forall v | v in released :: (id, v.height, v.round) in timeouts && timeouts[(id, v.height, v.round)] == Fingerprint(v.highQC)
  }

  ghost predicate Within<V(!new)>(part: map<Key, V>, whole: map<Key, V>) {
    forall k | k in part :: k in whole && whole[k] == part[k]
  }

  /** The released votes are for one block each. They can be read back as long as the file can be read at all, and
      the running process remembers them. */
  ghost predicate VotesOk(disk: Disk, id: ValidatorID, released: set<Vote>, running: bool, votes: map<Key, Hash>) {
    OneTarget(released) &&
    (!disk.torn ==> VotesIn(released, id, ReplayVotes(disk.lines))) &&
    (running ==> VotesIn(released, id, votes) && (!disk.torn ==> Within(ReplayVotes(disk.lines), votes)))
  }

  ghost predicate TimeoutsOk(disk: Disk, id: ValidatorID, released: set<TimeoutVote>, running: bool, timeouts: map<Key, Target>) {
    OneCertificate(released) &&
    (!disk.torn ==> TimeoutsIn(released, id, ReplayTimeouts(disk.lines))) &&
    (running ==> TimeoutsIn(released, id, timeouts) && (!disk.torn ==> Within(ReplayTimeouts(disk.lines), timeouts)))
  }

  lemma OtherEvent(disk: Disk, id: ValidatorID, released: set<Vote>, running: bool, votes: map<Key, Hash>, event: Event, outcome: Outcome)
    requires VotesOk(disk, id, released, running, votes) && !event.VoteEvent?
    ensures VotesOk(Appended(disk, event, outcome), id, released, running, votes)
  {
    ReplayAppend(disk.lines, event);
  }

  lemma OtherTimeoutEvent(disk: Disk, id: ValidatorID, released: set<TimeoutVote>, running: bool, timeouts: map<Key, Target>,
                          event: Event, outcome: Outcome)
    requires TimeoutsOk(disk, id, released, running, timeouts) && !event.TimeoutEvent?
    ensures TimeoutsOk(Appended(disk, event, outcome), id, released, running, timeouts)
  {
    ReplayAppend(disk.lines, event);
  }

  /** A vote that contradicts nothing in memory may be entered and appended, whatever becomes of the append. Once it
      has been written it may be released. */
  lemma VoteEntered(disk: Disk, id: ValidatorID, released: set<Vote>, votes: map<Key, Hash>, vote: Vote, outcome: Outcome)
    requires VotesOk(disk, id, released, true, votes)
    requires var key := (id, vote.height, vote.round); key in votes ==> votes[key] == vote.blockHash
    ensures var after := Appended(disk, VoteEvent(id, vote.height, vote.round, vote.blockHash), outcome);
      var more := votes[(id, vote.height, vote.round) := vote.blockHash];
      VotesOk(after, id, released, true, more) && (outcome == Written ==> VotesOk(after, id, released + {vote}, true, more))
  {
    hide ReplayVotes;
    ReplayAppend(disk.lines, VoteEvent(id, vote.height, vote.round, vote.blockHash));
  }

  lemma TimeoutEntered(disk: Disk, id: ValidatorID, released: set<TimeoutVote>, timeouts: map<Key, Target>, vote: TimeoutVote, outcome: Outcome)
    requires TimeoutsOk(disk, id, released, true, timeouts)
    requires var key := (id, vote.height, vote.round); key in timeouts ==> timeouts[key] == Fingerprint(vote.highQC)
    ensures var after := Appended(disk, TimeoutEvent(id, vote.height, vote.round, Fingerprint(vote.highQC)), outcome);
      var more := timeouts[(id, vote.height, vote.round) := Fingerprint(vote.highQC)];
      TimeoutsOk(after, id, released, true, more) && (outcome == Written ==> TimeoutsOk(after, id, released + {vote}, true, more))
  {
    hide ReplayTimeouts;
    ReplayAppend(disk.lines, TimeoutEvent(id, vote.height, vote.round, Fingerprint(vote.highQC)));
  }

  /** A vote that is in memory may be released again if it can be read back, and only then. */
  lemma VoteRepeated(disk: Disk, id: ValidatorID, released: set<Vote>, votes: map<Key, Hash>, vote: Vote)
    requires VotesOk(disk, id, released, true, votes)
    requires (id, vote.height, vote.round) in votes && votes[(id, vote.height, vote.round)] == vote.blockHash
    ensures VotesOk(disk, id, released + {vote}, true, votes) <==> disk.torn || (id, vote.height, vote.round) in ReplayVotes(disk.lines)
  {
    hide ReplayVotes;
    var more := released + {vote};
    assert VotesIn(more, id, votes);
    assert vote in more;
    if !disk.torn && (id, vote.height, vote.round) in ReplayVotes(disk.lines) {
      assert VotesIn(more, id, ReplayVotes(disk.lines));
    }
  }

  // ------------------------------------------------------------------------------ the validator

  /** A validator with its log. It goes on when an append fails, as the node does. */
  class LocalVoter {
    const validatorID: ValidatorID
    const wal: Wal
    var localVotes: map<(Uint64, Uint64), Vote>
    var timeoutVotes: map<(Uint64, Uint64), TimeoutVote>
    var running: bool
    ghost var released: set<Vote>
    ghost var timedOut: set<TimeoutVote>

    /** Cached votes are filed under their height and round; the log is open while the process runs. */
    ghost predicate Valid()
      reads this, wal
    {
      (forall k | k in localVotes :: (localVotes[k].height, localVotes[k].round) == k) &&
      (forall k | k in timeoutVotes :: (timeoutVotes[k].height, timeoutVotes[k].round) == k && timeoutVotes[k] in timedOut) &&
      TimeoutsOk(wal.disk, validatorID, timedOut, running, wal.timeouts) &&
      if running then !wal.closed else localVotes == map[] && timeoutVotes == map[] && wal.votes == map[]
    }

    ghost predicate VotesValid()
      reads this, wal
    {
      VotesOk(wal.disk, validatorID, released, running, wal.votes) && forall k | k in localVotes :: localVotes[k] in released
    }

    /** A vote is in memory, and would be signed again, but its append left nothing in a readable file. */
    ghost predicate Forgotten(height: Uint64, round: Uint64)
      reads this, wal
    {
      var key := (validatorID, height, round);
      !wal.disk.torn && (height, round) !in localVotes && key in wal.votes && key !in ReplayVotes(wal.disk.lines)
    }

    constructor (validatorID: ValidatorID)
      ensures Valid() && VotesValid() && running && fresh(wal) && wal.InSync() && wal.disk == Disk([], false, false)
      ensures localVotes == map[] && timeoutVotes == map[] && released == {} && timedOut == {} && this.validatorID == validatorID
      ensures forall h: Uint64, r: Uint64 :: !Forgotten(h, r)
    {
      this.validatorID := validatorID;
      wal := new Wal();
      localVotes, timeoutVotes, running, released, timedOut := map[], map[], true, {}, {};
    }

    /** The hash this voter would sign for a height and round, if it has one already. */
    function Chosen(height: Uint64, round: Uint64): Option<Hash>
      reads this, wal
    {
      if (height, round) in localVotes then Some(localVotes[(height, round)].blockHash)
      else if (validatorID, height, round) in wal.votes then Some(wal.votes[(validatorID, height, round)])
      else None
    }

    /** The vote for a height and round: an earlier choice is repeated, a new one is logged first. What holds of the votes
        is lost exactly by signing a forgotten vote again, and only a lost append makes a vote forgotten. */
    method LocalVote(height: Uint64, round: Uint64, blockHash: Hash, signature: Option<Bytes>, outcome: Outcome)
      returns (r: Result<(Vote, bool), WalError>)
      requires running && Valid()
      modifies this`localVotes, this`released, wal`disk, wal`votes
      ensures Valid()
      ensures old(VotesValid()) ==> (VotesValid() <==> signature.None? || !old(Forgotten(height, round)))
      ensures forall h: Uint64, q: Uint64 | Forgotten(h, q) :: old(Forgotten(h, q)) || ((h, q) == (height, round) && outcome == Lost)
      ensures r.Ok? ==>
        var (vote, selected) := r.value;
        vote.height == height && vote.round == round && released == old(released) + {vote} &&
        vote.blockHash == (if old(Chosen(height, round)).Some? then old(Chosen(height, round)).value else blockHash) &&
        selected == (vote.blockHash == blockHash)
      ensures r.Err? ==> released == old(released) && localVotes == old(localVotes)
      ensures old(Chosen(height, round)).Some? ==>
        (signature.Some? ==> r.Ok?) && wal.disk == old(wal.disk) && wal.votes == old(wal.votes)
      ensures old(Chosen(height, round)).None? && signature.None? ==>
        r == Err(SigningFailed) && wal.disk == old(wal.disk) && wal.votes == old(wal.votes)
      ensures old(Chosen(height, round)).None? && signature.Some? ==>
        (r.Ok? <==> outcome == Written) && wal.votes == old(wal.votes)[(validatorID, height, round) := blockHash] &&
        wal.disk == Appended(old(wal.disk), VoteEvent(validatorID, height, round, blockHash), outcome)
    {
      hide ReplayVotes, ReplayTimeouts, VotesOk, TimeoutsOk, Appended;
      var key := (height, round);
      if key in localVotes {
        var vote := localVotes[key];
        released := released + {vote};
        assert old(VotesValid()) ==> released == old(released);
        return Ok((vote, vote.blockHash == blockHash));
      }
      var logKey := (validatorID, height, round);
      if logKey in wal.votes {
        var recorded := wal.votes[logKey];
        if signature.None? { return Err(SigningFailed); }
        var vote := Vote(height, round, recorded, validatorID, signature.value);
        if VotesValid() { VoteRepeated(wal.disk, validatorID, released, wal.votes, vote); }
        CacheAndRelease(vote);
        return Ok((vote, recorded == blockHash));
      }
      if signature.None? { return Err(SigningFailed); }
      var vote := Vote(height, round, blockHash, validatorID, signature.value);
      ghost var event := VoteEvent(validatorID, height, round, blockHash);
      if VotesValid() { VoteEntered(wal.disk, validatorID, released, wal.votes, vote, outcome); }
      OtherTimeoutEvent(wal.disk, validatorID, timedOut, true, wal.timeouts, event, outcome);
      var err := wal.RecordVote(vote, outcome);
      assert forall h: Uint64, q: Uint64 | Forgotten(h, q) :: old(Forgotten(h, q)) || ((h, q) == key && outcome == Lost) by {
        OnlyLostIsForgotten(old(wal.disk), event, outcome);
      }
      if err.Some? { return Err(err.value); }
      CacheAndRelease(vote);
      return Ok((vote, true));
    }

    method CacheAndRelease(vote: Vote)
      modifies this`released, this`localVotes
      ensures released == old(released) + {vote} && localVotes == old(localVotes)[(vote.height, vote.round) := vote]
    {
      released := released + {vote};
      localVotes := localVotes[(vote.height, vote.round) := vote];
    }

    /** The timeout vote of a round. It is released once it has been written with this certificate. A lost append does
        no harm here: the next call appends again. */
    method TimeoutRound(height: Uint64, round: Uint64, highQC: QuorumCert, signature: Option<Bytes>, outcome: Outcome)
      returns (r: Result<TimeoutVote, WalError>)
      requires running && Valid()
      modifies this`timeoutVotes, this`timedOut, wal`disk, wal`timeouts
      ensures Valid() && (old(VotesValid()) ==> VotesValid())
      ensures forall h: Uint64, q: Uint64 | Forgotten(h, q) :: old(Forgotten(h, q))
      ensures r.Ok? ==> r.value.height == height && r.value.round == round && timedOut == old(timedOut) + {r.value}
      ensures r.Err? ==> timedOut == old(timedOut) && timeoutVotes == old(timeoutVotes)
      ensures r.Ok? <==>
        (height, round) in old(timeoutVotes) ||
        (signature.Some? && outcome == Written &&
         ((validatorID, height, round) in old(wal.timeouts) ==> old(wal.timeouts)[(validatorID, height, round)] == Fingerprint(highQC)))
    {
      hide ReplayVotes, ReplayTimeouts, VotesOk, TimeoutsOk, Appended;
      var key := (height, round);
      if key in timeoutVotes {
        timedOut := timedOut + {timeoutVotes[key]};
        assert timedOut == old(timedOut);
        return Ok(timeoutVotes[key]);
      }
      if signature.None? { return Err(SigningFailed); }
      var vote := TimeoutVote(height, round, validatorID, highQC, signature.value);
      ghost var event := TimeoutEvent(validatorID, height, round, Fingerprint(highQC));
      if VotesValid() { OtherEvent(wal.disk, validatorID, released, true, wal.votes, event, outcome); }
      if (validatorID, height, round) in wal.timeouts ==> wal.timeouts[(validatorID, height, round)] == Fingerprint(highQC) {
        TimeoutEntered(wal.disk, validatorID, timedOut, wal.timeouts, vote, outcome);
      }
      var err := wal.RecordTimeoutVote(vote, outcome);
      OnlyLostIsForgotten(old(wal.disk), event, outcome);
      if err.Some? { return Err(err.value); }
      timeoutVotes := timeoutVotes[key := vote];
      timedOut := timedOut + {vote};
      return Ok(vote);
    }

    /** After a commit the cached timeout votes up to its height are dropped. */
    method RemoveTimeoutVotes(height: Uint64)
      requires Valid()
      modifies this`timeoutVotes
      ensures Valid() && (old(VotesValid()) ==> VotesValid())
      ensures forall k :: k in timeoutVotes <==> k in old(timeoutVotes) && k.0 > height
      ensures forall h: Uint64, q: Uint64 | Forgotten(h, q) :: old(Forgotten(h, q))
    {
      hide ReplayVotes, ReplayTimeouts, VotesOk, TimeoutsOk;
      timeoutVotes := map k | k in timeoutVotes && k.0 > height :: timeoutVotes[k];
    }

    /** A proposal is logged too; nothing is read back from it. */
    method RecordProposal(height: Uint64, round: Uint64, blockHash: Hash, outcome: Outcome) returns (err: Option<WalError>)
      requires running && Valid()
      modifies wal`disk
      ensures Valid() && (old(VotesValid()) ==> VotesValid())
      ensures (err.None? <==> outcome == Written) && wal.disk == Appended(old(wal.disk), ProposalEvent(validatorID, height, round, blockHash), outcome)
      ensures forall h: Uint64, q: Uint64 | Forgotten(h, q) :: old(Forgotten(h, q))
    {
      hide ReplayVotes, ReplayTimeouts, VotesOk, TimeoutsOk, Appended;
      var event := ProposalEvent(validatorID, height, round, blockHash);
      if VotesValid() { OtherEvent(wal.disk, validatorID, released, true, wal.votes, event, outcome); }
      OtherTimeoutEvent(wal.disk, validatorID, timedOut, true, wal.timeouts, event, outcome);
      OnlyLostIsForgotten(wal.disk, event, outcome);
      err := wal.RecordProposal(event, outcome);
    }

    /** The process ends; only the file stays. */
    method Crash()
      requires Valid()
      modifies this`localVotes, this`timeoutVotes, this`running, wal`votes, wal`timeouts, wal`closed
      ensures !running && Valid() && (old(VotesValid()) ==> VotesValid())
      ensures forall h: Uint64, q: Uint64 :: !Forgotten(h, q)
    {
      hide ReplayVotes, ReplayTimeouts;
      running, localVotes, timeoutVotes := false, map[], map[];
      wal.votes, wal.timeouts, wal.closed := map[], map[], true;
    }

    method Restart() returns (ok: bool)
      requires !running && Valid()
      modifies this`running, wal
      ensures Valid() && (old(VotesValid()) ==> VotesValid())
      ensures (ok <==> !old(wal.disk).torn) && running == ok && wal.disk == old(wal.disk)
      ensures ok ==> wal.InSync()
      ensures forall h: Uint64, q: Uint64 :: !Forgotten(h, q)
    {
      hide ReplayVotes, ReplayTimeouts;
      ok := wal.Open();
      running := ok;
    }

    /** One step of a run. A process that is down only restarts. */
    method Take(step: Step)
      requires Valid()
      modifies this, wal
      ensures Valid()
      ensures old(VotesValid()) && !(step.Voting? && old(Forgotten(step.height, step.round))) ==> VotesValid()
      ensures forall h: Uint64, q: Uint64 | Forgotten(h, q) ::
        !step.Crashing? && (old(Forgotten(h, q)) || (step.Voting? && (h, q) == (step.height, step.round) && step.outcome == Lost))
    {
      hide ReplayVotes, ReplayTimeouts, VotesOk, TimeoutsOk, Appended;
      if step.Crashing? { Crash(); return; }
      if step.Restarting? && !running {
        var ok := Restart();
        return;
      }
      if !running { return; }
      match step
      case Voting(height, round, blockHash, signature, outcome) => var r := LocalVote(height, round, blockHash, signature, outcome);
      case TimingOut(height, round, highQC, signature, outcome) => var r := TimeoutRound(height, round, highQC, signature, outcome);
      case Proposing(height, round, blockHash, outcome) => var err := RecordProposal(height, round, blockHash, outcome);
      case Committing(height) => RemoveTimeoutVotes(height);
      case _ =>
    }
  }

  // -------------------------------------------------------------------------------- whole runs

  datatype Step =
    | Voting(height: Uint64, round: Uint64, blockHash: Hash, signature: Option<Bytes>, outcome: Outcome)
    | TimingOut(height: Uint64, round: Uint64, highQC: QuorumCert, signature: Option<Bytes>, outcome: Outcome)
    | Proposing(height: Uint64, round: Uint64, blockHash: Hash, outcome: Outcome)
    | Committing(height: Uint64)
    | Crashing
    | Restarting

  /** The append of a vote is lost at step i, and the process has not crashed before step n. */
  ghost predicate LostAt(steps: seq<Step>, i: nat, n: nat, height: Uint64, round: Uint64)
    requires n <= |steps|
  {
    i < n && steps[i].Voting? && (steps[i].height, steps[i].round) == (height, round) && steps[i].outcome == Lost &&
    forall k | i < k < n :: !steps[k].Crashing?
  }

  ghost predicate LostBefore(steps: seq<Step>, n: nat, height: Uint64, round: Uint64)
    requires n <= |steps|
  {
    exists i: nat :: LostAt(steps, i, n, height, round)
  }

  /** No process votes again for a height and round after it lost the append of a vote for them. */
  ghost predicate Careful(steps: seq<Step>) {
    forall n | 0 <= n < |steps| && steps[n].Voting? :: !LostBefore(steps, n, steps[n].height, steps[n].round)
  }

  /** In every run, whatever the appends do and wherever the process crashes, all released timeout votes of a height and
      round carry one certificate. All released votes are for one block if no process votes again after a lost append. */
  method Run(id: ValidatorID, steps: seq<Step>) returns (voter: LocalVoter)
    ensures OneCertificate(voter.timedOut)
    ensures Careful(steps) ==> OneTarget(voter.released)
  {
    hide LocalVoter.Forgotten, LostBefore, ReplayVotes, ReplayTimeouts;
    voter := new LocalVoter(id);
    for n := 0 to |steps|
      invariant fresh(voter) && fresh(voter.wal) && voter.Valid() && (Careful(steps) ==> voter.VotesValid())
      invariant forall h: Uint64, q: Uint64 | voter.Forgotten(h, q) :: LostBefore(steps, n, h, q)
    {
      label before:
      voter.Take(steps[n]);
      forall h: Uint64, q: Uint64 | voter.Forgotten(h, q) ensures LostBefore(steps, n + 1, h, q) {
        if old@before(voter.Forgotten(h, q)) { StillLost(steps, n, h, q); } else { NowLost(steps, n, h, q); }
      }
    }
  }

  lemma StillLost(steps: seq<Step>, n: nat, height: Uint64, round: Uint64)
    requires n < |steps| && LostBefore(steps, n, height, round) && !steps[n].Crashing?
    ensures LostBefore(steps, n + 1, height, round)
  {
    var i: nat :| LostAt(steps, i, n, height, round);
    assert LostAt(steps, i, n + 1, height, round);
  }

  lemma NowLost(steps: seq<Step>, n: nat, height: Uint64, round: Uint64)
    requires n < |steps| && steps[n].Voting? && (steps[n].height, steps[n].round) == (height, round) && steps[n].outcome == Lost
    ensures LostBefore(steps, n + 1, height, round)
  {
    assert LostAt(steps, n, n + 1, height, round);
  }

  /** What can be read back stays so, until the file cannot be read at all. */
  lemma OnlyLostIsForgotten(disk: Disk, event: Event, outcome: Outcome)
    ensures var after := Appended(disk, event, outcome);
      !after.torn ==>
        !disk.torn && (forall k | k in ReplayVotes(disk.lines) :: k in ReplayVotes(after.lines)) &&
        (event.VoteEvent? && outcome != Lost ==> (event.voter, event.height, event.round) in ReplayVotes(after.lines))
  {
    ReplayAppend(disk.lines, event);
  }

  /** The condition is needed in every state: a forgotten vote is handed out on the next call, a crash forgets it for
      good, and another block is signed. */
  method ForgottenSignsTwice(voter: LocalVoter, height: Uint64, round: Uint64, other: Hash)
    requires voter.running && voter.Valid() && voter.Forgotten(height, round)
    requires other != voter.wal.votes[(voter.validatorID, height, round)]
    modifies voter, voter.wal
    ensures !OneTarget(voter.released)
  {
    hide ReplayVotes, ReplayTimeouts;
    var r := voter.LocalVote(height, round, other, Some([1]), Written);
    ghost var first := r.value.0;
    voter.Crash();
    var ok := voter.Restart();
    r := voter.LocalVote(height, round, other, Some([1]), Written);
    ghost var second := r.value.0;
    assert first in voter.released && second in voter.released && first.blockHash != second.blockHash;
  }

  /** So a lost append is enough to sign two blocks. */
  method GoingOnSignsTwice(height: Uint64, round: Uint64, a: Hash, b: Hash) returns (voter: LocalVoter)
    requires a != b
    ensures !OneTarget(voter.released)
  {
    voter := new LocalVoter([1]);
    var r := voter.LocalVote(height, round, a, Some([1]), Lost);
    ForgottenSignsTwice(voter, height, round, b);
  }
}
