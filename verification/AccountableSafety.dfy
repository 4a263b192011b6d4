/** Accountable safety: conflicting finality proofs expose the validators that signed both. */
module AccountableSafety {
  import opened Types
  import opened Sorting
  import opened Validators
  import opened Signers
  import opened Certificates
  import opened Finality

  datatype Violation = Violation(
    chainID: string, height: nat, validatorSetHeight: nat, validatorSetHash: Hash,
    firstBlockHash: Hash, secondBlockHash: Hash, firstAppHash: Hash, secondAppHash: Hash,
    firstRound: nat, secondRound: nat,
    firstSigners: seq<ValidatorID>, secondSigners: seq<ValidatorID>, doubleSigners: seq<ValidatorID>,
    doubleSignVotingPower: nat, totalVotingPower: nat, faultPowerThreshold: nat)

  predicate MeetsFaultThreshold(violation: Violation) {
    violation.doubleSignVotingPower >= violation.faultPowerThreshold && violation.faultPowerThreshold > 0
  }

  /** The least power that is a third of the total. */
  function FaultPowerThreshold(total: nat): (threshold: nat)
    ensures 3 * threshold >= total
    ensures threshold > 0 ==> 3 * (threshold - 1) < total
  {
    if total == 0 then 0 else total / 3 + if total % 3 != 0 then 1 else 0
  }

  datatype DetectError = NoConflict | SetUnavailable | Refused(error: Error)

  function ProofBlockHash(proof: Proof): Hash {
    if proof.blockHash != ZeroHash then proof.blockHash
    else if proof.quorumCert.blockHash != ZeroHash then proof.quorumCert.blockHash
    else HeaderHash(proof.header)
  }

  /** The block that the detector compares is the one that an accepted proof is about. */
  lemma ComparedBlock(v: Verifier, proof: Proof)
    requires ProofAccepted(v, proof)
    ensures ProofBlockHash(proof) == if proof.blockHash == ZeroHash then HeaderHash(proof.header) else proof.blockHash
  {
    hide SignedBy, ChainAccepted;
  }

  /** The signers of both lists, each once, and their power. */
  method OverlappingVotingPower(snapshot: Snapshot, first: seq<ValidatorID>, second: seq<ValidatorID>)
    returns (r: Result<(seq<ValidatorID>, nat), Error>)
    requires ValidSet(snapshot)
    ensures r.Ok? ==>
      var (ids, power) := r.value;
      Sorted(ids, LexLeq) && Distinct(ids) && Elements(ids) == Elements(first) * Elements(second) &&
      power == Weight(snapshot.validators, Elements(ids))
    ensures ((forall i | 0 <= i < |first| :: first[i] in snapshot.byID) && Distinct(first) &&
             PowerOf(snapshot.byID, first) <= MAX_UINT64) ==> r.Ok?
  {
    hide PowerOf, Weight, LexLeq, ByID, Sum, Sort;
    var secondSet := Elements(second);
    var seen: set<ValidatorID> := {};
    var overlapping: seq<ValidatorID>, power := [], 0;
    PowerOfNone(snapshot.byID);
    for i := 0 to |first|
      invariant seen == Elements(first[..i])
      invariant Distinct(overlapping) && Elements(overlapping) == seen * secondSet
      invariant forall j | 0 <= j < |overlapping| :: overlapping[j] in snapshot.byID
      invariant power == PowerOf(snapshot.byID, overlapping) <= MAX_UINT64
    {
      var signer := first[i];
      assert Elements(first[..i + 1]) == Elements(first[..i]) + {signer} by { ElementsStep(first, i); }
      if signer in seen {
        assert seen + {signer} == seen;
        continue;
      }
      seen := seen + {signer};
      if signer !in secondSet {
        assert seen * secondSet == (seen - {signer}) * secondSet;
        continue;
      }
      if signer !in snapshot.byID {
        return Err(UnknownSigner);
      }
      ElementsAppend(overlapping, signer);
      PowerAppend(snapshot.byID, overlapping, signer);
      overlapping := overlapping + [signer];
      var sum := AddVotingPower(power, snapshot.byID[signer].votingPower);
      if sum.None? {
        if (forall k | 0 <= k < |first| :: first[k] in snapshot.byID) && Distinct(first) {
          PartPower(snapshot, overlapping, first);
        }
        return Err(Overflow);
      }
      power := sum.value;
    }
    assert first[..|first|] == first;
    LexOrder();
    SortSpec(overlapping, LexLeq);
    SameMultiset(overlapping, Sort(overlapping, LexLeq));
    PowerIsWeight(snapshot.validators, overlapping);
    return Ok((Sort(overlapping, LexLeq), power));
  }

  lemma ElementsStep(s: seq<ValidatorID>, i: nat)
    requires i < |s|
    ensures Elements(s[..i + 1]) == Elements(s[..i]) + {s[i]}
  {
    forall x ensures x in Elements(s[..i + 1]) <==> x in Elements(s[..i]) + {s[i]} {
      if x in Elements(s[..i]) {
        var j :| 0 <= j < i && s[..i][j] == x;
        assert s[..i + 1][j] == x;
      }
      assert s[..i + 1][i] == s[i];
    }
  }

  lemma ElementsAppend(s: seq<ValidatorID>, x: ValidatorID)
    ensures Elements(s + [x]) == Elements(s) + {x}
    ensures Distinct(s) && x !in Elements(s) ==> Distinct(s + [x])
  {
    var more := s + [x];
    assert more[..|s|] == s && more[..|s| + 1] == more;
    ElementsStep(more, |s|);
  }

  lemma PartPower(snapshot: Snapshot, part: seq<ValidatorID>, whole: seq<ValidatorID>)
    requires ValidSet(snapshot) && Distinct(part) && Distinct(whole) && Elements(part) <= Elements(whole)
    requires forall i | 0 <= i < |whole| :: whole[i] in snapshot.byID
    requires forall i | 0 <= i < |part| :: part[i] in snapshot.byID
    ensures PowerOf(snapshot.byID, part) <= PowerOf(snapshot.byID, whole)
  {
    hide PowerOf, Weight, ByID, Sum, Distinct, Elements;
    PowerIsWeight(snapshot.validators, part);
    PowerIsWeight(snapshot.validators, whole);
    WeightMonotone(snapshot.validators, Elements(part), Elements(whole));
  }

  // ----------------------------------------------------------------------------- detection

  /** Two accepted proofs for one height and validator set, about different blocks. */
  ghost predicate Conflict(v: Verifier, first: Proof, second: Proof) {
    ProofAccepted(v, first) && ProofAccepted(v, second) &&
    first.header.height == second.header.height && first.validatorSetHeight == second.validatorSetHeight &&
    ProofBlockHash(first) != ProofBlockHash(second)
  }

  /** The violation names exactly the signers of both certificates, with their power. */
  ghost predicate Exposes(snapshot: Snapshot, first: Proof, second: Proof, violation: Violation) {
    Sorted(violation.doubleSigners, LexLeq) && Distinct(violation.doubleSigners) &&
    (exists a, b :: Lists(first.quorumCert.signers, a) && Lists(second.quorumCert.signers, b) &&
      Elements(violation.doubleSigners) == Elements(a) * Elements(b)) &&
    violation.doubleSignVotingPower == Weight(snapshot.validators, Elements(violation.doubleSigners)) &&
    violation.totalVotingPower == snapshot.total &&
    violation.faultPowerThreshold == FaultPowerThreshold(snapshot.total) && Describes(first, second, violation)
  }

  /** The rest of the violation is copied from the two proofs. */
  ghost predicate Describes(first: Proof, second: Proof, violation: Violation) {
    violation.chainID == first.header.chainID && violation.height == first.header.height &&
    violation.validatorSetHeight == first.validatorSetHeight && violation.validatorSetHash == first.validatorSetHash &&
    violation.firstBlockHash == ProofBlockHash(first) && violation.secondBlockHash == ProofBlockHash(second) &&
    violation.firstAppHash == first.header.appHash && violation.secondAppHash == second.header.appHash &&
    violation.firstRound == first.quorumCert.round && violation.secondRound == second.quorumCert.round &&
    (exists a :: Lists(first.quorumCert.signers, a) && violation.firstSigners == Sort(a, LexLeq)) &&
    (exists b :: Lists(second.quorumCert.signers, b) && violation.secondSigners == Sort(b, LexLeq))
  }

  lemma AcceptedSigners(v: Verifier, proof: Proof) returns (ids: seq<ValidatorID>)
    requires ValidSet(v.snapshot) && ProofAccepted(v, proof)
    ensures Lists(proof.quorumCert.signers, ids) && Distinct(ids)
    ensures forall i | 0 <= i < |ids| :: ids[i] in v.snapshot.byID
    ensures PowerOf(v.snapshot.byID, ids) <= MAX_UINT64
    ensures HasQuorum(Weight(v.snapshot.validators, Elements(ids)), v.snapshot.total)
  {
    hide PowerOf, Weight, Lists, ByID, Sum, TwoThirdsThreshold, ChainAccepted;
    ids :| SignedBy(v, proof.quorumCert, ids, SignBytes(v.hashBytes, proof));
    PowerIsWeight(v.snapshot.validators, ids);
  }

  method Detect(sets: nat -> Option<Snapshot>, first: Proof, second: Proof) returns (r: Result<Violation, DetectError>)
    requires forall h :: sets(h).Some? ==> ValidSet(sets(h).value)
    ensures r.Ok? ==> sets(first.validatorSetHeight).Some? && Exposes(sets(first.validatorSetHeight).value, first, second, r.value)
    ensures r == Err(NoConflict) <==>
      first.header.height == second.header.height && ProofBlockHash(first) == ProofBlockHash(second)
    ensures forall v: Verifier :: sets(first.validatorSetHeight) == Some(v.snapshot) && Conflict(v, first, second) ==> r.Ok?
  {
    hide PowerOf, Weight, LexLeq, Sort, Lists, ValidSet, Elements, Distinct, Sorted;
    if first.header.height != second.header.height { return Err(Refused(HeightMismatch)); }
    if ProofBlockHash(first) == ProofBlockHash(second) { return Err(NoConflict); }
    if first.validatorSetHeight == 0 || second.validatorSetHeight == 0 || first.validatorSetHeight != second.validatorSetHeight {
      return Err(Refused(HeightMismatch));
    }
    if first.validatorSetHash != second.validatorSetHash || first.header.validatorSetHash != second.header.validatorSetHash {
      return Err(Refused(ValidatorSetMismatch));
    }
    var found := sets(first.validatorSetHeight);
    if found.None? { return Err(SetUnavailable); }
    var snapshot := found.value;
    if first.validatorSetHash != snapshot.hash { return Err(Refused(ValidatorSetMismatch)); }
    forall v: Verifier | v.snapshot == snapshot && Conflict(v, first, second)
      ensures exists a, b :: Lists(first.quorumCert.signers, a) && Lists(second.quorumCert.signers, b) && Distinct(a) &&
                             (forall i | 0 <= i < |a| :: a[i] in snapshot.byID) && PowerOf(snapshot.byID, a) <= MAX_UINT64
    {
      var a := AcceptedSigners(v, first);
      var b := AcceptedSigners(v, second);
    }
    var firstSigners := ParseSigners(first.quorumCert.signers);
    if firstSigners.None? { return Err(Refused(EmptySigner)); }
    var secondSigners := ParseSigners(second.quorumCert.signers);
    if secondSigners.None? { return Err(Refused(EmptySigner)); }
    var overlap := OverlappingVotingPower(snapshot, firstSigners.value, secondSigners.value);
    if overlap.Err? { return Err(Refused(overlap.error)); }
    var (doubleSigners, power) := overlap.value;
    return Ok(Violation(
      first.header.chainID, first.header.height, first.validatorSetHeight, first.validatorSetHash,
      ProofBlockHash(first), ProofBlockHash(second), first.header.appHash, second.header.appHash,
      first.quorumCert.round, second.quorumCert.round,
      Sort(firstSigners.value, LexLeq), Sort(secondSigners.value, LexLeq), doubleSigners,
      power, snapshot.total, FaultPowerThreshold(snapshot.total)));
  }

  /** Accountable safety: what a conflict exposes holds at least a third of the voting power. */
  lemma ConflictMeetsThreshold(v: Verifier, first: Proof, second: Proof, violation: Violation)
    requires ValidSet(v.snapshot) && Sum(v.snapshot.validators) <= MAX_UINT64
    requires Conflict(v, first, second) && Exposes(v.snapshot, first, second, violation)
    ensures MeetsFaultThreshold(violation)
    ensures violation.doubleSignVotingPower >= violation.faultPowerThreshold > 0
    ensures 3 * violation.doubleSignVotingPower >= violation.totalVotingPower > 0
  {
    hide PowerOf, Weight, Lists, ByID, Sum, TwoThirdsThreshold, ProofAccepted, LexLeq, Sorted, Elements, Distinct, Describes;
    var a := AcceptedSigners(v, first);
    var b := AcceptedSigners(v, second);
    var c, d :| Lists(first.quorumCert.signers, c) && Lists(second.quorumCert.signers, d) &&
                Elements(violation.doubleSigners) == Elements(c) * Elements(d);
    ListsUnique(first.quorumCert.signers, a, c);
    ListsUnique(second.quorumCert.signers, b, d);
    QuorumsIntersect(v.snapshot, Elements(a), Elements(b));
  }

  /** Remembers the first accepted proof of every height and compares later ones with it. */
  class AttackDetector {
    const sets: nat -> Option<Snapshot>
    const signatures: Option<(seq<Bytes>, Bytes, Bytes) -> bool>
    const hashBytes: HashBytes
    var proofs: map<nat, Proof>

    /** The verifier for the validator set that a proof refers to. */
    ghost predicate Accepts(proof: Proof) {
      sets(proof.validatorSetHeight).Some? &&
      ProofAccepted(Verifier(sets(proof.validatorSetHeight).value, signatures, false, hashBytes), proof)
    }

    ghost predicate Valid()
      reads this
    {
      (forall h :: sets(h).Some? ==> ValidSet(sets(h).value)) &&
      forall h | h in proofs :: proofs[h].header.height == h && Accepts(proofs[h])
    }

    constructor (sets: nat -> Option<Snapshot>, signatures: Option<(seq<Bytes>, Bytes, Bytes) -> bool>, hashBytes: HashBytes)
      requires forall h :: sets(h).Some? ==> ValidSet(sets(h).value)
      ensures Valid() && proofs == map[]
      ensures this.sets == sets && this.signatures == signatures && this.hashBytes == hashBytes
    {
      this.sets, this.signatures, this.hashBytes := sets, signatures, hashBytes;
      proofs := map[];
    }

    method Observe(proof: Proof) returns (violation: Option<Violation>, err: Option<DetectError>)
      requires Valid()
      modifies this
      ensures Valid()
      ensures proofs == if Accepts(proof) && proof.header.height !in old(proofs)
                        then old(proofs)[proof.header.height := proof] else old(proofs)
      ensures !Accepts(proof) ==> violation.None? && err.Some?
      ensures Accepts(proof) && proof.header.height in old(proofs) ==>
        var previous := old(proofs)[proof.header.height];
        (ProofBlockHash(previous) == ProofBlockHash(proof) ==> violation.None? && err.None?) &&
        (ProofBlockHash(previous) != ProofBlockHash(proof) && previous.validatorSetHeight == proof.validatorSetHeight ==>
          violation.Some? && err.None? &&
          Exposes(sets(proof.validatorSetHeight).value, previous, proof, violation.value) &&
          (Sum(sets(proof.validatorSetHeight).value.validators) <= MAX_UINT64 ==>
            violation.value.doubleSignVotingPower >= violation.value.faultPowerThreshold > 0))
    {
      hide ProofAccepted, Exposes, ValidSet, Sum;
      violation := None;
      var setHeight := if proof.validatorSetHeight == 0 then proof.header.height else proof.validatorSetHeight;
      var found := sets(setHeight);
      if found.None? {
        ZeroHeightRefused(proof);
        err := Some(SetUnavailable);
        return;
      }
      var v := Verifier(found.value, signatures, false, hashBytes);
      var bad := VerifyFinalityProof(v, proof);
      ZeroHeightRefused(proof);
      if bad.Some? {
        err := Some(Refused(bad.value));
        return;
      }
      assert Accepts(proof) by { AcceptedHeight(v, proof); }
      err := None;
      if proof.header.height !in proofs {
        proofs := proofs[proof.header.height := proof];
        return;
      }
      var previous := proofs[proof.header.height];
      var result := Detect(sets, previous, proof);
      if result.Err? {
        if result.error != NoConflict { err := Some(result.error); }
        assert previous.validatorSetHeight == proof.validatorSetHeight ==> Conflict(v, previous, proof) || ProofBlockHash(previous) == ProofBlockHash(proof);
        return;
      }
      violation := Some(result.value);
      if previous.validatorSetHeight == proof.validatorSetHeight && Sum(v.snapshot.validators) <= MAX_UINT64 {
        ConflictMeetsThreshold(v, previous, proof, result.value);
      }
    }

    lemma ZeroHeightRefused(proof: Proof)
      ensures proof.validatorSetHeight == 0 ==> !Accepts(proof)
    {}

    lemma AcceptedHeight(v: Verifier, proof: Proof)
      requires ProofAccepted(v, proof)
      ensures proof.validatorSetHeight != 0
    {}
  }
}
