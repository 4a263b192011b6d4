/** The finality verifier: quorum certificates, commit chains and finality proofs. */
module Finality {
  import opened Types
  import opened Sorting
  import opened Validators
  import opened Signers
  import opened Certificates

  datatype CommitLink = CommitLink(header: Header, blockHash: Hash, quorumCert: QuorumCert)

  datatype Proof = Proof(
    header: Header, blockHash: Hash, quorumCert: QuorumCert, commitChain: seq<CommitLink>,
    validatorSetHeight: Uint64, validatorSetHash: Hash)

  datatype Error =
    | ValidatorSetMismatch | BlockHashMismatch | HeightMismatch | InsufficientQuorum | VotingPowerMismatch
    | MissingSignature | UnknownSigner | DuplicateSigner | EmptySigner | Overflow | ChainTooShort | ChainBroken

  /** What a verifier is made of. Its signatures, if it checks any, are in the vote domain. */
  datatype Verifier = Verifier(
    snapshot: Snapshot,
    signatures: Option<(seq<Bytes>, Bytes, Bytes) -> bool>,
    requireCommitChain: bool,
    hashBytes: HashBytes)

  /** The block a proof is about. */
  function RootHash(proof: Proof): Hash {
    if proof.blockHash == ZeroHash then HeaderHash(proof.header) else proof.blockHash
  }

  function SignBytes(hashBytes: HashBytes, proof: Proof): Bytes {
    var blockHash :=
      if proof.blockHash != ZeroHash then proof.blockHash
      else if proof.quorumCert.blockHash != ZeroHash then proof.quorumCert.blockHash
      else HeaderHash(proof.header);
    VoteBytes(hashBytes, proof.quorumCert.height, proof.quorumCert.round, blockHash)
  }

  function LinkSignBytes(hashBytes: HashBytes, link: CommitLink): Bytes {
    var blockHash := if link.quorumCert.blockHash != ZeroHash then link.quorumCert.blockHash else link.blockHash;
    VoteBytes(hashBytes, link.quorumCert.height, link.quorumCert.round, blockHash)
  }

  // ------------------------------------------------------------------- quorum certificates

  function KeysOf(byID: map<ValidatorID, Validator>, ids: seq<ValidatorID>): (keys: seq<Bytes>)
    requires forall i | 0 <= i < |ids| :: ids[i] in byID
    ensures |keys| == |ids|
  {
    seq(|ids|, i requires 0 <= i < |ids| => byID[ids[i]].publicKey)
  }

  /** The certificate names these distinct validators, they are a quorum, and they signed. */
  ghost predicate SignedBy(v: Verifier, cert: QuorumCert, ids: seq<ValidatorID>, signBytes: Bytes) {
    Lists(cert.signers, ids) && Distinct(ids) && (forall i | 0 <= i < |ids| :: ids[i] in v.snapshot.byID) &&
    v.snapshot.total <= MAX_UINT64 && PowerOf(v.snapshot.byID, ids) <= MAX_UINT64 &&
    HasQuorum(PowerOf(v.snapshot.byID, ids), v.snapshot.total) &&
    (cert.votingPower == 0 || cert.votingPower == PowerOf(v.snapshot.byID, ids)) &&
    (v.signatures.Some? ==>
      v.signatures.value(KeysOf(v.snapshot.byID, ids), DomainMessage(VOTE_DOMAIN, signBytes), cert.signature))
  }

  ghost predicate CertAccepted(v: Verifier, cert: QuorumCert, height: Uint64, blockHash: Hash, signBytes: Bytes) {
    cert.height == height && cert.blockHash == blockHash && cert.signature != [] &&
    exists ids :: SignedBy(v, cert, ids, signBytes)
  }

  method CheckSigners(snapshot: Snapshot, signers: seq<ValidatorID>)
    returns (r: Result<nat, Error>, publicKeys: seq<Bytes>)
    ensures r.Ok? <==> Distinct(signers) && (forall i | 0 <= i < |signers| :: signers[i] in snapshot.byID) &&
                       PowerOf(snapshot.byID, signers) <= MAX_UINT64
    ensures r.Ok? ==> r.value == PowerOf(snapshot.byID, signers) && publicKeys == KeysOf(snapshot.byID, signers)
  {
    hide PowerOf;
    var power, seen := 0, {};
    publicKeys := [];
    PowerOfNone(snapshot.byID);
    for i := 0 to |signers|
      invariant seen == Elements(signers[..i]) && Distinct(signers[..i])
      invariant forall j | 0 <= j < i :: signers[j] in snapshot.byID
      invariant power == PowerOf(snapshot.byID, signers[..i]) <= MAX_UINT64
      invariant publicKeys == KeysOf(snapshot.byID, signers[..i])
    {
      var signer := signers[i];
      if signer in seen {
        assert exists j :: 0 <= j < i && signers[..i][j] == signer;
        return Err(DuplicateSigner), [];
      }
      seen := seen + {signer};
      if signer !in snapshot.byID {
        return Err(UnknownSigner), [];
      }
      assert signers[..i + 1] == signers[..i] + [signer];
      PowerAppend(snapshot.byID, signers[..i], signer);
      var sum := AddVotingPower(power, snapshot.byID[signer].votingPower);
      if sum.None? {
        if forall k | 0 <= k < |signers| :: signers[k] in snapshot.byID {
          PowerPrefix(snapshot.byID, signers, i + 1);
        }
        return Err(Overflow), [];
      }
      power := sum.value;
      publicKeys := publicKeys + [snapshot.byID[signer].publicKey];
    }
    assert signers[..|signers|] == signers;
    return Ok(power), publicKeys;
  }

  lemma {:induction false} PowerPrefix(byID: map<ValidatorID, Validator>, ids: seq<ValidatorID>, k: nat)
    requires k <= |ids| && forall i | 0 <= i < |ids| :: ids[i] in byID
    ensures PowerOf(byID, ids[..k]) <= PowerOf(byID, ids)
  {
    if k < |ids| {
      PowerPrefix(byID, ids[..|ids| - 1], k);
      assert ids[..|ids| - 1][..k] == ids[..k];
    } else {
      assert ids[..k] == ids;
    }
  }

  method VerifyQuorumCert(v: Verifier, cert: QuorumCert, height: Uint64, blockHash: Hash, signBytes: Bytes)
    returns (err: Option<Error>)
    requires ValidSet(v.snapshot)
    ensures err.None? <==> CertAccepted(v, cert, height, blockHash, signBytes)
  {
    hide PowerOf, Lists, TwoThirdsThreshold, ByID, Sum;
    if cert.height != height { return Some(HeightMismatch); }
    if cert.blockHash != blockHash { return Some(BlockHashMismatch); }
    if |cert.signature| == 0 { return Some(Error.MissingSignature); }
    var parsed := ParseSigners(cert.signers);
    if parsed.None? { return Some(EmptySigner); }
    var signers := parsed.value;
    var power, publicKeys := CheckSigners(v.snapshot, signers);
    if power.Err? { return Some(power.error); }
    if !HasQuorum(power.value, v.snapshot.total) { return Some(InsufficientQuorum); }
    if cert.votingPower != 0 && cert.votingPower != power.value { return Some(VotingPowerMismatch); }
    if v.signatures.Some? && !v.signatures.value(publicKeys, DomainMessage(VOTE_DOMAIN, signBytes), cert.signature) {
      return Some(Error.MissingSignature);
    }
    assert SignedBy(v, cert, signers, signBytes);
    return None;
  }

  /** With the deterministic backend and hashes written in as many bytes, a certificate is not accepted for two heights,
      rounds or blocks, unless two inputs of the signatures have the same hash. */
  lemma CertFixesVote(sha: Bytes -> Bytes, v: Verifier, a: QuorumCert, b: QuorumCert, ids: seq<ValidatorID>)
    requires forall data :: |sha(data)| == 32
    requires v.signatures == Some(Deterministic(sha).verifyAggregate) && |v.hashBytes(a.blockHash)| == |v.hashBytes(b.blockHash)|
    requires a.signature == b.signature
    requires SignedBy(v, a, ids, VoteBytes(v.hashBytes, a.height, a.round, a.blockHash))
    requires SignedBy(v, b, ids, VoteBytes(v.hashBytes, b.height, b.round, b.blockHash))
    ensures (a.height == b.height && a.round == b.round && v.hashBytes(a.blockHash) == v.hashBytes(b.blockHash)) || Forged(sha, v, a, b, ids)
  {
    hide VoteMessage, PowerOf, Lists, Concat, VoteBytes, DomainMessage, HasQuorum;
    VoteMessageFixes(v.hashBytes, a.height, a.round, a.blockHash, b.height, b.round, b.blockHash);
    var keys := KeysOf(v.snapshot.byID, ids);
    var m := VoteMessage(v.hashBytes, a.height, a.round, a.blockHash);
    var n := VoteMessage(v.hashBytes, b.height, b.round, b.blockHash);
    IsVoteMessage(v.hashBytes, a.height, a.round, a.blockHash);
    IsVoteMessage(v.hashBytes, b.height, b.round, b.blockHash);
    if m != n { AggregateFixesMessage(sha, keys, m, n, a.signature); }
  }

  /** So an accepted certificate is refused with another height, round or block. */
  lemma ChangedCertRefused(sha: Bytes -> Bytes, v: Verifier, cert: QuorumCert, height: Uint64, round: Uint64, blockHash: Hash) returns (ids: seq<ValidatorID>)
    requires forall data :: |sha(data)| == 32
    requires v.signatures == Some(Deterministic(sha).verifyAggregate) && |v.hashBytes(cert.blockHash)| == |v.hashBytes(blockHash)|
    requires CertAccepted(v, cert, cert.height, cert.blockHash, VoteBytes(v.hashBytes, cert.height, cert.round, cert.blockHash))
    requires height != cert.height || round != cert.round || v.hashBytes(blockHash) != v.hashBytes(cert.blockHash)
    ensures Lists(cert.signers, ids) && forall i | 0 <= i < |ids| :: ids[i] in v.snapshot.byID
    ensures var changed := cert.(height := height, round := round, blockHash := blockHash);
      CertAccepted(v, changed, height, blockHash, VoteBytes(v.hashBytes, height, round, blockHash)) ==> Forged(sha, v, cert, changed, ids)
  {
    hide VoteBytes, PowerOf, HasQuorum, Lists, Forged, DomainMessage;
    ids :| SignedBy(v, cert, ids, VoteBytes(v.hashBytes, cert.height, cert.round, cert.blockHash));
    var changed := cert.(height := height, round := round, blockHash := blockHash);
    if CertAccepted(v, changed, height, blockHash, VoteBytes(v.hashBytes, height, round, blockHash)) {
      var others :| SignedBy(v, changed, others, VoteBytes(v.hashBytes, height, round, blockHash));
      ListsUnique(cert.signers, ids, others);
      CertFixesVote(sha, v, cert, changed, ids);
    }
  }

  lemma IsVoteMessage(hashBytes: HashBytes, height: Uint64, round: Uint64, blockHash: Hash)
    ensures DomainMessage(VOTE_DOMAIN, VoteBytes(hashBytes, height, round, blockHash)) == VoteMessage(hashBytes, height, round, blockHash)
  {}

  /** The messages of the two certificates collide under a key or in an aggregate. */
  ghost predicate Forged(sha: Bytes -> Bytes, v: Verifier, a: QuorumCert, b: QuorumCert, ids: seq<ValidatorID>)
    requires forall i | 0 <= i < |ids| :: ids[i] in v.snapshot.byID
  {
    var keys := KeysOf(v.snapshot.byID, ids);
    var m := VoteMessage(v.hashBytes, a.height, a.round, a.blockHash);
    var n := VoteMessage(v.hashBytes, b.height, b.round, b.blockHash);
    |keys| > 0 &&
    (Collide(sha, keys[0] + m, keys[0] + n) ||
     Collide(sha, Concat(seq(|keys|, i requires 0 <= i < |keys| => sha(keys[i] + m))),
             Concat(seq(|keys|, i requires 0 <= i < |keys| => sha(keys[i] + n)))))
  }

  // ------------------------------------------------------------------------- commit chains

  function HeaderBefore(proof: Proof, i: nat): Header
    requires i <= |proof.commitChain|
  {
    if i == 0 then proof.header else proof.commitChain[i - 1].header
  }

  function HashBefore(proof: Proof, i: nat): Hash
    requires i <= |proof.commitChain|
  {
    if i == 0 then RootHash(proof) else proof.commitChain[i - 1].blockHash
  }

  /** A link is the header that follows the one before it and certifies it. */
  ghost predicate LinkAccepted(v: Verifier, proof: Proof, i: nat)
    requires i < |proof.commitChain|
  {
    var link, header, hash := proof.commitChain[i], HeaderBefore(proof, i), HashBefore(proof, i);
    link.blockHash == HeaderHash(link.header) &&
    link.header.chainID == proof.header.chainID && link.header.validatorSetHash == proof.header.validatorSetHash &&
    link.header.height == (header.height + 1) % (MAX_UINT64 + 1) && link.header.previousBlockHash == hash &&
    link.quorumCert.height == header.height && link.quorumCert.blockHash == hash &&
    (i < 2 ==> CertAccepted(v, link.quorumCert, header.height, hash, LinkSignBytes(v.hashBytes, link)))
  }

  ghost predicate ChainAccepted(v: Verifier, proof: Proof) {
    if proof.commitChain == [] then !v.requireCommitChain
    else |proof.commitChain| >= 2 && forall i | 0 <= i < |proof.commitChain| :: LinkAccepted(v, proof, i)
  }

  method VerifyCommitChain(v: Verifier, proof: Proof) returns (err: Option<Error>)
    requires ValidSet(v.snapshot)
    ensures err.None? <==> ChainAccepted(v, proof)
  {
    hide CertAccepted, ValidSet;
    if |proof.commitChain| == 0 {
      return if v.requireCommitChain then Some(ChainTooShort) else None;
    }
    if |proof.commitChain| < 2 { return Some(ChainTooShort); }
    var previousHeader, previousHash := proof.header, RootHash(proof);
    for i := 0 to |proof.commitChain|
      invariant previousHeader == HeaderBefore(proof, i) && previousHash == HashBefore(proof, i)
      invariant forall j | 0 <= j < i :: LinkAccepted(v, proof, j)
    {
      var link := proof.commitChain[i];
      assert LinkAccepted(v, proof, i) ==> link.blockHash == HeaderHash(link.header);
      if link.blockHash == ZeroHash { return Some(ChainBroken); }
      if link.blockHash != HeaderHash(link.header) { return Some(BlockHashMismatch); }
      if link.header.chainID != proof.header.chainID { return Some(ChainBroken); }
      if link.header.validatorSetHash != proof.header.validatorSetHash { return Some(ValidatorSetMismatch); }
      if link.header.height != (previousHeader.height + 1) % (MAX_UINT64 + 1) { return Some(ChainBroken); }
      if link.header.previousBlockHash != previousHash { return Some(ChainBroken); }
      if link.quorumCert.height != previousHeader.height { return Some(HeightMismatch); }
      if link.quorumCert.blockHash != previousHash { return Some(BlockHashMismatch); }
      if i < 2 {
        var bad := VerifyQuorumCert(v, link.quorumCert, previousHeader.height, previousHash, LinkSignBytes(v.hashBytes, link));
        if bad.Some? { return bad; }
      }
      assert LinkAccepted(v, proof, i);
      previousHeader, previousHash := link.header, link.blockHash;
    }
    return None;
  }

  /** The last hash of an accepted chain fixes the chain and the block it started from. */
  lemma {:induction false} ChainFixesRoot(v: Verifier, a: Proof, b: Proof, n: nat)
    requires n <= |a.commitChain| && n <= |b.commitChain|
    requires forall i | 0 <= i < n :: LinkAccepted(v, a, i) && LinkAccepted(v, b, i)
    requires HashBefore(a, n) == HashBefore(b, n)
    ensures RootHash(a) == RootHash(b)
    ensures forall i | 0 <= i < n :: a.commitChain[i].header == b.commitChain[i].header
  {
    hide CertAccepted;
    if n > 0 {
      assert LinkAccepted(v, a, n - 1) && LinkAccepted(v, b, n - 1);
      ChainFixesRoot(v, a, b, n - 1);
    }
  }

  // ----------------------------------------------------------------------- finality proofs

  ghost predicate ProofAccepted(v: Verifier, proof: Proof) {
    proof.validatorSetHash == v.snapshot.hash && proof.header.validatorSetHash == v.snapshot.hash &&
    0 < proof.validatorSetHeight <= proof.header.height &&
    CertAccepted(v, proof.quorumCert, proof.header.height, RootHash(proof), SignBytes(v.hashBytes, proof)) &&
    ChainAccepted(v, proof)
  }

  /** What was signed for an accepted proof is its own block at its own height, and for a link the block before it. */
  lemma SignedIsRoot(v: Verifier, proof: Proof)
    requires ProofAccepted(v, proof)
    ensures SignBytes(v.hashBytes, proof) ==
      VoteBytes(v.hashBytes, proof.header.height, proof.quorumCert.round,
                if proof.blockHash == ZeroHash then HeaderHash(proof.header) else proof.blockHash)
    ensures forall i | 0 <= i < |proof.commitChain| ::
      LinkSignBytes(v.hashBytes, proof.commitChain[i]) ==
      VoteBytes(v.hashBytes, HeaderBefore(proof, i).height, proof.commitChain[i].quorumCert.round, HashBefore(proof, i))
  {
    hide VoteBytes, SignedBy;
    forall i | 0 <= i < |proof.commitChain|
      ensures LinkSignBytes(v.hashBytes, proof.commitChain[i]) ==
        VoteBytes(v.hashBytes, HeaderBefore(proof, i).height, proof.commitChain[i].quorumCert.round, HashBefore(proof, i))
    {
      assert LinkAccepted(v, proof, i);
      assert i > 0 ==> LinkAccepted(v, proof, i - 1);
    }
  }

  method VerifyFinalityProof(v: Verifier, proof: Proof) returns (err: Option<Error>)
    requires ValidSet(v.snapshot)
    ensures err.None? <==> ProofAccepted(v, proof)
  {
    hide CertAccepted, ChainAccepted, ValidSet;
    if proof.validatorSetHash != v.snapshot.hash || proof.header.validatorSetHash != v.snapshot.hash {
      return Some(ValidatorSetMismatch);
    }
    if proof.validatorSetHeight == 0 || proof.validatorSetHeight > proof.header.height { return Some(HeightMismatch); }
    err := VerifyQuorumCert(v, proof.quorumCert, proof.header.height, RootHash(proof), SignBytes(v.hashBytes, proof));
    if err.Some? { return; }
    err := VerifyCommitChain(v, proof);
  }

  function NewProof(header: Header, cert: QuorumCert): Proof {
    Proof(header, if cert.blockHash == ZeroHash then HeaderHash(header) else cert.blockHash, cert, [],
          header.height, header.validatorSetHash)
  }

  // -------------------------------------------------------- what is built is what is accepted

  /** The votes are for this block and their signatures verify. */
  ghost predicate VerifiedVotes(sha: Bytes -> Bytes, hashBytes: HashBytes, snapshot: Snapshot, votes: map<ValidatorID, Vote>,
                                height: Uint64, round: Uint64, blockHash: Hash) {
    forall id | id in votes && id in snapshot.byID ::
      Deterministic(sha).verify(
        snapshot.byID[id].publicKey, VoteMessage(hashBytes, height, round, blockHash), votes[id].signature)
  }

  lemma SignaturesAlign(sha: Bytes -> Bytes, hashBytes: HashBytes, snapshot: Snapshot, votes: map<ValidatorID, Vote>,
                        height: Uint64, round: Uint64, blockHash: Hash, ids: seq<ValidatorID>)
    requires VerifiedVotes(sha, hashBytes, snapshot, votes, height, round, blockHash)
    requires forall i | 0 <= i < |ids| :: ids[i] in votes && ids[i] in snapshot.byID
    ensures var keys := KeysOf(snapshot.byID, ids);
      AllPresent(keys) &&
      SignaturesOf(SignatureMap(votes), ids) == SignAll(sha, keys, VoteMessage(hashBytes, height, round, blockHash))
  {
    hide VoteMessage;
    var keys := KeysOf(snapshot.byID, ids);
    var signed := SignaturesOf(SignatureMap(votes), ids);
    forall i | 0 <= i < |ids| ensures keys[i] != [] && signed[i] == Sign(sha, keys[i], VoteMessage(hashBytes, height, round, blockHash)) {
      var id := ids[i];
      assert id in votes && id in snapshot.byID;
    }
  }

  /** Every certificate built from verified votes passes the verifier for the same validator set. */
  lemma BuiltCertAccepted(sha: Bytes -> Bytes, hashBytes: HashBytes, snapshot: Snapshot, strict: bool,
                          votes: map<ValidatorID, Vote>, height: Uint64, round: Uint64, blockHash: Hash, cert: QuorumCert)
    requires forall data :: sha(data) != []
    requires VerifiedVotes(sha, hashBytes, snapshot, votes, height, round, blockHash)
    requires forall id | id in votes && id in snapshot.byID :: Plain(id)
    requires BuiltFrom(snapshot, Deterministic(sha).aggregate, votes, height, round, blockHash, cert)
    ensures CertAccepted(Verifier(snapshot, Some(Deterministic(sha).verifyAggregate), strict, hashBytes), cert,
                         height, blockHash, VoteBytes(hashBytes, height, round, blockHash))
  {
    hide VoteBytes, Join, PowerOf, LexLeq, Plain, VerifiedVotes, Concat, Sorted;
    var v := Verifier(snapshot, Some(Deterministic(sha).verifyAggregate), strict, hashBytes);
    var c :| CollectedFrom(snapshot, Deterministic(sha).aggregate, SignatureMap(votes), c) &&
             cert == QuorumCert(height, round, blockHash, Join(c.ids), c.aggregate, c.power);
    forall i | 0 <= i < |c.ids| ensures c.ids[i] in votes && c.ids[i] in snapshot.byID { assert c.ids[i] in c.ids; }
    SignaturesAlign(sha, hashBytes, snapshot, votes, height, round, blockHash, c.ids);
    assert SignedBy(v, cert, c.ids, VoteBytes(hashBytes, height, round, blockHash));
  }

  /** The proof built on it passes too: it is about the voted block, under the validator set of the block's own height. */
  lemma BuiltProofAccepted(sha: Bytes -> Bytes, hashBytes: HashBytes, snapshot: Snapshot, header: Header,
                           votes: map<ValidatorID, Vote>, round: Uint64, blockHash: Hash, cert: QuorumCert)
    requires forall data :: sha(data) != []
    requires VerifiedVotes(sha, hashBytes, snapshot, votes, header.height, round, blockHash)
    requires forall id | id in votes && id in snapshot.byID :: Plain(id)
    requires BuiltFrom(snapshot, Deterministic(sha).aggregate, votes, header.height, round, blockHash, cert)
    requires header.height > 0 && header.validatorSetHash == snapshot.hash && blockHash != ZeroHash
    ensures var proof := NewProof(header, cert);
      ProofAccepted(Verifier(snapshot, Some(Deterministic(sha).verifyAggregate), false, hashBytes), proof) &&
      proof.header == header && proof.quorumCert == cert && RootHash(proof) == blockHash &&
      proof.validatorSetHeight == header.height
  {
    hide VoteBytes, VerifiedVotes, CertAccepted, CollectedFrom;
    BuiltCertAccepted(sha, hashBytes, snapshot, false, votes, header.height, round, blockHash, cert);
  }
}
