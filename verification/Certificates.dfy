/** Votes, signature backends, and quorum certificates built from votes. */
module Certificates {
  import opened Types
  import opened Sorting
  import opened Validators
  import opened Signers
  import TxCodec

  // ----------------------------------------------------------------------- signed messages

  function Text(text: string): (bytes: Bytes)
    requires forall i | 0 <= i < |text| :: text[i] < '\U{80}'
    ensures |bytes| == |text|
  {
    seq(|text|, i requires 0 <= i < |text| => text[i] as int as Byte)
  }

  const VOTE_DOMAIN: string := "vexo.consensus.vote.v1"

  function DomainMessage(domain: string, message: Bytes): Bytes
    requires forall i | 0 <= i < |domain| :: domain[i] < '\U{80}'
  {
    Text("VEXO-DOMAIN") + [0] + Text(domain) + TxCodec.Uint64(|message|) + message
  }

  /** How a hash is written down: 32 bytes. */
  type HashBytes = Hash -> Bytes

  /** The bytes signed by a vote for a block at a height and round. */
  function VoteBytes(hashBytes: HashBytes, height: Uint64, round: Uint64, blockHash: Hash): Bytes {
    Text("vote") + TxCodec.Uint64(height) + TxCodec.Uint64(round) + hashBytes(blockHash)
  }

  function VoteMessage(hashBytes: HashBytes, height: Uint64, round: Uint64, blockHash: Hash): Bytes {
    DomainMessage(VOTE_DOMAIN, VoteBytes(hashBytes, height, round, blockHash))
  }

  lemma Uint64Injective(a: Uint64, b: Uint64)
    ensures TxCodec.Uint64(a) == TxCodec.Uint64(b) <==> a == b
  {
    hide TxCodec.BigEndian, TxCodec.FromBigEndian;
    TxCodec.Uint64Range(a);
    TxCodec.Uint64Range(b);
    TxCodec.FromBigEndianInverts(a, 8);
    TxCodec.FromBigEndianInverts(b, 8);
  }

  /** Where hashes are written with the same number of bytes, the signed message fixes height, round and hash. */
  lemma VoteMessageFixes(hashBytes: HashBytes, height: Uint64, round: Uint64, a: Hash, otherHeight: Uint64, otherRound: Uint64, b: Hash)
    requires |hashBytes(a)| == |hashBytes(b)|
    ensures VoteMessage(hashBytes, height, round, a) == VoteMessage(hashBytes, otherHeight, otherRound, b) <==>
      height == otherHeight && round == otherRound && hashBytes(a) == hashBytes(b)
  {
    hide TxCodec.Uint64, Text, DomainMessage;
    var x, y := VoteBytes(hashBytes, height, round, a), VoteBytes(hashBytes, otherHeight, otherRound, b);
    Uint64Injective(height, otherHeight);
    Uint64Injective(round, otherRound);
    if VoteMessage(hashBytes, height, round, a) == VoteMessage(hashBytes, otherHeight, otherRound, b) {
      SameMessage(VOTE_DOMAIN, x, y);
      FieldsOf(Text("vote"), TxCodec.Uint64(height), TxCodec.Uint64(round), hashBytes(a));
      FieldsOf(Text("vote"), TxCodec.Uint64(otherHeight), TxCodec.Uint64(otherRound), hashBytes(b));
    }
  }

  lemma SameMessage(domain: string, x: Bytes, y: Bytes)
    requires forall i | 0 <= i < |domain| :: domain[i] < '\U{80}'
    requires |x| == |y| && DomainMessage(domain, x) == DomainMessage(domain, y)
    ensures x == y
  {
    hide TxCodec.Uint64, Text;
    var head := Text("VEXO-DOMAIN") + [0] + Text(domain) + TxCodec.Uint64(|x|);
    assert DomainMessage(domain, x) == head + x && DomainMessage(domain, y) == head + y;
    assert (head + x)[|head|..] == x && (head + y)[|head|..] == y;
  }

  lemma FieldsOf(tag: Bytes, height: Bytes, round: Bytes, hash: Bytes)
    requires |height| == |round| == 8
    ensures var m := tag + height + round + hash;
      m[|tag|..|tag| + 8] == height && m[|tag| + 8..|tag| + 16] == round && m[|tag| + 16..] == hash
  {}

  /** The signed bytes field by field: a tag, height and round in eight bytes each, and the hash. */
  lemma VoteBytesAre(hashBytes: HashBytes, height: Uint64, round: Uint64, blockHash: Hash)
    ensures var m := VoteBytes(hashBytes, height, round, blockHash);
      |m| == 20 + |hashBytes(blockHash)| && m[..4] == [0x76, 0x6f, 0x74, 0x65] &&
      m[4..12] == TxCodec.Uint64(height) && m[12..20] == TxCodec.Uint64(round) && m[20..] == hashBytes(blockHash)
  {
    hide TxCodec.Uint64, Text;
    VoteTag();
    FieldsOf(Text("vote"), TxCodec.Uint64(height), TxCodec.Uint64(round), hashBytes(blockHash));
  }

  lemma VoteTag()
    ensures Text("vote") == [0x76, 0x6f, 0x74, 0x65]
  {}

  /** Messages of domains that differ at some character are different. */
  lemma DomainsSeparate(a: string, m: Bytes, b: string, n: Bytes, i: nat)
    requires (forall k | 0 <= k < |a| :: a[k] < '\U{80}') && forall k | 0 <= k < |b| :: b[k] < '\U{80}'
    requires i < |a| && i < |b| && Text(a)[i] != Text(b)[i]
    ensures DomainMessage(a, m) != DomainMessage(b, n)
  {
    hide TxCodec.Uint64, Text;
    var tag := Text("VEXO-DOMAIN");
    assert DomainMessage(a, m)[|tag| + 1 + i] == Text(a)[i] && DomainMessage(b, n)[|tag| + 1 + i] == Text(b)[i];
  }

  // -------------------------------------------------------------------- signature backends

  datatype Backend = Backend(
    verify: (Bytes, Bytes, Bytes) -> bool,
    aggregate: seq<Bytes> -> Option<Bytes>,
    verifyAggregate: (seq<Bytes>, Bytes, Bytes) -> bool)

  function Concat(parts: seq<Bytes>): Bytes {
    if |parts| == 0 then [] else Concat(parts[..|parts| - 1]) + parts[|parts| - 1]
  }

  predicate AllPresent(parts: seq<Bytes>) {
    forall i | 0 <= i < |parts| :: parts[i] != []
  }

  function Sign(sha: Bytes -> Bytes, publicKey: Bytes, message: Bytes): Bytes {
    sha(publicKey + message)
  }

  function SignAll(sha: Bytes -> Bytes, publicKeys: seq<Bytes>, message: Bytes): (signatures: seq<Bytes>)
    ensures |signatures| == |publicKeys|
  {
    seq(|publicKeys|, i requires 0 <= i < |publicKeys| => Sign(sha, publicKeys[i], message))
  }

  /** The deterministic backend: a signature is the hash of the public key and the message,
      an aggregate the hash of the signatures. */
  function Deterministic(sha: Bytes -> Bytes): Backend {
    Backend(
      (publicKey, message, signature) =>
        publicKey != [] && signature != [] && signature == Sign(sha, publicKey, message),
      signatures => DeterministicAggregate(sha, signatures),
      (publicKeys, message, signature) =>
        publicKeys != [] && signature != [] && AllPresent(publicKeys) &&
        DeterministicAggregate(sha, SignAll(sha, publicKeys, message)) == Some(signature))
  }

  function DeterministicAggregate(sha: Bytes -> Bytes, signatures: seq<Bytes>): Option<Bytes> {
    if signatures == [] || !AllPresent(signatures) then None else Some(sha(Concat(signatures)))
  }

  /** Two different inputs with the same hash. */
  predicate Collide(sha: Bytes -> Bytes, a: Bytes, b: Bytes) {
    a != b && sha(a) == sha(b)
  }

  /** With hashes of one length, no signature is good for two messages unless two inputs have the same hash. */
  lemma SignatureFixesMessage(sha: Bytes -> Bytes, publicKey: Bytes, a: Bytes, b: Bytes, signature: Bytes)
    requires Deterministic(sha).verify(publicKey, a, signature) && Deterministic(sha).verify(publicKey, b, signature) && a != b
    ensures Collide(sha, publicKey + a, publicKey + b)
  {
    assert (publicKey + a)[|publicKey|..] == a && (publicKey + b)[|publicKey|..] == b;
  }

  /** Nor is an aggregate. */
  lemma AggregateFixesMessage(sha: Bytes -> Bytes, publicKeys: seq<Bytes>, a: Bytes, b: Bytes, signature: Bytes)
    requires forall data :: |sha(data)| == 32
    requires Deterministic(sha).verifyAggregate(publicKeys, a, signature) && Deterministic(sha).verifyAggregate(publicKeys, b, signature)
    requires a != b
    ensures Collide(sha, publicKeys[0] + a, publicKeys[0] + b) ||
            Collide(sha, Concat(seq(|publicKeys|, i requires 0 <= i < |publicKeys| => sha(publicKeys[i] + a))),
                    Concat(seq(|publicKeys|, i requires 0 <= i < |publicKeys| => sha(publicKeys[i] + b))))
  {
    var x, y := SignAll(sha, publicKeys, a), SignAll(sha, publicKeys, b);
    assert x == seq(|publicKeys|, i requires 0 <= i < |publicKeys| => sha(publicKeys[i] + a));
    assert y == seq(|publicKeys|, i requires 0 <= i < |publicKeys| => sha(publicKeys[i] + b));
    if Concat(x) == Concat(y) {
      FirstOfConcat(x);
      FirstOfConcat(y);
      assert sha(publicKeys[0] + a) == sha(publicKeys[0] + b);
      assert (publicKeys[0] + a)[|publicKeys[0]|..] == a && (publicKeys[0] + b)[|publicKeys[0]|..] == b;
    }
  }

  lemma {:induction false} FirstOfConcat(parts: seq<Bytes>)
    requires |parts| > 0
    ensures |Concat(parts)| >= |parts[0]| && Concat(parts)[..|parts[0]|] == parts[0]
  {
    if |parts| == 1 {
      assert Concat(parts[..0]) == [];
    } else {
      FirstOfConcat(parts[..|parts| - 1]);
    }
  }

  method Aggregate(sha: Bytes -> Bytes, signatures: seq<Bytes>) returns (r: Option<Bytes>)
    ensures r == Deterministic(sha).aggregate(signatures)
  {
    if |signatures| == 0 {
      return None;
    }
    var written: Bytes := [];
    for i := 0 to |signatures|
      invariant written == Concat(signatures[..i]) && AllPresent(signatures[..i])
    {
      if signatures[i] == [] {
        return None;
      }
      assert signatures[..i + 1][..i] == signatures[..i];
      written := written + signatures[i];
    }
    assert signatures[..|signatures|] == signatures;
    return Some(sha(written));
  }

  method VerifyAggregate(sha: Bytes -> Bytes, publicKeys: seq<Bytes>, message: Bytes, signature: Bytes) returns (ok: bool)
    ensures ok == Deterministic(sha).verifyAggregate(publicKeys, message, signature)
  {
    if publicKeys == [] || signature == [] {
      return false;
    }
    var signatures: seq<Bytes> := [];
    for i := 0 to |publicKeys|
      invariant signatures == SignAll(sha, publicKeys[..i], message) && AllPresent(publicKeys[..i])
    {
      if publicKeys[i] == [] {
        return false;
      }
      signatures := signatures + [Sign(sha, publicKeys[i], message)];
    }
    assert publicKeys[..|publicKeys|] == publicKeys;
    var expected := Aggregate(sha, signatures);
    return expected == Some(signature);
  }

  // ------------------------------------------------------------------- quorum certificates

  datatype QuorumCert = QuorumCert(
    height: Uint64, round: Uint64, blockHash: Hash, signers: Bytes, signature: Bytes, votingPower: nat)

  /** The zero value, which stands for "no certificate". */
  const NO_CERT: QuorumCert := QuorumCert(0, 0, ZeroHash, [], [], 0)

  datatype Vote = Vote(height: Uint64, round: Uint64, blockHash: Hash, validatorID: ValidatorID, signature: Bytes)

  datatype BuildError = NoQuorum | PowerOverflow | AggregateRequired | MissingSignature | AggregateFailed

  /** The signatures given by some ids, in their order. */
  function SignaturesOf(signed: map<ValidatorID, Bytes>, ids: seq<ValidatorID>): (r: seq<Bytes>)
    requires forall i | 0 <= i < |ids| :: ids[i] in signed
    ensures |r| == |ids|
  {
    seq(|ids|, i requires 0 <= i < |ids| => signed[ids[i]])
  }

  /** ids are the members of the set that signed, in increasing order. */
  ghost predicate Members(snapshot: Snapshot, signed: map<ValidatorID, Bytes>, ids: seq<ValidatorID>) {
    Distinct(ids) && Sorted(ids, LexLeq) && forall id :: id in ids <==> id in signed && id in snapshot.byID
  }

  /** The outcome of collecting signatures: the sorted signers, their power and the aggregate. */
  datatype Collected = Collected(ids: seq<ValidatorID>, power: nat, aggregate: Bytes)

  ghost predicate CollectedFrom(snapshot: Snapshot, aggregate: seq<Bytes> -> Option<Bytes>,
                                signed: map<ValidatorID, Bytes>, c: Collected) {
    Members(snapshot, signed, c.ids) && c.power == PowerOf(snapshot.byID, c.ids) <= MAX_UINT64 &&
    snapshot.total <= MAX_UINT64 && HasQuorum(c.power, snapshot.total) && c.ids != [] &&
    AllPresent(SignaturesOf(signed, c.ids)) && aggregate(SignaturesOf(signed, c.ids)) == Some(c.aggregate)
  }

  lemma {:induction false} PowerAppend(byID: map<ValidatorID, Validator>, ids: seq<ValidatorID>, id: ValidatorID)
    requires forall i | 0 <= i < |ids| :: ids[i] in byID
    requires id in byID
    ensures PowerOf(byID, ids + [id]) == PowerOf(byID, ids) + byID[id].votingPower
  {
    assert (ids + [id])[..|ids|] == ids;
  }

  lemma MembersUnique(snapshot: Snapshot, signed: map<ValidatorID, Bytes>, a: seq<ValidatorID>, b: seq<ValidatorID>)
    requires Members(snapshot, signed, a) && Members(snapshot, signed, b)
    ensures a == b
  {
    hide LexLeq;
    LexOrder();
    forall id ensures id in Elements(a) <==> id in Elements(b) {
      assert id in Elements(a) <==> id in a;
      assert id in Elements(b) <==> id in b;
    }
    SortedDistinctUnique(a, b, LexLeq);
  }

  /** The ids, in any order, of the known signers, and their total power if it fits 64 bits. */
  method KnownSigners(snapshot: Snapshot, signed: map<ValidatorID, Bytes>) returns (r: Option<seq<ValidatorID>>, power: nat)
    ensures r.Some? ==> Distinct(r.value) && (forall id :: id in r.value <==> id in signed && id in snapshot.byID) &&
                        power == PowerOf(snapshot.byID, r.value) <= MAX_UINT64
    ensures r.None? ==> exists ids :: Distinct(ids) && (forall id | id in ids :: id in signed && id in snapshot.byID) &&
                                      PowerOf(snapshot.byID, ids) > MAX_UINT64
  {
    hide PowerOf;
    var ids: seq<ValidatorID> := [];
    power := 0;
    var rest := signed.Keys;
    PowerOfNone(snapshot.byID);
    while rest != {}
      invariant rest <= signed.Keys && Distinct(ids)
      invariant forall id :: id in ids <==> id in signed && id !in rest && id in snapshot.byID
      invariant power == PowerOf(snapshot.byID, ids) <= MAX_UINT64
      decreases |rest|
    {
      var id :| id in rest;
      rest := rest - {id};
      if id in snapshot.byID {
        PowerAppend(snapshot.byID, ids, id);
        var sum := AddVotingPower(power, snapshot.byID[id].votingPower);
        if sum.None? {
          ghost var more := ids + [id];
          assert Distinct(more) && forall x | x in more :: x in signed && x in snapshot.byID;
          return None, 0;
        }
        power := sum.value;
        ids := ids + [id];
      }
    }
    return Some(ids), power;
  }

  lemma PowerOfNone(byID: map<ValidatorID, Validator>)
    ensures PowerOf(byID, []) == 0
  {}

  /** Collecting fails exactly when there is nothing to collect: no quorum within 64 bits, a
      missing signature, or an aggregator that refuses. */
  method Collect(snapshot: Snapshot, aggregator: Option<seq<Bytes> -> Option<Bytes>>, signed: map<ValidatorID, Bytes>)
    returns (r: Result<Collected, BuildError>)
    requires ValidSet(snapshot)
    ensures r.Ok? ==> aggregator.Some? && CollectedFrom(snapshot, aggregator.value, signed, r.value)
    ensures r.Err? && aggregator.Some? ==> forall c :: !CollectedFrom(snapshot, aggregator.value, signed, c)
  {
    hide PowerOf, LexLeq, Sort, ByID, Sum, TwoThirdsThreshold;
    if |signed| == 0 {
      forall c | aggregator.Some? && CollectedFrom(snapshot, aggregator.value, signed, c) ensures false {
        SomeoneSigned(snapshot, aggregator.value, signed, c);
      }
      return Err(NoQuorum);
    }
    var known, power := KnownSigners(snapshot, signed);
    if known.None? {
      forall c | aggregator.Some? && CollectedFrom(snapshot, aggregator.value, signed, c) ensures false {
        OverflowMeansNone(snapshot, signed, c.ids);
      }
      return Err(PowerOverflow);
    }
    var ids := Sort(known.value, LexLeq);
    SortedMembers(snapshot, signed, known.value);
    forall c | aggregator.Some? && CollectedFrom(snapshot, aggregator.value, signed, c) ensures c.ids == ids {
      MembersUnique(snapshot, signed, c.ids, ids);
    }
    if !HasQuorum(power, snapshot.total) {
      return Err(NoQuorum);
    }
    var signatures := SignaturesOf(signed, ids);
    if aggregator.None? {
      return Err(AggregateRequired);
    }
    if ids == [] || !AllPresent(signatures) {
      return Err(MissingSignature);
    }
    var aggregate := aggregator.value(signatures);
    if aggregate.None? {
      return Err(AggregateFailed);
    }
    return Ok(Collected(ids, power, aggregate.value));
  }

  lemma SomeoneSigned(snapshot: Snapshot, aggregate: seq<Bytes> -> Option<Bytes>, signed: map<ValidatorID, Bytes>, c: Collected)
    requires CollectedFrom(snapshot, aggregate, signed, c)
    ensures |signed| > 0
  {
    assert c.ids[0] in signed.Keys;
  }

  lemma SortedMembers(snapshot: Snapshot, signed: map<ValidatorID, Bytes>, known: seq<ValidatorID>)
    requires snapshot.byID == ByID(snapshot.validators)
    requires Distinct(known) && forall id :: id in known <==> id in signed && id in snapshot.byID
    ensures Members(snapshot, signed, Sort(known, LexLeq))
    ensures PowerOf(snapshot.byID, Sort(known, LexLeq)) == PowerOf(snapshot.byID, known)
  {
    hide LexLeq, Sort, PowerOf, ByID;
    LexOrder();
    SortSpec(known, LexLeq);
    var ids := Sort(known, LexLeq);
    SameMultiset(known, ids);
    PowerIsWeight(snapshot.validators, known);
    PowerIsWeight(snapshot.validators, ids);
  }

  lemma OverflowMeansNone(snapshot: Snapshot, signed: map<ValidatorID, Bytes>, ids: seq<ValidatorID>)
    requires ValidSet(snapshot) && Members(snapshot, signed, ids)
    requires exists some :: Distinct(some) && (forall id | id in some :: id in signed && id in snapshot.byID) &&
                            PowerOf(snapshot.byID, some) > MAX_UINT64
    ensures PowerOf(snapshot.byID, ids) > MAX_UINT64
  {
    hide PowerOf, LexLeq, ByID, Sum;
    var some :| Distinct(some) && (forall id | id in some :: id in signed && id in snapshot.byID) &&
                PowerOf(snapshot.byID, some) > MAX_UINT64;
    PowerIsWeight(snapshot.validators, some);
    PowerIsWeight(snapshot.validators, ids);
    forall id | id in Elements(some) ensures id in Elements(ids) { assert id in ids; }
    WeightMonotone(snapshot.validators, Elements(some), Elements(ids));
  }

  // --------------------------------------------------------------- certificates from votes

  function SignatureMap(votes: map<ValidatorID, Vote>): map<ValidatorID, Bytes> {
    map id | id in votes :: votes[id].signature
  }

  /** The certificate is made of the votes of known validators, in the order of their ids. */
  ghost predicate BuiltFrom(snapshot: Snapshot, aggregate: seq<Bytes> -> Option<Bytes>, votes: map<ValidatorID, Vote>,
                            height: Uint64, round: Uint64, blockHash: Hash, cert: QuorumCert) {
    exists c :: CollectedFrom(snapshot, aggregate, SignatureMap(votes), c) &&
                cert == QuorumCert(height, round, blockHash, Join(c.ids), c.aggregate, c.power)
  }

  method BuildQuorumCert(snapshot: Snapshot, aggregator: Option<seq<Bytes> -> Option<Bytes>>, votes: map<ValidatorID, Vote>,
                         height: Uint64, round: Uint64, blockHash: Hash)
    returns (r: Result<QuorumCert, BuildError>)
    requires ValidSet(snapshot)
    ensures r.Ok? ==> aggregator.Some? && BuiltFrom(snapshot, aggregator.value, votes, height, round, blockHash, r.value)
    ensures r.Err? && aggregator.Some? ==>
      forall cert :: !BuiltFrom(snapshot, aggregator.value, votes, height, round, blockHash, cert)
  {
    hide CollectedFrom, Join;
    var collected := Collect(snapshot, aggregator, SignatureMap(votes));
    if collected.Err? {
      return Err(collected.error);
    }
    var c := collected.value;
    return Ok(QuorumCert(height, round, blockHash, Join(c.ids), c.aggregate, c.power));
  }

  /** A certificate carries the power of its voters, and that is a quorum. */
  lemma BuiltHasQuorum(snapshot: Snapshot, aggregate: seq<Bytes> -> Option<Bytes>, votes: map<ValidatorID, Vote>,
                       height: Uint64, round: Uint64, blockHash: Hash, cert: QuorumCert)
    requires ValidSet(snapshot) && BuiltFrom(snapshot, aggregate, votes, height, round, blockHash, cert)
    ensures cert.votingPower == Weight(snapshot.validators, votes.Keys * snapshot.byID.Keys)
    ensures HasQuorum(cert.votingPower, snapshot.total)
  {
    hide Join, PowerOf, Weight, ByID, LexLeq, Sum, TwoThirdsThreshold;
    var c :| CollectedFrom(snapshot, aggregate, SignatureMap(votes), c) &&
             cert == QuorumCert(height, round, blockHash, Join(c.ids), c.aggregate, c.power);
    forall id ensures id in Elements(c.ids) <==> id in votes.Keys * snapshot.byID.Keys {
      assert id in Elements(c.ids) <==> id in c.ids;
    }
    assert Elements(c.ids) == votes.Keys * snapshot.byID.Keys;
    PowerIsWeight(snapshot.validators, c.ids);
  }

  /** At most one of two disjoint groups of voters gets a certificate. */
  lemma OneQuorum(snapshot: Snapshot, aggregate: seq<Bytes> -> Option<Bytes>, height: Uint64, round: Uint64,
                  a: map<ValidatorID, Vote>, hashA: Hash, certA: QuorumCert,
                  b: map<ValidatorID, Vote>, hashB: Hash, certB: QuorumCert)
    requires ValidSet(snapshot) && RoomForOneQuorum(Sum(snapshot.validators)) && a.Keys !! b.Keys
    requires BuiltFrom(snapshot, aggregate, a, height, round, hashA, certA)
    ensures !BuiltFrom(snapshot, aggregate, b, height, round, hashB, certB)
  {
    hide BuiltFrom, Weight, Sum, TwoThirdsThreshold;
    BuiltHasQuorum(snapshot, aggregate, a, height, round, hashA, certA);
    DisjointQuorums(snapshot, a.Keys * snapshot.byID.Keys, b.Keys * snapshot.byID.Keys);
    if BuiltFrom(snapshot, aggregate, b, height, round, hashB, certB) {
      BuiltHasQuorum(snapshot, aggregate, b, height, round, hashB, certB);
    }
  }
}
