/** Voting power and validator sets. */
module Validators {
  import opened Types
  import opened Sorting

  type ValidatorID = Bytes

  // ------------------------------------------------------------------------- voting power

  /** Checked 64-bit addition. */
  function AddVotingPower(left: nat, right: nat): Option<nat> {
    if left + right > MAX_UINT64 then None else Some(left + right)
  }

  function AddSaturating(left: nat, right: nat): nat {
    if AddVotingPower(left, right).Some? then left + right else MAX_UINT64
  }

  /** The least power that is two thirds of the total. */
  function TwoThirdsThreshold(total: nat): (threshold: nat)
    requires total <= MAX_UINT64
    ensures 3 * threshold >= 2 * total
    ensures threshold > 0 ==> 3 * (threshold - 1) < 2 * total
  {
    if total == 0 then 0
    else
      var extra := if total % 3 > 0 then (total % 3 * 2 + 2) / 3 else 0;
      AddSaturating(total / 3 * 2, extra)
  }

  predicate HasQuorum(power: nat, total: nat)
    requires total <= MAX_UINT64
  {
    total != 0 && power >= TwoThirdsThreshold(total)
  }

  // ------------------------------------------------------------------------ validator sets

  datatype Validator = Validator(id: ValidatorID, publicKey: Bytes, votingPower: nat)

  /** A snapshot: the listed validators, the one found under each id, and the total power. */
  datatype Snapshot = Snapshot(validators: seq<Validator>, byID: map<ValidatorID, Validator>, total: nat, hash: Hash)

  predicate Powers(validators: seq<Validator>) {
    forall i | 0 <= i < |validators| :: validators[i].votingPower <= MAX_UINT64
  }

  /** What is found under each id: the last validator listed with it. */
  function ByID(validators: seq<Validator>): map<ValidatorID, Validator> {
    if |validators| == 0 then map[]
    else
      var last := validators[|validators| - 1];
      ByID(validators[..|validators| - 1])[last.id := last]
  }

  /** The sum of all listed powers, without a bound. */
  function Sum(validators: seq<Validator>): nat {
    if |validators| == 0 then 0
    else Sum(validators[..|validators| - 1]) + validators[|validators| - 1].votingPower
  }

  ghost predicate ValidSet(set_: Snapshot) {
    Powers(set_.validators) && set_.byID == ByID(set_.validators) &&
    set_.total == if Sum(set_.validators) > MAX_UINT64 then MAX_UINT64 else Sum(set_.validators)
  }

  method NewSnapshot(validators: seq<Validator>, hash: Hash) returns (snapshot: Snapshot)
    requires Powers(validators)
    ensures ValidSet(snapshot) && snapshot.validators == validators && snapshot.hash == hash
  {
    var byID, total := map[], 0;
    for i := 0 to |validators|
      invariant byID == ByID(validators[..i])
      invariant total == if Sum(validators[..i]) > MAX_UINT64 then MAX_UINT64 else Sum(validators[..i])
    {
      assert validators[..i + 1][..i] == validators[..i];
      byID := byID[validators[i].id := validators[i]];
      total := AddSaturating(total, validators[i].votingPower);
    }
    assert validators[..|validators|] == validators;
    snapshot := Snapshot(validators, byID, total, hash);
  }

  // ----------------------------------------------------------------------- power of a group

  /** The power of the validators found under the given ids. */
  ghost function Weight(validators: seq<Validator>, ids: set<ValidatorID>): nat {
    if |validators| == 0 then 0
    else
      var last := validators[|validators| - 1];
      Weight(validators[..|validators| - 1], ids - {last.id}) + if last.id in ids then last.votingPower else 0
  }

  lemma {:induction false} WeightBound(validators: seq<Validator>, ids: set<ValidatorID>)
    ensures Weight(validators, ids) <= Sum(validators)
  {
    if |validators| > 0 {
      WeightBound(validators[..|validators| - 1], ids - {validators[|validators| - 1].id});
    }
  }

  lemma {:induction false} WeightUnion(validators: seq<Validator>, a: set<ValidatorID>, b: set<ValidatorID>)
    ensures Weight(validators, a) + Weight(validators, b) == Weight(validators, a + b) + Weight(validators, a * b)
  {
    if |validators| > 0 {
      var id := validators[|validators| - 1].id;
      WeightUnion(validators[..|validators| - 1], a - {id}, b - {id});
      assert (a - {id}) + (b - {id}) == a + b - {id} && (a - {id}) * (b - {id}) == a * b - {id};
    }
  }

  lemma {:induction false} WeightMonotone(validators: seq<Validator>, a: set<ValidatorID>, b: set<ValidatorID>)
    requires a <= b
    ensures Weight(validators, a) <= Weight(validators, b)
  {
    if |validators| > 0 {
      var id := validators[|validators| - 1].id;
      WeightMonotone(validators[..|validators| - 1], a - {id}, b - {id});
    }
  }

  lemma {:induction false} WeightNone(validators: seq<Validator>)
    ensures Weight(validators, {}) == 0
  {
    if |validators| > 0 {
      assert {} - {validators[|validators| - 1].id} == {};
      WeightNone(validators[..|validators| - 1]);
    }
  }

  lemma {:induction false} WeightAdd(validators: seq<Validator>, ids: set<ValidatorID>, id: ValidatorID)
    requires id !in ids && id in ByID(validators)
    ensures Weight(validators, ids + {id}) == Weight(validators, ids) + ByID(validators)[id].votingPower
  {
    var init, last := validators[..|validators| - 1], validators[|validators| - 1];
    if last.id == id {
      assert ids + {id} - {id} == ids - {id} == ids;
    } else {
      WeightAdd(init, ids - {last.id}, id);
      assert ids + {id} - {last.id} == ids - {last.id} + {id};
    }
  }

  /** The powers found under a list of ids, added up. */
  function PowerOf(byID: map<ValidatorID, Validator>, ids: seq<ValidatorID>): nat
    requires forall i | 0 <= i < |ids| :: ids[i] in byID
  {
    if |ids| == 0 then 0 else PowerOf(byID, ids[..|ids| - 1]) + byID[ids[|ids| - 1]].votingPower
  }

  lemma {:induction false} PowerIsWeight(validators: seq<Validator>, ids: seq<ValidatorID>)
    requires Distinct(ids) && forall i | 0 <= i < |ids| :: ids[i] in ByID(validators)
    ensures PowerOf(ByID(validators), ids) == Weight(validators, Elements(ids))
  {
    hide Weight, ByID;
    if |ids| == 0 {
      assert Elements(ids) == {};
      WeightNone(validators);
    } else {
      var init, last := ids[..|ids| - 1], ids[|ids| - 1];
      PowerIsWeight(validators, init);
      assert Elements(ids) == Elements(init) + {last};
      assert last !in Elements(init);
      WeightAdd(validators, Elements(init), last);
    }
  }

  // ---------------------------------------------------------------------- quorums intersect

  /** What two quorums share, for every set: the more, the less power was cut off from the total. */
  lemma QuorumOverlap(snapshot: Snapshot, a: set<ValidatorID>, b: set<ValidatorID>)
    requires ValidSet(snapshot)
    requires HasQuorum(Weight(snapshot.validators, a), snapshot.total) && HasQuorum(Weight(snapshot.validators, b), snapshot.total)
    ensures Weight(snapshot.validators, a * b) + Sum(snapshot.validators) >= 2 * TwoThirdsThreshold(snapshot.total)
  {
    hide Weight;
    WeightUnion(snapshot.validators, a, b);
    WeightBound(snapshot.validators, a + b);
  }

  /** Two quorums share at least a third of the total power, unless the total was cut off at 64 bits. */
  lemma QuorumsIntersect(snapshot: Snapshot, a: set<ValidatorID>, b: set<ValidatorID>)
    requires ValidSet(snapshot) && Sum(snapshot.validators) <= MAX_UINT64
    requires HasQuorum(Weight(snapshot.validators, a), snapshot.total) && HasQuorum(Weight(snapshot.validators, b), snapshot.total)
    ensures 3 * Weight(snapshot.validators, a * b) >= snapshot.total > 0
  {
    hide Weight;
    QuorumOverlap(snapshot, a, b);
  }

  /** The powers are too few for two quorums side by side. */
  predicate RoomForOneQuorum(sum: nat) {
    sum < 2 * TwoThirdsThreshold(if sum > MAX_UINT64 then MAX_UINT64 else sum)
  }

  /** This is so for every total that was not cut off, and beyond that for sums up to a third more. */
  lemma RoomForOne(sum: nat)
    ensures 0 < sum <= MAX_UINT64 ==> RoomForOneQuorum(sum)
    ensures sum > MAX_UINT64 ==> (RoomForOneQuorum(sum) <==> sum < MAX_UINT64 / 3 * 4)
  {
    assert MAX_UINT64 % 3 == 0;
  }

  lemma DisjointQuorums(snapshot: Snapshot, a: set<ValidatorID>, b: set<ValidatorID>)
    requires ValidSet(snapshot) && RoomForOneQuorum(Sum(snapshot.validators)) && a !! b
    ensures !(HasQuorum(Weight(snapshot.validators, a), snapshot.total) && HasQuorum(Weight(snapshot.validators, b), snapshot.total))
  {
    hide Weight;
    if HasQuorum(Weight(snapshot.validators, a), snapshot.total) && HasQuorum(Weight(snapshot.validators, b), snapshot.total) {
      QuorumOverlap(snapshot, a, b);
      assert a * b == {};
      WeightNone(snapshot.validators);
    }
  }

  // -------------------------------------------------------------- the conditions are exact

  const FIRST: ValidatorID := [1]
  const SECOND: ValidatorID := [2]
  const BOTH: ValidatorID := [3]

  /** Validators of a given total power under an id of their own. */
  ghost function Filler(power: nat): (list: seq<Validator>)
    ensures Powers(list) && Sum(list) == power
    decreases power
  {
    if power == 0 then []
    else
      var part := if power > MAX_UINT64 then MAX_UINT64 else power;
      var rest := Filler(power - part);
      assert (rest + [Validator([], [], part)])[..|rest|] == rest;
      rest + [Validator([], [], part)]
  }

  /** Three validators on top of others. */
  ghost function Three(others: nat, first: nat, second: nat, both: nat): seq<Validator> {
    Filler(others) + [Validator(FIRST, [], first), Validator(SECOND, [], second), Validator(BOTH, [], both)]
  }

  lemma ThreeWeights(others: nat, first: nat, second: nat, both: nat)
    requires first <= MAX_UINT64 && second <= MAX_UINT64 && both <= MAX_UINT64
    ensures var list := Three(others, first, second, both);
      Powers(list) && Sum(list) == others + first + second + both && Weight(list, {BOTH}) == both &&
      Weight(list, {FIRST, BOTH}) == first + both && Weight(list, {SECOND, BOTH}) == second + both
  {
    hide Weight, Filler;
    var list, filler := Three(others, first, second, both), Filler(others);
    var one, two := filler + [Validator(FIRST, [], first)], filler + [Validator(FIRST, [], first), Validator(SECOND, [], second)];
    assert list[..|list| - 1] == two && two[..|two| - 1] == one && one[..|one| - 1] == filler;
    assert FIRST[0] != SECOND[0] && FIRST[0] != BOTH[0] && SECOND[0] != BOTH[0];
    assert Sum(one) == others + first && FIRST in ByID(one) && ByID(one)[FIRST].votingPower == first;
    assert Sum(two) == Sum(one) + second && ByID(two) == ByID(one)[SECOND := Validator(SECOND, [], second)];
    assert Sum(list) == Sum(two) + both && ByID(list) == ByID(two)[BOTH := Validator(BOTH, [], both)];
    WeightNone(list);
    WeightAdd(list, {}, BOTH);
    WeightAdd(list, {BOTH}, FIRST);
    WeightAdd(list, {BOTH}, SECOND);
    assert {} + {BOTH} == {BOTH} && {BOTH} + {FIRST} == {FIRST, BOTH} && {BOTH} + {SECOND} == {SECOND, BOTH};
  }

  /** For every sum that is cut off there is a set in which two quorums share less than a third of the total. */
  lemma SaturatedOverlap(sum: nat, hash: Hash) returns (snapshot: Snapshot)
    requires sum > MAX_UINT64
    ensures ValidSet(snapshot) && Sum(snapshot.validators) == sum
    ensures HasQuorum(Weight(snapshot.validators, {FIRST, BOTH}), snapshot.total) &&
            HasQuorum(Weight(snapshot.validators, {SECOND, BOTH}), snapshot.total)
    ensures 3 * Weight(snapshot.validators, {FIRST, BOTH} * {SECOND, BOTH}) < snapshot.total
  {
    hide Weight, Filler, ByID;
    var third := MAX_UINT64 / 3;
    var list := Three(sum - MAX_UINT64 - 1, third + 1, third + 1, third - 1);
    ThreeWeights(sum - MAX_UINT64 - 1, third + 1, third + 1, third - 1);
    snapshot := Snapshot(list, ByID(list), MAX_UINT64, hash);
    assert FIRST[0] != SECOND[0];
    assert {FIRST, BOTH} * {SECOND, BOTH} == {BOTH};
  }

  /** For every sum with room for two quorums there is a set with two disjoint ones. */
  lemma SaturatedQuorums(sum: nat, hash: Hash) returns (snapshot: Snapshot)
    requires sum > 0 && !RoomForOneQuorum(sum)
    ensures ValidSet(snapshot) && Sum(snapshot.validators) == sum && FIRST != SECOND
    ensures HasQuorum(Weight(snapshot.validators, {FIRST}), snapshot.total) && HasQuorum(Weight(snapshot.validators, {SECOND}), snapshot.total)
  {
    hide Weight, Filler, ByID;
    RoomForOne(sum);
    var quorum := TwoThirdsThreshold(MAX_UINT64);
    var list := Three(sum - 2 * quorum, quorum, quorum, 0);
    ThreeWeights(sum - 2 * quorum, quorum, quorum, 0);
    WithoutBoth(list);
    snapshot := Snapshot(list, ByID(list), MAX_UINT64, hash);
    assert FIRST[0] != SECOND[0];
  }

  lemma WithoutBoth(list: seq<Validator>)
    requires Weight(list, {BOTH}) == 0
    ensures Weight(list, {FIRST}) == Weight(list, {FIRST, BOTH}) && Weight(list, {SECOND}) == Weight(list, {SECOND, BOTH})
  {
    hide Weight;
    WeightNone(list);
    assert FIRST[0] != BOTH[0] && SECOND[0] != BOTH[0];
    WeightUnion(list, {FIRST}, {BOTH});
    WeightUnion(list, {SECOND}, {BOTH});
    assert {FIRST} + {BOTH} == {FIRST, BOTH} && {FIRST} * {BOTH} == {};
    assert {SECOND} + {BOTH} == {SECOND, BOTH} && {SECOND} * {BOTH} == {};
  }
}
