/** Nonces: the batch check of a block against executing it one transaction at a time. */
module Ante {
  import opened Types
  import TxCodec

  type Address = Bytes

  /** The account sequences as stored: eight bytes each, if the value is well formed. */
  type Sequences = map<Address, Bytes>

  /** What the checks read of a transaction. Admissible sums up its signature, fee and gas checks,
      which do not depend on the accounts. */
  datatype Tx = Tx(signer: Address, nonce: Option<Uint64>, ethereum: bool, admissible: bool)

  /** Only transactions with a signer and a nonce have their nonce checked. */
  predicate Counted(tx: Tx) {
    tx.signer != [] && tx.nonce.Some?
  }

  function Wrap(n: nat): Uint64 {
    n % (MAX_UINT64 + 1)
  }

  /** The stored sequence: zero if there is none, an error if the value is not eight bytes long. */
  function Sequence(stored: Sequences, signer: Address): Option<Uint64> {
    if signer !in stored then Some(0)
    else if |stored[signer]| != 8 then None
    else
      Decoded(stored[signer]);
      Some(TxCodec.FromBigEndian(stored[signer]))
  }

  lemma Decoded(value: Bytes)
    requires |value| == 8
    ensures TxCodec.FromBigEndian(value) <= MAX_UINT64
  {
    TxCodec.BigEndianInverts(value);
    TxCodec.Uint64Range(TxCodec.FromBigEndian(value));
  }

  /** A raw Ethereum transaction carries the stored sequence, a native one its successor. */
  function Expected(stored: Sequences, tx: Tx): Option<Uint64> {
    var sequence := Sequence(stored, tx.signer);
    if sequence.None? then None else Some(if tx.ethereum then sequence.value else Wrap(sequence.value + 1))
  }

  predicate BeforeOk(stored: Sequences, tx: Tx) {
    tx.admissible && (Counted(tx) ==> Expected(stored, tx) == tx.nonce)
  }

  /** An Ethereum nonce at the end of the range has no successor to store. */
  predicate AfterOk(tx: Tx) {
    Counted(tx) && tx.ethereum ==> tx.nonce.value < MAX_UINT64
  }

  function After(stored: Sequences, tx: Tx): Sequences
    requires AfterOk(tx)
  {
    if !Counted(tx) then stored
    else stored[tx.signer := TxCodec.Uint64(if tx.ethereum then tx.nonce.value + 1 else tx.nonce.value)]
  }

  lemma AfterSequence(stored: Sequences, tx: Tx, signer: Address)
    requires AfterOk(tx)
    ensures Sequence(After(stored, tx), signer) ==
      if Counted(tx) && signer == tx.signer then Some(if tx.ethereum then tx.nonce.value + 1 else tx.nonce.value)
      else Sequence(stored, signer)
  {
    hide TxCodec.FromBigEndian, TxCodec.BigEndian;
    if Counted(tx) && signer == tx.signer {
      var n := if tx.ethereum then tx.nonce.value + 1 else tx.nonce.value;
      TxCodec.Uint64Range(n);
      TxCodec.FromBigEndianInverts(n, 8);
    }
  }

  // ------------------------------------------------------------------- one after the other

  /** Every check and every update of a sequence succeeds when the transactions are executed in order. */
  predicate SequentialOk(stored: Sequences, txs: seq<Tx>)
    decreases |txs|
  {
    |txs| == 0 || (BeforeOk(stored, txs[0]) && AfterOk(txs[0]) && SequentialOk(After(stored, txs[0]), txs[1..]))
  }

  /** The sequences that execution is to store exist. */
  predicate Storable(txs: seq<Tx>) {
    forall i | 0 <= i < |txs| :: AfterOk(txs[i])
  }

  /** The account sequences after executing the transactions. */
  function AfterAll(stored: Sequences, txs: seq<Tx>): Sequences
    decreases |txs|
  {
    if |txs| == 0 || !AfterOk(txs[0]) then stored else AfterAll(After(stored, txs[0]), txs[1..])
  }

  // --------------------------------------------------------------------------- all at once

  /** The nonce that the check of a block expects of a transaction. */
  function NextExpected(stored: Sequences, next: map<Address, Uint64>, tx: Tx): Option<Uint64> {
    if tx.signer in next then Some(next[tx.signer]) else Expected(stored, tx)
  }

  /** The check of a block, which keeps the next nonce of each signer it has seen. */
  predicate BlockOk(stored: Sequences, next: map<Address, Uint64>, txs: seq<Tx>)
    decreases |txs|
  {
    |txs| == 0 ||
    (txs[0].admissible &&
     if Counted(txs[0])
     then NextExpected(stored, next, txs[0]) == txs[0].nonce &&
          BlockOk(stored, next[txs[0].signer := Wrap(txs[0].nonce.value + 1)], txs[1..])
     else BlockOk(stored, next, txs[1..]))
  }

  method CheckBlock(stored: Sequences, txs: seq<Tx>) returns (ok: bool)
    ensures ok <==> BlockOk(stored, map[], txs)
  {
    var next: map<Address, Uint64> := map[];
    for i := 0 to |txs|
      invariant BlockOk(stored, map[], txs) <==> BlockOk(stored, next, txs[i..])
    {
      var tx := txs[i];
      assert txs[i..][0] == tx && txs[i..][1..] == txs[i + 1..];
      if !tx.admissible { return false; }
      if !Counted(tx) { continue; }
      var expected := NextExpected(stored, next, tx);
      if expected.None? || tx.nonce.value != expected.value { return false; }
      var nonce: nat := expected.value;
      next := next[tx.signer := Wrap(nonce + 1)];
    }
    return true;
  }

  // ------------------------------------------------------------------------------ the two agree

  /** No signer sends both kinds of transactions. */
  predicate Unmixed(txs: seq<Tx>) {
    forall i, j | 0 <= i < j < |txs| && Counted(txs[i]) && Counted(txs[j]) && txs[i].signer == txs[j].signer ::
      txs[i].ethereum == txs[j].ethereum
  }

  /** What both checks know after some transactions: the next nonce of every signer seen so far is the
      one that execution expects of the signer's kind; nothing has changed for the others. */
  ghost predicate Related(stored: Sequences, next: map<Address, Uint64>, now: Sequences, kinds: map<Address, bool>) {
    next.Keys == kinds.Keys &&
    (forall s | s in next ::
      Sequence(now, s).Some? && next[s] == if kinds[s] then Sequence(now, s).value else Wrap(Sequence(now, s).value + 1)) &&
    forall s | s !in next :: Sequence(now, s) == Sequence(stored, s)
  }

  /** The transactions to come keep to the kinds of the signers seen so far. */
  ghost predicate Keeps(kinds: map<Address, bool>, txs: seq<Tx>) {
    forall i | 0 <= i < |txs| && Counted(txs[i]) && txs[i].signer in kinds :: txs[i].ethereum == kinds[txs[i].signer]
  }

  lemma SameExpectation(stored: Sequences, next: map<Address, Uint64>, now: Sequences, kinds: map<Address, bool>, tx: Tx)
    requires Related(stored, next, now, kinds) && Counted(tx)
    requires tx.signer in kinds ==> tx.ethereum == kinds[tx.signer]
    ensures NextExpected(stored, next, tx) == Expected(now, tx)
  {
    hide Sequence;
  }

  lemma RelatedStep(stored: Sequences, next: map<Address, Uint64>, now: Sequences, kinds: map<Address, bool>, tx: Tx)
    requires Related(stored, next, now, kinds) && Counted(tx) && AfterOk(tx)
    ensures Related(stored, next[tx.signer := Wrap(tx.nonce.value + 1)], After(now, tx), kinds[tx.signer := tx.ethereum])
  {
    hide Sequence, After;
    forall s ensures Sequence(After(now, tx), s) ==
      if s == tx.signer then Some(if tx.ethereum then tx.nonce.value + 1 else tx.nonce.value) else Sequence(now, s)
    {
      AfterSequence(now, tx, s);
    }
  }

  lemma {:induction false} ChecksAgree(stored: Sequences, next: map<Address, Uint64>, now: Sequences, kinds: map<Address, bool>, txs: seq<Tx>)
    requires Related(stored, next, now, kinds) && Keeps(kinds, txs) && Unmixed(txs)
    ensures SequentialOk(now, txs) <==> BlockOk(stored, next, txs) && Storable(txs)
    decreases |txs|
  {
    hide Related, Sequence, Expected, NextExpected, AfterOk;
    if |txs| > 0 {
      var tx, rest := txs[0], txs[1..];
      if !AfterOk(tx) { return; }
      StorableStep(txs);
      if Counted(tx) {
        SameExpectation(stored, next, now, kinds, tx);
        RelatedStep(stored, next, now, kinds, tx);
        assert Keeps(kinds[tx.signer := tx.ethereum], rest) by { KeepsStep(kinds, txs); }
        ChecksAgree(stored, next[tx.signer := Wrap(tx.nonce.value + 1)], After(now, tx), kinds[tx.signer := tx.ethereum], rest);
      } else {
        ChecksAgree(stored, next, now, kinds, rest);
      }
    }
  }

  lemma StorableStep(txs: seq<Tx>)
    requires |txs| > 0 && AfterOk(txs[0])
    ensures Storable(txs) <==> Storable(txs[1..])
  {
    if Storable(txs[1..]) {
      forall i | 1 <= i < |txs| ensures AfterOk(txs[i]) { assert txs[i] == txs[1..][i - 1]; }
    }
  }

  lemma KeepsStep(kinds: map<Address, bool>, txs: seq<Tx>)
    requires |txs| > 0 && Counted(txs[0]) && Keeps(kinds, txs) && Unmixed(txs)
    ensures Keeps(kinds[txs[0].signer := txs[0].ethereum], txs[1..])
  {
    forall i | 0 <= i < |txs| - 1 && Counted(txs[1..][i]) && txs[1..][i].signer in kinds[txs[0].signer := txs[0].ethereum]
      ensures txs[1..][i].ethereum == kinds[txs[0].signer := txs[0].ethereum][txs[1..][i].signer]
    {
      assert txs[1..][i] == txs[i + 1];
    }
  }

  /** Where no signer mixes the two kinds, execution accepts exactly the blocks that pass the check and
      whose sequences can be stored. */
  lemma CheckBlockAgrees(stored: Sequences, txs: seq<Tx>)
    requires Unmixed(txs)
    ensures SequentialOk(stored, txs) <==> BlockOk(stored, map[], txs) && Storable(txs)
  {
    ChecksAgree(stored, map[], stored, map[], txs);
  }

  // ------------------------------------------------------------------- and only where unmixed

  lemma OtherKind(stored: Sequences, next: map<Address, Uint64>, now: Sequences, kinds: map<Address, bool>, tx: Tx)
    requires Related(stored, next, now, kinds) && Counted(tx) && tx.signer in kinds
    requires NextExpected(stored, next, tx) == tx.nonce && Expected(now, tx) == tx.nonce
    ensures tx.ethereum == kinds[tx.signer]
  {
    hide Sequence;
    assert Wrap(Sequence(now, tx.signer).value + 1) != Sequence(now, tx.signer).value;
  }

  lemma {:induction false} BothAccept(stored: Sequences, next: map<Address, Uint64>, now: Sequences, kinds: map<Address, bool>, txs: seq<Tx>)
    requires Related(stored, next, now, kinds)
    requires BlockOk(stored, next, txs) && SequentialOk(now, txs)
    ensures Keeps(kinds, txs) && Unmixed(txs)
    decreases |txs|
  {
    hide Related, Sequence, Expected, NextExpected, AfterOk;
    if |txs| > 0 {
      var tx, rest := txs[0], txs[1..];
      if Counted(tx) {
        if tx.signer in kinds { OtherKind(stored, next, now, kinds, tx); }
        RelatedStep(stored, next, now, kinds, tx);
        BothAccept(stored, next[tx.signer := Wrap(tx.nonce.value + 1)], After(now, tx), kinds[tx.signer := tx.ethereum], rest);
        UnmixedStep(kinds, txs);
      } else {
        BothAccept(stored, next, now, kinds, rest);
        SkipFirst(kinds, txs);
      }
    }
  }

  lemma UnmixedStep(kinds: map<Address, bool>, txs: seq<Tx>)
    requires |txs| > 0 && Counted(txs[0]) && (txs[0].signer in kinds ==> txs[0].ethereum == kinds[txs[0].signer])
    requires Keeps(kinds[txs[0].signer := txs[0].ethereum], txs[1..]) && Unmixed(txs[1..])
    ensures Keeps(kinds, txs) && Unmixed(txs)
  {
    var rest := txs[1..];
    forall i | 1 <= i < |txs| ensures txs[i] == rest[i - 1] {}
  }

  lemma SkipFirst(kinds: map<Address, bool>, txs: seq<Tx>)
    requires |txs| > 0 && !Counted(txs[0]) && Keeps(kinds, txs[1..]) && Unmixed(txs[1..])
    ensures Keeps(kinds, txs) && Unmixed(txs)
  {
    var rest := txs[1..];
    forall i | 1 <= i < |txs| ensures txs[i] == rest[i - 1] {}
  }

  /** A block in which a signer mixes the two kinds is never accepted by both. */
  lemma MixedNeverBoth(stored: Sequences, txs: seq<Tx>)
    requires !Unmixed(txs)
    ensures !(BlockOk(stored, map[], txs) && SequentialOk(stored, txs))
  {
    hide BlockOk, SequentialOk, Unmixed;
    if BlockOk(stored, map[], txs) && SequentialOk(stored, txs) { BothAccept(stored, map[], stored, map[], txs); }
  }

  /** So a block that passes the check is executed exactly if no signer mixes the two kinds and all sequences
      can be stored, and a block that is executed passes the check exactly if no signer mixes them. */
  lemma CheckAgainstExecution(stored: Sequences, txs: seq<Tx>)
    ensures BlockOk(stored, map[], txs) ==> (SequentialOk(stored, txs) <==> Unmixed(txs) && Storable(txs))
    ensures SequentialOk(stored, txs) ==> (BlockOk(stored, map[], txs) <==> Unmixed(txs))
  {
    hide BlockOk, SequentialOk, Unmixed;
    if Unmixed(txs) { CheckBlockAgrees(stored, txs); } else { MixedNeverBoth(stored, txs); }
  }

  /** The check of a block can accept what execution refuses. */
  lemma MixedBlockPassesCheck(signer: Address)
    requires signer != []
    ensures var txs := [Tx(signer, Some(1), false, true), Tx(signer, Some(2), true, true)];
      Storable(txs) && BlockOk(map[], map[], txs) && !SequentialOk(map[], txs)
  {
    hide Sequence, After;
    var txs := [Tx(signer, Some(1), false, true), Tx(signer, Some(2), true, true)];
    assert txs[1..] == [txs[1]] && txs[1..][1..] == [];
    assert Sequence(map[], signer) == Some(0) by { NoSequence(signer); }
    assert BlockOk(map[], map[signer := 2], txs[1..]);
    AfterSequence(map[], txs[0], signer);
    assert !BeforeOk(After(map[], txs[0]), txs[1]);
  }

  /** And execution can accept what the check of a block refuses. */
  lemma MixedBlockExecutes(signer: Address)
    requires signer != []
    ensures var txs := [Tx(signer, Some(1), false, true), Tx(signer, Some(1), true, true)];
      SequentialOk(map[], txs) && !BlockOk(map[], map[], txs)
  {
    hide Sequence, After;
    var txs := [Tx(signer, Some(1), false, true), Tx(signer, Some(1), true, true)];
    assert txs[1..] == [txs[1]] && txs[1..][1..] == [];
    assert Sequence(map[], signer) == Some(0) by { NoSequence(signer); }
    AfterSequence(map[], txs[0], signer);
    assert SequentialOk(After(map[], txs[0]), txs[1..]);
    assert !BlockOk(map[], map[signer := 2], txs[1..]);
  }

  lemma NoSequence(signer: Address)
    ensures Sequence(map[], signer) == Some(0)
  {}

  // -------------------------------------------------------------------------- the account store

  class AccountKeeper {
    var stored: Sequences

    constructor (stored: Sequences)
      ensures this.stored == stored
    {
      this.stored := stored;
    }

    method CheckTx(tx: Tx) returns (ok: bool)
      ensures ok <==> BeforeOk(stored, tx)
    {
      if !tx.admissible { return false; }
      if !Counted(tx) { return true; }
      var expected := Expected(stored, tx);
      return expected.Some? && tx.nonce.value == expected.value;
    }

    /** Stores the nonce of a native transaction, and the successor of an Ethereum nonce. */
    method AfterTx(tx: Tx) returns (ok: bool)
      modifies this
      ensures ok <==> AfterOk(tx)
      ensures stored == if ok then After(old(stored), tx) else old(stored)
    {
      if !Counted(tx) { return true; }
      var next := tx.nonce.value;
      if tx.ethereum {
        if tx.nonce.value == MAX_UINT64 { return false; }
        next := tx.nonce.value + 1;
      }
      stored := stored[tx.signer := TxCodec.Uint64(next)];
      return true;
    }

    /** Executes a block in order, up to the first transaction that is refused. */
    method Execute(txs: seq<Tx>) returns (ok: bool)
      modifies this
      ensures ok <==> SequentialOk(old(stored), txs)
      ensures ok ==> stored == AfterAll(old(stored), txs)
      ensures Unmixed(txs) ==> (ok <==> BlockOk(old(stored), map[], txs) && Storable(txs))
    {
      hide After, BeforeOk, AfterOk, BlockOk, Unmixed, Storable;
      if Unmixed(txs) { CheckBlockAgrees(stored, txs); }
      for i := 0 to |txs|
        invariant SequentialOk(old(stored), txs) <==> SequentialOk(stored, txs[i..])
        invariant AfterAll(old(stored), txs) == AfterAll(stored, txs[i..])
      {
        assert txs[i..][0] == txs[i] && txs[i..][1..] == txs[i + 1..];
        var before := CheckTx(txs[i]);
        if !before { return false; }
        var after := AfterTx(txs[i]);
        if !after { return false; }
      }
      return true;
    }
  }
}
