/** The life of a packet on its source chain: sent, then acknowledged or timed out. */
module Ibc {
  import opened Types
  import opened Sorting
  import opened IbcKeys

  datatype Packet = Packet(
    sequence: Uint64, sourcePort: Bytes, sourceChannel: Bytes, destinationPort: Bytes, destinationChannel: Bytes,
    data: Bytes, timeoutHeight: Uint64)

  datatype Receipt = Receipt(
    packet: Packet, commitHeight: Uint64, acknowledged: bool, ack: Bytes, ackHeight: Uint64, timedOut: bool, timeoutAt: Uint64)

  /** What the store holds under a key, decoded. */
  datatype Value = ReceiptValue(receipt: Receipt) | NumberValue(number: nat) | KeyValue(key: Bytes) | RecordValue(record: Bytes)

  type Store = map<Bytes, Value>

  datatype Error =
    | InvalidPacket | InvalidPath | AlreadyExists | UnexpectedSequence | InvalidAck | NotFound | Acked | TimedOut | NotTimedOut

  /** Packets are filed by port and channel joined with a slash. */
  function Path(packet: Packet): Bytes {
    packet.sourcePort + [SLASH] + packet.sourceChannel
  }

  /** For ports without slashes a path fixes port and channel. */
  lemma PathFixes(a: Packet, b: Packet)
    requires SLASH !in a.sourcePort && SLASH !in b.sourcePort && Path(a) == Path(b)
    ensures a.sourcePort == b.sourcePort && a.sourceChannel == b.sourceChannel
  {
    FirstSlash(a);
    FirstSlash(b);
    assert |a.sourcePort| == |b.sourcePort|;
    assert Path(a)[..|a.sourcePort|] == a.sourcePort && Path(b)[..|b.sourcePort|] == b.sourcePort;
    assert Path(a)[|a.sourcePort| + 1..] == a.sourceChannel && Path(b)[|b.sourcePort| + 1..] == b.sourceChannel;
  }

  lemma FirstSlash(packet: Packet)
    requires SLASH !in packet.sourcePort
    ensures var path, k := Path(packet), |packet.sourcePort|; k < |path| && path[k] == SLASH && forall i | 0 <= i < k :: path[i] != SLASH
  {
    forall i | 0 <= i < |packet.sourcePort| ensures Path(packet)[i] != SLASH { assert Path(packet)[i] == packet.sourcePort[i]; }
  }

  predicate ValidPacket(packet: Packet) {
    packet.sequence != 0 && packet.sourcePort != [] && packet.sourceChannel != [] && packet.destinationPort != [] &&
    packet.destinationChannel != [] && packet.data != []
  }

  function Find(store: Store, key: Bytes): Option<Value> {
    if key in store then Some(store[key]) else None
  }

  // -------------------------------------------------------------------------- the invariant

  predicate Indexed(receipt: Receipt) {
    !receipt.acknowledged && !receipt.timedOut && receipt.packet.timeoutHeight > 0
  }

  /** The receipt has a timeout, and it has come. */
  predicate Reached(receipt: Receipt, height: Uint64) {
    0 < receipt.packet.timeoutHeight <= height
  }

  /** How many packets have been sent on a path. */
  function Sent(sent: map<Bytes, nat>, path: Bytes): nat {
    if path in sent then sent[path] else 0
  }

  /** The receipt of a packet that was sent: never both acknowledged and timed out. */
  ghost predicate IsReceipt(value: Option<Value>, path: Bytes, sequence: nat) {
    value.Some? && value.value.ReceiptValue? &&
    var receipt := value.value.receipt;
    Path(receipt.packet) == path && receipt.packet.sequence == sequence && !(receipt.acknowledged && receipt.timedOut)
  }

  /** Receipts exist for exactly the sequences sent so far. */
  ghost predicate ReceiptsOk(store: Store, sent: map<Bytes, nat>) {
    forall path, sequence: nat ::
      if 1 <= sequence <= Sent(sent, path) then IsReceipt(Find(store, PacketKey(path, sequence)), path, sequence)
      else Find(store, PacketKey(path, sequence)).None?
  }

  /** The stored next sequence, which wraps to zero after the last 64-bit number. */
  ghost predicate SequencesOk(store: Store, sent: map<Bytes, nat>) {
    forall path ::
      Sent(sent, path) <= MAX_UINT64 &&
      Find(store, SequenceKey(path)) ==
        if Sent(sent, path) == 0 then None else Some(NumberValue((Sent(sent, path) + 1) % (MAX_UINT64 + 1)))
  }

  /** The key that the receipt of a packet has in the timeout index. */
  function IndexKey(receipt: Receipt): Bytes {
    TimeoutKey(receipt.packet.timeoutHeight, Path(receipt.packet), receipt.packet.sequence)
  }

  /** The receipt is in the store, is open, and has a timeout. */
  ghost predicate OpenIn(store: Store, receipt: Receipt) {
    Indexed(receipt) && Find(store, PacketKey(Path(receipt.packet), receipt.packet.sequence)) == Some(ReceiptValue(receipt))
  }

  /** The timeout index holds exactly the open receipts with a timeout. */
  ghost predicate IndexOk(store: Store) {
    (forall receipt | OpenIn(store, receipt) :: IndexKey(receipt) in store) &&
    forall key | key in store && TIMEOUTS <= key :: exists receipt :: OpenIn(store, receipt) && key == IndexKey(receipt)
  }

  ghost predicate Inv(store: Store, sent: map<Bytes, nat>) {
    ReceiptsOk(store, sent) && SequencesOk(store, sent) && IndexOk(store)
  }

  // ----------------------------------------------------------------------------- key kinds

  lemma NotIndexKeys(p: Bytes, n: nat, r: Bytes)
    ensures !(TIMEOUTS <= PacketKey(p, n)) && !(TIMEOUTS <= SequenceKey(r))
  {
    hide Decimal;
    assert PacketKey(p, n)[6] != TIMEOUTS[6];
    assert SequenceKey(r)[0] != TIMEOUTS[0];
  }

  lemma IndexKeyPrefix(h: nat, p: Bytes, n: nat)
    ensures TIMEOUTS <= TimeoutKey(h, p, n)
  {}

  lemma IndexKeysDiffer(a: Receipt, b: Receipt)
    requires IndexKey(a) == IndexKey(b)
    ensures Path(a.packet) == Path(b.packet) && a.packet.sequence == b.packet.sequence
  {
    hide TimeoutKey;
    TimeoutKeyInjective(a.packet.timeoutHeight, Path(a.packet), a.packet.sequence,
                        b.packet.timeoutHeight, Path(b.packet), b.packet.sequence);
  }

  // ------------------------------------------------------------------------------- sending

  /** The store after sending a packet. */
  function AfterSend(store: Store, packet: Packet, height: Uint64): Store {
    var key := PacketKey(Path(packet), packet.sequence);
    var receipt := Receipt(packet, height, false, [], 0, false, 0);
    var basic := store[key := ReceiptValue(receipt)]
                      [SequenceKey(Path(packet)) := NumberValue((packet.sequence + 1) % (MAX_UINT64 + 1))];
    if packet.timeoutHeight > 0 then basic[IndexKey(receipt) := KeyValue(key)] else basic
  }

  lemma SendLookups(store: Store, packet: Packet, height: Uint64, p: Bytes, n: nat)
    ensures Find(AfterSend(store, packet, height), PacketKey(p, n)) ==
      if (p, n) == (Path(packet), packet.sequence) then Some(ReceiptValue(Receipt(packet, height, false, [], 0, false, 0)))
      else Find(store, PacketKey(p, n))
    ensures Find(AfterSend(store, packet, height), SequenceKey(p)) ==
      if p == Path(packet) then Some(NumberValue((packet.sequence + 1) % (MAX_UINT64 + 1))) else Find(store, SequenceKey(p))
  {
    hide PacketKey, SequenceKey, TimeoutKey;
    var path, seq_ := Path(packet), packet.sequence;
    KindsDiffer(packet.timeoutHeight, p, n, path, seq_, path);
    KindsDiffer(packet.timeoutHeight, path, seq_, path, seq_, p);
    if PacketKey(p, n) == PacketKey(path, seq_) { PacketKeyInjective(p, n, path, seq_); }
    if SequenceKey(p) == SequenceKey(path) { SequenceKeyInjective(p, path); }
  }

  lemma SendKeepsReceipts(store: Store, sent: map<Bytes, nat>, packet: Packet, height: Uint64)
    requires ReceiptsOk(store, sent) && SequencesOk(store, sent) && packet.sequence == Sent(sent, Path(packet)) + 1
    ensures var next := AfterSend(store, packet, height); var more := sent[Path(packet) := packet.sequence];
      ReceiptsOk(next, more) && SequencesOk(next, more)
  {
    hide AfterSend, PacketKey, SequenceKey;
    var next, more := AfterSend(store, packet, height), sent[Path(packet) := packet.sequence];
    forall path, sequence: nat
      ensures if 1 <= sequence <= Sent(more, path) then IsReceipt(Find(next, PacketKey(path, sequence)), path, sequence)
              else Find(next, PacketKey(path, sequence)).None?
    {
      SendLookups(store, packet, height, path, sequence);
      assert if 1 <= sequence <= Sent(sent, path) then IsReceipt(Find(store, PacketKey(path, sequence)), path, sequence)
             else Find(store, PacketKey(path, sequence)).None?;
    }
    forall path
      ensures Sent(more, path) <= MAX_UINT64 && Find(next, SequenceKey(path)) ==
        if Sent(more, path) == 0 then None else Some(NumberValue((Sent(more, path) + 1) % (MAX_UINT64 + 1)))
    {
      SendLookups(store, packet, height, path, 0);
    }
  }

  lemma SendKeepsIndex(store: Store, sent: map<Bytes, nat>, packet: Packet, height: Uint64)
    requires ReceiptsOk(store, sent) && IndexOk(store) && packet.sequence == Sent(sent, Path(packet)) + 1
    ensures IndexOk(AfterSend(store, packet, height))
  {
    hide PacketKey, SequenceKey, TimeoutKey;
    var next := AfterSend(store, packet, height);
    var fresh_ := Receipt(packet, height, false, [], 0, false, 0);
    var path, seq_ := Path(packet), packet.sequence;
    assert Find(store, PacketKey(path, seq_)).None?;
    forall receipt ensures OpenIn(next, receipt) <==> (Indexed(receipt) && receipt == fresh_) || OpenIn(store, receipt) {
      SendLookups(store, packet, height, Path(receipt.packet), receipt.packet.sequence);
    }
    forall receipt | OpenIn(next, receipt) ensures IndexKey(receipt) in next {}
    NotIndexKeys(path, seq_, path);
    forall key | key in next && TIMEOUTS <= key ensures exists receipt :: OpenIn(next, receipt) && key == IndexKey(receipt) {
      if key == IndexKey(fresh_) && packet.timeoutHeight > 0 {
        assert OpenIn(next, fresh_);
      } else {
        var receipt :| OpenIn(store, receipt) && key == IndexKey(receipt);
        assert OpenIn(next, receipt);
      }
    }
  }

  // -------------------------------------------------------------------------------- closing

  /** The store after a receipt has been closed: replaced, and taken out of the index. */
  function AfterClose(store: Store, before: Receipt, after: Receipt): Store {
    store[PacketKey(Path(before.packet), before.packet.sequence) := ReceiptValue(after)] - {IndexKey(before)}
  }

  ghost predicate Closes(before: Receipt, after: Receipt) {
    after.packet == before.packet && !before.acknowledged && !before.timedOut && after.acknowledged != after.timedOut
  }

  lemma CloseLookups(store: Store, before: Receipt, after: Receipt, p: Bytes, n: nat)
    ensures Find(AfterClose(store, before, after), PacketKey(p, n)) ==
      if (p, n) == (Path(before.packet), before.packet.sequence) then Some(ReceiptValue(after)) else Find(store, PacketKey(p, n))
    ensures Find(AfterClose(store, before, after), SequenceKey(p)) == Find(store, SequenceKey(p))
  {
    hide PacketKey, SequenceKey, TimeoutKey;
    var path, seq_, h := Path(before.packet), before.packet.sequence, before.packet.timeoutHeight;
    KindsDiffer(h, p, n, path, seq_, p);
    KindsDiffer(h, path, seq_, path, seq_, p);
    if PacketKey(p, n) == PacketKey(path, seq_) { PacketKeyInjective(p, n, path, seq_); }
  }

  lemma CloseKeepsReceipts(store: Store, sent: map<Bytes, nat>, before: Receipt, after: Receipt)
    requires ReceiptsOk(store, sent) && SequencesOk(store, sent) && Closes(before, after)
    requires Find(store, PacketKey(Path(before.packet), before.packet.sequence)) == Some(ReceiptValue(before))
    ensures ReceiptsOk(AfterClose(store, before, after), sent) && SequencesOk(AfterClose(store, before, after), sent)
  {
    hide AfterClose, PacketKey, SequenceKey;
    var next := AfterClose(store, before, after);
    forall path, sequence: nat
      ensures if 1 <= sequence <= Sent(sent, path) then IsReceipt(Find(next, PacketKey(path, sequence)), path, sequence)
              else Find(next, PacketKey(path, sequence)).None?
    {
      CloseLookups(store, before, after, path, sequence);
      assert if 1 <= sequence <= Sent(sent, path) then IsReceipt(Find(store, PacketKey(path, sequence)), path, sequence)
             else Find(store, PacketKey(path, sequence)).None?;
    }
    forall path
      ensures Sent(sent, path) <= MAX_UINT64 && Find(next, SequenceKey(path)) ==
        if Sent(sent, path) == 0 then None else Some(NumberValue((Sent(sent, path) + 1) % (MAX_UINT64 + 1)))
    {
      CloseLookups(store, before, after, path, 0);
    }
  }

  lemma CloseKeepsIndex(store: Store, before: Receipt, after: Receipt)
    requires IndexOk(store) && Closes(before, after)
    requires Find(store, PacketKey(Path(before.packet), before.packet.sequence)) == Some(ReceiptValue(before))
    ensures IndexOk(AfterClose(store, before, after))
  {
    hide PacketKey, SequenceKey, TimeoutKey;
    var next := AfterClose(store, before, after);
    var path, seq_ := Path(before.packet), before.packet.sequence;
    forall receipt ensures OpenIn(next, receipt) <==> OpenIn(store, receipt) && receipt != before {
      CloseLookups(store, before, after, Path(receipt.packet), receipt.packet.sequence);
    }
    NotIndexKeys(path, seq_, path);
    IndexKeyPrefix(before.packet.timeoutHeight, path, seq_);
    forall receipt | OpenIn(next, receipt) ensures IndexKey(receipt) in next {
      if IndexKey(receipt) == IndexKey(before) { IndexKeysDiffer(receipt, before); }
    }
    forall key | key in next && TIMEOUTS <= key ensures exists receipt :: OpenIn(next, receipt) && key == IndexKey(receipt) {
      var receipt :| OpenIn(store, receipt) && key == IndexKey(receipt);
      assert OpenIn(next, receipt);
    }
  }

  // -------------------------------------------------------------------------- other records

  /** Keys of client, connection and channel records: they share no prefix with the packet keys. */
  predicate IsRecordKey(key: Bytes) {
    |key| > 0 && key[0] == 0x63
  }

  lemma RecordKeepsInv(store: Store, sent: map<Bytes, nat>, key: Bytes, record: Bytes)
    requires Inv(store, sent) && IsRecordKey(key)
    ensures Inv(store[key := RecordValue(record)], sent)
  {
    hide Decimal, Fixed;
    var next := store[key := RecordValue(record)];
    forall p, n: nat ensures PacketKey(p, n) != key { assert PacketKey(p, n)[0] == 0x70; }
    forall p ensures SequenceKey(p) != key { assert SequenceKey(p)[0] == 0x6e; }
    RecordElsewhere(store, sent, key, next);
  }

  lemma RecordElsewhere(store: Store, sent: map<Bytes, nat>, key: Bytes, next: Store)
    requires Inv(store, sent) && key in next && next == store[key := next[key]] && IsRecordKey(key)
    requires forall p, n: nat :: PacketKey(p, n) != key
    requires forall p :: SequenceKey(p) != key
    ensures Inv(next, sent)
  {
    hide PacketKey, SequenceKey, TimeoutKey;
    forall path, sequence: nat ensures Find(next, PacketKey(path, sequence)) == Find(store, PacketKey(path, sequence)) {}
    forall path ensures Find(next, SequenceKey(path)) == Find(store, SequenceKey(path)) {}
    forall receipt ensures OpenIn(next, receipt) <==> OpenIn(store, receipt) {}
    forall receipt | OpenIn(next, receipt) ensures IndexKey(receipt) in next { assert OpenIn(store, receipt); }
    forall k | k in next && TIMEOUTS <= k ensures exists receipt :: OpenIn(next, receipt) && k == IndexKey(receipt) {
      assert k[0] == TIMEOUTS[0];
      var receipt :| OpenIn(store, receipt) && k == IndexKey(receipt);
      assert OpenIn(next, receipt);
    }
  }

  // ----------------------------------------------------------------------- timeouts of a height

  predicate PrefixIn(store: Store, prefix: Bytes, key: Bytes) {
    key in store && prefix <= key
  }

  /** The keys of the store under a prefix, in order. */
  method KeysWithPrefix(store: Store, prefix: Bytes) returns (keys: seq<Bytes>)
    ensures Sorted(keys, LexLeq) && Distinct(keys) && forall key :: key in keys <==> PrefixIn(store, prefix, key)
  {
    hide LexLeq, Sort;
    var listed: seq<Bytes> := [];
    var rest := store.Keys;
    while rest != {}
      invariant rest <= store.Keys && Distinct(listed)
      invariant forall key :: key in listed <==> PrefixIn(store, prefix, key) && key !in rest
      decreases |rest|
    {
      var key :| key in rest;
      rest := rest - {key};
      if prefix <= key { listed := listed + [key]; }
    }
    LexOrder();
    SortSpec(listed, LexLeq);
    SameMultiset(listed, Sort(listed, LexLeq));
    keys := Sort(listed, LexLeq);
  }

  /** The receipt behind an index key of a height. */
  lemma BehindKey(store: Store, height: Uint64, key: Bytes) returns (receipt: Receipt)
    requires IndexOk(store) && PrefixIn(store, TimeoutPrefix(height), key)
    ensures OpenIn(store, receipt) && key == IndexKey(receipt) && receipt.packet.timeoutHeight == height
  {
    hide PacketKey, Fixed;
    assert TIMEOUTS <= TimeoutPrefix(height);
    assert TIMEOUTS <= key;
    receipt :| OpenIn(store, receipt) && key == IndexKey(receipt);
    PrefixOfHeight(height, receipt.packet.timeoutHeight, Path(receipt.packet), receipt.packet.sequence);
  }

  lemma SameIndexKey(store: Store, a: Receipt, b: Receipt)
    requires OpenIn(store, a) && OpenIn(store, b) && IndexKey(a) == IndexKey(b)
    ensures a == b
  {
    hide PacketKey, TimeoutKey;
    IndexKeysDiffer(a, b);
  }

  /** The open receipts with this timeout height. */
  ghost predicate DueAt(store: Store, height: Uint64, receipt: Receipt) {
    OpenIn(store, receipt) && receipt.packet.timeoutHeight == height
  }

  ghost predicate Listed(store: Store, height: Uint64, receipts: seq<Receipt>, keys: seq<Bytes>) {
    |receipts| == |keys| &&
    forall i | 0 <= i < |keys| :: DueAt(store, height, receipts[i]) && IndexKey(receipts[i]) == keys[i]
  }

  /** The indexed receipts are all that a scan of the whole store would find. */
  lemma ListedIsScan(store: Store, height: Uint64, receipts: seq<Receipt>, keys: seq<Bytes>)
    requires IndexOk(store) && height > 0 && Listed(store, height, receipts, keys) && Distinct(keys)
    requires forall key :: key in keys <==> PrefixIn(store, TimeoutPrefix(height), key)
    ensures forall receipt :: receipt in receipts <==> DueAt(store, height, receipt)
    ensures Distinct(receipts)
  {
    hide PacketKey, TimeoutPrefix, Indexed;
    forall receipt | DueAt(store, height, receipt) ensures receipt in receipts {
      PrefixOfHeight(height, height, Path(receipt.packet), receipt.packet.sequence);
      assert IndexKey(receipt) in keys;
      var i :| 0 <= i < |keys| && keys[i] == IndexKey(receipt);
      SameIndexKey(store, receipt, receipts[i]);
    }
    forall receipt | receipt in receipts ensures DueAt(store, height, receipt) {
      var i :| 0 <= i < |receipts| && receipts[i] == receipt;
    }
    forall i, j | 0 <= i < j < |receipts| ensures receipts[i] != receipts[j] {
      assert IndexKey(receipts[i]) == keys[i] && IndexKey(receipts[j]) == keys[j];
    }
  }

  // ------------------------------------------------------------------------------ the keeper

  class Keeper {
    var store: Store
    /** How many packets have been sent on each path. */
    ghost var sent: map<Bytes, nat>

    ghost predicate Valid()
      reads this
    {
      Inv(store, sent)
    }

    constructor ()
      ensures Valid() && store == map[] && sent == map[]
    {
      store, sent := map[], map[];
    }

    /** Client, connection and channel records do not touch packets. */
    method SetRecord(key: Bytes, record: Bytes)
      requires Valid() && IsRecordKey(key)
      modifies this
      ensures Valid() && store == old(store)[key := RecordValue(record)] && sent == old(sent)
    {
      hide Inv;
      RecordKeepsInv(store, sent, key, record);
      store := store[key := RecordValue(record)];
    }

    method NextSequence(path: Bytes) returns (r: Option<nat>)
      requires Valid()
      ensures r == if Sent(sent, path) == MAX_UINT64 then None else Some(Sent(sent, path) + 1)
    {
      hide ReceiptsOk, IndexOk, SequenceKey;
      var value := Find(store, SequenceKey(path));
      if value.None? { return Some(1); }
      var number := value.value.number;
      return if number == 0 then None else Some(number);
    }

    /** Exactly the next packet of a path is accepted, if its channel, connection and client check out. */
    method SendPacket(height: Uint64, packet: Packet, pathOk: bool) returns (err: Option<Error>)
      requires Valid()
      modifies this
      ensures Valid()
      ensures err.None? <==> ValidPacket(packet) && pathOk && packet.sequence == Sent(old(sent), Path(packet)) + 1
      ensures err == Some(AlreadyExists) <==>
        ValidPacket(packet) && pathOk && packet.sequence <= Sent(old(sent), Path(packet))
      ensures err == Some(InvalidPacket) <==>
        packet.sequence == 0 || |packet.sourcePort| == 0 || |packet.sourceChannel| == 0 || |packet.destinationPort| == 0 ||
        |packet.destinationChannel| == 0 || |packet.data| == 0
      ensures err.None? ==>
        store == AfterSend(old(store), packet, height) && sent == old(sent)[Path(packet) := packet.sequence]
      ensures err.Some? ==> store == old(store) && sent == old(sent)
    {
      hide SequencesOk, IndexOk, PacketKey, SequenceKey;
      if !ValidPacket(packet) { return Some(InvalidPacket); }
      if !pathOk { return Some(InvalidPath); }
      var path := Path(packet);
      assert if 1 <= packet.sequence <= Sent(sent, path) then IsReceipt(Find(store, PacketKey(path, packet.sequence)), path, packet.sequence)
             else Find(store, PacketKey(path, packet.sequence)).None?;
      if PacketKey(path, packet.sequence) in store { return Some(AlreadyExists); }
      var expected := NextSequence(path);
      if expected.None? { return Some(UnexpectedSequence); }
      if packet.sequence != expected.value { return Some(UnexpectedSequence); }
      SendKeepsReceipts(store, sent, packet, height);
      SendKeepsIndex(store, sent, packet, height);
      store := AfterSend(store, packet, height);
      sent := sent[path := packet.sequence];
      return None;
    }

    /** The receipt that was stored for a packet. */
    ghost function ReceiptOf(packet: Packet): Option<Value>
      reads this
    {
      Find(store, PacketKey(Path(packet), packet.sequence))
    }

    /** An open receipt is acknowledged and leaves the timeout index. */
    method AcknowledgePacket(height: Uint64, packet: Packet, ack: Bytes, pathOk: bool) returns (err: Option<Error>)
      requires Valid()
      modifies this
      ensures Valid() && sent == old(sent)
      ensures err.None? <==>
        ValidPacket(packet) && pathOk && ack != [] && 1 <= packet.sequence <= Sent(sent, Path(packet)) && old(IsOpen(packet))
      ensures err.Some? ==> store == old(store)
      ensures err.None? ==> store == AfterClose(old(store), old(ReceiptOf(packet)).value.receipt,
        old(ReceiptOf(packet)).value.receipt.(acknowledged := true, ack := ack, ackHeight := height))
    {
      hide ReceiptsOk, SequencesOk, IndexOk, PacketKey, SequenceKey, TimeoutKey;
      if !ValidPacket(packet) { return Some(InvalidPacket); }
      if !pathOk { return Some(InvalidPath); }
      if ack == [] { return Some(InvalidAck); }
      var key := PacketKey(Path(packet), packet.sequence);
      Stored(store, sent, Path(packet), packet.sequence);
      if key !in store { return Some(NotFound); }
      var receipt := store[key].receipt;
      if receipt.timedOut { return Some(TimedOut); }
      if receipt.acknowledged { return Some(Acked); }
      var acked := receipt.(acknowledged := true, ack := ack, ackHeight := height);
      CloseKeepsReceipts(store, sent, receipt, acked);
      CloseKeepsIndex(store, receipt, acked);
      ghost var next := AfterClose(store, receipt, acked);
      NoIndexWithoutTimeout(store, receipt);
      store := store[key := ReceiptValue(acked)];
      if receipt.packet.timeoutHeight > 0 { store := store - {IndexKey(receipt)}; }
      assert store == next by { KeepOther(old(store), key, receipt); }
      return None;
    }

    /** The stored receipt is neither acknowledged nor timed out. */
    ghost predicate IsOpen(packet: Packet)
      reads this
    {
      ReceiptOf(packet).Some? && ReceiptOf(packet).value.ReceiptValue? &&
      !ReceiptOf(packet).value.receipt.acknowledged && !ReceiptOf(packet).value.receipt.timedOut
    }

    ghost predicate CanTimeOut(height: Uint64, packet: Packet, pathOk: bool)
      reads this
    {
      ValidPacket(packet) && pathOk && 0 < packet.timeoutHeight <= height &&
      1 <= packet.sequence <= Sent(sent, Path(packet)) && IsOpen(packet)
    }

    /** An open receipt is timed out, at a height not below the timeout that the caller's packet names,
        and leaves the timeout index. */
    method TimeoutPacket(height: Uint64, packet: Packet, pathOk: bool) returns (err: Option<Error>)
      requires Valid()
      modifies this
      ensures Valid() && sent == old(sent)
      ensures err.None? <==> old(CanTimeOut(height, packet, pathOk))
      ensures err.Some? ==> store == old(store)
      ensures err.None? ==> store == AfterClose(old(store), old(ReceiptOf(packet)).value.receipt,
        old(ReceiptOf(packet)).value.receipt.(timedOut := true, timeoutAt := height))
    {
      hide ReceiptsOk, SequencesOk, IndexOk, PacketKey, SequenceKey, TimeoutKey;
      if !ValidPacket(packet) { return Some(InvalidPacket); }
      if !pathOk { return Some(InvalidPath); }
      if packet.timeoutHeight == 0 || height < packet.timeoutHeight { return Some(NotTimedOut); }
      var key := PacketKey(Path(packet), packet.sequence);
      Stored(store, sent, Path(packet), packet.sequence);
      if key !in store { return Some(NotFound); }
      var receipt := store[key].receipt;
      if receipt.acknowledged { return Some(Acked); }
      if receipt.timedOut { return Some(TimedOut); }
      var timedOut := receipt.(timedOut := true, timeoutAt := height);
      CloseKeepsReceipts(store, sent, receipt, timedOut);
      CloseKeepsIndex(store, receipt, timedOut);
      store := store[key := ReceiptValue(timedOut)] - {IndexKey(receipt)};
      return None;
    }

    /** The timeout that counts is that of the caller's packet. An open receipt is never timed out before its own
        timeout exactly if the packet names none, or one that is not before it. */
    lemma TimelyExactly(packet: Packet)
      requires ValidPacket(packet) && 1 <= packet.sequence <= Sent(sent, Path(packet)) && IsOpen(packet)
      ensures (forall height: Uint64 | CanTimeOut(height, packet, true) :: Reached(ReceiptOf(packet).value.receipt, height)) <==>
        packet.timeoutHeight == 0 || 0 < ReceiptOf(packet).value.receipt.packet.timeoutHeight <= packet.timeoutHeight
    {
      hide PacketKey;
      var receipt := ReceiptOf(packet).value.receipt;
      if packet.timeoutHeight > 0 { assert CanTimeOut(packet.timeoutHeight, packet, true); }
    }

    /** The receipts due at a height are exactly the open receipts with that timeout, in key order. */
    method TimeoutReceiptsAt(height: Uint64) returns (r: Result<seq<Receipt>, Error>)
      requires Valid()
      ensures r.Ok? <==> height > 0
      ensures r.Ok? ==> Distinct(r.value) && forall receipt :: receipt in r.value <==> DueAt(store, height, receipt)
      ensures r.Ok? ==> forall i, j | 0 <= i < j < |r.value| :: LexLeq(IndexKey(r.value[i]), IndexKey(r.value[j]))
    {
      hide ReceiptsOk, SequencesOk, IndexOk, PacketKey, TimeoutPrefix, TimeoutKey, LexLeq;
      if height == 0 { return Err(InvalidPacket); }
      var keys := KeysWithPrefix(store, TimeoutPrefix(height));
      var receipts: seq<Receipt> := [];
      for i := 0 to |keys|
        invariant Listed(store, height, receipts, keys[..i])
      {
        assert keys[i] in keys;
        ghost var behind := BehindKey(store, height, keys[i]);
        var packetKey := PacketKeyOf(keys[i]);
        assert packetKey == PacketKey(Path(behind.packet), behind.packet.sequence) &&
               Find(store, packetKey) == Some(ReceiptValue(behind));
        var receipt := store[packetKey].receipt;
        assert keys[..i + 1] == keys[..i] + [keys[i]];
        if !receipt.acknowledged && !receipt.timedOut && receipt.packet.timeoutHeight == height {
          receipts := receipts + [receipt];
        }
      }
      assert keys[..|keys|] == keys;
      ListedIsScan(store, height, receipts, keys);
      return Ok(receipts);
    }
  }

  lemma Stored(store: Store, sent: map<Bytes, nat>, path: Bytes, sequence: nat)
    requires ReceiptsOk(store, sent)
    ensures PacketKey(path, sequence) in store <==> 1 <= sequence <= Sent(sent, path)
    ensures PacketKey(path, sequence) in store ==> IsReceipt(Find(store, PacketKey(path, sequence)), path, sequence)
  {
    hide PacketKey;
    assert if 1 <= sequence <= Sent(sent, path) then IsReceipt(Find(store, PacketKey(path, sequence)), path, sequence)
           else Find(store, PacketKey(path, sequence)).None?;
  }

  /** A receipt without a timeout has no place in the index. */
  lemma NoIndexWithoutTimeout(store: Store, receipt: Receipt)
    requires IndexOk(store)
    ensures receipt.packet.timeoutHeight == 0 ==> IndexKey(receipt) !in store
  {
    hide PacketKey, TimeoutKey;
    IndexKeyPrefix(receipt.packet.timeoutHeight, Path(receipt.packet), receipt.packet.sequence);
    if IndexKey(receipt) in store {
      var other :| OpenIn(store, other) && IndexKey(receipt) == IndexKey(other);
      TimeoutKeyInjective(receipt.packet.timeoutHeight, Path(receipt.packet), receipt.packet.sequence,
                          other.packet.timeoutHeight, Path(other.packet), other.packet.sequence);
    }
  }

  lemma KeepOther(store: Store, key: Bytes, receipt: Receipt)
    requires key == PacketKey(Path(receipt.packet), receipt.packet.sequence)
    ensures key != IndexKey(receipt)
  {
    hide PacketKey, TimeoutKey;
    KindsDiffer(receipt.packet.timeoutHeight, Path(receipt.packet), receipt.packet.sequence,
                Path(receipt.packet), receipt.packet.sequence, []);
  }

  /** So any first packet can be timed out at any height, before its timeout or without having one. */
  method TimedOutEarly(packet: Packet, height: Uint64) returns (keeper: Keeper)
    requires ValidPacket(packet) && packet.sequence == 1 && height > 0
    ensures keeper.Valid() && keeper.ReceiptOf(packet) == Some(ReceiptValue(Receipt(packet, height, false, [], 0, true, height)))
  {
    hide ReceiptsOk, SequencesOk, IndexOk, PacketKey, SequenceKey, TimeoutKey, AfterSend, AfterClose;
    keeper := new Keeper();
    var err := keeper.SendPacket(height, packet, true);
    SendLookups(map[], packet, height, Path(packet), 1);
    var early := packet.(timeoutHeight := height);
    ghost var sent := keeper.store;
    err := keeper.TimeoutPacket(height, early, true);
    var receipt := Receipt(packet, height, false, [], 0, false, 0);
    CloseLookups(sent, receipt, receipt.(timedOut := true, timeoutAt := height), Path(packet), 1);
  }
}
