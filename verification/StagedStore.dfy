/** The staged store: an overlay and a write log over a base store. */
module StagedStores {
  import opened Types
  import opened Sorting

  datatype Write = Write(namespace: Bytes, key: Bytes, value: Bytes, delete: bool)

  datatype Pair = Pair(namespace: Bytes, key: Bytes, value: Bytes)

  type Contents = map<(Bytes, Bytes), Bytes>

  // ---------------------------------------------------------------------------- staged keys

  const COLON: Byte := 0x3a

  /** The hexadecimal digits 0 to f. */
  function HexDigit(n: nat): Byte
    requires n < 16
  {
    [0x30, 0x31, 0x32, 0x33, 0x34, 0x35, 0x36, 0x37, 0x38, 0x39, 0x61, 0x62, 0x63, 0x64, 0x65, 0x66][n]
  }

  function Hex(key: Bytes): Bytes {
    if |key| == 0 then []
    else
      var last := key[|key| - 1] as nat;
      Hex(key[..|key| - 1]) + [HexDigit(last / 16), HexDigit(last % 16)]
  }

  function StagedKey(namespace: Bytes, key: Bytes): Bytes {
    namespace + [COLON] + Hex(key)
  }

  lemma HexDigitFacts(n: nat, m: nat)
    requires n < 16 && m < 16
    ensures HexDigit(n) != COLON && (HexDigit(n) == HexDigit(m) ==> n == m)
  {
    hide HexDigit;
    DigitsIncrease(n, m);
    DigitsIncrease(m, n);
    NoColon(n);
  }

  lemma NoColon(n: nat)
    requires n < 16
    ensures HexDigit(n) != COLON
  {}

  lemma {:induction false} DigitsIncrease(n: nat, m: nat)
    requires n < 16 && m < 16
    ensures n < m ==> HexDigit(n) < HexDigit(m)
  {
    hide HexDigit;
    if n < m {
      NextDigit(m - 1);
      if n < m - 1 { DigitsIncrease(n, m - 1); }
    }
  }

  lemma NextDigit(n: nat)
    requires n < 15
    ensures HexDigit(n) < HexDigit(n + 1)
  {}

  lemma {:induction false} HexFacts(key: Bytes)
    ensures |Hex(key)| == 2 * |key| && COLON !in Hex(key)
  {
    if |key| > 0 {
      HexFacts(key[..|key| - 1]);
      HexDigitFacts(key[|key| - 1] as nat / 16, key[|key| - 1] as nat % 16);
      HexDigitFacts(key[|key| - 1] as nat % 16, 0);
    }
  }

  lemma DigitsFix(x: nat, y: nat)
    requires x < 256 && y < 256 && HexDigit(x / 16) == HexDigit(y / 16) && HexDigit(x % 16) == HexDigit(y % 16)
    ensures x == y
  {
    hide HexDigit;
    HexDigitFacts(x / 16, y / 16);
    HexDigitFacts(x % 16, y % 16);
    Halves(x, y);
  }

  lemma Halves(x: nat, y: nat)
    requires x / 16 == y / 16 && x % 16 == y % 16
    ensures x == y
  {}

  lemma SameByte(a: Byte, b: Byte)
    requires a as nat == b as nat
    ensures a == b
  {}

  lemma HexOfLast(key: Bytes)
    requires |key| > 0
    ensures var last := |key| - 1;
      |Hex(key)| == 2 * last + 2 && Hex(key)[..2 * last] == Hex(key[..last]) &&
      Hex(key)[2 * last] == HexDigit(key[last] as nat / 16) && Hex(key)[2 * last + 1] == HexDigit(key[last] as nat % 16)
  {
    hide HexDigit;
    HexFacts(key);
    HexFacts(key[..|key| - 1]);
  }

  lemma {:induction false} HexInjective(a: Bytes, b: Bytes)
    requires Hex(a) == Hex(b)
    ensures a == b
  {
    hide Hex, HexDigit;
    HexFacts(a);
    HexFacts(b);
    if |a| > 0 {
      var last := |a| - 1;
      HexOfLast(a);
      HexOfLast(b);
      HexInjective(a[..last], b[..last]);
      DigitsFix(a[last] as nat, b[last] as nat);
      SameByte(a[last], b[last]);
      assert a == a[..last] + [a[last]] && b == b[..last] + [b[last]];
    }
  }

  /** The staged key tells namespace and key apart, even if the namespace holds colons. */
  lemma StagedKeyInjective(n: Bytes, k: Bytes, m: Bytes, l: Bytes)
    requires StagedKey(n, k) == StagedKey(m, l)
    ensures n == m && k == l
  {
    hide Hex;
    HexFacts(k);
    HexFacts(l);
    var s, t := StagedKey(n, k), StagedKey(m, l);
    assert s[|n|] == COLON && t[|m|] == COLON;
    forall i | |n| < i < |s| ensures s[i] != COLON { assert s[i] == Hex(k)[i - |n| - 1]; }
    forall i | |m| < i < |t| ensures t[i] != COLON { assert t[i] == Hex(l)[i - |m| - 1]; }
    assert |n| == |m|;
    assert s[..|n|] == n && t[..|m|] == m && s[|n| + 1..] == Hex(k) && t[|m| + 1..] == Hex(l);
    HexInjective(k, l);
  }

  // ----------------------------------------------------------------------- the simple store

  /** Writes applied one after the other to a plain map. */
  function Apply(base: Contents, writes: seq<Write>): Contents {
    if |writes| == 0 then base
    else
      var before, last := Apply(base, writes[..|writes| - 1]), writes[|writes| - 1];
      if last.delete then before - {(last.namespace, last.key)} else before[(last.namespace, last.key) := last.value]
  }

  /** The last write to a key. */
  function LastWrite(writes: seq<Write>, namespace: Bytes, key: Bytes): Option<Write> {
    if |writes| == 0 then None
    else
      var last := writes[|writes| - 1];
      if last.namespace == namespace && last.key == key then Some(last) else LastWrite(writes[..|writes| - 1], namespace, key)
  }

  function Lookup<K, V>(m: map<K, V>, k: K): Option<V> {
    if k in m then Some(m[k]) else None
  }

  /** What a key holds depends on the last write to it, or on the base. */
  lemma {:induction false} ApplyIsLastWrite(base: Contents, writes: seq<Write>, namespace: Bytes, key: Bytes)
    ensures Lookup(Apply(base, writes), (namespace, key)) ==
      match LastWrite(writes, namespace, key)
      case None => Lookup(base, (namespace, key))
      case Some(write) => if write.delete then None else Some(write.value)
  {
    if |writes| > 0 { ApplyIsLastWrite(base, writes[..|writes| - 1], namespace, key); }
  }

  lemma ApplyAppend(base: Contents, writes: seq<Write>, write: Write)
    ensures Apply(base, writes + [write]) ==
      if write.delete then Apply(base, writes) - {(write.namespace, write.key)}
      else Apply(base, writes)[(write.namespace, write.key) := write.value]
    ensures forall n, k :: LastWrite(writes + [write], n, k) ==
                           if write.namespace == n && write.key == k then Some(write) else LastWrite(writes, n, k)
  {
    assert (writes + [write])[..|writes|] == writes;
  }

  /** The overlay holds the last write of every key that was written, and nothing else. */
  ghost predicate Overlays(overlay: map<Bytes, Write>, writes: seq<Write>) {
    (forall n, k :: Lookup(overlay, StagedKey(n, k)) == LastWrite(writes, n, k)) &&
    forall s | s in overlay :: s == StagedKey(overlay[s].namespace, overlay[s].key)
  }

  lemma OverlayStep(overlay: map<Bytes, Write>, writes: seq<Write>, write: Write)
    requires Overlays(overlay, writes)
    ensures Overlays(overlay[StagedKey(write.namespace, write.key) := write], writes + [write])
  {
    hide StagedKey;
    var s := StagedKey(write.namespace, write.key);
    var more := overlay[s := write];
    ApplyAppend(map[], writes, write);
    forall n, k ensures Lookup(more, StagedKey(n, k)) == LastWrite(writes + [write], n, k) {
      assert Lookup(overlay, StagedKey(n, k)) == LastWrite(writes, n, k);
      if StagedKey(n, k) == s { StagedKeyInjective(n, k, write.namespace, write.key); }
    }
  }

  // ------------------------------------------------------------------------------- exports

  predicate HasPrefix(key: Bytes, prefix: Bytes) {
    prefix <= key
  }

  predicate KeyLeq(a: Pair, b: Pair) {
    LexLeq(a.key, b.key)
  }

  /** The entry of a store at a key of the namespace, as a pair. */
  ghost predicate IsEntry(contents: Contents, namespace: Bytes, prefix: Bytes, pair: Pair) {
    pair.namespace == namespace && HasPrefix(pair.key, prefix) &&
    Lookup(contents, (namespace, pair.key)) == Some(pair.value)
  }

  /** All entries under a prefix of a namespace, each once, in key order. */
  ghost predicate Exported(contents: Contents, namespace: Bytes, prefix: Bytes, pairs: seq<Pair>) {
    Sorted(pairs, KeyLeq) && Distinct(pairs) && forall pair :: pair in pairs <==> IsEntry(contents, namespace, prefix, pair)
  }

  /** The entries that the merged map holds, keyed by their keys. */
  ghost predicate Merged(contents: Contents, namespace: Bytes, prefix: Bytes, merged: map<Bytes, Pair>) {
    (forall k | k in merged :: merged[k].key == k) &&
    forall pair: Pair :: (pair.key in merged && merged[pair.key] == pair) <==> IsEntry(contents, namespace, prefix, pair)
  }

  function KeysOf(pairs: seq<Pair>): (keys: seq<Bytes>)
    ensures |keys| == |pairs|
  {
    seq(|pairs|, i requires 0 <= i < |pairs| => pairs[i].key)
  }

  lemma EntryOfKey(contents: Contents, namespace: Bytes, prefix: Bytes, a: Pair, b: Pair)
    requires IsEntry(contents, namespace, prefix, a) && IsEntry(contents, namespace, prefix, b)
    ensures a.key == b.key ==> a == b
  {}

  lemma ExportedKeys(contents: Contents, namespace: Bytes, prefix: Bytes, pairs: seq<Pair>)
    requires Exported(contents, namespace, prefix, pairs)
    ensures Sorted(KeysOf(pairs), LexLeq) && Distinct(KeysOf(pairs))
    ensures forall k :: k in Elements(KeysOf(pairs)) <==> prefix <= k && (namespace, k) in contents
  {
    hide LexLeq;
    var keys := KeysOf(pairs);
    forall i, j | 0 <= i < j < |keys| ensures LexLeq(keys[i], keys[j]) && keys[i] != keys[j] {
      assert pairs[i] in pairs && pairs[j] in pairs && KeyLeq(pairs[i], pairs[j]);
      EntryOfKey(contents, namespace, prefix, pairs[i], pairs[j]);
    }
    forall k ensures k in Elements(keys) <==> HasPrefix(k, prefix) && (namespace, k) in contents {
      if k in Elements(keys) {
        var i :| 0 <= i < |keys| && keys[i] == k;
        assert pairs[i] in pairs;
      }
      if HasPrefix(k, prefix) && (namespace, k) in contents {
        var pair := Pair(namespace, k, contents[(namespace, k)]);
        assert IsEntry(contents, namespace, prefix, pair) && pair in pairs;
        var i :| 0 <= i < |pairs| && pairs[i] == pair;
        assert keys[i] == k;
      }
    }
  }

  /** Two exports of the same contents are the same list. */
  lemma ExportUnique(contents: Contents, namespace: Bytes, prefix: Bytes, a: seq<Pair>, b: seq<Pair>)
    requires Exported(contents, namespace, prefix, a) && Exported(contents, namespace, prefix, b)
    ensures a == b
  {
    hide LexLeq, HasPrefix, Elements;
    LexOrder();
    ExportedKeys(contents, namespace, prefix, a);
    ExportedKeys(contents, namespace, prefix, b);
    assert Elements(KeysOf(a)) == Elements(KeysOf(b));
    SortedDistinctUnique(KeysOf(a), KeysOf(b), LexLeq);
    forall i | 0 <= i < |a| ensures a[i] == b[i] {
      assert KeysOf(a)[i] == KeysOf(b)[i];
      assert a[i] in a && b[i] in b;
      EntryOfKey(contents, namespace, prefix, a[i], b[i]);
    }
  }

  /** Reading the base: its entries under the prefix, by key. */
  method ExportBase(base: Contents, namespace: Bytes, prefix: Bytes) returns (merged: map<Bytes, Pair>)
    ensures Merged(base, namespace, prefix, merged)
  {
    hide HasPrefix;
    merged := map[];
    var rest := base.Keys;
    while rest != {}
      invariant rest <= base.Keys
      invariant forall k | k in merged :: merged[k].key == k
      invariant forall pair: Pair :: (pair.key in merged && merged[pair.key] == pair) <==>
        IsEntry(base, namespace, prefix, pair) && (namespace, pair.key) !in rest
      decreases |rest|
    {
      var entry :| entry in rest;
      rest := rest - {entry};
      if entry.0 == namespace && HasPrefix(entry.1, prefix) {
        merged := merged[entry.1 := Pair(namespace, entry.1, base[entry])];
      }
    }
  }

  /** A merged map in which the keys written so far show the staged contents and the others the base. */
  ghost predicate Mixed(base: Contents, view: Contents, namespace: Bytes, prefix: Bytes, merged: map<Bytes, Pair>, left: set<Bytes>) {
    (forall k | k in merged :: merged[k].key == k) &&
    forall pair: Pair :: (pair.key in merged && merged[pair.key] == pair) <==>
      IsEntry(if StagedKey(namespace, pair.key) in left then base else view, namespace, prefix, pair)
  }

  /** The staged contents differ from the base only at keys of the overlay. */
  ghost predicate ViewOf(base: Contents, overlay: map<Bytes, Write>, view: Contents) {
    forall n, k :: Lookup(view, (n, k)) ==
      match Lookup(overlay, StagedKey(n, k))
      case None => Lookup(base, (n, k))
      case Some(write) => if write.delete then None else Some(write.value)
  }

  lemma AppliedIsViewOf(base: Contents, overlay: map<Bytes, Write>, writes: seq<Write>)
    requires Overlays(overlay, writes)
    ensures ViewOf(base, overlay, Apply(base, writes))
  {
    hide Apply, LastWrite, StagedKey;
    forall n, k ensures Lookup(Apply(base, writes), (n, k)) ==
      match Lookup(overlay, StagedKey(n, k))
      case None => Lookup(base, (n, k))
      case Some(write) => if write.delete then None else Some(write.value)
    {
      ApplyIsLastWrite(base, writes, n, k);
    }
  }

  lemma MixedStart(base: Contents, overlay: map<Bytes, Write>, view: Contents, namespace: Bytes, prefix: Bytes, merged: map<Bytes, Pair>)
    requires Merged(base, namespace, prefix, merged) && ViewOf(base, overlay, view)
    ensures Mixed(base, view, namespace, prefix, merged, overlay.Keys)
  {
    hide HasPrefix, StagedKey;
    forall pair: Pair ensures (pair.key in merged && merged[pair.key] == pair) <==>
      IsEntry(if StagedKey(namespace, pair.key) in overlay.Keys then base else view, namespace, prefix, pair)
    {
      assert Lookup(overlay, StagedKey(namespace, pair.key)).None? ==>
        Lookup(view, (namespace, pair.key)) == Lookup(base, (namespace, pair.key));
    }
  }

  lemma MixedStep(base: Contents, overlay: map<Bytes, Write>, view: Contents, namespace: Bytes, prefix: Bytes,
                  merged: map<Bytes, Pair>, left: set<Bytes>, s: Bytes, next: map<Bytes, Pair>)
    requires Mixed(base, view, namespace, prefix, merged, left) && ViewOf(base, overlay, view) && s in left && s in overlay
    requires s == StagedKey(overlay[s].namespace, overlay[s].key)
    requires var write := overlay[s];
      next == if write.namespace != namespace || !HasPrefix(write.key, prefix) then merged
              else if write.delete then merged - {write.key}
              else merged[write.key := Pair(write.namespace, write.key, write.value)]
    ensures Mixed(base, view, namespace, prefix, next, left - {s})
  {
    hide HasPrefix, StagedKey;
    var write := overlay[s];
    forall pair: Pair ensures (pair.key in next && next[pair.key] == pair) <==>
      IsEntry(if StagedKey(namespace, pair.key) in left - {s} then base else view, namespace, prefix, pair)
    {
      assert Lookup(overlay, s) == Some(write);
      if StagedKey(namespace, pair.key) == s {
        StagedKeyInjective(namespace, pair.key, write.namespace, write.key);
        assert Lookup(view, (namespace, pair.key)) == if write.delete then None else Some(write.value);
      }
    }
  }

  /** The pairs of a merged map, sorted by key. */
  method SortedPairs(ghost contents: Contents, namespace: Bytes, prefix: Bytes, merged: map<Bytes, Pair>) returns (pairs: seq<Pair>)
    requires Merged(contents, namespace, prefix, merged)
    ensures Exported(contents, namespace, prefix, pairs)
  {
    hide HasPrefix, LexLeq, Sort, IsEntry;
    var listed: seq<Pair> := [];
    var rest := merged.Keys;
    while rest != {}
      invariant rest <= merged.Keys && Distinct(listed)
      invariant forall pair: Pair :: pair in listed <==> pair.key in merged && merged[pair.key] == pair && pair.key !in rest
      decreases |rest|
    {
      var k :| k in rest;
      rest := rest - {k};
      listed := listed + [merged[k]];
    }
    KeyOrder();
    SortSpec(listed, KeyLeq);
    SameMultiset(listed, Sort(listed, KeyLeq));
    pairs := Sort(listed, KeyLeq);
  }

  lemma KeyOrder()
    ensures TotalOrder(KeyLeq)
  {
    hide LexLeq;
    forall a: Pair, b: Pair, c: Pair ensures KeyLeq(a, b) || KeyLeq(b, a) ensures KeyLeq(a, b) && KeyLeq(b, c) ==> KeyLeq(a, c) {
      OrderFacts(a.key, b.key, c.key);
    }
  }

  // ------------------------------------------------------------------------------- the store

  class StagedStore {
    const base: Contents
    var writes: seq<Write>
    var overlay: map<Bytes, Write>

    ghost predicate Valid()
      reads this
    {
      Overlays(overlay, writes)
    }

    /** What the store stands for: the base with the writes applied in order. */
    ghost function View(): Contents
      reads this
    {
      Apply(base, writes)
    }

    constructor (base: Contents)
      ensures Valid() && writes == [] && this.base == base
    {
      this.base, writes, overlay := base, [], map[];
    }

    method Record(write: Write)
      requires Valid()
      modifies this
      ensures Valid() && writes == old(writes) + [write]
    {
      hide Overlays, StagedKey;
      OverlayStep(overlay, writes, write);
      writes := writes + [write];
      overlay := overlay[StagedKey(write.namespace, write.key) := write];
    }

    method Set(namespace: Bytes, key: Bytes, value: Bytes)
      requires Valid()
      modifies this
      ensures Valid() && writes == old(writes) + [Write(namespace, key, value, false)]
      ensures View() == old(View())[(namespace, key) := value]
    {
      ApplyAppend(base, writes, Write(namespace, key, value, false));
      Record(Write(namespace, key, value, false));
    }

    method Delete(namespace: Bytes, key: Bytes)
      requires Valid()
      modifies this
      ensures Valid() && writes == old(writes) + [Write(namespace, key, [], true)]
      ensures View() == old(View()) - {(namespace, key)}
    {
      ApplyAppend(base, writes, Write(namespace, key, [], true));
      Record(Write(namespace, key, [], true));
    }

    /** The writes are staged one by one; a cancelled context stops before one of them. */
    method SetBatch(batch: seq<Write>, cancelAt: Option<nat>) returns (ok: bool)
      requires Valid()
      modifies this
      ensures Valid()
      ensures ok <==> cancelAt.None? || cancelAt.value >= |batch|
      ensures writes == old(writes) + batch[..if ok then |batch| else cancelAt.value]
    {
      hide Overlays;
      for i := 0 to |batch|
        invariant Valid() && writes == old(writes) + batch[..i]
        invariant cancelAt.None? || cancelAt.value >= i
      {
        if cancelAt == Some(i) { return false; }
        Record(batch[i]);
      }
      return true;
    }

    /** Reads see the staged contents. */
    method Get(namespace: Bytes, key: Bytes) returns (value: Option<Bytes>)
      requires Valid()
      ensures value == Lookup(View(), (namespace, key))
    {
      ApplyIsLastWrite(base, writes, namespace, key);
      var s := StagedKey(namespace, key);
      assert Lookup(overlay, s) == LastWrite(writes, namespace, key);
      if s in overlay {
        if overlay[s].delete { return None; }
        return Some(overlay[s].value);
      }
      return Lookup(base, (namespace, key));
    }

    /** Exports list exactly the staged entries under the prefix, in key order. */
    method ExportPrefix(namespace: Bytes, prefix: Bytes) returns (pairs: seq<Pair>)
      requires Valid()
      ensures Exported(View(), namespace, prefix, pairs)
    {
      hide HasPrefix, StagedKey, Apply, Merged, Mixed, ViewOf, LastWrite;
      ghost var view := View();
      AppliedIsViewOf(base, overlay, writes);
      var merged := ExportBase(base, namespace, prefix);
      MixedStart(base, overlay, view, namespace, prefix, merged);
      var rest := overlay.Keys;
      while rest != {}
        invariant rest <= overlay.Keys && Mixed(base, view, namespace, prefix, merged, rest)
        decreases |rest|
      {
        var s :| s in rest;
        var write := overlay[s];
        ghost var before, left := merged, rest;
        rest := rest - {s};
        if write.namespace == namespace && HasPrefix(write.key, prefix) {
          merged := if write.delete then merged - {write.key}
                    else merged[write.key := Pair(write.namespace, write.key, write.value)];
        }
        MixedStep(base, overlay, view, namespace, prefix, before, left, s, merged);
      }
      MixedEnd(base, view, namespace, prefix, merged);
      pairs := SortedPairs(view, namespace, prefix, merged);
    }

    method ExportNamespace(namespace: Bytes) returns (pairs: seq<Pair>)
      requires Valid()
      ensures Exported(View(), namespace, [], pairs)
    {
      pairs := ExportPrefix(namespace, []);
    }

    /** Replaces the contents of a namespace: what was there is deleted, then the pairs are set. */
    method ImportNamespace(namespace: Bytes, pairs: seq<Pair>, cancelAt: Option<nat>) returns (ok: bool)
      requires Valid()
      modifies this
      ensures Valid()
      ensures ok ==> Replaced(old(View()), namespace, pairs, View())
      ensures old(writes) <= writes && (!ok ==> cancelAt.Some? && |writes| == |old(writes)| + cancelAt.value)
    {
      hide Overlays, Exported, Apply, Replaced, Deletes, Sets;
      var existing := ExportNamespace(namespace);
      var batch: seq<Write> := [];
      NoWrites(namespace);
      assert existing[..0] == [] && pairs[..0] == [];
      for i := 0 to |existing|
        modifies {}
        invariant batch == Deletes(namespace, existing[..i])
      {
        DeletesStep(namespace, existing, i);
        batch := batch + [Write(namespace, existing[i].key, [], true)];
      }
      ghost var deletes := batch;
      for i := 0 to |pairs|
        modifies {}
        invariant batch == deletes + Sets(namespace, pairs[..i])
      {
        SetsStep(namespace, pairs, i);
        batch := batch + [Write(namespace, pairs[i].key, pairs[i].value, false)];
      }
      ghost var before := writes;
      ok := SetBatch(batch, cancelAt);
      assert existing[..|existing|] == existing && pairs[..|pairs|] == pairs && batch[..|batch|] == batch;
      Imported(base, before, namespace, existing, pairs);
    }
  }

  lemma MixedEnd(base: Contents, view: Contents, namespace: Bytes, prefix: Bytes, merged: map<Bytes, Pair>)
    requires Mixed(base, view, namespace, prefix, merged, {})
    ensures Merged(view, namespace, prefix, merged)
  {}

  // ------------------------------------------------------------------------------- importing

  /** The value that the last pair with a key gives it. */
  function LastValue(pairs: seq<Pair>, key: Bytes): Option<Bytes> {
    if |pairs| == 0 then None
    else if pairs[|pairs| - 1].key == key then Some(pairs[|pairs| - 1].value)
    else LastValue(pairs[..|pairs| - 1], key)
  }

  /** One namespace holds exactly the pairs, and the others what they held before. */
  ghost predicate Replaced(before: Contents, namespace: Bytes, pairs: seq<Pair>, after: Contents) {
    forall n, k :: Lookup(after, (n, k)) == if n == namespace then LastValue(pairs, k) else Lookup(before, (n, k))
  }

  function Deletes(namespace: Bytes, pairs: seq<Pair>): seq<Write> {
    seq(|pairs|, i requires 0 <= i < |pairs| => Write(namespace, pairs[i].key, [], true))
  }

  function Sets(namespace: Bytes, pairs: seq<Pair>): seq<Write> {
    seq(|pairs|, i requires 0 <= i < |pairs| => Write(namespace, pairs[i].key, pairs[i].value, false))
  }

  lemma DeletesStep(namespace: Bytes, pairs: seq<Pair>, i: nat)
    requires i < |pairs|
    ensures Deletes(namespace, pairs[..i + 1]) == Deletes(namespace, pairs[..i]) + [Write(namespace, pairs[i].key, [], true)]
  {}

  lemma SetsStep(namespace: Bytes, pairs: seq<Pair>, i: nat)
    requires i < |pairs|
    ensures Sets(namespace, pairs[..i + 1]) == Sets(namespace, pairs[..i]) + [Write(namespace, pairs[i].key, pairs[i].value, false)]
  {}

  lemma NoWrites(namespace: Bytes)
    ensures Deletes(namespace, []) == [] && Sets(namespace, []) == []
  {}

  lemma {:induction false} AfterDeletes(base: Contents, writes: seq<Write>, namespace: Bytes, pairs: seq<Pair>, n: Bytes, k: Bytes)
    ensures Lookup(Apply(base, writes + Deletes(namespace, pairs)), (n, k)) ==
      if n == namespace && k in KeysOf(pairs) then None else Lookup(Apply(base, writes), (n, k))
  {
    if |pairs| == 0 {
      assert writes + Deletes(namespace, pairs) == writes;
    } else {
      var init := pairs[..|pairs| - 1];
      AfterDeletes(base, writes, namespace, init, n, k);
      var last := Write(namespace, pairs[|pairs| - 1].key, [], true);
      assert writes + Deletes(namespace, pairs) == writes + Deletes(namespace, init) + [last];
      ApplyAppend(base, writes + Deletes(namespace, init), last);
      assert KeysOf(pairs) == KeysOf(init) + [last.key];
    }
  }

  lemma {:induction false} AfterSets(base: Contents, writes: seq<Write>, namespace: Bytes, pairs: seq<Pair>, n: Bytes, k: Bytes)
    ensures Lookup(Apply(base, writes + Sets(namespace, pairs)), (n, k)) ==
      if n == namespace && LastValue(pairs, k).Some? then LastValue(pairs, k) else Lookup(Apply(base, writes), (n, k))
  {
    if |pairs| == 0 {
      assert writes + Sets(namespace, pairs) == writes;
    } else {
      var init := pairs[..|pairs| - 1];
      AfterSets(base, writes, namespace, init, n, k);
      var last := Write(namespace, pairs[|pairs| - 1].key, pairs[|pairs| - 1].value, false);
      assert writes + Sets(namespace, pairs) == writes + Sets(namespace, init) + [last];
      ApplyAppend(base, writes + Sets(namespace, init), last);
    }
  }

  lemma Imported(base: Contents, writes: seq<Write>, namespace: Bytes, existing: seq<Pair>, pairs: seq<Pair>)
    requires Exported(Apply(base, writes), namespace, [], existing)
    ensures Replaced(Apply(base, writes), namespace, pairs,
                     Apply(base, writes + (Deletes(namespace, existing) + Sets(namespace, pairs))))
  {
    hide Apply, LastValue, Deletes, Sets;
    var cleared := writes + Deletes(namespace, existing);
    assert writes + (Deletes(namespace, existing) + Sets(namespace, pairs)) == cleared + Sets(namespace, pairs);
    ExportedKeys(Apply(base, writes), namespace, [], existing);
    forall n, k ensures Lookup(Apply(base, cleared + Sets(namespace, pairs)), (n, k)) ==
                        if n == namespace then LastValue(pairs, k) else Lookup(Apply(base, writes), (n, k))
    {
      AfterSets(base, cleared, namespace, pairs, n, k);
      AfterDeletes(base, writes, namespace, existing, n, k);
      assert k in Elements(KeysOf(existing)) <==> k in KeysOf(existing);
    }
  }
}
