/** The canonical transaction order: one chain per signer, merged by salted hash. */
module FairOrdering {
  import opened Types
  import opened Sorting

  type Tx = Bytes

  /** What the order depends on: the salted hash of a transaction, and the signer and nonce it names. */
  datatype Rules = Rules(hash: Tx -> Bytes, signer: Tx -> Option<string>, nonce: Tx -> Option<nat>)

  // --------------------------------------------------------------------------- orders

  /** The order of the merge queue: hash, then bytes. */
  predicate HashLeq(rules: Rules, a: Tx, b: Tx) {
    if rules.hash(a) != rules.hash(b) then LexLeq(rules.hash(a), rules.hash(b)) else LexLeq(a, b)
  }

  function NonceOf(rules: Rules, tx: Tx): nat {
    if rules.nonce(tx).Some? then rules.nonce(tx).value else 0
  }

  /** The order inside one signer's chain: nonce, then hash, then bytes. */
  predicate ChainLeq(rules: Rules, a: Tx, b: Tx) {
    if NonceOf(rules, a) != NonceOf(rules, b) then NonceOf(rules, a) < NonceOf(rules, b) else HashLeq(rules, a, b)
  }

  lemma HashOrder(rules: Rules, a: Tx, b: Tx, c: Tx)
    ensures HashLeq(rules, a, b) || HashLeq(rules, b, a)
    ensures HashLeq(rules, a, b) && HashLeq(rules, b, c) ==> HashLeq(rules, a, c)
    ensures HashLeq(rules, a, b) && HashLeq(rules, b, a) ==> a == b
  {
    var x, y, z := rules.hash(a), rules.hash(b), rules.hash(c);
    LexTotal(x, y);
    LexTotal(a, b);
    if LexLeq(x, y) && LexLeq(y, z) { LexTransitive(x, y, z); }
    if LexLeq(a, b) && LexLeq(b, c) { LexTransitive(a, b, c); }
    if LexLeq(x, y) && LexLeq(y, x) { LexAntisymmetric(x, y); }
    if LexLeq(y, z) && LexLeq(z, y) { LexAntisymmetric(y, z); }
    if LexLeq(a, b) && LexLeq(b, a) { LexAntisymmetric(a, b); }
  }

  lemma ChainOrder(rules: Rules, a: Tx, b: Tx, c: Tx)
    ensures ChainLeq(rules, a, b) || ChainLeq(rules, b, a)
    ensures ChainLeq(rules, a, b) && ChainLeq(rules, b, c) ==> ChainLeq(rules, a, c)
    ensures ChainLeq(rules, a, b) && ChainLeq(rules, b, a) ==> a == b
  {
    hide HashLeq;
    HashOrder(rules, a, b, c);
  }

  // ------------------------------------------------------------------ the canonical order

  predicate Signed(rules: Rules, tx: Tx) {
    rules.signer(tx).Some? && rules.nonce(tx).Some?
  }

  predicate SameSigner(rules: Rules, a: Tx, b: Tx) {
    Signed(rules, a) && Signed(rules, b) && rules.signer(a) == rules.signer(b)
  }

  /** tx may come next: nothing of its signer must come before it. */
  ghost predicate Eligible(rules: Rules, pool: multiset<Tx>, tx: Tx) {
    tx in pool && forall other | other in pool && SameSigner(rules, tx, other) :: ChainLeq(rules, tx, other)
  }

  /** tx is the eligible transaction with the least hash. */
  ghost predicate Next(rules: Rules, pool: multiset<Tx>, tx: Tx) {
    Eligible(rules, pool, tx) && forall other | Eligible(rules, pool, other) :: HashLeq(rules, tx, other)
  }

  /** Every transaction is the next one among those that are left. */
  ghost predicate Canonical(rules: Rules, txs: seq<Tx>) {
    forall i | 0 <= i < |txs| :: Next(rules, multiset(txs[i..]), txs[i])
  }

  lemma {:induction false} CanonicalTail(rules: Rules, txs: seq<Tx>)
    requires |txs| > 0 && Canonical(rules, txs)
    ensures Canonical(rules, txs[1..])
  {
    forall i | 0 <= i < |txs| - 1 ensures Next(rules, multiset(txs[1..][i..]), txs[1..][i]) {
      assert txs[1..][i..] == txs[i + 1..];
    }
  }

  lemma NextUnique(rules: Rules, pool: multiset<Tx>, a: Tx, b: Tx)
    requires Next(rules, pool, a) && Next(rules, pool, b)
    ensures a == b
  {
    hide Eligible, HashLeq;
    HashOrder(rules, a, b, a);
  }

  lemma CanonicalHead(rules: Rules, txs: seq<Tx>)
    requires |txs| > 0 && Canonical(rules, txs)
    ensures Next(rules, multiset(txs), txs[0])
  {
    hide Next;
    assert txs[0..] == txs;
  }

  lemma SameTails(a: seq<Tx>, b: seq<Tx>)
    requires multiset(a) == multiset(b) && |a| > 0 && |b| > 0 && a[0] == b[0]
    ensures multiset(a[1..]) == multiset(b[1..])
  {
    TailMultiset(a);
    TailMultiset(b);
  }

  lemma SameLength(a: seq<Tx>, b: seq<Tx>)
    requires multiset(a) == multiset(b)
    ensures |a| == |b|
  {
    assert |multiset(a)| == |multiset(b)|;
  }

  /** A multiset of transactions has at most one canonical order. */
  lemma {:induction false} CanonicalUnique(rules: Rules, a: seq<Tx>, b: seq<Tx>)
    requires Canonical(rules, a) && Canonical(rules, b) && multiset(a) == multiset(b)
    ensures a == b
  {
    hide Canonical, Next;
    SameLength(a, b);
    if |a| > 0 {
      CanonicalHead(rules, a);
      CanonicalHead(rules, b);
      NextUnique(rules, multiset(a), a[0], b[0]);
      SameTails(a, b);
      CanonicalTail(rules, a);
      CanonicalTail(rules, b);
      CanonicalUnique(rules, a[1..], b[1..]);
      HeadAndTail(a, b);
    }
  }

  lemma HeadAndTail(a: seq<Tx>, b: seq<Tx>)
    requires |a| > 0 && |b| > 0 && a[0] == b[0] && a[1..] == b[1..]
    ensures a == b
  {
    assert a == [a[0]] + a[1..] && b == [b[0]] + b[1..];
  }

  /** A canonical order keeps each signer's nonces non-decreasing. */
  lemma CanonicalNonces(rules: Rules, txs: seq<Tx>, i: nat, j: nat)
    requires Canonical(rules, txs) && i < j < |txs| && SameSigner(rules, txs[i], txs[j])
    ensures rules.nonce(txs[i]).value <= rules.nonce(txs[j]).value
  {
    assert txs[i..][j - i] == txs[j];
    assert txs[j] in multiset(txs[i..]);
    assert Eligible(rules, multiset(txs[i..]), txs[i]);
  }

  // ---------------------------------------------------------- the order in bytes and places

  /** a is taken before b: by the bytes of the salted hashes, or by their own if these are equal. */
  ghost predicate ByHash(rules: Rules, a: Tx, b: Tx) {
    if rules.hash(a) != rules.hash(b) then Precedes(rules.hash(a), rules.hash(b)) else Precedes(a, b)
  }

  /** b has to wait for a, which has the same signer and a lower nonce, or the same nonce and is taken before it. */
  ghost predicate Blocks(rules: Rules, a: Tx, b: Tx) {
    rules.signer(a).Some? && rules.nonce(a).Some? && rules.signer(b) == rules.signer(a) && rules.nonce(b).Some? &&
    (rules.nonce(a).value < rules.nonce(b).value || (rules.nonce(a) == rules.nonce(b) && ByHash(rules, a, b)))
  }

  /** Something at place i or later must come before the transaction at place j. */
  ghost predicate Waits(rules: Rules, txs: seq<Tx>, i: nat, j: nat)
    requires j < |txs|
  {
    exists k :: i <= k < |txs| && Blocks(rules, txs[k], txs[j])
  }

  /** Nothing comes before what it waits for, and whatever does not wait comes in the order of the hashes. */
  ghost predicate InOrder(rules: Rules, txs: seq<Tx>) {
    (forall i | 0 <= i < |txs| :: !Waits(rules, txs, i, i)) &&
    (forall i, j | 0 <= i < j < |txs| && !Waits(rules, txs, i, j) :: txs[i] == txs[j] || ByHash(rules, txs[i], txs[j]))
  }

  lemma ByHashExactly(rules: Rules, a: Tx, b: Tx)
    ensures ByHash(rules, a, b) <==> !HashLeq(rules, b, a)
    ensures HashLeq(rules, a, b) <==> a == b || ByHash(rules, a, b)
  {
    hide LexLeq, Precedes;
    OrderFacts(a, b, a);
    OrderFacts(rules.hash(a), rules.hash(b), rules.hash(a));
    LexIsPrecedes(a, b);
    LexIsPrecedes(rules.hash(a), rules.hash(b));
    LexIsPrecedes(a, a);
    NothingPrecedesItself(a);
  }

  lemma NothingPrecedesItself(a: Bytes)
    ensures !Precedes(a, a)
  {}

  lemma BlocksExactly(rules: Rules, a: Tx, b: Tx)
    ensures Blocks(rules, a, b) <==> SameSigner(rules, b, a) && !ChainLeq(rules, b, a)
  {
    hide HashLeq, ByHash;
    ByHashExactly(rules, a, b);
  }

  lemma EligibleExactly(rules: Rules, txs: seq<Tx>, i: nat, j: nat)
    requires i <= j < |txs|
    ensures Eligible(rules, multiset(txs[i..]), txs[j]) <==> !Waits(rules, txs, i, j)
  {
    hide ChainLeq, Blocks, SameSigner;
    var pool := multiset(txs[i..]);
    assert txs[i..][j - i] == txs[j];
    forall k | i <= k < |txs| ensures txs[k] in pool && (Blocks(rules, txs[k], txs[j]) <==> SameSigner(rules, txs[j], txs[k]) && !ChainLeq(rules, txs[j], txs[k])) {
      assert txs[i..][k - i] == txs[k];
      BlocksExactly(rules, txs[k], txs[j]);
    }
    if !Waits(rules, txs, i, j) {
      forall other | other in pool && SameSigner(rules, txs[j], other) ensures ChainLeq(rules, txs[j], other) {
        var k := PlaceOf(txs, i, other);
        assert !Blocks(rules, txs[k], txs[j]);
      }
    }
  }

  lemma PlaceOf(txs: seq<Tx>, i: nat, tx: Tx) returns (k: nat)
    requires i <= |txs| && tx in multiset(txs[i..])
    ensures i <= k < |txs| && txs[k] == tx
  {
    var d :| 0 <= d < |txs[i..]| && txs[i..][d] == tx;
    k := i + d;
  }

  /** The canonical order, said with bytes and places alone. */
  lemma CanonicalIsInOrder(rules: Rules, txs: seq<Tx>)
    ensures Canonical(rules, txs) <==> InOrder(rules, txs)
  {
    hide Waits, Eligible, HashLeq, ByHash;
    forall i, j | 0 <= i <= j < |txs|
      ensures Eligible(rules, multiset(txs[i..]), txs[j]) <==> !Waits(rules, txs, i, j)
      ensures HashLeq(rules, txs[i], txs[j]) <==> txs[i] == txs[j] || ByHash(rules, txs[i], txs[j])
    {
      EligibleExactly(rules, txs, i, j);
      ByHashExactly(rules, txs[i], txs[j]);
    }
    if Canonical(rules, txs) {
      forall i | 0 <= i < |txs| ensures !Waits(rules, txs, i, i) { assert Next(rules, multiset(txs[i..]), txs[i]); }
      forall i, j | 0 <= i < j < |txs| && !Waits(rules, txs, i, j) ensures txs[i] == txs[j] || ByHash(rules, txs[i], txs[j]) {
        assert Next(rules, multiset(txs[i..]), txs[i]);
        assert Eligible(rules, multiset(txs[i..]), txs[j]);
      }
    }
    if InOrder(rules, txs) {
      forall i | 0 <= i < |txs| ensures Next(rules, multiset(txs[i..]), txs[i]) {
        forall other | Eligible(rules, multiset(txs[i..]), other) ensures HashLeq(rules, txs[i], other) {
          EligibleIsLeft(rules, multiset(txs[i..]), other);
          var k := PlaceOf(txs, i, other);
          assert Eligible(rules, multiset(txs[i..]), txs[k]);
        }
      }
    }
  }

  lemma EligibleIsLeft(rules: Rules, pool: multiset<Tx>, tx: Tx)
    requires Eligible(rules, pool, tx)
    ensures tx in pool
  {}

  // -------------------------------------------------------------------------- chains

  /** The transactions left in all chains. */
  function Pool(chains: seq<seq<Tx>>): multiset<Tx> {
    if |chains| == 0 then multiset{} else Pool(chains[..|chains| - 1]) + multiset(chains[|chains| - 1])
  }

  /** Transactions of one signer in chain order, or a single transaction. */
  ghost predicate IsChain(rules: Rules, chain: seq<Tx>) {
    forall i, j | 0 <= i < j < |chain| :: SameSigner(rules, chain[i], chain[j]) && ChainLeq(rules, chain[i], chain[j])
  }

  /** No signer has transactions in two chains. */
  ghost predicate Apart(rules: Rules, chains: seq<seq<Tx>>) {
    forall c, d | 0 <= c < |chains| && 0 <= d < |chains| && c != d :: ApartChains(rules, chains[c], chains[d])
  }

  ghost predicate ApartChains(rules: Rules, a: seq<Tx>, b: seq<Tx>) {
    forall x, y | x in a && y in b :: !SameSigner(rules, x, y)
  }

  ghost predicate GoodChains(rules: Rules, chains: seq<seq<Tx>>) {
    (forall c | 0 <= c < |chains| :: IsChain(rules, chains[c])) && Apart(rules, chains)
  }

  lemma {:induction false} PoolMember(chains: seq<seq<Tx>>, tx: Tx) returns (c: nat)
    requires tx in Pool(chains)
    ensures c < |chains| && tx in chains[c]
  {
    if tx in chains[|chains| - 1] {
      c := |chains| - 1;
    } else {
      c := PoolMember(chains[..|chains| - 1], tx);
    }
  }

  lemma {:induction false} InPool(chains: seq<seq<Tx>>, c: nat, tx: Tx)
    requires c < |chains| && tx in chains[c]
    ensures tx in Pool(chains)
  {
    if c < |chains| - 1 { InPool(chains[..|chains| - 1], c, tx); }
  }

  lemma PoolSplit(chains: seq<seq<Tx>>, next: seq<seq<Tx>>, chain: seq<Tx>)
    requires |chains| > 0 && next == chains[|chains| - 1 := chain]
    ensures Pool(next) == Pool(chains[..|chains| - 1]) + multiset(chain)
  {
    assert next[..|chains| - 1] == chains[..|chains| - 1];
  }

  lemma {:induction false} PoolAdvance(chains: seq<seq<Tx>>, c: nat)
    requires c < |chains| && |chains[c]| > 0
    ensures Pool(chains[c := chains[c][1..]]) == Pool(chains) - multiset{chains[c][0]}
  {
    hide Pool;
    var next := chains[c := chains[c][1..]];
    var last := |chains| - 1;
    PoolSplit(chains, chains, chains[last]);
    if c == last {
      TailMultiset(chains[c]);
      PoolSplit(chains, next, chains[c][1..]);
      assert chains[c][0] in multiset(chains[c]);
    } else {
      var init := chains[..last];
      PoolAdvance(init, c);
      InPool(init, c, chains[c][0]);
      assert next[..last] == init[c := chains[c][1..]];
      PoolSplit(next, next, chains[last]);
    }
  }

  lemma AdvanceKeepsChains(rules: Rules, chains: seq<seq<Tx>>, c: nat)
    requires GoodChains(rules, chains) && c < |chains| && |chains[c]| > 0
    ensures GoodChains(rules, chains[c := chains[c][1..]])
  {
    hide ChainLeq, SameSigner, Signed;
    var rest := chains[c][1..];
    assert IsChain(rules, rest);
    forall x | x in rest ensures x in chains[c] {}
    var next := chains[c := rest];
    forall a, b | 0 <= a < |next| && 0 <= b < |next| && a != b ensures ApartChains(rules, next[a], next[b]) {
      assert ApartChains(rules, chains[a], chains[b]);
    }
  }

  lemma SameChain(rules: Rules, chains: seq<seq<Tx>>, c: nat, x: Tx, d: nat, y: Tx)
    requires GoodChains(rules, chains) && c < |chains| && d < |chains|
    requires x in chains[c] && y in chains[d] && SameSigner(rules, x, y)
    ensures c == d
  {}

  /** A chain's head may come next, and whatever may come next is the head of some chain. */
  lemma HeadEligible(rules: Rules, chains: seq<seq<Tx>>, c: nat)
    requires GoodChains(rules, chains) && c < |chains| && |chains[c]| > 0
    ensures Eligible(rules, Pool(chains), chains[c][0])
  {
    hide ChainLeq;
    var head := chains[c][0];
    InPool(chains, c, head);
    forall other | other in Pool(chains) && SameSigner(rules, head, other) ensures ChainLeq(rules, head, other) {
      var d := PoolMember(chains, other);
      SameChain(rules, chains, c, head, d, other);
      var j :| 0 <= j < |chains[c]| && chains[c][j] == other;
      assert IsChain(rules, chains[c]);
      ChainOrder(rules, head, head, head);
    }
  }

  lemma EligibleIsHead(rules: Rules, chains: seq<seq<Tx>>, tx: Tx) returns (c: nat)
    requires GoodChains(rules, chains) && Eligible(rules, Pool(chains), tx)
    ensures c < |chains| && |chains[c]| > 0 && chains[c][0] == tx
  {
    hide ChainLeq;
    c := PoolMember(chains, tx);
    var head := chains[c][0];
    var j :| 0 <= j < |chains[c]| && chains[c][j] == tx;
    assert IsChain(rules, chains[c]);
    if j > 0 {
      assert SameSigner(rules, head, tx) && ChainLeq(rules, head, tx);
      InPool(chains, c, head);
      assert ChainLeq(rules, tx, head);
      ChainOrder(rules, head, tx, head);
    }
  }

  // ------------------------------------------------------------------------- the merge

  datatype Candidate = Candidate(chain: nat, tx: Tx, hash: Bytes)

  predicate Less(a: Candidate, b: Candidate) {
    if a.hash != b.hash then LexLeq(a.hash, b.hash) else LexLeq(a.tx, b.tx) && a.tx != b.tx
  }

  /** Nothing in the queue goes before entry k. */
  predicate IsLeast(queue: seq<Candidate>, k: nat)
    requires k < |queue|
  {
    forall j | 0 <= j < |queue| :: !Less(queue[j], queue[k])
  }

  lemma LessOrder(a: Candidate, b: Candidate, c: Candidate)
    ensures !Less(a, a) && (Less(a, b) && Less(b, c) ==> Less(a, c)) && (Less(a, b) ==> !Less(b, a))
    ensures !Less(b, a) && !Less(c, b) ==> !Less(c, a)
  {
    OrderFacts(a.hash, b.hash, c.hash);
    OrderFacts(a.tx, b.tx, c.tx);
  }

  lemma {:induction false} LeastExists(queue: seq<Candidate>, n: nat) returns (k: nat)
    requires 0 < n <= |queue|
    ensures k < n && forall j | 0 <= j < n :: !Less(queue[j], queue[k])
  {
    hide Less;
    if n == 1 {
      k := 0;
      LessOrder(queue[0], queue[0], queue[0]);
    } else {
      var before := LeastExists(queue, n - 1);
      k := if Less(queue[n - 1], queue[before]) then n - 1 else before;
      LessOrder(queue[n - 1], queue[n - 1], queue[n - 1]);
      forall j | 0 <= j < n ensures !Less(queue[j], queue[k]) {
        LessOrder(queue[k], queue[before], queue[j]);
      }
    }
  }

  lemma LeastOfAll(queue: seq<Candidate>, k: nat)
    requires k < |queue| && IsLeast(queue, k)
    ensures forall c | c in queue :: !Less(c, queue[k])
  {}

  /** Pop of the priority queue: any entry that no other goes before. */
  method PopLeast(queue: seq<Candidate>) returns (candidate: Candidate, rest: seq<Candidate>, ghost k: nat)
    requires |queue| > 0
    ensures multiset(queue) == multiset(rest) + multiset{candidate} && forall c | c in queue :: !Less(c, candidate)
    ensures k < |queue| && IsLeast(queue, k) && candidate == queue[k] && rest == queue[..k] + queue[k + 1..]
  {
    hide Less;
    ghost var least := LeastExists(queue, |queue|);
    assert IsLeast(queue, least);
    var i: nat :| i < |queue| && IsLeast(queue, i);
    k := i;
    candidate, rest := queue[i], queue[..i] + queue[i + 1..];
    assert queue == queue[..i] + [queue[i]] + queue[i + 1..];
    LeastOfAll(queue, i);
  }

  /** Every transaction already placed was the next one at its time. */
  ghost predicate Leading(rules: Rules, placed: seq<Tx>, left: multiset<Tx>) {
    forall i | 0 <= i < |placed| :: Next(rules, multiset(placed[i..]) + left, placed[i])
  }

  lemma PlaceNext(rules: Rules, placed: seq<Tx>, left: multiset<Tx>, tx: Tx)
    requires Leading(rules, placed, left) && Next(rules, left, tx)
    ensures Leading(rules, placed + [tx], left - multiset{tx})
  {
    hide Next;
    assert tx in left by { NextIsLeft(rules, left, tx); }
    var longer := placed + [tx];
    forall i | 0 <= i < |longer| ensures Next(rules, multiset(longer[i..]) + (left - multiset{tx}), longer[i]) {
      if i < |placed| {
        assert longer[i..] == placed[i..] + [tx];
        assert multiset(longer[i..]) + (left - multiset{tx}) == multiset(placed[i..]) + left;
      } else {
        assert longer[i..] == [tx];
        assert multiset([tx]) + (left - multiset{tx}) == left;
      }
    }
  }

  lemma NextIsLeft(rules: Rules, left: multiset<Tx>, tx: Tx)
    requires Next(rules, left, tx)
    ensures tx in left
  {}

  /** The queue holds the heads of exactly the chains that are not used up. */
  ghost predicate Queued(rules: Rules, queue: seq<Candidate>, rest: seq<seq<Tx>>) {
    HeadsQueued(rules, queue, rest) && ChainsDiffer(queue) && AllQueued(queue, rest)
  }

  ghost predicate HeadsQueued(rules: Rules, queue: seq<Candidate>, rest: seq<seq<Tx>>) {
    forall i | 0 <= i < |queue| :: IsHead(rules, queue[i], rest)
  }

  ghost predicate IsHead(rules: Rules, entry: Candidate, rest: seq<seq<Tx>>) {
    entry.chain < |rest| && |rest[entry.chain]| > 0 &&
    entry.tx == rest[entry.chain][0] && entry.hash == rules.hash(entry.tx)
  }

  ghost predicate ChainsDiffer(queue: seq<Candidate>) {
    forall i, j | 0 <= i < j < |queue| :: queue[i].chain != queue[j].chain
  }

  ghost predicate AllQueued(queue: seq<Candidate>, rest: seq<seq<Tx>>) {
    forall c | 0 <= c < |rest| && |rest[c]| > 0 :: IsQueued(queue, c)
  }

  ghost predicate IsQueued(queue: seq<Candidate>, chain: nat) {
    exists i | 0 <= i < |queue| :: queue[i].chain == chain
  }

  /** The least queue entry is the next transaction. */
  lemma LeastIsNext(rules: Rules, queue: seq<Candidate>, rest: seq<seq<Tx>>, k: nat)
    requires Queued(rules, queue, rest) && GoodChains(rules, rest) && k < |queue| && IsLeast(queue, k)
    ensures Next(rules, Pool(rest), queue[k].tx)
  {
    hide GoodChains, Eligible, LexLeq;
    var tx := queue[k].tx;
    HeadEligible(rules, rest, queue[k].chain);
    forall other | Eligible(rules, Pool(rest), other) ensures HashLeq(rules, tx, other) {
      var c := EligibleIsHead(rules, rest, other);
      assert IsQueued(queue, c);
      var i :| 0 <= i < |queue| && queue[i].chain == c;
      assert !Less(queue[i], queue[k]);
      HashOrder(rules, tx, other, tx);
    }
  }

  lemma WithoutEntry(queue: seq<Candidate>, k: nat, left: seq<Candidate>)
    requires ChainsDiffer(queue) && k < |queue| && left == queue[..k] + queue[k + 1..]
    ensures ChainsDiffer(left)
    ensures forall i | 0 <= i < |left| :: left[i].chain != queue[k].chain && left[i] in queue
    ensures forall c | c != queue[k].chain && IsQueued(queue, c) :: IsQueued(left, c)
  {
    forall i | 0 <= i < |left| ensures left[i].chain != queue[k].chain && left[i] in queue {
      assert left[i] == queue[if i < k then i else i + 1];
    }
    forall c | c != queue[k].chain && IsQueued(queue, c) ensures IsQueued(left, c) {
      var i :| 0 <= i < |queue| && queue[i].chain == c;
      assert left[if i < k then i else i - 1] == queue[i];
    }
  }

  lemma WithEntry(queue: seq<Candidate>, entry: Candidate)
    requires ChainsDiffer(queue) && forall i | 0 <= i < |queue| :: queue[i].chain != entry.chain
    ensures ChainsDiffer(queue + [entry]) && IsQueued(queue + [entry], entry.chain)
    ensures forall c | IsQueued(queue, c) :: IsQueued(queue + [entry], c)
  {
    var more := queue + [entry];
    assert more[|queue|] == entry;
    forall c | IsQueued(queue, c) ensures IsQueued(more, c) {
      var i :| 0 <= i < |queue| && queue[i].chain == c;
      assert more[i] == queue[i];
    }
  }

  /** Popping an entry and pushing its successor, if any, keeps the queue up to date. */
  lemma QueueStep(rules: Rules, queue: seq<Candidate>, rest: seq<seq<Tx>>, k: nat, left: seq<Candidate>)
    requires Queued(rules, queue, rest) && k < |queue| && left == queue[..k] + queue[k + 1..]
    ensures IsHead(rules, queue[k], rest)
    ensures var c := queue[k].chain;
      var next := rest[c := rest[c][1..]];
      if |next[c]| > 0
      then Queued(rules, left + [Candidate(c, next[c][0], rules.hash(next[c][0]))], next)
      else Queued(rules, left, next)
  {
    hide IsQueued, ChainsDiffer;
    var c := queue[k].chain;
    assert IsHead(rules, queue[k], rest);
    var next := rest[c := rest[c][1..]];
    WithoutEntry(queue, k, left);
    forall i | 0 <= i < |left| ensures IsHead(rules, left[i], next) {
      assert IsHead(rules, left[i], rest);
    }
    if |next[c]| > 0 { WithEntry(left, Candidate(c, next[c][0], rules.hash(next[c][0]))); }
  }

  // ------------------------------------------------------------------ building the chains

  /** The transactions signed by one signer, in input order. */
  function SignedBy(rules: Rules, txs: seq<Tx>, signer: string): seq<Tx> {
    if |txs| == 0 then []
    else
      var last := txs[|txs| - 1];
      SignedBy(rules, txs[..|txs| - 1], signer) +
      if Signed(rules, last) && rules.signer(last) == Some(signer) then [last] else []
  }

  /** The unsigned transactions and those of the given signers. */
  ghost function Covered(rules: Rules, txs: seq<Tx>, signers: set<string>): seq<Tx> {
    if |txs| == 0 then []
    else
      var last := txs[|txs| - 1];
      Covered(rules, txs[..|txs| - 1], signers) +
      if !Signed(rules, last) || rules.signer(last).value in signers then [last] else []
  }

  lemma {:induction false} SignedByMember(rules: Rules, txs: seq<Tx>, signer: string, tx: Tx)
    requires tx in SignedBy(rules, txs, signer)
    ensures Signed(rules, tx) && rules.signer(tx) == Some(signer)
  {
    var last := |txs| - 1;
    if tx in SignedBy(rules, txs[..last], signer) { SignedByMember(rules, txs[..last], signer, tx); }
  }

  lemma {:induction false} CoverMore(rules: Rules, txs: seq<Tx>, signers: set<string>, signer: string)
    requires signer !in signers
    ensures multiset(Covered(rules, txs, signers + {signer})) ==
            multiset(Covered(rules, txs, signers)) + multiset(SignedBy(rules, txs, signer))
  {
    if |txs| > 0 { CoverMore(rules, txs[..|txs| - 1], signers, signer); }
  }

  lemma {:induction false} CoverAll(rules: Rules, txs: seq<Tx>, signers: set<string>)
    requires forall i | 0 <= i < |txs| && Signed(rules, txs[i]) :: rules.signer(txs[i]).value in signers
    ensures Covered(rules, txs, signers) == txs
  {
    if |txs| > 0 {
      CoverAll(rules, txs[..|txs| - 1], signers);
      assert txs == txs[..|txs| - 1] + [txs[|txs| - 1]];
    }
  }

  lemma PoolAppend(chains: seq<seq<Tx>>, chain: seq<Tx>)
    ensures Pool(chains + [chain]) == Pool(chains) + multiset(chain)
  {
    assert (chains + [chain])[..|chains|] == chains;
  }

  /** The chains built so far: unsigned singletons and the chains of these signers. */
  ghost predicate Built(rules: Rules, chains: seq<seq<Tx>>, signers: set<string>) {
    GoodChains(rules, chains) &&
    (forall c | 0 <= c < |chains| :: |chains[c]| > 0) &&
    (forall c, tx | 0 <= c < |chains| && tx in chains[c] && Signed(rules, tx) :: rules.signer(tx).value in signers)
  }

  lemma AddUnsigned(rules: Rules, chains: seq<seq<Tx>>, signers: set<string>, tx: Tx)
    requires Built(rules, chains, signers) && !Signed(rules, tx)
    ensures Built(rules, chains + [[tx]], signers)
  {
    hide ChainLeq;
    var more := chains + [[tx]];
    forall c, d | 0 <= c < |more| && 0 <= d < |more| && c != d ensures ApartChains(rules, more[c], more[d]) {
      if c < |chains| && d < |chains| { assert ApartChains(rules, chains[c], chains[d]); }
    }
  }

  lemma AddSigner(rules: Rules, chains: seq<seq<Tx>>, signers: set<string>, signer: string, chain: seq<Tx>)
    requires Built(rules, chains, signers) && signer !in signers && |chain| > 0 && IsChain(rules, chain)
    requires forall tx | tx in chain :: Signed(rules, tx) && rules.signer(tx) == Some(signer)
    ensures Built(rules, chains + [chain], signers + {signer})
  {
    hide ChainLeq, IsChain, Signed;
    var more := chains + [chain];
    forall c, d | 0 <= c < |more| && 0 <= d < |more| && c != d ensures ApartChains(rules, more[c], more[d]) {
      if c < |chains| && d < |chains| { assert ApartChains(rules, chains[c], chains[d]); }
    }
  }

  lemma SortedChain(rules: Rules, txs: seq<Tx>, signer: string)
    ensures var own := SignedBy(rules, txs, signer);
      var chain := Sort(own, (a, b) => ChainLeq(rules, a, b));
      IsChain(rules, chain) && multiset(chain) == multiset(own) && |chain| == |own| &&
      forall tx | tx in chain :: Signed(rules, tx) && rules.signer(tx) == Some(signer)
  {
    hide ChainLeq, SignedBy, Signed, Sort;
    var leq := (a: Tx, b: Tx) => ChainLeq(rules, a, b);
    forall a, b, c ensures leq(a, b) || leq(b, a) ensures leq(a, b) && leq(b, c) ==> leq(a, c) {
      ChainOrder(rules, a, b, c);
    }
    var own := SignedBy(rules, txs, signer);
    SortSpec(own, leq);
    var chain := Sort(own, leq);
    forall tx | tx in chain ensures Signed(rules, tx) && rules.signer(tx) == Some(signer) {
      assert tx in multiset(chain);
      assert tx in own;
      SignedByMember(rules, txs, signer, tx);
    }
    forall i, j | 0 <= i < j < |chain| ensures SameSigner(rules, chain[i], chain[j]) && ChainLeq(rules, chain[i], chain[j]) {
      assert leq(chain[i], chain[j]);
      assert chain[i] in chain && chain[j] in chain;
    }
  }

  /** One chain per unsigned transaction and one per signer. The source goes through the signers in
      name order; here any order will do. */
  method TransactionChains(rules: Rules, txs: seq<Tx>) returns (chains: seq<seq<Tx>>)
    ensures GoodChains(rules, chains) && Pool(chains) == multiset(txs)
    ensures forall c | 0 <= c < |chains| :: |chains[c]| > 0
  {
    hide ChainLeq, GoodChains, Covered, Sort, SignedBy, Pool, IsChain, Built;
    var bySigner: map<string, seq<Tx>>;
    chains, bySigner := GroupBySigner(rules, txs);
    var signers := bySigner.Keys;
    ghost var done: set<string> := {};
    while signers != {}
      invariant Built(rules, chains, done) && signers !! done && signers + done == bySigner.Keys
      invariant Pool(chains) == multiset(Covered(rules, txs, done))
      decreases |signers|
    {
      var signer :| signer in signers;
      var chain := Sort(bySigner[signer], (a, b) => ChainLeq(rules, a, b));
      SortedChain(rules, txs, signer);
      AddSigner(rules, chains, done, signer, chain);
      PoolAppend(chains, chain);
      CoverMore(rules, txs, done, signer);
      chains := chains + [chain];
      done := done + {signer};
      signers := signers - {signer};
    }
    CoverAll(rules, txs, done);
    BuiltIsGood(rules, chains, done);
  }

  lemma BuiltIsGood(rules: Rules, chains: seq<seq<Tx>>, signers: set<string>)
    requires Built(rules, chains, signers)
    ensures GoodChains(rules, chains) && forall c | 0 <= c < |chains| :: |chains[c]| > 0
  {}

  /** The signed transactions, by signer. */
  ghost predicate Grouped(rules: Rules, txs: seq<Tx>, bySigner: map<string, seq<Tx>>) {
    (forall s | s in bySigner :: bySigner[s] == SignedBy(rules, txs, s) && |bySigner[s]| > 0) &&
    (forall s | s !in bySigner :: SignedBy(rules, txs, s) == []) &&
    forall j | 0 <= j < |txs| && Signed(rules, txs[j]) :: rules.signer(txs[j]).value in bySigner
  }

  function WithSigned(rules: Rules, bySigner: map<string, seq<Tx>>, tx: Tx): map<string, seq<Tx>> {
    if !Signed(rules, tx) then bySigner
    else
      var signer := rules.signer(tx).value;
      bySigner[signer := (if signer in bySigner then bySigner[signer] else []) + [tx]]
  }

  lemma GroupMore(rules: Rules, txs: seq<Tx>, i: nat, bySigner: map<string, seq<Tx>>)
    requires i < |txs| && Grouped(rules, txs[..i], bySigner)
    ensures Grouped(rules, txs[..i + 1], WithSigned(rules, bySigner, txs[i]))
  {
    hide SignedBy, Covered;
    OneMore(rules, txs, i);
    var next := WithSigned(rules, bySigner, txs[i]);
    var more := txs[..i + 1];
    forall j | 0 <= j < |more| && Signed(rules, more[j]) ensures rules.signer(more[j]).value in next {
      if j < i { assert more[j] == txs[..i][j]; }
    }
  }

  method GroupBySigner(rules: Rules, txs: seq<Tx>) returns (chains: seq<seq<Tx>>, bySigner: map<string, seq<Tx>>)
    ensures Built(rules, chains, {}) && Pool(chains) == multiset(Covered(rules, txs, {})) && Grouped(rules, txs, bySigner)
  {
    hide GoodChains, ChainLeq, Pool, Built, SignedBy, Covered, Grouped;
    bySigner, chains := map[], [];
    EmptyBuilt(rules);
    assert txs[..0] == [];
    for i := 0 to |txs|
      invariant Built(rules, chains, {}) && Pool(chains) == multiset(Covered(rules, txs[..i], {}))
      invariant Grouped(rules, txs[..i], bySigner)
    {
      var tx := txs[i];
      OneMore(rules, txs, i);
      GroupMore(rules, txs, i, bySigner);
      if !Signed(rules, tx) {
        AddUnsigned(rules, chains, {}, tx);
        PoolAppend(chains, [tx]);
        chains := chains + [[tx]];
      } else {
        bySigner := WithSigned(rules, bySigner, tx);
      }
    }
    assert txs[..|txs|] == txs;
  }

  lemma EmptyBuilt(rules: Rules)
    ensures Built(rules, [], {}) && Pool([]) == multiset{}
    ensures Covered(rules, [], {}) == [] && Grouped(rules, [], map[])
  {}

  lemma OneMore(rules: Rules, txs: seq<Tx>, i: nat)
    requires i < |txs|
    ensures Signed(rules, txs[i]) <==> rules.signer(txs[i]).Some? && rules.nonce(txs[i]).Some?
    ensures Covered(rules, txs[..i + 1], {}) ==
      Covered(rules, txs[..i], {}) + if Signed(rules, txs[i]) then [] else [txs[i]]
    ensures forall s :: SignedBy(rules, txs[..i + 1], s) == SignedBy(rules, txs[..i], s) +
                        if Signed(rules, txs[i]) && rules.signer(txs[i]) == Some(s) then [txs[i]] else []
  {
    assert txs[..i + 1][..i] == txs[..i];
  }

  // ------------------------------------------------------------------------ the two results

  lemma PoolOfSpent(chains: seq<seq<Tx>>)
    requires forall c | 0 <= c < |chains| :: |chains[c]| == 0
    ensures Pool(chains) == multiset{}
  {}

  lemma LeadingIsCanonical(rules: Rules, placed: seq<Tx>)
    requires Leading(rules, placed, multiset{})
    ensures Canonical(rules, placed)
  {
    hide Next;
    forall i | 0 <= i < |placed| ensures Next(rules, multiset(placed[i..]), placed[i]) {
      assert multiset(placed[i..]) + multiset{} == multiset(placed[i..]);
    }
  }

  method FillQueue(rules: Rules, chains: seq<seq<Tx>>) returns (queue: seq<Candidate>)
    requires forall c | 0 <= c < |chains| :: |chains[c]| > 0
    ensures Queued(rules, queue, chains)
  {
    queue := [];
    for c := 0 to |chains|
      invariant |queue| == c
      invariant forall i | 0 <= i < c :: queue[i] == Candidate(i, chains[i][0], rules.hash(chains[i][0]))
    {
      queue := queue + [Candidate(c, chains[c][0], rules.hash(chains[c][0]))];
    }
    forall c | 0 <= c < |chains| && |chains[c]| > 0 ensures IsQueued(queue, c) {
      assert queue[c].chain == c;
    }
  }

  /** The merge rearranges the transactions into their canonical order, which is unique. */
  method SortTxs(rules: Rules, txs: seq<Tx>) returns (ordered: seq<Tx>)
    ensures multiset(ordered) == multiset(txs) && Canonical(rules, ordered)
    ensures forall other | multiset(other) == multiset(txs) && Canonical(rules, other) :: other == ordered
    ensures InOrder(rules, ordered)
  {
    hide GoodChains, Leading, Next, Canonical, InOrder, IsLeast, Queued, Pool;
    var chains := TransactionChains(rules, txs);
    var index := seq(|chains|, _ => 0);
    ghost var rest := chains;
    var queue := FillQueue(rules, chains);
    ordered := [];
    assert Leading(rules, [], Pool(rest)) by { NothingPlaced(rules, Pool(rest)); }
    while |queue| > 0
      invariant |index| == |rest| == |chains|
      invariant forall c | 0 <= c < |chains| :: 0 <= index[c] <= |chains[c]| && rest[c] == chains[c][index[c]..]
      invariant GoodChains(rules, rest) && Queued(rules, queue, rest)
      invariant multiset(ordered) + Pool(rest) == multiset(txs)
      invariant Leading(rules, ordered, Pool(rest))
      decreases |Pool(rest)|
    {
      var candidate, left, k := PopLeast(queue);
      var c := candidate.chain;
      QueueStep(rules, queue, rest, k, left);
      LeastIsNext(rules, queue, rest, k);
      PlaceNext(rules, ordered, Pool(rest), candidate.tx);
      PoolAdvance(rest, c);
      NextIsLeft(rules, Pool(rest), candidate.tx);
      AdvanceKeepsChains(rules, rest, c);
      ordered := ordered + [candidate.tx];
      rest := rest[c := rest[c][1..]];
      index := index[c := index[c] + 1];
      queue := left;
      if index[c] < |chains[c]| {
        var tx := chains[c][index[c]];
        queue := left + [Candidate(c, tx, rules.hash(tx))];
      }
    }
    QueueSpent(rules, rest);
    LeadingIsCanonical(rules, ordered);
    CanonicalIsInOrder(rules, ordered);
    forall other | multiset(other) == multiset(txs) && Canonical(rules, other) ensures other == ordered {
      CanonicalUnique(rules, other, ordered);
    }
  }

  lemma NothingPlaced(rules: Rules, left: multiset<Tx>)
    ensures Leading(rules, [], left)
  {}

  lemma QueueSpent(rules: Rules, rest: seq<seq<Tx>>)
    requires Queued(rules, [], rest)
    ensures Pool(rest) == multiset{}
  {
    forall c | 0 <= c < |rest| ensures |rest[c]| == 0 { assert !IsQueued([], c); }
    PoolOfSpent(rest);
  }

  /** Accepted are exactly the canonical orders. */
  method IsOrdered(rules: Rules, txs: seq<Tx>) returns (ok: bool)
    ensures ok <==> Canonical(rules, txs)
    ensures ok <==> InOrder(rules, txs)
  {
    hide Canonical, InOrder;
    CanonicalIsInOrder(rules, txs);
    var ordered := SortTxs(rules, txs);
    assert |multiset(ordered)| == |multiset(txs)|;
    for i := 0 to |txs|
      invariant txs[..i] == ordered[..i]
    {
      if txs[i] != ordered[i] {
        return false;
      }
    }
    assert txs[..|txs|] == txs && ordered[..|txs|] == ordered;
    return true;
  }
}
