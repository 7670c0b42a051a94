/**
 A run of the pool that ends with a nonce in the queue and in the pending list of one account: a batch offers
 replacements for two pending transactions, with a gap between them.
 */
module Replacements {
  import opened Options
  import opened TxLists
  import opened Accounts
  import opened PoolValues
  import opened QueueTrim
  import opened PoolOperations
  import opened PoolRuns
  import opened AccountPools

  const OWNER: Address := 1

  function Offer(nonce: nat, price: nat): (Tx, Checks) {
    (Tx(OWNER, nonce, price, 0, 0), Checks(true, true, true, true))
  }

  /** Three transactions in a row, and replacements for the first and the last of them. */
  const FIRST: seq<(Tx, Checks)> := [Offer(0, 1), Offer(1, 1), Offer(2, 1)]
  const SECOND: seq<(Tx, Checks)> := [Offer(0, 2), Offer(2, 2)]

  // ------------------------------------------------------------------ the account along the run

  function T(nonce: nat, price: nat): Tx {
    Offer(nonce, price).0
  }

  /** With three transactions queued, with these pending, with the replacements queued, and after promotion. */
  const QUEUED: Account :=
    Account(map[], map[0 := T(0, 1), 1 := T(1, 1), 2 := T(2, 1)], {T(0, 1), T(1, 1), T(2, 1)}, 0, None)
  const PENDING: Account :=
    Account(map[0 := T(0, 1), 1 := T(1, 1), 2 := T(2, 1)], map[], {T(0, 1), T(1, 1), T(2, 1)}, 3, Some(NOW))
  const REPLACING: Account :=
    PENDING.(queue := map[0 := T(0, 2), 2 := T(2, 2)], known := {T(0, 1), T(1, 1), T(2, 1), T(0, 2), T(2, 2)})
  const REPLACED: Account :=
    Account(map[0 := T(0, 2), 1 := T(1, 1), 2 := T(2, 1)], map[2 := T(2, 2)],
            {T(1, 1), T(2, 1), T(0, 2), T(2, 2)}, 1, Some(NOW))

  lemma EntersOneMore(a: Account, nonce: nat, price: nat, b: Account)
    requires T(nonce, price) !in a.known && nonce !in a.queue
    requires b == a.(queue := a.queue[nonce := T(nonce, price)], known := a.known + {T(nonce, price)})
    ensures Enter(a, OWNER, T(nonce, price), {}, 0, CHAIN, Offer(nonce, price).1) == b
  {
  }

  lemma FirstIsQueued()
    ensures EnterAll(NOTHING, OWNER, FIRST, {}, 0, CHAIN) == QUEUED
  {
    hide Enter;
    var a := Account(map[], map[0 := T(0, 1)], {T(0, 1)}, 0, None);
    var b := Account(map[], map[0 := T(0, 1), 1 := T(1, 1)], {T(0, 1), T(1, 1)}, 0, None);
    EntersOneMore(NOTHING, 0, 1, a);
    EntersOneMore(a, 1, 1, b);
    EntersOneMore(b, 2, 1, QUEUED);
    assert FIRST[1..] == [Offer(1, 1), Offer(2, 1)] && FIRST[1..][1..] == [Offer(2, 1)];
    assert EnterAll(QUEUED, OWNER, [], {}, 0, CHAIN) == QUEUED;
    assert EnterAll(b, OWNER, [Offer(2, 1)], {}, 0, CHAIN) == QUEUED;
    assert EnterAll(a, OWNER, FIRST[1..], {}, 0, CHAIN) == QUEUED;
  }

  lemma SecondIsQueued()
    ensures EnterAll(PENDING, OWNER, SECOND, {}, 0, CHAIN) == REPLACING
  {
    hide Enter;
    var a := PENDING.(queue := map[0 := T(0, 2)], known := PENDING.known + {T(0, 2)});
    EntersOneMore(PENDING, 0, 2, a);
    EntersOneMore(a, 2, 2, REPLACING);
    assert SECOND[1..] == [Offer(2, 2)] && SECOND[1..][1..] == [];
    assert EnterAll(REPLACING, OWNER, [], {}, 0, CHAIN) == REPLACING;
    assert EnterAll(a, OWNER, SECOND[1..], {}, 0, CHAIN) == REPLACING;
  }

  lemma AllAreReady()
    ensures Ready(QUEUED.queue, 0) == [T(0, 1), T(1, 1), T(2, 1)]
  {
    hide Run;
    var items := QUEUED.queue;
    assert 0 in items && Ready(items, 0) == Run(items, 0);
    RunOf(items, 0);
    RunOf(items - {0}, 1);
    RunOf(items - {0} - {1}, 2);
    RunOf(items - {0} - {1} - {2}, 3);
  }

  lemma AllArePromoted()
    ensures Promoting(QUEUED) == PENDING
  {
    hide Ready, PromoteAll, Advance;
    var items := QUEUED.queue;
    var txs := [T(0, 1), T(1, 1), T(2, 1)];
    AllAreReady();
    assert items - Nonces(txs) == map[];
    PromoteStep(QUEUED.(queue := map[]), txs);
    var a := Promote(QUEUED.(queue := map[]), T(0, 1), NOW);
    PromoteStep(a, txs[1..]);
    var b := Promote(a, T(1, 1), NOW);
    PromoteStep(b, txs[1..][1..]);
    assert Promote(b, T(2, 1), NOW) == PENDING;
    PromoteStep(PENDING, []);
    assert txs[1..][1..][1..] == [];
    assert PromoteReady(QUEUED, NOW) == PENDING;
    PromotingIs(QUEUED);
  }

  lemma RunOf(items: Items, n: nat)
    ensures Run(items, n) == if n in items then [items[n]] + Run(items - {n}, n + 1) else []
  {
  }

  /** The gap between the replacements keeps the second one from being ready. */
  lemma OnlyOneIsPromoted()
    ensures Promoting(REPLACING) == REPLACED
  {
    hide Run, PromoteAll, Advance;
    var items := REPLACING.queue;
    assert 0 in items && Ready(items, 3) == Run(items, 0);
    RunOf(items, 0);
    RunOf(items - {0}, 1);
    assert Ready(items, 3) == [T(0, 2)];
    assert Nonces([T(0, 2)]) == {0} && items - {0} == REPLACED.queue;
    PromoteStep(REPLACING.(queue := REPLACED.queue), [T(0, 2)]);
    assert Promote(REPLACING.(queue := REPLACED.queue), T(0, 2), NOW) == REPLACED;
    PromoteStep(REPLACED, []);
    assert [T(0, 2)][1..] == [];
    assert PromoteReady(REPLACING, NOW) == REPLACED;
    PromotingIs(REPLACING);
  }

  // ------------------------------------------------------------------ the run

  /** The pool in which this account is all there is. */
  function Solo(a: Account): Pool {
    PoolOf(map[OWNER := a], true)
  }

  lemma SoloTotals(a: Account)
    ensures TotalQueued(map[OWNER := a]) == |a.queue| && TotalPending(map[OWNER := a]) == |a.pending|
  {
    TotalsOfNone();
    TotalsWith(map[], OWNER, a);
    assert map[][OWNER := a] == map[OWNER := a];
  }

  lemma SoloFirst(b: Account, c: Account, txs: seq<(Tx, Checks)>)
    requires forall i | 0 <= i < |txs| :: txs[i].0.from == OWNER
    requires b == EnterAll(NOTHING, OWNER, txs, {}, 0, CHAIN) && Placed(b, OWNER) && b.pending == map[] && b.nonce == 0
    requires c == Promoting(b) == Promoting(c) && |c.pending| <= MAX_PENDING_TOTAL && |c.queue| <= MAX_QUEUED_IN_TOTAL
    ensures Steps(PoolOf(map[], false), AddingBatch(txs), WORLD, Solo(c)) && Own(map[OWNER := c], true)
  {
    hide Of, Steps, Promoting, EnterAll, PoolOf, AllPlaced, Placed;
    SoloTotals(c);
    assert AllPromoting(map[OWNER := b]) == map[OWNER := c] == AllPromoting(map[OWNER := c]);
    FirstBatch(OWNER, txs, b, map[OWNER := c]);
  }

  lemma SoloNext(a: Account, b: Account, c: Account, txs: seq<(Tx, Checks)>)
    requires Own(map[OWNER := a], true) && forall i | 0 <= i < |txs| :: txs[i].0.from == OWNER
    requires b == EnterAll(a, OWNER, txs, {}, 0, CHAIN) && Placed(b, OWNER)
    requires c == Promoting(b) && |c.pending| <= MAX_PENDING_TOTAL && |c.queue| <= MAX_QUEUED_IN_TOTAL
    ensures Steps(Solo(a), AddingBatch(txs), WORLD, Solo(c))
    ensures AllPlaced(map[OWNER := c]) && Own(map[OWNER := c], true)
  {
    hide Of, Steps, Promoting, EnterAll, PoolOf, Placed, Own;
    SoloTotals(c);
    assert map[OWNER := a][OWNER := b] == map[OWNER := b];
    assert AllPromoting(map[OWNER := b]) == map[OWNER := c];
    Batch(map[OWNER := a], OWNER, txs, b, map[OWNER := c]);
  }

  lemma FirstStep()
    ensures Steps(PoolOf(map[], false), AddingBatch(FIRST), WORLD, Solo(PENDING))
    ensures Own(map[OWNER := PENDING], true)
  {
    hide Steps, Promoting, EnterAll, Solo, PoolOf, Own;
    FirstIsQueued();
    AllArePromoted();
    NothingReady(PENDING);
    SoloFirst(QUEUED, PENDING, FIRST);
  }

  lemma SecondStep()
    ensures Steps(Solo(PENDING), AddingBatch(SECOND), WORLD, Solo(REPLACED))
    ensures AllPlaced(map[OWNER := REPLACED]) && Own(map[OWNER := REPLACED], true)
  {
    hide Steps, Promoting, EnterAll, Solo, PoolOf, Own, AllPlaced;
    FirstStep();
    SecondIsQueued();
    OnlyOneIsPromoted();
    SoloNext(PENDING, REPLACING, REPLACED, SECOND);
  }

  /** A run of two batches: after the first no queued nonce is pending, after the second one is. */
  lemma ReplacementBreaksApart()
    ensures var states := [PoolOf(map[], false), Solo(PENDING), Solo(REPLACED)];
            && PoolRun(states, [AddingBatch(FIRST), AddingBatch(SECOND)], [WORLD, WORLD])
            && AllApart(states[1]) && !AllApart(states[2])
  {
    hide Steps, AllApart, Own, AllPlaced;
    FirstStep();
    SecondStep();
    ApartIff(map[OWNER := PENDING]);
    ApartIff(map[OWNER := REPLACED]);
    assert Apart(PENDING);
    assert !Apart(REPLACED) by {
      assert 2 in REPLACED.queue && 2 in REPLACED.pending;
    }
    assert OWNER in map[OWNER := REPLACED] && map[OWNER := REPLACED][OWNER] == REPLACED;
    assert PoolOf(map[], false) == Pool(map[], map[], map[], map[], None);
  }
}
