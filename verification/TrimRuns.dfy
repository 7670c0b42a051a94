/**
 A run of the pool in which trimming the queue takes a pending transaction away: it continues the run that
 leaves a nonce both queued and pending until other accounts fill the queue.
 */
module TrimRuns {
  import opened Options
  import opened TxLists
  import opened Accounts
  import opened Equaliser
  import opened PoolValues
  import opened QueueTrim
  import opened PoolOperations
  import opened PoolRuns
  import opened AccountPools
  import opened Replacements
  import W = WaterFilling

  // ------------------------------------------------------------------ accounts that only queue

  function GapTx(a: Address, nonce: nat): Tx {
    Tx(a, nonce, 1, 0, 0)
  }

  /** Offers of the nonces 1 to n: without nonce 0 none of them can be executed. */
  function Gap(a: Address, n: nat): seq<(Tx, Checks)> {
    seq(n, i requires 0 <= i < n => (GapTx(a, i + 1), Checks(true, true, true, true)))
  }

  function GapItems(a: Address, n: nat): Items {
    map k: nat | 1 <= k <= n :: GapTx(a, k)
  }

  /** The account that has queued them. */
  function GapAccount(a: Address, n: nat): Account {
    Account(map[], GapItems(a, n), set k: nat | 1 <= k <= n :: GapTx(a, k), 0, None)
  }

  lemma {:induction false} GapSize(a: Address, n: nat)
    ensures |GapItems(a, n)| == n
  {
    if n > 0 {
      GapSize(a, n - 1);
      assert GapItems(a, n) == GapItems(a, n - 1)[n := GapTx(a, n)];
    } else {
      assert GapItems(a, 0) == map[];
    }
  }

  lemma GapEnters(a: Address, i: nat)
    ensures Enter(GapAccount(a, i), a, GapTx(a, i + 1), {}, 0, CHAIN, Checks(true, true, true, true)) ==
            GapAccount(a, i + 1)
  {
    var tx := GapTx(a, i + 1);
    assert tx !in GapAccount(a, i).known && i + 1 !in GapItems(a, i);
    assert GapItems(a, i)[i + 1 := tx] == GapItems(a, i + 1);
    assert GapAccount(a, i).known + {tx} == GapAccount(a, i + 1).known;
  }

  lemma {:induction false} GapIsQueued(a: Address, n: nat, i: nat)
    requires i <= n
    ensures EnterAll(GapAccount(a, i), a, Gap(a, n)[i..], {}, 0, CHAIN) == GapAccount(a, n)
    decreases n - i
  {
    hide Enter, GapAccount;
    if i < n {
      GapEnters(a, i);
      GapIsQueued(a, n, i + 1);
      assert Gap(a, n)[i..][0] == Gap(a, n)[i] && Gap(a, n)[i..][1..] == Gap(a, n)[i + 1..];
    }
  }

  lemma GapStays(a: Address, n: nat)
    requires n <= MAX_QUEUED_PER_ACCOUNT
    ensures Placed(GapAccount(a, n), a) && Promoting(GapAccount(a, n)) == GapAccount(a, n)
    ensures |GapAccount(a, n).queue| == n
    ensures EnterAll(NOTHING, a, Gap(a, n), {}, 0, CHAIN) == GapAccount(a, n)
  {
    GapSize(a, n);
    hide Promoting, EnterAll;
    NothingReady(GapAccount(a, n));
    GapIsQueued(a, n, 0);
    assert Gap(a, n)[0..] == Gap(a, n);
    assert GapAccount(a, 0) == NOTHING;
  }

  // ------------------------------------------------------------------ filling the queue

  /** Accounts that promotion leaves as they are. */
  ghost predicate Settled(m: map<Address, Account>) {
    AllPlaced(m) && Own(m, true) && AllPromoting(m) == m
  }

  lemma GapSettled(m: map<Address, Account>, a: Address, n: nat)
    requires Settled(m) && a !in m && n <= MAX_QUEUED_PER_ACCOUNT
    ensures var m' := m[a := GapAccount(a, n)];
            && Settled(m') && TotalQueued(m') == TotalQueued(m) + n && TotalPending(m') == TotalPending(m)
  {
    hide Promoting, Placed, TotalQueued, TotalPending;
    GapStays(a, n);
    TotalsWith(m, a, GapAccount(a, n));
    var m' := m[a := GapAccount(a, n)];
    forall b | b in m' ensures Promoting(m'[b]) == m'[b] {
      assert b in m ==> AllPromoting(m)[b] == m[b];
    }
  }

  /** A batch of a new account that stays within the limit is queued. */
  lemma GapBatch(m: map<Address, Account>, a: Address, n: nat)
    requires Settled(m) && a !in m && n <= MAX_QUEUED_PER_ACCOUNT
    requires TotalPending(m) <= MAX_PENDING_TOTAL && TotalQueued(m) + n <= MAX_QUEUED_IN_TOTAL
    ensures Steps(PoolOf(m, true), AddingBatch(Gap(a, n)), WORLD, PoolOf(m[a := GapAccount(a, n)], true))
  {
    hide Steps, PoolOf, Placed, EnterAll, Own, AllPromoting, GapAccount, TotalQueued, TotalPending;
    GapStays(a, n);
    GapSettled(m, a, n);
    Batch(m, a, Gap(a, n), GapAccount(a, n), m[a := GapAccount(a, n)]);
  }

  /** Only this account was ever heard from, and it has a single transaction queued. */
  ghost predicate HeardFrom(m: map<Address, Account>, o: Address)
    requires o in m
  {
    |m[o].queue| == 1 && forall b | b in m && b != o :: m[b].beat.None?
  }

  /** The account without what it has queued, removed one by one. */
  function Emptied(a: Account): Account {
    RemoveAll(a, Flatten(a.queue))
  }

  function WithEmptied(m: map<Address, Account>, o: Address): map<Address, Account>
    requires o in m
  {
    m[o := Emptied(m[o])]
  }

  lemma GapHeardFrom(m: map<Address, Account>, a: Address, n: nat, o: Address)
    requires o in m && HeardFrom(m, o) && a !in m
    ensures HeardFrom(m[a := GapAccount(a, n)], o)
  {
  }

  /** One transaction of a new account above the limit costs the account heard from last its only queued one. */
  lemma TrimmingBatch(m: map<Address, Account>, a: Address, o: Address)
    requires o in m && Settled(m) && a !in m && HeardFrom(m, o)
    requires TotalQueued(m) == MAX_QUEUED_IN_TOTAL && TotalPending(m) <= MAX_PENDING_TOTAL
    ensures Steps(PoolOf(m, true), AddingBatch(Gap(a, 1)), WORLD,
                  PoolOf(WithEmptied(m[a := GapAccount(a, 1)], o), true))
  {
    hide Steps, EnterAll, Own, AllPromoting, AllPlaced, WithEmptied, Of, Promotes, PoolOf, Represented, HeardFrom,
         TotalQueued, TotalPending, GapAccount, TrimsTo;
    var between := m[a := GapAccount(a, 1)];
    var m' := WithEmptied(between, o);
    GapStays(a, 1);
    GapSettled(m, a, 1);
    GapHeardFrom(m, a, 1, o);
    PoolOffered(m, a, Gap(a, 1), true);
    assert AccountOf(m, a) == NOTHING;
    EmptiedOwned(between, o);
    TrimmingPromotion(between, o);
    PoolContinues(PoolOf(m, true), m');
    StepWith(PoolOf(m, true), PoolOf(between, true), PoolOf(m', true), Gap(a, 1), o);
  }

  /** A promotion in which nothing advances and the queue of one account is emptied. */
  ghost predicate TrimsTo(p: Pool, o: Address, p': Pool) {
    Promotes(p, Stages(p, {}, 0, p, map[o := 0]), p', CHAIN, NOW, {})
  }

  lemma StepWith(p: Pool, q: Pool, p': Pool, txs: seq<(Tx, Checks)>, o: Address)
    requires Offered(p, q, txs, WORLD) && Continues(p, p') && TrimsTo(q, o, p')
    ensures Steps(p, AddingBatch(txs), WORLD, p')
  {
    hide Promotes, Enters, Represented;
    assert q.managed.Some? by { PromotesManaged(q, Stages(q, {}, 0, q, map[o := 0]), p'); }
    assert StartsAt(q, q, CHAIN, NOW, {});
    assert PromotedBy(q, WORLD, p');
  }

  lemma PromotesManaged(p: Pool, s: Stages, p': Pool)
    requires Promotes(p, s, p', CHAIN, NOW, {})
    ensures p.managed.Some?
  {
  }

  lemma EmptiedOwned(m: map<Address, Account>, o: Address)
    requires o in m && AllPlaced(m) && Own(m, true)
    ensures Own(WithEmptied(m, o), true)
  {
    hide RemoveAll, Flatten;
    RemoveAllKeeps(m[o], Flatten(m[o].queue), o);
  }

  lemma TrimmingPromotion(m: map<Address, Account>, o: Address)
    requires o in m && Settled(m) && HeardFrom(m, o)
    requires TotalPending(m) <= MAX_PENDING_TOTAL && TotalQueued(m) == MAX_QUEUED_IN_TOTAL + 1
    ensures TrimsTo(PoolOf(m, true), o, PoolOf(WithEmptied(m, o), true))
  {
    hide AllPromoting, AllPlaced, Own, WithEmptied, HeardFrom, PoolOf, Advanced, Represented, Trimmed, Lens, W.Total,
         TotalQueued, TotalPending;
    var m' := WithEmptied(m, o);
    PoolAdvances(m);
    EmptiedOwned(m, o);
    TotalsAre(m, true);
    HasPendingState(m);
    HasPendingState(m');
    PoolContinues(PoolOf(m, true), m');
    TrimsOne(m, o);
  }

  lemma TrimsOne(m: map<Address, Account>, o: Address)
    requires o in m && AllPlaced(m) && Own(m, true) && HeardFrom(m, o) && TotalQueued(m) == MAX_QUEUED_IN_TOTAL + 1
    ensures Trimmed(PoolOf(m, true), PoolOf(WithEmptied(m, o), true), map[o := 0])
  {
    hide AllPlaced, Own, WithEmptied, W.Total, Lens, Cuts, Of, TotalQueued, PoolOf, Kept;
    TotalsAre(m, true);
    PoolParts(m, o);
    CutsOne(PoolOf(m, true).queue, o);
    KeepsNone(m, o);
  }

  lemma PoolParts(m: map<Address, Account>, o: Address)
    requires o in m && HeardFrom(m, o)
    ensures var p := PoolOf(m, true);
            && o in p.queue && p.queue[o] == m[o].queue
            && forall b | b != o :: Heartbeat(p.beats, b) == 0
  {
    assert m[o].queue != map[];
  }

  lemma KeepsNone(m: map<Address, Account>, o: Address)
    requires o in m && AllPlaced(m) && Own(m, true) && HeardFrom(m, o)
    ensures Kept(PoolOf(m, true), PoolOf(WithEmptied(m, o), true), map[o := 0])
  {
    hide AllPlaced, Own, Of, PoolOf, RemoveAll, Flatten;
    var m' := WithEmptied(m, o);
    var p, p' := PoolOf(m, true), PoolOf(m', true);
    EmptiedOwned(m, o);
    PoolOfIs(m, true);
    PoolOfIs(m', true);
    PoolParts(m, o);
    forall a ensures Of(p', a) == if a in map[o := 0] then TrimmedAt(p, a, 0) else Of(p, a) {
      assert Of(p', a) == AccountOf(m', a) && Of(p, a) == AccountOf(m, a);
    }
  }

  lemma CutsOne(lists: Lists, o: Address)
    requires o in lists && |lists[o]| == 1
    ensures W.Total(Cuts(lists, map[o := 0])) == 1
  {
    var none: W.Lengths := map[];
    assert Cuts(lists, map[o := 0]) == none[o := 1];
    W.TotalAdd(none, o, 1);
  }

  // ------------------------------------------------------------------ the run

  lemma Extend(states: seq<Pool>, operations: seq<Operation>, worlds: seq<World>, o: Operation, p': Pool)
    requires PoolRun(states, operations, worlds) && Steps(states[|operations|], o, WORLD, p')
    ensures PoolRun(states + [p'], operations + [o], worlds + [WORLD])
  {
    hide Steps;
  }

  lemma ReplacedSettled()
    ensures var m := map[OWNER := REPLACED];
            Settled(m) && HeardFrom(m, OWNER) && TotalQueued(m) == 1 && TotalPending(m) == 3
  {
    hide Promoting, AllPlaced, Own, Steps, Solo;
    SecondStep();
    SoloTotals(REPLACED);
    NothingReady(REPLACED);
    assert AllPromoting(map[OWNER := REPLACED]) == map[OWNER := REPLACED];
  }

  /** The accounts of a run so far: the one with a nonce in both lists, and some that only queue. */
  ghost predicate Filled(m: map<Address, Account>, a: Address, n: nat, states: seq<Pool>, operations: seq<Operation>,
                         worlds: seq<World>) {
    && PoolRun(states, operations, worlds) && states[|operations|] == PoolOf(m, true)
    && Settled(m) && OWNER in m && HeardFrom(m, OWNER) && m[OWNER] == REPLACED
    && TotalQueued(m) == n && TotalPending(m) == 3
    && forall b | b in m :: b < a
  }

  lemma Fill(m: map<Address, Account>, a: Address, n: nat, k: nat, states: seq<Pool>, operations: seq<Operation>,
             worlds: seq<World>)
    returns (m': map<Address, Account>, states': seq<Pool>, operations': seq<Operation>, worlds': seq<World>)
    requires Filled(m, a, n, states, operations, worlds) && k <= MAX_QUEUED_PER_ACCOUNT && n + k <= MAX_QUEUED_IN_TOTAL
    ensures Filled(m', a + 1, n + k, states', operations', worlds')
  {
    hide Steps, PoolOf, Settled, HeardFrom, TotalQueued, TotalPending, GapAccount, PoolRun;
    GapBatch(m, a, k);
    GapSettled(m, a, k);
    GapHeardFrom(m, a, k, OWNER);
    m' := m[a := GapAccount(a, k)];
    RunLength(states, operations, worlds);
    Extend(states, operations, worlds, AddingBatch(Gap(a, k)), PoolOf(m', true));
    states', worlds' := states + [PoolOf(m', true)], worlds + [WORLD];
    operations' := operations + [AddingBatch(Gap(a, k))];
  }

  lemma RunLength(states: seq<Pool>, operations: seq<Operation>, worlds: seq<World>)
    requires PoolRun(states, operations, worlds)
    ensures |states| == |operations| + 1
  {
    hide Steps;
  }

  lemma StartFilling() returns (states: seq<Pool>, operations: seq<Operation>, worlds: seq<World>)
    ensures Filled(map[OWNER := REPLACED], OWNER + 1, 1, states, operations, worlds)
  {
    hide Steps, AllApart, Settled, HeardFrom, TotalQueued, TotalPending;
    ReplacementBreaksApart();
    ReplacedSettled();
    states := [PoolOf(map[], false), Solo(PENDING), Solo(REPLACED)];
    operations, worlds := [AddingBatch(FIRST), AddingBatch(SECOND)], [WORLD, WORLD];
  }

  lemma FillUp()
    returns (m: map<Address, Account>, states: seq<Pool>, operations: seq<Operation>, worlds: seq<World>)
    ensures Filled(m, OWNER + 5, MAX_QUEUED_IN_TOTAL, states, operations, worlds)
  {
    hide Filled;
    states, operations, worlds := StartFilling();
    m, states, operations, worlds := Fill(map[OWNER := REPLACED], OWNER + 1, 1, 255, states, operations, worlds);
    m, states, operations, worlds := Fill(m, OWNER + 2, 256, 256, states, operations, worlds);
    m, states, operations, worlds := Fill(m, OWNER + 3, 512, 256, states, operations, worlds);
    m, states, operations, worlds := Fill(m, OWNER + 4, 768, 256, states, operations, worlds);
  }

  /**
   A run in which the last batch, a single transaction of another account, makes the pool trim its queue, and
   that takes the pending transaction of nonce 2 away from the account heard from last.
   */
  lemma TrimTakesPending()
    returns (states: seq<Pool>, operations: seq<Operation>, worlds: seq<World>, last: nat, other: Address)
    ensures PoolRun(states, operations, worlds) && |operations| == last + 1 && other != OWNER
    ensures operations[last] == AddingBatch(Gap(other, 1))
    ensures 2 in At(states[last].pending, OWNER) && 2 !in At(states[last + 1].pending, OWNER)
  {
    hide Steps, PoolOf, Settled, HeardFrom, TotalQueued, TotalPending, GapAccount, PoolRun, Emptied;
    var m;
    m, states, operations, worlds := FillUp();
    last, other := |operations|, OWNER + 5;
    RunLength(states, operations, worlds);
    TrimmingBatch(m, other, OWNER);
    var m' := WithEmptied(m[other := GapAccount(other, 1)], OWNER);
    Extend(states, operations, worlds, AddingBatch(Gap(other, 1)), PoolOf(m', true));
    states, worlds := states + [PoolOf(m', true)], worlds + [WORLD];
    operations := operations + [AddingBatch(Gap(other, 1))];
    PendingBefore(m);
    EmptiedLoses();
    PendingBefore(m');
  }

  lemma PendingBefore(m: map<Address, Account>)
    ensures At(PoolOf(m, true).pending, OWNER) == AccountOf(m, OWNER).pending
  {
  }

  lemma EmptiedLoses()
    ensures 2 in REPLACED.pending && 2 !in Emptied(REPLACED).pending
  {
    hide Remove, Steps, Promoting, EnterAll, Solo, PoolOf, Own, Promotes;
    SecondStep();
    assert Placed(map[OWNER := REPLACED][OWNER], OWNER);
    FlattenOne();
    RemoveTakesNonce(REPLACED, T(2, 2), OWNER);
    assert RemoveAll(Remove(REPLACED, T(2, 2)), []) == Remove(REPLACED, T(2, 2));
  }

  lemma FlattenOne()
    ensures Flatten(REPLACED.queue) == [T(2, 2)]
  {
    assert 2 in REPLACED.queue;
    assert REPLACED.queue - {2} == map[];
    FlattenNothing();
  }
}
