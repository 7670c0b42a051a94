/**
 Pools given by their accounts, and what batches of offers make of them where nothing costs anything and nothing
 is local.
 */
module AccountPools {
  import opened Options
  import opened TxLists
  import opened Accounts
  import opened Equaliser
  import opened PoolValues
  import opened QueueTrim
  import opened PoolOperations
  import opened PoolRuns
  import W = WaterFilling

  const NOW: nat := 1
  const CHAIN: ChainState := ChainState(map[], map[])
  const WORLD: World := World(CHAIN, NOW, {}, 0)

  const NOTHING: Account := Account(map[], map[], {}, 0, None)

  function AccountOf(m: map<Address, Account>, a: Address): Account {
    if a in m then m[a] else NOTHING
  }

  /** The pool in which the accounts are these; their nonces are kept by the pending state, if there is one. */
  function PoolOf(m: map<Address, Account>, managed: bool): Pool {
    Pool(map a | a in m && m[a].pending != map[] :: m[a].pending,
         map a | a in m && m[a].queue != map[] :: m[a].queue,
         map a, tx | a in m && tx in m[a].known :: HashOf(tx) := tx,
         map a | a in m && m[a].beat.Some? :: m[a].beat.value,
         if managed then Some(Managed(CHAIN, map a | a in m :: m[a].nonce)) else None)
  }

  predicate Own(m: map<Address, Account>, managed: bool) {
    forall a | a in m :: (forall tx | tx in m[a].known :: tx.from == a) && (managed || m[a].nonce == 0)
  }

  lemma PoolOfIs(m: map<Address, Account>, managed: bool)
    requires Own(m, managed)
    ensures Represented(PoolOf(m, managed))
    ensures forall a {:trigger Of(PoolOf(m, managed), a)} :: Of(PoolOf(m, managed), a) == AccountOf(m, a)
  {
    var p := PoolOf(m, managed);
    assert Hashed(p.all);
    forall a ensures Known(p.all, a) == AccountOf(m, a).known {
      forall tx ensures tx in p.all.Values <==> tx.from in m && tx in m[tx.from].known {
        ValueIff(p.all, tx);
      }
    }
  }

  function QueueSizes(m: map<Address, Account>): W.Lengths {
    map a | a in m :: |m[a].queue|
  }

  function PendingSizes(m: map<Address, Account>): W.Lengths {
    map a | a in m :: |m[a].pending|
  }

  ghost function TotalQueued(m: map<Address, Account>): nat {
    W.Total(QueueSizes(m))
  }

  ghost function TotalPending(m: map<Address, Account>): nat {
    W.Total(PendingSizes(m))
  }

  lemma TotalsAre(m: map<Address, Account>, managed: bool)
    ensures W.Total(Lens(PoolOf(m, managed).queue)) == TotalQueued(m)
    ensures W.Total(Lens(PoolOf(m, managed).pending)) == TotalPending(m)
  {
    QueueLens(m, managed);
    PendingLens(m, managed);
    hide PoolOf, Lens, QueueSizes, PendingSizes;
    SameTotal(QueueSizes(m), Lens(PoolOf(m, managed).queue));
    SameTotal(PendingSizes(m), Lens(PoolOf(m, managed).pending));
  }

  /** Sizes that differ only by entries of zero. */
  predicate SameSizes(sizes: W.Lengths, lens: W.Lengths) {
    lens.Keys <= sizes.Keys && forall a | a in sizes :: sizes[a] == W.Part(lens, a)
  }

  lemma SameTotal(sizes: W.Lengths, lens: W.Lengths)
    requires SameSizes(sizes, lens)
    ensures W.Total(lens) == W.Total(sizes)
  {
    var none: W.Lengths := map[];
    W.TotalOfParts(sizes, lens, none);
  }

  lemma QueueLens(m: map<Address, Account>, managed: bool)
    ensures SameSizes(QueueSizes(m), Lens(PoolOf(m, managed).queue))
  {
  }

  lemma PendingLens(m: map<Address, Account>, managed: bool)
    ensures SameSizes(PendingSizes(m), Lens(PoolOf(m, managed).pending))
  {
  }

  function Promoting(a: Account): Account {
    Advance(a, 0, 0, NOW, MAX_QUEUED_PER_ACCOUNT)
  }

  function AllPromoting(m: map<Address, Account>): map<Address, Account> {
    map a | a in m :: Promoting(m[a])
  }

  ghost predicate AllPlaced(m: map<Address, Account>) {
    forall a | a in m :: Placed(m[a], a)
  }

  /** Promotion advances every account. */
  lemma PoolAdvances(m: map<Address, Account>)
    requires AllPlaced(m)
    ensures var m' := AllPromoting(m);
            && AllPlaced(m') && Own(m, true) && Own(m', true)
            && Continues(PoolOf(m, true), PoolOf(m', true)) && Advanced(PoolOf(m, true), PoolOf(m', true), CHAIN, NOW)
  {
    hide Advance, Of, Represented;
    var m' := AllPromoting(m);
    forall a | a in m ensures Placed(m'[a], a) {
      AdvanceKeepsPlaced(m[a], 0, 0, NOW, MAX_QUEUED_PER_ACCOUNT, a);
    }
    PoolOfIs(m, true);
    PoolOfIs(m', true);
    forall a ensures Of(PoolOf(m', true), a) == AdvanceAt(PoolOf(m, true), a, CHAIN, NOW) {
      assert Of(PoolOf(m, true), a) == AccountOf(m, a);
      if a !in m {
        AdvanceNothing(NOTHING, 0, 0, NOW, MAX_QUEUED_PER_ACCOUNT);
      }
    }
  }

  function StagesOf(p: Pool): Stages {
    Stages(p, {}, 0, p, map[])
  }

  /** Where both limiters are idle that is all it does. */
  lemma PoolPromotes(m: map<Address, Account>)
    requires AllPlaced(m)
    requires TotalPending(AllPromoting(m)) <= MAX_PENDING_TOTAL && TotalQueued(AllPromoting(m)) <= MAX_QUEUED_IN_TOTAL
    ensures AllPlaced(AllPromoting(m)) && Own(AllPromoting(m), true)
    ensures var p' := PoolOf(AllPromoting(m), true); Promotes(PoolOf(m, true), StagesOf(p'), p', CHAIN, NOW, {})
  {
    hide AllPromoting, Advanced, Represented, Lens, W.Total, PoolOf, TotalPending, TotalQueued;
    PoolAdvances(m);
    TotalsAre(AllPromoting(m), true);
    HasPendingState(m);
    HasPendingState(AllPromoting(m));
  }

  lemma HasPendingState(m: map<Address, Account>)
    ensures PoolOf(m, true).managed.Some?
  {
  }

  /** Offers of one account reach that account. */
  lemma PoolOffered(m: map<Address, Account>, a: Address, txs: seq<(Tx, Checks)>, managed: bool)
    requires Own(m, managed) && forall i | 0 <= i < |txs| :: txs[i].0.from == a
    ensures var m' := m[a := EnterAll(AccountOf(m, a), a, txs, {}, 0, CHAIN)];
            Own(m', managed) && Offered(PoolOf(m, managed), PoolOf(m', managed), txs, WORLD)
  {
    hide Of, EnterAll, Represented;
    var m' := m[a := EnterAll(AccountOf(m, a), a, txs, {}, 0, CHAIN)];
    EnterAllOwn(AccountOf(m, a), a, txs);
    PoolOfIs(m, managed);
    PoolOfIs(m', managed);
    forall c ensures Of(PoolOf(m', managed), c) == EnterAll(Of(PoolOf(m, managed), c), c, txs, {}, 0, CHAIN) {
      assert Of(PoolOf(m, managed), c) == AccountOf(m, c) && Of(PoolOf(m', managed), c) == AccountOf(m', c);
      if c != a {
        NotEntered(AccountOf(m, c), c, a, txs);
      }
    }
  }

  lemma {:induction false} EnterAllOwn(account: Account, a: Address, txs: seq<(Tx, Checks)>)
    requires forall tx | tx in account.known :: tx.from == a
    requires forall i | 0 <= i < |txs| :: txs[i].0.from == a
    ensures var b := EnterAll(account, a, txs, {}, 0, CHAIN);
            (forall tx | tx in b.known :: tx.from == a) && b.nonce == account.nonce
    decreases |txs|
  {
    hide Refuse;
    if txs != [] {
      EnterAllOwn(Enter(account, a, txs[0].0, {}, 0, CHAIN, txs[0].1), a, txs[1..]);
    }
  }

  lemma {:induction false} NotEntered(account: Account, c: Address, a: Address, txs: seq<(Tx, Checks)>)
    requires c != a && forall i | 0 <= i < |txs| :: txs[i].0.from == a
    ensures EnterAll(account, c, txs, {}, 0, CHAIN) == account
    decreases |txs|
  {
    if txs != [] {
      NotEntered(account, c, a, txs[1..]);
    }
  }

  /** A batch of one account, on a pool that has a pending state and stays within its limits. */
  lemma Batch(m: map<Address, Account>, a: Address, txs: seq<(Tx, Checks)>, queued: Account, m': map<Address, Account>)
    requires Own(m, true) && forall i | 0 <= i < |txs| :: txs[i].0.from == a
    requires queued == EnterAll(AccountOf(m, a), a, txs, {}, 0, CHAIN)
    requires AllPlaced(m[a := queued]) && m' == AllPromoting(m[a := queued])
    requires TotalPending(m') <= MAX_PENDING_TOTAL && TotalQueued(m') <= MAX_QUEUED_IN_TOTAL
    ensures Steps(PoolOf(m, true), AddingBatch(txs), WORLD, PoolOf(m', true))
    ensures AllPlaced(m') && Own(m', true)
  {
    hide AllPromoting, AllPlaced, Own, Of, EnterAll, Represented, Promotes, PoolOf, Promoted, Enters, TotalPending,
         TotalQueued;
    var between := m[a := queued];
    PoolOffered(m, a, txs, true);
    PoolPromotes(between);
    PoolContinues(PoolOf(m, true), m');
    PoolPromoted(between, m');
    assert PromotedBy(PoolOf(between, true), WORLD, PoolOf(m', true));
  }

  lemma PoolContinues(p: Pool, m: map<Address, Account>)
    requires Own(m, true)
    ensures Continues(p, PoolOf(m, true))
  {
    PoolOfIs(m, true);
  }

  lemma PoolPromoted(m: map<Address, Account>, m': map<Address, Account>)
    requires Promotes(PoolOf(m, true), StagesOf(PoolOf(m', true)), PoolOf(m', true), CHAIN, NOW, {})
    ensures Promoted(PoolOf(m, true), PoolOf(m', true), CHAIN, NOW, {})
  {
    hide Promotes;
    assert StartsAt(PoolOf(m, true), PoolOf(m, true), CHAIN, NOW, {});
  }

  /** Without a pending state the pool takes the head of the chain on and promotes, and then promotes again. */
  lemma FirstBatch(a: Address, txs: seq<(Tx, Checks)>, queued: Account, m': map<Address, Account>)
    requires forall i | 0 <= i < |txs| :: txs[i].0.from == a
    requires queued == EnterAll(NOTHING, a, txs, {}, 0, CHAIN) && Placed(queued, a)
    requires queued.pending == map[] && queued.nonce == 0
    requires m' == AllPromoting(map[a := queued]) && AllPromoting(m') == m'
    requires TotalPending(m') <= MAX_PENDING_TOTAL && TotalQueued(m') <= MAX_QUEUED_IN_TOTAL
    ensures Steps(PoolOf(map[], false), AddingBatch(txs), WORLD, PoolOf(m', true))
    ensures AllPlaced(m') && Own(m', true)
  {
    hide AllPromoting, Own, Of, EnterAll, Represented, Promotes, PoolOf, Promoted, Enters, TotalPending, TotalQueued;
    var between := map[a := queued];
    NothingOwned();
    PoolOffered(map[], a, txs, false);
    assert map[][a := queued] == between;
    PoolPromotes(between);
    PoolPromotes(m');
    PoolContinues(PoolOf(map[], false), m');
    PoolFirstPromoted(between, m');
    assert PromotedBy(PoolOf(between, false), WORLD, PoolOf(m', true));
  }

  lemma NothingOwned()
    ensures Own(map[], false)
  {
  }

  lemma PoolFirstPromoted(m: map<Address, Account>, m': map<Address, Account>)
    requires Own(m, false) && forall a | a in m :: m[a].pending == map[]
    requires Promotes(PoolOf(m, true), StagesOf(PoolOf(m', true)), PoolOf(m', true), CHAIN, NOW, {})
    requires Promotes(PoolOf(m', true), StagesOf(PoolOf(m', true)), PoolOf(m', true), CHAIN, NOW, {})
    ensures Promoted(PoolOf(m, false), PoolOf(m', true), CHAIN, NOW, {})
  {
    hide Promotes, Refreshed;
    PoolRefreshed(m);
    assert Resets(PoolOf(m, false), PoolOf(m', true), CHAIN, NOW, {});
    assert StartsAt(PoolOf(m, false), PoolOf(m', true), CHAIN, NOW, {});
  }

  /** The first promotion takes the head of the chain on, with nothing pending yet. */
  lemma PoolRefreshed(m: map<Address, Account>)
    requires Own(m, false) && forall a | a in m :: m[a].pending == map[]
    ensures Refreshed(PoolOf(m, false), PoolOf(m, true), CHAIN)
  {
    hide Of, Represented;
    PoolOfIs(m, false);
    PoolOfIs(m, true);
    forall a ensures Of(PoolOf(m, true), a) == RefreshAt(PoolOf(m, false), a, CHAIN) {
      assert Of(PoolOf(m, true), a) == AccountOf(m, a) && Of(PoolOf(m, false), a) == AccountOf(m, a);
    }
  }

  /** The totals change with the one account set. */
  lemma TotalsWith(m: map<Address, Account>, a: Address, account: Account)
    ensures TotalQueued(m[a := account]) == TotalQueued(m) - |AccountOf(m, a).queue| + |account.queue|
    ensures TotalPending(m[a := account]) == TotalPending(m) - |AccountOf(m, a).pending| + |account.pending|
  {
    QueueSizesWith(m, a, account);
    PendingSizesWith(m, a, account);
    hide W.Total, QueueSizes, PendingSizes;
    TotalWith(QueueSizes(m), a, |account.queue|);
    TotalWith(PendingSizes(m), a, |account.pending|);
  }

  lemma QueueSizesWith(m: map<Address, Account>, a: Address, account: Account)
    ensures QueueSizes(m[a := account]) == QueueSizes(m)[a := |account.queue|]
    ensures W.Part(QueueSizes(m), a) == |AccountOf(m, a).queue|
  {
  }

  lemma PendingSizesWith(m: map<Address, Account>, a: Address, account: Account)
    ensures PendingSizes(m[a := account]) == PendingSizes(m)[a := |account.pending|]
    ensures W.Part(PendingSizes(m), a) == |AccountOf(m, a).pending|
  {
  }

  lemma TotalWith(sizes: W.Lengths, a: Address, n: nat)
    ensures W.Total(sizes[a := n]) == W.Total(sizes) - W.Part(sizes, a) + n
  {
    if a in sizes {
      W.TotalUpdate(sizes, a, n);
    } else {
      W.TotalAdd(sizes, a, n);
    }
  }

  lemma TotalsOfNone()
    ensures TotalQueued(map[]) == 0 && TotalPending(map[]) == 0
  {
    assert QueueSizes(map[]) == map[] && PendingSizes(map[]) == map[];
  }

  lemma ApartIff(m: map<Address, Account>)
    requires Own(m, true)
    ensures AllApart(PoolOf(m, true)) <==> forall a | a in m :: Apart(m[a])
  {
    hide Of, PoolOf;
    PoolOfIs(m, true);
    forall a ensures Of(PoolOf(m, true), a) == AccountOf(m, a) {
    }
    if AllApart(PoolOf(m, true)) {
      forall a | a in m ensures Apart(m[a]) {
        assert Apart(Of(PoolOf(m, true), a));
      }
    }
  }

  // ------------------------------------------------------------------ promotion of an account

  /** Nothing is too old or unpayable here, and nothing exceeds the cap. */
  lemma PromotingIs(a: Account)
    requires |PromoteReady(a, NOW).queue| <= MAX_QUEUED_PER_ACCOUNT && forall n | n in a.queue :: a.queue[n].cost == 0
    ensures Promoting(a) == PromoteReady(a, NOW)
  {
    hide PromoteReady;
    assert From(a.queue, 0) == a.queue && Payable(a.queue, 0) == a.queue;
    ForgetsNothing(a);
    ForgetsNothing(PromoteReady(a, NOW));
  }

  lemma ForgetsNothing(a: Account)
    ensures Forget(a, a.queue) == a
  {
    assert a.queue - a.queue.Keys == map[];
  }

  /** An account whose queue starts above the nonce expected next stays as it is. */
  lemma NothingReady(a: Account)
    requires forall n | n in a.queue :: a.nonce < n && a.queue[n].cost == 0
    requires |a.queue| <= MAX_QUEUED_PER_ACCOUNT
    ensures Promoting(a) == a
  {
    assert Ready(a.queue, a.nonce) == [];
    assert a.queue - Nonces([]) == a.queue;
    PromotingIs(a);
  }

  lemma PromoteStep(a: Account, txs: seq<Tx>)
    ensures PromoteAll(a, txs, NOW) == if txs == [] then a else PromoteAll(Promote(a, txs[0], NOW), txs[1..], NOW)
  {
  }
}
