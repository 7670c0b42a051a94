/**
 Runs of the pool: any sequence of its operations, starting from an empty pool.
 */
module PoolRuns {
  import opened Options
  import opened TxLists
  import opened Accounts
  import opened Equaliser
  import opened PoolValues
  import opened PoolOperations
  import opened QueueTrim
  import W = WaterFilling

  /**
   The surroundings of an operation: the head of the chain, the time, the transactions marked local, the
   price floor.
   */
  datatype World = World(chain: ChainState, now: nat, local: set<Tx>, minPrice: nat)

  datatype Operation =
    | Adding(tx: Tx, checks: Checks)
    | AddingBatch(txs: seq<(Tx, Checks)>)
    | Resetting
    | Listing
    | Removing(hashes: seq<Hash>)
    | Expiring

  /** What an operation may make of a pool. */
  ghost predicate Steps(p: Pool, o: Operation, w: World, p': Pool) {
    && Continues(p, p')
    && match o
       case Adding(tx, checks) =>
         if Refused(p, tx, checks, w) then p' == p
         else exists q :: Offered(p, q, [(tx, checks)], w) && PromotedBy(q, w, p')
       case AddingBatch(txs) => exists q :: Offered(p, q, txs, w) && PromotedBy(q, w, p')
       case Resetting => Resets(p, p', w.chain, w.now, w.local)
       case Listing => exists q :: PromotedBy(p, w, q) && Continues(q, p') && Demotes(q, p', w.chain)
       case Removing(hashes) => forall a {:trigger Of(p', a)} :: Of(p', a) == RemoveAll(Of(p, a), TxsOf(hashes, a))
       case Expiring => Expired(p, p', w.now)
  }

  ghost predicate Offered(p: Pool, p': Pool, txs: seq<(Tx, Checks)>, w: World) {
    Continues(p, p') && Enters(p, p', txs, w.local, w.minPrice, w.chain)
  }

  predicate Refused(p: Pool, tx: Tx, checks: Checks, w: World) {
    Refuse(tx, HashOf(tx) in p.all, tx in w.local, w.minPrice, w.chain, checks).Some?
  }

  ghost predicate PromotedBy(p: Pool, w: World, p': Pool) {
    Promoted(p, p', w.chain, w.now, w.local)
  }

  /** No transaction offered has the nonce of a pending one of its account. */
  ghost predicate NoReplacement(p: Pool, o: Operation) {
    match o
    case Adding(tx, _) => tx.nonce !in At(p.pending, tx.from)
    case AddingBatch(txs) => forall i | 0 <= i < |txs| :: txs[i].0.nonce !in At(p.pending, txs[i].0.from)
    case _ => true
  }

  /** What is queued once the transactions are offered: none of it is left queued by promotion while pending. */
  ghost predicate OffersSettle(p: Pool, txs: seq<(Tx, Checks)>, w: World) {
    forall a {:trigger Of(p, a)} :: SettlesAt(EnterAll(Of(p, a), a, txs, w.local, w.minPrice, w.chain), a, w.chain)
  }

  /** The condition under which an operation keeps queued and pending nonces apart. */
  ghost predicate LeavesApart(p: Pool, o: Operation, w: World) {
    match o
    case Adding(tx, checks) => Refused(p, tx, checks, w) || OffersSettle(p, [(tx, checks)], w)
    case AddingBatch(txs) => OffersSettle(p, txs, w)
    case _ => true
  }

  lemma OffersSettleIff(p: Pool, q: Pool, txs: seq<(Tx, Checks)>, w: World)
    requires Enters(p, q, txs, w.local, w.minPrice, w.chain)
    ensures OffersSettle(p, txs, w) <==> AllSettleApart(q, w.chain)
  {
    hide Of, EnterAll, SettlesAt;
    forall a ensures SettlesAt(EnterAll(Of(p, a), a, txs, w.local, w.minPrice, w.chain), a, w.chain)
                     <==> SettlesAt(Of(q, a), a, w.chain)
    {
      assert Of(q, a) == EnterAll(Of(p, a), a, txs, w.local, w.minPrice, w.chain);
    }
  }

  /**
   A batch keeps queued and pending nonces apart exactly if promotion leaves nothing queued that is pending,
   where neither limiter has anything to do.
   */
  lemma BatchKeepsApartIff(p: Pool, q: Pool, s: Stages, p': Pool, txs: seq<(Tx, Checks)>, w: World)
    requires WellFormed(p) && p.managed.Some?
    requires Offered(p, q, txs, w) && Promotes(q, s, p', w.chain, w.now, w.local)
    requires W.Total(Lens(s.advanced.pending)) <= MAX_PENDING_TOTAL
    requires W.Total(Lens(s.advanced.queue)) <= MAX_QUEUED_IN_TOTAL
    ensures Steps(p, AddingBatch(txs), w, p')
    ensures AllApart(p') <==> LeavesApart(p, AddingBatch(txs), w)
  {
    hide WellFormed, AllApart, AllSettleApart, OffersSettle, Enters, W.Total, Lens, Represented, Advanced, Equalised,
         Trimmed;
    EnteredKeepsWellFormed(p, q, txs, w.local, w.minPrice, w.chain);
    PromotionKeepsApartIff(q, s, p', w.chain, w.now, w.local);
    OffersSettleIff(p, q, txs, w);
    hide Promotes;
    assert StartsAt(q, q, w.chain, w.now, w.local);
    assert PromotedBy(q, w, p');
  }

  /** Offers whose nonces are not pending are among those that keep the lists apart. */
  lemma NoReplacementLeavesApart(p: Pool, o: Operation, w: World)
    requires AllApart(p) && NoReplacement(p, o)
    ensures LeavesApart(p, o, w)
  {
    match o
    case Adding(tx, checks) => FreshOffersSettle(p, [(tx, checks)], w);
    case AddingBatch(txs) => FreshOffersSettle(p, txs, w);
    case _ =>
  }

  lemma FreshOffersSettle(p: Pool, txs: seq<(Tx, Checks)>, w: World)
    requires AllApart(p) && forall i | 0 <= i < |txs| :: txs[i].0.nonce !in At(p.pending, txs[i].0.from)
    ensures OffersSettle(p, txs, w)
  {
    hide Known, EnterAll, SettlesApart;
    forall a ensures SettlesAt(EnterAll(Of(p, a), a, txs, w.local, w.minPrice, w.chain), a, w.chain) {
      assert Apart(Of(p, a));
      EnterAllKeepsApart(Of(p, a), a, txs, w.local, w.minPrice, w.chain);
      ApartSettles(EnterAll(Of(p, a), a, txs, w.local, w.minPrice, w.chain), NonceOf(w.chain, a),
                   BalanceOf(w.chain, a), MAX_QUEUED_PER_ACCOUNT);
    }
  }

  /** The operations that end with a promotion. */
  predicate Settles(p: Pool, o: Operation, w: World) {
    o.AddingBatch? || o.Resetting? || (o.Adding? && !Refused(p, o.tx, o.checks, w))
  }

  ghost predicate PoolRun(states: seq<Pool>, operations: seq<Operation>, worlds: seq<World>) {
    && |states| == |operations| + 1 && |worlds| == |operations|
    && states[0] == Pool(map[], map[], map[], map[], None)
    && forall i | 0 <= i < |operations| :: Steps(states[i], operations[i], worlds[i], states[i + 1])
  }

  lemma StepKeepsApart(p: Pool, o: Operation, w: World, p': Pool)
    requires WellFormed(p) && Steps(p, o, w, p') && AllApart(p) && LeavesApart(p, o, w)
    ensures AllApart(p')
    ensures Settles(p, o, w) ==> WithinLimits(p', w.local)
  {
    hide WellFormed, AllApart, AllSettleApart, OffersSettle, WithinLimits, Promoted, Demotes, Enters, Resets, Expired,
         Refuse;
    match o
    case Adding(tx, checks) =>
      if !Refused(p, tx, checks, w) {
        var q :| Offered(p, q, [(tx, checks)], w) && PromotedBy(q, w, p');
        OffersSettleIff(p, q, [(tx, checks)], w);
        EnteredKeepsWellFormed(p, q, [(tx, checks)], w.local, w.minPrice, w.chain);
        PromotedSettles(q, p', w.chain, w.now, w.local);
      }
    case AddingBatch(txs) =>
      var q :| Offered(p, q, txs, w) && PromotedBy(q, w, p');
      OffersSettleIff(p, q, txs, w);
      EnteredKeepsWellFormed(p, q, txs, w.local, w.minPrice, w.chain);
      PromotedSettles(q, p', w.chain, w.now, w.local);
    case Resetting =>
      ResetSettles(p, p', w.chain, w.now, w.local);
    case Listing =>
      var q :| PromotedBy(p, w, q) && Continues(q, p') && Demotes(q, p', w.chain);
      AllApartSettle(p, w.chain);
      PromotedSettles(p, q, w.chain, w.now, w.local);
      PromotedKeepsWellFormed(p, q, w.chain, w.now, w.local);
      DemotionKeepsApart(q, p', w.chain);
    case Removing(hashes) =>
      RemovalsKeepApart(p, p', hashes);
    case Expiring =>
      ExpiryKeepsApart(p, p', w.now);
  }

  lemma RemovalsKeepApart(p: Pool, p': Pool, hashes: seq<Hash>)
    requires WellFormed(p) && AllApart(p)
    requires forall a {:trigger Of(p', a)} :: Of(p', a) == RemoveAll(Of(p, a), TxsOf(hashes, a))
    ensures AllApart(p')
  {
    hide Of, RemoveAll, Placed, Alive, Apart, Hashed;
    forall a ensures Apart(Of(p', a)) {
      assert Placed(Of(p, a), a) && Apart(Of(p, a));
      RemoveAllKeeps(Of(p, a), TxsOf(hashes, a), a);
    }
  }

  lemma ExpiryKeepsApart(p: Pool, p': Pool, now: nat)
    requires WellFormed(p) && AllApart(p) && Expired(p, p', now)
    ensures AllApart(p')
  {
    hide Of, RemoveAll, Placed, Alive, Apart, Hashed;
    forall a ensures Apart(Of(p', a)) {
      assert Placed(Of(p, a), a) && Apart(Of(p, a));
      assert Of(p', a) == ExpireAt(p, a, now);
      if a in p.queue {
        RemoveAllKeeps(Of(p, a), Flatten(p.queue[a]), a);
      }
    }
  }

  lemma EmptyPool()
    ensures var p := Pool(map[], map[], map[], map[], None); WellFormed(p) && AllApart(p)
  {
    var p := Pool(map[], map[], map[], map[], None);
    forall a ensures Placed(Of(p, a), a) && Alive(Of(p, a)) && Apart(Of(p, a)) {
    }
  }

  /** Every operation keeps the pool well formed, whatever transactions are offered, removed or promoted. */
  lemma StepKeepsWellFormed(p: Pool, o: Operation, w: World, p': Pool)
    requires WellFormed(p) && Steps(p, o, w, p')
    ensures WellFormed(p')
  {
    hide WellFormed, Represented, Promoted, Demotes, Enters, Resets, Refuse, Of, RemoveAll;
    match o
    case Adding(tx, checks) =>
      if !Refused(p, tx, checks, w) {
        var q :| Offered(p, q, [(tx, checks)], w) && PromotedBy(q, w, p');
        EnteredKeepsWellFormed(p, q, [(tx, checks)], w.local, w.minPrice, w.chain);
        PromotedKeepsWellFormed(q, p', w.chain, w.now, w.local);
      }
    case AddingBatch(txs) =>
      var q :| Offered(p, q, txs, w) && PromotedBy(q, w, p');
      EnteredKeepsWellFormed(p, q, txs, w.local, w.minPrice, w.chain);
      PromotedKeepsWellFormed(q, p', w.chain, w.now, w.local);
    case Resetting =>
      ResetKeepsWellFormed(p, p', w.chain, w.now, w.local);
    case Listing =>
      var q :| PromotedBy(p, w, q) && Continues(q, p') && Demotes(q, p', w.chain);
      PromotedKeepsWellFormed(p, q, w.chain, w.now, w.local);
      DemotionKeepsWellFormed(q, p', w.chain);
    case Removing(hashes) =>
      RemovalsKeepWellFormed(p, p', (a: Address) => TxsOf(hashes, a));
    case Expiring =>
      ExpiryKeepsWellFormed(p, p', w.now);
  }

  lemma ExpiryKeepsWellFormed(p: Pool, p': Pool, now: nat)
    requires WellFormed(p) && Continues(p, p') && Expired(p, p', now)
    ensures WellFormed(p')
  {
    hide Of, RemoveAll, WellFormed, Represented;
    forall a ensures Of(p', a) == RemoveAll(Of(p, a), if Expires(p, a, now) then Flatten(p.queue[a]) else []) {
      assert Of(p', a) == ExpireAt(p, a, now);
      NothingRemoved(Of(p, a));
    }
    RemovalsKeepWellFormed(p, p', (a: Address) => if Expires(p, a, now) then Flatten(p.queue[a]) else []);
  }

  /** In every run of operations the pool is well formed throughout. */
  lemma {:induction false} WellFormedInEveryRun(states: seq<Pool>, operations: seq<Operation>, worlds: seq<World>,
                                                i: nat)
    requires PoolRun(states, operations, worlds) && i <= |operations|
    ensures WellFormed(states[i])
  {
    hide WellFormed, Steps;
    if i == 0 {
      EmptyPool();
    } else {
      WellFormedInEveryRun(states, operations, worlds, i - 1);
      StepKeepsWellFormed(states[i - 1], operations[i - 1], worlds[i - 1], states[i]);
    }
  }

  /**
   In every run in which no operation leaves anything queued that is pending, no queued nonce is ever
   pending as well, and whenever an operation ends with a promotion the limits hold.
   */
  lemma {:induction false} LimitsInEveryRun(states: seq<Pool>, operations: seq<Operation>, worlds: seq<World>, i: nat)
    requires PoolRun(states, operations, worlds) && i <= |operations|
    requires forall j | 0 <= j < i :: LeavesApart(states[j], operations[j], worlds[j])
    ensures AllApart(states[i])
    ensures 0 < i && Settles(states[i - 1], operations[i - 1], worlds[i - 1]) ==>
              WithinLimits(states[i], worlds[i - 1].local)
  {
    hide AllApart, WithinLimits, LeavesApart, Settles, WellFormed, Steps;
    if i == 0 {
      EmptyPool();
    } else {
      LimitsInEveryRun(states, operations, worlds, i - 1);
      WellFormedInEveryRun(states, operations, worlds, i - 1);
      StepKeepsApart(states[i - 1], operations[i - 1], worlds[i - 1], states[i]);
    }
  }

  // ------------------------------------------------------------------ the pending limit, with or without replacements

  /** The operation offers the transaction, which meets all checks in its surroundings. */
  ghost predicate Admits(o: Operation, w: World, tx: Tx) {
    match o
    case Adding(t, checks) => OfferedWell([(t, checks)], tx, w.local, w.minPrice, w.chain)
    case AddingBatch(txs) => OfferedWell(txs, tx, w.local, w.minPrice, w.chain)
    case _ => false
  }

  /** An operation makes known only what it offers and meets all checks. */
  ghost predicate KnowsOffers(p: Pool, o: Operation, w: World, p': Pool) {
    forall a, tx {:trigger tx in Of(p', a).known} | tx in Of(p', a).known :: tx in Of(p, a).known || Admits(o, w, tx)
  }

  /** What an operation makes of the pending lists: they are limited afresh, or no list gets longer. */
  ghost predicate LimitsOrShrinks(p: Pool, o: Operation, w: World, p': Pool) {
    || Shrinks(p, p')
    || exists q :: KnowsOffers(p, o, w, q) && PendingLimited(p', q, w.local)
  }

  lemma OfferedKnows(p: Pool, q: Pool, txs: seq<(Tx, Checks)>, w: World, o: Operation)
    requires Offered(p, q, txs, w)
    requires forall tx | OfferedWell(txs, tx, w.local, w.minPrice, w.chain) :: Admits(o, w, tx)
    ensures KnowsOffers(p, o, w, q)
  {
    hide Of, EnterAll, OfferedWell, Admits;
    forall a, tx | tx in Of(q, a).known ensures tx in Of(p, a).known || Admits(o, w, tx) {
      assert Of(q, a) == EnterAll(Of(p, a), a, txs, w.local, w.minPrice, w.chain);
      EnterAllKnows(Of(p, a), a, txs, w.local, w.minPrice, w.chain);
    }
  }

  lemma OfferedLimits(p: Pool, q: Pool, txs: seq<(Tx, Checks)>, w: World, o: Operation, p': Pool)
    requires WellFormed(p) && Offered(p, q, txs, w) && PromotedBy(q, w, p')
    requires forall tx | OfferedWell(txs, tx, w.local, w.minPrice, w.chain) :: Admits(o, w, tx)
    ensures KnowsOffers(p, o, w, p') && LimitsOrShrinks(p, o, w, p')
  {
    hide Of, WellFormed, Represented, Promoted, Enters, PendingLimited, Shrinks, Admits, OfferedWell;
    OfferedKnows(p, q, txs, w, o);
    EnteredKeepsWellFormed(p, q, txs, w.local, w.minPrice, w.chain);
    PromotedLimitsPending(q, p', w.chain, w.now, w.local);
    forall a, tx | tx in Of(p', a).known ensures tx in Of(p, a).known || Admits(o, w, tx) {
      assert Of(p', a).known <= Of(q, a).known;
    }
  }

  lemma ListingLimits(p: Pool, q: Pool, w: World, p': Pool)
    requires WellFormed(p) && PromotedBy(p, w, q) && Continues(q, p') && Demotes(q, p', w.chain)
    ensures KnowsOffers(p, Listing, w, p') && LimitsOrShrinks(p, Listing, w, p')
  {
    hide Of, WellFormed, Promoted, Demotes, PendingLimited, Shrinks, NoneEmpty, Hashed;
    PromotedKeepsWellFormed(p, q, w.chain, w.now, w.local);
    PromotedLimitsPending(p, q, w.chain, w.now, w.local);
    DemotionShrinks(q, p', w.chain);
    WellFormedLists(q);
    ShrinkingKeepsLimit(q, p', p, w.local);
    forall a, tx | tx in Of(p', a).known ensures tx in Of(p, a).known {
      assert Of(p', a).known <= Of(q, a).known;
      assert Of(q, a).known <= Of(p, a).known;
    }
  }

  lemma StepLimitsPending(p: Pool, o: Operation, w: World, p': Pool)
    requires WellFormed(p) && Steps(p, o, w, p')
    ensures KnowsOffers(p, o, w, p') && LimitsOrShrinks(p, o, w, p')
  {
    hide Of, WellFormed, Represented, Promoted, Demotes, Enters, Resets, Refuse, RemoveAll, PendingLimited, Expired;
    match o
    case Adding(tx, checks) =>
      if !Refused(p, tx, checks, w) {
        var q :| Offered(p, q, [(tx, checks)], w) && PromotedBy(q, w, p');
        OfferedLimits(p, q, [(tx, checks)], w, o, p');
      }
    case AddingBatch(txs) =>
      var q :| Offered(p, q, txs, w) && PromotedBy(q, w, p');
      OfferedLimits(p, q, txs, w, o, p');
    case Resetting =>
      ResetLimitsPending(p, p', w.chain, w.now, w.local);
      assert KnowsOffers(p, o, w, p);
    case Listing =>
      var q :| PromotedBy(p, w, q) && Continues(q, p') && Demotes(q, p', w.chain);
      ListingLimits(p, q, w, p');
    case Removing(hashes) =>
      RemovalsShrink(p, p', (a: Address) => TxsOf(hashes, a));
    case Expiring =>
      ExpiryShrinks(p, p', w.now);
  }

  lemma ExpiryShrinks(p: Pool, p': Pool, now: nat)
    requires WellFormed(p) && Expired(p, p', now)
    ensures Shrinks(p, p') && forall a {:trigger Of(p', a)} :: Of(p', a).known <= Of(p, a).known
  {
    hide Of, RemoveAll, WellFormed, Represented, Shrinks;
    forall a ensures Of(p', a) == RemoveAll(Of(p, a), if Expires(p, a, now) then Flatten(p.queue[a]) else []) {
      assert Of(p', a) == ExpireAt(p, a, now);
      NothingRemoved(Of(p, a));
    }
    RemovalsShrink(p, p', (a: Address) => if Expires(p, a, now) then Flatten(p.queue[a]) else []);
  }

  /** The transaction was offered by one of the first i operations of a run, and met all checks then. */
  ghost predicate WasAdmitted(operations: seq<Operation>, worlds: seq<World>, i: nat, tx: Tx) {
    exists j :: 0 <= j < i <= |operations| && |worlds| == |operations| && Admits(operations[j], worlds[j], tx)
  }

  /** ... and it was marked as local during one of them. */
  ghost predicate WasLocal(worlds: seq<World>, i: nat, tx: Tx) {
    exists j :: 0 <= j < i <= |worlds| && tx in worlds[j].local
  }

  ghost predicate OfferedLocally(operations: seq<Operation>, worlds: seq<World>, i: nat, a: Address) {
    exists tx: Tx :: tx.from == a && WasAdmitted(operations, worlds, i, tx) && WasLocal(worlds, i, tx)
  }

  /** So at that time it was recent, payable and local or dear enough at the head of the chain. */
  lemma AdmittedThen(operations: seq<Operation>, worlds: seq<World>, i: nat, tx: Tx)
    requires WasAdmitted(operations, worlds, i, tx)
    ensures exists j :: && 0 <= j < i <= |worlds|
                        && (var w := worlds[j];
                            && (tx.from in w.chain.nonces ==> w.chain.nonces[tx.from] <= tx.nonce)
                            && (tx.from in w.chain.balances ==> tx.cost <= w.chain.balances[tx.from])
                            && (tx.from !in w.chain.balances ==> tx.cost == 0)
                            && (tx in w.local || w.minPrice <= tx.price))
  {
    var j :| 0 <= j < i <= |operations| && Admits(operations[j], worlds[j], tx);
    var w := worlds[j];
    assert tx in w.local || w.minPrice <= tx.price;
  }

  /** In every run the pool knows only what was offered to it and met all checks at that time. */
  lemma {:induction false} KnownInEveryRun(states: seq<Pool>, operations: seq<Operation>, worlds: seq<World>, i: nat,
                                           a: Address, tx: Tx)
    requires PoolRun(states, operations, worlds) && i <= |operations| && tx in Of(states[i], a).known
    ensures WasAdmitted(operations, worlds, i, tx)
  {
    hide WellFormed, Steps, Shrinks, PendingLimited;
    if 0 < i {
      WellFormedInEveryRun(states, operations, worlds, i - 1);
      StepLimitsPending(states[i - 1], operations[i - 1], worlds[i - 1], states[i]);
      if tx in Of(states[i - 1], a).known {
        KnownInEveryRun(states, operations, worlds, i - 1, a, tx);
      }
    }
  }

  /**
   In every state of every run, replacements or not, the pending limit holds, or everybody with more than 16
   pending has offered a transaction that was marked as local.
   */
  lemma {:induction false} PendingLimitInEveryRun(states: seq<Pool>, operations: seq<Operation>, worlds: seq<World>,
                                                  i: nat)
    requires PoolRun(states, operations, worlds) && i <= |operations|
    ensures W.Total(Lens(states[i].pending)) <= 4096
            || forall a | a in states[i].pending && 16 < |states[i].pending[a]| ::
                 OfferedLocally(operations, worlds, i, a)
  {
    hide WellFormed, Steps, Of, W.Total, OfferedLocally;
    if i == 0 {
      NothingPending();
    } else {
      PendingLimitInEveryRun(states, operations, worlds, i - 1);
      WellFormedInEveryRun(states, operations, worlds, i - 1);
      WellFormedInEveryRun(states, operations, worlds, i);
      WellFormedLists(states[i - 1]);
      WellFormedLists(states[i]);
      StepLimitsPending(states[i - 1], operations[i - 1], worlds[i - 1], states[i]);
      if Shrinks(states[i - 1], states[i]) {
        ShorterLists(states[i - 1], states[i]);
        OfferedBefore(operations, worlds, i - 1);
      } else {
        var q :| KnowsOffers(states[i - 1], operations[i - 1], worlds[i - 1], q)
            && PendingLimited(states[i], q, worlds[i - 1].local);
        forall a | a in states[i].pending && KnowsLocal(Of(q, a), worlds[i - 1].local)
          ensures OfferedLocally(operations, worlds, i, a)
        {
          LocalWasOffered(states, operations, worlds, i, q, a);
        }
      }
    }
  }

  lemma NothingPending()
    ensures var none: Lists := map[]; W.Total(Lens(none)) == 0
  {
    var none: Lists := map[];
    assert Lens(none) == map[];
  }

  lemma OfferedBefore(operations: seq<Operation>, worlds: seq<World>, i: nat)
    requires i < |operations| && |worlds| == |operations|
    ensures forall a :: OfferedLocally(operations, worlds, i, a) ==> OfferedLocally(operations, worlds, i + 1, a)
    ensures forall tx :: WasAdmitted(operations, worlds, i, tx) ==> WasAdmitted(operations, worlds, i + 1, tx)
  {
    forall a | OfferedLocally(operations, worlds, i, a) ensures OfferedLocally(operations, worlds, i + 1, a) {
      var tx: Tx :| tx.from == a && WasAdmitted(operations, worlds, i, tx) && WasLocal(worlds, i, tx);
      assert WasAdmitted(operations, worlds, i + 1, tx) && WasLocal(worlds, i + 1, tx);
    }
  }

  lemma LocalWasOffered(states: seq<Pool>, operations: seq<Operation>, worlds: seq<World>, i: nat, q: Pool, a: Address)
    requires PoolRun(states, operations, worlds) && 0 < i <= |operations|
    requires KnowsOffers(states[i - 1], operations[i - 1], worlds[i - 1], q)
             && KnowsLocal(Of(q, a), worlds[i - 1].local)
    ensures OfferedLocally(operations, worlds, i, a)
  {
    hide Steps, Admits;
    var tx :| tx in Of(q, a).known && tx in worlds[i - 1].local;
    if tx in Of(states[i - 1], a).known {
      KnownInEveryRun(states, operations, worlds, i - 1, a, tx);
      OfferedBefore(operations, worlds, i - 1);
    } else {
      assert Admits(operations[i - 1], worlds[i - 1], tx);
    }
    assert WasAdmitted(operations, worlds, i, tx) && WasLocal(worlds, i, tx);
  }
}
