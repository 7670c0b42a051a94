/**
 What the operations of the pool do to the lists of an account, said by nonces, prices, costs and the head of the
 chain.
 */
module PoolContents {
  import opened Options
  import opened TxLists
  import opened Accounts
  import opened AccountContents
  import opened Equaliser
  import opened PoolValues
  import opened QueueTrim
  import opened PoolOperations
  import W = WaterFilling

  /** The nonce is not used up at the head of the chain. */
  predicate Recent(chain: ChainState, a: Address, n: nat) {
    a in chain.nonces ==> chain.nonces[a] <= n
  }

  /** The account has the funds at the head of the chain. */
  predicate Affords(chain: ChainState, a: Address, cost: nat) {
    if a in chain.balances then cost <= chain.balances[a] else cost == 0
  }

  lemma RecentIff(chain: ChainState, a: Address, n: nat)
    ensures Recent(chain, a, n) <==> NonceOf(chain, a) <= n
    ensures forall cost: nat :: Affords(chain, a, cost) <==> cost <= BalanceOf(chain, a)
  {
  }

  // ------------------------------------------------------------------ demotion and reset

  /** Everything pending from the account's nonce up to this one can be paid for. */
  ghost predicate Continuous(p: Pool, chain: ChainState, a: Address, n: nat) {
    && a in p.pending && n in p.pending[a] && Recent(chain, a, n)
    && forall m | m in p.pending[a] && Recent(chain, a, m) && m <= n :: Affords(chain, a, p.pending[a][m].cost)
  }

  /** Demotion leaves pending exactly what is recent and can be paid for without a gap. */
  lemma DemotesIff(p: Pool, p': Pool, chain: ChainState, a: Address, n: nat)
    requires WellFormed(p) && Demotes(p, p', chain)
    ensures n in At(p'.pending, a) <==> Continuous(p, chain, a, n)
    ensures n in At(p'.pending, a) ==> At(p'.pending, a)[n] == p.pending[a][n]
  {
    hide Known, Demote, Hashed;
    assert Placed(Of(p, a), a);
    assert Of(p', a) == if a in p.pending then DemoteAt(p, a, chain) else Of(p, a);
    ContinuousIff(p, chain, a, n);
    DemotePendingIff(Of(p, a), NonceOf(chain, a), BalanceOf(chain, a), a);
  }

  lemma ContinuousIff(p: Pool, chain: ChainState, a: Address, n: nat)
    ensures Continuous(p, chain, a, n) <==>
              StaysPending(At(p.pending, a), NonceOf(chain, a), BalanceOf(chain, a), n)
  {
    hide Recent, Affords, NonceOf, BalanceOf;
    forall m ensures Recent(chain, a, m) <==> NonceOf(chain, a) <= m {
      RecentIff(chain, a, m);
    }
    RecentIff(chain, a, n);
  }

  /**
   No recent and payable transaction is lost: it stays known, and it stays pending, or its nonce is queued at no
   lower price, by itself unless what was queued there is as good.
   */
  ghost predicate Survives(p: Pool, p': Pool, a: Address, tx: Tx) {
    && tx in Of(p', a).known
    && (Pending(Of(p', a), tx) || Beats(At(p'.queue, a), tx))
    && (!Pending(Of(p', a), tx) && !Beats(At(p.queue, a), tx) ==> Queued(Of(p', a), tx))
  }

  lemma DemotesLosesNothing(p: Pool, p': Pool, chain: ChainState, a: Address, tx: Tx)
    requires WellFormed(p) && Demotes(p, p', chain)
    requires Pending(Of(p, a), tx) && Recent(chain, a, tx.nonce) && Affords(chain, a, tx.cost)
    ensures Survives(p, p', a, tx)
  {
    hide Known, Demote, Hashed;
    assert Placed(Of(p, a), a);
    assert Of(p', a) == if a in p.pending then DemoteAt(p, a, chain) else Of(p, a);
    RecentIff(chain, a, tx.nonce);
    DemoteLosesNothing(Of(p, a), NonceOf(chain, a), BalanceOf(chain, a), a, tx.nonce);
  }

  /** The first part of a reset leaves pending exactly the same, and loses nothing either. */
  lemma RefreshesIff(p: Pool, p': Pool, chain: ChainState, a: Address, n: nat)
    requires WellFormed(p) && Refreshes(p, p', chain)
    ensures n in At(p'.pending, a) <==> Continuous(p, chain, a, n)
    ensures n in At(p'.pending, a) ==> At(p'.pending, a)[n] == p.pending[a][n]
  {
    hide Known, Demote, Hashed;
    var was := Of(p, a).(nonce := NonceOf(chain, a));
    assert Placed(Of(p, a), a);
    assert Of(p', a) == RefreshAt(p, a, chain);
    ContinuousIff(p, chain, a, n);
    DemotePendingIff(was, NonceOf(chain, a), BalanceOf(chain, a), a);
  }

  lemma RefreshLosesNothing(p: Pool, p': Pool, chain: ChainState, a: Address, tx: Tx)
    requires WellFormed(p) && Refreshes(p, p', chain)
    requires Pending(Of(p, a), tx) && Recent(chain, a, tx.nonce) && Affords(chain, a, tx.cost)
    ensures Survives(p, p', a, tx)
  {
    hide Known, Demote, Hashed;
    var was := Of(p, a).(nonce := NonceOf(chain, a));
    assert Placed(Of(p, a), a);
    assert Of(p', a) == RefreshAt(p, a, chain);
    RecentIff(chain, a, tx.nonce);
    DemoteLosesNothing(was, NonceOf(chain, a), BalanceOf(chain, a), a, tx.nonce);
  }

  /** The nonce expected next after it: right above the highest pending nonce, or the chain's if there is none. */
  lemma RefreshedNonce(p: Pool, p': Pool, chain: ChainState, a: Address)
    requires WellFormed(p) && Refreshes(p, p', chain)
    ensures var nonce := Of(p', a).nonce;
            && (At(p'.pending, a) == map[] ==> nonce == if a in chain.nonces then chain.nonces[a] else 0)
            && (At(p'.pending, a) != map[] ==>
                  nonce > 0 && nonce - 1 in At(p'.pending, a) && forall n | n in At(p'.pending, a) :: n < nonce)
  {
    hide Known, Demote, Hashed;
    assert Of(p', a) == RefreshAt(p, a, chain);
  }

  // ------------------------------------------------------------------ offers

  /**
   Over any run of offers the price queued under a nonce never falls, and whatever was not known and is
   admissible ends there beaten by nothing cheaper than itself.
   */
  lemma {:induction false} EnterAllBest(account: Account, a: Address, txs: seq<(Tx, Checks)>, local: set<Tx>,
                                        minPrice: nat, chain: ChainState)
    ensures var b := EnterAll(account, a, txs, local, minPrice, chain);
            && NoCheaper(account.queue, b.queue)
            && (forall i | 0 <= i < |txs| && Offers(account, a, txs[i], local, minPrice, chain) ::
                Beats(b.queue, txs[i].0))
            && b == account.(queue := b.queue, known := b.known)
    decreases |txs|
  {
    hide Refuse, Enqueue, Admissible;
    if txs != [] {
      var (tx, checks) := txs[0];
      var next := Enter(account, a, tx, local, minPrice, chain, checks);
      QueueTakes(account, tx);
      RefuseIff(tx, tx in account.known, tx in local, minPrice, chain, checks);
      EnterAllBest(next, a, txs[1..], local, minPrice, chain);
      var b := EnterAll(next, a, txs[1..], local, minPrice, chain);
      NoCheaperOn(account.queue, next.queue, b.queue);
      forall i | 0 <= i < |txs| && Offers(account, a, txs[i], local, minPrice, chain) ensures Beats(b.queue, txs[i].0) {
        if i == 0 {
          assert Beats(next.queue, tx);
        } else if txs[i].0 in next.known {
          assert txs[i].0 == tx && Beats(next.queue, tx);
        } else {
          assert txs[1..][i - 1] == txs[i];
        }
      }
    }
  }

  /** An offer of this account that is not known and meets all checks. */
  predicate Offers(account: Account, a: Address, offer: (Tx, Checks), local: set<Tx>, minPrice: nat,
                   chain: ChainState) {
    && offer.0.from == a && offer.0 !in account.known
    && Admissible(offer.0, offer.0 in local, minPrice, chain, offer.1)
  }

  lemma EntersBest(p: Pool, p': Pool, txs: seq<(Tx, Checks)>, local: set<Tx>, minPrice: nat, chain: ChainState,
                   a: Address)
    requires Enters(p, p', txs, local, minPrice, chain)
    ensures NoCheaper(At(p.queue, a), At(p'.queue, a)) && At(p'.pending, a) == At(p.pending, a)
    ensures forall i | 0 <= i < |txs| && Offers(Of(p, a), a, txs[i], local, minPrice, chain) ::
              Beats(At(p'.queue, a), txs[i].0)
  {
    hide Known, EnterAll, Admissible;
    assert Of(p', a) == EnterAll(Of(p, a), a, txs, local, minPrice, chain);
    EnterAllBest(Of(p, a), a, txs, local, minPrice, chain);
  }

  // ------------------------------------------------------------------ promotion

  /** Queued, recent and payable. */
  predicate Wanted(p: Pool, chain: ChainState, a: Address, n: nat) {
    n in At(p.queue, a) && Recent(chain, a, n) && Affords(chain, a, At(p.queue, a)[n].cost)
  }

  lemma WantedIff(p: Pool, chain: ChainState, a: Address)
    ensures forall n :: Wanted(p, chain, a, n) <==> Fits(At(p.queue, a), NonceOf(chain, a), BalanceOf(chain, a), n)
  {
    hide Recent, Affords, NonceOf, BalanceOf;
    forall n ensures Wanted(p, chain, a, n) <==> Fits(At(p.queue, a), NonceOf(chain, a), BalanceOf(chain, a), n) {
      RecentIff(chain, a, n);
    }
  }

  /** Wanted, and behind a gap among what is wanted or above the nonce expected next. */
  ghost predicate Stays(p: Pool, chain: ChainState, a: Address, n: nat) {
    && Wanted(p, chain, a, n)
    && ((forall m: nat | Wanted(p, chain, a, m) :: Of(p, a).nonce < m)
        || exists k: nat, m: nat :: k < n && !Wanted(p, chain, a, k) && Wanted(p, chain, a, m) && m <= k)
  }

  lemma StaysIff(p: Pool, chain: ChainState, a: Address, n: nat)
    ensures Stays(p, chain, a, n) <==> Waits(Of(p, a), NonceOf(chain, a), BalanceOf(chain, a), n)
  {
    hide Wanted, Fits, Known, NonceOf, BalanceOf;
    WantedIff(p, chain, a);
    var nonce, balance, queue := NonceOf(chain, a), BalanceOf(chain, a), At(p.queue, a);
    OfParts(p, a);
    assert forall m :: Fits(Of(p, a).queue, nonce, balance, m) <==> Wanted(p, chain, a, m);
  }

  /**
   Of what an account has queued, promotion leaves the lowest nonces of what is wanted and not next, up to 256 of
   them, and the rest of it only if there are that many.
   */
  lemma AdvancedQueueIs(p: Pool, p': Pool, chain: ChainState, now: nat, a: Address)
    requires WellFormed(p) && Advanced(p, p', chain, now)
    ensures var queue := At(p'.queue, a);
            && |queue| <= 256
            && (forall n | n in queue :: Stays(p, chain, a, n) && queue[n] == At(p.queue, a)[n])
            && forall n | Stays(p, chain, a, n) && n !in queue :: |queue| == 256 && forall m | m in queue :: m < n
  {
    hide Known, Advance, Hashed, Stays, Waits;
    assert Placed(Of(p, a), a);
    assert Of(p', a) == AdvanceAt(p, a, chain, now);
    AdvanceQueueIs(Of(p, a), NonceOf(chain, a), BalanceOf(chain, a), now, MAX_QUEUED_PER_ACCOUNT, a);
    forall n ensures Stays(p, chain, a, n) <==> Waits(Of(p, a), NonceOf(chain, a), BalanceOf(chain, a), n) {
      StaysIff(p, chain, a, n);
    }
  }

  predicate AllLocal(items: Items, local: set<Tx>) {
    forall n | n in items :: items[n] in local
  }

  /**
   The pending limiter leaves lists of at most 4096 in all as they are. Otherwise the shares are fair, with 16
   guaranteed, and each list keeps its lowest nonces.
   */
  lemma EqualisedIs(first: Lists, lists: Lists, local: set<Tx>, spared: set<Address>, level: nat)
    requires Equalised(first, lists, local, spared, level)
    ensures W.Total(Lens(first)) <= 4096 ==> lists == first
    ensures 4096 < W.Total(Lens(first)) ==>
              && W.FairShare(Lens(first), spared, 16, 4096, level, Lens(lists)) && lists.Keys == first.Keys
              && (forall a | a in first ::
                    && |lists[a]| == (if a in spared || |first[a]| <= level then |first[a]| else level)
                    && (forall n | n in lists[a] :: n in first[a] && lists[a][n] == first[a][n])
                    && (forall n, m | n in lists[a] && m in first[a] && m !in lists[a] :: n < m))
              && (forall a | a in spared :: a in first && 16 < |first[a]| && HasLocal(first[a], local))
              && forall a | a in first && 16 < |first[a]| && AllLocal(first[a], local) :: a in spared
  {
    hide W.Total, W.FairShare, Cap, Lens;
    if 4096 < W.Total(Lens(first)) {
      forall a | a in first
        ensures |lists[a]| == (if a in spared || |first[a]| <= level then |first[a]| else level)
        ensures forall n | n in lists[a] :: n in first[a] && lists[a][n] == first[a][n]
        ensures forall n, m | n in lists[a] && m in first[a] && m !in lists[a] :: n < m
      {
        CapKeepsLowest(first[a], Share(first, spared, level, a));
      }
    }
  }

  /**
   The queue is left alone up to 1024 in all, and otherwise loses exactly what exceeds that. An account that keeps
   some of its queue while another one loses all or some was not heard from later.
   */
  lemma LastStageIs(p: Pool, s: Stages, p': Pool, chain: ChainState, now: nat, local: set<Tx>)
    requires Promotes(p, s, p', chain, now, local)
    ensures W.Total(Lens(s.equalised.queue)) <= 1024 ==> p' == s.equalised
    ensures 1024 < W.Total(Lens(s.equalised.queue)) ==>
              && W.Total(Cuts(s.equalised.queue, s.kept)) == W.Total(Lens(s.equalised.queue)) - 1024
              && forall a, b | a in s.kept && b in s.equalised.queue && (b in s.kept ==> 0 < s.kept[b])
                   && b in s.equalised.beats ::
                   if a in s.equalised.beats then s.equalised.beats[b] <= s.equalised.beats[a]
                   else s.equalised.beats[b] == 0
  {
    hide W.Total, Lens, Equalised, Advanced, Represented, Kept;
    if 1024 < W.Total(Lens(s.equalised.queue)) {
      var beats := s.equalised.beats;
      forall a, b | a in s.kept && b in s.equalised.queue && (b in s.kept ==> 0 < s.kept[b]) && b in beats
        ensures if a in beats then beats[b] <= beats[a] else beats[b] == 0
      {
        assert Heartbeat(beats, b) <= Heartbeat(beats, a);
      }
    }
  }
}
