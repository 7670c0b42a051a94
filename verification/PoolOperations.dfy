/**
 What the operations of the pool do to the pool as a whole, and what they keep: stated account by account.
 */
module PoolOperations {
  import opened Options
  import opened TxLists
  import opened Accounts
  import opened Equaliser
  import opened PoolValues
  import opened QueueTrim
  import W = WaterFilling

  // ------------------------------------------------------------------ demotion

  function DemoteAt(p: Pool, a: Address, chain: ChainState): Account {
    Demote(Of(p, a), NonceOf(chain, a), BalanceOf(chain, a))
  }

  /** Every account with something pending is demoted. */
  ghost predicate Demotes(p: Pool, p': Pool, chain: ChainState) {
    forall a {:trigger Of(p', a)} :: Of(p', a) == if a in p.pending then DemoteAt(p, a, chain) else Of(p, a)
  }

  /** Transactions of one account leave the pending list for good. */
  lemma DropIs(p: Pool, a: Address, rest: Items, some: set<Tx>, more: set<Tx>)
    requires Hashed(p.all) && forall tx | tx in some + more :: tx.from == a
    ensures var p' := p.(pending := p.pending[a := rest], all := p.all - Hashes(some) - Hashes(more));
            && Hashed(p'.all)
            && OnlyAt(p, p', a, Of(p, a).(pending := rest, known := Of(p, a).known - (some + more)))
  {
    hide Known, Hashed;
    KnownDeleteOwned(p.all, some, a);
    KnownDeleteOwned(p.all - Hashes(some), more, a);
    assert Known(p.all, a) - some - more == Known(p.all, a) - (some + more);
  }

  function WithoutEmptyPending(p: Pool, a: Address): Pool {
    if a in p.pending && p.pending[a] == map[] then p.(pending := p.pending - {a}, beats := p.beats - {a}) else p
  }

  lemma UnbeatIs(p: Pool, a: Address)
    requires a in p.pending
    ensures OnlyAt(p, WithoutEmptyPending(p, a), a, Unbeat(Of(p, a)))
  {
    hide Known;
  }

  lemma StartDemotion(p: Pool, a: Address, nonce: nat, balance: nat)
    requires WellFormed(p) && a in p.pending
    ensures var was := Of(p, a);
            && was.pending == p.pending[a] && Hashed(p.all) && NoneEmpty(p.queue) && ListOf(At(p.queue, a), a)
            && (forall tx | tx in Below(was.pending, nonce).Values
                + Unpayable(From(was.pending, nonce), balance).Values :: tx.from == a)
            && (forall tx | tx in Flatten(Requeued(was, nonce, balance)) :: tx.from == a)
  {
    hide Known, Flatten, StillPending, Requeued, Hashed;
    var was := Of(p, a);
    assert Placed(was, a);
    DemotedHas(was, nonce, balance, a);
    StillPendingHas(was, nonce, balance, a);
    FlattenMembers(Requeued(was, nonce, balance));
  }

  /** A step at one account that keeps it placed and alive keeps the pool well formed. */
  lemma StepKeepsWellFormed(p: Pool, done: Pool, a: Address, account: Account)
    requires WellFormed(p) && OnlyAt(p, done, a, account) && Placed(account, a) && Alive(account)
    requires Hashed(done.all) && NoneEmpty(done.queue) && done.pending.Keys <= p.pending.Keys + {a}
    requires a in done.pending ==> done.pending[a] != map[]
    requires done.managed.None? ==> done.pending == map[]
    ensures WellFormed(done)
  {
    hide Known, Placed, Hashed, Of, Alive;
    forall b ensures Placed(Of(done, b), b) && Alive(Of(done, b)) {
      assert b != a ==> Of(done, b) == Of(p, b);
    }
    forall b | b in done.pending ensures done.pending[b] != map[] {
      OfParts(done, b);
      OfParts(p, b);
    }
  }

  lemma EndDemotion(p: Pool, done: Pool, a: Address, nonce: nat, balance: nat)
    requires WellFormed(p) && a in p.pending && done.managed == p.managed
    requires OnlyAt(p, done, a, Demote(Of(p, a), nonce, balance))
    requires Hashed(done.all) && NoneEmpty(done.queue) && p.pending.Keys - {a} <= done.pending.Keys <= p.pending.Keys
    requires a in done.pending ==> done.pending[a] != map[]
    ensures WellFormed(done)
  {
    hide Known, Hashed, Demote, Of;
    assert Placed(Of(p, a), a) && Alive(Of(p, a));
    DemoteKeepsPlaced(Of(p, a), nonce, balance, a);
    DemoteKeepsAlive(Of(p, a), nonce, balance, a);
    hide Placed, Alive;
    StepKeepsWellFormed(p, done, a, Of(done, a));
  }

  /** Transactions of one account in order, none below its nonce at the head of the chain or above its balance. */
  predicate Executable(txs: seq<Tx>, a: Address, chain: ChainState) {
    Rising(txs) && forall tx | tx in txs ::
          tx.from == a && NonceOf(chain, a) <= tx.nonce && tx.cost <= BalanceOf(chain, a)
  }

  /** After demotion everything pending can be executed. */
  lemma DemotedIsExecutable(p: Pool, p': Pool, chain: ChainState)
    requires WellFormed(p) && WellFormed(p') && Demotes(p, p', chain)
    ensures forall a | a in p'.pending :: Flatten(p'.pending[a]) != [] && Executable(Flatten(p'.pending[a]), a, chain)
  {
    hide Known, Flatten, Demote, Hashed, StillPending, Placed, Alive;
    forall a | a in p'.pending ensures Flatten(p'.pending[a]) != [] && Executable(Flatten(p'.pending[a]), a, chain) {
      assert Placed(Of(p, a), a) && Alive(Of(p, a)) && Placed(Of(p', a), a) && Alive(Of(p', a));
      DemotedAt(p, p', chain, a);
    }
  }

  lemma DemotedAt(p: Pool, p': Pool, chain: ChainState, a: Address)
    requires Placed(Of(p, a), a) && Alive(Of(p, a)) && Placed(Of(p', a), a) && NoneEmpty(p.pending)
             && NoneEmpty(p'.pending)
    requires Demotes(p, p', chain) && a in p'.pending
    ensures Flatten(p'.pending[a]) != [] && Executable(Flatten(p'.pending[a]), a, chain)
  {
    hide Known, Flatten, Demote, StillPending;
    var was := Of(p, a);
    assert Of(p', a) == if a in p.pending then DemoteAt(p, a, chain) else Of(p, a);
    DemoteKeepsAlive(was, NonceOf(chain, a), BalanceOf(chain, a), a);
    StillPendingHas(was, NonceOf(chain, a), BalanceOf(chain, a), a);
    FlattenMembers(p'.pending[a]);
    FlattenRises(p'.pending[a]);
    KeysNotEmpty(p'.pending[a]);
    assert |p'.pending[a].Keys| == |p'.pending[a]|;
  }

  // ------------------------------------------------------------------ the nonces expected next

  /** One above the highest pending nonce. */
  function NextNonce(items: Items, otherwise: nat): nat {
    if items == map[] then otherwise else MaxKey(items) + 1
  }

  ghost predicate NoncesFollow(p: Pool, p': Pool) {
    forall a {:trigger Of(p', a)} :: Of(p', a) == Of(p, a).(nonce := NextNonce(At(p.pending, a), Of(p, a).nonce))
  }

  lemma NewNonces(p: Pool, managed: Option<Managed>)
    requires WellFormed(p) && managed.Some?
    ensures WellFormed(p.(managed := managed))
    ensures forall a {:trigger Of(p.(managed := managed), a)} ::
              Of(p.(managed := managed), a) == Of(p, a).(nonce := ManagedNonce(managed, a))
  {
    var p' := p.(managed := managed);
    forall a
      ensures Of(p', a) == Of(p, a).(nonce := ManagedNonce(managed, a)) && Placed(Of(p', a), a)
              && Alive(Of(p', a))
    {
      assert Placed(Of(p, a), a) && Alive(Of(p, a));
    }
  }

  lemma SetNonceAt(m: Option<Managed>, a: Address, nonce: nat)
    requires m.Some?
    ensures var m' := SetNonceOf(m, a, nonce);
            forall b {:trigger ManagedNonce(m', b)} ::
                ManagedNonce(m', b) == if b == a then nonce else ManagedNonce(m, b)
  {
  }

  lemma LastPending(p: Pool, a: Address)
    requires WellFormed(p) && a in p.pending
    ensures p.pending[a] != map[]
    ensures var txs := Flatten(p.pending[a]); 0 < |txs| && txs[|txs| - 1].nonce + 1 == NextNonce(p.pending[a], 0)
  {
    hide Known, Flatten, Hashed;
    assert Placed(Of(p, a), a);
    LastIsHighest(p.pending[a]);
  }

  // ------------------------------------------------------------------ promotion

  /** The stages of a promotion, each a pool of its own, with what the two limiters chose. */
  datatype Stages = Stages(advanced: Pool, spared: set<Address>, level: nat, equalised: Pool, kept: map<Address, nat>)

  /** Promotion: every account advances, then the pending lists are equalised, then the queue is trimmed. */
  ghost predicate Promotes(p: Pool, s: Stages, p': Pool, chain: ChainState, now: nat, local: set<Tx>) {
    && p.managed.Some? && Continues(p, s.advanced) && Continues(s.advanced, s.equalised) && Continues(s.equalised, p')
    && Advanced(p, s.advanced, chain, now)
    && s.equalised == s.advanced.(pending := s.equalised.pending)
    && Equalised(s.advanced.pending, s.equalised.pending, local, s.spared, s.level)
    && (if W.Total(Lens(s.equalised.queue)) <= MAX_QUEUED_IN_TOTAL then p' == s.equalised
        else Trimmed(s.equalised, p', s.kept))
  }

  /** Every stage of a promotion is well formed. */
  lemma PromotionKeepsWellFormed(p: Pool, s: Stages, p': Pool, chain: ChainState, now: nat, local: set<Tx>)
    requires WellFormed(p) && Promotes(p, s, p', chain, now, local)
    ensures WellFormed(s.advanced) && WellFormed(s.equalised) && WellFormed(p')
  {
    hide WellFormed, Advanced, Equalised, Trimmed, Represented;
    AdvancedKeepsWellFormed(p, s.advanced, chain, now);
    EqualisedKeepsWellFormed(s.advanced, s.equalised.pending, local, s.spared, s.level);
    if p' != s.equalised {
      TrimmedKeepsWellFormed(s.equalised, p', s.kept);
    }
  }

  lemma AdvancedKeepsWellFormed(p: Pool, p': Pool, chain: ChainState, now: nat)
    requires WellFormed(p) && Continues(p, p') && p'.managed.Some? && Advanced(p, p', chain, now)
    ensures WellFormed(p')
  {
    hide Of, Placed, Alive, Advance, Represented;
    forall a ensures Placed(Of(p', a), a) && Alive(Of(p', a)) {
      assert Placed(Of(p, a), a) && Alive(Of(p, a));
      assert Of(p', a) == AdvanceAt(p, a, chain, now);
      AdvanceKeepsPlaced(Of(p, a), NonceOf(chain, a), BalanceOf(chain, a), now, MAX_QUEUED_PER_ACCOUNT, a);
      AdvanceKeepsAlive(Of(p, a), NonceOf(chain, a), BalanceOf(chain, a), now, MAX_QUEUED_PER_ACCOUNT);
    }
    WellFormedFrom(p, p');
  }

  lemma TrimmedKeepsWellFormed(p: Pool, p': Pool, kept: map<Address, nat>)
    requires WellFormed(p) && Continues(p, p') && Trimmed(p, p', kept)
    ensures WellFormed(p')
  {
    hide Of, Placed, Alive, RemoveAll, Represented;
    forall a ensures Placed(Of(p', a), a) && Alive(Of(p', a)) && Of(p', a).pending.Keys <= Of(p, a).pending.Keys {
      assert Placed(Of(p, a), a) && Alive(Of(p, a));
      assert Of(p', a) == if a in kept then TrimmedAt(p, a, kept[a]) else Of(p, a);
      if a in kept {
        RemoveAllKeeps(Of(p, a), Removed(At(p.queue, a), kept[a]), a);
      }
    }
    WellFormedFrom(p, p');
  }

  /** Equalising shortens lists but empties none, and forgets nothing. */
  lemma EqualisedKeepsWellFormed(p: Pool, lists: Lists, local: set<Tx>, spared: set<Address>, level: nat)
    requires WellFormed(p) && Equalised(p.pending, lists, local, spared, level)
    ensures WellFormed(p.(pending := lists))
  {
    hide Known, Hashed, Sampled, W.Total, W.CutTo, Lens, Cap, Placed, Alive;
    var p' := p.(pending := lists);
    if W.Total(Lens(p.pending)) <= MAX_PENDING_TOTAL {
      assert p' == p;
    } else {
      forall a ensures Placed(Of(p', a), a) && Alive(Of(p', a)) && (a in lists ==> lists[a] != map[]) {
        assert Placed(Of(p, a), a) && Alive(Of(p, a));
        EqualisedAt(p, lists, spared, level, a);
      }
    }
  }

  lemma EqualisedAt(p: Pool, lists: Lists, spared: set<Address>, level: nat, a: Address)
    requires Placed(Of(p, a), a) && Alive(Of(p, a)) && NoneEmpty(p.pending)
    requires Levelled(p.pending, lists, spared, level) && MIN_PENDING_PER_ACCOUNT <= level
    ensures var p' := p.(pending := lists);
            Placed(Of(p', a), a) && Alive(Of(p', a)) && (a in lists ==> lists[a] != map[])
  {
    hide Known, Placed, Cap;
    var p' := p.(pending := lists);
    if a in lists {
      var k := Share(p.pending, spared, level, a);
      KeysNotEmpty(p.pending[a]);
      assert |p.pending[a].Keys| == |p.pending[a]|;
      CapPendingKeepsPlaced(Of(p, a), k, a);
      CapPendingKeepsAlive(Of(p, a), k);
      assert Of(p', a) == Of(p, a).(pending := Cap(p.pending[a], k));
    } else {
      assert Of(p', a) == Of(p, a);
    }
  }

  // ------------------------------------------------------------------ the limits

  /** The account knows a transaction that is marked as local. */
  predicate KnowsLocal(account: Account, local: set<Tx>) {
    exists tx :: tx in account.known && tx in local
  }

  /** The pending lists within their limit, or nobody above the guaranteed minimum who knows no local transaction. */
  ghost predicate PendingLimited(p: Pool, q: Pool, local: set<Tx>) {
    || W.Total(Lens(p.pending)) <= MAX_PENDING_TOTAL
    || forall a | a in p.pending && MIN_PENDING_PER_ACCOUNT < |p.pending[a]| :: KnowsLocal(Of(q, a), local)
  }

  /** No account has more pending than before. */
  ghost predicate Shrinks(p: Pool, p': Pool) {
    forall a {:trigger Of(p', a)} :: |Of(p', a).pending| <= |Of(p, a).pending|
  }

  lemma ShorterLists(p: Pool, p': Pool)
    requires NoneEmpty(p.pending) && NoneEmpty(p'.pending) && Shrinks(p, p')
    ensures forall a | a in p'.pending :: a in p.pending && |p'.pending[a]| <= |p.pending[a]|
    ensures W.Total(Lens(p'.pending)) <= W.Total(Lens(p.pending))
  {
    hide Of, W.Total;
    forall a | a in p'.pending ensures a in p.pending && |p'.pending[a]| <= |p.pending[a]| {
      OfParts(p, a);
      OfParts(p', a);
      assert |Of(p', a).pending| <= |Of(p, a).pending|;
      KeysNotEmpty(p'.pending[a]);
      assert |p'.pending[a].Keys| == |p'.pending[a]|;
    }
    W.TotalOfFewer(Lens(p'.pending), Lens(p.pending));
  }

  /** Shorter pending lists stay within the limit. */
  lemma ShrinkingKeepsLimit(p: Pool, p': Pool, q: Pool, local: set<Tx>)
    requires NoneEmpty(p.pending) && NoneEmpty(p'.pending) && Shrinks(p, p') && PendingLimited(p, q, local)
    ensures PendingLimited(p', q, local)
  {
    hide Of, W.Total, KnowsLocal;
    ShorterLists(p, p');
  }

  lemma KeysShrink(a: Items, b: Items)
    requires a.Keys <= b.Keys
    ensures |a| <= |b|
  {
    SubsetSize(a.Keys, b.Keys);
    assert |a.Keys| == |a| && |b.Keys| == |b|;
  }

  lemma SubsetSize(s: set<nat>, t: set<nat>)
    requires s <= t
    ensures |s| <= |t|
  {
    assert t == s + (t - s);
  }

  /** Trimming the queue makes nothing known, and lengthens no pending list. */
  lemma TrimmedShrinks(p: Pool, p': Pool, kept: map<Address, nat>)
    requires WellFormed(p) && Trimmed(p, p', kept)
    ensures Shrinks(p, p') && forall a {:trigger Of(p', a)} :: Of(p', a).known <= Of(p, a).known
  {
    hide Of, Placed, Alive, RemoveAll, Represented;
    forall a ensures |Of(p', a).pending| <= |Of(p, a).pending| && Of(p', a).known <= Of(p, a).known {
      assert Placed(Of(p, a), a);
      assert Of(p', a) == if a in kept then TrimmedAt(p, a, kept[a]) else Of(p, a);
      if a in kept {
        RemoveAllKeeps(Of(p, a), Removed(At(p.queue, a), kept[a]), a);
        KeysShrink(Of(p', a).pending, Of(p, a).pending);
      }
    }
  }

  lemma AdvancedKnows(p: Pool, p': Pool, chain: ChainState, now: nat)
    requires WellFormed(p) && Advanced(p, p', chain, now)
    ensures forall a {:trigger Of(p', a)} :: Of(p', a).known <= Of(p, a).known
  {
    hide Of, Placed, Alive, Advance, Represented;
    forall a ensures Of(p', a).known <= Of(p, a).known {
      assert Placed(Of(p, a), a);
      assert Of(p', a) == AdvanceAt(p, a, chain, now);
      AdvanceKnows(Of(p, a), NonceOf(chain, a), BalanceOf(chain, a), now, MAX_QUEUED_PER_ACCOUNT, a);
    }
  }

  /** After the pending limiter whoever is above the minimum has a local transaction pending, or the limit is met. */
  lemma EqualisedLimits(p: Pool, s: Stages, local: set<Tx>)
    requires WellFormed(s.advanced) && s.equalised == s.advanced.(pending := s.equalised.pending)
    requires Equalised(s.advanced.pending, s.equalised.pending, local, s.spared, s.level)
    requires forall a {:trigger Of(s.advanced, a)} :: Of(s.advanced, a).known <= Of(p, a).known
    ensures PendingLimited(s.equalised, p, local)
  {
    hide W.Total, Lens, W.CutTo, Cap, Hashed, Known;
    PendingBounds(s, local);
    if MAX_PENDING_TOTAL < W.Total(Lens(s.equalised.pending)) {
      forall a | a in s.equalised.pending && MIN_PENDING_PER_ACCOUNT < |s.equalised.pending[a]|
        ensures KnowsLocal(Of(p, a), local)
      {
        var first := s.advanced.pending;
        var n :| n in first[a] && first[a][n] in local;
        assert Placed(Of(s.advanced, a), a);
        assert first[a][n] in Of(s.advanced, a).known;
      }
    }
  }

  /**
   Every promotion ends with the pending lists within their limit, or with nobody above 16 who knows no local
   transaction; and it makes nothing known. Queued nonces may be pending as well.
   */
  lemma PromotionLimitsPending(p: Pool, s: Stages, p': Pool, chain: ChainState, now: nat, local: set<Tx>)
    requires WellFormed(p) && Promotes(p, s, p', chain, now, local)
    ensures PendingLimited(p', p, local)
    ensures W.Total(Lens(p'.pending)) <= MAX_PENDING_TOTAL
            || forall a | a in p'.pending && a !in s.spared :: |p'.pending[a]| <= MIN_PENDING_PER_ACCOUNT
    ensures forall a {:trigger Of(p', a)} :: Of(p', a).known <= Of(p, a).known
  {
    hide Of, W.Total, Lens, Known, WellFormed, Equalised, Advanced, Trimmed, PendingLimited, Shrinks, NoneEmpty, Hashed;
    PromotionKeepsWellFormed(p, s, p', chain, now, local);
    AdvancedKnows(p, s.advanced, chain, now);
    EqualisedLimits(p, s, local);
    forall a ensures Of(s.equalised, a).known == Of(s.advanced, a).known {
      KnownAlike(s.advanced, s.equalised.pending, a);
    }
    if p' != s.equalised {
      TrimmedShrinks(s.equalised, p', s.kept);
      ShrinkingKeepsLimit(s.equalised, p', p, local);
    }
    SparedLimit(s, p', local);
  }

  lemma KnownAlike(p: Pool, lists: Lists, a: Address)
    ensures Of(p.(pending := lists), a).known == Of(p, a).known
  {
    hide Known;
  }

  lemma SparedLimit(s: Stages, p': Pool, local: set<Tx>)
    requires Equalised(s.advanced.pending, s.equalised.pending, local, s.spared, s.level)
    requires p' == s.equalised || (Shrinks(s.equalised, p') && NoneEmpty(s.equalised.pending) && NoneEmpty(p'.pending))
    ensures W.Total(Lens(p'.pending)) <= MAX_PENDING_TOTAL
            || forall a | a in p'.pending && a !in s.spared :: |p'.pending[a]| <= MIN_PENDING_PER_ACCOUNT
  {
    hide Of, W.Total, Equalised, Shrinks;
    PendingBounds(s, local);
    if p' != s.equalised {
      ShorterLists(s.equalised, p');
    }
  }

  /**
   A promotion ends within the queue limits as well, and leaves everybody 16 pending, provided queued nonces
   are not pending as well.
   */
  lemma PromotionLimits(p: Pool, s: Stages, p': Pool, chain: ChainState, now: nat, local: set<Tx>)
    requires WellFormed(p) && Promotes(p, s, p', chain, now, local) && AllApart(s.equalised)
    ensures W.Total(Lens(p'.queue)) <= 1024
    ensures forall a | a in p'.queue :: |p'.queue[a]| <= 256
    ensures p'.pending == s.equalised.pending
    ensures forall a | a in s.advanced.pending ::
              a in p'.pending && W.Min(|s.advanced.pending[a]|, 16) <= |p'.pending[a]|
  {
    hide Of, Sampled, W.Total, Placed, Alive, Cap, WellFormed, AllApart, Equalised, Advanced, Trimmed, NoneEmpty,
         Hashed, Lens;
    PromotionKeepsWellFormed(p, s, p', chain, now, local);
    LastStageWhenApart(s.equalised, p', s.kept);
    forall a | a in p'.queue ensures |p'.queue[a]| <= MAX_QUEUED_PER_ACCOUNT {
      QueueBound(p, s, p', chain, now, local, a);
    }
    PendingKept(s.equalised, p', s.kept);
    PendingBounds(s, local);
  }

  /** What the last stage makes of accounts with no queued nonce pending as well: at most fewer are queued. */
  ghost predicate OnlyCaps(p: Pool, p': Pool, kept: map<Address, nat>) {
    forall a {:trigger Of(p', a)} :: Of(p', a) == if a in kept then KeptOf(p, a, kept[a]) else Of(p, a)
  }

  lemma LastStageWhenApart(p: Pool, p': Pool, kept: map<Address, nat>)
    requires WellFormed(p) && AllApart(p) && NoneEmpty(p'.queue)
    requires if W.Total(Lens(p.queue)) <= MAX_QUEUED_IN_TOTAL then p' == p else Trimmed(p, p', kept)
    ensures W.Total(Lens(p'.queue)) <= MAX_QUEUED_IN_TOTAL
    ensures p' == p || OnlyCaps(p, p', kept)
  {
    hide Of, WellFormed, AllApart, Trimmed, KeptOf, Lens, W.Total, NoneEmpty;
    if MAX_QUEUED_IN_TOTAL < W.Total(Lens(p.queue)) {
      TrimmedWhenApart(p, p', kept);
    }
  }

  lemma QueueBound(p: Pool, s: Stages, p': Pool, chain: ChainState, now: nat, local: set<Tx>, a: Address)
    requires WellFormed(p) && Promotes(p, s, p', chain, now, local) && a in p'.queue
    requires p' == s.equalised || OnlyCaps(s.equalised, p', s.kept)
    ensures |p'.queue[a]| <= MAX_QUEUED_PER_ACCOUNT
  {
    hide Known, Sampled, W.Total, Placed, Alive, Cap, AllApart, Equalised, Hashed, Advance;
    assert Placed(Of(p, a), a);
    AdvanceKeepsPlaced(Of(p, a), NonceOf(chain, a), BalanceOf(chain, a), now, MAX_QUEUED_PER_ACCOUNT, a);
    assert Of(s.advanced, a) == AdvanceAt(p, a, chain, now);
    assert Of(s.equalised, a).queue == Of(s.advanced, a).queue;
    if p' != s.equalised {
      assert Of(p', a) == if a in s.kept then KeptOf(s.equalised, a, s.kept[a]) else Of(s.equalised, a);
      CapKeepsLowest(At(s.equalised.queue, a), if a in s.kept then s.kept[a] else 0);
    }
  }

  /** Trimming the queue leaves the pending lists alone. */
  lemma PendingKept(p: Pool, p': Pool, kept: map<Address, nat>)
    requires p' == p || OnlyCaps(p, p', kept)
    requires NoneEmpty(p.pending) && NoneEmpty(p'.pending)
    ensures p'.pending == p.pending
  {
    hide Known, W.Total, Placed, Alive, Cap, Hashed, Lens;
    forall a ensures At(p'.pending, a) == At(p.pending, a) {
      assert Of(p', a).pending == Of(p, a).pending;
    }
    assert forall a :: a in p'.pending <==> At(p'.pending, a) != map[];
    assert forall a :: a in p.pending <==> At(p.pending, a) != map[];
  }

  lemma PendingBounds(s: Stages, local: set<Tx>)
    requires Equalised(s.advanced.pending, s.equalised.pending, local, s.spared, s.level)
    ensures W.Total(Lens(s.equalised.pending)) <= MAX_PENDING_TOTAL
            || forall a | a in s.equalised.pending && a !in s.spared ::
                 |s.equalised.pending[a]| <= MIN_PENDING_PER_ACCOUNT
    ensures forall a | a in s.advanced.pending ::
              a in s.equalised.pending
                  && W.Min(|s.advanced.pending[a]|, MIN_PENDING_PER_ACCOUNT) <= |s.equalised.pending[a]|
  {
    hide Sampled, W.Total, Cap;
    var first, lists := s.advanced.pending, s.equalised.pending;
    if MAX_PENDING_TOTAL < W.Total(Lens(first)) {
      forall a | a in first ensures a in lists && |lists[a]| == Share(first, s.spared, s.level, a) {
        CapKeepsLowest(first[a], Share(first, s.spared, s.level, a));
      }
    }
  }

  /** No account has anything pending that promotion would leave queued. */
  ghost predicate AllSettleApart(p: Pool, chain: ChainState) {
    forall a {:trigger Of(p, a)} :: SettlesAt(Of(p, a), a, chain)
  }

  predicate SettlesAt(account: Account, a: Address, chain: ChainState) {
    SettlesApart(account, NonceOf(chain, a), BalanceOf(chain, a), MAX_QUEUED_PER_ACCOUNT)
  }

  lemma AllApartSettle(p: Pool, chain: ChainState)
    requires AllApart(p)
    ensures AllSettleApart(p, chain)
  {
    hide Of, SettlesApart, Apart;
    forall a ensures SettlesAt(Of(p, a), a, chain) {
      assert Apart(Of(p, a));
      ApartSettles(Of(p, a), NonceOf(chain, a), BalanceOf(chain, a), MAX_QUEUED_PER_ACCOUNT);
    }
  }

  lemma AdvancedApartIff(p: Pool, p': Pool, chain: ChainState, now: nat)
    requires Advanced(p, p', chain, now)
    ensures AllApart(p') <==> AllSettleApart(p, chain)
  {
    hide Of, SettlesApart, Apart, Advance;
    forall a ensures Apart(Of(p', a)) <==> SettlesAt(Of(p, a), a, chain) {
      assert Of(p', a) == AdvanceAt(p, a, chain, now);
      AdvanceKeepsApartIff(Of(p, a), NonceOf(chain, a), BalanceOf(chain, a), now, MAX_QUEUED_PER_ACCOUNT);
    }
  }

  /**
   Promotion leaves no queued nonce pending if no account has anything pending that promotion leaves queued,
   and, where neither limiter has anything to do, only if so.
   */
  lemma PromotionKeepsApartIff(p: Pool, s: Stages, p': Pool, chain: ChainState, now: nat, local: set<Tx>)
    requires WellFormed(p) && Promotes(p, s, p', chain, now, local)
    ensures AllSettleApart(p, chain) ==> AllApart(s.equalised) && AllApart(p')
    ensures W.Total(Lens(s.advanced.pending)) <= MAX_PENDING_TOTAL
            && W.Total(Lens(s.advanced.queue)) <= MAX_QUEUED_IN_TOTAL
            ==> (AllApart(p') <==> AllSettleApart(p, chain))
  {
    hide Of, W.Total, Lens, AllSettleApart, Apart, WellFormed, Represented, Trimmed, Equalised;
    AdvancedApartIff(p, s.advanced, chain, now);
    if AllSettleApart(p, chain) {
      EqualisedKeepsApart(s, local);
      if p' != s.equalised {
        PromotionKeepsWellFormed(p, s, p', chain, now, local);
        TrimmedKeepsApart(s.equalised, p', s.kept);
      }
    }
    hide AllApart;
    if W.Total(Lens(s.advanced.pending)) <= MAX_PENDING_TOTAL {
      NothingToEqualise(s, local);
    }
  }

  lemma NothingToEqualise(s: Stages, local: set<Tx>)
    requires s.equalised == s.advanced.(pending := s.equalised.pending)
    requires Equalised(s.advanced.pending, s.equalised.pending, local, s.spared, s.level)
    requires W.Total(Lens(s.advanced.pending)) <= MAX_PENDING_TOTAL
    ensures s.equalised == s.advanced
  {
    hide W.Total, Lens;
  }

  lemma EqualisedKeepsApart(s: Stages, local: set<Tx>)
    requires s.equalised == s.advanced.(pending := s.equalised.pending)
    requires Equalised(s.advanced.pending, s.equalised.pending, local, s.spared, s.level) && AllApart(s.advanced)
    ensures AllApart(s.equalised)
  {
    hide Of, Equalised, Apart;
    forall a ensures Apart(Of(s.equalised, a)) {
      assert Apart(Of(s.advanced, a));
      EqualisedApart(s, local, a);
    }
  }

  lemma TrimmedKeepsApart(p: Pool, p': Pool, kept: map<Address, nat>)
    requires WellFormed(p) && AllApart(p) && Trimmed(p, p', kept)
    ensures AllApart(p')
  {
    hide Of, Placed, Alive, RemoveAll, Represented, Apart;
    forall a ensures Apart(Of(p', a)) {
      assert Placed(Of(p, a), a) && Apart(Of(p, a));
      assert Of(p', a) == if a in kept then TrimmedAt(p, a, kept[a]) else Of(p, a);
      if a in kept {
        RemoveAllKeeps(Of(p, a), Removed(At(p.queue, a), kept[a]), a);
      }
    }
  }

  lemma EqualisedApart(s: Stages, local: set<Tx>, a: Address)
    requires s.equalised == s.advanced.(pending := s.equalised.pending)
    requires Equalised(s.advanced.pending, s.equalised.pending, local, s.spared, s.level) && Apart(Of(s.advanced, a))
    ensures Apart(Of(s.equalised, a))
  {
    hide Known, W.Total, Cap, Lens, Sampled, W.CutTo;
    var first, lists := s.advanced.pending, s.equalised.pending;
    if a in lists && lists != first {
      CapKeepsLowest(first[a], Share(first, s.spared, s.level, a));
    }
  }

  // ------------------------------------------------------------------ resetting to a new head of the chain

  /** An account after a reset, before promotion: demoted, and its nonce above all it has pending. */
  function RefreshAt(p: Pool, a: Address, chain: ChainState): Account {
    var was := Of(p, a).(nonce := NonceOf(chain, a));
    var demoted := if a in p.pending then Demote(was, NonceOf(chain, a), BalanceOf(chain, a)) else was;
    demoted.(nonce := NextNonce(demoted.pending, NonceOf(chain, a)))
  }

  ghost predicate Refreshes(p: Pool, p': Pool, chain: ChainState) {
    forall a {:trigger Of(p', a)} :: Of(p', a) == RefreshAt(p, a, chain)
  }

  lemma RefreshSteps(p: Pool, q: Pool, r: Pool, p': Pool, chain: ChainState)
    requires WellFormed(p) && q == p.(managed := Some(Managed(chain, map[])))
    requires Demotes(q, r, chain) && NoncesFollow(r, p')
    ensures Refreshes(p, p', chain)
  {
    hide Known, Demote, Hashed;
    forall a ensures Of(p', a) == RefreshAt(p, a, chain) {
      assert Placed(Of(p, a), a) && Alive(Of(p, a));
      NewNonces(p, q.managed);
      RefreshOne(p, q, r, p', chain, a);
    }
  }

  lemma RefreshOne(p: Pool, q: Pool, r: Pool, p': Pool, chain: ChainState, a: Address)
    requires WellFormed(p) && q == p.(managed := Some(Managed(chain, map[])))
    requires Of(q, a) == Of(p, a).(nonce := NonceOf(chain, a))
    requires Demotes(q, r, chain) && NoncesFollow(r, p')
    ensures Of(p', a) == RefreshAt(p, a, chain)
  {
    hide Known, Demote, Hashed, Of;
    OfParts(r, a);
    var was := Of(q, a);
    assert Placed(Of(p, a), a) && Alive(Of(p, a));
    DemoteKeepsAlive(was, NonceOf(chain, a), BalanceOf(chain, a), a);
    assert Of(r, a) == if a in q.pending then DemoteAt(q, a, chain) else Of(q, a);
  }

  /**
   After a reset everything pending can be executed at the head of the chain, was pending before, and lies
   below the nonce expected next.
   */
  lemma RefreshedIsExecutable(p: Pool, p': Pool, chain: ChainState, a: Address)
    requires WellFormed(p) && Refreshes(p, p', chain)
    ensures var items := At(p'.pending, a);
            && (forall n | n in items ::
                  && n in At(p.pending, a) && items[n] == p.pending[a][n]
                  && NonceOf(chain, a) <= n < Of(p', a).nonce && items[n].cost <= BalanceOf(chain, a))
            && (items == map[] ==> Of(p', a).nonce == NonceOf(chain, a))
            && NonceOf(chain, a) <= Of(p', a).nonce
  {
    hide Known, Demote, Hashed, StillPending;
    var was := Of(p, a).(nonce := NonceOf(chain, a));
    assert Placed(Of(p, a), a) && Alive(Of(p, a));
    assert Of(p', a) == RefreshAt(p, a, chain);
    DemoteKeepsAlive(was, NonceOf(chain, a), BalanceOf(chain, a), a);
    StillPendingHas(was, NonceOf(chain, a), BalanceOf(chain, a), a);
  }

  /** A reset: refreshed, then promoted. */
  ghost predicate Resets(p: Pool, p': Pool, chain: ChainState, now: nat, local: set<Tx>) {
    exists q, s :: Refreshed(p, q, chain) && Promotes(q, s, p', chain, now, local)
  }

  ghost predicate Refreshed(p: Pool, p': Pool, chain: ChainState) {
    Continues(p, p') && p'.managed.Some? && Refreshes(p, p', chain)
  }

  /** What promotion of the executable transactions does: without a pending state there is a reset first. */
  ghost predicate Promoted(p: Pool, p': Pool, chain: ChainState, now: nat, local: set<Tx>) {
    exists q, s :: StartsAt(p, q, chain, now, local) && Promotes(q, s, p', chain, now, local)
  }

  ghost predicate StartsAt(p: Pool, q: Pool, chain: ChainState, now: nat, local: set<Tx>) {
    if p.managed.Some? then q == p else Resets(p, q, chain, now, local)
  }

  lemma RefreshKeepsWellFormed(p: Pool, p': Pool, chain: ChainState)
    requires WellFormed(p) && Refreshed(p, p', chain)
    ensures WellFormed(p')
  {
    hide Of, Demote, Represented;
    forall a ensures Placed(Of(p', a), a) && Alive(Of(p', a)) {
      var was := Of(p, a).(nonce := NonceOf(chain, a));
      assert Placed(Of(p, a), a) && Alive(Of(p, a));
      assert Of(p', a) == RefreshAt(p, a, chain);
      DemoteKeepsPlaced(was, NonceOf(chain, a), BalanceOf(chain, a), a);
      DemoteKeepsAlive(was, NonceOf(chain, a), BalanceOf(chain, a), a);
    }
    hide Placed, Alive, Refreshes;
    WellFormedFrom(p, p');
  }

  lemma DemotionKeepsWellFormed(p: Pool, p': Pool, chain: ChainState)
    requires WellFormed(p) && Continues(p, p') && p'.managed.Some? && Demotes(p, p', chain)
    ensures WellFormed(p')
  {
    hide Of, Demote, Represented, Placed, Alive;
    forall a ensures Placed(Of(p', a), a) && Alive(Of(p', a)) {
      assert Placed(Of(p, a), a) && Alive(Of(p, a));
      assert Of(p', a) == if a in p.pending then DemoteAt(p, a, chain) else Of(p, a);
      DemoteKeepsPlaced(Of(p, a), NonceOf(chain, a), BalanceOf(chain, a), a);
      DemoteKeepsAlive(Of(p, a), NonceOf(chain, a), BalanceOf(chain, a), a);
    }
    WellFormedFrom(p, p');
  }

  lemma RefreshKnows(p: Pool, p': Pool, chain: ChainState)
    requires WellFormed(p) && Refreshes(p, p', chain)
    ensures forall a {:trigger Of(p', a)} :: Of(p', a).known <= Of(p, a).known
  {
    hide Of, Demote, Represented, Alive;
    forall a ensures Of(p', a).known <= Of(p, a).known {
      var was := Of(p, a).(nonce := NonceOf(chain, a));
      assert Placed(Of(p, a), a);
      assert Of(p', a) == RefreshAt(p, a, chain);
      DemoteKnows(was, NonceOf(chain, a), BalanceOf(chain, a), a);
    }
  }

  lemma DemotionShrinks(p: Pool, p': Pool, chain: ChainState)
    requires WellFormed(p) && Demotes(p, p', chain)
    ensures Shrinks(p, p') && forall a {:trigger Of(p', a)} :: Of(p', a).known <= Of(p, a).known
  {
    hide Of, Demote, Represented, Alive, Placed;
    forall a ensures |Of(p', a).pending| <= |Of(p, a).pending| && Of(p', a).known <= Of(p, a).known {
      assert Placed(Of(p, a), a);
      assert Of(p', a) == if a in p.pending then DemoteAt(p, a, chain) else Of(p, a);
      DemoteKnows(Of(p, a), NonceOf(chain, a), BalanceOf(chain, a), a);
      KeysShrink(DemoteAt(p, a, chain).pending, Of(p, a).pending);
    }
  }

  lemma KnowsMore(p: Pool, q: Pool, r: Pool, local: set<Tx>)
    requires PendingLimited(p, q, local) && forall a {:trigger Of(q, a)} :: Of(q, a).known <= Of(r, a).known
    ensures PendingLimited(p, r, local)
  {
    hide Of, W.Total;
    if MAX_PENDING_TOTAL < W.Total(Lens(p.pending)) {
      forall a | a in p.pending && MIN_PENDING_PER_ACCOUNT < |p.pending[a]| ensures KnowsLocal(Of(r, a), local) {
        var tx :| tx in Of(q, a).known && tx in local;
        assert Of(q, a).known <= Of(r, a).known;
      }
    }
  }

  lemma ResetLimitsPending(p: Pool, p': Pool, chain: ChainState, now: nat, local: set<Tx>)
    requires WellFormed(p) && Resets(p, p', chain, now, local)
    ensures PendingLimited(p', p, local)
    ensures forall a {:trigger Of(p', a)} :: Of(p', a).known <= Of(p, a).known
  {
    hide Of, WellFormed, Refreshes, Promotes, PendingLimited, Represented;
    var q, s :| Refreshed(p, q, chain) && Promotes(q, s, p', chain, now, local);
    RefreshKeepsWellFormed(p, q, chain);
    RefreshKnows(p, q, chain);
    PromotionLimitsPending(q, s, p', chain, now, local);
    KnowsMore(p', q, p, local);
    forall a ensures Of(p', a).known <= Of(p, a).known {
      assert Of(p', a).known <= Of(q, a).known;
    }
  }

  lemma PromotedLimitsPending(p: Pool, p': Pool, chain: ChainState, now: nat, local: set<Tx>)
    requires WellFormed(p) && Promoted(p, p', chain, now, local)
    ensures PendingLimited(p', p, local)
    ensures forall a {:trigger Of(p', a)} :: Of(p', a).known <= Of(p, a).known
  {
    hide Of, WellFormed, Resets, Promotes, PendingLimited, Represented;
    var q, s :| StartsAt(p, q, chain, now, local) && Promotes(q, s, p', chain, now, local);
    if p.managed.None? {
      ResetKeepsWellFormed(p, q, chain, now, local);
      ResetLimitsPending(p, q, chain, now, local);
    }
    PromotionLimitsPending(q, s, p', chain, now, local);
    KnowsMore(p', q, p, local);
    forall a ensures Of(p', a).known <= Of(p, a).known {
      assert Of(p', a).known <= Of(q, a).known;
    }
  }

  /** A reset ends with a well-formed pool that has a pending state. */
  lemma ResetKeepsWellFormed(p: Pool, p': Pool, chain: ChainState, now: nat, local: set<Tx>)
    requires WellFormed(p) && Resets(p, p', chain, now, local)
    ensures WellFormed(p') && p'.managed.Some?
  {
    hide WellFormed, Refreshes, Advanced, Equalised, Trimmed, Represented;
    var q, s :| Refreshed(p, q, chain) && Promotes(q, s, p', chain, now, local);
    RefreshKeepsWellFormed(p, q, chain);
    PromotionKeepsWellFormed(q, s, p', chain, now, local);
  }

  /** So does promotion, with the reset before it if there is one. */
  lemma PromotedKeepsWellFormed(p: Pool, p': Pool, chain: ChainState, now: nat, local: set<Tx>)
    requires WellFormed(p) && Promoted(p, p', chain, now, local)
    ensures WellFormed(p') && p'.managed.Some?
  {
    hide WellFormed, Resets, Advanced, Equalised, Trimmed, Represented;
    var q, s :| StartsAt(p, q, chain, now, local) && Promotes(q, s, p', chain, now, local);
    if p.managed.None? {
      ResetKeepsWellFormed(p, q, chain, now, local);
    }
    PromotionKeepsWellFormed(q, s, p', chain, now, local);
  }

  lemma RefreshKeepsApart(p: Pool, p': Pool, chain: ChainState)
    requires WellFormed(p) && Refreshes(p, p', chain) && AllApart(p)
    ensures AllApart(p')
  {
    hide Known, Demote, Hashed;
    forall a ensures Apart(Of(p', a)) {
      var was := Of(p, a).(nonce := NonceOf(chain, a));
      assert Placed(Of(p, a), a) && Apart(Of(p, a));
      assert Of(p', a) == RefreshAt(p, a, chain);
      DemoteKeepsApart(was, NonceOf(chain, a), BalanceOf(chain, a), a);
    }
  }

  lemma DemotionKeepsApart(p: Pool, p': Pool, chain: ChainState)
    requires WellFormed(p) && Demotes(p, p', chain) && AllApart(p)
    ensures AllApart(p')
  {
    hide Known, Demote, Hashed;
    forall a ensures Apart(Of(p', a)) {
      assert Placed(Of(p, a), a) && Apart(Of(p, a));
      DemoteKeepsApart(Of(p, a), NonceOf(chain, a), BalanceOf(chain, a), a);
      assert Of(p', a) == if a in p.pending then DemoteAt(p, a, chain) else Of(p, a);
    }
  }

  /**
   The queue within its limits, and the pending lists within theirs or nobody above the guaranteed minimum
   without a local transaction.
   */
  ghost predicate WithinLimits(p: Pool, local: set<Tx>) {
    && W.Total(Lens(p.queue)) <= 1024
    && (forall a | a in p.queue :: |p.queue[a]| <= 256)
    && (W.Total(Lens(p.pending)) <= 4096
        || forall a | a in p.pending && 16 < |p.pending[a]| :: HasLocal(p.pending[a], local))
  }

  lemma PromotionSettles(p: Pool, s: Stages, p': Pool, chain: ChainState, now: nat, local: set<Tx>)
    requires WellFormed(p) && Promotes(p, s, p', chain, now, local) && AllSettleApart(p, chain)
    ensures AllApart(p') && WithinLimits(p', local)
  {
    hide Promotes, AllApart, AllSettleApart, HasLocal, Lens, W.Total;
    PromotionKeepsApartIff(p, s, p', chain, now, local);
    PromotionLimits(p, s, p', chain, now, local);
    PromotionLimitsPending(p, s, p', chain, now, local);
    if MAX_PENDING_TOTAL < W.Total(Lens(p'.pending)) {
      forall a | a in p'.pending && MIN_PENDING_PER_ACCOUNT < |p'.pending[a]| ensures HasLocal(p'.pending[a], local) {
        SparedHasLocal(p, s, p', chain, now, local, a);
      }
    }
  }

  /** A reset of a pool with no queued nonce pending as well ends within the limits, and like that. */
  lemma ResetSettles(p: Pool, p': Pool, chain: ChainState, now: nat, local: set<Tx>)
    requires WellFormed(p) && Resets(p, p', chain, now, local) && AllApart(p)
    ensures AllApart(p') && WithinLimits(p', local)
  {
    hide WellFormed, Promotes, Refreshes, AllApart, WithinLimits, Represented;
    var q, s :| Refreshed(p, q, chain) && Promotes(q, s, p', chain, now, local);
    RefreshKeepsWellFormed(p, q, chain);
    RefreshKeepsApart(p, q, chain);
    AllApartSettle(q, chain);
    PromotionSettles(q, s, p', chain, now, local);
  }

  /** So does promotion, with the reset before it if there is one. */
  lemma PromotedSettles(p: Pool, p': Pool, chain: ChainState, now: nat, local: set<Tx>)
    requires WellFormed(p) && Promoted(p, p', chain, now, local) && AllSettleApart(p, chain)
    ensures AllApart(p') && WithinLimits(p', local)
  {
    hide WellFormed, Promotes, Resets, AllApart, AllSettleApart, WithinLimits;
    var q, s :| StartsAt(p, q, chain, now, local) && Promotes(q, s, p', chain, now, local);
    if p.managed.None? {
      ResetKeepsWellFormed(p, q, chain, now, local);
      NothingPendingApart(p);
      ResetSettles(p, q, chain, now, local);
      AllApartSettle(q, chain);
    }
    PromotionSettles(q, s, p', chain, now, local);
  }

  lemma NothingPendingApart(p: Pool)
    requires WellFormed(p) && p.managed.None?
    ensures AllApart(p)
  {
  }

  predicate HasLocal(items: Items, local: set<Tx>) {
    exists n :: n in items && items[n] in local
  }

  lemma SparedHasLocal(p: Pool, s: Stages, p': Pool, chain: ChainState, now: nat, local: set<Tx>, a: Address)
    requires Promotes(p, s, p', chain, now, local) && p'.pending == s.equalised.pending
    requires a in p'.pending && a in s.spared && MAX_PENDING_TOTAL < W.Total(Lens(p'.pending))
    ensures HasLocal(p'.pending[a], local)
  {
    hide Known, WellFormed, Advanced, AllApart, Trimmed, W.Total, Lens, W.CutTo;
    var first := s.advanced.pending;
    if p'.pending != first {
      var n :| n in first[a] && first[a][n] in local;
      assert Cap(first[a], |first[a]|) == first[a];
      assert p'.pending[a][n] in local;
    } else {
      var n :| n in first[a] && first[a][n] in local;
      assert p'.pending[a][n] in local;
    }
  }

  // ------------------------------------------------------------------ adding

  /** Why a transaction is not taken into the pool. */
  datatype Refusal =
    | AlreadyKnown
    | Cheap
    | NonExistentAccount
    | NonceTooLow
    | OverGasLimit
    | NegativeValue
    | InsufficientFunds
    | UnderIntrinsicGas

  /** The checks of a transaction that rest on neither the pool nor the account's nonce and balance. */
  datatype Checks = Checks(accountExists: bool, withinGasLimit: bool, nonNegative: bool, coversIntrinsicGas: bool)

  /** The first of the checks, in their order, that a transaction fails. */
  function Refuse(tx: Tx, known: bool, local: bool, minPrice: nat, chain: ChainState, checks: Checks): Option<Refusal> {
    if known then Some(AlreadyKnown)
    else if !local && minPrice > tx.price then Some(Cheap)
    else if !checks.accountExists then Some(NonExistentAccount)
    else if NonceOf(chain, tx.from) > tx.nonce then Some(NonceTooLow)
    else if !checks.withinGasLimit then Some(OverGasLimit)
    else if !checks.nonNegative then Some(NegativeValue)
    else if BalanceOf(chain, tx.from) < tx.cost then Some(InsufficientFunds)
    else if !checks.coversIntrinsicGas then Some(UnderIntrinsicGas)
    else None
  }

  /** What a transaction has to meet, beside not being known: said of the head of the chain itself. */
  predicate Admissible(tx: Tx, local: bool, minPrice: nat, chain: ChainState, checks: Checks) {
    && (local || minPrice <= tx.price)
    && (tx.from in chain.nonces ==> chain.nonces[tx.from] <= tx.nonce)
    && (if tx.from in chain.balances then tx.cost <= chain.balances[tx.from] else tx.cost == 0)
    && checks == Checks(true, true, true, true)
  }

  /** A transaction does not meet the check that this refusal stands for. */
  predicate Fails(r: Refusal, tx: Tx, known: bool, local: bool, minPrice: nat, chain: ChainState, checks: Checks) {
    match r
    case AlreadyKnown => known
    case Cheap => !local && tx.price < minPrice
    case NonExistentAccount => !checks.accountExists
    case NonceTooLow => tx.from in chain.nonces && tx.nonce < chain.nonces[tx.from]
    case OverGasLimit => !checks.withinGasLimit
    case NegativeValue => !checks.nonNegative
    case InsufficientFunds => (if tx.from in chain.balances then chain.balances[tx.from] else 0) < tx.cost
    case UnderIntrinsicGas => !checks.coversIntrinsicGas
  }

  /** The order of the checks. */
  const CHECKED: seq<Refusal> :=
    [AlreadyKnown, Cheap, NonExistentAccount, NonceTooLow, OverGasLimit, NegativeValue, InsufficientFunds,
     UnderIntrinsicGas]

  /** The refusal is the first check in order that fails. */
  predicate FirstFailure(r: Refusal, tx: Tx, known: bool, local: bool, minPrice: nat, chain: ChainState,
                         checks: Checks) {
    exists i :: 0 <= i < |CHECKED| && CHECKED[i] == r && Fails(r, tx, known, local, minPrice, chain, checks)
                && forall j | 0 <= j < i :: !Fails(CHECKED[j], tx, known, local, minPrice, chain, checks)
  }

  /** A transaction is let in exactly if it is not known and meets all checks, and refused for the first it fails. */
  lemma RefuseIff(tx: Tx, known: bool, local: bool, minPrice: nat, chain: ChainState, checks: Checks)
    ensures var refused := Refuse(tx, known, local, minPrice, chain, checks);
            && (refused.None? <==> !known && Admissible(tx, local, minPrice, chain, checks))
            && (refused.Some? ==> FirstFailure(refused.value, tx, known, local, minPrice, chain, checks))
  {
    var refused := Refuse(tx, known, local, minPrice, chain, checks);
    if refused.Some? {
      var i := if known then 0 else if refused == Some(Cheap) then 1 else if refused == Some(NonExistentAccount) then 2
               else if refused == Some(NonceTooLow) then 3 else if refused == Some(OverGasLimit) then 4
               else if refused == Some(NegativeValue) then 5 else if refused == Some(InsufficientFunds) then 6 else 7;
      assert CHECKED[i] == refused.value;
    }
  }

  /** A transaction offered to the pool, as one account sees it: queued if it is from this account and not refused. */
  function Enter(account: Account, a: Address, tx: Tx, local: set<Tx>, minPrice: nat, chain: ChainState,
                 checks: Checks): Account {
    if tx.from == a && Refuse(tx, tx in account.known, tx in local, minPrice, chain, checks).None?
        then Enqueue(account, tx) else account
  }

  function EnterAll(account: Account, a: Address, txs: seq<(Tx, Checks)>, local: set<Tx>, minPrice: nat,
                    chain: ChainState): Account
    decreases |txs|
  {
    if txs == [] then account
    else EnterAll(Enter(account, a, txs[0].0, local, minPrice, chain, txs[0].1), a, txs[1..], local, minPrice, chain)
  }

  /** The pool after one offer. */
  ghost predicate EntersOne(p: Pool, p': Pool, tx: Tx, local: set<Tx>, minPrice: nat, chain: ChainState,
                            checks: Checks) {
    forall a {:trigger Of(p', a)} :: Of(p', a) == Enter(Of(p, a), a, tx, local, minPrice, chain, checks)
  }

  /** The pool after a batch of offers. */
  ghost predicate Enters(p: Pool, p': Pool, txs: seq<(Tx, Checks)>, local: set<Tx>, minPrice: nat, chain: ChainState) {
    forall a {:trigger Of(p', a)} :: Of(p', a) == EnterAll(Of(p, a), a, txs, local, minPrice, chain)
  }

  lemma EnterOne(p: Pool, p': Pool, tx: Tx, local: set<Tx>, minPrice: nat, chain: ChainState, checks: Checks)
    requires Hashed(p.all)
    requires var refused := Refuse(tx, HashOf(tx) in p.all, tx in local, minPrice, chain, checks);
             if refused.Some? then p' == p else OnlyAt(p, p', tx.from, Enqueue(Of(p, tx.from), tx))
    ensures HashOf(tx) in p.all <==> tx in Of(p, tx.from).known
    ensures EntersOne(p, p', tx, local, minPrice, chain, checks)
  {
    hide Enqueue;
    ValueIff(p.all, tx);
  }

  lemma StartEnter(p: Pool, tx: Tx)
    requires WellFormed(p)
    ensures Hashed(p.all) && ListOf(At(p.queue, tx.from), tx.from) && NoneEmpty(p.queue)
  {
    assert Placed(Of(p, tx.from), tx.from);
  }

  lemma EndEnter(p: Pool, p': Pool, tx: Tx)
    requires WellFormed(p) && HashOf(tx) !in p.all && p'.pending == p.pending && p'.managed == p.managed
    requires OnlyAt(p, p', tx.from, Enqueue(Of(p, tx.from), tx)) && Hashed(p'.all) && NoneEmpty(p'.queue)
    ensures WellFormed(p')
  {
    hide Known, Enqueue, Hashed, Of;
    var a := tx.from;
    KnownIff(p, tx);
    assert Placed(Of(p, a), a) && Alive(Of(p, a));
    EnqueueKeepsPlaced(Of(p, a), tx, a);
    EnqueueAllLeaves(Of(p, a), [tx]);
    OneEnqueued(Of(p, a), tx);
    StepKeepsWellFormed(p, p', a, Of(p', a));
  }

  lemma {:induction false} EnterAllKeepsPlaced(account: Account, a: Address, txs: seq<(Tx, Checks)>, local: set<Tx>,
                                               minPrice: nat, chain: ChainState)
    requires Placed(account, a) && Alive(account)
    ensures var b := EnterAll(account, a, txs, local, minPrice, chain);
            Placed(b, a) && Alive(b) && b.pending == account.pending
    decreases |txs|
  {
    hide Refuse;
    if txs != [] {
      var next := Enter(account, a, txs[0].0, local, minPrice, chain, txs[0].1);
      if next != account {
        KnownIsRefused(txs[0].0, local, minPrice, chain, txs[0].1);
        EnqueueKeepsPlaced(account, txs[0].0, a);
      }
      EnterAllKeepsPlaced(next, a, txs[1..], local, minPrice, chain);
    }
  }

  /** A batch makes known only what is offered in it and meets all checks. */
  lemma {:induction false} EnterAllKnows(account: Account, a: Address, txs: seq<(Tx, Checks)>, local: set<Tx>,
                                         minPrice: nat, chain: ChainState)
    ensures forall t | t in EnterAll(account, a, txs, local, minPrice, chain).known ::
              t in account.known || OfferedWell(txs, t, local, minPrice, chain)
    decreases |txs|
  {
    hide Refuse;
    if txs != [] {
      var next := Enter(account, a, txs[0].0, local, minPrice, chain, txs[0].1);
      EnterAllKnows(next, a, txs[1..], local, minPrice, chain);
      forall t | t in EnterAll(account, a, txs, local, minPrice, chain).known && t !in account.known
        ensures OfferedWell(txs, t, local, minPrice, chain)
      {
        if t in next.known {
          RefuseIff(t, t in account.known, t in local, minPrice, chain, txs[0].1);
        } else {
          var i :| 0 <= i < |txs[1..]| && txs[1..][i].0 == t
                   && Admissible(t, t in local, minPrice, chain, txs[1..][i].1);
          assert txs[i + 1] == txs[1..][i];
        }
      }
    }
  }

  /** The transaction is offered and meets all checks. */
  predicate OfferedWell(txs: seq<(Tx, Checks)>, t: Tx, local: set<Tx>, minPrice: nat, chain: ChainState) {
    exists i :: 0 <= i < |txs| && txs[i].0 == t && Admissible(t, t in local, minPrice, chain, txs[i].1)
  }

  lemma KnownIsRefused(tx: Tx, local: set<Tx>, minPrice: nat, chain: ChainState, checks: Checks)
    ensures Refuse(tx, true, tx in local, minPrice, chain, checks).Some?
  {
  }

  lemma EnteredKeepsWellFormed(p: Pool, p': Pool, txs: seq<(Tx, Checks)>, local: set<Tx>, minPrice: nat,
                               chain: ChainState)
    requires WellFormed(p) && Continues(p, p') && Enters(p, p', txs, local, minPrice, chain)
    ensures WellFormed(p')
  {
    hide Of, EnterAll, Placed, Alive, Represented;
    forall a ensures Placed(Of(p', a), a) && Alive(Of(p', a)) && Of(p', a).pending.Keys <= Of(p, a).pending.Keys {
      assert Placed(Of(p, a), a) && Alive(Of(p, a));
      assert Of(p', a) == EnterAll(Of(p, a), a, txs, local, minPrice, chain);
      EnterAllKeepsPlaced(Of(p, a), a, txs, local, minPrice, chain);
    }
    WellFormedFrom(p, p');
  }

  lemma OneEnqueued(a: Account, tx: Tx)
    ensures EnqueueAll(a, [tx]) == Enqueue(a, tx)
  {
    assert EnqueueAll(Enqueue(a, tx), []) == Enqueue(a, tx);
  }

  /** One offer is a batch of one. */
  lemma OneEntered(p: Pool, p': Pool, tx: Tx, local: set<Tx>, minPrice: nat, chain: ChainState, checks: Checks)
    requires EntersOne(p, p', tx, local, minPrice, chain, checks)
    ensures Enters(p, p', [(tx, checks)], local, minPrice, chain)
  {
    hide Of, Enter;
    forall a ensures Of(p', a) == EnterAll(Of(p, a), a, [(tx, checks)], local, minPrice, chain) {
      assert Of(p', a) == Enter(Of(p, a), a, tx, local, minPrice, chain, checks);
      assert EnterAll(Of(p', a), a, [], local, minPrice, chain) == Of(p', a);
    }
  }

  /** One more offer of a batch. */
  lemma EnterNext(p: Pool, here: Pool, p': Pool, txs: seq<(Tx, Checks)>, i: nat, local: set<Tx>, minPrice: nat,
                  chain: ChainState)
    requires i < |txs| && EntersOne(here, p', txs[i].0, local, minPrice, chain, txs[i].1)
    requires forall a {:trigger Of(here, a)} ::
               EnterAll(Of(here, a), a, txs[i..], local, minPrice, chain) ==
               EnterAll(Of(p, a), a, txs, local, minPrice, chain)
    ensures forall a {:trigger Of(p', a)} ::
              EnterAll(Of(p', a), a, txs[i + 1..], local, minPrice, chain) ==
              EnterAll(Of(p, a), a, txs, local, minPrice, chain)
  {
    hide Of, Enter;
    assert txs[i..][0] == txs[i] && txs[i..][1..] == txs[i + 1..];
    forall a
      ensures EnterAll(Of(p', a), a, txs[i + 1..], local, minPrice, chain) ==
              EnterAll(Of(p, a), a, txs, local, minPrice, chain)
    {
      assert Of(p', a) == Enter(Of(here, a), a, txs[i].0, local, minPrice, chain, txs[i].1);
      assert EnterAll(Of(here, a), a, txs[i..], local, minPrice, chain) ==
               EnterAll(Of(p', a), a, txs[i + 1..], local, minPrice, chain);
    }
  }

  lemma AllEntered(p: Pool, p': Pool, txs: seq<(Tx, Checks)>, local: set<Tx>, minPrice: nat, chain: ChainState)
    requires forall a {:trigger Of(p', a)} ::
               EnterAll(Of(p', a), a, txs[|txs|..], local, minPrice, chain) ==
               EnterAll(Of(p, a), a, txs, local, minPrice, chain)
    ensures Enters(p, p', txs, local, minPrice, chain)
  {
    hide Of, Enter;
    assert txs[|txs|..] == [];
    forall a ensures Of(p', a) == EnterAll(Of(p, a), a, txs, local, minPrice, chain) {
      assert EnterAll(Of(p', a), a, txs[|txs|..], local, minPrice, chain) ==
               EnterAll(Of(p, a), a, txs, local, minPrice, chain);
    }
  }

  // ------------------------------------------------------------------ removing a batch

  /** The transactions of one account among those with the given hashes. */
  function TxsOf(hashes: seq<Hash>, a: Address): seq<Tx>
    decreases |hashes|
  {
    if hashes == [] then []
    else if hashes[0].tx.from == a then [hashes[0].tx] + TxsOf(hashes[1..], a)
    else TxsOf(hashes[1..], a)
  }

  lemma {:induction false} TxsOfHas(hashes: seq<Hash>, h: Hash)
    requires h in hashes
    ensures h.tx in TxsOf(hashes, h.tx.from)
    decreases |hashes|
  {
    if h != hashes[0] {
      TxsOfHas(hashes[1..], h);
    }
  }

  lemma BatchNext(p: Pool, here: Pool, p': Pool, hashes: seq<Hash>, i: nat)
    requires i < |hashes| && OnlyAt(here, p', hashes[i].tx.from, Remove(Of(here, hashes[i].tx.from), hashes[i].tx))
    requires forall a {:trigger Of(here, a)} ::
               RemoveAll(Of(here, a), TxsOf(hashes[i..], a)) == RemoveAll(Of(p, a), TxsOf(hashes, a))
    ensures forall a {:trigger Of(p', a)} ::
              RemoveAll(Of(p', a), TxsOf(hashes[i + 1..], a)) == RemoveAll(Of(p, a), TxsOf(hashes, a))
  {
    hide Of, Remove;
    var tx := hashes[i].tx;
    assert hashes[i..][0] == hashes[i] && hashes[i..][1..] == hashes[i + 1..];
    forall a ensures RemoveAll(Of(p', a), TxsOf(hashes[i + 1..], a)) == RemoveAll(Of(p, a), TxsOf(hashes, a)) {
      assert RemoveAll(Of(here, a), TxsOf(hashes[i..], a)) == RemoveAll(Of(p, a), TxsOf(hashes, a));
      if a == tx.from {
        assert TxsOf(hashes[i..], a)[1..] == TxsOf(hashes[i + 1..], a);
      }
    }
  }

  lemma BatchEnds(p: Pool, p': Pool, hashes: seq<Hash>)
    requires WellFormed(p) && WellFormed(p')
    requires forall a {:trigger Of(p', a)} ::
               RemoveAll(Of(p', a), TxsOf(hashes[|hashes|..], a)) == RemoveAll(Of(p, a), TxsOf(hashes, a))
    ensures forall a {:trigger Of(p', a)} :: Of(p', a) == RemoveAll(Of(p, a), TxsOf(hashes, a))
    ensures forall h | h in hashes :: h !in p'.all
  {
    hide Of, Remove, Known, Hashed;
    forall a ensures Of(p', a) == RemoveAll(Of(p, a), TxsOf(hashes, a)) {
      assert TxsOf(hashes[|hashes|..], a) == [];
      assert RemoveAll(Of(p', a), TxsOf(hashes[|hashes|..], a)) == RemoveAll(Of(p, a), TxsOf(hashes, a));
    }
    forall h | h in hashes ensures h !in p'.all {
      var a := h.tx.from;
      TxsOfHas(hashes, h);
      assert Placed(Of(p, a), a);
      RemoveAllKeeps(Of(p, a), TxsOf(hashes, a), a);
      assert HashOf(h.tx) == h;
      KnownIff(p', h.tx);
    }
  }

  /** Removals, account by account, keep the pool well formed. */
  lemma RemovalsKeepWellFormed(p: Pool, p': Pool, gone: Address -> seq<Tx>)
    requires WellFormed(p) && Continues(p, p')
    requires forall a {:trigger Of(p', a)} :: Of(p', a) == RemoveAll(Of(p, a), gone(a))
    ensures WellFormed(p')
  {
    hide Of, RemoveAll, Placed, Alive, Represented;
    forall a ensures Placed(Of(p', a), a) && Alive(Of(p', a)) && Of(p', a).pending.Keys <= Of(p, a).pending.Keys {
      assert Placed(Of(p, a), a) && Alive(Of(p, a));
      assert Of(p', a) == RemoveAll(Of(p, a), gone(a));
      RemoveAllKeeps(Of(p, a), gone(a), a);
    }
    WellFormedFrom(p, p');
  }

  lemma RemovalsShrink(p: Pool, p': Pool, gone: Address -> seq<Tx>)
    requires WellFormed(p)
    requires forall a {:trigger Of(p', a)} :: Of(p', a) == RemoveAll(Of(p, a), gone(a))
    ensures Shrinks(p, p') && forall a {:trigger Of(p', a)} :: Of(p', a).known <= Of(p, a).known
  {
    hide Of, RemoveAll, Placed, Alive, Represented;
    forall a ensures |Of(p', a).pending| <= |Of(p, a).pending| && Of(p', a).known <= Of(p, a).known {
      assert Placed(Of(p, a), a);
      assert Of(p', a) == RemoveAll(Of(p, a), gone(a));
      RemoveAllKeeps(Of(p, a), gone(a), a);
      KeysShrink(Of(p', a).pending, Of(p, a).pending);
    }
  }

  /** Offers whose nonces are not pending keep the lists apart. */
  lemma {:induction false} EnterAllKeepsApart(account: Account, a: Address, txs: seq<(Tx, Checks)>, local: set<Tx>,
                                              minPrice: nat, chain: ChainState)
    requires Apart(account) && forall i | 0 <= i < |txs| && txs[i].0.from == a :: txs[i].0.nonce !in account.pending
    ensures Apart(EnterAll(account, a, txs, local, minPrice, chain))
    decreases |txs|
  {
    if txs != [] {
      var next := Enter(account, a, txs[0].0, local, minPrice, chain, txs[0].1);
      if txs[0].0.from == a {
        EnqueueKeepsApartIff(account, txs[0].0);
      }
      assert next.pending == account.pending;
      EnterAllKeepsApart(next, a, txs[1..], local, minPrice, chain);
    }
  }

  // ------------------------------------------------------------------ expiry

  /**
   Queued transactions expire with the account's last heartbeat; an account with nothing pending has none to
   wait for.
   */
  predicate Expires(p: Pool, a: Address, now: nat) {
    a in p.queue && (a in p.pending && a in p.beats ==> p.beats[a] + MAX_QUEUED_LIFETIME < now)
  }

  predicate Stale(beats: map<Address, nat>, a: Address, now: nat) {
    a in beats ==> beats[a] + MAX_QUEUED_LIFETIME < now
  }

  lemma StartExpiry(p: Pool, here: Pool, a: Address, now: nat)
    requires WellFormed(p) && WellFormed(here) && Of(here, a) == Of(p, a) && a in p.queue
    ensures a in here.queue && here.queue[a] == p.queue[a] && (Stale(here.beats, a, now) <==> Expires(p, a, now))
    ensures forall tx | tx in Flatten(here.queue[a]) :: tx.from == a
  {
    hide Known, Flatten, Hashed;
    assert Placed(Of(p, a), a) && Alive(Of(p, a));
    FlattenMembers(p.queue[a]);
  }

  function ExpireAt(p: Pool, a: Address, now: nat): Account {
    if Expires(p, a, now) then RemoveAll(Of(p, a), Flatten(p.queue[a])) else Of(p, a)
  }

  ghost predicate Expired(p: Pool, p': Pool, now: nat) {
    forall a {:trigger Of(p', a)} :: Of(p', a) == ExpireAt(p, a, now)
  }

  /**
   Expiry leaves queued transactions to exactly the accounts that have something pending and were heard from
   in time.
   */
  lemma ExpiryIsExact(p: Pool, p': Pool, now: nat, a: Address)
    requires WellFormed(p) && Represented(p') && Expired(p, p', now) && Apart(Of(p, a))
    ensures a in p.pending <==> a in p.beats
    ensures a in p'.queue <==> a in p.queue && a in p.pending && now <= p.beats[a] + 3 * 3600
    ensures a in p'.queue ==> p'.queue[a] == p.queue[a]
    ensures At(p'.pending, a) == At(p.pending, a)
  {
    hide Known, RemoveAll, Flatten, Hashed;
    assert Placed(Of(p, a), a) && Alive(Of(p, a)) && Apart(Of(p, a));
    RemoveWholeQueue(Of(p, a), a);
    assert Of(p', a) == ExpireAt(p, a, now);
  }
}
