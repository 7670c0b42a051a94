/**
 The state of the transaction pool as a value, what one account sees of it, and what each step does to it.
 */
module PoolValues {
  import opened Options
  import opened TxLists
  import opened Accounts
  import opened Equaliser
  import W = WaterFilling

  const MIN_PENDING_PER_ACCOUNT: nat := 16
  const MAX_PENDING_TOTAL: nat := 4096
  const MAX_QUEUED_PER_ACCOUNT: nat := 256
  const MAX_QUEUED_IN_TOTAL: nat := 1024
  const MAX_QUEUED_LIFETIME: nat := 10800  // seconds

  /** Hashes are free of collisions: a hash determines its transaction. */
  datatype Hash = HashOf(tx: Tx)

  /** The head of the chain: the nonce and the balance of every account. */
  datatype ChainState = ChainState(nonces: map<Address, nat>, balances: map<Address, nat>)

  function NonceOf(s: ChainState, a: Address): nat {
    if a in s.nonces then s.nonces[a] else 0
  }

  function BalanceOf(s: ChainState, a: Address): nat {
    if a in s.balances then s.balances[a] else 0
  }

  /** The pending state: a chain state on which the pool keeps its own nonces. */
  datatype Managed = Managed(base: ChainState, nonces: map<Address, nat>)

  function ManagedNonce(m: Option<Managed>, a: Address): nat {
    if m.None? then 0 else if a in m.value.nonces then m.value.nonces[a] else NonceOf(m.value.base, a)
  }

  datatype Pool = Pool(pending: Lists, queue: Lists, all: map<Hash, Tx>, beats: map<Address, nat>,
                       managed: Option<Managed>)

  function At(lists: Lists, a: Address): Items {
    if a in lists then lists[a] else map[]
  }

  function Beat(beats: map<Address, nat>, a: Address): Option<nat> {
    if a in beats then Some(beats[a]) else None
  }

  function Known(all: map<Hash, Tx>, a: Address): set<Tx> {
    set tx | tx in all.Values && tx.from == a
  }

  /** The pool as one account sees it. */
  function Of(p: Pool, a: Address): Account {
    Account(At(p.pending, a), At(p.queue, a), Known(p.all, a), ManagedNonce(p.managed, a), Beat(p.beats, a))
  }

  ghost predicate Hashed(all: map<Hash, Tx>) {
    forall h | h in all :: h == HashOf(all[h])
  }

  ghost predicate NoneEmpty(lists: Lists) {
    forall a | a in lists :: lists[a] != map[]
  }

  /** Every transaction is known by its hash, and no list is empty. */
  ghost predicate Represented(p: Pool) {
    Hashed(p.all) && NoneEmpty(p.pending) && NoneEmpty(p.queue)
  }

  /** A pool made of another one: its pending state is not dropped once it is there. */
  ghost predicate Continues(p: Pool, p': Pool) {
    Represented(p') && (p.managed.Some? ==> p'.managed.Some?)
  }

  /**
   What holds between operations: every account has its transactions placed and a heartbeat exactly while it
   has something pending, no list is empty, and there is a pending state once anything is pending.
   */
  ghost predicate WellFormed(p: Pool) {
    && Represented(p)
    && (forall a {:trigger Of(p, a)} :: Placed(Of(p, a), a) && Alive(Of(p, a)))
    && (p.managed.None? ==> p.pending == map[])
  }

  /** Exactly the accounts touched change, each as an operation on accounts says. */
  ghost predicate OnlyAt(p: Pool, p': Pool, a: Address, account: Account) {
    && Of(p', a) == account
    && forall b {:trigger Of(p', b)} | b != a :: Of(p', b) == Of(p, b)
  }

  lemma KnownAdd(all: map<Hash, Tx>, tx: Tx, a: Address)
    requires Hashed(all)
    ensures Known(all[HashOf(tx) := tx], a) == Known(all, a) + if tx.from == a then {tx} else {}
  {
    var all' := all[HashOf(tx) := tx];
    forall t ensures t in all'.Values <==> t in all.Values || t == tx {
      ValueIff(all, t);
      ValueIff(all', t);
    }
  }

  lemma KnownDelete(all: map<Hash, Tx>, txs: set<Tx>, a: Address)
    requires Hashed(all)
    ensures Hashed(all - Hashes(txs))
    ensures Known(all - Hashes(txs), a) == Known(all, a) - txs
  {
    var all' := all - Hashes(txs);
    forall t ensures t in all'.Values <==> t in all.Values && t !in txs {
      ValueIff(all, t);
      ValueIff(all', t);
    }
  }

  lemma KnownDeleteOwned(all: map<Hash, Tx>, txs: set<Tx>, a: Address)
    requires Hashed(all) && forall tx | tx in txs :: tx.from == a
    ensures Hashed(all - Hashes(txs))
    ensures forall b :: Known(all - Hashes(txs), b) == if b == a then Known(all, b) - txs else Known(all, b)
  {
    KnownDelete(all, txs, a);
    forall b | b != a ensures Known(all - Hashes(txs), b) == Known(all, b) {
      KnownDelete(all, txs, b);
      assert Known(all, b) - txs == Known(all, b);
    }
  }

  function Hashes(txs: set<Tx>): set<Hash> {
    set tx | tx in txs :: HashOf(tx)
  }

  lemma ValueIff(all: map<Hash, Tx>, t: Tx)
    requires Hashed(all)
    ensures t in all.Values <==> HashOf(t) in all
  {
    if HashOf(t) in all {
      assert all[HashOf(t)] == t;
    }
  }

  lemma EnqueueListed(a: Account, tx: Tx, owner: Address)
    requires ListOf(a.queue, owner) && tx.from == owner
    ensures ListOf(Enqueue(a, tx).queue, owner)
  {
  }

  function Lowered(a: Account, nonce: nat): Account {
    a.(nonce := if a.nonce > nonce then nonce else a.nonce)
  }

  function Cut(a: Account, rest: Items, invalids: seq<Tx>): Account {
    if rest == map[] then a.(pending := map[], beat := None) else EnqueueAll(a.(pending := rest), invalids)
  }

  lemma RemovePendingIs(a: Account, tx: Tx, owner: Address)
    requires ListOf(a.pending, owner)
    ensures forall t | t in Flatten(From(a.pending, tx.nonce + 1)) :: t.from == owner
    ensures RemovePending(a, tx) ==
            if tx.nonce !in a.pending then a
            else Lowered(Cut(a, Below(a.pending, tx.nonce), Flatten(From(a.pending, tx.nonce + 1))), tx.nonce)
  {
    hide Flatten, EnqueueAll;
    FlattenMembers(From(a.pending, tx.nonce + 1));
  }

  lemma DropPendingIs(p: Pool, a: Address)
    ensures OnlyAt(p, p.(pending := p.pending - {a}, beats := p.beats - {a}), a,
                   Of(p, a).(pending := map[], beat := None))
  {
    hide Known;
  }

  lemma TakePendingIs(p: Pool, a: Address, rest: Items)
    ensures OnlyAt(p, p.(pending := p.pending[a := rest]), a, Of(p, a).(pending := rest))
  {
    hide Known;
  }

  lemma SetNonceIs(p: Pool, a: Address, nonce: nat)
    requires p.managed.Some?
    ensures OnlyAt(p, p.(managed := SetNonceOf(p.managed, a, nonce)), a, Of(p, a).(nonce := nonce))
  {
    hide Known;
  }

  lemma RemovalStart(p: Pool, hash: Hash)
    requires WellFormed(p)
    ensures var a := hash.tx.from;
            var deleted := p.(all := p.all - {hash});
            && ListOf(At(p.pending, a), a) && ListOf(At(p.queue, a), a)
            && NoneEmpty(p.pending) && NoneEmpty(p.queue) && (a in p.pending ==> p.managed.Some?)
            && (hash !in p.all ==> Remove(Of(p, a), hash.tx) == Of(p, a))
            && (hash in p.all ==> hash.tx in Of(p, a).known)
            && Hashed(deleted.all) && OnlyAt(p, deleted, a, Of(p, a).(known := Of(p, a).known - {hash.tx}))
  {
    var a, tx := hash.tx.from, hash.tx;
    assert Placed(Of(p, a), a);
    ValueIff(p.all, tx);
    assert p.all - {hash} == p.all - Hashes({tx});
    KnownDeleteOwned(p.all, {tx}, a);
  }

  lemma RemovalEnd(p: Pool, done: Pool, tx: Tx)
    requires WellFormed(p) && OnlyAt(p, done, tx.from, Remove(Of(p, tx.from), tx))
    requires Hashed(done.all) && NoneEmpty(done.pending) && NoneEmpty(done.queue)
    requires done.managed.Some? <==> p.managed.Some?
    requires p.pending == map[] ==> done.pending == map[]
    ensures WellFormed(done) && HashOf(tx) !in done.all
  {
    hide Known, Placed, Remove, Hashed, Of, Alive;
    KnownIff(done, tx);
    assert Placed(Of(p, tx.from), tx.from);
    RemoveKeepsPlaced(Of(p, tx.from), tx, tx.from);
    forall b ensures Placed(Of(done, b), b) && Alive(Of(done, b)) {
      assert Placed(Of(p, b), b) && Alive(Of(p, b));
      if b == tx.from {
        RemoveKeepsPlaced(Of(p, b), tx, b);
        RemoveForgets(Of(p, b), tx, b);
      }
    }
  }

  /** The transactions whose hashes are marked as local. */
  function Local(hashes: set<Hash>): set<Tx> {
    set h | h in hashes :: h.tx
  }

  lemma LocalIff(hashes: set<Hash>, tx: Tx)
    ensures HashOf(tx) in hashes <==> tx in Local(hashes)
  {
    if HashOf(tx) in hashes {
      assert HashOf(tx).tx == tx;
    }
  }

  /**
   The pending lists after the limiter: within the limit untouched, otherwise the fair share with the lowest
   nonces kept.
   */
  ghost predicate Equalised(first: Lists, lists: Lists, local: set<Tx>, spared: set<Address>, level: nat) {
    if W.Total(Lens(first)) <= MAX_PENDING_TOTAL then lists == first
    else
      && Sampled(first, MIN_PENDING_PER_ACCOUNT, spared, local)
      && W.FairShare(Lens(first), spared, MIN_PENDING_PER_ACCOUNT, MAX_PENDING_TOTAL, level, Lens(lists))
      && Levelled(first, lists, spared, level)
  }

  /** With the pool's limits three senders of 2000 transactions each keep 1365, and one slot stays unused. */
  lemma ThreeSendersLeaveSlack()
    ensures var m := map[0 := 2000, 1 := 2000, 2 := 2000];
            var share := W.CutTo(m, {}, 1365);
            && W.FairShare(m, {}, MIN_PENDING_PER_ACCOUNT, MAX_PENDING_TOTAL, 1365, share)
            && !W.MaxMin(m, {}, MAX_PENDING_TOTAL, share)
  {
    hide W.FairShare, W.MaxMin;
    W.ThreeShare(MIN_PENDING_PER_ACCOUNT, MAX_PENDING_TOTAL, 2000);
  }

  /** Every account advances as promotion says. */
  ghost predicate Advanced(p: Pool, p': Pool, chain: ChainState, now: nat) {
    forall a {:trigger Of(p', a)} :: Of(p', a) == AdvanceAt(p, a, chain, now)
  }

  function AdvanceAt(p: Pool, a: Address, chain: ChainState, now: nat): Account {
    Advance(Of(p, a), NonceOf(chain, a), BalanceOf(chain, a), now, MAX_QUEUED_PER_ACCOUNT)
  }

  lemma AllAdvanced(p: Pool, p': Pool, chain: ChainState, now: nat)
    requires forall b {:trigger Of(p', b)} ::
               Of(p', b) == if b in p.queue then AdvanceAt(p, b, chain, now) else Of(p, b)
    ensures Advanced(p, p', chain, now)
  {
    forall a | a !in p.queue ensures AdvanceAt(p, a, chain, now) == Of(p, a) {
      AdvanceNothing(Of(p, a), NonceOf(chain, a), BalanceOf(chain, a), now, MAX_QUEUED_PER_ACCOUNT);
    }
  }

  lemma CountedStep(p: Pool, p': Pool, todo: set<Address>, a: Address)
    requires a in todo && todo <= p.queue.Keys
    requires p.queue.Keys - {a} <= p'.queue.Keys <= p.queue.Keys
    requires OnlyAt(p, p', a, Of(p', a))
    ensures W.Total(Counted(p'.queue, todo - {a})) == W.Total(Counted(p.queue, todo)) + |At(p'.queue, a)|
  {
    hide Known;
    var m := Counted(p.queue, todo);
    forall b | b in p'.queue && b != a ensures p'.queue[b] == p.queue[b] {
      assert Of(p', b).queue == Of(p, b).queue;
    }
    if a in p'.queue {
      assert Counted(p'.queue, todo - {a}) == m[a := |p'.queue[a]|];
      W.TotalAdd(m, a, |p'.queue[a]|);
    } else {
      assert Counted(p'.queue, todo - {a}) == m;
    }
  }

  function WithoutEmpty(p: Pool, a: Address): Pool {
    if a in p.queue && p.queue[a] == map[] then p.(queue := p.queue - {a}) else p
  }

  function SetNonceOf(m: Option<Managed>, a: Address, nonce: nat): Option<Managed>
    requires m.Some?
  {
    Some(m.value.(nonces := m.value.nonces[a := nonce]))
  }

  function PromotedTx(p: Pool, tx: Tx, now: nat): Pool
    requires p.managed.Some?
  {
    var list := At(p.pending, tx.from);
    if !Accepts(list, tx) then p.(all := p.all - {HashOf(tx)})
    else
      var rest := if tx.nonce in list then p.all - {HashOf(list[tx.nonce])} else p.all;
      p.(pending := p.pending[tx.from := list[tx.nonce := tx]], all := rest[HashOf(tx) := tx],
         beats := p.beats[tx.from := now], managed := SetNonceOf(p.managed, tx.from, tx.nonce + 1))
  }

  lemma PromoteIs(p: Pool, tx: Tx, now: nat)
    requires Hashed(p.all) && p.managed.Some? && ListOf(At(p.pending, tx.from), tx.from)
    ensures var p' := PromotedTx(p, tx, now);
            && Hashed(p'.all) && OnlyAt(p, p', tx.from, Promote(Of(p, tx.from), tx, now))
            && (NoneEmpty(p.pending) ==> NoneEmpty(p'.pending))
  {
    hide OnlyAt, Promote, Of, Known, Hashed;
    if Accepts(At(p.pending, tx.from), tx) {
      PromoteAccepts(p, tx, now);
    } else {
      PromoteDiscards(p, tx, now);
    }
  }

  lemma PromoteDiscards(p: Pool, tx: Tx, now: nat)
    requires Hashed(p.all) && !Accepts(At(p.pending, tx.from), tx)
    ensures var p' := p.(all := p.all - {HashOf(tx)});
            Hashed(p'.all) && OnlyAt(p, p', tx.from, Promote(Of(p, tx.from), tx, now))
  {
    hide Known, Hashed;
    assert p.all - {HashOf(tx)} == p.all - Hashes({tx});
    KnownDeleteOwned(p.all, {tx}, tx.from);
  }

  lemma PromoteAccepts(p: Pool, tx: Tx, now: nat)
    requires Hashed(p.all) && p.managed.Some? && ListOf(At(p.pending, tx.from), tx.from)
    requires Accepts(At(p.pending, tx.from), tx)
    ensures var p' := PromotedTx(p, tx, now);
            && Hashed(p'.all) && OnlyAt(p, p', tx.from, Promote(Of(p, tx.from), tx, now))
  {
    hide Known, Hashed;
    var list := At(p.pending, tx.from);
    var rest := if tx.nonce in list then p.all - {HashOf(list[tx.nonce])} else p.all;
    assert rest == p.all - Hashes(Old(list, tx.nonce));
    EnqueueKnown(p.all, rest, list, tx);
  }

  lemma KeepIs(p: Pool, a: Address, rest: Items)
    requires Hashed(p.all) && a in p.queue && ListOf(p.queue[a], a) && rest.Keys <= p.queue[a].Keys
    ensures var p' := p.(queue := p.queue[a := rest], all := p.all - Hashes((p.queue[a] - rest.Keys).Values));
            Hashed(p'.all) && OnlyAt(p, p', a, Forget(Of(p, a), rest))
  {
    hide Known, Hashed;
    var gone := (p.queue[a] - rest.Keys).Values;
    forall tx | tx in gone ensures tx.from == a {
    }
    KnownDeleteOwned(p.all, gone, a);
  }

  lemma OfParts(p: Pool, a: Address)
    ensures var account := Of(p, a);
            && account.pending == At(p.pending, a) && account.queue == At(p.queue, a)
            && account.nonce == ManagedNonce(p.managed, a) && account.beat == Beat(p.beats, a)
  {
  }

  lemma StartPromotion(p: Pool, a: Address)
    requires WellFormed(p) && a in p.queue
    ensures Placed(Of(p, a), a) && Alive(Of(p, a)) && Hashed(p.all) && NoneEmpty(p.pending)
            && Of(p, a).queue == p.queue[a]
    ensures forall b | b in p.queue :: p.queue[b] != map[]
  {
  }

  lemma PlacedLists(account: Account, a: Address)
    requires Placed(account, a)
    ensures ListOf(account.pending, a) && ListOf(account.queue, a)
  {
  }

  /** Two operations on the same account, one after the other. */
  lemma Chain(p: Pool, q: Pool, r: Pool, a: Address)
    requires OnlyAt(p, q, a, Of(q, a)) && OnlyAt(q, r, a, Of(r, a))
    ensures OnlyAt(p, r, a, Of(r, a))
  {
    hide Of;
  }

  lemma TakeQueued(p: Pool, a: Address, list: Items)
    ensures OnlyAt(p, p.(queue := p.queue[a := list]), a, Of(p, a).(queue := list))
  {
  }

  /** The last step of promoting an account: its queue goes if nothing is left in it. */
  lemma EndPromotion(p: Pool, done: Pool, a: Address, account: Account)
    requires WellFormed(p) && OnlyAt(p, done, a, account) && Placed(account, a) && Alive(account)
    requires Hashed(done.all) && NoneEmpty(done.pending) && done.managed.Some?
    requires a in p.queue && done.queue.Keys == p.queue.Keys
    ensures var final := WithoutEmpty(done, a);
            && WellFormed(final) && OnlyAt(p, final, a, account) && final.managed.Some?
            && p.queue.Keys - {a} <= final.queue.Keys <= p.queue.Keys
  {
    var final := WithoutEmpty(done, a);
    hide Known, Placed;
    forall b ensures Of(final, b) == Of(done, b) {
    }
    forall b | b in final.queue ensures final.queue[b] != map[] {
      if b != a {
        assert Of(done, b).queue == Of(p, b).queue;
      }
    }
    forall b ensures Placed(Of(final, b), b) && Alive(Of(final, b)) {
      if b != a {
        assert Of(final, b) == Of(p, b);
      }
    }
  }

  lemma PromoteListed(a: Account, tx: Tx, now: nat, owner: Address)
    requires ListOf(a.pending, owner) && tx.from == owner
    ensures ListOf(Promote(a, tx, now).pending, owner)
  {
  }

  function Enqueued(p: Pool, tx: Tx): Pool {
    var list := At(p.queue, tx.from);
    if !Accepts(list, tx) then p
    else
      var rest := if tx.nonce in list then p.all - {HashOf(list[tx.nonce])} else p.all;
      p.(queue := p.queue[tx.from := list[tx.nonce := tx]], all := rest[HashOf(tx) := tx])
  }

  lemma EnqueueIs(p: Pool, tx: Tx)
    requires Hashed(p.all) && ListOf(At(p.queue, tx.from), tx.from)
    ensures Hashed(Enqueued(p, tx).all) && OnlyAt(p, Enqueued(p, tx), tx.from, Enqueue(Of(p, tx.from), tx))
    ensures NoneEmpty(p.queue) ==> NoneEmpty(Enqueued(p, tx).queue)
  {
    hide Known, Hashed;
    var list := At(p.queue, tx.from);
    if Accepts(list, tx) {
      var rest := if tx.nonce in list then p.all - {HashOf(list[tx.nonce])} else p.all;
      assert rest == p.all - Hashes(Old(list, tx.nonce));
      EnqueueKnown(p.all, rest, list, tx);
    }
  }

  lemma EnqueueKnown(all: map<Hash, Tx>, deleted: map<Hash, Tx>, list: Items, tx: Tx)
    requires Hashed(all) && deleted == all - Hashes(Old(list, tx.nonce))
    requires tx.nonce in list ==> list[tx.nonce].from == tx.from
    ensures Hashed(deleted) && Hashed(deleted[HashOf(tx) := tx])
    ensures forall b :: Known(deleted[HashOf(tx) := tx], b) ==
                        if b == tx.from then Known(all, b) - Old(list, tx.nonce) + {tx} else Known(all, b)
  {
    forall b ensures Known(deleted[HashOf(tx) := tx], b) ==
                     if b == tx.from then Known(all, b) - Old(list, tx.nonce) + {tx} else Known(all, b)
    {
      KnownDelete(all, Old(list, tx.nonce), b);
      KnownAdd(deleted, tx, b);
    }
    KnownDelete(all, Old(list, tx.nonce), tx.from);
  }

  lemma KnownIff(p: Pool, tx: Tx)
    requires Hashed(p.all)
    ensures HashOf(tx) in p.all <==> tx in Of(p, tx.from).known
  {
    ValueIff(p.all, tx);
  }

  lemma WellFormedLists(p: Pool)
    requires WellFormed(p)
    ensures NoneEmpty(p.pending) && NoneEmpty(p.queue) && Hashed(p.all)
  {
  }

  /** A pool whose accounts are in order is well formed, if it has a pending state or nothing new is pending. */
  lemma WellFormedFrom(p: Pool, p': Pool)
    requires WellFormed(p) && Continues(p, p')
    requires forall a {:trigger Of(p', a)} :: Placed(Of(p', a), a) && Alive(Of(p', a))
    requires p'.managed.Some? || forall a {:trigger Of(p', a)} :: Of(p', a).pending.Keys <= Of(p, a).pending.Keys
    ensures WellFormed(p')
  {
    hide Known, Placed, Hashed, Alive;
    if p'.managed.None? {
      forall a ensures a !in p'.pending {
        assert Of(p', a).pending.Keys <= Of(p, a).pending.Keys;
        if a in p'.pending {
          KeysNotEmpty(p'.pending[a]);
        }
      }
    }
  }

  lemma WellFormedContinues(p: Pool, p': Pool)
    requires WellFormed(p') && (p.managed.Some? ==> p'.managed.Some?)
    ensures Continues(p, p')
  {
  }
}
