/**
 The transaction pool: pending and queued lists by account, the known transactions by hash, heartbeats and
 the nonces expected next. Each operation runs under the pool's lock and is one atomic step.
 */
module TxPool {
  import opened Collections
  import opened Options
  import opened TxLists
  import opened Accounts
  import opened Equaliser
  import opened PoolValues
  import opened PoolOperations
  import opened PoolRuns
  import opened QueueTrim
  import opened LocalTxs
  import W = WaterFilling

  class TxPool {
    var pending: Lists
    var queue: Lists
    var all: map<Hash, Tx>
    var beats: map<Address, nat>
    var managed: Option<Managed>  // the pending state, absent until first needed
    const localTx: TxSet
    var minGasPrice: nat

    ghost function Value(): Pool
      reads this
    {
      Pool(pending, queue, all, beats, managed)
    }

    constructor ()
      ensures Value() == Pool(map[], map[], map[], map[], None) && minGasPrice == 0
      ensures fresh(localTx) && localTx.Valid() && localTx.Value() == Locals({}, [])
      ensures WellFormed(Value())
    {
      pending, queue, all, beats, managed := map[], map[], map[], map[], None;
      localTx := new TxSet();
      minGasPrice := 0;
      new;
      forall a ensures Placed(Of(Value(), a), a) {
      }
    }

    /** Puts a transaction in the queue, unless the queue has one as good under its nonce. */
    method EnqueueTx(tx: Tx)
      requires Hashed(all) && ListOf(At(queue, tx.from), tx.from)
      modifies `queue, `all
      ensures Hashed(all) && OnlyAt(old(Value()), Value(), tx.from, Enqueue(Of(old(Value()), tx.from), tx))
      ensures NoneEmpty(old(queue)) ==> NoneEmpty(queue)
      ensures queue.Keys <= old(queue).Keys + {tx.from}
    {
      hide Enqueue, Of, Known, OnlyAt, Hashed, ListOf;
      EnqueueIs(Value(), tx);
      if !Accepts(At(queue, tx.from), tx) {
        return;
      }
      var list: Items := At(queue, tx.from);
      if tx.nonce in list {
        all := all - {HashOf(list[tx.nonce])};
      }
      list := list[tx.nonce := tx];
      queue := queue[tx.from := list];
      all := all[HashOf(tx) := tx];
    }

    /** Moves a transaction taken out of the queue into the pending list, unless that has one as good. */
    method PromoteTx(tx: Tx, now: nat)
      requires Hashed(all) && managed.Some? && ListOf(At(pending, tx.from), tx.from)
      modifies `pending, `all, `beats, `managed
      ensures Hashed(all) && managed.Some?
              && OnlyAt(old(Value()), Value(), tx.from, Promote(Of(old(Value()), tx.from), tx, now))
      ensures NoneEmpty(old(pending)) ==> NoneEmpty(pending)
    {
      hide Promote, Of, Known, OnlyAt, Hashed, ListOf;
      PromoteIs(Value(), tx, now);
      var list: Items := At(pending, tx.from);
      if !Accepts(list, tx) {
        all := all - {HashOf(tx)};
        return;
      }
      if tx.nonce in list {
        all := all - {HashOf(list[tx.nonce])};
      }
      list := list[tx.nonce := tx];
      pending := pending[tx.from := list];
      all := all[HashOf(tx) := tx];
      beats := beats[tx.from := now];
      SetNonce(tx.from, tx.nonce + 1);
    }

    method SetNonce(a: Address, nonce: nat)
      requires managed.Some?
      modifies `managed
      ensures managed == SetNonceOf(old(managed), a, nonce)
    {
      managed := Some(managed.value.(nonces := managed.value.nonces[a := nonce]));
    }

    /** Deletes transactions from the known ones. */
    method DeleteAll(gone: Items)
      modifies `all
      ensures all == old(all) - Hashes(gone.Values)
    {
      var todo := gone.Keys;
      ghost var done: set<Tx> := {};
      while todo != {}
        invariant todo <= gone.Keys
        invariant forall tx :: tx in done <==> exists n :: n in gone && n !in todo && gone[n] == tx
        invariant all == old(all) - Hashes(done)
        decreases todo
      {
        var n :| n in todo;
        all := all - {HashOf(gone[n])};
        todo := todo - {n};
        done := done + {gone[n]};
      }
      assert done == gone.Values;
    }

    /** Keeps part of the queue of an account; the rest is forgotten. */
    method KeepQueued(a: Address, rest: Items)
      requires Hashed(all) && a in queue && ListOf(queue[a], a)
      requires rest.Keys <= queue[a].Keys
      modifies `queue, `all
      ensures Hashed(all) && queue.Keys == old(queue).Keys && queue[a] == rest
      ensures OnlyAt(old(Value()), Value(), a, Forget(Of(old(Value()), a), rest))
    {
      KeepIs(Value(), a, rest);
      DeleteAll(queue[a] - rest.Keys);
      queue := queue[a := rest];
    }

    /** Promotes transactions in the order of their nonces. */
    method PromoteEach(a: Address, ready: seq<Tx>, now: nat)
      requires Hashed(all) && managed.Some? && ListOf(At(pending, a), a) && forall tx | tx in ready :: tx.from == a
      modifies `pending, `all, `beats, `managed
      ensures Hashed(all) && managed.Some?
      ensures OnlyAt(old(Value()), Value(), a, PromoteAll(Of(old(Value()), a), ready, now))
      ensures NoneEmpty(old(pending)) ==> NoneEmpty(pending)
    {
      hide Promote, Known, Hashed, NoneEmpty;
      ghost var before := Value();
      var i := 0;
      assert ready[0..] == ready;
      while i < |ready|
        invariant i <= |ready| && Hashed(all) && managed.Some? && ListOf(At(pending, a), a)
        invariant OnlyAt(before, Value(), a, Of(Value(), a))
        invariant PromoteAll(Of(Value(), a), ready[i..], now) == PromoteAll(Of(before, a), ready, now)
        invariant NoneEmpty(old(pending)) ==> NoneEmpty(pending)
        invariant queue == old(queue)
      {
        assert ready[i] in ready;
        assert ready[i..][0] == ready[i] && ready[i..][1..] == ready[i + 1..];
        PromoteListed(Of(Value(), a), ready[i], now, a);
        PromoteTx(ready[i], now);
        i := i + 1;
      }
      assert ready[i..] == [];
    }

    /** Forgets the queued transactions of an account that are too old or cannot be paid for. */
    method CleanQueue(a: Address, nonce: nat, balance: nat)
      requires Hashed(all) && a in queue && Placed(Of(Value(), a), a)
      modifies `queue, `all
      ensures Hashed(all) && queue.Keys == old(queue).Keys
      ensures OnlyAt(old(Value()), Value(), a, Clean(Of(old(Value()), a), nonce, balance))
    {
      ghost var before := Value();
      OfParts(before, a);
      CleanSteps(Of(before, a), nonce, balance, a);
      hide *;
      KeepQueued(a, From(queue[a], nonce));
      ghost var between := Value();
      OfParts(between, a);
      KeepQueued(a, Payable(queue[a], balance));
      Chain(before, between, Value(), a);
    }

    /** Promotes what is ready in the queue of an account. */
    method PromoteQueued(a: Address, now: nat)
      requires Hashed(all) && managed.Some? && a in queue && Placed(Of(Value(), a), a)
      modifies `pending, `queue, `all, `beats, `managed
      ensures Hashed(all) && managed.Some? && queue.Keys == old(queue).Keys
      ensures OnlyAt(old(Value()), Value(), a, PromoteReady(Of(old(Value()), a), now))
      ensures NoneEmpty(old(pending)) ==> NoneEmpty(pending)
    {
      ghost var before := Value();
      ReadyHas(queue[a], ManagedNonce(managed, a), a);
      PlacedLists(Of(before, a), a);
      OfParts(before, a);
      hide Known, Hashed, Placed, PromoteAll, ListOf, Ready, NoneEmpty, Of;
      var ready := Ready(queue[a], ManagedNonce(managed, a));
      var list := queue[a] - Nonces(ready);
      queue := queue[a := list];
      TakeQueued(before, a, list);
      PromoteEach(a, ready, now);
    }

    /** Cleans the queue of an account, promotes what is ready and caps the rest, which may be nothing. */
    method PromoteAndCap(a: Address, nonce: nat, balance: nat, now: nat)
      requires Hashed(all) && managed.Some? && a in queue && Placed(Of(Value(), a), a)
      modifies `pending, `queue, `all, `beats, `managed
      ensures Hashed(all) && managed.Some? && queue.Keys == old(queue).Keys
      ensures OnlyAt(old(Value()), Value(), a,
                     Advance(Of(old(Value()), a), nonce, balance, now, MAX_QUEUED_PER_ACCOUNT))
      ensures NoneEmpty(old(pending)) ==> NoneEmpty(pending)
    {
      ghost var before := Value();
      AdvanceSteps(Of(before, a), nonce, balance, now, MAX_QUEUED_PER_ACCOUNT, a);
      hide Known, Hashed, Forget, Cap, Placed, Clean, PromoteReady, NoneEmpty, ListOf, Of, Advance;
      CleanQueue(a, nonce, balance);
      PromoteQueued(a, now);
      OfParts(Value(), a);
      KeepQueued(a, Cap(queue[a], MAX_QUEUED_PER_ACCOUNT));
    }

    /** Promotion for one account with queued transactions. */
    method PromoteAccount(a: Address, chain: ChainState, now: nat)
      requires WellFormed(Value()) && managed.Some? && a in queue
      modifies `pending, `queue, `all, `beats, `managed
      ensures WellFormed(Value()) && managed.Some?
      ensures OnlyAt(old(Value()), Value(), a,
                     Advance(Of(old(Value()), a), NonceOf(chain, a), BalanceOf(chain, a), now, MAX_QUEUED_PER_ACCOUNT))
      ensures old(queue).Keys - {a} <= queue.Keys <= old(queue).Keys
    {
      ghost var before := Value();
      StartPromotion(before, a);
      AdvanceSteps(Of(before, a), NonceOf(chain, a), BalanceOf(chain, a), now, MAX_QUEUED_PER_ACCOUNT, a);
      AdvanceKeepsAlive(Of(before, a), NonceOf(chain, a), BalanceOf(chain, a), now, MAX_QUEUED_PER_ACCOUNT);
      hide Known, Hashed, Cap, Placed, Clean, PromoteReady, NoneEmpty, ListOf, Of, WellFormed, Advance, Forget,
           WithoutEmpty;
      PromoteAndCap(a, NonceOf(chain, a), BalanceOf(chain, a), now);
      ghost var done := Value();
      DropIfEmpty(a);
      EndPromotion(before, done, a, Of(done, a));
    }

    /** Deletes the queue of an account if nothing is left in it. */
    method DropIfEmpty(a: Address)
      modifies `queue
      ensures Value() == WithoutEmpty(old(Value()), a)
    {
      if a in queue && queue[a] == map[] {
        queue := queue - {a};
      }
    }

    /** Promotes for every account with queued transactions, and counts what stays queued. */
    method PromoteEveryAccount(chain: ChainState, now: nat) returns (queued: nat)
      requires WellFormed(Value()) && managed.Some?
      modifies `pending, `queue, `all, `beats, `managed
      ensures WellFormed(Value()) && managed.Some?
      ensures Advanced(old(Value()), Value(), chain, now)
      ensures queued == W.Total(Lens(queue))
    {
      hide WellFormed, Advance, Of;
      ghost var before := Value();
      var todo := queue.Keys;
      queued := 0;
      NothingCounted(queue, todo);
      while todo != {}
        invariant WellFormed(Value()) && managed.Some? && todo <= queue.Keys
        invariant forall b {:trigger Of(Value(), b)} ::
                    Of(Value(), b) == if b in before.queue && b !in todo then AdvanceAt(before, b, chain, now)
                    else Of(before, b)
        invariant queued == W.Total(Counted(queue, todo))
        decreases todo
      {
        var a :| a in todo;
        ghost var here := Value();
        PromoteAccount(a, chain, now);
        CountedStep(here, Value(), todo, a);
        queued := queued + |At(queue, a)|;
        todo := todo - {a};
      }
      AllCounted(queue);
      AllAdvanced(before, Value(), chain, now);
    }

    // ---------------------------------------------------------------- the pending limit

    method CountPending() returns (count: nat)
      ensures count == W.Total(Lens(pending))
    {
      var todo := pending.Keys;
      count := 0;
      NothingCounted(pending, todo);
      while todo != {}
        invariant todo <= pending.Keys && count == W.Total(Counted(pending, todo))
        decreases todo
      {
        var a :| a in todo;
        CountedOne(pending, todo, a);
        count := count + |pending[a]|;
        todo := todo - {a};
      }
      AllCounted(pending);
    }

    /** The accounts that may be cut: more than the minimum pending, and not local by a sampled transaction. */
    method PushSpammers() returns (spammers: set<Address>, ghost spared: set<Address>)
      requires NoneEmpty(pending)
      ensures spammers <= pending.Keys && Candidates(pending, MIN_PENDING_PER_ACCOUNT, spared, spammers)
      ensures Sampled(pending, MIN_PENDING_PER_ACCOUNT, spared, Local(localTx.txMap))
    {
      spammers, spared := {}, {};
      var todo := pending.Keys;
      while todo != {}
        invariant todo <= pending.Keys
        invariant forall a :: a in spammers <==>
                    a in pending && a !in todo && a !in spared && MIN_PENDING_PER_ACCOUNT < |pending[a]|
        invariant forall a | a in spared :: a !in todo && a in pending && MIN_PENDING_PER_ACCOUNT < |pending[a]|
        invariant forall a | a in spared :: exists n :: n in pending[a] && pending[a][n] in Local(localTx.txMap)
        invariant forall a | a in spammers :: exists n :: n in pending[a] && pending[a][n] !in Local(localTx.txMap)
        decreases todo
      {
        var a :| a in todo;
        todo := todo - {a};
        if |pending[a]| > MIN_PENDING_PER_ACCOUNT {
          KeysNotEmpty(pending[a]);
          var n :| n in pending[a].Keys;
          LocalIff(localTx.txMap, pending[a][n]);
          if !localTx.Contains(HashOf(pending[a][n])) {
            spammers := spammers + {a};
          } else {
            spared := spared + {a};
          }
        }
      }
    }

    /** The account with the longest pending list. */
    method PopLongest(spammers: set<Address>) returns (o: Address)
      requires spammers != {} && spammers <= pending.Keys
      ensures o in spammers && forall a | a in spammers :: |pending[a]| <= |pending[o]|
    {
      LongestExists(pending, spammers);
      o :| o in spammers && forall a | a in spammers :: |pending[a]| <= |pending[o]|;
    }

    /** Takes the highest transaction from each of the given accounts. */
    method CapEach(offenders: seq<Address>, count: nat) returns (left: nat)
      requires Distinct(offenders) && forall o | o in offenders :: o in pending && pending[o] != map[]
      requires count == W.Total(Lens(pending))
      modifies `pending
      ensures Round(old(pending), pending, ToSet(offenders))
      ensures left == W.Total(Lens(pending))
    {
      hide Shortened, Cap, Lens;
      left := count;
      var i := 0;
      while i < |offenders|
        invariant i <= |offenders| && Round(old(pending), pending, ToSet(offenders[..i]))
        invariant left == W.Total(Lens(pending))
      {
        var o := offenders[i];
        assert o in offenders && o !in offenders[..i];
        OneDropped(pending, o);
        ShortenedIs(pending[o]);
        RoundStep(old(pending), pending, offenders, i);
        var list := Cap(pending[o], |pending[o]| - 1);
        pending := pending[o := list];
        left := left - 1;
        i := i + 1;
      }
      assert offenders[..i] == offenders;
    }

    /** Lowers the earlier offenders together until they are as short as the next one or the limit is met. */
    method FallToThreshold(ghost first: Lists, ghost spared: set<Address>, ghost start: nat, offenders: seq<Address>,
                           ghost spammers: set<Address>, offender: Address, count: nat)
      returns (left: nat, ghost level: nat)
      requires offenders != [] && MAX_PENDING_TOTAL < count
      requires Standing(first, pending, MIN_PENDING_PER_ACCOUNT, MAX_PENDING_TOTAL, spared, start, offenders,
                        spammers, count)
      requires spammers <= pending.Keys && offender in spammers && forall a | a in spammers ::
                 |pending[a]| <= |pending[offender]|
      modifies `pending
      ensures Standing(first, pending, MIN_PENDING_PER_ACCOUNT, MAX_PENDING_TOTAL, spared, level,
                       offenders + [offender], spammers - {offender}, left)
    {
      left, level := count, start;
      NextPop(first, pending, MIN_PENDING_PER_ACCOUNT, MAX_PENDING_TOTAL, spared, level, offenders, spammers, left,
              offender);
      StandingParts(first, pending, MIN_PENDING_PER_ACCOUNT, MAX_PENDING_TOTAL, spared, level, offenders, spammers,
                    left, offender);
      hide Standing, Falling, Levelled, Lens, Candidates;
      var threshold := |pending[offender]|;
      left, level := Fall(first, spared, level, offenders, threshold, left);
      Joined(first, pending, MIN_PENDING_PER_ACCOUNT, MAX_PENDING_TOTAL, spared, level, offenders, spammers,
             threshold, left, offender);
    }

    /** One round of falling offenders. */
    method FallOnce(ghost first: Lists, ghost spared: set<Address>, ghost level: nat, offenders: seq<Address>,
                    ghost threshold: nat, count: nat)
      returns (left: nat)
      requires offenders != [] && MAX_PENDING_TOTAL < count && threshold < level
      requires Falling(first, pending, MIN_PENDING_PER_ACCOUNT, MAX_PENDING_TOTAL, spared, level, offenders,
                       threshold, count)
      modifies `pending
      ensures Falling(first, pending, MIN_PENDING_PER_ACCOUNT, MAX_PENDING_TOTAL, spared, level - 1, offenders,
                      threshold, left)
    {
      ghost var before := pending;
      FallingReady(first, before, MIN_PENDING_PER_ACCOUNT, MAX_PENDING_TOTAL, spared, level, offenders, threshold,
                   count);
      FallingParts(first, before, MIN_PENDING_PER_ACCOUNT, MAX_PENDING_TOTAL, spared, level, offenders, threshold,
                   count);
      hide Falling, Levelled, Lens, Round, Shortened, Distinct, W.Total, ToSet;
      left := CapEach(offenders, count);
      FallingRound(first, before, pending, MIN_PENDING_PER_ACCOUNT, MAX_PENDING_TOTAL, spared, level, offenders,
                   threshold, count);
    }

    /** The rounds: while the limit is exceeded and the last of the offenders is above the threshold, each loses one. */
    method Fall(ghost first: Lists, ghost spared: set<Address>, ghost start: nat, offenders: seq<Address>,
                threshold: nat, count: nat)
      returns (left: nat, ghost level: nat)
      requires offenders != []
      requires Falling(first, pending, MIN_PENDING_PER_ACCOUNT, MAX_PENDING_TOTAL, spared, start, offenders,
                       threshold, count)
      modifies `pending
      ensures Falling(first, pending, MIN_PENDING_PER_ACCOUNT, MAX_PENDING_TOTAL, spared, level, offenders, threshold,
                      left)
      ensures MAX_PENDING_TOTAL < left ==> level <= threshold
    {
      hide *;
      left, level := count, start;
      var last := offenders[|offenders| - 1];
      FallingLast(first, pending, MIN_PENDING_PER_ACCOUNT, MAX_PENDING_TOTAL, spared, level, offenders, threshold,
                  left, last);
      while left > MAX_PENDING_TOTAL && |pending[last]| > threshold
        invariant Falling(first, pending, MIN_PENDING_PER_ACCOUNT, MAX_PENDING_TOTAL, spared, level, offenders,
                          threshold, left)
        invariant last in pending && threshold <= level && (MAX_PENDING_TOTAL < left ==> |pending[last]| == level)
        decreases level
      {
        left := FallOnce(first, spared, level, offenders, threshold, left);
        level := level - 1;
        FallingLast(first, pending, MIN_PENDING_PER_ACCOUNT, MAX_PENDING_TOTAL, spared, level, offenders, threshold,
                    left, last);
      }
    }

    /** With no spammer left, all offenders together fall to the limit or to the guaranteed minimum. */
    method FallToMinimum(ghost first: Lists, ghost spared: set<Address>, ghost start: nat, offenders: seq<Address>,
                         ghost spammers: set<Address>, count: nat)
      returns (left: nat, ghost level: nat)
      requires offenders != [] && (MAX_PENDING_TOTAL < count ==> spammers == {})
      requires Standing(first, pending, MIN_PENDING_PER_ACCOUNT, MAX_PENDING_TOTAL, spared, start, offenders,
                        spammers, count)
      modifies `pending
      ensures W.FairShare(Lens(first), spared, MIN_PENDING_PER_ACCOUNT, MAX_PENDING_TOTAL, level, Lens(pending))
      ensures Levelled(first, pending, spared, level)
    {
      left, level := count, start;
      SettledParts(first, pending, MIN_PENDING_PER_ACCOUNT, MAX_PENDING_TOTAL, spared, level, offenders, spammers,
                   left);
      if left > MAX_PENDING_TOTAL {
        LastFall(first, pending, MIN_PENDING_PER_ACCOUNT, MAX_PENDING_TOTAL, spared, level, offenders, left);
        hide Standing, Falling, Levelled, Lens, W.FairShare, W.CutTo, W.Total;
        left, level := Fall(first, spared, level, offenders, MIN_PENDING_PER_ACCOUNT, left);
        FallSettled(first, pending, MIN_PENDING_PER_ACCOUNT, MAX_PENDING_TOTAL, spared, level, offenders, left);
      }
    }

    /** Drops pending transactions of the largest senders until the pool is within its limit. */
    method EqualisePending() returns (ghost spared: set<Address>, ghost level: nat)
      requires NoneEmpty(pending)
      modifies `pending
      ensures Equalised(old(pending), pending, Local(localTx.txMap), spared, level)
    {
      hide Standing, Falling, Levelled, Lens, Candidates, Sampled, W.FairShare, W.Total, Distinct, NoneEmpty, Local;
      var count: nat := CountPending();
      spared, level := {}, 0;
      if count <= MAX_PENDING_TOTAL {
        return;
      }
      ghost var first := pending;
      var spammers;
      spammers, spared := PushSpammers();
      var offenders: seq<Address> := [];
      while count > MAX_PENDING_TOTAL && spammers != {}
        invariant spammers <= first.Keys
        invariant offenders == [] ==> pending == first && Candidates(first, MIN_PENDING_PER_ACCOUNT, spared, spammers)
        invariant offenders == [] ==> count == W.Total(Lens(pending)) && MAX_PENDING_TOTAL < count
        invariant offenders != [] ==>
                    Standing(first, pending, MIN_PENDING_PER_ACCOUNT, MAX_PENDING_TOTAL, spared, level, offenders,
                             spammers, count)
        decreases spammers
      {
        if offenders != [] {
          StandingKeys(first, pending, MIN_PENDING_PER_ACCOUNT, MAX_PENDING_TOTAL, spared, level, offenders, spammers,
                       count);
        }
        var offender := PopLongest(spammers);
        if offenders == [] {
          FirstPop(first, MIN_PENDING_PER_ACCOUNT, MAX_PENDING_TOTAL, spared, spammers, count, offender);
          level := |first[offender]|;
          assert offenders + [offender] == [offender];
        } else {
          count, level := FallToThreshold(first, spared, level, offenders, spammers, offender, count);
        }
        offenders := offenders + [offender];
        spammers := spammers - {offender};
      }
      if offenders == [] {
        NothingToCut(first, MIN_PENDING_PER_ACCOUNT, MAX_PENDING_TOTAL, spared);
        level := MIN_PENDING_PER_ACCOUNT;
      } else {
        count, level := FallToMinimum(first, spared, level, offenders, spammers, count);
      }
    }

    // ---------------------------------------------------------------- removal

    /** Queues transactions of one account again. */
    method EnqueueEach(a: Address, txs: seq<Tx>)
      requires Hashed(all) && ListOf(At(queue, a), a) && forall tx | tx in txs :: tx.from == a
      modifies `queue, `all
      ensures Hashed(all) && OnlyAt(old(Value()), Value(), a, EnqueueAll(Of(old(Value()), a), txs))
      ensures NoneEmpty(old(queue)) ==> NoneEmpty(queue)
      ensures ListOf(At(queue, a), a)
    {
      hide Enqueue, Known, Hashed, NoneEmpty, Of, ListOf;
      ghost var before := Value();
      var i := 0;
      assert txs[0..] == txs;
      while i < |txs|
        invariant i <= |txs| && Hashed(all) && ListOf(At(queue, a), a)
        invariant OnlyAt(before, Value(), a, Of(Value(), a))
        invariant EnqueueAll(Of(Value(), a), txs[i..]) == EnqueueAll(Of(before, a), txs)
        invariant NoneEmpty(before.queue) ==> NoneEmpty(queue)
        invariant pending == before.pending && beats == before.beats && managed == before.managed
      {
        assert txs[i] in txs;
        assert txs[i..][0] == txs[i] && txs[i..][1..] == txs[i + 1..];
        OfParts(Value(), a);
        EnqueueListed(Of(Value(), a), txs[i], a);
        EnqueueTx(txs[i]);
        OfParts(Value(), a);
        i := i + 1;
      }
      assert txs[i..] == [];
    }

    /** Lowers the nonce expected next to that of a removed transaction. */
    method LowerNonce(a: Address, nonce: nat)
      requires managed.Some?
      modifies `managed
      ensures managed.Some?
      ensures OnlyAt(old(Value()), Value(), a, Lowered(Of(old(Value()), a), nonce))
    {
      hide Of;
      OfParts(Value(), a);
      if ManagedNonce(managed, a) > nonce {
        SetNonceIs(Value(), a, nonce);
        SetNonce(a, nonce);
      }
    }

    /** Takes part of the pending list away: without the rest the account has nothing pending and no heartbeat. */
    method CutPending(a: Address, rest: Items, invalids: seq<Tx>)
      requires Hashed(all) && ListOf(At(queue, a), a) && forall tx | tx in invalids :: tx.from == a
      modifies `pending, `queue, `all, `beats
      ensures Hashed(all) && OnlyAt(old(Value()), Value(), a, Cut(Of(old(Value()), a), rest, invalids))
      ensures NoneEmpty(old(queue)) ==> NoneEmpty(queue)
      ensures NoneEmpty(old(pending)) ==> NoneEmpty(pending)
    {
      hide EnqueueAll, Known, Hashed, Of, ListOf;
      if rest == map[] {
        DropPendingIs(Value(), a);
        pending := pending - {a};
        beats := beats - {a};
      } else {
        TakePendingIs(Value(), a, rest);
        pending := pending[a := rest];
        EnqueueEach(a, invalids);
      }
    }

    /** Takes a transaction, and everything behind it, out of the pending list of its account. */
    method RemoveFromPending(tx: Tx)
      requires Hashed(all) && ListOf(At(pending, tx.from), tx.from) && ListOf(At(queue, tx.from), tx.from)
      requires tx.from in pending ==> managed.Some?
      modifies `pending, `queue, `all, `beats, `managed
      ensures Hashed(all) && (managed.Some? <==> old(managed).Some?)
      ensures OnlyAt(old(Value()), Value(), tx.from, RemovePending(Of(old(Value()), tx.from), tx))
      ensures NoneEmpty(old(queue)) ==> NoneEmpty(queue)
      ensures NoneEmpty(old(pending)) ==> NoneEmpty(pending)
      ensures old(pending) == map[] ==> pending == map[]
    {
      hide EnqueueAll, Known, Hashed, Of, ListOf, Flatten, From, Below, RemovePending, NoneEmpty, Cut, Lowered;
      var a := tx.from;
      var list: Items := At(pending, a);
      OfParts(Value(), a);
      RemovePendingIs(Of(Value(), a), tx, a);
      if tx.nonce !in list {
        return;
      }
      CutPending(a, Below(list, tx.nonce), Flatten(From(list, tx.nonce + 1)));
      LowerNonce(a, tx.nonce);
    }

    /** Takes whatever has the nonce of a transaction out of the queue of its account. */
    method RemoveFromQueue(tx: Tx)
      modifies `queue
      ensures OnlyAt(old(Value()), Value(), tx.from, RemoveQueued(Of(old(Value()), tx.from), tx))
      ensures NoneEmpty(old(queue)) ==> NoneEmpty(queue)
      ensures queue.Keys <= old(queue).Keys
    {
      hide Known;
      if tx.from in queue {
        var future := queue[tx.from] - {tx.nonce};
        if future == map[] {
          queue := queue - {tx.from};
        } else {
          queue := queue[tx.from := future];
        }
      }
    }

    /** Removes one transaction; pending transactions behind it go back to the queue. */
    method RemoveTx(hash: Hash)
      requires WellFormed(Value())
      modifies `pending, `queue, `all, `beats, `managed
      ensures WellFormed(Value()) && hash !in all
      ensures OnlyAt(old(Value()), Value(), hash.tx.from, Remove(Of(old(Value()), hash.tx.from), hash.tx))
      ensures managed.Some? <==> old(managed).Some?
    {
      hide Known, Hashed, Of, ListOf, RemovePending, RemoveQueued, Placed, WellFormed;
      ghost var before := Value();
      var tx := hash.tx;
      RemovalStart(before, hash);
      if hash !in all {
        return;
      }
      all := all - {hash};
      ghost var deleted := Value();
      OfParts(deleted, tx.from);
      RemoveFromPending(tx);
      RemoveFromQueue(tx);
      RemovalEnd(before, Value(), tx);
    }

    /** Removes transactions of one account in turn. */
    method RemoveEach(a: Address, txs: seq<Tx>)
      requires WellFormed(Value()) && forall tx | tx in txs :: tx.from == a
      modifies `pending, `queue, `all, `beats, `managed
      ensures WellFormed(Value())
      ensures OnlyAt(old(Value()), Value(), a, RemoveAll(Of(old(Value()), a), txs))
      ensures managed.Some? <==> old(managed).Some?
    {
      hide Remove, Known, Hashed, Of, WellFormed;
      ghost var before := Value();
      var i := 0;
      assert txs[0..] == txs;
      while i < |txs|
        invariant i <= |txs| && WellFormed(Value())
        invariant managed.Some? <==> before.managed.Some?
        invariant OnlyAt(before, Value(), a, Of(Value(), a))
        invariant RemoveAll(Of(Value(), a), txs[i..]) == RemoveAll(Of(before, a), txs)
      {
        assert txs[i] in txs;
        assert txs[i..][0] == txs[i] && txs[i..][1..] == txs[i + 1..];
        RemoveTx(HashOf(txs[i]));
        i := i + 1;
      }
      assert txs[i..] == [];
    }

    // ---------------------------------------------------------------- the queue limit

    /** The account whose heartbeat is the latest. */
    method PopLatest(addresses: set<Address>, heartbeats: map<Address, nat>) returns (a: Address)
      requires addresses != {}
      ensures a in addresses && forall b | b in addresses :: Heartbeat(heartbeats, b) <= Heartbeat(heartbeats, a)
    {
      LatestExists(addresses, heartbeats);
      a :| a in addresses && forall b | b in addresses :: Heartbeat(heartbeats, b) <= Heartbeat(heartbeats, a);
    }

    /** Removes queued transactions of one account from its highest nonce down. */
    method RemoveHighestQueued(a: Address, drop: nat)
      requires WellFormed(Value()) && a in queue && drop < |queue[a]|
      modifies `pending, `queue, `all, `beats, `managed
      ensures WellFormed(Value()) && (managed.Some? <==> old(managed).Some?)
      ensures OnlyAt(old(Value()), Value(), a, Of(Value(), a))
      ensures Of(Value(), a) == RemoveAll(Of(old(Value()), a), Removed(old(queue)[a], |old(queue)[a]| - drop))
    {
      hide Of, WellFormed, Remove, RemoveAll, Placed, Flatten, Known, Reverse;
      ghost var before, was := Value(), Of(Value(), a);
      StartTrim(before, a);
      var txs := Flatten(queue[a]);
      var i, left := |txs|, drop;
      assert txs[i..] == [];
      NothingRemoved(was);
      while i > 0 && left > 0
        invariant 0 <= left <= i <= |txs| && i - left == |txs| - drop
        invariant WellFormed(Value()) && (managed.Some? <==> before.managed.Some?)
        invariant OnlyAt(before, Value(), a, Of(Value(), a))
        invariant Of(Value(), a) == RemoveAll(was, Reverse(txs[i..]))
        decreases i
      {
        ReverseFrom(txs, i - 1);
        RemoveAllAppend(was, Reverse(txs[i..]), txs[i - 1]);
        i := i - 1;
        RemoveTx(HashOf(txs[i]));
        left := left - 1;
      }
    }

    /** Drops from one account: all it has queued if that is not too much, otherwise as much as is left to drop. */
    method TrimAccount(a: Address, drop: nat, ghost p: Pool, ghost addresses: set<Address>,
                       ghost kept: map<Address, nat>)
      returns (left: nat, ghost kept': map<Address, nat>)
      requires Trims(p, Value(), addresses + {a}, kept, drop) && a !in addresses && 0 < drop
      requires forall b | b in addresses :: Heartbeat(p.beats, b) <= Heartbeat(p.beats, a)
      modifies `pending, `queue, `all, `beats, `managed
      ensures left < drop && Trims(p, Value(), addresses, kept', left)
    {
      hide WellFormed, Of, Trims, Heartbeat, Removed, Flatten, RemoveAll, OnlyAt;
      ghost var here := Value();
      TrimAt(p, here, addresses, kept, drop, a);
      var size := |queue[a]|;
      if size <= drop {
        RemoveEach(a, Flatten(queue[a]));
        TrimmedOne(p, here, Value(), addresses, kept, drop, a);
        return drop - size, kept[a := 0];
      }
      RemoveHighestQueued(a, drop);
      TrimmedPart(p, here, Value(), addresses, kept, drop, a);
      return 0, kept[a := size - drop];
    }

    /** Drops queued transactions until the pool is at its limit, the accounts heard from last first. */
    method TrimQueue(queued: nat) returns (ghost kept: map<Address, nat>)
      requires WellFormed(Value()) && queued == W.Total(Lens(queue)) && MAX_QUEUED_IN_TOTAL < queued
      modifies `pending, `queue, `all, `beats, `managed
      ensures WellFormed(Value()) && (managed.Some? <==> old(managed).Some?)
      ensures Trimmed(old(Value()), Value(), kept)
    {
      hide WellFormed, Trims, Trimmed, Lens, W.Total, Heartbeat;
      ghost var before := Value();
      var heartbeats := beats;
      var addresses := queue.Keys;
      var drop: nat := queued - MAX_QUEUED_IN_TOTAL;
      kept := map[];
      TrimStarts(before, queued);
      while drop > 0
        invariant Trims(before, Value(), addresses, kept, drop)
        decreases drop
      {
        TrimNotDone(before, Value(), addresses, kept, drop);
        var a := PopLatest(addresses, heartbeats);
        assert addresses - {a} + {a} == addresses;
        addresses := addresses - {a};
        drop, kept := TrimAccount(a, drop, before, addresses, kept);
      }
      TrimEnds(before, Value(), addresses, kept);
    }

    // ---------------------------------------------------------------- demotion

    /**
     Drops what is old or unpayable, and everything behind the lowest unpayable nonce, from the pending list
     of an account.
     */
    method DropUnexecutable(a: Address, nonce: nat, balance: nat) returns (invalids: Items)
      requires WellFormed(Value()) && a in pending
      modifies `pending, `all
      ensures Hashed(all) && pending.Keys == old(pending).Keys
      ensures var was := Of(old(Value()), a);
              && invalids == Requeued(was, nonce, balance)
              && OnlyAt(old(Value()), Value(), a,
                        was.(pending := StillPending(was, nonce, balance),
                             known := was.known - Demoted(was, nonce, balance)))
    {
      hide Of, Known, Hashed, ListOf, WellFormed, NoneEmpty, From, Below, Payable, Unpayable, Flatten, Hashes, OnlyAt;
      ghost var before, was := Value(), Of(Value(), a);
      StartDemotion(before, a, nonce, balance);
      var list := From(pending[a], nonce);
      DeleteAll(Below(pending[a], nonce));
      var drops := Unpayable(list, balance);
      DeleteAll(drops);
      invalids := map[];
      if drops != map[] {
        var lowest := MinKey(drops);
        invalids := Payable(From(list, lowest + 1), balance);
        list := Below(list, lowest);
      }
      pending := pending[a := list];
      DropIs(before, a, list, Below(was.pending, nonce).Values, drops.Values);
    }

    /** Demotion for one account with pending transactions. */
    method DemoteAccount(a: Address, nonce: nat, balance: nat)
      requires WellFormed(Value()) && a in pending
      modifies `pending, `queue, `all, `beats
      ensures WellFormed(Value())
      ensures OnlyAt(old(Value()), Value(), a, Demote(Of(old(Value()), a), nonce, balance))
      ensures old(pending).Keys - {a} <= pending.Keys <= old(pending).Keys
    {
      hide Of, Known, Hashed, ListOf, WellFormed, NoneEmpty, Flatten, EnqueueAll, Demote, Demoted, Requeued,
           StillPending, From, Below, Unpayable;
      ghost var before := Value();
      StartDemotion(before, a, nonce, balance);
      DemoteIs(Of(before, a), nonce, balance);
      var invalids := DropUnexecutable(a, nonce, balance);
      EnqueueEach(a, Flatten(invalids));
      UnbeatIs(Value(), a);
      DropPendingIfEmpty(a);
      EndDemotion(before, Value(), a, nonce, balance);
    }

    /** An account with nothing pending has neither a pending list nor a heartbeat. */
    method DropPendingIfEmpty(a: Address)
      modifies `pending, `beats
      ensures Value() == WithoutEmptyPending(old(Value()), a)
    {
      if a in pending && pending[a] == map[] {
        pending := pending - {a};
        beats := beats - {a};
      }
    }

    /** Demotes the transactions that cannot be executed, for every account with pending transactions. */
    method DemoteUnexecutables(chain: ChainState)
      requires WellFormed(Value())
      modifies `pending, `queue, `all, `beats
      ensures WellFormed(Value()) && Demotes(old(Value()), Value(), chain)
    {
      hide WellFormed, Demote, Of;
      ghost var before := Value();
      var todo := pending.Keys;
      while todo != {}
        invariant WellFormed(Value()) && managed == before.managed && todo <= pending.Keys
        invariant forall b {:trigger Of(Value(), b)} ::
                    Of(Value(), b) == if b in before.pending && b !in todo then DemoteAt(before, b, chain)
                    else Of(before, b)
        decreases todo
      {
        var a :| a in todo;
        DemoteAccount(a, NonceOf(chain, a), BalanceOf(chain, a));
        todo := todo - {a};
      }
    }

    /** Sets the nonce expected next of every account above the last of its pending transactions. */
    method SetPendingNonces()
      requires WellFormed(Value()) && managed.Some?
      modifies `managed
      ensures WellFormed(Value()) && managed.Some? && NoncesFollow(old(Value()), Value())
    {
      hide WellFormed, Of, Flatten;
      ghost var before := Value();
      var todo := pending.Keys;
      NewNonces(before, managed);
      while todo != {}
        invariant todo <= pending.Keys && managed.Some?
        invariant forall b {:trigger ManagedNonce(managed, b)} ::
                    ManagedNonce(managed, b) == if b in todo then ManagedNonce(before.managed, b)
                        else NextNonce(At(pending, b), ManagedNonce(before.managed, b))
        decreases todo
      {
        var a :| a in todo;
        LastPending(before, a);
        var txs := Flatten(pending[a]);
        SetNonceAt(managed, a, txs[|txs| - 1].nonce + 1);
        SetNonce(a, txs[|txs| - 1].nonce + 1);
        todo := todo - {a};
      }
      NewNonces(before, managed);
    }

    // ---------------------------------------------------------------- operations

    /** Promotion over all accounts, followed by the two limiters. */
    method Promotion(chain: ChainState, now: nat) returns (ghost s: Stages)
      requires WellFormed(Value()) && managed.Some?
      modifies `pending, `queue, `all, `beats, `managed
      ensures WellFormed(Value()) && managed.Some?
      ensures Promotes(old(Value()), s, Value(), chain, now, Local(localTx.txMap))
    {
      hide WellFormed, Represented, Advanced, Equalised, Trimmed, Local, Lens, W.Total;
      ghost var before := Value();
      var queued := PromoteEveryAccount(chain, now);
      ghost var advanced := Value();
      WellFormedLists(advanced);
      ghost var spared, level := EqualisePending();
      EqualisedKeepsWellFormed(advanced, pending, Local(localTx.txMap), spared, level);
      ghost var equalised, kept: map<Address, nat> := Value(), map[];
      if queued > MAX_QUEUED_IN_TOTAL {
        kept := TrimQueue(queued);
      }
      WellFormedContinues(before, advanced);
      WellFormedContinues(advanced, equalised);
      WellFormedContinues(equalised, Value());
      s := Stages(advanced, spared, level, equalised, kept);
    }

    /** Takes the new head of the chain on: demotes, renews the nonces expected next, and promotes. */
    method ResetState(chain: ChainState, now: nat)
      requires WellFormed(Value())
      modifies `pending, `queue, `all, `beats, `managed
      ensures WellFormed(Value()) && managed.Some? && Resets(old(Value()), Value(), chain, now, Local(localTx.txMap))
      ensures Steps(old(Value()), Resetting, World(chain, now, Local(localTx.txMap), minGasPrice), Value())
    {
      hide WellFormed, Demotes, NoncesFollow, Refreshes, Local, Continues, Promotes;
      ghost var before := Value();
      managed := Some(Managed(chain, map[]));
      NewNonces(before, managed);
      ghost var renewed := Value();
      DemoteUnexecutables(chain);
      ghost var demoted := Value();
      SetPendingNonces();
      ghost var refreshed := Value();
      RefreshSteps(before, renewed, demoted, refreshed, chain);
      ghost var s := Promotion(chain, now);
      WellFormedContinues(before, refreshed);
      assert Refreshed(before, refreshed, chain) && Promotes(refreshed, s, Value(), chain, now, Local(localTx.txMap));
      WellFormedContinues(before, Value());
    }

    /** Moves what has become executable from the queue to the pending lists. */
    method PromoteExecutables(chain: ChainState, now: nat)
      requires WellFormed(Value())
      modifies `pending, `queue, `all, `beats, `managed
      ensures WellFormed(Value()) && managed.Some? && Promoted(old(Value()), Value(), chain, now, Local(localTx.txMap))
    {
      hide WellFormed, Resets, Local, Promotes, Steps;
      ghost var before := Value();
      if managed.None? {
        ResetState(chain, now);
      }
      ghost var start := Value();
      ghost var s := Promotion(chain, now);
      assert StartsAt(before, start, chain, now, Local(localTx.txMap))
             && Promotes(start, s, Value(), chain, now, Local(localTx.txMap));
    }

    /** Validates a transaction and queues it. */
    method Insert(tx: Tx, chain: ChainState, checks: Checks) returns (refused: Option<Refusal>)
      requires WellFormed(Value())
      modifies `queue, `all
      ensures WellFormed(Value())
      ensures refused == Refuse(tx, HashOf(tx) in old(all), tx in Local(localTx.txMap), minGasPrice, chain, checks)
      ensures refused.None? <==>
                HashOf(tx) !in old(all) && Admissible(tx, HashOf(tx) in localTx.txMap, minGasPrice, chain, checks)
      ensures refused.Some? ==> FirstFailure(refused.value, tx, HashOf(tx) in old(all), HashOf(tx) in localTx.txMap,
                                             minGasPrice, chain, checks)
      ensures refused.Some? ==> Value() == old(Value())
      ensures EntersOne(old(Value()), Value(), tx, Local(localTx.txMap), minGasPrice, chain, checks)
    {
      hide WellFormed, Local, Of, Enqueue, EntersOne, Hashed, ListOf, NoneEmpty, Refuse, Admissible, FirstFailure;
      ghost var before := Value();
      StartEnter(before, tx);
      RefuseIff(tx, HashOf(tx) in all, localTx.Contains(HashOf(tx)), minGasPrice, chain, checks);
      LocalIff(localTx.txMap, tx);
      refused := Refuse(tx, HashOf(tx) in all, localTx.Contains(HashOf(tx)), minGasPrice, chain, checks);
      if refused.None? {
        EnqueueTx(tx);
        EndEnter(before, Value(), tx);
      }
      EnterOne(before, Value(), tx, Local(localTx.txMap), minGasPrice, chain, checks);
    }

    /** Adds one transaction; one that is refused changes nothing. */
    method Add(tx: Tx, chain: ChainState, checks: Checks, now: nat)
      returns (refused: Option<Refusal>, ghost entered: Pool)
      requires WellFormed(Value())
      modifies `pending, `queue, `all, `beats, `managed
      ensures WellFormed(Value())
      ensures refused == Refuse(tx, HashOf(tx) in old(all), tx in Local(localTx.txMap), minGasPrice, chain, checks)
      ensures refused.None? <==>
                HashOf(tx) !in old(all) && Admissible(tx, HashOf(tx) in localTx.txMap, minGasPrice, chain, checks)
      ensures refused.Some? ==> FirstFailure(refused.value, tx, HashOf(tx) in old(all), HashOf(tx) in localTx.txMap,
                                             minGasPrice, chain, checks)
      ensures refused.Some? ==> Value() == old(Value())
      ensures EntersOne(old(Value()), entered, tx, Local(localTx.txMap), minGasPrice, chain, checks)
      ensures refused.None? ==> Promoted(entered, Value(), chain, now, Local(localTx.txMap))
      ensures Steps(old(Value()), Adding(tx, checks), World(chain, now, Local(localTx.txMap), minGasPrice), Value())
    {
      hide WellFormed, Local, Refuse, EntersOne, Enters, Promoted, Continues, Admissible, FirstFailure;
      ghost var before := Value();
      refused := Insert(tx, chain, checks);
      entered := Value();
      WellFormedContinues(before, entered);
      OneEntered(before, entered, tx, Local(localTx.txMap), minGasPrice, chain, checks);
      ghost var w := World(chain, now, Local(localTx.txMap), minGasPrice);
      assert Offered(before, entered, [(tx, checks)], w);
      if refused.None? {
        PromoteExecutables(chain, now);
        assert PromotedBy(entered, w, Value());
      }
      WellFormedContinues(before, Value());
    }

    /** Adds the transactions of a batch that are not refused. */
    method AddBatch(txs: seq<(Tx, Checks)>, chain: ChainState, now: nat) returns (ghost entered: Pool)
      requires WellFormed(Value())
      modifies `pending, `queue, `all, `beats, `managed
      ensures WellFormed(Value())
      ensures Enters(old(Value()), entered, txs, Local(localTx.txMap), minGasPrice, chain)
      ensures Promoted(entered, Value(), chain, now, Local(localTx.txMap))
      ensures Steps(old(Value()), AddingBatch(txs), World(chain, now, Local(localTx.txMap), minGasPrice), Value())
    {
      hide WellFormed, Local, Refuse, Promoted, Of, Enter, EnterAll, Enters, EntersOne, Continues;
      ghost var before := Value();
      var i := 0;
      assert txs[0..] == txs;
      while i < |txs|
        invariant i <= |txs| && WellFormed(Value()) && managed == before.managed && pending == before.pending
                  && beats == before.beats
        invariant forall a {:trigger Of(Value(), a)} ::
                    EnterAll(Of(Value(), a), a, txs[i..], Local(localTx.txMap), minGasPrice, chain)
                                   == EnterAll(Of(before, a), a, txs, Local(localTx.txMap), minGasPrice, chain)
      {
        ghost var here := Value();
        assert txs[i..][0] == txs[i] && txs[i..][1..] == txs[i + 1..];
        var refused := Insert(txs[i].0, chain, txs[i].1);
        EnterNext(before, here, Value(), txs, i, Local(localTx.txMap), minGasPrice, chain);
        i := i + 1;
      }
      entered := Value();
      AllEntered(before, entered, txs, Local(localTx.txMap), minGasPrice, chain);
      WellFormedContinues(before, entered);
      ghost var w := World(chain, now, Local(localTx.txMap), minGasPrice);
      assert Offered(before, entered, txs, w);
      PromoteExecutables(chain, now);
      assert PromotedBy(entered, w, Value());
      WellFormedContinues(before, Value());
    }

    /** Removes transactions one after the other; none of them is known afterwards. */
    method RemoveBatch(hashes: seq<Hash>)
      requires WellFormed(Value())
      modifies `pending, `queue, `all, `beats, `managed
      ensures WellFormed(Value()) && forall h | h in hashes :: h !in all
      ensures forall a {:trigger Of(Value(), a)} :: Of(Value(), a) == RemoveAll(Of(old(Value()), a), TxsOf(hashes, a))
      ensures forall w: World :: Steps(old(Value()), Removing(hashes), w, Value())
    {
      hide WellFormed, Of, Remove, TxsOf, RemoveAll, Hashed, Continues;
      ghost var before := Value();
      assert hashes[0..] == hashes;
      var i := 0;
      while i < |hashes|
        invariant i <= |hashes| && WellFormed(Value()) && (managed.Some? <==> before.managed.Some?)
        invariant forall a {:trigger Of(Value(), a)} ::
                    RemoveAll(Of(Value(), a), TxsOf(hashes[i..], a)) == RemoveAll(Of(before, a), TxsOf(hashes, a))
      {
        ghost var here := Value();
        RemoveTx(hashes[i]);
        BatchNext(before, here, Value(), hashes, i);
        i := i + 1;
      }
      BatchEnds(before, Value(), hashes);
      WellFormedContinues(before, Value());
    }

    /** The transactions that can be executed now, by account, in the order of their nonces. */
    method Pending(chain: ChainState, now: nat) returns (txs: map<Address, seq<Tx>>, ghost promoted: Pool)
      requires WellFormed(Value())
      modifies `pending, `queue, `all, `beats, `managed
      ensures WellFormed(Value()) && Promoted(old(Value()), promoted, chain, now, Local(localTx.txMap))
              && Demotes(promoted, Value(), chain)
      ensures txs.Keys == pending.Keys && forall a | a in txs :: txs[a] == Flatten(pending[a])
      ensures forall a | a in txs :: txs[a] != [] && Executable(txs[a], a, chain)
      ensures Steps(old(Value()), Listing, World(chain, now, Local(localTx.txMap), minGasPrice), Value())
    {
      hide WellFormed, Promoted, Demotes, Flatten, Executable, Local, Continues;
      ghost var before := Value();
      PromoteExecutables(chain, now);
      promoted := Value();
      DemoteUnexecutables(chain);
      WellFormedContinues(before, Value());
      WellFormedContinues(promoted, Value());
      DemotedIsExecutable(promoted, Value(), chain);
      txs := map a | a in pending :: Flatten(pending[a]);
    }

    /** Drops the queues of accounts not heard from for too long. */
    method Expire(now: nat)
      requires WellFormed(Value())
      modifies `pending, `queue, `all, `beats, `managed
      ensures WellFormed(Value()) && Expired(old(Value()), Value(), now)
      ensures forall w: World | w.now == now :: Steps(old(Value()), Expiring, w, Value())
    {
      hide WellFormed, Of, RemoveAll, Flatten, Continues;
      ghost var before := Value();
      var todo := queue.Keys;
      while todo != {}
        invariant WellFormed(Value()) && todo <= before.queue.Keys && (managed.Some? <==> before.managed.Some?)
        invariant forall b {:trigger Of(Value(), b)} ::
                    Of(Value(), b) == if b in todo then Of(before, b) else ExpireAt(before, b, now)
        decreases todo
      {
        var a :| a in todo;
        StartExpiry(before, Value(), a, now);
        if Stale(beats, a, now) {
          RemoveEach(a, Flatten(queue[a]));
        }
        todo := todo - {a};
      }
      WellFormedContinues(before, Value());
    }

    /** Marks a transaction as local, and drops marks that are too old. */
    method SetLocal(tx: Tx, now: nat)
      requires localTx.Valid()
      modifies localTx
      ensures localTx.Valid() && localTx.Value() == Marked(old(localTx.Value()), HashOf(tx), now)
    {
      localTx.Add(HashOf(tx), now);
    }
  }
}
