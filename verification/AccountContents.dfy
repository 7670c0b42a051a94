/**
 What the operations on an account do to its lists and to what is known of it, said by nonces, prices and costs.
 */
module AccountContents {
  import opened Options
  import opened TxLists
  import opened Accounts

  // ------------------------------------------------------------------ replacement

  /** A transaction listed under its nonce is at least as good as this one. */
  predicate Beats(items: Items, tx: Tx) {
    tx.nonce in items && tx.price <= items[tx.nonce].price
  }

  /** A list in which nothing was replaced but by a better transaction of its nonce. */
  ghost predicate NoCheaper(before: Items, after: Items) {
    forall n | n in before :: n in after && (after[n] == before[n] || before[n].price < after[n].price)
  }

  /** A list into which a transaction was put under its nonce, all others as they were. */
  ghost predicate PutIn(before: Items, tx: Tx, after: Items) {
    && tx.nonce in after && after[tx.nonce] == tx
    && forall n | n != tx.nonce :: (n in after <==> n in before) && (n in before ==> after[n] == before[n])
  }

  /**
   Into the queue: a transaction that is beaten leaves everything as it was; any other is queued and known, and
   the one it replaces is not.
   */
  lemma QueueTakes(a: Account, tx: Tx)
    ensures Beats(a.queue, tx) ==> Enqueue(a, tx) == a
    ensures !Beats(a.queue, tx) ==>
              var b := Enqueue(a, tx);
              && PutIn(a.queue, tx, b.queue) && b == a.(queue := b.queue, known := b.known)
              && (forall t :: t in b.known <==>
                    t == tx || (t in a.known && !(tx.nonce in a.queue && a.queue[tx.nonce] == t)))
    ensures NoCheaper(a.queue, Enqueue(a, tx).queue)
  {
  }

  /**
   Into the pending list: a transaction that is beaten is forgotten; any other is pending and known, the one it
   replaces is not, its nonce is the last one used, and the account was heard from now.
   */
  lemma PendingTakes(a: Account, tx: Tx, now: nat)
    ensures Beats(a.pending, tx) ==> Promote(a, tx, now) == a.(known := a.known - {tx})
    ensures !Beats(a.pending, tx) ==>
              var b := Promote(a, tx, now);
              && PutIn(a.pending, tx, b.pending) && b.queue == a.queue
              && b.nonce == tx.nonce + 1 && b.beat == Some(now)
              && (forall t :: t in b.known <==>
                    t == tx || (t in a.known && !(tx.nonce in a.pending && a.pending[tx.nonce] == t)))
    ensures NoCheaper(a.pending, Promote(a, tx, now).pending)
  {
  }

  lemma NoCheaperOn(a: Items, b: Items, c: Items)
    requires NoCheaper(a, b) && NoCheaper(b, c)
    ensures NoCheaper(a, c)
  {
  }

  /** Queueing any transactions: each nonce ends with the best that was queued or offered, the first of equals. */
  lemma {:induction false} EnqueueAllBest(a: Account, txs: seq<Tx>)
    ensures var queue := EnqueueAll(a, txs).queue;
            && NoCheaper(a.queue, queue)
            && (forall tx | tx in txs :: Beats(queue, tx))
            && forall n | n in queue :: (n in a.queue && queue[n] == a.queue[n]) || queue[n] in txs
    decreases |txs|
  {
    hide Enqueue;
    if txs != [] {
      var b := Enqueue(a, txs[0]);
      QueueTakes(a, txs[0]);
      EnqueueAllBest(b, txs[1..]);
      NoCheaperOn(a.queue, b.queue, EnqueueAll(a, txs).queue);
      assert forall tx | tx in txs :: tx == txs[0] || tx in txs[1..];
    }
  }

  /** So does promoting any transactions, in the pending list. */
  lemma {:induction false} PromoteAllBest(a: Account, txs: seq<Tx>, now: nat)
    ensures var pending := PromoteAll(a, txs, now).pending;
            && NoCheaper(a.pending, pending)
            && (forall tx | tx in txs :: Beats(pending, tx))
            && forall n | n in pending :: (n in a.pending && pending[n] == a.pending[n]) || pending[n] in txs
    decreases |txs|
  {
    hide Promote;
    if txs != [] {
      var b := Promote(a, txs[0], now);
      PendingTakes(a, txs[0], now);
      PromoteAllBest(b, txs[1..], now);
      NoCheaperOn(a.pending, b.pending, PromoteAll(a, txs, now).pending);
      assert forall tx | tx in txs :: tx == txs[0] || tx in txs[1..];
    }
  }

  // ------------------------------------------------------------------ queueing transactions of different nonces

  /** The transaction of a nonce among some of different nonces, put over a list where it is better. */
  ghost predicate Overlaid(before: Items, txs: seq<Tx>, after: Items) {
    && (forall tx | tx in txs :: tx.nonce in after && after[tx.nonce] == if Beats(before, tx) then before[tx.nonce]
        else tx)
    && forall n | !Named(txs, n) :: (n in after <==> n in before) && (n in before ==> after[n] == before[n])
  }

  predicate Named(txs: seq<Tx>, n: nat) {
    exists tx :: tx in txs && tx.nonce == n
  }

  /** Known afterwards: what is put into the list, and what was known and is not put out of it. */
  ghost predicate KnownOver(a: Account, txs: seq<Tx>, b: Account) {
    forall t :: t in b.known <==> Put(a.queue, txs, t) || (t in a.known && !Replaced(a.queue, txs, t))
  }

  predicate Put(queue: Items, txs: seq<Tx>, t: Tx) {
    t in txs && !Beats(queue, t)
  }

  predicate Replaced(queue: Items, txs: seq<Tx>, t: Tx) {
    t.nonce in queue && queue[t.nonce] == t && exists tx :: tx in txs && tx.nonce == t.nonce && t.price < tx.price
  }

  predicate Different(txs: seq<Tx>) {
    forall i, j | 0 <= i < j < |txs| :: txs[i].nonce != txs[j].nonce
  }

  lemma {:induction false} EnqueueAllIs(a: Account, txs: seq<Tx>)
    requires Different(txs) && ByNonce(a.queue)
    ensures Overlaid(a.queue, txs, EnqueueAll(a, txs).queue) && KnownOver(a, txs, EnqueueAll(a, txs))
    decreases |txs|
  {
    hide Enqueue, Overlaid, KnownOver;
    if txs == [] {
      NothingOver(a);
    } else {
      var tx, rest := txs[0], txs[1..];
      var b := Enqueue(a, tx);
      QueueTakes(a, tx);
      EnqueueAllIs(b, rest);
      var c := EnqueueAll(b, rest);
      forall t | t in rest ensures t.nonce != tx.nonce {
        var i :| 0 <= i < |rest| && rest[i] == t;
        assert txs[i + 1] == t;
      }
      OverlaidOn(a, tx, rest, b, c.queue);
      KnownOn(a, tx, rest, b, c);
      assert [tx] + rest == txs;
    }
  }

  lemma NothingOver(a: Account)
    ensures Overlaid(a.queue, [], a.queue) && KnownOver(a, [], a)
  {
  }

  lemma OverlaidOn(a: Account, tx: Tx, rest: seq<Tx>, b: Account, after: Items)
    requires forall t | t in rest :: t.nonce != tx.nonce
    requires if Beats(a.queue, tx) then b == a else PutIn(a.queue, tx, b.queue)
    requires Overlaid(b.queue, rest, after)
    ensures Overlaid(a.queue, [tx] + rest, after)
  {
    forall n | !Named([tx] + rest, n) ensures !Named(rest, n) && n != tx.nonce {
      assert tx in [tx] + rest && forall t | t in rest :: t in [tx] + rest;
    }
    assert !Named(rest, tx.nonce);
  }

  lemma KnownOn(a: Account, tx: Tx, rest: seq<Tx>, b: Account, c: Account)
    requires ByNonce(a.queue) && forall t | t in rest :: t.nonce != tx.nonce
    requires if Beats(a.queue, tx) then b == a
             else PutIn(a.queue, tx, b.queue)
                  && forall t :: t in b.known <==>
                       t == tx || (t in a.known && !(tx.nonce in a.queue && a.queue[tx.nonce] == t))
    requires KnownOver(b, rest, c)
    ensures KnownOver(a, [tx] + rest, c)
  {
    var txs := [tx] + rest;
    forall t ensures t in c.known <==> Put(a.queue, txs, t) || (t in a.known && !Replaced(a.queue, txs, t)) {
      assert t in txs <==> t == tx || t in rest;
      if t.nonce == tx.nonce {
        assert t !in rest && !Replaced(b.queue, rest, t);
        assert Replaced(a.queue, txs, t) <==> t.nonce in a.queue && a.queue[t.nonce] == t && t.price < tx.price by {
          assert tx in txs;
        }
      } else {
        assert Replaced(b.queue, rest, t) <==> Replaced(a.queue, txs, t) by {
          assert forall s :: s in txs && s.nonce == t.nonce <==> s in rest && s.nonce == t.nonce;
        }
      }
    }
  }

  lemma FlattenDiffers(items: Items)
    requires ByNonce(items)
    ensures Different(Flatten(items))
    ensures forall n :: Named(Flatten(items), n) <==> n in items
  {
    FlattenRises(items);
    FlattenMembers(items);
    hide Flatten;
    forall n | n in items ensures Named(Flatten(items), n) {
      assert items[n] in Flatten(items);
    }
  }

  /** An overlay with the transactions of a list. */
  lemma OverlaidItems(before: Items, items: Items, after: Items)
    requires ByNonce(items) && Overlaid(before, Flatten(items), after)
    ensures forall n :: n in items ==>
              n in after && after[n] == if Beats(before, items[n]) then before[n] else items[n]
    ensures forall n :: n !in items ==> (n in after <==> n in before) && (n in before ==> after[n] == before[n])
  {
    hide Flatten, Beats;
    FlattenMembers(items);
    FlattenDiffers(items);
    assert forall n | n in items :: items[n] in Flatten(items);
  }

  // ------------------------------------------------------------------ demotion

  /** Everything pending from the account's nonce up to this one can be paid for. */
  predicate StaysPending(items: Items, nonce: nat, balance: nat, n: nat) {
    && n in items && nonce <= n
    && forall m | m in items && nonce <= m <= n :: items[m].cost <= balance
  }

  /** Not old, to be paid for, but behind something that cannot be. */
  predicate FallsBack(items: Items, nonce: nat, balance: nat, n: nat) {
    n in items && nonce <= n && items[n].cost <= balance && !StaysPending(items, nonce, balance, n)
  }

  /** The transaction is too old or too dear to stay in the list. */
  predicate Drops(items: Items, nonce: nat, balance: nat, t: Tx) {
    t.nonce in items && items[t.nonce] == t && (t.nonce < nonce || balance < t.cost)
  }

  lemma StillPendingIff(a: Account, nonce: nat, balance: nat)
    ensures forall n :: n in StillPending(a, nonce, balance) <==> StaysPending(a.pending, nonce, balance, n)
    ensures forall n :: n in Requeued(a, nonce, balance) <==> FallsBack(a.pending, nonce, balance, n)
  {
    var recent := From(a.pending, nonce);
    var drops := Unpayable(recent, balance);
    if drops != map[] {
      var low := MinKey(drops);
      assert low in a.pending && nonce <= low && balance < a.pending[low].cost;
      forall m | m in a.pending && nonce <= m && balance < a.pending[m].cost ensures low <= m {
        assert m in drops;
      }
    } else {
      forall m | m in a.pending && nonce <= m ensures a.pending[m].cost <= balance {
        assert m !in drops;
      }
    }
  }

  lemma DemotedIff(a: Account, nonce: nat, balance: nat)
    requires ByNonce(a.pending)
    ensures forall t :: t in Demoted(a, nonce, balance) <==> Drops(a.pending, nonce, balance, t)
  {
    forall t | Drops(a.pending, nonce, balance, t) ensures t in Demoted(a, nonce, balance) {
      if t.nonce < nonce {
        assert Below(a.pending, nonce)[t.nonce] == t;
      } else {
        assert Unpayable(From(a.pending, nonce), balance)[t.nonce] == t;
      }
    }
  }

  /** Demotion keeps pending exactly what can be paid for without a gap, and the account's nonce. */
  lemma DemotePendingIff(a: Account, nonce: nat, balance: nat, owner: Address)
    requires Placed(a, owner)
    ensures var b := Demote(a, nonce, balance);
            && (forall n :: n in b.pending <==> StaysPending(a.pending, nonce, balance, n))
            && (forall n | n in b.pending :: b.pending[n] == a.pending[n])
            && b.nonce == a.nonce && (b.pending != map[] ==> b.beat == a.beat)
               && (b.pending == map[] ==> b.beat == None)
  {
    hide EnqueueAll, Flatten, Requeued, Demoted, Demote, StillPending, StaysPending, FallsBack;
    DemoteIs(a, nonce, balance);
    StillPendingIff(a, nonce, balance);
    StillPendingHas(a, nonce, balance, owner);
    EnqueueAllLeaves(a.(pending := StillPending(a, nonce, balance), known := a.known - Demoted(a, nonce, balance)),
                     Flatten(Requeued(a, nonce, balance)));
  }

  /**
   What falls back is queued again, unless what is queued under its nonce beats it; nothing else in the queue
   changes. Known is what was, but for what drops out of the pending list and for what is replaced in the queue.
   */
  lemma DemoteQueueIs(a: Account, nonce: nat, balance: nat, owner: Address)
    requires Placed(a, owner)
    ensures var b := Demote(a, nonce, balance);
            && (forall n | FallsBack(a.pending, nonce, balance, n) ::
                  n in b.queue && b.queue[n] == if Beats(a.queue, a.pending[n]) then a.queue[n] else a.pending[n])
            && (forall n | !FallsBack(a.pending, nonce, balance, n) ::
                  (n in b.queue <==> n in a.queue) && (n in a.queue ==> b.queue[n] == a.queue[n]))
            && forall t :: t in b.known <==>
                 t in a.known && !Drops(a.pending, nonce, balance, t) && !OutbidBy(a, nonce, balance, t)
  {
    hide EnqueueAll, Flatten, Requeued, Demoted, Demote, StillPending, FallsBack, Overlaid, KnownOver;
    var again := Requeued(a, nonce, balance);
    var c := a.(pending := StillPending(a, nonce, balance), known := a.known - Demoted(a, nonce, balance));
    DemoteIs(a, nonce, balance);
    StillPendingIff(a, nonce, balance);
    StillPendingHas(a, nonce, balance, owner);
    DemotedIff(a, nonce, balance);
    FlattenDiffers(again);
    EnqueueAllIs(c, Flatten(again));
    OverlaidItems(a.queue, again, EnqueueAll(c, Flatten(again)).queue);
    forall t ensures t in EnqueueAll(c, Flatten(again)).known <==>
                     t in a.known && !Drops(a.pending, nonce, balance, t) && !OutbidBy(a, nonce, balance, t)
    {
      DemoteKnownIff(a, nonce, balance, owner, c, again, t);
    }
  }

  /** The queued transaction is replaced by a better one that falls back. */
  predicate OutbidBy(a: Account, nonce: nat, balance: nat, t: Tx) {
    && t.nonce in a.queue && a.queue[t.nonce] == t
    && FallsBack(a.pending, nonce, balance, t.nonce) && t.price < a.pending[t.nonce].price
  }

  lemma DemoteKnownIff(a: Account, nonce: nat, balance: nat, owner: Address, c: Account, again: Items, t: Tx)
    requires Placed(a, owner) && c.queue == a.queue
    requires forall t :: t in c.known <==> t in a.known && !Drops(a.pending, nonce, balance, t)
    requires forall n :: n in again <==> FallsBack(a.pending, nonce, balance, n)
    requires forall n | n in again :: n in a.pending && again[n] == a.pending[n]
    requires KnownOver(c, Flatten(again), EnqueueAll(c, Flatten(again)))
    ensures t in EnqueueAll(c, Flatten(again)).known <==>
              t in a.known && !Drops(a.pending, nonce, balance, t) && !OutbidBy(a, nonce, balance, t)
  {
    hide EnqueueAll, Flatten;
    FlattenMembers(again);
    assert Replaced(a.queue, Flatten(again), t) <==> OutbidBy(a, nonce, balance, t) by {
      if OutbidBy(a, nonce, balance, t) {
        assert a.pending[t.nonce] in Flatten(again);
      }
    }
  }

  /** So nothing recent and payable is lost: it stays pending, or its nonce is queued at no lower price. */
  lemma DemoteLosesNothing(a: Account, nonce: nat, balance: nat, owner: Address, n: nat)
    requires Placed(a, owner) && n in a.pending && nonce <= n && a.pending[n].cost <= balance
    ensures var b, tx := Demote(a, nonce, balance), a.pending[n];
            && tx in b.known
            && (if n in b.pending then b.pending[n] == tx else Beats(b.queue, tx))
            && (n !in b.pending && !Beats(a.queue, tx) ==> b.queue[n] == tx)
  {
    hide Demote;
    DemotePendingIff(a, nonce, balance, owner);
    DemoteQueueIs(a, nonce, balance, owner);
    assert StaysPending(a.pending, nonce, balance, n) || FallsBack(a.pending, nonce, balance, n);
  }

  // ------------------------------------------------------------------ removal

  /** The nonces behind a removed one, queued again if something below it stays pending. */
  predicate GoesBack(a: Account, tx: Tx, n: nat) {
    && tx.nonce in a.pending && n in a.pending && tx.nonce < n
    && exists m :: m in a.pending && m < tx.nonce
  }

  /**
   Removing a known transaction: its nonce and everything behind leave the pending list, the nonce expected next
   is no higher than it, and with nothing left pending the heartbeat goes.
   */
  lemma RemovePendingIs(a: Account, tx: Tx, owner: Address)
    requires Placed(a, owner) && tx in a.known
    ensures var b := Remove(a, tx);
            && (tx.nonce !in a.pending ==> b.pending == a.pending && b.nonce == a.nonce && b.beat == a.beat)
            && (tx.nonce in a.pending ==>
                  && (forall n :: n in b.pending <==> n in a.pending && n < tx.nonce)
                  && (forall n | n in b.pending :: b.pending[n] == a.pending[n])
                  && (b.pending == map[] ==> b.beat == None) && (b.pending != map[] ==> b.beat == a.beat)
                  && b.nonce <= a.nonce && b.nonce <= tx.nonce && (b.nonce == a.nonce || b.nonce == tx.nonce))
  {
    hide EnqueueAll, Flatten;
    var c := a.(known := a.known - {tx});
    RemovePendingHas(c, tx);
    EnqueueAllLeaves(c.(pending := Below(a.pending, tx.nonce)), Flatten(From(a.pending, tx.nonce + 1)));
  }

  /** What goes back is queued unless beaten there; its own nonce leaves the queue, and nothing else changes. */
  lemma RemoveQueueIs(a: Account, tx: Tx, owner: Address)
    requires Placed(a, owner) && tx in a.known
    ensures var b := Remove(a, tx);
            && tx.nonce !in b.queue
            && (forall n | GoesBack(a, tx, n) ::
                  n in b.queue && b.queue[n] == if Beats(a.queue, a.pending[n]) then a.queue[n] else a.pending[n])
            && (forall n | n != tx.nonce && !GoesBack(a, tx, n) ::
                  (n in b.queue <==> n in a.queue) && (n in a.queue ==> b.queue[n] == a.queue[n]))
            && forall t :: t in b.known <==> t in a.known && t != tx && !OutbidBehind(a, tx, t)
  {
    hide EnqueueAll, Flatten, RemovePending, Overlaid, KnownOver, Remove, Again, GoesBack, OutbidBehind;
    var again, rest := Again(a, tx), Rest(a, tx);
    AgainIff(a, tx);
    RestKeepsPlaced(a, tx, owner);
    RemoveIs(a, tx);
    FlattenDiffers(again);
    EnqueueAllIs(rest, Flatten(again));
    OverlaidItems(rest.queue, again, EnqueueAll(rest, Flatten(again)).queue);
    forall t ensures t in EnqueueAll(rest, Flatten(again)).known <==>
                     t in a.known && t != tx && !OutbidBehind(a, tx, t)
    {
      RemoveKnownIff(a, tx, owner, t);
    }
  }

  /** The queued transaction is replaced by a better one that goes back. */
  predicate OutbidBehind(a: Account, tx: Tx, t: Tx) {
    && t.nonce in a.queue && a.queue[t.nonce] == t
    && GoesBack(a, tx, t.nonce) && t.price < a.pending[t.nonce].price
  }

  lemma AgainIff(a: Account, tx: Tx)
    ensures forall n :: n in Again(a, tx) <==> GoesBack(a, tx, n)
    ensures forall n | n in Again(a, tx) :: Again(a, tx)[n] == a.pending[n]
  {
    if tx.nonce in a.pending {
      var low := Below(a.pending, tx.nonce);
      if m :| m in a.pending && m < tx.nonce {
        assert m in low;
      }
      if low != map[] {
        var m :| m in low;
        assert m in a.pending && m < tx.nonce;
      }
    }
  }

  lemma RemoveKnownIff(a: Account, tx: Tx, owner: Address, t: Tx)
    requires Placed(a, owner) && tx in a.known
    requires var again := Flatten(Again(a, tx)); KnownOver(Rest(a, tx), again, EnqueueAll(Rest(a, tx), again))
    ensures t in EnqueueAll(Rest(a, tx), Flatten(Again(a, tx))).known <==>
              t in a.known && t != tx && !OutbidBehind(a, tx, t)
  {
    hide EnqueueAll, Flatten, Again;
    var again, rest := Again(a, tx), Rest(a, tx);
    AgainIff(a, tx);
    RestKeepsPlaced(a, tx, owner);
    FlattenMembers(again);
    assert Replaced(rest.queue, Flatten(again), t) <==> t != tx && OutbidBehind(a, tx, t) by {
      if OutbidBehind(a, tx, t) {
        assert a.pending[t.nonce] in Flatten(again);
      }
    }
  }

  // ------------------------------------------------------------------ promotion

  /** Recent enough and to be paid for. */
  predicate Fits(items: Items, nonce: nat, balance: nat, n: nat) {
    n in items && nonce <= n && items[n].cost <= balance
  }

  /** Cleaning keeps queued exactly what fits, and forgets the rest of the queue. */
  lemma CleanIs(a: Account, nonce: nat, balance: nat)
    requires ByNonce(a.queue)
    ensures var b := Clean(a, nonce, balance);
            && b == a.(queue := b.queue, known := b.known)
            && (forall n :: n in b.queue <==> Fits(a.queue, nonce, balance, n))
            && (forall n | n in b.queue :: n in a.queue && b.queue[n] == a.queue[n])
            && forall t :: t in b.known <==>
                 t in a.known && !(t.nonce in a.queue && a.queue[t.nonce] == t
                                   && !Fits(a.queue, nonce, balance, t.nonce))
  {
    var recent := From(a.queue, nonce);
    var early, dear := a.queue - recent.Keys, recent - Payable(recent, balance).Keys;
    forall t ensures t in early.Values <==> t.nonce in a.queue && a.queue[t.nonce] == t && t.nonce < nonce {
      if t.nonce in early && a.queue[t.nonce] == t {
        assert early[t.nonce] == t;
      }
    }
    forall t ensures t in dear.Values <==>
                     t.nonce in a.queue && a.queue[t.nonce] == t && nonce <= t.nonce && balance < t.cost
    {
      if t.nonce in dear && a.queue[t.nonce] == t {
        assert dear[t.nonce] == t;
      }
    }
  }

  /** Next to be executed: some nonce in the list has been reached, and there is no gap below this one. */
  ghost predicate Reached(items: Items, start: nat, n: nat) {
    && n in items && (exists m :: m in items && m <= start)
    && forall k: nat, m | k < n && k !in items && m in items :: k < m
  }

  lemma NothingReached(items: Items, start: nat)
    requires items == map[] || start < MinKey(items)
    ensures forall n :: !Reached(items, start, n)
  {
  }

  lemma ReadyIff(items: Items, start: nat)
    requires ByNonce(items)
    ensures forall tx :: tx in Ready(items, start) <==>
              tx.nonce in items && items[tx.nonce] == tx && Reached(items, start, tx.nonce)
  {
    hide Run;
    if items != map[] && MinKey(items) <= start {
      var low := MinKey(items);
      RunHas(items, low);
      var run := Run(items, low);
      forall tx: Tx | tx.nonce in items && items[tx.nonce] == tx && Reached(items, start, tx.nonce) ensures tx in run {
        var i := tx.nonce - low;
        assert low + |run| !in items;
        assert i < |run|;
        assert RunAt(items, low, run, i);
      }
      forall tx | tx in run ensures tx.nonce in items && items[tx.nonce] == tx && Reached(items, start, tx.nonce) {
        var i :| 0 <= i < |run| && run[i] == tx;
        assert RunAt(items, low, run, i);
        forall k: nat, m | k < low + i && k !in items && m in items ensures k < m {
          assert low <= k ==> RunAt(items, low, run, k - low);
        }
      }
    } else {
      NothingReached(items, start);
    }
  }

  lemma {:induction false} PromoteAllIs(a: Account, txs: seq<Tx>, now: nat)
    requires Rising(txs) && ByNonce(a.pending)
    ensures var b := PromoteAll(a, txs, now);
            && b.queue == a.queue && Overlaid(a.pending, txs, b.pending) && Used(a, txs, now, b)
            && KnownAfter(a, txs, b)
    decreases |txs|
  {
    hide Promote, Overlaid, Used, KnownAfter, Taken, Rising;
    if txs == [] {
      NothingPromoted(a, now);
    } else {
      var tx, rest := txs[0], txs[1..];
      var b := Promote(a, tx, now);
      RisingRest(txs);
      TakenIs(a, tx, now);
      PromoteAllIs(b, rest, now);
      var c := PromoteAll(b, rest, now);
      PromoteOverlaidOn(a, tx, rest, now, b, c.pending);
      UsedOn(a, tx, rest, now, b, c);
      KnownAfterOn(a, tx, rest, now, b, c);
    }
  }

  lemma RisingRest(txs: seq<Tx>)
    requires Rising(txs) && txs != []
    ensures Rising(txs[1..]) && [txs[0]] + txs[1..] == txs
    ensures forall t | t in txs[1..] :: txs[0].nonce < t.nonce
  {
    forall t | t in txs[1..] ensures txs[0].nonce < t.nonce {
      var i :| 0 <= i < |txs[1..]| && txs[1..][i] == t;
      assert txs[i + 1] == t;
    }
  }

  lemma TakenIs(a: Account, tx: Tx, now: nat)
    ensures Taken(a, tx, now, Promote(a, tx, now)) && Promote(a, tx, now).queue == a.queue
    ensures ByNonce(a.pending) ==> ByNonce(Promote(a, tx, now).pending)
  {
    PendingTakes(a, tx, now);
  }

  /** The nonce expected next is one above the highest put into the list, and the account was heard from, if any was. */
  ghost predicate Used(a: Account, txs: seq<Tx>, now: nat, b: Account) {
    if forall tx | tx in txs :: Beats(a.pending, tx) then b.nonce == a.nonce && b.beat == a.beat
    else
      && b.beat == Some(now)
      && (forall tx | Put(a.pending, txs, tx) :: tx.nonce < b.nonce)
      && exists tx :: Put(a.pending, txs, tx) && b.nonce == tx.nonce + 1
  }

  ghost predicate KnownAfter(a: Account, txs: seq<Tx>, b: Account) {
    forall t :: t in b.known <==>
      Put(a.pending, txs, t) || (t in a.known && !Replaced(a.pending, txs, t) && !(t in txs && Beats(a.pending, t)))
  }

  lemma NothingPromoted(a: Account, now: nat)
    ensures PromoteAll(a, [], now) == a && Overlaid(a.pending, [], a.pending) && Used(a, [], now, a)
            && KnownAfter(a, [], a)
  {
  }

  /** One step of promotion, as far as the lists go. */
  ghost predicate Taken(a: Account, tx: Tx, now: nat, b: Account) {
    if Beats(a.pending, tx) then b == a.(known := a.known - {tx})
    else
      && PutIn(a.pending, tx, b.pending) && b.nonce == tx.nonce + 1 && b.beat == Some(now)
      && forall t :: t in b.known <==>
           t == tx || (t in a.known && !(tx.nonce in a.pending && a.pending[tx.nonce] == t))
  }

  lemma PromoteOverlaidOn(a: Account, tx: Tx, rest: seq<Tx>, now: nat, b: Account, after: Items)
    requires forall t | t in rest :: tx.nonce < t.nonce
    requires Taken(a, tx, now, b) && Overlaid(b.pending, rest, after)
    ensures Overlaid(a.pending, [tx] + rest, after)
  {
    forall n | !Named([tx] + rest, n) ensures !Named(rest, n) && n != tx.nonce {
      assert tx in [tx] + rest && forall t | t in rest :: t in [tx] + rest;
    }
    assert !Named(rest, tx.nonce);
  }

  lemma UsedOn(a: Account, tx: Tx, rest: seq<Tx>, now: nat, b: Account, c: Account)
    requires Taken(a, tx, now, b) && Used(b, rest, now, c)
    requires forall t | t in rest :: tx.nonce < t.nonce
    ensures Used(a, [tx] + rest, now, c)
  {
    var txs := [tx] + rest;
    assert forall t :: t in txs <==> t == tx || t in rest;
    assert forall t | t in rest :: Beats(b.pending, t) <==> Beats(a.pending, t);
    if forall t | t in rest :: Beats(b.pending, t) {
      assert !Beats(a.pending, tx) ==> Put(a.pending, txs, tx);
    } else {
      var t :| Put(b.pending, rest, t) && c.nonce == t.nonce + 1;
      assert Put(a.pending, txs, t);
    }
  }

  lemma KnownAfterOn(a: Account, tx: Tx, rest: seq<Tx>, now: nat, b: Account, c: Account)
    requires ByNonce(a.pending) && forall t | t in rest :: tx.nonce < t.nonce
    requires Taken(a, tx, now, b) && KnownAfter(b, rest, c)
    ensures KnownAfter(a, [tx] + rest, c)
  {
    var txs := [tx] + rest;
    forall t ensures t in c.known <==>
      Put(a.pending, txs, t) || (t in a.known && !Replaced(a.pending, txs, t) && !(t in txs && Beats(a.pending, t)))
    {
      assert t in txs <==> t == tx || t in rest;
      if t.nonce == tx.nonce {
        assert t !in rest && !Replaced(b.pending, rest, t);
        assert Replaced(a.pending, txs, t) <==>
                 t.nonce in a.pending && a.pending[t.nonce] == t && t.price < tx.price by {
          assert tx in txs;
        }
      } else {
        assert Replaced(b.pending, rest, t) <==> Replaced(a.pending, txs, t) by {
          assert forall s :: s in txs && s.nonce == t.nonce <==> s in rest && s.nonce == t.nonce;
        }
      }
    }
  }

  /** Queued, fitting, and next to be executed among what fits. */
  ghost predicate Runs(a: Account, nonce: nat, balance: nat, n: nat) {
    && Fits(a.queue, nonce, balance, n)
    && (exists m: nat :: Fits(a.queue, nonce, balance, m) && m <= a.nonce)
    && forall k: nat, m: nat | k < n && !Fits(a.queue, nonce, balance, k) && Fits(a.queue, nonce, balance, m) :: k < m
  }

  /** Queued, and better than what is pending under its nonce. */
  ghost predicate Promoted(a: Account, nonce: nat, balance: nat, n: nat) {
    Runs(a, nonce, balance, n) && !Beats(a.pending, a.queue[n])
  }

  lemma RunsIff(a: Account, nonce: nat, balance: nat, b: Account)
    requires forall n :: n in b.queue <==> Fits(a.queue, nonce, balance, n)
    requires b.nonce == a.nonce
    ensures forall n :: Reached(b.queue, b.nonce, n) <==> Runs(a, nonce, balance, n)
  {
    hide Fits;
    forall n ensures Reached(b.queue, b.nonce, n) <==> Runs(a, nonce, balance, n) {
      if Reached(b.queue, b.nonce, n) {
        var m :| m in b.queue && m <= b.nonce;
        assert Fits(a.queue, nonce, balance, m);
      }
      if Runs(a, nonce, balance, n) {
        var m: nat :| Fits(a.queue, nonce, balance, m) && m <= a.nonce;
        assert m in b.queue;
      }
    }
  }

  /** The steps of a promotion: cleaned, with the transactions that are ready, promoted, and capped. */
  lemma AdvanceHas(a: Account, nonce: nat, balance: nat, now: nat, cap: nat, owner: Address)
    returns (c: Account, ready: seq<Tx>, d: Account)
    requires Placed(a, owner)
    ensures c == Clean(a, nonce, balance) && Placed(c, owner)
    ensures forall tx :: tx in ready <==>
              tx.nonce in a.queue && a.queue[tx.nonce] == tx && Runs(a, nonce, balance, tx.nonce)
    ensures d.queue == c.queue - Nonces(ready)
    ensures Overlaid(a.pending, ready, d.pending) && Used(c, ready, now, d) && KnownAfter(c, ready, d)
    ensures Advance(a, nonce, balance, now, cap) == Forget(d, Cap(d.queue, cap))
  {
    hide PromoteAll, Ready, Cap, Clean, Overlaid, Used, KnownAfter, Runs, Reached, Fits;
    c := Clean(a, nonce, balance);
    CleanKeepsPlaced(a, nonce, balance, owner);
    CleanIs(a, nonce, balance);
    RunsIff(a, nonce, balance, c);
    ready := Ready(c.queue, c.nonce);
    ReadyHas(c.queue, c.nonce, owner);
    ReadyIff(c.queue, c.nonce);
    var e := c.(queue := c.queue - Nonces(ready));
    PromoteAllIs(e, ready, now);
    d := PromoteAll(e, ready, now);
    UsedAlike(e, c, ready, now, d);
    FitsInQueue(a, nonce, balance);
  }

  lemma FitsInQueue(a: Account, nonce: nat, balance: nat)
    ensures forall n | Runs(a, nonce, balance, n) :: Fits(a.queue, nonce, balance, n) && n in a.queue
  {
  }

  lemma UsedAlike(e: Account, c: Account, ready: seq<Tx>, now: nat, d: Account)
    requires e == c.(queue := e.queue) && Used(e, ready, now, d) && KnownAfter(e, ready, d)
    ensures Used(c, ready, now, d) && KnownAfter(c, ready, d)
  {
  }

  /** Promotion puts exactly the run of fitting nonces over the pending list, each where it is better. */
  lemma AdvancePendingIs(a: Account, nonce: nat, balance: nat, now: nat, cap: nat, owner: Address)
    requires Placed(a, owner)
    ensures var b := Advance(a, nonce, balance, now, cap);
            && (forall n | Runs(a, nonce, balance, n) ::
                  n in b.pending && b.pending[n] == if Promoted(a, nonce, balance, n) then a.queue[n] else a.pending[n])
            && (forall n | !Runs(a, nonce, balance, n) ::
                  (n in b.pending <==> n in a.pending) && (n in a.pending ==> b.pending[n] == a.pending[n]))
  {
    hide Advance, Runs, Used, KnownAfter, Cap;
    var c, ready, d := AdvanceHas(a, nonce, balance, now, cap, owner);
    FitsInQueue(a, nonce, balance);
    forall n | Runs(a, nonce, balance, n) ensures a.queue[n] in ready && a.queue[n].nonce == n {
    }
    assert forall n | Named(ready, n) :: Runs(a, nonce, balance, n);
  }

  ghost predicate FollowsPromoted(a: Account, nonce: nat, balance: nat, now: nat, b: Account) {
    if exists n: nat :: Promoted(a, nonce, balance, n) then
      && b.beat == Some(now)
      && (forall n: nat | Promoted(a, nonce, balance, n) :: n < b.nonce)
      && exists n: nat :: Promoted(a, nonce, balance, n) && b.nonce == n + 1
    else b.nonce == a.nonce && b.beat == a.beat
  }

  /** The nonce expected next follows the highest nonce promoted, and the account was heard from, if there is any. */
  lemma AdvanceNonceIs(a: Account, nonce: nat, balance: nat, now: nat, cap: nat, owner: Address)
    requires Placed(a, owner)
    ensures FollowsPromoted(a, nonce, balance, now, Advance(a, nonce, balance, now, cap))
  {
    hide Advance, Runs, Overlaid, KnownAfter, Cap;
    var c, ready, d := AdvanceHas(a, nonce, balance, now, cap, owner);
    FitsInQueue(a, nonce, balance);
    CleanIs(a, nonce, balance);
    forall tx ensures Put(c.pending, ready, tx) <==>
                      tx.nonce in a.queue && a.queue[tx.nonce] == tx && Promoted(a, nonce, balance, tx.nonce)
    {
    }
    forall n: nat | Promoted(a, nonce, balance, n) ensures Put(c.pending, ready, a.queue[n]) && a.queue[n].nonce == n {
    }
    if m: nat :| Promoted(a, nonce, balance, m) {
      assert a.queue[m] in ready;
      var tx :| Put(c.pending, ready, tx) && d.nonce == tx.nonce + 1;
      assert Promoted(a, nonce, balance, tx.nonce);
    } else {
      assert forall tx | tx in ready :: Beats(c.pending, tx);
    }
  }

  /** Fitting, and behind a gap or not reached yet. */
  ghost predicate Waits(a: Account, nonce: nat, balance: nat, n: nat) {
    Fits(a.queue, nonce, balance, n) && !Runs(a, nonce, balance, n)
  }

  /** Of what fits and is not promoted the lowest nonces stay queued, up to the cap. */
  lemma AdvanceQueueIs(a: Account, nonce: nat, balance: nat, now: nat, cap: nat, owner: Address)
    requires Placed(a, owner)
    ensures var b := Advance(a, nonce, balance, now, cap);
            && |b.queue| <= cap
            && (forall n | n in b.queue :: Waits(a, nonce, balance, n) && b.queue[n] == a.queue[n])
            && forall n | Waits(a, nonce, balance, n) && n !in b.queue ::
                 |b.queue| == cap && forall m | m in b.queue :: m < n
  {
    hide Advance, Runs, Fits, Overlaid, Used, KnownAfter, Cap;
    var c, ready, d := AdvanceHas(a, nonce, balance, now, cap, owner);
    FitsInQueue(a, nonce, balance);
    CleanIs(a, nonce, balance);
    CapKeepsLowest(d.queue, cap);
    forall n ensures n in d.queue <==> Waits(a, nonce, balance, n) {
      assert n in c.queue <==> Fits(a.queue, nonce, balance, n);
      if n in Nonces(ready) {
        var tx :| tx in ready && tx.nonce == n;
      }
      if Runs(a, nonce, balance, n) {
        assert a.queue[n] in ready;
      }
    }
    if |d.queue| <= cap {
      assert Cap(d.queue, cap).Keys <= d.queue.Keys;
      SameSize(Cap(d.queue, cap), d.queue);
    }
  }

  lemma SameSize(some: Items, all: Items)
    requires some.Keys <= all.Keys && |some| == |all|
    ensures some.Keys == all.Keys
  {
    assert |some.Keys| == |some| && |all.Keys| == |all|;
    var gone := all.Keys - some.Keys;
    assert all.Keys == some.Keys + gone;
    assert |gone| == 0;
  }

  // ------------------------------------------------------------------ known, and in no list

  predicate Listed(a: Account, t: Tx) {
    (t.nonce in a.pending && a.pending[t.nonce] == t) || (t.nonce in a.queue && a.queue[t.nonce] == t)
  }

  /** Left behind: taken off both lists, but still known, so that it can not be offered again. */
  predicate Strands(a: Account, b: Account, t: Tx) {
    Listed(a, t) && !Listed(b, t) && t in b.known
  }

  predicate Queued(a: Account, t: Tx) {
    t.nonce in a.queue && a.queue[t.nonce] == t
  }

  predicate Pending(a: Account, t: Tx) {
    t.nonce in a.pending && a.pending[t.nonce] == t
  }

  lemma ForgetIs(a: Account, rest: Items, t: Tx)
    requires ByNonce(a.queue) && rest.Keys <= a.queue.Keys
    ensures t in Forget(a, rest).known <==> t in a.known && !(Queued(a, t) && t.nonce !in rest)
  {
    var gone := a.queue - rest.Keys;
    if Queued(a, t) && t.nonce !in rest {
      assert gone[t.nonce] == t;
    }
  }

  /** Known after promotion: what was known, but for what it drops, beats, replaces or cuts. */
  lemma AdvanceKnownIs(a: Account, nonce: nat, balance: nat, now: nat, cap: nat, owner: Address, t: Tx)
    requires Placed(a, owner)
    ensures var b, n := Advance(a, nonce, balance, now, cap), t.nonce;
            t in b.known <==>
              && t in a.known && !(Pending(a, t) && Promoted(a, nonce, balance, n))
              && (Queued(a, t) ==>
                    Promoted(a, nonce, balance, n) || (Waits(a, nonce, balance, n) && n in b.queue))
  {
    hide Advance, Clean, Runs, Fits, Used, Cap, Overlaid, Forget, KnownAfter, Promoted, Waits;
    var c, ready, d := AdvanceHas(a, nonce, balance, now, cap, owner);
    CapKeepsLowest(d.queue, cap);
    CleanIs(a, nonce, balance);
    ForgetIs(d, Cap(d.queue, cap), t);
    ForgetQueue(d, Cap(d.queue, cap));
    ReadyTx(a, nonce, balance, ready, t);
    KnownAfterAt(a, nonce, balance, c, ready, d, t);
    WaitsIff(a, nonce, balance, t.nonce);
    assert Queued(a, t) ==> t in a.known && !Pending(a, t);
    QueuedAfter(a, nonce, balance, c, ready, d, t);
  }

  lemma QueuedAfter(a: Account, nonce: nat, balance: nat, c: Account, ready: seq<Tx>, d: Account, t: Tx)
    requires forall n :: n in c.queue <==> Fits(a.queue, nonce, balance, n)
    requires forall n | n in c.queue :: n in a.queue && c.queue[n] == a.queue[n]
    requires d.queue == c.queue - Nonces(ready) && (t.nonce in Nonces(ready) <==> Runs(a, nonce, balance, t.nonce))
    ensures Queued(d, t) <==> Queued(a, t) && Waits(a, nonce, balance, t.nonce)
  {
    hide Fits, Runs, Nonces;
  }

  lemma WaitsIff(a: Account, nonce: nat, balance: nat, n: nat)
    ensures Waits(a, nonce, balance, n) <==> Fits(a.queue, nonce, balance, n) && !Runs(a, nonce, balance, n)
    ensures Promoted(a, nonce, balance, n) ==> Runs(a, nonce, balance, n)
    ensures Runs(a, nonce, balance, n) ==> Fits(a.queue, nonce, balance, n) && n in a.queue
  {
  }

  lemma KnownAfterAt(a: Account, nonce: nat, balance: nat, c: Account, ready: seq<Tx>, d: Account, t: Tx)
    requires ListedByNonce(a) && c.pending == a.pending && KnownAfter(c, ready, d)
    requires forall tx :: tx in ready <==>
               tx.nonce in a.queue && a.queue[tx.nonce] == tx && Runs(a, nonce, balance, tx.nonce)
    ensures t in d.known <==>
              if Queued(a, t) && Runs(a, nonce, balance, t.nonce)
              then Promoted(a, nonce, balance, t.nonce)
              else t in c.known && !(Pending(a, t) && Promoted(a, nonce, balance, t.nonce))
  {
    hide Runs, Put, Replaced;
    ReadyTx(a, nonce, balance, ready, t);
  }

  /** Promotion forgets exactly what leaves both lists. */
  lemma AdvanceForgets(a: Account, nonce: nat, balance: nat, now: nat, cap: nat, owner: Address, t: Tx)
    requires Placed(a, owner)
    ensures var b := Advance(a, nonce, balance, now, cap);
            t in b.known <==> t in a.known && (Listed(a, t) ==> Listed(b, t))
  {
    hide Advance, Runs, Fits;
    AdvanceKnownIs(a, nonce, balance, now, cap, owner, t);
    AdvancePendingIs(a, nonce, balance, now, cap, owner);
    AdvanceQueueIs(a, nonce, balance, now, cap, owner);
    FitsInQueue(a, nonce, balance);
  }

  lemma ForgetQueue(a: Account, rest: Items)
    ensures Forget(a, rest).queue == rest && Forget(a, rest).pending == a.pending
  {
  }

  /** What promotion makes of a transaction on the way. */
  lemma ReadyTx(a: Account, nonce: nat, balance: nat, ready: seq<Tx>, t: Tx)
    requires ListedByNonce(a)
    requires forall tx :: tx in ready <==>
               tx.nonce in a.queue && a.queue[tx.nonce] == tx && Runs(a, nonce, balance, tx.nonce)
    ensures t.nonce in Nonces(ready) <==> Runs(a, nonce, balance, t.nonce)
    ensures Put(a.pending, ready, t) <==> Queued(a, t) && Promoted(a, nonce, balance, t.nonce)
    ensures Replaced(a.pending, ready, t) <==> Pending(a, t) && Promoted(a, nonce, balance, t.nonce)
  {
    hide Runs, Fits;
    FitsInQueue(a, nonce, balance);
    if Runs(a, nonce, balance, t.nonce) {
      assert a.queue[t.nonce] in ready;
    }
  }

  predicate ListedByNonce(a: Account) {
    ByNonce(a.queue) && ByNonce(a.pending)
  }

  /** Demotion strands exactly the transactions that fall back and are beaten in the queue. */
  lemma DemoteStrandsIff(a: Account, nonce: nat, balance: nat, owner: Address, t: Tx)
    requires Placed(a, owner)
    ensures Strands(a, Demote(a, nonce, balance), t) <==>
              Pending(a, t) && FallsBack(a.pending, nonce, balance, t.nonce) && Beats(a.queue, t)
  {
    hide Demote;
    DemotePendingIff(a, nonce, balance, owner);
    DemoteQueueIs(a, nonce, balance, owner);
    assert Pending(a, t) ==> StaysPending(a.pending, nonce, balance, t.nonce)
                             || FallsBack(a.pending, nonce, balance, t.nonce) || Drops(a.pending, nonce, balance, t);
  }

  /**
   Removal strands exactly: what is queued under the nonce removed, what is pending behind that nonce with nothing
   below it, and what goes back and is beaten in the queue.
   */
  lemma RemoveStrandsIff(a: Account, tx: Tx, owner: Address, t: Tx)
    requires Placed(a, owner) && tx in a.known
    ensures Strands(a, Remove(a, tx), t) <==>
              t != tx &&
              ((t.nonce == tx.nonce && Listed(a, t))
               || (tx.nonce in a.pending && tx.nonce < t.nonce && Pending(a, t)
                   && (GoesBack(a, tx, t.nonce) ==> Beats(a.queue, t))))
  {
    hide Remove;
    RemovePendingIs(a, tx, owner);
    RemoveQueueIs(a, tx, owner);
  }
}
