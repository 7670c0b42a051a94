/**
 The pool as seen by one account: every operation of the pool works on the accounts it touches one by one.
 */
module Accounts {
  import opened Collections
  import opened Options
  import opened TxLists

  /** The two lists of an account, the transactions of it that the pool knows, its nonce and its heartbeat. */
  datatype Account = Account(pending: Items, queue: Items, known: set<Tx>, nonce: nat, beat: Option<nat>)

  predicate ListOf(items: Items, owner: Address) {
    forall n | n in items :: items[n].nonce == n && items[n].from == owner
  }

  /** Placement: listed transactions are known, and none is in both lists. */
  ghost predicate Placed(a: Account, owner: Address) {
    && ListOf(a.pending, owner) && ListOf(a.queue, owner)
    && (forall n | n in a.pending :: a.pending[n] in a.known)
    && (forall n | n in a.queue :: a.queue[n] in a.known)
    && (forall n | n in a.pending && n in a.queue :: a.pending[n] != a.queue[n])
    && forall tx | tx in a.known :: tx.from == owner
  }

  /** The transaction already listed under a nonce, as a set. */
  function Old(items: Items, n: nat): set<Tx> {
    if n in items then {items[n]} else {}
  }

  /** Into the queue, unless a transaction there is at least as good. */
  function Enqueue(a: Account, tx: Tx): Account {
    if Accepts(a.queue, tx)
    then a.(queue := a.queue[tx.nonce := tx], known := a.known - Old(a.queue, tx.nonce) + {tx})
    else a
  }

  function EnqueueAll(a: Account, txs: seq<Tx>): Account
    decreases |txs|
  {
    if txs == [] then a else EnqueueAll(Enqueue(a, txs[0]), txs[1..])
  }

  /** Into the pending list, unless a transaction there is at least as good; then it is forgotten. */
  function Promote(a: Account, tx: Tx, now: nat): Account {
    if Accepts(a.pending, tx)
    then a.(pending := a.pending[tx.nonce := tx], known := a.known - Old(a.pending, tx.nonce) + {tx},
            nonce := tx.nonce + 1, beat := Some(now))
    else a.(known := a.known - {tx})
  }

  function PromoteAll(a: Account, txs: seq<Tx>, now: nat): Account
    decreases |txs|
  {
    if txs == [] then a else PromoteAll(Promote(a, txs[0], now), txs[1..], now)
  }

  /** Takes a transaction and everything behind it out of the pending list; what is behind it is queued again. */
  function RemovePending(a: Account, tx: Tx): Account {
    if tx.nonce !in a.pending then a
    else
      var invalids := From(a.pending, tx.nonce + 1);
      var rest := Below(a.pending, tx.nonce);
      var a' := if rest == map[] then a.(pending := rest, beat := None)
                else EnqueueAll(a.(pending := rest), Flatten(invalids));
      a'.(nonce := if a'.nonce > tx.nonce then tx.nonce else a'.nonce)
  }

  function RemoveQueued(a: Account, tx: Tx): Account {
    a.(queue := a.queue - {tx.nonce})
  }

  function Remove(a: Account, tx: Tx): Account {
    if tx !in a.known then a
    else RemoveQueued(RemovePending(a.(known := a.known - {tx}), tx), tx)
  }

  function RemoveAll(a: Account, txs: seq<Tx>): Account
    decreases |txs|
  {
    if txs == [] then a else RemoveAll(Remove(a, txs[0]), txs[1..])
  }

  /** Keeps part of the queue and forgets the rest of it. */
  function Forget(a: Account, queue: Items): Account {
    a.(queue := queue, known := a.known - (a.queue - queue.Keys).Values)
  }

  /** Queued transactions that are too old or cannot be paid for are forgotten. */
  function Clean(a: Account, nonce: nat, balance: nat): Account {
    var recent := Forget(a, From(a.queue, nonce));
    Forget(recent, Payable(recent.queue, balance))
  }

  function PromoteReady(a: Account, now: nat): Account {
    var ready := Ready(a.queue, a.nonce);
    PromoteAll(a.(queue := a.queue - Nonces(ready)), ready, now)
  }

  function Nonces(txs: seq<Tx>): set<nat> {
    set tx | tx in txs :: tx.nonce
  }

  /** What promotion makes of an account: clean the queue, promote what is ready, cap what is left. */
  function Advance(a: Account, nonce: nat, balance: nat, now: nat, cap: nat): Account {
    var promoted := PromoteReady(Clean(a, nonce, balance), now);
    Forget(promoted, Cap(promoted.queue, cap))
  }

  /**
   What demotion makes of an account: old and unpayable transactions are forgotten, and those behind the
   lowest unpayable one queued again.
   */
  function Demote(a: Account, nonce: nat, balance: nat): Account {
    var recent := From(a.pending, nonce);
    var drops := Unpayable(recent, balance);
    var known := a.known - Below(a.pending, nonce).Values - drops.Values;
    if drops == map[] then Unbeat(a.(pending := recent, known := known))
    else
      var lowest := MinKey(drops);
      var invalids := Payable(From(recent, lowest + 1), balance);
      Unbeat(EnqueueAll(a.(pending := Below(recent, lowest), known := known), Flatten(invalids)))
  }

  /** An account with nothing pending has no heartbeat. */
  function Unbeat(a: Account): Account {
    if a.pending == map[] then a.(beat := None) else a
  }

  // ------------------------------------------------------------------ placement is kept

  lemma EnqueueKeepsPlaced(a: Account, tx: Tx, owner: Address)
    requires Placed(a, owner) && tx.from == owner
    requires tx.nonce in a.pending ==> a.pending[tx.nonce] != tx
    ensures Placed(Enqueue(a, tx), owner)
  {
    var b := Enqueue(a, tx);
    forall n | n in b.pending ensures b.pending[n] in b.known {
      if n == tx.nonce && n in a.queue {
        assert a.pending[n] != a.queue[n];
      }
    }
  }

  lemma {:induction false} EnqueueAllKeepsPlaced(a: Account, txs: seq<Tx>, owner: Address)
    requires Placed(a, owner)
    requires forall i | 0 <= i < |txs| ::
               txs[i].from == owner && (txs[i].nonce in a.pending ==> a.pending[txs[i].nonce] != txs[i])
    ensures Placed(EnqueueAll(a, txs), owner)
    ensures EnqueueAll(a, txs).pending == a.pending && EnqueueAll(a, txs).nonce == a.nonce
            && EnqueueAll(a, txs).beat == a.beat
    decreases |txs|
  {
    if txs != [] {
      EnqueueKeepsPlaced(a, txs[0], owner);
      EnqueueAllKeepsPlaced(Enqueue(a, txs[0]), txs[1..], owner);
    }
  }

  /** The order in which transactions of different nonces are queued does not matter. */
  lemma EnqueueCommutes(a: Account, s: Tx, t: Tx, owner: Address)
    requires Placed(a, owner) && s.nonce != t.nonce
    ensures Enqueue(Enqueue(a, s), t) == Enqueue(Enqueue(a, t), s)
  {
    var st, ts := Enqueue(Enqueue(a, s), t), Enqueue(Enqueue(a, t), s);
    assert st.queue == ts.queue;
    assert st.known == ts.known;
  }

  lemma PromoteKeepsPlaced(a: Account, tx: Tx, now: nat, owner: Address)
    requires Placed(a, owner) && tx.from == owner
    requires tx.nonce !in a.queue && (tx.nonce in a.pending ==> a.pending[tx.nonce] != tx)
    ensures Placed(Promote(a, tx, now), owner)
  {
  }

  lemma {:induction false} PromoteAllKeepsPlaced(a: Account, txs: seq<Tx>, now: nat, owner: Address)
    requires Placed(a, owner) && Rising(txs)
    requires forall i | 0 <= i < |txs| :: Promotable(a, txs[i], owner)
    ensures Placed(PromoteAll(a, txs, now), owner)
    ensures PromoteAll(a, txs, now).queue == a.queue
    decreases |txs|
  {
    if txs != [] {
      assert Promotable(a, txs[0], owner);
      PromoteKeepsPlaced(a, txs[0], now, owner);
      var b := Promote(a, txs[0], now);
      forall i | 0 <= i < |txs[1..]| ensures Promotable(b, txs[1..][i], owner) {
        assert Promotable(a, txs[i + 1], owner) && txs[0].nonce < txs[i + 1].nonce;
      }
      PromoteAllKeepsPlaced(b, txs[1..], now, owner);
    }
  }

  predicate Promotable(a: Account, tx: Tx, owner: Address) {
    tx.from == owner && tx.nonce !in a.queue && (tx.nonce in a.pending ==> a.pending[tx.nonce] != tx)
  }

  lemma ForgetKeepsPlaced(a: Account, queue: Items, owner: Address)
    requires Placed(a, owner) && forall n | n in queue :: n in a.queue && queue[n] == a.queue[n]
    ensures Placed(Forget(a, queue), owner)
  {
    var gone := a.queue - queue.Keys;
    forall tx | tx in gone.Values ensures tx.nonce in gone && gone[tx.nonce] == tx {
    }
  }

  lemma CleanKeepsPlaced(a: Account, nonce: nat, balance: nat, owner: Address)
    requires Placed(a, owner)
    ensures Placed(Clean(a, nonce, balance), owner)
  {
    var recent := Forget(a, From(a.queue, nonce));
    ForgetKeepsPlaced(a, From(a.queue, nonce), owner);
    ForgetKeepsPlaced(recent, Payable(recent.queue, balance), owner);
  }

  lemma ReadyHas(items: Items, start: nat, owner: Address)
    requires ListOf(items, owner)
    ensures Rising(Ready(items, start))
    ensures forall tx | tx in Ready(items, start) :: tx.nonce in items && items[tx.nonce] == tx
  {
    if items != map[] && MinKey(items) <= start {
      var n := MinKey(items);
      RunHas(items, n);
      var run := Run(items, n);
      forall i | 0 <= i < |run| ensures run[i].nonce == n + i {
        assert RunAt(items, n, run, i);
      }
      forall tx | tx in run ensures tx.nonce in items && items[tx.nonce] == tx {
        var i :| 0 <= i < |run| && run[i] == tx;
        assert RunAt(items, n, run, i);
      }
    }
  }

  lemma PromoteReadyKeepsPlaced(a: Account, now: nat, owner: Address)
    requires Placed(a, owner)
    ensures Placed(PromoteReady(a, now), owner)
    ensures PromoteReady(a, now).queue == a.queue - Nonces(Ready(a.queue, a.nonce))
  {
    var ready := Ready(a.queue, a.nonce);
    ReadyHas(a.queue, a.nonce, owner);
    var b := a.(queue := a.queue - Nonces(ready));
    forall i | 0 <= i < |ready| ensures Promotable(b, ready[i], owner) {
      assert ready[i] in ready;
    }
    PromoteAllKeepsPlaced(b, ready, now, owner);
  }

  lemma AdvanceKeepsPlaced(a: Account, nonce: nat, balance: nat, now: nat, cap: nat, owner: Address)
    requires Placed(a, owner)
    ensures Placed(Advance(a, nonce, balance, now, cap), owner)
    ensures |Advance(a, nonce, balance, now, cap).queue| <= cap
  {
    CleanKeepsPlaced(a, nonce, balance, owner);
    PromoteReadyKeepsPlaced(Clean(a, nonce, balance), now, owner);
    var promoted := PromoteReady(Clean(a, nonce, balance), now);
    CapKeepsLowest(promoted.queue, cap);
    ForgetKeepsPlaced(promoted, Cap(promoted.queue, cap), owner);
  }

  /** Promotion leaves an account without queued transactions alone. */
  lemma AdvanceNothing(a: Account, nonce: nat, balance: nat, now: nat, cap: nat)
    requires a.queue == map[]
    ensures Advance(a, nonce, balance, now, cap) == a
  {
    assert Forget(a, From(a.queue, nonce)) == a;
    assert Forget(a, Payable(a.queue, balance)) == a;
    assert Ready(a.queue, a.nonce) == [];
    assert a.queue - Nonces([]) == a.queue;
  }

  lemma CleanSteps(a: Account, nonce: nat, balance: nat, owner: Address)
    requires Placed(a, owner)
    ensures ListOf(a.queue, owner) && From(a.queue, nonce).Keys <= a.queue.Keys
    ensures var b := Forget(a, From(a.queue, nonce));
            && ListOf(b.queue, owner) && Payable(b.queue, balance).Keys <= b.queue.Keys
            && Forget(b, Payable(b.queue, balance)) == Clean(a, nonce, balance)
  {
  }

  /** The stages of promotion, with what holds at each of them. */
  lemma AdvanceSteps(a: Account, nonce: nat, balance: nat, now: nat, cap: nat, owner: Address)
    requires Placed(a, owner)
    ensures Placed(Clean(a, nonce, balance), owner)
    ensures var promoted := PromoteReady(Clean(a, nonce, balance), now);
            && ListOf(promoted.queue, owner)
            && Cap(promoted.queue, cap).Keys <= promoted.queue.Keys
            && Forget(promoted, Cap(promoted.queue, cap)) == Advance(a, nonce, balance, now, cap)
    ensures Placed(Advance(a, nonce, balance, now, cap), owner)
  {
    CleanKeepsPlaced(a, nonce, balance, owner);
    PromoteReadyKeepsPlaced(Clean(a, nonce, balance), now, owner);
    CapKeepsLowest(PromoteReady(Clean(a, nonce, balance), now).queue, cap);
    AdvanceKeepsPlaced(a, nonce, balance, now, cap, owner);
  }

  /** What removing a known transaction leaves before anything is queued again, and what is. */
  function Rest(a: Account, tx: Tx): Account {
    a.(known := a.known - {tx}, queue := a.queue - {tx.nonce},
       pending := if tx.nonce in a.pending then Below(a.pending, tx.nonce) else a.pending)
  }

  function Again(a: Account, tx: Tx): Items {
    if tx.nonce in a.pending && Below(a.pending, tx.nonce) != map[] then From(a.pending, tx.nonce + 1) else map[]
  }

  lemma RestKeepsPlaced(a: Account, tx: Tx, owner: Address)
    requires Placed(a, owner)
    ensures Placed(Rest(a, tx), owner) && ByNonce(Again(a, tx)) && ByNonce(a.queue)
    ensures var again := Again(a, tx);
            forall n | n in again :: again[n].from == owner && n !in Rest(a, tx).pending && n != tx.nonce
  {
  }

  lemma RemoveIs(a: Account, tx: Tx)
    requires tx in a.known && ByNonce(a.queue) && ByNonce(Again(a, tx)) && tx.nonce !in Again(a, tx)
    ensures var b, c := Remove(a, tx), EnqueueAll(Rest(a, tx), Flatten(Again(a, tx)));
            b.pending == c.pending && b.queue == c.queue && b.known == c.known
  {
    hide Flatten, From, Below, Enqueue;
    var b := a.(known := a.known - {tx}, pending := Rest(a, tx).pending);
    FlattenMembers(Again(a, tx));
    assert Flatten(map[]) == [];
    RequeueApart(b, Flatten(Again(a, tx)), tx);
  }

  lemma RemoveKeepsPlaced(a: Account, tx: Tx, owner: Address)
    requires Placed(a, owner)
    ensures Placed(Remove(a, tx), owner)
    ensures tx !in Remove(a, tx).known
  {
    hide EnqueueAll, Flatten, Enqueue, Again, Rest, RemovePending;
    RemoveForgets(a, tx, owner);
    if tx in a.known {
      RestKeepsPlaced(a, tx, owner);
      RemoveIs(a, tx);
      FlattenMembers(Again(a, tx));
      RequeueKeepsPlaced(Rest(a, tx), Flatten(Again(a, tx)), owner);
      PlacedFields(EnqueueAll(Rest(a, tx), Flatten(Again(a, tx))), Remove(a, tx), owner);
    }
  }

  /** Placement is about the lists and the known transactions only. */
  lemma PlacedFields(a: Account, b: Account, owner: Address)
    requires Placed(a, owner) && b.queue == a.queue && b.known == a.known && b.pending == a.pending
    ensures Placed(b, owner)
  {
  }

  lemma RequeueKeepsPlaced(a: Account, txs: seq<Tx>, owner: Address)
    requires Placed(a, owner) && forall tx | tx in txs :: tx.from == owner && tx.nonce !in a.pending
    ensures Placed(EnqueueAll(a, txs), owner)
  {
    forall i | 0 <= i < |txs| ensures txs[i].from == owner && txs[i].nonce !in a.pending {
      assert txs[i] in txs;
    }
    EnqueueAllKeepsPlaced(a, txs, owner);
  }

  /** Queueing transactions of other nonces leaves a nonce of the queue, and its transaction, alone. */
  lemma {:induction false} RequeueApart(a: Account, txs: seq<Tx>, tx: Tx)
    requires forall t | t in txs :: t.nonce != tx.nonce
    requires forall n | n in a.queue :: a.queue[n].nonce == n
    ensures var b, c := EnqueueAll(a, txs), EnqueueAll(a.(queue := a.queue - {tx.nonce}), txs);
            && c.queue == b.queue - {tx.nonce} && c.known == b.known
            && b.pending == c.pending == a.pending && b.nonce == c.nonce == a.nonce && b.beat == c.beat == a.beat
            && (tx in b.known <==> tx in a.known)
    decreases |txs|
  {
    if txs != [] {
      var t := txs[0];
      assert t in txs;
      RequeueApart(Enqueue(a, t), txs[1..], tx);
      assert Enqueue(a, t).queue - {tx.nonce} == Enqueue(a.(queue := a.queue - {tx.nonce}), t).queue;
    }
  }

  /** Keeping part of the pending list and forgetting some of the rest. */
  lemma KeepPart(a: Account, rest: Items, gone: set<Tx>, owner: Address)
    requires Placed(a, owner)
    requires forall n | n in rest :: n in a.pending && rest[n] == a.pending[n]
    requires forall tx | tx in gone :: tx.nonce in a.pending && a.pending[tx.nonce] == tx && tx.nonce !in rest
    ensures Placed(a.(pending := rest, known := a.known - gone), owner)
  {
    forall n | n in a.queue ensures a.queue[n] !in gone {
    }
  }

  /** What demotion forgets: the transactions below the nonce and the unpayable ones. */
  function Demoted(a: Account, nonce: nat, balance: nat): set<Tx> {
    Below(a.pending, nonce).Values + Unpayable(From(a.pending, nonce), balance).Values
  }

  lemma DemotedHas(a: Account, nonce: nat, balance: nat, owner: Address)
    requires ListOf(a.pending, owner)
    ensures forall tx | tx in Demoted(a, nonce, balance) ::
              tx.nonce in a.pending && a.pending[tx.nonce] == tx && (tx.nonce < nonce || balance < tx.cost)
  {
  }

  /** What demotion keeps pending. */
  function StillPending(a: Account, nonce: nat, balance: nat): Items {
    var recent := From(a.pending, nonce);
    var drops := Unpayable(recent, balance);
    if drops == map[] then recent else Below(recent, MinKey(drops))
  }

  /** What demotion queues again. */
  function Requeued(a: Account, nonce: nat, balance: nat): Items {
    var recent := From(a.pending, nonce);
    var drops := Unpayable(recent, balance);
    if drops == map[] then map[] else Payable(From(recent, MinKey(drops) + 1), balance)
  }

  lemma DemoteIs(a: Account, nonce: nat, balance: nat)
    ensures Demote(a, nonce, balance) ==
            Unbeat(EnqueueAll(a.(pending := StillPending(a, nonce, balance),
                                 known := a.known - Demoted(a, nonce, balance)),
                              Flatten(Requeued(a, nonce, balance))))
  {
    var drops := Unpayable(From(a.pending, nonce), balance);
    assert a.known - Below(a.pending, nonce).Values - drops.Values == a.known - Demoted(a, nonce, balance);
    assert Flatten(map[]) == [];
  }

  /** What stays pending is payable and recent, and what is queued again was pending and is both as well. */
  lemma StillPendingHas(a: Account, nonce: nat, balance: nat, owner: Address)
    requires ListOf(a.pending, owner)
    ensures var still := StillPending(a, nonce, balance);
            forall n | n in still :: n in a.pending && still[n] == a.pending[n] && nonce <= n
              && still[n].cost <= balance
    ensures var again := Requeued(a, nonce, balance);
            forall n | n in again :: n in a.pending && again[n] == a.pending[n] && nonce <= n
              && again[n].cost <= balance
                                     && n !in StillPending(a, nonce, balance)
  {
    var recent := From(a.pending, nonce);
    var drops := Unpayable(recent, balance);
    var still := StillPending(a, nonce, balance);
    forall n | n in still ensures still[n].cost <= balance {
      assert n !in drops;
    }
  }

  lemma DemoteKeepsPlaced(a: Account, nonce: nat, balance: nat, owner: Address)
    requires Placed(a, owner)
    ensures Placed(Demote(a, nonce, balance), owner)
  {
    DemotedHas(a, nonce, balance, owner);
    StillPendingHas(a, nonce, balance, owner);
    DemoteIs(a, nonce, balance);
    hide Demoted, Requeued, StillPending, Flatten, EnqueueAll, Demote;
    var still, again := StillPending(a, nonce, balance), Requeued(a, nonce, balance);
    KeepPart(a, still, Demoted(a, nonce, balance), owner);
    var b := a.(pending := still, known := a.known - Demoted(a, nonce, balance));
    FlattenMembers(again);
    RequeueKeepsPlaced(b, Flatten(again), owner);
    UnbeatKeepsPlaced(EnqueueAll(b, Flatten(again)), owner);
  }

  lemma UnbeatKeepsPlaced(a: Account, owner: Address)
    requires Placed(a, owner)
    ensures Placed(Unbeat(a), owner)
  {
  }

  /** Capping the pending list forgets nothing, so what is cut off stays known. */
  lemma CapPendingKeepsPlaced(a: Account, k: nat, owner: Address)
    requires Placed(a, owner)
    ensures Placed(a.(pending := Cap(a.pending, k)), owner)
  {
    CapKeepsLowest(a.pending, k);
  }

  // ------------------------------------------------------------------ heartbeats and what is known

  /** Exactly the accounts with something pending have a heartbeat. */
  predicate Alive(a: Account) {
    a.beat.Some? <==> a.pending != map[]
  }

  lemma {:induction false} PromoteAllKeepsAlive(a: Account, txs: seq<Tx>, now: nat)
    requires Alive(a)
    ensures Alive(PromoteAll(a, txs, now))
    decreases |txs|
  {
    if txs != [] {
      PromoteAllKeepsAlive(Promote(a, txs[0], now), txs[1..], now);
    }
  }

  lemma AdvanceKeepsAlive(a: Account, nonce: nat, balance: nat, now: nat, cap: nat)
    requires Alive(a)
    ensures Alive(Advance(a, nonce, balance, now, cap))
  {
    var b := Clean(a, nonce, balance);
    var ready := Ready(b.queue, b.nonce);
    PromoteAllKeepsAlive(b.(queue := b.queue - Nonces(ready)), ready, now);
  }

  /** Queueing touches nothing but the queue, and makes known only what is queued. */
  lemma {:induction false} EnqueueAllLeaves(a: Account, txs: seq<Tx>)
    ensures var b := EnqueueAll(a, txs);
            && b.pending == a.pending && b.nonce == a.nonce && b.beat == a.beat
            && forall t | t in b.known :: t in a.known || t in txs
    decreases |txs|
  {
    if txs != [] {
      EnqueueAllLeaves(Enqueue(a, txs[0]), txs[1..]);
    }
  }

  lemma RemovePendingHas(a: Account, tx: Tx)
    requires ByNonce(a.pending)
    ensures tx.nonce !in a.pending ==> RemovePending(a, tx) == a
    ensures tx.nonce in a.pending ==>
            var b := RemovePending(a, tx);
            && b.pending == Below(a.pending, tx.nonce) && b.beat == (if b.pending == map[] then None else a.beat)
            && forall t | t in b.known ::
                 t in a.known || (t.nonce in a.pending && a.pending[t.nonce] == t && tx.nonce < t.nonce)
  {
    hide EnqueueAll, Flatten, Below;
    var invalids := From(a.pending, tx.nonce + 1);
    FlattenMembers(invalids);
    EnqueueAllLeaves(a.(pending := Below(a.pending, tx.nonce)), Flatten(invalids));
  }

  /** Removal never makes a transaction known, and forgets the one removed. */
  lemma RemoveForgets(a: Account, tx: Tx, owner: Address)
    requires Placed(a, owner)
    ensures Remove(a, tx).known <= a.known - {tx}
    ensures Alive(a) ==> Alive(Remove(a, tx))
  {
    hide RemovePending, Below, From;
    if tx in a.known {
      RemovePendingHas(a.(known := a.known - {tx}), tx);
    }
  }

  lemma DemoteKeepsAlive(a: Account, nonce: nat, balance: nat, owner: Address)
    requires Alive(a) && Placed(a, owner)
    ensures Alive(Demote(a, nonce, balance))
    ensures Demote(a, nonce, balance).pending == StillPending(a, nonce, balance)
    ensures Demote(a, nonce, balance).nonce == a.nonce
  {
    hide EnqueueAll, Flatten, Requeued, Demoted, Demote, StillPending;
    DemoteIs(a, nonce, balance);
    StillPendingHas(a, nonce, balance, owner);
    EnqueueAllLeaves(a.(pending := StillPending(a, nonce, balance), known := a.known - Demoted(a, nonce, balance)),
                     Flatten(Requeued(a, nonce, balance)));
  }

  lemma CapPendingKeepsAlive(a: Account, k: nat)
    requires Alive(a) && (0 < k || a.pending == map[])
    ensures Alive(a.(pending := Cap(a.pending, k)))
  {
    CapKeepsLowest(a.pending, k);
    if a.pending != map[] {
      KeysNotEmpty(a.pending);
      assert |a.pending.Keys| == |a.pending|;
    }
  }

  // ------------------------------------------------------------------ what operations make known

  lemma {:induction false} PromoteAllKnows(a: Account, txs: seq<Tx>, now: nat)
    ensures forall t | t in PromoteAll(a, txs, now).known :: t in a.known || t in txs
    decreases |txs|
  {
    if txs != [] {
      PromoteAllKnows(Promote(a, txs[0], now), txs[1..], now);
    }
  }

  /** Promotion makes nothing known. */
  lemma AdvanceKnows(a: Account, nonce: nat, balance: nat, now: nat, cap: nat, owner: Address)
    requires Placed(a, owner)
    ensures Advance(a, nonce, balance, now, cap).known <= a.known
  {
    hide PromoteAll, Ready, Cap;
    CleanKeepsPlaced(a, nonce, balance, owner);
    var b := Clean(a, nonce, balance);
    var ready := Ready(b.queue, b.nonce);
    ReadyHas(b.queue, b.nonce, owner);
    PromoteAllKnows(b.(queue := b.queue - Nonces(ready)), ready, now);
  }

  /** Neither does demotion, and what it leaves pending was pending. */
  lemma DemoteKnows(a: Account, nonce: nat, balance: nat, owner: Address)
    requires Placed(a, owner)
    ensures var b := Demote(a, nonce, balance); b.known <= a.known && b.pending.Keys <= a.pending.Keys
  {
    hide EnqueueAll, Flatten, Requeued, Demoted, Demote, StillPending;
    DemoteIs(a, nonce, balance);
    StillPendingHas(a, nonce, balance, owner);
    FlattenMembers(Requeued(a, nonce, balance));
    EnqueueAllLeaves(a.(pending := StillPending(a, nonce, balance), known := a.known - Demoted(a, nonce, balance)),
                     Flatten(Requeued(a, nonce, balance)));
  }

  // ------------------------------------------------------------------ trimming the queue

  /** No queued transaction shares its nonce with a pending one. */
  predicate Apart(a: Account) {
    forall n | n in a.queue :: n !in a.pending
  }

  /** Queueing a transaction keeps the lists apart exactly when its nonce is not pending. */
  lemma EnqueueKeepsApartIff(a: Account, tx: Tx)
    requires Apart(a)
    ensures Apart(Enqueue(a, tx)) <==> tx.nonce !in a.pending
  {
    if Accepts(a.queue, tx) {
      assert tx.nonce in Enqueue(a, tx).queue;
    }
  }

  lemma {:induction false} EnqueueAllKeepsApart(a: Account, txs: seq<Tx>)
    requires Apart(a) && forall tx | tx in txs :: tx.nonce !in a.pending
    ensures Apart(EnqueueAll(a, txs))
    decreases |txs|
  {
    if txs != [] {
      assert txs[0] in txs;
      EnqueueKeepsApartIff(a, txs[0]);
      EnqueueAllKeepsApart(Enqueue(a, txs[0]), txs[1..]);
    }
  }

  lemma {:induction false} PromoteAllKeys(a: Account, txs: seq<Tx>, now: nat)
    ensures var b := PromoteAll(a, txs, now);
            && b.queue == a.queue
            && (forall n | n in b.pending :: n in a.pending || n in Nonces(txs))
            && forall n | n in a.pending :: n in b.pending
    decreases |txs|
  {
    if txs != [] {
      PromoteAllKeys(Promote(a, txs[0], now), txs[1..], now);
      assert txs[0] in txs && forall tx | tx in txs[1..] :: tx in txs;
    }
  }

  /** Promoting what is ready leaves the lists apart exactly if nothing that stays queued is pending. */
  lemma PromoteReadyKeepsApartIff(a: Account, now: nat)
    ensures var left := a.queue - Nonces(Ready(a.queue, a.nonce));
            Apart(PromoteReady(a, now)) <==> forall n | n in left :: n !in a.pending
  {
    hide PromoteAll, Ready;
    var ready := Ready(a.queue, a.nonce);
    PromoteAllKeys(a.(queue := a.queue - Nonces(ready)), ready, now);
  }

  /** What promotion leaves queued: of the recent and payable transactions those that are not ready, up to the cap. */
  function LeftQueued(a: Account, nonce: nat, balance: nat, cap: nat): Items {
    var b := Clean(a, nonce, balance);
    Cap(b.queue - Nonces(Ready(b.queue, b.nonce)), cap)
  }

  /** Nothing that promotion leaves queued is pending already. */
  predicate SettlesApart(a: Account, nonce: nat, balance: nat, cap: nat) {
    forall n | n in LeftQueued(a, nonce, balance, cap) :: n !in a.pending
  }

  /** Promotion leaves the lists apart exactly if nothing it leaves queued was pending before. */
  lemma AdvanceKeepsApartIff(a: Account, nonce: nat, balance: nat, now: nat, cap: nat)
    ensures Advance(a, nonce, balance, now, cap).queue == LeftQueued(a, nonce, balance, cap)
    ensures Apart(Advance(a, nonce, balance, now, cap)) <==> SettlesApart(a, nonce, balance, cap)
  {
    hide PromoteAll, Ready, Cap;
    var b := Clean(a, nonce, balance);
    var ready := Ready(b.queue, b.nonce);
    var left := b.queue - Nonces(ready);
    PromoteAllKeys(b.(queue := left), ready, now);
    CapKeepsLowest(left, cap);
  }

  lemma ApartSettles(a: Account, nonce: nat, balance: nat, cap: nat)
    requires Apart(a)
    ensures SettlesApart(a, nonce, balance, cap)
  {
    hide Cap, Ready;
    var b := Clean(a, nonce, balance);
    CapKeepsLowest(b.queue - Nonces(Ready(b.queue, b.nonce)), cap);
  }

  lemma RemoveKeepsApart(a: Account, tx: Tx, owner: Address)
    requires Placed(a, owner) && Apart(a)
    ensures Apart(Remove(a, tx))
  {
    hide EnqueueAll, Flatten, RemovePending;
    if tx in a.known {
      RestKeepsPlaced(a, tx, owner);
      RemoveIs(a, tx);
      FlattenMembers(Again(a, tx));
      EnqueueAllKeepsApart(Rest(a, tx), Flatten(Again(a, tx)));
    }
  }

  lemma RemovePendingShrinks(a: Account, tx: Tx, owner: Address)
    requires Placed(a, owner)
    ensures Remove(a, tx).pending.Keys <= a.pending.Keys
  {
    hide RemovePending;
    RemovePendingHas(a.(known := a.known - {tx}), tx);
  }

  lemma {:induction false} RemoveAllKeeps(a: Account, txs: seq<Tx>, owner: Address)
    requires Placed(a, owner)
    ensures var b := RemoveAll(a, txs);
            && Placed(b, owner) && (Alive(a) ==> Alive(b)) && (Apart(a) ==> Apart(b))
            && b.known <= a.known && (forall tx | tx in txs :: tx !in b.known)
            && b.pending.Keys <= a.pending.Keys
    decreases |txs|
  {
    hide Remove, Placed, Alive, Apart;
    if txs != [] {
      RemovePendingShrinks(a, txs[0], owner);
      RemoveKeepsPlaced(a, txs[0], owner);
      RemoveForgets(a, txs[0], owner);
      if Apart(a) {
        RemoveKeepsApart(a, txs[0], owner);
      }
      RemoveAllKeeps(Remove(a, txs[0]), txs[1..], owner);
    }
  }

  lemma DemoteKeepsApart(a: Account, nonce: nat, balance: nat, owner: Address)
    requires Placed(a, owner) && Apart(a)
    ensures Apart(Demote(a, nonce, balance))
  {
    hide EnqueueAll, Flatten, Requeued, Demoted, Demote, StillPending;
    DemoteIs(a, nonce, balance);
    StillPendingHas(a, nonce, balance, owner);
    FlattenMembers(Requeued(a, nonce, balance));
    EnqueueAllKeepsApart(a.(pending := StillPending(a, nonce, balance), known := a.known - Demoted(a, nonce, balance)),
                         Flatten(Requeued(a, nonce, balance)));
  }

  /** Removing a queued transaction whose nonce is not pending takes it out of the queue and does nothing else. */
  lemma RemoveQueuedOnly(a: Account, n: nat, owner: Address)
    requires Placed(a, owner) && n in a.queue && n !in a.pending
    ensures Remove(a, a.queue[n]) == Forget(a, a.queue - {n})
    ensures Apart(a) ==> Apart(Forget(a, a.queue - {n}))
  {
    var rest := a.queue - {n};
    var gone := a.queue - rest.Keys;
    assert gone == map[n := a.queue[n]];
    assert n in gone && gone[n] == a.queue[n];
    assert gone.Values == {a.queue[n]};
  }

  /** Only then: removing a queued transaction whose nonce is pending as well takes pending transactions with it. */
  lemma RemoveLeavesPendingIff(a: Account, n: nat, owner: Address)
    requires Placed(a, owner) && n in a.queue
    ensures Remove(a, a.queue[n]).pending == a.pending <==> n !in a.pending
  {
    hide RemovePending;
    var tx := a.queue[n];
    RemovePendingHas(a.(known := a.known - {tx}), tx);
    assert n !in Below(a.pending, n);
  }

  /** Forgetting in steps is forgetting once. */
  lemma ForgetTwice(a: Account, some: Items, rest: Items, owner: Address)
    requires Placed(a, owner)
    requires forall n | n in some :: n in a.queue && some[n] == a.queue[n]
    requires forall n | n in rest :: n in some && rest[n] == some[n]
    ensures Forget(Forget(a, some), rest) == Forget(a, rest)
  {
    var first, second, both := a.queue - some.Keys, some - rest.Keys, a.queue - rest.Keys;
    forall tx ensures tx in first.Values || tx in second.Values <==> tx in both.Values {
      assert tx in first.Values <==> tx.nonce in first && first[tx.nonce] == tx;
      assert tx in second.Values <==> tx.nonce in second && second[tx.nonce] == tx;
      assert tx in both.Values <==> tx.nonce in both && both[tx.nonce] == tx;
    }
    assert a.known - first.Values - second.Values == a.known - both.Values;
  }

  /** Removing all queued transactions one by one empties the queue and does nothing else. */
  lemma {:induction false} RemoveWholeQueue(a: Account, owner: Address)
    requires Placed(a, owner) && Apart(a)
    ensures RemoveAll(a, Flatten(a.queue)) == Forget(a, map[])
    decreases |a.queue|
  {
    if a.queue == map[] {
      var none: Items := map[];
      assert (a.queue - none.Keys).Values == {};
    } else {
      var n := MinKey(a.queue);
      var rest := a.queue - {n};
      RemoveOne(a.queue, n);
      RemoveQueuedOnly(a, n, owner);
      ForgetKeepsPlaced(a, rest, owner);
      FlattenStep(a.queue);
      var b := Forget(a, rest);
      RemoveWholeQueue(b, owner);
      ForgetTwice(a, rest, map[], owner);
      assert Flatten(a.queue)[1..] == Flatten(rest);
    }
  }

  lemma PlacedIsByNonce(a: Account, owner: Address)
    requires Placed(a, owner)
    ensures ByNonce(a.queue)
  {
  }

  /** Removing the highest of the k + 1 lowest queued transactions leaves the k lowest. */
  lemma RemoveHighest(a: Account, k: nat, owner: Address)
    requires Placed(a, owner) && Apart(a) && k < |a.queue|
    ensures var b := Forget(a, Cap(a.queue, k + 1));
            && Placed(b, owner) && Apart(b)
            && Remove(b, Flatten(a.queue)[k]) == Forget(a, Cap(a.queue, k))
  {
    hide Cap, Flatten, Placed, Remove, MaxKey;
    PlacedIsByNonce(a, owner);
    var low := Cap(a.queue, k + 1);
    CapKeepsLowest(a.queue, k + 1);
    CapKeepsLowest(a.queue, k);
    CapTwice(a.queue, k + 1, k);
    FlattenAt(a.queue, k);
    ForgetKeepsPlaced(a, low, owner);
    var b := Forget(a, low);
    DropHighest(low);
    RemoveQueuedOnly(b, MaxKey(low), owner);
    ForgetTwice(a, low, Cap(a.queue, k), owner);
  }

  /** The queued transactions removed so that k of them are left: all of them upwards, or the highest downwards. */
  function Removed(items: Items, k: nat): seq<Tx> {
    if k == 0 || |items| < k then Flatten(items) else Reverse(Flatten(items)[k..])
  }

  lemma {:induction false} RemoveAllAppend(a: Account, txs: seq<Tx>, tx: Tx)
    ensures RemoveAll(a, txs + [tx]) == Remove(RemoveAll(a, txs), tx)
    decreases |txs|
  {
    hide Remove;
    if txs == [] {
      assert txs + [tx] == [tx] && [tx][1..] == [];
    } else {
      assert (txs + [tx])[0] == txs[0] && (txs + [tx])[1..] == txs[1..] + [tx];
      RemoveAllAppend(Remove(a, txs[0]), txs[1..], tx);
    }
  }

  /** Removing the highest queued transactions one by one leaves the k lowest and does nothing else. */
  lemma {:induction false} RemoveDownTo(a: Account, k: nat, owner: Address)
    requires Placed(a, owner) && Apart(a) && k <= |a.queue|
    ensures RemoveAll(a, Reverse(Flatten(a.queue)[k..])) == Forget(a, Cap(a.queue, k))
    decreases |a.queue| - k
  {
    hide Remove, Flatten, Cap, Placed, Apart, Forget;
    var txs := Flatten(a.queue);
    if k == |a.queue| {
      assert txs[k..] == [];
      ForgetNothing(a);
    } else {
      RemoveDownTo(a, k + 1, owner);
      RemoveHighest(a, k, owner);
      assert txs[k..][0] == txs[k] && txs[k..][1..] == txs[k + 1..];
      RemoveAllAppend(a, Reverse(txs[k + 1..]), txs[k]);
    }
  }

  lemma NothingRemoved(a: Account)
    ensures RemoveAll(a, Reverse([])) == a && RemoveAll(a, []) == a
  {
  }

  lemma ReverseFrom(txs: seq<Tx>, i: nat)
    requires i < |txs|
    ensures Reverse(txs[i..]) == Reverse(txs[i + 1..]) + [txs[i]]
  {
    assert txs[i..][0] == txs[i] && txs[i..][1..] == txs[i + 1..];
  }

  lemma ForgetNothing(a: Account)
    ensures Forget(a, Cap(a.queue, |a.queue|)) == a
  {
    assert Cap(a.queue, |a.queue|) == a.queue;
    assert a.queue - a.queue.Keys == map[];
  }

  /** When no queued nonce is pending, the removals leave the k lowest queued transactions and do nothing else. */
  lemma RemovedWhenApart(a: Account, k: nat, owner: Address)
    requires Placed(a, owner) && Apart(a) && k <= |a.queue|
    ensures RemoveAll(a, Removed(a.queue, k)) == Forget(a, Cap(a.queue, k))
  {
    hide RemoveAll, Flatten, Cap, Placed, Apart, Forget, Reverse;
    if k == 0 {
      RemoveWholeQueue(a, owner);
      CapNothing(a.queue);
    } else {
      RemoveDownTo(a, k, owner);
    }
  }

  lemma CapNothing(items: Items)
    ensures Cap(items, 0) == map[]
  {
    CapKeepsLowest(items, 0);
  }

  /** The queued transactions removed so that k are left are those that are not among the k lowest. */
  lemma RemovedAre(items: Items, k: nat)
    requires ByNonce(items) && k <= |items|
    ensures Distinct(Removed(items, k))
    ensures forall tx :: tx in Removed(items, k) <==>
              tx.nonce in items && items[tx.nonce] == tx && tx.nonce !in Cap(items, k)
  {
    hide Flatten, Cap, Reverse, Rising, Distinct;
    var txs := Flatten(items);
    FlattenMembers(items);
    FlattenRises(items);
    SplitRising(txs, k);
    FlattenCap(items, k);
    CapKeepsLowest(items, k);
    FlattenMembers(Cap(items, k));
    RemovedIs(items, k);
    forall tx ensures tx in Removed(items, k) <==> tx in txs && tx !in txs[..k] {
      ReverseHas(txs[k..], tx);
    }
  }

  /** All of them are removed upwards, but in either order they are the ones behind the k lowest. */
  lemma RemovedIs(items: Items, k: nat)
    requires k <= |items| && Distinct(Flatten(items)[k..])
    ensures Distinct(Removed(items, k))
    ensures forall tx :: tx in Removed(items, k) <==> tx in Reverse(Flatten(items)[k..])
  {
    hide Flatten;
    var txs := Flatten(items);
    assert txs[0..] == txs;
    forall tx ensures tx in Reverse(txs[k..]) <==> tx in txs[k..] {
      ReverseHas(txs[k..], tx);
    }
  }

  lemma SplitRising(txs: seq<Tx>, k: nat)
    requires Rising(txs) && k <= |txs|
    ensures Distinct(txs[k..])
    ensures forall tx :: tx in txs[k..] <==> tx in txs && tx !in txs[..k]
  {
    assert txs == txs[..k] + txs[k..];
    forall tx | tx in txs[k..] ensures tx in txs && tx !in txs[..k] {
      var i :| 0 <= i < |txs[k..]| && txs[k..][i] == tx;
      assert txs[k + i] == tx;
    }
  }

  /**
   Removing queued transactions one by one leaves the pending list alone exactly if none of their nonces is
   pending.
   */
  lemma {:induction false} RemoveAllLeavesPendingIff(a: Account, txs: seq<Tx>, owner: Address)
    requires Placed(a, owner) && Distinct(txs)
    requires forall tx | tx in txs :: tx.nonce in a.queue && a.queue[tx.nonce] == tx
    ensures RemoveAll(a, txs).pending == a.pending <==> forall tx | tx in txs :: tx.nonce !in a.pending
    decreases |txs|
  {
    hide Remove, Placed, Apart, Forget;
    if txs != [] {
      var tx, rest := txs[0], txs[1..];
      assert tx in txs && forall t | t in rest :: t in txs;
      var b := Remove(a, tx);
      RemoveKeepsPlaced(a, tx, owner);
      if tx.nonce in a.pending {
        RemoveTakesNonce(a, tx, owner);
        RemoveAllKeeps(b, rest, owner);
      } else {
        RemoveQueuedOnly(a, tx.nonce, owner);
        OthersStayQueued(a, txs);
        RemoveAllLeavesPendingIff(b, rest, owner);
        assert forall t | t in txs :: t == tx || t in rest;
      }
    }
  }

  lemma RemoveTakesNonce(a: Account, tx: Tx, owner: Address)
    requires Placed(a, owner) && tx.nonce in a.queue && a.queue[tx.nonce] == tx
    ensures tx.nonce !in Remove(a, tx).pending
  {
    hide RemovePending;
    RemovePendingHas(a.(known := a.known - {tx}), tx);
  }

  lemma OthersStayQueued(a: Account, txs: seq<Tx>)
    requires txs != [] && Distinct(txs) && forall tx | tx in txs :: tx.nonce in a.queue && a.queue[tx.nonce] == tx
    ensures var b := Forget(a, a.queue - {txs[0].nonce});
            && b.pending == a.pending && Distinct(txs[1..])
            && forall tx | tx in txs[1..] :: tx.nonce in b.queue && b.queue[tx.nonce] == tx
  {
    forall tx | tx in txs[1..] ensures tx.nonce != txs[0].nonce {
      var i :| 0 <= i < |txs[1..]| && txs[1..][i] == tx;
      assert txs[0] != txs[i + 1] && txs[0] in txs && txs[i + 1] in txs;
    }
  }
}
