/**
 The client's objects behind the submission of transactions, each method proved to be a step of the state
 machine: a transaction with its future receipt, the poller, and the client with its queue and nonce.
 */
module TransactionSubmitter {
  import opened Options
  import opened Submission

  class TransactionAndReceipt {
    const nonce: nat
    var failures: nat  // how many failures are on record
    var receipt: Option<Receipt>

    function Value(): Item
      reads this
    {
      Item(nonce, failures, receipt)
    }

    constructor (nonce: nat)
      ensures Value() == Item(nonce, 0, None)
    {
      this.nonce, failures, receipt := nonce, 0, None;
    }

    method Complete(receipt: Receipt)
      modifies `receipt
      ensures Value() == Submission.Complete(old(Value()), receipt)
    {
      if this.receipt.None? {
        this.receipt := Some(receipt);
      }
    }

    /** Records a failed submission; true if there is to be another one. */
    method Failed() returns (retry: bool)
      modifies `failures
      ensures Value() == old(Value()).(failures := old(failures) + 1) && retry == (failures <= MAX_RETRIES)
    {
      failures := failures + 1;
      retry := failures <= MAX_RETRIES;
    }
  }

  /** What the node says when asked for a receipt. */
  datatype Answer = Mined(receipt: Receipt) | NotMined | Failing

  ghost function ItemsOf(pending: map<TransactionHash, TransactionAndReceipt>): map<TransactionHash, Item>
    reads pending.Values
  {
    map h | h in pending :: pending[h].Value()
  }

  class TransactionPoller {
    var pendingTransactions: map<TransactionHash, TransactionAndReceipt>

    constructor ()
      ensures pendingTransactions == map[]
    {
      pendingTransactions := map[];
    }

    method AddPendingTransaction(hash: TransactionHash, t: TransactionAndReceipt)
      modifies this
      ensures pendingTransactions == old(pendingTransactions)[hash := t]
    {
      pendingTransactions := pendingTransactions[hash := t];
    }

    /**
     Asks for the receipts of all pending transactions and completes the ones that have one, until asking
     goes wrong.
     */
    method Ask(node: TransactionHash -> Answer)
      returns (completedTransactions: set<TransactionHash>, finished: bool, ghost mined: map<TransactionHash, Receipt>)
      requires Apart(pendingTransactions)
      modifies pendingTransactions.Values
      ensures mined.Keys == completedTransactions <= pendingTransactions.Keys
      ensures forall h | h in mined :: node(h) == Mined(mined[h])
      ensures finished <==> forall h | h in pendingTransactions :: !node(h).Failing?
      ensures finished ==> forall h | h in pendingTransactions && node(h).Mined? :: h in mined
      ensures forall h | h in pendingTransactions ::
                pendingTransactions[h].Value() == if h in mined
                    then Submission.Complete(old(pendingTransactions[h].Value()), mined[h])
                                                  else old(pendingTransactions[h].Value())
    {
      var asked := pendingTransactions.Keys;
      completedTransactions, finished, mined := {}, true, map[];
      while asked != {}
        invariant asked <= pendingTransactions.Keys
        invariant mined.Keys == completedTransactions && completedTransactions <= pendingTransactions.Keys - asked
        invariant forall h | h in mined :: node(h) == Mined(mined[h])
        invariant forall h | h in pendingTransactions && h !in asked ::
                    !node(h).Failing? && (node(h).Mined? ==> h in mined)
        invariant forall h | h in pendingTransactions ::
                    pendingTransactions[h].Value() == if h in mined
                        then Submission.Complete(old(pendingTransactions[h].Value()), mined[h])
                                                      else old(pendingTransactions[h].Value())
        decreases asked
      {
        var h :| h in asked;
        match node(h) {
          case Mined(receipt) =>
            completedTransactions := completedTransactions + {h};
            mined := mined[h := receipt];
            pendingTransactions[h].Complete(receipt);
          case NotMined =>
          case Failing =>
            finished := false;
            return;
        }
        asked := asked - {h};
      }
    }

    /** One poll: completed transactions stop being pending, unless asking goes wrong. */
    method Run(node: TransactionHash -> Answer)
      returns (ghost mined: map<TransactionHash, Receipt>, ghost finished: bool)
      requires Apart(pendingTransactions)
      modifies this, pendingTransactions.Values
      ensures mined.Keys <= old(pendingTransactions).Keys && forall h | h in mined :: node(h) == Mined(mined[h])
      ensures finished <==> forall h | h in old(pendingTransactions) :: !node(h).Failing?
      ensures finished ==> forall h | h in old(pendingTransactions) && node(h).Mined? :: h in mined
      ensures pendingTransactions == if finished then old(pendingTransactions) - mined.Keys
              else old(pendingTransactions)
      ensures forall h | h in mined ::
                old(pendingTransactions)[h].Value() ==
                Submission.Complete(old(pendingTransactions[h].Value()), mined[h])
      ensures var received := Received(old(ItemsOf(pendingTransactions)), mined);
              ItemsOf(pendingTransactions) == if finished then received - mined.Keys else received
    {
      hide Apart, Submission.Complete;
      var completedTransactions, done;
      completedTransactions, done, mined := Ask(node);
      finished := done;
      assert ItemsOf(pendingTransactions) == Received(old(ItemsOf(pendingTransactions)), mined);
      if done {
        pendingTransactions := pendingTransactions - completedTransactions;
      }
    }
  }

  lemma ItemsPut(pending: map<TransactionHash, TransactionAndReceipt>, hash: TransactionHash, t: TransactionAndReceipt)
    ensures ItemsOf(pending[hash := t]) == ItemsOf(pending)[hash := t.Value()]
    ensures ItemsOf(pending).Keys == pending.Keys
            && (hash in pending ==> ItemsOf(pending)[hash] == pending[hash].Value())
  {
  }

  ghost function QueueOf(queue: seq<TransactionAndReceipt>): seq<Item>
    reads set t | t in queue
  {
    seq(|queue|, i requires 0 <= i < |queue| reads set t | t in queue => queue[i].Value())
  }

  /** No transaction waits under two hashes. */
  ghost predicate Apart(pending: map<TransactionHash, TransactionAndReceipt>) {
    forall g, h | g in pending && h in pending && g != h :: pending[g] != pending[h]
  }

  class Ethereum {
    const transactionPoller: TransactionPoller
    var transactionQueue: seq<TransactionAndReceipt>
    var accountNonce: nat
    var submitting: Option<TransactionAndReceipt>  // in hand when the timer broke
    ghost var abandoned: seq<Item>
    ghost var completed: set<Item>
    ghost var displaced: seq<Item>
    ghost var refused: seq<Item>

    ghost function Held(): set<TransactionAndReceipt>
      reads this, transactionPoller
    {
      (set t | t in transactionQueue) + transactionPoller.pendingTransactions.Values
      + if submitting.Some? then {submitting.value} else {}
    }

    /** Every transaction held is held in one place. */
    ghost predicate Valid()
      reads this, transactionPoller
    {
      && Apart(transactionPoller.pendingTransactions)
      && (forall i, j | 0 <= i < j < |transactionQueue| :: transactionQueue[i] != transactionQueue[j])
      && (forall t | t in transactionQueue :: t !in transactionPoller.pendingTransactions.Values)
      && (submitting.Some? ==>
            submitting.value !in transactionQueue
            && submitting.value !in transactionPoller.pendingTransactions.Values)
    }

    ghost function Value(): State
      reads this, transactionPoller, Held()
    {
      State(accountNonce, QueueOf(transactionQueue), ItemsOf(transactionPoller.pendingTransactions),
            if submitting.None? then None else Some(submitting.value.Value()),
            abandoned, completed, displaced, refused)
    }

    constructor (nonce: nat)
      ensures Valid() && Value() == Start(nonce) && fresh(transactionPoller)
    {
      transactionPoller := new TransactionPoller();
      transactionQueue, accountNonce, submitting := [], nonce, None;
      abandoned, completed, displaced, refused := [], {}, [], [];
    }

    /** Queues a transaction with the next nonce. */
    method SendTransaction() returns (t: TransactionAndReceipt)
      requires Valid()
      modifies this
      ensures Valid() && fresh(t) && Value() == Send(old(Value()))
    {
      ghost var before := Value();
      t := new TransactionAndReceipt(accountNonce);
      accountNonce := accountNonce + 1;
      transactionQueue := transactionQueue + [t];
      assert Value().queue == before.queue + [New(before)];
    }

    /** Submits a transaction that makes a contract at once, with the next nonce. */
    method NewContract(reply: Reply) returns (t: Option<TransactionAndReceipt>)
      requires Valid()
      modifies this, transactionPoller
      ensures Valid() && Value() == Create(old(Value()), reply)
      ensures t.Some? <==> reply.Accepted?
    {
      hide ItemsOf, QueueOf, Put;
      var created := new TransactionAndReceipt(accountNonce);
      accountNonce := accountNonce + 1;
      if reply.Accepted? {
        AddPending(reply.hash, created);
        t := Some(created);
      } else {
        refused := refused + [created.Value()];
        t := None;
      }
    }

    /** Hands a transaction to the poller; whatever waited under its hash is displaced. */
    method AddPending(hash: TransactionHash, t: TransactionAndReceipt)
      requires Valid() && t !in Held()
      modifies this`displaced, transactionPoller
      ensures Valid() && Value() == Put(old(Value()), hash, t.Value())
    {
      hide ItemsOf, QueueOf;
      ghost var before := Value();
      ItemsPut(transactionPoller.pendingTransactions, hash, t);
      if hash in transactionPoller.pendingTransactions {
        displaced := displaced + [transactionPoller.pendingTransactions[hash].Value()];
      }
      transactionPoller.AddPendingTransaction(hash, t);
    }

    /** Takes the transaction at the head of the queue. */
    method Take() returns (t: TransactionAndReceipt)
      requires Valid() && transactionQueue != []
      modifies `transactionQueue
      ensures Valid() && t !in Held() && t in old(transactionQueue)
      ensures Value() == old(Value()).(queue := old(Value()).queue[1..]) && t.Value() == old(Value()).queue[0]
    {
      ghost var before := Value();
      t := transactionQueue[0];
      transactionQueue := transactionQueue[1..];
      assert QueueOf(transactionQueue) == before.queue[1..];
    }

    method Requeue(t: TransactionAndReceipt)
      requires Valid() && t !in Held()
      modifies `transactionQueue
      ensures Valid() && Value() == old(Value()).(queue := old(Value()).queue + [t.Value()])
    {
      ghost var before := Value();
      transactionQueue := transactionQueue + [t];
      assert QueueOf(transactionQueue) == before.queue + [t.Value()];
    }

    /** Queues a transaction again after a failed submission, or gives it up. */
    method Retry(t: TransactionAndReceipt)
      requires Valid() && t !in Held()
      modifies `transactionQueue, `abandoned, t
      ensures Valid()
      ensures var failed := old(t.Value()).(failures := old(t.failures) + 1);
              Value() == if failed.failures <= MAX_RETRIES then old(Value()).(queue := old(Value()).queue + [failed])
                         else old(Value()).(abandoned := old(Value()).abandoned + [failed])
    {
      hide ItemsOf, QueueOf, Apart;
      var retry := t.Failed();
      if retry {
        Requeue(t);
      } else {
        abandoned := abandoned + [t.Value()];
      }
    }

    /** One run of the submit timer, which waits while nothing is queued. */
    method SubmitNext(reply: Reply)
      requires Valid()
      modifies this, transactionPoller, transactionQueue
      ensures Valid() && Value() == Tick(old(Value()), reply)
    {
      hide Put, ItemsOf, Apart;
      if submitting.Some? || transactionQueue == [] {
        return;
      }
      var t := Take();
      match reply {
        case Accepted(hash) =>
          AddPending(hash, t);
        case Rejected =>
          Retry(t);
        case Broken =>
          submitting := Some(t);
      }
    }

    /** One run of the poller. */
    method Poll(node: TransactionHash -> Answer)
      returns (ghost mined: map<TransactionHash, Receipt>, ghost finished: bool)
      requires Valid()
      modifies this`completed, transactionPoller, transactionPoller.pendingTransactions.Values
      ensures Valid() && Value() == Submission.Poll(old(Value()), mined, finished)
      ensures forall h | h in mined :: h in old(transactionPoller.pendingTransactions) && node(h) == Mined(mined[h])
      ensures finished <==> forall h | h in old(transactionPoller.pendingTransactions) :: !node(h).Failing?
      ensures finished ==> forall h | h in old(transactionPoller.pendingTransactions) && node(h).Mined? :: h in mined
    {
      hide ItemsOf, Received, Finished;
      ghost var before := Value();
      mined, finished := transactionPoller.Run(node);
      assert QueueOf(transactionQueue) == before.queue;
      if finished {
        completed := completed + Finished(before.pending, mined);
      }
    }
  }
}
