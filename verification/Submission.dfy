/**
 The submission of transactions as a state machine: a queue that a timer empties one transaction at a time,
 the transactions waiting for a receipt, and where every transaction ends up.
 */
module Submission {
  import opened Options

  type TransactionHash = string
  type Receipt = string

  const MAX_RETRIES: nat := 2

  /** A transaction, known by its nonce, with its failed submissions and the receipt its sender is waiting for. */
  datatype Item = Item(nonce: nat, failures: nat, receipt: Option<Receipt>)

  /** Besides what the client holds: what was being submitted when the timer broke, and the ends of the others. */
  datatype State = State(next: nat, queue: seq<Item>, pending: map<TransactionHash, Item>, submitting: Option<Item>,
                         abandoned: seq<Item>, completed: set<Item>, displaced: seq<Item>, refused: seq<Item>)

  /** What the node makes of a submission: it answers with a hash, reports a failure, or anything else goes wrong. */
  datatype Reply = Accepted(hash: TransactionHash) | Rejected | Broken

  /** A poll has some transactions mined; it is finished unless asking for a receipt goes wrong. */
  datatype Event =
    | Sending
    | Creating(reply: Reply)
    | Ticking(reply: Reply)
    | Polling(mined: map<TransactionHash, Receipt>, finished: bool)

  function Start(nonce: nat): State {
    State(nonce, [], map[], None, [], {}, [], [])
  }

  function New(s: State): Item {
    Item(s.next, 0, None)
  }

  /** A hash already waiting for a receipt loses its transaction to the new one. */
  function Put(s: State, hash: TransactionHash, item: Item): State {
    var before := if hash in s.pending then [s.pending[hash]] else [];
    s.(pending := s.pending[hash := item], displaced := s.displaced + before)
  }

  function Send(s: State): State {
    s.(next := s.next + 1, queue := s.queue + [New(s)])
  }

  /** A new contract is submitted at once; if that fails its nonce is used up. */
  function Create(s: State, reply: Reply): State {
    match reply
    case Accepted(hash) => Put(s.(next := s.next + 1), hash, New(s))
    case _ => s.(next := s.next + 1, refused := s.refused + [New(s)])
  }

  /** With nothing queued the timer waits, and once broken it is never run again. */
  predicate Idle(s: State) {
    s.queue == [] || s.submitting.Some?
  }

  function Tick(s: State, reply: Reply): State {
    if Idle(s) then s
    else
      var item, rest := s.queue[0], s.queue[1..];
      match reply
      case Accepted(hash) => Put(s.(queue := rest), hash, item)
      case Rejected =>
        var failed := item.(failures := item.failures + 1);
        if failed.failures <= MAX_RETRIES then s.(queue := rest + [failed])
        else s.(queue := rest, abandoned := s.abandoned + [failed])
      case Broken => s.(queue := rest, submitting := Some(item))
  }

  /** A receipt completes a transaction once. */
  function Complete(item: Item, receipt: Receipt): Item {
    if item.receipt.None? then item.(receipt := Some(receipt)) else item
  }

  function Received(pending: map<TransactionHash, Item>, mined: map<TransactionHash, Receipt>)
    : map<TransactionHash, Item>
  {
    map h | h in pending :: if h in mined then Complete(pending[h], mined[h]) else pending[h]
  }

  function Finished(pending: map<TransactionHash, Item>, mined: map<TransactionHash, Receipt>): set<Item> {
    set h | h in pending && h in mined :: Complete(pending[h], mined[h])
  }

  /** The receipts found complete their transactions; these stop waiting only if the poll is finished. */
  function Poll(s: State, mined: map<TransactionHash, Receipt>, finished: bool): State {
    if finished
    then s.(pending := Received(s.pending, mined) - mined.Keys, completed := s.completed + Finished(s.pending, mined))
    else s.(pending := Received(s.pending, mined))
  }

  function Step(s: State, e: Event): State {
    match e
    case Sending => Send(s)
    case Creating(reply) => Create(s, reply)
    case Ticking(reply) => Tick(s, reply)
    case Polling(mined, finished) => Poll(s, mined, finished)
  }

  function Run(s: State, events: seq<Event>): State
    decreases |events|
  {
    if events == [] then s else Step(Run(s, events[..|events| - 1]), events[|events| - 1])
  }

  // ------------------------------------------------------------------ every transaction is in one place

  /** The places a transaction can be in. */
  datatype Place =
    | Queued(i: nat)
    | Waiting(hash: TransactionHash)
    | Submitting
    | Abandoned(i: nat)
    | Completed(item: Item)
    | Displaced(i: nat)
    | Refused(i: nat)

  function ItemAt(s: State, w: Place): Option<Item> {
    match w
    case Queued(i) => Nth(s.queue, i)
    case Waiting(hash) => if hash in s.pending then Some(s.pending[hash]) else None
    case Submitting => s.submitting
    case Abandoned(i) => Nth(s.abandoned, i)
    case Completed(item) => if item in s.completed then Some(item) else None
    case Displaced(i) => Nth(s.displaced, i)
    case Refused(i) => Nth(s.refused, i)
  }

  function Nth(items: seq<Item>, i: nat): Option<Item> {
    if i < |items| then Some(items[i]) else None
  }

  predicate Holds(s: State, w: Place, nonce: nat) {
    ItemAt(s, w).Some? && ItemAt(s, w).value.nonce == nonce
  }

  ghost predicate Placed(s: State, nonce: nat) {
    exists w :: Holds(s, w, nonce)
  }

  /** The nonces handed out are consecutive from the first, and the transaction of each is in exactly one place. */
  ghost predicate Accounted(s: State, first: nat) {
    && first <= s.next
    && (forall n: nat | first <= n < s.next :: Placed(s, n))
    && (forall w, n: nat | Holds(s, w, n) :: first <= n < s.next)
    && forall w, v, n: nat | Holds(s, w, n) && Holds(s, v, n) :: w == v
  }

  /** Where a step takes the transaction of a place. */
  function Moved(s: State, e: Event, w: Place): Place {
    match e
    case Sending => w
    case Creating(reply) => if reply.Accepted? && w == Waiting(reply.hash) then Displaced(|s.displaced|) else w
    case Ticking(reply) => MovedByTick(s, reply, w)
    case Polling(mined, finished) =>
      if finished && w.Waiting? && w.hash in s.pending && w.hash in mined
      then Completed(Complete(s.pending[w.hash], mined[w.hash])) else w
  }

  function MovedByTick(s: State, reply: Reply, w: Place): Place {
    if Idle(s) then w
    else match w
      case Queued(0) => FromHead(s, reply)
      case Queued(i) => Queued(i - 1)
      case Waiting(hash) => if reply == Accepted(hash) then Displaced(|s.displaced|) else w
      case _ => w
  }

  function FromHead(s: State, reply: Reply): Place
    requires s.queue != []
  {
    match reply
    case Accepted(hash) => Waiting(hash)
    case Rejected => if s.queue[0].failures < MAX_RETRIES then Queued(|s.queue| - 1) else Abandoned(|s.abandoned|)
    case Broken => Submitting
  }

  /** Where a step puts a new transaction, if it makes one. */
  function NewPlace(s: State, e: Event): Option<Place> {
    match e
    case Sending => Some(Queued(|s.queue|))
    case Creating(Accepted(hash)) => Some(Waiting(hash))
    case Creating(_) => Some(Refused(|s.refused|))
    case _ => None
  }

  /** A step moves every transaction and keeps its nonce. */
  lemma StepMoves(s: State, e: Event, w: Place)
    requires ItemAt(s, w).Some?
    ensures Holds(Step(s, e), Moved(s, e, w), ItemAt(s, w).value.nonce)
  {
  }

  /** Whatever is somewhere after a step was moved there or is new. */
  lemma StepCovers(s: State, e: Event, v: Place) returns (w: Place)
    requires ItemAt(Step(s, e), v).Some? && NewPlace(s, e) != Some(v)
    ensures ItemAt(s, w).Some? && Moved(s, e, w) == v
    ensures ItemAt(s, w).value.nonce == ItemAt(Step(s, e), v).value.nonce
  {
    match e
    case Sending => w := v;
    case Creating(reply) => w := if reply.Accepted? && v == Displaced(|s.displaced|) then Waiting(reply.hash) else v;
    case Ticking(reply) => w := BeforeTick(s, reply, v);
    case Polling(mined, finished) =>
      if v.Completed? && v.item !in s.completed {
        var h :| h in s.pending && h in mined && Complete(s.pending[h], mined[h]) == v.item;
        w := Waiting(h);
      } else {
        w := v;
      }
  }

  function BeforeTick(s: State, reply: Reply, v: Place): Place {
    if Idle(s) then v
    else match v
      case Queued(i) => if i == |s.queue| - 1 then Queued(0) else Queued(i + 1)
      case Waiting(hash) => if reply == Accepted(hash) then Queued(0) else v
      case Submitting => Queued(0)
      case Abandoned(i) => if i == |s.abandoned| then Queued(0) else v
      case Displaced(i) => if i == |s.displaced| && reply.Accepted? then Waiting(reply.hash) else v
      case _ => v
  }

  lemma NewIsThere(s: State, e: Event)
    requires NewPlace(s, e).Some?
    ensures Holds(Step(s, e), NewPlace(s, e).value, s.next) && Step(s, e).next == s.next + 1
  {
  }

  lemma {:induction false} StepKeepsAccounted(s: State, e: Event, first: nat)
    requires Accounted(s, first)
    ensures Accounted(Step(s, e), first)
  {
    hide Moved, NewPlace, ItemAt;
    var s' := Step(s, e);
    NextAfter(s, e);
    forall n: nat | first <= n < s'.next ensures Placed(s', n) {
      if n < s.next {
        assert Placed(s, n);
        var w :| Holds(s, w, n);
        StepMoves(s, e, w);
      } else {
        NewIsThere(s, e);
      }
    }
    forall w, n: nat | Holds(s', w, n) ensures first <= n < s'.next {
      var u := Origin(s, e, first, w, n);
    }
    forall w, v, n: nat | Holds(s', w, n) && Holds(s', v, n) ensures w == v {
      var t := Origin(s, e, first, w, n);
      var u := Origin(s, e, first, v, n);
    }
  }

  lemma NextAfter(s: State, e: Event)
    ensures Step(s, e).next == if NewPlace(s, e).Some? then s.next + 1 else s.next
  {
  }

  /** Where the transaction of a nonce was before a step, unless the step made it. */
  lemma Origin(s: State, e: Event, first: nat, v: Place, n: nat) returns (w: Option<Place>)
    requires Accounted(s, first) && Holds(Step(s, e), v, n)
    ensures first <= n < Step(s, e).next
    ensures if w.None? then n == s.next && NewPlace(s, e) == Some(v)
            else n < s.next && Holds(s, w.value, n) && Moved(s, e, w.value) == v
  {
    hide Moved, NewPlace, ItemAt, Step;
    NextAfter(s, e);
    if NewPlace(s, e) == Some(v) {
      NewIsThere(s, e);
      w := None;
    } else {
      var u := StepCovers(s, e, v);
      assert Holds(s, u, n);
      w := Some(u);
    }
  }

  /** Conservation, in every run: each nonce handed out is accounted for exactly once. */
  lemma {:induction false} EveryTransactionIsInOnePlace(nonce: nat, events: seq<Event>)
    ensures Accounted(Run(Start(nonce), events), nonce)
    decreases |events|
  {
    hide Accounted;
    if events == [] {
      NothingPlaced(nonce);
    } else {
      EveryTransactionIsInOnePlace(nonce, events[..|events| - 1]);
      StepKeepsAccounted(Run(Start(nonce), events[..|events| - 1]), events[|events| - 1], nonce);
    }
  }

  lemma NothingPlaced(nonce: nat)
    ensures Accounted(Start(nonce), nonce)
  {
    assert forall w :: ItemAt(Start(nonce), w).None?;
  }

  // ------------------------------------------------------------------ attempts

  /** What is known of a transaction by where it is. */
  predicate Fate(s: State, w: Place) {
    ItemAt(s, w).Some? ==>
      var item := ItemAt(s, w).value;
      match w
      case Queued(_) => item.failures <= MAX_RETRIES && item.receipt.None?
      case Waiting(_) => item.failures <= MAX_RETRIES
      case Submitting => item.failures <= MAX_RETRIES && item.receipt.None?
      case Abandoned(_) => item.failures == MAX_RETRIES + 1 && item.receipt.None?
      case Completed(_) => item.failures <= MAX_RETRIES && item.receipt.Some?
      case Displaced(_) => item.failures <= MAX_RETRIES
      case Refused(_) => item.failures == 0 && item.receipt.None?
  }

  ghost predicate Fates(s: State) {
    forall w :: Fate(s, w)
  }

  lemma StepKeepsFates(s: State, e: Event)
    requires Fates(s)
    ensures Fates(Step(s, e))
  {
    hide Moved, NewPlace;
    forall v ensures Fate(Step(s, e), v) {
      if ItemAt(Step(s, e), v).Some? && NewPlace(s, e) != Some(v) {
        var w := StepCovers(s, e, v);
        FateMoves(s, e, w);
      } else if NewPlace(s, e) == Some(v) {
        NewFate(s, e);
      }
    }
  }

  lemma NewFate(s: State, e: Event)
    requires NewPlace(s, e).Some?
    ensures Fate(Step(s, e), NewPlace(s, e).value)
  {
  }

  lemma FateMoves(s: State, e: Event, w: Place)
    requires Fates(s) && ItemAt(s, w).Some?
    ensures Fate(Step(s, e), Moved(s, e, w))
  {
    assert Fate(s, w);
  }

  /** The nonce submitted by a step, if any. */
  function Submitted(s: State, e: Event): Option<nat> {
    match e
    case Creating(_) => Some(s.next)
    case Ticking(_) => if Idle(s) then None else Some(s.queue[0].nonce)
    case _ => None
  }

  /** How often a nonce was submitted in a run. */
  function Attempts(s: State, events: seq<Event>, nonce: nat): nat
    decreases |events|
  {
    if events == [] then 0
    else
      var before := events[..|events| - 1];
      Attempts(s, before, nonce) + if Submitted(Run(s, before), events[|events| - 1]) == Some(nonce) then 1 else 0
  }

  /** The submissions behind a transaction: the failed ones, and the one that took it out of the queue. */
  function Made(w: Place, item: Item): nat {
    item.failures + if w.Queued? || w.Abandoned? then 0 else 1
  }

  lemma MadeMoves(s: State, e: Event, w: Place)
    requires ItemAt(s, w).Some?
    ensures ItemAt(Step(s, e), Moved(s, e, w)).Some?
    ensures Made(Moved(s, e, w), ItemAt(Step(s, e), Moved(s, e, w)).value)
         == Made(w, ItemAt(s, w).value) + if e.Ticking? && !Idle(s) && w == Queued(0) then 1 else 0
  {
  }

  lemma NewMade(s: State, e: Event)
    requires NewPlace(s, e).Some?
    ensures ItemAt(Step(s, e), NewPlace(s, e).value).Some?
    ensures Made(NewPlace(s, e).value, ItemAt(Step(s, e), NewPlace(s, e).value).value) ==
            if Submitted(s, e) == Some(s.next) then 1 else 0
  {
  }

  /** A step submits the transaction at the head of the queue or a new one, and nothing else. */
  lemma SubmittedIs(s: State, e: Event, first: nat, n: nat)
    requires Accounted(s, first)
    ensures Submitted(s, e) == Some(n) && n != s.next ==> Holds(s, Queued(0), n) && e.Ticking? && !Idle(s)
    ensures Submitted(s, e) == Some(n) ==> n < s.next || NewPlace(s, e).Some?
    ensures Holds(s, Queued(0), n) && e.Ticking? && !Idle(s) ==> Submitted(s, e) == Some(n)
  {
    if e.Ticking? && !Idle(s) {
      assert Holds(s, Queued(0), s.queue[0].nonce);
    }
  }

  lemma {:induction false} NoAttemptsYet(nonce: nat, events: seq<Event>, n: nat)
    requires Run(Start(nonce), events).next <= n
    ensures Attempts(Start(nonce), events, n) == 0
    decreases |events|
  {
    if events != [] {
      var before, e := events[..|events| - 1], events[|events| - 1];
      var s := Run(Start(nonce), before);
      NextAfter(s, e);
      NoAttemptsYet(nonce, before, n);
      EveryTransactionIsInOnePlace(nonce, before);
      SubmittedIs(s, e, nonce, n);
    }
  }

  /** In every run: the submissions of a transaction are its failures, and one more unless it is queued or abandoned. */
  lemma {:induction false} AttemptsAreExact(nonce: nat, events: seq<Event>, v: Place)
    requires ItemAt(Run(Start(nonce), events), v).Some?
    ensures var item := ItemAt(Run(Start(nonce), events), v).value;
            Attempts(Start(nonce), events, item.nonce) == Made(v, item)
    decreases |events|
  {
    hide Step, ItemAt, Moved, NewPlace, Made, Submitted, Accounted;
    if events == [] {
      NothingPlacedAt(nonce, v);
    } else {
      var before, e := events[..|events| - 1], events[|events| - 1];
      var s := Run(Start(nonce), before);
      var n := ItemAt(Step(s, e), v).value.nonce;
      EveryTransactionIsInOnePlace(nonce, before);
      SubmittedIs(s, e, nonce, n);
      var w := Origin(s, e, nonce, v, n);
      if w.None? {
        NoAttemptsYet(nonce, before, n);
        NewMade(s, e);
      } else {
        AttemptsAreExact(nonce, before, w.value);
        MadeMoves(s, e, w.value);
        OnlyPlace(s, nonce, w.value, n);
      }
    }
  }

  lemma NothingPlacedAt(nonce: nat, w: Place)
    ensures ItemAt(Start(nonce), w).None?
  {
  }

  lemma OnlyPlace(s: State, first: nat, w: Place, n: nat)
    requires Accounted(s, first) && Holds(s, w, n)
    ensures n < s.next && (Holds(s, Queued(0), n) <==> w == Queued(0))
  {
    hide Holds;
  }

  lemma {:induction false} FatesInEveryRun(nonce: nat, events: seq<Event>)
    ensures Fates(Run(Start(nonce), events))
    decreases |events|
  {
    hide Fates, Step;
    if events == [] {
      NothingFated(nonce);
    } else {
      FatesInEveryRun(nonce, events[..|events| - 1]);
      StepKeepsFates(Run(Start(nonce), events[..|events| - 1]), events[|events| - 1]);
    }
  }

  lemma NothingFated(nonce: nat)
    ensures Fates(Start(nonce))
  {
  }

  /**
   No transaction is submitted more than three times, and the abandoned ones are exactly those with three
   failures.
   */
  lemma AtMostThreeAttempts(nonce: nat, events: seq<Event>, n: nat)
    ensures Attempts(Start(nonce), events, n) <= 3
    ensures var s := Run(Start(nonce), events);
            forall w | Holds(s, w, n) :: w.Abandoned? <==> ItemAt(s, w).value.failures == 3
    ensures var s := Run(Start(nonce), events);
            forall w | Holds(s, w, n) && w.Abandoned? :: Attempts(Start(nonce), events, n) == 3
  {
    hide Step, Run, Attempts, ItemAt, Accounted;
    var s := Run(Start(nonce), events);
    EveryTransactionIsInOnePlace(nonce, events);
    FatesInEveryRun(nonce, events);
    forall w | Holds(s, w, n) ensures Fate(s, w) && Attempts(Start(nonce), events, n) == Made(w, ItemAt(s, w).value) {
      AttemptsAreExact(nonce, events, w);
    }
    SomewhereOrNew(s, nonce, n);
    if s.next <= n {
      NoAttemptsYet(nonce, events, n);
    } else if n < nonce {
      NoneBefore(nonce, events, n);
    }
  }

  lemma SomewhereOrNew(s: State, first: nat, n: nat)
    requires Accounted(s, first)
    ensures first <= n < s.next ==> exists w :: Holds(s, w, n)
  {
    if first <= n < s.next {
      assert Placed(s, n);
    }
  }

  /** Nonces below the first are never submitted. */
  lemma {:induction false} NoneBefore(nonce: nat, events: seq<Event>, n: nat)
    requires n < nonce
    ensures Attempts(Start(nonce), events, n) == 0
    decreases |events|
  {
    if events != [] {
      var before, e := events[..|events| - 1], events[|events| - 1];
      NoneBefore(nonce, before, n);
      EveryTransactionIsInOnePlace(nonce, before);
      SubmittedIs(Run(Start(nonce), before), e, nonce, n);
    }
  }

  // ------------------------------------------------------------------ displaced transactions

  /** The hash that the node hands out in a step, if any. */
  function HandedOut(s: State, e: Event): Option<TransactionHash> {
    match e
    case Creating(Accepted(hash)) => Some(hash)
    case Ticking(Accepted(hash)) => if Idle(s) then None else Some(hash)
    case _ => None
  }

  /** The node hands out a hash whose transaction still waits for its receipt. */
  predicate Displaces(s: State, e: Event) {
    HandedOut(s, e).Some? && HandedOut(s, e).value in s.pending
  }

  /** The transactions displaced in a run: those that waited under the hashes handed out again, in this order. */
  function Lost(s: State, events: seq<Event>): seq<Item>
    decreases |events|
  {
    if events == [] then []
    else
      var before, e := events[..|events| - 1], events[|events| - 1];
      var here := Run(s, before);
      Lost(s, before) + if Displaces(here, e) then [here.pending[HandedOut(here, e).value]] else []
  }

  lemma StepDisplaces(s: State, e: Event)
    ensures Step(s, e).displaced ==
            s.displaced + if Displaces(s, e) then [s.pending[HandedOut(s, e).value]] else []
  {
  }

  lemma {:induction false} DisplacedAre(s: State, events: seq<Event>)
    ensures Run(s, events).displaced == s.displaced + Lost(s, events)
    decreases |events|
  {
    hide Step, HandedOut;
    if events != [] {
      var before := events[..|events| - 1];
      DisplacedAre(s, before);
      StepDisplaces(Run(s, before), events[|events| - 1]);
    }
  }

  /** In every run: no transaction is displaced exactly if the node never hands out a hash that still waits. */
  lemma {:induction false} DisplacedIff(nonce: nat, events: seq<Event>)
    ensures Run(Start(nonce), events).displaced == [] <==>
              forall i | 0 <= i < |events| :: !Displaces(Run(Start(nonce), events[..i]), events[i])
    decreases |events|
  {
    hide Step, Displaces, Run, HandedOut;
    if events == [] {
      NothingDisplaced(nonce);
    } else {
      var before, e := events[..|events| - 1], events[|events| - 1];
      DisplacedIff(nonce, before);
      LastStep(nonce, events);
      StepDisplaces(Run(Start(nonce), before), e);
      assert forall i | 0 <= i < |before| :: events[..i] == before[..i] && events[i] == before[i];
    }
  }

  lemma NothingDisplaced(nonce: nat)
    ensures Run(Start(nonce), []).displaced == []
  {
  }

  lemma LastStep(nonce: nat, events: seq<Event>)
    requires events != []
    ensures Run(Start(nonce), events) == Step(Run(Start(nonce), events[..|events| - 1]), events[|events| - 1])
  {
  }

  /** The first receipt that a run finds for a hash since it was handed out last. */
  function Found(s: State, events: seq<Event>, h: TransactionHash): Option<Receipt>
    decreases |events|
  {
    if events == [] then None
    else
      var before, e := events[..|events| - 1], events[|events| - 1];
      if HandedOut(Run(s, before), e) == Some(h) then None
      else if Found(s, before, h).None? && e.Polling? && h in e.mined then Some(e.mined[h])
      else Found(s, before, h)
  }

  /** In every run: a transaction that waits under a hash has the first receipt found for it, if any was found. */
  lemma {:induction false} ReceiptIsFound(nonce: nat, events: seq<Event>, h: TransactionHash)
    requires h in Run(Start(nonce), events).pending
    ensures Run(Start(nonce), events).pending[h].receipt == Found(Start(nonce), events, h)
    decreases |events|
  {
    hide Step;
    if events != [] {
      var before, e := events[..|events| - 1], events[|events| - 1];
      var s := Run(Start(nonce), before);
      FatesInEveryRun(nonce, before);
      if h in s.pending {
        ReceiptIsFound(nonce, before, h);
      }
      StepReceipt(s, e, h);
    }
  }

  lemma StepReceipt(s: State, e: Event, h: TransactionHash)
    requires Fates(s) && h in Step(s, e).pending
    ensures HandedOut(s, e) != Some(h) ==> h in s.pending
    ensures var receipt := Step(s, e).pending[h].receipt;
            if HandedOut(s, e) == Some(h) then receipt == None
            else if s.pending[h].receipt.None? && e.Polling? && h in e.mined then receipt == Some(e.mined[h])
            else receipt == s.pending[h].receipt
  {
    if e.Ticking? && !Idle(s) {
      assert Fate(s, Queued(0));
    }
  }

  /**
   A displaced transaction stays as it was from then on, whatever happens: its sender never gets a receipt
   exactly if none had been found for its hash since that was handed out for it.
   */
  lemma DisplacedForGood(nonce: nat, events: seq<Event>, e: Event, later: seq<Event>)
    requires Displaces(Run(Start(nonce), events), e)
    ensures var s := Run(Start(nonce), events);
            var h := HandedOut(s, e).value;
            var place := Displaced(|s.displaced|);
            && Holds(Run(Step(s, e), later), place, s.pending[h].nonce)
            && ItemAt(Run(Step(s, e), later), place).value.receipt == Found(Start(nonce), events, h)
  {
    hide Step, Run, HandedOut, Lost, Found;
    var s := Run(Start(nonce), events);
    StepDisplaces(s, e);
    DisplacedAre(Step(s, e), later);
    ReceiptIsFound(nonce, events, HandedOut(s, e).value);
  }

  /** A receipt once received is never replaced, and a completed transaction stays completed. */
  lemma ReceiptStays(s: State, e: Event, w: Place)
    requires ItemAt(s, w).Some? && ItemAt(s, w).value.receipt.Some?
    ensures ItemAt(Step(s, e), Moved(s, e, w)).Some?
    ensures ItemAt(Step(s, e), Moved(s, e, w)).value.receipt == ItemAt(s, w).value.receipt
    ensures w.Completed? ==> Moved(s, e, w) == w
  {
  }

  // ------------------------------------------------------------------ the order of submission

  /** Nothing goes wrong that would break the timer. */
  predicate Steady(events: seq<Event>) {
    forall e | e in events :: e.Ticking? ==> !e.reply.Broken?
  }

  /**
   What is queued is submitted in the order of the queue, once around, whatever is sent, polled or rejected
   meanwhile.
   */
  lemma {:induction false} TicksInOrder(s: State, events: seq<Event>, reply: Reply)
    requires s.submitting.None? && Steady(events) && Ticks(events) < |s.queue|
    ensures Submitted(Run(s, events), Ticking(reply)) == Some(s.queue[Ticks(events)].nonce)
  {
    hide Run, Step;
    QueueMovesUp(s, events);
    var q := Run(s, events).queue;
    assert q[0] == s.queue[Ticks(events)..][0];
  }

  lemma {:induction false} QueueMovesUp(s: State, events: seq<Event>)
    requires s.submitting.None? && Steady(events) && Ticks(events) <= |s.queue|
    ensures var s' := Run(s, events); s'.submitting.None? && s.queue[Ticks(events)..] <= s'.queue
    decreases |events|
  {
    hide Step;
    if events != [] {
      var before, e := events[..|events| - 1], events[|events| - 1];
      assert e in events && forall d | d in before :: d in events;
      QueueMovesUp(s, before);
      StepMovesUp(Run(s, before), e, s.queue[Ticks(before)..]);
      if e.Ticking? {
        assert s.queue[Ticks(before)..][1..] == s.queue[Ticks(events)..];
      }
    }
  }

  lemma StepMovesUp(s: State, e: Event, front: seq<Item>)
    requires s.submitting.None? && front <= s.queue
    requires e.Ticking? ==> front != [] && !e.reply.Broken?
    ensures Step(s, e).submitting.None?
    ensures (if e.Ticking? then front[1..] else front) <= Step(s, e).queue
  {
    if e.Ticking? {
      assert s.queue[1..] == front[1..] + s.queue[|front|..];
    }
  }

  // ------------------------------------------------------------------ draining

  /** The submissions the queued transactions have left. */
  function Left(queue: seq<Item>): nat {
    if queue == [] then 0 else LeftOf(queue[0]) + Left(queue[1..])
  }

  function LeftOf(item: Item): nat {
    if item.failures <= MAX_RETRIES then MAX_RETRIES + 1 - item.failures else 0
  }

  lemma {:induction false} LeftAppend(queue: seq<Item>, item: Item)
    ensures Left(queue + [item]) == Left(queue) + LeftOf(item)
  {
    if queue == [] {
      assert queue + [item] == [item];
    } else {
      LeftAppend(queue[1..], item);
      assert (queue + [item])[1..] == queue[1..] + [item];
    }
  }

  lemma {:induction false} LeftBound(queue: seq<Item>)
    ensures Left(queue) <= (MAX_RETRIES + 1) * |queue|
  {
    if queue != [] {
      LeftBound(queue[1..]);
    }
  }

  predicate QueueFresh(queue: seq<Item>) {
    forall item | item in queue :: item.failures <= MAX_RETRIES
  }

  /** Every tick that is answered uses up a submission. */
  lemma TickUses(s: State, reply: Reply)
    requires QueueFresh(s.queue) && s.submitting.None? && !reply.Broken?
    ensures var s' := Tick(s, reply);
            && QueueFresh(s'.queue) && s'.submitting.None?
            && if s.queue == [] then s'.queue == [] else Left(s'.queue) < Left(s.queue)
  {
    if s.queue != [] {
      var item, rest := s.queue[0], s.queue[1..];
      assert item in s.queue && forall i | i in rest :: i in s.queue;
      LeftAppend(rest, item.(failures := item.failures + 1));
    }
  }

  /** Nothing is sent or created, and nothing goes wrong but failed submissions. */
  predicate Quiet(events: seq<Event>) {
    forall e | e in events :: e.Polling? || (e.Ticking? && !e.reply.Broken?)
  }

  function Ticks(events: seq<Event>): nat
    decreases |events|
  {
    if events == [] then 0 else Ticks(events[..|events| - 1]) + if events[|events| - 1].Ticking? then 1 else 0
  }

  lemma {:induction false} TicksUse(s: State, events: seq<Event>)
    requires QueueFresh(s.queue) && s.submitting.None? && Quiet(events)
    ensures var s' := Run(s, events);
            QueueFresh(s'.queue) && s'.submitting.None?
                && (s'.queue == [] || Left(s'.queue) + Ticks(events) <= Left(s.queue))
    decreases |events|
  {
    hide Left, QueueFresh;
    if events != [] {
      var before, e := events[..|events| - 1], events[|events| - 1];
      assert e in events && forall d | d in before :: d in events;
      TicksUse(s, before);
      if e.Ticking? {
        TickUses(Run(s, before), e.reply);
      }
    }
  }

  /** With no new input the queue is empty after three ticks for every transaction in it. */
  lemma QueueDrains(nonce: nat, history: seq<Event>, events: seq<Event>)
    requires var s := Run(Start(nonce), history);
             s.submitting.None? && Quiet(events) && (MAX_RETRIES + 1) * |s.queue| <= Ticks(events)
    ensures Run(Run(Start(nonce), history), events).queue == []
  {
    hide Run, Step;
    var s := Run(Start(nonce), history);
    FatesInEveryRun(nonce, history);
    forall item | item in s.queue ensures item.failures <= MAX_RETRIES {
      var i :| 0 <= i < |s.queue| && s.queue[i] == item;
      assert Fate(s, Queued(i));
    }
    TicksUse(s, events);
    LeftBound(s.queue);
    if Run(s, events).queue != [] {
      LeftPositive(Run(s, events).queue);
    }
  }

  lemma LeftPositive(queue: seq<Item>)
    requires QueueFresh(queue) && queue != []
    ensures 0 < Left(queue)
  {
    assert queue[0] in queue;
  }
}
