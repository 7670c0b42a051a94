/**
 What the trustline contract keeps over whole runs of calls.
 */
module LedgerRuns {
  import opened Int256
  import opened PaymentService

  function ExecAll(how: Arithmetic, l: Ledger, calls: seq<Call>): Ledger
    decreases |calls|
  {
    if calls == [] then l else ExecAll(how, Exec(how, l, calls[0]).0, calls[1..])
  }

  const DEPLOYED := Ledger(map[], [])

  // ------------------------------------------------------------------ no wrap-around

  ghost predicate Small(l: Ledger) {
    forall k {:trigger At(l.trustlines, k)} :: SmallTrustline(At(l.trustlines, k))
  }

  predicate SmallTrustline(tlv: TrustlineValue) {
    && NonNegative(tlv)
    && tlv.p1OwesP2.limit < TWO_254 && tlv.p1OwesP2.allow < TWO_254
    && tlv.p2OwesP1.limit < TWO_254 && tlv.p2OwesP1.allow < TWO_254
    && -TWO_254 < tlv.p2OwesP1Amount < TWO_254
  }

  /** One call with a small amount keeps every balance small and runs the same on exact integers. */
  lemma SmallStep(l: Ledger, c: Call)
    requires Small(l) && c.amount < TWO_254
    ensures Exec(Machine, l, c) == Exec(Exact, l, c)
    ensures Small(Exec(Exact, l, c).0)
  {
    forall k ensures NonNegative(At(l.trustlines, k)) {
      assert SmallTrustline(At(l.trustlines, k));
    }
    assert SmallTrustline(At(l.trustlines, KeyOf(c.sender, c.them, c.ccy)));
    MachineAgreesIff(l, c);
    forall k ensures SmallTrustline(At(Exec(Exact, l, c).0.trustlines, k)) {
      assert SmallTrustline(At(l.trustlines, k));
    }
  }

  /**
   No wrap-around: when every limit, allowance and amount of a run is below 2^254, every balance stays strictly
   between -2^254 and 2^254, and the 256-bit machine computes what exact integers compute.
   */
  lemma {:induction false} NoWrapAround(l: Ledger, calls: seq<Call>)
    requires Small(l) && forall c | c in calls :: c.amount < TWO_254
    ensures ExecAll(Machine, l, calls) == ExecAll(Exact, l, calls)
    ensures Small(ExecAll(Exact, l, calls))
    decreases |calls|
  {
    if calls != [] {
      SmallStep(l, calls[0]);
      NoWrapAround(Exec(Exact, l, calls[0]).0, calls[1..]);
    }
  }

  // ------------------------------------------------------------------ exactly when the two arithmetics agree

  /** Some payment of a run, on exact integers, has a new debt that reaches 2^255. */
  predicate SomeOverflows(l: Ledger, calls: seq<Call>)
    decreases |calls|
  {
    calls != [] && (Overflows(l, calls[0]) || SomeOverflows(Exec(Exact, l, calls[0]).0, calls[1..]))
  }

  /** Messages are never taken back. */
  lemma {:induction false} MessagesStay(how: Arithmetic, l: Ledger, calls: seq<Call>)
    ensures l.events <= ExecAll(how, l, calls).events
    decreases |calls|
  {
    if calls != [] {
      MessagesStay(how, Exec(how, l, calls[0]).0, calls[1..]);
    }
  }

  /** A payment that overflows is announced by the machine and refused on exact integers. */
  lemma OverflowTells(l: Ledger, c: Call)
    requires Bounded(l) && Overflows(l, c)
    ensures var n := |l.events|;
            var machine, exact := Exec(Machine, l, c).0.events, Exec(Exact, l, c).0.events;
            n < |machine| && n < |exact| && machine[n] != exact[n]
  {
    assert NonNegative(At(l.trustlines, KeyOf(c.sender, c.them, c.ccy)));
  }

  /**
   From any ledger with terms that are not negative, the machine computes what exact integers do unless a
   payment overflows.
   */
  lemma {:induction false} MachineRunAgreesIff(l: Ledger, calls: seq<Call>)
    requires Bounded(l)
    ensures ExecAll(Machine, l, calls) == ExecAll(Exact, l, calls) <==> !SomeOverflows(l, calls)
    decreases |calls|
  {
    hide Exec, Bounded, Overflows;
    if calls != [] {
      var c, rest := calls[0], calls[1..];
      MachineAgreesIff(l, c);
      ExecKeepsBounded(Exact, l, c);
      if Overflows(l, c) {
        OverflowTells(l, c);
        MessagesStay(Machine, Exec(Machine, l, c).0, rest);
        MessagesStay(Exact, Exec(Exact, l, c).0, rest);
      } else {
        MachineRunAgreesIff(Exec(Exact, l, c).0, rest);
      }
    }
  }

  /**
   The deployed contract computes what exact integers do exactly if no payment of the run has a new debt that
   reaches 2^255.
   */
  lemma DeployedAgreesIff(calls: seq<Call>)
    ensures ExecAll(Machine, DEPLOYED, calls) == ExecAll(Exact, DEPLOYED, calls) <==> !SomeOverflows(DEPLOYED, calls)
  {
    MachineRunAgreesIff(DEPLOYED, calls);
  }

  // ------------------------------------------------------------------ the debt bound

  function Max(x: int, y: int): int {
    if x < y then y else x
  }

  /** The largest cap on the debt of `debtor` to `creditor` in force at any time of a run. */
  function Peak(l: Ledger, calls: seq<Call>, debtor: Address, creditor: Address, ccy: string): (peak: int)
    ensures Cap(l, debtor, creditor, ccy) <= peak
    decreases |calls|
  {
    if calls == [] then Cap(l, debtor, creditor, ccy)
    else Max(Cap(l, debtor, creditor, ccy), Peak(Exec(Exact, l, calls[0]).0, calls[1..], debtor, creditor, ccy))
  }

  /** One call takes a debt no further than the cap in force. */
  lemma StepBoundsDebt(l: Ledger, c: Call, debtor: Address, creditor: Address, ccy: string)
    ensures var l' := Exec(Exact, l, c).0;
            Owed(l', debtor, creditor, ccy) <= Max(Owed(l, debtor, creditor, ccy), Cap(l, debtor, creditor, ccy))
  {
    if c.SendPayment? {
      PaymentByDirection(l, c, debtor, creditor, ccy);
    } else if c.SetLimit? {
      SetLimitByDirection(Exact, l, c, debtor, creditor, ccy);
    } else {
      SetAllowByDirection(Exact, l, c, debtor, creditor, ccy);
    }
  }

  /** A debt never exceeds the largest cap that was ever in force for its direction. */
  lemma {:induction false} DebtBound(l: Ledger, calls: seq<Call>, debtor: Address, creditor: Address, ccy: string)
    ensures Owed(ExecAll(Exact, l, calls), debtor, creditor, ccy)
         <= Max(Owed(l, debtor, creditor, ccy), Peak(l, calls, debtor, creditor, ccy))
    decreases |calls|
  {
    if calls != [] {
      StepBoundsDebt(l, calls[0], debtor, creditor, ccy);
      DebtBound(Exec(Exact, l, calls[0]).0, calls[1..], debtor, creditor, ccy);
    }
  }

  /** The same for the contract as deployed, on its own arithmetic. */
  lemma DeployedDebtBound(calls: seq<Call>, debtor: Address, creditor: Address, ccy: string)
    requires forall c | c in calls :: c.amount < TWO_254
    ensures Owed(ExecAll(Machine, DEPLOYED, calls), debtor, creditor, ccy) <= Peak(DEPLOYED, calls, debtor, creditor,
            ccy)
  {
    NoWrapAround(DEPLOYED, calls);
    DebtBound(DEPLOYED, calls, debtor, creditor, ccy);
  }

  // ------------------------------------------------------------------ balances are the net of the payments

  /** What the payment messages say `debtor` owes `creditor`. */
  function Net(events: seq<Event>, debtor: Address, creditor: Address, ccy: string): int {
    if events == [] then 0
    else Net(events[..|events| - 1], debtor, creditor, ccy) + Paid(events[|events| - 1], debtor, creditor, ccy)
  }

  function Paid(e: Event, debtor: Address, creditor: Address, ccy: string): int {
    match e
    case PaymentMessage(fromBank, toBank, _, amount, ccy', _) =>
      if (fromBank, toBank, ccy') == (debtor, creditor, ccy) then amount
      else if (fromBank, toBank, ccy') == (creditor, debtor, ccy) then 0 - (amount as int)
      else 0
    case ResultMessage(_, _, _) => 0
  }

  lemma NetAppend(events: seq<Event>, e: Event, debtor: Address, creditor: Address, ccy: string)
    ensures Net(events + [e], debtor, creditor, ccy) ==
              Net(events, debtor, creditor, ccy) + Paid(e, debtor, creditor, ccy)
  {
    assert (events + [e])[..|events|] == events;
  }

  lemma NetAppendTwo(events: seq<Event>, e: Event, f: Event, debtor: Address, creditor: Address, ccy: string)
    ensures Net(events + [e, f], debtor, creditor, ccy)
         == Net(events, debtor, creditor, ccy) + Paid(e, debtor, creditor, ccy) + Paid(f, debtor, creditor, ccy)
  {
    NetAppend(events, e, debtor, creditor, ccy);
    NetAppend(events + [e], f, debtor, creditor, ccy);
    assert events + [e] + [f] == events + [e, f];
  }

  /** Every balance is the net of the payment messages, as far as the arithmetic can say. */
  ghost predicate Replays(how: Arithmetic, l: Ledger) {
    forall p1: Address, p2: Address, ccy {:trigger Net(l.events, p2, p1, ccy)} | p1 < p2 ::
      At(l.trustlines, Key(p1, p2, ccy)).p2OwesP1Amount == Sum(how, Net(l.events, p2, p1, ccy))
  }

  lemma StepReplays(how: Arithmetic, l: Ledger, c: Call)
    requires Replays(how, l)
    ensures Replays(how, Exec(how, l, c).0)
  {
    var l' := Exec(how, l, c).0;
    forall p1: Address, p2: Address, ccy | p1 < p2
      ensures At(l'.trustlines, Key(p1, p2, ccy)).p2OwesP1Amount == Sum(how, Net(l'.events, p2, p1, ccy))
    {
      StepReplaysAt(how, l, c, p1, p2, ccy);
    }
  }

  lemma SumOnce(how: Arithmetic, x: int, y: int)
    ensures Sum(how, Sum(how, x) + y) == Sum(how, x + y)
  {
    WrapOnce(x, y);
  }

  lemma StepReplaysAt(how: Arithmetic, l: Ledger, c: Call, p1: Address, p2: Address, ccy: string)
    requires Replays(how, l) && p1 < p2
    ensures var l' := Exec(how, l, c).0;
            At(l'.trustlines, Key(p1, p2, ccy)).p2OwesP1Amount == Sum(how, Net(l'.events, p2, p1, ccy))
  {
    if c.SendPayment? {
      PaymentReplaysAt(how, l, c, p1, p2, ccy);
    }
  }

  lemma PaymentReplaysAt(how: Arithmetic, l: Ledger, c: Call, p1: Address, p2: Address, ccy: string)
    requires c.SendPayment? && p1 < p2
    requires At(l.trustlines, Key(p1, p2, ccy)).p2OwesP1Amount == Sum(how, Net(l.events, p2, p1, ccy))
    ensures var l' := Exec(how, l, c).0;
            At(l'.trustlines, Key(p1, p2, ccy)).p2OwesP1Amount == Sum(how, Net(l'.events, p2, p1, ccy))
  {
    var l' := Exec(how, l, c).0;
    var n := |l.events|;
    var tlv := At(l.trustlines, KeyOf(c.sender, c.them, c.ccy));
    if ArgumentError(c) != SUCCEEDED || !NewBalance(how, tlv, c.sender < c.them, c.amount).0 {
      NetAppend(l.events, l'.events[n], p2, p1, ccy);
    } else {
      AcceptedReplaysAt(how, l, c, p1, p2, ccy);
    }
  }

  lemma AcceptedReplaysAt(how: Arithmetic, l: Ledger, c: Call, p1: Address, p2: Address, ccy: string)
    requires c.SendPayment? && p1 < p2 && ArgumentError(c) == SUCCEEDED
    requires NewBalance(how, At(l.trustlines, KeyOf(c.sender, c.them, c.ccy)), c.sender < c.them, c.amount).0
    requires At(l.trustlines, Key(p1, p2, ccy)).p2OwesP1Amount == Sum(how, Net(l.events, p2, p1, ccy))
    ensures var l' := Exec(how, l, c).0;
            At(l'.trustlines, Key(p1, p2, ccy)).p2OwesP1Amount == Sum(how, Net(l'.events, p2, p1, ccy))
  {
    var l' := Exec(how, l, c).0;
    var k := KeyOf(c.sender, c.them, c.ccy);
    var message := PaymentMessage(c.sender, c.them, c.messageId, c.amount, c.ccy, c.additionalProperties);
    var net := Net(l.events, p2, p1, ccy);
    NetAppendTwo(l.events, message, ResultMessage(c.sender, c.messageId, SUCCEEDED), p2, p1, ccy);
    var paid := Paid(message, p2, p1, ccy);
    assert Net(l'.events, p2, p1, ccy) == net + paid;
    if k == Key(p1, p2, ccy) {
      PaidIs(message, c, p1, p2, ccy);
      NewBalanceIs(how, At(l.trustlines, k), c.sender < c.them, c.amount);
      SumOnce(how, net, paid);
    } else {
      assert paid == 0;
      assert At(l'.trustlines, Key(p1, p2, ccy)) == At(l.trustlines, Key(p1, p2, ccy));
    }
  }

  lemma NewBalanceIs(how: Arithmetic, tlv: TrustlineValue, senderIsP1: bool, amount: Int)
    requires NewBalance(how, tlv, senderIsP1, amount).0
    ensures NewBalance(how, tlv, senderIsP1, amount).1
         == Sum(how, tlv.p2OwesP1Amount + (if senderIsP1 then 0 - (amount as int) else amount as int))
  {
  }

  lemma PaidIs(e: Event, c: Call, p1: Address, p2: Address, ccy: string)
    requires c.SendPayment? && p1 < p2 && KeyOf(c.sender, c.them, c.ccy) == Key(p1, p2, ccy)
    requires e == PaymentMessage(c.sender, c.them, c.messageId, c.amount, c.ccy, c.additionalProperties)
    ensures Paid(e, p2, p1, ccy) == if c.sender < c.them then 0 - (c.amount as int) else c.amount as int
  {
  }

  /** From deployment on, the payment messages alone determine every balance, on either arithmetic. */
  lemma {:induction false} BalancesReplay(how: Arithmetic, l: Ledger, calls: seq<Call>)
    requires Replays(how, l)
    ensures Replays(how, ExecAll(how, l, calls))
    decreases |calls|
  {
    if calls != [] {
      StepReplays(how, l, calls[0]);
      BalancesReplay(how, Exec(how, l, calls[0]).0, calls[1..]);
    }
  }

  lemma DeployedReplays(how: Arithmetic, calls: seq<Call>)
    ensures Replays(how, ExecAll(how, DEPLOYED, calls))
  {
    BalancesReplay(how, DEPLOYED, calls);
  }

  // ------------------------------------------------------------------ net positions

  /** What everybody owes `party` in a currency, less what `party` owes, over the given records. */
  ghost function Position(trustlines: map<Key, TrustlineValue>, keys: set<Key>, party: Address, ccy: string): int {
    if keys == {} then 0
    else
      var k := Pick(keys);
      Position(trustlines, keys - {k}, party, ccy) + Share(trustlines, k, party, ccy)
  }

  ghost function Pick(keys: set<Key>): Key
    requires keys != {}
  {
    var k :| k in keys; k
  }

  ghost function First(parties: set<Address>): Address
    requires parties != {}
  {
    var p :| p in parties; p
  }

  function Share(trustlines: map<Key, TrustlineValue>, k: Key, party: Address, ccy: string): int {
    var balance := At(trustlines, k).p2OwesP1Amount as int;
    (if k.ccy == ccy && k.p1 == party then balance else 0) - (if k.ccy == ccy && k.p2 == party then balance else 0)
  }

  /** Positions may be summed in any order. */
  lemma {:induction false} PositionSplit(trustlines: map<Key, TrustlineValue>, keys: set<Key>, k: Key, party: Address,
                                         ccy: string)
    requires k in keys
    ensures Position(trustlines, keys, party, ccy) ==
              Position(trustlines, keys - {k}, party, ccy) + Share(trustlines, k, party, ccy)
    decreases keys
  {
    var first := Pick(keys);
    if k != first {
      PositionSplit(trustlines, keys - {first}, k, party, ccy);
      PositionSplit(trustlines, keys - {k}, first, party, ccy);
      assert keys - {first} - {k} == keys - {k} - {first};
    }
  }

  lemma {:induction false} PositionSame(before: map<Key, TrustlineValue>, after: map<Key, TrustlineValue>,
                                        keys: set<Key>, party: Address, ccy: string)
    requires forall k | k in keys :: Share(before, k, party, ccy) == Share(after, k, party, ccy)
    ensures Position(before, keys, party, ccy) == Position(after, keys, party, ccy)
    decreases keys
  {
    if keys != {} {
      PositionSame(before, after, keys - {Pick(keys)}, party, ccy);
    }
  }

  ghost function Total(trustlines: map<Key, TrustlineValue>, keys: set<Key>, parties: set<Address>, ccy: string): int {
    if parties == {} then 0
    else
      var p := First(parties);
      Total(trustlines, keys, parties - {p}, ccy) + Position(trustlines, keys, p, ccy)
  }

  /** What one record contributes to all the given parties together. */
  ghost function TotalShare(trustlines: map<Key, TrustlineValue>, k: Key, parties: set<Address>, ccy: string): int {
    if parties == {} then 0
    else
      var p := First(parties);
      TotalShare(trustlines, k, parties - {p}, ccy) + Share(trustlines, k, p, ccy)
  }

  lemma {:induction false} TotalShareIs(trustlines: map<Key, TrustlineValue>, k: Key, parties: set<Address>,
                                        ccy: string)
    ensures TotalShare(trustlines, k, parties, ccy) ==
              (if k.ccy == ccy && k.p1 in parties then At(trustlines, k).p2OwesP1Amount as int else 0)
              - (if k.ccy == ccy && k.p2 in parties then At(trustlines, k).p2OwesP1Amount as int else 0)
    decreases parties
  {
    if parties != {} {
      var p := First(parties);
      TotalShareIs(trustlines, k, parties - {p}, ccy);
    }
  }

  lemma {:induction false} TotalSplit(trustlines: map<Key, TrustlineValue>, keys: set<Key>, k: Key,
                                      parties: set<Address>, ccy: string)
    requires k in keys
    ensures Total(trustlines, keys, parties, ccy)
         == Total(trustlines, keys - {k}, parties, ccy) + TotalShare(trustlines, k, parties, ccy)
    decreases parties
  {
    if parties != {} {
      var p := First(parties);
      TotalSplit(trustlines, keys, k, parties - {p}, ccy);
      PositionSplit(trustlines, keys, k, p, ccy);
    }
  }

  /** In every ledger whatsoever the net positions of all parties to its records sum to zero in each currency. */
  lemma {:induction false} PositionsSumToZero(trustlines: map<Key, TrustlineValue>, keys: set<Key>,
                                              parties: set<Address>, ccy: string)
    requires forall k | k in keys :: k.p1 in parties && k.p2 in parties
    ensures Total(trustlines, keys, parties, ccy) == 0
    decreases keys
  {
    if keys != {} {
      var k := Pick(keys);
      TotalSplit(trustlines, keys, k, parties, ccy);
      TotalShareIs(trustlines, k, parties, ccy);
      PositionsSumToZero(trustlines, keys - {k}, parties, ccy);
    } else {
      NoRecords(trustlines, parties, ccy);
    }
  }

  lemma {:induction false} NoRecords(trustlines: map<Key, TrustlineValue>, parties: set<Address>, ccy: string)
    ensures Total(trustlines, {}, parties, ccy) == 0
    decreases parties
  {
    if parties != {} {
      var p := First(parties);
      NoRecords(trustlines, parties - {p}, ccy);
    }
  }

  /** An accepted payment moves exactly its amount from the sender's net position to the receiver's. */
  lemma PaymentMovesPosition(l: Ledger, c: Call, keys: set<Key>, party: Address, ccy: string)
    requires c.SendPayment? && KeyOf(c.sender, c.them, c.ccy) in keys
    ensures var l' := Exec(Exact, l, c).0;
            Position(l'.trustlines, keys, party, ccy) == Position(l.trustlines, keys, party, ccy)
              + (if !Accepted(l, c) || ccy != c.ccy then 0
                 else if party == c.sender then 0 - (c.amount as int)
                 else if party == c.them then c.amount as int
                 else 0)
  {
    var l' := Exec(Exact, l, c).0;
    var k := KeyOf(c.sender, c.them, c.ccy);
    PositionSplit(l.trustlines, keys, k, party, ccy);
    PositionSplit(l'.trustlines, keys, k, party, ccy);
    PositionSame(l.trustlines, l'.trustlines, keys - {k}, party, ccy);
    if c.sender != c.them {
      PaymentByDirection(l, c, c.sender, c.them, c.ccy);
    }
  }
}
