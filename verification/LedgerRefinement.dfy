/**
 The contract refines the ledger entry kept in memory: its record for a pair of parties, read as an entry,
 changes as the entry does under the same calls made on a value or on its reverse.
 */
module LedgerRefinement {
  import opened Int256
  import opened PaymentService
  import opened LedgerRuns
  import T = TrustlineValues

  /** The record's debt of p2 to p1 is the entry's direction from p1 to p2. */
  function AsEntry(tlv: TrustlineValue): T.Entry {
    T.Entry(tlv.p2OwesP1Amount, AsTerms(tlv.p2OwesP1), AsTerms(tlv.p1OwesP2))
  }

  function AsTerms(t: AllowLimit): T.Terms {
    T.Terms(t.allow, t.limit)
  }

  function AsRequest(c: Call): T.Request {
    match c
    case SetLimit(_, _, _, amount) => T.LimitRequest(amount)
    case SetAllow(_, _, _, amount) => T.AllowRequest(amount)
    case SendPayment(_, _, _, amount, _, _) => T.PaymentRequest(amount)
  }

  /** p1 sets terms on the value and pays on its reverse; p2 the other way round. */
  predicate OnReverse(c: Call) {
    (c.sender < c.them) == c.SendPayment?
  }

  predicate Concerns(c: Call, k: Key) {
    KeyOf(c.sender, c.them, c.ccy) == k
  }

  /** The record of a pair is the same for both of them, and for no other pair or currency. */
  lemma KeyIsPair(a: Address, b: Address, ccy: string, c: Address, d: Address, ccy': string)
    ensures KeyOf(a, b, ccy) == KeyOf(c, d, ccy') <==> ccy == ccy' && {a, b} == {c, d}
  {
    if ccy == ccy' && {a, b} == {c, d} {
      assert a in {c, d} && b in {c, d} && c in {a, b} && d in {a, b};
    }
  }

  /** A call is carried out by the contract exactly if the entry grants the matching request. */
  predicate CarriedOut(l: Ledger, c: Call) {
    if c.SendPayment? then Accepted(l, c) else 0 <= c.amount
  }

  /** Nobody is behind address zero: the contract refuses to pay it, and no entry knows that. */
  predicate PaysNobody(c: Call) {
    c.SendPayment? && c.them == 0
  }

  /**
   One call of either party does to the record what the matching request does to the entry, through any
   number of reversals of the right parity, and is refused in the same cases; the one exception is a payment to
   address zero that the entry grants.
   */
  lemma StepRefines(l: Ledger, c: Call, k: Key, depth: nat)
    requires Concerns(c, k) && k.p1 < k.p2
    requires OnReverse(c) == (depth % 2 == 1)
    ensures var e, r := AsEntry(At(l.trustlines, k)), AsRequest(c);
            && (AsEntry(At(Exec(Exact, l, c).0.trustlines, k)) == T.AfterThrough(e, depth, r) <==>
                !(PaysNobody(c) && T.Granted(T.Seen(e, depth), r) && c.amount != 0))
            && (CarriedOut(l, c) <==> T.Granted(T.Seen(e, depth), r) && !PaysNobody(c))
  {
    hide Exec, Accepted, T.Granted, T.Seen, NewBalance;
    var tlv, r := At(l.trustlines, k), AsRequest(c);
    T.AfterByParity(AsEntry(tlv), depth, r);
    ExecRecord(l, c, k);
    CarriedOutIff(l, c, k);
    if PaysNobody(c) {
      NobodyIsPaid(tlv, c, AsEntry(tlv), r);
    } else {
      RecordRefines(tlv, c, AsEntry(tlv), r);
    }
  }

  lemma NobodyIsPaid(tlv: TrustlineValue, c: Call, e: T.Entry, r: T.Request)
    requires PaysNobody(c) && e == AsEntry(tlv) && r == AsRequest(c)
    ensures AsEntry(RecordAfter(tlv, c)) == e
    ensures (if OnReverse(c) then T.Reversed(T.After(T.Reversed(e), r)) else T.After(e, r)) == e <==>
            !(T.Granted(SideOf(e, c), r) && c.amount != 0)
  {
  }

  lemma ExecRecord(l: Ledger, c: Call, k: Key)
    requires Concerns(c, k)
    ensures At(Exec(Exact, l, c).0.trustlines, k) == RecordAfter(At(l.trustlines, k), c)
  {
  }

  lemma CarriedOutIff(l: Ledger, c: Call, k: Key)
    requires Concerns(c, k) && k.p1 < k.p2
    ensures CarriedOut(l, c) <==> T.Granted(SideOf(AsEntry(At(l.trustlines, k)), c), AsRequest(c)) && !PaysNobody(c)
  {
    hide Exec, NewBalance, AsEntry, T.Reversed;
    if c.SendPayment? {
      PaymentCarriedOutIff(l, c, k);
    }
  }

  lemma PaymentCarriedOutIff(l: Ledger, c: Call, k: Key)
    requires Concerns(c, k) && k.p1 < k.p2 && c.SendPayment?
    ensures Accepted(l, c) <==> T.Granted(SideOf(AsEntry(At(l.trustlines, k)), c), AsRequest(c)) && c.them != 0
  {
    hide Exec, NewBalance, AsEntry, T.Reversed, Owed, Terms;
    PayerSees(l, c.sender, c.them, c.ccy);
  }

  /**
   What the contract answers is what the entry grants, unless the payment is refused for its limits, which the
   contract answers with true, or goes to address zero though the entry grants it.
   */
  lemma AnswersIff(l: Ledger, c: Call, k: Key)
    requires Concerns(c, k) && k.p1 < k.p2
    ensures var granted := T.Granted(SideOf(AsEntry(At(l.trustlines, k)), c), AsRequest(c));
            var refused := c.SendPayment? && ArgumentError(c) == SUCCEEDED && !Accepted(l, c);
            Exec(Exact, l, c).1 == granted <==> !refused && !(PaysNobody(c) && granted)
  {
    hide AsEntry, T.Reversed, NewBalance, Owed, Cap;
    CarriedOutIff(l, c, k);
  }

  function SideOf(e: T.Entry, c: Call): T.Entry {
    if OnReverse(c) then T.Reversed(e) else e
  }

  /** The side on which a payer's request is made shows the payer's debt and its terms. */
  lemma PayerSees(l: Ledger, payer: Address, payee: Address, ccy: string)
    requires payer != payee
    ensures var e := AsEntry(At(l.trustlines, KeyOf(payer, payee, ccy)));
            var side := if payer < payee then T.Reversed(e) else e;
            && side.p2OwesP1 == Owed(l, payer, payee, ccy)
            && side.p1ToP2 == AsTerms(Terms(l, payer, payee, ccy))
  {
  }

  /** What one call makes of its record. */
  function RecordAfter(tlv: TrustlineValue, c: Call): TrustlineValue {
    if c.amount < 0 then tlv
    else
      var p1Calls := c.sender < c.them;
      match c
      case SetLimit(_, _, _, amount) =>
        if p1Calls then tlv.(p2OwesP1 := tlv.p2OwesP1.(limit := amount))
            else tlv.(p1OwesP2 := tlv.p1OwesP2.(limit := amount))
      case SetAllow(_, _, _, amount) =>
        if p1Calls then tlv.(p1OwesP2 := tlv.p1OwesP2.(allow := amount))
            else tlv.(p2OwesP1 := tlv.p2OwesP1.(allow := amount))
      case SendPayment(_, them, _, amount, _, _) =>
        if them == 0 || them == c.sender then tlv else tlv.(p2OwesP1Amount := NewBalance(Exact, tlv, p1Calls, amount).1)
  }

  lemma RecordRefines(tlv: TrustlineValue, c: Call, e: T.Entry, r: T.Request)
    requires c.sender != c.them && !PaysNobody(c) && e == AsEntry(tlv) && r == AsRequest(c)
    ensures AsEntry(RecordAfter(tlv, c)) ==
            if OnReverse(c) then T.Reversed(T.After(T.Reversed(e), r)) else T.After(e, r)
  {
  }

  /** What a party owes is the balance of the value or of its reverse. */
  lemma OwedRefines(l: Ledger, k: Key)
    requires k.p1 < k.p2
    ensures Owed(l, k.p2, k.p1, k.ccy) == AsEntry(At(l.trustlines, k)).p2OwesP1
    ensures Owed(l, k.p1, k.p2, k.ccy) == T.Reversed(AsEntry(At(l.trustlines, k))).p2OwesP1
  {
  }

  /**
   The entry after the calls of a run that concern its pair, each made through some number of reversals;
   payments to nobody do not reach it.
   */
  function EntryAfter(e: T.Entry, calls: seq<Call>, depths: seq<nat>, k: Key): T.Entry
    requires |calls| == |depths|
    decreases |calls|
  {
    if calls == [] then e
    else
      var e' := if Concerns(calls[0], k) && !PaysNobody(calls[0])
          then T.AfterThrough(e, depths[0], AsRequest(calls[0])) else e;
      EntryAfter(e', calls[1..], depths[1..], k)
  }

  /** In any interleaving of calls by anybody, the record of a pair runs as its entry does. */
  lemma {:induction false} RunRefines(l: Ledger, calls: seq<Call>, depths: seq<nat>, k: Key)
    requires |calls| == |depths| && k.p1 < k.p2
    requires forall i | 0 <= i < |calls| :: OnReverse(calls[i]) == (depths[i] % 2 == 1)
    ensures AsEntry(At(ExecAll(Exact, l, calls).trustlines, k)) ==
              EntryAfter(AsEntry(At(l.trustlines, k)), calls, depths, k)
    decreases |calls|
  {
    if calls != [] {
      if Concerns(calls[0], k) {
        StepRefines(l, calls[0], k, depths[0]);
      }
      RunRefines(Exec(Exact, l, calls[0]).0, calls[1..], depths[1..], k);
    }
  }

  /** The deployed contract, on its own 256-bit arithmetic, against the entry on unbounded integers. */
  lemma DeployedRefines(calls: seq<Call>, depths: seq<nat>, k: Key)
    requires |calls| == |depths| && k.p1 < k.p2
    requires forall i | 0 <= i < |calls| :: OnReverse(calls[i]) == (depths[i] % 2 == 1)
    requires forall c | c in calls :: c.amount < TWO_254
    ensures AsEntry(At(ExecAll(Machine, DEPLOYED, calls).trustlines, k))
         == EntryAfter(T.Entry(0, T.NO_TERMS, T.NO_TERMS), calls, depths, k)
  {
    NoWrapAround(DEPLOYED, calls);
    RunRefines(DEPLOYED, calls, depths, k);
  }
}
