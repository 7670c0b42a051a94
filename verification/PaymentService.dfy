/**
 The trustline contract: one record for each ordered pair of parties and currency, reachable by either party.
 */
module PaymentService {
  import opened Int256

  const ADDRESSES: nat := 0x1_0000000000000000000000000000000000000000

  type Address = a: nat | a < ADDRESSES

  datatype AllowLimit = AllowLimit(allow: Int, limit: Int)

  /** What p1 and p2 owe each other in one currency; the balance is what p2 owes p1. */
  datatype TrustlineValue = TrustlineValue(p2OwesP1Amount: Int, p2OwesP1: AllowLimit, p1OwesP2: AllowLimit)

  /** Storage that was never written reads as zero. */
  const EMPTY := TrustlineValue(0, AllowLimit(0, 0), AllowLimit(0, 0))

  datatype Key = Key(p1: Address, p2: Address, ccy: string)

  datatype Event =
    | PaymentMessage(fromBank: Address, toBank: Address, messageId: string, amount: Int, ccy: string,
                     additionalProperties: string)
    | ResultMessage(toSender: Address, id: string, errorType: nat)

  const SUCCEEDED: nat := 0
  const INVALID_ADDRESS: nat := 1
  const PAYS_ITSELF: nat := 2
  const NEGATIVE_AMOUNT: nat := 3
  const EXCEEDS_LIMITS: nat := 4

  datatype Ledger = Ledger(trustlines: map<Key, TrustlineValue>, events: seq<Event>)

  /** The record shared by a pair, whichever of the two asks. */
  function KeyOf(us: Address, them: Address, ccy: string): Key {
    if us < them then Key(us, them, ccy) else Key(them, us, ccy)
  }

  function At(trustlines: map<Key, TrustlineValue>, k: Key): TrustlineValue {
    if k in trustlines then trustlines[k] else EMPTY
  }

  /** Writing a record; writing back what a record already reads as changes nothing. */
  function Put(trustlines: map<Key, TrustlineValue>, k: Key, tlv: TrustlineValue): (r: map<Key, TrustlineValue>)
    ensures forall j :: At(r, j) == if j == k then tlv else At(trustlines, j)
    ensures r.Keys <= trustlines.Keys + {k}
  {
    if At(trustlines, k) == tlv then trustlines else trustlines[k := tlv]
  }

  // ------------------------------------------------------------------ the ledger by direction of debt

  /** What `debtor` owes `creditor`, whichever of the two comes first in the record. */
  function Owed(l: Ledger, debtor: Address, creditor: Address, ccy: string): int {
    var tlv := At(l.trustlines, KeyOf(debtor, creditor, ccy));
    var balance: int := tlv.p2OwesP1Amount;
    if debtor < creditor then -balance else balance
  }

  /** The terms of the debt of `debtor` to `creditor`. */
  function Terms(l: Ledger, debtor: Address, creditor: Address, ccy: string): AllowLimit {
    var tlv := At(l.trustlines, KeyOf(debtor, creditor, ccy));
    if debtor < creditor then tlv.p1OwesP2 else tlv.p2OwesP1
  }

  /** The debt in force: the creditor limits it and the debtor allows it. */
  function Cap(l: Ledger, debtor: Address, creditor: Address, ccy: string): int {
    var terms := Terms(l, debtor, creditor, ccy);
    if terms.limit <= terms.allow then terms.limit else terms.allow
  }

  /** The half of an address's record with itself that is the terms of no debt. */
  function SpareTerms(l: Ledger, us: Address, ccy: string): AllowLimit {
    At(l.trustlines, KeyOf(us, us, ccy)).p1OwesP2
  }

  // ------------------------------------------------------------------ calls

  datatype Call =
    | SetLimit(sender: Address, them: Address, ccy: string, amount: Int)
    | SetAllow(sender: Address, them: Address, ccy: string, amount: Int)
    | SendPayment(sender: Address, them: Address, ccy: string, amount: Int, messageId: string,
                  additionalProperties: string)

  /** Whether sums wrap around as on the contract's machine, or are exact. */
  datatype Arithmetic = Machine | Exact

  function Sum(how: Arithmetic, x: int): int {
    if how.Machine? then Wrap(x) else x
  }

  /** What a payment that passes the checks of its arguments does to the record: nothing, or a new balance. */
  function NewBalance(how: Arithmetic, tlv: TrustlineValue, senderIsP1: bool, amount: Int): (r: (bool, int))
    ensures how.Machine? ==> -TWO_255 <= r.1 < TWO_255
    ensures !r.0 ==> r.1 == tlv.p2OwesP1Amount
    ensures 0 <= amount ==> -TWO_255 <= r.1 < TWO_255
  {
    if senderIsP1 then
      var newAmount := Sum(how, tlv.p2OwesP1Amount - amount);
      var debt := Sum(how, -newAmount);
      if debt <= tlv.p1OwesP2.limit && debt <= tlv.p1OwesP2.allow then (true, newAmount)
          else (false, tlv.p2OwesP1Amount)
    else
      var newAmount := Sum(how, tlv.p2OwesP1Amount + amount);
      if newAmount <= tlv.p2OwesP1.limit && newAmount <= tlv.p2OwesP1.allow then (true, newAmount)
          else (false, tlv.p2OwesP1Amount)
  }

  function ArgumentError(c: Call): nat
    requires c.SendPayment?
  {
    if c.them == 0 then INVALID_ADDRESS
    else if c.them == c.sender then PAYS_ITSELF
    else if c.amount < 0 then NEGATIVE_AMOUNT
    else SUCCEEDED
  }

  /** The ledger after a call, and the value the call returns. */
  function Exec(how: Arithmetic, l: Ledger, c: Call): (r: (Ledger, bool)) {
    var k := KeyOf(c.sender, c.them, c.ccy);
    var tlv := At(l.trustlines, k);
    match c
    case SetLimit(sender, them, ccy, amount) =>
      if amount < 0 then (l, false)
      else
        var tlv' := if sender < them then tlv.(p2OwesP1 := tlv.p2OwesP1.(limit := amount))
                    else tlv.(p1OwesP2 := tlv.p1OwesP2.(limit := amount));
        (l.(trustlines := Put(l.trustlines, k, tlv')), true)
    case SetAllow(sender, them, ccy, amount) =>
      if amount < 0 then (l, false)
      else
        var tlv' := if sender < them then tlv.(p1OwesP2 := tlv.p1OwesP2.(allow := amount))
                    else tlv.(p2OwesP1 := tlv.p2OwesP1.(allow := amount));
        (l.(trustlines := Put(l.trustlines, k, tlv')), true)
    case SendPayment(sender, them, ccy, amount, messageId, additionalProperties) =>
      var error := ArgumentError(c);
      if error != SUCCEEDED then (l.(events := l.events + [ResultMessage(sender, messageId, error)]), false)
      else
        var (accepted, balance) := NewBalance(how, tlv, sender < them, amount);
        if accepted then
          (Ledger(Put(l.trustlines, k, tlv.(p2OwesP1Amount := balance)),
                  l.events + [PaymentMessage(sender, them, messageId, amount, ccy, additionalProperties),
                              ResultMessage(sender, messageId, SUCCEEDED)]), true)
        else (l.(events := l.events + [ResultMessage(sender, messageId, EXCEEDS_LIMITS)]), true)
  }

  class PaymentService {
    var trustlines: map<Key, TrustlineValue>
    var events: seq<Event>

    ghost function Value(): Ledger
      reads this
    {
      Ledger(trustlines, events)
    }

    constructor ()
      ensures Value() == Ledger(map[], [])
    {
      trustlines, events := map[], [];
    }

    static predicate SenderIsP1Against(sender: Address, them: Address) {
      sender < them
    }

    function GetTrustlineValue(sender: Address, them: Address, ccy: string): TrustlineValue
      reads this
    {
      if sender < them then At(trustlines, Key(sender, them, ccy)) else At(trustlines, Key(them, sender, ccy))
    }

    method Write(sender: Address, them: Address, ccy: string, tlv: TrustlineValue)
      modifies `trustlines
      ensures trustlines == Put(old(trustlines), KeyOf(sender, them, ccy), tlv)
    {
      trustlines := Put(trustlines, KeyOf(sender, them, ccy), tlv);
    }

    /** Limits what they may owe us. */
    method SetLimit(sender: Address, them: Address, ccy: string, amount: Int) returns (succeeded: bool)
      modifies `trustlines
      ensures Value() == Exec(Machine, old(Value()), Call.SetLimit(sender, them, ccy, amount)).0
      ensures succeeded == Exec(Machine, old(Value()), Call.SetLimit(sender, them, ccy, amount)).1
    {
      if amount < 0 {
        return false;
      }
      var tlv := GetTrustlineValue(sender, them, ccy);
      if SenderIsP1Against(sender, them) {
        if tlv.p2OwesP1.limit != amount {
          Write(sender, them, ccy, tlv.(p2OwesP1 := tlv.p2OwesP1.(limit := amount)));
        }
      } else {
        if tlv.p1OwesP2.limit != amount {
          Write(sender, them, ccy, tlv.(p1OwesP2 := tlv.p1OwesP2.(limit := amount)));
        }
      }
      return true;
    }

    /** Allows ourselves to owe them. */
    method SetAllow(sender: Address, them: Address, ccy: string, amount: Int) returns (succeeded: bool)
      modifies `trustlines
      ensures Value() == Exec(Machine, old(Value()), Call.SetAllow(sender, them, ccy, amount)).0
      ensures succeeded == Exec(Machine, old(Value()), Call.SetAllow(sender, them, ccy, amount)).1
    {
      if amount < 0 {
        return false;
      }
      var tlv := GetTrustlineValue(sender, them, ccy);
      if SenderIsP1Against(sender, them) {
        if tlv.p1OwesP2.allow != amount {
          Write(sender, them, ccy, tlv.(p1OwesP2 := tlv.p1OwesP2.(allow := amount)));
        }
      } else {
        if tlv.p2OwesP1.allow != amount {
          Write(sender, them, ccy, tlv.(p2OwesP1 := tlv.p2OwesP1.(allow := amount)));
        }
      }
      return true;
    }

    /** Makes us owe them `amount` more, within the terms of our debt. */
    method SendPayment(sender: Address, them: Address, ccy: string, amount: Int, messageId: string,
                       additionalProperties: string)
      returns (succeeded: bool)
      modifies this
      ensures var result := Exec(Machine, old(Value()),
                                 Call.SendPayment(sender, them, ccy, amount, messageId, additionalProperties));
              Value() == result.0 && succeeded == result.1
    {
      if them == 0 {
        events := events + [ResultMessage(sender, messageId, INVALID_ADDRESS)];
        return false;
      }
      if them == sender {
        events := events + [ResultMessage(sender, messageId, PAYS_ITSELF)];
        return false;
      }
      if amount < 0 {
        events := events + [ResultMessage(sender, messageId, NEGATIVE_AMOUNT)];
        return false;
      }
      var tlv := GetTrustlineValue(sender, them, ccy);
      var newAmount: int;
      if SenderIsP1Against(sender, them) {
        newAmount := Wrap(tlv.p2OwesP1Amount - amount);
        if Wrap(-newAmount) <= tlv.p1OwesP2.limit && Wrap(-newAmount) <= tlv.p1OwesP2.allow {
          Write(sender, them, ccy, tlv.(p2OwesP1Amount := newAmount));
          events := events + [PaymentMessage(sender, them, messageId, amount, ccy, additionalProperties),
                              ResultMessage(sender, messageId, SUCCEEDED)];
        } else {
          events := events + [ResultMessage(sender, messageId, EXCEEDS_LIMITS)];
        }
      } else {
        newAmount := Wrap(tlv.p2OwesP1Amount + amount);
        if newAmount <= tlv.p2OwesP1.limit && newAmount <= tlv.p2OwesP1.allow {
          Write(sender, them, ccy, tlv.(p2OwesP1Amount := newAmount));
          events := events + [PaymentMessage(sender, them, messageId, amount, ccy, additionalProperties),
                              ResultMessage(sender, messageId, SUCCEEDED)];
        } else {
          events := events + [ResultMessage(sender, messageId, EXCEEDS_LIMITS)];
        }
      }
      return true;
    }

    /** What we owe them. */
    method GetAmountOwedTo(sender: Address, them: Address, ccy: string) returns (balance: Int)
      ensures balance == Wrap(Owed(Value(), sender, them, ccy))
    {
      var tlv := GetTrustlineValue(sender, them, ccy);
      if SenderIsP1Against(sender, them) {
        balance := Wrap(-1 * tlv.p2OwesP1Amount);
      } else {
        balance := tlv.p2OwesP1Amount;
      }
    }

    /** The limit we set them or, in reverse, the one they set us. */
    method GetLimit(sender: Address, them: Address, ccy: string, reverse: bool) returns (amount: Int)
      ensures amount == if reverse then Terms(Value(), sender, them, ccy).limit
                        else if sender == them then SpareTerms(Value(), sender, ccy).limit
                        else Terms(Value(), them, sender, ccy).limit
    {
      var tlv := GetTrustlineValue(sender, them, ccy);
      if SenderIsP1Against(sender, them) != reverse {
        amount := tlv.p2OwesP1.limit;
      } else {
        amount := tlv.p1OwesP2.limit;
      }
    }

    /** What we allow ourselves to owe them or, in reverse, they to owe us. */
    method GetAllow(sender: Address, them: Address, ccy: string, reverse: bool) returns (amount: Int)
      ensures amount == if !reverse then Terms(Value(), sender, them, ccy).allow
                        else if sender == them then SpareTerms(Value(), sender, ccy).allow
                        else Terms(Value(), them, sender, ccy).allow
    {
      var tlv := GetTrustlineValue(sender, them, ccy);
      if SenderIsP1Against(sender, them) != reverse {
        amount := tlv.p1OwesP2.allow;
      } else {
        amount := tlv.p2OwesP1.allow;
      }
    }
  }

  // ------------------------------------------------------------------ what a call does, by direction of debt

  /** Setting a limit binds the other party's debt to us and nothing else. */
  lemma SetLimitByDirection(how: Arithmetic, l: Ledger, c: Call, debtor: Address, creditor: Address, ccy: string)
    requires c.SetLimit?
    ensures var (l', ok) := Exec(how, l, c);
            && ok == (0 <= c.amount)
            && Owed(l', debtor, creditor, ccy) == Owed(l, debtor, creditor, ccy)
            && Terms(l', debtor, creditor, ccy) ==
               if ok && c.sender != c.them && (debtor, creditor, ccy) == (c.them, c.sender, c.ccy)
               then Terms(l, debtor, creditor, ccy).(limit := c.amount) else Terms(l, debtor, creditor, ccy)
    ensures SpareTerms(Exec(how, l, c).0, debtor, ccy).limit ==
            if 0 <= c.amount && (c.sender, c.them, c.ccy) == (debtor, debtor, ccy) then c.amount
                else SpareTerms(l, debtor, ccy).limit
  {
  }

  /** Allowing binds our own debt to the other party and nothing else. */
  lemma SetAllowByDirection(how: Arithmetic, l: Ledger, c: Call, debtor: Address, creditor: Address, ccy: string)
    requires c.SetAllow?
    ensures var (l', ok) := Exec(how, l, c);
            && ok == (0 <= c.amount)
            && Owed(l', debtor, creditor, ccy) == Owed(l, debtor, creditor, ccy)
            && Terms(l', debtor, creditor, ccy) ==
               if ok && (debtor, creditor, ccy) == (c.sender, c.them, c.ccy)
               then Terms(l, debtor, creditor, ccy).(allow := c.amount) else Terms(l, debtor, creditor, ccy)
  {
  }

  /** Whether a payment goes through on exact integers: the new debt stays within the terms of the debt. */
  predicate Accepted(l: Ledger, c: Call)
    requires c.SendPayment?
  {
    && ArgumentError(c) == SUCCEEDED
    && Owed(l, c.sender, c.them, c.ccy) + c.amount <= Cap(l, c.sender, c.them, c.ccy)
  }

  /**
   On exact integers an accepted payment moves its amount in one direction, counts against the sender in the
   other, and changes no other debt and no terms; a rejected one changes no trustline at all.
   */
  lemma PaymentByDirection(l: Ledger, c: Call, debtor: Address, creditor: Address, ccy: string)
    requires c.SendPayment?
    ensures var (l', ok) := Exec(Exact, l, c);
            && ok == (ArgumentError(c) == SUCCEEDED)
            && Terms(l', debtor, creditor, ccy) == Terms(l, debtor, creditor, ccy)
            && Owed(l', debtor, creditor, ccy) == Owed(l, debtor, creditor, ccy)
                 + (if !Accepted(l, c) then 0
                    else if (debtor, creditor, ccy) == (c.sender, c.them, c.ccy) then c.amount
                    else if (debtor, creditor, ccy) == (c.them, c.sender, c.ccy) then -c.amount
                    else 0)
            && (!Accepted(l, c) ==> l'.trustlines == l.trustlines)
  {
  }

  /** What keeps a payment from being made, by the number it is reported under; zero for a payment made. */
  predicate Code(l: Ledger, c: Call, code: nat)
    requires c.SendPayment?
  {
    var debt, terms := Owed(l, c.sender, c.them, c.ccy) + c.amount, Terms(l, c.sender, c.them, c.ccy);
    if c.them == 0 then code == 1
    else if c.them == c.sender then code == 2
    else if c.amount < 0 then code == 3
    else if terms.limit < debt || terms.allow < debt then code == 4
    else code == 0
  }

  /** The last message of a payment goes to the sender with the number of what kept it from being made. */
  lemma PaymentCode(l: Ledger, c: Call)
    requires c.SendPayment?
    ensures var l', ok := Exec(Exact, l, c).0, Exec(Exact, l, c).1;
            exists code ::
              && Code(l, c, code)
              && l'.events == l.events
                 + (if code == 0
                    then [PaymentMessage(c.sender, c.them, c.messageId, c.amount, c.ccy, c.additionalProperties)]
                        else [])
                 + [ResultMessage(c.sender, c.messageId, code)]
              && ok == (code == 0 || code == 4)
  {
    var debt, terms := Owed(l, c.sender, c.them, c.ccy) + c.amount, Terms(l, c.sender, c.them, c.ccy);
    var code := if c.them == 0 then 1 else if c.them == c.sender then 2 else if c.amount < 0 then 3
                else if terms.limit < debt || terms.allow < debt then 4 else 0;
    assert Code(l, c, code);
    assert l.events + [] + [ResultMessage(c.sender, c.messageId, code)] ==
           l.events + [ResultMessage(c.sender, c.messageId, code)];
    if code == 0 {
      var sent := PaymentMessage(c.sender, c.them, c.messageId, c.amount, c.ccy, c.additionalProperties);
      var told := ResultMessage(c.sender, c.messageId, 0);
      assert l.events + [sent] + [told] == l.events + [sent, told];
    }
  }

  /**
   What a payment tells: its last message reports success, and a payment message goes out before it, exactly if
   it is accepted; the answer is true as well for one refused for its limits.
   */
  lemma PaymentTells(l: Ledger, c: Call)
    requires c.SendPayment?
    ensures var (l', ok) := Exec(Exact, l, c);
            var told := l'.events[|l.events|..];
            && l.events <= l'.events && told != []
            && (told[|told| - 1] == ResultMessage(c.sender, c.messageId, SUCCEEDED) <==> Accepted(l, c))
            && (PaymentMessage(c.sender, c.them, c.messageId, c.amount, c.ccy, c.additionalProperties) in told <==>
                Accepted(l, c))
            && (ok <==> Accepted(l, c) || told == [ResultMessage(c.sender, c.messageId, EXCEEDS_LIMITS)])
  {
    var l' := Exec(Exact, l, c).0;
    if Accepted(l, c) {
      assert l'.events[|l.events|..] ==
               [PaymentMessage(c.sender, c.them, c.messageId, c.amount, c.ccy, c.additionalProperties),
                                         ResultMessage(c.sender, c.messageId, SUCCEEDED)];
    } else {
      assert l'.events[|l.events|..] ==
             [ResultMessage(c.sender, c.messageId, if ArgumentError(c) == SUCCEEDED then EXCEEDS_LIMITS
                            else ArgumentError(c))];
    }
  }

  /** Limits and allowances are never negative. */
  ghost predicate Bounded(l: Ledger) {
    forall k {:trigger At(l.trustlines, k)} :: NonNegative(At(l.trustlines, k))
  }

  predicate NonNegative(tlv: TrustlineValue) {
    && 0 <= tlv.p1OwesP2.allow && 0 <= tlv.p1OwesP2.limit
    && 0 <= tlv.p2OwesP1.allow && 0 <= tlv.p2OwesP1.limit
  }

  lemma ExecKeepsBounded(how: Arithmetic, l: Ledger, c: Call)
    requires Bounded(l)
    ensures Bounded(Exec(how, l, c).0)
  {
    forall k ensures NonNegative(At(Exec(how, l, c).0.trustlines, k)) {
      assert NonNegative(At(l.trustlines, k));
    }
  }

  /** A payment with valid arguments whose new debt reaches 2^255. */
  predicate Overflows(l: Ledger, c: Call) {
    c.SendPayment? && ArgumentError(c) == SUCCEEDED && TWO_255 <= Owed(l, c.sender, c.them, c.ccy) + c.amount
  }

  /** A call runs the same on wrapping and on exact integers unless it is a payment whose new debt reaches 2^255. */
  lemma MachineAgreesIff(l: Ledger, c: Call)
    requires Bounded(l)
    ensures Exec(Machine, l, c) == Exec(Exact, l, c) <==>
            !Overflows(l, c)
  {
    if c.SendPayment? && ArgumentError(c) == SUCCEEDED {
      var k := KeyOf(c.sender, c.them, c.ccy);
      var tlv := At(l.trustlines, k);
      assert NonNegative(tlv);
      var machine := NewBalance(Machine, tlv, c.sender < c.them, c.amount);
      var exact := NewBalance(Exact, tlv, c.sender < c.them, c.amount);
      if TWO_255 <= Owed(l, c.sender, c.them, c.ccy) + c.amount {
        assert machine.0 && !exact.0;
        assert |Exec(Machine, l, c).0.events| == |l.events| + 2;
        assert |Exec(Exact, l, c).0.events| == |l.events| + 1;
      } else {
        assert machine == exact;
      }
    }
  }
}
