/**
 The ledger entry kept in memory: one balance and two sets of terms, shared by any number of views that
 look at them from the one side or the other.
 */
module TrustlineValues {

  /** The terms and the balance as one side sees them; `p2OwesP1` may be negative. */
  datatype Entry = Entry(p2OwesP1: int, p1ToP2: Terms, p2ToP1: Terms)

  datatype Terms = Terms(allow: int, limit: int)

  const NO_TERMS := Terms(0, 0)

  /** The same entry seen from the other side. */
  function Reversed(e: Entry): (r: Entry) {
    Entry(-e.p2OwesP1, e.p2ToP1, e.p1ToP2)
  }

  /** The entry as seen through `depth` nested reversals. */
  function Seen(e: Entry, depth: nat): Entry {
    if depth == 0 then e else Reversed(Seen(e, depth - 1))
  }

  /** Any depth of nested reversals acts as its parity. */
  lemma {:induction false} SeenByParity(e: Entry, depth: nat)
    ensures Seen(e, depth) == if depth % 2 == 0 then e else Reversed(e)
  {
    if depth > 0 {
      SeenByParity(e, depth - 1);
    }
  }

  /** Looking twice through the same number of reversals shows the entry itself. */
  lemma SeenTwice(e: Entry, depth: nat)
    ensures Seen(Seen(e, depth), depth) == e
  {
    SeenByParity(e, depth);
    SeenByParity(Seen(e, depth), depth);
  }

  datatype Request = LimitRequest(amount: int) | AllowRequest(amount: int) | PaymentRequest(amount: int)

  /** Whether a request made on an entry is carried out rather than refused with an exception. */
  predicate Granted(e: Entry, r: Request) {
    && 0 <= r.amount
    && (r.PaymentRequest? ==> e.p2OwesP1 + r.amount <= e.p1ToP2.limit && e.p2OwesP1 + r.amount <= e.p1ToP2.allow)
  }

  /** The entry after a request; a refused one leaves it alone. */
  function After(e: Entry, r: Request): Entry {
    if !Granted(e, r) then e
    else
      match r
      case LimitRequest(amount) => e.(p1ToP2 := e.p1ToP2.(limit := amount))
      case AllowRequest(amount) => e.(p2ToP1 := e.p2ToP1.(allow := amount))
      case PaymentRequest(amount) => e.(p2OwesP1 := e.p2OwesP1 + amount)
  }

  /** The entry after a request made through `depth` nested reversals. */
  function AfterThrough(e: Entry, depth: nat, r: Request): Entry {
    Seen(After(Seen(e, depth), r), depth)
  }

  lemma AfterByParity(e: Entry, depth: nat, r: Request)
    ensures AfterThrough(e, depth, r) == if depth % 2 == 0 then After(e, r) else Reversed(After(Reversed(e), r))
    ensures Granted(Seen(e, depth), r) == Granted(if depth % 2 == 0 then e else Reversed(e), r)
  {
    SeenByParity(e, depth);
    SeenByParity(After(Seen(e, depth), r), depth);
  }

  class AllowAndLimit {
    var allow: int
    var limit: int

    constructor ()
      ensures allow == 0 && limit == 0
    {
      allow, limit := 0, 0;
    }

    method SetAllow(allowAmount: int) returns (ok: bool)
      modifies `allow
      ensures ok == (0 <= allowAmount)
      ensures allow == if ok then allowAmount else old(allow)
    {
      if allowAmount < 0 {
        return false;
      }
      allow := allowAmount;
      return true;
    }

    method SetLimit(limitAmount: int) returns (ok: bool)
      modifies `limit
      ensures ok == (0 <= limitAmount)
      ensures limit == if ok then limitAmount else old(limit)
    {
      if limitAmount < 0 {
        return false;
      }
      limit := limitAmount;
      return true;
    }

    ghost function Value(): Terms
      reads this
    {
      Terms(allow, limit)
    }
  }

  /** A view: the default one, which holds the entry, when it has no delegate, otherwise the reverse of its delegate. */
  class TrustlineView {
    const delegate: TrustlineView?
    ghost const depth: nat
    ghost const root: TrustlineView  // the default view at the end of the delegates
    const p1ToP2: AllowAndLimit?
    const p2ToP1: AllowAndLimit?
    var p2OwesP1: int

    /** The delegates lead to a default view, which holds two different sets of terms. */
    ghost predicate Valid()
      decreases depth
    {
      if delegate == null then
        && root == this && depth == 0
        && p1ToP2 != null && p2ToP1 != null && p1ToP2 != p2ToP1
      else
        && 0 < depth && delegate.depth == depth - 1 && root == delegate.root && delegate.Valid()
    }

    ghost predicate RootValid() {
      root.delegate == null && root.depth == 0 && root.root == root
      && root.p1ToP2 != null && root.p2ToP1 != null && root.p1ToP2 != root.p2ToP1
    }

    lemma ValidRoot()
      requires Valid()
      ensures RootValid()
      decreases depth
    {
      if delegate != null {
        delegate.ValidRoot();
      }
    }

    /** What the default view holds. */
    ghost function Held(): Entry
      requires RootValid()
      reads root, root.p1ToP2, root.p2ToP1
    {
      Entry(root.p2OwesP1, root.p1ToP2.Value(), root.p2ToP1.Value())
    }

    constructor Default()
      ensures Valid() && RootValid() && fresh(root) && fresh(root.p1ToP2) && fresh(root.p2ToP1)
      ensures depth == 0 && Held() == Entry(0, NO_TERMS, NO_TERMS)
    {
      var there := new AllowAndLimit();
      var back := new AllowAndLimit();
      delegate, depth, root := null, 0, this;
      p1ToP2, p2ToP1, p2OwesP1 := there, back, 0;
    }

    constructor Reverse(delegate: TrustlineView)
      requires delegate.Valid()
      ensures Valid() && root == delegate.root && depth == delegate.depth + 1
    {
      this.delegate, depth, root := delegate, delegate.depth + 1, delegate.root;
      p1ToP2, p2ToP1, p2OwesP1 := null, null, 0;
    }

    method GetP1ToP2() returns (r: AllowAndLimit)
      requires Valid()
      ensures RootValid() && r == if depth % 2 == 0 then root.p1ToP2 else root.p2ToP1
      decreases depth, 0
    {
      ValidRoot();
      if delegate == null {
        r := p1ToP2;
      } else {
        r := delegate.GetP2ToP1();
      }
    }

    method GetP2ToP1() returns (r: AllowAndLimit)
      requires Valid()
      ensures RootValid() && r == if depth % 2 == 0 then root.p2ToP1 else root.p1ToP2
      decreases depth, 0
    {
      ValidRoot();
      if delegate == null {
        r := p2ToP1;
      } else {
        r := delegate.GetP1ToP2();
      }
    }

    method GetP2OwesP1() returns (r: int)
      requires Valid()
      ensures RootValid() && r == Seen(Held(), depth).p2OwesP1
      decreases depth
    {
      ValidRoot();
      if delegate == null {
        r := p2OwesP1;
      } else {
        r := delegate.GetP2OwesP1();
        r := -r;
      }
    }

    method SetP2OwesP1(balance: int)
      requires Valid()
      modifies root`p2OwesP1
      ensures RootValid() && root.p2OwesP1 == if depth % 2 == 0 then balance else -balance
      decreases depth
    {
      ValidRoot();
      if delegate == null {
        p2OwesP1 := balance;
      } else {
        delegate.SetP2OwesP1(-balance);
      }
    }
  }

  class TrustlineValue {
    const view: TrustlineView

    ghost predicate Valid() {
      view.Valid() && view.RootValid()
    }

    /** The entry behind this value, whatever side it shows. */
    ghost function Held(): Entry
      requires Valid()
      reads view.root, view.root.p1ToP2, view.root.p2ToP1
    {
      view.Held()
    }

    /** The entry as this value shows it. */
    ghost function Value(): Entry
      requires Valid()
      reads view.root, view.root.p1ToP2, view.root.p2ToP1
    {
      Seen(view.Held(), view.depth)
    }

    constructor ()
      ensures Valid() && fresh(view.root) && fresh(view.root.p1ToP2) && fresh(view.root.p2ToP1)
      ensures view.depth == 0 && Value() == Entry(0, NO_TERMS, NO_TERMS)
    {
      view := new TrustlineView.Default();
    }

    constructor On(view: TrustlineView)
      requires view.Valid() && view.RootValid()
      ensures this.view == view && Valid()
    {
      this.view := view;
    }

    /** Another value on the same entry, showing its other side. */
    method Reverse() returns (r: TrustlineValue)
      requires Valid()
      ensures fresh(r) && r.Valid() && r.view.root == view.root && r.view.depth == view.depth + 1
      ensures r.Held() == Held() && r.Value() == Reversed(Value())
    {
      var reverseView := new TrustlineView.Reverse(view);
      r := new TrustlineValue.On(reverseView);
    }

    method SetLimit(limitAmount: int) returns (ok: bool)
      requires Valid()
      modifies view.root, view.root.p1ToP2, view.root.p2ToP1
      ensures Value() == After(old(Value()), LimitRequest(limitAmount))
      ensures Held() == AfterThrough(old(Held()), view.depth, LimitRequest(limitAmount))
      ensures ok == Granted(old(Value()), LimitRequest(limitAmount))
    {
      SeenByParity(view.Held(), view.depth);
      var terms := view.GetP1ToP2();
      ok := terms.SetLimit(limitAmount);
      SeenTwice(view.Held(), view.depth);
      SeenByParity(view.Held(), view.depth);
    }

    method GetLimit() returns (limit: int)
      requires Valid()
      ensures limit == Value().p1ToP2.limit
    {
      SeenByParity(view.Held(), view.depth);
      var terms := view.GetP1ToP2();
      limit := terms.limit;
    }

    method SetAllow(allowAmount: int) returns (ok: bool)
      requires Valid()
      modifies view.root, view.root.p1ToP2, view.root.p2ToP1
      ensures Value() == After(old(Value()), AllowRequest(allowAmount))
      ensures Held() == AfterThrough(old(Held()), view.depth, AllowRequest(allowAmount))
      ensures ok == Granted(old(Value()), AllowRequest(allowAmount))
    {
      SeenByParity(view.Held(), view.depth);
      var terms := view.GetP2ToP1();
      ok := terms.SetAllow(allowAmount);
      SeenTwice(view.Held(), view.depth);
      SeenByParity(view.Held(), view.depth);
    }

    method GetAllow() returns (allow: int)
      requires Valid()
      ensures allow == Value().p2ToP1.allow
    {
      SeenByParity(view.Held(), view.depth);
      var terms := view.GetP2ToP1();
      allow := terms.allow;
    }

    method SendPayment(paymentAmount: int) returns (ok: bool)
      requires Valid()
      modifies view.root, view.root.p1ToP2, view.root.p2ToP1
      ensures Value() == After(old(Value()), PaymentRequest(paymentAmount))
      ensures Held() == AfterThrough(old(Held()), view.depth, PaymentRequest(paymentAmount))
      ensures ok == Granted(old(Value()), PaymentRequest(paymentAmount))
    {
      SeenByParity(view.Held(), view.depth);
      SeenTwice(view.Held(), view.depth);
      if paymentAmount < 0 {
        return false;
      }
      var newBalance := view.GetP2OwesP1();
      newBalance := newBalance + paymentAmount;
      var terms := view.GetP1ToP2();
      var cap := if terms.limit <= terms.allow then terms.limit else terms.allow;
      if newBalance > cap {
        return false;
      }
      view.SetP2OwesP1(newBalance);
      SeenTwice(view.Held(), view.depth);
      SeenByParity(view.Held(), view.depth);
      return true;
    }

    method GetBalance() returns (balance: int)
      requires Valid()
      ensures balance == Value().p2OwesP1
    {
      balance := view.GetP2OwesP1();
    }
  }
}
