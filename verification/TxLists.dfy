/**
 Transaction lists of one account, keyed by nonce, with the operations the pool uses on them.
 */
module TxLists {
  import opened Collections

  type Address = nat

  datatype Tx = Tx(from: Address, nonce: nat, price: nat, cost: nat, payload: nat)

  type Items = map<nat, Tx>

  function MaxKey(items: Items): (m: nat)
    requires items != map[]
    ensures m in items && forall n | n in items :: n <= m
  {
    KeysNotEmpty(items);
    MaxExists(items.Keys);
    var m :| m in items.Keys && forall n | n in items.Keys :: n <= m;
    m
  }

  function MinKey(items: Items): (m: nat)
    requires items != map[]
    ensures m in items && forall n | n in items :: m <= n
  {
    KeysNotEmpty(items);
    LeastExists(items.Keys);
    var m :| m in items.Keys && forall n | n in items.Keys :: m <= n;
    m
  }

  lemma KeysNotEmpty(items: Items)
    requires items != map[]
    ensures items.Keys != {}
  {
    var n :| n in items;
  }

  /** A new transaction replaces one with its nonce only at a higher price. */
  predicate Accepts(items: Items, tx: Tx) {
    tx.nonce in items ==> items[tx.nonce].price < tx.price
  }

  function Below(items: Items, threshold: nat): Items {
    map n | n in items && n < threshold :: items[n]
  }

  function From(items: Items, threshold: nat): Items {
    map n | n in items && threshold <= n :: items[n]
  }

  function Unpayable(items: Items, balance: nat): Items {
    map n | n in items && items[n].cost > balance :: items[n]
  }

  function Payable(items: Items, balance: nat): Items {
    map n | n in items && items[n].cost <= balance :: items[n]
  }

  /** The lowest k nonces: the highest ones are dropped one after the other. */
  function Cap(items: Items, k: nat): Items
    decreases |items|
  {
    if |items| <= k then items
    else Cap(items - {MaxKey(items)}, k)
  }

  lemma {:induction false} CapKeepsLowest(items: Items, k: nat)
    ensures |Cap(items, k)| == if |items| <= k then |items| else k
    ensures forall n | n in Cap(items, k) :: n in items && Cap(items, k)[n] == items[n]
    ensures forall n, m | n in Cap(items, k) && m in items && m !in Cap(items, k) :: n < m
    decreases |items|
  {
    if k < |items| {
      var top := MaxKey(items);
      var rest := items - {top};
      RemoveOne(items, top);
      CapKeepsLowest(rest, k);
    }
  }

  lemma RemoveOne(items: Items, n: nat)
    requires n in items
    ensures |items - {n}| == |items| - 1
  {
    var rest := items - {n};
    assert rest.Keys == items.Keys - {n};
    assert |rest.Keys| == |rest| && |items.Keys| == |items|;
  }

  /** Capping in steps is capping once. */
  lemma {:induction false} CapTwice(items: Items, j: nat, k: nat)
    requires k <= j
    ensures Cap(Cap(items, j), k) == Cap(items, k)
    decreases |items|
  {
    if j < |items| {
      RemoveOne(items, MaxKey(items));
      CapTwice(items - {MaxKey(items)}, j, k);
    }
  }

  /** Dropping the highest nonce caps at one less. */
  lemma DropHighest(items: Items)
    requires items != map[]
    ensures items - {MaxKey(items)} == Cap(items, |items| - 1)
  {
    RemoveOne(items, MaxKey(items));
  }

  /** The transactions in the order of their nonces. */
  function Flatten(items: Items): (s: seq<Tx>)
    ensures |s| == |items|
    decreases |items|
  {
    if items == map[] then []
    else
      var n := MinKey(items);
      RemoveOne(items, n);
      [items[n]] + Flatten(items - {n})
  }

  predicate ByNonce(items: Items) {
    forall n | n in items :: items[n].nonce == n
  }

  predicate Rising(s: seq<Tx>) {
    forall i, j | 0 <= i < j < |s| :: s[i].nonce < s[j].nonce
  }

  lemma {:induction false} FlattenMembers(items: Items)
    requires ByNonce(items)
    ensures forall tx :: tx in Flatten(items) <==> tx.nonce in items && items[tx.nonce] == tx
    decreases |items|
  {
    if items != map[] {
      var n := MinKey(items);
      var rest := items - {n};
      RemoveOne(items, n);
      FlattenMembers(rest);
      FlattenStep(items);
      hide Flatten;
      forall tx ensures tx in Flatten(items) <==> tx.nonce in items && items[tx.nonce] == tx {
        assert tx in Flatten(items) <==> tx == items[n] || tx in Flatten(rest);
      }
    }
  }

  lemma {:induction false} FlattenRises(items: Items)
    requires ByNonce(items)
    ensures Rising(Flatten(items))
    decreases |items|
  {
    if items != map[] {
      var n := MinKey(items);
      var rest := items - {n};
      RemoveOne(items, n);
      FlattenRises(rest);
      FlattenMembers(rest);
      FlattenStep(items);
      hide Flatten;
      var g := Flatten(rest);
      forall j | 0 <= j < |g| ensures n < g[j].nonce {
        assert g[j] in g;
      }
      RisingCons(items[n], g);
    }
  }

  lemma RisingCons(tx: Tx, s: seq<Tx>)
    requires Rising(s) && forall j | 0 <= j < |s| :: tx.nonce < s[j].nonce
    ensures Rising([tx] + s)
  {
  }

  lemma FlattenStep(items: Items)
    requires items != map[]
    ensures Flatten(items) == [items[MinKey(items)]] + Flatten(items - {MinKey(items)})
  {
  }

  /** The unbroken run of nonces from n on. */
  function Run(items: Items, n: nat): seq<Tx>
    decreases |items|
  {
    if n !in items then []
    else
      RemoveOne(items, n);
      [items[n]] + Run(items - {n}, n + 1)
  }

  /** What can be executed next: the run from the lowest nonce, unless that lies above the account's nonce. */
  function Ready(items: Items, start: nat): seq<Tx> {
    if items == map[] || start < MinKey(items) then [] else Run(items, MinKey(items))
  }

  lemma {:induction false} RunHas(items: Items, n: nat)
    ensures IsRun(items, n, Run(items, n))
    ensures n + |Run(items, n)| !in items
    decreases |items|
  {
    if n in items {
      var rest := items - {n};
      RemoveOne(items, n);
      RunHas(rest, n + 1);
      RunCons(items, n, Run(rest, n + 1));
      assert (n + 1) + |Run(rest, n + 1)| !in rest;
    }
  }

  predicate IsRun(items: Items, n: nat, run: seq<Tx>) {
    forall i | 0 <= i < |run| :: RunAt(items, n, run, i)
  }

  predicate RunAt(items: Items, n: nat, run: seq<Tx>, i: nat)
    requires i < |run|
  {
    n + i in items && run[i] == items[n + i]
  }

  lemma RunCons(items: Items, n: nat, run: seq<Tx>)
    requires n in items && IsRun(items - {n}, n + 1, run)
    ensures IsRun(items, n, [items[n]] + run)
  {
    var f := [items[n]] + run;
    forall i | 0 <= i < |f| ensures RunAt(items, n, f, i) {
      if i > 0 {
        assert RunAt(items - {n}, n + 1, run, i - 1);
      }
    }
  }

  /** Capping and taking the lowest nonce away can be done in either order. */
  lemma {:induction false} CapWithoutMin(items: Items, k: nat)
    requires items != map[] && 1 <= k
    ensures Cap(items, k) != map[] && MinKey(Cap(items, k)) == MinKey(items)
    ensures Cap(items, k) - {MinKey(items)} == Cap(items - {MinKey(items)}, k - 1)
    decreases |items|
  {
    var low := MinKey(items);
    RemoveOne(items, low);
    if k < |items| {
      var top := MaxKey(items);
      RemoveOne(items, top);
      TwoKeys(items);
      CapWithoutMin(items - {top}, k);
      assert items - {top} - {low} == items - {low} - {top};
      RemoveOne(items - {low}, top);
    }
  }

  lemma TwoKeys(items: Items)
    requires 2 <= |items|
    ensures items != map[] && MinKey(items) < MaxKey(items)
    ensures var low, top := MinKey(items), MaxKey(items);
            && items - {top} != map[] && MinKey(items - {top}) == low
            && items - {low} != map[] && MaxKey(items - {low}) == top
  {
    var low, top := MinKey(items), MaxKey(items);
    RemoveOne(items, low);
    var other :| other in items - {low};
    assert low < other <= top;
    assert low in items - {top} && top in items - {low};
  }

  /** The lowest nonces come first. */
  lemma {:induction false} FlattenCap(items: Items, k: nat)
    requires k <= |items|
    ensures Flatten(Cap(items, k)) == Flatten(items)[..k]
    decreases |items|
  {
    hide Flatten;
    CapKeepsLowest(items, k);
    if 0 < k {
      var low := MinKey(items);
      RemoveOne(items, low);
      CapWithoutMin(items, k);
      FlattenCap(items - {low}, k - 1);
      FlattenStep(items);
      FlattenStep(Cap(items, k));
      assert items[low] == Cap(items, k)[low];
    } else {
      assert Cap(items, 0) == map[];
      FlattenNothing();
    }
  }

  lemma FlattenNothing()
    ensures Flatten(map[]) == []
  {
  }

  /** The last transaction is the one with the highest nonce. */
  lemma LastIsHighest(items: Items)
    requires ByNonce(items) && items != map[]
    ensures 0 < |items| && Flatten(items)[|items| - 1] == items[MaxKey(items)]
  {
    KeysNotEmpty(items);
    assert |items.Keys| == |items|;
    FlattenMembers(items);
    FlattenRises(items);
    var f := Flatten(items);
    var top := items[MaxKey(items)];
    assert top in f;
    var i :| 0 <= i < |f| && f[i] == top;
    assert f[|f| - 1] in f;
  }

  /** Position k in the order of nonces is the highest of the lowest k + 1. */
  lemma FlattenAt(items: Items, k: nat)
    requires ByNonce(items) && k < |items|
    ensures Cap(items, k + 1) != map[] && Flatten(items)[k] == Cap(items, k + 1)[MaxKey(Cap(items, k + 1))]
  {
    hide Cap, Flatten;
    var low := Cap(items, k + 1);
    CapKeepsLowest(items, k + 1);
    FlattenCap(items, k + 1);
    LastIsHighest(low);
    assert Flatten(items)[..k + 1][k] == Flatten(items)[k];
  }
}
