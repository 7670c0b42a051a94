/**
 Sharing a limited number of slots among accounts: nobody is cut below a common level, and the level is as
 high as the limit allows.
 */
module WaterFilling {

  type Address = nat

  /** How many transactions each account has pending. */
  type Lengths = map<Address, nat>

  ghost function Total(m: Lengths): nat {
    if m == map[] then 0
    else
      var a := Pick(m);
      m[a] + Total(m - {a})
  }

  ghost function Pick(m: Lengths): Address
    requires m != map[]
    ensures Pick(m) in m
  {
    var a :| a in m; a
  }

  lemma {:induction false} TotalSplit(m: Lengths, a: Address)
    requires a in m
    ensures Total(m) == m[a] + Total(m - {a})
    decreases |m|
  {
    var first := Pick(m);
    if a != first {
      Smaller(m, first);
      Smaller(m, a);
      TotalSplit(m - {first}, a);
      TotalSplit(m - {a}, first);
      assert m - {first} - {a} == m - {a} - {first};
    }
  }

  lemma Smaller(m: Lengths, a: Address)
    requires a in m
    ensures |m - {a}| < |m|
  {
    assert (m - {a}).Keys == m.Keys - {a};
    assert |(m - {a}).Keys| == |m - {a}| && |m.Keys| == |m|;
  }

  /** Changing one entry changes the total by as much. */
  lemma TotalUpdate(m: Lengths, a: Address, n: nat)
    requires a in m
    ensures Total(m[a := n]) == Total(m) - m[a] + n
  {
    TotalSplit(m, a);
    TotalSplit(m[a := n], a);
    assert m[a := n] - {a} == m - {a};
  }

  lemma TotalAdd(m: Lengths, a: Address, n: nat)
    requires a !in m
    ensures Total(m[a := n]) == Total(m) + n
  {
    TotalSplit(m[a := n], a);
    assert m[a := n] - {a} == m;
  }

  lemma TotalDrop(m: Lengths, a: Address)
    requires a in m
    ensures Total(m - {a}) == Total(m) - m[a]
  {
    TotalSplit(m, a);
  }

  lemma {:induction false} TotalMonotone(m: Lengths, n: Lengths)
    requires m.Keys == n.Keys && forall a | a in m :: m[a] <= n[a]
    ensures Total(m) <= Total(n)
    decreases |m|
  {
    if m != map[] {
      var a := Pick(m);
      Smaller(m, a);
      TotalSplit(n, a);
      assert (m - {a}).Keys == (n - {a}).Keys;
      TotalMonotone(m - {a}, n - {a});
    } else {
      assert n.Keys == {};
    }
  }

  function Part(m: Lengths, a: Address): nat {
    if a in m then m[a] else 0
  }

  /** Totals add up account by account. */
  lemma {:induction false} TotalOfParts(m: Lengths, n: Lengths, o: Lengths)
    requires n.Keys <= m.Keys && o.Keys <= m.Keys
    requires forall a | a in m :: m[a] == Part(n, a) + Part(o, a)
    ensures Total(m) == Total(n) + Total(o)
    decreases |m|
  {
    if m == map[] {
      assert n == map[] && o == map[];
    } else {
      var a := Pick(m);
      Smaller(m, a);
      TotalWithout(n, a);
      TotalWithout(o, a);
      TotalOfParts(m - {a}, n - {a}, o - {a});
    }
  }

  /** Fewer accounts with no more each have no more together. */
  lemma TotalOfFewer(m: Lengths, n: Lengths)
    requires forall a | a in m :: a in n && m[a] <= n[a]
    ensures Total(m) <= Total(n)
  {
    TotalOfParts(n, m, map a | a in n :: n[a] - if a in m then m[a] else 0);
  }

  lemma TotalWithout(m: Lengths, a: Address)
    ensures Total(m) == Part(m, a) + Total(m - {a})
  {
    if a in m {
      TotalSplit(m, a);
    } else {
      assert m - {a} == m;
    }
  }

  function Min(x: nat, y: nat): nat {
    if x <= y then x else y
  }

  /** Every account that is not spared cut down to a level. */
  function CutTo(m: Lengths, spared: set<Address>, level: nat): Lengths {
    map a | a in m :: if a in spared then m[a] else Min(m[a], level)
  }

  lemma CutToMonotone(m: Lengths, spared: set<Address>, low: nat, high: nat)
    requires low <= high
    ensures Total(CutTo(m, spared, low)) <= Total(CutTo(m, spared, high))
  {
    TotalMonotone(CutTo(m, spared, low), CutTo(m, spared, high));
  }

  /**
   The share given to the accounts: everybody not spared is cut to one level, never below the guaranteed
   minimum. The level is within the limit and the highest one that is, or else it is the minimum and even
   that does not fit.
   */
  ghost predicate FairShare(m: Lengths, spared: set<Address>, minimum: nat, limit: nat, level: nat, result: Lengths) {
    && result == CutTo(m, spared, level)
    && minimum <= level
    && (if Total(CutTo(m, spared, minimum)) <= limit then Total(result) <= limit else level == minimum)
    && forall higher: nat | level < higher :: limit < Total(CutTo(m, spared, higher))
  }

  /** When equalising stops: the next level up does not fit, and either this one fits or it is the minimum. */
  lemma StopsFair(m: Lengths, spared: set<Address>, minimum: nat, limit: nat, level: nat)
    requires minimum <= level
    requires limit < Total(CutTo(m, spared, level + 1))
    requires Total(CutTo(m, spared, level)) <= limit || level == minimum
    ensures FairShare(m, spared, minimum, limit, level, CutTo(m, spared, level))
  {
    hide CutTo, Total;
    CutToMonotone(m, spared, minimum, level);
    forall higher: nat | level < higher ensures limit < Total(CutTo(m, spared, higher)) {
      CutToMonotone(m, spared, level + 1, higher);
    }
  }

  /** The share is determined: there is only one fair level. */
  lemma FairShareUnique(m: Lengths, spared: set<Address>, minimum: nat, limit: nat, i: nat, r: Lengths, j: nat,
                        s: Lengths)
    requires FairShare(m, spared, minimum, limit, i, r) && FairShare(m, spared, minimum, limit, j, s)
    ensures i == j && r == s
  {
    assert i < j ==> limit < Total(CutTo(m, spared, j));
    assert j < i ==> limit < Total(CutTo(m, spared, i));
  }

  // ------------------------------------------------------------------ how fair the share is

  /**
   Another way to serve the same accounts within the limit: nobody gets more than asked for, spared accounts
   get all.
   */
  ghost predicate Allocation(m: Lengths, spared: set<Address>, limit: nat, other: Lengths) {
    && other.Keys == m.Keys && Total(other) <= limit
    && (forall a | a in m :: other[a] <= m[a])
    && forall a | a in m && a in spared :: other[a] == m[a]
  }

  /** Whatever is done within the limit, somebody is cut, and down to the level or below. */
  lemma SomebodyIsCutToLevel(m: Lengths, spared: set<Address>, minimum: nat, limit: nat, level: nat, result: Lengths,
                             other: Lengths)
    requires FairShare(m, spared, minimum, limit, level, result) && Allocation(m, spared, limit, other)
    ensures exists b :: b in m && b !in spared && other[b] < m[b] && other[b] <= level
  {
    if forall b | b in m && b !in spared && other[b] < m[b] :: level < other[b] {
      var next := CutTo(m, spared, level + 1);
      forall b | b in m ensures next[b] <= other[b] {
      }
      TotalMonotone(next, other);
      assert false;
    }
  }

  /** How much one allocation gives accounts beyond another, added up. */
  function Beyond(m: Lengths, n: Lengths): Lengths {
    map a | a in m && a in n :: if n[a] < m[a] then m[a] - n[a] else 0
  }

  lemma BeyondWithout(m: Lengths, n: Lengths, a: Address)
    ensures Beyond(m, n) - {a} == Beyond(m - {a}, n - {a})
  {
  }

  /** What some accounts get beyond a share is what others fall short of it, and the difference of the totals. */
  lemma {:induction false} BeyondBalances(m: Lengths, n: Lengths)
    requires m.Keys == n.Keys
    ensures Total(Beyond(m, n)) + Total(n) == Total(Beyond(n, m)) + Total(m)
    decreases |m|
  {
    if m == map[] {
      assert n == map[] && Beyond(m, n) == map[] && Beyond(n, m) == map[];
    } else {
      var a := Pick(m);
      Smaller(m, a);
      TotalSplit(n, a);
      TotalSplit(Beyond(m, n), a);
      TotalSplit(Beyond(n, m), a);
      BeyondWithout(m, n, a);
      BeyondWithout(n, m, a);
      BeyondBalances(m - {a}, n - {a});
    }
  }

  /** The accounts that ask for more than the level and are cut to it. */
  function Above(m: Lengths, spared: set<Address>, level: nat): set<Address> {
    set a | a in m && a !in spared && level < m[a]
  }

  lemma CutWithout(m: Lengths, spared: set<Address>, level: nat, a: Address)
    ensures CutTo(m, spared, level) - {a} == CutTo(m - {a}, spared, level)
  {
  }

  lemma AboveWithout(m: Lengths, spared: set<Address>, level: nat, a: Address)
    requires a in m
    ensures |Above(m, spared, level)| == |Above(m - {a}, spared, level)| + if a !in spared && level < m[a] then 1 else 0
  {
    var rest := Above(m - {a}, spared, level);
    assert Above(m, spared, level) == if a !in spared && level < m[a] then rest + {a} else rest;
  }

  /** One level more costs one slot for every account above the level. */
  lemma {:induction false} NextLevelCosts(m: Lengths, spared: set<Address>, level: nat)
    ensures Total(CutTo(m, spared, level + 1)) == Total(CutTo(m, spared, level)) + |Above(m, spared, level)|
    decreases |m|
  {
    if m == map[] {
      assert CutTo(m, spared, level) == map[] && CutTo(m, spared, level + 1) == map[];
      assert Above(m, spared, level) == {};
    } else {
      var a := Pick(m);
      Smaller(m, a);
      NextLevelCosts(m - {a}, spared, level);
      TotalSplit(CutTo(m, spared, level), a);
      TotalSplit(CutTo(m, spared, level + 1), a);
      CutWithout(m, spared, level, a);
      CutWithout(m, spared, level + 1, a);
      AboveWithout(m, spared, level, a);
    }
  }

  /** Fewer slots stay unused than there are accounts cut to the level: one more for each of them does not fit. */
  lemma SlackIsSmall(m: Lengths, spared: set<Address>, minimum: nat, limit: nat, level: nat, result: Lengths)
    requires FairShare(m, spared, minimum, limit, level, result)
    ensures limit - Total(result) < |Above(m, spared, level)|
  {
    NextLevelCosts(m, spared, level);
  }

  /**
   What any other allocation gives accounts beyond their fair share comes from accounts it leaves below theirs,
   but for the slots that the fair share leaves unused, which are fewer than the accounts it cuts.
   */
  lemma GainsAreLosses(m: Lengths, spared: set<Address>, minimum: nat, limit: nat, level: nat, result: Lengths,
                       other: Lengths)
    requires FairShare(m, spared, minimum, limit, level, result) && Allocation(m, spared, limit, other)
    ensures Total(Beyond(other, result)) <= Total(Beyond(result, other)) + (limit - Total(result))
    ensures Total(Beyond(other, result)) < Total(Beyond(result, other)) + |Above(m, spared, level)|
  {
    BeyondBalances(other, result);
    SlackIsSmall(m, spared, minimum, limit, level, result);
  }

  /** Max-min fairness: nobody can get more unless somebody gets less who has no more than that one. */
  ghost predicate MaxMin(m: Lengths, spared: set<Address>, limit: nat, result: Lengths) {
    result.Keys == m.Keys &&
    forall other, a | Allocation(m, spared, limit, other) && a in m && result[a] < other[a] :: Pays(result, other, a)
  }

  ghost predicate Pays(result: Lengths, other: Lengths, a: Address)
    requires a in result
  {
    exists b :: b in result && b in other && other[b] < result[b] <= result[a]
  }

  /** Without unused slots, more than the fair share is paid for by somebody who has no more than that. */
  lemma FullShareIsPaidFor(m: Lengths, spared: set<Address>, minimum: nat, limit: nat, level: nat, result: Lengths,
                           other: Lengths, a: Address)
    requires FairShare(m, spared, minimum, limit, level, result) && Allocation(m, spared, limit, other)
    requires limit <= Total(result) && a in m && result[a] < other[a]
    ensures Pays(result, other, a)
  {
    hide Total;
    SomebodyLoses(result, other, a);
    var b :| b in m && other[b] < result[b];
    assert result[b] <= level == result[a];
  }

  /** Who gets more within the same total takes it from somebody. */
  lemma SomebodyLoses(result: Lengths, other: Lengths, a: Address)
    requires result.Keys == other.Keys && Total(other) <= Total(result) && a in result && result[a] < other[a]
    ensures exists b :: b in result && other[b] < result[b]
  {
    hide Total;
    if forall b | b in result :: result[b] <= other[b] {
      var raised := result[a := result[a] + 1];
      TotalUpdate(result, a, result[a] + 1);
      TotalMonotone(raised, other);
      assert false;
    }
  }

  /** An unused slot could go to an account that is cut, at nobody's cost. */
  lemma SlackIsFree(m: Lengths, spared: set<Address>, minimum: nat, limit: nat, level: nat,
                    result: Lengths)
    returns (other: Lengths, a: Address)
    requires FairShare(m, spared, minimum, limit, level, result) && Total(result) < limit
    ensures Allocation(m, spared, limit, other) && a in m && result[a] < other[a] && !Pays(result, other, a)
  {
    SlackIsSmall(m, spared, minimum, limit, level, result);
    a :| a in Above(m, spared, level);
    other := result[a := result[a] + 1];
    TotalUpdate(result, a, result[a] + 1);
  }

  /** No slot stays unused exactly if some level from the minimum up uses them all, or the minimum takes more. */
  lemma NoSlackIff(m: Lengths, spared: set<Address>, minimum: nat, limit: nat, level: nat, result: Lengths)
    requires FairShare(m, spared, minimum, limit, level, result)
    ensures limit <= Total(result) <==>
              limit <= Total(CutTo(m, spared, minimum)) || exists k: nat :: Fills(m, spared, minimum, limit, k)
  {
    hide Total, CutTo;
    CutToMonotone(m, spared, minimum, level);
    if limit <= Total(result) && Total(CutTo(m, spared, minimum)) <= limit {
      assert Fills(m, spared, minimum, limit, level);
    }
    if k: nat :| Fills(m, spared, minimum, limit, k) {
      assert k <= level;
      CutToMonotone(m, spared, k, level);
    }
  }

  /** Cutting to a level uses exactly the slots there are. */
  ghost predicate Fills(m: Lengths, spared: set<Address>, minimum: nat, limit: nat, k: nat) {
    minimum <= k && Total(CutTo(m, spared, k)) == limit
  }

  /**
   The fair share is max-min fair among all allocations exactly if it leaves no slot unused; which can be told
   beforehand: the minimum takes all slots or more, or some level above it takes all of them.
   */
  lemma FairShareIsMaxMinIff(m: Lengths, spared: set<Address>, minimum: nat, limit: nat, level: nat, result: Lengths)
    requires FairShare(m, spared, minimum, limit, level, result)
    ensures MaxMin(m, spared, limit, result) <==> limit <= Total(result)
    ensures MaxMin(m, spared, limit, result) <==>
              limit <= Total(CutTo(m, spared, minimum)) || exists k: nat :: Fills(m, spared, minimum, limit, k)
  {
    hide Total, Pays, Fills;
    NoSlackIff(m, spared, minimum, limit, level, result);
    assert result.Keys == m.Keys;
    if limit <= Total(result) {
      forall other, a | Allocation(m, spared, limit, other) && a in m && result[a] < other[a]
        ensures Pays(result, other, a)
      {
        FullShareIsPaidFor(m, spared, minimum, limit, level, result, other, a);
      }
    } else {
      var other, a := SlackIsFree(m, spared, minimum, limit, level, result);
    }
  }

  lemma TotalOfThree(a: nat, b: nat, c: nat)
    ensures Total(map[0 := a, 1 := b, 2 := c]) == a + b + c
  {
    var none: Lengths := map[];
    TotalAdd(none, 0, a);
    TotalAdd(none[0 := a], 1, b);
    TotalAdd(none[0 := a][1 := b], 2, c);
    assert none[0 := a][1 := b][2 := c] == map[0 := a, 1 := b, 2 := c];
  }

  /** Three accounts that all ask for more: if the limit is no multiple of three, slots stay unused. */
  lemma ThreeShare(minimum: nat, limit: nat, n: nat)
    requires 3 * minimum <= limit && limit / 3 < n
    ensures var m, level := map[0 := n, 1 := n, 2 := n], limit / 3;
            && FairShare(m, {}, minimum, limit, level, CutTo(m, {}, level))
            && (limit % 3 != 0 ==> !MaxMin(m, {}, limit, CutTo(m, {}, level)))
  {
    hide Total, MaxMin;
    var m, level := map[0 := n, 1 := n, 2 := n], limit / 3;
    assert CutTo(m, {}, level) == map[0 := level, 1 := level, 2 := level];
    assert CutTo(m, {}, level + 1) == map[0 := level + 1, 1 := level + 1, 2 := level + 1];
    TotalOfThree(level, level, level);
    TotalOfThree(level + 1, level + 1, level + 1);
    StopsFair(m, {}, minimum, limit, level);
    FairShareIsMaxMinIff(m, {}, minimum, limit, level, CutTo(m, {}, level));
  }
}
