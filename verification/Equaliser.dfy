/**
 Equalising the pending lists: what the rounds of the pool's limiter do, on the lists as values.
 */
module Equaliser {
  import opened Collections
  import opened TxLists
  import W = WaterFilling

  type Lists = map<Address, Items>

  function Lens(lists: Lists): W.Lengths {
    map a | a in lists :: |lists[a]|
  }

  /** The number of transactions an account keeps at a level. */
  function Share(first: Lists, spared: set<Address>, level: nat, a: Address): nat
    requires a in first
  {
    if a in spared then |first[a]| else W.Min(|first[a]|, level)
  }

  /** Every list cut to a level, from its high nonces. */
  ghost predicate Levelled(first: Lists, lists: Lists, spared: set<Address>, level: nat) {
    && lists.Keys == first.Keys
    && forall a {:trigger lists[a]} {:trigger first[a]} | a in first ::
         lists[a] == Cap(first[a], Share(first, spared, level, a))
  }

  /** The accounts that lose a transaction when the level goes down by one. */
  ghost predicate Reaching(first: Lists, spared: set<Address>, level: nat, who: set<Address>) {
    forall a :: a in who <==> a in first && a !in spared && level <= |first[a]|
  }

  /** One round: each of these accounts loses its highest transaction. */
  ghost predicate Round(before: Lists, after: Lists, who: set<Address>) {
    && after.Keys == before.Keys && who <= before.Keys
    && forall a {:trigger after[a]} | a in before :: after[a] == if a in who then Shortened(before[a]) else before[a]
  }

  function Shortened(items: Items): Items {
    if items == map[] then items else Cap(items, |items| - 1)
  }

  lemma LevelledLens(first: Lists, lists: Lists, spared: set<Address>, level: nat)
    requires Levelled(first, lists, spared, level)
    ensures Lens(lists) == W.CutTo(Lens(first), spared, level)
  {
    forall a | a in first ensures |lists[a]| == Share(first, spared, level, a) {
      CapKeepsLowest(first[a], Share(first, spared, level, a));
    }
  }

  /** Uncut lists stand at every level that none of them exceeds. */
  lemma LevelledStart(first: Lists, spared: set<Address>, level: nat)
    requires forall a | a in first && a !in spared :: |first[a]| <= level
    ensures Levelled(first, first, spared, level)
  {
  }

  /** A round by exactly the accounts that reach the level takes the lists one level down. */
  lemma RoundLowers(first: Lists, before: Lists, after: Lists, spared: set<Address>, level: nat, who: set<Address>)
    requires 1 <= level && Levelled(first, before, spared, level)
    requires Reaching(first, spared, level, who) && Round(before, after, who)
    ensures Levelled(first, after, spared, level - 1)
  {
    hide Cap;
    forall a | a in first ensures after[a] == Cap(first[a], Share(first, spared, level - 1, a)) {
      if a in who {
        ShortenedCap(first[a], level);
      } else if a !in spared {
        CapAtLength(first[a], level);
      }
    }
  }

  /** Shortening a list cut to a level cuts it one level lower. */
  lemma ShortenedCap(items: Items, level: nat)
    requires 1 <= level <= |items|
    ensures Shortened(Cap(items, level)) == Cap(items, level - 1)
  {
    CapKeepsLowest(items, level);
    CapTwice(items, level, level - 1);
  }

  lemma CapAtLength(items: Items, level: nat)
    requires |items| < level
    ensures W.Min(|items|, level) == |items| == W.Min(|items|, level - 1)
  {
  }

  /** The sampled transaction of an account with more than the minimum decided whether the account is spared. */
  ghost predicate Sampled(first: Lists, minimum: nat, spared: set<Address>, local: set<Tx>) {
    && (forall a | a in spared ::
          a in first && minimum < |first[a]| && exists n :: n in first[a] && first[a][n] in local)
    && forall a | a in first && a !in spared && minimum < |first[a]| ::
         exists n :: n in first[a] && first[a][n] !in local
  }

  /** The accounts that may lose transactions. */
  ghost predicate Candidates(first: Lists, minimum: nat, spared: set<Address>, who: set<Address>) {
    forall a :: a in who <==> a in first && a !in spared && minimum < |first[a]|
  }

  /**
   Where the limiter stands: the offenders so far are cut to a level, the remaining spammers do not reach
   above it.
   */
  ghost predicate Standing(first: Lists, lists: Lists, minimum: nat, limit: nat, spared: set<Address>, level: nat,
                           offenders: seq<Address>, spammers: set<Address>, pending: nat)
  {
    && Levelled(first, lists, spared, level) && pending == W.Total(Lens(lists))
    && minimum <= level && limit < W.Total(W.CutTo(Lens(first), spared, level + 1))
    && Distinct(offenders) && (forall o | o in offenders :: o !in spammers)
    && Candidates(first, minimum, spared, ToSet(offenders) + spammers)
    && (forall a | a in spammers :: a in first && |first[a]| <= level)
    && (limit < pending ==> forall o | o in offenders :: o in first && level <= |first[o]|)
  }

  /** Between two pops: the earlier offenders are on the way down from the level to the threshold. */
  ghost predicate Falling(first: Lists, lists: Lists, minimum: nat, limit: nat, spared: set<Address>, level: nat,
                          falling: seq<Address>, threshold: nat, pending: nat)
  {
    && Levelled(first, lists, spared, level) && pending == W.Total(Lens(lists))
    && minimum <= threshold <= level && limit < W.Total(W.CutTo(Lens(first), spared, level + 1))
    && Distinct(falling)
    && (forall a | a in first && a !in spared && a !in falling :: |first[a]| <= threshold)
    && forall o | o in falling :: o in first && o !in spared && (limit < pending ==> level <= |first[o]|)
  }

  /** Falling offenders stand at the level while the limit is exceeded. */
  lemma FallingLength(first: Lists, lists: Lists, minimum: nat, limit: nat, spared: set<Address>, level: nat,
                      falling: seq<Address>, threshold: nat, pending: nat, o: Address)
    requires Falling(first, lists, minimum, limit, spared, level, falling, threshold, pending)
    requires limit < pending && o in falling
    ensures o in lists && |lists[o]| == level
  {
    CapKeepsLowest(first[o], level);
  }

  lemma FallingReady(first: Lists, lists: Lists, minimum: nat, limit: nat, spared: set<Address>, level: nat,
                     falling: seq<Address>, threshold: nat, pending: nat)
    requires Falling(first, lists, minimum, limit, spared, level, falling, threshold, pending)
    requires limit < pending && threshold < level
    ensures Distinct(falling) && forall o | o in falling :: o in lists && lists[o] != map[]
  {
    forall o | o in falling ensures o in lists && lists[o] != map[] {
      FallingLength(first, lists, minimum, limit, spared, level, falling, threshold, pending, o);
    }
  }

  lemma FallingRound(first: Lists, lists: Lists, after: Lists, minimum: nat, limit: nat, spared: set<Address>,
                     level: nat, falling: seq<Address>, threshold: nat, pending: nat)
    requires Falling(first, lists, minimum, limit, spared, level, falling, threshold, pending)
    requires limit < pending && threshold < level
    requires Round(lists, after, ToSet(falling))
    ensures Falling(first, after, minimum, limit, spared, level - 1, falling, threshold, W.Total(Lens(after)))
  {
    RoundLowers(first, lists, after, spared, level, ToSet(falling));
    LevelledLens(first, lists, spared, level);
  }

  /** The first offender popped is one of the longest; the level starts at its length. */
  lemma FirstPop(first: Lists, minimum: nat, limit: nat, spared: set<Address>, spammers: set<Address>, pending: nat,
                 o: Address)
    requires pending == W.Total(Lens(first)) && limit < pending
    requires Candidates(first, minimum, spared, spammers)
    requires o in spammers && forall a | a in spammers :: a in first && |first[a]| <= |first[o]|
    ensures Standing(first, first, minimum, limit, spared, |first[o]|, [o], spammers - {o}, pending)
  {
    hide Levelled, W.Total, W.CutTo;
    var level := |first[o]|;
    forall a | a in first && a !in spared ensures |first[a]| <= level {
      assert minimum < |first[a]| ==> a in spammers;
    }
    LevelledStart(first, spared, level);
    LevelledStart(first, spared, level + 1);
    LevelledLens(first, first, spared, level + 1);
    assert ToSet([o]) + (spammers - {o}) == spammers;
  }

  /** The next offender popped sets the threshold for the earlier ones. */
  lemma NextPop(first: Lists, lists: Lists, minimum: nat, limit: nat, spared: set<Address>, level: nat,
                offenders: seq<Address>, spammers: set<Address>, pending: nat, o: Address)
    requires Standing(first, lists, minimum, limit, spared, level, offenders, spammers, pending)
    requires limit < pending && offenders != []
    requires o in spammers && forall a | a in spammers :: a in lists && o in lists && |lists[a]| <= |lists[o]|
    ensures Falling(first, lists, minimum, limit, spared, level, offenders, |lists[o]|, pending)
    ensures o in lists && |lists[o]| == |first[o]|
  {
    forall a | a in spammers ensures |lists[a]| == |first[a]| {
      CapKeepsLowest(first[a], level);
    }
    forall a | a in first && a !in spared && a !in offenders ensures |first[a]| <= |lists[o]| {
      if minimum < |first[a]| {
        assert a in ToSet(offenders) + spammers;
      }
    }
  }

  /** When the earlier offenders have come down to the threshold, or far enough, the new one joins them. */
  lemma Joined(first: Lists, lists: Lists, minimum: nat, limit: nat, spared: set<Address>, level: nat,
               offenders: seq<Address>, spammers: set<Address>, threshold: nat, pending: nat, o: Address)
    requires Falling(first, lists, minimum, limit, spared, level, offenders, threshold, pending)
    requires limit < pending ==> level <= threshold
    requires Candidates(first, minimum, spared, ToSet(offenders) + spammers)
    requires (forall x | x in offenders :: x !in spammers) && o in spammers && o in first && |first[o]| == threshold
    requires forall a | a in spammers :: a in first && |first[a]| <= threshold
    ensures Standing(first, lists, minimum, limit, spared, level, offenders + [o], spammers - {o}, pending)
  {
    hide Levelled, W.Total, W.CutTo, Lens;
    assert ToSet(offenders + [o]) + (spammers - {o}) == ToSet(offenders) + spammers;
  }

  /** With no spammer left, all offenders fall to the minimum. */
  lemma LastFall(first: Lists, lists: Lists, minimum: nat, limit: nat, spared: set<Address>, level: nat,
                 offenders: seq<Address>, pending: nat)
    requires Standing(first, lists, minimum, limit, spared, level, offenders, {}, pending) && limit < pending
    ensures Falling(first, lists, minimum, limit, spared, level, offenders, minimum, pending)
  {
    forall a | a in first && a !in spared && a !in offenders ensures |first[a]| <= minimum {
      assert a !in ToSet(offenders) + {};
    }
    forall o | o in offenders ensures o !in spared {
      assert o in ToSet(offenders) + {};
    }
  }

  /** Where the limiter stops is the fair share. */
  lemma Settled(first: Lists, lists: Lists, minimum: nat, limit: nat, spared: set<Address>, level: nat, pending: nat)
    requires Levelled(first, lists, spared, level) && pending == W.Total(Lens(lists))
    requires minimum <= level && limit < W.Total(W.CutTo(Lens(first), spared, level + 1))
    requires pending <= limit || level == minimum
    ensures W.FairShare(Lens(first), spared, minimum, limit, level, Lens(lists))
  {
    LevelledLens(first, lists, spared, level);
    W.StopsFair(Lens(first), spared, minimum, limit, level);
  }

  /** Without candidates nothing is cut, and the level is the minimum. */
  lemma NothingToCut(first: Lists, minimum: nat, limit: nat, spared: set<Address>)
    requires Candidates(first, minimum, spared, {}) && limit < W.Total(Lens(first))
    ensures Levelled(first, first, spared, minimum)
    ensures W.FairShare(Lens(first), spared, minimum, limit, minimum, Lens(first))
  {
    forall a | a in first && a !in spared ensures |first[a]| <= minimum {
      assert a !in {};
    }
    LevelledStart(first, spared, minimum);
    LevelledStart(first, spared, minimum + 1);
    LevelledLens(first, first, spared, minimum + 1);
    Settled(first, first, minimum, limit, spared, minimum, W.Total(Lens(first)));
  }

  /** Dropping one transaction of one account lowers the total by one. */
  lemma OneDropped(lists: Lists, a: Address)
    requires a in lists && lists[a] != map[]
    ensures W.Total(Lens(lists[a := Shortened(lists[a])])) == W.Total(Lens(lists)) - 1
  {
    ShortenedLength(lists[a]);
    LensUpdate(lists, a, Shortened(lists[a]));
    hide Shortened, Lens;
    assert Lens(lists)[a] == |lists[a]| by { LensAt(lists, a); }
    W.TotalUpdate(Lens(lists), a, |Shortened(lists[a])|);
  }

  lemma ShortenedLength(items: Items)
    requires items != map[]
    ensures |Shortened(items)| == |items| - 1
  {
    CapKeepsLowest(items, |items| - 1);
  }

  lemma LensAt(lists: Lists, a: Address)
    requires a in lists
    ensures a in Lens(lists) && Lens(lists)[a] == |lists[a]|
  {
  }

  lemma LensUpdate(lists: Lists, a: Address, items: Items)
    requires a in lists
    ensures Lens(lists[a := items]) == Lens(lists)[a := |items|]
  {
  }

  lemma CountedOne(lists: Lists, todo: set<Address>, a: Address)
    requires a in todo && todo <= lists.Keys
    ensures W.Total(Counted(lists, todo - {a})) == W.Total(Counted(lists, todo)) + |lists[a]|
  {
    assert Counted(lists, todo - {a}) == Counted(lists, todo)[a := |lists[a]|];
    W.TotalAdd(Counted(lists, todo), a, |lists[a]|);
  }

  lemma LongestExists(lists: Lists, s: set<Address>)
    requires s != {} && s <= lists.Keys
    ensures exists o :: o in s && forall a | a in s :: |lists[a]| <= |lists[o]|
  {
    var lengths: set<nat> := set a | a in s :: |lists[a]|;
    var x :| x in s;
    assert |lists[x]| in lengths;
    MaxExists(lengths);
    var m :| m in lengths && forall n | n in lengths :: n <= m;
    var o :| o in s && |lists[o]| == m;
    assert forall a | a in s :: |lists[a]| in lengths;
  }

  lemma StandingParts(first: Lists, lists: Lists, minimum: nat, limit: nat, spared: set<Address>, level: nat,
                      offenders: seq<Address>, spammers: set<Address>, pending: nat, o: Address)
    requires Standing(first, lists, minimum, limit, spared, level, offenders, spammers, pending) && o in spammers
             && o in lists
    requires forall a | a in spammers :: a in lists && |lists[a]| <= |lists[o]|
    ensures Candidates(first, minimum, spared, ToSet(offenders) + spammers)
    ensures (forall x | x in offenders :: x !in spammers) && o in first && |first[o]| == |lists[o]|
    ensures forall a | a in spammers :: a in first && |first[a]| <= |lists[o]|
  {
    forall a | a in spammers ensures |lists[a]| == |first[a]| {
      CapKeepsLowest(first[a], level);
    }
  }

  lemma StandingKeys(first: Lists, lists: Lists, minimum: nat, limit: nat, spared: set<Address>, level: nat,
                     offenders: seq<Address>, spammers: set<Address>, pending: nat)
    requires Standing(first, lists, minimum, limit, spared, level, offenders, spammers, pending)
    ensures lists.Keys == first.Keys
  {
  }

  lemma FallingLast(first: Lists, lists: Lists, minimum: nat, limit: nat, spared: set<Address>, level: nat,
                    falling: seq<Address>, threshold: nat, pending: nat, last: Address)
    requires Falling(first, lists, minimum, limit, spared, level, falling, threshold, pending) && last in falling
    ensures last in lists && threshold <= level && (limit < pending ==> |lists[last]| == level)
  {
    if limit < pending {
      FallingLength(first, lists, minimum, limit, spared, level, falling, threshold, pending, last);
    }
  }

  lemma FallingParts(first: Lists, lists: Lists, minimum: nat, limit: nat, spared: set<Address>, level: nat,
                     falling: seq<Address>, threshold: nat, pending: nat)
    requires Falling(first, lists, minimum, limit, spared, level, falling, threshold, pending) && falling != []
    ensures pending == W.Total(Lens(lists)) && Distinct(falling) && threshold <= level
    ensures forall o | o in falling :: o in lists
  {
  }

  lemma SettledParts(first: Lists, lists: Lists, minimum: nat, limit: nat, spared: set<Address>, level: nat,
                     offenders: seq<Address>, spammers: set<Address>, pending: nat)
    requires Standing(first, lists, minimum, limit, spared, level, offenders, spammers, pending)
    ensures Levelled(first, lists, spared, level)
    ensures pending <= limit ==> W.FairShare(Lens(first), spared, minimum, limit, level, Lens(lists))
  {
    hide Levelled, Lens, W.FairShare, W.CutTo, W.Total, Candidates, Distinct;
    if pending <= limit {
      Settled(first, lists, minimum, limit, spared, level, pending);
    }
  }

  lemma FallSettled(first: Lists, lists: Lists, minimum: nat, limit: nat, spared: set<Address>, level: nat,
                    falling: seq<Address>, pending: nat)
    requires Falling(first, lists, minimum, limit, spared, level, falling, minimum, pending)
    requires limit < pending ==> level <= minimum
    ensures Levelled(first, lists, spared, level)
    ensures W.FairShare(Lens(first), spared, minimum, limit, level, Lens(lists))
  {
    hide Levelled, Lens, W.FairShare, W.CutTo, W.Total, Distinct;
    Settled(first, lists, minimum, limit, spared, level, pending);
  }

  lemma ShortenedIs(items: Items)
    requires items != map[]
    ensures 0 < |items| && Shortened(items) == Cap(items, |items| - 1)
  {
    KeysNotEmpty(items);
    assert |items.Keys| == |items|;
  }

  lemma RoundStep(before: Lists, lists: Lists, offenders: seq<Address>, i: nat)
    requires i < |offenders| && Distinct(offenders) && offenders[i] in before
    requires Round(before, lists, ToSet(offenders[..i]))
    ensures offenders[i] in lists && lists[offenders[i]] == before[offenders[i]]
    ensures Round(before, lists[offenders[i] := Shortened(lists[offenders[i]])], ToSet(offenders[..i + 1]))
    ensures forall j | i < j < |offenders| && offenders[j] in before ::
              offenders[j] in lists && lists[offenders[j]] == before[offenders[j]]
  {
    hide Shortened;
    forall o ensures o in offenders[..i + 1] <==> o in offenders[..i] || o == offenders[i] {
      assert offenders[..i + 1] == offenders[..i] + [offenders[i]];
    }
    forall j | i <= j < |offenders| ensures offenders[j] !in offenders[..i] {
    }
  }

  /** The lengths of the lists that are not still to be counted. */
  function Counted(lists: Lists, todo: set<Address>): W.Lengths {
    map a | a in lists && a !in todo :: |lists[a]|
  }

  lemma NothingCounted(lists: Lists, todo: set<Address>)
    requires todo == lists.Keys
    ensures W.Total(Counted(lists, todo)) == 0
  {
    assert Counted(lists, todo) == map[];
  }

  lemma AllCounted(lists: Lists)
    ensures Counted(lists, {}) == Lens(lists)
  {
  }
}
