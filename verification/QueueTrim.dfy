/**
 Trimming the queue to its limit: what the loop over the accounts, heard from last first, keeps.
 */
module QueueTrim {
  import opened Collections
  import opened Options
  import opened TxLists
  import opened Accounts
  import opened Equaliser
  import opened PoolValues
  import W = WaterFilling

  /** The heartbeat of an account; an account never heard from reads as the beginning of time. */
  function Heartbeat(beats: map<Address, nat>, a: Address): nat {
    if a in beats then beats[a] else 0
  }

  ghost predicate AllApart(p: Pool) {
    forall a {:trigger Of(p, a)} :: Apart(Of(p, a))
  }

  /** An account that keeps the k lowest of its queued transactions and everything else. */
  function KeptOf(p: Pool, a: Address, k: nat): Account {
    Forget(Of(p, a), Cap(At(p.queue, a), k))
  }

  /** An account from which all queued transactions but the k lowest have been removed one by one. */
  function TrimmedAt(p: Pool, a: Address, k: nat): Account {
    RemoveAll(Of(p, a), Removed(At(p.queue, a), k))
  }

  /** How many of their queued transactions are removed from the accounts that keep the given numbers. */
  function Cuts(lists: Lists, kept: map<Address, nat>): W.Lengths {
    map a | a in lists && a in kept && kept[a] <= |lists[a]| :: |lists[a]| - kept[a]
  }

  /**
   The queue trimmed to its limit: as many transactions as exceed it are removed, from accounts that keep
   only the lowest nonces of what they have queued, all but at most one of them nothing; nobody who still has
   something queued was heard from later than any of these.
   */
  ghost predicate Trimmed(p: Pool, p': Pool, kept: map<Address, nat>) {
    && W.Total(Cuts(p.queue, kept)) == W.Total(Lens(p.queue)) - MAX_QUEUED_IN_TOTAL
    && Kept(p, p', kept)
    && forall a, b | a in kept && b in p.queue && (b in kept ==> 0 < kept[b]) ::
         Heartbeat(p.beats, b) <= Heartbeat(p.beats, a)
  }

  /** Some accounts keep the given numbers of queued transactions, at most one of them any; no other changes. */
  ghost predicate Kept(p: Pool, p': Pool, kept: map<Address, nat>) {
    && (forall a {:trigger Of(p', a)} :: Of(p', a) == if a in kept then TrimmedAt(p, a, kept[a]) else Of(p, a))
    && (forall a | a in kept :: a in p.queue && kept[a] < |p.queue[a]|)
    && forall a, b | a in kept && b in kept && 0 < kept[a] && 0 < kept[b] :: a == b
  }

  /**
   Trimming a pool in which no queued nonce is pending as well removes exactly the queued transactions that
   exceed the limit and does nothing else.
   */
  lemma TrimmedWhenApart(p: Pool, p': Pool, kept: map<Address, nat>)
    requires WellFormed(p) && AllApart(p) && NoneEmpty(p'.queue) && Trimmed(p, p', kept)
    ensures forall a {:trigger Of(p', a)} :: Of(p', a) == if a in kept then KeptOf(p, a, kept[a]) else Of(p, a)
    ensures W.Total(Lens(p'.queue)) == 1024
  {
    hide Of, W.Total, Lens, KeptOf, Cuts, Placed, Hashed, Alive, Apart, Heartbeat;
    forall a ensures Of(p', a) == if a in kept then KeptOf(p, a, kept[a]) else Of(p, a) {
      assert Of(p', a) == if a in kept then TrimmedAt(p, a, kept[a]) else Of(p, a);
      if a in kept {
        TrimmedAtIs(p, a, kept[a]);
      }
    }
    TotalKept(p, p', kept);
  }

  lemma TrimmedAtIs(p: Pool, a: Address, k: nat)
    requires WellFormed(p) && AllApart(p) && a in p.queue && k <= |p.queue[a]|
    ensures TrimmedAt(p, a, k) == KeptOf(p, a, k)
  {
    hide Of, Known, Placed, Hashed, Alive, Apart, Removed, RemoveAll, Forget, Cap;
    assert Placed(Of(p, a), a) && Apart(Of(p, a));
    OfParts(p, a);
    RemovedWhenApart(Of(p, a), k, a);
  }

  /** No nonce of what is cut from the queue of an account is pending. */
  predicate LeavesPendingAt(p: Pool, a: Address, k: nat)
    requires a in p.queue
  {
    forall n | n in p.queue[a] && n !in Cap(p.queue[a], k) :: n !in At(p.pending, a)
  }

  /** Trimming an account leaves its pending list alone exactly if no nonce of what is cut is pending. */
  lemma TrimmedLeavesPendingIff(p: Pool, a: Address, k: nat)
    requires WellFormed(p) && a in p.queue && k <= |p.queue[a]|
    ensures TrimmedAt(p, a, k).pending == At(p.pending, a) <==>
              LeavesPendingAt(p, a, k)
  {
    hide Of, Known, Placed, Hashed, Alive, Removed, RemoveAll, Cap;
    var account, items := Of(p, a), p.queue[a];
    assert Placed(account, a);
    OfParts(p, a);
    PlacedIsByNonce(account, a);
    RemovedAre(items, k);
    RemoveAllLeavesPendingIff(account, Removed(items, k), a);
    forall n | n in items && n !in Cap(items, k) ensures items[n] in Removed(items, k) && items[n].nonce == n {
    }
  }

  /** The whole trim leaves every pending list alone exactly if no nonce of what it cuts is pending. */
  lemma TrimLeavesPendingIff(p: Pool, p': Pool, kept: map<Address, nat>)
    requires WellFormed(p) && Trimmed(p, p', kept)
    ensures (forall a {:trigger At(p'.pending, a)} :: At(p'.pending, a) == At(p.pending, a)) <==>
              forall a | a in kept :: LeavesPendingAt(p, a, kept[a])
  {
    hide Of, TrimmedAt, Cap, WellFormed;
    forall a ensures a in kept ==> (At(p'.pending, a) == At(p.pending, a) <==> LeavesPendingAt(p, a, kept[a])) {
      OfParts(p', a);
      assert Of(p', a) == if a in kept then TrimmedAt(p, a, kept[a]) else Of(p, a);
      if a in kept {
        TrimmedLeavesPendingIff(p, a, kept[a]);
      }
    }
    forall a | a !in kept ensures At(p'.pending, a) == At(p.pending, a) {
      OfParts(p', a);
      OfParts(p, a);
      assert Of(p', a) == Of(p, a);
    }
  }

  /** What is kept and what is cut make up what was queued. */
  lemma TotalKept(p: Pool, p': Pool, kept: map<Address, nat>)
    requires NoneEmpty(p.queue) && NoneEmpty(p'.queue)
    requires forall a | a in kept :: a in p.queue && kept[a] < |p.queue[a]|
    requires forall a {:trigger Of(p', a)} :: Of(p', a) == if a in kept then KeptOf(p, a, kept[a]) else Of(p, a)
    ensures W.Total(Lens(p.queue)) == W.Total(Lens(p'.queue)) + W.Total(Cuts(p.queue, kept))
  {
    hide Of, Known, W.Total, KeptOf;
    forall a ensures At(p'.queue, a) == if a in kept then Cap(At(p.queue, a), kept[a]) else At(p.queue, a) {
      KeptQueue(p, p', kept, a);
    }
    hide Cap;
    forall a | a in p.queue
      ensures |p.queue[a]| == W.Part(Lens(p'.queue), a) + W.Part(Cuts(p.queue, kept), a)
    {
      CapKeepsLowest(p.queue[a], if a in kept then kept[a] else 0);
      assert At(p'.queue, a) == if a in kept then Cap(p.queue[a], kept[a]) else p.queue[a];
    }
    forall a | a in p'.queue ensures a in p.queue {
      assert At(p'.queue, a) == At(p.queue, a) || a in kept;
    }
    W.TotalOfParts(Lens(p.queue), Lens(p'.queue), Cuts(p.queue, kept));
  }

  lemma KeptQueue(p: Pool, p': Pool, kept: map<Address, nat>, a: Address)
    requires Of(p', a) == if a in kept then KeptOf(p, a, kept[a]) else Of(p, a)
    ensures At(p'.queue, a) == if a in kept then Cap(At(p.queue, a), kept[a]) else At(p.queue, a)
  {
    hide Of, Known, Cap;
    OfParts(p, a);
    OfParts(p', a);
  }

  function Within(lists: Lists, s: set<Address>): W.Lengths {
    map a | a in lists && a in s :: |lists[a]|
  }

  /** Where the trimming loop stands: the accounts still to come are as they were and have enough queued. */
  ghost predicate Trimming(p: Pool, now: Pool, addresses: set<Address>, drop: int) {
    && addresses <= p.queue.Keys
    && (forall a | a in addresses :: Of(now, a) == Of(p, a))
    && drop <= W.Total(Within(p.queue, addresses))
  }

  ghost predicate TrimmedSoFar(p: Pool, now: Pool, addresses: set<Address>, kept: map<Address, nat>, drop: int) {
    && W.Total(Cuts(p.queue, kept)) + drop == W.Total(Lens(p.queue)) - MAX_QUEUED_IN_TOTAL
    && Kept(p, now, kept)
    && p.queue.Keys == kept.Keys + addresses && kept.Keys !! addresses
    && (0 < drop ==> forall a | a in kept :: kept[a] == 0)
    && LatestFirst(p.beats, addresses, kept)
  }

  ghost predicate LatestFirst(beats: map<Address, nat>, addresses: set<Address>, kept: map<Address, nat>) {
    forall a, b | a in kept && (if b in kept then 0 < kept[b] else b in addresses) ::
        Heartbeat(beats, b) <= Heartbeat(beats, a)
  }

  lemma LatestExists(addresses: set<Address>, beats: map<Address, nat>)
    requires addresses != {}
    ensures exists a :: a in addresses && forall b | b in addresses :: Heartbeat(beats, b) <= Heartbeat(beats, a)
  {
    var times: set<nat> := set a | a in addresses :: Heartbeat(beats, a);
    var x :| x in addresses;
    assert Heartbeat(beats, x) in times;
    MaxExists(times);
    var m :| m in times && forall n | n in times :: n <= m;
    var a :| a in addresses && Heartbeat(beats, a) == m;
    assert forall b | b in addresses :: Heartbeat(beats, b) in times;
  }

  lemma StartTrim(p: Pool, a: Address)
    requires WellFormed(p) && a in p.queue
    ensures Of(p, a).queue == p.queue[a]
    ensures forall tx | tx in Flatten(p.queue[a]) :: tx.from == a
  {
    hide Known, Flatten, Hashed, NoneEmpty;
    assert Placed(Of(p, a), a);
    FlattenMembers(p.queue[a]);
  }

  /** What holds throughout the trimming loop. */
  ghost predicate Trims(p: Pool, now: Pool, addresses: set<Address>, kept: map<Address, nat>, drop: nat) {
    && WellFormed(p) && WellFormed(now) && (now.managed.Some? <==> p.managed.Some?)
    && Trimming(p, now, addresses, drop)
    && TrimmedSoFar(p, now, addresses, kept, drop)
  }

  lemma TrimStarts(p: Pool, queued: nat)
    requires WellFormed(p) && queued == W.Total(Lens(p.queue)) && MAX_QUEUED_IN_TOTAL < queued
    ensures Trims(p, p, p.queue.Keys, map[], queued - MAX_QUEUED_IN_TOTAL)
  {
    hide Of, WellFormed, W.Total, Heartbeat, TrimmedAt, Lens, Within;
    WithinAll(p.queue);
    assert W.Total(Cuts(p.queue, map[])) == 0 by { NothingCut(p.queue); }
    var none: map<Address, nat> := map[];
    assert none.Keys + p.queue.Keys == p.queue.Keys;
  }

  lemma NothingCut(lists: Lists)
    ensures W.Total(Cuts(lists, map[])) == 0
  {
    assert Cuts(lists, map[]) == map[];
  }

  lemma WithinAll(lists: Lists)
    ensures Within(lists, lists.Keys) == Lens(lists)
  {
  }

  lemma TrimNotDone(p: Pool, now: Pool, addresses: set<Address>, kept: map<Address, nat>, drop: nat)
    requires Trims(p, now, addresses, kept, drop) && 0 < drop
    ensures addresses != {}
  {
    hide WellFormed, TrimmedSoFar;
    assert Within(p.queue, {}) == map[];
  }

  lemma TrimAt(p: Pool, now: Pool, addresses: set<Address>, kept: map<Address, nat>, drop: nat, a: Address)
    requires Trims(p, now, addresses + {a}, kept, drop) && a !in addresses
    ensures a in now.queue && a in p.queue && now.queue[a] == p.queue[a] && 0 < |p.queue[a]|
    ensures forall tx | tx in Flatten(now.queue[a]) :: tx.from == a
    ensures WellFormed(now)
  {
    hide Known, Placed, Flatten, Of, Hashed, TrimmedSoFar;
    OfParts(p, a);
    OfParts(now, a);
    assert Of(now, a) == Of(p, a);
    KeysNotEmpty(p.queue[a]);
    assert |p.queue[a].Keys| == |p.queue[a]|;
    StartTrim(now, a);
  }

  lemma TrimmingOn(p: Pool, here: Pool, now: Pool, addresses: set<Address>, drop: nat, a: Address, rest: nat)
    requires Trimming(p, here, addresses + {a}, drop) && OnlyAt(here, now, a, Of(now, a)) && a !in addresses
    requires a in p.queue ==> rest + |p.queue[a]| <= drop || rest == 0
    ensures Trimming(p, now, addresses, rest) && Of(here, a) == Of(p, a) && a in p.queue
  {
    hide Of, W.Total;
    W.TotalDrop(Within(p.queue, addresses + {a}), a);
    assert Within(p.queue, addresses) == Within(p.queue, addresses + {a}) - {a};
  }

  /** Taking the latest account on: it keeps the k lowest of its queued transactions. */
  lemma TrimmedStep(p: Pool, here: Pool, now: Pool, addresses: set<Address>, kept: map<Address, nat>, drop: nat,
                    a: Address, k: nat)
    requires TrimmedSoFar(p, here, addresses + {a}, kept, drop) && a !in addresses
    requires a in p.queue && k < |p.queue[a]|
    requires forall b | b in addresses :: Heartbeat(p.beats, b) <= Heartbeat(p.beats, a)
    requires 0 < drop && OnlyAt(here, now, a, TrimmedAt(p, a, k)) && |p.queue[a]| <= drop + k
    requires 0 < k ==> |p.queue[a]| == drop + k
    ensures TrimmedSoFar(p, now, addresses, kept[a := k], drop - |p.queue[a]| + k)
  {
    hide Of, W.Total, Lens, LatestFirst, Kept, OnlyAt, Heartbeat, Cuts, TrimmedAt;
    KeptStep(p, here, now, kept, a, k);
    LatestStep(p.beats, addresses, kept, a, k);
    CutOne(p.queue, kept, a, k);
    SplitKeys(p.queue.Keys, kept, addresses, a, k);
  }

  lemma CutOne(lists: Lists, kept: map<Address, nat>, a: Address, k: nat)
    requires a in lists && a !in kept && k <= |lists[a]|
    ensures W.Total(Cuts(lists, kept[a := k])) == W.Total(Cuts(lists, kept)) + |lists[a]| - k
  {
    hide W.Total;
    assert Cuts(lists, kept[a := k]) == Cuts(lists, kept)[a := |lists[a]| - k];
    W.TotalAdd(Cuts(lists, kept), a, |lists[a]| - k);
  }

  lemma SplitKeys(keys: set<Address>, kept: map<Address, nat>, addresses: set<Address>, a: Address, k: nat)
    requires keys == kept.Keys + (addresses + {a}) && kept.Keys !! addresses + {a} && a !in addresses
    ensures keys == kept[a := k].Keys + addresses && kept[a := k].Keys !! addresses
  {
    assert kept[a := k].Keys == kept.Keys + {a};
  }

  lemma KeptStep(p: Pool, here: Pool, now: Pool, kept: map<Address, nat>, a: Address, k: nat)
    requires Kept(p, here, kept) && a !in kept && a in p.queue && k < |p.queue[a]|
    requires forall b | b in kept :: kept[b] == 0
    requires OnlyAt(here, now, a, TrimmedAt(p, a, k))
    ensures Kept(p, now, kept[a := k]) && Of(here, a) == Of(p, a)
  {
    hide Of, TrimmedAt;
  }

  lemma LatestStep(beats: map<Address, nat>, addresses: set<Address>, kept: map<Address, nat>, a: Address, k: nat)
    requires LatestFirst(beats, addresses + {a}, kept) && a !in kept && a !in addresses
    requires forall b | b in kept :: kept[b] == 0
    requires forall b | b in addresses :: Heartbeat(beats, b) <= Heartbeat(beats, a)
    ensures LatestFirst(beats, addresses, kept[a := k])
  {
    hide Heartbeat;
  }

  lemma TrimmedOne(p: Pool, here: Pool, now: Pool, addresses: set<Address>, kept: map<Address, nat>, drop: nat,
                   a: Address)
    requires Trims(p, here, addresses + {a}, kept, drop)
    requires WellFormed(now) && (now.managed.Some? <==> here.managed.Some?)
    requires a !in addresses && a in p.queue && 0 < |p.queue[a]| <= drop
    requires forall b | b in addresses :: Heartbeat(p.beats, b) <= Heartbeat(p.beats, a)
    requires OnlyAt(here, now, a, RemoveAll(Of(here, a), Flatten(p.queue[a])))
    ensures Trims(p, now, addresses, kept[a := 0], drop - |p.queue[a]|)
  {
    hide Known, RemoveAll, Flatten, Of, Trimming, TrimmedSoFar, WellFormed, Heartbeat;
    TrimmingOn(p, here, now, addresses, drop, a, drop - |p.queue[a]|);
    TrimmedStep(p, here, now, addresses, kept, drop, a, 0);
  }

  lemma TrimmedPart(p: Pool, here: Pool, now: Pool, addresses: set<Address>, kept: map<Address, nat>, drop: nat,
                    a: Address)
    requires Trims(p, here, addresses + {a}, kept, drop)
    requires WellFormed(now) && (now.managed.Some? <==> here.managed.Some?)
    requires a !in addresses && a in p.queue && 0 < drop < |p.queue[a]|
    requires forall b | b in addresses :: Heartbeat(p.beats, b) <= Heartbeat(p.beats, a)
    requires OnlyAt(here, now, a, RemoveAll(Of(here, a), Removed(p.queue[a], |p.queue[a]| - drop)))
    ensures Trims(p, now, addresses, kept[a := |p.queue[a]| - drop], 0)
  {
    hide Known, RemoveAll, Removed, Of, Trimming, TrimmedSoFar, WellFormed, Heartbeat;
    TrimmingOn(p, here, now, addresses, drop, a, 0);
    TrimmedStep(p, here, now, addresses, kept, drop, a, |p.queue[a]| - drop);
  }

  lemma TrimEnds(p: Pool, now: Pool, addresses: set<Address>, kept: map<Address, nat>)
    requires Trims(p, now, addresses, kept, 0)
    ensures WellFormed(now) && (now.managed.Some? <==> p.managed.Some?) && Trimmed(p, now, kept)
  {
    hide Of, TrimmedAt, Lens, Cuts, W.Total, Heartbeat, Kept, WellFormed;
  }
}
