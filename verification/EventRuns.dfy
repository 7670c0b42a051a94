/**
 What block confirmation keeps over whole runs: the window, the order of firing, when a block fires
 twice and when the fired blocks form one chain.
 */
module EventRuns {
  import opened Collections
  import opened Blocks
  import opened PendingEvents

  // ------------------------------------------------------------------ the walk and the stored paths

  /** A walk is a run of ancestors; it ends at genesis, on a stored parent, or at its length limit. */
  lemma {:induction false} WalkShape(chain: Chain, count: nat, store: Store, h: Hash, depth: nat)
    requires Linked(chain) && h in chain && depth <= count + 6
    ensures var w := Walk(chain, count, store, h, depth);
            && |w| <= count + 7 - depth
            && |w| <= chain[h].number + 1
            && (forall i | 0 <= i < |w| :: w[i] == chain[Ancestor(chain, h, chain[h].number - i)])
            && (forall i | 0 <= i < |w| - 1 :: w[i].parent !in store)
            && (w[|w| - 1].parent == ZERO || w[|w| - 1].parent in store || |w| == count + 7 - depth)
    decreases chain[h].number
  {
    assert LinkedAt(chain, h);
    var w := Walk(chain, count, store, h, depth);
    var parent := chain[h].parent;
    if |w| > 1 {
      assert depth + 1 <= count + 6;
      var rest := Walk(chain, count, store, parent, depth + 1);
      WalkShape(chain, count, store, parent, depth + 1);
      assert w == [chain[h]] + rest;
      forall i | 0 <= i < |w| ensures w[i] == chain[Ancestor(chain, h, chain[h].number - i)] {
        if i > 0 {
          assert w[i] == rest[i - 1];
        }
      }
      forall i | 0 <= i < |w| - 1 ensures w[i].parent !in store {
        if i > 0 {
          assert w[i] == rest[i - 1];
        }
      }
    }
  }

  /** Whether a block is among those one announcement imports. */
  ghost predicate Imports(chain: Chain, count: nat, store: Store, h: Hash, x: Hash)
    requires Linked(chain) && h in chain
  {
    x in chain && chain[x] in Walk(chain, count, store, h, 0)
  }

  /** The last block a walk imports. */
  ghost function Bottom(chain: Chain, count: nat, store: Store, h: Hash): (b: Block)
    requires Linked(chain) && h in chain
    ensures b.hash in chain && chain[b.hash] == b
  {
    var w := Walk(chain, count, store, h, 0);
    w[|w| - 1]
  }

  /** The walk ran into a block that was already stored. */
  ghost predicate EndsOnStored(chain: Chain, count: nat, store: Store, h: Hash)
    requires Linked(chain) && h in chain
  {
    Bottom(chain, count, store, h).parent in store
  }

  /** The imported blocks are exactly the ancestors of h from its own level down to the bottom of the walk. */
  lemma ImportsIff(chain: Chain, count: nat, store: Store, h: Hash, x: Hash)
    requires Linked(chain) && h in chain
    ensures Bottom(chain, count, store, h).number <= chain[h].number
    ensures Imports(chain, count, store, h, x) <==>
              && x in chain && Bottom(chain, count, store, h).number <= chain[x].number <= chain[h].number
              && Ancestor(chain, h, chain[x].number) == x
  {
    hide Walk, Ancestor, Imports, Linked;
    if Imports(chain, count, store, h, x) {
      ImportedIsAncestor(chain, count, store, h, x);
    }
    BottomBelow(chain, count, store, h);
    if x in chain && Bottom(chain, count, store, h).number <= chain[x].number <= chain[h].number
        && Ancestor(chain, h, chain[x].number) == x {
      AncestorIsImported(chain, count, store, h, x);
    }
  }

  /** Position i of a walk is the ancestor i levels up. */
  lemma WalkAt(chain: Chain, count: nat, store: Store, h: Hash, i: nat)
    requires Linked(chain) && h in chain && i < |Walk(chain, count, store, h, 0)|
    ensures var w := Walk(chain, count, store, h, 0);
            i <= chain[h].number && w[i] == chain[Ancestor(chain, h, chain[h].number - i)]
                && w[i].number == chain[h].number - i
  {
    hide Walk, Ancestor, LinkedAt;
    WalkShape(chain, count, store, h, 0);
  }

  lemma BottomBelow(chain: Chain, count: nat, store: Store, h: Hash)
    requires Linked(chain) && h in chain
    ensures Bottom(chain, count, store, h).number == chain[h].number - (|Walk(chain, count, store, h, 0)| - 1)
  {
    hide Walk, Ancestor, Linked;
    WalkAt(chain, count, store, h, |Walk(chain, count, store, h, 0)| - 1);
  }

  lemma ImportedIsAncestor(chain: Chain, count: nat, store: Store, h: Hash, x: Hash)
    requires Linked(chain) && h in chain && Imports(chain, count, store, h, x)
    ensures Bottom(chain, count, store, h).number <= chain[x].number <= chain[h].number
            && Ancestor(chain, h, chain[x].number) == x
  {
    hide Walk, Ancestor, Linked;
    BottomBelow(chain, count, store, h);
    var w := Walk(chain, count, store, h, 0);
    var i :| 0 <= i < |w| && w[i] == chain[x];
    WalkAt(chain, count, store, h, i);
    SameBlock(chain, x, Ancestor(chain, h, chain[h].number - i));
  }

  lemma AncestorIsImported(chain: Chain, count: nat, store: Store, h: Hash, x: Hash)
    requires Linked(chain) && h in chain && x in chain
    requires Bottom(chain, count, store, h).number <= chain[x].number <= chain[h].number
             && Ancestor(chain, h, chain[x].number) == x
    ensures Imports(chain, count, store, h, x)
  {
    hide Walk, Ancestor, Linked, Bottom;
    BottomBelow(chain, count, store, h);
    LevelInWalk(chain, count, store, h, chain[x].number, chain[h].number - chain[x].number);
  }

  lemma LevelInWalk(chain: Chain, count: nat, store: Store, h: Hash, n: nat, i: nat)
    requires Linked(chain) && h in chain && n + i == chain[h].number && i < |Walk(chain, count, store, h, 0)|
    ensures chain[Ancestor(chain, h, n)] in Walk(chain, count, store, h, 0)
  {
    hide Walk, Ancestor, Linked;
    WalkAt(chain, count, store, h, i);
    assert chain[h].number - i == n;
  }

  lemma SameBlock(chain: Chain, x: Hash, y: Hash)
    requires Linked(chain) && x in chain && y in chain && chain[x] == chain[y]
    ensures x == y
  {
    assert LinkedAt(chain, x) && LinkedAt(chain, y);
  }

  lemma StoredIff(chain: Chain, count: nat, store: Store, h: Hash, x: Hash)
    requires Serves(chain, store) && h in chain
    ensures Serves(chain, AfterImport(chain, count, store, h))
    ensures x in AfterImport(chain, count, store, h) <==> x in store || Imports(chain, count, store, h, x)
  {
    AfterImportHas(chain, count, store, h);
    var w := Walk(chain, count, store, h, 0);
    WithBlocksHas(store, w);
    if i :| 0 <= i < |w| && w[i].hash == x {
      assert w[i] in w && chain[x] == w[i];
    }
    if Imports(chain, count, store, h, x) {
      var i :| 0 <= i < |w| && w[i] == chain[x];
      assert LinkedAt(chain, x);
    }
  }

  /** d and all its ancestors down to level n are stored. */
  ghost predicate PathTo(chain: Chain, store: Store, d: Hash, n: nat)
    requires Linked(chain)
  {
    d in chain && n <= chain[d].number && forall k {:trigger Ancestor(chain, d, k)} | n <= k <= chain[d].number ::
          Ancestor(chain, d, k) in store
  }

  /** Following stored parents meets exactly the ancestors with no gap above them. */
  lemma {:induction false} StoredPathIff(chain: Chain, store: Store, d: Hash, x: Hash)
    requires Serves(chain, store) && d in chain
    ensures x in StoredPath(chain, store, d) <==>
              x in chain && PathTo(chain, store, d, chain[x].number) && Ancestor(chain, d, chain[x].number) == x
    decreases chain[d].number
  {
    assert LinkedAt(chain, d);
    var top := chain[d].number;
    assert Ancestor(chain, d, top) == d;
    if d in store {
      var parent := chain[d].parent;
      if parent == ZERO {
        assert StoredPath(chain, store, d) == {d};
      } else {
        StoredPathIff(chain, store, parent, x);
        assert StoredPath(chain, store, d) == {d} + StoredPath(chain, store, parent);
        if x in chain && chain[x].number < top {
          var n := chain[x].number;
          assert forall k {:trigger Ancestor(chain, d, k)} | n <= k < top ::
                   Ancestor(chain, d, k) == Ancestor(chain, parent, k);
          if PathTo(chain, store, d, n) {
            forall k | n <= k <= chain[parent].number ensures Ancestor(chain, parent, k) in store {
              assert Ancestor(chain, d, k) in store;
            }
          }
        }
      }
    }
  }

  // ------------------------------------------------------------------ the window

  /** The confirmation window: `count` levels, and every stored block above the lowest has its parent stored. */
  ghost predicate Windowed(chain: Chain, count: nat, store: Store, top: nat) {
    && Serves(chain, store) && IsTop(store, top)
    && (forall h | h in store :: top - count < store[h].number)
    && ClosedAbove(store, top - count + 1)
  }

  ghost predicate ClosedAbove(store: Store, level: int) {
    forall h | h in store && level < store[h].number && store[h].parent != ZERO :: store[h].parent in store
  }

  /** From any stored block the path leads down to the lowest level of a closed store. */
  lemma {:induction false} PathDown(chain: Chain, store: Store, level: int, d: Hash, n: nat)
    requires Serves(chain, store) && ClosedAbove(store, level)
    requires d in store && level <= n <= store[d].number
    ensures PathTo(chain, store, d, n)
    decreases store[d].number - n
  {
    assert Ancestor(chain, d, chain[d].number) == d;
    if n < store[d].number {
      PathDown(chain, store, level, d, n + 1);
      var above := Ancestor(chain, d, n + 1);
      assert above in store && LinkedAt(chain, above);
      AncestorParent(chain, d, n);
      assert chain[above].parent != ZERO;
    }
  }

  /** The walk's own part of a stored path. */
  lemma WalkPath(chain: Chain, count: nat, store: Store, h: Hash, n: nat)
    requires Serves(chain, store) && h in chain
    requires Bottom(chain, count, store, h).number <= n <= chain[h].number
    ensures PathTo(chain, AfterImport(chain, count, store, h), h, n)
  {
    forall k | n <= k <= chain[h].number ensures Ancestor(chain, h, k) in AfterImport(chain, count, store, h) {
      ImportsIff(chain, count, store, h, Ancestor(chain, h, k));
      StoredIff(chain, count, store, h, Ancestor(chain, h, k));
    }
  }

  /** Where a walk ends. */
  lemma BottomCases(chain: Chain, count: nat, store: Store, h: Hash)
    requires Linked(chain) && h in chain
    ensures var b := Bottom(chain, count, store, h);
            && (b.parent == ZERO || b.parent in store || b.number + count + 6 == chain[h].number)
            && (b.parent == ZERO ==> b.number == 0)
            && (b.parent in store ==> b.parent != ZERO ==> b.parent in chain && chain[b.parent].number + 1 == b.number)
  {
    WalkShape(chain, count, store, h, 0);
    var b := Bottom(chain, count, store, h);
    assert LinkedAt(chain, b.hash);
  }

  lemma TopGrows(chain: Chain, count: nat, store: Store, h: Hash, top: nat, top': nat)
    requires Serves(chain, store) && h in chain
    requires IsTop(AfterImport(chain, count, store, h), top')
    ensures chain[h].number <= top'
    ensures IsTop(store, top) ==> top <= top'
    ensures store == map[] || (IsTop(store, top) && top < top') ==> chain[h].number == top'
  {
    hide Walk, WithBlocks, StoredPath, AfterImport;
    var stored := AfterImport(chain, count, store, h);
    AfterImportHas(chain, count, store, h);
    var d :| d in stored && stored[d].number == top';
    StoredIff(chain, count, store, h, d);
    ImportsIff(chain, count, store, h, d);
    if IsTop(store, top) {
      var e :| e in store && store[e].number == top;
      StoredIff(chain, count, store, h, e);
    }
  }

  /** The store is closed after every import: either the walk met it, or it dug below the new window. */
  lemma ImportCloses(chain: Chain, count: nat, store: Store, h: Hash, top: nat, top': nat)
    requires Linked(chain) && h in chain
    requires store == map[] || Windowed(chain, count, store, top)
    requires IsTop(AfterImport(chain, count, store, h), top')
    ensures ClosedAbove(AfterImport(chain, count, store, h), top' - count + 1)
  {
    hide Walk, WithBlocks, StoredPath, AfterImport;
    var stored := AfterImport(chain, count, store, h);
    TopGrows(chain, count, store, h, top, top');
    BottomCases(chain, count, store, h);
    AfterImportHas(chain, count, store, h);
    forall x | x in stored && top' - count + 1 < stored[x].number && stored[x].parent != ZERO
      ensures stored[x].parent in stored
    {
      var parent := stored[x].parent;
      assert LinkedAt(chain, x);
      StoredIff(chain, count, store, h, x);
      StoredIff(chain, count, store, h, parent);
      if x !in store {
        ImportedParent(chain, count, store, h, x);
      }
    }
  }

  /** The parent of an imported block is imported too, unless the walk stopped there. */
  lemma ImportedParent(chain: Chain, count: nat, store: Store, h: Hash, x: Hash)
    requires Linked(chain) && h in chain && Imports(chain, count, store, h, x)
    requires chain[x].parent != ZERO
    ensures Imports(chain, count, store, h, chain[x].parent) || chain[x] == Bottom(chain, count, store, h)
  {
    ImportsIff(chain, count, store, h, x);
    assert LinkedAt(chain, x);
    var b := Bottom(chain, count, store, h);
    var n := chain[x].number;
    ImportsIff(chain, count, store, h, chain[x].parent);
    if b.number < n {
      AncestorParent(chain, h, n - 1);
    } else {
      var w := Walk(chain, count, store, h, 0);
      assert b in w;
      assert LinkedAt(chain, b.hash);
      ImportsIff(chain, count, store, h, b.hash);
    }
  }

  lemma ConfirmsWindow(chain: Chain, count: nat, stored: Store, top: nat, rest: Store, now: seq<Block>)
    requires 1 <= count && Confirms(chain, count, stored, top, rest, now)
    requires ClosedAbove(stored, top - count + 1)
    ensures Windowed(chain, count, rest, top)
  {
    var d :| d in stored && stored[d].number == top;
    assert d in rest;
    forall h | h in rest && top - count + 1 < rest[h].number && rest[h].parent != ZERO
      ensures rest[h].parent in rest
    {
      assert LinkedAt(chain, h);
    }
  }

  /** A block on the path below a deepest block fires once it is below the boundary. */
  lemma CoveredFires(chain: Chain, count: nat, stored: Store, top: nat, rest: Store, now: seq<Block>, d: Hash, n: nat)
    requires Confirms(chain, count, stored, top, rest, now)
    requires d in stored && stored[d].number == top && n < Boundary(count, top)
    requires PathTo(chain, stored, d, n)
    ensures chain[Ancestor(chain, d, n)] in now
  {
    hide Walk, WithBlocks, StoredPath, AfterImport;
    var a := Ancestor(chain, d, n);
    assert LinkedAt(chain, a);
    StoredPathIff(chain, stored, d, a);
  }

  /** Conversely a fired block is a linked ancestor of a deepest block, at least `count` levels above. */
  lemma FiredIsAncestor(chain: Chain, count: nat, stored: Store, top: nat, rest: Store, now: seq<Block>, f: Block)
      returns (d: Hash)
    requires Confirms(chain, count, stored, top, rest, now) && f in now
    ensures f.hash in chain && chain[f.hash] == f && f.number + count <= top
    ensures d in stored && stored[d].number == top && PathTo(chain, stored, d, f.number)
    ensures Ancestor(chain, d, f.number) == f.hash
  {
    hide Walk, WithBlocks, StoredPath, AfterImport;
    d :| d in stored && stored[d].number == top && f.hash in StoredPath(chain, stored, d);
    StoredPathIff(chain, stored, d, f.hash);
  }

  /** When anything fires, the last block fired is the one right below the window. */
  lemma LastFired(chain: Chain, count: nat, stored: Store, top: nat, rest: Store, now: seq<Block>)
    requires Confirms(chain, count, stored, top, rest, now) && now != []
    ensures now[|now| - 1].number == top - count
  {
    hide Walk, WithBlocks, StoredPath, AfterImport;
    var last := now[|now| - 1];
    var d := FiredIsAncestor(chain, count, stored, top, rest, now, last);
    CoveredFires(chain, count, stored, top, rest, now, d, top - count);
    var a := chain[Ancestor(chain, d, top - count)];
    var i :| 0 <= i < |now| && now[i] == a;
  }

  // ------------------------------------------------------------------ invariants of a run

  /** What holds between announcements when at least one confirmation is asked for. */
  ghost predicate History(chain: Chain, count: nat, s: State) {
    || s == State(map[], [])
    || exists top: nat :: Windowed(chain, count, s.store, top) && FiredBelow(chain, count, s.fired, top)
  }

  ghost predicate FiredBelow(chain: Chain, count: nat, fired: seq<Block>, top: nat) {
    && (forall f | f in fired :: f.hash in chain && chain[f.hash] == f && f.number <= top - count)
    && (if fired == [] then top < count else fired[|fired| - 1].number == top - count)
  }

  /** Whenever the window moves up past genesis, something fires. */
  lemma WindowMoves(chain: Chain, count: nat, store: Store, h: Hash, top: nat, top': nat, rest: Store, now: seq<Block>)
    requires Linked(chain) && h in chain && 1 <= count <= top'
    requires store == map[] || (Windowed(chain, count, store, top) && top < top')
    requires Confirms(chain, count, AfterImport(chain, count, store, h), top', rest, now)
    ensures now != []
  {
    hide Walk, WithBlocks, StoredPath, AfterImport;
    var stored := AfterImport(chain, count, store, h);
    TopGrows(chain, count, store, h, top, top');
    BottomCases(chain, count, store, h);
    AfterImportHas(chain, count, store, h);
    var b := Bottom(chain, count, store, h);
    ImportsIff(chain, count, store, h, b.hash);
    var n := top' - count;
    if b.number <= n {
      WalkPath(chain, count, store, h, n);
    } else {
      ClosedBelowWalk(chain, count, store, h, top, n);
    }
    CoveredFires(chain, count, stored, top', rest, now, h, n);
  }

  /** A walk that meets the store continues, through stored blocks, down to the lowest stored level. */
  lemma ClosedBelowWalk(chain: Chain, count: nat, store: Store, h: Hash, top: nat, n: nat)
    requires h in chain && Windowed(chain, count, store, top)
    requires EndsOnStored(chain, count, store, h) && top - count + 1 <= n < Bottom(chain, count, store, h).number
    ensures n <= chain[h].number
    ensures PathTo(chain, AfterImport(chain, count, store, h), h, n)
  {
    hide Walk, WithBlocks, StoredPath, AfterImport;
    var stored := AfterImport(chain, count, store, h);
    var b := Bottom(chain, count, store, h);
    BottomCases(chain, count, store, h);
    ImportsIff(chain, count, store, h, b.hash);
    WalkPath(chain, count, store, h, b.number);
    PathDown(chain, store, top - count + 1, b.parent, n);
    assert b in Walk(chain, count, store, h, 0) && LinkedAt(chain, b.hash);
    forall k | n <= k <= chain[h].number ensures Ancestor(chain, h, k) in stored {
      if k < b.number {
        AncestorOfAncestor(chain, h, b.number, k);
        assert Ancestor(chain, b.hash, k) == Ancestor(chain, b.parent, k);
        StoredIff(chain, count, store, h, Ancestor(chain, h, k));
      }
    }
  }

  lemma HistoryAdvances(chain: Chain, count: nat, s: State, h: Hash, top: nat, top': nat, rest: Store, now: seq<Block>)
    requires 1 <= count && Linked(chain) && h in chain
    requires s == State(map[], []) || (Windowed(chain, count, s.store, top) && FiredBelow(chain, count, s.fired, top))
    requires Confirms(chain, count, AfterImport(chain, count, s.store, h), top', rest, now)
    ensures FiredBelow(chain, count, s.fired + now, top')
  {
    hide Walk, WithBlocks, StoredPath, AfterImport;
    var stored := AfterImport(chain, count, s.store, h);
    TopGrows(chain, count, s.store, h, top, top');
    forall f | f in now ensures f.hash in chain && chain[f.hash] == f && f.number <= top' - count {
      var d := FiredIsAncestor(chain, count, stored, top', rest, now, f);
    }
    if now != [] {
      LastFired(chain, count, stored, top', rest, now);
    } else if count <= top' && (s.store == map[] || top < top') {
      WindowMoves(chain, count, s.store, h, top, top', rest, now);
    }
  }

  /** One announcement keeps the window and the record of what has been fired. */
  lemma StepKeepsHistory(chain: Chain, count: nat, s: State, h: Hash, s': State)
    requires 1 <= count && Linked(chain) && History(chain, count, s) && h in chain && Serves(chain, s.store)
    requires Step(chain, count, s, h, s')
    ensures History(chain, count, s') && s'.store != map[]
  {
    hide Walk, WithBlocks, StoredPath, AfterImport;
    var stored := AfterImport(chain, count, s.store, h);
    var top': nat, now :| s'.fired == s.fired + now && Confirms(chain, count, stored, top', s'.store, now);
    var top: nat := 0;
    if s != State(map[], []) {
      top :| Windowed(chain, count, s.store, top) && FiredBelow(chain, count, s.fired, top);
    }
    ImportCloses(chain, count, s.store, h, top, top');
    ConfirmsWindow(chain, count, stored, top', s'.store, now);
    HistoryAdvances(chain, count, s, h, top, top', s'.store, now);
    var d :| d in s'.store && s'.store[d].number == top';
  }

  // ------------------------------------------------------------------ one announcement

  ghost predicate Deepest(store: Store, d: Hash) {
    d in store && IsTop(store, store[d].number)
  }

  /** Every deepest block descends from the block fired last. */
  ghost predicate DescendsFromLast(chain: Chain, count: nat, s: State, h: Hash)
    requires Linked(chain) && h in chain
  {
    s.fired == [] ||
    var last := s.fired[|s.fired| - 1];
    forall d | Deepest(AfterImport(chain, count, s.store, h), d) ::
      d in chain && last.number <= chain[d].number && Ancestor(chain, d, last.number) == last.hash
  }

  ghost predicate ImportsLast(chain: Chain, count: nat, s: State, h: Hash)
    requires Linked(chain) && h in chain
  {
    s.fired != [] && Imports(chain, count, s.store, h, s.fired[|s.fired| - 1].hash)
  }

  /** The state before a step, with its deepest level named. */
  ghost predicate Before(chain: Chain, count: nat, s: State, top: nat) {
    1 <= count && s.fired != [] && Windowed(chain, count, s.store, top) && FiredBelow(chain, count, s.fired, top)
  }

  /**
   The walk digs up a fired block: below some deepest block it imports both the ancestor at the level of the
   block fired last and, at that level or further down, an ancestor that was fired.
   */
  ghost predicate Digs(chain: Chain, count: nat, s: State, h: Hash)
    requires Linked(chain) && h in chain
  {
    exists d, f :: DigsUp(chain, count, s, h, d, f)
  }

  ghost predicate DigsUp(chain: Chain, count: nat, s: State, h: Hash, d: Hash, f: Block)
    requires Linked(chain) && h in chain
  {
    && f in s.fired && Deepest(AfterImport(chain, count, s.store, h), d) && d in chain
    && var n := s.fired[|s.fired| - 1].number;
       && f.number <= n <= chain[d].number
       && Imports(chain, count, s.store, h, f.hash)
       && Imports(chain, count, s.store, h, Ancestor(chain, d, n))
       && Ancestor(chain, d, f.number) == f.hash
  }

  /** Some fired block fires again exactly if the walk digs one up, whatever has become of the chain. */
  lemma RefiresIff(chain: Chain, count: nat, s: State, h: Hash, top: nat, top': nat, rest: Store, now: seq<Block>)
    requires Before(chain, count, s, top) && h in chain
    requires Confirms(chain, count, AfterImport(chain, count, s.store, h), top', rest, now)
    ensures (exists f :: f in now && f in s.fired) <==> Digs(chain, count, s, h)
  {
    hide AfterImport, Imports, DigsUp, PathTo, ClosedAbove, InChain;
    if f :| f in now && f in s.fired {
      var d := RefiredIsDug(chain, count, s, h, top, top', rest, now, f);
      assert DigsUp(chain, count, s, h, d, f);
    }
    if d, f :| DigsUp(chain, count, s, h, d, f) {
      DugRefires(chain, count, s, h, top, top', rest, now, d, f);
    }
  }

  /** A stored block at or below the level of the block fired last has just been imported. */
  lemma BelowIsImported(chain: Chain, count: nat, s: State, h: Hash, top: nat, x: Hash)
    requires Before(chain, count, s, top) && h in chain && x in AfterImport(chain, count, s.store, h)
    requires x in chain && chain[x].number <= s.fired[|s.fired| - 1].number
    ensures Imports(chain, count, s.store, h, x)
  {
    hide AfterImport, Imports, ClosedAbove;
    StoredIff(chain, count, s.store, h, x);
  }

  lemma RefiredIsDug(chain: Chain, count: nat, s: State, h: Hash, top: nat, top': nat, rest: Store,
                     now: seq<Block>, f: Block)
    returns (d: Hash)
    requires Before(chain, count, s, top) && h in chain
    requires Confirms(chain, count, AfterImport(chain, count, s.store, h), top', rest, now)
    requires f in now && f in s.fired
    ensures DigsUp(chain, count, s, h, d, f)
  {
    hide AfterImport, Imports, ClosedAbove, InChain, Ancestor;
    d := FiredIsAncestor(chain, count, AfterImport(chain, count, s.store, h), top', rest, now, f);
    TopGrows(chain, count, s.store, h, top, top');
    var n := s.fired[|s.fired| - 1].number;
    assert Ancestor(chain, d, n) in AfterImport(chain, count, s.store, h);
    BelowIsImported(chain, count, s, h, top, f.hash);
    BelowIsImported(chain, count, s, h, top, Ancestor(chain, d, n));
  }

  lemma DugRefires(chain: Chain, count: nat, s: State, h: Hash, top: nat, top': nat, rest: Store,
                   now: seq<Block>, d: Hash, f: Block)
    requires Before(chain, count, s, top) && h in chain
    requires Confirms(chain, count, AfterImport(chain, count, s.store, h), top', rest, now)
    requires DigsUp(chain, count, s, h, d, f)
    ensures f in now && f in s.fired
  {
    hide AfterImport, Imports, ClosedAbove, InChain, Ancestor, PathTo;
    var n := s.fired[|s.fired| - 1].number;
    TopGrows(chain, count, s.store, h, top, top');
    PathAbove(chain, count, s, h, top, d);
    PathBelow(chain, count, s.store, h, d, n, f.number);
    PathJoins(chain, AfterImport(chain, count, s.store, h), d, n, f.number);
    CoveredFires(chain, count, AfterImport(chain, count, s.store, h), top', rest, now, d, f.number);
  }

  /** From a deepest block the path leads down to the level of the block fired last, if it is imported there. */
  lemma PathAbove(chain: Chain, count: nat, s: State, h: Hash, top: nat, d: Hash)
    requires Before(chain, count, s, top) && h in chain && d in AfterImport(chain, count, s.store, h) && d in chain
    requires s.fired[|s.fired| - 1].number <= chain[d].number
    requires Imports(chain, count, s.store, h, Ancestor(chain, d, s.fired[|s.fired| - 1].number))
    ensures PathTo(chain, AfterImport(chain, count, s.store, h), d, s.fired[|s.fired| - 1].number)
  {
    hide AfterImport, ClosedAbove;
    var stored, n := AfterImport(chain, count, s.store, h), s.fired[|s.fired| - 1].number;
    StoredIff(chain, count, s.store, h, d);
    StoredIff(chain, count, s.store, h, Ancestor(chain, d, n));
    if d in s.store {
      assert s.fired[|s.fired| - 1] in s.fired;
      PathDown(chain, s.store, top - count + 1, d, top - count + 1);
      forall k | n <= k <= chain[d].number ensures Ancestor(chain, d, k) in stored {
        if n < k {
          StoredIff(chain, count, s.store, h, Ancestor(chain, d, k));
        }
      }
    } else {
      ImportsIff(chain, count, s.store, h, d);
      ImportsIff(chain, count, s.store, h, Ancestor(chain, d, n));
      PathBelow(chain, count, s.store, h, d, chain[d].number, n);
    }
  }

  /** The walk stores every ancestor between two levels at which it imports one. */
  lemma PathBelow(chain: Chain, count: nat, store: Store, h: Hash, d: Hash, n: nat, m: nat)
    requires Serves(chain, store) && h in chain && d in chain && m <= n <= chain[d].number
    requires Imports(chain, count, store, h, Ancestor(chain, d, n))
    requires Imports(chain, count, store, h, Ancestor(chain, d, m))
    ensures forall k {:trigger Ancestor(chain, d, k)} | m <= k <= n ::
              Ancestor(chain, d, k) in AfterImport(chain, count, store, h)
  {
    hide AfterImport, Imports, Ancestor;
    ImportsIff(chain, count, store, h, Ancestor(chain, d, n));
    ImportsIff(chain, count, store, h, Ancestor(chain, d, m));
    forall k | m <= k <= n ensures Ancestor(chain, d, k) in AfterImport(chain, count, store, h) {
      AncestorOfAncestor(chain, d, n, k);
      AncestorOfAncestor(chain, h, n, k);
      ImportsIff(chain, count, store, h, Ancestor(chain, d, k));
      StoredIff(chain, count, store, h, Ancestor(chain, d, k));
    }
  }

  lemma PathJoins(chain: Chain, store: Store, d: Hash, n: nat, m: nat)
    requires Linked(chain) && PathTo(chain, store, d, n) && m <= n
    requires forall k {:trigger Ancestor(chain, d, k)} | m <= k <= n :: Ancestor(chain, d, k) in store
    ensures PathTo(chain, store, d, m)
  {
    hide Ancestor, Linked;
  }

  /** Running into the block fired last, or not, decides it when every deepest block descends from that block. */
  lemma RefiresDescending(chain: Chain, count: nat, s: State, h: Hash, top: nat, top': nat, rest: Store,
                          now: seq<Block>)
    requires Before(chain, count, s, top) && h in chain
    requires Confirms(chain, count, AfterImport(chain, count, s.store, h), top', rest, now)
    requires DescendsFromLast(chain, count, s, h)
    ensures (exists f :: f in now && f in s.fired) <==> ImportsLast(chain, count, s, h)
    ensures (exists f :: f in now && f.number <= s.fired[|s.fired| - 1].number) <==> ImportsLast(chain, count, s, h)
  {
    hide Walk, WithBlocks, StoredPath, AfterImport;
    var stored := AfterImport(chain, count, s.store, h);
    var last := s.fired[|s.fired| - 1];
    assert last in s.fired;
    StoredIff(chain, count, s.store, h, last.hash);
    TopGrows(chain, count, s.store, h, top, top');
    if f :| f in now && f.number <= last.number {
      var d := FiredIsAncestor(chain, count, stored, top', rest, now, f);
      assert Deepest(stored, d);
      assert Ancestor(chain, d, last.number) in stored;
    }
    if ImportsLast(chain, count, s, h) {
      var d :| d in stored && stored[d].number == top';
      assert Deepest(stored, d);
      LastReached(chain, count, s, h, top, d);
      CoveredFires(chain, count, stored, top', rest, now, d, last.number);
      assert last in now;
    }
  }

  /** If the block fired last is imported again, every deepest block leads down to it. */
  lemma LastReached(chain: Chain, count: nat, s: State, h: Hash, top: nat, d: Hash)
    requires Before(chain, count, s, top) && h in chain
    requires DescendsFromLast(chain, count, s, h) && ImportsLast(chain, count, s, h)
    requires Deepest(AfterImport(chain, count, s.store, h), d)
    ensures PathTo(chain, AfterImport(chain, count, s.store, h), d, s.fired[|s.fired| - 1].number)
  {
    hide Walk, WithBlocks, StoredPath, AfterImport;
    var stored := AfterImport(chain, count, s.store, h);
    var last := s.fired[|s.fired| - 1];
    StoredIff(chain, count, s.store, h, d);
    StoredIff(chain, count, s.store, h, last.hash);
    ImportsIff(chain, count, s.store, h, last.hash);
    if d in s.store {
      assert last in s.fired;
      PathDown(chain, s.store, top - count + 1, d, top - count + 1);
      forall k | last.number <= k <= chain[d].number ensures Ancestor(chain, d, k) in stored {
        if last.number < k {
          StoredIff(chain, count, s.store, h, Ancestor(chain, d, k));
        }
      }
    } else {
      ImportsIff(chain, count, s.store, h, d);
      WalkPath(chain, count, s.store, h, last.number);
      forall k | last.number <= k <= chain[d].number ensures Ancestor(chain, d, k) in stored {
        AncestorOfAncestor(chain, h, chain[d].number, k);
      }
    }
  }

  /** A walk that ends on a stored parent imports nothing at or below the block fired last. */
  lemma EndsOnStoredAbove(chain: Chain, count: nat, s: State, h: Hash, top: nat)
    requires Before(chain, count, s, top) && h in chain && EndsOnStored(chain, count, s.store, h)
    ensures s.fired[|s.fired| - 1].number + 1 < Bottom(chain, count, s.store, h).number
    ensures !ImportsLast(chain, count, s, h)
  {
    BottomCases(chain, count, s.store, h);
    ImportsIff(chain, count, s.store, h, s.fired[|s.fired| - 1].hash);
    assert s.fired[|s.fired| - 1] in s.fired;
  }

  /** ... so everything it fires is new and lies above everything fired before. */
  lemma FiresAbove(chain: Chain, count: nat, s: State, h: Hash, top: nat, top': nat, rest: Store, now: seq<Block>)
    requires Before(chain, count, s, top) && h in chain
    requires Confirms(chain, count, AfterImport(chain, count, s.store, h), top', rest, now)
    requires EndsOnStored(chain, count, s.store, h)
    ensures forall f, g | f in now && g in s.fired :: g.number < f.number
  {
    hide Walk, WithBlocks, StoredPath, AfterImport;
    EndsOnStoredAbove(chain, count, s, h, top);
    forall f, g | f in now && g in s.fired ensures g.number < f.number {
      StoredIff(chain, count, s.store, h, f.hash);
      ImportsIff(chain, count, s.store, h, f.hash);
    }
  }

  /** Parent by parent, with no gap and no fork. */
  ghost predicate OneChain(blocks: seq<Block>) {
    forall i | 0 <= i < |blocks| - 1 :: blocks[i + 1].parent == blocks[i].hash
  }

  /** The announced block is the only deepest one. */
  ghost predicate Alone(chain: Chain, count: nat, s: State, h: Hash)
    requires Linked(chain) && h in chain
  {
    forall d | Deepest(AfterImport(chain, count, s.store, h), d) :: d == h
  }

  /** When there is only one deepest block, it has every fired block as an ancestor. */
  lemma FiredIsShared(chain: Chain, count: nat, s: State, h: Hash, top': nat, rest: Store, now: seq<Block>, d: Hash,
                      f: Block)
    requires Linked(chain) && h in chain && 1 <= count && Alone(chain, count, s, h)
    requires Confirms(chain, count, AfterImport(chain, count, s.store, h), top', rest, now)
    requires Deepest(AfterImport(chain, count, s.store, h), d) && f in now
    ensures d in chain && chain[d].number == top' && f.number + count <= top' && f.hash in chain && chain[f.hash] == f
    ensures Ancestor(chain, d, f.number) == f.hash
  {
    hide Walk, WithBlocks, StoredPath, AfterImport;
    var stored := AfterImport(chain, count, s.store, h);
    var e := FiredIsAncestor(chain, count, stored, top', rest, now, f);
    assert Deepest(stored, e);
    assert d in chain && chain[d].number == top';
  }

  /** Two fired blocks of one announcement, one after the other: no level is skipped or repeated. */
  lemma NextFired(chain: Chain, count: nat, s: State, h: Hash, top': nat, rest: Store, now: seq<Block>, i: nat)
    requires Linked(chain) && h in chain && 1 <= count && Alone(chain, count, s, h)
    requires Confirms(chain, count, AfterImport(chain, count, s.store, h), top', rest, now)
    requires i < |now| - 1
    ensures now[i].number < now[i + 1].number
    ensures now[i + 1].parent == now[i].hash
  {
    hide Walk, WithBlocks, StoredPath, AfterImport, PathTo, Linked, Ancestor;
    var stored := AfterImport(chain, count, s.store, h);
    var a, b := now[i], now[i + 1];
    assert a in now && b in now && a.number <= b.number && a != b;
    var d := FiredIsAncestor(chain, count, stored, top', rest, now, a);
    FiredIsShared(chain, count, s, h, top', rest, now, d, b);
    PathUp(chain, stored, d, a.number, a.number + 1);
    CoveredFires(chain, count, stored, top', rest, now, d, a.number + 1);
    NothingBetween(now, i, chain[Ancestor(chain, d, a.number + 1)]);
    AncestorParent(chain, d, a.number);
  }

  lemma PathUp(chain: Chain, store: Store, d: Hash, n: nat, m: nat)
    requires Linked(chain) && PathTo(chain, store, d, n) && n <= m <= chain[d].number
    ensures PathTo(chain, store, d, m)
  {
    hide Ancestor, Linked;
  }

  lemma NothingBetween(now: seq<Block>, i: nat, c: Block)
    requires Ascending(now) && i < |now| - 1 && c in now && now[i].number < c.number
    ensures now[i + 1].number <= c.number
  {
    var j :| 0 <= j < |now| && now[j] == c;
    assert i < j;
  }

  /** What one announcement fires is itself one chain when there is only one deepest block. */
  lemma FiresOneChain(chain: Chain, count: nat, s: State, h: Hash, top': nat, rest: Store, now: seq<Block>)
    requires Linked(chain) && h in chain && 1 <= count && Alone(chain, count, s, h)
    requires Confirms(chain, count, AfterImport(chain, count, s.store, h), top', rest, now)
    ensures OneChain(now)
  {
    forall i | 0 <= i < |now| - 1 ensures now[i + 1].parent == now[i].hash {
      NextFired(chain, count, s, h, top', rest, now, i);
    }
  }

  /** The walk ends on a stored parent, or no higher than right above the block fired last, without importing it. */
  ghost predicate WalkJoins(chain: Chain, count: nat, s: State, h: Hash)
    requires Linked(chain) && h in chain && s.fired != []
  {
    || EndsOnStored(chain, count, s.store, h)
    || (Bottom(chain, count, s.store, h).number <= s.fired[|s.fired| - 1].number + 1
        && !ImportsLast(chain, count, s, h))
  }

  /** The announced block opens a new level. */
  ghost predicate Rises(chain: Chain, s: State, h: Hash)
    requires h in chain
  {
    forall x | x in s.store :: s.store[x].number < chain[h].number
  }

  ghost predicate ComesFromLast(chain: Chain, s: State, h: Hash)
    requires Linked(chain) && h in chain && s.fired != []
  {
    var last := s.fired[|s.fired| - 1];
    last.number <= chain[h].number && Ancestor(chain, h, last.number) == last.hash
  }

  /** Below some deepest block the walk imports the ancestor at the level of the block fired last. */
  ghost predicate DigsBelow(chain: Chain, count: nat, s: State, h: Hash)
    requires Linked(chain) && h in chain && s.fired != []
  {
    exists d :: DigsBelowOf(chain, count, s, h, d)
  }

  ghost predicate DigsBelowOf(chain: Chain, count: nat, s: State, h: Hash, d: Hash)
    requires Linked(chain) && h in chain && s.fired != []
  {
    var n := s.fired[|s.fired| - 1].number;
    && Deepest(AfterImport(chain, count, s.store, h), d) && d in chain && n <= chain[d].number
    && Imports(chain, count, s.store, h, Ancestor(chain, d, n))
  }

  /**
   The exact condition under which the newly fired blocks continue the chain fired before: a block that opens
   a new level descends from the block fired last by a walk that joins; any other makes no walk dig that deep.
   */
  ghost predicate Joins(chain: Chain, count: nat, s: State, h: Hash)
    requires Linked(chain) && h in chain
  {
    s.fired == [] ||
    if Rises(chain, s, h) then ComesFromLast(chain, s, h) && WalkJoins(chain, count, s, h)
    else !DigsBelow(chain, count, s, h)
  }

  lemma RisingAlone(chain: Chain, count: nat, s: State, h: Hash, top: nat, top': nat)
    requires Linked(chain) && h in chain && Rises(chain, s, h)
    requires s.store == map[] || Windowed(chain, count, s.store, top)
    requires IsTop(AfterImport(chain, count, s.store, h), top')
    ensures chain[h].number == top' && (s.store != map[] ==> top < top') && Alone(chain, count, s, h)
  {
    hide Walk, WithBlocks, AfterImport, ClosedAbove;
    TopGrows(chain, count, s.store, h, top, top');
    if s.store != map[] {
      var e :| e in s.store && s.store[e].number == top;
    }
    forall d | Deepest(AfterImport(chain, count, s.store, h), d) ensures d == h {
      StoredIff(chain, count, s.store, h, d);
      ImportsIff(chain, count, s.store, h, d);
      assert d !in s.store;
    }
    AfterImportHas(chain, count, s.store, h);
  }

  lemma NotRisingTop(chain: Chain, count: nat, s: State, h: Hash, top: nat, top': nat)
    requires Linked(chain) && h in chain && !Rises(chain, s, h) && Windowed(chain, count, s.store, top)
    requires IsTop(AfterImport(chain, count, s.store, h), top')
    ensures top' == top
  {
    hide Walk, WithBlocks, AfterImport, ClosedAbove;
    TopGrows(chain, count, s.store, h, top, top');
  }

  /** What fires at or below the level of the block fired last has been dug up. */
  lemma LowIsDug(chain: Chain, count: nat, s: State, h: Hash, top: nat, top': nat, rest: Store, now: seq<Block>,
                 f: Block)
    returns (d: Hash)
    requires Before(chain, count, s, top) && h in chain
    requires Confirms(chain, count, AfterImport(chain, count, s.store, h), top', rest, now)
    requires f in now && f.number <= s.fired[|s.fired| - 1].number
    ensures DigsBelowOf(chain, count, s, h, d)
  {
    hide AfterImport, Imports, ClosedAbove, InChain, Ancestor;
    d := FiredIsAncestor(chain, count, AfterImport(chain, count, s.store, h), top', rest, now, f);
    TopGrows(chain, count, s.store, h, top, top');
    var n := s.fired[|s.fired| - 1].number;
    assert Ancestor(chain, d, n) in AfterImport(chain, count, s.store, h);
    BelowIsImported(chain, count, s, h, top, Ancestor(chain, d, n));
  }

  lemma DugFires(chain: Chain, count: nat, s: State, h: Hash, top: nat, top': nat, rest: Store, now: seq<Block>,
                 d: Hash)
    requires Before(chain, count, s, top) && h in chain
    requires Confirms(chain, count, AfterImport(chain, count, s.store, h), top', rest, now)
    requires DigsBelowOf(chain, count, s, h, d)
    ensures now != [] && now[0].number <= s.fired[|s.fired| - 1].number
  {
    hide AfterImport, Imports, ClosedAbove, InChain, Ancestor, PathTo;
    var n := s.fired[|s.fired| - 1].number;
    TopGrows(chain, count, s.store, h, top, top');
    PathAbove(chain, count, s, h, top, d);
    CoveredFires(chain, count, AfterImport(chain, count, s.store, h), top', rest, now, d, n);
    FirstIsLowest(now, chain[Ancestor(chain, d, n)]);
  }

  lemma FirstIsLowest(now: seq<Block>, f: Block)
    requires Ascending(now) && f in now
    ensures now != [] && now[0].number <= f.number
  {
    var i :| 0 <= i < |now| && now[i] == f;
  }

  /** The path of a block that joins leads down to right above the block fired last. */
  lemma JoiningPath(chain: Chain, count: nat, s: State, h: Hash, top: nat)
    requires Before(chain, count, s, top) && h in chain && top < chain[h].number && WalkJoins(chain, count, s, h)
    ensures s.fired[|s.fired| - 1].number + 1 <= chain[h].number
    ensures PathTo(chain, AfterImport(chain, count, s.store, h), h, s.fired[|s.fired| - 1].number + 1)
    ensures EndsOnStored(chain, count, s.store, h) ==> !ImportsLast(chain, count, s, h)
  {
    hide AfterImport, Walk, PathTo, Bottom, Imports;
    var n := s.fired[|s.fired| - 1].number + 1;
    if EndsOnStored(chain, count, s.store, h) {
      EndsOnStoredAbove(chain, count, s, h, top);
      ClosedBelowWalk(chain, count, s.store, h, top, n);
    } else {
      WalkPath(chain, count, s.store, h, n);
    }
  }

  /** An announcement that joins continues the chain fired before. */
  lemma JoinsContinues(chain: Chain, count: nat, s: State, h: Hash, top: nat, top': nat, rest: Store, now: seq<Block>)
    requires Before(chain, count, s, top) && h in chain && now != []
    requires Confirms(chain, count, AfterImport(chain, count, s.store, h), top', rest, now)
    requires Joins(chain, count, s, h)
    ensures Alone(chain, count, s, h) && now[0].parent == s.fired[|s.fired| - 1].hash
  {
    hide AfterImport, WalkJoins, PathTo, DigsBelowOf, Ancestor, ClosedAbove, InChain, Linked;
    if Rises(chain, s, h) {
      RisingAlone(chain, count, s, h, top, top');
      RisingContinues(chain, count, s, h, top, top', rest, now);
    } else {
      NotRisingTop(chain, count, s, h, top, top');
      var f := now[0];
      var e := FiredIsAncestor(chain, count, AfterImport(chain, count, s.store, h), top', rest, now, f);
      var d := LowIsDug(chain, count, s, h, top, top', rest, now, f);
      assert false;
    }
  }

  lemma RisingContinues(chain: Chain, count: nat, s: State, h: Hash, top: nat, top': nat, rest: Store,
                        now: seq<Block>)
    requires Before(chain, count, s, top) && h in chain && now != [] && top < top' == chain[h].number
    requires Confirms(chain, count, AfterImport(chain, count, s.store, h), top', rest, now)
    requires Alone(chain, count, s, h) && ComesFromLast(chain, s, h) && WalkJoins(chain, count, s, h)
    ensures now[0].parent == s.fired[|s.fired| - 1].hash
  {
    hide AfterImport, Imports, PathTo, Ancestor, ClosedAbove, InChain, Linked, Bottom;
    var n := s.fired[|s.fired| - 1].number;
    JoiningPath(chain, count, s, h, top);
    AfterImportHas(chain, count, s.store, h);
    CoveredFires(chain, count, AfterImport(chain, count, s.store, h), top', rest, now, h, n + 1);
    FirstIsLowest(now, chain[Ancestor(chain, h, n + 1)]);
    if now[0].number <= n {
      var d := LowIsDug(chain, count, s, h, top, top', rest, now, now[0]);
      assert false;
    }
    FirstAbove(chain, count, s, h, top', rest, now, n);
  }

  /** The first block fired, if it is right above a level, has the ancestor at that level as its parent. */
  lemma FirstAbove(chain: Chain, count: nat, s: State, h: Hash, top': nat, rest: Store, now: seq<Block>, n: nat)
    requires Linked(chain) && h in chain && 1 <= count && Alone(chain, count, s, h)
    requires Confirms(chain, count, AfterImport(chain, count, s.store, h), top', rest, now)
    requires now != [] && now[0].number == n + 1
    ensures n + 1 < chain[h].number && now[0].parent == Ancestor(chain, h, n)
  {
    hide AfterImport, Ancestor, InChain, Linked;
    var d := FiredIsAncestor(chain, count, AfterImport(chain, count, s.store, h), top', rest, now, now[0]);
    assert Deepest(AfterImport(chain, count, s.store, h), d);
    AncestorParent(chain, h, n);
  }

  /** When the announced block opens a new level it is the only deepest one. */
  lemma OnlyDeepest(chain: Chain, count: nat, store: Store, h: Hash, top: nat, d: Hash)
    requires h in chain && Windowed(chain, count, store, top) && top < chain[h].number
    requires d in AfterImport(chain, count, store, h) && d in chain && chain[d].number == chain[h].number
    ensures d == h
  {
    StoredIff(chain, count, store, h, d);
    ImportsIff(chain, count, store, h, d);
  }

  /** Any other announcement fires something that does not continue it. */
  lemma NotJoinsBreaks(chain: Chain, count: nat, s: State, h: Hash, top: nat, top': nat, rest: Store, now: seq<Block>)
    requires Before(chain, count, s, top) && h in chain
    requires Confirms(chain, count, AfterImport(chain, count, s.store, h), top', rest, now)
    requires !Joins(chain, count, s, h)
    ensures now != [] && now[0].parent != s.fired[|s.fired| - 1].hash
  {
    hide AfterImport, WalkJoins, PathTo, DigsBelowOf, Ancestor, ClosedAbove, InChain, Linked;
    if Rises(chain, s, h) {
      RisingAlone(chain, count, s, h, top, top');
      RisingBreaks(chain, count, s, h, top, top', rest, now);
    } else {
      var d :| DigsBelowOf(chain, count, s, h, d);
      DugFires(chain, count, s, h, top, top', rest, now, d);
      FirstContinues(chain, count, s, h, top, top', rest, now);
    }
  }

  /** The parent of the first block fired can only be the block fired last if it is right above it. */
  lemma FirstContinues(chain: Chain, count: nat, s: State, h: Hash, top: nat, top': nat, rest: Store, now: seq<Block>)
    requires Before(chain, count, s, top) && h in chain && now != []
    requires Confirms(chain, count, AfterImport(chain, count, s.store, h), top', rest, now)
    ensures now[0].parent == s.fired[|s.fired| - 1].hash ==> now[0].number == s.fired[|s.fired| - 1].number + 1
  {
    hide AfterImport, Ancestor, InChain, ClosedAbove;
    assert s.fired[|s.fired| - 1] in s.fired;
    assert now[0] in now;
    assert LinkedAt(chain, now[0].hash);
  }

  lemma RisingBreaks(chain: Chain, count: nat, s: State, h: Hash, top: nat, top': nat, rest: Store, now: seq<Block>)
    requires Before(chain, count, s, top) && h in chain && top < top' == chain[h].number
    requires Confirms(chain, count, AfterImport(chain, count, s.store, h), top', rest, now)
    requires Alone(chain, count, s, h) && !(ComesFromLast(chain, s, h) && WalkJoins(chain, count, s, h))
    ensures now != [] && now[0].parent != s.fired[|s.fired| - 1].hash
  {
    hide AfterImport, Imports, PathTo, Ancestor, ClosedAbove, InChain, Linked, Bottom;
    var last := s.fired[|s.fired| - 1];
    assert last in s.fired;
    WindowMoves(chain, count, s.store, h, top, top', rest, now);
    FirstContinues(chain, count, s, h, top, top', rest, now);
    if now[0].parent == last.hash {
      FirstAbove(chain, count, s, h, top', rest, now, last.number);
      if ImportsLast(chain, count, s, h) {
        AfterImportHas(chain, count, s.store, h);
        assert DigsBelowOf(chain, count, s, h, h);
        DugFires(chain, count, s, h, top, top', rest, now, h);
      } else {
        CutWalkFires(chain, count, s, h, top, top', rest, now);
      }
    }
  }

  /** A walk cut off above the window leaves a gap, and fires above it. */
  lemma CutWalkFires(chain: Chain, count: nat, s: State, h: Hash, top: nat, top': nat, rest: Store, now: seq<Block>)
    requires Before(chain, count, s, top) && h in chain
    requires Confirms(chain, count, AfterImport(chain, count, s.store, h), top', rest, now)
    requires !EndsOnStored(chain, count, s.store, h)
    requires s.fired[|s.fired| - 1].number + 1 < Bottom(chain, count, s.store, h).number
    ensures now != [] && s.fired[|s.fired| - 1].number + 1 < now[0].number
  {
    hide Walk, WithBlocks, StoredPath, AfterImport;
    var stored := AfterImport(chain, count, s.store, h);
    var b := Bottom(chain, count, s.store, h);
    BottomCases(chain, count, s.store, h);
    TopGrows(chain, count, s.store, h, top, top');
    AfterImportHas(chain, count, s.store, h);
    assert b.number + count + 6 == chain[h].number && top < top';
    WalkPath(chain, count, s.store, h, b.number);
    CoveredFires(chain, count, stored, top', rest, now, h, b.number);
    var d := FiredIsAncestor(chain, count, stored, top', rest, now, now[0]);
    OnlyDeepest(chain, count, s.store, h, top, d);
    if now[0].number < b.number {
      var n := b.number - 1;
      var a := Ancestor(chain, h, n);
      AncestorParent(chain, h, n);
      ImportsIff(chain, count, s.store, h, b.hash);
      assert b in Walk(chain, count, s.store, h, 0) && LinkedAt(chain, b.hash);
      StoredIff(chain, count, s.store, h, a);
      ImportsIff(chain, count, s.store, h, a);
      assert false;
    }
  }

  // ------------------------------------------------------------------ runs

  /** A run: the node announces hs one after the other, starting with nothing stored. */
  ghost predicate Run(chain: Chain, count: nat, hs: seq<Hash>, states: seq<State>) {
    && Linked(chain) && |states| == |hs| + 1
    && states[0] == State(map[], [])
    && (forall i | 0 <= i < |hs| :: hs[i] in chain)
    && forall i | 0 <= i < |hs| :: Announces(chain, count, states[i], hs[i], states[i + 1])
  }

  ghost predicate Announces(chain: Chain, count: nat, s: State, h: Hash, s': State) {
    Serves(chain, s.store) && h in chain && Step(chain, count, s, h, s')
  }

  /** Names the levels and the blocks fired by one announcement of a run. */
  lemma Opened(chain: Chain, count: nat, s: State, h: Hash, s': State) returns (top: nat, top': nat, now: seq<Block>)
    requires 1 <= count && Announces(chain, count, s, h, s') && History(chain, count, s)
    ensures s'.fired == s.fired + now
    ensures Confirms(chain, count, AfterImport(chain, count, s.store, h), top', s'.store, now)
    ensures s.fired != [] ==> Before(chain, count, s, top)
    ensures s.fired == [] ==> s.store == map[] || (Windowed(chain, count, s.store, top) && top < count)
  {
    var stored := AfterImport(chain, count, s.store, h);
    top', now :| s'.fired == s.fired + now && Confirms(chain, count, stored, top', s'.store, now);
    top := 0;
    if s != State(map[], []) {
      top :| Windowed(chain, count, s.store, top) && FiredBelow(chain, count, s.fired, top);
    }
  }

  lemma {:induction false} RunHistory(chain: Chain, count: nat, hs: seq<Hash>, states: seq<State>, i: nat)
    requires 1 <= count && Run(chain, count, hs, states) && i <= |hs|
    ensures History(chain, count, states[i])
    ensures 0 < i ==> states[i].store != map[]
  {
    if 0 < i {
      RunHistory(chain, count, hs, states, i - 1);
      assert Announces(chain, count, states[i - 1], hs[i - 1], states[i]);
      StepKeepsHistory(chain, count, states[i - 1], hs[i - 1], states[i]);
    }
  }

  /**
   After every announcement of every run the store is exactly a window: its blocks are the node's own, they
   lie in the last `count` levels, and only blocks of the lowest of these levels may miss their parent.
   */
  lemma WindowInEveryRun(chain: Chain, count: nat, hs: seq<Hash>, states: seq<State>, i: nat)
    requires 1 <= count && Run(chain, count, hs, states) && 0 < i <= |hs|
    ensures exists top: nat :: Windowed(chain, count, states[i].store, top)
    ensures forall f | f in states[i].fired :: f.hash in chain && chain[f.hash] == f && f.hash !in states[i].store
  {
    RunHistory(chain, count, hs, states, i);
    var top: nat :| Windowed(chain, count, states[i].store, top) && FiredBelow(chain, count, states[i].fired, top);
  }

  lemma DistinctAppend(a: seq<Block>, b: seq<Block>)
    requires Distinct(b)
    ensures Distinct(a + b) <==> Distinct(a) && forall f :: !(f in a && f in b)
  {
    var c := a + b;
    forall f | f in a && f in b ensures !Distinct(c) {
      var i :| 0 <= i < |a| && a[i] == f;
      var j :| 0 <= j < |b| && b[j] == f;
      assert c[i] == c[|a| + j];
    }
    if Distinct(c) {
      forall i, j | 0 <= i < j < |a| ensures a[i] != a[j] {
        assert c[i] != c[j];
      }
    }
    if Distinct(a) && forall f :: !(f in a && f in b) {
      forall i, j | 0 <= i < j < |c| ensures c[i] != c[j] {
        assert i < |a| ==> c[i] in a;
        assert |a| <= j ==> c[j] in b;
      }
    }
  }

  /** One announcement keeps the fired blocks distinct exactly if its walk digs none of them up. */
  lemma StepDistinctIff(chain: Chain, count: nat, s: State, h: Hash, s': State)
    requires 1 <= count && Announces(chain, count, s, h, s') && History(chain, count, s)
    ensures Distinct(s'.fired) <==> Distinct(s.fired) && !Digs(chain, count, s, h)
  {
    hide Walk, WithBlocks, StoredPath, AfterImport, DigsUp;
    var top, top', now := Opened(chain, count, s, h, s');
    DistinctAppend(s.fired, now);
    if s.fired != [] {
      RefiresIff(chain, count, s, h, top, top', s'.store, now);
    } else {
      NothingDug(chain, count, s, h);
    }
  }

  lemma NothingDug(chain: Chain, count: nat, s: State, h: Hash)
    requires Linked(chain) && h in chain && s.fired == []
    ensures !Digs(chain, count, s, h)
  {
  }

  lemma NothingDistinct()
    ensures Distinct<Block>([])
  {
  }

  /** In every run, through reorganisations of any depth, no block fires twice exactly if no walk digs one up. */
  lemma {:induction false} AtMostOnceIff(chain: Chain, count: nat, hs: seq<Hash>, states: seq<State>, n: nat)
    requires 1 <= count && Run(chain, count, hs, states) && n <= |hs|
    ensures Distinct(states[n].fired) <==> forall i | 0 <= i < n :: !Digs(chain, count, states[i], hs[i])
  {
    hide Step, Serves, History, Digs, Distinct;
    if n == 0 {
      NothingDistinct();
    } else {
      AtMostOnceIff(chain, count, hs, states, n - 1);
      RunHistory(chain, count, hs, states, n - 1);
      assert Announces(chain, count, states[n - 1], hs[n - 1], states[n]);
      StepDistinctIff(chain, count, states[n - 1], hs[n - 1], states[n]);
    }
  }

  /** Digging up any fired block is importing the one fired last, when every deepest block descends from it. */
  lemma DigsDescending(chain: Chain, count: nat, s: State, h: Hash, s': State)
    requires 1 <= count && Announces(chain, count, s, h, s') && History(chain, count, s)
    requires DescendsFromLast(chain, count, s, h)
    ensures Digs(chain, count, s, h) <==> ImportsLast(chain, count, s, h)
  {
    hide Walk, WithBlocks, StoredPath, AfterImport, DigsUp;
    var top, top', now := Opened(chain, count, s, h, s');
    if s.fired != [] {
      RefiresIff(chain, count, s, h, top, top', s'.store, now);
      RefiresDescending(chain, count, s, h, top, top', s'.store, now);
    } else {
      NothingDug(chain, count, s, h);
    }
  }

  /**
   When every deepest block descends from the block fired last, a run fires no block twice exactly if no
   announcement's walk digs down to the block fired last.
   */
  lemma AtMostOnceDescending(chain: Chain, count: nat, hs: seq<Hash>, states: seq<State>, n: nat)
    requires 1 <= count && Run(chain, count, hs, states) && n <= |hs|
    requires forall i | 0 <= i < n :: DescendsFromLast(chain, count, states[i], hs[i])
    ensures Distinct(states[n].fired) <==> forall i | 0 <= i < n :: !ImportsLast(chain, count, states[i], hs[i])
  {
    hide Step, Serves, History, DescendsFromLast, ImportsLast, Digs, Distinct;
    AtMostOnceIff(chain, count, hs, states, n);
    forall i | 0 <= i < n
      ensures Digs(chain, count, states[i], hs[i]) <==> ImportsLast(chain, count, states[i], hs[i])
    {
      RunHistory(chain, count, hs, states, i);
      assert Announces(chain, count, states[i], hs[i], states[i + 1]);
      DigsDescending(chain, count, states[i], hs[i], states[i + 1]);
    }
  }

  /**
   When every walk after the first ends on a stored parent, no block fires twice, numbers never go down, and
   each announcement fires strictly above everything fired before it.
   */
  lemma {:induction false} AtMostOnceInOrder(chain: Chain, count: nat, hs: seq<Hash>, states: seq<State>, n: nat)
    requires 1 <= count && Run(chain, count, hs, states) && n <= |hs|
    requires forall i | 0 < i < n :: EndsOnStored(chain, count, states[i].store, hs[i])
    ensures Ascending(states[n].fired)
    ensures 0 < n ==> forall f, g | f in states[n].fired[|states[n - 1].fired|..] && g in states[n - 1].fired ::
              g.number < f.number
    ensures 0 < n ==> states[n - 1].fired <= states[n].fired
  {
    hide Step, Serves, History, EndsOnStored, Ascending;
    if n == 0 {
      NothingAscends();
    } else {
      var s, h, s' := states[n - 1], hs[n - 1], states[n];
      AtMostOnceInOrder(chain, count, hs, states, n - 1);
      RunHistory(chain, count, hs, states, n - 1);
      assert Announces(chain, count, s, h, s');
      var now := StepFiresAbove(chain, count, s, h, s');
      assert s'.fired[|s.fired|..] == now;
      AscendingAppend(s.fired, now);
    }
  }

  lemma NothingAscends()
    ensures Ascending([])
  {
  }

  lemma StepFiresAbove(chain: Chain, count: nat, s: State, h: Hash, s': State) returns (now: seq<Block>)
    requires 1 <= count && Announces(chain, count, s, h, s') && History(chain, count, s)
    requires Linked(chain) && (s.fired == [] || EndsOnStored(chain, count, s.store, h))
    ensures s'.fired == s.fired + now && Ascending(now)
    ensures forall f, g | f in now && g in s.fired :: g.number < f.number
  {
    hide Walk, WithBlocks, StoredPath, AfterImport, EndsOnStored;
    var top, top';
    top, top', now := Opened(chain, count, s, h, s');
    if s.fired != [] {
      FiresAbove(chain, count, s, h, top, top', s'.store, now);
    }
  }

  lemma AscendingAppend(a: seq<Block>, b: seq<Block>)
    requires Ascending(a) && Ascending(b)
    requires forall f, g | f in b && g in a :: g.number < f.number
    ensures Ascending(a + b)
  {
    var c := a + b;
    forall i, j | 0 <= i < j < |c| ensures c[i].number <= c[j].number && c[i] != c[j] {
      assert i < |a| ==> c[i] in a;
      assert |a| <= j ==> c[j] in b;
    }
  }

  lemma OneChainAppend(a: seq<Block>, b: seq<Block>)
    ensures OneChain(a + b) <==>
              OneChain(a) && OneChain(b) && (a != [] && b != [] ==> b[0].parent == a[|a| - 1].hash)
  {
    var c := a + b;
    if OneChain(c) {
      forall i | 0 <= i < |a| - 1 ensures a[i + 1].parent == a[i].hash {
        assert c[i + 1].parent == c[i].hash;
      }
      forall i | 0 <= i < |b| - 1 ensures b[i + 1].parent == b[i].hash {
        assert c[|a| + i + 1].parent == c[|a| + i].hash;
      }
      if a != [] && b != [] {
        assert c[(|a| - 1) + 1].parent == c[|a| - 1].hash;
      }
    }
    if OneChain(a) && OneChain(b) && (a != [] && b != [] ==> b[0].parent == a[|a| - 1].hash) {
      forall i | 0 <= i < |c| - 1 ensures c[i + 1].parent == c[i].hash {
        if |a| <= i {
          assert b[i - |a| + 1].parent == b[i - |a|].hash;
        }
      }
    }
  }

  /** The first blocks fired are one chain: they fire when a block opens a level that takes the window off genesis. */
  lemma FirstOneChain(chain: Chain, count: nat, s: State, h: Hash, top: nat, top': nat, rest: Store, now: seq<Block>)
    requires 1 <= count && Linked(chain) && h in chain && s.fired == []
    requires s.store == map[] || (Windowed(chain, count, s.store, top) && top < count)
    requires Confirms(chain, count, AfterImport(chain, count, s.store, h), top', rest, now)
    ensures OneChain(now)
  {
    hide AfterImport, PathTo, Ancestor, ClosedAbove, InChain, Linked;
    if now != [] {
      var d := FiredIsAncestor(chain, count, AfterImport(chain, count, s.store, h), top', rest, now, now[0]);
      if !Rises(chain, s, h) {
        NotRisingTop(chain, count, s, h, top, top');
      }
      RisingAlone(chain, count, s, h, top, top');
      FiresOneChain(chain, count, s, h, top', rest, now);
    }
  }

  lemma StepOneChainIff(chain: Chain, count: nat, s: State, h: Hash, s': State)
    requires 1 <= count && Announces(chain, count, s, h, s') && History(chain, count, s)
    ensures OneChain(s'.fired) <==> OneChain(s.fired) && Joins(chain, count, s, h)
  {
    hide AfterImport, Joins, Alone, Ancestor, ClosedAbove, InChain, OneChain, Confirms;
    var top, top', now := Opened(chain, count, s, h, s');
    OneChainAppend(s.fired, now);
    if s.fired == [] {
      FirstOneChain(chain, count, s, h, top, top', s'.store, now);
      NothingJoins(chain, count, s, h);
    } else if !Joins(chain, count, s, h) {
      NotJoinsBreaks(chain, count, s, h, top, top', s'.store, now);
    } else if now != [] {
      JoinsContinues(chain, count, s, h, top, top', s'.store, now);
      FiresOneChain(chain, count, s, h, top', s'.store, now);
    } else {
      NothingIsOneChain();
    }
  }

  lemma NothingJoins(chain: Chain, count: nat, s: State, h: Hash)
    requires Linked(chain) && h in chain && s.fired == []
    ensures Joins(chain, count, s, h)
  {
  }

  lemma NothingIsOneChain()
    ensures OneChain([])
  {
  }

  /**
   The finalised chain. In every run, through forks and reorganisations of any depth, the blocks fired form one
   parent-linked chain, with no gap and no fork, exactly if every announcement joins.
   */
  lemma {:induction false} FinalisedChainIff(chain: Chain, count: nat, hs: seq<Hash>, states: seq<State>, n: nat)
    requires 1 <= count && Run(chain, count, hs, states) && n <= |hs|
    ensures OneChain(states[n].fired) <==> forall i | 0 <= i < n :: Joins(chain, count, states[i], hs[i])
  {
    hide Step, Serves, History, Joins, OneChain;
    if n == 0 {
      NothingIsOneChain();
    } else {
      FinalisedChainIff(chain, count, hs, states, n - 1);
      RunHistory(chain, count, hs, states, n - 1);
      assert Announces(chain, count, states[n - 1], hs[n - 1], states[n]);
      StepOneChainIff(chain, count, states[n - 1], hs[n - 1], states[n]);
    }
  }

  /** Where every deepest block descends from the block fired last, joining is a matter of the walk alone. */
  lemma JoinsDescending(chain: Chain, count: nat, s: State, h: Hash, top: nat)
    requires Before(chain, count, s, top) && h in chain && DescendsFromLast(chain, count, s, h)
    ensures Joins(chain, count, s, h) <==> WalkJoins(chain, count, s, h)
  {
    hide AfterImport, Ancestor, ClosedAbove, Imports, Bottom, Walk;
    var stored := AfterImport(chain, count, s.store, h);
    var d, top' := TopOf(chain, count, s.store, h, top);
    assert Deepest(stored, d);
    if Rises(chain, s, h) {
      RisingAlone(chain, count, s, h, top, top');
    } else {
      BottomCases(chain, count, s.store, h);
      if EndsOnStored(chain, count, s.store, h) {
        EndsOnStoredAbove(chain, count, s, h, top);
      }
      assert DigsBelow(chain, count, s, h) <==> ImportsLast(chain, count, s, h) by {
        if ImportsLast(chain, count, s, h) {
          assert DigsBelowOf(chain, count, s, h, d);
        }
      }
    }
  }

  lemma TopOf(chain: Chain, count: nat, store: Store, h: Hash, top: nat) returns (d: Hash, top': nat)
    requires h in chain && Windowed(chain, count, store, top)
    ensures var stored := AfterImport(chain, count, store, h);
            IsTop(stored, top') && d in stored && stored[d].number == top'
  {
    hide AfterImport, Ancestor, ClosedAbove;
    AfterImportHas(chain, count, store, h);
    forall x | x in AfterImport(chain, count, store, h)
      ensures AfterImport(chain, count, store, h)[x].number <= if chain[h].number <= top then top else chain[h].number
    {
      StoredIff(chain, count, store, h, x);
      ImportsIff(chain, count, store, h, x);
    }
    if chain[h].number <= top {
      d :| d in store && store[d].number == top;
      StoredIff(chain, count, store, h, d);
      top' := top;
    } else {
      d, top' := h, chain[h].number;
    }
  }

  /** Every block a run fires is a linked ancestor, `count` or more levels up, of a block deepest at that time. */
  lemma FiredIsConfirmed(chain: Chain, count: nat, s: State, h: Hash, s': State, f: Block)
    requires Announces(chain, count, s, h, s') && s.fired <= s'.fired && f in s'.fired[|s.fired|..]
    ensures exists d :: && Deepest(AfterImport(chain, count, s.store, h), d) && d in chain
                        && f.number + count <= chain[d].number && Ancestor(chain, d, f.number) == f.hash
  {
    var stored := AfterImport(chain, count, s.store, h);
    var top: nat, now :| s'.fired == s.fired + now && Confirms(chain, count, stored, top, s'.store, now);
    assert s'.fired[|s.fired|..] == now;
    var d := FiredIsAncestor(chain, count, stored, top, s'.store, now, f);
    assert Deepest(stored, d);
  }

  /** One announcement imports at most `count` + 7 blocks, and with no confirmations asked for it keeps none. */
  lemma ImportBound(chain: Chain, count: nat, s: State, h: Hash, s': State)
    requires Announces(chain, count, s, h, s')
    ensures |Walk(chain, count, s.store, h, 0)| <= count + 7
    ensures count == 0 ==> s'.store == map[]
  {
    WalkShape(chain, count, s.store, h, 0);
    var stored := AfterImport(chain, count, s.store, h);
    var top: nat, now :| s'.fired == s.fired + now && Confirms(chain, count, stored, top, s'.store, now);
    if count == 0 {
      assert forall x | x in stored :: stored[x].number < Boundary(count, top);
      assert s'.store.Keys == {};
    }
  }

  const FIRST := Block(1, 0, ZERO)
  const SECOND := Block(2, 1, 1)
  const TWO: Chain := map[1 := FIRST, 2 := SECOND]

  lemma TwoLinked()
    ensures Linked(TWO)
  {
    assert LinkedAt(TWO, 1) && LinkedAt(TWO, 2);
  }

  lemma AnnounceFirst()
    ensures Announces(TWO, 1, State(map[], []), 1, State(map[1 := FIRST], []))
  {
    TwoLinked();
    var stored: Store := map[1 := FIRST];
    assert Walk(TWO, 1, map[], 1, 0) == [FIRST];
    assert WithBlocks(map[], [FIRST]) == stored;
    assert AfterImport(TWO, 1, map[], 1) == stored;
    assert IsTop(stored, 0) by { assert stored[1].number == 0; }
    assert Kept(stored, 0) == stored;
    assert Confirms(TWO, 1, stored, 0, stored, []);
    var fired: seq<Block> := [];
    assert fired == fired + [];
  }

  /** Announcing the second block imports the first one along with it. */
  lemma AnnounceSecond(store: Store, fired: seq<Block>)
    requires store == map[1 := FIRST] || store == map[2 := SECOND]
    ensures Announces(TWO, 1, State(store, fired), 2, State(map[2 := SECOND], fired + [FIRST]))
  {
    TwoLinked();
    if 1 in store {
      assert Walk(TWO, 1, store, 2, 0) == [SECOND];
      assert WithBlocks(store, [SECOND]) == TWO;
    } else {
      assert Walk(TWO, 1, store, 1, 1) == [FIRST];
      var w := Walk(TWO, 1, store, 2, 0);
      assert w == [SECOND, FIRST] && w[1..] == [FIRST];
      assert WithBlocks(store[2 := SECOND], [FIRST]) == TWO;
      assert WithBlocks(store, w) == TWO;
    }
    assert AfterImport(TWO, 1, store, 2) == TWO;
    ConfirmsTwo();
  }

  lemma ConfirmsTwo()
    ensures Confirms(TWO, 1, TWO, 1, map[2 := SECOND], [FIRST])
  {
    TwoLinked();
    assert IsTop(TWO, 1) by { assert TWO[2].number == 1; }
    assert Kept(TWO, 1) == map[2 := SECOND];
    assert StoredPath(TWO, TWO, 1) == {1};
    assert StoredPath(TWO, TWO, 2) == {2} + StoredPath(TWO, TWO, 1);
    assert InChain(TWO, TWO, 1, 1);
  }

  /**
   Without such hypotheses a block can fire twice: with one confirmation, announcing the second block of
   a chain once more imports and fires its already confirmed parent again.
   */
  lemma FiresTwice()
    ensures Announces(TWO, 1, State(map[], []), 1, State(map[1 := FIRST], []))
    ensures Announces(TWO, 1, State(map[1 := FIRST], []), 2, State(map[2 := SECOND], [FIRST]))
    ensures Announces(TWO, 1, State(map[2 := SECOND], [FIRST]), 2, State(map[2 := SECOND], [FIRST, FIRST]))
  {
    AnnounceFirst();
    AnnounceSecond(map[1 := FIRST], []);
    AnnounceSecond(map[2 := SECOND], [FIRST]);
    assert [] + [FIRST] == [FIRST] && [FIRST] + [FIRST] == [FIRST, FIRST];
  }
}
