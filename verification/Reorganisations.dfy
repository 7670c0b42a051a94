/**
 A reorganisation deeper than the window: the confirmed blocks of the old branch stay fired, and the walk down
 the new branch digs up and fires the block they share.
 */
module Reorganisations {
  import opened Collections
  import opened Blocks
  import opened PendingEvents
  import opened EventRuns

  // Two branches on one root: 1 <- 2 <- 3 and 1 <- 4 <- 5 <- 6.
  const ROOT := Block(1, 0, ZERO)
  const B2 := Block(2, 1, 1)
  const B3 := Block(3, 2, 2)
  const B4 := Block(4, 1, 1)
  const B5 := Block(5, 2, 4)
  const B6 := Block(6, 3, 5)
  const FORK: Chain := map[1 := ROOT, 2 := B2, 3 := B3, 4 := B4, 5 := B5, 6 := B6]

  lemma ForkLinked()
    ensures Linked(FORK)
  {
    assert LinkedAt(FORK, 1) && LinkedAt(FORK, 2) && LinkedAt(FORK, 3);
    assert LinkedAt(FORK, 4) && LinkedAt(FORK, 5) && LinkedAt(FORK, 6);
  }

  lemma Single(block: Block)
    requires block.hash in FORK && FORK[block.hash] == block
    ensures WithBlocks(map[], [block]) == map[block.hash := block]
  {
    assert [block][1..] == [];
  }

  lemma AnnounceRoot()
    ensures Announces(FORK, 1, State(map[], []), 1, State(map[1 := ROOT], []))
  {
    ForkLinked();
    var stored: Store := map[1 := ROOT];
    assert Walk(FORK, 1, map[], 1, 0) == [ROOT];
    Single(ROOT);
    assert AfterImport(FORK, 1, map[], 1) == stored;
    assert IsTop(stored, 0) by { assert stored[1].number == 0; }
    assert Kept(stored, 0) == stored;
    assert Confirms(FORK, 1, stored, 0, stored, []);
    var fired: seq<Block> := [];
    assert fired == fired + [];
  }

  /** The next block of a branch: its parent, which is stored, falls out of the window and fires. */
  lemma AnnounceNext(parent: Block, child: Block, fired: seq<Block>)
    requires child.hash in FORK && FORK[child.hash] == child
    requires parent.hash in FORK && FORK[parent.hash] == parent && child.parent == parent.hash
    ensures Announces(FORK, 1, State(map[parent.hash := parent], fired), child.hash,
                      State(map[child.hash := child], fired + [parent]))
  {
    hide FORK;
    ForkLinked();
    assert LinkedAt(FORK, child.hash) && LinkedAt(FORK, parent.hash);
    var store: Store := map[parent.hash := parent];
    var stored: Store := map[parent.hash := parent, child.hash := child];
    assert Walk(FORK, 1, store, child.hash, 0) == [child];
    assert WithBlocks(store, [child]) == stored by { assert [child][1..] == []; }
    assert AfterImport(FORK, 1, store, child.hash) == stored;
    assert IsTop(stored, child.number) by { assert stored[child.hash].number == child.number; }
    assert Kept(stored, child.number) == map[child.hash := child];
    OnlyParentFires(stored, parent, child);
    assert Confirms(FORK, 1, stored, child.number, map[child.hash := child], [parent]);
  }

  lemma OnlyParentFires(stored: Store, parent: Block, child: Block)
    requires Serves(FORK, stored) && stored == map[parent.hash := parent, child.hash := child]
    requires child.parent == parent.hash != child.hash
    ensures InChain(FORK, stored, child.number, parent.hash)
  {
    hide FORK;
    assert parent.hash in StoredPath(FORK, stored, parent.hash);
    assert StoredPath(FORK, stored, child.hash) == {child.hash} + StoredPath(FORK, stored, parent.hash);
    assert child.hash in stored && stored[child.hash].number == child.number;
  }

  const AFTER: Store := map[1 := ROOT, 3 := B3, 4 := B4, 5 := B5, 6 := B6]

  /** The walk down the new branch ends at the root, which has been fired. */
  lemma WalkDown()
    ensures Linked(FORK) && AfterImport(FORK, 1, map[3 := B3], 6) == AFTER
  {
    ForkLinked();
    var store: Store := map[3 := B3];
    var w := [B6, B5, B4, ROOT];
    assert Walk(FORK, 1, store, 1, 3) == [ROOT];
    assert Walk(FORK, 1, store, 4, 2) == [B4] + [ROOT];
    assert Walk(FORK, 1, store, 5, 1) == [B5] + ([B4] + [ROOT]);
    assert Walk(FORK, 1, store, 6, 0) == w;
    WithOne(store, w);
    WithOne(store[6 := B6], w[1..]);
    WithOne(store[6 := B6][5 := B5], w[1..][1..]);
    WithOne(store[6 := B6][5 := B5][4 := B4], w[1..][1..][1..]);
    assert w[1..][1..][1..][1..] == [];
    assert store[6 := B6][5 := B5][4 := B4][1 := ROOT] == AFTER;
  }

  lemma WithOne(store: Store, blocks: seq<Block>)
    ensures WithBlocks(store, blocks) ==
            if blocks == [] then store else WithBlocks(store[blocks[0].hash := blocks[0]], blocks[1..])
  {
  }

  lemma NewBranch()
    ensures Serves(FORK, AFTER) && StoredPath(FORK, AFTER, 6) == {6, 5, 4, 1}
  {
    ForkLinked();
    assert StoredPath(FORK, AFTER, 1) == {1} + StoredPath(FORK, AFTER, ZERO);
    assert StoredPath(FORK, AFTER, 4) == {4} + StoredPath(FORK, AFTER, 1);
    assert StoredPath(FORK, AFTER, 5) == {5} + StoredPath(FORK, AFTER, 4);
  }

  lemma BranchFires()
    ensures Confirms(FORK, 1, AFTER, 3, map[6 := B6], [ROOT, B4, B5])
  {
    hide StoredPath, FORK;
    NewBranch();
    assert IsTop(AFTER, 3) by { assert AFTER[6].number == 3; }
    assert Kept(AFTER, 3) == map[6 := B6];
    forall b: Hash ensures InChain(FORK, AFTER, 3, b) <==> b in {6, 5, 4, 1} {
      assert 6 in AFTER && AFTER[6].number == 3;
    }
  }

  lemma AnnounceBranch()
    ensures Announces(FORK, 1, State(map[3 := B3], [ROOT, B2]), 6, State(map[6 := B6], [ROOT, B2, ROOT, B4, B5]))
  {
    hide AfterImport, FORK;
    WalkDown();
    BranchFires();
    assert FORK[3] == B3 && 6 in FORK;
    assert [ROOT, B2] + [ROOT, B4, B5] == [ROOT, B2, ROOT, B4, B5];
  }

  /**
   With one confirmation: three blocks of one branch, then the tip of a longer one. The root fires twice,
   although the walk of the last announcement does not import the block fired last.
   */
  lemma DeepReorganisationFiresTwice()
    ensures var states := [State(map[], []), State(map[1 := ROOT], []), State(map[2 := B2], [ROOT]),
                           State(map[3 := B3], [ROOT, B2]), State(map[6 := B6], [ROOT, B2, ROOT, B4, B5])];
            Run(FORK, 1, [1, 2, 3, 6], states) && !ImportsLast(FORK, 1, states[3], 6)
  {
    hide Announces;
    ForkLinked();
    AnnounceRoot();
    AnnounceNext(ROOT, B2, []);
    AnnounceNext(B2, B3, [ROOT]);
    AnnounceBranch();
    assert [] + [ROOT] == [ROOT] && [ROOT] + [B2] == [ROOT, B2];
    LastIsLeft();
  }

  lemma LastIsLeft()
    ensures Linked(FORK) && !Imports(FORK, 1, map[3 := B3], 6, 2)
  {
    hide Walk;
    WalkDown();
    StoredIff(FORK, 1, map[3 := B3], 6, 2);
  }
}
