/**
 Block confirmation: announced blocks and their missing ancestors are stored, and the levels that
 fall out of the confirmation window either fire their events or are pruned.
 */
module PendingEvents {
  import opened Collections
  import opened Blocks

  const DEFAULT_NUMBER_OF_BLOCKS_TO_CONFIRM: nat := 5

  type Store = map<Hash, Block>

  /** The stored blocks together with the blocks whose events have been fired so far. */
  datatype State = State(store: Store, fired: seq<Block>)

  ghost predicate Serves(chain: Chain, store: Store) {
    Linked(chain) && forall h | h in store :: h in chain && chain[h] == store[h]
  }

  /** The blocks one announcement imports, the announced block first. */
  ghost function Walk(chain: Chain, count: nat, store: Store, h: Hash, depth: nat): (w: seq<Block>)
    requires Linked(chain) && h in chain
    ensures w != [] && w[0] == chain[h]
    ensures forall i | 0 <= i < |w| :: w[i].hash in chain && chain[w[i].hash] == w[i]
    decreases chain[h].number
  {
    assert LinkedAt(chain, h);
    var parent := chain[h].parent;
    if parent == ZERO || parent in store || depth > count + DEFAULT_NUMBER_OF_BLOCKS_TO_CONFIRM
    then [chain[h]]
    else [chain[h]] + Walk(chain, count, store, parent, depth + 1)
  }

  ghost function WithBlocks(store: Store, blocks: seq<Block>): Store
    decreases |blocks|
  {
    if blocks == [] then store else WithBlocks(store[blocks[0].hash := blocks[0]], blocks[1..])
  }

  ghost function AfterImport(chain: Chain, count: nat, store: Store, h: Hash): Store
    requires Linked(chain) && h in chain
  {
    WithBlocks(store, Walk(chain, count, store, h, 0))
  }

  ghost predicate IsTop(store: Store, top: nat) {
    && (exists h :: h in store && store[h].number == top)
    && forall h | h in store :: store[h].number <= top
  }

  /** The blocks met when following parents from h for as long as they are stored. */
  ghost function StoredPath(chain: Chain, store: Store, h: Hash): set<Hash>
    requires Serves(chain, store)
    decreases if h in store then store[h].number + 1 else 0
  {
    if h !in store then {}
    else
      assert LinkedAt(chain, h);
      {h} + StoredPath(chain, store, store[h].parent)
  }

  ghost predicate InChain(chain: Chain, store: Store, top: nat, h: Hash)
    requires Serves(chain, store)
  {
    exists d :: d in store && store[d].number == top && h in StoredPath(chain, store, d)
  }

  ghost predicate Ascending(blocks: seq<Block>) {
    && (forall i, j | 0 <= i < j < |blocks| :: blocks[i].number <= blocks[j].number)
    && forall i, j | 0 <= i < j < |blocks| :: blocks[i] != blocks[j]
  }

  /** What has to leave the store: everything `count` or more levels below the deepest block. */
  function Boundary(count: nat, top: nat): int {
    top - (count - 1)
  }

  ghost function Kept(store: Store, boundary: int): Store {
    map h | h in store && boundary <= store[h].number :: store[h]
  }

  /** One announcement, as a relation: the order among removed blocks of one level is open. */
  ghost predicate Step(chain: Chain, count: nat, s: State, h: Hash, s': State)
    requires Serves(chain, s.store) && h in chain
  {
    var stored := AfterImport(chain, count, s.store, h);
    exists top: nat, now: seq<Block> ::
      && s'.fired == s.fired + now
      && Confirms(chain, count, stored, top, s'.store, now)
  }

  ghost predicate Confirms(chain: Chain, count: nat, stored: Store, top: nat, rest: Store, now: seq<Block>) {
    && Serves(chain, stored)
    && IsTop(stored, top)
    && rest == Kept(stored, Boundary(count, top))
    && Ascending(now)
    && forall b: Block ::
         b in now <==>
           b.hash in stored && stored[b.hash] == b && b.number < Boundary(count, top)
           && InChain(chain, stored, top, b.hash)
  }

  lemma AfterImportHas(chain: Chain, count: nat, store: Store, h: Hash)
    requires Serves(chain, store) && h in chain
    ensures Serves(chain, AfterImport(chain, count, store, h))
    ensures h in AfterImport(chain, count, store, h)
  {
    var w := Walk(chain, count, store, h, 0);
    assert LinkedAt(chain, h);
    WithBlocksServes(chain, store, w);
    WithBlocksHas(store, w);
  }

  /** The store after an import: the old blocks, and the walk in front of them. */
  lemma {:induction false} WithBlocksHas(store: Store, blocks: seq<Block>)
    ensures store.Keys <= WithBlocks(store, blocks).Keys
    ensures forall h :: h in WithBlocks(store, blocks) <==>
              h in store || exists i :: 0 <= i < |blocks| && blocks[i].hash == h
    decreases |blocks|
  {
    if blocks != [] {
      var store', rest := store[blocks[0].hash := blocks[0]], blocks[1..];
      WithBlocksHas(store', rest);
      forall h
        ensures h in WithBlocks(store, blocks) <==> h in store || exists i :: 0 <= i < |blocks| && blocks[i].hash == h
      {
        if i :| 0 <= i < |rest| && rest[i].hash == h {
          assert blocks[i + 1].hash == h;
        }
        if i :| 0 <= i < |blocks| && blocks[i].hash == h {
          assert i == 0 || rest[i - 1].hash == h;
        }
      }
    }
  }

  lemma WithBlocksServes(chain: Chain, store: Store, blocks: seq<Block>)
    requires Serves(chain, store)
    requires forall i | 0 <= i < |blocks| :: blocks[i].hash in chain && chain[blocks[i].hash] == blocks[i]
    ensures Serves(chain, WithBlocks(store, blocks))
    decreases |blocks|
  {
    if blocks != [] {
      WithBlocksServes(chain, store[blocks[0].hash := blocks[0]], blocks[1..]);
    }
  }

  class PendingEvents {
    const blockConfirmationCount: nat
    var blockDepth: map<nat, set<Hash>>
    var blockInfoMap: map<Hash, Block>
    var fired: seq<Block>  // the blocks whose log entries went to the listeners, in order

    ghost predicate Valid(chain: Chain)
      reads this
    {
      && Serves(chain, blockInfoMap)
      && Indexed(blockDepth, blockInfoMap)
    }

    /** The two indexes hold the same blocks. */
    static ghost predicate Indexed(depth: map<nat, set<Hash>>, info: map<Hash, Block>) {
      && (forall n, h :: n in depth && h in depth[n] ==> h in info && info[h].number == n)
      && (forall h :: h in info ==> info[h].number in depth && h in depth[info[h].number])
      && forall n | n in depth :: depth[n] != {}
    }

    ghost function Value(): State
      reads this
    {
      State(blockInfoMap, fired)
    }

    constructor (blocksConfirmationCount: nat)
      ensures blockConfirmationCount == blocksConfirmationCount
      ensures Value() == State(map[], [])
      ensures forall chain :: Linked(chain) ==> Valid(chain)
    {
      blockConfirmationCount := blocksConfirmationCount;
      blockDepth := map[];
      blockInfoMap := map[];
      fired := [];
    }

    /** Enters one block in both indexes. */
    method Record(chain: Chain, blockInfo: Block)
      requires Valid(chain) && blockInfo.hash in chain && chain[blockInfo.hash] == blockInfo
      modifies `blockDepth, `blockInfoMap
      ensures Valid(chain)
      ensures blockInfoMap == old(blockInfoMap)[blockInfo.hash := blockInfo]
    {
      var blockNumber := blockInfo.number;
      if blockNumber !in blockDepth {
        blockDepth := blockDepth[blockNumber := {}];
      }
      blockDepth := blockDepth[blockNumber := blockDepth[blockNumber] + {blockInfo.hash}];
      blockInfoMap := blockInfoMap[blockInfo.hash := blockInfo];
    }

    method ImportBlocks(chain: Chain, blockInfo: Block)
      requires Valid(chain) && blockInfo.hash in chain && chain[blockInfo.hash] == blockInfo
      modifies `blockDepth, `blockInfoMap
      ensures Valid(chain)
      ensures blockInfoMap == AfterImport(chain, blockConfirmationCount, old(blockInfoMap), blockInfo.hash)
    {
      hide Walk, WithBlocks, StoredPath, AfterImport, Indexed, Importing;
      ImportStarts(chain, blockConfirmationCount, blockInfoMap, blockInfo);
      var currentBlockInfo := blockInfo;
      var found := false;
      var depth := 0;
      ghost var start := blockInfoMap;
      ghost var result := AfterImport(chain, blockConfirmationCount, start, blockInfo.hash);
      while !found
        invariant Valid(chain)
        invariant found ==> blockInfoMap == result
        invariant !found ==>
                    Importing(chain, blockConfirmationCount, start, blockInfoMap, currentBlockInfo, depth, result)
        decreases !found, currentBlockInfo.number
      {
        ImportTurn(chain, blockConfirmationCount, start, blockInfoMap, currentBlockInfo, depth, result);
        Record(chain, currentBlockInfo);
        var parentHash := currentBlockInfo.parent;
        if parentHash == ZERO || parentHash in blockInfoMap
           || depth > blockConfirmationCount + DEFAULT_NUMBER_OF_BLOCKS_TO_CONFIRM
        {
          found := true;
        } else {
          currentBlockInfo := chain[parentHash];
          depth := depth + 1;
        }
      }
    }

    /** The blocks that lead down from the deepest level. */
    method FindInChain(chain: Chain, top: nat) returns (inChain: set<Hash>)
      requires Valid(chain) && top in blockDepth
      ensures inChain == set h | h in blockInfoMap && InChain(chain, blockInfoMap, top, h)
    {
      inChain := {};
      var deepest := blockDepth[top];
      ghost var done: set<Hash> := {};
      while deepest != {}
        invariant deepest <= blockDepth[top] && done == blockDepth[top] - deepest
        invariant inChain == set h | h in blockInfoMap && MetFrom(chain, blockInfoMap, done, h)
        decreases deepest
      {
        var deepestBlockHash :| deepestBlockHash in deepest;
        deepest := deepest - {deepestBlockHash};
        var path := PathFrom(chain, deepestBlockHash);
        StoredPathStored(chain, blockInfoMap, deepestBlockHash);
        inChain := inChain + path;
        done := done + {deepestBlockHash};
      }
      forall h ensures MetFrom(chain, blockInfoMap, done, h) <==> InChain(chain, blockInfoMap, top, h) {
        if MetFrom(chain, blockInfoMap, done, h) {
          var d :| d in done && h in StoredPath(chain, blockInfoMap, d);
          assert d in blockInfoMap && blockInfoMap[d].number == top;
        }
      }
    }

    /** Follows the parents of one block for as long as they are stored. */
    method PathFrom(chain: Chain, start: Hash) returns (path: set<Hash>)
      requires Valid(chain)
      ensures path == StoredPath(chain, blockInfoMap, start)
    {
      path := {};
      var blockHash := start;
      while blockHash in blockInfoMap
        invariant path + StoredPath(chain, blockInfoMap, blockHash) == StoredPath(chain, blockInfoMap, start)
        decreases if blockHash in blockInfoMap then blockInfoMap[blockHash].number + 1 else 0
      {
        assert LinkedAt(chain, blockHash);
        path := path + {blockHash};
        blockHash := blockInfoMap[blockHash].parent;
      }
    }

    /** Takes the blocks of one level out of the store; those in the chain fire their events. */
    method RemoveLevel(blockHashes: set<Hash>, inChain: set<Hash>) returns (ghost now: seq<Block>)
      requires forall h | h in blockHashes :: h in blockInfoMap && blockInfoMap[h].hash == h
      modifies `blockInfoMap, `fired
      ensures blockInfoMap == old(blockInfoMap) - blockHashes
      ensures fired == old(fired) + now
      ensures forall i, j | 0 <= i < j < |now| :: now[i] != now[j]
      ensures forall b: Block :: b in now <==>
                b.hash in blockHashes && b.hash in inChain && old(blockInfoMap)[b.hash] == b
    {
      now := [];
      var todo := blockHashes;
      while todo != {}
        invariant todo <= blockHashes
        invariant blockInfoMap == old(blockInfoMap) - (blockHashes - todo)
        invariant fired == old(fired) + now
        invariant forall i, j | 0 <= i < j < |now| :: now[i] != now[j]
        invariant forall b: Block :: b in now <==>
                    b.hash in blockHashes - todo && b.hash in inChain && old(blockInfoMap)[b.hash] == b
        decreases todo
      {
        var blockHash :| blockHash in todo;
        var blockToRemove := blockInfoMap[blockHash];
        blockInfoMap := blockInfoMap - {blockHash};
        todo := todo - {blockHash};
        if blockHash in inChain {
          fired := fired + [blockToRemove];
          now := now + [blockToRemove];
        }
      }
    }

    /** Takes the blocks of the given levels out of the store, the lowest level first. */
    method RemoveLevels(chain: Chain, blocksToRemove: set<nat>, ghost boundary: int, inChain: set<Hash>)
      returns (ghost from: int, ghost now: seq<Block>)
      requires Removing(chain, blockDepth, blockInfoMap, 0, boundary, inChain, blocksToRemove, blockInfoMap, [])
      modifies `blockInfoMap, `fired
      ensures fired == old(fired) + now
      ensures Removing(chain, blockDepth, old(blockInfoMap), from, boundary, inChain, {}, blockInfoMap, now)
    {
      hide Removal, LevelsBetween, Kept, Indexed, Serves;
      now := [];
      var levels := blocksToRemove;
      ghost var stored := blockInfoMap;
      from := 0;  // every level below this one is gone
      while levels != {}
        invariant fired == old(fired) + now
        invariant Removing(chain, blockDepth, stored, from, boundary, inChain, levels, blockInfoMap, now)
        decreases levels
      {
        LeastExists(levels);
        var n :| n in levels && forall m :: m in levels ==> n <= m;
        ghost var before := blockInfoMap;
        RemovalTurn(chain, blockDepth, stored, from, boundary, inChain, levels, before, now, n);
        ghost var fires := RemoveLevel(blockDepth[n], inChain);
        RemovalExtends(stored, from, n, blockDepth[n], inChain, now, fires, before);
        now := now + fires;
        from := n + 1;
        levels := levels - {n};
      }
    }

    /** Takes everything below the boundary out of both indexes. */
    method RemoveBelow(chain: Chain, boundary: int, inChain: set<Hash>) returns (ghost now: seq<Block>)
      requires Valid(chain)
      modifies this
      ensures Valid(chain)
      ensures blockInfoMap == Kept(old(blockInfoMap), boundary)
      ensures fired == old(fired) + now
      ensures Removal(old(blockInfoMap), boundary, inChain, now)
    {
      var blocksToRemove := set n | n in blockDepth && n < boundary;
      ghost var stored := blockInfoMap;
      ghost var from;
      RemovalStarts(chain, blockDepth, stored, boundary, inChain, blocksToRemove);
      from, now := RemoveLevels(chain, blocksToRemove, boundary, inChain);
      RemovalEnds(chain, blockDepth, stored, from, boundary, inChain, blockInfoMap, now);
      blockDepth := map n | n in blockDepth && boundary <= n :: blockDepth[n];
    }

    method NewBlock(chain: Chain, blockInfo: Block)
      requires Valid(chain) && blockInfo.hash in chain && chain[blockInfo.hash] == blockInfo
      modifies this
      ensures Valid(chain)
      ensures Step(chain, blockConfirmationCount, old(Value()), blockInfo.hash, Value())
    {
      hide Walk, WithBlocks, StoredPath, AfterImport, InChain, Kept, Ascending;
      AfterImportHas(chain, blockConfirmationCount, blockInfoMap, blockInfo.hash);
      ImportBlocks(chain, blockInfo);
      ghost var stored := blockInfoMap;
      MaxExists(blockDepth.Keys);
      var lastKey :| lastKey in blockDepth && forall n :: n in blockDepth ==> n <= lastKey;
      ghost var deepest :| deepest in blockDepth[lastKey];
      assert IsTop(stored, lastKey) by { assert deepest in stored; }
      var removalBoundary := lastKey - (blockConfirmationCount - 1);
      if exists n :: n in blockDepth && n < removalBoundary {
        var inChain := FindInChain(chain, lastKey);
        ghost var now := RemoveBelow(chain, removalBoundary, inChain);
        assert Confirms(chain, blockConfirmationCount, stored, lastKey, blockInfoMap, now);
      } else {
        NothingBelow(chain, blockConfirmationCount, blockDepth, stored, lastKey);
        assert fired == old(fired) + [];
      }
    }
  }

  ghost predicate Removal(stored: Store, boundary: int, inChain: set<Hash>, now: seq<Block>) {
    && Ascending(now)
    && forall b: Block :: b in now <==>
         b.hash in stored && stored[b.hash] == b && b.number < boundary && b.hash in inChain
  }

  /** With no level below the boundary nothing is removed or fired. */
  lemma NothingBelow(chain: Chain, count: nat, depth: map<nat, set<Hash>>, stored: Store, top: nat)
    requires Serves(chain, stored) && IsTop(stored, top) && PendingEvents.Indexed(depth, stored)
    requires forall n | n in depth :: Boundary(count, top) <= n
    ensures Confirms(chain, count, stored, top, stored, [])
  {
  }

  ghost function LevelsBetween(depth: map<nat, set<Hash>>, from: int, to: int): set<nat> {
    set n | n in depth && from <= n < to
  }

  /** Where the removal loop stands: all below `from` is gone, and `now` is what fired of it. */
  ghost predicate Removing(chain: Chain, depth: map<nat, set<Hash>>, stored: Store, from: int, boundary: int,
                           inChain: set<Hash>, levels: set<nat>, rest: Store, now: seq<Block>)
  {
    && Serves(chain, stored) && PendingEvents.Indexed(depth, stored)
    && (from <= boundary || from == 0)
    && levels == LevelsBetween(depth, from, boundary)
    && rest == Kept(stored, from)
    && Removal(stored, from, inChain, now)
  }

  lemma RemovalStarts(chain: Chain, depth: map<nat, set<Hash>>, stored: Store, boundary: int,
                      inChain: set<Hash>, levels: set<nat>)
    requires Serves(chain, stored) && PendingEvents.Indexed(depth, stored)
    requires levels == set n | n in depth && n < boundary
    ensures Removing(chain, depth, stored, 0, boundary, inChain, levels, stored, [])
  {
    assert Kept(stored, 0) == stored;
  }

  /** Between the levels already gone and the next lowest one nothing is stored. */
  lemma RemovalTurn(chain: Chain, depth: map<nat, set<Hash>>, stored: Store, from: int, boundary: int,
                    inChain: set<Hash>, levels: set<nat>, rest: Store, now: seq<Block>, n: nat)
    requires Removing(chain, depth, stored, from, boundary, inChain, levels, rest, now)
    requires n in levels && forall m | m in levels :: n <= m
    ensures from <= n < boundary && n in depth
    ensures rest - depth[n] == Kept(stored, n + 1)
    ensures forall h | h in stored :: stored[h].number < from || n <= stored[h].number
    ensures forall h :: h in depth[n] <==> h in stored && stored[h].number == n
    ensures forall h | h in depth[n] :: h in rest && rest[h] == stored[h] && stored[h].hash == h
    ensures levels - {n} == LevelsBetween(depth, n + 1, boundary)
  {
    forall h | h in depth[n] ensures stored[h].hash == h {
      assert LinkedAt(chain, h);
    }
    forall h | h in stored ensures stored[h].number < from || n <= stored[h].number {
      var m := stored[h].number;
      if from <= m < boundary {
        assert m in levels;
      }
    }
  }

  lemma RemovalEnds(chain: Chain, depth: map<nat, set<Hash>>, stored: Store, from: int, boundary: int,
                    inChain: set<Hash>, rest: Store, now: seq<Block>)
    requires Removing(chain, depth, stored, from, boundary, inChain, {}, rest, now)
    ensures rest == Kept(stored, boundary)
    ensures Removal(stored, boundary, inChain, now)
    ensures PendingEvents.Indexed(map n | n in depth && boundary <= n :: depth[n], rest)
  {
    assert LevelsBetween(depth, from, boundary) == {};
    forall h | h in stored ensures from <= stored[h].number <==> boundary <= stored[h].number {
      assert stored[h].number !in LevelsBetween(depth, from, boundary);
    }
    KeptIndexed(depth, stored, boundary);
  }

  lemma KeptIndexed(depth: map<nat, set<Hash>>, stored: Store, boundary: int)
    requires PendingEvents.Indexed(depth, stored)
    ensures PendingEvents.Indexed(map n | n in depth && boundary <= n :: depth[n], Kept(stored, boundary))
  {
  }

  /** Firing one more level keeps the fired blocks in order. */
  lemma RemovalExtends(stored: Store, from: int, n: nat, level: set<Hash>, inChain: set<Hash>,
                       now: seq<Block>, fires: seq<Block>, rest: Store)
    requires Removal(stored, from, inChain, now) && from <= n
    requires forall h :: h in level <==> h in stored && stored[h].number == n
    requires forall h | h in stored :: stored[h].number < from || n <= stored[h].number
    requires forall h | h in level :: h in rest && rest[h] == stored[h]
    requires forall i, j | 0 <= i < j < |fires| :: fires[i] != fires[j]
    requires forall b: Block :: b in fires <==> b.hash in level && b.hash in inChain && rest[b.hash] == b
    ensures Removal(stored, n + 1, inChain, now + fires)
  {
    var all := now + fires;
    forall i, j | 0 <= i < j < |all|
      ensures all[i].number <= all[j].number && all[i] != all[j]
    {
      assert i < |now| ==> all[i] in now;
      assert j < |now| ==> all[j] in now;
      assert i >= |now| ==> all[i] in fires;
      assert j >= |now| ==> all[j] in fires;
    }
    forall b: Block
      ensures b in all <==> b.hash in stored && stored[b.hash] == b && b.number < n + 1 && b.hash in inChain
    {
      assert b in all <==> b in now || b in fires;
    }
  }

  ghost predicate MetFrom(chain: Chain, store: Store, starts: set<Hash>, h: Hash)
    requires Serves(chain, store)
  {
    exists d :: d in starts && h in StoredPath(chain, store, d)
  }

  lemma {:induction false} StoredPathStored(chain: Chain, store: Store, h: Hash)
    requires Serves(chain, store)
    ensures StoredPath(chain, store, h) <= store.Keys
    decreases if h in store then store[h].number + 1 else 0
  {
    if h in store {
      assert LinkedAt(chain, h);
      StoredPathStored(chain, store, store[h].parent);
    }
  }

  /** Where the import loop stands: importing the rest of the walk from `current` completes the result. */
  ghost predicate Importing(chain: Chain, count: nat, start: Store, store: Store, current: Block, depth: nat,
                            result: Store)
  {
    && Serves(chain, store)
    && current.hash in chain && chain[current.hash] == current
    && WithBlocks(store, Walk(chain, count, start, current.hash, depth)) == result
    && (forall h | h in store :: h in start || store[h].number > current.number)
    && start.Keys <= store.Keys
  }

  /** One turn of the import loop. */
  lemma WithBlocksCons(chain: Chain, count: nat, start: Store, store: Store, h: Hash, depth: nat)
    requires Linked(chain) && h in chain
    ensures LinkedAt(chain, h)
    ensures var rest := store[h := chain[h]];
            var parent := chain[h].parent;
            WithBlocks(store, Walk(chain, count, start, h, depth)) ==
            if parent == ZERO || parent in start || depth > count + DEFAULT_NUMBER_OF_BLOCKS_TO_CONFIRM then rest
            else WithBlocks(rest, Walk(chain, count, start, parent, depth + 1))
  {
    assert LinkedAt(chain, h);
    var parent := chain[h].parent;
    if !(parent == ZERO || parent in start || depth > count + DEFAULT_NUMBER_OF_BLOCKS_TO_CONFIRM) {
      var w := Walk(chain, count, start, parent, depth + 1);
      assert ([chain[h]] + w)[1..] == w;
    }
  }

  lemma ImportStarts(chain: Chain, count: nat, store: Store, blockInfo: Block)
    requires Serves(chain, store) && blockInfo.hash in chain && chain[blockInfo.hash] == blockInfo
    ensures Importing(chain, count, store, store, blockInfo, 0, AfterImport(chain, count, store, blockInfo.hash))
  {
  }

  lemma ImportTurn(chain: Chain, count: nat, start: Store, store: Store, current: Block, depth: nat, result: Store)
    requires Importing(chain, count, start, store, current, depth, result)
    ensures current.hash in chain && chain[current.hash] == current
    ensures var store' := store[current.hash := current];
            var parent := current.parent;
            if parent == ZERO || parent in store' || depth > count + DEFAULT_NUMBER_OF_BLOCKS_TO_CONFIRM
            then store' == result
            else parent in chain && chain[parent].number < current.number
                 && Importing(chain, count, start, store', chain[parent], depth + 1, result)
  {
    assert LinkedAt(chain, current.hash);
    if current.parent in chain {
      assert LinkedAt(chain, current.parent);
    }
    WithBlocksCons(chain, count, start, store, current.hash, depth);
  }
}
