/**
 The block tree that the node serves, and ancestry in it.
 */
module Blocks {

  // A block hash, read as the number it denotes: zero is the parent of the genesis block.
  type Hash = nat

  const ZERO: Hash := 0

  datatype Block = Block(hash: Hash, number: nat, parent: Hash)

  /** What the node answers when asked for a block by its hash. */
  type Chain = map<Hash, Block>

  /** Every block sits one level above its parent, down to a genesis block at level zero. */
  ghost predicate Linked(chain: Chain) {
    && ZERO !in chain
    && forall h {:trigger LinkedAt(chain, h)} | h in chain :: LinkedAt(chain, h)
  }

  ghost predicate LinkedAt(chain: Chain, h: Hash)
    requires h in chain
  {
    && chain[h].hash == h
    && if chain[h].parent == ZERO then chain[h].number == 0
       else chain[h].parent in chain && chain[h].number == chain[chain[h].parent].number + 1
  }

  /** The ancestor of h at level n; h is its own ancestor at its own level. */
  ghost function Ancestor(chain: Chain, h: Hash, n: nat): (a: Hash)
    requires Linked(chain) && h in chain && n <= chain[h].number
    ensures a in chain && chain[a].number == n
    decreases chain[h].number
  {
    assert LinkedAt(chain, h);
    if chain[h].number == n then h else Ancestor(chain, chain[h].parent, n)
  }

  /** Going up one level from the ancestor at n + 1 leads to the ancestor at n. */
  lemma {:induction false} AncestorParent(chain: Chain, h: Hash, n: nat)
    requires Linked(chain) && h in chain && n < chain[h].number
    ensures chain[Ancestor(chain, h, n + 1)].parent == Ancestor(chain, h, n)
    decreases chain[h].number
  {
    assert LinkedAt(chain, h);
    if n + 1 < chain[h].number {
      AncestorParent(chain, chain[h].parent, n);
    } else {
      assert Ancestor(chain, h, n) == Ancestor(chain, chain[h].parent, n);
    }
  }

  /** An ancestor of an ancestor is an ancestor. */
  lemma {:induction false} AncestorOfAncestor(chain: Chain, h: Hash, k: nat, n: nat)
    requires Linked(chain) && h in chain && n <= k <= chain[h].number
    ensures Ancestor(chain, Ancestor(chain, h, k), n) == Ancestor(chain, h, n)
    decreases chain[h].number
  {
    assert LinkedAt(chain, h);
    if k < chain[h].number {
      AncestorOfAncestor(chain, chain[h].parent, k, n);
    }
  }
}
