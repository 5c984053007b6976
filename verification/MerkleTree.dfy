/** The reference: a Bitcoin-style Merkle tree over a list of transaction ids. */
module MerkleTree {
  import opened Bytes

  /** The parent of a left and a right child. */
  type Hasher = (bytes, bytes) -> Digest

  /** The level above: neighbours are paired, and an odd last node is paired with itself. */
  function Up(H: Hasher, level: seq<Digest>): (above: seq<Digest>)
    ensures |above| == (|level| + 1) / 2
  {
    if |level| == 0 then []
    else if |level| == 1 then [H(level[0], level[0])]
    else [H(level[0], level[1])] + Up(H, level[2..])
  }

  /** The root, by halving the list until one node is left. */
  function MerkleRoot(H: Hasher, ts: seq<Digest>): Digest
    requires |ts| > 0
    decreases |ts|
  {
    if |ts| == 1 then ts[0] else MerkleRoot(H, Up(H, ts))
  }

  /** All levels, from the transaction ids up to the root. */
  function Levels(H: Hasher, ts: seq<Digest>): (tree: seq<seq<Digest>>)
    requires |ts| > 0
    ensures |tree| > 0
    decreases |ts|
  {
    if |ts| == 1 then [ts] else [ts] + Levels(H, Up(H, ts))
  }

  ghost predicate IsTree(H: Hasher, tree: seq<seq<Digest>>) {
    && |tree| > 0
    && |tree[|tree| - 1]| == 1
    && forall h :: 0 <= h < |tree| - 1 ==> |tree[h]| > 1 && tree[h + 1] == Up(H, tree[h])
  }

  /** The levels form a tree whose bottom is the list and whose top is the root. */
  lemma {:induction false} LevelsFormTree(H: Hasher, ts: seq<Digest>)
    requires |ts| > 0
    ensures var tree := Levels(H, ts);
            IsTree(H, tree) && tree[0] == ts && tree[|tree| - 1] == [MerkleRoot(H, ts)]
    decreases |ts|
  {
    if |ts| > 1 {
      LevelsFormTree(H, Up(H, ts));
    }
  }

  /** The levels from one level up are the levels of that level, with the same root. */
  lemma {:induction false} LevelsAbove(H: Hasher, ts: seq<Digest>, d: nat)
    requires |ts| > 0 && d < |Levels(H, ts)|
    ensures |Levels(H, ts)[d]| > 0
    ensures Levels(H, Levels(H, ts)[d]) == Levels(H, ts)[d..]
    ensures MerkleRoot(H, Levels(H, ts)[d]) == MerkleRoot(H, ts)
    decreases d
  {
    if d > 0 {
      LevelsAbove(H, Up(H, ts), d - 1);
    }
  }

  /** Positions a proof may name on a level of n nodes: an odd level has one copy past its end. */
  function Padded(n: nat): nat {
    n + n % 2
  }

  /** The node of a level at a padded position. */
  function At(level: seq<Digest>, o: nat): Digest
    requires o < Padded(|level|)
  {
    if o < |level| then level[o] else level[o - 1]
  }

  /** Each node above is the hash of the padded pair below it. */
  lemma {:induction false} UpAt(H: Hasher, level: seq<Digest>, o: nat)
    requires 2 * o < |level|
    ensures 2 * o + 1 < Padded(|level|)
    ensures o < |Up(H, level)|
    ensures Up(H, level)[o] == H(At(level, 2 * o), At(level, 2 * o + 1))
  {
    if o > 0 {
      UpAt(H, level[2..], o - 1);
      assert At(level[2..], 2 * o - 2) == At(level, 2 * o);
      assert At(level[2..], 2 * o - 1) == At(level, 2 * o + 1);
    }
  }

  // ---------------------------------------------------------------------------
  // Offsets

  /** Right shift. */
  function Shr(o: nat, h: nat): nat {
    if h == 0 then o else Shr(o, h - 1) / 2
  }

  /** o xor 1. */
  function Sibling(o: nat): nat {
    if o % 2 == 0 then o + 1 else o - 1
  }

  lemma {:induction false} SiblingPair(i: nat)
    ensures (i == 2 * (i / 2) && Sibling(i) == i + 1) || (i == 2 * (i / 2) + 1 && Sibling(i) == i - 1)
    ensures Sibling(Sibling(i)) == i && Sibling(i) / 2 == i / 2
  {
  }

  lemma {:induction false} PairInRange(i: nat, n: nat)
    requires i < Padded(n)
    ensures 2 * (i / 2) < n && i / 2 < (n + 1) / 2
  {
  }

  /** The ancestors of a padded position are positions of the tree. */
  lemma {:induction false} AncestorInRange(H: Hasher, tree: seq<seq<Digest>>, index: nat, k: nat)
    requires IsTree(H, tree) && k < |tree| && index < Padded(|tree[0]|)
    ensures Shr(index, k) < Padded(|tree[k]|)
    ensures k > 0 ==> Shr(index, k) < |tree[k]|
  {
    if k > 0 {
      AncestorInRange(H, tree, index, k - 1);
      PairInRange(Shr(index, k - 1), |tree[k - 1]|);
      assert tree[k - 1 + 1] == Up(H, tree[k - 1]);
    }
  }

  lemma {:induction false} ShrSteps(o: nat, h: nat)
    ensures Shr(o, 0) == o
    ensures h > 0 ==> Shr(o, h) == Shr(o, h - 1) / 2
  {
  }

  lemma {:induction false} ShrShr(o: nat, g: nat, h: nat)
    ensures Shr(Shr(o, g), h) == Shr(o, g + h)
  {
    if h > 0 {
      ShrShr(o, g, h - 1);
    }
  }
}
