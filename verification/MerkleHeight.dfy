/** What the height of a path decides: compute_root does not know the height of the block's tree, so
    the ordinary proof of a node inside the tree passes for the proof of a transaction. */
module MerkleHeight {
  import opened Wrappers
  import opened Bytes
  import opened MerkleBinding
  import opened MerkleHash
  import opened MerkleLookup
  import opened MerkleRetained
  import opened MerkleStandard
  import opened MerkleTree

  // ---------------------------------------------------------------------------
  // A path that agrees with the tree hashes the tree's own messages

  /** In range, the offset bits lead to the ancestors. */
  lemma {:induction false} DescendIsAncestor(H: Hasher, tree: seq<seq<Digest>>, index: nat, k: nat)
    requires IsTree(H, tree) && k < |tree| && index < |tree[0]|
    ensures Descend(tree, index, k) == Shr(index, k) < |tree[k]|
    decreases |tree| - k
  {
    AncestorInRange(H, tree, index, k);
    ShrSteps(index, 0);
    if k < |tree| - 1 {
      DescendIsAncestor(H, tree, index, k + 1);
    }
  }

  /** A node of a level and its sibling are hashed as the level's own pair. */
  lemma {:induction false} OwnPair(level: seq<Digest>, i: nat, sibling: Leaf)
    requires i < |level| && GoodLeaf(level, sibling) && sibling.offset == Sibling(i)
    ensures 2 * (i / 2) + 1 < Padded(|level|)
    ensures sibling.duplicate || sibling.hash.Some?
    ensures HashedPair(sibling, Sibling(i), level[i]) == (At(level, 2 * (i / 2)), At(level, 2 * (i / 2) + 1))
  {
    SiblingPair(i);
  }

  lemma {:induction false} OwnHashes(hash256: bytes -> Digest, path: Path, tree: seq<seq<Digest>>, index: nat, k: nat)
    requires IsTree(PairHasher(hash256), tree) && Agrees(path, tree) && |tree| == |path| + 1
    requires index < |tree[0]| && k < |path|
    ensures !HashCollidesAt(hash256, path, tree, index, tree[0][index], k)
  {
    hide Climb, FindOrCompute, Descend, Message, PairHasher, HashedPair, At, Climbs, Agrees, GoodLeaf, Up;
    var H := PairHasher(hash256);
    ShrSteps(index, 0);
    ShrSteps(index, k + 1);
    DescendIsAncestor(H, tree, index, k + 1);
    DescendIsAncestor(H, tree, index, k);
    AtInRange(tree[0], index);
    AtInRange(tree[k], Shr(index, k));
    ClimbAgrees(H, path, tree, index, k);
    FindAgrees(H, path, tree, k, Sibling(Shr(index, k)));
    var found := FindOrCompute(H, path, k, Sibling(Shr(index, k)));
    if Climb(H, path, index, tree[0][index], k).Ok? && found.value.Some? {
      OwnPair(tree[k], Shr(index, k), found.value.value);
    }
  }

  lemma {:induction false} AtInRange(level: seq<Digest>, o: nat)
    requires o < |level|
    ensures o < Padded(|level|) && At(level, o) == level[o]
  {
  }

  // ---------------------------------------------------------------------------
  // Nodes inside the tree

  /** The ordinary proof of node i at height d, as if that level were the block. */
  function NodeProof(H: Hasher, ts: seq<Digest>, d: nat, i: nat): (path: Path)
    requires |ts| > 0 && d < Height(H, ts) && i < |Levels(H, ts)[d]|
    ensures |path| == Height(H, ts) - d
  {
    LevelsAbove(H, ts, d);
    StandardProof(H, Levels(H, ts)[d], i)
  }

  lemma {:induction false} NodeFound(H: Hasher, us: seq<Digest>, i: nat)
    requires i < |us| && 1 < |us|
    ensures var path: Path := StandardProof(H, us, i);
            && |path| > 0 && IndexOf(path[0], us[i]).Some?
            && var o := IndexOf(path[0], us[i]).value; o < |us| && us[o] == us[i]
  {
    hide Levels, StandardProof, SiblingLeaf;
    StandardIs(H, us, i);
    SiblingOffset(us, Sibling(i));
    var path: Path := StandardProof(H, us, i);
    IndexFinds(path[0], us[i]);
    assert path[0][0] in path[0];
  }

  lemma {:induction false} NoOwnCollision(hash256: bytes -> Digest, us: seq<Digest>, i: nat)
    requires i < |us| && 1 < |us|
    ensures var path: Path, tree := StandardProof(PairHasher(hash256), us, i), Levels(PairHasher(hash256), us);
            && |path| > 0 && IndexOf(path[0], us[i]).Some?
            && NoHashCollision(hash256, path, tree, IndexOf(path[0], us[i]).value, us[i])
  {
    hide Levels, StandardProof, HashCollidesAt, PairHasher, Agrees;
    var H := PairHasher(hash256);
    var path: Path, tree := StandardProof(H, us, i), Levels(H, us);
    LevelsFormTree(H, us);
    StandardAgrees(H, us, i);
    NodeFound(H, us, i);
    var o := IndexOf(path[0], us[i]).value;
    forall k | 0 <= k < |path| ensures !HashCollidesAt(hash256, path, tree, o, us[i], k) {
      OwnHashes(hash256, path, tree, o, k);
    }
  }

  /** For every block, every level of its tree below the root and every node of that level: the
      constructor accepts the node's ordinary proof, and it computes the block's root for the node's
      hash, a string of 32 bytes, while hashing nothing but the block's own messages. */
  lemma {:induction false} InteriorNodeIsProved(hash256: bytes -> Digest, ts: seq<Digest>, d: nat, i: nat)
    requires var H := PairHasher(hash256);
             |ts| > 0 && d < Height(H, ts) && i < |Levels(H, ts)[d]|
    ensures var H: Hasher := PairHasher(hash256);
            var path: Path, node := NodeProof(H, ts, d, i), Levels(H, ts)[d][i];
            && ValidPath(H, path)
            && ComputeRoot(H, path, Some(node)) == Ok(MerkleRoot(H, ts))
            && IndexOf(path[0], node).Some?
            && NoHashCollision(hash256, path, Reached(path, Levels(H, ts)), IndexOf(path[0], node).value, node)
  {
    hide Levels, StandardProof, MerkleRoot, ComputeRoot, ValidPath, NoHashCollision, PairHasher, IndexOf;
    var H, us := PairHasher(hash256), Levels(PairHasher(hash256), ts)[d];
    LevelsFormTree(H, ts);
    LevelsAbove(H, ts, d);
    OwnLeaf(H, us, i);
    StandardRoot(H, us, i, StandardProof(H, us, i)[0][0]);
    StandardIsValid(H, us, i);
    NoOwnCollision(hash256, us, i);
  }

  /** And for a block whose transaction ids are parents of other strings of 32 bytes, such a string
      is proved by a path one level taller than the tree. */
  lemma {:induction false} PartIsProved(hash256: bytes -> Digest, us: seq<Digest>, i: nat)
    requires 1 < |us| && i < |us| && 0 < Height(PairHasher(hash256), us)
    ensures var H: Hasher, ts := PairHasher(hash256), Up(PairHasher(hash256), us);
            var path := NodeProof(H, us, 0, i);
            && |path| == Height(H, ts) + 1 && ValidPath(H, path)
            && ComputeRoot(H, path, Some(us[i])) == Ok(MerkleRoot(H, ts))
  {
    hide StandardProof, ComputeRoot, ValidPath, NoHashCollision, PairHasher, IndexOf;
    InteriorNodeIsProved(hash256, us, 0, i);
  }

  // ---------------------------------------------------------------------------
  // The height decides

  /** Whatever string of 32 bytes a path of height h proves, with no collision of the double hash on
      the way, is a transaction of the block. */
  ghost predicate ProvesOnlyTransactions(hash256: bytes -> Digest, ts: seq<Digest>, h: nat)
    requires |ts| > 0
  {
    var H := PairHasher(hash256);
    forall path: Path, txid: bytes ::
      |path| == h && |txid| == 32 && ComputeRoot(H, path, Some(txid)) == Ok(MerkleRoot(H, ts))
      && |path| > 0 && IndexOf(path[0], txid).Some?
      && NoHashCollision(hash256, path, Reached(path, Levels(H, ts)), IndexOf(path[0], txid).value, txid)
      ==> txid in ts
  }

  /** Paths of the height of the tree prove transactions only; lower ones do exactly when every node
      at that height below the root has the hash of a transaction. */
  lemma {:induction false} HeightDecides(hash256: bytes -> Digest, ts: seq<Digest>, h: nat)
    requires |ts| > 0 && 0 < h <= Height(PairHasher(hash256), ts)
    ensures var H := PairHasher(hash256);
            ProvesOnlyTransactions(hash256, ts, h) <==>
            forall x :: x in Levels(H, ts)[Height(H, ts) - h] ==> x in ts
    ensures h == Height(PairHasher(hash256), ts) ==> ProvesOnlyTransactions(hash256, ts, h)
  {
    hide Levels, StandardProof, MerkleRoot, ComputeRoot, ValidPath, NoHashCollision, PairHasher, IndexOf, IsBound;
    var H := PairHasher(hash256);
    var d := Height(H, ts) - h;
    var level := Levels(H, ts)[d];
    LevelsStart(H, ts);
    if ProvesOnlyTransactions(hash256, ts, h) {
      forall x | x in level ensures x in ts {
        var i :| 0 <= i < |level| && level[i] == x;
        InteriorNodeIsProved(hash256, ts, d, i);
        assert |NodeProof(H, ts, d, i)| == h;
      }
    }
    if forall x :: x in level ==> x in ts {
      forall path: Path, txid: bytes |
        |path| == h && |txid| == 32 && ComputeRoot(H, path, Some(txid)) == Ok(MerkleRoot(H, ts))
        && |path| > 0 && IndexOf(path[0], txid).Some?
        && NoHashCollision(hash256, path, Reached(path, Levels(H, ts)), IndexOf(path[0], txid).value, txid)
        ensures txid in ts
      {
        RootBindsTxid(hash256, path, ts, txid);
      }
    }
  }
}
