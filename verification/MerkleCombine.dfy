/** MerklePath.combine merges two proofs of one block and trims the result. */
module MerkleCombine {
  import opened Wrappers
  import opened Bytes
  import opened MerkleTree
  import opened MerkleLookup
  import opened MerkleRetained
  import opened MerkleTrim

  predicate HasOffset(level: seq<Leaf>, o: nat) {
    exists l :: l in level && l.offset == o
  }

  /** Some leaf of the other path at this offset carries a txid key. */
  predicate KeyedAt(other: seq<Leaf>, o: nat) {
    exists l :: l in other && l.offset == o && l.txid.Some?
  }

  /** The leaves of the other level at offsets this level does not have. */
  function Fresh(level: seq<Leaf>, other: seq<Leaf>): (r: seq<Leaf>)
    ensures forall l :: l in r <==> l in other && !HasOffset(level, l.offset)
  {
    if other == [] then []
    else
      var front, last := other[..|other| - 1], other[|other| - 1];
      assert other == front + [last];
      Fresh(level, front) + (if HasOffset(level, last.offset) then [] else [last])
  }

  function Mark(other: seq<Leaf>, l: Leaf): Leaf {
    if KeyedAt(other, l.offset) then l.(txid := Some(true)) else l
  }

  function MarkAll(other: seq<Leaf>, level: seq<Leaf>): (r: seq<Leaf>)
    ensures |r| == |level|
    ensures forall i :: 0 <= i < |level| ==> r[i] == Mark(other, level[i])
  {
    if level == [] then [] else [Mark(other, level[0])] + MarkAll(other, level[1..])
  }

  function CombinedLevel(level: seq<Leaf>, other: seq<Leaf>): seq<Leaf> {
    MarkAll(other, level + Fresh(level, other))
  }

  function Combined(path: Path, other: Path): (r: Path)
    requires |path| <= |other|
    ensures |r| == |path|
    ensures forall h :: 0 <= h < |path| ==> r[h] == CombinedLevel(path[h], other[h])
  {
    seq(|path|, h requires 0 <= h < |path| => CombinedLevel(path[h], other[h]))
  }

  // ---------------------------------------------------------------------------

  lemma {:induction false} InMarkAll(other: seq<Leaf>, level: seq<Leaf>, l: Leaf)
    ensures l in MarkAll(other, level) <==> exists l0 :: l0 in level && l == Mark(other, l0)
  {
    var r := MarkAll(other, level);
    if l in r {
      var i :| 0 <= i < |r| && r[i] == l;
      assert level[i] in level;
    }
    forall l0 | l0 in level && l == Mark(other, l0)
      ensures l in r
    {
      var i :| 0 <= i < |level| && level[i] == l0;
      assert r[i] == l;
    }
  }

  /** Every combined leaf is a leaf of one of the two levels, up to its mark. */
  lemma {:induction false} CombinedOrigin(level: seq<Leaf>, other: seq<Leaf>, l: Leaf) returns (l0: Leaf)
    requires l in CombinedLevel(level, other)
    ensures l0 in level || (l0 in other && !HasOffset(level, l0.offset))
    ensures l == Mark(other, l0)
  {
    InMarkAll(other, level + Fresh(level, other), l);
    l0 :| l0 in level + Fresh(level, other) && l == Mark(other, l0);
  }

  lemma {:induction false} CombinedHas(level: seq<Leaf>, other: seq<Leaf>, l0: Leaf)
    requires l0 in level || (l0 in other && !HasOffset(level, l0.offset))
    ensures Mark(other, l0) in CombinedLevel(level, other)
  {
    InMarkAll(other, level + Fresh(level, other), Mark(other, l0));
    assert l0 in level + Fresh(level, other);
  }

  /** Both levels' offsets are there. */
  lemma {:induction false} CombinedStores(level: seq<Leaf>, other: seq<Leaf>, o: nat)
    requires StoredLeaf(level, o).Some? || StoredLeaf(other, o).Some?
    ensures StoredLeaf(CombinedLevel(level, other), o).Some?
  {
    var l0: Leaf;
    if StoredLeaf(level, o).Some? {
      l0 := StoredLeaf(level, o).value;
    } else if HasOffset(level, o) {
      l0 :| l0 in level && l0.offset == o;
    } else {
      l0 := StoredLeaf(other, o).value;
    }
    CombinedHas(level, other, l0);
    StoredLeafFound(CombinedLevel(level, other), Mark(other, l0));
  }

  lemma {:induction false} CombinedAgrees(path: Path, other: Path, tree: seq<seq<Digest>>)
    requires |path| <= |other| && Agrees(path, tree) && Agrees(other, tree)
    ensures Agrees(Combined(path, other), tree)
  {
    forall h, l | 0 <= h < |path| && l in Combined(path, other)[h]
      ensures GoodLeaf(tree[h], l)
    {
      var l0 := CombinedOrigin(path[h], other[h], l);
      assert GoodLeaf(tree[h], l0);
    }
  }

  /** Whatever either path stores, the combination stores. */
  lemma {:induction false} CombinedIncludes(path: Path, other: Path)
    requires |path| == |other|
    ensures Includes(Combined(path, other), path) && Includes(Combined(path, other), other)
  {
    var both := Combined(path, other);
    forall h, o | 0 <= h < |path| && 0 <= o && (StoredLeaf(path[h], o).Some? || StoredLeaf(other[h], o).Some?)
      ensures StoredLeaf(both[h], o).Some?
    {
      CombinedStores(path[h], other[h], o);
    }
  }

  lemma {:induction false} FreshIsUnique(level: seq<Leaf>, other: seq<Leaf>)
    requires UniqueOffsets(other)
    ensures UniqueOffsets(Fresh(level, other))
  {
    if other != [] {
      var front, last := other[..|other| - 1], other[|other| - 1];
      FreshIsUnique(level, front);
      var added := Fresh(level, front);
      forall i | 0 <= i < |added|
        ensures added[i].offset != last.offset
      {
        assert added[i] in front;
      }
    }
  }

  lemma {:induction false} CombinedIsUnique(level: seq<Leaf>, other: seq<Leaf>)
    requires UniqueOffsets(level) && UniqueOffsets(other)
    ensures UniqueOffsets(CombinedLevel(level, other))
  {
    var added := Fresh(level, other);
    FreshIsUnique(level, other);
    forall i, j | 0 <= i < |level| && 0 <= j < |added|
      ensures level[i].offset != added[j].offset
    {
      assert added[j] in added && level[i] in level;
    }
  }

  // ---------------------------------------------------------------------------

  /** The path is a proof for its keyed leaves in the block with transactions ts. */
  ghost predicate Proves(H: Hasher, path: Path, ts: seq<Digest>) {
    && |ts| > 0 && |path| > 0
    && |Levels(H, ts)| == |path| + 1
    && Agrees(path, Levels(H, ts))
    && UniqueOffsets(path[0]) && DistinctHashes(path[0])
    && forall l :: l in path[0] && l.txid.Some? ==> l.offset < |ts| && ComputeRoot(H, path, l.hash).Ok?
  }

  lemma {:induction false} RealLeafHash(H: Hasher, ts: seq<Digest>, l: Leaf)
    requires |ts| > 0 && GoodLeaf(Levels(H, ts)[0], l) && l.offset < |ts|
    ensures l.hash == Some(ts[l.offset])
  {
    LevelsFormTree(H, ts);
  }

  /** A keyed leaf of a proof climbs in it. */
  lemma {:induction false} KeyedLeafClimbs(H: Hasher, path: Path, ts: seq<Digest>, l: Leaf)
    requires Proves(H, path, ts) && l in path[0] && l.txid.Some?
    ensures l.hash == Some(ts[l.offset]) && Climbs(path, l.offset, |path|)
  {
    RealLeafHash(H, ts, l);
    RootOfLeaf(H, path, ts, l);
  }

  /** The leaves that are marked after combining: those marked here, and those keyed there. */
  ghost predicate MarkedBefore(path: Path, other: Path, l: Leaf)
    requires |path| > 0 && |other| > 0
  {
    (l in path[0] && IsMarked(l)) || (l in other[0] && l.txid.Some?)
  }

  /** A marked leaf of the combination comes from a leaf marked before, with its hash and offset. */
  lemma {:induction false} MarkedComesFrom(H: Hasher, path: Path, other: Path, ts: seq<Digest>, l: Leaf)
    returns (m: Leaf)
    requires |path| == |other| && Proves(H, path, ts) && Proves(H, other, ts)
    requires l in Combined(path, other)[0] && IsMarked(l)
    ensures MarkedBefore(path, other, m) && m.offset == l.offset && m.hash == l.hash == Some(ts[m.offset])
    ensures Climbs(path, m.offset, |path|) || Climbs(other, m.offset, |path|)
  {
    var l0 := CombinedOrigin(path[0], other[0], l);
    if KeyedAt(other[0], l0.offset) {
      m :| m in other[0] && m.offset == l0.offset && m.txid.Some?;
      KeyedLeafClimbs(H, other, ts, m);
    } else {
      m := l0;
      assert l0 in path[0];
      KeyedLeafClimbs(H, path, ts, m);
    }
    RealLeafHash(H, ts, l0);
  }

  /** A leaf marked before is marked in the combination, with its hash and offset. */
  lemma {:induction false} MarkedGoesTo(H: Hasher, path: Path, other: Path, ts: seq<Digest>, m: Leaf) returns (l: Leaf)
    requires |path| == |other| && Proves(H, path, ts) && Proves(H, other, ts)
    requires MarkedBefore(path, other, m)
    ensures l in Combined(path, other)[0] && IsMarked(l)
    ensures m.offset < |ts| && l.offset == m.offset && l.hash == m.hash
  {
    var l0 := m;
    if m in path[0] && IsMarked(m) {
    } else if HasOffset(path[0], m.offset) {
      l0 :| l0 in path[0] && l0.offset == m.offset;
    }
    l := Mark(other[0], l0);
    CombinedHas(path[0], other[0], l0);
    RealLeafHash(H, ts, m);
    RealLeafHash(H, ts, l0);
  }

  /** When no two merged bottom leaves share a hash, all leaves that either proof marked stay proved
      exactly when the merged path is covered. */
  lemma {:induction false} DistinctCombineIff(H: Hasher, path: Path, other: Path, trimmed: Path, ts: seq<Digest>)
    requires |path| == |other| && Proves(H, path, ts) && Proves(H, other, ts)
    requires DistinctHashes(Combined(path, other)[0])
    requires IsTrimmed(Combined(path, other), trimmed)
    ensures Covered(Combined(path, other)) <==>
            forall m :: MarkedBefore(path, other, m) ==> ComputeRoot(H, trimmed, m.hash) == Ok(MerkleRoot(H, ts))
  {
    var both, root := Combined(path, other), MerkleRoot(H, ts);
    CombinedAgrees(path, other, Levels(H, ts));
    CombinedIncludes(path, other);
    CombinedIsUnique(path[0], other[0]);
    forall l | l in both[0] && IsMarked(l)
      ensures l.hash.Some? && ComputeRoot(H, both, l.hash) == Ok(root)
      ensures exists m :: MarkedBefore(path, other, m) && m.hash == l.hash
    {
      var m := MarkedComesFrom(H, path, other, ts, l);
      if Climbs(path, m.offset, |path|) {
        ClimbsMonotone(both, path, m.offset, |path|);
      } else {
        ClimbsMonotone(both, other, m.offset, |path|);
      }
      RootOfLeaf(H, both, ts, l);
    }
    forall m | MarkedBefore(path, other, m)
      ensures exists l :: l in both[0] && IsMarked(l) && l.hash == m.hash
    {
      var l := MarkedGoesTo(H, path, other, ts, m);
    }
    DistinctRootsIff(H, both, trimmed, ts);
  }

  /** Two paths of one block, combined and trimmed, prove exactly the txids that stay proved in the
      merged path; when they are proofs and the merged hashes are distinct, all leaves that either
      of them marked are proved exactly when the merged path is covered. */
  lemma {:induction false} CombineKeepsRootsIff(H: Hasher, path: Path, other: Path, trimmed: Path, ts: seq<Digest>)
    requires |ts| > 0 && 0 < |path| <= |other| && |Levels(H, ts)| == |path| + 1
    requires Agrees(path, Levels(H, ts)) && Agrees(other, Levels(H, ts))
    requires IsTrimmed(Combined(path, other), trimmed)
    ensures forall txid: bytes ::
              StaysProved(Combined(path, other), txid) <==> ComputeRoot(H, trimmed, Some(txid)) == Ok(MerkleRoot(H, ts))
    ensures Proves(H, path, ts) && Proves(H, other, ts) && DistinctHashes(Combined(path, other)[0]) ==>
              (Covered(Combined(path, other)) <==>
               forall m :: MarkedBefore(path, other, m) ==> ComputeRoot(H, trimmed, m.hash) == Ok(MerkleRoot(H, ts)))
  {
    hide Levels, MerkleRoot, ComputeRoot, IsTrimmed, Covered, StaysProved, DistinctHashes, UniqueOffsets;
    CombinedAgrees(path, other, Levels(H, ts));
    forall txid: bytes
      ensures StaysProved(Combined(path, other), txid) <==> ComputeRoot(H, trimmed, Some(txid)) == Ok(MerkleRoot(H, ts))
    {
      RootAfterTrimIff(H, Combined(path, other), trimmed, ts, txid);
    }
    if Proves(H, path, ts) && Proves(H, other, ts) && DistinctHashes(Combined(path, other)[0]) {
      DistinctCombineIff(H, path, other, trimmed, ts);
    }
  }

  // ---------------------------------------------------------------------------
  // What the constructor already checked

  /** A path the constructor accepted, and which agrees with the block, computes the block's root from
      every bottom leaf; when its hashes are distinct and its keyed leaves are transactions of the
      block, it is a proof for them. */
  lemma {:induction false} ValidPathProves(H: Hasher, path: Path, ts: seq<Digest>)
    requires |ts| > 0 && ValidPath(H, path) && |Levels(H, ts)| == |path| + 1 && Agrees(path, Levels(H, ts))
    ensures forall l :: l in path[0] ==> ComputeRoot(H, path, l.hash) == Ok(MerkleRoot(H, ts))
    ensures DistinctHashes(path[0]) && (forall l :: l in path[0] && l.txid.Some? ==> l.offset < |ts|) ==>
            Proves(H, path, ts)
  {
    assert ValidLevel(path, 0);
    hide Levels, MerkleRoot, ComputeRoot, Agrees, Climbs;
    forall l | l in path[0]
      ensures ComputeRoot(H, path, l.hash) == Ok(MerkleRoot(H, ts))
    {
      ComputeRootAgrees(H, path, ts, l.hash);
    }
  }

  /** Two accepted paths for one block pass the root comparison of combine. */
  lemma {:induction false} CombineAccepts(H: Hasher, path: Path, other: Path, ts: seq<Digest>)
    requires |ts| > 0 && ValidPath(H, path) && ValidPath(H, other)
    requires |Levels(H, ts)| == |path| + 1 == |other| + 1
    requires Agrees(path, Levels(H, ts)) && Agrees(other, Levels(H, ts))
    ensures ComputeRoot(H, path, None) == ComputeRoot(H, other, None) == Ok(MerkleRoot(H, ts))
  {
    DefaultRoot(H, path, ts);
    DefaultRoot(H, other, ts);
  }

  lemma {:induction false} DefaultRoot(H: Hasher, path: Path, ts: seq<Digest>)
    requires |ts| > 0 && ValidPath(H, path) && |Levels(H, ts)| == |path| + 1 && Agrees(path, Levels(H, ts))
    ensures ComputeRoot(H, path, None) == Ok(MerkleRoot(H, ts))
  {
    assert ValidLevel(path, 0);
    ComputeRootAgrees(H, path, ts, path[0][0].hash);
    if path[0][0].hash.Some? {
      assert FirstHash(path[0]) == path[0][0].hash;
    }
  }
}
