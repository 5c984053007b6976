/** What MerklePath.trim removes, and exactly when the marked leaves survive it. */
module MerkleTrim {
  import opened Wrappers
  import opened Bytes
  import opened MerkleTree
  import opened MerkleLookup

  /** e.get("txid") is true. */
  predicate IsMarked(l: Leaf) {
    l.txid == Some(true)
  }

  /** The node at (h, o) lies above, or is, a marked leaf. */
  ghost predicate OverMarked(level0: seq<Leaf>, h: nat, o: nat) {
    exists l :: l in level0 && IsMarked(l) && Shr(l.offset, h) == o
  }

  /** The neighbour that trim looks up; the true sibling is on the other side. */
  function Peer(o: nat): int {
    if o % 2 == 1 then o + 1 else o - 1
  }

  /** Two unmarked leaves that trim takes for siblings; it drops them. */
  ghost predicate Dropped(level0: seq<Leaf>, o: nat) {
    exists e, p :: e in level0 && p in level0 && !IsMarked(e) && !IsMarked(p)
                   && p.offset == o && p.offset == Peer(e.offset)
  }

  ghost predicate Kept(level0: seq<Leaf>, h: nat, o: nat) {
    if h == 0 then !Dropped(level0, o) else !OverMarked(level0, h, o)
  }

  /** The level that trim leaves at height h, in ascending order. */
  ghost predicate TrimmedLevel(path: Path, h: nat, level: seq<Leaf>)
    requires h < |path|
  {
    Ascending(level) && forall l :: l in level <==> l in path[h] && Kept(path[0], h, l.offset)
  }

  /** The outcome of trim: on the bottom level the pairs it takes for unneeded go, above it every
      ancestor of a marked leaf goes, and all levels are left sorted. */
  ghost predicate IsTrimmed(path: Path, trimmed: Path) {
    |trimmed| == |path| && forall h :: 0 <= h < |path| ==> TrimmedLevel(path, h, trimmed[h])
  }

  /** Every marked leaf can climb to the top. */
  ghost predicate MarkedClimb(path: Path) {
    |path| > 0 ==> forall l :: l in path[0] && IsMarked(l) ==> Climbs(path, l.offset, |path|)
  }

  /** Trim does no harm: when a dropped leaf lies below a node that some marked leaf needs as a
      sibling, then that node, or one between it and the leaf, is stored. */
  ghost predicate Covered(path: Path) {
    forall d, m :: 0 <= m < |path| && Dropped(path[0], d) && OverMarked(path[0], m, Sibling(Shr(d, m)))
      ==> StoredBetween(path, d, m)
  }

  /** Some ancestor of d at a height between 1 and m is stored. */
  ghost predicate StoredBetween(path: Path, d: nat, m: nat)
    requires m < |path|
  {
    exists h :: 1 <= h <= m && StoredLeaf(path[h], Shr(d, h)).Some?
  }

  // ---------------------------------------------------------------------------
  // Trim keeps what marked leaves need, if Covered

  lemma {:induction false} KeptStays(path: Path, trimmed: Path, h: nat, o: nat)
    requires IsTrimmed(path, trimmed) && h < |path|
    requires StoredLeaf(path[h], o).Some? && Kept(path[0], h, o)
    ensures StoredLeaf(trimmed[h], o).Some?
  {
    var l := StoredLeaf(path[h], o).value;
    assert l in trimmed[h];
    StoredLeafFound(trimmed[h], l);
  }

  lemma {:induction false} StoredWasStored(path: Path, trimmed: Path, h: nat, o: nat)
    requires IsTrimmed(path, trimmed) && h < |path|
    requires StoredLeaf(trimmed[h], o).Some?
    ensures StoredLeaf(path[h], o).Some? && Kept(path[0], h, o)
  {
    StoredLeafFound(path[h], StoredLeaf(trimmed[h], o).value);
  }

  lemma {:induction false} NothingMarkedBelow(level0: seq<Leaf>, h: nat, s: nat, g: nat, o: nat)
    requires !OverMarked(level0, h, s) && g <= h && Shr(o, h - g) == s
    ensures !OverMarked(level0, g, o)
  {
    if OverMarked(level0, g, o) {
      var l :| l in level0 && IsMarked(l) && Shr(l.offset, g) == o;
      ShrShr(l.offset, g, h - g);
    }
  }

  lemma {:induction false} BareLeafIsNotDropped(path: Path, h: nat, o: nat)
    requires h < |path| && Covered(path) && BareAbove(path, h, 0, o)
    requires OverMarked(path[0], h, Sibling(Shr(o, h)))
    ensures !Dropped(path[0], o)
  {
    assert !StoredBetween(path, o, h);
  }

  /** Below the unmarked sibling of a marked leaf's ancestor, a topmost stored node is kept. */
  lemma {:induction false} TopmostIsKept(path: Path, h: nat, s: nat, g: nat, o: nat)
    requires g <= h < |path|
    requires Covered(path) && OverMarked(path[0], h, Sibling(s)) && !OverMarked(path[0], h, s)
    requires Shr(o, h - g) == s && BareAbove(path, h, g, o)
    ensures Kept(path[0], g, o)
  {
    if g > 0 {
      NothingMarkedBelow(path[0], h, s, g, o);
    } else {
      BareLeafIsNotDropped(path, h, o);
    }
  }

  lemma {:induction false} TopmostAreKept(path: Path, trimmed: Path, h: nat, s: nat)
    requires IsTrimmed(path, trimmed) && h < |path|
    requires Covered(path) && OverMarked(path[0], h, Sibling(s)) && !OverMarked(path[0], h, s)
    ensures TopmostStay(path, trimmed, h, s)
  {
    forall g, o | 0 <= g <= h && 0 <= o && Shr(o, h - g) == s && BareAbove(path, h, g, o) &&
      StoredLeaf(path[g], o).Some?
      ensures StoredLeaf(trimmed[g], o).Some?
    {
      TopmostIsKept(path, h, s, g, o);
      KeptStays(path, trimmed, g, o);
    }
  }

  /** After trim each ancestor of a marked leaf, and its sibling, can still be had. */
  lemma {:induction false} AncestorsStay(path: Path, trimmed: Path, l: Leaf, h: nat)
    requires IsTrimmed(path, trimmed) && h < |path| && UniqueOffsets(path[0])
    requires Covered(path) && MarkedClimb(path)
    requires l in path[0] && IsMarked(l)
    ensures Derivable(trimmed, h, Shr(l.offset, h))
    ensures Derivable(trimmed, h, Sibling(Shr(l.offset, h)))
    decreases h, 1
  {
    AncestorStays(path, trimmed, l, h);
    var j := Shr(l.offset, h);
    if OverMarked(path[0], h, Sibling(j)) {
      var l' :| l' in path[0] && IsMarked(l') && Shr(l'.offset, h) == Sibling(j);
      AncestorStays(path, trimmed, l', h);
    } else {
      assert OverMarked(path[0], h, j);
      SiblingPair(j);
      TopmostAreKept(path, trimmed, h, Sibling(j));
      SubtreeStays(path, trimmed, h, Sibling(j), h, Sibling(j));
    }
  }

  lemma {:induction false} AncestorStays(path: Path, trimmed: Path, l: Leaf, h: nat)
    requires IsTrimmed(path, trimmed) && h < |path| && UniqueOffsets(path[0])
    requires Covered(path) && MarkedClimb(path)
    requires l in path[0] && IsMarked(l)
    ensures Derivable(trimmed, h, Shr(l.offset, h))
    decreases h, 0
  {
    hide Derivable, StoredLeaf, Covered, MarkedClimb, OverMarked, Dropped, Kept;
    ShrSteps(l.offset, h);
    if h == 0 {
      StoredLeafFound(path[0], l);
      MarkedIsKept(path[0], l);
      KeptStays(path, trimmed, 0, l.offset);
      StoredIsDerivable(trimmed, 0, l.offset);
    } else {
      AncestorsStay(path, trimmed, l, h - 1);
      DerivableFromPair(trimmed, h - 1, Shr(l.offset, h - 1));
    }
  }

  lemma {:induction false} MarkedIsKept(level0: seq<Leaf>, l: Leaf)
    requires UniqueOffsets(level0) && l in level0 && IsMarked(l)
    ensures Kept(level0, 0, l.offset)
  {
  }

  // ---------------------------------------------------------------------------
  // Trim breaks a marked leaf, if not Covered

  lemma {:induction false} UncoveredIsLost(path: Path, trimmed: Path, d: nat, m: nat)
    requires IsTrimmed(path, trimmed) && m < |path|
    requires Dropped(path[0], d) && !StoredBetween(path, d, m)
    ensures !Derivable(trimmed, m, Shr(d, m))
  {
    forall h | 0 <= h <= m
      ensures StoredLeaf(trimmed[h], Shr(d, h)).None?
    {
      if StoredLeaf(trimmed[h], Shr(d, h)).Some? {
        StoredWasStored(path, trimmed, h, Shr(d, h));
      }
    }
    BareLineIsLost(trimmed, d, m);
  }

  /** Exactly when the path is covered does every marked leaf still climb after trim. */
  lemma {:induction false} TrimKeepsMarkedIff(path: Path, trimmed: Path)
    requires |path| > 0 && UniqueOffsets(path[0]) && MarkedClimb(path)
    requires IsTrimmed(path, trimmed)
    ensures Covered(path) <==> forall l :: l in path[0] && IsMarked(l) ==> Climbs(trimmed, l.offset, |path|)
  {
    if Covered(path) {
      forall l, h | l in path[0] && IsMarked(l) && 0 <= h < |path|
        ensures Derivable(trimmed, h, Sibling(Shr(l.offset, h)))
      {
        AncestorsStay(path, trimmed, l, h);
      }
    } else {
      var d, m :| 0 <= m < |path| && Dropped(path[0], d) && OverMarked(path[0], m, Sibling(Shr(d, m)))
                  && !StoredBetween(path, d, m);
      var l :| l in path[0] && IsMarked(l) && Shr(l.offset, m) == Sibling(Shr(d, m));
      UncoveredIsLost(path, trimmed, d, m);
      SiblingPair(Shr(d, m));
      assert !Climbs(trimmed, l.offset, |path|);
    }
  }

  // ---------------------------------------------------------------------------
  // In terms of compute_root

  ghost predicate DistinctHashes(level: seq<Leaf>) {
    forall a, b :: a in level && b in level && a.hash.Some? && a.hash == b.hash ==> a.offset == b.offset
  }

  lemma {:induction false} TrimmedAgrees(path: Path, trimmed: Path, tree: seq<seq<Digest>>)
    requires IsTrimmed(path, trimmed) && Agrees(path, tree)
    ensures Agrees(trimmed, tree)
  {
  }

  /** With distinct hashes, computing the root of a leaf's hash climbs from that leaf. */
  lemma {:induction false} RootOfLeaf(H: Hasher, path: Path, ts: seq<Digest>, l: Leaf)
    requires |ts| > 0 && |path| > 0 && |Levels(H, ts)| == |path| + 1 && Agrees(path, Levels(H, ts))
    requires DistinctHashes(path[0]) && l in path[0] && l.hash.Some?
    ensures var r := ComputeRoot(H, path, l.hash);
            if Climbs(path, l.offset, |path|) then r == Ok(MerkleRoot(H, ts)) else r.Err?
  {
    ComputeRootAgrees(H, path, ts, l.hash);
  }

  ghost predicate RootsComputed(H: Hasher, path: Path, level: seq<Leaf>, root: bytes) {
    forall l :: l in level && IsMarked(l) ==> ComputeRoot(H, path, l.hash) == Ok(root)
  }

  /** A path that proves all its marked leaves, their hashes being distinct, proves them after trim
      exactly when it is covered. */
  lemma {:induction false} DistinctRootsIff(H: Hasher, path: Path, trimmed: Path, ts: seq<Digest>)
    requires |ts| > 0 && |path| > 0 && |Levels(H, ts)| == |path| + 1 && Agrees(path, Levels(H, ts))
    requires UniqueOffsets(path[0]) && DistinctHashes(path[0]) && IsTrimmed(path, trimmed)
    requires forall l :: l in path[0] && IsMarked(l) ==> l.hash.Some?
    requires RootsComputed(H, path, path[0], MerkleRoot(H, ts))
    ensures Covered(path) <==> RootsComputed(H, trimmed, path[0], MerkleRoot(H, ts))
  {
    TrimmedAgrees(path, trimmed, Levels(H, ts));
    forall l | l in path[0] && IsMarked(l)
      ensures Climbs(path, l.offset, |path|) && l in trimmed[0]
      ensures ComputeRoot(H, trimmed, l.hash) == Ok(MerkleRoot(H, ts)) <==> Climbs(trimmed, l.offset, |path|)
    {
      RootOfLeaf(H, path, ts, l);
      assert l in trimmed[0];
      RootOfLeaf(H, trimmed, ts, l);
    }
    TrimKeepsMarkedIff(path, trimmed);
  }

  /** If no two unmarked leaves stand at offsets 2k+1 and 2k+2, trim drops nothing it should not. */
  lemma {:induction false} NoStraddleIsCovered(path: Path)
    requires |path| > 0
    requires forall a, b :: a in path[0] && b in path[0] && !IsMarked(a) && !IsMarked(b) && a.offset % 2 == 1
                            ==> b.offset != a.offset + 1
    ensures Covered(path)
  {
  }

  /** Every ancestor of a marked leaf, which trim drops, is computed from what remains, with the
      hash it has in the tree. */
  lemma {:induction false} DroppedAncestorsRecomputed(H: Hasher, path: Path, trimmed: Path, tree: seq<seq<Digest>>,
                                                      l: Leaf, h: nat)
    requires IsTree(H, tree) && Agrees(path, tree) && h < |path| && l.offset < |tree[0]|
    requires IsTrimmed(path, trimmed) && UniqueOffsets(path[0]) && Covered(path) && MarkedClimb(path)
    requires l in path[0] && IsMarked(l)
    ensures h > 0 ==> StoredLeaf(trimmed[h], Shr(l.offset, h)).None?
    ensures Shr(l.offset, h) < |tree[h]|
    ensures var r := FindOrCompute(H, trimmed, h, Shr(l.offset, h));
            r.Ok? && r.value.Some? && r.value.value.hash == Some(tree[h][Shr(l.offset, h)])
  {
    if h > 0 && StoredLeaf(trimmed[h], Shr(l.offset, h)).Some? {
      StoredWasStored(path, trimmed, h, Shr(l.offset, h));
    }
    AncestorsStay(path, trimmed, l, h);
    TrimmedAgrees(path, trimmed, tree);
    FindAgrees(H, trimmed, tree, h, Shr(l.offset, h));
    AncestorInRange(H, tree, l.offset, h);
  }

  // ---------------------------------------------------------------------------
  // A failing case

  /** A proof for transactions 2 and 5 of a block of eight. */
  function StraddlePath(H: Hasher, ts: seq<Digest>): Path
    requires |ts| == 8
  {
    [[Leaf(2, Some(ts[2]), Some(true), false), Leaf(3, Some(ts[3]), None, false),
      Leaf(4, Some(ts[4]), None, false), Leaf(5, Some(ts[5]), Some(true), false)],
     [Leaf(0, Some(H(ts[0], ts[1])), None, false), Leaf(3, Some(H(ts[6], ts[7])), None, false)],
     []]
  }

  lemma {:induction false} LevelsOfEight(H: Hasher, ts: seq<Digest>)
    requires |ts| == 8
    ensures var tree := Levels(H, ts);
            && |tree| == 4 && tree[0] == ts
            && tree[1] == [H(ts[0], ts[1]), H(ts[2], ts[3]), H(ts[4], ts[5]), H(ts[6], ts[7])]
  {
    var up := Up(H, ts);
    UpAt(H, ts, 0);
    UpAt(H, ts, 1);
    UpAt(H, ts, 2);
    UpAt(H, ts, 3);
    assert up == [H(ts[0], ts[1]), H(ts[2], ts[3]), H(ts[4], ts[5]), H(ts[6], ts[7])];
    var up2 := Up(H, up);
    assert |up2| == 2;
    assert |Up(H, up2)| == 1;
    assert Levels(H, Up(H, up2)) == [Up(H, up2)];
    assert Levels(H, up2) == [up2] + Levels(H, Up(H, up2));
    assert Levels(H, up) == [up] + Levels(H, up2);
    assert Levels(H, ts) == [ts] + Levels(H, up);
  }

  lemma {:induction false} StraddleClimbs(H: Hasher, ts: seq<Digest>)
    requires |ts| == 8
    ensures Climbs(StraddlePath(H, ts), 2, 3) && Climbs(StraddlePath(H, ts), 5, 3)
  {
    var p := StraddlePath(H, ts);
    assert Derivable(p, 0, 2) by { StoredLeafFound(p[0], p[0][0]); }
    assert Derivable(p, 0, 3) by { StoredLeafFound(p[0], p[0][1]); }
    assert Derivable(p, 0, 4) by { StoredLeafFound(p[0], p[0][2]); }
    assert Derivable(p, 0, 5) by { StoredLeafFound(p[0], p[0][3]); }
    assert Derivable(p, 1, 0) by { StoredLeafFound(p[1], p[1][0]); }
    assert Derivable(p, 1, 3) by { StoredLeafFound(p[1], p[1][1]); }
    assert Derivable(p, 1, 1) by { assert Derivable(p, 0, 2 * 1) && Derivable(p, 0, 2 * 1 + 1); }
    assert Derivable(p, 1, 2) by { assert Derivable(p, 0, 2 * 2) && Derivable(p, 0, 2 * 2 + 1); }
    assert Derivable(p, 2, 0) by { assert Derivable(p, 1, 2 * 0) && Derivable(p, 1, 2 * 0 + 1); }
    assert Derivable(p, 2, 1) by { assert Derivable(p, 1, 2 * 1) && Derivable(p, 1, 2 * 1 + 1); }
    assert Shr(2, 0) == 2 && Shr(2, 1) == 1 && Shr(2, 2) == 0;
    assert Shr(5, 0) == 5 && Shr(5, 1) == 2 && Shr(5, 2) == 1;
  }

  lemma {:induction false} StraddleAgrees(H: Hasher, ts: seq<Digest>)
    requires |ts| == 8
    ensures |Levels(H, ts)| == 4 && Agrees(StraddlePath(H, ts), Levels(H, ts))
  {
    LevelsOfEight(H, ts);
    hide Levels;
  }

  lemma {:induction false} StraddleDrops(H: Hasher, ts: seq<Digest>)
    requires |ts| == 8
    ensures Dropped(StraddlePath(H, ts)[0], 3) && Dropped(StraddlePath(H, ts)[0], 4)
  {
    var level := StraddlePath(H, ts)[0];
    assert level[1] in level && level[2] in level;
  }

  /** Trim takes leaves 3 and 4 for siblings and drops both, although leaves 2 and 5 are marked
      and need them: both proofs are lost, for every hash function and every block of eight. */
  lemma {:induction false} StraddleLosesBothProofs(H: Hasher, ts: seq<Digest>, trimmed: Path)
    requires |ts| == 8 && ts[2] != ts[5]
    requires IsTrimmed(StraddlePath(H, ts), trimmed)
    ensures var path := StraddlePath(H, ts);
            && |Levels(H, ts)| == |path| + 1 && Agrees(path, Levels(H, ts))
            && Climbs(path, 2, |path|) && Climbs(path, 5, |path|)
            && (forall l :: l in path[0] ==> (IsMarked(l) <==> l.offset in [2, 5]) && !l.duplicate)
            && [path[0][0].offset, path[0][1].offset, path[0][2].offset, path[0][3].offset] == [2, 3, 4, 5]
    ensures ComputeRoot(H, trimmed, Some(ts[2])).Err? && ComputeRoot(H, trimmed, Some(ts[5])).Err?
  {
    hide Levels, Agrees, Climbs, Dropped, ComputeRoot;
    var path := StraddlePath(H, ts);
    StraddleAgrees(H, ts);
    StraddleClimbs(H, ts);
    StraddleDrops(H, ts);
    forall l | l in trimmed[0]
      ensures (l.offset == 2 || l.offset == 5) && l.hash == Some(ts[l.offset])
    {
      assert TrimmedLevel(path, 0, trimmed[0]);
    }
    BareBottomFails(H, trimmed, ts[2], 2);
    BareBottomFails(H, trimmed, ts[5], 5);
  }

  /** Without the sibling on the bottom level the first round already fails. */
  lemma {:induction false} BareBottomFails(H: Hasher, path: Path, txid: bytes, o: nat)
    requires |path| > 0 && StoredLeaf(path[0], Sibling(o)).None?
    requires forall l :: l in path[0] && l.hash == Some(txid) ==> l.offset == o
    ensures ComputeRoot(H, path, Some(txid)).Err?
  {
    var index := IndexOf(path[0], txid);
    if index.Some? {
      assert Climb(H, path, o, txid, 1).Err?;
      ClimbStaysFailed(H, path, o, txid, 1, |path|);
    }
  }
}
