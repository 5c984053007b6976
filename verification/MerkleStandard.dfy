/** The usual proof of one transaction, a leaf with its siblings all the way up, and what combine makes
    of two of them. */
module MerkleStandard {
  import opened Wrappers
  import opened Bytes
  import opened MerkleTree
  import opened MerkleLookup
  import opened MerkleTrim
  import opened MerkleRetained
  import opened MerkleCombine

  /** The leaf for a sibling: a duplicate just past the end of the level. */
  function SiblingLeaf(level: seq<Digest>, o: nat): Leaf {
    if o < |level| then Leaf(o, Some(level[o]), None, false) else Leaf(o, None, None, true)
  }

  function StandardLevel(tree: seq<seq<Digest>>, i: nat, h: nat): seq<Leaf>
    requires h < |tree| && i < |tree[0]|
  {
    if h == 0 then [Leaf(i, Some(tree[0][i]), Some(true), false), SiblingLeaf(tree[0], Sibling(i))]
    else [SiblingLeaf(tree[h], Sibling(Shr(i, h)))]
  }

  function StandardFrom(tree: seq<seq<Digest>>, i: nat, h: nat): (path: Path)
    requires h < |tree| && i < |tree[0]|
    ensures |path| == |tree| - 1 - h
    ensures forall g :: 0 <= g < |path| ==> path[g] == StandardLevel(tree, i, h + g)
    decreases |tree| - h
  {
    if h == |tree| - 1 then [] else [StandardLevel(tree, i, h)] + StandardFrom(tree, i, h + 1)
  }

  /** The proof of transaction i. */
  function StandardProof(H: Hasher, ts: seq<Digest>, i: nat): (path: Path)
    requires i < |ts|
    ensures |path| == |Levels(H, ts)| - 1
  {
    LevelsFormTree(H, ts);
    StandardFrom(Levels(H, ts), i, 0)
  }

  lemma {:induction false} StandardIs(H: Hasher, ts: seq<Digest>, i: nat)
    requires i < |ts| && 1 < |ts|
    ensures var tree, path := Levels(H, ts), StandardProof(H, ts, i);
            && IsTree(H, tree) && tree[0] == ts && tree[|tree| - 1] == [MerkleRoot(H, ts)]
            && |path| == |tree| - 1 > 0
            && forall h :: 0 <= h < |path| ==> path[h] == StandardLevel(tree, i, h)
  {
    LevelsFormTree(H, ts);
  }

  // ---------------------------------------------------------------------------
  // A standard proof is accepted, and proves its transaction

  lemma {:induction false} SiblingPadded(j: nat, n: nat)
    requires j < n
    ensures Sibling(j) < Padded(n) && Sibling(j) != j && Sibling(Sibling(j)) == j
  {
  }

  lemma {:induction false} SiblingLeafIsGood(level: seq<Digest>, o: nat)
    requires o < Padded(|level|)
    ensures GoodLeaf(level, SiblingLeaf(level, o))
  {
  }

  lemma {:induction false} StandardAgrees(H: Hasher, ts: seq<Digest>, i: nat)
    requires i < |ts| && 1 < |ts|
    ensures Agrees(StandardProof(H, ts, i), Levels(H, ts))
  {
    hide Levels, StandardProof, SiblingLeaf, Padded, GoodLeaf;
    StandardIs(H, ts, i);
    var tree, path := Levels(H, ts), StandardProof(H, ts, i);
    forall h, l | 0 <= h < |path| && l in path[h]
      ensures GoodLeaf(tree[h], l)
    {
      InPadded(i, |ts|);
      AncestorInRange(H, tree, i, h);
      if h > 0 {
        SiblingPadded(Shr(i, h), |tree[h]|);
      } else {
        SiblingPadded(i, |ts|);
        OwnLeafIsGood(ts, i);
      }
      SiblingLeafIsGood(tree[h], Sibling(Shr(i, h)));
      ShrSteps(i, 0);
    }
  }

  lemma {:induction false} InPadded(j: nat, n: nat)
    requires j < n
    ensures j < Padded(n)
  {
  }

  lemma {:induction false} OwnLeafIsGood(ts: seq<Digest>, i: nat)
    requires i < |ts|
    ensures GoodLeaf(ts, Leaf(i, Some(ts[i]), Some(true), false))
  {
  }

  lemma {:induction false} SameAncestors(i: nat, h: nat)
    requires h > 0
    ensures Shr(Sibling(i), h) == Shr(i, h)
  {
    SiblingPair(i);
    ShrShr(i, 1, h - 1);
    ShrShr(Sibling(i), 1, h - 1);
    ShrSteps(i, 1);
    ShrSteps(Sibling(i), 1);
  }

  lemma {:induction false} StandardStores(H: Hasher, ts: seq<Digest>, i: nat, h: nat)
    requires i < |ts| && 1 < |ts| && h < |StandardProof(H, ts, i)|
    ensures Derivable(StandardProof(H, ts, i), h, Sibling(Shr(i, h)))
    ensures h == 0 ==> Derivable(StandardProof(H, ts, i), 0, i)
  {
    hide Levels, StandardProof;
    StandardIs(H, ts, i);
    ShrSteps(i, 0);
    var level := StandardProof(H, ts, i)[h];
    StoredLeafFound(level, level[|level| - 1]);
    StoredLeafFound(level, level[0]);
  }

  /** Both bottom leaves climb. */
  lemma {:induction false} StandardClimbs(H: Hasher, ts: seq<Digest>, i: nat)
    requires i < |ts| && 1 < |ts|
    ensures var path := StandardProof(H, ts, i);
            Climbs(path, i, |path|) && Climbs(path, Sibling(i), |path|)
  {
    hide Levels, StandardProof, Derivable;
    var path: Path := StandardProof(H, ts, i);
    forall h | 0 <= h < |path|
      ensures Derivable(path, h, Sibling(Shr(i, h))) && Derivable(path, h, Sibling(Shr(Sibling(i), h)))
    {
      StandardStores(H, ts, i, h);
      if h > 0 {
        SameAncestors(i, h);
      } else {
        SiblingPadded(i, |ts|);
        ShrSteps(Sibling(i), 0);
      }
    }
  }

  lemma {:induction false} StandardRoot(H: Hasher, ts: seq<Digest>, i: nat, l: Leaf)
    requires i < |ts| && 1 < |ts|
    requires |StandardProof(H, ts, i)| > 0 && l in StandardProof(H, ts, i)[0]
    ensures ComputeRoot(H, StandardProof(H, ts, i), l.hash) == Ok(MerkleRoot(H, ts))
  {
    hide Levels, MerkleRoot, StandardProof, Climbs, Agrees, ComputeRoot, SiblingLeaf;
    var path: Path := StandardProof(H, ts, i);
    StandardIs(H, ts, i);
    StandardAgrees(H, ts, i);
    StandardClimbs(H, ts, i);
    SiblingOffset(ts, Sibling(i));
    ComputeRootAgrees(H, path, ts, l.hash);
    IndexFinds(path[0], ts[i]);
    if l.hash.Some? {
      IndexFinds(path[0], l.hash.value);
    } else {
      assert FirstHash(path[0]) == Some(ts[i]);
    }
  }

  lemma {:induction false} SiblingOffset(level: seq<Digest>, o: nat)
    ensures SiblingLeaf(level, o).offset == o && SiblingLeaf(level, o).txid == None
    ensures SiblingLeaf(level, o).hash.Some? ==> o < |level| && SiblingLeaf(level, o).hash == Some(level[o])
  {
  }

  lemma {:induction false} StandardLegal(H: Hasher, ts: seq<Digest>, i: nat, h: nat)
    requires i < |ts| && 1 < |ts| && h < |StandardProof(H, ts, i)|
    ensures ValidLevel(StandardProof(H, ts, i), h)
  {
    hide Levels, StandardProof, SiblingLeaf, Shr;
    StandardIs(H, ts, i);
    var path: Path := StandardProof(H, ts, i);
    SiblingOffset(ts, Sibling(i));
    SiblingPadded(i, |ts|);
    SiblingOffset(Levels(H, ts)[h], Sibling(Shr(i, h)));
    assert path[0][0] in path[0];
    assert Sibling(Shr(i, h)) in LegalOffsets(path[0], h);
  }

  /** The constructor accepts a standard proof. */
  lemma {:induction false} StandardIsValid(H: Hasher, ts: seq<Digest>, i: nat)
    requires i < |ts| && 1 < |ts|
    ensures ValidPath(H, StandardProof(H, ts, i))
  {
    hide Levels, MerkleRoot, StandardProof, ComputeRoot, ValidLevel;
    StandardIs(H, ts, i);
    var path: Path := StandardProof(H, ts, i);
    forall h | 0 <= h < |path| ensures ValidLevel(path, h) {
      StandardLegal(H, ts, i, h);
    }
    forall l | l in path[0] ensures ComputeRoot(H, path, l.hash) == Ok(MerkleRoot(H, ts)) {
      StandardRoot(H, ts, i, l);
    }
  }

  /** No transaction occurs twice. */
  ghost predicate NoDoubles(ts: seq<Digest>) {
    forall a, b :: 0 <= a < b < |ts| ==> ts[a] != ts[b]
  }

  lemma {:induction false} StandardProves(H: Hasher, ts: seq<Digest>, i: nat)
    requires i < |ts| && 1 < |ts| && NoDoubles(ts)
    ensures Proves(H, StandardProof(H, ts, i), ts)
  {
    hide Levels, MerkleRoot, StandardProof, ComputeRoot, SiblingLeaf, Agrees;
    StandardIs(H, ts, i);
    var path: Path := StandardProof(H, ts, i);
    StandardAgrees(H, ts, i);
    StandardLegal(H, ts, i, 0);
    SiblingOffset(ts, Sibling(i));
    forall l | l in path[0] ensures ComputeRoot(H, path, l.hash) == Ok(MerkleRoot(H, ts)) {
      StandardRoot(H, ts, i, l);
    }
  }

  // ---------------------------------------------------------------------------
  // Two standard proofs combined

  /** One of the leaves is even and the other three further: then their siblings stand next to each
      other, in different pairs. */
  predicate Straddles(i: nat, j: nat) {
    (i % 2 == 0 && j == i + 3) || (j % 2 == 0 && i == j + 3)
  }

  ghost predicate HasUnmarked(level: seq<Leaf>, o: nat) {
    exists l :: l in level && !IsMarked(l) && l.offset == o
  }

  function BothLevel(ts: seq<Digest>, i: nat, j: nat): seq<Leaf>
    requires i < |ts| && j < |ts|
  {
    CombinedLevel([Leaf(i, Some(ts[i]), Some(true), false), SiblingLeaf(ts, Sibling(i))],
                  [Leaf(j, Some(ts[j]), Some(true), false), SiblingLeaf(ts, Sibling(j))])
  }

  lemma {:induction false} BothIs(H: Hasher, ts: seq<Digest>, i: nat, j: nat)
    requires i < |ts| && j < |ts| && 1 < |ts|
    ensures var p, q := StandardProof(H, ts, i), StandardProof(H, ts, j);
            0 < |p| == |q| && Combined(p, q)[0] == BothLevel(ts, i, j)
  {
    hide Levels, StandardProof, SiblingLeaf;
    StandardIs(H, ts, i);
    StandardIs(H, ts, j);
  }

  /** Where the leaves of the merged bottom come from. */
  lemma {:induction false} BothLeaf(ts: seq<Digest>, i: nat, j: nat, l: Leaf)
    requires i < |ts| && j < |ts| && i != j && l in BothLevel(ts, i, j)
    ensures l.hash.Some? ==> l.offset < |ts| && l.hash == Some(ts[l.offset])
    ensures IsMarked(l) <==> l.offset == i || l.offset == j
    ensures !IsMarked(l) ==> l.offset == Sibling(i) || l.offset == Sibling(j)
  {
    hide SiblingLeaf, CombinedLevel;
    var a, b := Leaf(i, Some(ts[i]), Some(true), false), SiblingLeaf(ts, Sibling(i));
    var c, d := Leaf(j, Some(ts[j]), Some(true), false), SiblingLeaf(ts, Sibling(j));
    SiblingOffset(ts, Sibling(i));
    SiblingOffset(ts, Sibling(j));
    SiblingPadded(i, |ts|);
    SiblingPadded(j, |ts|);
    var l0 := CombinedOrigin([a, b], [c, d], l);
    assert a in [a, b] && c in [c, d];
    assert l0 == a || l0 == b || l0 == c || l0 == d;
    assert KeyedAt([c, d], l0.offset) <==> l0.offset == j;
  }

  lemma {:induction false} OneUnmarked(ts: seq<Digest>, i: nat, j: nat, o: nat)
    requires i < |ts| && j < |ts| && i != j
    requires (o == Sibling(i) || o == Sibling(j)) && o != i && o != j
    ensures HasUnmarked(BothLevel(ts, i, j), o)
  {
    hide SiblingLeaf, CombinedLevel;
    var a, b := Leaf(i, Some(ts[i]), Some(true), false), SiblingLeaf(ts, Sibling(i));
    var c, d := Leaf(j, Some(ts[j]), Some(true), false), SiblingLeaf(ts, Sibling(j));
    SiblingOffset(ts, Sibling(i));
    SiblingOffset(ts, Sibling(j));
    SiblingPadded(i, |ts|);
    SiblingPadded(j, |ts|);
    assert b in [a, b] && d in [c, d];
    if o == Sibling(i) {
      CombinedHas([a, b], [c, d], b);
      assert Mark([c, d], b) == b;
    } else {
      assert !HasOffset([a, b], d.offset);
      CombinedHas([a, b], [c, d], d);
      assert Mark([c, d], d) == d;
    }
  }

  lemma {:induction false} BothDistinct(ts: seq<Digest>, i: nat, j: nat)
    requires i < |ts| && j < |ts| && i != j && NoDoubles(ts)
    ensures DistinctHashes(BothLevel(ts, i, j))
  {
    hide BothLevel;
    forall a, b | a in BothLevel(ts, i, j) && b in BothLevel(ts, i, j) && a.hash.Some? && a.hash == b.hash
      ensures a.offset == b.offset
    {
      BothLeaf(ts, i, j, a);
      BothLeaf(ts, i, j, b);
    }
  }

  /** Without straddling siblings no unmarked leaves stand at 2k+1 and 2k+2. */
  lemma {:induction false} ApartIsCovered(H: Hasher, ts: seq<Digest>, i: nat, j: nat)
    requires i < |ts| && j < |ts| && i != j && 1 < |ts| && !Straddles(i, j)
    ensures Covered(Combined(StandardProof(H, ts, i), StandardProof(H, ts, j)))
  {
    hide StandardProof, BothLevel, Covered;
    BothIs(H, ts, i, j);
    var both: Path := Combined(StandardProof(H, ts, i), StandardProof(H, ts, j));
    forall a, b | a in both[0] && b in both[0] && !IsMarked(a) && !IsMarked(b) && a.offset % 2 == 1
      ensures b.offset != a.offset + 1
    {
      BothLeaf(ts, i, j, a);
      BothLeaf(ts, i, j, b);
      SiblingsApart(i, j);
    }
    NoStraddleIsCovered(both);
  }

  lemma {:induction false} SiblingsApart(i: nat, j: nat)
    requires !Straddles(i, j)
    ensures Sibling(i) % 2 == 1 ==> Sibling(i) + 1 != Sibling(j)
    ensures Sibling(j) % 2 == 1 ==> Sibling(j) + 1 != Sibling(i)
  {
  }

  lemma {:induction false} NextIsDropped(level: seq<Leaf>, a: nat)
    requires a % 2 == 1 && HasUnmarked(level, a) && HasUnmarked(level, a + 1)
    ensures Dropped(level, a) && Dropped(level, a + 1)
  {
    var e :| e in level && !IsMarked(e) && e.offset == a;
    var f :| f in level && !IsMarked(f) && f.offset == a + 1;
    assert f.offset == Peer(e.offset) && e.offset == Peer(f.offset);
  }

  /** With straddling siblings trim drops both of them. */
  lemma {:induction false} StraddledAreDropped(ts: seq<Digest>, i: nat, j: nat)
    requires i < |ts| && j < |ts| && Straddles(i, j)
    ensures Dropped(BothLevel(ts, i, j), Sibling(i)) && Dropped(BothLevel(ts, i, j), Sibling(j))
  {
    hide BothLevel, Dropped, HasUnmarked;
    OneUnmarked(ts, i, j, Sibling(i));
    OneUnmarked(ts, i, j, Sibling(j));
    NextIsDropped(BothLevel(ts, i, j), if i < j then Sibling(i) else Sibling(j));
  }

  lemma {:induction false} LosesSibling(H: Hasher, path: Path, trimmed: Path, ts: seq<Digest>, i: nat, j: nat,
                                        o: nat)
    requires i < |ts| && j < |ts| && i != j && NoDoubles(ts) && (o == i || o == j)
    requires |path| > 0 && path[0] == BothLevel(ts, i, j) && IsTrimmed(path, trimmed)
    requires Dropped(path[0], Sibling(o))
    ensures ComputeRoot(H, trimmed, Some(ts[o])).Err?
  {
    hide BothLevel, ComputeRoot, Dropped, StoredLeaf;
    BottomAfterTrim(path, trimmed);
    StoredAfterTrim(path, trimmed, 0, Sibling(o));
    forall l | l in trimmed[0] && l.hash == Some(ts[o])
      ensures l.offset == o
    {
      BothLeaf(ts, i, j, l);
    }
    BareBottomFails(H, trimmed, ts[o], o);
  }

  lemma {:induction false} StandardDefaultRoot(H: Hasher, ts: seq<Digest>, i: nat)
    requires i < |ts| && 1 < |ts|
    ensures ComputeRoot(H, StandardProof(H, ts, i), None) == Ok(MerkleRoot(H, ts))
  {
    hide Levels, MerkleRoot, StandardProof, ComputeRoot, ValidPath, Agrees;
    StandardIs(H, ts, i);
    StandardAgrees(H, ts, i);
    StandardIsValid(H, ts, i);
    DefaultRoot(H, StandardProof(H, ts, i), ts);
  }

  /** The usual proofs of two transactions of one block have its root and, combined, prove both of
      them, unless the one is even and the other three further: then combine loses both proofs. */
  lemma {:induction false} CombineStandardIff(H: Hasher, ts: seq<Digest>, i: nat, j: nat, trimmed: Path)
    requires i < |ts| && j < |ts| && i != j && NoDoubles(ts)
    requires IsTrimmed(Combined(StandardProof(H, ts, i), StandardProof(H, ts, j)), trimmed)
    ensures var p, q := StandardProof(H, ts, i), StandardProof(H, ts, j);
            ComputeRoot(H, p, None) == ComputeRoot(H, q, None) == Ok(MerkleRoot(H, ts))
    ensures var r, s := ComputeRoot(H, trimmed, Some(ts[i])), ComputeRoot(H, trimmed, Some(ts[j]));
            if Straddles(i, j) then r.Err? && s.Err? else r == s == Ok(MerkleRoot(H, ts))
  {
    hide StandardProof, BothLevel, ComputeRoot, MerkleRoot, Covered, Dropped, Proves, DistinctHashes, IsTrimmed;
    BothIs(H, ts, i, j);
    var p: Path, q: Path := StandardProof(H, ts, i), StandardProof(H, ts, j);
    StandardDefaultRoot(H, ts, i);
    StandardDefaultRoot(H, ts, j);
    if Straddles(i, j) {
      StraddledAreDropped(ts, i, j);
      LosesSibling(H, Combined(p, q), trimmed, ts, i, j, i);
      LosesSibling(H, Combined(p, q), trimmed, ts, i, j, j);
    } else {
      ApartIsCovered(H, ts, i, j);
      StandardProves(H, ts, i);
      StandardProves(H, ts, j);
      BothDistinct(ts, i, j);
      DistinctCombineIff(H, p, q, trimmed, ts);
      OwnLeaf(H, ts, i);
      OwnLeaf(H, ts, j);
      assert MarkedBefore(p, q, p[0][0]) && MarkedBefore(p, q, q[0][0]);
    }
  }

  lemma {:induction false} OwnLeaf(H: Hasher, ts: seq<Digest>, i: nat)
    requires i < |ts| && 1 < |ts|
    ensures var p: Path := StandardProof(H, ts, i);
            |p| > 0 && |p[0]| > 0 && p[0][0] in p[0] && IsMarked(p[0][0]) && p[0][0].hash == Some(ts[i])
  {
    hide Levels, StandardProof, SiblingLeaf;
    StandardIs(H, ts, i);
  }

  // ---------------------------------------------------------------------------
  // What is left is minimal

  lemma {:induction false} BothMarked(ts: seq<Digest>, i: nat, j: nat, x: nat) returns (l: Leaf)
    requires i < |ts| && j < |ts| && (x == i || x == j)
    ensures l in BothLevel(ts, i, j) && IsMarked(l) && l.offset == x
  {
    hide SiblingLeaf, CombinedLevel;
    var a, b := Leaf(i, Some(ts[i]), Some(true), false), SiblingLeaf(ts, Sibling(i));
    var c, d := Leaf(j, Some(ts[j]), Some(true), false), SiblingLeaf(ts, Sibling(j));
    var l0 := a;
    assert c in [c, d];
    if x == j {
      assert KeyedAt([c, d], j);
      if HasOffset([a, b], j) {
        l0 :| l0 in [a, b] && l0.offset == j;
      } else {
        l0 := c;
      }
    }
    CombinedHas([a, b], [c, d], l0);
    l := Mark([c, d], l0);
  }

  /** Every leaf of the merged path is i, j, or a sibling on the way up from one of them. */
  lemma {:induction false} BothOffset(H: Hasher, ts: seq<Digest>, i: nat, j: nat, h: nat, l: Leaf) returns (x: nat)
    requires i < |ts| && j < |ts| && i != j && 1 < |ts| && h < |StandardProof(H, ts, i)|
    requires l in Combined(StandardProof(H, ts, i), StandardProof(H, ts, j))[h]
    ensures (x == i || x == j) && (l.offset == Sibling(Shr(x, h)) || (h == 0 && l.offset == x && IsMarked(l)))
  {
    hide Levels, StandardProof, SiblingLeaf, BothLevel, CombinedLevel;
    StandardIs(H, ts, i);
    StandardIs(H, ts, j);
    var p: Path, q: Path := StandardProof(H, ts, i), StandardProof(H, ts, j);
    if h == 0 {
      BothIs(H, ts, i, j);
      BothLeaf(ts, i, j, l);
      ShrSteps(i, 0);
      ShrSteps(j, 0);
      x := if l.offset == i || l.offset == Sibling(i) then i else j;
    } else {
      var tree := Levels(H, ts);
      SiblingOffset(tree[h], Sibling(Shr(i, h)));
      SiblingOffset(tree[h], Sibling(Shr(j, h)));
      var l0 := CombinedOrigin(p[h], q[h], l);
      x := if l0 in p[h] then i else j;
    }
  }

  lemma {:induction false} OverBoth(H: Hasher, ts: seq<Digest>, i: nat, j: nat, x: nat, h: nat)
    requires i < |ts| && j < |ts| && 1 < |ts| && (x == i || x == j)
    ensures var p, q := StandardProof(H, ts, i), StandardProof(H, ts, j);
            |p| == |q| > 0 && OverMarked(Combined(p, q)[0], h, Shr(x, h))
  {
    hide StandardProof, BothLevel;
    BothIs(H, ts, i, j);
    var l := BothMarked(ts, i, j, x);
  }

  /** Below a node that is over no marked leaf the merged path stores nothing. */
  lemma {:induction false} NothingBelow(H: Hasher, ts: seq<Digest>, i: nat, j: nat, h: nat, o: nat, g: nat, y: nat)
    requires i < |ts| && j < |ts| && i != j && 1 < |ts|
    requires g < h < |StandardProof(H, ts, i)| && Shr(y, h - g) == o
    requires var p, q := StandardProof(H, ts, i), StandardProof(H, ts, j);
             |p| <= |q| && !OverMarked(Combined(p, q)[0], h, o)
    ensures !StaysDerivable(Combined(StandardProof(H, ts, i), StandardProof(H, ts, j)), g, y)
    decreases g
  {
    hide StandardProof, OverMarked, Kept, StoredLeaf, Shr, Combined;
    var both: Path := Combined(StandardProof(H, ts, i), StandardProof(H, ts, j));
    var stored := StoredLeaf(both[g], y);
    if stored.Some? {
      var x := BothOffset(H, ts, i, j, g, stored.value);
      OverBoth(H, ts, i, j, x, h);
      ShrShr(x, g, h - g);
      SameAncestors(Shr(x, g), h - g);
      ShrSteps(x, 0);
    }
    if g > 0 {
      ShrShr(2 * y, 1, h - g);
      ShrSteps(2 * y, 0);
      ShrSteps(2 * y, 1);
      NothingBelow(H, ts, i, j, h, o, g - 1, 2 * y);
    }
  }

  lemma {:induction false} BothSupport(H: Hasher, ts: seq<Digest>, i: nat, j: nat, h: nat, l: Leaf)
    requires i < |ts| && j < |ts| && i != j && 1 < |ts| && h < |StandardProof(H, ts, i)|
    requires var both := Combined(StandardProof(H, ts, i), StandardProof(H, ts, j));
             l in both[h] && Kept(both[0], h, l.offset) && (h > 0 || !IsMarked(l))
    ensures StillSupports(Combined(StandardProof(H, ts, i), StandardProof(H, ts, j)), h, l.offset)
  {
    hide StandardProof, OverMarked, Shr, Combined, StaysDerivable, StaysStored;
    var both: Path := Combined(StandardProof(H, ts, i), StandardProof(H, ts, j));
    var o := l.offset;
    var x := BothOffset(H, ts, i, j, h, l);
    OverBoth(H, ts, i, j, x, h);
    SiblingPair(Shr(x, h));
    ShrSteps(o, 0);
    if h > 0 {
      ShrSteps(2 * o, 0);
      ShrSteps(2 * o, 1);
      NothingBelow(H, ts, i, j, h, o, h - 1, 2 * o);
    }
    assert OverMarked(both[0], h, Sibling(Shr(o, h - h))) && StaysBareAbove(both, h, h, o);
  }

  lemma {:induction false} BothMarkedClimb(H: Hasher, ts: seq<Digest>, i: nat, j: nat)
    requires i < |ts| && j < |ts| && i != j && 1 < |ts|
    ensures var both := Combined(StandardProof(H, ts, i), StandardProof(H, ts, j));
            |both| > 0 && MarkedClimb(both) && UniqueOffsets(both[0])
  {
    hide StandardProof, BothLevel, Climbs, Combined, UniqueOffsets, CombinedLevel;
    var p: Path, q: Path := StandardProof(H, ts, i), StandardProof(H, ts, j);
    BothIs(H, ts, i, j);
    StandardClimbs(H, ts, i);
    StandardClimbs(H, ts, j);
    CombinedIncludes(p, q);
    ClimbsMonotone(Combined(p, q), p, i, |p|);
    ClimbsMonotone(Combined(p, q), q, j, |p|);
    forall l | l in BothLevel(ts, i, j) && IsMarked(l) ensures l.offset == i || l.offset == j {
      BothLeaf(ts, i, j, l);
    }
    StandardLegal(H, ts, i, 0);
    StandardLegal(H, ts, j, 0);
    CombinedIsUnique(p[0], q[0]);
  }

  /** Unless their siblings straddle two pairs, combine leaves of two ordinary proofs only what one of
      the two transactions needs. */
  lemma {:induction false} CombineStandardIsMinimal(H: Hasher, ts: seq<Digest>, i: nat, j: nat, trimmed: Path)
    requires i < |ts| && j < |ts| && i != j && !Straddles(i, j)
    requires IsTrimmed(Combined(StandardProof(H, ts, i), StandardProof(H, ts, j)), trimmed)
    ensures |trimmed| == |StandardProof(H, ts, i)|
    ensures forall h, l :: 0 <= h < |trimmed| && l in trimmed[h] && (h > 0 || !IsMarked(l)) ==>
              IsNeeded(trimmed, h, l.offset)
  {
    hide StandardProof, Combined, IsTrimmed, IsNeeded, StillSupports, Kept, Covered, MarkedClimb,
      UniqueOffsets;
    var both: Path := Combined(StandardProof(H, ts, i), StandardProof(H, ts, j));
    ApartIsCovered(H, ts, i, j);
    BothMarkedClimb(H, ts, i, j);
    forall h, l | 0 <= h < |both| && l in both[h] && Kept(both[0], h, l.offset) && (h > 0 || !IsMarked(l))
      ensures StillSupports(both, h, l.offset)
    {
      BothSupport(H, ts, i, j, h, l);
    }
    TrimIsMinimalIff(both, trimmed);
  }
}
