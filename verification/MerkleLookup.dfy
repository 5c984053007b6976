/** The lookups of a Merkle path (src/pyrxd/merkle_path.py), and what they compute. */
module MerkleLookup {
  import opened Wrappers
  import opened Bytes
  import opened MerkleTree

  /** A proof node. `txid` is None when the key is absent. */
  datatype Leaf = Leaf(offset: nat, hash: Option<bytes>, txid: Option<bool>, duplicate: bool)

  type Path = seq<seq<Leaf>>

  ghost predicate UniqueOffsets(level: seq<Leaf>) {
    forall i, j :: 0 <= i < j < |level| ==> level[i].offset != level[j].offset
  }

  /** Sorted by offset, without repetition. */
  ghost predicate Ascending(level: seq<Leaf>) {
    forall i, j :: 0 <= i < j < |level| ==> level[i].offset < level[j].offset
  }

  ghost predicate Sorted(level: seq<Leaf>) {
    forall i, j :: 0 <= i < j < |level| ==> level[i].offset <= level[j].offset
  }

  /** The first leaf of a level with the given offset. */
  function StoredLeaf(level: seq<Leaf>, o: nat): (r: Option<Leaf>)
    ensures r.Some? ==> r.value in level && r.value.offset == o
  {
    if level == [] then None
    else if level[0].offset == o then Some(level[0])
    else StoredLeaf(level[1..], o)
  }

  lemma {:induction false} StoredLeafFound(level: seq<Leaf>, l: Leaf)
    requires l in level
    ensures StoredLeaf(level, l.offset).Some?
  {
    if level[0] != l {
      StoredLeafFound(level[1..], l);
    }
  }

  /** What find_or_compute_leaf makes of the lookups of the two children. */
  function Parent(H: Hasher, o: nat, r0: Result<Option<Leaf>>, r1: Result<Option<Leaf>>): Result<Option<Leaf>> {
    var leaf0 :- r0;
    if leaf0.None? || leaf0.value.hash.None? || leaf0.value.hash.value == [] then Ok(None)
    else
      var leaf1 :- r1;
      if leaf1.None? then Ok(None)
      else if leaf1.value.duplicate then
        Ok(Some(Leaf(o, Some(H(leaf0.value.hash.value, leaf0.value.hash.value)), None, false)))
      else if leaf1.value.hash.None? then Err(KeyError)
      else
        Ok(Some(Leaf(o, Some(H(leaf0.value.hash.value, leaf1.value.hash.value)), None, false)))
  }

  function FindOrCompute(H: Hasher, path: Path, h: nat, o: nat): Result<Option<Leaf>>
    requires h < |path|
    decreases h
  {
    var stored := StoredLeaf(path[h], o);
    if stored.Some? then Ok(stored)
    else if h == 0 then Ok(None)
    else Parent(H, o, FindOrCompute(H, path, h - 1, 2 * o), FindOrCompute(H, path, h - 1, 2 * o + 1))
  }

  /** How a node that is not stored is computed, on any path: not at all when a child is missing, or
      the left one has no hash or the empty one; an error when the right one has none and is no
      duplicate; else from the two hashes, or from the left one twice. */
  lemma {:induction false} ComputedNode(H: Hasher, path: Path, h: nat, o: nat, a: Option<Leaf>, b: Option<Leaf>)
    requires 0 < h < |path| && forall l :: l in path[h] ==> l.offset != o
    requires FindOrCompute(H, path, h - 1, 2 * o) == Ok(a) && FindOrCompute(H, path, h - 1, 2 * o + 1) == Ok(b)
    ensures var r := FindOrCompute(H, path, h, o);
            if a.None? || a.value.hash in {None, Some([])} || b.None? then r == Ok(None)
            else if !b.value.duplicate && b.value.hash.None? then r == Err(KeyError)
            else
              var left := a.value.hash.value;
              var right := if b.value.duplicate then left else b.value.hash.value;
              r == Ok(Some(Leaf(o, Some(H(left, right)), None, false)))
  {
  }

  /** One round of the loop in compute_root: the working hash meets its sibling. */
  function Absorb(H: Hasher, sibling: Leaf, offset: nat, w: bytes): Result<bytes> {
    if sibling.duplicate then Ok(H(w, w))
    else if sibling.hash.None? then Err(KeyError)
    else if offset % 2 != 0 then Ok(H(w, sibling.hash.value))
    else Ok(H(sibling.hash.value, w))
  }

  /** The round of compute_root at height h. */
  function Round(H: Hasher, path: Path, index: nat, h: nat, w: bytes): Result<bytes>
    requires h < |path|
  {
    var offset := Sibling(Shr(index, h));
    var sibling :- FindOrCompute(H, path, h, offset);
    if sibling.None? then Err(ValueError) else Absorb(H, sibling.value, offset, w)
  }

  /** A round fails with the error of the lookup, for a sibling that cannot be had, and for one that is
      stored without a hash and is no duplicate. */
  lemma {:induction false} RoundRaises(H: Hasher, path: Path, index: nat, h: nat, w: bytes)
    requires h < |path|
    ensures var found := FindOrCompute(H, path, h, Sibling(Shr(index, h)));
            var r := Round(H, path, index, h, w);
            if found.Err? then r == Err(found.error)
            else if found.value.None? then r == Err(ValueError)
            else if !found.value.value.duplicate && found.value.value.hash.None? then r == Err(KeyError)
            else r.Ok?
  {
    hide FindOrCompute;
  }

  /** The working hash after k rounds, starting from hash w at the given index. */
  function Climb(H: Hasher, path: Path, index: nat, w: bytes, k: nat): Result<bytes>
    requires k <= |path|
    decreases k
  {
    if k == 0 then Ok(w)
    else
      var below :- Climb(H, path, index, w, k - 1);
      Round(H, path, index, k - 1, below)
  }

  lemma {:induction false} ClimbStaysFailed(H: Hasher, path: Path, index: nat, w: bytes, h: nat, k: nat)
    requires h <= k <= |path| && Climb(H, path, index, w, h).Err?
    ensures Climb(H, path, index, w, k) == Climb(H, path, index, w, h)
  {
    if h < k {
      ClimbStaysFailed(H, path, index, w, h, k - 1);
    }
  }

  function FirstHash(level: seq<Leaf>): (r: Option<bytes>)
    ensures r.Some? <==> exists l :: l in level && l.hash.Some?
    ensures r.Some? ==> exists l :: l in level && l.hash == r
  {
    if level == [] then None
    else if level[0].hash.Some? then level[0].hash
    else
      assert level == [level[0]] + level[1..];
      FirstHash(level[1..])
  }

  function IndexOf(level: seq<Leaf>, txid: bytes): (r: Option<nat>)
    ensures r.Some? <==> exists l :: l in level && l.hash == Some(txid)
    ensures r.Some? ==> exists l :: l in level && l.hash == Some(txid) && l.offset == r.value
  {
    if level == [] then None
    else if level[0].hash == Some(txid) then Some(level[0].offset)
    else
      assert level == [level[0]] + level[1..];
      IndexOf(level[1..], txid)
  }

  /** The lookups take the first leaf of the level that fits. */
  lemma {:induction false} FirstIsFound(level: seq<Leaf>, i: nat, txid: bytes)
    requires i < |level|
    ensures (forall j :: 0 <= j < i ==> level[j].offset != level[i].offset) ==>
              StoredLeaf(level, level[i].offset) == Some(level[i])
    ensures level[i].hash.Some? && (forall j :: 0 <= j < i ==> level[j].hash.None?) ==>
              FirstHash(level) == level[i].hash
    ensures level[i].hash == Some(txid) && (forall j :: 0 <= j < i ==> level[j].hash != Some(txid)) ==>
              IndexOf(level, txid) == Some(level[i].offset)
  {
    if i > 0 {
      FirstIsFound(level[1..], i - 1, txid);
      assert forall j :: 0 <= j < i - 1 ==> level[1..][j] == level[j + 1];
    }
  }

  function ComputeRoot(H: Hasher, path: Path, txid: Option<bytes>): Result<bytes> {
    if path == [] then Err(IndexError)
    else
      var start := if txid.Some? then txid else FirstHash(path[0]);
      if start.None? then Err(StopIteration)
      else
        var index := IndexOf(path[0], start.value);
        if index.None? then Err(ValueError)
        else Climb(H, path, index.value, start.value, |path|)
  }

  // ---------------------------------------------------------------------------
  // What the constructor accepts

  /** The offsets at height h that the bottom leaves of a path make legal. */
  function LegalOffsets(level0: seq<Leaf>, h: nat): set<nat> {
    set l | l in level0 && !l.duplicate :: Sibling(Shr(l.offset, h))
  }

  ghost predicate ValidLevel(path: Path, h: nat)
    requires h < |path|
  {
    && UniqueOffsets(path[h])
    && (if h == 0 then path[0] != [] else forall l :: l in path[h] ==> l.offset in LegalOffsets(path[0], h))
  }

  /** The bottom is not empty, no level repeats an offset, every higher leaf is a sibling on the
      way up from a bottom leaf, and all bottom leaves reach one root. */
  ghost predicate ValidPath(H: Hasher, path: Path) {
    && |path| > 0
    && (forall h :: 0 <= h < |path| ==> ValidLevel(path, h))
    && forall l :: l in path[0] ==>
         ComputeRoot(H, path, l.hash).Ok? && ComputeRoot(H, path, l.hash) == ComputeRoot(H, path, path[0][0].hash)
  }

  // ---------------------------------------------------------------------------
  // Agreement with a tree

  /** The leaf names a node of a tree level: a duplicate stands just past the end of an odd
      level, every other leaf carries its node's hash. */
  ghost predicate GoodLeaf(level: seq<Digest>, l: Leaf) {
    && l.offset < Padded(|level|)
    && (if l.duplicate then l.offset == |level| else l.hash.Some?)
    && (l.hash.Some? ==> l.hash.value == At(level, l.offset))
  }

  ghost predicate Agrees(path: Path, tree: seq<seq<Digest>>) {
    && |path| < |tree|
    && forall h, l :: 0 <= h < |path| && l in path[h] ==> GoodLeaf(tree[h], l)
  }

  /** A node can be had from the path: it is stored, or both its children can be had. */
  ghost predicate Derivable(path: Path, h: nat, o: nat)
    requires h < |path|
    decreases h
  {
    || StoredLeaf(path[h], o).Some?
    || (h > 0 && Derivable(path, h - 1, 2 * o) && Derivable(path, h - 1, 2 * o + 1))
  }

  lemma {:induction false} StoredIsDerivable(path: Path, h: nat, o: nat)
    requires h < |path| && StoredLeaf(path[h], o).Some?
    ensures Derivable(path, h, o)
  {
  }

  lemma {:induction false} DerivableFromPair(path: Path, h: nat, i: nat)
    requires h + 1 < |path|
    requires Derivable(path, h, i) && Derivable(path, h, Sibling(i))
    ensures Derivable(path, h + 1, i / 2)
  {
    SiblingPair(i);
  }

  /** Whatever one path stores the other stores too. */
  ghost predicate Includes(big: Path, small: Path) {
    && |small| <= |big|
    && forall h, o {:trigger StoredLeaf(big[h], o)} ::
         0 <= h < |small| && 0 <= o && StoredLeaf(small[h], o).Some? ==> StoredLeaf(big[h], o).Some?
  }

  lemma {:induction false} DerivableMonotone(big: Path, small: Path, h: nat, o: nat)
    requires Includes(big, small) && h < |small| && Derivable(small, h, o)
    ensures Derivable(big, h, o)
    decreases h
  {
    if StoredLeaf(small[h], o).Some? {
      assert StoredLeaf(big[h], o).Some?;
    } else {
      DerivableMonotone(big, small, h - 1, 2 * o);
      DerivableMonotone(big, small, h - 1, 2 * o + 1);
    }
  }

  lemma {:induction false} ClimbsMonotone(big: Path, small: Path, index: nat, k: nat)
    requires Includes(big, small) && k <= |small| && Climbs(small, index, k)
    ensures Climbs(big, index, k)
  {
    forall g | 0 <= g < k
      ensures Derivable(big, g, Sibling(Shr(index, g)))
    {
      DerivableMonotone(big, small, g, Sibling(Shr(index, g)));
    }
  }

  /** A leaf that is not stored, with no stored ancestor, cannot be had at any height. */
  lemma {:induction false} BareLineIsLost(path: Path, d: nat, h: nat)
    requires h < |path|
    requires forall x :: 0 <= x <= h ==> StoredLeaf(path[x], Shr(d, x)).None?
    ensures !Derivable(path, h, Shr(d, h))
  {
    hide StoredLeaf, Sibling;
    if h > 0 {
      BareLineIsLost(path, d, h - 1);
      SiblingPair(Shr(d, h - 1));
    }
  }

  /** No ancestor of (g, o) up to height h is stored. */
  ghost predicate BareAbove(path: Path, h: nat, g: nat, o: nat)
    requires g <= h < |path|
  {
    forall x :: g < x <= h ==> StoredLeaf(path[x], Shr(o, x - g)).None?
  }

  lemma {:induction false} BareAboveChild(path: Path, h: nat, g: nat, o: nat, c: nat)
    requires g < h < |path| && BareAbove(path, h, g + 1, o) && StoredLeaf(path[g + 1], o).None?
    requires c / 2 == o
    ensures Shr(c, h - g) == Shr(o, h - (g + 1))
    ensures BareAbove(path, h, g, c)
  {
    ShrShr(c, 1, h - (g + 1));
    forall x | g < x <= h
      ensures StoredLeaf(path[x], Shr(c, x - g)).None?
    {
      ShrShr(c, 1, x - (g + 1));
    }
  }

  /** The topmost stored nodes below (h, s) of one path are stored in the other. */
  ghost predicate TopmostStay(path: Path, other: Path, h: nat, s: nat)
    requires h < |path| <= |other|
  {
    forall g, o {:trigger StoredLeaf(other[g], o)} ::
      0 <= g <= h && 0 <= o && Shr(o, h - g) == s && BareAbove(path, h, g, o) && StoredLeaf(path[g], o).Some?
      ==> StoredLeaf(other[g], o).Some?
  }

  /** A node can still be had when only nodes below stored ones are lost. */
  lemma {:induction false} SubtreeStays(path: Path, other: Path, h: nat, s: nat, g: nat, o: nat)
    requires g <= h < |path| <= |other| && TopmostStay(path, other, h, s)
    requires Shr(o, h - g) == s && BareAbove(path, h, g, o)
    requires Derivable(path, g, o)
    ensures Derivable(other, g, o)
    decreases g
  {
    if StoredLeaf(path[g], o).None? {
      BareAboveChild(path, h, g - 1, o, 2 * o);
      SubtreeStays(path, other, h, s, g - 1, 2 * o);
      BareAboveChild(path, h, g - 1, o, 2 * o + 1);
      SubtreeStays(path, other, h, s, g - 1, 2 * o + 1);
    } else {
      assert StoredLeaf(other[g], o).Some?;
    }
  }

  /** Every sibling on the way up from an index can be had, below height k. */
  ghost predicate Climbs(path: Path, index: nat, k: nat)
    requires k <= |path|
  {
    forall g :: 0 <= g < k ==> Derivable(path, g, Sibling(Shr(index, g)))
  }

  lemma {:induction false} EvenLeafHasHash(level: seq<Digest>, l: Leaf)
    requires GoodLeaf(level, l) && l.offset % 2 == 0
    ensures !l.duplicate && l.offset < |level|
    ensures l.hash.Some? && |l.hash.value| == 32
  {
  }

  /** The lookup result is the tree's node at o, when there is one. */
  ghost predicate GoodLookup(level: seq<Digest>, o: nat, r: Result<Option<Leaf>>) {
    r.Ok? && (r.value.Some? ==> r.value.value.offset == o && GoodLeaf(level, r.value.value))
  }

  /** A parent computed from two tree nodes is the tree's. */
  lemma {:induction false} ParentAgrees(H: Hasher, level: seq<Digest>, o: nat, r0: Result<Option<Leaf>>,
                                        r1: Result<Option<Leaf>>)
    requires GoodLookup(level, 2 * o, r0) && GoodLookup(level, 2 * o + 1, r1)
    ensures GoodLookup(Up(H, level), o, Parent(H, o, r0, r1))
    ensures Parent(H, o, r0, r1).value.Some? <==> r0.value.Some? && r1.value.Some?
  {
    if r0.value.Some? {
      EvenLeafHasHash(level, r0.value.value);
      UpAt(H, level, o);
    }
  }

  /** What a lookup returns is the tree's node, and it returns one exactly when it can be had. */
  lemma {:induction false} FindAgrees(H: Hasher, path: Path, tree: seq<seq<Digest>>, h: nat, o: nat)
    requires h < |path| && IsTree(H, tree) && Agrees(path, tree)
    ensures GoodLookup(tree[h], o, FindOrCompute(H, path, h, o))
    ensures FindOrCompute(H, path, h, o).value.Some? <==> Derivable(path, h, o)
    decreases h
  {
    if StoredLeaf(path[h], o).None? && h > 0 {
      FindAgrees(H, path, tree, h - 1, 2 * o);
      FindAgrees(H, path, tree, h - 1, 2 * o + 1);
      assert tree[h - 1 + 1] == Up(H, tree[h - 1]);
      ParentAgrees(H, tree[h - 1], o, FindOrCompute(H, path, h - 1, 2 * o), FindOrCompute(H, path, h - 1, 2 * o + 1));
    }
  }

  /** One round of the loop moves the working hash from a node to its parent. */
  lemma {:induction false} AbsorbAgrees(H: Hasher, level: seq<Digest>, i: nat, sibling: Leaf)
    requires i < Padded(|level|)
    requires GoodLeaf(level, sibling) && sibling.offset == Sibling(i)
    ensures i / 2 < |Up(H, level)|
    ensures Absorb(H, sibling, Sibling(i), At(level, i)) == Ok(Up(H, level)[i / 2])
  {
    PairInRange(i, |level|);
    UpAt(H, level, i / 2);
    SiblingPair(i);
  }

  lemma {:induction false} ClimbsStep(path: Path, index: nat, k: nat)
    requires k < |path|
    ensures Climbs(path, index, k + 1) <==> Climbs(path, index, k) && Derivable(path, k, Sibling(Shr(index, k)))
  {
  }

  /** Climbing from a tree node stays on the tree, and succeeds exactly when every
      sibling on the way can be had. */
  lemma {:induction false} ClimbAgrees(H: Hasher, path: Path, tree: seq<seq<Digest>>, index: nat, k: nat)
    requires k <= |path| && IsTree(H, tree) && Agrees(path, tree)
    requires index < Padded(|tree[0]|)
    ensures Shr(index, k) < Padded(|tree[k]|)
    ensures var r := Climb(H, path, index, At(tree[0], index), k);
            r == if Climbs(path, index, k) then Ok(At(tree[k], Shr(index, k))) else Err(ValueError)
    decreases k
  {
    AncestorInRange(H, tree, index, k);
    if k > 0 {
      var i := Shr(index, k - 1);
      ClimbAgrees(H, path, tree, index, k - 1);
      ClimbsStep(path, index, k - 1);
      FindAgrees(H, path, tree, k - 1, Sibling(i));
      assert tree[k - 1 + 1] == Up(H, tree[k - 1]);
      var found := FindOrCompute(H, path, k - 1, Sibling(i)).value;
      if found.Some? {
        AbsorbAgrees(H, tree[k - 1], i, found.value);
      }
    }
  }

  /** Whatever txid is asked for, a path that agrees with a tree of its own height returns
      that tree's root or fails, and it fails only for an unknown txid or a missing sibling. */
  lemma {:induction false} ComputeRootAgrees(H: Hasher, path: Path, ts: seq<Digest>, txid: Option<bytes>)
    requires |ts| > 0 && |path| > 0 && |Levels(H, ts)| == |path| + 1 && Agrees(path, Levels(H, ts))
    ensures var r := ComputeRoot(H, path, txid);
            var start := if txid.Some? then txid else FirstHash(path[0]);
            if start.Some? && IndexOf(path[0], start.value).Some?
               && Climbs(path, IndexOf(path[0], start.value).value, |path|)
            then r == Ok(MerkleRoot(H, ts))
            else r == Err(if start.None? then StopIteration else ValueError)
  {
    var start := if txid.Some? then txid else FirstHash(path[0]);
    if start.Some? {
      var index := IndexOf(path[0], start.value);
      if index.Some? {
        var l :| l in path[0] && l.hash == start && l.offset == index.value;
        assert GoodLeaf(Levels(H, ts)[0], l);
        LevelsFormTree(H, ts);
        ClimbAgrees(H, path, Levels(H, ts), index.value, |path|);
      }
    }
  }
}
