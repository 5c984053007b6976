/** What MerklePath.trim retains: exactly which txids can still be proved, and exactly when every node
    that it keeps is needed. */
module MerkleRetained {
  import opened Wrappers
  import opened Bytes
  import opened MerkleTree
  import opened MerkleLookup
  import opened MerkleTrim

  // ---------------------------------------------------------------------------
  // Lookups after trim, in terms of the path before it

  predicate IsStored(path: Path, h: nat, o: nat)
    requires h < |path|
  {
    StoredLeaf(path[h], o).Some?
  }

  /** A stored node that trim keeps. */
  ghost predicate StaysStored(path: Path, h: nat, o: nat)
    requires h < |path|
  {
    IsStored(path, h, o) && Kept(path[0], h, o)
  }

  /** A node that can be had from the nodes that trim keeps. */
  ghost predicate StaysDerivable(path: Path, h: nat, o: nat)
    requires h < |path|
    decreases h
  {
    StaysStored(path, h, o) || (h > 0 && StaysDerivable(path, h - 1, 2 * o) && StaysDerivable(path, h - 1, 2 * o + 1))
  }

  lemma {:induction false} StoredAfterTrim(path: Path, trimmed: Path, h: nat, o: nat)
    requires IsTrimmed(path, trimmed) && h < |path|
    ensures IsStored(trimmed, h, o) <==> StaysStored(path, h, o)
  {
    hide IsTrimmed, Kept, StoredLeaf;
    assert |trimmed| == |path| by { TrimmedHeight(path, trimmed); }
    if IsStored(trimmed, h, o) {
      StoredWasStored(path, trimmed, h, o);
    }
    if StaysStored(path, h, o) {
      KeptStays(path, trimmed, h, o);
    }
  }

  lemma {:induction false} TrimmedHeight(path: Path, trimmed: Path)
    requires IsTrimmed(path, trimmed)
    ensures |trimmed| == |path|
  {
  }

  lemma {:induction false} DerivableAfterTrim(path: Path, trimmed: Path, h: nat, o: nat)
    requires IsTrimmed(path, trimmed) && h < |path|
    ensures |trimmed| == |path| && (Derivable(trimmed, h, o) <==> StaysDerivable(path, h, o))
    decreases h
  {
    hide IsTrimmed, StaysStored;
    TrimmedHeight(path, trimmed);
    StoredAfterTrim(path, trimmed, h, o);
    if h > 0 {
      DerivableAfterTrim(path, trimmed, h - 1, 2 * o);
      DerivableAfterTrim(path, trimmed, h - 1, 2 * o + 1);
    }
  }

  /** Every sibling on the way up from an index can be had after trim. */
  ghost predicate StaysClimbable(path: Path, index: nat) {
    forall h :: 0 <= h < |path| ==> StaysDerivable(path, h, Sibling(Shr(index, h)))
  }

  lemma {:induction false} ClimbsAfterTrim(path: Path, trimmed: Path, index: nat)
    requires IsTrimmed(path, trimmed)
    ensures |trimmed| == |path| && (Climbs(trimmed, index, |path|) <==> StaysClimbable(path, index))
  {
    hide IsTrimmed, Derivable, StaysDerivable;
    TrimmedHeight(path, trimmed);
    forall h | 0 <= h < |path|
      ensures Derivable(trimmed, h, Sibling(Shr(index, h))) <==> StaysDerivable(path, h, Sibling(Shr(index, h)))
    {
      DerivableAfterTrim(path, trimmed, h, Sibling(Shr(index, h)));
    }
  }

  // ---------------------------------------------------------------------------
  // Which txids can be proved after trim

  /** The lowest offset at which trim keeps a bottom leaf with this hash. */
  ghost predicate IsFirstKept(level0: seq<Leaf>, txid: bytes, o: nat) {
    && (exists l :: l in level0 && l.hash == Some(txid) && l.offset == o && Kept(level0, 0, o))
    && (forall l :: l in level0 && l.hash == Some(txid) && Kept(level0, 0, l.offset) ==> o <= l.offset)
  }

  /** The first kept leaf with this hash can climb over kept nodes. */
  ghost predicate StaysProved(path: Path, txid: bytes)
    requires |path| > 0
  {
    exists o: nat :: IsFirstKept(path[0], txid, o) && StaysClimbable(path, o)
  }

  /** On an ascending level the leaf found first has the lowest offset. */
  lemma {:induction false} IndexIsLowest(level: seq<Leaf>, txid: bytes)
    requires Ascending(level)
    ensures IndexOf(level, txid).Some? ==>
              forall l :: l in level && l.hash == Some(txid) ==> IndexOf(level, txid).value <= l.offset
  {
    if level != [] {
      assert level == [level[0]] + level[1..];
      if level[0].hash == Some(txid) {
        forall l | l in level ensures level[0].offset <= l.offset {
          var i :| 0 <= i < |level| && level[i] == l;
        }
      } else {
        IndexIsLowest(level[1..], txid);
      }
    }
  }

  lemma {:induction false} IndexAfterTrim(path: Path, trimmed: Path, txid: bytes)
    requires |path| > 0 && IsTrimmed(path, trimmed)
    ensures |trimmed| == |path|
    ensures var index := IndexOf(trimmed[0], txid);
            && (index.Some? ==> IsFirstKept(path[0], txid, index.value))
            && (forall o: nat :: IsFirstKept(path[0], txid, o) ==> index == Some(o))
  {
    hide Kept, IndexOf;
    var index := IndexOf(trimmed[0], txid);
    BottomAfterTrim(path, trimmed);
    IndexIsLowest(trimmed[0], txid);
    IndexFinds(trimmed[0], txid);
    forall o: nat | IsFirstKept(path[0], txid, o) ensures index == Some(o) {
      var l :| l in path[0] && l.hash == Some(txid) && l.offset == o && Kept(path[0], 0, o);
      assert l in trimmed[0];
    }
  }

  lemma {:induction false} IndexFinds(level: seq<Leaf>, txid: bytes)
    ensures IndexOf(level, txid).Some? <==> exists l :: l in level && l.hash == Some(txid)
    ensures IndexOf(level, txid).Some? ==>
            exists l :: l in level && l.hash == Some(txid) && l.offset == IndexOf(level, txid).value
  {
  }

  lemma {:induction false} BottomAfterTrim(path: Path, trimmed: Path)
    requires |path| > 0 && IsTrimmed(path, trimmed)
    ensures |trimmed| == |path| && Ascending(trimmed[0])
    ensures forall l :: l in trimmed[0] <==> l in path[0] && Kept(path[0], 0, l.offset)
  {
    assert TrimmedLevel(path, 0, trimmed[0]);
  }

  /** For every txid at all: after trim, a path that agrees with a block computes the block's root
      exactly when the first kept leaf with that hash can climb over kept nodes, and fails otherwise. */
  lemma {:induction false} RootAfterTrimIff(H: Hasher, path: Path, trimmed: Path, ts: seq<Digest>, txid: bytes)
    requires |ts| > 0 && |path| > 0 && |Levels(H, ts)| == |path| + 1 && Agrees(path, Levels(H, ts))
    requires IsTrimmed(path, trimmed)
    ensures var r := ComputeRoot(H, trimmed, Some(txid));
            if StaysProved(path, txid) then r == Ok(MerkleRoot(H, ts)) else r.Err?
  {
    hide Levels, MerkleRoot, ComputeRoot, IsTrimmed, Agrees, Climbs, StaysClimbable, IsFirstKept;
    TrimmedHeight(path, trimmed);
    TrimmedAgrees(path, trimmed, Levels(H, ts));
    ComputeRootAgrees(H, trimmed, ts, Some(txid));
    IndexAfterTrim(path, trimmed, txid);
    var index := IndexOf(trimmed[0], txid);
    if index.Some? {
      ClimbsAfterTrim(path, trimmed, index.value);
    }
  }

  /** All marked txids keep the block's root exactly when each of them stays proved. When no two
      bottom leaves share a hash and all marked ones were proved, that means: when the path is covered. */
  lemma {:induction false} TrimKeepsRootsIff(H: Hasher, path: Path, trimmed: Path, ts: seq<Digest>)
    requires |ts| > 0 && |path| > 0 && |Levels(H, ts)| == |path| + 1 && Agrees(path, Levels(H, ts))
    requires IsTrimmed(path, trimmed)
    ensures (forall l :: l in path[0] && IsMarked(l) && l.hash.Some? ==>
               ComputeRoot(H, trimmed, l.hash) == Ok(MerkleRoot(H, ts)))
            <==> forall l :: l in path[0] && IsMarked(l) && l.hash.Some? ==> StaysProved(path, l.hash.value)
    ensures && UniqueOffsets(path[0]) && DistinctHashes(path[0])
            && (forall l :: l in path[0] && IsMarked(l) ==> l.hash.Some?)
            && RootsComputed(H, path, path[0], MerkleRoot(H, ts)) ==>
              (Covered(path) <==> RootsComputed(H, trimmed, path[0], MerkleRoot(H, ts)))
  {
    hide Levels, MerkleRoot, ComputeRoot, IsTrimmed, Agrees, Covered, StaysProved;
    forall l | l in path[0] && IsMarked(l) && l.hash.Some?
      ensures ComputeRoot(H, trimmed, l.hash) == Ok(MerkleRoot(H, ts)) <==> StaysProved(path, l.hash.value)
    {
      RootAfterTrimIff(H, path, trimmed, ts, l.hash.value);
    }
    if && UniqueOffsets(path[0]) && DistinctHashes(path[0])
       && (forall l :: l in path[0] && IsMarked(l) ==> l.hash.Some?)
       && RootsComputed(H, path, path[0], MerkleRoot(H, ts))
    {
      DistinctRootsIff(H, path, trimmed, ts);
    }
  }

  // ---------------------------------------------------------------------------
  // Needed nodes

  /** The level without its leaves at offset o. */
  function RemoveAt(level: seq<Leaf>, o: nat): seq<Leaf> {
    if level == [] then []
    else if level[0].offset == o then RemoveAt(level[1..], o)
    else [level[0]] + RemoveAt(level[1..], o)
  }

  function Without(path: Path, h: nat, o: nat): Path
    requires h < |path|
  {
    path[h := RemoveAt(path[h], o)]
  }

  /** Some marked leaf climbs with the node and does not climb without it. */
  ghost predicate IsNeeded(path: Path, h: nat, o: nat)
    requires h < |path|
  {
    exists l :: l in path[0] && IsMarked(l) && Climbs(path, l.offset, |path|) &&
      !Climbs(Without(path, h, o), l.offset, |path|)
  }

  ghost predicate ComesFromBelow(path: Path, h: nat, o: nat)
    requires h < |path|
  {
    h > 0 && Derivable(path, h - 1, 2 * o) && Derivable(path, h - 1, 2 * o + 1)
  }

  /** The node cannot be computed from below, and from it no stored node shields a sibling of an
      ancestor of a marked leaf. */
  ghost predicate Supports(path: Path, h: nat, o: nat)
    requires h < |path|
  {
    && !ComesFromBelow(path, h, o)
    && exists m :: h <= m < |path| && OverMarked(path[0], m, Sibling(Shr(o, m - h))) && BareAbove(path, m, h, o)
  }

  lemma {:induction false} StoredWithout(level: seq<Leaf>, o: nat, x: nat)
    ensures StoredLeaf(RemoveAt(level, o), x).Some? <==> x != o && StoredLeaf(level, x).Some?
  {
    if level != [] {
      StoredWithout(level[1..], o, x);
      if level[0].offset != o {
        assert ([level[0]] + RemoveAt(level[1..], o))[1..] == RemoveAt(level[1..], o);
      }
    }
  }

  lemma {:induction false} IsStoredWithout(path: Path, h: nat, o: nat, g: nat, x: nat)
    requires h < |path| && g < |path|
    ensures IsStored(Without(path, h, o), g, x) <==> IsStored(path, g, x) && !(g == h && x == o)
  {
    StoredWithout(path[h], o, x);
  }

  lemma {:induction false} DerivableStep(path: Path, h: nat, o: nat)
    requires h < |path|
    ensures Derivable(path, h, o) <==> IsStored(path, h, o) || ComesFromBelow(path, h, o)
  {
  }

  lemma {:induction false} SameBelow(path: Path, h: nat, o: nat, g: nat, x: nat)
    requires g < h < |path|
    ensures Derivable(Without(path, h, o), g, x) <==> Derivable(path, g, x)
    decreases g
  {
    hide Derivable, Without, IsStored;
    assert |Without(path, h, o)| == |path| by { SameHeight(path, h, o); }
    IsStoredWithout(path, h, o, g, x);
    DerivableStep(path, g, x);
    DerivableStep(Without(path, h, o), g, x);
    if g > 0 {
      SameBelow(path, h, o, g - 1, 2 * x);
      SameBelow(path, h, o, g - 1, 2 * x + 1);
    }
  }

  lemma {:induction false} SameHeight(path: Path, h: nat, o: nat)
    requires h < |path|
    ensures |Without(path, h, o)| == |path|
  {
  }

  lemma {:induction false} ItselfWithout(path: Path, h: nat, o: nat)
    requires h < |path|
    ensures |Without(path, h, o)| == |path| && (Derivable(Without(path, h, o), h, o) <==> ComesFromBelow(path, h, o))
  {
    hide Derivable, Without, IsStored;
    SameHeight(path, h, o);
    IsStoredWithout(path, h, o, h, o);
    DerivableStep(Without(path, h, o), h, o);
    if h > 0 {
      SameBelow(path, h, o, h - 1, 2 * o);
      SameBelow(path, h, o, h - 1, 2 * o + 1);
    }
  }

  /** Without the node, nothing above it that no stored node shields can be had. */
  lemma {:induction false} LostWithout(path: Path, h: nat, o: nat, m: nat)
    requires h <= m < |path| && !ComesFromBelow(path, h, o) && BareAbove(path, m, h, o)
    ensures |Without(path, h, o)| == |path| && !Derivable(Without(path, h, o), m, Shr(o, m - h))
    decreases m
  {
    hide Derivable, Without, IsStored, ComesFromBelow;
    SameHeight(path, h, o);
    ShrSteps(o, m - h);
    if m == h {
      ItselfWithout(path, h, o);
    } else {
      var s := Shr(o, m - h);
      BareBelow(path, h, o, m);
      LostWithout(path, h, o, m - 1);
      IsStoredWithout(path, h, o, m, s);
      ChildIsLost(Without(path, h, o), m, s, Shr(o, m - 1 - h));
    }
  }

  lemma {:induction false} BareBelow(path: Path, h: nat, o: nat, m: nat)
    requires h < m < |path| && BareAbove(path, m, h, o)
    ensures BareAbove(path, m - 1, h, o) && !IsStored(path, m, Shr(o, m - h))
  {
  }

  lemma {:induction false} ChildIsLost(path: Path, m: nat, s: nat, c: nat)
    requires 0 < m < |path| && s == c / 2 && !IsStored(path, m, s) && !Derivable(path, m - 1, c)
    ensures !Derivable(path, m, s)
  {
    hide IsStored;
    DerivableStep(path, m, s);
    hide Derivable;
    assert c == 2 * s || c == 2 * s + 1;
  }

  /** What is lost without the node was had through it. */
  lemma {:induction false} LostIsThrough(path: Path, h: nat, o: nat, m: nat, s: nat)
    requires h < |path| && m < |path|
    requires Derivable(path, m, s) && |Without(path, h, o)| == |path| && !Derivable(Without(path, h, o), m, s)
    ensures h <= m && Shr(o, m - h) == s && BareAbove(path, m, h, o) && !ComesFromBelow(path, h, o)
    decreases m
  {
    hide Derivable, Without, IsStored;
    DerivableStep(path, m, s);
    DerivableStep(Without(path, h, o), m, s);
    IsStoredWithout(path, h, o, m, s);
    if IsStored(path, m, s) {
      ItselfWithout(path, h, o);
      ShrSteps(o, 0);
    } else {
      var c := if Derivable(Without(path, h, o), m - 1, 2 * s) then 2 * s + 1 else 2 * s;
      LostIsThrough(path, h, o, m - 1, c);
      ShrSteps(o, m - h);
      BareGrows(path, h, o, m, s);
    }
  }

  lemma {:induction false} BareGrows(path: Path, h: nat, o: nat, m: nat, s: nat)
    requires h < m < |path| && BareAbove(path, m - 1, h, o) && s == Shr(o, m - h) && !IsStored(path, m, s)
    ensures BareAbove(path, m, h, o)
  {
  }

  /** A stored node is needed exactly when it supports the proof of a marked leaf. */
  lemma {:induction false} NeededIff(path: Path, h: nat, o: nat)
    requires h < |path| && MarkedClimb(path)
    ensures IsNeeded(path, h, o) <==> Supports(path, h, o)
  {
    hide Derivable, Without, IsStored, ComesFromBelow, BareAbove;
    SameHeight(path, h, o);
    if IsNeeded(path, h, o) {
      var l :| l in path[0] && IsMarked(l) && Climbs(path, l.offset, |path|) &&
        !Climbs(Without(path, h, o), l.offset, |path|);
      var m :| 0 <= m < |path| && !Derivable(Without(path, h, o), m, Sibling(Shr(l.offset, m)));
      LostIsThrough(path, h, o, m, Sibling(Shr(l.offset, m)));
      SiblingPair(Shr(l.offset, m));
      assert OverMarked(path[0], m, Sibling(Shr(o, m - h)));
    }
    if Supports(path, h, o) {
      var m :| h <= m < |path| && OverMarked(path[0], m, Sibling(Shr(o, m - h))) && BareAbove(path, m, h, o);
      var l :| l in path[0] && IsMarked(l) && Shr(l.offset, m) == Sibling(Shr(o, m - h));
      LostWithout(path, h, o, m);
      SiblingPair(Shr(o, m - h));
      assert !Derivable(Without(path, h, o), m, Sibling(Shr(l.offset, m)));
    }
  }

  // ---------------------------------------------------------------------------
  // When trim keeps nothing that is not needed

  /** Supports, over the nodes that trim keeps. */
  ghost predicate StillSupports(path: Path, h: nat, o: nat)
    requires h < |path|
  {
    && !(h > 0 && StaysDerivable(path, h - 1, 2 * o) && StaysDerivable(path, h - 1, 2 * o + 1))
    && exists m :: h <= m < |path| && OverMarked(path[0], m, Sibling(Shr(o, m - h))) && StaysBareAbove(path, m, h, o)
  }

  /** No ancestor of (g, o) up to height h stays stored. */
  ghost predicate StaysBareAbove(path: Path, h: nat, g: nat, o: nat)
    requires g <= h < |path|
  {
    forall x :: g < x <= h ==> !AncestorStaysStored(path, g, o, x)
  }

  /** The ancestor of (g, o) at height x stays stored. */
  ghost predicate AncestorStaysStored(path: Path, g: nat, o: nat, x: nat)
    requires g <= x < |path|
  {
    StaysStored(path, x, Shr(o, x - g))
  }

  lemma {:induction false} BareAboveAfterTrim(path: Path, trimmed: Path, h: nat, g: nat, o: nat)
    requires IsTrimmed(path, trimmed) && g <= h < |path|
    ensures |trimmed| == |path| && (BareAbove(trimmed, h, g, o) <==> StaysBareAbove(path, h, g, o))
  {
    hide IsTrimmed, StaysStored, Kept;
    TrimmedHeight(path, trimmed);
    forall x | g < x <= h
      ensures StoredLeaf(trimmed[x], Shr(o, x - g)).None? <==> !AncestorStaysStored(path, g, o, x)
    {
      StoredAfterTrim(path, trimmed, x, Shr(o, x - g));
    }
  }

  /** Trim keeps the marked leaves. */
  lemma {:induction false} OverMarkedAfterTrim(path: Path, trimmed: Path, h: nat, o: nat)
    requires |path| > 0 && IsTrimmed(path, trimmed) && UniqueOffsets(path[0])
    ensures |trimmed| == |path| && (OverMarked(trimmed[0], h, o) <==> OverMarked(path[0], h, o))
  {
    hide Kept;
    BottomAfterTrim(path, trimmed);
    if OverMarked(path[0], h, o) {
      var l :| l in path[0] && IsMarked(l) && Shr(l.offset, h) == o;
      MarkedIsKept(path[0], l);
      assert l in trimmed[0];
    }
  }

  lemma {:induction false} SupportsAfterTrim(path: Path, trimmed: Path, h: nat, o: nat)
    requires h < |path| && IsTrimmed(path, trimmed) && UniqueOffsets(path[0])
    ensures |trimmed| == |path| && (Supports(trimmed, h, o) <==> StillSupports(path, h, o))
  {
    hide IsTrimmed, Derivable, StaysDerivable, OverMarked, BareAbove, StaysBareAbove;
    TrimmedHeight(path, trimmed);
    if h > 0 {
      DerivableAfterTrim(path, trimmed, h - 1, 2 * o);
      DerivableAfterTrim(path, trimmed, h - 1, 2 * o + 1);
    }
    forall m | h <= m < |path|
      ensures OverMarked(trimmed[0], m, Sibling(Shr(o, m - h))) <==> OverMarked(path[0], m, Sibling(Shr(o, m - h)))
      ensures BareAbove(trimmed, m, h, o) <==> StaysBareAbove(path, m, h, o)
    {
      OverMarkedAfterTrim(path, trimmed, m, Sibling(Shr(o, m - h)));
      BareAboveAfterTrim(path, trimmed, m, h, o);
    }
  }

  lemma {:induction false} MarkedClimbAfterTrim(path: Path, trimmed: Path)
    requires |path| > 0 && IsTrimmed(path, trimmed) && UniqueOffsets(path[0])
    requires Covered(path) && MarkedClimb(path)
    ensures |trimmed| == |path| && MarkedClimb(trimmed)
  {
    hide Kept, Covered, Climbs;
    BottomAfterTrim(path, trimmed);
    TrimKeepsMarkedIff(path, trimmed);
  }

  /** A node is needed after trim exactly when it still supports the proof of a marked leaf. */
  lemma {:induction false} NeededAfterTrimIff(path: Path, trimmed: Path, h: nat, o: nat)
    requires h < |path| && IsTrimmed(path, trimmed) && UniqueOffsets(path[0])
    requires Covered(path) && MarkedClimb(path)
    ensures |trimmed| == |path| && (IsNeeded(trimmed, h, o) <==> StillSupports(path, h, o))
  {
    hide *;
    MarkedClimbAfterTrim(path, trimmed);
    NeededIff(trimmed, h, o);
    SupportsAfterTrim(path, trimmed, h, o);
  }

  /** When trim does no harm, what it leaves is minimal, every node but the marked leaves themselves
      being needed for one of them, exactly when each such node still supports one. */
  lemma {:induction false} TrimIsMinimalIff(path: Path, trimmed: Path)
    requires |path| > 0 && IsTrimmed(path, trimmed) && UniqueOffsets(path[0])
    requires Covered(path) && MarkedClimb(path)
    ensures |trimmed| == |path|
    ensures (forall h, l :: 0 <= h < |path| && l in trimmed[h] && (h > 0 || !IsMarked(l)) ==>
               IsNeeded(trimmed, h, l.offset)) <==>
            (forall h, l :: 0 <= h < |path| && l in path[h] && Kept(path[0], h, l.offset) && (h > 0 || !IsMarked(l))
                            ==> StillSupports(path, h, l.offset))
  {
    hide Kept, Covered, IsNeeded, Supports, StillSupports, MarkedClimb;
    TrimmedHeight(path, trimmed);
    assert |trimmed| == |path|;
    forall h, l | 0 <= h < |path|
      ensures l in trimmed[h] <==> l in path[h] && Kept(path[0], h, l.offset)
    {
      assert TrimmedLevel(path, h, trimmed[h]);
    }
    forall h, o: nat | 0 <= h < |path|
      ensures IsNeeded(trimmed, h, o) <==> StillSupports(path, h, o)
    {
      NeededAfterTrimIff(path, trimmed, h, o);
    }
  }

  // ---------------------------------------------------------------------------
  // A path with nodes that trim could have removed

  /** A proof for transaction 0 of a block of eight, with leaves 6 and 7 and node (1, 2) besides,
      although their ancestor (2, 1) is stored. */
  function SparePath(H: Hasher, ts: seq<Digest>): Path
    requires |ts| == 8
  {
    [[Leaf(0, Some(ts[0]), Some(true), false), Leaf(1, Some(ts[1]), None, false),
      Leaf(6, Some(ts[6]), None, false), Leaf(7, Some(ts[7]), None, false)],
     [Leaf(1, Some(H(ts[2], ts[3])), None, false), Leaf(2, Some(H(ts[4], ts[5])), None, false)],
     [Leaf(1, Some(H(H(ts[4], ts[5]), H(ts[6], ts[7]))), None, false)]]
  }

  /** Marked below: only transaction 0. */
  lemma {:induction false} SpareMarks(H: Hasher, ts: seq<Digest>, m: nat, o: nat)
    requires |ts| == 8
    ensures OverMarked(SparePath(H, ts)[0], m, o) <==> o == Shr(0, m)
  {
    var level := SparePath(H, ts)[0];
    if o == Shr(0, m) {
      assert level[0] in level && IsMarked(level[0]);
    }
  }

  /** The lower bits of the offsets in the example. */
  lemma {:induction false} SmallShifts()
    ensures Shr(0, 0) == 0 && Shr(0, 1) == 0 && Shr(0, 2) == 0
    ensures Shr(1, 0) == 1 && Shr(1, 1) == 0 && Shr(1, 2) == 0
    ensures Shr(6, 0) == 6 && Shr(6, 1) == 3 && Shr(6, 2) == 1
    ensures Shr(7, 0) == 7 && Shr(7, 1) == 3 && Shr(7, 2) == 1
    ensures Shr(2, 0) == 2 && Shr(2, 1) == 1
  {
  }

  lemma {:induction false} SpareStores(H: Hasher, ts: seq<Digest>)
    requires |ts| == 8
    ensures var p: Path := SparePath(H, ts);
            && IsStored(p, 0, 0) && IsStored(p, 0, 1) && IsStored(p, 0, 6) && IsStored(p, 0, 7)
            && IsStored(p, 1, 1) && IsStored(p, 1, 2) && IsStored(p, 2, 1)
  {
    var p: Path := SparePath(H, ts);
    StoredLeafFound(p[0], p[0][0]);
    StoredLeafFound(p[0], p[0][1]);
    StoredLeafFound(p[0], p[0][2]);
    StoredLeafFound(p[0], p[0][3]);
    StoredLeafFound(p[1], p[1][0]);
    StoredLeafFound(p[1], p[1][1]);
    StoredLeafFound(p[2], p[2][0]);
  }

  /** All four bottom leaves climb. */
  lemma {:induction false} SpareClimbs(H: Hasher, ts: seq<Digest>)
    requires |ts| == 8
    ensures var p: Path := SparePath(H, ts);
            Climbs(p, 0, 3) && Climbs(p, 1, 3) && Climbs(p, 6, 3) && Climbs(p, 7, 3)
  {
    hide IsStored, Shr, SparePath;
    var p: Path := SparePath(H, ts);
    assert |p| == 3 by { SpareHeight(H, ts); }
    SpareStores(H, ts);
    SmallShifts();
    StoredAreDerivable(p, 0, 0);
    StoredAreDerivable(p, 0, 1);
    StoredAreDerivable(p, 0, 6);
    StoredAreDerivable(p, 0, 7);
    StoredAreDerivable(p, 1, 1);
    StoredAreDerivable(p, 1, 2);
    StoredAreDerivable(p, 2, 1);
    DerivableFromPair(p, 0, 0);
    DerivableFromPair(p, 1, 0);
    hide Derivable;
    ClimbsThree(p, 0);
    ClimbsThree(p, 1);
    ClimbsThree(p, 6);
    ClimbsThree(p, 7);
  }

  lemma {:induction false} SpareHeight(H: Hasher, ts: seq<Digest>)
    requires |ts| == 8
    ensures |SparePath(H, ts)| == 3
  {
  }

  lemma {:induction false} StoredAreDerivable(path: Path, h: nat, o: nat)
    requires h < |path| && IsStored(path, h, o)
    ensures Derivable(path, h, o)
  {
    StoredIsDerivable(path, h, o);
  }

  lemma {:induction false} ClimbsThree(path: Path, index: nat)
    requires |path| == 3
    requires Derivable(path, 0, Sibling(Shr(index, 0))) && Derivable(path, 1, Sibling(Shr(index, 1)))
    requires Derivable(path, 2, Sibling(Shr(index, 2)))
    ensures Climbs(path, index, 3)
  {
    hide Derivable, Shr;
  }

  lemma {:induction false} TreeOfEight(H: Hasher, ts: seq<Digest>)
    requires |ts| == 8
    ensures var tree := Levels(H, ts);
            && |tree| == 4 && tree[0] == ts
            && tree[1] == [H(ts[0], ts[1]), H(ts[2], ts[3]), H(ts[4], ts[5]), H(ts[6], ts[7])]
            && |tree[2]| == 2 && tree[2][1] == H(H(ts[4], ts[5]), H(ts[6], ts[7]))
  {
    LevelsOfEight(H, ts);
    LevelsFormTree(H, ts);
    var tree := Levels(H, ts);
    assert tree[1 + 1] == Up(H, tree[1]);
    UpAt(H, tree[1], 1);
  }

  lemma {:induction false} SpareAgrees(H: Hasher, ts: seq<Digest>)
    requires |ts| == 8
    ensures |Levels(H, ts)| == 4 && Agrees(SparePath(H, ts), Levels(H, ts))
  {
    TreeOfEight(H, ts);
    hide Levels;
  }

  lemma {:induction false} SpareRoot(H: Hasher, ts: seq<Digest>, l: Leaf)
    requires |ts| == 8 && l in SparePath(H, ts)[0]
    ensures ComputeRoot(H, SparePath(H, ts), l.hash) == Ok(MerkleRoot(H, ts))
  {
    hide Levels, Agrees, Climbs, ComputeRoot, MerkleRoot;
    var p: Path := SparePath(H, ts);
    SpareAgrees(H, ts);
    SpareClimbs(H, ts);
    ComputeRootAgrees(H, p, ts, l.hash);
    IndexFinds(p[0], l.hash.value);
  }

  lemma {:induction false} SpareLegal(H: Hasher, ts: seq<Digest>)
    requires |ts| == 8
    ensures var p: Path := SparePath(H, ts);
            1 in LegalOffsets(p[0], 1) && 2 in LegalOffsets(p[0], 1) && 1 in LegalOffsets(p[0], 2)
  {
    hide Shr;
    var p: Path := SparePath(H, ts);
    SmallShifts();
    assert p[0][0] in p[0] && p[0][2] in p[0];
    assert Sibling(Shr(p[0][0].offset, 1)) == 1 && Sibling(Shr(p[0][2].offset, 1)) == 2;
    assert Sibling(Shr(p[0][0].offset, 2)) == 1;
  }

  lemma {:induction false} SpareLevels(H: Hasher, ts: seq<Digest>, h: nat)
    requires |ts| == 8 && h < 3
    ensures |SparePath(H, ts)| == 3 && ValidLevel(SparePath(H, ts), h)
  {
    hide LegalOffsets;
    SpareLegal(H, ts);
  }

  /** The constructor accepts it. */
  lemma {:induction false} SpareIsValid(H: Hasher, ts: seq<Digest>)
    requires |ts| == 8
    ensures ValidPath(H, SparePath(H, ts))
  {
    hide ComputeRoot, ValidLevel, SparePath, MerkleRoot;
    SpareHeight(H, ts);
    forall h | 0 <= h < 3 ensures ValidLevel(SparePath(H, ts), h) {
      SpareLevels(H, ts, h);
    }
    SpareBottom(H, ts);
    forall l | l in SparePath(H, ts)[0]
      ensures ComputeRoot(H, SparePath(H, ts), l.hash) == Ok(MerkleRoot(H, ts))
    {
      SpareRoot(H, ts, l);
    }
  }

  lemma {:induction false} SpareBottom(H: Hasher, ts: seq<Digest>)
    requires |ts| == 8
    ensures |SparePath(H, ts)| == 3 && |SparePath(H, ts)[0]| == 4
  {
  }

  lemma {:induction false} SpareDropsNothing(H: Hasher, ts: seq<Digest>, o: nat)
    requires |ts| == 8
    ensures !Dropped(SparePath(H, ts)[0], o)
  {
  }

  lemma {:induction false} SpareIsCovered(H: Hasher, ts: seq<Digest>)
    requires |ts| == 8
    ensures Covered(SparePath(H, ts))
  {
    hide SparePath, Dropped, OverMarked, StoredBetween;
    SpareHeight(H, ts);
    forall d ensures !Dropped(SparePath(H, ts)[0], d) {
      SpareDropsNothing(H, ts, d);
    }
  }

  lemma {:induction false} SpareMarkedClimb(H: Hasher, ts: seq<Digest>)
    requires |ts| == 8
    ensures MarkedClimb(SparePath(H, ts)) && UniqueOffsets(SparePath(H, ts)[0])
  {
    hide Climbs;
    SpareClimbs(H, ts);
  }

  lemma {:induction false} SpareStays(H: Hasher, ts: seq<Digest>)
    requires |ts| == 8
    ensures var p: Path := SparePath(H, ts);
            && StaysStored(p, 0, 6) && StaysStored(p, 0, 7) && StaysStored(p, 1, 2) && StaysStored(p, 2, 1)
  {
    hide IsStored, Dropped, OverMarked, SparePath, Shr;
    SpareHeight(H, ts);
    SmallShifts();
    SpareStores(H, ts);
    SpareDropsNothing(H, ts, 6);
    SpareDropsNothing(H, ts, 7);
    SpareMarks(H, ts, 1, 2);
    SpareMarks(H, ts, 2, 1);
  }

  /** The stored node (2, 1) shields all three. */
  lemma {:induction false} SpareShielded(H: Hasher, ts: seq<Digest>, h: nat, o: nat, m: nat)
    requires |ts| == 8 && ((h == 0 && (o == 6 || o == 7)) || (h == 1 && o == 2)) && h <= m < 3
    ensures |SparePath(H, ts)| == 3
    ensures !(OverMarked(SparePath(H, ts)[0], m, Sibling(Shr(o, m - h))) && StaysBareAbove(SparePath(H, ts), m, h, o))
  {
    hide Shr, StaysStored, OverMarked, SparePath;
    SpareHeight(H, ts);
    SmallShifts();
    SpareStays(H, ts);
    SpareMarks(H, ts, m, Sibling(Shr(o, m - h)));
    if m == 2 {
      assert AncestorStaysStored(SparePath(H, ts), h, o, 2);
    }
  }

  lemma {:induction false} SpareSupportsNothing(H: Hasher, ts: seq<Digest>, h: nat, o: nat)
    requires |ts| == 8 && ((h == 0 && (o == 6 || o == 7)) || (h == 1 && o == 2))
    ensures |SparePath(H, ts)| == 3 && !StillSupports(SparePath(H, ts), h, o)
  {
    hide Shr, StaysBareAbove, StaysDerivable, OverMarked, SparePath;
    SpareHeight(H, ts);
    forall m | h <= m < 3
      ensures !(OverMarked(SparePath(H, ts)[0], m, Sibling(Shr(o, m - h))) && StaysBareAbove(SparePath(H, ts), m, h, o))
    {
      SpareShielded(H, ts, h, o, m);
    }
  }

  /** For every hash and every block of eight the constructor accepts this proof of transaction 0;
      trim keeps leaves 6 and 7 and node (1, 2), and none of them is needed. */
  lemma {:induction false} SpareNodesAreKept(H: Hasher, ts: seq<Digest>, trimmed: Path)
    requires |ts| == 8 && IsTrimmed(SparePath(H, ts), trimmed)
    ensures ValidPath(H, SparePath(H, ts)) && |trimmed| == 3
    ensures IsStored(trimmed, 0, 6) && IsStored(trimmed, 0, 7) && IsStored(trimmed, 1, 2)
    ensures !IsNeeded(trimmed, 0, 6) && !IsNeeded(trimmed, 0, 7) && !IsNeeded(trimmed, 1, 2)
  {
    hide *;
    var p: Path := SparePath(H, ts);
    SpareHeight(H, ts);
    SpareIsValid(H, ts);
    SpareStays(H, ts);
    SpareIsCovered(H, ts);
    SpareMarkedClimb(H, ts);
    TrimmedHeight(p, trimmed);
    StoredAfterTrim(p, trimmed, 0, 6);
    StoredAfterTrim(p, trimmed, 0, 7);
    StoredAfterTrim(p, trimmed, 1, 2);
    NeededAfterTrimIff(p, trimmed, 0, 6);
    NeededAfterTrimIff(p, trimmed, 0, 7);
    NeededAfterTrimIff(p, trimmed, 1, 2);
    SpareSupportsNothing(H, ts, 0, 6);
    SpareSupportsNothing(H, ts, 0, 7);
    SpareSupportsNothing(H, ts, 1, 2);
  }
}
