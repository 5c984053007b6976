/** The loops of MerklePath.trim, proved against its outcome. */
module MerkleTrimLoops {
  import opened MerkleTree
  import opened MerkleLookup
  import opened MerkleTrim
  import opened MerkleCodec

  // ---------------------------------------------------------------------------
  // Loops over one level

  /** push_if_new */
  method PushIfNew(v: nat, a: seq<nat>) returns (r: seq<nat>)
    ensures r != [] && r[|r| - 1] == v && a <= r
    ensures |r| == if a != [] && a[|a| - 1] == v then |a| else |a| + 1
    ensures forall x :: x in r <==> x in a || x == v
  {
    if a == [] || a[|a| - 1] != v {
      r := a + [v];
    } else {
      r := a;
    }
  }

  ghost predicate HasHalf(offsets: seq<nat>, x: nat) {
    exists o :: o in offsets && o / 2 == x
  }

  lemma {:induction false} HasHalfOfAppend(offsets: seq<nat>, o: nat, x: nat)
    ensures HasHalf(offsets + [o], x) <==> (HasHalf(offsets, x) || x == o / 2)
  {
    var more := offsets + [o];
    assert o in more;
    assert forall y :: y in more <==> y in offsets || y == o;
  }

  /** next_computed_offsets */
  method NextOffsets(offsets: seq<nat>) returns (r: seq<nat>)
    ensures forall x :: x in r <==> HasHalf(offsets, x)
  {
    r := [];
    for i := 0 to |offsets|
      invariant forall x :: x in r <==> HasHalf(offsets[..i], x)
    {
      hide HasHalf;
      r := PushIfNew(offsets[i] / 2, r);
      assert offsets[..i + 1] == offsets[..i] + [offsets[i]];
      forall x: nat
        ensures x in r <==> HasHalf(offsets[..i + 1], x)
      {
        HasHalfOfAppend(offsets[..i], offsets[i], x);
      }
    }
    assert offsets[..|offsets|] == offsets;
  }

  method FindIndex(level: seq<Leaf>, o: nat) returns (idx: nat)
    ensures idx <= |level|
    ensures idx < |level| ==> level[idx].offset == o
    ensures forall i :: 0 <= i < idx ==> level[i].offset != o
  {
    idx := 0;
    while idx < |level| && level[idx].offset != o
      invariant idx <= |level|
      invariant forall i :: 0 <= i < idx ==> level[i].offset != o
    {
      idx := idx + 1;
    }
  }

  lemma {:induction false} WithoutIndex(level: seq<Leaf>, idx: nat)
    requires idx < |level| && Ascending(level)
    ensures var r := level[..idx] + level[idx + 1..];
            Ascending(r) && forall l :: l in r <==> l in level && l.offset != level[idx].offset
  {
    var r := level[..idx] + level[idx + 1..];
    forall l | l in level && l.offset != level[idx].offset
      ensures l in r
    {
      var i :| 0 <= i < |level| && level[i] == l;
      assert l == if i < idx then r[i] else r[i - 1];
    }
  }

  /** drop_offsets_from_level: later offsets first, each removing the first leaf it finds. */
  method DropOffsets(level: seq<Leaf>, drop: seq<nat>) returns (r: seq<Leaf>)
    requires Ascending(level)
    ensures Ascending(r)
    ensures forall l :: l in r <==> l in level && l.offset !in drop
  {
    r := level;
    for k := |drop| downto 0
      invariant Ascending(r)
      invariant forall l :: l in r <==> l in level && l.offset !in drop[k..]
    {
      assert drop[k..] == [drop[k]] + drop[k + 1..];
      var idx := FindIndex(r, drop[k]);
      if idx < |r| {
        WithoutIndex(r, idx);
        r := r[..idx] + r[idx + 1..];
      }
    }
    assert drop[0..] == drop;
  }

  lemma {:induction false} InsertKeepsOrder(level: seq<Leaf>, l: Leaf)
    requires Ascending(level) && forall e :: e in level ==> e.offset != l.offset
    ensures var r := InsertByOffset(level, l);
            Ascending(r) && forall e :: e in r <==> e in level || e == l
  {
    if level != [] && l.offset < level[|level| - 1].offset {
      var front, last := level[..|level| - 1], level[|level| - 1];
      assert level == front + [last];
      InsertKeepsOrder(front, l);
      var r := InsertByOffset(front, l);
      forall i | 0 <= i < |r|
        ensures r[i].offset < last.offset
      {
        assert r[i] in r;
      }
    } else {
      assert forall i :: 0 <= i < |level| ==> level[i] in level;
    }
  }

  /** Sorting keeps the leaves and orders them by offset. */
  lemma {:induction false} SortKeepsLeaves(level: seq<Leaf>)
    requires UniqueOffsets(level)
    ensures var r := SortByOffset(level);
            Ascending(r) && forall l :: l in r <==> l in level
  {
    if level != [] {
      var front, last := level[..|level| - 1], level[|level| - 1];
      assert level == front + [last];
      SortKeepsLeaves(front);
      forall e | e in front
        ensures e.offset != last.offset
      {
        var j :| 0 <= j < |front| && front[j] == e;
      }
      InsertKeepsOrder(SortByOffset(front), last);
    }
  }

  ghost predicate DroppedBy(level: seq<Leaf>, n: nat, x: nat)
    requires n <= |level|
  {
    exists i :: 0 <= i < n && !IsMarked(level[i]) && Peer(level[i].offset) == x
                && StoredLeaf(level, x).Some? && !IsMarked(StoredLeaf(level, x).value)
  }

  lemma {:induction false} DroppedByAll(level: seq<Leaf>, x: nat)
    requires UniqueOffsets(level)
    ensures DroppedBy(level, |level|, x) <==> Dropped(level, x)
  {
    if DroppedBy(level, |level|, x) {
      var i :| 0 <= i < |level| && !IsMarked(level[i]) && Peer(level[i].offset) == x;
      assert level[i] in level && StoredLeaf(level, x).value in level;
    }
    if Dropped(level, x) {
      var e, p :| e in level && p in level && !IsMarked(e) && !IsMarked(p) && p.offset == x &&
        p.offset == Peer(e.offset);
      var i :| 0 <= i < |level| && level[i] == e;
      StoredLeafFound(level, p);
      var q := StoredLeaf(level, x).value;
      var j :| 0 <= j < |level| && level[j] == p;
      var j' :| 0 <= j' < |level| && level[j'] == q;
      assert j == j';
    }
  }

  /** The first pass of trim over the bottom level: parents of marked leaves, and leaves to drop. */
  method ScanBottom(level: seq<Leaf>) returns (computed: seq<nat>, drop: seq<nat>)
    requires UniqueOffsets(level)
    ensures forall x: nat :: x in computed <==> OverMarked(level, 1, x)
    ensures forall x: nat :: x in drop <==> Dropped(level, x)
  {
    computed, drop := [], [];
    for i := 0 to |level|
      invariant forall x: nat :: x in computed <==> OverMarked(level[..i], 1, x)
      invariant forall x: nat :: x in drop <==> DroppedBy(level, i, x)
    {
      var e := level[i];
      assert level[..i + 1] == level[..i] + [e];
      assert Shr(e.offset, 1) == Shr(e.offset, 0) / 2 == e.offset / 2;
      if IsMarked(e) {
        computed := PushIfNew(e.offset / 2, computed);
      } else {
        var peer := Peer(e.offset);
        if peer >= 0 {
          var found := StoredLeaf(level, peer);
          if found.Some? && !IsMarked(found.value) {
            drop := PushIfNew(found.value.offset, drop);
          }
        }
      }
      forall x: nat
        ensures DroppedBy(level, i + 1, x) <==>
                (DroppedBy(level, i, x)
                 || (!IsMarked(e) && Peer(e.offset) == x
                     && StoredLeaf(level, x).Some? && !IsMarked(StoredLeaf(level, x).value)))
      {
      }
    }
    assert level[..|level|] == level;
    forall x: nat
      ensures x in drop <==> Dropped(level, x)
    {
      DroppedByAll(level, x);
    }
  }

  lemma {:induction false} OverMarkedAbove(level: seq<Leaf>, h: nat, computed: seq<nat>, next: seq<nat>)
    requires forall x: nat :: x in computed <==> OverMarked(level, h, x)
    requires forall x :: x in next <==> HasHalf(computed, x)
    ensures forall x: nat :: x in next <==> OverMarked(level, h + 1, x)
  {
    forall x: nat | OverMarked(level, h + 1, x)
      ensures x in next
    {
      var l :| l in level && IsMarked(l) && Shr(l.offset, h + 1) == x;
      assert OverMarked(level, h, Shr(l.offset, h));
      assert HasHalf(computed, x);
    }
    forall x: nat | x in next
      ensures OverMarked(level, h + 1, x)
    {
      var o :| o in computed && o / 2 == x;
      assert OverMarked(level, h, o);
      var l :| l in level && IsMarked(l) && Shr(l.offset, h) == o;
    }
  }

  /** The sort at the start of trim. */
  method SortLevels(path: Path) returns (r: Path)
    requires forall h :: 0 <= h < |path| ==> UniqueOffsets(path[h])
    ensures |r| == |path|
    ensures forall h :: 0 <= h < |path| ==> Ascending(r[h])
    ensures forall h, l :: 0 <= h < |path| ==> (l in r[h] <==> l in path[h])
  {
    r := path;
    for h := 0 to |path|
      invariant |r| == |path|
      invariant forall g :: h <= g < |path| ==> r[g] == path[g]
      invariant forall g :: 0 <= g < h ==> Ascending(r[g])
      invariant forall g, l :: 0 <= g < h ==> (l in r[g] <==> l in path[g])
    {
      SortKeepsLeaves(path[h]);
      r := r[h := SortByOffset(path[h])];
    }
  }

  /** trim after its sort. */
  method TrimSorted(path: Path) returns (r: Path)
    requires |path| > 0 && forall h :: 0 <= h < |path| ==> Ascending(path[h])
    ensures IsTrimmed(path, r)
  {
    var computed, drop := ScanBottom(path[0]);
    var bottom := DropOffsets(path[0], drop);
    r := path[0 := bottom];
    for h := 1 to |path|
      invariant |r| == |path|
      invariant forall x: nat :: x in computed <==> OverMarked(path[0], h, x)
      invariant forall g :: h <= g < |path| ==> r[g] == path[g]
      invariant forall g :: 0 <= g < h ==> TrimmedLevel(path, g, r[g])
    {
      drop := computed;
      computed := NextOffsets(drop);
      OverMarkedAbove(path[0], h, drop, computed);
      var level := DropOffsets(path[h], drop);
      assert TrimmedLevel(path, h, level);
      r := r[h := level];
    }
  }

  lemma {:induction false} SameLeavesSameKept(a: seq<Leaf>, b: seq<Leaf>, h: nat, o: nat)
    requires forall l :: l in a <==> l in b
    ensures Kept(a, h, o) <==> Kept(b, h, o)
  {
    assert OverMarked(a, h, o) <==> OverMarked(b, h, o);
    assert Dropped(a, o) <==> Dropped(b, o);
  }

  lemma {:induction false} TrimIgnoresOrder(path: Path, sorted: Path, h: nat, level: seq<Leaf>)
    requires h < |path| == |sorted| && TrimmedLevel(sorted, h, level)
    requires forall g, l :: 0 <= g < |path| ==> (l in sorted[g] <==> l in path[g])
    ensures TrimmedLevel(path, h, level)
  {
    forall l
      ensures l in level <==> l in path[h] && Kept(path[0], h, l.offset)
    {
      SameLeavesSameKept(sorted[0], path[0], h, l.offset);
    }
  }

  method TrimLevels(path: Path) returns (r: Path)
    requires |path| > 0 && forall h :: 0 <= h < |path| ==> UniqueOffsets(path[h])
    ensures IsTrimmed(path, r)
  {
    var sorted := SortLevels(path);
    r := TrimSorted(sorted);
    forall h | 0 <= h < |path|
      ensures TrimmedLevel(path, h, r[h])
    {
      TrimIgnoresOrder(path, sorted, h, r[h]);
    }
  }
}
