/** A root binds a txid to a node of the tree: an arbitrary path that reaches a tree's root from a
    32-byte txid either starts at the tree's own node at its height below the root, or passes the
    tree's own leaf when it is taller than the tree, or contains a collision of the double hash. */
module MerkleBinding {
  import opened Wrappers
  import opened Arithmetic
  import opened Bytes
  import opened MerkleHash
  import opened MerkleTree
  import opened MerkleLookup

  /** The ordered pair that a round of compute_root hashes. */
  function HashedPair(sibling: Leaf, offset: nat, w: bytes): (bytes, bytes)
    requires sibling.duplicate || sibling.hash.Some?
  {
    if sibling.duplicate then (w, w)
    else if offset % 2 != 0 then (w, sibling.hash.value)
    else (sibling.hash.value, w)
  }

  /** The position at height k of the tree node that the bits of index lead to from the root;
      the copy past the end of an odd level counts as the last node. */
  function Descend(tree: seq<seq<Digest>>, index: nat, k: nat): nat
    requires k < |tree|
    decreases |tree| - k
  {
    if k == |tree| - 1 then 0
    else
      var child := 2 * Descend(tree, index, k + 1) + Shr(index, k) % 2;
      if child < |tree[k]| then child else 2 * Descend(tree, index, k + 1)
  }

  /** compute_root never looks at the height of the tree. These are the levels that its rounds reach:
      only upper ones when the path is lower than the tree. */
  function Reached(path: Path, tree: seq<seq<Digest>>): (r: seq<seq<Digest>>)
    requires |tree| > 0
    ensures 0 < |r| <= |path| + 1
  {
    if |path| + 1 < |tree| then tree[|tree| - 1 - |path|..] else tree
  }

  /** The rounds below the bottom of the tree when the path is taller. */
  function Excess(path: Path, tree: seq<seq<Digest>>): nat
    requires 0 < |tree| <= |path| + 1
  {
    |path| + 1 - |tree|
  }

  /** Round k of the climb hashes a pair that differs from the tree's pair at that place,
      although both pairs have the same hash. */
  ghost predicate CollidesAt(H: Hasher, path: Path, tree: seq<seq<Digest>>, index: nat, w: bytes, k: nat)
    requires 0 < |tree| <= |path| + 1 && Excess(path, tree) <= k < |path|
  {
    var h := k - Excess(path, tree);
    var below := Climb(H, path, index, w, k);
    var offset := Sibling(Shr(index, k));
    var found := FindOrCompute(H, path, k, offset);
    var q := Descend(tree, Shr(index, Excess(path, tree)), h + 1);
    && below.Ok? && found.Ok? && found.value.Some?
    && (found.value.value.duplicate || found.value.value.hash.Some?)
    && 2 * q + 1 < Padded(|tree[h]|)
    && var (a, b) := HashedPair(found.value.value, offset, below.value);
       var (c, d) := (At(tree[h], 2 * q), At(tree[h], 2 * q + 1));
       (a, b) != (c, d) && H(a, b) == H(c, d)
  }

  lemma {:induction false} DescendInRange(H: Hasher, tree: seq<seq<Digest>>, index: nat, k: nat)
    requires IsTree(H, tree) && k < |tree|
    ensures Descend(tree, index, k) < |tree[k]|
    decreases |tree| - k
  {
    if k < |tree| - 1 {
      DescendInRange(H, tree, index, k + 1);
    }
  }

  /** A successful round hashes the ordered pair of the working hash and its sibling. */
  lemma {:induction false} ClimbHashesPair(H: Hasher, path: Path, index: nat, w: bytes, k: nat)
    requires k < |path| && Climb(H, path, index, w, k + 1).Ok?
    ensures Climb(H, path, index, w, k).Ok?
    ensures var found := FindOrCompute(H, path, k, Sibling(Shr(index, k)));
            && found.Ok? && found.value.Some?
            && (found.value.value.duplicate || found.value.value.hash.Some?)
            && var (a, b) := HashedPair(found.value.value, Sibling(Shr(index, k)), Climb(H, path, index, w, k).value);
               Climb(H, path, index, w, k + 1) == Ok(H(a, b))
  {
  }

  /** In a pair of tree nodes the working hash is the one its own offset bit selects. */
  lemma {:induction false} ChildFromPair(level: seq<Digest>, q: nat, i: nat, sibling: Leaf, w: bytes)
    requires 2 * q < |level| && 2 * q + 1 < Padded(|level|)
    requires sibling.duplicate || sibling.hash.Some?
    requires HashedPair(sibling, Sibling(i), w) == (At(level, 2 * q), At(level, 2 * q + 1))
    ensures w == if 2 * q + i % 2 < |level| then level[2 * q + i % 2] else level[2 * q]
  {
  }

  /** One round backwards: equal parents without a collision have equal children. */
  lemma {:induction false} ClimbBackwards(H: Hasher, path: Path, tree: seq<seq<Digest>>, index: nat, w: bytes, h: nat)
    requires IsTree(H, tree) && |tree| <= |path| + 1 && h + 1 < |tree|
    requires var e := Excess(path, tree);
             && Descend(tree, Shr(index, e), h + 1) < |tree[h + 1]|
             && Climb(H, path, index, w, e + h + 1) == Ok(tree[h + 1][Descend(tree, Shr(index, e), h + 1)])
             && !CollidesAt(H, path, tree, index, w, e + h)
    ensures var e := Excess(path, tree);
            && Descend(tree, Shr(index, e), h) < |tree[h]|
            && Climb(H, path, index, w, e + h) == Ok(tree[h][Descend(tree, Shr(index, e), h)])
  {
    hide Climb, FindOrCompute, HashedPair, At, Up, Shr;
    var e := Excess(path, tree);
    var k, q := e + h, Descend(tree, Shr(index, e), h + 1);
    ClimbHashesPair(H, path, index, w, k);
    UpAt(H, tree[h], q);
    ShrShr(index, e, h);
    var found := FindOrCompute(H, path, k, Sibling(Shr(index, k))).value.value;
    ChildFromPair(tree[h], q, Shr(index, k), found, Climb(H, path, index, w, k).value);
  }

  lemma {:induction false} ClimbIsBound(H: Hasher, path: Path, tree: seq<seq<Digest>>, index: nat, w: bytes, h: nat)
    requires IsTree(H, tree) && |tree| <= |path| + 1 && h < |tree|
    requires Climb(H, path, index, w, |path|) == Ok(tree[|tree| - 1][0])
    requires forall g :: Excess(path, tree) <= g < |path| ==> !CollidesAt(H, path, tree, index, w, g)
    ensures var e := Excess(path, tree);
            && Descend(tree, Shr(index, e), h) < |tree[h]|
            && Climb(H, path, index, w, e + h) == Ok(tree[h][Descend(tree, Shr(index, e), h)])
    decreases |tree| - h
  {
    hide Climb, CollidesAt, Shr;
    if h + 1 < |tree| {
      ClimbIsBound(H, path, tree, index, w, h + 1);
      ClimbBackwards(H, path, tree, index, w, h);
    }
  }

  // ---------------------------------------------------------------------------
  // The position in closed form

  function Pow2(n: nat): (r: nat)
    ensures r > 0
  {
    if n == 0 then 1 else 2 * Pow2(n - 1)
  }

  /** Bits above n do not reach down. */
  lemma {:induction false} ShrOfSum(r: nat, m: nat, n: nat, k: nat)
    requires k <= n
    ensures Shr(r + Pow2(n) * m, k) == Shr(r, k) + Pow2(n - k) * m
  {
    hide Shr, Pow2;
    ShrSteps(r, k);
    ShrSteps(r + Pow2(n) * m, k);
    if k > 0 {
      ShrOfSum(r, m, n, k - 1);
      Pow2Times(n - k, m);
      HalfOfSum(Shr(r, k - 1), Pow2(n - k) * m);
    }
  }

  lemma {:induction false} Pow2Times(n: nat, m: nat)
    ensures Pow2(n + 1) * m == 2 * (Pow2(n) * m)
  {
    assert Pow2(n + 1) == 2 * Pow2(n);
    Associate(2, Pow2(n), m);
  }

  lemma {:induction false} HalfOfSum(x: nat, c: int)
    ensures (x + 2 * c) / 2 == x / 2 + c
  {
  }

  lemma {:induction false} ShrBelow(r: nat, n: nat, k: nat)
    requires r < Pow2(n) && k <= n
    ensures Shr(r, k) < Pow2(n - k)
  {
    if k > 0 {
      ShrBelow(r, n, k - 1);
      assert Pow2(n - (k - 1)) == 2 * Pow2(n - k);
    }
  }

  lemma {:induction false} AddEvenKeepsParity(x: nat, c: nat)
    ensures (x + 2 * c) % 2 == x % 2
  {
  }

  lemma {:induction false} LowBitsKept(r: nat, m: nat, n: nat, k: nat)
    requires k < n
    ensures Shr(r + Pow2(n) * m, k) % 2 == Shr(r, k) % 2
  {
    hide Shr, Pow2;
    ShrOfSum(r, m, n, k);
    Pow2Times(n - k - 1, m);
    NonNegative(Pow2(n - k - 1), m);
    AddEvenKeepsParity(Shr(r, k), Pow2(n - k - 1) * m);
  }

  /** The node found by descending is the ancestor of the low n bits of the index. */
  lemma {:induction false} DescendIsShift(H: Hasher, tree: seq<seq<Digest>>, r: nat, m: nat, k: nat)
    requires IsTree(H, tree) && k < |tree|
    requires r < Pow2(|tree| - 1) && r < |tree[0]|
    ensures Descend(tree, r + Pow2(|tree| - 1) * m, k) == Shr(r, k)
    decreases |tree| - k
  {
    var n := |tree| - 1;
    if k == n {
      ShrBelow(r, n, n);
    } else {
      DescendIsShift(H, tree, r, m, k + 1);
      LowBitsKept(r, m, n, k);
      AncestorInRange(H, tree, r, k);
    }
  }

  lemma {:induction false} DivModIdentity(x: nat, p: nat)
    requires p > 0
    ensures x == x % p + p * (x / p) && 0 <= x % p < p && 0 <= x / p
  {
  }

  lemma {:induction false} DescendIsMod(H: Hasher, tree: seq<seq<Digest>>, index: nat)
    requires IsTree(H, tree)
    requires index % Pow2(|tree| - 1) < |tree[0]|
    ensures Descend(tree, index, 0) == index % Pow2(|tree| - 1)
  {
    var p := Pow2(|tree| - 1);
    DivModIdentity(index, p);
    DescendIsShift(H, tree, index % p, index / p, 0);
  }

  /** The hash is the bottom node of these levels that the offset bits lead to. */
  ghost predicate IsBound(tree: seq<seq<Digest>>, index: nat, w: bytes)
    requires |tree| > 0
  {
    Descend(tree, index, 0) < |tree[0]| && w == tree[0][Descend(tree, index, 0)]
  }

  /** It is the one at index mod 2^n when that is a position of them. */
  lemma {:induction false} BoundAtMod(H: Hasher, tree: seq<seq<Digest>>, index: nat, w: bytes)
    requires IsTree(H, tree) && IsBound(tree, index, w)
    ensures index % Pow2(|tree| - 1) < |tree[0]| ==> w == tree[0][index % Pow2(|tree| - 1)]
  {
    if index % Pow2(|tree| - 1) < |tree[0]| {
      DescendIsMod(H, tree, index);
    }
  }

  lemma {:induction false} ReachedIsTree(H: Hasher, path: Path, ts: seq<Digest>)
    requires |ts| > 0
    ensures var tree := Reached(path, Levels(H, ts));
            IsTree(H, tree) && tree[|tree| - 1] == [MerkleRoot(H, ts)]
  {
    hide Levels, MerkleRoot;
    LevelsFormTree(H, ts);
  }

  /** Whatever the pair hash and the height of the path, a path whose root is the tree's root, with
      no collision of pairs on the way, comes to the bottom of the levels that it reaches at the node
      that its offset leads to: with the txid itself unless the path is taller than the tree. */
  lemma {:induction false} RootBindsUpToCollision(H: Hasher, path: Path, ts: seq<Digest>, txid: bytes)
    requires |ts| > 0 && ComputeRoot(H, path, Some(txid)) == Ok(MerkleRoot(H, ts))
    ensures |path| > 0 && IndexOf(path[0], txid).Some?
    ensures var tree, index := Reached(path, Levels(H, ts)), IndexOf(path[0], txid).value;
            var e := Excess(path, tree);
            var w := Climb(H, path, index, txid, e);
            || (w.Ok? && IsBound(tree, Shr(index, e), w.value))
            || exists k :: e <= k < |path| && CollidesAt(H, path, tree, index, txid, k)
  {
    hide Levels, MerkleRoot, CollidesAt, Climb, Descend, Shr, Reached;
    var tree, index := Reached(path, Levels(H, ts)), IndexOf(path[0], txid).value;
    ReachedIsTree(H, path, ts);
    if forall k :: Excess(path, tree) <= k < |path| ==> !CollidesAt(H, path, tree, index, txid, k) {
      ClimbIsBound(H, path, tree, index, txid, 0);
    }
  }

  // ---------------------------------------------------------------------------
  // For the double hash of the code

  /** Round k of the climb double-hashes a message that differs from the tree's message at that
      place, although both have the same double hash. */
  ghost predicate HashCollidesAt(hash256: bytes -> Digest, path: Path, tree: seq<seq<Digest>>, index: nat, w: bytes,
                                 k: nat)
    requires 0 < |tree| <= |path| + 1 && Excess(path, tree) <= k < |path|
  {
    var H := PairHasher(hash256);
    var h := k - Excess(path, tree);
    var below := Climb(H, path, index, w, k);
    var offset := Sibling(Shr(index, k));
    var found := FindOrCompute(H, path, k, offset);
    var q := Descend(tree, Shr(index, Excess(path, tree)), h + 1);
    && below.Ok? && found.Ok? && found.value.Some?
    && (found.value.value.duplicate || found.value.value.hash.Some?)
    && 2 * q + 1 < Padded(|tree[h]|)
    && var (a, b) := HashedPair(found.value.value, offset, below.value);
       var (m, n) := (Message(a, b), Message(At(tree[h], 2 * q), At(tree[h], 2 * q + 1)));
       m != n && hash256(m) == hash256(n)
  }

  /** After the first round the working hash is a hash. */
  lemma {:induction false} ClimbLength(H: Hasher, path: Path, index: nat, w: bytes, k: nat)
    requires k <= |path| && (|w| == 32 || k > 0) && Climb(H, path, index, w, k).Ok?
    ensures |Climb(H, path, index, w, k).value| == 32
  {
    if k > 0 {
      ClimbHashesPair(H, path, index, w, k - 1);
    }
  }

  /** Messages of equal length, one half of the first being 32 bytes, split at the same place. */
  lemma {:induction false} SameSplit(hash256: bytes -> Digest, a: bytes, b: bytes, c: Digest, d: Digest)
    requires |a| == 32 || |b| == 32
    requires (a, b) != (c, d) && PairHasher(hash256)(a, b) == PairHasher(hash256)(c, d)
    ensures Message(a, b) != Message(c, d) && hash256(Message(a, b)) == hash256(Message(c, d))
  {
    PairCollisionIsHashCollision(hash256, a, b, c, d);
    MessageLength(a, b);
    MessageLength(c, d);
  }

  /** From a 32-byte txid, or after the first round, a collision of pairs is one of the double hash. */
  lemma {:induction false} CollisionIsOfHash(hash256: bytes -> Digest, path: Path, tree: seq<seq<Digest>>, index: nat,
                                             w: bytes, k: nat)
    requires 0 < |tree| <= |path| + 1 && Excess(path, tree) <= k < |path| && (|w| == 32 || k > 0)
    requires CollidesAt(PairHasher(hash256), path, tree, index, w, k)
    ensures HashCollidesAt(hash256, path, tree, index, w, k)
  {
    hide Climb, FindOrCompute, Message, PairHasher, At, Shr, Descend;
    var H := PairHasher(hash256);
    ClimbLength(H, path, index, w, k);
    var offset, h := Sibling(Shr(index, k)), k - Excess(path, tree);
    var found := FindOrCompute(H, path, k, offset).value.value;
    var q := Descend(tree, Shr(index, Excess(path, tree)), h + 1);
    var (a, b) := HashedPair(found, offset, Climb(H, path, index, w, k).value);
    SameSplit(hash256, a, b, At(tree[h], 2 * q), At(tree[h], 2 * q + 1));
  }

  ghost predicate NoHashCollision(hash256: bytes -> Digest, path: Path, tree: seq<seq<Digest>>, index: nat, w: bytes)
    requires 0 < |tree| <= |path| + 1
  {
    forall k :: Excess(path, tree) <= k < |path| ==> !HashCollidesAt(hash256, path, tree, index, w, k)
  }

  /** The height of a block's tree; a path of this height names transactions. */
  function Height(H: Hasher, ts: seq<Digest>): nat
    requires |ts| > 0
  {
    |Levels(H, ts)| - 1
  }

  /** The working hash at the bottom of the levels that the path reaches. */
  lemma {:induction false} BottomIsBound(hash256: bytes -> Digest, path: Path, ts: seq<Digest>, txid: bytes)
    requires |ts| > 0 && ComputeRoot(PairHasher(hash256), path, Some(txid)) == Ok(MerkleRoot(PairHasher(hash256), ts))
    requires |path| > 0 && IndexOf(path[0], txid).Some?
    requires var tree := Reached(path, Levels(PairHasher(hash256), ts));
             && (|txid| == 32 || Excess(path, tree) > 0)
             && NoHashCollision(hash256, path, tree, IndexOf(path[0], txid).value, txid)
    ensures var H, index := PairHasher(hash256), IndexOf(path[0], txid).value;
            var tree := Reached(path, Levels(H, ts));
            var o := Shr(index, Excess(path, tree));
            var w := Climb(H, path, index, txid, Excess(path, tree));
            && w.Ok? && IsBound(tree, o, w.value) && w.value in tree[0]
            && (o % Pow2(|tree| - 1) < |tree[0]| ==> w.value == tree[0][o % Pow2(|tree| - 1)])
  {
    hide Levels, ComputeRoot, MerkleRoot, IsBound, CollidesAt, HashCollidesAt, PairHasher, Climb, Shr, Pow2, IndexOf,
      Reached;
    var H := PairHasher(hash256);
    var tree, index := Reached(path, Levels(H, ts)), IndexOf(path[0], txid).value;
    var e := Excess(path, tree);
    RootBindsUpToCollision(H, path, ts, txid);
    forall k | e <= k < |path| ensures !CollidesAt(H, path, tree, index, txid, k) {
      if CollidesAt(H, path, tree, index, txid, k) {
        CollisionIsOfHash(hash256, path, tree, index, txid, k);
      }
    }
    var w := Climb(H, path, index, txid, e);
    BoundIsLeaf(tree, Shr(index, e), w.value);
    ReachedIsTree(H, path, ts);
    BoundAtMod(H, tree, Shr(index, e), w.value);
  }

  lemma {:induction false} WhatIsReached(path: Path, tree: seq<seq<Digest>>)
    requires |tree| > 0
    ensures |path| < |tree| ==>
              Reached(path, tree) == tree[|tree| - 1 - |path|..] && Excess(path, Reached(path, tree)) == 0
    ensures |path| >= |tree| ==> Reached(path, tree) == tree && Excess(path, tree) == |path| + 1 - |tree|
  {
  }

  /** Any path at all that computes the root of a block for a txid, without a collision of the double
      hash on the way. Not taller than the tree, it proves a node at its own height below the root, and
      does so exactly when the txid has 32 bytes; then it is the node at the proof's position, a
      transaction when the path has the tree's height. Taller, it passes the transaction at the
      position when it comes to the bottom of the tree. */
  lemma {:induction false} RootBindsTxid(hash256: bytes -> Digest, path: Path, ts: seq<Digest>, txid: bytes)
    requires |ts| > 0 && ComputeRoot(PairHasher(hash256), path, Some(txid)) == Ok(MerkleRoot(PairHasher(hash256), ts))
    ensures |path| > 0 && IndexOf(path[0], txid).Some?
    ensures var H, index := PairHasher(hash256), IndexOf(path[0], txid).value;
            NoHashCollision(hash256, path, Reached(path, Levels(H, ts)), index, txid) ==>
              if |path| <= Height(H, ts) then
                var tree := Levels(H, ts)[Height(H, ts) - |path|..];
                && (txid in tree[0] <==> |txid| == 32)
                && (|txid| == 32 ==> IsBound(tree, index, txid))
                && (|txid| == 32 && index % Pow2(|path|) < |tree[0]| ==> txid == tree[0][index % Pow2(|path|)])
              else
                var e := |path| - Height(H, ts);
                var w, o := Climb(H, path, index, txid, e), Shr(index, e) % Pow2(Height(H, ts));
                && w.Ok? && w.value in ts && IsBound(Levels(H, ts), Shr(index, e), w.value)
                && (o < |ts| ==> w.value == ts[o])
  {
    hide Levels, ComputeRoot, MerkleRoot, IsBound, NoHashCollision, PairHasher, Climb, Shr, Pow2, IndexOf, Reached,
      Excess;
    var H := PairHasher(hash256);
    WhatIsReached(path, Levels(H, ts));
    RootBindsUpToCollision(H, path, ts, txid);
    var tree, index := Reached(path, Levels(H, ts)), IndexOf(path[0], txid).value;
    var e := Excess(path, tree);
    LevelsStart(H, ts);
    NoRounds(H, path, index, txid);
    if (|txid| == 32 || e > 0) && NoHashCollision(hash256, path, tree, index, txid) {
      BottomIsBound(hash256, path, ts, txid);
    }
  }

  lemma {:induction false} NoRounds(H: Hasher, path: Path, index: nat, w: bytes)
    ensures Climb(H, path, index, w, 0) == Ok(w) && Shr(index, 0) == index
  {
  }

  lemma {:induction false} LevelsStart(H: Hasher, ts: seq<Digest>)
    requires |ts| > 0
    ensures Levels(H, ts)[0] == ts
  {
  }

  lemma {:induction false} BoundIsLeaf(tree: seq<seq<Digest>>, index: nat, txid: bytes)
    requires |tree| > 0 && IsBound(tree, index, txid)
    ensures txid in tree[0]
  {
  }

  /** The pair message of a block of two, as the code concatenates it: right before left. */
  function BlockMessage(ts: seq<Digest>): (m: bytes)
    requires |ts| == 2
    ensures |m| == 64
  {
    var left: bytes, right: bytes := ts[0], ts[1];
    right + left
  }

  /** That message cut one byte further right: a path of two leaves of 31 and 33 bytes. */
  function ShiftedPath(ts: seq<Digest>): Path
    requires |ts| == 2
  {
    var m := BlockMessage(ts);
    [[Leaf(0, Some(m[33..]), Some(true), false), Leaf(1, Some(m[..33]), None, false)]]
  }

  lemma {:induction false} ShiftedHash(hash256: bytes -> Digest, ts: seq<Digest>)
    requires |ts| == 2
    ensures var m := BlockMessage(ts);
            PairHasher(hash256)(m[33..], m[..33]) == PairHasher(hash256)(ts[0], ts[1])
    ensures var m := BlockMessage(ts);
            Message(m[33..], m[..33]) == Message(ts[0], ts[1])
  {
    var m := BlockMessage(ts);
    assert m[..33] + m[33..] == m;
    ReverseConcat(m[..33], m[33..]);
    ReverseConcat(ts[1], ts[0]);
  }

  lemma {:induction false} ShiftedLookups(H: Hasher, ts: seq<Digest>)
    requires |ts| == 2
    ensures var path := ShiftedPath(ts);
            && FindOrCompute(H, path, 0, 0) == Ok(Some(path[0][0]))
            && FindOrCompute(H, path, 0, 1) == Ok(Some(path[0][1]))
            && IndexOf(path[0], path[0][0].hash.value) == Some(0) && IndexOf(path[0], path[0][1].hash.value) == Some(1)
  {
    var path := ShiftedPath(ts);
    assert StoredLeaf(path[0][1..], 1) == Some(path[0][1]);
    assert |path[0][0].hash.value| != |path[0][1].hash.value|;
    assert IndexOf(path[0][1..], path[0][1].hash.value) == Some(1);
  }

  /** Both leaves of the path compute the root of the block. */
  lemma {:induction false} ShiftedRoots(hash256: bytes -> Digest, ts: seq<Digest>)
    requires |ts| == 2
    ensures var H: Hasher, path: Path := PairHasher(hash256), ShiftedPath(ts);
            && ComputeRoot(H, path, path[0][0].hash) == Ok(H(ts[0], ts[1]))
            && ComputeRoot(H, path, path[0][1].hash) == Ok(H(ts[0], ts[1]))
  {
    hide FindOrCompute, IndexOf, PairHasher, BlockMessage;
    var H: Hasher, path: Path := PairHasher(hash256), ShiftedPath(ts);
    ShiftedHash(hash256, ts);
    ShiftedLookups(H, ts);
    OneRound(H, path, 0, path[0][0].hash.value);
    OneRound(H, path, 1, path[0][1].hash.value);
  }

  lemma {:induction false} OneRound(H: Hasher, path: Path, index: nat, w: bytes)
    requires |path| == 1
    ensures Climb(H, path, index, w, 1) == Round(H, path, index, 0, w) && Shr(index, 0) == index
  {
    hide Round;
    assert Climb(H, path, index, w, 0) == Ok(w);
  }

  lemma {:induction false} RootOfTwo(H: Hasher, ts: seq<Digest>)
    requires |ts| == 2
    ensures Levels(H, ts) == [ts, [H(ts[0], ts[1])]] && MerkleRoot(H, ts) == H(ts[0], ts[1])
  {
    UpAt(H, ts, 0);
    assert Up(H, ts) == [H(ts[0], ts[1])];
    assert Levels(H, Up(H, ts)) == [Up(H, ts)];
    assert MerkleRoot(H, Up(H, ts)) == Up(H, ts)[0];
  }

  lemma {:induction false} ShiftedIsValid(hash256: bytes -> Digest, ts: seq<Digest>)
    requires |ts| == 2
    ensures ValidPath(PairHasher(hash256), ShiftedPath(ts))
  {
    hide ComputeRoot, PairHasher, BlockMessage;
    ShiftedRoots(hash256, ts);
  }

  /** The message that this path hashes is the block's own, so there is no collision. */
  lemma {:induction false} ShiftedIsNoCollision(hash256: bytes -> Digest, ts: seq<Digest>)
    requires |ts| == 2
    ensures var tree: seq<seq<Digest>>, path: Path := [ts, [PairHasher(hash256)(ts[0], ts[1])]], ShiftedPath(ts);
            NoHashCollision(hash256, path, tree, 0, path[0][0].hash.value)
  {
    hide FindOrCompute, PairHasher, Message, BlockMessage;
    var H: Hasher, path: Path := PairHasher(hash256), ShiftedPath(ts);
    ShiftedHash(hash256, ts);
    ShiftedLookups(H, ts);
    assert Climb(H, path, 0, path[0][0].hash.value, 0) == Ok(path[0][0].hash.value);
    assert Shr(0, 0) == 0;
    assert Descend([ts, [H(ts[0], ts[1])]], 0, 1) == 0;
  }

  /** The length matters. For every double hash and every block of two, the constructor accepts a
      path that computes the block's root for a string of 31 bytes, which is no transaction of the
      block, and the message it hashes is the block's own. */
  lemma {:induction false} ShortTxidNotBound(hash256: bytes -> Digest, ts: seq<Digest>)
    requires |ts| == 2
    ensures var H: Hasher, path: Path := PairHasher(hash256), ShiftedPath(ts);
            var txid := path[0][0].hash.value;
            && ValidPath(H, path) && |Levels(H, ts)| == |path| + 1
            && ComputeRoot(H, path, Some(txid)) == Ok(MerkleRoot(H, ts))
            && NoHashCollision(hash256, path, Levels(H, ts), IndexOf(path[0], txid).value, txid)
            && |txid| == 31 && txid !in ts
  {
    hide ComputeRoot, ValidPath, PairHasher, NoHashCollision, IndexOf;
    ShiftedRoots(hash256, ts);
    ShiftedLookups(PairHasher(hash256), ts);
    ShiftedIsValid(hash256, ts);
    ShiftedIsNoCollision(hash256, ts);
    RootOfTwo(PairHasher(hash256), ts);
  }
}
