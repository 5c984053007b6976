/** The MerklePath class of src/pyrxd/merkle_path.py, and the stream it is read from. */
module MerkleObject {
  import opened Wrappers
  import opened Bytes
  import opened MerkleTree
  import opened MerkleLookup
  import opened MerkleTrim
  import opened MerkleCombine
  import opened MerkleCodec
  import opened VarInt
  import opened MerkleTrimLoops

  /** utils.Reader: a byte stream with a position. */
  class Reader {
    const data: bytes
    var pos: nat

    ghost predicate Valid()
      reads this
    {
      pos <= |data|
    }

    ghost function Rest(): bytes
      requires Valid()
      reads this
    {
      data[pos..]
    }

    constructor (data: bytes)
      ensures Valid() && this.data == data && Rest() == data
    {
      this.data := data;
      this.pos := 0;
    }

    method Take(k: nat) returns (r: Option<bytes>)
      requires Valid()
      modifies this
      ensures Valid() && (r, Rest()) == Read(old(Rest()), k)
    {
      var n := if pos + k <= |data| then k else |data| - pos;
      r := if n == 0 then None else Some(data[pos..pos + n]);
      assert data[pos..][..n] == data[pos..pos + n] && data[pos..][n..] == data[pos + n..];
      pos := pos + n;
    }

    method TakeUInt8() returns (r: Option<byte>)
      requires Valid()
      modifies this
      ensures Valid() && (r, Rest()) == ReadUInt8(old(Rest()))
    {
      var d := Take(1);
      r := if d.None? then None else Some(d.value[0]);
    }

    method TakeVarint() returns (r: Option<nat>)
      requires Valid()
      modifies this
      ensures Valid() && (r, Rest()) == ReadVarint(old(Rest()))
    {
      var first := TakeUInt8();
      if first.None? || first.value < 253 {
        r := first;
      } else {
        var d := Take(if first.value == 253 then 2 else if first.value == 254 then 4 else 8);
        r := if d.None? then None else Some(FromLE(d.value));
      }
    }
  }

  // ---------------------------------------------------------------------------
  // The constructor's checks

  lemma {:induction false} LegalOfAppend(level: seq<Leaf>, l: Leaf, h: nat)
    ensures LegalOffsets(level + [l], h) ==
            LegalOffsets(level, h) + (if l.duplicate then {} else {Sibling(Shr(l.offset, h))})
  {
  }

  /** The inner loop of the constructor over one bottom leaf: adds its legal offsets at every height. */
  method AddLegal(legal: seq<set<nat>>, ghost done: seq<Leaf>, l: Leaf) returns (r: seq<set<nat>>)
    requires forall h :: 1 <= h < |legal| ==> legal[h] == LegalOffsets(done, h)
    ensures |r| == |legal|
    ensures forall h :: 1 <= h < |r| ==> r[h] == LegalOffsets(done + [l], h)
  {
    forall h: nat
      ensures LegalOffsets(done + [l], h) ==
              LegalOffsets(done, h) + (if l.duplicate then {} else {Sibling(Shr(l.offset, h))})
    {
      LegalOfAppend(done, l, h);
    }
    r := legal;
    if !l.duplicate && |legal| > 1 {
      for h := 1 to |legal|
        invariant |r| == |legal|
        invariant forall g :: 1 <= g < h ==> r[g] == LegalOffsets(done + [l], g)
        invariant forall g :: h <= g < |legal| ==> r[g] == legal[g]
      {
        r := r[h := r[h] + {Sibling(Shr(l.offset, h))}];
      }
    }
  }

  method CheckBottom(path: Path) returns (ok: bool, legal: seq<set<nat>>)
    requires |path| > 0
    ensures ok <==> ValidLevel(path, 0)
    ensures |legal| == |path|
    ensures ok ==> forall h :: 1 <= h < |path| ==> legal[h] == LegalOffsets(path[0], h)
  {
    legal := seq(|path|, i => {});
    if path[0] == [] {
      return false, legal;
    }
    var seen: set<nat> := {};
    for i := 0 to |path[0]|
      invariant |legal| == |path|
      invariant UniqueOffsets(path[0][..i])
      invariant forall o :: o in seen <==> exists j :: 0 <= j < i && path[0][j].offset == o
      invariant forall h :: 1 <= h < |path| ==> legal[h] == LegalOffsets(path[0][..i], h)
    {
      var l := path[0][i];
      if l.offset in seen {
        return false, legal;
      }
      seen := seen + {l.offset};
      legal := AddLegal(legal, path[0][..i], l);
      assert path[0][..i + 1] == path[0][..i] + [l];
    }
    assert path[0][..|path[0]|] == path[0];
    ok := true;
  }

  method CheckLevel(path: Path, h: nat, legal: set<nat>) returns (ok: bool)
    requires 1 <= h < |path| && legal == LegalOffsets(path[0], h)
    ensures ok <==> ValidLevel(path, h)
  {
    var seen: set<nat> := {};
    for i := 0 to |path[h]|
      invariant UniqueOffsets(path[h][..i])
      invariant forall o :: o in seen <==> exists j :: 0 <= j < i && path[h][j].offset == o
      invariant forall j :: 0 <= j < i ==> path[h][j].offset in legal
    {
      var l := path[h][i];
      if l.offset in seen || l.offset !in legal {
        return false;
      }
      seen := seen + {l.offset};
    }
    assert path[h][..|path[h]|] == path[h];
    ok := true;
  }

  method CheckRoots(H: Hasher, path: Path) returns (ok: bool)
    requires |path| > 0 && path[0] != []
    ensures ok <==> forall l :: l in path[0] ==>
              ComputeRoot(H, path, l.hash).Ok? && ComputeRoot(H, path, l.hash) == ComputeRoot(H, path, path[0][0].hash)
  {
    var root := RootOf(H, path, path[0][0].hash);
    for i := 0 to |path[0]|
      invariant forall j :: 0 <= j < i ==> ComputeRoot(H, path, path[0][j].hash) == root && root.Ok?
    {
      var other := RootOf(H, path, path[0][i].hash);
      if other.Err? || root != other {
        assert path[0][i] in path[0];
        return false;
      }
    }
    ok := true;
  }

  /** compute_root, on the levels of a path. */
  method RootOf(H: Hasher, path: Path, txid: Option<bytes>) returns (r: Result<bytes>)
    ensures r == ComputeRoot(H, path, txid)
  {
    hide Round, FirstHash, IndexOf;
    if path == [] {
      return Err(IndexError);
    }
    var start := if txid.Some? then txid else FirstHash(path[0]);
    if start.None? {
      return Err(StopIteration);
    }
    var index := IndexOf(path[0], start.value);
    if index.None? {
      return Err(ValueError);
    }
    var w := start.value;
    for h := 0 to |path|
      invariant Climb(H, path, index.value, start.value, h) == Ok(w)
    {
      var next := Round(H, path, index.value, h, w);
      if next.Err? {
        ClimbStaysFailed(H, path, index.value, start.value, h + 1, |path|);
        return next;
      }
      w := next.value;
    }
    r := Ok(w);
  }

  // ---------------------------------------------------------------------------
  // The merge of one level

  lemma {:induction false} KeyedOfAppend(other: seq<Leaf>, l: Leaf, o: nat)
    ensures KeyedAt(other + [l], o) <==> (KeyedAt(other, o) || (l.txid.Some? && l.offset == o))
  {
    var more := other + [l];
    assert l in more;
    assert forall e :: e in more <==> e in other || e == l;
  }

  /** The loop that sets the mark of every combined leaf at one offset. */
  method MarkOffset(level: seq<Leaf>, o: nat) returns (r: seq<Leaf>)
    ensures |r| == |level|
    ensures forall j :: 0 <= j < |r| ==>
            r[j] == if level[j].offset == o then level[j].(txid := Some(true)) else level[j]
  {
    r := level;
    for j := 0 to |level|
      invariant |r| == |level|
      invariant forall k :: j <= k < |r| ==> r[k] == level[k]
      invariant forall k :: 0 <= k < j ==>
                r[k] == if level[k].offset == o then level[k].(txid := Some(true)) else level[k]
    {
      if r[j].offset == o {
        r := r[j := r[j].(txid := Some(true))];
      }
    }
  }

  /** The loop that marks the combined leaves at every offset keyed in the other path. */
  method MarkKeyed(all: seq<Leaf>, other: seq<Leaf>) returns (r: seq<Leaf>)
    ensures r == MarkAll(other, all)
  {
    r := all;
    for i := 0 to |other|
      invariant |r| == |all|
      invariant forall j :: 0 <= j < |r| ==> r[j] == Mark(other[..i], all[j])
    {
      hide KeyedAt;
      assert other[..i + 1] == other[..i] + [other[i]];
      forall o: nat
        ensures KeyedAt(other[..i + 1], o) <==>
                (KeyedAt(other[..i], o) || (other[i].txid.Some? && other[i].offset == o))
      {
        KeyedOfAppend(other[..i], other[i], o);
      }
      if other[i].txid.Some? {
        r := MarkOffset(r, other[i].offset);
      }
    }
    assert other[..|other|] == other;
    assert r == MarkAll(other, all);
  }

  /** The body of combine's loop over heights. */
  method CombineLevel(level: seq<Leaf>, other: seq<Leaf>) returns (r: seq<Leaf>)
    ensures r == CombinedLevel(level, other)
  {
    r := level;
    for i := 0 to |other|
      invariant r == level + Fresh(level, other[..i])
    {
      assert other[..i + 1][..i] == other[..i];
      if !HasOffset(level, other[i].offset) {
        r := r + [other[i]];
      }
    }
    assert other[..|other|] == other;
    r := MarkKeyed(r, other);
  }

  // ---------------------------------------------------------------------------
  // Reading

  method TakeLeaf(reader: Reader) returns (r: Result<Leaf>)
    requires reader.Valid()
    modifies reader
    ensures reader.Valid()
    ensures var d := DecodeLeaf(old(reader.Rest()));
            if d.Err? then r == Err(d.error) else (r, reader.Rest()) == (Ok(d.value.0), d.value.1)
  {
    var offset := reader.TakeVarint();
    var flags := reader.TakeUInt8();
    if offset.None? || flags.None? {
      return Err(TypeError);
    }
    if flags.value % 2 == 1 {
      return Ok(Leaf(offset.value, None, None, true));
    }
    var hash := reader.Take(32);
    if hash.None? {
      return Err(TypeError);
    }
    var txid := if flags.value / 2 % 2 == 1 then Some(true) else None;
    r := Ok(Leaf(offset.value, Some(Reverse(hash.value)), txid, false));
  }

  /** A result with items put in front. */
  ghost function Prepend<T>(xs: seq<T>, r: Result<(seq<T>, bytes)>): Result<(seq<T>, bytes)> {
    if r.Err? then r else Ok((xs + r.value.0, r.value.1))
  }

  lemma {:induction false} ReadManyStep<T>(read: bytes -> Result<(T, bytes)>, done: seq<T>, n: nat, s: bytes)
    requires n > 0
    ensures read(s).Err? ==> ReadMany(read, n, s) == Err(read(s).error)
    ensures read(s).Ok? ==>
              Prepend(done, ReadMany(read, n, s)) ==
              Prepend(done + [read(s).value.0], ReadMany(read, n - 1, read(s).value.1))
  {
    if read(s).Ok? {
      var (x, s1) := read(s).value;
      var rest := ReadMany(read, n - 1, s1);
      if rest.Ok? {
        assert done + ([x] + rest.value.0) == done + [x] + rest.value.0;
      }
    }
  }

  lemma {:induction false} PrependNothing<T>(r: Result<(seq<T>, bytes)>)
    ensures Prepend([], r) == r
  {
    if r.Ok? {
      assert [] + r.value.0 == r.value.0;
    }
  }

  lemma {:induction false} ReadManyNone<T>(read: bytes -> Result<(T, bytes)>, done: seq<T>, s: bytes)
    ensures Prepend(done, ReadMany(read, 0, s)) == Ok((done, s))
  {
    assert done + [] == done;
  }

  /** The inner loop of from_reader. */
  method TakeLeaves(reader: Reader, n: nat) returns (r: Result<seq<Leaf>>)
    requires reader.Valid()
    modifies reader
    ensures reader.Valid()
    ensures var d := ReadMany(DecodeLeaf, n, old(reader.Rest()));
            if d.Err? then r == Err(d.error) else (r, reader.Rest()) == (Ok(d.value.0), d.value.1)
  {
    hide DecodeLeaf, ReadMany, Prepend;
    ghost var all := ReadMany(DecodeLeaf, n, reader.Rest());
    PrependNothing(all);
    var leaves: seq<Leaf> := [];
    var left := n;
    while left > 0
      invariant reader.Valid()
      invariant all == Prepend(leaves, ReadMany(DecodeLeaf, left, reader.Rest()))
    {
      ReadManyStep(DecodeLeaf, leaves, left, reader.Rest());
      var l := TakeLeaf(reader);
      if l.Err? {
        PrependFailed(leaves, l.error);
        return Err(l.error);
      }
      leaves := leaves + [l.value];
      left := left - 1;
    }
    ReadManyNone(DecodeLeaf, leaves, reader.Rest());
    r := Ok(leaves);
  }

  lemma {:induction false} PrependFailed<T>(xs: seq<T>, e: Error)
    ensures Prepend(xs, Err(e)) == Err(e)
  {
  }

  method TakeLevel(reader: Reader) returns (r: Result<seq<Leaf>>)
    requires reader.Valid()
    modifies reader
    ensures reader.Valid()
    ensures var d := DecodeLevel(old(reader.Rest()));
            if d.Err? then r == Err(d.error) else (r, reader.Rest()) == (Ok(d.value.0), d.value.1)
  {
    hide DecodeLeaf, ReadMany, ReadVarint;
    var count := reader.TakeVarint();
    var leaves := TakeLeaves(reader, LeafCount(count));
    if leaves.Err? {
      return Err(leaves.error);
    }
    r := Ok(SortByOffset(leaves.value));
  }

  /** The outer loop of from_reader. */
  method TakeLevels(reader: Reader, n: nat) returns (r: Result<Path>)
    requires reader.Valid()
    modifies reader
    ensures reader.Valid()
    ensures var d := ReadMany(DecodeLevel, n, old(reader.Rest()));
            if d.Err? then r == Err(d.error) else (r, reader.Rest()) == (Ok(d.value.0), d.value.1)
  {
    hide DecodeLevel, ReadMany, Prepend;
    ghost var all := ReadMany(DecodeLevel, n, reader.Rest());
    PrependNothing(all);
    var levels: Path := [];
    for k := 0 to n
      invariant reader.Valid()
      invariant all == Prepend(levels, ReadMany(DecodeLevel, n - k, reader.Rest()))
    {
      ReadManyStep(DecodeLevel, levels, n - k, reader.Rest());
      var level := TakeLevel(reader);
      if level.Err? {
        PrependFailed(levels, level.error);
        return Err(level.error);
      }
      levels := levels + [level.value];
    }
    ReadManyNone(DecodeLevel, levels, reader.Rest());
    r := Ok(levels);
  }

  // ---------------------------------------------------------------------------
  // Writing

  lemma {:induction false} WriteAllOfAppend<T>(write: T -> Result<bytes>, xs: seq<T>, x: T)
    requires WriteAll(write, xs).Ok?
    ensures WriteAll(write, xs + [x]) ==
            if write(x).Err? then Err(write(x).error) else Ok(WriteAll(write, xs).value + write(x).value)
  {
    if xs == [] {
      assert xs + [x] == [x];
      assert WriteAll(write, [x][1..]) == Ok([]);
      if write(x).Ok? {
        assert write(x).value + [] == [] + write(x).value;
      }
    } else {
      WriteAllOfAppend(write, xs[1..], x);
      assert (xs + [x])[1..] == xs[1..] + [x];
      if write(x).Ok? {
        var a, b, c := write(xs[0]).value, WriteAll(write, xs[1..]).value, write(x).value;
        assert a + b + c == a + (b + c);
      }
    }
  }

  lemma {:induction false} WriteAllFails<T>(write: T -> Result<bytes>, xs: seq<T>, i: nat)
    requires i < |xs| && WriteAll(write, xs[..i]).Ok? && write(xs[i]).Err?
    ensures WriteAll(write, xs) == Err(write(xs[i]).error)
  {
    if i > 0 {
      assert xs[..i][0] == xs[0] && xs[..i][1..] == xs[1..][..i - 1];
      WriteAllFails(write, xs[1..], i - 1);
    }
  }

  method WriteLeaves(leaves: seq<Leaf>) returns (r: Result<bytes>)
    ensures r == WriteAll(EncodeLeaf, leaves)
  {
    hide EncodeLeaf;
    var out: bytes := [];
    for i := 0 to |leaves|
      invariant WriteAll(EncodeLeaf, leaves[..i]) == Ok(out)
    {
      var leaf := EncodeLeaf(leaves[i]);
      WriteAllOfAppend(EncodeLeaf, leaves[..i], leaves[i]);
      assert leaves[..i + 1] == leaves[..i] + [leaves[i]];
      if leaf.Err? {
        WriteAllFails(EncodeLeaf, leaves, i);
        return Err(leaf.error);
      }
      out := out + leaf.value;
    }
    assert leaves[..|leaves|] == leaves;
    r := Ok(out);
  }

  method WriteLevels(path: Path) returns (r: Result<bytes>)
    ensures r == WriteAll(EncodeLevel, path)
  {
    hide EncodeLeaf, Varint;
    var out: bytes := [];
    for h := 0 to |path|
      invariant WriteAll(EncodeLevel, path[..h]) == Ok(out)
    {
      var count := Varint(|path[h]|);
      var leaves := WriteLeaves(path[h]);
      WriteAllOfAppend(EncodeLevel, path[..h], path[h]);
      assert path[..h + 1] == path[..h] + [path[h]];
      if count.Err? || leaves.Err? {
        WriteAllFails(EncodeLevel, path, h);
        return Err(if count.Err? then count.error else leaves.error);
      }
      out := out + (count.value + leaves.value);
    }
    assert path[..|path|] == path;
    r := Ok(out);
  }

  // ---------------------------------------------------------------------------
  // The class

  class MerklePath {
    const H: Hasher
    var blockHeight: nat
    var path: Path

    /** What every operation keeps: no level repeats an offset. */
    ghost predicate Valid()
      reads this
    {
      |path| > 0 && forall h :: 0 <= h < |path| ==> UniqueOffsets(path[h])
    }

    constructor (H: Hasher, blockHeight: nat, path: Path)
      requires ValidPath(H, path)
      ensures Valid() && this.H == H && this.blockHeight == blockHeight && this.path == path
    {
      this.H, this.blockHeight, this.path := H, blockHeight, path;
      new;
      forall h | 0 <= h < |path|
        ensures UniqueOffsets(path[h])
      {
        assert ValidLevel(path, h);
      }
    }

    /** __init__: succeeds exactly on the paths that pass all its checks. */
    static method Make(H: Hasher, blockHeight: nat, path: Path) returns (r: Result<MerklePath>)
      ensures r.Ok? <==> ValidPath(H, path)
      ensures r.Ok? ==> fresh(r.value) && r.value.Valid() && r.value.H == H
                        && r.value.blockHeight == blockHeight && r.value.path == path
    {
      if path == [] {
        return Err(IndexError);
      }
      var ok, legal := CheckBottom(path);
      if !ok {
        return Err(ValueError);
      }
      for h := 1 to |path|
        invariant forall g :: 0 <= g < h ==> ValidLevel(path, g)
      {
        ok := CheckLevel(path, h, legal[h]);
        if !ok {
          return Err(ValueError);
        }
      }
      ok := CheckRoots(H, path);
      if !ok {
        return Err(ValueError);
      }
      var made := new MerklePath(H, blockHeight, path);
      r := Ok(made);
    }

    static method FromReader(H: Hasher, reader: Reader) returns (r: Result<MerklePath>)
      requires reader.Valid()
      modifies reader
      ensures reader.Valid()
      ensures var d := DecodePath(old(reader.Rest()));
              if d.Err? then r.Err?
              else
                && reader.Rest() == d.value.2
                && (r.Ok? <==> ValidPath(H, d.value.1))
                && (r.Ok? ==> r.value.Valid() && r.value.H == H
                              && r.value.blockHeight == d.value.0 && r.value.path == d.value.1)
    {
      hide DecodeLevel, ReadMany, ReadVarint, ReadUInt8, ValidPath;
      var blockHeight := reader.TakeVarint();
      var height := reader.TakeUInt8();
      if blockHeight.None? || height.None? {
        return Err(TypeError);
      }
      var levels := TakeLevels(reader, height.value);
      if levels.Err? {
        return Err(levels.error);
      }
      r := Make(H, blockHeight.value, levels.value);
    }

    /** from_binary undoes to_binary on every valid path in canonical form. */
    static method FromBinary(H: Hasher, bump: bytes) returns (r: Result<MerklePath>)
      ensures forall height: nat, path: Path ::
                ValidPath(H, path) && CanonicalPath(height, path) && MerkleCodec.ToBinary(height, path) == Ok(bump)
                ==> r.Ok? && r.value.Valid() && r.value.blockHeight == height && r.value.path == path
      ensures r.Ok? ==> DecodePath(bump).Ok? && ValidPath(H, DecodePath(bump).value.1) && r.value.H == H
                        && r.value.blockHeight == DecodePath(bump).value.0 && r.value.path == DecodePath(bump).value.1
    {
      hide *;
      var reader := new Reader(bump);
      r := FromReader(H, reader);
      DecodeOfEncoded(bump);
    }

    static lemma {:induction false} DecodeOfEncoded(bump: bytes)
      ensures forall height: nat, path: Path ::
                CanonicalPath(height, path) && MerkleCodec.ToBinary(height, path) == Ok(bump)
                ==> DecodePath(bump) == Ok((height, path, []))
    {
      hide DecodePath, MerkleCodec.ToBinary, CanonicalPath;
      forall height: nat, path: Path |
        CanonicalPath(height, path) && MerkleCodec.ToBinary(height, path) == Ok(bump)
        ensures DecodePath(bump) == Ok((height, path, []))
      {
        PathRoundTrip(height, path, []);
        assert bump + [] == bump;
      }
    }

    method ComputeRoot(txid: Option<bytes>) returns (r: Result<bytes>)
      ensures r == MerkleLookup.ComputeRoot(H, path, txid)
    {
      r := RootOf(H, path, txid);
    }

    method ToBinary() returns (r: Result<bytes>)
      ensures r == MerkleCodec.ToBinary(blockHeight, path)
    {
      hide Varint, WriteAll, EncodeLevel;
      var height := Varint(blockHeight);
      if height.Err? {
        return Err(height.error);
      }
      if |path| > 255 {
        return Err(StructError);
      }
      var levels := WriteLevels(path);
      if levels.Err? {
        return Err(levels.error);
      }
      r := Ok(height.value + [|path|] + levels.value);
    }

    method Trim()
      requires Valid()
      modifies this`path
      ensures Valid() && IsTrimmed(old(path), path)
    {
      path := TrimLevels(path);
      forall h | 0 <= h < |path|
        ensures UniqueOffsets(path[h])
      {
        assert TrimmedLevel(old(path), h, path[h]);
      }
    }

    /** combine: refuses paths of different blocks or roots, otherwise merges and trims. */
    method Combine(other: MerklePath) returns (r: Result<()>)
      requires Valid() && other.Valid()
      modifies this`path
      ensures Valid()
      ensures var root1 := MerkleLookup.ComputeRoot(H, old(path), None);
              var root2 := MerkleLookup.ComputeRoot(other.H, old(other.path), None);
              r.Ok? <==>
              blockHeight == other.blockHeight && root1.Ok? && root1 == root2 && |old(path)| <= |old(other.path)|
      ensures r.Ok? ==> IsTrimmed(Combined(old(path), old(other.path)), path)
      ensures r.Err? ==> path == old(path)
    {
      hide MerkleLookup.ComputeRoot, IsTrimmed, CombinedLevel;
      if blockHeight != other.blockHeight {
        return Err(ValueError);
      }
      var root1 := this.ComputeRoot(None);
      var root2 := other.ComputeRoot(None);
      if root1.Err? || root2.Err? || root1 != root2 {
        return Err(ValueError);
      }
      var combined: Path := [];
      for h := 0 to |path|
        invariant path == old(path) && other.path == old(other.path)
        invariant |combined| == h <= |other.path|
        invariant forall g :: 0 <= g < h ==> combined[g] == CombinedLevel(path[g], other.path[g])
      {
        if h >= |other.path| {
          return Err(IndexError);
        }
        var level := CombineLevel(path[h], other.path[h]);
        combined := combined + [level];
      }
      assert combined == Combined(path, other.path);
      forall h | 0 <= h < |combined|
        ensures UniqueOffsets(combined[h])
      {
        CombinedIsUnique(path[h], other.path[h]);
      }
      path := combined;
      Trim();
      r := Ok(());
    }
  }
}
