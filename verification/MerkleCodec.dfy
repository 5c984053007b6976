/** The BUMP binary form of a Merkle path: varints, leaves and levels. */
module MerkleCodec {
  import opened Wrappers
  import opened Bytes
  import opened MerkleLookup
  import opened MerkleTrim
  import opened VarInt

  // ---------------------------------------------------------------------------
  // Repetition

  /** Writes the items one after the other. */
  function WriteAll<T>(write: T -> Result<bytes>, xs: seq<T>): Result<bytes> {
    if xs == [] then Ok([])
    else
      var first :- write(xs[0]);
      var rest :- WriteAll(write, xs[1..]);
      Ok(first + rest)
  }

  /** Reads n items one after the other. */
  function ReadMany<T>(read: bytes -> Result<(T, bytes)>, n: nat, s: bytes): Result<(seq<T>, bytes)> {
    if n == 0 then Ok(([], s))
    else
      var (x, s1) :- read(s);
      var (xs, s2) :- ReadMany(read, n - 1, s1);
      Ok(([x] + xs, s2))
  }

  /** Reading what was written for x gives x and leaves exactly what followed. */
  ghost predicate ReadsBack<T>(write: T -> Result<bytes>, read: bytes -> Result<(T, bytes)>, x: T) {
    write(x).Ok? && forall rest :: read(write(x).value + rest) == Ok((x, rest))
  }

  lemma {:induction false} ManyReadBack<T>(write: T -> Result<bytes>, read: bytes -> Result<(T, bytes)>, xs: seq<T>,
                                           rest: bytes)
    requires forall x :: x in xs ==> ReadsBack(write, read, x)
    ensures WriteAll(write, xs).Ok?
    ensures ReadMany(read, |xs|, WriteAll(write, xs).value + rest) == Ok((xs, rest))
  {
    if xs == [] {
      assert [] + rest == rest;
    } else {
      assert ReadsBack(write, read, xs[0]);
      ManyReadBack(write, read, xs[1..], rest);
      var first, others := write(xs[0]).value, WriteAll(write, xs[1..]).value;
      assert read(first + (others + rest)) == Ok((xs[0], others + rest));
      assert first + others + rest == first + (others + rest);
      assert [xs[0]] + xs[1..] == xs;
    }
  }

  // ---------------------------------------------------------------------------
  // Leaves and levels

  function Flags(l: Leaf): byte {
    (if l.duplicate then 1 else 0) + (if IsMarked(l) then 2 else 0)
  }

  function EncodeLeaf(l: Leaf): Result<bytes> {
    var offset :- Varint(l.offset);
    if l.duplicate then Ok(offset + [Flags(l)])
    else if l.hash.None? then Err(KeyError)
    else Ok(offset + [Flags(l)] + Reverse(l.hash.value))
  }

  function EncodeLevel(level: seq<Leaf>): Result<bytes> {
    var count :- Varint(|level|);
    var leaves :- WriteAll(EncodeLeaf, level);
    Ok(count + leaves)
  }

  function ToBinary(blockHeight: nat, path: Path): Result<bytes> {
    var height :- Varint(blockHeight);
    if |path| > 255 then Err(StructError)
    else
      var levels :- WriteAll(EncodeLevel, path);
      Ok(height + [|path|] + levels)
  }

  function DecodeLeaf(s: bytes): Result<(Leaf, bytes)> {
    var (offset, s1) := ReadVarint(s);
    var (flags, s2) := ReadUInt8(s1);
    if offset.None? || flags.None? then Err(TypeError)
    else if flags.value % 2 == 1 then Ok((Leaf(offset.value, None, None, true), s2))
    else
      var txid := if flags.value / 2 % 2 == 1 then Some(true) else None;
      var (hash, s3) := Read(s2, 32);
      if hash.None? then Err(TypeError)
      else Ok((Leaf(offset.value, Some(Reverse(hash.value)), txid, false), s3))
  }

  /** list.sort(key=offset): the stable sort. */
  function SortByOffset(level: seq<Leaf>): seq<Leaf> {
    if level == [] then [] else InsertByOffset(SortByOffset(level[..|level| - 1]), level[|level| - 1])
  }

  function InsertByOffset(level: seq<Leaf>, l: Leaf): seq<Leaf> {
    if level != [] && l.offset < level[|level| - 1].offset
    then InsertByOffset(level[..|level| - 1], l) + [level[|level| - 1]]
    else level + [l]
  }

  /** A missing leaf count (the stream has ended) reads as zero leaves. */
  function LeafCount(n: Option<nat>): nat {
    if n.Some? then n.value else 0
  }

  function DecodeLevel(s: bytes): Result<(seq<Leaf>, bytes)> {
    var (n, s1) := ReadVarint(s);
    var (leaves, s2) :- ReadMany(DecodeLeaf, LeafCount(n), s1);
    Ok((SortByOffset(leaves), s2))
  }

  /** from_reader up to the constructor call: block height, levels and what is left unread. */
  function DecodePath(s: bytes): Result<(nat, Path, bytes)> {
    var (blockHeight, s1) := ReadVarint(s);
    var (height, s2) := ReadUInt8(s1);
    if blockHeight.None? || height.None? then Err(TypeError)
    else
      var (levels, s3) :- ReadMany(DecodeLevel, height.value, s2);
      Ok((blockHeight.value, levels, s3))
  }

  // ---------------------------------------------------------------------------
  // Round trip

  /** The form in which from_reader leaves a leaf: a duplicate carries nothing else, any other
      leaf a 32-byte hash and at most a true mark. */
  ghost predicate CanonicalLeaf(l: Leaf) {
    && l.offset <= MAX_UINT64
    && if l.duplicate then l.hash.None? && l.txid.None?
       else l.hash.Some? && |l.hash.value| == 32 && (l.txid.None? || l.txid == Some(true))
  }

  ghost predicate CanonicalLevel(level: seq<Leaf>) {
    && |level| <= MAX_UINT64 && Sorted(level)
    && forall l :: l in level ==> CanonicalLeaf(l)
  }

  ghost predicate CanonicalPath(blockHeight: nat, path: Path) {
    && blockHeight <= MAX_UINT64 && |path| <= 255
    && forall h :: 0 <= h < |path| ==> CanonicalLevel(path[h])
  }

  lemma {:induction false} DecodeLeafStep(s: bytes, l: Leaf, s1: bytes, s2: bytes, rest: bytes)
    requires CanonicalLeaf(l)
    requires ReadVarint(s) == (Some(l.offset), s1) && ReadUInt8(s1) == (Some(Flags(l)), s2)
    requires if l.duplicate then s2 == rest else Read(s2, 32) == (Some(Reverse(l.hash.value)), rest)
    ensures DecodeLeaf(s) == Ok((l, rest))
  {
    if !l.duplicate {
      ReverseReverse(l.hash.value);
    }
  }

  lemma {:induction false} LeafRoundTrip(l: Leaf, rest: bytes)
    requires CanonicalLeaf(l)
    ensures EncodeLeaf(l).Ok? && DecodeLeaf(EncodeLeaf(l).value + rest) == Ok((l, rest))
  {
    var hash := if l.duplicate then [] else Reverse(l.hash.value);
    var s1 := [Flags(l)] + (hash + rest);
    VarintRoundTrip(l.offset, s1);
    var offset := Varint(l.offset).value;
    assert EncodeLeaf(l).value + rest == offset + s1;
    ReadByte(Flags(l), hash + rest);
    if l.duplicate {
      assert hash + rest == rest;
    } else {
      ReadPrefix(hash, rest);
    }
    DecodeLeafStep(offset + s1, l, s1, hash + rest, rest);
  }

  /** Sorting a sorted level does nothing. */
  lemma {:induction false} SortOfSorted(level: seq<Leaf>)
    requires Sorted(level)
    ensures SortByOffset(level) == level
  {
    if level != [] {
      SortOfSorted(level[..|level| - 1]);
    }
  }

  lemma {:induction false} DecodeLevelStep(s: bytes, level: seq<Leaf>, s1: bytes, s2: bytes)
    requires ReadVarint(s) == (Some(|level|), s1) && Sorted(level)
    requires ReadMany(DecodeLeaf, |level|, s1) == Ok((level, s2))
    ensures DecodeLevel(s) == Ok((level, s2))
  {
    SortOfSorted(level);
  }

  lemma {:induction false} LevelRoundTrip(level: seq<Leaf>, rest: bytes)
    requires CanonicalLevel(level)
    ensures EncodeLevel(level).Ok? && DecodeLevel(EncodeLevel(level).value + rest) == Ok((level, rest))
  {
    hide Varint, ReadVarint, EncodeLeaf, DecodeLeaf, WriteAll, ReadMany, DecodeLevel, ReadsBack, CanonicalLeaf;
    forall l | l in level
      ensures ReadsBack(EncodeLeaf, DecodeLeaf, l)
    {
      LeafReadsBack(l);
    }
    ManyReadBack(EncodeLeaf, DecodeLeaf, level, rest);
    var leaves := WriteAll(EncodeLeaf, level).value;
    VarintRoundTrip(|level|, leaves + rest);
    var count := Varint(|level|).value;
    assert count + leaves + rest == count + (leaves + rest);
    DecodeLevelStep(count + (leaves + rest), level, leaves + rest, rest);
  }

  lemma {:induction false} LeafReadsBack(l: Leaf)
    requires CanonicalLeaf(l)
    ensures ReadsBack(EncodeLeaf, DecodeLeaf, l)
  {
    LeafRoundTrip(l, []);
    forall rest
      ensures DecodeLeaf(EncodeLeaf(l).value + rest) == Ok((l, rest))
    {
      LeafRoundTrip(l, rest);
    }
  }

  lemma {:induction false} LevelReadsBack(level: seq<Leaf>)
    requires CanonicalLevel(level)
    ensures ReadsBack(EncodeLevel, DecodeLevel, level)
  {
    LevelRoundTrip(level, []);
    forall rest
      ensures DecodeLevel(EncodeLevel(level).value + rest) == Ok((level, rest))
    {
      LevelRoundTrip(level, rest);
    }
  }

  lemma {:induction false} DecodePathStep(s: bytes, n: nat, s1: bytes, k: byte, s2: bytes, levels: Path, s3: bytes)
    requires ReadVarint(s) == (Some(n), s1) && ReadUInt8(s1) == (Some(k), s2)
    requires ReadMany(DecodeLevel, k, s2) == Ok((levels, s3))
    ensures DecodePath(s) == Ok((n, levels, s3))
  {
  }

  /** Decoding what was encoded gives the same path and leaves what followed it unread. */
  lemma {:induction false} PathRoundTrip(blockHeight: nat, path: Path, rest: bytes)
    requires CanonicalPath(blockHeight, path)
    ensures ToBinary(blockHeight, path).Ok?
    ensures DecodePath(ToBinary(blockHeight, path).value + rest) == Ok((blockHeight, path, rest))
  {
    hide Varint, ReadVarint, ReadUInt8, DecodePath, CanonicalLevel, WriteAll, ReadMany;
    forall level | level in path
      ensures ReadsBack(EncodeLevel, DecodeLevel, level)
    {
      LevelReadsBack(level);
    }
    ManyReadBack(EncodeLevel, DecodeLevel, path, rest);
    var levels := WriteAll(EncodeLevel, path).value;
    VarintRoundTrip(blockHeight, [|path|] + (levels + rest));
    ReadByte(|path|, levels + rest);
    var height := Varint(blockHeight).value;
    assert height + [|path|] + levels + rest == height + ([|path|] + (levels + rest));
    DecodePathStep(height + ([|path|] + (levels + rest)), blockHeight, [|path|] + (levels + rest), |path|,
                   levels + rest, path, rest);
  }

  // ---------------------------------------------------------------------------
  // The bytes

  /** The bytes of a leaf: its offset, a flag byte, and the hash in reverse unless it is a duplicate. */
  lemma {:induction false} LeafBytes(l: Leaf)
    requires l.offset <= MAX_UINT64
    ensures var v := Varint(l.offset);
            && v.Ok?
            && EncodeLeaf(l) == if l.duplicate then Ok(v.value + [if l.txid == Some(true) then 3 else 1])
                                else if l.hash.None? then Err(KeyError)
                                else Ok(v.value + [if l.txid == Some(true) then 2 else 0] + Reverse(l.hash.value))
  {
    VarintBytes(l.offset);
  }

  /** The bytes start with a leaf: a shortest varint, then 1, or 0 or 2 and 32 bytes. */
  ghost predicate StrictLeaf(s: bytes) {
    && StartsShort(s)
    && var s1 := ReadVarint(s).1; s1 != [] && (s1[0] == 1 || (s1[0] in [0, 2] && |s1| >= 33))
  }

  /** n items follow, each read where the one before ended. */
  ghost predicate StrictMany<T>(strict: bytes -> bool, read: bytes -> Result<(T, bytes)>, n: nat, s: bytes) {
    n == 0 || (strict(s) && read(s).Ok? && StrictMany(strict, read, n - 1, read(s).value.1))
  }

  ghost predicate StrictLevel(s: bytes) {
    && StartsShort(s)
    && var (n, s1) := ReadVarint(s);
       && n.Some? && StrictMany(StrictLeaf, DecodeLeaf, n.value, s1)
       && var leaves := ReadMany(DecodeLeaf, n.value, s1); leaves.Ok? ==> Sorted(leaves.value.0)
  }

  ghost predicate StrictPath(s: bytes) {
    && StartsShort(s)
    && var (height, s2) := ReadUInt8(ReadVarint(s).1);
       height.Some? && StrictMany(StrictLevel, DecodeLevel, height.value, s2)
  }

  /** From strict bytes something is read that is good and writes the bytes that were read. */
  ghost predicate WritesBack<T(!new)>(
    write: T -> Result<bytes>, strict: bytes -> bool, read: bytes -> Result<(T, bytes)>, good: T -> bool)
  {
    forall s :: strict(s) && read(s).Ok? ==>
      good(read(s).value.0) && WrittenAs(write, read(s).value.0, s, read(s).value.1)
  }

  predicate WrittenAs<T>(write: T -> Result<bytes>, x: T, s: bytes, rest: bytes) {
    write(x).Ok? && s == write(x).value + rest
  }

  lemma {:induction false} ManyWriteBack<T(!new)>(
    write: T -> Result<bytes>, strict: bytes -> bool, read: bytes -> Result<(T, bytes)>, good: T -> bool,
    n: nat, s: bytes)
    requires WritesBack(write, strict, read, good) && StrictMany(strict, read, n, s)
    ensures ReadMany(read, n, s).Ok?
    ensures var (xs, rest) := ReadMany(read, n, s).value;
            && |xs| == n && (forall x :: x in xs ==> good(x))
            && WriteAll(write, xs).Ok? && s == WriteAll(write, xs).value + rest
  {
    if n > 0 {
      var (x, s1) := read(s).value;
      assert good(x) && WrittenAs(write, x, s, s1);
      ManyWriteBack(write, strict, read, good, n - 1, s1);
      var (xs, rest) := ReadMany(read, n - 1, s1).value;
      assert ([x] + xs)[1..] == xs;
      assert write(x).value + (WriteAll(write, xs).value + rest) == write(x).value + WriteAll(write, xs).value + rest;
    }
  }

  /** What a leaf is read from behind its offset. */
  lemma {:induction false} LeafParts(s: bytes)
    requires StrictLeaf(s)
    ensures DecodeLeaf(s).Ok?
    ensures var ((offset, s1), (l, rest)) := (ReadVarint(s), DecodeLeaf(s).value);
            && CanonicalLeaf(l) && offset == Some(l.offset)
            && s1 == (if l.duplicate then [1] else [if l.txid.Some? then 2 else 0] + Reverse(l.hash.value)) + rest
  {
    hide ReadVarint, Reverse;
    ShortIsWritten(s);
    hide StartsShort, Varint;
    var s1 := ReadVarint(s).1;
    assert s1 == [s1[0]] + s1[1..];
    if s1[0] != 1 {
      var (hash, rest) := Read(s1[1..], 32);
      ReverseReverse(hash.value);
      assert s1[1..] == hash.value + rest;
    }
  }

  lemma {:induction false} LeafWritesBack(s: bytes)
    requires StrictLeaf(s)
    ensures DecodeLeaf(s).Ok? && CanonicalLeaf(DecodeLeaf(s).value.0)
    ensures WrittenAs(EncodeLeaf, DecodeLeaf(s).value.0, s, DecodeLeaf(s).value.1)
  {
    hide ReadVarint, Varint, EncodeLeaf, Reverse, DecodeLeaf;
    assert StartsShort(s);
    ShortIsWritten(s);
    LeafParts(s);
    hide StrictLeaf, StartsShort;
    var (l, rest) := DecodeLeaf(s).value;
    LeafBytes(l);
    var v := Varint(l.offset).value;
    if l.duplicate {
      assert v + ([1] + rest) == v + [1] + rest;
    } else {
      var (flag, hash) := (if l.txid.Some? then 2 else 0, Reverse(l.hash.value));
      assert v + ([flag] + hash + rest) == v + [flag] + hash + rest;
    }
  }

  lemma {:induction false} LeavesWriteBack()
    ensures WritesBack(EncodeLeaf, StrictLeaf, DecodeLeaf, CanonicalLeaf)
  {
    hide StrictLeaf, DecodeLeaf, EncodeLeaf, WrittenAs, CanonicalLeaf;
    forall s | StrictLeaf(s)
      ensures DecodeLeaf(s).Ok? && CanonicalLeaf(DecodeLeaf(s).value.0)
      ensures WrittenAs(EncodeLeaf, DecodeLeaf(s).value.0, s, DecodeLeaf(s).value.1)
    {
      LeafWritesBack(s);
    }
  }

  lemma {:induction false} LevelWritesBack(s: bytes)
    requires StrictLevel(s)
    ensures DecodeLevel(s).Ok? && CanonicalLevel(DecodeLevel(s).value.0)
    ensures WrittenAs(EncodeLevel, DecodeLevel(s).value.0, s, DecodeLevel(s).value.1)
  {
    hide ReadVarint, Varint, StartsShort, StrictLeaf, DecodeLeaf, EncodeLeaf, WriteAll, WritesBack, ReadMany,
      StrictMany, SortByOffset, Sorted, CanonicalLeaf;
    ShortIsWritten(s);
    LeavesWriteBack();
    var (n, s1) := ReadVarint(s);
    ManyWriteBack(EncodeLeaf, StrictLeaf, DecodeLeaf, CanonicalLeaf, n.value, s1);
    var (leaves, rest) := ReadMany(DecodeLeaf, n.value, s1).value;
    SortOfSorted(leaves);
    var count := Varint(n.value).value;
    assert count + (WriteAll(EncodeLeaf, leaves).value + rest) == count + WriteAll(EncodeLeaf, leaves).value + rest;
  }

  lemma {:induction false} LevelsWriteBack()
    ensures WritesBack(EncodeLevel, StrictLevel, DecodeLevel, CanonicalLevel)
  {
    hide StrictLevel, DecodeLevel, EncodeLevel, WrittenAs, CanonicalLevel;
    forall s | StrictLevel(s)
      ensures DecodeLevel(s).Ok? && CanonicalLevel(DecodeLevel(s).value.0)
      ensures WrittenAs(EncodeLevel, DecodeLevel(s).value.0, s, DecodeLevel(s).value.1)
    {
      LevelWritesBack(s);
    }
  }

  /** Strict bytes decode to a canonical path, and encoding it gives exactly the bytes that were read. */
  lemma {:induction false} StrictIsEncoded(s: bytes)
    requires StrictPath(s)
    ensures DecodePath(s).Ok?
    ensures var (blockHeight, path, rest) := DecodePath(s).value;
            && CanonicalPath(blockHeight, path)
            && ToBinary(blockHeight, path).Ok? && s == ToBinary(blockHeight, path).value + rest
  {
    hide ReadVarint, Varint, StartsShort, StrictLevel, DecodeLevel, EncodeLevel, WriteAll, WritesBack, ReadMany,
      StrictMany, CanonicalLevel;
    ShortIsWritten(s);
    LevelsWriteBack();
    var (blockHeight, s1) := ReadVarint(s);
    ManyWriteBack(EncodeLevel, StrictLevel, DecodeLevel, CanonicalLevel, s1[0], s1[1..]);
    var (levels, rest) := ReadMany(DecodeLevel, s1[0], s1[1..]).value;
    var height, written := Varint(blockHeight.value).value, WriteAll(EncodeLevel, levels).value;
    assert s1 == [s1[0]] + s1[1..];
    assert height + ([s1[0]] + (written + rest)) == height + [s1[0]] + written + rest;
  }

  // ---------------------------------------------------------------------------
  // What is written is strict

  /** Whatever follows, the item is written in strict form and read back. */
  ghost predicate StrictlyWritten<T>(
    write: T -> Result<bytes>, strict: bytes -> bool, read: bytes -> Result<(T, bytes)>, x: T)
  {
    ReadsBack(write, read, x) && forall rest :: strict(write(x).value + rest)
  }

  lemma {:induction false} ManyAreStrict<T>(
    write: T -> Result<bytes>, strict: bytes -> bool, read: bytes -> Result<(T, bytes)>, xs: seq<T>, rest: bytes)
    requires forall x :: x in xs ==> StrictlyWritten(write, strict, read, x)
    ensures WriteAll(write, xs).Ok? && StrictMany(strict, read, |xs|, WriteAll(write, xs).value + rest)
  {
    if xs == [] {
      assert [] + rest == rest;
    } else {
      assert StrictlyWritten(write, strict, read, xs[0]);
      ManyAreStrict(write, strict, read, xs[1..], rest);
      var first, others := write(xs[0]).value, WriteAll(write, xs[1..]).value;
      assert read(first + (others + rest)) == Ok((xs[0], others + rest)) && strict(first + (others + rest));
      assert first + others + rest == first + (others + rest);
    }
  }

  lemma {:induction false} LeafIsStrict(l: Leaf)
    requires CanonicalLeaf(l)
    ensures StrictlyWritten(EncodeLeaf, StrictLeaf, DecodeLeaf, l)
  {
    hide ReadsBack, Varint, ReadVarint, EncodeLeaf, DecodeLeaf, StartsShort, Reverse;
    LeafReadsBack(l);
    LeafBytes(l);
    forall rest ensures StrictLeaf(EncodeLeaf(l).value + rest) {
      var hash := if l.duplicate then [] else Reverse(l.hash.value);
      var s1 := [Flags(l)] + (hash + rest);
      assert EncodeLeaf(l).value + rest == Varint(l.offset).value + s1;
      VarintRoundTrip(l.offset, s1);
      WrittenIsShort(l.offset, s1);
      ReadByte(Flags(l), hash + rest);
    }
  }

  lemma {:induction false} LevelIsStrict(level: seq<Leaf>)
    requires CanonicalLevel(level)
    ensures StrictlyWritten(EncodeLevel, StrictLevel, DecodeLevel, level)
  {
    hide ReadsBack, Varint, ReadVarint, EncodeLeaf, DecodeLeaf, StrictLeaf, StartsShort, WriteAll, ReadMany, StrictMany,
      DecodeLevel, CanonicalLeaf;
    LevelReadsBack(level);
    forall l | l in level
      ensures StrictlyWritten(EncodeLeaf, StrictLeaf, DecodeLeaf, l)
    {
      LeafIsStrict(l);
    }
    forall rest ensures EncodeLevel(level).Ok? && StrictLevel(EncodeLevel(level).value + rest) {
      ManyAreStrict(EncodeLeaf, StrictLeaf, DecodeLeaf, level, rest);
      ManyReadBack(EncodeLeaf, DecodeLeaf, level, rest);
      var leaves := WriteAll(EncodeLeaf, level).value;
      VarintRoundTrip(|level|, leaves + rest);
      WrittenIsShort(|level|, leaves + rest);
      var count := Varint(|level|).value;
      assert count + leaves + rest == count + (leaves + rest);
    }
  }

  /** The encoding of a canonical path is strict. */
  lemma {:induction false} EncodedIsStrict(blockHeight: nat, path: Path, rest: bytes)
    requires CanonicalPath(blockHeight, path)
    ensures ToBinary(blockHeight, path).Ok? && StrictPath(ToBinary(blockHeight, path).value + rest)
  {
    hide Varint, ReadVarint, ReadUInt8, StartsShort, WriteAll, ReadMany, StrictMany, CanonicalLevel;
    forall level | level in path
      ensures StrictlyWritten(EncodeLevel, StrictLevel, DecodeLevel, level)
    {
      LevelIsStrict(level);
    }
    ManyAreStrict(EncodeLevel, StrictLevel, DecodeLevel, path, rest);
    var levels := WriteAll(EncodeLevel, path).value;
    VarintRoundTrip(blockHeight, [|path|] + (levels + rest));
    WrittenIsShort(blockHeight, [|path|] + (levels + rest));
    ReadByte(|path|, levels + rest);
    var height := Varint(blockHeight).value;
    assert height + [|path|] + levels + rest == height + ([|path|] + (levels + rest));
  }

  /** Bytes are strict exactly when they start with the encoding of a canonical path. */
  lemma {:induction false} StrictIff(s: bytes)
    ensures StrictPath(s) <==>
            exists blockHeight: nat, path: Path, rest: bytes :: StartsWith(s, blockHeight, path, rest)
  {
    hide StrictPath, CanonicalPath, ToBinary, DecodePath;
    if StrictPath(s) {
      StrictIsEncoded(s);
      var (blockHeight, path, rest) := DecodePath(s).value;
      assert StartsWith(s, blockHeight, path, rest);
    }
    forall blockHeight: nat, path: Path, rest: bytes | StartsWith(s, blockHeight, path, rest)
      ensures StrictPath(s)
    {
      EncodedIsStrict(blockHeight, path, rest);
    }
  }

  ghost predicate StartsWith(s: bytes, blockHeight: nat, path: Path, rest: bytes) {
    && CanonicalPath(blockHeight, path)
    && ToBinary(blockHeight, path).Ok? && s == ToBinary(blockHeight, path).value + rest
  }

  // ---------------------------------------------------------------------------
  // A stream that ends

  function EmptyLevels(k: nat): Path {
    if k == 0 then [] else [[]] + EmptyLevels(k - 1)
  }

  /** Behind the end of the stream every level reads as empty. */
  lemma {:induction false} NothingLeft(k: nat)
    ensures ReadMany(DecodeLevel, k, []) == Ok((EmptyLevels(k), []))
  {
    hide DecodeLevel;
    if k > 0 {
      NothingLeft(k - 1);
      NoLevel();
    }
  }

  lemma {:induction false} NoLevel()
    ensures DecodeLevel([]) == Ok(([], []))
  {
    assert ReadVarint([]) == (None, []);
    hide ReadVarint;
    assert ReadMany(DecodeLeaf, 0, []) == Ok(([], []));
    hide ReadMany;
    assert SortByOffset([]) == [];
  }

  /** So bytes that end behind the height are read as that many empty levels. */
  lemma {:induction false} BareHeight(blockHeight: nat, k: byte)
    requires blockHeight <= MAX_UINT64
    ensures Varint(blockHeight).Ok?
    ensures DecodePath(Varint(blockHeight).value + [k]) == Ok((blockHeight, EmptyLevels(k), []))
  {
    hide Varint, ReadVarint, ReadMany, DecodeLevel;
    VarintRoundTrip(blockHeight, [k]);
    NothingLeft(k);
    ReadByte(k, []);
    assert [k] + [] == [k];
    DecodePathStep(Varint(blockHeight).value + [k], blockHeight, [k], k, [], EmptyLevels(k), []);
  }

  // ---------------------------------------------------------------------------
  // The sort

  /** The leaves at an offset, in the order of the level. */
  function LeavesAt(level: seq<Leaf>, o: nat): seq<Leaf> {
    if level == [] then []
    else LeavesAt(level[..|level| - 1], o) + (if level[|level| - 1].offset == o then [level[|level| - 1]] else [])
  }

  lemma {:induction false} LeavesAtSnoc(front: seq<Leaf>, l: Leaf, o: nat)
    ensures LeavesAt(front + [l], o) == LeavesAt(front, o) + (if l.offset == o then [l] else [])
  {
    assert (front + [l])[..|front|] == front;
  }

  lemma {:induction false} InsertSorts(level: seq<Leaf>, l: Leaf)
    requires Sorted(level)
    ensures Sorted(InsertByOffset(level, l))
    ensures forall x :: x in InsertByOffset(level, l) ==> x == l || x in level
  {
    if level != [] && l.offset < level[|level| - 1].offset {
      var front, last := level[..|level| - 1], level[|level| - 1];
      InsertSorts(front, l);
      AllBelow(InsertByOffset(front, l), last);
    }
  }

  lemma {:induction false} InsertIsStable(level: seq<Leaf>, l: Leaf, o: nat)
    ensures LeavesAt(InsertByOffset(level, l), o) == LeavesAt(level + [l], o)
  {
    hide LeavesAt;
    if level != [] && l.offset < level[|level| - 1].offset {
      var front, last := level[..|level| - 1], level[|level| - 1];
      assert level == front + [last];
      InsertIsStable(front, l, o);
      LeavesAtSnoc(level, l, o);
      LeavesAtSnoc(front, l, o);
      LeavesAtSnoc(front, last, o);
      LeavesAtSnoc(InsertByOffset(front, l), last, o);
    }
  }

  lemma {:induction false} AllBelow(front: seq<Leaf>, last: Leaf)
    requires Sorted(front) && forall x :: x in front ==> x.offset <= last.offset
    ensures Sorted(front + [last])
  {
  }

  /** Reading leaves each level sorted by offset, with all leaves of an offset in the order read. */
  lemma {:induction false} SortIsStable(level: seq<Leaf>, o: nat)
    ensures Sorted(SortByOffset(level)) && LeavesAt(SortByOffset(level), o) == LeavesAt(level, o)
  {
    if level != [] {
      var front, last := level[..|level| - 1], level[|level| - 1];
      assert level == front + [last];
      SortIsStable(front, o);
      InsertSorts(SortByOffset(front), last);
      InsertIsStable(SortByOffset(front), last, o);
      LeavesAtSnoc(SortByOffset(front), last, o);
      LeavesAtSnoc(front, last, o);
    }
  }

  // ---------------------------------------------------------------------------
  // The errors

  lemma {:induction false} ManyRaise<T>(read: bytes -> Result<(T, bytes)>, n: nat, s: bytes, e: Error)
    requires forall t :: read(t).Err? ==> read(t).error == e
    ensures ReadMany(read, n, s).Err? ==> ReadMany(read, n, s).error == e
  {
    if n > 0 && read(s).Ok? {
      ManyRaise(read, n - 1, read(s).value.1, e);
    }
  }

  /** Whatever ends too early, reading raises TypeError. */
  lemma {:induction false} DecodeRaises(s: bytes)
    ensures DecodePath(s).Err? ==> DecodePath(s).error == TypeError
  {
    hide ReadMany, SortByOffset;
    forall t | DecodeLevel(t).Err? ensures DecodeLevel(t).error == TypeError {
      var (n, s1) := ReadVarint(t);
      ManyRaise(DecodeLeaf, LeafCount(n), s1, TypeError);
    }
    var s2 := ReadUInt8(ReadVarint(s).1);
    if s2.0.Some? {
      ManyRaise(DecodeLevel, s2.0.value, s2.1, TypeError);
    }
  }
}
