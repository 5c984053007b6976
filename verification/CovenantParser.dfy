/** The covenant's unrolled Bitcoin transaction parser (docs/brainstorms/gravity-ref-spike/rxd_sim.py)
    and the loop parser it is compared with (validate_anywallet_parse.py). */
module CovenantParser {
  import opened Wrappers
  import opened Bytes

  // ---------------------------------------------------------------------------
  // The code

  /** CScriptNum as the simulator decodes it: little-endian two's complement. */
  function ScriptNum(b: bytes): int {
    if b == [] then 0
    else if b[|b| - 1] >= 0x80 then FromLE(b) - Pow256(|b|)
    else FromLE(b)
  }

  /** OP_SPLIT at pos, then OP_SPLIT of the right part at k; a split out of range fails the script. */
  function Cut(raw: bytes, pos: int, k: nat): Result<bytes> {
    if pos < 0 || pos > |raw| then Err(ValidationError)
    else if k > |raw| - pos then Err(ValidationError)
    else Ok(raw[pos..pos + k])
  }

  function CutNum(raw: bytes, pos: int, k: nat): Result<int> {
    var b :- Cut(raw, pos, k);
    Ok(ScriptNum(b))
  }

  /** An output shape: the bytes before the hash, the hash length, and the bytes after it. */
  datatype Shape = Shape(prefix: bytes, hashLen: nat, suffix: bytes) {
    function Len(): nat {
      |prefix| + hashLen + |suffix|
    }
  }

  const P2WPKH := Shape([0x00, 0x14], 20, [])
  const P2PKH := Shape([0x76, 0xa9, 0x14], 20, [0x88, 0xac])
  const P2SH := Shape([0xa9, 0x14], 20, [0x87])
  const P2TR := Shape([0x51, 0x20], 32, [])

  /** One of the four nested comparisons in scan, for an output at pos whose script has this shape's length. */
  function MatchAt(raw: bytes, pos: nat, shape: Shape, hash: bytes): Result<bool> {
    var pfx :- Cut(raw, pos + 9, |shape.prefix|);
    if pfx != shape.prefix then Ok(false)
    else
      var hh :- Cut(raw, pos + 9 + |shape.prefix|, shape.hashLen);
      if hh != hash then Ok(false)
      else if shape.suffix == [] then Ok(true)
      else
        var sfx :- Cut(raw, pos + 9 + |shape.prefix| + shape.hashLen, |shape.suffix|);
        Ok(sfx == shape.suffix)
  }

  function ShapeOfLen(sl: int): Option<Shape> {
    if sl == 22 then Some(P2WPKH)
    else if sl == 25 then Some(P2PKH)
    else if sl == 23 then Some(P2SH)
    else if sl == 34 then Some(P2TR)
    else None
  }

  /** The inner function scan: the script length at pos, and whether this output pays. */
  function Scan(raw: bytes, pos: nat, hash: bytes, min: int): Result<(int, bool)> {
    var v :- CutNum(raw, pos, 8);
    var sl :- CutNum(raw, pos + 8, 1);
    var shape := ShapeOfLen(sl);
    if shape.None? then Ok((sl, false))
    else
      var matches :- MatchAt(raw, pos, shape.value, hash);
      Ok((sl, matches && v >= min))
  }

  // ---------------------------------------------------------------------------
  // Positions

  /** The position after n inputs that start at pos. */
  function InsEnd(raw: bytes, pos: nat, n: nat): Option<nat>
    decreases n
  {
    if n == 0 then Some(pos)
    else if pos + 36 < |raw| && raw[pos + 36] < 0x80 then InsEnd(raw, pos + 41 + raw[pos + 36], n - 1)
    else None
  }

  /** The position after n outputs that start at pos. */
  function OutsEnd(raw: bytes, pos: nat, n: nat): Option<nat>
    decreases n
  {
    if n == 0 then Some(pos)
    else if pos + 8 < |raw| && raw[pos + 8] < 0x80 then OutsEnd(raw, pos + 9 + raw[pos + 8], n - 1)
    else None
  }

  // ---------------------------------------------------------------------------
  // Transactions

  datatype TxIn = TxIn(outpoint: bytes, script: bytes, sequence: bytes)
  datatype TxOut = TxOut(value: bytes, script: bytes)
  datatype Tx = Tx(version: bytes, ins: seq<TxIn>, outs: seq<TxOut>, lockTime: bytes)

  ghost predicate SmallIn(i: TxIn) {
    |i.outpoint| == 36 && |i.script| < 0x80 && |i.sequence| == 4
  }

  ghost predicate SmallOut(o: TxOut) {
    |o.value| == 8 && |o.script| < 0x80
  }

  ghost predicate SmallIns(ins: seq<TxIn>) {
    forall k :: 0 <= k < |ins| ==> SmallIn(ins[k])
  }

  ghost predicate SmallOuts(outs: seq<TxOut>) {
    forall k :: 0 <= k < |outs| ==> SmallOut(outs[k])
  }

  /** A transaction within the covenant's limits. */
  ghost predicate SmallTx(tx: Tx) {
    && |tx.version| == 4 && |tx.lockTime| == 4
    && 1 <= |tx.ins| <= 4 && 1 <= |tx.outs| <= 4
    && SmallIns(tx.ins) && SmallOuts(tx.outs)
  }

  /** An input whose script length fits one byte. */
  ghost predicate ByteIn(i: TxIn) {
    |i.outpoint| == 36 && |i.script| < 0x100 && |i.sequence| == 4
  }

  ghost predicate ByteOut(o: TxOut) {
    |o.value| == 8 && |o.script| < 0x100
  }

  ghost predicate ByteIns(ins: seq<TxIn>) {
    forall k :: 0 <= k < |ins| ==> ByteIn(ins[k])
  }

  ghost predicate ByteOuts(outs: seq<TxOut>) {
    forall k :: 0 <= k < |outs| ==> ByteOut(outs[k])
  }

  function SerializeIn(i: TxIn): bytes
    requires |i.script| < 0x100
  {
    i.outpoint + [|i.script|] + i.script + i.sequence
  }

  function SerializeIns(ins: seq<TxIn>): bytes
    requires ByteIns(ins)
  {
    if ins == [] then [] else SerializeIn(ins[0]) + SerializeIns(ins[1..])
  }

  function SerializeOut(o: TxOut): bytes
    requires |o.script| < 0x100
  {
    o.value + [|o.script|] + o.script
  }

  function SerializeOuts(outs: seq<TxOut>): bytes
    requires ByteOuts(outs)
  {
    if outs == [] then [] else SerializeOut(outs[0]) + SerializeOuts(outs[1..])
  }

  function Serialize(tx: Tx): bytes
    requires SmallTx(tx)
  {
    tx.version + [|tx.ins|] + SerializeIns(tx.ins) + [|tx.outs|] + SerializeOuts(tx.outs) + tx.lockTime
  }

  predicate HasShape(script: bytes, shape: Shape, hash: bytes) {
    |hash| == shape.hashLen && script == shape.prefix + hash + shape.suffix
  }

  /** The script is one of the four shapes with this hash. */
  predicate HasSomeShape(script: bytes, hash: bytes) {
    HasShape(script, P2WPKH, hash) || HasShape(script, P2PKH, hash) || HasShape(script, P2SH, hash) ||
    HasShape(script, P2TR, hash)
  }

  /** The output sends at least min, read as a signed number, to the hash, in one of the four shapes. */
  predicate Pays(o: TxOut, hash: bytes, min: int) {
    HasSomeShape(o.script, hash) && ScriptNum(o.value) >= min
  }

  // ---------------------------------------------------------------------------
  // Outputs and inputs at a position

  function OutAt(raw: bytes, pos: nat): (o: TxOut)
    requires pos + 8 < |raw| && pos + 9 + raw[pos + 8] <= |raw|
    ensures |o.value| == 8 && |o.script| == raw[pos + 8]
  {
    TxOut(raw[pos..pos + 8], raw[pos + 9..pos + 9 + raw[pos + 8]])
  }

  lemma {:induction false} SliceOfSlice(raw: bytes, p: nat, n: nat, i: nat, j: nat)
    requires p + n <= |raw| && i <= j <= n
    ensures raw[p..p + n][i..j] == raw[p + i..p + j]
  {
    var s, t := raw[p..p + n][i..j], raw[p + i..p + j];
    assert |s| == |t|;
    assert forall k :: 0 <= k < j - i ==> s[k] == raw[p..p + n][i + k] == raw[p + (i + k)] == t[k];
  }

  lemma {:induction false} ThreeParts(script: bytes, prefix: bytes, hash: bytes, suffix: bytes)
    requires |script| == |prefix| + |hash| + |suffix|
    ensures script == prefix + hash + suffix <==>
            (&& script[..|prefix|] == prefix
             && script[|prefix|..|prefix| + |hash|] == hash
             && script[|prefix| + |hash|..] == suffix)
  {
    var a, b := |prefix|, |prefix| + |hash|;
    assert script == script[..a] + script[a..b] + script[b..];
    if script == prefix + hash + suffix {
      assert script[..a] == prefix && script[a..b] == hash && script[b..] == suffix;
    }
  }

  /** A cut inside a script of the bytes is a slice of that script. */
  lemma {:induction false} CutOfScript(raw: bytes, p: nat, n: nat, i: nat, k: nat)
    requires p + n <= |raw| && i + k <= n
    ensures Cut(raw, p + i, k) == Ok(raw[p..p + n][i..i + k])
  {
    SliceOfSlice(raw, p, n, i, i + k);
  }

  lemma {:induction false} MatchIsShape(raw: bytes, pos: nat, shape: Shape, hash: bytes)
    requires pos + 9 + shape.Len() <= |raw|
    ensures MatchAt(raw, pos, shape, hash) == Ok(HasShape(raw[pos + 9..pos + 9 + shape.Len()], shape, hash))
  {
    hide Cut;
    var n, a, b := shape.Len(), |shape.prefix|, |shape.prefix| + shape.hashLen;
    var script := raw[pos + 9..pos + 9 + n];
    CutOfScript(raw, pos + 9, n, 0, a);
    CutOfScript(raw, pos + 9, n, a, shape.hashLen);
    CutOfScript(raw, pos + 9, n, b, |shape.suffix|);
    assert script[b..b + |shape.suffix|] == script[b..];
    if |hash| == shape.hashLen {
      ThreeParts(script, shape.prefix, hash, shape.suffix);
    }
  }

  /** Only one shape has the length of the script. */
  lemma {:induction false} ShapesByLength(script: bytes, hash: bytes)
    ensures var shape := ShapeOfLen(|script|);
            HasSomeShape(script, hash) <==> shape.Some? && HasShape(script, shape.value, hash)
  {
  }

  lemma {:induction false} ByteNum(b: byte)
    ensures ScriptNum([b]) == if b < 0x80 then b else b - 256
  {
    assert FromLE([b]) == b + 256 * FromLE([]);
    assert Pow256(1) == 256;
  }

  /** On an output that lies within the bytes, scan reports its length and whether it pays. */
  lemma {:induction false} ScanIsPays(raw: bytes, pos: nat, hash: bytes, min: int)
    requires pos + 8 < |raw| && raw[pos + 8] < 0x80 && pos + 9 + raw[pos + 8] <= |raw|
    ensures Scan(raw, pos, hash, min) == Ok((raw[pos + 8], Pays(OutAt(raw, pos), hash, min)))
  {
    hide MatchAt, ScriptNum, HasShape;
    var sl, o := raw[pos + 8], OutAt(raw, pos);
    assert raw[pos + 8..pos + 9] == [sl];
    ByteNum(sl);
    ShapesByLength(o.script, hash);
    var shape := ShapeOfLen(sl);
    if shape.Some? {
      assert shape.value.Len() == sl;
      MatchIsShape(raw, pos, shape.value, hash);
    }
  }

  /** Whenever scan succeeds with a length the code accepts, the length byte is there. */
  lemma {:induction false} ScanLength(raw: bytes, pos: nat, hash: bytes, min: int)
    ensures var r := Scan(raw, pos, hash, min);
            r.Ok? ==> pos + 8 < |raw| && var b: int := raw[pos + 8]; r.value.0 == if b < 0x80 then b else b - 256
  {
    hide MatchAt, ScriptNum;
    if pos + 8 < |raw| {
      assert raw[pos + 8..pos + 9] == [raw[pos + 8]];
      ByteNum(raw[pos + 8]);
    }
  }

  // ---------------------------------------------------------------------------
  // The parser against positions

  /** One of n outputs from pos on pays; every one before it lies within the bytes. */
  predicate AnyPays(raw: bytes, pos: nat, n: nat, hash: bytes, min: int)
    decreases n
  {
    && n > 0 && pos + 8 < |raw| && raw[pos + 8] < 0x80 && pos + 9 + raw[pos + 8] <= |raw|
    && (Pays(OutAt(raw, pos), hash, min) || AnyPays(raw, pos + 9 + raw[pos + 8], n - 1, hash, min))
  }

  /** n outputs from pos on end just before the lock time, and one pays unless one was found already. */
  predicate GoodOuts(raw: bytes, pos: nat, n: nat, found: bool, hash: bytes, min: int) {
    OutsEnd(raw, pos, n) == Some(|raw| - 4) && (found || AnyPays(raw, pos, n, hash, min))
  }

  predicate GoodFrom(raw: bytes, pos: nat, hash: bytes, min: int) {
    pos < |raw| && 1 <= raw[pos] <= 4 && GoodOuts(raw, pos + 1, raw[pos], false, hash, min)
  }

  predicate GoodTx(raw: bytes, hash: bytes, min: int) {
    && |raw| > 64 && 1 <= raw[4] <= 4
    && InsEnd(raw, 5, raw[4]).Some? && GoodFrom(raw, InsEnd(raw, 5, raw[4]).value, hash, min)
  }

  /** One output further, the question stays the same. */
  lemma {:induction false} OutsStep(raw: bytes, pos: nat, n: nat, found: bool, hash: bytes, min: int)
    requires n > 0 && |raw| >= 4
    ensures var r := Scan(raw, pos, hash, min);
            GoodOuts(raw, pos, n, found, hash, min) <==>
            (r.Ok? && r.value.0 >= 0 && GoodOuts(raw, pos + 9 + r.value.0, n - 1, found || r.value.1, hash, min))
  {
    hide Scan, Pays;
    ScanLength(raw, pos, hash, min);
    if pos + 8 < |raw| && raw[pos + 8] < 0x80 {
      var next := pos + 9 + raw[pos + 8];
      assert OutsEnd(raw, pos, n) == OutsEnd(raw, next, n - 1);
      if next <= |raw| {
        ScanIsPays(raw, pos, hash, min);
        assert AnyPays(raw, pos, n, hash, min) <==>
               Pays(OutAt(raw, pos), hash, min) || AnyPays(raw, next, n - 1, hash, min);
      } else {
        assert OutsEnd(raw, next, n - 1) != Some(|raw| - 4);
      }
    }
  }

  /** chk_ssl(read_ssl(pos)), and the position after the input. */
  method ReadInput(raw: bytes, pos: nat, ghost n: nat) returns (ok: bool, next: nat)
    requires n > 0
    ensures InsEnd(raw, pos, n) == if ok then InsEnd(raw, next, n - 1) else None
  {
    var ssl := CutNum(raw, pos + 36, 1);
    if pos + 36 < |raw| {
      assert raw[pos + 36..pos + 37] == [raw[pos + 36]];
      ByteNum(raw[pos + 36]);
    }
    if ssl.Err? || ssl.value < 0 || ssl.value > 252 {
      return false, pos;
    }
    return true, pos + 36 + 1 + ssl.value + 4;
  }

  /** chk_sl(scan(pos)), and the position after the output. */
  method ReadOutput(raw: bytes, pos: nat, found: bool, hash: bytes, min: int, ghost n: nat)
    returns (ok: bool, next: nat, foundNow: bool)
    requires n > 0 && |raw| >= 4
    ensures GoodOuts(raw, pos, n, found, hash, min) <==> (ok && GoodOuts(raw, next, n - 1, foundNow, hash, min))
  {
    hide Scan, GoodOuts;
    OutsStep(raw, pos, n, found, hash, min);
    ScanLength(raw, pos, hash, min);
    var r := Scan(raw, pos, hash, min);
    if r.Err? || r.value.0 < 0 || r.value.0 > 252 {
      return false, pos, found;
    }
    return true, pos + 9 + r.value.0, found || r.value.1;
  }

  /** The output half of parse, unrolled as in the source. */
  method ParseOutputs(raw: bytes, start: nat, nOut: nat, hash: bytes, min: int) returns (ok: bool)
    requires 1 <= nOut <= 4 && |raw| >= 4
    ensures ok <==> GoodOuts(raw, start, nOut, false, hash, min)
  {
    hide AnyPays;
    var pos, found := start, false;
    ok, pos, found := ReadOutput(raw, pos, found, hash, min, nOut);
    if !ok {
      return;
    }
    if nOut >= 2 {
      ok, pos, found := ReadOutput(raw, pos, found, hash, min, nOut - 1);
      if !ok {
        return;
      }
    }
    if nOut >= 3 {
      ok, pos, found := ReadOutput(raw, pos, found, hash, min, nOut - 2);
      if !ok {
        return;
      }
    }
    if nOut >= 4 {
      ok, pos, found := ReadOutput(raw, pos, found, hash, min, nOut - 3);
      if !ok {
        return;
      }
    }
    assert GoodOuts(raw, start, nOut, false, hash, min) <==> GoodOuts(raw, pos, 0, found, hash, min);
    assert !AnyPays(raw, pos, 0, hash, min) by { NoOutputsPay(raw, pos, hash, min); }
    if !found {
      return false;
    }
    ok := pos == |raw| - 4;
  }

  lemma {:induction false} NoOutputsPay(raw: bytes, pos: nat, hash: bytes, min: int)
    ensures !AnyPays(raw, pos, 0, hash, min) && OutsEnd(raw, pos, 0) == Some(pos)
  {
  }

  /** parse: true when it returns, false when it raises ScriptFail. */
  method Parse(raw: bytes, hash: bytes, min: int) returns (ok: bool)
    ensures ok <==> GoodTx(raw, hash, min)
  {
    hide GoodOuts, InsEnd, ScriptNum;
    if !(|raw| > 64) {
      return false;
    }
    var nIn := CutNum(raw, 4, 1).value;
    assert raw[4..5] == [raw[4]];
    ByteNum(raw[4]);
    if nIn < 1 || nIn > 4 {
      return false;
    }
    var pos := 5;
    ok, pos := ReadInput(raw, pos, nIn);
    if !ok {
      return;
    }
    if nIn >= 2 {
      ok, pos := ReadInput(raw, pos, nIn - 1);
      if !ok {
        return;
      }
    }
    if nIn >= 3 {
      ok, pos := ReadInput(raw, pos, nIn - 2);
      if !ok {
        return;
      }
    }
    if nIn >= 4 {
      ok, pos := ReadInput(raw, pos, nIn - 3);
      if !ok {
        return;
      }
    }
    assert InsEnd(raw, pos, 0) == Some(pos) by { NoInputs(raw, pos); }
    var nOut := CutNum(raw, pos, 1);
    if nOut.Err? {
      return false;
    }
    assert raw[pos..pos + 1] == [raw[pos]];
    ByteNum(raw[pos]);
    if nOut.value < 1 || nOut.value > 4 {
      return false;
    }
    ok := ParseOutputs(raw, pos + 1, nOut.value, hash, min);
  }

  lemma {:induction false} NoInputs(raw: bytes, pos: nat)
    ensures InsEnd(raw, pos, 0) == Some(pos)
  {
  }

  // ---------------------------------------------------------------------------
  // Positions against transactions

  /** Positions taken within the bytes are those of a list of inputs. */
  lemma {:induction false} InsAt(raw: bytes, pos: nat, n: nat) returns (ins: seq<TxIn>)
    requires InsEnd(raw, pos, n).Some? && InsEnd(raw, pos, n).value <= |raw|
    ensures |ins| == n && SmallIns(ins)
    ensures pos <= InsEnd(raw, pos, n).value && raw[pos..InsEnd(raw, pos, n).value] == SerializeIns(ins)
    decreases n
  {
    if n == 0 {
      ins := [];
    } else {
      var len := raw[pos + 36];
      var next := pos + 41 + len;
      var end := InsEnd(raw, pos, n).value;
      var rest := InsAt(raw, next, n - 1);
      var first := TxIn(raw[pos..pos + 36], raw[pos + 37..pos + 37 + len], raw[pos + 37 + len..next]);
      ins := [first] + rest;
      assert raw[pos..next] == SerializeIn(first);
      assert raw[pos..end] == raw[pos..next] + raw[next..end];
      assert ins[1..] == rest;
    }
  }

  lemma {:induction false} OutsAt(raw: bytes, pos: nat, n: nat, hash: bytes, min: int) returns (outs: seq<TxOut>)
    requires OutsEnd(raw, pos, n).Some? && OutsEnd(raw, pos, n).value <= |raw|
    ensures |outs| == n && SmallOuts(outs)
    ensures pos <= OutsEnd(raw, pos, n).value && raw[pos..OutsEnd(raw, pos, n).value] == SerializeOuts(outs)
    ensures AnyPays(raw, pos, n, hash, min) <==> SomePays(outs, hash, min)
    decreases n
  {
    hide Pays;
    if n == 0 {
      outs := [];
    } else {
      var next := pos + 9 + raw[pos + 8];
      var end := OutsEnd(raw, pos, n).value;
      var rest := OutsAt(raw, next, n - 1, hash, min);
      var first := OutAt(raw, pos);
      outs := [first] + rest;
      assert raw[pos..next] == SerializeOut(first);
      assert raw[pos..end] == raw[pos..next] + raw[next..end];
      assert outs[1..] == rest;
    }
    SomePaysStep(outs, hash, min);
  }

  /** The parts of a serialized output where they stand. */
  lemma {:induction false} OutInPlace(raw: bytes, pre: bytes, o: TxOut, post: bytes)
    requires ByteOut(o) && raw == pre + SerializeOut(o) + post
    ensures var pos, next := |pre|, |pre| + |SerializeOut(o)|;
            && next == pos + 9 + |o.script| <= |raw| && raw[pos + 8] == |o.script|
            && raw[pos..pos + 8] == o.value && raw[pos + 9..next] == o.script
  {
    assert SerializeOut(o)[8] == |o.script|;
  }

  /** Serialized inputs are walked to their end. */
  lemma {:induction false} InsEndOfSerialized(raw: bytes, pre: bytes, ins: seq<TxIn>, post: bytes)
    requires SmallIns(ins)
    requires raw == pre + SerializeIns(ins) + post
    ensures InsEnd(raw, |pre|, |ins|) == Some(|pre| + |SerializeIns(ins)|)
    decreases |ins|
  {
    if ins != [] {
      var first := SerializeIn(ins[0]);
      var rest := SerializeIns(ins[1..]);
      assert raw == (pre + first) + rest + post;
      assert first[36] == |ins[0].script| == raw[|pre| + 36];
      InsEndOfSerialized(raw, pre + first, ins[1..], post);
    }
  }

  ghost predicate SomePays(outs: seq<TxOut>, hash: bytes, min: int) {
    exists o :: o in outs && Pays(o, hash, min)
  }

  lemma {:induction false} SomePaysStep(outs: seq<TxOut>, hash: bytes, min: int)
    ensures outs == [] ==> !SomePays(outs, hash, min)
    ensures outs != [] ==> (SomePays(outs, hash, min) <==> (Pays(outs[0], hash, min) || SomePays(outs[1..], hash, min)))
  {
    hide Pays;
    if outs != [] {
      assert outs[0] in outs && forall o :: o in outs <==> o == outs[0] || o in outs[1..];
    }
  }

  lemma {:induction false} OutsEndStep(raw: bytes, pos: nat, n: nat, o: TxOut, hash: bytes, min: int)
    requires n > 0 && SmallOut(o) && pos + 9 + |o.script| <= |raw| && raw[pos + 8] == |o.script|
    requires raw[pos..pos + 8] == o.value && raw[pos + 9..pos + 9 + |o.script|] == o.script
    ensures OutsEnd(raw, pos, n) == OutsEnd(raw, pos + 9 + |o.script|, n - 1)
    ensures AnyPays(raw, pos, n, hash, min) <==>
            (Pays(o, hash, min) || AnyPays(raw, pos + 9 + |o.script|, n - 1, hash, min))
  {
    hide Pays;
    assert OutAt(raw, pos) == o;
  }

  lemma {:induction false} OutsEndOfSerialized(raw: bytes, pre: bytes, outs: seq<TxOut>, post: bytes, hash: bytes,
                                               min: int)
    requires SmallOuts(outs)
    requires raw == pre + SerializeOuts(outs) + post
    ensures OutsEnd(raw, |pre|, |outs|) == Some(|pre| + |SerializeOuts(outs)|)
    ensures AnyPays(raw, |pre|, |outs|, hash, min) <==> SomePays(outs, hash, min)
    decreases |outs|
  {
    hide Pays, SerializeOut, OutsEnd, AnyPays, SomePays;
    SomePaysStep(outs, hash, min);
    if outs == [] {
      NoOutputsPay(raw, |pre|, hash, min);
    } else {
      var first, rest := SerializeOut(outs[0]), SerializeOuts(outs[1..]);
      assert raw == (pre + first) + rest + post == pre + first + (rest + post);
      OutInPlace(raw, pre, outs[0], rest + post);
      OutsEndStep(raw, |pre|, |outs|, outs[0], hash, min);
      OutsEndOfSerialized(raw, pre + first, outs[1..], post, hash, min);
    }
  }

  ghost predicate TxPays(tx: Tx, hash: bytes, min: int) {
    SomePays(tx.outs, hash, min)
  }

  /** parse accepts exactly the byte strings longer than 64 that serialize a small transaction with
      a paying output. */
  lemma {:induction false} AcceptedIffPayment(raw: bytes, hash: bytes, min: int)
    ensures GoodTx(raw, hash, min) <==>
            (|raw| > 64 && exists tx :: SmallTx(tx) && raw == Serialize(tx) && TxPays(tx, hash, min))
  {
    if GoodTx(raw, hash, min) {
      var tx := AcceptedIsPayment(raw, hash, min);
    }
    if |raw| > 64 {
      forall tx | SmallTx(tx) && raw == Serialize(tx) && TxPays(tx, hash, min)
        ensures GoodTx(raw, hash, min)
      {
        PaymentIffAccepted(tx, hash, min);
      }
    }
  }

  lemma {:induction false} AcceptedIsPayment(raw: bytes, hash: bytes, min: int) returns (tx: Tx)
    requires GoodTx(raw, hash, min)
    ensures SmallTx(tx) && raw == Serialize(tx) && TxPays(tx, hash, min)
  {
    hide SerializeIns, SerializeOuts, InsEnd, OutsEnd, AnyPays, Pays;
    var p := InsEnd(raw, 5, raw[4]).value;
    var ins := InsAt(raw, 5, raw[4]);
    var outs := OutsAt(raw, p + 1, raw[p], hash, min);
    tx := Tx(raw[..4], ins, outs, raw[|raw| - 4..]);
    assert raw == raw[..4] + [raw[4]] + raw[5..p] + [raw[p]] + raw[p + 1..|raw| - 4] + raw[|raw| - 4..];
  }

  /** On a small transaction of more than 64 bytes parse accepts exactly when an output pays. */
  lemma {:induction false} PaymentIffAccepted(tx: Tx, hash: bytes, min: int)
    requires SmallTx(tx) && |Serialize(tx)| > 64
    ensures GoodTx(Serialize(tx), hash, min) <==> TxPays(tx, hash, min)
  {
    hide Pays, AnyPays, SerializeIns, SerializeOuts, InsEnd, OutsEnd;
    var raw := Serialize(tx);
    var pre := tx.version + [|tx.ins|];
    var ins := SerializeIns(tx.ins);
    var mid := pre + ins + [|tx.outs|];
    InsEndOfSerialized(raw, pre, tx.ins, [|tx.outs|] + SerializeOuts(tx.outs) + tx.lockTime);
    assert raw[4] == |tx.ins|;
    assert raw[|pre| + |ins|] == |tx.outs|;
    OutsEndOfSerialized(raw, mid, tx.outs, tx.lockTime, hash, min);
  }

  // ---------------------------------------------------------------------------
  // The loop parser

  /** A Python slice: the part of [a, b) that exists. */
  function PySlice(s: bytes, a: nat, b: nat): bytes
    requires a <= b
  {
    if a > |s| then [] else if b > |s| then s[a..] else s[a..b]
  }

  /** The value of `ok` in scan_4way. */
  predicate FourWay(spk: bytes, sl: nat, hash: bytes) {
    || (sl == 22 && PySlice(spk, 0, 2) == [0x00, 0x14] && PySlice(spk, 2, 22) == hash)
    || (sl == 25
        && PySlice(spk, 0, 3) == [0x76, 0xa9, 0x14] && PySlice(spk, 3, 23) == hash
        && PySlice(spk, 23, 25) == [0x88, 0xac])
    || (sl == 23 && PySlice(spk, 0, 2) == [0xa9, 0x14] && PySlice(spk, 2, 22) == hash && PySlice(spk, 22, 23) == [0x87])
    || (sl == 34 && PySlice(spk, 0, 2) == [0x51, 0x20] && PySlice(spk, 2, 34) == hash)
  }

  function WalkIns(raw: bytes, pos: nat, n: nat): Result<nat>
    decreases n
  {
    if n == 0 then Ok(pos)
    else if pos + 36 >= |raw| then Err(IndexError)
    else WalkIns(raw, pos + 36 + 1 + raw[pos + 36] + 4, n - 1)
  }

  function WalkOuts(raw: bytes, pos: nat, n: nat, found: bool, hash: bytes, min: int): Result<bool>
    decreases n
  {
    if n == 0 then Ok(found)
    else if pos + 8 >= |raw| then Err(IndexError)
    else
      var sl := raw[pos + 8];
      var pays := FourWay(PySlice(raw, pos + 9, pos + 9 + sl), sl, hash) && FromLE(raw[pos..pos + 8]) >= min;
      WalkOuts(raw, pos + 9 + sl, n - 1, found || pays, hash, min)
  }

  function LoopScan(raw: bytes, hash: bytes, min: int): Result<bool> {
    if |raw| <= 4 then Err(IndexError)
    else
      var pos :- WalkIns(raw, 5, raw[4]);
      if pos >= |raw| then Err(IndexError)
      else WalkOuts(raw, pos + 1, raw[pos], false, hash, min)
  }

  /** scan_4way */
  method Scan4Way(raw: bytes, hash: bytes, min: int) returns (r: Result<bool>)
    ensures r == LoopScan(raw, hash, min)
  {
    hide FourWay, PySlice;
    if |raw| <= 4 {
      return Err(IndexError);
    }
    var pos: nat := 4;
    var nIn := raw[pos];
    pos := pos + 1;
    for i := 0 to nIn
      invariant WalkIns(raw, 5, nIn) == WalkIns(raw, pos, nIn - i)
    {
      if pos + 36 >= |raw| {
        return Err(IndexError);
      }
      pos := pos + 36 + 1 + raw[pos + 36] + 4;
    }
    if pos >= |raw| {
      return Err(IndexError);
    }
    var nOut := raw[pos];
    pos := pos + 1;
    ghost var start := pos;
    var found := false;
    for i := 0 to nOut
      invariant WalkOuts(raw, start, nOut, false, hash, min) == WalkOuts(raw, pos, nOut - i, found, hash, min)
    {
      if pos + 8 >= |raw| {
        return Err(IndexError);
      }
      var v := FromLE(raw[pos..pos + 8]);
      var sl := raw[pos + 8];
      var spk := PySlice(raw, pos + 9, pos + 9 + sl);
      if FourWay(spk, sl, hash) && v >= min {
        found := true;
      }
      pos := pos + 9 + sl;
    }
    r := Ok(found);
  }

  /** As Pays, with the value read as an unsigned number. */
  predicate PaysUnsigned(o: TxOut, hash: bytes, min: int) {
    HasSomeShape(o.script, hash) && FromLE(o.value) >= min
  }

  ghost predicate AnyPaysUnsigned(outs: seq<TxOut>, hash: bytes, min: int) {
    exists o :: o in outs && PaysUnsigned(o, hash, min)
  }

  lemma {:induction false} FirstOrLaterPays(outs: seq<TxOut>, hash: bytes, min: int)
    requires outs != []
    ensures AnyPaysUnsigned(outs, hash, min) <==>
            (PaysUnsigned(outs[0], hash, min) || AnyPaysUnsigned(outs[1..], hash, min))
  {
    assert outs[0] in outs && forall o :: o in outs <==> o == outs[0] || o in outs[1..];
  }

  lemma {:induction false} SliceShape(script: bytes, shape: Shape, hash: bytes)
    requires |script| == shape.Len()
    ensures var a, b := |shape.prefix|, |shape.prefix| + shape.hashLen;
            HasShape(script, shape, hash) <==>
            (script[..a] == shape.prefix && script[a..b] == hash && script[b..] == shape.suffix)
  {
    if |hash| == shape.hashLen {
      ThreeParts(script, shape.prefix, hash, shape.suffix);
    }
  }

  /** On a whole script the slices of scan_4way test the same four shapes. */
  lemma {:induction false} FourWayIsShape(script: bytes, hash: bytes)
    ensures FourWay(script, |script|, hash) <==> HasSomeShape(script, hash)
  {
    ShapesByLength(script, hash);
    var shape := ShapeOfLen(|script|);
    if shape.Some? {
      SliceShape(script, shape.value, hash);
      var a, b := |shape.value.prefix|, |shape.value.prefix| + shape.value.hashLen;
      assert script[0..a] == script[..a] && script[b..|script|] == script[b..];
    }
  }

  lemma {:induction false} WalkInsOfSerialized(raw: bytes, pos: nat, n: nat)
    requires InsEnd(raw, pos, n).Some?
    ensures WalkIns(raw, pos, n) == Ok(InsEnd(raw, pos, n).value)
    decreases n
  {
    if n > 0 {
      WalkInsOfSerialized(raw, pos + 41 + raw[pos + 36], n - 1);
    }
  }

  lemma {:induction false} WalkOutsUnfold(raw: bytes, pos: nat, n: nat, found: bool, hash: bytes, min: int)
    requires n > 0 && pos + 8 < |raw|
    ensures var sl := raw[pos + 8];
            var pays := FourWay(PySlice(raw, pos + 9, pos + 9 + sl), sl, hash) && FromLE(raw[pos..pos + 8]) >= min;
            WalkOuts(raw, pos, n, found, hash, min) == WalkOuts(raw, pos + 9 + sl, n - 1, found || pays, hash, min)
  {
    hide FourWay, PySlice, FromLE;
  }

  lemma {:induction false} WholeSlice(s: bytes, a: nat, b: nat)
    requires a <= b <= |s|
    ensures PySlice(s, a, b) == s[a..b]
  {
  }

  lemma {:induction false} WalkOutsStep(raw: bytes, pos: nat, n: nat, found: bool, o: TxOut, hash: bytes, min: int)
    requires n > 0 && ByteOut(o) && pos + 9 + |o.script| <= |raw| && raw[pos + 8] == |o.script|
    requires raw[pos..pos + 8] == o.value && raw[pos + 9..pos + 9 + |o.script|] == o.script
    ensures WalkOuts(raw, pos, n, found, hash, min) ==
            WalkOuts(raw, pos + 9 + |o.script|, n - 1, found || PaysUnsigned(o, hash, min), hash, min)
  {
    hide FourWay, HasSomeShape, PySlice, FromLE, WalkOuts;
    WalkOutsUnfold(raw, pos, n, found, hash, min);
    WholeSlice(raw, pos + 9, pos + 9 + |o.script|);
    FourWayIsShape(o.script, hash);
  }

  lemma {:induction false} WalkNoOuts(raw: bytes, pos: nat, found: bool, hash: bytes, min: int)
    ensures WalkOuts(raw, pos, 0, found, hash, min) == Ok(found)
    ensures !AnyPaysUnsigned([], hash, min)
  {
  }

  lemma {:induction false} WalkOutsOfSerialized(raw: bytes, pre: bytes, outs: seq<TxOut>, post: bytes, n: nat,
                                                found: bool, hash: bytes, min: int)
    requires ByteOuts(outs) && |outs| <= n
    requires raw == pre + SerializeOuts(outs) + post
    ensures WalkOuts(raw, |pre|, n, found, hash, min) ==
            WalkOuts(raw, |pre| + |SerializeOuts(outs)|, n - |outs|,
                     found || AnyPaysUnsigned(outs, hash, min), hash, min)
    decreases |outs|
  {
    hide SerializeOut, PaysUnsigned, AnyPaysUnsigned, WalkOuts;
    if outs == [] {
      WalkNoOuts(raw, |pre|, found, hash, min);
    } else {
      FirstOrLaterPays(outs, hash, min);
      var first, rest := SerializeOut(outs[0]), SerializeOuts(outs[1..]);
      assert raw == (pre + first) + rest + post == pre + first + (rest + post);
      OutInPlace(raw, pre, outs[0], rest + post);
      WalkOutsStep(raw, |pre|, n, found, outs[0], hash, min);
      WalkOutsOfSerialized(raw, pre + first, outs[1..], post, n - 1,
                           found || PaysUnsigned(outs[0], hash, min), hash, min);
    }
  }

  /** On every small transaction the loop parser answers whether an output pays, unsigned. */
  lemma {:induction false} LoopScanOnTx(tx: Tx, hash: bytes, min: int)
    requires SmallTx(tx)
    ensures LoopScan(Serialize(tx), hash, min) == Ok(AnyPaysUnsigned(tx.outs, hash, min))
  {
    hide PaysUnsigned, SerializeIns, SerializeOuts, InsEnd, WalkIns, WalkOuts;
    var raw := Serialize(tx);
    var pre := tx.version + [|tx.ins|];
    var ins := SerializeIns(tx.ins);
    InsEndOfSerialized(raw, pre, tx.ins, [|tx.outs|] + SerializeOuts(tx.outs) + tx.lockTime);
    WalkInsOfSerialized(raw, |pre|, |tx.ins|);
    assert raw[4] == |tx.ins|;
    assert raw[|pre| + |ins|] == |tx.outs|;
    WalkOutsOfSerialized(raw, pre + ins + [|tx.outs|], tx.outs, tx.lockTime, |tx.outs|, false, hash, min);
    WalkNoOuts(raw, |raw| - 4, AnyPaysUnsigned(tx.outs, hash, min), hash, min);
  }

  /** Whatever the covenant accepts the loop parser finds as well. */
  lemma {:induction false} AcceptedByLoop(raw: bytes, hash: bytes, min: int)
    ensures GoodTx(raw, hash, min) ==> LoopScan(raw, hash, min) == Ok(true)
  {
    hide LoopScan, GoodTx, HasSomeShape;
    if GoodTx(raw, hash, min) {
      var tx := AcceptedIsPayment(raw, hash, min);
      LoopScanOnTx(tx, hash, min);
      var o :| o in tx.outs && Pays(o, hash, min);
      assert PaysUnsigned(o, hash, min);
    }
  }

  /** On a small transaction of more than 64 bytes the two parsers agree exactly when an output pays
      by the covenant's reading, or every output to the hash with a value of 2^63 or more is below
      the minimum as an unsigned number, too. */
  lemma {:induction false} ParsersAgreeIff(tx: Tx, hash: bytes, min: int)
    requires SmallTx(tx) && |Serialize(tx)| > 64
    ensures (GoodTx(Serialize(tx), hash, min) <==> LoopScan(Serialize(tx), hash, min) == Ok(true)) <==>
            (|| TxPays(tx, hash, min)
             || forall o :: o in tx.outs && HasSomeShape(o.script, hash) && o.value[7] >= 0x80 ==>
                   FromLE(o.value) < min)
  {
    hide LoopScan, GoodTx, HasSomeShape, Serialize, FromLE;
    PaymentIffAccepted(tx, hash, min);
    LoopScanOnTx(tx, hash, min);
    forall o | o in tx.outs
      ensures |o.value| == 8
      ensures o.value[7] < 0x80 ==> (Pays(o, hash, min) <==> PaysUnsigned(o, hash, min))
      ensures PaysUnsigned(o, hash, min) <==> HasSomeShape(o.script, hash) && FromLE(o.value) >= min
    {
      assert SmallOut(o);
    }
    if AnyPaysUnsigned(tx.outs, hash, min) && !TxPays(tx, hash, min) {
      var o :| o in tx.outs && PaysUnsigned(o, hash, min);
      assert !Pays(o, hash, min);
    }
  }

  /** Zero bytes. */
  function Blank(n: nat): (s: bytes)
    ensures |s| == n
  {
    if n == 0 then [] else [0] + Blank(n - 1)
  }

  /** One input without a script and one P2WPKH output worth 2^63. */
  function HugeTx(hash: bytes): (tx: Tx)
    requires |hash| == 20
    ensures SmallTx(tx)
  {
    Tx(Blank(4), [TxIn(Blank(36), [], Blank(4))], [TxOut(Blank(7) + [0x80], [0x00, 0x14] + hash)], Blank(4))
  }

  lemma {:induction false} HugeValue()
    ensures FromLE(Blank(7) + [0x80]) == 0x8000_0000_0000_0000
    ensures ScriptNum(Blank(7) + [0x80]) == -0x8000_0000_0000_0000
  {
    BlankIsZero(7);
    FromLEAppend(Blank(7), 0x80);
    WidthOfValue();
  }

  lemma {:induction false} WidthOfValue()
    ensures Pow256(7) == 0x100_0000_0000_0000 && Pow256(8) == 0x1_0000_0000_0000_0000
  {
    assert Pow256(2) == 0x1_0000 && Pow256(3) == 0x100_0000;
    assert Pow256(4) == 0x1_0000_0000 && Pow256(5) == 0x100_0000_0000;
    assert Pow256(6) == 0x1_0000_0000_0000;
  }

  lemma {:induction false} BlankIsZero(n: nat)
    ensures FromLE(Blank(n)) == 0
  {
    if n > 0 {
      BlankIsZero(n - 1);
      assert Blank(n)[1..] == Blank(n - 1);
    }
  }

  lemma {:induction false} HugeSize(hash: bytes)
    requires |hash| == 20
    ensures |Serialize(HugeTx(hash))| == 82
  {
    var tx := HugeTx(hash);
    assert tx.ins[1..] == [] && tx.outs[1..] == [];
    assert |SerializeIns(tx.ins)| == |SerializeIn(tx.ins[0])| + |SerializeIns([])| == 41;
    assert |SerializeOuts(tx.outs)| == |SerializeOut(tx.outs[0])| + |SerializeOuts([])| == 31;
  }

  /** For every hash of 20 bytes and every minimum from 1 - 2^63 to 2^63 the two parsers differ on it:
      the covenant refuses, the loop parser finds the payment. */
  lemma {:induction false} ParsersDiffer(hash: bytes, min: int)
    requires |hash| == 20 && -0x8000_0000_0000_0000 < min <= 0x8000_0000_0000_0000
    ensures var raw := Serialize(HugeTx(hash));
            |raw| == 82 && !GoodTx(raw, hash, min) && LoopScan(raw, hash, min) == Ok(true)
  {
    hide LoopScan, GoodTx, Serialize, FromLE, ScriptNum;
    var tx := HugeTx(hash);
    HugeSize(hash);
    HugeValue();
    PaymentIffAccepted(tx, hash, min);
    LoopScanOnTx(tx, hash, min);
    assert HasShape(tx.outs[0].script, P2WPKH, hash);
    assert tx.outs[0] in tx.outs && PaysUnsigned(tx.outs[0], hash, min);
  }
}
