/** What scan_4way accepts, on every byte string (validate_anywallet_parse.py). It checks no minimal
    size, no number of inputs or outputs, no script length and no end, and Python's slices let the
    script of the last output be cut short. */
module LoopParser {
  import opened Wrappers
  import opened Bytes
  import opened CovenantParser

  // ---------------------------------------------------------------------------
  // Inputs

  lemma {:induction false} WalkInsOfBytes(raw: bytes, pre: bytes, ins: seq<TxIn>, post: bytes)
    requires ByteIns(ins) && raw == pre + SerializeIns(ins) + post
    ensures WalkIns(raw, |pre|, |ins|) == Ok(|pre| + |SerializeIns(ins)|)
    decreases |ins|
  {
    if ins != [] {
      var first := SerializeIn(ins[0]);
      var rest := SerializeIns(ins[1..]);
      assert raw == (pre + first) + rest + post;
      assert first[36] == |ins[0].script| == raw[|pre| + 36];
      WalkInsOfBytes(raw, pre + first, ins[1..], post);
    }
  }

  function InAt(raw: bytes, pos: nat): (i: TxIn)
    requires pos + 36 < |raw| && pos + 41 + raw[pos + 36] <= |raw|
    ensures ByteIn(i) && |i.script| == raw[pos + 36]
  {
    var len := raw[pos + 36];
    TxIn(raw[pos..pos + 36], raw[pos + 37..pos + 37 + len], raw[pos + 37 + len..pos + 41 + len])
  }

  lemma {:induction false} InAtSerialized(raw: bytes, pos: nat)
    requires pos + 36 < |raw| && pos + 41 + raw[pos + 36] <= |raw|
    ensures raw[pos..pos + 41 + raw[pos + 36]] == SerializeIn(InAt(raw, pos))
  {
  }

  lemma {:induction false} InsWalked(raw: bytes, pos: nat, n: nat) returns (ins: seq<TxIn>)
    requires WalkIns(raw, pos, n).Ok? && WalkIns(raw, pos, n).value <= |raw|
    ensures |ins| == n && ByteIns(ins)
    ensures pos <= WalkIns(raw, pos, n).value && raw[pos..WalkIns(raw, pos, n).value] == SerializeIns(ins)
    decreases n
  {
    hide InAt, SerializeIn;
    if n == 0 {
      ins := [];
    } else {
      var next := pos + 41 + raw[pos + 36];
      var end := WalkIns(raw, pos, n).value;
      var rest := InsWalked(raw, next, n - 1);
      ins := [InAt(raw, pos)] + rest;
      InAtSerialized(raw, pos);
      assert raw[pos..end] == raw[pos..next] + raw[next..end];
      assert ins[1..] == rest;
    }
  }

  // ---------------------------------------------------------------------------
  // A last output that is cut short

  /** The bytes of an output that end inside its script. */
  predicate CutOut(tail: bytes) {
    8 < |tail| && |tail| - 9 < tail[8]
  }

  /** What is there of the script is a P2WPKH or P2TR prefix and the whole hash, which then is too
      short for the length byte. */
  predicate CutPays(tail: bytes, hash: bytes, min: int)
    requires CutOut(tail)
  {
    && ((tail[8] == 22 && tail[9..] == [0x00, 0x14] + hash) || (tail[8] == 34 && tail[9..] == [0x51, 0x20] + hash))
    && FromLE(tail[..8]) >= min
  }

  lemma {:induction false} PrefixThenHash(spk: bytes, prefix: bytes, n: nat, hash: bytes)
    requires |prefix| == 2 <= n && |spk| <= n
    ensures PySlice(spk, 0, 2) == prefix && PySlice(spk, 2, n) == hash <==> spk == prefix + hash
  {
    if |spk| >= 2 {
      assert spk == spk[..2] + spk[2..];
      assert spk[0..2] == spk[..2] && spk[2..|spk|] == spk[2..];
    }
  }

  /** On a script that is cut short only the shapes that end with the hash can match. */
  lemma {:induction false} CutFourWay(spk: bytes, sl: nat, hash: bytes)
    requires |spk| < sl
    ensures FourWay(spk, sl, hash) <==>
            (sl == 22 && spk == [0x00, 0x14] + hash) || (sl == 34 && spk == [0x51, 0x20] + hash)
  {
    if sl == 22 {
      PrefixThenHash(spk, [0x00, 0x14], 22, hash);
    } else if sl == 34 {
      PrefixThenHash(spk, [0x51, 0x20], 34, hash);
    }
  }

  lemma {:induction false} WalkCutOut(raw: bytes, pos: nat, n: nat, found: bool, hash: bytes, min: int)
    requires pos <= |raw| && CutOut(raw[pos..]) && n > 0
    ensures WalkOuts(raw, pos, n, found, hash, min).Ok? <==> n == 1
    ensures n == 1 ==> WalkOuts(raw, pos, n, found, hash, min) == Ok(found || CutPays(raw[pos..], hash, min))
  {
    hide FourWay, FromLE;
    var tail := raw[pos..];
    var sl := raw[pos + 8];
    assert tail[8] == sl && tail[9..] == raw[pos + 9..] == PySlice(raw, pos + 9, pos + 9 + sl);
    assert tail[..8] == raw[pos..pos + 8];
    CutFourWay(tail[9..], sl, hash);
  }

  // ---------------------------------------------------------------------------
  // Outputs

  /** A walk that succeeds reads whole outputs, all of them or all but a last one that is cut short. */
  lemma {:induction false} OutsWalked(raw: bytes, pos: nat, n: nat, found: bool, hash: bytes, min: int)
    returns (outs: seq<TxOut>, end: nat)
    requires pos <= |raw| && WalkOuts(raw, pos, n, found, hash, min).Ok?
    ensures pos <= end <= |raw| && ByteOuts(outs) && raw[pos..end] == SerializeOuts(outs)
    ensures |outs| == n || (|outs| + 1 == n && CutOut(raw[end..]))
    decreases n
  {
    hide FourWay, PySlice, FromLE;
    outs, end := [], pos;
    if n > 0 {
      var next := pos + 9 + raw[pos + 8];
      if next <= |raw| {
        var first := OutAt(raw, pos);
        var sl := raw[pos + 8];
        var pays := FourWay(PySlice(raw, pos + 9, pos + 9 + sl), sl, hash) && FromLE(raw[pos..pos + 8]) >= min;
        var rest, e := OutsWalked(raw, next, n - 1, found || pays, hash, min);
        outs, end := [first] + rest, e;
        assert raw[pos..next] == SerializeOut(first);
        assert raw[pos..end] == raw[pos..next] + raw[next..end];
        assert outs[1..] == rest;
      } else {
        assert raw[pos..][8] == raw[pos + 8];
        WalkCutOut(raw, pos, n, found, hash, min);
      }
    }
  }

  // ---------------------------------------------------------------------------
  // Whole byte strings

  /** How scan_4way reads bytes as a transaction that claims n outputs: whole inputs, then either n
      whole outputs with anything behind them, or n - 1 of them and one that is cut short. What is
      behind the whole outputs takes the place of the lock time. */
  ghost predicate ReadAs(raw: bytes, tx: Tx, n: byte) {
    && |tx.version| == 4 && |tx.ins| < 0x100 && ByteIns(tx.ins) && ByteOuts(tx.outs)
    && raw == tx.version + [|tx.ins|] + SerializeIns(tx.ins) + [n] + SerializeOuts(tx.outs) + tx.lockTime
    && (|tx.outs| == n || (|tx.outs| + 1 == n && CutOut(tx.lockTime)))
  }

  ghost predicate ReadPays(tx: Tx, n: byte, hash: bytes, min: int) {
    AnyPaysUnsigned(tx.outs, hash, min) || (|tx.outs| < n && CutOut(tx.lockTime) && CutPays(tx.lockTime, hash, min))
  }

  lemma {:induction false} ReadAnswer(raw: bytes, tx: Tx, n: byte, hash: bytes, min: int)
    requires ReadAs(raw, tx, n)
    ensures LoopScan(raw, hash, min) == Ok(ReadPays(tx, n, hash, min))
  {
    hide SerializeIns, SerializeOuts, WalkIns, WalkOuts, AnyPaysUnsigned, CutPays;
    var pre := tx.version + [|tx.ins|];
    var ins, outs := SerializeIns(tx.ins), SerializeOuts(tx.outs);
    var mid := pre + ins + [n];
    assert raw == pre + ins + ([n] + outs + tx.lockTime);
    WalkInsOfBytes(raw, pre, tx.ins, [n] + outs + tx.lockTime);
    assert raw[4] == |tx.ins| && raw[|pre| + |ins|] == n;
    var end, paid := |mid| + |outs|, AnyPaysUnsigned(tx.outs, hash, min);
    WalkOutsOfSerialized(raw, mid, tx.outs, tx.lockTime, n, false, hash, min);
    assert raw[end..] == tx.lockTime;
    if |tx.outs| == n {
      WalkNoOuts(raw, end, paid, hash, min);
    } else {
      WalkCutOut(raw, end, 1, paid, hash, min);
    }
  }

  lemma {:induction false} ReadBack(raw: bytes, hash: bytes, min: int) returns (tx: Tx, n: byte)
    requires LoopScan(raw, hash, min).Ok?
    ensures ReadAs(raw, tx, n)
  {
    hide SerializeIns, SerializeOuts, WalkIns, WalkOuts;
    var p := WalkIns(raw, 5, raw[4]).value;
    n := raw[p];
    var ins := InsWalked(raw, 5, raw[4]);
    var outs, end := OutsWalked(raw, p + 1, n, false, hash, min);
    tx := Tx(raw[..4], ins, outs, raw[end..]);
    assert raw == raw[..4] + [raw[4]] + raw[5..p] + [raw[p]] + raw[p + 1..end] + raw[end..];
  }

  /** On every byte string: scan_4way answers exactly when the bytes read as such a transaction, and
      answers True exactly when one of its outputs pays, with unsigned values. */
  lemma {:induction false} LoopAcceptsIff(raw: bytes, hash: bytes, min: int)
    ensures LoopScan(raw, hash, min).Ok? <==> exists tx, n :: ReadAs(raw, tx, n)
    ensures LoopScan(raw, hash, min) == Ok(true) <==>
            exists tx, n :: ReadAs(raw, tx, n) && ReadPays(tx, n, hash, min)
  {
    hide LoopScan, ReadAs, ReadPays;
    if LoopScan(raw, hash, min).Ok? {
      var tx, n := ReadBack(raw, hash, min);
      ReadAnswer(raw, tx, n, hash, min);
    }
    forall tx, n | ReadAs(raw, tx, n)
      ensures LoopScan(raw, hash, min) == Ok(ReadPays(tx, n, hash, min))
    {
      ReadAnswer(raw, tx, n, hash, min);
    }
  }

  /** No input and one output, of which the script may be cut short. */
  function Bare(script: bytes, length: byte): bytes {
    Blank(4) + [0, 1] + Blank(8) + [length] + script
  }

  /** The covenant never accepts these; the loop parser does: 37 bytes without an input, and an output
      that claims a 32-byte P2TR hash and ends with the 20 bytes of the hash. */
  lemma {:induction false} LooseAccepted(hash: bytes, min: int)
    requires |hash| == 20 && min <= 0
    ensures var raw := Bare([0x00, 0x14] + hash, 22);
            |raw| == 37 && LoopScan(raw, hash, min) == Ok(true) && !GoodTx(raw, hash, min)
    ensures var raw := Bare([0x51, 0x20] + hash, 34);
            |raw| == 37 && LoopScan(raw, hash, min) == Ok(true) && !GoodTx(raw, hash, min)
  {
    hide LoopScan, Blank, FromLE;
    BlankIsZero(8);
    var o := TxOut(Blank(8), [0x00, 0x14] + hash);
    var raw := Bare(o.script, 22);
    assert HasShape(o.script, P2WPKH, hash) && o in [o];
    assert SerializeOuts([o]) == SerializeOut(o) by { assert [o][1..] == []; }
    var whole := Tx(Blank(4), [], [o], []);
    assert raw == whole.version + [0] + SerializeIns([]) + [1] + SerializeOuts([o]) + [];
    ReadAnswer(raw, whole, 1, hash, min);
    var tail := Blank(8) + [34] + ([0x51, 0x20] + hash);
    var raw' := Bare([0x51, 0x20] + hash, 34);
    assert tail[8] == 34 && tail[..8] == Blank(8) && tail[9..] == [0x51, 0x20] + hash;
    var cut := Tx(Blank(4), [], [], tail);
    assert raw' == cut.version + [0] + SerializeIns([]) + [1] + SerializeOuts([]) + tail;
    ReadAnswer(raw', cut, 1, hash, min);
  }
}
