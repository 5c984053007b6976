/** The covenant simulator's reading of script numbers (docs/brainstorms/gravity-ref-spike/rxd_sim.py),
    two's complement, against the sign-and-magnitude reading that it describes. */
module ScriptNumReadings {
  import opened Arithmetic
  import opened Bytes
  import opened CovenantParser
  import opened ScriptNumber

  lemma {:induction false} SplitSign(b: bytes)
    requires b != []
    ensures var last := |b| - 1; var p, rest := Pow256(last), FromLE(b[..last]);
            && 0 <= rest < p
            && FromLE(b) == rest + b[last] * p && Pow256(|b|) == 256 * p
            && FromLE(b[..last] + [if b[last] >= 0x80 then b[last] - 0x80 else b[last]])
               == rest + (if b[last] >= 0x80 then b[last] - 0x80 else b[last]) * p
  {
    var last := |b| - 1;
    SplitLast(b);
    FromLEAppend(b[..last], if b[last] >= 0x80 then b[last] - 0x80 else b[last]);
  }

  /** Below 0x80 the last byte is read alike; above, one reading is negative and the other not positive. */
  lemma {:induction false} BothReadings(b: bytes)
    requires b != []
    ensures var last := |b| - 1; var p, rest := Pow256(last), FromLE(b[..last]);
            && 0 <= rest < p
            && (b[last] < 0x80 ==> ScriptNum(b) == DecodeNum(b) == rest + b[last] * p)
            && (b[last] >= 0x80 ==> ScriptNum(b) == rest + b[last] * p - 256 * p)
            && (b[last] >= 0x80 ==> DecodeNum(b) == 0 - rest - (b[last] - 0x80) * p)
  {
    hide FromLE, Pow256;
    SplitSign(b);
  }

  /** The two readings agree exactly on the empty string, on bytes without the sign bit, and on a
      last byte 0xc0 above zeros. */
  lemma {:induction false} ReadingsAgreeIff(b: bytes)
    ensures ScriptNum(b) == DecodeNum(b) <==>
            (|| b == [] || b[|b| - 1] < 0x80
             || (b[|b| - 1] == 0xc0 && FromLE(b[..|b| - 1]) == 0))
  {
    hide FromLE, Pow256, ScriptNum, DecodeNum;
    if b == [] {
      EmptyReadings();
    } else {
      BothReadings(b);
      var last := |b| - 1;
      if b[last] >= 0x80 {
        SignedAgreeIff(b[last], FromLE(b[..last]), Pow256(last));
      }
    }
  }

  lemma {:induction false} EmptyReadings()
    ensures ScriptNum([]) == 0 == DecodeNum([])
  {
  }

  lemma {:induction false} SignedAgreeIff(x: int, rest: nat, p: nat)
    requires rest < p
    ensures rest + x * p - 256 * p == 0 - rest - (x - 0x80) * p <==> x == 0xc0 && rest == 0
  {
    if x < 0xc0 {
      MulMonotone(x, 0xbf, p);
    } else {
      MulMonotone(0xc0, x, p);
      if x > 0xc0 {
        MulMonotone(0xc1, x, p);
      }
    }
  }

  /** The byte 0x80 is -128 to the simulator and zero by sign and magnitude; it is the only length
      byte on which the test for a negative length comes out differently. */
  lemma {:induction false} LengthByteIff(b: byte)
    ensures ScriptNum([0x80]) == -128 && DecodeNum([0x80]) == 0
    ensures (ScriptNum([b]) >= 0 <==> DecodeNum([b]) >= 0) <==> b != 0x80
  {
    ByteNum(b);
    DecodeOneByte(b);
    ByteNum(0x80);
    DecodeOneByte(0x80);
  }

  /** What this does to the parser: a transaction whose first input has an empty script, its length
      zero written as 0x80, is refused, whoever is paid. */
  lemma {:induction false} NegativeZeroRefused(tx: Tx, hash: bytes, min: int)
    requires SmallTx(tx) && tx.ins[0].script == []
    ensures var raw := Serialize(tx);
            |raw| > 41 && raw[41] == 0 && !GoodTx(raw[41 := 0x80], hash, min)
    ensures DecodeNum([0x80]) == DecodeNum([0]) == 0
  {
    var raw := Serialize(tx);
    var pre := tx.version + [|tx.ins|] + tx.ins[0].outpoint;
    assert SmallIn(tx.ins[0]);
    assert raw[..41] == pre && raw[41] == 0;
    DecodeOneByte(0x80);
    DecodeOneByte(0);
  }

  /** The comparison of an eight-byte value with the minimum comes out alike for all values exactly
      when the minimum is positive or not above -2^63. */
  lemma {:induction false} AmountTestIff(min: int)
    ensures (forall v: bytes :: |v| == 8 ==> (ScriptNum(v) >= min <==> DecodeNum(v) >= min)) <==>
            (min > 0 || min <= -0x8000_0000_0000_0000)
  {
    hide ScriptNum, DecodeNum, FromLE, Pow256;
    WidthOfValue();
    forall v: bytes | |v| == 8 && (min > 0 || min <= -0x8000_0000_0000_0000)
      ensures ScriptNum(v) >= min <==> DecodeNum(v) >= min
    {
      BothReadings(v);
    }
    var v := Blank(7) + [0x80];
    HugeValue();
    BothReadings(v);
    assert v[..7] == Blank(7);
    BlankIsZero(7);
    assert |v| == 8 && DecodeNum(v) == 0;
  }
}
