/** The instructions of a script, byte by byte, and what the walkers of the covenant builders make of
    them: an independent account of the stream that ScriptWalk models step by step. */
module Instructions {
  import opened Wrappers
  import opened Bytes
  import opened ScriptNumber
  import opened ScriptWalk

  /** A single opcode without operand. */
  predicate IsPlainOpcode(b: byte) {
    b == 0x00 || 0x4f <= b <= 0xcf || 0xd4 <= b <= 0xd7 || 0xd9 <= b
  }

  /** OP_PUSHINPUTREF and its siblings: the opcodes with a 36-byte operand. */
  predicate HasRefOperand(b: byte) {
    0xd0 <= b <= 0xd3 || b == 0xd8
  }

  /** One instruction: an opcode, a data push of one of the four kinds, or a ref. */
  predicate IsInstruction(s: bytes) {
    && s != []
    && (|| (IsPlainOpcode(s[0]) && |s| == 1)
        || (0x01 <= s[0] <= 0x4b && |s| - 1 == s[0])
        || (s[0] == 0x4c && |s| >= 2 && |s| - 2 == s[1])
        || (s[0] == 0x4d && |s| >= 3 && |s| - 3 == FromLE(s[1..3]))
        || (s[0] == 0x4e && |s| >= 5 && |s| - 5 == FromLE(s[1..5]))
        || (HasRefOperand(s[0]) && |s| == 37))
  }

  lemma {:induction false} TwoBytes(a: byte, b: byte)
    ensures FromLE([a, b]) == a + 256 * b
  {
    assert [a, b][1..] == [b];
    assert FromLE([b]) == b + 256 * FromLE([]);
  }

  /** The walkers step over one whole instruction, and over nothing else that ends where they stop. */
  lemma {:induction false} InstructionIff(s: bytes)
    requires s != []
    ensures StepLen(s, 0) == Ok(|s|) <==> IsInstruction(s)
  {
    hide FromLE;
    if s[0] == 0x4d && |s| >= 3 {
      TwoBytes(s[1], s[2]);
      assert s[1..3] == [s[1], s[2]];
    }
    if s[0] == 0x4e && |s| < 5 {
      assert 5 + FromLE(Clip(s, 1, 5)) > |s|;
    }
  }

  // ---------------------------------------------------------------------------
  // What one instruction reports

  function BdIn(s: bytes): seq<nat>
    requires IsInstruction(s)
  {
    if s[0] == 0xbd then [0] else []
  }

  function RefIn(s: bytes): seq<(nat, bytes)>
    requires IsInstruction(s)
  {
    if HasRefOperand(s[0]) then [(0, s[1..])] else []
  }

  lemma {:induction false} OneWalk(s: bytes)
    requires IsInstruction(s)
    ensures Complete(s) && Walk(s, 0) == Ok([Instr(0, s[0], if HasRefOperand(s[0]) then s[1..] else [])])
  {
    hide StepLen, FromLE;
    InstructionIff(s);
    hide IsInstruction;
    WalkStep(s, 0);
    WalkEnd(s, |s|);
    EndsStep(s, 0);
    assert EndsFrom(s, |s|);
    assert s[1..|s|] == s[1..];
    RefOperandSize(s);
    NothingPlus([InstrAt(s, 0)]);
  }

  lemma {:induction false} RefOperandSize(s: bytes)
    requires IsInstruction(s)
    ensures s != [] && (IsRefOp(s[0]) <==> HasRefOperand(s[0])) && (HasRefOperand(s[0]) ==> |s| == 37)
  {
  }

  lemma {:induction false} OneReports(s: bytes)
    requires IsInstruction(s)
    ensures Reports(s, BdIn(s), RefIn(s))
  {
    hide Walk, EndsFrom, FromLE;
    OneWalk(s);
    RefOperandSize(s);
    var x := Instr(0, s[0], if HasRefOperand(s[0]) then s[1..] else []);
    BdCons(x, []);
    RefsCons(x, []);
    NoInstructions();
    NothingPlus([x]);
    NothingPlus(BdOf(x));
    NothingPlus(RefOf(x));
  }

  // ---------------------------------------------------------------------------
  // Whole scripts

  function Join(xs: seq<bytes>): bytes {
    if xs == [] then [] else xs[0] + Join(xs[1..])
  }

  predicate AreInstructions(xs: seq<bytes>) {
    forall i :: 0 <= i < |xs| ==> IsInstruction(xs[i])
  }

  /** Where the instructions of a script are 0xbd opcodes. */
  function BdsIn(xs: seq<bytes>): seq<nat>
    requires AreInstructions(xs)
  {
    if xs == [] then [] else BdIn(xs[0]) + AddAll(BdsIn(xs[1..]), |xs[0]|)
  }

  function RefsIn(xs: seq<bytes>): seq<(nat, bytes)>
    requires AreInstructions(xs)
  {
    if xs == [] then [] else RefIn(xs[0]) + AddAllRefs(RefsIn(xs[1..]), |xs[0]|)
  }

  lemma {:induction false} NothingReports()
    ensures Reports([], [], [])
  {
  }

  /** However instructions are put together, the walkers find the 0xbd opcodes and the refs among
      them, and nothing inside an operand. */
  lemma {:induction false} JoinReports(xs: seq<bytes>)
    requires AreInstructions(xs)
    ensures Reports(Join(xs), BdsIn(xs), RefsIn(xs))
  {
    hide Reports, BdIn, RefIn, AddAll, AddAllRefs, IsInstruction;
    if xs == [] {
      NothingReports();
    } else {
      OneReports(xs[0]);
      JoinReports(xs[1..]);
      ReportsCompose(xs[0], BdIn(xs[0]), RefIn(xs[0]), Join(xs[1..]), BdsIn(xs[1..]), RefsIn(xs[1..]));
    }
  }

  lemma {:induction false} StepInDrop(s: bytes, i: nat)
    requires i < |s|
    ensures StepLen(s, i) == StepLen(s[i..], 0)
  {
    assert s == s[..i] + s[i..];
    StepInSuffix(s[..i], s[i..], 0);
  }

  lemma {:induction false} StepInTake(s: bytes, i: nat, n: nat)
    requires i + n <= |s| && n > 0 && StepLen(s, i) == Ok(n)
    ensures IsInstruction(s[i..i + n])
  {
    hide StepLen;
    StepInDrop(s, i);
    var t := s[i..];
    assert t[..n] == s[i..i + n] && t == t[..n] + t[n..];
    StepOfPrefix(t[..n], t[n..]);
    InstructionIff(t[..n]);
  }

  lemma {:induction false} StepOfPrefix(a: bytes, b: bytes)
    requires a != [] && StepLen(a + b, 0) == Ok(|a|)
    ensures StepLen(a, 0) == Ok(|a|)
  {
    hide FromLE;
    if a[0] == 0x4e {
      if |a| >= 5 {
        assert (a + b)[1..5] == a[1..5];
      }
    }
  }

  lemma {:induction false} SplitFrom(s: bytes, i: nat) returns (xs: seq<bytes>)
    requires i <= |s| && EndsFrom(s, i)
    ensures AreInstructions(xs) && Join(xs) == s[i..]
    decreases |s| - i
  {
    hide StepLen, IsInstruction, EndsFrom;
    xs := [];
    if i < |s| {
      EndsStep(s, i);
      var n := StepLen(s, i).value;
      StepInTake(s, i, n);
      var rest := SplitFrom(s, i + n);
      xs := [s[i..i + n]] + rest;
      assert xs[1..] == rest;
      assert s[i..] == s[i..i + n] + s[i + n..];
    }
  }

  /** The walkers come out at the end of a script exactly when it consists of instructions. */
  lemma {:induction false} CompleteIff(s: bytes)
    ensures Complete(s) <==> exists xs :: AreInstructions(xs) && Join(xs) == s
  {
    hide EndsFrom, Walk, AreInstructions, IsInstruction, Join;
    if Complete(s) {
      var xs := SplitFrom(s, 0);
    }
    forall xs | AreInstructions(xs) && Join(xs) == s ensures Complete(s) {
      JoinReports(xs);
    }
  }

  /** An instruction that is cut short: an IndexError where the length byte of 0x4c or a length byte
      of 0x4d is missing, and otherwise the last instruction, with what there is of its operand. */
  lemma {:induction false} CutShort(s: bytes, k: nat)
    requires IsInstruction(s) && 0 < k < |s|
    ensures Walk(s[..k], 0) ==
            if (s[0] == 0x4c && k == 1) || (s[0] == 0x4d && k <= 2) then Err(IndexError)
            else Ok([Instr(0, s[0], if HasRefOperand(s[0]) then s[1..k] else [])])
  {
    hide FromLE;
    var t := s[..k];
    if s[0] == 0x4d && k > 2 {
      TwoBytes(s[1], s[2]);
      assert s[1..3] == [s[1], s[2]];
    }
    if s[0] == 0x4e && k >= 5 {
      assert t[1..5] == s[1..5];
    }
    assert t[1..] == s[1..k];
    WalkStep(t, 0);
    var n := StepLen(t, 0);
    if n.Ok? {
      assert n.value >= k;
      WalkEnd(t, n.value);
      NothingPlus([InstrAt(t, 0)]);
    }
  }

  // ---------------------------------------------------------------------------
  // The instructions written out

  /** All five ref opcodes are reported, with any operand, and the bytes of the operand are not. */
  lemma {:induction false} RefOpcodes(op: byte, ref: bytes)
    requires op in [0xd0, 0xd1, 0xd2, 0xd3, 0xd8] && |ref| == 36
    ensures Reports([op] + ref, [], [(0, ref)])
  {
    hide Reports;
    OneReports([op] + ref);
    assert ([op] + ref)[1..] == ref;
  }

  /** Of the opcodes without operand only 0xbd is reported. */
  lemma {:induction false} PlainOpcodes(op: byte)
    requires op == 0x00 || (op > 0x4e && op !in [0xd0, 0xd1, 0xd2, 0xd3, 0xd8])
    ensures Reports([op], if op == 0xbd then [0] else [], [])
  {
    hide Reports;
    OneReports([op]);
  }

  /** OP_PUSHDATA4 with any data is one instruction that reports nothing. */
  lemma {:induction false} LongPush(d: bytes)
    requires |d| < 0x1_0000_0000
    ensures Reports([0x4e] + ToLE(|d|, 4) + d, [], [])
    ensures Walk([0x4e] + ToLE(|d|, 4) + d, 0) == Ok([Instr(0, 0x4e, [])])
  {
    hide Reports, ToLE, FromLE;
    var s := [0x4e] + ToLE(|d|, 4) + d;
    assert s[1..5] == ToLE(|d|, 4);
    FourBytes();
    LERoundTrip(|d|, 4);
    OneReports(s);
    OneWalk(s);
  }

  lemma {:induction false} FourBytes()
    ensures Pow256(4) == 0x1_0000_0000
  {
    assert Pow256(2) == 0x1_0000 && Pow256(3) == 0x100_0000;
  }

  // ---------------------------------------------------------------------------
  // Data pushes

  /** A script leaves data exactly when it is one instruction up to 0x60 other than 0x50. */
  lemma {:induction false} PushedDataIff(s: bytes)
    ensures PushedData(s).Some? <==> IsInstruction(s) && s[0] <= 0x60 && s[0] != 0x50
  {
    hide FromLE;
  }

  /** The data that the four kinds of push leave, also when a longer kind is used than is needed. */
  lemma {:induction false} PushForms(d: bytes)
    ensures |d| <= 75 ==> PushedData([|d|] + d) == Some(d)
    ensures |d| <= 255 ==> PushedData([0x4c, |d|] + d) == Some(d)
    ensures |d| <= 65535 ==> PushedData([0x4d] + ToLE(|d|, 2) + d) == Some(d)
    ensures |d| <= 0xffff_ffff ==> PushedData([0x4e] + ToLE(|d|, 4) + d) == Some(d)
  {
    hide ToLE, FromLE;
    FourBytes();
    assert Pow256(2) == 0x1_0000;
    if |d| <= 75 {
      assert ([|d|] + d)[1..] == d;
    }
    if |d| <= 255 {
      assert ([0x4c, |d|] + d)[2..] == d;
    }
    if |d| <= 65535 {
      var s := [0x4d] + ToLE(|d|, 2) + d;
      assert s[1..3] == ToLE(|d|, 2) && s[3..] == d;
      LERoundTrip(|d|, 2);
    }
    if |d| <= 0xffff_ffff {
      var s := [0x4e] + ToLE(|d|, 4) + d;
      assert s[1..5] == ToLE(|d|, 4) && s[5..] == d;
      LERoundTrip(|d|, 4);
    }
  }

  /** The opcodes that leave a number of their own: -1 and 1 to 16, 0x81 being the byte of -1. */
  lemma {:induction false} NumberOpcodes(n: nat)
    requires 1 <= n <= 16
    ensures PushedData([0x50 + n]) == Some([n]) && PushedData([0x4f]) == Some([0x81]) && PushedData([0x00]) == Some([])
    ensures DecodeNum([n]) == n && DecodeNum([0x81]) == -1 && DecodeNum([]) == 0
  {
    assert [0x00][1..] == [];
    DecodeOneByte(n);
    DecodeOneByte(0x81);
  }
}
