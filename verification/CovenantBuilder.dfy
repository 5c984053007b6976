/** Filled covenant templates, holder scripts, and the guards that re-walk them
    (docs/brainstorms/gravity-ref-spike/build_htlc_covenant_spk.py and build_covenant.py). */
module CovenantBuilder {
  import opened Wrappers
  import opened Bytes
  import opened ScriptWalk
  import opened ScriptNumber

  // ---------------------------------------------------------------------------
  // Templates

  /** A compiled template between its placeholders: code, a placeholder for a pushed value, or a
      ref opcode followed by the placeholder of its raw 36-byte operand. */
  datatype Part = Code(code: bytes) | Data(name: string) | Number(name: string) | RefOf(op: byte, name: string)

  /** The values to fill in. */
  datatype Subs = Subs(data: map<string, bytes>, numbers: map<string, int>)

  ghost predicate Fits(p: Part, subs: Subs) {
    match p
    case Code(code) => Complete(code)
    case Data(name) => name in subs.data && |subs.data[name]| <= 65535
    case Number(name) => name in subs.numbers && |ScriptNumBytes(subs.numbers[name])| <= 65535
    case RefOf(op, name) => IsRefOp(op) && name in subs.data && |subs.data[name]| == 36
  }

  ghost predicate AllFit(t: seq<Part>, subs: Subs) {
    forall i :: 0 <= i < |t| ==> Fits(t[i], subs)
  }

  /** A part fits exactly when its code is whole instructions, its value is there and its push does
      not fail, and its ref opcode is one and its operand has 36 bytes. */
  lemma {:induction false} FitsIff(p: Part, subs: Subs)
    ensures Fits(p, subs) <==>
            match p
            case Code(code) => Complete(code)
            case Data(name) => name in subs.data && Push(subs.data[name]).Ok?
            case Number(name) => name in subs.numbers && MinimalNumPush(subs.numbers[name]).Ok?
            case RefOf(op, name) =>
              op in [0xd0, 0xd1, 0xd2, 0xd3, 0xd8] && name in subs.data && |subs.data[name]| == 36
  {
    hide ScriptNumBytes, Complete;
    if p.Number? && p.name in subs.numbers {
      NumPushFits(subs.numbers[p.name]);
    }
  }

  lemma {:induction false} NumPushFits(n: int)
    ensures MinimalNumPush(n).Ok? <==> |ScriptNumBytes(n)| <= 65535
  {
    if 1 <= n <= 16 {
      SmallNumBytes(n);
    }
  }

  function FillPart(p: Part, subs: Subs): (r: bytes)
    requires Fits(p, subs)
  {
    match p
    case Code(code) => code
    case Data(name) =>
      PushIsInert(subs.data[name]);
      Push(subs.data[name]).value
    case Number(name) =>
      NumPushIsInert(subs.numbers[name]);
      MinimalNumPush(subs.numbers[name]).value
    case RefOf(op, name) => [op] + subs.data[name]
  }

  function Fill(t: seq<Part>, subs: Subs): bytes
    requires AllFit(t, subs)
  {
    if t == [] then [] else FillPart(t[0], subs) + Fill(t[1..], subs)
  }

  lemma {:induction false} SingleInstr(s: bytes)
    requires s != [] && StepLen(s, 0) == Ok(|s|)
    ensures var i := InstrAt(s, 0);
            Reports(s, if i.op == 0xbd then [i.pos] else [], if IsRefOp(i.op) then [(i.pos, i.ref)] else [])
  {
    hide StepLen, InstrAt;
    assert EndsFrom(s, |s|);
    assert Walk(s, |s|) == Ok([]);
    var w := [InstrAt(s, 0)];
    assert w + [] == w && w[1..] == [];
    assert Walk(s, 0) == Ok(w);
    assert BdPositions(w) == (if w[0].op == 0xbd then [w[0].pos] else []) + BdPositions(w[1..]);
    assert Refs(w) == (if IsRefOp(w[0].op) then [(w[0].pos, w[0].ref)] else []) + Refs(w[1..]);
  }

  /** A ref opcode with its operand is one whole instruction that reports just that ref. */
  lemma {:induction false} RefReportsItself(op: byte, ref: bytes)
    requires IsRefOp(op) && |ref| == 36
    ensures Reports([op] + ref, [], [(0, ref)])
  {
    var s := [op] + ref;
    assert StepLen(s, 0) == Ok(37);
    assert InstrAt(s, 0) == Instr(0, op, ref) by { assert s[1..37] == ref; }
    SingleInstr(s);
  }

  ghost function PartBds(p: Part): seq<nat> {
    if p.Code? && Walk(p.code, 0).Ok? then BdPositions(Walk(p.code, 0).value) else []
  }

  ghost function PartRefs(p: Part, subs: Subs): seq<(nat, bytes)>
    requires Fits(p, subs)
  {
    match p
    case Code(code) => if Walk(code, 0).Ok? then Refs(Walk(code, 0).value) else []
    case RefOf(op, name) => [(0, subs.data[name])]
    case _ => []
  }

  /** The 0xbd opcodes of a filled template: those of its code parts, where they come to stand. */
  ghost function CodeBds(t: seq<Part>, subs: Subs): seq<nat>
    requires AllFit(t, subs)
  {
    if t == [] then [] else PartBds(t[0]) + AddAll(CodeBds(t[1..], subs), |FillPart(t[0], subs)|)
  }

  /** The refs of a filled template: those of its code parts, and the operands filled in for refs. */
  ghost function CodeRefs(t: seq<Part>, subs: Subs): seq<(nat, bytes)>
    requires AllFit(t, subs)
  {
    if t == [] then [] else PartRefs(t[0], subs) + AddAllRefs(CodeRefs(t[1..], subs), |FillPart(t[0], subs)|)
  }

  lemma {:induction false} PartReports(p: Part, subs: Subs)
    requires Fits(p, subs)
    ensures Reports(FillPart(p, subs), PartBds(p), PartRefs(p, subs))
  {
    match p
    case Code(code) =>
      CompleteWalks(code, 0);
    case Data(name) =>
      PushIsInert(subs.data[name]);
      InertReportsNothing(Push(subs.data[name]).value);
    case Number(name) =>
      NumPushIsInert(subs.numbers[name]);
      InertReportsNothing(MinimalNumPush(subs.numbers[name]).value);
    case RefOf(op, name) =>
      RefReportsItself(op, subs.data[name]);
  }

  lemma {:induction false} NothingReports()
    ensures Reports([], [], [])
  {
  }

  /** No value filled into a template can add a 0xbd opcode or a ref: the walkers report exactly
      those of the code and the refs put behind ref opcodes. */
  lemma {:induction false} FilledReports(t: seq<Part>, subs: Subs)
    requires AllFit(t, subs)
    ensures Reports(Fill(t, subs), CodeBds(t, subs), CodeRefs(t, subs))
  {
    hide Reports, FillPart, Fits, PartBds, PartRefs;
    if t == [] {
      NothingReports();
    } else {
      PartReports(t[0], subs);
      FilledReports(t[1..], subs);
      ReportsCompose(FillPart(t[0], subs), PartBds(t[0]), PartRefs(t[0], subs),
                     Fill(t[1..], subs), CodeBds(t[1..], subs), CodeRefs(t[1..], subs));
    }
  }

  /** If no code part has a 0xbd opcode, no filled template has one. */
  lemma {:induction false} NoBdFilled(t: seq<Part>, subs: Subs)
    requires AllFit(t, subs)
    requires forall i :: 0 <= i < |t| ==> PartBds(t[i]) == []
    ensures CodeBds(t, subs) == []
  {
    hide PartBds, FillPart, Fits;
    if t != [] {
      NoBdFilled(t[1..], subs);
      assert PartBds(t[0]) == [];
    }
  }

  /** No part but a ref placeholder contributes a ref. */
  ghost predicate NoOtherRefs(p: Part) {
    !p.RefOf? && (p.Code? && Walk(p.code, 0).Ok? ==> Refs(Walk(p.code, 0).value) == [])
  }

  lemma {:induction false} NoRefsFilled(t: seq<Part>, subs: Subs)
    requires AllFit(t, subs)
    requires forall i :: 0 <= i < |t| ==> NoOtherRefs(t[i])
    ensures CodeRefs(t, subs) == []
  {
    hide FillPart, Fits;
    if t != [] {
      NoRefsFilled(t[1..], subs);
      assert NoOtherRefs(t[0]);
    }
  }

  /** The phantom-ref guard: a template that starts with its ref placeholder and has no other ref
      walks to exactly that ref, at position 0, whatever is filled in. */
  lemma {:induction false} LeadingRefIsOnly(t: seq<Part>, subs: Subs)
    requires t != [] && AllFit(t, subs) && t[0].RefOf?
    requires forall i :: 1 <= i < |t| ==> NoOtherRefs(t[i])
    ensures Fits(t[0], subs) && Walk(Fill(t, subs), 0).Ok?
    ensures Refs(Walk(Fill(t, subs), 0).value) == [(0, subs.data[t[0].name])]
  {
    hide Walk, Refs, FillPart, Fill;
    assert Fits(t[0], subs);
    FilledReports(t, subs);
    OneRef(t, subs);
  }

  lemma {:induction false} OneRef(t: seq<Part>, subs: Subs)
    requires t != [] && AllFit(t, subs) && t[0].RefOf?
    requires forall i :: 1 <= i < |t| ==> NoOtherRefs(t[i])
    ensures CodeRefs(t, subs) == [(0, subs.data[t[0].name])]
  {
    NoRefsFilled(t[1..], subs);
  }

  // ---------------------------------------------------------------------------
  // Minimal pushes

  /** The push filled in for a placeholder is minimal. */
  ghost predicate FillsMinimally(p: Part, subs: Subs)
    requires Fits(p, subs)
  {
    p.Data? || p.Number? ==> IsMinimalPush(FillPart(p, subs))
  }

  /** All pushes filled into a template are minimal exactly when no data placeholder gets one byte
      1 .. 16 or 0x81 (an amount of 1 .. 16 or -1) and no number placeholder gets -1. */
  lemma {:induction false} FilledIsMinimalIff(t: seq<Part>, subs: Subs)
    requires AllFit(t, subs)
    ensures (forall i :: 0 <= i < |t| ==> FillsMinimally(t[i], subs)) <==>
            forall i :: 0 <= i < |t| ==>
              && (t[i].Data? ==> !HasOpcodeData(subs.data[t[i].name]))
              && (t[i].Number? ==> subs.numbers[t[i].name] != -1)
  {
    hide IsMinimalPush, Push, MinimalNumPush, HasOpcodeData, ScriptNumBytes;
    forall i | 0 <= i < |t|
      ensures FillsMinimally(t[i], subs) <==>
              && (t[i].Data? ==> !HasOpcodeData(subs.data[t[i].name]))
              && (t[i].Number? ==> subs.numbers[t[i].name] != -1)
    {
      assert Fits(t[i], subs);
      match t[i]
      case Data(name) => PushIsMinimalIff(subs.data[name]);
      case Number(name) => NumPushIsMinimalIff(subs.numbers[name]);
      case _ =>
    }
  }

  // ---------------------------------------------------------------------------
  // The weld and the holder scripts

  const FT_EPILOGUE: bytes := [0xde, 0xc0, 0xe9, 0xaa, 0x76, 0xe3, 0x78, 0xe4, 0xa2, 0x69, 0xe6, 0x9d]

  /** What main appends to the filled prologue of the FT variant. */
  function Weld(ref: bytes): bytes {
    [0xbd, 0xd0] + ref + FT_EPILOGUE
  }

  function RxdHolder(pkh: bytes): bytes {
    [0x76, 0xa9, 0x14] + pkh + [0x88, 0xac]
  }

  function FtHolder(pkh: bytes, ref: bytes): bytes {
    [0x76, 0xa9, 0x14] + pkh + [0x88, 0xac, 0xbd, 0xd0] + ref + FT_EPILOGUE
  }

  function NftHolder(pkh: bytes, ref: bytes): bytes {
    [0xd8] + ref + [0x75, 0x76, 0xa9, 0x14] + pkh + [0x88, 0xac]
  }

  /** Bytes that are opcodes of their own, none of them 0xbd. */
  predicate Plain(s: bytes) {
    forall i :: 0 <= i < |s| ==> s[i] > 0x4e && !IsRefOp(s[i]) && s[i] != 0xbd
  }

  lemma {:induction false} PlainByte(b: byte)
    ensures Plain([b]) <==> b >= 0x4f && b !in [0xbd, 0xd0, 0xd1, 0xd2, 0xd3, 0xd8]
  {
    assert [b][0] == b;
  }

  lemma {:induction false} PlainReportsNothing(s: bytes)
    requires Plain(s)
    ensures Reports(s, [], [])
    decreases |s|
  {
    if s == [] {
      NothingReports();
    } else {
      var first, rest := [s[0]], s[1..];
      assert s == first + rest;
      assert Inert(first);
      InertReportsNothing(first);
      PlainReportsNothing(rest);
      hide Reports;
      ThenQuiet(first, [], [], rest);
    }
  }

  lemma {:induction false} AddToOne(x: nat, ref: bytes, k: nat)
    ensures AddAll([x], k) == [x + k] && AddAllRefs([(x, ref)], k) == [(x + k, ref)]
    ensures AddAll([], k) == [] && AddAllRefs([], k) == []
  {
    assert [x][1..] == [] && [(x, ref)][1..] == [];
  }

  /** A ref instruction followed by plain opcodes reports that ref. */
  lemma {:induction false} RefThenPlain(op: byte, ref: bytes, tail: bytes)
    requires IsRefOp(op) && |ref| == 36 && Plain(tail)
    ensures Reports([op] + ref + tail, [], [(0, ref)])
  {
    hide Reports;
    RefReportsItself(op, ref);
    PlainReportsNothing(tail);
    ThenQuiet([op] + ref, [], [(0, ref)], tail);
  }

  lemma {:induction false} BdReportsItself()
    ensures Reports([0xbd], [0], [])
  {
    var s: bytes := [0xbd];
    assert StepLen(s, 0) == Ok(1) && InstrAt(s, 0) == Instr(0, 0xbd, []);
    SingleInstr(s);
  }

  /** A bare 0xbd in front of such bytes is reported at the start. */
  lemma {:induction false} BdThenRef(s: bytes, ref: bytes)
    requires Reports(s, [], [(0, ref)])
    ensures Reports([0xbd] + s, [0], [(1, ref)])
  {
    hide Reports, AddAll, AddAllRefs;
    BdReportsItself();
    AddToOne(0, ref, 1);
    ReportsCompose([0xbd], [0], [], s, [], [(0, ref)]);
    assert [0] + AddAll([], 1) == [0] && [] + AddAllRefs([(0, ref)], 1) == [(1, ref)];
  }

  lemma {:induction false} EpilogueIsPlain()
    ensures Plain(FT_EPILOGUE)
  {
  }

  /** The weld is whole instructions; its 0xbd stands first and its ref right behind it. */
  lemma {:induction false} WeldReports(ref: bytes)
    requires |ref| == 36
    ensures Reports(Weld(ref), [0], [(1, ref)])
  {
    hide Reports, Plain, FT_EPILOGUE;
    EpilogueIsPlain();
    RefThenPlain(0xd0, ref, FT_EPILOGUE);
    BdThenRef([0xd0] + ref + FT_EPILOGUE, ref);
    assert Weld(ref) == [0xbd] + ([0xd0] + ref + FT_EPILOGUE);
  }

  lemma {:induction false} KeyHashPush(pkh: bytes)
    requires |pkh| == 20
    ensures Reports([0x14] + pkh, [], [])
  {
    assert Inert([0x14] + pkh);
    InertReportsNothing([0x14] + pkh);
  }

  lemma {:induction false} TwoPlain(x: byte, y: byte)
    requires Plain([x]) && Plain([y])
    ensures Reports([x, y], [], [])
  {
    assert [x][0] == x && [y][0] == y;
    PlainReportsNothing([x, y]);
  }

  /** The native holder script has no 0xbd and no ref, whatever the key hash. */
  lemma {:induction false} RxdHolderReports(pkh: bytes)
    requires |pkh| == 20
    ensures Reports(RxdHolder(pkh), [], [])
  {
    hide Reports;
    TwoPlain(0x76, 0xa9);
    TwoPlain(0x88, 0xac);
    KeyHashPush(pkh);
    ThenQuiet([0x76, 0xa9], [], [], [0x14] + pkh);
    ThenQuiet([0x76, 0xa9] + ([0x14] + pkh), [], [], [0x88, 0xac]);
    assert [0x76, 0xa9, 0x14] + pkh == [0x76, 0xa9] + ([0x14] + pkh);
  }

  lemma {:induction false} FtHolderParts(pkh: bytes, ref: bytes)
    requires |pkh| == 20 && |ref| == 36
    ensures FtHolder(pkh, ref) == RxdHolder(pkh) + Weld(ref)
    ensures |RxdHolder(pkh)| == 25 && |FtHolder(pkh, ref)| == 75
  {
  }

  /** The FT holder script is a native one with the weld behind it: one 0xbd, and just its own ref. */
  lemma {:induction false} FtHolderReports(pkh: bytes, ref: bytes)
    requires |pkh| == 20 && |ref| == 36
    ensures |FtHolder(pkh, ref)| == 75 && Reports(FtHolder(pkh, ref), [25], [(26, ref)])
  {
    hide Reports, AddAll, AddAllRefs, FtHolder, RxdHolder, Weld;
    FtHolderParts(pkh, ref);
    RxdHolderReports(pkh);
    WeldReports(ref);
    AddToOne(0, ref, 25);
    AddToOne(1, ref, 25);
    QuietThen(RxdHolder(pkh), Weld(ref), [0], [(1, ref)]);
  }

  /** The FT holder script ends in the opcodes of the epilogue. */
  lemma {:induction false} EpilogueBytes(pkh: bytes, ref: bytes)
    requires |pkh| == 20 && |ref| == 36
    ensures FtHolder(pkh, ref)[63..] == [0xde, 0xc0, 0xe9, 0xaa, 0x76, 0xe3, 0x78, 0xe4, 0xa2, 0x69, 0xe6, 0x9d]
    ensures Weld(ref)[38..] == FtHolder(pkh, ref)[63..]
  {
  }

  lemma {:induction false} NftHolderParts(pkh: bytes, ref: bytes)
    ensures NftHolder(pkh, ref) == [0xd8] + ref + [0x75] + RxdHolder(pkh)
  {
  }

  /** The NFT holder script has no 0xbd, and just its own ref, in front. */
  lemma {:induction false} NftHolderReports(pkh: bytes, ref: bytes)
    requires |pkh| == 20 && |ref| == 36
    ensures |NftHolder(pkh, ref)| == 63 && Reports(NftHolder(pkh, ref), [], [(0, ref)])
  {
    hide Reports;
    RefThenPlain(0xd8, ref, [0x75]);
    RxdHolderReports(pkh);
    ThenQuiet([0xd8] + ref + [0x75], [], [(0, ref)], RxdHolder(pkh));
    NftHolderParts(pkh, ref);
  }

  // ---------------------------------------------------------------------------
  // Guard 1

  /** _opcode_bd_positions reports exactly the one position. */
  ghost predicate OnlyBdAt(spk: bytes, p: nat) {
    Walk(spk, 0).Ok? && BdPositions(Walk(spk, 0).value) == [p]
  }

  /** The bytes are whole instructions without a 0xbd opcode. */
  ghost predicate NoBd(spk: bytes) {
    Complete(spk) && Walk(spk, 0).Ok? && BdPositions(Walk(spk, 0).value) == []
  }

  lemma {:induction false} WalkUnfold(spk: bytes, i: nat)
    requires i < |spk| && Walk(spk, i).Ok?
    ensures StepLen(spk, i).Ok? && Walk(spk, i + StepLen(spk, i).value).Ok?
    ensures var rest := BdPositions(Walk(spk, i + StepLen(spk, i).value).value);
            BdPositions(Walk(spk, i).value) == if spk[i] == 0xbd then [i] + rest else rest
  {
    hide StepLen, Walk, BdPositions;
    WalkStep(spk, i);
    var rest := Walk(spk, i + StepLen(spk, i).value).value;
    BdCons(InstrAt(spk, i), rest);
    NothingPlus(BdPositions(rest));
  }

  /** Every instruction of a walk from i stands at i or later. */
  lemma {:induction false} WalkStartsAt(spk: bytes, i: nat)
    requires Walk(spk, i).Ok?
    ensures forall p :: p in BdPositions(Walk(spk, i).value) ==> p >= i
    decreases |spk| - i
  {
    hide StepLen, Walk, BdPositions;
    if i < |spk| {
      WalkUnfold(spk, i);
      WalkStartsAt(spk, i + StepLen(spk, i).value);
    } else {
      WalkEnd(spk, i);
      NoInstructions();
    }
  }

  /** If a walk of a + b stops at the end of a, then a is whole instructions from there. */
  lemma {:induction false} ReachedMeansComplete(a: bytes, b: bytes, i: nat)
    requires i <= |a| && Walk(a + b, i).Ok? && |a| in BdPositions(Walk(a + b, i).value)
    ensures EndsFrom(a, i)
    decreases |a| - i
  {
    hide StepLen, Walk, BdPositions;
    if i < |a| {
      WalkUnfold(a + b, i);
      var n := StepLen(a + b, i).value;
      WalkStartsAt(a + b, i + n);
      StepInPrefix(a, b, i);
      ReachedMeansComplete(a, b, i + n);
    }
  }

  /** Guard 1 of the FT variant passes exactly on the prologues that are whole instructions without
      a 0xbd opcode, whatever the ref. */
  lemma {:induction false} WeldGuardIff(prologue: bytes, ref: bytes)
    requires |ref| == 36
    ensures OnlyBdAt(prologue + Weld(ref), |prologue|) <==> NoBd(prologue)
  {
    hide Walk, BdPositions, Refs, EndsFrom, Weld, AddAll, AddAllRefs;
    WeldReports(ref);
    AddToOne(0, ref, |prologue|);
    if OnlyBdAt(prologue + Weld(ref), |prologue|) {
      ReachedMeansComplete(prologue, Weld(ref), 0);
    }
    if Complete(prologue) {
      CompleteWalks(prologue, 0);
      var w := Walk(prologue, 0).value;
      var before := BdPositions(w);
      ReportsCompose(prologue, before, Refs(w), Weld(ref), [0], [(1, ref)]);
      assert |before + [|prologue|]| == |before| + 1;
    }
  }

  /** Filled for any hash lock, amount, key hashes and ref, an FT template whose code has no 0xbd
      opcode passes guard 1. */
  lemma {:induction false} FilledFtPassesGuard(t: seq<Part>, subs: Subs, ref: bytes)
    requires AllFit(t, subs) && |ref| == 36
    requires forall i :: 0 <= i < |t| ==> PartBds(t[i]) == []
    ensures OnlyBdAt(Fill(t, subs) + Weld(ref), |Fill(t, subs)|)
  {
    hide PartBds, Fits, OnlyBdAt;
    FilledReports(t, subs);
    NoBdFilled(t, subs);
    WeldGuardIff(Fill(t, subs), ref);
  }
}
