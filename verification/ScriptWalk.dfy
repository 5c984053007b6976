/** The opcode walkers, push encoders and weld guard of the covenant builders
    (docs/brainstorms/gravity-ref-spike/build_htlc_covenant_spk.py and build_covenant.py). */
module ScriptWalk {
  import opened Wrappers
  import opened Bytes

  // ---------------------------------------------------------------------------
  // Walking

  predicate IsRefOp(op: byte) {
    op == 0xd0 || op == 0xd1 || op == 0xd2 || op == 0xd3 || op == 0xd8
  }

  /** spk[a:b] for a Python slice that may run past the end. */
  function Clip(spk: bytes, a: nat, b: nat): bytes
    requires a <= b && a <= |spk|
  {
    if b <= |spk| then spk[a..b] else spk[a..]
  }

  /** By how much the walkers advance at i; a length byte past the end is an IndexError. */
  function StepLen(spk: bytes, i: nat): (r: Result<nat>)
    requires i < |spk|
    ensures r.Ok? ==> r.value > 0
  {
    var op := spk[i];
    if IsRefOp(op) then Ok(37)
    else if 0x01 <= op <= 0x4b then Ok(1 + op)
    else if op == 0x4c then
      if i + 1 < |spk| then var n: nat := spk[i + 1]; Ok(2 + n) else Err(IndexError)
    else if op == 0x4d then
      if i + 2 < |spk| then
        var (lo: nat, hi: nat) := (spk[i + 1], spk[i + 2]); Ok(3 + lo + 256 * hi)
      else Err(IndexError)
    else if op == 0x4e then Ok(5 + FromLE(Clip(spk, i + 1, i + 5)))
    else Ok(1)
  }

  /** An instruction the walkers stop at: its position, opcode and, for a ref opcode, its operand. */
  datatype Instr = Instr(pos: nat, op: byte, ref: bytes)

  function InstrAt(spk: bytes, i: nat): Instr
    requires i < |spk|
  {
    Instr(i, spk[i], if IsRefOp(spk[i]) then Clip(spk, i + 1, i + 37) else [])
  }

  /** All instructions from i on. */
  function Walk(spk: bytes, i: nat): Result<seq<Instr>>
    decreases |spk| - i
  {
    if i >= |spk| then Ok([])
    else
      var n :- StepLen(spk, i);
      var rest :- Walk(spk, i + n);
      Ok([InstrAt(spk, i)] + rest)
  }

  /** What one instruction adds to the 0xbd positions. */
  function BdOf(x: Instr): seq<nat> {
    if x.op == 0xbd then [x.pos] else []
  }

  function BdPositions(instrs: seq<Instr>): seq<nat> {
    if instrs == [] then [] else BdOf(instrs[0]) + BdPositions(instrs[1..])
  }

  /** What one instruction adds to the refs. */
  function RefOf(x: Instr): seq<(nat, bytes)> {
    if IsRefOp(x.op) then [(x.pos, x.ref)] else []
  }

  function Refs(instrs: seq<Instr>): seq<(nat, bytes)> {
    if instrs == [] then [] else RefOf(instrs[0]) + Refs(instrs[1..])
  }

  /** Walking from i ends exactly at the end of the script. */
  predicate EndsFrom(s: bytes, i: nat)
    requires i <= |s|
    decreases |s| - i
  {
    i == |s| || (StepLen(s, i).Ok? && i + StepLen(s, i).value <= |s| && EndsFrom(s, i + StepLen(s, i).value))
  }

  /** The bytes are whole instructions. */
  predicate Complete(s: bytes) {
    EndsFrom(s, 0)
  }

  function Shift(instrs: seq<Instr>, k: nat): (r: seq<Instr>)
    ensures |r| == |instrs|
    ensures forall i :: 0 <= i < |instrs| ==> r[i] == instrs[i].(pos := instrs[i].pos + k)
  {
    if instrs == [] then [] else [instrs[0].(pos := instrs[0].pos + k)] + Shift(instrs[1..], k)
  }

  // ---------------------------------------------------------------------------
  // The walkers' loops

  lemma {:induction false} Reassociate<T>(a: seq<T>, b: seq<T>, c: seq<T>)
    ensures a + (b + c) == a + b + c
  {
  }

  lemma {:induction false} NothingPlus<T>(a: seq<T>)
    ensures [] + a == a && a + [] == a
  {
  }

  lemma {:induction false} BdCons(x: Instr, rest: seq<Instr>)
    ensures BdPositions([x] + rest) == BdOf(x) + BdPositions(rest)
  {
    assert ([x] + rest)[1..] == rest;
  }

  lemma {:induction false} RefsCons(x: Instr, rest: seq<Instr>)
    ensures Refs([x] + rest) == RefOf(x) + Refs(rest)
  {
    assert ([x] + rest)[1..] == rest;
  }

  lemma {:induction false} NoInstructions()
    ensures BdPositions([]) == [] && Refs([]) == []
  {
  }

  lemma {:induction false} BdOfAppend(a: seq<Instr>, b: seq<Instr>)
    ensures BdPositions(a + b) == BdPositions(a) + BdPositions(b)
  {
    hide BdPositions, BdOf;
    NothingPlus(b);
    NothingPlus(BdPositions(b));
    NoInstructions();
    if a != [] {
      var x, rest := a[0], a[1..];
      assert a == [x] + rest;
      Reassociate([x], rest, b);
      BdOfAppend(rest, b);
      BdCons(x, rest);
      BdCons(x, rest + b);
      Reassociate(BdOf(x), BdPositions(rest), BdPositions(b));
    }
  }

  lemma {:induction false} RefsOfAppend(a: seq<Instr>, b: seq<Instr>)
    ensures Refs(a + b) == Refs(a) + Refs(b)
  {
    hide Refs, RefOf;
    NothingPlus(b);
    NothingPlus(Refs(b));
    NoInstructions();
    if a != [] {
      var x, rest := a[0], a[1..];
      assert a == [x] + rest;
      Reassociate([x], rest, b);
      RefsOfAppend(rest, b);
      RefsCons(x, rest);
      RefsCons(x, rest + b);
      Reassociate(RefOf(x), Refs(rest), Refs(b));
    }
  }

  /** One step of a walk. */
  lemma {:induction false} WalkStep(spk: bytes, i: nat)
    requires i < |spk|
    ensures StepLen(spk, i).Err? ==> Walk(spk, i) == Err(StepLen(spk, i).error)
    ensures StepLen(spk, i).Ok? ==>
              var rest := Walk(spk, i + StepLen(spk, i).value);
              Walk(spk, i) == if rest.Err? then rest else Ok([InstrAt(spk, i)] + rest.value)
  {
    hide StepLen, InstrAt;
  }

  lemma {:induction false} WalkEnd(spk: bytes, i: nat)
    requires i >= |spk|
    ensures Walk(spk, i) == Ok([])
  {
  }

  /** The answer of _opcode_bd_positions, given what was collected and what is still to be walked. */
  ghost function BdAnswer(done: seq<nat>, w: Result<seq<Instr>>): Result<seq<nat>> {
    if w.Err? then Err(w.error) else Ok(done + BdPositions(w.value))
  }

  lemma {:induction false} BdStep(spk: bytes, i: nat, done: seq<nat>)
    requires i < |spk|
    ensures var n := StepLen(spk, i);
            BdAnswer(done, Walk(spk, i)) ==
            if n.Err? then Err(n.error)
            else BdAnswer(done + (if spk[i] == 0xbd then [i] else []), Walk(spk, i + n.value))
  {
    hide StepLen, Clip, Walk, BdPositions;
    var n := StepLen(spk, i);
    WalkStep(spk, i);
    if n.Ok? && Walk(spk, i + n.value).Ok? {
      var x, later := InstrAt(spk, i), Walk(spk, i + n.value).value;
      BdCons(x, later);
      Reassociate(done, BdOf(x), BdPositions(later));
    }
  }

  /** Where the walk has ended, the answer is what was collected. */
  lemma {:induction false} BdAtEnd(spk: bytes, i: nat, done: seq<nat>)
    requires i >= |spk|
    ensures BdAnswer(done, Walk(spk, i)) == Ok(done)
  {
    WalkEnd(spk, i);
    NoInstructions();
    NothingPlus(done);
  }

  lemma {:induction false} BdFromStart(w: Result<seq<Instr>>)
    ensures BdAnswer([], w) == if w.Err? then Err(w.error) else Ok(BdPositions(w.value))
  {
    hide BdPositions;
    if w.Ok? {
      NothingPlus(BdPositions(w.value));
    }
  }

  /** _opcode_bd_positions */
  method OpcodeBdPositions(spk: bytes) returns (r: Result<seq<nat>>)
    ensures var w := Walk(spk, 0);
            r == if w.Err? then Err(w.error) else Ok(BdPositions(w.value))
  {
    hide StepLen, BdPositions, Clip, Walk, BdAnswer;
    BdFromStart(Walk(spk, 0));
    var i: nat := 0;
    var bds: seq<nat> := [];
    while i < |spk|
      invariant BdAnswer([], Walk(spk, 0)) == BdAnswer(bds, Walk(spk, i))
      decreases |spk| - i
    {
      BdStep(spk, i, bds);
      NothingPlus(bds);
      var n := StepLen(spk, i);
      if n.Err? {
        return Err(n.error);
      }
      if spk[i] == 0xbd {
        bds := bds + [i];
      }
      i := i + n.value;
    }
    BdAtEnd(spk, i, bds);
    r := Ok(bds);
  }

  /** The answer of _walk_refs, likewise. */
  ghost function RefsAnswer(done: seq<(nat, bytes)>, w: Result<seq<Instr>>): Result<seq<(nat, bytes)>> {
    if w.Err? then Err(w.error) else Ok(done + Refs(w.value))
  }

  lemma {:induction false} RefsStep(spk: bytes, i: nat, done: seq<(nat, bytes)>)
    requires i < |spk|
    ensures var n := StepLen(spk, i);
            RefsAnswer(done, Walk(spk, i)) ==
            if n.Err? then Err(n.error)
            else RefsAnswer(done + (if IsRefOp(spk[i]) then [(i, Clip(spk, i + 1, i + 37))] else []),
                            Walk(spk, i + n.value))
  {
    hide StepLen, Clip, Walk, Refs, IsRefOp;
    var n := StepLen(spk, i);
    WalkStep(spk, i);
    if n.Ok? && Walk(spk, i + n.value).Ok? {
      var x, later := InstrAt(spk, i), Walk(spk, i + n.value).value;
      RefsCons(x, later);
      Reassociate(done, RefOf(x), Refs(later));
    }
  }

  lemma {:induction false} RefsAtEnd(spk: bytes, i: nat, done: seq<(nat, bytes)>)
    requires i >= |spk|
    ensures RefsAnswer(done, Walk(spk, i)) == Ok(done)
  {
    WalkEnd(spk, i);
    NoInstructions();
    NothingPlus(done);
  }

  lemma {:induction false} RefsFromStart(w: Result<seq<Instr>>)
    ensures RefsAnswer([], w) == if w.Err? then Err(w.error) else Ok(Refs(w.value))
  {
    hide Refs;
    if w.Ok? {
      NothingPlus(Refs(w.value));
    }
  }

  /** _walk_refs */
  method WalkRefs(spk: bytes) returns (r: Result<seq<(nat, bytes)>>)
    ensures var w := Walk(spk, 0);
            r == if w.Err? then Err(w.error) else Ok(Refs(w.value))
  {
    hide StepLen, Refs, Clip, Walk, RefsAnswer;
    RefsFromStart(Walk(spk, 0));
    var i: nat := 0;
    var out: seq<(nat, bytes)> := [];
    while i < |spk|
      invariant RefsAnswer([], Walk(spk, 0)) == RefsAnswer(out, Walk(spk, i))
      decreases |spk| - i
    {
      RefsStep(spk, i, out);
      NothingPlus(out);
      var n := StepLen(spk, i);
      if n.Err? {
        return Err(n.error);
      }
      if IsRefOp(spk[i]) {
        out := out + [(i, Clip(spk, i + 1, i + 37))];
      }
      i := i + n.value;
    }
    RefsAtEnd(spk, i, out);
    r := Ok(out);
  }

  // ---------------------------------------------------------------------------
  // Composition

  /** An instruction that lies within a reads the same in a + b. */
  lemma {:induction false} StepInPrefix(a: bytes, b: bytes, i: nat)
    requires i < |a|
    ensures StepLen(a, i).Ok? && i + StepLen(a, i).value <= |a| ==>
              StepLen(a + b, i) == StepLen(a, i) && InstrAt(a + b, i) == InstrAt(a, i)
    ensures StepLen(a + b, i).Ok? && i + StepLen(a + b, i).value <= |a| ==>
              StepLen(a, i) == StepLen(a + b, i)
  {
    var s := a + b;
    assert s[i] == a[i];
    if i + 5 <= |a| {
      assert s[i + 1..i + 5] == a[i + 1..i + 5];
    }
    if i + 37 <= |a| {
      assert s[i + 1..i + 37] == a[i + 1..i + 37];
    }
  }

  lemma {:induction false} ShiftCons(x: Instr, rest: seq<Instr>, k: nat)
    ensures Shift([x] + rest, k) == [x.(pos := x.pos + k)] + Shift(rest, k)
  {
    assert ([x] + rest)[1..] == rest;
  }

  lemma {:induction false} ShiftNothing(k: nat)
    ensures Shift([], k) == []
  {
  }

  /** Past a, walking a + b is walking b, moved by the length of a. */
  lemma {:induction false} WalkInSuffix(a: bytes, b: bytes, i: nat)
    ensures var w := Walk(b, i);
            Walk(a + b, |a| + i) == if w.Err? then w else Ok(Shift(w.value, |a|))
    decreases |b| - i
  {
    hide StepLen, InstrAt, Walk, Shift;
    if i < |b| {
      StepInSuffix(a, b, i);
      WalkStep(b, i);
      WalkStep(a + b, |a| + i);
      var n := StepLen(b, i);
      if n.Ok? {
        WalkInSuffix(a, b, i + n.value);
        assert |a| + i + n.value == |a| + (i + n.value);
        var rest := Walk(b, i + n.value);
        if rest.Ok? {
          ShiftCons(InstrAt(b, i), rest.value, |a|);
        }
      }
    } else {
      WalkEnd(b, i);
      WalkEnd(a + b, |a| + i);
      ShiftNothing(|a|);
    }
  }

  lemma {:induction false} StepInSuffix(a: bytes, b: bytes, i: nat)
    requires i < |b|
    ensures StepLen(a + b, |a| + i) == StepLen(b, i)
    ensures InstrAt(b, i).pos == i && InstrAt(a + b, |a| + i) == InstrAt(b, i).(pos := |a| + i)
  {
    var s := a + b;
    assert s[|a| + i] == b[i];
    ClipInSuffix(a, b, i + 1, i + 5);
    ClipInSuffix(a, b, i + 1, i + 37);
    hide Clip;
  }

  lemma {:induction false} ClipInSuffix(a: bytes, b: bytes, i: nat, j: nat)
    requires i <= j && i <= |b|
    ensures Clip(a + b, |a| + i, |a| + j) == Clip(b, i, j)
  {
  }

  lemma {:induction false} EndsStep(a: bytes, i: nat)
    requires i < |a| && EndsFrom(a, i)
    ensures StepLen(a, i).Ok? && i + StepLen(a, i).value <= |a| && EndsFrom(a, i + StepLen(a, i).value)
  {
    hide StepLen;
  }

  lemma {:induction false} CompleteWalks(a: bytes, i: nat)
    requires i <= |a| && EndsFrom(a, i)
    ensures Walk(a, i).Ok?
    decreases |a| - i
  {
    hide StepLen, InstrAt, Walk, EndsFrom;
    if i < |a| {
      EndsStep(a, i);
      WalkStep(a, i);
      CompleteWalks(a, i + StepLen(a, i).value);
    } else {
      WalkEnd(a, i);
    }
  }

  lemma {:induction false} WalkComposesFrom(a: bytes, b: bytes, i: nat)
    requires i <= |a| && EndsFrom(a, i)
    ensures Walk(a, i).Ok?
    ensures var w := Walk(b, 0);
            Walk(a + b, i) == if w.Err? then w else Ok(Walk(a, i).value + Shift(w.value, |a|))
    decreases |a| - i
  {
    hide StepLen, InstrAt, Walk, EndsFrom, Shift;
    CompleteWalks(a, i);
    var w := Walk(b, 0);
    if i == |a| {
      WalkInSuffix(a, b, 0);
      WalkEnd(a, i);
      if w.Ok? {
        NothingPlus(Shift(w.value, |a|));
      }
    } else {
      EndsStep(a, i);
      StepInPrefix(a, b, i);
      WalkStep(a, i);
      WalkStep(a + b, i);
      var n := StepLen(a, i).value;
      CompleteWalks(a, i + n);
      WalkComposesFrom(a, b, i + n);
      if w.Ok? {
        Reassociate([InstrAt(a, i)], Walk(a, i + n).value, Shift(w.value, |a|));
      }
    }
  }

  /** After whole instructions the next bytes are read from an instruction boundary. */
  lemma {:induction false} WalkComposes(a: bytes, b: bytes)
    requires Complete(a)
    ensures Walk(a, 0).Ok?
    ensures var w := Walk(b, 0);
            Walk(a + b, 0) == if w.Err? then w else Ok(Walk(a, 0).value + Shift(w.value, |a|))
  {
    WalkComposesFrom(a, b, 0);
  }

  /** Whole instructions put together are whole instructions. */
  lemma {:induction false} CompleteComposes(a: bytes, b: bytes)
    requires Complete(a) && Complete(b)
    ensures Complete(a + b)
  {
    EndsInPrefix(a, b, 0);
    EndsInSuffix(a, b, 0);
  }

  /** The walk of a + b reaches the end of a exactly when a is whole instructions. */
  lemma {:induction false} EndsInPrefix(a: bytes, b: bytes, i: nat)
    requires i <= |a| && EndsFrom(a, i)
    ensures EndsFrom(a + b, i) <==> EndsFrom(a + b, |a|)
    decreases |a| - i
  {
    hide StepLen;
    if i < |a| {
      StepInPrefix(a, b, i);
      EndsInPrefix(a, b, i + StepLen(a, i).value);
    }
  }

  lemma {:induction false} EndsInSuffix(a: bytes, b: bytes, i: nat)
    requires i <= |b| && EndsFrom(b, i)
    ensures EndsFrom(a + b, |a| + i)
    decreases |b| - i
  {
    hide StepLen;
    if i < |b| {
      StepInSuffix(a, b, i);
      var n := StepLen(b, i).value;
      EndsInSuffix(a, b, i + n);
      assert |a| + i + n == |a| + (i + n);
    }
  }

  function AddAll(xs: seq<nat>, k: nat): seq<nat> {
    if xs == [] then [] else [xs[0] + k] + AddAll(xs[1..], k)
  }

  function AddAllRefs(xs: seq<(nat, bytes)>, k: nat): seq<(nat, bytes)> {
    if xs == [] then [] else [(xs[0].0 + k, xs[0].1)] + AddAllRefs(xs[1..], k)
  }

  lemma {:induction false} BdOfShift(instrs: seq<Instr>, k: nat)
    ensures BdPositions(Shift(instrs, k)) == AddAll(BdPositions(instrs), k)
  {
    if instrs != [] {
      BdOfShift(instrs[1..], k);
      var rest := BdPositions(instrs[1..]);
      assert Shift(instrs, k)[1..] == Shift(instrs[1..], k);
      if instrs[0].op == 0xbd {
        assert ([instrs[0].pos] + rest)[1..] == rest;
      } else {
        assert [] + rest == rest && [] + AddAll(rest, k) == AddAll(rest, k);
      }
    }
  }

  lemma {:induction false} RefsOfShift(instrs: seq<Instr>, k: nat)
    ensures Refs(Shift(instrs, k)) == AddAllRefs(Refs(instrs), k)
  {
    if instrs != [] {
      RefsOfShift(instrs[1..], k);
      var rest := Refs(instrs[1..]);
      assert Shift(instrs, k)[1..] == Shift(instrs[1..], k);
      if IsRefOp(instrs[0].op) {
        assert ([(instrs[0].pos, instrs[0].ref)] + rest)[1..] == rest;
      } else {
        assert [] + rest == rest && [] + AddAllRefs(rest, k) == AddAllRefs(rest, k);
      }
    }
  }

  /** The bytes are whole instructions, with these 0xbd opcodes and refs. */
  ghost predicate Reports(s: bytes, bds: seq<nat>, refs: seq<(nat, bytes)>) {
    && Complete(s) && Walk(s, 0).Ok?
    && BdPositions(Walk(s, 0).value) == bds
    && Refs(Walk(s, 0).value) == refs
  }

  /** Reports of whole instructions add up, the later ones moved. */
  lemma {:induction false} ReportsCompose(a: bytes, bds: seq<nat>, refs: seq<(nat, bytes)>, b: bytes, bds': seq<nat>,
                                          refs': seq<(nat, bytes)>)
    requires Reports(a, bds, refs) && Reports(b, bds', refs')
    ensures Reports(a + b, bds + AddAll(bds', |a|), refs + AddAllRefs(refs', |a|))
  {
    hide Walk, EndsFrom, AddAll, AddAllRefs, BdPositions, Refs;
    CompleteComposes(a, b);
    WalkComposes(a, b);
    var x, y := Walk(a, 0).value, Walk(b, 0).value;
    BdOfAppend(x, Shift(y, |a|));
    RefsOfAppend(x, Shift(y, |a|));
    BdOfShift(y, |a|);
    RefsOfShift(y, |a|);
  }

  /** Bytes that report nothing leave the report of what follows, moved. */
  lemma {:induction false} QuietThen(a: bytes, b: bytes, bds: seq<nat>, refs: seq<(nat, bytes)>)
    requires Reports(a, [], []) && Reports(b, bds, refs)
    ensures Reports(a + b, AddAll(bds, |a|), AddAllRefs(refs, |a|))
  {
    hide Reports;
    ReportsCompose(a, [], [], b, bds, refs);
    assert [] + AddAll(bds, |a|) == AddAll(bds, |a|) && [] + AddAllRefs(refs, |a|) == AddAllRefs(refs, |a|);
  }

  /** Bytes that report nothing do not change the report of what stands before. */
  lemma {:induction false} ThenQuiet(a: bytes, bds: seq<nat>, refs: seq<(nat, bytes)>, b: bytes)
    requires Reports(a, bds, refs) && Reports(b, [], [])
    ensures Reports(a + b, bds, refs)
  {
    hide Reports;
    ReportsCompose(a, bds, refs, b, [], []);
    assert bds + [] == bds && refs + [] == refs;
  }

  // ---------------------------------------------------------------------------
  // Data pushes

  /** push: a length above 65535 does not fit its two length bytes. */
  function Push(d: bytes): Result<bytes> {
    var n := |d|;
    if n == 0 then Ok([0x00])
    else if n <= 75 then Ok([n] + d)
    else if n <= 255 then Ok([0x4c, n] + d)
    else if n <= 65535 then Ok([0x4d, n % 256, n / 256] + d)
    else Err(OverflowError)
  }

  /** One whole instruction that is neither 0xbd nor a ref. */
  ghost predicate Inert(s: bytes) {
    && s != [] && s[0] != 0xbd && !IsRefOp(s[0])
    && StepLen(s, 0) == Ok(|s|)
  }

  /** A data push is one inert instruction, whatever bytes the data holds. */
  lemma {:induction false} PushIsInert(d: bytes)
    requires |d| <= 65535
    ensures Push(d).Ok? && Inert(Push(d).value)
  {
  }

  /** An inert instruction reports nothing. */
  lemma {:induction false} InertReportsNothing(s: bytes)
    requires Inert(s)
    ensures Reports(s, [], [])
  {
    hide StepLen;
    assert EndsFrom(s, |s|);
    assert Walk(s, |s|) == Ok([]);
    var w := [InstrAt(s, 0)];
    assert w + [] == w && w[1..] == [] && w[0].op == s[0];
    assert Walk(s, 0) == Ok(w);
    assert BdPositions(w) == [] + BdPositions(w[1..]) && Refs(w) == [] + Refs(w[1..]);
  }
}
