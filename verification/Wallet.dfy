/** Coin selection, fee and change of src/pyrxd/wallet.py. */
module Wallet {
  import opened Arithmetic
  import opened Wrappers
  import opened VarInt

  const DUST_THRESHOLD: nat := 546
  const MIN_INPUT_BYTES: nat := 148
  const BASE_BYTES: nat := 80

  function Sum(s: seq<nat>): nat {
    if s == [] then 0 else Sum(s[..|s| - 1]) + s[|s| - 1]
  }

  predicate Descending(s: seq<nat>) {
    forall i, j :: 0 <= i < j < |s| ==> s[i] >= s[j]
  }

  // ---------------------------------------------------------------------------
  // Greedy selection

  /** The k largest coins cover the amount and the estimated fee for k inputs. */
  predicate Enough(values: seq<nat>, photons: int, base: int, perInput: int, k: nat)
    requires k <= |values|
  {
    Sum(values[..k]) >= photons + base + perInput * k
  }

  ghost predicate StopsAt(values: seq<nat>, photons: int, base: int, perInput: int, k: nat) {
    && 1 <= k <= |values| && Enough(values, photons, base, perInput, k)
    && forall j :: 1 <= j < k ==> !Enough(values, photons, base, perInput, j)
  }

  ghost predicate NeverStops(values: seq<nat>, photons: int, base: int, perInput: int) {
    forall j :: 1 <= j <= |values| ==> !Enough(values, photons, base, perInput, j)
  }

  /** What both selection loops decide: stop at the first count that is enough; otherwise take all
      coins, unless they do not even cover the amount. */
  ghost predicate Selects(values: seq<nat>, photons: int, base: int, perInput: int, r: Result<nat>) {
    match r
    case Ok(k) =>
      StopsAt(values, photons, base, perInput, k)
      || (NeverStops(values, photons, base, perInput) && k == |values| && Sum(values) >= photons)
    case Err(e) =>
      e == ValidationError && NeverStops(values, photons, base, perInput) && Sum(values) < photons
  }

  /** The decision is unique. */
  lemma {:induction false} SelectsUnique(values: seq<nat>, photons: int, base: int, perInput: int, r: Result<nat>,
                                         r': Result<nat>)
    requires Selects(values, photons, base, perInput, r) && Selects(values, photons, base, perInput, r')
    ensures r == r'
  {
    hide Enough, Sum;
  }

  /** greedy_select_count */
  method GreedySelectCount(values: seq<nat>, photons: int, baseCushion: int, perInputCushion: int)
    returns (r: Result<nat>)
    ensures Selects(values, photons, baseCushion, perInputCushion, r)
  {
    var total: nat := 0;
    for i := 0 to |values|
      invariant total == Sum(values[..i])
      invariant forall j :: 1 <= j <= i ==> !Enough(values, photons, baseCushion, perInputCushion, j)
    {
      assert values[..i + 1][..i] == values[..i];
      total := total + values[i];
      if total >= photons + baseCushion + perInputCushion * (i + 1) {
        return Ok(i + 1);
      }
    }
    assert values[..|values|] == values;
    if total < photons {
      return Err(ValidationError);
    }
    r := Ok(|values|);
  }

  /** The loop inlined in build_send_tx, on coins sorted from large to small. */
  method SelectInline(sorted: seq<nat>, photons: int, baseCushion: nat, perInputCushion: nat)
    returns (r: Result<seq<nat>>)
    ensures Selects(sorted, photons, baseCushion, perInputCushion,
                    if r.Ok? then Ok(|r.value|) else Err(ValidationError))
    ensures r.Ok? ==> r.value <= sorted
  {
    hide Sum;
    var selected: seq<nat> := [];
    var total: nat := 0;
    NoSum();
    var i := 0;
    while i < |sorted|
      invariant i <= |sorted| && selected == sorted[..i] && total == Sum(selected)
      invariant forall j :: 1 <= j <= i ==> !Enough(sorted, photons, baseCushion, perInputCushion, j)
    {
      SumOfAppend(selected, sorted[i]);
      assert sorted[..i + 1] == selected + [sorted[i]];
      selected := selected + [sorted[i]];
      total := total + sorted[i];
      i := i + 1;
      var target := photons + baseCushion + perInputCushion * |selected|;
      if total >= target {
        assert StopsAt(sorted, photons, baseCushion, perInputCushion, i);
        break;
      }
    }
    assert i < |sorted| || sorted[..i] == sorted;
    assert perInputCushion * |selected| >= 0;
    if total < photons {
      return Err(ValidationError);
    }
    r := Ok(selected);
  }

  lemma {:induction false} NoSum()
    ensures Sum([]) == 0
  {
  }

  lemma {:induction false} SumOfAppend(s: seq<nat>, x: nat)
    ensures Sum(s + [x]) == Sum(s) + x
  {
    assert (s + [x])[..|s|] == s;
  }

  // ---------------------------------------------------------------------------
  // Optimality

  /** A choice of coins: their positions, in ascending order. */
  ghost predicate Choice(values: seq<nat>, idx: seq<nat>) {
    && (forall i :: 0 <= i < |idx| ==> idx[i] < |values|)
    && forall i, j :: 0 <= i < j < |idx| ==> idx[i] < idx[j]
  }

  ghost function SumAt(values: seq<nat>, idx: seq<nat>): nat
    requires Choice(values, idx)
  {
    if idx == [] then 0 else SumAt(values, idx[..|idx| - 1]) + values[idx[|idx| - 1]]
  }

  lemma {:induction false} ChoiceIndexBound(values: seq<nat>, idx: seq<nat>, j: nat)
    requires Choice(values, idx) && j < |idx|
    ensures idx[j] >= j
  {
    if j > 0 {
      ChoiceIndexBound(values, idx, j - 1);
    }
  }

  /** No choice of k coins is worth more than the k largest. */
  lemma {:induction false} LargestAreMost(values: seq<nat>, idx: seq<nat>)
    requires Descending(values) && Choice(values, idx)
    ensures |idx| <= |values| && SumAt(values, idx) <= Sum(values[..|idx|])
  {
    if idx != [] {
      var k := |idx|;
      LargestAreMost(values, idx[..k - 1]);
      ChoiceIndexBound(values, idx, k - 1);
      assert values[..k][..k - 1] == values[..k - 1];
      assert values[idx[k - 1]] <= values[k - 1];
    }
  }

  /** The choice covers the amount and the estimated fee for its own size. */
  ghost predicate Covers(values: seq<nat>, photons: int, base: int, perInput: int, idx: seq<nat>)
    requires Choice(values, idx)
  {
    SumAt(values, idx) >= photons + base + perInput * |idx|
  }

  /** Stopping at k means that k coins can cover the amount and no non-empty choice of fewer can. */
  lemma {:induction false} GreedyTakesFewest(values: seq<nat>, photons: int, base: int, perInput: int, k: nat)
    requires Descending(values) && StopsAt(values, photons, base, perInput, k)
    ensures forall idx :: Choice(values, idx) && idx != [] && Covers(values, photons, base, perInput, idx) ==>
            k <= |idx|
  {
    forall idx | Choice(values, idx) && idx != [] && Covers(values, photons, base, perInput, idx)
      ensures k <= |idx|
    {
      LargestAreMost(values, idx);
      assert Enough(values, photons, base, perInput, |idx|);
    }
  }

  /** Greedy never stops exactly when no non-empty choice of coins covers the amount. */
  lemma {:induction false} NeverStopsIff(values: seq<nat>, photons: int, base: int, perInput: int)
    requires Descending(values)
    ensures NeverStops(values, photons, base, perInput) <==>
            forall idx :: Choice(values, idx) && idx != [] ==> !Covers(values, photons, base, perInput, idx)
  {
    forall idx | NeverStops(values, photons, base, perInput) && Choice(values, idx) && idx != []
      ensures !Covers(values, photons, base, perInput, idx)
    {
      LargestAreMost(values, idx);
      assert !Enough(values, photons, base, perInput, |idx|);
    }
    forall j | 1 <= j <= |values| && Enough(values, photons, base, perInput, j)
      ensures exists idx :: Choice(values, idx) && idx != [] && Covers(values, photons, base, perInput, idx)
    {
      FirstCoins(values, j);
      var idx := First(j);
      assert idx != [] && Covers(values, photons, base, perInput, idx);
    }
  }

  ghost function First(k: nat): (r: seq<nat>)
    ensures |r| == k && forall i :: 0 <= i < k ==> r[i] == i
  {
    if k == 0 then [] else First(k - 1) + [k - 1]
  }

  lemma {:induction false} FirstCoins(values: seq<nat>, k: nat)
    requires k <= |values|
    ensures Choice(values, First(k)) && SumAt(values, First(k)) == Sum(values[..k])
  {
    if k > 0 {
      FirstCoins(values, k - 1);
      assert First(k)[..k - 1] == First(k - 1);
      assert values[..k][..k - 1] == values[..k - 1];
    }
  }

  // ---------------------------------------------------------------------------
  // Sorting

  /** sorted(..., reverse=True), on the values. */
  function SortDescending(s: seq<nat>): (r: seq<nat>)
    ensures |r| == |s|
  {
    if s == [] then [] else InsertDescending(SortDescending(s[..|s| - 1]), s[|s| - 1])
  }

  function InsertDescending(s: seq<nat>, v: nat): (r: seq<nat>)
    ensures |r| == |s| + 1
  {
    if s != [] && v > s[|s| - 1] then InsertDescending(s[..|s| - 1], v) + [s[|s| - 1]] else s + [v]
  }

  lemma {:induction false} InsertKeepsCoins(s: seq<nat>, v: nat)
    ensures multiset(InsertDescending(s, v)) == multiset(s) + multiset{v}
  {
    if s != [] && v > s[|s| - 1] {
      var front, last := s[..|s| - 1], s[|s| - 1];
      assert s == front + [last];
      InsertKeepsCoins(front, v);
      hide InsertDescending;
    }
  }

  lemma {:induction false} InsertSorted(s: seq<nat>, v: nat)
    requires Descending(s)
    ensures Descending(InsertDescending(s, v))
    ensures forall i :: 0 <= i <= |s| ==> InsertDescending(s, v)[i] == v || InsertDescending(s, v)[i] in s
  {
    if s != [] && v > s[|s| - 1] {
      var front, last := s[..|s| - 1], s[|s| - 1];
      InsertSorted(front, v);
      var r := InsertDescending(front, v);
      assert forall i :: 0 <= i < |r| ==> r[i] >= last;
    }
  }

  /** The coins are the same, in descending order. */
  lemma {:induction false} SortedCoins(s: seq<nat>)
    ensures Descending(SortDescending(s)) && multiset(SortDescending(s)) == multiset(s)
  {
    if s != [] {
      var front, last := s[..|s| - 1], s[|s| - 1];
      assert s == front + [last];
      SortedCoins(front);
      InsertSorted(SortDescending(front), last);
      InsertKeepsCoins(SortDescending(front), last);
    }
  }

  // ---------------------------------------------------------------------------
  // Building the transaction

  /** The bytes of a transaction with inputs and outputs of these sizes. */
  function TxSize(inputs: seq<nat>, outputs: seq<nat>): nat
    requires |inputs| <= MAX_UINT64 && |outputs| <= MAX_UINT64
  {
    4 + |Varint(|inputs|).value| + Sum(inputs) + |Varint(|outputs|).value| + Sum(outputs) + 4
  }

  /** What is paid: the values of the inputs and of the outputs, the recipient's first. */
  datatype Payment = Payment(inputs: seq<nat>, outputs: seq<nat>)

  function Fee(p: Payment): int {
    Sum(p.inputs) - Sum(p.outputs)
  }

  lemma {:induction false} SumBound(s: seq<nat>, m: nat)
    requires forall i :: 0 <= i < |s| ==> s[i] <= m
    ensures Sum(s) <= m * |s|
  {
    if s != [] {
      SumBound(s[..|s| - 1], m);
      assert m * |s| == m * (|s| - 1) + m;
    }
  }

  lemma {:induction false} TwoOutputs()
    ensures Sum([34, 34]) == 68 && |Varint(2).value| == 1
  {
    SumOfAppend([34], 34);
    SumOfAppend([], 34);
    assert [34] + [34] == [34, 34] && [] + [34] == [34];
  }

  /** Up to 65535 inputs of at most 148 bytes fit the estimate of 80 bytes plus 148 for each. */
  lemma {:induction false} TrialSizeBound(sizes: seq<nat>)
    requires |sizes| <= 65535 && forall i :: 0 <= i < |sizes| ==> sizes[i] <= MIN_INPUT_BYTES
    ensures TxSize(sizes, [34, 34]) <= BASE_BYTES + MIN_INPUT_BYTES * |sizes|
  {
    TwoOutputs();
    SumBound(sizes, MIN_INPUT_BYTES);
    assert |Varint(|sizes|).value| <= 3;
  }

  lemma {:induction false} SumOfEqual(s: seq<nat>, m: nat)
    requires forall i :: 0 <= i < |s| ==> s[i] == m
    ensures Sum(s) == m * |s|
  {
    if s != [] {
      SumOfEqual(s[..|s| - 1], m);
      assert m * |s| == m * (|s| - 1) + m;
    }
  }

  /** The bound is tight: with inputs of 148 bytes it holds exactly up to 65535 of them. */
  lemma {:induction false} TrialSizeBoundIff(sizes: seq<nat>)
    requires |sizes| <= MAX_UINT64 && forall i :: 0 <= i < |sizes| ==> sizes[i] == MIN_INPUT_BYTES
    ensures TxSize(sizes, [34, 34]) <= BASE_BYTES + MIN_INPUT_BYTES * |sizes| <==> |sizes| <= 65535
  {
    var n := |sizes|;
    TwoOutputs();
    SumOfEqual(sizes, MIN_INPUT_BYTES);
    assert |Varint(n).value| == if n <= 0xFC then 1 else if n <= 0xFFFF then 3 else if n <= 0xFFFF_FFFF then 5 else 9;
  }

  /** A selection that reached its target pays the fee of its own trial transaction. */
  lemma {:induction false} TargetCoversFee(total: nat, photons: int, rate: nat, sizes: seq<nat>)
    requires total >= photons + BASE_BYTES * rate + MIN_INPUT_BYTES * rate * |sizes|
    requires |sizes| <= 65535 && forall i :: 0 <= i < |sizes| ==> sizes[i] <= MIN_INPUT_BYTES
    ensures total >= photons + TxSize(sizes, [34, 34]) * rate
  {
    TrialSizeBound(sizes);
    hide TxSize;
    var n, size := |sizes|, TxSize(sizes, [34, 34]);
    assert size * rate <= (BASE_BYTES + MIN_INPUT_BYTES * n) * rate;
    assert (BASE_BYTES + MIN_INPUT_BYTES * n) * rate == BASE_BYTES * rate + MIN_INPUT_BYTES * rate * n;
  }

  /** The recipient gets the amount, and what is left over is change from 546 photons on. */
  ghost predicate PaysWithChange(p: Payment, photons: nat, minFee: nat) {
    var rest := Sum(p.inputs) - photons - minFee;
    p.outputs == if rest >= 546 then [photons, rest] else [photons]
  }

  /** With change the fee is minFee; without it, the fee exceeds minFee by less than the dust threshold. */
  lemma {:induction false} FeeOfPayment(p: Payment, photons: nat, minFee: nat)
    requires PaysWithChange(p, photons, minFee) && Sum(p.inputs) >= photons + minFee
    ensures 1 <= |p.outputs| <= 2 && p.outputs[0] == photons
    ensures |p.outputs| == 2 <==> Sum(p.inputs) >= photons + minFee + 546
    ensures |p.outputs| == 2 ==> p.outputs[1] >= 546 && Fee(p) == minFee
    ensures |p.outputs| == 1 ==> minFee <= Fee(p) < minFee + 546
  {
    hide Sum;
    NoSum();
    SumOfAppend([], photons);
    assert [] + [photons] == [photons];
    if |p.outputs| == 2 {
      SumOfAppend([photons], p.outputs[1]);
      assert [photons] + [p.outputs[1]] == [photons, p.outputs[1]];
    }
  }

  /** The end of build_send_tx: what is left over becomes change, or fee if it is dust. */
  method MakeChange(selected: seq<nat>, photons: nat, fee: nat) returns (r: Result<Payment>)
    ensures r.Ok? <==> Sum(selected) >= photons + fee
    ensures r.Ok? ==> r.value.inputs == selected && PaysWithChange(r.value, photons, fee)
    ensures r.Ok? ==> 1 <= |r.value.outputs| <= 2 && fee <= Fee(r.value) < fee + 546
    ensures r.Ok? && |r.value.outputs| == 2 ==> Fee(r.value) == fee
  {
    hide Sum;
    var totalIn := Sum(selected);
    if totalIn < photons + fee {
      return Err(ValidationError);
    }
    var change: nat := totalIn - photons - fee;
    if change >= DUST_THRESHOLD {
      r := Ok(Payment(selected, [photons, change]));
    } else {
      r := Ok(Payment(selected, [photons]));
    }
    FeeOfPayment(r.value, photons, fee);
  }

  function SignedSizes(signedSize: nat -> nat, n: nat): (r: seq<nat>)
    ensures |r| == n && forall i :: 0 <= i < n ==> r[i] == signedSize(i)
  {
    if n == 0 then [] else SignedSizes(signedSize, n - 1) + [signedSize(n - 1)]
  }

  /** The trial fee for n inputs. */
  function TrialFee(signedSize: nat -> nat, rate: nat, n: nat): nat
    requires n <= MAX_UINT64
  {
    TxSize(SignedSizes(signedSize, n), [34, 34]) * rate
  }

  /** Something is to be paid, and selection stops at its target with n inputs of the estimated size. */
  ghost predicate ReachesTarget(values: seq<nat>, photons: int, rate: nat, signedSize: nat -> nat, n: nat) {
    && photons > 0
    && StopsAt(SortDescending(values), photons, BASE_BYTES * rate, MIN_INPUT_BYTES * rate, n)
    && n <= 65535 && forall i :: 0 <= i < n ==> SignedSizes(signedSize, n)[i] <= MIN_INPUT_BYTES
  }

  lemma {:induction false} TargetPaysTrialFee(values: seq<nat>, photons: int, rate: nat, signedSize: nat -> nat, n: nat)
    requires ReachesTarget(values, photons, rate, signedSize, n)
    ensures Sum(SortDescending(values)[..n]) >= photons + TrialFee(signedSize, rate, n)
  {
    hide Sum, TxSize, SortDescending;
    TargetCoversFee(Sum(SortDescending(values)[..n]), photons, rate, SignedSizes(signedSize, n));
  }

  /** The selected coins are spendable and cover the amount and the trial fee. */
  ghost predicate Fundable(sorted: seq<nat>, photons: int, rate: nat, signedSize: nat -> nat, selection: Result<nat>)
    requires |sorted| <= MAX_UINT64
  {
    && selection.Ok? && selection.value <= |sorted|
    && 0 !in sorted[..selection.value]
    && Sum(sorted[..selection.value]) >= photons + TrialFee(signedSize, rate, selection.value)
  }

  ghost predicate SelectsForFee(values: seq<nat>, photons: int, rate: nat, selection: Result<nat>) {
    Selects(SortDescending(values), photons, BASE_BYTES * rate, MIN_INPUT_BYTES * rate, selection)
  }

  lemma {:induction false} NothingToSelect(photons: int, rate: nat, selection: Result<nat>)
    requires photons > 0 && SelectsForFee([], photons, rate, selection)
    ensures selection.Err?
  {
  }

  lemma {:induction false} OneSelection(values: seq<nat>, photons: int, rate: nat, s: Result<nat>, s': Result<nat>)
    requires SelectsForFee(values, photons, rate, s) && SelectsForFee(values, photons, rate, s')
    ensures s == s'
  {
    SelectsUnique(SortDescending(values), photons, BASE_BYTES * rate, MIN_INPUT_BYTES * rate, s, s');
  }

  /** build_send_tx succeeds exactly on a well-formed request whose selection is fundable, with
      exactly the selected coins. `validAddress` is the outcome of validate_address; `signedSize`
      gives the bytes of each signed input of the trial transaction; an output of it takes 34 bytes. */
  method BuildSendTx(values: seq<nat>, photons: int, rate: nat, validAddress: bool, signedSize: nat -> nat)
    returns (r: Result<Payment>)
    requires rate > 0 && |values| <= MAX_UINT64
    ensures forall s: Result<nat> :: SelectsForFee(values, photons, rate, s) ==>
              (r.Ok? <==> validAddress && photons >= 546
                          && Fundable(SortDescending(values), photons, rate, signedSize, s))
    ensures forall s: Result<nat> :: SelectsForFee(values, photons, rate, s) && r.Ok? && s.Ok? ==>
              s.value <= |values| && r.value.inputs == SortDescending(values)[..s.value]
    ensures r.Ok? ==> |r.value.inputs| <= |values| && photons > 0
                      && PaysWithChange(r.value, photons, TrialFee(signedSize, rate, |r.value.inputs|))
  {
    hide Selects, TrialFee, Sum, PaysWithChange, SortDescending;
    if photons <= 0 || photons < DUST_THRESHOLD || !validAddress {
      return Err(ValidationError);
    }
    if values == [] {
      forall s: Result<nat> | SelectsForFee(values, photons, rate, s) ensures s.Err? {
        NothingToSelect(photons, rate, s);
      }
      return Err(ValidationError);
    }
    var sorted := SortDescending(values);
    var chosen := SelectInline(sorted, photons, BASE_BYTES * rate, MIN_INPUT_BYTES * rate);
    ghost var selection: Result<nat> := if chosen.Ok? then Ok(|chosen.value|) else Err(ValidationError);
    assert SelectsForFee(values, photons, rate, selection);
    forall s: Result<nat> | SelectsForFee(values, photons, rate, s) ensures s == selection {
      OneSelection(values, photons, rate, s, selection);
    }
    if chosen.Err? {
      return Err(ValidationError);
    }
    assert chosen.value == sorted[..|chosen.value|];
    if 0 in chosen.value {
      return Err(ValidationError);
    }
    r := MakeChange(chosen.value, photons, TrialFee(signedSize, rate, |chosen.value|));
  }

  /** The last coin that is needed to reach the target is worth something. */
  lemma {:induction false} LastCoinCounts(values: seq<nat>, photons: int, base: nat, perInput: nat, k: nat)
    requires photons > 0 && StopsAt(values, photons, base, perInput, k)
    ensures values[k - 1] > 0
  {
    hide Sum;
    assert values[..k] == values[..k - 1] + [values[k - 1]];
    SumOfAppend(values[..k - 1], values[k - 1]);
    MulMonotone(k - 1, k, perInput);
    NonNegative(k, perInput);
    if k == 1 {
      NoSum();
      assert values[..0] == [];
    } else {
      assert !Enough(values, photons, base, perInput, k - 1);
    }
  }

  lemma {:induction false} NoZeroSelected(values: seq<nat>, photons: int, base: nat, perInput: nat, k: nat)
    requires Descending(values) && photons > 0 && StopsAt(values, photons, base, perInput, k)
    ensures 0 !in values[..k]
  {
    hide Sum;
    LastCoinCounts(values, photons, base, perInput, k);
    assert forall i :: 0 <= i < k ==> values[i] >= values[k - 1];
  }

  /** A selection that stops at its target is fundable: the error after the trial pass cannot happen. */
  lemma {:induction false} TargetIsFundable(values: seq<nat>, photons: int, rate: nat, signedSize: nat -> nat, n: nat)
    requires |values| <= MAX_UINT64 && ReachesTarget(values, photons, rate, signedSize, n)
    ensures SelectsForFee(values, photons, rate, Ok(n))
    ensures Fundable(SortDescending(values), photons, rate, signedSize, Ok(n))
  {
    hide Sum, TrialFee, SortDescending;
    SortedCoins(values);
    NoZeroSelected(SortDescending(values), photons, BASE_BYTES * rate, MIN_INPUT_BYTES * rate, n);
    TargetPaysTrialFee(values, photons, rate, signedSize, n);
  }

  // ---------------------------------------------------------------------------
  // Failures that a smaller choice would have avoided

  /** Spendable coins that pay the amount and the trial fee for their own number. */
  ghost predicate PaysItsFee(sorted: seq<nat>, photons: int, rate: nat, signedSize: nat -> nat, idx: seq<nat>) {
    && Choice(sorted, idx) && 0 < |idx| <= |sorted| <= MAX_UINT64
    && (forall i :: 0 <= i < |idx| ==> sorted[idx[i]] > 0)
    && SumAt(sorted, idx) >= photons + TrialFee(signedSize, rate, |idx|)
  }

  /** The k largest coins are spendable and pay the trial fee for k inputs. */
  ghost predicate LargestPay(sorted: seq<nat>, photons: int, rate: nat, signedSize: nat -> nat, k: nat)
    requires |sorted| <= MAX_UINT64
  {
    0 < k <= |sorted| && 0 !in sorted[..k] && photons + TrialFee(signedSize, rate, k) <= Sum(sorted[..k])
  }

  /** When a build fails for its selection, no number of largest coins reaches the estimate, and some
      choice of the coins would have done exactly when some number of largest coins would have. */
  lemma {:induction false} AvoidableIff(
    values: seq<nat>, photons: int, rate: nat, signedSize: nat -> nat, selection: Result<nat>)
    requires photons > 0 && |values| <= 65535 && forall i :: 0 <= i < |values| ==> signedSize(i) <= MIN_INPUT_BYTES
    requires SelectsForFee(values, photons, rate, selection)
    requires !Fundable(SortDescending(values), photons, rate, signedSize, selection)
    ensures var sorted := SortDescending(values);
            (exists idx :: PaysItsFee(sorted, photons, rate, signedSize, idx)) <==>
            (exists k: nat :: LargestPay(sorted, photons, rate, signedSize, k))
    ensures var sorted := SortDescending(values);
            forall k: nat :: 0 < k <= |sorted| ==> Sum(sorted[..k]) < photons + 80 * rate + 148 * rate * k
  {
    hide Sum, SumAt, TrialFee, SortDescending, Fundable;
    var sorted := SortDescending(values);
    SortedCoins(values);
    NothingReached(values, photons, rate, signedSize, selection);
    forall idx | PaysItsFee(sorted, photons, rate, signedSize, idx)
      ensures LargestPay(sorted, photons, rate, signedSize, |idx|)
    {
      LargestAreMost(sorted, idx);
      ChoiceIndexBound(sorted, idx, |idx| - 1);
      assert !Enough(sorted, photons, BASE_BYTES * rate, MIN_INPUT_BYTES * rate, |idx|);
    }
    forall k: nat | 0 < k <= |sorted|
      ensures Sum(sorted[..k]) < photons + 80 * rate + 148 * rate * k
    {
      assert !Enough(sorted, photons, BASE_BYTES * rate, MIN_INPUT_BYTES * rate, k);
    }
    forall k: nat | LargestPay(sorted, photons, rate, signedSize, k)
      ensures PaysItsFee(sorted, photons, rate, signedSize, First(k))
    {
      FirstCoins(sorted, k);
      assert forall i :: 0 <= i < k ==> sorted[i] == sorted[..k][i];
    }
  }

  lemma {:induction false} NothingReached(
    values: seq<nat>, photons: int, rate: nat, signedSize: nat -> nat, selection: Result<nat>)
    requires photons > 0 && |values| <= 65535 && forall i :: 0 <= i < |values| ==> signedSize(i) <= MIN_INPUT_BYTES
    requires SelectsForFee(values, photons, rate, selection)
    requires !Fundable(SortDescending(values), photons, rate, signedSize, selection)
    ensures NeverStops(SortDescending(values), photons, BASE_BYTES * rate, MIN_INPUT_BYTES * rate)
  {
    hide Sum, TrialFee, SortDescending, Fundable, NeverStops, Enough;
    if !NeverStops(SortDescending(values), photons, BASE_BYTES * rate, MIN_INPUT_BYTES * rate) {
      TargetIsFundable(values, photons, rate, signedSize, selection.value);
    }
  }

  lemma {:induction false} SmallFees(signedSize: nat -> nat, rate: nat, size: nat)
    requires signedSize(0) == signedSize(1) == size
    ensures TrialFee(signedSize, rate, 1) == (78 + size) * rate
    ensures TrialFee(signedSize, rate, 2) == (78 + 2 * size) * rate
  {
    TwoOutputs();
    assert SignedSizes(signedSize, 1) == [size] && SignedSizes(signedSize, 2) == [size, size];
    TwoCoins(size, size);
    assert |Varint(1).value| == 1;
  }

  lemma {:induction false} TwoCoins(v: nat, c: nat)
    ensures Sum([v]) == v && Sum([v, c]) == v + c
    ensures v >= c ==> SortDescending([v, c]) == [v, c]
    ensures [v, c][..1] == [v] && [v, c][..2] == [v, c]
  {
    hide Sum;
    NoSum();
    SumOfAppend([], v);
    SumOfAppend([v], c);
    assert [] + [v] == [v] && [v] + [c] == [v, c];
    assert [v][..0] == [] && [v, c][..1] == [v];
    assert SortDescending([v]) == [v];
  }

  /** Of two coins the larger alone would have paid a payment that fails exactly when it lies between
      the size of a transaction with one input and the 228 bytes of the estimate, and both together do
      not pay for two inputs. */
  lemma {:induction false} TwoCoinsIff(
    v: nat, c: nat, photons: int, rate: nat, signedSize: nat -> nat, size: nat, selection: Result<nat>)
    requires v >= c > 0 && photons > 0 && signedSize(0) == signedSize(1) == size <= MIN_INPUT_BYTES
    requires SelectsForFee([v, c], photons, rate, selection)
    ensures (&& !Fundable(SortDescending([v, c]), photons, rate, signedSize, selection)
             && v >= photons + TrialFee(signedSize, rate, 1)) <==>
            (&& photons + (78 + size) * rate <= v < photons + 228 * rate
             && v + c < photons + (78 + 2 * size) * rate)
  {
    hide Sum, TrialFee, SortDescending, Selects;
    TwoCoins(v, c);
    SmallFees(signedSize, rate, size);
    MulMonotone(78 + size, 228, rate);
    MulMonotone(78 + 2 * size, 376, rate);
    TwoCoinsSelected(v, c, photons, rate, selection);
  }

  lemma {:induction false} TwoCoinsSelected(v: nat, c: nat, photons: int, rate: nat, selection: Result<nat>)
    requires v >= c > 0 && photons > 0 && SelectsForFee([v, c], photons, rate, selection)
    ensures selection == if v >= photons + 228 * rate then Ok(1)
                         else if v + c >= photons then Ok(2)
                         else Err(ValidationError)
  {
    hide Sum, SortDescending;
    TwoCoins(v, c);
    var r: Result<nat> := if v >= photons + 228 * rate then Ok(1)
                          else if v + c >= photons then Ok(2)
                          else Err(ValidationError);
    assert Enough([v, c], photons, BASE_BYTES * rate, MIN_INPUT_BYTES * rate, 1) <==> v >= photons + 228 * rate;
    assert Selects([v, c], photons, BASE_BYTES * rate, MIN_INPUT_BYTES * rate, r);
    SelectsUnique([v, c], photons, BASE_BYTES * rate, MIN_INPUT_BYTES * rate, selection, r);
  }

  /** For every rate and amount, with inputs of 146 bytes: a coin that pays the amount and the fee of
      its own transaction exactly, and a coin worth 1. Selection takes both, and the build fails. */
  lemma {:induction false} AvoidableFailure(photons: nat, rate: nat, signedSize: nat -> nat, selection: Result<nat>)
    requires rate > 0 && photons >= DUST_THRESHOLD && signedSize(0) == signedSize(1) == 146
    requires SelectsForFee([photons + 224 * rate, 1], photons, rate, selection)
    ensures selection == Ok(2)
    ensures !Fundable(SortDescending([photons + 224 * rate, 1]), photons, rate, signedSize, selection)
    ensures photons + 224 * rate == photons + TrialFee(signedSize, rate, 1)
  {
    hide Sum, TrialFee, SortDescending, Selects, Fundable, SelectsForFee;
    TwoCoinsSelected(photons + 224 * rate, 1, photons, rate, selection);
    TwoCoinsIff(photons + 224 * rate, 1, photons, rate, signedSize, 146, selection);
    SmallFees(signedSize, rate, 146);
  }
}
