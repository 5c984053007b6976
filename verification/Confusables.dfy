/** The confusables table: its transitive closure, its filters, and the skeleton it gives. */
module Confusables {

  type Text = seq<nat>
  type Table = map<nat, Text>

  const MAX_ROUNDS := 50

  // ---------------------------------------------------------------------------
  // Every mapped character replaced at once

  function Lookup(t: Table, c: nat): Text {
    if c in t then t[c] else [c]
  }

  /** skeleton: one lookup for each character */
  function Skeleton(t: Table, s: Text): Text
    decreases |s|
  {
    if s == [] then [] else Skeleton(t, s[..|s| - 1]) + Lookup(t, s[|s| - 1])
  }

  /** Skeleton taken k times */
  function Iterate(t: Table, s: Text, k: nat): Text
    decreases k
  {
    if k == 0 then s else Iterate(t, Skeleton(t, s), k - 1)
  }

  /** The mapped characters of s, in order */
  function Mapped(t: Table, s: Text): Text
    decreases |s|
  {
    if s == [] then []
    else
      var front, c := Mapped(t, s[..|s| - 1]), s[|s| - 1];
      if c in t then front + [c] else front
  }

  /** The mapped characters met in s and in its next k - 1 skeletons */
  function Met(t: Table, s: Text, k: nat): Text
    decreases k
  {
    if k == 0 then [] else Mapped(t, s) + Met(t, Skeleton(t, s), k - 1)
  }

  predicate IsClosed(t: Table, s: Text) {
    forall c :: c in s ==> c !in t
  }

  ghost function Elements(s: Text): set<nat> {
    set c | c in s
  }

  /** No member of seen occurs in s, and nothing occurs twice. */
  ghost predicate NoRepeat(s: Text, seen: set<nat>) {
    && (forall i :: 0 <= i < |s| ==> s[i] !in seen)
    && (forall i, j :: 0 <= i < j < |s| ==> s[i] != s[j])
  }

  // ---------------------------------------------------------------------------
  // The rounds of the closure

  datatype Round = Round(text: Text, seen: set<nat>, changed: bool)

  /** One pass over the characters: each mapped one is expanded the first time it is met. */
  function Step(t: Table, s: Text, seen: set<nat>): Round
    decreases |s|
  {
    if s == [] then Round([], seen, false)
    else
      var front, c := Step(t, s[..|s| - 1], seen), s[|s| - 1];
      if c in front.seen then front.(text := front.text + [c])
      else if c in t then Round(front.text + t[c], front.seen + {c}, true)
      else front.(text := front.text + [c])
  }

  /** At most fuel passes, ending with the first that changes nothing */
  function Rounds(t: Table, s: Text, seen: set<nat>, fuel: nat): Text
    decreases fuel
  {
    if fuel == 0 then s
    else
      var r := Step(t, s, seen);
      if r.changed then Rounds(t, r.text, r.seen, fuel - 1) else r.text
  }

  /** The closed target of one source */
  function Close(t: Table, source: nat): Text
    requires source in t
  {
    Rounds(t, t[source], {source}, MAX_ROUNDS)
  }

  lemma {:induction false} StepGrows(t: Table, s: Text, seen: set<nat>)
    ensures var r := Step(t, s, seen);
      && seen <= r.seen && r.seen - seen <= t.Keys
      && (r.changed <==> r.seen != seen)
      && (!r.changed ==> r.text == s)
  {
    if s != [] {
      StepGrows(t, s[..|s| - 1], seen);
    }
  }

  lemma {:induction false} FewerLeft(t: Table, s: Text, seen: set<nat>)
    requires Step(t, s, seen).changed
    ensures |t.Keys - Step(t, s, seen).seen| < |t.Keys - seen|
  {
    StepGrows(t, s, seen);
    var after := Step(t, s, seen).seen;
    assert !(after <= seen);
    var c :| c in after && c !in seen;
    Shrinks(t.Keys - after, t.Keys - seen, c);
  }

  lemma {:induction false} Shrinks(a: set<nat>, b: set<nat>, c: nat)
    requires a <= b && c in b && c !in a
    ensures |a| < |b|
  {
    NotLarger(a, b - {c});
  }

  lemma {:induction false} NotLarger(a: set<nat>, b: set<nat>)
    requires a <= b
    ensures |a| <= |b|
    decreases a
  {
    if c :| c in a {
      NotLarger(a - {c}, b - {c});
    }
  }

  /** The passes without a cap, and how many of them change something */
  function Settle(t: Table, s: Text, seen: set<nat>): (Text, nat)
    decreases |t.Keys - seen|
  {
    var r := Step(t, s, seen);
    if !r.changed then (r.text, 0)
    else
      FewerLeft(t, s, seen);
      var (text, count) := Settle(t, r.text, r.seen);
      (text, count + 1)
  }

  /** Without the cap the passes still end: each one that changes something uses up a source. */
  lemma {:induction false} SettleBound(t: Table, s: Text, seen: set<nat>)
    ensures Settle(t, s, seen).1 <= |t.Keys - seen|
    decreases |t.Keys - seen|
  {
    var r := Step(t, s, seen);
    if r.changed {
      FewerLeft(t, s, seen);
      SettleBound(t, r.text, r.seen);
    }
  }

  /** The cap matters only when more passes than it allows change something. */
  lemma {:induction false} RoundsSettle(t: Table, s: Text, seen: set<nat>, fuel: nat)
    requires Settle(t, s, seen).1 <= fuel
    ensures Rounds(t, s, seen, fuel) == Settle(t, s, seen).0
    decreases fuel
  {
    var r := Step(t, s, seen);
    StepGrows(t, s, seen);
    if r.changed {
      RoundsSettle(t, r.text, r.seen, fuel - 1);
    }
  }

  /** A table of at most 51 entries is never cut short. */
  lemma {:induction false} SmallTableSettles(t: Table, source: nat)
    requires source in t
    ensures Settle(t, t[source], {source}).1 < |t|
    ensures |t| <= MAX_ROUNDS + 1 ==> Close(t, source) == Settle(t, t[source], {source}).0
  {
    SettleBound(t, t[source], {source});
    Shrinks(t.Keys - {source}, t.Keys, source);
    if |t| <= MAX_ROUNDS + 1 {
      RoundsSettle(t, t[source], {source}, MAX_ROUNDS);
    }
  }

  // ---------------------------------------------------------------------------
  // When the closure closes

  lemma {:induction false} MappedIsClosed(t: Table, s: Text)
    ensures Mapped(t, s) == [] <==> IsClosed(t, s)
  {
    if s != [] {
      var front, c := s[..|s| - 1], s[|s| - 1];
      MappedIsClosed(t, front);
      assert s == front + [c];
    }
  }

  lemma {:induction false} SkeletonOfClosed(t: Table, s: Text)
    requires IsClosed(t, s)
    ensures Skeleton(t, s) == s
  {
    if s != [] {
      var front := s[..|s| - 1];
      assert s == front + [s[|s| - 1]];
      SkeletonOfClosed(t, front);
    }
  }

  lemma {:induction false} ClosedIsFixed(t: Table, s: Text, k: nat)
    requires IsClosed(t, s)
    ensures Iterate(t, s, k) == s && Met(t, s, k) == []
    decreases k
  {
    if k > 0 {
      SkeletonOfClosed(t, s);
      MappedIsClosed(t, s);
      ClosedIsFixed(t, s, k - 1);
    }
  }

  lemma {:induction false} NoRepeatConcat(a: Text, b: Text, seen: set<nat>)
    ensures NoRepeat(a + b, seen) <==> NoRepeat(a, seen) && NoRepeat(b, seen + Elements(a))
  {
    if NoRepeat(a + b, seen) {
      NoRepeatPrefix(a, b, seen);
      NoRepeatSuffix(a, b, seen);
    }
  }

  lemma {:induction false} NoRepeatPrefix(a: Text, b: Text, seen: set<nat>)
    requires NoRepeat(a + b, seen)
    ensures NoRepeat(a, seen)
  {
    assert forall i :: 0 <= i < |a| ==> a[i] == (a + b)[i];
  }

  lemma {:induction false} NoRepeatSuffix(a: Text, b: Text, seen: set<nat>)
    requires NoRepeat(a + b, seen)
    ensures NoRepeat(b, seen + Elements(a))
  {
    var s := a + b;
    assert forall i :: 0 <= i < |a| ==> a[i] == s[i];
    assert forall i :: 0 <= i < |b| ==> b[i] == s[|a| + i];
  }

  lemma {:induction false} ElementsConcat(a: Text, b: Text)
    ensures Elements(a + b) == Elements(a) + Elements(b)
  {
  }

  /** Without repeats one pass is the skeleton, and it has seen the mapped characters. */
  lemma {:induction false} StepWithoutRepeat(t: Table, s: Text, seen: set<nat>)
    requires NoRepeat(Mapped(t, s), seen)
    ensures var r := Step(t, s, seen);
      && r.text == Skeleton(t, s)
      && r.seen == seen + Elements(Mapped(t, s))
      && (r.changed <==> Mapped(t, s) != [])
  {
    if s != [] {
      var front, c := s[..|s| - 1], s[|s| - 1];
      if c in t {
        NoRepeatConcat(Mapped(t, front), [c], seen);
        ElementsConcat(Mapped(t, front), [c]);
        assert [c][0] == c;
      }
      StepWithoutRepeat(t, front, seen);
    }
  }

  /** A mapped character already seen will never be expanded again. */
  ghost predicate Stuck(t: Table, s: Text, seen: set<nat>) {
    exists c :: c in s && c in t && c in seen
  }

  lemma {:induction false} StepKeepsSeen(t: Table, s: Text, seen: set<nat>, c: nat)
    requires c in s && c in seen
    ensures c in Step(t, s, seen).text && c in Step(t, s, seen).seen
  {
    var front, d := s[..|s| - 1], s[|s| - 1];
    StepGrows(t, front, seen);
    if c != d {
      assert s == front + [d];
      StepKeepsSeen(t, front, seen, c);
    }
  }

  lemma {:induction false} StepWithRepeat(t: Table, s: Text, seen: set<nat>)
    requires !NoRepeat(Mapped(t, s), seen)
    ensures Stuck(t, Step(t, s, seen).text, Step(t, s, seen).seen)
  {
    var front, c := s[..|s| - 1], s[|s| - 1];
    var r := Step(t, front, seen);
    if NoRepeat(Mapped(t, front), seen) {
      StepWithoutRepeat(t, front, seen);
      NoRepeatConcat(Mapped(t, front), [c], seen);
      LastIsStuck(t, s, seen);
    } else {
      StepWithRepeat(t, front, seen);
      var d :| d in r.text && d in t && d in r.seen;
      assert d in Step(t, s, seen).text;
    }
  }

  lemma {:induction false} LastIsStuck(t: Table, s: Text, seen: set<nat>)
    requires s != [] && s[|s| - 1] in t && s[|s| - 1] in Step(t, s[..|s| - 1], seen).seen
    ensures Stuck(t, Step(t, s, seen).text, Step(t, s, seen).seen)
  {
    assert s[|s| - 1] in Step(t, s, seen).text;
  }

  lemma {:induction false} StuckStays(t: Table, s: Text, seen: set<nat>, fuel: nat)
    requires Stuck(t, s, seen)
    ensures !IsClosed(t, Rounds(t, s, seen, fuel))
    decreases fuel
  {
    var c :| c in s && c in t && c in seen;
    if fuel > 0 {
      StepKeepsSeen(t, s, seen, c);
      var r := Step(t, s, seen);
      if r.changed {
        StuckStays(t, r.text, r.seen, fuel - 1);
      }
    }
  }

  /** Without repeats the passes compute the iterated skeleton. */
  lemma {:induction false} RoundsWithoutRepeat(t: Table, s: Text, seen: set<nat>, fuel: nat)
    requires NoRepeat(Met(t, s, fuel), seen)
    ensures Rounds(t, s, seen, fuel) == Iterate(t, s, fuel)
    decreases fuel
  {
    if fuel > 0 {
      var next := Skeleton(t, s);
      NoRepeatConcat(Mapped(t, s), Met(t, next, fuel - 1), seen);
      StepWithoutRepeat(t, s, seen);
      if Mapped(t, s) == [] {
        MappedIsClosed(t, s);
        ClosedIsFixed(t, s, fuel);
        StepGrows(t, s, seen);
      } else {
        RoundsWithoutRepeat(t, next, Step(t, s, seen).seen, fuel - 1);
      }
    }
  }

  lemma {:induction false} RoundsStep(t: Table, s: Text, seen: set<nat>, fuel: nat)
    requires fuel > 0
    ensures var r := Step(t, s, seen);
            Rounds(t, s, seen, fuel) == if r.changed then Rounds(t, r.text, r.seen, fuel - 1) else s
  {
    StepGrows(t, s, seen);
    hide Step;
  }

  lemma {:induction false} MetStep(t: Table, s: Text, k: nat)
    ensures Met(t, s, 0) == [] && Iterate(t, s, 0) == s
    ensures k > 0 ==> Met(t, s, k) == Mapped(t, s) + Met(t, Skeleton(t, s), k - 1)
    ensures k > 0 ==> Iterate(t, s, k) == Iterate(t, Skeleton(t, s), k - 1)
  {
  }

  lemma {:induction false} NothingRepeats(seen: set<nat>)
    ensures NoRepeat([], seen)
  {
  }

  /** A closed result shows that nothing repeated. */
  lemma {:induction false} ClosedHasNoRepeat(t: Table, s: Text, seen: set<nat>, fuel: nat)
    requires IsClosed(t, Rounds(t, s, seen, fuel))
    ensures NoRepeat(Met(t, s, fuel), seen)
    decreases fuel
  {
    hide *;
    NothingRepeats(seen);
    MetStep(t, s, fuel);
    if fuel > 0 {
      RoundsStep(t, s, seen, fuel);
      if !Step(t, s, seen).changed {
        ClosedIsFixed(t, s, fuel);
      } else {
        ClosedRound(t, s, seen, fuel);
        StepWithoutRepeat(t, s, seen);
        ClosedHasNoRepeat(t, Skeleton(t, s), seen + Elements(Mapped(t, s)), fuel - 1);
        NoRepeatConcat(Mapped(t, s), Met(t, Skeleton(t, s), fuel - 1), seen);
      }
    }
  }

  /** A repeat in one round would keep the result from closing. */
  lemma {:induction false} ClosedRound(t: Table, s: Text, seen: set<nat>, fuel: nat)
    requires fuel > 0 && Step(t, s, seen).changed && IsClosed(t, Rounds(t, s, seen, fuel))
    ensures NoRepeat(Mapped(t, s), seen)
  {
    hide *;
    RoundsStep(t, s, seen, fuel);
    if !NoRepeat(Mapped(t, s), seen) {
      var r := Step(t, s, seen);
      StepWithRepeat(t, s, seen);
      StuckStays(t, r.text, r.seen, fuel - 1);
    }
  }

  // ---------------------------------------------------------------------------
  // How deep an expansion goes

  /** How many of the next k skeletons still change something */
  function Depth(t: Table, s: Text, k: nat): (d: nat)
    ensures d <= k
    decreases k
  {
    if k == 0 || Mapped(t, s) == [] then 0 else 1 + Depth(t, Skeleton(t, s), k - 1)
  }

  /** Each of them meets a mapped character. */
  lemma {:induction false} DepthBelowMet(t: Table, s: Text, k: nat)
    ensures Depth(t, s, k) <= |Met(t, s, k)|
    decreases k
  {
    hide Mapped;
    if k > 0 && Mapped(t, s) != [] {
      DepthBelowMet(t, Skeleton(t, s), k - 1);
    }
  }

  lemma {:induction false} MappedAreKeys(t: Table, s: Text)
    ensures Elements(Mapped(t, s)) <= t.Keys
  {
    if s != [] {
      MappedAreKeys(t, s[..|s| - 1]);
      ElementsConcat(Mapped(t, s[..|s| - 1]), [s[|s| - 1]]);
    }
  }

  lemma {:induction false} MetAreKeys(t: Table, s: Text, k: nat)
    ensures Elements(Met(t, s, k)) <= t.Keys
    decreases k
  {
    hide Elements, Mapped;
    MetStep(t, s, k);
    NoElements();
    if k > 0 {
      MappedAreKeys(t, s);
      MetAreKeys(t, Skeleton(t, s), k - 1);
      ElementsConcat(Mapped(t, s), Met(t, Skeleton(t, s), k - 1));
    }
  }

  lemma {:induction false} NoElements()
    ensures Elements([]) == {}
  {
  }

  /** Characters of a set that do not repeat are no more than the set has. */
  lemma {:induction false} NoRepeatIsShort(s: Text, seen: set<nat>, keys: set<nat>)
    requires NoRepeat(s, seen) && Elements(s) <= keys
    ensures |s| <= |keys - seen|
    decreases |s|
  {
    if s != [] {
      var front, c := s[..|s| - 1], s[|s| - 1];
      assert s == front + [c];
      NoRepeatPrefix(front, [c], seen);
      assert c in Elements(s);
      assert Elements(front) <= keys - {c};
      NoRepeatIsShort(front, seen, keys - {c});
      assert c in keys - seen && (keys - {c}) - seen == (keys - seen) - {c};
    }
  }

  /** Without repeats an expansion is shallower than the table has entries. */
  lemma {:induction false} NoRepeatIsShallow(t: Table, source: nat, k: nat)
    requires source in t && NoRepeat(Met(t, t[source], k), {source})
    ensures Depth(t, t[source], k) < |t|
  {
    hide NoRepeat, Met, Depth, Elements;
    DepthBelowMet(t, t[source], k);
    MetAreKeys(t, t[source], k);
    NoRepeatIsShort(Met(t, t[source], k), {source}, t.Keys);
    Shrinks(t.Keys - {source}, t.Keys, source);
  }

  /** From its depth on, an expansion stays as it is. */
  lemma {:induction false} SettledAtDepth(t: Table, s: Text, k: nat, j: nat)
    requires Depth(t, s, k) < k && Depth(t, s, k) <= j
    ensures IsClosed(t, Iterate(t, s, j)) && Iterate(t, s, j) == Iterate(t, s, k) && Met(t, s, j) == Met(t, s, k)
    decreases k
  {
    hide Mapped, IsClosed, Met, Iterate;
    MappedIsClosed(t, s);
    if Mapped(t, s) == [] {
      ClosedIsFixed(t, s, k);
      ClosedIsFixed(t, s, j);
    } else {
      MetStep(t, s, k);
      MetStep(t, s, j);
      SettledAtDepth(t, Skeleton(t, s), k - 1, j - 1);
    }
  }

  /** An expansion that is closed after k skeletons is at most k deep and meets nothing more. */
  lemma {:induction false} ClosedIsDeep(t: Table, s: Text, k: nat, j: nat)
    requires IsClosed(t, Iterate(t, s, k))
    ensures Depth(t, s, j) <= k && Met(t, s, j) <= Met(t, s, k)
    decreases j
  {
    hide Mapped, IsClosed, Met, Iterate;
    MetStep(t, s, k);
    MetStep(t, s, j);
    MappedIsClosed(t, s);
    if Mapped(t, s) == [] {
      ClosedIsFixed(t, s, k);
      ClosedIsFixed(t, s, j);
    } else if j > 0 {
      ClosedIsDeep(t, Skeleton(t, s), k - 1, j - 1);
      SamePrefix(Mapped(t, s), Met(t, Skeleton(t, s), j - 1), Met(t, Skeleton(t, s), k - 1));
    }
  }

  lemma {:induction false} SamePrefix(a: Text, b: Text, c: Text)
    requires b <= c
    ensures a + b <= a + c
  {
    assert a + c == (a + b) + c[|b|..];
  }

  /** What the closure is meant to reach: every expansion carried to its end. */
  function FullExpansion(t: Table, source: nat): Text
    requires source in t
  {
    Iterate(t, t[source], |t|)
  }

  /** Expanding a source all the way meets no mapped character twice, the source included. */
  ghost predicate RepeatFree(t: Table, source: nat)
    requires source in t
  {
    NoRepeat(Met(t, t[source], |t|), {source})
  }

  /** The number of rounds in which expanding a source changes something. */
  function RoundsNeeded(t: Table, source: nat): nat
    requires source in t
  {
    Depth(t, t[source], |t|)
  }

  /** The closed target has no mapped character left exactly when the source is repeat-free and needs
      no more rounds than the cap allows; then it is the full expansion. */
  lemma {:induction false} ClosesIff(t: Table, source: nat)
    requires source in t
    ensures IsClosed(t, Close(t, source)) <==> RepeatFree(t, source) && RoundsNeeded(t, source) <= MAX_ROUNDS
    ensures IsClosed(t, Close(t, source)) ==> Close(t, source) == FullExpansion(t, source)
  {
    hide IsClosed, NoRepeat, Met, Rounds, Iterate, Depth;
    var s := t[source];
    if IsClosed(t, Close(t, source)) {
      ClosedHasNoRepeat(t, s, {source}, MAX_ROUNDS);
      RoundsWithoutRepeat(t, s, {source}, MAX_ROUNDS);
      ClosedIsDeep(t, s, MAX_ROUNDS, |t|);
      PrefixHasNoRepeat(Met(t, s, |t|), Met(t, s, MAX_ROUNDS), {source});
    }
    if RepeatFree(t, source) && RoundsNeeded(t, source) <= MAX_ROUNDS {
      NoRepeatIsShallow(t, source, |t|);
      SettledAtDepth(t, s, |t|, MAX_ROUNDS);
      RoundsWithoutRepeat(t, s, {source}, MAX_ROUNDS);
    }
  }

  lemma {:induction false} PrefixHasNoRepeat(a: Text, b: Text, seen: set<nat>)
    requires a <= b && NoRepeat(b, seen)
    ensures NoRepeat(a, seen)
  {
    assert b == a + b[|a|..];
    NoRepeatPrefix(a, b[|a|..], seen);
  }

  /** In a table of at most 51 entries the cap does not matter. */
  lemma {:induction false} SmallTableClosesIff(t: Table, source: nat)
    requires source in t && |t| <= MAX_ROUNDS + 1
    ensures IsClosed(t, Close(t, source)) <==> RepeatFree(t, source)
  {
    hide IsClosed, NoRepeat, Met, Rounds, Iterate, Depth;
    ClosesIff(t, source);
    if RepeatFree(t, source) {
      NoRepeatIsShallow(t, source, |t|);
    }
  }

  // ---------------------------------------------------------------------------
  // The skeleton

  lemma {:induction false} SkeletonSnoc(t: Table, s: Text, c: nat)
    ensures Skeleton(t, s + [c]) == Skeleton(t, s) + Lookup(t, c)
  {
    assert (s + [c])[..|s|] == s;
  }

  lemma {:induction false} SkeletonOfNone(t: Table)
    ensures Skeleton(t, []) == []
  {
  }

  lemma {:induction false} SkeletonConcat(t: Table, a: Text, b: Text)
    ensures Skeleton(t, a + b) == Skeleton(t, a) + Skeleton(t, b)
    decreases |b|
  {
    hide Lookup, Skeleton;
    if b == [] {
      assert a + b == a;
      SkeletonOfNone(t);
    } else {
      var front, c := b[..|b| - 1], b[|b| - 1];
      SkeletonConcat(t, a, front);
      SkeletonSnoc(t, a + front, c);
      SkeletonSnoc(t, front, c);
      assert b == front + [c];
      assert a + b == (a + front) + [c];
    }
  }

  lemma {:induction false} SkeletonOfOne(t: Table, c: nat)
    ensures Skeleton(t, [c]) == Lookup(t, c)
  {
    assert Skeleton(t, []) == [];
  }

  ghost predicate Idempotent(t: Table) {
    forall s: Text :: Skeleton(t, Skeleton(t, s)) == Skeleton(t, s)
  }

  lemma {:induction false} SkeletonTwice(t: Table, s: Text)
    requires forall c :: c in t ==> Skeleton(t, t[c]) == t[c]
    ensures Skeleton(t, Skeleton(t, s)) == Skeleton(t, s)
    decreases |s|
  {
    if s != [] {
      var front, c := s[..|s| - 1], s[|s| - 1];
      SkeletonTwice(t, front);
      SkeletonConcat(t, Skeleton(t, front), Lookup(t, c));
      SkeletonOfOne(t, c);
    }
  }

  /** The skeleton is idempotent exactly when it leaves every target of the table alone. */
  lemma {:induction false} IdempotentIff(t: Table)
    ensures Idempotent(t) <==> forall c :: c in t ==> Skeleton(t, t[c]) == t[c]
  {
    if Idempotent(t) {
      forall c | c in t ensures Skeleton(t, t[c]) == t[c] {
        SkeletonOfOne(t, c);
        assert Skeleton(t, Skeleton(t, [c])) == Skeleton(t, [c]);
      }
    }
    if forall c :: c in t ==> Skeleton(t, t[c]) == t[c] {
      forall s: Text ensures Skeleton(t, Skeleton(t, s)) == Skeleton(t, s) {
        SkeletonTwice(t, s);
      }
    }
  }

  // ---------------------------------------------------------------------------
  // The filters and the vendored table

  /** A Unicode general category, as its two letters */
  datatype Category = Category(major: char, minor: char)

  predicate IsAscii(c: nat) {
    0x20 <= c < 0x7F
  }

  predicate Displayable(category: nat -> Category, c: nat) {
    category(c).major == 'L' || category(c).major == 'N' || category(c).major == 'P'
  }

  predicate Invisible(category: nat -> Category, c: nat) {
    category(c) == Category('C', 'c') || category(c) == Category('C', 'f')
  }

  /** Whether the three filters keep an entry */
  predicate Relevant(category: nat -> Category, source: nat, target: Text) {
    && !IsAscii(source)
    && (exists c :: c in target && Displayable(category, c))
    && (forall c :: c in target ==> !Invisible(category, c))
  }

  ghost predicate IsClosureOf(closed: Table, t: Table) {
    closed.Keys == t.Keys && forall c :: c in t ==> closed[c] == Close(t, c)
  }

  ghost predicate IsFilterOf(kept: Table, closed: Table, category: nat -> Category) {
    && (forall c :: c in kept <==> c in closed && Relevant(category, c, closed[c]))
    && (forall c :: c in kept ==> kept[c] == closed[c])
  }

  /** No target is empty. */
  ghost predicate HasTargets(t: Table) {
    forall c :: c in t ==> t[c] != []
  }

  lemma {:induction false} SkeletonNotShorter(t: Table, s: Text)
    requires HasTargets(t)
    ensures |Skeleton(t, s)| >= |s|
    decreases |s|
  {
    if s != [] {
      SkeletonNotShorter(t, s[..|s| - 1]);
    }
  }

  /** A text is its own skeleton exactly when each of its mapped characters is mapped to itself. */
  lemma {:induction false} OwnSkeletonIff(t: Table, s: Text)
    requires HasTargets(t)
    ensures Skeleton(t, s) == s <==> forall d :: d in s && d in t ==> t[d] == [d]
    decreases |s|
  {
    hide Skeleton, HasTargets;
    if s == [] {
      SkeletonOfNone(t);
    } else {
      var front, d := s[..|s| - 1], s[|s| - 1];
      assert s == front + [d];
      OwnSkeletonIff(t, front);
      SkeletonSnoc(t, front, d);
      SkeletonNotShorter(t, front);
      LookupNotEmpty(t, d);
      LastKept(Skeleton(t, front), Lookup(t, d), front, d);
    }
  }

  lemma {:induction false} LookupNotEmpty(t: Table, d: nat)
    requires HasTargets(t)
    ensures Lookup(t, d) != []
  {
  }

  lemma {:induction false} LastKept(a: Text, b: Text, front: Text, d: nat)
    requires |a| >= |front| && b != []
    ensures a + b == front + [d] <==> a == front && b == [d]
  {
    if a + b == front + [d] {
      assert |a| == |front| && |b| == 1;
      assert a == (a + b)[..|a|] && b == (a + b)[|a|..];
    }
  }

  lemma {:induction false} FilteredHasTargets(kept: Table, closed: Table, category: nat -> Category)
    requires IsFilterOf(kept, closed, category)
    ensures HasTargets(kept)
  {
  }

  /** For what the filters keep, the skeleton is idempotent exactly when every kept source that occurs
      in a kept target stands for itself. */
  lemma {:induction false} FilteredIdempotentIff(kept: Table, closed: Table, category: nat -> Category)
    requires IsFilterOf(kept, closed, category)
    ensures Idempotent(kept) <==> forall c, d :: c in kept && d in kept[c] && d in kept ==> kept[d] == [d]
  {
    hide Skeleton, Idempotent, IsFilterOf, HasTargets;
    FilteredHasTargets(kept, closed, category);
    IdempotentIff(kept);
    forall c | c in kept
      ensures Skeleton(kept, kept[c]) == kept[c] <==> forall d :: d in kept[c] && d in kept ==> kept[d] == [d]
    {
      OwnSkeletonIff(kept, kept[c]);
    }
  }

  /** So it is over the vendored table when every kept source is repeat-free and needs no more rounds
      than the cap allows. */
  lemma {:induction false} VendoredIsIdempotent(t: Table, closed: Table, kept: Table, category: nat -> Category)
    requires IsClosureOf(closed, t) && IsFilterOf(kept, closed, category)
    ensures Idempotent(kept) <==> forall c, d :: c in kept && d in Close(t, c) && d in kept ==> Close(t, d) == [d]
    ensures (forall c :: c in kept && c in t ==> RepeatFree(t, c) && RoundsNeeded(t, c) <= MAX_ROUNDS) ==>
            Idempotent(kept)
  {
    hide Close, Idempotent, Relevant, RepeatFree, RoundsNeeded;
    FilteredIdempotentIff(kept, closed, category);
    if forall c :: c in kept && c in t ==> RepeatFree(t, c) && RoundsNeeded(t, c) <= MAX_ROUNDS {
      forall c | c in kept ensures IsClosed(t, Close(t, c)) {
        ClosesIff(t, c);
      }
    }
  }

  /** Repeats alone decide nothing: with a mapped to xx and x to y, a repeat on an ASCII character x
      leaves yx for a and does no harm, since the filters drop the entry of x. */
  lemma {:induction false} DroppedRepeatIsHarmless(
    a: nat, x: nat, y: nat, category: nat -> Category, kept: Table, closed: Table)
    requires a != x && x != y && a != y
    requires !IsAscii(a) && IsAscii(x)
    requires Displayable(category, y) && !Invisible(category, x) && !Invisible(category, y)
    requires IsClosureOf(closed, TwiceTable(a, x, y)) && IsFilterOf(kept, closed, category)
    ensures a in kept && kept[a] == [y, x] && !RepeatFree(TwiceTable(a, x, y), a)
    ensures Idempotent(kept)
  {
    hide Close, Idempotent, RepeatFree, Displayable, Invisible;
    CloseOfRepeat(a, x, y);
    FilteredIdempotentIff(kept, closed, category);
    SmallTableClosesIff(TwiceTable(a, x, y), a);
    assert x in [y, x];
  }

  /** The fourth filter, which the docstring lists and the code does not have: every letter of the
      target is Latin. */
  predicate FourthFilter(category: nat -> Category, latin: nat -> bool, target: Text) {
    forall c :: c in target && category(c).major == 'L' ==> latin(c)
  }

  /** What the code keeps passes the fourth filter exactly when no entry that passes the other three
      has a letter outside Latin in its target. */
  lemma {:induction false} FourthFilterIff(closed: Table, kept: Table, category: nat -> Category, latin: nat -> bool)
    requires IsFilterOf(kept, closed, category)
    ensures (forall c :: c in kept ==> FourthFilter(category, latin, kept[c])) <==>
            !exists c, d :: c in closed && Relevant(category, c, closed[c])
                            && d in closed[c] && category(d).major == 'L' && !latin(d)
  {
    hide Relevant;
  }

  /** The docstring's own example is kept: FULLWIDTH LATIN CAPITAL LETTER K to CYRILLIC CAPITAL LETTER KA. */
  lemma {:induction false} FourthFilterNotCoded(kept: Table, category: nat -> Category, latin: nat -> bool)
    requires category(0x41A) == Category('L', 'u') && !latin(0x41A)
    requires IsFilterOf(kept, map[0xFF2B := [0x41A]], category)
    ensures 0xFF2B in kept && kept[0xFF2B] == [0x41A]
    ensures !FourthFilter(category, latin, kept[0xFF2B])
  {
    assert 0x41A in [0x41A];
  }

  /** Text in the printable ASCII range is its own skeleton. */
  lemma {:induction false} AsciiUnchanged(closed: Table, kept: Table, category: nat -> Category, s: Text)
    requires IsFilterOf(kept, closed, category)
    requires forall c :: c in s ==> IsAscii(c)
    ensures Skeleton(kept, s) == s
  {
    SkeletonOfClosed(kept, s);
  }

  /** The same, character by character, for what filter_to_relevant returns. */
  lemma {:induction false} PrintableUnchanged(closed: Table, kept: Table, category: nat -> Category, s: Text)
    requires IsFilterOf(kept, closed, category)
    requires forall c :: c in s ==> 0x20 <= c < 0x7F
    ensures Skeleton(kept, s) == s
  {
    hide Skeleton;
    AsciiUnchanged(closed, kept, category, s);
  }

  /** An entry is kept exactly when its source is not printable ASCII and its target has a letter,
      numeral or punctuation character and no control or format character. */
  lemma {:induction false} KeptIff(closed: Table, kept: Table, category: nat -> Category, c: nat)
    requires IsFilterOf(kept, closed, category)
    ensures c in kept <==>
            && c in closed && (c < 0x20 || c >= 0x7F)
            && (exists d :: d in closed[c] && category(d).major in ['L', 'N', 'P'])
            && (forall d :: d in closed[c] ==> category(d) != Category('C', 'c') && category(d) != Category('C', 'f'))
    ensures c in kept ==> kept[c] == closed[c]
  {
  }

  /** A target that holds one mapped character twice: a gives xx, x gives y. Without cycles in the
      table, the closure keeps the second x, and the skeleton needs a second pass. */
  lemma {:induction false} RepeatIsLost(a: nat, x: nat, y: nat, category: nat -> Category, kept: Table, closed: Table)
    requires a != x && x != y && a != y
    requires !IsAscii(a) && !IsAscii(x)
    requires Displayable(category, y) && !Invisible(category, x) && !Invisible(category, y)
    requires IsClosureOf(closed, TwiceTable(a, x, y)) && IsFilterOf(kept, closed, category)
    ensures Skeleton(kept, [a]) == [y, x] && Skeleton(kept, [y, x]) == [y, y]
    ensures !Idempotent(kept)
  {
    hide Skeleton, Relevant, Close, Displayable, Invisible, IsAscii;
    CloseOfRepeat(a, x, y);
    CloseOfSingle(a, x, y);
    KeptTwice(a, x, y, category, kept, closed);
    SkeletonOfOne(kept, a);
    SkeletonOfOne(kept, x);
    SkeletonOfOne(kept, y);
    SkeletonConcat(kept, [y], [x]);
    assert [y] + [x] == [y, x] && [y] + [y] == [y, y];
    assert [y, x][1] != [y, y][1];
    IdempotentIff(kept);
  }

  function TwiceTable(a: nat, x: nat, y: nat): Table {
    map[a := [x, x], x := [y]]
  }

  /** Both entries pass the three filters. */
  lemma {:induction false} KeptTwice(a: nat, x: nat, y: nat, category: nat -> Category, kept: Table, closed: Table)
    requires !IsAscii(a) && !IsAscii(x) && y !in closed
    requires Displayable(category, y) && !Invisible(category, x) && !Invisible(category, y)
    requires a in closed && closed[a] == [y, x] && x in closed && closed[x] == [y]
    requires IsFilterOf(kept, closed, category)
    ensures a in kept && kept[a] == [y, x] && x in kept && kept[x] == [y] && y !in kept
  {
    hide Displayable, Invisible, IsAscii;
    assert y in closed[a] && y in closed[x];
  }

  lemma {:induction false} CloseOfRepeat(a: nat, x: nat, y: nat)
    requires a != x && x != y && a != y
    ensures Close(TwiceTable(a, x, y), a) == [y, x]
  {
    var t := TwiceTable(a, x, y);
    assert Step(t, [], {a}) == Round([], {a}, false);
    assert [x, x][..1] == [x] && [x][..0] == [];
    assert Step(t, [x], {a}) == Round([y], {a, x}, true);
    assert Step(t, [x, x], {a}) == Round([y, x], {a, x}, true);
    SettledPass(t, a, x, y);
    assert Rounds(t, [y, x], {a, x}, MAX_ROUNDS - 1) == [y, x];
  }

  lemma {:induction false} SettledPass(t: Table, a: nat, x: nat, y: nat)
    requires y !in t
    ensures Step(t, [y, x], {a, x}) == Round([y, x], {a, x}, false)
  {
    assert [y, x][..1] == [y] && [y][..0] == [];
    assert Step(t, [], {a, x}) == Round([], {a, x}, false);
    assert Step(t, [y], {a, x}) == Round([y], {a, x}, false);
  }

  lemma {:induction false} CloseOfSingle(a: nat, x: nat, y: nat)
    requires a != x && x != y && a != y
    ensures Close(TwiceTable(a, x, y), x) == [y]
  {
    var t := TwiceTable(a, x, y);
    assert [y][..0] == [];
    assert Step(t, [], {x}) == Round([], {x}, false);
    assert Step(t, [y], {x}) == Round([y], {x}, false);
  }

  // ---------------------------------------------------------------------------
  // The loops of the vendor script

  method ExpandRound(t: Table, current: Text, before: set<nat>) returns (parts: Text, seen: set<nat>, changed: bool)
    ensures Round(parts, seen, changed) == Step(t, current, before)
  {
    parts, seen, changed := [], before, false;
    for i := 0 to |current|
      invariant Round(parts, seen, changed) == Step(t, current[..i], before)
    {
      var c := current[i];
      assert current[..i + 1][..i] == current[..i];
      if c in seen {
        parts := parts + [c];
      } else if c in t {
        parts := parts + t[c];
        seen := seen + {c};
        changed := true;
      } else {
        parts := parts + [c];
      }
    }
    assert current[..|current|] == current;
  }

  /** The loop of _close_transitively for one source; deep says that the warning is printed. */
  method CloseOne(t: Table, source: nat) returns (current: Text, deep: bool)
    requires source in t
    ensures current == Close(t, source)
    ensures deep <==> Settle(t, t[source], {source}).1 >= 50
    ensures |t| <= 50 ==> !deep
  {
    SmallTableSettles(t, source);
    var seen := {source};
    current := t[source];
    deep := false;
    var steps: nat := 0;
    while true
      invariant steps <= MAX_ROUNDS && !deep
      invariant Rounds(t, current, seen, MAX_ROUNDS - steps) == Close(t, source)
      invariant steps + Settle(t, current, seen).1 == Settle(t, t[source], {source}).1
      decreases MAX_ROUNDS - steps
    {
      steps := steps + 1;
      if steps > MAX_ROUNDS {
        deep := true;
        break;
      }
      var parts, after, changed := ExpandRound(t, current, seen);
      current, seen := parts, after;
      if !changed {
        break;
      }
    }
  }

  method CloseTransitively(t: Table) returns (closed: Table)
    ensures IsClosureOf(closed, t)
  {
    closed := map[];
    var rest := t.Keys;
    while rest != {}
      invariant rest <= t.Keys && closed.Keys == t.Keys - rest
      invariant forall c :: c in closed ==> closed[c] == Close(t, c)
    {
      var source :| source in rest;
      var target, _ := CloseOne(t, source);
      closed := closed[source := target];
      rest := rest - {source};
    }
  }

  method FilterToRelevant(t: Table, category: nat -> Category) returns (relevant: Table)
    ensures IsFilterOf(relevant, t, category)
  {
    relevant := map[];
    var rest := t.Keys;
    while rest != {}
      invariant rest <= t.Keys
      invariant forall c :: c in relevant <==> c in t && c !in rest && Relevant(category, c, t[c])
      invariant forall c :: c in relevant ==> relevant[c] == t[c]
    {
      var source :| source in rest;
      rest := rest - {source};
      if Relevant(category, source, t[source]) {
        relevant := relevant[source := t[source]];
      }
    }
  }
}
