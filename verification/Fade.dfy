/**
 The fade smoother: a setter thread writes channel targets and schedules a work item; the item's
 handler moves each channel towards its target and reschedules itself until all have settled.
 Every memory access of either side is a step of its own, interleaved in any order.
 */
module Fade {
  import opened Wrappers

  const NUM_CH: nat := 3
  const ALPHA: real := 0.22
  const SETTLED: real := 0.0005

  type Levels = s: seq<real> | |s| == NUM_CH witness [0.0, 0.0, 0.0]

  function Abs(x: real): real {
    if x < 0.0 then -x else x
  }

  /** A channel after one tick, given the target the tick read. */
  function FadeOne(current: real, target: real): real {
    if Abs(target - current) < SETTLED then target else current + (target - current) * ALPHA
  }

  predicate Moves(current: real, target: real) {
    Abs(target - current) >= SETTLED
  }

  function Tick(current: Levels, target: Levels): Levels {
    [FadeOne(current[0], target[0]), FadeOne(current[1], target[1]), FadeOne(current[2], target[2])]
  }

  predicate AnyMoves(current: Levels, target: Levels) {
    exists ch :: 0 <= ch < NUM_CH && Moves(current[ch], target[ch])
  }

  // ----- the interleaved machine -----

  datatype Setter = SetterIdle | Writing(targets: Levels, next: nat)

  /** Where the handler is; `seen` is the target its first read of the channel found. */
  datatype Handler =
    | HandlerIdle
    | AtChannel(ch: nat, active: bool)
    | ReadDelta(ch: nat, active: bool, delta: real, seen: real)
    | ReadTarget(ch: nat, active: bool, value: real, seen: real)

  datatype State = State(current: Levels, target: Levels, pending: bool, setter: Setter, handler: Handler)

  datatype Action =
    | SetterStart(targets: Levels)
    | SetterWrite
    | SetterSchedule
    | HandlerStart
    | HandlerRead
    | HandlerBranch
    | HandlerStore
    | HandlerFinish

  const INIT := State([0.0, 0.0, 0.0], [0.0, 0.0, 0.0], false, SetterIdle, HandlerIdle)

  predicate Enabled(s: State, a: Action) {
    match a
    case SetterStart(_) => s.setter.SetterIdle?
    case SetterWrite => s.setter.Writing? && s.setter.next < NUM_CH
    case SetterSchedule => s.setter.Writing? && s.setter.next == NUM_CH
    case HandlerStart => s.pending && s.handler.HandlerIdle?
    case HandlerRead => s.handler.AtChannel? && s.handler.ch < NUM_CH
    case HandlerBranch => s.handler.ReadDelta? && s.handler.ch < NUM_CH
    case HandlerStore => s.handler.ReadTarget? && s.handler.ch < NUM_CH
    case HandlerFinish => s.handler.AtChannel? && s.handler.ch == NUM_CH
  }

  /**
   Scheduling an item that is already delayed or queued changes nothing, and one that is idle or only
   running becomes pending; either way it is pending afterwards.
   */
  function Step(s: State, a: Action): State
    requires Enabled(s, a)
  {
    match a
    case SetterStart(targets) => s.(setter := Writing(targets, 0))
    case SetterWrite =>
      s.(target := s.target[s.setter.next := s.setter.targets[s.setter.next]],
         setter := Writing(s.setter.targets, s.setter.next + 1))
    case SetterSchedule => s.(pending := true, setter := SetterIdle)
    case HandlerStart => s.(pending := false, handler := AtChannel(0, false))
    case HandlerRead =>
      var ch := s.handler.ch;
      s.(handler := ReadDelta(ch, s.handler.active, s.target[ch] - s.current[ch], s.target[ch]))
    case HandlerBranch =>
      var ch, delta := s.handler.ch, s.handler.delta;
      if Abs(delta) < SETTLED then
        // the target is read a second time
        s.(handler := ReadTarget(ch, s.handler.active, s.target[ch], s.handler.seen))
      else
        s.(current := s.current[ch := s.current[ch] + delta * ALPHA], handler := AtChannel(ch + 1, true))
    case HandlerStore =>
      var ch := s.handler.ch;
      s.(current := s.current[ch := s.handler.value], handler := AtChannel(ch + 1, s.handler.active))
    case HandlerFinish => s.(pending := s.pending || s.handler.active, handler := HandlerIdle)
  }

  /** `actions` leads from s to t, each step enabled in its turn. */
  ghost predicate Run(s: State, actions: seq<Action>, t: State)
    decreases |actions|
  {
    if actions == [] then s == t
    else Enabled(s, actions[0]) && Run(Step(s, actions[0]), actions[1..], t)
  }

  // ----- no lost wake-up -----

  /** The running handler has yet to look at the channel, or is going to reschedule itself. */
  predicate HandlerCovers(s: State, ch: nat)
    requires ch < NUM_CH
  {
    match s.handler
    case HandlerIdle => false
    case AtChannel(at, active) => active || ch >= at
    case ReadDelta(at, active, _, _) => active || ch >= at
    case ReadTarget(at, active, value, _) => active || ch > at || (ch == at && value == s.target[ch])
  }

  /** Someone is on the way to bring the channel to its target. */
  predicate Attended(s: State, ch: nat)
    requires ch < NUM_CH
  {
    s.pending || s.setter.Writing? || HandlerCovers(s, ch)
  }

  /** A channel off its target is attended; so is one a late store is about to take off its target. */
  ghost predicate WakeUp(s: State) {
    && (s.setter.Writing? ==> s.setter.next <= NUM_CH)
    && (!s.handler.HandlerIdle? ==> s.handler.ch <= NUM_CH)
    && (forall ch :: 0 <= ch < NUM_CH && s.current[ch] != s.target[ch] ==> Attended(s, ch))
    && (s.handler.ReadTarget? && s.handler.ch < NUM_CH && s.handler.value != s.target[s.handler.ch] ==>
          s.pending || s.setter.Writing?)
  }

  lemma StepWakes(s: State, a: Action)
    requires WakeUp(s) && Enabled(s, a)
    ensures WakeUp(Step(s, a))
  {
    var t := Step(s, a);
    forall ch | 0 <= ch < NUM_CH && t.current[ch] != t.target[ch]
      ensures Attended(t, ch)
    {
      if s.current[ch] != s.target[ch] {
        assert Attended(s, ch);
      }
    }
  }

  /** In every interleaving, a channel off its target is attended. */
  lemma {:induction false} NoLostWakeUp(s: State, actions: seq<Action>, t: State)
    requires WakeUp(s) && Run(s, actions, t)
    ensures WakeUp(t)
    decreases |actions|
  {
    if actions == [] {
    } else {
      StepWakes(s, actions[0]);
      NoLostWakeUp(Step(s, actions[0]), actions[1..], t);
    }
  }

  /** From boot, whenever nothing is pending and nobody is running, every channel is at its target. */
  lemma QuiescentMeansArrived(actions: seq<Action>, t: State)
    requires Run(INIT, actions, t)
    requires !t.pending && t.setter.SetterIdle? && t.handler.HandlerIdle?
    ensures t.current == t.target
  {
    NoLostWakeUp(INIT, actions, t);
    forall ch | 0 <= ch < NUM_CH ensures t.current[ch] == t.target[ch] {
      assert !Attended(t, ch);
    }
  }

  // ----- the duty stays in range and never overshoots -----

  predicate Unit(x: real) {
    0.0 <= x <= 1.0
  }

  ghost predicate UnitLevels(l: Levels) {
    forall ch :: 0 <= ch < NUM_CH ==> Unit(l[ch])
  }

  /** Every value that is, or is about to be, a channel's duty or target lies in [0, 1]. */
  ghost predicate InRange(s: State) {
    && UnitLevels(s.current) && UnitLevels(s.target)
    && (s.setter.Writing? ==> UnitLevels(s.setter.targets))
    && (s.handler.ReadDelta? && s.handler.ch < NUM_CH ==> Unit(s.current[s.handler.ch] + s.handler.delta))
    && (s.handler.ReadTarget? ==> Unit(s.handler.value))
  }

  predicate Between(a: real, x: real, b: real) {
    a <= x <= b || b <= x <= a
  }

  /** With one value for the target, a tick ends between start and target, at 78% of the distance or on it. */
  lemma OneTick(current: real, target: real)
    ensures Between(current, FadeOne(current, target), target)
    ensures if Moves(current, target) then Abs(target - FadeOne(current, target)) == 0.78 * Abs(target - current)
            else FadeOne(current, target) == target
    ensures Moves(current, target) <==> target - current >= 0.0005 || current - target >= 0.0005
  {
  }

  /** What the handler has in hand comes from its first read; before a store, that was within reach. */
  ghost predicate HandKept(s: State) {
    && (s.handler.ReadDelta? && s.handler.ch < NUM_CH ==>
          s.handler.delta == s.handler.seen - s.current[s.handler.ch])
    && (s.handler.ReadTarget? && s.handler.ch < NUM_CH ==>
          !Moves(s.current[s.handler.ch], s.handler.seen))
  }

  lemma {:induction false} HandStaysKept(s: State, actions: seq<Action>, t: State)
    requires HandKept(s) && Run(s, actions, t)
    ensures HandKept(t)
    decreases |actions|
  {
    if actions == [] {
    } else {
      HandStaysKept(Step(s, actions[0]), actions[1..], t);
    }
  }

  /**
   No overshoot, in every interleaving: a step that changes a channel ends between where the channel was
   and the target it used. A branch that moves is one tick towards the first read; a store lands on the
   second read, and is that tick, below the settling threshold, unless the two reads differ.
   */
  lemma NoOvershoot(s: State, actions: seq<Action>, t: State, a: Action, ch: nat)
    requires HandKept(s) && Run(s, actions, t) && Enabled(t, a) && ch < NUM_CH
    ensures var was, next := t.current[ch], Step(t, a).current[ch];
            if a.HandlerBranch? && ch == t.handler.ch && Abs(t.handler.delta) >= SETTLED then
              && next == FadeOne(was, t.handler.seen) && Moves(was, t.handler.seen)
              && Between(was, next, t.handler.seen)
              && Abs(t.handler.seen - next) == 0.78 * Abs(t.handler.seen - was)
            else if a.HandlerStore? && ch == t.handler.ch then
              && next == t.handler.value
              && (t.handler.value == t.handler.seen ==>
                    next == FadeOne(was, t.handler.seen) && Abs(next - was) < SETTLED)
            else next == was
  {
    HandStaysKept(s, actions, t);
    if a.HandlerBranch? {
      OneTick(t.current[t.handler.ch], t.handler.seen);
    }
  }

  lemma StepInRange(s: State, a: Action)
    requires InRange(s) && Enabled(s, a)
    requires a.SetterStart? ==> UnitLevels(a.targets)
    ensures InRange(Step(s, a))
  {
    if a.HandlerBranch? && Abs(s.handler.delta) >= SETTLED {
      var ch := s.handler.ch;
      assert Unit(s.current[ch] + s.handler.delta * ALPHA);
    }
  }

  lemma {:induction false} DutyInRange(s: State, actions: seq<Action>, t: State)
    requires InRange(s) && Run(s, actions, t)
    requires forall i :: 0 <= i < |actions| && actions[i].SetterStart? ==> UnitLevels(actions[i].targets)
    ensures InRange(t)
    decreases |actions|
  {
    if actions == [] {
    } else {
      StepInRange(s, actions[0]);
      assert forall i :: 0 <= i < |actions[1..]| ==> actions[1..][i] == actions[i + 1];
      DutyInRange(Step(s, actions[0]), actions[1..], t);
    }
  }

  // ----- settling -----

  /** The distance left after k ticks, at most, from a distance of 1. */
  function Residue(k: nat): (r: real)
    ensures r > 0.0
  {
    if k == 0 then 1.0 else 0.78 * Residue(k - 1)
  }

  lemma {:induction false} ResidueDecreases(j: nat, k: nat)
    requires j <= k
    ensures Residue(k) <= Residue(j)
  {
    if j < k {
      ResidueDecreases(j, k - 1);
    }
  }

  lemma {:induction false} ResidueSplit(j: nat, k: nat)
    ensures Residue(j + k) == Residue(j) * Residue(k)
  {
    if j == 0 {
    } else {
      ResidueSplit(j - 1, k);
      assert 0.78 * (Residue(j - 1) * Residue(k)) == 0.78 * Residue(j - 1) * Residue(k);
    }
  }

  /** 0.78^31 is the first power below the settling threshold. */
  lemma ResidueThreshold(k: nat)
    ensures Residue(k) < SETTLED <==> k >= 31
  {
    assert Residue(5) == 0.78 * (0.78 * (0.78 * (0.78 * (0.78 * 1.0)))) by {
      assert Residue(3) == 0.78 * (0.78 * (0.78 * 1.0));
    }
    ResidueSplit(5, 5);
    ResidueSplit(10, 10);
    ResidueSplit(20, 10);
    assert Residue(31) == 0.78 * Residue(30);
    if k >= 31 {
      ResidueDecreases(31, k);
    } else {
      ResidueDecreases(k, 30);
    }
  }

  ghost predicate Near(current: real, target: real, k: nat) {
    Abs(target - current) <= Residue(k)
  }

  /** After k uninterrupted runs; mid-run, the channels already visited are one step further on. */
  ghost predicate Progress(s: State, k: nat) {
    && s.setter.SetterIdle?
    && (match s.handler
        case HandlerIdle =>
          && (forall ch :: 0 <= ch < NUM_CH ==> Near(s.current[ch], s.target[ch], k))
          && (s.pending ==> k <= 31)
        case AtChannel(at, active) =>
          !s.pending && MidRun(s, k, at, active)
        case ReadDelta(at, active, delta, _) =>
          !s.pending && MidRun(s, k, at, active) && at < NUM_CH && delta == s.target[at] - s.current[at]
        case ReadTarget(at, active, value, _) =>
          !s.pending && MidRun(s, k, at, active) && at < NUM_CH && value == s.target[at])
  }

  ghost predicate MidRun(s: State, k: nat, at: nat, active: bool) {
    && at <= NUM_CH && k <= 31
    && (active ==> k <= 30)
    && (forall ch :: 0 <= ch < at ==>
          Near(s.current[ch], s.target[ch], k + 1) && (k == 31 ==> s.current[ch] == s.target[ch]))
    && (forall ch :: at <= ch < NUM_CH ==> Near(s.current[ch], s.target[ch], k))
  }

  predicate IsSetterAction(a: Action) {
    a.SetterStart? || a.SetterWrite? || a.SetterSchedule?
  }

  lemma StepProgress(s: State, a: Action, k: nat)
    requires Progress(s, k) && Enabled(s, a) && !IsSetterAction(a)
    ensures Progress(Step(s, a), if a.HandlerFinish? then k + 1 else k)
    ensures a.HandlerFinish? && k == 31 ==> Step(s, a).current == Step(s, a).target && !Step(s, a).pending
  {
    ResidueThreshold(k);
    if a.HandlerBranch? && Abs(s.handler.delta) >= SETTLED {
      var ch := s.handler.ch;
      OneTick(s.current[ch], s.target[ch]);
      assert Near(s.current[ch], s.target[ch], k);
    }
  }

  function Starts(actions: seq<Action>): nat {
    if actions == [] then 0 else Starts(actions[1..]) + if actions[0].HandlerStart? then 1 else 0
  }

  /** The longest possible rest of the story, in handler steps. */
  function StepsLeft(s: State, k: nat): int {
    match s.handler
    case HandlerIdle => if s.pending then 11 * (32 - k) else 0
    case AtChannel(at, _) => 11 * (31 - k) + 1 + 3 * (NUM_CH - at)
    case ReadDelta(at, _, _, _) => 11 * (31 - k) + 3 * (NUM_CH - at)
    case ReadTarget(at, _, _, _) => 11 * (31 - k) - 1 + 3 * (NUM_CH - at)
  }

  function RunsLeft(s: State, k: nat): int {
    if s.handler.HandlerIdle? then if s.pending then 32 - k else 0 else 31 - k
  }

  lemma {:induction false} RunsBounded(s: State, actions: seq<Action>, t: State, k: nat)
    requires Progress(s, k) && Run(s, actions, t)
    requires forall i :: 0 <= i < |actions| ==> !IsSetterAction(actions[i])
    ensures Starts(actions) <= RunsLeft(s, k) && |actions| <= StepsLeft(s, k)
    decreases |actions|
  {
    if actions == [] {
    } else {
      StepProgress(s, actions[0], k);
      var rest := actions[1..];
      assert forall i :: 0 <= i < |rest| ==> rest[i] == actions[i + 1];
      RunsBounded(Step(s, actions[0]), rest, t, if actions[0].HandlerFinish? then k + 1 else k);
    }
  }

  /**
   Once targets stop changing, at most 32 more runs begin, they take a bounded number of steps, and
   when the handler has nothing left to do every channel is at its target.
   */
  lemma {:induction false} SettlesWithin32Runs(s: State, actions: seq<Action>, t: State)
    requires WakeUp(s) && InRange(s) && s.setter.SetterIdle? && Run(s, actions, t)
    requires forall i :: 0 <= i < |actions| ==> !IsSetterAction(actions[i])
    ensures Starts(actions) <= 32 && |actions| <= 11 * 33
    ensures t.handler.HandlerIdle? && !t.pending ==> t.current == t.target
    decreases |actions|
  {
    NoLostWakeUp(s, actions, t);
    StaysIdle(s, actions, t);
    if t.handler.HandlerIdle? && !t.pending {
      forall ch | 0 <= ch < NUM_CH ensures t.current[ch] == t.target[ch] {
        assert !Attended(t, ch);
      }
    }
    FinishesThenSettles(s, actions, t);
  }

  lemma {:induction false} StaysIdle(s: State, actions: seq<Action>, t: State)
    requires s.setter.SetterIdle? && Run(s, actions, t)
    requires forall i :: 0 <= i < |actions| ==> !IsSetterAction(actions[i])
    ensures t.setter.SetterIdle?
    decreases |actions|
  {
    if actions == [] {
    } else {
      var rest := actions[1..];
      assert forall i :: 0 <= i < |rest| ==> rest[i] == actions[i + 1];
      StaysIdle(Step(s, actions[0]), rest, t);
    }
  }

  /** How many steps the current run can still take. */
  function RunStepsLeft(s: State): int {
    match s.handler
    case HandlerIdle => 0
    case AtChannel(at, _) => 1 + 3 * (NUM_CH - at)
    case ReadDelta(at, _, _, _) => 3 * (NUM_CH - at)
    case ReadTarget(at, _, _, _) => 3 * (NUM_CH - at) - 1
  }

  /** A run already under way finishes first; it read some targets too early to count. */
  lemma {:induction false} FinishesThenSettles(s: State, actions: seq<Action>, t: State)
    requires WakeUp(s) && InRange(s) && s.setter.SetterIdle? && Run(s, actions, t)
    requires forall i :: 0 <= i < |actions| ==> !IsSetterAction(actions[i])
    ensures Starts(actions) <= 32 && |actions| <= 11 * 32 + (if RunStepsLeft(s) > 0 then RunStepsLeft(s) else 0)
    decreases |actions|
  {
    if s.handler.HandlerIdle? {
      assert Progress(s, 0);
      RunsBounded(s, actions, t, 0);
    } else if actions == [] {
    } else {
      StepWakes(s, actions[0]);
      StepInRange(s, actions[0]);
      var rest := actions[1..];
      assert forall i :: 0 <= i < |rest| ==> rest[i] == actions[i + 1];
      FinishesThenSettles(Step(s, actions[0]), rest, t);
    }
  }

  /** The bound is tight: from the far end of the range, 31 uninterrupted ticks are not enough. */
  lemma {:induction false} TickResidue(n: nat)
    requires n <= 31
    ensures Ticks(n, 0.0, 1.0) == 1.0 - Residue(n)
  {
    if n > 0 {
      TickResidue(n - 1);
      ResidueThreshold(n - 1);
    }
  }

  function Ticks(n: nat, current: real, target: real): real {
    if n == 0 then current else FadeOne(Ticks(n - 1, current, target), target)
  }

  lemma ThirtyTwoIsTight()
    ensures Ticks(31, 0.0, 1.0) != 1.0 && Ticks(32, 0.0, 1.0) == 1.0
  {
    TickResidue(31);
    ResidueThreshold(31);
    assert Ticks(32, 0.0, 1.0) == FadeOne(Ticks(31, 0.0, 1.0), 1.0);
  }

  // ----- an uninterrupted run is one tick -----

  /** The steps a run takes on channel ch when nobody interferes. */
  function ChannelActions(s: State, ch: nat): seq<Action>
    requires ch < NUM_CH
  {
    if Moves(s.current[ch], s.target[ch]) then [HandlerRead, HandlerBranch]
    else [HandlerRead, HandlerBranch, HandlerStore]
  }

  lemma ChannelIsFadeOne(s: State, ch: nat)
    requires ch < NUM_CH && s.handler.AtChannel? && s.handler.ch == ch
    ensures Run(s, ChannelActions(s, ch),
                s.(current := s.current[ch := FadeOne(s.current[ch], s.target[ch])],
                   handler := AtChannel(ch + 1, s.handler.active || Moves(s.current[ch], s.target[ch]))))
  {
    var s1 := Step(s, HandlerRead);
    var s2 := Step(s1, HandlerBranch);
    if Moves(s.current[ch], s.target[ch]) {
      assert Run(s2, [], s2);
      assert [HandlerRead, HandlerBranch][1..] == [HandlerBranch];
      assert Run(s1, [HandlerBranch], s2);
    } else {
      var s3 := Step(s2, HandlerStore);
      assert Run(s3, [], s3);
      assert Run(s2, [HandlerStore], s3);
      assert [HandlerRead, HandlerBranch, HandlerStore][1..] == [HandlerBranch, HandlerStore];
      assert [HandlerBranch, HandlerStore][1..] == [HandlerStore];
      assert Run(s1, [HandlerBranch, HandlerStore], s3);
    }
  }

  lemma {:induction false} RunAppend(s: State, first: seq<Action>, m: State, second: seq<Action>, t: State)
    requires Run(s, first, m) && Run(m, second, t)
    ensures Run(s, first + second, t)
    decreases |first|
  {
    if first == [] {
      assert first + second == second;
    } else {
      RunAppend(Step(s, first[0]), first[1..], m, second, t);
      assert (first + second)[1..] == first[1..] + second;
    }
  }

  /** The state with the first n channels ticked. */
  function Ticked(s: State, n: nat): State {
    var t := Tick(s.current, s.target);
    State([if n > 0 then t[0] else s.current[0], if n > 1 then t[1] else s.current[1],
           if n > 2 then t[2] else s.current[2]],
          s.target, false, s.setter,
          AtChannel(n, (n > 0 && Moves(s.current[0], s.target[0])) || (n > 1 && Moves(s.current[1], s.target[1]))
                       || (n > 2 && Moves(s.current[2], s.target[2]))))
  }

  lemma {:induction false} TickedRuns(s: State, n: nat) returns (actions: seq<Action>)
    requires n <= NUM_CH && s.pending && s.handler.HandlerIdle?
    ensures Run(s, actions, Ticked(s, n))
  {
    if n == 0 {
      actions := [HandlerStart];
      assert Step(s, HandlerStart) == Ticked(s, 0);
      assert Run(Step(s, HandlerStart), [], Ticked(s, 0));
    } else {
      var first := TickedRuns(s, n - 1);
      var t := Ticked(s, n - 1);
      ChannelIsFadeOne(t, n - 1);
      assert t.current[n - 1 := FadeOne(t.current[n - 1], t.target[n - 1])] == Ticked(s, n).current;
      RunAppend(s, first, t, ChannelActions(t, n - 1), Ticked(s, n));
      actions := first + ChannelActions(t, n - 1);
    }
  }

  /** The machine, left alone, does what `FadeWorkHandler` is specified to do. */
  lemma UninterruptedRunIsTick(s: State) returns (actions: seq<Action>)
    requires s.pending && s.handler.HandlerIdle?
    ensures Run(s, actions, s.(current := Tick(s.current, s.target), pending := AnyMoves(s.current, s.target)))
  {
    var ticking := TickedRuns(s, 3);
    assert Ticked(s, 3).current == Tick(s.current, s.target);
    var t := Step(Ticked(s, 3), HandlerFinish);
    assert Run(t, [], t);
    assert Run(Ticked(s, 3), [HandlerFinish], t);
    RunAppend(s, ticking, Ticked(s, 3), [HandlerFinish], t);
    actions := ticking + [HandlerFinish];
  }

  // ----- what a write between the two reads does -----

  predicate WritesChannel(s: State, a: Action, ch: nat) {
    a.SetterWrite? && s.setter.Writing? && s.setter.next == ch
  }

  /** The value the setter last wrote to the channel's target in the course of the actions. */
  ghost function LastWrite(s: State, actions: seq<Action>, ch: nat): Option<real>
    requires ch < NUM_CH
    decreases |actions|
  {
    if actions == [] || !Enabled(s, actions[0]) then None
    else
      var later := LastWrite(Step(s, actions[0]), actions[1..], ch);
      if later.Some? then later
      else if WritesChannel(s, actions[0], ch) then Some(s.setter.targets[ch])
      else None
  }

  lemma {:induction false} SetterOnly(s: State, actions: seq<Action>, t: State, ch: nat)
    requires Run(s, actions, t) && ch < NUM_CH
    requires forall i :: 0 <= i < |actions| ==> IsSetterAction(actions[i])
    ensures t.handler == s.handler && t.current == s.current
    ensures t.target[ch] == var w := LastWrite(s, actions, ch); if w.Some? then w.value else s.target[ch]
    decreases |actions|
  {
    if actions == [] {
    } else {
      var rest := actions[1..];
      assert forall i :: 0 <= i < |rest| ==> rest[i] == actions[i + 1];
      SetterOnly(Step(s, actions[0]), rest, t, ch);
    }
  }

  /** While the handler stands still at a step, everything that runs is the setter's. */
  lemma {:induction false} HandlerWaits(s: State, actions: seq<Action>, t: State, step: Action)
    requires Run(s, actions, t) && step !in actions
    requires (step == HandlerBranch && s.handler.ReadDelta?) || (step == HandlerStore && s.handler.ReadTarget?)
    ensures forall i :: 0 <= i < |actions| ==> IsSetterAction(actions[i])
    decreases |actions|
  {
    if actions == [] {
    } else {
      assert actions[0] in actions;
      HandlerWaits(Step(s, actions[0]), actions[1..], t, step);
    }
  }

  /**
   A store moves its channel by the settling threshold or more exactly when, between the handler's two
   reads of the target, the setter wrote it, and last with a value that far away.
   */
  lemma StoreJumpsIff(s: State, between: seq<Action>, m: State, later: seq<Action>, u: State)
    requires Enabled(s, HandlerRead) && Run(Step(s, HandlerRead), between, m)
    requires Enabled(m, HandlerBranch) && Step(m, HandlerBranch).handler.ReadTarget?
    requires Run(Step(m, HandlerBranch), later, u) && Enabled(u, HandlerStore)
    requires HandlerBranch !in between && HandlerStore !in later
    ensures var ch := s.handler.ch;
            var was, next := s.current[ch], Step(u, HandlerStore).current[ch];
            var w := LastWrite(Step(s, HandlerRead), between, ch);
            && next == (if w.Some? then w.value else s.target[ch])
            && (Abs(next - was) >= SETTLED <==> w.Some? && Moves(was, w.value))
  {
    HandlerWaits(Step(s, HandlerRead), between, m, HandlerBranch);
    SetterOnly(Step(s, HandlerRead), between, m, s.handler.ch);
    HandlerWaits(Step(m, HandlerBranch), later, u, HandlerStore);
    SetterOnly(Step(m, HandlerBranch), later, u, s.handler.ch);
  }

  lemma Extended(actions: seq<Action>, t: State, a: Action) returns (more: seq<Action>, next: State)
    requires Run(INIT, actions, t) && Enabled(t, a)
    ensures Run(INIT, more, next) && next == Step(t, a)
  {
    more, next := actions + [a], Step(t, a);
    assert Run(next, [], next);
    assert [a][1..] == [];
    RunAppend(INIT, actions, t, [a], next);
  }

  const FIRST_RUN := INIT.(handler := AtChannel(0, false))

  lemma ReachesFirstRun() returns (actions: seq<Action>)
    ensures Run(INIT, actions, FIRST_RUN)
  {
    var t: State;
    actions, t := Extended([], INIT, SetterStart(INIT.target));
    actions, t := Extended(actions, t, SetterWrite);
    actions, t := Extended(actions, t, SetterWrite);
    actions, t := Extended(actions, t, SetterWrite);
    actions, t := Extended(actions, t, SetterSchedule);
    actions, t := Extended(actions, t, HandlerStart);
    assert t.target == INIT.target;
  }

  /** It happens: from boot, a lamp that is off can reach full duty in one store instead of gliding there. */
  lemma LateWriteJumps() returns (actions: seq<Action>, t: State)
    ensures Run(INIT, actions, t) && Enabled(t, HandlerStore) && t.handler.ch == 0
    ensures t.current[0] == 0.0 && Step(t, HandlerStore).current[0] == 1.0
  {
    actions := ReachesFirstRun();
    actions, t := Extended(actions, FIRST_RUN, HandlerRead);
    actions, t := Extended(actions, t, SetterStart([1.0, 1.0, 1.0]));
    actions, t := Extended(actions, t, SetterWrite);
    actions, t := Extended(actions, t, HandlerBranch);
  }
}
