/**
 The one-way hand-over of the BLE controller's DRAM to the heap: triggers, retries while a
 commissioner is still connected, teardown, and the region joining the allocator.
 */
module BtReclaim {
  import Malloc = SysHeapMalloc

  const MAX_RETRIES: int := 15

  /** What a run of the work item meets: the links still up, and how the calls it makes turn out. */
  datatype Env = Env(connections: nat, timerStarts: bool, idleAfterShutdown: bool, heapLocked: bool)

  datatype Effect =
    | Triggered       // a trigger found the device provisioned
    | Busy            // a run found BLE connected and retried
    | ServiceDisabled // Shutdown cleared the service mode
    | BtDisabled      // and took the controller down
    | SawIdle         // the controller reported IDLE
    | RegionOffered   // the region was offered to the heap

  /** The file's flags, what is scheduled, the BLE stack, the heap's second bank, and all effects so far. */
  datatype State = State(done: bool, retries: int, queued: nat, timerArmed: bool,
                         serviceEnabled: bool, controllerUp: bool, regionActive: bool, log: seq<Effect>)

  datatype Event =
    | WiFiConnectivityChange(established: bool, provisioned: bool, schedules: bool)
    | CommissioningComplete(provisioned: bool, schedules: bool)
    | WorkRuns(env: Env)
    | TimerFires(env: Env)
    | DriveBle
    | OtherEvent

  const BOOT := State(false, 0, 0, false, true, true, false, [])

  function MaybeStart(s: State, provisioned: bool, schedules: bool): State {
    if s.done || !provisioned then s
    else s.(retries := 0, queued := s.queued + (if schedules then 1 else 0), log := s.log + [Triggered])
  }

  function TearDown(s: State, env: Env): State {
    var down := s.(done := true, serviceEnabled := false, controllerUp := !env.idleAfterShutdown,
                   log := s.log + [ServiceDisabled, BtDisabled]);
    if !env.idleAfterShutdown then down
    else down.(regionActive := s.regionActive || env.heapLocked, log := down.log + [SawIdle, RegionOffered])
  }

  function Work(s: State, env: Env): State {
    if s.done then s
    else if env.connections == 0 then TearDown(s, env)
    else if s.retries + 1 > MAX_RETRIES then TearDown(s.(retries := s.retries + 1), env)
    else s.(retries := s.retries + 1, timerArmed := env.timerStarts, log := s.log + [Busy])
  }

  predicate Enabled(s: State, e: Event) {
    match e
    case WorkRuns(_) => s.queued > 0
    case TimerFires(_) => s.timerArmed
    case _ => true
  }

  /** Advertising, and with it the controller, comes up only while the service mode is enabled. */
  function Step(s: State, e: Event): State
    requires Enabled(s, e)
  {
    match e
    case WiFiConnectivityChange(established, provisioned, schedules) =>
      if established then MaybeStart(s, provisioned, schedules) else s
    case CommissioningComplete(provisioned, schedules) => MaybeStart(s, provisioned, schedules)
    case WorkRuns(env) => Work(s.(queued := s.queued - 1), env)
    case TimerFires(env) => Work(s.(timerArmed := false), env)
    case DriveBle => if s.serviceEnabled then s.(controllerUp := true) else s
    case OtherEvent => s
  }

  ghost predicate Run(s: State, es: seq<Event>, t: State)
    decreases |es|
  {
    if es == [] then s == t else Enabled(s, es[0]) && Run(Step(s, es[0]), es[1..], t)
  }

  // ----- safety over whole runs -----

  predicate Waiting(log: seq<Effect>) {
    forall i :: 0 <= i < |log| ==> log[i].Triggered? || log[i].Busy?
  }

  /** Busy runs since the last trigger. */
  function BusySince(log: seq<Effect>): nat {
    if log == [] then 0
    else
      match log[|log| - 1]
      case Triggered => 0
      case Busy => 1 + BusySince(log[..|log| - 1])
      case _ => BusySince(log[..|log| - 1])
  }

  const TEARDOWN: seq<Effect> := [ServiceDisabled, BtDisabled]
  const HANDOVER: seq<Effect> := [ServiceDisabled, BtDisabled, SawIdle, RegionOffered]

  /** The whole story: triggers and busy runs, then at most one teardown, then at most one offer. */
  ghost predicate Shape(s: State, waiting: seq<Effect>) {
    && Waiting(waiting)
    && (if !s.done then s.log == waiting
        else waiting != [] && waiting[0] == Triggered && (s.log == waiting + TEARDOWN || s.log == waiting + HANDOVER))
  }

  ghost predicate Inv(s: State, waiting: seq<Effect>) {
    && Shape(s, waiting)
    && (s.queued > 0 || s.timerArmed ==> waiting != [])
    && (waiting != [] ==> waiting[0] == Triggered)
    && 0 <= s.retries
    && (!s.done ==> s.retries == BusySince(waiting) <= MAX_RETRIES)
    && (s.done ==> s.retries <= MAX_RETRIES + 1)
    && (s.done <==> !s.serviceEnabled)
    && (s.log == waiting + HANDOVER && s.done ==> !s.controllerUp)
    && (s.regionActive ==> s.done && s.log == waiting + HANDOVER)
  }

  /** The waiting part of the story after one more event. */
  function NextWaiting(s: State, waiting: seq<Effect>, e: Event): seq<Effect>
    requires Enabled(s, e)
  {
    if s.done || Step(s, e).done then waiting else Step(s, e).log
  }

  lemma TearDownKeeps(s: State, waiting: seq<Effect>, env: Env)
    requires Inv(s, waiting) && !s.done && waiting != []
    ensures Inv(TearDown(s, env), waiting)
    ensures Inv(TearDown(s.(retries := s.retries + 1), env), waiting)
  {
    assert waiting + TEARDOWN + [SawIdle, RegionOffered] == waiting + HANDOVER;
    assert |waiting + TEARDOWN| != |waiting + HANDOVER|;
  }

  lemma WorkKeeps(s: State, waiting: seq<Effect>, env: Env)
    requires Inv(s, waiting) && waiting != []
    ensures Inv(Work(s, env), if s.done || Work(s, env).done then waiting else Work(s, env).log)
  {
    if !s.done {
      TearDownKeeps(s, waiting, env);
      assert (waiting + [Busy])[..|waiting|] == waiting;
    }
  }

  lemma MaybeStartKeeps(s: State, waiting: seq<Effect>, provisioned: bool, schedules: bool)
    requires Inv(s, waiting)
    ensures var t := MaybeStart(s, provisioned, schedules);
            Inv(t, if s.done then waiting else t.log)
  {
    assert (waiting + [Triggered])[..|waiting|] == waiting;
  }

  lemma WorkRunsKeeps(s: State, waiting: seq<Effect>, e: Event)
    requires Inv(s, waiting) && e.WorkRuns? && s.queued > 0
    ensures Inv(Step(s, e), NextWaiting(s, waiting, e))
  {
    WorkKeeps(s.(queued := s.queued - 1), waiting, e.env);
  }

  lemma TimerFiresKeeps(s: State, waiting: seq<Effect>, e: Event)
    requires Inv(s, waiting) && e.TimerFires? && s.timerArmed
    ensures Inv(Step(s, e), NextWaiting(s, waiting, e))
  {
    WorkKeeps(s.(timerArmed := false), waiting, e.env);
  }

  lemma TriggerKeeps(s: State, waiting: seq<Effect>, e: Event)
    requires Inv(s, waiting) && (e.WiFiConnectivityChange? || e.CommissioningComplete?)
    ensures Inv(Step(s, e), NextWaiting(s, waiting, e))
  {
    MaybeStartKeeps(s, waiting, e.provisioned, e.schedules);
  }

  lemma StepKeeps(s: State, waiting: seq<Effect>, e: Event)
    requires Inv(s, waiting) && Enabled(s, e)
    ensures Inv(Step(s, e), NextWaiting(s, waiting, e))
  {
    if e.WorkRuns? {
      WorkRunsKeeps(s, waiting, e);
    } else if e.TimerFires? {
      TimerFiresKeeps(s, waiting, e);
    } else if e.WiFiConnectivityChange? || e.CommissioningComplete? {
      TriggerKeeps(s, waiting, e);
    }
  }

  lemma {:induction false} RunKeeps(s: State, waiting: seq<Effect>, es: seq<Event>, t: State) returns (w: seq<Effect>)
    requires Inv(s, waiting) && Run(s, es, t)
    ensures Inv(t, w)
    decreases |es|
  {
    if es == [] {
      w := waiting;
    } else {
      StepKeeps(s, waiting, es[0]);
      w := RunKeeps(Step(s, es[0]), NextWaiting(s, waiting, es[0]), es[1..], t);
    }
  }

  function Count(log: seq<Effect>, e: Effect): nat {
    if log == [] then 0 else Count(log[..|log| - 1], e) + if log[|log| - 1] == e then 1 else 0
  }

  lemma {:induction false} CountWaiting(log: seq<Effect>, e: Effect)
    requires Waiting(log) && !e.Triggered? && !e.Busy?
    ensures Count(log, e) == 0
  {
    if log != [] {
      CountWaiting(log[..|log| - 1], e);
    }
  }

  lemma {:induction false} CountAppend(a: seq<Effect>, b: seq<Effect>, e: Effect)
    ensures Count(a + b, e) == Count(a, e) + Count(b, e)
  {
    if b == [] {
      assert a + b == a;
    } else {
      assert (a + b)[..|a + b| - 1] == a + b[..|b| - 1];
      CountAppend(a, b[..|b| - 1], e);
    }
  }

  lemma CountTail(e: Effect)
    ensures Count(TEARDOWN, e) == if e.ServiceDisabled? || e.BtDisabled? then 1 else 0
    ensures Count(HANDOVER, e) == if e.Triggered? || e.Busy? then 0 else 1
  {
    assert TEARDOWN[..1] == [ServiceDisabled] && [ServiceDisabled][..0] == [];
    assert Count([ServiceDisabled], e) == if e == ServiceDisabled then 1 else 0;
    assert HANDOVER[..3][..2] == TEARDOWN;
    assert Count(HANDOVER[..3], e) == Count(TEARDOWN, e) + if e == SawIdle then 1 else 0;
  }

  lemma ShapeCounts(s: State, waiting: seq<Effect>)
    requires Shape(s, waiting)
    ensures Count(s.log, BtDisabled) <= 1 && Count(s.log, RegionOffered) <= 1
  {
    CountWaiting(waiting, BtDisabled);
    CountWaiting(waiting, RegionOffered);
    CountAppend(waiting, TEARDOWN, BtDisabled);
    CountAppend(waiting, TEARDOWN, RegionOffered);
    CountAppend(waiting, HANDOVER, BtDisabled);
    CountAppend(waiting, HANDOVER, RegionOffered);
    CountTail(BtDisabled);
    CountTail(RegionOffered);
  }

  /** What stands before a teardown, and before an offer. */
  ghost predicate WellOrdered(log: seq<Effect>) {
    forall i :: 0 <= i < |log| ==>
      && (log[i] == BtDisabled ==> 2 <= i && log[i - 1] == ServiceDisabled && log[0] == Triggered)
      && (log[i] == RegionOffered ==> 3 <= i && log[i - 1] == SawIdle && log[i - 2] == BtDisabled)
  }

  lemma TailOrders(waiting: seq<Effect>, tail: seq<Effect>)
    requires Waiting(waiting) && waiting != [] && waiting[0] == Triggered
    requires tail == TEARDOWN || tail == HANDOVER
    ensures WellOrdered(waiting + tail)
  {
    var log, n := waiting + tail, |waiting|;
    forall i | 0 <= i < |log|
      ensures log[i] == BtDisabled ==> 2 <= i && log[i - 1] == ServiceDisabled && log[0] == Triggered
      ensures log[i] == RegionOffered ==> 3 <= i && log[i - 1] == SawIdle && log[i - 2] == BtDisabled
    {
      if i < n {
        assert log[i] == waiting[i];
      } else {
        assert log[i] == tail[i - n];
      }
    }
  }

  lemma ShapeOrders(s: State, waiting: seq<Effect>)
    requires Shape(s, waiting)
    ensures WellOrdered(s.log)
  {
    if s.done {
      TailOrders(waiting, if s.log == waiting + TEARDOWN then TEARDOWN else HANDOVER);
    }
  }

  /**
   From boot, over any events: the controller is shut down and the region offered at most once each;
   a shutdown follows a trigger that found the device provisioned, with the service mode already
   disabled; an offer follows a shutdown that left the controller idle; and while the region is in
   the heap the controller is down with nothing left that could bring it up.
   */
  lemma HandOverOnce(es: seq<Event>, t: State)
    requires Run(BOOT, es, t)
    ensures Count(t.log, BtDisabled) <= 1 && Count(t.log, RegionOffered) <= 1
    ensures WellOrdered(t.log)
    ensures t.regionActive ==> RegionOffered in t.log && !t.controllerUp && !t.serviceEnabled
  {
    var w := RunKeeps(BOOT, [], es, t);
    ShapeCounts(t, w);
    ShapeOrders(t, w);
    if t.regionActive {
      assert t.log[|w| + 3] == RegionOffered;
    }
  }

  /** The event is a run of the work that meets a live link with every retry already spent. */
  predicate ForcesTearDown(s: State, e: Event) {
    && !s.done && s.retries == MAX_RETRIES
    && match e
       case WorkRuns(env) => env.connections > 0
       case TimerFires(env) => env.connections > 0
       case _ => false
  }

  ghost predicate Forced(s: State, es: seq<Event>)
    decreases |es|
  {
    && es != [] && Enabled(s, es[0])
    && (ForcesTearDown(s, es[0]) || Forced(Step(s, es[0]), es[1..]))
  }

  lemma {:induction false} PastLimitIffForced(s: State, waiting: seq<Effect>, es: seq<Event>, t: State)
    requires Inv(s, waiting) && Run(s, es, t)
    ensures t.retries > MAX_RETRIES <==> s.retries > MAX_RETRIES || Forced(s, es)
    decreases |es|
  {
    if es == [] {
    } else {
      StepKeeps(s, waiting, es[0]);
      PastLimitIffForced(Step(s, es[0]), NextWaiting(s, waiting, es[0]), es[1..], t);
    }
  }

  /**
   Until the reclaim is done the retry counter is the number of busy runs since the last trigger, and at
   most 15; in every reachable state it is at most 16, and 16 exactly after a teardown in spite of a live link.
   */
  lemma RetriesCountBusyRuns(es: seq<Event>, t: State)
    requires Run(BOOT, es, t)
    ensures !t.done ==> t.retries == BusySince(t.log) <= MAX_RETRIES
    ensures 0 <= t.retries <= MAX_RETRIES + 1
    ensures t.retries == MAX_RETRIES + 1 <==> Forced(BOOT, es)
  {
    var w := RunKeeps(BOOT, [], es, t);
    PastLimitIffForced(BOOT, [], es, t);
  }

  // ----- termination -----

  predicate Pending(s: State) {
    s.queued > 0 || s.timerArmed
  }

  predicate IsTrigger(e: Event) {
    match e
    case WiFiConnectivityChange(established, provisioned, _) => established && provisioned
    case CommissioningComplete(provisioned, _) => provisioned
    case _ => false
  }

  predicate TimerHolds(e: Event) {
    match e
    case WorkRuns(env) => env.timerStarts
    case TimerFires(env) => env.timerStarts
    case _ => true
  }

  function Runs(es: seq<Event>): nat {
    if es == [] then 0 else Runs(es[1..]) + if es[0].WorkRuns? || es[0].TimerFires? then 1 else 0
  }

  lemma {:induction false} RunsLeft(s: State, waiting: seq<Effect>, es: seq<Event>, t: State)
    requires Inv(s, waiting) && Run(s, es, t)
    requires forall i :: 0 <= i < |es| ==> !IsTrigger(es[i])
    ensures !t.done ==> s.retries + Runs(es) <= MAX_RETRIES
    decreases |es|
  {
    if es == [] {
    } else {
      StepKeeps(s, waiting, es[0]);
      var next, rest := Step(s, es[0]), es[1..];
      assert forall i :: 0 <= i < |rest| ==> rest[i] == es[i + 1];
      RunsLeft(next, NextWaiting(s, waiting, es[0]), rest, t);
      if next.done {
        DoneStays(next, rest, t);
      }
    }
  }

  lemma {:induction false} DoneStays(s: State, es: seq<Event>, t: State)
    requires s.done && Run(s, es, t)
    ensures t.done
    decreases |es|
  {
    if es == [] {
    } else {
      DoneStays(Step(s, es[0]), es[1..], t);
    }
  }

  /** The last run of the work that is due meets a live link, has a retry left, and its timer does not start. */
  predicate Strands(s: State, e: Event) {
    && !s.done && s.retries < MAX_RETRIES
    && match e
       case WorkRuns(env) => env.connections > 0 && !env.timerStarts && s.queued == 1
       case TimerFires(env) => env.connections > 0 && !env.timerStarts && s.queued == 0
       case _ => false
  }

  /** Some step of the run strands. */
  ghost predicate Ever(s: State, es: seq<Event>)
    decreases |es|
  {
    && es != [] && Enabled(s, es[0])
    && (Strands(s, es[0]) || Ever(Step(s, es[0]), es[1..]))
  }

  lemma StepStrandsIff(s: State, e: Event)
    requires Enabled(s, e) && Pending(s) && !s.done && !IsTrigger(e)
    ensures !Step(s, e).done && !Pending(Step(s, e)) <==> Strands(s, e)
  {
  }

  /** Without a trigger nothing gets a stranded reclaim going again. */
  lemma {:induction false} StrandedStays(s: State, es: seq<Event>, t: State)
    requires !s.done && !Pending(s) && Run(s, es, t)
    requires forall i :: 0 <= i < |es| ==> !IsTrigger(es[i])
    ensures !t.done && !Pending(t) && t.log == s.log
    decreases |es|
  {
    if es == [] {
    } else {
      var rest := es[1..];
      assert forall i :: 0 <= i < |rest| ==> rest[i] == es[i + 1];
      StrandedStays(Step(s, es[0]), rest, t);
    }
  }

  lemma {:induction false} DoneNeverStrands(s: State, es: seq<Event>)
    requires s.done
    ensures !Ever(s, es)
    decreases |es|
  {
    if es != [] && Enabled(s, es[0]) {
      DoneNeverStrands(Step(s, es[0]), es[1..]);
    }
  }

  /** Without a trigger, a pending reclaim ends up unfinished with nothing due exactly if a step strands it. */
  lemma {:induction false} FailedTimerStrands(s: State, es: seq<Event>, t: State)
    requires Pending(s) && Run(s, es, t)
    requires forall i :: 0 <= i < |es| ==> !IsTrigger(es[i])
    ensures !t.done && !Pending(t) <==> Ever(s, es)
    decreases |es|
  {
    if s.done {
      DoneStays(s, es, t);
      DoneNeverStrands(s, es);
    } else if es == [] {
    } else {
      var next, rest := Step(s, es[0]), es[1..];
      assert forall i :: 0 <= i < |rest| ==> rest[i] == es[i + 1];
      StepStrandsIff(s, es[0]);
      if next.done {
        DoneStays(next, rest, t);
        DoneNeverStrands(next, rest);
      } else if Pending(next) {
        FailedTimerStrands(next, rest, t);
      } else {
        StrandedStays(next, rest, t);
      }
    }
  }

  lemma {:induction false} HoldingTimersNeverStrand(s: State, es: seq<Event>)
    requires forall i :: 0 <= i < |es| ==> TimerHolds(es[i])
    ensures !Ever(s, es)
    decreases |es|
  {
    if es != [] && Enabled(s, es[0]) {
      var rest := es[1..];
      assert forall i :: 0 <= i < |rest| ==> rest[i] == es[i + 1];
      assert !Strands(s, es[0]);
      HoldingTimersNeverStrand(Step(s, es[0]), rest);
    }
  }

  /**
   If no new trigger arrives, sixteen runs of the work finish the reclaim whatever the connection count
   and the timers do, and if timers start there is always a next run to come until then.
   */
  lemma DoneWithinSixteenRuns(before: seq<Event>, s: State, es: seq<Event>, t: State)
    requires Run(BOOT, before, s) && Pending(s) && Run(s, es, t)
    requires forall i :: 0 <= i < |es| ==> !IsTrigger(es[i])
    ensures Runs(es) >= 16 ==> t.done
    ensures (forall i :: 0 <= i < |es| ==> TimerHolds(es[i])) ==> t.done || Pending(t)
  {
    var w := RunKeeps(BOOT, [], before, s);
    RunsLeft(s, w, es, t);
    if forall i :: 0 <= i < |es| ==> TimerHolds(es[i]) {
      FailedTimerStrands(s, es, t);
      HoldingTimersNeverStrand(s, es);
    }
  }

  const BUSY_TIMER_FAILS := Env(1, false, true, true)

  /** It happens from boot on either path: in the first run after the trigger, or in a retry. */
  lemma StrandedFromBoot() returns (first: State, retry: State)
    ensures Run(BOOT, [CommissioningComplete(true, true), WorkRuns(BUSY_TIMER_FAILS)], first)
    ensures Run(BOOT, [CommissioningComplete(true, true), WorkRuns(Env(1, true, true, true)),
                       TimerFires(BUSY_TIMER_FAILS)], retry)
    ensures !first.done && !Pending(first) && !retry.done && !Pending(retry)
  {
    var trigger, busy := CommissioningComplete(true, true), WorkRuns(Env(1, true, true, true));
    var s := Step(BOOT, trigger);
    first := RunOfTwo(BOOT, trigger, WorkRuns(BUSY_TIMER_FAILS));
    retry := RunOfTwo(s, busy, TimerFires(BUSY_TIMER_FAILS));
    assert [trigger, busy, TimerFires(BUSY_TIMER_FAILS)][1..] == [busy, TimerFires(BUSY_TIMER_FAILS)];
  }

  lemma RunOfTwo(s: State, e: Event, f: Event) returns (t: State)
    requires Enabled(s, e) && Enabled(Step(s, e), f)
    ensures t == Step(Step(s, e), f) && Run(s, [e, f], t)
  {
    t := Step(Step(s, e), f);
    assert Run(t, [], t);
    assert [f][1..] == [] && [e, f][1..] == [f];
    assert Run(Step(s, e), [f], t);
  }

  /** With a link that stays up, n further runs within the limit leave the reclaim unfinished. */
  lemma {:induction false} BusyRuns(s: State, n: nat) returns (es: seq<Event>, t: State)
    requires !s.done && s.timerArmed && 0 <= s.retries && s.retries + n <= MAX_RETRIES
    ensures Run(s, es, t) && !t.done && Runs(es) == n
    ensures forall i :: 0 <= i < |es| ==> !IsTrigger(es[i]) && TimerHolds(es[i])
    decreases n
  {
    if n == 0 {
      es, t := [], s;
    } else {
      var e := TimerFires(Env(1, true, true, true));
      var rest, u := BusyRuns(Step(s, e), n - 1);
      es, t := [e] + rest, u;
      assert es[1..] == rest;
    }
  }

  /** Sixteen is reached: from boot, one trigger and a link that stays up, and fifteen runs are not enough. */
  lemma FifteenRunsNotEnough() returns (before: seq<Event>, s: State, es: seq<Event>, t: State)
    ensures Run(BOOT, before, s) && Pending(s) && Run(s, es, t)
    ensures forall i :: 0 <= i < |es| ==> !IsTrigger(es[i]) && TimerHolds(es[i])
    ensures Runs(es) == 15 && !t.done
  {
    before, s := [CommissioningComplete(true, true)], MaybeStart(BOOT, true, true);
    assert Run(s, [], s) && before[1..] == [];
    var first := WorkRuns(Env(1, true, true, true));
    var rest: seq<Event>;
    rest, t := BusyRuns(Step(s, first), 14);
    es := [first] + rest;
    assert es[1..] == rest;
  }

  // ----- the reclaim does not wait for WiFi -----

  predicate Joins(e: Event) {
    e.WiFiConnectivityChange? && e.established
  }

  predicate Commissions(e: Event) {
    e.CommissioningComplete? && e.provisioned
  }

  /** A shutdown in a run in which WiFi never came up follows a completed commissioning. */
  lemma UnjoinedNeedsCommissioning(es: seq<Event>, t: State)
    requires Run(BOOT, es, t) && BtDisabled in t.log
    requires forall i :: 0 <= i < |es| ==> !Joins(es[i])
    ensures exists i :: 0 <= i < |es| && Commissions(es[i])
  {
    if forall i :: 0 <= i < |es| ==> !Commissions(es[i]) {
      assert forall i :: 0 <= i < |es| ==> !IsTrigger(es[i]);
      StrandedStays(BOOT, es, t);
    }
  }

  /** And that is enough: wherever the reclaim is not done yet, commissioning alone leads to the hand-over. */
  lemma CommissioningSuffices(es: seq<Event>, s: State) returns (t: State)
    requires Run(BOOT, es, s) && !s.done
    ensures var more := [CommissioningComplete(true, true), WorkRuns(Env(0, true, true, true))];
            && Run(BOOT, es + more, t)
            && (forall e :: e in more ==> !Joins(e))
            && BtDisabled in t.log && t.regionActive
  {
    var trigger, work := CommissioningComplete(true, true), WorkRuns(Env(0, true, true, true));
    t := RunOfTwo(s, trigger, work);
    RunAppend(BOOT, es, s, [trigger, work], t);
    var log := s.log + [Triggered];
    assert t.log == log + [ServiceDisabled, BtDisabled] + [SawIdle, RegionOffered];
    assert t.log[|log| + 1] == BtDisabled;
  }

  /** So does WiFi coming up on a device provisioned before it booted. */
  lemma JoiningSuffices(es: seq<Event>, s: State) returns (t: State)
    requires Run(BOOT, es, s) && !s.done
    ensures var more := [WiFiConnectivityChange(true, true, true), WorkRuns(Env(0, true, true, true))];
            Run(BOOT, es + more, t) && BtDisabled in t.log && t.regionActive
  {
    var trigger, work := WiFiConnectivityChange(true, true, true), WorkRuns(Env(0, true, true, true));
    t := RunOfTwo(s, trigger, work);
    RunAppend(BOOT, es, s, [trigger, work], t);
    var log := s.log + [Triggered];
    assert t.log == log + [ServiceDisabled, BtDisabled] + [SawIdle, RegionOffered];
    assert t.log[|log| + 1] == BtDisabled;
  }

  /** And a shutdown has no other cause: some event found the device provisioned, WiFi up or commissioning complete. */
  lemma ShutdownNeedsTrigger(es: seq<Event>, t: State)
    requires Run(BOOT, es, t) && BtDisabled in t.log
    ensures exists i :: 0 <= i < |es| &&
              ((es[i].WiFiConnectivityChange? && es[i].established && es[i].provisioned) ||
               (es[i].CommissioningComplete? && es[i].provisioned))
  {
    if forall i :: 0 <= i < |es| ==> !IsTrigger(es[i]) {
      StrandedStays(BOOT, es, t);
    }
  }

  /** A trigger on a provisioned device that is not done clears the retry count and queues one run, if it can. */
  lemma TriggerDecides(s: State, e: Event)
    requires (e.WiFiConnectivityChange? && e.established) || e.CommissioningComplete?
    ensures Step(s, e) == if s.done || !e.provisioned then s
                          else s.(retries := 0, log := s.log + [Triggered],
                                  queued := if e.schedules then s.queued + 1 else s.queued)
  {
  }

  /**
   A run of the work on a reachable state not yet done tears BLE down exactly if no link is up or all
   fifteen retries are spent, and hands the region over exactly if the controller then reports idle and
   the heap takes it; otherwise it leaves a timer behind, if that starts.
   */
  lemma RunDecides(es: seq<Event>, s: State, e: Event, env: Env)
    requires Run(BOOT, es, s) && !s.done && Enabled(s, e) && (e == WorkRuns(env) || e == TimerFires(env))
    ensures var t := Step(s, e);
            && (t.done <==> env.connections == 0 || s.retries == 15)
            && (t.done ==> !t.serviceEnabled && t.controllerUp == !env.idleAfterShutdown
                           && (t.regionActive <==> env.idleAfterShutdown && env.heapLocked))
            && (!t.done ==> t.timerArmed == env.timerStarts && t.retries == s.retries + 1
                            && t.serviceEnabled == s.serviceEnabled && t.controllerUp == s.controllerUp
                            && t.regionActive == s.regionActive)
  {
    var w := RunKeeps(BOOT, [], es, s);
  }

  lemma {:induction false} RunAppend(s: State, first: seq<Event>, m: State, second: seq<Event>, t: State)
    requires Run(s, first, m) && Run(m, second, t)
    ensures Run(s, first + second, t)
    decreases |first|
  {
    if first == [] {
      assert first + second == second;
    } else {
      RunAppend(Step(s, first[0]), first[1..], m, second, t);
      assert (first + second)[1..] == first[1..] + second;
    }
  }

  // ----- the file's functions -----

  class Reclaimer {
    const heap: Malloc.SysHeap
    const reserveBase: int
    const reserveSize: int
    var sBleReclaimDone: bool
    var sBleReclaimRetries: int
    var queued: nat
    var timerArmed: bool
    var serviceEnabled: bool
    var controllerUp: bool
    ghost var log: seq<Effect>

    ghost predicate Valid()
      reads this, heap
    {
      && heap.Valid()
      && reserveSize >= 4096 && reserveBase != 0
      && Malloc.Apart(heap.heaps.primary.base, heap.heaps.primary.size, reserveBase, reserveSize)
      && (heap.heaps.reclaimedActive ==> sBleReclaimDone)
    }

    ghost function View(): State
      reads this, heap
    {
      State(sBleReclaimDone, sBleReclaimRetries, queued, timerArmed, serviceEnabled, controllerUp,
            heap.heaps.reclaimedActive, log)
    }

    constructor (heap: Malloc.SysHeap, reserveBase: int, reserveSize: int)
      requires heap.Valid() && !heap.heaps.reclaimedActive && reserveSize >= 4096 && reserveBase != 0
      requires Malloc.Apart(heap.heaps.primary.base, heap.heaps.primary.size, reserveBase, reserveSize)
      ensures Valid() && View() == BOOT && this.heap == heap
    {
      this.heap, this.reserveBase, this.reserveSize := heap, reserveBase, reserveSize;
      sBleReclaimDone, sBleReclaimRetries, queued, timerArmed := false, 0, 0, false;
      serviceEnabled, controllerUp, log := true, true, [];
    }

    /** Marks the service disabled before the controller goes down. */
    method BleShutdown(env: Env)
      modifies this`serviceEnabled, this`controllerUp, this`log
      ensures !serviceEnabled && controllerUp == !env.idleAfterShutdown
      ensures log == old(log) + [ServiceDisabled, BtDisabled]
    {
      serviceEnabled := false;
      log := log + [ServiceDisabled];
      controllerUp := !env.idleAfterShutdown;
      log := log + [BtDisabled];
    }

    method ReclaimBtDramWork(env: Env)
      requires Valid()
      modifies this, heap
      ensures Valid()
      ensures View() == Work(old(View()), env)
      ensures heap.heaps == if heap.heaps.reclaimedActive && !old(heap.heaps.reclaimedActive)
                            then Malloc.AddRegion(old(heap.heaps), reserveBase, reserveSize).heaps
                            else old(heap.heaps)
    {
      if sBleReclaimDone {
        return;
      }
      if env.connections != 0 {
        sBleReclaimRetries := sBleReclaimRetries + 1;
        if sBleReclaimRetries <= MAX_RETRIES {
          timerArmed := env.timerStarts;
          log := log + [Busy];
          return;
        }
      }
      BleShutdown(env);
      if controllerUp {
        sBleReclaimDone := true;
        return;
      }
      log := log + [SawIdle];
      var error := heap.AddReclaimedRegion(env.heapLocked, reserveBase, reserveSize);
      log := log + [RegionOffered];
      sBleReclaimDone := true;
      assert log == old(log) + [ServiceDisabled, BtDisabled] + [SawIdle, RegionOffered];
    }

    method MaybeStartBtReclaim(provisioned: bool, schedules: bool)
      requires Valid()
      modifies this
      ensures Valid()
      ensures View() == MaybeStart(old(View()), provisioned, schedules)
    {
      if sBleReclaimDone {
        return;
      }
      if !provisioned {
        return;
      }
      log := log + [Triggered];
      sBleReclaimRetries := 0;
      if schedules {
        queued := queued + 1;
      }
    }

    /** One event as the device callbacks and the platform deliver it. */
    method Deliver(e: Event)
      requires Valid() && Enabled(View(), e)
      modifies this, heap
      ensures Valid()
      ensures View() == Step(old(View()), e)
      ensures heap.heaps == if heap.heaps.reclaimedActive && !old(heap.heaps.reclaimedActive)
                            then Malloc.AddRegion(old(heap.heaps), reserveBase, reserveSize).heaps
                            else old(heap.heaps)
    {
      match e
      case WiFiConnectivityChange(established, provisioned, schedules) =>
        if established {
          MaybeStartBtReclaim(provisioned, schedules);
        }
      case CommissioningComplete(provisioned, schedules) =>
        MaybeStartBtReclaim(provisioned, schedules);
      case WorkRuns(env) =>
        queued := queued - 1;
        ReclaimBtDramWork(env);
      case TimerFires(env) =>
        timerArmed := false;
        ReclaimBtDramWork(env);
      case DriveBle =>
        if serviceEnabled {
          controllerUp := true;
        }
      case OtherEvent =>
    }
  }
}
