/**
 The factory-reset button: an edge handler that starts or cancels two delayed work items, over every
 timed sequence of readings. Time is in milliseconds; work runs in the millisecond it is due.
 */
module FactoryReset {
  import opened Wrappers

  const WARNING_DELAY: nat := 2000
  const TRIGGER_DELAY: nat := 5000

  datatype Entry = Pressed(at: nat) | Released(at: nat) | Warned(at: nat) | Reset(at: nat)

  /** The clock, when each item is due (if it is scheduled), and what has happened. */
  datatype State = State(now: nat, warning: Option<nat>, trigger: Option<nat>, log: seq<Entry>)

  datatype Action = Tick | Edge(pressed: bool) | RunWarning | RunTrigger

  const BOOT := State(0, None, None, [])

  predicate Due(item: Option<nat>, now: nat) {
    item.Some? && item.value <= now
  }

  predicate Enabled(s: State, a: Action) {
    match a
    case Tick => !Due(s.warning, s.now) && !Due(s.trigger, s.now)
    case Edge(_) => true
    case RunWarning => Due(s.warning, s.now)
    case RunTrigger => Due(s.trigger, s.now)
  }

  /** Scheduling an item that is already scheduled does not move it. */
  function Schedule(item: Option<nat>, due: nat): Option<nat> {
    if item.Some? then item else Some(due)
  }

  function Step(s: State, a: Action): State
    requires Enabled(s, a)
  {
    match a
    case Tick => s.(now := s.now + 1)
    case Edge(pressed) =>
      if pressed then
        s.(warning := Schedule(s.warning, s.now + WARNING_DELAY),
           trigger := Schedule(s.trigger, s.now + TRIGGER_DELAY), log := s.log + [Pressed(s.now)])
      else s.(warning := None, trigger := None, log := s.log + [Released(s.now)])
    case RunWarning => s.(warning := None, log := s.log + [Warned(s.now)])
    case RunTrigger => s.(trigger := None, log := s.log + [Reset(s.now)])
  }

  ghost predicate Run(s: State, actions: seq<Action>, t: State)
    decreases |actions|
  {
    if actions == [] then s == t
    else Enabled(s, actions[0]) && Run(Step(s, actions[0]), actions[1..], t)
  }

  /** log[j] is a pressed reading at the given time, with no released reading from there up to i. */
  ghost predicate HeldFrom(log: seq<Entry>, j: nat, at: int, i: nat)
    requires i <= |log|
  {
    j < i && log[j].Pressed? && log[j].at == at && forall k :: j < k < i ==> !log[k].Released?
  }

  ghost predicate HeldSince(log: seq<Entry>, at: int, i: nat)
    requires i <= |log|
  {
    exists j: nat :: HeldFrom(log, j, at, i)
  }

  /** The reset at index i ends a hold of exactly five seconds. */
  ghost predicate AfterHold(log: seq<Entry>, i: nat)
    requires i < |log|
  {
    log[i].Reset? ==> HeldSince(log, log[i].at - TRIGGER_DELAY, i)
  }

  /** The pressed reading at index j was released or led to a reset in time, or is going to. */
  ghost predicate Answered(s: State, j: nat)
    requires j < |s.log|
  {
    s.log[j].Pressed? ==>
      var limit := s.log[j].at + TRIGGER_DELAY;
      || (s.trigger.Some? && s.trigger.value <= limit)
      || exists i :: j < i < |s.log| && Ends(s.log[i], limit)
  }

  predicate Ends(e: Entry, limit: nat) {
    (e.Released? || e.Reset?) && e.at <= limit
  }

  ghost predicate Inv(s: State) {
    && (s.trigger.Some? ==>
          s.now <= s.trigger.value && HeldSince(s.log, s.trigger.value - TRIGGER_DELAY, |s.log|))
    && (forall i :: 0 <= i < |s.log| ==> AfterHold(s.log, i))
    && (forall j :: 0 <= j < |s.log| ==> s.log[j].at <= s.now && Answered(s, j))
  }

  lemma HeldExtends(log: seq<Entry>, at: int, i: nat, e: Entry)
    requires i <= |log| && HeldSince(log, at, i)
    ensures HeldSince(log + [e], at, i)
    ensures i == |log| && !e.Released? ==> HeldSince(log + [e], at, i + 1)
  {
    var j: nat :| HeldFrom(log, j, at, i);
    assert forall k :: 0 <= k < i ==> (log + [e])[k] == log[k];
    assert HeldFrom(log + [e], j, at, i);
    assert i == |log| && !e.Released? ==> HeldFrom(log + [e], j, at, i + 1);
  }

  lemma HoldsExtend(log: seq<Entry>, e: Entry, i: nat)
    requires i < |log| && AfterHold(log, i)
    ensures AfterHold(log + [e], i)
  {
    if log[i].Reset? {
      HeldExtends(log, log[i].at - TRIGGER_DELAY, i, e);
    }
  }

  lemma AnswersExtend(s: State, t: State, e: Entry, j: nat)
    requires j < |s.log| && Answered(s, j) && t.log == s.log + [e]
    requires s.trigger.Some? ==> t.trigger == s.trigger || Ends(e, s.trigger.value)
    ensures Answered(t, j)
  {
    if s.log[j].Pressed? {
      var limit := s.log[j].at + TRIGGER_DELAY;
      if s.trigger.Some? && s.trigger.value <= limit {
        assert t.log[|s.log|] == e;
        assert t.trigger == s.trigger || Ends(t.log[|s.log|], limit);
      } else {
        var i :| j < i < |s.log| && Ends(s.log[i], limit);
        assert t.log[i] == s.log[i];
      }
    }
  }

  lemma StepKeeps(s: State, a: Action)
    requires Inv(s) && Enabled(s, a)
    ensures Inv(Step(s, a))
  {
    var t := Step(s, a);
    if a.Tick? {
      forall j | 0 <= j < |t.log| ensures Answered(t, j) {
        assert Answered(s, j);
      }
    } else {
      var e := t.log[|s.log|];
      forall i | 0 <= i < |s.log| ensures AfterHold(t.log, i) {
        HoldsExtend(s.log, e, i);
      }
      forall j | 0 <= j < |s.log| ensures Answered(t, j) {
        AnswersExtend(s, t, e, j);
      }
      if s.trigger.Some? {
        HeldExtends(s.log, s.trigger.value - TRIGGER_DELAY, |s.log|, e);
      } else if t.trigger.Some? {
        assert HeldFrom(t.log, |s.log|, s.now, |t.log|);
      }
    }
  }

  lemma {:induction false} RunKeeps(s: State, actions: seq<Action>, t: State)
    requires Inv(s) && Run(s, actions, t)
    ensures Inv(t)
    decreases |actions|
  {
    if actions == [] {
    } else {
      StepKeeps(s, actions[0]);
      RunKeeps(Step(s, actions[0]), actions[1..], t);
    }
  }

  /** A reset happens only where the button read pressed exactly five seconds before and never released since. */
  lemma ResetOnlyAfterHold(actions: seq<Action>, t: State, i: nat) returns (j: nat)
    requires Run(BOOT, actions, t) && i < |t.log| && t.log[i].Reset?
    ensures HeldFrom(t.log, j, t.log[i].at - 5000, i)
  {
    RunKeeps(BOOT, actions, t);
    assert AfterHold(t.log, i);
    j :| HeldFrom(t.log, j, t.log[i].at - TRIGGER_DELAY, i);
  }

  /**
   A pressed reading that no released reading follows within five seconds has led to a reset by then;
   further pressed readings, such as contact bounce, do not postpone it.
   */
  lemma HoldResetsInTime(actions: seq<Action>, t: State, j: nat) returns (i: nat)
    requires Run(BOOT, actions, t) && j < |t.log| && t.log[j].Pressed?
    requires t.now > t.log[j].at + 5000
    requires forall k :: j < k < |t.log| && t.log[k].Released? ==> t.log[k].at > t.log[j].at + 5000
    ensures j < i < |t.log| && t.log[i].Reset? && t.log[i].at <= t.log[j].at + 5000
  {
    RunKeeps(BOOT, actions, t);
    assert Answered(t, j);
    i :| j < i < |t.log| && Ends(t.log[i], t.log[j].at + TRIGGER_DELAY);
  }

  // ----- every reset is announced -----

  /** log[j] is a warning given in time for a reset at `at`, with no released reading from there up to i. */
  ghost predicate WarnedFrom(log: seq<Entry>, j: nat, at: int, i: nat)
    requires i <= |log|
  {
    && j < i && log[j].Warned?
    && at - TRIGGER_DELAY <= log[j].at <= at - TRIGGER_DELAY + WARNING_DELAY
    && forall k :: j < k < i ==> !log[k].Released?
  }

  ghost predicate Announced(log: seq<Entry>, at: int, i: nat)
    requires i <= |log|
  {
    exists j: nat :: WarnedFrom(log, j, at, i)
  }

  ghost predicate AfterWarning(log: seq<Entry>, i: nat)
    requires i < |log|
  {
    log[i].Reset? ==> Announced(log, log[i].at, i)
  }

  /** A reset that is due has been announced, or a warning comes first and soon enough. */
  ghost predicate WarningInv(s: State) {
    && (s.warning.Some? ==> s.now <= s.warning.value <= s.now + WARNING_DELAY)
    && (s.trigger.Some? ==>
          && s.trigger.value - TRIGGER_DELAY <= s.now <= s.trigger.value
          && (Announced(s.log, s.trigger.value, |s.log|) ||
              (s.warning.Some? && s.warning.value <= s.trigger.value - TRIGGER_DELAY + WARNING_DELAY)))
    && (forall i :: 0 <= i < |s.log| ==> AfterWarning(s.log, i))
  }

  lemma AnnouncedExtends(log: seq<Entry>, at: int, i: nat, e: Entry)
    requires i <= |log| && Announced(log, at, i)
    ensures Announced(log + [e], at, i)
    ensures i == |log| && !e.Released? ==> Announced(log + [e], at, i + 1)
  {
    var j: nat :| WarnedFrom(log, j, at, i);
    assert forall k :: 0 <= k < i ==> (log + [e])[k] == log[k];
    assert WarnedFrom(log + [e], j, at, i);
    assert i == |log| && !e.Released? ==> WarnedFrom(log + [e], j, at, i + 1);
  }

  lemma StepKeepsWarning(s: State, a: Action)
    requires WarningInv(s) && Enabled(s, a)
    ensures WarningInv(Step(s, a))
  {
    var t := Step(s, a);
    if !a.Tick? {
      var e := t.log[|s.log|];
      forall i | 0 <= i < |s.log| ensures AfterWarning(t.log, i) {
        assert AfterWarning(s.log, i);
        if s.log[i].Reset? {
          AnnouncedExtends(s.log, s.log[i].at, i, e);
        }
      }
      if s.trigger.Some? && Announced(s.log, s.trigger.value, |s.log|) {
        AnnouncedExtends(s.log, s.trigger.value, |s.log|, e);
      } else if a.RunWarning? && s.trigger.Some? {
        assert WarnedFrom(t.log, |s.log|, s.trigger.value, |t.log|);
      }
    }
  }

  lemma {:induction false} RunKeepsWarning(s: State, actions: seq<Action>, t: State)
    requires WarningInv(s) && Run(s, actions, t)
    ensures WarningInv(t)
    decreases |actions|
  {
    if actions == [] {
    } else {
      StepKeepsWarning(s, actions[0]);
      RunKeepsWarning(Step(s, actions[0]), actions[1..], t);
    }
  }

  /** Before every reset, three to five seconds ahead, a warning was given and the button not released since. */
  lemma ResetIsAnnounced(actions: seq<Action>, t: State, i: nat) returns (j: nat)
    requires Run(BOOT, actions, t) && i < |t.log| && t.log[i].Reset?
    ensures j < i && t.log[j].Warned? && t.log[i].at - 5000 <= t.log[j].at <= t.log[i].at - 3000
    ensures forall k :: j < k < i ==> !t.log[k].Released?
  {
    RunKeepsWarning(BOOT, actions, t);
    assert AfterWarning(t.log, i);
    j :| WarnedFrom(t.log, j, t.log[i].at, i);
  }

  // ----- the warning itself -----

  /** The warning at index i ends two seconds of a hold. */
  ghost predicate WarnsAfterHold(log: seq<Entry>, i: nat)
    requires i < |log|
  {
    log[i].Warned? ==> HeldSince(log, log[i].at - WARNING_DELAY, i)
  }

  predicate EndsWarning(e: Entry, limit: nat) {
    (e.Released? || e.Warned?) && e.at <= limit
  }

  /** The pressed reading at index j was released or warned about in time, or is going to be. */
  ghost predicate WarningAnswered(s: State, j: nat)
    requires j < |s.log|
  {
    s.log[j].Pressed? ==>
      var limit := s.log[j].at + WARNING_DELAY;
      || (s.warning.Some? && s.warning.value <= limit)
      || exists i :: j < i < |s.log| && EndsWarning(s.log[i], limit)
  }

  ghost predicate WarnInv(s: State) {
    && (s.warning.Some? ==>
          s.now <= s.warning.value && HeldSince(s.log, s.warning.value - WARNING_DELAY, |s.log|))
    && (forall i :: 0 <= i < |s.log| ==> WarnsAfterHold(s.log, i))
    && (forall j :: 0 <= j < |s.log| ==> s.log[j].at <= s.now && WarningAnswered(s, j))
  }

  lemma WarningAnswersExtend(s: State, t: State, e: Entry, j: nat)
    requires j < |s.log| && WarningAnswered(s, j) && t.log == s.log + [e]
    requires s.warning.Some? ==> t.warning == s.warning || EndsWarning(e, s.warning.value)
    ensures WarningAnswered(t, j)
  {
    if s.log[j].Pressed? {
      var limit := s.log[j].at + WARNING_DELAY;
      if s.warning.Some? && s.warning.value <= limit {
        assert t.log[|s.log|] == e;
        assert t.warning == s.warning || EndsWarning(t.log[|s.log|], limit);
      } else {
        var i :| j < i < |s.log| && EndsWarning(s.log[i], limit);
        assert t.log[i] == s.log[i];
      }
    }
  }

  lemma StepKeepsWarn(s: State, a: Action)
    requires WarnInv(s) && Enabled(s, a)
    ensures WarnInv(Step(s, a))
  {
    var t := Step(s, a);
    if a.Tick? {
      forall j | 0 <= j < |t.log| ensures WarningAnswered(t, j) {
        assert WarningAnswered(s, j);
      }
    } else {
      var e := t.log[|s.log|];
      forall i | 0 <= i < |s.log| ensures WarnsAfterHold(t.log, i) {
        assert WarnsAfterHold(s.log, i);
        if s.log[i].Warned? {
          HeldExtends(s.log, s.log[i].at - WARNING_DELAY, i, e);
        }
      }
      forall j | 0 <= j < |s.log| ensures WarningAnswered(t, j) {
        WarningAnswersExtend(s, t, e, j);
      }
      if s.warning.Some? {
        HeldExtends(s.log, s.warning.value - WARNING_DELAY, |s.log|, e);
      } else if t.warning.Some? {
        assert HeldFrom(t.log, |s.log|, s.now, |t.log|);
      }
    }
  }

  lemma {:induction false} RunKeepsWarn(s: State, actions: seq<Action>, t: State)
    requires WarnInv(s) && Run(s, actions, t)
    ensures WarnInv(t)
    decreases |actions|
  {
    if actions == [] {
    } else {
      StepKeepsWarn(s, actions[0]);
      RunKeepsWarn(Step(s, actions[0]), actions[1..], t);
    }
  }

  /** A warning is given only where the button read pressed exactly two seconds before and never released since. */
  lemma WarningOnlyAfterHold(actions: seq<Action>, t: State, i: nat) returns (j: nat)
    requires Run(BOOT, actions, t) && i < |t.log| && t.log[i].Warned?
    ensures HeldFrom(t.log, j, t.log[i].at - 2000, i)
  {
    RunKeepsWarn(BOOT, actions, t);
    assert WarnsAfterHold(t.log, i);
    j :| HeldFrom(t.log, j, t.log[i].at - WARNING_DELAY, i);
  }

  /** And a pressed reading that no released reading follows within two seconds has led to a warning by then. */
  lemma HoldWarnsInTime(actions: seq<Action>, t: State, j: nat) returns (i: nat)
    requires Run(BOOT, actions, t) && j < |t.log| && t.log[j].Pressed?
    requires t.now > t.log[j].at + 2000
    requires forall k :: j < k < |t.log| && t.log[k].Released? ==> t.log[k].at > t.log[j].at + 2000
    ensures j < i < |t.log| && t.log[i].Warned? && t.log[i].at <= t.log[j].at + 2000
  {
    RunKeepsWarn(BOOT, actions, t);
    assert WarningAnswered(t, j);
    i :| j < i < |t.log| && EndsWarning(t.log[i], t.log[j].at + WARNING_DELAY);
  }

  // ----- the handler -----

  class Button {
    var now: nat
    var warning: Option<nat>
    var trigger: Option<nat>
    ghost var log: seq<Entry>

    ghost function View(): State
      reads this
    {
      State(now, warning, trigger, log)
    }

    constructor ()
      ensures View() == BOOT
    {
      now, warning, trigger, log := 0, None, None, [];
    }

    /** Runs on both edges and goes by what the pin reads, not by which edge it was. */
    method Button0Handler(pin: int)
      modifies this`warning, this`trigger, this`log
      ensures View() == Step(old(View()), Edge(pin > 0))
    {
      if pin > 0 {
        log := log + [Pressed(now)];
        if warning.None? {
          warning := Some(now + WARNING_DELAY);
        }
        if trigger.None? {
          trigger := Some(now + TRIGGER_DELAY);
        }
      } else {
        log := log + [Released(now)];
        trigger := None;
        warning := None;
      }
    }
  }
}
