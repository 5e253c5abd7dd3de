/**
 The critical-section macros of the HAL port: a shared depth counter with one saved key, against the
 older scheme that kept the key in the lock word.
 */
module CriticalSection {

  /** `unsigned int` wraps. */
  const UINT: nat := 0x1_0000_0000

  // ----- the macros on the shared globals -----

  /** Interrupts enabled, the depth counter, the saved key (true: it will enable interrupts). */
  datatype Globals = Globals(irq: bool, nesting: nat, saved: bool)

  function Enter(g: Globals): Globals {
    Globals(false, (g.nesting + 1) % UINT, if g.nesting == 0 then g.irq else g.saved)
  }

  function Exit(g: Globals): Globals {
    var n := (g.nesting + UINT - 1) % UINT;
    Globals(if n == 0 then g.saved else g.irq, n, g.saved)
  }

  class Cpu {
    var irq: bool
    var espOsCritNesting: nat
    var espOsCritSavedKey: bool

    function State(): Globals
      reads this
    {
      Globals(irq, espOsCritNesting, espOsCritSavedKey)
    }

    constructor (irq: bool)
      ensures State() == Globals(irq, 0, false)
    {
      this.irq := irq;
      espOsCritNesting, espOsCritSavedKey := 0, false;
    }

    method IrqLock() returns (key: bool)
      modifies this`irq
      ensures key == old(irq) && !irq
    {
      key := irq;
      irq := false;
    }

    method IrqUnlock(key: bool)
      modifies this`irq
      ensures irq == key
    {
      irq := key;
    }

    method EspOsCritEnter()
      modifies this
      ensures State() == Enter(old(State()))
    {
      var k := IrqLock();
      var was := espOsCritNesting;
      espOsCritNesting := (espOsCritNesting + 1) % UINT;
      if was == 0 {
        espOsCritSavedKey := k;
      }
    }

    method EspOsCritExit()
      modifies this
      ensures State() == Exit(old(State()))
    {
      espOsCritNesting := (espOsCritNesting + UINT - 1) % UINT;
      if espOsCritNesting == 0 {
        IrqUnlock(espOsCritSavedKey);
      }
    }
  }

  // ----- interleaved execution, one memory access at a time -----

  datatype Phase =
    | Running
    | Locked(key: bool)               // irq_lock() has returned
    | Read(key: bool, was: nat)       // the counter has been read
    | Counted(key: bool, first: bool) // and written back, one higher
    | ReadBack(was: nat)              // on the way out, the counter has been read
    | Leaving(last: bool)             // and written back, one lower
    | Unlocking(key: bool)            // the saved key has been read

  /** A thread or interrupt handler: sections open, progress, and the IRQ state before the outermost enter. */
  datatype Context = Context(depth: nat, phase: Phase, outer: bool)

  datatype Machine = Machine(g: Globals, contexts: seq<Context>, current: nat)

  /** `Switch` is an interrupt, its return, or the scheduler; the incoming context runs with `irq` as given. */
  datatype Action =
    | LockIrq
    | ReadEnter
    | CountEnter
    | SaveKey
    | ReadExit
    | CountExit
    | LoadKey
    | UnlockIrq
    | LeaveInner
    | SetIrq(irq: bool)
    | Switch(to: nat, irq: bool)

  function Top(m: Machine): Context
    requires m.current < |m.contexts|
  {
    m.contexts[m.current]
  }

  predicate Idle(c: Context) {
    c.depth == 0 && c.phase.Running?
  }

  /**
   Interrupts strike at any step at which IRQs are enabled; otherwise control passes on only where no
   section is open. Code outside sections may set the IRQ state as it likes.
   */
  predicate Enabled(m: Machine, a: Action) {
    && m.current < |m.contexts|
    && match a
       case LockIrq => Top(m).phase.Running?
       case ReadEnter => Top(m).phase.Locked?
       case CountEnter => Top(m).phase.Read?
       case SaveKey => Top(m).phase.Counted?
       case ReadExit => Top(m).phase.Running? && Top(m).depth > 0
       case CountExit => Top(m).phase.ReadBack? && Top(m).depth > 0
       case LoadKey => Top(m).phase.Leaving? && Top(m).phase.last && Top(m).depth > 0
       case UnlockIrq => Top(m).phase.Unlocking? && Top(m).depth > 0
       case LeaveInner => Top(m).phase.Leaving? && !Top(m).phase.last && Top(m).depth > 0
       case SetIrq(_) => Idle(Top(m))
       case Switch(to, _) => to <= |m.contexts| && (m.g.irq || Idle(Top(m)))
  }

  function WithTop(m: Machine, c: Context): seq<Context>
    requires m.current < |m.contexts|
  {
    m.contexts[m.current := c]
  }

  function Step(m: Machine, a: Action): Machine
    requires Enabled(m, a)
  {
    var c, g := Top(m), m.g;
    match a
    case LockIrq =>
      var outer := if c.depth == 0 then g.irq else c.outer;
      m.(g := g.(irq := false), contexts := WithTop(m, c.(phase := Locked(g.irq), outer := outer)))
    case ReadEnter => m.(contexts := WithTop(m, c.(phase := Read(c.phase.key, g.nesting))))
    case CountEnter =>
      m.(g := g.(nesting := (c.phase.was + 1) % UINT),
         contexts := WithTop(m, c.(phase := Counted(c.phase.key, c.phase.was == 0))))
    case SaveKey =>
      m.(g := if c.phase.first then g.(saved := c.phase.key) else g,
         contexts := WithTop(m, c.(phase := Running, depth := c.depth + 1)))
    case ReadExit => m.(contexts := WithTop(m, c.(phase := ReadBack(g.nesting))))
    case CountExit =>
      var n := (c.phase.was + UINT - 1) % UINT;
      m.(g := g.(nesting := n), contexts := WithTop(m, c.(phase := Leaving(n == 0))))
    case LoadKey => m.(contexts := WithTop(m, c.(phase := Unlocking(g.saved))))
    case UnlockIrq =>
      m.(g := g.(irq := c.phase.key), contexts := WithTop(m, c.(phase := Running, depth := c.depth - 1)))
    case LeaveInner => m.(contexts := WithTop(m, c.(phase := Running, depth := c.depth - 1)))
    case SetIrq(irq) => m.(g := g.(irq := irq))
    case Switch(to, irq) =>
      m.(g := g.(irq := irq), current := to,
         contexts := if to == |m.contexts| then m.contexts + [Context(0, Running, false)] else m.contexts)
  }

  /** The globals are exactly what the running context's open sections account for; nobody else has any open. */
  ghost predicate Inv(m: Machine) {
    && m.current < |m.contexts|
    && (forall i :: 0 <= i < |m.contexts| && i != m.current ==> Idle(m.contexts[i]))
    && var c, g := Top(m), m.g;
       && c.depth <= UINT
       && (!Idle(c) ==> !g.irq)
       && (match c.phase
           case Running => g.nesting == c.depth % UINT && (c.depth > 0 ==> g.saved == c.outer)
           case Locked(key) =>
             && c.depth < UINT && g.nesting == c.depth
             && (if c.depth == 0 then key == c.outer else g.saved == c.outer)
           case Read(key, was) =>
             && c.depth < UINT && g.nesting == c.depth == was
             && (if c.depth == 0 then key == c.outer else g.saved == c.outer)
           case Counted(key, first) =>
             && c.depth < UINT && g.nesting == (c.depth + 1) % UINT && first == (c.depth == 0)
             && (if c.depth == 0 then key == c.outer else g.saved == c.outer)
           case ReadBack(was) =>
             c.depth > 0 && g.nesting == c.depth % UINT == was && g.saved == c.outer
           case Leaving(last) =>
             c.depth > 0 && g.nesting == c.depth - 1 && last == (c.depth == 1) && g.saved == c.outer
           case Unlocking(key) => c.depth == 1 && g.nesting == 0 && key == c.outer)
  }

  /** No more than 2^32 sections are open at once: the counter can tell them apart. */
  predicate Countable(m: Machine, a: Action) {
    a.LockIrq? && m.current < |m.contexts| ==> Top(m).depth < UINT
  }

  /**
   Every step keeps the invariant; in particular IRQs are off from the first instruction of an
   outermost enter until its exit, and that exit restores the IRQ state from before the enter.
   */
  lemma StepKeeps(m: Machine, a: Action)
    requires Inv(m) && Enabled(m, a) && Countable(m, a)
    ensures Inv(Step(m, a))
    ensures m.g.irq ==> Idle(Top(m))
    ensures a.UnlockIrq? ==> Top(m).depth == 1 && Step(m, a).g.irq == Top(m).outer
    ensures a.LeaveInner? ==> Top(m).depth > 1 && !Step(m, a).g.irq
    ensures a.LockIrq? && Top(m).depth == 0 ==> Top(Step(m, a)).outer == m.g.irq
    ensures !a.LockIrq? && !a.Switch? ==> Top(Step(m, a)).outer == Top(m).outer
  {
    if Top(m).depth == UINT {
      assert UINT % UINT == 0;
    }
  }

  ghost predicate Run(m: Machine, actions: seq<Action>, t: Machine)
    decreases |actions|
  {
    if actions == [] then m == t
    else Enabled(m, actions[0]) && Countable(m, actions[0]) && Run(Step(m, actions[0]), actions[1..], t)
  }

  /** Uninterrupted, the steps of an enter are the enter macro. */
  lemma EnterIsItsSteps(m: Machine) returns (t: Machine)
    requires Enabled(m, LockIrq) && Countable(m, LockIrq)
    ensures Run(m, [LockIrq, ReadEnter, CountEnter, SaveKey], t)
    ensures t.g == Enter(m.g) && t.current == m.current
    ensures Top(t).phase.Running? && Top(t).depth == Top(m).depth + 1
  {
    var m1 := Step(m, LockIrq);
    var m2 := Step(m1, ReadEnter);
    var m3 := Step(m2, CountEnter);
    t := Step(m3, SaveKey);
    assert Run(t, [], t);
    assert [SaveKey][1..] == [] && Run(m3, [SaveKey], t);
    assert [CountEnter, SaveKey][1..] == [SaveKey] && Run(m2, [CountEnter, SaveKey], t);
    assert [ReadEnter, CountEnter, SaveKey][1..] == [CountEnter, SaveKey];
    assert Run(m1, [ReadEnter, CountEnter, SaveKey], t);
    assert [LockIrq, ReadEnter, CountEnter, SaveKey][1..] == [ReadEnter, CountEnter, SaveKey];
  }

  /** And those of an exit, from the last section or an inner one, are the exit macro. */
  lemma ExitIsItsSteps(m: Machine) returns (actions: seq<Action>, t: Machine)
    requires Enabled(m, ReadExit)
    ensures Run(m, actions, t)
    ensures actions == [ReadExit, CountExit] + if t.g.nesting == 0 then [LoadKey, UnlockIrq] else [LeaveInner]
    ensures t.g == Exit(m.g) && t.current == m.current && |t.contexts| == |m.contexts|
    ensures Top(t).phase.Running? && Top(t).depth == Top(m).depth - 1
  {
    var m1 := Step(m, ReadExit);
    var m2 := Step(m1, CountExit);
    var rest: seq<Action>;
    if m2.g.nesting == 0 {
      var m3 := Step(m2, LoadKey);
      t := Step(m3, UnlockIrq);
      assert Run(t, [], t) && [UnlockIrq][1..] == [];
      assert Run(m3, [UnlockIrq], t);
      rest := [LoadKey, UnlockIrq];
      assert rest[1..] == [UnlockIrq];
    } else {
      t := Step(m2, LeaveInner);
      assert Run(t, [], t);
      rest := [LeaveInner];
      assert rest[1..] == [];
    }
    assert Run(m2, rest, t);
    actions := [ReadExit, CountExit] + rest;
    assert actions[1..][1..] == rest;
    assert Run(m1, actions[1..], t);
  }

  /** Over every interleaving: an open section means IRQs are off, and no other context has one. */
  lemma {:induction false} SectionsExcludeInterrupts(m: Machine, actions: seq<Action>, t: Machine)
    requires Inv(m) && Run(m, actions, t)
    ensures Inv(t)
    decreases |actions|
  {
    if actions == [] {
    } else {
      StepKeeps(m, actions[0]);
      SectionsExcludeInterrupts(Step(m, actions[0]), actions[1..], t);
    }
  }

  /** Every state of the run but the last has a section open in the running context. */
  ghost predicate StaysOpen(m: Machine, actions: seq<Action>)
    decreases |actions|
  {
    actions == [] || (Enabled(m, actions[0]) && !Idle(Top(m)) && StaysOpen(Step(m, actions[0]), actions[1..]))
  }

  /** Every state of the run but the last has IRQs off. */
  ghost predicate StaysMasked(m: Machine, actions: seq<Action>)
    decreases |actions|
  {
    actions == [] || (Enabled(m, actions[0]) && !m.g.irq && StaysMasked(Step(m, actions[0]), actions[1..]))
  }

  lemma {:induction false} InsideRestores(m: Machine, actions: seq<Action>, t: Machine)
    requires Inv(m) && Run(m, actions, t) && actions != []
    requires StaysOpen(m, actions) && t.current < |t.contexts| && Idle(Top(t))
    ensures StaysMasked(m, actions)
    ensures t.g.irq == Top(m).outer && t.current == m.current && t.g.nesting == 0
    decreases |actions|
  {
    StepKeeps(m, actions[0]);
    var next, rest := Step(m, actions[0]), actions[1..];
    if rest != [] {
      InsideRestores(next, rest, t);
    }
  }

  /**
   An outermost enter through its matching exit, whatever happens in between: IRQs are off in every
   state on the way, control never leaves the context, and the exit leaves the IRQ state the enter found.
   */
  lemma OutermostRestores(m: Machine, inside: seq<Action>, t: Machine)
    requires Inv(m) && Idle(Top(m)) && inside != []
    requires Run(m, [LockIrq] + inside, t)
    requires StaysOpen(Step(m, LockIrq), inside) && t.current < |t.contexts| && Idle(Top(t))
    ensures StaysMasked(Step(m, LockIrq), inside)
    ensures t.g.irq == m.g.irq && t.current == m.current && t.g.nesting == 0
  {
    var actions := [LockIrq] + inside;
    assert actions[0] == LockIrq && actions[1..] == inside;
    StepKeeps(m, LockIrq);
    InsideRestores(Step(m, LockIrq), inside, t);
  }

  // ----- nested sections as programs: the shared counter against the key in the lock word -----

  /** Properly nested sections: each names its lock and holds the sections inside it. */
  datatype Section = Section(lock: int, body: seq<Section>)

  function RunNew(p: seq<Section>, g: Globals): Globals
    decreases p
  {
    if p == [] then g else RunNew(p[1..], Exit(RunNew(p[0].body, Enter(g))))
  }

  /** The older macros: IRQ state, and the word of each lock that has been taken. */
  datatype LockWords = LockWords(irq: bool, words: map<int, bool>)

  function EnterOld(s: LockWords, lock: int): LockWords {
    LockWords(false, s.words[lock := s.irq])
  }

  function ExitOld(s: LockWords, lock: int): LockWords {
    s.(irq := lock in s.words && s.words[lock])
  }

  function RunOld(p: seq<Section>, s: LockWords): LockWords
    decreases p
  {
    if p == [] then s
    else RunOld(p[1..], ExitOld(RunOld(p[0].body, EnterOld(s, p[0].lock)), p[0].lock))
  }

  function Height(p: seq<Section>): nat
    decreases p
  {
    if p == [] then 0
    else
      var h := 1 + Height(p[0].body);
      if h > Height(p[1..]) then h else Height(p[1..])
  }

  predicate Takes(p: seq<Section>, lock: int)
    decreases p
  {
    p != [] && (p[0].lock == lock || Takes(p[0].body, lock) || Takes(p[1..], lock))
  }

  /** Some outermost section takes its own lock again inside. */
  predicate Reenters(p: seq<Section>) {
    p != [] && (Takes(p[0].body, p[0].lock) || Reenters(p[1..]))
  }

  /** The counter goes up and comes back, and reads zero only when no section is open. */
  lemma CountUp(d: nat)
    requires d < UINT
    ensures (d % UINT + 1) % UINT == (d + 1) % UINT
    ensures ((d + 1) % UINT + UINT - 1) % UINT == d % UINT == d
  {
    if d + 1 == UINT {
      assert (d + 1) % UINT == 0;
    } else {
      assert (d + 1) % UINT == d + 1;
    }
  }

  /** Inside d open sections, a program leaves the globals as they were. */
  lemma {:induction false} NewIsNeutral(p: seq<Section>, g: Globals, d: nat)
    requires d + Height(p) <= UINT && g.nesting == d % UINT && (d > 0 ==> !g.irq)
    ensures var t := RunNew(p, g);
            t.irq == g.irq && t.nesting == g.nesting && (d > 0 ==> t.saved == g.saved)
    decreases p
  {
    if p == [] {
    } else {
      var inner := Enter(g);
      CountUp(d);
      NewIsNeutral(p[0].body, inner, d + 1);
      NewIsNeutral(p[1..], Exit(RunNew(p[0].body, inner)), d);
    }
  }

  /** The counter restores the IRQ state after every program it can count, re-entrant or not. */
  lemma NewRestores(p: seq<Section>, g: Globals)
    requires g.nesting == 0 && Height(p) <= UINT
    ensures RunNew(p, g).irq == g.irq && RunNew(p, g).nesting == 0
  {
    NewIsNeutral(p, g, 0);
  }

  /** With IRQs off, the old macros leave them off and poison the word of every lock taken. */
  lemma {:induction false} OldWhileMasked(p: seq<Section>, s: LockWords, lock: int)
    requires !s.irq
    ensures var t := RunOld(p, s);
            && !t.irq
            && (if Takes(p, lock) then lock in t.words && !t.words[lock]
                else (lock in t.words <==> lock in s.words) && (lock in s.words ==> t.words[lock] == s.words[lock]))
    decreases p
  {
    if p == [] {
    } else {
      var inner := EnterOld(s, p[0].lock);
      var body := RunOld(p[0].body, inner);
      OldWhileMasked(p[0].body, inner, lock);
      OldWhileMasked(p[0].body, inner, p[0].lock);
      var after := ExitOld(body, p[0].lock);
      OldWhileMasked(p[1..], after, lock);
    }
  }

  /** From enabled IRQs, the old macros restore them exactly when no outermost section re-enters its lock. */
  lemma {:induction false} OldRestoresIff(p: seq<Section>, s: LockWords)
    requires s.irq
    ensures RunOld(p, s).irq <==> !Reenters(p)
    decreases p
  {
    if p == [] {
    } else {
      var inner := EnterOld(s, p[0].lock);
      OldWhileMasked(p[0].body, inner, p[0].lock);
      var after := ExitOld(RunOld(p[0].body, inner), p[0].lock);
      if after.irq {
        OldRestoresIff(p[1..], after);
      } else {
        OldWhileMasked(p[1..], after, p[0].lock);
      }
    }
  }

  /** The nesting that froze BLE bring-up: one lock taken inside itself. */
  lemma ModemClockNesting(lock: int)
    ensures var p := [Section(lock, [Section(lock, [])])];
            && !RunOld(p, LockWords(true, map[])).irq
            && RunNew(p, Globals(true, 0, false)).irq
  {
    var p := [Section(lock, [Section(lock, [])])];
    assert p[1..] == [];
    assert Takes(p[0].body, lock);
    assert Reenters(p);
    OldRestoresIff(p, LockWords(true, map[]));
    assert p[0].body[1..] == [];
    assert Height(p[0].body) == 1;
    assert Height(p) <= UINT;
    NewRestores(p, Globals(true, 0, false));
  }

  // ----- where counting stops working -----

  function EnterTimes(g: Globals, n: nat): Globals {
    if n == 0 then g else Enter(EnterTimes(g, n - 1))
  }

  function ExitTimes(g: Globals, n: nat): Globals
    decreases n
  {
    if n == 0 then g else ExitTimes(Exit(g), n - 1)
  }

  /** The counter reads zero after n enters, n positive, only once it has wrapped. */
  lemma ZeroAfterWrap(n: nat)
    requires n > 0 && n % UINT == 0
    ensures n >= UINT
  {
  }

  lemma CountNext(n: nat)
    ensures (n % UINT + 1) % UINT == (n + 1) % UINT
  {
    var q, r := n / UINT, n % UINT;
    if r + 1 < UINT {
      assert n + 1 == q * UINT + (r + 1);
    } else {
      assert n + 1 == (q + 1) * UINT;
    }
  }

  lemma {:induction false} AfterEnters(g: Globals, n: nat)
    requires g.nesting == 0 && g.irq
    ensures var t := EnterTimes(g, n);
            t.nesting == n % UINT && (n > 0 ==> !t.irq && (t.saved <==> n <= UINT))
  {
    if n == 0 {
    } else {
      AfterEnters(g, n - 1);
      CountNext(n - 1);
      if n > 1 && (n - 1) % UINT == 0 {
        ZeroAfterWrap(n - 1);
      }
    }
  }

  lemma {:induction false} AfterExits(g: Globals, n: nat)
    requires g.nesting == n % UINT && n > 0
    requires n <= UINT || !g.saved
    requires !g.irq
    ensures ExitTimes(g, n).irq == g.saved
    decreases n
  {
    if n == 1 {
      assert ExitTimes(Exit(g), 0) == Exit(g);
    } else {
      assert (g.nesting + UINT - 1) % UINT == (n - 1) % UINT;
      assert n <= UINT ==> (n - 1) % UINT == n - 1;
      AfterExits(Exit(g), n - 1);
    }
  }

  /** n enters and n exits bring enabled IRQs back exactly when n is at most 2^32. */
  lemma CountingLimit(g: Globals, n: nat)
    requires g.nesting == 0 && g.irq
    ensures ExitTimes(EnterTimes(g, n), n).irq <==> n <= 0x1_0000_0000
  {
    AfterEnters(g, n);
    if n > 0 {
      AfterExits(EnterTimes(g, n), n);
    }
  }
}
