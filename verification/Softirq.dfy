/** Software interrupts: raises from interrupt handlers against the kernel thread's
    execution loop, step by step (kernel/softirq.c, kernel/systhread.c). */
module Softirq {
  import opened ThreadTree
  import opened Sched

  /** Where the kernel thread stands in softirq_execute. `any` is the OR of the
      flags read so far with interrupts off. */
  datatype Pc =
    | Scan(i: nat)          // about to test flag i, or to leave the loop
    | Handle(i: nat)        // inside handler i
    | Clear(i: nat)         // handler i has returned, flag i not yet cleared
    | Sum(i: nat, any: bool)
    | SetState(any: bool)
    | Enable(any: bool)
    | Branch(any: bool)
    | Yield                 // softirq_execute has returned: irq_svc

  /** The flags, which types have a handler, the state of the kernel thread, and
      the raises between their two writes. */
  datatype State = State(flags: seq<bool>, handled: seq<bool>, runnable: bool, raising: nat, pc: Pc)

  predicate Ok(s: State) {
    && |s.handled| == |s.flags|
    && match s.pc
       case Scan(i) => i <= |s.flags|
       case Handle(i) => i < |s.flags|
       case Clear(i) => i < |s.flags|
       case Sum(i, _) => i <= |s.flags|
       case _ => true
  }

  predicate Pending(flags: seq<bool>, n: nat) {
    exists i :: 0 <= i < n && i < |flags| && flags[i]
  }

  /** Interrupts are off from irq_disable to irq_enable. */
  predicate Masked(pc: Pc) { pc.Sum? || pc.SetState? || pc.Enable? }

  /** The first write of softirq_schedule, its second write, or a step of the
      kernel thread. */
  datatype Step = RaiseFlag(i: nat) | RaiseState | Kernel

  /** An interrupt is taken only while they are enabled, and handlers nest: the
      kernel thread moves on when all of them have returned. */
  predicate Enabled(s: State, step: Step) {
    match step
    case RaiseFlag(i) => i < |s.flags| && !Masked(s.pc)
    case RaiseState => s.raising > 0
    case Kernel => s.raising == 0
  }

  function KernelStep(s: State): State
    requires Ok(s)
  {
    match s.pc
    case Scan(i) =>
      if i == |s.flags| then s.(pc := Sum(0, false))
      else if s.flags[i] && s.handled[i] then s.(pc := Handle(i))
      else s.(pc := Scan(i + 1))
    case Handle(i) => s.(pc := Clear(i))
    case Clear(i) => s.(flags := s.flags[i := false], pc := Scan(i + 1))
    case Sum(i, any) =>
      if i == |s.flags| then s.(pc := SetState(any)) else s.(pc := Sum(i + 1, any || s.flags[i]))
    case SetState(any) => s.(runnable := any, pc := Enable(any))
    case Enable(any) => s.(pc := Branch(any))
    case Branch(any) => s.(pc := if any then Scan(0) else Yield)
    case Yield => s.(pc := Scan(0))
  }

  function Apply(s: State, step: Step): State
    requires Ok(s) && Enabled(s, step)
  {
    match step
    case RaiseFlag(i) => s.(flags := s.flags[i := true], raising := s.raising + 1)
    case RaiseState => s.(runnable := true, raising := s.raising - 1)
    case Kernel => KernelStep(s)
  }

  // ----- No pending softirq is ever left behind an inactive kernel thread -----

  /** What holds at each point with interrupts off. */
  predicate PcInv(s: State) {
    match s.pc
    case Sum(i, any) => s.raising == 0 && (any <==> Pending(s.flags, i)) && i <= |s.flags|
    case SetState(any) => s.raising == 0 && (any <==> Pending(s.flags, |s.flags|))
    case Enable(any) => s.raising == 0
    case _ => true
  }

  /** Outside the two writes of a raise, a pending softirq has a runnable kernel thread. */
  predicate NotStranded(s: State) {
    s.raising == 0 && Pending(s.flags, |s.flags|) ==> s.runnable
  }

  predicate Inv(s: State) { Ok(s) && PcInv(s) && NotStranded(s) }

  lemma PendingStep(flags: seq<bool>, i: nat)
    requires i < |flags|
    ensures Pending(flags, i + 1) <==> Pending(flags, i) || flags[i]
  {
    if Pending(flags, i + 1) {
      var k :| 0 <= k < i + 1 && k < |flags| && flags[k];
      assert k < i || k == i;
    }
  }

  lemma PendingAfterClear(flags: seq<bool>, i: nat)
    requires i < |flags| && Pending(flags[i := false], |flags|)
    ensures Pending(flags, |flags|)
  {
    var k :| 0 <= k < |flags| && flags[i := false][k];
    assert flags[k];
  }

  lemma StepInv(s: State, step: Step)
    requires Inv(s) && Enabled(s, step)
    ensures Inv(Apply(s, step))
  {
    if step.Kernel? {
      match s.pc
      case Sum(i, _) =>
        if i < |s.flags| {
          PendingStep(s.flags, i);
        }
      case Clear(i) =>
        if Pending(s.flags[i := false], |s.flags|) {
          PendingAfterClear(s.flags, i);
        }
      case _ =>
    }
  }

  predicate IsRun(ss: seq<State>, steps: seq<Step>) {
    && |ss| == |steps| + 1 && Inv(ss[0])
    && forall k {:trigger steps[k]} :: 0 <= k < |steps| ==>
         Ok(ss[k]) && Enabled(ss[k], steps[k]) && ss[k + 1] == Apply(ss[k], steps[k])
  }

  lemma {:induction false} RunInv(ss: seq<State>, steps: seq<Step>, k: nat)
    requires IsRun(ss, steps) && k <= |steps|
    ensures Inv(ss[k])
  {
    if k > 0 {
      RunInv(ss, steps, k - 1);
      StepInv(ss[k - 1], steps[k - 1]);
    }
  }

  // ----- Together with the scheduler -----

  /** The softirq machine and the scheduler slots. */
  datatype Cpu = Cpu(soft: State, slots: seq<Ptr>)

  /** A softirq step, a dispatch to a slot of lower priority, or a selection among
      the runnable threads. */
  datatype CpuStep = Soft(step: Step) | Dispatch(slot: nat, thread: Ptr) | Select(found: seq<Ptr>, others: set<Ptr>)

  /** The runnable threads: the kernel thread by its state, and the others. */
  function RunnableSet(s: State, kernel: Ptr, others: set<Ptr>): set<Ptr> {
    if s.runnable then others + {kernel} else others - {kernel}
  }

  /** Only the creation of the kernel thread and of the idle thread writes their
      slots; the first has no handler. The idle thread is always runnable. */
  predicate CpuEnabled(c: Cpu, idle: Ptr, step: CpuStep) {
    match step
    case Soft(st) => Enabled(c.soft, st)
    case Dispatch(slot, _) => SOFTIRQ_SLOT < slot < IDLE_SLOT
    case Select(found, others) => |found| == NUM_SLOTS && found[SOFTIRQ_SLOT] == NULL && idle in others
  }

  predicate CpuOk(c: Cpu) { Ok(c.soft) && |c.slots| == NUM_SLOTS }

  /** The first slot holds the kernel thread, the last one the idle thread. */
  predicate CpuInv(c: Cpu, kernel: Ptr, idle: Ptr) {
    && CpuOk(c) && Inv(c.soft)
    && c.slots[SOFTIRQ_SLOT] == kernel != NULL && c.slots[IDLE_SLOT] == idle != NULL && idle != kernel
  }

  function CpuApply(c: Cpu, kernel: Ptr, idle: Ptr, step: CpuStep): Cpu
    requires CpuOk(c) && CpuEnabled(c, idle, step)
  {
    match step
    case Soft(st) => c.(soft := Apply(c.soft, st))
    case Dispatch(slot, thread) => c.(slots := c.slots[slot := thread])
    case Select(found, others) => c.(slots := SelectFrom(c.slots, found, RunnableSet(c.soft, kernel, others), 0).1)
  }

  lemma CpuStepInv(c: Cpu, kernel: Ptr, idle: Ptr, step: CpuStep)
    requires CpuInv(c, kernel, idle) && CpuEnabled(c, idle, step)
    ensures CpuInv(CpuApply(c, kernel, idle, step), kernel, idle)
  {
    match step
    case Soft(st) => StepInv(c.soft, st);
    case Dispatch(_, _) =>
    case Select(found, others) =>
      SelectKeepsKernel(c.slots, found, RunnableSet(c.soft, kernel, others), kernel);
      SelectKeepsIdle(c.slots, found, RunnableSet(c.soft, kernel, others), idle);
  }

  predicate IsCpuRun(kernel: Ptr, idle: Ptr, cs: seq<Cpu>, steps: seq<CpuStep>) {
    && |cs| == |steps| + 1 && CpuInv(cs[0], kernel, idle)
    && forall k {:trigger steps[k]} :: 0 <= k < |steps| ==>
         CpuOk(cs[k]) && CpuEnabled(cs[k], idle, steps[k]) && cs[k + 1] == CpuApply(cs[k], kernel, idle, steps[k])
  }

  lemma {:induction false} CpuRunInv(kernel: Ptr, idle: Ptr, cs: seq<Cpu>, steps: seq<CpuStep>, k: nat)
    requires IsCpuRun(kernel, idle, cs, steps) && k <= |steps|
    ensures CpuInv(cs[k], kernel, idle)
  {
    if k > 0 {
      CpuRunInv(kernel, idle, cs, steps, k - 1);
      assert CpuEnabled(cs[k - 1], idle, steps[k - 1]);
      CpuStepInv(cs[k - 1], kernel, idle, steps[k - 1]);
    }
  }

  /** In every state of every run of raises, kernel steps, dispatches and
      selections: while a softirq is pending and no raise is between its two writes,
      schedule_select returns the kernel thread. */
  lemma PendingMeansKernelRuns(kernel: Ptr, idle: Ptr, cs: seq<Cpu>, steps: seq<CpuStep>, k: nat,
                               found: seq<Ptr>, others: set<Ptr>)
    requires IsCpuRun(kernel, idle, cs, steps) && k <= |steps| && |found| == NUM_SLOTS && found[SOFTIRQ_SLOT] == NULL
    requires cs[k].soft.raising == 0 && Pending(cs[k].soft.flags, |cs[k].soft.flags|)
    ensures |cs[k].slots| == NUM_SLOTS
    ensures SelectFrom(cs[k].slots, found, RunnableSet(cs[k].soft, kernel, others), 0) == (kernel, cs[k].slots)
  {
    CpuRunInv(kernel, idle, cs, steps, k);
    SelectKeepsKernel(cs[k].slots, found, RunnableSet(cs[k].soft, kernel, others), kernel);
  }

  /** In every state of every such run schedule_select finds a thread: the panic at
      its end is not reached. */
  lemma SelectNeverPanics(kernel: Ptr, idle: Ptr, cs: seq<Cpu>, steps: seq<CpuStep>, k: nat,
                          found: seq<Ptr>, others: set<Ptr>)
    requires IsCpuRun(kernel, idle, cs, steps) && k <= |steps| && CpuEnabled(cs[k], idle, Select(found, others))
    ensures |cs[k].slots| == NUM_SLOTS
    ensures SelectFrom(cs[k].slots, found, RunnableSet(cs[k].soft, kernel, others), 0).0 != NULL
  {
    CpuRunInv(kernel, idle, cs, steps, k);
    SelectKeepsIdle(cs[k].slots, found, RunnableSet(cs[k].soft, kernel, others), idle);
  }

  // ----- Which raises are served -----

  /** Handler i is running, or has returned and its flag is about to be cleared. */
  predicate InWindow(s: State, i: nat) { s.pc == Handle(i) || s.pc == Clear(i) }

  /** This step starts handler i. */
  predicate Starts(s: State, step: Step, i: nat) {
    step.Kernel? && s.pc == Scan(i) && i < |s.flags| && i < |s.handled| && s.flags[i] && s.handled[i]
  }

  /** A flag that is set outside the window stays set, outside the window, unless
      the handler starts. */
  lemma FlagKept(s: State, step: Step, i: nat)
    requires Inv(s) && Enabled(s, step) && i < |s.flags| && s.flags[i] && !InWindow(s, i) && !Starts(s, step, i)
    ensures var s2 := Apply(s, step); |s2.flags| == |s.flags| && s2.flags[i] && !InWindow(s2, i)
  {
  }

  /** A raise made outside the window is pending until its handler starts. */
  lemma {:induction false} RaiseServed(ss: seq<State>, steps: seq<Step>, a: nat, b: nat, i: nat)
    requires IsRun(ss, steps) && a <= b <= |steps|
    requires i < |ss[a].flags| && ss[a].flags[i] && !InWindow(ss[a], i)
    requires forall k {:trigger steps[k]} :: a <= k < b ==> !Starts(ss[k], steps[k], i)
    ensures i < |ss[b].flags| && ss[b].flags[i] && !InWindow(ss[b], i)
  {
    if a < b {
      RaiseServed(ss, steps, a, b - 1, i);
      RunInv(ss, steps, b - 1);
      assert !Starts(ss[b - 1], steps[b - 1], i);
      FlagKept(ss[b - 1], steps[b - 1], i);
    }
  }

  /** This step clears flag i. */
  predicate Clears(s: State, step: Step, i: nat) { step.Kernel? && s.pc == Clear(i) }

  /** A state in the window stays in it until the clear. */
  lemma {:induction false} WindowKept(ss: seq<State>, steps: seq<Step>, a: nat, b: nat, i: nat)
    requires IsRun(ss, steps) && a <= b <= |steps| && InWindow(ss[a], i)
    requires forall k {:trigger steps[k]} :: a <= k < b ==> !Clears(ss[k], steps[k], i)
    ensures InWindow(ss[b], i)
  {
    if a < b {
      WindowKept(ss, steps, a, b - 1, i);
      var step := steps[b - 1];
      assert !Clears(ss[b - 1], step, i) && ss[b] == Apply(ss[b - 1], step);
    }
  }

  /** In every run, the next thing that happens to a raise of i is the start of its
      handler exactly when the raise was made outside the window. A raise made in
      the window is cleared first, and lost. */
  lemma RaiseLostExactly(ss: seq<State>, steps: seq<Step>, a: nat, b: nat, i: nat)
    requires IsRun(ss, steps) && a < b < |steps| && steps[a] == RaiseFlag(i)
    requires Starts(ss[b], steps[b], i) || Clears(ss[b], steps[b], i)
    requires forall k {:trigger steps[k]} :: a < k < b ==> !Starts(ss[k], steps[k], i) && !Clears(ss[k], steps[k], i)
    ensures Starts(ss[b], steps[b], i) <==> !InWindow(ss[a], i)
    ensures InWindow(ss[a], i) ==> i < |ss[b + 1].flags| && !ss[b + 1].flags[i]
  {
    RunInv(ss, steps, a);
    RunInv(ss, steps, b);
    assert ss[a + 1] == Apply(ss[a], steps[a]) && ss[b + 1] == Apply(ss[b], steps[b]);
    if InWindow(ss[a], i) {
      WindowKept(ss, steps, a + 1, b, i);
    } else {
      RaiseServed(ss, steps, a + 1, b, i);
    }
  }

  /** A raise made while the handler runs, or after it returned, is lost when
      nothing else happens before the clear. */
  lemma LostInWindow(s: State, i: nat)
    requires Ok(s) && s.raising == 0 && i < |s.flags| && InWindow(s, i)
    ensures var raised := Apply(Apply(s, RaiseFlag(i)), RaiseState);
            Ok(raised) && var next := Apply(raised, Kernel);
            if s.pc == Clear(i) then !next.flags[i] else Ok(next) && !Apply(next, Kernel).flags[i]
  {
  }

  /** A softirq without a handler is pending and the loop has not decided to stop. */
  predicate Spinning(s: State, i: nat) {
    && i < |s.flags| == |s.handled| && s.flags[i] && !s.handled[i] && !InWindow(s, i)
    && s.pc != Yield && (s.pc.Enable? || s.pc.Branch? ==> s.pc.any)
  }

  lemma StepSpins(s: State, step: Step, i: nat)
    requires Inv(s) && Enabled(s, step) && Spinning(s, i)
    ensures Spinning(Apply(s, step), i)
  {
    if s.pc.SetState? {
      assert Pending(s.flags, |s.flags|);
    }
  }

  /** Then softirq_execute never returns. */
  lemma {:induction false} UnhandledSpins(ss: seq<State>, steps: seq<Step>, a: nat, b: nat, i: nat)
    requires IsRun(ss, steps) && a <= b <= |steps| && Spinning(ss[a], i)
    ensures Spinning(ss[b], i) && ss[b].pc != Yield
  {
    if a < b {
      UnhandledSpins(ss, steps, a, b - 1, i);
      RunInv(ss, steps, b - 1);
      StepSpins(ss[b - 1], steps[b - 1], i);
    }
  }

  // ----- softirq_execute without interrupts -----

  class Unit {
    const flags: array<bool>
    const handled: array<bool>
    var kernelRunnable: bool

    constructor (n: nat)
      ensures fresh(flags) && fresh(handled) && flags.Length == handled.Length == n && flags != handled
    {
      flags := new bool[n](_ => false);
      handled := new bool[n](_ => false);
      kernelRunnable := true;
    }

    /** One pass over the handlers. */
    method Pass() returns (executed: bool)
      requires handled.Length == flags.Length && flags != handled
      modifies flags
      ensures forall i :: 0 <= i < flags.Length ==> flags[i] == (old(flags[i]) && !handled[i])
      ensures executed <==> exists i :: 0 <= i < flags.Length && old(flags[i]) && handled[i]
    {
      executed := false;
      for i := 0 to flags.Length
        invariant forall k :: 0 <= k < i ==> flags[k] == (old(flags[k]) && !handled[k])
        invariant forall k :: i <= k < flags.Length ==> flags[k] == old(flags[k])
        invariant executed <==> exists k :: 0 <= k < i && old(flags[k]) && handled[k]
      {
        if flags[i] && handled[i] {
          executed := true;
          flags[i] := false;
        }
      }
    }

    /** The OR of the flags. */
    method AnyFlag() returns (any: bool)
      ensures any <==> Pending(flags[..], flags.Length)
    {
      any := false;
      for i := 0 to flags.Length
        invariant any <==> Pending(flags[..], i)
      {
        PendingStep(flags[..], i);
        any := any || flags[i];
      }
    }

    /** softirq_execute: all flags are served and the kernel thread goes to sleep.
        A pending softirq without a handler would be retried for ever. */
    method Execute() returns (executed: bool)
      requires handled.Length == flags.Length && flags != handled
      requires forall i :: 0 <= i < flags.Length && flags[i] ==> handled[i]
      modifies this`kernelRunnable, flags
      ensures forall i :: 0 <= i < flags.Length ==> !flags[i]
      ensures !kernelRunnable && (executed <==> old(Pending(flags[..], flags.Length)))
    {
      ghost var was := flags[..];
      executed := false;
      var any := true;
      while any
        invariant forall i :: 0 <= i < flags.Length && flags[i] ==> handled[i]
        invariant any ==> flags[..] == was && !executed
        invariant !any ==> !kernelRunnable && !Pending(flags[..], flags.Length) && (executed <==> Pending(was, |was|))
        decreases any
      {
        var some := Pass();
        executed := executed || some;
        any := AnyFlag();
        kernelRunnable := any;
        assert some <==> Pending(was, |was|);
      }
      assert forall i :: 0 <= i < flags.Length ==> flags[..][i] == flags[i];
    }
  }
}
