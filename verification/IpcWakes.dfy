/** Who makes an inactive thread runnable (kernel/ipc.c): exactly, in every step
    and every run. */
module IpcWakes {
  import opened ThreadTree
  import opened Ipc
  import opened IpcRuns

  // ----- The sweep -----

  /** x finds its partner, the message fits, and one of the two has no stack. */
  predicate Meets(s: System, x: nat)
    requires Ok(s) && x in s.thr
  {
    var t := s.thr[x];
    if t.state == RecvBlocked && t.ipcFrom != NIL && t.ipcFrom != ANY && Waits(s, TidOf(t.ipcFrom), SendBlocked) then
      Fits(s, TidOf(t.ipcFrom)) && NoStack(s, TidOf(t.ipcFrom), x)
    else
      && t.state == SendBlocked && t.utcb.receiver != NIL && t.utcb.receiver != ANY
      && Waits(s, TidOf(t.utcb.receiver), RecvBlocked)
      && Fits(s, x) && NoStack(s, x, TidOf(t.utcb.receiver))
  }

  /** One turn of the sweep changes the state of a thread that is not blocked only
      by making the last caller runnable, when it meets a thread without a stack. */
  lemma DeliverOneState(s: System, x: nat, y: nat)
    requires Ok(s) && x in s.thr && y in s.thr && !Blocked(s.thr[y])
    ensures Keeps(s, DeliverOne(s, x))
    ensures DeliverOne(s, x).thr[y].state == if y == s.caller && Meets(s, x) then Runnable else s.thr[y].state
  {
    DeliverOneOk(s, x);
    hide DoIpc, TidOf, Mr, Length, Fits;
    var t := s.thr[x];
    if t.state == RecvBlocked && Waits(s, TidOf(t.ipcFrom), SendBlocked) {
      DoIpcStates(s, TidOf(t.ipcFrom), x, y);
    } else if t.state == SendBlocked && Waits(s, TidOf(t.utcb.receiver), RecvBlocked) {
      DoIpcStates(s, x, TidOf(t.utcb.receiver), y);
    }
  }

  /** Some turn of the sweep meets a thread without a stack. */
  predicate SweepMeets(s: System, xs: seq<nat>)
    requires Ok(s) && AllThreads(s, xs)
  {
    xs != [] &&
    var front, last := xs[..|xs| - 1], xs[|xs| - 1];
    SweepMeets(s, front) || Meets(Sweep(s, front), last)
  }

  /** The last turn of the sweep. */
  lemma SweepLast(s: System, xs: seq<nat>)
    requires Ok(s) && AllThreads(s, xs) && xs != []
    ensures var front, x := xs[..|xs| - 1], xs[|xs| - 1];
            && AllThreads(s, front) && var s1 := Sweep(s, front);
            && Keeps(s, s1) && x in s1.thr && Sweep(s, xs) == DeliverOne(s1, x)
            && (SweepMeets(s, xs) <==> SweepMeets(s, front) || Meets(s1, x))
  {
    hide Meets, DeliverOne;
  }

  /** The whole sweep. */
  lemma {:induction false} SweepState(s: System, xs: seq<nat>, y: nat)
    requires Ok(s) && AllThreads(s, xs) && y in s.thr && !Blocked(s.thr[y])
    ensures Sweep(s, xs).thr[y].state == if y == s.caller && SweepMeets(s, xs) then Runnable else s.thr[y].state
  {
    if xs != [] {
      SweepLast(s, xs);
      hide Meets, DeliverOne, Sweep, SweepMeets;
      SweepState(s, xs[..|xs| - 1], y);
      DeliverOneState(Sweep(s, xs[..|xs| - 1]), xs[|xs| - 1], y);
    }
  }

  // ----- Every step -----

  /** The threads the sweep visits. */
  function Swept(order: seq<nat>): seq<nat> { if order == [] then [] else order[1..] }

  /** What the design allows: the pager's start message, or the thread's own sleep timer. */
  predicate Rightful(s: System, step: Step, x: nat)
    requires Ok(s)
  {
    (step.SysIpcStep? && StartMessage(s, x)) || step == TimeoutStep(x)
  }

  /** The exception: x called last, and the sweep meets a thread without a stack. */
  predicate Stray(s: System, order: seq<nat>, step: Step, x: nat)
    requires Ok(s)
  {
    step == DeliverStep && x == s.caller && AllThreads(s, Swept(order)) && SweepMeets(s, Swept(order))
  }

  /** An inactive thread becomes runnable exactly by its pager's start message, by
      its own sleep timer, or as the last caller in a sweep that meets a thread
      without a stack. */
  lemma WakeExact(s: System, order: seq<nat>, step: Step, x: nat)
    requires Inv(s) && Enabled(s, order, step) && x in s.thr && s.thr[x].state == Inactive
    ensures Woken(s, Apply(s, order, step), x) <==> Rightful(s, step, x) || Stray(s, order, step, x)
  {
    match step
    case SysIpcStep(armed) =>
      SysIpcThread(s, armed, x);
      hide SysIpc, StartMessage, AllInv;
    case DeliverStep =>
      SweepState(s, Swept(order), x);
      hide Sweep, AllInv, SweepMeets;
    case _ =>
      OwnSteps(s, order, step, x);
      hide Apply, Rightful, Stray, AllInv;
  }

  /** User code and svc wake nobody, a timer its own thread. */
  lemma OwnSteps(s: System, order: seq<nat>, step: Step, x: nat)
    requires Ok(s) && Enabled(s, order, step) && x in s.thr && s.thr[x].state == Inactive
    requires step.User? || step.SvcStep? || step.TimeoutStep?
    ensures Woken(s, Apply(s, order, step), x) <==> Rightful(s, step, x) || Stray(s, order, step, x)
  {
    hide SysIpc, Sweep, StartMessage, SweepMeets, Ok;
  }

  /** While every started thread has a stack, there is no exception. */
  lemma LiveIsRightful(s: System, order: seq<nat>, step: Step, x: nat)
    requires Inv(s) && Live(s) && Enabled(s, order, step) && x in s.thr && s.thr[x].state == Inactive
    ensures !Stray(s, order, step, x)
  {
    if step.DeliverStep? {
      SweepInv(s, Swept(order));
      hide Sweep, SweepMeets;
      SweepState(s, Swept(order), x);
    }
  }

  /** A sleep timer belongs to the thread that asked for it. */
  lemma TimerIsOwn(s: System, order: seq<nat>, step: Step, x: nat)
    requires Inv(s) && Enabled(s, order, step) && Apply(s, order, step).timers[x] > s.timers[x]
    ensures step.SysIpcStep? && s.caller == x && s.thr[x].ctx.r0 == NIL && s.thr[x].ctx.r2 != 0
    ensures Apply(s, order, step).thr[x].state == Inactive
  {
    if step.SysIpcStep? && s.thr[s.caller].ctx.r0 != NIL {
      SendKeys(s.(pending := false), s.thr[s.caller].ctx.r0);
    }
    hide Send, Sweep;
  }

  // ----- Every run -----

  /** In every run, whatever stacks its start messages hand out. */
  lemma RunWakesExact(order: seq<nat>, ss: seq<System>, steps: seq<Step>, i: nat, x: nat)
    requires IsRun(order, ss, steps) && i < |steps| && x in ss[i].thr && ss[i].thr[x].state == Inactive
    ensures Ok(ss[i])
    ensures Woken(ss[i], ss[i + 1], x) <==> Rightful(ss[i], steps[i], x) || Stray(ss[i], order, steps[i], x)
  {
    RunInv(order, ss, steps, i);
    WakeExact(ss[i], order, steps[i], x);
  }

  /** No start request of the first n steps hands out a null stack. */
  predicate NoNullStarts(ss: seq<System>, steps: seq<Step>, n: nat)
    requires |ss| == |steps| + 1 && n <= |steps|
  {
    forall i {:trigger steps[i]} :: 0 <= i < n ==> GivesStack(ss[i], steps[i])
  }

  predicate GivesStack(s: System, step: Step) {
    Ok(s) && !(step.SysIpcStep? && NullStart(s))
  }

  lemma {:induction false} RunLive(order: seq<nat>, ss: seq<System>, steps: seq<Step>, i: nat)
    requires IsRun(order, ss, steps) && i <= |steps| && Live(ss[0]) && NoNullStarts(ss, steps, i)
    ensures Inv(ss[i]) && Live(ss[i])
  {
    RunInv(order, ss, steps, i);
    if i > 0 {
      RunLive(order, ss, steps, i - 1);
      assert steps[i - 1] == steps[i - 1];
      ApplyInv(ss[i - 1], order, steps[i - 1]);
    }
  }

  /** Corollary: in a run without such a start message, only the start message and
      the own timer wake a thread. */
  lemma RunWakes(order: seq<nat>, ss: seq<System>, steps: seq<Step>, i: nat, x: nat)
    requires IsRun(order, ss, steps) && i < |steps| && Live(ss[0]) && NoNullStarts(ss, steps, i)
    requires x in ss[i].thr && ss[i].thr[x].state == Inactive
    ensures Ok(ss[i]) && (Woken(ss[i], ss[i + 1], x) <==> Rightful(ss[i], steps[i], x))
  {
    RunLive(order, ss, steps, i);
    RunWakesExact(order, ss, steps, i, x);
    LiveIsRightful(ss[i], order, steps[i], x);
  }
}
