/** A run in which the periodic sweep wakes a sleeping thread (kernel/ipc.c). */
module IpcStray {
  import opened ThreadTree
  import opened Ipc
  import opened IpcRuns
  import opened IpcWakes

  /** The global identifier of a thread number. */
  function Gid(tid: nat): nat { tid * 16384 }

  const ZEROS: seq<nat> := [0, 0, 0, 0, 0, 0, 0, 0]

  function MakeThread(tid: nat, state: State, sp: nat, r0: nat, r1: nat, r2: nat): (t: Thread)
    ensures ThreadOk(tid, t)
  {
    Thread(Gid(tid), state, NIL, 0, 0, Context(sp, r0, r1, r2, 0, ZEROS), Utcb(0, NIL, NIL, 0, 0, ZEROS))
  }

  /** Thread 20, about to start thread 21 on the stack that leaves it a null
      stack pointer. */
  function Pager(state: State): (t: Thread)
    ensures ThreadOk(20, t)
  {
    var t := MakeThread(20, state, 4096, Gid(21), 0, 0);
    t.(ctx := t.ctx.(regs := [3, 0, RESERVED_STACK, 0, 0, 0, 0, 0]))
  }

  /** Thread 21 before its start, and from its start on. */
  function Unstarted(): (t: Thread)
    ensures ThreadOk(21, t)
  {
    var t := MakeThread(21, Inactive, 0, 0, 0, 0);
    t.(utcb := t.utcb.(pager := Gid(20)))
  }

  function Sender(state: State, r0: nat, receiver: nat): (t: Thread)
    ensures ThreadOk(21, t)
  {
    var t := Unstarted().(state := state, stackBase := RESERVED_STACK);
    t.(ctx := t.ctx.(r0 := r0), utcb := t.utcb.(receiver := receiver))
  }

  /** Thread 22 receives from thread 21. */
  function Receiver(state: State, ipcFrom: nat): (t: Thread)
    ensures ThreadOk(22, t)
  {
    MakeThread(22, state, 4096, NIL, Gid(21), 0).(ipcFrom := ipcFrom)
  }

  /** Thread 23 sleeps. */
  function Sleeper(state: State): (t: Thread)
    ensures ThreadOk(23, t)
  {
    MakeThread(23, state, 4096, NIL, NIL, 1)
  }

  function Four(a: Thread, b: Thread, c: Thread, d: Thread, caller: nat, pending: bool, timers: multiset<nat>): System {
    System(map[20 := a, 21 := b, 22 := c, 23 := d], caller, pending, 0, 0, 0, timers, [])
  }

  const ORDER: seq<nat> := [20, 21, 22, 23]

  function S0(): System {
    Four(Pager(Runnable), Unstarted(),
         Receiver(Runnable, NIL), Sleeper(Runnable), 20, false, multiset{})
  }

  function S1(): System {
    Four(Pager(SvcBlocked), Unstarted(),
         Receiver(Runnable, NIL), Sleeper(Runnable), 20, true, multiset{})
  }

  function S2(): System {
    Four(Pager(Runnable), Sender(Runnable, 0, NIL),
         Receiver(Runnable, NIL), Sleeper(Runnable), 20, false, multiset{})
  }

  function S3(): System {
    Four(Pager(Runnable), Sender(Runnable, Gid(22), NIL),
         Receiver(Runnable, NIL), Sleeper(Runnable), 20, false, multiset{})
  }

  function S4(): System {
    Four(Pager(Runnable), Sender(SvcBlocked, Gid(22), NIL),
         Receiver(Runnable, NIL), Sleeper(Runnable), 21, true, multiset{})
  }

  function S5(): System {
    Four(Pager(Runnable), Sender(SendBlocked, Gid(22), Gid(22)),
         Receiver(Runnable, NIL), Sleeper(Runnable), 21, false, multiset{})
  }

  function S6(): System {
    Four(Pager(Runnable), Sender(SendBlocked, Gid(22), Gid(22)),
         Receiver(SvcBlocked, NIL), Sleeper(Runnable), 22, true, multiset{})
  }

  function S7(): System {
    Four(Pager(Runnable), Sender(SendBlocked, Gid(22), Gid(22)),
         Receiver(RecvBlocked, Gid(21)), Sleeper(Runnable), 22, false, multiset{})
  }

  function S8(): System {
    Four(Pager(Runnable), Sender(SendBlocked, Gid(22), Gid(22)),
         Receiver(RecvBlocked, Gid(21)), Sleeper(SvcBlocked), 23, true, multiset{})
  }

  function S9(): System {
    Four(Pager(Runnable), Sender(SendBlocked, Gid(22), Gid(22)),
         Receiver(RecvBlocked, Gid(21)), Sleeper(Inactive), 23, false, multiset{23})
  }

  predicate Next(s: System, step: Step, s2: System) {
    Ok(s) && Enabled(s, ORDER, step) && s2 == Apply(s, ORDER, step)
  }

  lemma Step0()
    ensures Next(S0(), SvcStep(20), S1())
  {
  }

  /** The start message: thread 21 runs, on a null stack pointer. */
  lemma Step1()
    ensures Next(S1(), SysIpcStep(true), S2())
  {
    hide DoIpc, Sweep, Timeout, Svc;
    assert Ok(S1()) && PagerOf(S1(), 21);
  }

  lemma StartIsNull()
    ensures NullStart(S1())
  {
    hide DoIpc, Sweep, Timeout, Svc, SysIpc;
    assert Ok(S1()) && PagerOf(S1(), 21);
  }

  lemma Step2()
    ensures Next(S2(), User(21, Sender(Runnable, Gid(22), NIL)), S3())
  {
  }

  lemma Step3()
    ensures Next(S3(), SvcStep(21), S4())
  {
  }

  /** Nobody waits for thread 21 yet. */
  lemma Step4()
    ensures Next(S4(), SysIpcStep(true), S5())
  {
    hide DoIpc, Sweep, Started, Timeout, Svc;
  }

  lemma Step5()
    ensures Next(S5(), SvcStep(22), S6())
  {
  }

  lemma Step6()
    ensures Next(S6(), SysIpcStep(true), S7())
  {
  }

  lemma Step7()
    ensures Next(S7(), SvcStep(23), S8())
  {
  }

  /** Thread 23 goes to sleep; it is the last caller. */
  lemma Step8()
    ensures Next(S8(), SysIpcStep(true), S9())
  {
  }

  /** The first turn of the sweep finds thread 21, without a stack, and its receiver. */
  lemma SweepMeetsSender()
    ensures Ok(S9()) && AllThreads(S9(), [21, 22, 23]) && SweepMeets(S9(), [21, 22, 23])
  {
    var s := S9();
    assert Ok(s) && Meets(s, 21);
    MeetsFirst(s, 21);
    MeetsLater(s, [21], 22);
    MeetsLater(s, [21, 22], 23);
    assert [21] + [22] == [21, 22] && [21, 22] + [23] == [21, 22, 23];
  }

  lemma MeetsFirst(s: System, x: nat)
    requires Ok(s) && x in s.thr && Meets(s, x)
    ensures SweepMeets(s, [x])
  {
    assert [x][..0] == [] && Sweep(s, []) == s;
  }

  lemma MeetsLater(s: System, xs: seq<nat>, x: nat)
    requires Ok(s) && AllThreads(s, xs) && x in s.thr && SweepMeets(s, xs)
    ensures AllThreads(s, xs + [x]) && SweepMeets(s, xs + [x])
  {
    assert (xs + [x])[..|xs|] == xs;
  }

  function Steps(): seq<Step> {
    [SvcStep(20), SysIpcStep(true), User(21, Sender(Runnable, Gid(22), NIL)), SvcStep(21), SysIpcStep(true),
     SvcStep(22), SysIpcStep(true), SvcStep(23), SysIpcStep(true), DeliverStep]
  }

  function States(last: System): seq<System> {
    [S0(), S1(), S2(), S3(), S4(), S5(), S6(), S7(), S8(), S9(), last]
  }

  lemma StartIsLive()
    ensures Inv(S0()) && Live(S0())
  {
  }

  /** Everyone has a stack at first. Thread 20 starts thread 21 on a null stack,
      21 sends to 22, 22 waits for 21, 23 goes to sleep: the sweep wakes 23, whose
      timer has not fired and whom nobody started. */
  lemma SleeperWokenInRun()
    ensures exists ss: seq<System> ::
              && IsRun(ORDER, ss, Steps()) && Live(ss[0]) && ss[9].thr.Keys == {20, 21, 22, 23}
              && ss[9].thr[23].state == Inactive && Woken(ss[9], ss[10], 23) && !Rightful(ss[9], Steps()[9], 23)
  {
    SweepMeetsSender();
    Step8();
    var s9 := S9();
    assert Swept(ORDER) == [21, 22, 23];
    assert Enabled(s9, ORDER, DeliverStep);
    var ss := States(Apply(s9, ORDER, DeliverStep));
    RunOf(ss[10]);
    NineSleeps();
    RunWakesExact(ORDER, ss, Steps(), 9, 23);
  }

  lemma NineSleeps()
    ensures S9().thr.Keys == {20, 21, 22, 23} && S9().thr[23].state == Inactive && S9().caller == 23
  {
  }

  lemma RunOf(last: System)
    requires Next(S9(), DeliverStep, last)
    ensures IsRun(ORDER, States(last), Steps()) && Live(S0())
  {
    StartIsLive();
    Step0();
    Step1();
    StartIsNull();
    Step2();
    Step3();
    Step4();
    Step5();
    Step6();
    Step7();
    Step8();
    hide Inv, Live, S0, S1, S2, S3, S4, S5, S6, S7, S8, S9, Apply, Enabled, Ok;
    var ss, steps := States(last), Steps();
    forall i {:trigger steps[i]} | 0 <= i < |steps| ensures Next(ss[i], steps[i], ss[i + 1]) {
      assert i == 0 || i == 1 || i == 2 || i == 3 || i == 4 || i == 5 || i == 6 || i == 7 || i == 8 || i == 9;
    }
  }
}
