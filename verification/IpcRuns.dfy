/** What every run of the message machine keeps (kernel/ipc.c). */
module IpcRuns {
  import opened ThreadTree
  import opened Ipc

  // ----- One rendezvous -----

  lemma CopiedExact(to: Thread, from: Thread, n: nat, i: nat)
    requires |to.ctx.regs| == REGS && |to.utcb.mr| == MR_COUNT - REGS
    requires |from.ctx.regs| == REGS && |from.utcb.mr| == MR_COUNT - REGS && n <= MR_COUNT && i < MR_COUNT
    ensures Mr(Copied(to, from, n), i) == if i < n then Mr(from, i) else Mr(to, i)
  {
  }

  /** Nothing but the threads, slots and mappings of s changed, and all is well-formed. */
  predicate Keeps(s: System, s2: System) {
    && Ok(s2) && s2.thr.Keys == s.thr.Keys && s2.caller == s.caller
    && s2.pending == s.pending && s2.timers == s.timers && s2.kip == s.kip
  }

  lemma SetKeeps(s: System, x: nat, t: Thread)
    requires Ok(s) && x in s.thr && ThreadOk(x, t)
    ensures Keeps(s, s.(thr := s.thr[x := t]))
  {
  }

  lemma OverflowKeeps(s: System, f: nat, t: nat)
    requires Ok(s) && f in s.thr && t in s.thr
    ensures Keeps(s, Overflow(s, f, t))
  {
    hide TidOf;
    assert ThreadOk(f, s.thr[f]) && ThreadOk(t, s.thr[t]);
  }

  lemma TransferKeeps(s: System, f: nat, t: nat)
    requires Ok(s) && f in s.thr && t in s.thr && Length(Mr(s.thr[f], 0)) <= MR_COUNT
    ensures Keeps(s, Transfer(s, f, t))
  {
    hide TidOf, Requests, TypedWords;
    assert ThreadOk(f, s.thr[f]) && ThreadOk(t, s.thr[t]);
    SetKeeps(s, t, Copied(s.thr[t], s.thr[f], Length(Mr(s.thr[f], 0))));
  }

  lemma CompleteKeeps(s: System, f: nat, t: nat)
    requires Ok(s) && f in s.thr && t in s.thr
    ensures Keeps(s, Complete(s, f, t))
  {
    hide TidOf;
    assert ThreadOk(f, s.thr[f]) && ThreadOk(t, s.thr[t]);
  }

  /** Threads, their numbers and their register files stay well-formed. */
  lemma DoIpcOk(s: System, f: nat, t: nat)
    requires Ok(s) && f in s.thr && t in s.thr
    ensures Keeps(s, DoIpc(s, f, t))
  {
    hide TidOf, Mr, Length, Transfer, Complete, Overflow;
    if Length(Mr(s.thr[f], 0)) > MR_COUNT {
      OverflowKeeps(s, f, t);
    } else {
      TransferKeeps(s, f, t);
      var s1 := Transfer(s, f, t);
      assert ThreadOk(s.caller, s1.thr[s.caller]);
      SetKeeps(s1, s.caller, s1.thr[s.caller].(state := Runnable));
      CompleteKeeps(s1, f, t);
    }
  }

  /** No message register of any thread differs. */
  predicate SameMrs(s: System, s2: System) {
    && s2.thr.Keys == s.thr.Keys
    && forall x {:trigger s2.thr[x]} :: x in s.thr ==>
         s2.thr[x].ctx.regs == s.thr[x].ctx.regs && s2.thr[x].utcb.mr == s.thr[x].utcb.mr
  }

  /** What follows the copying touches no message register. */
  lemma AfterTransfer(s: System, f: nat, t: nat)
    requires Ok(s) && f in s.thr && t in s.thr
    ensures var fits := Length(Mr(s.thr[f], 0)) <= MR_COUNT;
            SameMrs(if fits then Transfer(s, f, t) else s, DoIpc(s, f, t))
  {
    hide Length, Copied, Requests, TypedWords, Mr;
  }

  /** A message that fits is copied exactly, MR0 to MR(untyped + typed), into the
      receiver, and no other message register of any thread changes. A message
      that does not fit changes none. */
  lemma DoIpcCopies(s: System, f: nat, t: nat, x: nat, i: nat)
    requires Ok(s) && f in s.thr && t in s.thr && x in s.thr && i < MR_COUNT
    ensures Ok(DoIpc(s, f, t)) && x in DoIpc(s, f, t).thr
    ensures var n := Length(Mr(s.thr[f], 0));
            Mr(DoIpc(s, f, t).thr[x], i) ==
            if x == t && i < n <= MR_COUNT then Mr(s.thr[f], i) else Mr(s.thr[x], i)
  {
    DoIpcOk(s, f, t);
    AfterTransfer(s, f, t);
    hide TidOf, Length, Requests, TypedWords, DoIpc, Copied;
    assert ThreadOk(x, s.thr[x]) && ThreadOk(f, s.thr[f]) && ThreadOk(t, s.thr[t]);
    var n := Length(Mr(s.thr[f], 0));
    if n <= MR_COUNT {
      CopiedExact(s.thr[t], s.thr[f], n, i);
    }
  }

  /** An overflow leaves every thread as it was, but for the two error codes. */
  lemma DoIpcOverflow(s: System, f: nat, t: nat, x: nat)
    requires Ok(s) && f in s.thr && t in s.thr && f != t && x in s.thr && Length(Mr(s.thr[f], 0)) > MR_COUNT
    ensures var s2 := DoIpc(s, f, t);
            s2 == s.(thr := s2.thr) && s2.thr[f].utcb.error == OVERFLOW_SEND && s2.thr[t].utcb.error == OVERFLOW_RECV
            && s2.thr[x] == s.thr[x].(utcb := s.thr[x].utcb.(error := s2.thr[x].utcb.error))
            && (x != f && x != t ==> s2.thr[x] == s.thr[x])
  {
  }

  /** The two sides of a completed rendezvous; everyone else is untouched. */
  lemma DoIpcCompletes(s: System, f: nat, t: nat)
    requires Ok(s) && f in s.thr && t in s.thr && f != t
    requires Length(Mr(s.thr[f], 0)) <= MR_COUNT && s.thr[f].ctx.sp != 0 && s.thr[t].ctx.sp != 0
    ensures var s2 := DoIpc(s, f, t); var g := s.thr[f].globalid; var answer := s.thr[f].ctx.r1;
            && s2.thr[t].state == Runnable && s2.thr[t].ipcFrom == NIL
            && s2.thr[t].utcb.sender == g && s2.thr[t].ctx.r0 == g
            && s2.thr[f].state == (if answer == NIL then Runnable else RecvBlocked)
            && (answer != NIL ==> s2.thr[f].ipcFrom == answer)
            && s2.normalSlot == f && s2.ipcSlot == t
            && forall x {:trigger s2.thr[x]} :: x in s.thr && x != f && x != t ==> x in s2.thr && s2.thr[x] == s.thr[x]
  {
  }

  // ----- The machine -----

  /** A run: user code, system calls, the periodic sweep and sleep timers. `order`
      is the thread map; the sweep starts behind its first entry. */
  datatype Step =
    | User(x: nat, t: Thread) | SvcStep(x: nat) | SysIpcStep(armed: bool) | DeliverStep | TimeoutStep(x: nat)

  function Sweep(s: System, xs: seq<nat>): (r: System)
    requires Ok(s) && AllThreads(s, xs)
    ensures Keeps(s, r)
  {
    if xs == [] then s
    else
      var s1 := Sweep(s, xs[..|xs| - 1]);
      DeliverOneOk(s1, xs[|xs| - 1]);
      DeliverOne(s1, xs[|xs| - 1])
  }

  lemma DeliverOneOk(s: System, x: nat)
    requires Ok(s) && x in s.thr
    ensures Keeps(s, DeliverOne(s, x))
  {
    hide DoIpc, TidOf;
    var t := s.thr[x];
    if DeliverOne(s, x) != s {
      if t.state == RecvBlocked {
        DoIpcOk(s, TidOf(t.ipcFrom), x);
      } else {
        DoIpcOk(s, x, TidOf(t.utcb.receiver));
      }
    }
  }

  /** What user code can do to the fields of a thread: its own registers while it
      runs, and memory (its stack frame and UTCB) at any time. */
  predicate UserCanMake(t: Thread, t2: Thread) {
    && t2 == t.(ctx := t2.ctx, utcb := t2.utcb) && t2.utcb.addr == t.utcb.addr
    && |t2.ctx.regs| == |t.ctx.regs| && |t2.utcb.mr| == |t.utcb.mr|
    && (t2.ctx.regs == t.ctx.regs || t.state == Runnable)
    && (t2.ctx.sp == t.ctx.sp || (t.state == Runnable && t2.ctx.sp != 0))
  }

  /** While a call is pending the kernel thread is runnable and is picked before
      any other thread, so no second call can come in. */
  predicate Enabled(s: System, order: seq<nat>, step: Step) {
    match step
    case User(x, t) => x in s.thr && UserCanMake(s.thr[x], t)
    case SvcStep(x) => x in s.thr && s.thr[x].state == Runnable && !s.pending
    case SysIpcStep(_) => s.pending
    case DeliverStep => AllThreads(s, order)
    case TimeoutStep(x) => x in s.thr && s.timers[x] > 0
  }

  function Apply(s: System, order: seq<nat>, step: Step): System
    requires Ok(s) && Enabled(s, order, step)
  {
    match step
    case User(x, t) => s.(thr := s.thr[x := t])
    case SvcStep(x) => Svc(s, x)
    case SysIpcStep(armed) => SysIpc(s, armed)
    case DeliverStep => Sweep(s, if order == [] then [] else order[1..])
    case TimeoutStep(x) => Timeout(s, x)
  }

  // ----- Invariants of one thread -----

  /** A thread that waits for a message waits for someone. */
  predicate ThreadInv(t: Thread) { t.state == RecvBlocked ==> t.ipcFrom != NIL }

  /** A thread that has been started has a stack. */
  predicate ThreadLive(t: Thread) { t.state != Inactive ==> t.ctx.sp != 0 }

  predicate AllInv(s: System) {
    forall x {:trigger s.thr[x]} :: x in s.thr ==> ThreadInv(s.thr[x])
  }

  /** Started threads, and threads with an armed sleep timer, have a stack. */
  predicate Live(s: System) {
    forall x {:trigger s.thr[x]} :: x in s.thr ==> ThreadLive(s.thr[x]) && (s.timers[x] > 0 ==> s.thr[x].ctx.sp != 0)
  }

  /** The thread whose call is pending is blocked on it, or was made runnable by a timer. */
  predicate CallerInv(s: System)
    requires Ok(s)
  {
    s.pending ==> s.thr[s.caller].state == SvcBlocked || s.thr[s.caller].state == Runnable
  }

  predicate Inv(s: System) { Ok(s) && AllInv(s) && CallerInv(s) }

  // ----- States after a rendezvous -----

  predicate Fits(s: System, f: nat)
    requires Ok(s) && f in s.thr
  {
    Length(Mr(s.thr[f], 0)) <= MR_COUNT
  }

  /** One side has no stack yet. */
  predicate NoStack(s: System, f: nat, t: nat)
    requires f in s.thr && t in s.thr
  {
    s.thr[t].ctx.sp == 0 || s.thr[f].ctx.sp == 0
  }

  /** The state and the awaited sender of thread x after do_ipc. */
  function StateAfter(s: System, f: nat, t: nat, x: nat): (State, nat)
    requires Ok(s) && f in s.thr && t in s.thr && x in s.thr
  {
    var same := (s.thr[x].state, s.thr[x].ipcFrom);
    if !Fits(s, f) then same
    else if NoStack(s, f, t) then (if x == s.caller then (Runnable, same.1) else same)
    else if x == f && s.thr[f].ctx.r1 != NIL then (RecvBlocked, s.thr[f].ctx.r1)
    else if x == t then (Runnable, NIL)
    else if x == f then (Runnable, same.1)
    else same
  }

  lemma DoIpcStates(s: System, f: nat, t: nat, x: nat)
    requires Ok(s) && f in s.thr && t in s.thr && x in s.thr
    ensures var s2 := DoIpc(s, f, t);
            && x in s2.thr && s2.thr[x].ctx.sp == s.thr[x].ctx.sp
            && (s2.thr[x].state, s2.thr[x].ipcFrom) == StateAfter(s, f, t, x)
  {
    hide Length, Copied, Requests, TypedWords, Mr;
  }

  lemma DoIpcInv(s: System, f: nat, t: nat)
    requires Ok(s) && AllInv(s) && f in s.thr && t in s.thr
    ensures AllInv(DoIpc(s, f, t))
  {
    hide DoIpc, Length, Mr, Fits;
    var s2 := DoIpc(s, f, t);
    DoIpcOk(s, f, t);
    forall x {:trigger s2.thr[x]} | x in s2.thr ensures ThreadInv(s2.thr[x]) {
      DoIpcStates(s, f, t, x);
      assert ThreadInv(s.thr[x]);
    }
  }

  /** Between two started threads, a rendezvous leaves every inactive thread alone. */
  lemma DoIpcBetweenStarted(s: System, f: nat, t: nat)
    requires Ok(s) && f in s.thr && t in s.thr && s.thr[f].state != Inactive && s.thr[t].state != Inactive
    requires ThreadLive(s.thr[f]) && ThreadLive(s.thr[t])
    ensures SameInactive(s, DoIpc(s, f, t))
  {
    hide DoIpc, Length, Mr, Fits;
    var s2 := DoIpc(s, f, t);
    DoIpcOk(s, f, t);
    forall x {:trigger s2.thr[x]} | x in s.thr
      ensures s2.thr[x].ctx.sp == s.thr[x].ctx.sp && (s2.thr[x].state == Inactive <==> s.thr[x].state == Inactive)
    {
      DoIpcStates(s, f, t, x);
    }
  }

  /** The same threads are inactive, and no stack pointer changed. */
  predicate SameInactive(s: System, s2: System) {
    && s2.thr.Keys == s.thr.Keys
    && forall x {:trigger s2.thr[x]} :: x in s.thr ==>
         s2.thr[x].ctx.sp == s.thr[x].ctx.sp && (s2.thr[x].state == Inactive <==> s.thr[x].state == Inactive)
  }

  lemma SameInactiveLive(s: System, s2: System)
    requires Live(s) && SameInactive(s, s2) && s2.timers == s.timers
    ensures Live(s2)
  {
    forall x {:trigger s2.thr[x]} | x in s2.thr
      ensures ThreadLive(s2.thr[x]) && (s2.timers[x] > 0 ==> s2.thr[x].ctx.sp != 0)
    {
      assert ThreadLive(s.thr[x]);
    }
  }

  // ----- The sweep -----

  lemma DeliverOneInv(s: System, x: nat)
    requires Ok(s) && AllInv(s) && x in s.thr
    ensures AllInv(DeliverOne(s, x))
    ensures Live(s) ==> SameInactive(s, DeliverOne(s, x))
  {
    hide DoIpc, TidOf;
    var t := s.thr[x];
    if t.state == RecvBlocked && Waits(s, TidOf(t.ipcFrom), SendBlocked) {
      DoIpcInv(s, TidOf(t.ipcFrom), x);
      if Live(s) {
        DoIpcBetweenStarted(s, TidOf(t.ipcFrom), x);
      }
    } else if t.state == SendBlocked && Waits(s, TidOf(t.utcb.receiver), RecvBlocked) {
      DoIpcInv(s, x, TidOf(t.utcb.receiver));
      if Live(s) {
        DoIpcBetweenStarted(s, x, TidOf(t.utcb.receiver));
      }
    }
  }

  lemma {:induction false} SweepInv(s: System, xs: seq<nat>)
    requires Ok(s) && AllInv(s) && AllThreads(s, xs)
    ensures AllInv(Sweep(s, xs))
    ensures Live(s) ==> SameInactive(s, Sweep(s, xs))
  {
    if xs != [] {
      var s1 := Sweep(s, xs[..|xs| - 1]);
      SweepInv(s, xs[..|xs| - 1]);
      if Live(s) {
        SameInactiveLive(s, s1);
      }
      DeliverOneInv(s1, xs[|xs| - 1]);
    }
  }

  /** The pending caller is not among the blocked threads, so the sweep can only
      make it runnable. */
  predicate CallerBusy(s: System)
    requires s.caller in s.thr
  {
    s.thr[s.caller].state == SvcBlocked || s.thr[s.caller].state == Runnable
  }

  lemma DeliverOneCaller(s: System, x: nat)
    requires Ok(s) && x in s.thr && CallerBusy(s)
    ensures Keeps(s, DeliverOne(s, x)) && CallerBusy(DeliverOne(s, x))
  {
    DeliverOneOk(s, x);
    hide DoIpc, TidOf, Mr, Length, Fits;
    var t := s.thr[x];
    if t.state == RecvBlocked && Waits(s, TidOf(t.ipcFrom), SendBlocked) {
      DoIpcStates(s, TidOf(t.ipcFrom), x, s.caller);
    } else if t.state == SendBlocked && Waits(s, TidOf(t.utcb.receiver), RecvBlocked) {
      DoIpcStates(s, x, TidOf(t.utcb.receiver), s.caller);
    }
  }

  lemma {:induction false} SweepCaller(s: System, xs: seq<nat>)
    requires Ok(s) && AllThreads(s, xs) && CallerBusy(s)
    ensures CallerBusy(Sweep(s, xs))
  {
    if xs != [] {
      SweepCaller(s, xs[..|xs| - 1]);
      DeliverOneCaller(Sweep(s, xs[..|xs| - 1]), xs[|xs| - 1]);
    }
  }

  // ----- System calls -----

  /** The caller starts thread x: it is the pager of the inactive thread, and the
      first message register is the start request. */
  predicate StartMessage(s: System, x: nat)
    requires Ok(s)
  {
    var c := s.thr[s.caller];
    && c.ctx.r0 != NIL && c.ctx.r0 != LOG_THREAD && TidOf(c.ctx.r0) == x
    && PagerOf(s, x) && Mr(c, 0) == 3
  }

  /** A start request whose stack leaves the thread a null stack pointer. */
  predicate NullStart(s: System)
    requires Ok(s)
  {
    var c := s.thr[s.caller];
    StartMessage(s, TidOf(c.ctx.r0)) && Mr(c, 2) % WORD == RESERVED_STACK
  }

  predicate Woken(s: System, s2: System, x: nat) {
    x in s.thr && x in s2.thr && s.thr[x].state == Inactive && s2.thr[x].state == Runnable
  }

  /** What a system call does to one thread x. */
  predicate ThreadStep(s: System, s2: System, x: nat)
    requires Ok(s) && x in s.thr
  {
    && x in s2.thr && ThreadOk(x, s2.thr[x])
    && (ThreadInv(s.thr[x]) ==> ThreadInv(s2.thr[x]))
    && (Woken(s, s2, x) <==> StartMessage(s, x))
    && (Live(s) && !NullStart(s) ==> ThreadLive(s2.thr[x]) && (s.thr[x].ctx.sp != 0 ==> s2.thr[x].ctx.sp != 0))
  }

  lemma SetStateStep(s: System, x: nat, t: Thread)
    requires Ok(s) && CallerBusy(s) && x in s.thr && !StartMessage(s, x)
    requires t == s.thr[s.caller].(state := t.state, ipcFrom := t.ipcFrom, utcb := t.utcb)
    requires |t.utcb.mr| == MR_COUNT - REGS && ThreadInv(t)
    ensures ThreadStep(s, s.(thr := s.thr[s.caller := t]), x)
  {
    hide Mr;
    assert ThreadOk(x, s.thr[x]) && ThreadOk(s.caller, s.thr[s.caller]);
    if Live(s) {
      assert ThreadLive(s.thr[x]) && ThreadLive(s.thr[s.caller]);
    }
  }

  lemma ExchangeStep(s: System, y: nat, x: nat)
    requires Ok(s) && CallerBusy(s) && x in s.thr && y in s.thr && s.thr[y].state != Inactive && !StartMessage(s, x)
    ensures ThreadStep(s, DoIpc(s, s.caller, y), x)
  {
    DoIpcOk(s, s.caller, y);
    DoIpcStates(s, s.caller, y, x);
    hide DoIpc, Mr, Length, Fits;
    assert ThreadOk(x, DoIpc(s, s.caller, y).thr[x]);
    if Live(s) {
      assert ThreadLive(s.thr[x]) && ThreadLive(s.thr[s.caller]) && ThreadLive(s.thr[y]);
    }
  }

  lemma PagerExchangeStep(s: System, y: nat, x: nat)
    requires Ok(s) && CallerBusy(s) && x in s.thr && y in s.thr && s.thr[y].state == Inactive && !StartMessage(s, x)
    ensures DoIpc(s, s.caller, y).thr.Keys == s.thr.Keys
    ensures ThreadStep(s, SetState(DoIpc(s, s.caller, y), y, Inactive), x)
  {
    DoIpcOk(s, s.caller, y);
    DoIpcStates(s, s.caller, y, x);
    hide DoIpc, Mr, Length, Fits;
    assert ThreadOk(x, DoIpc(s, s.caller, y).thr[x]);
    if Live(s) {
      assert ThreadLive(s.thr[x]) && ThreadLive(s.thr[s.caller]);
    }
  }

  lemma StartStep(s: System, y: nat, x: nat)
    requires Ok(s) && CallerBusy(s) && x in s.thr && StartMessage(s, y) && y != s.caller
    ensures var c := s.thr[s.caller];
            var started := Started(s, s.thr[y], Mr(c, 1), Mr(c, 2), Mr(c, 3));
            ThreadStep(s, s.(thr := s.thr[s.caller := c.(state := Runnable)][y := started]), x)
  {
    hide Mr;
    var c := s.thr[s.caller];
    assert ThreadOk(x, s.thr[x]) && ThreadOk(y, s.thr[y]) && ThreadOk(s.caller, c);
    StackAboveZero(Mr(c, 2));
    if Live(s) {
      assert ThreadLive(s.thr[x]) && ThreadLive(c);
    }
  }

  lemma StackAboveZero(sp: nat)
    ensures (sp + WORD - RESERVED_STACK) % WORD == 0 <==> sp % WORD == RESERVED_STACK
  {
  }

  /** The guards under which Send does not start anyone. */
  lemma NoStart(s: System, x: nat)
    requires Ok(s) && CallerBusy(s)
    requires var c := s.thr[s.caller]; var y := TidOf(c.ctx.r0);
             || c.ctx.r0 == NIL || c.ctx.r0 == LOG_THREAD || (y in s.thr && s.thr[y].state == RecvBlocked)
             || c.ctx.r0 == c.globalid || !PagerOf(s, y) || Mr(c, 0) != 3
    ensures !StartMessage(s, x)
  {
    assert ThreadOk(s.caller, s.thr[s.caller]);
  }

  lemma SendStep(s: System, x: nat)
    requires Ok(s) && CallerBusy(s) && s.thr[s.caller].ctx.r0 != NIL && x in s.thr
    ensures ThreadStep(s, Send(s, s.thr[s.caller].ctx.r0), x)
  {
    var c := s.thr[s.caller];
    var to, y := c.ctx.r0, TidOf(c.ctx.r0);
    assert ThreadOk(s.caller, c);
    hide DoIpc, Started, Mr, ThreadStep, StartMessage, TidOf, Ok, PagerOf;
    if to == LOG_THREAD {
      NoStart(s, x);
      SetStateStep(s, x, c.(state := Runnable));
    } else if (y in s.thr && s.thr[y].state == RecvBlocked) || to == c.globalid {
      NoStart(s, x);
      ExchangeStep(s, y, x);
    } else if PagerOf(s, y) {
      PagerSendStep(s, y, x);
    } else {
      NoStart(s, x);
      SetStateStep(s, x, c.(state := SendBlocked, utcb := c.utcb.(receiver := to)));
    }
  }

  lemma PagerSendStep(s: System, y: nat, x: nat)
    requires Ok(s) && CallerBusy(s) && x in s.thr && PagerOf(s, y)
    requires var c := s.thr[s.caller];
             c.ctx.r0 != NIL && c.ctx.r0 != LOG_THREAD && y == TidOf(c.ctx.r0) && c.ctx.r0 != c.globalid
    ensures ThreadStep(s, Send(s, s.thr[s.caller].ctx.r0), x)
  {
    hide DoIpc, Started, Mr, ThreadStep;
    var c := s.thr[s.caller];
    assert ThreadOk(s.caller, c) && y != s.caller;
    if Mr(c, 0) == 3 {
      StartStep(s, y, x);
      assert SetState(s, s.caller, Runnable).thr[y] == s.thr[y];
    } else {
      NoStart(s, x);
      PagerExchangeStep(s, y, x);
    }
  }

  lemma SendKeys(s: System, to: nat)
    requires Ok(s)
    ensures var s2 := Send(s, to);
            s2.thr.Keys == s.thr.Keys && s2.caller == s.caller && s2.pending == s.pending && s2.timers == s.timers
  {
    hide DoIpc, Started, Mr;
    assert ThreadOk(s.caller, s.thr[s.caller]);
    var x := TidOf(to);
    if x in s.thr {
      DoIpcOk(s, s.caller, x);
    }
  }

  lemma SysIpcThread(s: System, armed: bool, x: nat)
    requires Ok(s) && CallerBusy(s) && x in s.thr
    ensures ThreadStep(s, SysIpc(s, armed), x)
  {
    var c := s.thr[s.caller];
    var done := s.(pending := false);
    assert ThreadOk(s.caller, c);
    if c.ctx.r0 != NIL {
      SendStep(done, x);
      hide Send, Mr;
      assert Live(done) == Live(s);
    } else {
      NoStart(s, x);
      hide Send, Mr, StartMessage;
      var t := SysIpc(s, armed).thr[s.caller];
      SetStateStep(s, x, t);
    }
  }

  lemma SysIpcInv(s: System, armed: bool)
    requires Inv(s) && s.pending
    ensures Inv(SysIpc(s, armed)) && SysIpc(s, armed).thr.Keys == s.thr.Keys
    ensures Live(s) && !NullStart(s) ==> Live(SysIpc(s, armed))
  {
    var s2 := SysIpc(s, armed);
    SendKeys(s.(pending := false), s.thr[s.caller].ctx.r0);
    assert s2.thr.Keys == s.thr.Keys && s2.caller == s.caller && !s2.pending;
    assert forall x :: s2.timers[x] > 0 ==> s.timers[x] > 0 || x == s.caller;
    hide SysIpc, StartMessage, NullStart;
    forall x {:trigger s2.thr[x]} | x in s2.thr
      ensures ThreadOk(x, s2.thr[x]) && ThreadInv(s2.thr[x])
      ensures Live(s) && !NullStart(s) ==> ThreadLive(s2.thr[x]) && (s2.timers[x] > 0 ==> s2.thr[x].ctx.sp != 0)
    {
      SysIpcThread(s, armed, x);
      assert ThreadInv(s.thr[x]);
    }
  }

  // ----- Every step -----

  /** Every step keeps the invariant, and gives every started thread a stack
      unless it is a start request with a null stack. */
  lemma ApplyInv(s: System, order: seq<nat>, step: Step)
    requires Inv(s) && Enabled(s, order, step)
    ensures Inv(Apply(s, order, step)) && Apply(s, order, step).thr.Keys == s.thr.Keys
    ensures Live(s) && !(step.SysIpcStep? && NullStart(s)) ==> Live(Apply(s, order, step))
  {
    hide SysIpc, Sweep, NullStart, Live, AllInv;
    match step
    case User(x, t) =>
      UserInv(s, x, t);
    case SvcStep(x) =>
      SvcInv(s, x);
    case SysIpcStep(armed) =>
      SysIpcInv(s, armed);
    case DeliverStep =>
      DeliverInv(s, if order == [] then [] else order[1..]);
    case TimeoutStep(x) =>
      TimeoutInv(s, x);
  }

  lemma UserInv(s: System, x: nat, t: Thread)
    requires Inv(s) && x in s.thr && UserCanMake(s.thr[x], t)
    ensures Inv(s.(thr := s.thr[x := t])) && (Live(s) ==> Live(s.(thr := s.thr[x := t])))
  {
    assert ThreadOk(x, s.thr[x]);
    OneThreadInv(s, s.(thr := s.thr[x := t]), x);
  }

  lemma SvcInv(s: System, x: nat)
    requires Inv(s) && x in s.thr && s.thr[x].state == Runnable
    ensures Inv(Svc(s, x)) && (Live(s) ==> Live(Svc(s, x)))
  {
    assert ThreadOk(x, s.thr[x]);
    OneThreadInv(s, Svc(s, x), x);
  }

  lemma TimeoutInv(s: System, x: nat)
    requires Inv(s) && x in s.thr && s.timers[x] > 0
    ensures Inv(Timeout(s, x)) && (Live(s) ==> Live(Timeout(s, x)))
  {
    assert ThreadOk(x, s.thr[x]);
    OneThreadInv(s, Timeout(s, x), x);
  }

  /** A step that changes thread x only, as user code, svc and timers do. */
  lemma OneThreadInv(s: System, s2: System, x: nat)
    requires Inv(s) && x in s.thr && s2.thr.Keys == s.thr.Keys && s2.thr == s.thr[x := s2.thr[x]]
    requires ThreadOk(x, s2.thr[x]) && (s2.thr[x].state == RecvBlocked ==> s.thr[x].state == RecvBlocked)
    requires s2.thr[x].ipcFrom == s.thr[x].ipcFrom && s2.timers <= s.timers
    requires s2.thr[x].state == Inactive ==> s.thr[x].state == Inactive
    requires s2.thr[x].state != Inactive ==> s.thr[x].state != Inactive || s.timers[x] > 0
    requires s2.thr[x].ctx.sp == s.thr[x].ctx.sp || s2.thr[x].ctx.sp != 0
    requires s2.caller in s2.thr
    requires s2.pending ==> s2.thr[s2.caller].state == SvcBlocked || s2.thr[s2.caller].state == Runnable
    ensures Inv(s2) && (Live(s) ==> Live(s2))
  {
    assert ThreadInv(s.thr[x]);
    if Live(s) {
      forall y {:trigger s2.thr[y]} | y in s2.thr
        ensures ThreadLive(s2.thr[y]) && (s2.timers[y] > 0 ==> s2.thr[y].ctx.sp != 0)
      {
        assert ThreadLive(s.thr[y]);
      }
    }
  }

  lemma DeliverInv(s: System, xs: seq<nat>)
    requires Inv(s) && AllThreads(s, xs)
    ensures Inv(Sweep(s, xs)) && Sweep(s, xs).thr.Keys == s.thr.Keys
    ensures Live(s) ==> Live(Sweep(s, xs))
  {
    SweepInv(s, xs);
    if s.pending {
      SweepCaller(s, xs);
    }
    if Live(s) {
      SameInactiveLive(s, Sweep(s, xs));
    }
  }

  // ----- Runs -----

  predicate IsRun(order: seq<nat>, ss: seq<System>, steps: seq<Step>) {
    && |ss| == |steps| + 1 && Inv(ss[0])
    && forall i {:trigger steps[i]} :: 0 <= i < |steps| ==>
         Ok(ss[i]) && Enabled(ss[i], order, steps[i]) && ss[i + 1] == Apply(ss[i], order, steps[i])
  }

  /** In every state of every run, a thread blocked on receiving names whom it
      waits for. */
  lemma {:induction false} RunInv(order: seq<nat>, ss: seq<System>, steps: seq<Step>, i: nat)
    requires IsRun(order, ss, steps) && i <= |steps|
    ensures Inv(ss[i])
  {
    if i > 0 {
      RunInv(order, ss, steps, i - 1);
      assert steps[i - 1] == steps[i - 1];
      ApplyInv(ss[i - 1], order, steps[i - 1]);
    }
  }

  // ----- Message registers outside a rendezvous -----

  predicate Blocked(t: Thread) { t.state == RecvBlocked || t.state == SendBlocked }

  lemma DeliverOneLeavesAlone(s: System, x: nat, y: nat)
    requires Ok(s) && x in s.thr && y in s.thr && !Blocked(s.thr[y])
    ensures var s2 := DeliverOne(s, x);
            Keeps(s, s2) && !Blocked(s2.thr[y]) && forall i: nat {:trigger Mr(s2.thr[y], i)} ::
              i < MR_COUNT ==> Mr(s2.thr[y], i) == Mr(s.thr[y], i)
  {
    DeliverOneOk(s, x);
    hide DoIpc, TidOf, Mr, Length, Fits;
    var t, s2 := s.thr[x], DeliverOne(s, x);
    if t.state == RecvBlocked && Waits(s, TidOf(t.ipcFrom), SendBlocked) {
      DoIpcStates(s, TidOf(t.ipcFrom), x, y);
      forall i: nat {:trigger Mr(s2.thr[y], i)} | i < MR_COUNT ensures Mr(s2.thr[y], i) == Mr(s.thr[y], i) {
        DoIpcCopies(s, TidOf(t.ipcFrom), x, y, i);
      }
    } else if t.state == SendBlocked && Waits(s, TidOf(t.utcb.receiver), RecvBlocked) {
      DoIpcStates(s, x, TidOf(t.utcb.receiver), y);
      forall i: nat {:trigger Mr(s2.thr[y], i)} | i < MR_COUNT ensures Mr(s2.thr[y], i) == Mr(s.thr[y], i) {
        DoIpcCopies(s, x, TidOf(t.utcb.receiver), y, i);
      }
    }
  }

  /** A sweep changes the message registers of blocked threads only. */
  lemma {:induction false} SweepLeavesAlone(s: System, xs: seq<nat>, y: nat, i: nat)
    requires Ok(s) && AllThreads(s, xs) && y in s.thr && !Blocked(s.thr[y]) && i < MR_COUNT
    ensures !Blocked(Sweep(s, xs).thr[y]) && Mr(Sweep(s, xs).thr[y], i) == Mr(s.thr[y], i)
  {
    if xs != [] {
      SweepLeavesAlone(s, xs[..|xs| - 1], y, i);
      DeliverOneLeavesAlone(Sweep(s, xs[..|xs| - 1]), xs[|xs| - 1], y);
    }
  }

  predicate SameMr(t: Thread, t2: Thread) { t2.ctx.regs == t.ctx.regs && t2.utcb.mr == t.utcb.mr }

  lemma DoIpcSameMr(s: System, f: nat, t: nat, y: nat)
    requires Ok(s) && f in s.thr && t in s.thr && y in s.thr && y != t
    ensures y in DoIpc(s, f, t).thr && SameMr(s.thr[y], DoIpc(s, f, t).thr[y])
  {
    AfterTransfer(s, f, t);
    hide DoIpc, Length, Copied, Mr;
  }

  lemma SendLeavesAlone(s: System, to: nat, y: nat)
    requires Ok(s) && y in s.thr && y != TidOf(to)
    ensures y in Send(s, to).thr && SameMr(s.thr[y], Send(s, to).thr[y])
  {
    var c, x := s.thr[s.caller], TidOf(to);
    assert ThreadOk(s.caller, c);
    hide DoIpc, Started, Mr, TidOf, PagerOf, Ok, Keeps;
    if to == LOG_THREAD {
    } else if (x in s.thr && s.thr[x].state == RecvBlocked) || to == c.globalid {
      DoIpcSameMr(s, s.caller, x, y);
    } else if PagerOf(s, x) {
      PagerSendLeavesAlone(s, to, y);
    }
  }

  lemma PagerSendLeavesAlone(s: System, to: nat, y: nat)
    requires Ok(s) && y in s.thr && y != TidOf(to) && PagerOf(s, TidOf(to))
    requires to != LOG_THREAD && to != s.thr[s.caller].globalid
    ensures y in Send(s, to).thr && SameMr(s.thr[y], Send(s, to).thr[y])
  {
    var x := TidOf(to);
    assert ThreadOk(s.caller, s.thr[s.caller]);
    DoIpcOk(s, s.caller, x);
    DoIpcSameMr(s, s.caller, x, y);
    hide DoIpc, Started, Mr, TidOf, Ok;
  }

  /** A system call changes the message registers of the addressed thread only. */
  lemma SysIpcLeavesAlone(s: System, armed: bool, y: nat)
    requires Ok(s) && y in s.thr && y != TidOf(s.thr[s.caller].ctx.r0)
    ensures y in SysIpc(s, armed).thr && SameMr(s.thr[y], SysIpc(s, armed).thr[y])
  {
    SendLeavesAlone(s.(pending := false), s.thr[s.caller].ctx.r0, y);
    hide Send;
  }
}
