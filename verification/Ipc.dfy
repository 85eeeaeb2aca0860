/** Synchronous messages between threads as a state machine (kernel/ipc.c): what
    each kernel entry does to the threads. */
module Ipc {
  import opened ThreadTree

  const NIL: nat := 0
  const ANY: nat := 0xFFFF_FFFF
  const MR_COUNT: nat := 16
  const REGS: nat := 8
  const RESERVED_STACK: nat := 32
  const LOG_THREAD: nat := 3 * 16384
  const THREAD_ROOT: nat := 2
  const OVERFLOW_SEND: nat := 8
  const OVERFLOW_RECV: nat := 9

  /** The saved context of a thread: stack pointer, the argument registers and
      program counter in the frame on its stack, and r4 to r11. */
  datatype Context = Context(sp: nat, r0: nat, r1: nat, r2: nat, pc: nat, regs: seq<nat>)

  /** The fields of the user-level control block that the kernel reads or writes. */
  datatype Utcb = Utcb(addr: nat, pager: nat, receiver: nat, sender: nat, error: nat, mr: seq<nat>)

  datatype Thread = Thread(globalid: nat, state: State, ipcFrom: nat, stackBase: nat, stackSize: nat,
                           ctx: Context, utcb: Utcb)

  datatype MapRequest = MapRequest(base: nat, size: nat, grant: bool, from: nat, to: nat)

  /** Threads by thread number, the thread whose system call is handled, the two
      scheduler slots that messages fill, the armed sleep timers and the mappings
      asked for. */
  datatype System = System(thr: map<nat, Thread>, caller: nat, pending: bool, kip: nat,
                           normalSlot: nat, ipcSlot: nat, timers: multiset<nat>, maps: seq<MapRequest>)

  predicate ThreadOk(x: nat, t: Thread) {
    TidOf(t.globalid) == x && |t.ctx.regs| == REGS && |t.utcb.mr| == MR_COUNT - REGS
  }

  predicate Ok(s: System) {
    && s.caller in s.thr
    && forall x {:trigger s.thr[x]} :: x in s.thr ==> ThreadOk(x, s.thr[x])
  }

  // ----- Message registers -----

  /** ipc_read_mr: the first eight live in registers, the others in the UTCB. */
  function Mr(t: Thread, i: nat): nat
    requires |t.ctx.regs| == REGS && |t.utcb.mr| == MR_COUNT - REGS && i < MR_COUNT
  {
    if i >= REGS then t.utcb.mr[i - REGS] else t.ctx.regs[i]
  }

  /** ipc_write_mr. */
  function WithMr(t: Thread, i: nat, v: nat): (r: Thread)
    requires |t.ctx.regs| == REGS && |t.utcb.mr| == MR_COUNT - REGS && i < MR_COUNT
    ensures |r.ctx.regs| == REGS && |r.utcb.mr| == MR_COUNT - REGS
    ensures Mr(r, i) == v && forall j :: 0 <= j < MR_COUNT && j != i ==> Mr(r, j) == Mr(t, j)
  {
    if i >= REGS then t.(utcb := t.utcb.(mr := t.utcb.mr[i - REGS := v]))
    else t.(ctx := t.ctx.(regs := t.ctx.regs[i := v]))
  }

  /** All message registers in order. */
  function Mrs(t: Thread): seq<nat> { t.ctx.regs + t.utcb.mr }

  function Untyped(tag: nat): nat { tag % 64 }

  function Typed(tag: nat): nat { tag / 64 % 64 }

  /** The number of message registers a message takes. */
  function Length(tag: nat): nat { Untyped(tag) + 1 + Typed(tag) }

  /** The receiver with the first n message registers of the sender. */
  function Copied(to: Thread, from: Thread, n: nat): (r: Thread)
    requires |to.ctx.regs| == REGS && |to.utcb.mr| == MR_COUNT - REGS
    requires |from.ctx.regs| == REGS && |from.utcb.mr| == MR_COUNT - REGS && n <= MR_COUNT
    ensures |r.ctx.regs| == REGS && |r.utcb.mr| == MR_COUNT - REGS
    ensures r == to.(ctx := to.ctx.(regs := r.ctx.regs), utcb := to.utcb.(mr := r.utcb.mr))
  {
    to.(ctx := to.ctx.(
          regs := seq(REGS, i requires 0 <= i < REGS => if i < n then from.ctx.regs[i] else to.ctx.regs[i])),
        utcb := to.utcb.(mr := seq(MR_COUNT - REGS, i requires 0 <= i < MR_COUNT - REGS =>
                                     if i + REGS < n then from.utcb.mr[i] else to.utcb.mr[i])))
  }

  /** Header bits of a typed item. */
  predicate IsMapItem(word: nat) { word % 16 / 8 == 1 }

  predicate IsGrant(word: nat) { word % 4 / 2 == 1 }

  function PageBits(word: nat): nat { word - word % 64 }

  /** The mappings that the typed words ask for; an item that is not a map or
      grant item ends the reading. */
  function Requests(words: seq<nat>, from: nat, to: nat): seq<MapRequest> {
    if |words| < 2 || !IsMapItem(words[0]) then []
    else
      [MapRequest(PageBits(words[0]), PageBits(words[1]), IsGrant(words[0]), from, to)] +
      Requests(words[2..], from, to)
  }

  function TypedWords(t: Thread): seq<nat>
    requires |t.ctx.regs| == REGS && |t.utcb.mr| == MR_COUNT - REGS && Length(Mr(t, 0)) <= MR_COUNT
  {
    var tag := Mr(t, 0);
    Mrs(t)[Untyped(tag) + 1..Length(tag)]
  }

  // ----- do_ipc -----

  function SetState(s: System, x: nat, st: State): System
    requires x in s.thr
  {
    s.(thr := s.thr[x := s.thr[x].(state := st)])
  }

  /** A message longer than the message registers: both sides get an error code. */
  function Overflow(s: System, f: nat, t: nat): System
    requires f in s.thr && t in s.thr
  {
    var thr1 := s.thr[f := s.thr[f].(utcb := s.thr[f].utcb.(error := OVERFLOW_SEND))];
    s.(thr := thr1[t := thr1[t].(utcb := thr1[t].utcb.(error := OVERFLOW_RECV))])
  }

  function Transfer(s: System, f: nat, t: nat): System
    requires Ok(s) && f in s.thr && t in s.thr && Length(Mr(s.thr[f], 0)) <= MR_COUNT
  {
    s.(thr := s.thr[t := Copied(s.thr[t], s.thr[f], Length(Mr(s.thr[f], 0)))],
       maps := s.maps + Requests(TypedWords(s.thr[f]), f, t))
  }

  /** The receiver runs again; the sender runs on or waits for its answer. */
  function Complete(s: System, f: nat, t: nat): System
    requires f in s.thr && t in s.thr
  {
    var g := s.thr[f].globalid;
    var to := s.thr[t];
    var thr1 := s.thr[t := to.(state := Runnable, ipcFrom := NIL, ctx := to.ctx.(r0 := g),
                               utcb := to.utcb.(sender := g))];
    var answer := thr1[f].ctx.r1;
    var from := if answer == NIL then thr1[f].(state := Runnable)
                else thr1[f].(state := RecvBlocked, ipcFrom := answer);
    s.(thr := thr1[f := from], normalSlot := f, ipcSlot := t)
  }

  function DoIpc(s: System, f: nat, t: nat): System
    requires Ok(s) && f in s.thr && t in s.thr
  {
    if Length(Mr(s.thr[f], 0)) > MR_COUNT then Overflow(s, f, t)
    else
      var s1 := Transfer(s, f, t);
      if s.thr[t].ctx.sp == 0 || s.thr[f].ctx.sp == 0 then SetState(s1, s.caller, Runnable)
      else Complete(s1, f, t)
  }

  // ----- The kernel entries -----

  /** svc_handler: the running thread asks for a system call. */
  function Svc(s: System, x: nat): System
    requires x in s.thr
  {
    SetState(s, x, SvcBlocked).(caller := x, pending := true)
  }

  /** thread_init_ctx and the stack of a thread started by its pager. */
  function Started(s: System, to: Thread, pc: nat, sp: nat, size: nat): Thread {
    var user := TidOf(to.globalid) >= THREAD_ROOT;
    var top := (sp + WORD - RESERVED_STACK) % WORD;
    to.(stackBase := (sp + WORD - size % WORD) % WORD, stackSize := size, state := Runnable,
        ctx := to.ctx.(sp := top, r0 := if user then s.kip else 0, r1 := if user then to.utcb.addr else 0,
                       r2 := 0, pc := pc))
  }

  /** x is inactive and the caller is its pager. */
  predicate PagerOf(s: System, x: nat)
    requires s.caller in s.thr
  {
    x in s.thr && s.thr[x].state == Inactive && TidOf(s.thr[x].utcb.pager) == TidOf(s.thr[s.caller].globalid)
  }

  /** The caller, thread c, sends to the thread with identifier `to`. */
  function Send(s: System, to: nat): System
    requires Ok(s)
  {
    var c, x := s.thr[s.caller], TidOf(to);
    if to == LOG_THREAD then SetState(s, s.caller, Runnable)
    else if (x in s.thr && s.thr[x].state == RecvBlocked) || to == c.globalid then DoIpc(s, s.caller, x)
    else if PagerOf(s, x) then
      if Mr(c, 0) == 3 then
        var s1 := SetState(s, s.caller, Runnable);
        s1.(thr := s1.thr[x := Started(s, s1.thr[x], Mr(c, 1), Mr(c, 2), Mr(c, 3))])
      else
        SetState(DoIpc(s, s.caller, x), x, Inactive)
    else
      s.(thr := s.thr[s.caller := c.(state := SendBlocked, utcb := c.utcb.(receiver := to))])
  }

  /** sys_ipc; `armed` says whether the timer event could be created. */
  function SysIpc(s: System, armed: bool): System
    requires Ok(s)
  {
    var c := s.thr[s.caller];
    var done := s.(pending := false);
    if c.ctx.r0 == NIL && c.ctx.r2 != 0 then
      SetState(done, s.caller, Inactive).(timers := if armed then s.timers + multiset{s.caller} else s.timers)
    else if c.ctx.r0 != NIL then Send(done, c.ctx.r0)
    else if c.ctx.r1 != NIL then
      done.(thr := s.thr[s.caller := c.(state := RecvBlocked, ipcFrom := c.ctx.r1)])
    else SetState(done, s.caller, SendBlocked)
  }

  predicate Waits(s: System, x: nat, st: State) { x in s.thr && s.thr[x].state == st }

  /** One thread of the sweep: a receiver looks for its sender, a sender for its
      receiver. */
  function DeliverOne(s: System, x: nat): System
    requires Ok(s) && x in s.thr
  {
    var t := s.thr[x];
    if t.state == RecvBlocked && t.ipcFrom != NIL && t.ipcFrom != ANY && Waits(s, TidOf(t.ipcFrom), SendBlocked) then
      DoIpc(s, TidOf(t.ipcFrom), x)
    else if t.state == SendBlocked && t.utcb.receiver != NIL && t.utcb.receiver != ANY
            && Waits(s, TidOf(t.utcb.receiver), RecvBlocked) then
      DoIpc(s, x, TidOf(t.utcb.receiver))
    else s
  }

  predicate AllThreads(s: System, xs: seq<nat>) {
    forall i {:trigger xs[i]} :: 0 <= i < |xs| ==> xs[i] in s.thr
  }

  /** ipc_timeout. */
  function Timeout(s: System, x: nat): System
    requires x in s.thr && s.timers[x] > 0
  {
    SetState(s, x, Runnable).(normalSlot := x, timers := s.timers - multiset{x})
  }
}
