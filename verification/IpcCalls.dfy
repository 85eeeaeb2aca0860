/** What a system call and a sweep do for the two sides of a message (kernel/ipc.c),
    from the caller's registers, the thread states and the message. */
module IpcCalls {
  import opened ThreadTree
  import opened Ipc
  import opened IpcRuns
  import opened IpcWakes

  // ----- A message that arrives -----

  /** The number of the last message register, from the two six-bit counts in MR0. */
  function LastMr(tag: nat): nat { tag % 64 + tag / 64 % 64 }

  /** Thread t2 is t with the message of f: MR0 to the last one. */
  predicate HasMessage(t: Thread, t2: Thread, f: Thread)
    requires |t.ctx.regs| == |t2.ctx.regs| == |f.ctx.regs| == REGS
    requires |t.utcb.mr| == |t2.utcb.mr| == |f.utcb.mr| == MR_COUNT - REGS
  {
    forall i: nat {:trigger Mr(t2, i)} :: i < MR_COUNT ==>
      Mr(t2, i) == if i <= LastMr(Mr(f, 0)) then Mr(f, i) else Mr(t, i)
  }

  predicate BothOk(s: System, s2: System) { Ok(s) && Ok(s2) && s2.thr.Keys == s.thr.Keys }

  /** Receiver t has the message of f, runs, and knows who sent it. */
  predicate Arrived(s: System, s2: System, f: nat, t: nat)
    requires BothOk(s, s2) && f in s.thr && t in s.thr
  {
    assert ThreadOk(f, s.thr[f]) && ThreadOk(t, s.thr[t]) && ThreadOk(t, s2.thr[t]);
    var r, g := s2.thr[t], s.thr[f].globalid;
    HasMessage(s.thr[t], r, s.thr[f]) && r.state == Runnable && r.ipcFrom == NIL && r.utcb.sender == g && r.ctx.r0 == g
  }

  /** Sender f runs on, or waits for the thread it named for its answer. */
  predicate SentBy(s: System, s2: System, f: nat)
    requires f in s.thr && f in s2.thr
  {
    var answer := s.thr[f].ctx.r1;
    && SameMr(s.thr[f], s2.thr[f])
    && if answer == NIL then s2.thr[f].state == Runnable
       else s2.thr[f].state == RecvBlocked && s2.thr[f].ipcFrom == answer
  }

  /** No thread but f and t differs. */
  predicate OthersSame(s: System, s2: System, f: nat, t: nat) {
    forall x {:trigger s2.thr[x]} :: x in s.thr && x != f && x != t ==> x in s2.thr && s2.thr[x] == s.thr[x]
  }

  /** Thread f sends a message that fits, and both have stacks. */
  predicate CanSend(s: System, f: nat, t: nat)
    requires Ok(s)
  {
    && f in s.thr && t in s.thr && f != t && s.thr[f].ctx.sp != 0 && s.thr[t].ctx.sp != 0
    && ThreadOk(f, s.thr[f]) && LastMr(Mr(s.thr[f], 0)) < MR_COUNT
  }

  lemma MessageCopied(s: System, f: nat, t: nat)
    requires Ok(s) && f in s.thr && t in s.thr && f != t && ThreadOk(f, s.thr[f]) && LastMr(Mr(s.thr[f], 0)) < MR_COUNT
    ensures var s2 := DoIpc(s, f, t);
            && BothOk(s, s2) && ThreadOk(t, s.thr[t]) && ThreadOk(t, s2.thr[t])
            && HasMessage(s.thr[t], s2.thr[t], s.thr[f]) && SameMr(s.thr[f], s2.thr[f])
  {
    DoIpcOk(s, f, t);
    DoIpcSameMr(s, f, t, f);
    var s2 := DoIpc(s, f, t);
    assert ThreadOk(t, s.thr[t]) && ThreadOk(t, s2.thr[t]);
    assert Length(Mr(s.thr[f], 0)) == LastMr(Mr(s.thr[f], 0)) + 1;
    hide DoIpc, Ok, Mr, Length, LastMr;
    forall i: nat {:trigger Mr(s2.thr[t], i)} | i < MR_COUNT
      ensures Mr(s2.thr[t], i) == if i <= LastMr(Mr(s.thr[f], 0)) then Mr(s.thr[f], i) else Mr(s.thr[t], i)
    {
      DoIpcCopies(s, f, t, t, i);
    }
  }

  /** The typed words of a message: as many as the second count says, behind the
      untyped ones. */
  function TypedMrs(f: Thread): (words: seq<nat>)
    requires |f.ctx.regs| == REGS && |f.utcb.mr| == MR_COUNT - REGS && LastMr(Mr(f, 0)) < MR_COUNT
  {
    var tag := Mr(f, 0);
    seq<nat>(tag / 64 % 64, i requires 0 <= i < tag / 64 % 64 => Mr(f, tag % 64 + 1 + i))
  }

  lemma TypedAreMrs(f: Thread)
    requires |f.ctx.regs| == REGS && |f.utcb.mr| == MR_COUNT - REGS && LastMr(Mr(f, 0)) < MR_COUNT
    ensures Length(Mr(f, 0)) <= MR_COUNT && TypedWords(f) == TypedMrs(f)
  {
    var tag := Mr(f, 0);
    var n, first := Typed(tag), Untyped(tag) + 1;
    assert |TypedWords(f)| == n;
    forall i | 0 <= i < n ensures TypedWords(f)[i] == Mr(f, first + i) {
      assert TypedWords(f)[i] == Mrs(f)[first + i];
    }
  }

  lemma RendezvousMaps(s: System, f: nat, t: nat)
    requires Ok(s) && CanSend(s, f, t) && Length(Mr(s.thr[f], 0)) <= MR_COUNT
    ensures DoIpc(s, f, t).maps == s.maps + Requests(TypedWords(s.thr[f]), f, t)
  {
    hide Length, Copied, Requests, TypedWords, Mr, LastMr;
  }

  /** A rendezvous of two threads with stacks. */
  lemma RendezvousArrives(s: System, f: nat, t: nat)
    requires Ok(s) && CanSend(s, f, t)
    ensures var s2 := DoIpc(s, f, t);
            && BothOk(s, s2) && Arrived(s, s2, f, t) && SentBy(s, s2, f) && OthersSame(s, s2, f, t)
            && s2.normalSlot == f && s2.ipcSlot == t && s2.maps == s.maps + Requests(TypedMrs(s.thr[f]), f, t)
  {
    TypedAreMrs(s.thr[f]);
    RendezvousMaps(s, f, t);
    MessageCopied(s, f, t);
    assert Length(Mr(s.thr[f], 0)) == LastMr(Mr(s.thr[f], 0)) + 1;
    DoIpcCompletes(s, f, t);
    hide DoIpc, Ok, HasMessage, SameMr;
  }

  /** The mappings that typed words ask for: one for each pair, up to the first pair
      whose header has bit 3 clear; bit 1 tells a grant from a map. */
  lemma {:induction false} RequestsExact(words: seq<nat>, from: nat, to: nat, i: nat)
    ensures var r := Requests(words, from, to);
            && 2 * |r| <= |words| && (2 * |r| + 1 < |words| ==> words[2 * |r|] / 8 % 2 == 0)
            && (i < |r| ==> words[2 * i] / 8 % 2 == 1 && r[i].from == from && r[i].to == to
                            && r[i].base == words[2 * i] / 64 * 64 && r[i].size == words[2 * i + 1] / 64 * 64
                            && r[i].grant == (words[2 * i] / 2 % 2 == 1))
  {
    if |words| >= 2 {
      HeaderBits(words[0], words[1]);
      hide IsMapItem, IsGrant, PageBits;
      var rest := words[2..];
      if IsMapItem(words[0]) {
        RequestsExact(rest, from, to, if i > 0 then i - 1 else 0);
        assert forall k :: 0 <= k < |rest| ==> rest[k] == words[k + 2];
      }
    }
  }

  lemma HeaderBits(w: nat, x: nat)
    ensures (IsMapItem(w) <==> w / 8 % 2 == 1) && (IsGrant(w) <==> w / 2 % 2 == 1)
    ensures PageBits(w) == w / 64 * 64 && PageBits(x) == x / 64 * 64
  {
    BitOf(w, 8);
    BitOf(w, 2);
  }

  lemma BitOf(w: nat, m: nat)
    requires m == 8 || m == 2
    ensures w % (2 * m) / m == w / m % 2
  {
    var q, r := w / (2 * m), w % (2 * m);
    if m == 8 {
      assert w == 8 * (2 * q) + r;
      assert w / 8 == 2 * q + r / 8;
    } else {
      assert w == 2 * (2 * q) + r;
      assert w / 2 == 2 * q + r / 2;
    }
  }

  // ----- sys_ipc -----

  /** The caller sends to thread x, and neither to itself nor to the log thread. */
  predicate SendsTo(s: System, x: nat)
    requires Ok(s)
  {
    var c := s.thr[s.caller];
    c.ctx.r0 != NIL && c.ctx.r0 != LOG_THREAD && c.ctx.r0 != c.globalid && TidOf(c.ctx.r0) == x
  }

  /** x is inactive and names the caller as its pager. */
  predicate Paged(s: System, x: nat) {
    x in s.thr && s.thr[x].state == Inactive && TidOf(s.thr[x].utcb.pager) == s.caller
  }

  lemma CallerNumber(s: System)
    requires Ok(s)
    ensures TidOf(s.thr[s.caller].globalid) == s.caller
  {
    assert ThreadOk(s.caller, s.thr[s.caller]);
  }

  lemma TimersApart(s: System, s2: System)
    requires s2.thr == s.thr && s2.caller == s.caller
    ensures Ok(s2) <==> Ok(s)
  {
  }

  lemma SetTwo(s: System, a: nat, ta: Thread, b: nat, tb: Thread)
    requires Ok(s) && a in s.thr && b in s.thr && ThreadOk(a, ta) && ThreadOk(b, tb)
    ensures var s2 := s.(pending := false, thr := s.thr[a := ta][b := tb]);
            BothOk(s, s2) && OthersSame(s, s2, a, b)
  {
    hide TidOf;
  }

  lemma PendingApart(s: System, f: nat, t: nat)
    requires Ok(s) && f in s.thr && t in s.thr
    ensures Ok(s.(pending := false)) && DoIpc(s.(pending := false), f, t) == DoIpc(s, f, t).(pending := false)
  {
    hide Length, Copied, Requests, TypedWords, Mr;
  }

  /** A receiver that waits gets the message at once. */
  lemma CallToReceiver(s: System, armed: bool, x: nat)
    requires Ok(s) && SendsTo(s, x) && x in s.thr && s.thr[x].state == RecvBlocked && CanSend(s, s.caller, x)
    ensures var s2 := SysIpc(s, armed);
            && BothOk(s, s2) && Arrived(s, s2, s.caller, x) && SentBy(s, s2, s.caller) && OthersSame(s, s2, s.caller, x)
            && !s2.pending && s2.normalSlot == s.caller && s2.ipcSlot == x
            && s2.maps == s.maps + Requests(TypedMrs(s.thr[s.caller]), s.caller, x)
  {
    RendezvousArrives(s, s.caller, x);
    PendingApart(s, s.caller, x);
    hide DoIpc, HasMessage, SameMr, LastMr, TidOf;
  }

  /** A message of its pager other than a start leaves an inactive thread inactive,
      with the message. */
  lemma CallToInactive(s: System, armed: bool, x: nat)
    requires Ok(s) && SendsTo(s, x) && x != s.caller && Paged(s, x)
    requires ThreadOk(s.caller, s.thr[s.caller]) && Mr(s.thr[s.caller], 0) != 3
    requires LastMr(Mr(s.thr[s.caller], 0)) < MR_COUNT
    ensures var s2 := SysIpc(s, armed);
            && BothOk(s, s2) && !s2.pending && ThreadOk(x, s.thr[x]) && ThreadOk(x, s2.thr[x])
            && HasMessage(s.thr[x], s2.thr[x], s.thr[s.caller]) && s2.thr[x].state == Inactive
            && OthersSame(s, s2, s.caller, x)
            && if s.thr[x].ctx.sp == 0 || s.thr[s.caller].ctx.sp == 0 then s2.thr[s.caller].state == Runnable
               else SentBy(s, s2, s.caller)
  {
    var f := s.caller;
    MessageCopied(s, f, x);
    PagerExchange(s, armed, x);
    DoIpcStates(s, f, x, f);
    DoIpcOthers(s, f, x);
    assert Fits(s, f);
    var s1 := DoIpc(s, f, x);
    SetKeeps(s1, x, s1.thr[x].(state := Inactive));
    MessageInMrs(s.thr[x], s1.thr[x], s1.thr[x].(state := Inactive), s.thr[f]);
    hide DoIpc, SysIpc, Ok, HasMessage, SameMr, LastMr, TidOf, Mr, Fits, Paged;
  }

  lemma PagerExchange(s: System, armed: bool, x: nat)
    requires Ok(s) && SendsTo(s, x) && x != s.caller && Paged(s, x)
    requires ThreadOk(s.caller, s.thr[s.caller]) && Mr(s.thr[s.caller], 0) != 3
    ensures x in DoIpc(s, s.caller, x).thr
    ensures SysIpc(s, armed) == SetState(DoIpc(s, s.caller, x), x, Inactive).(pending := false)
  {
    DoIpcOk(s, s.caller, x);
    PendingApart(s, s.caller, x);
    CallerNumber(s);
    hide DoIpc, TidOf, Mr;
  }

  lemma MessageInMrs(t: Thread, t1: Thread, t2: Thread, f: Thread)
    requires |t.ctx.regs| == |t1.ctx.regs| == |f.ctx.regs| == REGS
    requires |t.utcb.mr| == |t1.utcb.mr| == |f.utcb.mr| == MR_COUNT - REGS
    requires HasMessage(t, t1, f) && SameMr(t1, t2)
    ensures HasMessage(t, t2, f)
  {
    hide LastMr;
    forall i: nat {:trigger Mr(t2, i)} | i < MR_COUNT ensures Mr(t2, i) == Mr(t1, i) {
    }
  }

  lemma DoIpcOthers(s: System, f: nat, t: nat)
    requires Ok(s) && f in s.thr && t in s.thr && s.caller == f
    ensures OthersSame(s, DoIpc(s, f, t), f, t)
  {
    hide Length, Copied, Requests, TypedWords, Mr;
  }

  /** The start message of its pager: program counter, stack and stack size are MR1 to
      MR3; a user thread finds the kernel page and its control block in r0 and r1. */
  lemma CallStarts(s: System, armed: bool, x: nat)
    requires Ok(s) && SendsTo(s, x) && x != s.caller && Paged(s, x)
    requires ThreadOk(s.caller, s.thr[s.caller]) && Mr(s.thr[s.caller], 0) == 3
    ensures var s2, c := SysIpc(s, armed), s.thr[s.caller];
            && BothOk(s, s2) && !s2.pending && OthersSame(s, s2, s.caller, x)
            && s2.thr[s.caller] == c.(state := Runnable)
            && var t, pc, sp, size := s2.thr[x], Mr(c, 1), Mr(c, 2), Mr(c, 3);
            && t.state == Runnable && t.ctx.pc == pc && t.stackSize == size && SameMr(s.thr[x], t)
            && (t.ctx.sp + RESERVED_STACK) % WORD == sp % WORD && (t.stackBase + size) % WORD == sp % WORD
            && (x >= THREAD_ROOT ==> t.ctx.r0 == s.kip && t.ctx.r1 == s.thr[x].utcb.addr)
  {
    var c := s.thr[s.caller];
    assert ThreadOk(x, s.thr[x]);
    var t := Started(s, s.thr[x], Mr(c, 1), Mr(c, 2), Mr(c, 3));
    StartedAt(s, s.thr[x], Mr(c, 1), Mr(c, 2), Mr(c, 3));
    PagerStart(s, armed, x);
    SetTwo(s, s.caller, c.(state := Runnable), x, t);
    hide Mr, SysIpc, TidOf, Started, Paged, Ok, OthersSame;
  }

  lemma PagerStart(s: System, armed: bool, x: nat)
    requires Ok(s) && SendsTo(s, x) && x != s.caller && Paged(s, x)
    requires ThreadOk(s.caller, s.thr[s.caller]) && Mr(s.thr[s.caller], 0) == 3
    ensures var c := s.thr[s.caller];
            var t := Started(s, s.thr[x], Mr(c, 1), Mr(c, 2), Mr(c, 3));
            SysIpc(s, armed) == s.(pending := false, thr := s.thr[s.caller := c.(state := Runnable)][x := t])
  {
    CallerNumber(s);
    hide DoIpc, TidOf, Mr;
  }

  lemma StartedAt(s: System, to: Thread, pc: nat, sp: nat, size: nat)
    ensures var t := Started(s, to, pc, sp, size);
            && t.state == Runnable && t.ctx.pc == pc && t.stackSize == size
            && SameMr(to, t) && t.globalid == to.globalid
            && (t.ctx.sp + RESERVED_STACK) % WORD == sp % WORD && (t.stackBase + size) % WORD == sp % WORD
            && (TidOf(to.globalid) >= THREAD_ROOT ==> t.ctx.r0 == s.kip && t.ctx.r1 == to.utcb.addr)
  {
    WrapBack(sp, RESERVED_STACK);
    WrapBack(sp, size);
    assert RESERVED_STACK % WORD == RESERVED_STACK;
    hide TidOf;
  }

  /** Subtraction in 32 bits. */
  lemma WrapBack(a: nat, b: nat)
    ensures ((a + WORD - b % WORD) % WORD + b) % WORD == a % WORD
  {
    var r := b % WORD;
    var q := b / WORD;
    assert b == WORD * q + r;
    var d := (a + WORD - r) % WORD;
    var k := (a + WORD - r) / WORD;
    assert a + WORD - r == WORD * k + d;
    assert d + b == a + WORD * (1 - k + q);
    WrapMultiple(a, 1 - k + q);
  }

  lemma WrapMultiple(a: nat, k: int)
    requires a + WORD * k >= 0
    ensures (a + WORD * k) % WORD == a % WORD
  {
  }

  /** A receiver that is not ready, or not there: the caller waits with its message. */
  lemma CallBlocks(s: System, armed: bool, x: nat)
    requires Ok(s) && SendsTo(s, x) && !Paged(s, x) && (x !in s.thr || s.thr[x].state != RecvBlocked)
    ensures var s2, c := SysIpc(s, armed), s.thr[s.caller];
            && BothOk(s, s2) && !s2.pending && OthersSame(s, s2, s.caller, s.caller)
            && s2.thr[s.caller] == c.(state := SendBlocked, utcb := c.utcb.(receiver := c.ctx.r0))
  {
    CallerNumber(s);
    assert ThreadOk(s.caller, s.thr[s.caller]);
    hide DoIpc, TidOf;
  }

  /** A call without a receiver: sleep, wait for a message, or block. */
  lemma CallReceives(s: System, armed: bool)
    requires Ok(s) && s.thr[s.caller].ctx.r0 == NIL
    ensures var s2, c := SysIpc(s, armed), s.thr[s.caller];
            && BothOk(s, s2) && !s2.pending && OthersSame(s, s2, s.caller, s.caller) && SameMr(c, s2.thr[s.caller])
            && (c.ctx.r2 != 0 ==> s2.thr[s.caller].state == Inactive)
            && (c.ctx.r2 != 0 && armed ==> s2.timers == s.timers + multiset{s.caller})
            && (c.ctx.r2 == 0 && c.ctx.r1 != NIL ==>
                  s2.thr[s.caller].state == RecvBlocked && s2.thr[s.caller].ipcFrom == c.ctx.r1)
            && (c.ctx.r2 == 0 && c.ctx.r1 == NIL ==> s2.thr[s.caller].state == SendBlocked)
  {
    var c := s.thr[s.caller];
    assert ThreadOk(s.caller, c);
    var state := if c.ctx.r2 != 0 then Inactive else if c.ctx.r1 != NIL then RecvBlocked else SendBlocked;
    var t := if c.ctx.r2 == 0 && c.ctx.r1 != NIL then c.(state := state, ipcFrom := c.ctx.r1) else c.(state := state);
    SetTwo(s, s.caller, t, s.caller, t);
    var s2 := SysIpc(s, armed);
    assert s2.thr == s.thr[s.caller := t] == s.thr[s.caller := t][s.caller := t];
    TimersApart(s.(pending := false, thr := s2.thr), s2);
    hide DoIpc, TidOf, Send, Ok, OthersSame;
  }

  /** A message that is too long: both sides get an error code and stay as they are. */
  lemma CallTooLong(s: System, armed: bool, x: nat)
    requires Ok(s) && SendsTo(s, x) && x != s.caller && x in s.thr && s.thr[x].state == RecvBlocked
    requires ThreadOk(s.caller, s.thr[s.caller]) && LastMr(Mr(s.thr[s.caller], 0)) >= MR_COUNT
    ensures var s2, c, t := SysIpc(s, armed), s.thr[s.caller], s.thr[x];
            && BothOk(s, s2) && !s2.pending && OthersSame(s, s2, s.caller, x)
            && s2.thr[s.caller] == c.(utcb := c.utcb.(error := OVERFLOW_SEND))
            && s2.thr[x] == t.(utcb := t.utcb.(error := OVERFLOW_RECV))
  {
    var f := s.caller;
    assert Length(Mr(s.thr[f], 0)) == LastMr(Mr(s.thr[f], 0)) + 1;
    OverflowKeeps(s, f, x);
    PendingApart(s, f, x);
    hide LastMr, TidOf, Mr, Length, Ok;
  }

  /** Messages to the log thread and to itself: nobody else is touched. */
  lemma CallToLog(s: System, armed: bool)
    requires Ok(s) && s.thr[s.caller].ctx.r0 == LOG_THREAD
    ensures SysIpc(s, armed) == SetState(s, s.caller, Runnable).(pending := false)
  {
    hide DoIpc, TidOf;
  }

  lemma CallToSelf(s: System, armed: bool)
    requires Ok(s) && ThreadOk(s.caller, s.thr[s.caller]) && LastMr(Mr(s.thr[s.caller], 0)) < MR_COUNT
    requires var c := s.thr[s.caller];
             c.ctx.r0 == c.globalid && c.globalid != NIL && c.globalid != LOG_THREAD && c.ctx.sp != 0
    ensures var s2, c := SysIpc(s, armed), s.thr[s.caller];
            && BothOk(s, s2) && OthersSame(s, s2, s.caller, s.caller) && SameMrs(s, s2)
            && s2.thr[s.caller].utcb.sender == c.globalid
            && if c.ctx.r1 == NIL then s2.thr[s.caller].state == Runnable
               else s2.thr[s.caller].state == RecvBlocked && s2.thr[s.caller].ipcFrom == c.ctx.r1
  {
    var f := s.caller;
    assert Length(Mr(s.thr[f], 0)) == LastMr(Mr(s.thr[f], 0)) + 1;
    CopySelf(s.thr[f], Length(Mr(s.thr[f], 0)));
    DoIpcOk(s, f, f);
    PendingApart(s, f, f);
    hide LastMr, TidOf, Mr, Length, Ok, Copied, Requests, TypedWords;
  }

  lemma CopySelf(t: Thread, n: nat)
    requires |t.ctx.regs| == REGS && |t.utcb.mr| == MR_COUNT - REGS && n <= MR_COUNT
    ensures Copied(t, t, n) == t
  {
    assert Copied(t, t, n).ctx.regs == t.ctx.regs && Copied(t, t, n).utcb.mr == t.utcb.mr;
  }

  // ----- The sweep -----

  /** In its turn, a receiver takes the message of the thread it waits for, whoever
      that thread means to send to. */
  lemma TurnOfReceiver(s: System, t: nat)
    requires Ok(s) && t in s.thr && s.thr[t].state == RecvBlocked && s.thr[t].ipcFrom != NIL && s.thr[t].ipcFrom != ANY
    requires var f := TidOf(s.thr[t].ipcFrom); CanSend(s, f, t) && s.thr[f].state == SendBlocked
    ensures var f, s2 := TidOf(s.thr[t].ipcFrom), DeliverOne(s, t);
            BothOk(s, s2) && Arrived(s, s2, f, t) && SentBy(s, s2, f) && OthersSame(s, s2, f, t)
  {
    RendezvousArrives(s, TidOf(s.thr[t].ipcFrom), t);
    hide DoIpc, Ok, HasMessage, SameMr, TidOf, LastMr;
  }

  /** In its turn, a sender hands its message to the thread it means, whoever that
      thread waits for. */
  lemma TurnOfSender(s: System, f: nat)
    requires Ok(s) && f in s.thr && s.thr[f].state == SendBlocked
    requires s.thr[f].utcb.receiver != NIL && s.thr[f].utcb.receiver != ANY
    requires var t := TidOf(s.thr[f].utcb.receiver); CanSend(s, f, t) && s.thr[t].state == RecvBlocked
    ensures var t, s2 := TidOf(s.thr[f].utcb.receiver), DeliverOne(s, f);
            BothOk(s, s2) && Arrived(s, s2, f, t) && SentBy(s, s2, f) && OthersSame(s, s2, f, t)
  {
    RendezvousArrives(s, f, TidOf(s.thr[f].utcb.receiver));
    hide DoIpc, Ok, HasMessage, SameMr, TidOf, LastMr;
  }

  /** f sends to t and t receives from f. */
  predicate Matched(s: System, f: nat, t: nat)
    requires Ok(s)
  {
    && CanSend(s, f, t) && s.thr[f].state == SendBlocked && s.thr[t].state == RecvBlocked
    && s.thr[f].utcb.receiver != NIL && s.thr[f].utcb.receiver != ANY && TidOf(s.thr[f].utcb.receiver) == t
    && s.thr[t].ipcFrom != NIL && s.thr[t].ipcFrom != ANY && TidOf(s.thr[t].ipcFrom) == f
  }

  /** Thread y does not come between f and t: it neither sends to t nor receives from
      f, now or as the answer to its own message. If f or t called last, y has a
      stack. */
  predicate Apart(s: System, y: nat, f: nat, t: nat)
    requires y in s.thr
  {
    var u := s.thr[y];
    && (u.state == SendBlocked ==> TidOf(u.utcb.receiver) != t && (u.ctx.r1 == NIL || TidOf(u.ctx.r1) != f))
    && (u.state == RecvBlocked ==> TidOf(u.ipcFrom) != f)
    && (Blocked(u) && (s.caller == f || s.caller == t) ==> u.ctx.sp != 0)
  }

  predicate AllApart(s: System, f: nat, t: nat) {
    forall y {:trigger s.thr[y]} :: y in s.thr && y != f && y != t ==> Apart(s, y, f, t)
  }

  /** What a rendezvous of a and b does to the record of y. */
  lemma DoIpcRecord(s: System, a: nat, b: nat, y: nat)
    requires Ok(s) && a in s.thr && b in s.thr && y in s.thr
    ensures var u, u2 := s.thr[y], DoIpc(s, a, b).thr[y];
            && u2.utcb.receiver == u.utcb.receiver && u2.ctx.r1 == u.ctx.r1 && u2.ctx.sp == u.ctx.sp
            && (y != a && y != b ==> u2 == u.(state := u2.state))
  {
    assert ThreadOk(a, s.thr[a]);
    hide Length, Requests, TypedWords, Mr, Copied, Ok;
    if Length(Mr(s.thr[a], 0)) > MR_COUNT {
      assert DoIpc(s, a, b) == Overflow(s, a, b);
      hide DoIpc, Transfer, Complete;
    } else {
      var s1 := Transfer(s, a, b);
      hide Overflow;
    }
  }

  /** A rendezvous of two others leaves f, t and their apartness alone. */
  lemma OthersMeet(s: System, a: nat, b: nat, f: nat, t: nat)
    requires Ok(s) && Matched(s, f, t) && AllApart(s, f, t) && a in s.thr && b in s.thr
    requires a != f && a != t && b != f && b != t && s.thr[a].state == SendBlocked && s.thr[b].state == RecvBlocked
    ensures var s2 := DoIpc(s, a, b);
            Keeps(s, s2) && s2.thr[f] == s.thr[f] && s2.thr[t] == s.thr[t] && AllApart(s2, f, t)
  {
    var s2 := DoIpc(s, a, b);
    DoIpcOk(s, a, b);
    DoIpcRecord(s, a, b, f);
    DoIpcRecord(s, a, b, t);
    DoIpcStates(s, a, b, f);
    DoIpcStates(s, a, b, t);
    hide DoIpc, Fits, CanSend, Mr;
    assert Apart(s, a, f, t) && Apart(s, b, f, t);
    forall y {:trigger s2.thr[y]} | y in s2.thr && y != f && y != t ensures Apart(s2, y, f, t) {
      assert Apart(s, y, f, t);
      DoIpcRecord(s, a, b, y);
      DoIpcStates(s, a, b, y);
    }
  }

  /** The turn of another thread. */
  lemma OtherTurn(s: System, x: nat, f: nat, t: nat)
    requires Ok(s) && Matched(s, f, t) && AllApart(s, f, t) && x in s.thr && x != f && x != t
    ensures var s2 := DeliverOne(s, x);
            Keeps(s, s2) && s2.thr[f] == s.thr[f] && s2.thr[t] == s.thr[t] && AllApart(s2, f, t)
  {
    assert Apart(s, x, f, t);
    hide DoIpc, AllApart, TidOf, CanSend, Ok;
    var u := s.thr[x];
    if u.state == RecvBlocked && Waits(s, TidOf(u.ipcFrom), SendBlocked) {
      OthersMeet(s, TidOf(u.ipcFrom), x, f, t);
    } else if u.state == SendBlocked && Waits(s, TidOf(u.utcb.receiver), RecvBlocked) {
      OthersMeet(s, x, TidOf(u.utcb.receiver), f, t);
    }
  }

  /** A turn leaves all of a runnable thread alone. */
  lemma TurnKeepsRunnable(s: System, x: nat, y: nat)
    requires Ok(s) && x in s.thr && y in s.thr && s.thr[y].state == Runnable
    ensures Keeps(s, DeliverOne(s, x)) && DeliverOne(s, x).thr[y] == s.thr[y]
  {
    DeliverOneState(s, x, y);
    hide DoIpc, TidOf, Meets, Ok;
    var u := s.thr[x];
    if u.state == RecvBlocked && Waits(s, TidOf(u.ipcFrom), SendBlocked) {
      DoIpcRecord(s, TidOf(u.ipcFrom), x, y);
    } else if u.state == SendBlocked && Waits(s, TidOf(u.utcb.receiver), RecvBlocked) {
      DoIpcRecord(s, x, TidOf(u.utcb.receiver), y);
    }
  }

  /** A sweep that visits one of the two delivers the message; before, both wait on. */
  lemma {:induction false} SweepDelivers(s: System, xs: seq<nat>, f: nat, t: nat)
    requires Ok(s) && AllThreads(s, xs) && Matched(s, f, t) && AllApart(s, f, t)
    ensures BothOk(s, Sweep(s, xs))
    ensures var s2 := Sweep(s, xs);
            if f in xs || t in xs then Arrived(s, s2, f, t)
            else s2.thr[f] == s.thr[f] && s2.thr[t] == s.thr[t] && s2.caller == s.caller && AllApart(s2, f, t)
  {
    if xs != [] {
      var front, x := xs[..|xs| - 1], xs[|xs| - 1];
      assert xs == front + [x];
      SweepLast(s, xs);
      var s1 := Sweep(s, front);
      SweepDelivers(s, front, f, t);
      hide Sweep, SweepMeets, AllApart, HasMessage, DeliverOne, TidOf, LastMr, Mr;
      if f in front || t in front {
        TurnKeepsRunnable(s1, x, t);
      } else if x == f {
        TurnOfSender(s1, f);
        ArrivedSame(s, s1, DeliverOne(s1, x), f, t);
      } else if x == t {
        TurnOfReceiver(s1, t);
        ArrivedSame(s, s1, DeliverOne(s1, x), f, t);
      } else {
        OtherTurn(s1, x, f, t);
      }
    }
  }

  lemma ArrivedSame(s: System, s1: System, s2: System, f: nat, t: nat)
    requires BothOk(s, s1) && BothOk(s1, s2) && f in s.thr && t in s.thr
    requires s1.thr[f] == s.thr[f] && s1.thr[t] == s.thr[t] && Arrived(s1, s2, f, t)
    ensures Arrived(s, s2, f, t)
  {
  }

  // ----- A message that goes astray -----

  /** Thread 21 sends to thread 23; thread 22 waits for thread 21. */
  function Crossed(): System {
    var zeros := [0, 0, 0, 0, 0, 0, 0, 0];
    var ctx, utcb := Context(4096, 0, 0, 0, 0, zeros), Utcb(0, NIL, NIL, 0, 0, zeros);
    System(map[21 := Thread(21 * 16384, SendBlocked, NIL, 0, 0, ctx, utcb.(receiver := 23 * 16384)),
               22 := Thread(22 * 16384, RecvBlocked, 21 * 16384, 0, 0, ctx, utcb),
               23 := Thread(23 * 16384, Runnable, NIL, 0, 0, ctx, utcb)],
           23, false, 0, 0, 0, multiset{}, [])
  }

  /** The turn of thread 22 takes the message that was meant for thread 23. */
  lemma CrossedDelivery()
    ensures var s, s2 := Crossed(), DeliverOne(Crossed(), 22);
            && TidOf(s.thr[21].utcb.receiver) == 23
            && BothOk(s, s2) && Arrived(s, s2, 21, 22) && s2.thr[21].state == Runnable
  {
    CrossedReady();
    hide DoIpc, HasMessage, DeliverOne, Crossed, Ok, CanSend;
    TurnOfReceiver(Crossed(), 22);
  }

  lemma CrossedReady()
    ensures var s := Crossed();
            && Ok(s) && CanSend(s, 21, 22) && s.thr[21].state == SendBlocked && s.thr[21].ctx.r1 == NIL
            && TidOf(s.thr[21].utcb.receiver) == 23 && s.thr[22].state == RecvBlocked
            && s.thr[22].ipcFrom == 21 * 16384 && TidOf(21 * 16384) == 21
  {
  }
}
