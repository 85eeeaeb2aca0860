/** The message path as the kernel runs it, in place (kernel/ipc.c). */
module IpcKernel {
  import opened ThreadTree
  import opened Ipc
  import opened IpcRuns

  lemma CopyStart(to: Thread, from: Thread)
    requires |to.ctx.regs| == REGS && |to.utcb.mr| == MR_COUNT - REGS
    requires |from.ctx.regs| == REGS && |from.utcb.mr| == MR_COUNT - REGS
    ensures Copied(to, from, 0) == to
  {
    assert Copied(to, from, 0).ctx.regs == to.ctx.regs && Copied(to, from, 0).utcb.mr == to.utcb.mr;
  }

  lemma CopySelf(t: Thread, k: nat)
    requires |t.ctx.regs| == REGS && |t.utcb.mr| == MR_COUNT - REGS && k <= MR_COUNT
    ensures Copied(t, t, k) == t
  {
    assert Copied(t, t, k).ctx.regs == t.ctx.regs && Copied(t, t, k).utcb.mr == t.utcb.mr;
  }

  lemma CopyStep(to: Thread, from: Thread, k: nat)
    requires |to.ctx.regs| == REGS && |to.utcb.mr| == MR_COUNT - REGS
    requires |from.ctx.regs| == REGS && |from.utcb.mr| == MR_COUNT - REGS && k < MR_COUNT
    ensures WithMr(Copied(to, from, k), k, Mr(from, k)) == Copied(to, from, k + 1)
  {
    var a, b := WithMr(Copied(to, from, k), k, Mr(from, k)), Copied(to, from, k + 1);
    assert a.ctx.regs == b.ctx.regs && a.utcb.mr == b.utcb.mr;
  }

  /** What the words from j on still ask for, given the item being read. */
  function Outstanding(words: seq<nat>, item: int, f: nat, t: nat): seq<MapRequest> {
    if item < 0 then Requests(words, f, t) else Requests([item] + words, f, t)
  }

  lemma OutstandingStep(words: seq<nat>, item: int, f: nat, t: nat)
    requires words != []
    ensures item < 0 ==> Outstanding(words, item, f, t) == Outstanding(words[1..], words[0], f, t)
    ensures item >= 0 && IsMapItem(item) ==>
              Outstanding(words, item, f, t) ==
              [MapRequest(PageBits(item), PageBits(words[0]), IsGrant(item), f, t)] + Outstanding(words[1..], -1, f, t)
    ensures item >= 0 && !IsMapItem(item) ==>
              Outstanding(words, item, f, t) == Outstanding(words[1..], item, f, t) == []
  {
    assert [words[0]] + words[1..] == words;
    if item >= 0 {
      assert ([item] + words)[2..] == words[1..];
    }
  }

  class Kernel {
    var thr: map<nat, Thread>
    var caller: nat
    var pending: bool
    var kip: nat
    var normalSlot: nat
    var ipcSlot: nat
    var timers: multiset<nat>
    var maps: seq<MapRequest>
    /** The thread map, in the order of the thread numbers. */
    const order: seq<nat>

    ghost function Sys(): System
      reads this
    {
      System(thr, caller, pending, kip, normalSlot, ipcSlot, timers, maps)
    }

    constructor (s: System, order: seq<nat>)
      ensures Sys() == s && this.order == order
    {
      thr, caller, pending, kip := s.thr, s.caller, s.pending, s.kip;
      normalSlot, ipcSlot, timers, maps := s.normalSlot, s.ipcSlot, s.timers, s.maps;
      this.order := order;
    }

    /** One message register from f to t. */
    method CopyMr(f: nat, t: nat, k: nat, ghost s: System) returns (v: nat)
      requires Ok(s) && f in s.thr && t in s.thr && k < MR_COUNT
      requires thr == s.thr[t := Copied(s.thr[t], s.thr[f], k)]
      modifies this`thr
      ensures thr == s.thr[t := Copied(s.thr[t], s.thr[f], k + 1)] && v == Mr(s.thr[f], k)
    {
      hide Mr, Copied, WithMr;
      assert ThreadOk(f, s.thr[f]) && ThreadOk(t, s.thr[t]);
      CopySelf(s.thr[f], k);
      v := Mr(thr[f], k);
      CopyStep(s.thr[t], s.thr[f], k);
      thr := thr[t := WithMr(thr[t], k, v)];
    }

    method CopyUntyped(f: nat, t: nat, last: nat, ghost s: System)
      requires Ok(s) && f in s.thr && t in s.thr && 1 <= last <= MR_COUNT
      requires thr == s.thr[t := Copied(s.thr[t], s.thr[f], 1)]
      modifies this`thr
      ensures thr == s.thr[t := Copied(s.thr[t], s.thr[f], last)]
    {
      for k := 1 to last
        invariant thr == s.thr[t := Copied(s.thr[t], s.thr[f], k)]
      {
        var v := CopyMr(f, t, k, s);
      }
    }

    /** One typed word is read: an item, or the extra word of a map or grant item. */
    method ReadTyped(word: nat, item: int, f: nat, t: nat, ghost left: seq<nat>) returns (next: int)
      requires left != [] && left[0] == word
      modifies this`maps
      ensures maps + Outstanding(left[1..], next, f, t) == old(maps) + Outstanding(left, item, f, t)
    {
      hide Requests, Outstanding;
      OutstandingStep(left, item, f, t);
      next := item;
      if item < 0 {
        next := word;
      } else if IsMapItem(item) {
        var r := MapRequest(PageBits(item), PageBits(word), IsGrant(item), f, t);
        AppendRequest(maps, r, Outstanding(left[1..], -1, f, t));
        maps := maps + [r];
        next := -1;
      }
    }

    /** One turn of the loop over the typed words. */
    method TypedTurn(f: nat, t: nat, k: nat, item: int, ghost s: System, ghost left: seq<nat>) returns (next: int)
      requires Ok(s) && f in s.thr && t in s.thr && k < MR_COUNT && left != [] && left[0] == Mr(s.thr[f], k)
      requires thr == s.thr[t := Copied(s.thr[t], s.thr[f], k)]
      modifies this`thr, this`maps
      ensures thr == s.thr[t := Copied(s.thr[t], s.thr[f], k + 1)]
      ensures maps + Outstanding(left[1..], next, f, t) == old(maps) + Outstanding(left, item, f, t)
    {
      assert ThreadOk(f, s.thr[f]) && ThreadOk(t, s.thr[t]);
      hide Mr, Copied, Requests, Outstanding, Ok;
      var word := CopyMr(f, t, k, s);
      next := ReadTyped(word, item, f, t, left);
    }

    /** The typed words: copied, and read as pairs of an item and its extra word. */
    method CopyTyped(f: nat, t: nat, first: nat, last: nat, ghost s: System)
      requires Ok(s) && f in s.thr && t in s.thr && first <= last <= MR_COUNT
      requires thr == s.thr[t := Copied(s.thr[t], s.thr[f], first)]
      modifies this`thr, this`maps
      ensures thr == s.thr[t := Copied(s.thr[t], s.thr[f], last)] && |Mrs(s.thr[f])| == MR_COUNT
      ensures maps == old(maps) + Requests(Mrs(s.thr[f])[first..last], f, t)
    {
      ghost var m := Mrs(s.thr[f]);
      assert ThreadOk(f, s.thr[f]) && ThreadOk(t, s.thr[t]) && |m| == MR_COUNT;
      hide Mr, Mrs, Copied, Requests, Outstanding, Ok;
      var item: int := -1;
      ghost var all := maps + Requests(m[first..last], f, t);
      OutstandingStart(m[first..last], f, t);
      for k := first to last
        invariant thr == s.thr[t := Copied(s.thr[t], s.thr[f], k)]
        invariant maps + Outstanding(m[k..last], item, f, t) == all
      {
        NextWord(s.thr[f], k, last);
        item := TypedTurn(f, t, k, item, s, m[k..last]);
      }
      OutstandingEnd(m[last..last], item, f, t);
      assert maps + [] == maps;
    }

    /** The two error codes of an overlong message. */
    method FailOverflow(f: nat, t: nat)
      requires f in thr && t in thr
      modifies this`thr
      ensures thr == Overflow(old(Sys()), f, t).thr
    {
      thr := thr[f := thr[f].(utcb := thr[f].utcb.(error := OVERFLOW_SEND))];
      thr := thr[t := thr[t].(utcb := thr[t].utcb.(error := OVERFLOW_RECV))];
    }

    /** do_ipc up to the copied message. */
    method CopyMessage(f: nat, t: nat)
      requires Ok(Sys()) && f in thr && t in thr && Length(Mr(thr[f], 0)) <= MR_COUNT
      modifies this`thr, this`maps
      ensures Sys() == Transfer(old(Sys()), f, t)
    {
      ghost var s := Sys();
      assert ThreadOk(f, s.thr[f]) && ThreadOk(t, s.thr[t]);
      CopyStart(s.thr[t], s.thr[f]);
      hide Mr, Copied, Requests, Ok;
      var tag := CopyMr(f, t, 0, s);
      var untypedLast := Untyped(tag) + 1;
      var typedLast := untypedLast + Typed(tag);
      CopyUntyped(f, t, untypedLast, s);
      CopyTyped(f, t, untypedLast, typedLast, s);
    }

    /** The receiver learns its sender and runs again. */
    method Resume(t: nat, g: nat)
      requires t in thr
      modifies this`thr
      ensures thr == var to := old(thr)[t];
                     old(thr)[t := to.(state := Runnable, ipcFrom := NIL, ctx := to.ctx.(r0 := g),
                       utcb := to.utcb.(sender := g))]
    {
      thr := thr[t := thr[t].(utcb := thr[t].utcb.(sender := g))];
      thr := thr[t := thr[t].(state := Runnable, ipcFrom := NIL)];
      thr := thr[t := thr[t].(ctx := thr[t].ctx.(r0 := g))];
    }

    /** The receiver is dispatched; the sender runs on or waits. */
    method Finish(f: nat, t: nat)
      requires f in thr && t in thr
      modifies this`thr, this`normalSlot, this`ipcSlot
      ensures Sys() == Complete(old(Sys()), f, t)
    {
      Resume(t, thr[f].globalid);
      var answer := thr[f].ctx.r1;
      if answer == NIL {
        thr := thr[f := thr[f].(state := Runnable)];
      } else {
        thr := thr[f := thr[f].(state := RecvBlocked, ipcFrom := answer)];
      }
      normalSlot := f;
      ipcSlot := t;
    }

    /** do_ipc. */
    method Exchange(f: nat, t: nat)
      requires Ok(Sys()) && f in thr && t in thr
      modifies this
      ensures Sys() == DoIpc(old(Sys()), f, t)
    {
      assert ThreadOk(f, thr[f]) && ThreadOk(t, thr[t]);
      hide Mr, Copied, Requests, TypedWords, Overflow, Complete, Length;
      if Length(Mr(thr[f], 0)) > MR_COUNT {
        OverflowKeeps(Sys(), f, t);
        FailOverflow(f, t);
        return;
      }
      TransferKeeps(Sys(), f, t);
      CopyMessage(f, t);
      if thr[t].ctx.sp == 0 || thr[f].ctx.sp == 0 {
        thr := thr[caller := thr[caller].(state := Runnable)];
        return;
      }
      Finish(f, t);
    }

    method SetThreadState(x: nat, st: State)
      requires x in thr
      modifies this`thr
      ensures Sys() == SetState(old(Sys()), x, st)
    {
      thr := thr[x := thr[x].(state := st)];
    }

    /** The thread start protocol. */
    method StartThread(x: nat)
      requires Ok(Sys()) && x in thr
      modifies this`thr
      ensures var s := old(Sys()); var c := s.thr[s.caller]; var s1 := SetState(s, s.caller, Runnable);
              thr == s1.thr[x := Started(s, s1.thr[x], Mr(c, 1), Mr(c, 2), Mr(c, 3))]
    {
      assert ThreadOk(caller, thr[caller]);
      hide Mr;
      var sp, size := Mr(thr[caller], 2), Mr(thr[caller], 3);
      var pc := Mr(thr[caller], 1);
      var to := thr[x].(stackBase := (sp + WORD - size % WORD) % WORD, stackSize := size);
      to := to.(ctx := to.ctx.(sp := (sp + WORD - RESERVED_STACK) % WORD));
      if TidOf(to.globalid) >= THREAD_ROOT {
        to := to.(ctx := to.ctx.(r0 := kip, r1 := to.utcb.addr));
      } else {
        to := to.(ctx := to.ctx.(r0 := 0, r1 := 0));
      }
      to := to.(ctx := to.ctx.(r2 := 0, pc := pc));
      thr := thr[caller := thr[caller].(state := Runnable)];
      thr := thr[x := to.(state := Runnable)];
    }

    /** The send phase of sys_ipc. */
    method SendTo(to: nat)
      requires Ok(Sys())
      modifies this
      ensures Sys() == Send(old(Sys()), to)
    {
      assert ThreadOk(caller, thr[caller]);
      hide DoIpc, Mr, Started, Ok;
      var x := TidOf(to);
      if to == LOG_THREAD {
        SetThreadState(caller, Runnable);
      } else if (x in thr && thr[x].state == RecvBlocked) || to == thr[caller].globalid {
        Exchange(caller, x);
      } else if x in thr && thr[x].state == Inactive && TidOf(thr[x].utcb.pager) == TidOf(thr[caller].globalid) {
        if Mr(thr[caller], 0) == 3 {
          StartThread(x);
        } else {
          DoIpcOk(Sys(), caller, x);
          Exchange(caller, x);
          SetThreadState(x, Inactive);
        }
      } else {
        thr := thr[caller := thr[caller].(state := SendBlocked, utcb := thr[caller].utcb.(receiver := to))];
      }
    }

    /** sys_ipc. */
    method SystemCall(armed: bool)
      requires Ok(Sys())
      modifies this
      ensures Sys() == SysIpc(old(Sys()), armed)
    {
      assert caller in thr;
      hide Send, Ok;
      var to, from, timeout := thr[caller].ctx.r0, thr[caller].ctx.r1, thr[caller].ctx.r2;
      pending := false;
      if to == NIL && timeout != 0 {
        SetThreadState(caller, Inactive);
        if armed {
          timers := timers + multiset{caller};
        }
        return;
      }
      if to != NIL {
        PendingIsNotRead(old(Sys()));
        SendTo(to);
        return;
      }
      if from != NIL {
        thr := thr[caller := thr[caller].(state := RecvBlocked, ipcFrom := from)];
        return;
      }
      SetThreadState(caller, SendBlocked);
    }

    /** One turn of the sweep. */
    method DeliverTo(x: nat)
      requires Ok(Sys()) && x in thr
      modifies this
      ensures Sys() == DeliverOne(old(Sys()), x)
    {
      hide DoIpc, TidOf, Ok;
      var t := thr[x];
      match t.state {
        case RecvBlocked =>
          if t.ipcFrom != NIL && t.ipcFrom != ANY {
            var from := TidOf(t.ipcFrom);
            if from in thr && thr[from].state == SendBlocked {
              Exchange(from, x);
            }
          }
        case SendBlocked =>
          var receiver := t.utcb.receiver;
          if receiver != NIL && receiver != ANY {
            var to := TidOf(receiver);
            if to in thr && thr[to].state == RecvBlocked {
              Exchange(x, to);
            }
          }
        case _ =>
      }
    }

    /** ipc_deliver: the sweep over the thread map, from its second entry. */
    method Deliver()
      requires Ok(Sys()) && AllThreads(Sys(), order)
      modifies this
      ensures Sys() == Sweep(old(Sys()), if order == [] then [] else order[1..])
    {
      hide DeliverOne, Ok;
      ghost var s, xs := Sys(), if order == [] then [] else order[1..];
      assert xs[..0] == [];
      var i := 1;
      while i < |order|
        invariant 1 <= i && (order != [] ==> i <= |order|) && i - 1 <= |xs|
        invariant Sys() == Sweep(s, xs[..i - 1])
      {
        DeliverTo(order[i]);
        assert xs[..i][..i - 1] == xs[..i - 1];
        i := i + 1;
      }
      assert order != [] ==> xs[..|order| - 1] == xs;
    }

    /** ipc_timeout. */
    method TimerFires(x: nat)
      requires x in thr && timers[x] > 0
      modifies this
      ensures Sys() == Timeout(old(Sys()), x)
      ensures thr == old(thr)[x := old(thr)[x].(state := Runnable)]
      ensures normalSlot == x && timers == old(timers) - multiset{x}
    {
      timers := timers - multiset{x};
      SetThreadState(x, Runnable);
      normalSlot := x;
    }

    /** svc_handler. */
    method SvcHandler(x: nat)
      requires x in thr
      modifies this
      ensures Sys() == Svc(old(Sys()), x)
      ensures thr == old(thr)[x := old(thr)[x].(state := SvcBlocked)] && caller == x && pending
    {
      caller := x;
      SetThreadState(x, SvcBlocked);
      pending := true;
    }
  }

  lemma PendingIsNotRead(s: System)
    requires Ok(s)
    ensures Ok(s.(pending := false))
  {
  }

  lemma OutstandingStart(words: seq<nat>, f: nat, t: nat)
    ensures Outstanding(words, -1, f, t) == Requests(words, f, t)
  {
  }

  lemma NextWord(t: Thread, k: nat, last: nat)
    requires |t.ctx.regs| == REGS && |t.utcb.mr| == MR_COUNT - REGS && k < last <= MR_COUNT
    ensures |Mrs(t)| == MR_COUNT
    ensures var left := Mrs(t)[k..last]; left != [] && left[0] == Mr(t, k) && left[1..] == Mrs(t)[k + 1..last]
  {
  }

  lemma OutstandingEnd(words: seq<nat>, item: int, f: nat, t: nat)
    requires words == []
    ensures Outstanding(words, item, f, t) == []
  {
  }

  lemma AppendRequest(a: seq<MapRequest>, r: MapRequest, b: seq<MapRequest>)
    ensures a + ([r] + b) == (a + [r]) + b
  {
  }
}
