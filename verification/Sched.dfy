/** The scheduler slots (kernel/sched.c). */
module Sched {
  import opened ThreadTree

  /** Slots in priority order: softirqs (the kernel thread), interrupt threads,
      root, messages, normal threads, idle. */
  const SOFTIRQ_SLOT: nat := 0
  const IDLE_SLOT: nat := 5
  const NUM_SLOTS: nat := 6

  /** What a slot offers: its own thread if that can run, else what its handler
      finds, else NULL. A slot without a handler finds nothing. */
  function Offer(scheduled: Ptr, found: Ptr, runnable: set<Ptr>): Ptr {
    if scheduled != NULL && scheduled in runnable then scheduled else found
  }

  /** schedule_select from slot k on: the thread chosen, NULL for the panic at the
      end, and the slots afterwards. */
  function SelectFrom(slots: seq<Ptr>, found: seq<Ptr>, runnable: set<Ptr>, k: nat): (Ptr, seq<Ptr>)
    requires |slots| == |found| == NUM_SLOTS && k <= NUM_SLOTS
    decreases NUM_SLOTS - k
  {
    if k == NUM_SLOTS then (NULL, slots)
    else
      var t := Offer(slots[k], found[k], runnable);
      if t != NULL then (t, slots[k := t]) else SelectFrom(slots, found, runnable, k + 1)
  }

  /** The first slot that offers a thread wins, and only that slot changes. */
  lemma {:induction false} SelectFirst(slots: seq<Ptr>, found: seq<Ptr>, runnable: set<Ptr>, k: nat)
    requires |slots| == |found| == NUM_SLOTS && k <= NUM_SLOTS
    ensures var r := SelectFrom(slots, found, runnable, k);
            if r.0 == NULL then
              r.1 == slots && forall i :: k <= i < NUM_SLOTS ==> Offer(slots[i], found[i], runnable) == NULL
            else
              exists j :: k <= j < NUM_SLOTS && r == (Offer(slots[j], found[j], runnable), slots[j := r.0])
                          && forall i :: k <= i < j ==> Offer(slots[i], found[i], runnable) == NULL
    decreases NUM_SLOTS - k
  {
    if k < NUM_SLOTS && Offer(slots[k], found[k], runnable) == NULL {
      SelectFirst(slots, found, runnable, k + 1);
      var r := SelectFrom(slots, found, runnable, k);
      if r.0 != NULL {
        var j :| k + 1 <= j < NUM_SLOTS && r == (Offer(slots[j], found[j], runnable), slots[j := r.0])
                 && forall i :: k + 1 <= i < j ==> Offer(slots[i], found[i], runnable) == NULL;
        assert forall i :: k <= i < j ==> Offer(slots[i], found[i], runnable) == NULL;
      }
    }
  }

  /** A slot whose own thread can run passes it on. A slot whose thread cannot run
      passes on what its handler finds and remembers it, unless that is NULL. The
      slots before it pass nothing on. */
  lemma SelectBySlot(slots: seq<Ptr>, found: seq<Ptr>, runnable: set<Ptr>, k: nat)
    requires |slots| == |found| == NUM_SLOTS && k < NUM_SLOTS
    requires forall i :: 0 <= i < k ==> (slots[i] == NULL || slots[i] !in runnable) && found[i] == NULL
    ensures var r := SelectFrom(slots, found, runnable, 0);
            && (slots[k] != NULL && slots[k] in runnable ==> r == (slots[k], slots))
            && ((slots[k] == NULL || slots[k] !in runnable) && found[k] != NULL ==>
                  r == (found[k], slots[k := found[k]]))
  {
    SkipSlots(slots, found, runnable, 0, k);
    assert slots[k := slots[k]] == slots;
  }

  lemma {:induction false} SkipSlots(slots: seq<Ptr>, found: seq<Ptr>, runnable: set<Ptr>, i: nat, k: nat)
    requires |slots| == |found| == NUM_SLOTS && i <= k <= NUM_SLOTS
    requires forall j :: i <= j < k ==> (slots[j] == NULL || slots[j] !in runnable) && found[j] == NULL
    ensures SelectFrom(slots, found, runnable, i) == SelectFrom(slots, found, runnable, k)
    decreases k - i
  {
    if i < k {
      assert slots[i] == NULL || slots[i] !in runnable;
      SkipSlots(slots, found, runnable, i + 1, k);
    }
  }

  /** The first slot keeps the kernel thread through every selection, and a
      runnable kernel thread is selected. */
  lemma SelectKeepsKernel(slots: seq<Ptr>, found: seq<Ptr>, runnable: set<Ptr>, kernel: Ptr)
    requires |slots| == |found| == NUM_SLOTS && slots[SOFTIRQ_SLOT] == kernel != NULL && found[SOFTIRQ_SLOT] == NULL
    ensures var r := SelectFrom(slots, found, runnable, 0);
            && |r.1| == NUM_SLOTS && r.1[SOFTIRQ_SLOT] == kernel
            && (kernel in runnable ==> r == (kernel, slots))
  {
    SelectFirst(slots, found, runnable, 0);
    assert slots[0 := kernel] == slots;
  }

  /** With the idle thread runnable in the last slot, every selection finds a
      thread, and that slot keeps it. */
  lemma SelectKeepsIdle(slots: seq<Ptr>, found: seq<Ptr>, runnable: set<Ptr>, idle: Ptr)
    requires |slots| == |found| == NUM_SLOTS && slots[IDLE_SLOT] == idle != NULL && idle in runnable
    ensures var r := SelectFrom(slots, found, runnable, 0);
            r.0 != NULL && |r.1| == NUM_SLOTS && r.1[IDLE_SLOT] == idle
  {
    SelectFirst(slots, found, runnable, 0);
    assert Offer(slots[IDLE_SLOT], found[IDLE_SLOT], runnable) == idle;
  }

  class Scheduler {
    /** ss_scheduled of every slot. */
    var slots: seq<Ptr>
    const kernel: Ptr

    /** sched_init, and the dispatch of the kernel thread that follows it. */
    constructor (kernel: Ptr)
      requires kernel != NULL
      ensures Valid() && this.kernel == kernel
    {
      slots := [kernel, NULL, NULL, NULL, NULL, NULL];
      this.kernel := kernel;
    }

    /** The first slot holds the kernel thread. */
    ghost predicate Valid()
      reads this
    {
      |slots| == NUM_SLOTS && slots[SOFTIRQ_SLOT] == kernel != NULL
    }

    /** sched_slot_dispatch, on any slot but the kernel thread's. */
    method Dispatch(slot: nat, thread: Ptr)
      requires Valid() && SOFTIRQ_SLOT < slot < NUM_SLOTS
      modifies this
      ensures Valid() && slots == old(slots)[slot := thread]
    {
      slots := slots[slot := thread];
    }

    /** schedule_select; `found` is what the handlers of the slots answer, and the
        first slot has none. */
    method Select(runnable: set<Ptr>, found: seq<Ptr>) returns (r: Ptr)
      requires Valid() && |found| == NUM_SLOTS && found[SOFTIRQ_SLOT] == NULL
      modifies this
      ensures Valid() && (r, slots) == SelectFrom(old(slots), found, runnable, 0)
      ensures kernel in runnable ==> r == kernel
    {
      SelectKeepsKernel(slots, found, runnable, kernel);
      var id := 0;
      while id < NUM_SLOTS
        invariant 0 <= id <= NUM_SLOTS && slots == old(slots)
        invariant SelectFrom(slots, found, runnable, 0) == SelectFrom(slots, found, runnable, id)
      {
        var scheduled := slots[id];
        if scheduled != NULL && scheduled in runnable {
          assert slots == slots[id := scheduled];
          return scheduled;
        } else {
          scheduled := found[id];
          if scheduled != NULL {
            slots := slots[id := scheduled];
            return scheduled;
          }
        }
        id := id + 1;
      }
      return NULL;
    }
  }
}
