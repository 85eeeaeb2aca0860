/** Pending softirqs are handled, once each, and softirq_execute returns
    (kernel/softirq.c). */
module SoftirqServe {
  import opened Softirq

  // ----- What a start and a clear do -----

  /** The step that starts handler i enters it. */
  lemma StartEnters(s: State, step: Step, i: nat)
    requires Ok(s) && Enabled(s, step) && Starts(s, step, i)
    ensures Apply(s, step).pc == Handle(i) && Apply(s, step).flags == s.flags
  {
  }

  /** A handler is entered only by its start, and returns to the clear of its flag. */
  lemma WindowEntered(s: State, step: Step, i: nat)
    requires Ok(s) && Enabled(s, step) && InWindow(Apply(s, step), i)
    ensures InWindow(s, i) || Starts(s, step, i)
  {
  }

  /** A flag goes down only by the clear behind its handler. */
  lemma FlagCleared(s: State, step: Step, i: nat)
    requires Ok(s) && Enabled(s, step) && i < |s.flags| && s.flags[i] && !Apply(s, step).flags[i]
    ensures Clears(s, step, i)
  {
  }

  lemma {:induction false} WindowStarted(ss: seq<State>, steps: seq<Step>, a: nat, b: nat, i: nat) returns (k: nat)
    requires IsRun(ss, steps) && a <= b <= |steps| && !InWindow(ss[a], i) && InWindow(ss[b], i)
    ensures a <= k < b && Starts(ss[k], steps[k], i)
  {
    assert ss[b] == Apply(ss[b - 1], steps[b - 1]);
    WindowEntered(ss[b - 1], steps[b - 1], i);
    if InWindow(ss[b - 1], i) {
      k := WindowStarted(ss, steps, a, b - 1, i);
    } else {
      k := b - 1;
    }
  }

  /** In every run, a flag that was set outside the window and is clear later has had
      its handler entered in between. */
  lemma {:induction false} ClearedMeansHandled(ss: seq<State>, steps: seq<Step>, a: nat, b: nat, i: nat)
    returns (k: nat)
    requires IsRun(ss, steps) && a <= b <= |steps| && !InWindow(ss[a], i)
    requires i < |ss[a].flags| && ss[a].flags[i] && |ss[b].flags| == |ss[a].flags| && !ss[b].flags[i]
    ensures a <= k < b && Starts(ss[k], steps[k], i) && ss[k + 1].pc == Handle(i)
  {
    RunInv(ss, steps, b - 1);
    var s, step := ss[b - 1], steps[b - 1];
    assert ss[b] == Apply(s, step);
    if s.flags[i] {
      FlagCleared(s, step, i);
      k := WindowStarted(ss, steps, a, b - 1, i);
      StartEnters(ss[k], steps[k], i);
    } else {
      k := ClearedMeansHandled(ss, steps, a, b - 1, i);
    }
  }

  // ----- How soon a softirq is handled -----

  /** How many steps of the kernel thread lie between this point and the test of flag
      i, at most, with n flags. */
  function Distance(pc: Pc, i: nat, n: nat): int {
    match pc
    case Scan(k) => ScanDistance(k, i, n)
    case Handle(k) => ScanDistance(k, i, n) - 1
    case Clear(k) => ScanDistance(k, i, n) - 2
    case Sum(k, _) => 3 * i + 5 + n - k
    case SetState(_) => 3 * i + 4
    case Enable(_) => 3 * i + 3
    case Branch(_) => 3 * i + 2
    case Yield => 3 * i + 1
  }

  function ScanDistance(k: nat, i: nat, n: nat): int {
    if k <= i then 3 * (i - k) else 3 * i + 6 + n + 3 * (n - k)
  }

  /** Each step of the kernel thread comes closer, and a raise does not move it. */
  lemma StepCloser(s: State, step: Step, i: nat)
    requires Ok(s) && Enabled(s, step) && i < |s.flags| && s.flags[i] && s.handled[i] && !InWindow(s, i)
    requires !Starts(s, step, i)
    ensures var d, d2 := Distance(s.pc, i, |s.flags|), Distance(Apply(s, step).pc, i, |s.flags|);
            0 <= d2 <= d - if step.Kernel? then 1 else 0
  {
  }

  /** The steps of the kernel thread from a up to b. */
  function KernelSteps(steps: seq<Step>, a: nat, b: nat): nat
    requires a <= b <= |steps|
  {
    if a == b then 0 else KernelSteps(steps, a, b - 1) + if steps[b - 1].Kernel? then 1 else 0
  }

  /** In every run, however raises fall in between, a pending softirq with a handler
      is started after a bounded number of steps of the kernel thread. */
  lemma {:induction false} StartedSoon(ss: seq<State>, steps: seq<Step>, a: nat, b: nat, i: nat)
    requires IsRun(ss, steps) && a <= b <= |steps|
    requires i < |ss[a].flags| && ss[a].flags[i] && !InWindow(ss[a], i)
    requires |ss[a].handled| == |ss[a].flags| && ss[a].handled[i]
    requires forall k {:trigger steps[k]} :: a <= k < b ==> !Starts(ss[k], steps[k], i)
    ensures |ss[b].flags| == |ss[a].flags| && ss[b].handled == ss[a].handled
    ensures var n := |ss[a].flags|;
            0 <= Distance(ss[b].pc, i, n) <= Distance(ss[a].pc, i, n) - KernelSteps(steps, a, b)
    ensures KernelSteps(steps, a, b) <= 4 * |ss[a].flags| + 3
  {
    if a < b {
      StartedSoon(ss, steps, a, b - 1, i);
      RaiseServed(ss, steps, a, b - 1, i);
      RunInv(ss, steps, b - 1);
      var step := steps[b - 1];
      assert !Starts(ss[b - 1], step, i) && ss[b] == Apply(ss[b - 1], step);
      StepCloser(ss[b - 1], step, i);
    }
    RunInv(ss, steps, a);
    hide Apply, Starts, Inv;
    DistanceBound(ss[a], i);
  }

  lemma DistanceBound(s: State, i: nat)
    requires Ok(s) && i < |s.flags| && !InWindow(s, i)
    ensures 0 <= Distance(s.pc, i, |s.flags|) <= 4 * |s.flags| + 3
  {
  }

  // ----- The kernel thread on its own -----

  function Steps(s: State, n: nat): (r: State)
    requires Ok(s)
    ensures Ok(r) && |r.flags| == |s.flags| && r.handled == s.handled && r.raising == s.raising
  {
    if n == 0 then s else KernelStep(Steps(s, n - 1))
  }

  lemma {:induction false} StepsAdd(s: State, m: nat, n: nat)
    requires Ok(s)
    ensures Steps(Steps(s, m), n) == Steps(s, m + n)
  {
    hide KernelStep;
    if n > 0 {
      StepsAdd(s, m, n - 1);
    }
  }

  lemma FirstSteps(s: State)
    requires Ok(s)
    ensures Steps(s, 0) == s && Steps(s, 1) == KernelStep(s)
    ensures Steps(s, 2) == KernelStep(Steps(s, 1)) && Steps(s, 3) == KernelStep(Steps(s, 2))
    ensures Steps(s, 4) == KernelStep(Steps(s, 3))
  {
    hide KernelStep;
  }

  /** Handler j is entered within n steps. */
  predicate Visits(s: State, n: nat, j: nat)
    requires Ok(s)
  {
    exists k: nat :: k <= n && Steps(s, k).pc == Handle(j)
  }

  lemma VisitsAdd(s: State, m: nat, n: nat, j: nat)
    requires Ok(s)
    ensures Visits(s, m + n, j) <==> Visits(s, m, j) || Visits(Steps(s, m), n, j)
  {
    hide KernelStep, Steps;
    var s1 := Steps(s, m);
    if Visits(s1, n, j) {
      var k: nat :| k <= n && Steps(s1, k).pc == Handle(j);
      StepsAdd(s, m, k);
      assert Steps(s, m + k).pc == Handle(j);
    }
    if Visits(s, m, j) {
      var k: nat :| k <= m && Steps(s, k).pc == Handle(j);
      assert k <= m + n;
    }
    if Visits(s, m + n, j) && !Visits(s, m, j) {
      var k: nat :| k <= m + n && Steps(s, k).pc == Handle(j);
      StepsAdd(s, m, k - m);
      assert Steps(s1, k - m).pc == Handle(j);
    }
  }

  lemma HandleSteps(s: State, i: nat)
    requires Ok(s) && s.pc == Scan(i) && i < |s.flags| && s.flags[i] && s.handled[i]
    ensures Steps(s, 0) == s && Steps(s, 1) == s.(pc := Handle(i)) && Steps(s, 2) == s.(pc := Clear(i))
    ensures Steps(s, 3) == s.(flags := s.flags[i := false], pc := Scan(i + 1))
  {
    FirstSteps(s);
    hide Steps;
  }

  lemma ScanHandles(s: State, i: nat, j: nat)
    requires Ok(s) && s.pc == Scan(i) && i < |s.flags| && s.flags[i] && s.handled[i]
    ensures Visits(s, 3, j) <==> j == i
  {
    HandleSteps(s, i);
    hide Steps, KernelStep;
    if j == i {
      assert Steps(s, 1).pc == Handle(i);
    } else {
      forall k: nat | k <= 3 ensures Steps(s, k).pc != Handle(j) {
        assert k == 0 || k == 1 || k == 2 || k == 3;
      }
    }
  }

  /** One flag of the scan. */
  lemma ScanOne(s: State, i: nat, j: nat)
    requires Ok(s) && s.pc == Scan(i) && i < |s.flags| && (s.flags[i] ==> s.handled[i])
    ensures var m := if s.flags[i] then 3 else 1;
            && Steps(s, m) == s.(flags := s.flags[i := false], pc := Scan(i + 1))
            && (Visits(s, m, j) <==> j == i && s.flags[i])
  {
    if s.flags[i] {
      HandleSteps(s, i);
      ScanHandles(s, i, j);
      hide Steps, KernelStep, Visits;
    } else {
      assert s.flags[i := false] == s.flags;
      FirstSteps(s);
      VisitsOne(s, j);
      hide Steps, Visits;
    }
  }

  /** The flags from i on are clear. */
  function ClearedFrom(flags: seq<bool>, i: nat): seq<bool> {
    seq(|flags|, k requires 0 <= k < |flags| => flags[k] && k < i)
  }

  lemma ClearedStep(flags: seq<bool>, i: nat)
    requires i < |flags|
    ensures ClearedFrom(flags[i := false], i + 1) == ClearedFrom(flags, i)
  {
  }

  lemma ClearedAll(flags: seq<bool>)
    ensures ClearedFrom(flags, |flags|) == flags
  {
  }

  /** The scan from flag i on. */
  lemma {:induction false} ScanRest(s: State, i: nat) returns (n: nat)
    requires Ok(s) && s.pc == Scan(i) && forall k :: i <= k < |s.flags| && s.flags[k] ==> s.handled[k]
    ensures Steps(s, n) == s.(flags := ClearedFrom(s.flags, i), pc := Scan(|s.flags|))
    ensures forall j: nat :: Visits(s, n, j) <==> i <= j < |s.flags| && s.flags[j]
    decreases |s.flags| - i
  {
    hide Steps, KernelStep, Visits, ClearedFrom;
    if i == |s.flags| {
      n := 0;
      ScanDone(s);
    } else {
      var m := if s.flags[i] then 3 else 1;
      ScanOne(s, i, i);
      var s1 := Steps(s, m);
      var rest := ScanRest(s1, i + 1);
      n := m + rest;
      StepsAdd(s, m, rest);
      ClearedStep(s.flags, i);
      forall j: nat ensures Visits(s, n, j) <==> i <= j < |s.flags| && s.flags[j] {
        ScanOne(s, i, j);
        VisitsAdd(s, m, rest, j);
      }
    }
  }

  lemma ScanDone(s: State)
    requires Ok(s) && s.pc == Scan(|s.flags|)
    ensures Steps(s, 0) == s.(flags := ClearedFrom(s.flags, |s.flags|))
    ensures forall j: nat :: !Visits(s, 0, j)
  {
    ClearedAll(s.flags);
    FirstSteps(s);
    hide KernelStep, Steps;
    forall j: nat ensures !Visits(s, 0, j) {
      VisitsNone(s, j);
    }
  }

  /** The sum over clear flags from i on, and the way out. */
  lemma {:induction false} LeaveRest(s: State, i: nat) returns (n: nat)
    requires Ok(s) && s.pc == Sum(i, false) && forall k :: 0 <= k < |s.flags| ==> !s.flags[k]
    ensures Steps(s, n) == s.(runnable := false, pc := Yield)
    ensures forall j: nat :: !Visits(s, n, j)
    decreases |s.flags| - i
  {
    if i == |s.flags| {
      n := 4;
      LastSteps(s);
    } else {
      FirstSteps(s);
      assert Steps(s, 1) == s.(pc := Sum(i + 1, false));
      hide Steps, KernelStep, Visits;
      var rest := LeaveRest(Steps(s, 1), i + 1);
      n := 1 + rest;
      StepsAdd(s, 1, rest);
      forall j: nat ensures !Visits(s, n, j) {
        VisitsOne(s, j);
        VisitsAdd(s, 1, rest, j);
      }
    }
  }

  lemma LastSteps(s: State)
    requires Ok(s) && s.pc == Sum(|s.flags|, false)
    ensures Steps(s, 4) == s.(runnable := false, pc := Yield)
    ensures forall j: nat :: !Visits(s, 4, j)
  {
    FirstSteps(s);
    WayOut(s);
    hide Steps, KernelStep;
    forall j: nat, k: nat {:trigger Visits(s, 4, j), Steps(s, k)} | k <= 4 ensures Steps(s, k).pc != Handle(j) {
      assert k == 0 || k == 1 || k == 2 || k == 3 || k == 4;
    }
  }

  lemma WayOut(s: State)
    requires Ok(s) && s.pc == Sum(|s.flags|, false)
    ensures KernelStep(s) == s.(pc := SetState(false))
    ensures KernelStep(s.(pc := SetState(false))) == s.(runnable := false, pc := Enable(false))
    ensures KernelStep(s.(runnable := false, pc := Enable(false))) == s.(runnable := false, pc := Branch(false))
    ensures KernelStep(s.(runnable := false, pc := Branch(false))) == s.(runnable := false, pc := Yield)
  {
  }

  lemma VisitsNone(s: State, j: nat)
    requires Ok(s)
    ensures Visits(s, 0, j) <==> s.pc == Handle(j)
  {
    FirstSteps(s);
    hide Steps;
  }

  lemma VisitsOne(s: State, j: nat)
    requires Ok(s)
    ensures Visits(s, 1, j) <==> s.pc == Handle(j) || KernelStep(s).pc == Handle(j)
  {
    FirstSteps(s);
    hide Steps, KernelStep;
    if s.pc == Handle(j) {
      assert Steps(s, 0).pc == Handle(j);
    } else if KernelStep(s).pc == Handle(j) {
      assert Steps(s, 1).pc == Handle(j);
    }
  }

  /** Without interrupts, softirq_execute enters exactly the handlers of the pending
      softirqs, clears their flags, puts the kernel thread to sleep and returns. */
  lemma ExecuteServes(s: State) returns (n: nat)
    requires Ok(s) && s.pc == Scan(0) && forall i :: 0 <= i < |s.flags| && s.flags[i] ==> s.handled[i]
    ensures var r := Steps(s, n);
            && r.pc == Yield && !r.runnable && forall i :: 0 <= i < |r.flags| ==> !r.flags[i]
    ensures forall j: nat :: Visits(s, n, j) <==> j < |s.flags| && s.flags[j]
  {
    hide Steps, KernelStep, Visits;
    var m := ScanRest(s, 0);
    var s1 := Steps(s, m);
    EnterSum(s1);
    var s2 := Steps(s1, 1);
    var rest := LeaveRest(s2, 0);
    n := m + (1 + rest);
    StepsAdd(s1, 1, rest);
    StepsAdd(s, m, 1 + rest);
    forall j: nat ensures Visits(s, n, j) <==> j < |s.flags| && s.flags[j] {
      VisitsThrough(s, m, rest, j);
    }
  }

  lemma EnterSum(s: State)
    requires Ok(s) && s.pc == Scan(|s.flags|)
    ensures Steps(s, 1) == s.(pc := Sum(0, false))
  {
    FirstSteps(s);
    hide Steps;
  }

  lemma VisitsThrough(s: State, m: nat, rest: nat, j: nat)
    requires Ok(s) && Steps(s, m).pc == Scan(|s.flags|) && !Visits(Steps(Steps(s, m), 1), rest, j)
    ensures Visits(s, m + (1 + rest), j) <==> Visits(s, m, j)
  {
    var s1 := Steps(s, m);
    assert KernelStep(s1).pc == Sum(0, false);
    hide Steps, KernelStep, Visits;
    VisitsOne(s1, j);
    VisitsAdd(s1, 1, rest, j);
    VisitsAdd(s, m, 1 + rest, j);
  }

  lemma {:induction false} StepsSpin(s: State, n: nat, i: nat)
    requires Inv(s) && s.raising == 0 && Spinning(s, i)
    ensures Inv(Steps(s, n)) && Spinning(Steps(s, n), i)
  {
    if n > 0 {
      StepsSpin(s, n - 1, i);
      StepInv(Steps(s, n - 1), Kernel);
      StepSpins(Steps(s, n - 1), Kernel, i);
    }
  }

  /** Without interrupts it returns if and only if every pending softirq has a handler. */
  lemma ExecuteReturnsExactly(s: State)
    requires Inv(s) && s.raising == 0 && s.pc == Scan(0)
    ensures (exists n: nat :: Steps(s, n).pc == Yield) <==>
            forall i :: 0 <= i < |s.flags| && s.flags[i] ==> s.handled[i]
  {
    if i :| 0 <= i < |s.flags| && s.flags[i] && !s.handled[i] {
      forall n: nat ensures Steps(s, n).pc != Yield {
        StepsSpin(s, n, i);
      }
    } else {
      var n := ExecuteServes(s);
      assert Steps(s, n).pc == Yield;
    }
  }
}
