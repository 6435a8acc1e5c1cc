/** Each kind of undisciplined system call can come up: one environment at boot, which makes a child with sys_exofork
    and starts it, on two processors (kern/syscall.c, kern/env.c). */
module Indiscipline {
  import opened Options
  import opened Mmu
  import opened Envs
  import opened Smp
  import opened SmpInv

  /** s occurs in a disciplined run from boot. */
  ghost predicate Reached(s: System) {
    exists states: seq<System>, events: seq<Event>, b: nat ::
      Run(states, events) && Booted(states[0], b) && states[|events|] == s
  }

  lemma ReachedInv(s: System)
    requires Reached(s)
    ensures Inv(s) && Shaped(s) && forall e :: e in s.efree ==> e < NENV
  {
    var states, events, b: nat :| Run(states, events) && Booted(states[0], b) && states[|events|] == s;
    BootedInv(states[0], b);
    RunKeeps(states, events, |events|);
    InvShaped(s);
  }

  lemma ReachedStep(s: System, ev: Event)
    requires Reached(s) && Enabled(s, ev) && Shaped(s) && forall e :: e in s.efree ==> e < NENV
    requires ev.Dispatch? ==> s.cpus[ev.c].env.value < NENV && Disciplined(s.envs, s.cpus[ev.c].env.value, ev.call)
    ensures Reached(Step(s, ev))
  {
    hide Booted, Disciplined, Step, Enabled;
    var states, events, b: nat :| Run(states, events) && Booted(states[0], b) && states[|events|] == s;
    var states', events' := states + [Step(s, ev)], events + [ev];
    forall k | 0 <= k < |events'| ensures Next(states'[k], events'[k], states'[k + 1]) {
      if k < |events| {
        assert Next(states[k], events[k], states[k + 1]);
      }
    }
    assert Run(states', events') && states'[0] == states[0] && states'[|events'|] == Step(s, ev);
  }

  const PARENT := 0x1000
  const CHILD := 0x1001

  /** Slots 0 and 1 hold a parent and its child, the other slots nothing. */
  ghost predicate Family(envs: seq<Env>, parent: Status, child: Status, waiting: bool) {
    && |envs| == NENV
    && envs[0].id == PARENT && envs[0].status == parent && !envs[0].recving
    && envs[1].id == CHILD && envs[1].parent == PARENT && envs[1].status == child && envs[1].recving == waiting
    && forall e :: 2 <= e < NENV ==> envs[e].status == Free
  }

  /** Two processors. */
  ghost predicate Two(s: System, pc0: Pc, env0: Option<nat>, pc1: Pc, env1: Option<nat>, locked: bool) {
    |s.cpus| == 2 && s.cpus[0].pc == pc0 && s.cpus[0].env == env0 && s.cpus[1].pc == pc1 && s.cpus[1].env == env1 && s.locked == locked
  }

  lemma ChildFound(envs: seq<Env>, parent: Status, child: Status, waiting: bool)
    requires Family(envs, parent, child, waiting) && child != Free
    ensures Envid2Env(envs, 0, CHILD, true) == Some(1)
  {}

  // ---------------------------------------------------------------- boot

  /** The first environment alone, its slot 0, slot 1 the next to be taken. */
  ghost predicate Alone(s: System, parent: Status) {
    && |s.envs| == NENV
    && s.envs[0].id == PARENT && s.envs[0].status == parent && !s.envs[0].recving
    && s.envs[1].id == 0 && |s.efree| > 0 && s.efree[0] == 1
    && forall e :: 1 <= e < NENV ==> s.envs[e].status == Free
  }

  function FirstEnvs(): seq<Env> {
    seq(NENV, (e: nat) => if e == 0 then Env(PARENT, 0, Runnable, 0, false, 0, 0, 0, 0)
                          else Env(0, 0, Free, 0, false, 0, 0, 0, 0))
  }

  function FirstState(): System {
    System(true, [Cpu(Yielding, None, false, 1, 1, 0), Cpu(Spinning(false, 1), None, false, 1, 0, 0)],
           FirstEnvs(), seq(NENV - 1, (i: nat) => i + 1), seq(NENV, (e: nat) => Mailbox([], [], false)))
  }

  lemma FirstReached()
    ensures Reached(FirstState())
    ensures Two(FirstState(), Yielding, None, Spinning(false, 1), None, true) && Alone(FirstState(), Runnable)
  {
    var s := FirstState();
    assert NthId(0, 1) == PARENT;
    forall e | 0 <= e < NENV ensures e in s.efree <==> s.envs[e].status == Free {
      if e >= 1 {
        assert s.efree[e - 1] == e;
      }
    }
    assert SlotsOk(s.envs, s.efree);
    var none: seq<Event> := [];
    assert Run([s], none) && Booted([s][0], 0) && [s][|none|] == s;
  }

  lemma PicksFirst(envs: seq<Env>)
    requires |envs| == NENV && envs[0].status == Runnable
    ensures Pick(envs, 0) == Some(0)
  {
    PickNearest(envs, 0);
    assert Distance(0, 0) == 0;
  }

  lemma PicksOnly(envs: seq<Env>, start: nat, i: nat)
    requires |envs| == NENV && start < NENV && i < NENV
    requires forall e :: 0 <= e < NENV ==> (envs[e].status == Runnable <==> e == i)
    ensures Pick(envs, start) == Some(i)
  {
    PickNearest(envs, start);
    assert envs[i].status == Runnable;
  }

  // ---------------------------------------------------------------- in and out of the kernel

  /** Processor c traps with its running environment. */
  lemma Enters(s: System, c: nat) returns (t: System)
    requires Reached(s) && c < |s.cpus| && s.cpus[c].pc == User && !s.locked && Has(s.envs, s.cpus[c].env, {Running})
    ensures Reached(t) && |t.cpus| == |s.cpus| && t.cpus[c].pc == Working && t.cpus[c].env == s.cpus[c].env && t.locked
    ensures t.envs == s.envs && t.efree == s.efree && forall d :: 0 <= d < |s.cpus| && d != c ==> t.cpus[d] == s.cpus[d]
  {
    ReachedInv(s);
    assert CpuOk(s.cpus[c], s.envs);
    hide Reached, Inv;
    ReachedStep(s, Trap(c));
    t := Step(s, Trap(c));
    ReachedInv(t);
    ReachedStep(t, Xchg(c));
    t := Step(t, Xchg(c));
    ReachedInv(t);
    ReachedStep(t, Collect(c));
    t := Step(t, Collect(c));
  }

  /** It returns to that environment after a call. */
  lemma Leaves(s: System, c: nat) returns (t: System)
    requires Reached(s) && c < |s.cpus| && s.cpus[c].pc == Ending && Has(s.envs, s.cpus[c].env, {Running})
    ensures Reached(t) && |t.cpus| == |s.cpus| && t.cpus[c].pc == User && t.cpus[c].env == s.cpus[c].env && !t.locked
    ensures t.envs == s.envs && t.efree == s.efree && forall d :: 0 <= d < |s.cpus| && d != c ==> t.cpus[d] == s.cpus[d]
  {
    ReachedInv(s);
    hide Reached, Inv;
    ReachedStep(s, Finish(c));
    t := Step(s, Finish(c));
    assert t.envs == s.envs;
    ReachedInv(t);
    ReachedStep(t, Unlock(c));
    t := Step(t, Unlock(c));
  }

  // ---------------------------------------------------------------- parent and child run

  /** Processor 0 runs the parent, which makes a child and starts it, and processor 1 takes the child. */
  lemma BothRunning() returns (s: System)
    ensures Reached(s) && Two(s, User, Some(0), User, Some(1), false) && Family(s.envs, Running, Running, false)
  {
    FirstReached();
    s := FirstState();
    hide Reached, Inv, FirstState, FirstEnvs, Pick;
    s := FirstRuns(s);
    s := Enters(s, 0);
    s := Forks(s);
    s := Leaves(s, 0);
    s := Enters(s, 0);
    s := Starts(s);
    s := Leaves(s, 0);
    s := Waits(s);
    s := SecondRuns(s);
  }

  lemma FirstRuns(s: System) returns (t: System)
    requires Reached(s) && Two(s, Yielding, None, Spinning(false, 1), None, true) && Alone(s, Runnable)
    ensures Reached(t) && Two(t, User, Some(0), Spinning(false, 1), None, false) && Alone(t, Running)
  {
    ReachedInv(s);
    hide Reached, Inv, Pick;
    PicksFirst(s.envs);
    ReachedStep(s, Resched(0));
    t := Step(s, Resched(0));
    ReachedInv(t);
    ReachedStep(t, Unlock(0));
    t := Step(t, Unlock(0));
  }

  lemma Forks(s: System) returns (t: System)
    requires Reached(s) && Two(s, Working, Some(0), Spinning(false, 1), None, true) && Alone(s, Running)
    ensures Reached(t) && Two(t, Ending, Some(0), Spinning(false, 1), None, true) && Family(t.envs, Running, NotRunnable, false)
  {
    ReachedInv(s);
    hide Reached, Inv;
    assert NextId(0, 1) == CHILD;
    ReachedStep(s, Dispatch(0, Exofork(true)));
    t := Step(s, Dispatch(0, Exofork(true)));
  }

  lemma Starts(s: System) returns (t: System)
    requires Reached(s) && Two(s, Working, Some(0), Spinning(false, 1), None, true) && Family(s.envs, Running, NotRunnable, false)
    ensures Reached(t) && Two(t, Ending, Some(0), Spinning(false, 1), None, true) && Family(t.envs, Running, Runnable, false)
  {
    ReachedInv(s);
    hide Reached, Inv;
    ChildFound(s.envs, Running, NotRunnable, false);
    ReachedStep(s, Dispatch(0, SetStatus(CHILD, Runnable)));
    t := Step(s, Dispatch(0, SetStatus(CHILD, Runnable)));
  }

  lemma Waits(s: System) returns (t: System)
    requires Reached(s) && Two(s, User, Some(0), Spinning(false, 1), None, false) && Family(s.envs, Running, Runnable, false)
    ensures Reached(t) && Two(t, User, Some(0), Yielding, None, true) && t.envs == s.envs
  {
    ReachedInv(s);
    hide Reached, Inv;
    ReachedStep(s, Xchg(1));
    t := Step(s, Xchg(1));
    ReachedInv(t);
    ReachedStep(t, Collect(1));
    t := Step(t, Collect(1));
  }

  lemma SecondRuns(s: System) returns (t: System)
    requires Reached(s) && Two(s, User, Some(0), Yielding, None, true) && Family(s.envs, Running, Runnable, false)
    ensures Reached(t) && Two(t, User, Some(0), User, Some(1), false) && Family(t.envs, Running, Running, false)
  {
    ReachedInv(s);
    hide Reached, Inv, Pick;
    PicksOnly(s.envs, 0, 1);
    ReachedStep(s, Resched(1));
    t := Step(s, Resched(1));
    ReachedInv(t);
    ReachedStep(t, Unlock(1));
    t := Step(t, Unlock(1));
  }

  // ---------------------------------------------------------------- the calls

  /** A parent sets the status of a child that runs on the other processor. */
  lemma SetStatusOfRunning() returns (s: System, call: Call)
    ensures Reached(s) && call == SetStatus(CHILD, NotRunnable) && Enabled(s, Dispatch(0, call)) && s.cpus[0].env == Some(0)
    ensures |s.envs| == NENV && s.envs[1].status == Running && !Disciplined(s.envs, 0, call)
  {
    s := BothRunning();
    hide Reached;
    s := Enters(s, 0);
    call := SetStatus(CHILD, NotRunnable);
    ChildFound(s.envs, Running, Running, false);
  }

  /** A parent destroys a child twice, while it runs on the other processor. */
  lemma DestroyTwice() returns (s: System, call: Call)
    ensures Reached(s) && call == Destroy(CHILD) && Enabled(s, Dispatch(0, call)) && s.cpus[0].env == Some(0)
    ensures |s.envs| == NENV && s.envs[1].status == Dying && !Disciplined(s.envs, 0, call)
  {
    s := BothRunning();
    hide Reached, Inv;
    s := Enters(s, 0);
    call := Destroy(CHILD);
    s := Destroys(s);
    s := Leaves(s, 0);
    s := Enters(s, 0);
    ChildFound(s.envs, Running, Dying, false);
  }

  lemma Destroys(s: System) returns (t: System)
    requires Reached(s) && Two(s, Working, Some(0), User, Some(1), true) && Family(s.envs, Running, Running, false)
    ensures Reached(t) && Two(t, Ending, Some(0), User, Some(1), true) && Family(t.envs, Running, Dying, false)
  {
    ReachedInv(s);
    hide Reached, Inv;
    ChildFound(s.envs, Running, Running, false);
    ReachedStep(s, Dispatch(0, Destroy(CHILD)));
    t := Step(s, Dispatch(0, Destroy(CHILD)));
  }

  /** And setting the status of a Dying child. */
  lemma SetStatusOfDying() returns (s: System, call: Call)
    ensures Reached(s) && call == SetStatus(CHILD, NotRunnable) && Enabled(s, Dispatch(0, call)) && s.cpus[0].env == Some(0)
    ensures |s.envs| == NENV && s.envs[1].status == Dying && !Disciplined(s.envs, 0, call)
  {
    s := BothRunning();
    hide Reached, Inv;
    s := Enters(s, 0);
    call := SetStatus(CHILD, NotRunnable);
    s := Destroys(s);
    s := Leaves(s, 0);
    s := Enters(s, 0);
    ChildFound(s.envs, Running, Dying, false);
  }

  /** A parent wakes a child that waits for a message. */
  lemma WakeReceiver() returns (s: System, call: Call)
    ensures Reached(s) && call == SetStatus(CHILD, Runnable) && Enabled(s, Dispatch(0, call)) && s.cpus[0].env == Some(0)
    ensures |s.envs| == NENV && s.envs[1].recving && !Disciplined(s.envs, 0, call)
  {
    s := BothRunning();
    hide Reached, Inv;
    s := Enters(s, 1);
    s := Receives(s);
    s := Blocks(s);
    s := Halts(s);
    s := Enters(s, 0);
    call := SetStatus(CHILD, Runnable);
    ChildFound(s.envs, Running, NotRunnable, true);
  }

  lemma Receives(s: System) returns (t: System)
    requires Reached(s) && Two(s, User, Some(0), Working, Some(1), true) && Family(s.envs, Running, Running, false)
    ensures Reached(t) && Two(t, User, Some(0), Ending, Some(1), true) && Family(t.envs, Running, NotRunnable, true)
  {
    ReachedInv(s);
    hide Reached, Inv;
    ReachedStep(s, Dispatch(1, Recv(UTOP)));
    t := Step(s, Dispatch(1, Recv(UTOP)));
  }

  lemma Blocks(s: System) returns (t: System)
    requires Reached(s) && Two(s, User, Some(0), Ending, Some(1), true) && Family(s.envs, Running, NotRunnable, true)
    ensures Reached(t) && Two(t, User, Some(0), Yielding, Some(1), true) && t.envs == s.envs
  {
    ReachedInv(s);
    hide Reached, Inv;
    ReachedStep(s, Finish(1));
    t := Step(s, Finish(1));
  }

  /** Nothing is runnable, but the parent still runs. */
  lemma NoneToRun(s: System)
    requires Shaped(s) && Two(s, User, Some(0), Yielding, Some(1), true) && Family(s.envs, Running, NotRunnable, true)
    ensures SchedYield(s, 1) == SchedHalt(s, 1) && !Idle(s.envs)
  {
    hide Pick;
    PickNearest(s.envs, StartSlot(s.envs, Some(1)));
    assert s.envs[0].status == Running;
  }

  lemma FindsNone(s: System) returns (t: System)
    requires Reached(s) && Two(s, User, Some(0), Yielding, Some(1), true) && Family(s.envs, Running, NotRunnable, true)
    ensures Reached(t) && Two(t, User, Some(0), Leaving(false), None, true) && t.envs == s.envs
  {
    ReachedInv(s);
    NoneToRun(s);
    hide Reached, Inv, Pick, SchedYield, Idle;
    ReachedStep(s, Resched(1));
    t := Step(s, Resched(1));
  }

  lemma Halts(s: System) returns (t: System)
    requires Reached(s) && Two(s, User, Some(0), Yielding, Some(1), true) && Family(s.envs, Running, NotRunnable, true)
    ensures Reached(t) && Two(t, User, Some(0), Halted, None, false) && t.envs == s.envs
  {
    ReachedInv(s);
    hide Reached, Inv, Pick;
    t := FindsNone(s);
    ReachedInv(t);
    ReachedStep(t, Unlock(1));
    t := Step(t, Unlock(1));
  }
}
