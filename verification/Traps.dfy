/** What one passage through the kernel comes to, step by step (kern/trap.c, kern/sched.c). Between the steps of one
    processor others may move, but not in the kernel. */
module Traps {
  import opened Options
  import opened Mmu
  import opened Envs
  import opened Smp
  import opened SmpInv

  /** The only thing processor c can do next. */
  ghost predicate Only(s: System, c: nat, ev: Event) {
    ev.c == c && Enabled(s, ev) && forall e: Event :: e.c == c && Enabled(s, e) ==> e == ev
  }

  ghost predicate Sane(s: System) { Shaped(s) && forall e :: e in s.efree ==> e < NENV }

  /** What trap does once trap_dispatch has returned: a current environment that still runs goes on in user mode, and
      nothing has changed for it; any other leaves the processor to the scheduler. */
  lemma FinishResumes(s: System, c: nat)
    requires Inv(s) && Sane(s) && Enabled(s, Finish(c))
    ensures var s' := Step(s, Finish(c));
            && Sane(s') && c < |s'.cpus| && s'.cpus[c].env == s.cpus[c].env && s'.envs == s.envs
            && if Has(s.envs, s.cpus[c].env, {Running}) then
                 && Only(s', c, Unlock(c))
                 && var u := Step(s', Unlock(c));
                    !u.locked && c < |u.cpus| && u.cpus[c].pc == User && u.cpus[c].env == s.cpus[c].env && u.envs == s.envs
               else Only(s', c, Resched(c))
  {
    hide SlotsOk, WaitersBlocked, Owned, LockOk, Apart;
    assert CpuOk(s.cpus[c], s.envs);
  }

  /** Where a system call or fault leads: yields to the scheduler, the end of the environment to the scheduler without
      it, anything else to the end of trap. */
  lemma DispatchLeads(s: System, c: nat, call: Call)
    requires Inv(s) && Sane(s) && Enabled(s, Dispatch(c, call))
    ensures s.cpus[c].env.Some? && s.cpus[c].env.value < NENV
    ensures var me, s' := s.cpus[c].env.value, Step(s, Dispatch(c, call));
            && c < |s'.cpus| && |s'.envs| == NENV
            && if call == Exit || (call.Destroy? && Envid2Env(s.envs, me, call.envid, true) == Some(me)) then
                 && s'.envs == s.envs[me := s.envs[me].(status := Free)] && s'.efree == [me] + s.efree
                 && s'.cpus[c].env == None && Only(s', c, Resched(c))
               else
                 && s'.cpus[c].env == s.cpus[c].env
                 && if call == Yield then s'.envs == s.envs && Only(s', c, Resched(c)) else Only(s', c, Finish(c))
  {
    hide SlotsOk, WaitersBlocked, Owned, LockOk, Apart;
    assert CpuOk(s.cpus[c], s.envs);
    CallKeepsCpus(s, s.cpus[c].env.value, call);
    hide Handle;
  }

  lemma CallKeepsCpus(s: System, me: nat, call: Call)
    requires Sane(s) && me < NENV
    ensures Handle(s, me, call).cpus == s.cpus && |Handle(s, me, call).envs| == NENV
    ensures call == Yield || call == Other ==> Handle(s, me, call) == s
  {
    assert s.efree != [] ==> s.efree[0] in s.efree;
  }

  /** The scheduler: some Runnable environment, else the one that ran, else the processor halts; and the monitor is
      for the case that no environment is Runnable, Running or Dying on any processor. */
  lemma ReschedLeads(s: System, c: nat)
    requires Inv(s) && Sane(s) && Enabled(s, Resched(c))
    ensures var s' := Step(s, Resched(c));
            && c < |s'.cpus| && |s'.envs| == NENV
            && if exists e :: 0 <= e < NENV && s.envs[e].status == Runnable then
                 && Only(s', c, Unlock(c)) && s'.cpus[c].pc == Leaving(true)
                 && Has(s.envs, s'.cpus[c].env, {Runnable}) && Has(s'.envs, s'.cpus[c].env, {Running})
               else if Has(s.envs, s.cpus[c].env, {Running}) then
                 && Only(s', c, Unlock(c)) && s'.cpus[c].pc == Leaving(true)
                 && s'.cpus[c].env == s.cpus[c].env && s'.envs == s.envs
               else if exists e :: 0 <= e < NENV && (s.envs[e].status == Running || s.envs[e].status == Dying) then
                 && Only(s', c, Unlock(c)) && s'.cpus[c].pc == Leaving(false)
                 && s'.cpus[c].env == None && s'.cpus[c].halted && s'.envs == s.envs
               else s'.cpus[c].pc == Monitor && s'.envs == s.envs
  {
    hide SlotsOk, WaitersBlocked, Owned, LockOk, Apart, Pick, StartSlot;
    assert CpuOk(s.cpus[c], s.envs);
    StartBelow(s, c);
    PickNearest(s.envs, StartSlot(s.envs, s.cpus[c].env));
    var r := Pick(s.envs, StartSlot(s.envs, s.cpus[c].env));
    if r == None && Has(s.envs, s.cpus[c].env, {Running}) {
      var e := s.cpus[c].env.value;
      assert s.envs[e := s.envs[e].(status := Running)] == s.envs;
    }
  }

  lemma StartBelow(s: System, c: nat)
    requires Sane(s) && c < |s.cpus|
    ensures StartSlot(s.envs, s.cpus[c].env) < NENV
  {}

  /** An interrupt wakes a halted processor: with the lock it goes to the scheduler, without an environment. */
  lemma HaltedWakes(s: System, c: nat)
    requires Inv(s) && Sane(s) && c < |s.cpus| && s.cpus[c].pc == Halted && !s.locked
    ensures Only(s, c, Trap(c))
    ensures var s1 := Step(s, Trap(c));
            && Sane(s1) && Only(s1, c, Xchg(c)) && !s1.locked && s1.envs == s.envs
            && var s2 := Step(s1, Xchg(c));
               && Sane(s2) && Only(s2, c, Collect(c)) && s2.locked && s2.envs == s.envs
               && var s3 := Step(s2, Collect(c));
                  Only(s3, c, Resched(c)) && s3.envs == s.envs && s3.cpus[c].env == None && !s3.cpus[c].halted
  {
    hide SlotsOk, WaitersBlocked, Owned, LockOk, Apart;
    assert CpuOk(s.cpus[c], s.envs);
  }

  /** A trap from user mode: with the lock, an environment that has been marked Dying ends, and any other has its
      system call or fault handled. */
  lemma UserTraps(s: System, c: nat)
    requires Inv(s) && Sane(s) && c < |s.cpus| && s.cpus[c].pc == User && !s.locked
    ensures Enabled(s, Trap(c)) && Has(s.envs, s.cpus[c].env, {Running, Dying})
    ensures var s1 := Step(s, Trap(c));
            && Sane(s1) && Only(s1, c, Xchg(c)) && !s1.locked && s1.envs == s.envs
            && var s2 := Step(s1, Xchg(c));
               && Sane(s2) && Only(s2, c, Collect(c)) && s2.locked && s2.envs == s.envs
               && var s3, e := Step(s2, Collect(c)), s.cpus[c].env.value;
                  && s3.locked && c < |s3.cpus|
                  && if s.envs[e].status == Dying then
                       Only(s3, c, Resched(c)) && s3.cpus[c].env == None && s3.envs == s.envs[e := s.envs[e].(status := Free)]
                     else s3.cpus[c].pc == Working && s3.cpus[c].env == Some(e) && s3.envs == s.envs
  {
    hide SlotsOk, WaitersBlocked, Owned, LockOk, Apart;
    assert CpuOk(s.cpus[c], s.envs);
  }
}
