/** One environment, one processor: what every step of the multiprocessor kernel keeps. */
module SmpInv {
  import opened Options
  import opened Mmu
  import opened Envs
  import opened Smp

  // ---------------------------------------------------------------- steps that leave envs[] alone

  /** A step that changes only where processor c is. */
  lemma Moved(cpus: seq<Cpu>, envs: seq<Env>, c: nat, x: Cpu)
    requires c < |cpus| && x.env == cpus[c].env && CpuOk(x, envs)
    requires CpusOk(cpus, envs) && Apart(cpus) && Owned(cpus, envs)
    ensures CpusOk(cpus[c := x], envs) && Apart(cpus[c := x]) && Owned(cpus[c := x], envs)
  {
    forall e: nat | IsCurrent(cpus, e) ensures IsCurrent(cpus[c := x], e) {
      var d :| 0 <= d < |cpus| && cpus[d].env == Some(e);
      assert cpus[c := x][d].env == Some(e);
    }
  }

  /** Between lock_kernel and unlock_kernel the lock stays with processor c. */
  lemma StillHeld(locked: bool, cpus: seq<Cpu>, c: nat, x: Cpu)
    requires LockOk(locked, cpus) && c < |cpus| && InKernel(cpus[c].pc) && InKernel(x.pc)
    ensures LockOk(locked, cpus[c := x])
  {
    assert cpus[c := x][c] == x;
  }

  lemma StillOutside(locked: bool, cpus: seq<Cpu>, c: nat, x: Cpu)
    requires LockOk(locked, cpus) && c < |cpus| && !InKernel(cpus[c].pc) && !InKernel(x.pc)
    ensures LockOk(locked, cpus[c := x])
  {
    if locked {
      var d :| 0 <= d < |cpus| && InKernel(cpus[d].pc);
      assert cpus[c := x][d] == cpus[d];
    }
  }

  lemma TakesLock(cpus: seq<Cpu>, c: nat, x: Cpu)
    requires LockOk(false, cpus) && c < |cpus| && InKernel(x.pc)
    ensures LockOk(true, cpus[c := x])
  {
    assert cpus[c := x][c] == x;
    assert forall d :: 0 <= d < |cpus| ==> !InKernel(cpus[d].pc);
  }

  lemma DropsLock(locked: bool, cpus: seq<Cpu>, c: nat, x: Cpu)
    requires LockOk(locked, cpus) && c < |cpus| && InKernel(cpus[c].pc) && !InKernel(x.pc)
    ensures locked && LockOk(false, cpus[c := x])
  {
    assert forall d :: 0 <= d < |cpus| && d != c ==> !InKernel(cpus[d].pc);
  }

  lemma TrapKeeps(s: System, c: nat)
    requires Inv(s) && Enabled(s, Trap(c))
    ensures Inv(Step(s, Trap(c)))
  {
    InvShaped(s);
    hide SlotsOk, WaitersBlocked, LockOk, Owned, Apart;
    var x := Step(s, Trap(c)).cpus[c];
    assert CpuOk(s.cpus[c], s.envs);
    Moved(s.cpus, s.envs, c, x);
    StillOutside(s.locked, s.cpus, c, x);
  }

  lemma XchgKeeps(s: System, c: nat)
    requires Inv(s) && Enabled(s, Xchg(c))
    ensures Inv(Step(s, Xchg(c)))
  {
    InvShaped(s);
    hide SlotsOk, WaitersBlocked, LockOk, Owned, Apart;
    var x := Step(s, Xchg(c)).cpus[c];
    assert CpuOk(s.cpus[c], s.envs);
    Moved(s.cpus, s.envs, c, x);
    if !s.locked {
      TakesLock(s.cpus, c, x);
    }
  }

  lemma UnlockKeeps(s: System, c: nat)
    requires Inv(s) && Enabled(s, Unlock(c))
    ensures Inv(Step(s, Unlock(c)))
  {
    InvShaped(s);
    hide SlotsOk, WaitersBlocked, LockOk, Owned, Apart;
    var x := Step(s, Unlock(c)).cpus[c];
    assert CpuOk(s.cpus[c], s.envs);
    Moved(s.cpus, s.envs, c, x);
    DropsLock(s.locked, s.cpus, c, x);
  }

  // ---------------------------------------------------------------- steps that change which environment runs

  /** In the kernel, the other processors are outside it with Running or Dying environments, none of them c's. */
  lemma Others(s: System, c: nat, d: nat)
    requires Inv(s) && c < |s.cpus| && d < |s.cpus| && d != c && InKernel(s.cpus[c].pc)
    ensures !InKernel(s.cpus[d].pc) && CpuOk(s.cpus[d], s.envs)
    ensures s.cpus[d].env == None || Has(s.envs, s.cpus[d].env, {Running, Dying})
    ensures s.cpus[d].env.Some? ==> s.cpus[d].env != s.cpus[c].env
  {
    hide SlotsOk, WaitersBlocked, Owned;
    assert CpuOk(s.cpus[d], s.envs);
  }

  /** A change to envs[] that leaves alone the environments current elsewhere. */
  lemma OthersKept(s: System, c: nat, x: Cpu, envs: seq<Env>)
    requires Inv(s) && c < |s.cpus| && InKernel(s.cpus[c].pc) && InKernel(x.pc) && |envs| == |s.envs|
    requires CpuOk(x, envs)
    requires x.env == None || x.env == s.cpus[c].env || !Has(s.envs, x.env, {Running, Dying})
    requires forall e :: 0 <= e < |envs| && s.cpus[c].env != Some(e) && s.envs[e].status in {Running, Dying} ==>
               envs[e].status == s.envs[e].status
               || (s.envs[e].status == Running && envs[e].status == Dying)
    ensures CpusOk(s.cpus[c := x], envs) && Apart(s.cpus[c := x]) && LockOk(s.locked, s.cpus[c := x])
  {
    hide SlotsOk, WaitersBlocked, Owned;
    StillHeld(s.locked, s.cpus, c, x);
    forall d | 0 <= d < |s.cpus| && d != c
      ensures CpuOk(s.cpus[d], envs) && (x.env.Some? ==> s.cpus[d].env != x.env)
    {
      Others(s, c, d);
    }
  }

  /** Whatever is Running or Dying afterwards was so before on another processor, or is c's. */
  lemma StillOwned(cpus: seq<Cpu>, envs: seq<Env>, c: nat, x: Cpu, envs': seq<Env>)
    requires Owned(cpus, envs) && c < |cpus| && |envs'| == |envs|
    requires forall e :: 0 <= e < |envs| && envs'[e].status in {Running, Dying} ==>
               x.env == Some(e) || (envs[e].status in {Running, Dying} && cpus[c].env != Some(e))
    ensures Owned(cpus[c := x], envs')
  {
    forall e | 0 <= e < |envs| && envs'[e].status in {Running, Dying} ensures IsCurrent(cpus[c := x], e) {
      if x.env == Some(e) {
        assert cpus[c := x][c].env == Some(e);
      } else {
        var d :| 0 <= d < |cpus| && cpus[d].env == Some(e);
        assert cpus[c := x][d].env == Some(e);
      }
    }
  }

  /** May env_run(e) be called on a processor whose current environment is cur? */
  predicate MayRun(envs: seq<Env>, cur: Option<nat>, e: nat) {
    && e < |envs|
    && (cur == None || Has(envs, cur, {Running, Runnable, NotRunnable}))
    && (envs[e].status == Runnable || (cur == Some(e) && envs[e].status == Running))
  }

  lemma EnvRunKeeps(s: System, c: nat, e: nat)
    requires Inv(s) && c < |s.cpus| && InKernel(s.cpus[c].pc) && MayRun(s.envs, s.cpus[c].env, e)
    requires !s.cpus[c].halted
    ensures Inv(EnvRun(s, c, e))
  {
    InvShaped(s);
    assert CpuOk(s.cpus[c], s.envs);
    hide Apart, LockOk, Owned, CpusOk;
    var s' := EnvRun(s, c, e);
    OthersKept(s, c, s'.cpus[c], s'.envs);
    StillOwned(s.cpus, s.envs, c, s'.cpus[c], s'.envs);
  }

  /** sched_halt, reached when nothing is runnable and the current environment, if any, is not running. */
  lemma HaltKeeps(s: System, c: nat)
    requires Inv(s) && Enabled(s, Resched(c)) && forall i :: 0 <= i < NENV ==> s.envs[i].status != Runnable
    requires s.cpus[c].env.Some? ==> !Has(s.envs, s.cpus[c].env, {Running})
    ensures Inv(SchedHalt(s, c))
  {
    InvShaped(s);
    assert CpuOk(s.cpus[c], s.envs);
    var s' := SchedHalt(s, c);
    hide Apart, LockOk, Owned, CpusOk, SlotsOk, Idle;
    OthersKept(s, c, s'.cpus[c], s.envs);
    StillOwned(s.cpus, s.envs, c, s'.cpus[c], s.envs);
  }

  lemma ReschedKeeps(s: System, c: nat)
    requires Inv(s) && Enabled(s, Resched(c))
    ensures Inv(Step(s, Resched(c)))
  {
    InvShaped(s);
    assert CpuOk(s.cpus[c], s.envs);
    hide Apart, LockOk, Owned, CpusOk, SlotsOk, WaitersBlocked, Pick, EnvRun, SchedHalt;
    var cur := s.cpus[c].env;
    PickNearest(s.envs, StartSlot(s.envs, cur));
    var r := Pick(s.envs, StartSlot(s.envs, cur));
    if r.Some? {
      EnvRunKeeps(s, c, r.value);
    } else if cur.Some? && s.envs[cur.value].status == Running {
      EnvRunKeeps(s, c, cur.value);
    } else {
      HaltKeeps(s, c);
    }
  }

  lemma FinishKeeps(s: System, c: nat)
    requires Inv(s) && Enabled(s, Finish(c))
    ensures Inv(Step(s, Finish(c)))
  {
    InvShaped(s);
    var x := s.cpus[c];
    assert CpuOk(x, s.envs);
    if x.env.Some? && s.envs[x.env.value].status == Running {
      EnvRunKeeps(s, c, x.env.value);
    } else {
      hide Apart, LockOk, Owned, CpusOk, SlotsOk;
      Moved(s.cpus, s.envs, c, x.(pc := Yielding));
      StillHeld(s.locked, s.cpus, c, x.(pc := Yielding));
    }
  }

  // ---------------------------------------------------------------- destroying environments

  lemma SlotFreed(envs: seq<Env>, efree: seq<nat>, e: nat)
    requires SlotsOk(envs, efree) && e < NENV && envs[e].status != Free
    ensures SlotsOk(envs[e := envs[e].(status := Free)], [e] + efree)
  {
    assert forall f :: f in [e] + efree <==> f == e || f in efree;
  }

  lemma ExitedKeeps(s: System, c: nat)
    requires Inv(s) && c < |s.cpus| && (s.cpus[c].pc == Working || s.cpus[c].pc == Entered(true)) && s.cpus[c].env.Some?
    ensures s.cpus[c].env.value < NENV && Inv(Exited(s, c, s.cpus[c].env.value))
  {
    InvShaped(s);
    var x := s.cpus[c];
    assert CpuOk(x, s.envs);
    var e := x.env.value;
    SlotFreed(s.envs, s.efree, e);
    var s' := Exited(s, c, e);
    hide Apart, LockOk, Owned, CpusOk, SlotsOk;
    OthersKept(s, c, s'.cpus[c], s'.envs);
    StillOwned(s.cpus, s.envs, c, s'.cpus[c], s'.envs);
  }

  lemma CollectKeeps(s: System, c: nat)
    requires Inv(s) && Enabled(s, Collect(c))
    ensures Inv(Step(s, Collect(c)))
  {
    InvShaped(s);
    var x := s.cpus[c];
    assert CpuOk(x, s.envs);
    if x.pc.user && s.envs[x.env.value].status == Dying {
      ExitedKeeps(s, c);
    } else {
      hide Apart, LockOk, Owned, CpusOk, SlotsOk;
      var y := x.(pc := if x.pc.user then Working else Yielding);
      Moved(s.cpus, s.envs, c, y);
      StillHeld(s.locked, s.cpus, c, y);
    }
  }

  // ---------------------------------------------------------------- system calls

  /** Calls used as the user library uses them: nobody changes the status of an environment that is running
      elsewhere or wakes one that waits for a message, and nobody destroys an environment twice. */
  predicate Disciplined(envs: seq<Env>, me: nat, call: Call)
    requires |envs| == NENV && me < NENV
  {
    match call
    case Destroy(envid) =>
      var t := Envid2Env(envs, me, envid, true);
      t.Some? && t.value != me ==> envs[t.value].status != Dying
    case SetStatus(envid, status) =>
      var t := Envid2Env(envs, me, envid, true);
      t.Some? && (status == Runnable || status == NotRunnable) ==>
        && (t.value != me ==> envs[t.value].status != Running && envs[t.value].status != Dying)
        && (status == Runnable ==> !envs[t.value].recving)
    case _ => true
  }

  /** The table part of the invariant after one entry changes. */
  lemma EntryChanged(envs: seq<Env>, efree: seq<nat>, t: nat, x: Env)
    requires SlotsOk(envs, efree) && WaitersBlocked(envs) && t < NENV && x.id == envs[t].id
    requires x.status == Free <==> envs[t].status == Free
    requires x.recving && x.status != Free ==> x.status == NotRunnable
    ensures SlotsOk(envs[t := x], efree) && WaitersBlocked(envs[t := x])
  {}

  /** The processor part: entry t changes while c handles a call. */
  lemma EntrySafe(s: System, c: nat, t: nat, x: Env, y: Cpu)
    requires Inv(s) && c < |s.cpus| && s.cpus[c].pc == Working && t < NENV
    requires y == s.cpus[c].(pc := Ending) || y == s.cpus[c].(pc := Yielding)
    requires s.cpus[c].env == Some(t) ==> x.status in {Running, Runnable, NotRunnable}
    requires s.cpus[c].env != Some(t) && s.envs[t].status in {Running, Dying} ==>
               x.status == s.envs[t].status || (s.envs[t].status == Running && x.status == Dying)
    requires s.cpus[c].env != Some(t) && s.envs[t].status !in {Running, Dying} ==> x.status !in {Running, Dying}
    ensures CpusOk(s.cpus[c := y], s.envs[t := x]) && Apart(s.cpus[c := y]) && LockOk(s.locked, s.cpus[c := y])
    ensures Owned(s.cpus[c := y], s.envs[t := x])
  {
    InvShaped(s);
    assert CpuOk(s.cpus[c], s.envs);
    hide Apart, LockOk, Owned, CpusOk, SlotsOk, WaitersBlocked;
    OthersKept(s, c, y, s.envs[t := x]);
    StillOwned(s.cpus, s.envs, c, y, s.envs[t := x]);
  }

  /** What the slot of a new environment becomes. */
  lemma SlotTaken(envs: seq<Env>, efree: seq<nat>, x: Env)
    requires SlotsOk(envs, efree) && WaitersBlocked(envs) && efree != [] && efree[0] < NENV
    requires x.id == NextId(envs[efree[0]].id, efree[0]) && x.status != Free && !x.recving
    ensures SlotsOk(envs[efree[0] := x], efree[1..]) && WaitersBlocked(envs[efree[0] := x])
  {
    var e := efree[0];
    assert e in efree;
    FreshId(envs[e].id, e);
    assert forall f :: f in efree <==> f == e || f in efree[1..];
    assert forall i :: 0 <= i < |efree[1..]| ==> efree[1..][i] == efree[i + 1];
  }

  lemma DestroyKeeps(s: System, c: nat, envid: int)
    requires Inv(s) && Enabled(s, Dispatch(c, Destroy(envid))) && s.cpus[c].env.value < NENV
    requires !Exits(s.envs, s.cpus[c].env.value, Destroy(envid))
    requires Disciplined(s.envs, s.cpus[c].env.value, Destroy(envid))
    ensures Inv(Step(s, Dispatch(c, Destroy(envid))))
  {
    InvShaped(s);
    assert CpuOk(s.cpus[c], s.envs);
    var me, y := s.cpus[c].env.value, s.cpus[c].(pc := Ending);
    var t := Envid2Env(s.envs, me, envid, true);
    if t.Some? {
      var e := t.value;
      assert s.envs[e].status != Free;
      if s.envs[e].status == Running {
        EntryChanged(s.envs, s.efree, e, s.envs[e].(status := Dying));
        EntrySafe(s, c, e, s.envs[e].(status := Dying), y);
      } else {
        SlotFreed(s.envs, s.efree, e);
        EntrySafe(s, c, e, s.envs[e].(status := Free), y);
      }
    } else {
      EntrySafe(s, c, me, s.envs[me], y);
      assert s.envs[me := s.envs[me]] == s.envs;
    }
  }

  lemma ExoforkKeeps(s: System, c: nat, memory: bool)
    requires Inv(s) && Enabled(s, Dispatch(c, Exofork(memory)))
    ensures Inv(Step(s, Dispatch(c, Exofork(memory))))
  {
    InvShaped(s);
    assert CpuOk(s.cpus[c], s.envs);
    var me, y := s.cpus[c].env.value, s.cpus[c].(pc := Ending);
    if s.efree == [] || !memory {
      EntrySafe(s, c, me, s.envs[me], y);
      assert s.envs[me := s.envs[me]] == s.envs;
    } else {
      var e := s.efree[0];
      assert e in s.efree;
      var x := Fresh(s.envs[e], e, s.envs[me].id).(status := NotRunnable);
      SlotTaken(s.envs, s.efree, x);
      EntrySafe(s, c, e, x, y);
    }
  }

  lemma SetStatusKeeps(s: System, c: nat, envid: int, status: Status)
    requires Inv(s) && Enabled(s, Dispatch(c, SetStatus(envid, status))) && s.cpus[c].env.value < NENV
    requires Disciplined(s.envs, s.cpus[c].env.value, SetStatus(envid, status))
    ensures Inv(Step(s, Dispatch(c, SetStatus(envid, status))))
  {
    InvShaped(s);
    assert CpuOk(s.cpus[c], s.envs);
    var me, y := s.cpus[c].env.value, s.cpus[c].(pc := Ending);
    var t := Envid2Env(s.envs, me, envid, true);
    if (status != Runnable && status != NotRunnable) || t == None {
      EntrySafe(s, c, me, s.envs[me], y);
      assert s.envs[me := s.envs[me]] == s.envs;
    } else {
      var e := t.value;
      assert s.envs[e].status != Free;
      EntryChanged(s.envs, s.efree, e, s.envs[e].(status := status));
      EntrySafe(s, c, e, s.envs[e].(status := status), y);
    }
  }

  /** The calls that change one entry without changing which slots are free. */
  lemma MessageKeeps(s: System, c: nat, call: Call)
    requires Inv(s) && Enabled(s, Dispatch(c, call))
    requires call.TrySend? || call.Recv? || call.SetUpcall? || call.Other? || call.Yield?
    ensures Inv(Step(s, Dispatch(c, call)))
  {
    InvShaped(s);
    assert CpuOk(s.cpus[c], s.envs);
    hide Apart, LockOk, Owned, CpusOk;
    var me, s' := s.cpus[c].env.value, Step(s, Dispatch(c, call));
    var y := s'.cpus[c];
    var t := match call
      case TrySend(envid, _, _, _, _) => Envid2Env(s.envs, me, envid, false)
      case SetUpcall(envid, _) => Envid2Env(s.envs, me, envid, false)
      case _ => Some(me);
    var e := if t.Some? then t.value else me;
    var x := s'.envs[e];
    assert s'.envs == s.envs[e := x];
    assert s.envs[e].status != Free;
    EntryChanged(s.envs, s.efree, e, x);
    EntrySafe(s, c, e, x, y);
  }

  lemma DispatchKeeps(s: System, c: nat, call: Call)
    requires Inv(s) && Enabled(s, Dispatch(c, call)) && s.cpus[c].env.value < NENV
    requires Disciplined(s.envs, s.cpus[c].env.value, call)
    ensures Inv(Step(s, Dispatch(c, call)))
  {
    InvShaped(s);
    hide WaitersBlocked, CpusOk, Apart, Owned, LockOk, Handle, Disciplined;
    if Exits(s.envs, s.cpus[c].env.value, call) {
      ExitedKeeps(s, c);
    } else {
      match call
      case Destroy(envid) => DestroyKeeps(s, c, envid);
      case Exofork(memory) => ExoforkKeeps(s, c, memory);
      case SetStatus(envid, status) => SetStatusKeeps(s, c, envid, status);
      case _ => MessageKeeps(s, c, call);
    }
  }

  /** An undisciplined call breaks the invariant at once. */
  lemma IndisciplineBreaks(s: System, c: nat, call: Call)
    requires Inv(s) && Enabled(s, Dispatch(c, call)) && s.cpus[c].env.value < NENV
    requires !Disciplined(s.envs, s.cpus[c].env.value, call)
    ensures !Inv(Step(s, Dispatch(c, call)))
  {
    var me, s' := s.cpus[c].env.value, Step(s, Dispatch(c, call));
    assert CpuOk(s.cpus[c], s.envs);
    var t := Envid2Env(s.envs, me, call.envid, true).value;
    if t != me && (s.envs[t].status == Running || s.envs[t].status == Dying) {
      var d :| 0 <= d < |s.cpus| && s.cpus[d].env == Some(t);
      Others(s, c, d);
      assert !CpuOk(s'.cpus[d], s'.envs);
    } else {
      assert s'.envs[t].recving && s'.envs[t].status == Runnable;
    }
  }

  /** A system call keeps the invariant exactly when it is used in the disciplined way. */
  lemma DispatchKeepsIff(s: System, c: nat, call: Call)
    requires Inv(s) && Enabled(s, Dispatch(c, call)) && s.cpus[c].env.value < NENV
    ensures Inv(Step(s, Dispatch(c, call))) <==> Disciplined(s.envs, s.cpus[c].env.value, call)
  {
    InvShaped(s);
    hide Inv, Step, Disciplined;
    if Disciplined(s.envs, s.cpus[c].env.value, call) {
      DispatchKeeps(s, c, call);
    } else {
      IndisciplineBreaks(s, c, call);
    }
  }

  // ---------------------------------------------------------------- whole runs

  lemma ReadKeeps(s: System, c: nat)
    requires Inv(s) && Enabled(s, ReadValue(c))
    ensures Inv(Step(s, ReadValue(c)))
  {
    InvShaped(s);
    hide SlotsOk, WaitersBlocked, CpusOk, Apart, Owned, LockOk;
  }

  /** One step of a disciplined run. (Shaped, and the free slots being slots, are part of Inv.) */
  ghost predicate Next(s: System, ev: Event, s': System) {
    && Shaped(s) && (forall e :: e in s.efree ==> e < NENV)
    && Enabled(s, ev)
    && (ev.Dispatch? ==> Disciplined(s.envs, s.cpus[ev.c].env.value, ev.call))
    && s' == Step(s, ev)
  }

  lemma NextKeeps(s: System, ev: Event, s': System)
    requires Inv(s) && Next(s, ev, s')
    ensures Inv(s')
  {
    hide Inv, Step, Disciplined;
    match ev
    case Trap(c) => TrapKeeps(s, c);
    case Xchg(c) => XchgKeeps(s, c);
    case Collect(c) => CollectKeeps(s, c);
    case Dispatch(c, call) => DispatchKeeps(s, c, call);
    case Finish(c) => FinishKeeps(s, c);
    case Resched(c) => ReschedKeeps(s, c);
    case Unlock(c) => UnlockKeeps(s, c);
    case ReadValue(c) => ReadKeeps(s, c);
  }

  /** A disciplined run: states[k] goes to states[k + 1] by events[k]. */
  ghost predicate Run(states: seq<System>, events: seq<Event>) {
    && |states| == |events| + 1
    && forall k :: 0 <= k < |events| ==> Next(states[k], events[k], states[k + 1])
  }

  /** i386_init up to its sched_yield: processor b holds the lock, the others wait for it in mp_main, and
      some environments have been created. */
  ghost predicate Booted(s: System, b: nat) {
    && b < |s.cpus| && s.locked && |s.mail| == NENV && SlotsOk(s.envs, s.efree)
    && s.cpus[b] == Cpu(Yielding, None, false, 1, 1, 0)
    && (forall c :: 0 <= c < |s.cpus| && c != b ==> s.cpus[c] == Cpu(Spinning(false, 1), None, false, 1, 0, 0))
    && (forall e :: 0 <= e < NENV ==> s.envs[e].status in {Free, Runnable} && !s.envs[e].recving)
    && (forall e :: 0 <= e < NENV ==> s.mail[e] == Mailbox([], [], false))
  }

  lemma BootedInv(s: System, b: nat)
    requires Booted(s, b)
    ensures Inv(s)
  {}

  lemma {:induction false} RunKeeps(states: seq<System>, events: seq<Event>, k: nat)
    requires Run(states, events) && Inv(states[0]) && k < |states|
    ensures Inv(states[k])
  {
    hide Inv, Next;
    if k > 0 {
      RunKeeps(states, events, k - 1);
      NextKeeps(states[k - 1], events[k - 1], states[k]);
    }
  }

  /** Between kernel entries: in every disciplined run, when the lock is free, each processor has no
      environment or a Running or Dying one of its own, each such environment has exactly one processor, no
      environment waiting for a message can run, and every kernel entry has taken and released the lock once
      (an entry still waiting for it has done neither). At all times at most one processor is past lock_kernel. */
  lemma OneEnvironmentOneProcessor(states: seq<System>, events: seq<Event>, b: nat, k: nat)
    requires Run(states, events) && Booted(states[0], b) && k < |states|
    ensures !states[k].locked ==>
              && (forall c :: 0 <= c < |states[k].cpus| ==>
                    var x := states[k].cpus[c];
                    && (x.env == None || Has(states[k].envs, x.env, {Running, Dying}))
                    && x.acquired == x.released == x.entries - if x.pc.Spinning? then 1 else 0)
              && Apart(states[k].cpus) && Owned(states[k].cpus, states[k].envs)
              && WaitersBlocked(states[k].envs)
    ensures LockOk(states[k].locked, states[k].cpus)
  {
    BootedInv(states[0], b);
    RunKeeps(states, events, k);
    var s := states[k];
    forall c | 0 <= c < |s.cpus| ensures CpuOk(s.cpus[c], s.envs) {}
  }

  /** No assertion of the trap path fails, and no processor waits for a lock it holds: wherever a processor is,
      short of the monitor, its next step is enabled; and if it spins on a held lock, another one is past
      lock_kernel, while on a free lock its next exchange gets it there. */
  lemma NeverStuck(s: System, c: nat)
    requires Inv(s) && c < |s.cpus| && s.cpus[c].pc != Monitor
    ensures exists ev: Event, s' :: ev.c == c && Next(s, ev, s')
    ensures s.cpus[c].pc.Spinning? && s.locked ==> exists d :: 0 <= d < |s.cpus| && d != c && InKernel(s.cpus[d].pc)
    ensures s.cpus[c].pc.Spinning? && !s.locked ==>
              Shaped(s) && (forall e :: e in s.efree ==> e < NENV)
              && c < |Step(s, Xchg(c)).cpus| && Step(s, Xchg(c)).cpus[c].pc == Entered(s.cpus[c].pc.user)
  {
    InvShaped(s);
    assert CpuOk(s.cpus[c], s.envs);
    var ev := match s.cpus[c].pc
      case User => Trap(c)
      case Halted => Trap(c)
      case Spinning(_, _) => Xchg(c)
      case Entered(_) => Collect(c)
      case Working => Dispatch(c, Other)
      case Ending => Finish(c)
      case Yielding => Resched(c)
      case _ => Unlock(c);
    assert Next(s, ev, Step(s, ev));
  }

  // ---------------------------------------------------------------- what single steps come to

  /** spin_lock: on a held lock an exchange changes nothing; on a free one exactly this processor passes. */
  lemma XchgPasses(s: System, c: nat)
    requires Inv(s) && Enabled(s, Xchg(c)) && Shaped(s) && forall e :: e in s.efree ==> e < NENV
    ensures var s' := Step(s, Xchg(c));
            && |s'.cpus| == |s.cpus|
            && if s.locked then s' == s && exists d :: 0 <= d < |s.cpus| && d != c && InKernel(s.cpus[d].pc)
               else s'.locked && s'.envs == s.envs
                    && forall d :: 0 <= d < |s.cpus| ==> (InKernel(s'.cpus[d].pc) <==> d == c) && (d != c ==> s'.cpus[d] == s.cpus[d])
  {
    assert CpuOk(s.cpus[c], s.envs);
  }

  /** A Dying environment is freed by the processor it is current on, when that next traps; it is current nowhere
      afterwards. Nothing else is freed. */
  lemma CollectFrees(s: System, c: nat)
    requires Inv(s) && Enabled(s, Collect(c)) && Shaped(s) && forall e :: e in s.efree ==> e < NENV
    ensures var x, s' := s.cpus[c], Step(s, Collect(c));
            if x.pc.user && Has(s.envs, x.env, {Dying}) then
              && s'.envs == s.envs[x.env.value := s.envs[x.env.value].(status := Free)]
              && s'.efree == [x.env.value] + s.efree && !IsCurrent(s'.cpus, x.env.value)
            else s'.envs == s.envs && s'.efree == s.efree
  {
    hide SlotsOk, WaitersBlocked, Owned, LockOk;
    assert CpuOk(s.cpus[c], s.envs);
  }

  /** env_destroy: the caller itself is freed and gone; an environment running elsewhere is marked Dying and stays
      current there; any other is current nowhere and is freed. */
  lemma DestroyMarks(s: System, c: nat, envid: int)
    requires Inv(s) && Enabled(s, Dispatch(c, Destroy(envid))) && Shaped(s) && forall e :: e in s.efree ==> e < NENV
    requires Disciplined(s.envs, s.cpus[c].env.value, Destroy(envid))
    ensures var s', t := Step(s, Dispatch(c, Destroy(envid))), Envid2Env(s.envs, s.cpus[c].env.value, envid, true);
            if t == None then s'.envs == s.envs && s'.efree == s.efree
            else if t != s.cpus[c].env && s.envs[t.value].status == Running then
              && s'.envs == s.envs[t.value := s.envs[t.value].(status := Dying)] && s'.efree == s.efree
              && IsCurrent(s'.cpus, t.value)
            else
              && s'.envs == s.envs[t.value := s.envs[t.value].(status := Free)] && s'.efree == [t.value] + s.efree
              && !IsCurrent(s'.cpus, t.value)
  {
    hide SlotsOk, WaitersBlocked;
    assert CpuOk(s.cpus[c], s.envs);
    var s', t := Step(s, Dispatch(c, Destroy(envid))), Envid2Env(s.envs, s.cpus[c].env.value, envid, true);
    if t.Some? {
      forall d | 0 <= d < |s.cpus| && d != c ensures s.cpus[d].env.Some? ==> Has(s.envs, s.cpus[d].env, {Running, Dying}) {
        Others(s, c, d);
      }
      if t != s.cpus[c].env && s.envs[t.value].status == Running {
        var d :| 0 <= d < |s.cpus| && s.cpus[d].env == t;
        assert s'.cpus[d].env == t;
      }
    }
  }
}
