/** Several processors, the big kernel lock, environment states and messages, as a step relation
    (kern/trap.c, kern/sched.c, kern/spinlock.c, and the calls of kern/syscall.c that change envs[]). */
module Smp {
  import opened Options
  import opened Mmu
  import opened Envs

  /** Where a processor is. `need` is the number of lock_kernel calls still to return before the trap handler goes on. */
  datatype Pc =
    | User | Halted
    | Spinning(user: bool, need: nat)
    | Entered(user: bool)  // past lock_kernel
    | Working              // in trap_dispatch for the current environment
    | Ending               // trap_dispatch has returned
    | Yielding             // in sched_yield
    | Leaving(toUser: bool) // about to unlock_kernel
    | Monitor              // no environment left: the kernel monitor, for good

  /** A processor: cpu_env, cpu_status == CPU_HALTED, and how often it has entered the kernel, taken the lock and released it. */
  datatype Cpu = Cpu(pc: Pc, env: Option<nat>, halted: bool, entries: nat, acquired: nat, released: nat)

  /** History of an environment's messages: values sent to it, values its ipc_recv calls returned, and whether it is inside ipc_recv. */
  datatype Mailbox = Mailbox(sent: seq<nat>, got: seq<nat>, waiting: bool)

  datatype System = System(locked: bool, cpus: seq<Cpu>, envs: seq<Env>, efree: seq<nat>, mail: seq<Mailbox>)

  /** What trap_dispatch is asked to do. `memory` and `mapped` are the outcomes of the page operations inside. */
  datatype Call =
    | Other  // a system call or fault that changes no field modelled here
    | Yield  // sys_yield or the timer
    | Exit   // a fault or a bad argument that destroys the current environment
    | Destroy(envid: int)
    | Exofork(memory: bool)
    | SetStatus(envid: int, status: Status)
    | SetUpcall(envid: int, func: nat)
    | TrySend(envid: int, value: nat, srcva: nat, perm: bv32, mapped: Error)
    | Recv(dstva: nat)

  datatype Event =
    | Trap(c: nat) | Xchg(c: nat) | Collect(c: nat) | Dispatch(c: nat, call: Call)
    | Finish(c: nat) | Resched(c: nat) | Unlock(c: nat) | ReadValue(c: nat)

  predicate Shaped(s: System) {
    && |s.envs| == |s.mail| == NENV
    && forall c :: 0 <= c < |s.cpus| && s.cpus[c].env.Some? ==> s.cpus[c].env.value < NENV
  }

  predicate InKernel(pc: Pc) {
    pc.Entered? || pc.Working? || pc.Ending? || pc.Yielding? || pc.Leaving? || pc.Monitor?
  }

  // ---------------------------------------------------------------- the scheduler

  /** How far slot i is after slot `from` in the circular order of the scan. */
  function Distance(from: nat, i: nat): nat { (i + NENV - from % NENV) % NENV }

  /** The slot the two loops of sched_yield choose: the first runnable one from offset k on. */
  function PickFrom(envs: seq<Env>, start: nat, k: nat): (r: Option<nat>)
    requires |envs| == NENV && k <= NENV
    decreases NENV - k
  {
    if k == NENV then None
    else if envs[(start + k) % NENV].status == Runnable then Some((start + k) % NENV)
    else PickFrom(envs, start, k + 1)
  }

  function Pick(envs: seq<Env>, start: nat): Option<nat>
    requires |envs| == NENV
  {
    PickFrom(envs, start, 0)
  }

  lemma DistanceOffset(start: nat, k: nat)
    requires start < NENV && k < NENV
    ensures Distance(start, (start + k) % NENV) == k
  {}

  lemma DistanceSlot(start: nat, i: nat)
    requires start < NENV && i < NENV
    ensures Distance(start, i) < NENV && (start + Distance(start, i)) % NENV == i
  {}

  lemma {:induction false} PickFromNearest(envs: seq<Env>, start: nat, k: nat)
    requires |envs| == NENV && start < NENV && k <= NENV
    ensures var r := PickFrom(envs, start, k);
            && (r.Some? ==> r.value < NENV && envs[r.value].status == Runnable && k <= Distance(start, r.value))
            && forall i :: 0 <= i < NENV && envs[i].status == Runnable && k <= Distance(start, i) ==>
                 r.Some? && Distance(start, r.value) <= Distance(start, i)
    decreases NENV - k
  {
    forall i | 0 <= i < NENV ensures Distance(start, i) < NENV && (start + Distance(start, i)) % NENV == i {
      DistanceSlot(start, i);
    }
    if k < NENV {
      DistanceOffset(start, k);
      PickFromNearest(envs, start, k + 1);
    }
  }

  /** sched_yield runs the runnable environment nearest after the current slot, that slot itself counting
      as nearest of all, and none exactly when none is runnable. */
  lemma PickNearest(envs: seq<Env>, start: nat)
    requires |envs| == NENV && start < NENV
    ensures Pick(envs, start) == None <==> forall i :: 0 <= i < NENV ==> envs[i].status != Runnable
    ensures var r := Pick(envs, start);
            r.Some? ==>
              && r.value < NENV && envs[r.value].status == Runnable
              && forall i :: 0 <= i < NENV && envs[i].status == Runnable ==>
                   Distance(start, r.value) <= Distance(start, i)
  {
    PickFromNearest(envs, start, 0);
  }

  // ---------------------------------------------------------------- what each step does

  function Update(s: System, c: nat, x: Cpu, envs: seq<Env>): System
    requires c < |s.cpus|
  {
    s.(cpus := s.cpus[c := x], envs := envs)
  }

  /** env_run's effect on envs[]: the current environment goes back to Runnable if it was Running. */
  function Switched(envs: seq<Env>, cur: Option<nat>, e: nat): seq<Env>
    requires |envs| == NENV && e < NENV && (cur.Some? ==> cur.value < NENV)
  {
    var parked := if cur.Some? && envs[cur.value].status == Running
                  then envs[cur.value := envs[cur.value].(status := Runnable)] else envs;
    parked[e := parked[e].(status := Running)]
  }

  function EnvRun(s: System, c: nat, e: nat): System
    requires Shaped(s) && c < |s.cpus| && e < NENV
  {
    Update(s, c, s.cpus[c].(env := Some(e), pc := Leaving(true)), Switched(s.envs, s.cpus[c].env, e))
  }

  predicate Idle(envs: seq<Env>) {
    forall i :: 0 <= i < |envs| ==> envs[i].status != Runnable && envs[i].status != Running && envs[i].status != Dying
  }

  function SchedHalt(s: System, c: nat): System
    requires c < |s.cpus|
  {
    var x := s.cpus[c];
    Update(s, c, if Idle(s.envs) then x.(pc := Monitor) else x.(pc := Leaving(false), env := None, halted := true), s.envs)
  }

  function StartSlot(envs: seq<Env>, cur: Option<nat>): nat
    requires |envs| == NENV && (cur.Some? ==> cur.value < NENV)
  {
    if cur.Some? then Envx(envs[cur.value].id) else 0
  }

  function SchedYield(s: System, c: nat): System
    requires Shaped(s) && c < |s.cpus|
  {
    var cur := s.cpus[c].env;
    PickNearest(s.envs, StartSlot(s.envs, cur));
    var r := Pick(s.envs, StartSlot(s.envs, cur));
    if r.Some? then EnvRun(s, c, r.value)
    else if cur.Some? && s.envs[cur.value].status == Running then EnvRun(s, c, cur.value)
    else SchedHalt(s, c)
  }

  /** env_free, as far as the environment table goes. */
  function EnvFree(s: System, e: nat): System
    requires Shaped(s) && e < NENV
  {
    s.(envs := s.envs[e := s.envs[e].(status := Free)], efree := [e] + s.efree)
  }

  /** The end of a path that destroys the current environment e. */
  function Exited(s: System, c: nat, e: nat): System
    requires Shaped(s) && c < |s.cpus| && e < NENV
  {
    EnvFree(s, e).(cpus := s.cpus[c := s.cpus[c].(env := None, pc := Yielding)])
  }

  /** The receiver of a try_send that succeeds. */
  function Receiver(envs: seq<Env>, me: nat, call: Call): (r: Option<nat>)
    requires |envs| == NENV && me < NENV
    ensures r.Some? ==> r.value < NENV
  {
    if !call.TrySend? then None
    else
      var to := Envid2Env(envs, me, call.envid, false);
      if to == None || !envs[to.value].recving then None
      else if call.srcva < UTOP && envs[to.value].dstva < UTOP && call.mapped != Success then None
      else to
  }

  function Set(s: System, e: nat, x: Env): System
    requires Shaped(s) && e < NENV
  {
    s.(envs := s.envs[e := x])
  }

  /** The system call or fault of environment me, before the processor moves on. */
  function Handle(s: System, me: nat, call: Call): System
    requires Shaped(s) && me < NENV && forall e :: e in s.efree ==> e < NENV
  {
    match call
    case Destroy(envid) =>
      var t := Envid2Env(s.envs, me, envid, true);
      if t == None || t.value == me then s
      else if s.envs[t.value].status == Running then Set(s, t.value, s.envs[t.value].(status := Dying))
      else EnvFree(s, t.value)
    case Exofork(memory) =>
      if s.efree == [] || !memory then s
      else
        var e := s.efree[0];
        assert e in s.efree;
        s.(envs := s.envs[e := Fresh(s.envs[e], e, s.envs[me].id).(status := NotRunnable)],
           efree := s.efree[1..], mail := s.mail[e := Mailbox([], [], false)])
    case SetStatus(envid, status) =>
      var t := Envid2Env(s.envs, me, envid, true);
      if (status != Runnable && status != NotRunnable) || t == None then s
      else Set(s, t.value, s.envs[t.value].(status := status))
    case SetUpcall(envid, func) =>
      var t := Envid2Env(s.envs, me, envid, false);
      if t == None then s else Set(s, t.value, s.envs[t.value].(upcall := func))
    case TrySend(envid, value, srcva, perm, mapped) =>
      var to := Envid2Env(s.envs, me, envid, false);
      if to == None || !s.envs[to.value].recving then s
      else
        var t := s.envs[to.value];
        if Receiver(s.envs, me, call) == None then Set(s, to.value, t.(perm := 0))
        else
          var wants := srcva < UTOP && t.dstva < UTOP;
          Set(s, to.value, Delivered(t, s.envs[me].id, value, if wants then perm else 0))
            .(mail := s.mail[to.value := s.mail[to.value].(sent := s.mail[to.value].sent + [value])])
    case Recv(dstva) =>
      if dstva < UTOP && dstva % PGSIZE != 0 then s
      else Set(s, me, Receiving(s.envs[me], dstva)).(mail := s.mail[me := s.mail[me].(waiting := true)])
    case _ => s
  }

  /** Does this call end with the current environment destroyed? */
  predicate Exits(envs: seq<Env>, me: nat, call: Call)
    requires |envs| == NENV && me < NENV
  {
    call.Exit? || (call.Destroy? && Envid2Env(envs, me, call.envid, true) == Some(me))
  }

  function After(s: System, c: nat, pc: Pc): System
    requires c < |s.cpus|
  {
    s.(cpus := s.cpus[c := s.cpus[c].(pc := pc)])
  }

  predicate Enabled(s: System, ev: Event) {
    && ev.c < |s.cpus|
    && var x := s.cpus[ev.c];
       match ev
       case Trap(_) => x.pc == User || x.pc == Halted
       case Xchg(_) => x.pc.Spinning?
       case Collect(_) => x.pc.Entered? && (x.pc.user ==> x.env.Some?)
       case Dispatch(_, _) => x.pc == Working && x.env.Some?
       case Finish(_) => x.pc == Ending
       case Resched(_) => x.pc == Yielding
       case Unlock(_) => x.pc.Leaving?
       case ReadValue(_) => x.pc == User && x.env.Some? && x.env.value < |s.mail| && s.mail[x.env.value].waiting
  }

  function Step(s: System, ev: Event): System
    requires Shaped(s) && Enabled(s, ev) && forall e :: e in s.efree ==> e < NENV
  {
    var c, x := ev.c, s.cpus[ev.c];
    match ev
    // The first test of trap() takes the lock if cpu_status said halted, the second if the trap came from user mode.
    case Trap(_) =>
      var need := (if x.halted then 1 else 0) + (if x.pc == User then 1 else 0);
      Update(s, c, x.(pc := if need == 0 then Entered(x.pc == User) else Spinning(x.pc == User, need),
                      halted := false, entries := x.entries + 1), s.envs)
    case Xchg(_) =>
      if s.locked then s
      else Update(s, c, x.(pc := if x.pc.need <= 1 then Entered(x.pc.user) else Spinning(x.pc.user, x.pc.need - 1),
                           acquired := x.acquired + 1), s.envs).(locked := true)
    case Collect(_) =>
      if !x.pc.user then After(s, c, Yielding)
      else if s.envs[x.env.value].status == Dying then Exited(s, c, x.env.value)
      else After(s, c, Working)
    case Dispatch(_, call) =>
      if Exits(s.envs, x.env.value, call) then Exited(s, c, x.env.value)
      else After(Handle(s, x.env.value, call), c, if call.Yield? then Yielding else Ending)
    case Finish(_) =>
      if x.env.Some? && s.envs[x.env.value].status == Running then EnvRun(s, c, x.env.value)
      else After(s, c, Yielding)
    case Resched(_) => SchedYield(s, c)
    case Unlock(_) =>
      Update(s, c, x.(pc := if x.pc.toUser then User else Halted, released := x.released + 1), s.envs).(locked := false)
    case ReadValue(_) =>
      var e := x.env.value;
      s.(mail := s.mail[e := s.mail[e].(got := s.mail[e].got + [s.envs[e].value], waiting := false)])
  }

  // ---------------------------------------------------------------- the invariant

  predicate Has(envs: seq<Env>, cur: Option<nat>, allowed: set<Status>) {
    cur.Some? && cur.value < |envs| && envs[cur.value].status in allowed
  }

  /** What a processor's current environment can be at each point, and the value of cpu_status. */
  predicate CpuOk(x: Cpu, envs: seq<Env>) {
    && x.halted == (x.pc == Halted || x.pc == Leaving(false))
    && x.acquired + (if x.pc.Spinning? then 1 else 0) == x.entries
    && x.released + (if InKernel(x.pc) then 1 else 0) == x.acquired
    && match x.pc
       case User => Has(envs, x.env, {Running, Dying})
       case Halted => x.env == None
       case Spinning(user, need) => need == 1 && if user then Has(envs, x.env, {Running, Dying}) else x.env == None
       case Entered(user) => if user then Has(envs, x.env, {Running, Dying}) else x.env == None
       case Working => Has(envs, x.env, {Running})
       case Ending => x.env == None || Has(envs, x.env, {Running, Runnable, NotRunnable})
       case Yielding => x.env == None || Has(envs, x.env, {Running, Runnable, NotRunnable})
       case Leaving(toUser) => if toUser then Has(envs, x.env, {Running}) else x.env == None
       case Monitor => x.env == None || Has(envs, x.env, {NotRunnable})
  }

  predicate CpusOk(cpus: seq<Cpu>, envs: seq<Env>) {
    forall c :: 0 <= c < |cpus| ==> CpuOk(cpus[c], envs)
  }

  /** No environment is current on two processors. */
  predicate Apart(cpus: seq<Cpu>) {
    forall c, d :: 0 <= c < |cpus| && 0 <= d < |cpus| && cpus[c].env.Some? && cpus[c].env == cpus[d].env ==> c == d
  }

  predicate IsCurrent(cpus: seq<Cpu>, e: nat) { exists c :: 0 <= c < |cpus| && cpus[c].env == Some(e) }

  /** Every Running or Dying environment is current somewhere. */
  predicate Owned(cpus: seq<Cpu>, envs: seq<Env>) {
    forall e :: 0 <= e < |envs| && (envs[e].status == Running || envs[e].status == Dying) ==> IsCurrent(cpus, e)
  }

  /** The lock is held exactly when a processor is past lock_kernel, and then by one alone. */
  predicate LockOk(locked: bool, cpus: seq<Cpu>) {
    && (locked <==> exists c :: 0 <= c < |cpus| && InKernel(cpus[c].pc))
    && forall c, d :: 0 <= c < |cpus| && 0 <= d < |cpus| && InKernel(cpus[c].pc) && InKernel(cpus[d].pc) ==> c == d
  }

  /** An environment waiting for a message cannot be scheduled; a Free slot may keep the flag of its last owner. */
  predicate WaitersBlocked(envs: seq<Env>) {
    forall e :: 0 <= e < |envs| && envs[e].recving && envs[e].status != Free ==> envs[e].status == NotRunnable
  }

  ghost predicate SlotsOk(envs: seq<Env>, efree: seq<nat>) {
    && |envs| == NENV
    && (forall e :: 0 <= e < NENV ==> (e in efree <==> envs[e].status == Free))
    && (forall e :: e in efree ==> e < NENV)
    && (forall i, j :: 0 <= i < j < |efree| ==> efree[i] != efree[j])
    && (forall e :: 0 <= e < NENV ==> IdOk(envs[e].id, e) && (envs[e].status != Free ==> envs[e].id > 0))
  }

  ghost predicate Inv(s: System) {
    && |s.mail| == NENV
    && SlotsOk(s.envs, s.efree) && WaitersBlocked(s.envs)
    && CpusOk(s.cpus, s.envs) && Apart(s.cpus) && Owned(s.cpus, s.envs)
    && LockOk(s.locked, s.cpus)
  }

  lemma InvShaped(s: System)
    requires Inv(s)
    ensures Shaped(s) && forall e :: e in s.efree ==> e < NENV
  {}
}
