/** The system calls of class Kernel are the steps of the multiprocessor model: syscall() in kern/syscall.c and
    env_destroy in kern/env.c, run by the current environment while its processor holds the kernel lock. */
module Syscalls {
  import opened Options
  import opened Mmu
  import opened RefCount
  import opened PageInv
  import opened Envs
  import opened Kernels
  import Smp

  /** The environment table as the multiprocessor model has it. */
  ghost function Table(k: Kernel): Smp.System
    requires k.Layout()
    reads k, k.envs
  {
    Smp.System(true, [], k.envs[..], k.efree, seq(NENV, _ => Smp.Mailbox([], [], false)))
  }

  /** The same request, with the outcomes of its page operations filled in. */
  predicate SameRequest(call: Smp.Call, did: Smp.Call) {
    match call
    case Exofork(_) => did.Exofork?
    case TrySend(envid, value, srcva, perm, _) => did.TrySend? && did == call.(mapped := did.mapped)
    case _ => did == call
  }

  /** Those outcomes: a page for the directory; page_map's result, where a page is wanted at all. */
  ghost predicate Outcome(refs: Refs, free: seq<nat>, envs: seq<Env>, me: nat, did: Smp.Call)
    requires |envs| == NENV && me < NENV
  {
    match did
    case Exofork(memory) => memory <==> free != []
    case TrySend(envid, _, srcva, perm, mapped) =>
      var to := Envid2Env(envs, me, envid, false);
      to.Some? && srcva < UTOP && envs[to.value].dstva < UTOP ==>
        mapped == MapError(refs, free, Some(me), srcva, to, envs[to.value].dstva, perm)
    case _ => true
  }

  /** What the call does to the environment table, the end of the current environment included. */
  ghost function Effect(s: Smp.System, me: nat, did: Smp.Call): Smp.System
    requires Smp.Shaped(s) && me < NENV && forall e :: e in s.efree ==> e < NENV
  {
    if Smp.Exits(s.envs, me, did) then Smp.EnvFree(s, me) else Smp.Handle(s, me, did)
  }

  lemma TableShaped(k: Kernel)
    requires k.Valid()
    ensures Smp.Shaped(Table(k)) && forall e :: e in k.efree ==> e < NENV
  {}

  /** env_destroy, up to its call of sched_yield. */
  method EnvDestroy(k: Kernel, e: nat)
    requires k.HasCurrent() && e < NENV && k.envs[e].status != Free
    modifies k, k.ppLink, k.ppRef, k.mem, k.data, k.envLink, k.envPgdir, k.envs
    ensures k.Valid() && k.data[..] == old(k.data[..])
    ensures var dying := old(k.envs[e].status) == Running && old(k.curenv) != Some(e);
            && k.envs[..] == old(k.envs[..])[e := old(k.envs[e]).(status := if dying then Dying else Free)]
            && k.efree == (if dying then old(k.efree) else [e] + old(k.efree))
            && k.refs == if dying then old(k.refs) else Without(old(k.refs), e)
    ensures k.curenv == if old(k.curenv) == Some(e) then None else old(k.curenv)
  {
    hide Agree, FreeList, Counts, Chain, TableOk;
    if k.envs[e].status == Running && k.curenv != Some(e) {
      k.SetEnv(e, k.envs[e].(status := Dying));
      return;
    }
    k.EnvFree(e);
    if k.curenv == Some(e) {
      k.curenv := None;
    }
  }

  method Destroy(k: Kernel, envid: int)
    requires k.HasCurrent()
    modifies k, k.ppLink, k.ppRef, k.mem, k.data, k.envLink, k.envPgdir, k.envs
    ensures k.Valid()
    ensures old(k.curenv).Some? && old(k.curenv).value < NENV
    ensures Smp.Shaped(old(Table(k))) && forall e :: e in old(k.efree) ==> e < NENV
    ensures Table(k).envs == Effect(old(Table(k)), old(k.curenv).value, Smp.Destroy(envid)).envs
    ensures k.efree == Effect(old(Table(k)), old(k.curenv).value, Smp.Destroy(envid)).efree
    ensures k.curenv == if Smp.Exits(old(k.envs[..]), old(k.curenv).value, Smp.Destroy(envid)) then None else old(k.curenv)
  {
    hide Agree, FreeList, Counts, Without;
    TableShaped(k);
    hide Chain, TableOk;
    var env := Envid2Env(k.envs[..], k.curenv.value, envid, true);
    if env.Some? {
      Live(k, envid, true);
      EnvDestroy(k, env.value);
    }
  }

  /** A page that a message carries can be counted once more in its 16-bit pp_ref. */
  ghost predicate SendRoom(k: Kernel, call: Smp.Call)
    requires k.HasCurrent()
    reads k, k.ppLink, k.ppRef, k.mem, k.envPgdir, k.envLink, k.envs
  {
    call.TrySend? ==> SendCountable(k.refs, k.free, k.envs[..], k.curenv.value, call.envid, call.srcva, call.perm)
  }

  method TrySend(k: Kernel, call: Smp.Call) returns (ghost did: Smp.Call)
    requires k.HasCurrent() && call.TrySend? && SendRoom(k, call)
    modifies k`pageFreeList, k`free, k`loose, k`refs, k.ppLink, k.ppRef, k.mem, k.data, k.envs
    ensures k.Valid() && SameRequest(call, did)
    ensures old(k.curenv).Some? && old(k.curenv).value < NENV
    ensures Outcome(old(k.refs), old(k.free), old(k.envs[..]), old(k.curenv).value, did)
    ensures Smp.Shaped(old(Table(k))) && forall e :: e in old(k.efree) ==> e < NENV
    ensures Table(k).envs == Smp.Handle(old(Table(k)), old(k.curenv).value, did).envs
  {
    hide Agree, FreeList, Counts, MapError, Inserted, Delivered, Countable;
    TableShaped(k);
    hide Chain, TableOk;
    ghost var refs0, free0, envs0, me := k.refs, k.free, k.envs[..], k.curenv.value;
    var r := k.SysIpcTrySend(call.envid, call.value, call.srcva, call.perm);
    ghost var to := Envid2Env(envs0, me, call.envid, false);
    did := call.(mapped :=
      if to.Some? then MapError(refs0, free0, Some(me), call.srcva, to, envs0[to.value].dstva, call.perm) else BadEnv);
  }

  method Exofork(k: Kernel) returns (ghost did: Smp.Call)
    requires k.HasCurrent()
    modifies k`pageFreeList, k`free, k`loose, k`refs, k`envFreeList, k`efree, k.ppLink, k.ppRef, k.mem, k.data,
             k.envPgdir, k.envs
    ensures k.Valid() && did == Smp.Exofork(old(k.free) != [])
    ensures old(k.curenv).Some? && old(k.curenv).value < NENV
    ensures Smp.Shaped(old(Table(k))) && forall e :: e in old(k.efree) ==> e < NENV
    ensures Table(k).envs == Smp.Handle(old(Table(k)), old(k.curenv).value, did).envs
    ensures k.efree == Smp.Handle(old(Table(k)), old(k.curenv).value, did).efree
  {
    hide Agree, FreeList, Counts, Fresh;
    TableShaped(k);
    hide Chain, TableOk;
    did := Smp.Exofork(k.free != []);
    var r, child := k.SysExofork();
  }

  /** The calls that change no more than one entry of envs[]. */
  method SetFields(k: Kernel, call: Smp.Call)
    requires k.HasCurrent() && (call.SetStatus? || call.SetUpcall? || call.Recv?)
    modifies k.envs
    ensures k.Valid()
    ensures k.curenv.Some? && k.curenv.value < NENV
    ensures Smp.Shaped(old(Table(k))) && forall e :: e in k.efree ==> e < NENV
    ensures Table(k).envs == Smp.Handle(old(Table(k)), k.curenv.value, call).envs
  {
    hide Agree, FreeList, Counts, Receiving;
    TableShaped(k);
    hide Chain, TableOk;
    match call
    case SetStatus(envid, status) =>
      var r := k.SysEnvSetStatus(envid, status);
    case SetUpcall(envid, func) =>
      var r := k.SysEnvSetPgfaultUpcall(envid, func);
    case Recv(dstva) =>
      var r := k.SysIpcRecv(dstva);
  }

  /** One system call by the current environment. Memory stays sound, with exact reference counts, and what
      happens to the environment table is the step of the multiprocessor model for this call. */
  method Syscall(k: Kernel, call: Smp.Call) returns (ghost did: Smp.Call)
    requires k.HasCurrent() && !call.Exit? && !call.Other? && SendRoom(k, call)
    modifies k, k.ppLink, k.ppRef, k.mem, k.data, k.envLink, k.envPgdir, k.envs
    ensures k.Valid() && SameRequest(call, did)
    ensures old(k.curenv).Some? && old(k.curenv).value < NENV
    ensures Outcome(old(k.refs), old(k.free), old(k.envs[..]), old(k.curenv).value, did)
    ensures Smp.Shaped(old(Table(k))) && forall e :: e in old(k.efree) ==> e < NENV
    ensures Table(k).envs == Effect(old(Table(k)), old(k.curenv).value, did).envs
    ensures k.efree == Effect(old(Table(k)), old(k.curenv).value, did).efree
    ensures k.curenv == if Smp.Exits(old(k.envs[..]), old(k.curenv).value, did) then None else old(k.curenv)
  {
    hide Agree, FreeList, Counts, MapError, SendRoom;
    TableShaped(k);
    HandleKeepsSlots(Table(k), k.curenv.value, call);
    hide Chain, TableOk, Smp.Handle;
    did := call;
    match call
    case Destroy(envid) => Destroy(k, envid);
    case Exofork(_) => did := Exofork(k);
    case TrySend(_, _, _, _, _) => did := TrySend(k, call);
    case SetStatus(_, _) => SetFields(k, call);
    case SetUpcall(_, _) => SetFields(k, call);
    case Recv(_) => SetFields(k, call);
    case Yield => // sched_yield comes next
  }

  /** Only fork and destroy touch the list of free slots. */
  lemma HandleKeepsSlots(s: Smp.System, me: nat, call: Smp.Call)
    requires Smp.Shaped(s) && me < NENV && forall e :: e in s.efree ==> e < NENV
    ensures !call.Destroy? && !call.Exofork? ==> Smp.Handle(s, me, call).efree == s.efree
    ensures call.Yield? ==> Smp.Handle(s, me, call).envs == s.envs
  {}

  lemma Live(k: Kernel, envid: int, checkperm: bool)
    requires k.HasCurrent()
    ensures var t := Envid2Env(k.envs[..], k.curenv.value, envid, checkperm);
            t.Some? ==> k.envs[t.value].status != Free
  {
    hide Agree, FreeList, Counts, Chain, TableOk;
  }
}
