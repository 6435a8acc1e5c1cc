/** Messages between environments arrive once and in order (sys_ipc_try_send, sys_ipc_recv, lib/ipc.c). */
module Mail {
  import opened Options
  import opened Mmu
  import opened Envs
  import opened Smp
  import opened SmpInv

  /** ipc_recv reads env_ipc_value before its environment calls sys_ipc_recv again. */
  predicate InLibrary(s: System, ev: Event) {
    (&& ev.Dispatch? && ev.call.Recv?
     && ev.c < |s.cpus| && s.cpus[ev.c].env.Some? && s.cpus[ev.c].env.value < |s.mail|) ==>
      !s.mail[s.cpus[ev.c].env.value].waiting
  }

  /** The message delivered and not yet read, if there is one. */
  function Unread(x: Env, m: Mailbox): seq<nat> {
    if m.waiting && !x.recving then [x.value] else []
  }

  predicate BoxOk(x: Env, m: Mailbox) {
    x.status != Free ==> m.sent == m.got + Unread(x, m) && (x.recving ==> m.waiting)
  }

  predicate MailOk(s: System) {
    |s.envs| == |s.mail| && forall e :: 0 <= e < |s.envs| ==> BoxOk(s.envs[e], s.mail[e])
  }

  /** Only the box of slot t, and envs[t], differ. */
  lemma OneBox(s: System, s': System, t: nat)
    requires MailOk(s) && |s.envs| == NENV && t < NENV
    requires |s'.envs| == |s'.mail| == NENV
    requires s'.envs == s.envs[t := s'.envs[t]] && s'.mail == s.mail[t := s'.mail[t]]
    requires BoxOk(s'.envs[t], s'.mail[t])
    ensures MailOk(s')
  {}

  lemma SendKeepsMail(s: System, me: nat, call: Call)
    requires Shaped(s) && me < NENV && MailOk(s) && call.TrySend? && s.envs[me].status == Running && !s.envs[me].recving
    requires forall f :: f in s.efree ==> f < NENV
    ensures MailOk(Handle(s, me, call))
  {
    hide MailOk;
    var to := Envid2Env(s.envs, me, call.envid, false);
    if to.Some? {
      BoxAt(s, to.value);
      OneBox(s, Handle(s, me, call), to.value);
    }
  }

  /** A system call that does not end its caller, which is running. */
  lemma HandleKeepsMail(s: System, me: nat, call: Call)
    requires Shaped(s) && me < NENV && MailOk(s) && s.envs[me].status == Running && !s.envs[me].recving
    requires forall f :: f in s.efree ==> f < NENV
    requires call.Recv? ==> !s.mail[me].waiting
    ensures MailOk(Handle(s, me, call))
  {
    hide MailOk;
    var e := match call
      case Destroy(envid) => Envid2Env(s.envs, me, envid, true)
      case SetStatus(envid, _) => Envid2Env(s.envs, me, envid, true)
      case SetUpcall(envid, _) => Envid2Env(s.envs, me, envid, false)
      case Exofork(_) => if s.efree == [] then None else Some(s.efree[0])
      case Recv(_) => Some(me)
      case _ => None;
    if call.TrySend? {
      SendKeepsMail(s, me, call);
    } else if e.Some? {
      assert call.Exofork? ==> e.value in s.efree;
      BoxAt(s, e.value);
      OneBox(s, Handle(s, me, call), e.value);
    }
  }

  lemma BoxAt(s: System, e: nat)
    requires MailOk(s) && e < |s.envs|
    ensures e < |s.mail| && BoxOk(s.envs[e], s.mail[e])
  {}

  lemma DispatchKeepsMail(s: System, c: nat, call: Call)
    requires Inv(s) && MailOk(s) && Enabled(s, Dispatch(c, call)) && InLibrary(s, Dispatch(c, call))
    ensures MailOk(Step(s, Dispatch(c, call)))
  {
    InvShaped(s);
    assert CpuOk(s.cpus[c], s.envs);
    var me := s.cpus[c].env.value;
    assert !s.envs[me].recving;
    hide Inv, Handle, MailOk;
    if Exits(s.envs, me, call) {
      OnlyStatus(s, Step(s, Dispatch(c, call)));
    } else {
      HandleKeepsMail(s, me, call);
      OnlyStatus(Handle(s, me, call), Step(s, Dispatch(c, call)));
    }
  }

  ghost predicate StatusOnly(envs: seq<Env>, envs': seq<Env>) {
    |envs'| == |envs| && forall e :: 0 <= e < |envs| ==>
      envs'[e] == envs[e].(status := envs'[e].status) && (envs[e].status == Free ==> envs'[e].status == Free)
  }

  lemma SwitchedStatusOnly(envs: seq<Env>, cur: Option<nat>, e: nat)
    requires |envs| == NENV && e < NENV && envs[e].status != Free && (cur.Some? ==> cur.value < NENV)
    ensures StatusOnly(envs, Switched(envs, cur, e))
  {}

  /** sched_yield changes nothing but statuses. */
  lemma YieldStatusOnly(s: System, c: nat)
    requires Shaped(s) && c < |s.cpus|
    ensures SchedYield(s, c).mail == s.mail && StatusOnly(s.envs, SchedYield(s, c).envs)
  {
    hide Pick, Switched;
    var cur := s.cpus[c].env;
    PickNearest(s.envs, StartSlot(s.envs, cur));
    var r := Pick(s.envs, StartSlot(s.envs, cur));
    if r.Some? {
      SwitchedStatusOnly(s.envs, cur, r.value);
    } else if cur.Some? && s.envs[cur.value].status == Running {
      SwitchedStatusOnly(s.envs, cur, cur.value);
    }
  }

  lemma ReschedKeepsMail(s: System, c: nat)
    requires Shaped(s) && MailOk(s) && Enabled(s, Resched(c)) && forall e :: e in s.efree ==> e < NENV
    ensures MailOk(Step(s, Resched(c)))
  {
    hide SchedYield, MailOk;
    YieldStatusOnly(s, c);
    OnlyStatus(s, SchedYield(s, c));
  }

  lemma NextKeepsMail(s: System, ev: Event, s': System)
    requires Inv(s) && MailOk(s) && Next(s, ev, s') && InLibrary(s, ev)
    ensures MailOk(s')
  {
    InvShaped(s);
    assert CpuOk(s.cpus[ev.c], s.envs);
    match ev
    case Dispatch(c, call) =>
      hide *;
      DispatchKeepsMail(s, c, call);
    case Resched(c) =>
      hide *;
      ReschedKeepsMail(s, c);
    case ReadValue(c) =>
      hide CpusOk, Apart, Owned, LockOk, SlotsOk, MailOk;
      ReadKeepsMail(s, s', s.cpus[c].env.value);
    case _ =>
      hide Inv, MailOk;
      OnlyStatus(s, s');
  }

  /** Steps that change no more than statuses, and revive no environment. */
  lemma OnlyStatus(s: System, s': System)
    requires MailOk(s) && |s.envs| == |s'.envs| && s'.mail == s.mail
    requires StatusOnly(s.envs, s'.envs)
    ensures MailOk(s')
  {}

  lemma ReadKeepsMail(s: System, s': System, e: nat)
    requires MailOk(s) && |s.envs| == |s.mail| && e < |s.envs| && s'.envs == s.envs
    requires s.mail[e].waiting && !s.envs[e].recving
    requires s'.mail == s.mail[e := s.mail[e].(got := s.mail[e].got + [s.envs[e].value], waiting := false)]
    ensures MailOk(s')
  {
    BoxAt(s, e);
  }

  lemma {:induction false} RunKeepsMail(states: seq<System>, events: seq<Event>, k: nat)
    requires Run(states, events) && k < |states| && Inv(states[0]) && MailOk(states[0])
    requires forall i :: 0 <= i < k ==> InLibrary(states[i], events[i])
    ensures MailOk(states[k])
  {
    hide Inv, Next, MailOk, InLibrary;
    if k > 0 {
      RunKeepsMail(states, events, k - 1);
      RunKeeps(states, events, k - 1);
      NextKeepsMail(states[k - 1], events[k - 1], states[k]);
    }
  }

  /** Lossless and in order: what an environment's receives have returned is what was sent to it, in the same
      order and each value once, except that the last one sent may not have been read yet. */
  lemma InOrderOnce(states: seq<System>, events: seq<Event>, b: nat, k: nat, e: nat)
    requires Run(states, events) && k < |states| && Booted(states[0], b) && e < NENV
    requires forall i :: 0 <= i < k ==> InLibrary(states[i], events[i])
    requires |states[k].envs| == |states[k].mail| == NENV && states[k].envs[e].status != Free
    ensures var x, m := states[k].envs[e], states[k].mail[e];
            && m.sent == m.got + Unread(x, m)
            && (x.recving ==> m.got == m.sent)
  {
    BootedInv(states[0], b);
    RunKeepsMail(states, events, k);
    assert BoxOk(states[k].envs[e], states[k].mail[e]);
  }

  /** Is this event a sys_ipc_recv of environment e? */
  predicate ReceiveBy(s: System, ev: Event, e: nat) {
    ev.Dispatch? && ev.call.Recv? && ev.c < |s.cpus| && s.cpus[ev.c].env == Some(e)
  }

  predicate SameMessage(s: System, s': System, e: nat)
    requires e < |s.envs| && e < |s'.envs| && e < |s.mail| && e < |s'.mail|
  {
    && !s'.envs[e].recving
    && s'.mail[e].sent == s.mail[e].sent
    && s'.envs[e].value == s.envs[e].value && s'.envs[e].from == s.envs[e].from && s'.envs[e].perm == s.envs[e].perm
  }

  lemma HandleKeepsMessage(s: System, me: nat, call: Call, e: nat)
    requires Shaped(s) && me < NENV && e < NENV && (forall f :: f in s.efree ==> f < NENV && f != e)
    requires !s.envs[e].recving && !(call.Recv? && me == e)
    ensures var s' := Handle(s, me, call); |s'.envs| == |s'.mail| == NENV && SameMessage(s, s', e)
  {
    assert s.efree != [] ==> s.efree[0] in s.efree;
  }

  lemma NextKeepsMessage(s: System, ev: Event, s': System, e: nat)
    requires Inv(s) && Next(s, ev, s') && e < NENV
    requires !s.envs[e].recving && s.envs[e].status != Free && !ReceiveBy(s, ev, e)
    ensures |s'.envs| == |s'.mail| == NENV
    ensures SameMessage(s, s', e)
  {
    InvShaped(s);
    assert CpuOk(s.cpus[ev.c], s.envs);
    assert e !in s.efree;
    hide CpusOk, Apart, Owned, LockOk, SlotsOk, WaitersBlocked, Handle, SchedYield;
    match ev
    case Resched(c) => YieldStatusOnly(s, c);
    case Dispatch(c, call) => HandleKeepsMessage(s, s.cpus[c].env.value, call, e);
    case _ =>
  }

  /** After a delivery no other message overwrites it: as long as the environment lives and does not call
      sys_ipc_recv again, nothing more is sent to it and value, sender and permission stay as delivered. */
  lemma {:induction false} NoSendBeforeNextReceive(states: seq<System>, events: seq<Event>, i: nat, j: nat, e: nat)
    requires Run(states, events) && Inv(states[0]) && i <= j < |states| && e < NENV
    requires forall k :: i <= k <= j ==> |states[k].envs| == |states[k].mail| == NENV && states[k].envs[e].status != Free
    requires forall k :: i <= k < j ==> !ReceiveBy(states[k], events[k], e)
    requires !states[i].envs[e].recving
    ensures SameMessage(states[i], states[j], e)
  {
    hide Inv, Next, ReceiveBy;
    if i < j {
      NoSendBeforeNextReceive(states, events, i, j - 1, e);
      RunKeeps(states, events, j - 1);
      NextKeepsMessage(states[j - 1], events[j - 1], states[j], e);
    }
  }

  /** What a waiting receiver gets: exactly the next send to it that succeeds, and every send to an
      environment that is not waiting fails without touching it. */
  lemma SendReachesReceiver(s: System, c: nat, call: Call)
    requires Inv(s) && Enabled(s, Dispatch(c, call)) && call.TrySend? && s.cpus[c].env.value < NENV
    ensures |s.envs| == NENV
    ensures var me, s' := s.cpus[c].env.value, Step(s, Dispatch(c, call));
            var to := Envid2Env(s.envs, me, call.envid, false);
            var wants := to.Some? && call.srcva < UTOP && s.envs[to.value].dstva < UTOP;
            if to.Some? && s.envs[to.value].recving && (wants ==> call.mapped == Success) then
              && s'.envs[to.value].status == Runnable && !s'.envs[to.value].recving
              && s'.envs[to.value].value == call.value && s'.envs[to.value].from == s.envs[me].id
              && s'.envs[to.value].perm == (if wants then call.perm else 0)
              && s'.mail == s.mail[to.value := s.mail[to.value].(sent := s.mail[to.value].sent + [call.value])]
            else
              && s'.mail == s.mail
              && forall e :: 0 <= e < NENV ==>
                   s'.envs[e] == s.envs[e] || (to == Some(e) && s'.envs[e] == s.envs[e].(perm := 0))
  {
    InvShaped(s);
  }
}
