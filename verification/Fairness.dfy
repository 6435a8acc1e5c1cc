/** Round-robin: how long a runnable environment can be passed over by one processor (kern/sched.c). */
module Fairness {
  import opened Options
  import opened Mmu
  import opened Envs
  import opened Smp
  import opened SmpInv

  /** The most sched_yield calls processor c can still make before it chooses e. */
  function Rank(s: System, c: nat, e: nat): nat
    requires c < |s.cpus|
  {
    match s.cpus[c].env
    case None => e + 1
    case Some(i) => Distance(i, e)
  }

  /** The processor's current environment has not made itself Runnable. */
  predicate CurrentBusy(s: System, c: nat)
    requires c < |s.cpus|
  {
    s.cpus[c].env.Some? && s.cpus[c].env.value < |s.envs| ==> s.envs[s.cpus[c].env.value].status != Runnable
  }

  /** Outside the kernel that is always so. */
  lemma OutsideBusy(s: System, c: nat)
    requires Inv(s) && c < |s.cpus| && !InKernel(s.cpus[c].pc)
    ensures CurrentBusy(s, c)
  {
    assert CpuOk(s.cpus[c], s.envs);
  }

  /** This step is neither the end of processor c's current environment nor a sys_env_set_status with which
      that environment makes itself Runnable. */
  predicate Stays(s: System, ev: Event, c: nat) {
    ev.c == c && c < |s.cpus| && |s.envs| == NENV && s.cpus[c].env.Some? && s.cpus[c].env.value < NENV ==>
      var me := s.cpus[c].env.value;
      && (ev.Collect? ==> s.envs[me].status != Dying)
      && (ev.Dispatch? ==>
            && !Exits(s.envs, me, ev.call)
            && (ev.call.SetStatus? && ev.call.status == Runnable ==>
                  Envid2Env(s.envs, me, ev.call.envid, true) != Some(me)))
  }

  lemma StartIsCurrent(s: System, c: nat)
    requires Inv(s) && c < |s.cpus| && s.cpus[c].env.Some?
    ensures s.cpus[c].env.value < NENV && StartSlot(s.envs, s.cpus[c].env) == s.cpus[c].env.value
  {
    InvShaped(s);
    assert CpuOk(s.cpus[c], s.envs);
    var i := s.cpus[c].env.value;
    assert IdOk(s.envs[i].id, i);
    var n: nat :| n > 0 && s.envs[i].id == NthId(i, n);
    NthIdClosed(i, n);
  }

  /** Moving from start to r, no farther than e, leaves exactly the rest of the way. */
  lemma Nearer(start: nat, r: nat, e: nat)
    requires start < NENV && r < NENV && e < NENV && Distance(start, r) <= Distance(start, e)
    ensures Distance(r, e) == Distance(start, e) - Distance(start, r)
    ensures Distance(r, e) == 0 <==> r == e
    ensures Distance(start, r) == 0 <==> r == start
  {}

  /** With something runnable, sched_yield runs what Pick chooses, scanning from the current slot. */
  lemma YieldRuns(s: System, c: nat, e: nat) returns (r: nat)
    requires Inv(s) && Enabled(s, Resched(c)) && e < NENV && s.envs[e].status == Runnable
    ensures var s' := Step(s, Resched(c));
            c < |s'.cpus| && s'.cpus[c].env == Some(r) && r < |s'.envs| && s'.envs[r].status == Running
    ensures var start := if s.cpus[c].env == None then 0 else s.cpus[c].env.value;
            && start < NENV && r < NENV && s.envs[r].status == Runnable
            && (s.envs[start].status == Runnable ==> Distance(start, r) <= Distance(start, start))
            && Distance(start, r) <= Distance(start, e)
  {
    InvShaped(s);
    if s.cpus[c].env.Some? {
      StartIsCurrent(s, c);
    }
    hide CpusOk, Apart, Owned, LockOk, SlotsOk, WaitersBlocked, Pick, Distance;
    var start := StartSlot(s.envs, s.cpus[c].env);
    PickNearest(s.envs, start);
    r := Pick(s.envs, start).value;
  }

  /** One sched_yield while e is runnable: it runs e, or moves on to an environment nearer before e. */
  lemma YieldApproaches(s: System, c: nat, e: nat)
    requires Inv(s) && Enabled(s, Resched(c)) && CurrentBusy(s, c) && e < NENV && s.envs[e].status == Runnable
    ensures var s' := Step(s, Resched(c));
            && c < |s'.cpus| && s'.cpus[c].env.Some? && s'.cpus[c].env.value < |s'.envs|
            && s'.envs[s'.cpus[c].env.value].status == Running
            && (s'.cpus[c].env != Some(e) ==> 0 < Rank(s', c, e) < Rank(s, c, e))
  {
    InvShaped(s);
    hide Inv, Step, Distance;
    var r := YieldRuns(s, c, e);
    var start := if s.cpus[c].env == None then 0 else s.cpus[c].env.value;
    Nearer(start, r, e);
    FromZero(e);
  }

  lemma FromZero(e: nat)
    requires e < NENV
    ensures Distance(0, e) == e && Distance(e, e) == 0
  {}

  /** What a yield does when the current environment is itself Runnable: it runs again, and e gets no nearer.
      So a yield makes progress towards e exactly when the current environment is not Runnable. */
  lemma YieldProgressIff(s: System, c: nat, e: nat)
    requires Inv(s) && Enabled(s, Resched(c)) && e < NENV && s.envs[e].status == Runnable
    requires s.cpus[c].env.Some? && s.cpus[c].env != Some(e)
    ensures var s' := Step(s, Resched(c));
            s'.cpus[c].env == Some(e) || Rank(s', c, e) < Rank(s, c, e) <==> CurrentBusy(s, c)
  {
    InvShaped(s);
    hide Inv, Step, Distance;
    if CurrentBusy(s, c) {
      YieldApproaches(s, c, e);
    } else {
      var start := s.cpus[c].env.value;
      var r := YieldRuns(s, c, e);
      FromZero(start);
      Nearer(start, r, start);
      Nearer(start, start, e);
    }
  }

  /** A call of environment me that neither ends it nor makes it Runnable. */
  lemma CallStays(s: System, me: nat, call: Call)
    requires Shaped(s) && me < NENV && s.envs[me].status == Running && !s.envs[me].recving
    requires forall f :: f in s.efree ==> f < NENV && f != me
    requires call.SetStatus? && call.status == Runnable ==> Envid2Env(s.envs, me, call.envid, true) != Some(me)
    ensures var s' := Handle(s, me, call); |s'.envs| == NENV && s'.cpus == s.cpus && s'.envs[me].status != Runnable
  {
    assert s.efree != [] ==> s.efree[0] in s.efree;
  }

  lemma OwnStep(s: System, ev: Event, s': System, c: nat)
    requires Inv(s) && Next(s, ev, s') && c < |s.cpus| && Stays(s, ev, c) && CurrentBusy(s, c)
    requires ev != Resched(c) && ev.c == c
    ensures c < |s'.cpus| && s'.cpus[c].env == s.cpus[c].env && CurrentBusy(s', c)
  {
    InvShaped(s);
    assert CpuOk(s.cpus[c], s.envs);
    if ev.Dispatch? {
      var me := s.cpus[c].env.value;
      assert me !in s.efree && !s.envs[me].recving;
      hide CpusOk, Apart, Owned, LockOk, SlotsOk, WaitersBlocked, Handle;
      CallStays(s, me, ev.call);
    } else {
      hide CpusOk, Apart, Owned, LockOk, SlotsOk, WaitersBlocked, Handle;
    }
  }

  lemma OtherStep(s: System, ev: Event, s': System, c: nat)
    requires Inv(s) && Next(s, ev, s') && c < |s.cpus| && Stays(s, ev, c) && CurrentBusy(s, c)
    requires ev != Resched(c)
    ensures c < |s'.cpus| && s'.cpus[c].env == s.cpus[c].env && CurrentBusy(s', c)
  {
    hide Inv, Next, CurrentBusy;
    if ev.c != c {
      NextKeeps(s, ev, s');
      OtherProcessor(s, ev, s', c);
    } else {
      OwnStep(s, ev, s', c);
    }
  }

  lemma OthersAlone(s: System, ev: Event, s': System, c: nat)
    requires Next(s, ev, s') && c < |s.cpus| && ev.c != c
    ensures |s'.cpus| == |s.cpus| && s'.cpus[c] == s.cpus[c]
    ensures !InKernel(s.cpus[ev.c].pc) ==> s'.envs == s.envs
  {
    if ev.Resched? {
      PickNearest(s.envs, StartSlot(s.envs, s.cpus[ev.c].env));
    }
  }

  lemma OtherProcessor(s: System, ev: Event, s': System, c: nat)
    requires Inv(s) && Inv(s') && Next(s, ev, s') && c < |s.cpus| && ev.c != c && CurrentBusy(s, c)
    ensures |s'.cpus| == |s.cpus| && s'.cpus[c] == s.cpus[c] && CurrentBusy(s', c)
  {
    OthersAlone(s, ev, s', c);
    if InKernel(s.cpus[c].pc) {
      Others(s, c, ev.c);
    } else {
      hide Inv, Next;
      OutsideBusy(s', c);
    }
  }

  /** How many of the events are sched_yield calls of processor c. */
  function Yields(events: seq<Event>, c: nat): nat {
    if events == [] then 0
    else Yields(events[..|events| - 1], c) + if events[|events| - 1] == Resched(c) then 1 else 0
  }

  /** e has been Runnable, and processor c's environments have stayed, in the first k steps. */
  ghost predicate PassedOver(states: seq<System>, events: seq<Event>, c: nat, e: nat, k: nat)
    requires |states| == |events| + 1 && k <= |events|
  {
    && (forall i :: 0 <= i <= k ==> |states[i].envs| == NENV && e < NENV && states[i].envs[e].status == Runnable)
    && (forall i :: 0 <= i < k ==> Stays(states[i], events[i], c))
  }

  lemma {:induction false} EachYieldCounts(states: seq<System>, events: seq<Event>, c: nat, e: nat, k: nat)
    requires Run(states, events) && Inv(states[0]) && k <= |events|
    requires c < |states[0].cpus| && CurrentBusy(states[0], c)
    requires PassedOver(states, events, c, e, k)
    ensures c < |states[k].cpus| && CurrentBusy(states[k], c)
    ensures Yields(events[..k], c) + Rank(states[k], c, e) <= Rank(states[0], c, e)
  {
    if k > 0 {
      EachYieldCounts(states, events, c, e, k - 1);
      RunKeeps(states, events, k - 1);
      var s, ev, s' := states[k - 1], events[k - 1], states[k];
      assert events[..k][..k - 1] == events[..k - 1];
      hide Inv;
      if ev == Resched(c) {
        YieldApproaches(s, c, e);
      } else {
        OtherStep(s, ev, s', c);
      }
    }
  }

  lemma YieldsNow(s: System, ev: Event, s': System, c: nat, e: nat)
    requires Inv(s) && Next(s, ev, s') && ev == Resched(c) && c < |s.cpus| && CurrentBusy(s, c)
    requires e < NENV && s.envs[e].status == Runnable
    ensures 0 < Rank(s, c, e)
    ensures Rank(s, c, e) == 1 ==>
              c < |s'.cpus| && s'.cpus[c].env == Some(e) && e < |s'.envs| && s'.envs[e].status == Running
  {
    hide Inv, Step, Distance;
    YieldApproaches(s, c, e);
    if s.cpus[c].env.Some? {
      CurrentSlot(s, c);
      FromZero(s.cpus[c].env.value);
      Nearer(s.cpus[c].env.value, s.cpus[c].env.value, e);
    }
  }

  lemma CurrentSlot(s: System, c: nat)
    requires Inv(s) && c < |s.cpus| && s.cpus[c].env.Some?
    ensures s.cpus[c].env.value < NENV == |s.envs|
  {
    InvShaped(s);
  }

  /** Round-robin bound: while e stays Runnable and processor c's environments neither end nor wake
      themselves, whatever happens to other environments and on other processors, c runs e by its Rank-th
      sched_yield at the latest, and that is at most the (NENV - 1)-th when c has a current environment. */
  lemma RoundRobin(states: seq<System>, events: seq<Event>, c: nat, e: nat, k: nat)
    requires Run(states, events) && Inv(states[0]) && k < |events|
    requires c < |states[0].cpus| && CurrentBusy(states[0], c)
    requires PassedOver(states, events, c, e, k) && events[k] == Resched(c)
    ensures Rank(states[0], c, e) <= if states[0].cpus[c].env.Some? then NENV - 1 else NENV
    ensures Yields(events[..k + 1], c) <= Rank(states[0], c, e)
    ensures Yields(events[..k + 1], c) == Rank(states[0], c, e) ==>
              && c < |states[k + 1].cpus| && states[k + 1].cpus[c].env == Some(e)
              && e < |states[k + 1].envs| && states[k + 1].envs[e].status == Running
  {
    hide Inv, Next, Step;
    EachYieldCounts(states, events, c, e, k);
    RunKeeps(states, events, k);
    assert events[..k + 1][..k] == events[..k];
    YieldsNow(states[k], events[k], states[k + 1], c, e);
    if states[0].cpus[c].env.Some? {
      CurrentSlot(states[0], c);
    }
  }

  // ---------------------------------------------------------------- the calls themselves

  /** sys_yield, and the timer, go to the scheduler: the processor can do nothing else next. */
  lemma YieldLeadsToResched(s: System, c: nat)
    requires Inv(s) && Enabled(s, Dispatch(c, Yield)) && Shaped(s) && forall e :: e in s.efree ==> e < NENV
    ensures var s' := Step(s, Dispatch(c, Yield));
            && c < |s'.cpus| && s'.cpus[c].env == s.cpus[c].env && s'.envs == s.envs
            && Enabled(s', Resched(c)) && forall ev: Event :: ev.c == c && Enabled(s', ev) ==> ev == Resched(c)
  {
    assert CpuOk(s.cpus[c], s.envs);
  }

  lemma SchedulerHandsOver(s: System, c: nat, me: nat) returns (r: nat)
    requires Shaped(s) && Enabled(s, Resched(c)) && forall e :: e in s.efree ==> e < NENV
    requires me < NENV && s.cpus[c].env == Some(me) && s.envs[me].status == Running && StartSlot(s.envs, Some(me)) == me
    ensures var s' := Step(s, Resched(c));
            && r < NENV && c < |s'.cpus| && s'.cpus[c].env == Some(r) && |s'.envs| == NENV && s'.envs[r].status == Running
            && (forall i :: 0 <= i < NENV && i != me && i != r ==> s'.envs[i] == s.envs[i])
            && (r != me ==> s'.envs[me].status == Runnable && s.envs[r].status == Runnable)
    ensures r == me <==> forall i :: 0 <= i < NENV ==> s.envs[i].status != Runnable
    ensures r != me ==> forall i :: 0 <= i < NENV && s.envs[i].status == Runnable ==> Distance(me, r) <= Distance(me, i)
  {
    hide Pick, Distance;
    PickNearest(s.envs, me);
    r := if Pick(s.envs, me).Some? then Pick(s.envs, me).value else me;
  }

  /** One environment yields while others are Runnable: the nearest one after it in the circular order gets the
      processor, and the caller waits for its next turn. With no other Runnable it goes on itself. */
  lemma YieldHandsOver(s: System, c: nat) returns (me: nat, r: nat)
    requires Inv(s) && Enabled(s, Dispatch(c, Yield)) && Shaped(s) && forall e :: e in s.efree ==> e < NENV
    ensures me < NENV && s.cpus[c].env == Some(me) && s.envs[me].status == Running && r < NENV
    ensures var s1 := Step(s, Dispatch(c, Yield));
            && Shaped(s1) && Enabled(s1, Resched(c)) && (forall e :: e in s1.efree ==> e < NENV)
            && var s2 := Step(s1, Resched(c));
               && c < |s2.cpus| && s2.cpus[c].env == Some(r) && |s2.envs| == NENV && s2.envs[r].status == Running
               && (forall i :: 0 <= i < NENV && i != me && i != r ==> s2.envs[i] == s.envs[i])
               && (r != me ==> s2.envs[me].status == Runnable && s.envs[r].status == Runnable)
    ensures r == me <==> forall i :: 0 <= i < NENV ==> s.envs[i].status != Runnable
    ensures r != me ==> forall i :: 0 <= i < NENV && s.envs[i].status == Runnable ==> Distance(me, r) <= Distance(me, i)
  {
    YieldLeadsToResched(s, c);
    StartIsCurrent(s, c);
    me := s.cpus[c].env.value;
    assert s.envs[me].status == Running by { assert CpuOk(s.cpus[c], s.envs); }
    var s1 := Step(s, Dispatch(c, Yield));
    assert Shaped(s1) && s1.efree == s.efree;
    hide Inv, Pick, Distance, Step;
    r := SchedulerHandsOver(s1, c, me);
  }

  /** How many of the events are yields of environments on processor c, by sys_yield or the timer. */
  function YieldCalls(events: seq<Event>, c: nat): nat {
    if events == [] then 0
    else YieldCalls(events[..|events| - 1], c) + if events[|events| - 1] == Dispatch(c, Yield) then 1 else 0
  }

  function AtScheduler(s: System, c: nat): nat { if c < |s.cpus| && s.cpus[c].pc == Yielding then 1 else 0 }

  lemma CallStep(s: System, ev: Event, s': System, c: nat)
    requires Next(s, ev, s') && c < |s.cpus| && Inv(s)
    ensures c < |s'.cpus|
    ensures AtScheduler(s, c) + (if ev == Dispatch(c, Yield) then 1 else 0) <=
              AtScheduler(s', c) + if ev == Resched(c) then 1 else 0
  {
    if ev.c != c {
      OthersAlone(s, ev, s', c);
    } else if ev == Dispatch(c, Yield) {
      InvShaped(s);
      YieldLeadsToResched(s, c);
    } else if ev.Resched? {
      PickNearest(s.envs, StartSlot(s.envs, s.cpus[c].env));
    }
  }

  lemma {:induction false} EachCallResched(states: seq<System>, events: seq<Event>, c: nat, k: nat)
    requires Run(states, events) && Inv(states[0]) && k <= |events| && c < |states[0].cpus|
    ensures c < |states[k].cpus|
    ensures YieldCalls(events[..k], c) + AtScheduler(states[0], c) <= Yields(events[..k], c) + AtScheduler(states[k], c)
  {
    if k > 0 {
      EachCallResched(states, events, c, k - 1);
      RunKeeps(states, events, k - 1);
      assert events[..k][..k - 1] == events[..k - 1];
      hide Inv, Next;
      CallStep(states[k - 1], events[k - 1], states[k], c);
    }
  }

  lemma RankPositive(s: System, c: nat, e: nat)
    requires Inv(s) && c < |s.cpus| && CurrentBusy(s, c) && e < NENV && s.envs[e].status == Runnable
    ensures Rank(s, c, e) > 0
  {
    if s.cpus[c].env.Some? {
      CurrentSlot(s, c);
      var i := s.cpus[c].env.value;
      hide Inv;
      FromZero(i);
      Nearer(i, i, e);
    }
  }

  /** The round-robin bound in terms of yields: while e is passed over, the environments of processor c yield at
      most NENV - 1 times (NENV, if c had none), and once they have yielded Rank times e is what c runs next. */
  lemma RoundRobinYields(states: seq<System>, events: seq<Event>, c: nat, e: nat, k: nat)
    requires Run(states, events) && Inv(states[0]) && k <= |events|
    requires c < |states[0].cpus| && CurrentBusy(states[0], c) && PassedOver(states, events, c, e, k)
    ensures Rank(states[0], c, e) <= if states[0].cpus[c].env.Some? then NENV - 1 else NENV
    ensures YieldCalls(events[..k], c) <= Rank(states[0], c, e)
    ensures YieldCalls(events[..k], c) == Rank(states[0], c, e) ==>
              && (forall ev: Event :: ev.c == c && Enabled(states[k], ev) ==> ev == Resched(c))
              && Shaped(states[k]) && Enabled(states[k], Resched(c)) && (forall f :: f in states[k].efree ==> f < NENV)
              && var s' := Step(states[k], Resched(c));
                 c < |s'.cpus| && s'.cpus[c].env == Some(e) && e < |s'.envs| && s'.envs[e].status == Running
  {
    hide Inv, Next, Step;
    EachYieldCounts(states, events, c, e, k);
    EachCallResched(states, events, c, k);
    RunKeeps(states, events, k);
    RankPositive(states[k], c, e);
    if states[0].cpus[c].env.Some? {
      CurrentSlot(states[0], c);
    }
    InvShaped(states[k]);
    if YieldCalls(events[..k], c) == Rank(states[0], c, e) {
      YieldApproaches(states[k], c, e);
    }
  }
}
