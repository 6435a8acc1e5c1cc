/** The scheduler's loops over envs[] (kern/sched.c, env_run in kern/env.c, the end of trap in kern/trap.c),
    in place, against the steps of the multiprocessor model. */
module Sched {
  import opened Options
  import opened Mmu
  import opened Envs
  import opened Smp

  /** One iteration of either loop: offset k of the scan is slot i. */
  lemma Scanned(envs: seq<Env>, start: nat, k: nat, i: nat)
    requires |envs| == NENV && k < NENV && i < NENV && (start + k == i || start + k == i + NENV)
    ensures PickFrom(envs, start, k) == if envs[i].status == Runnable then Some(i) else PickFrom(envs, start, k + 1)
  {
    assert (start + k) % NENV == i;
  }

  lemma ScannedAll(envs: seq<Env>, start: nat)
    requires |envs| == NENV
    ensures PickFrom(envs, start, NENV) == None
  {}

  class Machine {
    var locked: bool
    const cpus: array<Cpu>
    const envs: array<Env>
    var efree: seq<nat>
    ghost var mail: seq<Mailbox>

    constructor (ncpu: nat)
      ensures |View().cpus| == ncpu && Shaped(View()) && !locked && fresh(cpus) && fresh(envs)
      ensures forall c :: 0 <= c < ncpu ==> cpus[c] == Cpu(Spinning(false, 1), None, false, 1, 0, 0)
      ensures forall e :: 0 <= e < NENV ==> envs[e] == Env(0, 0, Free, 0, false, 0, 0, 0, 0)
    {
      locked := false;
      cpus := new Cpu[ncpu](_ => Cpu(Spinning(false, 1), None, false, 1, 0, 0));
      envs := new Env[NENV](_ => Env(0, 0, Free, 0, false, 0, 0, 0, 0));
      efree := seq(NENV, (i: nat) => i);
      mail := seq(NENV, _ => Mailbox([], [], false));
    }

    ghost function View(): System
      reads this, cpus, envs
    {
      System(locked, cpus[..], envs[..], efree, mail)
    }

    /** xchg(&lk->locked, 1) in spin_lock: true when the lock was free and is now held. */
    method TryLock(c: nat) returns (got: bool)
      requires Shaped(View()) && Enabled(View(), Xchg(c)) && forall e :: e in efree ==> e < NENV
      modifies `locked, cpus
      ensures View() == Step(old(View()), Xchg(c))
      ensures locked && (got <==> !old(locked))
    {
      var was := locked;
      locked := true;
      got := !was;
      if got {
        ghost var all := cpus[..];
        var x := cpus[c];
        cpus[c] := x.(pc := if x.pc.need <= 1 then Entered(x.pc.user) else Spinning(x.pc.user, x.pc.need - 1),
                      acquired := x.acquired + 1);
        assert cpus[..] == all[c := cpus[c]];
      }
    }

    /** xchg(&lk->locked, 0) in spin_unlock, at the end of env_run or sched_halt. */
    method UnlockKernel(c: nat)
      requires Shaped(View()) && Enabled(View(), Unlock(c)) && forall e :: e in efree ==> e < NENV
      modifies `locked, cpus
      ensures View() == Step(old(View()), Unlock(c))
    {
      ghost var all := cpus[..];
      var x := cpus[c];
      locked := false;
      cpus[c] := x.(pc := if x.pc.toUser then User else Halted, released := x.released + 1);
      assert cpus[..] == all[c := cpus[c]];
    }

    /** env_run, up to unlock_kernel. */
    method EnvRun(c: nat, e: nat)
      requires Shaped(View()) && c < cpus.Length && e < NENV
      modifies cpus, envs
      ensures View() == Smp.EnvRun(old(View()), c, e)
    {
      ghost var all, table := cpus[..], envs[..];
      var cur := cpus[c].env;
      if cur.Some? && envs[cur.value].status == Running {
        envs[cur.value] := envs[cur.value].(status := Runnable);
        assert envs[..] == table[cur.value := table[cur.value].(status := Runnable)];
      }
      ghost var parked := envs[..];
      cpus[c] := cpus[c].(env := Some(e), pc := Leaving(true));
      envs[e] := envs[e].(status := Running);
      assert envs[..] == parked[e := parked[e].(status := Running)];
      assert cpus[..] == all[c := cpus[c]];
    }

    /** sched_halt, up to unlock_kernel. */
    method SchedHalt(c: nat)
      requires Shaped(View()) && c < cpus.Length
      modifies cpus
      ensures View() == Smp.SchedHalt(old(View()), c)
    {
      ghost var all := cpus[..];
      var i := 0;
      while i < NENV
        invariant 0 <= i <= NENV && cpus[..] == all
        invariant forall j :: 0 <= j < i ==>
                    envs[j].status != Runnable && envs[j].status != Running && envs[j].status != Dying
      {
        if envs[i].status == Runnable || envs[i].status == Running || envs[i].status == Dying {
          break;
        }
        i := i + 1;
      }
      if i == NENV {
        assert Idle(envs[..]);
        cpus[c] := cpus[c].(pc := Monitor);
      } else {
        assert !Idle(envs[..]) by { assert envs[..][i] == envs[i]; }
        cpus[c] := cpus[c].(env := None, halted := true, pc := Leaving(false));
      }
      assert cpus[..] == all[c := cpus[c]];
    }

    /** sched_yield: a scan from the current slot to the end, another from the start back to it. */
    method SchedYield(c: nat)
      requires Shaped(View()) && c < cpus.Length
      modifies cpus, envs
      ensures View() == Smp.SchedYield(old(View()), c)
    {
      hide Smp.EnvRun, Smp.SchedHalt, PickFrom, Distance;
      var idle := cpus[c].env;
      var id := if idle.Some? then envs[idle.value].id else 0;
      ghost var start, table := Envx(id), envs[..];
      PickNearest(table, start);
      var i := Envx(id);
      while i < NENV
        invariant start <= i <= NENV && envs[..] == table && cpus[..] == old(cpus[..])
        invariant Pick(table, start) == PickFrom(table, start, i - start)
      {
        Scanned(table, start, i - start, i);
        if envs[i].status == Runnable {
          EnvRun(c, i);
          return;
        }
        i := i + 1;
      }
      i := 0;
      while i < Envx(id)
        invariant 0 <= i <= start && envs[..] == table && cpus[..] == old(cpus[..])
        invariant Pick(table, start) == PickFrom(table, start, NENV - start + i)
      {
        Scanned(table, start, NENV - start + i, i);
        if envs[i].status == Runnable {
          EnvRun(c, i);
          return;
        }
        i := i + 1;
      }
      ScannedAll(table, start);
      if idle.Some? && envs[idle.value].status == Running {
        EnvRun(c, idle.value);
      } else {
        SchedHalt(c);
      }
    }

    /** The end of trap: back to the current environment if it is still running, else the scheduler. */
    method TrapReturn(c: nat)
      requires Shaped(View()) && Enabled(View(), Finish(c)) && forall e :: e in efree ==> e < NENV
      modifies cpus, envs
      ensures var s := Step(old(View()), Finish(c));
              View() == if s.cpus[c].pc == Yielding then Smp.SchedYield(s, c) else s
    {
      hide Smp.SchedYield;
      var x := cpus[c];
      if x.env.Some? && envs[x.env.value].status == Running {
        EnvRun(c, x.env.value);
        assert cpus[c].pc == Leaving(true);
      } else {
        ghost var all := cpus[..];
        cpus[c] := x.(pc := Yielding);
        assert cpus[..] == all[c := cpus[c]];
        SchedYield(c);
      }
    }
  }
}
