/** Environment table entries and their ids (inc/env.h, kern/env.c). */
module Envs {
  import opened Mmu
  import opened Options

  datatype Status = Free | Dying | Runnable | Running | NotRunnable

  datatype Env = Env(
    id: int, parent: int, status: Status, upcall: nat,
    recving: bool, dstva: nat, value: nat, from: int, perm: bv32)

  datatype Error = Success | BadEnv | Inval | NoMem | NoFreeEnv | Fault | IpcNotRecv

  const GENERATION := 0x1000 // 1 << ENVGENSHIFT
  const INT_LIMIT := 0x8000_0000
  const GENERATIONS := 0x7_FFFF // 2^19 - 1

  /** ENVX: the low ten bits, for negative ids too. */
  function Envx(id: int): nat { id % NENV }

  /** The id env_alloc gives to slot `slot` whose last id was `id`; a sum past 2^31 - 1 wraps negative. */
  function NextId(id: int, slot: nat): int {
    var generation := (id + GENERATION) / NENV * NENV;
    (if generation <= 0 || generation >= INT_LIMIT then GENERATION else generation) + slot
  }

  /** envid2env: slot of the environment, or None for E_BAD_ENV. */
  function Envid2Env(envs: seq<Env>, cur: nat, envid: int, checkperm: bool): (r: Option<nat>)
    requires |envs| == NENV && cur < NENV
    ensures r.Some? ==> r.value < NENV
    ensures r.Some? && envid != 0 ==> envs[r.value].status != Free && envs[r.value].id == envid
    ensures r.Some? && checkperm ==> r.value == cur || envs[r.value].parent == envs[cur].id
  {
    if envid == 0 then Some(cur)
    else
      var e := Envx(envid);
      if envs[e].status == Free || envs[e].id != envid then None
      else if checkperm && e != cur && envs[e].parent != envs[cur].id then None
      else Some(e)
  }

  /** The fields env_alloc sets. */
  function Fresh(was: Env, slot: nat, parent: int): Env {
    was.(id := NextId(was.id, slot), parent := parent, status := Runnable, upcall := 0, recving := false)
  }

  /** The receiver's fields after a successful sys_ipc_try_send. */
  function Delivered(to: Env, from: int, value: nat, perm: bv32): Env {
    to.(recving := false, from := from, value := value, perm := perm, status := Runnable)
  }

  /** The caller's fields after sys_ipc_recv: an unwanted page leaves the old env_ipc_dstva in place. */
  function Receiving(me: Env, dstva: nat): Env {
    me.(dstva := if dstva < UTOP then dstva else me.dstva, recving := true, status := NotRunnable)
  }

  // ---------------------------------------------------------------- ids

  /** The id of a slot after it has been allocated n times since boot (env_init sets it to 0). */
  function NthId(slot: nat, n: nat): int {
    if n == 0 then 0 else NextId(NthId(slot, n - 1), slot)
  }

  /** Number of the generation a slot is in after n allocations: 1 to 2^19 - 1, then 1 again. */
  function Generation(n: nat): nat
    requires n > 0
  {
    1 + (n - 1) % GENERATIONS
  }

  lemma GenerationStep(n: nat)
    requires n > 0
    ensures 1 <= Generation(n) <= GENERATIONS
    ensures Generation(n + 1) == if Generation(n) == GENERATIONS then 1 else Generation(n) + 1
  {}

  lemma DivMod(q: nat, r: nat)
    requires r < NENV
    ensures (NENV * q + r) / NENV == q && (NENV * q + r) % NENV == r
  {}

  lemma NextIdStep(slot: nat, g: nat)
    requires slot < NENV && g <= GENERATIONS
    ensures NextId(slot + GENERATION * g, slot) == slot + GENERATION * if g == GENERATIONS then 1 else g + 1
  {
    DivMod(4 * (g + 1), slot);
  }

  /** Ids cycle through the positive generations in order, and carry their slot in the low bits. */
  lemma {:induction false} NthIdClosed(slot: nat, n: nat)
    requires slot < NENV && n > 0
    ensures NthId(slot, n) == slot + GENERATION * Generation(n)
    ensures 0 < NthId(slot, n) < INT_LIMIT && Envx(NthId(slot, n)) == slot
  {
    if n == 1 {
      assert (0 + GENERATION) / NENV * NENV == GENERATION;
    } else {
      NthIdClosed(slot, n - 1);
      GenerationStep(n - 1);
      NextIdStep(slot, Generation(n - 1));
    }
    DivMod(4 * Generation(n), slot);
  }

  lemma GenerationsRepeat(m: nat, n: nat)
    requires 0 < m < n <= m + GENERATIONS
    ensures Generation(m) == Generation(n) <==> n == m + GENERATIONS
  {
    if n == m + GENERATIONS {
      assert (m - 1 + GENERATIONS) % GENERATIONS == (m - 1) % GENERATIONS;
    }
  }

  /** An id handed out as the m-th of its slot names nothing once it is freed, and stays rejected while the
      slot is reused, until exactly 2^19 - 1 reuses later the same id is handed out again. */
  lemma StaleIdRejected(envs: seq<Env>, cur: nat, slot: nat, m: nat, n: nat)
    requires |envs| == NENV && cur < NENV && slot < NENV && 0 < m <= n <= m + GENERATIONS
    requires envs[slot].id == NthId(slot, n)
    ensures Envid2Env(envs, cur, NthId(slot, m), false) ==
              if envs[slot].status != Free && (n == m || n == m + GENERATIONS) then Some(slot) else None
  {
    NthIdClosed(slot, m);
    NthIdClosed(slot, n);
    if m < n {
      GenerationsRepeat(m, n);
    }
  }

  /** An id a slot can hold: the 0 of env_init, or one env_alloc gave it. */
  ghost predicate IdOk(id: int, slot: nat) {
    id == 0 || exists n: nat :: n > 0 && id == NthId(slot, n)
  }

  lemma FreshId(id: int, slot: nat)
    requires IdOk(id, slot) && slot < NENV
    ensures IdOk(NextId(id, slot), slot) && NextId(id, slot) > 0
  {
    var n: nat :| id == NthId(slot, n);
    assert NthId(slot, n + 1) == NextId(id, slot);
    NthIdClosed(slot, n + 1);
  }
}
