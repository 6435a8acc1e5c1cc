/** What user code can reach through the page tables in memory, and what the system calls that map pages do to it
    (kern/pmap.c, kern/syscall.c). Nothing here is said in terms of the ghost references. */
module UserView {
  import opened Options
  import opened Mmu
  import opened RefCount
  import opened PageInv
  import opened Envs
  import opened Kernels
  import opened AddressSpace

  /** A physical page and what user code may do there. */
  datatype Access = Access(page: nat, user: bool, write: bool)

  /** The processor's two-level walk from the directory in page d: both entries must be present, and allow users,
      and allow writing. */
  ghost function Translate(mem: seq<Words>, d: nat, va: nat): Option<Access> {
    if d >= |mem| || Pdx(va) >= NPDENTRIES then None
    else
      var pde := mem[d][Pdx(va)];
      if !Present(pde) || pde.ppn >= |mem| then None
      else
        var pte := mem[pde.ppn][Ptx(va)];
        if !Present(pte) then None
        else Some(Access(pte.ppn, UserBit(pde) && UserBit(pte), Writable(pde) && Writable(pte)))
  }

  /** What environment e reaches at va. */
  ghost function View(k: Kernel, e: nat, va: nat): Option<Access>
    reads k, k.mem, k.envPgdir
  {
    if e < k.envPgdir.Length && k.envPgdir[e].Some? then Translate(k.mem[..], k.envPgdir[e].value, va) else None
  }

  /** Has e a page table for va? */
  ghost predicate HasTable(k: Kernel, e: nat, va: nat)
    reads k, k.mem, k.envPgdir
  {
    && e < k.envPgdir.Length && k.envPgdir[e].Some? && k.envPgdir[e].value < k.mem.Length
    && Pdx(va) < NPDENTRIES && Present(k.mem[k.envPgdir[e].value][Pdx(va)])
  }

  /** May user code store there? */
  predicate Stores(a: Option<Access>) { a.Some? && a.value.user && a.value.write }

  /** The page and the rights of a mapping of the flat map. */
  ghost function Flat(refs: Refs, e: nat, va: nat): Option<Access> {
    if LeafAt(e, va) in refs then
      Some(Access(refs[LeafAt(e, va)].ppn, UserBit(refs[LeafAt(e, va)]), Writable(refs[LeafAt(e, va)])))
    else None
  }

  /** The processor gives user code exactly the page and the rights that the flat map has for the address: nothing
      on the way to a page table entry takes any away. */
  lemma AccessIsFlat(rsv: set<nat>, kpd: nat, mem: seq<Words>, dir: seq<Option<nat>>, refs: Refs, e: nat, va: nat)
    requires Agree(rsv, kpd, mem, dir, refs) && Open(refs) && e < NENV && va < UTOP
    ensures (if dir[e].Some? then Translate(mem, dir[e].value, va) else None) == Flat(refs, e, va)
    ensures LeafAt(e, va) in refs ==> UserBit(refs[LeafAt(e, va)])
  {
    assert Pdx(va) < USER_PDES;
    var table, leaf := Table(e, Pdx(va)), LeafAt(e, va);
    assert table in refs ==> OpenEntry(table, refs[table]);
    assert leaf in refs ==> OpenEntry(leaf, refs[leaf]);
    DirMeans(rsv, kpd, mem, dir, refs, e);
    PteMeans(rsv, kpd, mem, dir, refs, e, Pdx(va), Ptx(va));
    if Dir(e) in refs {
      PdeMeans(rsv, kpd, mem, dir, refs, e, Pdx(va));
    }
    hide Agree;
  }

  /** Whoever reads above UTOP reads through UVPT: at UVPT the pages of the environment's own page tables, and its
      directory among them, never to be written. Everything else up there belongs to the kernel. */
  lemma UvptReadsTables(rsv: set<nat>, kpd: nat, mem: seq<Words>, dir: seq<Option<nat>>, refs: Refs, e: nat, i: nat)
    requires Agree(rsv, kpd, mem, dir, refs) && e < NENV && dir[e].Some? && i < NPDENTRIES
    ensures dir[e].value < |mem|
    ensures Translate(mem, dir[e].value, UVPT + i * PGSIZE) ==
              var x := mem[dir[e].value][i];
              if Present(x) then Some(Access(x.ppn, UserBit(x), false)) else None
  {
    var d := dir[e].value;
    assert KernelEntries(mem, kpd, refs[Dir(e)].ppn);
    assert UVPT + i * PGSIZE == PgAddr(UVPT_PDX, i);
    PgAddrInverse(UVPT_PDX, i);
    hide Agree;
  }

  lemma TableIsThere(k: Kernel, e: nat, va: nat)
    requires k.Valid() && e < NENV && va < UTOP
    ensures HasTable(k, e, va) <==> Table(e, Pdx(va)) in k.refs
  {
    assert Pdx(va) < USER_PDES;
    DirMeans(k.reserved, k.kernPgdir, k.mem[..], k.envPgdir[..], k.refs, e);
    PteMeans(k.reserved, k.kernPgdir, k.mem[..], k.envPgdir[..], k.refs, e, Pdx(va), 0);
    if Dir(e) in k.refs {
      PdeMeans(k.reserved, k.kernPgdir, k.mem[..], k.envPgdir[..], k.refs, e, Pdx(va));
    }
    hide Agree, FreeList, Counts, Chain, TableOk, Open;
  }

  lemma ViewIsFlat(k: Kernel)
    requires k.Valid()
    ensures forall f: nat, a: nat :: f < NENV && a < UTOP ==> View(k, f, a) == Flat(k.refs, f, a)
    ensures forall r :: r in k.refs && r.Leaf? ==> UserBit(k.refs[r]) && k.refs[r].ppn < k.npages
  {
    hide Agree, FreeList, Counts, Chain, TableOk;
    forall f: nat, a: nat | f < NENV && a < UTOP ensures View(k, f, a) == Flat(k.refs, f, a) {
      AccessIsFlat(k.reserved, k.kernPgdir, k.mem[..], k.envPgdir[..], k.refs, f, a);
    }
    forall r | r in k.refs && r.Leaf? ensures UserBit(k.refs[r]) && k.refs[r].ppn < k.npages {
      assert OpenEntry(r, k.refs[r]);
      TargetOwned(k.reserved, k.kernPgdir, k.mem[..], k.envPgdir[..], k.refs, r);
    }
  }

  // ---------------------------------------------------------------- the system calls that map pages

  lemma UserFlags(perm: bv32, p: nat)
    ensures var x := Entry(p, perm | PTE_P | PTE_U); UserBit(x) && (Writable(x) <==> perm & PTE_W != 0)
    ensures !BadPerm(perm) <==> GoodPerm(perm)
  {}

  /** Mapping page p at va in t changes what t reaches on that one page. */
  lemma FlatInserted(refs: Refs, free: seq<nat>, t: nat, va: nat, p: nat, perm: bv32)
    ensures var refs' := Inserted(refs, free, t, va, Entry(p, perm | PTE_P | PTE_U));
            forall f: nat, a: nat :: Flat(refs', f, a) ==
              if f == t && a / PGSIZE == va / PGSIZE then Some(Access(p, true, perm & PTE_W != 0)) else Flat(refs, f, a)
  {
    UserFlags(perm, p);
    var refs' := Inserted(refs, free, t, va, Entry(p, perm | PTE_P | PTE_U));
    forall f: nat, a: nat ensures Flat(refs', f, a) ==
      if f == t && a / PGSIZE == va / PGSIZE then Some(Access(p, true, perm & PTE_W != 0)) else Flat(refs, f, a)
    {
      SamePage(f, a, t, va);
    }
  }

  lemma FlatRemoved(refs: Refs, t: nat, va: nat)
    ensures forall f: nat, a: nat :: Flat(refs - {LeafAt(t, va)}, f, a) ==
              if f == t && a / PGSIZE == va / PGSIZE then None else Flat(refs, f, a)
  {
    forall f: nat, a: nat ensures Flat(refs - {LeafAt(t, va)}, f, a) ==
      if f == t && a / PGSIZE == va / PGSIZE then None else Flat(refs, f, a)
    {
      SamePage(f, a, t, va);
    }
  }

  /** A page on the free list is nobody's. */
  lemma FreeUnseen(k: Kernel, p: nat)
    requires k.Valid() && p in k.free
    ensures forall f: nat, a: nat :: Flat(k.refs, f, a).Some? ==> Flat(k.refs, f, a).value.page != p
  {
    hide Agree, TableOk;
    ReferencedNotFree(k.reserved, k.ppRef[..], k.refs, k.free, k.loose);
  }

  /** An address or permissions that the page system calls take? */
  predicate GoodVa(va: nat) { va < UTOP && va % PGSIZE == 0 }
  predicate GoodPerm(perm: bv32) { perm & !(PTE_P | PTE_U | PTE_W | PTE_AVAIL) == 0 }

  /** sys_page_alloc: on success one page of the target is a zeroed page that nobody reached before, and nothing
      else changes for anybody. */
  method PageAlloc(k: Kernel, envid: int, va: nat, perm: bv32) returns (r: Error, ghost t: nat, ghost p: nat)
    requires k.HasCurrent()
    modifies k`pageFreeList, k`free, k`loose, k`refs, k.ppLink, k.ppRef, k.mem, k.data
    ensures k.HasCurrent()
    ensures if !GoodVa(va) || !GoodPerm(perm) then r == Inval
            else if Envid2Env(k.envs[..], k.curenv.value, envid, true) == None then r == BadEnv
            else if |old(k.free)| > 1 then r == Success
            else
              r == if old(k.free) != [] && old(HasTable(k, Envid2Env(k.envs[..], k.curenv.value, envid, true).value, va))
                   then Success else NoMem
    ensures r == Success ==>
              && Envid2Env(k.envs[..], k.curenv.value, envid, true) == Some(t)
              && p < k.npages && k.data[p] == ZeroPage()
              && forall f: nat, a: nat :: f < NENV && a < UTOP ==>
                   && (old(View(k, f, a)).Some? ==> old(View(k, f, a)).value.page != p)
                   && View(k, f, a) == if f == t && a / PGSIZE == va / PGSIZE then Some(Access(p, true, perm & PTE_W != 0))
                                       else old(View(k, f, a))
    ensures r != Success ==> forall f: nat, a: nat :: f < NENV && a < UTOP ==> View(k, f, a) == old(View(k, f, a))
  {
    hide Agree, FreeList, Counts, Chain, TableOk, Inserted, Flat, View, HasTable, Open;
    ghost var refs0, free0 := k.refs, k.free;
    t, p := 0, 0;
    ViewIsFlat(k);
    if free0 != [] {
      FreeUnseen(k, free0[0]);
    }
    UserFlags(perm, 0);
    ghost var to := Envid2Env(k.envs[..], k.curenv.value, envid, true);
    if to.Some? && GoodVa(va) {
      TableIsThere(k, to.value, va);
    }
    r := k.SysPageAlloc(envid, va, perm);
    ViewIsFlat(k);
    if r == Success {
      t, p := Envid2Env(k.envs[..], k.curenv.value, envid, true).value, free0[0];
      FlatInserted(refs0, free0[1..], t, va, p, perm);
    }
  }

  /** Can access a be passed on with these permissions? Only if it exists, and writable only if it is. */
  predicate Lent(a: Option<Access>, perm: bv32) { a.Some? && (perm & PTE_W != 0 ==> a.value.write) }

  /** What is then passed on. */
  function Loan(a: Option<Access>, perm: bv32): Access {
    Access(if a.Some? then a.value.page else 0, true, perm & PTE_W != 0)
  }

  /** sys_page_map: on success the page that the source environment reaches at srcva, with no right to write that
      the source does not have. */
  method PageMap(k: Kernel, srcid: int, srcva: nat, dstid: int, dstva: nat, perm: bv32)
    returns (r: Error, ghost s: nat, ghost t: nat)
    requires k.HasCurrent()
    requires Countable(k.refs, k.free, Envid2Env(k.envs[..], k.curenv.value, srcid, true), srcva,
                       Envid2Env(k.envs[..], k.curenv.value, dstid, true), dstva, perm)
    modifies k`pageFreeList, k`free, k`loose, k`refs, k.ppLink, k.ppRef, k.mem, k.data
    ensures k.HasCurrent()
    ensures var src := Envid2Env(k.envs[..], k.curenv.value, srcid, true);
            if !GoodVa(srcva) || !GoodVa(dstva) || !GoodPerm(perm) then r == Inval
            else if src == None then r == BadEnv
            else if !Lent(old(View(k, src.value, srcva)), perm) then r == Inval
            else if Envid2Env(k.envs[..], k.curenv.value, dstid, true) == None then r == BadEnv
            else
              r == if old(k.free) != [] || old(HasTable(k, Envid2Env(k.envs[..], k.curenv.value, dstid, true).value, dstva))
                   then Success else NoMem
    ensures r == Success ==>
              && Envid2Env(k.envs[..], k.curenv.value, srcid, true) == Some(s)
              && Envid2Env(k.envs[..], k.curenv.value, dstid, true) == Some(t)
              && forall f: nat, a: nat :: f < NENV && a < UTOP ==>
                   View(k, f, a) == if f == t && a / PGSIZE == dstva / PGSIZE then Some(Loan(old(View(k, s, srcva)), perm))
                                    else old(View(k, f, a))
    ensures r != Success ==> forall f: nat, a: nat :: f < NENV && a < UTOP ==> View(k, f, a) == old(View(k, f, a))
  {
    hide Agree, FreeList, Counts, Chain, TableOk, Inserted, View, HasTable, Open, LeafAt, Countable;
    ghost var refs0, free0 := k.refs, k.free;
    s, t := 0, 0;
    ViewIsFlat(k);
    UserFlags(perm, 0);
    ghost var to := Envid2Env(k.envs[..], k.curenv.value, dstid, true);
    if to.Some? && GoodVa(dstva) {
      TableIsThere(k, to.value, dstva);
    }
    r := k.SysPageMap(srcid, srcva, dstid, dstva, perm);
    ViewIsFlat(k);
    if r == Success {
      s := Envid2Env(k.envs[..], k.curenv.value, srcid, true).value;
      t := Envid2Env(k.envs[..], k.curenv.value, dstid, true).value;
      assert Lent(Flat(refs0, s, srcva), perm);
      FlatInserted(refs0, free0, t, dstva, refs0[LeafAt(s, srcva)].ppn, perm);
    }
  }

  /** sys_page_unmap: one page of the target is gone. */
  method PageUnmap(k: Kernel, envid: int, va: nat) returns (r: Error, ghost t: nat)
    requires k.HasCurrent()
    modifies k`pageFreeList, k`free, k`loose, k`refs, k.ppLink, k.ppRef, k.mem, k.data
    ensures k.HasCurrent()
    ensures r == if !GoodVa(va) then Inval
                 else if Envid2Env(k.envs[..], k.curenv.value, envid, true) == None then BadEnv else Success
    ensures r == Success ==>
              && Envid2Env(k.envs[..], k.curenv.value, envid, true) == Some(t)
              && forall f: nat, a: nat :: f < NENV && a < UTOP ==>
                   View(k, f, a) == if f == t && a / PGSIZE == va / PGSIZE then None else old(View(k, f, a))
    ensures r != Success ==> forall f: nat, a: nat :: f < NENV && a < UTOP ==> View(k, f, a) == old(View(k, f, a))
  {
    hide Agree, FreeList, Counts, Chain, TableOk, Flat, View, Open;
    ghost var refs0 := k.refs;
    t := 0;
    ViewIsFlat(k);
    r := k.SysPageUnmap(envid, va);
    ViewIsFlat(k);
    if r == Success {
      t := Envid2Env(k.envs[..], k.curenv.value, envid, true).value;
      FlatRemoved(refs0, t, va);
    }
  }

  // ---------------------------------------------------------------- environments that come and go

  lemma FlatDir(refs: Refs, e: nat, x: Entry)
    ensures forall f: nat, a: nat :: Flat(refs[Dir(e) := x], f, a) == Flat(refs, f, a)
  {}

  lemma FlatWithout(refs: Refs, e: nat)
    ensures forall f: nat, a: nat :: Flat(Without(refs, e), f, a) == if f == e then None else Flat(refs, f, a)
  {}

  /** sys_exofork: the child reaches nothing, cannot run yet, takes no faults and waits for no message; its parent
      finds it by its id. */
  method Exofork(k: Kernel) returns (r: Error, child: nat)
    requires k.HasCurrent()
    modifies k`pageFreeList, k`free, k`loose, k`refs, k`envFreeList, k`efree, k.ppLink, k.ppRef, k.mem, k.data,
             k.envPgdir, k.envs
    ensures k.HasCurrent()
    ensures forall f: nat, a: nat :: f < NENV && a < UTOP ==> View(k, f, a) == old(View(k, f, a))
    ensures r == if old(k.efree) == [] then NoFreeEnv else if old(k.free) == [] then NoMem else Success
    ensures r == Success ==>
              && child < NENV && child != k.curenv.value && old(k.envs[..])[child].status == Free
              && (forall a: nat :: a < UTOP ==> View(k, child, a) == None)
              && var x := k.envs[child];
                 && x.status == NotRunnable && x.upcall == 0 && !x.recving && x.parent == k.envs[k.curenv.value].id
                 && Envid2Env(k.envs[..], k.curenv.value, x.id, true) == Some(child)
    ensures forall e :: 0 <= e < NENV && !(r == Success && e == child) ==> k.envs[e] == old(k.envs[e])
  {
    hide Agree, FreeList, Counts, Chain, Flat, View, Open, Envid2Env;
    ghost var refs0, free0 := k.refs, k.free;
    ViewIsFlat(k);
    r, child := k.SysExofork();
    ViewIsFlat(k);
    if r == Success {
      assert child in old(k.efree);
      NoDirFlat(k.reserved, k.kernPgdir, old(k.mem[..]), old(k.envPgdir[..]), refs0, child);
      FlatDir(refs0, child, Entry(free0[0], 0));
    }
  }

  lemma NoDirFlat(rsv: set<nat>, kpd: nat, mem: seq<Words>, dir: seq<Option<nat>>, refs: Refs, e: nat)
    requires Agree(rsv, kpd, mem, dir, refs) && e < NENV && Dir(e) !in refs
    ensures forall a: nat :: a < UTOP ==> Flat(refs, e, a) == None
  {
    forall a: nat | a < UTOP ensures Flat(refs, e, a) == None {
      assert Pdx(a) < USER_PDES;
      PteMeans(rsv, kpd, mem, dir, refs, e, Pdx(a), Ptx(a));
    }
    hide Agree;
  }

  /** env_free: its memory is gone, and nobody else's has changed. */
  method Release(k: Kernel, e: nat)
    requires k.Valid() && e < NENV && k.envs[e].status != Free
    modifies k`pageFreeList, k`free, k`loose, k`refs, k`envFreeList, k`efree, k.ppLink, k.ppRef, k.mem, k.data,
             k.envPgdir, k.envLink, k.envs
    ensures k.Valid() && k.data[..] == old(k.data[..])
    ensures forall f: nat, a: nat :: f < NENV && a < UTOP ==> View(k, f, a) == if f == e then None else old(View(k, f, a))
    ensures k.envs[e].status == Free && forall f :: 0 <= f < NENV && f != e ==> k.envs[f] == old(k.envs[f])
  {
    hide Agree, FreeList, Counts, Chain, TableOk, Flat, View, Open;
    ViewIsFlat(k);
    FlatWithout(k.refs, e);
    k.EnvFree(e);
    ViewIsFlat(k);
  }

  // ---------------------------------------------------------------- what user_mem_check promises

  lemma CheckedBits(x: Entry, perm: bv32)
    requires perm & !(PTE_P | PTE_U | PTE_W) == 0
    ensures x.flags | (perm | PTE_U) | PTE_P == x.flags <==> Present(x) && UserBit(x) && (perm & PTE_W != 0 ==> Writable(x))
  {}

  /** A page below UTOP passes user_mem_check for reading or writing exactly if user code could do that itself. */
  lemma CheckedIsReached(k: Kernel, e: nat, va: nat, perm: bv32)
    requires k.Valid() && e < NENV && Dir(e) in k.refs && va < UTOP && perm & !(PTE_P | PTE_U | PTE_W) == 0
    ensures UserAccessible(k.mem[..], k.refs[Dir(e)].ppn, va / PGSIZE, perm | PTE_U) <==>
              View(k, e, va).Some? && View(k, e, va).value.user && (perm & PTE_W != 0 ==> View(k, e, va).value.write)
  {
    hide Agree, FreeList, Counts, Chain, TableOk, Translate, Open, HardwareWalk, Present, UserBit, Writable;
    var page := va / PGSIZE * PGSIZE;
    assert page / PGSIZE == va / PGSIZE;
    ViewIsFlat(k);
    SamePage(e, va, e, page);
    WalkIsFlat(k.reserved, k.kernPgdir, k.mem[..], k.envPgdir[..], k.refs, e, page);
    assert Pdx(page) < USER_PDES;
    PteMeans(k.reserved, k.kernPgdir, k.mem[..], k.envPgdir[..], k.refs, e, Pdx(page), Ptx(page));
    var pte := HardwareWalk(k.mem[..], k.refs[Dir(e)].ppn, page);
    if pte.Some? {
      CheckedBits(pte.value, perm);
    }
  }

  // ---------------------------------------------------------------- messages with pages

  lemma RoomToSend(refs: Refs, free: seq<nat>, envs: seq<Env>, from: nat, envid: int, srcva: nat, perm: bv32)
    requires |envs| == NENV && from < NENV
    requires srcva < UTOP && Flat(refs, from, srcva).Some? ==> Count(refs, Flat(refs, from, srcva).value.page) < 0xFFFF
    ensures SendCountable(refs, free, envs, from, envid, srcva, perm)
  {
    hide Count;
  }

  /** sys_ipc_try_send to an environment that waits: its outcome, and where a page arrives. */
  method Send(k: Kernel, to: nat, value: nat, srcva: nat, perm: bv32) returns (r: Error)
    requires k.HasCurrent() && to < NENV && k.envs[to].status != Free && k.envs[to].recving && k.curenv != Some(to)
    requires View(k, k.curenv.value, srcva).Some? ==> Count(k.refs, View(k, k.curenv.value, srcva).value.page) < 0xFFFF
    modifies k`pageFreeList, k`free, k`loose, k`refs, k.ppLink, k.ppRef, k.mem, k.data, k.envs
    ensures k.HasCurrent()
    ensures SendResult(r, srcva, old(k.envs[to].dstva), perm, old(View(k, k.curenv.value, srcva)),
                       old(k.free != [] || HasTable(k, to, k.envs[to].dstva)))
    ensures var at, from := old(k.envs[to].dstva), k.curenv.value;
            forall f: nat, a: nat :: f < NENV && a < UTOP ==>
              View(k, f, a) == if r == Success && srcva < UTOP && at < UTOP && f == to && a / PGSIZE == at / PGSIZE
                               then Some(Loan(old(View(k, from, srcva)), perm)) else old(View(k, f, a))
    ensures var x, from := old(k.envs[to]), k.envs[k.curenv.value].id;
            k.envs[..] == old(k.envs[..])[to :=
              if r != Success then x.(perm := 0)
              else Env(x.id, x.parent, Runnable, x.upcall, false, x.dstva, value, from,
                       if srcva < UTOP && x.dstva < UTOP then perm else 0)]
  {
    hide Agree, FreeList, Counts, Chain, Inserted, View, HasTable, Open, LeafAt, SendCountable, Count, Envid2Env;
    ghost var refs0, free0, me := k.refs, k.free, k.curenv.value;
    ViewIsFlat(k);
    UserFlags(perm, 0);
    LiveId(k.envs[..], k.efree, k.refs, to);
    hide TableOk;
    RoomToSend(k.refs, k.free, k.envs[..], me, k.envs[to].id, srcva, perm);
    if k.envs[to].dstva < UTOP {
      TableIsThere(k, to, k.envs[to].dstva);
    }
    r := k.SysIpcTrySend(k.envs[to].id, value, srcva, perm);
    ViewIsFlat(k);
    if r == Success && srcva < UTOP && old(k.envs[to].dstva) < UTOP {
      FlatInserted(refs0, free0, to, old(k.envs[to].dstva), refs0[LeafAt(me, srcva)].ppn, perm);
    }
  }

  /** The outcome of a send to a waiting environment that wants its page at `at`, where the sender reaches `page`;
      `table` says that there is a page table for `at`, or a page to make one of. */
  ghost predicate SendResult(r: Error, srcva: nat, at: nat, perm: bv32, page: Option<Access>, table: bool) {
    if srcva >= UTOP || at >= UTOP then r == Success
    else if !GoodVa(srcva) || !GoodVa(at) || !GoodPerm(perm) || !Lent(page, perm) then r == Inval
    else r == if table then Success else NoMem
  }

  /** sys_ipc_recv(dstva) by the current environment, then sys_ipc_try_send to it by environment `from`. A page
      arrives at the address that the receiver gave, or at the one it gave last if this one is not below UTOP, and
      nothing else changes for anybody. */
  method ReceiveThenSend(k: Kernel, from: nat, dstva: nat, value: nat, srcva: nat, perm: bv32) returns (r: Error)
    requires k.HasCurrent() && from < NENV && k.curenv != Some(from) && k.envs[from].status != Free
    requires dstva >= UTOP || dstva % PGSIZE == 0
    requires View(k, from, srcva).Some? ==> Count(k.refs, View(k, from, srcva).value.page) < 0xFFFF
    modifies k`curenv, k`pageFreeList, k`free, k`loose, k`refs, k.ppLink, k.ppRef, k.mem, k.data, k.envs
    ensures k.HasCurrent() && old(k.curenv).Some? && old(k.curenv).value < NENV
    ensures var me := old(k.curenv).value;
            var at := if dstva < UTOP then dstva else old(k.envs[me].dstva);
            && SendResult(r, srcva, at, perm, old(View(k, from, srcva)), old(k.free) != [] || old(HasTable(k, me, at)))
            && (forall f: nat, a: nat :: f < NENV && a < UTOP ==>
                  View(k, f, a) == if r == Success && srcva < UTOP && at < UTOP && f == me && a / PGSIZE == at / PGSIZE
                                   then Some(Loan(old(View(k, from, srcva)), perm)) else old(View(k, f, a)))
            && k.envs[me].dstva == at && k.envs[me].recving == (r != Success)
            && k.envs[me].status == (if r == Success then Runnable else NotRunnable)
            && k.envs[me].perm == (if r == Success && srcva < UTOP && at < UTOP then perm else 0)
            && (r == Success ==> k.envs[me].value == value && k.envs[me].from == k.envs[from].id)
            && forall e :: 0 <= e < NENV && e != me ==> k.envs[e] == old(k.envs[e])
  {
    hide Agree, FreeList, Counts, Chain, TableOk, Translate, Open, Count, Loan, SendResult;
    ghost var me := k.curenv.value;
    r := k.SysIpcRecv(dstva);
    var to := k.curenv.value;
    k.curenv := Some(from);
    r := Send(k, to, value, srcva, perm);
  }
}
