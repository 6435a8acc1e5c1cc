/** lib/fork.c on top of the kernel's system calls: the copy-on-write fork and its page fault handler, and
    the eager fork_v0. Each is shown to do to what the environments see exactly what copying would do. */
module Forks {
  import opened Options
  import opened Mmu
  import opened RefCount
  import opened PageInv
  import opened Envs
  import opened Kernels
  import opened AddressSpace
  import opened Cow
  import opened Handlers
  import opened SharedCounts
  import opened UserView
  import Syscalls

  const FEC_PR: bv32 := 0x1
  const FEC_WR: bv32 := 0x2

  /** What all environments see. */
  ghost function Seen(k: Kernel): Memory
    reads k, k.data
  {
    Visible(Leaves(k.refs), k.data[..])
  }

  ghost predicate Sharing(leaves: Refs) { CowInv(leaves) && NoTemps(leaves) }

  /** The mapping of va in e, or the zero entry. */
  ghost function EntryAt(refs: Refs, e: nat, va: nat): Entry {
    if LeafAt(e, va) in refs then refs[LeafAt(e, va)] else ZERO
  }

  ghost function First(free: seq<nat>): nat { if free == [] then 0 else free[0] }

  // ---------------------------------------------------------------- bookkeeping

  /** Writing only pages that were free keeps everybody's data. */
  lemma FreshDataKept(n: nat, rsv: set<nat>, refs: Refs, free: seq<nat>, data: seq<Bytes>, data': seq<Bytes>)
    requires Mapped(n, rsv, refs, free) && |data| == |data'| == n
    requires forall p :: 0 <= p < n && p !in free ==> data'[p] == data[p]
    ensures DataKept(refs, data, data') && DataKept(Leaves(refs), data, data')
  {}

  lemma MappedPages(k: Kernel)
    requires k.Valid()
    ensures Mapped(k.npages, k.reserved, k.refs, k.free)
  {
    hide Agree, FreeList, Counts, Chain, TableOk;
    MappedFrom(k.reserved, k.kernPgdir, k.pageFreeList, k.ppLink[..], k.ppRef[..], k.mem[..], k.envPgdir[..],
               k.refs, k.free, k.loose);
  }

  lemma MappedFrom(rsv: set<nat>, kpd: nat, head: Option<nat>, link: seq<Option<nat>>, ref: seq<nat>,
                   mem: seq<Words>, dir: seq<Option<nat>>, refs: Refs, free: seq<nat>, loose: set<nat>)
    requires FreeList(rsv, head, link, free) && Agree(rsv, kpd, mem, dir, refs) && Counts(rsv, ref, refs, free, loose)
    requires |link| == |ref| == |mem|
    ensures Mapped(|mem|, rsv, refs, free)
  {
    ReferencedNotFree(rsv, ref, refs, free, loose);
    forall e, i, j | Leaf(e, i, j) in refs ensures Table(e, i) in refs {
      assert InRange(Leaf(e, i, j));
    }
    forall e, i | Table(e, i) in refs ensures Dir(e) in refs {
      assert InRange(Table(e, i));
    }
  }

  lemma PageOfAddr(e: nat, va: nat)
    ensures LeafAt(e, va / PGSIZE * PGSIZE) == LeafAt(e, va)
    ensures va < UTOP ==> !BadVa(va / PGSIZE * PGSIZE)
    ensures va < USTACKTOP <==> Below(LeafAt(e, va), USTACKTOP)
    ensures va / PGSIZE * PGSIZE == PgAddr(Pdx(va), Ptx(va))
  {
    SamePage(e, va, e, va / PGSIZE * PGSIZE);
    AlignedAddr(va / PGSIZE * PGSIZE);
  }

  // ---------------------------------------------------------------- user-level memory access

  /** Reading uvpd and uvpt: None if the directory entry is not present. */
  method ReadPte(k: Kernel, va: nat) returns (pte: Option<Entry>)
    requires k.HasCurrent() && va < UTOP
    ensures pte.Some? && Present(pte.value) <==> LeafAt(k.curenv.value, va) in k.refs
    ensures pte.Some? && Present(pte.value) ==> pte.value == k.refs[LeafAt(k.curenv.value, va)]
  {
    hide Agree, FreeList, Counts, Chain;
    var e := k.curenv.value;
    assert Dir(e) in k.refs;
    assert Pdx(va) < USER_PDES;
    var pgdir := k.GetPgdir(e);
    PdeMeans(k.reserved, k.kernPgdir, k.mem[..], k.envPgdir[..], k.refs, e, Pdx(va));
    PteMeans(k.reserved, k.kernPgdir, k.mem[..], k.envPgdir[..], k.refs, e, Pdx(va), Ptx(va));
    var pde := k.mem[pgdir][Pdx(va)];
    if !Present(pde) {
      return None;
    }
    return Some(k.mem[pde.ppn][Ptx(va)]);
  }

  /** memmove(dst, src, PGSIZE) between two mapped pages of the current environment. */
  method CopyPage(k: Kernel, dst: nat, src: nat)
    requires k.HasCurrent() && dst < UTOP && src < UTOP
    requires LeafAt(k.curenv.value, dst) in k.refs && LeafAt(k.curenv.value, src) in k.refs
    modifies k.data
    ensures var to, from := EntryAt(k.refs, k.curenv.value, dst).ppn, EntryAt(k.refs, k.curenv.value, src).ppn;
            to < k.npages && k.data[..] == old(k.data[..])[to := PageData(old(k.data[..]), from)]
  {
    hide Agree, FreeList, Counts, Chain, LeafAt, LeavesOnly;
    MappedPages(k);
    var d := ReadPte(k, dst);
    var s := ReadPte(k, src);
    ghost var before := k.data[..];
    k.data[d.value.ppn] := k.data[s.value.ppn];
    assert k.data[..] == before[d.value.ppn := before[s.value.ppn]];
  }

  // ---------------------------------------------------------------- pgfault

  lemma FaultFlags()
    ensures !BadPerm(USER_RW) && USER_RW | PTE_P | PTE_U == USER_RW && Writable(Entry(0, USER_RW))
    ensures !BadVa(PFTEMP) && !BadVa(UTEMP)
  {}

  // ---------------------------------------------------------------- system calls, seen from the flat maps

  /** Too little memory for a page and a page table for it. */
  ghost predicate Scarce(k: Kernel)
    reads k
  {
    |k.free| <= 1
  }

  /** The current environment's system calls reach environment t under the id `envid`. */
  ghost predicate Reaches(k: Kernel, envid: int, t: nat)
    reads k, k.envs
  {
    k.Layout() && k.curenv.Some? && k.curenv.value < NENV && t < NENV
    && Envid2Env(k.envs[..], k.curenv.value, envid, true) == Some(t)
  }

  /** No page in use has gained a reference. */
  ghost predicate CountsKept(refs: Refs, refs': Refs, free: seq<nat>) {
    forall p :: p !in free ==> Count(refs', p) <= Count(refs, p)
  }

  /** sys_page_alloc with good arguments. */
  method AllocAt(k: Kernel, envid: int, va: nat, perm: bv32, ghost t: nat) returns (ok: bool)
    requires k.HasCurrent() && Reaches(k, envid, t)
    requires !BadVa(va) && !BadPerm(perm)
    modifies k`pageFreeList, k`free, k`loose, k`refs, k.ppLink, k.ppRef, k.mem, k.data
    ensures k.Valid() && CountsKept(old(k.refs), k.refs, old(k.free))
    ensures ok <==> AllocError(old(k.refs), old(k.free), Some(t), va, perm) == Success
    ensures !ok ==> k.refs == old(k.refs) && k.free == old(k.free)
    ensures !ok ==> Scarce(k)
    ensures ok ==> Leaves(k.refs) ==
                     Leaves(old(k.refs))[LeafAt(t, va) := Entry(First(old(k.free)), perm | PTE_P | PTE_U)]
    ensures ok ==> Unmapped(Leaves(old(k.refs)), First(old(k.free)))
                   && PageData(k.data[..], First(old(k.free))) == ZeroPage()
                   && Count(k.refs, First(old(k.free))) == 1
    ensures DataKept(Leaves(old(k.refs)), old(k.data[..]), k.data[..])
  {
    hide Agree, FreeList, Counts, Chain, TableOk, Inserted, LeafAt, BadPerm, BadVa, Count;
    MappedPages(k);
    ghost var refs0, free0, data0 := k.refs, k.free, k.data[..];
    var r := k.SysPageAlloc(envid, va, perm);
    FreshDataKept(k.npages, k.reserved, refs0, free0, data0, k.data[..]);
    ok := r == Success;
    if ok {
      ghost var x := Entry(free0[0], perm | PTE_P | PTE_U);
      LeavesInserted(refs0, free0[1..], t, va, x);
      FreshCount(k.npages, k.reserved, refs0, free0, t, va, x);
      forall p | p !in free0 ensures Count(k.refs, p) <= Count(refs0, p) {
        InsertedCount(refs0, free0[1..], t, va, x, p);
      }
    }
  }

  /** sys_page_map of a mapped page with good arguments: only the lack of a page table can make it fail. */
  method MapAt(k: Kernel, srcid: int, srcva: nat, dstid: int, dstva: nat, perm: bv32,
               ghost s: nat, ghost t: nat) returns (ok: bool)
    requires k.HasCurrent() && Reaches(k, srcid, s) && Reaches(k, dstid, t)
    requires Count(k.refs, EntryAt(k.refs, s, srcva).ppn) < 0xFFFF
    requires !BadVa(srcva) && !BadVa(dstva) && !BadPerm(perm)
    requires LeafAt(s, srcva) in k.refs && (perm & PTE_W != 0 ==> Writable(EntryAt(k.refs, s, srcva)))
    modifies k`pageFreeList, k`free, k`loose, k`refs, k.ppLink, k.ppRef, k.mem, k.data
    ensures k.Valid()
    ensures var p := EntryAt(old(k.refs), s, srcva).ppn; Count(k.refs, p) <= Count(old(k.refs), p) + 1
    ensures LeafAt(t, dstva) in old(k.refs) ==> ok
    ensures !ok ==> k.refs == old(k.refs) && k.free == old(k.free)
    ensures !ok ==> Scarce(k)
    ensures ok ==> Leaves(k.refs) == Leaves(old(k.refs))[LeafAt(t, dstva) :=
                     Entry(EntryAt(old(k.refs), s, srcva).ppn, perm | PTE_P | PTE_U)]
    ensures DataKept(Leaves(old(k.refs)), old(k.data[..]), k.data[..])
  {
    hide Agree, FreeList, Counts, Chain, TableOk, Inserted, BadPerm, BadVa, Count, Writable;
    MappedPages(k);
    ghost var refs0, free0, data0 := k.refs, k.free, k.data[..];
    var r := k.SysPageMap(srcid, srcva, dstid, dstva, perm);
    FreshDataKept(k.npages, k.reserved, refs0, free0, data0, k.data[..]);
    ok := r == Success;
    if ok {
      ghost var x := Entry(refs0[LeafAt(s, srcva)].ppn, perm | PTE_P | PTE_U);
      LeavesInserted(refs0, free0, t, dstva, x);
      InsertedCount(refs0, free0, t, dstva, x, x.ppn);
    }
  }

  /** sys_page_unmap(0, va) with a good address. */
  method UnmapAt(k: Kernel, va: nat)
    requires k.HasCurrent() && !BadVa(va)
    modifies k`pageFreeList, k`free, k`loose, k`refs, k.ppLink, k.ppRef, k.mem, k.data
    ensures k.Valid()
    ensures Leaves(k.refs) == Leaves(old(k.refs)) - {LeafAt(k.curenv.value, va)}
    ensures k.data[..] == old(k.data[..])
  {
    hide Agree, FreeList, Counts, Chain, TableOk, Count;
    ghost var refs0 := k.refs;
    var r := k.SysPageUnmap(0, va);
    LeavesRemoved(refs0, LeafAt(k.curenv.value, va));
  }

  // ---------------------------------------------------------------- pgfault

  /** Allocate at PFTEMP, copy, map over the old page, unmap PFTEMP. */
  method MakePrivate(k: Kernel, page: nat) returns (ok: bool)
    requires k.HasCurrent() && NoTemps(Leaves(k.refs))
    requires !BadVa(page) && LeafAt(k.curenv.value, page) in k.refs
    modifies k`pageFreeList, k`free, k`loose, k`refs, k.ppLink, k.ppRef, k.mem, k.data
    ensures k.Valid()
    ensures ok <==> AllocError(old(k.refs), old(k.free), k.curenv, PFTEMP, USER_RW) == Success
    ensures !ok ==> k.refs == old(k.refs)
    ensures !ok ==> Scarce(k)
    ensures ok ==> Unmapped(Leaves(old(k.refs)), First(old(k.free)))
    ensures ok ==> Leaves(k.refs) ==
                     Leaves(old(k.refs))[LeafAt(k.curenv.value, page) := Entry(First(old(k.free)), USER_RW)]
    ensures ok ==> PageData(k.data[..], First(old(k.free))) ==
                     PageData(old(k.data[..]), EntryAt(old(k.refs), k.curenv.value, page).ppn)
    ensures !ok ==> k.free == old(k.free)
    ensures DataKept(Leaves(old(k.refs)), old(k.data[..]), k.data[..])
  {
    hide Agree, FreeList, Counts, Chain, TableOk, BadPerm, AllocError, Count;
    FaultFlags();
    ghost var L0, c, data0 := Leaves(k.refs), k.curenv.value, k.data[..];
    ghost var x := Entry(First(k.free), USER_RW);
    assert LeafAt(c, PFTEMP) !in L0 && LeafAt(c, page) in L0;
    var alloc := AllocAt(k, 0, PFTEMP, PTE_P | PTE_U | PTE_W, c);
    if !alloc {
      return false;
    }
    ghost var L1, data1 := Leaves(k.refs), k.data[..];
    assert LeafAt(c, PFTEMP) in L1 && LeafAt(c, page) in L1;
    assert L1[LeafAt(c, page)] == L0[LeafAt(c, page)] && L1[LeafAt(c, PFTEMP)] == x;
    CopyPage(k, PFTEMP, page);
    ghost var data2 := k.data[..];
    var mapped := MapAt(k, 0, PFTEMP, 0, page, PTE_P | PTE_U | PTE_W, c, c);
    UnmapAt(k, PFTEMP);
    forall s | s in L0 ensures PageData(k.data[..], L0[s].ppn) == PageData(data0, L0[s].ppn) {
      assert s in L1 && L1[s] == L0[s] && L0[s].ppn != x.ppn;
    }
    assert (L0[LeafAt(c, PFTEMP) := x][LeafAt(c, page) := x]) - {LeafAt(c, PFTEMP)} == L0[LeafAt(c, page) := x];
    return true;
  }

  /** pgfault for a fault at `addr` with error code `err`, whose FEC_PR bit the processor sets only when the
      page is present. It fails, changing nothing, unless the fault is a write to a copy-on-write page and a
      page (and a page table for PFTEMP) can be allocated; it never changes what anybody sees. */
  method PgFault(k: Kernel, addr: nat, err: bv32) returns (ok: bool)
    requires k.HasCurrent() && Sharing(Leaves(k.refs))
    requires addr < UTOP && (err & FEC_PR != 0 ==> LeafAt(k.curenv.value, addr) in k.refs)
    modifies k`pageFreeList, k`free, k`loose, k`refs, k.ppLink, k.ppRef, k.mem, k.data
    ensures k.Valid() && Sharing(Leaves(k.refs))
    ensures ok <==> err & FEC_PR != 0 && err & FEC_WR != 0
                    && CopyOnWrite(EntryAt(old(k.refs), k.curenv.value, addr))
                    && AllocError(old(k.refs), old(k.free), k.curenv, PFTEMP, USER_RW) == Success
    ensures Seen(k) == old(Seen(k))
    ensures !ok ==> k.refs == old(k.refs)
    ensures !ok && err & FEC_PR != 0 && err & FEC_WR != 0 && CopyOnWrite(EntryAt(old(k.refs), k.curenv.value, addr)) ==>
              Scarce(k)
    ensures ok ==> Leaves(k.refs) ==
                     Leaves(old(k.refs))[LeafAt(k.curenv.value, addr) := Entry(First(old(k.free)), USER_RW)]
    ensures ok ==> Private(Leaves(k.refs), LeafAt(k.curenv.value, addr))
  {
    hide Agree, FreeList, Counts, Chain;
    var pte := ReadPte(k, addr);
    if pte == None || err & FEC_PR != FEC_PR || err & FEC_WR != FEC_WR || pte.value.flags & PTE_COW != PTE_COW {
      assert err & FEC_PR != FEC_PR <==> err & FEC_PR == 0;
      assert err & FEC_WR != FEC_WR <==> err & FEC_WR == 0;
      return false;
    }
    assert err & FEC_PR == FEC_PR ==> err & FEC_PR != 0;
    assert err & FEC_WR == FEC_WR ==> err & FEC_WR != 0;
    ghost var L0, data0, c := Leaves(k.refs), k.data[..], k.curenv.value;
    PageOfAddr(c, addr);
    ok := MakePrivate(k, addr / PGSIZE * PGSIZE);
    if ok {
      ghost var x := Entry(First(old(k.free)), USER_RW);
      PrivateKeepsCow(L0, LeafAt(c, addr), x);
      PrivateCopy(L0, data0, k.data[..], LeafAt(c, addr), x);
    } else {
      VisibleFrame(L0, data0, k.data[..]);
    }
  }

  // ---------------------------------------------------------------- application stores

  /** How an operation ends: it is done; it is not one this environment makes; it is a fork for which pp_ref may
      have no room, and the run stops before it; the library panics; or the kernel destroys the environment. */
  datatype Outcome = Done | NotMade | MayOverflow | Panicked | Destroyed

  /** page_fault_handler for the current environment, up to its return to user mode at the upcall: false if it
      destroys the environment instead. */
  method PageFaultHandler(k: Kernel) returns (entered: bool)
    requires k.HasCurrent()
    modifies k, k.ppLink, k.ppRef, k.mem, k.data, k.envLink, k.envPgdir, k.envs
    ensures k.Valid() && k.data[..] == old(k.data[..])
    ensures old(k.curenv).Some? && old(k.curenv).value < NENV
    ensures entered <==> Ready(Leaves(old(k.refs)), old(k.envs[..]), old(k.curenv).value)
    ensures entered <==> old(k.envs[k.curenv.value].upcall != 0 && FrameWritable(k, k.curenv.value))
    ensures entered ==> k.HasCurrent() && k.curenv == old(k.curenv) && k.envs[..] == old(k.envs[..])
                        && k.refs == old(k.refs) && k.free == old(k.free) && k.efree == old(k.efree)
    ensures !entered ==> k.curenv == None && k.refs == Without(old(k.refs), old(k.curenv).value)
                         && k.efree == [old(k.curenv).value] + old(k.efree)
  {
    hide Agree, FreeList, Counts, Chain, TableOk, UserAccessible, StackOk, FrameWritable, Open;
    var c := k.curenv.value;
    StackMeans(k, c);
    assert Dir(c) in k.refs by { LiveDir(k); }
    if k.envs[c].upcall != 0 {
      FramePage();
      FrameFits(k.reserved, k.kernPgdir, k.mem[..], k.envPgdir[..], k.refs, c);
      var r, bad := k.UserMemCheck(c, UTOP - FRAME, FRAME, PTE_U | PTE_P | PTE_W);
      if r == Success {
        return true;
      }
      OnePage(UXSTACK / PGSIZE, bad / PGSIZE);
    }
    Syscalls.EnvDestroy(k, c);
    return false;
  }

  lemma LiveDir(k: Kernel)
    requires k.HasCurrent()
    ensures Dir(k.curenv.value) in k.refs
  {}

  lemma OnePage(q: nat, p: nat)
    requires q <= p < q + 1
    ensures p == q
  {}

  /** What is left when environment e is destroyed. */
  ghost function Bereft(v: Memory, e: nat): Memory {
    map r | r in v && !BelongsTo(r, e) :: v[r]
  }

  lemma DestroyedVisible(refs: Refs, data: seq<Bytes>, e: nat)
    ensures Leaves(Without(refs, e)) == map r | r in Leaves(refs) && !BelongsTo(r, e) :: Leaves(refs)[r]
    ensures Visible(Leaves(Without(refs, e)), data) == Bereft(Visible(Leaves(refs), data), e)
    ensures Sharing(Leaves(refs)) ==> Sharing(Leaves(Without(refs, e)))
  {}

  /** Can e store at va without a fault? */
  ghost predicate CanStore(refs: Refs, e: nat, va: nat) {
    LeafAt(e, va) in refs && Writable(refs[LeafAt(e, va)])
  }

  /** The handler in e, once entered, can make the page of va private. */
  ghost predicate CanRepair(refs: Refs, free: seq<nat>, e: nat, va: nat) {
    LeafAt(e, va) in refs && CopyOnWrite(refs[LeafAt(e, va)]) && AllocError(refs, free, Some(e), PFTEMP, USER_RW) == Success
  }

  /** How a store ends: a fault goes to the handler if the environment has one, and kills it if not. */
  ghost function StoreOutcome(refs: Refs, free: seq<nat>, envs: seq<Env>, e: nat, va: nat): Outcome
    requires e < |envs|
  {
    if CanStore(refs, e, va) then Done
    else if !Ready(Leaves(refs), envs, e) then Destroyed
    else if CanRepair(refs, free, e, va) then Done
    else Panicked
  }

  /** A store of one byte by the current environment. If the mapping is not writable the processor faults and
      the kernel enters the library's handler, if it can; the store is then retried. When the handler panics
      memory is as before; when there is none the environment is destroyed and no other sees a difference. */
  method Store(k: Kernel, va: nat, b: Byte) returns (out: Outcome)
    requires k.HasCurrent() && Sharing(Leaves(k.refs)) && va < USTACKTOP
    modifies k, k.ppLink, k.ppRef, k.mem, k.data, k.envLink, k.envPgdir, k.envs
    ensures k.Valid() && Sharing(Leaves(k.refs))
    ensures old(k.curenv).Some? && old(k.curenv).value < NENV
    ensures out == StoreOutcome(old(k.refs), old(k.free), old(k.envs[..]), old(k.curenv).value, va)
    ensures out.Done? || out.Panicked? || out.Destroyed?
    ensures out == Destroyed <==>
              old(!Stores(View(k, k.curenv.value, va))
                  && !(k.envs[k.curenv.value].upcall != 0 && FrameWritable(k, k.curenv.value)))
    ensures out == Done ==>
              && LeafAt(old(k.curenv).value, va) in old(Seen(k))
              && Seen(k) == IdealWrite(old(Seen(k)), LeafAt(old(k.curenv).value, va), va % PGSIZE, b)
              && NotWorse(Leaves(old(k.refs)), old(k.envs[..]), Leaves(k.refs), k.envs[..])
    ensures out == Panicked ==> Seen(k) == old(Seen(k))
    ensures out == Panicked && CopyOnWrite(EntryAt(old(k.refs), old(k.curenv).value, va)) ==> Scarce(k)
    ensures out == Destroyed ==> Seen(k) == Bereft(old(Seen(k)), old(k.curenv).value)
    ensures out != Destroyed ==> k.HasCurrent() && k.curenv == old(k.curenv) && k.efree == old(k.efree) && k.envs[..] == old(k.envs[..])
  {
    hide Agree, FreeList, Counts, Chain, TableOk, AllocError, Sharing, Handlers.StackOk;
    var c := k.curenv.value;
    PageOfAddr(c, va);
    StoreMeans(k, va);
    StackMeans(k, c);
    var pte := ReadPte(k, va);
    if pte.Some? && Present(pte.value) && Writable(pte.value) {
      WriteByte(k, va, b, pte.value);
      return Done;
    }
    DestroyedVisible(k.refs, k.data[..], c);
    var entered := PageFaultHandler(k);
    if !entered {
      return Destroyed;
    }
    var repaired := Repair(k, va, pte);
    if !repaired {
      return Panicked;
    }
    pte := ReadPte(k, va);
    WriteByte(k, va, b, pte.value);
    return Done;
  }

  /** The mapping of va admits a store exactly if the processor does. */
  lemma StoreMeans(k: Kernel, va: nat)
    requires k.HasCurrent() && va < USTACKTOP
    ensures CanStore(k.refs, k.curenv.value, va) <==> Stores(View(k, k.curenv.value, va))
  {
    ViewIsFlat(k);
  }

  /** user/faultnostack.c: an upcall alone does not help. After sys_env_set_pgfault_upcall, a store that faults
      destroys an environment whose exception stack is not there, or not to be written by users. */
  method UpcallWithoutStack(k: Kernel, func: nat, va: nat, b: Byte) returns (out: Outcome)
    requires k.HasCurrent() && Sharing(Leaves(k.refs)) && va < USTACKTOP
    requires !Stores(View(k, k.curenv.value, va)) && !Stores(View(k, k.curenv.value, UXSTACK))
    modifies k, k.ppLink, k.ppRef, k.mem, k.data, k.envLink, k.envPgdir, k.envs
    ensures out == Destroyed
  {
    hide Agree, FreeList, Counts, Chain, TableOk, Sharing, Translate, Open, FrameWritable;
    StackMeans(k, k.curenv.value);
    var r := k.SysEnvSetPgfaultUpcall(0, func);
    StackMeans(k, k.curenv.value);
    out := Store(k, va, b);
  }

  /** What an environment is said to see is what user code reads there. */
  lemma SeenIsRead(k: Kernel, e: nat, va: nat)
    requires k.Valid() && e < NENV && va < USTACKTOP
    ensures LeafAt(e, va) in Seen(k) <==> View(k, e, va).Some?
    ensures View(k, e, va).Some? ==>
              && View(k, e, va).value.user && View(k, e, va).value.page < k.npages
              && Seen(k)[LeafAt(e, va)] == k.data[View(k, e, va).value.page]
  {
    ViewIsFlat(k);
    PageOfAddr(e, va);
  }

  /** The library's handler for a store to va, in the error code the processor gives. */
  method Repair(k: Kernel, va: nat, pte: Option<Entry>) returns (ok: bool)
    requires k.HasCurrent() && Sharing(Leaves(k.refs)) && va < USTACKTOP
    requires pte.Some? && Present(pte.value) <==> LeafAt(k.curenv.value, va) in k.refs
    requires pte.Some? && Present(pte.value) ==> pte.value == k.refs[LeafAt(k.curenv.value, va)]
    modifies k`pageFreeList, k`free, k`loose, k`refs, k.ppLink, k.ppRef, k.mem, k.data
    ensures k.HasCurrent() && Sharing(Leaves(k.refs)) && Seen(k) == old(Seen(k))
    ensures ok <==> CanRepair(old(k.refs), old(k.free), k.curenv.value, va)
    ensures ok ==> LeafAt(k.curenv.value, va) in k.refs && Writable(k.refs[LeafAt(k.curenv.value, va)])
    ensures !ok && CopyOnWrite(EntryAt(old(k.refs), k.curenv.value, va)) ==> Scarce(k)
    ensures NotWorse(Leaves(old(k.refs)), old(k.envs[..]), Leaves(k.refs), k.envs[..])
  {
    hide Agree, FreeList, Counts, Chain, TableOk, AllocError, Sharing, NotWorse, Private, BadPerm;
    FaultFlags();
    ghost var c, L := k.curenv.value, Leaves(k.refs);
    NotWorseRefl(L, k.envs[..]);
    ok := PgFault(k, va, if pte.Some? && Present(pte.value) then FEC_PR | FEC_WR else FEC_WR);
    if ok {
      RemapNotWorse(L, k.envs[..], LeafAt(c, va), Entry(First(old(k.free)), USER_RW));
      assert LeafAt(c, va) in Leaves(k.refs);
    }
  }

  lemma NotWorseRefl(L: Refs, envs: seq<Env>)
    requires |envs| == NENV
    ensures NotWorse(L, envs, L, envs)
  {}

  /** The store itself, through a writable mapping. */
  method WriteByte(k: Kernel, va: nat, b: Byte, pte: Entry)
    requires k.HasCurrent() && Sharing(Leaves(k.refs)) && va < USTACKTOP
    requires LeafAt(k.curenv.value, va) in k.refs && k.refs[LeafAt(k.curenv.value, va)] == pte && Writable(pte)
    modifies k.data
    ensures LeafAt(k.curenv.value, va) in old(Seen(k))
            && Seen(k) == IdealWrite(old(Seen(k)), LeafAt(k.curenv.value, va), va % PGSIZE, b)
  {
    hide Agree, FreeList, Counts, Chain, TableOk;
    MappedPages(k);
    PageOfAddr(k.curenv.value, va);
    ghost var before := k.data[..];
    StoreIsPrivate(Leaves(k.refs), before, LeafAt(k.curenv.value, va), va % PGSIZE, b);
    k.data[pte.ppn] := k.data[pte.ppn][va % PGSIZE := b];
    assert k.data[..] == before[pte.ppn := before[pte.ppn][va % PGSIZE := b]];
  }

  // ---------------------------------------------------------------- fork

  /** duppage: both address spaces end up with the same page under the same shared entry. */
  method DupPage(k: Kernel, envid: int, va: nat, pte: Entry, ghost child: nat) returns (ok: bool)
    requires k.HasCurrent() && Reaches(k, envid, child) && child != k.curenv.value
    requires Count(k.refs, pte.ppn) < 0xFFFE && !BadVa(va)
    requires LeafAt(k.curenv.value, va) in k.refs && k.refs[LeafAt(k.curenv.value, va)] == pte
    requires LeafAt(child, va) !in k.refs
    modifies k`pageFreeList, k`free, k`loose, k`refs, k.ppLink, k.ppRef, k.mem, k.data
    ensures k.Valid()
    ensures !ok ==> k.refs == old(k.refs)
    ensures !ok ==> Scarce(k)
    ensures ok ==> Leaves(k.refs) ==
                     Leaves(old(k.refs))[LeafAt(child, va) := Dup(pte)][LeafAt(k.curenv.value, va) := Dup(pte)]
    ensures DataKept(Leaves(old(k.refs)), old(k.data[..]), k.data[..])
  {
    hide Agree, FreeList, Counts, Chain, TableOk, BadPerm, BadVa, Count, Present;
    DupIsShared(pte);
    var perms := pte.flags & (PTE_SYSCALL | PTE_COW);
    var cowFlag := if perms & PTE_W != 0 || perms & PTE_COW != 0 then PTE_COW else 0;
    perms := perms & !PTE_W;
    assert pte.flags & (PTE_SYSCALL | PTE_COW) & PTE_W == pte.flags & PTE_W;
    assert pte.flags & (PTE_SYSCALL | PTE_COW) & PTE_COW == pte.flags & PTE_COW;
    ghost var L0, c, data0 := Leaves(k.refs), k.curenv.value, k.data[..];
    ok := MapAt(k, 0, va, envid, va, perms | cowFlag, c, child);
    if !ok {
      return;
    }
    ghost var L1, data1 := Leaves(k.refs), k.data[..];
    assert LeafAt(c, va) in L1 && L1[LeafAt(c, va)] == pte;
    var own := MapAt(k, 0, va, 0, va, perms | cowFlag, c, c);
    assert forall s :: s in L0 ==> s in L1 && L1[s] == L0[s];
  }

  lemma ForkedKeeps(L0: Refs, L: Refs, parent: nat, child: nat, cur: nat,
                    data0: seq<Bytes>, data1: seq<Bytes>, data2: seq<Bytes>)
    requires Forked(L0, L, parent, child, cur) && LeavesOnly(L0) && NoLeaves(L0, child)
    requires DataKept(L0, data0, data1) && DataKept(L, data1, data2)
    ensures DataKept(L0, data0, data2)
  {
    forall r | r in L0 ensures PageData(data2, L0[r].ppn) == PageData(data0, L0[r].ppn) {
      assert r == Leaf(r.e, r.i, r.j);
      assert r in L && L[r].ppn == L0[r].ppn;
    }
  }

  /** The loop of fork over the pages below USTACKTOP; `reached` is where it stopped. */
  method ShareMappings(k: Kernel, envid: int, ghost child: nat) returns (ok: bool, ghost reached: nat)
    requires k.HasCurrent() && Reaches(k, envid, child) && child != k.curenv.value
    requires Shareable(k.refs, k.curenv.value) && LeavesOnly(Leaves(k.refs))
    requires NoLeaves(Leaves(k.refs), child)
    modifies k`pageFreeList, k`free, k`loose, k`refs, k.ppLink, k.ppRef, k.mem, k.data
    ensures k.Valid()
    ensures Forked(Leaves(old(k.refs)), Leaves(k.refs), k.curenv.value, child, reached)
    ensures ok ==> reached == USTACKTOP
    ensures !ok ==> Scarce(k)
    ensures DataKept(Leaves(old(k.refs)), old(k.data[..]), k.data[..])
  {
    hide Agree, FreeList, Counts, Chain, TableOk, Shareable, Forked, LeavesOnly;
    ghost var L0, data0, c := Leaves(k.refs), k.data[..], k.curenv.value;
    ForkStart(L0, c, child);
    reached := 0;
    var i := 0;
    while i < USTACKTOP
      invariant i % PGSIZE == 0 && i <= USTACKTOP && reached == i
      invariant k.Valid() && Forked(L0, Leaves(k.refs), c, child, i)
      invariant DataKept(L0, data0, k.data[..])
    {
      ok := ShareOne(k, envid, i, c, child, old(k.refs), data0);
      if !ok {
        return;
      }
      i := i + PGSIZE;
      reached := i;
    }
    ok := true;
  }

  /** One round of that loop. */
  method ShareOne(k: Kernel, envid: int, i: nat, ghost c: nat, ghost child: nat, ghost refs0: Refs, ghost data0: seq<Bytes>)
    returns (ok: bool)
    requires k.curenv == Some(c) && Reaches(k, envid, child) && child != c
    requires i % PGSIZE == 0 && i < USTACKTOP
    requires Shareable(refs0, c) && LeavesOnly(Leaves(refs0)) && NoLeaves(Leaves(refs0), child)
    requires Forked(Leaves(refs0), Leaves(k.refs), c, child, i)
    requires DataKept(Leaves(refs0), data0, k.data[..])
    requires k.HasCurrent()
    modifies k`pageFreeList, k`free, k`loose, k`refs, k.ppLink, k.ppRef, k.mem, k.data
    ensures k.Valid() && DataKept(Leaves(refs0), data0, k.data[..])
    ensures Forked(Leaves(refs0), Leaves(k.refs), c, child, if ok then i + PGSIZE else i)
    ensures !ok ==> Scarce(k)
  {
    hide Agree, FreeList, Counts, Chain, TableOk, Shareable, Forked, LeavesOnly;
    ghost var L0 := Leaves(refs0);
    var pte := ReadPte(k, i);
    ForkStep(L0, Leaves(k.refs), c, child, i);
    if pte == None || !Present(pte.value) {
      assert LeafAt(c, i) !in Leaves(k.refs);
      return true;
    }
    assert LeafAt(c, i) in Leaves(k.refs);
    assert L0[LeafAt(c, i)] == pte.value;
    Exclusively(k);
    ForkRoom(refs0, k.refs, c, child, i, LeafAt(c, i));
    ChildUnmapped(L0, Leaves(k.refs), c, child, i);
    ghost var L, data1 := Leaves(k.refs), k.data[..];
    ok := DupPage(k, envid, i, pte.value, child);
    ForkedKeeps(L0, L, c, child, i, data0, data1, k.data[..]);
  }

  lemma Exclusively(k: Kernel)
    requires k.Valid()
    ensures Exclusive(k.refs)
  {}

  lemma ChildUnmapped(L0: Refs, L: Refs, parent: nat, child: nat, cur: nat)
    requires Forked(L0, L, parent, child, cur) && cur % PGSIZE == 0
    ensures LeafAt(child, cur) !in L
  {
    AlignedAddr(cur);
  }

  /** A fresh page at the exception stack disturbs neither sharing nor what is visible. */
  lemma StackPage(L: Refs, t: nat, x: Entry, data: seq<Bytes>, data': seq<Bytes>)
    requires Sharing(L) && Unmapped(L, x.ppn) && DataKept(L, data, data')
    ensures Sharing(L[LeafAt(t, UXSTACK) := x])
    ensures Visible(L[LeafAt(t, UXSTACK) := x], data') == Visible(L, data)
  {
    PrivateKeepsCow(L, LeafAt(t, UXSTACK), x);
  }

  /** set_pgfault_handler; `first` says whether _pgfault_handler is still 0, and once it is not there is an
      exception stack. `upcall` is the address of _pgfault_upcall. */
  method SetPgfaultHandler(k: Kernel, first: bool, upcall: nat) returns (ok: bool)
    requires k.HasCurrent() && Sharing(Leaves(k.refs)) && Shareable(k.refs, k.curenv.value) && upcall != 0
    requires first || StackOk(Leaves(k.refs), k.curenv.value)
    modifies k`pageFreeList, k`free, k`loose, k`refs, k.ppLink, k.ppRef, k.mem, k.data, k.envs
    ensures k.HasCurrent() && Sharing(Leaves(k.refs)) && Shareable(k.refs, k.curenv.value)
    ensures !ok ==> Scarce(k)
    ensures Seen(k) == old(Seen(k)) && OnlyStack(Leaves(old(k.refs)), Leaves(k.refs), k.curenv.value)
    ensures ok ==> StackOk(Leaves(k.refs), k.curenv.value) && k.envs[k.curenv.value].upcall == upcall
    ensures forall e: nat :: e < NENV && e != k.curenv.value ==> k.envs[e] == old(k.envs[e])
  {
    hide Agree, FreeList, Counts, Chain, CowInv, NoTemps, BadPerm, BadVa, StackOk, Shareable, Count;
    FaultFlags();
    StackFlags();
    var c := k.curenv.value;
    LiveId(k.envs[..], k.efree, k.refs, c);
    if first {
      ok := MakeStack(k, k.envs[c].id);
      if !ok {
        return;
      }
    }
    var r := k.SysEnvSetPgfaultUpcall(k.envs[c].id, upcall);
    ok := r == Success;
  }

  /** Only the exception stack of e may differ. */
  ghost predicate OnlyStack(L: Refs, L': Refs, e: nat) {
    forall r :: r != LeafAt(e, UXSTACK) ==> (r in L' <==> r in L) && (r in L' ==> L'[r] == L[r])
  }

  /** The first call's sys_page_alloc. */
  method MakeStack(k: Kernel, envid: int) returns (ok: bool)
    requires k.HasCurrent() && Reaches(k, envid, k.curenv.value)
    requires Sharing(Leaves(k.refs)) && Shareable(k.refs, k.curenv.value)
    modifies k`pageFreeList, k`free, k`loose, k`refs, k.ppLink, k.ppRef, k.mem, k.data
    ensures k.HasCurrent() && Sharing(Leaves(k.refs)) && Shareable(k.refs, k.curenv.value)
    ensures !ok ==> Scarce(k)
    ensures Seen(k) == old(Seen(k)) && OnlyStack(Leaves(old(k.refs)), Leaves(k.refs), k.curenv.value)
    ensures ok ==> StackOk(Leaves(k.refs), k.curenv.value)
  {
    hide Agree, FreeList, Counts, Chain, CowInv, NoTemps, BadPerm, BadVa, Shareable, Count;
    FaultFlags();
    StackFlags();
    MappedPages(k);
    ghost var L0, data0, refs0, c := Leaves(k.refs), k.data[..], k.refs, k.curenv.value;
    ghost var x := Entry(First(k.free), USER_RW);
    ok := AllocAt(k, envid, UXSTACK, PTE_P | PTE_U | PTE_W, c);
    if !ok {
      VisibleFrame(L0, data0, k.data[..]);
      return;
    }
    StackPage(L0, c, x, data0, k.data[..]);
    assert forall r: Ref :: r.Leaf? ==> (r in k.refs <==> r in Leaves(k.refs)) && (r in refs0 <==> r in L0);
    ShareableMore(refs0, k.refs, c, LeafAt(c, UXSTACK), x.ppn);
  }

  lemma StackFlags()
    ensures !BadVa(UXSTACK) && USER_RW | USER_RW == USER_RW
  {}

  lemma ForkedSharing(L0: Refs, L: Refs, parent: nat, child: nat, cur: nat)
    requires Forked(L0, L, parent, child, cur) && Sharing(L0) && parent != child
    ensures Sharing(L)
  {
    ForkedCow(L0, L, parent, child, cur);
    forall e ensures LeafAt(e, PFTEMP) !in L && LeafAt(e, UTEMP) !in L {
      if e == child {
        assert Twin(LeafAt(e, PFTEMP), parent) == LeafAt(parent, PFTEMP);
        assert Twin(LeafAt(e, UTEMP), parent) == LeafAt(parent, UTEMP);
      }
    }
  }

  /** sys_exofork as fork needs it: the child has no mappings yet, and nobody's memory changes. */
  method MakeChild(k: Kernel) returns (ok: bool, child: nat)
    requires k.HasCurrent() && Shareable(k.refs, k.curenv.value)
    modifies k`pageFreeList, k`free, k`loose, k`refs, k`envFreeList, k`efree, k.ppLink, k.ppRef, k.mem, k.data,
             k.envPgdir, k.envs
    ensures k.HasCurrent() && Leaves(k.refs) == Leaves(old(k.refs))
    ensures DataKept(Leaves(k.refs), old(k.data[..]), k.data[..])
    ensures ok ==> Shareable(k.refs, k.curenv.value) && old(k.efree) != [] && k.efree == Rest(old(k.efree)) && child == First(old(k.efree))
    ensures ok ==> child != k.curenv.value && child < NENV && Reaches(k, k.envs[child].id, child)
    ensures ok ==> LeavesOnly(Leaves(k.refs)) && NoLeaves(Leaves(k.refs), child)
    ensures ok ==> k.envs[child].upcall == 0 && forall e: nat :: e < NENV && e != child ==> k.envs[e] == old(k.envs[e])
    ensures !ok ==> k.efree == old(k.efree) && k.envs[..] == old(k.envs[..])
    ensures !ok ==> k.efree == [] || Scarce(k)
  {
    hide Agree, FreeList, Counts, Chain, Shareable, Count;
    MappedPages(k);
    ghost var refs0, free0, data0, c := k.refs, k.free, k.data[..], k.curenv.value;
    var r: Error;
    r, child := k.SysExofork();
    FreshDataKept(k.npages, k.reserved, refs0, free0, data0, k.data[..]);
    ok := r == Success;
    if ok {
      LeavesDir(refs0, Dir(child), Entry(First(free0), 0));
      DirRoom(k.npages, k.reserved, refs0, free0, child, Entry(First(free0), 0), c);
      FreshSlot(k.npages, k.reserved, refs0, free0, child);
    }
  }

  ghost function Rest(s: seq<nat>): seq<nat> { if s == [] then [] else s[1..] }

  lemma DirRoom(n: nat, rsv: set<nat>, refs: Refs, free: seq<nat>, e: nat, x: Entry, parent: nat)
    requires Mapped(n, rsv, refs, free) && Dir(e) !in refs && free != [] && x.ppn == free[0] && Shareable(refs, parent)
    ensures Shareable(refs[Dir(e) := x], parent)
  {
    hide Shareable;
    forall r | r in refs ensures Count(refs[Dir(e) := x], refs[r].ppn) <= Count(refs, refs[r].ppn) {
      CountAdd(refs, Dir(e), x, refs[r].ppn);
    }
    ShareableKept(refs, refs[Dir(e) := x], parent);
  }

  lemma FreshSlot(n: nat, rsv: set<nat>, refs: Refs, free: seq<nat>, child: nat)
    requires Mapped(n, rsv, refs, free) && Dir(child) !in refs
    ensures LeavesOnly(Leaves(refs)) && NoLeaves(Leaves(refs), child)
  {}

  /** fork. The child is the next free environment, it is runnable, and what the environments see is what
      copying the parent's memory would have given; parent and child can both take the faults of stores to the
      pages they share. If a system call fails the library panics: whatever was visible still is, and the child,
      if there is one, was never made runnable. */
  method Fork(k: Kernel, first: bool, upcall: nat) returns (ok: bool, child: nat)
    requires k.HasCurrent() && Sharing(Leaves(k.refs)) && Shareable(k.refs, k.curenv.value) && upcall != 0
    requires first || StackOk(Leaves(k.refs), k.curenv.value)
    modifies k`pageFreeList, k`free, k`loose, k`refs, k`envFreeList, k`efree, k.ppLink, k.ppRef, k.mem, k.data,
             k.envPgdir, k.envs
    ensures k.Valid() && Sharing(Leaves(k.refs))
    ensures ok ==> old(k.efree) != [] && child == First(old(k.efree)) && k.efree == Rest(old(k.efree)) && child < NENV && child != k.curenv.value
    ensures ok ==> k.HasCurrent() && k.envs[child].status == Runnable
    ensures ok ==> Seen(k) == IdealFork(old(Seen(k)), k.curenv.value, child)
    ensures ok ==> ForkedOff(Leaves(old(k.refs)), Leaves(k.refs), k.curenv.value, child)
    ensures ok ==> k.envs[k.curenv.value].upcall == upcall == k.envs[child].upcall
    ensures ok ==> forall e: nat :: e < NENV && e != k.curenv.value && e != child ==> k.envs[e] == old(k.envs[e])
    ensures !ok ==> Unharmed(old(Seen(k)), Seen(k))
    ensures !ok ==> k.efree == [] || Scarce(k)
  {
    hide Agree, FreeList, Counts, Chain, Shareable, Sharing, Forked, StackOk, ForkedOff, TableOk;
    child := 0;
    ghost var L := Leaves(k.refs);
    ok := SetPgfaultHandler(k, first, upcall);
    if !ok {
      return;
    }
    ghost var L0, data0, c := Leaves(k.refs), k.data[..], k.curenv.value;
    ok, child := MakeChild(k);
    if !ok {
      VisibleFrame(L0, data0, k.data[..]);
      return;
    }
    ok := Populate(k, child, L0, data0);
    if !ok {
      return;
    }
    OffWithStack(L, L0, Leaves(k.refs), c, child);
    ok := Release(k, child);
  }

  lemma OffWithStack(L: Refs, L0: Refs, L': Refs, parent: nat, child: nat)
    requires OnlyStack(L, L0, parent) && ForkedOff(L0, L', parent, child)
    ensures ForkedOff(L, L', parent, child)
  {
    assert !Below(LeafAt(parent, UXSTACK), USTACKTOP) by { AlignedAddr(UXSTACK); }
    hide StackOk, Dup, PgAddr;
  }

  /** fork after sys_exofork: share the mappings and give the child an exception stack. */
  method Populate(k: Kernel, child: nat, ghost L0: Refs, ghost data0: seq<Bytes>) returns (ok: bool)
    requires k.HasCurrent() && child < NENV && child != k.curenv.value && Reaches(k, k.envs[child].id, child)
    requires Leaves(k.refs) == L0 && DataKept(L0, data0, k.data[..]) && Sharing(L0) && StackOk(L0, k.curenv.value)
    requires Shareable(k.refs, k.curenv.value) && LeavesOnly(L0) && NoLeaves(L0, child)
    modifies k`pageFreeList, k`free, k`loose, k`refs, k.ppLink, k.ppRef, k.mem, k.data
    ensures k.HasCurrent() && Sharing(Leaves(k.refs))
    ensures ok ==> Seen(k) == IdealFork(Visible(L0, data0), k.curenv.value, child)
    ensures ok ==> ForkedOff(L0, Leaves(k.refs), k.curenv.value, child)
    ensures !ok ==> Unharmed(Visible(L0, data0), Seen(k))
    ensures !ok ==> Scarce(k)
  {
    hide Agree, FreeList, Counts, Chain, Shareable, Sharing, Forked, TableOk, LeavesOnly, NoLeaves, BadVa, BadPerm, StackOk, ForkedOff;
    ghost var c, data1 := k.curenv.value, k.data[..];
    ghost var reached;
    ok, reached := ShareMappings(k, k.envs[child].id, child);
    ghost var L, data2 := Leaves(k.refs), k.data[..];
    ForkedSharing(L0, L, c, child, reached);
    KeptTwice(L0, data0, data1, data2);
    if !ok {
      ForkedPartly(L0, L, data0, data2, c, child, reached);
      return;
    }
    ForkedVisible(L0, L, data0, data2, c, child);
    FaultFlags();
    StackFlags();
    assert PTE_W | PTE_U | PTE_P == USER_RW;
    ghost var x := Entry(First(k.free), USER_RW);
    ok := AllocAt(k, k.envs[child].id, UXSTACK, PTE_W | PTE_U | PTE_P, child);
    if ok {
      StackPage(L, child, x, data2, k.data[..]);
      ForkedIsOff(L0, L, c, child, x);
    } else {
      VisibleFrame(L, data2, k.data[..]);
      ForkedPartly(L0, L, data0, data2, c, child, reached);
    }
  }

  lemma KeptTwice(L: Refs, data0: seq<Bytes>, data1: seq<Bytes>, data2: seq<Bytes>)
    requires DataKept(L, data0, data1) && DataKept(L, data1, data2)
    ensures DataKept(L, data0, data2)
  {}

  /** The last two system calls of fork. */
  method Release(k: Kernel, child: nat) returns (ok: bool)
    requires k.HasCurrent() && child < NENV && child != k.curenv.value && Reaches(k, k.envs[child].id, child)
    requires k.envs[child].status != Free
    modifies k.envs
    ensures k.HasCurrent() && ok && k.envs[child].status == Runnable
    ensures k.envs[child].upcall == k.envs[k.curenv.value].upcall
    ensures forall e: nat :: e < NENV && e != child ==> k.envs[e] == old(k.envs[e])
  {
    hide Agree, FreeList, Counts, Chain;
    LiveId(k.envs[..], k.efree, k.refs, child);
    LiveId(k.envs[..], k.efree, k.refs, k.curenv.value);
    var envid := k.envs[child].id;
    var r := k.SysEnvSetPgfaultUpcall(envid, k.envs[k.curenv.value].upcall);
    if r != Success {
      return false;
    }
    r := k.SysEnvSetStatus(envid, Runnable);
    ok := r == Success;
  }

  // ---------------------------------------------------------------- fork_v0

  /** dup_or_share for a page the parent can only read: share it. */
  method ShareReadOnly(k: Kernel, envid: int, va: nat, pte: Entry, ghost child: nat) returns (ok: bool)
    requires k.HasCurrent() && Reaches(k, envid, child) && child != k.curenv.value && !BadVa(va)
    requires Count(k.refs, pte.ppn) < 0xFFFF && Sharing(Leaves(k.refs))
    requires LeafAt(k.curenv.value, va) in k.refs && k.refs[LeafAt(k.curenv.value, va)] == pte && !Writable(pte)
    requires LeafAt(child, va) !in k.refs
    modifies k`pageFreeList, k`free, k`loose, k`refs, k.ppLink, k.ppRef, k.mem, k.data
    ensures k.Valid() && Sharing(Leaves(k.refs))
    ensures !ok ==> k.refs == old(k.refs)
    ensures !ok ==> Scarce(k)
    ensures ok ==> Leaves(k.refs) == Leaves(old(k.refs))[LeafAt(child, va) := EntryAt(k.refs, child, va)]
                   && EntryAt(k.refs, child, va) == Entry(pte.ppn, CopiedFlags(pte.flags))
    ensures DataKept(Leaves(old(k.refs)), old(k.data[..]), k.data[..])
  {
    hide Agree, FreeList, Counts, Chain, TableOk, BadVa, BadPerm, Count;
    var perm := pte.flags & PTE_SYSCALL;
    CopyFlags(pte.flags);
    ghost var L, c := Leaves(k.refs), k.curenv.value;
    ok := MapAt(k, 0, va, envid, va, perm, c, child);
    if ok {
      ghost var x := Entry(pte.ppn, perm | PTE_P | PTE_U);
      assert LeafAt(child, va) in Leaves(k.refs);
      AddReader(L, LeafAt(c, va), LeafAt(child, va), x);
      TempsElsewhere(L, va, child, x);
    }
  }

  lemma CopyFlags(f: bv32)
    ensures !BadPerm(f & PTE_SYSCALL)
    ensures f & PTE_SYSCALL & PTE_W == f & PTE_W
    ensures ((f & PTE_SYSCALL) | PTE_P | PTE_U) & PTE_W == f & PTE_W
  {}

  lemma AddReader(L: Refs, r: Ref, s: Ref, x: Entry)
    requires CowInv(L) && r in L && !Writable(L[r]) && s !in L && x.ppn == L[r].ppn && !Writable(x)
    ensures CowInv(L[s := x])
  {}

  /** Mapping an address that somebody has mapped is not mapping a scratch address. */
  lemma TempsElsewhere(L: Refs, va: nat, child: nat, x: Entry)
    requires NoTemps(L) && exists e :: LeafAt(e, va) in L
    ensures NoTemps(L[LeafAt(child, va) := x])
  {
    var e :| LeafAt(e, va) in L;
    SamePage(e, va, e, PFTEMP);
    SamePage(e, va, e, UTEMP);
    forall f ensures LeafAt(child, va) != LeafAt(f, PFTEMP) && LeafAt(child, va) != LeafAt(f, UTEMP) {
      SamePage(child, va, f, PFTEMP);
      SamePage(child, va, f, UTEMP);
    }
  }

  /** dup_or_share for a writable page: a fresh page in the child, filled through UTEMP. */
  method CopyWritable(k: Kernel, envid: int, va: nat, pte: Entry, ghost child: nat) returns (ok: bool)
    requires k.HasCurrent() && Reaches(k, envid, child) && child != k.curenv.value && !BadVa(va)
    requires Sharing(Leaves(k.refs))
    requires LeafAt(k.curenv.value, va) in k.refs && k.refs[LeafAt(k.curenv.value, va)] == pte && Writable(pte)
    requires LeafAt(child, va) !in k.refs
    modifies k`pageFreeList, k`free, k`loose, k`refs, k.ppLink, k.ppRef, k.mem, k.data
    ensures k.Valid() && Sharing(Leaves(k.refs))
    ensures !ok ==> Leaves(k.refs) - {LeafAt(child, va)} == Leaves(old(k.refs))
    ensures !ok ==> Scarce(k)
    ensures ok ==> Leaves(k.refs) == Leaves(old(k.refs))[LeafAt(child, va) := EntryAt(k.refs, child, va)]
                   && Unmapped(Leaves(old(k.refs)), EntryAt(k.refs, child, va).ppn)
                   && EntryAt(k.refs, child, va).flags == CopiedFlags(pte.flags)
                   && PageData(k.data[..], EntryAt(k.refs, child, va).ppn) == PageData(old(k.data[..]), pte.ppn)
    ensures DataKept(Leaves(old(k.refs)), old(k.data[..]), k.data[..])
  {
    hide Agree, FreeList, Counts, Chain, TableOk, BadVa, BadPerm, CowInv, AllocError, Count;
    var perm := pte.flags & PTE_SYSCALL;
    CopyFlags(pte.flags);
    FaultFlags();
    ghost var L0, c, data0 := Leaves(k.refs), k.curenv.value, k.data[..];
    ghost var x, there, temp := Entry(First(k.free), perm | PTE_P | PTE_U), LeafAt(child, va), LeafAt(c, UTEMP);
    assert LeafAt(c, va) in L0 && there !in L0;
    assert L0 - {there} == L0;
    ok := AllocAt(k, envid, va, perm, child);
    if !ok {
      return;
    }
    ghost var L1, data1 := Leaves(k.refs), k.data[..];
    PrivateKeepsCow(L0, there, x);
    TempsElsewhere(L0, va, child, x);
    assert L1 - {there} == L0 && LeafAt(child, va) in L1;
    ok := FillPage(k, envid, va, perm, child);
    KeptMore(L0, L1, data0, data1, k.data[..], x.ppn);
  }

  /** The rest of dup_or_share: map the child's page at UTEMP, copy into it, unmap it. */
  method FillPage(k: Kernel, envid: int, va: nat, perm: bv32, ghost child: nat) returns (ok: bool)
    requires k.HasCurrent() && Reaches(k, envid, child) && child != k.curenv.value && !BadVa(va) && !BadPerm(perm)
    requires Count(k.refs, EntryAt(k.refs, child, va).ppn) < 0xFFFF && NoTemps(Leaves(k.refs))
    requires LeafAt(k.curenv.value, va) in k.refs && LeafAt(child, va) in k.refs
    requires Writable(EntryAt(k.refs, child, va))
    modifies k`pageFreeList, k`free, k`loose, k`refs, k.ppLink, k.ppRef, k.mem, k.data
    ensures k.Valid() && Leaves(k.refs) == Leaves(old(k.refs))
    ensures KeptExcept(Leaves(k.refs), old(k.data[..]), k.data[..], EntryAt(old(k.refs), child, va).ppn)
    ensures !ok ==> Scarce(k)
    ensures ok ==> PageData(k.data[..], EntryAt(old(k.refs), child, va).ppn)
                   == PageData(old(k.data[..]), EntryAt(old(k.refs), k.curenv.value, va).ppn)
  {
    hide Agree, FreeList, Counts, Chain, TableOk, BadPerm, Writable, Count;
    FaultFlags();
    ghost var L1, c, data1 := Leaves(k.refs), k.curenv.value, k.data[..];
    ghost var temp, page := LeafAt(c, UTEMP), EntryAt(k.refs, child, va).ppn;
    assert LeafAt(c, va) in L1 && LeafAt(child, va) in L1 && temp !in L1;
    ok := MapAt(k, envid, va, 0, UTEMP, perm, child, c);
    if !ok {
      return;
    }
    ghost var L2, data2 := Leaves(k.refs), k.data[..];
    assert temp in L2 && LeafAt(c, va) in L2 && L2[LeafAt(c, va)] == L1[LeafAt(c, va)] && L2[temp].ppn == page;
    CopyPage(k, UTEMP, va);
    UnmapAt(k, UTEMP);
    assert L2 - {temp} == L1;
  }

  /** Every mapped page but one has the same contents. */
  ghost predicate KeptExcept(L: Refs, data: seq<Bytes>, data': seq<Bytes>, p: nat) {
    forall r :: r in L && L[r].ppn != p ==> PageData(data', L[r].ppn) == PageData(data, L[r].ppn)
  }

  lemma KeptMore(L0: Refs, L1: Refs, data0: seq<Bytes>, data1: seq<Bytes>, data2: seq<Bytes>, p: nat)
    requires DataKept(L0, data0, data1) && KeptExcept(L1, data1, data2, p) && Unmapped(L0, p)
    requires forall r :: r in L0 ==> r in L1 && L1[r] == L0[r]
    ensures DataKept(L0, data0, data2)
  {}

  /** dup_or_share. */
  method DupOrShare(k: Kernel, envid: int, va: nat, pte: Entry, ghost c: nat, ghost child: nat, ghost refs0: Refs, ghost data0: seq<Bytes>)
    returns (ok: bool)
    requires k.curenv == Some(c) && Reaches(k, envid, child) && child != c
    requires va % PGSIZE == 0 && va < UTOP && Shareable(refs0, c) && LeavesOnly(Leaves(refs0))
    requires Copied(Leaves(refs0), Leaves(k.refs), c, child, va) && Sharing(Leaves(k.refs))
    requires LeafAt(c, va) in Leaves(refs0) && EntryAt(refs0, c, va) == pte
    requires NoLeaves(Leaves(refs0), child) && DataKept(Leaves(refs0), data0, k.data[..])
    requires SameData(Leaves(refs0), Leaves(k.refs), data0, k.data[..], c, child)
    requires k.HasCurrent()
    modifies k`pageFreeList, k`free, k`loose, k`refs, k.ppLink, k.ppRef, k.mem, k.data
    ensures k.Valid() && Sharing(Leaves(k.refs)) && DataKept(Leaves(refs0), data0, k.data[..])
    ensures ok ==> Copied(Leaves(refs0), Leaves(k.refs), c, child, va + PGSIZE)
                   && SameData(Leaves(refs0), Leaves(k.refs), data0, k.data[..], c, child)
    ensures !ok ==> Kept(Leaves(refs0), Leaves(k.refs))
    ensures !ok ==> Scarce(k)
  {
    hide Agree, FreeList, Counts, Chain, TableOk, Shareable, Copied, LeavesOnly, NoLeaves, SameData, Sharing, Private, Writable, Count, CopiedFlags;
    ghost var L0, L, data1 := Leaves(refs0), Leaves(k.refs), k.data[..];
    Exclusively(k);
    CopiedRoom(refs0, k.refs, c, child, va, LeafAt(c, va));
    CopyStep(L0, L, c, child, va, Entry(pte.ppn, CopiedFlags(pte.flags)));
    CopiedKeeps(L0, L, c, child, va, data0, data1);
    assert LeafAt(c, va) in L && L[LeafAt(c, va)] == pte;
    if !Writable(pte) {
      ok := ShareReadOnly(k, envid, va, pte, child);
    } else {
      ok := CopyWritable(k, envid, va, pte, child);
    }
    ghost var data2 := k.data[..];
    KeptOn(L0, L, data0, data1, data2);
    if ok {
      ghost var x := EntryAt(k.refs, child, va);
      CopyStep(L0, L, c, child, va, x);
      SameDataStep(L0, L, data0, data1, data2, c, child, va, x);
    }
  }

  ghost predicate Kept(L0: Refs, L: Refs) {
    forall r :: r in L0 ==> r in L && L[r] == L0[r]
  }

  lemma KeptOn(L0: Refs, L: Refs, data0: seq<Bytes>, data1: seq<Bytes>, data2: seq<Bytes>)
    requires Kept(L0, L) && DataKept(L0, data0, data1) && DataKept(L, data1, data2)
    ensures DataKept(L0, data0, data2)
  {}

  lemma CopiedKeeps(L0: Refs, L: Refs, parent: nat, child: nat, cur: nat, data0: seq<Bytes>, data1: seq<Bytes>)
    requires Copied(L0, L, parent, child, cur) && LeavesOnly(L0) && NoLeaves(L0, child)
    requires DataKept(L0, data0, data1)
    ensures Kept(L0, L)
  {
    forall r | r in L0 ensures r in L && L[r] == L0[r] {
      assert r == Leaf(r.e, r.i, r.j);
    }
  }

  /** The loop of fork_v0 over all user pages. */
  method CopyMappings(k: Kernel, envid: int, ghost child: nat, ghost L0: Refs, ghost data0: seq<Bytes>) returns (ok: bool)
    requires k.HasCurrent() && Reaches(k, envid, child) && child != k.curenv.value
    requires Leaves(k.refs) == L0 && DataKept(L0, data0, k.data[..]) && Sharing(L0)
    requires Shareable(k.refs, k.curenv.value) && LeavesOnly(L0) && NoLeaves(L0, child)
    modifies k`pageFreeList, k`free, k`loose, k`refs, k.ppLink, k.ppRef, k.mem, k.data
    ensures k.HasCurrent() && Sharing(Leaves(k.refs))
    ensures ok ==> Seen(k) == IdealFork(Visible(L0, data0), k.curenv.value, child)
    ensures ok ==> Copied(L0, Leaves(k.refs), k.curenv.value, child, UTOP)
    ensures !ok ==> Unharmed(Visible(L0, data0), Seen(k))
    ensures !ok ==> Scarce(k)
  {
    hide Agree, FreeList, Counts, Chain, TableOk, Shareable, Copied, LeavesOnly, NoLeaves, SameData, Sharing, Visible, IdealFork, Unharmed, DataKept, Count, StackOk, Open;
    ghost var c, refs0 := k.curenv.value, k.refs;
    CopyStart(L0, k.data[..], c, child);
    SameDataFrom(L0, data0, k.data[..], c, child);
    var addr := 0;
    while addr < UTOP
      invariant addr % PGSIZE == 0 && addr <= UTOP
      invariant k.Valid() && Sharing(Leaves(k.refs)) && Copied(L0, Leaves(k.refs), c, child, addr)
      invariant DataKept(L0, data0, k.data[..]) && SameData(L0, Leaves(k.refs), data0, k.data[..], c, child)
    {
      var pte := ReadPte(k, addr);
      CopiedKeeps(L0, Leaves(k.refs), c, child, addr, data0, k.data[..]);
      ParentSame(L0, Leaves(k.refs), c, child, addr);
      if pte == None || !Present(pte.value) {
        CopySkip(L0, Leaves(k.refs), c, child, addr);
      } else {
        assert LeafAt(c, addr) in Leaves(k.refs);
        ok := DupOrShare(k, envid, addr, pte.value, c, child, refs0, data0);
        if !ok {
          CopiedPartly(L0, Leaves(k.refs), data0, k.data[..]);
          return;
        }
      }
      addr := addr + PGSIZE;
    }
    CopiedVisible(L0, Leaves(k.refs), data0, k.data[..], c, child);
    ok := true;
  }

  lemma SameDataFrom(L0: Refs, data0: seq<Bytes>, data: seq<Bytes>, parent: nat, child: nat)
    requires NoLeaves(L0, child)
    ensures SameData(L0, L0, data0, data, parent, child)
  {
    forall r: Ref | r.Leaf? && r.e == child ensures r !in L0 {
      assert r == Leaf(child, r.i, r.j);
    }
  }

  lemma ParentSame(L0: Refs, L: Refs, parent: nat, child: nat, cur: nat)
    requires Copied(L0, L, parent, child, cur) && parent != child
    ensures LeafAt(parent, cur) in L0 <==> LeafAt(parent, cur) in L
  {}

  /** fork_v0: the same effect on what the environments see as fork. But the child has no upcall, so that it can
      take the faults of stores to the copy-on-write pages it inherits if and only if it inherits none. */
  method ForkV0(k: Kernel) returns (ok: bool, child: nat)
    requires k.HasCurrent() && Sharing(Leaves(k.refs)) && Shareable(k.refs, k.curenv.value)
    modifies k`pageFreeList, k`free, k`loose, k`refs, k`envFreeList, k`efree, k.ppLink, k.ppRef, k.mem, k.data,
             k.envPgdir, k.envs
    ensures k.Valid() && Sharing(Leaves(k.refs))
    ensures ok ==> old(k.efree) != [] && child == First(old(k.efree)) && k.efree == Rest(old(k.efree)) && child < NENV && child != k.curenv.value
    ensures ok ==> k.HasCurrent() && k.envs[child].status == Runnable
    ensures ok ==> Seen(k) == IdealFork(old(Seen(k)), k.curenv.value, child)
    ensures ok ==> Copied(Leaves(old(k.refs)), Leaves(k.refs), k.curenv.value, child, UTOP)
                   && LeavesOnly(Leaves(old(k.refs))) && NoLeaves(Leaves(old(k.refs)), child)
    ensures ok ==> k.envs[child].upcall == 0 && forall e: nat :: e < NENV && e != child ==> k.envs[e] == old(k.envs[e])
    ensures ok && Handled(Leaves(old(k.refs)), old(k.envs[..])) ==>
              (Handled(Leaves(k.refs), k.envs[..]) <==> !HasCow(Leaves(old(k.refs)), k.curenv.value))
    ensures !ok ==> Unharmed(old(Seen(k)), Seen(k))
    ensures !ok ==> k.efree == [] || Scarce(k)
  {
    hide Agree, FreeList, Counts, Chain, Shareable, Sharing, Copied, LeavesOnly, NoLeaves, Handled, HasCow, TableOk;
    ghost var L0, data0, c := Leaves(k.refs), k.data[..], k.curenv.value;
    ok, child := MakeChild(k);
    if !ok {
      VisibleFrame(L0, data0, k.data[..]);
      return;
    }
    ok := CopyMappings(k, k.envs[child].id, child, L0, data0);
    if !ok {
      return;
    }
    var r := k.SysEnvSetStatus(k.envs[child].id, Runnable);
    ok := r == Success;
    if Handled(L0, old(k.envs[..])) {
      EagerForkHandledIff(L0, Leaves(k.refs), old(k.envs[..]), k.envs[..], c, child);
    }
  }

  /** The run in which that bites: an environment calls fork_v0 while its page at va is copy-on-write. The
      child's first store to the page destroys the child. */
  method InheritedPageDestroys(k: Kernel, va: nat, b: Byte) returns (forked: bool, out: Outcome)
    requires k.HasCurrent() && Sharing(Leaves(k.refs)) && va < USTACKTOP
    requires LeafAt(k.curenv.value, va) in k.refs && CopyOnWrite(k.refs[LeafAt(k.curenv.value, va)])
    requires !CanStore(k.refs, k.curenv.value, va)
    modifies k, k.ppLink, k.ppRef, k.mem, k.data, k.envLink, k.envPgdir, k.envs
    ensures !forked ==> k.efree == [] || Scarce(k) || (old(k.curenv).Some? && !Shareable(k.refs, old(k.curenv).value))
    ensures forked ==> out == Destroyed
  {
    hide Agree, FreeList, Counts, Chain, TableOk, Shareable, Sharing, Copied, LeavesOnly, NoLeaves, Handled, Handlers.StackOk, CanRepair;
    out := NotMade;
    ghost var L, c := Leaves(k.refs), k.curenv.value;
    forked := CanShare(k);
    if !forked {
      return;
    }
    var child;
    forked, child := ForkV0(k);
    if !forked {
      return;
    }
    InheritedPage(L, Leaves(k.refs), c, child, va);
    k.curenv := Some(child);
    out := Store(k, va, b);
  }

  /** And a fork makes any writable page such a page. */
  method ForkThenForkV0(k: Kernel, va: nat, b: Byte, upcall: nat) returns (forked: bool, out: Outcome)
    requires k.HasCurrent() && Sharing(Leaves(k.refs)) && Shareable(k.refs, k.curenv.value) && upcall != 0
    requires va < USTACKTOP && CanStore(k.refs, k.curenv.value, va)
    modifies k, k.ppLink, k.ppRef, k.mem, k.data, k.envLink, k.envPgdir, k.envs
    ensures !forked ==> k.efree == [] || Scarce(k) || (old(k.curenv).Some? && !Shareable(k.refs, old(k.curenv).value))
    ensures forked ==> out == Destroyed
  {
    hide Agree, FreeList, Counts, Chain, TableOk, Shareable, Sharing, ForkedOff, HasCow;
    out := NotMade;
    ghost var L, c := Leaves(k.refs), k.curenv.value;
    var child;
    forked, child := Fork(k, true, upcall);
    if forked {
      SharedPage(L, Leaves(k.refs), c, child, va);
      forked, out := InheritedPageDestroys(k, va, b);
    }
  }

  /** What a fork is for: wherever the parent could store before it, both can store afterwards, as long as there
      is memory for a copy; `childs` says who does. */
  method ForkThenStore(k: Kernel, va: nat, b: Byte, upcall: nat, childs: bool) returns (forked: bool, out: Outcome)
    requires k.HasCurrent() && Sharing(Leaves(k.refs)) && Shareable(k.refs, k.curenv.value) && upcall != 0
    requires va < USTACKTOP && Stores(View(k, k.curenv.value, va))
    modifies k, k.ppLink, k.ppRef, k.mem, k.data, k.envLink, k.envPgdir, k.envs
    ensures !forked ==> k.efree == [] || Scarce(k)
    ensures forked ==> out == Done || (out == Panicked && Scarce(k))
  {
    hide Agree, FreeList, Counts, Chain, TableOk, Shareable, Sharing, ForkedOff, HasCow, Translate, Open, FrameWritable;
    out := NotMade;
    ghost var L, c := Leaves(k.refs), k.curenv.value;
    StoreMeans(k, va);
    var child;
    forked, child := Fork(k, true, upcall);
    if forked {
      var e := if childs then child else k.curenv.value;
      SharedByBoth(L, Leaves(k.refs), c, child, va, e);
      k.curenv := Some(e);
      StackMeans(k, e);
      out := Store(k, va, b);
    }
  }

  lemma SharedByBoth(L: Refs, L': Refs, parent: nat, child: nat, va: nat, e: nat)
    requires ForkedOff(L, L', parent, child) && va < USTACKTOP && LeafAt(parent, va) in L && Writable(L[LeafAt(parent, va)])
    requires e == parent || e == child
    ensures LeafAt(e, va) in L' && CopyOnWrite(L'[LeafAt(e, va)]) && StackOk(L', e)
  {
    PageOfAddr(e, va);
    assert Twin(LeafAt(child, va), parent) == LeafAt(parent, va);
    DupIsShared(L[LeafAt(parent, va)]);
  }

  lemma SharedPage(L: Refs, L': Refs, parent: nat, child: nat, va: nat)
    requires ForkedOff(L, L', parent, child) && va < USTACKTOP && LeafAt(parent, va) in L && Writable(L[LeafAt(parent, va)])
    ensures LeafAt(parent, va) in L' && CopyOnWrite(L'[LeafAt(parent, va)]) && !Writable(L'[LeafAt(parent, va)])
  {
    PageOfAddr(parent, va);
    DupIsShared(L[LeafAt(parent, va)]);
  }

  lemma InheritedPage(L: Refs, L': Refs, parent: nat, child: nat, va: nat)
    requires Copied(L, L', parent, child, UTOP) && LeavesOnly(L) && parent != child && va < USTACKTOP
    requires LeafAt(parent, va) in L && CopyOnWrite(L[LeafAt(parent, va)]) && !Writable(L[LeafAt(parent, va)])
    ensures LeafAt(child, va) in L' && CopyOnWrite(L'[LeafAt(child, va)]) && !Writable(L'[LeafAt(child, va)])
  {
    var f := L[LeafAt(parent, va)].flags;
    assert Twin(LeafAt(child, va), parent) == LeafAt(parent, va);
    CopiedTwin(L, L', parent, child, LeafAt(child, va));
    CopiedBits(f);
    assert CopiedFlags(f) & PTE_W == f & PTE_W;
  }

  // ---------------------------------------------------------------- room in pp_ref, looked up

  /** How many pages of the current environment below `limit` are page p. */
  method OwnCount(k: Kernel, p: nat) returns (n: nat)
    requires k.HasCurrent()
    ensures n == |Own(k.refs, k.curenv.value, p)|
  {
    hide Agree, FreeList, Counts, Chain, TableOk;
    ghost var c, found := k.curenv.value, {};
    var va := 0;
    n := 0;
    while va < UTOP
      invariant va % PGSIZE == 0 && va <= UTOP && n == |found|
      invariant forall r :: r in found <==> r in Own(k.refs, c, p) && Below(r, va)
    {
      var pte := ReadPte(k, va);
      ghost var r := LeafAt(c, va);
      OwnStep(k, p, va, found);
      if pte.Some? && Present(pte.value) && pte.value.ppn == p {
        n, found := n + 1, found + {r};
      }
      va := va + PGSIZE;
    }
    OwnAll(k, p, found);
  }

  lemma OwnStep(k: Kernel, p: nat, va: nat, found: set<Ref>)
    requires k.HasCurrent() && va % PGSIZE == 0 && va < UTOP
    requires forall r :: r in found <==> r in Own(k.refs, k.curenv.value, p) && Below(r, va)
    ensures var c := k.curenv.value;
            && LeafAt(c, va) !in found
            && forall r :: r in Own(k.refs, c, p) && Below(r, va + PGSIZE) <==>
                 r in found || (r == LeafAt(c, va) && r in Own(k.refs, c, p))
  {
    var c := k.curenv.value;
    MappedPages(k);
    AlignedAddr(va);
    forall r | r in Own(k.refs, c, p) ensures Below(r, va + PGSIZE) <==> Below(r, va) || r == LeafAt(c, va) {
      BelowStep(r, va);
    }
  }

  lemma OwnAll(k: Kernel, p: nat, found: set<Ref>)
    requires k.HasCurrent() && forall r :: r in found <==> r in Own(k.refs, k.curenv.value, p) && Below(r, UTOP)
    ensures found == Own(k.refs, k.curenv.value, p)
  {
    MappedPages(k);
    forall r | r in Own(k.refs, k.curenv.value, p) ensures Below(r, UTOP) {
      assert InRange(r);
    }
  }

  /** Has pp_ref room for a fork of the current environment? */
  method CanShare(k: Kernel) returns (room: bool)
    requires k.HasCurrent()
    ensures room <==> Shareable(k.refs, k.curenv.value)
  {
    hide Agree, FreeList, Counts, Chain, TableOk, Own, Count;
    ghost var c := k.curenv.value;
    var va := 0;
    room := true;
    while va < UTOP
      invariant va % PGSIZE == 0 && va <= UTOP
      invariant room ==> forall r :: r in k.refs && r.Leaf? && r.e == c && Below(r, va) ==>
                  Count(k.refs, k.refs[r].ppn) + |Own(k.refs, c, k.refs[r].ppn)| < 0xFFFE
      invariant !room ==> !Shareable(k.refs, c)
    {
      var pte := ReadPte(k, va);
      if pte.Some? && Present(pte.value) {
        var n := OwnCount(k, pte.value.ppn);
        PageCounted(k, va);
        room := room && k.ppRef[pte.value.ppn] + n < 0xFFFE;
      }
      MappedSteps(k, va);
      va := va + PGSIZE;
    }
    MappedBelow(k);
  }

  lemma PageCounted(k: Kernel, va: nat)
    requires k.HasCurrent() && LeafAt(k.curenv.value, va) in k.refs
    ensures var p := k.refs[LeafAt(k.curenv.value, va)].ppn; p < k.npages && k.ppRef[p] == Count(k.refs, p)
  {
    hide Agree, FreeList, Chain, TableOk;
    MappedPages(k);
    CountMeans(k.reserved, k.ppRef[..], k.refs, k.free, k.loose, k.refs[LeafAt(k.curenv.value, va)].ppn);
  }

  lemma MappedSteps(k: Kernel, va: nat)
    requires k.HasCurrent() && va % PGSIZE == 0
    ensures forall r :: r in k.refs && r.Leaf? && r.e == k.curenv.value ==>
              (Below(r, va + PGSIZE) <==> Below(r, va) || r == LeafAt(k.curenv.value, va))
  {
    MappedPages(k);
    forall r | r in k.refs && r.Leaf? ensures Below(r, va + PGSIZE) <==> Below(r, va) || r == LeafAt(r.e, va) {
      BelowStep(r, va);
    }
  }

  lemma MappedBelow(k: Kernel)
    requires k.Valid()
    ensures forall r :: r in k.refs && r.Leaf? ==> Below(r, UTOP)
  {
    MappedPages(k);
    forall r | r in k.refs && r.Leaf? ensures Below(r, UTOP) {
      assert InRange(r);
    }
  }

  // ---------------------------------------------------------------- runs

  /** What a user program can do here: fork in either way, store a byte, allocate or unmap a page of its own. */
  datatype Op =
    | ForkOp(e: nat, eager: bool)
    | StoreOp(e: nat, va: nat, b: Byte)
    | AllocOp(e: nat, va: nat)
    | UnmapOp(e: nat, va: nat)

  /** Memory without any sharing, and the order in which environments will be allocated. */
  datatype World = World(mem: Memory, efree: seq<nat>)

  ghost function IdealStep(w: World, op: Op): World {
    match op
    case ForkOp(e, _) => World(IdealFork(w.mem, e, First(w.efree)), Rest(w.efree))
    case StoreOp(e, va, b) =>
      if LeafAt(e, va) in w.mem then w.(mem := IdealWrite(w.mem, LeafAt(e, va), va % PGSIZE, b)) else w
    case AllocOp(e, va) => w.(mem := w.mem[LeafAt(e, va) := ZeroPage()])
    case UnmapOp(e, va) => w.(mem := w.mem - {LeafAt(e, va)})
  }

  ghost function IdealRun(w: World, ops: seq<Op>): World {
    if ops == [] then w else IdealStep(IdealRun(w, ops[..|ops| - 1]), ops[|ops| - 1])
  }

  /** Addresses user programs map and unmap themselves: not the library's scratch pages. */
  predicate AppPage(va: nat) {
    va % PGSIZE == 0 && va < USTACKTOP && va != PFTEMP && va != UTEMP
  }

  lemma AppPageFacts(L: Refs, e: nat, va: nat, x: Entry)
    requires AppPage(va)
    ensures !BadVa(va) && Below(LeafAt(e, va), USTACKTOP)
    ensures NoTemps(L) ==> NoTemps(L[LeafAt(e, va) := x])
    ensures NoTemps(L) ==> NoTemps(L - {LeafAt(e, va)})
  {
    AlignedAddr(va);
    forall f ensures LeafAt(e, va) != LeafAt(f, PFTEMP) && LeafAt(e, va) != LeafAt(f, UTEMP) {
      SamePage(e, va, f, PFTEMP);
      SamePage(e, va, f, UTEMP);
    }
  }

  /** sys_page_alloc(0, va, PTE_P | PTE_U | PTE_W) by a user program. */
  method AppAlloc(k: Kernel, va: nat) returns (ok: bool)
    requires k.HasCurrent() && Sharing(Leaves(k.refs)) && AppPage(va)
    modifies k`pageFreeList, k`free, k`loose, k`refs, k.ppLink, k.ppRef, k.mem, k.data
    ensures k.Valid() && Sharing(Leaves(k.refs))
    ensures Seen(k) == if ok then old(Seen(k))[LeafAt(k.curenv.value, va) := ZeroPage()] else old(Seen(k))
    ensures ok <==> AllocError(old(k.refs), old(k.free), k.curenv, va, USER_RW) == Success
    ensures ok ==> NotWorse(Leaves(old(k.refs)), k.envs[..], Leaves(k.refs), k.envs[..])
  {
    hide Agree, FreeList, Counts, Chain, BadVa, BadPerm, CowInv, NoTemps, TableOk, AllocError, NotWorse, Count;
    ghost var L, data0, c := Leaves(k.refs), k.data[..], k.curenv.value;
    ghost var x := Entry(First(k.free), USER_RW);
    AppPageFacts(L, c, va, x);
    FaultFlags();
    ok := AllocAt(k, 0, va, PTE_P | PTE_U | PTE_W, c);
    if ok {
      PrivateKeepsCow(L, LeafAt(c, va), x);
      AllocVisible(L, data0, k.data[..], LeafAt(c, va), x);
      RemapNotWorse(L, k.envs[..], LeafAt(c, va), x);
    } else {
      VisibleFrame(L, data0, k.data[..]);
    }
  }

  lemma AllocVisible(L: Refs, data: seq<Bytes>, data': seq<Bytes>, r: Ref, x: Entry)
    requires DataKept(L, data, data') && Below(r, USTACKTOP)
    ensures Visible(L[r := x], data') == Visible(L, data)[r := PageData(data', x.ppn)]
  {}

  /** sys_page_unmap(0, va) by a user program. */
  method AppUnmap(k: Kernel, va: nat)
    requires k.HasCurrent() && Sharing(Leaves(k.refs)) && AppPage(va)
    modifies k`pageFreeList, k`free, k`loose, k`refs, k.ppLink, k.ppRef, k.mem, k.data
    ensures k.Valid() && Sharing(Leaves(k.refs))
    ensures Seen(k) == old(Seen(k)) - {LeafAt(k.curenv.value, va)}
    ensures NotWorse(Leaves(old(k.refs)), k.envs[..], Leaves(k.refs), k.envs[..])
  {
    hide Agree, FreeList, Counts, Chain, BadVa, CowInv, NoTemps, TableOk, NotWorse;
    ghost var L, c := Leaves(k.refs), k.curenv.value;
    AppPageFacts(L, c, va, ZERO);
    UnmapAt(k, va);
    RemoveKeepsCow(L, LeafAt(c, va));
    RemoveNotWorse(L, k.envs[..], c, va);
    assert Visible(L - {LeafAt(c, va)}, k.data[..]) == Visible(L, k.data[..]) - {LeafAt(c, va)};
  }

  /** A moment of a run: the references, the free pages and the environments. */
  datatype Moment = Moment(refs: Refs, free: seq<nat>, envs: seq<Env>)

  ghost function Now(k: Kernel): Moment
    reads k, k.envs
  {
    Moment(k.refs, k.free, k.envs[..])
  }

  /** Is this operation one that its environment makes? */
  predicate Makes(envs: seq<Env>, op: Op) {
    && op.e < NENV == |envs| && envs[op.e].status != Free
    && match op
       case ForkOp(_, _) => true
       case StoreOp(_, va, _) => va < USTACKTOP
       case AllocOp(_, va) => AppPage(va)
       case UnmapOp(_, va) => AppPage(va)
  }

  /** How an operation ends, from the state before it; a fork for which there is room may also panic. */
  ghost predicate Ends(m: Moment, op: Op, out: Outcome)
    requires |m.envs| == NENV
  {
    if !Makes(m.envs, op) then out == NotMade
    else match op
      case ForkOp(e, _) => if Shareable(m.refs, e) then out == Done || out == Panicked else out == MayOverflow
      case StoreOp(e, va, _) => out == StoreOutcome(m.refs, m.free, m.envs, e, va)
      case AllocOp(e, va) =>
        out == if AllocError(m.refs, m.free, Some(e), va, USER_RW) == Success then Done else Panicked
      case UnmapOp(_, _) => out == Done
  }

  /** Does a fork_v0 by an environment with copy-on-write pages occur here? */
  ghost predicate Bequeaths(m: Moment, op: Op) {
    op.ForkOp? && op.eager && HasCow(Leaves(m.refs), op.e)
  }

  /** One operation by the environment it names. lib[e] says whether _pgfault_handler is set in e. */
  method Step(k: Kernel, lib: seq<bool>, op: Op, upcall: nat) returns (out: Outcome, lib': seq<bool>)
    requires k.Valid() && Sharing(Leaves(k.refs)) && Installed(Leaves(k.refs), lib) && upcall != 0
    modifies k, k.ppLink, k.ppRef, k.mem, k.data, k.envLink, k.envPgdir, k.envs
    ensures k.Valid() && Sharing(Leaves(k.refs))
    ensures Ends(old(Now(k)), op, out)
    ensures out == Done ==> World(Seen(k), k.efree) == IdealStep(World(old(Seen(k)), old(k.efree)), op)
    ensures out == Done ==> Installed(Leaves(k.refs), lib')
    ensures out == Done && Handled(Leaves(old(k.refs)), old(k.envs[..])) ==>
              (Handled(Leaves(k.refs), k.envs[..]) <==> !Bequeaths(old(Now(k)), op))
    ensures out == Destroyed ==> Seen(k) == Bereft(old(Seen(k)), op.e)
    ensures out != Destroyed ==> out == Done || Unharmed(old(Seen(k)), Seen(k))
    ensures out == Panicked && op.ForkOp? ==> k.efree == [] || Scarce(k)
  {
    hide Agree, FreeList, Counts, Chain, Sharing, IdealFork, IdealWrite, Shareable, Handled, Installed, NotWorse, HasCow, AllocError;
    hide StoreOutcome, AppPage, Bereft, TableOk;
    lib' := lib;
    ghost var seen := Seen(k);
    assert Unharmed(seen, seen);
    if op.e >= NENV || k.envs[op.e].status == Free || (op.StoreOp? && op.va >= USTACKTOP)
       || ((op.AllocOp? || op.UnmapOp?) && !AppPage(op.va)) {
      return NotMade, lib;
    }
    ghost var L, envs := Leaves(k.refs), k.envs[..];
    k.curenv := Some(op.e);
    match op
    case ForkOp(_, eager) =>
      out, lib' := AnyFork(k, lib, eager, upcall);
    case StoreOp(_, va, b) =>
      out := Store(k, va, b);
      if out == Done {
        NotWorseKeeps(L, envs, Leaves(k.refs), k.envs[..], lib);
      }
    case AllocOp(_, va) =>
      var ok := AppAlloc(k, va);
      out := if ok then Done else Panicked;
      if ok {
        NotWorseKeeps(L, envs, Leaves(k.refs), k.envs[..], lib);
      }
    case UnmapOp(_, va) =>
      AppUnmap(k, va);
      out := Done;
      NotWorseKeeps(L, envs, Leaves(k.refs), k.envs[..], lib);
  }

  /** A fork of either kind by the current environment. */
  method AnyFork(k: Kernel, lib: seq<bool>, eager: bool, upcall: nat) returns (out: Outcome, lib': seq<bool>)
    requires k.HasCurrent() && Sharing(Leaves(k.refs)) && Installed(Leaves(k.refs), lib) && upcall != 0
    modifies k`pageFreeList, k`free, k`loose, k`refs, k`envFreeList, k`efree, k.ppLink, k.ppRef, k.mem, k.data,
             k.envPgdir, k.envs
    ensures k.Valid() && Sharing(Leaves(k.refs)) && k.curenv.value < NENV
    ensures if Shareable(old(k.refs), k.curenv.value) then out == Done || out == Panicked else out == MayOverflow
    ensures out == Done ==> Seen(k) == IdealFork(old(Seen(k)), k.curenv.value, First(old(k.efree))) && k.efree == Rest(old(k.efree))
    ensures out == Done ==> Installed(Leaves(k.refs), lib')
    ensures out == Done && Handled(Leaves(old(k.refs)), old(k.envs[..])) ==>
              (Handled(Leaves(k.refs), k.envs[..]) <==> !(eager && HasCow(Leaves(old(k.refs)), k.curenv.value)))
    ensures out != Done ==> Unharmed(old(Seen(k)), Seen(k))
    ensures out == Panicked ==> k.efree == [] || Scarce(k)
  {
    hide Agree, FreeList, Counts, Chain, TableOk, Sharing, IdealFork, Shareable, Handled, HasCow, ForkedOff, Copied, LeavesOnly, NoLeaves, StackOk;
    lib' := lib;
    ghost var L, envs, c := Leaves(k.refs), k.envs[..], k.curenv.value;
    var room := CanShare(k);
    if !room {
      return MayOverflow, lib;
    }
    var ok, child;
    if eager {
      ok, child := ForkV0(k);
      if ok {
        EagerForkInstalled(L, Leaves(k.refs), lib, c, child);
        lib' := lib[child := lib[k.curenv.value]];
      }
    } else {
      ok, child := Fork(k, !lib[k.curenv.value], upcall);
      if ok {
        if Handled(L, envs) {
          ForkHandled(L, Leaves(k.refs), envs, k.envs[..], c, child);
        }
        ForkInstalled(L, Leaves(k.refs), lib, c, child);
        lib' := lib[k.curenv.value := true][child := true];
      }
    }
    out := if ok then Done else Panicked;
  }

  /** Copy-on-write fork refines eager copying: however forks of both kinds, stores, allocations and unmaps
      of all environments are interleaved, every environment reads exactly what it would read if each fork
      had copied all memory, for as long as every operation is done. `last` is the moment before the first one
      that is not. There no environment with copy-on-write pages lacks a handler, unless one of the forks was a
      fork_v0, or one lacked it from the start. */
  method Run(k: Kernel, lib: seq<bool>, ops: seq<Op>, upcall: nat) returns (done: nat, out: Outcome, ghost last: Moment)
    requires k.Valid() && Sharing(Leaves(k.refs)) && Installed(Leaves(k.refs), lib) && upcall != 0
    modifies k, k.ppLink, k.ppRef, k.mem, k.data, k.envLink, k.envPgdir, k.envs
    ensures k.Valid() && Sharing(Leaves(k.refs)) && done <= |ops| && |last.envs| == NENV
    ensures out == Done <==> done == |ops|
    ensures var w := IdealRun(World(old(Seen(k)), old(k.efree)), ops[..done]);
            match out
            case Done => World(Seen(k), k.efree) == w
            case Destroyed => Seen(k) == Bereft(w.mem, ops[done].e)
            case _ => Unharmed(w.mem, Seen(k))
    ensures done < |ops| ==> Ends(last, ops[done], out)
    ensures Handled(Leaves(old(k.refs)), old(k.envs[..])) && (forall i :: 0 <= i < done ==> !(ops[i].ForkOp? && ops[i].eager)) ==>
              Handled(Leaves(last.refs), last.envs)
    ensures out == Panicked && ops[done].ForkOp? ==> k.efree == [] || Scarce(k)
  {
    hide Agree, FreeList, Counts, Chain, Sharing, IdealStep, Installed, Handled, Ends, HasCow, Bereft, TableOk;
    ghost var w := World(Seen(k), k.efree);
    var installed := lib;
    done := 0;
    while done < |ops|
      invariant done <= |ops| && k.Valid() && Sharing(Leaves(k.refs)) && Installed(Leaves(k.refs), installed)
      invariant World(Seen(k), k.efree) == IdealRun(w, ops[..done])
      invariant Handled(Leaves(old(k.refs)), old(k.envs[..])) && (forall i :: 0 <= i < done ==> !(ops[i].ForkOp? && ops[i].eager)) ==>
                  Handled(Leaves(k.refs), k.envs[..])
    {
      last := Now(k);
      out, installed := Step(k, installed, ops[done], upcall);
      if out != Done {
        return;
      }
      assert ops[..done + 1][..done] == ops[..done];
      done := done + 1;
    }
    assert ops[..done] == ops;
    last, out := Now(k), Done;
  }

  /** At such a moment a store to a copy-on-write page is not what destroys an environment. */
  lemma HandledStore(m: Moment, e: nat, va: nat)
    requires |m.envs| == NENV && e < NENV && Handled(Leaves(m.refs), m.envs)
    requires LeafAt(e, va) in m.refs && CopyOnWrite(m.refs[LeafAt(e, va)])
    ensures StoreOutcome(m.refs, m.free, m.envs, e, va) != Destroyed
    ensures AllocError(m.refs, m.free, Some(e), PFTEMP, USER_RW) == Success ==>
              StoreOutcome(m.refs, m.free, m.envs, e, va) == Done
  {
    assert LeafAt(e, va) in Leaves(m.refs);
  }

  /** A helper for readers of Run: IdealStep never looks at the kind of a fork. */
  predicate SameOp(a: Op, b: Op) {
    a == b || (a.ForkOp? && b.ForkOp? && a.e == b.e)
  }

  lemma {:induction false} KindOfForkIrrelevant(w: World, ops: seq<Op>, ops': seq<Op>)
    requires |ops| == |ops'| && forall i :: 0 <= i < |ops| ==> SameOp(ops[i], ops'[i])
    ensures IdealRun(w, ops) == IdealRun(w, ops')
  {
    if ops != [] {
      KindOfForkIrrelevant(w, ops[..|ops| - 1], ops'[..|ops| - 1]);
    }
  }
}
