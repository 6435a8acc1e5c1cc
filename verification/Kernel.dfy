/** The kernel's memory state and the functions that change it: kern/pmap.c, the address-space half of
    kern/env.c, and the system calls of kern/syscall.c that map, unmap and transfer pages. */
module Kernels {
  import opened Options
  import opened Mmu
  import opened RefCount
  import opened PageInv
  import opened Envs

  function ZeroWords(): Words { seq(NPTENTRIES, _ => ZERO) }

  const IOPHYSMEM_PAGE := 0xA0
  const EXTPHYSMEM_PAGE := 0x100
  const MPENTRY_PAGE := 7

  /** incluir_en_paginas_libres: page 0, the IO hole with the kernel behind it, and the page that holds
      the start-up code of the other processors are never free. */
  predicate InPageFreeList(p: nat, kernEnd: nat) {
    p != 0 && !(IOPHYSMEM_PAGE <= p < kernEnd) && p != MPENTRY_PAGE
  }

  lemma FreeAtBoot(n: nat, kernEnd: nat)
    requires EXTPHYSMEM_PAGE < kernEnd <= n
    ensures forall p: nat :: p < n && InPageFreeList(p, kernEnd) <==>
              (1 <= p < 0xA_0000 / 4096 && p != 0x7000 / 4096) || kernEnd <= p < n
  {}

  // ---------------------------------------------------------------- what the operations do to the references

  /** The references after pgdir_walk(create): a missing page table is added in the first free page. */
  ghost function Walked(refs: Refs, free: seq<nat>, e: nat, va: nat): Refs {
    if Table(e, Pdx(va)) in refs || free == [] then refs
    else refs[Table(e, Pdx(va)) := Entry(free[0], TABLE_FLAGS)]
  }

  /** Directory entries leave access to the page table entries, and those are the users' to access. */
  predicate OpenEntry(r: Ref, x: Entry) { (r.Table? ==> UserBit(x) && Writable(x)) && (r.Leaf? ==> UserBit(x)) }

  ghost predicate Open(refs: Refs) {
    forall r {:trigger OpenEntry(r, refs[r])} :: r in refs ==> OpenEntry(r, refs[r])
  }

  ghost function LeafAt(e: nat, va: nat): Ref { Leaf(e, Pdx(va), Ptx(va)) }

  /** The references after a successful page_insert. */
  ghost function Inserted(refs: Refs, free: seq<nat>, e: nat, va: nat, x: Entry): Refs {
    Walked(refs, free, e, va)[LeafAt(e, va) := x]
  }

  /** Can page_insert find or allocate the page table it needs? */
  ghost predicate Insertable(refs: Refs, free: seq<nat>, e: nat, va: nat) {
    Table(e, Pdx(va)) in refs || free != []
  }

  lemma InsertedOpen(refs: Refs, free: seq<nat>, e: nat, va: nat, p: nat, perm: bv32)
    requires Open(refs)
    ensures Open(Inserted(refs, free, e, va, Entry(p, perm | PTE_P | PTE_U)))
  {
    var x, table := Entry(p, perm | PTE_P | PTE_U), Entry(if free == [] then 0 else free[0], TABLE_FLAGS);
    assert OpenEntry(LeafAt(e, va), x) && OpenEntry(Table(e, Pdx(va)), table);
    hide OpenEntry;
    var after := Inserted(refs, free, e, va, x);
    forall r | r in after ensures OpenEntry(r, after[r]) {
      if r in refs {
        assert OpenEntry(r, refs[r]);
      }
    }
  }

  /** Dropping references, and adding directories. */
  lemma KeptOpen(refs: Refs, refs': Refs)
    requires Open(refs) && forall r :: r in refs' && !r.Dir? ==> r in refs && refs'[r] == refs[r]
    ensures Open(refs')
  {
    forall r | r in refs' ensures OpenEntry(r, refs'[r]) {
      if !r.Dir? {
        assert OpenEntry(r, refs[r]);
      }
    }
  }

  lemma WalkedCount(refs: Refs, free: seq<nat>, e: nat, va: nat, p: nat)
    ensures Count(Walked(refs, free, e, va), p) ==
              Count(refs, p) + if Table(e, Pdx(va)) !in refs && free != [] && free[0] == p then 1 else 0
  {
    if Table(e, Pdx(va)) !in refs && free != [] {
      CountAdd(refs, Table(e, Pdx(va)), Entry(free[0], TABLE_FLAGS), p);
    }
  }

  lemma SwapLeaf(refs: Refs, leaf: Ref, held: Entry, x: Entry)
    requires Incoming !in refs && leaf != Incoming
    ensures leaf !in refs ==> refs[Incoming := held] - {leaf} == refs[Incoming := held]
    ensures ((refs[Incoming := held] - {leaf}) - {Incoming})[leaf := x] == refs[leaf := x]
  {}

  predicate BelongsTo(r: Ref, e: nat) {
    match r
    case Dir(f) => f == e
    case Table(f, _) => f == e
    case Leaf(f, _, _) => f == e
    case _ => false
  }

  /** The references after the whole address space of e is gone. */
  ghost function Without(refs: Refs, e: nat): Refs {
    map r | r in refs && !BelongsTo(r, e) :: refs[r]
  }

  /** What env_free has removed once it is done with directory entries below i and, in entry i, with
      page table entries below j. */
  predicate Gone(r: Ref, e: nat, i: nat, j: nat) {
    match r
    case Table(f, i') => f == e && i' < i
    case Leaf(f, i', j') => f == e && (i' < i || (i' == i && j' < j))
    case _ => false
  }

  ghost function Trimmed(refs: Refs, e: nat, i: nat, j: nat): Refs {
    map r | r in refs && !Gone(r, e, i, j) :: refs[r]
  }

  lemma TrimStart(refs: Refs, e: nat)
    ensures Trimmed(refs, e, 0, 0) == refs
  {}

  lemma TrimLeaf(refs: Refs, e: nat, i: nat, j: nat)
    ensures Trimmed(refs, e, i, j + 1) == Trimmed(refs, e, i, j) - {Leaf(e, i, j)}
  {}

  lemma TrimTable(refs: Refs, e: nat, i: nat)
    requires forall r :: r in refs ==> InRange(r)
    ensures Trimmed(refs, e, i + 1, 0) == Trimmed(refs, e, i, NPTENTRIES) - {Table(e, i)}
    ensures Table(e, i) !in refs && (forall j :: Leaf(e, i, j) !in refs) ==>
              Trimmed(refs, e, i + 1, 0) == Trimmed(refs, e, i, 0)
  {}

  lemma TrimEnd(refs: Refs, e: nat)
    requires forall r :: r in refs ==> InRange(r)
    ensures Trimmed(refs, e, USER_PDES, 0) - {Dir(e)} == Without(refs, e)
  {}

  ghost predicate TableOk(envs: seq<Env>, efree: seq<nat>, refs: Refs) {
    && |envs| == NENV
    && (forall e :: 0 <= e < NENV ==> (e in efree <==> envs[e].status == Free))
    && (forall e :: 0 <= e < NENV ==> (e in efree <==> Dir(e) !in refs))
    && (forall e :: 0 <= e < NENV ==> IdOk(envs[e].id, e))
    && (forall e :: 0 <= e < NENV && envs[e].status != Free ==> envs[e].id > 0)
  }

  lemma TablePop(envs: seq<Env>, efree: seq<nat>, refs: Refs, parent: int, x: Entry)
    requires TableOk(envs, efree, refs) && efree != [] && efree[0] < NENV && efree[0] !in efree[1..]
    ensures var e := efree[0];
            Dir(e) !in refs && TableOk(envs[e := Fresh(envs[e], e, parent)], efree[1..], refs[Dir(e) := x])
  {
    var e := efree[0];
    FreshId(envs[e].id, e);
    assert e in efree && forall f :: f in efree <==> f == e || f in efree[1..];
  }

  lemma TablePush(envs: seq<Env>, efree: seq<nat>, refs: Refs, e: nat)
    requires TableOk(envs, efree, refs) && e < NENV && envs[e].status != Free
    ensures Dir(e) in refs && e !in efree
    ensures TableOk(envs[e := envs[e].(status := Free)], [e] + efree, Without(refs, e))
  {
    assert forall f :: f in [e] + efree <==> f == e || f in efree;
    assert forall f :: f != e ==> (Dir(f) in Without(refs, e) <==> Dir(f) in refs);
  }

  /** Changing fields of an entry other than its id, and not to or from Free, keeps the table sound. */
  lemma TableUpdate(envs: seq<Env>, efree: seq<nat>, refs: Refs, e: nat, x: Env)
    requires TableOk(envs, efree, refs) && e < NENV && x.id == envs[e].id
    requires x.status == Free <==> envs[e].status == Free
    ensures TableOk(envs[e := x], efree, refs)
  {}

  lemma SameDirs(envs: seq<Env>, efree: seq<nat>, refs: Refs, refs': Refs)
    requires TableOk(envs, efree, refs) && forall e :: Dir(e) in refs <==> Dir(e) in refs'
    ensures TableOk(envs, efree, refs')
  {}

  lemma LiveSlot(envs: seq<Env>, efree: seq<nat>, refs: Refs, cur: nat, envid: int, checkperm: bool)
    requires TableOk(envs, efree, refs) && cur < NENV && envs[cur].status != Free
    requires Envid2Env(envs, cur, envid, checkperm).Some?
    ensures Dir(Envid2Env(envs, cur, envid, checkperm).value) in refs
  {}

  predicate BadPerm(perm: bv32) { (perm | PTE_P | PTE_U) & !PTE_SYSCALL != 0 }
  predicate BadVa(va: nat) { va >= UTOP || va % PGSIZE != 0 }

  ghost function AllocError(refs: Refs, free: seq<nat>, env: Option<nat>, va: nat, perm: bv32): Error {
    if BadPerm(perm) || BadVa(va) then Inval
    else if env == None then BadEnv
    else if free == [] || !Insertable(refs, free[1..], env.value, va) then NoMem
    else Success
  }

  ghost function MapError(refs: Refs, free: seq<nat>, src: Option<nat>, srcva: nat,
                          dst: Option<nat>, dstva: nat, perm: bv32): Error {
    if BadPerm(perm) || BadVa(srcva) || BadVa(dstva) then Inval
    else if src == None then BadEnv
    else if LeafAt(src.value, srcva) !in refs then Inval
    else if !Writable(refs[LeafAt(src.value, srcva)]) && perm & PTE_W != 0 then Inval
    else if dst == None then BadEnv
    else if !Insertable(refs, free, dst.value, dstva) then NoMem
    else Success
  }

  /** pp_ref has 16 bits: the page that page_map is about to map can be counted once more. */
  ghost predicate Countable(refs: Refs, free: seq<nat>, src: Option<nat>, srcva: nat,
                            dst: Option<nat>, dstva: nat, perm: bv32) {
    MapError(refs, free, src, srcva, dst, dstva, perm) == Success ==>
      Count(refs, refs[LeafAt(src.value, srcva)].ppn) < 0xFFFF
  }

  /** The same for the page, if any, that a message is about to carry. */
  ghost predicate SendCountable(refs: Refs, free: seq<nat>, envs: seq<Env>, me: nat, envid: int, srcva: nat, perm: bv32)
    requires |envs| == NENV && me < NENV
  {
    var to := Envid2Env(envs, me, envid, false);
    to.Some? && envs[to.value].recving && srcva < UTOP && envs[to.value].dstva < UTOP ==>
      Countable(refs, free, Some(me), srcva, to, envs[to.value].dstva, perm)
  }

  lemma InsertKeepsDirs(refs: Refs, free: seq<nat>, e: nat, va: nat, x: Entry)
    ensures forall f :: Dir(f) in refs <==> Dir(f) in Inserted(refs, free, e, va, x)
    ensures Incoming !in refs ==> Incoming !in Inserted(refs, free, e, va, x)
    ensures Outgoing !in refs ==> Outgoing !in Inserted(refs, free, e, va, x)
  {}

  lemma SlotWasFree(envs: seq<Env>, efree: seq<nat>, refs: Refs, e: nat)
    requires TableOk(envs, efree, refs) && e in efree && e < NENV
    ensures Dir(e) !in refs
  {}

  /** envid2env looks only at ids, parents and whether slots are free. */
  lemma SameEnvid(envs: seq<Env>, cur: nat, envid: int, t: nat, envs': seq<Env>)
    requires |envs| == NENV && cur < NENV && t < NENV && envs' == envs[t := envs[t].(perm := 0)]
    ensures Envid2Env(envs', cur, envid, false) == Envid2Env(envs, cur, envid, false)
    ensures Envid2Env(envs', cur, 0, true) == Some(cur)
  {}

  /** A live environment is found by its id: with the permission check from its own slot and from its parent's,
      without it from everywhere. */
  lemma LiveId(envs: seq<Env>, efree: seq<nat>, refs: Refs, e: nat)
    requires TableOk(envs, efree, refs) && e < NENV && envs[e].status != Free
    ensures forall cur :: 0 <= cur < NENV && (cur == e || envs[cur].id == envs[e].parent) ==>
              Envid2Env(envs, cur, envs[e].id, true) == Some(e)
    ensures forall cur :: 0 <= cur < NENV ==> Envid2Env(envs, cur, envs[e].id, false) == Some(e)
  {
    var n: nat :| n > 0 && envs[e].id == NthId(e, n);
    NthIdClosed(e, n);
  }

  /** The page table entry the hardware finds for va from the page directory in page d. */
  ghost function HardwareWalk(mem: seq<Words>, d: nat, va: nat): Option<Entry>
    requires Pdx(va) < NPDENTRIES
  {
    if d >= |mem| || !Present(mem[d][Pdx(va)]) || mem[d][Pdx(va)].ppn >= |mem| then None
    else Some(mem[mem[d][Pdx(va)].ppn][Ptx(va)])
  }

  /** Virtual page q is below ULIM and its entry has the present bit and all the bits of perm. */
  ghost predicate UserAccessible(mem: seq<Words>, d: nat, q: nat, perm: bv32) {
    && q * PGSIZE < ULIM
    && var pte := HardwareWalk(mem, d, q * PGSIZE);
       pte.Some? && pte.value.flags | perm | PTE_P == pte.value.flags
  }

  /** The page number of ROUNDUP(va + len, PGSIZE), in 32-bit arithmetic. */
  function EndPage(va: nat, len: nat): (q: nat)
    ensures q * PGSIZE < ADDR_LIMIT
  {
    ((va + len) % ADDR_LIMIT + PGSIZE - 1) % ADDR_LIMIT / PGSIZE
  }

  /** For a range that is not empty and does not wrap around, these are the pages of its addresses. */
  lemma PagesOfRange(va: nat, len: nat, q: nat)
    requires len > 0 && va + len <= ADDR_LIMIT - PGSIZE
    ensures va / PGSIZE <= q < EndPage(va, len) <==> exists a :: va <= a < va + len && a / PGSIZE == q
  {
    if va / PGSIZE <= q < EndPage(va, len) {
      var a := if q == va / PGSIZE then va else q * PGSIZE;
      assert a / PGSIZE == q && va <= a < va + len;
    }
  }

  /** So there user_mem_check accepts exactly if every address is accessible. */
  lemma AcceptedRange(mem: seq<Words>, d: nat, va: nat, len: nat, perm: bv32)
    requires len > 0 && va + len <= ADDR_LIMIT - PGSIZE
    ensures (forall q :: va / PGSIZE <= q < EndPage(va, len) ==> UserAccessible(mem, d, q, perm))
            <==> forall a :: va <= a < va + len ==> UserAccessible(mem, d, a / PGSIZE, perm)
  {
    hide UserAccessible, EndPage;
    forall a | va <= a < va + len ensures va / PGSIZE <= a / PGSIZE < EndPage(va, len) {
      PagesOfRange(va, len, a / PGSIZE);
    }
    if forall a :: va <= a < va + len ==> UserAccessible(mem, d, a / PGSIZE, perm) {
      forall q | va / PGSIZE <= q < EndPage(va, len) ensures UserAccessible(mem, d, q, perm) {
        PagesOfRange(va, len, q);
      }
    }
  }

  /** A range that reaches the last page or wraps around is never accessible throughout, yet user_mem_check looks
      at fewer pages than it has; at none, and so accepts it, if it ends in the last page. */
  lemma WrappedRange(mem: seq<Words>, d: nat, va: nat, len: nat, perm: bv32)
    requires va < ADDR_LIMIT && 0 < len < ADDR_LIMIT && va + len > ADDR_LIMIT - PGSIZE
    ensures EndPage(va, len) <= (va + len - 1) / PGSIZE
    ensures va + len <= ADDR_LIMIT ==> EndPage(va, len) == 0
    ensures !forall a :: va <= a < va + len ==> UserAccessible(mem, d, a / PGSIZE, perm)
  {
    assert !UserAccessible(mem, d, (va + len - 1) / PGSIZE, perm);
  }

  ghost function AllSlots(): seq<nat> { seq(NENV, (i: nat) => i) }

  lemma SlotsInOrder(link: seq<Option<nat>>)
    requires |link| == NENV && link[NENV - 1] == None
    requires forall k :: 0 <= k < NENV - 1 ==> link[k] == Some(k + 1)
    ensures Chain({}, Some(0), link, AllSlots())
  {}

  lemma BootTables(rsv: set<nat>, kpd: nat, mem: seq<Words>, dir: seq<Option<nat>>)
    requires |dir| == NENV && kpd in rsv && kpd < |mem| && forall e :: 0 <= e < NENV ==> dir[e] == None
    requires mem[kpd] == ZeroWords()[UVPT_PDX := Entry(kpd, PTE_U | PTE_P)]
    ensures Agree(rsv, kpd, mem, dir, map[])
  {}

  lemma BootEnvs(envs: seq<Env>)
    requires |envs| == NENV && forall e :: 0 <= e < NENV ==> envs[e].id == 0 && envs[e].status == Free
    ensures TableOk(envs, AllSlots(), map[])
  {
    forall e | 0 <= e < NENV ensures e in AllSlots() {
      assert AllSlots()[e] == e;
    }
  }

  lemma BootCounts(rsv: set<nat>, ref: seq<nat>, free: seq<nat>)
    requires forall p :: 0 <= p < |ref| ==> ref[p] == 0 && (p in free <==> p !in rsv)
    ensures Counts(rsv, ref, map[], free, {})
  {
    forall p ensures Count(map[], p) == 0 { CountZero(map[], p); }
  }

  class Kernel {
    const npages: nat
    const kernPgdir: nat
    ghost const reserved: set<nat>

    var pageFreeList: Option<nat>
    const ppLink: array<Option<nat>>
    const ppRef: array<nat>
    const mem: array<Words> // each physical page read as 1024 entries
    const data: array<Bytes> // each physical page read as bytes

    var envFreeList: Option<nat>
    const envLink: array<Option<nat>>
    const envPgdir: array<Option<nat>>
    const envs: array<Env>
    var curenv: Option<nat>

    ghost var free: seq<nat>
    ghost var loose: set<nat>
    ghost var refs: Refs
    ghost var efree: seq<nat>

    ghost predicate Layout() {
      && ppLink.Length == ppRef.Length == mem.Length == data.Length == npages
      && envLink.Length == envPgdir.Length == envs.Length == NENV
      && ppLink != envLink && ppLink != envPgdir && envLink != envPgdir
    }

    /** Reference counts are exact, page tables are sound and the free list is what it should be. */
    ghost predicate PagesOk()
      reads this, ppLink, ppRef, mem, envPgdir
    {
      && Layout()
      && FreeList(reserved, pageFreeList, ppLink[..], free)
      && Agree(reserved, kernPgdir, mem[..], envPgdir[..], refs)
      && Counts(reserved, ppRef[..], refs, free, loose)
    }

    // -------------------------------------------------------------- boot

    /** The state after page_init and env_init: pages is zeroed, kern_pgdir maps only itself at UVPT. */
    constructor (npages: nat, kernPgdir: nat, kernEnd: nat)
      requires EXTPHYSMEM_PAGE <= kernPgdir < kernEnd <= npages
      ensures Valid() && refs == map[] && curenv == None
      ensures forall p: nat :: p in free <==> p < npages && InPageFreeList(p, kernEnd)
      ensures forall p: nat :: p in free <==> (1 <= p < 0xA_0000 / 4096 && p != 0x7000 / 4096) || kernEnd <= p < npages
      ensures forall e :: 0 <= e < NENV ==> envs[e].status == Free
      ensures |efree| == NENV && forall e :: 0 <= e < NENV ==> efree[e] == e
      ensures fresh(ppLink) && fresh(ppRef) && fresh(mem) && fresh(data)
      ensures fresh(envLink) && fresh(envPgdir) && fresh(envs)
    {
      this.npages, this.kernPgdir := npages, kernPgdir;
      reserved := set p | 0 <= p < npages && !InPageFreeList(p, kernEnd);
      pageFreeList, envFreeList, curenv := None, None, None;
      ppLink := new Option<nat>[npages](_ => None);
      ppRef := new nat[npages](_ => 0);
      mem := new Words[npages](_ => ZeroWords());
      data := new Bytes[npages](_ => ZeroPage());
      envLink := new Option<nat>[NENV](_ => None);
      envPgdir := new Option<nat>[NENV](_ => None);
      envs := new Env[NENV](_ => Env(0, 0, Free, 0, false, 0, 0, 0, 0));
      free, loose, refs, efree := [], {}, map[], [];
      new;
      hide Agree, FreeList, Counts, Chain, TableOk, InPageFreeList, Open;
      FreeAtBoot(npages, kernEnd);
      Boot(kernEnd);
    }

    /** mem_init's use of the zeroed arrays, then env_init. */
    method Boot(kernEnd: nat)
      requires Layout() && EXTPHYSMEM_PAGE <= kernPgdir < kernEnd <= npages
      requires reserved == set p | 0 <= p < npages && !InPageFreeList(p, kernEnd)
      requires pageFreeList == None && curenv == None && free == [] && loose == {} && refs == map[]
      requires forall p :: 0 <= p < npages ==> ppLink[p] == None && ppRef[p] == 0 && mem[p] == ZeroWords()
      requires forall e :: 0 <= e < NENV ==> envPgdir[e] == None && envs[e].id == 0 && envs[e].status == Free
      modifies `pageFreeList, `free, `envFreeList, `efree, ppLink, mem, envLink
      ensures Valid() && efree == AllSlots()
      ensures forall p: nat :: p in free <==> p < npages && InPageFreeList(p, kernEnd)
    {
      hide Agree, FreeList, Counts, Chain;
      mem[kernPgdir] := mem[kernPgdir][UVPT_PDX := Entry(kernPgdir, PTE_U | PTE_P)];
      PageInit(kernEnd);
      EnvInit();
      BootTables(reserved, kernPgdir, mem[..], envPgdir[..]);
      BootCounts(reserved, ppRef[..], free);
      BootEnvs(envs[..]);
    }

    method PageInit(kernEnd: nat)
      requires Layout() && free == [] && pageFreeList == None && forall p :: 0 <= p < npages ==> ppLink[p] == None
      requires reserved == set p | 0 <= p < npages && !InPageFreeList(p, kernEnd)
      modifies `pageFreeList, `free, ppLink
      ensures FreeList(reserved, pageFreeList, ppLink[..], free)
      ensures forall p: nat :: p in free <==> p < npages && InPageFreeList(p, kernEnd)
    {
      var i := 1;
      while i < npages
        invariant 1 <= i && (npages == 0 || i <= npages)
        invariant FreeList(reserved, pageFreeList, ppLink[..], free)
        invariant forall p: nat :: p in free <==> 0 < p < i && p < npages && InPageFreeList(p, kernEnd)
      {
        if InPageFreeList(i, kernEnd) {
          PushFree(reserved, pageFreeList, ppLink[..], free, i);
          ghost var links, head, was := ppLink[..], pageFreeList, free;
          ppLink[i] := pageFreeList;
          assert ppLink[..] == links[i := head];
          pageFreeList := Some(i);
          free := [i] + free;
          assert forall p :: p in free <==> p == i || p in was;
        }
        i := i + 1;
      }
    }

    method EnvInit()
      requires Layout()
      modifies `envFreeList, `efree, envLink
      ensures Chain({}, envFreeList, envLink[..], efree)
      ensures efree == AllSlots()
    {
      envLink[NENV - 1] := None;
      var i := NENV - 1;
      while i > 0
        invariant 0 <= i < NENV && envLink[NENV - 1] == None
        invariant forall k :: i <= k < NENV - 1 ==> envLink[k] == Some(k + 1)
      {
        envLink[i - 1] := Some(i);
        i := i - 1;
      }
      envFreeList := Some(0);
      efree := AllSlots();
      SlotsInOrder(envLink[..]);
    }

    // -------------------------------------------------------------- physical pages

    /** page_alloc(0) or page_alloc(ALLOC_ZERO). */
    method PageAlloc(zero: bool) returns (pp: Option<nat>)
      requires PagesOk()
      modifies `pageFreeList, `free, `loose, ppLink, mem, data
      ensures PagesOk()
      ensures pp == At(old(free), 0)
      ensures pp == None ==> free == old(free) && loose == old(loose) && mem[..] == old(mem[..]) && data[..] == old(data[..])
      ensures pp.Some? ==>
                && Owned(npages, reserved, pp.value) && pp.value !in old(loose) && pp.value !in free
                && ppRef[pp.value] == 0 && (forall r :: r in refs ==> refs[r].ppn != pp.value)
                && free == old(free)[1..] && loose == old(loose) + {pp.value}
                && mem[..] == old(mem[..])[pp.value := mem[pp.value]]
                && data[..] == old(data[..])[pp.value := data[pp.value]]
                && (zero ==> mem[pp.value] == ZeroWords() && data[pp.value] == ZeroPage())
    {
      if pageFreeList == None {
        return None;
      }
      var page := pageFreeList.value;
      PopFree(reserved, pageFreeList, ppLink[..], free);
      PopCounts(reserved, ppRef[..], refs, free, loose);
      ghost var links, words := ppLink[..], mem[..];
      pageFreeList := ppLink[page];
      ppLink[page] := None;
      assert ppLink[..] == links[page := None];
      free, loose := free[1..], loose + {page};
      if zero {
        ScribbleUnreferenced(reserved, kernPgdir, words, envPgdir[..], refs, page, ZeroWords());
        mem[page], data[page] := ZeroWords(), ZeroPage();
        assert mem[..] == words[page := ZeroWords()];
      }
      return Some(page);
    }

    /** page_free: neither of its two panics can happen when the page is not on the free list. */
    method PageFree(pp: nat)
      requires PagesOk() && pp in loose
      modifies `pageFreeList, `free, `loose, ppLink
      ensures PagesOk()
      ensures free == [pp] + old(free) && loose == old(loose) - {pp}
    {
      PushCounts(reserved, ppRef[..], refs, free, loose, pp);
      PushFree(reserved, pageFreeList, ppLink[..], free, pp);
      assert ppRef[pp] == 0 && ppLink[pp] == None;
      ghost var links, head := ppLink[..], pageFreeList;
      ppLink[pp] := pageFreeList;
      assert ppLink[..] == links[pp := head];
      pageFreeList := Some(pp);
      free, loose := [pp] + free, loose - {pp};
    }

    /** page_decref, after the caller has cleared a reference to pp from memory. */
    method PageDecref(pp: nat)
      requires PagesOk() && Outgoing in refs && refs[Outgoing].ppn == pp
      modifies `pageFreeList, `free, `loose, `refs, ppLink, ppRef
      ensures PagesOk()
      ensures refs == old(refs) - {Outgoing} && loose == old(loose)
      ensures free == if Count(refs, pp) == 0 then [pp] + old(free) else old(free)
      ensures Owned(npages, reserved, pp) && ppRef[..] == old(ppRef[..])[pp := ppRef[pp]]
    {
      hide Agree, FreeList;
      TargetOwned(reserved, kernPgdir, mem[..], envPgdir[..], refs, Outgoing);
      DropCounts(reserved, ppRef[..], refs, free, loose, Outgoing);
      DropAgrees(reserved, kernPgdir, mem[..], envPgdir[..], refs);
      ghost var counts := ppRef[..];
      ppRef[pp] := ppRef[pp] - 1;
      assert ppRef[..] == counts[pp := counts[pp] - 1];
      refs := refs - {Outgoing};
      assert ppRef[pp] == Count(refs, pp);
      if ppRef[pp] == 0 {
        loose := loose + {pp};
        PageFree(pp);
      }
    }

    // -------------------------------------------------------------- two-level page tables

    ghost predicate IsPgdir(e: nat, pgdir: nat)
      reads this
    {
      e < NENV && Dir(e) in refs && refs[Dir(e)].ppn == pgdir
    }

    method GetPgdir(e: nat) returns (pgdir: nat)
      requires PagesOk() && e < NENV && Dir(e) in refs
      ensures IsPgdir(e, pgdir)
    {
      DirMeans(reserved, kernPgdir, mem[..], envPgdir[..], refs, e);
      pgdir := envPgdir[e].value;
    }

    /** pgdir_walk: where the page table entry for va is, as a page and an index into it. */
    method PgdirWalk(pgdir: nat, va: nat, create: bool, ghost e: nat) returns (pte: Option<(nat, nat)>)
      requires PagesOk() && IsPgdir(e, pgdir) && Pdx(va) < NPDENTRIES
      requires create ==> Pdx(va) < USER_PDES
      modifies `pageFreeList, `free, `loose, `refs, ppLink, ppRef, mem, data
      ensures PagesOk() && loose == old(loose)
      ensures !create ==> refs == old(refs) && free == old(free)
      ensures create ==> refs == Walked(old(refs), old(free), e, va)
      ensures create ==> free == if Table(e, Pdx(va)) in old(refs) || old(free) == [] then old(free) else old(free)[1..]
      ensures refs == old(refs) ==>
                ppRef[..] == old(ppRef[..]) && mem[..] == old(mem[..]) && data[..] == old(data[..])
      ensures forall p :: 0 <= p < npages && p !in old(free) ==> data[p] == old(data[p])
      ensures Pdx(va) < USER_PDES ==>
                pte == if Table(e, Pdx(va)) in refs then Some((refs[Table(e, Pdx(va))].ppn, Ptx(va))) else None
      ensures Pdx(va) >= USER_PDES ==>
                pgdir < npages && pte ==
                  if Present(mem[pgdir][Pdx(va)]) then Some((mem[pgdir][Pdx(va)].ppn, Ptx(va))) else None
      ensures pte.Some? ==> pte.value.0 < npages && pte.value.1 < NPTENTRIES
      ensures refs != old(refs) ==>
                pgdir < npages && var pde := mem[pgdir][Pdx(va)]; Present(pde) && UserBit(pde) && Writable(pde)
    {
      hide Agree, FreeList, Counts;
      ghost var i := Pdx(va);
      PdeMeans(reserved, kernPgdir, mem[..], envPgdir[..], refs, e, i);
      var entry := mem[pgdir][Pdx(va)];
      if !Present(entry) {
        if !create {
          return None;
        }
        var page := PageAlloc(true);
        if page == None {
          return None;
        }
        var p, x := page.value, Entry(page.value, PTE_P | PTE_W | PTE_U);
        TakeCounts(reserved, ppRef[..], refs, free, loose, Table(e, i), x);
        InstallTable(reserved, kernPgdir, mem[..], envPgdir[..], refs, e, i, x);
        ghost var words, counts := mem[..], ppRef[..];
        mem[pgdir] := mem[pgdir][Pdx(va) := x];
        ppRef[p] := ppRef[p] + 1;
        assert mem[..] == words[pgdir := words[pgdir][i := x]] && ppRef[..] == counts[p := counts[p] + 1];
        refs, loose := refs[Table(e, i) := x], loose - {p};
        return Some((p, Ptx(va)));
      }
      if i < USER_PDES {
        PteMeans(reserved, kernPgdir, mem[..], envPgdir[..], refs, e, i, 0);
      }
      return Some((entry.ppn, Ptx(va)));
    }

    /** page_lookup: the page mapped at va and where its entry is. */
    method PageLookup(pgdir: nat, va: nat, ghost e: nat) returns (found: Option<(nat, nat, nat)>)
      requires PagesOk() && IsPgdir(e, pgdir) && Pdx(va) < USER_PDES
      modifies `pageFreeList, `free, `loose, `refs, ppLink, ppRef, mem, data
      ensures PagesOk() && loose == old(loose) && refs == old(refs) && free == old(free)
      ensures ppRef[..] == old(ppRef[..]) && mem[..] == old(mem[..]) && data[..] == old(data[..])
      ensures found.Some? <==> LeafAt(e, va) in refs
      ensures found.Some? ==>
                && Table(e, Pdx(va)) in refs
                && found.value == (refs[LeafAt(e, va)].ppn, refs[Table(e, Pdx(va))].ppn, Ptx(va))
                && found.value.0 < npages && found.value.1 < npages
                && mem[found.value.1][found.value.2] == refs[LeafAt(e, va)]
    {
      hide Agree, FreeList, Counts;
      var pte := PgdirWalk(pgdir, va, false, e);
      PteMeans(reserved, kernPgdir, mem[..], envPgdir[..], refs, e, Pdx(va), Ptx(va));
      if pte == None || !Present(mem[pte.value.0][pte.value.1]) {
        return None;
      }
      var (page, index) := pte.value;
      TargetOwned(reserved, kernPgdir, mem[..], envPgdir[..], refs, LeafAt(e, va));
      return Some((mem[page][index].ppn, page, index));
    }

    /** page_remove: unmaps va, and frees the page exactly when that was its last reference. */
    method PageRemove(pgdir: nat, va: nat, ghost e: nat)
      requires PagesOk() && IsPgdir(e, pgdir) && Pdx(va) < USER_PDES && Outgoing !in refs
      modifies `pageFreeList, `free, `loose, `refs, ppLink, ppRef, mem, data
      ensures PagesOk() && loose == old(loose)
      ensures refs == old(refs) - {LeafAt(e, va)}
      ensures free ==
                if LeafAt(e, va) in old(refs) && Count(refs, old(refs)[LeafAt(e, va)].ppn) == 0
                then [old(refs)[LeafAt(e, va)].ppn] + old(free) else old(free)
      ensures data[..] == old(data[..])
      ensures LeafAt(e, va) in old(refs) ==>
                Table(e, Pdx(va)) in refs &&
                var t := refs[Table(e, Pdx(va))].ppn;
                t < npages && mem[..] == old(mem[..])[t := old(mem[..])[t][Ptx(va) := ZERO]]
    {
      hide Agree, FreeList, Counts;
      var found := PageLookup(pgdir, va, e);
      if found == None {
        assert refs - {LeafAt(e, va)} == refs;
        return;
      }
      var (page, table, index) := found.value;
      ghost var leaf, before := LeafAt(e, va), refs;
      ClearLeaf(reserved, kernPgdir, mem[..], envPgdir[..], refs, e, Pdx(va), Ptx(va));
      MoveCounts(reserved, ppRef[..], refs, free, loose, leaf, Outgoing, refs[leaf]);
      ghost var words := mem[..];
      mem[table] := mem[table][index := ZERO];
      assert mem[..] == words[table := words[table][index := ZERO]];
      refs := (refs - {leaf})[Outgoing := refs[leaf]];
      PageDecref(page);
      assert refs == before - {leaf};
    }

    /** pp_ref++ for a reference that the caller will store. */
    method CountedReference(pp: nat)
      requires PagesOk() && Incoming !in refs
      requires Owned(npages, reserved, pp) && pp !in free && Count(refs, pp) < 0xFFFF
      requires forall r :: r in refs && Structural(r) ==> refs[r].ppn != pp
      modifies `refs, `loose, ppRef
      ensures PagesOk()
      ensures refs == old(refs)[Incoming := Entry(pp, 0)] && loose == old(loose) - {pp}
    {
      hide Agree, FreeList, Counts;
      CountMeans(reserved, ppRef[..], refs, free, loose, pp);
      TakeCounts(reserved, ppRef[..], refs, free, loose, Incoming, Entry(pp, 0));
      HoldAgrees(reserved, kernPgdir, mem[..], envPgdir[..], refs, pp);
      ghost var counts := ppRef[..];
      ppRef[pp] := Incremented(ppRef[pp]);
      assert ppRef[..] == counts[pp := counts[pp] + 1];
      refs, loose := refs[Incoming := Entry(pp, 0)], loose - {pp};
    }

    /** Writing the entry for a page whose reference is already counted. */
    method StorePte(table: nat, index: nat, x: Entry, ghost e: nat, ghost va: nat)
      requires PagesOk() && e < NENV && Pdx(va) < USER_PDES && index == Ptx(va)
      requires Table(e, Pdx(va)) in refs && refs[Table(e, Pdx(va))].ppn == table && LeafAt(e, va) !in refs
      requires Incoming in refs && refs[Incoming].ppn == x.ppn && Present(x)
      modifies `refs, mem
      ensures PagesOk()
      ensures refs == (old(refs) - {Incoming})[LeafAt(e, va) := x]
    {
      hide Agree, FreeList, Counts;
      StoreLeaf(reserved, kernPgdir, mem[..], envPgdir[..], refs, e, Pdx(va), Ptx(va), x);
      MoveCounts(reserved, ppRef[..], refs, free, loose, Incoming, LeafAt(e, va), x);
      TargetOwned(reserved, kernPgdir, mem[..], envPgdir[..], refs, Table(e, Pdx(va)));
      ghost var words := mem[..];
      mem[table] := mem[table][index := x];
      assert mem[..] == words[table := words[table][index := x]];
      refs := (refs - {Incoming})[LeafAt(e, va) := x];
    }

    /** The part of page_insert after the walk: count the new reference, drop the old page, store the entry. */
    method ReplacePte(pgdir: nat, table: nat, index: nat, pp: nat, va: nat, perm: bv32, ghost e: nat)
      requires PagesOk() && IsPgdir(e, pgdir) && Pdx(va) < USER_PDES && index == Ptx(va)
      requires Table(e, Pdx(va)) in refs && refs[Table(e, Pdx(va))].ppn == table && table < npages
      requires Incoming !in refs && Outgoing !in refs
      requires Owned(npages, reserved, pp) && pp !in free && Count(refs, pp) < 0xFFFF
      requires forall r :: r in refs && Structural(r) ==> refs[r].ppn != pp
      modifies `pageFreeList, `free, `loose, `refs, ppLink, ppRef, mem, data
      ensures PagesOk()
      ensures refs == old(refs)[LeafAt(e, va) := Entry(pp, perm | PTE_P)] && loose == old(loose) - {pp}
      ensures data[..] == old(data[..])
    {
      hide Agree, FreeList, Counts;
      ghost var leaf := LeafAt(e, va);
      CountedReference(pp);
      PteMeans(reserved, kernPgdir, mem[..], envPgdir[..], refs, e, Pdx(va), Ptx(va));
      if Present(mem[table][index]) {
        PageRemove(pgdir, va, e);
      }
      SwapLeaf(old(refs), leaf, Entry(pp, 0), Entry(pp, perm | PTE_P));
      assert refs == old(refs)[Incoming := Entry(pp, 0)] - {leaf};
      StorePte(table, index, Entry(pp, perm | PTE_P), e, va);
    }

    /** page_insert: fails, changing nothing, exactly when a page table is needed and no page is free. */
    method PageInsert(pgdir: nat, pp: nat, va: nat, perm: bv32, ghost e: nat) returns (ok: bool)
      requires PagesOk() && IsPgdir(e, pgdir) && Pdx(va) < USER_PDES
      requires Incoming !in refs && Outgoing !in refs
      requires Owned(npages, reserved, pp) && pp !in free
      requires Insertable(refs, free, e, va) ==> Count(refs, pp) < 0xFFFF
      requires forall r :: r in refs && Structural(r) ==> refs[r].ppn != pp
      modifies `pageFreeList, `free, `loose, `refs, ppLink, ppRef, mem, data
      ensures PagesOk()
      ensures ok <==> Insertable(old(refs), old(free), e, va)
      ensures !ok ==> refs == old(refs) && free == old(free) && loose == old(loose)
                      && mem[..] == old(mem[..]) && ppRef[..] == old(ppRef[..]) && data[..] == old(data[..])
      ensures ok ==> refs == Inserted(old(refs), old(free), e, va, Entry(pp, perm | PTE_P)) && loose == old(loose) - {pp}
      ensures forall p :: 0 <= p < npages && p !in old(free) ==> data[p] == old(data[p])
    {
      hide Agree, FreeList, Counts;
      var pte := PgdirWalk(pgdir, va, true, e);
      if pte == None {
        return false;
      }
      var (table, index) := pte.value;
      WalkedCount(old(refs), old(free), e, va, pp);
      CountMeans(reserved, ppRef[..], refs, free, loose, pp);
      assert Structural(Table(e, Pdx(va)));
      ReplacePte(pgdir, table, index, pp, va, perm, e);
      return true;
    }

    // -------------------------------------------------------------- address spaces

    /** env_setup_vm: a new page directory with an empty user half; fails exactly when no page is free. */
    method EnvSetupVm(e: nat) returns (r: Error)
      requires PagesOk() && e < NENV && Dir(e) !in refs
      modifies `pageFreeList, `free, `loose, `refs, ppLink, ppRef, mem, data, envPgdir
      ensures PagesOk() && loose == old(loose)
      ensures r == if old(free) == [] then NoMem else Success
      ensures r == NoMem ==> refs == old(refs) && free == old(free) && data[..] == old(data[..])
      ensures r == Success ==>
                refs == old(refs)[Dir(e) := Entry(old(free)[0], 0)] && free == old(free)[1..]
      ensures forall p :: 0 <= p < npages && p !in old(free) ==> data[p] == old(data[p])
    {
      hide Agree, FreeList, Counts;
      var page := PageAlloc(true);
      if page == None {
        return NoMem;
      }
      var p := page.value;
      KernelPage(reserved, kernPgdir, mem[..], envPgdir[..], refs);
      ghost var words, counts, dirs := mem[..], ppRef[..], envPgdir[..];
      TakeCounts(reserved, counts, refs, free, loose, Dir(e), Entry(p, 0));
      InstallDir(reserved, kernPgdir, words, dirs, refs, e, p, words[kernPgdir][UVPT_PDX := Entry(p, PTE_P | PTE_U)]);
      envPgdir[e] := Some(p);
      ppRef[p] := ppRef[p] + 1;
      mem[p] := mem[kernPgdir];
      mem[p] := mem[p][UVPT_PDX := Entry(p, PTE_P | PTE_U)];
      assert mem[..] == words[p := words[kernPgdir][UVPT_PDX := Entry(p, PTE_P | PTE_U)]];
      assert ppRef[..] == counts[p := counts[p] + 1] && envPgdir[..] == dirs[e := Some(p)];
      refs, loose := refs[Dir(e) := Entry(p, 0)], loose - {p};
      return Success;
    }

    /** The inner loop of env_free: unmaps everything in one page table. */
    method UnmapTable(pgdir: nat, pt: nat, pdeno: nat, ghost e: nat, ghost all: Refs)
      requires PagesOk() && IsPgdir(e, pgdir) && pdeno < USER_PDES && Outgoing !in refs
      requires refs == Trimmed(all, e, pdeno, 0)
      requires Table(e, pdeno) in refs && refs[Table(e, pdeno)].ppn == pt && pt < npages
      modifies `pageFreeList, `free, `loose, `refs, ppLink, ppRef, mem, data
      ensures PagesOk() && loose == old(loose) && data[..] == old(data[..])
      ensures refs == Trimmed(all, e, pdeno, NPTENTRIES)
    {
      hide Agree, FreeList, Counts;
      var pteno := 0;
      while pteno < NPTENTRIES
        invariant pteno <= NPTENTRIES
        invariant PagesOk() && loose == old(loose) && data[..] == old(data[..])
        invariant refs == Trimmed(all, e, pdeno, pteno)
      {
        PteMeans(reserved, kernPgdir, mem[..], envPgdir[..], refs, e, pdeno, pteno);
        TrimLeaf(all, e, pdeno, pteno);
        if Present(mem[pt][pteno]) {
          PgAddrInverse(pdeno, pteno);
          PageRemove(pgdir, PgAddr(pdeno, pteno), e);
        }
        pteno := pteno + 1;
      }
    }

    /** One round of env_free's outer loop, for a directory entry that is present. */
    method FreeTable(pgdir: nat, pdeno: nat, ghost e: nat, ghost all: Refs)
      requires PagesOk() && IsPgdir(e, pgdir) && pdeno < USER_PDES && Outgoing !in refs
      requires forall r :: r in all ==> InRange(r)
      requires refs == Trimmed(all, e, pdeno, 0) && Table(e, pdeno) in refs
      modifies `pageFreeList, `free, `loose, `refs, ppLink, ppRef, mem, data
      ensures PagesOk() && loose == old(loose) && data[..] == old(data[..])
      ensures refs == Trimmed(all, e, pdeno + 1, 0)
    {
      hide Agree, FreeList, Counts;
      PdeMeans(reserved, kernPgdir, mem[..], envPgdir[..], refs, e, pdeno);
      TargetOwned(reserved, kernPgdir, mem[..], envPgdir[..], refs, Table(e, pdeno));
      var pt := mem[pgdir][pdeno].ppn;
      UnmapTable(pgdir, pt, pdeno, e, all);
      ghost var table := Table(e, pdeno);
      TrimTable(all, e, pdeno);
      ClearTable(reserved, kernPgdir, mem[..], envPgdir[..], refs, e, pdeno);
      MoveCounts(reserved, ppRef[..], refs, free, loose, table, Outgoing, refs[table]);
      ghost var words, before := mem[..], refs;
      mem[pgdir] := mem[pgdir][pdeno := ZERO];
      assert mem[..] == words[pgdir := words[pgdir][pdeno := ZERO]];
      refs := (refs - {table})[Outgoing := refs[table]];
      PageDecref(pt);
      assert refs == before - {table};
    }

    /** env_free's work on memory: drops every reference the address space of e holds, and no other. */
    method FreeSpace(e: nat)
      requires PagesOk() && e < NENV && Dir(e) in refs && Outgoing !in refs
      modifies `pageFreeList, `free, `loose, `refs, ppLink, ppRef, mem, data, envPgdir
      ensures PagesOk() && loose == old(loose) && data[..] == old(data[..])
      ensures refs == Without(old(refs), e)
    {
      hide Agree, FreeList, Counts;
      ghost var all := refs;
      AllInRange(reserved, kernPgdir, mem[..], envPgdir[..], refs);
      DirMeans(reserved, kernPgdir, mem[..], envPgdir[..], refs, e);
      TrimStart(all, e);
      var pgdir := envPgdir[e].value;
      var pdeno := 0;
      while pdeno < USER_PDES
        invariant pdeno <= USER_PDES
        invariant PagesOk() && loose == old(loose) && data[..] == old(data[..])
        invariant refs == Trimmed(all, e, pdeno, 0)
      {
        PdeMeans(reserved, kernPgdir, mem[..], envPgdir[..], refs, e, pdeno);
        if Present(mem[pgdir][pdeno]) {
          FreeTable(pgdir, pdeno, e, all);
        } else {
          NoTableNoLeaf(reserved, kernPgdir, mem[..], envPgdir[..], refs, e, pdeno);
          TrimTable(all, e, pdeno);
        }
        pdeno := pdeno + 1;
      }
      TrimEnd(all, e);
      ClearDir(reserved, kernPgdir, mem[..], envPgdir[..], refs, e);
      MoveCounts(reserved, ppRef[..], refs, free, loose, Dir(e), Outgoing, refs[Dir(e)]);
      ghost var dirs, before := envPgdir[..], refs;
      envPgdir[e] := None;
      assert envPgdir[..] == dirs[e := None];
      refs := (refs - {Dir(e)})[Outgoing := refs[Dir(e)]];
      PageDecref(pgdir);
      assert refs == before - {Dir(e)};
    }

    // -------------------------------------------------------------- environments

    /** The environment table: its free list holds exactly the Free slots, a slot has a page directory
        exactly when it is not Free, and ids are 0 or carry their slot number. */
    ghost predicate EnvsOk()
      reads this, envLink, envs
    {
      && Layout()
      && Chain({}, envFreeList, envLink[..], efree)
      && TableOk(envs[..], efree, refs)
      && (curenv.Some? ==> curenv.value < NENV)
    }

    /** There is a current environment, and it exists. */
    ghost predicate HasCurrent()
      reads this, ppLink, ppRef, mem, envPgdir, envLink, envs
    {
      Valid() && curenv.Some? && envs[curenv.value].status != Free
    }

    /** The invariant between system calls. */
    ghost predicate Valid()
      reads this, ppLink, ppRef, mem, envPgdir, envLink, envs
    {
      && PagesOk() && EnvsOk()
      && loose == {} && Incoming !in refs && Outgoing !in refs && Open(refs)
    }

    /** env_alloc: E_NO_FREE_ENV before E_NO_MEM, and nothing changes on either. */
    method EnvAlloc(parent: int) returns (r: Error, e: nat)
      requires Valid()
      modifies `pageFreeList, `free, `loose, `refs, `envFreeList, `efree, ppLink, ppRef, mem, data, envPgdir, envs
      ensures Valid()
      ensures r == if old(efree) == [] then NoFreeEnv else if old(free) == [] then NoMem else Success
      ensures r != Success ==>
                refs == old(refs) && free == old(free) && efree == old(efree) && envs[..] == old(envs[..])
      ensures r == Success ==>
                && e == old(efree[0]) && e < NENV && efree == old(efree)[1..]
                && envs[..] == old(envs[..])[e := Fresh(old(envs[..])[e], e, parent)]
                && envs[e].status == Runnable && envs[e].parent == parent && envs[e].upcall == 0 && !envs[e].recving
                && refs == old(refs)[Dir(e) := Entry(old(free)[0], 0)]
      ensures forall p :: 0 <= p < npages && p !in old(free) ==> data[p] == old(data[p])
    {
      hide Agree, FreeList, Counts, Chain, Open;
      e := 0;
      ChainHead({}, envFreeList, envLink[..], efree);
      if envFreeList == None {
        return NoFreeEnv, e;
      }
      PopChain({}, envFreeList, envLink[..], efree, envLink[envFreeList.value]);
      TablePop(envs[..], efree, refs, parent, Entry(if free == [] then 0 else free[0], 0));
      e := envFreeList.value;
      r := EnvSetupVm(e);
      if r != Success {
        return;
      }
      KeptOpen(old(refs), refs);
      ghost var table := envs[..];
      envs[e] := Fresh(envs[e], e, parent);
      assert envs[..] == table[e := Fresh(table[e], e, parent)];
      assert envLink[..][e := envLink[e]] == envLink[..];
      envFreeList := envLink[e];
      efree := efree[1..];
    }

    /** env_free: the environment's references are gone, every page it alone referenced is free, and the
        slot is back on the list. */
    method EnvFree(e: nat)
      requires Valid() && e < NENV && envs[e].status != Free
      modifies `pageFreeList, `free, `loose, `refs, `envFreeList, `efree, ppLink, ppRef, mem, data, envPgdir, envLink, envs
      ensures Valid()
      ensures refs == Without(old(refs), e) && efree == [e] + old(efree)
      ensures envs[..] == old(envs[..])[e := old(envs[e]).(status := Free)]
      ensures data[..] == old(data[..])
    {
      hide Agree, FreeList, Counts, Chain;
      TablePush(envs[..], efree, refs, e);
      KeptOpen(refs, Without(refs, e));
      hide Open;
      FreeSpace(e);
      ghost var table, links, head := envs[..], envLink[..], envFreeList;
      PushChain({}, head, links, efree, e);
      envs[e] := envs[e].(status := Free);
      assert envs[..] == table[e := table[e].(status := Free)];
      envLink[e] := envFreeList;
      assert envLink[..] == links[e := head];
      envFreeList := Some(e);
      efree := [e] + efree;
    }

    // -------------------------------------------------------------- system calls

    /** sys_page_alloc once its arguments are checked; a page that cannot be mapped is freed again. */
    method AllocAndMap(e: nat, va: nat, perm: bv32) returns (ok: bool)
      requires PagesOk() && loose == {} && Incoming !in refs && Outgoing !in refs
      requires e < NENV && Dir(e) in refs && Pdx(va) < USER_PDES
      modifies `pageFreeList, `free, `loose, `refs, ppLink, ppRef, mem, data
      ensures PagesOk() && loose == {}
      ensures ok <==> old(free) != [] && Insertable(old(refs), old(free)[1..], e, va)
      ensures !ok ==> refs == old(refs) && free == old(free)
      ensures ok ==>
                && refs == Inserted(old(refs), old(free)[1..], e, va, Entry(old(free)[0], perm | PTE_P))
                && Owned(npages, reserved, old(free)[0]) && data[old(free)[0]] == ZeroPage()
      ensures forall p :: 0 <= p < npages && p !in old(free) ==> data[p] == old(data[p])
    {
      hide Agree, FreeList, Counts, Inserted, Insertable;
      var page := PageAlloc(true);
      if page == None {
        return false;
      }
      CountZero(refs, page.value);
      var pgdir := GetPgdir(e);
      ok := PageInsert(pgdir, page.value, va, perm, e);
      if !ok {
        PageFree(page.value);
      }
    }

    /** sys_page_alloc: maps a fresh zeroed page, or fails with the first applicable error and no effect. */
    method SysPageAlloc(envid: int, va: nat, perm: bv32) returns (r: Error)
      requires HasCurrent()
      modifies `pageFreeList, `free, `loose, `refs, ppLink, ppRef, mem, data
      ensures Valid()
      ensures r == AllocError(old(refs), old(free), Envid2Env(envs[..], curenv.value, envid, true), va, perm)
      ensures r != Success ==> refs == old(refs) && free == old(free)
      ensures r == Success ==>
                var t := Envid2Env(envs[..], curenv.value, envid, true).value;
                && refs == Inserted(old(refs), old(free)[1..], t, va, Entry(old(free)[0], perm | PTE_P | PTE_U))
                && Owned(npages, reserved, old(free)[0]) && data[old(free)[0]] == ZeroPage()
      ensures forall p :: 0 <= p < npages && p !in old(free) ==> data[p] == old(data[p])
    {
      hide Agree, FreeList, Counts, Chain, TableOk, Insertable, Open;
      if BadPerm(perm) || BadVa(va) {
        return Inval;
      }
      var env := Envid2Env(envs[..], curenv.value, envid, true);
      if env == None {
        return BadEnv;
      }
      LiveSlot(envs[..], efree, refs, curenv.value, envid, true);
      AlignedAddr(va);
      var ok := AllocAndMap(env.value, va, perm | PTE_P | PTE_U);
      if !ok {
        return NoMem;
      }
      SameDirs(envs[..], efree, old(refs), refs);
      assert perm | PTE_P | PTE_U | PTE_P == perm | PTE_P | PTE_U;
      InsertedOpen(old(refs), old(free)[1..], env.value, va, old(free)[0], perm);
      return Success;
    }

    /** page_map once its arguments are checked: maps the page found at srcva in srcenv. */
    method MapFound(src: nat, srcva: nat, dst: nat, dstva: nat, perm: bv32) returns (ok: bool)
      requires PagesOk() && loose == {} && Incoming !in refs && Outgoing !in refs
      requires src < NENV && dst < NENV && Dir(src) in refs && Dir(dst) in refs
      requires Pdx(srcva) < USER_PDES && Pdx(dstva) < USER_PDES
      requires LeafAt(src, srcva) in refs
      requires Insertable(refs, free, dst, dstva) ==> Count(refs, refs[LeafAt(src, srcva)].ppn) < 0xFFFF
      modifies `pageFreeList, `free, `loose, `refs, ppLink, ppRef, mem, data
      ensures PagesOk() && loose == {}
      ensures ok <==> Insertable(old(refs), old(free), dst, dstva)
      ensures !ok ==> refs == old(refs) && free == old(free)
      ensures ok ==> refs == Inserted(old(refs), old(free), dst, dstva,
                                      Entry(old(refs)[LeafAt(src, srcva)].ppn, perm | PTE_P))
      ensures forall p :: 0 <= p < npages && p !in old(free) ==> data[p] == old(data[p])
    {
      hide Agree, FreeList, Counts, Inserted, Insertable;
      var srcdir := GetPgdir(src);
      var found := PageLookup(srcdir, srcva, src);
      MappedPage(reserved, kernPgdir, mem[..], envPgdir[..], refs, LeafAt(src, srcva));
      var page := found.value.0;
      CountMeans(reserved, ppRef[..], refs, free, loose, page);
      var dstdir := GetPgdir(dst);
      ok := PageInsert(dstdir, page, dstva, perm, dst);
    }

    /** The same with the permissions page_map adds. */
    method MapForUser(src: nat, srcva: nat, dst: nat, dstva: nat, perm: bv32) returns (ok: bool)
      requires Valid() && src < NENV && dst < NENV && Dir(src) in refs && Dir(dst) in refs
      requires Pdx(srcva) < USER_PDES && Pdx(dstva) < USER_PDES
      requires LeafAt(src, srcva) in refs
      requires Insertable(refs, free, dst, dstva) ==> Count(refs, refs[LeafAt(src, srcva)].ppn) < 0xFFFF
      modifies `pageFreeList, `free, `loose, `refs, ppLink, ppRef, mem, data
      ensures Valid()
      ensures ok <==> Insertable(old(refs), old(free), dst, dstva)
      ensures !ok ==> refs == old(refs) && free == old(free)
      ensures ok ==> refs == Inserted(old(refs), old(free), dst, dstva,
                                      Entry(old(refs)[LeafAt(src, srcva)].ppn, perm | PTE_P | PTE_U))
      ensures forall p :: 0 <= p < npages && p !in old(free) ==> data[p] == old(data[p])
    {
      hide Agree, FreeList, Counts, Chain, TableOk, Insertable, Inserted, Count, LeafAt, Open;
      ok := MapFound(src, srcva, dst, dstva, perm | PTE_P | PTE_U);
      assert perm | PTE_P | PTE_U | PTE_P == perm | PTE_P | PTE_U;
      if ok {
        InsertedOpen(old(refs), old(free), dst, dstva, old(refs)[LeafAt(src, srcva)].ppn, perm);
        InsertKeepsDirs(old(refs), old(free), dst, dstva, Entry(old(refs)[LeafAt(src, srcva)].ppn, perm | PTE_P | PTE_U));
        SameDirs(envs[..], efree, old(refs), refs);
      }
    }

    /** page_map: every check in the order the code makes it, then the mapping. */
    method PageMap(srcenvid: int, srcva: nat, dstenvid: int, dstva: nat, perm: bv32, checkperm: bool) returns (r: Error)
      requires HasCurrent()
      requires Countable(refs, free, Envid2Env(envs[..], curenv.value, srcenvid, true), srcva,
                         Envid2Env(envs[..], curenv.value, dstenvid, checkperm), dstva, perm)
      modifies `pageFreeList, `free, `loose, `refs, ppLink, ppRef, mem, data
      ensures Valid()
      ensures r == MapError(old(refs), old(free), Envid2Env(envs[..], curenv.value, srcenvid, true), srcva,
                            Envid2Env(envs[..], curenv.value, dstenvid, checkperm), dstva, perm)
      ensures r != Success ==> refs == old(refs) && free == old(free)
      ensures r == Success ==>
                var src := Envid2Env(envs[..], curenv.value, srcenvid, true).value;
                var dst := Envid2Env(envs[..], curenv.value, dstenvid, checkperm).value;
                refs == Inserted(old(refs), old(free), dst, dstva,
                                 Entry(old(refs)[LeafAt(src, srcva)].ppn, perm | PTE_P | PTE_U))
      ensures forall p :: 0 <= p < npages && p !in old(free) ==> data[p] == old(data[p])
    {
      hide Agree, FreeList, Counts, Chain, TableOk, Insertable, Inserted, Count;
      if BadPerm(perm) || BadVa(srcva) || BadVa(dstva) {
        return Inval;
      }
      var srcenv := Envid2Env(envs[..], curenv.value, srcenvid, true);
      if srcenv == None {
        return BadEnv;
      }
      LiveSlot(envs[..], efree, refs, curenv.value, srcenvid, true);
      AlignedAddr(srcva);
      AlignedAddr(dstva);
      var srcdir := GetPgdir(srcenv.value);
      var found := PageLookup(srcdir, srcva, srcenv.value);
      if found == None {
        return Inval;
      }
      if !Writable(mem[found.value.1][found.value.2]) && perm & PTE_W != 0 {
        return Inval;
      }
      var dstenv := Envid2Env(envs[..], curenv.value, dstenvid, checkperm);
      if dstenv == None {
        return BadEnv;
      }
      LiveSlot(envs[..], efree, refs, curenv.value, dstenvid, checkperm);
      var ok := MapForUser(srcenv.value, srcva, dstenv.value, dstva, perm);
      return if ok then Success else NoMem;
    }

    method SysPageMap(srcenvid: int, srcva: nat, dstenvid: int, dstva: nat, perm: bv32) returns (r: Error)
      requires HasCurrent()
      requires Countable(refs, free, Envid2Env(envs[..], curenv.value, srcenvid, true), srcva,
                         Envid2Env(envs[..], curenv.value, dstenvid, true), dstva, perm)
      modifies `pageFreeList, `free, `loose, `refs, ppLink, ppRef, mem, data
      ensures Valid()
      ensures r == MapError(old(refs), old(free), Envid2Env(envs[..], curenv.value, srcenvid, true), srcva,
                            Envid2Env(envs[..], curenv.value, dstenvid, true), dstva, perm)
      ensures r != Success ==> refs == old(refs) && free == old(free)
      ensures r == Success ==>
                var src := Envid2Env(envs[..], curenv.value, srcenvid, true).value;
                var dst := Envid2Env(envs[..], curenv.value, dstenvid, true).value;
                refs == Inserted(old(refs), old(free), dst, dstva,
                                 Entry(old(refs)[LeafAt(src, srcva)].ppn, perm | PTE_P | PTE_U))
      ensures forall p :: 0 <= p < npages && p !in old(free) ==> data[p] == old(data[p])
    {
      r := PageMap(srcenvid, srcva, dstenvid, dstva, perm, true);
    }

    /** sys_page_unmap. */
    method SysPageUnmap(envid: int, va: nat) returns (r: Error)
      requires HasCurrent()
      modifies `pageFreeList, `free, `loose, `refs, ppLink, ppRef, mem, data
      ensures Valid()
      ensures r == if BadVa(va) then Inval
                   else if Envid2Env(envs[..], curenv.value, envid, true) == None then BadEnv else Success
      ensures refs == if r != Success then old(refs)
                      else old(refs) - {LeafAt(Envid2Env(envs[..], curenv.value, envid, true).value, va)}
      ensures data[..] == old(data[..])
    {
      hide Agree, FreeList, Counts, Chain, TableOk, Open;
      if BadVa(va) {
        return Inval;
      }
      var env := Envid2Env(envs[..], curenv.value, envid, true);
      if env == None {
        return BadEnv;
      }
      LiveSlot(envs[..], efree, refs, curenv.value, envid, true);
      AlignedAddr(va);
      var pgdir := GetPgdir(env.value);
      PageRemove(pgdir, va, env.value);
      SameDirs(envs[..], efree, old(refs), refs);
      KeptOpen(old(refs), refs);
      return Success;
    }

    /** Assigning an environment's fields other than its id. */
    method SetEnv(e: nat, x: Env)
      requires Valid() && e < NENV && x.id == envs[e].id && (x.status == Free <==> envs[e].status == Free)
      modifies envs
      ensures Valid() && envs[..] == old(envs[..])[e := x]
    {
      hide Agree, FreeList, Counts, Chain, TableOk;
      TableUpdate(envs[..], efree, refs, e, x);
      ghost var table := envs[..];
      envs[e] := x;
      assert envs[..] == table[e := x];
    }

    /** sys_ipc_try_send: the page transfer, if both sides want one, comes before the message, and its
        failure leaves the receiver waiting with only env_ipc_perm cleared. */
    method SysIpcTrySend(envid: int, value: nat, srcva: nat, perm: bv32) returns (r: Error)
      requires HasCurrent() && SendCountable(refs, free, envs[..], curenv.value, envid, srcva, perm)
      modifies `pageFreeList, `free, `loose, `refs, ppLink, ppRef, mem, data, envs
      ensures Valid()
      ensures var me := curenv.value;
              var to := Envid2Env(old(envs[..]), me, envid, false);
              if to == None then r == BadEnv && refs == old(refs) && envs[..] == old(envs[..])
              else if !old(envs[..])[to.value].recving then r == IpcNotRecv && refs == old(refs) && envs[..] == old(envs[..])
              else
                var t := old(envs[..])[to.value];
                var wants := srcva < UTOP && t.dstva < UTOP;
                && (r == if wants then MapError(old(refs), old(free), Some(me), srcva, to, t.dstva, perm) else Success)
                && (refs == if wants && r == Success then
                              Inserted(old(refs), old(free), to.value, t.dstva,
                                       Entry(old(refs)[LeafAt(me, srcva)].ppn, perm | PTE_P | PTE_U))
                            else old(refs))
                && envs[..] == old(envs[..])[to.value :=
                     if r == Success then Delivered(t, old(envs[..])[me].id, value, if wants then perm else 0)
                     else t.(perm := 0)]
      ensures forall p :: 0 <= p < npages && p !in old(free) ==> data[p] == old(data[p])
    {
      hide Agree, FreeList, Counts, Chain, TableOk, Insertable, Inserted, Countable, MapError, LeafAt, Count;
      var to := Envid2Env(envs[..], curenv.value, envid, false);
      if to == None {
        return BadEnv;
      }
      var t := to.value;
      if !envs[t].recving {
        return IpcNotRecv;
      }
      SetEnv(t, envs[t].(perm := 0));
      if srcva < UTOP && envs[t].dstva < UTOP {
        SameEnvid(old(envs[..]), curenv.value, envid, t, envs[..]);
        r := PageMap(0, srcva, envid, envs[t].dstva, perm, false);
        if r != Success {
          return;
        }
        SetEnv(t, envs[t].(perm := perm));
      }
      SetEnv(t, Delivered(envs[t], envs[curenv.value].id, value, envs[t].perm));
      return Success;
    }

    /** sys_ipc_recv. */
    method SysIpcRecv(dstva: nat) returns (r: Error)
      requires HasCurrent()
      modifies envs
      ensures Valid()
      ensures r == if dstva < UTOP && dstva % PGSIZE != 0 then Inval else Success
      ensures envs[..] == if r != Success then old(envs[..])
                          else old(envs[..])[curenv.value := Receiving(old(envs[..])[curenv.value], dstva)]
    {
      hide Agree, FreeList, Counts, Chain, TableOk;
      var e := curenv.value;
      if dstva < UTOP {
        if dstva % PGSIZE != 0 {
          return Inval;
        }
        SetEnv(e, envs[e].(dstva := dstva));
      }
      SetEnv(e, envs[e].(recving := true, status := NotRunnable));
      return Success;
    }

    /** sys_exofork: a child of the current environment, not runnable, with an empty address space. */
    method SysExofork() returns (r: Error, child: nat)
      requires HasCurrent()
      modifies `pageFreeList, `free, `loose, `refs, `envFreeList, `efree, ppLink, ppRef, mem, data, envPgdir, envs
      ensures Valid()
      ensures r == if old(efree) == [] then NoFreeEnv else if old(free) == [] then NoMem else Success
      ensures r != Success ==> refs == old(refs) && free == old(free) && efree == old(efree) && envs[..] == old(envs[..])
      ensures r == Success ==>
                && child == old(efree[0]) && efree == old(efree)[1..] && child < NENV && child != curenv.value
                && Dir(child) !in old(refs)
                && refs == old(refs)[Dir(child) := Entry(old(free)[0], 0)]
                && envs[..] == old(envs[..])[child :=
                     Fresh(old(envs[..])[child], child, old(envs[..])[curenv.value].id).(status := NotRunnable)]
                && Envid2Env(envs[..], curenv.value, envs[child].id, true) == Some(child)
      ensures forall p :: 0 <= p < npages && p !in old(free) ==> data[p] == old(data[p])
    {
      hide Agree, FreeList, Counts, Chain;
      var me := curenv.value;
      r, child := EnvAlloc(envs[me].id);
      if r == Success {
        assert child in old(efree);
        SlotWasFree(old(envs[..]), old(efree), old(refs), child);
        SetEnv(child, envs[child].(status := NotRunnable));
        LiveId(envs[..], efree, refs, child);
      }
    }

    /** sys_env_set_status. */
    method SysEnvSetStatus(envid: int, status: Status) returns (r: Error)
      requires HasCurrent()
      modifies envs
      ensures Valid()
      ensures r == if status != Runnable && status != NotRunnable then Inval
                   else if Envid2Env(old(envs[..]), curenv.value, envid, true) == None then BadEnv else Success
      ensures envs[..] == if r != Success then old(envs[..])
                          else var e := Envid2Env(old(envs[..]), curenv.value, envid, true).value;
                               old(envs[..])[e := old(envs[..])[e].(status := status)]
    {
      hide Agree, FreeList, Counts, Chain;
      if status != Runnable && status != NotRunnable {
        return Inval;
      }
      var env := Envid2Env(envs[..], curenv.value, envid, true);
      if env == None {
        return BadEnv;
      }
      SetEnv(env.value, envs[env.value].(status := status));
      return Success;
    }

    /** sys_env_set_pgfault_upcall: no permission check beyond the id being live. */
    method SysEnvSetPgfaultUpcall(envid: int, func: nat) returns (r: Error)
      requires HasCurrent()
      modifies envs
      ensures Valid()
      ensures r == if Envid2Env(old(envs[..]), curenv.value, envid, false) == None then BadEnv else Success
      ensures envs[..] == if r != Success then old(envs[..])
                          else var e := Envid2Env(old(envs[..]), curenv.value, envid, false).value;
                               old(envs[..])[e := old(envs[..])[e].(upcall := func)]
    {
      hide Agree, FreeList, Counts, Chain;
      var env := Envid2Env(envs[..], curenv.value, envid, false);
      if env == None {
        return BadEnv;
      }
      SetEnv(env.value, envs[env.value].(upcall := func));
      return Success;
    }

    // -------------------------------------------------------------- checking user pointers

    /** user_mem_check: accepts exactly if all pages from the first to the computed end are accessible, and
        otherwise reports the least inaccessible address of them, or va if that is on its page. */
    method UserMemCheck(e: nat, va: nat, len: nat, perm: bv32) returns (r: Error, badAddr: nat)
      requires PagesOk() && e < NENV && Dir(e) in refs && va < ADDR_LIMIT && len < ADDR_LIMIT
      modifies `pageFreeList, `free, `loose, `refs, ppLink, ppRef, mem, data
      ensures PagesOk() && refs == old(refs) && free == old(free) && loose == old(loose) && mem[..] == old(mem[..])
      ensures envPgdir[..] == old(envPgdir[..]) && data[..] == old(data[..])
      ensures r == Success || r == Fault
      ensures r == Success <==>
                forall q :: va / PGSIZE <= q < EndPage(va, len) ==> UserAccessible(mem[..], refs[Dir(e)].ppn, q, perm)
      ensures r == Fault ==>
                && va <= badAddr && badAddr / PGSIZE < EndPage(va, len) && (badAddr == va || badAddr % PGSIZE == 0)
                && !UserAccessible(mem[..], refs[Dir(e)].ppn, badAddr / PGSIZE, perm)
                && forall q :: va / PGSIZE <= q < badAddr / PGSIZE ==> UserAccessible(mem[..], refs[Dir(e)].ppn, q, perm)
    {
      hide Agree, FreeList, Counts, UserAccessible;
      var current, end := va / PGSIZE * PGSIZE, EndPage(va, len) * PGSIZE;
      badAddr := 0;
      ghost var d := refs[Dir(e)].ppn;
      while current < end
        invariant current % PGSIZE == 0 && va / PGSIZE * PGSIZE <= current && (current <= end || current / PGSIZE == va / PGSIZE)
        invariant PagesOk() && refs == old(refs) && free == old(free) && loose == old(loose) && mem[..] == old(mem[..])
        invariant data[..] == old(data[..])
        invariant forall q :: va / PGSIZE <= q < current / PGSIZE ==> UserAccessible(mem[..], d, q, perm)
      {
        var ok := CheckPage(e, current, perm);
        if !ok {
          badAddr := if current < va then va else current;
          r := Fault;
          return;
        }
        current := current + PGSIZE;
      }
      r := Success;
    }

    /** The body of that loop. */
    method CheckPage(e: nat, current: nat, perm: bv32) returns (ok: bool)
      requires PagesOk() && e < NENV && Dir(e) in refs && current < ADDR_LIMIT && current % PGSIZE == 0
      modifies `pageFreeList, `free, `loose, `refs, ppLink, ppRef, mem, data
      ensures PagesOk() && refs == old(refs) && free == old(free) && loose == old(loose) && mem[..] == old(mem[..])
      ensures data[..] == old(data[..])
      ensures ok <==> UserAccessible(mem[..], refs[Dir(e)].ppn, current / PGSIZE, perm)
    {
      hide Agree, FreeList, Counts;
      var pgdir := GetPgdir(e);
      PdeMeans(reserved, kernPgdir, mem[..], envPgdir[..], refs, e, Pdx(current));
      if Pdx(current) < USER_PDES {
        PteMeans(reserved, kernPgdir, mem[..], envPgdir[..], refs, e, Pdx(current), 0);
      }
      var pte := PgdirWalk(pgdir, current, false, e);
      assert current / PGSIZE * PGSIZE == current;
      ok := !(current >= ULIM || pte == None ||
              mem[pte.value.0][pte.value.1].flags | perm | PTE_P != mem[pte.value.0][pte.value.1].flags);
    }
  }
}
