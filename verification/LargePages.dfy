/** Mapping a region with 4 KiB pages or, where alignment and size allow, with 4 MiB pages (boot_map_region in
    kern/pmap.c, with and without TP1_PSE). */
module LargePages {
  import opened Options
  import opened Mmu

  /** A page table entry: nothing, or a page and its flags. */
  datatype Pte = Unmapped | Page(pa: nat, flags: bv32)

  /** A page directory entry: nothing, a page table, or a 4 MiB page. */
  datatype Pde = Absent | Table(ptes: seq<Pte>, flags: bv32) | Large(pa: nat, flags: bv32)

  /** What the processor makes of an address (the offset bits of an entry's address do not count): a physical address and whether users may read and write there. */
  datatype Access = Access(pa: nat, user: bool, writable: bool)

  predicate User(flags: bv32) { flags & PTE_U != 0 }

  /** A present entry, of a 4 MiB page or not: the processor goes by the flags alone. */
  predicate Marked(flags: bv32, large: bool) { flags & PTE_P != 0 && (flags & PTE_PS != 0 <==> large) }

  function Walk(e: Pde, addr: nat): Option<Access> {
    match e
    case Absent => None
    case Large(pa, flags) =>
      if !Marked(flags, true) then None
      else Some(Access(pa / PTSIZE * PTSIZE + addr % PTSIZE, User(flags), flags & PTE_W != 0))
    case Table(ptes, flags) =>
      if !Marked(flags, false) || Ptx(addr) >= |ptes| || ptes[Ptx(addr)] == Unmapped || ptes[Ptx(addr)].flags & PTE_P == 0 then None
      else
        var pte := ptes[Ptx(addr)];
        Some(Access(pte.pa / PGSIZE * PGSIZE + addr % PGSIZE, User(flags) && User(pte.flags), flags & PTE_W != 0 && pte.flags & PTE_W != 0))
  }

  function Translate(dir: seq<Pde>, addr: nat): Option<Access> {
    if Pdx(addr) < |dir| then Walk(dir[Pdx(addr)], addr) else None
  }

  /** Page tables are whole and, as pgdir_walk makes them, leave permissions to their entries. */
  predicate TableOk(e: Pde) {
    e.Table? ==> |e.ptes| == NPTENTRIES && Marked(e.flags, false) && User(e.flags) && e.flags & PTE_W != 0
  }

  /** The directory entry once one page has been mapped in it. */
  function WithPage(e: Pde, va: nat, pa: nat, perm: bv32): (r: Pde)
    requires TableOk(e) && !e.Large?
    ensures TableOk(r) && !r.Large?
  {
    assert Marked(TABLE_FLAGS, false);
    var t := if e.Table? then e else Table(seq(NPTENTRIES, _ => Unmapped), TABLE_FLAGS);
    t.(ptes := t.ptes[Ptx(va) := Page(pa, perm | PTE_P)])
  }

  lemma PageFlags(perm: bv32)
    ensures User(perm | PTE_P) == User(perm) && ((perm | PTE_P) & PTE_W != 0) == (perm & PTE_W != 0)
    ensures (perm | PTE_P) & PTE_P != 0
  {}

  /** What the region's addresses should become. */
  function Mapped(va: nat, pa: nat, perm: bv32, addr: nat): Access
    requires va <= addr
  {
    Access(pa + (addr - va), User(perm), perm & PTE_W != 0)
  }

  lemma SamePage(va: nat, addr: nat)
    requires va % PGSIZE == 0
    ensures va <= addr < va + PGSIZE <==> Pdx(addr) == Pdx(va) && Ptx(addr) == Ptx(va)
    ensures va <= addr < va + PGSIZE ==> addr % PGSIZE == addr - va
  {
    assert addr / PTSIZE == addr / PGSIZE / NPTENTRIES && va / PTSIZE == va / PGSIZE / NPTENTRIES;
    assert va <= addr < va + PGSIZE <==> addr / PGSIZE == va / PGSIZE;
  }

  lemma SameLargePage(va: nat, addr: nat)
    requires va % PTSIZE == 0
    ensures va <= addr < va + PTSIZE <==> Pdx(addr) == Pdx(va)
    ensures va <= addr < va + PTSIZE ==> addr % PTSIZE == addr - va
  {}

  /** One 4 KiB page. */
  lemma PageStep(dir: seq<Pde>, va: nat, pa: nat, perm: bv32, addr: nat)
    requires Pdx(va) < |dir| && TableOk(dir[Pdx(va)]) && !dir[Pdx(va)].Large? && va % PGSIZE == pa % PGSIZE == 0
    ensures Translate(dir[Pdx(va) := WithPage(dir[Pdx(va)], va, pa, perm)], addr) ==
              if va <= addr < va + PGSIZE then Some(Mapped(va, pa, perm, addr)) else Translate(dir, addr)
  {
    SamePage(va, addr);
    PageFlags(perm);
    assert User(TABLE_FLAGS) && TABLE_FLAGS & PTE_W != 0;
  }

  /** One 4 MiB page, over whatever the directory entry was. */
  lemma LargeStep(dir: seq<Pde>, va: nat, pa: nat, flags: bv32, perm: bv32, addr: nat)
    requires Pdx(va) < |dir| && va % PTSIZE == pa % PTSIZE == 0 && Marked(flags, true)
    requires User(flags) == User(perm) && (flags & PTE_W != 0) == (perm & PTE_W != 0)
    ensures Translate(dir[Pdx(va) := Large(pa, flags)], addr) ==
              if va <= addr < va + PTSIZE then Some(Mapped(va, pa, perm, addr)) else Translate(dir, addr)
  {
    SameLargePage(va, addr);
  }

  lemma LargeFlags(perm: bv32)
    ensures User(perm | PTE_P | PTE_PS) == User(perm) && Marked(perm | PTE_P | PTE_PS, true)
    ensures ((perm | PTE_P | PTE_PS) & PTE_W != 0) == (perm & PTE_W != 0)
  {}

  /** The translations after [va, va + done) has been mapped to [pa, pa + done). */
  ghost predicate MappedSoFar(dir0: seq<Pde>, dir: seq<Pde>, va: nat, pa: nat, done: nat, perm: bv32) {
    forall addr: nat :: Translate(dir, addr) ==
      if va <= addr < va + done then Some(Mapped(va, pa, perm, addr)) else Translate(dir0, addr)
  }

  lemma MorePage(dir0: seq<Pde>, dir: seq<Pde>, va: nat, pa: nat, done: nat, perm: bv32)
    requires MappedSoFar(dir0, dir, va, pa, done, perm) && (va + done) % PGSIZE == (pa + done) % PGSIZE == 0
    requires Pdx(va + done) < |dir| && TableOk(dir[Pdx(va + done)]) && !dir[Pdx(va + done)].Large?
    ensures MappedSoFar(dir0, dir[Pdx(va + done) := WithPage(dir[Pdx(va + done)], va + done, pa + done, perm)],
                        va, pa, done + PGSIZE, perm)
  {
    var dir' := dir[Pdx(va + done) := WithPage(dir[Pdx(va + done)], va + done, pa + done, perm)];
    forall addr: nat
      ensures Translate(dir', addr) ==
        if va + done <= addr < va + done + PGSIZE then Some(Mapped(va + done, pa + done, perm, addr)) else Translate(dir, addr)
    {
      PageStep(dir, va + done, pa + done, perm, addr);
    }
    hide Translate, WithPage, User;
  }

  lemma MoreLarge(dir0: seq<Pde>, dir: seq<Pde>, va: nat, pa: nat, done: nat, perm: bv32)
    requires MappedSoFar(dir0, dir, va, pa, done, perm) && (va + done) % PTSIZE == (pa + done) % PTSIZE == 0 && Pdx(va + done) < |dir|
    ensures MappedSoFar(dir0, dir[Pdx(va + done) := Large(pa + done, perm | PTE_P | PTE_PS)], va, pa, done + PTSIZE, perm)
  {
    var dir' := dir[Pdx(va + done) := Large(pa + done, perm | PTE_P | PTE_PS)];
    LargeFlags(perm);
    forall addr: nat
      ensures Translate(dir', addr) ==
        if va + done <= addr < va + done + PTSIZE then Some(Mapped(va + done, pa + done, perm, addr)) else Translate(dir, addr)
    {
      LargeStep(dir, va + done, pa + done, perm | PTE_P | PTE_PS, perm, addr);
    }
    hide Translate, User;
  }

  ghost predicate TablesOk(dir: seq<Pde>) { forall j :: 0 <= j < |dir| ==> TableOk(dir[j]) }

  /** Does the region touch directory entry j? */
  predicate InRegion(va: nat, size: nat, j: nat) { size > 0 && Pdx(va) <= j <= Pdx(va + size - 1) }

  /** No directory entry of the region is large. */
  ghost predicate NoneLarge(dir: seq<Pde>, va: nat, size: nat) {
    forall j :: 0 <= j < |dir| && InRegion(va, size, j) ==> !dir[j].Large?
  }

  /** Is entry j mapped through a page table, rather than by one 4 MiB page? */
  predicate ByTable(va: nat, size: nat, pa: nat, pse: bool, j: nat) {
    !(pse && va % PTSIZE == pa % PTSIZE && va <= j * PTSIZE && (j + 1) * PTSIZE <= va + size)
  }

  /** The entries that need a page table which is not there. */
  function Needed(dir: seq<Pde>, va: nat, size: nat, pa: nat, pse: bool): set<nat> {
    set j: nat | j < |dir| && InRegion(va, size, j) && dir[j] == Absent && ByTable(va, size, pa, pse, j)
  }

  /** Every need of the version with 4 MiB pages is one of the version without. */
  lemma FewerNeeded(dir: seq<Pde>, va: nat, size: nat, pa: nat)
    ensures Needed(dir, va, size, pa, true) <= Needed(dir, va, size, pa, false)
    ensures |Needed(dir, va, size, pa, true)| <= |Needed(dir, va, size, pa, false)|
  {
    var a, b := Needed(dir, va, size, pa, true), Needed(dir, va, size, pa, false);
    assert b == a + (b - a);
  }

  /** The first directory entry that the loop, having reached v, has not touched. */
  function Next(va: nat, v: nat): nat { if v <= va then Pdx(va) else Pdx(v - 1) + 1 }

  lemma NextMore(va: nat, v: nat, step: nat)
    requires va <= v && va % PGSIZE == v % PGSIZE == 0 && (step == PGSIZE || (step == PTSIZE && v % PTSIZE == 0))
    ensures Next(va, v + step) == if v > va && v % PTSIZE != 0 then Next(va, v) else Next(va, v) + 1
    ensures Next(va, v) == if v > va && v % PTSIZE != 0 then Pdx(v) + 1 else Pdx(v)
    ensures (v + step) % PTSIZE != 0 ==> Pdx(v + step) == Pdx(v) && step == PGSIZE
    ensures (v + step) % PTSIZE == 0 ==> Pdx(v + step) == Pdx(v) + 1
  {
    StepPdx(v, step);
    if v > va {
      BeforePdx(v);
    }
    BeforePdx(v + step);
    hide Pdx;
  }

  lemma StepPdx(v: nat, step: nat)
    requires v % PGSIZE == 0 && (step == PGSIZE || (step == PTSIZE && v % PTSIZE == 0))
    ensures Pdx(v + step) == Pdx(v) + if (v + step) % PTSIZE == 0 then 1 else 0
    ensures (v + step) % PTSIZE != 0 ==> step == PGSIZE
  {
    var q, r := v / PTSIZE, v % PTSIZE;
    assert v + step == PTSIZE * q + (r + step) && r + step <= PTSIZE;
  }

  lemma BeforePdx(v: nat)
    requires v > 0
    ensures Pdx(v - 1) == if v % PTSIZE == 0 then Pdx(v) - 1 else Pdx(v)
  {
    var q, r := v / PTSIZE, v % PTSIZE;
    assert v - 1 == PTSIZE * q + (r - 1);
  }

  /** The needs that the loop has still to meet. */
  function Remaining(dir0: seq<Pde>, va: nat, size: nat, pa: nat, pse: bool, v: nat): set<nat> {
    set j | j in Needed(dir0, va, size, pa, pse) && j >= Next(va, v)
  }

  /** The directory when the loop has reached v: entries it has not touched are as they were, and of the pages
      for page tables as many are gone as needs have been met. */
  ghost predicate Ahead(dir0: seq<Pde>, dir: seq<Pde>, va: nat, size: nat, pa: nat, pse: bool, v: nat, free: nat, pages: nat) {
    && |dir| == |dir0| && NoneLarge(dir0, va, size)
    && (forall j :: 0 <= j < |dir| && !(Pdx(va) <= j < Next(va, v)) ==> dir[j] == dir0[j])
    && (v > va && v % PTSIZE != 0 ==> Pdx(v) < |dir| && dir[Pdx(v)].Table?)
    && free - |Remaining(dir0, va, size, pa, pse, v)| == pages - |Needed(dir0, va, size, pa, pse)|
  }

  /** The loop of boot_map_region when `done` bytes are mapped and `free` pages are left for page tables. */
  ghost predicate LoopOk(dir0: seq<Pde>, dir: seq<Pde>, va: nat, size: nat, pa: nat, pse: bool, done: nat, perm: bv32, free: nat, pages: nat) {
    && |dir| == NPDENTRIES && TablesOk(dir) && MappedSoFar(dir0, dir, va, pa, done, perm)
    && (va + done) % PGSIZE == (pa + done) % PGSIZE == va % PGSIZE == 0
    && Ahead(dir0, dir, va, size, pa, pse, va + done, free, pages)
  }

  /** Does the loop map a 4 MiB page here? */
  predicate TakesLarge(left: nat, v: nat, p: nat, pse: bool) {
    pse && left >= PTSIZE && v % PTSIZE == 0 && p % PTSIZE == 0
  }

  /** It does exactly at the entries that are not mapped through a page table. */
  lemma TakesLargeIff(va: nat, size: nat, pa: nat, pse: bool, done: nat)
    requires done < size && (done == 0 || (va + done) % PTSIZE == 0)
    ensures TakesLarge(size - done, va + done, pa + done, pse) <==> !ByTable(va, size, pa, pse, Pdx(va + done))
    ensures InRegion(va, size, Pdx(va + done))
  {
    var v := va + done;
    assert v == Pdx(v) * PTSIZE + v % PTSIZE;
    DivOrder(v, va + size - 1);
    DivOrder(va, v);
    if v % PTSIZE == 0 {
      assert (pa + done) % PTSIZE == 0 <==> va % PTSIZE == pa % PTSIZE;
    }
  }

  lemma DivOrder(a: nat, b: nat)
    requires a <= b
    ensures Pdx(a) <= Pdx(b)
  {}

  lemma NeedSpent(rest: set<nat>, i: nat)
    ensures |rest - {i}| == |rest| - if i in rest then 1 else 0
  {
    if i !in rest {
      assert rest - {i} == rest;
    }
  }

  /** One step of the loop meets the need of the entry it comes to, if that has one. */
  lemma RemainingStep(dir0: seq<Pde>, va: nat, size: nat, pa: nat, pse: bool, v: nat, step: nat)
    requires va <= v && va % PGSIZE == v % PGSIZE == 0 && (step == PGSIZE || (step == PTSIZE && v % PTSIZE == 0))
    ensures var rest, more, i := Remaining(dir0, va, size, pa, pse, v), Remaining(dir0, va, size, pa, pse, v + step), Pdx(v);
            if v > va && v % PTSIZE != 0 then more == rest
            else more == rest - {i} && (i in rest <==> i in Needed(dir0, va, size, pa, pse))
  {
    NextMore(va, v, step);
    hide Needed, Next, Pdx;
  }

  lemma EntryNotLarge(dir0: seq<Pde>, dir: seq<Pde>, va: nat, size: nat, pa: nat, pse: bool, done: nat, free: nat, pages: nat)
    requires Ahead(dir0, dir, va, size, pa, pse, va + done, free, pages) && done < size
    requires va % PGSIZE == (va + done) % PGSIZE == 0 && Pdx(va + done) < |dir|
    ensures !dir[Pdx(va + done)].Large?
  {
    var v := va + done;
    NextMore(va, v, PGSIZE);
    if done == 0 || v % PTSIZE == 0 {
      TakesLargeIff(va, size, pa, pse, done);
      assert dir[Pdx(v)] == dir0[Pdx(v)];
    }
    hide Next, Needed, Remaining, ByTable, Pdx;
  }

  lemma AheadPage(dir0: seq<Pde>, dir: seq<Pde>, va: nat, size: nat, pa: nat, pse: bool, done: nat, free: nat, pages: nat, e: Pde)
    requires Ahead(dir0, dir, va, size, pa, pse, va + done, free, pages) && done < size
    requires va % PGSIZE == (va + done) % PGSIZE == 0 && Pdx(va + done) < |dir| && e.Table?
    requires free > 0 || dir[Pdx(va + done)].Table?
    requires !TakesLarge(size - done, va + done, pa + done, pse)
    ensures Ahead(dir0, dir[Pdx(va + done) := e], va, size, pa, pse, va + done + PGSIZE,
                  if dir[Pdx(va + done)].Table? then free else free - 1, pages)
  {
    hide Remaining, NoneLarge, TakesLarge;
    var v := va + done;
    NextMore(va, v, PGSIZE);
    RemainingStep(dir0, va, size, pa, pse, v, PGSIZE);
    NeedSpent(Remaining(dir0, va, size, pa, pse, v), Pdx(v));
    EntryNotLarge(dir0, dir, va, size, pa, pse, done, free, pages);
    if done == 0 || v % PTSIZE == 0 {
      TakesLargeIff(va, size, pa, pse, done);
      assert dir[Pdx(v)] == dir0[Pdx(v)];
      assert Pdx(v) in Needed(dir0, va, size, pa, pse) <==> dir[Pdx(v)] == Absent;
    }
    hide Next, Needed, ByTable, InRegion, Pdx;
  }

  lemma AheadLarge(dir0: seq<Pde>, dir: seq<Pde>, va: nat, size: nat, pa: nat, pse: bool, done: nat, free: nat, pages: nat, e: Pde)
    requires Ahead(dir0, dir, va, size, pa, pse, va + done, free, pages) && done < size
    requires va % PGSIZE == 0 && (va + done) % PTSIZE == 0 && Pdx(va + done) < |dir|
    requires TakesLarge(size - done, va + done, pa + done, pse)
    ensures Ahead(dir0, dir[Pdx(va + done) := e], va, size, pa, pse, va + done + PTSIZE, free, pages)
  {
    hide Remaining, NoneLarge, TakesLarge, Next, Needed, ByTable, InRegion, Pdx;
    NextLarge(va, va + done);
    LargeSpends(dir0, va, size, pa, pse, done);
  }

  lemma NextLarge(va: nat, v: nat)
    requires va <= v && va % PGSIZE == 0 && v % PTSIZE == 0
    ensures Next(va, v + PTSIZE) == Next(va, v) + 1 && Next(va, v) == Pdx(v) && Pdx(va) <= Pdx(v)
    ensures (v + PTSIZE) % PTSIZE == 0
  {
    NextMore(va, v, PTSIZE);
    DivOrder(va, v);
    hide Next;
  }

  /** A 4 MiB page takes no page for a table. */
  lemma LargeSpends(dir0: seq<Pde>, va: nat, size: nat, pa: nat, pse: bool, done: nat)
    requires done < size && va % PGSIZE == 0 && (va + done) % PTSIZE == 0
    requires TakesLarge(size - done, va + done, pa + done, pse)
    ensures |Remaining(dir0, va, size, pa, pse, va + done + PTSIZE)| == |Remaining(dir0, va, size, pa, pse, va + done)|
  {
    var v := va + done;
    assert v % PGSIZE == 0;
    hide Remaining, TakesLarge, Needed, ByTable, InRegion, Pdx;
    RemainingStep(dir0, va, size, pa, pse, v, PTSIZE);
    TakesLargeIff(va, size, pa, pse, done);
    NotNeeded(dir0, va, size, pa, pse, Pdx(v));
    NeedSpent(Remaining(dir0, va, size, pa, pse, v), Pdx(v));
  }

  lemma NotNeeded(dir: seq<Pde>, va: nat, size: nat, pa: nat, pse: bool, j: nat)
    requires !ByTable(va, size, pa, pse, j)
    ensures j !in Needed(dir, va, size, pa, pse)
  {}

  /** With no page left and a need still open, there were not enough; with none open, there were. */
  lemma NeedOpen(dir0: seq<Pde>, dir: seq<Pde>, va: nat, size: nat, pa: nat, pse: bool, done: nat, pages: nat)
    requires Ahead(dir0, dir, va, size, pa, pse, va + done, 0, pages) && done < size && Pdx(va + done) < |dir|
    requires va % PGSIZE == (va + done) % PGSIZE == 0
    requires !TakesLarge(size - done, va + done, pa + done, pse) && !dir[Pdx(va + done)].Table?
    ensures pages < |Needed(dir0, va, size, pa, pse)|
  {
    var v := va + done;
    NextMore(va, v, PGSIZE);
    TakesLargeIff(va, size, pa, pse, done);
    assert dir[Pdx(v)] == dir0[Pdx(v)];
    assert Pdx(v) in Remaining(dir0, va, size, pa, pse, v);
  }

  lemma NeedsMet(dir0: seq<Pde>, dir: seq<Pde>, va: nat, size: nat, pa: nat, pse: bool, free: nat, pages: nat)
    requires Ahead(dir0, dir, va, size, pa, pse, va + size, free, pages)
    ensures pages >= |Needed(dir0, va, size, pa, pse)|
    ensures forall j :: 0 <= j < |dir| && !InRegion(va, size, j) ==> dir[j] == dir0[j]
  {
    assert Remaining(dir0, va, size, pa, pse, va + size) == {};
  }

  lemma InDirectory(v: nat)
    requires v < ADDR_LIMIT
    ensures Pdx(v) < NPDENTRIES
  {}

  lemma TablesUpdate(dir: seq<Pde>, i: nat, e: Pde)
    requires TablesOk(dir) && i < |dir| && TableOk(e)
    ensures TableOk(dir[i]) && TablesOk(dir[i := e])
  {
    hide TableOk;
  }

  lemma LoopPage(dir0: seq<Pde>, dir: seq<Pde>, va: nat, size: nat, pa: nat, pse: bool, done: nat, perm: bv32, free: nat, pages: nat)
    requires LoopOk(dir0, dir, va, size, pa, pse, done, perm, free, pages) && done < size && va + done < ADDR_LIMIT
    requires Pdx(va + done) < |dir| && (free > 0 || dir[Pdx(va + done)].Table?)
    requires !TakesLarge(size - done, va + done, pa + done, pse)
    ensures var i := Pdx(va + done);
            TableOk(dir[i]) && !dir[i].Large?
            && LoopOk(dir0, dir[i := WithPage(dir[i], va + done, pa + done, perm)], va, size, pa, pse, done + PGSIZE, perm,
                      if dir[i].Table? then free else free - 1, pages)
  {
    hide TableOk, TablesOk, WithPage, MappedSoFar, Ahead, Pdx, TakesLarge;
    var i := Pdx(va + done);
    EntryOk(dir, i);
    EntryNotLarge(dir0, dir, va, size, pa, pse, done, free, pages);
    var e := WithPage(dir[i], va + done, pa + done, perm);
    WithPageIs(dir[i], va + done, pa + done, perm);
    TablesUpdate(dir, i, e);
    Aligned(va + done);
    Aligned(pa + done);
    AheadPage(dir0, dir, va, size, pa, pse, done, free, pages, e);
    MorePage(dir0, dir, va, pa, done, perm);
  }

  lemma EntryOk(dir: seq<Pde>, i: nat)
    requires TablesOk(dir) && i < |dir|
    ensures TableOk(dir[i])
  {}

  lemma WithPageIs(e: Pde, v: nat, p: nat, perm: bv32)
    requires TableOk(e) && !e.Large?
    ensures WithPage(e, v, p, perm).Table?
  {}

  lemma Aligned(x: nat)
    requires x % PGSIZE == 0
    ensures (x + PGSIZE) % PGSIZE == 0 && (x + PTSIZE) % PGSIZE == 0
    ensures x > 0 ==> x >= PGSIZE && (x - PGSIZE) % PGSIZE == 0
    ensures x >= PTSIZE ==> (x - PTSIZE) % PGSIZE == 0
  {}

  lemma LoopLarge(dir0: seq<Pde>, dir: seq<Pde>, va: nat, size: nat, pa: nat, pse: bool, done: nat, perm: bv32, free: nat, pages: nat)
    requires LoopOk(dir0, dir, va, size, pa, pse, done, perm, free, pages) && done < size && va + done < ADDR_LIMIT
    requires TakesLarge(size - done, va + done, pa + done, pse)
    ensures Pdx(va + done) < |dir|
    ensures LoopOk(dir0, dir[Pdx(va + done) := Large(pa + done, perm | PTE_P | PTE_PS)], va, size, pa, pse, done + PTSIZE, perm, free, pages)
  {
    hide TablesOk, MappedSoFar, Ahead, Pdx;
    var e := Large(pa + done, perm | PTE_P | PTE_PS);
    InDirectory(va + done);
    Aligned(va + done);
    Aligned(pa + done);
    TablesUpdate(dir, Pdx(va + done), e);
    AheadLarge(dir0, dir, va, size, pa, pse, done, free, pages, e);
    MoreLarge(dir0, dir, va, pa, done, perm);
  }

  /** boot_map_region, with 4 MiB pages if `pse`. `pages` is how many pages are left for page tables. The loop
      ends early exactly if they are fewer than the entries that need a table; what the addresses translate to
      does not depend on `pse`, and entries outside the region, large or not, stay as they are. */
  method BootMapRegion(dir: array<Pde>, va: nat, size: nat, pa: nat, perm: bv32, pse: bool, pages: nat) returns (ok: bool)
    requires dir.Length == NPDENTRIES && va % PGSIZE == size % PGSIZE == pa % PGSIZE == 0
    requires va + size <= ADDR_LIMIT && pa + size <= ADDR_LIMIT
    requires TablesOk(dir[..]) && NoneLarge(dir[..], va, size)
    modifies dir
    ensures ok <==> pages >= |Needed(old(dir[..]), va, size, pa, pse)|
    ensures ok ==> MappedSoFar(old(dir[..]), dir[..], va, pa, size, perm)
    ensures ok ==>
              forall addr: nat :: Translate(dir[..], addr) ==
                if va <= addr < va + size then Some(Access(pa + (addr - va), perm & PTE_U != 0, perm & PTE_W != 0))
                else Translate(old(dir[..]), addr)
    ensures !ok ==> exists done: nat :: done < size && MappedSoFar(old(dir[..]), dir[..], va, pa, done, perm)
    ensures forall j :: 0 <= j < NPDENTRIES && !InRegion(va, size, j) ==> dir[j] == old(dir[j])
    ensures TablesOk(dir[..])
  {
    ghost var dir0 := dir[..];
    var v, p, left, free := va, pa, size, pages;
    LoopStart(dir0, va, size, pa, pse, perm, pages);
    hide LoopOk, TablesOk, MappedSoFar, NoneLarge, Needed, InRegion;
    while left > 0
      invariant 0 <= left <= size && v == va + (size - left) && p == pa + (size - left) && left % PGSIZE == 0
      invariant LoopOk(dir0, dir[..], va, size, pa, pse, size - left, perm, free, pages)
    {
      Aligned(left);
      if pse && left >= PTSIZE && v % PTSIZE == 0 && p % PTSIZE == 0 {
        MapLarge(dir, v, p, perm, dir0, va, size, pa, pse, free, pages);
        left, v, p := left - PTSIZE, v + PTSIZE, p + PTSIZE;
      } else {
        var mapped;
        mapped, free := MapPage(dir, v, p, perm, free, dir0, va, size, pa, pse, pages);
        if !mapped {
          LoopDone(dir0, dir[..], va, size, pa, pse, size - left, perm, free, pages);
          return false;
        }
        left, v, p := left - PGSIZE, v + PGSIZE, p + PGSIZE;
      }
    }
    LoopDone(dir0, dir[..], va, size, pa, pse, size - left, perm, free, pages);
    RegionMeans(dir0, dir[..], va, pa, size, perm);
    return true;
  }

  lemma RegionMeans(dir0: seq<Pde>, dir: seq<Pde>, va: nat, pa: nat, size: nat, perm: bv32)
    requires MappedSoFar(dir0, dir, va, pa, size, perm)
    ensures forall addr: nat :: Translate(dir, addr) ==
              if va <= addr < va + size then Some(Access(pa + (addr - va), perm & PTE_U != 0, perm & PTE_W != 0))
              else Translate(dir0, addr)
  {
    hide Translate;
  }

  lemma LoopStart(dir0: seq<Pde>, va: nat, size: nat, pa: nat, pse: bool, perm: bv32, pages: nat)
    requires |dir0| == NPDENTRIES && va % PGSIZE == pa % PGSIZE == 0 && TablesOk(dir0) && NoneLarge(dir0, va, size)
    ensures LoopOk(dir0, dir0, va, size, pa, pse, 0, perm, pages, pages)
  {
    assert Remaining(dir0, va, size, pa, pse, va) == Needed(dir0, va, size, pa, pse);
    assert MappedSoFar(dir0, dir0, va, pa, 0, perm);
    hide Needed, Remaining, MappedSoFar, TablesOk, NoneLarge;
  }

  lemma LoopDone(dir0: seq<Pde>, dir: seq<Pde>, va: nat, size: nat, pa: nat, pse: bool, done: nat, perm: bv32, free: nat, pages: nat)
    requires LoopOk(dir0, dir, va, size, pa, pse, done, perm, free, pages) && done <= size
    ensures TablesOk(dir) && |dir| == |dir0| && MappedSoFar(dir0, dir, va, pa, done, perm)
    ensures done == size ==> pages >= |Needed(dir0, va, size, pa, pse)|
    ensures forall j :: 0 <= j < |dir| && !InRegion(va, size, j) ==> dir[j] == dir0[j]
  {
    if done == size {
      NeedsMet(dir0, dir, va, size, pa, pse, free, pages);
    } else {
      if done > 0 {
        DivOrder(va + done - 1, va + size - 1);
      }
    }
    hide TablesOk, MappedSoFar, NoneLarge, Needed;
  }

  /** pgdir[PDX(va)] = PTE_ADDR(pa) | perm | PTE_P | PTE_PS */
  method MapLarge(dir: array<Pde>, v: nat, p: nat, perm: bv32, ghost dir0: seq<Pde>, ghost va: nat, ghost size: nat, ghost pa: nat, ghost pse: bool, ghost free: nat, ghost pages: nat)
    requires va <= v < ADDR_LIMIT && v < va + size && p == pa + (v - va) && dir.Length == NPDENTRIES
    requires TakesLarge(va + size - v, v, p, pse)
    requires LoopOk(dir0, dir[..], va, size, pa, pse, v - va, perm, free, pages)
    modifies dir
    ensures LoopOk(dir0, dir[..], va, size, pa, pse, v + PTSIZE - va, perm, free, pages)
  {
    hide LoopOk;
    ghost var before := dir[..];
    LoopLarge(dir0, before, va, size, pa, pse, v - va, perm, free, pages);
    dir[Pdx(v)] := Large(p, perm | PTE_P | PTE_PS);
    assert dir[..] == before[Pdx(v) := dir[Pdx(v)]];
  }

  /** pgdir_walk and *pte = pa | perm | PTE_P; false if there is no page for a page table. */
  method MapPage(dir: array<Pde>, v: nat, p: nat, perm: bv32, free: nat, ghost dir0: seq<Pde>, ghost va: nat, ghost size: nat, ghost pa: nat, ghost pse: bool, ghost pages: nat)
    returns (ok: bool, left: nat)
    requires va <= v < ADDR_LIMIT && v < va + size && p == pa + (v - va) && dir.Length == NPDENTRIES
    requires !TakesLarge(va + size - v, v, p, pse)
    requires LoopOk(dir0, dir[..], va, size, pa, pse, v - va, perm, free, pages)
    modifies dir
    ensures ok ==> LoopOk(dir0, dir[..], va, size, pa, pse, v + PGSIZE - va, perm, left, pages)
    ensures !ok ==> left == free && dir[..] == old(dir[..]) && pages < |Needed(dir0, va, size, pa, pse)|
  {
    hide TablesOk, MappedSoFar, Ahead, TakesLarge, Needed;
    var table := dir[Pdx(v)].Table?;
    if !table && free == 0 {
      NeedOpen(dir0, dir[..], va, size, pa, pse, v - va, pages);
      return false, free;
    }
    hide LoopOk, WithPage;
    ghost var before := dir[..];
    LoopPage(dir0, before, va, size, pa, pse, v - va, perm, free, pages);
    dir[Pdx(v)] := WithPage(dir[Pdx(v)], v, p, perm);
    assert dir[..] == before[Pdx(v) := dir[Pdx(v)]];
    return true, if table then free else free - 1;
  }

  /** Large pages preserve meaning: from the same directory, a run with 4 MiB pages gives every address the same
      translation and permissions as a run without, and needs no more pages for tables. */
  method LargePagesPreserveMeaning(small: array<Pde>, large: array<Pde>, va: nat, size: nat, pa: nat, perm: bv32, pages: nat)
    returns (withSmall: bool, withLarge: bool)
    requires small != large && small.Length == large.Length == NPDENTRIES && small[..] == large[..]
    requires va % PGSIZE == size % PGSIZE == pa % PGSIZE == 0 && va + size <= ADDR_LIMIT && pa + size <= ADDR_LIMIT
    requires TablesOk(small[..]) && NoneLarge(small[..], va, size)
    modifies small, large
    ensures withSmall <==> pages >= |Needed(old(small[..]), va, size, pa, false)|
    ensures withSmall ==> withLarge
    ensures withSmall ==> forall addr: nat :: Translate(small[..], addr) == Translate(large[..], addr)
  {
    hide Translate, TablesOk, NoneLarge, Needed, InRegion;
    ghost var dir0 := small[..];
    FewerNeeded(dir0, va, size, pa);
    withSmall := BootMapRegion(small, va, size, pa, perm, false, pages);
    assert large[..] == dir0;
    withLarge := BootMapRegion(large, va, size, pa, perm, true, pages);
  }

  const KERNBASE := 0xF000_0000
  const KSTKSIZE := 0x8000
  const KSTKGAP := 0x8000
  const NCPU := 8

  /** mem_init_mp's regions, one stack after the other below KERNBASE, have no large entry even after mem_init
      has mapped all of KERNBASE and above with 4 MiB pages. */
  lemma StacksBelowLarge(dir: seq<Pde>, i: nat)
    requires |dir| == NPDENTRIES && i < NCPU && forall j :: 0 <= j < Pdx(KERNBASE) ==> !dir[j].Large?
    ensures NoneLarge(dir, KERNBASE - KSTKSIZE - i * (KSTKSIZE + KSTKGAP), KSTKSIZE)
  {}
}
