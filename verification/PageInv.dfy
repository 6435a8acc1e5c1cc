/** The central invariant of kern/pmap.c: reference counts are exact, the free list is acyclic and holds
    exactly the unreferenced pages, and no page is both a paging structure and something else. */
module PageInv {
  import opened Mmu
  import opened RefCount
  import opened Options

  type Words = s: seq<Entry> | |s| == NPTENTRIES witness seq(NPTENTRIES, _ => ZERO)

  /** Pages the allocator never hands out: `rsv`, all of them below `n`, the number of physical pages. */
  predicate Owned(n: nat, rsv: set<nat>, p: nat) { p < n && p !in rsv }

  // ---------------------------------------------------------------- the free list

  function At(free: seq<nat>, m: nat): Option<nat> {
    if m < |free| then Some(free[m]) else None
  }

  /** Following `link` from `head` visits `free`, every element once, and ends. */
  ghost predicate Chain(rsv: set<nat>, head: Option<nat>, link: seq<Option<nat>>, free: seq<nat>) {
    && head == At(free, 0)
    && (forall m :: 0 <= m < |free| ==> Owned(|link|, rsv, free[m]))
    && (forall m :: 0 <= m < |free| ==> link[free[m]] == At(free, m + 1))
    && (forall l, m :: 0 <= l < m < |free| ==> free[l] != free[m])
  }

  /** page_free_list and the pp_link fields spell out `free`, and every other pp_link is null. */
  ghost predicate FreeList(rsv: set<nat>, head: Option<nat>, link: seq<Option<nat>>, free: seq<nat>) {
    && Chain(rsv, head, link, free)
    && (forall p :: 0 <= p < |link| && p !in free ==> link[p] == None)
  }

  lemma ChainHead(rsv: set<nat>, head: Option<nat>, link: seq<Option<nat>>, free: seq<nat>)
    requires Chain(rsv, head, link, free)
    ensures head == None <==> free == []
    ensures head.Some? ==> head.value < |link| && head.value == free[0]
  {}

  /** Taking the head off a list; its own link may be cleared or kept. */
  lemma PopChain(rsv: set<nat>, head: Option<nat>, link: seq<Option<nat>>, free: seq<nat>, x: Option<nat>)
    requires Chain(rsv, head, link, free) && head.Some?
    ensures free != [] && head.value == free[0] && Owned(|link|, rsv, free[0]) && free[0] !in free[1..]
    ensures Chain(rsv, link[free[0]], link[free[0] := x], free[1..])
  {
    var rest, link' := free[1..], link[free[0] := x];
    forall m | 0 <= m < |rest| ensures link'[rest[m]] == At(rest, m + 1) {
      assert rest[m] == free[m + 1] && free[0] != free[m + 1];
      assert m + 1 < |rest| ==> rest[m + 1] == free[m + 2];
    }
  }

  lemma PushChain(rsv: set<nat>, head: Option<nat>, link: seq<Option<nat>>, free: seq<nat>, p: nat)
    requires Chain(rsv, head, link, free) && Owned(|link|, rsv, p) && p !in free
    ensures Chain(rsv, Some(p), link[p := head], [p] + free)
  {
    var more, link' := [p] + free, link[p := head];
    forall m | 0 <= m < |more|
      ensures Owned(|link|, rsv, more[m]) && link'[more[m]] == At(more, m + 1)
    {
      if m > 0 {
        assert more[m] == free[m - 1] && more[m] != p;
      }
    }
    forall l, m | 0 <= l < m < |more| ensures more[l] != more[m] {
      assert more[m] == free[m - 1];
    }
  }

  lemma PopFree(rsv: set<nat>, head: Option<nat>, link: seq<Option<nat>>, free: seq<nat>)
    requires FreeList(rsv, head, link, free) && head.Some?
    ensures free != [] && head.value == free[0] && Owned(|link|, rsv, free[0]) && free[0] !in free[1..]
    ensures FreeList(rsv, link[free[0]], link[free[0] := None], free[1..])
  {
    PopChain(rsv, head, link, free, None);
    forall p | 0 <= p < |link| && p !in free[1..] ensures link[free[0] := None][p] == None {
      assert p !in free || p == free[0];
    }
  }

  lemma PushFree(rsv: set<nat>, head: Option<nat>, link: seq<Option<nat>>, free: seq<nat>, p: nat)
    requires FreeList(rsv, head, link, free) && Owned(|link|, rsv, p) && p !in free
    ensures link[p] == None
    ensures FreeList(rsv, Some(p), link[p := head], [p] + free)
  {
    PushChain(rsv, head, link, free, p);
    forall q | 0 <= q < |link| && q !in [p] + free ensures link[p := head][q] == None {
      assert q !in free && q != p;
    }
  }

  /** page_free's null test of pp_link catches a second free of any listed page except the last. */
  lemma DoubleFreeDetectedIff(rsv: set<nat>, head: Option<nat>, link: seq<Option<nat>>, free: seq<nat>, p: nat)
    requires FreeList(rsv, head, link, free) && p in free
    ensures p < |link| && (link[p] != None <==> p != free[|free| - 1])
  {
    var m :| 0 <= m < |free| && free[m] == p;
  }

  // ---------------------------------------------------------------- page tables and what they reference

  ghost predicate Targets(n: nat, rsv: set<nat>, refs: Refs) {
    forall r :: r in refs ==> Owned(n, rsv, refs[r].ppn)
  }

  /** A page that serves as a paging structure has exactly one reference. */
  ghost predicate Exclusive(refs: Refs) {
    forall r, s :: r in refs && s in refs && Structural(r) && refs[r].ppn == refs[s].ppn ==> r == s
  }

  ghost predicate InRange(r: Ref) {
    match r
    case Dir(e) => e < NENV
    case Table(e, i) => e < NENV && i < USER_PDES
    case Leaf(e, i, j) => e < NENV && i < USER_PDES && j < NPTENTRIES
    case _ => true
  }

  ghost predicate DirsAgree(dir: seq<Option<nat>>, refs: Refs)
    requires |dir| == NENV
  {
    forall e :: 0 <= e < NENV ==>
      (Dir(e) in refs <==> dir[e].Some?) && (Dir(e) in refs ==> refs[Dir(e)].ppn == dir[e].value)
  }

  ghost predicate TablesAgree(mem: seq<Words>, refs: Refs)
    requires forall r :: r in refs ==> refs[r].ppn < |mem|
  {
    forall e, i :: 0 <= e < NENV && 0 <= i < USER_PDES ==>
      (Table(e, i) in refs <==> Dir(e) in refs && Present(mem[refs[Dir(e)].ppn][i]))
      && (Table(e, i) in refs ==> refs[Table(e, i)] == mem[refs[Dir(e)].ppn][i])
  }

  ghost predicate LeavesAgree(mem: seq<Words>, refs: Refs)
    requires forall r :: r in refs ==> refs[r].ppn < |mem|
  {
    forall e, i, j :: 0 <= e < NENV && 0 <= i < USER_PDES && 0 <= j < NPTENTRIES ==>
      (Leaf(e, i, j) in refs <==> Table(e, i) in refs && Present(mem[refs[Table(e, i)].ppn][j]))
      && (Leaf(e, i, j) in refs ==> refs[Leaf(e, i, j)] == mem[refs[Table(e, i)].ppn][j])
  }

  /** Above UTOP the page directory in page d repeats kern_pgdir, except that UVPT maps d itself. */
  ghost predicate KernelEntries(mem: seq<Words>, kpd: nat, d: nat)
    requires kpd < |mem| && d < |mem|
  {
    forall i :: USER_PDES <= i < NPDENTRIES ==>
      mem[d][i] == if i == UVPT_PDX then Entry(d, PTE_P | PTE_U) else mem[kpd][i]
  }

  ghost predicate KernelHalf(mem: seq<Words>, kpd: nat, refs: Refs)
    requires kpd < |mem|
    requires forall r :: r in refs ==> refs[r].ppn < |mem|
  {
    forall e :: 0 <= e < NENV && Dir(e) in refs ==> KernelEntries(mem, kpd, refs[Dir(e)].ppn)
  }

  /** The references recorded in `refs` are exactly the ones found by walking memory from env_pgdir. */
  ghost predicate Agree(rsv: set<nat>, kpd: nat, mem: seq<Words>, dir: seq<Option<nat>>, refs: Refs) {
    && |dir| == NENV && kpd in rsv && kpd < |mem|
    && Targets(|mem|, rsv, refs) && Exclusive(refs)
    && (forall r :: r in refs ==> InRange(r))
    && DirsAgree(dir, refs) && TablesAgree(mem, refs) && LeavesAgree(mem, refs)
    && KernelHalf(mem, kpd, refs)
    && (forall i :: USER_PDES <= i < NPDENTRIES && Present(mem[kpd][i]) ==> mem[kpd][i].ppn < |mem|)
    && (forall i :: 0 <= i < USER_PDES ==> !Present(mem[kpd][i]))
  }

  lemma TargetOwned(rsv: set<nat>, kpd: nat, mem: seq<Words>, dir: seq<Option<nat>>, refs: Refs, r: Ref)
    requires Agree(rsv, kpd, mem, dir, refs) && r in refs
    ensures Owned(|mem|, rsv, refs[r].ppn) && InRange(r)
  {}

  lemma AllInRange(rsv: set<nat>, kpd: nat, mem: seq<Words>, dir: seq<Option<nat>>, refs: Refs)
    requires Agree(rsv, kpd, mem, dir, refs)
    ensures forall r :: r in refs ==> InRange(r)
  {}

  lemma KernelPage(rsv: set<nat>, kpd: nat, mem: seq<Words>, dir: seq<Option<nat>>, refs: Refs)
    requires Agree(rsv, kpd, mem, dir, refs)
    ensures kpd in rsv && kpd < |mem|
  {}

  lemma DirMeans(rsv: set<nat>, kpd: nat, mem: seq<Words>, dir: seq<Option<nat>>, refs: Refs, e: nat)
    requires Agree(rsv, kpd, mem, dir, refs) && e < NENV
    ensures |dir| == NENV && (Dir(e) in refs <==> dir[e].Some?)
    ensures Dir(e) in refs ==> refs[Dir(e)].ppn == dir[e].value
  {}

  lemma NoTableNoLeaf(rsv: set<nat>, kpd: nat, mem: seq<Words>, dir: seq<Option<nat>>, refs: Refs, e: nat, i: nat)
    requires Agree(rsv, kpd, mem, dir, refs) && Table(e, i) !in refs
    ensures forall j :: Leaf(e, i, j) !in refs
  {
    forall j ensures Leaf(e, i, j) !in refs {
      assert Leaf(e, i, j) in refs ==> InRange(Leaf(e, i, j));
    }
  }

  /** What pgdir_walk finds in the page directory of e. */
  lemma PdeMeans(rsv: set<nat>, kpd: nat, mem: seq<Words>, dir: seq<Option<nat>>, refs: Refs, e: nat, i: nat)
    requires Agree(rsv, kpd, mem, dir, refs) && e < NENV && Dir(e) in refs
    ensures refs[Dir(e)].ppn < |mem|
    ensures i < USER_PDES ==>
              (Table(e, i) in refs <==> Present(mem[refs[Dir(e)].ppn][i]))
              && (Table(e, i) in refs ==> refs[Table(e, i)] == mem[refs[Dir(e)].ppn][i])
    ensures USER_PDES <= i < NPDENTRIES && Present(mem[refs[Dir(e)].ppn][i]) ==>
              mem[refs[Dir(e)].ppn][i].ppn < |mem|
  {
    assert KernelEntries(mem, kpd, refs[Dir(e)].ppn);
  }

  /** What a page table of e holds. */
  lemma PteMeans(rsv: set<nat>, kpd: nat, mem: seq<Words>, dir: seq<Option<nat>>, refs: Refs, e: nat, i: nat, j: nat)
    requires Agree(rsv, kpd, mem, dir, refs) && e < NENV && i < USER_PDES && j < NPTENTRIES
    ensures Leaf(e, i, j) in refs ==> Table(e, i) in refs
    ensures Table(e, i) in refs ==>
              && Dir(e) in refs && refs[Table(e, i)].ppn < |mem|
              && (Leaf(e, i, j) in refs <==> Present(mem[refs[Table(e, i)].ppn][j]))
              && (Leaf(e, i, j) in refs ==> refs[Leaf(e, i, j)] == mem[refs[Table(e, i)].ppn][j])
  {}

  /** A mapped page is no paging structure, and is not free. */
  lemma MappedPage(rsv: set<nat>, kpd: nat, mem: seq<Words>, dir: seq<Option<nat>>, refs: Refs, r: Ref)
    requires Agree(rsv, kpd, mem, dir, refs) && r in refs && !Structural(r)
    ensures Owned(|mem|, rsv, refs[r].ppn) && Count(refs, refs[r].ppn) > 0
    ensures forall s :: s in refs && Structural(s) ==> refs[s].ppn != refs[r].ppn
  {
    CountZero(refs, refs[r].ppn);
  }

  /** Writing a page no reference points to disturbs no page table. */
  lemma ScribbleUnreferenced(rsv: set<nat>, kpd: nat, mem: seq<Words>, dir: seq<Option<nat>>, refs: Refs, p: nat, w: Words)
    requires Agree(rsv, kpd, mem, dir, refs) && Owned(|mem|, rsv, p)
    requires forall r :: r in refs ==> refs[r].ppn != p
    ensures Agree(rsv, kpd, mem[p := w], dir, refs)
  {
    var mem' := mem[p := w];
    assert TablesAgree(mem', refs) by { hide LeavesAgree, KernelHalf, DirsAgree; }
    assert LeavesAgree(mem', refs) by { hide KernelHalf, DirsAgree; }
    assert KernelHalf(mem', kpd, refs) by { hide TablesAgree, LeavesAgree, DirsAgree; }
    hide TablesAgree, LeavesAgree, KernelHalf;
  }

  /** A kernel local takes a reference to a page that is no paging structure. */
  lemma HoldAgrees(rsv: set<nat>, kpd: nat, mem: seq<Words>, dir: seq<Option<nat>>, refs: Refs, p: nat)
    requires Agree(rsv, kpd, mem, dir, refs) && Owned(|mem|, rsv, p) && Incoming !in refs
    requires forall r :: r in refs && Structural(r) ==> refs[r].ppn != p
    ensures Agree(rsv, kpd, mem, dir, refs[Incoming := Entry(p, 0)])
  {
    var refs' := refs[Incoming := Entry(p, 0)];
    assert TablesAgree(mem, refs') by { hide LeavesAgree, KernelHalf, DirsAgree; }
    assert LeavesAgree(mem, refs') by { hide KernelHalf, DirsAgree; }
    assert KernelHalf(mem, kpd, refs') by { hide TablesAgree, LeavesAgree, DirsAgree; }
    hide TablesAgree, LeavesAgree, KernelHalf;
  }

  lemma DropAgrees(rsv: set<nat>, kpd: nat, mem: seq<Words>, dir: seq<Option<nat>>, refs: Refs)
    requires Agree(rsv, kpd, mem, dir, refs)
    ensures Agree(rsv, kpd, mem, dir, refs - {Outgoing})
  {
    var refs' := refs - {Outgoing};
    assert TablesAgree(mem, refs') by { hide LeavesAgree, KernelHalf, DirsAgree; }
    assert LeavesAgree(mem, refs') by { hide KernelHalf, DirsAgree; }
    assert KernelHalf(mem, kpd, refs') by { hide TablesAgree, LeavesAgree, DirsAgree; }
    hide TablesAgree, LeavesAgree, KernelHalf;
  }

  /** Storing a directory entry for a fresh, zeroed page table. */
  lemma InstallTable(rsv: set<nat>, kpd: nat, mem: seq<Words>, dir: seq<Option<nat>>, refs: Refs,
                     e: nat, i: nat, x: Entry)
    requires Agree(rsv, kpd, mem, dir, refs) && e < NENV && i < USER_PDES
    requires Dir(e) in refs && Table(e, i) !in refs && Present(x)
    requires Owned(|mem|, rsv, x.ppn) && forall r :: r in refs ==> refs[r].ppn != x.ppn
    requires forall j :: 0 <= j < NPTENTRIES ==> !Present(mem[x.ppn][j])
    ensures var d := refs[Dir(e)].ppn;
            Agree(rsv, kpd, mem[d := mem[d][i := x]], dir, refs[Table(e, i) := x])
  {
    var d := refs[Dir(e)].ppn;
    var mem' := mem[d := mem[d][i := x]];
    var refs' := refs[Table(e, i) := x];
    assert TablesAgree(mem', refs') by { hide LeavesAgree, KernelHalf, DirsAgree; }
    assert LeavesAgree(mem', refs') by { hide KernelHalf, DirsAgree; }
    assert KernelHalf(mem', kpd, refs') by { hide TablesAgree, LeavesAgree, DirsAgree; }
    hide TablesAgree, LeavesAgree, KernelHalf;
  }

  /** Storing a page table entry for the page a kernel local holds. */
  lemma StoreLeaf(rsv: set<nat>, kpd: nat, mem: seq<Words>, dir: seq<Option<nat>>, refs: Refs,
                  e: nat, i: nat, j: nat, x: Entry)
    requires Agree(rsv, kpd, mem, dir, refs) && e < NENV && i < USER_PDES && j < NPTENTRIES
    requires Table(e, i) in refs && Leaf(e, i, j) !in refs && Present(x)
    requires Incoming in refs && refs[Incoming].ppn == x.ppn
    ensures var t := refs[Table(e, i)].ppn;
            Agree(rsv, kpd, mem[t := mem[t][j := x]], dir, (refs - {Incoming})[Leaf(e, i, j) := x])
  {
    var t := refs[Table(e, i)].ppn;
    var mem' := mem[t := mem[t][j := x]];
    var refs' := (refs - {Incoming})[Leaf(e, i, j) := x];
    assert TablesAgree(mem', refs') by { hide LeavesAgree, KernelHalf, DirsAgree; }
    assert LeavesAgree(mem', refs') by { hide KernelHalf, DirsAgree; }
    assert KernelHalf(mem', kpd, refs') by { hide TablesAgree, LeavesAgree, DirsAgree; }
    hide TablesAgree, LeavesAgree, KernelHalf;
  }

  /** Clearing a page table entry; its reference passes to a kernel local. */
  lemma ClearLeaf(rsv: set<nat>, kpd: nat, mem: seq<Words>, dir: seq<Option<nat>>, refs: Refs,
                  e: nat, i: nat, j: nat)
    requires Agree(rsv, kpd, mem, dir, refs)
    requires Leaf(e, i, j) in refs && Outgoing !in refs
    ensures InRange(Leaf(e, i, j)) && Table(e, i) in refs
    ensures var t := refs[Table(e, i)].ppn;
            Agree(rsv, kpd, mem[t := mem[t][j := ZERO]], dir, (refs - {Leaf(e, i, j)})[Outgoing := refs[Leaf(e, i, j)]])
  {
    assert InRange(Leaf(e, i, j)) && !Present(ZERO);
    hide Present;
    var t := refs[Table(e, i)].ppn;
    assert forall s :: s in refs && refs[s].ppn == t ==> s == Table(e, i);
    var mem' := mem[t := mem[t][j := ZERO]];
    var refs' := (refs - {Leaf(e, i, j)})[Outgoing := refs[Leaf(e, i, j)]];
    assert TablesAgree(mem', refs') by { hide LeavesAgree, KernelHalf, DirsAgree; }
    assert LeavesAgree(mem', refs') by { hide KernelHalf, DirsAgree, TablesAgree; }
    assert KernelHalf(mem', kpd, refs') by { hide TablesAgree, LeavesAgree, DirsAgree; }
    hide TablesAgree, LeavesAgree, KernelHalf;
  }

  /** Clearing a directory entry whose page table maps nothing. */
  lemma ClearTable(rsv: set<nat>, kpd: nat, mem: seq<Words>, dir: seq<Option<nat>>, refs: Refs, e: nat, i: nat)
    requires Agree(rsv, kpd, mem, dir, refs)
    requires Table(e, i) in refs && Outgoing !in refs
    requires forall j :: 0 <= j < NPTENTRIES ==> Leaf(e, i, j) !in refs
    ensures InRange(Table(e, i)) && Dir(e) in refs
    ensures var d := refs[Dir(e)].ppn;
            Agree(rsv, kpd, mem[d := mem[d][i := ZERO]], dir, (refs - {Table(e, i)})[Outgoing := refs[Table(e, i)]])
  {
    assert InRange(Table(e, i));
    var d := refs[Dir(e)].ppn;
    var mem' := mem[d := mem[d][i := ZERO]];
    var refs' := (refs - {Table(e, i)})[Outgoing := refs[Table(e, i)]];
    assert TablesAgree(mem', refs') by { hide LeavesAgree, KernelHalf, DirsAgree; }
    assert LeavesAgree(mem', refs') by { hide KernelHalf, DirsAgree; }
    assert KernelHalf(mem', kpd, refs') by { hide TablesAgree, LeavesAgree, DirsAgree; }
    hide TablesAgree, LeavesAgree, KernelHalf;
  }

  /** Giving an environment slot a directory whose user half is empty. */
  lemma InstallDir(rsv: set<nat>, kpd: nat, mem: seq<Words>, dir: seq<Option<nat>>, refs: Refs, e: nat, p: nat, w: Words)
    requires Agree(rsv, kpd, mem, dir, refs) && e < NENV && Dir(e) !in refs
    requires Owned(|mem|, rsv, p) && forall r :: r in refs ==> refs[r].ppn != p
    requires kpd < |mem| && w == mem[kpd][UVPT_PDX := Entry(p, PTE_P | PTE_U)]
    ensures Agree(rsv, kpd, mem[p := w], dir[e := Some(p)], refs[Dir(e) := Entry(p, 0)])
  {
    var mem' := mem[p := w];
    var refs' := refs[Dir(e) := Entry(p, 0)];
    assert DirsAgree(dir[e := Some(p)], refs');
    assert forall i :: 0 <= i < USER_PDES ==> Table(e, i) !in refs;
    assert TablesAgree(mem', refs') by { hide LeavesAgree, KernelHalf, DirsAgree; }
    assert LeavesAgree(mem', refs') by { hide KernelHalf, DirsAgree; }
    assert KernelHalf(mem', kpd, refs') by { hide TablesAgree, LeavesAgree, DirsAgree; }
    hide TablesAgree, LeavesAgree, KernelHalf;
  }

  /** Clearing env_pgdir once the user half of the directory is empty. */
  lemma ClearDir(rsv: set<nat>, kpd: nat, mem: seq<Words>, dir: seq<Option<nat>>, refs: Refs, e: nat)
    requires Agree(rsv, kpd, mem, dir, refs)
    requires Dir(e) in refs && Outgoing !in refs
    requires forall i :: 0 <= i < USER_PDES ==> Table(e, i) !in refs
    ensures InRange(Dir(e))
    ensures Agree(rsv, kpd, mem, dir[e := None], (refs - {Dir(e)})[Outgoing := refs[Dir(e)]])
  {
    assert InRange(Dir(e));
    var refs' := (refs - {Dir(e)})[Outgoing := refs[Dir(e)]];
    assert DirsAgree(dir[e := None], refs');
    assert TablesAgree(mem, refs') by { hide LeavesAgree, KernelHalf, DirsAgree; }
    assert LeavesAgree(mem, refs') by { hide KernelHalf, DirsAgree; }
    assert KernelHalf(mem, kpd, refs') by { hide TablesAgree, LeavesAgree, DirsAgree; }
    hide TablesAgree, LeavesAgree, KernelHalf;
  }

  // ---------------------------------------------------------------- exact counts

  /** Every pp_ref is the number of references to its page, and exactly the pages without one are free;
      `loose` pages were taken off the free list and are not referenced yet. */
  ghost predicate Counts(rsv: set<nat>, ref: seq<nat>, refs: Refs, free: seq<nat>, loose: set<nat>) {
    && (forall p :: p in loose ==> Owned(|ref|, rsv, p) && ref[p] == 0)
    && (forall p :: 0 <= p < |ref| && p !in rsv ==> ref[p] == Count(refs, p) && ref[p] < 0x1_0000)
    && (forall p :: 0 <= p < |ref| && p !in rsv ==> (p in free <==> ref[p] == 0 && p !in loose))
  }

  lemma CountMeans(rsv: set<nat>, ref: seq<nat>, refs: Refs, free: seq<nat>, loose: set<nat>, p: nat)
    requires Counts(rsv, ref, refs, free, loose) && Owned(|ref|, rsv, p)
    ensures ref[p] == Count(refs, p)
    ensures p in free <==> Count(refs, p) == 0 && p !in loose
    ensures p in loose ==> Count(refs, p) == 0
  {}

  /** Referenced pages are not free. */
  lemma ReferencedNotFree(rsv: set<nat>, ref: seq<nat>, refs: Refs, free: seq<nat>, loose: set<nat>)
    requires Counts(rsv, ref, refs, free, loose)
    requires forall p :: p in free ==> Owned(|ref|, rsv, p)
    ensures forall r :: r in refs ==> refs[r].ppn !in free
  {
    forall r | r in refs ensures refs[r].ppn !in free {
      CountZero(refs, refs[r].ppn);
    }
  }

  lemma PopCounts(rsv: set<nat>, ref: seq<nat>, refs: Refs, free: seq<nat>, loose: set<nat>)
    requires Counts(rsv, ref, refs, free, loose) && free != []
    requires Owned(|ref|, rsv, free[0]) && free[0] !in free[1..]
    ensures ref[free[0]] == 0 && free[0] !in loose
    ensures Counts(rsv, ref, refs, free[1..], loose + {free[0]})
    ensures forall r :: r in refs ==> refs[r].ppn != free[0]
  {
    assert free[0] in free;
    assert forall p :: p in free <==> p == free[0] || p in free[1..];
    CountZero(refs, free[0]);
  }

  lemma PushCounts(rsv: set<nat>, ref: seq<nat>, refs: Refs, free: seq<nat>, loose: set<nat>, p: nat)
    requires Counts(rsv, ref, refs, free, loose) && p in loose
    ensures p !in free
    ensures Counts(rsv, ref, refs, [p] + free, loose - {p})
  {
    assert forall q :: q in [p] + free <==> q == p || q in free;
  }

  /** ++ on a uint16_t. */
  function Incremented(n: nat): nat { (n + 1) % 0x1_0000 }

  /** pp_ref++ for a reference about to be stored. */
  lemma TakeCounts(rsv: set<nat>, ref: seq<nat>, refs: Refs, free: seq<nat>, loose: set<nat>, r: Ref, x: Entry)
    requires Counts(rsv, ref, refs, free, loose) && r !in refs
    requires Owned(|ref|, rsv, x.ppn) && x.ppn !in free && ref[x.ppn] < 0xFFFF
    ensures Counts(rsv, ref[x.ppn := ref[x.ppn] + 1], refs[r := x], free, loose - {x.ppn})
  {
    forall p ensures Count(refs[r := x], p) == Count(refs, p) + if x.ppn == p then 1 else 0 {
      CountAdd(refs, r, x, p);
    }
  }

  /** The 16-bit pp_ref++ keeps the counts exact exactly when the page had fewer than 2^16 - 1 references; with
      one more, the count of a page with 2^16 references is 0. */
  lemma IncrementExactIff(rsv: set<nat>, ref: seq<nat>, refs: Refs, free: seq<nat>, loose: set<nat>, r: Ref, x: Entry)
    requires Counts(rsv, ref, refs, free, loose) && r !in refs
    requires Owned(|ref|, rsv, x.ppn) && x.ppn !in free
    ensures var ref' := ref[x.ppn := Incremented(ref[x.ppn])];
            && (Counts(rsv, ref', refs[r := x], free, loose - {x.ppn}) <==> Count(refs, x.ppn) < 0xFFFF)
            && (Count(refs, x.ppn) >= 0xFFFF ==> ref'[x.ppn] == 0 && Count(refs[r := x], x.ppn) == 0x1_0000)
  {
    CountAdd(refs, r, x, x.ppn);
    if Count(refs, x.ppn) < 0xFFFF {
      TakeCounts(rsv, ref, refs, free, loose, r, x);
    }
  }

  lemma MoveCounts(rsv: set<nat>, ref: seq<nat>, refs: Refs, free: seq<nat>, loose: set<nat>, from: Ref, to: Ref, x: Entry)
    requires Counts(rsv, ref, refs, free, loose) && from in refs && to !in refs && x.ppn == refs[from].ppn
    ensures Counts(rsv, ref, (refs - {from})[to := x], free, loose)
  {
    forall p ensures Count((refs - {from})[to := x], p) == Count(refs, p) {
      CountMove(refs, from, to, x, p);
    }
  }

  /** --pp_ref once the reference is gone from memory. */
  lemma DropCounts(rsv: set<nat>, ref: seq<nat>, refs: Refs, free: seq<nat>, loose: set<nat>, r: Ref)
    requires Counts(rsv, ref, refs, free, loose) && r in refs && Owned(|ref|, rsv, refs[r].ppn)
    ensures ref[refs[r].ppn] > 0 && refs[r].ppn !in free && refs[r].ppn !in loose
    ensures var p := refs[r].ppn;
            Counts(rsv, ref[p := ref[p] - 1], refs - {r}, free, if ref[p] == 1 then loose + {p} else loose)
  {
    CountZero(refs, refs[r].ppn);
    forall p ensures Count(refs - {r}, p) == Count(refs, p) - if refs[r].ppn == p then 1 else 0 {
      CountRemove(refs, r, p);
    }
  }
}
