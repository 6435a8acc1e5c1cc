/** Fork and stores as the processor shows them to user code: what each environment reads at each address, from the page
    tables and pages in memory (lib/fork.c). */
module ForkViews {
  import opened Options
  import opened Mmu
  import opened RefCount
  import opened PageInv
  import opened Envs
  import opened Kernels
  import opened AddressSpace
  import opened Cow
  import opened Handlers
  import opened SharedCounts
  import opened UserView
  import opened Forks

  /** What user code in e reads on the page of va, if it can. */
  ghost function Reads(k: Kernel, e: nat, va: nat): Option<Bytes>
    reads k, k.mem, k.envPgdir, k.data
  {
    var a := View(k, e, va);
    if a.Some? && a.value.user && a.value.page < k.data.Length then Some(k.data[a.value.page]) else None
  }

  ghost function Held(v: Memory, e: nat, va: nat): Option<Bytes> {
    if LeafAt(e, va) in v then Some(v[LeafAt(e, va)]) else None
  }

  lemma ReadsSeen(k: Kernel)
    requires k.Valid()
    ensures forall e: nat, va: nat :: e < NENV && va < USTACKTOP ==> Reads(k, e, va) == Held(Seen(k), e, va)
  {
    hide Agree, FreeList, Counts, Chain, TableOk, Open, Translate, Seen;
    forall e: nat, va: nat | e < NENV && va < USTACKTOP ensures Reads(k, e, va) == Held(Seen(k), e, va) {
      SeenIsRead(k, e, va);
    }
  }

  lemma ForkEntries(v: Memory, parent: nat, child: nat)
    requires parent != child && forall r :: r in v && r.Leaf? ==> r.e != child
    ensures forall e: nat, va: nat ::
              Held(IdealFork(v, parent, child), e, va) == if e == child then Held(v, parent, va) else Held(v, e, va)
  {
    var u := IdealFork(v, parent, child);
    forall e: nat, va: nat
      ensures Held(u, e, va) == if e == child then Held(v, parent, va) else Held(v, e, va)
    {
      assert Twin(LeafAt(child, va), parent) == LeafAt(parent, va);
    }
  }

  lemma FreeSlotUnseen(k: Kernel, e: nat)
    requires k.Valid() && k.efree != [] && e == k.efree[0]
    ensures e < NENV && k.envs[e].status == Free && forall r :: r in Seen(k) && r.Leaf? ==> r.e != e
  {
    assert e in k.efree;
    assert Dir(e) !in k.refs;
    forall r | r in Seen(k) && r.Leaf? ensures r.e != e {
      assert r in k.refs && InRange(r);
      PteMeans(k.reserved, k.kernPgdir, k.mem[..], k.envPgdir[..], k.refs, r.e, r.i, r.j);
    }
    hide *;
  }

  /** fork or fork_v0: the child, which was nobody, reads what the parent reads, and everybody else, the parent
      included, what they read before. */
  method ForkReads(k: Kernel, eager: bool, first: bool, upcall: nat) returns (ok: bool, child: nat)
    requires k.HasCurrent() && Sharing(Leaves(k.refs)) && Shareable(k.refs, k.curenv.value) && upcall != 0
    requires first || StackOk(Leaves(k.refs), k.curenv.value)
    modifies k`pageFreeList, k`free, k`loose, k`refs, k`envFreeList, k`efree, k.ppLink, k.ppRef, k.mem, k.data,
             k.envPgdir, k.envs
    ensures !ok ==> k.efree == [] || Scarce(k)
    ensures ok ==>
              && k.HasCurrent() && Sharing(Leaves(k.refs)) && k.curenv.value < NENV
              && child < NENV && child != k.curenv.value && old(k.envs[..])[child].status == Free && k.envs[child].status == Runnable
              && forall e: nat, va: nat :: e < NENV && va < USTACKTOP ==>
                   Reads(k, e, va) == if e == child then old(Reads(k, k.curenv.value, va)) else old(Reads(k, e, va))
  {
    hide Agree, FreeList, Counts, Chain, TableOk, Open, Translate, Seen, Sharing, Shareable, IdealFork, Held, Reads, ForkedOff, Copied, Handled, HasCow, NoLeaves, LeavesOnly, Handlers.StackOk;
    ghost var v, c := Seen(k), k.curenv.value;
    ReadsSeen(k);
    if k.efree != [] {
      FreeSlotUnseen(k, k.efree[0]);
      if k.efree[0] != c {
        ForkEntries(v, c, k.efree[0]);
      }
    }
    if eager {
      ok, child := ForkV0(k);
    } else {
      ok, child := Fork(k, first, upcall);
    }
    if ok {
      ReadsSeen(k);
    }
  }

  lemma WriteEntries(v: Memory, e0: nat, va0: nat, b: Byte)
    requires LeafAt(e0, va0) in v
    ensures forall e: nat, va: nat ::
              Held(IdealWrite(v, LeafAt(e0, va0), va0 % PGSIZE, b), e, va) ==
                if e == e0 && va / PGSIZE == va0 / PGSIZE then Some(v[LeafAt(e0, va0)][va0 % PGSIZE := b]) else Held(v, e, va)
  {
    forall e: nat, va: nat
      ensures Held(IdealWrite(v, LeafAt(e0, va0), va0 % PGSIZE, b), e, va) ==
                if e == e0 && va / PGSIZE == va0 / PGSIZE then Some(v[LeafAt(e0, va0)][va0 % PGSIZE := b]) else Held(v, e, va)
    {
      SamePage(e, va, e0, va0);
    }
  }

  /** A store that is done, with or without a fault on the way, changes one byte that its own environment reads, and
      nothing else that anybody reads. */
  method StoreReads(k: Kernel, va0: nat, b: Byte) returns (out: Outcome)
    requires k.HasCurrent() && Sharing(Leaves(k.refs)) && va0 < USTACKTOP
    modifies k, k.ppLink, k.ppRef, k.mem, k.data, k.envLink, k.envPgdir, k.envs
    ensures k.Valid() && Sharing(Leaves(k.refs))
    ensures out == Done ==>
              && k.curenv == old(k.curenv) && k.curenv.Some? && k.curenv.value < NENV && old(Reads(k, k.curenv.value, va0)).Some?
              && forall e: nat, va: nat :: e < NENV && va < USTACKTOP ==>
                   Reads(k, e, va) ==
                     if e == k.curenv.value && va / PGSIZE == va0 / PGSIZE
                     then Some(old(Reads(k, k.curenv.value, va0)).value[va0 % PGSIZE := b]) else old(Reads(k, e, va))
  {
    hide Agree, FreeList, Counts, Chain, TableOk, Open, Translate, Seen, Sharing, IdealWrite, Held, Reads, NotWorse, StoreOutcome, FrameWritable;
    ghost var v, c := Seen(k), k.curenv.value;
    ReadsSeen(k);
    SeenOrNot(v, c, va0);
    if LeafAt(c, va0) in v {
      WriteEntries(v, c, va0, b);
    }
    out := Store(k, va0, b);
    if out == Done {
      ReadsSeen(k);
    }
  }

  lemma SeenOrNot(v: Memory, e: nat, va: nat)
    ensures LeafAt(e, va) in v ==> Held(v, e, va) == Some(v[LeafAt(e, va)])
  {}
}
