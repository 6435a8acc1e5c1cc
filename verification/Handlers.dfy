/** Who can take a page fault: page_fault_handler in kern/trap.c enters the library's handler only in an
    environment with an upcall and an exception stack, and destroys any other. */
module Handlers {
  import opened Options
  import opened Mmu
  import opened RefCount
  import opened PageInv
  import opened Envs
  import opened Kernels
  import opened AddressSpace
  import opened Cow
  import opened UserView

  const USER_RW := PTE_P | PTE_U | PTE_W
  const FRAME := 56 // sizeof(struct UTrapframe) + 4

  /** Does e have a copy-on-write page? */
  ghost predicate HasCow(L: Refs, e: nat) {
    exists r :: r in L && r.Leaf? && r.e == e && CopyOnWrite(L[r])
  }

  /** Has e an exception stack it can write? */
  ghost predicate StackOk(L: Refs, e: nat) {
    LeafAt(e, UXSTACK) in L && L[LeafAt(e, UXSTACK)].flags | USER_RW == L[LeafAt(e, UXSTACK)].flags
  }

  /** Does a page fault of e reach its handler? */
  ghost predicate Ready(L: Refs, envs: seq<Env>, e: nat)
    requires e < |envs|
  {
    envs[e].upcall != 0 && StackOk(L, e)
  }

  /** Whoever has a copy-on-write page can take the fault of a store to it. */
  ghost predicate Handled(L: Refs, envs: seq<Env>)
    requires |envs| == NENV
  {
    forall e: nat :: e < NENV && HasCow(L, e) ==> Ready(L, envs, e)
  }

  /** lib[e] says whether _pgfault_handler is set in e; set_pgfault_handler has then made a stack. */
  ghost predicate Installed(L: Refs, lib: seq<bool>) {
    |lib| == NENV && forall e: nat :: e < NENV && lib[e] ==> StackOk(L, e)
  }

  /** No environment has gained copy-on-write pages, or lost upcall or stack. */
  ghost predicate NotWorse(L: Refs, envs: seq<Env>, L': Refs, envs': seq<Env>) {
    |envs| == |envs'| == NENV &&
    forall e: nat :: e < NENV ==>
      (HasCow(L', e) ==> HasCow(L, e)) && (StackOk(L, e) ==> StackOk(L', e)) && (envs[e].upcall != 0 ==> envs'[e].upcall != 0)
  }

  lemma NotWorseKeeps(L: Refs, envs: seq<Env>, L': Refs, envs': seq<Env>, lib: seq<bool>)
    requires NotWorse(L, envs, L', envs')
    ensures Handled(L, envs) ==> Handled(L', envs')
    ensures Installed(L, lib) ==> Installed(L', lib)
  {
    hide HasCow, StackOk;
  }

  /** Mapping a writable page of its own anywhere, or removing a page other than a stack, makes nobody worse off. */
  lemma RemapNotWorse(L: Refs, envs: seq<Env>, r: Ref, x: Entry)
    requires |envs| == NENV && r.Leaf? && x.flags == USER_RW
    ensures NotWorse(L, envs, L[r := x], envs)
  {
    assert !CopyOnWrite(x) && x.flags | USER_RW == x.flags;
  }

  lemma RemoveNotWorse(L: Refs, envs: seq<Env>, e: nat, va: nat)
    requires |envs| == NENV && va < USTACKTOP && va % PGSIZE == 0
    ensures NotWorse(L, envs, L - {LeafAt(e, va)}, envs)
  {
    forall f ensures LeafAt(e, va) != LeafAt(f, UXSTACK) { SamePage(e, va, f, UXSTACK); }
  }

  // ---------------------------------------------------------------- fork

  /** What the loop of fork and the child's exception stack come to. */
  ghost predicate ForkedOff(L: Refs, L': Refs, parent: nat, child: nat) {
    && (forall r: Ref :: r.Leaf? && r.e != parent && r.e != child ==>
          (r in L' <==> r in L) && (r in L' ==> L'[r] == L[r]))
    && (forall r: Ref :: r.Leaf? && r.e == parent && Below(r, USTACKTOP) ==>
          (r in L' <==> r in L) && (r in L' ==> L'[r] == Dup(L[r])))
    && (forall r: Ref :: r.Leaf? && r.e == child && Below(r, USTACKTOP) ==>
          (r in L' <==> Twin(r, parent) in L) && (r in L' ==> L'[r] == Dup(L[Twin(r, parent)])))
    && StackOk(L', parent) && StackOk(L', child)
  }

  lemma ForkedIsOff(L: Refs, M: Refs, parent: nat, child: nat, x: Entry)
    requires Forked(L, M, parent, child, USTACKTOP) && parent != child && StackOk(L, parent) && x.flags == USER_RW
    ensures ForkedOff(L, M[LeafAt(child, UXSTACK) := x], parent, child)
  {
    var L', stack := M[LeafAt(child, UXSTACK) := x], LeafAt(parent, UXSTACK);
    assert !Below(stack, USTACKTOP) by { AlignedAddr(UXSTACK); }
    assert stack in M && M[stack] == L[stack];
  }

  /** After fork both sides can take their faults, and everybody else as before. */
  lemma ForkHandled(L: Refs, L': Refs, envs: seq<Env>, envs': seq<Env>, parent: nat, child: nat)
    requires ForkedOff(L, L', parent, child) && |envs| == |envs'| == NENV && parent < NENV && child < NENV
    requires envs'[parent].upcall != 0 && envs'[child].upcall != 0
    requires forall e: nat :: e < NENV && e != parent && e != child ==> envs'[e].upcall == envs[e].upcall
    requires Handled(L, envs)
    ensures Handled(L', envs')
  {
    forall e: nat | e < NENV && HasCow(L', e) ensures Ready(L', envs', e) {
      if e != parent && e != child {
        var r :| r in L' && r.Leaf? && r.e == e && CopyOnWrite(L'[r]);
        assert r in L && HasCow(L, e) && Ready(L, envs, e);
      }
    }
  }

  lemma ForkInstalled(L: Refs, L': Refs, lib: seq<bool>, parent: nat, child: nat)
    requires ForkedOff(L, L', parent, child) && Installed(L, lib) && parent < NENV && child < NENV
    ensures Installed(L', lib[parent := true][child := true])
  {
    forall e: nat | e < NENV && e != parent && e != child ensures StackOk(L, e) ==> StackOk(L', e) {}
  }

  // ---------------------------------------------------------------- fork_v0

  lemma CopiedBits(f: bv32)
    ensures CopiedFlags(f) & PTE_COW == f & PTE_COW
    ensures f | USER_RW == f ==> CopiedFlags(f) | USER_RW == CopiedFlags(f)
  {}

  lemma CopiedTwin(L: Refs, L': Refs, parent: nat, child: nat, r: Ref)
    requires Copied(L, L', parent, child, UTOP) && LeavesOnly(L) && parent != child && r.Leaf? && r.e == child
    ensures r in L' <==> Twin(r, parent) in L
    ensures r in L' ==> L'[r].flags == CopiedFlags(L[Twin(r, parent)].flags)
  {
    if Twin(r, parent) in L {
      assert InRange(Twin(r, parent));
      assert Below(r, UTOP);
    }
  }

  /** The child inherits copy-on-write pages, and the exception stack, but no upcall. */
  lemma CopiedInherits(L: Refs, L': Refs, parent: nat, child: nat)
    requires Copied(L, L', parent, child, UTOP) && LeavesOnly(L) && parent != child
    ensures HasCow(L', child) <==> HasCow(L, parent)
    ensures StackOk(L, parent) ==> StackOk(L', child)
  {
    hide Copied, LeavesOnly;
    if HasCow(L', child) {
      var r :| r in L' && r.Leaf? && r.e == child && CopyOnWrite(L'[r]);
      CopiedTwin(L, L', parent, child, r);
      CopiedBits(L[Twin(r, parent)].flags);
    }
    if HasCow(L, parent) {
      var r :| r in L && r.Leaf? && r.e == parent && CopyOnWrite(L[r]);
      assert Twin(Twin(r, child), parent) == r;
      CopiedTwin(L, L', parent, child, Twin(r, child));
      CopiedBits(L[r].flags);
    }
    var stack := LeafAt(child, UXSTACK);
    assert Twin(stack, parent) == LeafAt(parent, UXSTACK);
    CopiedTwin(L, L', parent, child, stack);
    if StackOk(L, parent) {
      CopiedBits(L[Twin(stack, parent)].flags);
    }
  }

  lemma CopiedOthers(L: Refs, L': Refs, parent: nat, child: nat, e: nat)
    requires Copied(L, L', parent, child, UTOP) && e != child
    ensures HasCow(L', e) <==> HasCow(L, e)
    ensures StackOk(L', e) <==> StackOk(L, e)
  {
    hide Private;
  }

  /** fork_v0 gives its child no upcall. So everybody can still take the faults of stores to copy-on-write
      pages if and only if the parent has no such page. */
  lemma EagerForkHandledIff(L: Refs, L': Refs, envs: seq<Env>, envs': seq<Env>, parent: nat, child: nat)
    requires Copied(L, L', parent, child, UTOP) && LeavesOnly(L) && parent != child && child < NENV
    requires |envs| == |envs'| == NENV && envs'[child].upcall == 0
    requires forall e: nat :: e < NENV && e != child ==> envs'[e].upcall == envs[e].upcall
    requires Handled(L, envs) && NoLeaves(L, child)
    ensures Handled(L', envs') <==> !HasCow(L, parent)
  {
    CopiedInherits(L, L', parent, child);
    hide Copied, LeavesOnly, HasCow, StackOk;
    forall e: nat | e < NENV && e != child ensures HasCow(L', e) ==> Ready(L', envs', e) {
      CopiedOthers(L, L', parent, child, e);
    }
  }

  lemma EagerForkInstalled(L: Refs, L': Refs, lib: seq<bool>, parent: nat, child: nat)
    requires Copied(L, L', parent, child, UTOP) && LeavesOnly(L) && parent != child && parent < NENV && child < NENV
    requires Installed(L, lib)
    ensures Installed(L', lib[child := lib[parent]])
  {
    CopiedInherits(L, L', parent, child);
    hide Copied, LeavesOnly, StackOk;
    forall e: nat | e < NENV && e != child && lib[e] ensures StackOk(L', e) {
      CopiedOthers(L, L', parent, child, e);
    }
  }

  // ---------------------------------------------------------------- the kernel's test

  /** May user code write all 56 bytes below UXSTACKTOP, where page_fault_handler puts its frame? */
  ghost predicate FrameWritable(k: Kernel, e: nat)
    reads k, k.mem, k.envPgdir
  {
    forall a: nat :: UTOP - 56 <= a < UTOP ==> Stores(View(k, e, a))
  }

  lemma StackMeans(k: Kernel, e: nat)
    requires k.Valid() && e < NENV
    ensures StackOk(Leaves(k.refs), e) <==> FrameWritable(k, e)
    ensures StackOk(Leaves(k.refs), e) <==> Stores(View(k, e, UXSTACK))
  {
    ViewIsFlat(k);
    StackFlat(k, e);
    forall a: nat | UTOP - 56 <= a < UTOP ensures Flat(k.refs, e, a) == Flat(k.refs, e, UXSTACK) {
      SamePage(e, a, e, UXSTACK);
    }
    assert View(k, e, UTOP - 1) == Flat(k.refs, e, UTOP - 1);
  }

  lemma StackFlat(k: Kernel, e: nat)
    requires k.Valid() && e < NENV
    ensures StackOk(Leaves(k.refs), e) <==> Stores(Flat(k.refs, e, UXSTACK))
  {
    hide FreeList, Counts, Chain, TableOk, Agree;
    var r := LeafAt(e, UXSTACK);
    if r in k.refs {
      assert OpenEntry(r, k.refs[r]);
      StackBits(k.refs[r]);
      RightsBits(k.refs[r]);
      PteMeans(k.reserved, k.kernPgdir, k.mem[..], k.envPgdir[..], k.refs, e, Pdx(UXSTACK), Ptx(UXSTACK));
    }
  }

  lemma RightsBits(x: Entry)
    ensures x.flags | USER_RW == x.flags <==> Present(x) && UserBit(x) && Writable(x)
  {}

  lemma StackBits(x: Entry)
    ensures x.flags | (PTE_U | PTE_P | PTE_W) | PTE_P == x.flags <==> x.flags | USER_RW == x.flags
    ensures x.flags | USER_RW == x.flags ==> Present(x)
  {}

  lemma AccessMeans(mem: seq<Words>, d: nat, q: nat, perm: bv32)
    requires q * PGSIZE < UTOP
    ensures UserAccessible(mem, d, q, perm) <==>
              var pte := HardwareWalk(mem, d, q * PGSIZE); pte.Some? && pte.value.flags | perm | PTE_P == pte.value.flags
  {}

  /** user_mem_assert(curenv, UXSTACKTOP - FRAME, FRAME, PTE_U | PTE_P | PTE_W) looks at the one page below
      UXSTACKTOP, */
  lemma FramePage()
    ensures (UTOP - FRAME) / PGSIZE == UXSTACK / PGSIZE && EndPage(UTOP - FRAME, FRAME) == UXSTACK / PGSIZE + 1
  {}

  /** and passes exactly if the environment has an exception stack it can write. */
  lemma FrameFits(rsv: set<nat>, kpd: nat, mem: seq<Words>, dir: seq<Option<nat>>, refs: Refs, e: nat)
    requires Agree(rsv, kpd, mem, dir, refs) && e < NENV && Dir(e) in refs
    ensures UserAccessible(mem, refs[Dir(e)].ppn, UXSTACK / PGSIZE, PTE_U | PTE_P | PTE_W) <==> StackOk(Leaves(refs), e)
  {
    hide Agree, HardwareWalk, LeafAt, Leaves, UserAccessible, Present;
    WalkIsFlat(rsv, kpd, mem, dir, refs, e, UXSTACK);
    assert UXSTACK / PGSIZE * PGSIZE == UXSTACK;
    var pte, perm := HardwareWalk(mem, refs[Dir(e)].ppn, UXSTACK), PTE_U | PTE_P | PTE_W;
    AccessMeans(mem, refs[Dir(e)].ppn, UXSTACK / PGSIZE, perm);
    if pte.Some? {
      StackBits(pte.value);
    }
  }
}
