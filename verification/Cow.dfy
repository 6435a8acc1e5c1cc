/** Copy-on-write sharing on flat page maps: the invariant of lib/fork.c, what each environment sees, and
    the memory model without sharing that it must be indistinguishable from. */
module Cow {
  import opened Options
  import opened Mmu
  import opened RefCount
  import opened PageInv
  import opened Kernels
  import opened AddressSpace

  predicate Below(r: Ref, limit: nat) { r.Leaf? && PgAddr(r.i, r.j) < limit }

  /** The same virtual page in environment e. */
  function Twin(r: Ref, e: nat): Ref
    requires r.Leaf?
  {
    Leaf(e, r.i, r.j)
  }

  ghost function PageData(data: seq<Bytes>, p: nat): Bytes {
    if p < |data| then data[p] else ZeroPage()
  }

  type Memory = map<Ref, Bytes>

  /** What every environment reads at every page it has mapped below USTACKTOP. */
  ghost function Visible(leaves: Refs, data: seq<Bytes>): Memory {
    map r | r in leaves && Below(r, USTACKTOP) :: PageData(data, leaves[r].ppn)
  }

  /** A physical page with two or more mappings is writable in none of them. */
  ghost predicate CowInv(leaves: Refs) {
    forall r, s :: r in leaves && s in leaves && r != s && leaves[r].ppn == leaves[s].ppn ==> !Writable(leaves[r])
  }

  /** The two scratch addresses of the library are not in use. */
  ghost predicate NoTemps(leaves: Refs) {
    forall e :: LeafAt(e, PFTEMP) !in leaves && LeafAt(e, UTEMP) !in leaves
  }

  ghost predicate NoLeaves(leaves: Refs, e: nat) { forall i, j :: Leaf(e, i, j) !in leaves }

  ghost predicate LeavesOnly(leaves: Refs) { forall r :: r in leaves ==> r.Leaf? && InRange(r) }

  /** No other mapping shares the page that r maps. */
  ghost predicate Private(refs: Refs, r: Ref) {
    r in refs && forall s :: s in refs && s != r ==> refs[s].ppn != refs[r].ppn
  }

  ghost predicate Unmapped(leaves: Refs, p: nat) { forall r :: r in leaves ==> leaves[r].ppn != p }

  /** Every referenced page has the same contents. */
  ghost predicate DataKept(refs: Refs, data: seq<Bytes>, data': seq<Bytes>) {
    forall r :: r in refs ==> PageData(data', refs[r].ppn) == PageData(data, refs[r].ppn)
  }

  // ---------------------------------------------------------------- memory without sharing

  /** The pages of `parent`, as pages of `child`. */
  ghost function Twins(v: Memory, parent: nat, child: nat): (s: set<Ref>)
    ensures forall r :: r in s <==> r.Leaf? && r.e == child && Twin(r, parent) in v
  {
    assert forall r: Ref :: r.Leaf? && r.e == child && Twin(r, parent) in v ==> r == Twin(Twin(r, parent), child);
    set r | r in v && r.Leaf? && r.e == parent :: Leaf(child, r.i, r.j)
  }

  /** fork as if it copied every page. */
  ghost function IdealFork(v: Memory, parent: nat, child: nat): Memory {
    v + map r | r in Twins(v, parent, child) :: v[Twin(r, parent)]
  }

  ghost function IdealWrite(v: Memory, r: Ref, off: nat, b: Byte): Memory
    requires r in v && off < PGSIZE
  {
    v[r := v[r][off := b]]
  }

  // ---------------------------------------------------------------- frames

  /** Writing pages that nobody has mapped changes nothing anybody sees. */
  lemma VisibleFrame(leaves: Refs, data: seq<Bytes>, data': seq<Bytes>)
    requires forall r :: r in leaves ==> PageData(data', leaves[r].ppn) == PageData(data, leaves[r].ppn)
    ensures Visible(leaves, data') == Visible(leaves, data)
  {}

  /** A mapping of a page nobody else maps keeps the invariant, whatever its permissions. */
  lemma PrivateKeepsCow(leaves: Refs, r: Ref, x: Entry)
    requires CowInv(leaves) && forall s :: s in leaves && s != r ==> leaves[s].ppn != x.ppn
    ensures CowInv(leaves[r := x])
  {}

  lemma RemoveKeepsCow(leaves: Refs, r: Ref)
    requires CowInv(leaves)
    ensures CowInv(leaves - {r})
  {}

  /** pgfault: giving a page a private copy of itself changes nothing anybody sees. */
  lemma PrivateCopy(leaves: Refs, data: seq<Bytes>, data': seq<Bytes>, r: Ref, x: Entry)
    requires r in leaves && forall s :: s in leaves ==> leaves[s].ppn != x.ppn
    requires forall s :: s in leaves ==> PageData(data', leaves[s].ppn) == PageData(data, leaves[s].ppn)
    requires PageData(data', x.ppn) == PageData(data, leaves[r].ppn)
    ensures Visible(leaves[r := x], data') == Visible(leaves, data)
  {}

  /** A store through a writable mapping is seen by its environment alone. */
  lemma StoreIsPrivate(leaves: Refs, data: seq<Bytes>, r: Ref, off: nat, b: Byte)
    requires CowInv(leaves) && r in leaves && Below(r, USTACKTOP) && Writable(leaves[r])
    requires leaves[r].ppn < |data| && off < PGSIZE
    ensures var p := leaves[r].ppn;
            Visible(leaves, data[p := data[p][off := b]]) == IdealWrite(Visible(leaves, data), r, off, b)
  {}

  // ---------------------------------------------------------------- the loop of fork

  function DupFlags(f: bv32): bv32 {
    (f & (PTE_SYSCALL | PTE_COW) & !PTE_W) |
    (if f & PTE_W != 0 || f & PTE_COW != 0 then PTE_COW else 0)
  }

  /** The entry duppage leaves in both address spaces. */
  function Dup(x: Entry): Entry { Entry(x.ppn, DupFlags(x.flags) | PTE_P | PTE_U) }

  /** duppage passes only allowed bits, never asks for write access, and marks copy-on-write exactly the
      pages that were writable or copy-on-write. */
  lemma DupIsShared(x: Entry)
    ensures !BadPerm(DupFlags(x.flags)) && DupFlags(x.flags) & PTE_W == 0
    ensures !Writable(Dup(x)) && Present(Dup(x))
    ensures CopyOnWrite(Dup(x)) <==> Writable(x) || CopyOnWrite(x)
    ensures Dup(Dup(x)) == Dup(x)
    ensures Dup(x).ppn == x.ppn && UserBit(Dup(x)) && Dup(x).flags & PTE_AVAIL & !PTE_COW == x.flags & PTE_AVAIL & !PTE_COW
  {}

  /** State of the mappings when the loop of fork has reached address `cur`. */
  ghost predicate Forked(before: Refs, leaves: Refs, parent: nat, child: nat, cur: nat) {
    && (forall r :: r in leaves ==> r.Leaf? && InRange(r))
    && (forall r: Ref :: r.Leaf? && r.e != parent && r.e != child ==>
          (r in leaves <==> r in before) && (r in leaves ==> leaves[r] == before[r]))
    && (forall r: Ref :: r.Leaf? && r.e == parent ==>
          (r in leaves <==> r in before)
          && (r in leaves ==> leaves[r] == if Below(r, cur) then Dup(before[r]) else before[r]))
    && (forall r: Ref :: r.Leaf? && r.e == child ==>
          (r in leaves <==> Twin(r, parent) in before && Below(r, cur))
          && (r in leaves ==> leaves[r] == Dup(before[Twin(r, parent)])))
  }

  lemma BelowStep(r: Ref, cur: nat)
    requires r.Leaf? && InRange(r) && cur % PGSIZE == 0
    ensures Below(r, cur + PGSIZE) <==> Below(r, cur) || r == LeafAt(r.e, cur)
  {
    PgAddrInverse(r.i, r.j);
    AlignedAddr(cur);
    assert PgAddr(r.i, r.j) == PGSIZE * (r.i * NPTENTRIES + r.j);
  }

  lemma ForkStart(before: Refs, parent: nat, child: nat)
    requires LeavesOnly(before) && parent != child && NoLeaves(before, child)
    ensures Forked(before, before, parent, child, 0)
  {}

  lemma ForkStep(before: Refs, leaves: Refs, parent: nat, child: nat, cur: nat)
    requires LeavesOnly(before) && parent != child && child < NENV && cur % PGSIZE == 0 && cur < UTOP
    requires Forked(before, leaves, parent, child, cur)
    ensures var r := LeafAt(parent, cur);
            if r in before then
              r in leaves && leaves[r] == before[r] &&
              Forked(before, leaves[LeafAt(child, cur) := Dup(before[r])][r := Dup(before[r])], parent, child, cur + PGSIZE)
            else r !in leaves && Forked(before, leaves, parent, child, cur + PGSIZE)
  {
    var here := LeafAt(parent, cur);
    AlignedAddr(cur);
    assert InRange(LeafAt(child, cur));
    assert !Below(here, cur);
    forall r: Ref | r.Leaf? && InRange(r) ensures Below(r, cur + PGSIZE) <==> Below(r, cur) || r == LeafAt(r.e, cur) {
      BelowStep(r, cur);
    }
    if here in before {
      var x := Dup(before[here]);
      var after := leaves[LeafAt(child, cur) := x][here := x];
      forall r: Ref | r.Leaf? && r.e == child
        ensures (r in after <==> Twin(r, parent) in before && Below(r, cur + PGSIZE))
                && (r in after ==> after[r] == Dup(before[Twin(r, parent)]))
      {
        assert r == LeafAt(child, cur) <==> Twin(r, parent) == here;
        assert Twin(r, parent) in before ==> InRange(r);
      }
    } else {
      forall r: Ref | r.Leaf? && r.e == child
        ensures Twin(r, parent) in before ==> (Below(r, cur + PGSIZE) <==> Below(r, cur))
      {
        assert r == LeafAt(child, cur) <==> Twin(r, parent) == here;
        assert Twin(r, parent) in before ==> InRange(r);
      }
    }
  }

  /** At every point of the loop, shared pages are writable nowhere. */
  lemma ForkedCow(before: Refs, leaves: Refs, parent: nat, child: nat, cur: nat)
    requires Forked(before, leaves, parent, child, cur) && CowInv(before) && parent != child
    ensures CowInv(leaves)
  {
    forall r, s | r in leaves && s in leaves && r != s && leaves[r].ppn == leaves[s].ppn
      ensures !Writable(leaves[r])
    {
      var r0 := if r.e == child then Twin(r, parent) else r;
      var s0 := if s.e == child then Twin(s, parent) else s;
      DupIsShared(before[r0]);
      if leaves[r] == before[r0] && r.e != child && r0 == s0 {
        assert s.e == child && Below(r, cur);
      }
    }
  }

  /** When the loop is done, the child sees a copy of everything its parent sees, and nobody else sees
      any difference. */
  lemma ForkedVisible(before: Refs, leaves: Refs, data: seq<Bytes>, data': seq<Bytes>, parent: nat, child: nat)
    requires Forked(before, leaves, parent, child, USTACKTOP) && parent != child
    requires LeavesOnly(before) && NoLeaves(before, child)
    requires forall r :: r in before ==> PageData(data', before[r].ppn) == PageData(data, before[r].ppn)
    ensures Visible(leaves, data') == IdealFork(Visible(before, data), parent, child)
  {
    hide Forked, PgAddr;
    var v, w := Visible(before, data), Visible(leaves, data');
    var u := IdealFork(v, parent, child);
    forall r ensures (r in u <==> r in w) && (r in w ==> u[r] == w[r]) {
      if r.Leaf? {
        ForkedEntry(before, leaves, parent, child, r);
      }
    }
  }

  lemma ForkedEntry(before: Refs, leaves: Refs, parent: nat, child: nat, r: Ref)
    requires Forked(before, leaves, parent, child, USTACKTOP) && parent != child && r.Leaf?
    ensures var o := if r.e == child then Twin(r, parent) else r;
            && (Below(o, USTACKTOP) <==> Below(r, USTACKTOP))
            && (r in leaves && Below(r, USTACKTOP) <==> o in before && Below(o, USTACKTOP))
            && (r in leaves ==> leaves[r].ppn == before[o].ppn)
  {}

  /** At every earlier point, what was visible stays visible. */
  lemma ForkedPartly(before: Refs, leaves: Refs, data: seq<Bytes>, data': seq<Bytes>, parent: nat, child: nat, cur: nat)
    requires Forked(before, leaves, parent, child, cur) && parent != child
    requires LeavesOnly(before) && NoLeaves(before, child)
    requires forall r :: r in before ==> PageData(data', before[r].ppn) == PageData(data, before[r].ppn)
    ensures Unharmed(Visible(before, data), Visible(leaves, data'))
  {}

  ghost predicate Unharmed(v: Memory, w: Memory) {
    forall r :: r in v ==> r in w && w[r] == v[r]
  }

  // ---------------------------------------------------------------- the loop of fork_v0

  /** The flags of the child's entry: dup_or_share passes on what sys_page_map allows, copy-on-write included. */
  function CopiedFlags(f: bv32): bv32 { (f & PTE_SYSCALL) | PTE_P | PTE_U }

  /** State of the mappings when the loop of fork_v0 has reached address `cur`: the child maps the parent's
      page, or a page of its own. */
  ghost predicate Copied(before: Refs, leaves: Refs, parent: nat, child: nat, cur: nat) {
    && (forall r :: r in leaves ==> r.Leaf? && InRange(r))
    && (forall r: Ref :: r.Leaf? && r.e != child ==>
          (r in leaves <==> r in before) && (r in leaves ==> leaves[r] == before[r]))
    && (forall r: Ref :: r.Leaf? && r.e == child ==>
          (r in leaves <==> Twin(r, parent) in before && Below(r, cur))
          && (r in leaves ==> leaves[r].flags == CopiedFlags(before[Twin(r, parent)].flags))
          && (r in leaves ==> leaves[r].ppn == before[Twin(r, parent)].ppn || Private(leaves, r)))
  }

  /** Whatever page the child maps holds what the parent's page held. */
  ghost predicate SameData(before: Refs, leaves: Refs, data: seq<Bytes>, data': seq<Bytes>, parent: nat, child: nat) {
    forall r: Ref :: r in leaves && r.Leaf? && r.e == child && Twin(r, parent) in before ==>
      PageData(data', leaves[r].ppn) == PageData(data, before[Twin(r, parent)].ppn)
  }

  lemma CopyStart(before: Refs, data: seq<Bytes>, parent: nat, child: nat)
    requires LeavesOnly(before) && parent != child && NoLeaves(before, child)
    ensures Copied(before, before, parent, child, 0)
    ensures SameData(before, before, data, data, parent, child)
  {
    forall r: Ref | r.Leaf? && r.e == child ensures r !in before {
      assert r == Leaf(child, r.i, r.j);
    }
  }

  lemma CopySkip(before: Refs, leaves: Refs, parent: nat, child: nat, cur: nat)
    requires LeavesOnly(before) && cur % PGSIZE == 0
    requires Copied(before, leaves, parent, child, cur) && LeafAt(parent, cur) !in before
    ensures Copied(before, leaves, parent, child, cur + PGSIZE)
  {
    AlignedAddr(cur);
    forall r: Ref | r.Leaf? && r.e == child && Twin(r, parent) in before
      ensures Below(r, cur + PGSIZE) <==> Below(r, cur)
    {
      assert InRange(Twin(r, parent));
      BelowStep(Twin(r, parent), cur);
      assert Twin(r, parent) != LeafAt(parent, cur);
    }
  }

  lemma CopyStep(before: Refs, leaves: Refs, parent: nat, child: nat, cur: nat, x: Entry)
    requires LeavesOnly(before) && parent != child && child < NENV && cur % PGSIZE == 0 && cur < UTOP
    requires Copied(before, leaves, parent, child, cur) && LeafAt(parent, cur) in before
    requires x.ppn == before[LeafAt(parent, cur)].ppn || Unmapped(leaves, x.ppn)
    requires x.flags == CopiedFlags(before[LeafAt(parent, cur)].flags)
    ensures LeafAt(child, cur) !in leaves
    ensures Copied(before, leaves[LeafAt(child, cur) := x], parent, child, cur + PGSIZE)
  {
    var here, there := LeafAt(parent, cur), LeafAt(child, cur);
    var after := leaves[there := x];
    AlignedAddr(cur);
    assert !Below(there, cur);
    assert here in leaves && leaves[here] == before[here];
    forall r: Ref | r.Leaf? && r.e == child
      ensures r in after <==> Twin(r, parent) in before && Below(r, cur + PGSIZE)
      ensures r in after ==> after[r].flags == CopiedFlags(before[Twin(r, parent)].flags)
      ensures r in after ==> after[r].ppn == before[Twin(r, parent)].ppn || Private(after, r)
    {
      assert r == there <==> Twin(r, parent) == here;
      if Twin(r, parent) in before {
        assert InRange(Twin(r, parent));
        BelowStep(Twin(r, parent), cur);
      }
    }
  }

  lemma SameDataStep(before: Refs, leaves: Refs, data0: seq<Bytes>, data: seq<Bytes>, data': seq<Bytes>,
                     parent: nat, child: nat, cur: nat, x: Entry)
    requires SameData(before, leaves, data0, data, parent, child) && DataKept(leaves, data, data')
    requires LeafAt(parent, cur) in before
    requires PageData(data', x.ppn) == PageData(data0, before[LeafAt(parent, cur)].ppn)
    ensures SameData(before, leaves[LeafAt(child, cur) := x], data0, data', parent, child)
  {
    assert Twin(LeafAt(child, cur), parent) == LeafAt(parent, cur);
  }

  /** When that loop is done the child sees a copy of everything its parent sees below USTACKTOP. */
  lemma CopiedVisible(before: Refs, leaves: Refs, data: seq<Bytes>, data': seq<Bytes>, parent: nat, child: nat)
    requires Copied(before, leaves, parent, child, UTOP) && parent != child && LeavesOnly(before) && NoLeaves(before, child)
    requires DataKept(before, data, data') && SameData(before, leaves, data, data', parent, child)
    ensures Visible(leaves, data') == IdealFork(Visible(before, data), parent, child)
  {
    hide PgAddr, Private;
    var v, w := Visible(before, data), Visible(leaves, data');
    var u := IdealFork(v, parent, child);
    forall r ensures (r in u <==> r in w) && (r in w ==> u[r] == w[r]) {
      if r.Leaf? && r.e == child {
        assert Below(Twin(r, parent), USTACKTOP) <==> Below(r, USTACKTOP);
        assert Below(r, USTACKTOP) ==> Below(r, UTOP);
        assert r == Leaf(child, r.i, r.j);
      }
    }
  }

  lemma CopiedPartly(before: Refs, leaves: Refs, data: seq<Bytes>, data': seq<Bytes>)
    requires DataKept(before, data, data') && forall r :: r in before ==> r in leaves && leaves[r].ppn == before[r].ppn
    ensures Unharmed(Visible(before, data), Visible(leaves, data'))
  {}
}
