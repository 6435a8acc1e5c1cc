/** What the invariant says to someone who looks at memory: reference counts against a walk of every page
    table, the two-level tables against a flat map, and what freeing an address space gives back. */
module AddressSpace {
  import opened Options
  import opened Mmu
  import opened RefCount
  import opened PageInv
  import opened Kernels

  // ---------------------------------------------------------------- counting by walking memory

  predicate PdePresent(mem: seq<Words>, dir: seq<Option<nat>>, e: nat, i: nat) {
    e < |dir| && i < USER_PDES && dir[e].Some? && dir[e].value < |mem| && Present(mem[dir[e].value][i])
  }

  predicate PtePresent(mem: seq<Words>, dir: seq<Option<nat>>, e: nat, i: nat, j: nat) {
    PdePresent(mem, dir, e, i) && j < NPTENTRIES
    && var t := mem[dir[e].value][i].ppn; t < |mem| && Present(mem[t][j])
  }

  /** Everything in memory that refers to page p: env_pgdir fields, user directory entries, user page
      table entries. */
  ghost function FoundRefs(mem: seq<Words>, dir: seq<Option<nat>>, p: nat): set<Ref> {
    (set e: nat | e < |dir| && dir[e] == Some(p) :: Dir(e))
    + (set e: nat, i: nat | e < |dir| && i < USER_PDES && PdePresent(mem, dir, e, i)
                            && mem[dir[e].value][i].ppn == p :: Table(e, i))
    + (set e: nat, i: nat, j: nat | e < |dir| && i < USER_PDES && j < NPTENTRIES && PtePresent(mem, dir, e, i, j)
                                    && mem[mem[dir[e].value][i].ppn][j].ppn == p :: Leaf(e, i, j))
  }

  /** Exact reference counts: outside the reserved set pp_ref is the number of references found by walking
      all page tables, and a page is on the free list exactly when there are none. */
  lemma ExactReferences(rsv: set<nat>, kpd: nat, mem: seq<Words>, dir: seq<Option<nat>>, ref: seq<nat>,
                        refs: Refs, free: seq<nat>, p: nat)
    requires Agree(rsv, kpd, mem, dir, refs) && Counts(rsv, ref, refs, free, {})
    requires Incoming !in refs && Outgoing !in refs
    requires Owned(|ref|, rsv, p)
    ensures ref[p] == |FoundRefs(mem, dir, p)|
    ensures p in free <==> FoundRefs(mem, dir, p) == {}
  {
    FoundIsReferred(rsv, kpd, mem, dir, refs, p);
    assert FoundRefs(mem, dir, p) == {} <==> |FoundRefs(mem, dir, p)| == 0;
  }

  lemma FoundIsReferred(rsv: set<nat>, kpd: nat, mem: seq<Words>, dir: seq<Option<nat>>, refs: Refs, p: nat)
    requires Agree(rsv, kpd, mem, dir, refs) && Incoming !in refs && Outgoing !in refs
    ensures FoundRefs(mem, dir, p) == Referrers(refs, p)
  {
    forall r ensures r in FoundRefs(mem, dir, p) <==> r in Referrers(refs, p) {
      RefIsFound(rsv, kpd, mem, dir, refs, r);
    }
  }

  lemma RefIsFound(rsv: set<nat>, kpd: nat, mem: seq<Words>, dir: seq<Option<nat>>, refs: Refs, r: Ref)
    requires Agree(rsv, kpd, mem, dir, refs)
    ensures match r
            case Dir(e) =>
              (r in refs <==> e < |dir| && dir[e].Some?) && (r in refs ==> dir[e] == Some(refs[r].ppn))
            case Table(e, i) =>
              (r in refs <==> PdePresent(mem, dir, e, i)) && (r in refs ==> mem[dir[e].value][i] == refs[r])
            case Leaf(e, i, j) =>
              (r in refs <==> PtePresent(mem, dir, e, i, j))
              && (r in refs ==> mem[mem[dir[e].value][i].ppn][j] == refs[r])
            case _ => true
    decreases if r.Leaf? then 2 else if r.Table? then 1 else 0
  {
    match r
    case Dir(e) => assert r in refs ==> InRange(r);
    case Table(e, i) =>
      assert r in refs ==> InRange(r);
      if e < NENV { RefIsFound(rsv, kpd, mem, dir, refs, Dir(e)); }
    case Leaf(e, i, j) =>
      assert r in refs ==> InRange(r);
      if e < NENV && i < USER_PDES {
        RefIsFound(rsv, kpd, mem, dir, refs, Table(e, i));
        if j < NPTENTRIES { PteMeans(rsv, kpd, mem, dir, refs, e, i, j); }
      }
    case _ =>
  }

  /** env_free gives back exactly the pages whose every reference belonged to the environment. */
  lemma FreedExactly(rsv: set<nat>, ref: seq<nat>, ref': seq<nat>, refs: Refs, free: seq<nat>, free': seq<nat>,
                     e: nat, p: nat)
    requires Counts(rsv, ref, refs, free, {}) && Counts(rsv, ref', Without(refs, e), free', {})
    requires |ref| == |ref'| && Owned(|ref|, rsv, p)
    ensures p in free' <==> forall r :: r in Referrers(refs, p) ==> BelongsTo(r, e)
    ensures p in free ==> p in free'
  {
    CountZero(refs, p);
    CountZero(Without(refs, e), p);
    var kept := Without(refs, e);
    assert forall r :: r in kept <==> r in refs && !BelongsTo(r, e);
    assert forall r :: r in Referrers(refs, p) <==> r in refs && refs[r].ppn == p;
  }

  // ---------------------------------------------------------------- the flat map

  /** The user page mappings of all environments. */
  ghost function Leaves(refs: Refs): Refs {
    map r | r in refs && r.Leaf? :: refs[r]
  }

  lemma LeavesInserted(refs: Refs, free: seq<nat>, e: nat, va: nat, x: Entry)
    ensures Leaves(Inserted(refs, free, e, va, x)) == Leaves(refs)[LeafAt(e, va) := x]
  {}

  lemma LeavesRemoved(refs: Refs, r: Ref)
    ensures r.Leaf? ==> Leaves(refs - {r}) == Leaves(refs) - {r}
    ensures !r.Leaf? ==> Leaves(refs - {r}) == Leaves(refs)
  {}

  lemma LeavesDir(refs: Refs, r: Ref, x: Entry)
    requires !r.Leaf?
    ensures Leaves(refs[r := x]) == Leaves(refs)
  {}

  /** The hardware's two-level walk and the flat map give every user address the same entry. */
  lemma WalkIsFlat(rsv: set<nat>, kpd: nat, mem: seq<Words>, dir: seq<Option<nat>>, refs: Refs, e: nat, va: nat)
    requires Agree(rsv, kpd, mem, dir, refs) && e < NENV && Dir(e) in refs && va < UTOP
    ensures var pte := HardwareWalk(mem, refs[Dir(e)].ppn, va);
            if LeafAt(e, va) in Leaves(refs) then pte == Some(Leaves(refs)[LeafAt(e, va)])
            else pte == None || !Present(pte.value)
  {
    assert Pdx(va) < USER_PDES;
    PdeMeans(rsv, kpd, mem, dir, refs, e, Pdx(va));
    PteMeans(rsv, kpd, mem, dir, refs, e, Pdx(va), Ptx(va));
  }

  /** Two user addresses share an entry exactly when they are on the same page. */
  lemma SamePage(e: nat, va: nat, f: nat, vb: nat)
    ensures LeafAt(e, va) == LeafAt(f, vb) <==> e == f && va / PGSIZE == vb / PGSIZE
  {
    assert va / PTSIZE == va / PGSIZE / NPTENTRIES && vb / PTSIZE == vb / PGSIZE / NPTENTRIES;
  }
}
