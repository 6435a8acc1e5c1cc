/** Counting the references that memory holds to each physical page. */
module RefCount {
  import opened Mmu

  /** A place that holds a reference to a physical page: the env_pgdir field of an environment slot,
      a user page directory entry, a user page table entry, or a kernel local that is about to store
      a counted reference (Incoming) or that has just cleared one (Outgoing). */
  datatype Ref = Dir(e: nat) | Table(e: nat, i: nat) | Leaf(e: nat, i: nat, j: nat) | Incoming | Outgoing

  predicate Structural(r: Ref) { r.Dir? || r.Table? }

  type Refs = map<Ref, Entry>

  ghost function Referrers(refs: Refs, p: nat): set<Ref> {
    set r | r in refs && refs[r].ppn == p
  }

  ghost function Count(refs: Refs, p: nat): nat { |Referrers(refs, p)| }

  lemma CountZero(refs: Refs, p: nat)
    ensures Count(refs, p) == 0 <==> forall r :: r in refs ==> refs[r].ppn != p
  {
    if Count(refs, p) == 0 {
      forall r | r in refs ensures refs[r].ppn != p {
        assert r !in Referrers(refs, p);
      }
    } else {
      var r :| r in Referrers(refs, p);
    }
  }

  lemma CountAdd(refs: Refs, r: Ref, x: Entry, p: nat)
    requires r !in refs
    ensures Count(refs[r := x], p) == Count(refs, p) + if x.ppn == p then 1 else 0
  {
    if x.ppn == p {
      assert Referrers(refs[r := x], p) == Referrers(refs, p) + {r};
    } else {
      assert Referrers(refs[r := x], p) == Referrers(refs, p);
    }
  }

  lemma CountRemove(refs: Refs, r: Ref, p: nat)
    requires r in refs
    ensures Count(refs - {r}, p) == Count(refs, p) - if refs[r].ppn == p then 1 else 0
  {
    var rest := refs - {r};
    assert refs == rest[r := refs[r]];
    CountAdd(rest, r, refs[r], p);
  }

  /** Moving a reference from one place to another changes no count. */
  lemma CountMove(refs: Refs, from: Ref, to: Ref, x: Entry, p: nat)
    requires from in refs && to !in refs && x.ppn == refs[from].ppn
    ensures Count((refs - {from})[to := x], p) == Count(refs, p)
  {
    CountRemove(refs, from, p);
    CountAdd(refs - {from}, to, x, p);
  }
}
