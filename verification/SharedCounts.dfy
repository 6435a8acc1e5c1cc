/** How far fork and fork_v0 can raise pp_ref (lib/fork.c over kern/pmap.c): which pages the 16-bit counts must
    have room for. */
module SharedCounts {
  import opened Options
  import opened Mmu
  import opened RefCount
  import opened PageInv
  import opened Kernels
  import opened AddressSpace
  import opened Cow

  /** The kernel's invariant, as the user library needs it. */
  ghost predicate Mapped(n: nat, rsv: set<nat>, refs: Refs, free: seq<nat>) {
    && (forall r :: r in refs ==> Owned(n, rsv, refs[r].ppn) && refs[r].ppn !in free)
    && (forall r :: r in refs ==> InRange(r))
    && (forall p :: p in free ==> Owned(n, rsv, p))
    && (forall l, m :: 0 <= l < m < |free| ==> free[l] != free[m])
    && (forall e, i, j :: Leaf(e, i, j) in refs ==> Table(e, i) in refs)
    && (forall e, i :: Table(e, i) in refs ==> Dir(e) in refs)
  }

  /** The mappings of page p in environment e. */
  ghost function Own(refs: Refs, e: nat, p: nat): set<Ref> {
    set r | r in refs && r.Leaf? && r.e == e && refs[r].ppn == p
  }

  /** Each page that e maps can be mapped once more for each of its mappings in e: what a fork of e asks of
      pp_ref, with one more reference while a page is being remapped. */
  ghost predicate Shareable(refs: Refs, e: nat) {
    forall r :: r in refs && r.Leaf? && r.e == e ==> Count(refs, refs[r].ppn) + |Own(refs, e, refs[r].ppn)| < 0xFFFE
  }

  // ---------------------------------------------------------------- one mapping

  lemma InsertedCount(refs: Refs, free: seq<nat>, e: nat, va: nat, x: Entry, p: nat)
    requires p !in free
    ensures Count(Inserted(refs, free, e, va, x), p) <= Count(refs, p) + if x.ppn == p then 1 else 0
  {
    var walked, leaf := Walked(refs, free, e, va), LeafAt(e, va);
    WalkedCount(refs, free, e, va, p);
    if leaf in walked {
      CountRemove(walked, leaf, p);
      assert (walked - {leaf})[leaf := x] == walked[leaf := x];
    }
    CountAdd(walked - {leaf}, leaf, x, p);
    assert (walked - {leaf})[leaf := x] == walked[leaf := x];
    assert leaf !in walked ==> walked - {leaf} == walked;
  }

  /** A page just taken off the free list has one reference once it is mapped. */
  lemma FreshCount(n: nat, rsv: set<nat>, refs: Refs, free: seq<nat>, e: nat, va: nat, x: Entry)
    requires Mapped(n, rsv, refs, free) && free != [] && x.ppn == free[0]
    ensures Count(Inserted(refs, free[1..], e, va, x), free[0]) == 1
  {
    CountZero(refs, free[0]);
    InsertedCount(refs, free[1..], e, va, x, free[0]);
    var after := Inserted(refs, free[1..], e, va, x);
    assert LeafAt(e, va) in after && after[LeafAt(e, va)].ppn == free[0];
    CountZero(after, free[0]);
  }

  // ---------------------------------------------------------------- room for a fork

  lemma SubsetSize(a: set<Ref>, b: set<Ref>)
    requires a <= b
    ensures |a| <= |b|
  {
    assert b == a + (b - a);
  }

  /** With the same mappings in e, and counts that have not grown. */
  lemma ShareableKept(refs: Refs, refs': Refs, e: nat)
    requires Shareable(refs, e)
    requires forall r: Ref :: r.Leaf? && r.e == e ==> (r in refs' <==> r in refs) && (r in refs' ==> refs'[r] == refs[r])
    requires forall r :: r in refs && r.Leaf? && r.e == e ==> Count(refs', refs[r].ppn) <= Count(refs, refs[r].ppn)
    ensures Shareable(refs', e)
  {
    hide Count;
    forall r | r in refs' && r.Leaf? && r.e == e
      ensures Count(refs', refs'[r].ppn) + |Own(refs', e, refs'[r].ppn)| < 0xFFFE
    {
      assert Own(refs', e, refs'[r].ppn) == Own(refs, e, refs'[r].ppn);
    }
  }

  /** After one more page, mapped nowhere else, in e. */
  lemma ShareableMore(refs: Refs, refs': Refs, e: nat, s: Ref, p: nat)
    requires Shareable(refs, e) && s.Leaf? && s.e == e && s in refs' && refs'[s].ppn == p && Count(refs', p) == 1
    requires forall r: Ref :: r.Leaf? && r.e == e && r != s ==> (r in refs' <==> r in refs) && (r in refs' ==> refs'[r] == refs[r])
    requires forall r :: r in refs && r.Leaf? && r.e == e && refs[r].ppn != p ==> Count(refs', refs[r].ppn) <= Count(refs, refs[r].ppn)
    ensures Shareable(refs', e)
  {
    forall r | r in refs' && r.Leaf? && r.e == e
      ensures Count(refs', refs'[r].ppn) + |Own(refs', e, refs'[r].ppn)| < 0xFFFE
    {
      var q := refs'[r].ppn;
      if q == p {
        SubsetSize(Own(refs', e, q), Referrers(refs', q));
      } else {
        assert Own(refs', e, q) <= Own(refs, e, q);
        SubsetSize(Own(refs', e, q), Own(refs, e, q));
      }
    }
  }

  // ---------------------------------------------------------------- what the loops add

  lemma TwinCount(a: set<Ref>, e: nat)
    requires forall r :: r in a ==> r.Leaf?
    ensures |set r | r in a && r.Leaf? :: Twin(r, e)| <= |a|
  {
    var b := set r | r in a && r.Leaf? :: Twin(r, e);
    if a == {} {
      assert b == {};
    } else {
      var r :| r in a;
      var c := set s | s in a - {r} && s.Leaf? :: Twin(s, e);
      TwinCount(a - {r}, e);
      assert b <= c + {Twin(r, e)};
      SubsetCount(b, c, Twin(r, e));
    }
  }

  lemma SubsetCount(b: set<Ref>, c: set<Ref>, x: Ref)
    requires b <= c + {x}
    ensures |b| <= |c| + 1
  {
    var d := c + {x};
    assert d - b + b == d && (d - b) !! b;
    assert |d| <= |c| + 1;
  }

  /** Where the mappings of page p come from: those it had, and one in the child for each in the parent. */
  lemma TwinnedCount(refs0: Refs, refs: Refs, parent: nat, child: nat, p: nat)
    requires forall r :: r in Referrers(refs, p) ==>
               r.Leaf? && var o := if r.e == child then Twin(r, parent) else r; o in refs0 && refs0[o].ppn == p
    ensures Count(refs, p) <= Count(refs0, p) + |Own(refs0, parent, p)|
  {
    var a, own := Referrers(refs0, p), Own(refs0, parent, p);
    var b := set r | r in own && r.Leaf? :: Twin(r, child);
    forall r | r in Referrers(refs, p) ensures r in a + b {
      if r.e == child {
        assert Twin(r, parent) in own && Twin(Twin(r, parent), child) == r;
      }
    }
    TwinCount(own, child);
    SubsetSize(Referrers(refs, p), a + b);
    assert |a + b| <= |a| + |b|;
  }

  /** fork adds at most one reference to a page for each mapping of it in the parent. */
  lemma ForkCount(refs0: Refs, refs: Refs, parent: nat, child: nat, cur: nat, p: nat)
    requires Forked(Leaves(refs0), Leaves(refs), parent, child, cur) && Exclusive(refs)
    requires Incoming !in refs && Outgoing !in refs
    ensures Count(refs, p) <= 1 || Count(refs, p) <= Count(refs0, p) + |Own(refs0, parent, p)|
  {
    if t :| t in refs && Structural(t) && refs[t].ppn == p {
      assert Referrers(refs, p) == {t};
    } else {
      forall r | r in Referrers(refs, p)
        ensures r.Leaf? && var o := if r.e == child then Twin(r, parent) else r; o in refs0 && refs0[o].ppn == p
      {
        ForkOrigin(refs0, refs, parent, child, cur, r);
      }
      TwinnedCount(refs0, refs, parent, child, p);
    }
  }

  lemma ForkOrigin(refs0: Refs, refs: Refs, parent: nat, child: nat, cur: nat, r: Ref)
    requires Forked(Leaves(refs0), Leaves(refs), parent, child, cur)
    requires r in refs && !Structural(r) && Incoming !in refs && Outgoing !in refs
    ensures r.Leaf?
    ensures var o := if r.e == child then Twin(r, parent) else r;
            o in refs0 && refs0[o].ppn == refs[r].ppn
  {
    assert r.Leaf? && r in Leaves(refs);
    if r.e == child {
      assert Twin(r, parent) in Leaves(refs0);
    } else {
      assert r in Leaves(refs0);
    }
  }

  /** So does fork_v0, which shares the pages the parent cannot write. */
  lemma CopiedCount(refs0: Refs, refs: Refs, parent: nat, child: nat, cur: nat, p: nat)
    requires Copied(Leaves(refs0), Leaves(refs), parent, child, cur) && Exclusive(refs)
    requires Incoming !in refs && Outgoing !in refs
    ensures Count(refs, p) <= 1 || Count(refs, p) <= Count(refs0, p) + |Own(refs0, parent, p)|
  {
    if t :| t in refs && refs[t].ppn == p && (Structural(t) || Private(Leaves(refs), t)) {
      assert forall s :: s in refs && !Structural(s) ==> s in Leaves(refs);
      assert Referrers(refs, p) == {t};
    } else {
      forall r | r in Referrers(refs, p)
        ensures r.Leaf? && var o := if r.e == child then Twin(r, parent) else r; o in refs0 && refs0[o].ppn == p
      {
        assert r.Leaf? && r in Leaves(refs);
        if r.e == child {
          assert Twin(r, parent) in Leaves(refs0);
        } else {
          assert r in Leaves(refs0);
        }
      }
      TwinnedCount(refs0, refs, parent, child, p);
    }
  }

  /** Enough to map a page of the parent twice more. */
  lemma ForkRoom(refs0: Refs, refs: Refs, parent: nat, child: nat, cur: nat, r: Ref)
    requires Shareable(refs0, parent) && r in refs0 && r.Leaf? && r.e == parent
    requires Forked(Leaves(refs0), Leaves(refs), parent, child, cur) && Exclusive(refs)
    requires Incoming !in refs && Outgoing !in refs
    ensures Count(refs, refs0[r].ppn) < 0xFFFE
  {
    hide Forked, Exclusive, Count;
    ForkCount(refs0, refs, parent, child, cur, refs0[r].ppn);
  }

  lemma CopiedRoom(refs0: Refs, refs: Refs, parent: nat, child: nat, cur: nat, r: Ref)
    requires Shareable(refs0, parent) && r in refs0 && r.Leaf? && r.e == parent
    requires Copied(Leaves(refs0), Leaves(refs), parent, child, cur) && Exclusive(refs)
    requires Incoming !in refs && Outgoing !in refs
    ensures Count(refs, refs0[r].ppn) < 0xFFFE
  {
    hide Copied, Exclusive, Count;
    CopiedCount(refs0, refs, parent, child, cur, refs0[r].ppn);
  }
}
