/** Which accesses of the file server fault, and at which offset: bc_pgfault in fs/bc.c panics at an address that is
    not page-aligned, so that a block must be mapped already or be touched first at its first byte. */
module Touches {
  import opened Blocks
  import opened Volumes
  import opened FsSteps

  /** Looking up block k of f touches its indirect block, if there is one, at a mapped page or at its first word. */
  ghost predicate EntryMapped(v: Volume, m: Image, loaded: set<nat>, f: nat, k: nat)
    requires f < |v.files|
  {
    k <= NDIRECT || k >= MAXFILEBLOCKS || IndirectOf(v, m, f) == 0 || IndirectOf(v, m, f) in loaded
  }

  /** The same when the lookup allocates: then it may be the block that becomes the indirect block. */
  ghost predicate EntryTouch(v: Volume, m: Image, loaded: set<nat>, f: nat, k: nat)
    requires f < |v.files|
  {
    EntryMapped(v, m, loaded, f, k) &&
    (NDIRECT < k < MAXFILEBLOCKS && IndirectOf(v, m, f) == 0 ==>
       FreeFrom(m, v.n, 0) == [] || FreeFrom(m, v.n, 0)[0] in loaded)
  }

  /** The block that file_get_block returns for block k of f, or 0 if none can be had: the one it has, or the lowest
      free one after that for an indirect block. */
  ghost function BlockFor(v: Volume, m: Image, f: nat, k: nat): nat
    requires f < |v.files| && k < MAXFILEBLOCKS
  {
    var p, l := Ptr(v, m, DataSlot(f, k)), FreeFrom(m, v.n, 0);
    var i := if k >= NDIRECT && IndirectOf(v, m, f) == 0 then 1 else 0;
    if p != 0 then p else if i < |l| then l[i] else 0
  }

  /** A transfer that starts at position pos does not make bc_pgfault panic: every later block is touched first at
      its first byte. */
  ghost predicate StartTouch(v: Volume, m: Image, loaded: set<nat>, f: nat, pos: nat)
    requires f < |v.files|
  {
    var k := pos / BLKSIZE;
    k < MAXFILEBLOCKS ==>
      EntryTouch(v, m, loaded, f, k) && (pos % BLKSIZE == 0 || BlockFor(v, m, f, k) == 0 || BlockFor(v, m, f, k) in loaded)
  }

  /** Nor does a truncation. */
  ghost predicate CutTouch(v: Volume, m: Image, loaded: set<nat>, f: nat, newsize: nat)
    requires f < |v.files|
  {
    newsize < Size(v, m, f) && BlockCount(newsize) < BlockCount(Size(v, m, f)) ==>
      EntryMapped(v, m, loaded, f, BlockCount(newsize))
  }

  /** The indirect block is there and mapped, if block k is looked up through it. */
  ghost predicate EntryLoaded(v: Volume, m: Image, loaded: set<nat>, f: nat, k: nat)
    requires f < |v.files|
  {
    NDIRECT <= k < MAXFILEBLOCKS ==> IndirectOf(v, m, f) != 0 && IndirectOf(v, m, f) in loaded
  }

  /** After block k has been had, the rest of a transfer starts at the first byte of block k + 1. */
  lemma NextTouch(v: Volume, m: Image, loaded: set<nat>, f: nat, k: nat, pos: nat)
    requires f < |v.files| && EntryLoaded(v, m, loaded, f, k) && pos == BLKSIZE * (k + 1)
    ensures StartTouch(v, m, loaded, f, pos)
  {
    hide At, Ptr, FreeFrom;
    assert pos / BLKSIZE == k + 1 && pos % BLKSIZE == 0;
  }

  /** Changes that move no pointer of f and no bit, with as many blocks mapped or more. */
  lemma TouchSame(v: Volume, m: Image, m': Image, loaded: set<nat>, loaded': set<nat>, f: nat, pos: nat)
    requires f < |v.files| && StartTouch(v, m, loaded, f, pos) && loaded <= loaded'
    requires forall t :: ValidSlot(v, t) && t.f == f ==> Ptr(v, m', t) == Ptr(v, m, t)
    requires forall b: nat :: b < v.n ==> Free(m', b) == Free(m, b)
    ensures StartTouch(v, m', loaded', f, pos)
  {
    IndirectPtr(v, m, f);
    IndirectPtr(v, m', f);
    FreeFromSame(m, m', v.n, 0);
    hide At, FreeFrom, Free, Ptr;
    if pos / BLKSIZE < MAXFILEBLOCKS {
      assert ValidSlot(v, DataSlot(f, pos / BLKSIZE));
    }
  }

  /** With more blocks mapped. */
  lemma TouchGrows(v: Volume, m: Image, loaded: set<nat>, loaded': set<nat>, f: nat, pos: nat)
    requires f < |v.files| && StartTouch(v, m, loaded, f, pos) && loaded <= loaded'
    ensures StartTouch(v, m, loaded', f, pos)
  {
    hide At, FreeFrom, BlockFor;
  }

  lemma StartEntry(v: Volume, m: Image, loaded: set<nat>, f: nat, pos: nat)
    requires f < |v.files| && StartTouch(v, m, loaded, f, pos)
    ensures EntryTouch(v, m, loaded, f, pos / BLKSIZE)
  {
    hide At, FreeFrom, BlockFor;
  }

  lemma EntryGrows(v: Volume, m: Image, loaded: set<nat>, loaded': set<nat>, f: nat, k: nat)
    requires f < |v.files| && EntryMapped(v, m, loaded, f, k) && loaded <= loaded'
    ensures EntryMapped(v, m, loaded', f, k)
  {}

  /** Where file_block_walk has got to can be touched: word `word` of block `block`. */
  lemma WalkTouch(v: Volume, m: Image, m': Image, loaded: set<nat>, f: nat, k: nat, block: nat, word: nat)
    requires f < |v.files| && NDIRECT <= k < MAXFILEBLOCKS && EntryTouch(v, m, loaded, f, k)
    requires block == IndirectOf(v, m', f) != 0 && word == k - NDIRECT
    requires IndirectOf(v, m', f) == IndirectOf(v, m, f) || (IndirectOf(v, m, f) == 0 && Spent(v.n, m, m', block))
    ensures block in loaded || word == 0
  {
    hide At, FreeFrom;
  }

  /** The block taken is the one that was to be expected. */
  lemma TakenIs(v: Volume, m: Image, m1: Image, m2: Image, f: nat, k: nat, b: nat)
    requires f < |v.files| && k < MAXFILEBLOCKS && Ptr(v, m, DataSlot(f, k)) == 0 && Spent(v.n, m1, m2, b)
    requires (m1 == m && (k >= NDIRECT ==> IndirectOf(v, m, f) != 0))
             || (k >= NDIRECT && IndirectOf(v, m, f) == 0 && Spent(v.n, m, m1, IndirectOf(v, m1, f)))
    ensures BlockFor(v, m, f, k) == b
  {
    hide At, FreeFrom, Ptr;
  }
}
