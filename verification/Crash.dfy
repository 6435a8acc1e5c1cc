/** What the disk can be trusted with at any moment: pointers in File structures, and bitmap bits, between
    any two block writes (alloc_block and file_set_size in fs/fs.c). */
module Crash {
  import opened Blocks
  import opened Volumes

  /** On disk, a File pointer outside the files of `skip` is 0 or what it is in memory. */
  ghost predicate PointersOnDisk(v: Volume, m: Image, d: Image, skip: set<nat>) {
    forall s :: ValidSlot(v, s) && !s.Entry? && s.f !in skip ==> Ptr(v, d, s) == 0 || Ptr(v, d, s) == Ptr(v, m, s)
  }

  /** A block in use in memory is in use on disk. */
  ghost predicate BitsOnDisk(v: Volume, m: Image, d: Image) {
    forall b :: 0 <= b < v.n && Free(d, b) ==> Free(m, b)
  }

  ghost predicate Flushed(v: Volume, m: Image, d: Image) {
    |d| == |m| == v.n && SuperOk(v, d) && PointersOnDisk(v, m, d, {}) && BitsOnDisk(v, m, d)
  }

  /** A disk to reboot from: the super block is good, super block and bitmap are marked in use, and every pointer
      in a File structure names a block of its own that can hold data and is marked in use. */
  ghost predicate Consistent(v: Volume, d: Image) {
    && |d| == v.n && SuperOk(v, d) && (forall b :: 0 <= b < v.n && b < Reserved(v.n) ==> !Free(d, b))
    && (forall s :: ValidSlot(v, s) && !s.Entry? && Ptr(v, d, s) != 0 ==>
          Reserved(v.n) <= Ptr(v, d, s) < v.n && !Free(d, Ptr(v, d, s)))
    && (forall s, t ::
          (&& ValidSlot(v, s) && ValidSlot(v, t) && !s.Entry? && !t.Entry?
           && Ptr(v, d, s) != 0 && Ptr(v, d, s) == Ptr(v, d, t)) ==>
            s == t)
  }

  lemma CrashSafe(v: Volume, m: Image, d: Image, owner: map<nat, Slot>, held: set<nat>)
    requires Owned(v, m, owner, held) && Flushed(v, m, d)
    ensures Consistent(v, d)
  {
    hide Ptr, Free;
    forall s | ValidSlot(v, s) && !s.Entry? && Ptr(v, d, s) != 0
      ensures Ptr(v, d, s) == Ptr(v, m, s) && Ptr(v, m, s) in owner && owner[Ptr(v, m, s)] == s {}
  }

  lemma PtrOfFile(v: Volume, m: Image, d: Image, b: nat, s: Slot)
    requires |d| == |m| && b < |d| && ValidSlot(v, s) && !s.Entry?
    ensures Ptr(v, d[b := m[b]], s) == if v.files[s.f].home == b then Ptr(v, m, s) else Ptr(v, d, s)
  {}

  /** flush_block on any block. */
  lemma FlushBlock(v: Volume, m: Image, d: Image, b: nat, skip: set<nat>)
    requires |d| == |m| == v.n && b < v.n && PointersOnDisk(v, m, d, skip) && BitsOnDisk(v, m, d)
    ensures PointersOnDisk(v, m, d[b := m[b]], skip) && BitsOnDisk(v, m, d[b := m[b]])
  {
    forall s | ValidSlot(v, s) && !s.Entry? && s.f !in skip
      ensures Ptr(v, d[b := m[b]], s) == 0 || Ptr(v, d[b := m[b]], s) == Ptr(v, m, s)
    {
      PtrOfFile(v, m, d, b, s);
    }
    forall c: nat | c < v.n && Free(d[b := m[b]], c) ensures Free(m, c) {
      FreeAfterFlush(m, d, b, c);
    }
  }

  lemma FreeAfterFlush(m: Image, d: Image, b: nat, c: nat)
    requires |d| == |m| && b < |d|
    ensures Free(d[b := m[b]], c) == if BitBlock(c) == b then Free(m, c) else Free(d, c)
  {}

  /** flush_block(f) brings the pointers of f on disk up to date. */
  lemma FlushHome(v: Volume, m: Image, d: Image, f: nat)
    requires |d| == |m| == v.n && f < |v.files| && v.files[f].home < v.n && SuperOk(v, m) && SuperOk(v, d)
    requires PointersOnDisk(v, m, d, {f}) && BitsOnDisk(v, m, d)
    ensures Flushed(v, m, d[v.files[f].home := m[v.files[f].home]])
  {
    var b := v.files[f].home;
    FlushBlock(v, m, d, b, {f});
    SuperFlushed(v, m, d, b);
    forall s | ValidSlot(v, s) && !s.Entry? && s.f == f ensures Ptr(v, d[b := m[b]], s) == Ptr(v, m, s) {
      PtrOfFile(v, m, d, b, s);
    }
    hide Ptr, BitsOnDisk, SuperOk;
  }

  lemma SuperFlushed(v: Volume, m: Image, d: Image, b: nat)
    requires |d| == |m| && b < |d| && SuperOk(v, m) && SuperOk(v, d)
    ensures SuperOk(v, d[b := m[b]])
  {}

  /** The bitmap block is flushed as soon as a bit in it is cleared. */
  lemma FlushAlloc(v: Volume, m: Image, d: Image, b: nat)
    requires |d| == |m| == v.n && b < v.n && BitBlock(b) < v.n && BitsOnDisk(v, m, d)
    ensures var m' := Marked(m, b, false); BitsOnDisk(v, m', d[BitBlock(b) := m'[BitBlock(b)]])
  {
    var m' := Marked(m, b, false);
    var d' := d[BitBlock(b) := m'[BitBlock(b)]];
    forall c: nat | c < v.n && Free(d', c) ensures Free(m', c) {
      FreeAfterFlush(m', d, BitBlock(b), c);
      MarkedBit(m, b, false, c);
    }
  }

  lemma FreeKeeps(v: Volume, m: Image, d: Image, b: nat)
    requires b < v.n && BitBlock(b) < |m| && BitsOnDisk(v, m, d)
    ensures BitsOnDisk(v, Marked(m, b, true), d)
  {
    forall c: nat | c < v.n && Free(d, c) ensures Free(Marked(m, b, true), c) {
      MarkedBit(m, b, true, c);
    }
  }

  lemma SameBits(v: Volume, m: Image, m': Image, d: Image, owner: map<nat, Slot>, held: set<nat>, owner': map<nat, Slot>, held': set<nat>)
    requires BitsOnDisk(v, m, d) && BitmapOk(v, m, owner, held) && BitmapOk(v, m', owner', held')
    requires owner.Keys + held >= owner'.Keys + held'
    ensures BitsOnDisk(v, m', d)
  {
    hide Free;
  }

  /** An empty pointer is filled in: the disk may not know yet. */
  lemma PointerFilled(v: Volume, m: Image, m': Image, d: Image, skip: set<nat>, s: Slot)
    requires PointersOnDisk(v, m, d, skip) && ValidSlot(v, s) && Ptr(v, m, s) == 0
    requires forall t :: ValidSlot(v, t) && t != s && !t.Entry? ==> Ptr(v, m', t) == Ptr(v, m, t)
    ensures PointersOnDisk(v, m', d, skip)
  {
    hide Ptr;
  }

  /** A pointer of f is cleared: until flush_block(f) the disk may still have it. */
  lemma PointerCut(v: Volume, m: Image, m': Image, d: Image, skip: set<nat>, f: nat)
    requires PointersOnDisk(v, m, d, skip)
    requires forall t :: ValidSlot(v, t) && t.f != f && !t.Entry? ==> Ptr(v, m', t) == Ptr(v, m, t)
    ensures PointersOnDisk(v, m', d, skip + {f})
  {
    hide Ptr;
  }

  lemma PointersSame(v: Volume, m: Image, m': Image, d: Image, d': Image, skip: set<nat>)
    requires PointersOnDisk(v, m, d, skip)
    requires forall t :: ValidSlot(v, t) && !t.Entry? ==> Ptr(v, m', t) == Ptr(v, m, t) && Ptr(v, d', t) == Ptr(v, d, t)
    ensures PointersOnDisk(v, m', d', skip)
  {
    hide Ptr;
  }
}
