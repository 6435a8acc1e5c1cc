/** Each change fs/fs.c makes to the volume, and why memory and disk stay sound through it. */
module FsSteps {
  import opened Options
  import opened Blocks
  import opened Volumes
  import opened Crash
  import opened FileData

  /** Sound in memory, and the disk never ahead: `held` are blocks allocated but not yet pointed at, and the
      files of `skip` have had pointers cleared that the disk may still have. */
  ghost predicate Core(v: Volume, m: Image, d: Image, owner: map<nat, Slot>, held: set<nat>, skip: set<nat>) {
    && Placed(v) && Owned(v, m, owner, held)
    && |d| == v.n && SuperOk(v, d) && PointersOnDisk(v, m, d, skip) && BitsOnDisk(v, m, d)
  }

  lemma CoreConsistent(v: Volume, m: Image, d: Image, owner: map<nat, Slot>, held: set<nat>)
    requires Core(v, m, d, owner, held, {})
    ensures Consistent(v, d)
  {
    hide PointersOnDisk, BitsOnDisk, Owned;
    assert |m| == v.n by { OwnedLength(v, m, owner, held); }
    CrashSafe(v, m, d, owner, held);
  }

  lemma OwnedLength(v: Volume, m: Image, owner: map<nat, Slot>, held: set<nat>)
    requires Owned(v, m, owner, held)
    ensures |m| == v.n
  {
    hide PointersOk, BitmapOk, HomesOk;
  }

  /** flush_block of any block. */
  lemma FlushStep(v: Volume, m: Image, d: Image, owner: map<nat, Slot>, held: set<nat>, skip: set<nat>, b: nat)
    requires Core(v, m, d, owner, held, skip) && b < v.n
    ensures b < |m| && Core(v, m, d[b := m[b]], owner, held, skip)
  {
    hide PointersOnDisk, BitsOnDisk, PointersOk, BitmapOk, HomesOk, Placed, SuperOk;
    FlushBlock(v, m, d, b, skip);
    SuperFlushed(v, m, d, b);
  }

  /** flush_block(f). */
  lemma FlushHomeStep(v: Volume, m: Image, d: Image, owner: map<nat, Slot>, held: set<nat>, f: nat)
    requires Core(v, m, d, owner, held, {f}) && f < |v.files|
    ensures v.files[f].home < |m| && Core(v, m, d[v.files[f].home := m[v.files[f].home]], owner, held, {})
  {
    HomeInUse(v, m, owner, held, f);
    hide PointersOnDisk, BitsOnDisk, PointersOk, BitmapOk, HomesOk, Placed, SuperOk;
    FlushHome(v, m, d, f);
  }

  /** alloc_block: clear the bit, flush the bitmap block. */
  lemma AllocStep(v: Volume, m: Image, d: Image, owner: map<nat, Slot>, held: set<nat>, skip: set<nat>, b: nat)
    requires Core(v, m, d, owner, held, skip) && b < v.n && Free(m, b)
    ensures BitBlock(b) < |m| && Reserved(v.n) <= b && b !in owner && b !in held
    ensures var m' := Marked(m, b, false);
            && Core(v, m', d[BitBlock(b) := m'[BitBlock(b)]], owner, held + {b}, skip)
            && SameBytes(v, m, m', 0, 0, false) && SameSizes(v, m, m')
            && forall s :: ValidSlot(v, s) ==> Ptr(v, m', s) == Ptr(v, m, s)
  {
    hide Free, PointersOnDisk, PointersOk, HomesOk, Ptr, Marked, BitsOnDisk, SameBytes, SameSizes, SuperOk;
    assert Reserved(v.n) <= b && b !in owner && b !in held;
    hide BitmapOk;
    BitBlockReserved(v.n, b);
    var m' := Marked(m, b, false);
    var d' := d[BitBlock(b) := m'[BitBlock(b)]];
    MarkOwned(v, m, owner, held, b, false);
    MarkBytes(v, m, owner, held, b, false);
    FlushAlloc(v, m, d, b);
    SuperFlushed(v, m', d, BitBlock(b));
    forall s | ValidSlot(v, s) && !s.Entry? ensures Ptr(v, d', s) == Ptr(v, d, s) {
      PtrOfFile(v, m', d, BitBlock(b), s);
    }
    PointersSame(v, m, m', d, d', skip);
  }

  /** A held block becomes block k of file f. */
  lemma FillStep(v: Volume, m: Image, d: Image, owner: map<nat, Slot>, held: set<nat>, skip: set<nat>, f: nat, k: nat, b: nat)
    requires Core(v, m, d, owner, held, skip) && f < |v.files| && k < MAXFILEBLOCKS && b in held && Reserved(v.n) <= b < v.n
    requires k >= NDIRECT ==> IndirectOf(v, m, f) != 0
    requires Ptr(v, m, DataSlot(f, k)) == 0
    ensures SlotBlock(v, m, DataSlot(f, k)) < |m| && SlotWord(v, DataSlot(f, k)) < BLKWORDS && b < WORD_LIMIT
    ensures var m' := Stored(v, m, DataSlot(f, k), b);
            && Core(v, m', d, owner[b := DataSlot(f, k)], held - {b}, skip)
            && SameBytes(v, m, m', f, k, true) && SameSizes(v, m, m')
            && forall s :: ValidSlot(v, s) ==> Ptr(v, m', s) == if s == DataSlot(f, k) then b else Ptr(v, m, s)
  {
    hide PointersOnDisk, PointersOk, HomesOk, BitmapOk, Ptr, BitsOnDisk, SameBytes, SameSizes, Stored;
    var s := DataSlot(f, k);
    StoreOwned(v, m, owner, held, s, b);
    StoreBytes(v, m, owner, held, f, k, b);
    var m' := Stored(v, m, s, b);
    forall t | ValidSlot(v, t) ensures Ptr(v, m', t) == if t == s then b else Ptr(v, m, t) {
      PtrStored(v, m, owner, s, b, t);
    }
    PointerFilled(v, m, m', d, skip, s);
    SameBits(v, m, m', d, owner, held, owner[b := s], held - {b});
  }

  /** A held blank block becomes the indirect block of file f. */
  lemma InstallStep(v: Volume, m: Image, d: Image, owner: map<nat, Slot>, held: set<nat>, skip: set<nat>, f: nat, b: nat)
    requires Core(v, m, d, owner, held, skip) && f < |v.files| && b in held && Reserved(v.n) <= b < v.n
    requires IndirectOf(v, m, f) == 0 && b < |m| && Blank(m[b])
    ensures SlotBlock(v, m, Indirect(f)) < |m| && SlotWord(v, Indirect(f)) < BLKWORDS && b < WORD_LIMIT
    ensures var m' := Stored(v, m, Indirect(f), b);
            && Core(v, m', d, owner[b := Indirect(f)], held - {b}, skip)
            && SameBytes(v, m, m', 0, 0, false) && SameSizes(v, m, m')
            && forall s :: ValidSlot(v, s) ==> Ptr(v, m', s) == if s == Indirect(f) then b else Ptr(v, m, s)
  {
    HomeInUse(v, m, owner, held, f);
    assert b != v.files[f].home;
    hide PointersOnDisk, PointersOk, HomesOk, BitmapOk, Ptr, At, Blank, BitsOnDisk, SameBytes, SameSizes, Stored;
    InstallOwned(v, m, owner, held, f, b);
    var m' := Stored(v, m, Indirect(f), b);
    forall t | ValidSlot(v, t) ensures Ptr(v, m', t) == if t == Indirect(f) then b else Ptr(v, m, t) {
      InstalledPtr(v, m, owner, f, b, t);
    }
    IndirectBytes(v, m, owner, held, f, b);
    IndirectPtr(v, m, f);
    PointerFilled(v, m, m', d, skip, Indirect(f));
    SameBits(v, m, m', d, owner, held, owner[b := Indirect(f)], held - {b});
  }

  /** Marking a bit and storing a pointer commute. */
  lemma MarkThenStore(v: Volume, m: Image, owner: map<nat, Slot>, held: set<nat>, s: Slot, x: nat, p: nat)
    requires Placed(v) && Owned(v, m, owner, held) && ValidSlot(v, s) && p < v.n && x < WORD_LIMIT
    requires s.Entry? ==> IndirectOf(v, m, s.f) != 0
    requires SlotBlock(v, m, s) < |m| && SlotWord(v, s) < BLKWORDS && BitBlock(p) < |m|
    ensures SlotBlock(v, Marked(m, p, true), s) == SlotBlock(v, m, s)
    ensures Marked(Stored(v, m, s, x), p, true) == Stored(v, Marked(m, p, true), s, x)
  {
    SlotInRange(v, m, owner, held, s);
    BitBlockReserved(v.n, p);
    MarkBytes(v, m, owner, held, p, true);
    var c, y := BitBlock(p), Marked(m, p, true)[BitBlock(p)];
    IndirectPtr(v, m, s.f);
    IndirectPtr(v, Marked(m, p, true), s.f);
    hide Ptr, At, SameBytes, SameSizes, PointersOk, HomesOk, BitmapOk;
    assert SlotBlock(v, Marked(m, p, true), s) == SlotBlock(v, m, s);
    assert c != SlotBlock(v, m, s);
  }

  lemma EntryNeedsIndirect(v: Volume, m: Image, s: Slot)
    requires ValidSlot(v, s) && Ptr(v, m, s) != 0 && s.Entry?
    ensures IndirectOf(v, m, s.f) != 0
  {
    hide At;
  }

  lemma CutSlot(v: Volume, m: Image, d: Image, owner: map<nat, Slot>, held: set<nat>, skip: set<nat>, s: Slot)
    requires Core(v, m, d, owner, held, skip) && IsData(v, s, false) && Ptr(v, m, s) != 0
    ensures var p := Ptr(v, m, s);
            && p in owner && owner[p] == s && p < v.n && BitBlock(p) < |m|
            && SlotBlock(v, m, s) < |m| && SlotWord(v, s) < BLKWORDS && p !in held
            && SlotBlock(v, Marked(m, p, true), s) == SlotBlock(v, m, s)
            && Marked(Stored(v, m, s, 0), p, true) == Stored(v, Marked(m, p, true), s, 0)
            && Owned(v, Stored(v, m, s, 0), owner - {p}, held + {p})
            && Core(v, Marked(Stored(v, m, s, 0), p, true), d, owner - {p}, held, skip + {s.f})
    ensures forall t :: ValidSlot(v, t) ==>
              Ptr(v, Marked(Stored(v, m, s, 0), Ptr(v, m, s), true), t) == if t == s then 0 else Ptr(v, m, t)
  {
    hide PointersOnDisk, BitsOnDisk, PointersOk, HomesOk, BitmapOk, Ptr, At, SameBytes, SameSizes, Stored, Marked, Placed;
    var p := Ptr(v, m, s);
    if s.Entry? {
      EntryNeedsIndirect(v, m, s);
    }
    PtrOwned(v, m, owner, s);
    OwnedNotHeld(v, m, owner, held, p);
    BitBlockReserved(v.n, p);
    ClearOwned(v, m, owner, held, s);
    var m1 := Stored(v, m, s, 0);
    forall t | ValidSlot(v, t) ensures Ptr(v, m1, t) == if t == s then 0 else Ptr(v, m, t) {
      PtrStored(v, m, owner, s, 0, t);
    }
    MarkThenStore(v, m, owner, held, s, 0, p);
    CutDisk(v, m, m1, d, owner, held, skip, s.f, p);
    MarkOwned(v, m1, owner - {p}, held + {p}, p, true);
    assert held + {p} - {p} == held;
    MarkBytes(v, m1, owner - {p}, held + {p}, p, true);
    PointersSame(v, m1, Marked(m1, p, true), d, d, skip + {s.f});
  }

  /** free_block(*slot) and *slot = 0, for a data slot of a regular file. */
  lemma CutStep(v: Volume, m: Image, d: Image, owner: map<nat, Slot>, held: set<nat>, skip: set<nat>, f: nat, k: nat)
    requires Core(v, m, d, owner, held, skip) && Regular(v, f) && k < MAXFILEBLOCKS
    requires Ptr(v, m, DataSlot(f, k)) != 0
    ensures var s, p := DataSlot(f, k), Ptr(v, m, DataSlot(f, k));
            && p in owner && owner[p] == s && p < v.n && BitBlock(p) < |m|
            && SlotBlock(v, m, s) < |m| && SlotWord(v, s) < BLKWORDS && p !in held
            && SlotBlock(v, Marked(m, p, true), s) == SlotBlock(v, m, s)
            && var m' := Stored(v, Marked(m, p, true), s, 0);
               && Core(v, m', d, owner - {p}, held, skip + {f})
               && SameBytes(v, m, m', f, k, true) && SameSizes(v, m, m')
               && forall t :: ValidSlot(v, t) ==> Ptr(v, m', t) == if t == s then 0 else Ptr(v, m, t)
  {
    var s, p := DataSlot(f, k), Ptr(v, m, DataSlot(f, k));
    CutSlot(v, m, d, owner, held, skip, s);
    hide Core, Owned, Ptr, At, SameBytes, SameSizes, Stored, Marked, SlotBlock;
    CutBytes(v, m, d, owner, held, skip, f, k, p);
  }

  lemma CutBytes(v: Volume, m: Image, d: Image, owner: map<nat, Slot>, held: set<nat>, skip: set<nat>, f: nat, k: nat, p: nat)
    requires Core(v, m, d, owner, held, skip) && f < |v.files| && k < MAXFILEBLOCKS && p < v.n
    requires k >= NDIRECT ==> Ptr(v, m, DataSlot(f, k)) != 0
    requires SlotBlock(v, m, DataSlot(f, k)) < |m| && SlotWord(v, DataSlot(f, k)) < BLKWORDS && BitBlock(p) < |m|
    requires Owned(v, Stored(v, m, DataSlot(f, k), 0), owner - {p}, held + {p})
    ensures var m' := Marked(Stored(v, m, DataSlot(f, k), 0), p, true);
            SameBytes(v, m, m', f, k, true) && SameSizes(v, m, m')
  {
    hide PointersOnDisk, BitsOnDisk, PointersOk, HomesOk, BitmapOk, Ptr, At, SameBytes, SameSizes, Stored, Marked, Placed;
    if k >= NDIRECT {
      EntryNeedsIndirect(v, m, DataSlot(f, k));
    }
    var m1 := Stored(v, m, DataSlot(f, k), 0);
    StoreBytes(v, m, owner, held, f, k, 0);
    MarkBytes(v, m1, owner - {p}, held + {p}, p, true);
    SameBytesLift(v, m1, Marked(m1, p, true), f, k);
    SameBytesTrans(v, m, m1, Marked(m1, p, true), f, k, true);
    SameSizesTrans(v, m, m1, Marked(m1, p, true));
  }

  /** What clearing a pointer of f and freeing its block leave true of the disk. */
  lemma CutDisk(v: Volume, m: Image, m1: Image, d: Image, owner: map<nat, Slot>, held: set<nat>, skip: set<nat>, f: nat, p: nat)
    requires Core(v, m, d, owner, held, skip) && p in owner && p < v.n
    requires Owned(v, m1, owner - {p}, held + {p})
    requires forall t :: ValidSlot(v, t) && t.f != f && !t.Entry? ==> Ptr(v, m1, t) == Ptr(v, m, t)
    ensures BitBlock(p) < |m1|
    ensures PointersOnDisk(v, m1, d, skip + {f}) && BitsOnDisk(v, Marked(m1, p, true), d)
  {
    hide PointersOnDisk, BitsOnDisk, PointersOk, HomesOk, BitmapOk, Ptr, Marked;
    BitBlockReserved(v.n, p);
    PointerCut(v, m, m1, d, skip, f);
    SameBits(v, m, m1, d, owner, held, owner - {p}, held + {p});
    FreeKeeps(v, m1, d, p);
  }

  lemma SameBytesLift(v: Volume, m: Image, m': Image, f: nat, k: nat)
    requires SameBytes(v, m, m', 0, 0, false)
    ensures SameBytes(v, m, m', f, k, true)
  {
    hide FileByte;
  }

  lemma SameSizesTrans(v: Volume, m0: Image, m1: Image, m2: Image)
    requires SameSizes(v, m0, m1) && SameSizes(v, m1, m2)
    ensures SameSizes(v, m0, m2)
  {
    hide Size;
  }

  lemma RemoveSlot(v: Volume, m: Image, d: Image, owner: map<nat, Slot>, held: set<nat>, skip: set<nat>, f: nat)
    requires Core(v, m, d, owner, held, skip) && f < |v.files| && IndirectOf(v, m, f) != 0
    requires forall i: nat :: i < NINDIRECT ==> Ptr(v, m, Entry(f, i)) == 0
    ensures var s, p := Indirect(f), IndirectOf(v, m, f);
            && p in owner && owner[p] == s && p < v.n && BitBlock(p) < |m|
            && SlotBlock(v, m, s) < |m| && SlotWord(v, s) < BLKWORDS && p !in held
            && SlotBlock(v, Marked(m, p, true), s) == SlotBlock(v, m, s)
            && Marked(Stored(v, m, s, 0), p, true) == Stored(v, Marked(m, p, true), s, 0)
            && Owned(v, Stored(v, m, s, 0), owner - {p}, held + {p})
            && Core(v, Marked(Stored(v, m, s, 0), p, true), d, owner - {p}, held, skip + {f})
    ensures forall t :: ValidSlot(v, t) ==> Ptr(v, Stored(v, m, Indirect(f), 0), t) == if t == Indirect(f) then 0 else Ptr(v, m, t)
    ensures forall t :: ValidSlot(v, t) ==>
              Ptr(v, Marked(Stored(v, m, Indirect(f), 0), IndirectOf(v, m, f), true), t) == if t == Indirect(f) then 0 else Ptr(v, m, t)
  {
    hide PointersOnDisk, BitsOnDisk, PointersOk, HomesOk, BitmapOk, Ptr, At, SameBytes, SameSizes, Stored, Marked, Placed;
    var s, p := Indirect(f), IndirectOf(v, m, f);
    IndirectPtr(v, m, f);
    PtrOwned(v, m, owner, s);
    OwnedNotHeld(v, m, owner, held, p);
    HomeInUse(v, m, owner, held, f);
    BitBlockReserved(v.n, p);
    RemoveOwned(v, m, owner, held, f);
    var m1 := Stored(v, m, s, 0);
    forall t | ValidSlot(v, t) ensures Ptr(v, m1, t) == if t == s then 0 else Ptr(v, m, t) {
      RemovedPtr(v, m, owner, f, t);
    }
    MarkThenStore(v, m, owner, held, s, 0, p);
    CutDisk(v, m, m1, d, owner, held, skip, f, p);
    MarkOwned(v, m1, owner - {p}, held + {p}, p, true);
    assert held + {p} - {p} == held;
    MarkBytes(v, m1, owner - {p}, held + {p}, p, true);
    PointersSame(v, m1, Marked(m1, p, true), d, d, skip + {f});
  }

  /** free_block(f->f_indirect) and f->f_indirect = 0, once the indirect block has no entries. */
  lemma RemoveStep(v: Volume, m: Image, d: Image, owner: map<nat, Slot>, held: set<nat>, skip: set<nat>, f: nat)
    requires Core(v, m, d, owner, held, skip) && f < |v.files| && IndirectOf(v, m, f) != 0
    requires forall i: nat :: i < NINDIRECT ==> Ptr(v, m, Entry(f, i)) == 0
    ensures var s, p := Indirect(f), IndirectOf(v, m, f);
            && p in owner && owner[p] == s && p < v.n && BitBlock(p) < |m|
            && SlotBlock(v, m, s) < |m| && SlotWord(v, s) < BLKWORDS && p !in held
            && SlotBlock(v, Marked(m, p, true), s) == SlotBlock(v, m, s)
            && var m' := Stored(v, Marked(m, p, true), s, 0);
               && Core(v, m', d, owner - {p}, held, skip + {f})
               && SameBytes(v, m, m', 0, 0, false) && SameSizes(v, m, m')
               && forall t :: ValidSlot(v, t) ==> Ptr(v, m', t) == if t == s then 0 else Ptr(v, m, t)
  {
    RemoveSlot(v, m, d, owner, held, skip, f);
    hide PointersOnDisk, BitsOnDisk, PointersOk, HomesOk, BitmapOk, Ptr, At, SameBytes, SameSizes, Stored, Marked, Placed;
    var s, p := Indirect(f), IndirectOf(v, m, f);
    var m1 := Stored(v, m, s, 0);
    IndirectBytes(v, m, owner, held, f, 0);
    MarkBytes(v, m1, owner - {p}, held + {p}, p, true);
    SameBytesTrans(v, m, m1, Marked(m1, p, true), 0, 0, false);
    SameSizesTrans(v, m, m1, Marked(m1, p, true));
  }

  /** f->f_size = x */
  lemma ResizeStep(v: Volume, m: Image, d: Image, owner: map<nat, Slot>, held: set<nat>, skip: set<nat>, f: nat, x: nat)
    requires Core(v, m, d, owner, held, skip) && f < |v.files| && x < WORD_LIMIT
    ensures v.files[f].home < |m| && v.files[f].base + F_SIZE < BLKWORDS
    ensures var m' := Resized(v, m, f, x);
            && Core(v, m', d, owner, held, skip) && SameBytes(v, m, m', 0, 0, false)
            && (forall g: nat :: g < |v.files| ==> Size(v, m', g) == if g == f then x else Size(v, m, g))
            && forall s :: ValidSlot(v, s) ==> Ptr(v, m', s) == Ptr(v, m, s)
  {
    hide PointersOnDisk, BitsOnDisk, PointersOk, HomesOk, BitmapOk, Ptr, SameBytes, Size, Resized;
    ResizeOwned(v, m, owner, held, f, x);
    ResizeBytes(v, m, owner, held, f, x);
    PointersSame(v, m, Resized(v, m, f, x), d, d, skip);
    SameBits(v, m, Resized(v, m, f, x), d, owner, held, owner, held);
  }

  /** Writing block k of a regular file, which is there. */
  lemma DataStep(v: Volume, m: Image, d: Image, owner: map<nat, Slot>, held: set<nat>, skip: set<nat>, f: nat, k: nat, x: Block)
    requires Core(v, m, d, owner, held, skip) && Regular(v, f) && k < MAXFILEBLOCKS && Ptr(v, m, DataSlot(f, k)) != 0
    ensures var b := Ptr(v, m, DataSlot(f, k));
            && 0 < b < |m| && !Free(m, b)
            && var m' := m[b := x];
               && Core(v, m', d, owner, held, skip) && SameBytes(v, m, m', f, k, true) && SameSizes(v, m, m')
               && (forall pos: nat :: pos / BLKSIZE == k ==> FileByte(v, m', f, pos) == Some(x[pos % BLKSIZE]))
               && forall s :: ValidSlot(v, s) ==> Ptr(v, m', s) == Ptr(v, m, s)
  {
    hide Free, PointersOnDisk, BitsOnDisk, PointersOk, HomesOk, BitmapOk, Ptr, SameBytes, Size, FileByte;
    var b := Ptr(v, m, DataSlot(f, k));
    PtrOwned(v, m, owner, DataSlot(f, k));
    InUse(v, m, owner, held, b);
    WriteBytes(v, m, owner, f, k, x);
    DataOwned(v, m, owner, held, b, x);
    PointersSame(v, m, m[b := x], d, d, skip);
    SameBits(v, m, m[b := x], d, owner, held, owner, held);
  }

  // ---------------------------------------------------------------- free blocks

  /** No block becomes free, and blocks that stay free keep what they hold. */
  ghost predicate FreeKept(m: Image, m': Image) {
    |m'| == |m| && forall b: nat :: b < |m| && Free(m', b) ==> Free(m, b) && m'[b] == m[b]
  }

  lemma FreeKeptTrans(m0: Image, m1: Image, m2: Image)
    requires FreeKept(m0, m1) && FreeKept(m1, m2)
    ensures FreeKept(m0, m2)
  {
    hide Free;
  }

  lemma AllocFreeKept(v: Volume, m: Image, owner: map<nat, Slot>, held: set<nat>, b: nat)
    requires |m| == v.n && b < v.n && Placed(v) && BitmapOk(v, m, owner, held)
    ensures BitBlock(b) < |m| && FreeKept(m, Marked(m, b, false))
  {
    BitBlockReserved(v.n, b);
    var m' := Marked(m, b, false);
    forall c: nat | c < |m| && Free(m', c) ensures Free(m, c) && m'[c] == m[c] {
      MarkedBit(m, b, false, c);
    }
  }

  /** A change to a block in use and outside the bitmap. */
  lemma ChangeFreeKept(v: Volume, m: Image, c: nat, x: Block, owner: map<nat, Slot>, held: set<nat>)
    requires |m| == v.n && c < v.n && (c == 1 || Reserved(v.n) <= c) && !Free(m, c) && BitmapOk(v, m, owner, held)
    ensures FreeKept(m, m[c := x])
  {
    BitmapElsewhere(v, m, c, x, owner, held);
    hide Free;
  }

  lemma StoreFreeKept(v: Volume, m: Image, owner: map<nat, Slot>, held: set<nat>, s: Slot, x: nat)
    requires Placed(v) && Owned(v, m, owner, held) && ValidSlot(v, s) && x < WORD_LIMIT
    requires s.Entry? ==> IndirectOf(v, m, s.f) != 0
    ensures SlotBlock(v, m, s) < |m| && SlotWord(v, s) < BLKWORDS
    ensures FreeKept(m, Stored(v, m, s, x))
  {
    hide Free, PointersOk, BitmapOk, HomesOk;
    SlotInRange(v, m, owner, held, s);
    ChangeFreeKept(v, m, SlotBlock(v, m, s), Stored(v, m, s, x)[SlotBlock(v, m, s)], owner, held);
  }

  /** The free blocks from i on, lowest first: the order in which alloc_block takes them. */
  ghost function FreeFrom(m: Image, n: nat, i: nat): seq<nat>
    decreases n - i
  {
    if i >= n then [] else (if Free(m, i) then [i] else []) + FreeFrom(m, n, i + 1)
  }

  lemma {:induction false} FreeFromSame(m: Image, m': Image, n: nat, i: nat)
    requires forall b: nat :: i <= b < n ==> Free(m', b) == Free(m, b)
    ensures FreeFrom(m', n, i) == FreeFrom(m, n, i)
    decreases n - i
  {
    hide Free;
    if i < n {
      FreeFromSame(m, m', n, i + 1);
    }
  }

  lemma {:induction false} FreeFromMeans(m: Image, n: nat, i: nat)
    ensures forall k :: 0 <= k < |FreeFrom(m, n, i)| ==> i <= FreeFrom(m, n, i)[k] < n && Free(m, FreeFrom(m, n, i)[k])
    decreases n - i
  {
    hide Free;
    if i < n {
      FreeFromMeans(m, n, i + 1);
    }
  }

  /** The lowest free block is taken: the others stay in order. */
  ghost predicate Spent(n: nat, m: Image, m': Image, b: nat) {
    var l := FreeFrom(m, n, 0);
    l != [] && l[0] == b && FreeFrom(m', n, 0) == l[1..]
  }

  lemma {:induction false} TakeLowest(m: Image, m': Image, n: nat, i: nat, b: nat)
    requires i <= b < n && Free(m, b) && forall c: nat :: i <= c < b ==> !Free(m, c)
    requires forall c: nat :: i <= c < n ==> Free(m', c) == (c != b && Free(m, c))
    ensures var l := FreeFrom(m, n, i); l != [] && l[0] == b && FreeFrom(m', n, i) == l[1..]
    decreases n - i
  {
    hide Free;
    if i < b {
      TakeLowest(m, m', n, i + 1, b);
    } else {
      FreeFromSame(m, m', n, i + 1);
    }
  }
}
