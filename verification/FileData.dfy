/** A file as a sequence of bytes, and what each change to the volume does to it. */
module FileData {
  import opened Options
  import opened Blocks
  import Mmu
  import opened Volumes

  predicate Regular(v: Volume, f: nat) { f < |v.files| && !v.files[f].dir }

  /** The byte at position pos of a regular file, or None in a hole. */
  function FileByte(v: Volume, m: Image, f: nat, pos: nat): Option<Mmu.Byte>
    requires f < |v.files|
  {
    if pos / BLKSIZE >= MAXFILEBLOCKS then None
    else
      var b := Ptr(v, m, DataSlot(f, pos / BLKSIZE));
      if b == 0 || b >= |m| then None else Some(m[b][pos % BLKSIZE])
  }

  /** All regular files have the same bytes, apart from block k of file f if `except`. */
  ghost predicate SameBytes(v: Volume, m: Image, m': Image, f: nat, k: nat, except: bool) {
    forall g, pos: nat :: Regular(v, g) && !(except && g == f && pos / BLKSIZE == k) ==>
      FileByte(v, m', g, pos) == FileByte(v, m, g, pos)
  }

  ghost predicate SameSizes(v: Volume, m: Image, m': Image) {
    forall g: nat :: g < |v.files| ==> Size(v, m', g) == Size(v, m, g)
  }

  /** Not a block of regular file data. */
  predicate Elsewhere(v: Volume, owner: map<nat, Slot>, c: nat) {
    c in owner ==> !IsData(v, owner[c], false)
  }

  lemma SlotValid(v: Volume, g: nat, pos: nat)
    requires Regular(v, g) && pos / BLKSIZE < MAXFILEBLOCKS
    ensures IsData(v, DataSlot(g, pos / BLKSIZE), false)
  {}

  /** A change to a block that holds no file data moves the bytes of file block k of f at most, if only that pointer changes. */
  lemma ChangeElsewhere(v: Volume, m: Image, owner: map<nat, Slot>, c: nat, x: Block, f: nat, k: nat, except: bool)
    requires |m| == v.n && PointersOk(v, m, owner) && c < v.n && Elsewhere(v, owner, c)
    requires forall s :: IsData(v, s, false) && !(except && s == DataSlot(f, k)) ==> Ptr(v, m[c := x], s) == Ptr(v, m, s)
    ensures SameBytes(v, m, m[c := x], f, k, except)
  {
    hide Ptr, PointersOk;
    forall g, pos: nat | Regular(v, g) && !(except && g == f && pos / BLKSIZE == k)
      ensures FileByte(v, m[c := x], g, pos) == FileByte(v, m, g, pos)
    {
      if pos / BLKSIZE < MAXFILEBLOCKS {
        var s := DataSlot(g, pos / BLKSIZE);
        SlotValid(v, g, pos);
        assert s == DataSlot(f, k) ==> g == f && pos / BLKSIZE == k;
        if Ptr(v, m, s) != 0 {
          PtrOwned(v, m, owner, s);
        }
      }
    }
  }

  /** Blocks outside the data of regular files. */
  lemma HomeElsewhere(v: Volume, owner: map<nat, Slot>, f: nat)
    requires Placed(v) && HomesOk(v, owner) && f < |v.files| && (1 in owner ==> Reserved(v.n) <= 1)
    ensures Elsewhere(v, owner, v.files[f].home)
  {}

  lemma SlotElsewhere(v: Volume, m: Image, owner: map<nat, Slot>, s: Slot)
    requires Placed(v) && PointersOk(v, m, owner) && HomesOk(v, owner) && ValidSlot(v, s)
    requires s.Entry? ==> IndirectOf(v, m, s.f) != 0
    ensures Elsewhere(v, owner, SlotBlock(v, m, s))
  {
    hide At, Ptr;
    if s.Entry? {
      HomeIsNotIndirect(v, m, owner, s.f, s.f);
    } else {
      HomeElsewhere(v, owner, s.f);
    }
  }

  lemma SizeAt(v: Volume, m: Image, c: nat, x: Block)
    requires c < |m| && forall g: nat :: g < |v.files| ==> v.files[g].home != c
    ensures SameSizes(v, m, m[c := x])
  {
    forall g: nat | g < |v.files| ensures Size(v, m[c := x], g) == Size(v, m, g) {
      AtElsewhere(m, c, x, v.files[g].home, v.files[g].base + F_SIZE);
    }
  }

  /** Marking blocks in the bitmap. */
  lemma MarkBytes(v: Volume, m: Image, owner: map<nat, Slot>, held: set<nat>, b: nat, free: bool)
    requires Placed(v) && Owned(v, m, owner, held) && b < v.n
    ensures BitBlock(b) < |m|
    ensures SameBytes(v, m, Marked(m, b, free), 0, 0, false) && SameSizes(v, m, Marked(m, b, free))
    ensures forall s :: ValidSlot(v, s) ==> Ptr(v, Marked(m, b, free), s) == Ptr(v, m, s)
  {
    BitBlockReserved(v.n, b);
    var c, x := BitBlock(b), Marked(m, b, free)[BitBlock(b)];
    assert Marked(m, b, free) == m[c := x];
    assert Elsewhere(v, owner, c);
    SizeAt(v, m, c, x);
    hide Ptr, At, PointersOk, HomesOk, BitmapOk, Marked;
    forall s | ValidSlot(v, s) ensures Ptr(v, m[c := x], s) == Ptr(v, m, s) {
      BitmapPtr(v, m, owner, c, x, s);
    }
    ChangeElsewhere(v, m, owner, c, x, 0, 0, false);
  }

  lemma SizeStored(v: Volume, m: Image, s: Slot, x: nat, g: nat, owner: map<nat, Slot>)
    requires Placed(v) && PointersOk(v, m, owner) && HomesOk(v, owner) && ValidSlot(v, s) && g < |v.files|
    requires s.Entry? ==> IndirectOf(v, m, s.f) != 0
    requires SlotBlock(v, m, s) < |m| && SlotWord(v, s) < BLKWORDS && x < WORD_LIMIT
    ensures Size(v, Stored(v, m, s, x), g) == Size(v, m, g)
  {
    hide At, PointersOk, HomesOk, WithWord;
    if s.Entry? {
      HomeIsNotIndirect(v, m, owner, g, s.f);
    }
    AtStored(m, SlotBlock(v, m, s), SlotWord(v, s), x, v.files[g].home, v.files[g].base + F_SIZE);
  }

  /** Storing a data pointer: only that file block's bytes change. */
  lemma StoreBytes(v: Volume, m: Image, owner: map<nat, Slot>, held: set<nat>, f: nat, k: nat, x: nat)
    requires Placed(v) && Owned(v, m, owner, held) && f < |v.files| && k < MAXFILEBLOCKS && x < WORD_LIMIT
    requires k >= NDIRECT ==> IndirectOf(v, m, f) != 0
    ensures SlotBlock(v, m, DataSlot(f, k)) < |m| && SlotWord(v, DataSlot(f, k)) < BLKWORDS
    ensures var m' := Stored(v, m, DataSlot(f, k), x); SameBytes(v, m, m', f, k, true) && SameSizes(v, m, m')
  {
    var s := DataSlot(f, k);
    SlotInRange(v, m, owner, held, s);
    SlotElsewhere(v, m, owner, s);
    hide Ptr, At, PointersOk, HomesOk, BitmapOk, WithWord;
    var m' := Stored(v, m, s, x);
    forall t | ValidSlot(v, t) && t != s ensures Ptr(v, m', t) == Ptr(v, m, t) {
      PtrStored(v, m, owner, s, x, t);
    }
    forall g: nat | g < |v.files| ensures Size(v, m', g) == Size(v, m, g) {
      SizeStored(v, m, s, x, g, owner);
    }
    ChangeElsewhere(v, m, owner, SlotBlock(v, m, s), m'[SlotBlock(v, m, s)], f, k, true);
  }

  /** Storing the pointer to an indirect block, where that changes no entry. */
  lemma IndirectBytes(v: Volume, m: Image, owner: map<nat, Slot>, held: set<nat>, f: nat, x: nat)
    requires Placed(v) && Owned(v, m, owner, held) && f < |v.files| && x < WORD_LIMIT
    requires SlotBlock(v, m, Indirect(f)) < |m| && SlotWord(v, Indirect(f)) < BLKWORDS
    requires forall t :: ValidSlot(v, t) && t != Indirect(f) ==> Ptr(v, Stored(v, m, Indirect(f), x), t) == Ptr(v, m, t)
    ensures var m' := Stored(v, m, Indirect(f), x); SameBytes(v, m, m', 0, 0, false) && SameSizes(v, m, m')
  {
    var s := Indirect(f);
    SlotElsewhere(v, m, owner, s);
    hide Ptr, At, PointersOk, HomesOk, BitmapOk, WithWord;
    var m' := Stored(v, m, s, x);
    forall g: nat | g < |v.files| ensures Size(v, m', g) == Size(v, m, g) {
      SizeStored(v, m, s, x, g, owner);
    }
    ChangeElsewhere(v, m, owner, SlotBlock(v, m, s), m'[SlotBlock(v, m, s)], 0, 0, false);
  }

  lemma ResizeBytes(v: Volume, m: Image, owner: map<nat, Slot>, held: set<nat>, f: nat, x: nat)
    requires Placed(v) && Owned(v, m, owner, held) && f < |v.files| && x < WORD_LIMIT
    ensures v.files[f].home < |m| && v.files[f].base + F_SIZE < BLKWORDS
    ensures SameBytes(v, m, Resized(v, m, f, x), 0, 0, false)
  {
    HomeElsewhere(v, owner, f);
    ResizeOwned(v, m, owner, held, f, x);
    hide Ptr, At, PointersOk, HomesOk, BitmapOk, WithWord;
    ChangeElsewhere(v, m, owner, v.files[f].home, Resized(v, m, f, x)[v.files[f].home], 0, 0, false);
  }

  lemma WrittenByte(v: Volume, m: Image, owner: map<nat, Slot>, f: nat, k: nat, x: Block, g: nat, pos: nat)
    requires Placed(v) && PointersOk(v, m, owner) && HomesOk(v, owner) && |m| == v.n && Regular(v, f) && k < MAXFILEBLOCKS
    requires Ptr(v, m, DataSlot(f, k)) != 0 && Regular(v, g)
    ensures Ptr(v, m, DataSlot(f, k)) < |m|
    ensures FileByte(v, m[Ptr(v, m, DataSlot(f, k)) := x], g, pos) ==
              if g == f && pos / BLKSIZE == k then Some(x[pos % BLKSIZE]) else FileByte(v, m, g, pos)
  {
    var b, t := Ptr(v, m, DataSlot(f, k)), DataSlot(g, pos / BLKSIZE);
    PtrOwned(v, m, owner, DataSlot(f, k));
    hide Ptr, PointersOk, HomesOk;
    if pos / BLKSIZE < MAXFILEBLOCKS {
      DataPtr(v, m, owner, b, x, t);
      if Ptr(v, m, t) != 0 {
        PtrOwned(v, m, owner, t);
      }
    }
  }

  /** Writing a data block of a file: its bytes become those of x, and no others change. */
  lemma WriteBytes(v: Volume, m: Image, owner: map<nat, Slot>, f: nat, k: nat, x: Block)
    requires Placed(v) && PointersOk(v, m, owner) && HomesOk(v, owner) && |m| == v.n && Regular(v, f) && k < MAXFILEBLOCKS
    requires Ptr(v, m, DataSlot(f, k)) != 0
    ensures Ptr(v, m, DataSlot(f, k)) < |m|
    ensures var m' := m[Ptr(v, m, DataSlot(f, k)) := x];
            && SameBytes(v, m, m', f, k, true)
            && forall pos: nat :: pos / BLKSIZE == k ==> FileByte(v, m', f, pos) == Some(x[pos % BLKSIZE])
  {
    PtrOwned(v, m, owner, DataSlot(f, k));
    var m' := m[Ptr(v, m, DataSlot(f, k)) := x];
    hide Ptr, PointersOk, HomesOk, FileByte;
    forall g, pos: nat | Regular(v, g)
      ensures FileByte(v, m', g, pos) ==
                if g == f && pos / BLKSIZE == k then Some(x[pos % BLKSIZE]) else FileByte(v, m, g, pos)
    {
      WrittenByte(v, m, owner, f, k, x, g, pos);
    }
  }

  lemma SameBytesTrans(v: Volume, m0: Image, m1: Image, m2: Image, f: nat, k: nat, except: bool)
    requires SameBytes(v, m0, m1, f, k, except) && SameBytes(v, m1, m2, f, k, except)
    ensures SameBytes(v, m0, m2, f, k, except)
  {
    hide FileByte;
  }
}
