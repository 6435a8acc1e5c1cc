/** Block ownership in a volume: File structures, their pointer slots and the bitmap, all read from the
    blocks themselves (inc/fs.h, fs/fs.c). */
module Volumes {
  import opened Options
  import Mmu
  import opened Blocks

  const NDIRECT := 10
  const NINDIRECT := BLKWORDS
  const DISK_BLOCKS := 0xC_0000 // DISKSIZE / BLKSIZE
  const MAXFILEBLOCKS := 1034 // NDIRECT + NINDIRECT

  // Word offsets in a 64-word struct File.
  const FILE_WORDS := 64
  const F_SIZE := 32
  const F_DIRECT := 34
  const F_INDIRECT := 44

  /** These are the offsets of the fields of struct File, in bytes: after a name of 128 the size, the type, ten
      direct pointers and the indirect one, in 256. */
  lemma FileLayout()
    ensures 4 * F_SIZE == 128 && 4 * F_DIRECT == 128 + 8 && 4 * F_INDIRECT == 128 + 8 + 4 * 10 && 4 * FILE_WORDS == 256
    ensures NDIRECT == 10 && MAXFILEBLOCKS == NDIRECT + NINDIRECT && 4 * NINDIRECT == BLKSIZE && BLKBITSIZE == 8 * BLKSIZE
  {}

  /** Where a struct File is: the block that holds it, its first word there, and whether it is a directory. */
  datatype Inode = Inode(home: nat, base: nat, dir: bool)

  /** The number of blocks and the File structures in existence. */
  datatype Volume = Volume(n: nat, files: seq<Inode>)

  /** A place that holds a block number. */
  datatype Slot = Direct(f: nat, i: nat) | Indirect(f: nat) | Entry(f: nat, i: nat)

  predicate ValidSlot(v: Volume, s: Slot) {
    s.f < |v.files| && (s.Direct? ==> s.i < NDIRECT) && (s.Entry? ==> s.i < NINDIRECT)
  }

  /** File structures do not overlap and lie in the super block or in blocks that can hold data. */
  predicate Placed(v: Volume) {
    && Reserved(v.n) <= v.n <= DISK_BLOCKS
    && (forall f :: 0 <= f < |v.files| ==>
          v.files[f].base + FILE_WORDS <= BLKWORDS
          && (v.files[f].home == 1 || Reserved(v.n) <= v.files[f].home < v.n))
    && forall f, g :: 0 <= f < |v.files| && 0 <= g < |v.files| && f != g && v.files[f].home == v.files[g].home ==>
         v.files[f].base + FILE_WORDS <= v.files[g].base || v.files[g].base + FILE_WORDS <= v.files[f].base
  }

  function At(m: Image, b: nat, i: nat): nat {
    if b < |m| && i < BLKWORDS then Word(m[b], i) else 0
  }

  function IndirectOf(v: Volume, m: Image, f: nat): nat
    requires f < |v.files|
  {
    At(m, v.files[f].home, v.files[f].base + F_INDIRECT)
  }

  function Size(v: Volume, m: Image, f: nat): nat
    requires f < |v.files|
  {
    At(m, v.files[f].home, v.files[f].base + F_SIZE)
  }

  function SlotBlock(v: Volume, m: Image, s: Slot): nat
    requires ValidSlot(v, s)
  {
    if s.Entry? then IndirectOf(v, m, s.f) else v.files[s.f].home
  }

  function SlotWord(v: Volume, s: Slot): nat
    requires ValidSlot(v, s)
  {
    match s
    case Direct(f, i) => v.files[f].base + F_DIRECT + i
    case Indirect(f) => v.files[f].base + F_INDIRECT
    case Entry(_, i) => i
  }

  /** The block number a slot holds; the entries of an indirect block that is not there are 0. */
  function Ptr(v: Volume, m: Image, s: Slot): nat
    requires ValidSlot(v, s)
  {
    if s.Entry? && IndirectOf(v, m, s.f) == 0 then 0 else At(m, SlotBlock(v, m, s), SlotWord(v, s))
  }

  /** The slot for block number k of file f. */
  function DataSlot(f: nat, k: nat): Slot {
    if k < NDIRECT then Direct(f, k) else Entry(f, k - NDIRECT)
  }

  predicate IsData(v: Volume, s: Slot, dir: bool) {
    ValidSlot(v, s) && !s.Indirect? && v.files[s.f].dir == dir
  }

  /** `owner` inverts the pointers: each block is named by at most one slot, and named blocks can hold data. */
  ghost predicate PointersOk(v: Volume, m: Image, owner: map<nat, Slot>) {
    && (forall b :: b in owner ==> Reserved(v.n) <= b < v.n && ValidSlot(v, owner[b]) && Ptr(v, m, owner[b]) == b)
    && (forall s :: ValidSlot(v, s) && Ptr(v, m, s) != 0 ==> Ptr(v, m, s) in owner && owner[Ptr(v, m, s)] == s)
  }

  /** Exactly the reserved blocks, the named ones and those of `held` are marked in use. */
  ghost predicate BitmapOk(v: Volume, m: Image, owner: map<nat, Slot>, held: set<nat>) {
    && (forall b :: b in held ==> Reserved(v.n) <= b < v.n && b !in owner)
    && (forall b :: 0 <= b < v.n ==> (Free(m, b) <==> Reserved(v.n) <= b && b !in owner && b !in held))
  }

  /** File structures are in the super block or in the data of directories. */
  ghost predicate HomesOk(v: Volume, owner: map<nat, Slot>) {
    forall f :: 0 <= f < |v.files| ==>
      v.files[f].home == 1 || (v.files[f].home in owner && IsData(v, owner[v.files[f].home], true))
  }

  const FS_MAGIC := 0x4A0530AE

  /** The super block begins with the magic number and the number of blocks. */
  predicate SuperOk(v: Volume, m: Image) { At(m, 1, 0) == FS_MAGIC && At(m, 1, 1) == v.n }

  ghost predicate Owned(v: Volume, m: Image, owner: map<nat, Slot>, held: set<nat>) {
    |m| == v.n && SuperOk(v, m) && PointersOk(v, m, owner) && BitmapOk(v, m, owner, held) && HomesOk(v, owner)
  }

  /** Number of blocks of a file of `size` bytes. */
  function BlockCount(size: nat): nat { (size + BLKSIZE - 1) / BLKSIZE }

  /** Is a slot used in a file of `size` bytes? (fsformat gives a file of exactly NDIRECT blocks an indirect block.) */
  predicate Within(s: Slot, size: nat) {
    match s
    case Direct(_, i) => i < BlockCount(size)
    case Indirect(_) => NDIRECT <= BlockCount(size)
    case Entry(_, i) => NDIRECT + i < BlockCount(size)
  }

  /** Non-zero pointers lie below the end of their file. */
  ghost predicate Sized(v: Volume, m: Image) {
    forall s :: ValidSlot(v, s) && Ptr(v, m, s) != 0 ==> Within(s, Size(v, m, s.f))
  }

  const MAXSIZE := 0x7FFF_F000 // keeps (size + BLKSIZE - 1) below 2^31

  ghost predicate SmallSizes(v: Volume, m: Image) {
    forall g: nat :: g < |v.files| ==> Size(v, m, g) <= MAXSIZE
  }

  // ---------------------------------------------------------------- where things are

  /** The indirect block of a file holds no File structure, and belongs to that file's pointer alone. */
  lemma HomeIsNotIndirect(v: Volume, m: Image, owner: map<nat, Slot>, f: nat, g: nat)
    requires Placed(v) && PointersOk(v, m, owner) && HomesOk(v, owner) && f < |v.files| && g < |v.files|
    requires IndirectOf(v, m, g) != 0
    ensures v.files[f].home != IndirectOf(v, m, g)
    ensures IndirectOf(v, m, g) in owner && owner[IndirectOf(v, m, g)] == Indirect(g)
    ensures Reserved(v.n) <= IndirectOf(v, m, g) < v.n
  {
    hide At;
    assert Ptr(v, m, Indirect(g)) == IndirectOf(v, m, g);
  }

  /** A slot that exists is in a block that is in use and is not part of the bitmap. */
  lemma SlotInRange(v: Volume, m: Image, owner: map<nat, Slot>, held: set<nat>, s: Slot)
    requires Placed(v) && Owned(v, m, owner, held) && ValidSlot(v, s)
    requires s.Entry? ==> IndirectOf(v, m, s.f) != 0
    ensures 0 < SlotBlock(v, m, s) < v.n && SlotWord(v, s) < BLKWORDS && !Free(m, SlotBlock(v, m, s))
    ensures SlotBlock(v, m, s) == 1 || Reserved(v.n) <= SlotBlock(v, m, s)
  {
    hide At, Free;
    if s.Entry? {
      HomeIsNotIndirect(v, m, owner, s.f, s.f);
    } else {
      HomeInUse(v, m, owner, held, s.f);
    }
  }

  lemma SlotAfterSuper(v: Volume, m: Image, owner: map<nat, Slot>, s: Slot)
    requires Placed(v) && PointersOk(v, m, owner) && HomesOk(v, owner) && ValidSlot(v, s)
    requires s.Entry? ==> IndirectOf(v, m, s.f) != 0
    ensures SlotBlock(v, m, s) == 1 ==> SlotWord(v, s) >= 2
  {
    hide At;
    if s.Entry? {
      HomeIsNotIndirect(v, m, owner, s.f, s.f);
    }
  }

  lemma HomeInUse(v: Volume, m: Image, owner: map<nat, Slot>, held: set<nat>, f: nat)
    requires Placed(v) && BitmapOk(v, m, owner, held) && HomesOk(v, owner) && f < |v.files|
    ensures v.files[f].home < v.n && !Free(m, v.files[f].home)
  {
    hide Free;
  }

  /** Different slots are in different places. */
  lemma SlotsApart(v: Volume, m: Image, owner: map<nat, Slot>, s: Slot, t: Slot)
    requires Placed(v) && PointersOk(v, m, owner) && HomesOk(v, owner) && ValidSlot(v, s) && ValidSlot(v, t) && s != t
    requires s.Entry? ==> IndirectOf(v, m, s.f) != 0
    requires t.Entry? ==> IndirectOf(v, m, t.f) != 0
    ensures SlotBlock(v, m, s) != SlotBlock(v, m, t) || SlotWord(v, s) != SlotWord(v, t)
  {
    hide At, PointersOk, HomesOk;
    if s.Entry? {
      HomeIsNotIndirect(v, m, owner, t.f, s.f);
    }
    if t.Entry? {
      HomeIsNotIndirect(v, m, owner, s.f, t.f);
    }
  }

  // ---------------------------------------------------------------- storing a pointer

  /** *slot = x */
  function Stored(v: Volume, m: Image, s: Slot, x: nat): (r: Image)
    requires ValidSlot(v, s) && SlotBlock(v, m, s) < |m| && SlotWord(v, s) < BLKWORDS && x < WORD_LIMIT
    ensures |r| == |m|
  {
    m[SlotBlock(v, m, s) := WithWord(m[SlotBlock(v, m, s)], SlotWord(v, s), x)]
  }

  lemma AtStored(m: Image, b: nat, i: nat, x: nat, c: nat, j: nat)
    requires b < |m| && i < BLKWORDS && x < WORD_LIMIT
    ensures At(m[b := WithWord(m[b], i, x)], c, j) == if b == c && i == j then x else At(m, c, j)
  {
    if b == c && j < BLKWORDS {
      WordStored(m[b], i, x, j);
    }
  }

  /** A store to a slot changes that pointer and no other; for the pointer to an indirect block, leaving the entries aside. */
  lemma PtrStored(v: Volume, m: Image, owner: map<nat, Slot>, s: Slot, x: nat, t: Slot)
    requires Placed(v) && PointersOk(v, m, owner) && HomesOk(v, owner) && |m| == v.n
    requires ValidSlot(v, s) && ValidSlot(v, t) && x < WORD_LIMIT
    requires SlotBlock(v, m, s) < |m| && SlotWord(v, s) < BLKWORDS
    requires s.Entry? ==> IndirectOf(v, m, s.f) != 0
    requires s.Indirect? && t.Entry? ==> s.f != t.f
    ensures Ptr(v, Stored(v, m, s, x), t) == if s == t then x else Ptr(v, m, t)
  {
    hide At, PointersOk, HomesOk, Placed, WithWord;
    var b, i := SlotBlock(v, m, s), SlotWord(v, s);
    if t.Entry? {
      if s != Indirect(t.f) {
        SlotsApart(v, m, owner, s, Indirect(t.f));
      }
      AtStored(m, b, i, x, v.files[t.f].home, v.files[t.f].base + F_INDIRECT);
      assert IndirectOf(v, Stored(v, m, s, x), t.f) == IndirectOf(v, m, t.f);
      if IndirectOf(v, m, t.f) == 0 {
        return;
      }
    }
    if s != t {
      SlotsApart(v, m, owner, s, t);
    }
    AtStored(m, b, i, x, SlotBlock(v, m, t), SlotWord(v, t));
  }

  lemma BitmapElsewhere(v: Volume, m: Image, b: nat, x: Block, owner: map<nat, Slot>, held: set<nat>)
    requires |m| == v.n && b < v.n && (b == 1 || Reserved(v.n) <= b) && BitmapOk(v, m, owner, held)
    ensures BitmapOk(v, m[b := x], owner, held)
  {
    forall c: nat | c < v.n ensures Free(m[b := x], c) == Free(m, c) {
      assert BitBlock(c) != b;
    }
    hide Free;
  }

  lemma PointerAdded(v: Volume, m: Image, m': Image, owner: map<nat, Slot>, s: Slot, b: nat)
    requires PointersOk(v, m, owner) && ValidSlot(v, s) && Ptr(v, m, s) == 0 && b !in owner && Reserved(v.n) <= b < v.n
    requires forall t :: ValidSlot(v, t) ==> Ptr(v, m', t) == if s == t then b else Ptr(v, m, t)
    ensures PointersOk(v, m', owner[b := s])
  {
    hide Ptr;
  }

  lemma Named(v: Volume, m: Image, owner: map<nat, Slot>, held: set<nat>, b: nat, s: Slot)
    requires BitmapOk(v, m, owner, held) && HomesOk(v, owner) && b in held
    ensures BitmapOk(v, m, owner[b := s], held - {b}) && HomesOk(v, owner[b := s])
  {
    hide Free;
  }

  /** No pointer and no size lies in the first two words of the super block. */
  lemma SuperStored(v: Volume, m: Image, b: nat, i: nat, x: nat)
    requires SuperOk(v, m) && b < |m| && i < BLKWORDS && x < WORD_LIMIT && (b == 1 ==> i >= 2)
    ensures SuperOk(v, m[b := WithWord(m[b], i, x)])
  {
    AtStored(m, b, i, x, 1, 0);
    AtStored(m, b, i, x, 1, 1);
    hide At, WithWord;
  }

  lemma SuperElsewhere(v: Volume, m: Image, b: nat, x: Block)
    requires SuperOk(v, m) && b < |m| && b != 1
    ensures SuperOk(v, m[b := x])
  {
    AtElsewhere(m, b, x, 1, 0);
    AtElsewhere(m, b, x, 1, 1);
    hide At;
  }

  /** A held block is stored in an empty data slot. */
  lemma StoreOwned(v: Volume, m: Image, owner: map<nat, Slot>, held: set<nat>, s: Slot, b: nat)
    requires Placed(v) && Owned(v, m, owner, held) && ValidSlot(v, s) && !s.Indirect?
    requires s.Entry? ==> IndirectOf(v, m, s.f) != 0
    requires Ptr(v, m, s) == 0 && b in held && Reserved(v.n) <= b < v.n
    ensures SlotBlock(v, m, s) < |m| && SlotWord(v, s) < BLKWORDS && b < WORD_LIMIT
    ensures Owned(v, Stored(v, m, s, b), owner[b := s], held - {b})
  {
    hide At, Free, Ptr, SuperOk;
    SlotInRange(v, m, owner, held, s);
    SlotAfterSuper(v, m, owner, s);
    SuperStored(v, m, SlotBlock(v, m, s), SlotWord(v, s), b);
    var m' := Stored(v, m, s, b);
    forall t | ValidSlot(v, t) ensures Ptr(v, m', t) == if s == t then b else Ptr(v, m, t) {
      PtrStored(v, m, owner, s, b, t);
    }
    PointerAdded(v, m, m', owner, s, b);
    Named(v, m, owner, held, b, s);
    hide BitmapOk, PointersOk, HomesOk;
    BitmapElsewhere(v, m, SlotBlock(v, m, s), m'[SlotBlock(v, m, s)], owner[b := s], held - {b});
  }

  /** The block of a pointer that is no longer there is held. */
  lemma Unnamed(v: Volume, m: Image, owner: map<nat, Slot>, held: set<nat>, p: nat)
    requires BitmapOk(v, m, owner, held) && HomesOk(v, owner) && p in owner && Reserved(v.n) <= p < v.n
    requires !IsData(v, owner[p], true)
    ensures BitmapOk(v, m, owner - {p}, held + {p}) && HomesOk(v, owner - {p})
  {
    hide Free;
  }

  lemma PointerGone(v: Volume, m: Image, m': Image, owner: map<nat, Slot>, s: Slot)
    requires PointersOk(v, m, owner) && ValidSlot(v, s) && Ptr(v, m, s) != 0
    requires forall t :: ValidSlot(v, t) ==> Ptr(v, m', t) == if s == t then 0 else Ptr(v, m, t)
    ensures PointersOk(v, m', owner - {Ptr(v, m, s)})
  {
    hide Ptr;
  }

  /** A data pointer is cleared; its block is held. */
  lemma ClearOwned(v: Volume, m: Image, owner: map<nat, Slot>, held: set<nat>, s: Slot)
    requires Placed(v) && Owned(v, m, owner, held) && IsData(v, s, false) && Ptr(v, m, s) != 0
    ensures SlotBlock(v, m, s) < |m| && SlotWord(v, s) < BLKWORDS && Ptr(v, m, s) in owner
    ensures var p := Ptr(v, m, s); Owned(v, Stored(v, m, s, 0), owner - {p}, held + {p})
  {
    assert s.Entry? ==> IndirectOf(v, m, s.f) != 0;
    hide At, Free, Placed, Ptr, SuperOk;
    SlotInRange(v, m, owner, held, s);
    SlotAfterSuper(v, m, owner, s);
    SuperStored(v, m, SlotBlock(v, m, s), SlotWord(v, s), 0);
    var m' := Stored(v, m, s, 0);
    forall t | ValidSlot(v, t) ensures Ptr(v, m', t) == if s == t then 0 else Ptr(v, m, t) {
      PtrStored(v, m, owner, s, 0, t);
    }
    PointerGone(v, m, m', owner, s);
    Unnamed(v, m, owner, held, Ptr(v, m, s));
    hide BitmapOk, PointersOk, HomesOk;
    BitmapElsewhere(v, m, SlotBlock(v, m, s), m'[SlotBlock(v, m, s)], owner - {Ptr(v, m, s)}, held + {Ptr(v, m, s)});
  }

  // ---------------------------------------------------------------- indirect blocks

  /** Every word of the block reads as 0. */
  predicate Blank(b: Block) { forall i :: 0 <= i < BLKWORDS ==> Word(b, i) == 0 }

  lemma BlankWord(b: Block, i: nat)
    requires Blank(b) && i < BLKWORDS
    ensures Word(b, i) == 0
  {}

  lemma IndirectStored(v: Volume, m: Image, owner: map<nat, Slot>, f: nat, x: nat, t: Slot)
    requires Placed(v) && PointersOk(v, m, owner) && HomesOk(v, owner) && |m| == v.n
    requires f < |v.files| && ValidSlot(v, t) && x < v.n && v.files[f].home < |m|
    requires t.Entry? && t.f == f && x != v.files[f].home
    ensures SlotBlock(v, m, Indirect(f)) < |m| && SlotWord(v, Indirect(f)) < BLKWORDS
    ensures Ptr(v, Stored(v, m, Indirect(f), x), t) == if x == 0 then 0 else Word(m[x], t.i)
  {
    hide At, PointersOk, HomesOk, WithWord;
    var b, i := v.files[f].home, v.files[f].base + F_INDIRECT;
    AtStored(m, b, i, x, b, i);
    AtStored(m, b, i, x, x, t.i);
    assert At(m, x, t.i) == Word(m[x], t.i) by { AtIs(m, x, t.i); }
  }

  lemma AtIs(m: Image, b: nat, i: nat)
    requires b < |m| && i < BLKWORDS
    ensures At(m, b, i) == Word(m[b], i)
  {}

  lemma InstalledPtr(v: Volume, m: Image, owner: map<nat, Slot>, f: nat, b: nat, t: Slot)
    requires Placed(v) && PointersOk(v, m, owner) && HomesOk(v, owner) && |m| == v.n && f < |v.files| && ValidSlot(v, t)
    requires IndirectOf(v, m, f) == 0 && b < v.n && Blank(m[b]) && v.files[f].home < v.n && b != v.files[f].home
    ensures SlotBlock(v, m, Indirect(f)) < |m| && SlotWord(v, Indirect(f)) < BLKWORDS && b < WORD_LIMIT
    ensures Ptr(v, Stored(v, m, Indirect(f), b), t) == if Indirect(f) == t then b else Ptr(v, m, t)
  {
    hide At, Blank, PointersOk, HomesOk;
    if t.Entry? && t.f == f {
      IndirectStored(v, m, owner, f, b, t);
      BlankWord(m[b], t.i);
    } else {
      PtrStored(v, m, owner, Indirect(f), b, t);
    }
  }

  /** A held block whose words are all 0 becomes the indirect block of a file that has none. */
  lemma InstallOwned(v: Volume, m: Image, owner: map<nat, Slot>, held: set<nat>, f: nat, b: nat)
    requires Placed(v) && Owned(v, m, owner, held) && f < |v.files| && IndirectOf(v, m, f) == 0
    requires b in held && Reserved(v.n) <= b < v.n && Blank(m[b])
    ensures SlotBlock(v, m, Indirect(f)) < |m| && SlotWord(v, Indirect(f)) < BLKWORDS && b < WORD_LIMIT
    ensures Owned(v, Stored(v, m, Indirect(f), b), owner[b := Indirect(f)], held - {b})
  {
    hide At, Free, Ptr, SuperOk;
    IndirectPtr(v, m, f);
    SlotInRange(v, m, owner, held, Indirect(f));
    SuperStored(v, m, v.files[f].home, v.files[f].base + F_INDIRECT, b);
    var m' := Stored(v, m, Indirect(f), b);
    assert b != v.files[f].home && b !in owner;
    hide Blank, PointersOk, HomesOk, BitmapOk;
    forall t | ValidSlot(v, t) ensures Ptr(v, m', t) == if Indirect(f) == t then b else Ptr(v, m, t) {
      InstalledPtr(v, m, owner, f, b, t);
    }
    PointerAdded(v, m, m', owner, Indirect(f), b);
    Named(v, m, owner, held, b, Indirect(f));
    BitmapElsewhere(v, m, v.files[f].home, m'[v.files[f].home], owner[b := Indirect(f)], held - {b});
  }

  lemma RemovedPtr(v: Volume, m: Image, owner: map<nat, Slot>, f: nat, t: Slot)
    requires Placed(v) && PointersOk(v, m, owner) && HomesOk(v, owner) && |m| == v.n && f < |v.files| && ValidSlot(v, t)
    requires v.files[f].home < |m| && forall i: nat :: i < NINDIRECT ==> Ptr(v, m, Entry(f, i)) == 0
    ensures SlotBlock(v, m, Indirect(f)) < |m| && SlotWord(v, Indirect(f)) < BLKWORDS
    ensures Ptr(v, Stored(v, m, Indirect(f), 0), t) == if Indirect(f) == t then 0 else Ptr(v, m, t)
  {
    hide At, Ptr, PointersOk, HomesOk;
    if t.Entry? && t.f == f {
      IndirectStored(v, m, owner, f, 0, t);
    } else {
      PtrStored(v, m, owner, Indirect(f), 0, t);
    }
  }

  /** The pointer to an indirect block without entries is cleared; the block is held. */
  lemma RemoveOwned(v: Volume, m: Image, owner: map<nat, Slot>, held: set<nat>, f: nat)
    requires Placed(v) && Owned(v, m, owner, held) && f < |v.files| && IndirectOf(v, m, f) != 0
    requires forall i: nat :: i < NINDIRECT ==> Ptr(v, m, Entry(f, i)) == 0
    ensures SlotBlock(v, m, Indirect(f)) < |m| && SlotWord(v, Indirect(f)) < BLKWORDS && IndirectOf(v, m, f) in owner
    ensures var p := IndirectOf(v, m, f); Owned(v, Stored(v, m, Indirect(f), 0), owner - {p}, held + {p})
  {
    var p := IndirectOf(v, m, f);
    assert Ptr(v, m, Indirect(f)) == p;
    hide At, Free, Placed, Ptr, SuperOk;
    SlotInRange(v, m, owner, held, Indirect(f));
    SuperStored(v, m, v.files[f].home, v.files[f].base + F_INDIRECT, 0);
    var m' := Stored(v, m, Indirect(f), 0);
    forall t | ValidSlot(v, t) ensures Ptr(v, m', t) == if Indirect(f) == t then 0 else Ptr(v, m, t) {
      RemovedPtr(v, m, owner, f, t);
    }
    PointerGone(v, m, m', owner, Indirect(f));
    Unnamed(v, m, owner, held, p);
    hide BitmapOk, PointersOk, HomesOk;
    BitmapElsewhere(v, m, v.files[f].home, m'[v.files[f].home], owner - {p}, held + {p});
  }

  // ---------------------------------------------------------------- the bitmap

  lemma PointersIgnoreBitmap(v: Volume, m: Image, owner: map<nat, Slot>, b: nat, x: Block)
    requires Placed(v) && PointersOk(v, m, owner) && HomesOk(v, owner) && |m| == v.n && 2 <= b < Reserved(v.n)
    ensures PointersOk(v, m[b := x], owner)
  {
    hide At, PointersOk, HomesOk, Ptr;
    forall s | ValidSlot(v, s) ensures Ptr(v, m[b := x], s) == Ptr(v, m, s) {
      BitmapPtr(v, m, owner, b, x, s);
    }
    SamePointers(v, m, m[b := x], owner);
  }

  lemma BitmapPtr(v: Volume, m: Image, owner: map<nat, Slot>, b: nat, x: Block, s: Slot)
    requires Placed(v) && PointersOk(v, m, owner) && HomesOk(v, owner) && |m| == v.n && 2 <= b < Reserved(v.n)
    requires ValidSlot(v, s)
    ensures Ptr(v, m[b := x], s) == Ptr(v, m, s)
  {
    if s.Entry? && IndirectOf(v, m, s.f) != 0 {
      HomeIsNotIndirect(v, m, owner, s.f, s.f);
      AtElsewhere(m, b, x, IndirectOf(v, m, s.f), SlotWord(v, s));
    }
    hide At, PointersOk, HomesOk;
    AtElsewhere(m, b, x, v.files[s.f].home, v.files[s.f].base + F_INDIRECT);
    AtElsewhere(m, b, x, v.files[s.f].home, SlotWord(v, s));
  }

  lemma BitBlockReserved(n: nat, b: nat)
    requires b < n
    ensures 2 <= BitBlock(b) < Reserved(n)
  {}

  lemma Remarked(v: Volume, m: Image, owner: map<nat, Slot>, held: set<nat>, b: nat, free: bool)
    requires BitmapOk(v, m, owner, held) && |m| == v.n && Reserved(v.n) <= b < v.n && b !in owner && BitBlock(b) < |m|
    ensures BitmapOk(v, Marked(m, b, free), owner, if free then held - {b} else held + {b})
  {
    forall c: nat ensures Free(Marked(m, b, free), c) == if b == c then free else Free(m, c) {
      MarkedBit(m, b, free, c);
    }
    hide Free, Marked;
  }

  /** alloc_block takes a free block; free_block returns a held one. */
  lemma MarkOwned(v: Volume, m: Image, owner: map<nat, Slot>, held: set<nat>, b: nat, free: bool)
    requires Placed(v) && Owned(v, m, owner, held) && Reserved(v.n) <= b < v.n && b !in owner
    ensures BitBlock(b) < |m|
    ensures Owned(v, Marked(m, b, free), owner, if free then held - {b} else held + {b})
  {
    BitBlockReserved(v.n, b);
    Remarked(v, m, owner, held, b, free);
    PointersIgnoreBitmap(v, m, owner, BitBlock(b), Marked(m, b, free)[BitBlock(b)]);
    hide BitmapOk, PointersOk, HomesOk, SuperOk;
    SuperElsewhere(v, m, BitBlock(b), Marked(m, b, free)[BitBlock(b)]);
    assert Marked(m, b, free) == m[BitBlock(b) := Marked(m, b, free)[BitBlock(b)]];
  }

  // ---------------------------------------------------------------- file data and sizes

  lemma SamePointers(v: Volume, m: Image, m': Image, owner: map<nat, Slot>)
    requires PointersOk(v, m, owner) && forall s :: ValidSlot(v, s) ==> Ptr(v, m', s) == Ptr(v, m, s)
    ensures PointersOk(v, m', owner)
  {
    hide Ptr;
  }

  lemma AtElsewhere(m: Image, b: nat, x: Block, c: nat, i: nat)
    requires b < |m| && c != b
    ensures At(m[b := x], c, i) == At(m, c, i)
  {}

  /** The home of a File structure is not the data of a regular file. */
  lemma HomeIsNotData(v: Volume, owner: map<nat, Slot>, b: nat, f: nat)
    requires Placed(v) && HomesOk(v, owner) && b in owner && IsData(v, owner[b], false) && Reserved(v.n) <= b && f < |v.files|
    ensures v.files[f].home != b
  {}

  lemma DataPtr(v: Volume, m: Image, owner: map<nat, Slot>, b: nat, x: Block, s: Slot)
    requires Placed(v) && PointersOk(v, m, owner) && HomesOk(v, owner) && |m| == v.n && ValidSlot(v, s)
    requires b in owner && IsData(v, owner[b], false) && Reserved(v.n) <= b < v.n
    ensures Ptr(v, m[b := x], s) == Ptr(v, m, s)
  {
    HomeIsNotData(v, owner, b, s.f);
    if s.Entry? && IndirectOf(v, m, s.f) != 0 {
      HomeIsNotIndirect(v, m, owner, s.f, s.f);
      AtElsewhere(m, b, x, IndirectOf(v, m, s.f), SlotWord(v, s));
    }
    hide At, PointersOk, HomesOk;
    AtElsewhere(m, b, x, v.files[s.f].home, v.files[s.f].base + F_INDIRECT);
    AtElsewhere(m, b, x, v.files[s.f].home, SlotWord(v, s));
  }

  /** Writing the data of a regular file touches no pointer, no size and no bit. */
  lemma DataOwned(v: Volume, m: Image, owner: map<nat, Slot>, held: set<nat>, b: nat, x: Block)
    requires Placed(v) && Owned(v, m, owner, held) && b in owner && IsData(v, owner[b], false)
    ensures b < |m| && Owned(v, m[b := x], owner, held)
    ensures forall f :: 0 <= f < |v.files| ==> Size(v, m[b := x], f) == Size(v, m, f)
    ensures forall s :: ValidSlot(v, s) ==> Ptr(v, m[b := x], s) == Ptr(v, m, s)
  {
    assert Reserved(v.n) <= b < v.n;
    hide PointersOk, HomesOk, Ptr, BitmapOk, At, SuperOk;
    SuperElsewhere(v, m, b, x);
    forall f: nat | f < |v.files| ensures Size(v, m[b := x], f) == Size(v, m, f) {
      HomeIsNotData(v, owner, b, f);
      AtElsewhere(m, b, x, v.files[f].home, v.files[f].base + F_SIZE);
    }
    forall s | ValidSlot(v, s) ensures Ptr(v, m[b := x], s) == Ptr(v, m, s) {
      DataPtr(v, m, owner, b, x, s);
    }
    SamePointers(v, m, m[b := x], owner);
    BitmapElsewhere(v, m, b, x, owner, held);
  }

  /** f->f_size = x */
  function Resized(v: Volume, m: Image, f: nat, x: nat): (r: Image)
    requires f < |v.files| && v.files[f].home < |m| && v.files[f].base + F_SIZE < BLKWORDS && x < WORD_LIMIT
    ensures |r| == |m|
  {
    m[v.files[f].home := WithWord(m[v.files[f].home], v.files[f].base + F_SIZE, x)]
  }

  lemma ResizedSize(v: Volume, m: Image, f: nat, x: nat, g: nat)
    requires Placed(v) && f < |v.files| && g < |v.files| && x < WORD_LIMIT
    requires v.files[f].home < |m| && v.files[f].base + F_SIZE < BLKWORDS
    ensures Size(v, Resized(v, m, f, x), g) == if g == f then x else Size(v, m, g)
    ensures IndirectOf(v, Resized(v, m, f, x), g) == IndirectOf(v, m, g)
  {
    hide At, WithWord;
    var home, base := v.files[f].home, v.files[f].base;
    AtStored(m, home, base + F_SIZE, x, v.files[g].home, v.files[g].base + F_SIZE);
    AtStored(m, home, base + F_SIZE, x, v.files[g].home, v.files[g].base + F_INDIRECT);
  }

  lemma ResizedPtr(v: Volume, m: Image, owner: map<nat, Slot>, f: nat, x: nat, s: Slot)
    requires Placed(v) && PointersOk(v, m, owner) && HomesOk(v, owner) && ValidSlot(v, s)
    requires f < |v.files| && v.files[f].home < |m| && v.files[f].base + F_SIZE < BLKWORDS && x < WORD_LIMIT
    ensures Ptr(v, Resized(v, m, f, x), s) == Ptr(v, m, s)
  {
    hide At, PointersOk, HomesOk, WithWord;
    ResizedSize(v, m, f, x, s.f);
    if s.Entry? && IndirectOf(v, m, s.f) != 0 {
      HomeIsNotIndirect(v, m, owner, f, s.f);
    }
    AtStored(m, v.files[f].home, v.files[f].base + F_SIZE, x, SlotBlock(v, m, s), SlotWord(v, s));
  }

  /** Storing a size changes that size and no pointer. */
  lemma ResizeOwned(v: Volume, m: Image, owner: map<nat, Slot>, held: set<nat>, f: nat, x: nat)
    requires Placed(v) && Owned(v, m, owner, held) && f < |v.files| && x < WORD_LIMIT
    ensures v.files[f].home < |m| && v.files[f].base + F_SIZE < BLKWORDS
    ensures Owned(v, Resized(v, m, f, x), owner, held)
    ensures forall g :: 0 <= g < |v.files| ==> Size(v, Resized(v, m, f, x), g) == if g == f then x else Size(v, m, g)
    ensures forall s :: ValidSlot(v, s) ==> Ptr(v, Resized(v, m, f, x), s) == Ptr(v, m, s)
  {
    var home := v.files[f].home;
    HomeInUse(v, m, owner, held, f);
    hide PointersOk, HomesOk, Ptr, BitmapOk, Size, SuperOk;
    SuperStored(v, m, home, v.files[f].base + F_SIZE, x);
    var m' := Resized(v, m, f, x);
    forall g: nat | g < |v.files| ensures Size(v, m', g) == if g == f then x else Size(v, m, g) {
      ResizedSize(v, m, f, x, g);
    }
    forall s | ValidSlot(v, s) ensures Ptr(v, m', s) == Ptr(v, m, s) {
      ResizedPtr(v, m, owner, f, x, s);
    }
    SamePointers(v, m, m', owner);
    BitmapElsewhere(v, m, home, m'[home], owner, held);
  }

  // ---------------------------------------------------------------- stale indirect blocks

  /** file_block_walk does not clear the block it takes as an indirect block, so ownership survives exactly
      when every word the block already holds is 0: a word left over from its previous use would be read as
      a block pointer of the file. */
  lemma NewIndirectIff(v: Volume, m: Image, owner: map<nat, Slot>, held: set<nat>, f: nat, b: nat)
    requires Placed(v) && Owned(v, m, owner, held) && f < |v.files| && IndirectOf(v, m, f) == 0
    requires b in held && Reserved(v.n) <= b < v.n
    ensures SlotBlock(v, m, Indirect(f)) < |m| && SlotWord(v, Indirect(f)) < BLKWORDS && b < WORD_LIMIT
    ensures (exists owner' :: Owned(v, Stored(v, m, Indirect(f), b), owner', held - {b})) <==> Blank(m[b])
  {
    SlotInRange(v, m, owner, held, Indirect(f));
    if Blank(m[b]) {
      InstallOwned(v, m, owner, held, f, b);
    } else {
      var i: nat :| i < BLKWORDS && Word(m[b], i) != 0;
      assert b != v.files[f].home;
      forall owner' ensures !Owned(v, Stored(v, m, Indirect(f), b), owner', held - {b}) {
        StaleEntry(v, m, owner, held, f, b, i, owner');
      }
    }
  }

  lemma IndirectPtr(v: Volume, m: Image, f: nat)
    requires f < |v.files|
    ensures Ptr(v, m, Indirect(f)) == IndirectOf(v, m, f)
  {
    hide At;
  }

  lemma PtrOwned(v: Volume, m: Image, owner: map<nat, Slot>, s: Slot)
    requires PointersOk(v, m, owner) && ValidSlot(v, s) && Ptr(v, m, s) != 0
    ensures Ptr(v, m, s) in owner && owner[Ptr(v, m, s)] == s && Reserved(v.n) <= Ptr(v, m, s) < v.n
  {
    hide Ptr;
  }

  lemma OwnerPtr(v: Volume, m: Image, owner: map<nat, Slot>, b: nat)
    requires PointersOk(v, m, owner) && b in owner
    ensures ValidSlot(v, owner[b]) && Ptr(v, m, owner[b]) == b && 0 < Reserved(v.n) <= b < v.n
  {
    hide Ptr;
  }

  lemma InUse(v: Volume, m: Image, owner: map<nat, Slot>, held: set<nat>, b: nat)
    requires BitmapOk(v, m, owner, held) && Reserved(v.n) <= b < v.n
    ensures !Free(m, b) <==> b in owner || b in held
  {
    hide Free;
  }

  /** If some owner map suited the file with its stale entry i, the block named there would be one that already
      had an owner. */
  lemma StaleNamed(v: Volume, m: Image, owner: map<nat, Slot>, held: set<nat>, f: nat, b: nat, i: nat, owner': map<nat, Slot>)
    requires Placed(v) && Owned(v, m, owner, held) && f < |v.files| && IndirectOf(v, m, f) == 0
    requires b in held && Reserved(v.n) <= b < v.n && i < BLKWORDS && Word(m[b], i) != 0
    requires SlotBlock(v, m, Indirect(f)) < |m| && SlotWord(v, Indirect(f)) < BLKWORDS && b < WORD_LIMIT
    requires b != v.files[f].home && Owned(v, Stored(v, m, Indirect(f), b), owner', held - {b})
    ensures var w := Word(m[b], i); w in owner' && owner'[w] == Entry(f, i) && w in owner
  {
    hide At, Free, Ptr, PointersOk, BitmapOk, HomesOk, Stored;
    var m', w := Stored(v, m, Indirect(f), b), Word(m[b], i);
    IndirectStored(v, m, owner, f, b, Entry(f, i));
    PtrStored(v, m, owner, Indirect(f), b, Indirect(f));
    PtrOwned(v, m', owner', Entry(f, i));
    PtrOwned(v, m', owner', Indirect(f));
    OwnedNotHeld(v, m', owner', held - {b}, w);
    InUse(v, m', owner', held - {b}, w);
    InUse(v, m, owner, held, w);
    StoredBits(v, m, owner, held, Indirect(f), b, w);
  }

  lemma OwnedNotHeld(v: Volume, m: Image, owner: map<nat, Slot>, held: set<nat>, p: nat)
    requires BitmapOk(v, m, owner, held) && p in owner
    ensures p !in held
  {
    hide Free;
  }

  lemma StaleEntry(v: Volume, m: Image, owner: map<nat, Slot>, held: set<nat>, f: nat, b: nat, i: nat, owner': map<nat, Slot>)
    requires Placed(v) && Owned(v, m, owner, held) && f < |v.files| && IndirectOf(v, m, f) == 0
    requires b in held && Reserved(v.n) <= b < v.n && i < BLKWORDS && Word(m[b], i) != 0
    requires SlotBlock(v, m, Indirect(f)) < |m| && SlotWord(v, Indirect(f)) < BLKWORDS && b < WORD_LIMIT
    requires b != v.files[f].home
    ensures !Owned(v, Stored(v, m, Indirect(f), b), owner', held - {b})
  {
    hide At, Free, Ptr, PointersOk, BitmapOk, HomesOk, Stored;
    if Owned(v, Stored(v, m, Indirect(f), b), owner', held - {b}) {
      StaleNamed(v, m, owner, held, f, b, i, owner');
      StaleTwice(v, m, owner, f, b, owner', Word(m[b], i));
      assert false;
    }
  }

  /** A block that has an owner keeps it when f gets an indirect block. */
  lemma StaleTwice(v: Volume, m: Image, owner: map<nat, Slot>, f: nat, b: nat, owner': map<nat, Slot>, w: nat)
    requires Placed(v) && PointersOk(v, m, owner) && HomesOk(v, owner) && |m| == v.n && f < |v.files|
    requires IndirectOf(v, m, f) == 0 && b < WORD_LIMIT && w in owner && w != 0
    requires SlotBlock(v, m, Indirect(f)) < |m| && SlotWord(v, Indirect(f)) < BLKWORDS
    requires PointersOk(v, Stored(v, m, Indirect(f), b), owner')
    ensures owner[w].Entry? ==> owner[w].f != f
    ensures w in owner' && owner'[w] == owner[w]
  {
    hide At, Ptr, PointersOk, HomesOk, Stored;
    OwnerPtr(v, m, owner, w);
    var s := owner[w];
    if s.Entry? && s.f == f {
      NoEntries(v, m, f, s);
    }
    PtrStored(v, m, owner, Indirect(f), b, s);
    IndirectPtr(v, m, f);
    PtrOwned(v, Stored(v, m, Indirect(f), b), owner', s);
  }

  lemma StoredBits(v: Volume, m: Image, owner: map<nat, Slot>, held: set<nat>, s: Slot, x: nat, c: nat)
    requires Placed(v) && Owned(v, m, owner, held) && ValidSlot(v, s) && x < WORD_LIMIT && c < v.n
    requires s.Entry? ==> IndirectOf(v, m, s.f) != 0
    ensures SlotBlock(v, m, s) < |m| && SlotWord(v, s) < BLKWORDS
    ensures Free(Stored(v, m, s, x), c) == Free(m, c)
  {
    SlotInRange(v, m, owner, held, s);
    assert BitBlock(c) != SlotBlock(v, m, s) by { BitBlockReserved(v.n, c); }
    hide Bit, Word;
  }

  lemma NoEntries(v: Volume, m: Image, f: nat, s: Slot)
    requires ValidSlot(v, s) && IndirectOf(v, m, s.f) == 0 && s.Entry?
    ensures Ptr(v, m, s) == 0
  {}
}
