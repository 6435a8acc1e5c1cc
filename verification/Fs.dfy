/** The file system server: block allocation, block lookup, reading, writing, truncation and flushing (fs/fs.c). */
module FileSystems {
  import opened Options
  import opened Blocks
  import opened Volumes
  import opened Crash
  import opened FileData
  import opened FsSteps
  import opened BlockCaches
  import opened Touches
  import Formats
  import Mmu

  datatype FsError = BadArgument | NotFound | NoDisk

  /** Result of file_block_walk: the slot's block and word. */
  datatype Walk = Slot(block: nat, word: nat) | WalkError(e: FsError)

  /** Result of a call that returns a number. */
  datatype Count = Count(value: nat) | CountError(e: FsError)

  /** Memory, disk, and the ghost bookkeeping over them. */
  datatype State = State(m: Image, d: Image, owner: map<nat, Volumes.Slot>, held: set<nat>, cut: set<nat>)

  ghost predicate Sound(v: Volume, s: State) {
    Core(v, s.m, s.d, s.owner, s.held, s.cut)
  }

  ghost predicate AllConsistent(v: Volume, images: seq<Image>) {
    forall i :: 0 <= i < |images| ==> Consistent(v, images[i])
  }

  /** How many of the direct blocks of f from k on are not there. */
  ghost function Holes(v: Volume, m: Image, f: nat, k: nat): nat
    requires f < |v.files|
    decreases NDIRECT - k
  {
    if k >= NDIRECT then 0 else (if Ptr(v, m, Direct(f, k)) == 0 then 1 else 0) + Holes(v, m, f, k + 1)
  }

  /** If looking up file blocks first to last of f takes an indirect block, the block it takes reads as zeros:
      that block is the lowest free one after those that fill the holes before it. */
  ghost predicate IndirectReady(v: Volume, m: Image, f: nat, first: nat, last: nat)
    requires f < |v.files|
  {
    IndirectOf(v, m, f) != 0 || last < NDIRECT ||
    var l, h := FreeFrom(m, v.n, 0), Holes(v, m, f, first);
    h < |l| ==> l[h] < |m| && Blank(m[l[h]])
  }

  /** Would looking up block k of f, allocating, take an indirect block that is not blank? */
  ghost predicate TakesStale(v: Volume, m: Image, f: nat, k: nat)
    requires f < |v.files|
  {
    NDIRECT <= k < MAXFILEBLOCKS && !IndirectReady(v, m, f, k, k)
  }

  /** Between m and m' the lowest free block, b, became the indirect block of f: its bit and that pointer are all
      that changed. */
  ghost predicate Taken(v: Volume, m: Image, m': Image, f: nat, b: nat)
    requires f < |v.files|
  {
    && b < v.n && b < WORD_LIMIT && Free(m, b) && (forall c: nat :: c < b ==> !Free(m, c)) && BitBlock(b) < |m|
    && var m1, t := Marked(m, b, false), Indirect(f);
       SlotBlock(v, m1, t) < |m1| && SlotWord(v, t) < BLKWORDS && m' == Stored(v, m1, t, b)
  }

  /** No block is free. */
  ghost predicate DiskFull(v: Volume, m: Image) {
    forall b: nat :: b < v.n ==> !Free(m, b)
  }

  /** The state after alloc_block takes b. */
  ghost function Alloced(s: State, b: nat): State
    requires BitBlock(b) < |s.m| == |s.d|
  {
    var m := Marked(s.m, b, false);
    s.(m := m, d := s.d[BitBlock(b) := m[BitBlock(b)]], held := s.held + {b})
  }

  /** Between m and m' only slot t's pointer changes, from 0 to b; the bytes of regular files stay, except
      perhaps those of file block k of f. */
  ghost predicate Gains(v: Volume, m: Image, m': Image, t: Volumes.Slot, b: nat, f: nat, k: nat, except: bool) {
    && (forall s :: ValidSlot(v, s) ==> Ptr(v, m', s) == if s == t then b else Ptr(v, m, s))
    && SameBytes(v, m, m', f, k, except) && SameSizes(v, m, m') && FreeKept(m, m') && Spent(v.n, m, m', b)
  }

  class Fs {
    const v: Volume
    const bc: BlockCache
    ghost var owner: map<nat, Volumes.Slot>
    ghost var held: set<nat>
    ghost var cut: set<nat>

    ghost function S(): State
      requires bc.Layout()
      reads this, bc.mapped, bc.page, bc.disk
    {
      State(bc.Logical(), bc.disk[..], owner, held, cut)
    }

    ghost predicate Good()
      reads this, bc, bc.mapped, bc.dirty, bc.page, bc.disk
    {
      bc.Valid() && bc.n == v.n && Sound(v, S()) && AllConsistent(v, bc.images) && bc.BitmapLoaded() && 1 in bc.Loaded()
    }

    /** The block with the struct File of f is mapped: whoever holds a pointer to it has found it there. */
    ghost predicate Opened(f: nat)
      requires bc.Layout()
      reads bc.mapped
    {
      f < |v.files| && v.files[f].home in bc.Loaded()
    }

    /** The invariant between calls. */
    ghost predicate Valid()
      reads this, bc, bc.mapped, bc.dirty, bc.page, bc.disk
    {
      Good() && held == {} && cut == {} && Sized(v, S().m) && SmallSizes(v, S().m)
    }

    /** What fs_init leaves on a disk whose blocks are soundly owned. It maps one block of the bitmap; where there
        are more, the others have still to be mapped. */
    constructor (v: Volume, image: Image, ghost owner: map<nat, Volumes.Slot>)
      requires Placed(v) && Owned(v, image, owner, {}) && Sized(v, image) && SmallSizes(v, image)
      ensures Valid() <==> v.n <= BLKBITSIZE
      ensures bc.Valid() && this.v == v && S() == State(image, image, owner, {}, {}) && Sound(v, S())
      ensures forall f: nat :: f < |v.files| && v.files[f].home == 1 ==> Opened(f)
      ensures fresh(bc) && fresh(bc.mapped) && fresh(bc.page) && fresh(bc.dirty) && fresh(bc.disk)
    {
      this.v := v;
      bc := new BlockCache(image);
      this.owner, held, cut := owner, {}, {};
      new;
      CoreConsistent(v, image, image, owner, {});
      OneBitmapBlock(v);
      hide Core, Sized, SmallSizes;
    }

    /** dir_lookup reads a directory block from its start, and so maps the struct Files in it. */
    method Open(f: nat)
      requires Valid() && f < |v.files|
      modifies bc.mapped, bc.dirty, bc.page
      ensures Valid() && S() == old(S()) && Opened(f)
      ensures old(bc.Loaded()) <= bc.Loaded()
    {
      hide Core, Consistent, Free, Sized, SmallSizes;
      HomeReadable(v, S(), f);
      var x := bc.Read(v.files[f].home, 0);
    }

    // -------------------------------------------------------------- the bitmap

    /** super->s_nblocks */
    method NBlocks() returns (n: nat)
      requires Good()
      modifies bc.mapped, bc.dirty, bc.page
      ensures bc.Loaded() == old(bc.Loaded())
      ensures Good() && S() == old(S())
      ensures n == v.n
    {
      hide Core, Free;
      SuperReadable(v, S());
      var x := bc.Read(1, 4);
      assert bc.Loaded() == old(bc.Loaded());
      n := Word(x, 1);
    }

    /** block_is_free */
    method BlockIsFree(b: nat) returns (free: bool)
      requires Good()
      modifies bc.mapped, bc.dirty, bc.page
      ensures old(bc.Loaded()) <= bc.Loaded()
      ensures Good() && S() == old(S())
      ensures free <==> b < v.n && Free(S().m, b)
    {
      hide Core;
      var n := NBlocks();
      if b >= n {
        return false;
      }
      BitmapReadable(v, S(), b);
      var x := bc.Read(BitBlock(b), 4 * BitWord(b));
      free := Bit(Word(x, BitWord(b)), b % 32);
    }

    /** bitmap[b / 32] |= 1 << (b % 32), or &= ~, in memory. */
    method MarkBlock(b: nat, free: bool)
      requires bc.Valid() && bc.BitmapLoaded() && bc.n == v.n && b < v.n && 0 < BitBlock(b) < v.n && !Free(S().m, BitBlock(b))
      modifies bc.mapped, bc.dirty, bc.page
      ensures old(bc.Loaded()) <= bc.Loaded()
      ensures bc.Valid() && bc.BitmapLoaded() && BitBlock(b) < |old(S().m)| && S() == old(S()).(m := Marked(old(S().m), b, free))
    {
      var x := bc.Read(BitBlock(b), 4 * BitWord(b));
      var w := Word(x, BitWord(b));
      WordBitsFit(w, b % 32);
      bc.Write(BitBlock(b), 4 * BitWord(b), WithWord(x, BitWord(b), if free then SetBit(w, b % 32) else ClearBit(w, b % 32)));
    }

    /** flush_block(diskaddr(b)). */
    method Flush(b: nat)
      requires bc.Valid() && bc.n == v.n && 0 < b < v.n
      modifies bc`images, bc.dirty, bc.disk
      ensures bc.Valid() && b < |old(S().m)| == |old(S().d)|
      ensures old(Good()) && cut == {} ==> Good()
      ensures S() == old(S()).(d := old(S().d)[b := old(S().m)[b]])
      ensures bc.images == old(bc.images) || bc.images == old(bc.images) + [bc.disk[..]]
    {
      hide Core, Consistent;
      if Good() && cut == {} {
        FlushStep(v, S().m, S().d, owner, held, cut, b);
        CoreLength(v, S());
      }
      bc.FlushBlock(b);
      if old(Good()) && cut == {} {
        CoreConsistent(v, S().m, S().d, owner, held);
      }
    }

    /** alloc_block: the lowest free block, marked in use in memory and on disk; None if there is none. */
    method AllocBlock() returns (r: Option<nat>)
      requires Good() && cut == {}
      modifies `held, bc`images, bc.mapped, bc.dirty, bc.page, bc.disk
      ensures old(bc.Loaded()) <= bc.Loaded()
      ensures Good()
      ensures r == None ==> S() == old(S()) && DiskFull(v, S().m)
      ensures r.Some? ==>
                && r.value < v.n && Free(old(S().m), r.value) && (forall b: nat :: b < r.value ==> !Free(old(S().m), b))
                && BitBlock(r.value) < |old(S().m)| == |old(S().d)| && S() == Alloced(old(S()), r.value)
                && !Free(S().d, r.value)
                && forall c: nat :: c < v.n ==> (Free(S().m, c) <==> Free(old(S().m), c) && c != r.value)
    {
      hide Core, Consistent, Free;
      ghost var s0 := S();
      var n := NBlocks();
      var i, found := 0, false;
      while i < n && !found
        invariant 0 <= i <= v.n && Good() && S() == old(S()) && cut == {} && old(bc.Loaded()) <= bc.Loaded()
        invariant forall b: nat :: b < i ==> !Free(S().m, b)
        invariant found ==> i < v.n && Free(S().m, i)
        decreases v.n - i, !found
      {
        var free := BlockIsFree(i);
        if free {
          found := true;
        } else {
          i := i + 1;
        }
      }
      if !found {
        return None;
      }
      CoreLength(v, S());
      BitmapReadable(v, S(), i);
      AllocStep(v, S().m, S().d, owner, held, cut, i);
      MarkBlock(i, false);
      bc.FlushBlock(BitBlock(i));
      held := held + {i};
      CoreConsistent(v, S().m, S().d, owner, held);
      AllocedBits(v, s0, i);
      return Some(i);
    }

    // -------------------------------------------------------------- looking up blocks

    /** Reads word i of block b. */
    method ReadWord(b: nat, i: nat) returns (w: nat)
      requires Good() && 0 < b < v.n && i < BLKWORDS && !Free(S().m, b)
      requires b in bc.Loaded() || i == 0
      modifies bc.mapped, bc.dirty, bc.page
      ensures old(bc.Loaded()) <= bc.Loaded()
      ensures Good() && S() == old(S()) && b in bc.Loaded() && b < |S().m| && w == Word(S().m[b], i)
    {
      hide Core, Consistent, Free;
      CoreLength(v, S());
      var x := bc.Read(b, 4 * i);
      w := Word(x, i);
    }

    /** Stores word i of block b. */
    method WriteWord(b: nat, i: nat, w: nat)
      requires bc.Valid() && bc.BitmapLoaded() && b in bc.Loaded() && bc.n == v.n && 0 < b < v.n && i < BLKWORDS && w < WORD_LIMIT && !Free(S().m, b)
      modifies bc.mapped, bc.dirty, bc.page
      ensures old(bc.Loaded()) <= bc.Loaded()
      ensures bc.Valid() && bc.BitmapLoaded() && b < |old(S().m)|
      ensures S() == old(S()).(m := old(S().m)[b := WithWord(old(S().m)[b], i, w)])
    {
      var x := bc.Read(b, 4 * i);
      bc.Write(b, 4 * i, WithWord(x, i, w));
    }

    /** f->f_indirect = b, for the block b that alloc_block has taken from state s0, and flush_block(b). */
    method StoreIndirect(f: nat, b: nat, ghost s0: State)
      requires Sound(v, s0) && s0.cut == {} && f < |v.files| && IndirectOf(v, s0.m, f) == 0
      requires b < v.n && Free(s0.m, b) && BitBlock(b) < |s0.m| == |s0.d| && forall c: nat :: c < b ==> !Free(s0.m, c)
      requires Good() && S() == Alloced(s0, b) && Opened(f)
      modifies `owner, `held, bc`images, bc.mapped, bc.dirty, bc.page, bc.disk
      ensures old(bc.Loaded()) <= bc.Loaded()
      ensures bc.Valid() && b < |s0.m| && Taken(v, s0.m, S().m, f, b) && held == s0.held
      ensures !Blank(s0.m[b]) ==> !exists owner' :: Owned(v, S().m, owner', held)
      ensures Blank(s0.m[b]) ==>
                && Good() && 0 < b && b !in s0.owner && owner == s0.owner[b := Indirect(f)]
                && Gains(v, s0.m, S().m, Indirect(f), b, 0, 0, false)
    {
      hide Core, Consistent, Free, Blank, SameBytes, SameSizes, FreeKept, Marked, Ptr, Gains, At, Owned, Taken;
      HomeReadable(v, S(), f);
      IndirectTaken(v, s0, f, b);
      WriteWord(v.files[f].home, v.files[f].base + F_INDIRECT, b);
      held := held - {b};
      if Blank(s0.m[b]) {
        IndirectAlloced(v, s0, f, b);
        owner := owner[b := Indirect(f)];
        assert Good();
      }
      assert b != 0 by { ZeroNotFree(v, s0, b); }
      Flush(b);
    }

    /** The part of file_block_walk that allocates an indirect block, the lowest free one, whatever is in it. */
    method AllocIndirect(f: nat) returns (r: Option<nat>)
      requires Good() && cut == {} && Opened(f) && IndirectOf(v, S().m, f) == 0
      modifies `owner, `held, bc`images, bc.mapped, bc.dirty, bc.page, bc.disk
      ensures old(bc.Loaded()) <= bc.Loaded()
      ensures bc.Valid() && held == old(held)
      ensures r == None ==> Good() && S() == old(S()) && DiskFull(v, S().m)
      ensures r.Some? ==> r.value < |old(S().m)| && Taken(v, old(S().m), S().m, f, r.value)
      ensures r.Some? && !Blank(old(S().m)[r.value]) ==> !exists owner' :: Owned(v, S().m, owner', held)
      ensures r.Some? && Blank(old(S().m)[r.value]) ==>
                && Good() && 0 < r.value && r.value !in old(owner)
                && owner == old(owner)[r.value := Indirect(f)]
                && Gains(v, old(S().m), S().m, Indirect(f), r.value, 0, 0, false)
    {
      hide Core, Consistent, Free, DiskFull, Blank, Marked, Gains, At, Owned, Taken;
      CoreLength(v, S());
      ghost var s0 := S();
      r := AllocBlock();
      if r.Some? {
        StoreIndirect(f, r.value, s0);
      }
    }

    /** file_block_walk. If it takes an indirect block that is not blank, no owner fits the pointers any more. */
    method FileBlockWalk(f: nat, filebno: nat, alloc: bool) returns (r: Walk)
      requires Good() && Opened(f) && (alloc ==> cut == {})
      modifies `owner, `held, bc`images, bc.mapped, bc.dirty, bc.page, bc.disk
      ensures old(bc.Loaded()) <= bc.Loaded()
      ensures bc.Valid() && held == old(held)
      ensures Good() <==> !(alloc && TakesStale(v, old(S().m), f, filebno))
      ensures filebno >= MAXFILEBLOCKS ==> r == WalkError(BadArgument) && S() == old(S())
      ensures filebno < MAXFILEBLOCKS && (filebno < NDIRECT || IndirectOf(v, old(S().m), f) != 0) ==>
                S() == old(S()) && r == WalkTo(v, S().m, DataSlot(f, filebno))
      ensures NDIRECT <= filebno < MAXFILEBLOCKS && IndirectOf(v, old(S().m), f) == 0 && !alloc ==>
                r == WalkError(NotFound) && S() == old(S())
      ensures NDIRECT <= filebno < MAXFILEBLOCKS && IndirectOf(v, old(S().m), f) == 0 && alloc ==>
                if r.WalkError? then
                  r == WalkError(NoDisk) && S() == old(S()) && DiskFull(v, S().m)
                else
                  var b := IndirectOf(v, S().m, f);
                  && r == WalkTo(v, S().m, DataSlot(f, filebno)) && Taken(v, old(S().m), S().m, f, b)
                  && if TakesStale(v, old(S().m), f, filebno) then !exists owner' :: Owned(v, S().m, owner', held)
                     else
                       && 0 < b < v.n && Free(old(S().m), b) && b !in old(owner)
                       && owner == old(owner)[b := Indirect(f)]
                       && Gains(v, old(S().m), S().m, Indirect(f), b, 0, 0, false)
    {
      hide Core, Consistent, Free, DiskFull, Blank, SameBytes, SameSizes, FreeKept, Owned, Gains, Taken, TakesStale, Ptr, At;
      if filebno < NDIRECT || filebno >= MAXFILEBLOCKS || IndirectOf(v, S().m, f) != 0 {
        NotStale(v, S().m, f, filebno);
      }
      if filebno >= MAXFILEBLOCKS {
        return WalkError(BadArgument);
      }
      if filebno >= NDIRECT {
        HomeReadable(v, S(), f);
        var indirect := ReadWord(v.files[f].home, v.files[f].base + F_INDIRECT);
        if indirect == 0 && !alloc {
          return WalkError(NotFound);
        }
        if indirect == 0 {
          ghost var m := S().m;
          CoreLength(v, S());
          var b := AllocIndirect(f);
          if b == None {
            NotStale(v, m, f, filebno);
            return WalkError(NoDisk);
          }
          TakenStale(v, m, S().m, f, b.value, filebno);
          SoundOwned(v, S());
          indirect := b.value;
        }
        return Walk.Slot(indirect, filebno - NDIRECT);
      }
      return Walk.Slot(v.files[f].home, v.files[f].base + F_DIRECT + filebno);
    }

    /** The part of file_get_block that allocates the block itself. */
    method AllocData(f: nat, filebno: nat, block: nat, word: nat) returns (r: Option<nat>)
      requires Good() && cut == {} && f < |v.files| && filebno < MAXFILEBLOCKS
      requires filebno >= NDIRECT ==> IndirectOf(v, S().m, f) != 0
      requires Walk.Slot(block, word) == WalkTo(v, S().m, DataSlot(f, filebno))
      requires Ptr(v, S().m, DataSlot(f, filebno)) == 0 && block in bc.Loaded()
      modifies `owner, `held, bc`images, bc.mapped, bc.dirty, bc.page, bc.disk
      ensures old(bc.Loaded()) <= bc.Loaded()
      ensures Good() && held == old(held)
      ensures r == None ==> S() == old(S()) && DiskFull(v, S().m)
      ensures r.Some? ==>
                && 0 < r.value < v.n && Free(old(S().m), r.value) && r.value !in old(owner)
                && owner == old(owner)[r.value := DataSlot(f, filebno)]
                && Gains(v, old(S().m), S().m, DataSlot(f, filebno), r.value, f, filebno, true)
    {
      hide Core, Consistent, Free, DiskFull, SameBytes, SameSizes, FreeKept, Ptr, Gains, Marked, At;
      CoreLength(v, S());
      ghost var s0 := S();
      r := AllocBlock();
      if r == None {
        return;
      }
      var b := r.value;
      ghost var t := DataSlot(f, filebno);
      DataAlloced(v, s0, f, filebno, b);
      SlotReadable(v, S(), t);
      WriteWord(block, word, b);
      owner, held := owner[b := t], held - {b};
      assert held == old(held);
    }

    /** file_get_block: block k of f, allocated if it was not there; nothing else of any file changes. */
    method FileGetBlock(f: nat, filebno: nat) returns (r: Count)
      requires Good() && cut == {} && Opened(f) && IndirectReady(v, S().m, f, filebno, filebno)
      requires EntryTouch(v, S().m, bc.Loaded(), f, filebno)
      modifies `owner, `held, bc`images, bc.mapped, bc.dirty, bc.page, bc.disk
      ensures old(bc.Loaded()) <= bc.Loaded()
      ensures Good() && held == old(held)
      ensures r.CountError? ==> r.e == if filebno >= MAXFILEBLOCKS then BadArgument else NoDisk
      ensures r == CountError(NoDisk) ==> DiskFull(v, S().m)
      ensures r.CountError? ==> Grown(v, old(S()), S(), f, filebno, false)
      ensures r.Count? ==> filebno < MAXFILEBLOCKS && r.value != 0 && r.value == Ptr(v, S().m, DataSlot(f, filebno))
      ensures r.Count? ==> Grown(v, old(S()), S(), f, filebno, true)
      ensures r.Count? ==> r.value == BlockFor(v, old(S().m), f, filebno) && EntryLoaded(v, S().m, bc.Loaded(), f, filebno)
      ensures filebno < MAXFILEBLOCKS && Ptr(v, old(S().m), DataSlot(f, filebno)) != 0 ==> r.Count? && S() == old(S())
    {
      hide Core, Consistent, Free, DiskFull, Blank, SameBytes, SameSizes, FreeKept, Ptr, Grown, Gains, IndirectReady, EntryTouch, EntryLoaded, BlockFor;
      ghost var s0 := S();
      GrownSame(v, s0, f, filebno, false);
      var walk := FileBlockWalk(f, filebno, true);
      PresentIndirect(v, s0, f, filebno);
      if walk.WalkError? {
        return CountError(walk.e);
      }
      ghost var s1 := S();
      WalkGrown(v, s0, s1, f, filebno);
      SlotReadable(v, s1, DataSlot(f, filebno));
      LookedUp(v, s0, s1, old(bc.Loaded()), f, filebno, walk.block, walk.word);
      var w := ReadWord(walk.block, walk.word);
      EntryFound(v, s1.m, bc.Loaded(), f, filebno, walk.block, walk.word);
      if w != 0 {
        FoundIs(v, s0, s1, f, filebno, w);
        GrownEither(v, s0, s1, f, filebno);
        return Count(w);
      }
      var b := AllocData(f, filebno, walk.block, walk.word);
      if b == None {
        return CountError(NoDisk);
      }
      GrownTwice(v, s0, s1, S(), f, filebno, b.value);
      TookIs(v, s0, s1, S(), f, filebno, b.value);
      StillLoaded(v, s1, S(), f, filebno, b.value);
      StillEntry(v, s1.m, S().m, bc.Loaded(), bc.Loaded(), f, filebno);
      return Count(b.value);
    }

    // -------------------------------------------------------------- truncation

    /** file_free_block: the pointer to block k of f is cleared and its block is free again, in memory only. */
    method FileFreeBlock(f: nat, filebno: nat) returns (r: Option<FsError>)
      requires Good() && Regular(v, f) && Opened(f) && EntryMapped(v, S().m, bc.Loaded(), f, filebno)
      modifies `owner, `held, `cut, bc`images, bc.mapped, bc.dirty, bc.page, bc.disk
      ensures old(bc.Loaded()) <= bc.Loaded()
      ensures Good() && held == old(held)
      ensures filebno >= MAXFILEBLOCKS ==> r == Some(BadArgument) && S() == old(S())
      ensures filebno < MAXFILEBLOCKS ==>
                && r == (if filebno >= NDIRECT && IndirectOf(v, old(S().m), f) == 0 then Some(NotFound) else None)
                && Cut(v, old(S()), S(), f, filebno)
      ensures EntryMapped(v, S().m, bc.Loaded(), f, filebno + 1)
    {
      hide Core, Consistent, Free, SameBytes, SameSizes, FreeKept, Ptr, Cut, Marked, Stored, At, Word, WithWord, Bit, EntryMapped;
      ghost var s := S();
      var walk := FileBlockWalk(f, filebno, false);
      if walk.WalkError? {
        if filebno < MAXFILEBLOCKS {
          NothingToCut(v, S(), f, filebno);
        }
        NothingMapped(v, S().m, bc.Loaded(), f, filebno);
        return Some(walk.e);
      }
      SlotReadable(v, s, DataSlot(f, filebno));
      EntryGrows(v, s.m, old(bc.Loaded()), bc.Loaded(), f, filebno);
      WalkMapped(v, s.m, bc.Loaded(), f, filebno, walk.block, walk.word);
      var w := ReadWord(walk.block, walk.word);
      if w != 0 {
        CutFacts(v, s, f, filebno);
        MarkBlock(w, true);
        WriteWord(walk.block, walk.word, 0);
        owner, cut := owner - {w}, cut + {f};
      } else {
        NothingToCut(v, s, f, filebno);
      }
      CutMapped(v, s, S(), bc.Loaded(), f, filebno, walk.block, walk.word);
      return None;
    }

    /** file_truncate_blocks: frees exactly the blocks of f that a file of newsize bytes does not need, and
        clears exactly the pointers to them. Nothing is written to disk. */
    method FileTruncateBlocks(f: nat, newsize: nat)
      requires Valid() && Regular(v, f) && newsize < Size(v, S().m, f)
      requires Opened(f) && CutTouch(v, S().m, bc.Loaded(), f, newsize)
      modifies `owner, `held, `cut, bc`images, bc.mapped, bc.dirty, bc.page, bc.disk
      ensures old(bc.Loaded()) <= bc.Loaded()
      ensures Good() && cut <= {f} && held == old(held)
      ensures Truncated(v, old(S()), S(), f, BlockCount(newsize))
    {
      hide Core, Consistent, Free, Ptr, Cut, SameBytes, SameSizes, Lost, Sized, SmallSizes;
      ghost var s0 := S();
      HomeReadable(v, s0, f);
      var size := ReadWord(v.files[f].home, v.files[f].base + F_SIZE);
      var newNblocks := (newsize + BLKSIZE - 1) / BLKSIZE;
      FreeBlocks(f, newNblocks, (size + BLKSIZE - 1) / BLKSIZE);
      LostAll(v, s0, S(), f, newNblocks, BlockCount(size));
      if newNblocks <= NDIRECT {
        FreeIndirect(f, newNblocks, s0);
      }
    }

    /** The end of file_truncate_blocks. */
    method FreeIndirect(f: nat, newNblocks: nat, ghost s0: State)
      requires Good() && Regular(v, f) && Opened(f) && newNblocks <= NDIRECT && cut <= {f} && Sound(v, s0)
      requires Lost(v, s0, S(), f, newNblocks, MAXFILEBLOCKS, false)
      modifies `owner, `cut, bc.mapped, bc.dirty, bc.page
      ensures old(bc.Loaded()) <= bc.Loaded()
      ensures Good() && cut <= {f}
      ensures Truncated(v, s0, S(), f, newNblocks)
    {
      hide Core, Consistent, Free, Ptr, SameBytes, SameSizes, Lost, Marked;
      ghost var s1 := S();
      HomeReadable(v, s1, f);
      var indirect := ReadWord(v.files[f].home, v.files[f].base + F_INDIRECT);
      if indirect != 0 {
        TruncateIndirect(v, s0, s1, f, newNblocks);
        MarkBlock(indirect, true);
        WriteWord(v.files[f].home, v.files[f].base + F_INDIRECT, 0);
        owner, cut := owner - {indirect}, cut + {f};
      } else {
        NoIndirect(v, s0, s1, f, newNblocks);
      }
    }

    /** The loop of file_truncate_blocks. */
    method FreeBlocks(f: nat, newNblocks: nat, oldNblocks: nat)
      requires Good() && Regular(v, f) && Opened(f) && newNblocks <= oldNblocks && cut <= {f}
      requires newNblocks < oldNblocks ==> EntryMapped(v, S().m, bc.Loaded(), f, newNblocks)
      modifies `owner, `held, `cut, bc`images, bc.mapped, bc.dirty, bc.page, bc.disk
      ensures old(bc.Loaded()) <= bc.Loaded()
      ensures Good() && cut <= {f} && held == old(held)
      ensures Lost(v, old(S()), S(), f, newNblocks, oldNblocks, false)
    {
      hide Core, Consistent, Free, Ptr, Cut, SameBytes, SameSizes, Lost, EntryMapped;
      ghost var s0 := S();
      SoundOwners(v, s0);
      LostNothing(v, s0, f, newNblocks);
      var bno := newNblocks;
      while bno < oldNblocks
        invariant newNblocks <= bno <= oldNblocks && old(bc.Loaded()) <= bc.Loaded()
        invariant bno < oldNblocks ==> EntryMapped(v, S().m, bc.Loaded(), f, bno)
        invariant Good() && cut <= {f} && held == old(held) && Lost(v, s0, S(), f, newNblocks, bno, false)
      {
        ghost var s := S();
        var warning := FileFreeBlock(f, bno);
        if bno < MAXFILEBLOCKS {
          CutGrows(v, s, S(), f, bno);
          LostMore(v, s0, s, S(), f, newNblocks, bno);
        } else {
          LostPast(v, s0, s, f, newNblocks, bno);
        }
        bno := bno + 1;
      }
    }

    /** file_set_size: truncates if need be, and the File structure reaches the disk before anything else does. */
    method FileSetSize(f: nat, newsize: nat)
      requires Valid() && Regular(v, f) && newsize <= MAXSIZE
      requires Opened(f) && CutTouch(v, S().m, bc.Loaded(), f, newsize)
      modifies `owner, `held, `cut, bc`images, bc.mapped, bc.dirty, bc.page, bc.disk
      ensures old(bc.Loaded()) <= bc.Loaded()
      ensures Valid() && Resize(v, old(S()), S(), f, newsize)
      ensures Size(v, S().m, f) == Size(v, S().d, f) == newsize
      ensures CutBack(v, old(S().m), S().m, f, newsize)
    {
      hide Core, Consistent, Free, Ptr, SameBytes, SameSizes, Lost, Sized, SmallSizes, Resize, At, WithWord, Bit;
      ghost var s0 := S();
      SoundOwners(v, s0);
      HomeReadable(v, s0, f);
      var size := ReadWord(v.files[f].home, v.files[f].base + F_SIZE);
      if size > newsize {
        FileTruncateBlocks(f, newsize);
      }
      ghost var s1 := S();
      SetSizeFacts(v, s0, s1, f, newsize);
      WriteWord(v.files[f].home, v.files[f].base + F_SIZE, newsize);
      bc.FlushBlock(v.files[f].home);
      cut := {};
      CoreConsistent(v, S().m, S().d, owner, held);
      ResizeMeans(v, s0, S(), f, newsize);
    }

    // -------------------------------------------------------------- reading and writing

    /** How many bytes file_read is to read. */
    ghost function Clipped(f: nat, count: nat, offset: nat): nat
      requires bc.Layout() && f < |v.files|
      reads this, bc.mapped, bc.page, bc.disk
    {
      var size := Size(v, S().m, f);
      if offset >= size then 0 else if count <= size - offset then count else size - offset
    }

    /** Can file_read do without a stale indirect block, and without a fault that bc_pgfault cannot take? */
    ghost predicate MayRead(f: nat, count: nat, offset: nat)
      requires bc.Layout()
      reads this, bc.mapped, bc.page, bc.disk
    {
      Opened(f) &&
      var n := Clipped(f, count, offset);
      n > 0 ==> IndirectReady(v, S().m, f, offset / BLKSIZE, (offset + n - 1) / BLKSIZE)
                && StartTouch(v, S().m, bc.Loaded(), f, offset)
    }

    /** Likewise file_write of n bytes. */
    ghost predicate MayWrite(f: nat, n: nat, offset: nat)
      requires bc.Layout()
      reads this, bc.mapped, bc.page, bc.disk
    {
      Opened(f) &&
      (n > 0 ==> IndirectReady(v, S().m, f, offset / BLKSIZE, (offset + n - 1) / BLKSIZE)
                 && StartTouch(v, S().m, bc.Loaded(), f, offset))
    }

    /** file_read: the bytes of f from offset on, cut off at f_size. A block that is not there is allocated,
        and what is read from it is what it happens to hold. */
    method FileRead(f: nat, count: nat, offset: nat) returns (r: Count, buf: seq<Mmu.Byte>)
      requires Valid() && Regular(v, f) && MayRead(f, count, offset)
      modifies `owner, `held, bc`images, bc.mapped, bc.dirty, bc.page, bc.disk
      ensures old(bc.Loaded()) <= bc.Loaded()
      ensures Valid() && SameSizes(v, old(S().m), S().m)
      ensures Wrote(v, old(S().m), S().m, f, buf, offset)
      ensures r.Count? ==>
                var size := Size(v, old(S().m), f);
                r.value == |buf| == if offset >= size then 0 else if count <= size - offset then count else size - offset
      ensures r.CountError? ==>
                r.e == if (offset + |buf|) / BLKSIZE >= MAXFILEBLOCKS then BadArgument else NoDisk
      ensures r == CountError(NoDisk) ==> DiskFull(v, S().m)
    {
      hide Core, Consistent, Free, DiskFull, Ptr, SameBytes, SameSizes, FreeKept, Grown, Sized, SmallSizes, IndirectReady, Wrote, FileByte, StartTouch;
      HomeReadable(v, S(), f);
      var size := ReadWord(v.files[f].home, v.files[f].base + F_SIZE);
      if offset >= size {
        WroteNothing(v, S().m, f, offset);
        return Count(0), [];
      }
      var n := if count <= size - offset then count else size - offset;
      if n > 0 {
        TouchGrows(v, S().m, old(bc.Loaded()), bc.Loaded(), f, offset);
      }
      r, buf := ReadAll(f, n, offset, if n > 0 then (offset + n - 1) / BLKSIZE else 0);
    }

    /** The loop of file_read. */
    method ReadAll(f: nat, count: nat, offset: nat, ghost last: nat) returns (r: Count, buf: seq<Mmu.Byte>)
      requires Valid() && Regular(v, f) && Opened(f) && offset + count <= Size(v, S().m, f)
      requires count > 0 ==> StartTouch(v, S().m, bc.Loaded(), f, offset)
      requires count > 0 ==> (offset + count - 1) / BLKSIZE <= last && IndirectReady(v, S().m, f, offset / BLKSIZE, last)
      modifies `owner, `held, bc`images, bc.mapped, bc.dirty, bc.page, bc.disk
      ensures old(bc.Loaded()) <= bc.Loaded()
      ensures Valid() && SameSizes(v, old(S().m), S().m)
      ensures Wrote(v, old(S().m), S().m, f, buf, offset)
      ensures r.Count? ==> r.value == |buf| == count
      ensures r.CountError? ==>
                r.e == if (offset + |buf|) / BLKSIZE >= MAXFILEBLOCKS then BadArgument else NoDisk
      ensures r == CountError(NoDisk) ==> DiskFull(v, S().m)
    {
      hide Core, Consistent, Free, DiskFull, Ptr, SameSizes, Sized, SmallSizes, IndirectReady, Wrote, FileByte, Size, StartTouch, EntryLoaded;
      ghost var s0 := S();
      WroteNothing(v, s0.m, f, offset);
      buf := [];
      var pos, end := offset, offset + count;
      while pos < end
        invariant offset <= pos <= end && |buf| == pos - offset && old(bc.Loaded()) <= bc.Loaded()
        invariant pos < end ==> StartTouch(v, S().m, bc.Loaded(), f, pos)
        invariant Valid() && SameSizes(v, s0.m, S().m) && Wrote(v, s0.m, S().m, f, buf, offset)
        invariant pos < end ==> IndirectReady(v, S().m, f, pos / BLKSIZE, last)
      {
        var bn := if BLKSIZE - pos % BLKSIZE <= end - pos then BLKSIZE - pos % BLKSIZE else end - pos;
        PosBelow(v, s0.m, S().m, f, pos, end);
        var error, more := ReadChunk(f, buf, offset, bn, s0.m, last);
        if error.Some? {
          return CountError(error.value), buf;
        }
        buf := more;
        NextChunk(pos, bn);
        if pos + bn < end {
          NextTouch(v, S().m, bc.Loaded(), f, pos / BLKSIZE, pos + bn);
        }
        pos := pos + bn;
      }
      return Count(count), buf;
    }

    /** The body of the loop of file_read: bn bytes from the block of the next position. */
    method ReadChunk(f: nat, buf: seq<Mmu.Byte>, offset: nat, bn: nat, ghost m0: Image, ghost last: nat)
      returns (error: Option<FsError>, more: seq<Mmu.Byte>)
      requires Valid() && Regular(v, f) && Opened(f) && StartTouch(v, S().m, bc.Loaded(), f, offset + |buf|)
      requires 0 < bn && (offset + |buf|) % BLKSIZE + bn <= BLKSIZE
      requires (offset + |buf|) / BLKSIZE < BlockCount(Size(v, S().m, f))
      requires (offset + |buf|) / BLKSIZE <= last && IndirectReady(v, S().m, f, (offset + |buf|) / BLKSIZE, last)
      requires SameSizes(v, m0, S().m) && Wrote(v, m0, S().m, f, buf, offset)
      modifies `owner, `held, bc`images, bc.mapped, bc.dirty, bc.page, bc.disk
      ensures old(bc.Loaded()) <= bc.Loaded()
      ensures Valid() && SameSizes(v, m0, S().m)
      ensures error == None ==> IndirectReady(v, S().m, f, (offset + |buf|) / BLKSIZE + 1, last)
      ensures error == None ==> EntryLoaded(v, S().m, bc.Loaded(), f, (offset + |buf|) / BLKSIZE)
      ensures error == None ==> |more| == |buf| + bn && Wrote(v, m0, S().m, f, more, offset)
      ensures error.Some? ==> Wrote(v, m0, S().m, f, buf, offset)
      ensures error.Some? ==> error.value == if (offset + |buf|) / BLKSIZE >= MAXFILEBLOCKS then BadArgument else NoDisk
      ensures error == Some(NoDisk) ==> DiskFull(v, S().m)
    {
      hide Core, Consistent, Free, DiskFull, Ptr, SameBytes, SameSizes, FreeKept, Grown, Sized, SmallSizes, IndirectReady, Wrote, FileByte, EntryTouch, EntryLoaded, BlockFor;
      var pos := offset + |buf|;
      ghost var s, k := S(), pos / BLKSIZE;
      ReadyAt(v, s.m, f, k, last);
      StartEntry(v, s.m, bc.Loaded(), f, pos);
      var blk := FileGetBlock(f, pos / BLKSIZE);
      ghost var s1, loaded := S(), bc.Loaded();
      GrownKeeps(v, m0, s, s1, f, k, blk.Count?);
      if blk.CountError? {
        WroteGrown(v, m0, s, s1, f, k, buf, offset);
        return Some(blk.e), buf;
      }
      CoreLength(v, s);
      ReadyNext(v, s, s1, f, k, last);
      DataReadable(v, s1, f, k);
      var x := bc.Read(blk.value, pos % BLKSIZE);
      ReadMore(v, m0, s, s1, f, buf, offset, x, bn);
      StillEntry(v, s1.m, S().m, loaded, bc.Loaded(), f, k);
      return None, buf + x[pos % BLKSIZE..pos % BLKSIZE + bn];
    }

    /** The body of the loop of file_write: bn bytes into the block of position pos. */
    method WriteChunk(f: nat, buf: seq<Mmu.Byte>, offset: nat, pos: nat, bn: nat, ghost m0: Image, ghost last: nat)
      returns (error: Option<FsError>)
      requires Valid() && Regular(v, f) && Opened(f) && StartTouch(v, S().m, bc.Loaded(), f, pos)
      requires offset <= pos && 0 < bn && pos + bn <= offset + |buf|
      requires pos % BLKSIZE + bn <= BLKSIZE && pos / BLKSIZE < BlockCount(Size(v, S().m, f))
      requires pos / BLKSIZE <= last && IndirectReady(v, S().m, f, pos / BLKSIZE, last)
      requires SameSizes(v, m0, S().m) && Wrote(v, m0, S().m, f, buf[..pos - offset], offset)
      modifies `owner, `held, bc`images, bc.mapped, bc.dirty, bc.page, bc.disk
      ensures old(bc.Loaded()) <= bc.Loaded()
      ensures Valid() && SameSizes(v, m0, S().m)
      ensures error == None ==> IndirectReady(v, S().m, f, pos / BLKSIZE + 1, last)
      ensures error == None ==> EntryLoaded(v, S().m, bc.Loaded(), f, pos / BLKSIZE)
      ensures error == None ==> Wrote(v, m0, S().m, f, buf[..pos + bn - offset], offset)
      ensures error.Some? ==> Wrote(v, m0, S().m, f, buf[..pos - offset], offset)
      ensures error.Some? ==> error.value == if pos / BLKSIZE >= MAXFILEBLOCKS then BadArgument else NoDisk
      ensures error == Some(NoDisk) ==> DiskFull(v, S().m)
    {
      hide Core, Consistent, Free, DiskFull, Ptr, SameBytes, SameSizes, FreeKept, Grown, Sized, SmallSizes, IndirectReady, Wrote, FileByte, EntryTouch, EntryLoaded, BlockFor;
      ghost var s, k := S(), pos / BLKSIZE;
      ReadyAt(v, s.m, f, k, last);
      StartEntry(v, s.m, bc.Loaded(), f, pos);
      var blk := FileGetBlock(f, pos / BLKSIZE);
      ghost var s1, loaded := S(), bc.Loaded();
      GrownKeeps(v, m0, s, s1, f, k, blk.Count?);
      if blk.CountError? {
        WroteGrown(v, m0, s, s1, f, k, buf[..pos - offset], offset);
        return Some(blk.e);
      }
      CoreLength(v, s);
      ReadyNext(v, s, s1, f, k, last);
      DataReadable(v, s1, f, k);
      var x := bc.Read(blk.value, pos % BLKSIZE);
      var y := x[..pos % BLKSIZE] + buf[pos - offset..pos - offset + bn] + x[pos % BLKSIZE + bn..];
      ChunkWritten(v, m0, s, s1, f, k, last, y);
      WriteMore(v, m0, s, s1, f, buf, offset, pos, bn, y);
      bc.Write(blk.value, pos % BLKSIZE, y);
      StillEntry(v, s1.m, S().m, loaded, bc.Loaded(), f, k);
      return None;
    }

    /** file_write: on success the file's bytes at offset.. are those of buf; on failure those before the block
        that could not be had. Its other bytes, and all other files, are as before, and its size has grown to
        reach offset + |buf| either way. */
    method FileWrite(f: nat, buf: seq<Mmu.Byte>, offset: nat) returns (r: Count, ghost done: nat)
      requires Valid() && Regular(v, f) && offset + |buf| <= MAXSIZE
      requires MayWrite(f, |buf|, offset)
      modifies `owner, `held, `cut, bc`images, bc.mapped, bc.dirty, bc.page, bc.disk
      ensures old(bc.Loaded()) <= bc.Loaded()
      ensures Valid()
      ensures forall g: nat :: g < |v.files| ==>
                Size(v, S().m, g) == if g == f && offset + |buf| > Size(v, old(S().m), f) then offset + |buf|
                                     else Size(v, old(S().m), g)
      ensures done <= |buf| && Wrote(v, old(S().m), S().m, f, buf[..done], offset)
      ensures r.Count? ==> r.value == |buf| == done
      ensures r.CountError? ==> r.e == if (offset + done) / BLKSIZE >= MAXFILEBLOCKS then BadArgument else NoDisk
      ensures r == CountError(NoDisk) ==> DiskFull(v, S().m)
    {
      hide Core, Consistent, Free, DiskFull, Ptr, SameBytes, SameSizes, Sized, SmallSizes, IndirectReady, Wrote, FileByte, Resize, Size, StartTouch;
      ghost var s0 := S();
      ghost var last := if |buf| > 0 then (offset + |buf| - 1) / BLKSIZE else 0;
      HomeReadable(v, s0, f);
      var size := ReadWord(v.files[f].home, v.files[f].base + F_SIZE);
      SameSizesRefl(v, s0.m);
      SameBytesRefl(v, s0.m);
      if offset + |buf| > size {
        FileSetSize(f, offset + |buf|);
        CoreLength(v, s0);
        GrownSize(v, s0, S(), f, offset + |buf|, offset / BLKSIZE, last);
        if |buf| > 0 {
          GrownTouch(v, s0, S(), f, offset + |buf|, old(bc.Loaded()), bc.Loaded(), offset);
        }
      }
      ghost var s1 := S();
      if |buf| > 0 && s1 == s0 {
        TouchGrows(v, s0.m, old(bc.Loaded()), bc.Loaded(), f, offset);
      }
      r, done := WriteAll(f, buf, offset, last);
      WroteResized(v, s0.m, s1.m, S().m, f, buf[..done], offset);
      SizesGrown(v, s0.m, s1.m, S().m, f, offset + |buf|);
    }

    /** The loop of file_write. */
    method WriteAll(f: nat, buf: seq<Mmu.Byte>, offset: nat, ghost last: nat) returns (r: Count, ghost done: nat)
      requires Valid() && Regular(v, f) && Opened(f) && offset + |buf| <= Size(v, S().m, f)
      requires |buf| > 0 ==> StartTouch(v, S().m, bc.Loaded(), f, offset)
      requires |buf| > 0 ==> last == (offset + |buf| - 1) / BLKSIZE && IndirectReady(v, S().m, f, offset / BLKSIZE, last)
      modifies `owner, `held, bc`images, bc.mapped, bc.dirty, bc.page, bc.disk
      ensures old(bc.Loaded()) <= bc.Loaded()
      ensures Valid() && SameSizes(v, old(S().m), S().m)
      ensures done <= |buf| && Wrote(v, old(S().m), S().m, f, buf[..done], offset)
      ensures r.Count? ==> r.value == |buf| == done
      ensures r.CountError? ==> r.e == if (offset + done) / BLKSIZE >= MAXFILEBLOCKS then BadArgument else NoDisk
      ensures r == CountError(NoDisk) ==> DiskFull(v, S().m)
    {
      hide Core, Consistent, Free, DiskFull, Ptr, SameSizes, Sized, SmallSizes, IndirectReady, Wrote, FileByte, Size, StartTouch, EntryLoaded;
      ghost var s1 := S();
      WroteNothing(v, s1.m, f, offset);
      var pos := offset;
      while pos < offset + |buf|
        invariant offset <= pos <= offset + |buf| && old(bc.Loaded()) <= bc.Loaded()
        invariant pos < offset + |buf| ==> StartTouch(v, S().m, bc.Loaded(), f, pos)
        invariant Valid() && SameSizes(v, s1.m, S().m) && Wrote(v, s1.m, S().m, f, buf[..pos - offset], offset)
        invariant pos < offset + |buf| ==> IndirectReady(v, S().m, f, pos / BLKSIZE, last)
      {
        var bn := if BLKSIZE - pos % BLKSIZE <= offset + |buf| - pos then BLKSIZE - pos % BLKSIZE else offset + |buf| - pos;
        PosBelow(v, s1.m, S().m, f, pos, offset + |buf|);
        var error := WriteChunk(f, buf, offset, pos, bn, s1.m, last);
        if error.Some? {
          return CountError(error.value), pos - offset;
        }
        NextChunk(pos, bn);
        if pos + bn < offset + |buf| {
          NextTouch(v, S().m, bc.Loaded(), f, pos / BLKSIZE, pos + bn);
        }
        pos := pos + bn;
      }
      assert buf[..pos - offset] == buf[..|buf|];
      return Count(|buf|), |buf|;
    }

    // -------------------------------------------------------------- flushing

    /** The body of the loop of file_flush. */
    method FlushOne(f: nat, i: nat, ghost s0: State)
      requires Valid() && Opened(f) && EntryMapped(v, S().m, bc.Loaded(), f, i) && S() == s0.(d := S().d) && |S().d| == |s0.d| == |s0.m| == v.n
      requires BlocksOnDisk(v, s0.m, S().d, f, i)
      modifies `owner, `held, bc`images, bc.mapped, bc.dirty, bc.page, bc.disk
      ensures old(bc.Loaded()) <= bc.Loaded()
      ensures Valid() && S() == s0.(d := S().d) && |S().d| == v.n && BlocksOnDisk(v, s0.m, S().d, f, i + 1)
      ensures EntryMapped(v, S().m, bc.Loaded(), f, i + 1)
    {
      hide Core, Consistent, Free, Ptr, Sized, SmallSizes, BlocksOnDisk, At, EntryMapped;
      var walk := FileBlockWalk(f, i, false);
      if walk.WalkError? {
        NoPointer(v, s0.m, f, i);
        NothingMapped(v, S().m, bc.Loaded(), f, i);
        NoMoreOnDisk(v, s0.m, S().d, f, i);
        return;
      }
      ghost var s := S();
      SlotReadable(v, s, DataSlot(f, i));
      EntryGrows(v, s.m, old(bc.Loaded()), bc.Loaded(), f, i);
      WalkMapped(v, s.m, bc.Loaded(), f, i, walk.block, walk.word);
      var w := ReadWord(walk.block, walk.word);
      EntryNow(v, s.m, bc.Loaded(), f, i, walk.block, walk.word);
      if w == 0 {
        NoMoreOnDisk(v, s0.m, S().d, f, i);
        return;
      }
      AnyDataInRange(v, s, f, i);
      Flush(w);
      BlocksStay(v, s0.m, s.d, w, f, i);
      OneMoreOnDisk(v, s0.m, S().d, f, i);
    }

    /** The loop of file_flush. */
    method FlushBlocks(f: nat, nblocks: nat)
      requires Valid() && Opened(f)
      modifies `owner, `held, bc`images, bc.mapped, bc.dirty, bc.page, bc.disk
      ensures old(bc.Loaded()) <= bc.Loaded()
      ensures Valid() && S() == old(S()).(d := S().d) && BlocksOnDisk(v, S().m, S().d, f, nblocks)
    {
      hide Core, Consistent, Free, Ptr, Sized, SmallSizes;
      var i := 0;
      CoreLength(v, S());
      ghost var s0 := S();
      while i < nblocks
        invariant 0 <= i <= nblocks && old(bc.Loaded()) <= bc.Loaded() && EntryMapped(v, S().m, bc.Loaded(), f, i) && Valid() && S() == s0.(d := S().d) && |S().d| == v.n
        invariant BlocksOnDisk(v, s0.m, S().d, f, i)
      {
        FlushOne(f, i, s0);
        i := i + 1;
      }
    }

    /** file_flush: what the disk then holds of the file is what memory holds, its size and all its bytes. */
    method FileFlush(f: nat)
      requires Valid() && Regular(v, f) && Opened(f)
      modifies `owner, `held, bc`images, bc.mapped, bc.dirty, bc.page, bc.disk
      ensures old(bc.Loaded()) <= bc.Loaded()
      ensures Valid() && S() == old(S()).(d := S().d)
      ensures Size(v, S().d, f) == Size(v, S().m, f)
      ensures forall pos: nat :: FileByte(v, S().d, f, pos) == FileByte(v, S().m, f, pos)
    {
      hide Core, Consistent, Free, Ptr, Sized, SmallSizes, FileByte, Size, At;
      CoreLength(v, S());
      HomeReadable(v, S(), f);
      ghost var s0 := S();
      var size := ReadWord(v.files[f].home, v.files[f].base + F_SIZE);
      FlushBlocks(f, (size + BLKSIZE - 1) / BLKSIZE);
      ghost var s1 := S();
      Flush(v.files[f].home);
      BlocksStay(v, s0.m, s1.d, v.files[f].home, f, BlockCount(size));
      var indirect := ReadWord(v.files[f].home, v.files[f].base + F_INDIRECT);
      if indirect != 0 {
        HomeAndIndirect(v, s0, f);
        ghost var s2 := S();
        Flush(indirect);
        BlocksStay(v, s0.m, s2.d, indirect, f, BlockCount(size));
      }
      OnDisk(v, s0.m, S().d, f);
    }

    /** fs_sync: every block but 0 is on disk, so that the disk alone is a sound volume. */
    method FsSync()
      requires Valid()
      modifies bc`images, bc.mapped, bc.page, bc.dirty, bc.disk
      ensures old(bc.Loaded()) <= bc.Loaded()
      ensures Valid() && S() == old(S()).(d := S().d)
      ensures |S().d| == |S().m| == v.n && forall b :: 1 <= b < v.n ==> S().d[b] == S().m[b]
      ensures Owned(v, S().d, owner, {})
    {
      hide Core, Consistent, Free, Ptr, Sized, SmallSizes;
      CoreLength(v, S());
      ghost var s0 := S();
      var n := NBlocks();
      var i := 1;
      while i < n
        invariant 1 <= i && Valid() && S() == s0.(d := S().d) && |S().d| == v.n && old(bc.Loaded()) <= bc.Loaded()
        invariant forall b :: 1 <= b < i && b < v.n ==> S().d[b] == s0.m[b]
      {
        Flush(i);
        i := i + 1;
      }
      SyncedVolume(v, s0, S().d);
    }

    // -------------------------------------------------------------- whole runs

    /** May this call be made? What the callers owe: a regular file that has been found, sizes below 2^31, block
        lookups below the end of the file, zeros in the block that becomes an indirect block, and no first touch
        of a block off its start. */
    ghost predicate MayCall(op: Op)
      reads this, bc, bc.mapped, bc.dirty, bc.page, bc.disk
    {
      && Valid()
      && match op
         case Find(f) => f < |v.files|
         case Read(f, count, offset) => Regular(v, f) && MayRead(f, count, offset)
         case Write(f, buf, offset) => Regular(v, f) && offset + |buf| <= MAXSIZE && MayWrite(f, |buf|, offset)
         case SetSize(f, size) =>
           Regular(v, f) && size <= MAXSIZE && Opened(f) && CutTouch(v, S().m, bc.Loaded(), f, size)
         case GetBlock(f, k) =>
           Opened(f) && k < BlockCount(Size(v, S().m, f)) && IndirectReady(v, S().m, f, k, k) && EntryTouch(v, S().m, bc.Loaded(), f, k)
         case FlushFile(f) => Regular(v, f) && Opened(f)
         case Sync => true
    }

    /** One call. */
    method Serve(op: Op)
      requires MayCall(op)
      modifies `owner, `held, `cut, bc`images, bc.mapped, bc.dirty, bc.page, bc.disk
      ensures old(bc.Loaded()) <= bc.Loaded()
      ensures Valid()
    {
      hide Core, Consistent, Free, Ptr, SameBytes, SameSizes, FreeKept, Grown, Sized, SmallSizes, IndirectReady, FileByte, StartTouch, EntryTouch, CutTouch;
      match op
      case Find(f) => Open(f);
      case Read(f, count, offset) => var r, buf := FileRead(f, count, offset);
      case Write(f, buf, offset) => ghost var done; var r; r, done := FileWrite(f, buf, offset);
      case SetSize(f, size) => FileSetSize(f, size);
      case GetBlock(f, k) =>
        ghost var s := S();
        SameSizesRefl(v, s.m);
        var r := FileGetBlock(f, k);
        GrownKeeps(v, s.m, s, S(), f, k, r.Count?);
      case FlushFile(f) => FileFlush(f);
      case Sync => FsSync();
    }
  }

  /** Does the disk pass check_super and check_bitmap: the magic number, no more blocks than fit, and the blocks of
      the bitmap, block 0 and the super block marked in use? */
  ghost predicate ChecksPass(image: Image) {
    && At(image, 1, 0) == 0x4A0530AE && At(image, 1, 1) <= 0xC000_0000 / 4096
    && !Free(image, 0) && !Free(image, 1)
    && forall i: nat :: i * BLKBITSIZE < At(image, 1, 1) ==> !Free(image, 2 + i)
  }

  lemma ReservedMarked(v: Volume, image: Image, i: nat)
    requires Placed(v) && i * BLKBITSIZE < v.n
    ensures 2 + i < Reserved(v.n) <= v.n
  {}

  /** On whatever the disk has ever held, the server starts again: no check of fs_init panics. */
  lemma RebootPasses(v: Volume, image: Image)
    requires Placed(v) && Consistent(v, image)
    ensures ChecksPass(image)
  {
    hide Free, At, Ptr;
    forall i: nat | i * BLKBITSIZE < At(image, 1, 1) ensures !Free(image, 2 + i) {
      ReservedMarked(v, image, i);
    }
  }

  lemma OwnedPasses(v: Volume, image: Image, owner: map<nat, Volumes.Slot>)
    requires Placed(v) && Owned(v, image, owner, {})
    ensures ChecksPass(image)
  {
    hide Free, At, PointersOk, HomesOk;
    forall i: nat | i * BLKBITSIZE < At(image, 1, 1) ensures !Free(image, 2 + i) {
      ReservedMarked(v, image, i);
    }
  }

  /** fs_init: the number of blocks comes from the super block. None is a panic, and comes to no disk whose blocks
      are soundly owned for that number. */
  method FsInit(files: seq<Inode>, image: Image, ghost owner: map<nat, Volumes.Slot>) returns (r: Option<Fs>)
    requires |image| > 1
    requires ChecksPass(image) ==>
               var v := Volume(At(image, 1, 1), files);
               Placed(v) && Owned(v, image, owner, {}) && Sized(v, image) && SmallSizes(v, image)
    ensures r.Some? <==> ChecksPass(image)
    ensures r.Some? ==>
              && fresh(r.value) && fresh(r.value.bc) && r.value.v == Volume(At(image, 1, 1), files)
              && (r.value.Valid() <==> r.value.v.n <= BLKBITSIZE)
              && r.value.bc.Valid() && r.value.S() == State(image, image, owner, {}, {})
              && fresh(r.value.bc.mapped) && fresh(r.value.bc.page) && fresh(r.value.bc.dirty) && fresh(r.value.bc.disk)
              && forall f: nat :: f < |files| && files[f].home == 1 ==> r.value.Opened(f)
  {
    hide Owned, Sized, SmallSizes, Placed, Core, Free;
    if Word(image[1], 0) != FS_MAGIC || Word(image[1], 1) > DISK_BLOCKS {
      return None;
    }
    var n := Word(image[1], 1);
    var i := 0;
    while i * BLKBITSIZE < n
      invariant forall b: nat :: 2 <= b < 2 + i ==> !Free(image, b)
      decreases n - i * BLKBITSIZE
    {
      if Free(image, 2 + i) {
        assert !ChecksPass(image);
        return None;
      }
      i := i + 1;
    }
    if Free(image, 0) || Free(image, 1) {
      return None;
    }
    assert ChecksPass(image);
    var fs := new Fs(Volume(n, files), image, owner);
    return Some(fs);
  }

  /** A disk formatted with at least one file, as the server finds it: the invariant holds from the start. */
  method Mount(nblocks: nat, files: seq<seq<Mmu.Byte>>) returns (r: Option<Fs>)
    requires 2 <= nblocks <= 1024 && |files| > 0
    ensures r.Some? <==> Formats.Fits(nblocks, files)
    ensures r.Some? ==>
              && fresh(r.value) && fresh(r.value.bc)
              && fresh(r.value.bc.mapped) && fresh(r.value.bc.page) && fresh(r.value.bc.dirty) && fresh(r.value.bc.disk)
              && r.value.Valid() && Formats.Holds(r.value.v, r.value.S().m, files) && r.value.v.n == nblocks
              && forall b: nat :: b < nblocks ==> (Free(r.value.S().m, b) <==> Formats.HandedOut(files) <= b)
  {
    hide Owned, Sized, SmallSizes, Placed, Core, Formats.Holds, Free;
    var image, v;
    ghost var owner;
    image, v, owner := Formats.Format(nblocks, files);
    if image == None {
      return None;
    }
    OwnedPasses(v, image.value, owner);
    r := FsInit(v.files, image.value, owner);
  }

  /** On a newly formatted disk alloc_block hands out the first block that fsformat did not use. */
  method FirstAlloc(nblocks: nat, files: seq<seq<Mmu.Byte>>) returns (b: Option<nat>)
    requires 2 <= nblocks <= 1024 && |files| > 0
    ensures b == if Formats.Fits(nblocks, files) then Some(Formats.HandedOut(files)) else None
  {
    hide Sound, Consistent, Free, Sized, SmallSizes, Formats.Fits, Formats.Holds;
    var fs := Mount(nblocks, files);
    if fs == None {
      return None;
    }
    Formats.FitsBelow(nblocks, files);
    ghost var next := Formats.HandedOut(files);
    assert Free(fs.value.S().m, next);
    b := fs.value.AllocBlock();
  }

  datatype Op =
    | Find(f: nat) | Read(f: nat, count: nat, offset: nat) | Write(f: nat, buf: seq<Mmu.Byte>, offset: nat)
    | SetSize(f: nat, size: nat) | GetBlock(f: nat, k: nat) | FlushFile(f: nat) | Sync

  /** From s to s' the pointer to block k of f is gone, if there was one. */
  ghost predicate Cut(v: Volume, s: State, s': State, f: nat, k: nat)
    requires f < |v.files| && k < MAXFILEBLOCKS
  {
    var p := Ptr(v, s.m, DataSlot(f, k));
    && s'.d == s.d && s'.held == s.held
    && (if p == 0 then s'.owner == s.owner && s'.cut == s.cut
        else p in s.owner && s.owner[p] == DataSlot(f, k) && s'.owner == s.owner - {p} && s'.cut == s.cut + {f})
    && (forall t :: ValidSlot(v, t) ==> Ptr(v, s'.m, t) == if t == DataSlot(f, k) then 0 else Ptr(v, s.m, t))
    && SameBytes(v, s.m, s'.m, f, k, true) && SameSizes(v, s.m, s'.m)
  }

  lemma CutGrows(v: Volume, s: State, s': State, f: nat, k: nat)
    requires f < |v.files| && k < MAXFILEBLOCKS && Cut(v, s, s', f, k)
    ensures s'.cut <= s.cut + {f}
  {
    hide Ptr, FileByte;
  }

  lemma NothingToCut(v: Volume, s: State, f: nat, k: nat)
    requires f < |v.files| && k < MAXFILEBLOCKS
    requires (k >= NDIRECT && IndirectOf(v, s.m, f) == 0) || Ptr(v, s.m, DataSlot(f, k)) == 0
    ensures Cut(v, s, s, f, k)
  {
    hide At, FileByte;
  }

  lemma CutFacts(v: Volume, s: State, f: nat, k: nat)
    requires Sound(v, s) && Regular(v, f) && k < MAXFILEBLOCKS && Ptr(v, s.m, DataSlot(f, k)) != 0
    ensures var t, p := DataSlot(f, k), Ptr(v, s.m, DataSlot(f, k));
            && p < v.n && 0 < BitBlock(p) < v.n && BitBlock(p) < |s.m| == v.n && !Free(s.m, BitBlock(p))
            && SlotBlock(v, s.m, t) < |s.m| && SlotWord(v, t) < BLKWORDS && p in s.owner
            && var m1 := Marked(s.m, p, true);
               && !Free(m1, SlotBlock(v, s.m, t))
               && var m2 := m1[SlotBlock(v, s.m, t) := WithWord(m1[SlotBlock(v, s.m, t)], SlotWord(v, t), 0)];
                  var s' := State(m2, s.d, s.owner - {p}, s.held, s.cut + {f});
                  Sound(v, s') && Cut(v, s, s', f, k)
  {
    hide Free, Owned, PointersOnDisk, BitsOnDisk, SameBytes, SameSizes, Ptr, At;
    var t, p := DataSlot(f, k), Ptr(v, s.m, DataSlot(f, k));
    CutStep(v, s.m, s.d, s.owner, s.held, s.cut, f, k);
    BitmapReadable(v, s, p);
    if t.Entry? {
      EntryNeedsIndirect(v, s.m, t);
    }
    SlotReadable(v, s, t);
    MarkedBit(s.m, p, true, SlotBlock(v, s.m, t));
    SlotNotData(v, s, t, p);
  }

  lemma SlotNotData(v: Volume, s: State, t: Volumes.Slot, p: nat)
    requires Sound(v, s) && ValidSlot(v, t) && p in s.owner && IsData(v, s.owner[p], false)
    requires t.Entry? ==> IndirectOf(v, s.m, t.f) != 0
    ensures SlotBlock(v, s.m, t) != p
  {
    SlotElsewhere(v, s.m, s.owner, t);
    hide Owned, PointersOnDisk, BitsOnDisk;
  }

  /** From s to s' file f has at most gained its block k and, for that, its indirect block. */
  ghost predicate Grown(v: Volume, s: State, s': State, f: nat, k: nat, except: bool) {
    && s'.cut == s.cut
    && SameBytes(v, s.m, s'.m, f, k, except) && SameSizes(v, s.m, s'.m) && FreeKept(s.m, s'.m)
    && (forall b :: b in s.owner ==> b in s'.owner && s'.owner[b] == s.owner[b])
    && (forall b :: b in s'.owner && b !in s.owner ==> Free(s.m, b))
    && (f < |v.files| && k < NDIRECT ==>
          if Ptr(v, s'.m, Direct(f, k)) == Ptr(v, s.m, Direct(f, k)) then FreeFrom(s'.m, v.n, 0) == FreeFrom(s.m, v.n, 0)
          else Spent(v.n, s.m, s'.m, Ptr(v, s'.m, Direct(f, k))))
    && forall t :: ValidSlot(v, t) ==>
         || Ptr(v, s'.m, t) == Ptr(v, s.m, t)
         || (Ptr(v, s.m, t) == 0 && t.f == f && ((except && t == DataSlot(f, k)) || (t.Indirect? && k >= NDIRECT)))
  }

  lemma GrownSame(v: Volume, s: State, f: nat, k: nat, except: bool)
    ensures Grown(v, s, s, f, k, except)
  {}

  lemma GrownEither(v: Volume, s: State, s': State, f: nat, k: nat)
    requires Grown(v, s, s', f, k, false)
    ensures Grown(v, s, s', f, k, true)
  {
    hide FileByte, Ptr, Free, SameSizes;
  }

  lemma PresentIndirect(v: Volume, s: State, f: nat, k: nat)
    requires Sound(v, s) && f < |v.files|
    ensures k < MAXFILEBLOCKS && Ptr(v, s.m, DataSlot(f, k)) != 0 && k >= NDIRECT ==> IndirectOf(v, s.m, f) != 0
  {
    hide Core;
    if k < MAXFILEBLOCKS && Ptr(v, s.m, DataSlot(f, k)) != 0 && k >= NDIRECT {
      EntryNeedsIndirect(v, s.m, DataSlot(f, k));
    }
  }

  /** What a successful file_block_walk has done. */
  lemma WalkGrown(v: Volume, s: State, s': State, f: nat, k: nat)
    requires f < |v.files| && k < MAXFILEBLOCKS && s'.cut == s.cut
    requires s' == s || (var b := IndirectOf(v, s'.m, f);
                         && NDIRECT <= k && Free(s.m, b) && b !in s.owner && s'.owner == s.owner[b := Indirect(f)]
                         && IndirectOf(v, s.m, f) == 0 && Gains(v, s.m, s'.m, Indirect(f), b, 0, 0, false))
    ensures Grown(v, s, s', f, k, false)
    ensures s' == s || (k >= NDIRECT && IndirectOf(v, s.m, f) == 0 && Ptr(v, s'.m, DataSlot(f, k)) == 0)
  {
    hide Free, FileByte, Size, FreeKept, At;
    if s' == s {
      GrownSame(v, s, f, k, false);
    } else {
      IndirectPtr(v, s.m, f);
      NoEntries(v, s.m, f, DataSlot(f, k));
      hide Ptr;
    }
  }

  // ---------------------------------------------------------------- what can be touched

  /** The bitmap is a single block exactly on disks of up to 32768 blocks. */
  lemma OneBitmapBlock(v: Volume)
    requires Placed(v)
    ensures 2 < v.n && (v.n <= BLKBITSIZE ==> forall b: nat :: b < v.n ==> BitBlock(b) == 2)
    ensures v.n > BLKBITSIZE ==> BitBlock(BLKBITSIZE) == 3
  {}

  /** After file_block_walk, *ppdiskbno can be read. */
  lemma LookedUp(v: Volume, s: State, s1: State, loaded: set<nat>, f: nat, k: nat, block: nat, word: nat)
    requires f < |v.files| && k < MAXFILEBLOCKS && EntryTouch(v, s.m, loaded, f, k) && v.files[f].home in loaded
    requires Walk.Slot(block, word) == WalkTo(v, s1.m, DataSlot(f, k))
    requires k >= NDIRECT ==> IndirectOf(v, s1.m, f) != 0
    requires s1 == s || (IndirectOf(v, s.m, f) == 0 && Gains(v, s.m, s1.m, Indirect(f), IndirectOf(v, s1.m, f), 0, 0, false))
    ensures block in loaded || word == 0
  {
    if k >= NDIRECT {
      WalkTouch(v, s.m, s1.m, loaded, f, k, block, word);
    }
  }

  /** The block found, or taken, is the one to be expected. */
  lemma FoundIs(v: Volume, s: State, s1: State, f: nat, k: nat, w: nat)
    requires f < |v.files| && k < MAXFILEBLOCKS && w == Ptr(v, s1.m, DataSlot(f, k)) != 0
    requires s1 == s || Ptr(v, s1.m, DataSlot(f, k)) == 0
    ensures w == BlockFor(v, s.m, f, k)
  {
    hide Ptr;
  }

  lemma TookIs(v: Volume, s: State, s1: State, s2: State, f: nat, k: nat, b: nat)
    requires f < |v.files| && k < MAXFILEBLOCKS && Ptr(v, s1.m, DataSlot(f, k)) == 0
    requires Gains(v, s1.m, s2.m, DataSlot(f, k), b, f, k, true)
    requires k >= NDIRECT ==> IndirectOf(v, s1.m, f) != 0
    requires s1 == s || (k >= NDIRECT && IndirectOf(v, s.m, f) == 0
                         && Gains(v, s.m, s1.m, Indirect(f), IndirectOf(v, s1.m, f), 0, 0, false))
    ensures b == BlockFor(v, s.m, f, k)
  {
    assert Ptr(v, s.m, DataSlot(f, k)) == 0;
    hide Ptr, At, SameBytes, SameSizes, FreeKept, Spent;
    TakenIs(v, s.m, s1.m, s2.m, f, k, b);
  }

  /** The indirect block of an entry that has been read is mapped, and stays. */
  lemma StillLoaded(v: Volume, s1: State, s2: State, f: nat, k: nat, b: nat)
    requires f < |v.files| && k < MAXFILEBLOCKS && Gains(v, s1.m, s2.m, DataSlot(f, k), b, f, k, true)
    ensures IndirectOf(v, s2.m, f) == IndirectOf(v, s1.m, f)
  {
    IndirectPtr(v, s1.m, f);
    IndirectPtr(v, s2.m, f);
    assert Indirect(f) != DataSlot(f, k) && ValidSlot(v, Indirect(f));
    hide Ptr, At, SameBytes, SameSizes, FreeKept, Spent;
  }

  lemma EntryFound(v: Volume, m: Image, loaded: set<nat>, f: nat, k: nat, block: nat, word: nat)
    requires f < |v.files| && k < MAXFILEBLOCKS && Walk.Slot(block, word) == WalkTo(v, m, DataSlot(f, k))
    requires block in loaded && (k >= NDIRECT ==> IndirectOf(v, m, f) != 0)
    ensures EntryLoaded(v, m, loaded, f, k)
  {}

  lemma WalkMapped(v: Volume, m: Image, loaded: set<nat>, f: nat, k: nat, block: nat, word: nat)
    requires f < |v.files| && k < MAXFILEBLOCKS && EntryMapped(v, m, loaded, f, k) && v.files[f].home in loaded
    requires Walk.Slot(block, word) == WalkTo(v, m, DataSlot(f, k)) && (k >= NDIRECT ==> IndirectOf(v, m, f) != 0)
    ensures block in loaded || word == 0
  {}

  lemma EntryNow(v: Volume, m: Image, loaded: set<nat>, f: nat, k: nat, block: nat, word: nat)
    requires f < |v.files| && k < MAXFILEBLOCKS && Walk.Slot(block, word) == WalkTo(v, m, DataSlot(f, k))
    requires block in loaded
    ensures EntryMapped(v, m, loaded, f, k + 1)
  {}

  lemma NothingMapped(v: Volume, m: Image, loaded: set<nat>, f: nat, k: nat)
    requires f < |v.files| && (k >= MAXFILEBLOCKS || IndirectOf(v, m, f) == 0)
    ensures EntryMapped(v, m, loaded, f, k + 1)
  {}

  lemma CutMapped(v: Volume, s: State, s': State, loaded: set<nat>, f: nat, k: nat, block: nat, word: nat)
    requires f < |v.files| && k < MAXFILEBLOCKS && Cut(v, s, s', f, k)
    requires Walk.Slot(block, word) == WalkTo(v, s.m, DataSlot(f, k)) && block in loaded
    ensures EntryMapped(v, s'.m, loaded, f, k + 1)
  {
    IndirectPtr(v, s.m, f);
    IndirectPtr(v, s'.m, f);
    assert Indirect(f) != DataSlot(f, k) && ValidSlot(v, Indirect(f));
    hide Ptr, At, SameBytes, SameSizes;
  }

  lemma StillEntry(v: Volume, m: Image, m': Image, loaded: set<nat>, loaded': set<nat>, f: nat, k: nat)
    requires f < |v.files| && EntryLoaded(v, m, loaded, f, k) && loaded <= loaded' && IndirectOf(v, m', f) == IndirectOf(v, m, f)
    ensures EntryLoaded(v, m', loaded', f, k)
  {}

  /** Growing a file changes nothing about what a transfer touches. */
  lemma GrownTouch(v: Volume, s: State, s': State, f: nat, x: nat, loaded: set<nat>, loaded': set<nat>, pos: nat)
    requires f < |v.files| && Size(v, s.m, f) < x && Resize(v, s, s', f, x) && loaded <= loaded'
    requires StartTouch(v, s.m, loaded, f, pos)
    ensures StartTouch(v, s'.m, loaded', f, pos)
  {
    hide StartTouch, FileByte, Ptr, Size, Free, FreeKept, At;
    TouchSame(v, s.m, s'.m, loaded, loaded', f, pos);
  }

  lemma SlotReadable(v: Volume, s: State, t: Volumes.Slot)
    requires Sound(v, s) && ValidSlot(v, t) && (t.Entry? ==> IndirectOf(v, s.m, t.f) != 0)
    ensures 0 < SlotBlock(v, s.m, t) < v.n == |s.m| && SlotWord(v, t) < BLKWORDS && !Free(s.m, SlotBlock(v, s.m, t))
    ensures Ptr(v, s.m, t) == Word(s.m[SlotBlock(v, s.m, t)], SlotWord(v, t))
  {
    SlotInRange(v, s.m, s.owner, s.held, t);
    hide Free;
  }

  /** alloc_block followed by *ppdiskbno = b. */
  lemma DataAlloced(v: Volume, s: State, f: nat, k: nat, b: nat)
    requires Sound(v, s) && s.cut == {} && f < |v.files| && k < MAXFILEBLOCKS
    requires k >= NDIRECT ==> IndirectOf(v, s.m, f) != 0
    requires Ptr(v, s.m, DataSlot(f, k)) == 0
    requires b < v.n && Free(s.m, b) && BitBlock(b) < |s.m| == |s.d| && Sound(v, Alloced(s, b))
    requires forall c: nat :: c < b ==> !Free(s.m, c)
    ensures 0 < b < v.n && b !in s.owner && b !in s.held && b < WORD_LIMIT
    ensures var t, s1 := DataSlot(f, k), Alloced(s, b);
            && (k >= NDIRECT ==> IndirectOf(v, s1.m, f) != 0)
            && SlotBlock(v, s1.m, t) == SlotBlock(v, s.m, t) < |s1.m| && SlotWord(v, t) < BLKWORDS
            && var m2 := Stored(v, s1.m, t, b);
               && Sound(v, State(m2, s1.d, s.owner[b := t], s1.held - {b}, {}))
               && Gains(v, s.m, m2, t, b, f, k, true)
  {
    hide Free, Owned, PointersOnDisk, BitsOnDisk, SameBytes, SameSizes, FreeKept, Ptr, Blank, At, Spent;
    AllocStep(v, s.m, s.d, s.owner, s.held, {}, b);
    var s1 := Alloced(s, b);
    IndirectPtr(v, s.m, f);
    IndirectPtr(v, s1.m, f);
    FillStep(v, s1.m, s1.d, s.owner, s1.held, {}, f, k, b);
    var m2 := Stored(v, s1.m, DataSlot(f, k), b);
    GainedFree(v, s, b, DataSlot(f, k), b);
    GainedSpent(v, s, b, DataSlot(f, k), b);
    SameBytesLift(v, s.m, s1.m, f, k);
    SameBytesTrans(v, s.m, s1.m, m2, f, k, true);
    SameSizesTrans(v, s.m, s1.m, m2);
  }

  lemma GrownTwice(v: Volume, s: State, s1: State, s2: State, f: nat, k: nat, b: nat)
    requires Grown(v, s, s1, f, k, false) && f < |v.files| && k < MAXFILEBLOCKS && s2.cut == s1.cut
    requires Gains(v, s1.m, s2.m, DataSlot(f, k), b, f, k, true) && Ptr(v, s1.m, DataSlot(f, k)) == 0
    requires b !in s1.owner && s2.owner == s1.owner[b := DataSlot(f, k)] && Free(s1.m, b) && 0 < b < |s.m|
    ensures Grown(v, s, s2, f, k, true)
    ensures Ptr(v, s2.m, DataSlot(f, k)) == b
  {
    hide FileByte, Ptr, Free, Size, FreeFrom;
    assert k < NDIRECT ==> ValidSlot(v, Direct(f, k)) && Ptr(v, s1.m, Direct(f, k)) == Ptr(v, s.m, Direct(f, k));
    FreeKeptTrans(s.m, s1.m, s2.m);
  }

  function WalkTo(v: Volume, m: Image, s: Volumes.Slot): Walk
    requires ValidSlot(v, s)
  {
    Walk.Slot(SlotBlock(v, m, s), SlotWord(v, s))
  }

  lemma AllocedBits(v: Volume, s: State, b: nat)
    requires b < v.n && BitBlock(b) < |s.m| == |s.d|
    ensures forall c: nat :: c < v.n ==> (Free(Alloced(s, b).m, c) <==> Free(s.m, c) && c != b)
    ensures !Free(Alloced(s, b).d, b)
  {
    forall c: nat | c < v.n ensures Free(Alloced(s, b).m, c) <==> Free(s.m, c) && c != b {
      MarkedBit(s.m, b, false, c);
    }
    MarkedBit(s.m, b, false, b);
    FreeAfterFlush(Alloced(s, b).m, s.d, BitBlock(b), b);
    hide Free;
  }

  lemma SuperReadable(v: Volume, s: State)
    requires Sound(v, s)
    ensures 1 < v.n == |s.m| && !Free(s.m, 1) && Word(s.m[1], 0) == FS_MAGIC && Word(s.m[1], 1) == v.n
  {
    hide PointersOnDisk, BitsOnDisk, PointersOk, HomesOk, Free;
  }

  lemma HomeReadable(v: Volume, s: State, f: nat)
    requires Sound(v, s) && f < |v.files|
    ensures 0 < v.files[f].home < v.n == |s.m| && v.files[f].base + FILE_WORDS <= BLKWORDS && !Free(s.m, v.files[f].home)
    ensures IndirectOf(v, s.m, f) == Word(s.m[v.files[f].home], v.files[f].base + F_INDIRECT)
    ensures Size(v, s.m, f) == Word(s.m[v.files[f].home], v.files[f].base + F_SIZE)
  {
    HomeInUse(v, s.m, s.owner, s.held, f);
    hide Free;
  }

  /** alloc_block followed by f->f_indirect = b. */
  lemma IndirectAlloced(v: Volume, s: State, f: nat, b: nat)
    requires Sound(v, s) && s.cut == {} && f < |v.files| && IndirectOf(v, s.m, f) == 0
    requires b < v.n && Free(s.m, b) && BitBlock(b) < |s.m| == |s.d| && Blank(s.m[b])
    requires Sound(v, Alloced(s, b)) && forall c: nat :: c < b ==> !Free(s.m, c)
    ensures 0 < b < v.n && b !in s.owner && b !in s.held && b < WORD_LIMIT
    ensures var home, base, s1 := v.files[f].home, v.files[f].base, Alloced(s, b);
            && home < |s1.m| && base + F_INDIRECT < BLKWORDS
            && var m2 := s1.m[home := WithWord(s1.m[home], base + F_INDIRECT, b)];
               && Sound(v, State(m2, s1.d, s.owner[b := Indirect(f)], s1.held - {b}, {}))
               && Gains(v, s.m, m2, Indirect(f), b, 0, 0, false)
               && Ptr(v, m2, Indirect(f)) == b
  {
    hide Free, Owned, PointersOnDisk, BitsOnDisk, SameBytes, SameSizes, FreeKept, Ptr, Blank, At, Spent;
    AllocStep(v, s.m, s.d, s.owner, s.held, {}, b);
    var s1 := Alloced(s, b);
    IndirectPtr(v, s.m, f);
    IndirectPtr(v, s1.m, f);
    assert s1.m[b] == s.m[b] by { BitBlockReserved(v.n, b); }
    InstallStep(v, s1.m, s1.d, s.owner, s1.held, {}, f, b);
    var m2 := Stored(v, s1.m, Indirect(f), b);
    GainedFree(v, s, b, Indirect(f), b);
    GainedSpent(v, s, b, Indirect(f), b);
    SameBytesTrans(v, s.m, s1.m, m2, 0, 0, false);
    SameSizesTrans(v, s.m, s1.m, m2);
  }

  /** alloc_block followed by f->f_indirect = b, whatever b holds. */
  lemma IndirectTaken(v: Volume, s: State, f: nat, b: nat)
    requires Sound(v, s) && f < |v.files| && IndirectOf(v, s.m, f) == 0
    requires b < v.n && Free(s.m, b) && BitBlock(b) < |s.m| == |s.d| && forall c: nat :: c < b ==> !Free(s.m, c)
    requires Sound(v, Alloced(s, b))
    ensures b < |s.m| && b !in s.held && b < WORD_LIMIT
    ensures var m1 := Alloced(s, b).m; SlotBlock(v, m1, Indirect(f)) < |m1| && SlotWord(v, Indirect(f)) < BLKWORDS
    ensures var m' := Stored(v, Alloced(s, b).m, Indirect(f), b);
            Taken(v, s.m, m', f, b) && ((exists owner' :: Owned(v, m', owner', s.held)) <==> Blank(s.m[b]))
  {
    hide Free, Owned, PointersOnDisk, BitsOnDisk, Ptr, Blank, At, Stored;
    var s1 := Alloced(s, b);
    AllocStep(v, s.m, s.d, s.owner, s.held, s.cut, b);
    IndirectPtr(v, s.m, f);
    IndirectPtr(v, s1.m, f);
    assert s1.m[b] == s.m[b] by { BitBlockReserved(v.n, b); }
    NewIndirectIff(v, s1.m, s1.owner, s1.held, f, b);
    assert s1.held - {b} == s.held;
  }

  lemma SoundOwned(v: Volume, s: State)
    ensures Sound(v, s) ==> Owned(v, s.m, s.owner, s.held)
  {
    hide Owned;
  }

  lemma ZeroNotFree(v: Volume, s: State, b: nat)
    requires Sound(v, s) && b < v.n && Free(s.m, b)
    ensures b != 0
  {
    hide PointersOnDisk, BitsOnDisk, Free;
  }

  lemma TakenStale(v: Volume, m: Image, m': Image, f: nat, b: nat, k: nat)
    requires f < |v.files| && IndirectOf(v, m, f) == 0 && NDIRECT <= k < MAXFILEBLOCKS && |m| == v.n && Taken(v, m, m', f, b)
    ensures TakesStale(v, m, f, k) <==> !Blank(m[b])
    ensures IndirectOf(v, m', f) == b && Free(m, b) && b < v.n
  {
    FirstFree(m, v.n, 0, b);
    var home, i := v.files[f].home, v.files[f].base + F_INDIRECT;
    hide Free, Blank, Marked, FreeFrom;
    AtStored(Marked(m, b, false), home, i, b, home, i);
  }

  lemma {:induction false} NoneFree(m: Image, n: nat, i: nat)
    requires forall b: nat :: i <= b < n ==> !Free(m, b)
    ensures FreeFrom(m, n, i) == []
    decreases n - i
  {
    hide Free;
    if i < n {
      NoneFree(m, n, i + 1);
    }
  }

  lemma NotStale(v: Volume, m: Image, f: nat, k: nat)
    requires f < |v.files| && (DiskFull(v, m) || k < NDIRECT || k >= MAXFILEBLOCKS || IndirectOf(v, m, f) != 0)
    ensures !TakesStale(v, m, f, k)
  {
    hide Free, FreeFrom, Blank, At;
    if DiskFull(v, m) {
      NoneFree(m, v.n, 0);
    }
  }

  lemma {:induction false} FirstFree(m: Image, n: nat, i: nat, b: nat)
    requires i <= b < n && Free(m, b) && forall c: nat :: i <= c < b ==> !Free(m, c)
    ensures FreeFrom(m, n, i) != [] && FreeFrom(m, n, i)[0] == b
    decreases b - i
  {
    hide Free;
    if i < b {
      FirstFree(m, n, i + 1, b);
    }
  }

  lemma GainedSpent(v: Volume, s: State, b: nat, t: Volumes.Slot, x: nat)
    requires Sound(v, s) && b < v.n && BitBlock(b) < |s.m| == |s.d| && Sound(v, Alloced(s, b))
    requires ValidSlot(v, t) && x < WORD_LIMIT && Free(s.m, b) && forall c: nat :: c < b ==> !Free(s.m, c)
    requires t.Entry? ==> IndirectOf(v, Alloced(s, b).m, t.f) != 0
    ensures var m1 := Alloced(s, b).m;
            SlotBlock(v, m1, t) < |m1| && SlotWord(v, t) < BLKWORDS && Spent(v.n, s.m, Stored(v, m1, t, x), b)
  {
    var s1 := Alloced(s, b);
    hide Free, Owned, PointersOnDisk, BitsOnDisk, Marked;
    forall c: nat | c < v.n
      ensures SlotBlock(v, s1.m, t) < |s1.m| && SlotWord(v, t) < BLKWORDS
      ensures Free(Stored(v, s1.m, t, x), c) == (c != b && Free(s.m, c))
    {
      MarkedBit(s.m, b, false, c);
      StoredBits(v, s1.m, s1.owner, s1.held, t, x, c);
    }
    assert SlotBlock(v, s1.m, t) < |s1.m| && SlotWord(v, t) < BLKWORDS by { StoredBits(v, s1.m, s1.owner, s1.held, t, x, b); }
    TakeLowest(s.m, Stored(v, s1.m, t, x), v.n, 0, b);
  }

  lemma GainedFree(v: Volume, s: State, b: nat, t: Volumes.Slot, x: nat)
    requires Sound(v, s) && b < v.n && BitBlock(b) < |s.m| == |s.d| && Sound(v, Alloced(s, b))
    requires ValidSlot(v, t) && x < WORD_LIMIT
    requires t.Entry? ==> IndirectOf(v, Alloced(s, b).m, t.f) != 0
    ensures var m1 := Alloced(s, b).m;
            SlotBlock(v, m1, t) < |m1| && SlotWord(v, t) < BLKWORDS && FreeKept(s.m, Stored(v, m1, t, x))
  {
    hide Free, PointersOk, HomesOk, BitmapOk, PointersOnDisk, BitsOnDisk, FreeKept;
    var s1 := Alloced(s, b);
    AllocFreeKept(v, s.m, s.owner, s.held, b);
    StoreFreeKept(v, s1.m, s1.owner, s1.held, t, x);
    FreeKeptTrans(s.m, s1.m, Stored(v, s1.m, t, x));
  }

  lemma CoreLength(v: Volume, s: State)
    requires Sound(v, s)
    ensures |s.m| == |s.d| == v.n && Placed(v)
  {}

  /** The bitmap can be read: its blocks exist and are not free. */
  lemma BitmapReadable(v: Volume, s: State, b: nat)
    requires Sound(v, s) && b < v.n
    ensures |s.m| == v.n && 0 < BitBlock(b) < v.n && !Free(s.m, BitBlock(b))
  {
    BitBlockReserved(v.n, b);
    hide Free;
  }

  // ---------------------------------------------------------------- what truncation does

  function SlotIndex(s: Volumes.Slot): nat {
    match s
    case Direct(_, i) => i
    case Entry(_, i) => NDIRECT + i
    case Indirect(_) => 0
  }

  /** The pointers of f to its blocks lo to hi - 1, and if `ind` that to its indirect block. */
  predicate Gone(t: Volumes.Slot, f: nat, lo: nat, hi: nat, ind: bool) {
    t.f == f && if t.Indirect? then ind else lo <= SlotIndex(t) < hi
  }

  ghost predicate PtrsGone(v: Volume, m: Image, m': Image, f: nat, lo: nat, hi: nat, ind: bool) {
    forall t :: ValidSlot(v, t) ==> Ptr(v, m', t) == if Gone(t, f, lo, hi, ind) then 0 else Ptr(v, m, t)
  }

  ghost predicate OwnersGone(owner: map<nat, Volumes.Slot>, owner': map<nat, Volumes.Slot>, f: nat, lo: nat, hi: nat, ind: bool) {
    owner' == map b | b in owner && !Gone(owner[b], f, lo, hi, ind) :: owner[b]
  }

  ghost predicate BytesGone(v: Volume, m: Image, m': Image, f: nat, lo: nat, hi: nat) {
    forall g, pos: nat :: Regular(v, g) ==>
      FileByte(v, m', g, pos) == if g == f && lo <= pos / BLKSIZE < hi then None else FileByte(v, m, g, pos)
  }

  /** Blocks lo to hi - 1 of f are gone: their pointers are 0, the blocks have no owner (and so are free), the
      bytes there are gone; the indirect block likewise if `ind`; and everything else is as it was. */
  ghost predicate Lost(v: Volume, s: State, s': State, f: nat, lo: nat, hi: nat, ind: bool) {
    && s'.d == s.d && s'.held == s.held
    && PtrsGone(v, s.m, s'.m, f, lo, hi, ind) && OwnersGone(s.owner, s'.owner, f, lo, hi, ind)
    && BytesGone(v, s.m, s'.m, f, lo, hi) && SameSizes(v, s.m, s'.m)
  }

  /** File f has been cut to n blocks. */
  ghost predicate Truncated(v: Volume, s: State, s': State, f: nat, n: nat) {
    Lost(v, s, s', f, n, MAXFILEBLOCKS, n <= NDIRECT)
  }

  /** File f has size x, is cut to it if it was longer, and its File structure is on disk. */
  ghost predicate Resize(v: Volume, s: State, s': State, f: nat, x: nat)
    requires f < |v.files|
  {
    var longer := Size(v, s.m, f) > x;
    var n := if longer then BlockCount(x) else MAXFILEBLOCKS;
    && (forall g: nat :: g < |v.files| ==> Size(v, s'.m, g) == if g == f then x else Size(v, s.m, g))
    && PtrsGone(v, s.m, s'.m, f, n, MAXFILEBLOCKS, n <= NDIRECT)
    && OwnersGone(s.owner, s'.owner, f, n, MAXFILEBLOCKS, n <= NDIRECT)
    && BytesGone(v, s.m, s'.m, f, n, MAXFILEBLOCKS)
    && (!longer ==> FreeKept(s.m, s'.m) && forall b: nat :: b < v.n ==> Free(s'.m, b) == Free(s.m, b))
    && |s.d| == |s'.m| && v.files[f].home < |s.d|
    && s'.d == s.d[v.files[f].home := s'.m[v.files[f].home]]
  }

  /** In plain terms: if f was longer than x, the bytes past the block in which the new end lies are gone, and the
      blocks that held them are free, with the indirect block if ten blocks are enough. All other bytes, of f and of every other file, are what they were, and so are
      all sizes but that of f; no block that was free is in use. */
  ghost predicate CutBack(v: Volume, m: Image, m': Image, f: nat, x: nat)
    requires f < |v.files|
  {
    && (forall g: nat :: g < |v.files| ==> Size(v, m', g) == if g == f then x else Size(v, m, g))
    && (forall g, pos: nat :: Regular(v, g) ==>
          FileByte(v, m', g, pos) ==
            if g == f && x < Size(v, m, f) && pos >= (x + 4095) / 4096 * 4096 then None else FileByte(v, m, g, pos))
    && (x < Size(v, m, f) ==>
          forall k: nat :: x <= 4096 * k && k < MAXFILEBLOCKS && Ptr(v, m, DataSlot(f, k)) != 0 ==> Free(m', Ptr(v, m, DataSlot(f, k))))
    && (x < Size(v, m, f) && x <= 10 * 4096 && IndirectOf(v, m, f) != 0 ==>
          IndirectOf(v, m', f) == 0 && Free(m', IndirectOf(v, m, f)))
    && forall b: nat :: b < v.n && Free(m, b) ==> Free(m', b)
  }

  lemma ResizeMeans(v: Volume, s: State, s': State, f: nat, x: nat)
    requires Regular(v, f) && Sound(v, s) && Sound(v, s') && s.held == s'.held == {} && Resize(v, s, s', f, x)
    ensures CutBack(v, s.m, s'.m, f, x)
    ensures Size(v, s'.d, f) == Size(v, s'.m, f)
  {
    hide PointersOnDisk, BitsOnDisk, HomesOk, Ptr, FileByte, Size, Free, SuperOk;
    SizeOnDisk(v, s, s', f);
    var n := BlockCount(x);
    forall pos: nat ensures n <= pos / BLKSIZE <==> (x + 4095) / 4096 * 4096 <= pos {}
    forall g, pos: nat | Regular(v, g) && pos / BLKSIZE >= MAXFILEBLOCKS
      ensures FileByte(v, s'.m, g, pos) == FileByte(v, s.m, g, pos) == None
    {
      PastEnd(v, s.m, g, pos);
      PastEnd(v, s'.m, g, pos);
    }
    forall k: nat | x < Size(v, s.m, f) && x <= 4096 * k && k < MAXFILEBLOCKS && Ptr(v, s.m, DataSlot(f, k)) != 0
      ensures Free(s'.m, Ptr(v, s.m, DataSlot(f, k)))
    {
      var t := DataSlot(f, k);
      assert ValidSlot(v, t) && SlotIndex(t) == k >= n;
      assert Gone(t, f, n, MAXFILEBLOCKS, n <= NDIRECT);
    }
    forall b: nat | b < v.n && Free(s.m, b) ensures Free(s'.m, b) {}
    IndirectPtr(v, s.m, f);
    IndirectPtr(v, s'.m, f);
    assert x <= 10 * 4096 ==> n <= NDIRECT && Gone(Indirect(f), f, n, MAXFILEBLOCKS, true);
  }

  lemma PastEnd(v: Volume, m: Image, g: nat, pos: nat)
    requires g < |v.files| && pos / BLKSIZE >= MAXFILEBLOCKS
    ensures FileByte(v, m, g, pos) == None
  {}

  lemma SizeOnDisk(v: Volume, s: State, s': State, f: nat)
    requires f < |v.files| && |s.d| == |s'.m| && v.files[f].home < |s.d|
    requires s'.d == s.d[v.files[f].home := s'.m[v.files[f].home]]
    ensures Size(v, s'.d, f) == Size(v, s'.m, f)
  {}

  lemma LostNothing(v: Volume, s: State, f: nat, lo: nat)
    ensures Lost(v, s, s, f, lo, lo, false)
  {
    hide FileByte, Ptr, Size;
  }

  /** One more block. */
  lemma LostMore(v: Volume, s0: State, s: State, s': State, f: nat, lo: nat, k: nat)
    requires Regular(v, f) && lo <= k < MAXFILEBLOCKS && Sound(v, s0)
    requires Lost(v, s0, s, f, lo, k, false) && Cut(v, s, s', f, k)
    ensures Lost(v, s0, s', f, lo, k + 1, false)
  {
    hide Core, FileByte, Ptr, SameBytes, SameSizes, PtrsGone, OwnersGone, BytesGone;
    OwnersMore(v, s0, s, s', f, lo, k);
    BytesMore(v, s0, s, s', f, lo, k);
    PtrsMore(v, s0.m, s.m, s'.m, f, lo, k);
    SameSizesTrans(v, s0.m, s.m, s'.m);
  }

  lemma PtrsMore(v: Volume, m0: Image, m: Image, m': Image, f: nat, lo: nat, k: nat)
    requires lo <= k && PtrsGone(v, m0, m, f, lo, k, false)
    requires forall t :: ValidSlot(v, t) ==> Ptr(v, m', t) == if t == DataSlot(f, k) then 0 else Ptr(v, m, t)
    ensures PtrsGone(v, m0, m', f, lo, k + 1, false)
  {
    hide Ptr;
    forall t | ValidSlot(v, t) ensures Gone(t, f, lo, k + 1, false) <==> Gone(t, f, lo, k, false) || t == DataSlot(f, k) {}
  }

  lemma OwnersMore(v: Volume, s0: State, s: State, s': State, f: nat, lo: nat, k: nat)
    requires Regular(v, f) && lo <= k < MAXFILEBLOCKS && Sound(v, s0)
    requires Lost(v, s0, s, f, lo, k, false) && Cut(v, s, s', f, k)
    ensures OwnersGone(s0.owner, s'.owner, f, lo, k + 1, false)
  {
    hide FileByte, Ptr, SameBytes, SameSizes, BytesGone, PointersOk, PointersOnDisk, BitsOnDisk, BitmapOk, HomesOk;
    var t := DataSlot(f, k);
    forall b | b in s0.owner
      ensures Gone(s0.owner[b], f, lo, k + 1, false) <==>
                Gone(s0.owner[b], f, lo, k, false) || (b == Ptr(v, s.m, t) && Ptr(v, s.m, t) != 0)
    {
      OwnerPtr(v, s0.m, s0.owner, b);
      assert s0.owner[b] == t ==> Ptr(v, s.m, t) == b;
    }
  }

  lemma BytesMore(v: Volume, s0: State, s: State, s': State, f: nat, lo: nat, k: nat)
    requires Regular(v, f) && lo <= k < MAXFILEBLOCKS
    requires Lost(v, s0, s, f, lo, k, false) && Cut(v, s, s', f, k)
    ensures BytesGone(v, s0.m, s'.m, f, lo, k + 1)
  {
    forall pos: nat | pos / BLKSIZE == k ensures FileByte(v, s'.m, f, pos) == None {
      assert Ptr(v, s'.m, DataSlot(f, k)) == 0;
    }
    hide FileByte, Ptr, SameSizes;
  }

  predicate OwnersValid(v: Volume, owner: map<nat, Volumes.Slot>) {
    forall b :: b in owner ==> ValidSlot(v, owner[b])
  }

  lemma SoundOwners(v: Volume, s: State)
    requires Sound(v, s)
    ensures OwnersValid(v, s.owner) && PointersOk(v, s.m, s.owner)
  {
    hide Ptr, PointersOnDisk, BitsOnDisk, BitmapOk, HomesOk;
  }

  /** There are no blocks past MAXFILEBLOCKS. */
  lemma LostPast(v: Volume, s0: State, s: State, f: nat, lo: nat, k: nat)
    requires k >= MAXFILEBLOCKS && OwnersValid(v, s0.owner) && Lost(v, s0, s, f, lo, k, false)
    ensures Lost(v, s0, s, f, lo, k + 1, false)
  {
    BytesPast(v, s0.m, s.m, f, lo, k);
    hide FileByte, Ptr, SameSizes, BytesGone;
  }

  lemma BytesPast(v: Volume, m0: Image, m: Image, f: nat, lo: nat, k: nat)
    requires k >= MAXFILEBLOCKS && BytesGone(v, m0, m, f, lo, k)
    ensures BytesGone(v, m0, m, f, lo, k + 1)
  {
    forall g: nat, pos: nat | g < |v.files| && pos / BLKSIZE >= MAXFILEBLOCKS ensures FileByte(v, m0, g, pos) == None {}
    hide FileByte;
  }

  /** The loop of file_truncate_blocks ends at the last block of the file, and beyond that there is nothing. */
  lemma LostAll(v: Volume, s0: State, s: State, f: nat, n: nat, hi: nat)
    requires Regular(v, f) && Sized(v, s0.m) && Sound(v, s0) && hi == BlockCount(Size(v, s0.m, f)) && n <= hi
    requires Lost(v, s0, s, f, n, hi, false)
    ensures Lost(v, s0, s, f, n, MAXFILEBLOCKS, false)
  {
    hide Core, Sized, PtrsGone, OwnersGone, BytesGone, SameSizes;
    SoundOwners(v, s0);
    PtrsAll(v, s0.m, s.m, f, n, hi);
    OwnersAll(v, s0, s, f, n, hi);
    BytesAll(v, s0.m, s.m, f, n, hi);
  }

  lemma PtrsAll(v: Volume, m0: Image, m: Image, f: nat, n: nat, hi: nat)
    requires f < |v.files| && Sized(v, m0) && hi == BlockCount(Size(v, m0, f)) && n <= hi && PtrsGone(v, m0, m, f, n, hi, false)
    ensures PtrsGone(v, m0, m, f, n, MAXFILEBLOCKS, false)
  {
    hide Ptr, Size;
    forall t | ValidSlot(v, t) ensures Ptr(v, m, t) == if Gone(t, f, n, MAXFILEBLOCKS, false) then 0 else Ptr(v, m0, t) {
      assert t.f == f && !t.Indirect? && SlotIndex(t) >= hi ==> !Within(t, Size(v, m0, f));
    }
  }

  lemma OwnersAll(v: Volume, s0: State, s: State, f: nat, n: nat, hi: nat)
    requires f < |v.files| && Sized(v, s0.m) && hi == BlockCount(Size(v, s0.m, f)) && n <= hi
    requires OwnersValid(v, s0.owner) && PointersOk(v, s0.m, s0.owner)
    requires OwnersGone(s0.owner, s.owner, f, n, hi, false)
    ensures OwnersGone(s0.owner, s.owner, f, n, MAXFILEBLOCKS, false)
  {
    hide Ptr, Size, PointersOk;
    forall b | b in s0.owner ensures Gone(s0.owner[b], f, n, hi, false) <==> Gone(s0.owner[b], f, n, MAXFILEBLOCKS, false) {
      OwnerPtr(v, s0.m, s0.owner, b);
      assert Within(s0.owner[b], Size(v, s0.m, s0.owner[b].f));
    }
  }

  lemma BytesAll(v: Volume, m0: Image, m: Image, f: nat, n: nat, hi: nat)
    requires f < |v.files| && Sized(v, m0) && hi == BlockCount(Size(v, m0, f)) && n <= hi && BytesGone(v, m0, m, f, n, hi)
    ensures BytesGone(v, m0, m, f, n, MAXFILEBLOCKS)
  {
    hide Ptr, Size;
    forall pos: nat | hi <= pos / BLKSIZE ensures FileByte(v, m0, f, pos) == None {
      if pos / BLKSIZE < MAXFILEBLOCKS {
        assert !Within(DataSlot(f, pos / BLKSIZE), Size(v, m0, f)) && ValidSlot(v, DataSlot(f, pos / BLKSIZE));
      }
    }
    forall g: nat, pos: nat | g < |v.files| && pos / BLKSIZE >= MAXFILEBLOCKS ensures FileByte(v, m, g, pos) == None {}
    hide FileByte;
  }

  /** There is no indirect block to free. */
  lemma NoIndirect(v: Volume, s0: State, s: State, f: nat, n: nat)
    requires f < |v.files| && Sound(v, s0) && IndirectOf(v, s.m, f) == 0
    requires Lost(v, s0, s, f, n, MAXFILEBLOCKS, false)
    ensures Lost(v, s0, s, f, n, MAXFILEBLOCKS, true)
  {
    IndirectPtr(v, s.m, f);
    SoundOwners(v, s0);
    hide Core, FileByte, Ptr, SameSizes, BytesGone, PointersOk, At;
    assert Ptr(v, s0.m, Indirect(f)) == 0;
    assert PtrsGone(v, s0.m, s.m, f, n, MAXFILEBLOCKS, true);
    hide PtrsGone;
    OneIndirect(v, s0, f, 0);
    forall b | b in s0.owner ensures s0.owner[b] != Indirect(f) {
      OwnerPtr(v, s0.m, s0.owner, b);
    }
    OwnersNoIndirect(s0.owner, s.owner, f, n);
  }

  lemma OwnersNoIndirect(o: map<nat, Volumes.Slot>, o': map<nat, Volumes.Slot>, f: nat, n: nat)
    requires OwnersGone(o, o', f, n, MAXFILEBLOCKS, false)
    requires forall b :: b in o ==> o[b] != Indirect(f)
    ensures OwnersGone(o, o', f, n, MAXFILEBLOCKS, true)
  {
    forall b | b in o ensures Gone(o[b], f, n, MAXFILEBLOCKS, true) <==> Gone(o[b], f, n, MAXFILEBLOCKS, false) {}
  }

  /** The indirect block goes too. */
  lemma LostIndirect(v: Volume, s0: State, s: State, m': Image, f: nat, n: nat)
    requires f < |v.files| && Sound(v, s0) && Sound(v, s) && IndirectOf(v, s.m, f) != 0
    requires Lost(v, s0, s, f, n, MAXFILEBLOCKS, false)
    requires SameBytes(v, s.m, m', 0, 0, false) && SameSizes(v, s.m, m')
    requires forall t :: ValidSlot(v, t) ==> Ptr(v, m', t) == if t == Indirect(f) then 0 else Ptr(v, s.m, t)
    ensures Lost(v, s0, State(m', s.d, s.owner - {IndirectOf(v, s.m, f)}, s.held, s.cut + {f}), f, n, MAXFILEBLOCKS, true)
  {
    hide Core, FileByte, Ptr, Size;
    SameSizesTrans(v, s0.m, s.m, m');
    assert BytesGone(v, s0.m, m', f, n, MAXFILEBLOCKS);
    hide BytesGone, SameBytes, SameSizes;
    IndirectOwnersGone(v, s0, s, f, n);
    forall t | ValidSlot(v, t)
      ensures Gone(t, f, n, MAXFILEBLOCKS, true) <==> Gone(t, f, n, MAXFILEBLOCKS, false) || t == Indirect(f) {}
    hide OwnersGone;
  }

  lemma IndirectOwnersGone(v: Volume, s0: State, s: State, f: nat, n: nat)
    requires f < |v.files| && Sound(v, s0) && Sound(v, s) && IndirectOf(v, s.m, f) != 0
    requires Lost(v, s0, s, f, n, MAXFILEBLOCKS, false)
    ensures OwnersGone(s0.owner, s.owner - {IndirectOf(v, s.m, f)}, f, n, MAXFILEBLOCKS, true)
  {
    var p := IndirectOf(v, s.m, f);
    IndirectPtr(v, s.m, f);
    SoundOwners(v, s0);
    hide Core, FileByte, Ptr, SameSizes, BytesGone, PointersOk, At;
    assert Ptr(v, s0.m, Indirect(f)) == p;
    hide PtrsGone;
    PtrOwned(v, s0.m, s0.owner, Indirect(f));
    OneIndirect(v, s0, f, p);
    OwnersIndirect(s0.owner, s.owner, f, n, p);
  }

  lemma OneIndirect(v: Volume, s: State, f: nat, p: nat)
    requires f < |v.files| && PointersOk(v, s.m, s.owner) && Ptr(v, s.m, Indirect(f)) == p
    ensures forall b :: b in s.owner && s.owner[b] == Indirect(f) ==> b == p
  {
    hide PointersOk;
    forall b | b in s.owner && s.owner[b] == Indirect(f) ensures b == p {
      OwnerPtr(v, s.m, s.owner, b);
    }
  }

  lemma OwnersIndirect(o: map<nat, Volumes.Slot>, o': map<nat, Volumes.Slot>, f: nat, n: nat, p: nat)
    requires OwnersGone(o, o', f, n, MAXFILEBLOCKS, false) && p in o && o[p] == Indirect(f)
    requires forall b :: b in o && o[b] == Indirect(f) ==> b == p
    ensures OwnersGone(o, o' - {p}, f, n, MAXFILEBLOCKS, true)
  {
    forall b | b in o ensures Gone(o[b], f, n, MAXFILEBLOCKS, true) <==> Gone(o[b], f, n, MAXFILEBLOCKS, false) || b == p {}
  }

  /** What freeing the indirect block at the end of file_truncate_blocks needs and does. */
  lemma TruncateIndirect(v: Volume, s0: State, s: State, f: nat, n: nat)
    requires f < |v.files| && Sound(v, s0) && n <= NDIRECT && IndirectOf(v, s.m, f) != 0 && Sound(v, s)
    requires Lost(v, s0, s, f, n, MAXFILEBLOCKS, false)
    ensures var t, p, home := Indirect(f), IndirectOf(v, s.m, f), v.files[f].home;
            && p < v.n && 0 < BitBlock(p) < v.n && BitBlock(p) < |s.m| == v.n && !Free(s.m, BitBlock(p))
            && 0 < home < v.n && v.files[f].base + F_INDIRECT < BLKWORDS && p in s.owner
            && var m1 := Marked(s.m, p, true);
               && !Free(m1, home)
               && var m2 := m1[home := WithWord(m1[home], v.files[f].base + F_INDIRECT, 0)];
                  var s' := State(m2, s.d, s.owner - {p}, s.held, s.cut + {f});
                  Sound(v, s') && Truncated(v, s0, s', f, n)
  {
    hide Free, Owned, PointersOnDisk, BitsOnDisk, SameBytes, SameSizes, Ptr, At, FileByte, BytesGone, OwnersGone;
    var p := IndirectOf(v, s.m, f);
    forall i: nat | i < NINDIRECT ensures Ptr(v, s.m, Entry(f, i)) == 0 {
      assert Gone(Entry(f, i), f, n, MAXFILEBLOCKS, false) && ValidSlot(v, Entry(f, i));
    }
    hide PtrsGone;
    RemoveStep(v, s.m, s.d, s.owner, s.held, s.cut, f);
    BitmapReadable(v, s, p);
    HomeReadable(v, s, f);
    MarkedBit(s.m, p, true, v.files[f].home);
    IndirectNotHome(v, s, f);
    LostIndirect(v, s0, s, Stored(v, Marked(s.m, p, true), Indirect(f), 0), f, n);
  }

  lemma IndirectNotHome(v: Volume, s: State, f: nat)
    requires Sound(v, s) && f < |v.files| && IndirectOf(v, s.m, f) != 0
    ensures v.files[f].home != IndirectOf(v, s.m, f)
  {
    HomeIsNotIndirect(v, s.m, s.owner, f, f);
  }

  /** From file_truncate_blocks, or from where no truncation is needed, to the end of file_set_size. */
  lemma SetSizeFacts(v: Volume, s0: State, s: State, f: nat, x: nat)
    requires Regular(v, f) && x <= MAXSIZE && Sound(v, s) && s.cut <= {f} && OwnersValid(v, s0.owner)
    requires Sized(v, s0.m) && SmallSizes(v, s0.m)
    requires if Size(v, s0.m, f) > x then Truncated(v, s0, s, f, BlockCount(x)) else s == s0
    ensures var home, base := v.files[f].home, v.files[f].base;
            && 0 < home < v.n && base + F_SIZE < BLKWORDS && !Free(s.m, home) && home < |s.m| == v.n
            && var m' := s.m[home := WithWord(s.m[home], base + F_SIZE, x)];
               home < |s.d| &&
               var s' := State(m', s.d[home := m'[home]], s.owner, s.held, {});
               && Sound(v, s') && Sized(v, m') && SmallSizes(v, m') && Resize(v, s0, s', f, x)
  {
    HomeReadable(v, s, f);
    CoreLength(v, s);
    hide Owned, PointersOnDisk, BitsOnDisk, FileByte, Ptr, Free, Size, Sized, SmallSizes, SameBytes, Truncated, Resize, FreeKept;
    var m' := Resized(v, s.m, f, x);
    ResizeStep(v, s.m, s.d, s.owner, s.held, s.cut, f, x);
    SkipMore(v, m', s.d, s.owner, s.held, s.cut, {f});
    FlushHomeStep(v, m', s.d, s.owner, s.held, f);
    SetSizeSized(v, s0, s, m', f, x);
    ResizeFreeKept(v, s, f, x);
    ResizeDone(v, s0, s, m', f, x);
  }

  lemma ResizeFreeKept(v: Volume, s: State, f: nat, x: nat)
    requires Sound(v, s) && f < |v.files| && x < WORD_LIMIT
    ensures v.files[f].home < |s.m| && v.files[f].base + F_SIZE < BLKWORDS && FreeKept(s.m, Resized(v, s.m, f, x))
    ensures forall b: nat :: b < v.n ==> Free(Resized(v, s.m, f, x), b) == Free(s.m, b)
  {
    HomeReadable(v, s, f);
    forall b: nat | b < v.n ensures BitBlock(b) != v.files[f].home {
      BitBlockReserved(v.n, b);
    }
    assert forall b: nat :: b < v.n ==> Free(Resized(v, s.m, f, x), b) == Free(s.m, b);
    hide Free, Size, At, FreeKept, PointersOnDisk, BitsOnDisk, PointersOk, BitmapOk, HomesOk;
    ChangeFreeKept(v, s.m, v.files[f].home, Resized(v, s.m, f, x)[v.files[f].home], s.owner, s.held);
  }

  lemma SkipMore(v: Volume, m: Image, d: Image, owner: map<nat, Volumes.Slot>, held: set<nat>, skip: set<nat>, more: set<nat>)
    requires Core(v, m, d, owner, held, skip) && skip <= more
    ensures Core(v, m, d, owner, held, more)
  {
    hide Owned, Ptr, BitsOnDisk, Placed;
  }

  lemma ResizeDone(v: Volume, s0: State, s: State, m': Image, f: nat, x: nat)
    requires f < |v.files| && |s.d| == |m'| && v.files[f].home < |m'| && OwnersValid(v, s0.owner)
    requires if Size(v, s0.m, f) > x then Truncated(v, s0, s, f, BlockCount(x)) else s == s0
    requires forall g: nat :: g < |v.files| ==> Size(v, m', g) == if g == f then x else Size(v, s.m, g)
    requires forall t :: ValidSlot(v, t) ==> Ptr(v, m', t) == Ptr(v, s.m, t)
    requires SameBytes(v, s.m, m', 0, 0, false) && FreeKept(s.m, m') && forall b: nat :: b < v.n ==> Free(m', b) == Free(s.m, b)
    ensures Resize(v, s0, State(m', s.d[v.files[f].home := m'[v.files[f].home]], s.owner, s.held, {}), f, x)
  {
    hide FileByte, Ptr, Size, FreeKept;
  }

  lemma SetSizeSized(v: Volume, s0: State, s: State, m': Image, f: nat, x: nat)
    requires Regular(v, f) && x <= MAXSIZE && Sized(v, s0.m) && SmallSizes(v, s0.m)
    requires if Size(v, s0.m, f) > x then Truncated(v, s0, s, f, BlockCount(x)) else s == s0
    requires forall g: nat :: g < |v.files| ==> Size(v, m', g) == if g == f then x else Size(v, s.m, g)
    requires forall t :: ValidSlot(v, t) ==> Ptr(v, m', t) == Ptr(v, s.m, t)
    ensures Sized(v, m') && SmallSizes(v, m')
  {
    hide FileByte, Ptr, Size;
    forall t | ValidSlot(v, t) && Ptr(v, m', t) != 0 ensures Within(t, Size(v, m', t.f)) {
      assert Ptr(v, s.m, t) != 0 && Ptr(v, s0.m, t) != 0;
      assert Within(t, Size(v, s0.m, t.f));
      if Size(v, s0.m, t.f) <= x {
        WithinMore(t, Size(v, s0.m, t.f), x);
      }
    }
  }

  lemma WithinMore(t: Volumes.Slot, x: nat, y: nat)
    requires Within(t, x) && x <= y
    ensures Within(t, y)
  {}

  // ---------------------------------------------------------------- what reading and writing do

  /** Is block k among those that hold positions offset .. offset + n - 1? */
  predicate Touched(k: nat, offset: nat, n: nat) {
    n > 0 && offset / BLKSIZE <= k <= (offset + n - 1) / BLKSIZE
  }

  /** From m to m' the bytes of f at offset.. have become those of buf. Bytes elsewhere in f that were there are
      the same, blocks of f outside the range are the same even as holes, and so are all other files. */
  ghost predicate Wrote(v: Volume, m: Image, m': Image, f: nat, buf: seq<Mmu.Byte>, offset: nat)
    requires f < |v.files|
  {
    && (forall g, pos: nat :: Regular(v, g) && g != f ==> FileByte(v, m', g, pos) == FileByte(v, m, g, pos))
    && (forall pos: nat :: offset <= pos < offset + |buf| ==> FileByte(v, m', f, pos) == Some(buf[pos - offset]))
    && (forall pos: nat :: !(offset <= pos < offset + |buf|) && FileByte(v, m, f, pos).Some? ==>
          FileByte(v, m', f, pos) == FileByte(v, m, f, pos))
    && (forall pos: nat :: !Touched(pos / BLKSIZE, offset, |buf|) ==> FileByte(v, m', f, pos) == FileByte(v, m, f, pos))
  }

  lemma WroteNothing(v: Volume, m: Image, f: nat, offset: nat)
    requires f < |v.files|
    ensures Wrote(v, m, m, f, [], offset) && SameSizes(v, m, m)
  {
    hide FileByte, Size;
  }

  lemma SameBytesRefl(v: Volume, m: Image)
    ensures SameBytes(v, m, m, 0, 0, false)
  {
    hide FileByte;
  }

  lemma SameSizesRefl(v: Volume, m: Image)
    ensures SameSizes(v, m, m)
  {
    hide Size;
  }

  lemma ReadyAt(v: Volume, m: Image, f: nat, k: nat, last: nat)
    requires f < |v.files| && IndirectReady(v, m, f, k, last) && k <= last
    ensures IndirectReady(v, m, f, k, k)
  {
    hide Free, Blank, At, FreeFrom;
  }

  lemma {:induction false} SameHoles(v: Volume, m: Image, m': Image, f: nat, k: nat)
    requires f < |v.files| && forall i: nat :: k <= i < NDIRECT ==> Ptr(v, m', Direct(f, i)) == Ptr(v, m, Direct(f, i))
    ensures Holes(v, m', f, k) == Holes(v, m, f, k)
    decreases NDIRECT - k
  {
    hide Ptr;
    if k < NDIRECT {
      SameHoles(v, m, m', f, k + 1);
    }
  }

  /** A free block that is still free holds what it held. */
  lemma StillBlank(m: Image, m': Image, n: nat, h: nat, h': nat)
    requires FreeKept(m, m') && |m| == n
    requires h < |FreeFrom(m, n, 0)| && h' < |FreeFrom(m', n, 0)| && FreeFrom(m, n, 0)[h] == FreeFrom(m', n, 0)[h']
    requires FreeFrom(m, n, 0)[h] < |m| && Blank(m[FreeFrom(m, n, 0)[h]])
    ensures FreeFrom(m', n, 0)[h'] < |m'| && Blank(m'[FreeFrom(m', n, 0)[h']])
  {
    FreeFromMeans(m', n, 0);
    hide Free, Blank, FreeFrom;
  }

  /** A change that frees no block, takes none and moves no pointer of f. */
  lemma ReadySame(v: Volume, m: Image, m': Image, f: nat, first: nat, last: nat)
    requires f < |v.files| && IndirectReady(v, m, f, first, last) && FreeKept(m, m') && |m| == v.n
    requires forall t :: ValidSlot(v, t) && t.f == f && !t.Entry? ==> Ptr(v, m', t) == Ptr(v, m, t)
    requires forall b: nat :: b < v.n ==> Free(m', b) == Free(m, b)
    ensures IndirectReady(v, m', f, first, last)
  {
    IndirectPtr(v, m, f);
    IndirectPtr(v, m', f);
    SameHoles(v, m, m', f, first);
    FreeFromSame(m, m', v.n, 0);
    var l, h := FreeFrom(m, v.n, 0), Holes(v, m, f, first);
    if IndirectOf(v, m, f) == 0 && last >= NDIRECT && h < |l| {
      StillBlank(m, m', v.n, h, h);
    }
    hide Free, Blank, At, FreeFrom, Ptr, FreeKept;
  }

  /** After block k has been had, the indirect block of the later ones is still the one it was. */
  lemma ReadyNext(v: Volume, s: State, s': State, f: nat, k: nat, last: nat)
    requires f < |v.files| && IndirectReady(v, s.m, f, k, last) && Grown(v, s, s', f, k, true) && |s.m| == v.n
    requires k < MAXFILEBLOCKS && Ptr(v, s'.m, DataSlot(f, k)) != 0
    ensures IndirectReady(v, s'.m, f, k + 1, last)
  {
    IndirectPtr(v, s.m, f);
    IndirectPtr(v, s'.m, f);
    hide SameBytes, SameSizes, At, Free, FreeKept, FreeFrom, Blank, Ptr, Holes, Spent;
    if k >= NDIRECT {
      EntryNeedsIndirect(v, s'.m, DataSlot(f, k));
    } else if IndirectOf(v, s.m, f) == 0 && last >= NDIRECT {
      forall i: nat | k < i < NDIRECT ensures Ptr(v, s'.m, Direct(f, i)) == Ptr(v, s.m, Direct(f, i)) {
        assert ValidSlot(v, Direct(f, i));
      }
      assert ValidSlot(v, Direct(f, k));
      ReadyHole(v, s.m, s'.m, f, k, last);
    }
  }

  lemma ReadyHole(v: Volume, m: Image, m': Image, f: nat, k: nat, last: nat)
    requires f < |v.files| && k < NDIRECT <= last && IndirectOf(v, m, f) == 0 && IndirectReady(v, m, f, k, last)
    requires FreeKept(m, m') && |m| == v.n && Ptr(v, m', Direct(f, k)) != 0
    requires Ptr(v, m, Direct(f, k)) == 0 || Ptr(v, m', Direct(f, k)) == Ptr(v, m, Direct(f, k))
    requires if Ptr(v, m', Direct(f, k)) == Ptr(v, m, Direct(f, k)) then FreeFrom(m', v.n, 0) == FreeFrom(m, v.n, 0)
             else Spent(v.n, m, m', Ptr(v, m', Direct(f, k)))
    requires forall i: nat :: k < i < NDIRECT ==> Ptr(v, m', Direct(f, i)) == Ptr(v, m, Direct(f, i))
    ensures IndirectReady(v, m', f, k + 1, last)
  {
    hide At, Free, FreeKept, FreeFrom, Blank, Ptr;
    SameHoles(v, m, m', f, k + 1);
    var l, h := FreeFrom(m, v.n, 0), Holes(v, m, f, k);
    var l', h' := FreeFrom(m', v.n, 0), Holes(v, m', f, k + 1);
    if h' < |l'| {
      assert h < |l| && l'[h'] == l[h];
      StillBlank(m, m', v.n, h, h');
    }
  }

  /** What file_get_block keeps of the invariants between calls. */
  lemma GrownKeeps(v: Volume, m0: Image, s: State, s': State, f: nat, k: nat, except: bool)
    requires f < |v.files| && Grown(v, s, s', f, k, except) && SameSizes(v, m0, s.m)
    requires Sized(v, s.m) && SmallSizes(v, s.m) && k < BlockCount(Size(v, s.m, f))
    ensures Sized(v, s'.m) && SmallSizes(v, s'.m) && SameSizes(v, m0, s'.m)
  {
    hide FileByte, Ptr, Free, Size, FreeKept, SameBytes, FreeFrom, Spent;
    forall t | ValidSlot(v, t) && Ptr(v, s'.m, t) != 0 ensures Within(t, Size(v, s'.m, t.f)) {}
  }

  /** A failed file_get_block leaves all bytes alone. */
  lemma WroteGrown(v: Volume, m0: Image, s: State, s': State, f: nat, k: nat, buf: seq<Mmu.Byte>, offset: nat)
    requires Regular(v, f) && Wrote(v, m0, s.m, f, buf, offset) && Grown(v, s, s', f, k, false)
    ensures Wrote(v, m0, s'.m, f, buf, offset)
  {
    hide FileByte, Ptr, Free, SameSizes, FreeKept;
  }

  lemma DataReadable(v: Volume, s: State, f: nat, k: nat)
    requires Sound(v, s) && Regular(v, f) && k < MAXFILEBLOCKS && Ptr(v, s.m, DataSlot(f, k)) != 0
    ensures var b := Ptr(v, s.m, DataSlot(f, k)); 0 < b < v.n == |s.m| && !Free(s.m, b)
  {
    hide Ptr, Free, PointersOnDisk, BitsOnDisk, PointersOk, BitmapOk, HomesOk;
    PtrOwned(v, s.m, s.owner, DataSlot(f, k));
    InUse(v, s.m, s.owner, s.held, Ptr(v, s.m, DataSlot(f, k)));
  }

  /** The bytes of f before and after file_get_block of block k: those in block k appear, or stay. */
  lemma BytesGrown(v: Volume, s: State, s': State, f: nat, k: nat, x: Block)
    requires Regular(v, f) && k < MAXFILEBLOCKS && Grown(v, s, s', f, k, true)
    requires 0 < Ptr(v, s'.m, DataSlot(f, k)) < |s'.m| && x == s'.m[Ptr(v, s'.m, DataSlot(f, k))]
    requires Ptr(v, s.m, DataSlot(f, k)) != 0 ==> s' == s
    ensures forall pos: nat :: pos / BLKSIZE == k ==> FileByte(v, s'.m, f, pos) == Some(x[pos % BLKSIZE])
    ensures forall pos: nat :: FileByte(v, s.m, f, pos).Some? ==> FileByte(v, s'.m, f, pos) == FileByte(v, s.m, f, pos)
    ensures forall pos: nat :: pos / BLKSIZE != k ==> FileByte(v, s'.m, f, pos) == FileByte(v, s.m, f, pos)
    ensures forall g, pos: nat :: Regular(v, g) && g != f ==> FileByte(v, s'.m, g, pos) == FileByte(v, s.m, g, pos)
  {
    forall pos: nat | pos / BLKSIZE == k
      ensures FileByte(v, s'.m, f, pos) == Some(x[pos % BLKSIZE])
      ensures Ptr(v, s.m, DataSlot(f, k)) == 0 ==> FileByte(v, s.m, f, pos) == None
    {}
    hide FileByte, Ptr, Free, SameSizes, FreeKept;
  }

  lemma SameBlock(pos: nat, p: nat, bn: nat)
    requires pos <= p < pos + bn && pos % BLKSIZE + bn <= BLKSIZE
    ensures p / BLKSIZE == pos / BLKSIZE && p % BLKSIZE == pos % BLKSIZE + (p - pos)
  {}

  ghost predicate TouchesMore(offset: nat, n: nat, n': nat) {
    forall k: nat :: Touched(k, offset, n) ==> Touched(k, offset, n')
  }

  lemma TouchedMore(offset: nat, pos: nat, bn: nat)
    requires offset <= pos && 0 < bn && pos % BLKSIZE + bn <= BLKSIZE
    ensures TouchesMore(offset, pos - offset, pos + bn - offset)
    ensures Touched(pos / BLKSIZE, offset, pos + bn - offset)
  {
    SameBlock(pos, pos + bn - 1, bn);
    assert offset / BLKSIZE <= pos / BLKSIZE;
    if pos > offset {
      assert (pos - 1) / BLKSIZE <= pos / BLKSIZE;
    }
  }

  lemma ReadMore(v: Volume, m0: Image, s: State, s': State, f: nat, buf: seq<Mmu.Byte>, offset: nat, x: Block, bn: nat)
    requires Regular(v, f) && Wrote(v, m0, s.m, f, buf, offset) && 0 < bn
    requires var pos := offset + |buf|;
             && pos / BLKSIZE < MAXFILEBLOCKS && pos % BLKSIZE + bn <= BLKSIZE
             && Grown(v, s, s', f, pos / BLKSIZE, true)
             && 0 < Ptr(v, s'.m, DataSlot(f, pos / BLKSIZE)) < |s'.m|
             && x == s'.m[Ptr(v, s'.m, DataSlot(f, pos / BLKSIZE))]
             && (Ptr(v, s.m, DataSlot(f, pos / BLKSIZE)) != 0 ==> s' == s)
    ensures var o := (offset + |buf|) % BLKSIZE; Wrote(v, m0, s'.m, f, buf + x[o..o + bn], offset)
  {
    hide FileByte, Ptr, Free, SameBytes, SameSizes, FreeKept, Grown, Wrote;
    BytesGrown(v, s, s', f, (offset + |buf|) / BLKSIZE, x);
    ReadJoin(v, m0, s.m, s'.m, f, buf, offset, x, bn);
  }

  lemma ReadJoin(v: Volume, m0: Image, m: Image, m': Image, f: nat, buf: seq<Mmu.Byte>, offset: nat, x: Block, bn: nat)
    requires Regular(v, f) && Wrote(v, m0, m, f, buf, offset) && 0 < bn && (offset + |buf|) % BLKSIZE + bn <= BLKSIZE
    requires forall p: nat :: p / BLKSIZE == (offset + |buf|) / BLKSIZE ==> FileByte(v, m', f, p) == Some(x[p % BLKSIZE])
    requires forall p: nat :: FileByte(v, m, f, p).Some? ==> FileByte(v, m', f, p) == FileByte(v, m, f, p)
    requires forall p: nat :: p / BLKSIZE != (offset + |buf|) / BLKSIZE ==> FileByte(v, m', f, p) == FileByte(v, m, f, p)
    requires forall g, p: nat :: Regular(v, g) && g != f ==> FileByte(v, m', g, p) == FileByte(v, m, g, p)
    ensures var o := (offset + |buf|) % BLKSIZE; Wrote(v, m0, m', f, buf + x[o..o + bn], offset)
  {
    hide FileByte, Touched, TouchesMore, Wrote;
    var pos, o := offset + |buf|, (offset + |buf|) % BLKSIZE;
    TouchedMore(offset, pos, bn);
    ReadBytes(v, m', f, buf, offset, x, bn);
    BlockOfChunk(pos, bn);
    WroteMore(v, m0, m, m', m', f, buf, buf + x[o..o + bn], offset);
  }

  lemma ReadBytes(v: Volume, m: Image, f: nat, buf: seq<Mmu.Byte>, offset: nat, x: Block, bn: nat)
    requires Regular(v, f) && (offset + |buf|) % BLKSIZE + bn <= BLKSIZE
    requires forall p: nat :: p / BLKSIZE == (offset + |buf|) / BLKSIZE ==> FileByte(v, m, f, p) == Some(x[p % BLKSIZE])
    ensures var pos, o := offset + |buf|, (offset + |buf|) % BLKSIZE;
            forall p: nat :: pos <= p < pos + bn ==> FileByte(v, m, f, p) == Some((buf + x[o..o + bn])[p - offset])
  {
    hide FileByte;
    var pos, o := offset + |buf|, (offset + |buf|) % BLKSIZE;
    forall p: nat | pos <= p < pos + bn ensures FileByte(v, m, f, p) == Some((buf + x[o..o + bn])[p - offset]) {
      SameBlock(pos, p, bn);
    }
  }

  /** Storing the new contents of the block. */
  lemma ChunkWritten(v: Volume, m0: Image, s: State, s1: State, f: nat, k: nat, last: nat, y: Block)
    requires Regular(v, f) && k < MAXFILEBLOCKS && Sound(v, s1) && 0 < Ptr(v, s1.m, DataSlot(f, k)) < |s1.m|
    requires Sized(v, s1.m) && SmallSizes(v, s1.m) && SameSizes(v, m0, s1.m) && IndirectReady(v, s1.m, f, k + 1, last)
    ensures var m2 := s1.m[Ptr(v, s1.m, DataSlot(f, k)) := y];
            && Sound(v, s1.(m := m2)) && Sized(v, m2) && SmallSizes(v, m2) && SameSizes(v, m0, m2)
            && IndirectReady(v, m2, f, k + 1, last) && IndirectOf(v, m2, f) == IndirectOf(v, s1.m, f)
  {
    hide Owned, PointersOnDisk, BitsOnDisk, Free, Ptr, FileByte, SameBytes, Blank;
    var b := Ptr(v, s1.m, DataSlot(f, k));
    var m2 := s1.m[b := y];
    DataStep(v, s1.m, s1.d, s1.owner, s1.held, s1.cut, f, k, y);
    IndirectPtr(v, s1.m, f);
    IndirectPtr(v, m2, f);
    DataFreeKept(v, s1, f, k, y);
    DataSameFree(v, s1, f, k, y);
    CoreLength(v, s1);
    hide Size, At, IndirectReady;
    ReadySame(v, s1.m, m2, f, k + 1, last);
  }

  lemma DataSameFree(v: Volume, s: State, f: nat, k: nat, y: Block)
    requires Sound(v, s) && Regular(v, f) && k < MAXFILEBLOCKS && Ptr(v, s.m, DataSlot(f, k)) != 0
    ensures Ptr(v, s.m, DataSlot(f, k)) < |s.m|
    ensures forall b: nat :: b < v.n ==> Free(s.m[Ptr(v, s.m, DataSlot(f, k)) := y], b) == Free(s.m, b)
  {
    hide Ptr, PointersOnDisk, BitsOnDisk, PointersOk, BitmapOk, HomesOk;
    PtrOwned(v, s.m, s.owner, DataSlot(f, k));
    forall b: nat | b < v.n ensures BitBlock(b) != Ptr(v, s.m, DataSlot(f, k)) {
      BitBlockReserved(v.n, b);
    }
  }

  lemma DataFreeKept(v: Volume, s: State, f: nat, k: nat, y: Block)
    requires Sound(v, s) && Regular(v, f) && k < MAXFILEBLOCKS && Ptr(v, s.m, DataSlot(f, k)) != 0
    ensures Ptr(v, s.m, DataSlot(f, k)) < |s.m| && FreeKept(s.m, s.m[Ptr(v, s.m, DataSlot(f, k)) := y])
  {
    hide Free, Ptr, PointersOnDisk, BitsOnDisk, PointersOk, BitmapOk, HomesOk;
    var b := Ptr(v, s.m, DataSlot(f, k));
    PtrOwned(v, s.m, s.owner, DataSlot(f, k));
    InUse(v, s.m, s.owner, s.held, b);
    ChangeFreeKept(v, s.m, b, y, s.owner, s.held);
  }

  lemma WriteMore(v: Volume, m0: Image, s: State, s1: State, f: nat, buf: seq<Mmu.Byte>, offset: nat, pos: nat, bn: nat, y: Block)
    requires Regular(v, f) && offset <= pos && 0 < bn && pos + bn <= offset + |buf|
    requires Wrote(v, m0, s.m, f, buf[..pos - offset], offset) && Sound(v, s1)
    requires pos / BLKSIZE < MAXFILEBLOCKS && pos % BLKSIZE + bn <= BLKSIZE
    requires var t, o := DataSlot(f, pos / BLKSIZE), pos % BLKSIZE;
             && Grown(v, s, s1, f, pos / BLKSIZE, true)
             && 0 < Ptr(v, s1.m, t) < |s1.m|
             && (Ptr(v, s.m, t) != 0 ==> s1 == s)
             && var x := s1.m[Ptr(v, s1.m, t)];
                y == x[..o] + buf[pos - offset..pos - offset + bn] + x[o + bn..]
    ensures Wrote(v, m0, s1.m[Ptr(v, s1.m, DataSlot(f, pos / BLKSIZE)) := y], f, buf[..pos + bn - offset], offset)
  {
    hide Core, FileByte, Ptr, Free, SameSizes, FreeKept, Grown, Touched, TouchesMore, Wrote;
    var k := pos / BLKSIZE;
    var b := Ptr(v, s1.m, DataSlot(f, k));
    var x, m2 := s1.m[b], s1.m[b := y];
    BytesGrown(v, s, s1, f, k, x);
    DataStep(v, s1.m, s1.d, s1.owner, s1.held, s1.cut, f, k, y);
    TouchedMore(offset, pos, bn);
    ChunkBytes(v, s1.m, m2, f, buf, offset, pos, bn, x, y);
    BlockOfChunk(pos, bn);
    WroteMore(v, m0, s.m, s1.m, m2, f, buf[..pos - offset], buf[..pos + bn - offset], offset);
  }

  lemma BlockOfChunk(pos: nat, bn: nat)
    requires pos % BLKSIZE + bn <= BLKSIZE
    ensures forall p: nat :: pos <= p < pos + bn ==> p / BLKSIZE == pos / BLKSIZE
  {
    forall p: nat | pos <= p < pos + bn ensures p / BLKSIZE == pos / BLKSIZE {
      SameBlock(pos, p, bn);
    }
  }

  /** The bytes of f once y has replaced x in the block of pos. */
  lemma ChunkBytes(v: Volume, m1: Image, m2: Image, f: nat, buf: seq<Mmu.Byte>, offset: nat, pos: nat, bn: nat, x: Block, y: Block)
    requires Regular(v, f) && offset <= pos && pos + bn <= offset + |buf| && pos % BLKSIZE + bn <= BLKSIZE
    requires y == x[..pos % BLKSIZE] + buf[pos - offset..pos - offset + bn] + x[pos % BLKSIZE + bn..]
    requires forall p: nat :: p / BLKSIZE == pos / BLKSIZE ==> FileByte(v, m1, f, p) == Some(x[p % BLKSIZE])
    requires forall p: nat :: p / BLKSIZE == pos / BLKSIZE ==> FileByte(v, m2, f, p) == Some(y[p % BLKSIZE])
    requires SameBytes(v, m1, m2, f, pos / BLKSIZE, true)
    ensures forall p: nat :: pos <= p < pos + bn ==> FileByte(v, m2, f, p) == Some(buf[p - offset])
    ensures forall p: nat :: !(pos <= p < pos + bn) ==> FileByte(v, m2, f, p) == FileByte(v, m1, f, p)
  {
    hide FileByte;
    var new_ := buf[pos - offset..pos - offset + bn];
    forall p: nat
      ensures pos <= p < pos + bn ==> FileByte(v, m2, f, p) == Some(buf[p - offset])
      ensures !(pos <= p < pos + bn) ==> FileByte(v, m2, f, p) == FileByte(v, m1, f, p)
    {
      ChunkByte(pos, bn, p, pos % BLKSIZE, x, new_, y);
    }
  }

  lemma ChunkByte(pos: nat, bn: nat, p: nat, o: nat, x: Block, new_: seq<Mmu.Byte>, y: Block)
    requires o == pos % BLKSIZE && o + bn <= BLKSIZE && |new_| == bn && y == x[..o] + new_ + x[o + bn..]
    ensures pos <= p < pos + bn ==> p / BLKSIZE == pos / BLKSIZE && y[p % BLKSIZE] == new_[p - pos]
    ensures !(pos <= p < pos + bn) && p / BLKSIZE == pos / BLKSIZE ==> y[p % BLKSIZE] == x[p % BLKSIZE]
  {
    if pos <= p < pos + bn {
      SameBlock(pos, p, bn);
    } else if p / BLKSIZE == pos / BLKSIZE {
      assert p - p % BLKSIZE == pos - o;
    }
  }

  lemma WroteMore(v: Volume, m0: Image, m: Image, m1: Image, m2: Image, f: nat, buf: seq<Mmu.Byte>, buf': seq<Mmu.Byte>, offset: nat)
    requires f < |v.files| && buf <= buf' && Wrote(v, m0, m, f, buf, offset)
    requires forall p: nat :: FileByte(v, m, f, p).Some? ==> FileByte(v, m1, f, p) == FileByte(v, m, f, p)
    requires forall p: nat :: p / BLKSIZE != (offset + |buf|) / BLKSIZE ==> FileByte(v, m1, f, p) == FileByte(v, m, f, p)
    requires forall p: nat :: offset + |buf| <= p < offset + |buf'| ==> FileByte(v, m2, f, p) == Some(buf'[p - offset])
    requires forall p: nat :: !(offset + |buf| <= p < offset + |buf'|) ==> FileByte(v, m2, f, p) == FileByte(v, m1, f, p)
    requires forall g, p: nat :: Regular(v, g) && g != f ==>
               FileByte(v, m2, g, p) == FileByte(v, m1, g, p) == FileByte(v, m, g, p)
    requires TouchesMore(offset, |buf|, |buf'|) && Touched((offset + |buf|) / BLKSIZE, offset, |buf'|)
    requires forall p: nat :: offset + |buf| <= p < offset + |buf'| ==> p / BLKSIZE == (offset + |buf|) / BLKSIZE
    ensures Wrote(v, m0, m2, f, buf', offset)
  {
    hide FileByte, Touched;
  }

  /** file_set_size to a larger size changes no bytes and takes no block. */
  lemma GrownSize(v: Volume, s: State, s': State, f: nat, x: nat, first: nat, last: nat)
    requires f < |v.files| && Size(v, s.m, f) < x && Resize(v, s, s', f, x) && |s.m| == v.n
    ensures SameBytes(v, s.m, s'.m, 0, 0, false)
    ensures forall g: nat :: g < |v.files| ==> Size(v, s'.m, g) == if g == f then x else Size(v, s.m, g)
    ensures IndirectReady(v, s.m, f, first, last) ==> IndirectReady(v, s'.m, f, first, last)
  {
    if IndirectReady(v, s.m, f, first, last) {
      hide IndirectReady, FileByte, Ptr, Size, Free, FreeKept;
      ReadySame(v, s.m, s'.m, f, first, last);
    }
    forall g: nat, pos: nat | g < |v.files| && pos / BLKSIZE >= MAXFILEBLOCKS ensures FileByte(v, s'.m, g, pos) == None {}
    hide FileByte, Ptr, Size, Free, FreeKept, IndirectReady;
  }

  lemma NextChunk(pos: nat, bn: nat)
    requires pos % BLKSIZE + bn <= BLKSIZE
    ensures bn == BLKSIZE - pos % BLKSIZE ==> (pos + bn) / BLKSIZE == pos / BLKSIZE + 1 && pos + bn == BLKSIZE * (pos / BLKSIZE + 1)
  {}

  lemma WroteResized(v: Volume, m0: Image, m1: Image, m2: Image, f: nat, buf: seq<Mmu.Byte>, offset: nat)
    requires Regular(v, f) && SameBytes(v, m0, m1, 0, 0, false) && Wrote(v, m1, m2, f, buf, offset)
    ensures Wrote(v, m0, m2, f, buf, offset)
  {
    hide FileByte;
  }

  lemma SizesGrown(v: Volume, m0: Image, m1: Image, m2: Image, f: nat, x: nat)
    requires f < |v.files| && SameSizes(v, m1, m2)
    requires forall g: nat :: g < |v.files| ==>
               Size(v, m1, g) == if g == f && x > Size(v, m0, f) then x else Size(v, m0, g)
    ensures forall g: nat :: g < |v.files| ==>
              Size(v, m2, g) == if g == f && x > Size(v, m0, f) then x else Size(v, m0, g)
  {
    hide Size;
  }

  lemma PosBelow(v: Volume, m1: Image, m: Image, f: nat, pos: nat, end: nat)
    requires f < |v.files| && SameSizes(v, m1, m) && pos < end <= Size(v, m1, f)
    ensures pos / BLKSIZE < BlockCount(Size(v, m, f)) && pos / BLKSIZE <= (end - 1) / BLKSIZE
  {
    hide Size;
  }

  // ---------------------------------------------------------------- what flushing does

  /** The first n blocks of f, as memory has them, are on disk. */
  ghost predicate BlocksOnDisk(v: Volume, m: Image, d: Image, f: nat, n: nat)
    requires f < |v.files|
  {
    forall k :: 0 <= k < n && k < MAXFILEBLOCKS && Ptr(v, m, DataSlot(f, k)) != 0 ==>
      var b := Ptr(v, m, DataSlot(f, k)); b < |m| && b < |d| && d[b] == m[b]
  }

  lemma BlocksStay(v: Volume, m: Image, d: Image, b: nat, f: nat, n: nat)
    requires f < |v.files| && b < |m| == |d| && BlocksOnDisk(v, m, d, f, n)
    ensures BlocksOnDisk(v, m, d[b := m[b]], f, n)
  {
    hide Ptr;
  }

  lemma NoMoreOnDisk(v: Volume, m: Image, d: Image, f: nat, k: nat)
    requires f < |v.files| && BlocksOnDisk(v, m, d, f, k) && (k < MAXFILEBLOCKS ==> Ptr(v, m, DataSlot(f, k)) == 0)
    ensures BlocksOnDisk(v, m, d, f, k + 1)
  {
    hide Ptr;
  }

  lemma OneMoreOnDisk(v: Volume, m: Image, d: Image, f: nat, k: nat)
    requires f < |v.files| && k < MAXFILEBLOCKS && BlocksOnDisk(v, m, d, f, k)
    requires var b := Ptr(v, m, DataSlot(f, k)); b < |m| && b < |d| && d[b] == m[b]
    ensures BlocksOnDisk(v, m, d, f, k + 1)
  {
    hide Ptr;
  }

  lemma AnyDataInRange(v: Volume, s: State, f: nat, k: nat)
    requires Sound(v, s) && f < |v.files| && k < MAXFILEBLOCKS && Ptr(v, s.m, DataSlot(f, k)) != 0
    ensures 0 < Ptr(v, s.m, DataSlot(f, k)) < v.n == |s.m|
  {
    hide Ptr, Free, PointersOnDisk, BitsOnDisk, PointersOk, BitmapOk, HomesOk;
    PtrOwned(v, s.m, s.owner, DataSlot(f, k));
  }

  lemma NoPointer(v: Volume, m: Image, f: nat, k: nat)
    requires f < |v.files| && (k >= MAXFILEBLOCKS || (k >= NDIRECT && IndirectOf(v, m, f) == 0))
    ensures k < MAXFILEBLOCKS ==> Ptr(v, m, DataSlot(f, k)) == 0
  {
    hide At;
  }

  lemma HomeAndIndirect(v: Volume, s: State, f: nat)
    requires Sound(v, s) && f < |v.files| && IndirectOf(v, s.m, f) != 0
    ensures 0 < IndirectOf(v, s.m, f) < v.n == |s.m|
  {
    HomeIsNotIndirect(v, s.m, s.owner, f, f);
  }

  /** The disk agrees with memory on a file whose blocks, File structure and indirect block are on disk. */
  lemma OnDisk(v: Volume, m: Image, d: Image, f: nat)
    requires Regular(v, f) && |m| == |d| == v.n && v.files[f].home < v.n && d[v.files[f].home] == m[v.files[f].home]
    requires IndirectOf(v, m, f) != 0 ==> IndirectOf(v, m, f) < v.n && d[IndirectOf(v, m, f)] == m[IndirectOf(v, m, f)]
    requires Sized(v, m) && BlocksOnDisk(v, m, d, f, BlockCount(Size(v, m, f)))
    ensures Size(v, d, f) == Size(v, m, f)
    ensures forall pos: nat :: FileByte(v, d, f, pos) == FileByte(v, m, f, pos)
  {
    assert IndirectOf(v, d, f) == IndirectOf(v, m, f);
    forall s | ValidSlot(v, s) && s.f == f ensures Ptr(v, d, s) == Ptr(v, m, s) {}
    hide Ptr, Size;
    forall pos: nat ensures FileByte(v, d, f, pos) == FileByte(v, m, f, pos) {
      var k := pos / BLKSIZE;
      if k < MAXFILEBLOCKS && Ptr(v, m, DataSlot(f, k)) != 0 {
        assert Within(DataSlot(f, k), Size(v, m, f));
      }
    }
  }

  /** Nothing about a volume is read from block 0. */
  lemma SameVolume(v: Volume, m: Image, d: Image, owner: map<nat, Volumes.Slot>, held: set<nat>)
    requires Placed(v) && Owned(v, m, owner, held) && |d| == v.n && forall b :: 1 <= b < v.n ==> d[b] == m[b]
    ensures Owned(v, d, owner, held)
  {
    forall s | ValidSlot(v, s) ensures Ptr(v, d, s) == Ptr(v, m, s) {
      SamePtr(v, m, d, owner, s);
    }
    forall b: nat | b < v.n ensures Free(d, b) == Free(m, b) {
      BitBlockReserved(v.n, b);
    }
    hide Ptr, Free;
    SamePointers(v, m, d, owner);
  }

  lemma SyncedVolume(v: Volume, s: State, d: Image)
    requires Sound(v, s) && |d| == v.n == |s.m| && forall b :: 1 <= b < v.n ==> d[b] == s.m[b]
    ensures Owned(v, d, s.owner, s.held)
  {
    hide Owned;
    SameVolume(v, s.m, d, s.owner, s.held);
  }

  lemma SamePtr(v: Volume, m: Image, d: Image, owner: map<nat, Volumes.Slot>, s: Volumes.Slot)
    requires Placed(v) && PointersOk(v, m, owner) && HomesOk(v, owner) && ValidSlot(v, s)
    requires |d| == |m| == v.n && forall b :: 1 <= b < v.n ==> d[b] == m[b]
    ensures Ptr(v, d, s) == Ptr(v, m, s)
  {
    assert IndirectOf(v, d, s.f) == IndirectOf(v, m, s.f);
    if IndirectOf(v, m, s.f) != 0 {
      HomeIsNotIndirect(v, m, owner, s.f, s.f);
    }
    hide PointersOk, HomesOk;
  }
}
