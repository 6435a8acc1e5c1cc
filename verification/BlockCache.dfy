/** The block cache: disk blocks are mapped in on first use and written back when flushed (fs/bc.c). */
module BlockCaches {
  import opened Blocks
  import Mmu

  class BlockCache {
    const n: nat // s_nblocks
    const mapped: array<bool>
    const dirty: array<bool>
    const page: array<Block>
    const disk: array<Block>
    /** Every state the disk has been in, the present one last. */
    ghost var images: seq<Image>

    ghost predicate Layout() {
      mapped.Length == dirty.Length == page.Length == disk.Length == n && mapped != dirty && page != disk
    }

    /** A mapped page that is not dirty holds what its disk block holds. */
    ghost predicate Valid()
      reads this, mapped, dirty, page, disk
    {
      && Layout()
      && (forall b :: 0 <= b < n && mapped[b] && !dirty[b] ==> page[b] == disk[b])
      && images != [] && images[|images| - 1] == disk[..]
    }

    /** What the file system reads: the mapped page if there is one, else the disk block. */
    ghost function Logical(): Image
      requires Layout()
      reads mapped, page, disk
    {
      seq(n, b requires 0 <= b < n reads mapped, page, disk requires Layout() => if mapped[b] then page[b] else disk[b])
    }

    /** The blocks that are mapped. */
    ghost function Loaded(): set<nat>
      requires Layout()
      reads mapped
    {
      set b: nat | b < n && mapped[b]
    }

    /** The whole bitmap is mapped. */
    ghost predicate BitmapLoaded()
      requires Layout()
      reads mapped
    {
      forall b: nat :: b < n ==> BitBlock(b) in Loaded()
    }

    /** After fs_init, which reads the super block and the first word of the bitmap. */
    constructor (image: Image)
      ensures Valid() && n == |image| && Logical() == image == disk[..] && images == [image]
      ensures forall b: nat :: b in Loaded() <==> b < n && (b == 1 || b == 2)
      ensures fresh(mapped) && fresh(dirty) && fresh(page) && fresh(disk)
    {
      n := |image|;
      mapped, dirty := new bool[|image|](i => i == 1 || i == 2), new bool[|image|](_ => false);
      page := new Block[|image|](i requires 0 <= i < |image| => image[i]);
      disk := new Block[|image|](i requires 0 <= i < |image| => image[i]);
      images := [image];
    }

    /** bc_pgfault for an access at offset `off` of block b, which is not mapped and not free. The address is
        passed to sys_page_map as it is, so that the handler panics exactly if it is not page-aligned. What a
        block reads as does not change either way. (block_is_free, at its end, reads the bitmap.) */
    method Load(b: nat, off: nat) returns (ok: bool)
      requires Valid() && 0 < b < n && off < BLKSIZE && !mapped[b] && !Free(Logical(), b) && BitmapLoaded()
      modifies mapped, dirty, page
      ensures Valid() && Logical() == old(Logical())
      ensures ok <==> (BLKSIZE * b + off) % Mmu.PGSIZE == 0
      ensures Loaded() == if ok then old(Loaded()) + {b} else old(Loaded())
      ensures ok ==> !dirty[b]
    {
      if (BLKSIZE * b + off) % Mmu.PGSIZE != 0 {
        return false; // sys_page_map returns -E_INVAL
      }
      mapped[b], page[b], dirty[b] := true, disk[b], false;
      assert Logical() == old(Logical());
      return true;
    }

    /** Any access to offset `off` of block b: it panics exactly if the block is not mapped and the offset not 0. */
    method Touch(b: nat, off: nat) returns (ok: bool)
      requires Valid() && 0 < b < n && off < BLKSIZE && !Free(Logical(), b) && BitmapLoaded()
      modifies mapped, dirty, page
      ensures Valid() && Logical() == old(Logical())
      ensures ok <==> b in old(Loaded()) || off == 0
      ensures Loaded() == if ok then old(Loaded()) + {b} else old(Loaded())
    {
      if mapped[b] {
        assert Loaded() == Loaded() + {b};
        return true;
      }
      ok := Load(b, off);
    }

    /** A load from the mapped region: the whole block that is read, of which offset `off` comes first. */
    method Read(b: nat, off: nat) returns (x: Block)
      requires Valid() && 0 < b < n && off < BLKSIZE && !Free(Logical(), b) && BitmapLoaded()
      requires b in Loaded() || off == 0
      modifies mapped, dirty, page
      ensures Valid() && Logical() == old(Logical()) && x == Logical()[b]
      ensures Loaded() == old(Loaded()) + {b}
    {
      var ok := Touch(b, off);
      x := page[b];
    }

    /** A store into the mapped region, first at offset `off`: the block's contents become x and its page dirty. */
    method Write(b: nat, off: nat, x: Block)
      requires Valid() && 0 < b < n && off < BLKSIZE && !Free(Logical(), b) && BitmapLoaded()
      requires b in Loaded() || off == 0
      modifies mapped, dirty, page
      ensures Valid() && Logical() == old(Logical())[b := x]
      ensures Loaded() == old(Loaded()) + {b}
    {
      var ok := Touch(b, off);
      page[b], dirty[b] := x, true;
      assert Logical() == old(Logical())[b := x];
    }

    /** flush_block: a mapped dirty block is written and becomes clean. Either way the disk block now equals
        the logical one, no logical content changes, and the disk goes through no other state. */
    method FlushBlock(b: nat)
      requires Valid() && 0 < b < n
      modifies `images, dirty, disk
      ensures Valid() && Logical() == old(Logical()) && Loaded() == old(Loaded())
      ensures disk[..] == old(disk[..])[b := old(Logical())[b]]
      ensures images == old(images) || images == old(images) + [disk[..]]
    {
      ghost var before := disk[..];
      if !mapped[b] || !dirty[b] {
        assert disk[..] == before[b := Logical()[b]];
        return;
      }
      disk[b] := page[b];
      assert disk[..] == before[b := page[b]];
      dirty[b] := false;
      images := images + [disk[..]];
      assert Logical() == old(Logical());
    }
  }
}
