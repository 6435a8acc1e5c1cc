/** The paging constants and entry layout of inc/mmu.h and inc/memlayout.h (32-bit paging). */
module Mmu {
  const PGSIZE := 4096
  const NPDENTRIES := 1024
  const NPTENTRIES := 1024
  const PTSIZE := 0x40_0000
  const NENV := 1024
  const ADDR_LIMIT := 0x1_0000_0000

  const ULIM := 0xEF80_0000
  const UVPT := 0xEF40_0000
  const UTOP := 0xEEC0_0000
  const USTACKTOP := 0xEEBF_E000
  const UXSTACK := 0xEEBF_F000 // the one page below UXSTACKTOP == UTOP
  const UTEMP := 0x40_0000
  const PFTEMP := 0x7F_F000

  /** PDX(UTOP): the number of page directory entries that describe user memory. */
  const USER_PDES := 955
  const UVPT_PDX := 957

  const PTE_P: bv32 := 0x001
  const PTE_W: bv32 := 0x002
  const PTE_U: bv32 := 0x004
  const PTE_PS: bv32 := 0x080
  const PTE_AVAIL: bv32 := 0xE00
  const PTE_COW: bv32 := 0x800
  const PTE_SYSCALL: bv32 := 0xE07

  /** The flags pgdir_walk gives the directory entry of a new page table. */
  const TABLE_FLAGS := PTE_P | PTE_W | PTE_U

  type Byte = b: int | 0 <= b < 256
  /** The contents of a page, or of a disk block. */
  type Bytes = s: seq<Byte> | |s| == PGSIZE witness seq(PGSIZE, _ => 0)

  function ZeroPage(): Bytes { seq(PGSIZE, _ => 0) }

  /** A page directory or page table entry: the frame number in the upper 20 bits, the flags in the lower 12. */
  datatype Entry = Entry(ppn: nat, flags: bv32)

  const ZERO := Entry(0, 0)

  predicate Present(e: Entry) { e.flags | PTE_P == e.flags }
  predicate Writable(e: Entry) { e.flags & PTE_W != 0 }
  predicate UserBit(e: Entry) { e.flags & PTE_U != 0 }
  predicate CopyOnWrite(e: Entry) { e.flags & PTE_COW != 0 }

  function Pdx(va: nat): nat { va / PTSIZE }
  function Ptx(va: nat): nat { va / PGSIZE % NPTENTRIES }
  function PgAddr(i: nat, j: nat): nat { i * PTSIZE + j * PGSIZE }

  lemma PgAddrInverse(i: nat, j: nat)
    requires j < NPTENTRIES
    ensures Pdx(PgAddr(i, j)) == i && Ptx(PgAddr(i, j)) == j
  {
    assert PgAddr(i, j) / PGSIZE == i * NPTENTRIES + j;
  }

  lemma AlignedAddr(va: nat)
    requires va % PGSIZE == 0
    ensures PgAddr(Pdx(va), Ptx(va)) == va
    ensures va < UTOP <==> Pdx(va) < USER_PDES
  {
    assert va / PGSIZE / NPTENTRIES == va / PTSIZE;
  }
}
