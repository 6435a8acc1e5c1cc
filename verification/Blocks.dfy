/** Disk blocks as bytes, and the 32-bit words and bits stored in them (inc/fs.h, fs/fs.c). */
module Blocks {
  import opened Mmu

  const BLKSIZE := PGSIZE
  const BLKWORDS := 1024 // 32-bit words in a block: NINDIRECT
  const BLKBITSIZE := 32768
  const WORD_LIMIT := 0x1_0000_0000

  type Block = Bytes
  type Image = seq<Block>

  // ---------------------------------------------------------------- words, least significant byte first

  function Word(b: Block, i: nat): (w: nat)
    requires i < BLKWORDS
    ensures w < WORD_LIMIT
  {
    var b0: int, b1: int, b2: int, b3: int := b[4 * i], b[4 * i + 1], b[4 * i + 2], b[4 * i + 3];
    b0 + 0x100 * b1 + 0x1_0000 * b2 + 0x100_0000 * b3
  }

  function WithWord(b: Block, i: nat, w: nat): Block
    requires i < BLKWORDS && w < WORD_LIMIT
  {
    b[4 * i := w % 0x100][4 * i + 1 := w / 0x100 % 0x100][4 * i + 2 := w / 0x1_0000 % 0x100][4 * i + 3 := w / 0x100_0000]
  }

  lemma FourBytes(w: nat)
    requires w < WORD_LIMIT
    ensures w % 0x100 + 0x100 * (w / 0x100 % 0x100) + 0x1_0000 * (w / 0x1_0000 % 0x100) + 0x100_0000 * (w / 0x100_0000) == w
  {
    assert w / 0x100 / 0x100 == w / 0x1_0000 && w / 0x1_0000 / 0x100 == w / 0x100_0000;
  }

  lemma WordStored(b: Block, i: nat, w: nat, j: nat)
    requires i < BLKWORDS && j < BLKWORDS && w < WORD_LIMIT
    ensures Word(WithWord(b, i, w), j) == if i == j then w else Word(b, j)
  {
    FourBytes(w);
  }

  /** Words are stored least significant byte first. */
  lemma LeastFirst(b: Block, i: nat)
    requires i < BLKWORDS
    ensures Word(b, i) % 0x100 == b[4 * i] && Word(b, i) / 0x100_0000 == b[4 * i + 3]
  {
    var b0: int, b1: int, b2: int, b3: int := b[4 * i], b[4 * i + 1], b[4 * i + 2], b[4 * i + 3];
    assert Word(b, i) == b0 + 0x100 * (b1 + 0x100 * b2 + 0x1_0000 * b3);
  }

  lemma ZeroWord(i: nat)
    requires i < BLKWORDS
    ensures Word(ZeroPage(), i) == 0
  {}

  // ---------------------------------------------------------------- bits of a word

  /** w & 1 << k */
  predicate Bit(w: nat, k: nat) {
    if k == 0 then w % 2 == 1 else Bit(w / 2, k - 1)
  }

  /** w | 1 << k */
  function SetBit(w: nat, k: nat): nat {
    if k == 0 then w / 2 * 2 + 1 else SetBit(w / 2, k - 1) * 2 + w % 2
  }

  /** w & ~(1 << k) */
  function ClearBit(w: nat, k: nat): nat {
    if k == 0 then w / 2 * 2 else ClearBit(w / 2, k - 1) * 2 + w % 2
  }

  function Power2(k: nat): nat { if k == 0 then 1 else 2 * Power2(k - 1) }

  /** Bit k is the one that counts 2^k. */
  lemma {:induction false} BitCounts(w: nat, k: nat)
    ensures Power2(k) > 0 && (Bit(w, k) <==> w / Power2(k) % 2 == 1)
  {
    if k > 0 {
      BitCounts(w / 2, k - 1);
      DivTwice(w, Power2(k - 1));
    }
  }

  lemma DivTwice(w: nat, p: nat)
    requires p > 0
    ensures w / 2 / p == w / (2 * p)
  {
    var q, r := w / 2 / p, w / 2 % p;
    assert w == 2 * p * q + (2 * r + w % 2) by {
      assert w / 2 == p * q + r;
      assert 2 * (p * q) == 2 * p * q;
    }
    DivIs(w, 2 * p, q, 2 * r + w % 2);
  }

  lemma MulMore(m: nat, a: nat, b: nat)
    requires a < b
    ensures m * b >= m * a + m
  {
    var k := b - a - 1;
    assert m * b == m * (a + 1 + k) == m * a + m + m * k;
  }

  lemma DivIs(x: nat, m: nat, q: nat, r: nat)
    requires r < m && x == m * q + r
    ensures x / m == q
  {
    var q', r' := x / m, x % m;
    assert m * q' + r' == m * q + r;
    if q' > q {
      MulMore(m, q, q');
    } else if q' < q {
      MulMore(m, q', q);
    }
  }

  lemma Doubled(x: nat, r: nat)
    requires r < 2
    ensures (x * 2 + r) / 2 == x && (x * 2 + r) % 2 == r
  {}

  lemma {:induction false} BitsStored(w: nat, k: nat, j: nat)
    ensures Bit(SetBit(w, k), j) == (j == k || Bit(w, j))
    ensures Bit(ClearBit(w, k), j) == (j != k && Bit(w, j))
  {
    if k == 0 {
      assert w / 2 * 2 / 2 == w / 2 && (w / 2 * 2 + 1) / 2 == w / 2;
    } else {
      Doubled(SetBit(w / 2, k - 1), w % 2);
      Doubled(ClearBit(w / 2, k - 1), w % 2);
      if j > 0 {
        BitsStored(w / 2, k - 1, j - 1);
      }
    }
  }

  lemma {:induction false} BitsFit(w: nat, k: nat, n: nat)
    requires k < n && w < Power2(n)
    ensures SetBit(w, k) < Power2(n) && ClearBit(w, k) < Power2(n)
  {
    if k > 0 {
      BitsFit(w / 2, k - 1, n - 1);
    }
  }

  lemma WordBitsFit(w: nat, k: nat)
    requires k < 32 && w < WORD_LIMIT
    ensures SetBit(w, k) < WORD_LIMIT && ClearBit(w, k) < WORD_LIMIT
  {
    assert Power2(8) == 0x100;
    assert Power2(16) == 0x1_0000;
    assert Power2(24) == 0x100_0000;
    assert Power2(32) == WORD_LIMIT;
    BitsFit(w, k, 32);
  }

  // ---------------------------------------------------------------- the bitmap, which starts in block 2

  /** Blocks that never hold file data: 0, the super block and the bitmap. */
  function Reserved(n: nat): nat { 2 + (n + BLKBITSIZE - 1) / BLKBITSIZE }

  function BitBlock(b: nat): nat { 2 + b / BLKBITSIZE }
  function BitWord(b: nat): (i: nat)
    ensures i < BLKWORDS
  {
    b % BLKBITSIZE / 32
  }

  /** The bit of block b is set: block b is free. */
  predicate Free(m: Image, b: nat) {
    BitBlock(b) < |m| && Bit(Word(m[BitBlock(b)], BitWord(b)), b % 32)
  }

  /** bitmap[b / 32] |= 1 << (b % 32), or &= ~. */
  function Marked(m: Image, b: nat, free: bool): (r: Image)
    requires BitBlock(b) < |m|
    ensures |r| == |m|
  {
    var x, w := m[BitBlock(b)], Word(m[BitBlock(b)], BitWord(b));
    WordBitsFit(w, b % 32);
    m[BitBlock(b) := WithWord(x, BitWord(b), if free then SetBit(w, b % 32) else ClearBit(w, b % 32))]
  }

  lemma SameBit(a: nat, b: nat)
    requires BitBlock(a) == BitBlock(b) && BitWord(a) == BitWord(b) && a % 32 == b % 32
    ensures a == b
  {
    var x, y := a % BLKBITSIZE, b % BLKBITSIZE;
    assert x % 32 == a % 32 && y % 32 == b % 32;
  }

  /** Marking changes one block's bit. */
  lemma MarkedBit(m: Image, b: nat, free: bool, c: nat)
    requires BitBlock(b) < |m|
    ensures Free(Marked(m, b, free), c) == if b == c then free else Free(m, c)
  {
    var x, w := m[BitBlock(b)], Word(m[BitBlock(b)], BitWord(b));
    WordBitsFit(w, b % 32);
    var u := if free then SetBit(w, b % 32) else ClearBit(w, b % 32);
    if BitBlock(b) == BitBlock(c) {
      WordStored(x, BitWord(b), u, BitWord(c));
      BitsStored(w, b % 32, c % 32);
      if BitWord(b) == BitWord(c) && b != c {
        if b % 32 == c % 32 {
          SameBit(b, c);
        }
      }
    }
  }
}
