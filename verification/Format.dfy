/** The initial image of the file system (fs/fsformat.c). */
module Formats {
  import opened Options
  import opened Blocks
  import opened Volumes
  import opened FileData
  import Mmu

  /** The fields of a struct File that fsformat fills in, names apart. */
  datatype Node = Node(size: nat, dir: bool, direct: seq<nat>, indirect: nat)

  const FILES_PER_BLOCK := 16 // BLKFILES
  const MAX_DIR_ENTS := 128
  const MAXFILESIZE := MAXFILEBLOCKS * BLKSIZE

  predicate NodeOk(x: Node) {
    |x.direct| == NDIRECT && x.size < WORD_LIMIT && x.indirect < WORD_LIMIT
    && forall i :: 0 <= i < NDIRECT ==> x.direct[i] < WORD_LIMIT
  }

  function EmptyNode(dir: bool): (x: Node)
    ensures NodeOk(x)
  {
    Node(0, dir, seq(NDIRECT, _ => 0), 0)
  }

  // ---------------------------------------------------------------- structures as words of a block

  /** The block whose i-th word is words[i]. */
  function Encoded(words: seq<nat>): Block
    requires |words| == BLKWORDS && forall i :: 0 <= i < BLKWORDS ==> words[i] < WORD_LIMIT
  {
    seq(BLKSIZE, j requires 0 <= j < BLKSIZE => ByteOf(words[j / 4], j % 4))
  }

  function ByteOf(w: nat, j: nat): Mmu.Byte
    requires w < WORD_LIMIT && j < 4
  {
    if j == 0 then w % 0x100 else if j == 1 then w / 0x100 % 0x100 else if j == 2 then w / 0x1_0000 % 0x100 else w / 0x100_0000
  }

  lemma EncodedWord(words: seq<nat>, i: nat)
    requires |words| == BLKWORDS && forall i :: 0 <= i < BLKWORDS ==> words[i] < WORD_LIMIT
    requires i < BLKWORDS
    ensures Word(Encoded(words), i) == words[i]
  {
    FourBytes(words[i]);
  }

  /** Word w of the struct File of x. */
  function FileWord(x: Node, w: nat): (r: nat)
    requires NodeOk(x) && w < FILE_WORDS
    ensures r < WORD_LIMIT
  {
    if w == F_SIZE then x.size
    else if w == F_SIZE + 1 then (if x.dir then 1 else 0) // f_type
    else if F_DIRECT <= w < F_DIRECT + NDIRECT then x.direct[w - F_DIRECT]
    else if w == F_INDIRECT then x.indirect
    else 0
  }

  /** The super block: magic number, number of blocks, root directory. */
  function SuperWords(n: nat, root: Node): (r: seq<nat>)
    requires n < WORD_LIMIT && NodeOk(root)
    ensures |r| == BLKWORDS && forall i :: 0 <= i < BLKWORDS ==> r[i] < WORD_LIMIT
  {
    seq(BLKWORDS, i requires 0 <= i < BLKWORDS =>
      if i == 0 then FS_MAGIC else if i == 1 then n else if i < 2 + FILE_WORDS then FileWord(root, i - 2) else 0)
  }

  /** Block j of the root directory. */
  function DirWords(ents: seq<Node>, j: nat): (r: seq<nat>)
    requires NodesOk(ents)
    ensures |r| == BLKWORDS && forall i :: 0 <= i < BLKWORDS ==> r[i] < WORD_LIMIT
  {
    seq(BLKWORDS, i requires 0 <= i < BLKWORDS =>
      var e := FILES_PER_BLOCK * j + i / FILE_WORDS;
      if e < |ents| then FileWord(ents[e], i % FILE_WORDS) else 0)
  }

  /** Block k of a file's contents, padded with zeros. */
  function Chunk(bytes: seq<Mmu.Byte>, k: nat): Block {
    seq(BLKSIZE, j requires 0 <= j < BLKSIZE => if BLKSIZE * k + j < |bytes| then bytes[BLKSIZE * k + j] else 0)
  }

  // ---------------------------------------------------------------- the image under construction

  predicate NodesOk(nodes: seq<Node>) { forall f :: 0 <= f < |nodes| ==> NodeOk(nodes[f]) }

  predicate InNodes(nodes: seq<Node>, s: Slot) {
    s.f < |nodes| && (s.Direct? ==> s.i < NDIRECT) && (s.Entry? ==> s.i < NINDIRECT)
  }

  /** What a slot holds, File structures still being in memory. File 0 is the root directory. */
  function NodePtr(nodes: seq<Node>, disk: Image, s: Slot): nat
    requires NodesOk(nodes) && InNodes(nodes, s)
  {
    match s
    case Direct(f, i) => nodes[f].direct[i]
    case Indirect(f) => nodes[f].indirect
    case Entry(f, i) => if nodes[f].indirect == 0 then 0 else At(disk, nodes[f].indirect, i)
  }

  /** Every block handed out so far is named by exactly one slot, and every non-zero slot names such a block. */
  ghost predicate Allotted(nodes: seq<Node>, disk: Image, pos: nat, owner: map<nat, Slot>) {
    && NodesOk(nodes)
    && (forall b :: b in owner <==> 3 <= b < pos)
    && (forall b :: b in owner ==> InNodes(nodes, owner[b]) && NodePtr(nodes, disk, owner[b]) == b)
    && (forall s :: InNodes(nodes, s) && NodePtr(nodes, disk, s) != 0 ==>
          NodePtr(nodes, disk, s) in owner && owner[NodePtr(nodes, disk, s)] == s)
  }

  ghost predicate Untouched(disk: Image, pos: nat) {
    forall b :: pos <= b < |disk| ==> disk[b] == Mmu.ZeroPage()
  }

  /** Pointers lie below the end of their file. */
  ghost predicate Fitted(nodes: seq<Node>, disk: Image) {
    NodesOk(nodes) &&
    forall s :: InNodes(nodes, s) && NodePtr(nodes, disk, s) != 0 ==> Within(s, nodes[s.f].size)
  }

  /** Files 1, 2, .. hold the given contents. */
  ghost predicate Filled(nodes: seq<Node>, disk: Image, contents: seq<seq<Mmu.Byte>>) {
    && |nodes| == |contents| + 1 && NodesOk(nodes)
    && (forall f: nat :: 0 < f < |nodes| ==> !nodes[f].dir)
    && (forall f: nat :: 0 < f < |nodes| ==> nodes[f].size == |contents[f - 1]|)
    && forall f: nat, k: nat :: 0 < f < |nodes| && k < BlockCount(|contents[f - 1]|) && k < MAXFILEBLOCKS ==>
         var b := NodePtr(nodes, disk, DataSlot(f, k)); 0 < b < |disk| && disk[b] == Chunk(contents[f - 1], k)
  }

  /** The struct File of a file of n blocks from `start` on, its indirect block, if it has one, behind them. */
  function Laid(size: nat, dir: bool, start: nat, n: nat): (x: Node)
    requires size < WORD_LIMIT && start + n + 1 < WORD_LIMIT
    ensures NodeOk(x)
  {
    Node(size, dir, seq(NDIRECT, i requires 0 <= i < NDIRECT => if i < n then start + i else 0),
         if n >= NDIRECT then start + n else 0)
  }

  /** The indirect block of such a file. */
  predicate Listed(b: Block, start: nat, n: nat) {
    forall i :: 0 <= i < NINDIRECT ==> Word(b, i) == if NDIRECT + i < n then start + NDIRECT + i else 0
  }

  function Used(n: nat): nat { if n >= NDIRECT then n + 1 else n }

  /** The block after those of all the files: blocks 0 to 2 come first. */
  function Taken(files: seq<seq<Mmu.Byte>>): nat {
    if files == [] then 3 else Taken(files[..|files| - 1]) + Used(BlockCount(|files[|files| - 1]|))
  }

  /** Do the files and their directory fit on a disk of n blocks? */
  predicate Fits(n: nat, files: seq<seq<Mmu.Byte>>) {
    && |files| <= MAX_DIR_ENTS && (forall i :: 0 <= i < |files| ==> |files[i]| < MAXFILESIZE)
    && Taken(files) + BlockCount(256 * |files|) < n
  }

  /** The block after everything that fsformat hands out: the files, then the directory entries. */
  function HandedOut(files: seq<seq<Mmu.Byte>>): nat { Taken(files) + BlockCount(256 * |files|) }

  lemma FitsBelow(n: nat, files: seq<seq<Mmu.Byte>>)
    ensures Fits(n, files) ==> HandedOut(files) < n
  {}

  /** Three blocks before the first file; each file takes its length in 4096-byte blocks, and one more from ten
      blocks on, which is one block before the indirect block is needed. */
  lemma BlocksTaken(files: seq<seq<Mmu.Byte>>, bytes: seq<Mmu.Byte>)
    ensures Taken([]) == 3
    ensures Taken(files + [bytes]) == Taken(files) + (|bytes| + 4095) / 4096 + if |bytes| > 9 * 4096 then 1 else 0
  {
    TakenMore(files, bytes);
  }

  lemma TakenMore(files: seq<seq<Mmu.Byte>>, bytes: seq<Mmu.Byte>)
    ensures Taken(files + [bytes]) == Taken(files) + Used(BlockCount(|bytes|))
  {
    assert (files + [bytes])[..|files|] == files;
  }

  lemma {:induction false} TakenGrows(files: seq<seq<Mmu.Byte>>, i: nat)
    requires i <= |files|
    ensures 3 <= Taken(files[..i]) <= Taken(files)
    decreases |files|, |files| - i
  {
    if i == |files| {
      assert files[..i] == files;
      if i > 0 {
        TakenGrows(files[..i - 1], i - 1);
      }
    } else {
      assert files[..i + 1][..i] == files[..i];
      TakenGrows(files, i + 1);
      TakenGrows(files[..i], i);
    }
  }

  function Handed(owner: map<nat, Slot>, pos: nat, g: nat, n: nat): map<nat, Slot> {
    map b | 3 <= b < pos + Used(n) ::
      if b in owner then owner[b] else if pos <= b < pos + n then DataSlot(g, b - pos) else Indirect(g)
  }

  ghost predicate Bare(nodes: seq<Node>, disk: Image, g: nat) {
    NodesOk(nodes) && forall s :: InNodes(nodes, s) && s.f == g ==> NodePtr(nodes, disk, s) == 0
  }

  lemma OldPtr(nodes: seq<Node>, disk: Image, disk': Image, pos: nat, owner: map<nat, Slot>, g: nat, x: Node, s: Slot)
    requires Allotted(nodes, disk, pos, owner) && NodeOk(x) && g < |nodes| && InNodes(nodes, s) && s.f != g
    requires |disk'| == |disk| && forall b :: 3 <= b < pos && b < |disk| ==> disk'[b] == disk[b]
    ensures NodePtr(nodes[g := x], disk', s) == NodePtr(nodes, disk, s)
  {
    if s.Entry? && nodes[s.f].indirect != 0 {
      assert NodePtr(nodes, disk, Indirect(s.f)) == nodes[s.f].indirect;
    }
  }

  /** The pointers of a file just laid out. */
  lemma NewPtr(nodes: seq<Node>, disk: Image, pos: nat, g: nat, size: nat, dir: bool, n: nat, s: Slot)
    requires NodesOk(nodes) && g < |nodes| && InNodes(nodes, s) && s.f == g && 3 <= pos && n <= MAXFILEBLOCKS
    requires size < WORD_LIMIT && pos + n + 1 < WORD_LIMIT && nodes[g] == Laid(size, dir, pos, n)
    requires n >= NDIRECT ==> pos + n < |disk| && Listed(disk[pos + n], pos, n)
    ensures NodePtr(nodes, disk, s) == NewPtrOf(pos, n, s)
  {}

  lemma NewOwner(pos: nat, n: nat, g: nat, b: nat)
    requires pos <= b < pos + Used(n) && n <= MAXFILEBLOCKS
    ensures var s := if b < pos + n then DataSlot(g, b - pos) else Indirect(g);
            NewPtrOf(pos, n, s) == b && s.f == g && (s.Direct? ==> s.i < NDIRECT) && (s.Entry? ==> s.i < NINDIRECT)
  {}

  lemma NewSlot(pos: nat, n: nat, s: Slot)
    requires NewPtrOf(pos, n, s) != 0 && n <= MAXFILEBLOCKS && (s.Direct? ==> s.i < NDIRECT)
    ensures var b := NewPtrOf(pos, n, s);
            pos <= b < pos + Used(n) && s == if b < pos + n then DataSlot(s.f, b - pos) else Indirect(s.f)
  {}

  lemma NotBare(nodes: seq<Node>, disk: Image, pos: nat, owner: map<nat, Slot>, g: nat, b: nat)
    requires Allotted(nodes, disk, pos, owner) && Bare(nodes, disk, g) && b in owner && b != 0
    ensures InNodes(nodes, owner[b]) && owner[b].f != g && NodePtr(nodes, disk, owner[b]) == b
  {
    hide NodePtr;
  }

  /** A file without pointers gets n blocks from pos on. */
  lemma FillNode(nodes: seq<Node>, disk: Image, disk': Image, pos: nat, owner: map<nat, Slot>, g: nat, size: nat, dir: bool, n: nat)
    requires Allotted(nodes, disk, pos, owner) && g < |nodes| && Bare(nodes, disk, g) && 3 <= pos && n <= MAXFILEBLOCKS
    requires |disk'| == |disk| && forall b :: 3 <= b < pos && b < |disk| ==> disk'[b] == disk[b]
    requires size < WORD_LIMIT && pos + n + 1 < WORD_LIMIT
    requires n >= NDIRECT ==> pos + n < |disk| && Listed(disk'[pos + n], pos, n)
    ensures Allotted(nodes[g := Laid(size, dir, pos, n)], disk', pos + Used(n), Handed(owner, pos, g, n))
  {
    var nodes' := nodes[g := Laid(size, dir, pos, n)];
    forall s | InNodes(nodes', s)
      ensures NodePtr(nodes', disk', s) == if s.f == g then NewPtrOf(pos, n, s) else NodePtr(nodes, disk, s)
    {
      if s.f == g {
        NewPtr(nodes', disk', pos, g, size, dir, n, s);
      } else {
        OldPtr(nodes, disk, disk', pos, owner, g, nodes'[g], s);
      }
    }
    hide Allotted, NodePtr, Laid, Listed, NewPtrOf, Bare;
    FillOwners(nodes, disk, nodes', disk', pos, owner, g, n);
    FillSlots(nodes, disk, nodes', disk', pos, owner, g, n);
    HandedKeys(nodes, disk, pos, owner, g, n);
    AllottedIs(nodes', disk', pos + Used(n), Handed(owner, pos, g, n));
  }

  lemma HandedKeys(nodes: seq<Node>, disk: Image, pos: nat, owner: map<nat, Slot>, g: nat, n: nat)
    requires Allotted(nodes, disk, pos, owner)
    ensures NodesOk(nodes) && forall b :: b in Handed(owner, pos, g, n) <==> 3 <= b < pos + Used(n)
  {
    hide NodePtr;
  }

  lemma AllottedIs(nodes: seq<Node>, disk: Image, pos: nat, owner: map<nat, Slot>)
    requires NodesOk(nodes) && (forall b :: b in owner <==> 3 <= b < pos)
    requires forall b :: b in owner ==> InNodes(nodes, owner[b]) && NodePtr(nodes, disk, owner[b]) == b
    requires forall s :: InNodes(nodes, s) && NodePtr(nodes, disk, s) != 0 ==>
               NodePtr(nodes, disk, s) in owner && owner[NodePtr(nodes, disk, s)] == s
    ensures Allotted(nodes, disk, pos, owner)
  {
    hide NodePtr;
  }

  lemma FillOwners(nodes: seq<Node>, disk: Image, nodes': seq<Node>, disk': Image, pos: nat, owner: map<nat, Slot>, g: nat, n: nat)
    requires Allotted(nodes, disk, pos, owner) && NodesOk(nodes') && |nodes'| == |nodes| && g < |nodes| && Bare(nodes, disk, g)
    requires n <= MAXFILEBLOCKS
    requires forall s :: InNodes(nodes', s) ==>
               NodePtr(nodes', disk', s) == if s.f == g then NewPtrOf(pos, n, s) else NodePtr(nodes, disk, s)
    ensures var owner' := Handed(owner, pos, g, n);
            forall b :: b in owner' ==> InNodes(nodes', owner'[b]) && NodePtr(nodes', disk', owner'[b]) == b
  {
    hide NodePtr, NewPtrOf, Bare;
    var owner' := Handed(owner, pos, g, n);
    forall b | b in owner' ensures InNodes(nodes', owner'[b]) && NodePtr(nodes', disk', owner'[b]) == b {
      if b in owner {
        NotBare(nodes, disk, pos, owner, g, b);
      } else {
        NewOwner(pos, n, g, b);
      }
    }
  }

  lemma FillSlots(nodes: seq<Node>, disk: Image, nodes': seq<Node>, disk': Image, pos: nat, owner: map<nat, Slot>, g: nat, n: nat)
    requires Allotted(nodes, disk, pos, owner) && NodesOk(nodes') && |nodes'| == |nodes| && g < |nodes|
    requires 3 <= pos && n <= MAXFILEBLOCKS
    requires forall s :: InNodes(nodes', s) ==>
               NodePtr(nodes', disk', s) == if s.f == g then NewPtrOf(pos, n, s) else NodePtr(nodes, disk, s)
    ensures var owner' := Handed(owner, pos, g, n);
            forall s :: InNodes(nodes', s) && NodePtr(nodes', disk', s) != 0 ==>
              NodePtr(nodes', disk', s) in owner' && owner'[NodePtr(nodes', disk', s)] == s
  {
    hide NodePtr, NewPtrOf;
    var owner' := Handed(owner, pos, g, n);
    forall s | InNodes(nodes', s) && NodePtr(nodes', disk', s) != 0
      ensures NodePtr(nodes', disk', s) in owner' && owner'[NodePtr(nodes', disk', s)] == s
    {
      if s.f == g {
        NewSlot(pos, n, s);
      }
    }
  }

  function NewPtrOf(pos: nat, n: nat, s: Slot): nat {
    match s
    case Indirect(_) => if n >= NDIRECT then pos + n else 0
    case Direct(_, i) => if i < n then pos + i else 0
    case Entry(_, i) => if NDIRECT + i < n then pos + NDIRECT + i else 0
  }

  // ---------------------------------------------------------------- the finished image

  /** The File structures of the image: the root directory in the super block, the others in its blocks. */
  function Inodes(n: nat, dirstart: nat, count: nat): Volume {
    Volume(n, [Inode(1, 2, true)] + seq(count, (e: nat) =>
      Inode(dirstart + e / FILES_PER_BLOCK, FILE_WORDS * (e % FILES_PER_BLOCK), false)))
  }

  ghost predicate Written(n: nat, image: Image, nodes: seq<Node>, dirstart: nat) {
    && 0 < |nodes| && NodesOk(nodes) && |image| == n < WORD_LIMIT && 2 < n
    && image[1] == Encoded(SuperWords(n, nodes[0]))
    && dirstart + BlockCount(256 * (|nodes| - 1)) <= n
    && forall j :: 0 <= j < BlockCount(256 * (|nodes| - 1)) ==>
         image[dirstart + j] == Encoded(DirWords(nodes[1..], j))
  }

  /** Entry e of a directory is entry e % 16 of its block e / 16. */
  lemma EntryPlace(e: nat, w: nat)
    requires w < FILE_WORDS
    ensures var i := FILE_WORDS * (e % FILES_PER_BLOCK) + w;
            i < BLKWORDS && i / FILE_WORDS == e % FILES_PER_BLOCK && i % FILE_WORDS == w
    ensures FILES_PER_BLOCK * (e / FILES_PER_BLOCK) + e % FILES_PER_BLOCK == e
  {}

  lemma EntryBlock(e: nat, count: nat)
    requires e < count
    ensures e / FILES_PER_BLOCK < BlockCount(256 * count)
  {}

  lemma AtEncoded(image: Image, b: nat, words: seq<nat>, i: nat)
    requires |words| == BLKWORDS && (forall i :: 0 <= i < BLKWORDS ==> words[i] < WORD_LIMIT) && i < BLKWORDS
    requires b < |image| && image[b] == Encoded(words)
    ensures At(image, b, i) == words[i]
  {
    EncodedWord(words, i);
    hide Encoded;
  }

  lemma EntryWord(ents: seq<Node>, e: nat, w: nat)
    requires NodesOk(ents) && e < |ents| && w < FILE_WORDS
    ensures var i := FILE_WORDS * (e % FILES_PER_BLOCK) + w;
            i < BLKWORDS && DirWords(ents, e / FILES_PER_BLOCK)[i] == FileWord(ents[e], w)
  {
    EntryPlace(e, w);
    hide FileWord;
  }

  lemma InodeOf(n: nat, dirstart: nat, count: nat, f: nat)
    requires f <= count
    ensures var v := Inodes(n, dirstart, count);
            && |v.files| == count + 1 && v.n == n
            && v.files[f] == if f == 0 then Inode(1, 2, true)
                             else Inode(dirstart + (f - 1) / FILES_PER_BLOCK, FILE_WORDS * ((f - 1) % FILES_PER_BLOCK), false)
  {}

  lemma FileWordAt(n: nat, image: Image, nodes: seq<Node>, dirstart: nat, f: nat, w: nat)
    requires Written(n, image, nodes, dirstart) && f < |nodes| && w < FILE_WORDS
    ensures |Inodes(n, dirstart, |nodes| - 1).files| == |nodes|
    ensures var x := Inodes(n, dirstart, |nodes| - 1).files[f];
            x.home < n && At(image, x.home, x.base + w) == FileWord(nodes[f], w)
  {
    InodeOf(n, dirstart, |nodes| - 1, f);
    hide FileWord, At, Inodes, Written;
    if f == 0 {
      RootWordAt(n, image, nodes, dirstart, w);
    } else {
      EntryWordAt(n, image, nodes, dirstart, f - 1, w);
    }
  }

  lemma RootWordAt(n: nat, image: Image, nodes: seq<Node>, dirstart: nat, w: nat)
    requires Written(n, image, nodes, dirstart) && w < FILE_WORDS
    ensures 1 < n && At(image, 1, 2 + w) == FileWord(nodes[0], w)
  {
    hide FileWord, Encoded, At, SuperWords, DirWords;
    SuperWord(n, nodes[0], w);
    AtEncoded(image, 1, SuperWords(n, nodes[0]), 2 + w);
  }

  lemma EntryWordAt(n: nat, image: Image, nodes: seq<Node>, dirstart: nat, e: nat, w: nat)
    requires Written(n, image, nodes, dirstart) && e + 1 < |nodes| && w < FILE_WORDS
    ensures var b, i := dirstart + e / FILES_PER_BLOCK, FILE_WORDS * (e % FILES_PER_BLOCK) + w;
            b < n && At(image, b, i) == FileWord(nodes[e + 1], w)
  {
    EntryBlock(e, |nodes| - 1);
    EntryPlace(e, w);
    hide FileWord, Encoded, At, SuperWords, DirWords, BlockCount;
    var ents, j, i := nodes[1..], e / FILES_PER_BLOCK, FILE_WORDS * (e % FILES_PER_BLOCK) + w;
    assert image[dirstart + j] == Encoded(DirWords(ents, j));
    EntryWord(ents, e, w);
    AtEncoded(image, dirstart + j, DirWords(ents, j), i);
  }

  lemma SuperWord(n: nat, root: Node, w: nat)
    requires n < WORD_LIMIT && NodeOk(root) && w < FILE_WORDS
    ensures SuperWords(n, root)[2 + w] == FileWord(root, w)
  {
    hide FileWord;
  }

  lemma ImageNode(n: nat, image: Image, nodes: seq<Node>, dirstart: nat, f: nat)
    requires Written(n, image, nodes, dirstart) && f < |nodes|
    ensures |Inodes(n, dirstart, |nodes| - 1).files| == |nodes|
    ensures IndirectOf(Inodes(n, dirstart, |nodes| - 1), image, f) == nodes[f].indirect
    ensures Size(Inodes(n, dirstart, |nodes| - 1), image, f) == nodes[f].size
  {
    hide At, Inodes, Encoded, SuperWords, DirWords;
    FileWordAt(n, image, nodes, dirstart, f, F_SIZE);
    FileWordAt(n, image, nodes, dirstart, f, F_INDIRECT);
  }

  /** The super block begins with the magic number and the number of blocks. */
  lemma SuperHead(n: nat, image: Image, nodes: seq<Node>, dirstart: nat)
    requires Written(n, image, nodes, dirstart)
    ensures At(image, 1, 0) == 0x4A0530AE && At(image, 1, 1) == n
  {
    hide FileWord, Encoded, At, DirWords;
    AtEncoded(image, 1, SuperWords(n, nodes[0]), 0);
    AtEncoded(image, 1, SuperWords(n, nodes[0]), 1);
  }

  /** f_type is FTYPE_DIR, which is 1, for directories and FTYPE_REG, which is 0, for regular files. */
  ghost predicate Typed(v: Volume, image: Image) {
    forall f: nat :: f < |v.files| ==> At(image, v.files[f].home, v.files[f].base + 33) == if v.files[f].dir then 1 else 0
  }

  lemma ImageTyped(n: nat, image: Image, nodes: seq<Node>, dirstart: nat)
    requires Written(n, image, nodes, dirstart) && nodes[0].dir && forall f: nat :: 0 < f < |nodes| ==> !nodes[f].dir
    ensures Typed(Inodes(n, dirstart, |nodes| - 1), image)
  {
    var v := Inodes(n, dirstart, |nodes| - 1);
    hide Written, At, Inodes;
    forall f: nat | f < |v.files| ensures At(image, v.files[f].home, v.files[f].base + 33) == if v.files[f].dir then 1 else 0 {
      InodeOf(n, dirstart, |nodes| - 1, f);
      FileWordAt(n, image, nodes, dirstart, f, 33);
    }
  }

  /** The image's pointers are those of the File structures it was built from. */
  lemma ImagePtr(n: nat, image: Image, nodes: seq<Node>, dirstart: nat, s: Slot)
    requires Written(n, image, nodes, dirstart) && InNodes(nodes, s)
    ensures |Inodes(n, dirstart, |nodes| - 1).files| == |nodes|
    ensures Ptr(Inodes(n, dirstart, |nodes| - 1), image, s) == NodePtr(nodes, image, s)
    ensures Size(Inodes(n, dirstart, |nodes| - 1), image, s.f) == nodes[s.f].size
  {
    hide At, Inodes, Encoded, SuperWords, DirWords, IndirectOf, Size;
    ImageNode(n, image, nodes, dirstart, s.f);
    match s {
      case Direct(f, i) => FileWordAt(n, image, nodes, dirstart, f, F_DIRECT + i);
      case Indirect(f) => FileWordAt(n, image, nodes, dirstart, f, F_INDIRECT);
      case Entry(_, _) =>
    }
  }

  lemma InodesPlaced(n: nat, dirstart: nat, count: nat)
    requires 3 <= n <= 1024 && 3 <= dirstart
    requires dirstart + BlockCount(256 * count) <= n
    ensures Placed(Inodes(n, dirstart, count)) && Reserved(n) == 3
  {
    var v := Inodes(n, dirstart, count);
    forall f: nat | f < |v.files|
      ensures v.files[f].base + FILE_WORDS <= BLKWORDS && (v.files[f].home == 1 || 3 <= v.files[f].home < n)
      ensures v.files[f].home == 1 <==> f == 0
    {
      InodeOf(n, dirstart, count, f);
      if f > 0 {
        EntryBlock(f - 1, count);
        EntryPlace(f - 1, 0);
      }
    }
    forall f: nat, g: nat | f < |v.files| && g < |v.files| && f != g && v.files[f].home == v.files[g].home
      ensures v.files[f].base + FILE_WORDS <= v.files[g].base || v.files[g].base + FILE_WORDS <= v.files[f].base
    {
      InodeOf(n, dirstart, count, f);
      InodeOf(n, dirstart, count, g);
      EntriesApart(f - 1, g - 1);
    }
  }

  lemma EntriesApart(e: nat, g: nat)
    requires e != g && e / FILES_PER_BLOCK == g / FILES_PER_BLOCK
    ensures var a, b := FILE_WORDS * (e % FILES_PER_BLOCK), FILE_WORDS * (g % FILES_PER_BLOCK);
            a + FILE_WORDS <= b || b + FILE_WORDS <= a
  {
    EntryPlace(e, 0);
    EntryPlace(g, 0);
  }

  /** Blocks below pos are marked in use, the others free. */
  ghost predicate Marks(image: Image, n: nat, pos: nat) {
    forall b :: 0 <= b < n ==> (Free(image, b) <==> pos <= b)
  }

  /** The data of the root directory is where its entries were copied. */
  ghost predicate RootLaid(nodes: seq<Node>, dirstart: nat) {
    && 0 < |nodes| && NodesOk(nodes) && nodes[0].dir
    && BlockCount(256 * (|nodes| - 1)) <= NDIRECT
    && forall j :: 0 <= j < BlockCount(256 * (|nodes| - 1)) ==> nodes[0].direct[j] == dirstart + j
  }

  lemma ImagePtrs(n: nat, image: Image, nodes: seq<Node>, dirstart: nat)
    requires Written(n, image, nodes, dirstart)
    ensures var v := Inodes(n, dirstart, |nodes| - 1);
            && |v.files| == |nodes|
            && (forall s :: ValidSlot(v, s) <==> InNodes(nodes, s))
            && (forall s :: ValidSlot(v, s) ==> Ptr(v, image, s) == NodePtr(nodes, image, s) && Size(v, image, s.f) == nodes[s.f].size)
  {
    var v := Inodes(n, dirstart, |nodes| - 1);
    hide NodePtr, Ptr, Size;
    forall s | InNodes(nodes, s) ensures Ptr(v, image, s) == NodePtr(nodes, image, s) && Size(v, image, s.f) == nodes[s.f].size {
      ImagePtr(n, image, nodes, dirstart, s);
    }
  }

  lemma ImageHomes(n: nat, image: Image, nodes: seq<Node>, dirstart: nat, pos: nat, owner: map<nat, Slot>)
    requires Written(n, image, nodes, dirstart) && Allotted(nodes, image, pos, owner) && RootLaid(nodes, dirstart) && 0 < dirstart
    ensures HomesOk(Inodes(n, dirstart, |nodes| - 1), owner)
  {
    var v := Inodes(n, dirstart, |nodes| - 1);
    forall f: nat | f < |v.files| && v.files[f].home != 1
      ensures v.files[f].home in owner && IsData(v, owner[v.files[f].home], true)
    {
      InodeOf(n, dirstart, |nodes| - 1, f);
      InodeOf(n, dirstart, |nodes| - 1, 0);
      var j := (f - 1) / FILES_PER_BLOCK;
      EntryBlock(f - 1, |nodes| - 1);
      assert NodePtr(nodes, image, Direct(0, j)) == dirstart + j;
    }
  }

  /** An image laid out with at least one file is a sound volume. */
  lemma ImageOwned(n: nat, image: Image, nodes: seq<Node>, dirstart: nat, pos: nat, owner: map<nat, Slot>)
    requires Written(n, image, nodes, dirstart) && Allotted(nodes, image, pos, owner) && RootLaid(nodes, dirstart)
    requires Fitted(nodes, image) && Marks(image, n, pos) && 3 <= pos < n <= 1024 && 3 <= dirstart
    ensures var v := Inodes(n, dirstart, |nodes| - 1); Placed(v) && Owned(v, image, owner, {}) && Sized(v, image)
  {
    ImageLength(n, image, nodes, dirstart);
    InodesPlaced(n, dirstart, |nodes| - 1);
    ImageHomes(n, image, nodes, dirstart, pos, owner);
    hide NodePtr, Ptr, Size, Free, HomesOk, Placed, Written, RootLaid, Inodes;
    ImagePointers(n, image, nodes, dirstart, pos, owner);
  }

  lemma ImagePointers(n: nat, image: Image, nodes: seq<Node>, dirstart: nat, pos: nat, owner: map<nat, Slot>)
    requires Written(n, image, nodes, dirstart) && Allotted(nodes, image, pos, owner) && Fitted(nodes, image)
    requires pos < n && Reserved(n) == 3 && Inodes(n, dirstart, |nodes| - 1).n == n
    ensures var v := Inodes(n, dirstart, |nodes| - 1); PointersOk(v, image, owner) && Sized(v, image)
  {
    ImagePtrs(n, image, nodes, dirstart);
    hide NodePtr, Ptr, Size, Written, Inodes;
  }

  lemma ImageLength(n: nat, image: Image, nodes: seq<Node>, dirstart: nat)
    requires Written(n, image, nodes, dirstart)
    ensures Inodes(n, dirstart, |nodes| - 1).n == n && |image| == n && dirstart + BlockCount(256 * (|nodes| - 1)) <= n
  {}

  /** Without files, the root directory's one block is never allocated: the image is not sound. */
  lemma ImageUnowned(n: nat, image: Image, nodes: seq<Node>, dirstart: nat, pos: nat, owner: map<nat, Slot>)
    requires Written(n, image, nodes, dirstart) && Marks(image, n, pos) && 3 <= pos < n && nodes[0].direct[0] == pos
    ensures !Owned(Inodes(n, dirstart, |nodes| - 1), image, owner, {})
  {
    var v := Inodes(n, dirstart, |nodes| - 1);
    ImagePtr(n, image, nodes, dirstart, Direct(0, 0));
    ImageLength(n, image, nodes, dirstart);
    assert Ptr(v, image, Direct(0, 0)) == pos;
    hide Ptr, Free, Written;
    if PointersOk(v, image, owner) {
      PtrOwned(v, image, owner, Direct(0, 0));
    }
  }

  /** The files of the image read back what they were given, and zeros after it. */
  lemma ImageBytes(n: nat, image: Image, nodes: seq<Node>, dirstart: nat, contents: seq<seq<Mmu.Byte>>, f: nat, pos: nat)
    requires Written(n, image, nodes, dirstart) && Filled(nodes, image, contents) && 0 < f < |nodes|
    requires pos / BLKSIZE < BlockCount(|contents[f - 1]|) && |contents[f - 1]| <= MAXFILESIZE
    ensures |Inodes(n, dirstart, |nodes| - 1).files| == |nodes|
    ensures FileByte(Inodes(n, dirstart, |nodes| - 1), image, f, pos) ==
              Some(if pos < |contents[f - 1]| then contents[f - 1][pos] else 0)
  {
    var k := pos / BLKSIZE;
    ChunkHolds(contents[f - 1], pos);
    InodeOf(n, dirstart, |nodes| - 1, f);
    hide NodePtr, Ptr, Written, Inodes, Chunk;
    assert DataSlot(f, k).f == f && InNodes(nodes, DataSlot(f, k));
    ImagePtr(n, image, nodes, dirstart, DataSlot(f, k));
    FilledAt(nodes, image, contents, f, k);
  }

  lemma FilledAt(nodes: seq<Node>, disk: Image, contents: seq<seq<Mmu.Byte>>, f: nat, k: nat)
    requires Filled(nodes, disk, contents) && 0 < f < |nodes| && k < BlockCount(|contents[f - 1]|) && k < MAXFILEBLOCKS
    ensures var b := NodePtr(nodes, disk, DataSlot(f, k)); 0 < b < |disk| && disk[b] == Chunk(contents[f - 1], k)
  {
    hide NodePtr, Chunk;
  }

  lemma ChunkHolds(bytes: seq<Mmu.Byte>, pos: nat)
    requires pos / BLKSIZE < BlockCount(|bytes|) && |bytes| <= MAXFILESIZE
    ensures pos / BLKSIZE < MAXFILEBLOCKS
    ensures Chunk(bytes, pos / BLKSIZE)[pos % BLKSIZE] == if pos < |bytes| then bytes[pos] else 0
  {}

  // ---------------------------------------------------------------- a file is added

  lemma BareAppended(nodes: seq<Node>, disk: Image, pos: nat, owner: map<nat, Slot>, x: Node)
    requires Allotted(nodes, disk, pos, owner) && x == EmptyNode(x.dir)
    ensures Allotted(nodes + [x], disk, pos, owner) && Bare(nodes + [x], disk, |nodes|)
  {
    var nodes' := nodes + [x];
    forall s | InNodes(nodes', s)
      ensures NodePtr(nodes', disk, s) == if s.f < |nodes| then NodePtr(nodes, disk, s) else 0 {}
    hide NodePtr;
  }

  /** The pointers of the files other than g, and those of g, after FillNode. */
  lemma FilledFits(nodes: seq<Node>, disk: Image, disk': Image, pos: nat, owner: map<nat, Slot>, g: nat, size: nat, dir: bool)
    requires Allotted(nodes, disk, pos, owner) && Fitted(nodes, disk) && g < |nodes| && 3 <= pos && BlockCount(size) <= MAXFILEBLOCKS
    requires |disk'| == |disk| && forall b :: 3 <= b < pos && b < |disk| ==> disk'[b] == disk[b]
    requires size < WORD_LIMIT && pos + BlockCount(size) + 1 < WORD_LIMIT
    requires BlockCount(size) >= NDIRECT ==> pos + BlockCount(size) < |disk| && Listed(disk'[pos + BlockCount(size)], pos, BlockCount(size))
    ensures Fitted(nodes[g := Laid(size, dir, pos, BlockCount(size))], disk')
  {
    var n := BlockCount(size);
    var nodes' := nodes[g := Laid(size, dir, pos, n)];
    forall s | InNodes(nodes', s) && NodePtr(nodes', disk', s) != 0 ensures Within(s, nodes'[s.f].size) {
      if s.f == g {
        NewPtr(nodes', disk', pos, g, size, dir, n, s);
      } else {
        OldPtr(nodes, disk, disk', pos, owner, g, nodes'[g], s);
      }
    }
    hide NodePtr, Within;
  }

  /** Contents stay, and the new file's are what was copied in. */
  lemma FilledMore(nodes: seq<Node>, disk: Image, disk': Image, pos: nat, owner: map<nat, Slot>,
                   contents: seq<seq<Mmu.Byte>>, bytes: seq<Mmu.Byte>)
    requires Allotted(nodes, disk, pos, owner) && Filled(nodes, disk, contents) && 3 <= pos && BlockCount(|bytes|) <= MAXFILEBLOCKS
    requires |disk'| == |disk| && forall b :: 3 <= b < pos && b < |disk| ==> disk'[b] == disk[b]
    requires pos + BlockCount(|bytes|) <= |disk| < WORD_LIMIT - 1
    requires forall k :: 0 <= k < BlockCount(|bytes|) ==> disk'[pos + k] == Chunk(bytes, k)
    requires BlockCount(|bytes|) >= NDIRECT ==>
               pos + BlockCount(|bytes|) < |disk| && Listed(disk'[pos + BlockCount(|bytes|)], pos, BlockCount(|bytes|))
    ensures Filled(nodes + [Laid(|bytes|, false, pos, BlockCount(|bytes|))], disk', contents + [bytes])
  {
    var n, g := BlockCount(|bytes|), |nodes|;
    var x := Laid(|bytes|, false, pos, n);
    var nodes', contents' := nodes + [x], contents + [bytes];
    assert nodes' == (nodes + [EmptyNode(false)])[g := x];
    BareAppended(nodes, disk, pos, owner, EmptyNode(false));
    forall f: nat, k: nat | 0 < f < |nodes'| && k < BlockCount(|contents'[f - 1]|) && k < MAXFILEBLOCKS
      ensures var b := NodePtr(nodes', disk', DataSlot(f, k)); 0 < b < |disk'| && disk'[b] == Chunk(contents'[f - 1], k)
    {
      if f == g {
        NewPtr(nodes', disk', pos, g, |bytes|, false, n, DataSlot(f, k));
      } else {
        OldChunk(nodes, disk, disk', pos, owner, contents, x, f, k);
      }
    }
    hide NodePtr, Chunk;
  }

  lemma OldChunk(nodes: seq<Node>, disk: Image, disk': Image, pos: nat, owner: map<nat, Slot>, contents: seq<seq<Mmu.Byte>>,
                 x: Node, f: nat, k: nat)
    requires Allotted(nodes, disk, pos, owner) && Filled(nodes, disk, contents) && NodeOk(x)
    requires |disk'| == |disk| && forall b :: 3 <= b < pos && b < |disk| ==> disk'[b] == disk[b]
    requires 0 < f < |nodes| && k < BlockCount(|contents[f - 1]|) && k < MAXFILEBLOCKS
    ensures NodesOk(nodes + [x])
    ensures var b := NodePtr(nodes + [x], disk', DataSlot(f, k)); 0 < b < |disk'| && disk'[b] == Chunk(contents[f - 1], k)
  {
    FilledAt(nodes, disk, contents, f, k);
    BareAppended(nodes, disk, pos, owner, EmptyNode(false));
    OldPtr(nodes + [EmptyNode(false)], disk, disk', pos, owner, |nodes|, x, DataSlot(f, k));
    assert nodes + [x] == (nodes + [EmptyNode(false)])[|nodes| := x];
    assert NodePtr(nodes + [EmptyNode(false)], disk, DataSlot(f, k)) == NodePtr(nodes, disk, DataSlot(f, k));
    hide NodePtr, Chunk;
  }

  // ---------------------------------------------------------------- the bitmap at the end

  function Ones(): Block { seq(BLKSIZE, _ => 0xFF) }

  lemma {:induction false} AllBits(n: nat, k: nat)
    requires k < n
    ensures 0 < Power2(n) && Bit(Power2(n) - 1, k)
  {
    if k == 0 {
      assert Power2(n) == 2 * Power2(n - 1);
      PowerPositive(n - 1);
      assert (2 * Power2(n - 1) - 1) % 2 == 1;
    } else {
      AllBits(n - 1, k - 1);
      assert (2 * Power2(n - 1) - 1) / 2 == Power2(n - 1) - 1;
    }
  }

  lemma {:induction false} PowerPositive(n: nat)
    ensures Power2(n) > 0
  {
    if n > 0 {
      PowerPositive(n - 1);
    }
  }

  lemma OnesFree(disk: Image, n: nat)
    requires n <= BLKBITSIZE && 2 < |disk| && disk[2] == Ones()
    ensures Marks(disk, n, 0)
  {
    forall b: nat | b < n ensures Free(disk, b) {
      OnesWord(BitWord(b));
      WordIsPower();
      AllBits(32, b % 32);
    }
    hide Free;
  }

  lemma OnesWord(i: nat)
    requires i < BLKWORDS
    ensures Word(Ones(), i) == WORD_LIMIT - 1
  {}

  lemma WordIsPower()
    ensures Power2(32) == WORD_LIMIT
  {
    assert Power2(8) == 0x100;
    assert Power2(16) == 0x1_0000;
    assert Power2(24) == 0x100_0000;
  }

  lemma MarksMore(disk: Image, n: nat, i: nat)
    requires Marks(disk, n, i) && i < n && BitBlock(i) < |disk|
    ensures Marks(Marked(disk, i, false), n, i + 1)
  {
    forall b: nat | b < n ensures Free(Marked(disk, i, false), b) == if b == i then false else Free(disk, b) {
      MarkedBit(disk, i, false, b);
    }
    hide Free, Marked;
  }

  // ---------------------------------------------------------------- the program

  /** The disk after opendisk, the fields of the super block apart. */
  function Opened(b: nat): Block { if b == 2 then Ones() else Mmu.ZeroPage() }

  class Formatter {
    const nblocks: nat
    const disk: array<Block>
    var diskpos: nat // in blocks
    var root: Node
    var ents: seq<Node>
    ghost var owner: map<nat, Slot>
    ghost var contents: seq<seq<Mmu.Byte>>

    function Nodes(): seq<Node>
      reads this
    {
      [root] + ents
    }

    /** Between files. */
    ghost predicate Valid()
      reads this, disk
    {
      && diskpos == Taken(contents)
      && disk.Length == nblocks <= 1024 && 3 <= diskpos < nblocks && |ents| <= MAX_DIR_ENTS
      && disk[2] == Ones() && Untouched(disk[..], diskpos)
      && Allotted(Nodes(), disk[..], diskpos, owner) && Fitted(Nodes(), disk[..]) && Filled(Nodes(), disk[..], contents)
      && root == EmptyNode(true) && (forall c :: c in contents ==> |c| < MAXFILESIZE)
    }

    /** opendisk and startdir; a disk of fewer than four blocks has no room and panics. */
    constructor (nblocks: nat)
      requires 3 < nblocks <= 1024
      ensures Valid() && this.nblocks == nblocks && contents == [] && fresh(disk)
    {
      this.nblocks := nblocks;
      disk := new Block[nblocks](Opened);
      diskpos := 3;
      root, ents := EmptyNode(true), [];
      owner, contents := map[], [];
    }

    /** alloc, for a number of whole blocks: false is the panic "out of disk blocks". */
    method Alloc(blocks: nat) returns (start: nat, ok: bool)
      modifies `diskpos
      ensures start == old(diskpos) && diskpos == start + blocks && (ok <==> diskpos < nblocks)
    {
      start := diskpos;
      diskpos := diskpos + blocks;
      ok := diskpos < nblocks;
    }

    /** readn into the blocks from start on. */
    method CopyIn(start: nat, bytes: seq<Mmu.Byte>)
      requires start + BlockCount(|bytes|) <= disk.Length
      modifies disk
      ensures forall k :: 0 <= k < BlockCount(|bytes|) ==> disk[start + k] == Chunk(bytes, k)
      ensures forall b :: 0 <= b < disk.Length && !(start <= b < start + BlockCount(|bytes|)) ==> disk[b] == old(disk[b])
    {
      var k := 0;
      while k < BlockCount(|bytes|)
        invariant 0 <= k <= BlockCount(|bytes|)
        invariant forall j :: 0 <= j < k ==> disk[start + j] == Chunk(bytes, j)
        invariant forall b :: 0 <= b < disk.Length && !(start <= b < start + k) ==> disk[b] == old(disk[b])
      {
        disk[start + k] := Chunk(bytes, k);
        k := k + 1;
      }
    }

    /** The loop of finishfile over the indirect block. */
    method ListBlocks(ind: nat, start: nat, n: nat)
      requires ind < disk.Length && disk[ind] == Mmu.ZeroPage() && NDIRECT <= n <= MAXFILEBLOCKS && start + n < WORD_LIMIT
      modifies disk
      ensures Listed(disk[ind], start, n)
      ensures forall b :: 0 <= b < disk.Length && b != ind ==> disk[b] == old(disk[b])
    {
      var i := NDIRECT;
      assert Listed(disk[ind], start, NDIRECT) by {
        forall j: nat | j < NINDIRECT ensures Word(disk[ind], j) == 0 { ZeroWord(j); }
      }
      while i < n
        invariant NDIRECT <= i <= n && Listed(disk[ind], start, i)
        invariant forall b :: 0 <= b < disk.Length && b != ind ==> disk[b] == old(disk[b])
      {
        ListedMore(disk[ind], start, i);
        disk[ind] := WithWord(disk[ind], i - NDIRECT, start + i);
        i := i + 1;
      }
    }

    /** finishfile: the block numbers of a file of len bytes whose n blocks start at `start`. */
    method FinishFile(len: nat, start: nat, dir: bool) returns (x: Node, ok: bool)
      requires BlockCount(len) <= MAXFILEBLOCKS && start + BlockCount(len) < 2000 && disk.Length == nblocks
      requires BlockCount(len) >= NDIRECT ==> diskpos == start + BlockCount(len) && Untouched(disk[..], diskpos)
      modifies `diskpos, disk
      ensures BlockCount(len) < NDIRECT ==> ok
      ensures ok ==> x == Laid(len, dir, start, BlockCount(len))
      ensures ok ==> diskpos == old(diskpos) + if BlockCount(len) >= NDIRECT then 1 else 0
      ensures BlockCount(len) >= NDIRECT ==> (ok <==> old(diskpos) + 1 < nblocks)
      ensures ok && BlockCount(len) >= NDIRECT ==>
                diskpos < nblocks && Listed(disk[start + BlockCount(len)], start, BlockCount(len))
      ensures forall b :: 0 <= b < disk.Length && !(BlockCount(len) >= NDIRECT && b == start + BlockCount(len)) ==> disk[b] == old(disk[b])
    {
      var n := BlockCount(len);
      var direct, indirect := seq(NDIRECT, _ => 0), 0;
      var i := 0;
      while i < n && i < NDIRECT
        invariant 0 <= i <= NDIRECT && i <= n && |direct| == NDIRECT
        invariant forall j :: 0 <= j < NDIRECT ==> direct[j] == if j < i then start + j else 0
      {
        direct := direct[i := start + i];
        i := i + 1;
      }
      ok := true;
      if i == NDIRECT {
        indirect, ok := Alloc(1);
        if !ok {
          return EmptyNode(dir), false;
        }
        ListBlocks(indirect, start, n);
      }
      x := Node(len, dir, direct, indirect);
    }

    /** writefile: false is a panic (the file is too large, the directory or the disk is full). */
    method WriteFile(bytes: seq<Mmu.Byte>) returns (ok: bool)
      requires Valid()
      modifies `diskpos, `ents, `owner, `contents, disk
      ensures ok ==> Valid() && contents == old(contents) + [bytes]
      ensures ok <==> |bytes| < MAXFILESIZE && |old(contents)| < MAX_DIR_ENTS && Taken(old(contents) + [bytes]) < nblocks
    {
      hide Allotted, Filled, Fitted, NodePtr, Laid, Listed, Chunk, NodeOk, Taken;
      ghost var disk0, nodes, pos := disk[..], Nodes(), diskpos;
      FilledLength(nodes, disk0, contents);
      TakenMore(contents, bytes);
      if |bytes| >= MAXFILESIZE || |ents| + 1 > MAX_DIR_ENTS {
        return false;
      }
      var start;
      start, ok := Alloc(BlockCount(|bytes|));
      if !ok {
        return;
      }
      CopyIn(start, bytes);
      var x;
      x, ok := FinishFile(|bytes|, start, false);
      if !ok {
        return;
      }
      FileAdded(nodes, disk0, disk[..], pos, owner, contents, bytes);
      ents := ents + [x];
      assert Nodes() == nodes + [x];
      owner, contents := Handed(owner, pos, |nodes|, BlockCount(|bytes|)), contents + [bytes];
    }

    /** The directory entries, as the blocks from start on. */
    method WriteDir(start: nat)
      requires NodesOk(ents) && start + BlockCount(256 * |ents|) <= disk.Length
      modifies disk
      ensures forall k :: 0 <= k < BlockCount(256 * |ents|) ==> disk[start + k] == Encoded(DirWords(ents, k))
      ensures forall b :: 0 <= b < disk.Length && !(start <= b < start + BlockCount(256 * |ents|)) ==> disk[b] == old(disk[b])
    {
      hide Encoded, DirWords, BlockCount;
      var j, n := 0, BlockCount(256 * |ents|);
      while j < n
        invariant 0 <= j <= n
        invariant forall k :: 0 <= k < j ==> disk[start + k] == Encoded(DirWords(ents, k))
        invariant forall b :: 0 <= b < disk.Length && !(start <= b < start + j) ==> disk[b] == old(disk[b])
      {
        disk[start + j] := Encoded(DirWords(ents, j));
        j := j + 1;
      }
    }

    /** finishdir: the entries become the data of the root directory. An empty directory is given one block
        that has not been allocated. */
    method FinishDir() returns (ok: bool, dirstart: nat)
      requires Valid()
      modifies `diskpos, `root, disk
      ensures ok <==> old(diskpos) + BlockCount(256 * |ents|) < nblocks
      ensures ok ==>
                && disk.Length == nblocks && dirstart == old(diskpos) && |ents| <= MAX_DIR_ENTS
                && dirstart <= diskpos == dirstart + BlockCount(256 * |ents|) < nblocks
                && root == Laid(DirSize(|ents|), true, dirstart, BlockCount(DirSize(|ents|)))
                && Written(nblocks, disk[..], Nodes(), dirstart) && disk[2] == Ones()
                && forall b :: 3 <= b < nblocks && !(dirstart <= b < diskpos) ==> disk[b] == old(disk[b])
    {
      hide Allotted, Filled, Fitted, NodePtr, Encoded, FileWord, NodeOk, Taken;
      AllottedNodes(Nodes(), disk[..], diskpos, owner);
      TailOk(root, ents);
      DirFits(|ents|);
      var size := 256 * |ents|;
      var start;
      start, ok := Alloc(BlockCount(size));
      dirstart := start;
      if !ok {
        return;
      }
      WriteDir(start);
      root, ok := FinishFile(DirSize(|ents|), start, true);
      // super->s_root is a part of block 1
      disk[1] := Encoded(SuperWords(nblocks, root));
      NodesOkCons(root, ents);
      assert Nodes()[0] == root && Nodes()[1..] == ents;
    }

    /** finishdisk: the blocks handed out are marked in use. */
    method FinishDisk()
      requires disk.Length == nblocks <= 1024 && diskpos < nblocks && 2 < nblocks && disk[2] == Ones()
      modifies disk
      ensures Marks(disk[..], nblocks, diskpos)
      ensures forall b :: 0 <= b < nblocks && b != 2 ==> disk[b] == old(disk[b])
    {
      hide Marks, Marked, Free, Word, WithWord, Bit;
      OnesFree(disk[..], nblocks);
      var i := 0;
      while i < diskpos
        invariant 0 <= i <= diskpos && Marks(disk[..], nblocks, i)
        invariant forall b :: 0 <= b < nblocks && b != 2 ==> disk[b] == old(disk[b])
      {
        ghost var image := disk[..];
        MarksMore(image, nblocks, i);
        var w := Word(disk[2], BitWord(i));
        WordBitsFit(w, i % 32);
        disk[2] := WithWord(disk[2], BitWord(i), ClearBit(w, i % 32));
        MarkedIs(image, i, disk[2]);
        assert disk[..] == image[2 := disk[2]];
        i := i + 1;
      }
    }

    /** finishdir and finishdisk. */
    method Finish() returns (ok: bool, dirstart: nat)
      requires Valid()
      modifies `diskpos, `root, disk
      ensures ok <==> Taken(contents) + BlockCount(256 * |contents|) < nblocks
      ensures ok ==> disk.Length == nblocks && dirstart == old(diskpos)
      ensures ok ==> Finished(nblocks, old(disk[..]), disk[..], old(Nodes()), root, dirstart, owner, contents)
      ensures ok ==> Nodes() == old(Nodes())[0 := root]
    {
      hide Allotted, Filled, Fitted, NodePtr, Laid, NodeOk, Written, Marks, Untouched, Taken;
      ghost var disk0, nodes := disk[..], Nodes();
      FilledLength(nodes, disk0, contents);
      ok, dirstart := FinishDir();
      if !ok {
        return;
      }
      ghost var image := disk[..];
      assert Nodes() == nodes[0 := root];
      FinishDisk();
      WrittenKept(nblocks, image, disk[..], Nodes(), dirstart);
    }
  }

  lemma WrittenKept(n: nat, image: Image, image': Image, nodes: seq<Node>, dirstart: nat)
    requires Written(n, image, nodes, dirstart) && 3 <= dirstart && |image'| == |image|
    requires forall b :: 0 <= b < n && b != 2 && b < |image| ==> image'[b] == image[b]
    ensures Written(n, image', nodes, dirstart)
  {
    hide Encoded;
  }

  /** Files 1, 2, .. of the volume are regular files with the given contents, and zeros up to the end of their last block. */
  ghost predicate Holds(v: Volume, image: Image, files: seq<seq<Mmu.Byte>>) {
    && |v.files| == |files| + 1
    && (forall f: nat :: 0 < f < |v.files| ==> Regular(v, f) && Size(v, image, f) == |files[f - 1]|)
    && (forall f: nat, pos: nat :: 0 < f < |v.files| && pos < |files[f - 1]| ==>
          FileByte(v, image, f, pos) == Some(files[f - 1][pos]))
    && forall f: nat, pos: nat :: 0 < f < |v.files| && |files[f - 1]| <= pos < (|files[f - 1]| + 4095) / 4096 * 4096 ==>
         FileByte(v, image, f, pos) == Some(0)
  }

  /** The whole program: None is a panic. With at least one file the image is a sound volume whose files read
      back as given; with none it is not, whatever one takes for the owners of its blocks. */
  method Format(nblocks: nat, files: seq<seq<Mmu.Byte>>) returns (r: Option<Image>, v: Volume, ghost owner: map<nat, Slot>)
    requires 2 <= nblocks <= 1024
    ensures r.Some? <==> Fits(nblocks, files)
    ensures r.Some? <==> |files| <= 128 && (forall i :: 0 <= i < |files| ==> |files[i]| < 1034 * 4096) && HandedOut(files) < nblocks
    ensures r.Some? ==> |v.files| == |files| + 1 && v.n == nblocks && |r.value| == nblocks > 2
    ensures r.Some? ==> At(r.value, 1, 0) == 0x4A0530AE && At(r.value, 1, 1) == nblocks && Typed(v, r.value)
    ensures r.Some? ==> v.files[0] == Inode(1, 2, true) && forall f :: 0 < f < |v.files| ==> !v.files[f].dir
    ensures r.Some? ==> forall b: nat :: b < nblocks ==> (Free(r.value, b) <==> HandedOut(files) <= b)
    ensures r.Some? && |files| > 0 ==>
              && Placed(v) && Owned(v, r.value, owner, {}) && Sized(v, r.value) && SmallSizes(v, r.value)
              && Holds(v, r.value, files)
    ensures r.Some? && |files| == 0 ==> forall owner' :: !Owned(v, r.value, owner', {})
  {
    hide Allotted, Filled, Fitted, NodePtr, Laid, Chunk, NodeOk, Written, Marks, Holds, SmallSizes, Taken;
    v, owner := Volume(nblocks, []), map[];
    TakenGrows(files, 0);
    if nblocks <= 3 {
      return None, v, owner;
    }
    var m := new Formatter(nblocks);
    var i := 0;
    while i < |files|
      invariant 0 <= i <= |files| && m.Valid() && m.nblocks == nblocks && m.contents == files[..i] && fresh(m) && fresh(m.disk)
      invariant forall j :: 0 <= j < i ==> |files[j]| < MAXFILESIZE
    {
      TakenGrows(files, i + 1);
      assert files[..i + 1] == files[..i] + [files[i]];
      var ok := m.WriteFile(files[i]);
      if !ok {
        return None, v, owner;
      }
      i := i + 1;
    }
    assert files[..i] == files;
    ghost var disk0, nodes, pos := m.disk[..], m.Nodes(), m.diskpos;
    FilledLength(nodes, disk0, m.contents);
    var ok;
    var dirstart;
    ok, dirstart := m.Finish();
    if !ok {
      return None, v, owner;
    }
    v, r := Inodes(nblocks, dirstart, |files|), Some(m.disk[..]);
    InodeOf(nblocks, pos, |files|, 0);
    FinishedHead(nblocks, disk0, r.value, nodes, m.root, pos, m.owner, files);
    hide Finished, Inodes;
    if |files| > 0 {
      owner := Handed(m.owner, pos, 0, BlockCount(DirSize(|files|)));
      FinishedOwned(nblocks, disk0, r.value, nodes, m.root, pos, m.owner, files);
      FinishedBytes(nblocks, disk0, r.value, nodes, m.root, pos, m.owner, files);
    } else {
      forall owner' ensures !Owned(v, r.value, owner', {}) {
        FinishedEmpty(nblocks, disk0, r.value, nodes, m.root, pos, m.owner, files, owner');
      }
    }
  }

  /** The end of the program, seen from before finishdir. */
  ghost predicate Finished(n: nat, disk: Image, image: Image, nodes: seq<Node>, root: Node, pos: nat, owner: map<nat, Slot>,
                           contents: seq<seq<Mmu.Byte>>) {
    var count := |contents|;
    && Allotted(nodes, disk, pos, owner) && Fitted(nodes, disk) && Filled(nodes, disk, contents)
    && nodes[0] == EmptyNode(true) && count <= MAX_DIR_ENTS && (forall c :: c in contents ==> |c| < MAXFILESIZE)
    && 3 <= pos && pos + BlockCount(256 * count) < n <= 1024
    && root == Laid(DirSize(count), true, pos, BlockCount(DirSize(count)))
    && Written(n, image, nodes[0 := root], pos) && Marks(image, n, pos + BlockCount(256 * count))
    && |disk| == |image| && forall b :: 3 <= b < pos && b < |disk| ==> image[b] == disk[b]
  }

  lemma RootBare(nodes: seq<Node>, disk: Image)
    requires NodesOk(nodes) && 0 < |nodes| && nodes[0] == EmptyNode(true)
    ensures Bare(nodes, disk, 0)
  {}

  lemma RootLaidOut(nodes: seq<Node>, root: Node, pos: nat, count: nat)
    requires NodesOk(nodes) && |nodes| == count + 1 && 0 < count <= MAX_DIR_ENTS && pos < 1024
    requires root == Laid(DirSize(count), true, pos, BlockCount(DirSize(count)))
    ensures RootLaid(nodes[0 := root], pos)
  {
    DirFits(count);
  }

  lemma FinishedOwned(n: nat, disk: Image, image: Image, nodes: seq<Node>, root: Node, pos: nat, owner: map<nat, Slot>,
                      contents: seq<seq<Mmu.Byte>>)
    requires |nodes| > 0 && Finished(n, disk, image, nodes, root, pos, owner, contents) && |contents| > 0
    ensures var v := Inodes(n, pos, |contents|);
            && Placed(v) && Owned(v, image, Handed(owner, pos, 0, BlockCount(DirSize(|contents|))), {}) && Sized(v, image)
  {
    var count := |contents|;
    hide Allotted, Fitted, Written, Marks, Bare, Laid, RootLaid, Handed, Inodes, Placed, Owned, Sized, Filled;
    var nd, nodes' := BlockCount(DirSize(count)), nodes[0 := root];
    FilledLength(nodes, disk, contents);
    AllottedNodes(nodes, disk, pos, owner);
    DirFits(count);
    RootBare(nodes, disk);
    RootLaidOut(nodes, root, pos, count);
    FillNode(nodes, disk, image, pos, owner, 0, DirSize(count), true, nd);
    FilledFits(nodes, disk, image, pos, owner, 0, DirSize(count), true);
    ImageOwned(n, image, nodes', pos, pos + nd, Handed(owner, pos, 0, nd));
  }

  /** Filling in the root directory leaves the other files alone. */
  lemma RootKeepsFilled(nodes: seq<Node>, disk: Image, image: Image, root: Node, pos: nat, owner: map<nat, Slot>,
                        contents: seq<seq<Mmu.Byte>>)
    requires Allotted(nodes, disk, pos, owner) && Filled(nodes, disk, contents) && NodeOk(root)
    requires |disk| == |image| && forall b :: 3 <= b < pos && b < |disk| ==> image[b] == disk[b]
    ensures Filled(nodes[0 := root], image, contents)
  {
    forall f: nat, k: nat | 0 < f < |nodes| && k < BlockCount(|contents[f - 1]|) && k < MAXFILEBLOCKS
      ensures var b := NodePtr(nodes[0 := root], image, DataSlot(f, k)); 0 < b < |image| && image[b] == Chunk(contents[f - 1], k)
    {
      OldPtr(nodes, disk, image, pos, owner, 0, root, DataSlot(f, k));
      FilledAt(nodes, disk, contents, f, k);
    }
    hide NodePtr, Chunk;
  }

  lemma FinishedBytes(n: nat, disk: Image, image: Image, nodes: seq<Node>, root: Node, pos: nat, owner: map<nat, Slot>,
                      contents: seq<seq<Mmu.Byte>>)
    requires |nodes| > 0 && Finished(n, disk, image, nodes, root, pos, owner, contents)
    ensures Holds(Inodes(n, pos, |contents|), image, contents) && SmallSizes(Inodes(n, pos, |contents|), image)
  {
    hide Finished, Holds, SmallSizes, Inodes;
    FinishedHolds(n, disk, image, nodes, root, pos, owner, contents);
    FinishedSmall(n, disk, image, nodes, root, pos, owner, contents);
  }

  lemma FinishedSmall(n: nat, disk: Image, image: Image, nodes: seq<Node>, root: Node, pos: nat, owner: map<nat, Slot>,
                      contents: seq<seq<Mmu.Byte>>)
    requires |nodes| > 0 && Finished(n, disk, image, nodes, root, pos, owner, contents)
    requires Holds(Inodes(n, pos, |contents|), image, contents)
    ensures SmallSizes(Inodes(n, pos, |contents|), image)
  {
    var v, nodes' := Inodes(n, pos, |contents|), nodes[0 := root];
    FilledLength(nodes, disk, contents);
    InodeOf(n, pos, |contents|, 0);
    DirFits(|contents|);
    hide Allotted, Fitted, Filled, Written, Marks, Laid, Inodes, FileByte, Size, NodePtr, Chunk, DirSize;
    ImagePtr(n, image, nodes', pos, Indirect(0));
    assert nodes'[0].size == DirSize(|contents|) by { LaidSize(root, |contents|, pos); }
    DirSmall(|contents|);
  }

  lemma FinishedHolds(n: nat, disk: Image, image: Image, nodes: seq<Node>, root: Node, pos: nat, owner: map<nat, Slot>,
                      contents: seq<seq<Mmu.Byte>>)
    requires |nodes| > 0 && Finished(n, disk, image, nodes, root, pos, owner, contents)
    ensures Holds(Inodes(n, pos, |contents|), image, contents)
  {
    var v, nodes' := Inodes(n, pos, |contents|), nodes[0 := root];
    FilledLength(nodes, disk, contents);
    InodeOf(n, pos, |contents|, 0);
    RootKeepsFilled(nodes, disk, image, root, pos, owner, contents);
    DirFits(|contents|);
    hide Allotted, Fitted, Written, Marks, Laid, Inodes, FileByte, Size, NodePtr, Chunk, DirSize;
    forall f: nat | 0 < f < |v.files| ensures Regular(v, f) && Size(v, image, f) == |contents[f - 1]| {
      InodeOf(n, pos, |contents|, f);
      ImagePtr(n, image, nodes', pos, Indirect(f));
    }
    forall f: nat, p: nat | 0 < f < |v.files| && p < |contents[f - 1]|
      ensures FileByte(v, image, f, p) == Some(contents[f - 1][p])
    {
      ImageBytes(n, image, nodes', pos, contents, f, p);
    }
    forall f: nat, p: nat | 0 < f < |v.files| && |contents[f - 1]| <= p < (|contents[f - 1]| + 4095) / 4096 * 4096
      ensures FileByte(v, image, f, p) == Some(0)
    {
      InLastBlock(|contents[f - 1]|, p);
      ImageBytes(n, image, nodes', pos, contents, f, p);
    }
  }

  lemma FinishedHead(n: nat, disk: Image, image: Image, nodes: seq<Node>, root: Node, pos: nat, owner: map<nat, Slot>,
                     contents: seq<seq<Mmu.Byte>>)
    requires |nodes| > 0 && Finished(n, disk, image, nodes, root, pos, owner, contents)
    ensures |image| == n > 2 && At(image, 1, 0) == 0x4A0530AE && At(image, 1, 1) == n
    ensures var v := Inodes(n, pos, |contents|);
            && Typed(v, image) && |v.files| == |contents| + 1 && v.files[0] == Inode(1, 2, true)
            && forall f :: 0 < f < |v.files| ==> !v.files[f].dir
    ensures forall b: nat :: b < n ==> (Free(image, b) <==> pos + BlockCount(256 * |contents|) <= b)
  {
    FilledLength(nodes, disk, contents);
    FilledTypes(nodes, disk, contents);
    DirFits(|contents|);
    hide Allotted, Fitted, Filled, At, Typed, DirSize, Free;
    SuperHead(n, image, nodes[0 := root], pos);
    ImageTyped(n, image, nodes[0 := root], pos);
  }

  lemma FilledTypes(nodes: seq<Node>, disk: Image, contents: seq<seq<Mmu.Byte>>)
    requires Filled(nodes, disk, contents)
    ensures forall f: nat :: 0 < f < |nodes| ==> !nodes[f].dir
  {}

  lemma InLastBlock(size: nat, p: nat)
    requires p < (size + 4095) / 4096 * 4096
    ensures p / BLKSIZE < BlockCount(size)
  {}

  lemma LaidSize(root: Node, count: nat, pos: nat)
    requires count <= MAX_DIR_ENTS && pos < 1024 && root == Laid(DirSize(count), true, pos, BlockCount(DirSize(count)))
    ensures root.size == DirSize(count)
  {}

  lemma DirSmall(count: nat)
    requires count <= MAX_DIR_ENTS
    ensures DirSize(count) <= MAXSIZE
  {}

  lemma FinishedEmpty(n: nat, disk: Image, image: Image, nodes: seq<Node>, root: Node, pos: nat, owner: map<nat, Slot>,
                      contents: seq<seq<Mmu.Byte>>, owner': map<nat, Slot>)
    requires |nodes| > 0 && Finished(n, disk, image, nodes, root, pos, owner, contents) && |contents| == 0
    ensures !Owned(Inodes(n, pos, |contents|), image, owner', {})
  {
    FilledLength(nodes, disk, contents);
    DirFits(0);
    assert pos + BlockCount(256 * 0) == pos;
    hide Written, Marks, Allotted, Fitted, Filled, Inodes;
    ImageUnowned(n, image, nodes[0 := root], pos, pos, owner');
  }

  lemma MarkedIs(image: Image, i: nat, x: Block)
    requires i < 1024 && 2 < |image| && var w := Word(image[2], BitWord(i)); ClearBit(w, i % 32) < WORD_LIMIT
    requires x == WithWord(image[2], BitWord(i), ClearBit(Word(image[2], BitWord(i)), i % 32))
    ensures BitBlock(i) < |image| && Marked(image, i, false) == image[2 := x]
  {
    hide Word, WithWord, ClearBit, SetBit;
  }

  lemma FilledLength(nodes: seq<Node>, disk: Image, contents: seq<seq<Mmu.Byte>>)
    requires Filled(nodes, disk, contents)
    ensures |nodes| == |contents| + 1
  {}

  lemma TailOk(x: Node, xs: seq<Node>)
    requires NodesOk([x] + xs)
    ensures NodesOk(xs) && NodeOk(x)
  {
    assert NodeOk(([x] + xs)[0]);
    forall i | 0 <= i < |xs| ensures NodeOk(xs[i]) {
      assert xs[i] == ([x] + xs)[i + 1];
    }
  }

  lemma NodesOkCons(x: Node, xs: seq<Node>)
    requires NodeOk(x) && NodesOk(xs)
    ensures NodesOk([x] + xs)
  {}

  lemma AllottedNodes(nodes: seq<Node>, disk: Image, pos: nat, owner: map<nat, Slot>)
    requires Allotted(nodes, disk, pos, owner)
    ensures NodesOk(nodes)
  {}

  /** The size finishdir gives the root directory: ROUNDUP on a signed 0 is BLKSIZE. */
  function DirSize(count: nat): nat {
    if count == 0 then BLKSIZE else BLKSIZE * BlockCount(256 * count)
  }

  lemma DirFits(count: nat)
    requires count <= MAX_DIR_ENTS
    ensures BlockCount(DirSize(count)) == (if count == 0 then 1 else BlockCount(256 * count)) < NDIRECT
  {}

  /** What writefile has done to the image under construction. */
  lemma FileAdded(nodes: seq<Node>, disk: Image, disk': Image, pos: nat, owner: map<nat, Slot>,
                  contents: seq<seq<Mmu.Byte>>, bytes: seq<Mmu.Byte>)
    requires Allotted(nodes, disk, pos, owner) && Fitted(nodes, disk) && Filled(nodes, disk, contents)
    requires 3 <= pos && |bytes| < MAXFILESIZE && pos + BlockCount(|bytes|) <= |disk| <= 1024 && |disk'| == |disk|
    requires forall b :: 3 <= b < pos && b < |disk| ==> disk'[b] == disk[b]
    requires forall k :: 0 <= k < BlockCount(|bytes|) ==> disk'[pos + k] == Chunk(bytes, k)
    requires BlockCount(|bytes|) >= NDIRECT ==>
               pos + BlockCount(|bytes|) < |disk| && Listed(disk'[pos + BlockCount(|bytes|)], pos, BlockCount(|bytes|))
    ensures var nodes' := nodes + [Laid(|bytes|, false, pos, BlockCount(|bytes|))];
            && Allotted(nodes', disk', pos + Used(BlockCount(|bytes|)), Handed(owner, pos, |nodes|, BlockCount(|bytes|)))
            && Fitted(nodes', disk') && Filled(nodes', disk', contents + [bytes])
  {
    var n, g, x := BlockCount(|bytes|), |nodes|, Laid(|bytes|, false, pos, BlockCount(|bytes|));
    var bare := nodes + [EmptyNode(false)];
    assert bare[g := x] == nodes + [x];
    BareAppended(nodes, disk, pos, owner, EmptyNode(false));
    BareFits(nodes, disk, bare);
    hide Allotted, Filled, Fitted, NodePtr, Laid, Listed, Chunk, Bare;
    FillNode(bare, disk, disk', pos, owner, g, |bytes|, false, n);
    FilledFits(bare, disk, disk', pos, owner, g, |bytes|, false);
    FilledMore(nodes, disk, disk', pos, owner, contents, bytes);
  }

  lemma BareFits(nodes: seq<Node>, disk: Image, bare: seq<Node>)
    requires Fitted(nodes, disk) && bare == nodes + [EmptyNode(false)]
    ensures Fitted(bare, disk)
  {
    forall s | InNodes(bare, s)
      ensures NodesOk(bare) && NodePtr(bare, disk, s) == if s.f < |nodes| then NodePtr(nodes, disk, s) else 0 {}
    hide NodePtr, Within;
  }

  lemma ListedMore(b: Block, start: nat, i: nat)
    requires NDIRECT <= i < MAXFILEBLOCKS && start + i < WORD_LIMIT && Listed(b, start, i)
    ensures Listed(WithWord(b, i - NDIRECT, start + i), start, i + 1)
  {
    var b' := WithWord(b, i - NDIRECT, start + i);
    forall j: nat | j < NINDIRECT ensures Word(b', j) == if NDIRECT + j < i + 1 then start + NDIRECT + j else 0 {
      WordStored(b, i - NDIRECT, start + i, j);
    }
  }
}
