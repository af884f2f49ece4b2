/** Reading a file (fs/ext2.c): block lookup through the inode's pointers, and a descriptor that reads on from a
    position. */
module Ext2File {
  import opened Prelude
  import opened Arithmetic

  newtype byte = x: int | 0 <= x < 256

  const SECTOR: nat := 512
  const DIRECT: nat := 12

  /** The inode's block pointers and size; 0 is "no block". */
  datatype Inode = Inode(dbp: seq<nat>, sibp: nat, dibp: nat, size: nat)

  /** A disk with the block size of its superblock. */
  datatype Volume = Volume(disk: seq<byte>, bs: nat)

  /** Block sizes are 1024 << block_logsz; LBAs are computed in 32 bits, so the disk must be addressable in them. */
  ghost predicate VolumeOk(v: Volume) {
    v.bs >= 1024 && v.bs % SECTOR == 0 && |v.disk| <= SECTOR * 0x1_0000_0000
  }

  function PerBlock(v: Volume): nat { v.bs / 4 }

  predicate InDisk(v: Volume, b: nat) { (b + 1) * v.bs <= |v.disk| }

  /** What drive->read returns for `n` sectors from `lba`. */
  function Sectors(v: Volume, lba: nat, n: nat): seq<byte>
    requires SECTOR * (lba + n) <= |v.disk|
  {
    v.disk[SECTOR * lba..SECTOR * (lba + n)]
  }

  function Block(v: Volume, b: nat): (s: seq<byte>)
    requires InDisk(v, b)
    ensures |s| == v.bs
  {
    assert (b + 1) * v.bs == b * v.bs + v.bs;
    v.disk[b * v.bs..b * v.bs + v.bs]
  }

  /** Element `i` of a block seen as little-endian 32-bit words. */
  function Le32(s: seq<byte>, i: nat): nat
    requires 4 * i + 4 <= |s|
  {
    s[4 * i] as nat + 0x100 * s[4 * i + 1] as nat + 0x1_0000 * s[4 * i + 2] as nat + 0x100_0000 * s[4 * i + 3] as nat
  }

  /** The four bytes of a 32-bit word as ext2 stores them, lowest first. */
  function Bytes32(w: nat): (s: seq<byte>)
    requires w < 0x1_0000_0000
    ensures |s| == 4
  {
    [(w % 0x100) as byte, (w / 0x100 % 0x100) as byte, (w / 0x1_0000 % 0x100) as byte, (w / 0x100_0000) as byte]
  }

  /** A word is read exactly where its bytes are. */
  lemma Le32Exactly(s: seq<byte>, i: nat, w: nat)
    requires 4 * i + 4 <= |s| && w < 0x1_0000_0000
    ensures Le32(s, i) == w <==> s[4 * i..4 * i + 4] == Bytes32(w)
  {
    var t := s[4 * i..4 * i + 4];
    assert t == [s[4 * i], s[4 * i + 1], s[4 * i + 2], s[4 * i + 3]];
    Digits(t[0] as nat, t[1] as nat, t[2] as nat, t[3] as nat);
    var q1, q2, q3 := w / 0x100, w / 0x1_0000, w / 0x100_0000;
    assert q2 == q1 / 0x100 && q3 == q2 / 0x100;
  }

  /** The digits of a word are what it was put together from. */
  lemma Digits(a: nat, b: nat, c: nat, d: nat)
    requires a < 0x100 && b < 0x100 && c < 0x100 && d < 0x100
    ensures var w := a + 0x100 * b + 0x1_0000 * c + 0x100_0000 * d;
      w % 0x100 == a && w / 0x100 % 0x100 == b && w / 0x1_0000 % 0x100 == c && w / 0x100_0000 == d
  {
    var w := a + 0x100 * b + 0x1_0000 * c + 0x100_0000 * d;
    DivUnique(w, 0x100, b + 0x100 * c + 0x1_0000 * d, a);
    DivUnique(b + 0x100 * c + 0x1_0000 * d, 0x100, c + 0x100 * d, b);
    DivUnique(w, 0x1_0000, c + 0x100 * d, a + 0x100 * b);
    DivUnique(c + 0x100 * d, 0x100, d, c);
    DivUnique(w, 0x100_0000, d, a + 0x100 * b + 0x1_0000 * c);
  }

  lemma Le32Example()
    ensures Le32([0, 1, 0, 0], 0) == 256 && Bytes32(256) == [0, 1, 0, 0]
  {}

  // ---- the flat file ----

  /** The pointers stored in block `b`; a missing block stands for missing pointers. */
  function Table(v: Volume, b: nat): (t: seq<nat>)
    requires b == 0 || InDisk(v, b)
    ensures |t| == PerBlock(v)
  {
    seq(PerBlock(v), (i: nat) requires i < PerBlock(v) => if b == 0 then 0 else Le32(Block(v, b), i))
  }

  ghost predicate AllInDisk(v: Volume, t: seq<nat>) {
    forall i :: 0 <= i < |t| ==> t[i] == 0 || InDisk(v, t[i])
  }

  /** The tables of a list of blocks, one after the other. */
  function Flatten(v: Volume, t: seq<nat>): (s: seq<nat>)
    requires AllInDisk(v, t)
  {
    if t == [] then [] else Table(v, t[0]) + Flatten(v, t[1..])
  }

  /** Every block pointer a file can have up to the double-indirect range, in file order. */
  function Pointers(v: Volume, f: Inode): seq<nat>
    requires MetaOk(v, f)
  {
    f.dbp + Table(v, f.sibp) + Flatten(v, Table(v, f.dibp))
  }

  /** The blocks that hold pointers are on the disk. */
  ghost predicate MetaOk(v: Volume, f: Inode) {
    && |f.dbp| == DIRECT && (f.sibp == 0 || InDisk(v, f.sibp)) && (f.dibp == 0 || InDisk(v, f.dibp))
    && AllInDisk(v, Table(v, f.dibp))
  }

  function Limit(v: Volume): nat { DIRECT + PerBlock(v) + PerBlock(v) * PerBlock(v) }

  lemma {:induction false} FlattenAt(v: Volume, t: seq<nat>, k: nat, p: nat)
    requires AllInDisk(v, t) && p == PerBlock(v) && p > 0 && Quot(k, p) < |t|
    ensures k < |Flatten(v, t)| && Flatten(v, t)[k] == Table(v, t[Quot(k, p)])[Rem(k, p)]
    decreases |t|
  {
    if k >= p {
      FlattenAt(v, t[1..], k - p, p);
    }
  }

  lemma {:induction false} FlattenLength(v: Volume, t: seq<nat>)
    requires AllInDisk(v, t)
    ensures |Flatten(v, t)| == |t| * PerBlock(v)
  {
    if t != [] {
      FlattenLength(v, t[1..]);
      assert |t| * PerBlock(v) == PerBlock(v) + |t[1..]| * PerBlock(v) by { assert |t| == |t[1..]| + 1; }
    }
  }

  lemma PointerCount(v: Volume, f: Inode)
    requires MetaOk(v, f)
    ensures |Pointers(v, f)| == Limit(v)
  {
    FlattenLength(v, Table(v, f.dibp));
  }

  /** Pointer (q, r) of the double-indirect range: table q, place r. */
  ghost function Doubly(v: Volume, f: Inode, q: nat, r: nat): nat
    requires MetaOk(v, f) && q < PerBlock(v) && r < PerBlock(v)
  {
    Table(v, Table(v, f.dibp)[q])[r]
  }

  /** Where each pointer of the flat list comes from. */
  lemma PointerAt(v: Volume, f: Inode, b: nat, p: nat)
    requires MetaOk(v, f) && p == PerBlock(v) && p > 0 && b < |Pointers(v, f)|
    ensures b < DIRECT ==> Pointers(v, f)[b] == f.dbp[b]
    ensures DIRECT <= b < DIRECT + p ==> Pointers(v, f)[b] == Table(v, f.sibp)[b - DIRECT]
    ensures b >= DIRECT + p ==>
      Quot(b - DIRECT - p, p) < p && Pointers(v, f)[b] == Doubly(v, f, Quot(b - DIRECT - p, p), Rem(b - DIRECT - p, p))
  {
    if b >= DIRECT + p {
      PointerCount(v, f);
      QuotBound(b - DIRECT - p, p, p);
      FlattenAt(v, Table(v, f.dibp), b - DIRECT - p, p);
    }
  }

  // ---- content ----

  /** Pointer blocks and data blocks are on the disk, and the size stays below the double-indirect range and 32 bits. */
  ghost predicate FileOk(v: Volume, f: Inode) {
    && VolumeOk(v) && MetaOk(v, f) && AllInDisk(v, Pointers(v, f))
    && Quot(f.size, v.bs) < |Pointers(v, f)| && f.size < 0x1_0000_0000
  }

  /** Pointer `b` of the file. */
  ghost function Ptr(v: Volume, f: Inode, b: nat): (p: nat)
    requires FileOk(v, f) && b < |Pointers(v, f)|
    ensures p == 0 || InDisk(v, p)
  {
    Pointers(v, f)[b]
  }

  /** Byte `j` of the file lies in a block that exists. */
  ghost predicate Backed(v: Volume, f: Inode, j: nat)
    requires FileOk(v, f)
  {
    Quot(j, v.bs) < |Pointers(v, f)| && Ptr(v, f, Quot(j, v.bs)) != 0
  }

  ghost predicate NoHoles(v: Volume, f: Inode)
    requires FileOk(v, f)
  {
    forall j: nat :: j < f.size ==> Backed(v, f, j)
  }

  /** Byte `j` of the file. */
  ghost function ByteAt(v: Volume, f: Inode, j: nat): byte
    requires FileOk(v, f) && Backed(v, f, j)
  {
    Block(v, Ptr(v, f, Quot(j, v.bs)))[Rem(j, v.bs)]
  }

  /** The flat content of the file. */
  ghost function Content(v: Volume, f: Inode): (s: seq<byte>)
    requires FileOk(v, f) && NoHoles(v, f)
    ensures |s| == f.size
  {
    seq(f.size, (j: nat) requires j < f.size => ByteAt(v, f, j))
  }

  /** The bytes of the word `w` are on the disk at `at`. */
  predicate Stored(v: Volume, at: nat, w: nat) {
    w < 0x1_0000_0000 && at + 4 <= |v.disk| && v.disk[at..at + 4] == Bytes32(w)
  }

  lemma BlockByte(v: Volume, b: nat, i: nat)
    requires InDisk(v, b) && i < v.bs
    ensures b * v.bs + i < |v.disk| && Block(v, b)[i] == v.disk[b * v.bs + i]
  {
    assert (b + 1) * v.bs == b * v.bs + v.bs;
  }

  /** What is stored at an entry of a pointer block is the pointer. */
  lemma TableWord(v: Volume, b: nat, i: nat, w: nat)
    requires b != 0 && InDisk(v, b) && i < PerBlock(v) && Stored(v, b * v.bs + 4 * i, w)
    ensures Table(v, b)[i] == w
  {
    var s := Block(v, b);
    forall k | 0 <= k < 4 ensures s[4 * i..4 * i + 4][k] == Bytes32(w)[k] {
      BlockByte(v, b, 4 * i + k);
      assert v.disk[b * v.bs + 4 * i..b * v.bs + 4 * i + 4][k] == v.disk[b * v.bs + 4 * i + k];
    }
    assert s[4 * i..4 * i + 4] == Bytes32(w);
    Le32Exactly(s, i, w);
  }

  /** Byte `i` of block `b` of a file on the disk, if `w` is that block's pointer. */
  lemma ContentOf(v: Volume, f: Inode, b: nat, i: nat, j: nat, w: nat, at: nat)
    requires FileOk(v, f) && NoHoles(v, f) && j == b * v.bs + i && i < v.bs && j < f.size
    requires b < |Pointers(v, f)| && Pointers(v, f)[b] == w
    requires at == w * v.bs + i
    ensures at < |v.disk| && Content(v, f)[j] == v.disk[at]
  {
    BlockBacked(v, f, b, i, j);
    ChunkAt(v, f, b, j, i);
    BlockByte(v, w, i);
  }

  lemma BlockBacked(v: Volume, f: Inode, b: nat, i: nat, j: nat)
    requires FileOk(v, f) && NoHoles(v, f) && j == b * v.bs + i && i < v.bs && j < f.size
    ensures b < |Pointers(v, f)| && Ptr(v, f, b) != 0
  {
    QuotOf(b, v.bs, i);
    assert Backed(v, f, j);
  }

  /** The bytes of the first twelve blocks are where the inode says. */
  lemma ContentDirect(v: Volume, f: Inode, b: nat, i: nat, j: nat, at: nat)
    requires FileOk(v, f) && NoHoles(v, f) && j == b * v.bs + i && i < v.bs && j < f.size && b < 12
    requires at == f.dbp[b] * v.bs + i
    ensures at < |v.disk| && Content(v, f)[j] == v.disk[at]
  {
    PointerAt(v, f, b, PerBlock(v));
    ContentOf(v, f, b, i, j, f.dbp[b], at);
  }

  /** The bytes of the next blocks are in those whose numbers are stored in the singly indirect block. */
  lemma ContentSingle(v: Volume, f: Inode, b: nat, i: nat, j: nat, w: nat, at: nat)
    requires FileOk(v, f) && NoHoles(v, f) && j == b * v.bs + i && i < v.bs && j < f.size
    requires 12 <= b && 4 * (b - 12) + 4 <= v.bs && f.sibp != 0 && Stored(v, f.sibp * v.bs + 4 * (b - 12), w)
    requires at == w * v.bs + i
    ensures at < |v.disk| && Content(v, f)[j] == v.disk[at]
  {
    BlockBacked(v, f, b, i, j);
    SinglePointer(v, f, b, w);
    ContentOf(v, f, b, i, j, w, at);
  }

  /** The number of such a block is stored in the singly indirect block. */
  lemma SinglePointer(v: Volume, f: Inode, b: nat, w: nat)
    requires MetaOk(v, f) && 12 <= b < |Pointers(v, f)| && 4 * (b - 12) + 4 <= v.bs && f.sibp != 0
    requires Stored(v, f.sibp * v.bs + 4 * (b - 12), w)
    ensures Pointers(v, f)[b] == w
  {
    PointerAt(v, f, b, PerBlock(v));
    TableWord(v, f.sibp, b - 12, w);
  }

  /** The numbers of the blocks after that are found through two pointers: the one at place `r` of a block whose number
      is at place `q` of the doubly indirect block. `ContentOf` says what that means for the content. */
  lemma DoublePointer(v: Volume, f: Inode, b: nat, p: nat, q: nat, r: nat, t: nat, w: nat,
      x: nat, y: nat)
    requires MetaOk(v, f) && 0 < 4 * p == v.bs && q < p && r < p && f.dibp != 0 && t != 0
    requires b == 12 + p + q * p + r && b < |Pointers(v, f)|
    requires x == f.dibp * v.bs + 4 * q && Stored(v, x, t) && y == t * v.bs + 4 * r && Stored(v, y, w)
    ensures Pointers(v, f)[b] == w
  {
    QuotOf(q, p, r);
    PointerAt(v, f, b, p);
    TableWord(v, f.dibp, q, t);
    TableWord(v, t, r, w);
  }

  /** A piece of a data block is the piece of the content at the block's place. */
  lemma Chunk(v: Volume, f: Inode, b: nat, pos: nat, off: nat, n: nat)
    requires FileOk(v, f) && NoHoles(v, f) && b < |Pointers(v, f)| && Ptr(v, f, b) != 0
    requires pos == b * v.bs + off && off + n <= v.bs && pos + n <= f.size
    ensures Block(v, Ptr(v, f, b))[off..off + n] == Content(v, f)[pos..pos + n]
  {
    var x, y := Block(v, Ptr(v, f, b))[off..off + n], Content(v, f)[pos..pos + n];
    forall i | 0 <= i < n ensures x[i] == y[i] {
      ChunkAt(v, f, b, pos + i, off + i);
      assert y[i] == Content(v, f)[pos + i];
    }
  }

  lemma ChunkAt(v: Volume, f: Inode, b: nat, pos: nat, off: nat)
    requires FileOk(v, f) && NoHoles(v, f) && b < |Pointers(v, f)| && Ptr(v, f, b) != 0
    requires pos == b * v.bs + off && off < v.bs && pos < f.size
    ensures Content(v, f)[pos] == Block(v, Ptr(v, f, b))[off]
  {
    QuotOf(b, v.bs, off);
    assert Backed(v, f, pos);
  }

  /** Reading the sectors of a block reads the block. */
  lemma BlockSectors(v: Volume, b: nat)
    requires VolumeOk(v) && InDisk(v, b)
    ensures var n := v.bs / SECTOR; SECTOR * (b * n + n) <= |v.disk| && Sectors(v, b * n, n) == Block(v, b)
  {
    var n := v.bs / SECTOR;
    assert v.bs == SECTOR * n;
    assert b * v.bs == SECTOR * (b * n) by { assert b * (SECTOR * n) == SECTOR * (b * n); }
    assert (b + 1) * v.bs == b * v.bs + v.bs;
  }

  // ---- seeking ----

  /** The block of a position in the file exists. */
  lemma Reached(v: Volume, f: Inode, pos: nat)
    requires FileOk(v, f) && NoHoles(v, f)
    ensures pos <= f.size ==> Quot(pos, v.bs) < |Pointers(v, f)|
    ensures pos < f.size ==> Backed(v, f, pos)
  {
    if pos <= f.size {
      QuotMono(pos, f.size, v.bs);
    }
  }

  const U32: nat := 0xFFFF_FFFF
  const LONG: int := 0x8000_0000_0000_0000

  /** Conversions to unsigned 32-bit and 64-bit words. */
  function Word32(x: int): nat { x % 0x1_0000_0000 }
  function Word64(x: int): nat { x % 0x1_0000_0000_0000_0000 }

  /** Where a seek by `offset` from byte `bytes` ends (fs/ext2.c:1240-1259). The position has 32 bits; the size and the
      check against it have 64. */
  function SeekTarget(bytes: nat, size: nat, offset: int): nat {
    var off :=
      if offset > 0 then
        var cut := if bytes > U32 - offset then U32 - bytes else offset;
        if bytes > Word64(size - cut) then size - bytes else cut
      else if offset < 0 && Word32(-offset) > bytes then Word32(0 - bytes)
      else offset;
    Word32(bytes + off)
  }

  /** A forward seek ends at the target or at the end of the file, whichever comes first, if and only if the offset (as
      far as 32 bits allow) does not exceed the file size: beyond it the unsigned difference wraps and the check does
      not fire. */
  lemma SeekExactly(bytes: nat, size: nat, offset: nat)
    requires bytes <= size <= U32 && offset < LONG
    ensures SeekTarget(bytes, size, offset) == Min(bytes + offset, size) <==> Min(offset, U32 - bytes) <= size
  {}

  /** A backward seek ends at the target or at 0, whichever comes last, if and only if the offset has 32 bits or its low
      32 bits reach back far enough. */
  lemma SeekBack(bytes: nat, size: nat, offset: int)
    requires bytes <= U32 && -LONG < offset < 0
    ensures SeekTarget(bytes, size, offset) == (if bytes + offset > 0 then bytes + offset else 0)
        <==> offset > -0x1_0000_0000 || Word32(-offset) >= bytes
  {
    var q, r := SplitWord(-offset);
    BackTarget(bytes, size, offset, q, r);
    BackCases(bytes, offset, q, r);
  }

  lemma SplitWord(x: nat) returns (q: nat, r: nat)
    ensures x == 0x1_0000_0000 * q + r && r <= U32
  {
    q, r := x / 0x1_0000_0000, x % 0x1_0000_0000;
  }

  lemma BackCases(bytes: nat, offset: int, q: int, r: nat)
    requires bytes <= U32 && offset < 0 && -offset == 0x1_0000_0000 * q + r && r <= U32
    ensures (if r > bytes then 0 else bytes - r) == (if bytes + offset > 0 then bytes + offset else 0)
        <==> offset > -0x1_0000_0000 || r >= bytes
  {
    assert q >= 0;
    assert q >= 1 ==> -offset >= 0x1_0000_0000 && bytes + offset < 0;
  }

  /** Only the low 32 bits of a backward offset count. */
  lemma BackTarget(bytes: nat, size: nat, offset: int, q: int, r: nat)
    requires bytes <= U32 && offset < 0 && -offset == 0x1_0000_0000 * q + r && r <= U32
    ensures SeekTarget(bytes, size, offset) == if r > bytes then 0 else bytes - r
    ensures Word32(-offset) == r
  {
    WordIs(q, r);
    WordIs(-q, bytes - r);
    WordIs(-1, 0x1_0000_0000 - bytes);
    WordIs(1, 0);
    WordIs(0, 0);
    assert bytes + offset == 0x1_0000_0000 * -q + (bytes - r);
  }

  lemma WordIs(q: int, r: int)
    ensures 0 <= r <= U32 ==> Word32(0x1_0000_0000 * q + r) == r
  {}

  /** From the beginning, an offset behind the end is taken as it is. From byte 10 of 20, an offset of 15 is cut. */
  lemma SeekBehind()
    ensures SeekTarget(0, 20, 25) == 25 && SeekTarget(10, 20, 15) == 20 && SeekTarget(10, 20, 21) == 31
  {}

  /** How much of a request fs_ext2_read goes for (fs/ext2.c:1275-1278), with the 64-bit difference as coded. */
  function Trim(count: nat, size: nat, bytes: nat): nat {
    var rest := Word64(size - bytes);
    if count > rest then rest else count
  }

  /** A read is kept inside the file if and only if its position does not exceed the size: behind the end the difference
      wraps. */
  lemma TrimExactly(count: nat, size: nat, bytes: nat)
    requires size <= U32 && bytes <= U32
    ensures bytes + Trim(count, size, bytes) <= size <==> bytes <= size
    ensures bytes <= size ==> Trim(count, size, bytes) == Min(count, size - bytes)
    ensures bytes > size && count <= U32 ==> Trim(count, size, bytes) == count
  {}

  /** An open file descriptor on a fixed disk. is_buf_init, which open clears and nothing ever sets, is left out: every
      read starts by fetching its block again. */
  class Descriptor {
    const v: Volume
    const f: Inode
    var blki: nat
    var byteaddr: nat
    var isBlkValid: bool
    var blkbuf: seq<byte>

    ghost predicate Valid()
      reads this
    {
      FileOk(v, f) && NoHoles(v, f) && blki < |Pointers(v, f)| && byteaddr <= v.bs && Position() <= f.size
    }

    ghost function Position(): nat
      reads this
    {
      blki * v.bs + byteaddr
    }

    /** Reads from here work: the descriptor has not failed before and its block exists. */
    ghost predicate Usable()
      requires Valid()
      reads this
    {
      isBlkValid && Ptr(v, f, blki) != 0
    }

    /** drive->read of one block into the buffer. */
    method Fetch(b: nat)
      requires VolumeOk(v) && InDisk(v, b)
      modifies this`blkbuf
      ensures blkbuf == Block(v, b)
    {
      BlockSectors(v, b);
      blkbuf := Sectors(v, b * (v.bs / SECTOR), v.bs / SECTOR);
    }

    /** fs_ext2_get_inode_pointer (fs/ext2.c:76-124) up to the double-indirect range: the pointer of the flat list. The
        buffer is used as scratch space. */
    method GetPointer(bind: nat) returns (ptr: nat)
      requires FileOk(v, f) && bind < |Pointers(v, f)|
      modifies this`blkbuf
      ensures ptr == Ptr(v, f, bind)
    {
      var per := v.bs / 4;
      PointerAt(v, f, bind, per);
      if bind < DIRECT {
        return f.dbp[bind];
      } else if bind < DIRECT + per {
        if f.sibp == 0 {
          return 0;
        }
        Fetch(f.sibp);
        return Le32(blkbuf, bind - DIRECT);
      } else {
        var q, r := Split(bind - DIRECT - per, per);
        ptr := GetDoubly(q, r);
      }
    }

    /** The two indices of fs/ext2.c:96 and 102. */
    method Split(k: nat, per: nat) returns (q: nat, r: nat)
      requires per > 0
      ensures q == Quot(k, per) && r == Rem(k, per)
    {
      QuotIs(k, per);
      q, r := k / per, k % per;
    }

    /** fs/ext2.c:91-104, once the two indices are known. */
    method GetDoubly(q: nat, r: nat) returns (ptr: nat)
      requires FileOk(v, f) && q < PerBlock(v) && r < PerBlock(v)
      modifies this`blkbuf
      ensures ptr == Doubly(v, f, q, r)
    {
      if f.dibp == 0 {
        return 0;
      }
      Fetch(f.dibp);
      var addr := Le32(blkbuf, q);
      assert addr == Table(v, f.dibp)[q];
      if addr == 0 {
        return 0;
      }
      Fetch(addr);
      ptr := Le32(blkbuf, r);
    }

    /** fs_ext2_read_inode_data (fs/ext2.c:128-138). */
    method ReadInodeData(bind: nat) returns (ok: bool)
      requires FileOk(v, f) && bind < |Pointers(v, f)|
      modifies this`blkbuf
      ensures ok <==> Ptr(v, f, bind) != 0
      ensures ok ==> blkbuf == Block(v, Ptr(v, f, bind))
    {
      var baddr := GetPointer(bind);
      if baddr == 0 {
        return false;
      }
      Fetch(baddr);
      return true;
    }

    /** A plain open (fs/ext2.c:1166, 1182-1187). */
    constructor (v: Volume, f: Inode)
      requires FileOk(v, f) && NoHoles(v, f)
      ensures this.v == v && this.f == f && Valid() && Position() == 0 && (f.size > 0 ==> Usable())
    {
      this.v, this.f := v, f;
      blki, byteaddr, isBlkValid, blkbuf := 0, 0, true, [];
      new;
      assert f.size > 0 ==> Backed(v, f, 0);
      var ptr := GetPointer(0);
      if ptr == 0 {
        isBlkValid := false;
      }
    }

    /** Seeking from the beginning or from the current position (fs/ext2.c:1214-1264). A forward seek stops at the end
        of the file exactly when the offset, cut to 32 bits, does not exceed the file size; `SeekExactly` and `SeekBack`
        say so for all words. */
    method Seek(offset: int, current: bool) returns (pos: nat)
      requires Valid() && -LONG < offset < LONG
      modifies this`blki, this`byteaddr
      ensures pos == SeekTarget(if current then old(Position()) else 0, f.size, offset) && Position() == pos
      ensures var start := if current then old(Position()) else 0;
        offset >= 0 ==> (pos == Min(start + offset, f.size) <==> Min(offset, U32 - start) <= f.size)
      ensures (pos <= f.size ==> Valid()) && blki == Quot(pos, v.bs) && byteaddr == Rem(pos, v.bs)
      ensures isBlkValid && pos < f.size ==> Usable()
    {
      var bytes := if current then blki * v.bs + byteaddr else 0;
      pos := Adjust(bytes, f.size, offset);
      if offset >= 0 {
        SeekExactly(bytes, f.size, offset);
      }
      MoveTo(pos);
    }

    /** fs/ext2.c:1241-1259. */
    static method Adjust(bytes: nat, size: nat, offset: int) returns (pos: nat)
      ensures pos == SeekTarget(bytes, size, offset)
    {
      var off := offset;
      if off > 0 {
        if bytes > U32 - off {
          off := U32 - bytes;
        }
        if bytes > Word64(size - off) {
          off := size - bytes;
        }
      } else if off < 0 {
        if Word32(-off) > bytes {
          off := Word32(0 - bytes);
        }
      }
      pos := Word32(bytes + off);
    }

    /** fs/ext2.c:1260-1261. */
    method MoveTo(pos: nat)
      requires Valid()
      modifies this`blki, this`byteaddr
      ensures Position() == pos && blki == Quot(pos, v.bs) && byteaddr == Rem(pos, v.bs)
      ensures pos <= f.size ==> Valid()
      ensures isBlkValid && pos < f.size ==> Usable()
    {
      Reached(v, f, pos);
      QuotJoin(pos, v.bs);
      blki, byteaddr := Split(pos, v.bs);
    }

    method Tell() returns (pos: nat)
      ensures pos == Position()
    {
      pos := blki * v.bs + byteaddr;
    }

    /** Moving on to the next block of the file (fs/ext2.c:1295-1303). */
    method NextBlock() returns (ok: bool)
      requires Valid() && byteaddr == v.bs && Position() < f.size
      modifies this`blki, this`byteaddr, this`blkbuf
      ensures Valid() && ok && byteaddr == 0 && Position() == old(Position()) && Ptr(v, f, blki) != 0
      ensures blkbuf == Block(v, Ptr(v, f, blki))
    {
      ghost var pos := Position();
      assert (blki + 1) * v.bs + 0 == pos;
      QuotOf(blki + 1, v.bs, 0);
      QuotMono(pos, f.size, v.bs);
      assert Backed(v, f, pos);
      blki := blki + 1;
      byteaddr := 0;
      ok := ReadInodeData(blki);
    }

    /** One round of the copying loop (fs/ext2.c:1289-1313). */
    method CopySome(left: nat) returns (piece: seq<byte>)
      requires Valid() && Usable() && blkbuf == Block(v, Ptr(v, f, blki)) && 0 < left <= f.size - Position()
      modifies this`blki, this`byteaddr, this`blkbuf, this`isBlkValid
      ensures Valid() && Usable() && blkbuf == Block(v, Ptr(v, f, blki))
      ensures 0 < |piece| <= left && Position() == old(Position()) + |piece|
      ensures piece == Content(v, f)[old(Position())..old(Position()) + |piece|]
    {
      if byteaddr == v.bs {
        var ok := NextBlock();
        isBlkValid := ok;
      }
      piece := CopyHere(left);
    }

    /** Copying from the block in the buffer (fs/ext2.c:1306-1312). */
    method CopyHere(left: nat) returns (piece: seq<byte>)
      requires Valid() && Ptr(v, f, blki) != 0 && blkbuf == Block(v, Ptr(v, f, blki)) && byteaddr < v.bs
      requires 0 < left <= f.size - Position()
      modifies this`byteaddr
      ensures Valid() && 0 < |piece| <= left && Position() == old(Position()) + |piece|
      ensures piece == Content(v, f)[old(Position())..old(Position()) + |piece|]
    {
      var tocopy := if left <= v.bs - byteaddr then left else v.bs - byteaddr;
      Chunk(v, f, blki, Position(), byteaddr, tocopy);
      piece := blkbuf[byteaddr..byteaddr + tocopy];
      byteaddr := byteaddr + tocopy;
    }

    /** fs_ext2_read (fs/ext2.c:1269-1316): from a usable descriptor, exactly the bytes of the flat content at the
        position, as many as asked for and left in the file; the position advances by as many. A descriptor that is not
        usable reads nothing, and stays so. */
    method Read(count: nat) returns (data: seq<byte>)
      requires Valid()
      modifies this
      ensures Valid()
      ensures old(Usable()) ==>
        Usable() && |data| == (if count > f.size - old(Position()) then f.size - old(Position()) else count)
      ensures old(Usable()) ==> data == Content(v, f)[old(Position())..old(Position()) + |data|]
      ensures old(Usable()) ==> Position() == old(Position()) + |data|
      ensures !old(Usable()) ==> data == [] && !isBlkValid && Position() == old(Position())
    {
      var bytes := Tell();
      var amount := Trim(count, f.size, bytes);
      data := [];
      var ok := ReadInodeData(blki);
      if !ok {
        isBlkValid := false;
        return;
      }
      if isBlkValid {
        data := CopyAll(amount);
      }
    }

    /** A read from a position behind the end of the file, in a block that exists: the bytes there are returned, as many
        as asked for, although none of them belongs to the file. */
    method ReadBehind(count: nat) returns (data: seq<byte>)
      requires FileOk(v, f) && blki < |Pointers(v, f)| && isBlkValid && Ptr(v, f, blki) != 0
      requires f.size < Position() <= U32 && 0 < count <= v.bs - byteaddr
      modifies this`byteaddr, this`blkbuf
      ensures data == Block(v, Ptr(v, f, blki))[old(byteaddr)..old(byteaddr) + count]
      ensures Position() == old(Position()) + count
    {
      var bytes := Tell();
      TrimExactly(count, f.size, bytes);
      var left := Trim(count, f.size, bytes);
      var ok := ReadInodeData(blki);
      assert ok;
      var tocopy := if left <= v.bs - byteaddr then left else v.bs - byteaddr;
      data := blkbuf[byteaddr..byteaddr + tocopy];
      byteaddr := byteaddr + tocopy;
    }

    /** The copying loop (fs/ext2.c:1288-1313). The loop's own test of is_blk_valid is made once before it: on a file
        without holes the flag cannot change inside. */
    method CopyAll(amount: nat) returns (data: seq<byte>)
      requires Valid() && Usable() && blkbuf == Block(v, Ptr(v, f, blki)) && amount <= f.size - Position()
      modifies this`blki, this`byteaddr, this`blkbuf, this`isBlkValid
      ensures Valid() && Usable() && |data| == amount && Position() == old(Position()) + amount
      ensures data == Content(v, f)[old(Position())..old(Position()) + amount]
    {
      ghost var start := Position();
      var left := amount;
      data := [];
      while left > 0
        invariant Valid() && Usable() && blkbuf == Block(v, Ptr(v, f, blki)) && 0 <= left <= amount
        invariant |data| == amount - left && Position() == start + |data|
            && data == Content(v, f)[start..start + |data|]
      {
        ghost var n := |data|;
        var piece := CopySome(left);
        data := data + piece;
        left := left - |piece|;
        Joined(Content(v, f), start, n, |piece|);
      }
    }

    /** Reading at the very end and then from the beginning again. If the file ends on a block boundary and no block
        follows, the read at the end marks the descriptor invalid for good, and the later read returns nothing. */
    method RewindAfterEnd(n: nat, k: nat) returns (data: seq<byte>)
      requires Valid() && isBlkValid && f.size > 0
      modifies this
      ensures Valid()
      ensures Ptr(v, f, Quot(f.size, v.bs)) != 0 ==> data == Content(v, f)[..if k > f.size then f.size else k]
      ensures Ptr(v, f, Quot(f.size, v.bs)) == 0 ==> data == []
    {
      var p := Seek(f.size, false);
      var rest := Read(n);
      p := Seek(0, false);
      data := Read(k);
    }

    method Perform(op: Op) returns (out: seq<byte>)
      requires Valid() && Usable() && (op.Seek? ==> op.pos < f.size)
      modifies this
      ensures Valid() && Usable() && (out, Position()) == Outcome(Content(v, f), old(Position()), op)
    {
      out := [];
      match op {
        case Read(n) => out := Read(n);
        case Seek(p) => var _ := Seek(p, false);
      }
    }

    /** Any sequence of reads and of seeks to positions inside the file: every result is the piece of the flat content
        at the position that the operations before it lead to. */
    method Session(ops: seq<Op>) returns (outs: seq<seq<byte>>)
      requires Valid() && Usable() && forall i :: 0 <= i < |ops| && ops[i].Seek? ==> ops[i].pos < f.size
      modifies this
      ensures Valid() && Usable() && outs == Expected(Content(v, f), old(Position()), ops)
    {
      outs := [];
      ghost var c, all := Content(v, f), Expected(Content(v, f), Position(), ops);
      assert ops[0..] == ops;
      for i := 0 to |ops|
        invariant Valid() && Usable() && outs + Expected(c, Position(), ops[i..]) == all
      {
        ExpectedStep(c, Position(), ops, i);
        var out := Perform(ops[i]);
        outs := outs + [out];
      }
      assert ops[|ops|..] == [];
    }
  }

  datatype Op = Read(count: nat) | Seek(pos: nat)

  /** What a session must return, from the flat content alone. */
  ghost function Expected(c: seq<byte>, pos: nat, ops: seq<Op>): seq<seq<byte>>
    decreases |ops|
  {
    if ops == [] then []
    else var o := Outcome(c, pos, ops[0]); [o.0] + Expected(c, o.1, ops[1..])
  }

  function Concat(outs: seq<seq<byte>>): seq<byte> {
    if outs == [] then [] else outs[0] + Concat(outs[1..])
  }

  function Asked(ops: seq<Op>): nat {
    if ops == [] then 0 else (if ops[0].Read? then ops[0].count else 0) + Asked(ops[1..])
  }

  /** Reads one after the other return the content from the position on, in one piece. */
  lemma {:induction false} ReadsJoin(c: seq<byte>, pos: nat, ops: seq<Op>)
    requires pos <= |c| && forall i :: 0 <= i < |ops| ==> ops[i].Read?
    ensures Concat(Expected(c, pos, ops)) == c[pos..Min(pos + Asked(ops), |c|)]
    decreases |ops|
  {
    if ops != [] {
      var mid := Min(pos + ops[0].count, |c|);
      var rest := ops[1..];
      assert Outcome(c, pos, ops[0]) == (c[pos..mid], mid);
      ReadsJoin(c, mid, rest);
      assert Expected(c, pos, ops) == [c[pos..mid]] + Expected(c, mid, rest);
      Pieces(c, pos, mid, Min(mid + Asked(rest), |c|));
    }
  }

  lemma Pieces(c: seq<byte>, a: nat, b: nat, e: nat)
    requires a <= b <= e <= |c|
    ensures c[a..b] + c[b..e] == c[a..e]
  {}

  /** What one operation returns and where it leaves the position. */
  ghost function Outcome(c: seq<byte>, pos: nat, op: Op): (seq<byte>, nat) {
    match op
    case Read(n) =>
      if pos > |c| then ([], pos)
      else var m := if n > |c| - pos then |c| - pos else n; (c[pos..pos + m], pos + m)
    case Seek(p) => ([], p)
  }

  lemma ExpectedStep(c: seq<byte>, pos: nat, ops: seq<Op>, i: nat)
    requires i < |ops|
    ensures var o := Outcome(c, pos, ops[i]); Expected(c, pos, ops[i..]) == [o.0] + Expected(c, o.1, ops[i + 1..])
  {
    assert ops[i..][0] == ops[i] && ops[i..][1..] == ops[i + 1..];
  }

  lemma Joined(s: seq<byte>, a: nat, n: nat, m: nat)
    requires a + n + m <= |s|
    ensures s[a..a + n] + s[a + n..a + n + m] == s[a..a + n + m]
  {}
}
