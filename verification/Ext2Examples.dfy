/** Files on concrete volumes: two for which the read path does not do what it is meant to, and an indirect one. */
module Ext2Examples {
  import opened Prelude
  import opened Arithmetic
  import opened Ext2File

  /** Four blocks of 1 KB. */
  function Disk(): Volume { Volume(seq(4096, _ => 0), 1024) }

  /** A file of one block. */
  function OneBlock(size: nat): Inode { Inode([1] + seq(11, _ => 0), 0, 0, size) }

  lemma OneBlockOk(size: nat)
    requires size <= 1024
    ensures FileOk(Disk(), OneBlock(size)) && NoHoles(Disk(), OneBlock(size))
    ensures |Pointers(Disk(), OneBlock(size))| >= 2 && Ptr(Disk(), OneBlock(size), 0) == 1
        && Ptr(Disk(), OneBlock(size), 1) == 0
  {
    var v, f := Disk(), OneBlock(size);
    assert VolumeOk(v) && InDisk(v, 1);
    assert MetaOk(v, f);
    PointerCount(v, f);
    forall b | 0 <= b < |Pointers(v, f)| ensures Pointers(v, f)[b] == if b == 0 then 1 else 0 {
      PointerAt(v, f, b, 256);
    }
    assert Quot(size, 1024) <= 1 by {
      QuotMono(size, 1024, 1024);
      assert Quot(1024, 1024) == 1 + Quot(0, 1024);
    }
    assert FileOk(v, f);
    forall j: nat | j < size ensures Backed(v, f, j) {
      assert Quot(j, 1024) == 0;
    }
  }

  /** A file that fills its only block: after a read at the end, a rewind and a read of all of it return nothing. */
  method RewindFails(v: Volume, f: Inode) returns (data: seq<byte>)
    requires FileOk(v, f) && NoHoles(v, f) && f.size == v.bs && |Pointers(v, f)| >= 2 && Ptr(v, f, 1) == 0
    ensures data == []
  {
    var d := new Descriptor(v, f);
    assert Backed(v, f, 0);
    QuotOf(1, v.bs, 0);
    data := d.RewindAfterEnd(1, f.size);
  }

  lemma SmallPos(pos: nat, bs: nat)
    requires pos < bs
    ensures Quot(pos, bs) == 0 && Rem(pos, bs) == pos
  {}

  lemma SmallSeek(size: nat, pos: nat)
    requires size < pos < U32
    ensures SeekTarget(0, size, pos) == pos
  {}

  /** A file shorter than its only block: a read from behind its end returns bytes that are not in the file. */
  method ReadsPastEnd(v: Volume, f: Inode) returns (data: seq<byte>)
    requires FileOk(v, f) && NoHoles(v, f) && 0 < f.size && f.size + 1 < v.bs <= U32 && Ptr(v, f, 0) != 0
    ensures data == [Block(v, Ptr(v, f, 0))[f.size + 1]]
  {
    var d := new Descriptor(v, f);
    SmallSeek(f.size, f.size + 1);
    SmallPos(f.size + 1, v.bs);
    var pos := d.Seek(f.size + 1, false);
    data := d.ReadBehind(1);
  }

  /** There are such files. */
  method BothFail() returns (a: seq<byte>, b: seq<byte>)
    ensures a == [] && |b| == 1
  {
    OneBlockOk(1024);
    a := RewindFails(Disk(), OneBlock(1024));
    OneBlockOk(10);
    b := ReadsPastEnd(Disk(), OneBlock(10));
  }

  /** 257 blocks of 1 KB; block 2 begins with the number 256, and byte 5 of block 256 is 42. */
  function LargeDisk(): Volume {
    Volume(seq(257 * 1024, i => if i == 2 * 1024 + 1 then 1 else if i == 256 * 1024 + 5 then 42 else 0), 1024)
  }

  /** A file whose last block is the first one of its singly indirect block. */
  function ThirteenBlocks(): Inode { Inode(seq(12, _ => 3), 2, 0, 12 * 1024 + 10) }

  lemma StoredNumber()
    ensures Stored(LargeDisk(), 2 * 1024, 256) && forall i | 0 < i < 256 :: Stored(LargeDisk(), 2 * 1024 + 4 * i, 0)
  {
    var v := LargeDisk();
    Le32Example();
    assert v.disk[2 * 1024..2 * 1024 + 4] == [0, 1, 0, 0];
    forall i | 0 < i < 256 ensures Stored(v, 2 * 1024 + 4 * i, 0) {
      assert v.disk[2 * 1024 + 4 * i..2 * 1024 + 4 * i + 4] == [0, 0, 0, 0];
    }
  }

  lemma LargePointers(b: nat)
    requires MetaOk(LargeDisk(), ThirteenBlocks()) && b < |Pointers(LargeDisk(), ThirteenBlocks())|
    ensures Pointers(LargeDisk(), ThirteenBlocks())[b] == if b < 12 then 3 else if b == 12 then 256 else 0
  {
    var v, f := LargeDisk(), ThirteenBlocks();
    if 12 <= b < 12 + 256 {
      StoredNumber();
      SinglePointer(v, f, b, if b == 12 then 256 else 0);
    } else {
      PointerAt(v, f, b, 256);
    }
  }

  lemma ThirteenSize()
    ensures Quot(12 * 1024 + 10, 1024) == 12
  {
    QuotOf(12, 1024, 10);
  }

  lemma ThirteenOk()
    ensures FileOk(LargeDisk(), ThirteenBlocks())
  {
    var v, f := LargeDisk(), ThirteenBlocks();
    assert MetaOk(v, f);
    PointerCount(v, f);
    forall b | 0 <= b < |Pointers(v, f)| ensures Pointers(v, f)[b] == 0 || InDisk(v, Pointers(v, f)[b]) {
      LargePointers(b);
    }
    ThirteenSize();
  }

  lemma ThirteenBacked()
    ensures FileOk(LargeDisk(), ThirteenBlocks()) && NoHoles(LargeDisk(), ThirteenBlocks())
  {
    var v, f := LargeDisk(), ThirteenBlocks();
    ThirteenOk();
    forall j: nat | j < f.size ensures Backed(v, f, j) {
      QuotMono(j, f.size, 1024);
      ThirteenSize();
      LargePointers(Quot(j, 1024));
    }
  }

  /** The byte in question. */
  lemma SixthByte()
    ensures FileOk(LargeDisk(), ThirteenBlocks()) && NoHoles(LargeDisk(), ThirteenBlocks())
    ensures Content(LargeDisk(), ThirteenBlocks())[12 * 1024 + 5] == 42
  {
    ThirteenBacked();
    StoredNumber();
    ContentSingle(LargeDisk(), ThirteenBlocks(), 12, 5, 12 * 1024 + 5, 256, 256 * 1024 + 5);
  }

  /** Reading the sixth byte of that block gives the sixth byte of block 256. */
  method ReadIndirect() returns (data: seq<byte>)
    ensures data == [42]
  {
    var v, f := LargeDisk(), ThirteenBlocks();
    SixthByte();
    var d := new Descriptor(v, f);
    QuotOf(12, 1024, 5);
    var pos := d.Seek(12 * 1024 + 5, false);
    data := d.Read(1);
  }
}
