/** The bytes of an inode bitmap (fs/ext2.c), in the code's own bit order. */
module BitmapByte {
  import opened Bits

  type byte = x: nat | x < 256

  /** Inode bits are counted from the most significant bit of a byte, by the search and by the marking alike. */
  predicate IsSet(b: byte, k: nat)
    requires k < 8
  {
    BitOf(b, 7 - k)
  }

  /** `b |= 1 << (7 - k)` and `b &= ~(1 << (7 - k))`. */
  function Changed(b: byte, k: nat, on: bool): byte
    requires k < 8
  {
    ChangedByte(b, k);
    if on then Or(b, Pow2(7 - k)) else And(b, 255 - Pow2(7 - k))
  }

  lemma ChangedByte(b: byte, k: nat)
    requires k < 8
    ensures Pow2(7 - k) <= 128 && Or(b, Pow2(7 - k)) < 256 && And(b, 255 - Pow2(7 - k)) < 256
  {
    assert Pow2(8) == 256 && Pow2(7) == 128;
    Pow2Mono(7 - k, 7);
    OrBelow(b, Pow2(7 - k), 8);
    AndBelow(b, 255 - Pow2(7 - k));
  }

  lemma {:induction false} Pow2Mono(a: nat, b: nat)
    requires a <= b
    ensures Pow2(a) <= Pow2(b)
    decreases b
  {
    if a < b {
      Pow2Mono(a, b - 1);
    }
  }

  lemma SetBit(b: byte, k: nat, j: nat)
    requires k < 8 && j < 8
    ensures BitOf(Or(b, Pow2(7 - k)), 7 - j) <==> j == k || BitOf(b, 7 - j)
  {
    BitOr(b, Pow2(7 - k), 7 - j);
    BitPow2(7 - k, 7 - j);
  }

  lemma ClearBit(b: byte, k: nat, j: nat)
    requires k < 8 && j < 8 && Pow2(7 - k) <= 255
    ensures BitOf(And(b, 255 - Pow2(7 - k)), 7 - j) <==> j != k && BitOf(b, 7 - j)
  {
    BitAnd(b, 255 - Pow2(7 - k), 7 - j);
    BitComplement(8, 7 - k, 7 - j);
    assert Pow2(8) == 256;
  }

  /** One bit takes the new value, the other seven stay. */
  lemma ChangedBit(b: byte, k: nat, on: bool, j: nat)
    requires k < 8 && j < 8
    ensures IsSet(Changed(b, k, on), j) <==> if j == k then on else IsSet(b, j)
  {
    ChangedByte(b, k);
    if on {
      SetBit(b, k, j);
    } else {
      ClearBit(b, k, j);
    }
  }

  /** Bytes are determined by their eight bits. */
  lemma SameByte(a: byte, b: byte)
    requires forall k :: 0 <= k < 8 ==> (IsSet(a, k) <==> IsSet(b, k))
    ensures a == b
  {
    assert Pow2(8) == 256;
    forall i | 0 <= i < 8 ensures BitOf(a, i) <==> BitOf(b, i) {
      assert IsSet(a, 7 - i) <==> IsSet(b, 7 - i);
    }
    BitsDetermine(a, b, 8);
  }

  /** A byte other than 255 has a clear bit. */
  lemma HasClearBit(b: byte) returns (k: nat)
    requires b != 255
    ensures k < 8 && !IsSet(b, k)
  {
    if k' :| 0 <= k' < 8 && !IsSet(b, k') {
      k := k';
    } else {
      FullByte();
      SameByte(b, 255);
    }
  }

  lemma FullByte()
    ensures forall k :: 0 <= k < 8 ==> IsSet(255, k)
  {
    assert Pow2(8) == 256;
    forall k | 0 <= k < 8 ensures IsSet(255, k) {
      BitOnes(8, 7 - k);
    }
  }

  /** What the bits are worth. */
  lemma HighBit(b: byte, k: nat)
    requires k < 8
    ensures IsSet(b, k) <==> b / [128, 64, 32, 16, 8, 4, 2, 1][k] % 2 == 1
  {
    BitValue(b, 7 - k);
    assert Pow2(3) == 8 && Pow2(6) == 64;
  }

  /** `b & 0x80` tests the first bit. */
  lemma TopBit(b: byte)
    ensures And(b, 128) != 0 <==> IsSet(b, 0)
  {
    assert Pow2(7) == 128 && Pow2(8) == 256;
    AndBelow(b, 128);
    forall i | 0 <= i < 8 ensures BitOf(And(b, 128), i) <==> i == 7 && BitOf(b, 7) {
      BitAnd(b, 128, i);
      BitPow2(7, i);
    }
    forall i | 0 <= i < 8 ensures !BitOf(0, i) {
      ZeroBits(i);
    }
    if !BitOf(b, 7) {
      BitsDetermine(And(b, 128), 0, 8);
    } else {
      assert BitOf(And(b, 128), 7);
    }
  }

  /** `b <<= 1` on an 8-bit variable. */
  function Doubled(b: byte): byte {
    var x: nat := 2 * b;
    x % 256
  }

  function Shifted(b: byte, n: nat): byte {
    if n == 0 then b else Doubled(Shifted(b, n - 1))
  }

  lemma {:induction false} ShiftedBit(b: byte, n: nat, i: nat)
    requires n <= i < 8
    ensures BitOf(Shifted(b, n), i) <==> BitOf(b, i - n)
    decreases n
  {
    if n > 0 {
      assert Pow2(8) == 256;
      BitMod(2 * Shifted(b, n - 1), 8, i);
      BitDouble(Shifted(b, n - 1), i);
      ShiftedBit(b, n - 1, i - 1);
    }
  }

  /** After n shifts the top-bit test reads bit n of the original byte. */
  lemma TopAfter(b: byte, n: nat)
    requires n < 8
    ensures And(Shifted(b, n), 128) != 0 <==> IsSet(b, n)
  {
    TopBit(Shifted(b, n));
    ShiftedBit(b, n, 7);
  }

}

/** Inode bitmaps (fs/ext2.c): searching for a free inode and marking it. */
module Ext2Bitmap {
  import opened Arithmetic
  import opened BitmapByte
  import opened Bits

  const SECTOR: nat := 512

  /** The superblock and group table fields the code uses. */
  datatype Layout = Layout(bitmap: seq<nat>, blockSectors: nat, perGroup: nat, firstUnreserved: nat)

  /** First sector of a group's inode bitmap. */
  function Start(l: Layout, g: nat): nat
    requires g < |l.bitmap|
  {
    l.bitmap[g] * l.blockSectors
  }

  function Width(l: Layout): nat { 8 * SECTOR * l.blockSectors }

  predicate Apart(l: Layout, g: nat, h: nat)
    requires g < |l.bitmap| && h < |l.bitmap|
  {
    Start(l, g) + l.blockSectors <= Start(l, h) || Start(l, h) + l.blockSectors <= Start(l, g)
  }

  /**
   * One bitmap block per group (with more, the number returned by the search would not say in which block the bit
   * was found), all inside the drive and no two overlapping.
   */
  ghost predicate LayoutOk(l: Layout, size: nat) {
    && 0 < l.perGroup <= Width(l)
    && (forall g :: 0 <= g < |l.bitmap| ==> SECTOR * (Start(l, g) + l.blockSectors) <= size)
    && (forall g, h :: 0 <= g < |l.bitmap| && 0 <= h < |l.bitmap| && g != h ==> Apart(l, g, h))
  }

  /** Byte of the drive that holds bit `i` of group `g`. */
  function At(l: Layout, g: nat, i: nat): nat
    requires g < |l.bitmap|
  {
    SECTOR * Start(l, g) + i / 8
  }

  ghost predicate Bit(d: seq<byte>, l: Layout, g: nat, i: nat)
    requires LayoutOk(l, |d|) && g < |l.bitmap| && i < Width(l)
  {
    IsSet(d[At(l, g, i)], i % 8)
  }

  /** The bits behind the last inode of a group are set. */
  ghost predicate Padded(d: seq<byte>, l: Layout)
    requires LayoutOk(l, |d|)
  {
    forall g, i :: 0 <= g < |l.bitmap| && l.perGroup <= i < Width(l) ==> Bit(d, l, g, i)
  }

  /** Different bits live in different bytes or at different places of a byte. */
  lemma Elsewhere(l: Layout, size: nat, g: nat, i: nat, h: nat, j: nat)
    requires LayoutOk(l, size) && g < |l.bitmap| && h < |l.bitmap| && i < Width(l) && j < Width(l)
    ensures At(l, g, i) == At(l, h, j) ==> g == h && i / 8 == j / 8
    ensures At(l, g, i) < size
  {
    if g != h {
      assert Apart(l, g, h);
    }
  }

  /** The drive with one bitmap bit changed. */
  function Flip(d: seq<byte>, l: Layout, g: nat, i: nat, on: bool): (r: seq<byte>)
    requires g < |l.bitmap| && At(l, g, i) < |d|
  {
    d[At(l, g, i) := Changed(d[At(l, g, i)], i % 8, on)]
  }

  /** Exactly the one bit takes the new value, in all groups. */
  lemma FlipBit(d: seq<byte>, l: Layout, g: nat, i: nat, on: bool, h: nat, j: nat)
    requires LayoutOk(l, |d|) && g < |l.bitmap| && i < Width(l) && h < |l.bitmap| && j < Width(l)
    requires At(l, g, i) < |d|
    ensures Bit(Flip(d, l, g, i, on), l, h, j) <==> if h == g && j == i then on else Bit(d, l, h, j)
  {
    Elsewhere(l, |d|, g, i, h, j);
    var x := At(l, g, i);
    if At(l, h, j) == x {
      ChangedBit(d[x], i % 8, on, j % 8);
      assert j == i <==> j % 8 == i % 8;
    }
  }

  // ---- inode numbers ----

  /** Inode numbers count from 1 through all groups. */
  predicate Numbered(l: Layout, n: nat) {
    1 <= n <= l.perGroup * |l.bitmap|
  }

  ghost predicate Used(d: seq<byte>, l: Layout, n: nat)
    requires LayoutOk(l, |d|) && Numbered(l, n)
  {
    Place(l, n);
    Bit(d, l, Quot(n - 1, l.perGroup), Rem(n - 1, l.perGroup))
  }

  lemma Place(l: Layout, n: nat)
    requires Numbered(l, n) && 0 < l.perGroup
    ensures Quot(n - 1, l.perGroup) < |l.bitmap|
    ensures n == l.perGroup * Quot(n - 1, l.perGroup) + Rem(n - 1, l.perGroup) + 1
  {
    QuotBound(n - 1, l.perGroup, |l.bitmap|);
    QuotRem(n - 1, l.perGroup);
  }

  lemma Number(l: Layout, g: nat, i: nat)
    requires g < |l.bitmap| && i < l.perGroup
    ensures Numbered(l, l.perGroup * g + i + 1)
    ensures Quot(l.perGroup * g + i, l.perGroup) == g && Rem(l.perGroup * g + i, l.perGroup) == i
  {
    MulGap(l.perGroup, g, |l.bitmap|);
    assert l.perGroup * g == g * l.perGroup;
    QuotOf(g, l.perGroup, i);
  }

  /** The drive with the bit of inode `n` set or cleared. */
  ghost function Marked(d: seq<byte>, l: Layout, n: nat, on: bool): (r: seq<byte>)
    requires LayoutOk(l, |d|) && Numbered(l, n)
    ensures |r| == |d|
  {
    Place(l, n);
    Elsewhere(l, |d|, Quot(n - 1, l.perGroup), Rem(n - 1, l.perGroup), 0, 0);
    Flip(d, l, Quot(n - 1, l.perGroup), Rem(n - 1, l.perGroup), on)
  }

  /** Marking changes the state of that inode and of no other. */
  lemma MarkedMeaning(d: seq<byte>, l: Layout, n: nat, on: bool)
    requires LayoutOk(l, |d|) && Numbered(l, n)
    ensures forall m: nat :: Numbered(l, m) ==>
      (Used(Marked(d, l, n, on), l, m) <==> if m == n then on else Used(d, l, m))
  {
    var g, i := Quot(n - 1, l.perGroup), Rem(n - 1, l.perGroup);
    Place(l, n);
    Elsewhere(l, |d|, g, i, 0, 0);
    var d' := Marked(d, l, n, on);
    forall m: nat | Numbered(l, m) ensures Used(d', l, m) <==> if m == n then on else Used(d, l, m) {
      Place(l, m);
      FlipBit(d, l, g, i, on, Quot(m - 1, l.perGroup), Rem(m - 1, l.perGroup));
    }
  }

  /** Marking keeps the padding and touches no byte outside the bitmaps. */
  lemma MarkedKeeps(d: seq<byte>, l: Layout, n: nat, on: bool)
    requires LayoutOk(l, |d|) && Numbered(l, n)
    ensures Padded(d, l) ==> Padded(Marked(d, l, n, on), l)
    ensures SameOutside(d, Marked(d, l, n, on), l)
  {
    var g, i := Quot(n - 1, l.perGroup), Rem(n - 1, l.perGroup);
    Place(l, n);
    Elsewhere(l, |d|, g, i, 0, 0);
    if Padded(d, l) {
      forall h, j | 0 <= h < |l.bitmap| && l.perGroup <= j < Width(l) ensures Bit(Marked(d, l, n, on), l, h, j) {
        FlipBit(d, l, g, i, on, h, j);
      }
    }
    assert InBitmap(l, g, At(l, g, i));
  }

  predicate InBitmap(l: Layout, g: nat, x: nat)
    requires g < |l.bitmap|
  {
    SECTOR * Start(l, g) <= x < SECTOR * (Start(l, g) + l.blockSectors)
  }

  predicate Outside(l: Layout, x: nat) {
    forall g :: 0 <= g < |l.bitmap| ==> !InBitmap(l, g, x)
  }

  ghost predicate SameOutside(d: seq<byte>, e: seq<byte>, l: Layout) {
    |d| == |e| && forall x :: 0 <= x < |d| && Outside(l, x) ==> d[x] == e[x]
  }

  /** Equal bits, padding and bytes outside: the same drive. */
  lemma SameDrive(d: seq<byte>, e: seq<byte>, l: Layout)
    requires |d| == |e| && LayoutOk(l, |d|) && Padded(d, l) && Padded(e, l) && SameOutside(d, e, l)
    requires forall n: nat :: Numbered(l, n) ==> (Used(d, l, n) <==> Used(e, l, n))
    ensures d == e
  {
    forall x | 0 <= x < |d| ensures d[x] == e[x] {
      if g :| 0 <= g < |l.bitmap| && InBitmap(l, g, x) {
        var c := x - SECTOR * Start(l, g);
        forall k | 0 <= k < 8 ensures IsSet(d[x], k) <==> IsSet(e[x], k) {
          SameBit(d, e, l, g, 8 * c + k);
          assert At(l, g, 8 * c + k) == x;
        }
        SameByte(d[x], e[x]);
      }
    }
  }

  lemma SameBit(d: seq<byte>, e: seq<byte>, l: Layout, g: nat, i: nat)
    requires |d| == |e| && LayoutOk(l, |d|) && Padded(d, l) && Padded(e, l) && g < |l.bitmap| && i < Width(l)
    requires forall n: nat :: Numbered(l, n) ==> (Used(d, l, n) <==> Used(e, l, n))
    ensures Bit(d, l, g, i) <==> Bit(e, l, g, i)
  {
    if i < l.perGroup {
      Number(l, g, i);
      assert Used(d, l, l.perGroup * g + i + 1) <==> Used(e, l, l.perGroup * g + i + 1);
    }
  }

  /** Inode numbers run through the groups, and in a group through the bytes of its bitmap, from the highest bit of a
      byte to the lowest. */
  lemma UsedExactly(d: seq<byte>, l: Layout, g: nat, c: nat, k: nat)
    requires LayoutOk(l, |d|) && g < |l.bitmap| && k < 8 && 8 * c + k < l.perGroup
    ensures var n, at := l.perGroup * g + 8 * c + k + 1, 512 * (l.bitmap[g] * l.blockSectors) + c;
      Numbered(l, n) && at < |d| && (Used(d, l, n) <==> d[at] / [128, 64, 32, 16, 8, 4, 2, 1][k] % 2 == 1)
  {
    Number(l, g, 8 * c + k);
    assert At(l, g, 8 * c + k) == 512 * (l.bitmap[g] * l.blockSectors) + c;
    Elsewhere(l, |d|, g, 8 * c + k, g, 8 * c + k);
    HighBit(d[At(l, g, 8 * c + k)], k);
  }

  // ---- what the search looks for ----

  /** The search skips every byte whose first index does not exceed the first unreserved inode number. */
  predicate Skipped(l: Layout, g: nat, c: nat) {
    l.perGroup * g + 8 * c <= l.firstUnreserved
  }

  /** A bit the search may return. */
  ghost predicate Free(d: seq<byte>, l: Layout, g: nat, i: nat)
    requires LayoutOk(l, |d|) && g < |l.bitmap|
  {
    i < Width(l) && !Skipped(l, g, i / 8) && !Bit(d, l, g, i)
  }

  ghost predicate NoneBelow(d: seq<byte>, l: Layout, g: nat, n: nat)
    requires LayoutOk(l, |d|) && g < |l.bitmap|
  {
    forall i :: 0 <= i < n ==> !Free(d, l, g, i)
  }

  /** Nothing to return in groups [a, b). */
  ghost predicate Exhausted(d: seq<byte>, l: Layout, a: nat, b: nat)
    requires LayoutOk(l, |d|) && b <= |l.bitmap|
  {
    forall g :: a <= g < b ==> NoneBelow(d, l, g, Width(l))
  }

  /** Bit `i` is the first one to return in group `g`. */
  ghost predicate First(d: seq<byte>, l: Layout, g: nat, i: nat)
    requires LayoutOk(l, |d|) && g < |l.bitmap|
  {
    Free(d, l, g, i) && NoneBelow(d, l, g, i)
  }

  /** A free bit is that of an unreserved inode of the group, unused so far. */
  lemma FreeInode(d: seq<byte>, l: Layout, g: nat, i: nat)
    requires LayoutOk(l, |d|) && Padded(d, l) && g < |l.bitmap| && Free(d, l, g, i)
    ensures i < l.perGroup && Numbered(l, l.perGroup * g + i + 1) && !Used(d, l, l.perGroup * g + i + 1)
    ensures l.perGroup * g + i + 1 > l.firstUnreserved
  {
    Number(l, g, i);
  }

  /** Group `g` is the first of groups `a`, `a + 1`, ... with a bit to return, and `i` is its first such bit. */
  ghost predicate Search(d: seq<byte>, l: Layout, a: nat, g: nat, i: nat)
    requires LayoutOk(l, |d|)
  {
    a <= g < |l.bitmap| && Exhausted(d, l, a, g) && First(d, l, g, i)
  }

  /** Every unreserved inode, from the first one on, is in use. */
  ghost predicate NoneUnused(d: seq<byte>, l: Layout)
    requires LayoutOk(l, |d|)
  {
    forall n: nat :: Numbered(l, n) && n >= l.firstUnreserved ==> Used(d, l, n)
  }

  /** An answer a caller can use: an unused, unreserved inode, or 0 when there is none. */
  ghost predicate Usable(d: seq<byte>, l: Layout, n: nat)
    requires LayoutOk(l, |d|)
  {
    if n == 0 then NoneUnused(d, l)
    else Numbered(l, n) && !Used(d, l, n) && n >= l.firstUnreserved
  }

  /** An unused, unreserved inode whose byte the search skips. */
  ghost predicate Lost(d: seq<byte>, l: Layout, n: nat)
    requires LayoutOk(l, |d|)
  {
    Numbered(l, n) && n >= l.firstUnreserved && !Used(d, l, n)
    && Skipped(l, Quot(n - 1, l.perGroup), Rem(n - 1, l.perGroup) / 8)
  }

  ghost predicate NoneLost(d: seq<byte>, l: Layout)
    requires LayoutOk(l, |d|)
  {
    forall n: nat :: !Lost(d, l, n)
  }

  /** Only inodes close to the first unreserved one are lost. */
  lemma LostNear(d: seq<byte>, l: Layout, n: nat)
    requires LayoutOk(l, |d|) && Lost(d, l, n)
    ensures l.firstUnreserved <= n <= l.firstUnreserved + 8
  {
    Place(l, n);
    QuotRem(n - 1, l.perGroup);
  }

  /** So an unused inode behind these is always reported, or another one in its place. */
  lemma FarFound(d: seq<byte>, l: Layout, n: nat)
    requires LayoutOk(l, |d|) && Padded(d, l) && Numbered(l, n) && n > l.firstUnreserved + 8 && !Used(d, l, n)
    ensures !Exhausted(d, l, 0, |l.bitmap|)
  {
    Place(l, n);
    QuotRem(n - 1, l.perGroup);
    var g, i := Quot(n - 1, l.perGroup), Rem(n - 1, l.perGroup);
    assert Free(d, l, g, i);
    assert !NoneBelow(d, l, g, Width(l));
  }

  /** The search comes to an end without an inode exactly when there is none but those it skips. */
  lemma NoneUnusedExactly(d: seq<byte>, l: Layout)
    requires LayoutOk(l, |d|) && Padded(d, l)
    ensures NoneUnused(d, l) <==> Exhausted(d, l, 0, |l.bitmap|) && NoneLost(d, l)
  {
    if NoneUnused(d, l) {
      forall g, i: nat | 0 <= g < |l.bitmap| && i < Width(l) ensures !Free(d, l, g, i) {
        if Free(d, l, g, i) {
          FreeInode(d, l, g, i);
        }
      }
    }
    if Exhausted(d, l, 0, |l.bitmap|) && NoneLost(d, l) {
      forall n: nat | Numbered(l, n) && n >= l.firstUnreserved ensures Used(d, l, n) {
        Place(l, n);
        var g, i := Quot(n - 1, l.perGroup), Rem(n - 1, l.perGroup);
        assert !Lost(d, l, n) && NoneBelow(d, l, g, Width(l));
        assert !Free(d, l, g, i);
      }
    }
  }

  /** With 11 as the first unreserved inode, all inodes used but one of 11 to 16: the search finds nothing. */
  lemma LostInode(n: nat) returns (d: seq<byte>, l: Layout)
    requires 11 <= n <= 16
    ensures LayoutOk(l, |d|) && Padded(d, l) && l.firstUnreserved == 11
    ensures Lost(d, l, n) && !NoneUnused(d, l) && Exhausted(d, l, 0, |l.bitmap|)
  {
    l := Layout([0], 2, 32, 11);
    var full: seq<byte> := seq(1024, _ => 255);
    assert Start(l, 0) == 0;
    FullByte();
    assert forall i :: 0 <= i < Width(l) ==> Bit(full, l, 0, i);
    assert Numbered(l, n);
    assert Quot(n - 1, 32) == 0 && Rem(n - 1, 32) == n - 1;
    MarkedMeaning(full, l, n, false);
    MarkedKeeps(full, l, n, false);
    d := Marked(full, l, n, false);
    forall i | 0 <= i < Width(l) ensures !Free(d, l, 0, i) {
      FlipBit(full, l, 0, n - 1, false, 0, i);
    }
  }

  /** 0 exactly when there is no bit to return, and the first one at or after group `a` when there is one there. */
  ghost predicate Answers(d: seq<byte>, l: Layout, a: nat, n: nat)
    requires LayoutOk(l, |d|)
  {
    && (n == 0 <==> Exhausted(d, l, 0, |l.bitmap|))
    && forall g, i :: 0 <= g && 0 <= i && Search(d, l, a, g, i) ==> n == l.perGroup * g + i + 1
  }

  /** Numbers made with the group count instead of a group are past the last inode. */
  lemma PastTheEnd(l: Layout, i: nat)
    ensures !Numbered(l, l.perGroup * |l.bitmap| + i + 1)
  {}

  // ---- runs ----

  datatype Op = Allocate(start: nat) | Release(n: nat)

  /** The inodes allocated and not yet released after k operations with answers `out`. */
  function Held(ops: seq<Op>, out: seq<nat>, k: nat): set<nat>
    requires k <= |ops| && k <= |out|
  {
    if k == 0 then {}
    else match ops[k - 1]
      case Allocate(_) => Held(ops, out, k - 1) + (if out[k - 1] == 0 then {} else {out[k - 1]})
      case Release(n) => Held(ops, out, k - 1) - {n}
  }

  lemma {:induction false} HeldPrefix(ops: seq<Op>, a: seq<nat>, b: seq<nat>, k: nat)
    requires k <= |ops| && k <= |a| <= |b| && b[..|a|] == a
    ensures Held(ops, a, k) == Held(ops, b, k)
  {
    if k > 0 {
      HeldPrefix(ops, a, b, k - 1);
      assert b[k - 1] == b[..|a|][k - 1];
    }
  }

  ghost predicate Fresh(d: seq<byte>, l: Layout, held: set<nat>, n: nat)
    requires LayoutOk(l, |d|)
  {
    Numbered(l, n) && n > l.firstUnreserved && n !in held && !Used(d, l, n)
  }

  /** `e` marks what `d` marks and, in addition, exactly the inodes of `held`. */
  ghost predicate Marks(d: seq<byte>, e: seq<byte>, l: Layout, held: set<nat>)
    requires |d| == |e| && LayoutOk(l, |d|)
  {
    && (forall n :: n in held ==> Numbered(l, n) && !Used(d, l, n))
    && (forall n: nat :: Numbered(l, n) ==> (Used(e, l, n) <==> Used(d, l, n) || n in held))
  }

  class Bitmaps {
    var disk: seq<byte>
    const l: Layout

    constructor (disk: seq<byte>, l: Layout)
      ensures this.disk == disk && this.l == l
    {
      this.disk, this.l := disk, l;
    }

    ghost predicate Valid()
      reads this
    {
      LayoutOk(l, |disk|) && Padded(disk, l)
    }

    /** `fs_ext2_mark_alloc_inode` (on) and `fs_ext2_mark_unalloc_inode` (off): one sector read, changed and written. */
    method Mark(n: nat, on: bool)
      requires Valid() && Numbered(l, n)
      modifies this
      ensures Valid() && disk == Marked(old(disk), l, n, on)
      ensures forall m: nat :: Numbered(l, m) ==> (Used(disk, l, m) <==> if m == n then on else old(Used(disk, l, m)))
      ensures SameOutside(old(disk), disk, l)
    {
      Place(l, n);
      QuotIs(n - 1, l.perGroup);
      MarkedMeaning(disk, l, n, on);
      MarkedKeeps(disk, l, n, on);
      var g, i := (n - 1) / l.perGroup, (n - 1) % l.perGroup;
      MarkSector(g, i, on);
    }

    method MarkSector(g: nat, i: nat, on: bool)
      requires LayoutOk(l, |disk|) && g < |l.bitmap| && i < Width(l)
      modifies this
      ensures At(l, g, i) < |old(disk)| && disk == Flip(old(disk), l, g, i, on)
    {
      var first := l.bitmap[g] * l.blockSectors;
      assert first == Start(l, g) && SECTOR * (first + l.blockSectors) <= |disk|;
      var sector := first + i / 8 / SECTOR;
      var k := (i / 8) % SECTOR;
      var buf := disk[SECTOR * sector..SECTOR * sector + SECTOR];
      buf := buf[k := Changed(buf[k], i % 8, on)];
      disk := disk[..SECTOR * sector] + buf + disk[SECTOR * sector + SECTOR..];
    }

    /** The index of the first clear bit of byte `c` of a group. */
    method FirstClear(b: byte, g: nat, c: nat) returns (n: nat)
      requires b != 255 && !Skipped(l, g, c)
      ensures n < 8 && !IsSet(b, n) && forall k :: 0 <= k < n ==> IsSet(b, k)
    {
      ghost var clear := HasClearBit(b);
      n := 0;
      var v := b;
      TopAfter(b, 0);
      while And(v, 128) != 0 || l.perGroup * g + 8 * c + n <= l.firstUnreserved
        invariant n <= clear && v == Shifted(b, n)
        invariant forall k :: 0 <= k < n ==> IsSet(b, k)
        invariant And(v, 128) != 0 <==> IsSet(b, n)
        decreases clear - n
      {
        v := Doubled(v);
        n := n + 1;
        TopAfter(b, n);
      }
    }

    /** `fs_ext2_find_grp_unalloc_inode`: one more than the first bit to return, or 0. */
    method FindInGroup(g: nat) returns (r: nat)
      requires Valid() && g < |l.bitmap|
      ensures if r == 0 then NoneBelow(disk, l, g, Width(l)) else First(disk, l, g, r - 1)
    {
      var first := l.bitmap[g] * l.blockSectors;
      var size := SECTOR * l.blockSectors;
      assert first == Start(l, g) && SECTOR * (first + l.blockSectors) <= |disk|;
      var buf := disk[SECTOR * first..SECTOR * first + size];
      var c := 0;
      while c < size
        invariant c <= size && NoneBelow(disk, l, g, 8 * c)
      {
        if !(l.perGroup * g + c * 8 <= l.firstUnreserved) && buf[c] != 255 {
          var n := FirstClear(buf[c], g, c);
          FirstInByte(disk, l, g, c, n);
          return c * 8 + n + 1;
        }
        ByteExhausted(disk, l, g, c);
        c := c + 1;
      }
      return 0;
    }

    /**
     * `fs_ext2_find_unalloc_inode`. The wrapped second loop numbers its result with the first loop's variable, by then
     * the group count, and the search skips whole bytes. So the answer is usable exactly when a group at or after
     * `start` has a bit to return, or none has and no unused inode lies in a skipped byte.
     */
    method Find(start: nat) returns (n: nat)
      requires Valid() && start <= |l.bitmap|
      ensures Usable(disk, l, n) <==>
        !Exhausted(disk, l, start, |l.bitmap|) || (Exhausted(disk, l, 0, |l.bitmap|) && NoneLost(disk, l))
      ensures Answers(disk, l, start, n)
      ensures Numbered(l, n) ==> Usable(disk, l, n) && n > l.firstUnreserved
      ensures start == 0 && n != 0 ==> Numbered(l, n)
      ensures n == 0 ==> (NoneUnused(disk, l) <==> NoneLost(disk, l))
      ensures Numbered(l, n) ==> AllUsed(disk, l, start, n)
    {
      var g, r := Scan(start, |l.bitmap|);
      if r != 0 {
        Found(disk, l, start, g, r - 1);
        FoundFirst(disk, l, start, g, r - 1, l.perGroup * g + r);
        return l.perGroup * g + r;
      }
      NoSearch(disk, l, start);
      NoneUnusedExactly(disk, l);
      var h, r' := Scan(0, g);
      if r' == 0 {
        return 0;
      }
      PastTheEnd(l, r' - 1);
      Found(disk, l, 0, h, r' - 1);
      return l.perGroup * g + r';
    }

    /** Unmarking undoes marking, byte for byte. */
    method MarkThenUnmark(n: nat)
      requires Valid() && Numbered(l, n) && !Used(disk, l, n)
      modifies this
      ensures Valid() && disk == old(disk)
    {
      Mark(n, true);
      Mark(n, false);
      SameDrive(disk, old(disk), l);
    }

    /** Any run of allocations (find from some group, then mark) and releases of inodes still held: an allocated number
        is unreserved, was unused at the start and is not held by anybody; afterwards exactly the held inodes are marked
        in addition; and once all are released the drive is as it was. A number past the last inode, which the search
        can return from a group other than the first, must not be marked. */
    method Session(ops: seq<Op>) returns (out: seq<nat>)
      requires Valid()
      modifies this
      ensures Valid() && |out| == |ops| && SameOutside(old(disk), disk, l)
      ensures forall k :: 0 <= k < |ops| && ops[k].Allocate? && out[k] != 0 ==>
        Fresh(old(disk), l, Held(ops, out, k), out[k])
      ensures Marks(old(disk), disk, l, Held(ops, out, |ops|))
      ensures Held(ops, out, |ops|) == {} ==> disk == old(disk)
    {
      out := [];
      var held: set<nat> := {};
      for k := 0 to |ops|
        invariant Valid() && |out| == k && SameOutside(old(disk), disk, l)
        invariant held == Held(ops, out, k)
        invariant forall j :: 0 <= j < k && ops[j].Allocate? && out[j] != 0 ==>
          Fresh(old(disk), l, Held(ops, out, j), out[j])
        invariant Marks(old(disk), disk, l, held)
      {
        ghost var was := out;
        var n := 0;
        if ops[k].Allocate? {
          if ops[k].start <= |l.bitmap| {
            n := Find(ops[k].start);
          }
          if Numbered(l, n) {
            Mark(n, true);
            held := held + {n};
          } else {
            n := 0;
          }
        } else if ops[k].n in held {
          Mark(ops[k].n, false);
          held := held - {ops[k].n};
        }
        out := out + [n];
        forall j | 0 <= j <= k ensures Held(ops, out, j) == Held(ops, was, j) {
          HeldPrefix(ops, was, out, j);
        }
      }
      if held == {} {
        SameDrive(disk, old(disk), l);
      }
    }

    /** One of the two loops: the first group of [a, b) with a bit to return. */
    method Scan(a: nat, b: nat) returns (g: nat, r: nat)
      requires Valid() && a <= b <= |l.bitmap|
      ensures g <= b && if r == 0 then g == b && Exhausted(disk, l, a, b) else Search(disk, l, a, g, r - 1)
    {
      g, r := a, 0;
      while g < b
        invariant a <= g <= b && Exhausted(disk, l, a, g) && r == 0
      {
        r := FindInGroup(g);
        if r != 0 {
          return;
        }
        g := g + 1;
      }
    }
  }

  /** Behind the reserved inodes and the few that the search skips, all inodes of group `a` and later groups that come
      before `n` are in use. */
  ghost predicate AllUsed(d: seq<byte>, l: Layout, a: nat, n: nat)
    requires LayoutOk(l, |d|)
  {
    forall m: nat :: Numbered(l, m) && l.firstUnreserved + 8 < m < n && a <= Quot(m - 1, l.perGroup) ==> Used(d, l, m)
  }

  /** The answer is the first one from the starting group on. */
  lemma FoundFirst(d: seq<byte>, l: Layout, a: nat, g: nat, i: nat, n: nat)
    requires LayoutOk(l, |d|) && Padded(d, l) && Search(d, l, a, g, i) && n == l.perGroup * g + i + 1
    ensures AllUsed(d, l, a, n)
  {
    FreeInode(d, l, g, i);
    forall m: nat | Numbered(l, m) && l.firstUnreserved + 8 < m < n && a <= Quot(m - 1, l.perGroup)
      ensures Used(d, l, m)
    {
      Place(l, m);
      var h, j := Quot(m - 1, l.perGroup), Rem(m - 1, l.perGroup);
      GroupBefore(l.perGroup, g, i, m - 1);
      assert h < g ==> NoneBelow(d, l, h, Width(l));
      assert !Free(d, l, h, j);
    }
  }

  /** An index before bit `i` of group `g` lies in a group before, or in `g` before that bit. */
  lemma GroupBefore(p: nat, g: nat, i: nat, x: nat)
    requires p > 0 && i < p && x < p * g + i
    ensures Quot(x, p) <= g && x == p * Quot(x, p) + Rem(x, p) && (Quot(x, p) == g ==> Rem(x, p) < i)
  {
    QuotRem(x, p);
    if g < Quot(x, p) {
      MulGap(p, g, Quot(x, p));
    }
  }

  /** A hit from `a` on gives a usable answer. */
  lemma Found(d: seq<byte>, l: Layout, a: nat, g: nat, i: nat)
    requires LayoutOk(l, |d|) && Padded(d, l) && Search(d, l, a, g, i)
    ensures Usable(d, l, l.perGroup * g + i + 1) && Answers(d, l, a, l.perGroup * g + i + 1)
    ensures l.perGroup * g + i + 1 > l.firstUnreserved
    ensures !Exhausted(d, l, a, |l.bitmap|) && !Exhausted(d, l, 0, |l.bitmap|)
  {
    FreeInode(d, l, g, i);
    SearchUnique(d, l, a, g, i);
  }

  lemma NoSearch(d: seq<byte>, l: Layout, a: nat)
    requires LayoutOk(l, |d|) && Exhausted(d, l, a, |l.bitmap|)
    ensures forall g, i :: 0 <= g && 0 <= i ==> !Search(d, l, a, g, i)
  {
    forall g, i | 0 <= g && 0 <= i ensures !Search(d, l, a, g, i) {
      if a <= g < |l.bitmap| {
        assert NoneBelow(d, l, g, Width(l));
      }
    }
  }

  /** There is at most one place the search can stop at. */
  lemma SearchUnique(d: seq<byte>, l: Layout, a: nat, g: nat, i: nat)
    requires LayoutOk(l, |d|) && Search(d, l, a, g, i)
    ensures !Exhausted(d, l, a, |l.bitmap|) && !Exhausted(d, l, 0, |l.bitmap|)
    ensures forall h, j :: 0 <= h && 0 <= j && Search(d, l, a, h, j) ==> h == g && j == i
  {
    assert !NoneBelow(d, l, g, Width(l));
    forall h, j | 0 <= h && 0 <= j && Search(d, l, a, h, j) ensures h == g && j == i {
      assert !NoneBelow(d, l, h, Width(l));
    }
  }

  /** The first clear bit of the first byte that is neither skipped nor full. */
  lemma FirstInByte(d: seq<byte>, l: Layout, g: nat, c: nat, n: nat)
    requires LayoutOk(l, |d|) && g < |l.bitmap| && c < SECTOR * l.blockSectors && n < 8
    requires NoneBelow(d, l, g, 8 * c) && !Skipped(l, g, c)
    requires var b := d[At(l, g, 8 * c)]; !IsSet(b, n) && forall k :: 0 <= k < n ==> IsSet(b, k)
    ensures First(d, l, g, 8 * c + n)
  {
    var x := At(l, g, 8 * c);
    forall i | 0 <= i < 8 * c + n ensures !Free(d, l, g, i) {
      if 8 * c <= i {
        assert At(l, g, i) == x && i % 8 == i - 8 * c;
      }
    }
    assert At(l, g, 8 * c + n) == x && (8 * c + n) % 8 == n;
  }

  /** A skipped byte, or one with all bits set, offers nothing. */
  lemma ByteExhausted(d: seq<byte>, l: Layout, g: nat, c: nat)
    requires LayoutOk(l, |d|) && g < |l.bitmap| && c < SECTOR * l.blockSectors
    requires NoneBelow(d, l, g, 8 * c) && (Skipped(l, g, c) || d[At(l, g, 8 * c)] == 255)
    ensures NoneBelow(d, l, g, 8 * c + 8)
  {
    FullByte();
    forall i | 0 <= i < 8 * c + 8 ensures !Free(d, l, g, i) {
      if 8 * c <= i {
        assert At(l, g, i) == At(l, g, 8 * c) && i / 8 == c;
      }
    }
  }
}
