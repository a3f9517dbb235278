/** An ext2 volume: the block device, the group descriptors, the inode table and
    the block bitmaps.  Reads beyond the device yield zeros and writes there are
    dropped, so that every block number the driver computes has a meaning. */
module Ext2Volume {
  import opened Arith
  import opened Bytes

  const BGDS_BLK := 2
  const INODE_BYTES := 128
  const BGD_BYTES := 32

  type Block = seq<byte>
  type Disk = seq<Block>

  /** The superblock fields the driver uses. */
  datatype Geometry = Geometry(blksize: nat, inodeSize: nat, inodesPerGrp: nat, blksPerGrp: nat) {
    predicate Valid() {
      && 512 <= blksize < 0x1_0000 && blksize % 512 == 0
      && INODE_BYTES <= inodeSize <= blksize && Rem(blksize, inodeSize) == 0
      && inodesPerGrp > 0
      && blksPerGrp == 8 * blksize
    }

    function InodesPerBlock(): (q: nat)
      requires Valid()
      ensures q > 0 && Times(q, inodeSize) == blksize
    {
      QuotRem(blksize, inodeSize);
      Quot(blksize, inodeSize)
    }
  }

  /** A group descriptor; `rest` holds the fields the block allocator leaves alone. */
  datatype Bgd = Bgd(blockBmp: nat, inodeBmp: nat, inodeTbl: nat, freeBlocks: nat, rest: seq<byte>) {
    predicate Valid() {
      blockBmp < 0x1_0000_0000 && inodeBmp < 0x1_0000_0000 && inodeTbl < 0x1_0000_0000
      && freeBlocks < 0x1_0000 && |rest| == BGD_BYTES - 14
    }

    function Encode(): (b: seq<byte>)
      requires Valid()
      ensures |b| == BGD_BYTES
    {
      Enc32(blockBmp) + Enc32(inodeBmp) + Enc32(inodeTbl) + Enc16(freeBlocks) + rest
    }
  }

  /** The fields of `struct ext2_bgd` by their offsets. */
  lemma BgdFields(g: Bgd)
    requires g.Valid()
    ensures var b := g.Encode();
      U32(b, 0) == g.blockBmp && U32(b, 4) == g.inodeBmp && U32(b, 8) == g.inodeTbl && U16(b, 12) == g.freeBlocks
  {
    var x, y, z, n := Enc32(g.blockBmp), Enc32(g.inodeBmp), Enc32(g.inodeTbl), Enc16(g.freeBlocks);
    var b := g.Encode();
    assert b == [] + x + (y + z + n + g.rest) && b == x + y + (z + n + g.rest);
    assert b == (x + y) + z + (n + g.rest) && b == (x + y + z) + n + g.rest;
    U32Field([], g.blockBmp, y + z + n + g.rest);
    U32Field(x, g.inodeBmp, z + n + g.rest);
    U32Field(x + y, g.inodeTbl, n + g.rest);
    U16Field(x + y + z, g.freeBlocks, g.rest);
  }

  function EncodeAll(gs: seq<Bgd>): (b: seq<byte>)
    requires forall i :: 0 <= i < |gs| ==> gs[i].Valid()
    ensures |b| == BGD_BYTES * |gs|
  {
    if gs == [] then [] else gs[0].Encode() + EncodeAll(gs[1..])
  }

  /** Descriptor `i` lies `i` times the size of one from the start. */
  lemma {:induction false} DescriptorAt(gs: seq<Bgd>, i: nat)
    requires i < |gs| && forall i :: 0 <= i < |gs| ==> gs[i].Valid()
    ensures EncodeAll(gs)[BGD_BYTES * i..BGD_BYTES * (i + 1)] == gs[i].Encode()
    decreases |gs|
  {
    var head, tail := gs[0].Encode(), EncodeAll(gs[1..]);
    if i > 0 {
      DescriptorAt(gs[1..], i - 1);
      assert (head + tail)[BGD_BYTES * i..BGD_BYTES * (i + 1)] == tail[BGD_BYTES * (i - 1)..BGD_BYTES * i];
    } else {
      assert (head + tail)[..BGD_BYTES] == head;
    }
  }

  // ---------------------------------------------------------------- device

  function Rd(bs: nat, disk: Disk, b: nat): Block {
    if b < |disk| then disk[b] else seq(bs, _ => 0)
  }

  function Wr(disk: Disk, b: nat, buf: Block): Disk {
    if b < |disk| then disk[b := buf] else disk
  }

  // ---------------------------------------------------------------- bitmaps

  /** `v & (1 << k)`, one binary digit at a time. */
  predicate TestBit(v: nat, k: nat) {
    if k == 0 then v % 2 == 1 else TestBit(v / 2, k - 1)
  }

  /** `v | (1 << k)`. */
  function OrBit(v: nat, k: nat): (r: nat)
    ensures forall i: nat :: TestBit(r, i) <==> i == k || TestBit(v, i)
  {
    if k == 0 then v / 2 * 2 + 1
    else
      var r := OrBit(v / 2, k - 1) * 2 + v % 2;
      assert forall i: nat :: i > 0 ==> TestBit(r, i) == TestBit(r / 2, i - 1);
      r
  }

  lemma OrBitInByte(v: byte, k: nat)
    requires k < 8
    ensures OrBit(v, k) < 256
  {
    assert Pow2(8) == 256 by { assert Pow2(4) == 16; }
    OrBitBound(v, k, 8);
  }

  function Pow2(n: nat): nat { if n == 0 then 1 else 2 * Pow2(n - 1) }

  lemma {:induction false} OrBitBound(v: nat, k: nat, n: nat)
    requires k < n && v < Pow2(n)
    ensures OrBit(v, k) < Pow2(n)
  {
    Halves(v, Pow2(n - 1));
    if k > 0 {
      OrBitBound(v / 2, k - 1, n - 1);
      Doubles(OrBit(v / 2, k - 1), v, Pow2(n - 1));
    }
  }

  lemma Halves(v: nat, p: nat)
    requires v < 2 * p
    ensures v / 2 < p && v / 2 * 2 + 1 < 2 * p
  {}

  lemma Doubles(x: nat, v: nat, p: nat)
    requires x < p
    ensures x * 2 + v % 2 < 2 * p
  {}

  /** `buf[j / 8] & (1 << (j % 8))` */
  predicate Bit(b: Block, j: nat)
    requires j < 8 * |b|
  {
    TestBit(b[j / 8], j % 8)
  }

  /** `buf[j / 8] |= (1 << (j % 8))` */
  function SetBit(b: Block, j: nat): (r: Block)
    requires j < 8 * |b|
    ensures |r| == |b|
    ensures forall i :: 0 <= i < 8 * |b| ==> (Bit(r, i) <==> i == j || Bit(b, i))
  {
    OrBitInByte(b[j / 8], j % 8);
    b[j / 8 := OrBit(b[j / 8], j % 8)]
  }

  /** Bit `j` has the weight `1 << (j % 8)` in byte `j / 8`. */
  lemma SetBitAdds(b: Block, j: nat)
    requires j < 8 * |b| && !Bit(b, j)
    ensures var r := SetBit(b, j);
      r[j / 8] == b[j / 8] + Pow2(j % 8) && forall i :: 0 <= i < |b| && i != j / 8 ==> r[i] == b[i]
  {
    OrBitAdds(b[j / 8], j % 8);
  }

  lemma {:induction false} OrBitAdds(v: nat, k: nat)
    requires !TestBit(v, k)
    ensures OrBit(v, k) == v + Pow2(k)
  {
    if k > 0 {
      OrBitAdds(v / 2, k - 1);
    }
  }

  function ClearBits(b: Block, n: nat): nat
    requires n <= 8 * |b|
  {
    if n == 0 then 0 else ClearBits(b, n - 1) + if Bit(b, n - 1) then 0 else 1
  }

  lemma {:induction false} ClearBitsSet(b: Block, j: nat, n: nat)
    requires j < 8 * |b| && n <= 8 * |b| && !Bit(b, j)
    ensures ClearBits(SetBit(b, j), n) == ClearBits(b, n) - if j < n then 1 else 0
  {
    if n > 0 {
      ClearBitsSet(b, j, n - 1);
    }
  }

  lemma {:induction false} ClearBitsZero(b: Block, n: nat)
    requires n <= 8 * |b|
    ensures ClearBits(b, n) == 0 <==> forall j :: 0 <= j < n ==> Bit(b, j)
  {
    if n > 0 {
      ClearBitsZero(b, n - 1);
    }
  }

  // ---------------------------------------------------------------- layout

  /** What a metadata block is used for. */
  datatype Role = Descriptors | BlockBitmap(g: nat) | InodeBitmap(g: nat) | InodeTable(g: nat)

  predicate Plays(geo: Geometry, gs: seq<Bgd>, b: nat, r: Role)
    requires geo.Valid()
  {
    match r
    case Descriptors => b == BGDS_BLK
    case BlockBitmap(g) => g < |gs| && b == gs[g].blockBmp
    case InodeBitmap(g) => g < |gs| && b == gs[g].inodeBmp
    case InodeTable(g) =>
      g < |gs| && gs[g].inodeTbl <= b <= gs[g].inodeTbl + Quot(geo.inodesPerGrp - 1, geo.InodesPerBlock())
  }

  /** Bit `j` of group `g`'s block bitmap is clear. */
  predicate FreeBit(geo: Geometry, gs: seq<Bgd>, disk: Disk, g: nat, j: nat) {
    && g < |gs| && j < 8 * geo.blksize
    && gs[g].blockBmp < |disk| && |disk[gs[g].blockBmp]| == geo.blksize
    && !Bit(disk[gs[g].blockBmp], j)
  }

  /** Block number of bit `j` in group `g`; block numbers start at 1. */
  function BlockNo(geo: Geometry, g: nat, j: nat): nat {
    Times(g, geo.blksPerGrp) + j + 1
  }

  /** Bit 0 of group 0 is block 1, and the bits of all groups number the blocks from there on. */
  lemma BlocksNumbered(geo: Geometry, g: nat, j: nat)
    requires geo.Valid()
    ensures BlockNo(geo, 0, 0) == 1
    ensures BlockNo(geo, g, j + 1) == BlockNo(geo, g, j) + 1
    ensures BlockNo(geo, g + 1, 0) == BlockNo(geo, g, 8 * geo.blksize - 1) + 1
  {}

  /** Block `b` is free: some clear bit stands for it. */
  ghost predicate Free(geo: Geometry, gs: seq<Bgd>, disk: Disk, b: nat) {
    exists g: nat, j: nat :: FreeBit(geo, gs, disk, g, j) && BlockNo(geo, g, j) == b
  }

  /** The volume invariant: every block has the block size, no block plays two metadata
      roles, metadata blocks are on the device and allocated, free blocks are on the device,
      and each descriptor counts its bitmap's clear bits. */
  ghost predicate Consistent(geo: Geometry, gs: seq<Bgd>, disk: Disk) {
    && geo.Valid()
    && (forall i :: 0 <= i < |gs| ==> gs[i].Valid())
    && BGD_BYTES * |gs| <= geo.blksize
    && (forall b <- disk :: |b| == geo.blksize)
    && (forall b: nat, r, s :: Plays(geo, gs, b, r) && Plays(geo, gs, b, s) ==> r == s)
    && (forall b: nat, r :: Plays(geo, gs, b, r) ==> b < |disk| && !Free(geo, gs, disk, b))
    && (forall g: nat, j: nat :: FreeBit(geo, gs, disk, g, j) ==> BGDS_BLK < BlockNo(geo, g, j) < |disk|)
    && (forall g :: 0 <= g < |gs| ==> CountOk(geo, gs, disk, g))
  }

  ghost predicate CountOk(geo: Geometry, gs: seq<Bgd>, disk: Disk, g: nat)
    requires g < |gs|
  {
    && gs[g].blockBmp < |disk| && |disk[gs[g].blockBmp]| == geo.blksize
    && gs[g].freeBlocks == ClearBits(disk[gs[g].blockBmp], 8 * geo.blksize)
  }

  function TotalFree(gs: seq<Bgd>): nat {
    if gs == [] then 0 else gs[0].freeBlocks + TotalFree(gs[1..])
  }

  lemma {:induction false} TotalFreeTake(gs: seq<Bgd>, g: nat)
    requires g < |gs| && gs[g].freeBlocks > 0
    ensures TotalFree(Taken(gs, g)) == TotalFree(gs) - 1
  {
    var gs' := Taken(gs, g);
    if g > 0 {
      TotalFreeTake(gs[1..], g - 1);
      assert gs'[1..] == gs[1..][g - 1 := gs'[g]];
    } else {
      assert gs'[1..] == gs[1..];
    }
  }

  /** The two descriptor tables place the metadata alike. */
  ghost predicate SameLayout(gs: seq<Bgd>, gs': seq<Bgd>) {
    |gs| == |gs'| && forall g :: 0 <= g < |gs| ==>
      gs[g].(freeBlocks := 0) == gs'[g].(freeBlocks := 0)
  }

  lemma BlockNoInjective(geo: Geometry, g: nat, j: nat, h: nat, k: nat)
    requires geo.Valid() && j < 8 * geo.blksize && k < 8 * geo.blksize
    requires BlockNo(geo, g, j) == BlockNo(geo, h, k)
    ensures g == h && j == k
  {
    QuotRemUnique(BlockNo(geo, g, j) - 1, geo.blksPerGrp, g, j);
    QuotRemUnique(BlockNo(geo, h, k) - 1, geo.blksPerGrp, h, k);
  }

  /** The descriptors after taking a block of group `g`. */
  function Taken(gs: seq<Bgd>, g: nat): (r: seq<Bgd>)
    requires g < |gs| && gs[g].freeBlocks > 0
    ensures SameLayout(gs, r)
    ensures (forall i :: 0 <= i < |gs| ==> gs[i].Valid()) ==> forall i :: 0 <= i < |r| ==> r[i].Valid()
  {
    gs[g := gs[g].(freeBlocks := gs[g].freeBlocks - 1)]
  }

  /** The device after taking bit `j` of group `g` and rewriting the descriptors. */
  function TakenDisk(gs: seq<Bgd>, disk: Disk, g: nat, j: nat): (disk': Disk)
    requires g < |gs| && gs[g].freeBlocks > 0 && forall i :: 0 <= i < |gs| ==> gs[i].Valid()
    requires BGDS_BLK < |disk| && gs[g].blockBmp < |disk| && gs[g].blockBmp != BGDS_BLK
    requires j < 8 * |disk[gs[g].blockBmp]| && BGD_BYTES * |gs| <= |disk[BGDS_BLK]|
    ensures |disk'| == |disk|
    ensures disk'[gs[g].blockBmp] == SetBit(disk[gs[g].blockBmp], j)
    ensures |disk'[BGDS_BLK]| == |disk[BGDS_BLK]|
    ensures disk'[BGDS_BLK][..BGD_BYTES * |gs|] == EncodeAll(Taken(gs, g))
    ensures forall b :: 0 <= b < |disk| && b != BGDS_BLK && b != gs[g].blockBmp ==> disk'[b] == disk[b]
  {
    var bmp := gs[g].blockBmp;
    var disk1 := disk[bmp := SetBit(disk[bmp], j)];
    disk1[BGDS_BLK := Blit(disk1[BGDS_BLK], 0, EncodeAll(Taken(gs, g)))]
  }

  /** What consistency says about two groups' bitmaps. */
  lemma Bitmaps(geo: Geometry, gs: seq<Bgd>, disk: Disk, g: nat, h: nat)
    requires Consistent(geo, gs, disk) && g < |gs| && h < |gs|
    ensures BGDS_BLK < |disk| && |disk[BGDS_BLK]| == geo.blksize
    ensures gs[g].blockBmp < |disk| && |disk[gs[g].blockBmp]| == geo.blksize
    ensures gs[g].blockBmp != BGDS_BLK
    ensures g != h ==> gs[g].blockBmp != gs[h].blockBmp
  {
    assert Plays(geo, gs, BGDS_BLK, Descriptors);
    assert Plays(geo, gs, gs[g].blockBmp, BlockBitmap(g));
    assert Plays(geo, gs, gs[h].blockBmp, BlockBitmap(h));
  }

  /** Taking a clear bit removes exactly that bit from the free ones. */
  lemma TakeFreeBit(geo: Geometry, gs: seq<Bgd>, disk: Disk, g: nat, j: nat)
    requires Consistent(geo, gs, disk) && FreeBit(geo, gs, disk, g, j) && gs[g].freeBlocks > 0
    ensures gs[g].blockBmp != BGDS_BLK < |disk| && |disk[BGDS_BLK]| == geo.blksize
    ensures forall h: nat, k: nat :: FreeBit(geo, Taken(gs, g), TakenDisk(gs, disk, g, j), h, k)
                               <==> FreeBit(geo, gs, disk, h, k) && !(h == g && k == j)
  {
    Bitmaps(geo, gs, disk, g, g);
    var gs', disk' := Taken(gs, g), TakenDisk(gs, disk, g, j);
    forall h: nat, k: nat
      ensures FreeBit(geo, gs', disk', h, k) <==> FreeBit(geo, gs, disk, h, k) && !(h == g && k == j)
    {
      if h < |gs| {
        Bitmaps(geo, gs, disk, h, g);
      }
    }
  }

  /** Taking a clear bit removes exactly one block from the free set. */
  lemma TakeFree(geo: Geometry, gs: seq<Bgd>, disk: Disk, g: nat, j: nat)
    requires Consistent(geo, gs, disk) && FreeBit(geo, gs, disk, g, j) && gs[g].freeBlocks > 0
    ensures gs[g].blockBmp != BGDS_BLK < |disk| && |disk[BGDS_BLK]| == geo.blksize
    ensures forall b: nat :: Free(geo, Taken(gs, g), TakenDisk(gs, disk, g, j), b)
                        <==> Free(geo, gs, disk, b) && b != BlockNo(geo, g, j)
  {
    TakeFreeBit(geo, gs, disk, g, j);
    forall h: nat, k: nat | FreeBit(geo, gs, disk, h, k) && BlockNo(geo, h, k) == BlockNo(geo, g, j)
      ensures h == g && k == j
    {
      BlockNoInjective(geo, g, j, h, k);
    }
  }

  /** Taking a clear bit keeps the volume consistent. */
  lemma TakeBlock(geo: Geometry, gs: seq<Bgd>, disk: Disk, g: nat, j: nat)
    requires Consistent(geo, gs, disk) && FreeBit(geo, gs, disk, g, j) && gs[g].freeBlocks > 0
    ensures gs[g].blockBmp != BGDS_BLK < |disk| && |disk[BGDS_BLK]| == geo.blksize
    ensures Consistent(geo, Taken(gs, g), TakenDisk(gs, disk, g, j))
  {
    TakeFreeBit(geo, gs, disk, g, j);
    TakeFree(geo, gs, disk, g, j);
    var gs', disk' := Taken(gs, g), TakenDisk(gs, disk, g, j);
    forall b: nat, r ensures Plays(geo, gs', b, r) == Plays(geo, gs, b, r) {}
    ClearBitsSet(disk[gs[g].blockBmp], j, 8 * geo.blksize);
    forall h | 0 <= h < |gs'| ensures CountOk(geo, gs', disk', h) {
      assert CountOk(geo, gs, disk, h);
      Bitmaps(geo, gs, disk, h, g);
    }
  }

  // ---------------------------------------------------------------- the driver's volume

  class Volume {
    const geo: Geometry
    var groups: seq<Bgd>
    var disk: Disk

    constructor (geo: Geometry, groups: seq<Bgd>, disk: Disk)
      ensures this.geo == geo && this.groups == groups && this.disk == disk
    {
      this.geo, this.groups, this.disk := geo, groups, disk;
    }

    ghost predicate Valid() reads this { Consistent(geo, groups, disk) }
  }

  /** A block the allocator may write: the descriptors or a block bitmap. */
  predicate AllocMeta(gs: seq<Bgd>, b: nat) {
    b == BGDS_BLK || exists g :: 0 <= g < |gs| && b == gs[g].blockBmp
  }

  /** The two devices differ at most in such blocks. */
  ghost predicate OnlyAllocMeta(gs: seq<Bgd>, disk: Disk, disk': Disk) {
    |disk'| == |disk| && forall b: nat :: b < |disk| && !AllocMeta(gs, b) ==> disk'[b] == disk[b]
  }

  /** `ext2_rewrite_bgds`: the first descriptor block is read, patched and written back. */
  method RewriteBgds(vol: Volume)
    requires BGDS_BLK < |vol.disk| && BGD_BYTES * |vol.groups| <= |vol.disk[BGDS_BLK]|
    requires forall i :: 0 <= i < |vol.groups| ==> vol.groups[i].Valid()
    modifies vol`disk
    ensures vol.disk == old(vol.disk)[BGDS_BLK := Blit(old(vol.disk)[BGDS_BLK], 0, EncodeAll(vol.groups))]
  {
    var buf := Rd(vol.geo.blksize, vol.disk, BGDS_BLK);
    buf := Blit(buf, 0, EncodeAll(vol.groups));
    vol.disk := Wr(vol.disk, BGDS_BLK, buf);
  }

  /** The inner scan of `ext2_alloc_blk`: the first clear bit, or `8 * |buf|`. */
  method FirstClear(buf: Block) returns (j: nat)
    ensures j <= 8 * |buf| && (j < 8 * |buf| ==> !Bit(buf, j))
    ensures forall k :: 0 <= k < j ==> Bit(buf, k)
  {
    j := 0;
    while j < |buf| * 8 && Bit(buf, j)
      invariant 0 <= j <= 8 * |buf|
      invariant forall k :: 0 <= k < j ==> Bit(buf, k)
    {
      j := j + 1;
    }
  }

  /** The write-back of `ext2_alloc_blk`: bitmap first, then the descriptors. */
  method TakeBit(vol: Volume, buf: Block, g: nat, j: nat)
    requires vol.Valid() && FreeBit(vol.geo, vol.groups, vol.disk, g, j) && vol.groups[g].freeBlocks > 0
    requires buf == vol.disk[vol.groups[g].blockBmp]
    modifies vol
    ensures vol.Valid() && vol.groups == old(Taken(vol.groups, g))
    ensures old(vol.groups)[g].blockBmp != BGDS_BLK < |old(vol.disk)| && |old(vol.disk)[BGDS_BLK]| == vol.geo.blksize
    ensures vol.disk == old(TakenDisk(vol.groups, vol.disk, g, j))
  {
    TakeBlock(vol.geo, vol.groups, vol.disk, g, j);
    vol.disk := Wr(vol.disk, vol.groups[g].blockBmp, SetBit(buf, j));
    vol.groups := vol.groups[g := vol.groups[g].(freeBlocks := vol.groups[g].freeBlocks - 1)];
    RewriteBgds(vol);
  }

  /** The group scan of `ext2_alloc_blk`: the lowest free block's group and bit. */
  method FindFree(vol: Volume) returns (g: nat, j: nat, buf: Block)
    requires vol.Valid()
    ensures g <= |vol.groups| && (g == |vol.groups| <==> TotalFree(vol.groups) == 0)
    ensures g < |vol.groups| ==>
      && FreeBit(vol.geo, vol.groups, vol.disk, g, j) && vol.groups[g].freeBlocks > 0
      && buf == vol.disk[vol.groups[g].blockBmp]
    ensures forall b: nat :: Free(vol.geo, vol.groups, vol.disk, b) ==> g < |vol.groups| && b >= BlockNo(vol.geo, g, j)
  {
    g, j, buf := 0, 0, [];
    while g < |vol.groups|
      invariant 0 <= g <= |vol.groups|
      invariant forall h: nat, k: nat :: h < g ==> !FreeBit(vol.geo, vol.groups, vol.disk, h, k)
      invariant forall h :: 0 <= h < g ==> vol.groups[h].freeBlocks == 0
    {
      assert CountOk(vol.geo, vol.groups, vol.disk, g);
      ClearBitsZero(vol.disk[vol.groups[g].blockBmp], 8 * vol.geo.blksize);
      if vol.groups[g].freeBlocks != 0 {
        buf := Rd(vol.geo.blksize, vol.disk, vol.groups[g].blockBmp);
        j := FirstClear(buf);
        if j != vol.geo.blksize * 8 {
          Lowest(vol.geo, vol.groups, vol.disk, g, j);
          break;
        }
      }
      g := g + 1;
    }
    TotalFreeZero(vol.groups);
  }

  /** `ext2_alloc_blk`: takes the lowest free block, or returns 0 when there is none. */
  method AllocBlk(vol: Volume) returns (r: nat)
    requires vol.Valid()
    modifies vol
    ensures vol.Valid() && SameLayout(old(vol.groups), vol.groups) && |vol.disk| == |old(vol.disk)|
    ensures r == 0 <==> TotalFree(old(vol.groups)) == 0
    ensures r == 0 ==>
      vol.disk == old(vol.disk) && vol.groups == old(vol.groups)
        && forall b: nat :: !Free(vol.geo, vol.groups, vol.disk, b)
    ensures r != 0 ==> Free(vol.geo, old(vol.groups), old(vol.disk), r) && BGDS_BLK < r < |vol.disk|
    ensures r != 0 ==> forall b: nat :: Free(vol.geo, old(vol.groups), old(vol.disk), b) ==> r <= b
    ensures r != 0 ==> forall b: nat ::
      Free(vol.geo, vol.groups, vol.disk, b) <==> Free(vol.geo, old(vol.groups), old(vol.disk), b) && b != r
    ensures r != 0 ==> TotalFree(vol.groups) == TotalFree(old(vol.groups)) - 1
    ensures OnlyAllocMeta(old(vol.groups), old(vol.disk), vol.disk)
  {
    var i, j, buf := FindFree(vol);
    if i == |vol.groups| { return 0; }
    TakeFree(vol.geo, vol.groups, vol.disk, i, j);
    TotalFreeTake(vol.groups, i);
    r := BlockNo(vol.geo, i, j);
    assert BGDS_BLK < r < |vol.disk| && Free(vol.geo, vol.groups, vol.disk, r);
    TakeBit(vol, buf, i, j);
  }

  /** Successive calls return different blocks, each free before and none after, until the counted ones are used up. */
  method AllocBlks(vol: Volume, n: nat) returns (bs: seq<nat>)
    requires vol.Valid()
    modifies vol
    ensures vol.Valid() && |bs| == (if n <= TotalFree(old(vol.groups)) then n else TotalFree(old(vol.groups)))
    ensures forall i, j :: 0 <= i < j < |bs| ==> bs[i] < bs[j]
    ensures forall b: nat ::
      Free(vol.geo, old(vol.groups), old(vol.disk), b) <==> Free(vol.geo, vol.groups, vol.disk, b) || b in bs
    ensures forall b: nat :: Free(vol.geo, vol.groups, vol.disk, b) ==> b !in bs
    ensures TotalFree(vol.groups) == TotalFree(old(vol.groups)) - |bs|
  {
    ghost var gs, disk := vol.groups, vol.disk;
    bs := [];
    while |bs| < n
      invariant vol.Valid() && |bs| <= n && TotalFree(vol.groups) == TotalFree(gs) - |bs|
      invariant forall i, j :: 0 <= i < j < |bs| ==> bs[i] < bs[j]
      invariant forall b: nat :: Free(vol.geo, gs, disk, b) <==> Free(vol.geo, vol.groups, vol.disk, b) || b in bs
      invariant forall b: nat, i :: Free(vol.geo, vol.groups, vol.disk, b) && 0 <= i < |bs| ==> bs[i] < b
    {
      var r := AllocBlk(vol);
      if r == 0 { return; }
      bs := bs + [r];
    }
  }

  lemma {:induction false} TotalFreeZero(gs: seq<Bgd>)
    ensures TotalFree(gs) == 0 <==> forall g :: 0 <= g < |gs| ==> gs[g].freeBlocks == 0
  {
    if gs != [] {
      TotalFreeZero(gs[1..]);
      assert forall g :: 0 < g < |gs| ==> gs[g] == gs[1..][g - 1];
    }
  }

  /** The first clear bit of the first group that has one stands for the lowest free block. */
  lemma Lowest(geo: Geometry, gs: seq<Bgd>, disk: Disk, g: nat, j: nat)
    requires geo.Valid() && FreeBit(geo, gs, disk, g, j)
    requires forall h: nat, k: nat :: h < g ==> !FreeBit(geo, gs, disk, h, k)
    requires forall k :: 0 <= k < j ==> Bit(disk[gs[g].blockBmp], k)
    ensures forall b: nat :: b < BlockNo(geo, g, j) ==> !Free(geo, gs, disk, b)
  {
    forall h: nat, k: nat | FreeBit(geo, gs, disk, h, k)
      ensures BlockNo(geo, h, k) >= BlockNo(geo, g, j)
    {
      if h > g {
        TimesMono(g, h, geo.blksPerGrp);
      }
    }
  }
}
