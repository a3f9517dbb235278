/** The inode table: where an inode lives on the device, reading it and writing it back. */
module Ext2Inode {
  import opened Arith
  import opened Bytes
  import opened Ext2Volume

  /** `struct ext2_inode`, kept as the bytes that are copied to and from the table. */
  type Inode = s: seq<byte> | |s| == INODE_BYTES witness seq(INODE_BYTES, _ => 0)

  /** Group of inode `num`, and its index in the group's table; inode numbers start at 1. */
  function Grp(geo: Geometry, num: nat): nat
    requires geo.Valid() && num > 0
  {
    Quot(num - 1, geo.inodesPerGrp)
  }

  function Idx(geo: Geometry, num: nat): nat
    requires geo.Valid() && num > 0
  {
    Rem(num - 1, geo.inodesPerGrp)
  }

  /** Inode 1 is at index 0 of group 0; the next inode is at the next index, or at the start of the next group. */
  lemma InodesNumbered(geo: Geometry, num: nat)
    requires geo.Valid() && num > 0
    ensures Grp(geo, 1) == 0 && Idx(geo, 1) == 0
    ensures if Idx(geo, num) + 1 < geo.inodesPerGrp
            then Grp(geo, num + 1) == Grp(geo, num) && Idx(geo, num + 1) == Idx(geo, num) + 1
            else Grp(geo, num + 1) == Grp(geo, num) + 1 && Idx(geo, num + 1) == 0
  {
    var n, q, r := geo.inodesPerGrp, Grp(geo, num), Idx(geo, num);
    QuotRem(num - 1, n);
    if r + 1 < n {
      QuotRemUnique(num, n, q, r + 1);
    } else {
      QuotRemUnique(num, n, q + 1, 0);
    }
  }

  predicate HasInode(geo: Geometry, gs: seq<Bgd>, num: nat) {
    geo.Valid() && num > 0 && Grp(geo, num) < |gs|
  }

  /** Block that holds index `i` of the inode table starting at block `table`. */
  function SlotBlk(geo: Geometry, table: nat, i: nat): nat
    requires geo.Valid()
  {
    Quot(Times(table, geo.blksize) + Times(i, geo.inodeSize), geo.blksize)
  }

  /** Offset of index `i` in that block. */
  function SlotOff(geo: Geometry, i: nat): nat
    requires geo.Valid()
  {
    Rem(Times(i, geo.inodeSize), geo.blksize)
  }

  /** Index `i` of a table, split by the number of inodes a block holds. */
  lemma SlotSplit(geo: Geometry, table: nat, i: nat)
    requires geo.Valid()
    ensures geo.InodesPerBlock() > 0
    ensures SlotBlk(geo, table, i) == table + Quot(i, geo.InodesPerBlock())
    ensures SlotOff(geo, i) == Times(Rem(i, geo.InodesPerBlock()), geo.inodeSize)
    ensures SlotOff(geo, i) + geo.inodeSize <= geo.blksize
  {
    var q, sz, bs := geo.InodesPerBlock(), geo.inodeSize, geo.blksize;
    var d, m := Quot(i, q), Rem(i, q);
    QuotRem(i, q);
    TimesAdd(Times(d, q), m, sz);
    TimesTimes(d, q, sz);
    TimesMono(m, q, sz);
    QuotRemUnique(Times(i, sz), bs, d, Times(m, sz));
    TimesAdd(table, d, bs);
    QuotRemUnique(Times(table, bs) + Times(i, sz), bs, table + d, Times(m, sz));
  }

  /** The slots of a table lie one behind the other, from the start of its first block on. */
  lemma SlotsInRow(geo: Geometry, table: nat, i: nat)
    requires geo.Valid()
    ensures Times(SlotBlk(geo, table, i), geo.blksize) + SlotOff(geo, i)
         == Times(table, geo.blksize) + Times(i, geo.inodeSize)
  {
    SlotSplit(geo, table, i);
    var q, sz, bs := geo.InodesPerBlock(), geo.inodeSize, geo.blksize;
    var d, m := Quot(i, q), Rem(i, q);
    QuotRem(i, q);
    TimesAdd(table, d, bs);
    TimesAdd(Times(d, q), m, sz);
    TimesTimes(d, q, sz);
  }

  /** A slot lies inside one block of its group's table. */
  lemma SlotInTable(geo: Geometry, gs: seq<Bgd>, g: nat, i: nat)
    requires geo.Valid() && g < |gs| && i < geo.inodesPerGrp
    ensures SlotOff(geo, i) + INODE_BYTES <= geo.blksize
    ensures Plays(geo, gs, SlotBlk(geo, gs[g].inodeTbl, i), InodeTable(g))
  {
    SlotSplit(geo, gs[g].inodeTbl, i);
    QuotMono(i, geo.inodesPerGrp - 1, geo.InodesPerBlock());
  }

  /** Two slots of one table never share a byte. */
  lemma SlotsDisjoint(geo: Geometry, table: nat, i: nat, k: nat)
    requires geo.Valid() && i < k && SlotBlk(geo, table, i) == SlotBlk(geo, table, k)
    ensures SlotOff(geo, i) + INODE_BYTES <= SlotOff(geo, k)
  {
    SlotSplit(geo, table, i);
    SlotSplit(geo, table, k);
    var a, b, sz := Rem(i, geo.InodesPerBlock()), Rem(k, geo.InodesPerBlock()), geo.inodeSize;
    QuotRem(i, geo.InodesPerBlock());
    QuotRem(k, geo.InodesPerBlock());
    TimesMono(a, b, sz);
  }

  function InoBlk(geo: Geometry, gs: seq<Bgd>, num: nat): nat
    requires HasInode(geo, gs, num)
  {
    SlotBlk(geo, gs[Grp(geo, num)].inodeTbl, Idx(geo, num))
  }

  function InoOff(geo: Geometry, num: nat): nat
    requires geo.Valid() && num > 0
  {
    SlotOff(geo, Idx(geo, num))
  }

  lemma InoSlot(geo: Geometry, gs: seq<Bgd>, num: nat)
    requires HasInode(geo, gs, num)
    ensures InoOff(geo, num) + INODE_BYTES <= geo.blksize
    ensures Plays(geo, gs, InoBlk(geo, gs, num), InodeTable(Grp(geo, num)))
  {
    SlotInTable(geo, gs, Grp(geo, num), Idx(geo, num));
  }

  /** Two inodes never share a byte of the device. */
  lemma InodesDisjoint(geo: Geometry, gs: seq<Bgd>, disk: Disk, n: nat, m: nat)
    requires Consistent(geo, gs, disk) && HasInode(geo, gs, n) && HasInode(geo, gs, m) && n != m
    requires InoBlk(geo, gs, n) == InoBlk(geo, gs, m)
    ensures InoOff(geo, n) + INODE_BYTES <= InoOff(geo, m) || InoOff(geo, m) + INODE_BYTES <= InoOff(geo, n)
  {
    InoSlot(geo, gs, n);
    InoSlot(geo, gs, m);
    QuotRem(n - 1, geo.inodesPerGrp);
    QuotRem(m - 1, geo.inodesPerGrp);
    var g := Grp(geo, n);
    assert g == Grp(geo, m);
    if Idx(geo, n) < Idx(geo, m) {
      SlotsDisjoint(geo, gs[g].inodeTbl, Idx(geo, n), Idx(geo, m));
    } else if Idx(geo, m) < Idx(geo, n) {
      SlotsDisjoint(geo, gs[g].inodeTbl, Idx(geo, m), Idx(geo, n));
    }
  }

  /** What `ext2_read_inode` copies out. */
  function GetInode(geo: Geometry, gs: seq<Bgd>, disk: Disk, num: nat): Inode
    requires Consistent(geo, gs, disk) && HasInode(geo, gs, num)
  {
    InoSlot(geo, gs, num);
    disk[InoBlk(geo, gs, num)][InoOff(geo, num)..InoOff(geo, num) + INODE_BYTES]
  }

  /** The device after `ext2_write_inode`. */
  function PutInode(geo: Geometry, gs: seq<Bgd>, disk: Disk, num: nat, ino: Inode): (disk': Disk)
    requires Consistent(geo, gs, disk) && HasInode(geo, gs, num)
    ensures |disk'| == |disk| && InoBlk(geo, gs, num) < |disk|
    ensures forall b :: 0 <= b < |disk| && b != InoBlk(geo, gs, num) ==> disk'[b] == disk[b]
  {
    InoSlot(geo, gs, num);
    var b := InoBlk(geo, gs, num);
    disk[b := Blit(disk[b], InoOff(geo, num), ino)]
  }

  /** Writing inode `n` touches no bitmap, so the volume stays consistent and keeps its free blocks. */
  lemma PutInodeConsistent(geo: Geometry, gs: seq<Bgd>, disk: Disk, n: nat, ino: Inode)
    requires Consistent(geo, gs, disk) && HasInode(geo, gs, n)
    ensures Consistent(geo, gs, PutInode(geo, gs, disk, n, ino))
    ensures forall g: nat, j: nat ::
      FreeBit(geo, gs, PutInode(geo, gs, disk, n, ino), g, j) == FreeBit(geo, gs, disk, g, j)
  {
    InoSlot(geo, gs, n);
    var disk' := PutInode(geo, gs, disk, n, ino);
    forall g | 0 <= g < |gs|
      ensures gs[g].blockBmp != InoBlk(geo, gs, n) && CountOk(geo, gs, disk', g)
    {
      assert Plays(geo, gs, gs[g].blockBmp, BlockBitmap(g));
      assert CountOk(geo, gs, disk, g);
    }
    forall g: nat, j: nat ensures FreeBit(geo, gs, disk', g, j) == FreeBit(geo, gs, disk, g, j) {}
    forall b: nat ensures Free(geo, gs, disk', b) == Free(geo, gs, disk, b) {}
  }

  /** Reading back an inode yields what was last written to it, and no write reaches another inode. */
  lemma InodeReadBack(geo: Geometry, gs: seq<Bgd>, disk: Disk, n: nat, ino: Inode, m: nat)
    requires Consistent(geo, gs, disk) && HasInode(geo, gs, n) && HasInode(geo, gs, m)
    ensures Consistent(geo, gs, PutInode(geo, gs, disk, n, ino))
    ensures GetInode(geo, gs, PutInode(geo, gs, disk, n, ino), m) == if m == n then ino else GetInode(geo, gs, disk, m)
  {
    PutInodeConsistent(geo, gs, disk, n, ino);
    InoSlot(geo, gs, n);
    InoSlot(geo, gs, m);
    if m != n && InoBlk(geo, gs, n) == InoBlk(geo, gs, m) {
      InodesDisjoint(geo, gs, disk, n, m);
    }
  }

  /** Writing an inode changes that inode and nothing else: no other inode, no free block, no block without a role. */
  lemma PutInodeFrame(geo: Geometry, gs: seq<Bgd>, disk: Disk, n: nat, ino: Inode)
    requires Consistent(geo, gs, disk) && HasInode(geo, gs, n)
    ensures var disk' := PutInode(geo, gs, disk, n, ino);
      && Consistent(geo, gs, disk')
      && (forall b: nat :: Free(geo, gs, disk', b) == Free(geo, gs, disk, b))
      && (forall m: nat :: HasInode(geo, gs, m) ==>
            GetInode(geo, gs, disk', m) == if m == n then ino else GetInode(geo, gs, disk, m))
      && (forall b: nat :: b < |disk| && (forall r :: !Plays(geo, gs, b, r)) ==> disk'[b] == disk[b])
  {
    var disk' := PutInode(geo, gs, disk, n, ino);
    PutInodeConsistent(geo, gs, disk, n, ino);
    InoSlot(geo, gs, n);
    forall b: nat ensures Free(geo, gs, disk', b) == Free(geo, gs, disk, b) {}
    forall m: nat | HasInode(geo, gs, m)
      ensures GetInode(geo, gs, disk', m) == if m == n then ino else GetInode(geo, gs, disk, m)
    {
      InodeReadBack(geo, gs, disk, n, ino, m);
    }
  }

  /** `ext2_read_inode` */
  method ReadInode(vol: Volume, num: nat) returns (ino: Inode)
    requires vol.Valid() && HasInode(vol.geo, vol.groups, num)
    ensures ino == GetInode(vol.geo, vol.groups, vol.disk, num)
  {
    InoSlot(vol.geo, vol.groups, num);
    var buf := Rd(vol.geo.blksize, vol.disk, InoBlk(vol.geo, vol.groups, num));
    var off := InoOff(vol.geo, num);
    ino := buf[off..off + INODE_BYTES];
  }

  /** `ext2_write_inode` */
  method WriteInode(vol: Volume, num: nat, ino: Inode)
    requires vol.Valid() && HasInode(vol.geo, vol.groups, num)
    modifies vol`disk
    ensures vol.Valid()
    ensures vol.disk == old(PutInode(vol.geo, vol.groups, vol.disk, num, ino))
  {
    InoSlot(vol.geo, vol.groups, num);
    PutInodeConsistent(vol.geo, vol.groups, vol.disk, num, ino);
    var blk := InoBlk(vol.geo, vol.groups, num);
    var buf := Rd(vol.geo.blksize, vol.disk, blk);
    buf := Blit(buf, InoOff(vol.geo, num), ino);
    vol.disk := Wr(vol.disk, blk, buf);
  }
}
