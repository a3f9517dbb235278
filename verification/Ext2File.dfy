/** File contents on ext2: block pointers, growth, and block-wise reads and writes,
    refined to one flat array of bytes. */
module Ext2File {
  import opened Arith
  import opened Bytes
  import opened Ext2Volume
  import opened Ext2Inode

  const DIRECT := 12
  const INO_SIND := 12
  const INO_DIND := 13

  // ---------------------------------------------------------------- inode fields

  function Sectors(ino: Inode): nat { U32(ino, 28) }
  function Ptr(ino: Inode, i: nat): nat requires i < 15 { U32(ino, 40 + 4 * i) }
  function Size(ino: Inode): nat { U32(ino, 4) + 0x1_0000_0000 * U32(ino, 108) }

  function WithU32(ino: Inode, o: nat, v: nat): (r: Inode)
    requires o + 4 <= INODE_BYTES && v < 0x1_0000_0000
    ensures U32(r, o) == v
    ensures forall p: nat :: p + 4 <= INODE_BYTES && (p + 4 <= o || o + 4 <= p) ==> U32(r, p) == U32(ino, p)
  {
    Blit(ino, o, Enc32(v))
  }

  function EncPtrs(ps: seq<nat>): (b: seq<byte>)
    requires forall i :: 0 <= i < |ps| ==> ps[i] < 0x1_0000_0000
    ensures |b| == 4 * |ps|
  {
    if ps == [] then [] else EncPtrs(ps[..|ps| - 1]) + Enc32(ps[|ps| - 1])
  }

  /** The fields of `struct ext2_inode` in their order: `mode` and `uid`, the size, four times, `gid` and `nlink`, the
      sectors, flags and a word of its own for the system, the block pointers, two words, the upper half of the size. */
  lemma InodeFields(a: seq<byte>, size: nat, b: seq<byte>, sectors: nat, c: seq<byte>, ps: seq<nat>, d: seq<byte>,
                    upper: nat, e: seq<byte>, i: nat)
    requires |a| == 2 + 2 && |b| == 4 * 4 + 2 + 2 && |c| == 4 + 4 && |ps| == 15 && |d| == 4 + 4 && |e| == 4 + 12
    requires size < 0x1_0000_0000 && sectors < 0x1_0000_0000 && upper < 0x1_0000_0000 && i < 15
    requires forall i :: 0 <= i < |ps| ==> ps[i] < 0x1_0000_0000
    ensures var ino := a + Enc32(size) + b + Enc32(sectors) + c + EncPtrs(ps) + d + Enc32(upper) + e;
      && |ino| == INODE_BYTES && Size(ino) == size + 0x1_0000_0000 * upper && Sectors(ino) == sectors
      && Ptr(ino, i) == ps[i]
  {
    var x, y, z, p := Enc32(size), Enc32(sectors), Enc32(upper), EncPtrs(ps);
    var ino := a + x + b + y + c + p + d + z + e;
    var s1, s2 := a + x + b, c + p + d + z + e;
    assert ino == a + x + (b + y + s2);
    U32Field(a, size, b + y + s2);
    assert ino == s1 + y + s2;
    U32Field(s1, sectors, s2);
    assert ino == (s1 + y + c + p + d) + z + e;
    U32Field(s1 + y + c + p + d, upper, e);
    PtrField(s1 + y + c, ps, d + z + e, i);
    assert ino == (s1 + y + c) + p + (d + z + e);
  }

  lemma {:induction false} PtrField(a: seq<byte>, ps: seq<nat>, b: seq<byte>, i: nat)
    requires i < |ps| && forall i :: 0 <= i < |ps| ==> ps[i] < 0x1_0000_0000
    ensures U32(a + EncPtrs(ps) + b, |a| + 4 * i) == ps[i]
    decreases |ps|
  {
    var n := |ps| - 1;
    var p, x := EncPtrs(ps[..n]), Enc32(ps[n]);
    if i < n {
      PtrField(a, ps[..n], x + b, i);
      assert a + (p + x) + b == a + p + (x + b);
    } else {
      U32Field(a + p, ps[n], b);
      assert a + (p + x) + b == (a + p) + x + b;
    }
  }

  // ---------------------------------------------------------------- block pointers

  function PtrsPerBlock(bs: nat): nat { bs / 4 }
  function Dind(bs: nat): nat { INO_SIND + PtrsPerBlock(bs) }
  function Tind(bs: nat): nat { Dind(bs) + Times(PtrsPerBlock(bs), PtrsPerBlock(bs)) }

  /** The second-level pointer block for logical block `i` of the doubly indirect range. */
  function SecondBlk(bs: nat, disk: Disk, ino: Inode, i: nat): nat
    requires bs >= 4 && Sized(bs, disk) && Dind(bs) <= i < Tind(bs)
  {
    DindIndex(bs, i);
    U32(Rd(bs, disk, Ptr(ino, INO_DIND)), 4 * Quot(i - Dind(bs), PtrsPerBlock(bs)))
  }

  predicate Sized(bs: nat, disk: Disk) { forall b :: 0 <= b < |disk| ==> |disk[b]| == bs }

  lemma DindIndex(bs: nat, i: nat)
    requires bs >= 4 && Dind(bs) <= i < Tind(bs)
    ensures 4 * Quot(i - Dind(bs), PtrsPerBlock(bs)) + 4 <= bs
    ensures 4 * Rem(i - Dind(bs), PtrsPerBlock(bs)) + 4 <= bs
  {
    var n := PtrsPerBlock(bs);
    QuotRem(i - Dind(bs), n);
    if n < Quot(i - Dind(bs), n) {
      TimesMono(n, Quot(i - Dind(bs), n), n);
    }
  }

  /** `ext2_inode_blk`: the device block of logical block `i`. */
  function BlkOf(bs: nat, disk: Disk, ino: Inode, i: nat): nat
    requires bs >= 4 && Sized(bs, disk) && i < Tind(bs)
  {
    if i < INO_SIND then Ptr(ino, i)
    else if i < Dind(bs) then U32(Rd(bs, disk, Ptr(ino, INO_SIND)), 4 * (i - INO_SIND))
    else
      DindIndex(bs, i);
      U32(Rd(bs, disk, SecondBlk(bs, disk, ino, i)), 4 * Rem(i - Dind(bs), PtrsPerBlock(bs)))
  }

  /** Where the device block of a logical block is found: twelve in the inode; then as many as a block has pointers in
      the block of pointer 12; then, `x` full blocks of pointers and `y` pointers further, in entry `y` of the block in
      entry `x` of the block of pointer 13. */
  lemma Lookups(bs: nat, disk: Disk, ino: Inode, x: nat, y: nat)
    requires bs >= 4 && Sized(bs, disk) && x < bs / 4 && y < bs / 4
    ensures x < 12 ==> BlkOf(bs, disk, ino, x) == Ptr(ino, x)
    ensures BlkOf(bs, disk, ino, 12 + y) == U32(Rd(bs, disk, Ptr(ino, 12)), 4 * y)
    ensures var i := 12 + bs / 4 + Times(x, bs / 4) + y;
      i < Tind(bs) && BlkOf(bs, disk, ino, i) == U32(Rd(bs, disk, U32(Rd(bs, disk, Ptr(ino, 13)), 4 * x)), 4 * y)
  {
    var n := bs / 4;
    TimesMono(x, n, n);
    QuotRemUnique(Times(x, n) + y, n, x, y);
  }

  /** Distinct blocks of the device. */
  ghost predicate Distinct(bs: nat, disk: Disk, m: seq<nat>) {
    && Sized(bs, disk)
    && (forall i :: 0 <= i < |m| ==> m[i] < |disk|)
    && (forall i, j :: 0 <= i < j < |m| ==> m[i] != m[j])
  }

  /** Logical block `i` is stored in `m[i]`, and no block of `m` holds the pointers that lead there. */
  ghost predicate StoredAt(bs: nat, disk: Disk, ino: Inode, m: seq<nat>, i: nat)
    requires bs >= 4 && Sized(bs, disk) && i < |m| && i < Tind(bs)
  {
    && BlkOf(bs, disk, ino, i) == m[i]
    && (INO_SIND <= i < Dind(bs) ==> Ptr(ino, INO_SIND) !in m)
    && (Dind(bs) <= i ==> Ptr(ino, INO_DIND) !in m && SecondBlk(bs, disk, ino, i) !in m)
  }

  /** The file's logical blocks `0..|m|` are stored in the distinct device blocks `m`. */
  ghost predicate Mapped(bs: nat, disk: Disk, ino: Inode, m: seq<nat>) {
    && bs >= 4 && Distinct(bs, disk, m) && |m| < Tind(bs)
    && forall i :: 0 <= i < |m| ==> StoredAt(bs, disk, ino, m, i)
  }

  /** Changing data blocks of a file leaves its block map alone. */
  lemma MappedStable(bs: nat, disk: Disk, disk': Disk, ino: Inode, m: seq<nat>)
    requires Mapped(bs, disk, ino, m) && |disk'| == |disk| && Sized(bs, disk')
    requires forall b :: 0 <= b < |disk| && b !in m ==> disk'[b] == disk[b]
    ensures Mapped(bs, disk', ino, m)
  {
    forall i | 0 <= i < |m| ensures StoredAt(bs, disk', ino, m, i) {
      assert StoredAt(bs, disk, ino, m, i);
    }
  }

  // ---------------------------------------------------------------- flat contents

  /** The bytes of the blocks `m`, in order. */
  function Flat(bs: nat, disk: Disk, m: seq<nat>): (r: seq<byte>)
    requires Sized(bs, disk) && forall i :: 0 <= i < |m| ==> m[i] < |disk|
    ensures |r| == Times(|m|, bs)
  {
    if m == [] then [] else disk[m[0]] + Flat(bs, disk, m[1..])
  }

  lemma {:induction false} FlatSlice(bs: nat, disk: Disk, m: seq<nat>, i: nat, start: nat, n: nat)
    requires Distinct(bs, disk, m) && i < |m| && start + n <= bs
    ensures Times(i, bs) + start + n <= Times(|m|, bs)
    ensures Flat(bs, disk, m)[Times(i, bs) + start..Times(i, bs) + start + n] == disk[m[i]][start..start + n]
  {
    TimesMono(i, |m|, bs);
    var head, tail := disk[m[0]], Flat(bs, disk, m[1..]);
    if i > 0 {
      FlatSlice(bs, disk, m[1..], i - 1, start, n);
      var x := Times(i - 1, bs) + start;
      assert Times(i, bs) == Times(i - 1, bs) + bs && |head| == bs;
      SliceBehind(head, tail, x, x + n);
    } else {
      assert (head + tail)[start..start + n] == head[start..start + n];
    }
  }

  lemma SliceBehind<T>(a: seq<T>, b: seq<T>, x: nat, y: nat)
    requires x <= y <= |b|
    ensures (a + b)[|a| + x..|a| + y] == b[x..y]
  {}

  /** Patching one block patches the flat contents at that block's position. */
  lemma {:induction false} FlatWrite(bs: nat, disk: Disk, m: seq<nat>, i: nat, start: nat, chunk: seq<byte>)
    requires Distinct(bs, disk, m) && i < |m| && start + |chunk| <= bs
    ensures Times(i, bs) + start + |chunk| <= Times(|m|, bs)
    ensures Distinct(bs, disk[m[i] := Blit(disk[m[i]], start, chunk)], m)
    ensures Flat(bs, disk[m[i] := Blit(disk[m[i]], start, chunk)], m)
         == Blit(Flat(bs, disk, m), Times(i, bs) + start, chunk)
  {
    var disk' := disk[m[i] := Blit(disk[m[i]], start, chunk)];
    TimesMono(i, |m|, bs);
    var tail := Flat(bs, disk, m[1..]);
    if i > 0 {
      FlatWrite(bs, disk, m[1..], i - 1, start, chunk);
      BlitRight(disk[m[0]], tail, Times(i - 1, bs) + start, chunk);
    } else {
      FlatFrame(bs, disk, disk', m[1..]);
      BlitLeft(disk[m[0]], tail, start, chunk);
    }
  }

  lemma BlitLeft<T>(a: seq<T>, b: seq<T>, off: nat, c: seq<T>)
    requires off + |c| <= |a|
    ensures Blit(a + b, off, c) == Blit(a, off, c) + b
  {}

  lemma BlitRight<T>(a: seq<T>, b: seq<T>, off: nat, c: seq<T>)
    requires off + |c| <= |b|
    ensures Blit(a + b, |a| + off, c) == a + Blit(b, off, c)
  {}

  lemma {:induction false} FlatFrame(bs: nat, disk: Disk, disk': Disk, m: seq<nat>)
    requires Sized(bs, disk) && Sized(bs, disk') && |disk| == |disk'|
    requires forall i :: 0 <= i < |m| ==> m[i] < |disk| && disk'[m[i]] == disk[m[i]]
    ensures Flat(bs, disk', m) == Flat(bs, disk, m)
  {
    if m != [] {
      FlatFrame(bs, disk, disk', m[1..]);
    }
  }

  lemma BlitAppend<T>(s: seq<T>, off: nat, d: seq<T>, a: nat, b: nat)
    requires a <= b <= |d| && off + |d| <= |s|
    ensures Blit(Blit(s, off, d[..a]), off + a, d[a..b]) == Blit(s, off, d[..b])
  {}

  lemma SliceJoin<T>(s: seq<T>, a: nat, b: nat, c: nat)
    requires a <= b <= c <= |s|
    ensures s[a..b] + s[b..c] == s[a..c]
  {}

  // ---------------------------------------------------------------- transfers

  /** Where the byte at `x` lies: logical block and offset in it. */
  method Locate(bs: nat, x: nat) returns (q: nat, r: nat)
    requires bs > 0
    ensures x == Times(q, bs) + r && r < bs
  {
    q, r := x / bs, x % bs;
    QuotIsDiv(x, bs);
    QuotRem(x, bs);
  }

  /** Block `i` of a transfer from `(s, modoff)` to `(e, modend)` carries the consecutive
      bytes that lie in it. */
  lemma Parts(bs: nat, s: nat, modoff: nat, e: nat, modend: nat, i: nat)
    requires modoff < bs && modend < bs && s <= i <= e
    requires Times(s, bs) + modoff <= Times(e, bs) + modend
    ensures var start, end := if i == s then modoff else 0, if i == e then modend else bs;
      && start <= end && Times(s, bs) + modoff <= Times(i, bs) + start
      && Times(i, bs) + end <= Times(e, bs) + modend
  {
    if s < i {
      TimesMono(s, i, bs);
    }
    if i < e {
      TimesMono(i, e, bs);
    }
  }

  /** Start offset and byte count that `ext2_write` uses in block `i`. */
  method WriteSpan(bs: nat, startblk: nat, modoff: nat, endblk: nat, modend: nat, i: nat)
    returns (start: nat, wsize: nat)
    requires modoff < bs && modend < bs && startblk <= i <= endblk
    requires Times(startblk, bs) + modoff <= Times(endblk, bs) + modend
    ensures Times(i, bs) + start == if i == startblk then Times(startblk, bs) + modoff else Times(i, bs)
    ensures Times(i, bs) + start + wsize == if i == endblk then Times(endblk, bs) + modend else Times(i + 1, bs)
    ensures start + wsize <= bs && Times(i, bs) + start + wsize <= Times(endblk, bs) + modend
  {
    Parts(bs, startblk, modoff, endblk, modend, i);
    var w := bs;
    start := 0;
    if i == startblk {
      start := modoff;
      w := w - start;
    }
    if i == endblk {
      w := w - (bs - modend);
    }
    wsize := w;
  }

  /** Start offset and byte count that `ext2_read` uses in block `i`. */
  method ReadSpan(bs: nat, startblk: nat, modoff: nat, endblk: nat, modend: nat, size: nat, i: nat)
    returns (start: nat, bytes: nat)
    requires modoff < bs && modend < bs && startblk <= i <= endblk
    requires Times(startblk, bs) + modoff + size == Times(endblk, bs) + modend
    ensures Times(i, bs) + start == if i == startblk then Times(startblk, bs) + modoff else Times(i, bs)
    ensures Times(i, bs) + start + bytes == if i == endblk then Times(endblk, bs) + modend else Times(i + 1, bs)
    ensures start + bytes <= bs && Times(i, bs) + start + bytes <= Times(endblk, bs) + modend
  {
    Parts(bs, startblk, modoff, endblk, modend, i);
    start, bytes := 0, bs;
    if i == startblk {
      start := modoff;
      bytes := bs - start;
    }
    if i == endblk {
      bytes := if modend < size then modend else size;
    }
  }

  /** A transfer inside `n` blocks ends in one of them, or exactly at their end. */
  lemma EndBlock(bs: nat, s: nat, modoff: nat, e: nat, modend: nat, n: nat)
    requires modoff < bs && modend < bs
    requires Times(s, bs) + modoff <= Times(e, bs) + modend <= Times(n, bs)
    ensures s <= e <= n && (e == n ==> modend == 0)
  {
    if s > e {
      TimesMono(e, s, bs);
    }
    if e > n {
      TimesMono(n, e, bs);
    }
  }

  /** The VFS inode of a file: its number, and the size the driver trusts. */
  class VInode {
    const num: nat
    var size: nat

    constructor (num: nat, size: nat)
      ensures this.num == num && this.size == size
    {
      this.num, this.size := num, size;
    }
  }

  /** `ext2_read`: the requested range of the flat contents, cut off at the file size. */
  method Read(vol: Volume, f: VInode, off: nat, size0: nat, ghost m: seq<nat>) returns (out: seq<byte>)
    requires vol.Valid() && HasInode(vol.geo, vol.groups, f.num)
    requires Mapped(vol.geo.blksize, vol.disk, GetInode(vol.geo, vol.groups, vol.disk, f.num), m)
    requires f.size <= Times(|m|, vol.geo.blksize)
    ensures off > f.size ==> out == []
    ensures off <= f.size ==>
      out == Flat(vol.geo.blksize, vol.disk, m)[off..if off + size0 <= f.size then off + size0 else f.size]
  {
    var size := size0;
    out := [];
    if off > f.size { return; }
    if off + size > f.size {
      size := f.size - off;
      if size == 0 { return; }
    }
    var ino := ReadInode(vol, f.num);
    out := ReadBlocks(vol.geo.blksize, vol.disk, ino, off, size, m);
  }

  /** The block loop of `ext2_read`. */
  method ReadBlocks(bs: nat, disk: Disk, ino: Inode, off: nat, size: nat, ghost m: seq<nat>) returns (out: seq<byte>)
    requires Mapped(bs, disk, ino, m) && off + size <= Times(|m|, bs)
    ensures out == Flat(bs, disk, m)[off..off + size]
  {
    out := [];
    var startblk, modoff := Locate(bs, off);
    var endblk, modend := Locate(bs, off + size);
    EndBlock(bs, startblk, modoff, endblk, modend, |m|);
    var i := startblk;
    ghost var flat := Flat(bs, disk, m);
    while i <= endblk
      invariant startblk <= i <= endblk + 1
      invariant off + |out| == if i == startblk then off else if i <= endblk then Times(i, bs) else off + size
      invariant off + |out| <= off + size && out == flat[off..off + |out|]
    {
      var start, bytes := ReadSpan(bs, startblk, modoff, endblk, modend, size, i);
      out := ReadRound(bs, disk, ino, i, start, bytes, m, out, off);
      i := i + 1;
    }
  }

  /** One round of that loop appends the part of a block that the transfer wants. */
  method ReadRound(bs: nat, disk: Disk, ino: Inode, i: nat, start: nat, bytes: nat, ghost m: seq<nat>,
                   out: seq<byte>, ghost off: nat) returns (out': seq<byte>)
    requires Mapped(bs, disk, ino, m) && start + bytes <= bs && i <= |m| && (i == |m| ==> start == bytes == 0)
    requires off + |out| == Times(i, bs) + start <= Times(|m|, bs) && out == Flat(bs, disk, m)[off..off + |out|]
    ensures off + |out'| == Times(i, bs) + start + bytes <= Times(|m|, bs)
    ensures out' == Flat(bs, disk, m)[off..off + |out'|]
  {
    var fullbuf := Rd(bs, disk, BlkOf(bs, disk, ino, i));
    out' := out + fullbuf[start..start + bytes];
    if i < |m| {
      assert StoredAt(bs, disk, ino, m, i);
      FlatSlice(bs, disk, m, i, start, bytes);
    }
    SliceJoin(Flat(bs, disk, m), off, off + |out|, off + |out| + bytes);
  }

  /** The block loop of `ext2_write`: the range at `off` becomes `data`, every other byte of
      the file and every other block of the device keeps its value. */
  method WriteBlocks(vol: Volume, ino: Inode, data: seq<byte>, off: nat, ghost m: seq<nat>)
    requires Mapped(vol.geo.blksize, vol.disk, ino, m)
    requires off + |data| <= Times(|m|, vol.geo.blksize)
    modifies vol`disk
    ensures |vol.disk| == |old(vol.disk)| && Mapped(vol.geo.blksize, vol.disk, ino, m)
    ensures Flat(vol.geo.blksize, vol.disk, m) == Blit(Flat(vol.geo.blksize, old(vol.disk), m), off, data)
    ensures forall b :: 0 <= b < |vol.disk| && b !in m ==> vol.disk[b] == old(vol.disk)[b]
  {
    var bs, size := vol.geo.blksize, |data|;
    var startblk, modoff := Locate(bs, off);
    var endblk, modend := Locate(bs, off + size);
    EndBlock(bs, startblk, modoff, endblk, modend, |m|);
    var ptroff := 0;
    var i := startblk;
    ghost var flat := Flat(bs, vol.disk, m);
    while i <= endblk
      invariant startblk <= i <= endblk + 1
      invariant off + ptroff == if i == startblk then off else if i <= endblk then Times(i, bs) else off + size
      invariant 0 <= ptroff <= size
      invariant |vol.disk| == |old(vol.disk)| && Mapped(bs, vol.disk, ino, m)
      invariant Flat(bs, vol.disk, m) == Blit(flat, off, data[..ptroff])
      invariant forall b :: 0 <= b < |vol.disk| && b !in m ==> vol.disk[b] == old(vol.disk)[b]
    {
      var start, wsize := WriteSpan(bs, startblk, modoff, endblk, modend, i);
      WriteRound(vol, ino, i, start, data, off, ptroff, wsize, m, flat);
      ptroff := ptroff + wsize;
      i := i + 1;
    }
    WholeOf(data, ptroff);
  }

  lemma WholeOf<T>(s: seq<T>, n: nat)
    requires n == |s|
    ensures s[..n] == s
  {}

  /** One round of that loop extends the written prefix of `data`. */
  method WriteRound(vol: Volume, ino: Inode, i: nat, start: nat, data: seq<byte>, ghost off: nat, p: nat, wsize: nat,
                    ghost m: seq<nat>, ghost flat: seq<byte>)
    requires Mapped(vol.geo.blksize, vol.disk, ino, m) && off + p == Times(i, vol.geo.blksize) + start
    requires start + wsize <= vol.geo.blksize && i <= |m| && (i == |m| ==> start == wsize == 0)
    requires p + wsize <= |data| && off + |data| <= |flat|
    requires Flat(vol.geo.blksize, vol.disk, m) == Blit(flat, off, data[..p])
    modifies vol`disk
    ensures |vol.disk| == |old(vol.disk)| && Mapped(vol.geo.blksize, vol.disk, ino, m)
    ensures Flat(vol.geo.blksize, vol.disk, m) == Blit(flat, off, data[..p + wsize])
    ensures forall b :: 0 <= b < |vol.disk| && b !in m ==> vol.disk[b] == old(vol.disk)[b]
  {
    WritePart(vol, ino, i, start, data[p..p + wsize], m, off + p);
    BlitAppend(flat, off, data, p, p + wsize);
  }

  /** A block is read, patched and written back. */
  method WritePart(vol: Volume, ino: Inode, i: nat, start: nat, chunk: seq<byte>, ghost m: seq<nat>, ghost pos: nat)
    requires Mapped(vol.geo.blksize, vol.disk, ino, m) && pos == Times(i, vol.geo.blksize) + start
    requires start + |chunk| <= vol.geo.blksize && i <= |m| && (i == |m| ==> start == |chunk| == 0)
    modifies vol`disk
    ensures |vol.disk| == |old(vol.disk)| && Mapped(vol.geo.blksize, vol.disk, ino, m)
    ensures pos + |chunk| <= Times(|m|, vol.geo.blksize)
    ensures Flat(vol.geo.blksize, vol.disk, m) == Blit(Flat(vol.geo.blksize, old(vol.disk), m), pos, chunk)
    ensures forall b :: 0 <= b < |vol.disk| && b !in m ==> vol.disk[b] == old(vol.disk)[b]
  {
    var bs := vol.geo.blksize;
    var blk := BlkOf(bs, vol.disk, ino, i);
    var fullbuf := Blit(Rd(bs, vol.disk, blk), start, chunk);
    vol.disk := Wr(vol.disk, blk, fullbuf);
    if i < |m| {
      assert StoredAt(bs, old(vol.disk), ino, m, i);
      FlatWrite(bs, old(vol.disk), m, i, start, chunk);
      MappedStable(bs, old(vol.disk), vol.disk, ino, m);
    } else {
      assert fullbuf == Rd(bs, old(vol.disk), blk);
      assert vol.disk == old(vol.disk);
    }
  }

  // ---------------------------------------------------------------- growth

  /** The inode with direct pointer `i` set and `spb` more sectors. */
  function Appended(ino: Inode, i: nat, blk: nat, spb: nat): (r: Inode)
    requires i < DIRECT && blk < 0x1_0000_0000 && Sectors(ino) + spb < 0x1_0000_0000
    ensures Sectors(r) == Sectors(ino) + spb
    ensures forall k :: 0 <= k < 15 ==> Ptr(r, k) == if k == i then blk else Ptr(ino, k)
    ensures forall p: nat ::
      p + 4 <= INODE_BYTES && !(28 < p + 4 && p < 32) && !(40 < p + 4 && p < 88) ==> U32(r, p) == U32(ino, p)
  {
    WithU32(WithU32(ino, 40 + 4 * i, blk), 28, Sectors(ino) + spb)
  }

  /** `ext2_set_inode_blk`: a direct pointer is set and counted, a singly indirect one is
      written through its pointer block, and beyond that nothing happens. */
  method SetInodeBlk(vol: Volume, ino: Inode, i: nat, blk: nat) returns (ino': Inode)
    requires 4 <= vol.geo.blksize && Sized(vol.geo.blksize, vol.disk) && blk < 0x1_0000_0000
    requires i < DIRECT ==> Sectors(ino) + vol.geo.blksize / 512 < 0x1_0000_0000
    modifies vol`disk
    ensures |vol.disk| == |old(vol.disk)| && Sized(vol.geo.blksize, vol.disk)
    ensures i < DIRECT ==> ino' == Appended(ino, i, blk, vol.geo.blksize / 512)
    ensures i >= DIRECT ==> ino' == ino
    ensures i < DIRECT || (i < Dind(vol.geo.blksize) && Ptr(ino, INO_SIND) < |vol.disk|) ==>
      forall k :: 0 <= k < Dind(vol.geo.blksize) ==>
        BlkOf(vol.geo.blksize, vol.disk, ino', k) ==
        if k == i then blk else BlkOf(vol.geo.blksize, old(vol.disk), ino, k)
    ensures i < DIRECT || i >= Dind(vol.geo.blksize) ==> vol.disk == old(vol.disk)
    ensures forall b :: 0 <= b < |vol.disk| && b != Ptr(ino, INO_SIND) ==> vol.disk[b] == old(vol.disk)[b]
  {
    var bs := vol.geo.blksize;
    ino' := ino;
    if i < INO_SIND {
      ino' := WithU32(ino', 40 + 4 * i, blk);
      ino' := WithU32(ino', 28, Sectors(ino') + bs / 512);
    } else if i < Dind(bs) {
      var p := Ptr(ino, INO_SIND);
      var buf := Rd(bs, vol.disk, p);
      vol.disk := Wr(vol.disk, p, Blit(buf, 4 * (i - INO_SIND), Enc32(blk)));
    }
  }

  /** A block that holds file data: on the device, allocated, and no metadata. */
  ghost predicate DataBlock(geo: Geometry, gs: seq<Bgd>, disk: Disk, b: nat)
    requires geo.Valid()
  {
    BGDS_BLK < b < |disk| && !Free(geo, gs, disk, b) && forall r :: !Plays(geo, gs, b, r)
  }

  /** The inode stores its contents in the distinct data blocks `m`, all of them direct. */
  ghost predicate FileOk(geo: Geometry, gs: seq<Bgd>, disk: Disk, ino: Inode, m: seq<nat>)
    requires geo.Valid()
  {
    && |m| <= DIRECT && Sectors(ino) == Times(|m|, geo.blksize / 512)
    && (forall i :: 0 <= i < |m| ==> m[i] == Ptr(ino, i) && DataBlock(geo, gs, disk, m[i]))
    && (forall i, j :: 0 <= i < j < |m| ==> m[i] != m[j])
  }

  /** The inode's contents are in the data blocks `m`, whether direct or behind pointer blocks. */
  ghost predicate FileMapped(geo: Geometry, gs: seq<Bgd>, disk: Disk, ino: Inode, m: seq<nat>)
    requires geo.Valid()
  {
    Mapped(geo.blksize, disk, ino, m) && forall i :: 0 <= i < |m| ==> DataBlock(geo, gs, disk, m[i])
  }

  lemma FileIsMapped(geo: Geometry, gs: seq<Bgd>, disk: Disk, ino: Inode, m: seq<nat>)
    requires Consistent(geo, gs, disk) && FileOk(geo, gs, disk, ino, m)
    ensures FileMapped(geo, gs, disk, ino, m)
  {
    forall i | 0 <= i < |m| ensures StoredAt(geo.blksize, disk, ino, m, i) {}
  }

  /** A device that differs only in blocks without a metadata role has the same metadata. */
  lemma DataFrame(geo: Geometry, gs: seq<Bgd>, disk: Disk, disk': Disk)
    requires Consistent(geo, gs, disk) && |disk'| == |disk| && Sized(geo.blksize, disk')
    requires forall b: nat, r :: b < |disk| && Plays(geo, gs, b, r) ==> disk'[b] == disk[b]
    ensures Consistent(geo, gs, disk')
    ensures forall b: nat :: Free(geo, gs, disk', b) == Free(geo, gs, disk, b)
    ensures forall n: nat :: HasInode(geo, gs, n) ==> GetInode(geo, gs, disk', n) == GetInode(geo, gs, disk, n)
  {
    forall g | 0 <= g < |gs|
      ensures gs[g].blockBmp < |disk| && disk'[gs[g].blockBmp] == disk[gs[g].blockBmp] && CountOk(geo, gs, disk', g)
    {
      assert Plays(geo, gs, gs[g].blockBmp, BlockBitmap(g));
      assert CountOk(geo, gs, disk, g);
    }
    forall g: nat, j: nat ensures FreeBit(geo, gs, disk', g, j) == FreeBit(geo, gs, disk, g, j) {}
    forall b: nat ensures Free(geo, gs, disk', b) == Free(geo, gs, disk, b) {}
    forall n: nat | HasInode(geo, gs, n)
      ensures GetInode(geo, gs, disk', n) == GetInode(geo, gs, disk, n)
    {
      InoSlot(geo, gs, n);
    }
  }

  /** Taking a block touches bitmaps and descriptors only: data, roles and inodes stay. */
  lemma AllocFrame(geo: Geometry, gs: seq<Bgd>, disk: Disk, gs': seq<Bgd>, disk': Disk)
    requires Consistent(geo, gs, disk) && Consistent(geo, gs', disk') && SameLayout(gs, gs') && |disk'| == |disk|
    requires OnlyAllocMeta(gs, disk, disk')
    ensures forall b: nat, r :: Plays(geo, gs', b, r) == Plays(geo, gs, b, r)
    ensures forall b: nat :: b < |disk| && (forall r :: !Plays(geo, gs, b, r)) ==> disk'[b] == disk[b]
    ensures forall n: nat :: HasInode(geo, gs, n) ==>
      HasInode(geo, gs', n) && GetInode(geo, gs', disk', n) == GetInode(geo, gs, disk, n)
  {
    forall b: nat, r ensures Plays(geo, gs', b, r) == Plays(geo, gs, b, r) {}
    forall b: nat | AllocMeta(gs, b)
      ensures Plays(geo, gs, b, Descriptors) || exists g :: Plays(geo, gs, b, BlockBitmap(g))
    {
      if b != BGDS_BLK {
        var g :| 0 <= g < |gs| && b == gs[g].blockBmp;
        assert Plays(geo, gs, b, BlockBitmap(g));
      }
    }
    forall n: nat | HasInode(geo, gs, n)
      ensures HasInode(geo, gs', n) && GetInode(geo, gs', disk', n) == GetInode(geo, gs, disk, n)
    {
      InoSlot(geo, gs, n);
    }
  }

  /** The least number of blocks that hold `diff` bytes. */
  function BlocksFor(bs: nat, diff: nat): (cnt: nat)
    requires bs > 0
    ensures diff <= Times(cnt, bs) && (cnt > 0 ==> Times(cnt - 1, bs) < diff)
  {
    if diff == 0 then 0 else if diff <= bs then 1 else 1 + BlocksFor(bs, diff - bs)
  }

  /** The division by which `ext2_resize` counts the blocks to add. */
  method CountBlocks(bs: nat, diff: nat) returns (cnt: nat)
    requires bs > 0
    ensures cnt == BlocksFor(bs, diff)
  {
    var q, r := Locate(bs, diff);
    cnt := if r != 0 then q + 1 else q;
    var n := BlocksFor(bs, diff);
    if cnt < n {
      TimesMono(cnt, n, bs);
    } else if n < cnt {
      TimesMono(n, cnt, bs);
    }
  }

  /** The file that has gained the block `b`, just taken. */
  lemma FileAppended(geo: Geometry, gs: seq<Bgd>, disk: Disk, gs': seq<Bgd>, disk': Disk, ino: Inode, m: seq<nat>,
    b: nat)
    requires Consistent(geo, gs, disk) && Consistent(geo, gs', disk') && SameLayout(gs, gs') && |disk'| == |disk|
    requires FileOk(geo, gs, disk, ino, m) && |m| < DIRECT
    requires Free(geo, gs, disk, b) && BGDS_BLK < b < |disk| <= 0x1_0000_0000
    requires forall c: nat :: Free(geo, gs', disk', c) <==> Free(geo, gs, disk, c) && c != b
    ensures Sectors(ino) + geo.blksize / 512 < 0x1_0000_0000
    ensures FileOk(geo, gs', disk', Appended(ino, |m|, b, geo.blksize / 512), m + [b])
  {
    SectorBlocks(geo.blksize / 512, |m|, Sectors(ino));
    DataBlocksStay(geo, gs, disk, gs', disk', b);
    FileGained(geo, gs, disk, gs', disk', ino, Appended(ino, |m|, b, geo.blksize / 512), m, b);
  }

  lemma FileGained(geo: Geometry, gs: seq<Bgd>, disk: Disk, gs': seq<Bgd>, disk': Disk, ino: Inode, ino': Inode,
                   m: seq<nat>, b: nat)
    requires geo.Valid() && FileOk(geo, gs, disk, ino, m) && |m| < DIRECT && Free(geo, gs, disk, b)
    requires DataBlock(geo, gs', disk', b)
    requires forall c: nat :: DataBlock(geo, gs, disk, c) ==> DataBlock(geo, gs', disk', c)
    requires Sectors(ino') == Sectors(ino) + geo.blksize / 512
    requires forall k :: 0 <= k < 15 ==> Ptr(ino', k) == if k == |m| then b else Ptr(ino, k)
    ensures FileOk(geo, gs', disk', ino', m + [b])
  {
    forall i | 0 <= i < |m| ensures m[i] != b {
      assert DataBlock(geo, gs, disk, m[i]);
    }
  }

  /** Taking block `b` makes a data block of it and leaves the others what they are. */
  lemma DataBlocksStay(geo: Geometry, gs: seq<Bgd>, disk: Disk, gs': seq<Bgd>, disk': Disk, b: nat)
    requires Consistent(geo, gs, disk) && SameLayout(gs, gs') && |disk'| == |disk|
    requires Free(geo, gs, disk, b) && BGDS_BLK < b < |disk|
    requires forall c: nat :: Free(geo, gs', disk', c) <==> Free(geo, gs, disk, c) && c != b
    ensures forall c: nat :: c == b || DataBlock(geo, gs, disk, c) ==> DataBlock(geo, gs', disk', c)
  {
    forall c: nat, r ensures Plays(geo, gs', c, r) == Plays(geo, gs, c, r) {}
  }

  /** One round of the loop of `ext2_resize`: a fresh block goes to the end of the file. */
  method AppendBlock(vol: Volume, ino: Inode, ghost m: seq<nat>) returns (ino': Inode, ghost b: nat)
    requires vol.Valid() && FileOk(vol.geo, vol.groups, vol.disk, ino, m)
    requires |m| < DIRECT && TotalFree(vol.groups) > 0 && |vol.disk| <= 0x1_0000_0000
    modifies vol
    ensures vol.Valid() && FileOk(vol.geo, vol.groups, vol.disk, ino', m + [b])
    ensures Took(vol.geo, old(vol.groups), old(vol.disk), vol.groups, vol.disk, [b])
    ensures TotalFree(vol.groups) == TotalFree(old(vol.groups)) - 1
    ensures forall p: nat ::
      p + 4 <= INODE_BYTES && !(28 < p + 4 && p < 32) && !(40 < p + 4 && p < 88) ==> U32(ino', p) == U32(ino, p)
  {
    var spb := vol.geo.blksize / 512;
    SectorBlocks(spb, |m|, Sectors(ino));
    var i := Sectors(ino) / spb;
    var blk := AllocBlk(vol);
    b := blk;
    assert i == |m|;
    FileAppended(vol.geo, old(vol.groups), old(vol.disk), vol.groups, vol.disk, ino, m, b);
    ino' := SetInodeBlk(vol, ino, i, blk);
  }

  lemma SectorBlocks(spb: nat, n: nat, sectors: nat)
    requires spb > 0 && sectors == Times(n, spb)
    ensures sectors / spb == n
    ensures n < DIRECT ==> sectors + spb <= DIRECT * spb
  {
    TimesIsMul(DIRECT, spb);
    if n < DIRECT {
      TimesMono(n, DIRECT, spb);
    }
    QuotRemUnique(sectors, spb, n, 0);
    QuotIsDiv(sectors, spb);
  }

  /** What a change of one file may not disturb: the layout, other inodes, and blocks that
      neither play a role nor belong to the file. */
  ghost predicate OthersKept(geo: Geometry, gs: seq<Bgd>, disk: Disk, gs': seq<Bgd>, disk': Disk, num: nat,
    mine: seq<nat>)
    requires Consistent(geo, gs, disk) && Consistent(geo, gs', disk')
  {
    && SameLayout(gs, gs') && |disk'| == |disk|
    && (forall n: nat :: n != num && HasInode(geo, gs, n) ==>
          HasInode(geo, gs', n) && GetInode(geo, gs', disk', n) == GetInode(geo, gs, disk, n))
    && (forall b: nat :: b < |disk| && b !in mine && (forall r :: !Plays(geo, gs, b, r)) ==> disk'[b] == disk[b])
  }

  /** `ext2_resize`: the file grows by whole blocks that were free; its old blocks keep their place. */
  method Resize(vol: Volume, f: VInode, size: nat, ghost m: seq<nat>) returns (ghost m': seq<nat>)
    requires vol.Valid() && HasInode(vol.geo, vol.groups, f.num) && |vol.disk| <= 0x1_0000_0000
    requires FileOk(vol.geo, vol.groups, vol.disk, GetInode(vol.geo, vol.groups, vol.disk, f.num), m)
    requires f.size <= size < 0x1_0000_0000_0000_0000
    requires |m| + BlocksFor(vol.geo.blksize, size - f.size) <= DIRECT
    requires TotalFree(vol.groups) >= BlocksFor(vol.geo.blksize, size - f.size)
    modifies vol, f
    ensures vol.Valid() && HasInode(vol.geo, vol.groups, f.num) && f.size == size
    ensures OthersKept(vol.geo, old(vol.groups), old(vol.disk), vol.groups, vol.disk, f.num, [])
    ensures var ino := GetInode(vol.geo, vol.groups, vol.disk, f.num);
      && FileOk(vol.geo, vol.groups, vol.disk, ino, m') && Size(ino) == size
      && Covers(vol.geo, ino, |m|, old(f.size), |m'|, size)
    ensures |m'| == |m| + BlocksFor(vol.geo.blksize, size - old(f.size))
    ensures Gained(vol.geo, old(vol.groups), old(vol.disk), m, m')
    ensures StaysFree(vol.geo, old(vol.groups), old(vol.disk), vol.groups, vol.disk, m')
  {
    var ino := ReadInode(vol, f.num);
    var cnt := CountBlocks(vol.geo.blksize, size - f.size);
    assert cnt == BlocksFor(vol.geo.blksize, size - old(f.size));
    ghost var news;
    ino, news := Grow(vol, ino, cnt, m);
    m' := m + news;
    ghost var disk1 := vol.disk;
    ino := StoreSize(vol, f.num, ino, size, m');
    Resized(vol.geo, old(vol.groups), old(vol.disk), vol.groups, disk1, vol.disk, f.num, ino, m, news);
    SectorRoom(vol.geo, ino, |m|, |m'|, f.size, size);
    f.size := size;
  }

  /** The last lines of `ext2_resize`. */
  method StoreSize(vol: Volume, num: nat, ino0: Inode, size: nat, ghost m: seq<nat>) returns (ino: Inode)
    requires vol.Valid() && HasInode(vol.geo, vol.groups, num) && FileOk(vol.geo, vol.groups, vol.disk, ino0, m)
    requires size < 0x1_0000_0000_0000_0000
    modifies vol`disk
    ensures vol.Valid() && InodeStored(vol.geo, vol.groups, old(vol.disk), vol.disk, num, ino, m) && Size(ino) == size
  {
    ino := WithSize(ino0, size);
    StoreInode(vol, num, ino, m);
  }

  /** Blocks taken, then the inode stored. */
  lemma Resized(geo: Geometry, gs: seq<Bgd>, disk: Disk, gs': seq<Bgd>, disk1: Disk, disk2: Disk, num: nat, ino: Inode,
                m: seq<nat>, news: seq<nat>)
    requires Consistent(geo, gs, disk) && Consistent(geo, gs', disk1) && Consistent(geo, gs', disk2)
    requires Took(geo, gs, disk, gs', disk1, news) && HasInode(geo, gs', num)
    requires forall i :: 0 <= i < |m| ==> DataBlock(geo, gs, disk, m[i])
    requires InodeStored(geo, gs', disk1, disk2, num, ino, m + news)
    ensures OthersKept(geo, gs, disk, gs', disk2, num, []) && Gained(geo, gs, disk, m, m + news)
    ensures StaysFree(geo, gs, disk, gs', disk2, m + news)
  {
    AllocFrame(geo, gs, disk, gs', disk1);
    StaysFreeOf(geo, gs, disk, gs', disk1, m, news);
  }

  /** If the `n` blocks held the old size, then the `n'` blocks, all counted in the sectors, hold the new one. */
  predicate Covers(geo: Geometry, ino: Inode, n: nat, size: nat, n': nat, size': nat) {
    && Sectors(ino) * 512 == Times(n', geo.blksize)
    && (size <= Times(n, geo.blksize) ==> size' <= Times(n', geo.blksize))
  }

  /** The file with blocks `m` has been given blocks that were free, behind those it had. */
  ghost predicate Gained(geo: Geometry, gs: seq<Bgd>, disk: Disk, m: seq<nat>, m': seq<nat>) {
    m <= m' && forall i :: |m| <= i < |m'| ==> Free(geo, gs, disk, m'[i])
  }

  lemma SectorRoom(geo: Geometry, ino: Inode, n: nat, n': nat, size: nat, size': nat)
    requires geo.Valid() && size <= size' && n' == n + BlocksFor(geo.blksize, size' - size)
    requires Sectors(ino) == Times(n', geo.blksize / 512)
    ensures Covers(geo, ino, n, size, n', size')
  {
    SectorBytes(geo.blksize / 512, n');
    if size <= Times(n, geo.blksize) {
      RoomAfter(geo.blksize, n, n', size, size');
    }
  }

  lemma {:induction false} SectorBytes(spb: nat, n: nat)
    ensures Times(n, spb) * 512 == Times(n, spb * 512)
  {
    if n > 0 {
      SectorBytes(spb, n - 1);
    }
  }

  /** The old blocks of a file were not free anyway. */
  lemma StaysFreeOf(geo: Geometry, gs: seq<Bgd>, disk: Disk, gs': seq<Bgd>, disk': Disk, m: seq<nat>, news: seq<nat>)
    requires geo.Valid() && StaysFree(geo, gs, disk, gs', disk', news)
    requires forall i :: 0 <= i < |m| ==> DataBlock(geo, gs, disk, m[i])
    ensures StaysFree(geo, gs, disk, gs', disk', m + news)
  {
    forall b: nat | b in m ensures !Free(geo, gs, disk, b) {
      assert DataBlock(geo, gs, disk, b);
    }
  }

  /** Inode `num`, with its blocks `m`, is now `ino`; every other inode and every block without a role is as before. */
  ghost predicate InodeStored(geo: Geometry, gs: seq<Bgd>, disk: Disk, disk': Disk, num: nat, ino: Inode, m: seq<nat>)
    requires Consistent(geo, gs, disk) && Consistent(geo, gs, disk') && HasInode(geo, gs, num)
  {
    && |disk'| == |disk| && GetInode(geo, gs, disk', num) == ino && FileOk(geo, gs, disk', ino, m)
    && (forall n: nat :: n != num && HasInode(geo, gs, n) ==> GetInode(geo, gs, disk', n) == GetInode(geo, gs, disk, n))
    && (forall b: nat :: b < |disk| && (forall r :: !Plays(geo, gs, b, r)) ==> disk'[b] == disk[b])
    && (forall b: nat :: Free(geo, gs, disk', b) == Free(geo, gs, disk, b))
  }

  /** The file's inode goes back to the table. */
  method StoreInode(vol: Volume, num: nat, ino: Inode, ghost m: seq<nat>)
    requires vol.Valid() && HasInode(vol.geo, vol.groups, num) && FileOk(vol.geo, vol.groups, vol.disk, ino, m)
    modifies vol`disk
    ensures vol.Valid() && InodeStored(vol.geo, vol.groups, old(vol.disk), vol.disk, num, ino, m)
  {
    PutInodeFrame(vol.geo, vol.groups, vol.disk, num, ino);
    WriteInode(vol, num, ino);
    FileOkFrame(vol.geo, vol.groups, old(vol.disk), vol.disk, ino, m);
  }

  function WithSize(ino: Inode, size: nat): (r: Inode)
    requires size < 0x1_0000_0000_0000_0000
    ensures Size(r) == size && Sectors(r) == Sectors(ino)
    ensures forall k :: 0 <= k < 15 ==> Ptr(r, k) == Ptr(ino, k)
  {
    WithU32(WithU32(ino, 4, size % 0x1_0000_0000), 108, size / 0x1_0000_0000)
  }

  lemma FileOkFrame(geo: Geometry, gs: seq<Bgd>, disk: Disk, disk': Disk, ino: Inode, m: seq<nat>)
    requires geo.Valid() && FileOk(geo, gs, disk, ino, m) && |disk'| == |disk|
    requires forall b: nat :: Free(geo, gs, disk', b) == Free(geo, gs, disk, b)
    ensures FileOk(geo, gs, disk', ino, m)
  {}

  /** The free blocks are those that were free before, except `taken`. */
  ghost predicate StaysFree(geo: Geometry, gs: seq<Bgd>, disk: Disk, gs': seq<Bgd>, disk': Disk, taken: seq<nat>) {
    forall b: nat :: Free(geo, gs', disk', b) <==> Free(geo, gs, disk, b) && b !in taken
  }

  /** The volume after taking the blocks `news`, all of them free at first, and no others. */
  ghost predicate Took(geo: Geometry, gs0: seq<Bgd>, disk0: Disk, gs: seq<Bgd>, disk: Disk, news: seq<nat>) {
    && SameLayout(gs0, gs) && OnlyAllocMeta(gs0, disk0, disk)
    && (forall i :: 0 <= i < |news| ==> Free(geo, gs0, disk0, news[i]))
    && StaysFree(geo, gs0, disk0, gs, disk, news)
  }

  lemma TookMore(geo: Geometry, gs0: seq<Bgd>, disk0: Disk, gs1: seq<Bgd>, disk1: Disk, gs: seq<Bgd>, disk: Disk,
                 news: seq<nat>, b: nat)
    requires Took(geo, gs0, disk0, gs1, disk1, news) && Took(geo, gs1, disk1, gs, disk, [b])
    ensures Took(geo, gs0, disk0, gs, disk, news + [b])
  {
    forall b: nat ensures AllocMeta(gs0, b) == AllocMeta(gs1, b) {
      forall g | 0 <= g < |gs0| ensures gs0[g].blockBmp == gs1[g].blockBmp {}
    }
    assert Free(geo, gs1, disk1, [b][0]);
  }

  /** Mid-growth: `ino` has gained the blocks `news` since the volume was `(gs0, disk0)`. */
  ghost predicate Growing(vol: Volume, gs0: seq<Bgd>, disk0: Disk, ino: Inode, m: seq<nat>, news: seq<nat>)
    reads vol
  {
    && vol.Valid() && FileOk(vol.geo, vol.groups, vol.disk, ino, m + news)
    && Took(vol.geo, gs0, disk0, vol.groups, vol.disk, news)
  }

  /** One round of the loop of `ext2_resize`. */
  method GrowRound(vol: Volume, ino: Inode, ghost gs0: seq<Bgd>, ghost disk0: Disk, ghost m: seq<nat>,
    ghost news: seq<nat>)
    returns (ino': Inode, ghost b: nat)
    requires Growing(vol, gs0, disk0, ino, m, news)
    requires |m + news| < DIRECT && TotalFree(vol.groups) > 0 && |vol.disk| <= 0x1_0000_0000
    modifies vol
    ensures Growing(vol, gs0, disk0, ino', m, news + [b])
    ensures TotalFree(vol.groups) == TotalFree(old(vol.groups)) - 1 && |vol.disk| == |old(vol.disk)|
  {
    ino', b := AppendBlock(vol, ino, m + news);
    assert m + news + [b] == m + (news + [b]);
    TookMore(vol.geo, gs0, disk0, old(vol.groups), old(vol.disk), vol.groups, vol.disk, news, b);
  }

  /** The loop of `ext2_resize`. */
  method Grow(vol: Volume, ino0: Inode, cnt: nat, ghost m: seq<nat>) returns (ino: Inode, ghost news: seq<nat>)
    requires vol.Valid() && FileOk(vol.geo, vol.groups, vol.disk, ino0, m) && |vol.disk| <= 0x1_0000_0000
    requires |m| + cnt <= DIRECT && TotalFree(vol.groups) >= cnt
    modifies vol
    ensures Growing(vol, old(vol.groups), old(vol.disk), ino, m, news) && |news| == cnt
  {
    ino, news := ino0, [];
    ghost var gs0, disk0 := vol.groups, vol.disk;
    var k := cnt;
    assert m + [] == m;
    while k > 0
      invariant |news| + k == cnt && |vol.disk| == |disk0| && TotalFree(vol.groups) >= k
      invariant Growing(vol, gs0, disk0, ino, m, news)
    {
      ghost var b;
      ino, b := GrowRound(vol, ino, gs0, disk0, m, news);
      news := news + [b];
      k := k - 1;
    }
  }

  // ---------------------------------------------------------------- writing

  /** Growth from `size` to `need` bytes is within what `ext2_resize` handles: direct blocks, and enough free ones. */
  ghost predicate CanGrow(geo: Geometry, gs: seq<Bgd>, disk: Disk, ino: Inode, m: seq<nat>, size: nat, need: nat)
    requires geo.Valid()
  {
    size < need ==>
      && FileOk(geo, gs, disk, ino, m) && |disk| <= 0x1_0000_0000 && need < 0x1_0000_0000_0000_0000
      && |m| + BlocksFor(geo.blksize, need - size) <= DIRECT
      && TotalFree(gs) >= BlocksFor(geo.blksize, need - size)
  }

  /** The first lines of `ext2_write`: the file is made large enough. */
  method Reserve(vol: Volume, f: VInode, need: nat, ghost m: seq<nat>) returns (ghost m': seq<nat>)
    requires vol.Valid() && HasInode(vol.geo, vol.groups, f.num) && f.size <= Times(|m|, vol.geo.blksize)
    requires FileMapped(vol.geo, vol.groups, vol.disk, GetInode(vol.geo, vol.groups, vol.disk, f.num), m)
    requires CanGrow(vol.geo, vol.groups, vol.disk, GetInode(vol.geo, vol.groups, vol.disk, f.num), m, f.size, need)
    modifies vol, f
    ensures vol.Valid() && HasInode(vol.geo, vol.groups, f.num)
    ensures f.size == (if old(f.size) < need then need else old(f.size)) && f.size <= Times(|m'|, vol.geo.blksize)
    ensures old(f.size) >= need ==> m' == m && vol.disk == old(vol.disk) && vol.groups == old(vol.groups)
    ensures old(f.size) < need ==>
      FileOk(vol.geo, vol.groups, vol.disk, GetInode(vol.geo, vol.groups, vol.disk, f.num), m')
    ensures Gained(vol.geo, old(vol.groups), old(vol.disk), m, m')
    ensures FileMapped(vol.geo, vol.groups, vol.disk, GetInode(vol.geo, vol.groups, vol.disk, f.num), m')
    ensures OthersKept(vol.geo, old(vol.groups), old(vol.disk), vol.groups, vol.disk, f.num, [])
    ensures StaysFree(vol.geo, old(vol.groups), old(vol.disk), vol.groups, vol.disk, m')
    ensures (forall i :: 0 <= i < |m'| ==> m'[i] < |old(vol.disk)|) && Sized(vol.geo.blksize, old(vol.disk))
    ensures Flat(vol.geo.blksize, vol.disk, m') == Flat(vol.geo.blksize, old(vol.disk), m')
  {
    m' := m;
    if f.size < need {
      m' := Enlarge(vol, f, need, m);
    } else {
      DataNotFree(vol.geo, vol.groups, vol.disk, m);
    }
  }

  /** `ext2_resize` as `ext2_write` sees it. */
  method Enlarge(vol: Volume, f: VInode, need: nat, ghost m: seq<nat>) returns (ghost m': seq<nat>)
    requires vol.Valid() && HasInode(vol.geo, vol.groups, f.num) && f.size <= Times(|m|, vol.geo.blksize)
      && f.size < need
    requires CanGrow(vol.geo, vol.groups, vol.disk, GetInode(vol.geo, vol.groups, vol.disk, f.num), m, f.size, need)
    modifies vol, f
    ensures vol.Valid() && HasInode(vol.geo, vol.groups, f.num)
    ensures f.size == need && f.size <= Times(|m'|, vol.geo.blksize)
    ensures Gained(vol.geo, old(vol.groups), old(vol.disk), m, m')
    ensures FileOk(vol.geo, vol.groups, vol.disk, GetInode(vol.geo, vol.groups, vol.disk, f.num), m')
    ensures FileMapped(vol.geo, vol.groups, vol.disk, GetInode(vol.geo, vol.groups, vol.disk, f.num), m')
    ensures OthersKept(vol.geo, old(vol.groups), old(vol.disk), vol.groups, vol.disk, f.num, [])
    ensures StaysFree(vol.geo, old(vol.groups), old(vol.disk), vol.groups, vol.disk, m')
    ensures (forall i :: 0 <= i < |m'| ==> m'[i] < |old(vol.disk)|) && Sized(vol.geo.blksize, old(vol.disk))
    ensures Flat(vol.geo.blksize, vol.disk, m') == Flat(vol.geo.blksize, old(vol.disk), m')
  {
    m' := Resize(vol, f, need, m);
    FileIsMapped(vol.geo, vol.groups, vol.disk, GetInode(vol.geo, vol.groups, vol.disk, f.num), m');
    BlocksKept(vol.geo, old(vol.groups), old(vol.disk), vol.groups, vol.disk, f.num, m');
  }

  /** The blocks of a file are not touched when its block list grows. */
  lemma BlocksKept(geo: Geometry, gs: seq<Bgd>, disk: Disk, gs': seq<Bgd>, disk': Disk, num: nat, m: seq<nat>)
    requires Consistent(geo, gs, disk) && Consistent(geo, gs', disk') && OthersKept(geo, gs, disk, gs', disk', num, [])
    requires forall i :: 0 <= i < |m| ==> DataBlock(geo, gs', disk', m[i])
    ensures (forall i :: 0 <= i < |m| ==> m[i] < |disk|) && Sized(geo.blksize, disk) && Sized(geo.blksize, disk')
    ensures Flat(geo.blksize, disk', m) == Flat(geo.blksize, disk, m)
  {
    forall b: nat, r ensures Plays(geo, gs', b, r) == Plays(geo, gs, b, r) {}
    forall i | 0 <= i < |m| ensures m[i] < |disk| && disk'[m[i]] == disk[m[i]] {
      assert DataBlock(geo, gs', disk', m[i]);
    }
    FlatFrame(geo.blksize, disk, disk', m);
  }

  lemma DataNotFree(geo: Geometry, gs: seq<Bgd>, disk: Disk, m: seq<nat>)
    requires geo.Valid() && forall i :: 0 <= i < |m| ==> DataBlock(geo, gs, disk, m[i])
    ensures StaysFree(geo, gs, disk, gs, disk, m)
  {
    forall b: nat | b in m ensures !Free(geo, gs, disk, b) {
      assert DataBlock(geo, gs, disk, b);
    }
  }

  lemma RoomAfter(bs: nat, n: nat, n': nat, size: nat, size': nat)
    requires bs > 0 && size <= size' && size <= Times(n, bs) && n' == n + BlocksFor(bs, size' - size)
    ensures size' <= Times(n', bs)
  {
    TimesAdd(n, n' - n, bs);
  }

  /** `ext2_write` on a file that is large enough, whichever pointers lead to its blocks. */
  method WriteInPlace(vol: Volume, num: nat, data: seq<byte>, off: nat, ghost m: seq<nat>)
    requires vol.Valid() && HasInode(vol.geo, vol.groups, num)
    requires FileMapped(vol.geo, vol.groups, vol.disk, GetInode(vol.geo, vol.groups, vol.disk, num), m)
    requires off + |data| <= Times(|m|, vol.geo.blksize)
    modifies vol`disk
    ensures vol.Valid() && |vol.disk| == |old(vol.disk)|
    ensures forall n: nat :: HasInode(vol.geo, vol.groups, n) ==>
      GetInode(vol.geo, vol.groups, vol.disk, n) == old(GetInode(vol.geo, vol.groups, vol.disk, n))
    ensures FileMapped(vol.geo, vol.groups, vol.disk, GetInode(vol.geo, vol.groups, vol.disk, num), m)
    ensures forall b: nat :: Free(vol.geo, vol.groups, vol.disk, b) == Free(vol.geo, vol.groups, old(vol.disk), b)
    ensures Sized(vol.geo.blksize, old(vol.disk))
    ensures Flat(vol.geo.blksize, vol.disk, m) == Blit(Flat(vol.geo.blksize, old(vol.disk), m), off, data)
    ensures forall b :: 0 <= b < |vol.disk| && b !in m ==> vol.disk[b] == old(vol.disk)[b]
  {
    var ino := ReadInode(vol, num);
    WriteBlocks(vol, ino, data, off, m);
    forall b: nat, r | b < |vol.disk| && Plays(vol.geo, vol.groups, b, r) ensures b !in m {
      forall i | 0 <= i < |m| ensures m[i] != b {
        assert DataBlock(vol.geo, vol.groups, old(vol.disk), m[i]);
      }
    }
    DataFrame(vol.geo, vol.groups, old(vol.disk), vol.disk);
  }

  /** The state after `ext2_write`: exactly the bytes at `off` of the file with blocks `m` became `data`; the blocks
      `m` apart, free blocks are free as before; other inodes and other data are as before. */
  ghost predicate Written(geo: Geometry, gs: seq<Bgd>, disk: Disk, gs': seq<Bgd>, disk': Disk, num: nat, m: seq<nat>,
                          off: nat, data: seq<byte>)
    requires Consistent(geo, gs, disk) && Consistent(geo, gs', disk')
  {
    && OthersKept(geo, gs, disk, gs', disk', num, m) && StaysFree(geo, gs, disk, gs', disk', m)
    && HasInode(geo, gs', num) && FileMapped(geo, gs', disk', GetInode(geo, gs', disk', num), m)
    && (forall i :: 0 <= i < |m| ==> m[i] < |disk|) && off + |data| <= Times(|m|, geo.blksize)
    && Flat(geo.blksize, disk', m) == Blit(Flat(geo.blksize, disk, m), off, data)
  }

  /** `ext2_write`: after growing the file if need be, exactly the bytes at `off` become
      `data`.  Blocks the file has gained keep the bytes they had on the device. */
  method Write(vol: Volume, f: VInode, data: seq<byte>, off: nat, ghost m: seq<nat>)
    returns (n: nat, ghost m': seq<nat>)
    requires vol.Valid() && HasInode(vol.geo, vol.groups, f.num) && f.size <= Times(|m|, vol.geo.blksize)
    requires FileMapped(vol.geo, vol.groups, vol.disk, GetInode(vol.geo, vol.groups, vol.disk, f.num), m)
    requires CanGrow(vol.geo, vol.groups, vol.disk, GetInode(vol.geo, vol.groups, vol.disk, f.num), m, f.size,
                     off + |data|)
    modifies vol, f
    ensures n == |data| && f.size == if old(f.size) < off + |data| then off + |data| else old(f.size)
    ensures f.size <= Times(|m'|, vol.geo.blksize)
    ensures Gained(vol.geo, old(vol.groups), old(vol.disk), m, m')
    ensures if old(f.size) < off + |data| then
        vol.Valid() && HasInode(vol.geo, vol.groups, f.num)
        && FileOk(vol.geo, vol.groups, vol.disk, GetInode(vol.geo, vol.groups, vol.disk, f.num), m')
      else m' == m && vol.groups == old(vol.groups)
    ensures vol.Valid()
    ensures Written(vol.geo, old(vol.groups), old(vol.disk), vol.groups, vol.disk, f.num, m', off, data)
  {
    m' := Reserve(vol, f, off + |data|, m);
    ghost var gs1, disk1 := vol.groups, vol.disk;
    WriteInPlace(vol, f.num, data, off, m');
    WrittenBehind(vol.geo, old(vol.groups), old(vol.disk), gs1, disk1, vol.disk, f.num, m', off, data);
    n := |data|;
  }

  /** A file that was made large enough and then written in place. */
  lemma WrittenBehind(geo: Geometry, gs: seq<Bgd>, disk: Disk, gs1: seq<Bgd>, disk1: Disk, disk2: Disk, num: nat,
                      m: seq<nat>, off: nat, data: seq<byte>)
    requires Consistent(geo, gs, disk) && Consistent(geo, gs1, disk1) && Consistent(geo, gs1, disk2)
    requires OthersKept(geo, gs, disk, gs1, disk1, num, []) && StaysFree(geo, gs, disk, gs1, disk1, m)
    requires HasInode(geo, gs1, num) && |disk2| == |disk1|
    requires forall n: nat :: HasInode(geo, gs1, n) ==> GetInode(geo, gs1, disk2, n) == GetInode(geo, gs1, disk1, n)
    requires FileMapped(geo, gs1, disk2, GetInode(geo, gs1, disk2, num), m)
    requires forall b: nat :: Free(geo, gs1, disk2, b) == Free(geo, gs1, disk1, b)
    requires forall b :: 0 <= b < |disk1| && b !in m ==> disk2[b] == disk1[b]
    requires (forall i :: 0 <= i < |m| ==> m[i] < |disk|) && off + |data| <= Times(|m|, geo.blksize)
    requires Flat(geo.blksize, disk2, m) == Blit(Flat(geo.blksize, disk, m), off, data)
    ensures Written(geo, gs, disk, gs1, disk2, num, m, off, data)
    ensures forall ino :: FileOk(geo, gs1, disk1, ino, m) ==> FileOk(geo, gs1, disk2, ino, m)
  {
    forall ino | FileOk(geo, gs1, disk1, ino, m) ensures FileOk(geo, gs1, disk2, ino, m) {
      FileOkFrame(geo, gs1, disk1, disk2, ino, m);
    }
  }

  /** A block that holds pointers to blocks of `m`. */
  ghost predicate Leads(bs: nat, disk: Disk, ino: Inode, m: seq<nat>, b: nat) {
    && bs >= 4 && Sized(bs, disk) && |m| < Tind(bs)
    && ((|m| > INO_SIND && b == Ptr(ino, INO_SIND)) || (|m| > Dind(bs) && b == Ptr(ino, INO_DIND))
        || exists i: nat :: Dind(bs) <= i < |m| && b == SecondBlk(bs, disk, ino, i))
  }

  /** The blocks of the file and the pointer blocks that lead to them. */
  ghost predicate Uses(bs: nat, disk: Disk, ino: Inode, m: seq<nat>, b: nat) {
    b in m || Leads(bs, disk, ino, m, b)
  }

  /** A write to one file, grown or not, leaves every file alone that shares no block with it. */
  lemma OtherFileKept(geo: Geometry, gs: seq<Bgd>, disk: Disk, gs': seq<Bgd>, disk': Disk, num: nat, m: seq<nat>,
                      m': seq<nat>, off: nat, data: seq<byte>, other: nat, mo: seq<nat>)
    requires Consistent(geo, gs, disk) && Consistent(geo, gs', disk')
    requires Written(geo, gs, disk, gs', disk', num, m', off, data) && Gained(geo, gs, disk, m, m')
    requires other != num && HasInode(geo, gs, other)
    requires FileMapped(geo, gs, disk, GetInode(geo, gs, disk, other), mo)
    requires forall b: nat :: Uses(geo.blksize, disk, GetInode(geo, gs, disk, other), mo, b) ==>
      DataBlock(geo, gs, disk, b) && b !in m
    ensures HasInode(geo, gs', other) && GetInode(geo, gs', disk', other) == GetInode(geo, gs, disk, other)
    ensures FileMapped(geo, gs', disk', GetInode(geo, gs', disk', other), mo)
    ensures Flat(geo.blksize, disk', mo) == Flat(geo.blksize, disk, mo)
  {
    var ino := GetInode(geo, gs, disk, other);
    forall b: nat | Uses(geo.blksize, disk, ino, mo, b)
      ensures b < |disk| && disk'[b] == disk[b] && DataBlock(geo, gs', disk', b)
    {
      NotGained(geo, gs, disk, gs', disk', m, m', b);
    }
    forall i | 0 <= i < |mo| ensures DataBlock(geo, gs', disk', mo[i]) {
      assert Uses(geo.blksize, disk, ino, mo, mo[i]);
    }
    MappedBeside(geo.blksize, disk, disk', ino, mo);
  }

  lemma NotGained(geo: Geometry, gs: seq<Bgd>, disk: Disk, gs': seq<Bgd>, disk': Disk, m: seq<nat>, m': seq<nat>,
                  b: nat)
    requires geo.Valid() && SameLayout(gs, gs') && |disk'| == |disk| && StaysFree(geo, gs, disk, gs', disk', m')
    requires Gained(geo, gs, disk, m, m') && DataBlock(geo, gs, disk, b) && b !in m
    ensures b !in m' && DataBlock(geo, gs', disk', b)
  {
    forall r ensures Plays(geo, gs', b, r) == Plays(geo, gs, b, r) {}
    forall i | 0 <= i < |m'| ensures m'[i] != b {
      assert i < |m| ==> m'[i] == m[i];
    }
  }

  /** The blocks a file uses decide its block map and its bytes. */
  lemma MappedBeside(bs: nat, disk: Disk, disk': Disk, ino: Inode, m: seq<nat>)
    requires Mapped(bs, disk, ino, m) && |disk'| == |disk| && Sized(bs, disk')
    requires forall b: nat :: Uses(bs, disk, ino, m, b) ==> b < |disk| && disk'[b] == disk[b]
    ensures Mapped(bs, disk', ino, m) && Flat(bs, disk', m) == Flat(bs, disk, m)
  {
    forall i | 0 <= i < |m| ensures disk'[m[i]] == disk[m[i]] {
      assert Uses(bs, disk, ino, m, m[i]);
    }
    FlatFrame(bs, disk, disk', m);
    forall i | 0 <= i < |m| ensures StoredAt(bs, disk', ino, m, i) {
      assert StoredAt(bs, disk, ino, m, i);
      if Dind(bs) <= i {
        assert Uses(bs, disk, ino, m, Ptr(ino, INO_DIND)) && Uses(bs, disk, ino, m, SecondBlk(bs, disk, ino, i));
      } else if INO_SIND <= i {
        assert Uses(bs, disk, ino, m, Ptr(ino, INO_SIND));
      }
    }
  }

  /** So a file that shares no block with the one written reads as before. */
  method WriteBeside(vol: Volume, f: VInode, data: seq<byte>, off: nat, ghost m: seq<nat>, g: VInode,
                     ghost mo: seq<nat>)
    returns (out: seq<byte>)
    requires vol.Valid() && HasInode(vol.geo, vol.groups, f.num) && f.size <= Times(|m|, vol.geo.blksize)
    requires FileMapped(vol.geo, vol.groups, vol.disk, GetInode(vol.geo, vol.groups, vol.disk, f.num), m)
    requires CanGrow(vol.geo, vol.groups, vol.disk, GetInode(vol.geo, vol.groups, vol.disk, f.num), m, f.size,
                     off + |data|)
    requires HasInode(vol.geo, vol.groups, g.num) && g.num != f.num && g.size <= Times(|mo|, vol.geo.blksize)
    requires FileMapped(vol.geo, vol.groups, vol.disk, GetInode(vol.geo, vol.groups, vol.disk, g.num), mo)
    requires forall b: nat :: Uses(vol.geo.blksize, vol.disk, GetInode(vol.geo, vol.groups, vol.disk, g.num), mo, b) ==>
      DataBlock(vol.geo, vol.groups, vol.disk, b) && b !in m
    modifies vol, f
    ensures out == old(Flat(vol.geo.blksize, vol.disk, mo)[..g.size])
  {
    var n;
    ghost var m';
    n, m' := Write(vol, f, data, off, m);
    OtherFileKept(vol.geo, old(vol.groups), old(vol.disk), vol.groups, vol.disk, f.num, m, m', off, data, g.num, mo);
    out := Read(vol, g, 0, g.size, mo);
  }

  /** What was written is what is read, at any offset, across any block boundary and behind the old end of the file. */
  method WriteThenRead(vol: Volume, f: VInode, data: seq<byte>, off: nat, ghost m: seq<nat>) returns (out: seq<byte>)
    requires vol.Valid() && HasInode(vol.geo, vol.groups, f.num) && f.size <= Times(|m|, vol.geo.blksize)
    requires FileMapped(vol.geo, vol.groups, vol.disk, GetInode(vol.geo, vol.groups, vol.disk, f.num), m)
    requires CanGrow(vol.geo, vol.groups, vol.disk, GetInode(vol.geo, vol.groups, vol.disk, f.num), m, f.size,
                     off + |data|)
    modifies vol, f
    ensures out == data
  {
    var n;
    ghost var m';
    n, m' := Write(vol, f, data, off, m);
    ghost var flat := Flat(vol.geo.blksize, vol.disk, m');
    assert flat[off..off + n] == data by {
      BlitSlice(Flat(vol.geo.blksize, old(vol.disk), m'), off, data);
    }
    assert off + n <= f.size;
    out := Read(vol, f, off, n, m');
  }

  lemma BlitSlice<T>(s: seq<T>, off: nat, data: seq<T>)
    requires off + |data| <= |s|
    ensures Blit(s, off, data)[off..off + |data|] == data
  {}
}
