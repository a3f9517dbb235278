/** Directories on ext2: lookup, insertion and removal, refined to lists of entries. */
module Ext2Dir {
  import opened Common
  import opened Arith
  import opened Bytes
  import opened Ext2Volume
  import opened Ext2Inode
  import opened Ext2File
  import opened Ext2Dirent

  // ---------------------------------------------------------------- lists of entries

  /** Index of the first entry called `name`, or the length. */
  function Find(es: seq<Entry>, name: seq<byte>): (i: nat)
    ensures i <= |es| && (i < |es| ==> es[i].name == name)
    ensures forall k :: 0 <= k < i ==> es[k].name != name
  {
    FindFrom(es, name, 0)
  }

  function FindFrom(es: seq<Entry>, name: seq<byte>, k: nat): (i: nat)
    requires k <= |es|
    ensures k <= i <= |es| && (i < |es| ==> es[i].name == name)
    ensures forall j :: k <= j < i ==> es[j].name != name
    decreases |es| - k
  {
    if k == |es| || es[k].name == name then k else FindFrom(es, name, k + 1)
  }

  function LookupIn(es: seq<Entry>, name: seq<byte>): Option<nat> {
    if Find(es, name) < |es| then Some(es[Find(es, name)].inode) else None
  }

  lemma FindUnique(es: seq<Entry>, name: seq<byte>, i: nat)
    requires i <= |es| && (i < |es| ==> es[i].name == name)
    requires forall k :: 0 <= k < i ==> es[k].name != name
    ensures Find(es, name) == i
  {}

  lemma FindMiss(es: seq<Entry>, e: Entry, name: seq<byte>)
    requires Find(es, name) == |es| && e.name != name
    ensures Find(es + [e], name) == |es| + 1
  {
    FindUnique(es + [e], name, |es| + 1);
  }

  function Inserted(es: seq<Entry>, p: nat, e: Entry): (r: seq<Entry>)
    requires p <= |es|
    ensures |r| == |es| + 1 && r[p] == e
    ensures forall k :: 0 <= k < |r| && k != p ==> r[k] == es[if k < p then k else k - 1]
  {
    es[..p] + [e] + es[p..]
  }

  /** An insertion is seen by lookups of its own name only, and then exactly when no entry
      before it has that name. */
  lemma InsertedLookup(es: seq<Entry>, p: nat, e: Entry, name: seq<byte>)
    requires p <= |es|
    ensures LookupIn(Inserted(es, p, e), name) ==
      if name == e.name && Find(es, name) >= p then Some(e.inode) else LookupIn(es, name)
  {
    var es', i := Inserted(es, p, e), Find(es, name);
    FindUnique(es', name, if i < p then i else if name == e.name then p else i + 1);
  }

  /** Blanking an entry hides it from lookups of its own name and leaves every other name's alone. */
  lemma BlankedOther(es: seq<Entry>, i: nat, other: seq<byte>)
    requires i < |es| && other != es[i].name && other != []
    ensures LookupIn(es[i := BLANK], other) == LookupIn(es, other)
  {
    FindUnique(es[i := BLANK], other, Find(es, other));
  }

  lemma BlankedSelf(es: seq<Entry>, name: seq<byte>)
    requires Find(es, name) < |es| && name != []
    ensures var i := Find(es, name); LookupIn(es[i := BLANK], name) == LookupIn(es[i + 1..], name)
  {
    var i := Find(es, name);
    UpdateAsConcat(es, i, BLANK);
    forall k | 0 <= k < i + 1 ensures (es[..i] + [BLANK])[k].name != name {}
    LookupSkip(es[..i] + [BLANK], es[i + 1..], name);
  }

  /** Unlinking a name that was new when it was linked restores the lookup of every name. */
  lemma LinkThenUnlink(es: seq<Entry>, p: nat, e: Entry, name: seq<byte>)
    requires p <= |es| && e.name != [] && LookupIn(es, e.name) == None && name != []
    ensures var es' := Inserted(es, p, e);
      Find(es', e.name) == p && LookupIn(es'[p := BLANK], name) == LookupIn(es, name)
  {
    var es' := Inserted(es, p, e);
    FindUnique(es', e.name, p);
    if name == e.name {
      BlankedSelf(es', name);
      assert es'[p + 1..] == es[p..];
      FindUnique(es[p..], name, |es| - p);
    } else {
      BlankedOther(es', p, name);
      InsertedLookup(es, p, e, name);
    }
  }

  lemma UpdateAsConcat<T>(s: seq<T>, i: nat, x: T)
    requires i < |s|
    ensures s[i := x] == (s[..i] + [x]) + s[i + 1..]
  {}

  lemma LookupSkip(a: seq<Entry>, b: seq<Entry>, name: seq<byte>)
    requires forall k :: 0 <= k < |a| ==> a[k].name != name
    ensures LookupIn(a + b, name) == LookupIn(b, name)
  {
    FindUnique(a + b, name, |a| + Find(b, name));
  }

  // ---------------------------------------------------------------- directories

  ghost predicate Tiled(ds: seq<Block>) { forall i :: 0 <= i < |ds| ==> Chain(ds[i]) && ds[i] != [] }

  function DirEntries(ds: seq<Block>): seq<Entry>
    requires Tiled(ds)
  {
    if ds == [] then [] else Entries(ds[0]) + DirEntries(ds[1..])
  }

  lemma {:induction false} DirSplit(ds: seq<Block>, k: nat)
    requires Tiled(ds) && k < |ds|
    ensures Tiled(ds[..k]) && Tiled(ds[k + 1..])
    ensures DirEntries(ds) == DirEntries(ds[..k]) + (Entries(ds[k]) + DirEntries(ds[k + 1..]))
  {
    if k > 0 {
      DirSplit(ds[1..], k - 1);
      assert ds[1..][..k - 1] == ds[..k][1..] && ds[1..][k..] == ds[k + 1..];
      Assoc(Entries(ds[0]), DirEntries(ds[1..][..k - 1]), Entries(ds[k]) + DirEntries(ds[k + 1..]));
    }
  }

  lemma {:induction false} DirAppend(ds: seq<Block>, b: Block)
    requires Tiled(ds) && Chain(b) && b != []
    ensures Tiled(ds + [b]) && DirEntries(ds + [b]) == DirEntries(ds) + Entries(b)
  {
    DirSplit(ds + [b], |ds|);
    assert (ds + [b])[..|ds|] == ds && (ds + [b])[|ds| + 1..] == [];
  }

  /** A scan stands at record boundary `off` of block `k`, having passed the entries `seen`. */
  ghost predicate At(ds: seq<Block>, k: nat, off: nat, seen: seq<Entry>)
    requires Tiled(ds)
  {
    && k <= |ds|
    && (k == |ds| ==> off == 0 && seen == DirEntries(ds))
    && (k < |ds| ==> off < |ds[k]| && Reaches(ds[k], off) && seen == DirEntries(ds[..k]) + Before(ds[k], off))
  }

  /** What is still to come at that point. */
  ghost function Rest(ds: seq<Block>, k: nat, off: nat): seq<Entry>
    requires Tiled(ds) && k < |ds| && off <= |ds[k]| && Chain(ds[k][off..])
  {
    Entries(ds[k][off..]) + DirEntries(ds[k + 1..])
  }

  lemma AtRest(ds: seq<Block>, k: nat, off: nat, seen: seq<Entry>)
    requires Tiled(ds) && At(ds, k, off, seen) && k < |ds|
    ensures Chain(ds[k][off..]) && RecOk(ds[k][off..]) && DirEntries(ds) == seen + Rest(ds, k, off)
  {
    SplitAt(ds[k], off);
    DirSplit(ds, k);
    Assoc(Before(ds[k], off), Entries(ds[k][off..]), DirEntries(ds[k + 1..]));
    Assoc(DirEntries(ds[..k]), Before(ds[k], off), Rest(ds, k, off));
  }

  /** One step of a scan. */
  lemma Advance(ds: seq<Block>, k: nat, off: nat, seen: seq<Entry>)
    requires Tiled(ds) && At(ds, k, off, seen) && k < |ds|
    ensures Chain(ds[k][off..]) && RecOk(ds[k][off..])
    ensures var n, seen' := off + RecSize(ds[k][off..]), seen + [EntryAt(ds[k][off..])];
      if n >= |ds[k]| then At(ds, k + 1, 0, seen') else At(ds, k, n, seen')
  {
    var u := ds[k][off..];
    ReachChain(ds[k], off);
    ReachOver(ds[k], off, u, RecSize(u), EntryAt(u));
    var n := off + RecSize(u);
    Assoc(DirEntries(ds[..k]), Before(ds[k], off), [EntryAt(u)]);
    if n >= |ds[k]| {
      BlockPassed(ds, k, n);
    }
  }

  /** At the end of block `k` the scan stands at the start of the next one. */
  lemma BlockPassed(ds: seq<Block>, k: nat, n: nat)
    requires Tiled(ds) && k < |ds| && Reaches(ds[k], n) && n >= |ds[k]|
    ensures At(ds, k + 1, 0, DirEntries(ds[..k]) + Before(ds[k], n))
  {
    SplitAt(ds[k], n);
    assert ds[k][n..] == [];
    DirSplit(ds, k);
    if k + 1 < |ds| {
      DirAppend(ds[..k], ds[k]);
      assert ds[..k] + [ds[k]] == ds[..k + 1];
    } else {
      assert ds[k + 1..] == [];
    }
  }

  /** Replacing a block from the scan's position on. */
  lemma ReplaceAt(ds: seq<Block>, k: nat, off: nat, seen: seq<Entry>, b: Block)
    requires Tiled(ds) && At(ds, k, off, seen) && k < |ds| && |b| == |ds[k]|
    requires b[..off] == ds[k][..off] && Chain(b[off..])
    ensures Tiled(ds[k := b])
    ensures DirEntries(ds[k := b]) == seen + (Entries(b[off..]) + DirEntries(ds[k + 1..]))
  {
    ReplaceTail(ds[k], b, off, b[off..]);
    var ds' := ds[k := b];
    DirSplit(ds', k);
    assert ds'[..k] == ds[..k] && ds'[k + 1..] == ds[k + 1..];
    Assoc(Before(ds[k], off), Entries(b[off..]), DirEntries(ds[k + 1..]));
    Assoc(DirEntries(ds[..k]), Before(ds[k], off), Entries(b[off..]) + DirEntries(ds[k + 1..]));
  }

  // ---------------------------------------------------------------- the driver's scans

  function Contents(disk: Disk, m: seq<nat>): (ds: seq<Block>)
    requires forall i :: 0 <= i < |m| ==> m[i] < |disk|
    ensures |ds| == |m| && forall i :: 0 <= i < |m| ==> ds[i] == disk[m[i]]
  {
    seq(|m|, i requires 0 <= i < |m| => disk[m[i]])
  }

  /** The inode is a directory stored in the blocks `m`, each tiled exactly by records. */
  ghost predicate DirOk(geo: Geometry, gs: seq<Bgd>, disk: Disk, ino: Inode, m: seq<nat>)
    requires geo.Valid()
  {
    FileOk(geo, gs, disk, ino, m) && Tiled(Contents(disk, m))
  }

  /** The loop condition of the scans: bytes before the cursor against bytes in the directory. */
  lemma Inside(geo: Geometry, sectors: nat, n: nat, k: nat, off: nat)
    requires geo.Valid() && sectors == Times(n, geo.blksize / 512) && k <= n && off < geo.blksize
      && (k == n ==> off == 0)
    ensures off + Times(k, geo.blksize) < sectors * 512 <==> k < n
  {
    SectorBytes(geo.blksize / 512, n);
    if k < n {
      TimesMono(k, n, geo.blksize);
    }
  }

  /** `strlen(name) == name_len && !strncmp(name, entry->name, name_len)` */
  predicate Matches(s: seq<byte>, name: seq<byte>)
    requires RecOk(s)
  {
    |name| == NameLen(s) && name == s[HEADER..HEADER + NameLen(s)]
  }

  /** The scan shared by `ext2_lookup` and `ext2_unlink`: the first record called `name`. */
  method Scan(vol: Volume, ino: Inode, name: seq<byte>, ghost m: seq<nat>)
    returns (found: bool, blk: nat, offset: nat, buf: Block, ghost seen: seq<Entry>)
    requires vol.Valid() && DirOk(vol.geo, vol.groups, vol.disk, ino, m)
    ensures At(Contents(vol.disk, m), blk, offset, seen) && Find(seen, name) == |seen|
    ensures found <==> blk < |m|
    ensures found ==> buf == vol.disk[m[blk]] && RecOk(buf[offset..]) && EntryAt(buf[offset..]).name == name
  {
    var bs := vol.geo.blksize;
    ghost var ds := Contents(vol.disk, m);
    found, blk, offset, seen := false, 0, 0, [];
    buf := FirstBlock(vol, ino, m);
    while offset + Times(blk, bs) < Sectors(ino) * 512
      invariant At(ds, blk, offset, seen) && Find(seen, name) == |seen| && !found
      invariant blk < |m| ==> buf == ds[blk]
      invariant offset + Times(blk, bs) < Sectors(ino) * 512 <==> blk < |m|
      decreases |m| - blk, bs - offset
    {
      AtRest(ds, blk, offset, seen);
      if Matches(buf[offset..], name) {
        found := true;
        return;
      }
      blk, offset, buf, seen := OtherRecord(vol, ino, name, blk, offset, buf, ds, seen, m);
    }
  }

  /** Past a record with another name. */
  method OtherRecord(vol: Volume, ino: Inode, name: seq<byte>, blk: nat, offset: nat, buf: Block, ghost ds: seq<Block>,
                     ghost seen: seq<Entry>, ghost m: seq<nat>)
    returns (blk': nat, offset': nat, buf': Block, ghost seen': seq<Entry>)
    requires vol.Valid() && DirOk(vol.geo, vol.groups, vol.disk, ino, m) && ds == Contents(vol.disk, m)
    requires At(ds, blk, offset, seen) && blk < |ds| && buf == ds[blk] && Find(seen, name) == |seen|
    requires RecOk(buf[offset..]) && !Matches(buf[offset..], name)
    ensures At(ds, blk', offset', seen') && Find(seen', name) == |seen'| && (blk' < |m| ==> buf' == ds[blk'])
    ensures offset' + Times(blk', vol.geo.blksize) < Sectors(ino) * 512 <==> blk' < |m|
    ensures blk < blk' || (blk == blk' && offset < offset' < vol.geo.blksize)
  {
    FindMiss(seen, EntryAt(buf[offset..]), name);
    blk', offset', buf', seen' := NextRecord(vol, ino, blk, offset, buf, ds, seen, m);
  }

  /** The start of a scan. */
  method FirstBlock(vol: Volume, ino: Inode, ghost m: seq<nat>) returns (buf: Block)
    requires vol.Valid() && DirOk(vol.geo, vol.groups, vol.disk, ino, m)
    ensures |m| > 0 ==> buf == Contents(vol.disk, m)[0]
    ensures 0 + Times(0, vol.geo.blksize) < Sectors(ino) * 512 <==> 0 < |m|
  {
    FileIsMapped(vol.geo, vol.groups, vol.disk, ino, m);
    buf := LoadBlock(vol.geo.blksize, vol.disk, ino, 0, m);
    Inside(vol.geo, Sectors(ino), |m|, 0, 0);
  }

  /** To the record behind the cursor, its block loaded. */
  method NextRecord(vol: Volume, ino: Inode, blk: nat, offset: nat, buf: Block, ghost ds: seq<Block>,
                    ghost seen: seq<Entry>, ghost m: seq<nat>)
    returns (blk': nat, offset': nat, buf': Block, ghost seen': seq<Entry>)
    requires vol.Valid() && DirOk(vol.geo, vol.groups, vol.disk, ino, m) && ds == Contents(vol.disk, m)
    requires At(ds, blk, offset, seen) && blk < |ds| && buf == ds[blk]
    ensures RecOk(buf[offset..]) && seen' == seen + [EntryAt(buf[offset..])] && At(ds, blk', offset', seen')
    ensures blk' < |m| ==> buf' == ds[blk']
    ensures offset' + Times(blk', vol.geo.blksize) < Sectors(ino) * 512 <==> blk' < |m|
    ensures var next := offset + RecSize(buf[offset..]);
      offset < next && (if next >= vol.geo.blksize then blk' == blk + 1 && offset' == 0
        else blk' == blk && offset' == next)
  {
    FileIsMapped(vol.geo, vol.groups, vol.disk, ino, m);
    buf' := buf;
    blk', offset', seen' := StepOver(vol.geo.blksize, buf, blk, offset, ds, seen);
    if blk' != blk {
      buf' := LoadBlock(vol.geo.blksize, vol.disk, ino, blk', m);
    }
    Inside(vol.geo, Sectors(ino), |m|, blk', offset');
  }

  method LoadBlock(bs: nat, disk: Disk, ino: Inode, k: nat, ghost m: seq<nat>) returns (buf: Block)
    requires Mapped(bs, disk, ino, m) && k <= |m|
    ensures |buf| == bs && (k < |m| ==> buf == disk[m[k]])
  {
    buf := Rd(bs, disk, BlkOf(bs, disk, ino, k));
    if k < |m| {
      assert StoredAt(bs, disk, ino, m, k);
    }
  }

  /** Past the record at the cursor, to the next record of the block or to the next block. */
  method StepOver(bs: nat, buf: Block, blk: nat, offset: nat, ghost ds: seq<Block>, ghost seen: seq<Entry>)
    returns (blk': nat, offset': nat, ghost seen': seq<Entry>)
    requires Tiled(ds) && At(ds, blk, offset, seen) && blk < |ds| && buf == ds[blk] && |buf| == bs
    ensures RecOk(buf[offset..]) && seen' == seen + [EntryAt(buf[offset..])] && At(ds, blk', offset', seen')
    ensures var next := offset + RecSize(buf[offset..]);
      offset < next && if next >= bs then blk' == blk + 1 && offset' == 0 else blk' == blk && offset' == next
  {
    Advance(ds, blk, offset, seen);
    seen' := seen + [EntryAt(buf[offset..])];
    blk', offset' := blk, offset + RecSize(buf[offset..]);
    if offset' >= bs {
      blk', offset' := blk + 1, 0;
    }
  }

  // ---------------------------------------------------------------- lookup and removal

  lemma FindAt(seen: seq<Entry>, rest: seq<Entry>, name: seq<byte>)
    requires Find(seen, name) == |seen| && rest != [] && rest[0].name == name
    ensures Find(seen + rest, name) == |seen| && LookupIn(seen + rest, name) == Some(rest[0].inode)
  {
    FindUnique(seen + rest, name, |seen|);
  }

  /** `ext2_lookup` */
  method Lookup(vol: Volume, dir: nat, name: seq<byte>, ghost m: seq<nat>) returns (r: Option<nat>)
    requires vol.Valid() && HasInode(vol.geo, vol.groups, dir)
    requires DirOk(vol.geo, vol.groups, vol.disk, GetInode(vol.geo, vol.groups, vol.disk, dir), m)
    ensures r == LookupIn(DirEntries(Contents(vol.disk, m)), name)
  {
    var ino := ReadInode(vol, dir);
    var found, blk, offset, buf;
    ghost var seen;
    found, blk, offset, buf, seen := Scan(vol, ino, name, m);
    if !found { return None; }
    ghost var ds := Contents(vol.disk, m);
    AtRest(ds, blk, offset, seen);
    FindAt(seen, Rest(ds, blk, offset), name);
    r := Some(U32(buf[offset..], 0));
  }

  /** A data block of the file is written back. */
  method StoreBlock(vol: Volume, ino: Inode, k: nat, b: Block, ghost m: seq<nat>)
    requires vol.Valid() && FileOk(vol.geo, vol.groups, vol.disk, ino, m) && k < |m| && |b| == vol.geo.blksize
    modifies vol`disk
    ensures vol.Valid() && vol.disk == old(vol.disk)[m[k] := b]
    ensures FileOk(vol.geo, vol.groups, vol.disk, ino, m)
    ensures forall n: nat :: HasInode(vol.geo, vol.groups, n) ==>
      GetInode(vol.geo, vol.groups, vol.disk, n) == old(GetInode(vol.geo, vol.groups, vol.disk, n))
    ensures Contents(vol.disk, m) == Contents(old(vol.disk), m)[k := b]
    ensures forall c: nat :: Free(vol.geo, vol.groups, vol.disk, c) == Free(vol.geo, vol.groups, old(vol.disk), c)
  {
    FileIsMapped(vol.geo, vol.groups, vol.disk, ino, m);
    assert StoredAt(vol.geo.blksize, vol.disk, ino, m, k);
    vol.disk := Wr(vol.disk, BlkOf(vol.geo.blksize, vol.disk, ino, k), b);
    DataFrame(vol.geo, vol.groups, old(vol.disk), vol.disk);
    FileOkFrame(vol.geo, vol.groups, old(vol.disk), vol.disk, ino, m);
  }

  lemma BlitTail<T>(b: seq<T>, off: nat, x: nat, c: seq<T>)
    requires off + x + |c| <= |b|
    ensures Blit(b, off + x, c)[off..] == Blit(b[off..], x, c)
    ensures Blit(b, off + x, c)[..off] == b[..off]
  {}

  /** Zeroing the record at `offset` of a directory blanks one entry. */
  lemma ZeroAt(ds: seq<Block>, k: nat, off: nat, seen: seq<Entry>, b: Block)
    requires Tiled(ds) && At(ds, k, off, seen) && k < |ds| && |b| == |ds[k]| && b[..off] == ds[k][..off]
    requires RecOk(ds[k][off..]) && b[off..] == Zeroed(ds[k][off..])
    ensures Tiled(ds[k := b]) && |seen| < |DirEntries(ds)|
    ensures DirEntries(ds[k := b]) == DirEntries(ds)[|seen| := BLANK]
  {
    AtRest(ds, k, off, seen);
    var s, rest := ds[k][off..], DirEntries(ds[k + 1..]);
    var tail := Entries(s[RecSize(s)..]);
    ZeroedEntries(s);
    ReplaceAt(ds, k, off, seen, b);
    SwapHead(seen, EntryAt(s), BLANK, tail, rest);
  }

  lemma SwapHead<T>(a: seq<T>, x: T, y: T, b: seq<T>, c: seq<T>)
    ensures a + (([y] + b) + c) == (a + (([x] + b) + c))[|a| := y]
  {}

  /** `ext2_unlink`: blanks the first record called `name`; the directory stays exactly tiled. */
  method Unlink(vol: Volume, dir: nat, name: seq<byte>, ghost m: seq<nat>) returns (ok: bool)
    requires vol.Valid() && HasInode(vol.geo, vol.groups, dir)
    requires DirOk(vol.geo, vol.groups, vol.disk, GetInode(vol.geo, vol.groups, vol.disk, dir), m)
    modifies vol`disk
    ensures vol.Valid() && |vol.disk| == |old(vol.disk)|
    ensures forall n: nat :: HasInode(vol.geo, vol.groups, n) ==>
      GetInode(vol.geo, vol.groups, vol.disk, n) == old(GetInode(vol.geo, vol.groups, vol.disk, n))
    ensures DirOk(vol.geo, vol.groups, vol.disk, GetInode(vol.geo, vol.groups, vol.disk, dir), m)
    ensures var es := old(DirEntries(Contents(vol.disk, m)));
      && (ok <==> Find(es, name) < |es|)
      && DirEntries(Contents(vol.disk, m)) == if ok then es[Find(es, name) := BLANK] else es
    ensures forall b :: 0 <= b < |vol.disk| && b !in m ==> vol.disk[b] == old(vol.disk)[b]
    ensures forall b: nat :: Free(vol.geo, vol.groups, vol.disk, b) == Free(vol.geo, vol.groups, old(vol.disk), b)
  {
    var ino := ReadInode(vol, dir);
    var blk, offset, buf;
    ghost var seen;
    ok, blk, offset, buf, seen := Scan(vol, ino, name, m);
    if !ok { return; }
    FoundAt(Contents(vol.disk, m), blk, offset, seen, name);
    UnlinkAt(vol, ino, blk, offset, buf, seen, m);
  }

  lemma FoundAt(ds: seq<Block>, k: nat, off: nat, seen: seq<Entry>, name: seq<byte>)
    requires Tiled(ds) && At(ds, k, off, seen) && k < |ds| && Find(seen, name) == |seen|
    requires RecOk(ds[k][off..]) && EntryAt(ds[k][off..]).name == name
    ensures Find(DirEntries(ds), name) == |seen| < |DirEntries(ds)|
  {
    AtRest(ds, k, off, seen);
    FindAt(seen, Rest(ds, k, off), name);
  }

  /** The removal itself: the record at the cursor is zeroed and its block written back. */
  method UnlinkAt(vol: Volume, ino: Inode, blk: nat, offset: nat, buf: Block, ghost seen: seq<Entry>, ghost m: seq<nat>)
    requires vol.Valid() && DirOk(vol.geo, vol.groups, vol.disk, ino, m)
    requires At(Contents(vol.disk, m), blk, offset, seen) && blk < |m| && buf == vol.disk[m[blk]]
      && RecOk(buf[offset..])
    modifies vol`disk
    ensures vol.Valid() && DirOk(vol.geo, vol.groups, vol.disk, ino, m) && |vol.disk| == |old(vol.disk)|
    ensures forall n: nat :: HasInode(vol.geo, vol.groups, n) ==>
      GetInode(vol.geo, vol.groups, vol.disk, n) == old(GetInode(vol.geo, vol.groups, vol.disk, n))
    ensures |seen| < |old(DirEntries(Contents(vol.disk, m)))|
    ensures DirEntries(Contents(vol.disk, m)) == old(DirEntries(Contents(vol.disk, m)))[|seen| := BLANK]
    ensures forall b :: 0 <= b < |vol.disk| && b !in m ==> vol.disk[b] == old(vol.disk)[b]
    ensures forall b: nat :: Free(vol.geo, vol.groups, vol.disk, b) == Free(vol.geo, vol.groups, old(vol.disk), b)
  {
    var buf' := ZeroRecord(buf, offset);
    ZeroAt(Contents(vol.disk, m), blk, offset, seen, buf');
    StoreBlock(vol, ino, blk, buf', m);
  }

  /** `memset(entry, 0, size); entry->size = size;` */
  method ZeroRecord(buf: Block, offset: nat) returns (buf': Block)
    requires offset <= |buf| && RecOk(buf[offset..])
    ensures |buf'| == |buf| && buf'[..offset] == buf[..offset] && buf'[offset..] == Zeroed(buf[offset..])
  {
    var size := RecSize(buf[offset..]);
    var zeros := seq(size, _ => 0);
    buf' := Blit(buf, offset, zeros);
    BlitTail(buf, offset, 0, zeros);
    BlitTail(buf', offset, 4, Enc16(size));
    buf' := Blit(buf', offset + 4, Enc16(size));
  }

  // ---------------------------------------------------------------- insertion

  /** No record of the chain leaves room for `n` more bytes. */
  predicate NoRoom(s: seq<byte>, n: nat)
    requires Chain(s)
  {
    s == [] || (!HasSlack(s, n) && NoRoom(s[RecSize(s)..], n))
  }

  ghost predicate Full(ds: seq<Block>, n: nat)
    requires Tiled(ds)
  {
    forall i :: 0 <= i < |ds| ==> NoRoom(ds[i], n)
  }

  /** No record before offset `off` leaves room for `n` more bytes. */
  predicate NoRoomBefore(s: seq<byte>, off: nat, n: nat)
    requires Chain(s) && Reaches(s, off)
  {
    off == 0 || (!HasSlack(s, n) && NoRoomBefore(s[RecSize(s)..], off - RecSize(s), n))
  }

  /** No record before offset `off` of block `k` leaves room for `n` more bytes. */
  ghost predicate NoRoomSoFar(ds: seq<Block>, k: nat, off: nat, n: nat)
    requires Tiled(ds)
  {
    && (forall i :: 0 <= i < k && i < |ds| ==> NoRoom(ds[i], n))
    && (k < |ds| ==> Reaches(ds[k], off) && NoRoomBefore(ds[k], off, n))
  }

  /** The record at offset `off` of block `k`, behind the entries `seen`, is the first that leaves room. */
  ghost predicate FirstRoom(ds: seq<Block>, n: nat, k: nat, off: nat, seen: seq<Entry>)
    requires Tiled(ds)
  {
    && At(ds, k, off, seen) && k < |ds| && NoRoomSoFar(ds, k, off, n)
    && RecOk(ds[k][off..]) && HasSlack(ds[k][off..], n)
  }

  /** The scan of `ext2_append_dirent`: the first record with room for `n` more bytes. */
  method FindRoom(vol: Volume, ino: Inode, n: nat, ghost m: seq<nat>)
    returns (found: bool, blk: nat, offset: nat, buf: Block, ghost seen: seq<Entry>)
    requires vol.Valid() && DirOk(vol.geo, vol.groups, vol.disk, ino, m)
    ensures At(Contents(vol.disk, m), blk, offset, seen) && (found <==> blk < |m|)
    ensures found ==> buf == vol.disk[m[blk]] && FirstRoom(Contents(vol.disk, m), n, blk, offset, seen)
    ensures found <==> !Full(Contents(vol.disk, m), n)
  {
    var bs := vol.geo.blksize;
    ghost var ds := Contents(vol.disk, m);
    found, blk, offset, seen := false, 0, 0, [];
    buf := FirstBlock(vol, ino, m);
    while offset + Times(blk, bs) < Sectors(ino) * 512
      invariant At(ds, blk, offset, seen) && !found && NoRoomSoFar(ds, blk, offset, n)
      invariant blk < |m| ==> buf == ds[blk]
      invariant offset + Times(blk, bs) < Sectors(ino) * 512 <==> blk < |m|
      decreases |m| - blk, bs - offset
    {
      AtRest(ds, blk, offset, seen);
      if HasSlack(buf[offset..], n) {
        found := true;
        RoomIn(buf, offset, n);
        return;
      }
      blk, offset, buf, seen := FullRecord(vol, ino, n, blk, offset, buf, ds, seen, m);
    }
  }

  /** Past a record without room. */
  method FullRecord(vol: Volume, ino: Inode, n: nat, blk: nat, offset: nat, buf: Block, ghost ds: seq<Block>,
                    ghost seen: seq<Entry>, ghost m: seq<nat>)
    returns (blk': nat, offset': nat, buf': Block, ghost seen': seq<Entry>)
    requires vol.Valid() && DirOk(vol.geo, vol.groups, vol.disk, ino, m) && ds == Contents(vol.disk, m)
    requires At(ds, blk, offset, seen) && blk < |ds| && buf == ds[blk] && NoRoomSoFar(ds, blk, offset, n)
    requires RecOk(buf[offset..]) && !HasSlack(buf[offset..], n)
    ensures At(ds, blk', offset', seen') && NoRoomSoFar(ds, blk', offset', n) && (blk' < |m| ==> buf' == ds[blk'])
    ensures offset' + Times(blk', vol.geo.blksize) < Sectors(ino) * 512 <==> blk' < |m|
    ensures blk < blk' || (blk == blk' && offset < offset' < vol.geo.blksize)
  {
    blk', offset', buf', seen' := NextRecord(vol, ino, blk, offset, buf, ds, seen, m);
    NoRoomStep(ds, blk, offset, n, blk', offset');
  }

  lemma NoRoomStep(ds: seq<Block>, k: nat, off: nat, n: nat, k': nat, off': nat)
    requires Tiled(ds) && k < |ds| && off < |ds[k]| && NoRoomSoFar(ds, k, off, n)
    requires RecOk(ds[k][off..]) && !HasSlack(ds[k][off..], n)
    requires var next := off + RecSize(ds[k][off..]);
      if next >= |ds[k]| then k' == k + 1 && off' == 0 else k' == k && off' == next
    ensures NoRoomSoFar(ds, k', off', n)
  {
    var u := ds[k][off..];
    NoRoomOver(ds[k], off, u, RecSize(u), n);
    if k' != k {
      NoRoomAtEnd(ds[k], off + RecSize(u), n);
    }
  }

  lemma {:induction false} NoRoomOver(s: seq<byte>, off: nat, u: seq<byte>, r: nat, n: nat)
    requires Chain(s) && Reaches(s, off) && off < |s| && s[off..] == u && RecOk(u) && r == RecSize(u)
    requires NoRoomBefore(s, off, n) && !HasSlack(u, n)
    ensures Reaches(s, off + r) && NoRoomBefore(s, off + r, n)
    decreases |s|
  {
    if off > 0 {
      var z, t := ReachTail(s, off);
      NoRoomOver(t, off - z, u, r, n);
    } else {
      assert s[off..] == s;
    }
  }

  lemma {:induction false} NoRoomAtEnd(s: seq<byte>, off: nat, n: nat)
    requires Chain(s) && Reaches(s, off) && off >= |s| && NoRoomBefore(s, off, n)
    ensures NoRoom(s, n)
    decreases |s|
  {
    if s != [] {
      NoRoomAtEnd(s[RecSize(s)..], off - RecSize(s), n);
    }
  }

  lemma {:induction false} RoomIn(s: seq<byte>, off: nat, n: nat)
    requires Chain(s) && Reaches(s, off) && off < |s| && RecOk(s[off..]) && HasSlack(s[off..], n)
    ensures !NoRoom(s, n)
    decreases |s|
  {
    if off > 0 {
      var z, t := ReachTail(s, off);
      RoomIn(t, off - z, n);
    } else {
      assert s[off..] == s;
    }
  }

  /** There is only one first. */
  lemma FirstRoomUnique(ds: seq<Block>, n: nat, k: nat, off: nat, seen: seq<Entry>, k': nat, off': nat,
                        seen': seq<Entry>)
    requires Tiled(ds) && FirstRoom(ds, n, k, off, seen) && FirstRoom(ds, n, k', off', seen')
    ensures k == k' && off == off' && seen == seen'
  {
    RoomIn(ds[k], off, n);
    RoomIn(ds[k'], off', n);
    if off < off' {
      NoneBefore(ds[k], off, off', n, ds[k][off..]);
    } else if off' < off {
      NoneBefore(ds[k], off', off, n, ds[k][off'..]);
    }
  }

  lemma {:induction false} NoneBefore(s: seq<byte>, a: nat, b: nat, n: nat, u: seq<byte>)
    requires Chain(s) && Reaches(s, a) && Reaches(s, b) && a < b && a < |s| && s[a..] == u && RecOk(u)
    requires NoRoomBefore(s, b, n)
    ensures !HasSlack(u, n)
    decreases |s|
  {
    if a > 0 {
      var z, t := ReachTail(s, a);
      NoneBefore(t, a - z, b - z, n, u);
    } else {
      assert s[a..] == s;
    }
  }

  /** Splitting the record at `off` of a directory inserts one entry right after it. */
  lemma SpliceAt(ds: seq<Block>, k: nat, off: nat, seen: seq<Entry>, b: Block, d: seq<byte>)
    requires Tiled(ds) && At(ds, k, off, seen) && k < |ds| && |b| == |ds[k]| && b[..off] == ds[k][..off]
    requires RecOk(ds[k][off..]) && DirentOk(d) && HasSlack(ds[k][off..], |d|) && b[off..] == Splice(ds[k][off..], d)
    ensures Tiled(ds[k := b]) && |seen| < |DirEntries(ds)|
    ensures DirEntries(ds[k := b]) == Inserted(DirEntries(ds), |seen| + 1, EntryAt(d))
  {
    AtRest(ds, k, off, seen);
    var s, rest := ds[k][off..], DirEntries(ds[k + 1..]);
    var tail := Entries(s[RecSize(s)..]);
    SpliceEntries(s, d);
    ReplaceAt(ds, k, off, seen, b);
    InsertSecond(seen, EntryAt(s), EntryAt(d), tail, rest);
  }

  lemma InsertSecond(a: seq<Entry>, x: Entry, y: Entry, b: seq<Entry>, c: seq<Entry>)
    ensures a + (([x, y] + b) + c) == Inserted(a + (([x] + b) + c), |a| + 1, y)
  {}

  /** `dirent->size = entry->size - need; memcpy(entry + need, dirent, orig); entry->size = need;` */
  method SpliceRecord(buf: Block, offset: nat, d: seq<byte>) returns (buf': Block)
    requires offset <= |buf| && RecOk(buf[offset..]) && DirentOk(d) && HasSlack(buf[offset..], |d|)
    ensures |buf'| == |buf| && buf'[..offset] == buf[..offset] && buf'[offset..] == Splice(buf[offset..], d)
  {
    var need := Needed(buf[offset..]);
    var d' := Blit(d, 4, Enc16(RecSize(buf[offset..]) - need));
    buf' := Blit(buf, offset + need, d');
    BlitTail(buf, offset, need, d');
    BlitTail(buf', offset, 4, Enc16(need));
    buf' := Blit(buf', offset + 4, Enc16(need));
  }

  /** The volume has changed in this only: directory `dir`, stored in `m` before and in `m'` now,
      has gained the entry `e` at position `p`. */
  ghost predicate EntryAdded(geo: Geometry, gs: seq<Bgd>, disk: Disk, gs': seq<Bgd>, disk': Disk,
                             dir: nat, m: seq<nat>, m': seq<nat>, p: nat, e: Entry)
  {
    && Consistent(geo, gs, disk) && HasInode(geo, gs, dir) && DirOk(geo, gs, disk, GetInode(geo, gs, disk, dir), m)
    && Consistent(geo, gs', disk') && HasInode(geo, gs', dir)
    && DirOk(geo, gs', disk', GetInode(geo, gs', disk', dir), m')
    && OthersKept(geo, gs, disk, gs', disk', dir, m') && StaysFree(geo, gs, disk, gs', disk', m')
    && (m' == m || (|m'| == |m| + 1 && m < m' && Free(geo, gs, disk, m'[|m|])))
    && p <= |DirEntries(Contents(disk, m))|
    && DirEntries(Contents(disk', m')) == Inserted(DirEntries(Contents(disk, m)), p, e)
  }

  /** The slack case of `ext2_append_dirent`. */
  method AppendInSlack(vol: Volume, ghost dir: nat, ino: Inode, blk: nat, offset: nat, buf: Block, d: seq<byte>,
                       ghost seen: seq<Entry>, ghost m: seq<nat>)
    requires vol.Valid() && HasInode(vol.geo, vol.groups, dir) && ino == GetInode(vol.geo, vol.groups, vol.disk, dir)
    requires DirOk(vol.geo, vol.groups, vol.disk, ino, m) && DirentOk(d)
    requires At(Contents(vol.disk, m), blk, offset, seen) && blk < |m| && buf == vol.disk[m[blk]]
    requires RecOk(buf[offset..]) && HasSlack(buf[offset..], |d|)
    modifies vol`disk
    ensures EntryAdded(vol.geo, old(vol.groups), old(vol.disk), vol.groups, vol.disk, dir, m, m, |seen| + 1, EntryAt(d))
  {
    var buf' := SpliceRecord(buf, offset, d);
    StoreBlock(vol, ino, blk, buf', m);
    SlackAdded(vol.geo, vol.groups, old(vol.disk), vol.disk, dir, ino, m, blk, offset, buf', seen, d);
  }

  lemma SlackAdded(geo: Geometry, gs: seq<Bgd>, disk: Disk, disk': Disk, dir: nat, ino: Inode, m: seq<nat>, blk: nat,
                   offset: nat, buf: Block, seen: seq<Entry>, d: seq<byte>)
    requires Consistent(geo, gs, disk) && Consistent(geo, gs, disk') && HasInode(geo, gs, dir)
    requires ino == GetInode(geo, gs, disk, dir) && DirOk(geo, gs, disk, ino, m) && FileOk(geo, gs, disk', ino, m)
    requires At(Contents(disk, m), blk, offset, seen) && blk < |m| && |buf| == |disk[m[blk]]|
    requires buf[..offset] == disk[m[blk]][..offset] && RecOk(disk[m[blk]][offset..]) && DirentOk(d)
    requires HasSlack(disk[m[blk]][offset..], |d|) && buf[offset..] == Splice(disk[m[blk]][offset..], d)
    requires disk' == disk[m[blk] := buf] && Contents(disk', m) == Contents(disk, m)[blk := buf]
    requires forall n: nat :: HasInode(geo, gs, n) ==> GetInode(geo, gs, disk', n) == GetInode(geo, gs, disk, n)
    requires forall b: nat :: Free(geo, gs, disk', b) == Free(geo, gs, disk, b)
    ensures EntryAdded(geo, gs, disk, gs, disk', dir, m, m, |seen| + 1, EntryAt(d))
  {
    SpliceAt(Contents(disk, m), blk, offset, seen, buf, d);
    DataNotFree(geo, gs, disk, m);
  }

  /** The other case of `ext2_append_dirent`: a block is added that holds the record alone. */
  method AppendInFresh(vol: Volume, dir: nat, ino: Inode, blk: nat, d: seq<byte>, ghost m: seq<nat>)
    returns (ghost b: nat)
    requires vol.Valid() && HasInode(vol.geo, vol.groups, dir) && ino == GetInode(vol.geo, vol.groups, vol.disk, dir)
    requires DirOk(vol.geo, vol.groups, vol.disk, ino, m) && blk == |m| < DIRECT && TotalFree(vol.groups) > 0
    requires DirentOk(d) && |d| <= vol.geo.blksize && |vol.disk| <= 0x1_0000_0000
    modifies vol
    ensures EntryAdded(vol.geo, old(vol.groups), old(vol.disk), vol.groups, vol.disk, dir, m, m + [b],
      |old(DirEntries(Contents(vol.disk, m)))|, EntryAt(d))
  {
    Quads(vol.geo.blksize);
    var buf := FreshBlock(vol.geo.blksize, d);
    var ino';
    ino', b := AddBlock(vol, ino, blk, buf, m);
    ghost var disk1 := vol.disk;
    StoreInode(vol, dir, ino', m + [b]);
    FreshAdded(vol.geo, old(vol.groups), old(vol.disk), vol.groups, disk1, vol.disk, dir, ino', m, b, d);
  }

  lemma FreshAdded(geo: Geometry, gs: seq<Bgd>, disk: Disk, gs': seq<Bgd>, disk1: Disk, disk2: Disk,
                   dir: nat, ino': Inode, m: seq<nat>, b: nat, d: seq<byte>)
    requires Consistent(geo, gs, disk) && Consistent(geo, gs', disk1) && Consistent(geo, gs', disk2)
    requires HasInode(geo, gs, dir) && DirOk(geo, gs, disk, GetInode(geo, gs, disk, dir), m) && HasInode(geo, gs', dir)
    requires DirentOk(d) && |d| <= geo.blksize && geo.blksize % 4 == 0
    requires BlockAdded(geo, gs, disk, gs', disk1, ino', m, b, FreshBlock(geo.blksize, d))
    requires InodeStored(geo, gs', disk1, disk2, dir, ino', m + [b])
    ensures EntryAdded(geo, gs, disk, gs', disk2, dir, m, m + [b], |DirEntries(Contents(disk, m))|, EntryAt(d))
  {
    var ds, buf := Contents(disk, m), FreshBlock(geo.blksize, d);
    InsertedLast(DirEntries(ds), EntryAt(d));
    FreshBlockEntries(geo.blksize, d);
    DirAppend(ds, buf);
    ContentsFrame(geo, gs', disk1, disk2, ino', m + [b]);
    StaysFreeOf(geo, gs, disk, gs', disk2, m, [b]);
  }

  lemma InsertedLast(es: seq<Entry>, e: Entry)
    ensures Inserted(es, |es|, e) == es + [e]
  {}

  lemma Quads(n: nat)
    requires n % 512 == 0
    ensures n % 4 == 0
  {}

  lemma ContentsFrame(geo: Geometry, gs: seq<Bgd>, disk: Disk, disk': Disk, ino: Inode, m: seq<nat>)
    requires geo.Valid() && FileOk(geo, gs, disk, ino, m) && |disk'| == |disk|
    requires forall b: nat :: b < |disk| && (forall r :: !Plays(geo, gs, b, r)) ==> disk'[b] == disk[b]
    ensures Contents(disk', m) == Contents(disk, m)
  {
    forall i | 0 <= i < |m| ensures disk'[m[i]] == disk[m[i]] {
      assert DataBlock(geo, gs, disk, m[i]);
    }
  }

  /** The file has gained the free block `b`, filled with `buf`; inodes and other blocks without a role are as
      before. */
  ghost predicate BlockAdded(geo: Geometry, gs: seq<Bgd>, disk: Disk, gs': seq<Bgd>, disk': Disk,
                             ino': Inode, m: seq<nat>, b: nat, buf: Block)
    requires Consistent(geo, gs, disk) && Consistent(geo, gs', disk') && forall i :: 0 <= i < |m| ==> m[i] < |disk|
  {
    && FileOk(geo, gs', disk', ino', m + [b]) && SameLayout(gs, gs') && |disk'| == |disk|
    && Contents(disk', m + [b]) == Contents(disk, m) + [buf]
    && Free(geo, gs, disk, b) && StaysFree(geo, gs, disk, gs', disk', [b])
    && (forall n: nat :: HasInode(geo, gs, n) ==>
          HasInode(geo, gs', n) && GetInode(geo, gs', disk', n) == GetInode(geo, gs, disk, n))
    && (forall c: nat, r :: Plays(geo, gs', c, r) == Plays(geo, gs, c, r))
    && (forall c: nat :: c < |disk| && c != b && (forall r :: !Plays(geo, gs, c, r)) ==> disk'[c] == disk[c])
  }

  /** A block taken from the free ones is appended to the file and filled with `buf`. */
  method AddBlock(vol: Volume, ino: Inode, blk: nat, buf: Block, ghost m: seq<nat>) returns (ino': Inode, ghost b: nat)
    requires vol.Valid() && FileOk(vol.geo, vol.groups, vol.disk, ino, m) && blk == |m| < DIRECT
    requires TotalFree(vol.groups) > 0 && |buf| == vol.geo.blksize && |vol.disk| <= 0x1_0000_0000
    modifies vol
    ensures vol.Valid() && BlockAdded(vol.geo, old(vol.groups), old(vol.disk), vol.groups, vol.disk, ino', m, b, buf)
  {
    ino', b := AppendBlock(vol, ino, m);
    ghost var disk1 := vol.disk;
    AllocFrame(vol.geo, old(vol.groups), old(vol.disk), vol.groups, disk1);
    ContentsFrame(vol.geo, old(vol.groups), old(vol.disk), disk1, ino, m);
    assert Free(vol.geo, old(vol.groups), old(vol.disk), [b][0]);
    ContentsAppend(disk1, m, b, buf);
    StoreBlock(vol, ino', blk, buf, m + [b]);
    FilledAdded(vol.geo, old(vol.groups), old(vol.disk), vol.groups, disk1, vol.disk, ino', m, b, buf);
  }

  lemma FilledAdded(geo: Geometry, gs: seq<Bgd>, disk: Disk, gs': seq<Bgd>, disk1: Disk, disk2: Disk,
                    ino': Inode, m: seq<nat>, b: nat, buf: Block)
    requires Consistent(geo, gs, disk) && Consistent(geo, gs', disk1) && Consistent(geo, gs', disk2)
    requires Free(geo, gs, disk, b)
    requires |disk1| == |disk| && (forall i :: 0 <= i < |m| ==> m[i] < |disk|) && b < |disk| && disk2 == disk1[b := buf]
    requires SameLayout(gs, gs') && StaysFree(geo, gs, disk, gs', disk1, [b])
    requires forall c: nat :: Free(geo, gs', disk2, c) == Free(geo, gs', disk1, c)
    requires FileOk(geo, gs', disk2, ino', m + [b]) && Contents(disk2, m + [b]) == Contents(disk, m) + [buf]
    requires forall n: nat :: HasInode(geo, gs, n) ==>
      HasInode(geo, gs', n) && GetInode(geo, gs', disk1, n) == GetInode(geo, gs, disk, n)
    requires forall n: nat :: HasInode(geo, gs', n) ==> GetInode(geo, gs', disk2, n) == GetInode(geo, gs', disk1, n)
    requires forall c: nat, r :: Plays(geo, gs', c, r) == Plays(geo, gs, c, r)
    requires forall c: nat :: c < |disk| && (forall r :: !Plays(geo, gs, c, r)) ==> disk1[c] == disk[c]
    ensures BlockAdded(geo, gs, disk, gs', disk2, ino', m, b, buf)
  {}

  lemma ContentsAppend(disk: Disk, m: seq<nat>, b: nat, buf: Block)
    requires (forall i :: 0 <= i < |m| ==> m[i] < |disk|) && b < |disk|
    ensures Contents(disk, m + [b])[|m| := buf] == Contents(disk, m) + [buf]
  {}

  /** Where a record of `n` bytes goes: right behind the first record that leaves room for it, or to the end. */
  ghost predicate InsertedAt(ds: seq<Block>, n: nat, p: nat)
    requires Tiled(ds)
  {
    if Full(ds, n) then p == |DirEntries(ds)|
    else exists k: nat, off: nat, seen :: FirstRoom(ds, n, k, off, seen) && p == |seen| + 1
  }

  /** `ext2_append_dirent`: the record goes into the first slack that holds it, or else into a
      block of its own; either way exactly one entry is inserted. */
  method AppendDirent(vol: Volume, dir: nat, d: seq<byte>, ghost m: seq<nat>) returns (ghost m': seq<nat>, ghost p: nat)
    requires vol.Valid() && HasInode(vol.geo, vol.groups, dir) && |vol.disk| <= 0x1_0000_0000
    requires DirOk(vol.geo, vol.groups, vol.disk, GetInode(vol.geo, vol.groups, vol.disk, dir), m)
    requires DirentOk(d) && |d| <= vol.geo.blksize
    requires Full(Contents(vol.disk, m), |d|) ==> |m| < DIRECT && TotalFree(vol.groups) > 0
    modifies vol
    ensures EntryAdded(vol.geo, old(vol.groups), old(vol.disk), vol.groups, vol.disk, dir, m, m', p, EntryAt(d))
    ensures m' == m <==> !old(Full(Contents(vol.disk, m), |d|))
    ensures InsertedAt(old(Contents(vol.disk, m)), |d|, p)
  {
    var ino := ReadInode(vol, dir);
    var found, blk, offset, buf;
    ghost var seen;
    found, blk, offset, buf, seen := FindRoom(vol, ino, |d|, m);
    if found {
      AppendInSlack(vol, dir, ino, blk, offset, buf, d, seen, m);
      m', p := m, |seen| + 1;
    } else {
      p := |DirEntries(Contents(vol.disk, m))|;
      ghost var b := AppendInFresh(vol, dir, ino, blk, d, m);
      m' := m + [b];
    }
  }

  /** What a directory keeps of a name whose length is stored in one byte. */
  function StoredName(name: seq<byte>): seq<byte> { name[..|name| % 256] }

  /** The record that `ext2_mkentry` and `ext2_link` build; `name_len` is a single byte. */
  function MkDirent(inode: nat, kind: byte, name: seq<byte>): (d: seq<byte>)
    requires inode < 0x1_0000_0000 && HEADER + |name| < 0x1_0000
    ensures DirentOk(d) && |d| == HEADER + |name|
    ensures EntryAt(d) == Entry(StoredName(name), inode, kind)
  {
    var d := Enc32(inode) + Enc16(HEADER + |name|) + [|name| % 256, kind] + name;
    assert d[4] == Enc16(HEADER + |name|)[0] && d[5] == Enc16(HEADER + |name|)[1];
    assert d[0] == Enc32(inode)[0] && d[1] == Enc32(inode)[1] && d[2] == Enc32(inode)[2] && d[3] == Enc32(inode)[3];
    assert d[HEADER..] == name;
    assert d[HEADER..HEADER + |name| % 256] == d[HEADER..][..|name| % 256];
    d
  }

  /** `ext2_link`: a new name finds the linked inode if it is shorter than 256 bytes; `LinkChanges` says which lookups
      change at all. */
  method Link(vol: Volume, dir: nat, inode: nat, kind: byte, name: seq<byte>, ghost m: seq<nat>)
    returns (ghost m': seq<nat>, ghost p: nat)
    requires vol.Valid() && HasInode(vol.geo, vol.groups, dir) && |vol.disk| <= 0x1_0000_0000 && inode < 0x1_0000_0000
    requires DirOk(vol.geo, vol.groups, vol.disk, GetInode(vol.geo, vol.groups, vol.disk, dir), m)
    requires HEADER + |name| <= vol.geo.blksize
    requires Full(Contents(vol.disk, m), HEADER + |name|) ==> |m| < DIRECT && TotalFree(vol.groups) > 0
    modifies vol
    ensures EntryAdded(vol.geo, old(vol.groups), old(vol.disk), vol.groups, vol.disk, dir, m, m', p,
                       Entry(StoredName(name), inode, kind))
    ensures InsertedAt(old(Contents(vol.disk, m)), HEADER + |name|, p)
    ensures LinkChanges(old(DirEntries(Contents(vol.disk, m))), DirEntries(Contents(vol.disk, m')), p, name, inode)
    ensures old(LookupIn(DirEntries(Contents(vol.disk, m)), name)) == None ==>
      (LookupIn(DirEntries(Contents(vol.disk, m')), name) == Some(inode) <==> |name| < 256)
  {
    ghost var es := DirEntries(Contents(vol.disk, m));
    var d := MkDirent(inode, kind, name);
    m', p := AppendDirent(vol, dir, d, m);
    LinkedLookups(es, p, name, inode, kind);
  }

  /** The lookups that change: only that of the stored part of the name, and that one exactly when no entry before
      the new one has it and it was not found with the same inode already. */
  ghost predicate LinkChanges(es: seq<Entry>, es': seq<Entry>, p: nat, name: seq<byte>, inode: nat) {
    && (LookupIn(es', StoredName(name)) ==
          if Find(es, StoredName(name)) >= p then Some(inode) else LookupIn(es, StoredName(name)))
    && (forall n :: LookupIn(es', n) != LookupIn(es, n) <==>
          n == StoredName(name) && p <= Find(es, n) && LookupIn(es, n) != Some(inode))
  }

  lemma LinkedLookups(es: seq<Entry>, p: nat, name: seq<byte>, inode: nat, kind: byte)
    requires p <= |es|
    ensures var es' := Inserted(es, p, Entry(StoredName(name), inode, kind));
      && LinkChanges(es, es', p, name, inode)
      && (LookupIn(es, name) == None ==> (LookupIn(es', name) == Some(inode) <==> |name| < 256))
  {
    var e := Entry(StoredName(name), inode, kind);
    forall n ensures LookupIn(Inserted(es, p, e), n) ==
      if n == e.name && Find(es, n) >= p then Some(inode) else LookupIn(es, n)
    {
      InsertedLookup(es, p, e, n);
    }
    assert |name| < 256 <==> StoredName(name) == name by {
      assert |name| < 256 ==> name[..|name|] == name;
    }
  }

  /** Lookups before and after an insertion. */
  lemma LookupsAfter(es: seq<Entry>, p: nat, e: Entry)
    requires p <= |es|
    ensures forall other :: other != e.name ==> LookupIn(Inserted(es, p, e), other) == LookupIn(es, other)
    ensures LookupIn(es, e.name) == None ==> LookupIn(Inserted(es, p, e), e.name) == Some(e.inode)
  {
    forall n ensures LookupIn(Inserted(es, p, e), n) ==
      if n == e.name && Find(es, n) >= p then Some(e.inode) else LookupIn(es, n)
    {
      InsertedLookup(es, p, e, n);
    }
  }
}
