/** Directory blocks: records linked by their size fields, read as lists of entries. */
module Ext2Dirent {
  import opened Common
  import opened Bytes

  /** `sizeof(struct ext2_dirent)` without the name. */
  const HEADER := 8

  function RecSize(s: seq<byte>): nat requires |s| >= HEADER { U16(s, 4) }
  function NameLen(s: seq<byte>): nat requires |s| >= HEADER { s[6] }

  /** What a record says: the name, the inode it stands for, and the type indicator. */
  datatype Entry = Entry(name: seq<byte>, inode: nat, kind: byte)

  const BLANK := Entry([], 0, 0)

  function EntryAt(s: seq<byte>): Entry
    requires |s| >= HEADER && |s| >= HEADER + NameLen(s)
  {
    Entry(s[HEADER..HEADER + NameLen(s)], U32(s, 0), s[7])
  }

  /** The fields of `struct ext2_dirent` in their order. */
  lemma RecordFields(inode: nat, size: nat, len: byte, kind: byte, rest: seq<byte>)
    requires inode < 0x1_0000_0000 && size < 0x1_0000 && len <= |rest|
    ensures var s := Enc32(inode) + Enc16(size) + [len] + [kind] + rest;
      RecSize(s) == size && NameLen(s) == len && EntryAt(s) == Entry(rest[..len], inode, kind)
  {
    var x, y := Enc32(inode), Enc16(size);
    var s := x + y + [len] + [kind] + rest;
    assert s == [] + x + (y + [len] + [kind] + rest) && s == x + y + ([len] + [kind] + rest);
    U32Field([], inode, y + [len] + [kind] + rest);
    U16Field(x, size, [len] + [kind] + rest);
    assert s[HEADER..] == rest && s[HEADER..HEADER + len] == s[HEADER..][..len];
  }

  /** `s` starts with a record that lies inside it, holds its name and keeps 4-byte alignment. */
  predicate RecOk(s: seq<byte>) {
    |s| >= HEADER && HEADER + NameLen(s) <= RecSize(s) <= |s| && RecSize(s) % 4 == 0
  }

  /** Sequences that agree on a record's bytes show the same record. */
  lemma SameRecord(s: seq<byte>, s': seq<byte>, n: nat)
    requires HEADER <= n <= |s| && n <= |s'| && HEADER + NameLen(s) <= n
    requires forall k :: 0 <= k < n ==> s'[k] == s[k]
    ensures RecSize(s') == RecSize(s) && NameLen(s') == NameLen(s) && EntryAt(s') == EntryAt(s)
  {}

  /** The same but for the size field. */
  lemma SameEntry(s: seq<byte>, s': seq<byte>, n: nat)
    requires HEADER <= n <= |s| && n <= |s'| && HEADER + NameLen(s) <= n
    requires forall k :: 0 <= k < n && k != 4 && k != 5 ==> s'[k] == s[k]
    ensures NameLen(s') == NameLen(s) && EntryAt(s') == EntryAt(s)
  {}

  /** `s` is tiled exactly by such records. */
  predicate Chain(s: seq<byte>) {
    s == [] || (RecOk(s) && Chain(s[RecSize(s)..]))
  }

  function Entries(s: seq<byte>): seq<Entry>
    requires Chain(s)
  {
    if s == [] then [] else [EntryAt(s)] + Entries(s[RecSize(s)..])
  }

  lemma ChainCons(s: seq<byte>, tail: seq<byte>)
    requires RecOk(s) && s[RecSize(s)..] == tail && Chain(tail)
    ensures Chain(s) && Entries(s) == [EntryAt(s)] + Entries(tail)
  {}

  lemma ChainConsSplit(s: seq<byte>, tail: seq<byte>, a: seq<Entry>, b: seq<Entry>)
    requires RecOk(s) && s[RecSize(s)..] == tail && Chain(tail) && Entries(tail) == a + b
    ensures Chain(s) && Entries(s) == [EntryAt(s)] + a + b
  {
    Assoc([EntryAt(s)], a, b);
  }

  lemma TwoRecords(s: seq<byte>, z: nat, x: Entry, t: seq<byte>, z': nat, x': Entry, tail: seq<byte>)
    requires Record(s, z, x, t) && Record(t, z', x', tail) && Chain(tail)
    ensures Chain(s) && Entries(s) == [x, x'] + Entries(tail)
  {
    ChainCons(t, tail);
    ChainCons(s, t);
    Assoc([x], [x'], Entries(tail));
  }

  /** Offset `off` is the start of a record of the chain, or its end. */
  predicate Reaches(s: seq<byte>, off: nat)
    requires Chain(s)
  {
    off == 0 || (s != [] && RecSize(s) <= off && Reaches(s[RecSize(s)..], off - RecSize(s)))
  }

  /** The entries before offset `off`. */
  function Before(s: seq<byte>, off: nat): seq<Entry>
    requires Chain(s) && Reaches(s, off)
  {
    if off == 0 then [] else [EntryAt(s)] + Before(s[RecSize(s)..], off - RecSize(s))
  }

  lemma DropDrop<T>(s: seq<T>, z: nat, off: nat)
    requires z <= off <= |s|
    ensures s[z..][off - z..] == s[off..]
  {}

  /** The entries before an offset behind the first record. */
  lemma BeforeCons(s: seq<byte>, t: seq<byte>, off: nat)
    requires Chain(s) && s != [] && s[RecSize(s)..] == t && RecSize(s) <= off && Reaches(t, off - RecSize(s))
    ensures Reaches(s, off) && Before(s, off) == [EntryAt(s)] + Before(t, off - RecSize(s))
  {}

  lemma {:induction false} SplitAt(s: seq<byte>, off: nat)
    requires Chain(s) && Reaches(s, off)
    ensures off <= |s| && Chain(s[off..]) && Entries(s) == Before(s, off) + Entries(s[off..])
  {
    if off > 0 {
      var z := RecSize(s);
      var t := s[z..];
      SplitAt(t, off - z);
      DropDrop(s, z, off);
      BeforeCons(s, t, off);
      ChainConsSplit(s, t, Before(t, off - z), Entries(s[off..]));
    } else {
      assert s[off..] == s;
    }
  }

  lemma ReachChain(s: seq<byte>, off: nat)
    requires Chain(s) && Reaches(s, off)
    ensures off <= |s| && Chain(s[off..])
  {
    SplitAt(s, off);
  }

  /** Stepping over the record `u` at `off`, of size `r` and with entry `x`. */
  lemma {:induction false} ReachOver(s: seq<byte>, off: nat, u: seq<byte>, r: nat, x: Entry)
    requires Chain(s) && Reaches(s, off) && off < |s| && s[off..] == u && RecOk(u) && r == RecSize(u) && x == EntryAt(u)
    ensures Reaches(s, off + r) && Before(s, off + r) == Before(s, off) + [x]
    decreases |s|
  {
    if off > 0 {
      var z, t := ReachTail(s, off);
      ReachOver(t, off - z, u, r, x);
      ReachMore(s, t, off, r, x);
    } else {
      ReachFirst(s, u, r, x);
    }
  }

  lemma ReachFirst(s: seq<byte>, u: seq<byte>, r: nat, x: Entry)
    requires Chain(s) && s != [] && s[0..] == u && RecOk(u) && r == RecSize(u) && x == EntryAt(u)
    ensures Reaches(s, 0 + r) && Before(s, 0 + r) == Before(s, 0) + [x]
  {
    assert u == s && Before(s[r..], 0) == [];
  }

  /** The chain behind the first record. */
  lemma ReachTail(s: seq<byte>, off: nat) returns (z: nat, t: seq<byte>)
    requires Chain(s) && Reaches(s, off) && 0 < off < |s|
    ensures s != [] && z == RecSize(s) <= off && z > 0 && t == s[z..] && |t| < |s|
    ensures Chain(t) && Reaches(t, off - z) && off - z < |t| && t[off - z..] == s[off..]
  {
    z := RecSize(s);
    t := s[z..];
    DropDrop(s, z, off);
  }

  /** What is reached in the rest is reached in the whole. */
  lemma ReachMore(s: seq<byte>, t: seq<byte>, off: nat, r: nat, x: Entry)
    requires Chain(s) && s != [] && s[RecSize(s)..] == t && RecSize(s) <= off && Reaches(t, off - RecSize(s))
    requires Reaches(t, off - RecSize(s) + r)
    requires Before(t, off - RecSize(s) + r) == Before(t, off - RecSize(s)) + [x]
    ensures Reaches(s, off) && Reaches(s, off + r) && Before(s, off + r) == Before(s, off) + [x]
  {
    BeforeCons(s, t, off);
    BeforeCons(s, t, off + r);
    Assoc([EntryAt(s)], Before(t, off - RecSize(s)), [x]);
  }

  lemma PrefixAt(s: seq<byte>, s': seq<byte>, off: nat, z: nat)
    requires z <= off <= |s| == |s'| && s'[..off] == s[..off]
    ensures forall k :: 0 <= k < z ==> s'[k] == s[k]
  {
    assert forall k :: 0 <= k < z ==> s'[k] == s'[..off][k];
  }

  lemma PrefixTail(s: seq<byte>, s': seq<byte>, off: nat, z: nat)
    requires z <= off <= |s| == |s'| && s'[..off] == s[..off]
    ensures s'[z..][..off - z] == s[z..][..off - z]
    ensures s'[z..][off - z..] == s'[off..]
  {
    assert s'[z..][..off - z] == s'[..off][z..] && s[z..][..off - z] == s[..off][z..];
  }

  lemma ReplaceCons(s: seq<byte>, s': seq<byte>, t: seq<byte>, t': seq<byte>, off: nat, rest: seq<Entry>)
    requires Chain(s) && s != [] && s[RecSize(s)..] == t && RecSize(s) <= off && Reaches(t, off - RecSize(s))
    requires RecOk(s') && RecSize(s') == RecSize(s) && EntryAt(s') == EntryAt(s) && s'[RecSize(s')..] == t'
    requires Chain(t') && Entries(t') == Before(t, off - RecSize(s)) + rest
    ensures Chain(s') && Reaches(s, off) && Entries(s') == Before(s, off) + rest
  {
    BeforeCons(s, t, off);
    ChainConsSplit(s', t', Before(t, off - RecSize(s)), rest);
  }

  /** Replacing everything from a record boundary on leaves the records before it alone. */
  lemma {:induction false} ReplaceTail(s: seq<byte>, s': seq<byte>, off: nat, u: seq<byte>)
    requires Chain(s) && Reaches(s, off) && |s'| == |s| && off <= |s|
    requires s'[..off] == s[..off] && s'[off..] == u && Chain(u)
    ensures Chain(s') && Entries(s') == Before(s, off) + Entries(u)
    decreases |s|
  {
    if off > 0 {
      var z, t, t' := ReplaceStep(s, s', off);
      ReplaceTail(t, t', off - z, u);
      ReplaceCons(s, s', t, t', off, Entries(u));
    } else {
      assert s'[off..] == s';
    }
  }

  /** Both chains behind the first record, which they share. */
  lemma ReplaceStep(s: seq<byte>, s': seq<byte>, off: nat) returns (z: nat, t: seq<byte>, t': seq<byte>)
    requires Chain(s) && Reaches(s, off) && |s'| == |s| && 0 < off <= |s| && s'[..off] == s[..off]
    ensures s != [] && z == RecSize(s) <= off && t == s[z..] && Chain(t) && Reaches(t, off - z)
    ensures RecOk(s') && RecSize(s') == z && EntryAt(s') == EntryAt(s)
    ensures t' == s'[z..] && |t'| == |t| < |s| && off - z <= |t|
    ensures t'[..off - z] == t[..off - z] && t'[off - z..] == s'[off..]
  {
    z := RecSize(s);
    t, t' := s[z..], s'[z..];
    PrefixAt(s, s', off, z);
    SameRecord(s, s', z);
    PrefixTail(s, s', off, z);
  }

  // ---------------------------------------------------------------- the three edits

  /** A record ready to be appended: its size field is its length. */
  predicate DirentOk(d: seq<byte>) {
    |d| >= HEADER && RecSize(d) == |d| && HEADER + NameLen(d) <= |d|
  }

  /** Bytes the first record of `s` needs: header and name, rounded past the next multiple of 4. */
  function Needed(s: seq<byte>): (e: nat)
    requires |s| >= HEADER
    ensures e % 4 == 0 && HEADER + NameLen(s) < e <= HEADER + NameLen(s) + 4
  {
    (HEADER + NameLen(s)) / 4 * 4 + 4
  }

  predicate HasSlack(s: seq<byte>, n: nat)
    requires RecOk(s)
  {
    Needed(s) < RecSize(s) && RecSize(s) - Needed(s) >= n
  }

  /** There is room for `n` bytes exactly when that much is left behind the aligned place after header and name. */
  lemma SlackExactly(s: seq<byte>, n: nat, e: nat)
    requires RecOk(s) && e % 4 == 0 && HEADER + NameLen(s) < e <= HEADER + NameLen(s) + 4
    ensures HasSlack(s, n) <==> e < RecSize(s) && e + n <= RecSize(s)
  {
    Aligned(e, Needed(s));
  }

  lemma Aligned(x: nat, y: nat)
    requires x % 4 == 0 && y % 4 == 0 && x < y + 4 && y < x + 4
    ensures x == y
  {}

  /** The first record of `s` is cut to what it needs and `d` takes the rest of its space. */
  function Splice(s: seq<byte>, d: seq<byte>): (s': seq<byte>)
    requires RecOk(s) && DirentOk(d) && HasSlack(s, |d|)
    ensures |s'| == |s|
  {
    CutAt(s, d, Needed(s), RecSize(s))
  }

  /** The same with the cut at `e` in a record of `z` bytes. */
  function CutAt(s: seq<byte>, d: seq<byte>, e: nat, z: nat): (s': seq<byte>)
    requires HEADER <= e && HEADER <= |d| && e + |d| <= z <= |s| && z < 0x1_0000
    ensures |s'| == |s|
  {
    Blit(Filled(s, d, e, z), 4, Enc16(e))
  }

  /** The record `d`, given the size that is left, at `e`. */
  function Filled(s: seq<byte>, d: seq<byte>, e: nat, z: nat): (t: seq<byte>)
    requires HEADER <= e && HEADER <= |d| && e + |d| <= z <= |s| && z < 0x1_0000
    ensures |t| == |s|
  {
    Blit(s, e, Blit(d, 4, Enc16(z - e)))
  }

  /** A record of `z` bytes that says `x`, and what is behind it. */
  ghost predicate Record(s: seq<byte>, z: nat, x: Entry, tail: seq<byte>) {
    RecOk(s) && RecSize(s) == z && EntryAt(s) == x && s[z..] == tail
  }

  /** The record that was cut. */
  lemma SpliceHead(s: seq<byte>, d: seq<byte>, e: nat, z: nat)
    requires RecOk(s) && e % 4 == 0 && HEADER + NameLen(s) < e && HEADER <= |d| && e + |d| <= z <= |s| && z < 0x1_0000
    ensures Record(CutAt(s, d, e, z), e, EntryAt(s), Filled(s, d, e, z)[e..])
  {
    var t := Filled(s, d, e, z);
    U16Blit(t, 4, e);
    SameEntry(s, CutAt(s, d, e, z), e);
  }

  /** The record that got its space. */
  lemma SpliceRest(s: seq<byte>, d: seq<byte>, e: nat, z: nat)
    requires DirentOk(d) && e % 4 == 0 && z % 4 == 0 && HEADER <= e && e + |d| <= z <= |s| && z < 0x1_0000
    ensures Record(Filled(s, d, e, z)[e..], z - e, EntryAt(d), s[z..])
  {
    var c := Blit(d, 4, Enc16(z - e));
    U16Blit(d, 4, z - e);
    SameEntry(d, c, |d|);
    SameRecord(c, Filled(s, d, e, z)[e..], |d|);
  }

  /** Both, whatever the place of the cut. */
  lemma SpliceBoth(s: seq<byte>, d: seq<byte>, e: nat, z: nat)
    requires RecOk(s) && z == RecSize(s) && Chain(s[z..]) && DirentOk(d) && e % 4 == 0 && HEADER + NameLen(s) < e
    requires e + |d| <= z
    ensures Chain(CutAt(s, d, e, z)) && Entries(CutAt(s, d, e, z)) == [EntryAt(s), EntryAt(d)] + Entries(s[z..])
  {
    SpliceHead(s, d, e, z);
    SpliceRest(s, d, e, z);
    TwoRecords(CutAt(s, d, e, z), e, EntryAt(s), Filled(s, d, e, z)[e..], z - e, EntryAt(d), s[z..]);
  }

  lemma SpliceEntries(s: seq<byte>, d: seq<byte>)
    requires Chain(s) && s != [] && DirentOk(d) && HasSlack(s, |d|)
    ensures Chain(Splice(s, d))
    ensures Entries(Splice(s, d)) == [EntryAt(s), EntryAt(d)] + Entries(s[RecSize(s)..])
  {
    SpliceBoth(s, d, Needed(s), RecSize(s));
  }

  /** The first record of `s` zeroed, except for its size. */
  function Zeroed(s: seq<byte>): (s': seq<byte>)
    requires RecOk(s)
    ensures |s'| == |s|
  {
    Blit(Blit(s, 0, seq(RecSize(s), _ => 0)), 4, Enc16(RecSize(s)))
  }

  lemma ZeroedRecord(s: seq<byte>)
    requires RecOk(s)
    ensures var s', z := Zeroed(s), RecSize(s);
      RecSize(s') == z && RecOk(s') && EntryAt(s') == BLANK && s'[z..] == s[z..]
  {
    var s', z := Zeroed(s), RecSize(s);
    var zeros: seq<byte> := seq(z, _ => 0);
    U16Blit(Blit(s, 0, zeros), 4, z);
    SameEntry(zeros, s', z);
    assert s'[z..] == s[z..];
    assert EntryAt(zeros) == BLANK;
  }

  lemma ZeroedEntries(s: seq<byte>)
    requires Chain(s) && s != []
    ensures Chain(Zeroed(s)) && Entries(Zeroed(s)) == [BLANK] + Entries(s[RecSize(s)..])
  {
    ZeroedRecord(s);
    ChainCons(Zeroed(s), s[RecSize(s)..]);
  }

  /** A block that holds `d` alone. */
  function FreshBlock(bs: nat, d: seq<byte>): (s: seq<byte>)
    requires DirentOk(d) && |d| <= bs < 0x1_0000
    ensures |s| == bs
  {
    Blit(Blit(seq(bs, _ => 0), 0, d), 4, Enc16(bs))
  }

  lemma FreshBlockEntries(bs: nat, d: seq<byte>)
    requires DirentOk(d) && |d| <= bs < 0x1_0000 && bs % 4 == 0
    ensures Chain(FreshBlock(bs, d)) && Entries(FreshBlock(bs, d)) == [EntryAt(d)]
  {
    var s := FreshBlock(bs, d);
    U16Blit(Blit(seq(bs, _ => 0), 0, d), 4, bs);
    SameEntry(d, s, |d|);
    assert s[bs..] == [];
  }
}
