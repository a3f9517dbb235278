/** The kernel heap: a list of blocks in address order, split on allocation and merged on release. */
module Heap {
  /** `sizeof(struct block)`; requests are rounded to it, so that splitting never underflows. */
  const HEADER := 32
  const NULL := 0

  /** `struct block`, found in memory at its address. */
  datatype Header = Header(next: nat, prev: nat, used: bool, size: nat)

  /** A block as the list presents it. */
  datatype Blk = Blk(addr: nat, size: nat, used: bool) {
    function End(): nat { addr + HEADER + size }
  }

  // ---------------------------------------------------------------- the list of blocks

  /** The blocks tile `[start, end)` without a gap, in address order, in units of 32 bytes. */
  ghost predicate Tiles(bs: seq<Blk>, start: nat, end: nat) {
    && bs != [] && 0 < start && bs[0].addr == start && bs[|bs| - 1].End() == end
    && (forall i :: 0 <= i < |bs| ==> bs[i].size % 32 == 0)
    && (forall i :: 0 <= i < |bs| - 1 ==> Abut(bs, i))
  }

  ghost predicate Abut(bs: seq<Blk>, i: nat)
    requires i + 1 < |bs|
  {
    bs[i + 1].addr == bs[i].End()
  }

  /** No two neighbours are both free. */
  ghost predicate Merged(bs: seq<Blk>) {
    forall i :: 0 <= i < |bs| - 1 ==> SomeUsed(bs, i)
  }

  ghost predicate SomeUsed(bs: seq<Blk>, i: nat)
    requires i + 1 < |bs|
  {
    bs[i].used || bs[i + 1].used
  }

  /** Lower blocks end before higher ones start. */
  lemma {:induction false} InOrder(bs: seq<Blk>, start: nat, end: nat, i: nat, j: nat)
    requires Tiles(bs, start, end) && i < j < |bs|
    ensures bs[i].End() <= bs[j].addr
  {
    if i + 1 < j {
      InOrder(bs, start, end, i, j - 1);
      assert Abut(bs, j - 1);
    } else {
      assert Abut(bs, i);
    }
  }

  /** `n` rounded up to a multiple of 32. */
  function RoundUp(n: nat): (r: nat)
    ensures r % 32 == 0 && n <= r < n + 32
  {
    if n % 32 != 0 then n + (32 - n % 32) else n
  }

  /** Index of the lowest free block of at least `n` bytes, or the number of blocks. */
  function FirstFit(bs: seq<Blk>, n: nat): (i: nat)
    ensures i <= |bs| && (i < |bs| ==> !bs[i].used && bs[i].size >= n)
    ensures forall k :: 0 <= k < i ==> bs[k].used || bs[k].size < n
  {
    FitFrom(bs, n, 0)
  }

  function FitFrom(bs: seq<Blk>, n: nat, k: nat): (i: nat)
    requires k <= |bs|
    ensures k <= i <= |bs| && (i < |bs| ==> !bs[i].used && bs[i].size >= n)
    ensures forall j :: k <= j < i ==> bs[j].used || bs[j].size < n
    decreases |bs| - k
  {
    if k == |bs| || (!bs[k].used && bs[k].size >= n) then k else FitFrom(bs, n, k + 1)
  }

  ghost predicate NoneFits(bs: seq<Blk>, n: nat) {
    forall k :: 0 <= k < |bs| ==> bs[k].used || bs[k].size < n
  }

  lemma FitsFirst(bs: seq<Blk>, i: nat, n: nat)
    requires i < |bs| && NoneFits(bs[..i], n) && !bs[i].used && bs[i].size >= n
    ensures FirstFit(bs, n) == i
  {
    assert forall k :: 0 <= k < i ==> bs[..i][k] == bs[k];
  }

  lemma NoFit(bs: seq<Blk>, n: nat)
    requires NoneFits(bs, n)
    ensures FirstFit(bs, n) == |bs|
  {}

  /** The block is used whole or leaves room for the header of what remains. */
  predicate Fitting(bs: seq<Blk>, i: nat, n: nat) {
    i < |bs| && (bs[i].size == n || bs[i].size >= n + HEADER)
  }

  /** Block `i` cut to `n` bytes, the rest of it becoming a free block behind it. */
  function SplitAt(bs: seq<Blk>, i: nat, n: nat): seq<Blk>
    requires i < |bs| && bs[i].size >= n + HEADER
  {
    bs[..i] + [Blk(bs[i].addr, n, bs[i].used), Blk(bs[i].addr + HEADER + n, bs[i].size - n - HEADER, false)]
      + bs[i + 1..]
  }

  function Marked(bs: seq<Blk>, i: nat, used: bool): seq<Blk>
    requires i < |bs|
  {
    bs[i := Blk(bs[i].addr, bs[i].size, used)]
  }

  /** Block `i` handed out with `n` bytes. */
  function Taken(bs: seq<Blk>, i: nat, n: nat): seq<Blk>
    requires i < |bs| && (bs[i].size == n || bs[i].size >= n + HEADER)
  {
    Marked(if bs[i].size == n then bs else SplitAt(bs, i, n), i, true)
  }

  /** Block `i + 1` merged into block `i`. */
  function Joined(bs: seq<Blk>, i: nat): seq<Blk>
    requires i + 1 < |bs|
  {
    bs[..i] + [Blk(bs[i].addr, bs[i].size + bs[i + 1].size + HEADER, bs[i].used)] + bs[i + 2..]
  }

  /** First and last of the blocks that become one when block `i` is given back. */
  function FromBlock(bs: seq<Blk>, i: nat): (a: nat)
    requires i < |bs|
    ensures a <= i
  {
    if i > 0 && !bs[i - 1].used then i - 1 else i
  }

  function ToBlock(bs: seq<Blk>, i: nat): (b: nat)
    requires i < |bs|
    ensures i <= b < |bs|
  {
    if i + 1 < |bs| && !bs[i + 1].used then i + 1 else i
  }

  /** Bytes of those blocks, the headers between them included. */
  function JoinedSize(bs: seq<Blk>, i: nat): nat
    requires i < |bs|
  {
    (if FromBlock(bs, i) < i then bs[i - 1].size + HEADER else 0) + bs[i].size
    + (if ToBlock(bs, i) > i then HEADER + bs[i + 1].size else 0)
  }

  /** Block `i` given back as one free block with its free neighbours. */
  function Released(bs: seq<Blk>, i: nat): seq<Blk>
    requires i < |bs|
  {
    bs[..FromBlock(bs, i)] + [Blk(bs[FromBlock(bs, i)].addr, JoinedSize(bs, i), false)] + bs[ToBlock(bs, i) + 1..]
  }

  lemma JoinedTiles(bs: seq<Blk>, start: nat, end: nat, i: nat)
    requires Tiles(bs, start, end) && i + 1 < |bs|
    ensures Tiles(Joined(bs, i), start, end)
  {
    var r := Joined(bs, i);
    assert Abut(bs, i);
    Units(bs[i].size, bs[i + 1].size, 0);
    assert forall k :: 0 <= k < |r| ==> r[k].size % 32 == 0;
    forall k | 0 <= k < |r| - 1 ensures Abut(r, k) {
      if k < i {
        assert Abut(bs, k);
      } else {
        assert Abut(bs, k + 1);
      }
    }
  }

  lemma Units(a: nat, b: nat, c: nat)
    requires a % 32 == 0 && b % 32 == 0 && c % 32 == 0
    ensures (a + b + c + 64) % 32 == 0 && (a + b + 32) % 32 == 0 && (a >= b + HEADER ==> (a - b - HEADER) % 32 == 0)
  {
    var x, y, z := a / 32, b / 32, c / 32;
    assert a == 32 * x && b == 32 * y && c == 32 * z;
    Multiple(x + y + z + 2);
    Multiple(x + y + 1);
    Multiple(x - y - 1);
  }

  lemma Multiple(k: int)
    ensures (32 * k) % 32 == 0
  {}

  /** Two sizes that differ leave room for a header between them. */
  lemma Gap(a: nat, b: nat)
    requires a % 32 == 0 && b % 32 == 0 && a >= b
    ensures a == b || a >= b + HEADER
  {}

  lemma SplitAtTiles(bs: seq<Blk>, start: nat, end: nat, i: nat, n: nat)
    requires Tiles(bs, start, end) && i < |bs| && n % 32 == 0 && bs[i].size >= n + HEADER
    ensures Tiles(SplitAt(bs, i, n), start, end)
  {
    var r := SplitAt(bs, i, n);
    Units(bs[i].size, n, 0);
    forall k | 0 <= k < |r| ensures r[k].size % 32 == 0 {}
    forall k | 0 <= k < |r| - 1 ensures Abut(r, k) {
      if k < i {
        assert Abut(bs, k);
      } else if k > i {
        assert Abut(bs, k - 1);
      }
    }
  }

  lemma MarkedTiles(bs: seq<Blk>, start: nat, end: nat, i: nat, used: bool)
    requires Tiles(bs, start, end) && i < |bs|
    ensures Tiles(Marked(bs, i, used), start, end)
  {
    forall k | 0 <= k < |bs| - 1 ensures Abut(Marked(bs, i, used), k) {
      assert Abut(bs, k);
    }
  }

  lemma TakenTiles(bs: seq<Blk>, start: nat, end: nat, i: nat, n: nat)
    requires Tiles(bs, start, end) && i < |bs| && n % 32 == 0 && (bs[i].size == n || bs[i].size >= n + HEADER)
    ensures Tiles(Taken(bs, i, n), start, end)
  {
    if bs[i].size == n {
      MarkedTiles(bs, start, end, i, true);
    } else {
      SplitAtTiles(bs, start, end, i, n);
      MarkedTiles(SplitAt(bs, i, n), start, end, i, true);
    }
  }

  lemma TakenMerged(bs: seq<Blk>, i: nat, n: nat)
    requires Merged(bs) && i < |bs| && !bs[i].used && (bs[i].size == n || bs[i].size >= n + HEADER)
    ensures Merged(Taken(bs, i, n))
  {
    var r := Taken(bs, i, n);
    forall k | 0 <= k < |r| - 1 ensures SomeUsed(r, k) {
      if k + 1 < |bs| {
        assert SomeUsed(bs, k);
      }
      if 0 < k {
        assert SomeUsed(bs, k - 1);
      }
    }
  }

  lemma ReleasedTiles(bs: seq<Blk>, start: nat, end: nat, i: nat)
    requires Tiles(bs, start, end) && i < |bs|
    ensures Tiles(Released(bs, i), start, end)
  {
    var r, a, b := Released(bs, i), FromBlock(bs, i), ToBlock(bs, i);
    assert a < i ==> Abut(bs, a);
    assert i < b ==> Abut(bs, i);
    assert r[a].End() == bs[b].End();
    Units(bs[a].size, bs[i].size, bs[b].size);
    Units(bs[i].size, bs[b].size, 0);
    assert JoinedSize(bs, i) % 32 == 0;
    forall k | 0 <= k < |r| - 1 ensures Abut(r, k) {
      if k < a {
        assert Abut(bs, k) && r[k] == bs[k] && r[k + 1].addr == bs[k + 1].addr;
      } else {
        assert Abut(bs, k + b - a) && r[k].End() == bs[k + b - a].End() && r[k + 1] == bs[k + b - a + 1];
      }
    }
  }

  lemma ReleasedMerged(bs: seq<Blk>, i: nat)
    requires Merged(bs) && i < |bs| && bs[i].used
    ensures Merged(Released(bs, i))
  {
    var r, a, b := Released(bs, i), FromBlock(bs, i), ToBlock(bs, i);
    forall k | 0 <= k < |r| - 1 ensures SomeUsed(r, k) {
      if k < a {
        assert SomeUsed(bs, k);
      } else {
        assert SomeUsed(bs, k + b - a);
      }
    }
  }

  // ---------------------------------------------------------------- the linked headers

  /** The header that block `i` must have. */
  function HeaderOf(bs: seq<Blk>, i: nat): Header
    requires i < |bs|
  {
    Header(if i + 1 < |bs| then bs[i + 1].addr else NULL,
      if i > 0 then bs[i - 1].addr else NULL, bs[i].used, bs[i].size)
  }

  /** The headers in memory are those of the blocks: every `next` and `prev` leads to the neighbour. */
  ghost predicate Linked(mem: map<nat, Header>, bs: seq<Blk>) {
    forall i :: 0 <= i < |bs| ==> LinkedAt(mem, bs, i)
  }

  ghost predicate LinkedAt(mem: map<nat, Header>, bs: seq<Blk>, i: nat)
    requires i < |bs|
  {
    bs[i].addr in mem && mem[bs[i].addr] == HeaderOf(bs, i)
  }

  lemma Distinct(bs: seq<Blk>, start: nat, end: nat)
    requires Tiles(bs, start, end)
    ensures Increasing(bs)
  {
    forall i, j | 0 <= i < j < |bs| ensures bs[i].addr < bs[j].addr {
      InOrder(bs, start, end, i, j);
    }
    forall i | 0 <= i < |bs| ensures bs[i].addr != NULL {
      if i > 0 {
        InOrder(bs, start, end, 0, i);
      }
    }
  }

  ghost predicate Increasing(bs: seq<Blk>) {
    && (forall i, j :: 0 <= i < j < |bs| ==> bs[i].addr < bs[j].addr)
    && (forall i :: 0 <= i < |bs| ==> bs[i].addr != NULL)
  }

  /** Memory after `combine` has relinked the headers. */
  function CombinedMem(mem: map<nat, Header>, b1: nat, b2: nat): map<nat, Header>
    requires b1 in mem && b2 in mem && (mem[b2].next != NULL ==> mem[b2].next in mem) && mem[b2].next != b1
  {
    var h := mem[b1].(size := mem[b1].size + mem[b2].size + HEADER, next := mem[b2].next);
    var m := mem[b1 := h];
    if h.next != NULL then m[h.next := m[h.next].(prev := b1)] else m
  }

  lemma CombineLinks(mem: map<nat, Header>, bs: seq<Blk>, i: nat)
    requires Linked(mem, bs) && Increasing(bs) && i + 1 < |bs|
    ensures var b1, b2 := bs[i].addr, bs[i + 1].addr;
      && b1 in mem && b2 in mem && (mem[b2].next != NULL ==> mem[b2].next in mem) && mem[b2].next != b1
      && Linked(CombinedMem(mem, b1, b2), Joined(bs, i))
  {
    CombinedAround(mem, bs, i);
    var mem', r := CombinedMem(mem, bs[i].addr, bs[i + 1].addr), Joined(bs, i);
    forall k | 0 <= k < |r| ensures LinkedAt(mem', r, k) {
      CombinedLink(mem, bs, i, k);
    }
  }

  lemma CombinedAround(mem: map<nat, Header>, bs: seq<Blk>, i: nat)
    requires Linked(mem, bs) && Increasing(bs) && i + 1 < |bs|
    ensures var b1, b2 := bs[i].addr, bs[i + 1].addr;
      b1 in mem && b2 in mem && (mem[b2].next != NULL ==> mem[b2].next in mem) && mem[b2].next != b1
  {
    assert LinkedAt(mem, bs, i) && LinkedAt(mem, bs, i + 1);
    assert i + 2 < |bs| ==> LinkedAt(mem, bs, i + 2);
  }

  lemma CombinedLink(mem: map<nat, Header>, bs: seq<Blk>, i: nat, k: nat)
    requires Linked(mem, bs) && Increasing(bs) && i + 1 < |bs| && k < |bs| - 1
    requires var b1, b2 := bs[i].addr, bs[i + 1].addr;
      b1 in mem && b2 in mem && (mem[b2].next != NULL ==> mem[b2].next in mem) && mem[b2].next != b1
    ensures LinkedAt(CombinedMem(mem, bs[i].addr, bs[i + 1].addr), Joined(bs, i), k)
  {
    var r, j := Joined(bs, i), if k <= i then k else k + 1;
    assert LinkedAt(mem, bs, i) && LinkedAt(mem, bs, i + 1) && LinkedAt(mem, bs, j);
    assert r[k].addr == bs[j].addr;
    assert k + 1 < |r| ==> r[k + 1].addr == bs[if k + 1 <= i then k + 1 else k + 2].addr;
    assert k > 0 ==> r[k - 1].addr == bs[if k - 1 <= i then k - 1 else k].addr;
  }

  /** Memory after `split` has relinked the headers. */
  function SplitMem(mem: map<nat, Header>, b: nat, n: nat): map<nat, Header>
    requires b in mem && mem[b].size >= n + HEADER && (mem[b].next != NULL ==> mem[b].next in mem)
  {
    var h := Header(mem[b].next, b, false, mem[b].size - n - HEADER);
    var m := mem[b := mem[b].(size := n, next := b + HEADER + n)][b + HEADER + n := h];
    if h.next != NULL then m[h.next := m[h.next].(prev := b + HEADER + n)] else m
  }

  lemma SplitLinks(mem: map<nat, Header>, bs: seq<Blk>, i: nat, n: nat)
    requires Linked(mem, bs) && Increasing(bs) && i < |bs| && bs[i].size >= n + HEADER && Increasing(SplitAt(bs, i, n))
    ensures var b := bs[i].addr;
      && b in mem && mem[b].size >= n + HEADER && (mem[b].next != NULL ==> mem[b].next in mem)
      && Linked(SplitMem(mem, b, n), SplitAt(bs, i, n))
  {
    assert LinkedAt(mem, bs, i);
    if i + 1 < |bs| {
      assert LinkedAt(mem, bs, i + 1);
    }
    forall k | 0 <= k < |bs| + 1 ensures LinkedAt(SplitMem(mem, bs[i].addr, n), SplitAt(bs, i, n), k) {
      SplitIndex(bs, i, n);
      if k < i {
        assert LinkedAt(mem, bs, k);
        SplitLinkBefore(mem, bs, i, n, k);
      } else if k > i + 1 {
        assert LinkedAt(mem, bs, k - 1);
        SplitLinkBehind(mem, bs, i, n, k);
      }
    }
  }

  lemma SplitLinkBefore(mem: map<nat, Header>, bs: seq<Blk>, i: nat, n: nat, k: nat)
    requires k < i < |bs| && bs[i].size >= n + HEADER && Increasing(bs) && Increasing(SplitAt(bs, i, n))
    requires LinkedAt(mem, bs, k) && LinkedAt(mem, bs, i) && (i + 1 < |bs| ==> LinkedAt(mem, bs, i + 1))
    ensures |SplitAt(bs, i, n)| == |bs| + 1 && LinkedAt(SplitMem(mem, bs[i].addr, n), SplitAt(bs, i, n), k)
  {
    SplitIndex(bs, i, n);
    var r := SplitAt(bs, i, n);
    assert r[k].addr < r[i].addr < r[i + 1].addr;
  }

  lemma SplitLinkBehind(mem: map<nat, Header>, bs: seq<Blk>, i: nat, n: nat, k: nat)
    requires i + 1 < k <= |bs| && bs[i].size >= n + HEADER && Increasing(bs) && Increasing(SplitAt(bs, i, n))
    requires LinkedAt(mem, bs, k - 1) && LinkedAt(mem, bs, i) && (i + 1 < |bs| ==> LinkedAt(mem, bs, i + 1))
    ensures |SplitAt(bs, i, n)| == |bs| + 1 && LinkedAt(SplitMem(mem, bs[i].addr, n), SplitAt(bs, i, n), k)
  {
    SplitIndex(bs, i, n);
    var r := SplitAt(bs, i, n);
    assert r[i].addr < r[i + 1].addr < r[k].addr;
  }

  /** Where the blocks are after a split. */
  lemma SplitIndex(bs: seq<Blk>, i: nat, n: nat)
    requires i < |bs| && bs[i].size >= n + HEADER
    ensures var r := SplitAt(bs, i, n);
      && |r| == |bs| + 1 && r[i] == Blk(bs[i].addr, n, bs[i].used)
      && r[i + 1] == Blk(bs[i].addr + HEADER + n, bs[i].size - n - HEADER, false)
      && (forall k :: 0 <= k < i ==> r[k] == bs[k]) && (forall k :: i + 1 < k < |r| ==> r[k] == bs[k - 1])
  {}

  lemma MarkedLinks(mem: map<nat, Header>, bs: seq<Blk>, i: nat, used: bool)
    requires Linked(mem, bs) && Increasing(bs) && i < |bs|
    ensures LinkedAt(mem, bs, i) && Linked(mem[bs[i].addr := mem[bs[i].addr].(used := used)], Marked(bs, i, used))
  {
    assert LinkedAt(mem, bs, i);
    var r, mem' := Marked(bs, i, used), mem[bs[i].addr := mem[bs[i].addr].(used := used)];
    forall k | 0 <= k < |r| ensures LinkedAt(mem', r, k) {
      assert LinkedAt(mem, bs, k);
    }
  }

  /** Giving a block back in the three steps of `kfree`. */
  lemma ReleasedInSteps(bs: seq<Blk>, i: nat)
    requires i < |bs|
    ensures var f := Marked(bs, i, false); var a := FromBlock(bs, i);
      && a + 1 < |f| + 1 && (a < i ==> a + 1 == i)
      && var g := if a < i then Joined(f, a) else f;
        && a < |g| && !g[a].used
        && ((a + 1 < |g| && !g[a + 1].used) <==> ToBlock(bs, i) > i)
        && Released(bs, i) == if ToBlock(bs, i) > i then Joined(g, a) else g
  {
    LeftStep(bs, i);
    var f, a := Marked(bs, i, false), FromBlock(bs, i);
    RightStep(bs, i, if a < i then Joined(f, a) else f);
  }

  /** The merge to the right, from what the merge to the left leaves. */
  lemma RightStep(bs: seq<Blk>, i: nat, g: seq<Blk>)
    requires i < |bs| && var a := FromBlock(bs, i);
      && a < |g| && g[..a] == bs[..a] && g[a + 1..] == bs[i + 1..]
      && g[a] == Blk(bs[a].addr, (if a < i then bs[a].size + HEADER else 0) + bs[i].size, false)
    ensures var a := FromBlock(bs, i);
      && ((a + 1 < |g| && !g[a + 1].used) <==> ToBlock(bs, i) > i)
      && Released(bs, i) == if ToBlock(bs, i) > i then Joined(g, a) else g
  {
    var a := FromBlock(bs, i);
    SameTail(g, bs, a + 1, i + 1);
    InThree(g, a, bs[..a], bs[i + 1..]);
  }

  /** A list in three parts, before and after the middle block is merged with the next. */
  lemma InThree(g: seq<Blk>, a: nat, p: seq<Blk>, t: seq<Blk>)
    requires a < |g| && g[..a] == p && g[a + 1..] == t
    ensures g == p + [g[a]] + t
    ensures a + 1 < |g| ==>
      Joined(g, a) == p + [Blk(g[a].addr, g[a].size + g[a + 1].size + HEADER, g[a].used)] + g[a + 2..]
  {}

  /** Equal tails have equal lengths, heads and tails. */
  lemma SameTail(g: seq<Blk>, bs: seq<Blk>, x: nat, y: nat)
    requires x <= |g| && y <= |bs| && g[x..] == bs[y..]
    ensures |g| - x == |bs| - y && (x < |g| ==> g[x] == bs[y] && g[x + 1..] == bs[y + 1..])
  {
    assert |g[x..]| == |g| - x && |bs[y..]| == |bs| - y;
    if x < |g| {
      assert g[x] == g[x..][0] && bs[y] == bs[y..][0];
      assert g[x + 1..] == g[x..][1..] && bs[y + 1..] == bs[y..][1..];
    }
  }

  /** After the merge to the left: what is around the block. */
  lemma LeftStep(bs: seq<Blk>, i: nat)
    requires i < |bs|
    ensures var f, a := Marked(bs, i, false), FromBlock(bs, i);
      && (a < i ==> a + 1 == i)
      && var g := if a < i then Joined(f, a) else f;
        && a < |g| && g[..a] == bs[..a] && g[a + 1..] == bs[i + 1..]
        && g[a] == Blk(bs[a].addr, (if a < i then bs[a].size + HEADER else 0) + bs[i].size, false)
  {}

  /** What `split` needs to know and leaves. */
  lemma SplitReady(mem: map<nat, Header>, bs: seq<Blk>, start: nat, end: nat, i: nat, n: nat)
    requires Tiles(bs, start, end) && Linked(mem, bs) && i < |bs| && n % 32 == 0 && bs[i].size >= n + HEADER
    ensures var b, r := bs[i].addr, SplitAt(bs, i, n);
      && b in mem && mem[b].size >= n + HEADER && (mem[b].next != NULL ==> mem[b].next in mem)
      && Tiles(r, start, end) && Linked(SplitMem(mem, b, n), r) && r[0].addr == bs[0].addr
      && r[|r| - 1].addr == if mem[b].next == NULL then b + HEADER + n else bs[|bs| - 1].addr
  {
    SplitAtTiles(bs, start, end, i, n);
    Distinct(bs, start, end);
    Distinct(SplitAt(bs, i, n), start, end);
    SplitLinks(mem, bs, i, n);
    assert LinkedAt(mem, bs, i);
  }

  class Heap {
    var mem: map<nat, Header>
    var first: nat
    var last: nat
    ghost var blocks: seq<Blk>
    ghost const start: nat
    ghost const end: nat

    /** The list is linked properly and tiles the heap. */
    ghost predicate Links()
      reads this
    {
      && Tiles(blocks, start, end) && Linked(mem, blocks)
      && first == blocks[0].addr && last == blocks[|blocks| - 1].addr
    }

    ghost predicate Valid()
      reads this
    {
      Links() && Merged(blocks)
    }

    /** `heap_init` on memory from `base` on: one free block whose size is the whole mapping, without
        allowance for its own header. */
    constructor (base: nat, size: nat)
      requires base > 0 && size % 32 == 0
      ensures Valid() && start == base && end == base + HEADER + size
      ensures blocks == [Blk(base, size, false)]
    {
      first, last := base, base;
      mem := map[base := Header(NULL, NULL, false, size)];
      blocks := [Blk(base, size, false)];
      start, end := base, base + HEADER + size;
    }

    /** `combine`: the block at `b2` is merged into its left neighbour at `b1`. */
    method Combine(b1: nat, b2: nat, ghost i: nat)
      requires Links() && i + 1 < |blocks| && blocks[i].addr == b1 && blocks[i + 1].addr == b2
      modifies this
      ensures Links() && blocks == Joined(old(blocks), i)
    {
      Distinct(blocks, start, end);
      JoinedTiles(blocks, start, end, i);
      CombineLinks(mem, blocks, i);
      assert LinkedAt(mem, blocks, i + 1);
      mem := mem[b1 := mem[b1].(size := mem[b1].size + mem[b2].size + HEADER, next := mem[b2].next)];
      if mem[b1].next != NULL {
        mem := mem[mem[b1].next := mem[mem[b1].next].(prev := b1)];
      } else {
        last := b1;
      }
      blocks := Joined(blocks, i);
    }

    /** `split`: the block at `b` keeps `n` bytes, the rest becomes a free block behind it. */
    method Split(b: nat, n: nat, ghost i: nat)
      requires Links() && i < |blocks| && blocks[i].addr == b && n % 32 == 0 && blocks[i].size >= n + HEADER
      modifies this
      ensures Links() && blocks == SplitAt(old(blocks), i, n)
    {
      SplitReady(mem, blocks, start, end, i, n);
      var p := b + HEADER + n;
      var h := Header(mem[b].next, b, false, mem[b].size - n - HEADER);
      mem := mem[b := mem[b].(size := n, next := p)];
      mem := mem[p := h];
      if h.next != NULL {
        mem := mem[h.next := mem[h.next].(prev := p)];
      } else {
        last := p;
      }
      blocks := SplitAt(blocks, i, n);
    }

    /** Sets the `used` field of one block. */
    method Mark(b: nat, used: bool, ghost i: nat)
      requires Links() && i < |blocks| && blocks[i].addr == b
      modifies this
      ensures Links() && blocks == Marked(old(blocks), i, used)
    {
      Distinct(blocks, start, end);
      MarkedTiles(blocks, start, end, i, used);
      MarkedLinks(mem, blocks, i, used);
      mem := mem[b := mem[b].(used := used)];
      blocks := Marked(blocks, i, used);
    }

    /** `kmalloc`: the lowest free block that is large enough, split when it is larger than the request rounded
        up to 32 bytes; null only for an empty request or when no free block is large enough. */
    method Kmalloc(n: nat) returns (p: nat)
      requires Valid()
      modifies this
      ensures Valid()
      ensures var i := FirstFit(old(blocks), RoundUp(n));
        if n == 0 || i == |old(blocks)| then p == NULL && blocks == old(blocks)
        else
          && p == old(blocks)[i].addr + HEADER && Fitting(old(blocks), i, RoundUp(n))
          && blocks == Taken(old(blocks), i, RoundUp(n))
    {
      if n == 0 { return NULL; }
      var m := Rounded(n);
      var curr, i := Search(m);
      if curr == NULL { return NULL; }
      Take(curr, m, i);
      return curr + HEADER;
    }

    /** The rounding at the start of `kmalloc`. */
    static method Rounded(n: nat) returns (m: nat)
      ensures m == RoundUp(n) && m % 32 == 0
    {
      m := n;
      if n % 32 != 0 {
        m := n + (32 - n % 32);
      }
    }

    /** The walk along `next` from the first block. */
    method Search(n: nat) returns (curr: nat, ghost i: nat)
      requires Valid()
      ensures i == FirstFit(blocks, n)
      ensures if i < |blocks| then curr == blocks[i].addr && curr != NULL else curr == NULL
    {
      curr := first;
      i := 0;
      Distinct(blocks, start, end);
      while curr != NULL
        invariant 0 <= i <= |blocks| && curr == (if i < |blocks| then blocks[i].addr else NULL)
        invariant NoneFits(blocks[..i], n)
        decreases |blocks| - i
      {
        assert LinkedAt(mem, blocks, i);
        if !mem[curr].used && mem[curr].size >= n {
          FitsFirst(blocks, i, n);
          return;
        }
        curr := mem[curr].next;
        assert blocks[..i + 1] == blocks[..i] + [blocks[i]];
        i := i + 1;
      }
      assert blocks[..i] == blocks;
      NoFit(blocks, n);
    }

    /** The two ways of taking a free block: cut to size, or whole. */
    method Take(b: nat, n: nat, ghost i: nat)
      requires Valid() && i < |blocks| && blocks[i].addr == b && n % 32 == 0 && blocks[i].size >= n && !blocks[i].used
      modifies this
      ensures Valid() && Fitting(old(blocks), i, n) && blocks == Taken(old(blocks), i, n)
    {
      assert LinkedAt(mem, blocks, i);
      Gap(blocks[i].size, n);
      TakenMerged(blocks, i, n);
      if mem[b].size > n {
        Split(b, n, i);
      }
      Mark(b, true, i);
    }

    /** `kfree`: the block becomes free and merges with free neighbours on both sides. */
    method Kfree(p: nat, ghost i: nat)
      requires Valid() && i < |blocks| && blocks[i].used && p == blocks[i].addr + HEADER
      modifies this
      ensures Valid() && blocks == Released(old(blocks), i)
    {
      ghost var bs := blocks;
      ReleasedTiles(bs, start, end, i);
      ReleasedMerged(bs, i);
      ReleasedInSteps(bs, i);
      var b := p - HEADER;
      Mark(b, false, i);
      b := CombineLeft(b, i);
      CombineRight(b, FromBlock(bs, i));
    }

    method CombineLeft(b: nat, ghost i: nat) returns (c: nat)
      requires Links() && i < |blocks| && b == blocks[i].addr
      modifies this
      ensures Links()
      ensures var a := FromBlock(old(blocks), i);
        && (a < i ==> a + 1 == i) && blocks == (if a < i then Joined(old(blocks), a) else old(blocks)) && a < |blocks|
        && c == blocks[a].addr
    {
      Distinct(blocks, start, end);
      assert LinkedAt(mem, blocks, i) && (i > 0 ==> LinkedAt(mem, blocks, i - 1));
      c := b;
      if mem[b].prev != NULL && !mem[mem[b].prev].used {
        c := mem[b].prev;
        Combine(c, b, i - 1);
      }
    }

    method CombineRight(b: nat, ghost i: nat)
      requires Links() && i < |blocks| && b == blocks[i].addr
      modifies this
      ensures Links()
      ensures blocks == if ToBlock(old(blocks), i) > i then Joined(old(blocks), i) else old(blocks)
    {
      Distinct(blocks, start, end);
      assert LinkedAt(mem, blocks, i) && (i + 1 < |blocks| ==> LinkedAt(mem, blocks, i + 1));
      if mem[b].next != NULL && !mem[mem[b].next].used {
        Combine(b, mem[b].next, i);
      }
    }

    /** Either call, as a step of a run. */
    method Perform(op: Op) returns (p: nat)
      requires Valid() && (op.Free? ==> op.p in Live(blocks))
      modifies this
      ensures Valid() && blocks == Step(old(blocks), op) && (op.Malloc? ==> p == Result(old(blocks), op.n))
    {
      match op
      case Malloc(n) => p := Kmalloc(n);
      case Free(q) =>
        Kfree(q, Owner(blocks, q));
        p := NULL;
    }
  }

  // ---------------------------------------------------------------- runs

  /** What the rest of the kernel asks of the heap. */
  datatype Op = Malloc(n: nat) | Free(p: nat)

  /** The pointers handed out and not yet given back, as the list shows them. */
  ghost function Live(bs: seq<Blk>): set<nat> {
    set i | 0 <= i < |bs| && bs[i].used :: bs[i].addr + HEADER
  }

  /** Index of the used block with payload `p`. */
  ghost function Owner(bs: seq<Blk>, p: nat): (i: nat)
    requires p in Live(bs)
    ensures i < |bs| && bs[i].used && bs[i].addr + HEADER == p
  {
    var i :| 0 <= i < |bs| && bs[i].used && bs[i].addr + HEADER == p;
    i
  }

  /** What `Kmalloc` returns on a list of blocks. */
  function Result(bs: seq<Blk>, n: nat): nat {
    var i := FirstFit(bs, RoundUp(n));
    if n == 0 || i == |bs| then NULL else bs[i].addr + HEADER
  }

  /** The list after one call: the contracts of `Kmalloc` and `Kfree`. */
  ghost function Step(bs: seq<Blk>, op: Op): seq<Blk> {
    match op
    case Malloc(n) =>
      var i := FirstFit(bs, RoundUp(n));
      if n != 0 && Fitting(bs, i, RoundUp(n)) then Taken(bs, i, RoundUp(n)) else bs
    case Free(p) => if p in Live(bs) then Released(bs, Owner(bs, p)) else bs
  }

  /** The pointers the callers hold after one call, counted from results and arguments alone. */
  function Held(held: set<nat>, bs: seq<Blk>, op: Op): set<nat> {
    match op
    case Malloc(n) => if Result(bs, n) == NULL then held else held + {Result(bs, n)}
    case Free(p) => held - {p}
  }

  /** `ops` is a run whose callers only give back what they hold. */
  ghost predicate Legal(bs: seq<Blk>, held: set<nat>, ops: seq<Op>)
    decreases |ops|
  {
    ops == [] ||
    ((ops[0].Free? ==> ops[0].p in held) && Legal(Step(bs, ops[0]), Held(held, bs, ops[0]), ops[1..]))
  }

  ghost function Run(bs: seq<Blk>, held: set<nat>, ops: seq<Op>): (seq<Blk>, set<nat>)
    requires Legal(bs, held, ops)
    decreases |ops|
  {
    if ops == [] then (bs, held) else Run(Step(bs, ops[0]), Held(held, bs, ops[0]), ops[1..])
  }

  /** A sound heap: tiled, merged, and its used blocks are exactly what the callers hold. */
  ghost predicate Sound(bs: seq<Blk>, held: set<nat>, start: nat, end: nat) {
    Tiles(bs, start, end) && Merged(bs) && Live(bs) == held
  }

  lemma SplitLive(bs: seq<Blk>, i: nat, n: nat)
    requires i < |bs| && bs[i].size >= n + HEADER && !bs[i].used
    ensures Live(SplitAt(bs, i, n)) == Live(bs)
  {
    var r := SplitAt(bs, i, n);
    forall p ensures p in Live(r) <==> p in Live(bs) {
      if p in Live(bs) {
        var k := Owner(bs, p);
        assert r[if k < i then k else k + 1] == bs[k];
      }
      if p in Live(r) {
        var k := Owner(r, p);
        assert r[k] == bs[if k < i then k else k - 1];
      }
    }
  }

  lemma MarkedLive(bs: seq<Blk>, i: nat)
    requires Increasing(bs) && i < |bs| && !bs[i].used
    ensures Live(Marked(bs, i, true)) == Live(bs) + {bs[i].addr + HEADER} && bs[i].addr + HEADER !in Live(bs)
  {
    var r := Marked(bs, i, true);
    forall p ensures p in Live(r) <==> p in Live(bs) + {bs[i].addr + HEADER} {
      if p in Live(bs) {
        assert r[Owner(bs, p)] == bs[Owner(bs, p)];
      }
      if p == bs[i].addr + HEADER {
        assert r[i].used && r[i].addr + HEADER == p;
      }
      if p in Live(r) {
        assert Owner(r, p) != i ==> r[Owner(r, p)] == bs[Owner(r, p)];
      }
    }
  }

  lemma ReleasedLive(bs: seq<Blk>, i: nat)
    requires Increasing(bs) && i < |bs| && bs[i].used
    ensures Live(Released(bs, i)) == Live(bs) - {bs[i].addr + HEADER}
  {
    forall p | p in Live(bs) - {bs[i].addr + HEADER} ensures p in Live(Released(bs, i)) {
      StaysLive(bs, i, p);
    }
    forall p | p in Live(Released(bs, i)) ensures p in Live(bs) - {bs[i].addr + HEADER} {
      WasLive(bs, i, p);
    }
  }

  lemma StaysLive(bs: seq<Blk>, i: nat, p: nat)
    requires i < |bs| && bs[i].used && p in Live(bs) && p != bs[i].addr + HEADER
    ensures p in Live(Released(bs, i))
  {
    var r, a, b, k := Released(bs, i), FromBlock(bs, i), ToBlock(bs, i), Owner(bs, p);
    assert r[if k < a then k else k - (b - a)] == bs[k];
  }

  lemma WasLive(bs: seq<Blk>, i: nat, p: nat)
    requires Increasing(bs) && i < |bs| && bs[i].used && p in Live(Released(bs, i))
    ensures p in Live(bs) && p != bs[i].addr + HEADER
  {
    var r, a, b := Released(bs, i), FromBlock(bs, i), ToBlock(bs, i);
    var k := Owner(r, p);
    assert r[k] == bs[if k < a then k else k + (b - a)];
  }

  lemma MallocSound(bs: seq<Blk>, held: set<nat>, start: nat, end: nat, i: nat, n: nat)
    requires Sound(bs, held, start, end) && i < |bs| && !bs[i].used && bs[i].size >= n && n % 32 == 0
    ensures Fitting(bs, i, n) && Sound(Taken(bs, i, n), held + {bs[i].addr + HEADER}, start, end)
  {
    Gap(bs[i].size, n);
    TakenTiles(bs, start, end, i, n);
    TakenMerged(bs, i, n);
    if bs[i].size == n {
      Distinct(bs, start, end);
      MarkedLive(bs, i);
    } else {
      SplitAtTiles(bs, start, end, i, n);
      Distinct(SplitAt(bs, i, n), start, end);
      SplitLive(bs, i, n);
      MarkedLive(SplitAt(bs, i, n), i);
    }
  }

  lemma FreeSound(bs: seq<Blk>, held: set<nat>, start: nat, end: nat, i: nat)
    requires Sound(bs, held, start, end) && i < |bs| && bs[i].used
    ensures Sound(Released(bs, i), held - {bs[i].addr + HEADER}, start, end)
  {
    Distinct(bs, start, end);
    ReleasedTiles(bs, start, end, i);
    ReleasedMerged(bs, i);
    ReleasedLive(bs, i);
  }

  lemma StepSound(bs: seq<Blk>, held: set<nat>, start: nat, end: nat, op: Op)
    requires Sound(bs, held, start, end) && (op.Free? ==> op.p in held)
    ensures Sound(Step(bs, op), Held(held, bs, op), start, end)
  {
    match op
    case Malloc(n) => MallocStep(bs, held, start, end, n);
    case Free(p) => FreeSound(bs, held, start, end, Owner(bs, p));
  }

  lemma MallocStep(bs: seq<Blk>, held: set<nat>, start: nat, end: nat, n: nat)
    requires Sound(bs, held, start, end)
    ensures Sound(Step(bs, Malloc(n)), Held(held, bs, Malloc(n)), start, end)
  {
    var i := FirstFit(bs, RoundUp(n));
    if n != 0 && i < |bs| {
      MallocSound(bs, held, start, end, i, RoundUp(n));
    }
  }

  /** Over every run of calls the blocks tile the heap, no two free blocks are neighbours, and the used blocks
      are exactly the pointers the callers hold. */
  lemma {:induction false} RunSound(bs: seq<Blk>, held: set<nat>, start: nat, end: nat, ops: seq<Op>)
    requires Sound(bs, held, start, end) && Legal(bs, held, ops)
    ensures var (bs', held') := Run(bs, held, ops); Sound(bs', held', start, end)
    decreases |ops|
  {
    if ops != [] {
      StepSound(bs, held, start, end, ops[0]);
      RunSound(Step(bs, ops[0]), Held(held, bs, ops[0]), start, end, ops[1..]);
    }
  }

  /** The pointer of a used block leads back to it. */
  lemma OwnerIs(bs: seq<Blk>, start: nat, end: nat, k: nat)
    requires Tiles(bs, start, end) && k < |bs| && bs[k].used
    ensures bs[k].addr + HEADER in Live(bs) && Owner(bs, bs[k].addr + HEADER) == k
  {
    assert bs[k].addr + HEADER in Live(bs);
    Distinct(bs, start, end);
  }

  /** Bytes at the disposal of whoever holds `p`. */
  ghost function Room(bs: seq<Blk>, p: nat): nat
    requires p in Live(bs)
  {
    bs[Owner(bs, p)].size
  }

  /** An allocation that succeeds gives a new pointer to as many bytes as asked for, rounded up. */
  lemma MallocServes(bs: seq<Blk>, held: set<nat>, start: nat, end: nat, n: nat)
    requires Sound(bs, held, start, end) && Result(bs, n) != NULL
    ensures var r, p := Step(bs, Malloc(n)), Result(bs, n);
      p !in held && p in Live(r) && Room(r, p) % 32 == 0 && n <= Room(r, p) < n + 32
  {
    var i, m := FirstFit(bs, RoundUp(n)), RoundUp(n);
    MallocSound(bs, held, start, end, i, m);
    var r := Taken(bs, i, m);
    assert r[i] == Blk(bs[i].addr, m, true);
    OwnerIs(r, start, end, i);
    forall k | 0 <= k < |bs| && bs[k].used ensures bs[k].addr != bs[i].addr {
      Distinct(bs, start, end);
    }
  }

  /** Where another used block is after an allocation and after a release. */
  lemma TakenAt(bs: seq<Blk>, i: nat, n: nat, k: nat) returns (k': nat)
    requires Fitting(bs, i, n) && k < |bs| && k != i
    ensures var r := Taken(bs, i, n); k' < |r| && r[k'] == bs[k]
  {
    k' := if k < i || bs[i].size == n then k else k + 1;
  }

  lemma ReleasedAt(bs: seq<Blk>, i: nat, k: nat) returns (k': nat)
    requires i < |bs| && k < |bs| && k != i && bs[k].used
    ensures var r := Released(bs, i); k' < |r| && r[k'] == bs[k]
  {
    var a, b := FromBlock(bs, i), ToBlock(bs, i);
    k' := if k < a then k else k - (b - a);
  }

  lemma RoomSame(bs: seq<Blk>, r: seq<Blk>, start: nat, end: nat, q: nat, k: nat)
    requires Tiles(r, start, end) && q in Live(bs) && k < |r| && r[k] == bs[Owner(bs, q)]
    ensures q in Live(r) && Room(r, q) == Room(bs, q)
  {
    OwnerIs(r, start, end, k);
  }

  lemma RoomTaken(bs: seq<Blk>, held: set<nat>, start: nat, end: nat, i: nat, n: nat, q: nat)
    requires Sound(bs, held, start, end) && i < |bs| && !bs[i].used && bs[i].size >= n && n % 32 == 0 && q in held
    ensures Fitting(bs, i, n) && q in Live(Taken(bs, i, n)) && Room(Taken(bs, i, n), q) == Room(bs, q)
  {
    MallocSound(bs, held, start, end, i, n);
    var k := TakenAt(bs, i, n, Owner(bs, q));
    RoomSame(bs, Taken(bs, i, n), start, end, q, k);
  }

  lemma RoomReleased(bs: seq<Blk>, held: set<nat>, start: nat, end: nat, p: nat, q: nat)
    requires Sound(bs, held, start, end) && p in held && q in held && p != q
    ensures var r := Released(bs, Owner(bs, p)); q in Live(r) && Room(r, q) == Room(bs, q)
  {
    var i := Owner(bs, p);
    ReleasedTiles(bs, start, end, i);
    var k := ReleasedAt(bs, i, Owner(bs, q));
    RoomSame(bs, Released(bs, i), start, end, q, k);
  }

  /** No call changes what another pointer has. */
  lemma RoomKept(bs: seq<Blk>, held: set<nat>, start: nat, end: nat, op: Op, q: nat)
    requires Sound(bs, held, start, end) && (op.Free? ==> op.p in held) && q in held && op != Free(q)
    ensures q in Live(Step(bs, op)) && Room(Step(bs, op), q) == Room(bs, q)
  {
    match op
    case Malloc(n) =>
      var i := FirstFit(bs, RoundUp(n));
      if n != 0 && i < |bs| {
        RoomTaken(bs, held, start, end, i, RoundUp(n), q);
      }
    case Free(p) => RoomReleased(bs, held, start, end, p, q);
  }

  /** So a pointer keeps its bytes over every run that does not give it back. */
  lemma {:induction false} RoomLasts(bs: seq<Blk>, held: set<nat>, start: nat, end: nat, ops: seq<Op>, q: nat)
    requires Sound(bs, held, start, end) && Legal(bs, held, ops) && q in held && Free(q) !in ops
    ensures var (bs', held') := Run(bs, held, ops); q in held' && q in Live(bs') && Room(bs', q) == Room(bs, q)
    decreases |ops|
  {
    if ops != [] {
      RoomKept(bs, held, start, end, ops[0], q);
      StepSound(bs, held, start, end, ops[0]);
      RoomLasts(Step(bs, ops[0]), Held(held, bs, ops[0]), start, end, ops[1..], q);
    }
  }

  /** The payload of a live allocation lies inside the heap and meets the header of no block, live or free. */
  lemma PayloadClear(bs: seq<Blk>, held: set<nat>, start: nat, end: nat, p: nat, j: nat)
    requires Sound(bs, held, start, end) && p in held && j < |bs|
    ensures var i := Owner(bs, p);
      && (p + bs[i].size <= bs[j].addr || bs[j].addr + HEADER <= p)
      && start + HEADER <= p && p + bs[i].size <= end
  {
    var i := Owner(bs, p);
    if i < j { InOrder(bs, start, end, i, j); }
    if j < i { InOrder(bs, start, end, j, i); }
    if 0 < i { InOrder(bs, start, end, 0, i); }
    if i < |bs| - 1 { InOrder(bs, start, end, i, |bs| - 1); }
  }

  /** The payloads of two live allocations never overlap. */
  lemma LiveDisjoint(bs: seq<Blk>, held: set<nat>, start: nat, end: nat, p: nat, q: nat)
    requires Sound(bs, held, start, end) && p in held && q in held && p != q
    ensures p + bs[Owner(bs, p)].size + HEADER <= q || q + bs[Owner(bs, q)].size + HEADER <= p
  {
    var i, j := Owner(bs, p), Owner(bs, q);
    if i < j {
      InOrder(bs, start, end, i, j);
    } else {
      InOrder(bs, start, end, j, i);
    }
  }

  lemma NothingLive(bs: seq<Blk>, start: nat, end: nat)
    requires Sound(bs, {}, start, end)
    ensures |bs| == 1 && !bs[0].used
  {
    assert forall i :: 0 <= i < |bs| && bs[i].used ==> bs[i].addr + HEADER in Live(bs);
    assert |bs| > 1 ==> SomeUsed(bs, 0);
  }

  /** Once everything is given back, in whatever order, the heap is the single free block it was at first. */
  lemma AllFreedRestores(start: nat, size: nat, ops: seq<Op>)
    requires start > 0 && size % 32 == 0
    requires var init := [Blk(start, size, false)]; Legal(init, {}, ops) && Run(init, {}, ops).1 == {}
    ensures Run([Blk(start, size, false)], {}, ops).0 == [Blk(start, size, false)]
  {
    var init := [Blk(start, size, false)];
    assert Live(init) == {};
    RunSound(init, {}, start, start + HEADER + size, ops);
    var bs := Run(init, {}, ops).0;
    NothingLive(bs, start, start + HEADER + size);
  }

  // ---------------------------------------------------------------- the end of the mapping

  /** `heap_init` maps `mapped` bytes and gives its block all of them beside the header: in every state of the heap
      the last block, and no other, reaches behind the mapping. */
  lemma OnlyLastBehindMapping(bs: seq<Blk>, start: nat, mapped: nat, i: nat)
    requires Tiles(bs, start, start + HEADER + mapped) && i < |bs|
    ensures bs[i].End() <= start + mapped <==> i < |bs| - 1
  {
    if i < |bs| - 1 {
      InOrder(bs, start, start + HEADER + mapped, i, |bs| - 1);
    }
  }

  /** Everything the kernel writes is mapped: the headers of all blocks and the payloads in use. */
  ghost predicate InMapping(bs: seq<Blk>, limit: nat) {
    forall i :: 0 <= i < |bs| ==> bs[i].addr + HEADER <= limit && (bs[i].used ==> bs[i].End() <= limit)
  }

  /** That is so exactly while the last block is free and as large as a header. */
  lemma InMappingExactly(bs: seq<Blk>, start: nat, mapped: nat)
    requires Tiles(bs, start, start + HEADER + mapped)
    ensures InMapping(bs, start + mapped) <==> !bs[|bs| - 1].used && bs[|bs| - 1].size >= HEADER
  {
    var n := |bs| - 1;
    if !bs[n].used && bs[n].size >= HEADER {
      forall i | 0 <= i < |bs| ensures bs[i].addr + HEADER <= start + mapped
        && (bs[i].used ==> bs[i].End() <= start + mapped) {
        OnlyLastBehindMapping(bs, start, mapped, i);
      }
    }
  }

  /** A call of `kmalloc` on such a heap leaves the mapping exactly when it takes the last block and does not leave 64
      bytes of it, room for the header and the overhang of the block behind. */
  lemma MallocStaysMapped(bs: seq<Blk>, held: set<nat>, start: nat, mapped: nat, n: nat)
    requires Sound(bs, held, start, start + HEADER + mapped) && InMapping(bs, start + mapped)
    ensures var i := FirstFit(bs, RoundUp(n));
      InMapping(Step(bs, Malloc(n)), start + mapped) <==>
        n == 0 || i != |bs| - 1 || RoundUp(n) + 2 * HEADER <= bs[i].size
  {
    var end, r, i := start + HEADER + mapped, RoundUp(n), FirstFit(bs, RoundUp(n));
    MallocStep(bs, held, start, end, n);
    InMappingExactly(bs, start, mapped);
    InMappingExactly(Step(bs, Malloc(n)), start, mapped);
    if n != 0 && i < |bs| {
      Gap(bs[i].size, r);
      TakenLast(bs, i, r);
    }
  }

  /** The last block after an allocation. */
  lemma TakenLast(bs: seq<Blk>, i: nat, n: nat)
    requires Fitting(bs, i, n)
    ensures var t := Taken(bs, i, n);
      && |t| >= |bs|
      && (i < |bs| - 1 ==> t[|t| - 1] == bs[|bs| - 1])
      && (i == |bs| - 1 && bs[i].size == n ==> t[|t| - 1].used)
      && (i == |bs| - 1 && bs[i].size != n ==> !t[|t| - 1].used && t[|t| - 1].size == bs[i].size - n - HEADER)
  {}

  /** For the first call: exactly the requests that are granted but leave less than 64 bytes of the mapping write the
      header of the rest, or the end of the payload, behind it. */
  lemma FirstMallocStaysMapped(start: nat, mapped: nat, n: nat)
    requires start > 0 && mapped > 0 && mapped % 32 == 0
    ensures InMapping(Step([Blk(start, mapped, false)], Malloc(n)), start + mapped)
      <==> n == 0 || RoundUp(n) > mapped || RoundUp(n) + 2 * HEADER <= mapped
  {
    var bs := [Blk(start, mapped, false)];
    assert Live(bs) == {};
    Gap(mapped, 0);
    MallocStaysMapped(bs, {}, start, mapped, n);
  }

  /** Giving a block back never makes things worse. */
  lemma FreeStaysMapped(bs: seq<Blk>, held: set<nat>, start: nat, mapped: nat, p: nat)
    requires Sound(bs, held, start, start + HEADER + mapped) && InMapping(bs, start + mapped) && p in held
    ensures InMapping(Step(bs, Free(p)), start + mapped)
  {
    var i := Owner(bs, p);
    FreeSound(bs, held, start, start + HEADER + mapped, i);
    InMappingExactly(bs, start, mapped);
    InMappingExactly(Released(bs, i), start, mapped);
  }
}
