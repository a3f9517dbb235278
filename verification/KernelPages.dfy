/** The kernel's virtual pages: a directory of 512 page tables of 512 entries each.
    Entry `pd * 512 + pt` stands for the page at `HEAPBASE + pd * PAGE2M + pt * PAGE4K`. */
module KernelPages {
  import opened Paging

  const HEAPBASE := 0xffff_ffff_c000_0000
  const PAGES := 0x4_0000

  /** Address of kernel page `q`, and the page that the index macros find at an address. */
  function AddrOf(q: nat): nat { HEAPBASE + q * PAGE4K }
  function PageAt(v: nat): nat { PdIdx(v) * ENTCNT + PtIdx(v) }

  lemma PageAtAddr(q: nat)
    requires q < PAGES
    ensures PageAt(AddrOf(q)) == q && AddrOf(q) % PAGE4K == 0
  {}

  /** Bit 0 of an entry is `PAGE_PR`. */
  predicate Present(e: nat) { e % 2 == 1 }

  /** Page `q` may be taken without a new page table. */
  predicate Avail(dir: seq<bool>, pte: seq<nat>, q: nat)
    requires |dir| == ENTCNT && |pte| == PAGES
  {
    q < PAGES && dir[q / ENTCNT] && !Present(pte[q])
  }

  /** The `n` pages from `a` on may be taken. */
  ghost predicate FreeRun(dir: seq<bool>, pte: seq<nat>, a: nat, n: nat)
    requires |dir| == ENTCNT && |pte| == PAGES
  {
    forall q :: a <= q < a + n ==> Avail(dir, pte, q)
  }

  /** No such run ends at or before page `q`. */
  ghost predicate NoRun(dir: seq<bool>, pte: seq<nat>, n: nat, q: nat)
    requires |dir| == ENTCNT && |pte| == PAGES
  {
    forall a: nat :: a + n <= q ==> !FreeRun(dir, pte, a, n)
  }

  /** The `c` directory entries from `d` on are absent. */
  ghost predicate AbsentRun(dir: seq<bool>, d: nat, c: nat) {
    d + c <= |dir| && forall e :: d <= e < d + c ==> !dir[e]
  }

  ghost predicate NoAbsentRun(dir: seq<bool>, c: nat, upto: nat) {
    forall d: nat :: d + c <= upto ==> !AbsentRun(dir, d, c)
  }

  /** The `c` tables from page `q` on, the lowest row of absent ones, have become present, and no others. */
  ghost predicate NewTables(dir: seq<bool>, dir': seq<bool>, q: nat, c: nat) {
    && q % ENTCNT == 0 && AbsentRun(dir, q / ENTCNT, c) && dir' == Fill(dir, q / ENTCNT, c, true)
    && forall d: nat :: d < q / ENTCNT ==> !AbsentRun(dir, d, c)
  }

  /** Number of page tables that `n` pages take. */
  function Tables(n: nat): nat { if n == 0 then 1 else (n + 511) / 512 }

  /** As few as hold the pages, but at least one. */
  lemma TablesLeast(n: nat)
    ensures Tables(n) >= 1 && n <= Tables(n) * ENTCNT && (Tables(n) > 1 ==> (Tables(n) - 1) * ENTCNT < n)
  {}

  /** `s` with the `n` entries from `q` on set to `v`. */
  function Fill<T>(s: seq<T>, q: nat, n: nat, v: T): (r: seq<T>)
    requires q + n <= |s|
    ensures |r| == |s| && forall k :: 0 <= k < |s| ==> r[k] == if q <= k < q + n then v else s[k]
  {
    seq(|s|, k requires 0 <= k < |s| => if q <= k < q + n then v else s[k])
  }

  /** At page `q` the search has passed `counter` free pages in a row, from `start` on, and no run of `m` before
      them. */
  ghost predicate ScanInv(d: seq<bool>, p: seq<nat>, m: nat, start: nat, counter: nat, q: nat) {
    && |d| == ENTCNT && |p| == PAGES && q <= PAGES
    && start + counter == q && counter < m
    && FreeRun(d, p, start, counter) && NoRun(d, p, m, q)
    && (start == 0 || !Avail(d, p, start - 1))
  }

  /** One more page: either it breaks the run, or the run grows and may be complete. */
  lemma ScanStep(d: seq<bool>, p: seq<nat>, m: nat, start: nat, counter: nat, q: nat)
    requires ScanInv(d, p, m, start, counter, q) && q < PAGES
    ensures !Avail(d, p, q) ==> ScanInv(d, p, m, q + 1, 0, q + 1)
    ensures Avail(d, p, q) && counter + 1 < m ==> ScanInv(d, p, m, start, counter + 1, q + 1)
    ensures Avail(d, p, q) && counter + 1 == m ==>
      FreeRun(d, p, start, m) && forall a: nat :: a < start ==> !FreeRun(d, p, a, m)
  {
    forall a: nat | a + m <= q + 1 && !(Avail(d, p, q) && counter + 1 == m && a == start)
      ensures !FreeRun(d, p, a, m)
    {
      if a + m == q + 1 {
        if Avail(d, p, q) {
          assert a < start && a <= start - 1 < a + m;
        } else {
          assert a <= q < a + m;
        }
      }
    }
  }

  lemma {:induction false} SkipPages(d: seq<bool>, p: seq<nat>, m: nat, start: nat, counter: nat, q: nat, n: nat)
    requires ScanInv(d, p, m, start, counter, q) && q + n <= PAGES && 0 < n
    requires forall k :: q <= k < q + n ==> !Avail(d, p, k)
    ensures ScanInv(d, p, m, q + n, 0, q + n)
    decreases n
  {
    ScanStep(d, p, m, start, counter, q);
    if n > 1 {
      SkipPages(d, p, m, q + 1, 0, q + 1, n - 1);
    }
  }

  lemma SkipDirectory(d: seq<bool>, p: seq<nat>, m: nat, i: nat, start: nat, counter: nat)
    requires ScanInv(d, p, m, start, counter, i * ENTCNT) && i < ENTCNT && !d[i]
    ensures ScanInv(d, p, m, (i + 1) * ENTCNT, 0, (i + 1) * ENTCNT)
  {
    SkipPages(d, p, m, start, counter, i * ENTCNT, ENTCNT);
  }

  class KernelPages {
    const dir: array<bool>
    const pte: array<nat>

    ghost predicate Valid()
      reads this, dir, pte
    {
      && dir.Length == ENTCNT && pte.Length == PAGES
      && forall q :: 0 <= q < PAGES && !dir[q / ENTCNT] ==> pte[q] == 0
    }

    constructor ()
      ensures Valid() && fresh(dir) && fresh(pte)
      ensures dir[..] == seq(ENTCNT, _ => false) && pte[..] == seq(PAGES, _ => 0)
    {
      dir := new bool[ENTCNT](_ => false);
      pte := new nat[PAGES](_ => 0);
    }

    /** The first search of `mmu_kalloc`: the lowest run of free pages below present directory entries. */
    method FindRun(n: nat) returns (found: bool, pdidx: nat, ptidx: nat, counter: nat)
      requires Valid()
      ensures found ==> counter == (if n == 0 then 1 else n) && pdidx < ENTCNT && ptidx <= ENTCNT
      ensures found ==> pdidx * ENTCNT + ptidx + counter <= PAGES
      ensures found ==> FreeRun(dir[..], pte[..], pdidx * ENTCNT + ptidx, counter)
      ensures found ==> forall a: nat :: a < pdidx * ENTCNT + ptidx ==> !FreeRun(dir[..], pte[..], a, counter)
      ensures !found ==> NoRun(dir[..], pte[..], if n == 0 then 1 else n, PAGES)
    {
      ghost var m := if n == 0 then 1 else n;
      found, pdidx, ptidx, counter := false, 0, 0, 0;
      var i := 0;
      while i < ENTCNT
        invariant 0 <= i <= ENTCNT && !found
        invariant ScanInv(dir[..], pte[..], m, pdidx * ENTCNT + ptidx, counter, i * ENTCNT) && pdidx <= i
          && ptidx <= ENTCNT
      {
        if !dir[i] {
          SkipDirectory(dir[..], pte[..], m, i, pdidx * ENTCNT + ptidx, counter);
          pdidx, ptidx, counter := i + 1, 0, 0;
          i := i + 1;
          continue;
        }
        found, pdidx, ptidx, counter := ScanTable(n, i, pdidx, ptidx, counter);
        if found { return; }
        i := i + 1;
      }
    }

    /** The same search inside one page table. */
    method ScanTable(n: nat, i: nat, pdidx0: nat, ptidx0: nat, counter0: nat)
      returns (found: bool, pdidx: nat, ptidx: nat, counter: nat)
      requires Valid() && i < ENTCNT && dir[i] && pdidx0 <= i && ptidx0 <= ENTCNT
      requires ScanInv(dir[..], pte[..], if n == 0 then 1 else n, pdidx0 * ENTCNT + ptidx0, counter0, i * ENTCNT)
      ensures pdidx <= i && ptidx <= ENTCNT
      ensures !found ==>
        ScanInv(dir[..], pte[..], if n == 0 then 1 else n, pdidx * ENTCNT + ptidx, counter, (i + 1) * ENTCNT)
      ensures found ==> counter == (if n == 0 then 1 else n) && pdidx * ENTCNT + ptidx + counter <= PAGES
      ensures found ==> FreeRun(dir[..], pte[..], pdidx * ENTCNT + ptidx, counter)
      ensures found ==> forall a: nat :: a < pdidx * ENTCNT + ptidx ==> !FreeRun(dir[..], pte[..], a, counter)
    {
      ghost var m := if n == 0 then 1 else n;
      found, pdidx, ptidx, counter := false, pdidx0, ptidx0, counter0;
      for j := 0 to ENTCNT
        invariant !found && pdidx <= i && ptidx <= ENTCNT
        invariant ScanInv(dir[..], pte[..], m, pdidx * ENTCNT + ptidx, counter, i * ENTCNT + j)
      {
        ghost var q := i * ENTCNT + j;
        assert q / ENTCNT == i && q < PAGES;
        ScanStep(dir[..], pte[..], m, pdidx * ENTCNT + ptidx, counter, q);
        if Present(pte[i * ENTCNT + j]) {
          pdidx, ptidx, counter := i, j + 1, 0;
        } else {
          counter := counter + 1;
          if counter >= n {
            found := true;
            return;
          }
        }
      }
    }

    /** The second search: enough absent directory entries in a row. */
    method FindTables(n: nat) returns (found: bool, pdidx: nat)
      requires Valid()
      ensures found ==>
        AbsentRun(dir[..], pdidx, Tables(n)) && forall d: nat :: d < pdidx ==> !AbsentRun(dir[..], d, Tables(n))
      ensures !found ==> NoAbsentRun(dir[..], Tables(n), ENTCNT)
    {
      pdidx := 0;
      var counter := 0;
      ghost var c := Tables(n);
      for i := 0 to ENTCNT
        invariant pdidx <= i && counter == (i - pdidx) * 512 && i - pdidx < c
        invariant AbsentRun(dir[..], pdidx, i - pdidx) && NoAbsentRun(dir[..], c, i)
        invariant pdidx == 0 || dir[pdidx - 1]
      {
        if dir[i] {
          forall d: nat | d + c == i + 1 ensures !AbsentRun(dir[..], d, c) {
            assert dir[..][i];
          }
          pdidx, counter := i + 1, 0;
          continue;
        }
        counter := counter + 512;
        forall d: nat | d < pdidx && d + c <= i + 1 ensures !AbsentRun(dir[..], d, c) {
          if d + c == i + 1 {
            assert dir[..][pdidx - 1];
          }
        }
        if counter >= n {
          forall d: nat | d < pdidx ensures !AbsentRun(dir[..], d, c) {}
          return true, pdidx;
        }
      }
      return false, 0;
    }

    /** Marks `counter` pages from `(pd, pt)` on, crossing from one table to the next. */
    method MarkPages(pd: nat, pt: nat, counter: nat)
      requires Valid() && pt <= ENTCNT && pd * ENTCNT + pt + counter <= PAGES
      requires FreeRun(dir[..], pte[..], pd * ENTCNT + pt, counter)
      modifies pte
      ensures Valid() && pte[..] == Fill(old(pte[..]), pd * ENTCNT + pt, counter, 1)
    {
      ghost var q, was := pd * ENTCNT + pt, pte[..];
      var pdidx, ptidx, left := pd, pt, counter;
      while left > 0
        invariant 0 <= left && ptidx <= ENTCNT && pdidx * ENTCNT + ptidx + left == q + counter
        invariant pte[..] == Fill(old(pte[..]), q, counter - left, 1)
      {
        if ptidx >= 512 {
          pdidx, ptidx := pdidx + 1, 0;
        }
        pte[pdidx * ENTCNT + ptidx] := 1;
        ptidx, left := ptidx + 1, left - 1;
      }
      forall k | 0 <= k < PAGES && !dir[k / ENTCNT] ensures pte[..][k] == 0 {
        assert q <= k < q + counter ==> Avail(dir[..], was, k);
      }
    }

    /** Marks `n` pages from the start of table `pd` on, making each table present as it is entered. */
    method MarkTables(pd: nat, n: nat)
      requires Valid() && AbsentRun(dir[..], pd, Tables(n))
      modifies dir, pte
      ensures Valid() && pd * ENTCNT + n <= PAGES && pte[..] == Fill(old(pte[..]), pd * ENTCNT, n, 1)
      ensures dir[..] == Fill(old(dir[..]), pd, Tables(n), true)
    {
      var pdidx, ptidx, left := pd, 0, n;
      dir[pdidx] := true;
      while left > 0
        invariant ptidx <= ENTCNT && 0 <= left <= n && pd <= pdidx < pd + Tables(n)
        invariant (pdidx - pd) * ENTCNT + ptidx + left == n && (left < n ==> ptidx > 0)
        invariant pte[..] == Fill(old(pte[..]), pd * ENTCNT, n - left, 1)
        invariant dir[..] == Fill(old(dir[..]), pd, pdidx - pd + 1, true)
      {
        if ptidx >= 512 {
          pdidx, ptidx := pdidx + 1, 0;
          dir[pdidx] := true;
        }
        pte[pdidx * ENTCNT + ptidx] := 1;
        ptidx, left := ptidx + 1, left - 1;
      }
    }

    /** `mmu_kalloc`: the lowest run of free pages under present tables, or else pages of new tables. */
    method Kalloc(n: nat) returns (addr: nat, ghost q: nat, ghost len: nat)
      requires Valid()
      modifies dir, pte
      ensures Valid()
      ensures addr == 0 <==> NoRun(old(dir[..]), old(pte[..]), if n == 0 then 1 else n, PAGES)
                             && NoAbsentRun(old(dir[..]), Tables(n), ENTCNT)
      ensures addr == 0 ==> dir[..] == old(dir[..]) && pte[..] == old(pte[..])
      ensures addr != 0 ==> addr == AddrOf(q) && q + len <= PAGES && len >= n && (n > 0 ==> len == n)
      ensures addr != 0 ==> pte[..] == Fill(old(pte[..]), q, len, 1)
      ensures addr != 0 ==> forall k :: q <= k < q + len ==> !Present(old(pte[..])[k]) && dir[..][k / ENTCNT]
      ensures !NoRun(old(dir[..]), old(pte[..]), if n == 0 then 1 else n, PAGES) ==>
        dir[..] == old(dir[..]) && FreeRun(old(dir[..]), old(pte[..]), q, len)
        && forall a: nat :: a < q ==> !FreeRun(old(dir[..]), old(pte[..]), a, len)
      ensures addr != 0 && NoRun(old(dir[..]), old(pte[..]), if n == 0 then 1 else n, PAGES) ==>
        NewTables(old(dir[..]), dir[..], q, Tables(n))
    {
      ghost var d0, p0 := dir[..], pte[..];
      var found, pdidx, ptidx, counter := FindRun(n);
      if found {
        addr, q, len := HEAPBASE + pdidx * PAGE2M + ptidx * PAGE4K, pdidx * ENTCNT + ptidx, counter;
        MarkPages(pdidx, ptidx, counter);
        forall k | q <= k < q + len ensures !Present(p0[k]) && dir[..][k / ENTCNT] {
          assert Avail(d0, p0, k);
        }
        return;
      }
      found, pdidx := FindTables(n);
      q, len := 0, 0;
      if found {
        addr, q, len := HEAPBASE + pdidx * PAGE2M, pdidx * ENTCNT, n;
        MarkTables(pdidx, n);
        forall k | q <= k < q + len ensures !Present(p0[k]) && dir[..][k / ENTCNT] {
          assert pdidx <= k / ENTCNT < pdidx + Tables(n) && !d0[k / ENTCNT];
        }
        return;
      }
      addr := 0;
    }

    /** `mmu_kfree` */
    method Kfree(ptr: nat, n: nat, ghost q: nat)
      requires Valid() && ptr == AddrOf(q) && q + n <= PAGES
      modifies pte
      ensures Valid() && pte[..] == Fill(old(pte[..]), q, n, 0)
    {
      var p, left := ptr, n;
      while left > 0
        invariant 0 <= left <= n && p == AddrOf(q + n - left)
        invariant pte[..] == Fill(old(pte[..]), q, n - left, 0)
      {
        PageAtAddr(q + n - left);
        pte[PdIdx(p) * ENTCNT + PtIdx(p)] := 0;
        p, left := p + PAGE4K, left - 1;
      }
    }

    /** `mmu_kmap`: maps one page. */
    method Kmap(virt: nat, phys: nat, flags: nat, ghost q: nat)
      requires Valid() && virt == AddrOf(q) && q < PAGES && dir[q / ENTCNT] && flags < PAGE4K
      modifies pte
      ensures Valid() && pte[..] == old(pte[..])[q := phys / PAGE4K * PAGE4K + flags]
    {
      PageAtAddr(q);
      pte[PdIdx(virt) * ENTCNT + PtIdx(virt)] := phys / PAGE4K * PAGE4K + flags;
    }

    /** Any of the three calls is a step of a run; a refused allocation changes nothing. */
    method Perform(req: Request, live: seq<Run>) returns (addr: nat, ghost op: Op)
      requires Valid() && Kept(pte[..], live)
      requires match req
        case Pages(_) => true
        case GiveBack(i) => i < |live|
        case MapPage(q, _, flags) => q < PAGES && dir[q / ENTCNT] && flags < PAGE4K && flags % 2 == 1
      modifies dir, pte
      ensures Valid() && (addr == 0 && req.Pages? ==> pte[..] == old(pte[..]))
      ensures addr != 0 || !req.Pages? ==>
        Enabled(old(pte[..]), live, op) && pte[..] == Step(old(pte[..]), live, op).0
      ensures addr != 0 && req.Pages? ==> op.Alloc? && addr == AddrOf(op.r.at) && op.r.len >= req.n
      ensures req.GiveBack? ==> op == Op.Free(req.i)
      ensures req.MapPage? ==> op.Map? && op.q == req.q && op.entry == req.phys / PAGE4K * PAGE4K + req.flags
    {
      op := Op.Free(0);
      addr := 0;
      match req
      case Pages(n) =>
        ghost var q, len;
        addr, q, len := Kalloc(n);
        op := Op.Alloc(Run(q, len));
      case GiveBack(i) =>
        assert InUse(pte[..], live[i]);
        op := Op.Free(i);
        Kfree(AddrOf(live[i].at), live[i].len, live[i].at);
      case MapPage(q, phys, flags) =>
        PresentEntry(phys, flags);
        op := Op.Map(q, phys / PAGE4K * PAGE4K + flags);
        Kmap(AddrOf(q), phys, flags, q);
    }
  }

  lemma PresentEntry(phys: nat, flags: nat)
    requires flags % 2 == 1
    ensures Present(phys / PAGE4K * PAGE4K + flags)
  {
    var x := phys / PAGE4K * 2048;
    assert phys / PAGE4K * PAGE4K == 2 * x;
    assert (2 * x + flags) % 2 == flags % 2;
  }

  /** A call of one of the three. */
  datatype Request = Pages(n: nat) | GiveBack(i: nat) | MapPage(q: nat, phys: nat, flags: nat)

  // ---------------------------------------------------------------- runs of calls

  /** A run of pages handed out and not yet given back. */
  datatype Run = Run(at: nat, len: nat)

  datatype Op = Alloc(r: Run) | Free(i: nat) | Map(q: nat, entry: nat)

  /** What the calls need and promise: `Kalloc` finds free pages, `Kfree` gets a run back whole, and `Kmap` is called
      with the present flag. */
  ghost predicate Enabled(p: seq<nat>, live: seq<Run>, op: Op) {
    match op
    case Alloc(r) => r.at + r.len <= |p| && forall k :: r.at <= k < r.at + r.len ==> !Present(p[k])
    case Free(i) => i < |live| && live[i].at + live[i].len <= |p|
    case Map(q, entry) => q < |p| && Present(entry)
  }

  ghost function Step(p: seq<nat>, live: seq<Run>, op: Op): (seq<nat>, seq<Run>)
    requires Enabled(p, live, op)
  {
    match op
    case Alloc(r) => (Fill(p, r.at, r.len, 1), live + [r])
    case Free(i) => (Fill(p, live[i].at, live[i].len, 0), live[..i] + live[i + 1..])
    case Map(q, entry) => (p[q := entry], live)
  }

  ghost predicate InUse(p: seq<nat>, r: Run) {
    r.at + r.len <= |p| && forall k :: r.at <= k < r.at + r.len ==> Present(p[k])
  }

  predicate Disjoint(a: Run, b: Run) {
    a.at + a.len <= b.at || b.at + b.len <= a.at || a.len == 0 || b.len == 0
  }

  ghost predicate Kept(p: seq<nat>, live: seq<Run>) {
    && (forall i :: 0 <= i < |live| ==> InUse(p, live[i]))
    && (forall i, j :: 0 <= i < j < |live| ==> Disjoint(live[i], live[j]))
  }

  lemma FreeMeetsNone(p: seq<nat>, a: Run, b: Run)
    requires InUse(p, a) && b.at + b.len <= |p| && forall k :: b.at <= k < b.at + b.len ==> !Present(p[k])
    ensures Disjoint(a, b)
  {
    var k := if a.at <= b.at then b.at else a.at;
    var e := if k < |p| then p[k] else 0;
    assert Present(e) || !Present(e);
  }

  lemma StepKept(p: seq<nat>, live: seq<Run>, op: Op)
    requires Kept(p, live) && Enabled(p, live, op)
    ensures var (p', live') := Step(p, live, op); |p'| == |p| && Kept(p', live')
  {
    var (p', live') := Step(p, live, op);
    match op
    case Alloc(r) =>
      assert Present(1);
      forall i | 0 <= i < |live| ensures Disjoint(live[i], r) {
        FreeMeetsNone(p, live[i], r);
      }
    case Free(i) =>
      forall j | 0 <= j < |live'| ensures InUse(p', live'[j]) {
        assert live'[j] == live[if j < i then j else j + 1];
      }
    case Map(q, entry) =>
  }

  ghost predicate Legal(p: seq<nat>, live: seq<Run>, ops: seq<Op>)
    decreases |ops|
  {
    ops == [] || (Enabled(p, live, ops[0]) && Legal(Step(p, live, ops[0]).0, Step(p, live, ops[0]).1, ops[1..]))
  }

  ghost function RunAll(p: seq<nat>, live: seq<Run>, ops: seq<Op>): (seq<nat>, seq<Run>)
    requires Legal(p, live, ops)
    decreases |ops|
  {
    if ops == [] then (p, live) else RunAll(Step(p, live, ops[0]).0, Step(p, live, ops[0]).1, ops[1..])
  }

  /** Over every run of allocations, mappings and releases, the runs of pages in use stay in use and disjoint. */
  lemma {:induction false} LiveRunsDisjoint(p: seq<nat>, live: seq<Run>, ops: seq<Op>)
    requires Kept(p, live) && Legal(p, live, ops)
    ensures var (p', live') := RunAll(p, live, ops); Kept(p', live')
    decreases |ops|
  {
    if ops != [] {
      StepKept(p, live, ops[0]);
      LiveRunsDisjoint(Step(p, live, ops[0]).0, Step(p, live, ops[0]).1, ops[1..]);
    }
  }
}
