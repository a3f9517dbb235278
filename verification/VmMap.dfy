/** User address spaces: creating, mapping, translating, cloning and destroying them.
    The source goes on with frame or page 0 when it runs out of memory; here an operation
    that runs out stops and reports it. */
module VmMap {
  import opened Common
  import opened Paging
  import P = PhysMem
  import K = KernelPages
  import opened VmState

  /** The present kernel pages of a table of entries. */
  ghost function PresentPages(pte: seq<nat>): (m: map<nat, nat>)
    ensures forall q: nat :: q in m <==> q < |pte| && K.Present(pte[q])
    ensures forall q :: q in m ==> m[q] == pte[q]
  {
    map q: nat | q < |pte| && K.Present(pte[q]) :: pte[q]
  }

  /** No frame or no kernel page is left. */
  ghost predicate Exhausted(s: St) {
    (forall f: nat :: f < P.FRAMES ==> f in s.used) || (forall q: nat :: q < K.PAGES ==> q in s.pages)
  }

  /** The machine: frame bitmap, kernel page tables, and the contents of every frame. */
  class Mmu {
    const phys: P.PhysMem
    const kern: K.KernelPages
    var mem: seq<Page>

    constructor (mem: seq<Page>)
      requires |mem| == P.FRAMES
      ensures Valid() && this.mem == mem
    {
      phys := new P.PhysMem();
      kern := new K.KernelPages();
      this.mem := mem;
    }

    ghost predicate Valid()
      reads this, phys, kern, kern.dir, kern.pte
    {
      phys.Valid() && kern.Valid() && |mem| == P.FRAMES
    }

    ghost function State(): (s: St)
      requires Valid()
      reads this, phys, phys.bmp, kern, kern.dir, kern.pte
      ensures Wf(s)
    {
      St(phys.Used(), PresentPages(kern.pte[..]), mem)
    }

    /** `mmu_alloc_phys`, giving the frame number. */
    method AllocFrame() returns (ok: bool, f: nat)
      requires Valid()
      modifies phys.bmp
      ensures Valid()
      ensures !ok ==> State() == old(State()) && Exhausted(State())
      ensures ok ==> f < P.FRAMES && f !in old(State()).used
      ensures ok ==> State() == St(old(State()).used + {f}, old(State()).pages, old(State()).mem)
    {
      var addr;
      ok, addr := phys.AllocPhys();
      f := addr / PAGE4K;
    }

    /** `mmu_free_phys(f * PAGE4K, 1)` on a frame in use. */
    method FreeFrame(f: nat)
      requires Valid() && f in State().used
      modifies phys.bmp
      ensures Valid() && State() == St(old(State()).used - {f}, old(State()).pages, old(State()).mem)
    {
      assert P.Range(f, 1) == {f};
      phys.FreePhys(f * PAGE4K, 1);
    }

    /** `mmu_kalloc(1)`, giving the page number. */
    method AllocPage() returns (ok: bool, q: nat)
      requires Valid()
      modifies kern.dir, kern.pte
      ensures Valid()
      ensures !ok ==> State() == old(State()) && Exhausted(State())
      ensures ok ==> q < K.PAGES && q !in old(State()).pages
      ensures ok ==> State() == St(old(State()).used, old(State()).pages[q := 1], old(State()).mem)
    {
      var addr;
      ghost var q0, len;
      ghost var d0, p0 := kern.dir[..], kern.pte[..];
      addr, q0, len := kern.Kalloc(1);
      if addr == 0 {
        NoPageLeft(d0, p0);
        return false, 0;
      }
      K.PageAtAddr(q0);
      ok, q := true, K.PageAt(addr);
      assert PresentPages(kern.pte[..]) == PresentPages(p0)[q := 1];
    }

    lemma NoPageLeft(d: seq<bool>, p: seq<nat>)
      requires |d| == ENTCNT && |p| == K.PAGES && K.NoRun(d, p, 1, K.PAGES) && K.NoAbsentRun(d, K.Tables(1), ENTCNT)
      ensures forall q: nat :: q < K.PAGES ==> q in PresentPages(p)
    {
      forall q: nat | q < K.PAGES ensures q in PresentPages(p) {
        assert !K.FreeRun(d, p, q, 1);
        assert !K.AbsentRun(d, q / ENTCNT, 1);
      }
    }

    /** `mmu_kfree(q, 1)` on a present page. */
    method FreePage(q: nat)
      requires Valid() && q in State().pages
      modifies kern.pte
      ensures Valid() && State() == St(old(State()).used, old(State()).pages - {q}, old(State()).mem)
    {
      ghost var p0 := kern.pte[..];
      kern.Kfree(K.AddrOf(q), 1, q);
      assert PresentPages(kern.pte[..]) == PresentPages(p0) - {q};
    }

    lemma EntryOf(f: nat)
      ensures f * FLAGS / PAGE4K * PAGE4K + 3 == f * FLAGS + 3 && K.Present(f * FLAGS + 3)
    {
      Odd(f * 2048 + 1);
      Page(f);
    }

    lemma Odd(x: nat)
      ensures (2 * x + 1) % 2 == 1
    {}

    lemma Page(f: nat)
      ensures f * 4096 / 4096 == f
    {}

    /** `mmu_kmap(q, f, PAGE_PR | PAGE_RW)` on a page that was taken. */
    method MapPage(q: nat, f: nat)
      requires Valid() && q in State().pages
      modifies kern.pte
      ensures Valid() && State() == St(old(State()).used, old(State()).pages[q := f * FLAGS + 3], old(State()).mem)
    {
      ghost var p0: seq<nat>, e: nat := kern.pte[..], f * FLAGS + 3;
      EntryOf(f);
      kern.Kmap(K.AddrOf(q), f * FLAGS, 3, q);
      assert kern.pte[..] == p0[q := e];
      assert PresentPages(kern.pte[..]) == PresentPages(p0)[q := e];
    }

    /** A store through the kernel page `q`. */
    method SetWord(q: nat, k: nat, e: nat)
      requires Valid() && q in State().pages && State().pages[q] / FLAGS < P.FRAMES && k < ENTCNT
      modifies `mem
      ensures Valid()
      ensures State() == old(EntryState(State(), State().pages[q] / FLAGS, k, e))
    {
      var f := kern.pte[q] / FLAGS;
      mem := mem[f := mem[f][k := e]];
    }

    /** A load through the kernel page `q`. */
    method GetWord(q: nat, k: nat) returns (e: nat)
      requires Valid() && q in State().pages && State().pages[q] / FLAGS < P.FRAMES && k < ENTCNT
      ensures e == Word(State(), q, k)
    {
      e := mem[kern.pte[q] / FLAGS][k];
    }

    /** `memset(q, 0, PAGE4K)` */
    method ClearPage(q: nat)
      requires Valid() && q in State().pages && State().pages[q] / FLAGS < P.FRAMES
      modifies `mem
      ensures Valid()
      ensures State() == St(old(State()).used, old(State()).pages,
        old(State()).mem[old(State()).pages[q] / FLAGS := ZeroPage()])
    {
      mem := mem[kern.pte[q] / FLAGS := ZeroPage()];
    }

    /** A whole page is written through the kernel page `q`. */
    method FillPage(q: nat, p: Page)
      requires Valid() && q in State().pages && State().pages[q] / FLAGS < P.FRAMES
      modifies `mem
      ensures Valid()
      ensures State() == St(old(State()).used, old(State()).pages, old(State()).mem[old(State()).pages[q] / FLAGS := p])
    {
      mem := mem[kern.pte[q] / FLAGS := p];
    }

    /** `memcpy(q2, q1, PAGE4K)` */
    method CopyPage(q2: nat, q1: nat)
      requires Valid() && q1 in State().pages && q2 in State().pages
      requires State().pages[q1] / FLAGS < P.FRAMES && State().pages[q2] / FLAGS < P.FRAMES
      modifies `mem
      ensures Valid()
      ensures State() == St(old(State()).used, old(State()).pages,
                            old(State()).mem[old(State()).pages[q2] / FLAGS :=
                              old(State()).mem[old(State()).pages[q1] / FLAGS]])
    {
      mem := mem[kern.pte[q2] / FLAGS := mem[kern.pte[q1] / FLAGS]];
    }
  }

  /** `struct vm_map`, its tables only. */
  class VmMap {
    var pml4: nat
    var pml4Phys: nat
    var pdpt: nat
    var pdptPhys: nat
    var pds: seq<nat>
    var physPds: seq<nat>
    var pts: seq<Option<nat>>

    constructor (v: Vm)
      ensures View() == v
    {
      pml4, pml4Phys, pdpt, pdptPhys := v.pml4, v.pml4Phys, v.pdpt, v.pdptPhys;
      pds, physPds, pts := v.pds, v.physPds, v.pts;
    }

    ghost function View(): Vm
      reads this
    {
      Vm(pml4, pml4Phys, pdpt, pdptPhys, pds, physPds, pts)
    }
  }

  // ---------------------------------------------------------------- tables and entries

  /** A kernel page mapped to a zeroed frame, both just taken. */
  method TakeZeroed(m: Mmu) returns (ok: bool, q: nat, f: nat)
    requires m.Valid()
    modifies m`mem, m.phys.bmp, m.kern.dir, m.kern.pte
    ensures m.Valid() && (!ok ==> Exhausted(m.State()))
    ensures ok ==> q !in old(m.State()).pages && q < K.PAGES && f !in old(m.State()).used && f < P.FRAMES
    ensures ok ==> m.State() == Zeroed(old(m.State()), q, f)
  {
    ghost var s0 := m.State();
    f := 0;
    ok, q := m.AllocPage();
    if !ok { return; }
    ok, f := m.AllocFrame();
    if !ok { return; }
    m.MapPage(q, f);
    m.ClearPage(q);
    assert s0.pages[q := 1][q := f * FLAGS + 3] == s0.pages[q := f * FLAGS + 3];
  }

  function Zeroed(s: St, q: nat, f: nat): St
    requires f < |s.mem|
  {
    St(s.used + {f}, s.pages[q := f * FLAGS + 3], s.mem[f := ZeroPage()])
  }

  /** `mktable`: gives table `t` a zeroed frame, entered in its directory. */
  method MkTable(m: Mmu, vm: VmMap, t: nat) returns (ok: bool, ghost q: nat, ghost f: nat)
    requires m.Valid() && VmOk(m.State(), vm.View()) && t < |vm.pts| && vm.pts[t] == None
    modifies m`mem, m.phys.bmp, m.kern.dir, m.kern.pte, vm`pts
    ensures m.Valid() && (!ok ==> Exhausted(m.State()))
    ensures ok ==> q !in old(m.State()).pages && q < K.PAGES && f !in old(m.State()).used && f < P.FRAMES
    ensures ok ==> vm.physPds[t / ENTCNT] < P.FRAMES
    ensures ok ==> m.State() == TableState(old(m.State()), old(vm.View()), t, q, f)
    ensures ok ==> vm.View() == WithTable(old(vm.View()), t, q)
  {
    DirectoryPage(m.State(), vm.View(), t / ENTCNT);
    var table, frame;
    ok, table, frame := TakeZeroed(m);
    q, f := table, frame;
    if !ok { return; }
    m.SetWord(vm.pds[t / ENTCNT], t % ENTCNT, frame * FLAGS + 7);
    vm.pts := vm.pts[t := Some(table)];
  }

  lemma DirectoryPage(s: St, v: Vm, i: nat)
    requires VmOk(s, v) && i < |v.pds|
    ensures v.pds[i] in s.pages && s.pages[v.pds[i]] / FLAGS == v.physPds[i] < P.FRAMES
  {
    assert MappedOk(s, v, Pd(i)) && FrameOf(s, v, Pd(i)) == Some(v.physPds[i]);
  }

  /** Number of the page of `virt`, of which only the lower part counts; its table and its slot there. */
  function PageNo(virt: nat): nat { virt % LOWER / PAGE4K }

  function TableOf(virt: nat): (t: nat)
    ensures t < ENTCNT * ENTCNT
  {
    PageNo(virt) / ENTCNT
  }

  function SlotOf(virt: nat): (k: nat)
    ensures k < ENTCNT
  {
    PageNo(virt) % ENTCNT
  }

  /** The index macros find table and slot. */
  lemma MacrosFind(virt: nat)
    ensures PdptIdx(virt) * ENTCNT + PdIdx(virt) == TableOf(virt) && PtIdx(virt) == SlotOf(virt)
  {
    var q, y := virt / LOWER, virt % LOWER;
    LowerPdpt(q, y);
    LowerPd(q, y);
    LowerPt(q, y);
    LowerMacros(y);
  }

  lemma LowerMacros(y: nat)
    requires y < LOWER
    ensures PdptIdx(y) * ENTCNT + PdIdx(y) == y / PAGE4K / ENTCNT && PtIdx(y) == y / PAGE4K % ENTCNT
  {
    assert y / PAGE2M == y / PAGE4K / ENTCNT;
    assert y / PAGE1G == y / PAGE2M / ENTCNT;
  }

  lemma LowerPdpt(q: nat, y: nat)
    ensures PdptIdx(q * LOWER + y) == PdptIdx(y)
  {
    assert (q * LOWER + y) / PAGE1G == q * 0x200 + y / PAGE1G;
    Cycle(q, y / PAGE1G);
  }

  lemma LowerPd(q: nat, y: nat)
    ensures PdIdx(q * LOWER + y) == PdIdx(y)
  {
    assert (q * LOWER + y) / PAGE2M == q * 0x4_0000 + y / PAGE2M;
    Cycle(q * 0x200, y / PAGE2M);
  }

  lemma LowerPt(q: nat, y: nat)
    ensures PtIdx(q * LOWER + y) == PtIdx(y)
  {
    assert (q * LOWER + y) / PAGE4K == q * 0x800_0000 + y / PAGE4K;
    Cycle(q * 0x4_0000, y / PAGE4K);
  }

  lemma Cycle(n: nat, x: nat)
    ensures (n * ENTCNT + x) % ENTCNT == x % ENTCNT
  {}

  method Indices(virt: nat) returns (i: nat, j: nat, k: nat)
    ensures i < ENTCNT && j < ENTCNT && i * ENTCNT + j == TableOf(virt) && k == SlotOf(virt)
  {
    MacrosFind(virt);
    i, j, k := PdptIdx(virt), PdIdx(virt), PtIdx(virt);
  }

  /** The processor finds at a lower address the entry in its table and slot. */
  lemma WalkFinds(s: St, v: Vm, virt: nat)
    requires TablesOk(s, v) && |v.pds| == ENTCNT && virt < LOWER
    ensures Translated(s.mem, v.pml4Phys, virt) == Pte(s, v, TableOf(virt), SlotOf(virt))
  {
    MacrosFind(virt);
    WalkAgrees(s, v, virt);
  }

  /** `flags | PAGE_USR` */
  function OrUsr(flags: nat): (r: nat)
    ensures r / 4 % 2 == 1 && r % 2 == flags % 2 && (flags < FLAGS ==> r < FLAGS)
  {
    assert flags / 4 % 2 == 0 ==> (flags + 4) / 4 == flags / 4 + 1;
    if flags / 4 % 2 == 1 then flags else flags + 4
  }

  /** The other bits are those of `flags`. */
  lemma OrUsrOthers(flags: nat)
    ensures OrUsr(flags) % 4 == flags % 4 && OrUsr(flags) / 8 == flags / 8
  {
    var a, b, c := flags / 8, flags / 4 % 2, flags % 4;
    assert flags == 8 * a + 4 * b + c;
    Bits(a, 1, c);
  }

  lemma Bits(a: nat, b: nat, c: nat)
    requires b < 2 && c < 4
    ensures (8 * a + 4 * b + c) % 4 == c && (8 * a + 4 * b + c) / 8 == a && (8 * a + 4 * b + c) / 4 % 2 == b
  {
    assert 8 * a + 4 * b + c == 4 * (2 * a + b) + c;
    assert (8 * a + 4 * b + c) / 4 == 2 * a + b;
  }

  /** Frame `f` is one of the address space's own page tables. */
  ghost predicate IsTable(s: St, v: Vm, f: nat) { exists o :: PageOf(v, o).Some? && FrameOf(s, v, o) == Some(f) }

  /** Nothing is given back, kernel pages keep their mapping, and every frame in use keeps its contents
      unless it is one of `v`'s own page tables. */
  ghost predicate DataKept(s: St, v: Vm, s': St) {
    && s.used <= s'.used && |s'.mem| == |s.mem|
    && (forall q :: q in s.pages ==> q in s'.pages && s'.pages[q] == s.pages[q])
    && (forall f :: f in s.used && f < |s.mem| && !IsTable(s, v, f) ==> s'.mem[f] == s.mem[f])
    && RootKept(s, v, s')
  }

  /** Table `t` exists now, as it did or freshly made; nothing else about the address space has changed. */
  ghost predicate TableMade(s: St, v: Vm, s': St, v': Vm, t: nat) {
    && v'.pds == v.pds && |v'.pts| == |v.pts| && t < |v.pts| && v'.pts[t].Some?
    && (forall t': nat, k: nat :: Pte(s', v', t', k) == Pte(s, v, t', k))
    && (forall o :: o != Pt(t) ==> FrameOf(s', v', o) == FrameOf(s, v, o))
    && (forall o :: o != Pt(t) ==> PageOf(v', o) == PageOf(v, o))
    && (v.pts[t].Some? ==> s' == s && v' == v)
    && (v.pts[t].None? ==> TableNew(s, v, s', v', t))
    && DataKept(s, v, s')
  }

  ghost predicate TableNew(s: St, v: Vm, s': St, v': Vm, t: nat)
    requires t < |v'.pts| && v'.pts[t].Some?
  {
    && v'.pts[t].value !in s.pages && s'.pages.Keys == s.pages.Keys + {v'.pts[t].value}
    && FrameOf(s', v', Pt(t)).Some? && FrameOf(s', v', Pt(t)).value !in s.used
    && s'.used == s.used + {FrameOf(s', v', Pt(t)).value}
  }

  lemma NewTableMade(s: St, v: Vm, t: nat, q: nat, f: nat)
    requires VmOk(s, v) && t < |v.pts| && v.pts[t] == None && v.physPds[t / ENTCNT] < P.FRAMES
    requires q !in s.pages && q < K.PAGES && f !in s.used && f < P.FRAMES
    ensures var s', v' := TableState(s, v, t, q, f), WithTable(v, t, q);
      VmOk(s', v') && TableMade(s, v, s', v', t)
  {
    AddTable(s, v, t, q, f);
    assert PageOf(v, Pd(t / ENTCNT)).Some? && FrameOf(s, v, Pd(t / ENTCNT)) == Some(v.physPds[t / ENTCNT]);
    assert IsTable(s, v, v.physPds[t / ENTCNT]);
    assert FrameOf(s, v, Pml4) == Some(v.pml4Phys) != FrameOf(s, v, Pd(t / ENTCNT));
  }

  /** The first half of `mmu_map`. */
  method EnsureTable(m: Mmu, vm: VmMap, t: nat) returns (ok: bool)
    requires m.Valid() && VmOk(m.State(), vm.View()) && t < |vm.pts|
    modifies m`mem, m.phys.bmp, m.kern.dir, m.kern.pte, vm`pts
    ensures m.Valid() && (!ok ==> Exhausted(m.State()))
    ensures ok ==> VmOk(m.State(), vm.View()) && TableMade(old(m.State()), old(vm.View()), m.State(), vm.View(), t)
  {
    ghost var s0, v0 := m.State(), vm.View();
    DirectoryPage(s0, v0, t / ENTCNT);
    assert DirectoryOk(s0, v0, t) && MappedOk(s0, v0, Pt(t)) && PageOf(v0, Pt(t)) == v0.pts[t];
    ok := true;
    var pd := m.GetWord(vm.pds[t / ENTCNT], t % ENTCNT);
    if pd % 2 == 0 {
      ghost var q, g;
      ok, q, g := MkTable(m, vm, t);
      if ok {
        NewTableMade(s0, v0, t, q, g);
      }
    }
  }

  /** The second half: the entry is stored in the table. */
  method StoreEntry(m: Mmu, vm: VmMap, t: nat, k: nat, e: nat)
    requires m.Valid() && VmOk(m.State(), vm.View()) && t < |vm.pts| && vm.pts[t].Some? && k < ENTCNT
    modifies m`mem
    ensures m.Valid() && (VmOk(m.State(), vm.View()) <==> OwnFrame(old(m.State()), vm.View(), t, k, e))
    ensures TablesOk(m.State(), vm.View())
    ensures EntrySet(old(m.State()), m.State(), vm.View(), t, k, e)
  {
    assert MappedOk(m.State(), vm.View(), Pt(t)) && PageOf(vm.View(), Pt(t)) == vm.pts[t];
    SetEntry(m.State(), vm.View(), t, k, e);
    assert IsTable(m.State(), vm.View(), FrameOf(m.State(), vm.View(), Pt(t)).value);
    m.SetWord(vm.pts[t].value, k, e);
  }

  /** Slot `k` of table `t` holds `e`; no other entry, frame or page has changed. */
  ghost predicate EntrySet(s: St, s': St, v: Vm, t: nat, k: nat, e: nat) {
    && s'.used == s.used && s'.pages == s.pages
    && (forall t': nat, k': nat :: Pte(s', v, t', k') == if t' == t && k' == k then e else Pte(s, v, t', k'))
    && (forall o :: FrameOf(s', v, o) ==
          if o == User(t, k) then (if UserPte(e) then Some(e / FLAGS) else None) else FrameOf(s, v, o))
    && DataKept(s, v, s')
  }

  /** The processor now finds at `virt` frame `f` with the flags given and the user flag; at every other page it finds
      what it found.  Of an address above the lower ones only the lower part counts. */
  ghost predicate MapsTo(mem: seq<Page>, pml4: nat, mem': seq<Page>, virt: nat, f: nat, flags: nat) {
    && EntryFor(Translated(mem', pml4, virt % LOWER), f, flags)
    && forall x: nat :: x < LOWER && PageNo(x) != PageNo(virt) ==> Translated(mem', pml4, x) == Translated(mem, pml4, x)
  }

  /** A page table entry with frame `f`, the flags given and the user flag, which is bit 2. */
  predicate EntryFor(e: nat, f: nat, flags: nat) {
    e / FLAGS == f && e / 4 % 2 == 1 && e % 4 == flags % 4 && e % FLAGS / 8 == flags / 8
  }

  /** `mmu_map`: enters any frame at `virt`, making the table if there is none.  The address space stays in order
      exactly when the frame is in use and no other part of the address space has it. */
  method Map(m: Mmu, vm: VmMap, virt: nat, f: nat, flags: nat) returns (ok: bool, ghost s1: St, ghost e: nat)
    requires m.Valid() && VmOk(m.State(), vm.View()) && |vm.pds| == ENTCNT && flags < FLAGS
    modifies m`mem, m.phys.bmp, m.kern.dir, m.kern.pte, vm`pts
    ensures m.Valid() && (!ok ==> Exhausted(m.State())) && EntryFor(e, f, flags)
    ensures ok ==> (VmOk(m.State(), vm.View())
      <==> OwnFrame(old(m.State()), old(vm.View()), TableOf(virt), SlotOf(virt), e))
    ensures ok ==> TableMade(old(m.State()), old(vm.View()), s1, vm.View(), TableOf(virt))
    ensures ok ==> EntrySet(s1, m.State(), vm.View(), TableOf(virt), SlotOf(virt), e)
    ensures ok ==> MapsTo(old(m.State()).mem, vm.pml4Phys, m.State().mem, virt, f, flags)
    ensures ok ==> RootKept(old(m.State()), vm.View(), m.State())
  {
    ghost var s0, v0 := m.State(), vm.View();
    var i, j, k := Indices(virt);
    var entry := EntryValue(f, flags);
    e := entry;
    ok, s1 := MapSlot(m, vm, i * ENTCNT + j, k, entry);
    if ok {
      EntryWalked(s0, v0, s1, m.State(), vm.View(), virt, f, flags, i * ENTCNT + j, k, e);
    }
  }

  /** `phys | flags | PAGE_USR` */
  method EntryValue(f: nat, flags: nat) returns (e: nat)
    requires flags < FLAGS
    ensures EntryFor(e, f, flags)
  {
    EntryFlags(f, flags);
    e := f * FLAGS + OrUsr(flags);
  }

  /** `mmu_map` for a slot and an entry. */
  method MapSlot(m: Mmu, vm: VmMap, t: nat, k: nat, e: nat) returns (ok: bool, ghost s1: St)
    requires m.Valid() && VmOk(m.State(), vm.View()) && t < |vm.pts| && k < ENTCNT
    modifies m`mem, m.phys.bmp, m.kern.dir, m.kern.pte, vm`pts
    ensures m.Valid() && (!ok ==> Exhausted(m.State()))
    ensures ok ==> (VmOk(m.State(), vm.View()) <==> OwnFrame(old(m.State()), old(vm.View()), t, k, e))
    ensures ok ==> TableMade(old(m.State()), old(vm.View()), s1, vm.View(), t)
    ensures ok ==> EntrySet(s1, m.State(), vm.View(), t, k, e) && TablesOk(m.State(), vm.View())
  {
    ghost var s0, v0 := m.State(), vm.View();
    ok := EnsureTable(m, vm, t);
    s1 := m.State();
    if !ok { return; }
    StillOwn(s0, v0, s1, vm.View(), t, k, e);
    StoreEntry(m, vm, t, k, e);
  }

  /** What the processor makes of the two halves. */
  lemma EntryWalked(s: St, v: Vm, s1: St, s2: St, v': Vm, virt: nat, f: nat, flags: nat, t: nat, k: nat, e: nat)
    requires TablesOk(s, v) && TablesOk(s2, v') && |v.pds| == |v'.pds| == ENTCNT && EntryFor(e, f, flags)
    requires t == TableOf(virt) && k == SlotOf(virt) && v'.pml4Phys == v.pml4Phys
    requires TableMade(s, v, s1, v', t) && EntrySet(s1, s2, v', t, k, e)
    ensures MapsTo(s.mem, v'.pml4Phys, s2.mem, virt, f, flags)
  {
    var pml4 := v'.pml4Phys;
    assert PageNo(virt % LOWER) == PageNo(virt);
    WalkFinds(s2, v', virt % LOWER);
    forall x: nat | x < LOWER && PageNo(x) != PageNo(virt)
      ensures Translated(s2.mem, pml4, x) == Translated(s.mem, pml4, x)
    {
      WalkFinds(s, v, x);
      WalkFinds(s2, v', x);
    }
  }

  lemma EntryFlags(f: nat, flags: nat)
    requires flags < FLAGS
    ensures EntryFor(f * FLAGS + OrUsr(flags), f, flags)
  {
    var r := OrUsr(flags);
    OrUsrOthers(flags);
    var a, c := r / 8, r % 4;
    assert r == 8 * a + 4 + c;
    EntryFrame(f, flags);
    assert (f * FLAGS + r) % FLAGS == r;
    Bits(512 * f + a, 1, c);
  }

  /** Making the table does not change whose frame it is. */
  lemma StillOwn(s: St, v: Vm, s': St, v': Vm, t: nat, k: nat, e: nat)
    requires TableMade(s, v, s', v', t)
    ensures OwnFrame(s', v', t, k, e) <==> OwnFrame(s, v, t, k, e)
  {
    if v.pts[t].None? {
      assert FrameOf(s, v, Pt(t)) == None;
      forall o | o != User(t, k) && o != Pt(t) ensures FrameOf(s', v', o) == FrameOf(s, v, o) {}
    }
  }

  lemma EntryFrame(f: nat, flags: nat)
    requires flags < FLAGS
    ensures (f * FLAGS + OrUsr(flags)) / FLAGS == f
  {}

  /** `mmu_virt2phys`: the frame address in the entry for `virt`, 0 where there is no table or the
      address is not in the lower half. */
  method Virt2Phys(m: Mmu, vm: VmMap, virt: nat) returns (r: nat)
    requires m.Valid() && VmOk(m.State(), vm.View()) && |vm.pds| == ENTCNT
    ensures r == if virt / LOWER % ENTCNT != 0 then 0
                 else Translated(m.State().mem, vm.pml4Phys, virt % LOWER) / FLAGS * FLAGS
  {
    if virt / LOWER % ENTCNT != 0 { return 0; }
    var i, j, k := Indices(virt);
    assert PageNo(virt % LOWER) == PageNo(virt);
    WalkFinds(m.State(), vm.View(), virt % LOWER);
    var e := EntryAt(m, vm, i * ENTCNT + j, k);
    r := e / FLAGS * FLAGS;
  }

  /** The entry in a slot, 0 where there is no table. */
  method EntryAt(m: Mmu, vm: VmMap, t: nat, k: nat) returns (e: nat)
    requires m.Valid() && VmOk(m.State(), vm.View()) && t < |vm.pts| && k < ENTCNT
    ensures e == Pte(m.State(), vm.View(), t, k)
  {
    ghost var s, v := m.State(), vm.View();
    DirectoryPage(s, v, t / ENTCNT);
    assert DirectoryOk(s, v, t) && MappedOk(s, v, Pt(t)) && PageOf(v, Pt(t)) == v.pts[t];
    var pd := m.GetWord(vm.pds[t / ENTCNT], t % ENTCNT);
    if pd % 2 == 0 || vm.pts[t].None? { return 0; }
    e := m.GetWord(vm.pts[t].value, k);
  }

  // ---------------------------------------------------------------- creation

  /** Since `s0`, exactly the frames and kernel pages of `v` have been taken, and whatever was in
      use at `s0` is untouched. */
  ghost predicate Grew(s0: St, s: St, v: Vm) {
    && |s.mem| == |s0.mem| && s0.used <= s.used
    && (forall f :: f in s.used && f !in s0.used ==> Holds(s, v, f))
    && (forall o :: FrameOf(s, v, o).Some? ==> FrameOf(s, v, o).value !in s0.used)
    && (forall q :: q in s.pages && q !in s0.pages ==> HoldsPage(v, q))
    && (forall o :: PageOf(v, o).Some? ==> PageOf(v, o).value !in s0.pages)
    && (forall q :: q in s0.pages ==> q in s.pages && s.pages[q] == s0.pages[q])
    && (forall f :: f in s0.used && f < |s0.mem| ==> s.mem[f] == s0.mem[f])
  }

  function RootVm(q1: nat, f1: nat, q2: nat, f2: nat): Vm { Vm(q1, f1, q2, f2, [], [], []) }

  /** Except for the first, the root has the entries of the kernel's. */
  ghost predicate KernelHalf(s: St, v: Vm, kpml4: Page) {
    v.pml4Phys < |s.mem| && forall i :: 1 <= i < ENTCNT ==> s.mem[v.pml4Phys][i] == kpml4[i]
  }

  /** The state after the two upper tables got their pages and frames. */
  function RootState(s: St, q1: nat, f1: nat, q2: nat, f2: nat, kpml4: Page): St
    requires f1 < |s.mem| && f2 < |s.mem|
  {
    St(s.used + {f1} + {f2}, s.pages[q1 := f1 * FLAGS + 3][q2 := f2 * FLAGS + 3],
       SetWordIn(s.mem[f1 := kpml4][f2 := ZeroPage()], f1, 0, f2 * FLAGS + 7))
  }

  lemma RootOkAfter(s: St, q1: nat, f1: nat, q2: nat, f2: nat, kpml4: Page)
    requires Wf(s) && f1 !in s.used && f2 !in s.used && f1 != f2 && f1 < P.FRAMES && f2 < P.FRAMES
    requires q1 !in s.pages && q2 !in s.pages && q1 != q2 && q1 < K.PAGES && q2 < K.PAGES
    ensures var s', v := RootState(s, q1, f1, q2, f2, kpml4), RootVm(q1, f1, q2, f2);
      VmOk(s', v) && Grew(s, s', v) && KernelHalf(s', v, kpml4)
  {
    var s', v := RootState(s, q1, f1, q2, f2, kpml4), RootVm(q1, f1, q2, f2);
    forall t: nat, k: nat ensures Pte(s', v, t, k) == 0 {}
    forall o ensures FrameOf(s', v, o).Some? ==> o == Pml4 || o == Pdpt {}
    forall o ensures MappedOk(s', v, o) {}
    assert FrameOf(s', v, Pml4) == Some(f1) && FrameOf(s', v, Pdpt) == Some(f2);
    assert PageOf(v, Pml4) == Some(q1) && PageOf(v, Pdpt) == Some(q2);
  }

  lemma PagesTwice(pages: map<nat, nat>, q1: nat, q2: nat, e1: nat, e2: nat)
    requires q1 != q2
    ensures pages[q1 := 1][q2 := 1][q1 := e1][q2 := e2] == pages[q1 := e1][q2 := e2]
  {}

  /** The first half of `mmu_create_vmmap`: the root, a copy of the kernel's, and the second level. */
  method CreateRoot(m: Mmu, kpml4: Page) returns (ok: bool, v: Vm)
    requires m.Valid()
    modifies m`mem, m.phys.bmp, m.kern.dir, m.kern.pte
    ensures m.Valid() && (!ok ==> Exhausted(m.State()))
    ensures ok ==> VmOk(m.State(), v) && |v.pds| == 0 && Grew(old(m.State()), m.State(), v)
    ensures ok ==> KernelHalf(m.State(), v, kpml4)
  {
    ghost var s0 := m.State();
    var q1, q2, f1, f2;
    ok, q1, q2, f1, f2 := MakeRoot(m, kpml4);
    v := RootVm(q1, f1, q2, f2);
    if !ok { return; }
    RootOkAfter(s0, q1, f1, q2, f2, kpml4);
  }

  method MakeRoot(m: Mmu, kpml4: Page) returns (ok: bool, q1: nat, q2: nat, f1: nat, f2: nat)
    requires m.Valid()
    modifies m`mem, m.phys.bmp, m.kern.dir, m.kern.pte
    ensures m.Valid() && (!ok ==> Exhausted(m.State()))
    ensures ok ==>
      f1 !in old(m.State()).used && f2 !in old(m.State()).used && f1 != f2 && f1 < P.FRAMES && f2 < P.FRAMES
    ensures ok ==>
      q1 !in old(m.State()).pages && q2 !in old(m.State()).pages && q1 != q2 && q1 < K.PAGES && q2 < K.PAGES
    ensures ok ==> Wf(old(m.State())) && m.State() == RootState(old(m.State()), q1, f1, q2, f2, kpml4)
  {
    ghost var s0 := m.State();
    ok, q1, q2, f1, f2 := TakeRoot(m);
    if !ok { return; }
    FillRoot(m, q1, q2, f1, f2, kpml4);
    PagesTwice(s0.pages, q1, q2, f1 * FLAGS + 3, f2 * FLAGS + 3);
    assert s0.used + {f1} + {f2} == s0.used + {f1, f2};
  }

  method TakeRoot(m: Mmu) returns (ok: bool, q1: nat, q2: nat, f1: nat, f2: nat)
    requires m.Valid()
    modifies m.phys.bmp, m.kern.dir, m.kern.pte
    ensures m.Valid() && (!ok ==> Exhausted(m.State()))
    ensures ok ==>
      q1 !in old(m.State()).pages && q2 !in old(m.State()).pages && q1 != q2 && q1 < K.PAGES && q2 < K.PAGES
    ensures ok ==>
      f1 !in old(m.State()).used && f2 !in old(m.State()).used && f1 != f2 && f1 < P.FRAMES && f2 < P.FRAMES
    ensures ok ==>
      m.State() == St(old(m.State()).used + {f1} + {f2}, old(m.State()).pages[q1 := 1][q2 := 1], old(m.State()).mem)
  {
    q1, q2, f1, f2 := 0, 0, 0, 0;
    ok, q1 := m.AllocPage();
    if !ok { return; }
    ok, q2 := m.AllocPage();
    if !ok { return; }
    ok, f1 := m.AllocFrame();
    if !ok { return; }
    ok, f2 := m.AllocFrame();
  }

  method FillRoot(m: Mmu, q1: nat, q2: nat, f1: nat, f2: nat, kpml4: Page)
    requires m.Valid() && q1 in m.State().pages && q2 in m.State().pages && q1 != q2 && f1 < P.FRAMES && f2 < P.FRAMES
    modifies m`mem, m.kern.pte
    ensures m.Valid()
    ensures m.State() == St(old(m.State()).used, old(m.State()).pages[q1 := f1 * FLAGS + 3][q2 := f2 * FLAGS + 3],
                            SetWordIn(old(m.State()).mem[f1 := kpml4][f2 := ZeroPage()], f1, 0, f2 * FLAGS + 7))
  {
    m.MapPage(q1, f1);
    m.MapPage(q2, f2);
    m.FillPage(q1, kpml4);
    m.ClearPage(q2);
    m.SetWord(q1, 0, f2 * FLAGS + 7);
  }

  /** The address space `v` has become `v'`, all of whose new frames and pages have just been taken. */
  ghost predicate Extends(s: St, v: Vm, s': St, v': Vm) {
    && DataKept(s, v, s')
    && (forall o :: FrameOf(s, v, o).Some? ==> FrameOf(s', v', o) == FrameOf(s, v, o))
    && (forall o :: PageOf(v, o).Some? ==> PageOf(v', o) == PageOf(v, o))
    && (forall o :: FrameOf(s, v, o).None? && FrameOf(s', v', o).Some? ==> FrameOf(s', v', o).value !in s.used)
    && (forall o :: PageOf(v, o).None? && PageOf(v', o).Some? ==> PageOf(v', o).value !in s.pages)
    && (forall f :: f in s'.used && f !in s.used ==> Holds(s', v', f))
    && (forall q :: q in s'.pages && q !in s.pages ==> HoldsPage(v', q))
  }

  lemma GrewMore(s0: St, s: St, v: Vm, s': St, v': Vm)
    requires Wf(s0) && VmOk(s, v) && Grew(s0, s, v) && Extends(s, v, s', v')
    ensures Grew(s0, s', v')
  {
    forall f | f in s'.used && f !in s0.used ensures Holds(s', v', f) {
      if f in s.used {
        var o :| FrameOf(s, v, o) == Some(f);
        assert FrameOf(s', v', o) == Some(f);
      }
    }
    forall q | q in s'.pages && q !in s0.pages ensures HoldsPage(v', q) {
      if q in s.pages {
        var o :| PageOf(v, o) == Some(q);
        assert PageOf(v', o) == Some(q);
      }
    }
    forall f | f in s0.used && f < |s0.mem| ensures s'.mem[f] == s0.mem[f] {
      assert !IsTable(s, v, f);
    }
    forall o | FrameOf(s', v', o).Some? ensures FrameOf(s', v', o).value !in s0.used {
      assert FrameOf(s, v, o).Some? ==> FrameOf(s', v', o) == FrameOf(s, v, o);
    }
    forall o | PageOf(v', o).Some? ensures PageOf(v', o).value !in s0.pages {
      assert PageOf(v, o).Some? ==> PageOf(v', o) == PageOf(v, o);
    }
  }

  lemma DirectoryExtends(s: St, v: Vm, q: nat, f: nat)
    requires VmOk(s, v) && |v.pds| < ENTCNT
    requires q !in s.pages && q < K.PAGES && f !in s.used && f < P.FRAMES
    ensures v.pdptPhys < P.FRAMES
    ensures var s', v' := DirectoryState(s, v, q, f), WithDirectory(v, q, f); VmOk(s', v') && Extends(s, v, s', v')
  {
    AddDirectory(s, v, q, f);
    var s', v', o := DirectoryState(s, v, q, f), WithDirectory(v, q, f), Pd(|v.pds|);
    assert PageOf(v, Pdpt).Some? && FrameOf(s, v, Pdpt) == Some(v.pdptPhys) && IsTable(s, v, v.pdptPhys);
    assert FrameOf(s', v', o) == Some(f) && PageOf(v', o) == Some(q);
    assert FrameOf(s, v, Pml4) == Some(v.pml4Phys) != FrameOf(s, v, Pdpt);
  }

  /** `mmu_create_vmmap`: an address space with every directory and no table. */
  method Create(m: Mmu, kpml4: Page) returns (ok: bool, vm: VmMap)
    requires m.Valid()
    modifies m`mem, m.phys.bmp, m.kern.dir, m.kern.pte
    ensures m.Valid() && fresh(vm) && (!ok ==> Exhausted(m.State()))
    ensures ok ==> VmOk(m.State(), vm.View()) && |vm.pds| == ENTCNT && Grew(old(m.State()), m.State(), vm.View())
    ensures ok ==> forall t :: 0 <= t < |vm.pts| ==> vm.pts[t] == None
    ensures ok ==> KernelHalf(m.State(), vm.View(), kpml4)
  {
    ghost var s0 := m.State();
    var v;
    ok, v := CreateRoot(m, kpml4);
    vm := new VmMap(v);
    if !ok { return; }
    var i := 0;
    while i < ENTCNT
      invariant m.Valid() && VmOk(m.State(), v) && |v.pds| == i <= ENTCNT && Grew(s0, m.State(), v)
      invariant (forall t :: 0 <= t < |v.pts| ==> v.pts[t] == None) && KernelHalf(m.State(), v, kpml4)
    {
      ok, v := CreateDirectory(m, v, s0);
      if !ok { return; }
      i := i + 1;
    }
    vm := new VmMap(v);
  }

  /** One round of the loop of `mmu_create_vmmap`. */
  method CreateDirectory(m: Mmu, v: Vm, ghost s0: St) returns (ok: bool, v': Vm)
    requires m.Valid() && VmOk(m.State(), v) && |v.pds| < ENTCNT && Wf(s0) && Grew(s0, m.State(), v)
    modifies m`mem, m.phys.bmp, m.kern.dir, m.kern.pte
    ensures m.Valid() && (!ok ==> Exhausted(m.State()))
    ensures ok ==>
      VmOk(m.State(), v') && |v'.pds| == |v.pds| + 1 && v'.pts == v.pts + NoTables() && Grew(s0, m.State(), v')
    ensures ok ==> v'.pml4Phys == v.pml4Phys && RootKept(old(m.State()), v, m.State())
  {
    ghost var s := m.State();
    var q, f;
    ok, q, f := TakeDirectory(m, v);
    v' := WithDirectory(v, q, f);
    if ok {
      DirectoryExtends(s, v, q, f);
      GrewMore(s0, s, v, m.State(), v');
    }
  }

  /** A zeroed directory, entered behind those there are. */
  method TakeDirectory(m: Mmu, v: Vm) returns (ok: bool, q: nat, f: nat)
    requires m.Valid() && VmOk(m.State(), v) && |v.pds| < ENTCNT
    modifies m`mem, m.phys.bmp, m.kern.dir, m.kern.pte
    ensures m.Valid() && (!ok ==> Exhausted(m.State()))
    ensures ok ==> q !in old(m.State()).pages && q < K.PAGES && f !in old(m.State()).used && f < P.FRAMES
    ensures ok ==> Wf(old(m.State())) && v.pdptPhys < P.FRAMES && m.State() == DirectoryState(old(m.State()), v, q, f)
  {
    ghost var s := m.State();
    assert MappedOk(s, v, Pdpt) && FrameOf(s, v, Pdpt) == Some(v.pdptPhys);
    ok, q, f := TakeZeroed(m);
    if ok {
      m.SetWord(v.pdpt, |v.pds|, f * FLAGS + 7);
    }
  }

  // ---------------------------------------------------------------- cloning

  /** The state after frame `f2` was taken and given the contents of `f1`. */
  function CopiedState(s: St, f1: nat, f2: nat): St
    requires f1 < |s.mem| && f2 < |s.mem|
  {
    St(s.used + {f2}, s.pages, s.mem[f2 := s.mem[f1]])
  }

  /** The copy of one user page in `mmu_clone_vmmap`, through two kernel pages taken for the time of the copy. */
  method CopyFrame(m: Mmu, f1: nat) returns (ok: bool, f2: nat)
    requires m.Valid() && f1 < P.FRAMES
    modifies m`mem, m.phys.bmp, m.kern.dir, m.kern.pte
    ensures m.Valid() && (!ok ==> Exhausted(m.State()))
    ensures ok ==> f2 !in old(m.State()).used && f2 < P.FRAMES && m.State() == CopiedState(old(m.State()), f1, f2)
  {
    ghost var s := m.State();
    var virt1, virt2;
    f2 := 0;
    ok, virt1 := m.AllocPage();
    if !ok { return; }
    ok, virt2 := m.AllocPage();
    if !ok { return; }
    ok, f2 := m.AllocFrame();
    if !ok { return; }
    CopyThrough(m, virt1, virt2, f1, f2);
    assert s.pages[virt1 := 1][virt2 := 1] - {virt1} - {virt2} == s.pages;
  }

  lemma FrameOfEntry(f: nat)
    ensures (f * FLAGS + 3) / FLAGS == f
  {}

  method MapAndCopy(m: Mmu, virt1: nat, virt2: nat, f1: nat, f2: nat)
    requires m.Valid() && virt1 in m.State().pages && virt2 in m.State().pages && virt1 != virt2
    requires f1 < P.FRAMES && f2 < P.FRAMES
    modifies m`mem, m.kern.pte
    ensures m.Valid()
    ensures m.State() == St(old(m.State()).used, old(m.State()).pages[virt1 := f1 * FLAGS + 3][virt2 := f2 * FLAGS + 3],
                            old(m.State()).mem[f2 := old(m.State()).mem[f1]])
  {
    FrameOfEntry(f1);
    FrameOfEntry(f2);
    m.MapPage(virt1, f1);
    m.MapPage(virt2, f2);
    m.CopyPage(virt2, virt1);
  }

  method CopyThrough(m: Mmu, virt1: nat, virt2: nat, f1: nat, f2: nat)
    requires m.Valid() && virt1 in m.State().pages && virt2 in m.State().pages && virt1 != virt2
    requires f1 < P.FRAMES && f2 < P.FRAMES
    modifies m`mem, m.kern.pte
    ensures m.Valid()
    ensures m.State() ==
      St(old(m.State()).used, old(m.State()).pages - {virt1} - {virt2},
        old(m.State()).mem[f2 := old(m.State()).mem[f1]])
  {
    ghost var s := m.State();
    MapAndCopy(m, virt1, virt2, f1, f2);
    m.FreePage(virt1);
    m.FreePage(virt2);
    AddDrop(s.pages, virt1, f1 * FLAGS + 3, virt2, f2 * FLAGS + 3);
  }

  lemma AddDrop(p: map<nat, nat>, a: nat, x: nat, b: nat, y: nat)
    ensures p[a := x][b := y] - {a} - {b} == p - {a} - {b}
  {}

  /** Slot `k` of table `t` in the clone: the same flags and the same contents in a frame that was free
      at `s0` for a user page, no entry for anything else. */
  ghost predicate ClonedSlot(s0: St, src: Vm, s: St, dst: Vm, t: nat, k: nat) {
    var e, e' := Pte(s0, src, t, k), Pte(s, dst, t, k);
    if UserPte(e) then
      && UserPte(e') && e' % FLAGS == e % FLAGS && e' / FLAGS !in s0.used
      && e' / FLAGS < |s.mem| && e / FLAGS < |s0.mem| && s.mem[e' / FLAGS] == s0.mem[e / FLAGS]
    else e' == 0
  }

  /** The clone is complete up to slot `k` of table `t` and empty beyond. */
  ghost predicate ClonedUpto(s0: St, src: Vm, s: St, dst: Vm, t: nat, k: nat) {
    && (forall t': nat, k': nat ::
      k' < ENTCNT && (t' < t || (t' == t && k' < k)) ==> ClonedSlot(s0, src, s, dst, t', k'))
    && (forall t': nat, k': nat :: t' > t || (t' == t && k' >= k) ==> Pte(s, dst, t', k') == 0)
  }

  /** The source as seen while the clone grows. */
  lemma SourceKept(s0: St, src: Vm, s: St, dst: Vm)
    requires VmOk(s0, src) && Wf(s) && Grew(s0, s, dst)
    ensures VmOk(s, src)
    ensures forall o :: FrameOf(s, src, o) == FrameOf(s0, src, o)
    ensures forall t: nat, k: nat :: Pte(s, src, t, k) == Pte(s0, src, t, k)
  {
    forall o ensures KeptObj(s0, s, src, o) {}
    VmStable(s0, s, src);
  }

  /** Taking a frame for a copy keeps the clone in order. */
  lemma CopyKept(s: St, v: Vm, f1: nat, f2: nat)
    requires VmOk(s, v) && f1 < P.FRAMES && f2 < P.FRAMES && f2 !in s.used
    ensures var s' := CopiedState(s, f1, f2);
      && VmOk(s', v) && DataKept(s, v, s')
      && (forall o :: FrameOf(s', v, o) == FrameOf(s, v, o))
      && (forall t: nat, k: nat :: Pte(s', v, t, k) == Pte(s, v, t, k))
  {
    assert FrameOf(s, v, Pml4) == Some(v.pml4Phys);
    forall o ensures KeptObj(s, CopiedState(s, f1, f2), v, o) {}
    VmStable(s, CopiedState(s, f1, f2), v);
  }

  /** Where a user page was copied, the clone gains one frame, one entry and its contents. */
  lemma SlotDone(s0: St, src: Vm, s: St, v: Vm, f1: nat, f2: nat, s': St, t: nat, k: nat, e: nat)
    requires VmOk(s0, src) && VmOk(s, v) && Grew(s0, s, v) && ClonedUpto(s0, src, s, v, t, k) && k < ENTCNT
    requires e == Pte(s0, src, t, k) && UserPte(e) && f1 == e / FLAGS < P.FRAMES && f1 in s0.used
    requires f2 < P.FRAMES && f2 !in s.used && VmOk(CopiedState(s, f1, f2), v)
    requires VmOk(s', v) && EntrySet(CopiedState(s, f1, f2), s', v, t, k, e % FLAGS + f2 * FLAGS)
    ensures Grew(s0, s', v) && ClonedUpto(s0, src, s', v, t, k + 1) && RootKept(s, v, s')
  {
    var s1, e' := CopiedState(s, f1, f2), e % FLAGS + f2 * FLAGS;
    CopyKept(s, v, f1, f2);
    FlagsSame(e, f2);
    assert Pte(s, v, t, k) == 0 && FrameOf(s, v, User(t, k)) == None;
    assert FrameOf(s', v, User(t, k)) == Some(f2);
    SlotExtends(s, v, f1, f2, s', t, k, e');
    GrewMore(s0, s, v, s', v);
    forall t': nat, k': nat | k' < ENTCNT && (t' < t || (t' == t && k' < k))
      ensures ClonedSlot(s0, src, s', v, t', k')
    {
      assert ClonedSlot(s0, src, s, v, t', k');
      OldSlotKept(s, v, f1, f2, s', t, k, e', t', k');
    }
    assert !IsTable(s1, v, f2) by { assert forall o :: FrameOf(s, v, o) != Some(f2); }
    assert ClonedSlot(s0, src, s', v, t, k);
  }

  lemma FlagsSame(e: nat, f: nat)
    ensures (e % FLAGS + f * FLAGS) % FLAGS == e % FLAGS && (e % FLAGS + f * FLAGS) / FLAGS == f
    ensures UserPte(e) ==> UserPte(e % FLAGS + f * FLAGS)
  {}

  lemma SlotExtends(s: St, v: Vm, f1: nat, f2: nat, s': St, t: nat, k: nat, e: nat)
    requires VmOk(s, v) && f1 < P.FRAMES && f2 < P.FRAMES && f2 !in s.used && VmOk(s', v)
    requires VmOk(CopiedState(s, f1, f2), v) && EntrySet(CopiedState(s, f1, f2), s', v, t, k, e)
    requires UserPte(e) && e / FLAGS == f2 && FrameOf(s, v, User(t, k)) == None
    ensures Extends(s, v, s', v)
  {
    CopyKept(s, v, f1, f2);
    assert FrameOf(s', v, User(t, k)) == Some(f2);
    forall f | f in s.used && f < |s.mem| && !IsTable(s, v, f) ensures s'.mem[f] == s.mem[f] {
      assert !IsTable(CopiedState(s, f1, f2), v, f);
    }
  }

  /** Slots cloned earlier keep their entries and the contents of their frames. */
  lemma OldSlotKept(s: St, v: Vm, f1: nat, f2: nat, s': St, t: nat, k: nat, e: nat, t': nat, k': nat)
    requires VmOk(s, v) && f1 < P.FRAMES && f2 < P.FRAMES && f2 !in s.used && VmOk(s', v)
    requires VmOk(CopiedState(s, f1, f2), v) && EntrySet(CopiedState(s, f1, f2), s', v, t, k, e)
    requires (t', k') != (t, k) && k' < ENTCNT
    ensures Pte(s', v, t', k') == Pte(s, v, t', k')
    ensures UserPte(Pte(s, v, t', k')) ==>
      Pte(s, v, t', k') / FLAGS < P.FRAMES && s'.mem[Pte(s, v, t', k') / FLAGS] == s.mem[Pte(s, v, t', k') / FLAGS]
  {
    CopyKept(s, v, f1, f2);
    if UserPte(Pte(s, v, t', k')) {
      var f := Pte(s, v, t', k') / FLAGS;
      assert FrameOf(s, v, User(t', k')) == Some(f);
      assert !IsTable(CopiedState(s, f1, f2), v, f);
    }
  }

  /** One slot of `mmu_clone_vmmap`. */
  method CloneSlot(m: Mmu, src: VmMap, dst: VmMap, t: nat, k: nat, ghost s0: St) returns (ok: bool)
    requires m.Valid() && VmOk(s0, src.View()) && VmOk(m.State(), dst.View()) && Grew(s0, m.State(), dst.View())
    requires t < |src.pts| == |dst.pts| && src.pts[t].Some? && dst.pts[t].Some? && k < ENTCNT
    requires ClonedUpto(s0, src.View(), m.State(), dst.View(), t, k)
    modifies m`mem, m.phys.bmp, m.kern.dir, m.kern.pte
    ensures m.Valid() && (!ok ==> Exhausted(m.State()))
    ensures ok ==> VmOk(m.State(), dst.View()) && Grew(s0, m.State(), dst.View())
    ensures ok ==> ClonedUpto(s0, src.View(), m.State(), dst.View(), t, k + 1)
    ensures ok ==> RootKept(old(m.State()), dst.View(), m.State())
  {
    var e := SourceEntry(m, src, t, k, s0, dst.View());
    ok := true;
    if e % 2 == 1 && e / 4 % 2 == 1 {
      ok := CopySlot(m, dst, t, k, e, s0, src.View());
    } else {
      SlotSkipped(s0, src.View(), m.State(), dst.View(), t, k);
    }
  }

  /** The source's entry, read while the clone grows. */
  method SourceEntry(m: Mmu, src: VmMap, t: nat, k: nat, ghost s0: St, ghost dv: Vm) returns (e: nat)
    requires m.Valid() && VmOk(s0, src.View()) && Grew(s0, m.State(), dv)
    requires t < |src.pts| && src.pts[t].Some? && k < ENTCNT
    ensures e == Pte(s0, src.View(), t, k)
    ensures UserPte(e) ==> e / FLAGS in s0.used && e / FLAGS < P.FRAMES
  {
    SourceKept(s0, src.View(), m.State(), dv);
    assert MappedOk(m.State(), src.View(), Pt(t)) && PageOf(src.View(), Pt(t)) == src.pts[t];
    e := m.GetWord(src.pts[t].value, k);
    assert UserPte(e) ==> FrameOf(s0, src.View(), User(t, k)) == Some(e / FLAGS);
  }

  /** A user page is copied and entered in the clone. */
  method CopySlot(m: Mmu, dst: VmMap, t: nat, k: nat, e: nat, ghost s0: St, ghost sv: Vm) returns (ok: bool)
    requires m.Valid() && VmOk(s0, sv) && VmOk(m.State(), dst.View()) && Grew(s0, m.State(), dst.View())
    requires t < |dst.pts| && dst.pts[t].Some? && k < ENTCNT && ClonedUpto(s0, sv, m.State(), dst.View(), t, k)
    requires e == Pte(s0, sv, t, k) && UserPte(e) && e / FLAGS in s0.used && e / FLAGS < P.FRAMES
    modifies m`mem, m.phys.bmp, m.kern.dir, m.kern.pte
    ensures m.Valid() && (!ok ==> Exhausted(m.State()))
    ensures ok ==> VmOk(m.State(), dst.View()) && Grew(s0, m.State(), dst.View())
    ensures ok ==> ClonedUpto(s0, sv, m.State(), dst.View(), t, k + 1)
    ensures ok ==> RootKept(old(m.State()), dst.View(), m.State())
  {
    ghost var s := m.State();
    ghost var f2;
    ok, f2 := CopyAndEnter(m, dst, t, k, e);
    if ok {
      SlotDone(s0, sv, s, dst.View(), e / FLAGS, f2, m.State(), t, k, e);
    }
  }

  method CopyAndEnter(m: Mmu, dst: VmMap, t: nat, k: nat, e: nat) returns (ok: bool, ghost f: nat)
    requires m.Valid() && VmOk(m.State(), dst.View()) && t < |dst.pts| && dst.pts[t].Some? && k < ENTCNT
    requires UserPte(e) && e / FLAGS < P.FRAMES
    modifies m`mem, m.phys.bmp, m.kern.dir, m.kern.pte
    ensures m.Valid() && (!ok ==> Exhausted(m.State()))
    ensures ok ==>
      f < P.FRAMES && f !in old(m.State()).used && VmOk(CopiedState(old(m.State()), e / FLAGS, f), dst.View())
    ensures ok ==> VmOk(m.State(), dst.View())
    ensures ok ==>
      EntrySet(CopiedState(old(m.State()), e / FLAGS, f), m.State(), dst.View(), t, k, e % FLAGS + f * FLAGS)
  {
    ghost var s, dv := m.State(), dst.View();
    var f2;
    ok, f2 := CopyFrame(m, e / FLAGS);
    f := f2;
    if !ok { return; }
    FlagsSame(e, f2);
    var e2 := e % FLAGS + f2 * FLAGS;
    CopyEnterable(s, dv, e / FLAGS, f2, e2);
    StoreEntry(m, dst, t, k, e2);
  }

  lemma CopyEnterable(s: St, v: Vm, f1: nat, f2: nat, e: nat)
    requires VmOk(s, v) && f1 < P.FRAMES && f2 < P.FRAMES && f2 !in s.used && e / FLAGS == f2
    ensures var s' := CopiedState(s, f1, f2);
      VmOk(s', v) && e / FLAGS in s'.used && forall o :: FrameOf(s', v, o) != Some(e / FLAGS)
  {
    CopyKept(s, v, f1, f2);
    assert forall o :: FrameOf(s, v, o) != Some(f2);
  }

  lemma SlotSkipped(s0: St, src: Vm, s: St, dst: Vm, t: nat, k: nat)
    requires ClonedUpto(s0, src, s, dst, t, k) && !UserPte(Pte(s0, src, t, k))
    ensures ClonedUpto(s0, src, s, dst, t, k + 1)
  {
    assert ClonedSlot(s0, src, s, dst, t, k);
  }

  lemma NextTable(s0: St, src: Vm, s: St, dst: Vm, t: nat)
    requires ClonedUpto(s0, src, s, dst, t, ENTCNT)
    ensures ClonedUpto(s0, src, s, dst, t + 1, 0)
  {}

  /** A source table that does not exist leaves the clone's table out. */
  lemma EmptyTable(s0: St, src: Vm, s: St, dst: Vm, t: nat)
    requires ClonedUpto(s0, src, s, dst, t, 0) && t < |src.pts| && src.pts[t] == None
    ensures ClonedUpto(s0, src, s, dst, t + 1, 0)
  {
    forall k: nat | k < ENTCNT ensures ClonedSlot(s0, src, s, dst, t, k) {
      assert Pte(s0, src, t, k) == 0;
    }
  }

  /** A table made for the clone changes no slot. */
  lemma MadeKeeps(s0: St, src: Vm, s: St, v: Vm, s': St, v': Vm, t: nat)
    requires Wf(s0) && VmOk(s, v) && VmOk(s', v') && Grew(s0, s, v) && TableMade(s, v, s', v', t) && v.pts[t].None?
    requires ClonedUpto(s0, src, s, v, t, 0)
    ensures Grew(s0, s', v') && ClonedUpto(s0, src, s', v', t, 0)
  {
    assert FrameOf(s', v', Pt(t)).Some? && PageOf(v', Pt(t)).Some? && FrameOf(s, v, Pt(t)).None?;
    assert Extends(s, v, s', v');
    GrewMore(s0, s, v, s', v');
    forall t': nat, k': nat | k' < ENTCNT && t' < t ensures ClonedSlot(s0, src, s', v', t', k') {
      assert ClonedSlot(s0, src, s, v, t', k');
      MadeSlot(s0, src, s, v, s', v', t, t', k');
    }
  }

  lemma MadeSlot(s0: St, src: Vm, s: St, v: Vm, s': St, v': Vm, t: nat, t': nat, k': nat)
    requires Wf(s0) && VmOk(s, v) && VmOk(s', v') && TableMade(s, v, s', v', t) && Extends(s, v, s', v')
    requires t' < t && k' < ENTCNT && ClonedSlot(s0, src, s, v, t', k')
    ensures ClonedSlot(s0, src, s', v', t', k')
  {
    var e' := Pte(s, v, t', k');
    if UserPte(e') {
      assert FrameOf(s, v, User(t', k')) == Some(e' / FLAGS);
      assert !IsTable(s, v, e' / FLAGS);
    }
  }

  /** One table of `mmu_clone_vmmap`. */
  method CloneTable(m: Mmu, src: VmMap, dst: VmMap, t: nat, ghost s0: St) returns (ok: bool)
    requires m.Valid() && VmOk(s0, src.View()) && VmOk(m.State(), dst.View()) && Grew(s0, m.State(), dst.View())
    requires src != dst && t < |src.pts| == |dst.pts| && dst.pts[t] == None
    requires ClonedUpto(s0, src.View(), m.State(), dst.View(), t, 0)
    modifies m`mem, m.phys.bmp, m.kern.dir, m.kern.pte, dst`pts
    ensures m.Valid() && (!ok ==> Exhausted(m.State()))
    ensures ok ==> VmOk(m.State(), dst.View()) && Grew(s0, m.State(), dst.View())
    ensures ok ==> ClonedUpto(s0, src.View(), m.State(), dst.View(), t + 1, 0)
    ensures ok ==> RootKept(old(m.State()), dst.View(), m.State())
    ensures ok ==> |dst.pts| == |old(dst.pts)| && dst.pts[t].Some? == src.pts[t].Some?
    ensures ok ==> forall t' :: 0 <= t' < |dst.pts| && t' != t ==> dst.pts[t'] == old(dst.pts)[t']
  {
    ok := true;
    if src.pts[t].None? {
      EmptyTable(s0, src.View(), m.State(), dst.View(), t);
      SkipTable(m, dst, t);
      return;
    }
    ok := NewTable(m, dst, t, s0, src.View());
    if !ok { return; }
    ok := CloneSlots(m, src, dst, t, s0);
  }

  /** The slots of one table. */
  method CloneSlots(m: Mmu, src: VmMap, dst: VmMap, t: nat, ghost s0: St) returns (ok: bool)
    requires m.Valid() && VmOk(s0, src.View()) && VmOk(m.State(), dst.View()) && Grew(s0, m.State(), dst.View())
    requires t < |src.pts| == |dst.pts| && src.pts[t].Some? && dst.pts[t].Some?
    requires ClonedUpto(s0, src.View(), m.State(), dst.View(), t, 0)
    modifies m`mem, m.phys.bmp, m.kern.dir, m.kern.pte
    ensures m.Valid() && (!ok ==> Exhausted(m.State()))
    ensures ok ==> VmOk(m.State(), dst.View()) && Grew(s0, m.State(), dst.View())
    ensures ok ==> ClonedUpto(s0, src.View(), m.State(), dst.View(), t + 1, 0)
    ensures ok ==> RootKept(old(m.State()), dst.View(), m.State())
  {
    ok := true;
    ghost var s := m.State();
    for k := 0 to ENTCNT
      invariant ok && m.Valid() && VmOk(m.State(), dst.View()) && Grew(s0, m.State(), dst.View())
      invariant ClonedUpto(s0, src.View(), m.State(), dst.View(), t, k) && RootKept(s, dst.View(), m.State())
    {
      ok := CloneSlot(m, src, dst, t, k, s0);
      if !ok { return; }
    }
    NextTable(s0, src.View(), m.State(), dst.View(), t);
  }

  /** `map->pds[i][j] = 0; map->pts[i][j] = NULL;`, which is how a new address space starts out anyway. */
  method SkipTable(m: Mmu, dst: VmMap, t: nat)
    requires m.Valid() && VmOk(m.State(), dst.View()) && t < |dst.pts| && dst.pts[t] == None
    modifies m`mem, dst`pts
    ensures m.Valid() && m.State() == old(m.State()) && dst.View() == old(dst.View())
  {
    DirectoryPage(m.State(), dst.View(), t / ENTCNT);
    assert DirectoryOk(m.State(), dst.View(), t);
    assert Word(m.State(), dst.pds[t / ENTCNT], t % ENTCNT) == 0;
    SetSame(m.mem, m.State().pages[dst.pds[t / ENTCNT]] / FLAGS, t % ENTCNT, 0);
    m.SetWord(dst.pds[t / ENTCNT], t % ENTCNT, 0);
    dst.pts := dst.pts[t := None];
  }

  lemma SetSame(mem: seq<Page>, f: nat, k: nat, e: nat)
    requires f < |mem| && k < ENTCNT && mem[f][k] == e
    ensures SetWordIn(mem, f, k, e) == mem
  {
    assert mem[f][k := e] == mem[f];
  }

  /** `mktable` for the clone. */
  method NewTable(m: Mmu, dst: VmMap, t: nat, ghost s0: St, ghost sv: Vm) returns (ok: bool)
    requires m.Valid() && Wf(s0) && VmOk(m.State(), dst.View()) && Grew(s0, m.State(), dst.View())
    requires t < |dst.pts| && dst.pts[t] == None && ClonedUpto(s0, sv, m.State(), dst.View(), t, 0)
    modifies m`mem, m.phys.bmp, m.kern.dir, m.kern.pte, dst`pts
    ensures m.Valid() && (!ok ==> Exhausted(m.State()))
    ensures ok ==> VmOk(m.State(), dst.View()) && Grew(s0, m.State(), dst.View())
    ensures ok ==> ClonedUpto(s0, sv, m.State(), dst.View(), t, 0)
    ensures ok ==> RootKept(old(m.State()), dst.View(), m.State())
    ensures ok ==> |dst.pts| == |old(dst.pts)| && dst.pts[t].Some?
    ensures ok ==> forall t' :: 0 <= t' < |dst.pts| && t' != t ==> dst.pts[t'] == old(dst.pts)[t']
  {
    ghost var s, v := m.State(), dst.View();
    ghost var q, f;
    ok, q, f := MkTable(m, dst, t);
    if !ok { return; }
    NewTableMade(s, v, t, q, f);
    MadeKeeps(s0, sv, s, v, m.State(), dst.View(), t);
  }

  /** `mmu_clone_vmmap`: every user page of the source is copied to a frame that was free, at the same
      place with the same flags; nothing else is mapped, and the source is untouched. */
  method Clone(m: Mmu, kpml4: Page, src: VmMap) returns (ok: bool, dst: VmMap)
    requires m.Valid() && VmOk(m.State(), src.View()) && |src.pds| == ENTCNT
    modifies m`mem, m.phys.bmp, m.kern.dir, m.kern.pte
    ensures m.Valid() && fresh(dst) && (!ok ==> Exhausted(m.State()))
    ensures ok ==> VmOk(m.State(), dst.View()) && |dst.pds| == ENTCNT && Grew(old(m.State()), m.State(), dst.View())
    ensures ok ==> forall t: nat, k: nat :: t < ENTCNT * ENTCNT && k < ENTCNT ==>
      ClonedSlot(old(m.State()), src.View(), m.State(), dst.View(), t, k)
    ensures ok ==> KernelHalf(m.State(), dst.View(), kpml4)
    ensures ok ==> VmOk(m.State(), src.View())
    ensures ok ==> forall t: nat, k: nat :: Pte(m.State(), src.View(), t, k) == Pte(old(m.State()), src.View(), t, k)
  {
    ghost var s0 := m.State();
    ok, dst := Create(m, kpml4);
    if !ok { return; }
    for i := 0 to ENTCNT
      invariant ok && m.Valid() && VmOk(m.State(), dst.View()) && Grew(s0, m.State(), dst.View()) && fresh(dst)
      invariant |dst.pds| == ENTCNT && |dst.pts| == ENTCNT * ENTCNT && KernelHalf(m.State(), dst.View(), kpml4)
      invariant ClonedUpto(s0, src.View(), m.State(), dst.View(), i * ENTCNT, 0)
      invariant forall t :: i * ENTCNT <= t < |dst.pts| ==> dst.pts[t] == None
    {
      ok := CloneDirectory(m, src, dst, i, s0);
      if !ok { return; }
    }
    SourceKept(s0, src.View(), m.State(), dst.View());
  }

  /** The inner loop of `mmu_clone_vmmap`: the tables of one directory. */
  method CloneDirectory(m: Mmu, src: VmMap, dst: VmMap, i: nat, ghost s0: St) returns (ok: bool)
    requires m.Valid() && VmOk(s0, src.View()) && VmOk(m.State(), dst.View()) && Grew(s0, m.State(), dst.View())
    requires src != dst && i < ENTCNT && |src.pts| == |dst.pts| == ENTCNT * ENTCNT
    requires ClonedUpto(s0, src.View(), m.State(), dst.View(), i * ENTCNT, 0)
    requires forall t :: i * ENTCNT <= t < |dst.pts| ==> dst.pts[t] == None
    modifies m`mem, m.phys.bmp, m.kern.dir, m.kern.pte, dst`pts
    ensures m.Valid() && (!ok ==> Exhausted(m.State()))
    ensures ok ==> VmOk(m.State(), dst.View()) && Grew(s0, m.State(), dst.View()) && |dst.pts| == ENTCNT * ENTCNT
    ensures ok ==> ClonedUpto(s0, src.View(), m.State(), dst.View(), (i + 1) * ENTCNT, 0)
    ensures ok ==> RootKept(old(m.State()), dst.View(), m.State())
    ensures ok ==> forall t :: (i + 1) * ENTCNT <= t < |dst.pts| ==> dst.pts[t] == None
  {
    ok := true;
    ghost var s := m.State();
    for j := 0 to ENTCNT
      invariant ok && m.Valid() && VmOk(m.State(), dst.View()) && Grew(s0, m.State(), dst.View())
      invariant |dst.pts| == ENTCNT * ENTCNT && RootKept(s, dst.View(), m.State())
      invariant ClonedUpto(s0, src.View(), m.State(), dst.View(), i * ENTCNT + j, 0)
      invariant forall t :: i * ENTCNT + j <= t < |dst.pts| ==> dst.pts[t] == None
    {
      ok := CloneTable(m, src, dst, i * ENTCNT + j, s0);
      if !ok { return; }
    }
  }

  /** What the processor makes of that: at every lower page the clone has what the source had, in a frame of its own. */
  lemma CloneSeen(s0: St, src: Vm, s: St, dst: Vm, virt: nat)
    requires VmOk(s0, src) && VmOk(s, dst) && |src.pds| == |dst.pds| == ENTCNT && virt < LOWER
    requires ClonedSlot(s0, src, s, dst, TableOf(virt), SlotOf(virt))
    ensures var e, e' := Translated(s0.mem, src.pml4Phys, virt), Translated(s.mem, dst.pml4Phys, virt);
      if UserPte(e) then
        && UserPte(e') && e' % FLAGS == e % FLAGS && e' / FLAGS !in s0.used
        && e' / FLAGS < |s.mem| && e / FLAGS < |s0.mem| && s.mem[e' / FLAGS] == s0.mem[e / FLAGS]
      else e' == 0
  {
    WalkFinds(s0, src, virt);
    WalkFinds(s, dst, virt);
  }
}
