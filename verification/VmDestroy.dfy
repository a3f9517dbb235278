/** Destroying an address space, and what is left of it: nothing. */
module VmDestroy {
  import opened Common
  import opened Paging
  import P = PhysMem
  import K = KernelPages
  import opened VmState
  import opened VmMap

  /** How far `mmu_destroy_vmmap` has come: directories before `i`, tables before `t`, and of table `t`
      the slots before `k`. */
  datatype Pos = Pos(i: nat, t: nat, k: nat)

  predicate Done(o: Obj, p: Pos) {
    match o
    case Pml4 => false
    case Pdpt => false
    case Pd(i) => i < p.i
    case Pt(t) => t < p.t
    case User(t, k) => t < p.t || (t == p.t && k < p.k)
  }

  /** The state `s`, reached from `s0` by giving back the frames of the objects before `pf` and the
      kernel pages of those before `pp`; every object not yet reached is still there. */
  ghost predicate Freeing(s0: St, v: Vm, s: St, pf: Pos, pp: Pos) {
    && s.mem == s0.mem
    && (forall o :: FrameOf(s0, v, o).Some? ==> (FrameOf(s0, v, o).value in s.used <==> !Done(o, pf)))
    && (forall f :: !Holds(s0, v, f) ==> (f in s.used <==> f in s0.used))
    && (forall o :: PageOf(v, o).Some? ==> (PageOf(v, o).value in s.pages <==> !Done(o, pp)))
    && (forall q :: !HoldsPage(v, q) ==> (q in s.pages <==> q in s0.pages))
    && (forall q :: q in s.pages ==> q in s0.pages && s.pages[q] == s0.pages[q])
  }

  /** One frame is given back: it was in use, and the walk moves past its owner. */
  lemma FrameGone(s0: St, v: Vm, s: St, pf: Pos, pp: Pos, o: Obj, pf': Pos)
    requires VmOk(s0, v) && Freeing(s0, v, s, pf, pp) && FrameOf(s0, v, o).Some? && !Done(o, pf)
    requires forall o' :: FrameOf(s0, v, o').Some? ==> (Done(o', pf') <==> Done(o', pf) || o' == o)
    ensures FrameOf(s0, v, o).value in s.used
    ensures Freeing(s0, v, St(s.used - {FrameOf(s0, v, o).value}, s.pages, s.mem), pf', pp)
  {
    var f := FrameOf(s0, v, o).value;
    assert Holds(s0, v, f);
    var s' := St(s.used - {f}, s.pages, s.mem);
    forall o' | FrameOf(s0, v, o').Some? ensures FrameOf(s0, v, o').value in s'.used <==> !Done(o', pf') {
      assert o' != o ==> FrameOf(s0, v, o') != FrameOf(s0, v, o);
    }
  }

  /** Pages are told apart like frames. */
  lemma PagesDistinct(s: St, v: Vm, o: Obj, o': Obj)
    requires VmOk(s, v) && PageOf(v, o).Some? && PageOf(v, o) == PageOf(v, o')
    ensures o == o'
  {
    assert MappedOk(s, v, o) && MappedOk(s, v, o');
    assert FrameOf(s, v, o) == FrameOf(s, v, o');
  }

  lemma PageGone(s0: St, v: Vm, s: St, pf: Pos, pp: Pos, o: Obj, pp': Pos)
    requires VmOk(s0, v) && Freeing(s0, v, s, pf, pp) && PageOf(v, o).Some? && !Done(o, pp)
    requires forall o' :: PageOf(v, o').Some? ==> (Done(o', pp') <==> Done(o', pp) || o' == o)
    ensures PageOf(v, o).value in s.pages
    ensures Freeing(s0, v, St(s.used, s.pages - {PageOf(v, o).value}, s.mem), pf, pp')
  {
    var q := PageOf(v, o).value;
    assert HoldsPage(v, q);
    var s' := St(s.used, s.pages - {q}, s.mem);
    forall o' | PageOf(v, o').Some? ensures PageOf(v, o').value in s'.pages <==> !Done(o', pp') {
      if o' != o && PageOf(v, o') == PageOf(v, o) {
        PagesDistinct(s0, v, o, o');
      }
    }
  }

  /** The walk passes something that holds nothing. */
  lemma NothingHere(s0: St, v: Vm, s: St, pf: Pos, pp: Pos, pf': Pos, pp': Pos)
    requires Freeing(s0, v, s, pf, pp)
    requires forall o :: FrameOf(s0, v, o).Some? ==> (Done(o, pf') <==> Done(o, pf))
    requires forall o :: PageOf(v, o).Some? ==> (Done(o, pp') <==> Done(o, pp))
    ensures Freeing(s0, v, s, pf', pp')
  {}

  /** While the table is still mapped its entries read as they did. */
  lemma EntriesKept(s0: St, v: Vm, s: St, pf: Pos, pp: Pos, t: nat, k: nat)
    requires VmOk(s0, v) && Freeing(s0, v, s, pf, pp) && t < |v.pts| && v.pts[t].Some? && pp.t <= t && k < ENTCNT
    ensures v.pts[t].value in s.pages && s.pages[v.pts[t].value] / FLAGS < P.FRAMES
    ensures Word(s, v.pts[t].value, k) == Pte(s0, v, t, k)
  {
    assert PageOf(v, Pt(t)) == v.pts[t] && MappedOk(s0, v, Pt(t)) && !Done(Pt(t), pp);
  }

  /** `mmu_free_phys` for the frame of `o`. */
  method DropFrame(m: Mmu, f: nat, ghost s0: St, ghost v: Vm, ghost pf: Pos, ghost pp: Pos, ghost o: Obj,
    ghost pf': Pos)
    requires m.Valid() && VmOk(s0, v) && Freeing(s0, v, m.State(), pf, pp) && FrameOf(s0, v, o) == Some(f)
      && !Done(o, pf)
    requires forall o' :: FrameOf(s0, v, o').Some? ==> (Done(o', pf') <==> Done(o', pf) || o' == o)
    modifies m.phys.bmp
    ensures m.Valid() && Freeing(s0, v, m.State(), pf', pp)
  {
    FrameGone(s0, v, m.State(), pf, pp, o, pf');
    m.FreeFrame(f);
  }

  /** `mmu_kfree` for the kernel page of `o`. */
  method DropPage(m: Mmu, q: nat, ghost s0: St, ghost v: Vm, ghost pf: Pos, ghost pp: Pos, ghost o: Obj, ghost pp': Pos)
    requires m.Valid() && VmOk(s0, v) && Freeing(s0, v, m.State(), pf, pp) && PageOf(v, o) == Some(q) && !Done(o, pp)
    requires forall o' :: PageOf(v, o').Some? ==> (Done(o', pp') <==> Done(o', pp) || o' == o)
    modifies m.kern.pte
    ensures m.Valid() && Freeing(s0, v, m.State(), pf, pp')
  {
    PageGone(s0, v, m.State(), pf, pp, o, pp');
    m.FreePage(q);
  }

  /** The inner loop of `mmu_destroy_vmmap`: the user pages of one table. */
  method FreeUserPages(m: Mmu, vm: VmMap, t: nat, i: nat, ghost s0: St)
    requires m.Valid() && VmOk(s0, vm.View()) && t < |vm.pts| && vm.pts[t].Some?
    requires Freeing(s0, vm.View(), m.State(), Pos(i, t, 0), Pos(i, t, 0))
    modifies m.phys.bmp
    ensures m.Valid() && Freeing(s0, vm.View(), m.State(), Pos(i, t, ENTCNT), Pos(i, t, 0))
  {
    for k := 0 to ENTCNT
      invariant m.Valid() && Freeing(s0, vm.View(), m.State(), Pos(i, t, k), Pos(i, t, 0))
    {
      FreeSlot(m, vm, t, k, i, s0);
    }
  }

  /** One slot further, one object more is done. */
  lemma NextSlot(i: nat, t: nat, k: nat)
    ensures forall o :: Done(o, Pos(i, t, k + 1)) <==> Done(o, Pos(i, t, k)) || o == User(t, k)
  {}

  method FreeSlot(m: Mmu, vm: VmMap, t: nat, k: nat, ghost i: nat, ghost s0: St)
    requires m.Valid() && VmOk(s0, vm.View()) && t < |vm.pts| && vm.pts[t].Some? && k < ENTCNT
    requires Freeing(s0, vm.View(), m.State(), Pos(i, t, k), Pos(i, t, 0))
    modifies m.phys.bmp
    ensures m.Valid() && Freeing(s0, vm.View(), m.State(), Pos(i, t, k + 1), Pos(i, t, 0))
  {
    ghost var v, pf, pp := vm.View(), Pos(i, t, k), Pos(i, t, 0);
    EntriesKept(s0, v, m.State(), pf, pp, t, k);
    NextSlot(i, t, k);
    var e := m.GetWord(vm.pts[t].value, k);
    if e % 2 == 1 && e / 4 % 2 == 1 {
      assert FrameOf(s0, v, User(t, k)) == Some(e / FLAGS);
      DropFrame(m, e / FLAGS, s0, v, pf, pp, User(t, k), Pos(i, t, k + 1));
    } else {
      NothingHere(s0, v, m.State(), pf, pp, Pos(i, t, k + 1), pp);
    }
  }

  lemma NoTableHere(s0: St, v: Vm, s: St, i: nat, t: nat)
    requires Freeing(s0, v, s, Pos(i, t, 0), Pos(i, t, 0)) && t < |v.pts| && v.pts[t].None?
    ensures Freeing(s0, v, s, Pos(i, t + 1, 0), Pos(i, t + 1, 0))
  {
    assert forall k: nat :: Pte(s0, v, t, k) == 0;
    NothingHere(s0, v, s, Pos(i, t, 0), Pos(i, t, 0), Pos(i, t + 1, 0), Pos(i, t + 1, 0));
  }

  /** One table: its user pages, its kernel page and its frame, the latter found in the directory. */
  method FreeTable(m: Mmu, vm: VmMap, i: nat, t: nat, ghost s0: St)
    requires m.Valid() && VmOk(s0, vm.View()) && t < |vm.pts| && t / ENTCNT == i
    requires Freeing(s0, vm.View(), m.State(), Pos(i, t, 0), Pos(i, t, 0))
    modifies m.phys.bmp, m.kern.pte
    ensures m.Valid() && Freeing(s0, vm.View(), m.State(), Pos(i, t + 1, 0), Pos(i, t + 1, 0))
  {
    if vm.pts[t].None? {
      NoTableHere(s0, vm.View(), m.State(), i, t);
      return;
    }
    FreeUserPages(m, vm, t, i, s0);
    FreeEmptyTable(m, vm, i, t, s0);
  }

  /** A table whose user pages are gone. */
  method FreeEmptyTable(m: Mmu, vm: VmMap, i: nat, t: nat, ghost s0: St)
    requires m.Valid() && VmOk(s0, vm.View()) && t < |vm.pts| && t / ENTCNT == i && vm.pts[t].Some?
    requires Freeing(s0, vm.View(), m.State(), Pos(i, t, ENTCNT), Pos(i, t, 0))
    modifies m.phys.bmp, m.kern.pte
    ensures m.Valid() && Freeing(s0, vm.View(), m.State(), Pos(i, t + 1, 0), Pos(i, t + 1, 0))
  {
    ghost var v, pf, p, p' := vm.View(), Pos(i, t, ENTCNT), Pos(i, t, 0), Pos(i, t + 1, 0);
    PastTable(s0, v, i, t);
    DropPage(m, vm.pts[t].value, s0, v, pf, p, Pt(t), p');
    var f := TableFrame(m, vm, i, t, s0, pf, p');
    DropFrame(m, f, s0, v, pf, p', Pt(t), p');
  }

  lemma PastTable(s0: St, v: Vm, i: nat, t: nat)
    ensures forall o :: PageOf(v, o).Some? ==> (Done(o, Pos(i, t + 1, 0)) <==> Done(o, Pos(i, t, 0)) || o == Pt(t))
    ensures forall o ::
      FrameOf(s0, v, o).Some? ==> (Done(o, Pos(i, t + 1, 0)) <==> Done(o, Pos(i, t, ENTCNT)) || o == Pt(t))
  {}

  /** The frame of a table, read from its directory entry. */
  method TableFrame(m: Mmu, vm: VmMap, i: nat, t: nat, ghost s0: St, ghost pf: Pos, ghost pp: Pos) returns (f: nat)
    requires m.Valid() && VmOk(s0, vm.View()) && t < |vm.pts| && t / ENTCNT == i == pp.i && vm.pts[t].Some?
    requires Freeing(s0, vm.View(), m.State(), pf, pp)
    ensures FrameOf(s0, vm.View(), Pt(t)) == Some(f)
  {
    TableEntry(s0, vm.View(), m.State(), pf, pp, t);
    var pd := m.GetWord(vm.pds[i], t % ENTCNT);
    f := pd / FLAGS;
  }

  lemma TableEntry(s0: St, v: Vm, s: St, pf: Pos, pp: Pos, t: nat)
    requires VmOk(s0, v) && Freeing(s0, v, s, pf, pp) && t < |v.pts| && v.pts[t].Some? && pp.i <= t / ENTCNT
    ensures var q := v.pds[t / ENTCNT]; q in s.pages && s.pages[q] / FLAGS < P.FRAMES
    ensures FrameOf(s0, v, Pt(t)) == Some(Word(s, v.pds[t / ENTCNT], t % ENTCNT) / FLAGS)
  {
    assert PageOf(v, Pt(t)) == v.pts[t] && MappedOk(s0, v, Pt(t)) && DirectoryOk(s0, v, t);
    DirectoryKept(s0, v, s, pf, pp, t / ENTCNT, t % ENTCNT);
    Pointer(s0.pages[v.pts[t].value] / FLAGS, 7);
  }

  lemma DirectoryKept(s0: St, v: Vm, s: St, pf: Pos, pp: Pos, i: nat, j: nat)
    requires VmOk(s0, v) && Freeing(s0, v, s, pf, pp) && i < |v.pds| && pp.i <= i && j < ENTCNT
    ensures v.pds[i] in s.pages && s.pages[v.pds[i]] / FLAGS < P.FRAMES
    ensures Word(s, v.pds[i], j) == Word(s0, v.pds[i], j)
  {
    assert PageOf(v, Pd(i)) == Some(v.pds[i]) && MappedOk(s0, v, Pd(i)) && !Done(Pd(i), pp);
  }

  /** One directory, after its tables. */
  method FreeDirectory(m: Mmu, vm: VmMap, i: nat, ghost s0: St)
    requires m.Valid() && VmOk(s0, vm.View()) && i < |vm.pds| == ENTCNT
    requires Freeing(s0, vm.View(), m.State(), Pos(i, i * ENTCNT, 0), Pos(i, i * ENTCNT, 0))
    modifies m.phys.bmp, m.kern.pte
    ensures m.Valid()
    ensures Freeing(s0, vm.View(), m.State(), Pos(i + 1, (i + 1) * ENTCNT, 0), Pos(i + 1, (i + 1) * ENTCNT, 0))
  {
    FreeTables(m, vm, i, i * ENTCNT, s0);
    FreeEmptyDirectory(m, vm, i, (i + 1) * ENTCNT, s0);
  }

  /** The tables of a directory, the first of them being table `t`. */
  method FreeTables(m: Mmu, vm: VmMap, i: nat, t: nat, ghost s0: St)
    requires m.Valid() && VmOk(s0, vm.View()) && i < |vm.pds| == ENTCNT && t == i * ENTCNT
    requires Freeing(s0, vm.View(), m.State(), Pos(i, t, 0), Pos(i, t, 0))
    modifies m.phys.bmp, m.kern.pte
    ensures m.Valid() && Freeing(s0, vm.View(), m.State(), Pos(i, t + ENTCNT, 0), Pos(i, t + ENTCNT, 0))
  {
    for j := 0 to ENTCNT
      invariant m.Valid() && Freeing(s0, vm.View(), m.State(), Pos(i, t + j, 0), Pos(i, t + j, 0))
    {
      TableThere(s0, vm.View(), i, t, j);
      FreeTable(m, vm, i, t + j, s0);
    }
  }

  lemma TableThere(s: St, v: Vm, i: nat, t: nat, j: nat)
    requires VmOk(s, v) && i < |v.pds| == ENTCNT && t == i * ENTCNT && j < ENTCNT
    ensures t + j < |v.pts| && (t + j) / ENTCNT == i
  {
    TableIndex(i, j);
  }

  lemma TableIndex(i: nat, j: nat)
    requires i < ENTCNT && j < ENTCNT
    ensures (i * ENTCNT + j) / ENTCNT == i && i * ENTCNT + j < ENTCNT * ENTCNT
  {}

  /** A directory whose tables are gone. */
  method FreeEmptyDirectory(m: Mmu, vm: VmMap, i: nat, ghost t: nat, ghost s0: St)
    requires m.Valid() && VmOk(s0, vm.View()) && i < |vm.pds|
    requires Freeing(s0, vm.View(), m.State(), Pos(i, t, 0), Pos(i, t, 0))
    modifies m.phys.bmp, m.kern.pte
    ensures m.Valid() && Freeing(s0, vm.View(), m.State(), Pos(i + 1, t, 0), Pos(i + 1, t, 0))
  {
    ghost var v, p, p' := vm.View(), Pos(i, t, 0), Pos(i + 1, t, 0);
    assert PageOf(v, Pd(i)) == Some(v.pds[i]) && FrameOf(s0, v, Pd(i)) == Some(v.physPds[i]);
    assert forall o :: Done(o, p') <==> Done(o, p) || o == Pd(i);
    DropPage(m, vm.pds[i], s0, v, p, p, Pd(i), p');
    DropFrame(m, vm.physPds[i], s0, v, p, p', Pd(i), p');
  }

  /** `mmu_destroy_vmmap`: gives back every frame and every kernel page of the address space, each exactly
      once and while it was in use, and nothing else. */
  method Destroy(m: Mmu, vm: VmMap)
    requires m.Valid() && VmOk(m.State(), vm.View()) && |vm.pds| == ENTCNT
    modifies m.phys.bmp, m.kern.pte
    ensures m.Valid() && m.State().mem == old(m.State()).mem
    ensures forall f :: f in m.State().used <==> f in old(m.State()).used && !Holds(old(m.State()), vm.View(), f)
    ensures forall q :: q in m.State().pages <==> q in old(m.State()).pages && !HoldsPage(vm.View(), q)
    ensures forall q :: q in m.State().pages ==> m.State().pages[q] == old(m.State()).pages[q]
  {
    ghost var s0, v := m.State(), vm.View();
    assert forall o :: PageOf(v, o).Some? ==> MappedOk(s0, v, o);
    for i := 0 to ENTCNT
      invariant m.Valid() && Freeing(s0, v, m.State(), Pos(i, i * ENTCNT, 0), Pos(i, i * ENTCNT, 0))
    {
      FreeDirectory(m, vm, i, s0);
    }
    FreeRoot(m, vm, s0);
  }

  /** The two upper tables, at the end. */
  method FreeRoot(m: Mmu, vm: VmMap, ghost s0: St)
    requires m.Valid() && VmOk(s0, vm.View()) && |vm.pds| == ENTCNT
    requires Freeing(s0, vm.View(), m.State(), Pos(ENTCNT, ENTCNT * ENTCNT, 0), Pos(ENTCNT, ENTCNT * ENTCNT, 0))
    modifies m.phys.bmp, m.kern.pte
    ensures m.Valid() && m.State().mem == s0.mem
    ensures forall f :: f in m.State().used <==> f in s0.used && !Holds(s0, vm.View(), f)
    ensures forall q :: q in m.State().pages <==> q in s0.pages && !HoldsPage(vm.View(), q)
    ensures forall q :: q in m.State().pages ==> m.State().pages[q] == s0.pages[q]
  {
    ghost var v, s, p := vm.View(), m.State(), Pos(ENTCNT, ENTCNT * ENTCNT, 0);
    assert PageOf(v, Pml4) == Some(v.pml4) && PageOf(v, Pdpt) == Some(v.pdpt) && v.pml4 != v.pdpt by {
      if v.pml4 == v.pdpt {
        PagesDistinct(s0, v, Pml4, Pdpt);
      }
    }
    assert FrameOf(s0, v, Pml4) == Some(v.pml4Phys) && FrameOf(s0, v, Pdpt) == Some(v.pdptPhys);
    RootLeft(s0, v, s);
    GiveBack(m, vm.pml4, vm.pdpt, vm.pml4Phys, vm.pdptPhys);
  }

  method GiveBack(m: Mmu, q1: nat, q2: nat, f1: nat, f2: nat)
    requires m.Valid() && q1 in m.State().pages && q2 in m.State().pages && q1 != q2
    requires f1 in m.State().used && f2 in m.State().used && f1 != f2
    modifies m.phys.bmp, m.kern.pte
    ensures m.Valid() && m.State().mem == old(m.State()).mem
    ensures m.State().used == old(m.State()).used - {f1} - {f2}
    ensures m.State().pages == old(m.State()).pages - {q1} - {q2}
  {
    m.FreePage(q1);
    m.FreePage(q2);
    m.FreeFrame(f1);
    m.FreeFrame(f2);
  }

  /** When only the upper tables are left, what else is in use was never the address space's. */
  lemma RootLeft(s0: St, v: Vm, s: St)
    requires VmOk(s0, v) && |v.pds| == ENTCNT
    requires Freeing(s0, v, s, Pos(ENTCNT, ENTCNT * ENTCNT, 0), Pos(ENTCNT, ENTCNT * ENTCNT, 0))
    ensures v.pml4Phys in s.used && v.pdptPhys in s.used && v.pml4Phys != v.pdptPhys
    ensures v.pml4 in s.pages && v.pdpt in s.pages
    ensures forall f :: f in s.used && f != v.pml4Phys && f != v.pdptPhys <==> f in s0.used && !Holds(s0, v, f)
    ensures forall q :: q in s.pages && q != v.pml4 && q != v.pdpt <==> q in s0.pages && !HoldsPage(v, q)
  {
    var p := Pos(ENTCNT, ENTCNT * ENTCNT, 0);
    assert FrameOf(s0, v, Pml4) == Some(v.pml4Phys) && FrameOf(s0, v, Pdpt) == Some(v.pdptPhys);
    assert PageOf(v, Pml4) == Some(v.pml4) && PageOf(v, Pdpt) == Some(v.pdpt);
    forall o | FrameOf(s0, v, o).Some? ensures Done(o, p) || o == Pml4 || o == Pdpt {
      if o.User? {
        assert Pte(s0, v, o.t, o.k) != 0;
      }
    }
    forall f ensures f in s.used && f != v.pml4Phys && f != v.pdptPhys <==> f in s0.used && !Holds(s0, v, f) {
      if Holds(s0, v, f) {
        var o :| FrameOf(s0, v, o) == Some(f);
      }
    }
    forall q ensures q in s.pages && q != v.pml4 && q != v.pdpt <==> q in s0.pages && !HoldsPage(v, q) {
      if HoldsPage(v, q) {
        var o :| PageOf(v, o) == Some(q);
        assert Done(o, p) || o == Pml4 || o == Pdpt;
      }
    }
  }

  // ---------------------------------------------------------------- whole runs

  /** A page wanted at `virt`: an address and the flags, present among them. */
  datatype Request = Request(virt: nat, flags: nat) {
    function Slot(): (nat, nat) { (TableOf(virt), SlotOf(virt)) }
  }

  /** A page of its own entered where there was none: the address space grows by just that. */
  lemma MappedGrows(s0: St, s: St, v: Vm, f: nat, s1: St, s2: St, v': Vm, t: nat, k: nat, e: nat)
    requires Wf(s0) && VmOk(s, v) && Grew(s0, s, v) && !UserPte(Pte(s, v, t, k)) && k < ENTCNT
    requires f !in s.used && f < P.FRAMES && UserPte(e) && e / FLAGS == f
    requires TableMade(St(s.used + {f}, s.pages, s.mem), v, s1, v', t) && EntrySet(s1, s2, v', t, k, e)
    requires VmOk(s2, v') && VmOk(St(s.used + {f}, s.pages, s.mem), v)
    ensures Grew(s0, s2, v')
  {
    assert FrameOf(s2, v', User(t, k)) == Some(f);
    assert Extends(s, v, s2, v') by { MappedExtends(s, v, f, s1, s2, v', t, k, e); }
    GrewMore(s0, s, v, s2, v');
  }

  lemma SameFrames(s: St, v: Vm, s': St)
    requires s'.pages == s.pages && s'.mem == s.mem
    ensures forall t: nat, k: nat :: Pte(s', v, t, k) == Pte(s, v, t, k)
    ensures forall o :: FrameOf(s', v, o) == FrameOf(s, v, o)
  {
    forall t: nat, k: nat ensures Pte(s', v, t, k) == Pte(s, v, t, k) {}
    forall o ensures FrameOf(s', v, o) == FrameOf(s, v, o) {}
  }

  lemma MappedExtends(s: St, v: Vm, f: nat, s1: St, s2: St, v': Vm, t: nat, k: nat, e: nat)
    requires VmOk(s, v) && !UserPte(Pte(s, v, t, k)) && k < ENTCNT
    requires f !in s.used && f < P.FRAMES && UserPte(e) && e / FLAGS == f
    requires TableMade(St(s.used + {f}, s.pages, s.mem), v, s1, v', t) && EntrySet(s1, s2, v', t, k, e)
    requires VmOk(s2, v') && VmOk(St(s.used + {f}, s.pages, s.mem), v)
    ensures Extends(s, v, s2, v')
  {
    SameFrames(s, v, St(s.used + {f}, s.pages, s.mem));
    assert FrameOf(s2, v', User(t, k)) == Some(f) && FrameOf(s2, v', Pt(t)) == FrameOf(s1, v', Pt(t));
    assert PageOf(v', Pt(t)) == v'.pts[t] && PageOf(v, Pt(t)) == v.pts[t];
    MappedKeeps(s, v, f, s1, s2, v', t, k, e);
  }

  lemma MappedKeeps(s: St, v: Vm, f: nat, s1: St, s2: St, v': Vm, t: nat, k: nat, e: nat)
    requires VmOk(s, v) && f !in s.used && f < P.FRAMES
    requires TableMade(St(s.used + {f}, s.pages, s.mem), v, s1, v', t) && EntrySet(s1, s2, v', t, k, e)
    ensures DataKept(s, v, s2)
  {
    assert FrameOf(St(s.used + {f}, s.pages, s.mem), v, Pml4) == FrameOf(s1, v', Pml4) == Some(v.pml4Phys);
    forall g | g in s.used && g < |s.mem| && !IsTable(s, v, g) ensures s2.mem[g] == s.mem[g] {
      TablesStay(s, v, f, s1, v', t, g);
    }
  }

  /** What was no page table before a table was made is none after. */
  lemma TablesStay(s: St, v: Vm, f: nat, s1: St, v': Vm, t: nat, g: nat)
    requires VmOk(s, v) && TableMade(St(s.used + {f}, s.pages, s.mem), v, s1, v', t) && g in s.used && !IsTable(s, v, g)
    ensures !IsTable(s1, v', g) && !IsTable(St(s.used + {f}, s.pages, s.mem), v, g)
  {
    var sf := St(s.used + {f}, s.pages, s.mem);
    forall o | PageOf(v, o).Some? ensures FrameOf(sf, v, o) != Some(g) {
      assert FrameOf(s, v, o) != Some(g);
    }
    forall o | PageOf(v', o).Some? ensures FrameOf(s1, v', o) != Some(g) {
      assert FrameOf(s, v, o) == FrameOf(sf, v, o);
    }
  }

  lemma TookFrame(s: St, v: Vm, f: nat)
    requires VmOk(s, v) && f < P.FRAMES && f !in s.used
    ensures VmOk(St(s.used + {f}, s.pages, s.mem), v) && !Holds(St(s.used + {f}, s.pages, s.mem), v, f)
  {
    var s' := St(s.used + {f}, s.pages, s.mem);
    forall o ensures KeptObj(s, s', v, o) {}
    VmStable(s, s', v);
  }

  /** `mmu_map(map, virt, mmu_alloc_phys(), flags)` where nothing is mapped yet. */
  method MapNew(m: Mmu, vm: VmMap, virt: nat, flags: nat, ghost s0: St) returns (ok: bool, f: nat)
    requires m.Valid() && Wf(s0) && VmOk(m.State(), vm.View()) && |vm.pds| == ENTCNT && Grew(s0, m.State(), vm.View())
    requires flags < FLAGS && flags % 2 == 1 && !UserPte(Pte(m.State(), vm.View(), TableOf(virt), SlotOf(virt)))
    modifies m`mem, m.phys.bmp, m.kern.dir, m.kern.pte, vm`pts
    ensures m.Valid() && (!ok ==> Exhausted(m.State()))
    ensures ok ==> VmOk(m.State(), vm.View()) && Grew(s0, m.State(), vm.View())
    ensures ok ==> f < P.FRAMES && f !in old(m.State()).used
    ensures ok ==> NewEntry(m.State(), vm.View(), TableOf(virt), SlotOf(virt), f, flags)
    ensures ok ==> MapsTo(old(m.State()).mem, vm.pml4Phys, m.State().mem, virt, f, flags)
    ensures ok ==> forall t: nat, k: nat :: (t, k) != (TableOf(virt), SlotOf(virt)) ==>
      Pte(m.State(), vm.View(), t, k) == old(Pte(m.State(), vm.View(), t, k))
  {
    ghost var s, v := m.State(), vm.View();
    ok, f := m.AllocFrame();
    if !ok { return; }
    TookFrame(s, v, f);
    ghost var s1, e;
    ok, s1, e := Map(m, vm, virt, f, flags);
    if ok {
      UserEntry(f, flags, e);
      MappedNew(s0, s, v, f, s1, m.State(), vm.View(), TableOf(virt), SlotOf(virt), e);
    }
  }

  /** The slot holds a user entry for the frame. */
  ghost predicate NewEntry(s: St, v: Vm, t: nat, k: nat, f: nat, flags: nat) {
    UserPte(Pte(s, v, t, k)) && EntryFor(Pte(s, v, t, k), f, flags)
  }

  lemma UserEntry(f: nat, flags: nat, e: nat)
    requires flags % 2 == 1 && EntryFor(e, f, flags)
    ensures UserPte(e) && e / FLAGS == f
  {
    Parity(e / 4, e % 4);
    Parity(flags / 4, flags % 4);
  }

  lemma Parity(a: nat, b: nat)
    ensures (4 * a + b) % 2 == b % 2
  {}

  /** A frame just taken belongs to nothing yet. */
  lemma FreshOwn(s: St, v: Vm, f: nat, t: nat, k: nat, e: nat)
    requires VmOk(s, v) && f < P.FRAMES && f !in s.used && e / FLAGS == f
    ensures var sf := St(s.used + {f}, s.pages, s.mem); VmOk(sf, v) && OwnFrame(sf, v, t, k, e)
  {
    TookFrame(s, v, f);
  }

  /** The address space with the frame entered. */
  lemma MappedNew(s0: St, s: St, v: Vm, f: nat, s1: St, s2: St, v': Vm, t: nat, k: nat, e: nat)
    requires Wf(s0) && VmOk(s, v) && Grew(s0, s, v) && !UserPte(Pte(s, v, t, k)) && k < ENTCNT
    requires f !in s.used && f < P.FRAMES && UserPte(e) && e / FLAGS == f
    requires TableMade(St(s.used + {f}, s.pages, s.mem), v, s1, v', t) && EntrySet(s1, s2, v', t, k, e)
    requires VmOk(s2, v') <==> OwnFrame(St(s.used + {f}, s.pages, s.mem), v, t, k, e)
    ensures VmOk(s2, v') && Grew(s0, s2, v') && Pte(s2, v', t, k) == e
    ensures forall t': nat, k': nat :: (t', k') != (t, k) ==> Pte(s2, v', t', k') == Pte(s, v, t', k')
  {
    FreshOwn(s, v, f, t, k, e);
    MappedGrows(s0, s, v, f, s1, s2, v', t, k, e);
    PtesFollow(s, v, f, s1, s2, v', t, k, e);
  }

  lemma PtesFollow(s: St, v: Vm, f: nat, s1: St, s2: St, v': Vm, t: nat, k: nat, e: nat)
    requires TableMade(St(s.used + {f}, s.pages, s.mem), v, s1, v', t) && EntrySet(s1, s2, v', t, k, e)
    ensures forall t': nat, k': nat :: (t', k') != (t, k) ==> Pte(s2, v', t', k') == Pte(s, v, t', k')
  {
    var sf := St(s.used + {f}, s.pages, s.mem);
    forall t': nat, k': nat | (t', k') != (t, k) ensures Pte(s2, v', t', k') == Pte(s, v, t', k') {
      assert Pte(s1, v', t', k') == Pte(sf, v, t', k') == Pte(s, v, t', k');
    }
  }

  /** Every run of a creation, any number of mappings at distinct addresses and a destruction leaves
      the frame bitmap and the kernel page tables with exactly the entries they had. */
  method CreateMapDestroy(m: Mmu, kpml4: Page, reqs: seq<Request>) returns (ok: bool)
    requires m.Valid() && forall i :: 0 <= i < |reqs| ==> reqs[i].flags < FLAGS && reqs[i].flags % 2 == 1
    requires forall i, j :: 0 <= i < j < |reqs| ==> reqs[i].Slot() != reqs[j].Slot()
    modifies m`mem, m.phys.bmp, m.kern.dir, m.kern.pte
    ensures m.Valid() && (!ok ==> Exhausted(m.State()))
    ensures ok ==> m.State().used == old(m.State()).used && m.State().pages == old(m.State()).pages
    ensures ok ==> forall f :: f in old(m.State()).used ==> m.State().mem[f] == old(m.State()).mem[f]
  {
    ghost var s0 := m.State();
    var vm;
    ok, vm := CreateAndMap(m, kpml4, reqs);
    if !ok { return; }
    GrewShrinks(s0, m.State(), vm.View());
    Destroy(m, vm);
  }

  method CreateAndMap(m: Mmu, kpml4: Page, reqs: seq<Request>) returns (ok: bool, vm: VmMap)
    requires m.Valid() && forall i :: 0 <= i < |reqs| ==> reqs[i].flags < FLAGS && reqs[i].flags % 2 == 1
    requires forall i, j :: 0 <= i < j < |reqs| ==> reqs[i].Slot() != reqs[j].Slot()
    modifies m`mem, m.phys.bmp, m.kern.dir, m.kern.pte
    ensures m.Valid() && fresh(vm) && (!ok ==> Exhausted(m.State()))
    ensures ok ==> VmOk(m.State(), vm.View()) && |vm.pds| == ENTCNT && Grew(old(m.State()), m.State(), vm.View())
  {
    ghost var s0 := m.State();
    ok, vm := Create(m, kpml4);
    if !ok { return; }
    ok := MapAll(m, vm, reqs, s0);
  }

  /** Mappings at distinct addresses, none of them mapped yet. */
  method MapAll(m: Mmu, vm: VmMap, reqs: seq<Request>, ghost s0: St) returns (ok: bool)
    requires m.Valid() && Wf(s0) && VmOk(m.State(), vm.View()) && |vm.pds| == ENTCNT && Grew(s0, m.State(), vm.View())
    requires forall i :: 0 <= i < |reqs| ==> reqs[i].flags < FLAGS && reqs[i].flags % 2 == 1
    requires forall i, j :: 0 <= i < j < |reqs| ==> reqs[i].Slot() != reqs[j].Slot()
    requires forall i :: 0 <= i < |reqs| ==> Pte(m.State(), vm.View(), reqs[i].Slot().0, reqs[i].Slot().1) == 0
    modifies m`mem, m.phys.bmp, m.kern.dir, m.kern.pte, vm`pts
    ensures m.Valid() && (!ok ==> Exhausted(m.State()))
    ensures ok ==> VmOk(m.State(), vm.View()) && Grew(s0, m.State(), vm.View())
  {
    ok := true;
    for n := 0 to |reqs|
      invariant ok && m.Valid() && VmOk(m.State(), vm.View()) && Grew(s0, m.State(), vm.View())
      invariant forall i :: n <= i < |reqs| ==> Pte(m.State(), vm.View(), reqs[i].Slot().0, reqs[i].Slot().1) == 0
    {
      var f;
      ok, f := MapNew(m, vm, reqs[n].virt, reqs[n].flags, s0);
      if !ok { return; }
    }
  }

  lemma GrewShrinks(s0: St, s: St, v: Vm)
    requires Wf(s0) && Grew(s0, s, v)
    ensures forall f :: f in s.used && !Holds(s, v, f) <==> f in s0.used
    ensures forall q :: q in s.pages && !HoldsPage(v, q) <==> q in s0.pages
  {}

  /** A cloned address space, destroyed, leaves no trace either. */
  method CloneThenDestroy(m: Mmu, kpml4: Page, src: VmMap) returns (ok: bool)
    requires m.Valid() && VmOk(m.State(), src.View()) && |src.pds| == ENTCNT
    modifies m`mem, m.phys.bmp, m.kern.dir, m.kern.pte
    ensures m.Valid() && (!ok ==> Exhausted(m.State()))
    ensures ok ==> m.State().used == old(m.State()).used && m.State().pages == old(m.State()).pages
  {
    ghost var s0 := m.State();
    var dst;
    ok, dst := Clone(m, kpml4, src);
    if ok {
      DestroyGrown(m, dst, s0);
    }
  }

  /** Destroying an address space made since `s0` takes everything back to there. */
  method DestroyGrown(m: Mmu, vm: VmMap, ghost s0: St)
    requires m.Valid() && Wf(s0) && VmOk(m.State(), vm.View()) && |vm.pds| == ENTCNT && Grew(s0, m.State(), vm.View())
    modifies m.phys.bmp, m.kern.pte
    ensures m.Valid() && m.State().used == s0.used && m.State().pages == s0.pages
  {
    GrewShrinks(s0, m.State(), vm.View());
    Destroy(m, vm);
  }

  /** Entering another frame over a user page: the old frame stays in use but belongs to the address space
      no longer, so that destroying it will not give the frame back, unless the entry names the same frame. */
  lemma RemapLeaks(s: St, s': St, v: Vm, t: nat, k: nat, e: nat)
    requires VmOk(s, v) && VmOk(s', v) && k < ENTCNT && EntrySet(s, s', v, t, k, e) && UserPte(Pte(s, v, t, k))
    ensures Pte(s, v, t, k) / FLAGS in s'.used
    ensures Holds(s', v, Pte(s, v, t, k) / FLAGS) <==> UserPte(e) && e / FLAGS == Pte(s, v, t, k) / FLAGS
  {
    var g := Pte(s, v, t, k) / FLAGS;
    assert FrameOf(s, v, User(t, k)) == Some(g);
    if UserPte(e) && e / FLAGS == g {
      assert FrameOf(s', v, User(t, k)) == Some(g);
    }
    forall o | FrameOf(s', v, o) == Some(g) ensures o == User(t, k) {
      assert o != User(t, k) ==> FrameOf(s, v, o) == FrameOf(s', v, o);
    }
  }
}
