/** What a user address space is made of: page tables that live in frames, reached through
    kernel pages, and the user frames their entries point to. */
module VmState {
  import opened Common
  import opened Paging
  import P = PhysMem
  import K = KernelPages

  const FLAGS := 0x1000

  type Page = s: seq<nat> | |s| == ENTCNT witness seq(ENTCNT, _ => 0)

  function ZeroPage(): (p: Page)
    ensures forall k :: 0 <= k < ENTCNT ==> p[k] == 0
  {
    seq(ENTCNT, _ => 0)
  }

  /** Machine state: frames in use, present kernel pages with their entries, frame contents. */
  datatype St = St(used: set<nat>, pages: map<nat, nat>, mem: seq<Page>)

  ghost predicate Wf(s: St) {
    && |s.mem| == P.FRAMES
    && (forall f :: f in s.used ==> f < P.FRAMES)
    && (forall q :: q in s.pages ==> q < K.PAGES)
  }

  /** `struct vm_map` without its list of areas.  Entry `i * 512 + j` of `pts` is `pts[i][j]`. */
  datatype Vm = Vm(pml4: nat, pml4Phys: nat, pdpt: nat, pdptPhys: nat,
                   pds: seq<nat>, physPds: seq<nat>, pts: seq<Option<nat>>)

  /** The objects an address space consists of. */
  datatype Obj = Pml4 | Pdpt | Pd(i: nat) | Pt(t: nat) | User(t: nat, k: nat)

  /** Word `k` of the page that kernel page `q` is mapped to. */
  function Word(s: St, q: nat, k: nat): nat {
    if q in s.pages && s.pages[q] / FLAGS < |s.mem| && k < ENTCNT then s.mem[s.pages[q] / FLAGS][k] else 0
  }

  /** The entry for slot `k` of table `t`, 0 when there is no such table. */
  function Pte(s: St, v: Vm, t: nat, k: nat): nat {
    if t < |v.pts| && v.pts[t].Some? then Word(s, v.pts[t].value, k) else 0
  }

  /** Present and user accessible. */
  predicate UserPte(e: nat) { e % 2 == 1 && e / 4 % 2 == 1 }

  /** The directory entry of table `t`. */
  function PdWord(s: St, v: Vm, t: nat): nat {
    if t / ENTCNT < |v.pds| then Word(s, v.pds[t / ENTCNT], t % ENTCNT) else 0
  }

  /** The kernel page through which an object is reached. */
  function PageOf(v: Vm, o: Obj): Option<nat> {
    match o
    case Pml4 => Some(v.pml4)
    case Pdpt => Some(v.pdpt)
    case Pd(i) => if i < |v.pds| then Some(v.pds[i]) else None
    case Pt(t) => if t < |v.pts| then v.pts[t] else None
    case User(_, _) => None
  }

  /** The frame an object occupies. */
  function FrameOf(s: St, v: Vm, o: Obj): Option<nat> {
    match o
    case Pml4 => Some(v.pml4Phys)
    case Pdpt => Some(v.pdptPhys)
    case Pd(i) => if i < |v.physPds| then Some(v.physPds[i]) else None
    case Pt(t) =>
      if t < |v.pts| && v.pts[t].Some? && v.pts[t].value in s.pages then Some(s.pages[v.pts[t].value] / FLAGS) else None
    case User(t, k) => if k < ENTCNT && UserPte(Pte(s, v, t, k)) then Some(Pte(s, v, t, k) / FLAGS) else None
  }

  /** What the directory says about table `t`. */
  ghost predicate DirectoryOk(s: St, v: Vm, t: nat)
    requires t < |v.pts|
  {
    PdWord(s, v, t) ==
    if v.pts[t].Some? && v.pts[t].value in s.pages then s.pages[v.pts[t].value] / FLAGS * FLAGS + 7 else 0
  }

  /** Object `o` is mapped read-write at its kernel page. */
  ghost predicate MappedOk(s: St, v: Vm, o: Obj) {
    PageOf(v, o).Some? ==>
      && PageOf(v, o).value in s.pages && FrameOf(s, v, o).Some?
      && s.pages[PageOf(v, o).value] == FrameOf(s, v, o).value * FLAGS + 3
  }

  /** The upper levels: the root points to the second level, which points to every directory. */
  ghost predicate RootOk(s: St, v: Vm) {
    && Word(s, v.pml4, 0) == v.pdptPhys * FLAGS + 7
    && forall i :: 0 <= i < |v.physPds| ==> Word(s, v.pdpt, i) == v.physPds[i] * FLAGS + 7
  }

  /** An address space in order: every object has a frame of its own, in use, and is reached
      through its kernel page; directory entries and tables agree. */
  ghost predicate VmOk(s: St, v: Vm) {
    && Wf(s) && |v.pds| == |v.physPds| <= ENTCNT && |v.pts| == ENTCNT * |v.pds| && RootOk(s, v)
    && (forall o :: MappedOk(s, v, o))
    && (forall o :: FrameOf(s, v, o).Some? ==> FrameOf(s, v, o).value in s.used)
    && (forall o, o' :: FrameOf(s, v, o).Some? && FrameOf(s, v, o) == FrameOf(s, v, o') ==> o == o')
    && (forall t :: 0 <= t < |v.pts| ==> DirectoryOk(s, v, t))
  }

  /** The part of this that the processor depends on: the levels are linked as the kernel's pointers say. */
  ghost predicate TablesOk(s: St, v: Vm) {
    && Wf(s) && |v.pds| == |v.physPds| <= ENTCNT && |v.pts| == ENTCNT * |v.pds| && RootOk(s, v)
    && (forall o :: MappedOk(s, v, o))
    && (forall t :: 0 <= t < |v.pts| ==> DirectoryOk(s, v, t))
  }

  /** Frame `f` belongs to the address space. */
  ghost predicate Holds(s: St, v: Vm, f: nat) { exists o :: FrameOf(s, v, o) == Some(f) }
  ghost predicate HoldsPage(v: Vm, q: nat) { exists o :: PageOf(v, o) == Some(q) }

  /** From `s` to `s'` object `o` keeps its kernel page, its frame and, if it is a table, the contents. */
  ghost predicate KeptObj(s: St, s': St, v: Vm, o: Obj) {
    && (forall q :: PageOf(v, o) == Some(q) && q in s.pages ==> q in s'.pages && s'.pages[q] == s.pages[q])
    && (forall f :: FrameOf(s, v, o) == Some(f) ==> f in s'.used)
    && (forall f ::
      FrameOf(s, v, o) == Some(f) && PageOf(v, o).Some? && f < |s.mem| && f < |s'.mem| ==> s'.mem[f] == s.mem[f])
  }

  /** Then the address space is kept. */
  lemma VmStable(s: St, s': St, v: Vm)
    requires VmOk(s, v) && Wf(s') && forall o :: KeptObj(s, s', v, o)
    ensures VmOk(s', v)
    ensures forall o :: FrameOf(s', v, o) == FrameOf(s, v, o)
    ensures forall t: nat, k: nat :: Pte(s', v, t, k) == Pte(s, v, t, k)
  {
    PtesStable(s, s', v);
    RootStable(s, s', v);
    forall o
      ensures FrameOf(s', v, o) == FrameOf(s, v, o) && MappedOk(s', v, o)
      ensures FrameOf(s', v, o).Some? ==> FrameOf(s', v, o).value in s'.used
    {
      assert MappedOk(s, v, o) && KeptObj(s, s', v, o);
    }
    forall t | 0 <= t < |v.pts| ensures DirectoryOk(s', v, t) {
      DirectoryStable(s, s', v, t);
    }
  }

  lemma PtesStable(s: St, s': St, v: Vm)
    requires VmOk(s, v) && Wf(s') && forall o :: KeptObj(s, s', v, o)
    ensures forall t: nat, k: nat :: Pte(s', v, t, k) == Pte(s, v, t, k)
  {
    forall t: nat, k: nat ensures Pte(s', v, t, k) == Pte(s, v, t, k) {
      assert MappedOk(s, v, Pt(t)) && KeptObj(s, s', v, Pt(t));
    }
  }

  lemma RootStable(s: St, s': St, v: Vm)
    requires VmOk(s, v) && Wf(s') && forall o :: KeptObj(s, s', v, o)
    ensures RootOk(s', v)
  {
    assert MappedOk(s, v, Pml4) && KeptObj(s, s', v, Pml4) && PageOf(v, Pml4).Some?;
    assert MappedOk(s, v, Pdpt) && KeptObj(s, s', v, Pdpt) && PageOf(v, Pdpt).Some?;
  }

  lemma DirectoryStable(s: St, s': St, v: Vm, t: nat)
    requires VmOk(s, v) && Wf(s') && t < |v.pts| && forall o :: KeptObj(s, s', v, o)
    ensures DirectoryOk(s', v, t)
  {
    assert DirectoryOk(s, v, t) && MappedOk(s, v, Pd(t / ENTCNT)) && MappedOk(s, v, Pt(t));
    assert KeptObj(s, s', v, Pd(t / ENTCNT)) && KeptObj(s, s', v, Pt(t));
    assert PageOf(v, Pd(t / ENTCNT)).Some?;
  }

  function SetWordIn(mem: seq<Page>, f: nat, k: nat, e: nat): seq<Page>
    requires f < |mem| && k < ENTCNT
  {
    mem[f := mem[f][k := e]]
  }

  function WithTable(v: Vm, t: nat, q: nat): Vm
    requires t < |v.pts|
  {
    Vm(v.pml4, v.pml4Phys, v.pdpt, v.pdptPhys, v.pds, v.physPds, v.pts[t := Some(q)])
  }

  /** The state after `mktable` has given table `t` kernel page `q` and frame `f`. */
  function TableState(s: St, v: Vm, t: nat, q: nat, f: nat): St
    requires Wf(s) && t / ENTCNT < |v.physPds| && f < P.FRAMES && v.physPds[t / ENTCNT] < P.FRAMES
  {
    St(s.used + {f}, s.pages[q := f * FLAGS + 3],
       SetWordIn(s.mem[f := ZeroPage()], v.physPds[t / ENTCNT], t % ENTCNT, f * FLAGS + 7))
  }

  lemma AddTable(s: St, v: Vm, t: nat, q: nat, f: nat)
    requires VmOk(s, v) && t < |v.pts| && v.pts[t] == None
    requires q !in s.pages && q < K.PAGES && f !in s.used && f < P.FRAMES
    ensures v.physPds[t / ENTCNT] < P.FRAMES
    ensures var s', v' := TableState(s, v, t, q, f), WithTable(v, t, q);
      && VmOk(s', v')
      && (forall o :: FrameOf(s', v', o) == if o == Pt(t) then Some(f) else FrameOf(s, v, o))
      && (forall o :: PageOf(v', o) == if o == Pt(t) then Some(q) else PageOf(v, o))
      && (forall t': nat, k: nat :: Pte(s', v', t', k) == Pte(s, v, t', k))
  {
    var i := t / ENTCNT;
    assert MappedOk(s, v, Pd(i)) && FrameOf(s, v, Pd(i)) == Some(v.physPds[i]);
    var s', v' := TableState(s, v, t, q, f), WithTable(v, t, q);
    forall o ensures PageOf(v', o) == if o == Pt(t) then Some(q) else PageOf(v, o) {}
    TablePtes(s, v, t, q, f);
    forall o
      ensures FrameOf(s', v', o) == if o == Pt(t) then Some(f) else FrameOf(s, v, o)
      ensures MappedOk(s', v', o)
    {
      assert MappedOk(s, v, o);
    }
    TableDirectory(s, v, t, q, f);
    assert RootOk(s', v') by {
      assert MappedOk(s, v, Pml4) && MappedOk(s, v, Pdpt);
      assert FrameOf(s, v, Pml4) != FrameOf(s, v, Pd(i)) && FrameOf(s, v, Pdpt) != FrameOf(s, v, Pd(i));
    }
  }

  lemma TablePtes(s: St, v: Vm, t: nat, q: nat, f: nat)
    requires VmOk(s, v) && t < |v.pts| && v.pts[t] == None && v.physPds[t / ENTCNT] < P.FRAMES
    requires q !in s.pages && q < K.PAGES && f !in s.used && f < P.FRAMES
    ensures forall t': nat, k: nat ::
      Pte(TableState(s, v, t, q, f), WithTable(v, t, q), t', k) == Pte(s, v, t', k)
  {
    var i, s', v' := t / ENTCNT, TableState(s, v, t, q, f), WithTable(v, t, q);
    assert FrameOf(s, v, Pd(i)) == Some(v.physPds[i]);
    forall t': nat, k: nat ensures Pte(s', v', t', k) == Pte(s, v, t', k) {
      assert MappedOk(s, v, Pt(t'));
      assert FrameOf(s, v, Pt(t')) != FrameOf(s, v, Pd(i));
    }
  }

  lemma TableDirectory(s: St, v: Vm, t: nat, q: nat, f: nat)
    requires VmOk(s, v) && t < |v.pts| && v.pts[t] == None && v.physPds[t / ENTCNT] < P.FRAMES
    requires q !in s.pages && q < K.PAGES && f !in s.used && f < P.FRAMES
    ensures forall t' {:trigger WithTable(v, t, q).pts[t']} :: 0 <= t' < |v.pts| ==>
      DirectoryOk(TableState(s, v, t, q, f), WithTable(v, t, q), t')
  {
    var i, s', v' := t / ENTCNT, TableState(s, v, t, q, f), WithTable(v, t, q);
    forall t' | 0 <= t' < |v.pts| ensures DirectoryOk(s', v', t') {
      var i' := t' / ENTCNT;
      assert DirectoryOk(s, v, t') && MappedOk(s, v, Pd(i')) && MappedOk(s, v, Pt(t')) && MappedOk(s, v, Pd(i));
      assert FrameOf(s, v, Pd(i')) == Some(v.physPds[i']) && FrameOf(s, v, Pd(i)) == Some(v.physPds[i]);
      assert t' == i' * ENTCNT + t' % ENTCNT && t == i * ENTCNT + t % ENTCNT;
    }
  }

  /** The state after storing `e` in slot `k` of the table at frame `tf`. */
  function EntryState(s: St, tf: nat, k: nat, e: nat): St
    requires tf < |s.mem| && k < ENTCNT
  {
    St(s.used, s.pages, SetWordIn(s.mem, tf, k, e))
  }

  /** The root table has the same entries. */
  ghost predicate RootKept(s: St, v: Vm, s': St) {
    |s'.mem| == |s.mem| && (v.pml4Phys < |s.mem| ==> s'.mem[v.pml4Phys] == s.mem[v.pml4Phys])
  }

  /** A user entry `e` for slot `k` of table `t` names a frame in use that nothing else of the address space has. */
  ghost predicate OwnFrame(s: St, v: Vm, t: nat, k: nat, e: nat) {
    UserPte(e) ==> e / FLAGS in s.used && forall o :: o != User(t, k) ==> FrameOf(s, v, o) != Some(e / FLAGS)
  }

  /** Storing an entry changes that entry only, and keeps the address space in order exactly when the frame is its
      own. */
  lemma SetEntry(s: St, v: Vm, t: nat, k: nat, e: nat)
    requires VmOk(s, v) && t < |v.pts| && v.pts[t].Some? && k < ENTCNT
    ensures FrameOf(s, v, Pt(t)).Some? && FrameOf(s, v, Pt(t)).value < |s.mem|
    ensures var s' := EntryState(s, FrameOf(s, v, Pt(t)).value, k, e);
      && TablesOk(s', v) && RootKept(s, v, s')
      && (VmOk(s', v) <==> OwnFrame(s, v, t, k, e))
      && (forall t': nat, k': nat :: Pte(s', v, t', k') == if t' == t && k' == k then e else Pte(s, v, t', k'))
      && (forall o :: FrameOf(s', v, o) ==
            if o == User(t, k) then (if UserPte(e) then Some(e / FLAGS) else None) else FrameOf(s, v, o))
  {
    assert MappedOk(s, v, Pt(t));
    var tf := FrameOf(s, v, Pt(t)).value;
    var s' := EntryState(s, tf, k, e);
    forall t': nat, k': nat ensures Pte(s', v, t', k') == if t' == t && k' == k then e else Pte(s, v, t', k') {
      assert MappedOk(s, v, Pt(t'));
      assert t' != t ==> FrameOf(s, v, Pt(t')) != Some(tf);
    }
    forall o
      ensures FrameOf(s', v, o) ==
        if o == User(t, k) then (if UserPte(e) then Some(e / FLAGS) else None) else FrameOf(s, v, o)
      ensures MappedOk(s', v, o)
    {
      assert MappedOk(s, v, o);
    }
    forall t' | 0 <= t' < |v.pts| ensures DirectoryOk(s', v, t') {
      var i := t' / ENTCNT;
      assert DirectoryOk(s, v, t') && MappedOk(s, v, Pd(i)) && MappedOk(s, v, Pt(t'));
      assert FrameOf(s, v, Pd(i)) == Some(v.physPds[i]) != Some(tf);
    }
    assert RootOk(s', v) by {
      assert MappedOk(s, v, Pml4) && MappedOk(s, v, Pdpt);
      assert FrameOf(s, v, Pml4) != Some(tf) && FrameOf(s, v, Pdpt) != Some(tf);
    }
    assert UserPte(e) ==> FrameOf(s', v, User(t, k)) == Some(e / FLAGS);
    if !OwnFrame(s, v, t, k, e) && e / FLAGS in s.used {
      var o :| o != User(t, k) && FrameOf(s, v, o) == Some(e / FLAGS);
      assert FrameOf(s', v, o) == FrameOf(s', v, User(t, k));
    }
  }

  /** `512` tables that do not exist yet. */
  function NoTables(): (r: seq<Option<nat>>)
    ensures |r| == ENTCNT && forall j :: 0 <= j < ENTCNT ==> r[j] == None
  {
    seq(ENTCNT, _ => None)
  }

  function WithDirectory(v: Vm, q: nat, f: nat): Vm {
    Vm(v.pml4, v.pml4Phys, v.pdpt, v.pdptPhys, v.pds + [q], v.physPds + [f], v.pts + NoTables())
  }

  /** The state after the next directory got kernel page `q` and frame `f`. */
  function DirectoryState(s: St, v: Vm, q: nat, f: nat): St
    requires Wf(s) && |v.pds| < ENTCNT && f < P.FRAMES && v.pdptPhys < P.FRAMES
  {
    St(s.used + {f}, s.pages[q := f * FLAGS + 3],
       SetWordIn(s.mem[f := ZeroPage()], v.pdptPhys, |v.pds|, f * FLAGS + 7))
  }

  lemma AddDirectory(s: St, v: Vm, q: nat, f: nat)
    requires VmOk(s, v) && |v.pds| < ENTCNT
    requires q !in s.pages && q < K.PAGES && f !in s.used && f < P.FRAMES
    ensures v.pdptPhys < P.FRAMES
    ensures var s', v' := DirectoryState(s, v, q, f), WithDirectory(v, q, f);
      && VmOk(s', v')
      && (forall o :: FrameOf(s', v', o) == if o == Pd(|v.pds|) then Some(f) else FrameOf(s, v, o))
      && (forall o :: PageOf(v', o) == if o == Pd(|v.pds|) then Some(q) else PageOf(v, o))
      && (forall t: nat, k: nat :: Pte(s', v', t, k) == Pte(s, v, t, k))
  {
    assert FrameOf(s, v, Pdpt) == Some(v.pdptPhys) && MappedOk(s, v, Pdpt) && MappedOk(s, v, Pml4);
    var n, s', v' := |v.pds|, DirectoryState(s, v, q, f), WithDirectory(v, q, f);
    forall o ensures PageOf(v', o) == if o == Pd(n) then Some(q) else PageOf(v, o) {}
    forall t: nat, k: nat ensures Pte(s', v', t, k) == Pte(s, v, t, k) {
      assert MappedOk(s, v, Pt(t));
      assert FrameOf(s, v, Pt(t)) != FrameOf(s, v, Pdpt);
    }
    forall o
      ensures FrameOf(s', v', o) == if o == Pd(n) then Some(f) else FrameOf(s, v, o)
      ensures MappedOk(s', v', o)
    {
      assert MappedOk(s, v, o);
    }
    assert RootOk(s', v') by {
      assert FrameOf(s, v, Pml4) != FrameOf(s, v, Pdpt);
    }
    DirectoryDirectory(s, v, q, f);
  }

  lemma DirectoryDirectory(s: St, v: Vm, q: nat, f: nat)
    requires VmOk(s, v) && |v.pds| < ENTCNT && v.pdptPhys < P.FRAMES
    requires q !in s.pages && q < K.PAGES && f !in s.used && f < P.FRAMES
    ensures forall t {:trigger WithDirectory(v, q, f).pts[t]} :: 0 <= t < |v.pts| + ENTCNT ==>
      DirectoryOk(DirectoryState(s, v, q, f), WithDirectory(v, q, f), t)
  {
    var s', v' := DirectoryState(s, v, q, f), WithDirectory(v, q, f);
    assert FrameOf(s, v, Pdpt) == Some(v.pdptPhys);
    forall t | 0 <= t < |v'.pts| ensures DirectoryOk(s', v', t) {
      if t < |v.pts| {
        var i := t / ENTCNT;
        assert DirectoryOk(s, v, t) && MappedOk(s, v, Pd(i)) && MappedOk(s, v, Pt(t));
        assert FrameOf(s, v, Pd(i)) == Some(v.physPds[i]) != FrameOf(s, v, Pdpt);
      } else {
        assert t / ENTCNT == |v.pds|;
      }
    }
  }

  /** The translation the processor performs: four levels of tables, read from physical memory. */
  function Walk(mem: seq<Page>, root: nat, virt: nat): nat {
    var e1 := Load(mem, root, virt / 0x80_0000_0000 % ENTCNT);
    var e2 := Load(mem, e1, virt / 0x4000_0000 % ENTCNT);
    var e3 := Load(mem, e2, virt / 0x20_0000 % ENTCNT);
    Load(mem, e3, virt / 0x1000 % ENTCNT)
  }

  /** The same from the frame of the root. */
  function Translated(mem: seq<Page>, pml4: nat, virt: nat): nat { Walk(mem, pml4 * FLAGS + 3, virt) }

  /** The entry at index `k` of the table that `e` points to, 0 when `e` is not present. */
  function Load(mem: seq<Page>, e: nat, k: nat): nat
    requires k < ENTCNT
  {
    if e % 2 == 1 && e / FLAGS < |mem| then mem[e / FLAGS][k] else 0
  }

  /** The kernel's pointers and the tables in memory tell the same story: the processor finds
      at `virt` the entry that the kernel keeps for it. */
  lemma WalkAgrees(s: St, v: Vm, virt: nat)
    requires TablesOk(s, v) && |v.pds| == ENTCNT && virt < 0x80_0000_0000
    ensures Walk(s.mem, v.pml4Phys * FLAGS + 3, virt)
         == Pte(s, v, virt / 0x4000_0000 % ENTCNT * ENTCNT + virt / 0x20_0000 % ENTCNT, virt / 0x1000 % ENTCNT)
  {
    var i, j := virt / 0x4000_0000 % ENTCNT, virt / 0x20_0000 % ENTCNT;
    var t := i * ENTCNT + j;
    assert t / ENTCNT == i && t % ENTCNT == j;
    assert DirectoryOk(s, v, t);
    LoadWord(s, v, Pml4, 3, 0);
    LoadWord(s, v, Pdpt, 7, i);
    LoadWord(s, v, Pd(i), 7, j);
    if v.pts[t].Some? {
      LoadWord(s, v, Pt(t), 7, virt / 0x1000 % ENTCNT);
    }
  }

  /** The levels above the last are present, writable and open to users, so that the last one alone decides. */
  lemma UpperRights(s: St, v: Vm, virt: nat)
    requires TablesOk(s, v) && |v.pds| == ENTCNT && virt < LOWER
    ensures var e1 := Load(s.mem, v.pml4Phys * FLAGS + 3, virt / 0x80_0000_0000 % ENTCNT);
      var e2 := Load(s.mem, e1, virt / 0x4000_0000 % ENTCNT);
      var e3 := Load(s.mem, e2, virt / 0x20_0000 % ENTCNT);
      e1 % 8 == 7 && e2 % 8 == 7 && (e3 == 0 || e3 % 8 == 7)
  {
    var i, j := virt / 0x4000_0000 % ENTCNT, virt / 0x20_0000 % ENTCNT;
    var t := i * ENTCNT + j;
    assert t / ENTCNT == i && t % ENTCNT == j;
    assert DirectoryOk(s, v, t);
    LoadWord(s, v, Pml4, 3, 0);
    LoadWord(s, v, Pdpt, 7, i);
    LoadWord(s, v, Pd(i), 7, j);
    LowBits(v.pdptPhys);
    LowBits(v.physPds[i]);
    if v.pts[t].Some? && v.pts[t].value in s.pages {
      LowBits(s.pages[v.pts[t].value] / FLAGS);
    }
  }

  lemma LowBits(f: nat)
    ensures (f * FLAGS + 7) % 8 == 7
  {}

  lemma LoadWord(s: St, v: Vm, o: Obj, flags: nat, k: nat)
    requires TablesOk(s, v) && PageOf(v, o).Some? && flags < FLAGS && flags % 2 == 1 && k < ENTCNT
    ensures PageOf(v, o).value in s.pages && FrameOf(s, v, o).Some?
    ensures s.pages[PageOf(v, o).value] == FrameOf(s, v, o).value * FLAGS + 3
    ensures Load(s.mem, FrameOf(s, v, o).value * FLAGS + flags, k) == Word(s, PageOf(v, o).value, k)
  {
    assert MappedOk(s, v, o);
    Pointer(FrameOf(s, v, o).value, flags);
    Pointer(FrameOf(s, v, o).value, 3);
  }

  lemma Pointer(f: nat, flags: nat)
    requires flags < FLAGS
    ensures (f * FLAGS + flags) / FLAGS == f && (f * FLAGS + flags) % 2 == flags % 2
  {}
}
