/** Waiting for child tasks: `waitpid`, and the exit, stop and continue of the children that end a wait. Tasks have
    one thread each; every step is atomic. */
module TaskWait {
  import opened Common

  /** The process every orphan goes to. */
  const INIT := 1

  datatype TaskState = RUNNING | STOPPED | DEAD
  datatype Thread = Running | Ready | Blocked | Dead

  /** Where a task is in the wait calls: in `wait_any_child` or `wait_child` behind `thread_block`, or neither. */
  datatype Phase = Normal | InAny | InChild(pid: nat)

  datatype Task = Task(parent: nat, children: seq<nat>, state: TaskState, wasStop: bool, status: int, waiting: int,
                       thread: Thread, phase: Phase)

  datatype W = W(tasks: map<nat, Task>, queue: seq<nat>)

  /** A state change of a child that was seen by `has_child_changed`. */
  datatype Report = Report(pid: nat, state: TaskState)

  /** What a wait call leaves behind: the new state, its result and what it saw. */
  datatype Out = Out(w: W, ret: nat, reports: seq<Report>)

  // ---------------------------------------------------------------- pending changes

  /** The child has changed and nobody has been told. */
  predicate Pending(t: Task) {
    t.state.DEAD? || (t.state.STOPPED? && !t.wasStop) || (t.state.RUNNING? && t.wasStop)
  }

  /** The change of a living child has been told. */
  function Told(t: Task): (r: Task)
    ensures !t.state.DEAD? ==> !Pending(r)
    ensures r == t.(wasStop := r.wasStop)
  {
    if t.state.STOPPED? then t.(wasStop := true) else if t.state.RUNNING? then t.(wasStop := false) else t
  }

  /** Index of the first child with a pending change, or the number of children. */
  function FirstPending(tasks: map<nat, Task>, cs: seq<nat>): (i: nat)
    ensures i <= |cs| && (i < |cs| ==> cs[i] in tasks && Pending(tasks[cs[i]]))
    ensures forall j :: 0 <= j < i ==> !(cs[j] in tasks && Pending(tasks[cs[j]]))
  {
    if cs == [] || (cs[0] in tasks && Pending(tasks[cs[0]])) then 0 else 1 + FirstPending(tasks, cs[1..])
  }

  function Without(cs: seq<nat>, k: nat): (r: seq<nat>)
    ensures forall j :: j in r ==> j in cs
    ensures forall j :: j in cs && j != k ==> j in r
  {
    if cs == [] then [] else if cs[0] == k then cs[1..] else [cs[0]] + Without(cs[1..], k)
  }

  lemma {:induction false} WithoutNoDup(cs: seq<nat>, k: nat)
    requires NoDup(cs)
    ensures NoDup(Without(cs, k)) && k !in Without(cs, k)
  {
    if cs != [] && cs[0] != k {
      WithoutNoDup(cs[1..], k);
      assert cs[0] !in cs[1..];
    }
  }

  // ---------------------------------------------------------------- the steps

  /** A change of `k` is told: a dead child is removed, a living one marked. */
  function Reported(w: W, k: nat): W
    requires k in w.tasks
  {
    if !w.tasks[k].state.DEAD? then W(w.tasks[k := Told(w.tasks[k])], w.queue)
    else
      var p := w.tasks[k].parent;
      var tasks := if p in w.tasks then w.tasks[p := w.tasks[p].(children := Without(w.tasks[p].children, k))]
        else w.tasks;
      W(tasks - {k}, w.queue)
  }

  /** The scan of the children in `wait_any_child`. */
  function Scan(w: W, p: nat): Out
    requires p in w.tasks
  {
    var i := FirstPending(w.tasks, w.tasks[p].children);
    if i == |w.tasks[p].children| then Out(w, 0, [])
    else
      var k := w.tasks[p].children[i];
      Out(Reported(w, k), k, [Report(k, w.tasks[k].state)])
  }

  function Asleep(w: W, p: nat, waiting: int, phase: Phase): W
    requires p in w.tasks
  {
    W(w.tasks[p := w.tasks[p].(waiting := waiting, thread := Blocked, phase := phase)], w.queue)
  }

  /** `task_change`: the parent is unblocked if it waits for this child or for any. */
  function Changed(w: W, k: nat, st: TaskState, status: int): W
    requires k in w.tasks
  {
    var t := w.tasks[k].(state := st, status := status);
    var tasks := w.tasks[k := t];
    if t.parent in tasks && (tasks[t.parent].waiting == k || tasks[t.parent].waiting == -1) then
      W(tasks[t.parent := tasks[t.parent].(waiting := 0, thread := Ready)], w.queue + [t.parent])
    else W(tasks, w.queue)
  }

  function Place(w: W, p: nat, thread: Thread): W
    requires p in w.tasks
  {
    W(w.tasks[p := w.tasks[p].(thread := thread)], w.queue)
  }

  datatype Op =
    | Dispatch
    | Yield(p: nat)
    | Fork(p: nat, k: nat)
    | Stop(p: nat, status: int)
    | Continue(p: nat)
    | Exit(p: nat, status: int)
    | WaitAny(p: nat, nohang: bool)
    | WaitChild(p: nat, k: nat, nohang: bool)
    | Resume(p: nat)

  /** Task `p` executes code of its own, outside the wait calls. */
  predicate Active(w: W, p: nat) {
    p in w.tasks && w.tasks[p].thread.Running? && w.tasks[p].phase.Normal?
  }

  predicate HasParent(w: W, p: nat) {
    p in w.tasks && w.tasks[p].parent in w.tasks
  }

  predicate Enabled(w: W, op: Op) {
    match op
    case Dispatch => w.queue != []
    case Yield(p) => p in w.tasks && w.tasks[p].thread.Running?
    case Fork(p, k) => Active(w, p) && k !in w.tasks && k > 0
    case Stop(p, _) => HasParent(w, p) && w.queue != [] && w.queue[0] == p
    case Continue(p) => HasParent(w, p) && w.tasks[p].state.STOPPED?
    case Exit(p, _) => Active(w, p) && HasParent(w, p) && p != INIT && (w.tasks[p].children == [] || INIT in w.tasks)
    case WaitAny(p, _) => Active(w, p)
    case WaitChild(p, k, _) => Active(w, p) && k in w.tasks
    case Resume(p) => p in w.tasks && w.tasks[p].thread.Running? && !w.tasks[p].phase.Normal?
  }

  /** The exception: a process that exits with children leaves orphans. */
  predicate Orderly(w: W, op: Op) {
    op.Exit? && op.p in w.tasks ==> w.tasks[op.p].children == []
  }

  /** The children go to the list of init; what they call their parent stays. */
  function Orphaned(w: W, p: nat): W
    requires p in w.tasks && (w.tasks[p].children == [] || INIT in w.tasks)
  {
    var tasks := Adopted(w.tasks, w.tasks[p].children);
    W(tasks[p := tasks[p].(children := [])], w.queue)
  }

  function Adopted(tasks: map<nat, Task>, cs: seq<nat>): (r: map<nat, Task>)
    requires cs == [] || INIT in tasks
    ensures r.Keys == tasks.Keys
  {
    if cs == [] then tasks else tasks[INIT := tasks[INIT].(children := tasks[INIT].children + cs)]
  }

  lemma AdoptedMore(tasks: map<nat, Task>, cs: seq<nat>, i: nat)
    requires INIT in tasks && i < |cs|
    ensures var t := Adopted(tasks, cs[..i]);
      Adopted(tasks, cs[..i + 1]) == t[INIT := t[INIT].(children := t[INIT].children + [cs[i]])]
  {
    var t := Adopted(tasks, cs[..i]);
    assert cs[..i + 1] == cs[..i] + [cs[i]];
    Assoc(tasks[INIT].children, cs[..i], [cs[i]]);
    assert t[INIT] == tasks[INIT].(children := tasks[INIT].children + cs[..i]);
    assert Adopted(tasks, cs[..i + 1])[INIT] == t[INIT].(children := t[INIT].children + [cs[i]]);
  }

  /** The first half of `wait_any_child`, up to `thread_block`. */
  function AnyWaited(w: W, p: nat, nohang: bool): Out
    requires p in w.tasks
  {
    var o := Scan(w, p);
    if o.ret != 0 || nohang then o else Out(Asleep(w, p, -1, InAny), 0, [])
  }

  /** The first half of `wait_child`, up to `thread_block`. */
  function ChildWaited(w: W, p: nat, k: nat, nohang: bool): Out
    requires p in w.tasks && k in w.tasks
  {
    if Pending(w.tasks[k]) then Out(Reported(w, k), k, [Report(k, w.tasks[k].state)])
    else if nohang then Out(w, 0, [])
    else Out(Asleep(w, p, k, InChild(k)), 0, [])
  }

  /** The second half of both: `wait_any_child` scans again, `wait_child` returns the child without looking. */
  function Resumed(w: W, p: nat): Out
    requires p in w.tasks && !w.tasks[p].phase.Normal?
  {
    var phase := w.tasks[p].phase;
    var v := W(w.tasks[p := w.tasks[p].(waiting := 0, phase := Normal)], w.queue);
    if phase.InAny? then Scan(v, p) else Out(v, phase.pid, [])
  }

  function Step(w: W, op: Op): Out
    requires Enabled(w, op) && Known(w)
  {
    match op
    case Dispatch => Out(Place(W(w.tasks, w.queue[1..]), w.queue[0], Running), 0, [])
    case Yield(p) => Out(Place(W(w.tasks, w.queue + [p]), p, Ready), 0, [])
    case Fork(p, k) =>
      var child := Task(p, [], RUNNING, false, 0, 0, Ready, Normal);
      Out(W(w.tasks[k := child][p := w.tasks[p].(children := w.tasks[p].children + [k])], w.queue + [k]), 0, [])
    case Stop(p, status) => Out(Changed(W(w.tasks, w.queue[1..]), p, STOPPED, status), 0, [])
    case Continue(p) =>
      var v := Changed(w, p, RUNNING, 0xffff);
      Out(Place(W(v.tasks, v.queue + [p]), p, Ready), 0, [])
    case Exit(p, status) => Out(Changed(Place(Orphaned(w, p), p, Dead), p, DEAD, status), 0, [])
    case WaitAny(p, nohang) => AnyWaited(w, p, nohang)
    case WaitChild(p, k, nohang) => ChildWaited(w, p, k, nohang)
    case Resume(p) => Resumed(w, p)
  }

  // ---------------------------------------------------------------- the invariant

  predicate Known(w: W) {
    forall p :: p in w.queue ==> p in w.tasks
  }

  /** Children and parents point at each other. */
  ghost predicate Kin(w: W, p: nat) {
    p in w.tasks ==>
    && p > 0 && NoDup(w.tasks[p].children)
    && (forall k :: k in w.tasks[p].children ==> k in w.tasks && w.tasks[k].parent == p && k != p)
    && (w.tasks[p].parent == 0 || (w.tasks[p].parent in w.tasks && p in w.tasks[w.tasks[p].parent].children))
    && (w.tasks[p].state.DEAD? ==> w.tasks[p].children == [])
  }

  /** The thread is where its task's state says: dead, parked by a stop, or running, queued or blocked. */
  ghost predicate Threaded(w: W, p: nat) {
    p in w.tasks ==>
    var t := w.tasks[p];
    && (t.state.DEAD? <==> t.thread.Dead?)
    && (t.state.STOPPED? ==> t.thread.Ready?)
    && (p in w.queue <==> t.thread.Ready? && !t.state.STOPPED?)
    && (t.thread.Dead? ==> t.phase.Normal?)
  }

  /** A waiting task is blocked inside the wait call it made. */
  ghost predicate Waits(w: W, p: nat) {
    p in w.tasks ==>
    var t := w.tasks[p];
    && (t.waiting != 0 <==> t.thread.Blocked?)
    && (t.waiting != 0 ==>
          t.phase == (if t.waiting == -1 then InAny else if t.waiting > 0 then InChild(t.waiting) else Normal))
    && (t.waiting != 0 ==> !t.phase.Normal?)
  }

  /** If `p` waits for its child `k`, then `k` has no untold change. */
  ghost predicate Quiet(w: W, p: nat, k: nat) {
    p in w.tasks && k in w.tasks[p].children && k in w.tasks ==>
      (w.tasks[p].waiting == -1 || w.tasks[p].waiting == k ==> !Pending(w.tasks[k]))
  }

  ghost predicate Inv(w: W) {
    && Known(w) && NoDup(w.queue)
    && (forall p :: Kin(w, p))
    && (forall p :: Threaded(w, p))
    && (forall p :: Waits(w, p))
    && (forall p, k :: Quiet(w, p, k))
  }

  // ---------------------------------------------------------------- every step keeps the invariant

  /** `w'` differs from `w` in nothing the family tree or the waits depend on. */
  ghost predicate SameFamily(w: W, w': W) {
    && w'.tasks.Keys == w.tasks.Keys
    && (forall p :: SameKin(w, w', p))
  }

  ghost predicate SameKin(w: W, w': W, p: nat)
    requires w'.tasks.Keys == w.tasks.Keys
  {
    p in w.tasks ==>
      && w'.tasks[p].parent == w.tasks[p].parent && w'.tasks[p].children == w.tasks[p].children
      && w'.tasks[p].state == w.tasks[p].state
  }

  lemma FamilyKin(w: W, w': W)
    requires SameFamily(w, w') && forall p :: Kin(w, p)
    ensures forall p :: Kin(w', p)
  {
    forall p ensures Kin(w', p) {
      assert Kin(w, p) && SameKin(w, w', p);
      if p in w.tasks {
        assert SameKin(w, w', w.tasks[p].parent);
        assert forall k :: k in w.tasks[p].children ==> SameKin(w, w', k);
      }
    }
  }

  lemma DispatchKeeps(w: W)
    requires Inv(w) && w.queue != []
    ensures Inv(Step(w, Dispatch).w)
  {
    var r := Step(w, Dispatch).w;
    assert w.queue[0] in w.queue && w.queue[0] !in r.queue && w.queue == [w.queue[0]] + r.queue;
    FamilyKin(w, r);
    forall p ensures Threaded(r, p) {
      assert Threaded(w, p);
    }
    forall p ensures Waits(r, p) {
      assert Waits(w, p) && Threaded(w, p);
    }
    forall p, j ensures Quiet(r, p, j) {
      assert Quiet(w, p, j);
    }
  }

  lemma YieldKeeps(w: W, p: nat)
    requires Inv(w) && Enabled(w, Yield(p))
    ensures Inv(Step(w, Yield(p)).w)
  {
    var r := Step(w, Yield(p)).w;
    assert Threaded(w, p);
    FamilyKin(w, r);
    assert r.queue[|w.queue|] == p;
    forall q ensures Threaded(r, q) {
      assert Threaded(w, q);
    }
    forall q ensures Waits(r, q) {
      assert Waits(w, q);
    }
    forall q, j ensures Quiet(r, q, j) {
      assert Quiet(w, q, j);
    }
  }

  lemma ForkKeeps(w: W, p: nat, k: nat)
    requires Inv(w) && Enabled(w, Fork(p, k))
    ensures Inv(Step(w, Fork(p, k)).w)
  {
    var r := Step(w, Fork(p, k)).w;
    assert r.queue[|w.queue|] == k;
    assert Kin(w, p) && Threaded(w, p) && Waits(w, p);
    assert r.tasks[p].children[|w.tasks[p].children|] == k;
    forall q ensures Kin(r, q) {
      if q != k {
        assert Kin(w, q);
      }
    }
    forall q ensures Threaded(r, q) {
      if q != k {
        assert Threaded(w, q);
      }
    }
    forall q ensures Waits(r, q) {
      if q != k {
        assert Waits(w, q) && Kin(w, q);
      }
    }
    forall q, j ensures Quiet(r, q, j) {
      assert Quiet(w, q, j);
    }
  }

  /** What is known while `k` is being changed: everything but where its own thread is. */
  ghost predicate InvBut(w: W, k: nat) {
    && k in w.tasks && Known(w) && NoDup(w.queue)
    && (forall p :: Kin(w, p))
    && (forall p :: p != k ==> Threaded(w, p))
    && (forall p :: p != k ==> Waits(w, p))
    && (forall p, j :: Quiet(w, p, j))
    && w.tasks[k].waiting == 0 && !w.tasks[k].thread.Blocked? && k !in w.queue
  }

  lemma ChangedKin(w: W, k: nat, st: TaskState, status: int)
    requires (forall p :: Kin(w, p)) && HasParent(w, k) && (st.DEAD? ==> w.tasks[k].children == [])
    ensures forall p :: Kin(Changed(w, k, st, status), p)
  {
    var r := Changed(w, k, st, status);
    forall q ensures Kin(r, q) {
      assert Kin(w, q);
    }
  }

  /** `task_change` clears the wait of the parent, so whatever change it makes is never missed. */
  lemma ChangedKeeps(w: W, k: nat, st: TaskState, status: int)
    requires InvBut(w, k) && HasParent(w, k) && (st.DEAD? ==> w.tasks[k].children == [])
    ensures InvBut(Changed(w, k, st, status), k)
    ensures Changed(w, k, st, status).tasks[k] == w.tasks[k].(state := st, status := status)
  {
    var r, par := Changed(w, k, st, status), w.tasks[k].parent;
    assert Kin(w, k) && Kin(w, par) && Threaded(w, par) && Waits(w, par);
    assert par != k;
    ChangedKin(w, k, st, status);
    if r.queue != w.queue {
      assert r.queue[|w.queue|] == par;
    }
    forall q | q != k ensures Threaded(r, q) {
      assert Threaded(w, q);
    }
    forall q | q != k ensures Waits(r, q) {
      assert Waits(w, q) && Kin(w, q);
    }
    forall q, j ensures Quiet(r, q, j) {
      assert Quiet(w, q, j) && Kin(w, j) && Kin(w, q);
    }
  }

  lemma StopKeeps(w: W, p: nat, status: int)
    requires Inv(w) && Enabled(w, Stop(p, status))
    ensures Inv(Step(w, Stop(p, status)).w)
  {
    var v := W(w.tasks, w.queue[1..]);
    assert p in w.queue && p !in v.queue && w.queue == [p] + v.queue;
    assert Threaded(w, p) && Waits(w, p);
    forall q | q != p ensures Threaded(v, q) && Waits(v, q) {
      assert Threaded(w, q) && Waits(w, q);
    }
    forall q, j ensures Quiet(v, q, j) {
      assert Quiet(w, q, j);
    }
    FamilyKin(w, v);
    ChangedKeeps(v, p, STOPPED, status);
    Settled(Changed(v, p, STOPPED, status), p);
  }

  /** The changed task joins the invariant once its own thread is in place. */
  lemma Settled(w: W, k: nat)
    requires InvBut(w, k) && Threaded(w, k)
    ensures Inv(w)
  {
    assert Waits(w, k);
  }

  lemma ContinueKeeps(w: W, p: nat)
    requires Inv(w) && Enabled(w, Continue(p))
    ensures Inv(Step(w, Continue(p)).w)
  {
    assert Threaded(w, p) && Waits(w, p);
    ChangedKeeps(w, p, RUNNING, 0xffff);
    var v := Changed(w, p, RUNNING, 0xffff);
    QueuedKeeps(v, p);
  }

  lemma QueuedKeeps(v: W, p: nat)
    requires InvBut(v, p) && v.tasks[p].state.RUNNING?
    ensures Inv(Place(W(v.tasks, v.queue + [p]), p, Ready))
  {
    var r := Place(W(v.tasks, v.queue + [p]), p, Ready);
    assert r.queue[|v.queue|] == p;
    FamilyKin(v, r);
    forall q ensures Threaded(r, q) {
      assert q != p ==> Threaded(v, q);
    }
    forall q ensures Waits(r, q) {
      assert q != p ==> Waits(v, q);
    }
    forall q, j ensures Quiet(r, q, j) {
      assert Quiet(v, q, j);
    }
  }

  lemma ExitKeeps(w: W, p: nat, status: int)
    requires Inv(w) && Enabled(w, Exit(p, status)) && w.tasks[p].children == []
    ensures Inv(Step(w, Exit(p, status)).w)
  {
    assert Threaded(w, p) && Waits(w, p);
    assert Orphaned(w, p).tasks == w.tasks;
    var v := Place(w, p, Dead);
    FamilyKin(w, v);
    forall q | q != p ensures Threaded(v, q) && Waits(v, q) {
      assert Threaded(w, q) && Waits(w, q);
    }
    forall q, j ensures Quiet(v, q, j) {
      assert Quiet(w, q, j);
    }
    ChangedKeeps(v, p, DEAD, status);
    Settled(Changed(v, p, DEAD, status), p);
  }

  lemma DeletedKin(w: W, k: nat)
    requires (forall p :: Kin(w, p)) && k in w.tasks && w.tasks[k].state.DEAD?
    ensures forall p :: Kin(Reported(w, k), p)
  {
    var r, p := Reported(w, k), w.tasks[k].parent;
    assert Kin(w, k) && Kin(w, p);
    if p in w.tasks {
      WithoutNoDup(w.tasks[p].children, k);
    }
    forall q ensures Kin(r, q) {
      assert Kin(w, q);
    }
  }

  lemma ReportedKeeps(w: W, k: nat)
    requires Inv(w) && k in w.tasks
    ensures Inv(Reported(w, k))
  {
    var r := Reported(w, k);
    assert Kin(w, k) && Threaded(w, k);
    if w.tasks[k].state.DEAD? {
      DeletedKin(w, k);
    } else {
      FamilyKin(w, r);
    }
    forall q ensures Threaded(r, q) {
      assert Threaded(w, q);
    }
    forall q ensures Waits(r, q) {
      assert Waits(w, q);
    }
    forall q, j ensures Quiet(r, q, j) {
      assert Quiet(w, q, j);
    }
  }

  lemma AsleepKeeps(w: W, p: nat, waiting: int, phase: Phase)
    requires Inv(w) && Active(w, p)
    requires (waiting == -1 && phase.InAny?) || (waiting > 0 && phase == InChild(waiting))
    requires forall k ::
      k in w.tasks[p].children && k in w.tasks && (waiting == -1 || waiting == k) ==> !Pending(w.tasks[k])
    ensures Inv(Asleep(w, p, waiting, phase))
  {
    var r := Asleep(w, p, waiting, phase);
    FamilyKin(w, r);
    forall q ensures Threaded(r, q) {
      assert Threaded(w, q);
    }
    forall q ensures Waits(r, q) {
      assert Waits(w, q);
    }
    forall q, j ensures Quiet(r, q, j) {
      assert Quiet(w, q, j);
    }
  }

  lemma ScanKeeps(w: W, p: nat)
    requires Inv(w) && p in w.tasks
    ensures Inv(Scan(w, p).w)
    ensures Scan(w, p).ret == 0 <==> forall k :: k in w.tasks[p].children && k in w.tasks ==> !Pending(w.tasks[k])
    ensures Scan(w, p).ret == 0 ==> Scan(w, p).w == w
  {
    assert Kin(w, p);
    var i := FirstPending(w.tasks, w.tasks[p].children);
    if i < |w.tasks[p].children| {
      var k := w.tasks[p].children[i];
      assert k in w.tasks[p].children;
      assert Kin(w, k);
      ReportedKeeps(w, k);
    }
  }

  /** The wait is over and the call goes on. */
  lemma AwakeKeeps(w: W, p: nat)
    requires Inv(w) && Enabled(w, Resume(p))
    ensures Inv(W(w.tasks[p := w.tasks[p].(waiting := 0, phase := Normal)], w.queue))
  {
    var v := W(w.tasks[p := w.tasks[p].(waiting := 0, phase := Normal)], w.queue);
    FamilyKin(w, v);
    forall q ensures Threaded(v, q) {
      assert Threaded(w, q);
    }
    forall q ensures Waits(v, q) {
      assert Waits(w, q);
    }
    forall q, j ensures Quiet(v, q, j) {
      assert Quiet(w, q, j) && Kin(w, j);
    }
  }

  /** Every step keeps: a task that waits is blocked and not queued, nothing it waits for has an untold change, and
      no task is queued twice. */
  lemma StepKeeps(w: W, op: Op)
    requires Inv(w) && Enabled(w, op)
    ensures Inv(Step(w, op).w) <==> Orderly(w, op)
  {
    match op
    case Dispatch => DispatchKeeps(w);
    case Yield(p) => YieldKeeps(w, p);
    case Fork(p, k) => ForkKeeps(w, p, k);
    case Stop(p, status) => StopKeeps(w, p, status);
    case Continue(p) => ContinueKeeps(w, p);
    case Exit(p, status) => ExitKeepsExactly(w, p, status);
    case WaitAny(p, nohang) =>
      ScanKeeps(w, p);
      if Scan(w, p).ret == 0 && !nohang {
        AsleepKeeps(w, p, -1, InAny);
      }
    case WaitChild(p, k, nohang) =>
      assert Kin(w, k);
      if Pending(w.tasks[k]) {
        ReportedKeeps(w, k);
      } else if !nohang {
        AsleepKeeps(w, p, k, InChild(k));
      }
    case Resume(p) =>
      AwakeKeeps(w, p);
      ScanKeeps(W(w.tasks[p := w.tasks[p].(waiting := 0, phase := Normal)], w.queue), p);
  }

  /** An exit keeps all that exactly when the process has no children: orphans are in the list of init but call
      another process their parent. */
  lemma ExitKeepsExactly(w: W, p: nat, status: int)
    requires Inv(w) && Enabled(w, Exit(p, status))
    ensures Inv(Step(w, Exit(p, status)).w) <==> w.tasks[p].children == []
  {
    if w.tasks[p].children == [] {
      ExitKeeps(w, p, status);
    } else {
      var r, k := Step(w, Exit(p, status)).w, w.tasks[p].children[0];
      assert k in w.tasks[p].children && Kin(w, p) && Kin(w, k);
      assert r.tasks[k].parent == p;
      assert r.tasks[INIT].children[|w.tasks[INIT].children|] == k;
      assert !Kin(r, INIT);
    }
  }

  /** What that costs: init sleeps in a wait for any child, `p` exits and leaves it the orphan `k`, and `k` exits; init
      sleeps on although a dead child is in its list, since `task_change` looks at the old parent only. */
  lemma OrphanDeathMissed(w: W, p: nat, k: nat, status: int, status': int)
    requires Inv(w) && Enabled(w, Exit(p, status)) && w.tasks[p].parent != INIT
    requires INIT in w.tasks && w.tasks[INIT].waiting == -1
    requires k in w.tasks[p].children && Active(w, k) && w.tasks[k].children == []
    ensures var v := Step(w, Exit(p, status)).w;
      && Known(v) && Enabled(v, Exit(k, status'))
      && var r := Step(v, Exit(k, status')).w;
        && INIT in r.tasks && r.tasks[INIT].waiting == -1 && r.tasks[INIT].thread.Blocked? && INIT !in r.queue
        && k in r.tasks[INIT].children && k in r.tasks && r.tasks[k].state.DEAD?
  {
    assert Kin(w, p) && Kin(w, k) && Kin(w, INIT) && Waits(w, INIT) && Threaded(w, INIT) && Waits(w, p)
      && Threaded(w, p);
    var q := w.tasks[p].parent;
    var u := Orphaned(w, p);
    assert u.tasks[INIT].children == w.tasks[INIT].children + w.tasks[p].children;
    var v := Step(w, Exit(p, status)).w;
    assert v.queue == w.queue || v.queue == w.queue + [q];
    assert v.tasks[INIT] == u.tasks[INIT] && v.tasks[p].waiting == 0 && v.tasks[k] == w.tasks[k];
  }

  /** `task_change` puts the parent in the queue exactly when it waits for this child or for any, then only once, and
      its wait is over. */
  lemma WokenOnce(w: W, k: nat, st: TaskState, status: int)
    requires Inv(w) && HasParent(w, k)
    ensures var par, r := w.tasks[k].parent, Changed(w, k, st, status);
      && (r.queue == w.queue + [par] <==> w.tasks[par].waiting == k || w.tasks[par].waiting == -1)
      && (r.queue == w.queue || r.queue == w.queue + [par])
      && (r.queue != w.queue ==> par !in w.queue && r.tasks[par].waiting == 0)
  {
    var par := w.tasks[k].parent;
    assert Kin(w, k) && Kin(w, par) && Threaded(w, par) && Waits(w, par);
  }

  // ---------------------------------------------------------------- runs and what they report

  ghost predicate Legal(w: W, ops: seq<Op>)
    requires Inv(w)
    decreases |ops|
  {
    ops == [] || (Enabled(w, ops[0]) && Orderly(w, ops[0])
      && (StepKeeps(w, ops[0]); Legal(Step(w, ops[0]).w, ops[1..])))
  }

  /** Everything `has_child_changed` tells during a run. */
  ghost function Reports(w: W, ops: seq<Op>): seq<Report>
    requires Inv(w) && Legal(w, ops)
    decreases |ops|
  {
    if ops == [] then [] else (StepKeeps(w, ops[0]); Step(w, ops[0]).reports + Reports(Step(w, ops[0]).w, ops[1..]))
  }

  /** The last thing told of `k` is that it stopped. */
  predicate LastStop(log: seq<Report>, k: nat) {
    log != [] &&
    var r := log[|log| - 1];
    if r.pid == k then r.state.STOPPED? else LastStop(log[..|log| - 1], k)
  }

  /** A stop is only told of a child not known to be stopped, a continuation only of one that is. */
  predicate Alternating(log: seq<Report>) {
    log == [] ||
    var r, before := log[|log| - 1], log[..|log| - 1];
    Alternating(before) && (r.state.STOPPED? ==> !LastStop(before, r.pid))
      && (r.state.RUNNING? ==> LastStop(before, r.pid))
  }

  /** `was_stop` is what has been told so far. */
  ghost predicate Recorded(w: W, log: seq<Report>) {
    forall k :: RecordedAt(w, log, k)
  }

  ghost predicate RecordedAt(w: W, log: seq<Report>, k: nat) {
    LastStop(log, k) == Stopped(w, k)
  }

  function Stopped(w: W, k: nat): bool {
    k in w.tasks && w.tasks[k].wasStop
  }

  lemma ReportedTells(w: W, k: nat, ret: nat)
    requires Inv(w) && k in w.tasks && Pending(w.tasks[k])
    ensures Tells(w, Out(Reported(w, k), ret, [Report(k, w.tasks[k].state)]), k)
  {
    assert Kin(w, k);
    var r := Reported(w, k);
    forall j | j != k ensures Stopped(r, j) == Stopped(w, j) {}
  }

  lemma ScanTells(w: W, p: nat)
    requires Inv(w) && p in w.tasks && Scan(w, p).reports != []
    ensures exists k :: Tells(w, Scan(w, p), k)
  {
    ReportedTells(w, Scan(w, p).reports[0].pid, Scan(w, p).ret);
  }

  lemma ResumedTells(w: W, p: nat)
    requires Inv(w) && Enabled(w, Resume(p)) && Step(w, Resume(p)).reports != []
    ensures exists k :: Tells(w, Step(w, Resume(p)), k)
  {
    var v := W(w.tasks[p := w.tasks[p].(waiting := 0, phase := Normal)], w.queue);
    AwakeKeeps(w, p);
    ScanTells(v, p);
    var k :| Tells(v, Scan(v, p), k);
    forall j ensures Stopped(v, j) == Stopped(w, j) {}
    assert Tells(w, Scan(v, p), k);
  }

  /** The calls that tell nothing leave `was_stop` alone; one that tells something tells a pending change. */
  lemma StepReports(w: W, op: Op)
    requires Inv(w) && Enabled(w, op)
    ensures var o := Step(w, op);
      if o.reports == [] then forall k :: Stopped(o.w, k) == Stopped(w, k) else exists k :: Tells(w, o, k)
  {
    var o := Step(w, op);
    if o.reports == [] {
      forall k ensures Stopped(o.w, k) == Stopped(w, k) {}
    } else {
      match op
      case WaitAny(p, _) => ScanTells(w, p);
      case WaitChild(p, k, _) => ReportedTells(w, k, k);
      case Resume(p) => ResumedTells(w, p);
    }
  }

  ghost predicate Tells(w: W, o: Out, k: nat) {
    && k in w.tasks && Pending(w.tasks[k]) && o.reports == [Report(k, w.tasks[k].state)]
    && (forall j :: j != k ==> Stopped(o.w, j) == Stopped(w, j))
    && Stopped(o.w, k) == w.tasks[k].state.STOPPED?
  }

  lemma StepRecords(w: W, op: Op, log: seq<Report>)
    requires Inv(w) && Enabled(w, op) && Recorded(w, log) && Alternating(log)
    ensures Recorded(Step(w, op).w, log + Step(w, op).reports) && Alternating(log + Step(w, op).reports)
  {
    var o := Step(w, op);
    StepReports(w, op);
    if o.reports == [] {
      assert log + o.reports == log;
      SilentRecords(w, o.w, log);
    } else {
      var k :| Tells(w, o, k);
      TellingRecords(w, o, k, log);
    }
  }

  lemma SilentRecords(w: W, w': W, log: seq<Report>)
    requires Recorded(w, log) && forall k :: Stopped(w', k) == Stopped(w, k)
    ensures Recorded(w', log)
  {
    forall j ensures RecordedAt(w', log, j) {
      assert RecordedAt(w, log, j);
    }
  }

  lemma TellingRecords(w: W, o: Out, k: nat, log: seq<Report>)
    requires Recorded(w, log) && Alternating(log) && Tells(w, o, k)
    ensures Recorded(o.w, log + o.reports) && Alternating(log + o.reports)
  {
    var log' := log + o.reports;
    assert log'[..|log'| - 1] == log;
    assert RecordedAt(w, log, k);
    forall j ensures RecordedAt(o.w, log', j) {
      assert RecordedAt(w, log, j);
    }
  }

  /** Over every run the stops and continuations told of a child strictly alternate, starting with a stop. */
  lemma {:induction false} ReportsAlternate(w: W, ops: seq<Op>, log: seq<Report>)
    requires Inv(w) && Legal(w, ops) && Recorded(w, log) && Alternating(log)
    ensures Alternating(log + Reports(w, ops))
    decreases |ops|
  {
    if ops == [] {
      assert log + [] == log;
    } else {
      var o := Step(w, ops[0]);
      StepKeeps(w, ops[0]);
      StepRecords(w, ops[0], log);
      ReportsAlternate(o.w, ops[1..], log + o.reports);
      Assoc(log, o.reports, Reports(o.w, ops[1..]));
    }
  }

  /** What alternating means for two reports of a child with none of it in between: a stop is followed by a
      continuation, and a continuation only follows a stop. */
  lemma {:induction false} NeighboursDiffer(log: seq<Report>, i: nat, j: nat)
    requires Alternating(log) && i < j < |log| && log[i].pid == log[j].pid && !log[j].state.DEAD?
    requires forall m :: i < m < j ==> log[m].pid != log[i].pid
    ensures log[i].state.STOPPED? == log[j].state.RUNNING?
    decreases |log|
  {
    var before := log[..|log| - 1];
    if j < |log| - 1 {
      NeighboursDiffer(before, i, j);
    } else {
      LastStopAt(before, i);
    }
  }

  lemma {:induction false} LastStopAt(log: seq<Report>, i: nat)
    requires i < |log| && forall m :: i < m < |log| ==> log[m].pid != log[i].pid
    ensures LastStop(log, log[i].pid) == log[i].state.STOPPED?
    decreases |log|
  {
    if i < |log| - 1 {
      LastStopAt(log[..|log| - 1], i);
    }
  }

  // ---------------------------------------------------------------- what each call does

  /** Some child of `p` has changed and `p` has not been told. */
  ghost predicate SomePending(w: W, p: nat)
    requires p in w.tasks
  {
    exists k :: k in w.tasks[p].children && k in w.tasks && Pending(w.tasks[k])
  }

  /** `k` is the first of them in the list. */
  ghost predicate FirstOfPending(w: W, p: nat, k: nat)
    requires p in w.tasks
  {
    exists i :: 0 <= i < |w.tasks[p].children| && w.tasks[p].children[i] == k && k in w.tasks && Pending(w.tasks[k])
      && forall j :: 0 <= j < i ==> w.tasks[p].children[j] in w.tasks ==> !Pending(w.tasks[w.tasks[p].children[j]])
  }

  /** From `w` to `r` only this happened: a living `k` has nothing to tell any more, or a dead one is gone. */
  ghost predicate OnlyTold(w: W, r: W, k: nat)
    requires k in w.tasks
  {
    && r.queue == w.queue
    && if w.tasks[k].state.DEAD? then
        && r.tasks.Keys == w.tasks.Keys - {k}
        && forall q :: q in r.tasks ==>
            && r.tasks[q] == w.tasks[q].(children := r.tasks[q].children)
            && forall j :: j in r.tasks[q].children <==> j in w.tasks[q].children && j != k
      else
        && r.tasks.Keys == w.tasks.Keys && (forall q :: q in w.tasks && q != k ==> r.tasks[q] == w.tasks[q])
        && r.tasks[k] == w.tasks[k].(wasStop := w.tasks[k].state.STOPPED?)
  }

  /** From `w` to `r` only this happened: `p` sleeps, waiting for `waiting`. */
  ghost predicate OnlySleeps(w: W, r: W, p: nat, waiting: int)
    requires p in w.tasks
  {
    && r.queue == w.queue && r.tasks.Keys == w.tasks.Keys
    && (forall q :: q in w.tasks && q != p ==> r.tasks[q] == w.tasks[q])
    && r.tasks[p].thread.Blocked? && r.tasks[p].waiting == waiting
    && r.tasks[p] == w.tasks[p].(thread := r.tasks[p].thread, waiting := waiting, phase := r.tasks[p].phase)
  }

  lemma ReportedTold(w: W, k: nat)
    requires Inv(w) && k in w.tasks
    ensures OnlyTold(w, Reported(w, k), k)
  {
    assert Kin(w, k);
    if w.tasks[k].state.DEAD? {
      var r := Reported(w, k);
      forall q | q in r.tasks
        ensures r.tasks[q] == w.tasks[q].(children := r.tasks[q].children)
        ensures forall j :: j in r.tasks[q].children <==> j in w.tasks[q].children && j != k
      {
        assert Kin(w, q);
        if q == w.tasks[k].parent {
          WithoutNoDup(w.tasks[q].children, k);
        }
      }
    }
  }

  lemma ScanTold(w: W, p: nat)
    requires Inv(w) && p in w.tasks
    ensures var o := Scan(w, p);
      if SomePending(w, p) then FirstOfPending(w, p, o.ret) && o.ret > 0 && OnlyTold(w, o.w, o.ret)
      else o.w == w && o.ret == 0
  {
    var cs := w.tasks[p].children;
    var i := FirstPending(w.tasks, cs);
    assert Kin(w, p);
    if i < |cs| {
      assert cs[i] in cs && Kin(w, cs[i]);
      ReportedTold(w, cs[i]);
    } else {
      forall k | k in cs && k in w.tasks ensures !Pending(w.tasks[k]) {
        var j :| 0 <= j < |cs| && cs[j] == k;
      }
    }
  }

  /** `waitpid(-1)`: the first child with something to tell is told; with none the caller blocks, unless it asked not
      to, which returns 0 and changes nothing. */
  lemma WaitAnyExactly(w: W, p: nat, nohang: bool)
    requires Inv(w) && Active(w, p)
    ensures var o := Step(w, WaitAny(p, nohang));
      if SomePending(w, p) then FirstOfPending(w, p, o.ret) && o.ret > 0 && OnlyTold(w, o.w, o.ret)
      else if nohang then o.w == w && o.ret == 0
      else OnlySleeps(w, o.w, p, -1) && o.ret == 0
  {
    ScanTold(w, p);
  }

  /** So the caller is blocked exactly when it did not forbid it and nothing is pending. */
  lemma WaitAnyBlocks(w: W, p: nat, nohang: bool)
    requires Inv(w) && Active(w, p)
    ensures var r := Step(w, WaitAny(p, nohang)).w;
      p in r.tasks && (r.tasks[p].thread.Blocked? <==> !nohang && !SomePending(w, p))
  {
    WaitAnyExactly(w, p, nohang);
    assert Kin(w, p) && Threaded(w, p);
    if SomePending(w, p) {
      assert Step(w, WaitAny(p, nohang)).ret in w.tasks[p].children;
    }
  }

  /** `waitpid` for `k`. */
  lemma WaitChildExactly(w: W, p: nat, k: nat, nohang: bool)
    requires Inv(w) && Active(w, p) && k in w.tasks
    ensures var o := Step(w, WaitChild(p, k, nohang));
      if Pending(w.tasks[k]) then o.ret == k && OnlyTold(w, o.w, k)
      else if nohang then o.w == w && o.ret == 0
      else OnlySleeps(w, o.w, p, k) && o.ret == 0
    ensures var r := Step(w, WaitChild(p, k, nohang)).w;
      p in r.tasks && (r.tasks[p].thread.Blocked? <==> !nohang && !Pending(w.tasks[k]))
  {
    assert Threaded(w, p);
    ReportedTold(w, k);
  }

  /** `waitpid(-1)` behind the block: the same scan, and the wait is over. */
  lemma ResumeAnyExactly(w: W, p: nat)
    requires Inv(w) && Enabled(w, Resume(p)) && w.tasks[p].phase.InAny?
    ensures var o, v := Step(w, Resume(p)), W(w.tasks[p := w.tasks[p].(waiting := 0, phase := Normal)], w.queue);
      if SomePending(w, p) then FirstOfPending(w, p, o.ret) && o.ret > 0 && OnlyTold(v, o.w, o.ret)
      else o.w == v && o.ret == 0
  {
    var v := W(w.tasks[p := w.tasks[p].(waiting := 0, phase := Normal)], w.queue);
    AwakeKeeps(w, p);
    ScanTold(v, p);
    forall k | k in w.tasks ensures Pending(v.tasks[k]) == Pending(w.tasks[k]) {}
    assert v.tasks[p].children == w.tasks[p].children;
    if SomePending(w, p) {
      var k :| k in w.tasks[p].children && k in w.tasks && Pending(w.tasks[k]);
      assert SomePending(v, p);
      assert FirstOfPending(v, p, Step(w, Resume(p)).ret);
    }
  }

  /** From `w` to `r` task `p` gets this state and status, and nobody else gets another. */
  ghost predicate StateSet(w: W, r: W, p: nat, st: TaskState, status: int) {
    && r.tasks.Keys == w.tasks.Keys && p in r.tasks && r.tasks[p].state == st && r.tasks[p].status == status
    && (forall q :: q in w.tasks && q != p ==>
          r.tasks[q].state == w.tasks[q].state && r.tasks[q].status == w.tasks[q].status)
  }

  /** The three changes: a stop and an exit give the status passed, a continuation 0xffff; an exit ends the thread. */
  lemma ChangesState(w: W, op: Op)
    requires Inv(w) && Enabled(w, op)
    ensures op.Stop? ==> StateSet(w, Step(w, op).w, op.p, STOPPED, op.status)
    ensures op.Continue? ==> StateSet(w, Step(w, op).w, op.p, RUNNING, 0xffff)
    ensures op.Exit? ==> StateSet(w, Step(w, op).w, op.p, DEAD, op.status) && Step(w, op).w.tasks[op.p].thread.Dead?
  {
    match op
    case Stop(p, status) =>
      assert Kin(w, p) && Kin(w, w.tasks[p].parent);
      ChangedState(W(w.tasks, w.queue[1..]), p, STOPPED, status);
    case Continue(p) =>
      assert Kin(w, p) && Kin(w, w.tasks[p].parent);
      ChangedState(w, p, RUNNING, 0xffff);
    case Exit(p, status) =>
      ExitState(w, p, status);
    case _ =>
  }

  lemma ExitState(w: W, p: nat, status: int)
    requires Inv(w) && Enabled(w, Exit(p, status))
    ensures var r := Step(w, Exit(p, status)).w; StateSet(w, r, p, DEAD, status) && r.tasks[p].thread.Dead?
  {
    assert Kin(w, p) && Kin(w, w.tasks[p].parent);
    ChangedState(Place(Orphaned(w, p), p, Dead), p, DEAD, status);
  }

  lemma ChangedState(w: W, k: nat, st: TaskState, status: int)
    requires HasParent(w, k) && w.tasks[k].parent != k
    ensures var r := Changed(w, k, st, status);
      && r.tasks.Keys == w.tasks.Keys && r.tasks[k] == w.tasks[k].(state := st, status := status)
      && (forall q :: q in w.tasks && q != k ==>
            r.tasks[q].state == w.tasks[q].state && r.tasks[q].status == w.tasks[q].status)
  {}

  ghost function After(w: W, ops: seq<Op>): (r: W)
    requires Inv(w) && Legal(w, ops)
    ensures Inv(r)
    decreases |ops|
  {
    if ops == [] then w else (StepKeeps(w, ops[0]); After(Step(w, ops[0]).w, ops[1..]))
  }

  /** A dead task stays dead with its status until its death is told. */
  lemma DeadStep(w: W, op: Op, k: nat)
    requires Inv(w) && Enabled(w, op) && k in w.tasks && w.tasks[k].state.DEAD?
    requires Report(k, TaskState.DEAD) !in Step(w, op).reports
    ensures var r := Step(w, op).w;
      k in r.tasks && r.tasks[k].state.DEAD? && r.tasks[k].status == w.tasks[k].status
  {
    assert Threaded(w, k);
    match op
    case Dispatch =>
    case Yield(_) =>
    case Fork(_, _) =>
    case Stop(_, _) => ChangesState(w, op);
    case Continue(_) => ChangesState(w, op);
    case Exit(_, _) => ChangesState(w, op);
    case WaitAny(p, nohang) => WaitAnyExactly(w, p, nohang);
    case WaitChild(p, j, nohang) => WaitChildExactly(w, p, j, nohang);
    case Resume(p) =>
      if w.tasks[p].phase.InAny? {
        ResumeAnyExactly(w, p);
      }
  }

  /** So whatever happens before, the status there to collect is the one given to the exit. */
  lemma {:induction false} StatusLasts(w: W, ops: seq<Op>, k: nat)
    requires Inv(w) && Legal(w, ops) && k in w.tasks && w.tasks[k].state.DEAD?
    requires Report(k, TaskState.DEAD) !in Reports(w, ops)
    ensures var r := After(w, ops); k in r.tasks && r.tasks[k].state.DEAD? && r.tasks[k].status == w.tasks[k].status
    decreases |ops|
  {
    if ops != [] {
      var o := Step(w, ops[0]);
      StepKeeps(w, ops[0]);
      assert forall x :: x in o.reports || x in Reports(o.w, ops[1..]) ==> x in Reports(w, ops);
      DeadStep(w, ops[0], k);
      StatusLasts(o.w, ops[1..], k);
    }
  }

  // ---------------------------------------------------------------- where the wait calls fall short

  /** The second half of `wait_child` looks at nothing: what woke it stays pending and the next `waitpid` for the
      child tells it again, exactly when the change is still there. */
  lemma ChildWaitTellsAgain(w: W, p: nat)
    requires Inv(w) && Enabled(w, Resume(p)) && w.tasks[p].phase.InChild? && w.tasks[p].phase.pid in w.tasks
      && p != w.tasks[p].phase.pid
    ensures var k, o := w.tasks[p].phase.pid, Step(w, Resume(p));
      && o.ret == k && o.reports == [] && k in o.w.tasks && p in o.w.tasks && o.w.tasks[k] == w.tasks[k]
      && (ChildWaited(o.w, p, k, true).ret == k <==> Pending(w.tasks[k]))
  {
    assert Kin(w, w.tasks[p].phase.pid);
  }

  /** The second half of `wait_any_child` returns no child exactly when no child has a change any more. */
  lemma AnyWaitEmpty(w: W, p: nat)
    requires Inv(w) && Enabled(w, Resume(p)) && w.tasks[p].phase.InAny?
    ensures Step(w, Resume(p)).ret == 0 <==>
      forall k :: k in w.tasks[p].children && k in w.tasks ==> !Pending(w.tasks[k])
  {
    var v := W(w.tasks[p := w.tasks[p].(waiting := 0, phase := Normal)], w.queue);
    AwakeKeeps(w, p);
    ScanKeeps(v, p);
    forall k | k in w.tasks[p].children && k in w.tasks ensures Pending(v.tasks[k]) == Pending(w.tasks[k]) {}
  }

  /** That happens: whenever a child stops, which wakes the parent that waits for any, and continues before the
      parent runs, the parent is queued to return without a child. */
  lemma WokenForNothing(w: W, p: nat, k: nat, status: int)
    requires Inv(w) && p in w.tasks && w.tasks[p].waiting == -1 && k in w.tasks[p].children
      && Enabled(w, Stop(k, status))
    ensures var v := Step(w, Stop(k, status)).w;
      && Known(v) && Enabled(v, Continue(k))
      && var r := Step(v, Continue(k)).w;
        && Inv(r) && p in r.tasks && p in r.queue && r.tasks[p].phase.InAny?
        && forall j :: j in r.tasks[p].children && j in r.tasks ==> !Pending(r.tasks[j])
  {
    assert Kin(w, p) && Kin(w, k) && Waits(w, p) && Threaded(w, k) && Quiet(w, p, k) && p != k;
    assert k in w.queue;
    StepKeeps(w, Stop(k, status));
    var v := Step(w, Stop(k, status)).w;
    assert v.queue == w.queue[1..] + [p];
    StepKeeps(v, Continue(k));
    var r := Step(v, Continue(k)).w;
    assert r.queue == v.queue + [k];
    forall j | j in r.tasks[p].children && j in r.tasks ensures !Pending(r.tasks[j]) {
      assert Quiet(w, p, j);
    }
  }

  /** A death is never missed: while a dead child is there, neither half of the parent's `wait_any_child` returns
      empty-handed. */
  lemma DeathNotMissed(w: W, p: nat, k: nat)
    requires Inv(w) && p in w.tasks && k in w.tasks[p].children && k in w.tasks && w.tasks[k].state.DEAD?
    ensures Enabled(w, WaitAny(p, true)) ==> Step(w, WaitAny(p, true)).ret != 0
    ensures Enabled(w, Resume(p)) && w.tasks[p].phase.InAny? ==> Step(w, Resume(p)).ret != 0
    ensures w.tasks[p].waiting != -1
  {
    ScanKeeps(w, p);
    if Enabled(w, Resume(p)) && w.tasks[p].phase.InAny? {
      AnyWaitEmpty(w, p);
    }
    assert Quiet(w, p, k);
  }

  // ---------------------------------------------------------------- process table in place

  lemma {:induction false} WithoutAt(cs: seq<nat>, i: nat, k: nat)
    requires i < |cs| && cs[i] == k && forall j :: 0 <= j < i ==> cs[j] != k
    ensures Without(cs, k) == cs[..i] + cs[i + 1..]
  {
    if i > 0 {
      WithoutAt(cs[1..], i - 1, k);
      assert cs[1..][..i - 1] == cs[1..i] && cs[1..][i..] == cs[i + 1..];
    }
  }

  lemma {:induction false} WithoutNone(cs: seq<nat>, k: nat)
    requires k !in cs
    ensures Without(cs, k) == cs
  {
    if cs != [] {
      WithoutNone(cs[1..], k);
    }
  }

  lemma FirstPendingAt(tasks: map<nat, Task>, cs: seq<nat>, i: nat)
    requires i <= |cs| && (i < |cs| ==> cs[i] in tasks && Pending(tasks[cs[i]]))
    requires forall j :: 0 <= j < i ==> !(cs[j] in tasks && Pending(tasks[cs[j]]))
    ensures FirstPending(tasks, cs) == i
  {}

  class TaskTable {
    var tasks: map<nat, Task>
    var queue: seq<nat>

    ghost function Now(): W
      reads this
    {
      W(tasks, queue)
    }

    /** `has_child_changed`: each stop and each continuation is told once, a death until the child is removed. */
    method HasChildChanged(k: nat) returns (b: bool)
      requires k in tasks
      modifies this`tasks
      ensures b == Pending(old(tasks)[k]) && tasks == old(tasks)[k := Told(old(tasks)[k])]
    {
      var t := tasks[k];
      if t.state.DEAD? { return true; }
      if t.state.STOPPED? && !t.wasStop {
        tasks := tasks[k := t.(wasStop := true)];
        return true;
      }
      if t.state.RUNNING? && t.wasStop {
        tasks := tasks[k := t.(wasStop := false)];
        return true;
      }
      return false;
    }

    /** `task_delete`: a dead child leaves its parent's list and is freed. */
    method TaskDelete(k: nat)
      requires k in tasks && tasks[k].state.DEAD?
      modifies this`tasks
      ensures Now() == Reported(old(Now()), k)
    {
      var p := tasks[k].parent;
      if p in tasks {
        var i, cs := 0, tasks[p].children;
        while i < |cs| && cs[i] != k
          invariant 0 <= i <= |cs| && forall j :: 0 <= j < i ==> cs[j] != k
        {
          i := i + 1;
        }
        if i < |cs| {
          WithoutAt(cs, i, k);
          cs := cs[..i] + cs[i + 1..];
        } else {
          WithoutNone(cs, k);
        }
        tasks := tasks[p := tasks[p].(children := cs)];
      }
      tasks := tasks - {k};
    }

    /** The status of `k` is handed over, and `k` removed if it is dead. */
    method Collect(k: nat) returns (status: int)
      requires k in tasks && Pending(tasks[k])
      modifies this`tasks
      ensures Now() == Reported(old(Now()), k) && status == old(tasks)[k].status
    {
      ghost var before := tasks;
      var b := HasChildChanged(k);
      status := tasks[k].status;
      if tasks[k].state.DEAD? {
        assert tasks == before;
        TaskDelete(k);
      }
    }

    /** The scan of the children: the first one with a change is reported. */
    method ScanChildren(p: nat) returns (ret: nat, status: int)
      requires p in tasks && Inv(Now())
      modifies this`tasks
      ensures var o := Scan(old(Now()), p);
        Now() == o.w && ret == o.ret && (o.ret != 0 && o.ret in old(tasks) ==> status == old(tasks)[o.ret].status)
    {
      status := 0;
      var i, cs := 0, tasks[p].children;
      assert Kin(Now(), p);
      while i < |cs|
        invariant 0 <= i <= |cs| && tasks == old(tasks)
        invariant forall j :: 0 <= j < i ==> !Pending(tasks[cs[j]])
      {
        assert cs[i] in cs;
        if Pending(tasks[cs[i]]) {
          FirstPendingAt(tasks, cs, i);
          status := Collect(cs[i]);
          return cs[i], status;
        }
        i := i + 1;
      }
      FirstPendingAt(tasks, cs, i);
      return 0, 0;
    }

    method Sleep(p: nat, waiting: int, phase: Phase)
      requires p in tasks
      modifies this`tasks
      ensures Now() == Asleep(old(Now()), p, waiting, phase)
    {
      tasks := tasks[p := tasks[p].(waiting := waiting, thread := Blocked, phase := phase)];
    }

    /** `wait_any_child` up to the block. */
    method WaitAnyChild(p: nat, nohang: bool) returns (ret: nat, status: int)
      requires Active(Now(), p) && Inv(Now())
      modifies this`tasks
      ensures Now() == AnyWaited(old(Now()), p, nohang).w && ret == AnyWaited(old(Now()), p, nohang).ret && Inv(Now())
      ensures ret != 0 && ret in old(tasks) ==> status == old(tasks)[ret].status
    {
      StepKeeps(Now(), WaitAny(p, nohang));
      ScanKeeps(Now(), p);
      ret, status := ScanChildren(p);
      if ret == 0 && !nohang {
        Sleep(p, -1, InAny);
      }
    }

    /** `wait_child` up to the block. */
    method WaitForChild(p: nat, k: nat, nohang: bool) returns (ret: nat, status: int)
      requires Active(Now(), p) && k in tasks && Inv(Now())
      modifies this`tasks
      ensures Now() == ChildWaited(old(Now()), p, k, nohang).w && ret == ChildWaited(old(Now()), p, k, nohang).ret
        && Inv(Now())
      ensures ret != 0 ==> status == old(tasks)[k].status
    {
      StepKeeps(Now(), WaitChild(p, k, nohang));
      status := 0;
      if Pending(tasks[k]) {
        status := Collect(k);
        return k, status;
      }
      if nohang { return 0, 0; }
      Sleep(p, k, InChild(k));
      return 0, 0;
    }

    /** Both wait calls behind the block; `wait_child` hands over no status. */
    method Awake(p: nat) returns (ret: nat, status: int)
      requires Enabled(Now(), Resume(p)) && Inv(Now())
      modifies this`tasks
      ensures Now() == Resumed(old(Now()), p).w && ret == Resumed(old(Now()), p).ret && Inv(Now())
      ensures old(tasks[p]).phase.InAny? && ret != 0 ==> ret in old(tasks) && status == old(tasks)[ret].status
    {
      StepKeeps(Now(), Resume(p));
      AwakeKeeps(Now(), p);
      var phase := tasks[p].phase;
      tasks := tasks[p := tasks[p].(waiting := 0, phase := Normal)];
      if phase.InAny? {
        ret, status := ScanChildren(p);
      } else {
        return phase.pid, 0;
      }
    }

    /** The part of `task_exit` that the waits see: the children go to init, the thread dies, the parent is told. */
    method TaskExit(p: nat, status: int)
      requires Inv(Now()) && Enabled(Now(), Exit(p, status))
      modifies this
      ensures Now() == Step(old(Now()), Exit(p, status)).w
    {
      var i, cs := 0, tasks[p].children;
      while i < |cs|
        invariant 0 <= i <= |cs| && queue == old(queue) && tasks == Adopted(old(tasks), cs[..i])
      {
        AdoptedMore(old(tasks), cs, i);
        tasks := tasks[INIT := tasks[INIT].(children := tasks[INIT].children + [cs[i]])];
        i := i + 1;
      }
      assert cs[..i] == cs;
      tasks := tasks[p := tasks[p].(children := [])];
      assert Now() == Orphaned(old(Now()), p);
      tasks := tasks[p := tasks[p].(thread := Dead)];
      TaskChange(p, DEAD, status);
    }

    /** `task_change`, with the status its callers store. */
    method TaskChange(k: nat, st: TaskState, status: int)
      requires k in tasks && tasks[k].parent in tasks
      modifies this
      ensures Now() == Changed(old(Now()), k, st, status)
    {
      tasks := tasks[k := tasks[k].(state := st, status := status)];
      var par := tasks[k].parent;
      if tasks[par].waiting == k || tasks[par].waiting == -1 {
        tasks := tasks[par := tasks[par].(thread := Ready)];
        queue := queue + [par];
        tasks := tasks[par := tasks[par].(waiting := 0)];
      }
    }
  }

  /** A child exits, and the parent, having nothing else to hear, waits: it gets the child with the status of the exit,
      and the child is gone. */
  method ExitThenWait(t: TaskTable, k: nat, status: int, nohang: bool) returns (ret: nat, st: int)
    requires Inv(t.Now()) && Enabled(t.Now(), Exit(k, status)) && t.tasks[k].children == []
    requires Active(t.Now(), t.tasks[k].parent) && OnlyToHear(t.Now(), k)
    modifies t
    ensures ret == k && st == status && k !in t.tasks
  {
    var p := t.tasks[k].parent;
    ExitHeard(t.Now(), k, status);
    t.TaskExit(k, status);
    WaitAnyExactly(t.Now(), p, nohang);
    ret, st := t.WaitAnyChild(p, nohang);
  }

  /** Of the other children of its parent none has a pending change. */
  ghost predicate OnlyToHear(w: W, k: nat)
    requires HasParent(w, k)
  {
    forall j :: j in w.tasks[w.tasks[k].parent].children && j != k && j in w.tasks ==> !Pending(w.tasks[j])
  }

  lemma ExitHeard(w: W, k: nat, status: int)
    requires Inv(w) && Enabled(w, Exit(k, status)) && w.tasks[k].children == []
    requires Active(w, w.tasks[k].parent) && OnlyToHear(w, k)
    ensures var p, v := w.tasks[k].parent, Step(w, Exit(k, status)).w;
      && Inv(v) && Active(v, p) && k in v.tasks && v.tasks[k].state.DEAD? && v.tasks[k].status == status
      && SomePending(v, p) && forall j :: FirstOfPending(v, p, j) ==> j == k
  {
    var p, v := w.tasks[k].parent, Step(w, Exit(k, status)).w;
    assert Kin(w, k) && Kin(w, p) && Waits(w, p);
    StepKeeps(w, Exit(k, status));
    ChangesState(w, Exit(k, status));
    assert v.tasks[p] == w.tasks[p];
    assert k in v.tasks[p].children;
    forall j | FirstOfPending(v, p, j) ensures j == k {
      assert j in v.tasks[p].children && v.tasks[j].wasStop == w.tasks[j].wasStop;
    }
  }
}
