/** Counting semaphores on top of the scheduler: a thread that must wait is blocked and queued in order. */
module Semaphore {
  import opened Common
  import opened Arith
  import opened Sched

  /** The whole system: the scheduler, one semaphore, and who holds it how often. */
  datatype Sys = Sys(s: S, cnt: nat, max: nat, waiters: seq<nat>, holders: multiset<nat>)

  /** The waiters are blocked, each once; there are waiters only when the semaphore is exhausted; the count is
      the number of holders. */
  ghost predicate SemInv(y: Sys) {
    && Inv(y.s)
    && (forall t :: t in y.waiters ==> t in y.s.state && y.s.state[t].BLOCKED?)
    && (forall i, j :: 0 <= i < j < |y.waiters| ==> y.waiters[i] != y.waiters[j])
    && (y.waiters != [] ==> y.cnt == y.max)
    && y.cnt == |y.holders| && y.cnt <= y.max
  }

  function Waited(y: Sys, c: nat): Sys
    requires c < |y.s.current| && y.s.current[c].Some?
  {
    var t := y.s.current[c].value;
    if y.cnt < y.max then Sys(y.s, y.cnt + 1, y.max, y.waiters, y.holders + multiset{t})
    else
      var s := Off(S(y.s.state[t := BLOCKED], y.s.queue, y.s.current, y.s.idle), c);
      Sys(s, y.cnt, y.max, y.waiters + [t], y.holders)
  }

  /** Holder `t` signals: the first waiter takes over its place. */
  function Signalled(y: Sys, t: nat): Sys {
    if y.waiters != [] then
      Sys(Spawned(y.s, y.waiters[0]), y.cnt, y.max, y.waiters[1..], y.holders - multiset{t} + multiset{y.waiters[0]})
    else Sys(y.s, Decremented(y.cnt), y.max, y.waiters, y.holders - multiset{t})
  }

  datatype SysOp = Base(op: Op) | Wait(c: nat) | Signal(t: nat)

  /** What a caller can do. */
  ghost predicate Possible(y: Sys, o: SysOp) {
    match o
    case Base(op) => Enabled(y.s, op)
    case Wait(c) => c < |y.s.current| && y.s.current[c].Some?
    case Signal(t) => true
  }

  /** Of these: waiters are only woken by the semaphore, no thread is killed while it waits, only holders signal. */
  ghost predicate Allowed(y: Sys, o: SysOp) {
    && Possible(y, o)
    && match o
       case Base(op) =>
         (op.Unblock? ==> op.t !in y.waiters) && (op.Exit? ==> forall t :: t in y.waiters ==> t !in op.kill)
       case Wait(c) => true
       case Signal(t) => t in y.holders
  }

  /** A step of the scheduler beside the semaphore, whether allowed or not. */
  ghost function BaseStep(y: Sys, op: Op): Sys
    requires Inv(y.s) && Enabled(y.s, op)
  {
    Sys(Step(y.s, op), y.cnt, y.max, y.waiters, y.holders)
  }

  ghost function SysStep(y: Sys, o: SysOp): Sys
    requires Inv(y.s) && Possible(y, o)
  {
    match o
    case Base(op) => BaseStep(y, op)
    case Wait(c) => Waited(y, c)
    case Signal(t) => Signalled(y, t)
  }

  /** A step of the scheduler leaves a blocked thread blocked unless it is the one unblocked or killed. */
  lemma BlockedStays(s: S, op: Op, t: nat)
    requires Inv(s) && Enabled(s, op) && t in s.state && s.state[t].BLOCKED?
    requires (op.Unblock? ==> op.t != t) && (op.Exit? ==> t !in op.kill)
    ensures t in Step(s, op).state && Step(s, op).state[t].BLOCKED?
  {
    if !op.Spawn? && !op.Unblock? {
      assert Seated(s, op.c);
    }
  }

  lemma WaitKeeps(y: Sys, c: nat)
    requires SemInv(y) && c < |y.s.current| && y.s.current[c].Some?
    ensures SemInv(Waited(y, c))
  {
    if y.cnt == y.max {
      assert Seated(y.s, c);
      StepKeeps(y.s, Op.Block(c));
    }
  }

  lemma SignalKeeps(y: Sys, t: nat)
    requires SemInv(y)
    ensures SemInv(Signalled(y, t)) <==> t in y.holders
  {
    assert |y.holders - multiset{t}| == |y.holders| - (if t in y.holders then 1 else 0) by {
      assert t !in y.holders ==> y.holders - multiset{t} == y.holders;
    }
    if y.waiters != [] {
      var w := y.waiters[0];
      assert w in y.waiters;
      NotSeated(y.s, w);
      SpawnKeeps(y.s, w);
      forall u | u in y.waiters[1..] ensures u in y.waiters && u != w {}
    }
  }

  /** Such a step keeps the invariant exactly when it neither kills nor unblocks a waiter. */
  lemma BaseKeepsExactly(y: Sys, op: Op)
    requires SemInv(y) && Enabled(y.s, op)
    ensures SemInv(BaseStep(y, op)) <==> Allowed(y, Base(op))
  {
    if Allowed(y, Base(op)) {
      StepKeeps(y.s, op);
      forall t | t in y.waiters ensures t in Step(y.s, op).state && Step(y.s, op).state[t].BLOCKED? {
        BlockedStays(y.s, op, t);
      }
    } else if op.Exit? {
      var t :| t in y.waiters && t in op.kill;
      assert Seated(y.s, op.c);
      assert t in Step(y.s, op).state && Step(y.s, op).state[t].DEAD?;
    } else {
      assert Step(y.s, op).state[op.t].READY?;
    }
  }

  /** A step of the system keeps the invariant, never more holders than the maximum and no waiter while there is room,
      exactly when it is an allowed one. */
  lemma SysStepKeeps(y: Sys, o: SysOp)
    requires SemInv(y) && Possible(y, o)
    ensures SemInv(SysStep(y, o)) <==> Allowed(y, o)
  {
    match o
    case Base(op) => BaseKeepsExactly(y, op);
    case Wait(c) => WaitKeeps(y, c);
    case Signal(t) => SignalKeeps(y, t);
  }

  ghost predicate LegalRun(y: Sys, os: seq<SysOp>)
    requires SemInv(y)
    decreases |os|
  {
    os == [] || (Allowed(y, os[0]) && (SysStepKeeps(y, os[0]); LegalRun(SysStep(y, os[0]), os[1..])))
  }

  function Signals(os: seq<SysOp>): nat {
    if os == [] then 0 else (if os[0].Signal? then 1 else 0) + Signals(os[1..])
  }

  /** Somewhere along the run `t` holds the semaphore and is ready to run. */
  ghost predicate Granted(y: Sys, os: seq<SysOp>, t: nat)
    requires SemInv(y) && LegalRun(y, os)
    decreases |os|
  {
    || (t in y.holders && t in y.s.queue && t in y.s.state && y.s.state[t].READY?)
    || (os != [] && (SysStepKeeps(y, os[0]); Granted(SysStep(y, os[0]), os[1..], t)))
  }

  /** First come, first served: the waiter at index `p` holds the semaphore, and is queued to run, after at most
      `p + 1` signals of any run. */
  lemma {:induction false} GrantedInTurn(y: Sys, os: seq<SysOp>, p: nat)
    requires SemInv(y) && LegalRun(y, os) && p < |y.waiters| && Signals(os) >= p + 1
    ensures Granted(y, os, y.waiters[p])
    decreases |os|
  {
    var t, r := y.waiters[p], SysStep(y, os[0]);
    SysStepKeeps(y, os[0]);
    if os[0].Signal? && p == 0 {
      assert r.s.queue[|y.s.queue|] == t;
      assert Granted(r, os[1..], t);
    } else {
      var p' := if os[0].Signal? then p - 1 else p;
      assert r.waiters[p'] == t;
      GrantedInTurn(r, os[1..], p');
    }
  }

  /** A signal keeps the count a count of holders exactly when somebody holds the semaphore: with none the
      count wraps around, and every later wait blocks although nobody holds it. */
  lemma SignalNeedsHolder(y: Sys, t: nat, c: nat)
    requires SemInv(y) && y.max < SIZE_MAX
    ensures Signalled(y, t).cnt <= y.max <==> y.cnt > 0 || y.waiters != []
    ensures y.holders == multiset{} && y.max > 0 && c < |y.s.current| && y.s.current[c].Some?
      ==> Waited(Signalled(y, t), c).waiters == [y.s.current[c].value]
  {}

  /** A process that exits while its thread is the first waiter: the thread is dead, and the next signal makes the dead
      thread ready, queues it, and counts it as a holder; the scheduler will run it. */
  lemma KilledWaiterRevives(y: Sys, c: nat, kill: set<nat>, h: nat)
    requires SemInv(y) && Enabled(y.s, Op.Exit(c, kill)) && y.waiters != [] && y.waiters[0] in kill && h in y.holders
    ensures var w, y1 := y.waiters[0], BaseStep(y, Op.Exit(c, kill));
      && Inv(y1.s) && w in y1.s.state && y1.s.state[w].DEAD? && w !in y1.s.queue
      && var y2 := Signalled(y1, h);
        Inv(y2.s) && y2.s.state[w].READY? && w in y2.s.queue && w in y2.holders
  {
    var w, y1 := y.waiters[0], BaseStep(y, Op.Exit(c, kill));
    assert w in y.waiters;
    assert Seated(y.s, c);
    NotSeated(y.s, w);
    StepKeeps(y.s, Op.Exit(c, kill));
    assert y1.s.queue == y.s.queue;
    forall d | 0 <= d < |y1.s.current| ensures y1.s.current[d] != Some(w) {
      assert y1.s.current[d] == None || y1.s.current[d] == y.s.current[d];
    }
    SpawnKeeps(y1.s, w);
    assert Signalled(y1, h).s.queue[|y1.s.queue|] == w;
  }

  class Sem {
    var cnt: nat
    const max: nat
    var threads: seq<nat>

    constructor (max: nat)
      ensures this.max == max && cnt == 0 && threads == []
    {
      this.max := max;
      cnt := 0;
      threads := [];
    }

    ghost function System(sch: Scheduler, holders: multiset<nat>): Sys
      reads this, sch
    {
      Sys(sch.Now(), cnt, max, threads, holders)
    }

    /** `sem_wait` by the thread on CPU `c`; when it blocks, another thread is dispatched. */
    method Wait(sch: Scheduler, c: nat, ghost holders: multiset<nat>) returns (granted: bool)
      requires SemInv(System(sch, holders)) && c < |sch.current| && sch.current[c].Some?
      requires cnt == max ==> CanPick(Step(sch.Now(), Op.Block(c)), c)
      modifies this, sch
      ensures granted == (old(cnt) < max)
      ensures var w := Waited(old(System(sch, holders)), c);
        System(sch, w.holders) == if granted then w else w.(s := Dispatched(w.s, c))
    {
      if cnt < max {
        cnt := cnt + 1;
        return true;
      }
      threads := threads + [sch.current[c].value];
      sch.ThreadBlock(c);
      return false;
    }

    /** `sem_signal` by holder `t`. */
    method Signal(sch: Scheduler, ghost t: nat, ghost holders: multiset<nat>)
      modifies this, sch
      ensures System(sch, Signalled(old(System(sch, holders)), t).holders) == Signalled(old(System(sch, holders)), t)
    {
      if |threads| != 0 {
        var w := threads[0];
        threads := threads[1..];
        sch.SpawnThread(w);
      } else {
        cnt := if cnt == 0 then SIZE_MAX else cnt - 1;
      }
    }
  }
}
