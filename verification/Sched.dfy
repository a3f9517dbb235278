/** The scheduler: one ready queue shared by all CPUs, thread states, and the thread each CPU runs. */
module Sched {
  import opened Common

  datatype TState = RUNNING | READY | DEAD | WAITING | BLOCKED

  /** `current[c]` is `None` from the moment CPU `c` lets go of its thread until it has picked the next one. */
  datatype S = S(state: map<nat, TState>, queue: seq<nat>, current: seq<Option<nat>>, idle: seq<nat>)

  // ---------------------------------------------------------------- the invariant

  ghost predicate OnCpu(s: S, t: nat) {
    exists c :: 0 <= c < |s.current| && s.current[c] == Some(t)
  }

  /** The thread on CPU `c` runs, or was killed by another CPU, and is not queued. */
  ghost predicate Seated(s: S, c: nat)
    requires c < |s.current|
  {
    s.current[c].Some? ==>
      var t := s.current[c].value; t in s.state && (s.state[t].RUNNING? || s.state[t].DEAD?) && t !in s.queue
  }

  ghost predicate Apart(s: S, c: nat, d: nat)
    requires c < |s.current| && d < |s.current|
  {
    s.current[c].Some? ==> s.current[c] != s.current[d]
  }

  ghost predicate Seats(s: S) {
    && |s.current| == |s.idle|
    && (forall c :: 0 <= c < |s.current| ==> Seated(s, c))
    && (forall c, d :: 0 <= c < d < |s.current| ==> Apart(s, c, d))
  }

  ghost predicate Queue(s: S) {
    && (forall t :: t in s.queue ==> t in s.state && (s.state[t].READY? || s.state[t].DEAD?))
    && (forall i, j :: 0 <= i < j < |s.queue| ==> s.queue[i] != s.queue[j])
  }

  /** No thread is lost: a running thread is on a CPU, a ready one is queued unless it is an idle thread. */
  ghost predicate Placed(s: S, t: nat) {
    t in s.state ==>
      && (s.state[t].RUNNING? ==> OnCpu(s, t))
      && (s.state[t].READY? ==> t in s.queue || t in s.idle)
  }

  ghost predicate Inv(s: S) {
    && Seats(s) && Queue(s)
    && (forall t :: t in s.idle ==> t in s.state)
    && (forall t :: t in s.state ==> Placed(s, t))
  }

  // ---------------------------------------------------------------- the steps

  /** `next_ready`. */
  function Found(s: S, c: nat): (S, nat)
    requires c < |s.idle|
    requires s.queue != [] ==> s.queue[0] in s.state
  {
    if s.queue == [] then (s, s.idle[c])
    else if s.state[s.queue[0]].RUNNING? then (S(s.state, s.queue[1..] + [s.queue[0]], s.current, s.idle), s.idle[c])
    else (S(s.state, s.queue[1..], s.current, s.idle), s.queue[0])
  }

  /** `next_ready` takes at most the thread it returns off the queue: the head, unless that is running, which goes to
      the back; then, and when the queue is empty, it returns the idle thread. */
  lemma FoundConserves(s: S, c: nat)
    requires c < |s.idle| && (s.queue != [] ==> s.queue[0] in s.state)
    ensures var (r, t) := Found(s, c);
      && r.state == s.state && r.current == s.current && r.idle == s.idle
      && (if s.queue != [] && !s.state[s.queue[0]].RUNNING?
          then t == s.queue[0] && multiset(s.queue) == multiset(r.queue) + multiset{t}
          else t == s.idle[c] && multiset(s.queue) == multiset(r.queue))
      && (forall u :: u in r.queue ==> u in s.queue)
  {
    if s.queue != [] {
      assert s.queue == [s.queue[0]] + s.queue[1..];
    }
  }

  predicate CanPoll(s: S, c: nat) {
    c < |s.idle| == |s.current| && (s.queue != [] ==> s.queue[0] in s.state) && s.idle[c] in s.state
  }

  /** One round of the pick loop in `switch_next`: the thread found is dispatched if it is ready, else dropped. */
  function Poll(s: S, c: nat): S
    requires CanPoll(s, c)
  {
    var (r, t) := Found(s, c);
    if r.state[t].READY? then S(r.state[t := RUNNING], r.queue, r.current[c := Some(t)], r.idle) else r
  }

  /** CPU `c` lets go of its thread. */
  function Off(s: S, c: nat): S
    requires c < |s.current|
  {
    S(s.state, s.queue, s.current[c := None], s.idle)
  }

  /** `sched_spawnthread`. */
  function Spawned(s: S, t: nat): S {
    S(s.state[t := READY], s.queue + [t], s.current, s.idle)
  }

  /** The first half of `switch_task`: a running thread goes to the back of the queue. */
  function Yielded(s: S, c: nat): S
    requires c < |s.current|
  {
    match s.current[c]
    case None => s
    case Some(t) => Off(if t in s.state && s.state[t].RUNNING? then Spawned(s, t) else s, c)
  }

  function Killed(s: S, kill: set<nat>): S {
    S(map t | t in s.state :: if t in kill then DEAD else s.state[t], s.queue, s.current, s.idle)
  }

  datatype Op =
    | Poll(c: nat)                  // a round of the pick loop
    | Yield(c: nat)                 // timer interrupt or voluntary yield
    | Block(c: nat)                 // thread_block
    | Exit(c: nat, kill: set<nat>)  // task_exit: every thread of a process dies
    | Unblock(t: nat)               // thread_unblock of a blocked thread
    | Spawn(t: nat)                 // a new thread

  ghost predicate Enabled(s: S, op: Op) {
    match op
    case Poll(c) => c < |s.current| && s.current[c].None?
    case Yield(c) => c < |s.current| && s.current[c].Some?
    case Block(c) => c < |s.current| && s.current[c].Some?
    case Exit(c, kill) => c < |s.current| && s.current[c].Some? && s.current[c].value in kill
    case Unblock(t) => t in s.state && s.state[t].BLOCKED?
    case Spawn(t) => t !in s.state
  }

  ghost function Step(s: S, op: Op): S
    requires Inv(s) && Enabled(s, op)
  {
    match op
    case Poll(c) => Poll(s, c)
    case Yield(c) => Yielded(s, c)
    case Block(c) => Off(S(s.state[s.current[c].value := BLOCKED], s.queue, s.current, s.idle), c)
    case Exit(c, kill) => Off(Killed(s, kill), c)
    case Unblock(t) => Spawned(s, t)
    case Spawn(t) => Spawned(s, t)
  }

  // ---------------------------------------------------------------- every step keeps the invariant

  lemma SeatsPoll(s: S, c: nat)
    requires Inv(s) && c < |s.current| && s.current[c].None?
    ensures Seats(Poll(s, c)) && Queue(Poll(s, c))
  {
    var r := Poll(s, c);
    assert s.queue != [] ==> r.queue == s.queue[1..] && s.queue[0] !in s.queue[1..];
    forall d | 0 <= d < |r.current| ensures Seated(r, d) {
      assert Seated(s, d);
    }
    forall d, e | 0 <= d < e < |r.current| ensures Apart(r, d, e) {
      assert Apart(s, d, e) && Seated(s, d) && Seated(s, e);
    }
  }

  lemma PlacedPoll(s: S, c: nat)
    requires Inv(s) && c < |s.current| && s.current[c].None?
    ensures var r := Poll(s, c); forall t :: t in r.state ==> Placed(r, t)
  {
    var r := Poll(s, c);
    assert s.queue != [] ==> s.queue == [s.queue[0]] + s.queue[1..];
    forall t | t in r.state ensures Placed(r, t) {
      if t in s.state {
        assert Placed(s, t);
      }
      if OnCpu(s, t) {
        var d :| 0 <= d < |s.current| && s.current[d] == Some(t);
        assert r.current[d] == Some(t);
      }
      assert r.current[c] == Some(t) ==> OnCpu(r, t);
    }
  }

  lemma OffOn(s: S, c: nat, t: nat)
    requires Seats(s) && c < |s.current| && OnCpu(s, t)
    ensures OnCpu(Off(s, c), t) || s.current[c] == Some(t)
  {
    var d :| 0 <= d < |s.current| && s.current[d] == Some(t);
    if d != c {
      assert Off(s, c).current[d] == Some(t);
    }
  }

  /** The thread of CPU `c` gets a state that needs no seat, and goes to the queue if that is `READY`. */
  lemma LeaveKeeps(s: S, c: nat, st: TState, r: S)
    requires Inv(s) && c < |s.current| && s.current[c].Some?
    requires s.current[c].value in s.state && !st.RUNNING? && r.state == s.state[s.current[c].value := st]
    requires r.queue == if st.READY? then s.queue + [s.current[c].value] else s.queue
    requires r.current == s.current[c := None] && r.idle == s.idle
    ensures Inv(r)
  {
    assert Seated(s, c);
    forall d | 0 <= d < |r.current| ensures Seated(r, d) {
      assert Seated(s, d) && (d < c ==> Apart(s, d, c)) && (c < d ==> Apart(s, c, d));
    }
    forall d, e | 0 <= d < e < |r.current| ensures Apart(r, d, e) {
      assert Apart(s, d, e);
    }
    forall t | t in r.state ensures Placed(r, t) {
      assert Placed(s, t);
      if r.state[t].RUNNING? {
        OffOn(s, c, t);
        var d :| 0 <= d < |s.current| && Off(s, c).current[d] == Some(t);
        assert r.current[d] == Some(t);
      }
    }
  }

  lemma KilledKeeps(s: S, kill: set<nat>)
    requires Inv(s)
    ensures Inv(Killed(s, kill))
  {
    var r := Killed(s, kill);
    forall d | 0 <= d < |r.current| ensures Seated(r, d) {
      assert Seated(s, d);
    }
    forall d, e | 0 <= d < e < |r.current| ensures Apart(r, d, e) {
      assert Apart(s, d, e);
    }
    forall t | t in r.state ensures Placed(r, t) {
      assert Placed(s, t);
      if r.state[t].RUNNING? {
        var d :| 0 <= d < |s.current| && s.current[d] == Some(t);
        assert r.current[d] == Some(t);
      }
    }
  }

  /** Spawning or unblocking a thread keeps the invariant exactly when the thread is neither queued nor on a CPU;
      otherwise it is in the queue twice, or queued while it runs. */
  lemma SpawnKeepsExactly(s: S, t: nat)
    requires Inv(s)
    ensures Inv(Spawned(s, t)) <==> t !in s.queue && !OnCpu(s, t)
  {
    var r := Spawned(s, t);
    if t in s.queue {
      var i :| 0 <= i < |s.queue| && s.queue[i] == t;
      assert r.queue[i] == r.queue[|s.queue|];
    } else if OnCpu(s, t) {
      var d :| 0 <= d < |s.current| && s.current[d] == Some(t);
      assert r.queue[|s.queue|] == t;
      assert !Seated(r, d);
    } else {
      SpawnKeeps(s, t);
    }
  }

  lemma SpawnKeeps(s: S, t: nat)
    requires Inv(s) && t !in s.queue && !OnCpu(s, t)
    ensures Inv(Spawned(s, t))
  {
    var r := Spawned(s, t);
    assert t in r.queue by { assert r.queue[|s.queue|] == t; }
    forall d | 0 <= d < |r.current| ensures Seated(r, d) {
      assert Seated(s, d);
    }
    forall d, e | 0 <= d < e < |r.current| ensures Apart(r, d, e) {
      assert Apart(s, d, e);
    }
    forall u | u in r.state ensures Placed(r, u) {
      if u != t {
        assert Placed(s, u);
        if r.state[u].RUNNING? {
          var d :| 0 <= d < |s.current| && s.current[d] == Some(u);
          assert r.current[d] == Some(u);
        }
      }
    }
  }

  lemma NotSeated(s: S, t: nat)
    requires Inv(s) && (t in s.state ==> s.state[t].BLOCKED?)
    ensures t !in s.queue && !OnCpu(s, t)
  {
    forall c | 0 <= c < |s.current| ensures s.current[c] != Some(t) {
      assert Seated(s, c);
    }
  }

  /** Every step keeps: the threads on the CPUs are distinct, running or just killed, and not queued; the queue
      holds each thread once, ready or dead; no runnable thread is lost. */
  lemma StepKeeps(s: S, op: Op)
    requires Inv(s) && Enabled(s, op)
    ensures Inv(Step(s, op))
  {
    match op
    case Poll(c) =>
      SeatsPoll(s, c);
      PlacedPoll(s, c);
    case Yield(c) =>
      assert Seated(s, c);
      LeaveKeeps(s, c, if s.state[s.current[c].value].RUNNING? then READY else DEAD, Step(s, op));
    case Block(c) =>
      assert Seated(s, c);
      LeaveKeeps(s, c, BLOCKED, Step(s, op));
    case Exit(c, kill) =>
      KilledKeeps(s, kill);
      assert Seated(s, c);
      LeaveKeeps(Killed(s, kill), c, DEAD, Step(s, op));
    case Unblock(t) =>
      NotSeated(s, t);
      SpawnKeeps(s, t);
    case Spawn(t) =>
      NotSeated(s, t);
      SpawnKeeps(s, t);
  }

  // ---------------------------------------------------------------- runs

  ghost predicate Legal(s: S, ops: seq<Op>)
    requires Inv(s)
    decreases |ops|
  {
    ops == [] || (Enabled(s, ops[0]) && (StepKeeps(s, ops[0]); Legal(Step(s, ops[0]), ops[1..])))
  }

  ghost function Run(s: S, ops: seq<Op>): (r: S)
    requires Inv(s) && Legal(s, ops)
    ensures Inv(r)
    decreases |ops|
  {
    if ops == [] then s else (StepKeeps(s, ops[0]); Run(Step(s, ops[0]), ops[1..]))
  }

  function Polls(ops: seq<Op>): nat {
    if ops == [] then 0 else (if ops[0].Poll? then 1 else 0) + Polls(ops[1..])
  }

  /** Somewhere along the run `t` is dispatched or dies. */
  ghost predicate Reached(s: S, ops: seq<Op>, t: nat)
    requires Inv(s) && Legal(s, ops)
    decreases |ops|
  {
    || (t in s.state && (s.state[t].RUNNING? || s.state[t].DEAD?))
    || (ops != [] && (StepKeeps(s, ops[0]); Reached(Step(s, ops[0]), ops[1..], t)))
  }

  /** What one step does to a ready thread in the queue: a round of picking moves it one place forward, or
      dispatches it when it is in front; every other step leaves its place alone. */
  lemma QueueMoves(s: S, op: Op, p: nat)
    requires Inv(s) && Enabled(s, op) && p < |s.queue| && s.state[s.queue[p]].READY?
    ensures var t, r := s.queue[p], Step(s, op);
      && t in r.state
      && (r.state[t].READY? || r.state[t].RUNNING? || r.state[t].DEAD?)
      && (op.Poll? && p == 0 ==> r.state[t].RUNNING?)
      && (op.Poll? && p > 0 ==> p - 1 < |r.queue| && r.queue[p - 1] == t)
      && (!op.Poll? ==> p < |r.queue| && r.queue[p] == t)
  {
    if !op.Spawn? && !op.Unblock? {
      assert Seated(s, op.c);
    }
  }

  /** A ready thread at index `p` of the queue is dispatched, or dies, within `p + 1` rounds of picking, whatever
      else happens on any CPU in between. */
  lemma {:induction false} DispatchedInTime(s: S, ops: seq<Op>, p: nat)
    requires Inv(s) && Legal(s, ops) && p < |s.queue| && s.state[s.queue[p]].READY? && Polls(ops) >= p + 1
    ensures Reached(s, ops, s.queue[p])
    decreases |ops|
  {
    var r := Step(s, ops[0]);
    StepKeeps(s, ops[0]);
    QueueMoves(s, ops[0], p);
    if r.state[s.queue[p]].READY? {
      DispatchedInTime(r, ops[1..], if ops[0].Poll? then p - 1 else p);
    } else {
      assert Reached(r, ops[1..], s.queue[p]);
    }
  }

  // ---------------------------------------------------------------- the pick loop

  function FirstReady(st: map<nat, TState>, q: seq<nat>): (i: nat)
    ensures i <= |q| && (forall k :: 0 <= k < i ==> !(q[k] in st && st[q[k]].READY?))
    ensures i < |q| ==> q[i] in st && st[q[i]].READY?
  {
    if q == [] || (q[0] in st && st[q[0]].READY?) then 0 else 1 + FirstReady(st, q[1..])
  }

  /** What `switch_next` makes of a state: the first ready thread of the queue runs, those before it are dropped;
      the idle thread runs when there is none. */
  function Dispatched(s: S, c: nat): S
    requires c < |s.current| == |s.idle|
  {
    var i := FirstReady(s.state, s.queue);
    var t := if i < |s.queue| then s.queue[i] else s.idle[c];
    S(s.state[t := RUNNING], if i < |s.queue| then s.queue[i + 1..] else [], s.current[c := Some(t)], s.idle)
  }

  /** The pick loop ends exactly when this holds. */
  predicate CanPick(s: S, c: nat) {
    FirstReady(s.state, s.queue) < |s.queue| || (c < |s.idle| && s.idle[c] in s.state && s.state[s.idle[c]].READY?)
  }

  lemma FirstReadyNext(st: map<nat, TState>, q: seq<nat>)
    requires q != [] && FirstReady(st, q) > 0
    ensures FirstReady(st, q) == 1 + FirstReady(st, q[1..])
  {}

  /** A round that finds no ready thread shortens the queue or finds it empty, leaves the states alone and
      changes nothing about whether the loop can end, or with what. */
  lemma PollProgress(s: S, c: nat)
    requires Inv(s) && c < |s.current| && s.current[c].None?
    ensures CanPick(s, c) <==> (CanPick(Poll(s, c), c) || Poll(s, c).current[c].Some?)
    ensures Poll(s, c).current[c].Some? ==> CanPick(s, c) && Poll(s, c) == Dispatched(s, c)
    ensures Poll(s, c).current[c].None? && s.queue != [] ==>
      |Poll(s, c).queue| < |s.queue| && Dispatched(Poll(s, c), c) == Dispatched(s, c)
    ensures Poll(s, c).current[c].None? && s.queue == [] ==> Poll(s, c) == s && !CanPick(s, c)
  {
    if s.queue != [] {
      assert s.queue[0] in s.queue;
      var i := FirstReady(s.state, s.queue);
      if i > 0 {
        FirstReadyNext(s.state, s.queue);
        assert i < |s.queue| ==> s.queue[1..][i - 1] == s.queue[i] && s.queue[1..][i..] == s.queue[i + 1..];
      }
    }
  }

  /** The dispatched state satisfies the invariant. */
  lemma {:induction false} DispatchedKeeps(s: S, c: nat)
    requires Inv(s) && c < |s.current| && s.current[c].None? && CanPick(s, c)
    ensures Inv(Dispatched(s, c))
    decreases |s.queue|
  {
    PollProgress(s, c);
    StepKeeps(s, Op.Poll(c));
    if Poll(s, c).current[c].None? {
      DispatchedKeeps(Poll(s, c), c);
    }
  }

  lemma YieldedOff(s: S, c: nat)
    requires Inv(s) && c < |s.current|
    ensures Inv(Yielded(s, c)) && Yielded(s, c).current[c].None?
  {
    if s.current[c].Some? {
      StepKeeps(s, Op.Yield(c));
    }
  }

  ghost function Elements(ts: seq<nat>): set<nat> { set t | t in ts }

  function Rounds(s: S, c: nat, n: nat): (r: S)
    requires CanPoll(s, c)
    ensures |r.current| == |s.current|
    decreases n
  {
    if n == 0 || !CanPoll(Poll(s, c), c) then s else Rounds(Poll(s, c), c, n - 1)
  }

  /** Without a ready thread to find, the loop spins: no number of rounds gives the CPU a thread. */
  lemma {:induction false} Spins(s: S, c: nat, n: nat)
    requires Inv(s) && c < |s.current| && s.current[c].None? && !CanPick(s, c)
    ensures Rounds(s, c, n).current[c].None?
    decreases n
  {
    if n > 0 {
      PollProgress(s, c);
      StepKeeps(s, Op.Poll(c));
      Spins(Poll(s, c), c, n - 1);
    }
  }

  /** How a CPU gets there: its idle thread, preempted and so queued like any other, is picked by another CPU. */
  lemma IdleTaken(s: S, c: nat, d: nat, n: nat)
    requires Inv(s) && c < |s.current| && d < |s.current| && c != d && s.queue == []
    requires s.current[c] == Some(s.idle[c]) && s.state[s.idle[c]].RUNNING? && s.current[d].None?
    ensures Legal(s, [Op.Yield(c), Op.Poll(d)])
    ensures var r := Run(s, [Op.Yield(c), Op.Poll(d)]);
      && Inv(r) && |r.current| == |s.current| && r.current[d] == Some(s.idle[c]) && r.current[c].None? && !CanPick(r, c)
      && Rounds(r, c, n).current[c].None?
  {
    var ops := [Op.Yield(c), Op.Poll(d)];
    StepKeeps(s, ops[0]);
    var y := Step(s, ops[0]);
    assert y.queue == [s.idle[c]] && y.state[s.idle[c]].READY?;
    StepKeeps(y, ops[1]);
    var r := Step(y, ops[1]);
    assert ops[1..] == [Op.Poll(d)] && ops[1..][1..] == [];
    assert Run(y, ops[1..]) == r;
    Spins(r, c, n);
  }

  /** After an exit exactly the threads given are dead, beside those that were; of the others one runs now. */
  lemma ExitDispatched(s: S, c: nat, kill: set<nat>)
    requires Inv(s) && Enabled(s, Op.Exit(c, kill)) && (forall t :: t in kill ==> t in s.state)
    requires CanPick(Step(s, Op.Exit(c, kill)), c)
    ensures var r := Dispatched(Step(s, Op.Exit(c, kill)), c);
      && r.state.Keys == s.state.Keys && |r.current| == |s.current| && r.current[c].Some?
      && r.current[c].value !in kill && (forall t :: t in kill ==> r.state[t].DEAD?)
      && (forall t :: t in s.state && t !in kill ==>
            r.state[t] == if t == r.current[c].value then RUNNING else s.state[t])
  {
    var y := Step(s, Op.Exit(c, kill));
    StepKeeps(s, Op.Exit(c, kill));
    PickedReady(y, c);
  }

  lemma BlockDispatched(s: S, c: nat)
    requires Inv(s) && Enabled(s, Op.Block(c)) && CanPick(Step(s, Op.Block(c)), c)
    ensures var t, r := s.current[c].value, Dispatched(Step(s, Op.Block(c)), c);
      && t in r.state && r.state[t].BLOCKED? && t !in r.queue && |r.current| == |s.current| && r.current[c] != Some(t)
      && (forall u :: u in r.state && u != t ==>
            u in s.state && r.state[u] == if r.current[c] == Some(u) then RUNNING else s.state[u])
  {
    assert Seated(s, c);
    var y := Step(s, Op.Block(c));
    StepKeeps(s, Op.Block(c));
    PickedReady(y, c);
  }

  /** The thread dispatched was ready, and is the only one whose state changes. */
  lemma PickedReady(s: S, c: nat)
    requires Inv(s) && c < |s.current| && CanPick(s, c)
    ensures var r := Dispatched(s, c);
      && r.current[c].Some? && r.current[c].value in s.state && s.state[r.current[c].value].READY?
      && r.state == s.state[r.current[c].value := RUNNING] && (forall t :: t in r.queue ==> t in s.queue)
  {}

  // ---------------------------------------------------------------- the scheduler's state in place

  /** In the middle of `switch_next`: the thread found makes the state `goal` once it is set running, or it is
      not ready and the loop can still end with the same thread. */
  ghost predicate Picking(now: S, c: nat, goal: S) {
    && c < |now.current| == |now.idle| && now.current[c].Some? && now.current[c].value in now.state
    && var t := now.current[c].value;
      if now.state[t].READY? then S(now.state[t := RUNNING], now.queue, now.current, now.idle) == goal
      else Inv(Off(now, c)) && CanPick(Off(now, c), c) && Dispatched(Off(now, c), c) == goal
  }

  /** The thread found by `next_ready` in `before` takes the loop to `Picking`. */
  lemma RoundPicks(before: S, c: nat, now: S)
    requires Inv(before) && c < |before.current| && before.current[c].None? && CanPick(before, c)
    requires var (r, t) := Found(before, c); now == S(r.state, r.queue, r.current[c := Some(t)], r.idle)
    ensures Picking(now, c, Dispatched(before, c))
    ensures !now.state[now.current[c].value].READY? ==> |now.queue| < |before.queue|
  {
    PollProgress(before, c);
    StepKeeps(before, Op.Poll(c));
    var (r, t) := Found(before, c);
    assert t in before.state;
    if before.state[t].READY? {
      assert Poll(before, c) == S(now.state[t := RUNNING], now.queue, now.current, now.idle);
    } else {
      assert Off(now, c) == Poll(before, c);
    }
  }

  class Scheduler {
    var state: map<nat, TState>
    var queue: seq<nat>
    var current: seq<Option<nat>>
    const idle: seq<nat>

    ghost function Now(): S
      reads this
    {
      S(state, queue, current, idle)
    }

    constructor (idle: seq<nat>)
      ensures this.idle == idle && queue == [] && current == seq(|idle|, i => None)
      ensures Inv(Now()) && forall t :: t in state <==> t in idle
      ensures forall t :: t in state ==> state[t].READY?
    {
      this.idle := idle;
      queue := [];
      current := seq(|idle|, i => None);
      state := map t | t in idle :: READY;
    }

    method NextReady(c: nat) returns (t: nat)
      requires c < |idle| && (queue != [] ==> queue[0] in state)
      modifies this`queue
      ensures (Now(), t) == Found(old(Now()), c)
    {
      if |queue| == 0 { return idle[c]; }
      t := queue[0];
      queue := queue[1..];
      if state[t].RUNNING? {
        queue := queue + [t];
        return idle[c];
      }
    }

    /** `switch_next`: the loop ends with the first ready thread of the queue, or with the idle thread. */
    method SwitchNext(c: nat)
      requires c < |current| && Inv(Off(Now(), c)) && CanPick(Off(Now(), c), c)
      modifies this
      ensures Now() == Dispatched(Off(old(Now()), c), c) && Inv(Now())
    {
      ghost var goal := Dispatched(Off(Now(), c), c);
      DispatchedKeeps(Off(Now(), c), c);
      Round(c);
      while !state[current[c].value].READY?
        invariant Picking(Now(), c, goal)
        decreases if state[current[c].value].READY? then 0 else 1 + |queue|
      {
        Round(c);
      }
      state := state[current[c].value := RUNNING];
    }

    /** One assignment to `current` in the loop of `switch_next`. */
    method Round(c: nat)
      requires c < |current| && Inv(Off(Now(), c)) && CanPick(Off(Now(), c), c)
      modifies this`queue, this`current
      ensures Picking(Now(), c, Dispatched(Off(old(Now()), c), c))
      ensures !state[current[c].value].READY? ==> |queue| < |old(queue)|
    {
      ghost var before := Off(Now(), c);
      assert queue != [] ==> queue[0] in before.queue;
      var t := NextReady(c);
      current := current[c := Some(t)];
      assert before.current[c := Some(t)] == current;
      RoundPicks(before, c, Now());
    }

    /** `switch_task`, the timer interrupt: the running thread goes to the back of the queue. */
    method SwitchTask(c: nat)
      requires c < |current| && Inv(Now()) && CanPick(Yielded(Now(), c), c)
      modifies this
      ensures Now() == Dispatched(Yielded(old(Now()), c), c) && Inv(Now())
    {
      YieldedOff(Now(), c);
      Preempt(c);
      SwitchNext(c);
    }

    method Preempt(c: nat)
      requires c < |current| && Inv(Now())
      modifies this
      ensures |current| == |old(current)| && Off(Now(), c) == Yielded(old(Now()), c)
    {
      if current[c].Some? {
        var t := current[c].value;
        assert Seated(Now(), c);
        if state[t].RUNNING? {
          SpawnThread(t);
        }
      } else {
        assert current[c := None] == current;
      }
    }

    /** `sched_spawnthread`, which is also `thread_unblock`. */
    method SpawnThread(t: nat)
      modifies this`state, this`queue
      ensures Now() == Spawned(old(Now()), t)
    {
      state := state[t := READY];
      queue := queue + [t];
    }

    /** `thread_block`: the thread is not queued, so only `thread_unblock` can bring it back. */
    method ThreadBlock(c: nat)
      requires c < |current| && current[c].Some? && Inv(Now()) && CanPick(Step(Now(), Op.Block(c)), c)
      modifies this
      ensures Now() == Dispatched(Step(old(Now()), Op.Block(c)), c) && Inv(Now())
      ensures var t := old(current)[c].value; t in state && state[t].BLOCKED? && t !in queue && current[c] != Some(t)
      ensures forall t :: t in state && t != old(current)[c].value ==>
        t in old(state) && state[t] == if current[c] == Some(t) then RUNNING else old(state)[t]
    {
      ghost var s := Now();
      BlockDispatched(s, c);
      StepKeeps(s, Op.Block(c));
      state := state[current[c].value := BLOCKED];
      assert Off(Now(), c) == Step(s, Op.Block(c));
      SwitchNext(c);
    }

    /** The scheduling part of `task_exit`: every thread of the process dies, whichever CPU they are on. */
    method TaskExit(c: nat, threads: seq<nat>)
      requires c < |current| && current[c].Some? && current[c].value in threads && Inv(Now())
      requires forall t :: t in threads ==> t in state
      requires CanPick(Step(Now(), Op.Exit(c, Elements(threads))), c)
      modifies this
      ensures Now() == Dispatched(Step(old(Now()), Op.Exit(c, Elements(threads))), c) && Inv(Now())
      ensures state.Keys == old(state).Keys && forall t :: t in threads ==> t in state && state[t].DEAD?
      ensures current[c].Some? && current[c].value !in threads && forall t :: t in state && t !in threads ==>
        state[t] == if t == current[c].value then RUNNING else old(state)[t]
    {
      ghost var s := Now();
      ExitDispatched(s, c, Elements(threads));
      StepKeeps(s, Op.Exit(c, Elements(threads)));
      Kill(threads);
      assert Off(Now(), c) == Step(s, Op.Exit(c, Elements(threads)));
      SwitchNext(c);
    }

    method Kill(threads: seq<nat>)
      requires forall t :: t in threads ==> t in state
      modifies this`state
      ensures Now() == Killed(old(Now()), Elements(threads))
    {
      ghost var s := Now();
      var i := 0;
      while i < |threads|
        invariant 0 <= i <= |threads|
        invariant state == Killed(s, Elements(threads[..i])).state
      {
        assert threads[..i + 1] == threads[..i] + [threads[i]];
        state := state[threads[i] := DEAD];
        i := i + 1;
      }
      assert threads[..i] == threads;
    }
  }
}
