/**
 How processes enter and leave the scheduler's queue: process_table_block,
 process_table_unblock and process_table_exit of src/system/process/table.c over
 the queue operations of src/system/scheduler.c.
 */
module Blocking {
  import opened Options
  import opened Scheduler
  import ProcessQueue

  /** One operation on the queue. */
  datatype Op =
    | Add(p: int, priority: int)
    | Block(p: int)
    | Unblock(p: int)
    | Remove(p: int)
    | Choose

  /** The scheduler and the processes that are done. */
  datatype Machine = Machine(sched: State, done: set<int>)

  /** process_queue_remove: the first node of the process goes. */
  function Dropped(queue: seq<Node>, p: int): seq<Node> {
    if queue == [] then []
    else if queue[0].pid == p then queue[1..]
    else [queue[0]] + Dropped(queue[1..], p)
  }

  function Pids(queue: seq<Node>): (r: seq<int>)
    ensures |r| == |queue|
  {
    seq(|queue|, i requires 0 <= i < |queue| => queue[i].pid)
  }

  /** On the process numbers it is the removal of the process queue. */
  lemma {:induction false} DroppedIsRemoved(queue: seq<Node>, p: int)
    ensures Pids(Dropped(queue, p)) == ProcessQueue.Removed(Pids(queue), p)
  {
    if queue != [] {
      assert Pids(queue)[1..] == Pids(queue[1..]);
      if queue[0].pid != p {
        DroppedIsRemoved(queue[1..], p);
        assert Pids(Dropped(queue, p)) == [queue[0].pid] + Pids(Dropped(queue[1..], p));
      }
    }
  }

  function WithStatus(table: Table, p: int, status: Status): Table
    requires p in table
  {
    table[p := table[p].(status := status)]
  }

  /** Priorities have two bits, and what is done was there. */
  ghost predicate MachineOk(m: Machine) {
    && StateOk(m.sched) && m.done <= m.sched.table.Keys
    && forall p :: p in m.sched.table ==> 0 <= m.sched.table[p].priority <= 3
  }

  ghost predicate Possible(m: Machine, op: Op) {
    match op
    case Add(p, priority) => p !in m.sched.table && 0 <= priority <= 3
    case Choose => true
    case _ => op.p in m.sched.table
  }

  ghost function Applied(m: Machine, op: Op): Machine
    requires MachineOk(m) && Possible(m, op)
  {
    var s := m.sched;
    match op
    case Add(p, priority) => m.(sched := s.(queue := s.queue + [Node(p, 1)],
        table := s.table[p := Schedule(Ready, priority)]))
    case Block(p) => m.(sched := s.(queue := Dropped(s.queue, p), table := WithStatus(s.table, p, Blocked)))
    case Unblock(p) =>
      m.(sched := s.(queue := if p in m.done then s.queue else s.queue + [Node(p, 1)],
          table := WithStatus(s.table, p, Ready)))
    case Remove(p) =>
      Machine(s.(queue := Dropped(s.queue, p), current := if s.current == Some(p) then None else s.current),
          m.done + {p})
    case Choose => m.(sched := Call(s))
  }

  /** How often a process is queued. */
  function Count(queue: seq<Node>, p: int): nat {
    if queue == [] then 0 else (if queue[0].pid == p then 1 else 0) + Count(queue[1..], p)
  }

  lemma {:induction false} CountDropped(queue: seq<Node>, p: int, x: int)
    ensures Count(Dropped(queue, p), x) == if x == p &&
        Count(queue, p) > 0 then Count(queue, x) - 1 else Count(queue, x)
  {
    if queue != [] && queue[0].pid != p {
      CountDropped(queue[1..], p, x);
    }
  }

  lemma {:induction false} CountPushed(queue: seq<Node>, n: Node, x: int)
    ensures Count(queue + [n], x) == Count(queue, x) + if n.pid == x then 1 else 0
  {
    if queue == [] {
      assert queue + [n] == [n];
    } else {
      CountPushed(queue[1..], n, x);
      assert (queue + [n])[1..] == queue[1..] + [n];
    }
  }

  lemma {:induction false} CountSame(queue: seq<Node>, queue': seq<Node>, x: int)
    requires |queue| == |queue'| && forall i :: 0 <= i < |queue| ==> queue[i].pid == queue'[i].pid
    ensures Count(queue, x) == Count(queue', x)
  {
    if queue != [] {
      CountSame(queue[1..], queue'[1..], x);
    }
  }

  lemma {:induction false} CountQueued(queue: seq<Node>, x: int)
    ensures Count(queue, x) > 0 <==> exists i :: 0 <= i < |queue| && queue[i].pid == x
  {
    if queue != [] {
      CountQueued(queue[1..], x);
      if queue[0].pid != x && exists i :: 0 <= i < |queue| && queue[i].pid == x {
        var i :| 0 <= i < |queue| && queue[i].pid == x;
        assert queue[1..][i - 1].pid == x;
      }
    }
  }

  lemma {:induction false} DroppedFrom(queue: seq<Node>, p: int, i: int) returns (j: int)
    requires 0 <= i < |Dropped(queue, p)|
    ensures 0 <= j < |queue| && Dropped(queue, p)[i] == queue[j]
  {
    if queue[0].pid == p {
      j := i + 1;
    } else if i == 0 {
      j := 0;
    } else {
      j := DroppedFrom(queue[1..], p, i - 1);
      j := j + 1;
    }
  }

  /** A call of choose_next moves no process in or out of the queue. */
  lemma CallCounts(s: State, x: int)
    requires StateOk(s)
    ensures Count(Call(s).queue, x) == Count(s.queue, x)
    ensures StateOk(Call(s)) && Call(s).table.Keys == s.table.Keys
    ensures x in s.table && Call(s).table[x].status.Blocked? ==> s.table[x].status.Blocked?
    ensures forall y :: y in s.table ==> Call(s).table[y].priority == s.table[y].priority
  {
    var table := Yielded(s.table, s.current);
    YieldedKnown(s.queue, s.table, s.current);
    AgedKnown(s.queue, table);
    hide Top;
    forall i | 0 <= i < |s.queue| ensures Ageing(s.queue, Aged(s.queue, table), table, i) { }
    CountSame(Call(s).queue, s.queue, x);
  }

  lemma AppliedOk(m: Machine, op: Op)
    requires MachineOk(m) && Possible(m, op)
    ensures MachineOk(Applied(m, op))
  {
    var s, s' := m.sched, Applied(m, op).sched;
    match op
    case Choose => CallCounts(s, 0);
    case Add(p, priority) =>
    case Unblock(p) =>
    case Block(p) =>
      forall i | 0 <= i < |s'.queue| ensures s'.queue[i].pid in s'.table &&
          0 <= s'.table[s'.queue[i].pid].priority <= 3 {
        var j := DroppedFrom(s.queue, p, i);
      }
    case Remove(p) =>
      forall i | 0 <= i < |s'.queue| ensures s'.queue[i].pid in s'.table &&
          0 <= s'.table[s'.queue[i].pid].priority <= 3 {
        var j := DroppedFrom(s.queue, p, i);
      }
  }

  /** No process yet. */
  function Start(): Machine {
    Machine(State([], map[], None), {})
  }

  /** The machine after a run; an operation that is not possible does not happen. */
  ghost function Run(ops: seq<Op>): (m: Machine)
    ensures MachineOk(m)
  {
    if ops == [] then Start()
    else
      var m, op := Run(ops[..|ops| - 1]), ops[|ops| - 1];
      if Possible(m, op) then AppliedOk(m, op); Applied(m, op) else m
  }

  /** A process is unblocked although it is in the queue. */
  ghost predicate Doubled(m: Machine, op: Op, p: int) {
    op == Unblock(p) && p in m.sched.table && p !in m.done && Count(m.sched.queue, p) > 0
  }

  /** How often that happened to a process. */
  ghost function Doublings(ops: seq<Op>, p: int): nat {
    if ops == [] then 0
    else Doublings(ops[..|ops| - 1], p) + if Doubled(Run(ops[..|ops| - 1]), ops[|ops| - 1], p) then 1 else 0
  }

  ghost predicate IsBlocked(m: Machine, p: int) {
    p in m.sched.table && m.sched.table[p].status.Blocked?
  }

  /** A process has one node more than it was doubled at most, and no more than that once blocked or done. */
  ghost predicate Bounded(m: Machine, p: int, doublings: nat) {
    Count(m.sched.queue, p) <= doublings + if IsBlocked(m, p) || p in m.done then 0 else 1
  }

  lemma AppliedBounded(m: Machine, op: Op, p: int, doublings: nat)
    requires MachineOk(m) && Possible(m, op) && Bounded(m, p, doublings)
    ensures Bounded(Applied(m, op), p, doublings + if Doubled(m, op, p) then 1 else 0)
  {
    hide Count, Dropped;
    var s := m.sched;
    match op
    case Choose => CallCounts(s, p);
    case Add(q, priority) =>
      CountPushed(s.queue, Node(q, 1), p);
      CountQueued(s.queue, p);
    case Unblock(q) => CountPushed(s.queue, Node(q, 1), p);
    case Block(q) => CountDropped(s.queue, q, p);
    case Remove(q) => CountDropped(s.queue, q, p);
  }

  lemma {:induction false} RunBounded(ops: seq<Op>, p: int)
    ensures Bounded(Run(ops), p, Doublings(ops, p))
    decreases |ops|
  {
    if ops != [] {
      var before := ops[..|ops| - 1];
      RunBounded(before, p);
      if Possible(Run(before), ops[|ops| - 1]) {
        AppliedBounded(Run(before), ops[|ops| - 1], p, Doublings(before, p));
      }
    }
  }

  lemma {:induction false} DoubledSomewhere(ops: seq<Op>, p: int)
    requires Doublings(ops, p) > 0
    ensures exists i :: 0 <= i < |ops| && Doubled(Run(ops[..i]), ops[i], p)
    decreases |ops|
  {
    hide Run, Doubled;
    var last := |ops| - 1;
    if !Doubled(Run(ops[..last]), ops[last], p) {
      DoubledSomewhere(ops[..last], p);
      var i :| 0 <= i < last && Doubled(Run(ops[..last][..i]), ops[..last][i], p);
      assert ops[..last][..i] == ops[..i];
      assert Doubled(Run(ops[..i]), ops[i], p);
    }
  }

  /** After any run, a blocked process is queued only if it was unblocked before while it was queued. */
  lemma BlockedIsDoubled(ops: seq<Op>, p: int)
    requires IsBlocked(Run(ops), p) && Count(Run(ops).sched.queue, p) > 0
    ensures exists i :: 0 <= i < |ops| && Doubled(Run(ops[..i]), ops[i], p)
  {
    RunBounded(ops, p);
    DoubledSomewhere(ops, p);
  }

  /** So in a run without that, no process in the queue is blocked, and choose_next runs none that is. */
  lemma NeverDoubled(ops: seq<Op>)
    requires forall i, p {:trigger Doubled(Run(ops[..i]), ops[i], p)} :: 0 <= i < |ops| ==>
        !Doubled(Run(ops[..i]), ops[i], p)
    ensures NoneBlocked(Run(ops).sched.queue, Run(ops).sched.table)
  {
    var s := Run(ops).sched;
    forall i | 0 <= i < |s.queue| ensures !s.table[s.queue[i].pid].status.Blocked? {
      CountQueued(s.queue, s.queue[i].pid);
      if s.table[s.queue[i].pid].status.Blocked? {
        BlockedIsDoubled(ops, s.queue[i].pid);
      }
    }
  }

  /** A process that is done stays out of the queue, unless it was unblocked before while it was queued. */
  lemma DoneStaysOut(ops: seq<Op>, p: int)
    requires p in Run(ops).done && Count(Run(ops).sched.queue, p) > 0
    ensures exists i :: 0 <= i < |ops| && Doubled(Run(ops[..i]), ops[i], p)
  {
    RunBounded(ops, p);
    DoubledSomewhere(ops, p);
  }

  // Nothing that can run is lost.

  /** A process that is neither blocked nor done is queued. */
  ghost predicate Queued(m: Machine, p: int) {
    p in m.sched.table && !IsBlocked(m, p) && p !in m.done ==> Count(m.sched.queue, p) > 0
  }

  /** choose_next starts a process that was blocked only off the queue. */
  lemma CallUnblocks(s: State, p: int)
    requires StateOk(s) && p in s.table && s.table[p].status.Blocked?
    ensures p in Call(s).table && (!Call(s).table[p].status.Blocked? ==> Count(s.queue, p) > 0)
  {
    YieldedKnown(s.queue, s.table, s.current);
    CountQueued(s.queue, p);
    hide Count;
    if s.queue != [] {
      CallDoes(s);
      var t: nat :| Chosen(s, Call(s), t);
      assert s.queue[t].pid == p || Call(s).current != Some(p);
    }
  }

  lemma AppliedQueued(m: Machine, op: Op, p: int)
    requires MachineOk(m) && Possible(m, op) && Queued(m, p)
    ensures Queued(Applied(m, op), p)
  {
    hide Count, Dropped;
    var s := m.sched;
    match op
    case Choose =>
      CallCounts(s, p);
      if IsBlocked(m, p) { CallUnblocks(s, p); }
    case Add(q, priority) => CountPushed(s.queue, Node(q, 1), p);
    case Unblock(q) => CountPushed(s.queue, Node(q, 1), p);
    case Block(q) => CountDropped(s.queue, q, p);
    case Remove(q) => CountDropped(s.queue, q, p);
  }

  /** After any run, every process that is neither blocked nor done is in the queue. */
  lemma {:induction false} RunnableIsQueued(ops: seq<Op>, p: int)
    ensures Queued(Run(ops), p)
    decreases |ops|
  {
    if ops != [] {
      var before := ops[..|ops| - 1];
      RunnableIsQueued(before, p);
      if Possible(Run(before), ops[|ops| - 1]) {
        AppliedQueued(Run(before), ops[|ops| - 1], p);
      }
    }
  }

  // Exactly when a blocked process stays queued.

  /** No blocked process is queued. */
  ghost predicate Clean(m: Machine) {
    forall p {:trigger IsBlocked(m, p)} :: IsBlocked(m, p) ==> Count(m.sched.queue, p) == 0
  }

  /** The operation blocks a process that is queued twice or more. */
  ghost predicate TwiceAtBlock(m: Machine, op: Op) {
    op.Block? && Possible(m, op) && Count(m.sched.queue, op.p) >= 2
  }

  /** From a clean queue, an operation leaves a clean one exactly unless it blocks a process that is queued twice. */
  lemma AppliedClean(m: Machine, op: Op)
    requires MachineOk(m) && Possible(m, op) && Clean(m)
    ensures Clean(Applied(m, op)) <==> !TwiceAtBlock(m, op)
  {
    hide Count, Dropped, Call;
    var m' := Applied(m, op);
    forall p ensures CountAfter(m, op, p) {
      CountAfterHolds(m, op, p);
    }
    if op.Block? {
      assert CountAfter(m, op, op.p);
      assert IsBlocked(m', op.p);
    }
    if !TwiceAtBlock(m, op) {
      forall p | IsBlocked(m', p) ensures Count(m'.sched.queue, p) == 0 {
        assert CountAfter(m, op, p);
        assert IsBlocked(m, p) || op == Block(p);
      }
    }
  }

  /** How an operation changes the nodes of a process, and that it blocks nobody but by Block. */
  ghost predicate CountAfter(m: Machine, op: Op, p: int)
    requires MachineOk(m) && Possible(m, op)
  {
    var m' := Applied(m, op);
    var before, after := Count(m.sched.queue, p), Count(m'.sched.queue, p);
    && (IsBlocked(m', p) ==> IsBlocked(m, p) || op == Block(p))
    && (op == Block(p) ==> after == if before > 0 then before - 1 else 0)
    && (IsBlocked(m', p) && op != Block(p) ==> after <= before)
  }

  lemma CountAfterHolds(m: Machine, op: Op, p: int)
    requires MachineOk(m) && Possible(m, op)
    ensures CountAfter(m, op, p)
  {
    hide Count, Dropped;
    var s := m.sched;
    match op
    case Choose => CallCounts(s, p);
    case Add(q, priority) => CountPushed(s.queue, Node(q, 1), p);
    case Unblock(q) => CountPushed(s.queue, Node(q, 1), p);
    case Block(q) => CountDropped(s.queue, q, p);
    case Remove(q) => CountDropped(s.queue, q, p);
  }

  /** Over any run: no blocked process is ever queued exactly if no process is ever blocked while it is queued twice. */
  lemma {:induction false} CleanExactly(ops: seq<Op>)
    ensures (forall k :: 0 <= k <= |ops| ==> Clean(Run(ops[..k]))) <==>
            (forall k :: 0 <= k < |ops| ==> !TwiceAtBlock(Run(ops[..k]), ops[k]))
  {
    hide Clean, TwiceAtBlock, Applied, Run;
    if forall k :: 0 <= k <= |ops| ==> Clean(Run(ops[..k])) {
      forall k | 0 <= k < |ops| ensures !TwiceAtBlock(Run(ops[..k]), ops[k]) {
        assert Clean(Run(ops[..k])) && Clean(Run(ops[..k + 1]));
        CleanNext(ops, k);
      }
    }
    if forall k :: 0 <= k < |ops| ==> !TwiceAtBlock(Run(ops[..k]), ops[k]) {
      forall k | 0 <= k <= |ops| ensures Clean(Run(ops[..k])) {
        CleanSoFar(ops, k);
      }
    }
  }

  lemma CleanNext(ops: seq<Op>, k: nat)
    requires k < |ops| && Clean(Run(ops[..k]))
    ensures Clean(Run(ops[..k + 1])) <==> !TwiceAtBlock(Run(ops[..k]), ops[k])
  {
    hide Clean, Applied, Run;
    RunNext(ops, k);
    if Possible(Run(ops[..k]), ops[k]) {
      AppliedClean(Run(ops[..k]), ops[k]);
    }
  }

  lemma {:induction false} CleanSoFar(ops: seq<Op>, k: nat)
    requires k <= |ops| && forall i :: 0 <= i < |ops| ==> !TwiceAtBlock(Run(ops[..i]), ops[i])
    ensures Clean(Run(ops[..k]))
  {
    if k == 0 {
      assert ops[..0] == [];
    } else {
      hide Clean, Run, TwiceAtBlock;
      CleanSoFar(ops, k - 1);
      CleanNext(ops, k - 1);
    }
  }

  // Why it does no harm: the idle process heads the queue.

  lemma {:induction false} DroppedHead(queue: seq<Node>, p: int)
    requires queue != [] && queue[0].pid != p
    ensures Dropped(queue, p) != [] && Dropped(queue, p)[0] == queue[0]
  {
  }

  /** The first process is the idle process, which kmain creates first and which neither waits nor exits. */
  ghost predicate IdleFirst(ops: seq<Op>, idle: int) {
    && ops != [] && ops[0].Add? && ops[0].p == idle && 0 <= ops[0].priority <= 3
    && forall i :: 0 < i < |ops| ==> ops[i] != Block(idle) && ops[i] != Remove(idle)
  }

  ghost predicate Heads(s: State, idle: int) {
    s.queue != [] && s.queue[0].pid == idle && idle in s.table && !s.table[idle].status.Blocked?
  }

  lemma AppliedHeads(m: Machine, op: Op, idle: int)
    requires MachineOk(m) && Possible(m, op) && Heads(m.sched, idle) && op != Block(idle) && op != Remove(idle)
    ensures Heads(Applied(m, op).sched, idle)
  {
    match op
    case Block(q) => DroppedHead(m.sched.queue, q);
    case Remove(q) => DroppedHead(m.sched.queue, q);
    case Choose => CallHeads(m.sched, idle);
    case _ =>
  }

  lemma CallHeads(s: State, idle: int)
    requires StateOk(s) && Heads(s, idle)
    ensures Heads(Call(s), idle)
    ensures Call(s).current.Some? && Call(s).current.value in s.table && !s.table[Call(s).current.value].status.Blocked?
  {
    var table := Yielded(s.table, s.current);
    YieldedKnown(s.queue, s.table, s.current);
    AgedKnown(s.queue, table);
    var aged := Aged(s.queue, table);
    TopIsFirstMaximum(aged, table, |aged|);
    hide Top;
    forall i | 0 <= i < |s.queue| ensures Ageing(s.queue, aged, table, i) { }
  }

  lemma {:induction false} RunHeads(ops: seq<Op>, idle: int)
    requires IdleFirst(ops, idle)
    ensures Heads(Run(ops).sched, idle)
    decreases |ops|
  {
    var last := |ops| - 1;
    if last == 0 {
      assert ops[..0] == [];
      assert Run(ops[..0]) == Start();
    } else {
      RunHeads(ops[..last], idle);
      if Possible(Run(ops[..last]), ops[last]) {
        AppliedHeads(Run(ops[..last]), ops[last], idle);
      }
    }
  }

  /** With an idle process at the head, choose_next runs no blocked process, whatever was queued twice. */
  lemma NeverRunsBlocked(ops: seq<Op>, idle: int)
    requires IdleFirst(ops, idle)
    ensures var s := Run(ops).sched;
            Call(s).current.Some? && Call(s).current.value in s.table && !s.table[Call(s).current.value].status.Blocked?
  {
    RunHeads(ops, idle);
    CallHeads(Run(ops).sched, idle);
  }

  // How a process gets queued twice.

  /** What the kernel does to processes: waits set ioWait or inWait, and a return clears it. */
  datatype Act =
    | Creates(p: int, priority: int)
    | IoWaits(p: int)
    | IoReturns(p: int)
    | ChildWaits(p: int)
    | ChildReturns(p: int)
    | Wakes(p: int)
    | Exits(p: int, parent: int, active: bool)
    | Schedules

  datatype Flags = Flags(ioWait: set<int>, inWait: set<int>)

  function FlagsAfter(f: Flags, a: Act): Flags {
    match a
    case IoWaits(p) => f.(ioWait := f.ioWait + {p})
    case IoReturns(p) => f.(ioWait := f.ioWait - {p})
    case ChildWaits(p) => f.(inWait := f.inWait + {p})
    case ChildReturns(p) => f.(inWait := f.inWait - {p})
    case _ => f
  }

  /** process_table_exit may unblock the parent once for each flag. */
  function OpsOf(f: Flags, a: Act): seq<Op> {
    match a
    case Creates(p, priority) => [Add(p, priority)]
    case IoWaits(p) => [Block(p)]
    case ChildWaits(p) => [Block(p)]
    case Wakes(p) => [Unblock(p)]
    case Exits(p, q, active) =>
      [Remove(p)] + (if active && q in f.ioWait then [Unblock(q)] else []) + (if q in f.inWait then [Unblock(q)] else [])
    case Schedules => [Choose]
    case _ => []
  }

  function Trace(f: Flags, acts: seq<Act>): seq<Op>
    decreases |acts|
  {
    if acts == [] then [] else OpsOf(f, acts[0]) + Trace(FlagsAfter(f, acts[0]), acts[1..])
  }

  /**
   Process 1 creates process 2 and opens a pipe to it, which waits and does not
   clear ioWait; it waits for process 2, whose exit unblocks it twice; and then
   it waits again.
   */
  function TwiceUnblocked(): seq<Act> {
    [Creates(0, 0), Creates(1, 0), Creates(2, 0), IoWaits(1), Wakes(1), ChildWaits(1), Exits(2, 1, true),
        ChildReturns(1), IoWaits(1)]
  }

  function TwiceOps(): seq<Op> {
    [Add(0, 0), Add(1, 0), Add(2, 0), Block(1), Unblock(1), Block(1), Remove(2), Unblock(1), Unblock(1), Block(1)]
  }

  lemma TraceNext(f: Flags, acts: seq<Act>, k: nat)
    requires k < |acts|
    ensures Trace(f, acts[k..]) == OpsOf(f, acts[k]) + Trace(FlagsAfter(f, acts[k]), acts[k + 1..])
  {
    assert acts[k..][1..] == acts[k + 1..];
  }

  lemma TwiceTail()
    ensures Trace(Flags({1}, {}), TwiceUnblocked()[5..]) == TwiceOps()[5..]
  {
    var acts := TwiceUnblocked();
    var f1, f2 := Flags({1}, {}), Flags({1}, {1});
    assert acts[9..] == [] && Trace(f1, []) == [];
    assert FlagsAfter(f1, IoWaits(1)) == f1 && FlagsAfter(f1, ChildWaits(1)) == f2 &&
        FlagsAfter(f2, ChildReturns(1)) == f1;
    hide Trace, FlagsAfter;
    TraceNext(f1, acts, 8);
    TraceNext(f2, acts, 7);
    assert Trace(f2, acts[7..]) == [Block(1)];
    TraceNext(f2, acts, 6);
    assert FlagsAfter(f2, acts[6]) == f2 by { Unchanged(f2, acts[6]); }
    TraceNext(f1, acts, 5);
  }

  lemma Unchanged(f: Flags, a: Act)
    requires a.Creates? || a.Wakes? || a.Exits? || a.Schedules?
    ensures FlagsAfter(f, a) == f
  {
  }

  /** The operations of that run. */
  lemma TwiceTrace()
    ensures Trace(Flags({}, {}), TwiceUnblocked()) == TwiceOps()
  {
    var acts := TwiceUnblocked();
    var f0, f1 := Flags({}, {}), Flags({1}, {});
    assert acts[0..] == acts;
    assert FlagsAfter(f0, IoWaits(1)) == f1;
    hide Trace, FlagsAfter;
    TwiceTail();
    TraceNext(f1, acts, 4);
    Unchanged(f1, acts[4]);
    TraceNext(f0, acts, 3);
    TraceNext(f0, acts, 2);
    Unchanged(f0, acts[2]);
    TraceNext(f0, acts, 1);
    Unchanged(f0, acts[1]);
    TraceNext(f0, acts, 0);
    Unchanged(f0, acts[0]);
  }

  lemma RunNext(ops: seq<Op>, k: nat)
    requires k < |ops|
    ensures var m := Run(ops[..k]);
            Run(ops[..k + 1]) == if Possible(m, ops[k]) then Applied(m, ops[k]) else m
  {
    assert ops[..k + 1][..k] == ops[..k];
  }

  /** The queue, the processes that are blocked and those that are done, as the run goes on. */
  function TwiceState(k: nat): Machine {
    var ready, blocked := Schedule(Ready, 0), Schedule(Blocked, 0);
    var n0, n1, n2 := Node(0, 1), Node(1, 1), Node(2, 1);
    var t2, t3 := map[0 := ready, 1 := ready, 2 := ready], map[0 := ready, 1 := blocked, 2 := ready];
    if k == 0 then Start()
    else if k == 1 then Machine(State([n0], map[0 := ready], None), {})
    else if k == 2 then Machine(State([n0, n1], map[0 := ready, 1 := ready], None), {})
    else if k == 3 then Machine(State([n0, n1, n2], t2, None), {})
    else if k == 4 then Machine(State([n0, n2], t3, None), {})
    else if k == 5 then Machine(State([n0, n2, n1], t2, None), {})
    else if k == 6 then Machine(State([n0, n2], t3, None), {})
    else if k == 7 then Machine(State([n0], t3, None), {2})
    else if k == 8 then Machine(State([n0, n1], t2, None), {2})
    else if k == 9 then Machine(State([n0, n1, n1], t2, None), {2})
    else Machine(State([n0, n1], t3, None), {2})
  }

  ghost predicate TwiceStep(k: nat)
    requires k < |TwiceOps()|
  {
    && MachineOk(TwiceState(k)) && Possible(TwiceState(k), TwiceOps()[k])
    && Applied(TwiceState(k), TwiceOps()[k]) == TwiceState(k + 1)
  }

  lemma IdleComes()
    ensures TwiceStep(0)
  {
    hide Call;
  }

  lemma ParentComes()
    ensures TwiceStep(1)
  {
    hide Call;
  }

  lemma ChildComes()
    ensures TwiceStep(2)
  {
    hide Call;
  }

  lemma ParentWaits()
    ensures TwiceStep(3)
  {
    hide Call;
    assert Dropped([Node(0, 1), Node(1, 1), Node(2, 1)], 1) == [Node(0, 1), Node(2, 1)];
  }

  lemma ParentWakes()
    ensures TwiceStep(4)
  {
    hide Call;
  }

  lemma ParentWaitsForChild()
    ensures TwiceStep(5)
  {
    hide Call;
    assert Dropped([Node(0, 1), Node(2, 1), Node(1, 1)], 1) == [Node(0, 1), Node(2, 1)];
  }

  lemma ChildGoes()
    ensures TwiceStep(6)
  {
    hide Call;
    assert Dropped([Node(0, 1), Node(2, 1)], 2) == [Node(0, 1)];
  }

  lemma ParentWakesOnce()
    ensures TwiceStep(7)
  {
    hide Call;
  }

  lemma ParentWakesTwice()
    ensures TwiceStep(8)
  {
    hide Call;
  }

  lemma ParentWaitsAgain()
    ensures TwiceStep(9)
  {
    hide Call;
    assert Dropped([Node(0, 1), Node(1, 1), Node(1, 1)], 1) == [Node(0, 1), Node(1, 1)];
  }

  lemma TwiceSteps(k: nat)
    requires k < |TwiceOps()|
    ensures TwiceStep(k)
  {
    hide TwiceStep;
    IdleComes();
    ParentComes();
    ChildComes();
    ParentWaits();
    ParentWakes();
    ParentWaitsForChild();
    ChildGoes();
    ParentWakesOnce();
    ParentWakesTwice();
    ParentWaitsAgain();
  }

  lemma {:induction false} TwiceRun(k: nat)
    requires k <= |TwiceOps()|
    ensures Run(TwiceOps()[..k]) == TwiceState(k)
  {
    hide TwiceState, Applied, Possible;
    if k == 0 {
      StartState();
    } else {
      TwiceRun(k - 1);
      RunNext(TwiceOps(), k - 1);
      TwiceSteps(k - 1);
    }
  }

  lemma StartState()
    ensures TwiceState(0) == Start() == Run([])
  {
  }

  /** Process 1 is then blocked and still queued, behind the idle process. */
  lemma BlockedAndQueued()
    ensures IdleFirst(TwiceOps(), 0) && Doubled(Run(TwiceOps()[..8]), TwiceOps()[8], 1)
    ensures var m := Run(TwiceOps()); IsBlocked(m, 1) && m.sched.queue == [Node(0, 1), Node(1, 1)]
  {
    hide Call, Run, Applied;
    TwiceRun(8);
    TwiceRun(10);
    assert TwiceOps()[..10] == TwiceOps();
    assert TwiceState(8).sched.queue[1..][0].pid == 1;
  }
}
