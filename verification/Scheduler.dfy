/**
 The aging scheduler of src/system/scheduler/priorityScheduler.c: every call
 of choose_next adds priority + 1 to each process that is not blocked and runs
 the one that has accumulated most, starting it over at 1.
 */
module Scheduler {
  import opened Options
  import opened Sets
  import opened Arith

  datatype Status = Running | Ready | Blocked

  /** The part of a process the scheduler looks at; priority is a two-bit field. */
  datatype Schedule = Schedule(status: Status, priority: int)

  datatype Node = Node(pid: int, acum: int)

  type Table = map<int, Schedule>

  ghost predicate Known(queue: seq<Node>, table: Table) {
    forall i :: 0 <= i < |queue| ==> queue[i].pid in table && 0 <= table[queue[i].pid].priority <= 3
  }

  function Gain(table: Table, pid: int): int
    requires pid in table
  {
    if table[pid].status.Blocked? then 0 else table[pid].priority + 1
  }

  /** The queue with every process's gain added. */
  function Aged(queue: seq<Node>, table: Table): (r: seq<Node>)
    requires Known(queue, table)
  {
    seq(|queue|, i requires 0 <= i < |queue| => Node(queue[i].pid, queue[i].acum + Gain(table, queue[i].pid)))
  }

  ghost predicate Ageing(queue: seq<Node>, aged: seq<Node>, table: Table, i: int) {
    0 <= i < |queue| && i < |aged| ==>
      && queue[i].pid in table
      && aged[i] == Node(queue[i].pid, queue[i].acum + Gain(table, queue[i].pid))
  }

  lemma AgedKnown(queue: seq<Node>, table: Table)
    requires Known(queue, table)
    ensures var aged := Aged(queue, table); |aged| == |queue| && Known(aged, table)
    ensures forall i {:trigger Ageing(queue, Aged(queue, table), table, i)} ::
              Ageing(queue, Aged(queue, table), table, i)
  {
  }

  /** The node updateAcumPriorities has in top_priority after k nodes of the aged queue. */
  function Top(aged: seq<Node>, table: Table, k: nat): (t: nat)
    requires Known(aged, table) && 0 < |aged| && k <= |aged|
    ensures t < |aged| && (t == 0 || t < k)
  {
    if k == 0 then 0
    else
      var t := Top(aged, table, k - 1);
      if !table[aged[k - 1].pid].status.Blocked? && aged[k - 1].acum > aged[t].acum then k - 1 else t
  }

  lemma TopStep(aged: seq<Node>, table: Table, k: nat)
    requires Known(aged, table) && 0 < |aged| && k <= |aged|
    ensures k == 0 ==> Top(aged, table, k) == 0
    ensures k > 0 ==>
              var t := Top(aged, table, k - 1);
              && aged[k - 1].pid in table
              && Top(aged, table, k) ==
                 if !table[aged[k - 1].pid].status.Blocked? && aged[k - 1].acum > aged[t].acum then k - 1 else t
  {
  }

  /** Nothing eligible has accumulated more than the top, and nothing eligible before it as much. */
  lemma {:induction false} TopIsFirstMaximum(aged: seq<Node>, table: Table, k: nat)
    requires Known(aged, table) && 0 < |aged| && k <= |aged|
    ensures var t := Top(aged, table, k);
            && (t == 0 || !table[aged[t].pid].status.Blocked?)
            && aged[0].acum <= aged[t].acum && (t > 0 ==> aged[0].acum < aged[t].acum)
            && (forall i :: 0 <= i < k && !table[aged[i].pid].status.Blocked? ==>
                  aged[i].acum <= aged[t].acum && (i < t ==> aged[i].acum < aged[t].acum))
  {
    if k > 0 { TopIsFirstMaximum(aged, table, k - 1); }
  }

  /** A blocked process is run exactly when it heads the queue and nothing eligible has accumulated more. */
  lemma BlockedIsRun(aged: seq<Node>, table: Table)
    requires Known(aged, table) && 0 < |aged|
    ensures table[aged[Top(aged, table, |aged|)].pid].status.Blocked? <==>
              && table[aged[0].pid].status.Blocked?
              && forall i :: 0 <= i < |aged| && !table[aged[i].pid].status.Blocked? ==> aged[i].acum <= aged[0].acum
  {
    TopIsFirstMaximum(aged, table, |aged|);
  }

  /** updateAcumPriorities: ages every node and finds the top one. */
  method UpdateAcumPriorities(queue: seq<Node>, table: Table) returns (aged: seq<Node>, top: nat)
    requires Known(queue, table) && 0 < |queue|
    ensures aged == Aged(queue, table) && Known(aged, table)
    ensures top == Top(aged, table, |aged|)
  {
    AgedKnown(queue, table);
    aged, top := AgeAll(queue, table, Aged(queue, table));
  }

  /** Its loop, with the aged queue it is to produce as a ghost. */
  method AgeAll(queue: seq<Node>, table: Table, ghost goal: seq<Node>) returns (aged: seq<Node>, top: nat)
    requires Known(goal, table) && 0 < |queue| == |goal|
    requires forall i {:trigger Ageing(queue, goal, table, i)} :: Ageing(queue, goal, table, i)
    ensures aged == goal
    ensures top == Top(goal, table, |queue|)
  {
    hide Known, Top;
    TopStep(goal, table, 0);
    aged, top := queue, 0;
    for i := 0 to |queue|
      invariant |aged| == |queue|
      invariant forall j :: 0 <= j < i ==> aged[j] == goal[j]
      invariant forall j :: i <= j < |queue| ==> aged[j] == queue[j]
      invariant (top == 0 || top < i) && top == Top(goal, table, i)
    {
      assert Ageing(queue, goal, table, i);
      TopStep(goal, table, i + 1);
      var p := aged[i].pid;
      if !table[p].status.Blocked? {
        aged := aged[i := Node(p, aged[i].acum + table[p].priority + 1)];
        if aged[i].acum > aged[top].acum {
          top := i;
        }
      }
    }
  }

  function Yielded(table: Table, current: Option<int>): Table {
    if current.Some? && current.value in table && table[current.value].status.Running? then
      table[current.value := table[current.value].(status := Ready)]
    else table
  }

  function Started(table: Table, pid: int): Table
    requires pid in table
  {
    table[pid := table[pid].(status := Running)]
  }

  datatype State = State(queue: seq<Node>, table: Table, current: Option<int>)

  ghost predicate StateOk(s: State) {
    Known(s.queue, s.table) && (s.current.Some? ==> s.current.value in s.table)
  }

  lemma YieldedKnown(queue: seq<Node>, table: Table, current: Option<int>)
    requires Known(queue, table)
    ensures Known(queue, Yielded(table, current))
  {
  }

  /** The effect of one call of choose_next. */
  ghost function Call(s: State): State
    requires StateOk(s)
  {
    YieldedKnown(s.queue, s.table, s.current);
    var table := Yielded(s.table, s.current);
    if |s.queue| == 0 then State(s.queue, table, s.current)
    else
      AgedKnown(s.queue, table);
      var aged := Aged(s.queue, table);
      var t := Top(aged, table, |aged|);
      State(aged[t := Node(aged[t].pid, 1)], Started(table, aged[t].pid), Some(aged[t].pid))
  }

  /** What a process of the table has accumulated once it is aged. */
  function Due(n: Node, table: Table): int
    requires n.pid in table
  {
    if table[n.pid].status == Blocked then n.acum else n.acum + table[n.pid].priority + 1
  }

  /** Node t is chosen: the first of the eligible ones with most, or the head, and the only one to start over. */
  ghost predicate Chosen(s: State, s': State, t: nat)
    requires Known(s.queue, s.table)
  {
    && t < |s.queue| == |s'.queue| && s'.current == Some(s.queue[t].pid)
    && (t == 0 || s.table[s.queue[t].pid].status != Blocked)
    && (forall i :: 0 <= i < |s.queue| && (i == 0 || s.table[s.queue[i].pid].status != Blocked) ==>
          Due(s.queue[i], s.table) <= Due(s.queue[t], s.table) &&
          (i < t ==> Due(s.queue[i], s.table) < Due(s.queue[t], s.table)))
    && forall i :: 0 <= i < |s.queue| ==>
         s'.queue[i] == Node(s.queue[i].pid, if i == t then 1 else Due(s.queue[i], s.table))
  }

  /** No process but the current one is running. */
  ghost predicate OneRuns(s: State) {
    forall p :: p in s.table && s.table[p].status == Running ==> s.current == Some(p)
  }

  /** A call of choose_next ages every node, starts the chosen one over and makes it current. */
  lemma CallDoes(s: State)
    requires StateOk(s)
    ensures if s.queue == [] then Call(s).queue == [] && Call(s).current == s.current
            else exists t: nat :: Chosen(s, Call(s), t)
  {
    var table := Yielded(s.table, s.current);
    YieldedKnown(s.queue, s.table, s.current);
    if s.queue != [] {
      AgedKnown(s.queue, table);
      var aged := Aged(s.queue, table);
      var t := Top(aged, table, |aged|);
      TopIsFirstMaximum(aged, table, |aged|);
      hide Top;
      forall i | 0 <= i < |s.queue|
        ensures aged[i] == Node(s.queue[i].pid, Due(s.queue[i], s.table))
        ensures table[s.queue[i].pid].status == Blocked <==> s.table[s.queue[i].pid].status == Blocked
      {
        assert Ageing(s.queue, aged, table, i);
      }
      assert Chosen(s, Call(s), t);
    }
  }

  /**
   After a call the chosen process is running and every other process that was is ready; where only the
   current process may run, exactly the chosen one does, or none with nothing to choose from.
   */
  lemma CallRuns(s: State)
    requires StateOk(s) && OneRuns(s)
    ensures var s' := Call(s);
            && OneRuns(s') && s'.table.Keys == s.table.Keys
            && (forall p :: p in s.table ==> s'.table[p].priority == s.table[p].priority)
            && (forall p :: p in s.table ==>
                  s'.table[p].status ==
                    if s.queue != [] && s'.current == Some(p) then Running
                    else if s.table[p].status == Running then Ready
                    else s.table[p].status)
            && (s.queue != [] ==> s'.current.Some? && s'.current.value in s'.table)
  {
    YieldedKnown(s.queue, s.table, s.current);
    hide Top, Known;
    if s.queue != [] {
      CallDoes(s);
    }
  }

  /** The chosen process is current and, where only the current one may have been running, the one that runs. */
  ghost predicate Dispatches(s: State, s': State)
    requires Known(s.queue, s.table)
  {
    && (exists t: nat :: Chosen(s, s', t))
    && (OneRuns(s) ==> forall p :: p in s'.table ==> (s'.table[p].status == Running <==> s'.current == Some(p)))
  }

  lemma CallDispatches(s: State)
    requires StateOk(s)
    ensures s.queue != [] ==> Dispatches(s, Call(s))
  {
    hide Chosen;
    if s.queue != [] {
      CallDoes(s);
      if OneRuns(s) { CallRuns(s); }
    }
  }

  class PriorityScheduler {
    var queue: seq<Node>
    var table: Table
    var current: Option<int>

    ghost function View(): State
      reads this
    {
      State(queue, table, current)
    }

    /** choose_next: runs the top node's process and starts its accumulation over. */
    method ChooseNext()
      requires StateOk(View())
      modifies this
      ensures View() == Call(old(View())) && StateOk(View())
      ensures old(queue) != [] ==> Dispatches(old(View()), View())
    {
      CallDispatches(View());
      hide Dispatches;
      YieldedKnown(queue, table, current);
      if current.Some? && table[current.value].status.Running? {
        table := table[current.value := table[current.value].(status := Ready)];
      }
      if |queue| > 0 {
        var top;
        queue, top := UpdateAcumPriorities(queue, table);
        current := Some(queue[top].pid);
        queue := queue[top := Node(queue[top].pid, 1)];
        table := table[current.value := table[current.value].(status := Running)];
      }
    }
  }

  // Whole runs of choose_next over a fixed queue of processes that are never blocked.

  function Acums(queue: seq<Node>): (r: seq<int>)
    ensures |r| == |queue|
  {
    seq(|queue|, i requires 0 <= i < |queue| => queue[i].acum)
  }

  function Gains(queue: seq<Node>, table: Table): (r: seq<int>)
    requires Known(queue, table)
    ensures |r| == |queue|
  {
    seq(|queue|, i requires 0 <= i < |queue| => Gain(table, queue[i].pid))
  }

  ghost predicate NoneBlocked(queue: seq<Node>, table: Table) {
    Known(queue, table) && forall i :: 0 <= i < |queue| ==> !table[queue[i].pid].status.Blocked?
  }

  ghost predicate GainsOk(g: seq<int>) {
    forall i :: 0 <= i < |g| ==> 1 <= g[i] <= 4
  }

  function Plus(a: seq<int>, g: seq<int>): (r: seq<int>)
    requires |a| == |g|
    ensures |r| == |a|
  {
    seq(|a|, i requires 0 <= i < |a| => a[i] + g[i])
  }

  /** Index of the first maximum. */
  ghost predicate FirstMax(b: seq<int>, t: int) {
    && 0 <= t < |b|
    && (forall i :: 0 <= i < |b| ==> b[i] <= b[t])
    && (forall i :: 0 <= i < t ==> b[i] < b[t])
  }

  lemma {:induction false} FirstMaxExists(b: seq<int>) returns (t: int)
    requires |b| > 0
    ensures FirstMax(b, t)
  {
    if |b| == 1 {
      t := 0;
    } else {
      var last := |b| - 1;
      t := FirstMaxExists(b[..last]);
      assert forall i :: 0 <= i < last ==> b[..last][i] == b[i];
      if b[last] > b[t] { t := last; }
    }
  }

  ghost function Turn(b: seq<int>): (t: int)
    requires |b| > 0
    ensures FirstMax(b, t)
  {
    assert exists t :: FirstMax(b, t) by { var t := FirstMaxExists(b); }
    var t :| FirstMax(b, t);
    t
  }

  /** The accumulations after m calls. */
  ghost function After(a: seq<int>, g: seq<int>, m: nat): (r: seq<int>)
    requires |a| == |g| > 0
    ensures |r| == |a|
  {
    if m == 0 then a
    else
      var b := Plus(After(a, g, m - 1), g);
      b[Turn(b) := 1]
  }

  /** Which process call m (counting from 0) picks. */
  ghost function Choice(a: seq<int>, g: seq<int>, m: nat): (t: int)
    requires |a| == |g| > 0
    ensures 0 <= t < |a|
  {
    Turn(Plus(After(a, g, m), g))
  }

  /** One call of choose_next on a queue with nothing blocked is one step of After. */
  lemma CallIsStep(queue: seq<Node>, table: Table)
    requires NoneBlocked(queue, table) && 0 < |queue|
    ensures GainsOk(Gains(queue, table))
    ensures var aged := Aged(queue, table);
            && Known(aged, table)
            && var t := Top(aged, table, |aged|);
            && t == Choice(Acums(queue), Gains(queue, table), 0)
            && Acums(aged[t := Node(aged[t].pid, 1)]) == After(Acums(queue), Gains(queue, table), 1)
  {
    var aged := Aged(queue, table);
    AgedKnown(queue, table);
    TopIsFirstMaximum(aged, table, |aged|);
    var b := Plus(Acums(queue), Gains(queue, table));
    assert Acums(aged) == b;
    var t := Top(aged, table, |aged|);
    assert FirstMax(b, t);
    var u := Turn(b);
    assert u == t;
    assert After(Acums(queue), Gains(queue, table), 0) == Acums(queue);
    assert Acums(aged[t := Node(aged[t].pid, 1)]) == b[t := 1];
  }

  ghost predicate Lively(s: State) {
    StateOk(s) && NoneBlocked(s.queue, s.table) && 0 < |s.queue|
  }

  /** A call keeps the queue's processes and their gains, and blocks none. */
  lemma CallKeeps(s: State)
    requires Lively(s)
    ensures Lively(Call(s)) && |Call(s).queue| == |s.queue|
    ensures forall i :: 0 <= i < |s.queue| ==> Call(s).queue[i].pid == s.queue[i].pid
    ensures Gains(Call(s).queue, Call(s).table) == Gains(s.queue, s.table)
    ensures Acums(Call(s).queue) == After(Acums(s.queue), Gains(s.queue, s.table), 1)
    ensures Call(s).current == Some(s.queue[Choice(Acums(s.queue), Gains(s.queue, s.table), 0)].pid)
  {
    var table := Yielded(s.table, s.current);
    YieldedKnown(s.queue, s.table, s.current);
    assert Gains(s.queue, table) == Gains(s.queue, s.table);
    CallIsStep(s.queue, table);
    AgedKnown(s.queue, table);
    CallPids(s);
    assert Gains(Call(s).queue, Call(s).table) == Gains(s.queue, s.table);
  }

  lemma CallPids(s: State)
    requires Lively(s)
    ensures var s' := Call(s);
            && Lively(s') && |s'.queue| == |s.queue|
            && forall i :: 0 <= i < |s.queue| ==>
                 && s'.queue[i].pid == s.queue[i].pid
                 && s'.table[s.queue[i].pid].priority == s.table[s.queue[i].pid].priority
  {
    var table := Yielded(s.table, s.current);
    YieldedKnown(s.queue, s.table, s.current);
    AgedKnown(s.queue, table);
    hide Top;
    forall i | 0 <= i < |s.queue| ensures Ageing(s.queue, Aged(s.queue, table), table, i) {}
  }

  ghost function Calls(s: State, m: nat): (r: State)
    requires Lively(s)
    ensures Lively(r)
  {
    if m == 0 then s else CallKeeps(Calls(s, m - 1)); Call(Calls(s, m - 1))
  }

  lemma AfterAfter(a: seq<int>, g: seq<int>, m: nat)
    requires |a| == |g| > 0
    ensures After(After(a, g, m), g, 1) == After(a, g, m + 1)
    ensures Choice(After(a, g, m), g, 0) == Choice(a, g, m)
  {
  }

  /** State s', reached by m calls from s, has the same processes and the accumulations of After. */
  ghost predicate Tracks(s: State, s': State, m: nat)
    requires Lively(s)
  {
    && StateOk(s') && |s'.queue| == |s.queue|
    && Gains(s'.queue, s'.table) == Gains(s.queue, s.table)
    && (forall i :: 0 <= i < |s.queue| ==> s'.queue[i].pid == s.queue[i].pid)
    && Acums(s'.queue) == After(Acums(s.queue), Gains(s.queue, s.table), m)
  }

  lemma TracksStep(s: State, s': State, m: nat)
    requires Lively(s) && Lively(s') && Tracks(s, s', m)
    ensures Tracks(s, Call(s'), m + 1)
    ensures Call(s').current == Some(s.queue[Choice(Acums(s.queue), Gains(s.queue, s.table), m)].pid)
  {
    hide Call, Gains, Acums, After, Choice;
    CallKeeps(s');
    AfterAfter(Acums(s.queue), Gains(s.queue, s.table), m);
  }

  /** A run of m calls is m steps of After, and call m runs the process of node Choice(m). */
  lemma {:induction false} CallsAreSteps(s: State, m: nat)
    requires Lively(s)
    ensures Tracks(s, Calls(s, m), m)
    ensures Calls(s, m + 1).current == Some(s.queue[Choice(Acums(s.queue), Gains(s.queue, s.table), m)].pid)
  {
    hide Call, Choice;
    if m > 0 {
      CallsAreSteps(s, m - 1);
      TracksStep(s, Calls(s, m - 1), m - 1);
    }
    TracksStep(s, Calls(s, m), m);
  }

  /** A process that is passed over keeps all it gained. */
  lemma {:induction false} PassedOver(a: seq<int>, g: seq<int>, t: int, m: nat)
    requires |a| == |g| > 0 && 0 <= t < |a| && a[t] >= 1
    requires forall k :: 0 <= k < m ==> Choice(a, g, k) != t
    ensures After(a, g, m)[t] >= 1 + g[t] * m
  {
    if m > 0 {
      PassedOver(a, g, t, m - 1);
      assert Choice(a, g, m - 1) != t;
      assert g[t] * m == g[t] * (m - 1) + g[t];
    }
  }

  /** A process picked at call s has gained at most since then. */
  lemma {:induction false} SinceTurn(a: seq<int>, g: seq<int>, j: int, s: nat, m: nat)
    requires |a| == |g| > 0 && GainsOk(g) && s < m && Choice(a, g, s) == j
    ensures After(a, g, m)[j] <= 1 + g[j] * (m - s - 1)
    decreases m
  {
    if m > s + 1 {
      SinceTurn(a, g, j, s, m - 1);
      assert g[j] * (m - s - 1) == g[j] * (m - s - 2) + g[j];
    }
  }

  /** Picked twice while t waits: the second pick needs a gap that grows with the wait. */
  lemma PickedTwice(a: seq<int>, g: seq<int>, t: int, k: nat, m: nat)
    requires |a| == |g| > 0 && GainsOk(g) && 0 <= t < |a| && a[t] >= 1 && k < m
    requires forall i :: 0 <= i <= m ==> Choice(a, g, i) != t
    requires Choice(a, g, k) == Choice(a, g, m)
    ensures g[t] * (m + 1) <= g[Choice(a, g, m)] * (m - k)
  {
    var j := Choice(a, g, m);
    PassedOver(a, g, t, m);
    SinceTurn(a, g, j, k, m);
    var b := Plus(After(a, g, m), g);
    assert b[t] <= b[j];
    assert g[j] * (m - k) == g[j] * (m - k - 1) + g[j];
    assert g[t] * (m + 1) == g[t] * m + g[t];
  }

  /** While t waits, no process of equal or lower priority is picked twice. */
  lemma NoOvertaking(a: seq<int>, g: seq<int>, t: int, k: nat, m: nat)
    requires |a| == |g| > 0 && GainsOk(g) && 0 <= t < |a| && a[t] >= 1 && k < m
    requires forall i :: 0 <= i <= m ==> Choice(a, g, i) != t
    requires g[Choice(a, g, m)] <= g[t]
    ensures Choice(a, g, k) != Choice(a, g, m)
  {
    if Choice(a, g, k) == Choice(a, g, m) {
      PickedTwice(a, g, t, k, m);
      var j := Choice(a, g, m);
      MulMono(g[j], g[t], m - k);
      MulStrict(m - k, m + 1, g[t]);
    }
  }

  /**
   The waiting bound: a process of priority p passed over in m calls in a row
   satisfies (p + 1) * m <= 4 * (n - 1), whatever the others have accumulated.
   */
  lemma WaitingBound(a: seq<int>, g: seq<int>, t: int, m: nat)
    requires |a| == |g| > 0 && GainsOk(g) && 0 <= t < |a| && a[t] >= 1
    requires forall i :: 0 <= i < m ==> Choice(a, g, i) != t
    ensures g[t] * m <= 4 * (|a| - 1)
  {
    hide Choice;
    var gap := Gap(g[t], m);
    var picks := seq(gap, i requires 0 <= i < gap => Choice(a, g, m - gap + i));
    forall i, j | 0 <= i < j < gap ensures picks[i] != picks[j] {
      NotPickedTwice(a, g, t, m, m - gap + i, m - gap + j);
    }
    Pigeonhole(picks, |a|, t);
  }

  /** How many of the last picks must be distinct after m calls without t. */
  function Gap(gt: int, m: nat): (r: nat)
    requires 1 <= gt <= 4
    ensures r <= m && gt * m <= 4 * r <= gt * m + 3
  {
    MulMono(gt, 4, m);
    (gt * m + 3) / 4
  }

  lemma NotPickedTwice(a: seq<int>, g: seq<int>, t: int, m: nat, k: nat, l: nat)
    requires |a| == |g| > 0 && GainsOk(g) && 0 <= t < |a| && a[t] >= 1
    requires forall i :: 0 <= i < m ==> Choice(a, g, i) != t
    requires m - Gap(g[t], m) <= k < l < m
    ensures Choice(a, g, k) != Choice(a, g, l)
  {
    hide Gap, Choice;
    if Choice(a, g, k) == Choice(a, g, l) {
      PickedTwice(a, g, t, k, l);
      TooClose(g[t], g[Choice(a, g, l)], m, Gap(g[t], m), k, l);
    }
  }

  lemma TooClose(gt: int, gj: int, m: int, gap: int, k: int, l: int)
    requires 1 <= gt <= 4 && 1 <= gj <= 4 && 4 * gap <= gt * m + 3
    requires m - gap <= k < l < m
    ensures gj * (l - k) < gt * (l + 1)
  {
    MulMono(gj, 4, l - k);
    assert 4 * (l - k) <= 4 * (l - m + gap);
    assert (4 - gt) * (l + 1) <= (4 - gt) * m by { MulMono(l + 1, m, 4 - gt); }
    assert (4 - gt) * (l + 1) == 4 * (l + 1) - gt * (l + 1);
    assert (4 - gt) * m == 4 * m - gt * m;
  }

  /** Every process is picked within 4n - 3 calls, whatever its priority and the state it starts from. */
  lemma Fairness(a: seq<int>, g: seq<int>, t: int)
    requires |a| == |g| > 0 && GainsOk(g) && 0 <= t < |a| && a[t] >= 1
    ensures exists m :: 0 <= m < 4 * |a| - 3 && Choice(a, g, m) == t
  {
    if forall m :: 0 <= m < 4 * |a| - 3 ==> Choice(a, g, m) != t {
      WaitingBound(a, g, t, 4 * |a| - 3);
      MulMono(1, g[t], 4 * |a| - 3);
    }
  }

  /** From any state of a queue of n processes, none blocked, each gets the processor within 4n - 3 calls. */
  lemma EveryProcessRuns(s: State, t: int)
    requires Lively(s) && 0 <= t < |s.queue| && s.queue[t].acum >= 1
    ensures exists m :: 0 < m <= 4 * |s.queue| - 3 && Calls(s, m).current == Some(s.queue[t].pid)
  {
    var a, g := Acums(s.queue), Gains(s.queue, s.table);
    CallIsStep(s.queue, s.table);
    Fairness(a, g, t);
    var k :| 0 <= k < 4 * |a| - 3 && Choice(a, g, k) == t;
    CallsAreSteps(s, k);
    assert Calls(s, k + 1).current == Some(s.queue[t].pid);
  }

  lemma NeverChosen(s: State, t: int, m: nat)
    requires Lively(s) && 0 <= t < |s.queue|
    requires forall i :: 0 < i <= m ==> Calls(s, i).current != Some(s.queue[t].pid)
    ensures forall i :: 0 <= i < m ==> Choice(Acums(s.queue), Gains(s.queue, s.table), i) != t
  {
    hide Calls, Choice, Acums, Gains;
    forall i | 0 <= i < m ensures Choice(Acums(s.queue), Gains(s.queue, s.table), i) != t {
      CallsAreSteps(s, i);
      assert Calls(s, i + 1).current != Some(s.queue[t].pid);
    }
  }

  lemma GainIs(s: State, t: int)
    requires Lively(s) && 0 <= t < |s.queue|
    ensures Gains(s.queue, s.table)[t] == s.table[s.queue[t].pid].priority + 1 && Acums(s.queue)[t] == s.queue[t].acum
    ensures GainsOk(Gains(s.queue, s.table))
  {
  }

  /**
   A process of priority p that gets the processor in none of m calls in a row satisfies (p + 1) * m
   <= 4 * (n - 1).
   */
  lemma WaitsAtMost(s: State, t: int, m: nat)
    requires Lively(s) && 0 <= t < |s.queue| && s.queue[t].acum >= 1
    requires forall i :: 0 < i <= m ==> Calls(s, i).current != Some(s.queue[t].pid)
    ensures (s.table[s.queue[t].pid].priority + 1) * m <= 4 * (|s.queue| - 1)
  {
    NeverChosen(s, t, m);
    GainIs(s, t);
    WaitingBound(Acums(s.queue), Gains(s.queue, s.table), t, m);
  }

  /** While it waits, no process of equal or lower priority gets the processor twice. */
  lemma NotOvertaken(s: State, t: int, k: nat, m: nat, j: int)
    requires Lively(s) && 0 <= t < |s.queue| && s.queue[t].acum >= 1 && 0 < k < m && 0 <= j < |s.queue|
    requires forall i, i' :: 0 <= i < i' < |s.queue| ==> s.queue[i].pid != s.queue[i'].pid
    requires forall i :: 0 < i <= m ==> Calls(s, i).current != Some(s.queue[t].pid)
    requires s.table[s.queue[j].pid].priority <= s.table[s.queue[t].pid].priority
    ensures Calls(s, k).current != Some(s.queue[j].pid) || Calls(s, m).current != Some(s.queue[j].pid)
  {
    hide Choice, Calls, Call, Acums, Gains, Tracks, GainsOk;
    var a, g := Acums(s.queue), Gains(s.queue, s.table);
    NeverChosen(s, t, m);
    GainIs(s, t);
    GainIs(s, j);
    CallsAreSteps(s, k - 1);
    CallsAreSteps(s, m - 1);
    if Choice(a, g, m - 1) == j {
      NoOvertaking(a, g, t, k - 1, m - 1);
    }
  }
}
