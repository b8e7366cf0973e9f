/**
 Named pipes as a protocol: src/system/fifo.c runs without preemption between
 two calls of wait, so every stretch up to a wait or a return is one step.
 Any process may take any enabled step at any time; a run is a sequence of steps.
 */
module FifoProtocol {

  const SIZE := 1024

  type Byte = int

  datatype Mode = ReadOnly | WriteOnly | ReadWrite

  /** An open descriptor of the pipe. */
  datatype Descriptor = Descriptor(owner: int, mode: Mode)

  /** What a process is in the middle of, and on which descriptor. */
  datatype Activity =
    | Idle
    | Opening(fd: int)
    | Reading(fd: int, len: nat)
    | Writing(fd: int, data: seq<Byte>)

  datatype Process = Process(blocked: bool, done: bool, doing: Activity)

  datatype State = State(
    readers: int,
    writers: int,
    readWait: seq<int>,
    writeWait: seq<int>,
    buffer: seq<Byte>,
    fds: map<int, Descriptor>,
    procs: map<int, Process>,
    accepted: seq<Byte>,
    delivered: seq<Byte>)

  function Reads(m: Mode): bool { !m.WriteOnly? }
  function Writes(m: Mode): bool { !m.ReadOnly? }

  ghost function Readers(fds: map<int, Descriptor>): set<int> {
    set f | f in fds && Reads(fds[f].mode)
  }

  ghost function Writers(fds: map<int, Descriptor>): set<int> {
    set f | f in fds && Writes(fds[f].mode)
  }

  /** The processes once everyone in the queue has been unblocked. */
  function Woken(procs: map<int, Process>, queue: seq<int>): map<int, Process> {
    map p | p in procs :: if p in queue then procs[p].(blocked := false) else procs[p]
  }

  function WakeReaders(s: State): State {
    s.(procs := Woken(s.procs, s.readWait), readWait := [])
  }

  function WakeWriters(s: State): State {
    s.(procs := Woken(s.procs, s.writeWait), writeWait := [])
  }

  function WakeAll(s: State): State {
    WakeReaders(WakeWriters(s))
  }

  function Now(s: State, p: int, a: Activity): State {
    if p in s.procs then s.(procs := s.procs[p := s.procs[p].(doing := a)]) else s
  }

  function BlockedAt(s: State, p: int, a: Activity): State {
    if p in s.procs then s.(procs := s.procs[p := s.procs[p].(doing := a, blocked := true)]) else s
  }

  /** Process p can run, and is neither blocked nor gone. */
  predicate CanRun(s: State, p: int) {
    p in s.procs && !s.procs[p].blocked && !s.procs[p].done
  }

  /** Descriptor f is open, belongs to p and allows the access. */
  predicate Holds(s: State, p: int, f: int) {
    f in s.fds && s.fds[f].owner == p
  }

  // fifo_open

  /** The pipe as it is when nothing has gone through it. */
  function Emptied(s: State): State {
    s.(readWait := [], writeWait := [], buffer := [], accepted := [], delivered := [])
  }

  /** Descriptor f counted in; the first one makes the pipe. */
  function Attached(s: State, p: int, f: int, mode: Mode): State {
    var s1 := if s.fds == map[] then Emptied(s) else s;
    s1.(fds := s1.fds[f := Descriptor(p, mode)],
        readers := s1.readers + (if Reads(mode) then 1 else 0),
        writers := s1.writers + (if Writes(mode) then 1 else 0))
  }

  function OpenStart(s: State, p: int, f: int, mode: Mode): State {
    var s2 := Attached(s, p, f, mode);
    if mode.ReadOnly? && s2.writers == 0 then BlockedAt(s2.(readWait := s2.readWait + [p]), p, Opening(f))
    else if mode.WriteOnly? && s2.readers == 0 then BlockedAt(s2.(writeWait := s2.writeWait + [p]), p, Opening(f))
    else WakeAll(s2)
  }

  function OpenEnd(s: State, p: int): State {
    WakeAll(Now(s, p, Idle))
  }

  // fifo_write, from the head of its loop

  function WriteStep(s: State, p: int, f: int, data: seq<Byte>): State {
    if SIZE - |s.buffer| < |data| then
      if s.readers == 0 then Now(s, p, Idle)
      else BlockedAt(s.(writeWait := s.writeWait + [p]), p, Writing(f, data))
    else if s.readers == 0 then Now(s, p, Idle)
    else WakeReaders(Now(s, p, Idle).(buffer := s.buffer + data, accepted := s.accepted + data))
  }

  // fifo_read, from the head of its loop

  function Taken(s: State, len: nat): nat {
    if len > |s.buffer| then |s.buffer| else len
  }

  function ReadStep(s: State, p: int, f: int, len: nat): State {
    if |s.buffer| == 0 then
      if s.writers == 0 then Now(s, p, Idle)
      else BlockedAt(s.(readWait := s.readWait + [p]), p, Reading(f, len))
    else if s.writers == 0 then Now(s, p, Idle)
    else
      var n := Taken(s, len);
      WakeWriters(Now(s, p, Idle).(buffer := s.buffer[n..], delivered := s.delivered + s.buffer[..n]))
  }

  // fifo_close

  /** Descriptor f counted out. */
  function Detached(s: State, f: int): State
    requires f in s.fds
  {
    s.(fds := s.fds - {f},
       readers := s.readers - (if Reads(s.fds[f].mode) then 1 else 0),
       writers := s.writers - (if Writes(s.fds[f].mode) then 1 else 0))
  }

  function CloseStep(s: State, f: int): State
    requires f in s.fds
  {
    var s1 := Detached(s, f);
    if s1.readers == 0 && s1.writers == 0 then Emptied(s1) else WakeAll(s1)
  }

  // fs_dup, once its open is done

  function Handed(s: State, q: int, f: int): State
    requires f in s.fds
  {
    s.(fds := s.fds[f := s.fds[f].(owner := q)])
  }

  datatype Event =
    | Open(p: int, f: int, mode: Mode)
    | OpenResumes(p: int)
    | Write(p: int, f: int, data: seq<Byte>)
    | WriteResumes(p: int)
    | Read(p: int, f: int, len: nat)
    | ReadResumes(p: int)
    | Close(p: int, f: int)
    | HandOver(p: int, q: int, f: int)   // a new process gets a descriptor its parent opened for it
    | Exits(p: int)
    | Nudge(p: int)   // an unblocking from outside, as when an active child exits

  predicate Enabled(s: State, e: Event) {
    match e
    case Open(p, f, mode) => CanRun(s, p) && s.procs[p].doing.Idle? && f !in s.fds
    case OpenResumes(p) => CanRun(s, p) && s.procs[p].doing.Opening?
    case Write(p, f, data) => CanRun(s, p) && s.procs[p].doing.Idle? && Holds(s, p, f) && Writes(s.fds[f].mode)
    case WriteResumes(p) => CanRun(s, p) && s.procs[p].doing.Writing?
    case Read(p, f, len) => CanRun(s, p) && s.procs[p].doing.Idle? && Holds(s, p, f) && Reads(s.fds[f].mode)
    case ReadResumes(p) => CanRun(s, p) && s.procs[p].doing.Reading?
    case Close(p, f) =>
      Holds(s, p, f) && p in s.procs && (s.procs[p].done || (!s.procs[p].blocked && s.procs[p].doing.Idle?))
    case HandOver(p, q, f) => CanRun(s, p) && s.procs[p].doing.Idle? && Holds(s, p, f) && q in s.procs
    case Exits(p) => p in s.procs
    case Nudge(p) => p in s.procs
  }

  ghost function Step(s: State, e: Event): State
    requires Enabled(s, e)
  {
    match e
    case Open(p, f, mode) => OpenStart(s, p, f, mode)
    case OpenResumes(p) => OpenEnd(s, p)
    case Write(p, f, data) => WriteStep(s, p, f, data)
    case WriteResumes(p) => WriteStep(s, p, s.procs[p].doing.fd, s.procs[p].doing.data)
    case Read(p, f, len) => ReadStep(s, p, f, len)
    case ReadResumes(p) => ReadStep(s, p, s.procs[p].doing.fd, s.procs[p].doing.len)
    case Close(p, f) => CloseStep(s, f)
    case HandOver(p, q, f) => Handed(s, q, f)
    case Exits(p) => s.(procs := s.procs[p := s.procs[p].(done := true)])
    case Nudge(p) => s.(procs := s.procs[p := s.procs[p].(blocked := false)])
  }

  /**
   A process at work on the pipe holds the descriptor it works on, and is blocked only while its
   wait is justified.
   */
  ghost predicate ProcessOk(s: State, p: int) {
    p in s.procs && !s.procs[p].done ==>
      var blocked := s.procs[p].blocked;
      match s.procs[p].doing
      case Idle => !blocked
      case Opening(f) =>
        && Holds(s, p, f)
        && (blocked ==>
              && (s.fds[f].mode.ReadOnly? ==> s.writers == 0 && p in s.readWait)
              && (s.fds[f].mode.WriteOnly? ==> s.readers == 0 && p in s.writeWait)
              && !s.fds[f].mode.ReadWrite?)
      case Reading(f, len) =>
        && Holds(s, p, f) && Reads(s.fds[f].mode)
        && (blocked ==> |s.buffer| == 0 && s.writers > 0 && p in s.readWait)
      case Writing(f, data) =>
        && Holds(s, p, f) && Writes(s.fds[f].mode)
        && (blocked ==> SIZE - |s.buffer| < |data| && s.readers > 0 && p in s.writeWait)
  }

  ghost predicate Inv(s: State) {
    && s.readers == |Readers(s.fds)| && s.writers == |Writers(s.fds)|
    && |s.buffer| <= SIZE
    && s.delivered + s.buffer == s.accepted
    && (forall p {:trigger ProcessOk(s, p)} :: ProcessOk(s, p))
  }

  // Counting descriptors.

  lemma CloseCounts(fds: map<int, Descriptor>, f: int)
    requires f in fds
    ensures |Readers(fds - {f})| == |Readers(fds)| - (if Reads(fds[f].mode) then 1 else 0)
    ensures |Writers(fds - {f})| == |Writers(fds)| - (if Writes(fds[f].mode) then 1 else 0)
  {
    assert Readers(fds - {f}) == Readers(fds) - {f};
    assert Writers(fds - {f}) == Writers(fds) - {f};
  }

  lemma OpenCounts(fds: map<int, Descriptor>, f: int, d: Descriptor)
    requires f !in fds
    ensures |Readers(fds[f := d])| == |Readers(fds)| + (if Reads(d.mode) then 1 else 0)
    ensures |Writers(fds[f := d])| == |Writers(fds)| + (if Writes(d.mode) then 1 else 0)
  {
    CloseCounts(fds[f := d], f);
    assert fds[f := d] - {f} == fds;
  }

  lemma HeldCounts(s: State, f: int)
    requires Inv(s) && f in s.fds
    ensures Reads(s.fds[f].mode) ==> s.readers > 0
    ensures Writes(s.fds[f].mode) ==> s.writers > 0
  {
    assert Reads(s.fds[f].mode) ==> f in Readers(s.fds);
    assert Writes(s.fds[f].mode) ==> f in Writers(s.fds);
  }

  /** The descriptors processes work on are all still there. */
  ghost predicate KeepsHeld(s: State, s': State) {
    forall p, f ::
      p in s.procs && !s.procs[p].done && !s.procs[p].doing.Idle? && s.procs[p].doing.fd == f && Holds(s, p, f) ==>
      Holds(s', p, f) && s'.fds[f] == s.fds[f]
  }

  /** Whoever is blocked waits in a queue, so waking both queues leaves nobody blocked, whatever else changed. */
  lemma WakingAll(s: State, s': State, p: int)
    requires ProcessOk(s, p) && KeepsHeld(s, s')
    requires s'.procs == s.procs && s'.readWait == s.readWait && s'.writeWait == s.writeWait
    ensures ProcessOk(WakeAll(s'), p)
    ensures p in s.procs && !s.procs[p].done ==> !WakeAll(s').procs[p].blocked
  {
  }

  // Every step keeps the invariant.

  lemma OpenKeeps(s: State, p: int, f: int, mode: Mode)
    requires Inv(s) && Enabled(s, Open(p, f, mode))
    ensures Inv(OpenStart(s, p, f, mode))
  {
    var s' := OpenStart(s, p, f, mode);
    OpenCounts(s.fds, f, Descriptor(p, mode));
    forall q ensures ProcessOk(s', q) {
      assert ProcessOk(s, q);
      OpenKeepsOne(s, p, f, mode, q);
    }
  }

  lemma OpenKeepsOne(s: State, p: int, f: int, mode: Mode, q: int)
    requires Inv(s) && Enabled(s, Open(p, f, mode)) && ProcessOk(s, q)
    ensures ProcessOk(OpenStart(s, p, f, mode), q)
  {
    if q in s.procs && !s.procs[q].done && !s.procs[q].doing.Idle? {
      HeldCounts(s, s.procs[q].doing.fd);
    }
    var s2 := s.(fds := s.fds[f := Descriptor(p, mode)],
                 readers := s.readers + (if Reads(mode) then 1 else 0),
                 writers := s.writers + (if Writes(mode) then 1 else 0));
    WakingAll(s, s2, q);
  }

  lemma OpenEndKeeps(s: State, p: int)
    requires Inv(s) && Enabled(s, OpenResumes(p))
    ensures Inv(OpenEnd(s, p))
  {
    forall q ensures ProcessOk(OpenEnd(s, p), q) {
      assert ProcessOk(s, q);
      assert ProcessOk(Now(s, p, Idle), q);
      WakingAll(Now(s, p, Idle), Now(s, p, Idle), q);
    }
  }

  lemma WriteKeeps(s: State, p: int, f: int, data: seq<Byte>)
    requires Inv(s) && CanRun(s, p) && Holds(s, p, f) && Writes(s.fds[f].mode)
    ensures Inv(WriteStep(s, p, f, data))
  {
    var s' := WriteStep(s, p, f, data);
    forall q ensures ProcessOk(s', q) {
      assert ProcessOk(s, q);
    }
    assert s.delivered + (s.buffer + data) == (s.delivered + s.buffer) + data;
  }

  lemma ReadKeeps(s: State, p: int, f: int, len: nat)
    requires Inv(s) && CanRun(s, p) && Holds(s, p, f) && Reads(s.fds[f].mode)
    ensures Inv(ReadStep(s, p, f, len))
  {
    var s' := ReadStep(s, p, f, len);
    forall q ensures ProcessOk(s', q) {
      assert ProcessOk(s, q);
    }
    var n := Taken(s, len);
    assert (s.delivered + s.buffer[..n]) + s.buffer[n..] == s.delivered + s.buffer;
  }

  lemma CloseKeeps(s: State, p: int, f: int)
    requires Inv(s) && Enabled(s, Close(p, f))
    ensures Inv(CloseStep(s, f))
  {
    var s' := CloseStep(s, f);
    CloseCounts(s.fds, f);
    forall q ensures ProcessOk(s', q) {
      assert ProcessOk(s, q) && ProcessOk(s, p);
      CloseKeepsOne(s, p, f, q);
    }
  }

  lemma CloseKeepsOne(s: State, p: int, f: int, q: int)
    requires Inv(s) && Enabled(s, Close(p, f)) && ProcessOk(s, q)
    ensures ProcessOk(CloseStep(s, f), q)
  {
    var s1 := Detached(s, f);
    WakingAll(s, s1, q);
    if q in s.procs && !s.procs[q].done && !s.procs[q].doing.Idle? {
      CloseCounts(s.fds, f);
      var g := s.procs[q].doing.fd;
      assert g in s1.fds;
      assert Reads(s.fds[g].mode) ==> g in Readers(s1.fds);
      assert Writes(s.fds[g].mode) ==> g in Writers(s1.fds);
    }
  }

  lemma HandOverKeeps(s: State, p: int, q: int, f: int)
    requires Inv(s) && Enabled(s, HandOver(p, q, f))
    ensures Inv(Handed(s, q, f))
  {
    var s' := Handed(s, q, f);
    assert Readers(s'.fds) == Readers(s.fds) && Writers(s'.fds) == Writers(s.fds);
    forall r ensures ProcessOk(s', r) {
      assert ProcessOk(s, r);
    }
  }

  lemma StepKeeps(s: State, e: Event)
    requires Inv(s) && Enabled(s, e)
    ensures Inv(Step(s, e))
  {
    match e
    case Open(p, f, mode) => OpenKeeps(s, p, f, mode);
    case OpenResumes(p) => OpenEndKeeps(s, p);
    case Write(p, f, data) => WriteKeeps(s, p, f, data);
    case WriteResumes(p) => assert ProcessOk(s, p); WriteKeeps(s, p, s.procs[p].doing.fd, s.procs[p].doing.data);
    case Read(p, f, len) => ReadKeeps(s, p, f, len);
    case ReadResumes(p) => assert ProcessOk(s, p); ReadKeeps(s, p, s.procs[p].doing.fd, s.procs[p].doing.len);
    case Close(p, f) => CloseKeeps(s, p, f);
    case HandOver(p, q, f) => HandOverKeeps(s, p, q, f);
    case Exits(p) => forall q ensures ProcessOk(Step(s, e), q) { assert ProcessOk(s, q); }
    case Nudge(p) => forall q ensures ProcessOk(Step(s, e), q) { assert ProcessOk(s, q); }
  }

  /** No pipe yet, and processes that have nothing to do with it. */
  ghost predicate Initial(s: State) {
    && s.fds == map[] && s.readers == 0 && s.writers == 0 && s.buffer == [] && s.accepted == [] && s.delivered == []
    && forall p :: p in s.procs ==> !s.procs[p].blocked && s.procs[p].doing.Idle?
  }

  /** The state an interleaving of steps leads to; a step that is not enabled does not happen. */
  ghost function After(s0: State, events: seq<Event>): State {
    if events == [] then s0
    else
      var s, e := After(s0, events[..|events| - 1]), events[|events| - 1];
      if Enabled(s, e) then Step(s, e) else s
  }

  lemma InitialInv(s: State)
    requires Initial(s)
    ensures Inv(s)
  {
    assert Readers(s.fds) == {} && Writers(s.fds) == {};
  }

  lemma {:induction false} AfterInv(s0: State, events: seq<Event>)
    requires Initial(s0)
    ensures Inv(After(s0, events))
    decreases |events|
  {
    if events == [] {
      InitialInv(s0);
    } else {
      var s, e := After(s0, events[..|events| - 1]), events[|events| - 1];
      AfterInv(s0, events[..|events| - 1]);
      if Enabled(s, e) { StepKeeps(s, e); }
    }
  }

  /**
   No wake-up is lost, in any interleaving: a live process blocked in read sees
   an empty pipe with a writer, one blocked in write too little room with a
   reader, and one blocked in open has nobody at the other end.
   */
  lemma NoLostWakeup(s0: State, events: seq<Event>, s: State, p: int)
    requires Initial(s0) && s == After(s0, events) && p in s.procs && s.procs[p].blocked && !s.procs[p].done
    ensures match s.procs[p].doing
            case Idle => false
            case Opening(f) => f in s.fds && (if s.fds[f].mode.ReadOnly? then s.writers == 0 else s.readers == 0)
            case Reading(f, len) => |s.buffer| == 0 && s.writers > 0
            case Writing(f, data) => SIZE - |s.buffer| < |data| && s.readers > 0
  {
    AfterInv(s0, events);
    assert ProcessOk(s, p);
  }

  /** The process is alive and blocked at the reading end: in a read or in an open for reading. */
  ghost predicate StuckReading(s: State, p: int) {
    && p in s.procs && s.procs[p].blocked && !s.procs[p].done
    && match s.procs[p].doing
       case Reading(_, _) => true
       case Opening(f) => f in s.fds && s.fds[f].mode.ReadOnly?
       case _ => false
  }

  ghost predicate StuckWriting(s: State, p: int) {
    && p in s.procs && s.procs[p].blocked && !s.procs[p].done
    && match s.procs[p].doing
       case Writing(_, _) => true
       case Opening(f) => f in s.fds && s.fds[f].mode.WriteOnly?
       case _ => false
  }

  /**
   So the two ends are never both blocked, in opens, reads or writes, but for a write of more than
   SIZE bytes against a read.
   */
  lemma NoDeadlock(s0: State, events: seq<Event>, s: State, p: int, q: int)
    requires Initial(s0) && s == After(s0, events) && StuckReading(s, p) && StuckWriting(s, q)
    ensures s.procs[p].doing.Reading? && s.procs[q].doing.Writing? && |s.procs[q].doing.data| > SIZE
  {
    AfterInv(s0, events);
    assert ProcessOk(s, p) && ProcessOk(s, q);
    HeldCounts(s, s.procs[p].doing.fd);
    HeldCounts(s, s.procs[q].doing.fd);
  }

  /** Bytes come out once, in the order they went in, and the buffer never overflows. */
  lemma BytesConserved(s0: State, events: seq<Event>, s: State)
    requires Initial(s0) && s == After(s0, events)
    ensures s.delivered + s.buffer == s.accepted && |s.buffer| <= SIZE
  {
    AfterInv(s0, events);
  }

  /**
   Waking a queue undoes the wait of whoever is in it: the process goes on where it waited, and all
   others are as if it had not waited.
   */
  lemma WaitThenWake(s: State, p: int, a: Activity)
    requires p in s.procs
    ensures var r, w := BlockedAt(s.(readWait := s.readWait + [p]), p, a),
        BlockedAt(s.(writeWait := s.writeWait + [p]), p, a);
            var resumed := s.procs[p].(doing := a, blocked := false);
            && r.procs[p].blocked && WakeReaders(r) == WakeReaders(s).(procs := WakeReaders(s).procs[p := resumed])
            && w.procs[p].blocked && WakeWriters(w) == WakeWriters(s).(procs := WakeWriters(s).procs[p := resumed])
  {
    assert p in s.readWait + [p] && p in s.writeWait + [p];
    forall q ensures (q in s.readWait + [p] <==> q in s.readWait || q == p) &&
        (q in s.writeWait + [p] <==> q in s.writeWait || q == p) { }
    var r, w := BlockedAt(s.(readWait := s.readWait + [p]), p, a), BlockedAt(s.(writeWait := s.writeWait + [p]), p, a);
    var resumed := s.procs[p].(doing := a, blocked := false);
    assert Woken(r.procs, r.readWait) == Woken(s.procs, s.readWait)[p := resumed];
    assert Woken(w.procs, w.writeWait) == Woken(s.procs, s.writeWait)[p := resumed];
  }

  // The life of the pipe, write by write.

  /** The pipe is made, or a write call returns, having taken all of its data or nothing. */
  datatype Item = Made | Done(p: int, data: seq<Byte>, taken: bool)

  /** The event starts or resumes a write. */
  ghost predicate InWrite(s: State, e: Event) {
    Enabled(s, e) && (e.Write? || e.WriteResumes?)
  }

  ghost function DataOf(s: State, e: Event): seq<Byte>
    requires InWrite(s, e)
  {
    if e.Write? then e.data else s.procs[e.p].doing.data
  }

  ghost predicate Returns(s: State, e: Event)
    requires InWrite(s, e)
  {
    s.readers == 0 || |DataOf(s, e)| <= SIZE - |s.buffer|
  }

  /** The step makes the pipe anew: the first descriptor opens it or the last one closes it. */
  ghost predicate Remakes(s: State, e: Event) {
    && Enabled(s, e)
    && ((e.Open? && s.fds == map[]) || (e.Close? && Detached(s, e.f).readers == 0 && Detached(s, e.f).writers == 0))
  }

  /** What happened to the pipe, in order. */
  ghost function Log(s0: State, events: seq<Event>): seq<Item> {
    if events == [] then []
    else
      var s, e, log := After(s0, events[..|events| - 1]), events[|events| - 1], Log(s0, events[..|events| - 1]);
      if Remakes(s, e) then log + [Made]
      else if InWrite(s, e) && Returns(s, e) then log + [Done(e.p, DataOf(s, e), s.readers != 0)]
      else log
  }

  /** The whole data of the writes taken since the pipe was made, one after the other. */
  ghost function TakenSince(log: seq<Item>): seq<Byte> {
    if log == [] then []
    else
      var last, before := log[|log| - 1], log[..|log| - 1];
      if last.Made? then []
      else if last.taken then TakenSince(before) + last.data
      else TakenSince(before)
  }

  /** The data of the write calls of p that have returned. */
  ghost function Returned(log: seq<Item>, p: int): seq<seq<Byte>> {
    if log == [] then []
    else
      var last, before := log[|log| - 1], Returned(log[..|log| - 1], p);
      if last.Done? && last.p == p then before + [last.data] else before
  }

  /** The data of the write calls p has made. */
  ghost function Called(s0: State, events: seq<Event>, p: int): seq<seq<Byte>> {
    if events == [] then []
    else
      var s, e, before := After(s0, events[..|events| - 1]), events[|events| - 1],
          Called(s0, events[..|events| - 1], p);
      if e.Write? && e.p == p && Enabled(s, e) then before + [e.data] else before
  }

  /** The write call p is blocked in or about to resume, if any. */
  ghost function Unfinished(s: State, p: int): seq<seq<Byte>> {
    if p in s.procs && s.procs[p].doing.Writing? then [s.procs[p].doing.data] else []
  }

  lemma StepTakes(s: State, e: Event)
    requires Inv(s) && Enabled(s, e)
    ensures Step(s, e).accepted ==
            if Remakes(s, e) then []
            else if InWrite(s, e) && Returns(s, e) && s.readers != 0 then s.accepted + DataOf(s, e)
            else s.accepted
  {
    CountsAreSizes(s);
    hide Inv, Woken;
  }

  lemma CountsAreSizes(s: State)
    requires Inv(s)
    ensures s.readers >= 0 && |s.buffer| <= SIZE
  {
  }

  lemma StepFinishes(s: State, e: Event, p: int)
    requires Enabled(s, e)
    ensures e.Write? && e.p == p ==> Unfinished(s, p) == []
    ensures e.WriteResumes? && e.p == p ==> Unfinished(s, p) == [DataOf(s, e)]
    ensures Unfinished(Step(s, e), p) ==
            if InWrite(s, e) && e.p == p then (if Returns(s, e) then [] else [DataOf(s, e)])
            else Unfinished(s, p)
  {
    if InWrite(s, e) {
      WriteFinishes(s, e, p);
    } else {
      OthersDoNot(s, e, p);
    }
  }

  lemma WriteFinishes(s: State, e: Event, p: int)
    requires InWrite(s, e)
    ensures Unfinished(Step(s, e), p) ==
        if e.p != p then Unfinished(s, p) else if Returns(s, e) then [] else [DataOf(s, e)]
  {
  }

  lemma OthersDoNot(s: State, e: Event, p: int)
    requires Enabled(s, e) && !InWrite(s, e)
    ensures Unfinished(Step(s, e), p) == Unfinished(s, p)
  {
    hide Woken;
    match e
    case Open(q, f, mode) =>
      var s2 := Attached(s, q, f, mode);
      WakingIsNoWrite(s2, p);
    case OpenResumes(q) =>
      WakingIsNoWrite(Now(s, q, Idle), p);
    case Close(q, f) =>
      WakingIsNoWrite(Detached(s, f), p);
    case Read(q, f, len) =>
      ReadingIsNoWrite(s, q, f, len, p);
    case ReadResumes(q) =>
      ReadingIsNoWrite(s, q, s.procs[q].doing.fd, s.procs[q].doing.len, p);
    case _ =>
  }

  lemma WakingIsNoWrite(s: State, p: int)
    ensures Unfinished(WakeAll(s), p) == Unfinished(s, p)
  {
  }

  lemma ReadingIsNoWrite(s: State, q: int, f: int, len: nat, p: int)
    requires q in s.procs && !s.procs[q].doing.Writing?
    ensures Unfinished(ReadStep(s, q, f, len), p) == Unfinished(s, p)
  {
  }

  /**
   Over the life of the pipe, in every interleaving: the bytes it has taken are
   the whole data of writes, one after the other; and the write calls of each
   process have returned once each, with their own data, in the order they were
   made, however often they blocked, but for the one it is still in.
   */
  lemma {:induction false} WritesAreWhole(s0: State, events: seq<Event>, p: int)
    requires Initial(s0)
    ensures After(s0, events).accepted == TakenSince(Log(s0, events))
    ensures Called(s0, events, p) == Returned(Log(s0, events), p) + Unfinished(After(s0, events), p)
    decreases |events|
  {
    hide Inv, Step, Enabled, TakenSince, Returned, Unfinished, Returns, DataOf, Remakes, InWrite;
    if events == [] {
      NothingYet(s0, p);
    } else {
      var before := events[..|events| - 1];
      var s, e := After(s0, before), events[|events| - 1];
      WritesAreWhole(s0, before, p);
      AfterInv(s0, before);
      NextItem(s, e, Log(s0, before), p);
    }
  }

  lemma NothingYet(s0: State, p: int)
    requires Initial(s0)
    ensures s0.accepted == TakenSince([]) && Returned([], p) + Unfinished(s0, p) == []
  {
  }

  lemma NextItem(s: State, e: Event, log: seq<Item>, p: int)
    requires Inv(s) && s.accepted == TakenSince(log)
    ensures var log' := if Remakes(s, e) then log + [Made]
                        else if InWrite(s, e) && Returns(s, e) then log + [Done(e.p, DataOf(s, e), s.readers != 0)]
                        else log;
            var s' := if Enabled(s, e) then Step(s, e) else s;
            && s'.accepted == TakenSince(log')
            && (Returned(log, p) + Unfinished(s, p)) + (if e.Write? && e.p == p && Enabled(s, e) then [e.data] else [])
               == Returned(log', p) + Unfinished(s', p)
  {
    if Enabled(s, e) {
      StepTakes(s, e);
      StepFinishes(s, e, p);
      hide Inv, Step, TakenSince, Returned, Unfinished;
      if Remakes(s, e) {
        Logged(log, Made, p);
      } else if InWrite(s, e) && Returns(s, e) {
        Logged(log, Done(e.p, DataOf(s, e), s.readers != 0), p);
      }
    }
  }

  lemma Logged(log: seq<Item>, i: Item, p: int)
    ensures TakenSince(log + [i]) ==
        if i.Made? then [] else if i.taken then TakenSince(log) + i.data else TakenSince(log)
    ensures Returned(log + [i], p) == if i.Done? && i.p == p then Returned(log, p) + [i.data] else Returned(log, p)
  {
    assert (log + [i])[..|log|] == log;
  }

  // What each call does, one by one.

  /** The processes other than p do what they did, and those in the queue are not blocked any more. */
  ghost predicate Others(s: State, s': State, p: int, queue: seq<int>) {
    && s'.procs.Keys == s.procs.Keys
    && forall q :: q in s.procs && q != p ==>
         s'.procs[q] == s.procs[q].(blocked := s.procs[q].blocked && q !in queue)
  }

  /** Process p is now blocked in a, last in the queue. */
  ghost predicate Waits(s: State, s': State, p: int, a: Activity, queue: seq<int>, queue': seq<int>) {
    p in s'.procs && s'.procs[p].blocked && s'.procs[p].doing == a && queue' == queue + [p] && Others(s, s', p, [])
  }

  /** Process p goes on, done with its call. */
  ghost predicate GoesOn(s: State, s': State, p: int) {
    p in s'.procs && !s'.procs[p].blocked && s'.procs[p].doing == Idle
  }

  /** The ends and their descriptors are what they were. */
  ghost predicate SameEnds(s: State, s': State) {
    s'.readers == s.readers && s'.writers == s.writers && s'.fds == s.fds
  }

  /**
   A read of an empty pipe waits while there is a writer. Otherwise it returns: with the first bytes, as
   many as are there and asked for, if there is a writer, which the waiting writers get to know; and with
   nothing if there is none.
   */
  lemma ReadDoes(s: State, p: int, f: int, len: nat)
    requires CanRun(s, p)
    ensures var s' := ReadStep(s, p, f, len); var n := if len < |s.buffer| then len else |s.buffer|;
            && SameEnds(s, s') && s'.accepted == s.accepted
            && if s.writers == 0 then
                 GoesOn(s, s', p) && Others(s, s', p, []) && s'.buffer == s.buffer && s'.delivered == s.delivered
               else if s.buffer == [] then
                 && Waits(s, s', p, Reading(f, len), s.readWait, s'.readWait)
                 && s'.buffer == [] && s'.delivered == s.delivered && s'.writeWait == s.writeWait
               else
                 && GoesOn(s, s', p) && Others(s, s', p, s.writeWait)
                 && s'.delivered == s.delivered + s.buffer[..n] && s'.buffer == s.buffer[n..]
                 && s'.writeWait == [] && s'.readWait == s.readWait
  {
  }

  /**
   A write returns at once with nothing when there is no reader. Otherwise it waits for the room it needs,
   all at once, and then appends all its data, which the waiting readers get to know.
   */
  lemma WriteDoes(s: State, p: int, f: int, data: seq<Byte>)
    requires CanRun(s, p)
    ensures var s' := WriteStep(s, p, f, data);
            && SameEnds(s, s') && s'.delivered == s.delivered
            && if s.readers == 0 then
                 GoesOn(s, s', p) && Others(s, s', p, []) && s'.buffer == s.buffer && s'.accepted == s.accepted
               else if |s.buffer| + |data| > SIZE then
                 && Waits(s, s', p, Writing(f, data), s.writeWait, s'.writeWait)
                 && s'.buffer == s.buffer && s'.accepted == s.accepted && s'.readWait == s.readWait
               else
                 && GoesOn(s, s', p) && Others(s, s', p, s.readWait)
                 && s'.accepted == s.accepted + data && s'.buffer == s.buffer + data
                 && s'.readWait == [] && s'.writeWait == s.writeWait
  {
  }

  /** An open for one end alone, with nobody at the other, waits there; any other goes on and wakes everybody. */
  lemma OpenDoes(s: State, p: int, f: int, mode: Mode)
    requires Inv(s) && Enabled(s, Open(p, f, mode))
    ensures var s' := OpenStart(s, p, f, mode);
            && s'.fds == s.fds[f := Descriptor(p, mode)]
            && s'.readers == |Readers(s'.fds)| && s'.writers == |Writers(s'.fds)|
            && (s.fds != map[] ==> s'.buffer == s.buffer && s'.accepted == s.accepted && s'.delivered == s.delivered)
            && (s.fds == map[] ==> s'.buffer == [] && s'.accepted == [] && s'.delivered == [])
            && (s'.procs[p].blocked <==>
                  (mode == ReadOnly && Writers(s.fds) == {}) || (mode == WriteOnly && Readers(s.fds) == {}))
            && (s'.procs[p].blocked ==>
                  && s'.procs[p].doing == Opening(f) && Others(s, s', p, [])
                  && p in if mode == ReadOnly then s'.readWait else s'.writeWait)
            && (!s'.procs[p].blocked ==> s'.procs[p].doing == Idle && s'.readWait == s'.writeWait == [])
            && (!s'.procs[p].blocked && s.fds != map[] ==> Others(s, s', p, s.readWait + s.writeWait))
  {
    var s' := OpenStart(s, p, f, mode);
    OpenCounts(s.fds, f, Descriptor(p, mode));
    OpensBlocked(s, p, f, mode);
    hide Inv;
    forall q ensures q in s.readWait + s.writeWait <==> q in s.readWait || q in s.writeWait { }
    assert s'.procs.Keys == s.procs.Keys;
  }

  /** An open that waited goes on and wakes everybody. */
  lemma OpenEndDoes(s: State, p: int)
    requires CanRun(s, p)
    ensures var s' := OpenEnd(s, p);
            && SameEnds(s, s') && s'.buffer == s.buffer && s'.accepted == s.accepted && s'.delivered == s.delivered
            && GoesOn(s, s', p) && Others(s, s', p, s.readWait + s.writeWait) && s'.readWait == s'.writeWait == []
  {
    forall q ensures q in s.readWait + s.writeWait <==> q in s.readWait || q in s.writeWait { }
  }

  lemma OpensBlocked(s: State, p: int, f: int, mode: Mode)
    requires Inv(s) && Enabled(s, Open(p, f, mode))
    ensures s.readers == 0 <==> Readers(s.fds) == {}
    ensures s.writers == 0 <==> Writers(s.fds) == {}
  {
  }

  /** A close frees the pipe with its last descriptor, and wakes everybody otherwise. */
  lemma CloseDoes(s: State, p: int, f: int)
    requires Inv(s) && Enabled(s, Close(p, f))
    ensures var s' := CloseStep(s, f);
            && s'.fds == s.fds - {f} && s'.procs.Keys == s.procs.Keys && s'.readWait == s'.writeWait == []
            && s'.readers == |Readers(s'.fds)| && s'.writers == |Writers(s'.fds)|
            && (s'.fds == map[] ==> s'.buffer == [] && s'.accepted == [] && s'.delivered == [] && s'.procs == s.procs)
            && (s'.fds != map[] ==>
                  && s'.buffer == s.buffer && s'.accepted == s.accepted && s'.delivered == s.delivered
                  && forall q :: q in s.procs ==>
                       s'.procs[q] == s.procs[q].(blocked := s.procs[q].blocked && q !in s.readWait + s.writeWait))
  {
    var s' := CloseStep(s, f);
    CloseCounts(s.fds, f);
    NoEnds(s'.fds);
    hide Inv;
    forall q ensures q in s.readWait + s.writeWait <==> q in s.readWait || q in s.writeWait { }
  }

  /** Every descriptor is at one end at least. */
  lemma NoEnds(fds: map<int, Descriptor>)
    ensures fds == map[] <==> |Readers(fds)| == 0 && |Writers(fds)| == 0
  {
    if |Readers(fds)| == 0 && |Writers(fds)| == 0 {
      forall f ensures f !in fds {
        assert f !in Readers(fds) && f !in Writers(fds);
      }
    }
  }

  /** A read delivers bytes exactly when some are there and a writer still is: what the last writer left is not read. */
  lemma ReadDelivers(s: State, p: int, f: int, len: nat)
    requires Inv(s)
    ensures var s' := ReadStep(s, p, f, len);
            |s'.delivered| > |s.delivered| <==> len > 0 && |s.buffer| > 0 && s.writers > 0
  {
  }

  // Bytes left behind, in a run.

  /** Two processes that have nothing to do with a pipe yet. */
  function TwoProcesses(): State {
    State(0, 0, [], [], [], map[], map[1 := Process(false, false, Idle), 2 := Process(false, false, Idle)], [], [])
  }

  /** A reader opens and waits, a writer opens, the reader goes on, the writer writes one byte and closes. */
  function WriteAndLeave(): seq<Event> {
    [Open(1, 10, ReadOnly), Open(2, 20, WriteOnly), OpenResumes(1), Write(2, 20, [7]), Close(2, 20)]
  }

  lemma AfterNext(s0: State, events: seq<Event>, k: nat)
    requires k < |events|
    ensures var s, e := After(s0, events[..k]), events[k];
            After(s0, events[..k + 1]) == if Enabled(s, e) then Step(s, e) else s
  {
    assert events[..k + 1][..k] == events[..k];
  }

  /** The states of that run. */
  function RunState(k: nat): State {
    var d1, d2, idle := Descriptor(1, ReadOnly), Descriptor(2, WriteOnly), Process(false, false, Idle);
    if k == 0 then TwoProcesses()
    else if k == 1 then State(1, 0, [1], [], [], map[10 := d1],
        map[1 := Process(true, false, Opening(10)), 2 := idle], [], [])
    else if k == 2 then State(1, 1, [], [], [], map[10 := d1, 20 := d2],
        map[1 := Process(false, false, Opening(10)), 2 := idle], [], [])
    else if k == 3 then State(1, 1, [], [], [], map[10 := d1, 20 := d2], map[1 := idle, 2 := idle], [], [])
    else if k == 4 then State(1, 1, [], [], [7], map[10 := d1, 20 := d2], map[1 := idle, 2 := idle], [7], [])
    else State(1, 0, [], [], [7], map[10 := d1], map[1 := idle, 2 := idle], [7], [])
  }

  lemma ReaderOpens()
    ensures var e := WriteAndLeave()[0]; Enabled(RunState(0), e) && Step(RunState(0), e) == RunState(1)
  {
  }

  lemma WriterOpens()
    ensures var e := WriteAndLeave()[1]; Enabled(RunState(1), e) && Step(RunState(1), e) == RunState(2)
  {
    var procs := RunState(1).procs;
    assert 10 in RunState(1).fds;
    assert Attached(RunState(1), 2, 20, WriteOnly).fds == RunState(2).fds;
    assert Woken(procs, []) == procs;
    assert 1 in [1] && 2 !in [1];
    assert Woken(procs, [1]) == RunState(2).procs;
  }

  lemma ReaderGoesOn()
    ensures var e := WriteAndLeave()[2]; Enabled(RunState(2), e) && Step(RunState(2), e) == RunState(3)
  {
  }

  lemma WriterWrites()
    ensures var e := WriteAndLeave()[3]; Enabled(RunState(3), e) && Step(RunState(3), e) == RunState(4)
  {
  }

  lemma WriterCloses()
    ensures var e := WriteAndLeave()[4]; Enabled(RunState(4), e) && Step(RunState(4), e) == RunState(5)
  {
  }

  lemma ReaderGetsNothing()
    ensures var s, e := RunState(5), Read(1, 10, 1);
            Enabled(s, e) && Step(s, e).delivered == [] && Step(s, e).buffer == [7]
  {
  }

  /** The byte is then in the pipe and nobody can read it: a read delivers nothing and leaves it there. */
  lemma LeftBehind()
    ensures Initial(TwoProcesses())
    ensures var s := After(TwoProcesses(), WriteAndLeave());
            && s.buffer == [7] && s.writers == 0 && s.readers == 1 && Enabled(s, Read(1, 10, 1))
            && Step(s, Read(1, 10, 1)).delivered == [] && Step(s, Read(1, 10, 1)).buffer == [7]
  {
    var s0, es := TwoProcesses(), WriteAndLeave();
    hide After, Step, Enabled;
    AfterNothing(s0);
    ReaderOpens();
    WriterOpens();
    ReaderGoesOn();
    WriterWrites();
    WriterCloses();
    ReaderGetsNothing();
    assert es[..0] == [] && es[..5] == es;
    AfterNext(s0, es, 0);
    AfterNext(s0, es, 1);
    AfterNext(s0, es, 2);
    AfterNext(s0, es, 3);
    AfterNext(s0, es, 4);
  }

  lemma AfterNothing(s0: State)
    ensures After(s0, []) == s0
  {
  }
}
