/**
 The pipe of src/system/fifo.c with its buffer and counters, each method one
 stretch of code between two waits.
 */
module Fifo {
  import opened FifoProtocol

  /** wake_all: unblocks the queued processes one by one. */
  method WakeQueue(procs: map<int, Process>, queue: seq<int>) returns (woken: map<int, Process>)
    ensures woken == Woken(procs, queue) && woken.Keys == procs.Keys
    ensures forall p :: p in procs ==> woken[p] == procs[p].(blocked := procs[p].blocked && p !in queue)
  {
    woken := procs;
    var rest := queue;
    ghost var i := 0;
    while rest != []
      invariant 0 <= i <= |queue| && rest == queue[i..] && woken == Woken(procs, queue[..i])
      decreases |rest|
    {
      var p := rest[0];
      assert queue[..i + 1] == queue[..i] + [p];
      if p in woken {
        woken := woken[p := woken[p].(blocked := false)];
      }
      rest := rest[1..];
      i := i + 1;
    }
    assert queue[..i] == queue;
  }

  /** The loop of fifo_read that moves the unread bytes to the front. */
  method ShiftLeft(buf: array<Byte>, used: nat, n: nat)
    requires n <= used <= buf.Length
    modifies buf
    ensures buf[..used - n] == old(buf[n..used])
  {
    var i := n;
    while i < used
      invariant n <= i <= used
      invariant forall k :: 0 <= k < i - n ==> buf[k] == old(buf[k + n])
      invariant forall k :: i - n <= k < used ==> buf[k] == old(buf[k])
    {
      buf[i - n] := buf[i];
      i := i + 1;
    }
  }

  /** memcpy of data to the end of the used part. */
  method Append(buf: array<Byte>, used: nat, data: seq<Byte>)
    requires used + |data| <= buf.Length
    modifies buf
    ensures buf[..used + |data|] == old(buf[..used]) + data
  {
    for i := 0 to |data|
      invariant buf[..used] == old(buf[..used])
      invariant buf[used..used + i] == data[..i]
    {
      buf[used + i] := data[i];
    }
    assert buf[..used + |data|] == buf[..used] + buf[used..used + |data|];
  }

  class Pipe {
    var readers: int
    var writers: int
    var readWait: seq<int>
    var writeWait: seq<int>
    var buffer: array<Byte>
    var used: nat
    var fds: map<int, Descriptor>
    var procs: map<int, Process>
    ghost var accepted: seq<Byte>
    ghost var delivered: seq<Byte>

    ghost predicate Valid()
      reads this, buffer
    {
      buffer.Length == SIZE && used <= SIZE && Inv(View())
    }

    ghost function View(): State
      reads this, buffer
      requires used <= buffer.Length
    {
      State(readers, writers, readWait, writeWait, buffer[..used], fds, procs, accepted, delivered)
    }

    /** No pipe yet, and processes that have nothing to do with it. */
    constructor (pids: set<int>)
      ensures Valid() && Initial(View()) && procs.Keys == pids && fresh(buffer)
    {
      readers, writers, used := 0, 0, 0;
      readWait, writeWait := [], [];
      buffer := new Byte[SIZE];
      fds := map[];
      procs := map p | p in pids :: Process(false, false, Idle);
      accepted, delivered := [], [];
      new;
      InitialInv(View());
    }

    method WakeWritersAndReaders()
      requires used <= buffer.Length
      modifies `procs, `readWait, `writeWait
      ensures View() == WakeAll(old(View()))
    {
      procs := WakeQueue(procs, writeWait);
      writeWait := [];
      procs := WakeQueue(procs, readWait);
      readWait := [];
    }

    /** The part of fifo_open that makes the pipe if need be and counts the descriptor in. */
    method Attach(p: int, f: int, mode: Mode)
      requires buffer.Length == SIZE && used <= SIZE
      modifies this
      ensures buffer.Length == SIZE && used <= SIZE && (buffer == old(buffer) || fresh(buffer))
      ensures View() == Attached(old(View()), p, f, mode)
    {
      if fds == map[] {
        buffer := new Byte[SIZE];
        used := 0;
        readWait, writeWait := [], [];
        accepted, delivered := [], [];
      }
      fds := fds[f := Descriptor(p, mode)];
      if mode.ReadOnly? {
        readers := readers + 1;
      } else if mode.WriteOnly? {
        writers := writers + 1;
      } else {
        readers := readers + 1;
        writers := writers + 1;
      }
    }

    /** fifo_open up to its wait or its end. */
    method Open(p: int, f: int, mode: Mode)
      requires Valid() && Enabled(View(), FifoProtocol.Open(p, f, mode))
      modifies this
      ensures Valid() && View() == OpenStart(old(View()), p, f, mode)
      ensures buffer == old(buffer) || fresh(buffer)
      ensures procs.Keys == old(procs).Keys && (procs[p].blocked <==>
          (mode == ReadOnly && Writers(old(fds)) == {}) || (mode == WriteOnly && Readers(old(fds)) == {}))
    {
      OpenKeeps(View(), p, f, mode);
      OpenDoes(View(), p, f, mode);
      hide Inv, Attached, BlockedAt, WakeAll, Others;
      ghost var s := View();
      Attach(p, f, mode);
      AttachedProcs(s, p, f, mode);
      if mode.ReadOnly? && writers == 0 {
        WaitIn(true, p, Opening(f));
      } else if mode.WriteOnly? && readers == 0 {
        WaitIn(false, p, Opening(f));
      } else {
        WakeWritersAndReaders();
      }
    }

    /** wait: queues the process and blocks it. */
    method WaitIn(reading: bool, p: int, a: Activity)
      requires used <= buffer.Length && p in procs
      modifies `procs, `readWait, `writeWait
      ensures reading ==> View() == BlockedAt(old(View()).(readWait := old(readWait) + [p]), p, a)
      ensures !reading ==> View() == BlockedAt(old(View()).(writeWait := old(writeWait) + [p]), p, a)
    {
      if reading {
        readWait := readWait + [p];
      } else {
        writeWait := writeWait + [p];
      }
      procs := procs[p := procs[p].(doing := a, blocked := true)];
    }

    /** The rest of fifo_open after its wait. */
    method OpenResume(p: int)
      requires Valid() && Enabled(View(), OpenResumes(p))
      modifies this
      ensures Valid() && View() == OpenEnd(old(View()), p) && buffer == old(buffer)
      ensures GoesOn(old(View()), View(), p) && Others(old(View()), View(), p, old(readWait) + old(writeWait))
    {
      OpenEndKeeps(View(), p);
      OpenEndDoes(View(), p);
      hide Inv, Others, GoesOn;
      procs := procs[p := procs[p].(doing := Idle)];
      WakeWritersAndReaders();
    }

    /** Copies the data behind the bytes that are there. */
    method PutBytes(data: seq<Byte>)
      requires used + |data| <= buffer.Length
      modifies buffer, `used
      ensures used == old(used) + |data| && buffer[..used] == old(buffer[..used]) + data
    {
      Append(buffer, used, data);
      used := used + |data|;
    }

    /** fifo_write from the head of its loop. */
    method Write(p: int, f: int, data: seq<Byte>) returns (waits: bool, written: nat)
      requires Valid() && CanRun(View(), p) && Holds(View(), p, f) && Writes(fds[f].mode)
      modifies this, buffer
      ensures Valid() && View() == WriteStep(old(View()), p, f, data) && buffer == old(buffer)
      ensures waits <==> SIZE - old(used) < |data| && old(readers) > 0
      ensures !waits ==> written == if old(readers) == 0 then 0 else |data|
      ensures accepted == if waits || old(readers) == 0 then old(accepted) else old(accepted) + data
    {
      WriteKeeps(View(), p, f, data);
      CountsNonNegative(View());
      ghost var s := View();
      hide Inv, Woken;
      waits, written := false, 0;
      if SIZE - used < |data| {
        if readers == 0 {
          procs := procs[p := procs[p].(doing := Idle)];
          return;
        }
        WaitIn(false, p, Writing(f, data));
        return true, 0;
      }
      procs := procs[p := procs[p].(doing := Idle)];
      if readers == 0 {
        return;
      }
      PutBytes(data);
      accepted := accepted + data;
      procs := WakeQueue(procs, readWait);
      readWait := [];
      written := |data|;
    }

    /** Copies the first bytes out and closes the gap they leave. */
    method TakeBytes(length: nat) returns (out: seq<Byte>)
      requires length <= used <= buffer.Length
      modifies buffer, `used
      ensures used == old(used) - length
      ensures out == old(buffer[..used])[..length] && buffer[..used] == old(buffer[..used])[length..]
    {
      out := buffer[..length];
      ShiftLeft(buffer, used, length);
      used := used - length;
    }

    /** fifo_read from the head of its loop. */
    method Read(p: int, f: int, len: nat) returns (waits: bool, out: seq<Byte>)
      requires Valid() && CanRun(View(), p) && Holds(View(), p, f) && Reads(fds[f].mode)
      modifies this, buffer
      ensures Valid() && View() == ReadStep(old(View()), p, f, len) && buffer == old(buffer)
      ensures waits <==> old(used) == 0 && old(writers) > 0
      ensures delivered == old(delivered) + out && |out| <= len
      ensures out == if old(writers) == 0 then [] else old(buffer[..used])[..if len < old(used) then len else old(used)]
      ensures buffer[..used] == old(buffer[..used])[|out|..]
    {
      ReadKeeps(View(), p, f, len);
      CountsNonNegative(View());
      hide Inv, Woken;
      waits, out := false, [];
      if used == 0 {
        if writers == 0 {
          procs := procs[p := procs[p].(doing := Idle)];
        } else {
          WaitIn(true, p, Reading(f, len));
          waits := true;
        }
        return;
      }
      procs := procs[p := procs[p].(doing := Idle)];
      if writers == 0 {
        return;
      }
      var length := len;
      if length > used {
        length := used;
      }
      out := TakeBytes(length);
      delivered := delivered + out;
      procs := WakeQueue(procs, writeWait);
      writeWait := [];
    }

    /** The part of fifo_close that counts the descriptor out. */
    method Detach(f: int)
      requires used <= buffer.Length && f in fds
      modifies `fds, `readers, `writers
      ensures View() == Detached(old(View()), f)
    {
      var mode := fds[f].mode;
      fds := fds - {f};
      if mode.ReadOnly? {
        readers := readers - 1;
      } else if mode.WriteOnly? {
        writers := writers - 1;
      } else {
        readers := readers - 1;
        writers := writers - 1;
      }
    }

    /** fifo_close: the last descriptor to go takes the pipe with it. */
    method Close(p: int, f: int)
      requires Valid() && Enabled(View(), FifoProtocol.Close(p, f))
      modifies this
      ensures Valid() && View() == CloseStep(old(View()), f) && buffer == old(buffer)
    {
      CloseKeeps(View(), p, f);
      hide Inv, Detached, WakeAll;
      Detach(f);
      if readers == 0 && writers == 0 {
        used := 0;
        readWait, writeWait := [], [];
        accepted, delivered := [], [];
      } else {
        WakeWritersAndReaders();
      }
    }

    /** The steps outside fifo.c: a descriptor changes hands, a process exits or is unblocked by somebody else. */
    method Outside(e: Event)
      requires Valid() && Enabled(View(), e) && (e.HandOver? || e.Exits? || e.Nudge?)
      modifies this
      ensures Valid() && View() == Step(old(View()), e) && buffer == old(buffer)
    {
      StepKeeps(View(), e);
      hide Inv;
      match e {
        case HandOver(p, q, f) => fds := fds[f := fds[f].(owner := q)];
        case Exits(p) => procs := procs[p := procs[p].(done := true)];
        case Nudge(p) => procs := procs[p := procs[p].(blocked := false)];
      }
    }

    /** A write or a read that goes on after its wait. */
    method Resume(e: Event)
      requires Valid() && Enabled(View(), e) && (e.WriteResumes? || e.ReadResumes?)
      modifies this, buffer
      ensures Valid() && View() == Step(old(View()), e) && buffer == old(buffer)
    {
      AtWork(View(), e.p);
      hide Inv, WriteStep, ReadStep;
      var doing := procs[e.p].doing;
      if e.WriteResumes? {
        var _, _ := Write(e.p, doing.fd, doing.data);
      } else {
        var _, _ := Read(e.p, doing.fd, doing.len);
      }
    }

    /** One step of the protocol, if it is enabled. */
    method Execute(e: Event)
      requires Valid()
      modifies this, buffer
      ensures Valid() && (buffer == old(buffer) || fresh(buffer))
      ensures View() == if Enabled(old(View()), e) then Step(old(View()), e) else old(View())
    {
      hide Inv, OpenStart, OpenEnd, WriteStep, ReadStep, CloseStep;
      var now := State(readers, writers, readWait, writeWait, buffer[..used], fds, procs, [], []);
      SameEnabled(now, View(), e);
      if !Enabled(now, e) {
        return;
      }
      match e {
        case Open(p, f, mode) => Open(p, f, mode);
        case OpenResumes(p) => OpenResume(p);
        case Write(p, f, data) => var _, _ := Write(p, f, data);
        case Read(p, f, len) => var _, _ := Read(p, f, len);
        case Close(p, f) => Close(p, f);
        case WriteResumes(_) => Resume(e);
        case ReadResumes(_) => Resume(e);
        case _ => Outside(e);
      }
    }
  }

  /** After is what the methods do, step after step, for processes that have nothing to do with the pipe at first. */
  method Play(pids: set<int>, events: seq<Event>) returns (pipe: Pipe, ghost s0: State)
    ensures fresh(pipe) && pipe.Valid() && Initial(s0) && s0.procs.Keys == pids && pipe.View() == After(s0, events)
  {
    pipe := new Pipe(pids);
    s0 := pipe.View();
    hide Inv, Step, Enabled, Initial;
    for i := 0 to |events|
      invariant fresh(pipe) && fresh(pipe.buffer) && pipe.Valid() && pipe.View() == After(s0, events[..i])
    {
      AfterNext(s0, events, i);
      pipe.Execute(events[i]);
    }
    assert events[..|events|] == events;
  }

  lemma SameEnabled(s: State, s': State, e: Event)
    requires s.fds == s'.fds && s.procs == s'.procs
    ensures Enabled(s, e) <==> Enabled(s', e)
  {
  }

  /** A process in a read or a write holds the descriptor it works on. */
  lemma AtWork(s: State, p: int)
    requires Inv(s) && p in s.procs && !s.procs[p].done
    ensures s.procs[p].doing.Writing? ==> Holds(s, p, s.procs[p].doing.fd) && Writes(s.fds[s.procs[p].doing.fd].mode)
    ensures s.procs[p].doing.Reading? ==> Holds(s, p, s.procs[p].doing.fd) && Reads(s.fds[s.procs[p].doing.fd].mode)
  {
    assert ProcessOk(s, p);
  }

  lemma AttachedProcs(s: State, p: int, f: int, mode: Mode)
    ensures Attached(s, p, f, mode).procs == s.procs
  {
  }

  lemma CountsNonNegative(s: State)
    requires Inv(s)
    ensures s.readers >= 0 && s.writers >= 0
  {
  }
}
