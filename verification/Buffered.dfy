/** The objects of the prefetching reader, proved to take exactly the steps of the protocol. */
module Buffered {
  import opened Basics
  import opened CursorSpec
  import opened RingModel
  import opened Protocol
  import opened ByteQueue

  datatype Answer = Asleep | Returned(n: nat) | Failed(error: IoError)

  /** The step of the reader that gives this answer and leaves this ring. */
  ghost function StepOf(answer: Answer, ring: Ring, notify: bool, out: seq<Byte>): ReadStep
    requires answer.Returned? ==> answer.n <= |out|
  {
    match answer
    case Asleep => Wait(ring, notify)
    case Returned(n) => if n == 0 then AtEof else Serve(ring, out[..n], notify)
    case Failed(error) => Refuse(error)
  }

  /** A hit in full: the copied bytes, and the ring without what lies beyond the allowance. */
  lemma HitIs(r: Ring, rear: nat, pos: nat, room: nat)
    requires rear < r.config.capacity && r.start <= pos < r.End()
    ensures var rel, n := pos - r.start, Min(r.End() - pos, room);
            ReadRegion(r, rear, pos, room)
            == if rel + n > rear then Serve(r.Drained(rel + n - rear), r.buf[rel..rel + n], true)
               else Serve(r, r.buf[rel..rel + n], false)
  {
  }

  /** The state shared between reader and worker; each method is a region run under the mutex. */
  class RingState {
    const buf: Deque
    var ringStart: u64
    const config: Config
    const totalLen: u64
    var eof: bool
    var err: Option<Failure>
    var workerDead: bool
    var targetPos: Option<u64>
    var stop: bool

    ghost predicate Valid()
      reads this, buf
    {
      && buf.Valid()
      && config.Clamped()
      && buf.store.Length == config.capacity
      && ringStart + buf.len < U64_LIMIT
    }

    ghost function View(): Ring
      requires Valid()
      reads this, buf, buf.store
    {
      Ring(buf.Contents(), ringStart, config, totalLen, eof, err, workerDead,
           if targetPos.Some? then Some(targetPos.value) else None, stop)
    }

    constructor (config: Config, totalLen: u64, pos: u64)
      requires config.Clamped()
      ensures Valid() && View() == InitialRing(config, totalLen, pos)
      ensures buf.Contents() == [] && ringStart == pos && (eof <==> pos == totalLen)
      ensures err.None? && !workerDead && targetPos.None? && !stop
      ensures this.config == config && this.totalLen == totalLen && fresh(buf) && fresh(buf.store)
    {
      buf := new Deque(config.capacity);
      ringStart, eof := pos, totalLen == pos;
      this.config, this.totalLen := config, totalLen;
      err, workerDead, targetPos, stop := None, false, None, false;
    }

    method EnterPhase1() returns (directive: Directive, notify: bool)
      requires Valid()
      modifies this, buf
      ensures Valid() && WorkerStep(View(), directive, notify) == Phase1(old(View()))
    {
      if stop { return Quit, false; }
      if targetPos.Some? {
        var target := targetPos.value;
        targetPos := None;
        buf.Clear();
        ringStart := target;
        eof := target >= totalLen;
        err := None;
        return Reposition(target), true;
      }
      if eof { return Park, false; }
      var free := config.capacity - buf.len;
      if free == 0 { return Park, false; }
      return Fetching(Min(free, config.blockSize)), false;
    }

    method EnterPhase3(fetch: Fetch) returns (directive: Directive, notify: bool)
      requires Valid()
      requires targetPos.None? && !stop && fetch.Block? ==>
                 buf.len + |fetch.bytes| <= config.capacity && ringStart + buf.len + |fetch.bytes| < U64_LIMIT
      modifies this, buf, buf.store
      ensures Valid() && WorkerStep(View(), directive, notify) == Phase3(old(View()), fetch)
    {
      if targetPos.Some? || stop { return Again, false; }
      match fetch
      case Block(bytes) =>
        if |bytes| == 0 {
          eof := true;
        } else {
          buf.Extend(bytes);
        }
        return Again, true;
      case Interrupted =>
        return Again, false;
      case Fatal(failure) =>
        directive, notify := Bury(failure);
    }

    method Bury(failure: Failure) returns (directive: Directive, notify: bool)
      requires Valid()
      modifies this
      ensures Valid() && WorkerStep(View(), directive, notify) == Die(old(View()), failure)
    {
      err := Some(failure);
      workerDead := true;
      return Quit, true;
    }

    method DropOldest(n: nat)
      requires Valid() && n <= buf.len
      modifies this, buf
      ensures Valid() && View() == old(View()).Drained(n)
    {
      buf.Drain(n);
      ringStart := ringStart + n;
    }

    /** A hit: copy out of the queue, then drop what lies further back than the allowance `rear`. */
    method ServeHit(pos: u64, rear: nat, out: array<Byte>) returns (n: nat, notify: bool)
      requires Valid() && out != buf.store && rear < config.capacity && out.Length > 0
      requires ringStart <= pos < ringStart + buf.len
      modifies this, buf, out
      ensures Valid() && 0 < n <= out.Length && pos + n <= old(ringStart + buf.len)
      ensures ReadRegion(old(View()), rear, pos, out.Length) == Serve(View(), out[..n], notify)
      ensures out[n..] == old(out[n..])
    {
      hide ReadRegion, Deque.Contents;
      ghost var before := View();
      HitIs(before, rear, pos, out.Length);
      var rel := pos - ringStart;
      n := Min(buf.len - rel, out.Length);
      buf.CopyOut(rel, n, out);
      assert View() == before && out[..n] == before.buf[rel..rel + n];
      var dropN := rel + n;
      notify := false;
      if dropN > rear {
        DropOldest(dropN - rear);
        notify := true;
      }
    }

    /** The loop of `read`, from taking the lock until it returns or goes to sleep. */
    method ReadLocked(pos: u64, rear: nat, out: array<Byte>) returns (answer: Answer, notify: bool)
      requires Valid() && out != buf.store && rear < config.capacity && out.Length > 0
      modifies this, buf, out
      ensures Valid()
      ensures answer.Returned? ==> answer.n <= out.Length
      ensures answer.Returned? && answer.n > 0 ==> pos + answer.n <= old(ringStart + buf.len)
      ensures ReadRegion(old(View()), rear, pos, out.Length) == StepOf(answer, View(), notify, out[..])
      ensures answer.Failed? || answer == Returned(0) ==> View() == old(View()) && !notify
      ensures var n := if answer.Returned? then answer.n else 0; out[n..] == old(out[n..])
    {
      notify := false;
      ghost var before := View();
      while true
        invariant Valid() && out[..] == old(out[..])
        invariant !notify ==> View() == before
        invariant notify ==>
                    && ReadRegion(before, rear, pos, out.Length) == Wait(View(), true)
                    && pos >= ringStart + buf.len && buf.len < config.capacity
                    && err.None? && !eof && pos < totalLen
        decreases !notify
      {
        if pos < ringStart { return Failed(BehindRingStart), notify; }
        if pos - ringStart < buf.len {
          var n;
          n, notify := ServeHit(pos, rear, out);
          return Returned(n), notify;
        }
        if err.Some? { return Failed(Inner(err.value)), notify; }
        if eof { return Returned(0), notify; }
        if pos >= totalLen { return Returned(0), notify; }
        if buf.len == config.capacity {
          DropOldest(buf.len - rear);
          notify := true;
          continue;
        }
        return Asleep, notify;
      }
    }

    /** `seek` under the lock; `moved` is the new position when the ring had to be restarted there. */
    method SeekLocked(pos: u64, from: SeekFrom) returns (result: Result<u64>, restarted: bool)
      requires Valid()
      modifies this, buf
      ensures Valid()
      ensures match from
              case Start(n) => result == Ok(n)
              case Current(d) =>
                && (result.Ok? <==> 0 <= pos + d < U64_LIMIT)
                && (result.Ok? ==> result.value == pos + d)
              case End(d) =>
                && (result.Ok? <==> 0 <= totalLen + d < U64_LIMIT)
                && (result.Ok? ==> result.value == totalLen + d)
      ensures match SeekRegion(old(View()), pos, from)
              case OutOfRange => result.Err? && !restarted && View() == old(View())
              case InWindow(newPos) => result == Ok(newPos) && !restarted && View() == old(View())
              case Restart(ring, newPos) => result == Ok(newPos) && restarted && View() == ring
    {
      hide Deque.Contents;
      result := match from
                case Start(n) => Ok(n)
                case Current(d) => AddSigned(pos, d)
                case End(d) => AddSigned(totalLen, d);
      if result.Err? { return result, false; }
      var newPos := result.value;
      var ringEnd := ringStart + buf.len;
      if newPos >= ringStart && newPos <= ringEnd { return result, false; }
      targetPos := Some(newPos);
      buf.Clear();
      ringStart := newPos;
      eof := newPos >= totalLen;
      if !workerDead { err := None; }
      return result, true;
    }
  }

  /** The bytes and errors an answer shows the caller. */
  ghost function EventsOf(answer: Answer, out: seq<Byte>): seq<Event>
    requires answer.Returned? ==> answer.n <= |out|
  {
    match answer
    case Asleep => []
    case Returned(n) => [ReadOk(|out|, out[..n])]
    case Failed(error) => [ReadErr(|out|, error)]
  }

  /** A block that will be deposited has room in the ring and in the address space. */
  ghost predicate HeldBlockFits(s: System) {
    s.ring.target.None? && !s.ring.stop && s.worker.Holding? && s.worker.fetch.Block? ==>
      && |s.ring.buf| + |s.worker.fetch.bytes| <= s.ring.config.capacity
      && s.ring.End() + |s.worker.fetch.bytes| < U64_LIMIT
  }

  lemma ReaderStepIs(data: seq<Byte>, s: System, rear: nat)
    requires Inv(data, s) && rear == s.ring.config.Rear()
    requires s.reader.InRead? || s.reader.Awake?
    ensures rear < s.ring.config.capacity
    ensures Step(data, s, ReaderRegion) == ReaderRegionStep(s, rear)
    ensures Inv(data, ReaderRegionStep(s, rear).value.system)
  {
    RearBelowCapacity(s.ring.config);
    ReaderRegionKeepsInv(data, s, rear);
  }

  /** Reader, worker and inner cursor around the shared state; each method is one step of the protocol. */
  class BufferedSource {
    ghost const data: seq<Byte>
    const state: RingState
    var pos: u64
    var reader: ReaderPc
    var worker: WorkerPc
    var inner: nat

    ghost predicate Valid()
      reads this, state, state.buf, state.buf.store
    {
      && state.Valid()
      && Inv(data, View())
    }

    ghost function View(): System
      requires state.Valid()
      reads this, state, state.buf, state.buf.store
    {
      System(state.View(), pos, reader, worker, inner)
    }

    /** `build`, once the knobs are clamped and the inner source over `data` is probed and back at `pos`. */
    constructor (config: Config, ghost data: seq<Byte>, length: u64, pos: u64)
      requires config.Clamped() && |data| == length
      ensures Valid() && this.data == data
      ensures View() == Initial(config, data, pos)
      ensures fresh(state) && fresh(state.buf) && fresh(state.buf.store)
    {
      this.data := data;
      this.state := new RingState(config, length, pos);
      this.pos, this.reader, this.worker, this.inner := pos, Idle, AtPhase1, pos;
      new;
      InitialIsCoherent(config, data, pos);
    }

    method CallRead(out: array<Byte>) returns (answer: Answer)
      requires Valid() && reader.Idle?
      modifies this`reader
      ensures Valid()
      ensures answer.Returned? ==> answer.n <= out.Length
      ensures Step(data, old(View()), Action.CallRead(out.Length)) == Some(Outcome(View(), EventsOf(answer, out[..])))
    {
      if out.Length == 0 { return Returned(0); }
      reader := InRead(out.Length);
      return Asleep;
    }

    method FinishRead(rear: nat, out: array<Byte>) returns (answer: Answer)
      requires state.Valid() && rear < state.config.capacity
      requires out != state.buf.store && out.Length > 0
      modifies this`reader, this`pos, this`worker, state, state.buf, out
      ensures state.Valid()
      ensures answer.Returned? ==> answer.n <= out.Length
      ensures Outcome(View(), EventsOf(answer, out[..]))
           == ApplyRead(old(View()), out.Length, ReadRegion(old(View()).ring, rear, old(pos), out.Length))
      ensures var n := if answer.Returned? then answer.n else 0; out[n..] == old(out[n..])
    {
      hide ReadRegion, Deque.Contents;
      var notify;
      answer, notify := state.ReadLocked(pos, rear, out);
      if answer.Asleep? {
        reader := Waiting(out.Length);
      } else {
        reader := Idle;
        if answer.Returned? { pos := pos + answer.n; }
      }
      if notify { worker := WakeWorker(worker); }
    }

    method ReaderActs(rear: nat, out: array<Byte>) returns (answer: Answer)
      requires state.Valid() && rear < state.config.capacity
      requires (reader.InRead? || reader.Awake?) && reader.room == out.Length > 0 && out != state.buf.store
      modifies this`reader, this`pos, this`worker, state, state.buf, out
      ensures state.Valid()
      ensures answer.Returned? ==> answer.n <= out.Length
      ensures ReaderRegionStep(old(View()), rear) == Some(Outcome(View(), EventsOf(answer, out[..])))
      ensures var n := if answer.Returned? then answer.n else 0; out[n..] == old(out[n..])
    {
      if reader.Awake? && reader.timedOut && state.err.None? && !state.eof {
        reader := Idle;
        return Failed(TimedOut);
      }
      answer := FinishRead(rear, out);
    }

    /** `read` from the moment it gets the lock until it returns or sleeps. */
    method ReaderRegion(out: array<Byte>) returns (answer: Answer)
      requires Valid() && (reader.InRead? || reader.Awake?) && reader.room == out.Length && out != state.buf.store
      modifies this`reader, this`pos, this`worker, state, state.buf, out
      ensures Valid()
      ensures answer.Returned? ==> answer.n <= out.Length
      ensures Step(data, old(View()), Action.ReaderRegion) == Some(Outcome(View(), EventsOf(answer, out[..])))
      ensures var n := if answer.Returned? then answer.n else 0; out[n..] == old(out[n..])
    {
      ghost var before := View();
      var rear := state.config.Rear();
      ReaderStepIs(data, before, rear);
      answer := ReaderActs(rear, out);
    }

    method SeekActs(from: SeekFrom) returns (result: Result<u64>)
      requires state.Valid()
      modifies this`pos, this`worker, state, state.buf
      ensures state.Valid()
      ensures Outcome(View(), [if result.Ok? then SeekOk(from, result.value) else SeekErr(from)])
           == ApplySeek(old(View()), from, SeekRegion(old(View()).ring, old(pos), from))
      ensures match from
              case Start(n) => result == Ok(n)
              case Current(d) =>
                && (result.Ok? <==> 0 <= old(pos) + d < U64_LIMIT)
                && (result.Ok? ==> result.value == old(pos) + d)
              case End(d) =>
                && (result.Ok? <==> 0 <= state.totalLen + d < U64_LIMIT)
                && (result.Ok? ==> result.value == state.totalLen + d)
      ensures pos == if result.Ok? then result.value else old(pos)
    {
      var restarted;
      result, restarted := state.SeekLocked(pos, from);
      if result.Ok? { pos := result.value; }
      if restarted { worker := WakeWorker(worker); }
    }

    method Seek(from: SeekFrom) returns (result: Result<u64>)
      requires Valid() && reader.Idle?
      modifies this, state, state.buf
      ensures Valid()
      ensures Step(data, old(View()), CallSeek(from))
           == Some(Outcome(View(), [if result.Ok? then SeekOk(from, result.value) else SeekErr(from)]))
      ensures match from
              case Start(n) => result == Ok(n)
              case Current(d) =>
                && (result.Ok? <==> 0 <= old(pos) + d < U64_LIMIT)
                && (result.Ok? ==> result.value == old(pos) + d)
              case End(d) =>
                && (result.Ok? <==> 0 <= |data| + d < U64_LIMIT)
                && (result.Ok? ==> result.value == |data| + d)
      ensures pos == if result.Ok? then result.value else old(pos)
    {
      StepKeepsInv(data, View(), CallSeek(from));
      result := SeekActs(from);
    }

    /** The first half of `drop`: `stop` is set under the lock, the notifications follow it. */
    method SetStop()
      requires Valid() && reader.Idle?
      modifies this`reader, state`stop
      ensures Valid() && Step(data, old(View()), CallDrop) == Some(Outcome(View(), []))
    {
      StepKeepsInv(data, View(), CallDrop);
      state.stop := true;
      reader := Dropping;
    }

    method NotifyStop()
      requires Valid() && reader.Dropping?
      modifies this
      ensures Valid() && Step(data, old(View()), DropNotify) == Some(Outcome(View(), []))
    {
      StepKeepsInv(data, View(), DropNotify);
      worker := WakeWorker(worker);
      reader := Joining;
    }

    method WorkerActs()
      requires state.Valid()
      requires worker.AtPhase1? || worker.Unparked? || worker.SeekFailed? || worker.Holding?
      requires HeldBlockFits(View())
      modifies this`worker, this`reader, state, state.buf, state.buf.store
      ensures state.Valid() && WorkerRegionStep(old(View())) == Some(View())
    {
      var directive, notify;
      if worker.SeekFailed? {
        directive, notify := state.Bury(worker.failure);
      } else if worker.Holding? {
        directive, notify := state.EnterPhase3(worker.fetch);
      } else {
        directive, notify := state.EnterPhase1();
      }
      worker := Obey(directive);
      if notify { reader := WakeReader(reader); }
    }

    /** The region the worker runs when it next gets the lock. */
    method WorkerRegion()
      requires Valid()
      requires worker.AtPhase1? || worker.Unparked? || worker.SeekFailed? || worker.Holding?
      modifies this, state, state.buf, state.buf.store
      ensures Valid() && Step(data, old(View()), Action.WorkerRegion) == Some(Outcome(View(), []))
    {
      StepKeepsInv(data, View(), Action.WorkerRegion);
      WorkerActs();
    }

    /** The unlocked inner seek, with the outcome the inner source chose. */
    method InnerSeek(failure: Option<Failure>, landing: nat)
      requires Valid() && worker.Seeking?
      modifies this
      ensures Valid() && Step(data, old(View()), Action.InnerSeek(failure, landing)) == Some(Outcome(View(), []))
    {
      StepKeepsInv(data, View(), Action.InnerSeek(failure, landing));
      match failure
      case None =>
        inner := worker.target;
        worker := AtPhase1;
      case Some(e) =>
        inner := landing;
        worker := SeekFailed(e);
    }

    /** The unlocked inner read, with the outcome the inner source chose. */
    method InnerRead(fetch: Fetch, landing: nat)
      requires Valid() && worker.Reading? && FetchPossible(data, inner, worker.want, fetch)
      modifies this
      ensures Valid() && Step(data, old(View()), Action.InnerRead(fetch, landing)) == Some(Outcome(View(), []))
      ensures inner == CursorAfter(old(inner), fetch, landing)
    {
      StepKeepsInv(data, View(), Action.InnerRead(fetch, landing));
      inner := CursorAfter(inner, fetch, landing);
      worker := Holding(fetch);
    }
  }
}
