/**
 `BufferedSource` as a transition system. Every region of code that runs under the mutex is one step, every
 call of the inner source is one step, and a condition-variable wait is two: release and sleep, then wake and
 take the lock again. The scheduler, the timer, spurious wake-ups and the inner source choose the steps.
 */
module Protocol {
  import opened Basics
  import opened CursorSpec
  import opened RingModel

  datatype WorkerPc =
    | AtPhase1
    | Seeking(target: nat)          // inside inner.seek, unlocked
    | SeekFailed(failure: Failure)  // about to lock and report
    | Reading(want: nat)            // inside inner.read, unlocked
    | Holding(fetch: Fetch)         // read returned, about to lock and deposit
    | Parked                        // asleep on not_full
    | Unparked                      // woken, about to take the lock
    | Exited

  datatype ReaderPc =
    | Idle
    | InRead(room: nat)                   // read called, about to take the lock
    | Waiting(room: nat)                  // asleep on not_empty
    | Awake(room: nat, timedOut: bool)    // woken, about to take the lock
    | Dropping                            // stop is set, nobody notified yet
    | Joining
    | Gone

  datatype System = System(ring: Ring, pos: nat, reader: ReaderPc, worker: WorkerPc, inner: nat) {
    ghost predicate MidRead() {
      reader.InRead? || reader.Waiting? || reader.Awake?
    }
  }

  datatype Action =
    | CallRead(wanted: nat)
    | ReaderRegion
    | CallSeek(from: SeekFrom)
    | CallDrop
    | DropNotify
    | Join
    | TimerFires
    | SpuriousReader
    | SpuriousWorker
    | WorkerRegion
    | InnerSeek(seekFailure: Option<Failure>, seekLanding: nat)
    | InnerRead(fetched: Fetch, readLanding: nat)

  datatype Outcome = Outcome(system: System, events: seq<Event>)

  // ---- steps --------------------------------------------------------------------------------------

  function WakeReader(r: ReaderPc): ReaderPc {
    if r.Waiting? then Awake(r.room, false) else r
  }

  function WakeWorker(w: WorkerPc): WorkerPc {
    if w.Parked? then Unparked else w
  }

  function Obey(d: Directive): WorkerPc {
    match d
    case Quit => Exited
    case Reposition(target) => Seeking(target)
    case Park => Parked
    case Fetching(want) => Reading(want)
    case Again => AtPhase1
  }

  function ApplyWorker(s: System, w: WorkerStep): System {
    s.(ring := w.ring, worker := Obey(w.directive),
       reader := if w.notifyReader then WakeReader(s.reader) else s.reader)
  }

  function WorkerRegionStep(s: System): Option<System>
    requires |s.ring.buf| <= s.ring.config.capacity
  {
    match s.worker
    case AtPhase1 => Some(ApplyWorker(s, Phase1(s.ring)))
    case Unparked => Some(ApplyWorker(s, Phase1(s.ring)))
    case SeekFailed(failure) => Some(ApplyWorker(s, Die(s.ring, failure)))
    case Holding(fetch) => Some(ApplyWorker(s, Phase3(s.ring, fetch)))
    case _ => None
  }

  /** What an inner source over `data` standing at `inner` may answer to a read of up to `want` bytes. */
  ghost predicate FetchPossible(data: seq<Byte>, inner: nat, want: nat, fetch: Fetch) {
    match fetch
    case Block(bytes) =>
      && |bytes| <= want
      && (bytes == [] <==> inner >= |data|)
      && (bytes != [] ==> inner + |bytes| <= |data| && bytes == data[inner..inner + |bytes|])
    case Interrupted => true
    case Fatal(_) => true
  }

  /** A failed inner read may leave the inner cursor anywhere. */
  function CursorAfter(inner: nat, fetch: Fetch, landing: nat): nat {
    match fetch
    case Block(bytes) => inner + |bytes|
    case Interrupted => inner
    case Fatal(_) => landing
  }

  function ApplyRead(s: System, room: nat, r: ReadStep): Outcome {
    match r
    case Serve(ring, bytes, notifyWorker) =>
      Outcome(s.(ring := ring, pos := s.pos + |bytes|, reader := Idle,
                 worker := if notifyWorker then WakeWorker(s.worker) else s.worker),
              [ReadOk(room, bytes)])
    case Refuse(error) => Outcome(s.(reader := Idle), [ReadErr(room, error)])
    case AtEof => Outcome(s.(reader := Idle), [ReadOk(room, [])])
    case Wait(ring, notifyWorker) =>
      Outcome(s.(ring := ring, reader := Waiting(room),
                 worker := if notifyWorker then WakeWorker(s.worker) else s.worker), [])
  }

  function ReaderRegionStep(s: System, rear: nat): Option<Outcome>
    requires rear < s.ring.config.capacity
  {
    match s.reader
    case InRead(room) => Some(ApplyRead(s, room, ReadRegion(s.ring, rear, s.pos, room)))
    case Awake(room, timedOut) => Some(ApplyRead(s, room, AfterWait(s.ring, rear, s.pos, room, timedOut)))
    case _ => None
  }

  function ApplySeek(s: System, from: SeekFrom, r: SeekStep): Outcome {
    match r
    case OutOfRange => Outcome(s, [SeekErr(from)])
    case InWindow(newPos) => Outcome(s.(pos := newPos), [SeekOk(from, newPos)])
    case Restart(ring, newPos) =>
      Outcome(s.(ring := ring, pos := newPos, worker := WakeWorker(s.worker)), [SeekOk(from, newPos)])
  }

  /** The step `a` takes from `s`, if `a` can happen there. */
  ghost function Step(data: seq<Byte>, s: System, a: Action): Option<Outcome>
    requires Inv(data, s)
  {
    RearBelowCapacity(s.ring.config);
    match a
    case CallRead(room) =>
      if !s.reader.Idle? then None
      else if room == 0 then Some(Outcome(s, [ReadOk(0, [])]))
      else Some(Outcome(s.(reader := InRead(room)), []))
    case ReaderRegion =>
      ReaderRegionStep(s, s.ring.config.Rear())
    case CallSeek(from) =>
      if s.reader.Idle? then Some(ApplySeek(s, from, SeekRegion(s.ring, s.pos, from))) else None
    case CallDrop =>
      if s.reader.Idle? then Some(Outcome(s.(ring := s.ring.(stop := true), reader := Dropping), [])) else None
    case DropNotify =>
      if s.reader.Dropping? then Some(Outcome(s.(reader := Joining, worker := WakeWorker(s.worker)), [])) else None
    case Join =>
      if s.reader.Joining? && s.worker.Exited? then Some(Outcome(s.(reader := Gone), [])) else None
    case TimerFires =>
      if s.reader.Waiting? then Some(Outcome(s.(reader := Awake(s.reader.room, true)), [])) else None
    case SpuriousReader =>
      if s.reader.Waiting? then Some(Outcome(s.(reader := Awake(s.reader.room, false)), [])) else None
    case SpuriousWorker =>
      if s.worker.Parked? then Some(Outcome(s.(worker := Unparked), [])) else None
    case WorkerRegion =>
      (match WorkerRegionStep(s)
       case None => None
       case Some(next) => Some(Outcome(next, [])))
    case InnerSeek(failure, landing) =>
      if !s.worker.Seeking? then None
      else if failure.None? then Some(Outcome(s.(worker := AtPhase1, inner := s.worker.target), []))
      else Some(Outcome(s.(worker := SeekFailed(failure.value), inner := landing), []))
    case InnerRead(fetch, landing) =>
      if s.worker.Reading? && FetchPossible(data, s.inner, s.worker.want, fetch) then
        Some(Outcome(s.(worker := Holding(fetch), inner := CursorAfter(s.inner, fetch, landing)), []))
      else None
  }

  /** What `build` starts: the probed inner source restored to where the caller left it. */
  function Initial(config: Config, data: seq<Byte>, pos: nat): System {
    System(InitialRing(config, |data|, pos), pos, Idle, AtPhase1, pos)
  }

  // ---- the invariant ------------------------------------------------------------------------------

  /** The ring is a window of the data around the reader; a pending seek has already emptied it. */
  ghost predicate RingCoherent(data: seq<Byte>, s: System) {
    var r := s.ring;
    && r.config.Clamped()
    && r.total == |data| < U64_LIMIT
    && |r.buf| <= r.config.capacity
    && (r.buf != [] ==> r.End() <= |data| && r.buf == data[r.start..r.End()])
    && r.start <= s.pos <= r.End()
    && s.pos < U64_LIMIT
    && (r.eof ==> r.End() >= |data|)
    && (r.target.Some? ==> r.buf == [] && r.target.value == r.start && (r.eof <==> r.start >= r.total))
  }

  /** With no seek pending, whatever the worker is about to bring belongs at the end of the ring and fits. */
  ghost predicate WorkerAligned(data: seq<Byte>, s: System) {
    var r := s.ring;
    r.target.None? && !r.stop ==>
      match s.worker
      case AtPhase1 | Parked | Unparked => s.inner == r.End()
      case Seeking(target) => target == r.End()
      case Reading(want) => s.inner == r.End() && 0 < want <= r.config.capacity - |r.buf|
      case Holding(Block(bytes)) =>
        && |r.buf| + |bytes| <= r.config.capacity
        && (bytes == [] <==> r.End() >= |data|)
        && (bytes != [] ==> r.End() + |bytes| <= |data| && bytes == data[r.End()..r.End() + |bytes|])
        && s.inner == r.End() + |bytes|
      case Holding(Interrupted) => s.inner == r.End()
      case _ => true
  }

  /** An error is stored exactly while the worker is dead; it exits for no other reason than that or stop. */
  ghost predicate FailureMeansDeath(s: System) {
    && (s.ring.err.Some? <==> s.ring.workerDead)
    && (s.ring.workerDead ==> s.worker.Exited?)
    && (s.worker.Exited? ==> s.ring.workerDead || s.ring.stop)
  }

  /** Whoever sleeps un-notified has a reason to, and the two reasons exclude each other. */
  ghost predicate SleepJustified(s: System) {
    var r := s.ring;
    && (s.worker.Parked? ==>
          && r.target.None?
          && (r.eof || |r.buf| == r.config.capacity)
          && (r.stop ==> s.reader.Dropping?))
    && (s.reader.Waiting? ==>
          r.err.None? && !r.eof && s.pos < r.total && s.pos == r.End() && |r.buf| < r.config.capacity)
  }

  ghost predicate CallsInOrder(s: System) {
    && (s.ring.stop <==> s.reader.Dropping? || s.reader.Joining? || s.reader.Gone?)
    && (s.MidRead() ==> s.reader.room > 0)
    && (s.reader.Gone? ==> s.worker.Exited?)
    && (s.worker.Reading? ==> 0 < s.worker.want <= s.ring.config.blockSize)
    && (s.worker.Seeking? ==> s.worker.target < U64_LIMIT)
  }

  ghost predicate Inv(data: seq<Byte>, s: System) {
    && RingCoherent(data, s)
    && WorkerAligned(data, s)
    && FailureMeansDeath(s)
    && SleepJustified(s)
    && CallsInOrder(s)
  }

  lemma InitialIsCoherent(config: Config, data: seq<Byte>, pos: u64)
    requires config.Clamped() && |data| < U64_LIMIT
    ensures Inv(data, Initial(config, data, pos))
  {
  }

  // ---- every step keeps it ------------------------------------------------------------------------

  lemma DrainKeepsWindow(data: seq<Byte>, r: Ring, n: nat)
    requires n <= |r.buf|
    requires r.buf != [] ==> r.End() <= |data| && r.buf == data[r.start..r.End()]
    ensures var d := r.Drained(n);
            d.End() == r.End() && (d.buf != [] ==> d.buf == data[d.start..d.End()])
  {
    if n < |r.buf| {
      SubSlice(data, r.start, r.End(), n, |r.buf|);
    }
  }

  lemma Phase1KeepsInv(data: seq<Byte>, s: System)
    requires Inv(data, s)
    requires s.worker.AtPhase1? || s.worker.Unparked?
    ensures Inv(data, ApplyWorker(s, Phase1(s.ring)))
  {
  }

  lemma DieKeepsInv(data: seq<Byte>, s: System, failure: Failure)
    requires Inv(data, s)
    requires !s.worker.Exited?
    ensures Inv(data, ApplyWorker(s, Die(s.ring, failure)))
  {
  }

  lemma DepositKeepsInv(data: seq<Byte>, s: System, bytes: seq<Byte>)
    requires Inv(data, s)
    requires s.worker == Holding(Block(bytes)) && bytes != [] && s.ring.target.None? && !s.ring.stop
    ensures Inv(data, ApplyWorker(s, Phase3(s.ring, Block(bytes))))
  {
    JoinSlices(data, s.ring.start, s.ring.End(), s.ring.End() + |bytes|);
  }

  lemma Phase3KeepsInv(data: seq<Byte>, s: System)
    requires Inv(data, s)
    requires s.worker.Holding?
    ensures Inv(data, ApplyWorker(s, Phase3(s.ring, s.worker.fetch)))
  {
    var r := s.ring;
    if r.target.Some? || r.stop {
      assert Phase3(r, s.worker.fetch) == WorkerStep(r, Again, false);
    } else if s.worker.fetch.Fatal? {
      DieKeepsInv(data, s, s.worker.fetch.failure);
    } else if s.worker.fetch.Block? && s.worker.fetch.bytes != [] {
      DepositKeepsInv(data, s, s.worker.fetch.bytes);
    }
  }

  /** Moving the reader inside the window and dropping bytes behind it, telling the worker if any. */
  lemma DrainBehindReader(data: seq<Byte>, s: System, n: nat, pos: nat, reader: ReaderPc, wake: bool)
    requires Inv(data, s)
    requires s.reader.InRead? || s.reader.Awake?
    requires s.ring.start + n <= pos <= s.ring.End() && (n > 0 ==> wake && s.ring.buf != [])
    requires pos > s.pos ==> s.ring.buf != []
    requires reader.Idle? || reader == Waiting(s.reader.room)
    ensures var t := s.(ring := s.ring.Drained(n), pos := pos, reader := reader,
                        worker := if wake then WakeWorker(s.worker) else s.worker);
            && RingCoherent(data, t) && WorkerAligned(data, t) && FailureMeansDeath(t) && CallsInOrder(t)
            && (reader.Idle? ==> SleepJustified(t))
  {
    DrainKeepsWindow(data, s.ring, n);
  }

  /** A hit drops only bytes at least `rear` behind the new position, and tells the worker if it drops any. */
  lemma ServedRing(r: Ring, rear: nat, pos: nat, room: nat) returns (n: nat)
    requires rear < r.config.capacity
    requires ReadRegion(r, rear, pos, room).Serve?
    ensures var Serve(ring, bytes, wake) := ReadRegion(r, rear, pos, room);
            && n <= |r.buf| && r.buf != [] && ring == r.Drained(n)
            && r.start + n <= pos + |bytes| <= r.End() && (n > 0 ==> wake && r.start + n + rear == pos + |bytes|)
  {
    var Serve(ring, bytes, wake) := ReadRegion(r, rear, pos, room);
    n := if wake then pos - r.start + |bytes| - rear else 0;
    assert r.buf[0..] == r.buf;
  }

  /** A reader that has to wait cuts a full ring down to the allowance and leaves any other alone. */
  lemma WaitingRing(r: Ring, rear: nat, pos: nat, room: nat) returns (n: nat)
    requires rear < r.config.capacity
    requires ReadRegion(r, rear, pos, room).Wait?
    ensures var Wait(ring, wake) := ReadRegion(r, rear, pos, room);
            && n <= |r.buf| && ring == r.Drained(n) && pos >= r.End()
            && (n > 0 ==> wake && n + rear == |r.buf|)
            && (wake <==> |r.buf| == r.config.capacity)
  {
    n := if |r.buf| == r.config.capacity then |r.buf| - rear else 0;
    assert r.buf[0..] == r.buf;
  }

  lemma ServeKeepsInv(data: seq<Byte>, s: System, rear: nat)
    requires Inv(data, s)
    requires s.reader.InRead? || s.reader.Awake?
    requires rear < s.ring.config.capacity
    requires ReadRegion(s.ring, rear, s.pos, s.reader.room).Serve?
    ensures Inv(data, ApplyRead(s, s.reader.room, ReadRegion(s.ring, rear, s.pos, s.reader.room)).system)
  {
    hide ReadRegion, RingCoherent, WorkerAligned, FailureMeansDeath, SleepJustified, CallsInOrder;
    var Serve(ring, bytes, wake) := ReadRegion(s.ring, rear, s.pos, s.reader.room);
    var n := ServedRing(s.ring, rear, s.pos, s.reader.room);
    DrainBehindReader(data, s, n, s.pos + |bytes|, Idle, wake);
  }

  lemma WaitKeepsInv(data: seq<Byte>, s: System, rear: nat)
    requires Inv(data, s)
    requires s.reader.InRead? || s.reader.Awake?
    requires rear < s.ring.config.capacity
    requires ReadRegion(s.ring, rear, s.pos, s.reader.room).Wait?
    ensures Inv(data, ApplyRead(s, s.reader.room, ReadRegion(s.ring, rear, s.pos, s.reader.room)).system)
  {
    var Wait(ring, wake) := ReadRegion(s.ring, rear, s.pos, s.reader.room);
    var n := WaitingRing(s.ring, rear, s.pos, s.reader.room);
    DrainBehindReader(data, s, n, s.pos, Waiting(s.reader.room), wake);
  }

  lemma RestartKeepsInv(data: seq<Byte>, s: System, newPos: u64)
    requires Inv(data, s)
    requires s.reader.Idle?
    ensures var ring := s.ring.(target := Some(newPos), buf := [], start := newPos, eof := newPos >= s.ring.total,
                                err := if s.ring.workerDead then s.ring.err else None);
            Inv(data, s.(ring := ring, pos := newPos, worker := WakeWorker(s.worker)))
  {
  }

  lemma MoveKeepsInv(data: seq<Byte>, s: System, newPos: u64)
    requires Inv(data, s)
    requires s.reader.Idle? && s.ring.start <= newPos <= s.ring.End()
    ensures Inv(data, s.(pos := newPos))
  {
  }

  lemma SeekKeepsInv(data: seq<Byte>, s: System, from: SeekFrom)
    requires Inv(data, s)
    requires s.reader.Idle?
    ensures Inv(data, ApplySeek(s, from, SeekRegion(s.ring, s.pos, from)).system)
  {
    hide WorkerAligned, FailureMeansDeath, SleepJustified, CallsInOrder;
    match SeekTarget(s.ring.total, s.pos, from)
    case Ok(newPos) =>
      if s.ring.start <= newPos <= s.ring.End() {
        MoveKeepsInv(data, s, newPos);
      } else {
        RestartKeepsInv(data, s, newPos);
      }
    case Err =>
  }

  lemma ReaderRegionKeepsInv(data: seq<Byte>, s: System, rear: nat)
    requires Inv(data, s)
    requires rear < s.ring.config.capacity
    ensures ReaderRegionStep(s, rear).Some? ==> Inv(data, ReaderRegionStep(s, rear).value.system)
  {
    if s.reader.InRead? || s.reader.Awake? {
      assert Inv(data, s.(reader := Idle));
      match ReadRegion(s.ring, rear, s.pos, s.reader.room)
      case Serve(_, _, _) => ServeKeepsInv(data, s, rear);
      case Wait(_, _) => WaitKeepsInv(data, s, rear);
      case _ =>
    }
  }

  lemma ReaderRegionStepKeepsInv(data: seq<Byte>, s: System)
    requires Inv(data, s)
    ensures Step(data, s, ReaderRegion).Some? ==> Inv(data, Step(data, s, ReaderRegion).value.system)
  {
    RearBelowCapacity(s.ring.config);
    ReaderRegionKeepsInv(data, s, s.ring.config.Rear());
  }

  lemma WorkerStepKeepsInv(data: seq<Byte>, s: System)
    requires Inv(data, s)
    ensures Step(data, s, WorkerRegion).Some? ==> Inv(data, Step(data, s, WorkerRegion).value.system)
  {
    match s.worker
    case AtPhase1 => Phase1KeepsInv(data, s);
    case Unparked => Phase1KeepsInv(data, s);
    case SeekFailed(failure) => DieKeepsInv(data, s, failure);
    case Holding(_) => Phase3KeepsInv(data, s);
    case _ =>
  }

  lemma InnerStepKeepsInv(data: seq<Byte>, s: System, a: Action)
    requires Inv(data, s)
    requires a.InnerSeek? || a.InnerRead?
    ensures Step(data, s, a).Some? ==> Inv(data, Step(data, s, a).value.system)
  {
  }

  lemma CallStepKeepsInv(data: seq<Byte>, s: System, a: Action)
    requires Inv(data, s)
    requires a.CallRead? || a.CallDrop? || a.DropNotify? || a.Join?
    ensures Step(data, s, a).Some? ==> Inv(data, Step(data, s, a).value.system)
  {
  }

  lemma WakeUpKeepsInv(data: seq<Byte>, s: System, a: Action)
    requires Inv(data, s)
    requires a.TimerFires? || a.SpuriousReader? || a.SpuriousWorker?
    ensures Step(data, s, a).Some? ==> Inv(data, Step(data, s, a).value.system)
  {
  }

  /** Ring coherence, worker alignment, sticky failure and justified sleep survive every step. */
  lemma StepKeepsInv(data: seq<Byte>, s: System, a: Action)
    requires Inv(data, s)
    ensures Step(data, s, a).Some? ==> Inv(data, Step(data, s, a).value.system)
  {
    hide RingCoherent, WorkerAligned, FailureMeansDeath, SleepJustified, CallsInOrder;
    match a
    case ReaderRegion =>
      ReaderRegionStepKeepsInv(data, s);
    case WorkerRegion => WorkerStepKeepsInv(data, s);
    case CallSeek(from) =>
      if s.reader.Idle? { SeekKeepsInv(data, s, from); }
    case InnerSeek(_, _) => InnerStepKeepsInv(data, s, a);
    case InnerRead(_, _) => InnerStepKeepsInv(data, s, a);
    case TimerFires => WakeUpKeepsInv(data, s, a);
    case SpuriousReader => WakeUpKeepsInv(data, s, a);
    case SpuriousWorker => WakeUpKeepsInv(data, s, a);
    case _ => CallStepKeepsInv(data, s, a);
  }

  // ---- every step is a cursor step ----------------------------------------------------------------

  /** The bytes of a hit are those of the data at the reader's position. */
  lemma ServedBytes(data: seq<Byte>, s: System, rear: nat)
    requires RingCoherent(data, s) && CallsInOrder(s)
    requires s.reader.InRead? || s.reader.Awake?
    requires rear < s.ring.config.capacity
    requires ReadRegion(s.ring, rear, s.pos, s.reader.room).Serve?
    ensures var bytes := ReadRegion(s.ring, rear, s.pos, s.reader.room).bytes;
            s.pos + |bytes| < U64_LIMIT && Allowed(data, s.pos, ReadOk(s.reader.room, bytes))
  {
    var r, bytes := s.ring, ReadRegion(s.ring, rear, s.pos, s.reader.room).bytes;
    SubSlice(data, r.start, r.End(), s.pos - r.start, s.pos - r.start + |bytes|);
  }

  /** A read answers with bytes of the data at the reader's position, an empty answer only at the end. */
  lemma ReadRegionAnswers(data: seq<Byte>, s: System, rear: nat)
    requires RingCoherent(data, s) && CallsInOrder(s)
    requires s.reader.InRead? || s.reader.Awake?
    requires rear < s.ring.config.capacity
    ensures var o := ApplyRead(s, s.reader.room, ReadRegion(s.ring, rear, s.pos, s.reader.room));
            Conforms(data, s.pos, o.events, o.system.pos)
  {
    hide Conforms;
    var room := s.reader.room;
    match ReadRegion(s.ring, rear, s.pos, room)
    case Serve(_, bytes, _) =>
      ServedBytes(data, s, rear);
      ConformsOne(data, s.pos, ReadOk(room, bytes));
    case Refuse(error) => ConformsOne(data, s.pos, ReadErr(room, error));
    case AtEof => ConformsOne(data, s.pos, ReadOk(room, []));
    case Wait(_, _) => ConformsNothing(data, s.pos);
  }

  lemma ReaderRegionAnswers(data: seq<Byte>, s: System, rear: nat)
    requires Inv(data, s)
    requires rear < s.ring.config.capacity
    requires ReaderRegionStep(s, rear).Some?
    ensures var o := ReaderRegionStep(s, rear).value; Conforms(data, s.pos, o.events, o.system.pos)
  {
    ReadRegionAnswers(data, s, rear);
    ConformsOne(data, s.pos, ReadErr(s.reader.room, TimedOut));
  }

  // ---- which call an answer belongs to, and where its error comes from ----------------------------

  function CallOfAction(a: Action): seq<Call> {
    match a
    case CallRead(room) => [ReadCall(room)]
    case CallSeek(from) => [SeekCall(from)]
    case _ => []
  }

  function CallsMade(actions: seq<Action>): seq<Call> {
    if actions == [] then [] else CallOfAction(actions[0]) + CallsMade(actions[1..])
  }

  /** The call that has not been answered yet, if any. */
  function Unanswered(s: System): seq<Call> {
    match s.reader
    case InRead(room) => [ReadCall(room)]
    case Waiting(room) => [ReadCall(room)]
    case Awake(room, _) => [ReadCall(room)]
    case _ => []
  }

  /** The timer or the inner source brings this error about. */
  predicate Raises(a: Action, error: IoError) {
    match error
    case TimedOut => a.TimerFires?
    case Inner(f) => (a.InnerRead? && a.fetched == Fatal(f)) || (a.InnerSeek? && a.seekFailure == Some(f))
    case BehindRingStart => false
  }

  /** The error has been raised and a read may still report it. */
  predicate Lurking(s: System, error: IoError) {
    match error
    case TimedOut => s.reader.Awake? && s.reader.timedOut
    case Inner(f) => s.ring.err == Some(f) || s.worker == SeekFailed(f) || s.worker == Holding(Fatal(f))
    case BehindRingStart => false
  }

  /** Every error an answer reports was lurking, or was raised by one of the actions. */
  ghost predicate ErrorsExplained(s: System, actions: seq<Action>, events: seq<Event>) {
    forall k :: 0 <= k < |events| && events[k].ReadErr? ==>
      || Lurking(s, events[k].error)
      || exists i :: 0 <= i < |actions| && Raises(actions[i], events[k].error)
  }

  lemma ReaderRegionExplained(s: System, rear: nat)
    requires rear < s.ring.config.capacity && s.ring.start <= s.pos
    requires ReaderRegionStep(s, rear).Some?
    ensures var o := ReaderRegionStep(s, rear).value;
            && Unanswered(s) == CallsOf(o.events) + Unanswered(o.system)
            && (forall k :: 0 <= k < |o.events| && o.events[k].ReadErr? ==> Lurking(s, o.events[k].error))
  {
    assert forall e: Event :: [e][1..] == [];
  }

  /** Only the two calls and the reader's own region answer or make a call. */
  lemma OtherStepsAreSilent(data: seq<Byte>, s: System, a: Action)
    requires Inv(data, s) && Step(data, s, a).Some?
    requires !a.CallRead? && !a.CallSeek? && !a.ReaderRegion?
    ensures var o := Step(data, s, a).value;
            o.events == [] && CallOfAction(a) == [] && Unanswered(o.system) == Unanswered(s)
  {
    hide WorkerAligned, FailureMeansDeath, SleepJustified, CallsInOrder;
  }

  lemma StepAnswersCall(data: seq<Byte>, s: System, a: Action)
    requires Inv(data, s) && Step(data, s, a).Some?
    ensures var o := Step(data, s, a).value;
            && Unanswered(s) + CallOfAction(a) == CallsOf(o.events) + Unanswered(o.system)
            && ErrorsExplained(s, [], o.events)
  {
    hide WorkerAligned, FailureMeansDeath, SleepJustified, CallsInOrder, Phase1, Phase3, ReadRegion, SeekRegion;
    match a
    case CallRead(room) => CallsOfOne(ReadOk(0, []));
    case CallSeek(from) =>
      CallsOfOne(Step(data, s, a).value.events[0]);
    case ReaderRegion =>
      RearBelowCapacity(s.ring.config);
      ReaderRegionExplained(s, s.ring.config.Rear());
    case _ => OtherStepsAreSilent(data, s, a);
  }

  lemma ReaderRegionLurks(s: System, rear: nat, error: IoError)
    requires rear < s.ring.config.capacity && ReaderRegionStep(s, rear).Some?
    ensures Lurking(ReaderRegionStep(s, rear).value.system, error) ==> Lurking(s, error)
  {
  }

  lemma WorkerRegionLurks(s: System, error: IoError)
    requires |s.ring.buf| <= s.ring.config.capacity && WorkerRegionStep(s).Some?
    ensures Lurking(WorkerRegionStep(s).value, error) ==> Lurking(s, error)
  {
  }

  /** A step lets an error lurk only if it was lurking before or the step raises it. */
  lemma StepLurks(data: seq<Byte>, s: System, a: Action, error: IoError)
    requires Inv(data, s) && Step(data, s, a).Some?
    ensures Lurking(Step(data, s, a).value.system, error) ==> Lurking(s, error) || Raises(a, error)
  {
    hide WorkerAligned, FailureMeansDeath, SleepJustified, CallsInOrder;
    hide WorkerRegionStep, ReaderRegionStep;
    match a
    case ReaderRegion =>
      RearBelowCapacity(s.ring.config);
      ReaderRegionLurks(s, s.ring.config.Rear(), error);
    case WorkerRegion => WorkerRegionLurks(s, error);
    case _ =>
  }

  /** What one step answers is what a plain cursor may answer to the call under way; its error was lurking. */
  lemma StepConforms(data: seq<Byte>, s: System, a: Action)
    requires Inv(data, s)
    requires Step(data, s, a).Some?
    ensures var o := Step(data, s, a).value;
            && Conforms(data, s.pos, o.events, o.system.pos)
            && Unanswered(s) + CallOfAction(a) == CallsOf(o.events) + Unanswered(o.system)
            && ErrorsExplained(s, [], o.events)
  {
    StepAnswersCall(data, s, a);
    StepAnswers(data, s, a);
  }

  lemma StepAnswers(data: seq<Byte>, s: System, a: Action)
    requires Inv(data, s) && Step(data, s, a).Some?
    ensures var o := Step(data, s, a).value; Conforms(data, s.pos, o.events, o.system.pos)
  {
    hide WorkerAligned, FailureMeansDeath, SleepJustified, CallsInOrder, ReaderRegionStep, Phase1, Phase3, Conforms;
    ConformsNothing(data, s.pos);
    RearBelowCapacity(s.ring.config);
    match a
    case CallRead(room) => ConformsOne(data, s.pos, ReadOk(0, []));
    case ReaderRegion =>
      ReaderRegionAnswers(data, s, s.ring.config.Rear());
    case CallSeek(from) =>
      match SeekTarget(|data|, s.pos, from) {
        case Ok(newPos) => ConformsOne(data, s.pos, SeekOk(from, newPos));
        case Err => ConformsOne(data, s.pos, SeekErr(from));
      }
    case _ =>
  }

  // ---- whole runs ---------------------------------------------------------------------------------

  /** The result of a schedule, `None` if some action of it cannot happen when its turn comes. */
  ghost function Run(data: seq<Byte>, s: System, actions: seq<Action>): Option<Outcome>
    requires Inv(data, s)
    decreases |actions|
  {
    if actions == [] then Some(Outcome(s, []))
    else
      StepKeepsInv(data, s, actions[0]);
      match Step(data, s, actions[0])
      case None => None
      case Some(first) =>
        match Run(data, first.system, actions[1..])
        case None => None
        case Some(rest) => Some(Outcome(rest.system, first.events + rest.events))
  }

  /** A schedule's first step and its rest. */
  lemma RunStep(data: seq<Byte>, s: System, a: Action, rest: seq<Action>)
    requires Inv(data, s) && Step(data, s, a).Some?
    ensures Inv(data, Step(data, s, a).value.system)
    ensures var o, r := Step(data, s, a).value, Run(data, Step(data, s, a).value.system, rest);
            Run(data, s, [a] + rest)
            == if r.Some? then Some(Outcome(r.value.system, o.events + r.value.events)) else None
    ensures rest == [] ==> Run(data, s, [a]) == Step(data, s, a)
  {
    hide Step, Inv;
    StepKeepsInv(data, s, a);
    assert ([a] + rest)[1..] == rest;
    if rest == [] {
      var o := Step(data, s, a).value;
      assert [a] + rest == [a] && o.events + [] == o.events;
    }
  }

  /** The explanation of a run's errors from those of its first step and of the rest. */
  lemma ErrorsExplainedCons(s: System, a: Action, first: seq<Event>, t: System, rest: seq<Action>, later: seq<Event>)
    requires ErrorsExplained(s, [], first) && ErrorsExplained(t, rest, later)
    requires forall error :: Lurking(t, error) ==> Lurking(s, error) || Raises(a, error)
    ensures ErrorsExplained(s, [a] + rest, first + later)
  {
    var actions, events := [a] + rest, first + later;
    forall k | 0 <= k < |events| && events[k].ReadErr?
      ensures Lurking(s, events[k].error) || exists i :: 0 <= i < |actions| && Raises(actions[i], events[k].error)
    {
      var error := events[k].error;
      if k >= |first| && !Lurking(s, error) {
        assert events[k] == later[k - |first|];
        if Lurking(t, error) {
          assert Raises(actions[0], error);
        } else {
          var i :| 0 <= i < |rest| && Raises(rest[i], error);
          assert Raises(actions[i + 1], error);
        }
      }
    }
  }

  lemma NoErrors(s: System)
    ensures ErrorsExplained(s, [], [])
  {
  }

  lemma Regroup(before: seq<Call>, made: seq<Call>, later: seq<Call>, answered: seq<Call>, between: seq<Call>,
                rest: seq<Call>, after: seq<Call>)
    requires before + made == answered + between && between + later == rest + after
    ensures before + (made + later) == answered + rest + after
  {
    assert before + (made + later) == before + made + later;
    assert answered + between + later == answered + (between + later);
    assert answered + (rest + after) == answered + rest + after;
  }

  /**
   Refinement over whole runs: whatever the scheduler, the timer and the inner source do, every state on the
   way is coherent and the answers are those of a plain cursor over the data to the calls made, one by one and
   in order, with at most the last call unanswered. No read fails but for an error that was raised.
   */
  lemma {:induction false} EveryRunIsACursor(data: seq<Byte>, s: System, actions: seq<Action>)
    requires Inv(data, s)
    requires Run(data, s, actions).Some?
    ensures var o := Run(data, s, actions).value;
            && Inv(data, o.system)
            && Conforms(data, s.pos, o.events, o.system.pos)
            && Unanswered(s) + CallsMade(actions) == CallsOf(o.events) + Unanswered(o.system)
            && ErrorsExplained(s, actions, o.events)
    decreases |actions|
  {
    hide Step, WorkerAligned, FailureMeansDeath, SleepJustified, CallsInOrder, ErrorsExplained, Lurking, Unanswered;
    if actions != [] {
      StepKeepsInv(data, s, actions[0]);
      StepConforms(data, s, actions[0]);
      var first := Step(data, s, actions[0]).value;
      forall error ensures Lurking(first.system, error) ==> Lurking(s, error) || Raises(actions[0], error) {
        StepLurks(data, s, actions[0], error);
      }
      EveryRunIsACursor(data, first.system, actions[1..]);
      var rest := Run(data, first.system, actions[1..]).value;
      ConformsAppend(data, s.pos, first.events, first.system.pos, rest.events, rest.system.pos);
      CallsOfAppend(first.events, rest.events);
      Regroup(Unanswered(s), CallOfAction(actions[0]), CallsMade(actions[1..]), CallsOf(first.events),
              Unanswered(first.system), CallsOf(rest.events), Unanswered(rest.system));
      ErrorsExplainedCons(s, actions[0], first.events, first.system, actions[1..], rest.events);
      assert actions == [actions[0]] + actions[1..];
    } else {
      NoErrors(s);
    }
  }

  /** A schedule on which no timer fires and no inner call fails for good. */
  ghost predicate Undisturbed(actions: seq<Action>) {
    forall i, error :: 0 <= i < |actions| ==> !Raises(actions[i], error)
  }

  /** Undisturbed, the prefetching reader is a plain cursor outright: no read fails. */
  lemma UndisturbedReadsSucceed(data: seq<Byte>, s: System, actions: seq<Action>)
    requires Inv(data, s) && Run(data, s, actions).Some?
    requires Undisturbed(actions) && forall error :: !Lurking(s, error)
    ensures var o := Run(data, s, actions).value;
            && Conforms(data, s.pos, o.events, o.system.pos)
            && forall k :: 0 <= k < |o.events| ==> !o.events[k].ReadErr?
  {
    EveryRunIsACursor(data, s, actions);
  }

  // ---- notifications ------------------------------------------------------------------------------

  /** What the worker does under the lock wakes a sleeping reader exactly if it changes the ring. */
  lemma WorkerWakesReader(data: seq<Byte>, s: System)
    requires Inv(data, s) && s.reader.Waiting? && Step(data, s, WorkerRegion).Some?
    ensures var t := Step(data, s, WorkerRegion).value.system;
            && t.reader == (if t.ring == s.ring then s.reader else Awake(s.reader.room, false))
  {
    hide WorkerAligned;
    if s.worker.Holding? && s.worker.fetch.Block? && s.worker.fetch.bytes != [] {
      var b := s.ring.buf;
      assert |b + s.worker.fetch.bytes| > |b|;
    }
  }

  /** What the caller does under the lock wakes a parked worker exactly if it changes the ring. */
  lemma ReaderWakesWorker(data: seq<Byte>, s: System, a: Action)
    requires Inv(data, s) && s.worker.Parked? && (a.ReaderRegion? || a.CallSeek?) && Step(data, s, a).Some?
    ensures var t := Step(data, s, a).value.system;
            t.worker == if t.ring == s.ring then Parked else Unparked
  {
    hide WorkerAligned;
    RearBelowCapacity(s.ring.config);
  }

  // ---- timeouts -----------------------------------------------------------------------------------

  function Firings(actions: seq<Action>): nat {
    if actions == [] then 0 else (if actions[0].TimerFires? then 1 else 0) + Firings(actions[1..])
  }

  function Timeouts(events: seq<Event>): nat {
    if events == [] then 0
    else (if events[0].ReadErr? && events[0].error.TimedOut? then 1 else 0) + Timeouts(events[1..])
  }

  function Armed(s: System): nat {
    if Lurking(s, TimedOut) then 1 else 0
  }

  lemma {:induction false} TimeoutsAppend(first: seq<Event>, second: seq<Event>)
    ensures Timeouts(first + second) == Timeouts(first) + Timeouts(second)
  {
    if first == [] {
      assert first + second == second;
    } else {
      assert (first + second)[1..] == first[1..] + second;
      TimeoutsAppend(first[1..], second);
    }
  }

  lemma StepTimesOut(data: seq<Byte>, s: System, a: Action)
    requires Inv(data, s) && Step(data, s, a).Some?
    ensures var o := Step(data, s, a).value;
            Timeouts(o.events) + Armed(o.system) <= Firings([a]) + Armed(s)
  {
    hide WorkerAligned, FailureMeansDeath, SleepJustified, Phase1, Phase3;
    assert [a][1..] == [];
    assert forall e: Event :: [e][1..] == [];
    RearBelowCapacity(s.ring.config);
  }

  /** Over every run no more reads time out than timers fire: one firing excuses one read. */
  lemma {:induction false} TimeoutsNeedFirings(data: seq<Byte>, s: System, actions: seq<Action>)
    requires Inv(data, s) && Run(data, s, actions).Some?
    ensures var o := Run(data, s, actions).value;
            Timeouts(o.events) + Armed(o.system) <= Firings(actions) + Armed(s)
    decreases |actions|
  {
    hide Step, Armed, RingCoherent, WorkerAligned, FailureMeansDeath, SleepJustified, CallsInOrder;
    if actions != [] {
      StepKeepsInv(data, s, actions[0]);
      StepTimesOut(data, s, actions[0]);
      assert [actions[0]][1..] == [];
      var first := Step(data, s, actions[0]).value;
      TimeoutsNeedFirings(data, first.system, actions[1..]);
      TimeoutsAppend(first.events, Run(data, first.system, actions[1..]).value.events);
    }
  }
}
