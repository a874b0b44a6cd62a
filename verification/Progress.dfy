/** Liveness of the prefetch protocol: reads that wait are served, and dropping the reader ends the worker. */
module Progress {
  import opened Basics
  import opened CursorSpec
  import opened RingModel
  import opened Protocol

  /** The reader would return if it got the lock now: it timed out, or bytes, an error or the end are there. */
  ghost predicate Ready(s: System) {
    || (s.reader.Awake? && s.reader.timedOut)
    || s.pos < s.ring.End() || s.ring.err.Some? || s.ring.eof || s.pos >= s.ring.total
  }

  /** What can happen while the caller, still inside a read, makes no other call. */
  ghost predicate NoCall(a: Action) {
    !a.CallRead? && !a.CallSeek? && !a.CallDrop?
  }

  ghost predicate NoCalls(actions: seq<Action>) {
    forall i :: 0 <= i < |actions| ==> NoCall(actions[i])
  }

  /** A step that a thread takes of its own accord and that gets somewhere: no timer, spurious wake-up or retry. */
  ghost predicate Working(a: Action) {
    || a.ReaderRegion? || a.WorkerRegion?
    || (a.InnerSeek? && a.seekFailure.None?) || (a.InnerRead? && a.fetched.Block?)
  }

  // ---- a waiting read is answered -----------------------------------------------------------------

  /** How far the worker is from its next deposit; a pending seek makes it discard and start over. */
  function WorkerRank(w: WorkerPc, seekPending: bool): nat {
    match w
    case AtPhase1 | Unparked => 4
    case Parked => 3
    case Seeking(_) => 5
    case SeekFailed(_) => 1
    case Reading(_) => if seekPending then 6 else 2
    case Holding(fetch) => if seekPending || fetch.Interrupted? then 5 else 1
    case Exited => 0
  }

  function Rank(s: System): nat {
    2 * ((if s.ring.target.Some? then 8 else 0)
         + (if |s.ring.buf| == s.ring.config.capacity then 8 else 0)
         + WorkerRank(s.worker, s.ring.target.Some?))
    + (if s.reader.Waiting? then 0 else 1)
  }

  /** How far a retried inner read or a spurious wake-up, itself a step, sets a waiting read back. */
  function Setback(a: Action): nat {
    match a
    case InnerRead(Interrupted, _) => 7
    case SpuriousReader => 2
    case SpuriousWorker => 3
    case _ => 0
  }

  function Setbacks(actions: seq<Action>): nat {
    if actions == [] then 0 else Setback(actions[0]) + Setbacks(actions[1..])
  }

  lemma ReaderRegionLowersRank(data: seq<Byte>, s: System, rear: nat)
    requires Inv(data, s) && s.MidRead() && !Ready(s)
    requires rear < s.ring.config.capacity
    requires ReaderRegionStep(s, rear).Some?
    ensures var t := ReaderRegionStep(s, rear).value.system; t.MidRead() && !Ready(t) && Rank(t) < Rank(s)
  {
  }

  lemma WorkerRegionLowersRank(data: seq<Byte>, s: System)
    requires Inv(data, s) && s.MidRead() && !Ready(s) && WorkerRegionStep(s).Some?
    ensures var t := WorkerRegionStep(s).value; t.MidRead() && (Ready(t) || Rank(t) < Rank(s))
  {
  }

  lemma NotReadyMeansWork(data: seq<Byte>, s: System)
    requires Inv(data, s) && s.MidRead() && !Ready(s)
    ensures Rank(s) > 0
  {
  }

  /** Whatever happens brings a waiting read closer to its answer, or sets it back by the named amount. */
  lemma StepsLowerRank(data: seq<Byte>, s: System, a: Action)
    requires Inv(data, s) && s.MidRead() && !Ready(s)
    requires Step(data, s, a).Some?
    ensures NoCall(a) && Rank(s) > 0
    ensures var t := Step(data, s, a).value.system;
            t.MidRead() && (Ready(t) || Rank(t) < Rank(s) + Setback(a))
  {
    hide WorkerRegionStep, ReaderRegionStep, WorkerAligned, FailureMeansDeath;
    NotReadyMeansWork(data, s);
    match a
    case ReaderRegion =>
      RearBelowCapacity(s.ring.config);
      ReaderRegionLowersRank(data, s, s.ring.config.Rear());
    case WorkerRegion => WorkerRegionLowersRank(data, s);
    case _ =>
  }

  /** Once there is an answer nothing takes it away, and the reader's next region returns it. */
  lemma ReadyStays(data: seq<Byte>, s: System, a: Action)
    requires Inv(data, s) && s.MidRead() && Ready(s)
    requires Step(data, s, a).Some?
    ensures var t := Step(data, s, a).value.system;
            if a.ReaderRegion? then t.reader.Idle? else t.MidRead() && Ready(t)
  {
    if a.ReaderRegion? {
      RearBelowCapacity(s.ring.config);
    }
  }

  lemma {:induction false} IdleStays(data: seq<Byte>, s: System, actions: seq<Action>)
    requires Inv(data, s) && s.reader.Idle?
    requires NoCalls(actions) && Run(data, s, actions).Some?
    ensures Run(data, s, actions).value.system.reader.Idle?
    decreases |actions|
  {
    if actions != [] {
      StepKeepsInv(data, s, actions[0]);
      IdleStays(data, Step(data, s, actions[0]).value.system, actions[1..]);
    }
  }

  lemma {:induction false} ReadyUntilReturn(data: seq<Byte>, s: System, actions: seq<Action>)
    requires Inv(data, s) && s.MidRead() && Ready(s)
    requires NoCalls(actions) && Run(data, s, actions).Some?
    ensures var t := Run(data, s, actions).value.system; t.reader.Idle? || Ready(t)
    decreases |actions|
  {
    if actions != [] {
      StepKeepsInv(data, s, actions[0]);
      ReadyStays(data, s, actions[0]);
      var t := Step(data, s, actions[0]).value.system;
      if actions[0].ReaderRegion? {
        IdleStays(data, t, actions[1..]);
      } else {
        ReadyUntilReturn(data, t, actions[1..]);
      }
    }
  }

  lemma RankIsBounded(s: System)
    ensures Rank(s) <= 45
  {
  }

  lemma {:induction false} WaitsAreRanked(data: seq<Byte>, s: System, actions: seq<Action>)
    requires Inv(data, s) && s.MidRead()
    requires NoCalls(actions) && Run(data, s, actions).Some?
    ensures var t := Run(data, s, actions).value.system;
            t.reader.Idle? || Ready(t) || (!Ready(s) && |actions| <= Rank(s) + Setbacks(actions))
    decreases |actions|
  {
    if Ready(s) {
      ReadyUntilReturn(data, s, actions);
    } else if actions != [] {
      StepKeepsInv(data, s, actions[0]);
      StepsLowerRank(data, s, actions[0]);
      WaitsAreRanked(data, Step(data, s, actions[0]).value.system, actions[1..]);
    }
  }

  /**
   No waiting read starves: under every schedule, timers and spurious wake-ups included, a read that still has
   nothing to return has seen at most 45 steps, plus what retries and spurious wake-ups set it back.
   */
  lemma WaitsAreBounded(data: seq<Byte>, s: System, actions: seq<Action>)
    requires Inv(data, s) && s.MidRead()
    requires NoCalls(actions) && Run(data, s, actions).Some?
    ensures var t := Run(data, s, actions).value.system;
            t.reader.Idle? || Ready(t) || |actions| <= 45 + Setbacks(actions)
  {
    WaitsAreRanked(data, s, actions);
    RankIsBounded(s);
  }

  /**
   What a read that is ready returns. A timeout is reported exactly if the timer fired and there is neither an error
   nor the end of the file; else what is in the ring is served to the last byte there is room for, and only past
   it the worker's failure is reported, or else the end.
   */
  lemma ReadyReadReturns(data: seq<Byte>, s: System)
    requires Inv(data, s) && s.MidRead() && Ready(s)
    ensures var o := Step(data, s, ReaderRegion);
            && o.Some? && o.value.system.reader.Idle? && |o.value.events| == 1
            && var e := o.value.events[0];
               && CallOf(e) == ReadCall(s.reader.room)
               && (e.ReadErr? ==> Lurking(s, e.error))
               && (e.ReadErr? && e.error.TimedOut? <==>
                     s.reader.Awake? && s.reader.timedOut && s.ring.err.None? && !s.ring.eof)
               && (e.ReadErr? && e.error.Inner? <==> s.pos >= s.ring.End() && s.ring.err.Some?)
               && (e.ReadErr? && e.error.Inner? ==> s.ring.err == Some(e.error.failure))
               && (e.ReadOk? ==> |e.bytes| == Min(s.reader.room, s.ring.End() - s.pos))
               && (e.ReadOk? && s.pos < |data| ==> e.bytes != [])
  {
    RearBelowCapacity(s.ring.config);
    StepConforms(data, s, ReaderRegion);
  }

  /** A step that moves a waiting read along; an inner call succeeds and delivers all it can. */
  ghost function NextMove(data: seq<Byte>, s: System): Action {
    match s.worker
    case Seeking(_) => InnerSeek(None, 0)
    case Reading(want) =>
      var lo := Min(s.inner, |data|);
      InnerRead(Block(data[lo..Min(s.inner + want, |data|)]), 0)
    case Parked => ReaderRegion
    case _ => WorkerRegion
  }

  /** No deadlock: while a read waits, one of the threads can take a step that brings the answer closer. */
  lemma NoDeadlock(data: seq<Byte>, s: System)
    requires Inv(data, s) && s.MidRead() && !Ready(s)
    ensures !(s.worker.Parked? && s.reader.Waiting?)
    ensures var a := NextMove(data, s);
            && Working(a) && Step(data, s, a).Some? && Rank(s) > 0
            && var t := Step(data, s, a).value.system; t.MidRead() && (Ready(t) || Rank(t) < Rank(s))
  {
    hide Rank;
    var a := NextMove(data, s);
    assert Step(data, s, a).Some?;
    StepsLowerRank(data, s, a);
  }

  /** The one answer to the read under way: unless an error was lurking, bytes while there are any left. */
  ghost predicate Answered(data: seq<Byte>, s: System, events: seq<Event>)
    requires s.MidRead()
  {
    && CallsOf(events) == [ReadCall(s.reader.room)]
    && var e := events[0];
       && (e.ReadErr? ==> Lurking(s, e.error))
       && (e.ReadOk? && s.pos < |data| ==> e.bytes != [])
  }

  /**
   From every state of a read, some schedule of at most 46 steps of the two threads, without help from a timer
   or a spurious wake-up, makes it return.
   */
  lemma {:induction false} EveryReadCanReturn(data: seq<Byte>, s: System) returns (actions: seq<Action>)
    requires Inv(data, s) && s.MidRead()
    ensures |actions| <= (if Ready(s) then 0 else Rank(s)) + 1 <= 46
    ensures forall i :: 0 <= i < |actions| ==> Working(actions[i])
    ensures var o := Run(data, s, actions); o.Some? && o.value.system.reader.Idle? && Answered(data, s, o.value.events)
    decreases if Ready(s) then 0 else 1, Rank(s)
  {
    RankIsBounded(s);
    hide Rank, Step, Run, NextMove, Ready, Answered;
    hide RingCoherent, WorkerAligned, FailureMeansDeath, SleepJustified, CallsInOrder;
    if Ready(s) {
      ReadyReadReturns(data, s);
      actions := [ReaderRegion];
      RunStep(data, s, ReaderRegion, []);
    } else {
      NoDeadlock(data, s);
      var a := NextMove(data, s);
      StepKeepsInv(data, s, a);
      var rest := EveryReadCanReturn(data, Step(data, s, a).value.system);
      actions := [a] + rest;
      RunStep(data, s, a, rest);
    }
    ReturnedAnswer(data, s, actions);
  }

  lemma ReturnedAnswer(data: seq<Byte>, s: System, actions: seq<Action>)
    requires Inv(data, s) && s.MidRead()
    requires forall i :: 0 <= i < |actions| ==> Working(actions[i])
    requires Run(data, s, actions).Some? && Run(data, s, actions).value.system.reader.Idle?
    ensures Answered(data, s, Run(data, s, actions).value.events)
  {
    hide Run, WorkerAligned, FailureMeansDeath, SleepJustified, Lurking;
    EveryRunIsACursor(data, s, actions);
    WorkMakesNoCalls(actions);
    var events := Run(data, s, actions).value.events;
    assert Unanswered(s) + [] == [ReadCall(s.reader.room)] && CallsOf(events) + [] == CallsOf(events);
    assert CallsOf(events)[0] == CallOf(events[0]) && Allowed(data, s.pos, events[0]);
  }

  lemma {:induction false} WorkMakesNoCalls(actions: seq<Action>)
    requires forall i :: 0 <= i < |actions| ==> Working(actions[i])
    ensures CallsMade(actions) == []
  {
    if actions != [] { WorkMakesNoCalls(actions[1..]); }
  }

  // ---- the worker fetches what is needed, and no more ---------------------------------------------

  /** What the worker turns to: it fetches a whole block, or all that fits, unless it is stopped, asked or done. */
  lemma FetchesWhenNeeded(data: seq<Byte>, s: System)
    requires Inv(data, s) && (s.worker.AtPhase1? || s.worker.Unparked?)
    ensures var t, r := Step(data, s, WorkerRegion).value.system, s.ring;
            && (t.worker.Exited? <==> r.stop)
            && (t.worker.Seeking? <==> !r.stop && r.target.Some?)
            && (t.worker.Reading? <==> !r.stop && r.target.None? && !r.eof && |r.buf| < r.config.capacity)
            && (t.worker.Reading? ==> t.worker.want == Min(r.config.blockSize, r.config.capacity - |r.buf|))
            && (t.worker.Parked? <==> !r.stop && r.target.None? && (r.eof || |r.buf| == r.config.capacity))
  {
  }

  /** The ring has all it can take: the end of the data, or its capacity. */
  ghost predicate Sated(s: System) {
    s.ring.target.None? && (s.ring.eof || |s.ring.buf| == s.ring.config.capacity) && InsideInnerCall(s.worker) == 0
  }

  /** Only a seek, or a read from a ring that is full short of the end, makes a sated worker call its source. */
  predicate LeavesSated(eof: bool, a: Action) {
    !a.CallSeek? && (a.ReaderRegion? ==> eof)
  }

  lemma SatedStep(data: seq<Byte>, s: System, a: Action)
    requires Inv(data, s) && Sated(s) && LeavesSated(s.ring.eof, a)
    requires Step(data, s, a).Some?
    ensures InnerCalls([a]) == 0
    ensures var t := Step(data, s, a).value.system; Sated(t) && (s.ring.eof ==> t.ring.eof)
  {
    assert [a][1..] == [];
    RearBelowCapacity(s.ring.config);
  }

  /** Once the end is known, or the ring is full and not read from, no inner call begins until the next seek. */
  lemma {:induction false} NoIdleFetches(data: seq<Byte>, s: System, actions: seq<Action>)
    requires Inv(data, s) && Sated(s)
    requires forall i :: 0 <= i < |actions| ==> LeavesSated(s.ring.eof, actions[i])
    requires Run(data, s, actions).Some?
    ensures InnerCalls(actions) == 0 && Sated(Run(data, s, actions).value.system)
    decreases |actions|
  {
    hide Step, Sated, RingCoherent, WorkerAligned, FailureMeansDeath, SleepJustified, CallsInOrder;
    if actions != [] {
      StepKeepsInv(data, s, actions[0]);
      SatedStep(data, s, actions[0]);
      assert [actions[0]][1..] == [];
      NoIdleFetches(data, Step(data, s, actions[0]).value.system, actions[1..]);
    }
  }

  // ---- stopping -----------------------------------------------------------------------------------

  /** How many steps the worker has left once `stop` is set. */
  function StopRank(w: WorkerPc): nat {
    match w
    case Reading(_) => 3
    case Seeking(_) => 2
    case Holding(_) => 2
    case Exited => 0
    case _ => 1
  }

  function InsideInnerCall(w: WorkerPc): nat {
    if w.Reading? || w.Seeking? then 1 else 0
  }

  function InnerCalls(actions: seq<Action>): nat {
    if actions == [] then 0
    else (if actions[0].InnerRead? || actions[0].InnerSeek? then 1 else 0) + InnerCalls(actions[1..])
  }

  function WorkerMoves(actions: seq<Action>): nat {
    if actions == [] then 0
    else
      (if actions[0].WorkerRegion? || actions[0].InnerRead? || actions[0].InnerSeek? then 1 else 0)
      + WorkerMoves(actions[1..])
  }

  lemma StoppedStep(data: seq<Byte>, s: System, a: Action)
    requires Inv(data, s) && s.ring.stop && Step(data, s, a).Some?
    ensures var t := Step(data, s, a).value.system;
            && t.ring.stop && t.ring.buf == s.ring.buf
            && StopRank(t.worker) + WorkerMoves([a]) <= StopRank(s.worker)
            && InsideInnerCall(t.worker) + InnerCalls([a]) <= InsideInnerCall(s.worker)
  {
    assert [a][1..] == [];
  }

  /**
   Stopping is prompt: after `stop` the worker finishes the inner call it is in, begins no other, takes at
   most three steps in all and puts nothing into the ring.
   */
  lemma {:induction false} StopIsPrompt(data: seq<Byte>, s: System, actions: seq<Action>)
    requires Inv(data, s) && s.ring.stop
    requires Run(data, s, actions).Some?
    ensures var t := Run(data, s, actions).value.system;
            && t.ring.stop && t.ring.buf == s.ring.buf
            && WorkerMoves(actions) + StopRank(t.worker) <= StopRank(s.worker) <= 3
            && InnerCalls(actions) <= InsideInnerCall(s.worker)
    decreases |actions|
  {
    if actions != [] {
      StepKeepsInv(data, s, actions[0]);
      StoppedStep(data, s, actions[0]);
      assert [actions[0]][1..] == [];
      StopIsPrompt(data, Step(data, s, actions[0]).value.system, actions[1..]);
    }
  }

  ghost function NextDropMove(data: seq<Byte>, s: System): Action {
    if s.reader.Dropping? then DropNotify
    else if s.worker.Exited? then Join
    else
      match s.worker
      case Seeking(_) => InnerSeek(None, 0)
      case Reading(_) => NextMove(data, s)
      case _ => WorkerRegion
  }

  /** A drop never hangs: until the worker is joined somebody can move, because no wake-up is lost. */
  lemma DropNeverHangs(data: seq<Byte>, s: System)
    requires Inv(data, s) && s.ring.stop && !s.reader.Gone?
    ensures Step(data, s, NextDropMove(data, s)).Some?
  {
    hide RingCoherent, WorkerAligned;
    if s.worker.Reading? { NextReadIsPossible(data, s); }
  }

  /** The block `NextMove` offers a reading worker is one the inner source may deliver. */
  lemma NextReadIsPossible(data: seq<Byte>, s: System)
    requires Inv(data, s) && s.worker.Reading?
    ensures Step(data, s, NextMove(data, s)).Some?
  {
    hide RingCoherent, WorkerAligned, SleepJustified, FailureMeansDeath;
    var want := s.worker.want;
    var hi := Min(s.inner + want, |data|);
    assert s.inner < |data| ==> |data[s.inner..hi]| == hi - s.inner > 0;
    assert FetchPossible(data, s.inner, want, NextMove(data, s).fetched);
  }

  /** How many steps of any kind can still follow `stop`; a parked worker may wake up by itself once. */
  function DropRank(s: System): nat {
    (if s.reader.Dropping? then 2 else if s.reader.Joining? then 1 else 0)
    + 2 * StopRank(s.worker) + (if s.worker.Parked? then 1 else 0)
  }

  lemma DropStep(data: seq<Byte>, s: System, a: Action)
    requires Inv(data, s) && s.ring.stop && Step(data, s, a).Some?
    ensures var t := Step(data, s, a).value.system; t.ring.stop && DropRank(t) < DropRank(s)
  {
    hide WorkerAligned, SeekRegion, ReadRegion;
  }

  /**
   A drop ends: whatever the schedule, at most eight steps follow `stop`, spurious wake-ups included. Since one
   can be taken until the worker is joined, every schedule that goes on ends with the worker joined.
   */
  lemma {:induction false} DropEndsSoon(data: seq<Byte>, s: System, actions: seq<Action>)
    requires Inv(data, s) && s.ring.stop
    requires Run(data, s, actions).Some?
    ensures var t := Run(data, s, actions).value.system;
            && Inv(data, t) && t.ring.stop
            && |actions| + DropRank(t) <= DropRank(s) <= 8
            && (t.reader.Gone? || Step(data, t, NextDropMove(data, t)).Some?)
    decreases |actions|
  {
    hide Step, NextDropMove;
    if actions == [] {
      if !s.reader.Gone? { DropNeverHangs(data, s); }
    } else {
      StepKeepsInv(data, s, actions[0]);
      DropStep(data, s, actions[0]);
      DropEndsSoon(data, Step(data, s, actions[0]).value.system, actions[1..]);
    }
  }

  /** In this state a waiting read or a drop can be moved along, and the move brings its end closer. */
  ghost predicate Lively(data: seq<Byte>, s: System)
    requires Inv(data, s)
  {
    && !(s.worker.Parked? && s.reader.Waiting?)
    && (s.MidRead() && !Ready(s) ==>
          var r := Step(data, s, NextMove(data, s));
          r.Some? && r.value.system.MidRead() && (Ready(r.value.system) || Rank(r.value.system) < Rank(s)))
    && (s.MidRead() && Ready(s) ==>
          var r := Step(data, s, ReaderRegion); r.Some? && r.value.system.reader.Idle?)
    && (s.ring.stop && !s.reader.Gone? ==>
          var r := Step(data, s, NextDropMove(data, s)); r.Some? && DropRank(r.value.system) < DropRank(s))
  }

  /**
   From the moment `build` returns, no schedule reaches a deadlock: the two threads never sleep together, and a
   read without an answer or a drop without a joined worker has a move that brings its end closer.
   */
  lemma NoReachableDeadlock(config: Config, data: seq<Byte>, pos: u64, actions: seq<Action>)
    requires config.Clamped() && |data| < U64_LIMIT
    ensures Inv(data, Initial(config, data, pos))
    ensures var r := Run(data, Initial(config, data, pos), actions);
            r.Some? ==> Inv(data, r.value.system) && Lively(data, r.value.system)
  {
    hide Step, NextMove, NextDropMove, Rank, DropRank, Ready;
    InitialIsCoherent(config, data, pos);
    if Run(data, Initial(config, data, pos), actions).Some? {
      EveryRunIsACursor(data, Initial(config, data, pos), actions);
      IsLively(data, Run(data, Initial(config, data, pos), actions).value.system);
    }
  }

  lemma IsLively(data: seq<Byte>, s: System)
    requires Inv(data, s)
    ensures Lively(data, s)
  {
    hide Step, NextMove, NextDropMove, Rank, DropRank, Ready;
    NeverBothAsleep(data, s);
    if s.MidRead() {
      if Ready(s) { ReadyReadReturns(data, s); } else { NoDeadlock(data, s); }
    }
    if s.ring.stop && !s.reader.Gone? {
      DropNeverHangs(data, s);
      DropStep(data, s, NextDropMove(data, s));
    }
  }

  lemma NeverBothAsleep(data: seq<Byte>, s: System)
    requires Inv(data, s)
    ensures !(s.worker.Parked? && s.reader.Waiting?)
  {
  }
}
