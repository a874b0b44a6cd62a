/** Seeks that race the worker: stale blocks are thrown away and the pick-up of a seek is invisible. */
module Cancellation {
  import opened Basics
  import opened CursorSpec
  import opened RingModel
  import opened Protocol

  ghost predicate InFlight(w: WorkerPc) {
    w.Reading? || w.Holding?
  }

  /** A fetch overtaken by a seek or stop stays overtaken, whatever the reader does meanwhile, and no byte comes in. */
  lemma OvertakenStep(data: seq<Byte>, s: System, a: Action)
    requires Inv(data, s) && InFlight(s.worker) && (s.ring.target.Some? || s.ring.stop)
    requires !a.WorkerRegion? && Step(data, s, a).Some?
    ensures var t := Step(data, s, a).value.system;
            && InFlight(t.worker) && (t.ring.target.Some? || t.ring.stop)
            && (s.ring.buf == [] ==> t.ring.buf == [])
  {
    RearBelowCapacity(s.ring.config);
  }

  /** However long the overtaken fetch takes and whatever happens until it returns, its deposit changes nothing. */
  lemma {:induction false} OvertakenFetchIsDiscarded(data: seq<Byte>, s: System, actions: seq<Action>)
    requires Inv(data, s) && InFlight(s.worker) && (s.ring.target.Some? || s.ring.stop)
    requires forall i :: 0 <= i < |actions| ==> !actions[i].WorkerRegion?
    requires Run(data, s, actions).Some?
    ensures Inv(data, Run(data, s, actions).value.system)
    ensures var t := Run(data, s, actions).value.system;
            && InFlight(t.worker)
            && (s.ring.buf == [] ==> t.ring.buf == [])
            && (t.worker.Holding? ==>
                  Step(data, t, WorkerRegion) == Some(Outcome(t.(worker := AtPhase1), [])))
    decreases |actions|
  {
    if actions != [] {
      StepKeepsInv(data, s, actions[0]);
      OvertakenStep(data, s, actions[0]);
      OvertakenFetchIsDiscarded(data, Step(data, s, actions[0]).value.system, actions[1..]);
    }
  }

  lemma RestartOvertakes(data: seq<Byte>, s: System, from: SeekFrom)
    requires Inv(data, s) && s.reader.Idle?
    requires SeekRegion(s.ring, s.pos, from).Restart?
    ensures Step(data, s, CallSeek(from)).Some?
    ensures var t := Step(data, s, CallSeek(from)).value.system;
            t.ring.target.Some? && t.ring.buf == [] && t.worker == WakeWorker(s.worker)
  {
  }

  /**
   No byte fetched before an out-of-window seek enters the ring after it. From the seek on, through any further
   calls, timers and wake-ups, the fetch that was in flight brings nothing: the ring stays empty until the inner
   read returns, and then the block is thrown away.
   */
  lemma StaleBlockNeverLands(data: seq<Byte>, s: System, from: SeekFrom, actions: seq<Action>)
    requires Inv(data, s) && InFlight(s.worker)
    requires s.reader.Idle? && SeekRegion(s.ring, s.pos, from).Restart?
    requires forall i :: 0 <= i < |actions| ==> !actions[i].WorkerRegion?
    requires Run(data, s, [CallSeek(from)] + actions).Some?
    ensures Inv(data, Run(data, s, [CallSeek(from)] + actions).value.system)
    ensures var t := Run(data, s, [CallSeek(from)] + actions).value.system;
            && InFlight(t.worker) && t.ring.buf == []
            && (t.worker.Holding? ==>
                  Step(data, t, WorkerRegion) == Some(Outcome(t.(worker := AtPhase1), [])))
  {
    hide SeekRegion, Step;
    StepKeepsInv(data, s, CallSeek(from));
    RestartOvertakes(data, s, from);
    assert ([CallSeek(from)] + actions)[1..] == actions;
    OvertakenFetchIsDiscarded(data, Step(data, s, CallSeek(from)).value.system, actions);
  }

  /** When the worker picks a seek up, all the reader can observe of the ring is already as it will be. */
  lemma PickUpIsInvisible(data: seq<Byte>, s: System)
    requires Inv(data, s) && s.ring.target.Some? && !s.ring.stop
    requires s.worker.AtPhase1? || s.worker.Unparked?
    ensures var t := Step(data, s, WorkerRegion).value.system;
            t.ring == s.ring.(target := None) && t.pos == s.pos && t.worker == Seeking(s.pos)
  {
  }

  /** A read whose first byte is in the ring returns what the ring holds of it. */
  lemma HitRead(data: seq<Byte>, s: System)
    requires Inv(data, s) && (s.reader.InRead? || (s.reader.Awake? && !s.reader.timedOut))
    ensures Step(data, s, ReaderRegion).Some?
    ensures s.pos < s.ring.End() ==>
              var n, o := Min(s.reader.room, s.ring.End() - s.pos), Step(data, s, ReaderRegion).value;
              && s.pos + n <= |data|
              && o.system.reader.Idle? && o.system.pos == s.pos + n
              && o.events == [ReadOk(s.reader.room, data[s.pos..s.pos + n])]
  {
    RearBelowCapacity(s.ring.config);
    if s.pos < s.ring.End() {
      var n, from := Min(s.reader.room, s.ring.End() - s.pos), s.pos - s.ring.start;
      SubSlice(data, s.ring.start, s.ring.End(), from, from + n);
    }
  }

  lemma InWindowSteps(data: seq<Byte>, s: System, from: SeekFrom, q: u64, room: nat)
    requires Inv(data, s) && s.reader.Idle? && room > 0
    requires SeekTarget(|data|, s.pos, from) == Ok(q) && s.ring.start <= q <= s.ring.End()
    ensures Step(data, s, CallSeek(from)) == Some(Outcome(s.(pos := q), [SeekOk(from, q)]))
    ensures Inv(data, s.(pos := q)) && Inv(data, s.(pos := q, reader := InRead(room)))
    ensures Step(data, s.(pos := q), CallRead(room)) == Some(Outcome(s.(pos := q, reader := InRead(room)), []))
  {
    hide WorkerAligned, FailureMeansDeath, SleepJustified, CallsInOrder;
    StepKeepsInv(data, s, CallSeek(from));
    StepKeepsInv(data, s.(pos := q), CallRead(room));
  }

  /**
   A seek inside the window is answered from the ring: the worker is left alone, and a read that follows it
   delivers the bytes at the new position at once, though the worker takes no step.
   */
  lemma InWindowSeekIsFree(data: seq<Byte>, s: System, from: SeekFrom, q: u64, room: nat)
    requires Inv(data, s) && s.reader.Idle? && room > 0
    requires SeekTarget(|data|, s.pos, from) == Ok(q) && s.ring.start <= q <= s.ring.End()
    ensures Step(data, s, CallSeek(from)) == Some(Outcome(s.(pos := q), [SeekOk(from, q)]))
    ensures var o := Run(data, s, [CallSeek(from), CallRead(room), ReaderRegion]);
            && o.Some?
            && (q < s.ring.End() ==>
                  && var n := Min(room, s.ring.End() - q);
                  && q + n <= |data|
                  && o.value.system.reader.Idle? && o.value.system.pos == q + n
                  && o.value.events == [SeekOk(from, q), ReadOk(room, data[q..q + n])])
  {
    hide Run, Step, SeekTarget, SeekRegion;
    hide RingCoherent, WorkerAligned, FailureMeansDeath, SleepJustified, CallsInOrder;
    InWindowSteps(data, s, from, q, room);
    HitRead(data, s.(pos := q, reader := InRead(room)));
    ThreeSteps(data, s, CallSeek(from), CallRead(room), ReaderRegion);
  }

  lemma ThreeSteps(data: seq<Byte>, s: System, a: Action, b: Action, c: Action)
    requires Inv(data, s) && Step(data, s, a).Some?
    requires var t := Step(data, s, a).value.system; Inv(data, t) && Step(data, t, b).Some?
    requires var t := Step(data, s, a).value.system;
             var u := Step(data, t, b).value.system;
             Inv(data, u) && Step(data, u, c).Some?
    ensures var t := Step(data, s, a).value;
            var u := Step(data, t.system, b).value;
            var v := Step(data, u.system, c).value;
            Run(data, s, [a, b, c]) == Some(Outcome(v.system, t.events + u.events + v.events))
  {
    hide Run, Step;
    hide RingCoherent, WorkerAligned, FailureMeansDeath, SleepJustified, CallsInOrder;
    var t := Step(data, s, a).value;
    var u := Step(data, t.system, b).value;
    RunStep(data, u.system, c, []);
    RunStep(data, t.system, b, [c]);
    RunStep(data, s, a, [b, c]);
    assert [b] + [c] == [b, c] && [a] + [b, c] == [a, b, c];
    var v := Step(data, u.system, c).value;
    assert t.events + (u.events + v.events) == t.events + u.events + v.events;
  }
}
