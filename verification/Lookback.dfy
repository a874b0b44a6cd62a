/** The lookback guarantee: short back-seeks stay in the window. */
module Lookback {
  import opened Basics
  import opened CursorSpec
  import opened RingModel
  import opened Protocol

  /** Where the ring was last restarted and the furthest the reader has been since. */
  datatype Mark = Mark(base: nat, high: nat)

  ghost function NextMark(m: Mark, s: System, a: Action, t: System): Mark
    requires s.pos < U64_LIMIT && s.ring.total < U64_LIMIT
  {
    if a.CallSeek? && SeekRegion(s.ring, s.pos, a.from).Restart? then Mark(t.pos, t.pos)
    else Mark(m.base, Max(m.high, t.pos))
  }

  /** Nothing within `rear` of the furthest position is dropped unless it precedes the restart. */
  ghost predicate Retained(s: System, m: Mark, rear: nat) {
    && (s.ring.start <= m.base || s.ring.start + rear <= m.high)
    && m.base <= m.high
    && s.pos <= m.high <= s.ring.End()
  }

  lemma DrainedWindow(r: Ring, n: nat)
    requires n <= |r.buf|
    ensures var d := r.Drained(n); d.start == r.start + n && d.End() == r.End() && d.config == r.config
  {
  }

  lemma ReadRegionRetains(s: System, m: Mark, rear: nat)
    requires s.reader.InRead? || s.reader.Awake?
    requires s.ring.start <= s.pos && Retained(s, m, rear)
    requires rear < s.ring.config.capacity
    ensures var t := ApplyRead(s, s.reader.room, ReadRegion(s.ring, rear, s.pos, s.reader.room)).system;
            Retained(t, Mark(m.base, Max(m.high, t.pos)), rear) && t.ring.config == s.ring.config
  {
    hide ReadRegion, Ring.Drained;
    match ReadRegion(s.ring, rear, s.pos, s.reader.room)
    case Serve(_, _, _) =>
      var n := ServedRing(s.ring, rear, s.pos, s.reader.room);
      DrainedWindow(s.ring, n);
    case Wait(_, _) =>
      var n := WaitingRing(s.ring, rear, s.pos, s.reader.room);
      DrainedWindow(s.ring, n);
    case _ =>
  }

  lemma ReaderRegionRetains(s: System, m: Mark, rear: nat)
    requires s.ring.start <= s.pos && Retained(s, m, rear)
    requires rear < s.ring.config.capacity
    requires ReaderRegionStep(s, rear).Some?
    ensures var t := ReaderRegionStep(s, rear).value.system;
            Retained(t, Mark(m.base, Max(m.high, t.pos)), rear) && t.ring.config == s.ring.config
  {
    ReadRegionRetains(s, m, rear);
  }

  lemma WorkerRegionRetains(data: seq<Byte>, s: System, m: Mark, rear: nat)
    requires RingCoherent(data, s) && Retained(s, m, rear) && WorkerRegionStep(s).Some?
    ensures var t := WorkerRegionStep(s).value;
            Retained(t, m, rear) && t.pos == s.pos && t.ring.config == s.ring.config
  {
  }

  lemma SeekRetains(data: seq<Byte>, s: System, m: Mark, rear: nat, from: SeekFrom)
    requires RingCoherent(data, s) && Retained(s, m, rear)
    ensures var t := ApplySeek(s, from, SeekRegion(s.ring, s.pos, from)).system;
            Retained(t, NextMark(m, s, CallSeek(from), t), rear) && t.ring.config == s.ring.config
  {
  }

  lemma StepRetains(data: seq<Byte>, s: System, m: Mark, rear: nat, a: Action)
    requires Inv(data, s) && Retained(s, m, rear) && rear == s.ring.config.Rear()
    requires Step(data, s, a).Some?
    ensures var t := Step(data, s, a).value.system;
            Retained(t, NextMark(m, s, a, t), rear) && t.ring.config == s.ring.config
  {
    hide WorkerAligned, FailureMeansDeath, SleepJustified, CallsInOrder;
    hide WorkerRegionStep, ReaderRegionStep, ApplySeek, SeekRegion;
    match a
    case ReaderRegion =>
      RearBelowCapacity(s.ring.config);
      ReaderRegionRetains(s, m, rear);
    case WorkerRegion => WorkerRegionRetains(data, s, m, rear);
    case CallSeek(from) => SeekRetains(data, s, m, rear, from);
    case _ =>
  }

  /**
   The allowance is not exceeded either. After a read that delivers bytes, what lies behind the reader is what lay
   there before or the allowance, whichever is less, and nothing ahead of it is lost; a reader that goes to sleep
   leaves a full ring with just the allowance.
   */
  lemma ReadsLeaveTheAllowance(data: seq<Byte>, s: System, rear: nat)
    requires Inv(data, s) && rear == s.ring.config.Rear() && Step(data, s, ReaderRegion).Some?
    ensures var o := Step(data, s, ReaderRegion).value;
            var t := o.system;
            && t.ring.End() == s.ring.End()
            && (t.pos > s.pos ==> t.ring.start <= t.pos && t.pos - t.ring.start == Min(rear, t.pos - s.ring.start))
            && (t.reader.Waiting? && |s.ring.buf| == s.ring.config.capacity ==> |t.ring.buf| == rear)
            && (t.pos == s.pos && !t.reader.Waiting? ==> t.ring == s.ring)
  {
    hide WorkerAligned, FailureMeansDeath, SleepJustified, ReadRegion, Ring.Drained;
    RearBelowCapacity(s.ring.config);
    assert CallsInOrder(s);
    RegionLeaves(data, s, rear);
  }

  lemma RegionLeaves(data: seq<Byte>, s: System, rear: nat)
    requires RingCoherent(data, s) && CallsInOrder(s) && (s.reader.InRead? || s.reader.Awake?)
    requires rear < s.ring.config.capacity
    ensures var t := ApplyRead(s, s.reader.room, ReadRegion(s.ring, rear, s.pos, s.reader.room)).system;
            && t.ring.End() == s.ring.End()
            && (t.pos > s.pos ==> t.ring.start <= t.pos && t.pos - t.ring.start == Min(rear, t.pos - s.ring.start))
            && (t.reader.Waiting? && |s.ring.buf| == s.ring.config.capacity ==> |t.ring.buf| == rear)
            && (t.pos == s.pos && !t.reader.Waiting? ==> t.ring == s.ring)
  {
  }

  ghost function MarkAfter(data: seq<Byte>, s: System, m: Mark, actions: seq<Action>): Mark
    requires Inv(data, s) && Run(data, s, actions).Some?
    decreases |actions|
  {
    if actions == [] then m
    else
      StepKeepsInv(data, s, actions[0]);
      var t := Step(data, s, actions[0]).value.system;
      MarkAfter(data, t, NextMark(m, s, actions[0], t), actions[1..])
  }

  /**
   Over whole runs: a seek to any position that is not before the last restart and lies at most `rear` bytes
   behind the furthest position since then only moves the cursor.
   */
  lemma {:induction false} ShortBackSeeksAreFree(data: seq<Byte>, s: System, m: Mark, actions: seq<Action>, q: u64)
    requires Inv(data, s) && Retained(s, m, s.ring.config.Rear())
    requires Run(data, s, actions).Some?
    ensures var t, n := Run(data, s, actions).value.system, MarkAfter(data, s, m, actions);
            && Retained(t, n, s.ring.config.Rear())
            && Inv(data, t)
            && (n.base <= q <= n.high <= q + s.ring.config.Rear() ==>
                  SeekRegion(t.ring, t.pos, Start(q)) == InWindow(q))
    decreases |actions|
  {
    if actions != [] {
      StepKeepsInv(data, s, actions[0]);
      StepRetains(data, s, m, s.ring.config.Rear(), actions[0]);
      var t := Step(data, s, actions[0]).value.system;
      ShortBackSeeksAreFree(data, t, NextMark(m, s, actions[0], t), actions[1..], q);
    }
  }

  lemma FreshRingIsRetained(config: Config, data: seq<Byte>, pos: u64)
    requires config.Clamped() && |data| < U64_LIMIT
    ensures Retained(Initial(config, data, pos), Mark(pos, pos), config.Rear())
  {
  }
}
