/** A fatal error of the inner source is final, and it is the only error later reads report. */
module Sticky {
  import opened Basics
  import opened CursorSpec
  import opened RingModel
  import opened Protocol

  /** Answers possible after the worker died of `failure`: correct bytes from the ring or that failure. */
  ghost predicate Posthumous(failure: Failure, e: Event) {
    match e
    case ReadOk(room, bytes) => room > 0 ==> bytes != []
    case ReadErr(_, error) => error == Inner(failure)
    case _ => true
  }

  lemma ReaderRegionAfterDeath(data: seq<Byte>, s: System, rear: nat)
    requires Inv(data, s) && s.ring.workerDead
    requires rear < s.ring.config.capacity
    requires ReaderRegionStep(s, rear).Some?
    ensures var o := ReaderRegionStep(s, rear).value;
            && o.system.ring.workerDead && o.system.ring.err == s.ring.err
            && (forall i :: 0 <= i < |o.events| ==> Posthumous(s.ring.err.value, o.events[i]))
            && o.system.reader.Idle?
  {
  }

  lemma StepAfterDeath(data: seq<Byte>, s: System, a: Action)
    requires Inv(data, s) && s.ring.workerDead && Step(data, s, a).Some?
    ensures var o := Step(data, s, a).value;
            && o.system.ring.workerDead && o.system.ring.err == s.ring.err
            && (forall i :: 0 <= i < |o.events| ==> Posthumous(s.ring.err.value, o.events[i]))
            && !o.system.reader.Waiting?
  {
    if a.ReaderRegion? {
      RearBelowCapacity(s.ring.config);
      ReaderRegionAfterDeath(data, s, s.ring.config.Rear());
    }
  }

  /**
   Sticky failure over whole runs: through any seeks, the dead worker's failure stays as it is, every read
   with room either serves bytes or reports exactly that failure, and no read times out or waits again.
   */
  lemma {:induction false} FailureIsSticky(data: seq<Byte>, s: System, actions: seq<Action>)
    requires Inv(data, s) && s.ring.workerDead
    requires Run(data, s, actions).Some?
    ensures var o := Run(data, s, actions).value;
            && o.system.ring.workerDead && o.system.ring.err == s.ring.err
            && (forall i :: 0 <= i < |o.events| ==> Posthumous(s.ring.err.value, o.events[i]))
            && !o.system.reader.Waiting?
    decreases |actions|
  {
    if actions != [] {
      StepKeepsInv(data, s, actions[0]);
      StepAfterDeath(data, s, actions[0]);
      FailureIsSticky(data, Step(data, s, actions[0]).value.system, actions[1..]);
    }
  }
}
