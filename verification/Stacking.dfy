/**
 The prefetching reader on top of a composed source: its inner calls are ones the protocol allows, and over whole
 runs it is a plain cursor over what the source's URI stands for.
 */
module Stacking {
  import opened Basics
  import opened CursorSpec
  import opened RingModel
  import opened Protocol
  import opened Shapes
  import opened Sources
  import opened Buffered
  import opened Text
  import opened Opener

  /** The worker's inner source is `src`, and its cursor is where the protocol thinks it is. */
  ghost predicate Stacked(b: BufferedSource, src: Source)
    reads b, b.state, b.state.buf, b.state.buf.store, src
  {
    b.Valid() && src.Valid() && b.data == src.Content() && b.inner == src.pos
  }

  /** The largest capacity a `VecDeque` can have, `isize::MAX`. */
  const ALLOCATION_LIMIT := 0x8000_0000_0000_0000

  /**
   `build`: clamp the knobs, probe the length of the inner source, put it back, allocate the ring, start the
   protocol. There is no source where `build` panics: the fourfold block size overflows, or no ring can have the
   capacity.
   */
  method Build(src: Source, capacity: u64, blockSize: u64, num: nat, den: nat)
    returns (b: Option<BufferedSource>)
    requires src.Valid()
    modifies src`pos
    ensures src.Valid() && src.pos == old(src.pos)
    ensures b.Some? <==> capacity < 0x8000_0000_0000_0000 && 4 * blockSize < 0x8000_0000_0000_0000
    ensures b.Some? ==>
              && Stacked(b.value, src) && fresh(b.value)
              && b.value.View() == Initial(Clamp(capacity, blockSize, num, den), src.Content(), src.pos)
  {
    if 4 * Max(blockSize, 4096) >= U64_LIMIT { return None; }
    var config := Clamp(capacity, blockSize, num, den);
    var pos := src.pos;
    var end := src.Seek(End(0));
    assert end == Ok(|src.Content()|);
    var back := src.Seek(Start(pos));
    if config.capacity >= ALLOCATION_LIMIT { return None; }
    var source := new BufferedSource(config, src.Content(), end.value, pos);
    return Some(source);
  }

  lemma WantFitsScratch(data: seq<Byte>, s: System)
    requires Inv(data, s) && s.worker.Reading?
    ensures 0 < s.worker.want <= s.ring.config.blockSize
  {
  }

  /** The worker's unlocked read into its scratch buffer. */
  method ReadAhead(b: BufferedSource, src: Source, scratch: array<Byte>) returns (ghost fetch: Fetch)
    requires Stacked(b, src) && b.worker.Reading?
    requires scratch.Length == b.state.config.blockSize && scratch != b.state.buf.store
    modifies b, src.repr, scratch
    ensures Stacked(b, src) && ServedBy(src.shape, old(b.View()), InnerRead(fetch, 0))
    ensures Step(b.data, old(b.View()), InnerRead(fetch, 0)) == Some(Outcome(b.View(), []))
  {
    hide Step, Source.Valid, Denote, WellFormed;
    hide RingCoherent, WorkerAligned, FailureMeansDeath, SleepJustified, CallsInOrder;
    WantFitsScratch(b.data, b.View());
    var n := src.Read(scratch, b.worker.want);
    fetch := Block(scratch[..n]);
    b.InnerRead(Block(scratch[..n]), 0);
  }

  /** The worker's unlocked reposition. */
  method Reposition(b: BufferedSource, src: Source)
    requires Stacked(b, src) && b.worker.Seeking?
    modifies b, src.repr
    ensures Stacked(b, src) && ServedBy(src.shape, old(b.View()), InnerSeek(None, 0))
    ensures Step(b.data, old(b.View()), InnerSeek(None, 0)) == Some(Outcome(b.View(), []))
  {
    var moved := src.Seek(Start(b.worker.target));
    b.InnerSeek(None, 0);
  }

  // ---- whole runs over an opened URI --------------------------------------------------------------

  /** What a source of this shape delivers when it is read at `pos`. */
  ghost function Delivery(shape: Shape, pos: nat, limit: nat): seq<Byte>
    requires WellFormed(shape)
  {
    var n := ReadLen(shape, pos, limit);
    if n == 0 then [] else Denote(shape)[pos..pos + n]
  }

  /** If this is an inner call, its outcome is the one `ReadAhead` or `Reposition` brings about. */
  ghost predicate ServedBy(shape: Shape, s: System, a: Action)
    requires WellFormed(shape)
  {
    match a
    case InnerRead(fetch, landing) =>
      landing == 0 && s.worker.Reading? && fetch == Block(Delivery(shape, s.inner, s.worker.want))
    case InnerSeek(failure, landing) => landing == 0 && failure.None?
    case _ => true
  }

  /** Every inner call of the schedule is served by the composed source. */
  ghost predicate AllServed(shape: Shape, data: seq<Byte>, s: System, actions: seq<Action>)
    requires WellFormed(shape) && Inv(data, s)
    decreases |actions|
  {
    actions == [] ||
    (&& ServedBy(shape, s, actions[0])
     && (Step(data, s, actions[0]).Some? ==>
           (StepKeepsInv(data, s, actions[0]);
            AllServed(shape, data, Step(data, s, actions[0]).value.system, actions[1..]))))
  }

  /** The composed source never leaves the worker waiting: whatever it is asked it can serve. */
  lemma ServingIsPossible(shape: Shape, s: System)
    requires WellFormed(shape) && Inv(Denote(shape), s)
    ensures s.worker.Reading? ==>
              Step(Denote(shape), s, InnerRead(Block(Delivery(shape, s.inner, s.worker.want)), 0)).Some?
    ensures s.worker.Seeking? ==> Step(Denote(shape), s, InnerSeek(None, 0)).Some?
  {
  }

  /** A composed source raises no errors. */
  lemma {:induction false} ServingRaisesNothing(shape: Shape, data: seq<Byte>, s: System, actions: seq<Action>)
    requires WellFormed(shape) && Inv(data, s)
    requires Run(data, s, actions).Some? && AllServed(shape, data, s, actions)
    ensures forall i, f :: 0 <= i < |actions| ==> !Raises(actions[i], Inner(f))
    decreases |actions|
  {
    hide Step, Inv;
    if actions != [] {
      StepKeepsInv(data, s, actions[0]);
      ServingRaisesNothing(shape, data, Step(data, s, actions[0]).value.system, actions[1..]);
      assert forall i :: 1 <= i < |actions| ==> actions[i] == actions[1..][i - 1];
    }
  }

  /**
   The whole stack: a prefetching reader built on an opened URI, wherever that stood, answers every sequence of
   calls under every schedule as a plain cursor over the bytes the URI means, one by one and in order. A read
   fails only by timing out, and not at all on a schedule on which no timer fires.
   */
  lemma OpenedUriIsACursor(env: Env, uri: Str, config: Config, pos: u64, actions: seq<Action>)
    requires env.Fits() && |uri| < U64_LIMIT && Meaning(env, uri).Ok? && config.Clamped()
    ensures var shape, data := Meaning(env, uri).value, Bytes(env, uri).value;
            var s := Initial(config, data, pos);
            && WellFormed(shape) && |data| < U64_LIMIT && Inv(data, s)
            && (Run(data, s, actions).Some? && AllServed(shape, data, s, actions) ==>
                  var o := Run(data, s, actions).value;
                  && Conforms(data, pos, o.events, o.system.pos)
                  && CallsMade(actions) == CallsOf(o.events) + Unanswered(o.system)
                  && (forall k :: 0 <= k < |o.events| && o.events[k].ReadErr? ==> o.events[k].error == TimedOut)
                  && Timeouts(o.events) <= Firings(actions)
                  && ((forall i :: 0 <= i < |actions| ==> !actions[i].TimerFires?) ==>
                        forall k :: 0 <= k < |o.events| ==> !o.events[k].ReadErr?))
  {
    hide Meaning, Run, Inv, Denote, WellFormed;
    MeaningIsWellFormed(env, uri);
    var shape, data := Meaning(env, uri).value, Bytes(env, uri).value;
    DenoteFits(shape);
    var s := Initial(config, data, pos);
    InitialIsCoherent(config, data, pos);
    if Run(data, s, actions).Some? && AllServed(shape, data, s, actions) {
      EveryRunIsACursor(data, s, actions);
      TimeoutsNeedFirings(data, s, actions);
      ServingRaisesNothing(shape, data, s, actions);
      var o := Run(data, s, actions).value;
      assert Unanswered(s) + CallsMade(actions) == CallsMade(actions);
    }
  }
}
