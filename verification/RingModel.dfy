/**
 The prefetch ring on values: the state behind the mutex, and what each region of code that runs while the
 mutex is held does to it.
 */
module RingModel {
  import opened Basics
  import opened CursorSpec

  /** The tunables fixed by the builder. */
  datatype Config = Config(capacity: nat, blockSize: nat, lookbackNum: nat, lookbackDen: nat) {
    ghost predicate Clamped() {
      && 4096 <= blockSize
      && 4 * blockSize <= capacity < U64_LIMIT
      && lookbackNum < lookbackDen
    }

    /** The lookback allowance, with the saturating product and the checked division. */
    function Rear(): nat {
      if lookbackDen == 0 then 0 else Min(capacity * lookbackNum, U64_LIMIT - 1) / lookbackDen
    }
  }

  datatype Ring = Ring(buf: seq<Byte>, start: nat, config: Config, total: nat, eof: bool,
                       err: Option<Failure>, workerDead: bool, target: Option<nat>, stop: bool) {
    /** Offset of the first byte not in the ring. */
    function End(): nat {
      start + |buf|
    }

    /** The ring after forgetting its oldest `n` bytes. */
    function Drained(n: nat): Ring
      requires n <= |buf|
    {
      this.(buf := buf[n..], start := start + n)
    }
  }

  /** What one call of the inner source's `read` came back with; `Block([])` is its end of file. */
  datatype Fetch = Block(bytes: seq<Byte>) | Interrupted | Fatal(failure: Failure)

  // ---- the worker's regions -----------------------------------------------------------------------

  /** What the worker does after releasing the lock. */
  datatype Directive = Quit | Reposition(target: nat) | Park | Fetching(want: nat) | Again

  datatype WorkerStep = WorkerStep(ring: Ring, directive: Directive, notifyReader: bool)

  /** Phase 1: obey stop and seek requests, park when there is nothing to fetch or nowhere to put it. */
  function Phase1(r: Ring): WorkerStep
    requires |r.buf| <= r.config.capacity
  {
    if r.stop then WorkerStep(r, Quit, false)
    else if r.target.Some? then
      var t := r.target.value;
      WorkerStep(r.(target := None, buf := [], start := t, eof := t >= r.total, err := None),
                 Reposition(t), true)
    else if r.eof then WorkerStep(r, Park, false)
    else
      var free := r.config.capacity - |r.buf|;
      if free == 0 then WorkerStep(r, Park, false)
      else WorkerStep(r, Fetching(Min(free, r.config.blockSize)), false)
  }

  /** Phase 3: deposit the block, or discard it when a seek or stop arrived meanwhile. */
  function Phase3(r: Ring, fetch: Fetch): WorkerStep {
    if r.target.Some? || r.stop then WorkerStep(r, Again, false)
    else
      match fetch
      case Block(bytes) =>
        if bytes == [] then WorkerStep(r.(eof := true), Again, true)
        else WorkerStep(r.(buf := r.buf + bytes), Again, true)
      case Interrupted => WorkerStep(r, Again, false)
      case Fatal(failure) => Die(r, failure)
  }

  /** A failed inner seek or read ends the worker for good. */
  function Die(r: Ring, failure: Failure): WorkerStep {
    WorkerStep(r.(err := Some(failure), workerDead := true), Quit, true)
  }

  // ---- the reader's regions -----------------------------------------------------------------------

  datatype ReadStep =
    | Serve(ring: Ring, bytes: seq<Byte>, notifyWorker: bool)
    | Refuse(error: IoError)
    | AtEof
    | Wait(ring: Ring, notifyWorker: bool)

  /**
   `read` from the moment it holds the lock until it returns or sleeps, keeping `rear` bytes of lookback. A full
   ring wholly behind the reader is cut down to the lookback allowance, after which the loop's second pass can
   only sleep.
   */
  function ReadRegion(r: Ring, rear: nat, pos: nat, room: nat): ReadStep
    requires rear < r.config.capacity
  {
    if pos < r.start then Refuse(BehindRingStart)
    else
      var rel := pos - r.start;
      if rel < |r.buf| then
        var n := Min(|r.buf| - rel, room);
        var bytes := r.buf[rel..rel + n];
        var past := rel + n;
        if past > rear then Serve(r.Drained(past - rear), bytes, true)
        else Serve(r, bytes, false)
      else if r.err.Some? then Refuse(Inner(r.err.value))
      else if r.eof then AtEof
      else if pos >= r.total then AtEof
      else if |r.buf| == r.config.capacity then Wait(r.Drained(|r.buf| - rear), true)
      else Wait(r, false)
  }

  /** After a wait: a timeout is reported unless an error or the end of file showed up meanwhile. */
  function AfterWait(r: Ring, rear: nat, pos: nat, room: nat, timedOut: bool): ReadStep
    requires rear < r.config.capacity
  {
    if timedOut && r.err.None? && !r.eof then Refuse(TimedOut) else ReadRegion(r, rear, pos, room)
  }

  datatype SeekStep =
    | OutOfRange
    | InWindow(newPos: nat)
    | Restart(ring: Ring, newPos: nat)

  /** `seek`: a cursor move inside the window, otherwise a request for the worker and an emptied ring. */
  function SeekRegion(r: Ring, pos: u64, from: SeekFrom): SeekStep
    requires r.total < U64_LIMIT
  {
    match SeekTarget(r.total, pos, from)
    case Err => OutOfRange
    case Ok(newPos) =>
      if r.start <= newPos <= r.End() then InWindow(newPos)
      else
        Restart(r.(target := Some(newPos), buf := [], start := newPos, eof := newPos >= r.total,
                   err := if r.workerDead then r.err else None), newPos)
  }

  // ---- the builder --------------------------------------------------------------------------------

  /** A valid fraction in [0, 1): no lookback for a zero denominator, one step below 1 when too large. */
  function SanitiseLookback(num: nat, den: nat): (r: (nat, nat))
    ensures r.0 < r.1 && r.0 <= num
    ensures den == 0 ==> r.0 == 0
    ensures den != 0 ==> r.1 == den && (r.0 == num || r.0 + 1 == den)
  {
    if den == 0 then (0, 1)
    else if num >= den then (den - 1, den)
    else (num, den)
  }

  /**
   The clamps of `build`. The fourfold block size wraps around, as unchecked arithmetic does (with overflow
   checks it panics instead): the clamps do their work exactly for block sizes whose fourfold fits in a `u64`.
   */
  function Clamp(capacity: u64, blockSize: u64, num: nat, den: nat): (c: Config)
    ensures c.Clamped() <==> 4 * Max(blockSize, 4096) < U64_LIMIT
    ensures capacity <= c.capacity <= Max(capacity, 4 * c.blockSize)
    ensures blockSize <= c.blockSize <= Max(blockSize, 4096)
    ensures c.Clamped() ==> c.capacity == Max(capacity, 4 * Max(blockSize, 4096))
    ensures blockSize >= 4096 ==> c.blockSize == blockSize
    ensures capacity >= 4 * c.blockSize ==> c.capacity == capacity
    ensures num < den ==> c.lookbackNum == num && c.lookbackDen == den
  {
    var block := Max(blockSize, 4096);
    var fraction := SanitiseLookback(num, den);
    Config(Max(capacity, 4 * block % U64_LIMIT), block, fraction.0, fraction.1)
  }

  /** The shared state `build` starts the worker with. */
  function InitialRing(config: Config, total: nat, pos: nat): Ring {
    Ring([], pos, config, total, total == pos, None, false, None, false)
  }

  // ---- the lookback allowance ---------------------------------------------------------------------

  /** Division by a positive number is the largest factor that fits. */
  lemma QuotientBound(n: nat, q: nat, d: nat)
    requires d > 0
    ensures n < q * d <==> n / d < q
  {
    assert n == n / d * d + n % d;
    if n / d < q {
      assert (n / d + 1) * d <= q * d;
    } else {
      assert q * d <= n / d * d;
    }
  }

  lemma DivideMonotonic(a: nat, b: nat, d: nat)
    requires a <= b && d > 0
    ensures a / d <= b / d
  {
    QuotientBound(b, b / d + 1, d);
    QuotientBound(a, b / d + 1, d);
  }

  /** Dividing a capped product gives the exact quotient unless the cap cuts a whole multiple off. */
  lemma CappedQuotient(p: nat, cap: nat, d: nat)
    requires d > 0
    ensures Min(p, cap) / d <= p / d
    ensures Min(p, cap) / d == p / d <==> p < (cap / d + 1) * d
  {
    DivideMonotonic(Min(p, cap), p, d);
    DivideMonotonic(Min(p, cap), cap, d);
    QuotientBound(p, cap / d + 1, d);
  }

  lemma ProperFractionOfMore(amount: nat, num: nat, den: nat)
    requires num < den && amount > 0
    ensures amount * num < amount * den
  {
  }

  /** A fraction below 1 leaves the reader a forward window, whether or not the product saturates. */
  lemma RearBelowCapacity(c: Config)
    requires c.Clamped()
    ensures c.Rear() < c.capacity
  {
    var product := c.capacity * c.lookbackNum;
    ProperFractionOfMore(c.capacity, c.lookbackNum, c.lookbackDen);
    QuotientBound(product, c.capacity, c.lookbackDen);
    DivideMonotonic(Min(product, U64_LIMIT - 1), product, c.lookbackDen);
  }

  /**
   The documented allowance `capacity * num / den` is never exceeded, and it is met exactly when the product
   lies below the first multiple of `den` that does not fit in a `u64`.
   */
  lemma RearIsTheFraction(c: Config, product: nat)
    requires c.lookbackDen > 0 && product == c.capacity * c.lookbackNum
    ensures c.Rear() <= product / c.lookbackDen
    ensures c.Rear() == product / c.lookbackDen <==> product < ((U64_LIMIT - 1) / c.lookbackDen + 1) * c.lookbackDen
  {
    CappedQuotient(product, U64_LIMIT - 1, c.lookbackDen);
  }

  /** With fractions of 32-bit numbers the cap is out of reach for rings of up to 4 GiB. */
  lemma SmallRingsKeepTheFraction(c: Config)
    requires c.Clamped() && c.capacity <= 0x1_0000_0000 && c.lookbackDen < 0x1_0000_0000
    ensures c.Rear() == c.capacity * c.lookbackNum / c.lookbackDen
  {
    var product := c.capacity * c.lookbackNum;
    assert product <= 0x1_0000_0000 * c.lookbackNum < U64_LIMIT;
  }

  /**
   The shortfall is real: an 8 GiB ring with the largest fraction of 32-bit numbers should keep all of its bytes
   but two and keeps half of them.
   */
  lemma SaturationShrinksTheAllowance()
    ensures var c := Clamp(0x2_0000_0000, 4096, 0xFFFF_FFFE, 0xFFFF_FFFF);
            && c == Config(0x2_0000_0000, 4096, 0xFFFF_FFFE, 0xFFFF_FFFF) && c.Clamped()
            && c.capacity * c.lookbackNum / c.lookbackDen == 0x1_FFFF_FFFD
            && c.Rear() == 0x1_0000_0001
  {
  }
}
