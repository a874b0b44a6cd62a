/** Machine integers, error-carrying results and the seek arithmetic every reader of the crate shares. */
module Basics {
  /** The bytes of payloads, buffers and URI texts. */
  type Byte = bv8

  const U64_LIMIT := 0x1_0000_0000_0000_0000

  type u64 = n: int | 0 <= n < U64_LIMIT

  type i64 = n: int | -0x8000_0000_0000_0000 <= n < 0x8000_0000_0000_0000

  /** Positions have eight bytes. */
  lemma EightBytes()
    ensures U64_LIMIT == 256 * 256 * 256 * 256 * 256 * 256 * 256 * 256
  {
  }

  datatype Option<+T> = None | Some(value: T)

  datatype Result<+T> = Ok(value: T) | Err

  datatype SeekFrom = Start(offset: u64) | Current(delta: i64) | End(delta: i64)

  function Min(a: nat, b: nat): nat {
    if a <= b then a else b
  }

  function Max(a: nat, b: nat): nat {
    if a <= b then b else a
  }

  /** `checked_add` for a non-negative delta, `checked_sub` of the magnitude otherwise. */
  function AddSigned(base: u64, delta: i64): (r: Result<u64>)
    ensures r.Ok? <==> 0 <= base + delta < U64_LIMIT
    ensures r.Ok? ==> r.value == base + delta
  {
    if delta >= 0 then
      if base + delta < U64_LIMIT then Ok(base + delta) else Err
    else
      var magnitude := -(delta as int);
      if magnitude <= base then Ok(base - magnitude) else Err
  }

  /** What lies ahead of the results of a loop that has already gathered `first`. */
  function Prefixed<T>(first: seq<T>, rest: Result<seq<T>>): Result<seq<T>> {
    match rest
    case Ok(items) => Ok(first + items)
    case Err => Err
  }

  lemma PrefixedNothing<T>(rest: Result<seq<T>>)
    ensures Prefixed([], rest) == rest
  {
    if rest.Ok? { assert [] + rest.value == rest.value; }
  }

  lemma PrefixedStep<T>(first: seq<T>, next: seq<T>, rest: Result<seq<T>>)
    ensures Prefixed(first, Prefixed(next, rest)) == Prefixed(first + next, rest)
  {
    if rest.Ok? { assert first + (next + rest.value) == first + next + rest.value; }
  }

  lemma JoinSlices(all: seq<Byte>, a: nat, b: nat, c: nat)
    requires a <= b <= c <= |all|
    ensures all[a..b] + all[b..c] == all[a..c]
  {
  }

  lemma SubSlice(all: seq<Byte>, lo: nat, hi: nat, a: nat, b: nat)
    requires lo <= hi <= |all| && a <= b <= hi - lo
    ensures all[lo..hi][a..b] == all[lo + a..lo + b]
  {
    assert forall i :: 0 <= i < b - a ==> all[lo..hi][a..b][i] == all[lo + a + i];
  }
}
