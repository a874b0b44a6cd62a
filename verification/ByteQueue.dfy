/** The byte queue behind the ring: a circular buffer whose contents may wrap around the end of its storage. */
module ByteQueue {
  import opened Basics

  /** The `len` bytes that start at `head` and continue at index 0 after the last. */
  ghost function Unwrapped(store: seq<Byte>, head: nat, len: nat): (s: seq<Byte>)
    requires head <= |store| && len <= |store|
    ensures |s| == len
    ensures forall i :: 0 <= i < len ==>
              s[i] == if head + i < |store| then store[head + i] else store[head + i - |store|]
  {
    if head + len <= |store| then store[head..head + len]
    else store[head..] + store[..head + len - |store|]
  }

  /** `dst[at..at + n].copy_from_slice(&src[from..from + n])` */
  method CopySlice(src: array<Byte>, from: nat, dst: array<Byte>, at: nat, n: nat)
    requires src != dst && from + n <= src.Length && at + n <= dst.Length
    modifies dst
    ensures forall i :: at <= i < at + n ==> dst[i] == src[from + i - at]
    ensures forall i :: 0 <= i < dst.Length && !(at <= i < at + n) ==> dst[i] == old(dst[i])
  {
    forall i | 0 <= i < n {
      dst[at + i] := src[from + i];
    }
  }

  class Deque {
    const store: array<Byte>
    var head: nat
    var len: nat

    ghost predicate Valid()
      reads this
    {
      head < store.Length && len <= store.Length
    }

    ghost function Contents(): (s: seq<Byte>)
      requires Valid()
      ensures |s| == len
      reads this, store
    {
      Unwrapped(store[..], head, len)
    }

    constructor (capacity: nat)
      requires capacity > 0
      ensures Valid() && Contents() == [] && store.Length == capacity && fresh(store)
    {
      store := new Byte[capacity](_ => 0);
      head, len := 0, 0;
    }

    method Clear()
      requires Valid()
      modifies this
      ensures Valid() && Contents() == []
    {
      head, len := 0, 0;
    }

    /** Forget the `n` oldest bytes. */
    method Drain(n: nat)
      requires Valid() && n <= len
      modifies this
      ensures Valid() && Contents() == old(Contents())[n..]
    {
      head := if head + n < store.Length then head + n else head + n - store.Length;
      len := len - n;
    }

    method PushBack(b: Byte)
      requires Valid() && len < store.Length
      modifies this, store
      ensures Valid() && Contents() == old(Contents()) + [b]
    {
      store[if head + len < store.Length then head + len else head + len - store.Length] := b;
      len := len + 1;
    }

    method Extend(bytes: seq<Byte>)
      requires Valid() && len + |bytes| <= store.Length
      modifies this, store
      ensures Valid() && Contents() == old(Contents()) + bytes
    {
      for i := 0 to |bytes|
        invariant Valid() && len == old(len) + i
        invariant Contents() == old(Contents()) + bytes[..i]
      {
        PushBack(bytes[i]);
      }
    }

    /**
     Copy `n` bytes starting `rel` bytes after the oldest into the front of `out`, using the two contiguous
     slices the queue consists of. For every position of the wrap-around the result is the same.
     */
    method CopyOut(rel: nat, n: nat, out: array<Byte>)
      requires Valid() && out != store
      requires rel < len && rel + n <= len && n <= out.Length
      modifies out
      ensures out[..n] == Contents()[rel..rel + n]
      ensures out[n..] == old(out[n..])
    {
      var front := Min(len, store.Length - head);
      if rel < front {
        var fTake := Min(front - rel, n);
        CopySlice(store, head + rel, out, 0, fTake);
        if fTake < n {
          CopySlice(store, 0, out, fTake, n - fTake);
        }
      } else {
        CopySlice(store, rel - front, out, 0, n);
      }
    }
  }
}
