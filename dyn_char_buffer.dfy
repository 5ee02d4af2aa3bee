/** The growable byte buffer the receiver accumulates packet data in
    (`DynCharBuffer` in minigdbstub.h). */
module DynBuffer {
  import opened Bytes

  /** The capacity `insertDynCharBuffer` moves to before its write, as
      minigdbstub.h writes it: doubled when the buffer is full. There is
      room for the write unless the buffer is full at capacity zero. */
  function GrownSize(used: nat, size: nat): (n: nat)
    requires used <= size
    ensures size <= n
    ensures used < n <==> used < size || size > 0
  {
    if used == size then 2 * size else size
  }

  /** A buffer of capacity zero (initialised with `startSize` 0, or freed)
      stays at capacity zero when full, so the write that follows lands
      past the end of the allocation. */
  lemma ZeroCapacityOverflows()
    ensures var n := GrownSize(0, 0); !(0 < n)
  {
  }

  /** The capacity before the write, with the zero case mended: a full
      buffer of capacity zero grows to one byte. Everywhere else it agrees
      with `GrownSize`. */
  function NewCapacity(used: nat, size: nat): (n: nat)
    requires used <= size
    ensures used < n && size <= n
    ensures used < size ==> n == size
    ensures size > 0 ==> n == GrownSize(used, size)
  {
    if used < size then size else if size == 0 then 1 else 2 * size
  }

  class DynCharBuffer {
    /** The allocation; an empty one once the buffer has been freed. */
    var buffer: array<byte>
    /** Number of bytes written so far. */
    var used: nat
    /** Capacity of the allocation. */
    var size: nat

    ghost predicate Valid()
      reads this, buffer
    {
      buffer.Length == size && used <= size
    }

    /** The bytes written so far, in order. */
    ghost function Contents(): (s: seq<byte>)
      reads this, buffer
      requires Valid()
      ensures |s| == used
    {
      buffer[..used]
    }

    /** `initDynCharBuffer`: an empty buffer of capacity `startSize`
        (allocation is taken to succeed). */
    constructor (startSize: nat)
      ensures Valid() && fresh(buffer)
      ensures used == 0 && size == startSize
      ensures Contents() == []
    {
      buffer := new byte[startSize];
      used := 0;
      size := startSize;
    }

    /** `insertDynCharBuffer`: append one byte, doubling the capacity first
        when the buffer is full (growing an empty allocation to one byte,
        see `NewCapacity`). */
    method Insert(item: byte)
      requires Valid()
      modifies this, buffer
      ensures Valid()
      ensures used == old(used) + 1 && used <= size
      ensures size == NewCapacity(old(used), old(size))
      ensures buffer[old(used)] == item
      ensures Contents() == old(Contents()) + [item]
      ensures old(used) < old(size) ==> buffer == old(buffer)
      ensures old(used) == old(size) ==> fresh(buffer)
    {
      if used == size {
        size := if size == 0 then 1 else size * 2;
        var prev: array<byte> := buffer;
        buffer := new byte[size](i reads prev => if 0 <= i < prev.Length then prev[i] else NUL);
        assert buffer[..used] == prev[..used];
      }
      buffer[used] := item;
      used := used + 1;
    }

    /** `freeDynCharBuffer`: release the allocation. */
    method Free()
      modifies this
      ensures Valid()
      ensures used == 0 && size == 0
      ensures Contents() == []
    {
      buffer := new byte[0];
      used := 0;
      size := 0;
    }
  }
}
