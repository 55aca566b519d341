/** The part of java.nio.ByteBuffer the client uses to lay out and take apart ciphertext: a
    backing array with a read/write cursor (`position`) and an end mark (`limit`). */
module ByteBuffers {
  import opened KmsTypes

  class ByteBuffer {
    const hb: array<Int8>
    var position: nat
    var limit: nat

    ghost predicate Valid()
      reads this
    {
      position <= limit <= hb.Length
    }

    /** The bytes between the cursor and the limit. */
    ghost function RemainingBytes(): seq<Int8>
      reads this, hb
      requires Valid()
    {
      hb[position..limit]
    }

    function Remaining(): nat
      reads this
      requires Valid()
    {
      limit - position
    }

    /** ByteBuffer.allocate: a zero-filled buffer with the cursor at the start. */
    constructor Allocate(capacity: nat)
      ensures Valid() && fresh(hb)
      ensures hb.Length == capacity && position == 0 && limit == capacity
      ensures forall i :: 0 <= i < capacity ==> hb[i] == 0
    {
      hb := new Int8[capacity](_ => 0);
      position, limit := 0, capacity;
    }

    /** ByteBuffer.wrap(array, offset, length): a view of `a` from `offset`, sharing its storage. */
    constructor Wrap(a: array<Int8>, offset: nat, length: nat)
      requires offset + length <= a.Length
      ensures Valid() && hb == a
      ensures position == offset && limit == offset + length
    {
      hb := a;
      position, limit := offset, offset + length;
    }

    /** Bulk relative put: copies `src` at the cursor and advances it. Java throws
        BufferOverflowException when `src` does not fit; every caller here sizes the buffer
        first, so that case is excluded. */
    method Put(src: seq<Int8>)
      requires Valid() && |src| <= Remaining()
      modifies this, hb
      ensures Valid() && limit == old(limit)
      ensures position == old(position) + |src|
      ensures hb[..] == old(hb[..position]) + src + old(hb[position + |src|..])
    {
      var start := position;
      var i := 0;
      while i < |src|
        invariant 0 <= i <= |src| && position == start && limit == old(limit)
        invariant forall j :: 0 <= j < start ==> hb[j] == old(hb[j])
        invariant forall j :: 0 <= j < i ==> hb[start + j] == src[j]
        invariant forall j :: start + i <= j < hb.Length ==> hb[j] == old(hb[j])
      {
        hb[start + i] := src[i];
        i := i + 1;
      }
      position := start + |src|;
      assert hb[..] == old(hb[..start]) + src + old(hb[start + |src|..]);
    }

    /** Bulk relative get: fills `dst` from the cursor and advances it. When fewer than
        `dst.Length` bytes remain, Java throws BufferUnderflowException and nothing moves;
        here that is `ok == false`. */
    method Get(dst: array<Int8>) returns (ok: bool)
      requires Valid() && dst != hb
      modifies this, dst
      ensures Valid() && limit == old(limit)
      ensures ok <==> dst.Length <= old(Remaining())
      ensures ok ==> position == old(position) + dst.Length
      ensures ok ==> dst[..] == old(hb[position..position + dst.Length])
      ensures !ok ==> position == old(position) && dst[..] == old(dst[..])
    {
      ok := dst.Length <= limit - position;
      if !ok {
        return;
      }
      var start := position;
      var i := 0;
      while i < dst.Length
        invariant 0 <= i <= dst.Length && position == start && limit == old(limit)
        invariant forall j :: 0 <= j < i ==> dst[j] == hb[start + j]
      {
        dst[i] := hb[start + i];
        i := i + 1;
      }
      position := start + dst.Length;
    }
  }
}
