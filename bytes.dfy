/**
  Bytes and the growable byte buffer (the `bytes::BytesMut` / `Vec<u8>` of the
  proxy) that the header rewriter and the connection handler work on.
 */
module Bytes {

  newtype byte = x: int | 0 <= x < 256

  /** The bytes of an ASCII string literal (each character taken modulo 256). */
  function Ascii(s: string): (r: seq<byte>)
    ensures |r| == |s|
  {
    seq(|s|, i requires 0 <= i < |s| => (s[i] as int % 256) as byte)
  }

  /** `n` zero bytes, as `vec![0; n]` allocates them. */
  function Zeros(n: nat): (r: seq<byte>)
    ensures |r| == n
    ensures forall i :: 0 <= i < n ==> r[i] == 0
  {
    seq(n, _ => 0)
  }

  /** A growable, owned byte buffer whose contents are replaced or extended in place. */
  class ByteBuffer {
    var data: seq<byte>

    /** `BytesMut::with_capacity`: an empty buffer (capacity is not observable). */
    constructor WithCapacity(capacity: nat)
      ensures data == []
    {
      data := [];
    }

    /** `vec![0; n]`: a buffer of `n` zero bytes. */
    constructor Zeroed(n: nat)
      ensures data == Zeros(n)
    {
      data := Zeros(n);
    }

    /** `extend_from_slice`: appends `s` at the end. */
    method ExtendFromSlice(s: seq<byte>)
      modifies this
      ensures data == old(data) + s
    {
      data := data + s;
    }

    /** A successful `read` into the buffer: the first `|src|` bytes are overwritten, the rest kept. */
    method ReadInto(src: seq<byte>)
      requires |src| <= |data|
      modifies this
      ensures data == src + old(data)[|src|..]
    {
      data := src + data[|src|..];
    }

    /** `*buf = other`: the buffer takes over the contents of `other`. */
    method Assign(other: ByteBuffer)
      modifies this
      ensures data == old(other.data)
    {
      data := other.data;
    }
  }
}
