/** The buffer that flushed blocks are decompressed into; it grows and never shrinks. */
module Decompression {
  import opened Bytes
  import opened Frames

  class Decompressor {
    /** The visible part of the buffer; `capacity` is how far it can be extended in place. */
    var buf: array<byte>
    var capacity: nat

    ghost predicate Valid()
      reads this
    {
      buf.Length <= capacity && 2 <= capacity
    }

    constructor (size: nat)
      requires 2 <= size
      ensures Valid() && fresh(this) && fresh(buf)
    {
      buf := new byte[size](_ => 0);
      capacity := size;
    }

    /** Replaces the buffer by one of n bytes that starts with the same bytes. */
    method Extend(n: nat)
      requires buf.Length <= n
      modifies this`buf
      ensures fresh(buf) && buf.Length == n
      ensures buf[..old(buf.Length)] == old(buf[..])
    {
      var bigger := new byte[n](_ => 0);
      forall i | 0 <= i < buf.Length { bigger[i] := buf[i]; }
      buf := bigger;
    }

    /** Half as much again, or more if the allocator is generous. */
    method Grow()
      requires Valid()
      modifies this
      ensures Valid() && fresh(buf)
      ensures buf.Length > old(buf.Length)
      ensures buf[..old(buf.Length)] == old(buf[..])
    {
      var n: nat :| buf.Length + capacity / 2 <= n && capacity <= n;
      Extend(n);
      capacity := n;
    }

    /** Appends src to the first pos bytes, growing until it fits. */
    method CopyAt(pos: nat, src: seq<byte>) returns (n: nat)
      requires Valid() && pos <= buf.Length
      modifies this, buf
      ensures Valid() && (buf == old(buf) || fresh(buf))
      ensures n == |src| && pos + n <= buf.Length
      ensures buf[..pos + n] == old(buf[..pos]) + src
    {
      ghost var done := buf[..pos];
      while buf.Length - pos < |src|
        invariant Valid() && pos <= buf.Length && (buf == old(buf) || fresh(buf))
        invariant buf[..pos] == done
        decreases pos + |src| - buf.Length
      {
        ghost var was := buf[..];
        Grow();
        assert buf[..pos] == buf[..|was|][..pos] == was[..pos];
      }
      forall i | 0 <= i < |src| { buf[pos + i] := src[i]; }
      n := |src|;
      assert buf[..pos + n] == buf[..pos] + buf[pos..pos + n];
    }

    /**
     * One call of the decompression library on the buffer from pos on. When the result does not
     * fit, the library may leave anything behind pos.
     */
    method UncompressBlock(codec: Codec, pos: nat, src: seq<byte>) returns (n: Option<nat>)
      requires pos <= buf.Length && codec.decompress(src).Some?
      modifies buf
      ensures buf[..pos] == old(buf[..pos])
      ensures n.Some? <==> |codec.decompress(src).value| <= buf.Length - pos
      ensures n.Some? ==> n.value == |codec.decompress(src).value|
                          && buf[pos..pos + n.value] == codec.decompress(src).value
    {
      var plain := codec.decompress(src).value;
      if |plain| <= buf.Length - pos {
        forall i | 0 <= i < |plain| { buf[pos + i] := plain[i]; }
        n := Some(|plain|);
      } else {
        forall i | pos <= i < buf.Length { buf[i] := plain[i - pos]; }
        n := None;
      }
    }

    /** Appends the decompressed src to the first pos bytes, growing until it fits. */
    method Uncompress(codec: Codec, pos: nat, src: seq<byte>) returns (n: nat)
      requires Valid() && pos <= buf.Length && codec.decompress(src).Some?
      modifies this, buf
      ensures Valid() && (buf == old(buf) || fresh(buf))
      ensures n == |codec.decompress(src).value| && pos + n <= buf.Length
      ensures buf[..pos + n] == old(buf[..pos]) + codec.decompress(src).value
    {
      ghost var done, plain := buf[..pos], codec.decompress(src).value;
      while true
        invariant Valid() && pos <= buf.Length && (buf == old(buf) || fresh(buf))
        invariant buf[..pos] == done
        decreases pos + |plain| - buf.Length
      {
        var r := UncompressBlock(codec, pos, src);
        if r.Some? {
          n := r.value;
          assert buf[..pos + n] == buf[..pos] + buf[pos..pos + n];
          return;
        }
        ghost var was := buf[..];
        Grow();
        assert buf[..pos] == buf[..|was|][..pos] == was[..pos];
      }
    }

    /** Appends one byte to the first pos bytes. */
    method CopyByte(pos: nat, c: byte)
      requires Valid() && pos <= buf.Length
      modifies this, buf
      ensures Valid() && (buf == old(buf) || fresh(buf))
      ensures pos + 1 <= buf.Length && buf[..pos + 1] == old(buf[..pos]) + [c]
    {
      if pos + 1 > buf.Length {
        var n: nat :| capacity <= n && pos + 1 <= n;
        Extend(pos + 1);
        capacity := n;
      }
      buf[pos] := c;
      assert buf[..pos + 1] == buf[..pos] + [buf[pos]];
    }
  }
}
