/** Length-prefixed blocks: the byte layout shared by cold cells and hot buffers. */
module Frames {
  import opened Bytes
  import FieldText

  const TOP_BIT: nat := 0x8000_0000
  const PREFIX_LEN: nat := 4

  /** What the cache stores: the bytes kept in memory, and whether they are compressed. */
  datatype Block = Block(payload: seq<byte>, compressed: bool) {
    function Length(): nat { |payload| + PREFIX_LEN }
  }

  /** The lz4 pair. Decompressing bytes that no compression produced may fail. */
  datatype Codec = Codec(compress: seq<byte> -> Option<seq<byte>>,
                         decompress: seq<byte> -> Option<seq<byte>>) {
    ghost predicate Inverse() {
      forall b: seq<byte> {:trigger compress(b)} ::
        compress(b).Some? ==> decompress(compress(b).value) == Some(b)
    }

    predicate Readable(b: Block) {
      b.compressed ==> decompress(b.payload).Some?
    }

    /** The bytes the caller put in, for a readable block. */
    function Plain(b: Block): seq<byte> {
      if !b.compressed then b.payload
      else match decompress(b.payload)
        case Some(p) => p
        case None => []
    }

    /** The block `Put` stores for a buffer. */
    function Stored(compressionOn: bool, buf: seq<byte>): Block {
      if compressionOn && compress(buf).Some? then Block(compress(buf).value, true) else Block(buf, false)
    }

    lemma StoredIsLossless(compressionOn: bool, buf: seq<byte>)
      requires Inverse()
      ensures Readable(Stored(compressionOn, buf)) && Plain(Stored(compressionOn, buf)) == buf
      ensures Stored(compressionOn, buf).compressed <==> compressionOn && compress(buf).Some?
      ensures !Stored(compressionOn, buf).compressed ==> Stored(compressionOn, buf).payload == buf
    {
      var z := compress(buf);
    }
  }

  // ---------------------------------------------------------------- 32-bit prefix

  function PutUint32(p: nat): (r: seq<byte>)
    requires p < 0x1_0000_0000
    ensures |r| == PREFIX_LEN
  {
    [(p % 256) as byte, (p / 256 % 256) as byte, (p / 65536 % 256) as byte, (p / 16777216) as byte]
  }

  function Uint32(b: seq<byte>): (p: nat)
    requires |b| == PREFIX_LEN
    ensures p < 0x1_0000_0000
  {
    b[0] as nat + 256 * b[1] as nat + 65536 * b[2] as nat + 16777216 * b[3] as nat
  }

  lemma Uint32Inverse(p: nat)
    requires p < 0x1_0000_0000
    ensures Uint32(PutUint32(p)) == p
    ensures var b := PutUint32(p);
            p == b[0] as nat + 0x100 * b[1] as nat + 0x1_0000 * b[2] as nat + 0x100_0000 * b[3] as nat
  {
    assert p == p % 256 + 256 * (p / 256);
    assert p / 256 == p / 256 % 256 + 256 * (p / 65536);
    assert p / 65536 == p / 65536 % 256 + 256 * (p / 16777216);
  }

  /** `uint32(n)` with the top bit set for a compressed block. */
  function Prefix(n: nat, compressed: bool): (p: nat)
    ensures p < 0x1_0000_0000
  {
    var p := n % 0x1_0000_0000;
    if compressed && p < TOP_BIT then p + TOP_BIT else p
  }

  function PrefixLength(p: nat): nat { p % TOP_BIT }

  predicate PrefixCompressed(p: nat) { p / TOP_BIT % 2 == 1 }

  /** The prefix can be read back exactly when the length leaves the flag bit alone. */
  lemma PrefixRoundTrip(n: nat, compressed: bool)
    ensures (PrefixLength(Prefix(n, compressed)) == n && PrefixCompressed(Prefix(n, compressed)) == compressed)
            <==> n < TOP_BIT
    ensures n < TOP_BIT ==> Prefix(n, compressed) == n + if compressed then 0x8000_0000 else 0
  {
  }

  // ---------------------------------------------------------------- frames

  function Frame(b: Block): (r: seq<byte>)
    ensures |r| == b.Length()
  {
    PutUint32(Prefix(|b.payload|, b.compressed)) + b.payload
  }

  predicate Framed(buf: seq<byte>)
    decreases |buf|
  {
    buf == [] || (
      && PREFIX_LEN <= |buf|
      && PREFIX_LEN + PrefixLength(Uint32(buf[..PREFIX_LEN])) <= |buf|
      && Framed(buf[PREFIX_LEN + PrefixLength(Uint32(buf[..PREFIX_LEN]))..])
    )
  }

  function FirstBlock(buf: seq<byte>): (b: Block)
    requires Framed(buf) && buf != []
    ensures b.Length() <= |buf| && Framed(buf[b.Length()..])
  {
    var p := Uint32(buf[..PREFIX_LEN]);
    Block(buf[PREFIX_LEN..PREFIX_LEN + PrefixLength(p)], PrefixCompressed(p))
  }

  function Blocks(buf: seq<byte>): seq<Block>
    requires Framed(buf)
    decreases |buf|
  {
    if buf == [] then [] else
      var b := FirstBlock(buf);
      [b] + Blocks(buf[b.Length()..])
  }

  lemma FrameReadsBack(b: Block, rest: seq<byte>)
    requires |b.payload| < TOP_BIT
    requires Framed(rest)
    ensures Framed(Frame(b) + rest)
    ensures FirstBlock(Frame(b) + rest) == b
    ensures Blocks(Frame(b) + rest) == [b] + Blocks(rest)
  {
    var buf := Frame(b) + rest;
    var p := Prefix(|b.payload|, b.compressed);
    Uint32Inverse(p);
    PrefixRoundTrip(|b.payload|, b.compressed);
    assert buf[..PREFIX_LEN] == PutUint32(p);
    assert buf[PREFIX_LEN..PREFIX_LEN + |b.payload|] == b.payload;
    assert buf[PREFIX_LEN + |b.payload|..] == rest;
  }

  lemma FirstBlockOfLonger(buf: seq<byte>, more: seq<byte>)
    requires Framed(buf) && buf != []
    requires Framed(buf[FirstBlock(buf).Length()..] + more)
    ensures Framed(buf + more)
    ensures FirstBlock(buf + more) == FirstBlock(buf)
    ensures (buf + more)[FirstBlock(buf).Length()..] == buf[FirstBlock(buf).Length()..] + more
  {
    var n := FirstBlock(buf).Length();
    var all := buf + more;
    assert all[..PREFIX_LEN] == buf[..PREFIX_LEN];
    assert all[n..] == buf[n..] + more;
    assert all[PREFIX_LEN..n] == buf[PREFIX_LEN..n];
  }

  /** Appending a frame to a buffer appends a block to the list it holds. */
  lemma {:induction false} AppendFrame(buf: seq<byte>, b: Block)
    requires Framed(buf)
    requires |b.payload| < TOP_BIT
    ensures Framed(buf + Frame(b))
    ensures Blocks(buf + Frame(b)) == Blocks(buf) + [b]
    decreases |buf|
  {
    if buf == [] {
      FrameReadsBack(b, []);
      assert Frame(b) + [] == Frame(b) == buf + Frame(b);
    } else {
      var rest := buf[FirstBlock(buf).Length()..];
      AppendFrame(rest, b);
      FirstBlockOfLonger(buf, Frame(b));
    }
  }

  function FramedLength(bs: seq<Block>): nat
  {
    if bs == [] then 0 else FramedLength(bs[..|bs| - 1]) + bs[|bs| - 1].Length()
  }

  lemma FramedLengthSnoc(bs: seq<Block>, b: Block)
    ensures FramedLength(bs + [b]) == FramedLength(bs) + b.Length()
  {
    assert (bs + [b])[..|bs|] == bs;
  }

  lemma {:induction false} FramedLengthCons(b: Block, bs: seq<Block>)
    ensures FramedLength([b] + bs) == b.Length() + FramedLength(bs)
    decreases |bs|
  {
    if bs == [] {
      assert [b] + bs == [] + [b];
      FramedLengthSnoc([], b);
    } else {
      var init, last := bs[..|bs| - 1], bs[|bs| - 1];
      FramedLengthCons(b, init);
      assert [b] + bs == ([b] + init) + [last];
      FramedLengthSnoc([b] + init, last);
    }
  }

  lemma {:induction false} BlocksLength(buf: seq<byte>)
    requires Framed(buf)
    ensures FramedLength(Blocks(buf)) == |buf|
    decreases |buf|
  {
    if buf != [] {
      var b := FirstBlock(buf);
      BlocksLength(buf[b.Length()..]);
      FramedLengthCons(b, Blocks(buf[b.Length()..]));
    }
  }

  // ---------------------------------------------------------------- what a hot flush emits

  predicate AllReadable(codec: Codec, bs: seq<Block>) {
    forall i | 0 <= i < |bs| :: codec.Readable(bs[i])
  }

  /** Every block decompressed and followed by a line feed. */
  function Render(codec: Codec, bs: seq<Block>): seq<byte>
  {
    if bs == [] then [] else codec.Plain(bs[0]) + [LF] + Render(codec, bs[1..])
  }

  function Plains(codec: Codec, bs: seq<Block>): (r: seq<seq<byte>>)
    ensures |r| == |bs|
  {
    if bs == [] then [] else [codec.Plain(bs[0])] + Plains(codec, bs[1..])
  }

  /** The blocks with a newline between each two of them. */
  function Interleaved(codec: Codec, bs: seq<Block>): seq<byte> {
    if bs == [] then [] else FieldText.Join(Plains(codec, bs), LF)
  }

  /** A hot flush emits the interleaved blocks and one newline more, unless there are no blocks. */
  lemma {:induction false} RenderInterleaved(codec: Codec, bs: seq<Block>)
    ensures Render(codec, bs) == Interleaved(codec, bs) + if bs == [] then [] else [LF]
    ensures Render(codec, bs) == Interleaved(codec, bs) <==> bs == []
  {
    if bs != [] {
      var p, ps := codec.Plain(bs[0]), Plains(codec, bs[1..]);
      RenderInterleaved(codec, bs[1..]);
      if ps == [] {
        assert Plains(codec, bs) == [p] && Render(codec, bs) == p + [LF] + [] == p + [LF];
      } else {
        FieldText.JoinCons(p, ps, LF);
        assert p + [LF] + (FieldText.Join(ps, LF) + [LF]) == p + [LF] + FieldText.Join(ps, LF) + [LF];
      }
    }
  }
}
