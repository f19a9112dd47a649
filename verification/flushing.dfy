/**
 * The flushing side of the cache: the callback, its counter, and the decompressor. A flushed cold
 * block is emitted bare; a flushed hot buffer is emitted as one text, '\n' after every block.
 */
module Flushing {
  import opened Bytes
  import opened Frames
  import opened Decompression
  import opened CacheModel
  import opened CacheLedger

  /** The bytes one call of the flush callback receives. */
  function EventBytes(codec: Codec, e: Event): seq<byte> {
    match e
    case ColdFlush(b) => codec.Plain(b)
    case HotFlush(bs) => Render(codec, bs)
  }

  ghost predicate EventReadable(codec: Codec, e: Event) {
    match e
    case ColdFlush(b) => codec.Readable(b)
    case HotFlush(bs) => AllReadable(codec, bs)
  }

  const COMPRESSED_BUFFER_SIZE: nat := 0x10_0000

  /** Splits the frame at pos: the length and the flag come first. */
  method NextFrame(buf: seq<byte>, pos: nat) returns (block: seq<byte>, compressed: bool)
    requires pos < |buf| && Framed(buf[pos..])
    ensures Block(block, compressed) == FirstBlock(buf[pos..])
  {
    assert buf[pos..][..PREFIX_LEN] == buf[pos..pos + PREFIX_LEN];
    var prefix := Uint32(buf[pos..pos + PREFIX_LEN]);
    var blocklen := PrefixLength(prefix);
    compressed := PrefixCompressed(prefix);
    block := buf[pos + PREFIX_LEN..pos + PREFIX_LEN + blocklen];
    assert buf[pos..][PREFIX_LEN..PREFIX_LEN + blocklen] == block;
  }

  class Flusher {
    const codec: Codec
    const decomp: Decompressor

    /** What the flush callback received, call by call, and how often it was called. */
    var flushed: seq<seq<byte>>
    var nflushes: nat

    /** The same calls as events of the model. */
    ghost var events: seq<Event>
    ghost var emitted: multiset<Event>
    ghost var Repr: set<object>

    ghost predicate Valid()
      reads this, Repr, decomp
      ensures Valid() ==> this in Repr
    {
      && this in Repr && decomp in Repr && decomp.buf in Repr
      && decomp.Valid() && Recorded()
    }

    /** The calls made are the events, rendered. */
    ghost predicate Recorded()
      reads this
    {
      && emitted == multiset(events)
      && |events| == |flushed| && nflushes == |flushed| % 0x1_0000_0000_0000_0000
      && forall i | 0 <= i < |events| ::
           EventReadable(codec, events[i]) && flushed[i] == EventBytes(codec, events[i])
    }

    constructor (codec: Codec)
      ensures Valid() && fresh(Repr)
      ensures this.codec == codec && flushed == [] && emitted == multiset{}
    {
      this.codec := codec;
      flushed, nflushes, events, emitted := [], 0, [], multiset{};
      decomp := new Decompressor(COMPRESSED_BUFFER_SIZE);
      new;
      Repr := {this, decomp, decomp.buf};
    }

    method OnFlush(buf: seq<byte>, ghost e: Event)
      requires Recorded() && EventReadable(codec, e) && buf == EventBytes(codec, e)
      modifies this
      ensures Recorded() && Repr == old(Repr)
      ensures flushed == old(flushed) + [buf] && emitted == old(emitted) + multiset{e}
    {
      flushed := flushed + [buf];
      nflushes := (nflushes + 1) % 0x1_0000_0000_0000_0000;
      events := events + [e];
      emitted := emitted + multiset{e};
      forall i | 0 <= i < |events|
        ensures EventReadable(codec, events[i]) && flushed[i] == EventBytes(codec, events[i])
      {
        if i < |old(events)| {
          assert events[i] == old(events)[i] && flushed[i] == old(flushed)[i];
        }
      }
    }

    method DecompressAndFlush(buf: seq<byte>, compressed: bool)
      requires Valid() && codec.Readable(Block(buf, compressed))
      modifies Repr
      ensures Valid() && fresh(Repr - old(Repr))
      ensures flushed == old(flushed) + [codec.Plain(Block(buf, compressed))]
      ensures emitted == old(emitted) + multiset{ColdFlush(Block(buf, compressed))}
    {
      if !compressed {
        OnFlush(buf, ColdFlush(Block(buf, compressed)));
        return;
      }
      var n := decomp.Uncompress(codec, 0, buf);
      assert decomp.buf[..n] == codec.decompress(buf).value;
      Repr := Repr + {decomp.buf};
      OnFlush(decomp.buf[..n], ColdFlush(Block(buf, compressed)));
    }

    /** Puts the plain text of a block behind the first zpos bytes. */
    method Expand(zpos: nat, block: seq<byte>, compressed: bool) returns (n: nat)
      requires decomp.Valid() && zpos <= decomp.buf.Length && codec.Readable(Block(block, compressed))
      modifies decomp, decomp.buf
      ensures decomp.Valid() && (decomp.buf == old(decomp.buf) || fresh(decomp.buf))
      ensures zpos + n <= decomp.buf.Length
      ensures decomp.buf[..zpos + n] == old(decomp.buf[..zpos]) + codec.Plain(Block(block, compressed))
    {
      if !compressed {
        n := decomp.CopyAt(zpos, block);
      } else {
        n := decomp.Uncompress(codec, zpos, block);
      }
    }

    /** Decompresses the frame at pos of buf behind the first zpos bytes, followed by '\n'. */
    method UnframeBlock(buf: seq<byte>, pos: nat, zpos: nat, ghost left: seq<Block>) returns (next: nat, znext: nat)
      requires decomp.Valid() && zpos <= decomp.buf.Length
      requires pos < |buf| && Remaining(buf, pos, left) && AllReadable(codec, left)
      modifies decomp, decomp.buf
      ensures decomp.Valid() && (decomp.buf == old(decomp.buf) || fresh(decomp.buf))
      ensures left != [] && pos < next <= |buf| && Remaining(buf, next, left[1..])
      ensures znext <= decomp.buf.Length
      ensures decomp.buf[..znext] == old(decomp.buf[..zpos]) + codec.Plain(left[0]) + [LF]
    {
      BlocksFirst(buf, pos);
      assert codec.Readable(left[0]);
      var block, compressed := NextFrame(buf, pos);
      var n := Expand(zpos, block, compressed);
      next := pos + PREFIX_LEN + |block|;
      decomp.CopyByte(zpos + n, LF);
      znext := zpos + n + 1;
    }

    /** Decompresses all frames of a hot buffer. */
    method Unframe(buf: seq<byte>) returns (zpos: nat)
      requires decomp.Valid() && Framed(buf) && AllReadable(codec, Blocks(buf))
      modifies decomp, decomp.buf
      ensures decomp.Valid() && (decomp.buf == old(decomp.buf) || fresh(decomp.buf))
      ensures zpos <= decomp.buf.Length && decomp.buf[..zpos] == Render(codec, Blocks(buf))
    {
      var pos := 0;
      zpos := 0;
      ghost var left, all := Blocks(buf), Render(codec, Blocks(buf));
      assert buf[0..] == buf;
      while pos != |buf|
        invariant decomp.Valid() && (decomp.buf == old(decomp.buf) || fresh(decomp.buf))
        invariant pos <= |buf| && Remaining(buf, pos, left) && AllReadable(codec, left)
        invariant zpos <= decomp.buf.Length && decomp.buf[..zpos] + Render(codec, left) == all
        decreases |buf| - pos
      {
        ghost var out := decomp.buf[..zpos];
        pos, zpos := UnframeBlock(buf, pos, zpos, left);
        RenderFirst(codec, left, out);
        left := left[1..];
      }
    }

    /** One flush for a hot key. */
    method FlushBlocks(buf: seq<byte>)
      requires Valid() && Framed(buf) && AllReadable(codec, Blocks(buf))
      modifies Repr
      ensures Valid() && fresh(Repr - old(Repr))
      ensures flushed == old(flushed) + [Render(codec, Blocks(buf))]
      ensures emitted == old(emitted) + multiset{HotFlush(Blocks(buf))}
    {
      var zpos := Unframe(buf);
      Repr := Repr + {decomp.buf};
      OnFlush(decomp.buf[..zpos], HotFlush(Blocks(buf)));
    }

    /** Flushes the buffer of one of the keys still to do. */
    method FlushHotKey(hot: map<Key, seq<byte>>, key: Key, ghost todo: set<Key>)
      requires Valid() && HotReadable(codec, hot) && key in todo && todo <= hot.Keys
      modifies Repr
      ensures Valid() && fresh(Repr - old(Repr))
      ensures emitted + HotEvents(HotRest(hot, todo - {key})) == old(emitted) + HotEvents(HotRest(hot, todo))
    {
      HotEventsPick(HotRest(hot, todo), key);
      HotRestDrop(hot, todo, key);
      Regroup(emitted, multiset{HotFlush(Blocks(hot[key]))}, HotEvents(HotRest(hot, todo - {key})));
      FlushBlocks(hot[key]);
    }

    /** Flushes every hot buffer, in whatever order the map yields them. */
    method FlushHot(hot: map<Key, seq<byte>>)
      requires Valid() && HotReadable(codec, hot)
      modifies Repr
      ensures Valid() && fresh(Repr - old(Repr))
      ensures emitted == old(emitted) + HotEvents(HotView(hot))
    {
      var todo := hot.Keys;
      ghost var all := emitted + HotEvents(HotRest(hot, todo));
      while todo != {}
        invariant Valid() && fresh(Repr - old(Repr)) && todo <= hot.Keys
        invariant emitted + HotEvents(HotRest(hot, todo)) == all
      {
        var key :| key in todo;
        FlushHotKey(hot, key, todo);
        todo := todo - {key};
      }
      HotRestEnds(hot);
    }

    /** Flushes the next cold block. */
    method FlushNext(bufs: seq<Block>, i: nat, ghost before: multiset<Event>)
      requires Valid() && AllReadable(codec, bufs) && i < |bufs|
      requires emitted == before + EventsOf(bufs[..i])
      modifies Repr
      ensures Valid() && fresh(Repr - old(Repr))
      ensures emitted == before + EventsOf(bufs[..i + 1])
    {
      EventsTake(bufs, i, before);
      DecompressAndFlush(bufs[i].payload, bufs[i].compressed);
    }

    /** Flushes cold blocks one by one. */
    method FlushCold(bufs: seq<Block>)
      requires Valid() && AllReadable(codec, bufs)
      modifies Repr
      ensures Valid() && fresh(Repr - old(Repr))
      ensures emitted == old(emitted) + EventsOf(bufs)
    {
      ghost var before := emitted;
      for i := 0 to |bufs|
        invariant Valid() && fresh(Repr - old(Repr))
        invariant emitted == before + EventsOf(bufs[..i])
      {
        FlushNext(bufs, i, before);
      }
      assert bufs[..|bufs|] == bufs;
    }
  }

  lemma EventsTake(bufs: seq<Block>, i: nat, before: multiset<Event>)
    requires i < |bufs|
    ensures before + EventsOf(bufs[..i]) + multiset{ColdFlush(bufs[i])} == before + EventsOf(bufs[..i + 1])
  {
    assert bufs[..i + 1] == bufs[..i] + [bufs[i]];
    EventsSnoc(bufs[..i], bufs[i]);
    Swap(before, EventsOf(bufs[..i]), multiset{ColdFlush(bufs[i])});
  }

  ghost function HotView(m: map<Key, seq<byte>>): map<Key, seq<Block>>
    requires forall k | k in m :: Framed(m[k])
  {
    map k | k in m :: Blocks(m[k])
  }

  ghost predicate HotReadable(codec: Codec, m: map<Key, seq<byte>>) {
    forall k | k in m :: Framed(m[k]) && AllReadable(codec, Blocks(m[k]))
  }

  /** The part of the hot buffers whose keys are in `todo`. */
  ghost function HotRest(m: map<Key, seq<byte>>, todo: set<Key>): map<Key, seq<Block>>
    requires todo <= m.Keys && forall k | k in m :: Framed(m[k])
  {
    map k | k in todo :: Blocks(m[k])
  }

  lemma HotRestDrop(m: map<Key, seq<byte>>, todo: set<Key>, key: Key)
    requires todo <= m.Keys && forall k | k in m :: Framed(m[k])
    ensures HotRest(m, todo) - {key} == HotRest(m, todo - {key})
  {
  }

  lemma HotRestEnds(m: map<Key, seq<byte>>)
    requires forall k | k in m :: Framed(m[k])
    ensures HotEvents(HotRest(m, {})) == multiset{}
    ensures HotRest(m, m.Keys) == HotView(m)
  {
    NoHotEvents(HotRest(m, {}));
  }

  lemma HotViewPut(m: map<Key, seq<byte>>, key: Key, buf: seq<byte>)
    requires (forall k | k in m :: Framed(m[k])) && Framed(buf)
    ensures HotView(m[key := buf]) == HotView(m)[key := Blocks(buf)]
  {
  }

  lemma HotEventsPick(hot: map<Key, seq<Block>>, key: Key)
    requires key in hot
    ensures HotEvents(hot) == multiset{HotFlush(hot[key])} + HotEvents(hot - {key})
  {
    TotalPick(HotBags(hot), key);
    HotBagsDrop(hot, key);
  }

  lemma NoHotEvents(hot: map<Key, seq<Block>>)
    requires hot.Keys == {}
    ensures HotEvents(hot) == multiset{}
  {
    assert HotBags(hot) == map[];
  }

  lemma Regroup<T>(a: multiset<T>, b: multiset<T>, c: multiset<T>)
    ensures a + (b + c) == (a + b) + c
  {
  }

  lemma Swap<T>(a: multiset<T>, b: multiset<T>, c: multiset<T>)
    ensures (a + b) + c == a + (c + b)
  {
  }

  lemma HotBagsDrop(hot: map<Key, seq<Block>>, key: Key)
    ensures HotBags(hot) - {key} == HotBags(hot - {key})
  {
  }

  /** From pos on, buf is a sequence of frames holding `left`. */
  ghost predicate Remaining(buf: seq<byte>, pos: nat, left: seq<Block>) {
    pos <= |buf| && Framed(buf[pos..]) && left == Blocks(buf[pos..])
  }

  lemma BlocksFirst(buf: seq<byte>, pos: nat)
    requires pos < |buf| && Framed(buf[pos..])
    ensures var bs := Blocks(buf[pos..]);
            && bs != [] && bs[0] == FirstBlock(buf[pos..])
            && pos + bs[0].Length() <= |buf|
            && Framed(buf[pos + bs[0].Length()..]) && bs[1..] == Blocks(buf[pos + bs[0].Length()..])
  {
    var rest := buf[pos..];
    BlocksHead(rest);
    var n := FirstBlock(rest).Length();
    assert rest[n..] == buf[pos + n..];
  }

  lemma BlocksHead(buf: seq<byte>)
    requires buf != [] && Framed(buf)
    ensures Blocks(buf) != [] && Blocks(buf)[0] == FirstBlock(buf)
    ensures Blocks(buf)[1..] == Blocks(buf[FirstBlock(buf).Length()..])
  {
    var b := FirstBlock(buf);
    assert Blocks(buf) == [b] + Blocks(buf[b.Length()..]);
  }

  lemma RenderFirst(codec: Codec, bs: seq<Block>, out: seq<byte>)
    requires bs != []
    ensures out + codec.Plain(bs[0]) + [LF] + Render(codec, bs[1..]) == out + Render(codec, bs)
  {
    Associates(out, codec.Plain(bs[0]), [LF], Render(codec, bs[1..]));
  }

  lemma Associates(a: seq<byte>, b: seq<byte>, c: seq<byte>, d: seq<byte>)
    ensures a + b + c + d == a + (b + c + d)
  {
  }
}
