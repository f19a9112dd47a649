/**
 * BufferCache in bytes: packed locations, cells in byte arrays, hot buffers of length-prefixed
 * frames. Every method is proved to do to the abstract state what CacheModel says.
 */
module BufferCaching {
  import opened Bytes
  import opened Frames
  import opened Locations
  import opened ColdBucket
  import opened ColdCaching
  import opened Flushing
  import opened CacheModel
  import opened CacheProofs
  import CacheFlushes

  /** Every block held can be decompressed. */
  ghost predicate Legible(codec: Codec, s: State) {
    && (forall b, c | 0 <= b < |s.cold| && c in s.cold[b] :: codec.Readable(s.cold[b][c]))
    && (forall k | k in s.hot :: AllReadable(codec, s.hot[k]))
  }

  ghost predicate StateOk(codec: Codec, s: State) {
    Counted(s) && Legible(codec, s)
  }

  /** Limits the packed representation needs and the constructor does not check. */
  predicate Representable(cfg: Config) {
    && |cfg.sizes| <= MAX_BUCKETS
    && cfg.ncells <= CELL_SPAN
    && cfg.maxbuflen < TOP_BIT
    && forall i | 0 <= i < |cfg.sizes| :: cfg.sizes[i] * cfg.ncells < MAX_BYTES
  }

  class BufferCache {
    const cfg: Config
    const codec: Codec
    const compressionOn: bool

    var m: map<Key, Location>
    const cold: ColdCache
    var hot: map<Key, seq<byte>>
    var hotCap: int
    const out: Flusher

    /** The other objects the cache is made of. */
    ghost var Repr: set<object>

    // -------------------------------------------------------------- representation

    ghost predicate PartsValid()
      reads this`Repr, Repr, cold, cold.Repr, out, out.Repr, cold.buckets, out.decomp
    {
      && this !in Repr && cold in Repr && out in Repr
      && cold.Repr <= Repr && out.Repr <= Repr && cold.Repr !! out.Repr
      && cold.Valid() && out.Valid()
      && cold.sizes == cfg.sizes && cold.ncells == cfg.ncells && out.codec == codec
    }

    predicate Configured() {
      cfg.Valid() && Representable(cfg)
    }

    ghost predicate Valid()
      reads this, Repr, cold, cold.Repr, out, out.Repr, cold.buckets, out.decomp
    {
      && Configured() && codec.Inverse()
      && PartsValid()
      && (forall k | k in hot :: Framed(hot[k]))
      && StateOk(codec, View())
    }

    /** The abstract state. */
    ghost function View(): State
      requires forall k | k in hot :: Framed(hot[k])
      reads this, cold, out
    {
      State(Places(m), cold.cells, HotView(hot), hotCap, out.emitted)
    }

    constructor (cfg: Config, codec: Codec, compressionOn: bool)
      requires cfg.Valid() && Representable(cfg) && codec.Inverse()
      ensures Valid() && View() == Init(cfg) && out.flushed == []
      ensures this.cfg == cfg && this.codec == codec && this.compressionOn == compressionOn
      ensures fresh(Repr)
    {
      this.cfg, this.codec, this.compressionOn := cfg, codec, compressionOn;
      m, hot, hotCap := map[], map[], 0;
      cold := new ColdCache(cfg.ncells, cfg.sizes);
      out := new Flusher(codec);
      new;
      Repr := cold.Repr + out.Repr;
      assert View() == Init(cfg);
    }

    // -------------------------------------------------------------- flushing

    /** Emits every hot buffer. */
    method EmitHot()
      requires Valid()
      modifies out, out.Repr, this`Repr
      ensures PartsValid() && fresh(Repr - old(Repr))
      ensures cold.cells == old(cold.cells) && unchanged(this`m, this`hot, this`hotCap)
      ensures out.emitted == old(out.emitted) + HotEvents(HotView(hot))
    {
      assert HotReadable(codec, hot) by {
        forall k | k in hot ensures AllReadable(codec, Blocks(hot[k])) { assert k in View().hot; }
      }
      out.FlushHot(hot);
      Repr := Repr + out.Repr;
    }

    /** Forgets every hot buffer and its location. */
    method DropHot()
      modifies this`m, this`hot, this`hotCap
      ensures hot == map[] && hotCap == 0
      ensures Places(m) == map k | k in Places(old(m)) && Places(old(m))[k] != InHot :: Places(old(m))[k]
    {
      hot := map[];
      hotCap := 0;
      m := RemoveHot(m);
    }

    method FlushHotCache()
      requires Valid()
      modifies this, Repr
      ensures Valid() && fresh(Repr - old(Repr))
      ensures View() == FlushHot(old(View()))
    {
      ghost var s := View();
      EmitHot();
      DropHot();
      NoHotView(hot);
      FlushHotOk(codec, s);
      assert View() == FlushHot(s);
    }

    /** Emits cold blocks. */
    method EmitCold(bufs: seq<Block>)
      requires PartsValid() && AllReadable(codec, bufs)
      modifies out, out.Repr, this`Repr
      ensures PartsValid() && fresh(Repr - old(Repr))
      ensures cold.cells == old(cold.cells) && unchanged(this`m, this`hot, this`hotCap)
      ensures out.emitted == old(out.emitted) + EventsOf(bufs)
    {
      out.FlushCold(bufs);
      Repr := Repr + out.Repr;
    }

    /** Empties one bucket. */
    method TakeCells(b: nat) returns (bufs: seq<Block>)
      requires PartsValid() && b < |cfg.sizes|
      modifies cold, cold.Repr, this`Repr
      ensures PartsValid() && fresh(Repr - old(Repr))
      ensures out.emitted == old(out.emitted) && unchanged(this`m, this`hot, this`hotCap)
      ensures bufs == InOrder(old(cold.cells)[b], cfg.ncells)
      ensures cold.cells == old(cold.cells)[b := map[]]
    {
      bufs := cold.Flush(b);
      Repr := Repr + cold.Repr;
    }

    /** Flushes one bucket; the locations that point into it are left to the caller. */
    method FlushCells(b: nat)
      requires Valid() && b < |cfg.sizes|
      modifies this, Repr
      ensures Valid() && fresh(Repr - old(Repr))
      ensures View() == FlushedCells(cfg, old(View()), b)
    {
      ghost var s := View();
      InOrderReadable(codec, s.cold[b], cfg.ncells);
      FlushedCellsOk(codec, cfg, s, b);
      var bufs := TakeCells(b);
      EmitCold(bufs);
      assert View() == FlushedCells(cfg, s, b);
    }

    /** Flushes one bucket and forgets the keys it held. */
    method FlushColdBucket(b: nat)
      requires Valid() && b < |cfg.sizes|
      modifies this, Repr
      ensures Valid() && fresh(Repr - old(Repr))
      ensures View() == FlushBucket(cfg, old(View()), b)
    {
      FlushCells(b);
      m := RemoveCold(m, b);
    }

    // -------------------------------------------------------------- storing

    method PutCell(b: nat, buf: seq<byte>, compressed: bool) returns (r: Option<nat>)
      requires PartsValid() && Configured()
      requires b < |cfg.sizes| && |buf| + PREFIX_LEN <= cfg.sizes[b]
      modifies cold, cold.Repr
      ensures PartsValid() && Repr == old(Repr) && out.emitted == old(out.emitted)
      ensures unchanged(this)
      ensures r == FirstFree(old(cold.cells)[b].Keys, cfg.ncells) && (r.Some? ==> r.value < cfg.ncells)
      ensures cold.cells == if r.None? then old(cold.cells) else
                              WithCell(old(cold.cells), b, r.value, Block(buf, compressed))
    {
      CellBytesSmall(cfg, b);
      FirstFreeInRange(cold.cells[b].Keys, cfg.ncells);
      r := cold.Put(b, buf, compressed);
    }

    method SetColdLocation(key: Key, b: nat, c: nat)
      requires b < MAX_BUCKETS && c < CELL_SPAN
      modifies this`m
      ensures Places(m) == Places(old(m))[key := InCold(b, c)]
    {
      PackRoundTrip(b, c);
      m := m[key := ColdLocation(b, c)];
    }

    /** Stores a block in a cell of bucket b, unless they are all busy. */
    method StoreInCell(key: Key, buf: seq<byte>, compressed: bool, b: nat) returns (done: bool)
      requires Valid() && codec.Readable(Block(buf, compressed))
      requires b < |cfg.sizes| && |buf| + PREFIX_LEN <= cfg.sizes[b]
      modifies this, Repr
      ensures Valid() && Repr == old(Repr)
      ensures match FirstFree(old(View()).cold[b].Keys, cfg.ncells)
              case None => !done && View() == old(View())
              case Some(c) => done && View() == StoreCold(old(View()), key, Block(buf, compressed), b, c)
    {
      ghost var s, blk := View(), Block(buf, compressed);
      var r := PutCell(b, buf, compressed);
      done := r.Some?;
      if done {
        StoreColdOk(codec, s, key, blk, b, r.value);
        Locate(key, b, r.value, s, blk);
      } else {
        assert View() == s;
      }
    }

    /** Completes the storing of a block by recording its cell. */
    method Locate(key: Key, b: nat, c: nat, ghost s: State, ghost blk: Block)
      requires Configured() && codec.Inverse() && PartsValid() && b < |s.cold| && b < MAX_BUCKETS && c < CELL_SPAN
      requires forall k | k in hot :: Framed(hot[k])
      requires View() == s.(cold := WithCell(s.cold, b, c, blk)) && StateOk(codec, StoreCold(s, key, blk, b, c))
      modifies this`m
      ensures Valid() && View() == StoreCold(s, key, blk, b, c)
    {
      SetColdLocation(key, b, c);
    }

    /** Appends a frame to the hot buffer of a key, or starts one. */
    method AppendHot(key: Key, buf: seq<byte>, compressed: bool)
      requires (forall k | k in hot :: Framed(hot[k])) && |buf| < TOP_BIT
      modifies this`hot, this`hotCap
      ensures forall k | k in hot :: Framed(hot[k])
      ensures var had := if key in HotView(old(hot)) then HotView(old(hot))[key] else [];
              HotView(hot) == HotView(old(hot))[key := had + [Block(buf, compressed)]]
      ensures hotCap == old(hotCap) + Block(buf, compressed).Length()
      ensures unchanged(this`m, this`Repr)
    {
      AppendedHotView(hot, key, Block(buf, compressed));
      var bbuf := if key in hot then hot[key] else [];
      var frame := PutUint32(Prefix(|buf|, compressed)) + buf;
      assert frame == Frame(Block(buf, compressed));
      hot := hot[key := bbuf + frame];
      hotCap := hotCap + |buf| + 4;
    }

    method StoreInHot(key: Key, buf: seq<byte>, compressed: bool)
      requires Valid() && codec.Readable(Block(buf, compressed)) && |buf| < TOP_BIT
      modifies this`hot, this`hotCap
      ensures Valid()
      ensures View() == StoreHot(old(View()), key, Block(buf, compressed))
    {
      ghost var s := View();
      StoreHotOk(codec, s, key, Block(buf, compressed));
      AppendHot(key, buf, compressed);
      assert View() == StoreHot(s, key, Block(buf, compressed));
    }

    method DropKey(key: Key) returns (bbuf: seq<byte>)
      requires (forall k | k in hot :: Framed(hot[k])) && key in hot
      modifies this`m, this`hot
      ensures Places(m) == Places(old(m)) - {key}
      ensures forall k | k in hot :: Framed(hot[k])
      ensures HotView(hot) == HotView(old(hot)) - {key}
      ensures Framed(bbuf) && Blocks(bbuf) == HotView(old(hot))[key] && |bbuf| == FramedLength(Blocks(bbuf))
    {
      DroppedHotView(hot, key);
      bbuf := hot[key];
      m := m - {key};
      hot := hot - {key};
    }

    /** Flushes the hot buffer of one key and forgets the key. */
    method EvictHotKey(key: Key)
      requires Valid() && key in hot
      modifies this, Repr
      ensures Valid() && fresh(Repr - old(Repr))
      ensures View() == EvictHot(old(View()), key)
    {
      ghost var s := View();
      EvictHotOk(codec, s, key);
      var bbuf := DropKey(key);
      EmitKey(bbuf);
      hotCap := hotCap - |bbuf|;
      assert View() == EvictHot(s, key);
    }

    method EmitKey(bbuf: seq<byte>)
      requires PartsValid() && Framed(bbuf) && AllReadable(codec, Blocks(bbuf))
      modifies out, out.Repr, this`Repr
      ensures PartsValid() && fresh(Repr - old(Repr))
      ensures cold.cells == old(cold.cells) && unchanged(this`m, this`hot, this`hotCap)
      ensures out.emitted == old(out.emitted) + multiset{HotFlush(Blocks(bbuf))}
    {
      out.FlushBlocks(bbuf);
      Repr := Repr + out.Repr;
    }

    method SetHotLocation(key: Key)
      requires Valid()
      modifies this`m
      ensures Valid() && View() == DeclareHot(old(View()), key)
    {
      m := m[key := HOT_CACHE_LOCATION];
      assert View() == DeclareHot(old(View()), key);
    }

    // -------------------------------------------------------------- operations

    /**
     * Puts a block in the cold cache if a bucket takes its size, in the hot one otherwise.
     * The result tells whether the call returns; a panic leaves the cache unusable.
     */
    method PutInCold(key: Key, buf: seq<byte>, compressed: bool) returns (ok: bool)
      requires Valid() && codec.Readable(Block(buf, compressed))
      modifies this, Repr
      ensures ok <==> CacheModel.PutInCold(cfg, old(View()), key, Block(buf, compressed)).Some?
      ensures ok ==> Valid() && fresh(Repr - old(Repr))
      ensures ok ==> View() == CacheModel.PutInCold(cfg, old(View()), key, Block(buf, compressed)).value
      decreases hotCap, 2
    {
      ghost var s := View();
      var bidx := cold.SmallestFitBucket(|buf|);
      if bidx.None? {
        PutUnfit(cfg, s, key, Block(buf, compressed));
        SetHotLocation(key);
        ok := PutInHot(key, buf, compressed);
      } else {
        PutFit(cfg, s, key, Block(buf, compressed), bidx.value);
        ok := StoreInBucket(key, buf, compressed, bidx.value);
      }
    }

    /** Stores a block in a bucket that takes its size, flushing the bucket if it is full. */
    method StoreInBucket(key: Key, buf: seq<byte>, compressed: bool, b: nat) returns (ok: bool)
      requires Valid() && codec.Readable(Block(buf, compressed))
      requires b < |cfg.sizes| && |buf| + PREFIX_LEN <= cfg.sizes[b]
      modifies this, Repr
      ensures Valid() && fresh(Repr - old(Repr))
      ensures ok <==> StoredInBucket(cfg, old(View()), key, Block(buf, compressed), b).Some?
      ensures ok ==> Some(View()) == StoredInBucket(cfg, old(View()), key, Block(buf, compressed), b)
    {
      ok := StoreInCell(key, buf, compressed, b);
      if !ok {
        FlushColdBucket(b);
        assert View().cold[b].Keys == {};
        ok := StoreInCell(key, buf, compressed, b);
      }
    }

    /** The block does not fit with the others: the hot part is flushed. */
    method FlushAndPut(key: Key, buf: seq<byte>, compressed: bool) returns (ok: bool)
      requires Valid() && codec.Readable(Block(buf, compressed)) && hotCap > 0
      modifies this, Repr
      ensures ok <==> CacheModel.PutInCold(cfg, CacheModel.FlushHot(old(View())), key, Block(buf, compressed)).Some?
      ensures ok ==> Valid() && fresh(Repr - old(Repr))
      ensures ok ==>
                Some(View()) == CacheModel.PutInCold(cfg, CacheModel.FlushHot(old(View())), key, Block(buf, compressed))
      decreases hotCap, 0
    {
      FlushHotCache();
      ok := PutInCold(key, buf, compressed);
    }

    /** The block does not fit with those of its key: their buffer is flushed. */
    method EvictAndPut(key: Key, buf: seq<byte>, compressed: bool) returns (ok: bool)
      requires Valid() && codec.Readable(Block(buf, compressed)) && key in hot && |hot[key]| > 0
      modifies this, Repr
      ensures ok <==>
              CacheModel.PutInCold(cfg, CacheModel.EvictHot(old(View()), key), key, Block(buf, compressed)).Some?
      ensures ok ==> Valid() && fresh(Repr - old(Repr))
      ensures ok ==>
                Some(View())
                == CacheModel.PutInCold(cfg, CacheModel.EvictHot(old(View()), key), key, Block(buf, compressed))
      decreases hotCap, 0
    {
      EvictHotKey(key);
      ok := PutInCold(key, buf, compressed);
    }

    /** Appends a block to the hot buffer of a key, flushing what its two limits ask for. */
    method PutInHot(key: Key, buf: seq<byte>, compressed: bool) returns (ok: bool)
      requires Valid() && codec.Readable(Block(buf, compressed))
      modifies this, Repr
      ensures ok <==> CacheModel.PutInHot(cfg, old(View()), key, Block(buf, compressed)).Some?
      ensures ok ==> Valid() && fresh(Repr - old(Repr))
      ensures ok ==> View() == CacheModel.PutInHot(cfg, old(View()), key, Block(buf, compressed)).value
      decreases hotCap, 1
    {
      var blen := |buf|;
      HotLengthKnown(hot, key);
      if blen + 4 > cfg.maxbuflen {
        ok := false;
      } else if hotCap + blen + 4 > cfg.maxcap {
        ok := FlushAndPut(key, buf, compressed);
      } else if key in hot && blen + |hot[key]| + 4 > cfg.maxbuflen {
        ok := EvictAndPut(key, buf, compressed);
      } else {
        StoreInHot(key, buf, compressed);
        ok := true;
      }
    }

    method ReadCell(b: nat, c: nat) returns (buf: seq<byte>, compressed: bool)
      requires PartsValid() && b < |cfg.sizes| && c in cold.cells[b]
      ensures Block(buf, compressed) == cold.cells[b][c]
    {
      buf, compressed := cold.Get(b, c);
    }

    method FreeCell(b: nat, c: nat)
      requires Valid() && b < |cfg.sizes| && c in cold.cells[b]
      modifies cold, cold.Repr
      ensures Valid() && View() == Freed(old(View()), b, c)
    {
      ghost var s := View();
      FreedOk(codec, s, b, c);
      cold.ClearCell(b, c);
      assert cold.cells == s.cold[b := s.cold[b] - {c}];
      assert View() == Freed(s, b, c);
      assert StateOk(codec, View());
    }

    /** Takes the block out of a cell and puts it in the hot cache. */
    method Reheat(key: Key, bidx: nat, cidx: nat) returns (ok: bool)
      requires Valid() && bidx < |cfg.sizes| && cidx in cold.cells[bidx]
      modifies this, Repr
      ensures var s := old(View());
              ok <==> CacheModel.PutInHot(cfg, Freed(s, bidx, cidx), key, s.cold[bidx][cidx]).Some?
      ensures ok ==> Valid() && fresh(Repr - old(Repr))
      ensures var s := old(View());
              ok ==> View() == CacheModel.PutInHot(cfg, Freed(s, bidx, cidx), key, s.cold[bidx][cidx]).value
    {
      ghost var s := View();
      assert codec.Readable(s.cold[bidx][cidx]);
      var l, compressed := ReadCell(bidx, cidx);
      assert Block(l, compressed) == s.cold[bidx][cidx];
      FreeCell(bidx, cidx);
      ok := PutInHot(key, l, compressed);
    }

    /** Moves the block of a key from its cell to the hot cache. */
    method MoveToHotCache(key: Key, loc: Location) returns (ok: bool)
      requires Valid()
      requires ColdBucketIdx(loc) < |cfg.sizes| && ColdCellIdx(loc) in cold.cells[ColdBucketIdx(loc)]
      modifies this, Repr
      ensures ok <==> MoveToHot(cfg, old(View()), key, ColdBucketIdx(loc), ColdCellIdx(loc)).Some?
      ensures ok ==> Valid() && fresh(Repr - old(Repr))
      ensures ok ==> View() == MoveToHot(cfg, old(View()), key, ColdBucketIdx(loc), ColdCellIdx(loc)).value
    {
      var bidx, cidx := ColdBucketIdx(loc), ColdCellIdx(loc);
      MoveUnfolds(cfg, View(), key, bidx, cidx);
      ok := Reheat(key, bidx, cidx);
      if ok {
        SetHotLocation(key);
      }
    }

    /**
     * Puts a buffer under a key. The call panics exactly when Accepts says so; otherwise it is
     * one Put of the model, and the invariant of the model holds after it as before.
     */
    method Put(key: Key, buf: seq<byte>) returns (ok: bool)
      requires Valid() && Inv(cfg, View())
      modifies this, Repr
      ensures ok <==> Accepts(cfg, old(View()), key, codec.Stored(compressionOn, buf))
      ensures ok ==> Valid() && Inv(cfg, View()) && fresh(Repr - old(Repr))
      ensures ok ==> CacheModel.Put(cfg, old(View()), key, codec.Stored(compressionOn, buf)) == Some(View())
      ensures ok ==> CacheFlushes.PutDone(cfg, old(View()), View(), key, codec.Stored(compressionOn, buf))
    {
      codec.StoredIsLossless(compressionOn, buf);
      PutKeepsInvariant(cfg, View(), key, codec.Stored(compressionOn, buf));
      if Accepts(cfg, View(), key, codec.Stored(compressionOn, buf)) {
        CacheFlushes.PutDoes(cfg, View(), key, codec.Stored(compressionOn, buf));
      }
      var data, compressed := buf, false;
      if compressionOn {
        var zbuf := codec.compress(buf);
        compressed := zbuf.Some?;
        if compressed {
          data := zbuf.value;
        }
      }
      assert Block(data, compressed) == codec.Stored(compressionOn, buf);
      ok := PutBlock(key, data, compressed);
    }

    method PutBlock(key: Key, data: seq<byte>, compressed: bool) returns (ok: bool)
      requires Valid() && Inv(cfg, View()) && codec.Readable(Block(data, compressed))
      modifies this, Repr
      ensures ok <==> CacheModel.Put(cfg, old(View()), key, Block(data, compressed)).Some?
      ensures ok ==> Valid() && fresh(Repr - old(Repr))
      ensures ok ==> View() == CacheModel.Put(cfg, old(View()), key, Block(data, compressed)).value
    {
      if key in m {
        ghost var s := View();
        var loc := m[key];
        assert s.places[key] == Unpack(loc) && Occupied(s, s.places[key]);
        if IsCold(loc) {
          ok := MoveToHotCache(key, loc);
          if !ok {
            return;
          }
        }
        ok := PutInHot(key, data, compressed);
        return;
      }
      ok := PutInCold(key, data, compressed);
    }

    method FlushColdCache()
      requires Valid()
      modifies this, Repr
      ensures Valid() && fresh(Repr - old(Repr))
      ensures View() == ColdFlushed(cfg, old(View()), |cfg.sizes|)
    {
      ghost var s, owned := View(), Repr;
      for b := 0 to |cfg.sizes|
        invariant Valid() && |s.cold| == |cfg.sizes|
        invariant View() == ColdFlushed(cfg, s, b)
        invariant fresh(Repr - owned)
      {
        FlushCells(b);
      }
    }

    /** Flushes the whole cache. */
    method Flush()
      requires Valid() && Inv(cfg, View())
      modifies this, Repr
      ensures Valid() && Inv(cfg, View()) && fresh(Repr - old(Repr))
      ensures View() == CacheModel.Flush(cfg, old(View()))
    {
      ghost var s := View();
      FlushKeepsInvariant(cfg, s);
      FlushInParts(cfg, s);
      FlushBothParts();
      ResetLocations();
    }

    method FlushBothParts()
      requires Valid()
      modifies this, Repr
      ensures Valid() && fresh(Repr - old(Repr))
      ensures View() == CacheModel.FlushHot(ColdFlushed(cfg, old(View()), |cfg.sizes|))
    {
      FlushColdCache();
      FlushHotCache();
    }

    method ResetLocations()
      requires Valid()
      modifies this`m
      ensures Valid() && View() == old(View()).(places := map[])
    {
      m := map[];
      assert Places(m) == map[];
    }
  }

  ghost function StoredInBucket(cfg: Config, s: State, key: Key, blk: Block, b: nat): Option<State>
    requires b < |s.cold|
  {
    match FirstFree(s.cold[b].Keys, cfg.ncells)
    case Some(c) => Some(StoreCold(s, key, blk, b, c))
    case None =>
      match FirstFree({}, cfg.ncells)
      case Some(c) => Some(StoreCold(FlushBucket(cfg, s, b), key, blk, b, c))
      case None => None
  }

  lemma MoveUnfolds(cfg: Config, s: State, key: Key, b: nat, c: nat)
    requires cfg.Valid() && |s.cold| == |cfg.sizes| && Counted(s)
    requires b < |s.cold| && c in s.cold[b]
    ensures Counted(Freed(s, b, c))
    ensures MoveToHot(cfg, s, key, b, c) ==
            match PutInHot(cfg, Freed(s, b, c), key, s.cold[b][c])
            case None => None
            case Some(t) => Some(DeclareHot(t, key))
  {
  }

  lemma HotLengthKnown(m: map<Key, seq<byte>>, key: Key)
    requires forall k | k in m :: Framed(m[k])
    ensures key in m ==> FramedLength(HotView(m)[key]) == |m[key]|
  {
    if key in m { BlocksLength(m[key]); }
  }

  lemma PutUnfit(cfg: Config, s: State, key: Key, blk: Block)
    requires cfg.Valid() && |s.cold| == |cfg.sizes| && Counted(s)
    requires SmallestFit(cfg.sizes, |blk.payload|).None?
    ensures PutInCold(cfg, s, key, blk) == PutInHot(cfg, DeclareHot(s, key), key, blk)
  {
  }

  lemma PutFit(cfg: Config, s: State, key: Key, blk: Block, b: nat)
    requires cfg.Valid() && |s.cold| == |cfg.sizes| && Counted(s)
    requires SmallestFit(cfg.sizes, |blk.payload|) == Some(b)
    ensures PutInCold(cfg, s, key, blk) == StoredInBucket(cfg, s, key, blk, b)
  {
  }

  /** The first n buckets flushed, their locations still there. */
  ghost function ColdFlushed(cfg: Config, s: State, n: nat): (t: State)
    requires n <= |s.cold|
    ensures |t.cold| == |s.cold|
  {
    if n == 0 then s else FlushedCells(cfg, ColdFlushed(cfg, s, n - 1), n - 1)
  }

  lemma {:induction false} ColdFlushedMeans(cfg: Config, s: State, n: nat)
    requires n <= |s.cold|
    ensures ColdFlushed(cfg, s, n) ==
            s.(cold := EmptyBuckets(n) + s.cold[n..], emitted := s.emitted + AllColdEvents(cfg, s.cold[..n]))
  {
    if n == 0 {
      assert EmptyBuckets(0) + s.cold[0..] == s.cold;
    } else {
      ColdFlushedMeans(cfg, s, n - 1);
      EmptyNext(s.cold, n - 1);
      AllColdNext(cfg, s.cold, n - 1, s.emitted);
    }
  }

  lemma EmptyNext(cold: seq<map<nat, Block>>, m: nat)
    requires m < |cold|
    ensures (EmptyBuckets(m) + cold[m..])[m] == cold[m]
    ensures (EmptyBuckets(m) + cold[m..])[m := map[]] == EmptyBuckets(m + 1) + cold[m + 1..]
  {
  }

  lemma AllColdNext(cfg: Config, cold: seq<map<nat, Block>>, m: nat, before: multiset<Event>)
    requires m < |cold|
    ensures before + AllColdEvents(cfg, cold[..m]) + EventsOf(InOrder(cold[m], cfg.ncells))
            == before + AllColdEvents(cfg, cold[..m + 1])
  {
    assert cold[..m + 1][..m] == cold[..m];
    Regroup(before, AllColdEvents(cfg, cold[..m]), EventsOf(InOrder(cold[m], cfg.ncells)));
  }

  lemma AllColdFlushed(cfg: Config, s: State)
    ensures ColdFlushed(cfg, s, |s.cold|)
            == s.(cold := EmptyBuckets(|s.cold|), emitted := s.emitted + AllColdEvents(cfg, s.cold))
  {
    ColdFlushedMeans(cfg, s, |s.cold|);
    assert s.cold[..|s.cold|] == s.cold;
  }

  lemma FlushInParts(cfg: Config, s: State)
    requires |s.cold| == |cfg.sizes| && Counted(s)
    ensures CacheModel.FlushHot(ColdFlushed(cfg, s, |s.cold|)).(places := map[]) == CacheModel.Flush(cfg, s)
  {
    AllColdFlushed(cfg, s);
  }

  lemma FreedOk(codec: Codec, s: State, b: nat, c: nat)
    requires StateOk(codec, s) && b < |s.cold|
    ensures StateOk(codec, Freed(s, b, c))
  {
  }

  ghost function FlushedCells(cfg: Config, s: State, b: nat): State
    requires b < |s.cold|
  {
    s.(cold := s.cold[b := map[]], emitted := s.emitted + EventsOf(InOrder(s.cold[b], cfg.ncells)))
  }

  lemma FlushHotOk(codec: Codec, s: State)
    requires StateOk(codec, s)
    ensures StateOk(codec, FlushHot(s))
  {
  }

  lemma FlushedCellsOk(codec: Codec, cfg: Config, s: State, b: nat)
    requires StateOk(codec, s) && b < |s.cold|
    ensures StateOk(codec, FlushedCells(cfg, s, b))
  {
  }

  lemma CellBytesSmall(cfg: Config, b: nat)
    requires cfg.Valid() && Representable(cfg) && b < |cfg.sizes|
    ensures cfg.sizes[b] < TOP_BIT
  {
    var size, more := cfg.sizes[b], cfg.ncells - 64;
    assert more >= 0 && size * more >= 0;
    assert size * cfg.ncells == size * 64 + size * more;
  }

  lemma FirstFreeInRange(busy: set<nat>, ncells: nat)
    ensures FirstFree(busy, ncells).Some? ==> FirstFree(busy, ncells).value < ncells
  {
  }

  lemma StoreColdOk(codec: Codec, s: State, key: Key, blk: Block, b: nat, c: nat)
    requires StateOk(codec, s) && codec.Readable(blk) && b < |s.cold|
    ensures StateOk(codec, StoreCold(s, key, blk, b, c))
  {
  }

  lemma StoreHotOk(codec: Codec, s: State, key: Key, blk: Block)
    requires StateOk(codec, s) && codec.Readable(blk)
    ensures StateOk(codec, StoreHot(s, key, blk))
  {
  }

  lemma EvictHotOk(codec: Codec, s: State, key: Key)
    requires StateOk(codec, s) && key in s.hot
    ensures StateOk(codec, EvictHot(s, key))
  {
  }

  lemma DroppedHotView(m: map<Key, seq<byte>>, key: Key)
    requires (forall k | k in m :: Framed(m[k])) && key in m
    ensures HotView(m - {key}) == HotView(m) - {key}
    ensures HotView(m)[key] == Blocks(m[key]) && FramedLength(Blocks(m[key])) == |m[key]|
  {
    BlocksLength(m[key]);
  }

  lemma AppendedHotView(m: map<Key, seq<byte>>, key: Key, blk: Block)
    requires (forall k | k in m :: Framed(m[k])) && |blk.payload| < TOP_BIT
    ensures var buf := if key in m then m[key] else [];
            var had := if key in HotView(m) then HotView(m)[key] else [];
            && Framed(buf + Frame(blk))
            && HotView(m[key := buf + Frame(blk)]) == HotView(m)[key := had + [blk]]
  {
    var buf := if key in m then m[key] else [];
    AppendFrame(buf, blk);
    HotViewPut(m, key, buf + Frame(blk));
  }

  lemma NoHotView(m: map<Key, seq<byte>>)
    requires m == map[]
    ensures HotView(m) == map[]
  {
  }

  lemma {:induction false} InOrderReadable(codec: Codec, cells: map<nat, Block>, n: nat)
    requires forall c | c in cells :: codec.Readable(cells[c])
    ensures AllReadable(codec, InOrder(cells, n))
  {
    if n > 0 { InOrderReadable(codec, cells, n - 1); }
  }
}
