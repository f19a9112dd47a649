/** The blocks the cache holds for a key are blocks that were put under that key. */
module CacheKeys {
  import opened Bytes
  import opened Frames
  import opened CacheModel
  import opened CacheProofs
  import opened CacheLedger
  import opened CacheStrays

  ghost predicate Suffix(xs: seq<Block>, ys: seq<Block>) {
    |xs| <= |ys| && ys[|ys| - |xs|..] == xs
  }

  lemma SuffixSnoc(xs: seq<Block>, ys: seq<Block>, b: Block)
    requires Suffix(xs, ys)
    ensures Suffix(xs + [b], ys + [b])
  {
    assert (ys + [b])[|ys| - |xs|..] == ys[|ys| - |xs|..] + [b];
  }

  /** Of the blocks put under a key, a hot buffer holds the last ones, in order, and a cell the last one. */
  ghost predicate Recent(s: State, key: Key, put: seq<Block>) {
    && (key in s.hot ==> Suffix(s.hot[key], put))
    && (key in s.places && s.places[key].InCold? ==> put != [] && CellHolds(s, s.places[key], put[|put| - 1]))
  }

  ghost predicate CellHolds(s: State, p: Place, blk: Block)
    requires p.InCold?
  {
    p.bucket < |s.cold| && p.cell in s.cold[p.bucket] && s.cold[p.bucket][p.cell] == blk
  }

  // ---------------------------------------------------------------- keys not concerned

  /** What is held for a key is as it was, or gone. */
  ghost predicate Kept(s: State, t: State, key: Key) {
    && (key in t.hot ==> key in s.hot && t.hot[key] == s.hot[key])
    && (key in t.places && t.places[key].InCold? ==>
          && key in s.places && s.places[key] == t.places[key]
          && forall blk | CellHolds(s, t.places[key], blk) :: CellHolds(t, t.places[key], blk))
  }

  ghost predicate OthersKept(s: State, t: State, key: Key) {
    forall k | k != key :: Kept(s, t, k)
  }

  lemma KeptRecent(s: State, t: State, key: Key, put: seq<Block>)
    requires Recent(s, key, put) && Kept(s, t, key)
    ensures Recent(t, key, put)
  {
  }

  lemma StoreColdOthers(cfg: Config, s: State, key: Key, blk: Block, b: nat, c: nat)
    requires InvBut(cfg, s, Some(key)) && b < |s.cold| && c !in s.cold[b]
    ensures OthersKept(s, StoreCold(s, key, blk, b, c), key)
  {
  }

  lemma FlushBucketOthers(cfg: Config, s: State, key: Key, b: nat)
    requires b < |s.cold|
    ensures OthersKept(s, FlushBucket(cfg, s, b), key)
  {
  }

  lemma OthersTwice(s: State, t: State, u: State, key: Key)
    requires OthersKept(s, t, key) && OthersKept(t, u, key)
    ensures OthersKept(s, u, key)
  {
    forall k | k != key ensures Kept(s, u, k) {
      assert Kept(s, t, k) && Kept(t, u, k);
    }
  }

  /** What is held for the key is this block alone, if anything. */
  ghost predicate Only(t: State, key: Key, blk: Block) {
    && (key in t.hot ==> t.hot[key] == [blk])
    && (key in t.places && t.places[key].InCold? ==> CellHolds(t, t.places[key], blk))
  }

  lemma OnlyRecent(t: State, key: Key, blk: Block, put: seq<Block>)
    requires Only(t, key, blk)
    ensures Recent(t, key, put + [blk])
  {
  }

  // ---------------------------------------------------------------- the key concerned

  lemma {:induction false} PutInColdHeld(cfg: Config, s: State, key: Key, blk: Block)
    requires cfg.Valid() && InvBut(cfg, s, Some(key)) && key !in s.hot
    ensures PutInCold(cfg, s, key, blk).Some? ==>
              OthersKept(s, PutInCold(cfg, s, key, blk).value, key) && Only(PutInCold(cfg, s, key, blk).value, key, blk)
    decreases s.hotCap, 1
  {
    match SmallestFit(cfg.sizes, |blk.payload|)
    case None =>
      DeclareHotKeeps(cfg, s, key);
      DeclareHotOthers(s, key);
      PutInHotHeld(cfg, DeclareHot(s, key), key, blk);
      if PutInCold(cfg, s, key, blk).Some? {
        OthersTwice(s, DeclareHot(s, key), PutInCold(cfg, s, key, blk).value, key);
      }
    case Some(b) =>
      match FirstFree(s.cold[b].Keys, cfg.ncells)
      case Some(c) => StoreColdHeld(cfg, s, key, blk, b, c);
      case None =>
        match FirstFree({}, cfg.ncells)
        case Some(c) =>
          FlushBucketKeeps(cfg, s, key, b);
          FlushBucketOthers(cfg, s, key, b);
          StoreColdHeld(cfg, FlushBucket(cfg, s, b), key, blk, b, c);
          OthersTwice(s, FlushBucket(cfg, s, b), StoreCold(FlushBucket(cfg, s, b), key, blk, b, c), key);
        case None =>
  }

  lemma StoreColdHeld(cfg: Config, s: State, key: Key, blk: Block, b: nat, c: nat)
    requires InvBut(cfg, s, Some(key)) && key !in s.hot && b < |s.cold| && c !in s.cold[b]
    ensures OthersKept(s, StoreCold(s, key, blk, b, c), key) && Only(StoreCold(s, key, blk, b, c), key, blk)
  {
    StoreColdOthers(cfg, s, key, blk, b, c);
  }

  /** The blocks in the hot buffer of a key. */
  ghost function HotBlocks(s: State, key: Key): seq<Block> {
    if key in s.hot then s.hot[key] else []
  }

  lemma {:induction false} PutInHotHeld(cfg: Config, s: State, key: Key, blk: Block)
    requires cfg.Valid() && InvBut(cfg, s, Some(key))
    ensures PutInHot(cfg, s, key, blk).Some? ==> OthersKept(s, PutInHot(cfg, s, key, blk).value, key)
    ensures PutInHot(cfg, s, key, blk).Some? ==>
              var t := PutInHot(cfg, s, key, blk).value;
              || Only(t, key, blk)
              || (key in t.hot && t.hot[key] == HotBlocks(s, key) + [blk] && t.places == s.places)
    decreases s.hotCap, 0
  {
    if blk.Length() > cfg.maxbuflen {
    } else if s.hotCap + blk.Length() > cfg.maxcap {
      FlushHotKeeps(cfg, s, key);
      FlushHotOthers(s, key);
      PutInColdAfter(cfg, s, FlushHot(s), key, blk);
    } else if key in s.hot && FramedLength(s.hot[key]) + blk.Length() > cfg.maxbuflen {
      EvictHotKeeps(cfg, s, key);
      EvictHotOthers(s, key);
      PutInColdAfter(cfg, s, EvictHot(s, key), key, blk);
    } else {
      StoreHotOthers(s, key, blk);
    }
  }

  lemma PutInColdAfter(cfg: Config, s: State, t: State, key: Key, blk: Block)
    requires cfg.Valid() && InvBut(cfg, t, Some(key)) && key !in t.hot && OthersKept(s, t, key)
    ensures PutInCold(cfg, t, key, blk).Some? ==>
              OthersKept(s, PutInCold(cfg, t, key, blk).value, key) && Only(PutInCold(cfg, t, key, blk).value, key, blk)
    decreases t.hotCap, 2
  {
    PutInColdHeld(cfg, t, key, blk);
    if PutInCold(cfg, t, key, blk).Some? {
      OthersTwice(s, t, PutInCold(cfg, t, key, blk).value, key);
    }
  }

  lemma FlushHotOthers(s: State, key: Key)
    ensures OthersKept(s, FlushHot(s), key)
  {
  }

  lemma EvictHotOthers(s: State, key: Key)
    requires Counted(s) && key in s.hot
    ensures OthersKept(s, EvictHot(s, key), key)
  {
  }

  lemma StoreHotOthers(s: State, key: Key, blk: Block)
    requires Counted(s)
    ensures var t := StoreHot(s, key, blk);
            OthersKept(s, t, key) && key in t.hot && t.hot[key] == HotBlocks(s, key) + [blk] && t.places == s.places
  {
    var t := StoreHot(s, key, blk);
    assert t.hot == s.hot[key := HotBlocks(s, key) + [blk]] && t.places == s.places && t.cold == s.cold;
  }

  /** A promoted key holds its old block in a hot buffer, or that block became a stray. */
  lemma MoveToHotHeld(cfg: Config, s: State, key: Key, b: nat, c: nat)
    requires cfg.Valid() && Inv(cfg, s) && key in s.places && s.places[key] == InCold(b, c)
    ensures MoveToHot(cfg, s, key, b, c).Some? ==>
              var t := MoveToHot(cfg, s, key, b, c).value;
              && OthersKept(s, t, key) && key in t.places && t.places[key] == InHot
              && (key in t.hot ==> t.hot[key] == [s.cold[b][c]])
  {
    FreedKeeps(cfg, s, key, b, c);
    PutInHotHeld(cfg, Freed(s, b, c), key, s.cold[b][c]);
    var m := PutInHot(cfg, Freed(s, b, c), key, s.cold[b][c]);
    if m.Some? {
      FreedOthers(cfg, s, key, b, c);
      OthersTwice(s, Freed(s, b, c), m.value, key);
      DeclareHotOthers(m.value, key);
      OthersTwice(s, m.value, DeclareHot(m.value, key), key);
    }
  }

  lemma DeclareHotOthers(s: State, key: Key)
    ensures OthersKept(s, DeclareHot(s, key), key)
  {
  }

  lemma FreedOthers(cfg: Config, s: State, key: Key, b: nat, c: nat)
    requires Inv(cfg, s) && key in s.places && s.places[key] == InCold(b, c)
    ensures OthersKept(s, Freed(s, b, c), key)
  {
  }

  // ---------------------------------------------------------------- every run

  lemma PutRecent(cfg: Config, s: State, key: Key, blk: Block, k: Key, put: seq<Block>)
    requires cfg.Valid() && Inv(cfg, s) && Recent(s, k, put) && Put(cfg, s, key, blk).Some?
    ensures Recent(Put(cfg, s, key, blk).value, k, if k == key then put + [blk] else put)
  {
    PutHeld(cfg, s, key, blk);
    var t := Put(cfg, s, key, blk).value;
    if k != key {
      assert Kept(s, t, k);
      KeptRecent(s, t, k, put);
    } else if !Only(t, key, blk) {
      BeforeSuffix(s, key, put);
      SuffixSnoc(Before(s, key), put, blk);
    } else {
      OnlyRecent(t, key, blk, put);
    }
  }

  lemma BeforeSuffix(s: State, key: Key, put: seq<Block>)
    requires Recent(s, key, put)
    ensures Suffix(Before(s, key), put)
  {
  }

  /** The blocks of a key that are found by its place. */
  ghost function Before(s: State, key: Key): seq<Block> {
    if key in s.places && s.places[key].InCold? && Occupied(s, s.places[key])
    then [s.cold[s.places[key].bucket][s.places[key].cell]]
    else HotBlocks(s, key)
  }

  /** After Put a key holds the new block, either alone or after all that was found by its place. */
  lemma PutHeld(cfg: Config, s: State, key: Key, blk: Block)
    requires cfg.Valid() && Inv(cfg, s) && Put(cfg, s, key, blk).Some?
    ensures var t := Put(cfg, s, key, blk).value;
            && OthersKept(s, t, key)
            && (Only(t, key, blk)
                || (key in t.hot && t.hot[key] == Before(s, key) + [blk] && key in t.places && t.places[key] == InHot))
  {
    assert InvBut(cfg, s, Some(key));
    if key !in s.places {
      PutInColdHeld(cfg, s, key, blk);
    } else if s.places[key].InHot? {
      PutInHotHeld(cfg, s, key, blk);
    } else {
      var b, c := s.places[key].bucket, s.places[key].cell;
      MoveToHotHeld(cfg, s, key, b, c);
      MoveToHotKeeps(cfg, s, key, b, c);
      var m := MoveToHot(cfg, s, key, b, c).value;
      PutInHotHeld(cfg, m, key, blk);
      OthersTwice(s, m, Put(cfg, s, key, blk).value, key);
    }
  }

  /** The blocks stored for the buffers put under a key, in order. */
  ghost function PutUnder(codec: Codec, on: bool, ops: seq<Op>, key: Key): seq<Block> {
    if ops == [] then []
    else
      var last := ops[|ops| - 1];
      PutUnder(codec, on, ops[..|ops| - 1], key)
      + if last.OpPut? && last.key == key then [codec.Stored(on, last.buf)] else []
  }

  /** In every state of every run, each key holds the latest of what was put under it, and nothing else. */
  lemma {:induction false} RunRecent(codec: Codec, on: bool, cfg: Config, ops: seq<Op>, k: Key)
    requires cfg.Valid() && Run(codec, on, cfg, ops).Some?
    ensures Recent(Run(codec, on, cfg, ops).value, k, PutUnder(codec, on, ops, k))
  {
    if ops != [] {
      var before, last := ops[..|ops| - 1], ops[|ops| - 1];
      RunRecent(codec, on, cfg, before, k);
      var s, put := Run(codec, on, cfg, before).value, PutUnder(codec, on, before, k);
      match last
      case OpFlush =>
      case OpPut(key, buf) =>
        PutRecent(cfg, s, key, codec.Stored(on, buf), k, put);
        assert put + [] == put;
    }
  }
}
