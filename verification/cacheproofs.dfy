/** What every call, and every run of calls, on the buffer cache keeps. */
module CacheProofs {
  import opened Bytes
  import opened Frames
  import opened CacheModel

  // ---------------------------------------------------------------- places and cells

  /** Where `key` stands after its block was stored. */
  ghost predicate Settled(t: State, key: Key) {
    && key in t.places
    && (key in t.hot <==> t.places[key] == InHot)
    && (t.places[key].InCold? ==>
          && Occupied(t, t.places[key])
          && forall l | l in t.places && l != key :: t.places[l] != t.places[key])
  }

  lemma SettledCompletes(cfg: Config, t: State, key: Key)
    requires InvBut(cfg, t, Some(key)) && Settled(t, key)
    ensures Inv(cfg, t)
  {
  }

  lemma FlushHotKeeps(cfg: Config, s: State, key: Key)
    requires InvBut(cfg, s, Some(key))
    ensures InvBut(cfg, FlushHot(s), Some(key))
  {
  }

  lemma FlushBucketKeeps(cfg: Config, s: State, key: Key, b: nat)
    requires b < |s.cold| && InvBut(cfg, s, Some(key))
    ensures InvBut(cfg, FlushBucket(cfg, s, b), Some(key))
  {
  }

  lemma StoreColdKeeps(cfg: Config, s: State, key: Key, blk: Block, b: nat, c: nat)
    requires InvBut(cfg, s, Some(key)) && key !in s.hot
    requires b < |s.cold| && c !in s.cold[b] && c < cfg.ncells && blk.Length() <= cfg.sizes[b]
    ensures InvBut(cfg, StoreCold(s, key, blk, b, c), Some(key))
    ensures Settled(StoreCold(s, key, blk, b, c), key)
  {
    var t := StoreCold(s, key, blk, b, c);
    forall l | l in t.places && l != key ensures t.places[l] != t.places[key] {
      assert Occupied(s, s.places[l]);
    }
  }

  lemma EvictHotKeeps(cfg: Config, s: State, key: Key)
    requires InvBut(cfg, s, Some(key)) && key in s.hot
    ensures InvBut(cfg, EvictHot(s, key), Some(key))
  {
  }

  lemma StoreHotKeeps(cfg: Config, s: State, key: Key, blk: Block)
    requires InvBut(cfg, s, Some(key))
    requires s.hotCap + blk.Length() <= cfg.maxcap
    requires (if key in s.hot then FramedLength(s.hot[key]) else 0) + blk.Length() <= cfg.maxbuflen
    ensures InvBut(cfg, StoreHot(s, key, blk), Some(key))
  {
    var had := if key in s.hot then s.hot[key] else [];
    var t := StoreHot(s, key, blk);
    FramedLengthSnoc(had, blk);
    assert t.hot == s.hot[key := had + [blk]] && t.places == s.places && t.cold == s.cold;
  }

  /**
   * Storing a new block succeeds exactly when a cell or the hot part can take its length;
   * in particular a bucket that was just flushed always has a free cell.
   */
  lemma {:induction false} PutInColdKeeps(cfg: Config, s: State, key: Key, blk: Block)
    requires cfg.Valid() && InvBut(cfg, s, Some(key)) && key !in s.hot
    ensures PutInCold(cfg, s, key, blk).Some? <==>
            SmallestFit(cfg.sizes, |blk.payload|).Some? || blk.Length() <= cfg.maxbuflen
    ensures PutInCold(cfg, s, key, blk).Some? ==>
              var t := PutInCold(cfg, s, key, blk).value;
              InvBut(cfg, t, Some(key)) && Settled(t, key)
    decreases s.hotCap, 1
  {
    match SmallestFit(cfg.sizes, |blk.payload|)
    case None =>
      DeclareHotKeeps(cfg, s, key);
      PutInHotKeeps(cfg, DeclareHot(s, key), key, blk);
    case Some(b) =>
      match FirstFree(s.cold[b].Keys, cfg.ncells)
      case Some(c) => StoreColdKeeps(cfg, s, key, blk, b, c);
      case None =>
        var none: set<nat> := {};
        assert 0 !in none && 0 < cfg.ncells;
        FirstFreeExists(none, cfg.ncells);
        FlushBucketKeeps(cfg, s, key, b);
        StoreColdKeeps(cfg, FlushBucket(cfg, s, b), key, blk, b, FirstFree({}, cfg.ncells).value);
  }

  lemma {:induction false} PutInHotKeeps(cfg: Config, s: State, key: Key, blk: Block)
    requires cfg.Valid() && InvBut(cfg, s, Some(key))
    ensures PutInHot(cfg, s, key, blk).Some? <==> blk.Length() <= cfg.maxbuflen
    ensures PutInHot(cfg, s, key, blk).Some? ==>
              var t := PutInHot(cfg, s, key, blk).value;
              && InvBut(cfg, t, Some(key))
              && (Settled(t, key) || (key in t.hot && t.places == s.places))
    decreases s.hotCap, 0
  {
    if blk.Length() > cfg.maxbuflen {
    } else if s.hotCap + blk.Length() > cfg.maxcap {
      FlushHotKeeps(cfg, s, key);
      PutInColdKeeps(cfg, FlushHot(s), key, blk);
    } else if key in s.hot && FramedLength(s.hot[key]) + blk.Length() > cfg.maxbuflen {
      EvictHotKeeps(cfg, s, key);
      PutInColdKeeps(cfg, EvictHot(s, key), key, blk);
    } else {
      StoreHotKeeps(cfg, s, key, blk);
    }
  }

  /** The blocks whose length decides whether Put panics. */
  ghost predicate Accepts(cfg: Config, s: State, key: Key, blk: Block)
    requires Inv(cfg, s)
  {
    if key !in s.places then
      SmallestFit(cfg.sizes, |blk.payload|).Some? || blk.Length() <= cfg.maxbuflen
    else
      && blk.Length() <= cfg.maxbuflen
      && (s.places[key].InCold? ==> s.cold[s.places[key].bucket][s.places[key].cell].Length() <= cfg.maxbuflen)
  }

  /** Put panics exactly when it says so up front, and otherwise keeps the invariant. */
  lemma PutKeepsInvariant(cfg: Config, s: State, key: Key, blk: Block)
    requires cfg.Valid() && Inv(cfg, s)
    ensures Put(cfg, s, key, blk).Some? <==> Accepts(cfg, s, key, blk)
    ensures Put(cfg, s, key, blk).Some? ==> Inv(cfg, Put(cfg, s, key, blk).value)
    ensures Put(cfg, s, key, blk).Some? ==> key in Put(cfg, s, key, blk).value.places
  {
    assert InvBut(cfg, s, Some(key));
    if key !in s.places {
      PutInColdKeeps(cfg, s, key, blk);
    } else if s.places[key].InHot? {
      PutSeenKeeps(cfg, s, key, blk);
    } else {
      var b, c := s.places[key].bucket, s.places[key].cell;
      MoveToHotKeeps(cfg, s, key, b, c);
      var m := MoveToHot(cfg, s, key, b, c);
      if m.Some? {
        PutSeenKeeps(cfg, m.value, key, blk);
      }
    }
  }

  /** Appending to a key that is declared hot, even when its hot buffer was flushed meanwhile. */
  lemma PutSeenKeeps(cfg: Config, s: State, key: Key, blk: Block)
    requires cfg.Valid() && InvBut(cfg, s, Some(key))
    requires key in s.places && s.places[key] == InHot
    ensures PutInHot(cfg, s, key, blk).Some? <==> blk.Length() <= cfg.maxbuflen
    ensures PutInHot(cfg, s, key, blk).Some? ==>
              var t := PutInHot(cfg, s, key, blk).value;
              Inv(cfg, t) && key in t.places
  {
    PutInHotKeeps(cfg, s, key, blk);
    var r := PutInHot(cfg, s, key, blk);
    if r.Some? {
      assert Settled(r.value, key);
      SettledCompletes(cfg, r.value, key);
    }
  }

  lemma MoveToHotKeeps(cfg: Config, s: State, key: Key, b: nat, c: nat)
    requires cfg.Valid() && Inv(cfg, s)
    requires key in s.places && s.places[key] == InCold(b, c)
    ensures MoveToHot(cfg, s, key, b, c).Some? <==> s.cold[b][c].Length() <= cfg.maxbuflen
    ensures MoveToHot(cfg, s, key, b, c).Some? ==>
              var t := MoveToHot(cfg, s, key, b, c).value;
              InvBut(cfg, t, Some(key)) && key in t.places && t.places[key] == InHot
  {
    var s0 := Freed(s, b, c);
    FreedKeeps(cfg, s, key, b, c);
    PutInHotKeeps(cfg, s0, key, s.cold[b][c]);
    var r := PutInHot(cfg, s0, key, s.cold[b][c]);
    if r.Some? {
      DeclareHotKeeps(cfg, r.value, key);
    }
  }

  lemma DeclareHotKeeps(cfg: Config, s: State, key: Key)
    requires InvBut(cfg, s, Some(key))
    ensures InvBut(cfg, DeclareHot(s, key), Some(key))
  {
  }

  lemma FreedKeeps(cfg: Config, s: State, key: Key, b: nat, c: nat)
    requires Inv(cfg, s)
    requires key in s.places && s.places[key] == InCold(b, c)
    ensures InvBut(cfg, Freed(s, b, c), Some(key))
  {
    var t := Freed(s, b, c);
    forall k | k in t.places && k != key ensures Occupied(t, t.places[k]) {
      assert Occupied(s, s.places[k]) && s.places[k] != s.places[key];
    }
  }

  lemma FlushKeepsInvariant(cfg: Config, s: State)
    requires Inv(cfg, s)
    ensures Inv(cfg, Flush(cfg, s))
  {
  }

  lemma InitInvariant(cfg: Config)
    ensures Inv(cfg, Init(cfg))
  {
  }
}
