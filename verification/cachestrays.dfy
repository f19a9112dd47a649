/**
 * How a cell comes to hold a block that no key leads to. Config.OnFlush is documented as being
 * called once per key with the whole buffer for that key; CacheOnce shows that a flush does so exactly
 * when there is no such cell.
 */
module CacheStrays {
  import opened Bytes
  import opened Frames
  import opened CacheModel
  import opened CacheProofs
  import opened CacheLedger

  ghost predicate Referenced(s: State, b: nat, c: nat) {
    exists k :: k in s.places && s.places[k] == InCold(b, c)
  }

  /** Every occupied cell belongs to some key. */
  ghost predicate NoStrays(s: State) {
    forall b: nat, c: nat | b < |s.cold| && c in s.cold[b] :: Referenced(s, b, c)
  }

  ghost predicate NotCold(s: State, key: Key) {
    key in s.places ==> s.places[key] == InHot
  }

  /** An occupied cell that belongs to no key. */
  ghost predicate Stray(s: State, b: nat, c: nat) {
    b < |s.cold| && c in s.cold[b] && !Referenced(s, b, c)
  }

  ghost predicate NoNewStrays(s: State, t: State) {
    forall b: nat, c: nat | b < |t.cold| && c in t.cold[b] :: Referenced(t, b, c) || Stray(s, b, c)
  }

  lemma NoStraysAtAll(s: State, t: State)
    requires NoStrays(s) && NoNewStrays(s, t)
    ensures NoStrays(t)
  {
    forall b: nat, c: nat | b < |t.cold| && c in t.cold[b] ensures Referenced(t, b, c) {
      assert Referenced(t, b, c) || Stray(s, b, c);
    }
  }

  lemma StaysReferenced(s: State, t: State, key: Key)
    requires NotCold(s, key)
    requires |s.cold| == |t.cold|
    requires forall k | k in s.places && k != key && s.places[k].InCold?
                        && s.places[k].bucket < |t.cold| && s.places[k].cell in t.cold[s.places[k].bucket] ::
               k in t.places && t.places[k] == s.places[k]
    requires forall b: nat, c: nat | b < |t.cold| && c in t.cold[b] ::
               c in s.cold[b] || (key in t.places && t.places[key] == InCold(b, c))
    ensures NoNewStrays(s, t)
  {
    forall b: nat, c: nat | b < |t.cold| && c in t.cold[b] ensures Referenced(t, b, c) || Stray(s, b, c) {
      if Referenced(s, b, c) {
        var k :| k in s.places && s.places[k] == InCold(b, c);
        assert k in t.places && t.places[k] == InCold(b, c);
      }
    }
  }

  lemma StoreColdStrays(s: State, key: Key, blk: Block, b: nat, c: nat)
    requires b < |s.cold| && NotCold(s, key)
    ensures NoNewStrays(s, StoreCold(s, key, blk, b, c))
  {
    StaysReferenced(s, StoreCold(s, key, blk, b, c), key);
  }

  lemma FlushBucketStrays(cfg: Config, s: State, key: Key, b: nat)
    requires b < |s.cold| && NotCold(s, key)
    ensures NoNewStrays(s, FlushBucket(cfg, s, b)) && NotCold(FlushBucket(cfg, s, b), key)
  {
    StaysReferenced(s, FlushBucket(cfg, s, b), key);
  }

  lemma {:induction false} PutInColdStrays(cfg: Config, s: State, key: Key, blk: Block)
    requires cfg.Valid() && |s.cold| == |cfg.sizes| && Counted(s)
    requires NotCold(s, key)
    ensures PutInCold(cfg, s, key, blk).Some? ==> NoNewStrays(s, PutInCold(cfg, s, key, blk).value)
    decreases s.hotCap, 1
  {
    match SmallestFit(cfg.sizes, |blk.payload|)
    case None =>
      StaysReferenced(s, DeclareHot(s, key), key);
      PutInHotStrays(cfg, DeclareHot(s, key), key, blk);
    case Some(b) =>
      match FirstFree(s.cold[b].Keys, cfg.ncells)
      case Some(c) => StoreColdStrays(s, key, blk, b, c);
      case None =>
        FlushBucketStrays(cfg, s, key, b);
        match FirstFree({}, cfg.ncells)
        case Some(c) => StoreColdStrays(FlushBucket(cfg, s, b), key, blk, b, c);
        case None =>
  }

  lemma {:induction false} PutInHotStrays(cfg: Config, s: State, key: Key, blk: Block)
    requires cfg.Valid() && |s.cold| == |cfg.sizes| && Counted(s)
    requires NotCold(s, key)
    ensures PutInHot(cfg, s, key, blk).Some? ==> NoNewStrays(s, PutInHot(cfg, s, key, blk).value)
    decreases s.hotCap, 0
  {
    if blk.Length() > cfg.maxbuflen {
    } else if s.hotCap + blk.Length() > cfg.maxcap {
      StaysReferenced(s, FlushHot(s), key);
      PutInColdStrays(cfg, FlushHot(s), key, blk);
    } else if key in s.hot && FramedLength(s.hot[key]) + blk.Length() > cfg.maxbuflen {
      StaysReferenced(s, EvictHot(s, key), key);
      PutInColdStrays(cfg, EvictHot(s, key), key, blk);
    } else {
      StaysReferenced(s, StoreHot(s, key, blk), key);
    }
  }

  /** The guard of the hot flush, as met by the block that is being promoted. */
  ghost predicate Overtaken(cfg: Config, s: State, key: Key)
    requires Inv(cfg, s)
  {
    key in s.places && s.places[key].InCold? &&
    s.hotCap + s.cold[s.places[key].bucket][s.places[key].cell].Length() > cfg.maxcap
  }

  lemma RoomyMoveStrays(cfg: Config, s: State, key: Key, b: nat, c: nat)
    requires cfg.Valid() && Inv(cfg, s)
    requires key in s.places && s.places[key] == InCold(b, c) && !Overtaken(cfg, s, key)
    requires s.cold[b][c].Length() <= cfg.maxbuflen
    ensures MoveToHot(cfg, s, key, b, c).Some? && NoNewStrays(s, MoveToHot(cfg, s, key, b, c).value)
  {
    var t := DeclareHot(StoreHot(Freed(s, b, c), key, s.cold[b][c]), key);
    MovedStrays(s, t, key, b, c);
  }

  /** Only the cell of the key was freed, and only the place of the key changed. */
  lemma MovedStrays(s: State, t: State, key: Key, b: nat, c: nat)
    requires key in s.places && s.places[key] == InCold(b, c) && b < |s.cold|
    requires t.cold == s.cold[b := s.cold[b] - {c}]
    requires forall k | k in s.places && k != key :: k in t.places && t.places[k] == s.places[k]
    ensures NoNewStrays(s, t)
  {
    forall d: nat, e: nat | d < |t.cold| && e in t.cold[d] ensures Referenced(t, d, e) || Stray(s, d, e) {
      if Referenced(s, d, e) {
        var k :| k in s.places && s.places[k] == InCold(d, e);
        assert k != key && t.places[k] == InCold(d, e);
      }
    }
  }

  /** What cold insertion into a bucket leaves alone, and where the block is. */
  ghost predicate Lands(s: State, t: State, key: Key, blk: Block, d: nat, e: nat) {
    && t.hot == s.hot && t.hotCap == s.hotCap
    && key in t.places && t.places[key] == InCold(d, e)
    && d < |t.cold| && e in t.cold[d] && t.cold[d][e] == blk
  }

  lemma StoreColdLands(s: State, key: Key, blk: Block, b: nat, c: nat)
    requires b < |s.cold|
    ensures Lands(s, StoreCold(s, key, blk, b, c), key, blk, b, c)
  {
  }

  lemma FlushBucketLands(cfg: Config, s: State, key: Key, blk: Block, b: nat, c: nat)
    requires b < |s.cold|
    ensures Lands(s, StoreCold(FlushBucket(cfg, s, b), key, blk, b, c), key, blk, b, c)
  {
    StoreColdLands(FlushBucket(cfg, s, b), key, blk, b, c);
  }

  lemma ColdLands(cfg: Config, s: State, key: Key, blk: Block) returns (d: nat, e: nat)
    requires cfg.Valid() && |s.cold| == |cfg.sizes| && Counted(s)
    requires SmallestFit(cfg.sizes, |blk.payload|).Some?
    ensures PutInCold(cfg, s, key, blk).Some? && Lands(s, PutInCold(cfg, s, key, blk).value, key, blk, d, e)
  {
    d := SmallestFit(cfg.sizes, |blk.payload|).value;
    match FirstFree(s.cold[d].Keys, cfg.ncells)
    case Some(c) =>
      e := c;
      StoreColdLands(s, key, blk, d, c);
    case None =>
      var none: set<nat> := {};
      assert 0 !in none && 0 < cfg.ncells;
      FirstFreeExists(none, cfg.ncells);
      e := FirstFree(none, cfg.ncells).value;
      FlushBucketLands(cfg, s, key, blk, d, e);
  }

  lemma PutInColdLands(cfg: Config, s: State, key: Key, blk: Block) returns (d: nat, e: nat)
    requires cfg.Valid() && InvBut(cfg, s, Some(key)) && key !in s.hot
    requires SmallestFit(cfg.sizes, |blk.payload|).Some?
    ensures PutInCold(cfg, s, key, blk).Some?
    ensures var t := PutInCold(cfg, s, key, blk).value;
            Lands(s, t, key, blk, d, e) && forall l | l in t.places && l != key :: t.places[l] != InCold(d, e)
  {
    PutInColdKeeps(cfg, s, key, blk);
    d, e := ColdLands(cfg, s, key, blk);
  }

  /** The state left when the promoted block had to go back to a cold cell. */
  lemma OvertakenMove(cfg: Config, s: State, key: Key, b: nat, c: nat) returns (d: nat, e: nat)
    requires cfg.Valid() && Inv(cfg, s)
    requires key in s.places && s.places[key] == InCold(b, c) && Overtaken(cfg, s, key)
    requires s.cold[b][c].Length() <= cfg.maxbuflen
    ensures MoveToHot(cfg, s, key, b, c).Some?
    ensures var t := MoveToHot(cfg, s, key, b, c).value;
            && t.hot == map[] && t.hotCap == 0
            && key in t.places && t.places[key] == InHot
            && d < |t.cold| && e in t.cold[d] && t.cold[d][e] == s.cold[b][c]
            && !Referenced(t, d, e)
  {
    var f, blk := Freed(s, b, c), s.cold[b][c];
    FreedKeeps(cfg, s, key, b, c);
    FlushHotKeeps(cfg, f, key);
    d, e := PutInColdLands(cfg, FlushHot(f), key, blk);
    StrayAfter(FlushHot(f), PutInCold(cfg, FlushHot(f), key, blk).value, key, blk, d, e);
  }

  lemma StrayAfter(s: State, t: State, key: Key, blk: Block, d: nat, e: nat)
    requires Lands(s, t, key, blk, d, e) && forall l | l in t.places && l != key :: t.places[l] != InCold(d, e)
    ensures !Referenced(DeclareHot(t, key), d, e)
  {
  }

  /**
   * Put makes no cell a stray unless it promotes a block that no longer fits in the hot part. From a
   * state in which every cell belongs to a key it then does make one.
   */
  lemma PutStrays(cfg: Config, s: State, key: Key, blk: Block)
    requires cfg.Valid() && Inv(cfg, s) && Accepts(cfg, s, key, blk)
    ensures Put(cfg, s, key, blk).Some?
    ensures !Overtaken(cfg, s, key) ==> NoNewStrays(s, Put(cfg, s, key, blk).value)
    ensures NoStrays(s) ==> (NoStrays(Put(cfg, s, key, blk).value) <==> !Overtaken(cfg, s, key))
  {
    PutKeepsInvariant(cfg, s, key, blk);
    if Overtaken(cfg, s, key) {
      var d, e := OvertakenPut(cfg, s, key, blk);
    } else {
      RoomyPutStrays(cfg, s, key, blk);
      if NoStrays(s) { NoStraysAtAll(s, Put(cfg, s, key, blk).value); }
    }
  }

  lemma RoomyPutStrays(cfg: Config, s: State, key: Key, blk: Block)
    requires cfg.Valid() && Inv(cfg, s) && Accepts(cfg, s, key, blk) && !Overtaken(cfg, s, key)
    requires Put(cfg, s, key, blk).Some?
    ensures NoNewStrays(s, Put(cfg, s, key, blk).value)
  {
    if key !in s.places {
      PutInColdStrays(cfg, s, key, blk);
    } else if s.places[key].InHot? {
      PutInHotStrays(cfg, s, key, blk);
    } else {
      var b, c := s.places[key].bucket, s.places[key].cell;
      RoomyMoveStrays(cfg, s, key, b, c);
      PutInHotStrays(cfg, MoveToHot(cfg, s, key, b, c).value, key, blk);
    }
  }

  /** The old block sits in a cell of its own, and the new one starts a hot buffer without it. */
  lemma OvertakenPut(cfg: Config, s: State, key: Key, blk: Block) returns (d: nat, e: nat)
    requires cfg.Valid() && Inv(cfg, s) && Accepts(cfg, s, key, blk) && Overtaken(cfg, s, key)
    ensures Put(cfg, s, key, blk).Some?
    ensures var t := Put(cfg, s, key, blk).value;
            && key in t.hot && t.hot[key] == [blk]
            && d < |t.cold| && e in t.cold[d] && !Referenced(t, d, e)
            && t.cold[d][e] == s.cold[s.places[key].bucket][s.places[key].cell]
  {
    var b, c := s.places[key].bucket, s.places[key].cell;
    d, e := OvertakenMove(cfg, s, key, b, c);
    var t := MoveToHot(cfg, s, key, b, c).value;
    assert PutInHot(cfg, t, key, blk) == Some(StoreHot(t, key, blk));
    assert StoreHot(t, key, blk).places == t.places;
  }


  // ---------------------------------------------------------------- a run that shows it

  const TIGHT: Config := Config(24, 24, 64, [64])
  const EIGHT: seq<byte> := [1, 2, 3, 4, 5, 6, 7, 8]
  const OCTET: Block := Block(EIGHT, false)

  lemma FirstPut(s: State, key: Key)
    requires Inv(TIGHT, s) && key !in s.places && s.cold == [map[]]
    ensures var r := Put(TIGHT, s, key, OCTET);
            && r.Some? && key in r.value.places && r.value.places[key].InCold?
            && r.value.places[key].bucket == 0 && r.value.cold == [map[r.value.places[key].cell := OCTET]]
            && r.value.places.Keys == s.places.Keys + {key}
            && r.value.hot == s.hot && r.value.hotCap == s.hotCap
  {
    var none: set<nat> := {};
    assert 0 !in none;
    FirstFreeExists(none, 64);
    assert SmallestFit([64], 8) == Some(0);
    assert s.cold[0].Keys == none;
  }

  lemma SecondPut(s: State, key: Key)
    requires Inv(TIGHT, s) && key in s.places && s.places[key].InCold? && s.places[key].bucket == 0
    requires s.cold == [map[s.places[key].cell := OCTET]] && s.hot == map[] && s.hotCap == 0
    ensures var r := Put(TIGHT, s, key, OCTET);
            && r.Some? && r.value.cold == [map[]] && r.value.places.Keys == s.places.Keys
            && r.value.hotCap == 24
  {
    var c := s.places[key].cell;
    var t := MoveToHot(TIGHT, s, key, 0, c);
    assert t == Some(DeclareHot(StoreHot(Freed(s, 0, c), key, OCTET), key));
    assert t.value.hot[key] == [OCTET];
    assert FramedLength([OCTET]) == 12;
  }

  lemma RunSnoc(codec: Codec, ops: seq<Op>, key: Key)
    ensures Run(codec, false, TIGHT, ops + [OpPut(key, EIGHT)]) ==
            match Run(codec, false, TIGHT, ops)
            case None => None
            case Some(s) => Put(TIGHT, s, key, OCTET)
  {
    assert (ops + [OpPut(key, EIGHT)])[..|ops|] == ops;
  }

  lemma HotPartFilled(codec: Codec) returns (s: State)
    ensures Run(codec, false, TIGHT, [OpPut("a", EIGHT)] + [OpPut("a", EIGHT)]) == Some(s)
    ensures s.cold == [map[]] && s.places.Keys == {"a"} && s.hotCap == 24
  {
    RunSnoc(codec, [], "a");
    RunSnoc(codec, [OpPut("a", EIGHT)], "a");
    assert [] + [OpPut("a", EIGHT)] == [OpPut("a", EIGHT)];
    FirstPut(Init(TIGHT), "a");
    var s1 := Put(TIGHT, Init(TIGHT), "a", OCTET).value;
    PutKeepsInvariant(TIGHT, Init(TIGHT), "a", OCTET);
    SecondPut(s1, "a");
    s := Put(TIGHT, s1, "a", OCTET).value;
  }

  function TwiceEach(): seq<Op> {
    [OpPut("a", EIGHT)] + [OpPut("a", EIGHT)] + [OpPut("b", EIGHT)] + [OpPut("b", EIGHT)]
  }

  /**
   * Two keys put twice each: the second promotion finds the hot part full, and the two blocks of
   * "b" end up apart.
   */
  lemma TwoBlocksApart(codec: Codec) returns (s: State, d: nat, e: nat)
    ensures Run(codec, false, TIGHT, TwiceEach()) == Some(s)
    ensures "b" in s.hot && s.hot["b"] == [OCTET]
    ensures d < |s.cold| && e in s.cold[d] && s.cold[d][e] == OCTET && !Referenced(s, d, e)
  {
    var ops := [OpPut("a", EIGHT)] + [OpPut("a", EIGHT)];
    var s2 := HotPartFilled(codec);
    RunSnoc(codec, ops, "b");
    RunSnoc(codec, ops + [OpPut("b", EIGHT)], "b");
    FirstPut(s2, "b");
    var s3 := Put(TIGHT, s2, "b", OCTET).value;
    PutKeepsInvariant(TIGHT, s2, "b", OCTET);
    d, e := OvertakenPut(TIGHT, s3, "b", OCTET);
    s := Put(TIGHT, s3, "b", OCTET).value;
  }
}
