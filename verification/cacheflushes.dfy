/** What one Put hands to the flush callback, said by the limits and the free cells it meets. */
module CacheFlushes {
  import opened Bytes
  import opened Frames
  import opened CacheModel
  import opened CacheProofs
  import opened CacheLedger
  import opened CacheStrays
  import opened CacheKeys
  import CacheOnce

  /** Some cell of the bucket is free. */
  ghost predicate Roomy(cfg: Config, cells: map<nat, Block>) {
    exists c: nat :: c < cfg.ncells && c !in cells
  }

  /** The events of a bucket that has to make room for a block, if one takes it and is full. */
  ghost function Spill(cfg: Config, cold: seq<map<nat, Block>>, blk: Block): multiset<Event>
    requires |cold| == |cfg.sizes|
  {
    match SmallestFit(cfg.sizes, |blk.payload|)
    case None => multiset{}
    case Some(b) => if Roomy(cfg, cold[b]) then multiset{} else EventsOf(InOrder(cold[b], cfg.ncells))
  }

  /** The block went to cell c of bucket b. */
  ghost predicate InCell(s: State, t: State, key: Key, blk: Block, b: nat, c: nat)
    requires b < |s.cold|
  {
    && c !in s.cold[b] && t.cold == WithCell(s.cold, b, c, blk)
    && t.places == s.places[key := InCold(b, c)]
  }

  /** The block went to a free cell, and that is all that changed. */
  ghost predicate Added(cfg: Config, s: State, t: State, key: Key, blk: Block, b: nat)
    requires b < |s.cold|
  {
    && t.emitted == s.emitted && t.hot == s.hot && t.hotCap == s.hotCap
    && exists c: nat :: c < cfg.ncells && InCell(s, t, key, blk, b, c)
  }

  /** The bucket was emptied and its keys forgotten, and the block is alone in it. */
  ghost predicate Replaced(cfg: Config, s: State, t: State, key: Key, blk: Block, b: nat)
    requires b < |s.cold|
  {
    && t.emitted == s.emitted + EventsOf(InOrder(s.cold[b], cfg.ncells)) && t.hot == s.hot && t.hotCap == s.hotCap
    && |t.cold| == |s.cold| && (forall d | 0 <= d < |s.cold| && d != b :: t.cold[d] == s.cold[d])
    && key in t.places
    && (exists c: nat :: c < cfg.ncells && t.cold[b] == map[c := blk] && t.places[key] == InCold(b, c))
    && forall k | k != key ::
         && (k in t.places <==> k in s.places && !(s.places[k].InCold? && s.places[k].bucket == b))
         && (k in t.places ==> t.places[k] == s.places[k])
  }

  /** A bucket that takes the block is flushed if it is full, and not otherwise. */
  ghost predicate FlushedIfFull(cfg: Config, s: State, t: State, key: Key, blk: Block)
    requires |s.cold| == |cfg.sizes|
  {
    match SmallestFit(cfg.sizes, |blk.payload|)
    case Some(b) => if Roomy(cfg, s.cold[b]) then Added(cfg, s, t, key, blk, b) else Replaced(cfg, s, t, key, blk, b)
    case None => true
  }

  lemma RoomyIff(cfg: Config, cells: map<nat, Block>)
    ensures FirstFree(cells.Keys, cfg.ncells).Some? <==> Roomy(cfg, cells)
    ensures FirstFree(cells.Keys, cfg.ncells).Some? ==>
              var c := FirstFree(cells.Keys, cfg.ncells).value; c < cfg.ncells && c !in cells
  {
    FirstFreeExists(cells.Keys, cfg.ncells);
  }

  lemma EmptyRoomy(cfg: Config)
    requires cfg.Valid()
    ensures var none: set<nat> := {};
            FirstFree(none, cfg.ncells).Some? && FirstFree(none, cfg.ncells).value < cfg.ncells
  {
    var none: map<nat, Block> := map[];
    assert 0 !in none && 0 < cfg.ncells;
    RoomyIff(cfg, none);
    assert none.Keys == {};
  }

  lemma StoreAdds(cfg: Config, s: State, key: Key, blk: Block, b: nat, c: nat)
    requires b < |s.cold| && c < cfg.ncells && c !in s.cold[b]
    ensures Added(cfg, s, StoreCold(s, key, blk, b, c), key, blk, b)
  {
    assert InCell(s, StoreCold(s, key, blk, b, c), key, blk, b, c);
  }

  lemma StoreReplaces(cfg: Config, s: State, key: Key, blk: Block, b: nat, c: nat)
    requires b < |s.cold| && c < cfg.ncells
    ensures Replaced(cfg, s, StoreCold(FlushBucket(cfg, s, b), key, blk, b, c), key, blk, b)
  {
    var t := StoreCold(FlushBucket(cfg, s, b), key, blk, b, c);
    assert t.cold[b] == map[c := blk];
  }

  /** A bucket is flushed only when all its cells are busy. */
  lemma ColdPutDoes(cfg: Config, s: State, key: Key, blk: Block, b: nat)
    requires cfg.Valid() && |s.cold| == |cfg.sizes| && Counted(s)
    requires SmallestFit(cfg.sizes, |blk.payload|) == Some(b)
    ensures PutInCold(cfg, s, key, blk).Some?
    ensures var t := PutInCold(cfg, s, key, blk).value;
            if Roomy(cfg, s.cold[b]) then Added(cfg, s, t, key, blk, b) else Replaced(cfg, s, t, key, blk, b)
  {
    RoomyIff(cfg, s.cold[b]);
    EmptyRoomy(cfg);
    match FirstFree(s.cold[b].Keys, cfg.ncells)
    case Some(c) => StoreAdds(cfg, s, key, blk, b, c);
    case None => StoreReplaces(cfg, s, key, blk, b, FirstFree({}, cfg.ncells).value);
  }

  /** The block starts the hot buffer of its key, and that is all that changed. */
  ghost predicate Started(s: State, t: State, key: Key, blk: Block) {
    && t.emitted == s.emitted && t.cold == s.cold && t.places == s.places[key := InHot]
    && t.hot == s.hot[key := [blk]] && t.hotCap == s.hotCap + blk.Length()
  }

  /** Every hot buffer was flushed and its key forgotten, and the block is alone in the hot part. */
  ghost predicate Restarted(s: State, t: State, key: Key, blk: Block) {
    && t.emitted == s.emitted + HotEvents(s.hot) && t.cold == s.cold
    && t.hot == map[key := [blk]] && t.hotCap == blk.Length() && key in t.places && t.places[key] == InHot
    && forall k | k != key ::
         && (k in t.places <==> k in s.places && s.places[k] != InHot)
         && (k in t.places ==> t.places[k] == s.places[k])
  }

  lemma StoreHotStarts(s: State, key: Key, blk: Block)
    requires Counted(s) && key !in s.hot
    ensures Started(s, StoreHot(DeclareHot(s, key), key, blk), key, blk)
  {
    var t := StoreHot(DeclareHot(s, key), key, blk);
    assert t.hot == s.hot[key := [] + [blk]] && [] + [blk] == [blk];
  }

  lemma FlushHotRestarts(s: State, t: State, key: Key, blk: Block)
    requires Started(FlushHot(DeclareHot(s, key)), t, key, blk)
    ensures Restarted(s, t, key, blk)
  {
  }

  /** A block that no cell takes goes to the hot part, which is flushed only when it would get too large. */
  lemma LargePutDoes(cfg: Config, s: State, key: Key, blk: Block)
    requires cfg.Valid() && |s.cold| == |cfg.sizes| && Counted(s) && key !in s.hot
    requires SmallestFit(cfg.sizes, |blk.payload|).None? && blk.Length() <= cfg.maxbuflen
    ensures PutInCold(cfg, s, key, blk).Some?
    ensures var t := PutInCold(cfg, s, key, blk).value;
            if s.hotCap + blk.Length() <= cfg.maxcap then Started(s, t, key, blk) else Restarted(s, t, key, blk)
  {
    var h := DeclareHot(s, key);
    assert PutInCold(cfg, s, key, blk) == PutInHot(cfg, h, key, blk);
    if s.hotCap + blk.Length() <= cfg.maxcap {
      LargePutFits(cfg, s, key, blk);
    } else {
      var u := FlushHot(h);
      LargePutFits(cfg, u, key, blk);
      FlushHotRestarts(s, PutInCold(cfg, u, key, blk).value, key, blk);
    }
  }

  lemma LargePutFits(cfg: Config, s: State, key: Key, blk: Block)
    requires cfg.Valid() && |s.cold| == |cfg.sizes| && Counted(s) && key !in s.hot
    requires SmallestFit(cfg.sizes, |blk.payload|).None? && blk.Length() <= cfg.maxbuflen
    requires s.hotCap + blk.Length() <= cfg.maxcap
    ensures PutInCold(cfg, s, key, blk).Some? && Started(s, PutInCold(cfg, s, key, blk).value, key, blk)
  {
    StoreHotStarts(s, key, blk);
    assert PutInCold(cfg, s, key, blk) == PutInHot(cfg, DeclareHot(s, key), key, blk);
  }

  /** Inserting a block for which the hot part has room emits no more than a full bucket. */
  lemma InsertSpills(cfg: Config, s: State, key: Key, blk: Block)
    requires cfg.Valid() && |s.cold| == |cfg.sizes| && Counted(s) && key !in s.hot
    requires blk.Length() <= cfg.maxbuflen && s.hotCap + blk.Length() <= cfg.maxcap
    ensures PutInCold(cfg, s, key, blk).Some?
    ensures var t := PutInCold(cfg, s, key, blk).value;
            && t.emitted == s.emitted + Spill(cfg, s.cold, blk)
            && t.hot == if SmallestFit(cfg.sizes, |blk.payload|).Some? then s.hot else s.hot[key := [blk]]
  {
    match SmallestFit(cfg.sizes, |blk.payload|)
    case None => LargePutFits(cfg, s, key, blk);
    case Some(b) => ColdPutDoes(cfg, s, key, blk, b);
  }

  /** The block follows those of its key, and that is all that changed. */
  ghost predicate Appended(s: State, t: State, key: Key, blk: Block) {
    && t.emitted == s.emitted && t.cold == s.cold && t.places == s.places
    && t.hot == s.hot[key := HotBlocks(s, key) + [blk]] && t.hotCap == s.hotCap + blk.Length()
  }

  /** What hot insertion does: all hot buffers go, or that of the key, or none, as the two limits say. */
  ghost predicate HotPut(cfg: Config, s: State, t: State, key: Key, blk: Block)
    requires |s.cold| == |cfg.sizes|
  {
    if s.hotCap + blk.Length() > cfg.maxcap then
      && t.emitted == s.emitted + HotEvents(s.hot) + Spill(cfg, s.cold, blk)
      && t.hot == if SmallestFit(cfg.sizes, |blk.payload|).Some? then map[] else map[key := [blk]]
    else if key in s.hot && FramedLength(s.hot[key]) + blk.Length() > cfg.maxbuflen then
      && t.emitted == s.emitted + multiset{HotFlush(s.hot[key])} + Spill(cfg, s.cold, blk)
      && t.hot == if SmallestFit(cfg.sizes, |blk.payload|).Some? then s.hot - {key} else s.hot[key := [blk]]
    else Appended(s, t, key, blk)
  }

  lemma HotPutDoes(cfg: Config, s: State, key: Key, blk: Block)
    requires cfg.Valid() && |s.cold| == |cfg.sizes| && Counted(s) && blk.Length() <= cfg.maxbuflen
    ensures PutInHot(cfg, s, key, blk).Some? && HotPut(cfg, s, PutInHot(cfg, s, key, blk).value, key, blk)
  {
    if s.hotCap + blk.Length() > cfg.maxcap {
      InsertSpills(cfg, FlushHot(s), key, blk);
    } else if key in s.hot && FramedLength(s.hot[key]) + blk.Length() > cfg.maxbuflen {
      EvictPutDoes(cfg, s, key, blk);
    } else {
      StoreHotAppends(s, key, blk);
    }
  }

  lemma StoreHotAppends(s: State, key: Key, blk: Block)
    requires Counted(s)
    ensures Appended(s, StoreHot(s, key, blk), key, blk)
  {
    assert StoreHot(s, key, blk).hot == s.hot[key := HotBlocks(s, key) + [blk]];
  }

  lemma EvictPutDoes(cfg: Config, s: State, key: Key, blk: Block)
    requires cfg.Valid() && |s.cold| == |cfg.sizes| && Counted(s) && blk.Length() <= cfg.maxbuflen
    requires s.hotCap + blk.Length() <= cfg.maxcap && key in s.hot
    ensures var r := PutInCold(cfg, EvictHot(s, key), key, blk);
            && r.Some? && r.value.emitted == s.emitted + multiset{HotFlush(s.hot[key])} + Spill(cfg, s.cold, blk)
            && r.value.hot == if SmallestFit(cfg.sizes, |blk.payload|).Some? then s.hot - {key} else s.hot[key := [blk]]
  {
    var u := EvictHot(s, key);
    InsertSpills(cfg, u, key, blk);
    assert (s.hot - {key})[key := [blk]] == s.hot[key := [blk]];
  }

  // ---------------------------------------------------------------- Put

  /**
   * A key that is not in the cache: a bucket that takes the block is emptied exactly when it is full,
   * and if there is none the hot part exactly when it would get too large.
   */
  ghost predicate NewPut(cfg: Config, s: State, t: State, key: Key, blk: Block)
    requires |s.cold| == |cfg.sizes|
  {
    && FlushedIfFull(cfg, s, t, key, blk)
    && match SmallestFit(cfg.sizes, |blk.payload|)
       case Some(_) => true
       case None => if s.hotCap + blk.Length() <= cfg.maxcap then Started(s, t, key, blk) else Restarted(s, t, key, blk)
  }

  /** The block of a cold key was taken from its cell and the key made hot. */
  ghost predicate Promoted(s: State, t: State, key: Key, b: nat, c: nat)
    requires b < |s.cold| && c in s.cold[b]
  {
    && t.emitted == s.emitted && t.cold == s.cold[b := s.cold[b] - {c}] && t.places == s.places[key := InHot]
    && t.hot == s.hot[key := [s.cold[b][c]]] && t.hotCap == s.hotCap + s.cold[b][c].Length()
  }

  /**
   * A cold key: if its block fits in the hot part it is moved there and the new one is put as for a hot
   * key; otherwise all hot buffers go, the old block may push out a bucket, and the new one is alone.
   */
  ghost predicate PromotingPut(cfg: Config, s: State, t: State, key: Key, blk: Block, b: nat, c: nat)
    requires |s.cold| == |cfg.sizes| && b < |s.cold| && c in s.cold[b]
  {
    var moved := s.cold[b][c];
    if s.hotCap + moved.Length() <= cfg.maxcap
    then exists m: State :: |m.cold| == |cfg.sizes| && Promoted(s, m, key, b, c) && HotPut(cfg, m, t, key, blk)
    else
      && t.emitted == s.emitted + HotEvents(s.hot) + Spill(cfg, s.cold[b := s.cold[b] - {c}], moved)
      && t.hot == map[key := [blk]]
  }

  ghost predicate PutDone(cfg: Config, s: State, t: State, key: Key, blk: Block)
    requires Inv(cfg, s)
  {
    if key !in s.places then NewPut(cfg, s, t, key, blk)
    else match s.places[key]
      case InHot => HotPut(cfg, s, t, key, blk)
      case InCold(b, c) => assert Occupied(s, s.places[key]); PromotingPut(cfg, s, t, key, blk, b, c)
  }

  lemma NoLengths(hot: map<Key, seq<Block>>)
    ensures hot == map[] ==> Sum(Lengths(hot)) == 0
  {
    assert hot == map[] ==> Lengths(hot) == map[];
  }

  lemma EmptyPut(cfg: Config, m: State, key: Key, blk: Block)
    requires cfg.Valid() && |m.cold| == |cfg.sizes| && Counted(m) && m.hot == map[] && blk.Length() <= cfg.maxbuflen
    ensures var r := PutInHot(cfg, m, key, blk);
            r.Some? && r.value.emitted == m.emitted && r.value.hot == map[key := [blk]]
  {
    NoLengths(m.hot);
    HotPutDoes(cfg, m, key, blk);
    assert [] + [blk] == [blk];
  }

  lemma OvertakenDoes(cfg: Config, s: State, key: Key, blk: Block, b: nat, c: nat)
    requires cfg.Valid() && Inv(cfg, s) && key in s.places && s.places[key] == InCold(b, c)
    requires blk.Length() <= cfg.maxbuflen && s.cold[b][c].Length() <= cfg.maxbuflen
    requires s.hotCap + s.cold[b][c].Length() > cfg.maxcap
    ensures Put(cfg, s, key, blk).Some?
    ensures var t := Put(cfg, s, key, blk).value;
            && t.emitted == s.emitted + HotEvents(s.hot) + Spill(cfg, s.cold[b := s.cold[b] - {c}], s.cold[b][c])
            && t.hot == map[key := [blk]]
  {
    var f, was := Freed(s, b, c), s.cold[b][c];
    HotPutDoes(cfg, f, key, was);
    assert was.Length() <= cfg.sizes[b];
    EmptyPut(cfg, MoveToHot(cfg, s, key, b, c).value, key, blk);
  }

  lemma PromotingDoes(cfg: Config, s: State, key: Key, blk: Block, b: nat, c: nat)
    requires cfg.Valid() && Inv(cfg, s) && key in s.places && s.places[key] == InCold(b, c)
    requires blk.Length() <= cfg.maxbuflen && s.cold[b][c].Length() <= cfg.maxbuflen
    ensures Put(cfg, s, key, blk).Some? && PromotingPut(cfg, s, Put(cfg, s, key, blk).value, key, blk, b, c)
  {
    var f, was := Freed(s, b, c), s.cold[b][c];
    assert key !in s.hot;
    HotPutDoes(cfg, f, key, was);
    MoveToHotKeeps(cfg, s, key, b, c);
    var m := MoveToHot(cfg, s, key, b, c).value;
    HotPutDoes(cfg, m, key, blk);
    if s.hotCap + was.Length() <= cfg.maxcap {
      assert [] + [was] == [was];
      assert Promoted(s, m, key, b, c);
    } else {
      OvertakenDoes(cfg, s, key, blk, b, c);
    }
  }

  /** What a Put hands to the callback, and what it leaves in the hot part. */
  lemma PutDoes(cfg: Config, s: State, key: Key, blk: Block)
    requires cfg.Valid() && Inv(cfg, s) && Accepts(cfg, s, key, blk)
    ensures Put(cfg, s, key, blk).Some? && PutDone(cfg, s, Put(cfg, s, key, blk).value, key, blk)
  {
    if key !in s.places {
      match SmallestFit(cfg.sizes, |blk.payload|)
      case Some(b) => ColdPutDoes(cfg, s, key, blk, b);
      case None => LargePutDoes(cfg, s, key, blk);
    } else {
      match s.places[key]
      case InHot => HotPutDoes(cfg, s, key, blk);
      case InCold(b, c) => PromotingDoes(cfg, s, key, blk, b, c);
    }
  }

  // ---------------------------------------------------------------- nothing to flush

  /** There is room for the block where it goes, with the blocks of its key. */
  ghost predicate Fits(cfg: Config, s: State, key: Key, blk: Block)
    requires Inv(cfg, s)
  {
    if key !in s.places then
      match SmallestFit(cfg.sizes, |blk.payload|)
      case Some(b) => Roomy(cfg, s.cold[b])
      case None => s.hotCap + blk.Length() <= cfg.maxcap
    else
      assert Occupied(s, s.places[key]);
      var had := FramedLength(Before(s, key));
      && s.hotCap + (if s.places[key].InCold? then had else 0) + blk.Length() <= cfg.maxcap
      && had + blk.Length() <= cfg.maxbuflen
  }

  lemma BusyEvents(cfg: Config, cells: map<nat, Block>)
    requires cfg.Valid() && !Roomy(cfg, cells)
    ensures EventsOf(InOrder(cells, cfg.ncells)) != multiset{}
  {
    var c: nat := 0;
    assert c < cfg.ncells && c in cells;
    CacheOnce.CellEvent(cells, cfg.ncells, c);
    assert ColdFlush(cells[c]) in EventsOf(InOrder(cells, cfg.ncells));
  }

  lemma FilledEvents(s: State)
    requires Counted(s) && s.hotCap > 0
    ensures HotEvents(s.hot) != multiset{}
  {
    NoLengths(s.hot);
    var k :| k in s.hot;
    TotalPick(HotBags(s.hot), k);
    assert HotFlush(s.hot[k]) in HotEvents(s.hot);
  }

  lemma Same<T>(a: multiset<T>)
    ensures a == a + multiset{}
  {
  }

  lemma Both<T>(a: multiset<T>, x: multiset<T>, y: multiset<T>)
    requires x != multiset{}
    ensures (a + x) + y == a + (x + y) && x + y != multiset{}
  {
    var e :| e in x;
    assert e in x + y;
  }

  /** What a Put emits, which is nothing exactly when the block fits. */
  lemma PutEmits(cfg: Config, s: State, key: Key, blk: Block) returns (x: multiset<Event>)
    requires cfg.Valid() && Inv(cfg, s) && Accepts(cfg, s, key, blk)
    ensures Put(cfg, s, key, blk).Some? && Put(cfg, s, key, blk).value.emitted == s.emitted + x
    ensures x == multiset{} <==> Fits(cfg, s, key, blk)
  {
    PutDoes(cfg, s, key, blk);
    var t := Put(cfg, s, key, blk).value;
    if key !in s.places {
      x := NewEmits(cfg, s, t, key, blk);
    } else if s.places[key].InHot? {
      x := HotEmits(cfg, s, t, key, blk);
    } else {
      x := PromotingEmits(cfg, s, t, key, blk, s.places[key].bucket, s.places[key].cell);
    }
  }

  lemma NewEmits(cfg: Config, s: State, t: State, key: Key, blk: Block) returns (x: multiset<Event>)
    requires cfg.Valid() && Inv(cfg, s) && Accepts(cfg, s, key, blk) && key !in s.places && NewPut(cfg, s, t, key, blk)
    ensures t.emitted == s.emitted + x
    ensures x == multiset{} <==> Fits(cfg, s, key, blk)
  {
    x := multiset{};
    if !Fits(cfg, s, key, blk) {
      match SmallestFit(cfg.sizes, |blk.payload|)
      case Some(b) =>
        x := EventsOf(InOrder(s.cold[b], cfg.ncells));
        BusyEvents(cfg, s.cold[b]);
      case None =>
        x := HotEvents(s.hot);
        FilledEvents(s);
    } else {
      Same(s.emitted);
    }
  }

  lemma HotEmits(cfg: Config, s: State, t: State, key: Key, blk: Block) returns (x: multiset<Event>)
    requires cfg.Valid() && |s.cold| == |cfg.sizes| && Counted(s) && blk.Length() <= cfg.maxbuflen
    requires key in s.hot && HotPut(cfg, s, t, key, blk)
    ensures t.emitted == s.emitted + x
    ensures x == multiset{} <==>
            s.hotCap + blk.Length() <= cfg.maxcap && FramedLength(s.hot[key]) + blk.Length() <= cfg.maxbuflen
  {
    x := multiset{};
    var y := Spill(cfg, s.cold, blk);
    if s.hotCap + blk.Length() > cfg.maxcap {
      FilledEvents(s);
      x := HotEvents(s.hot) + y;
      Both(s.emitted, HotEvents(s.hot), y);
    } else if FramedLength(s.hot[key]) + blk.Length() > cfg.maxbuflen {
      x := multiset{HotFlush(s.hot[key])} + y;
      Both(s.emitted, multiset{HotFlush(s.hot[key])}, y);
    } else {
      Same(s.emitted);
    }
  }

  lemma PromotedCounted(s: State, m: State, key: Key, b: nat, c: nat)
    requires Counted(s) && b < |s.cold| && c in s.cold[b] && key !in s.hot && Promoted(s, m, key, b, c)
    ensures Counted(m)
  {
    StoreHotAppends(s, key, s.cold[b][c]);
    assert [] + [s.cold[b][c]] == [s.cold[b][c]];
    assert m.hot == StoreHot(s, key, s.cold[b][c]).hot;
  }

  lemma PromotingEmits(cfg: Config, s: State, t: State, key: Key, blk: Block, b: nat, c: nat)
      returns (x: multiset<Event>)
    requires cfg.Valid() && Inv(cfg, s) && Accepts(cfg, s, key, blk)
    requires key in s.places && s.places[key] == InCold(b, c) && b < |s.cold| && c in s.cold[b]
    requires PromotingPut(cfg, s, t, key, blk, b, c)
    ensures t.emitted == s.emitted + x
    ensures x == multiset{} <==> Fits(cfg, s, key, blk)
  {
    var was := s.cold[b][c];
    OneLength(was);
    if s.hotCap + was.Length() <= cfg.maxcap {
      var m: State :| |m.cold| == |cfg.sizes| && Promoted(s, m, key, b, c) && HotPut(cfg, m, t, key, blk);
      PromotedCounted(s, m, key, b, c);
      x := HotEmits(cfg, m, t, key, blk);
    } else {
      var y := Spill(cfg, s.cold[b := s.cold[b] - {c}], was);
      FilledEvents(s);
      x := HotEvents(s.hot) + y;
      Both(s.emitted, HotEvents(s.hot), y);
    }
  }

  lemma OneLength(b: Block)
    ensures FramedLength([b]) == b.Length()
  {
    FramedLengthSnoc([], b);
    assert [] + [b] == [b];
  }

  // ---------------------------------------------------------------- runs that flush nothing

  /** If the block fits, its key holds it after all it held, and the other keys hold what they did. */
  lemma FitsAppends(cfg: Config, s: State, key: Key, blk: Block, k: Key)
    requires cfg.Valid() && Inv(cfg, s) && Accepts(cfg, s, key, blk) && Fits(cfg, s, key, blk)
    ensures Put(cfg, s, key, blk).Some?
    ensures Before(Put(cfg, s, key, blk).value, k) == Before(s, k) + if k == key then [blk] else []
  {
    PutDoes(cfg, s, key, blk);
    var t := Put(cfg, s, key, blk).value;
    if key !in s.places {
      match SmallestFit(cfg.sizes, |blk.payload|)
      case Some(b) => AddedHolds(cfg, s, t, key, blk, b, k);
      case None => StartedHolds(cfg, s, t, key, blk, k);
    } else if s.places[key].InHot? {
      AppendedHolds(s, t, key, blk, k);
    } else {
      var b, c := s.places[key].bucket, s.places[key].cell;
      assert Occupied(s, s.places[key]);
      OneLength(s.cold[b][c]);
      var m: State :| |m.cold| == |cfg.sizes| && Promoted(s, m, key, b, c) && HotPut(cfg, m, t, key, blk);
      PromotedHolds(cfg, s, m, key, b, c, k);
      AppendedHolds(m, t, key, blk, k);
    }
  }

  lemma AddedHolds(cfg: Config, s: State, t: State, key: Key, blk: Block, b: nat, k: Key)
    requires Inv(cfg, s) && key !in s.places && b < |s.cold| && Added(cfg, s, t, key, blk, b)
    ensures Before(t, k) == Before(s, k) + if k == key then [blk] else []
  {
    var c: nat :| c < cfg.ncells && InCell(s, t, key, blk, b, c);
    if k == key {
      assert Before(s, k) == [] && Before(t, k) == [blk];
    } else {
      assert k in s.places ==> Occupied(s, s.places[k]);
      assert Before(t, k) == Before(s, k);
    }
  }

  lemma StartedHolds(cfg: Config, s: State, t: State, key: Key, blk: Block, k: Key)
    requires Inv(cfg, s) && key !in s.places && Started(s, t, key, blk)
    ensures Before(t, k) == Before(s, k) + if k == key then [blk] else []
  {
    if k == key {
      assert Before(s, k) == [] && Before(t, k) == [blk];
    } else {
      assert Before(t, k) == Before(s, k);
    }
  }

  lemma AppendedHolds(s: State, t: State, key: Key, blk: Block, k: Key)
    requires key in s.places && s.places[key] == InHot && Appended(s, t, key, blk)
    ensures Before(t, k) == Before(s, k) + if k == key then [blk] else []
  {
    if k != key { assert Before(t, k) == Before(s, k); }
  }

  lemma PromotedHolds(cfg: Config, s: State, m: State, key: Key, b: nat, c: nat, k: Key)
    requires Inv(cfg, s) && key in s.places && s.places[key] == InCold(b, c)
    requires b < |s.cold| && c in s.cold[b] && Promoted(s, m, key, b, c)
    ensures Before(m, k) == Before(s, k)
  {
    if k != key && k in s.places {
      assert s.places[k] != s.places[key];
    }
  }

  /** Every call is a Put of a block that fits. */
  ghost predicate AlwaysFits(codec: Codec, on: bool, cfg: Config, ops: seq<Op>)
    requires cfg.Valid() && Run(codec, on, cfg, ops).Some?
  {
    ops != [] ==>
      var before, last := ops[..|ops| - 1], ops[|ops| - 1];
      && AlwaysFits(codec, on, cfg, before)
      && last.OpPut? && Fits(cfg, Run(codec, on, cfg, before).value, last.key, codec.Stored(on, last.buf))
  }

  /**
   * Puts call back nothing exactly if every block fits, and then every key holds all that was put
   * under it, in order.
   */
  lemma {:induction false} RunQuietIff(codec: Codec, on: bool, cfg: Config, ops: seq<Op>)
    requires cfg.Valid() && Run(codec, on, cfg, ops).Some? && forall i | 0 <= i < |ops| :: ops[i].OpPut?
    ensures var s := Run(codec, on, cfg, ops).value;
            && (s.emitted == multiset{} <==> AlwaysFits(codec, on, cfg, ops))
            && (AlwaysFits(codec, on, cfg, ops) ==> forall k :: Before(s, k) == PutUnder(codec, on, ops, k))
  {
    if ops != [] {
      var before, last := ops[..|ops| - 1], ops[|ops| - 1];
      RunQuietIff(codec, on, cfg, before);
      var s, blk := Run(codec, on, cfg, before).value, codec.Stored(on, last.buf);
      PutKeepsInvariant(cfg, s, last.key, blk);
      var x := PutEmits(cfg, s, last.key, blk);
      if AlwaysFits(codec, on, cfg, ops) {
        forall k ensures Before(Put(cfg, s, last.key, blk).value, k) == PutUnder(codec, on, ops, k) {
          FitsAppends(cfg, s, last.key, blk, k);
        }
      }
    }
  }
}
