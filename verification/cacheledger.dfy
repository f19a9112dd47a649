/** Nothing is lost, duplicated or altered between Put and the flush callback. */
module CacheLedger {
  import opened Bytes
  import opened Frames
  import opened CacheModel
  import opened CacheProofs

  type Text = seq<byte>

  // ---------------------------------------------------------------- how often a text occurs

  ghost function One(codec: Codec, b: Block, t: Text): nat {
    if codec.Plain(b) == t then 1 else 0
  }

  ghost function InBlocks(codec: Codec, bs: seq<Block>, t: Text): nat {
    if bs == [] then 0
    else InBlocks(codec, bs[..|bs| - 1], t) + One(codec, bs[|bs| - 1], t)
  }

  ghost function InEvent(codec: Codec, e: Event, t: Text): nat {
    match e
    case ColdFlush(b) => One(codec, b, t)
    case HotFlush(bs) => InBlocks(codec, bs, t)
  }

  /** How often t was handed to the flush callback. */
  ghost function Emitted(codec: Codec, events: multiset<Event>, t: Text): nat
    decreases |events|
  {
    if events == multiset{} then 0 else
      var e :| e in events;
      InEvent(codec, e, t) + Emitted(codec, events - multiset{e}, t)
  }

  ghost function HotCounts(codec: Codec, hot: map<Key, seq<Block>>, t: Text): map<Key, nat> {
    map k | k in hot :: InBlocks(codec, hot[k], t)
  }

  ghost function InCells(codec: Codec, cells: map<nat, Block>, n: nat, t: Text): nat {
    if n == 0 then 0
    else InCells(codec, cells, n - 1, t) + (if n - 1 in cells then One(codec, cells[n - 1], t) else 0)
  }

  ghost function InHotPart(codec: Codec, hot: map<Key, seq<Block>>, t: Text): nat {
    Sum(HotCounts(codec, hot, t))
  }

  ghost function InColdPart(codec: Codec, cold: seq<map<nat, Block>>, n: nat, t: Text): nat {
    if cold == [] then 0
    else InColdPart(codec, cold[..|cold| - 1], n, t) + InCells(codec, cold[|cold| - 1], n, t)
  }

  /** How often t is still held, in a cell some key refers to or not. */
  ghost function Resident(codec: Codec, cfg: Config, s: State, t: Text): nat {
    InColdPart(codec, s.cold, cfg.ncells, t) + InHotPart(codec, s.hot, t)
  }

  /** How often the cache has accepted t. */
  ghost function Ledger(codec: Codec, cfg: Config, s: State, t: Text): nat {
    Emitted(codec, s.emitted, t) + Resident(codec, cfg, s, t)
  }

  // ---------------------------------------------------------------- folds

  lemma {:induction false} EmittedPick(codec: Codec, events: multiset<Event>, e: Event, t: Text)
    requires e in events
    ensures Emitted(codec, events, t) == InEvent(codec, e, t) + Emitted(codec, events - multiset{e}, t)
    decreases |events|
  {
    var p :| p in events
             && Emitted(codec, events, t) == InEvent(codec, p, t) + Emitted(codec, events - multiset{p}, t);
    if p != e {
      EmittedPick(codec, events - multiset{p}, e, t);
      EmittedPick(codec, events - multiset{e}, p, t);
      assert events - multiset{p} - multiset{e} == events - multiset{e} - multiset{p};
    }
  }

  lemma {:induction false} EmittedSum(codec: Codec, a: multiset<Event>, b: multiset<Event>, t: Text)
    ensures Emitted(codec, a + b, t) == Emitted(codec, a, t) + Emitted(codec, b, t)
    decreases |b|
  {
    if b == multiset{} {
      assert a + b == a;
    } else {
      var e :| e in b;
      EmittedSum(codec, a, b - multiset{e}, t);
      EmittedPick(codec, b, e, t);
      EmittedPick(codec, a + b, e, t);
      assert a + b - multiset{e} == a + (b - multiset{e});
    }
  }

  lemma EmittedOne(codec: Codec, e: Event, t: Text)
    ensures Emitted(codec, multiset{e}, t) == InEvent(codec, e, t)
  {
    EmittedPick(codec, multiset{e}, e, t);
    assert multiset{e} - multiset{e} == multiset{};
  }

  /** Emitting bag by bag, one bag a key, emits what the bags hold together. */
  lemma {:induction false} EmittedTotal<K>(codec: Codec, bags: map<K, multiset<Event>>, counts: map<K, nat>, t: Text)
    requires bags.Keys == counts.Keys
    requires forall k | k in bags :: Emitted(codec, bags[k], t) == counts[k]
    ensures Emitted(codec, Total(bags), t) == Sum(counts)
    decreases |bags|
  {
    if k :| k in bags {
      TotalPick(bags, k);
      SumPick(counts, k);
      EmittedTotal(codec, bags - {k}, counts - {k}, t);
      EmittedSum(codec, bags[k], Total(bags - {k}), t);
    } else {
      assert bags == map[] && counts == map[];
    }
  }

  lemma EmittedSnoc(codec: Codec, bufs: seq<Block>, b: Block, t: Text)
    ensures Emitted(codec, EventsOf(bufs + [b]), t) == Emitted(codec, EventsOf(bufs), t) + One(codec, b, t)
  {
    EventsSnoc(bufs, b);
    EmittedSum(codec, multiset{ColdFlush(b)}, EventsOf(bufs), t);
    EmittedOne(codec, ColdFlush(b), t);
  }

  lemma {:induction false} EventsTell(codec: Codec, bufs: seq<Block>, t: Text)
    ensures Emitted(codec, EventsOf(bufs), t) == InBlocks(codec, bufs, t)
  {
    if bufs != [] {
      var init, b := bufs[..|bufs| - 1], bufs[|bufs| - 1];
      EventsTell(codec, init, t);
      EmittedSnoc(codec, init, b, t);
      assert bufs == init + [b];
    }
  }

  lemma InBlocksSnoc(codec: Codec, bufs: seq<Block>, b: Block, t: Text)
    ensures InBlocks(codec, bufs + [b], t) == InBlocks(codec, bufs, t) + One(codec, b, t)
  {
    assert (bufs + [b])[..|bufs|] == bufs;
  }

  lemma {:induction false} InOrderTells(codec: Codec, cells: map<nat, Block>, n: nat, t: Text)
    ensures InBlocks(codec, InOrder(cells, n), t) == InCells(codec, cells, n, t)
  {
    if n > 0 {
      InOrderTells(codec, cells, n - 1, t);
      InOrderNext(cells, n - 1);
      if n - 1 in cells {
        InBlocksSnoc(codec, InOrder(cells, n - 1), cells[n - 1], t);
      }
    }
  }

  lemma ColdEventsTell(codec: Codec, cells: map<nat, Block>, n: nat, t: Text)
    ensures Emitted(codec, EventsOf(InOrder(cells, n)), t) == InCells(codec, cells, n, t)
  {
    EventsTell(codec, InOrder(cells, n), t);
    InOrderTells(codec, cells, n, t);
  }

  lemma EventsSnoc(bufs: seq<Block>, b: Block)
    ensures EventsOf(bufs + [b]) == multiset{ColdFlush(b)} + EventsOf(bufs)
  {
    assert (bufs + [b])[..|bufs|] == bufs;
  }

  lemma HotEventsTell(codec: Codec, hot: map<Key, seq<Block>>, t: Text)
    ensures Emitted(codec, HotEvents(hot), t) == InHotPart(codec, hot, t)
  {
    forall k | k in hot ensures Emitted(codec, HotBags(hot)[k], t) == HotCounts(codec, hot, t)[k] {
      EmittedOne(codec, HotFlush(hot[k]), t);
    }
    EmittedTotal(codec, HotBags(hot), HotCounts(codec, hot, t), t);
  }

  lemma {:induction false} ColdPartUpdate(codec: Codec, cold: seq<map<nat, Block>>, b: nat, cells: map<nat, Block>,
                                          n: nat, t: Text)
    requires b < |cold|
    ensures InColdPart(codec, cold[b := cells], n, t)
            == InColdPart(codec, cold, n, t) - InCells(codec, cold[b], n, t) + InCells(codec, cells, n, t)
  {
    var init, last := cold[..|cold| - 1], |cold| - 1;
    if b == last {
      assert cold[b := cells][..last] == init;
    } else {
      assert cold[b := cells][..last] == init[b := cells];
      ColdPartUpdate(codec, init, b, cells, n, t);
    }
  }

  lemma {:induction false} CellsPut(codec: Codec, cells: map<nat, Block>, c: nat, blk: Block, n: nat, t: Text)
    requires c !in cells
    ensures InCells(codec, cells[c := blk], n, t)
            == InCells(codec, cells, n, t) + (if c < n then One(codec, blk, t) else 0)
  {
    if n > 0 { CellsPut(codec, cells, c, blk, n - 1, t); }
  }

  lemma CellsDrop(codec: Codec, cells: map<nat, Block>, c: nat, n: nat, t: Text)
    requires c in cells && c < n
    ensures InCells(codec, cells - {c}, n, t) + One(codec, cells[c], t) == InCells(codec, cells, n, t)
  {
    CellsPut(codec, cells - {c}, c, cells[c], n, t);
    assert (cells - {c})[c := cells[c]] == cells;
  }

  lemma HotPut(codec: Codec, hot: map<Key, seq<Block>>, key: Key, had: seq<Block>, blk: Block, t: Text)
    requires had == if key in hot then hot[key] else []
    ensures InHotPart(codec, hot[key := had + [blk]], t) == InHotPart(codec, hot, t) + One(codec, blk, t)
  {
    var bs := had + [blk];
    assert bs[..|bs| - 1] == had;
    assert InBlocks(codec, bs, t) == InBlocks(codec, had, t) + One(codec, blk, t);
    SumPut(HotCounts(codec, hot, t), key, InBlocks(codec, bs, t));
    assert HotCounts(codec, hot[key := bs], t) == HotCounts(codec, hot, t)[key := InBlocks(codec, bs, t)];
  }

  lemma {:induction false} NoCells(codec: Codec, n: nat, t: Text)
    ensures InCells(codec, map[], n, t) == 0
  {
    if n > 0 { NoCells(codec, n - 1, t); }
  }

  lemma NoHotPart(codec: Codec, t: Text)
    ensures InHotPart(codec, map[], t) == 0
  {
    assert HotCounts(codec, map[], t) == map[];
  }

  // ---------------------------------------------------------------- each step

  lemma FlushHotConserves(codec: Codec, cfg: Config, s: State, t: Text)
    ensures Ledger(codec, cfg, FlushHot(s), t) == Ledger(codec, cfg, s, t)
  {
    HotEventsTell(codec, s.hot, t);
    EmittedSum(codec, s.emitted, HotEvents(s.hot), t);
    NoHotPart(codec, t);
  }

  lemma FlushBucketConserves(codec: Codec, cfg: Config, s: State, b: nat, t: Text)
    requires b < |s.cold|
    ensures Ledger(codec, cfg, FlushBucket(cfg, s, b), t) == Ledger(codec, cfg, s, t)
  {
    ColdEventsTell(codec, s.cold[b], cfg.ncells, t);
    EmittedSum(codec, s.emitted, EventsOf(InOrder(s.cold[b], cfg.ncells)), t);
    ColdPartUpdate(codec, s.cold, b, map[], cfg.ncells, t);
    NoCells(codec, cfg.ncells, t);
  }

  lemma EvictHotConserves(codec: Codec, cfg: Config, s: State, key: Key, t: Text)
    requires Counted(s) && key in s.hot
    ensures Ledger(codec, cfg, EvictHot(s, key), t) == Ledger(codec, cfg, s, t)
  {
    EmittedSum(codec, s.emitted, multiset{HotFlush(s.hot[key])}, t);
    EmittedOne(codec, HotFlush(s.hot[key]), t);
    SumPick(HotCounts(codec, s.hot, t), key);
    HotCountsDrop(codec, s.hot, key, t);
  }

  lemma HotCountsDrop(codec: Codec, hot: map<Key, seq<Block>>, key: Key, t: Text)
    ensures HotCounts(codec, hot, t) - {key} == HotCounts(codec, hot - {key}, t)
  {
  }

  lemma StoreColdAdds(codec: Codec, cfg: Config, s: State, key: Key, blk: Block, b: nat, c: nat, t: Text)
    requires b < |s.cold| && c !in s.cold[b] && c < cfg.ncells
    ensures Ledger(codec, cfg, StoreCold(s, key, blk, b, c), t) == Ledger(codec, cfg, s, t) + One(codec, blk, t)
  {
    ColdPartUpdate(codec, s.cold, b, s.cold[b][c := blk], cfg.ncells, t);
    CellsPut(codec, s.cold[b], c, blk, cfg.ncells, t);
  }

  lemma FreedRemoves(codec: Codec, cfg: Config, s: State, b: nat, c: nat, t: Text)
    requires b < |s.cold| && c in s.cold[b] && c < cfg.ncells
    ensures Ledger(codec, cfg, Freed(s, b, c), t) + One(codec, s.cold[b][c], t) == Ledger(codec, cfg, s, t)
  {
    ColdPartUpdate(codec, s.cold, b, s.cold[b] - {c}, cfg.ncells, t);
    CellsDrop(codec, s.cold[b], c, cfg.ncells, t);
  }

  lemma StoreHotAdds(codec: Codec, cfg: Config, s: State, key: Key, blk: Block, t: Text)
    requires Counted(s)
    ensures Ledger(codec, cfg, StoreHot(s, key, blk), t) == Ledger(codec, cfg, s, t) + One(codec, blk, t)
  {
    var had := if key in s.hot then s.hot[key] else [];
    HotPut(codec, s.hot, key, had, blk, t);
  }

  lemma {:induction false} PutInColdConserves(codec: Codec, cfg: Config, s: State, key: Key, blk: Block, t: Text)
    requires cfg.Valid() && |s.cold| == |cfg.sizes| && Counted(s)
    ensures PutInCold(cfg, s, key, blk).Some? ==>
              Ledger(codec, cfg, PutInCold(cfg, s, key, blk).value, t) == Ledger(codec, cfg, s, t) + One(codec, blk, t)
    decreases s.hotCap, 1
  {
    match SmallestFit(cfg.sizes, |blk.payload|)
    case None => PutInHotConserves(codec, cfg, DeclareHot(s, key), key, blk, t);
    case Some(b) =>
      match FirstFree(s.cold[b].Keys, cfg.ncells)
      case Some(c) => StoreColdAdds(codec, cfg, s, key, blk, b, c, t);
      case None =>
        match FirstFree({}, cfg.ncells)
        case Some(c) =>
          FlushBucketConserves(codec, cfg, s, b, t);
          StoreColdAdds(codec, cfg, FlushBucket(cfg, s, b), key, blk, b, c, t);
        case None =>
  }

  lemma {:induction false} PutInHotConserves(codec: Codec, cfg: Config, s: State, key: Key, blk: Block, t: Text)
    requires cfg.Valid() && |s.cold| == |cfg.sizes| && Counted(s)
    ensures PutInHot(cfg, s, key, blk).Some? ==>
              Ledger(codec, cfg, PutInHot(cfg, s, key, blk).value, t) == Ledger(codec, cfg, s, t) + One(codec, blk, t)
    decreases s.hotCap, 0
  {
    if blk.Length() > cfg.maxbuflen {
    } else if s.hotCap + blk.Length() > cfg.maxcap {
      FlushHotConserves(codec, cfg, s, t);
      PutInColdConserves(codec, cfg, FlushHot(s), key, blk, t);
    } else if key in s.hot && FramedLength(s.hot[key]) + blk.Length() > cfg.maxbuflen {
      EvictHotConserves(codec, cfg, s, key, t);
      PutInColdConserves(codec, cfg, EvictHot(s, key), key, blk, t);
    } else {
      StoreHotAdds(codec, cfg, s, key, blk, t);
    }
  }

  /** One Put adds its buffer, once, to what was emitted or is resident, and changes nothing else there. */
  lemma PutConserves(codec: Codec, cfg: Config, s: State, key: Key, blk: Block, t: Text)
    requires cfg.Valid() && Inv(cfg, s)
    ensures Put(cfg, s, key, blk).Some? ==>
              Ledger(codec, cfg, Put(cfg, s, key, blk).value, t) == Ledger(codec, cfg, s, t) + One(codec, blk, t)
  {
    if key !in s.places {
      PutInColdConserves(codec, cfg, s, key, blk, t);
    } else if s.places[key].InHot? {
      PutInHotConserves(codec, cfg, s, key, blk, t);
    } else {
      var b, c := s.places[key].bucket, s.places[key].cell;
      FreedRemoves(codec, cfg, s, b, c, t);
      PutInHotConserves(codec, cfg, Freed(s, b, c), key, s.cold[b][c], t);
      var m := MoveToHot(cfg, s, key, b, c);
      if m.Some? {
        PutInHotConserves(codec, cfg, m.value, key, blk, t);
      }
    }
  }

  lemma {:induction false} AllColdEventsTell(codec: Codec, cfg: Config, cold: seq<map<nat, Block>>, t: Text)
    ensures Emitted(codec, AllColdEvents(cfg, cold), t) == InColdPart(codec, cold, cfg.ncells, t)
  {
    if cold != [] {
      var init, last := cold[..|cold| - 1], cold[|cold| - 1];
      AllColdEventsTell(codec, cfg, init, t);
      ColdEventsTell(codec, last, cfg.ncells, t);
      EmittedSum(codec, AllColdEvents(cfg, init), EventsOf(InOrder(last, cfg.ncells)), t);
    }
  }

  lemma {:induction false} NoColdPart(codec: Codec, cold: seq<map<nat, Block>>, n: nat, t: Text)
    requires forall b | 0 <= b < |cold| :: cold[b] == map[]
    ensures InColdPart(codec, cold, n, t) == 0
  {
    if cold != [] {
      NoColdPart(codec, cold[..|cold| - 1], n, t);
      NoCells(codec, n, t);
    }
  }

  lemma FlushLeavesNothing(codec: Codec, cfg: Config, s: State, t: Text)
    ensures Resident(codec, cfg, Flush(cfg, s), t) == 0
  {
    NoColdPart(codec, Flush(cfg, s).cold, cfg.ncells, t);
    NoHotPart(codec, t);
  }

  lemma FlushEmits(codec: Codec, cfg: Config, s: State, t: Text)
    ensures Emitted(codec, Flush(cfg, s).emitted, t) == Ledger(codec, cfg, s, t)
  {
    AllColdEventsTell(codec, cfg, s.cold, t);
    HotEventsTell(codec, s.hot, t);
    EmittedSum(codec, s.emitted + AllColdEvents(cfg, s.cold), HotEvents(s.hot), t);
    EmittedSum(codec, s.emitted, AllColdEvents(cfg, s.cold), t);
  }

  // ---------------------------------------------------------------- whole runs

  datatype Op = OpPut(key: Key, buf: Text) | OpFlush

  /** One call on the cache; None is a panic. */
  ghost function Step(codec: Codec, compressionOn: bool, cfg: Config, s: State, op: Op): Option<State>
    requires cfg.Valid() && Inv(cfg, s)
  {
    match op
    case OpFlush => Some(Flush(cfg, s))
    case OpPut(key, buf) => Put(cfg, s, key, codec.Stored(compressionOn, buf))
  }

  lemma StepKeepsInvariant(codec: Codec, compressionOn: bool, cfg: Config, s: State, op: Op)
    requires cfg.Valid() && Inv(cfg, s)
    ensures Step(codec, compressionOn, cfg, s, op).Some? ==> Inv(cfg, Step(codec, compressionOn, cfg, s, op).value)
  {
    match op
    case OpFlush => FlushKeepsInvariant(cfg, s);
    case OpPut(key, buf) => PutKeepsInvariant(cfg, s, key, codec.Stored(compressionOn, buf));
  }

  ghost function Run(codec: Codec, compressionOn: bool, cfg: Config, ops: seq<Op>): (r: Option<State>)
    requires cfg.Valid()
    ensures r.Some? ==> Inv(cfg, r.value)
  {
    if ops == [] then
      InitInvariant(cfg);
      Some(Init(cfg))
    else
      var before := Run(codec, compressionOn, cfg, ops[..|ops| - 1]);
      if before.None? then None else
        StepKeepsInvariant(codec, compressionOn, cfg, before.value, ops[|ops| - 1]);
        Step(codec, compressionOn, cfg, before.value, ops[|ops| - 1])
  }

  ghost function Buffers(ops: seq<Op>): multiset<Text> {
    if ops == [] then multiset{}
    else Buffers(ops[..|ops| - 1])
         + (if ops[|ops| - 1].OpPut? then multiset{ops[|ops| - 1].buf} else multiset{})
  }

  /** Over any run that does not panic, emitted plus resident buffers are the buffers put. */
  lemma {:induction false} RunConserves(codec: Codec, compressionOn: bool, cfg: Config, ops: seq<Op>, t: Text)
    requires cfg.Valid() && codec.Inverse()
    requires Run(codec, compressionOn, cfg, ops).Some?
    ensures var s := Run(codec, compressionOn, cfg, ops).value;
            Emitted(codec, s.emitted, t) + Resident(codec, cfg, s, t) == Buffers(ops)[t]
  {
    if ops == [] {
      NoColdPart(codec, Init(cfg).cold, cfg.ncells, t);
      NoHotPart(codec, t);
    } else {
      var before, last := ops[..|ops| - 1], ops[|ops| - 1];
      RunConserves(codec, compressionOn, cfg, before, t);
      var s := Run(codec, compressionOn, cfg, before).value;
      match last
      case OpFlush =>
        FlushEmits(codec, cfg, s, t);
        FlushLeavesNothing(codec, cfg, s, t);
      case OpPut(key, buf) =>
        codec.StoredIsLossless(compressionOn, buf);
        PutConserves(codec, cfg, s, key, codec.Stored(compressionOn, buf), t);
    }
  }

  /** After a final Flush every buffer put has been handed to the callback, as often as it was put. */
  lemma RunThenFlushEmitsAll(codec: Codec, compressionOn: bool, cfg: Config, ops: seq<Op>, t: Text)
    requires cfg.Valid() && codec.Inverse()
    requires Run(codec, compressionOn, cfg, ops).Some?
    ensures Emitted(codec, Flush(cfg, Run(codec, compressionOn, cfg, ops).value).emitted, t) == Buffers(ops)[t]
  {
    RunConserves(codec, compressionOn, cfg, ops, t);
    FlushEmits(codec, cfg, Run(codec, compressionOn, cfg, ops).value, t);
  }

  // ---------------------------------------------------------------- runs that never panic

  ghost predicate Movable(cfg: Config, s: State) {
    forall b, c | 0 <= b < |s.cold| && c in s.cold[b] :: s.cold[b][c].Length() <= cfg.maxbuflen
  }

  lemma {:induction false} PutInColdMovable(cfg: Config, s: State, key: Key, blk: Block)
    requires cfg.Valid() && |s.cold| == |cfg.sizes| && Counted(s)
    requires Movable(cfg, s) && blk.Length() <= cfg.maxbuflen
    ensures PutInCold(cfg, s, key, blk).Some? ==> Movable(cfg, PutInCold(cfg, s, key, blk).value)
    decreases s.hotCap, 1
  {
    if SmallestFit(cfg.sizes, |blk.payload|).None? {
      PutInHotMovable(cfg, DeclareHot(s, key), key, blk);
    }
  }

  lemma {:induction false} PutInHotMovable(cfg: Config, s: State, key: Key, blk: Block)
    requires cfg.Valid() && |s.cold| == |cfg.sizes| && Counted(s)
    requires Movable(cfg, s) && blk.Length() <= cfg.maxbuflen
    ensures PutInHot(cfg, s, key, blk).Some? ==> Movable(cfg, PutInHot(cfg, s, key, blk).value)
    decreases s.hotCap, 0
  {
    if s.hotCap + blk.Length() > cfg.maxcap {
      PutInColdMovable(cfg, FlushHot(s), key, blk);
    } else if key in s.hot && FramedLength(s.hot[key]) + blk.Length() > cfg.maxbuflen {
      PutInColdMovable(cfg, EvictHot(s, key), key, blk);
    }
  }

  /** When every stored payload and its prefix fit in MaxBufferLength, no call of any run panics. */
  lemma {:induction false} SmallBuffersNeverPanic(codec: Codec, compressionOn: bool, cfg: Config, ops: seq<Op>)
    requires cfg.Valid()
    requires forall i | 0 <= i < |ops| && ops[i].OpPut? ::
               codec.Stored(compressionOn, ops[i].buf).Length() <= cfg.maxbuflen
    ensures Run(codec, compressionOn, cfg, ops).Some?
    ensures Movable(cfg, Run(codec, compressionOn, cfg, ops).value)
  {
    if ops != [] {
      var before, last := ops[..|ops| - 1], ops[|ops| - 1];
      SmallBuffersNeverPanic(codec, compressionOn, cfg, before);
      var s := Run(codec, compressionOn, cfg, before).value;
      if last.OpPut? {
        var blk := codec.Stored(compressionOn, last.buf);
        PutKeepsInvariant(cfg, s, last.key, blk);
        PutMovable(cfg, s, last.key, blk);
      }
    }
  }

  lemma PutMovable(cfg: Config, s: State, key: Key, blk: Block)
    requires cfg.Valid() && Inv(cfg, s)
    requires Movable(cfg, s) && blk.Length() <= cfg.maxbuflen
    ensures Put(cfg, s, key, blk).Some? ==> Movable(cfg, Put(cfg, s, key, blk).value)
  {
    if key !in s.places {
      PutInColdMovable(cfg, s, key, blk);
    } else if s.places[key].InHot? {
      PutInHotMovable(cfg, s, key, blk);
    } else {
      var b, c := s.places[key].bucket, s.places[key].cell;
      PutInHotMovable(cfg, Freed(s, b, c), key, s.cold[b][c]);
      var m := MoveToHot(cfg, s, key, b, c);
      if m.Some? {
        PutInHotMovable(cfg, m.value, key, blk);
      }
    }
  }
}
