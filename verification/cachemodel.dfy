/**
 * The two-tier buffer cache on values: keys, places, blocks and the flushes they cause.
 * BufferCache (buffercache.dfy) keeps the same state in bytes and bits and is proved to
 * follow these functions step by step; the whole-run properties are proved here.
 */
module CacheModel {
  import opened Bytes
  import opened Frames

  type Key = string

  datatype Config = Config(maxcap: nat, maxbuflen: nat, ncells: nat, sizes: seq<nat>) {
    predicate Valid() {
      && maxbuflen <= maxcap
      && ncells > 0 && ncells % 64 == 0
    }
  }

  datatype Place = InHot | InCold(bucket: nat, cell: nat)

  /** One call of the flush callback: a bare cold block, or all blocks of a hot key. */
  datatype Event = ColdFlush(block: Block) | HotFlush(blocks: seq<Block>)

  datatype State = State(
    places: map<Key, Place>,
    cold: seq<map<nat, Block>>,
    hot: map<Key, seq<Block>>,
    hotCap: int,
    emitted: multiset<Event>)

  // ---------------------------------------------------------------- choosing a cell

  /** The highest free cell of the first 64-cell group that has one. */
  ghost predicate IsFirstFree(busy: set<nat>, ncells: nat, i: nat) {
    && i < ncells && i !in busy
    && forall j: nat | j < ncells && j !in busy :: j / 64 > i / 64 || (j / 64 == i / 64 && j <= i)
  }

  ghost function FirstFree(busy: set<nat>, ncells: nat): Option<nat> {
    if exists i: nat :: IsFirstFree(busy, ncells, i)
    then var i: nat :| IsFirstFree(busy, ncells, i); Some(i)
    else None
  }

  lemma FirstFreeIs(busy: set<nat>, ncells: nat, i: nat)
    requires IsFirstFree(busy, ncells, i)
    ensures FirstFree(busy, ncells) == Some(i)
  {
    var k := FirstFree(busy, ncells).value;
    assert IsFirstFree(busy, ncells, k);
  }

  /** Some cell is chosen exactly when some cell is free. */
  lemma FirstFreeExists(busy: set<nat>, ncells: nat)
    ensures FirstFree(busy, ncells).Some? <==> exists j: nat :: j < ncells && j !in busy
  {
    if j: nat :| j < ncells && j !in busy {
      var k := LowestGroup(busy, ncells, j);
      FirstFreeIs(busy, ncells, k);
    }
  }

  lemma LowestGroup(busy: set<nat>, ncells: nat, j: nat) returns (k: nat)
    requires j < ncells && j !in busy
    ensures IsFirstFree(busy, ncells, k)
    decreases j / 64, 64 - j % 64
  {
    if i: nat :| i < ncells && i !in busy && (i / 64 < j / 64 || (i / 64 == j / 64 && i > j)) {
      k := LowestGroup(busy, ncells, i);
    } else {
      k := j;
    }
  }

  /** The first bucket whose cells can hold l payload bytes and their prefix. */
  function SmallestFit(sizes: seq<nat>, l: nat): (r: Option<nat>)
    ensures r.Some? ==> r.value < |sizes| && l + PREFIX_LEN <= sizes[r.value]
    ensures r.Some? ==> forall i | 0 <= i < r.value :: sizes[i] < l + PREFIX_LEN
    ensures r.None? ==> forall i | 0 <= i < |sizes| :: sizes[i] < l + PREFIX_LEN
  {
    if sizes == [] then None
    else if l + PREFIX_LEN <= sizes[0] then Some(0)
    else match SmallestFit(sizes[1..], l)
      case None => None
      case Some(i) => Some(i + 1)
  }

  /** With the sorted sizes the constructor insists on, the first fit is the tightest one. */
  lemma SmallestFitIsTightest(sizes: seq<nat>, l: nat, i: nat)
    requires forall a, b | 0 <= a < b < |sizes| :: sizes[a] <= sizes[b]
    requires i < |sizes| && l + PREFIX_LEN <= sizes[i]
    ensures SmallestFit(sizes, l).Some? && sizes[SmallestFit(sizes, l).value] <= sizes[i]
  {
  }

  // ---------------------------------------------------------------- operations

  ghost function Lengths(hot: map<Key, seq<Block>>): map<Key, nat> {
    map k | k in hot :: FramedLength(hot[k])
  }

  /** The blocks of the first n cells, in cell order. */
  ghost function InOrder(cells: map<nat, Block>, n: nat): seq<Block> {
    if n == 0 then [] else InOrder(cells, n - 1) + (if n - 1 in cells then [cells[n - 1]] else [])
  }

  lemma InOrderNext(cells: map<nat, Block>, n: nat)
    ensures InOrder(cells, n + 1) == if n in cells then InOrder(cells, n) + [cells[n]] else InOrder(cells, n)
  {
  }

  /** One event for each block. */
  ghost function EventsOf(bufs: seq<Block>): multiset<Event> {
    if bufs == [] then multiset{}
    else multiset{ColdFlush(bufs[|bufs| - 1])} + EventsOf(bufs[..|bufs| - 1])
  }

  ghost function HotBags(hot: map<Key, seq<Block>>): map<Key, multiset<Event>> {
    map k | k in hot :: multiset{HotFlush(hot[k])}
  }

  /** One event for each hot key; the order in which a map is visited is not specified. */
  ghost function HotEvents(hot: map<Key, seq<Block>>): multiset<Event> { Total(HotBags(hot)) }

  /** The counter kept for the hot part is the real one. */
  ghost predicate Counted(s: State) {
    && s.hotCap == Sum(Lengths(s.hot))
    && forall k | k in s.hot :: s.hot[k] != []
  }

  ghost function FlushHot(s: State): (r: State)
    ensures Counted(r)
  {
    s.(hot := map[], hotCap := 0,
       places := map k | k in s.places && s.places[k] != InHot :: s.places[k],
       emitted := s.emitted + HotEvents(s.hot))
  }

  ghost function FlushBucket(cfg: Config, s: State, b: nat): State
    requires b < |s.cold|
  {
    s.(cold := s.cold[b := map[]],
       places := map k | k in s.places && !(s.places[k].InCold? && s.places[k].bucket == b) :: s.places[k],
       emitted := s.emitted + EventsOf(InOrder(s.cold[b], cfg.ncells)))
  }

  ghost function WithCell(cold: seq<map<nat, Block>>, b: nat, c: nat, blk: Block): seq<map<nat, Block>>
    requires b < |cold|
  {
    var cells: map<nat, Block> := cold[b][c := blk];
    cold[b := cells]
  }

  ghost function StoreCold(s: State, key: Key, blk: Block, b: nat, c: nat): State
    requires b < |s.cold|
  {
    s.(cold := WithCell(s.cold, b, c, blk), places := s.places[key := InCold(b, c)])
  }

  ghost function StoreHot(s: State, key: Key, blk: Block): (r: State)
    requires Counted(s)
    ensures Counted(r)
  {
    var bs := (if key in s.hot then s.hot[key] else []) + [blk];
    FramedLengthSnoc(if key in s.hot then s.hot[key] else [], blk);
    SumPut(Lengths(s.hot), key, FramedLength(bs));
    assert Lengths(s.hot[key := bs]) == Lengths(s.hot)[key := FramedLength(bs)];
    s.(hot := s.hot[key := bs], hotCap := s.hotCap + blk.Length())
  }

  ghost function EvictHot(s: State, key: Key): (r: State)
    requires Counted(s) && key in s.hot
    ensures Counted(r) && r.hotCap < s.hotCap
  {
    SumPick(Lengths(s.hot), key);
    assert Lengths(s.hot - {key}) == Lengths(s.hot) - {key};
    s.(places := s.places - {key}, hot := s.hot - {key},
       hotCap := s.hotCap - FramedLength(s.hot[key]),
       emitted := s.emitted + multiset{HotFlush(s.hot[key])})
  }

  ghost function Freed(s: State, b: nat, c: nat): State
    requires b < |s.cold|
  {
    s.(cold := s.cold[b := s.cold[b] - {c}])
  }

  ghost function DeclareHot(s: State, key: Key): State {
    s.(places := s.places[key := InHot])
  }

  /** None stands for a panic. */
  ghost function PutInCold(cfg: Config, s: State, key: Key, blk: Block): (r: Option<State>)
    requires cfg.Valid() && |s.cold| == |cfg.sizes| && Counted(s)
    ensures r.Some? ==> Counted(r.value) && |r.value.cold| == |s.cold|
    decreases s.hotCap, 1
  {
    match SmallestFit(cfg.sizes, |blk.payload|)
    case None =>
      PutInHot(cfg, DeclareHot(s, key), key, blk)
    case Some(b) =>
      match FirstFree(s.cold[b].Keys, cfg.ncells)
      case Some(c) => Some(StoreCold(s, key, blk, b, c))
      case None =>
        match FirstFree({}, cfg.ncells)
        case Some(c) => Some(StoreCold(FlushBucket(cfg, s, b), key, blk, b, c))
        case None => None
  }

  ghost function PutInHot(cfg: Config, s: State, key: Key, blk: Block): (r: Option<State>)
    requires cfg.Valid() && |s.cold| == |cfg.sizes| && Counted(s)
    ensures r.Some? ==> Counted(r.value) && |r.value.cold| == |s.cold|
    decreases s.hotCap, 0
  {
    if blk.Length() > cfg.maxbuflen then None
    else if s.hotCap + blk.Length() > cfg.maxcap then
      PutInCold(cfg, FlushHot(s), key, blk)
    else if key in s.hot && FramedLength(s.hot[key]) + blk.Length() > cfg.maxbuflen then
      PutInCold(cfg, EvictHot(s, key), key, blk)
    else Some(StoreHot(s, key, blk))
  }

  ghost function MoveToHot(cfg: Config, s: State, key: Key, b: nat, c: nat): (r: Option<State>)
    requires cfg.Valid() && |s.cold| == |cfg.sizes| && Counted(s)
    requires b < |s.cold| && c in s.cold[b]
    ensures r.Some? ==> Counted(r.value) && |r.value.cold| == |s.cold|
  {
    match PutInHot(cfg, Freed(s, b, c), key, s.cold[b][c])
    case None => None
    case Some(t) => Some(DeclareHot(t, key))
  }

  ghost function Put(cfg: Config, s: State, key: Key, blk: Block): (r: Option<State>)
    requires cfg.Valid() && Inv(cfg, s)
  {
    if key !in s.places then PutInCold(cfg, s, key, blk)
    else match s.places[key]
      case InHot => PutInHot(cfg, s, key, blk)
      case InCold(b, c) =>
        match MoveToHot(cfg, s, key, b, c)
        case None => None
        case Some(t) => PutInHot(cfg, t, key, blk)
  }

  ghost function EmptyBuckets(n: nat): (r: seq<map<nat, Block>>)
    ensures |r| == n && forall i | 0 <= i < n :: r[i] == map[]
  {
    if n == 0 then [] else EmptyBuckets(n - 1) + [map[]]
  }

  ghost function AllColdEvents(cfg: Config, cold: seq<map<nat, Block>>): multiset<Event> {
    if cold == [] then multiset{}
    else AllColdEvents(cfg, cold[..|cold| - 1]) + EventsOf(InOrder(cold[|cold| - 1], cfg.ncells))
  }

  ghost function Flush(cfg: Config, s: State): State {
    State(map[], EmptyBuckets(|s.cold|), map[], 0,
          s.emitted + AllColdEvents(cfg, s.cold) + HotEvents(s.hot))
  }

  ghost function Init(cfg: Config): State {
    State(map[], EmptyBuckets(|cfg.sizes|), map[], 0, multiset{})
  }

  // ---------------------------------------------------------------- invariant

  /** A place points at an occupied cell. */
  ghost predicate Occupied(s: State, p: Place) {
    p.InCold? ==> p.bucket < |s.cold| && p.cell in s.cold[p.bucket]
  }

  /** Every limit of the configuration is respected, and the hot counter is the real one. */
  ghost predicate Bounded(cfg: Config, s: State) {
    && |s.cold| == |cfg.sizes|
    && Counted(s) && s.hotCap <= cfg.maxcap
    && (forall k | k in s.hot :: FramedLength(s.hot[k]) <= cfg.maxbuflen)
    && (forall b, c | 0 <= b < |s.cold| && c in s.cold[b] ::
          c < cfg.ncells && s.cold[b][c].Length() <= cfg.sizes[b])
  }

  /** The place of a key tells where its block is, and no two keys share a cell; `key` is exempt. */
  ghost predicate Placed(s: State, key: Option<Key>) {
    && (forall k | Some(k) != key ::
          k in s.hot <==> k in s.places && s.places[k] == InHot)
    && (forall k | k in s.places && Some(k) != key :: Occupied(s, s.places[k]))
    && (forall k, l | k in s.places && l in s.places && k != l && Some(k) != key && Some(l) != key ::
          s.places[k].InCold? ==> s.places[k] != s.places[l])
  }

  /** What holds about every key other than `key`, at any point inside a call. */
  ghost predicate InvBut(cfg: Config, s: State, key: Option<Key>) {
    Bounded(cfg, s) && Placed(s, key)
  }

  ghost predicate Inv(cfg: Config, s: State) {
    InvBut(cfg, s, None)
  }
}
