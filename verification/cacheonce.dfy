/** When a flush of the cache calls back once for each key, with everything the cache holds for it. */
module CacheOnce {
  import opened Bytes
  import opened Frames
  import opened CacheModel
  import opened CacheProofs
  import opened CacheLedger
  import opened CacheStrays
  import opened CacheKeys

  /** The call a key asks for: all that is found by its place. */
  ghost function KeyEvent(s: State, k: Key): Event
    requires k in s.places
  {
    var p := s.places[k];
    if p.InCold? && Occupied(s, p) then ColdFlush(s.cold[p.bucket][p.cell]) else HotFlush(HotBlocks(s, k))
  }

  ghost function KeyBags(s: State): map<Key, multiset<Event>> {
    map k | k in s.places :: multiset{KeyEvent(s, k)}
  }

  ghost function ColdBags(s: State): map<Key, multiset<Event>> {
    map k | k in s.places && s.places[k].InCold? :: multiset{KeyEvent(s, k)}
  }

  /** One call for each key. */
  ghost function KeyEvents(s: State): multiset<Event> { Total(KeyBags(s)) }

  lemma {:induction false} TotalSplit<K, T>(m: map<K, multiset<T>>, a: map<K, multiset<T>>, b: map<K, multiset<T>>)
    requires m.Keys == a.Keys + b.Keys && a.Keys !! b.Keys
    requires (forall k | k in a :: m[k] == a[k]) && forall k | k in b :: m[k] == b[k]
    ensures Total(m) == Total(a) + Total(b)
    decreases |b|
  {
    if k :| k in b {
      TotalPick(m, k);
      TotalPick(b, k);
      assert (m - {k}).Keys == a.Keys + (b - {k}).Keys;
      TotalSplit(m - {k}, a, b - {k});
      Exchange(m[k], Total(a), Total(b - {k}));
    } else {
      assert m == a && b == map[];
    }
  }

  lemma Exchange<T>(a: multiset<T>, b: multiset<T>, c: multiset<T>)
    ensures a + (b + c) == b + (a + c) == (b + a) + c
  {
  }

  // ---------------------------------------------------------------- taking one cell out

  lemma {:induction false} InOrderWithout(cells: map<nat, Block>, n: nat, c: nat)
    requires n <= c
    ensures InOrder(cells - {c}, n) == InOrder(cells, n)
  {
    if n > 0 { InOrderWithout(cells, n - 1, c); }
  }

  /** With cell c taken out one event less is left. */
  ghost predicate OneLess(cells: map<nat, Block>, n: nat, c: nat)
    requires c in cells
  {
    EventsOf(InOrder(cells, n)) == multiset{ColdFlush(cells[c])} + EventsOf(InOrder(cells - {c}, n))
  }

  lemma CellEventFirst(cells: map<nat, Block>, c: nat)
    requires c in cells
    ensures OneLess(cells, c + 1, c)
  {
    InOrderNext(cells, c);
    InOrderNext(cells - {c}, c);
    InOrderWithout(cells, c, c);
    EventsSnoc(InOrder(cells, c), cells[c]);
  }

  lemma CellEventNext(cells: map<nat, Block>, n: nat, c: nat)
    requires c in cells && c < n && OneLess(cells, n, c)
    ensures OneLess(cells, n + 1, c)
  {
    var left := cells - {c};
    InOrderNext(cells, n);
    InOrderNext(left, n);
    if n in cells {
      var e := multiset{ColdFlush(cells[n])};
      EventsSnoc(InOrder(cells, n), cells[n]);
      EventsSnoc(InOrder(left, n), cells[n]);
      Exchange(e, multiset{ColdFlush(cells[c])}, EventsOf(InOrder(left, n)));
    }
  }

  lemma {:induction false} CellEventAfter(cells: map<nat, Block>, c: nat, more: nat)
    requires c in cells
    ensures OneLess(cells, c + 1 + more, c)
  {
    if more == 0 {
      CellEventFirst(cells, c);
    } else {
      var n := c + more;
      CellEventAfter(cells, c, more - 1);
      CellEventNext(cells, n, c);
    }
  }

  lemma CellEvent(cells: map<nat, Block>, n: nat, c: nat)
    requires c in cells && c < n
    ensures OneLess(cells, n, c)
  {
    CellEventAfter(cells, c, n - c - 1);
  }

  lemma {:induction false} BucketEvent(cfg: Config, cold: seq<map<nat, Block>>, b: nat, c: nat)
    requires b < |cold| && c in cold[b] && c < cfg.ncells
    ensures AllColdEvents(cfg, cold)
            == multiset{ColdFlush(cold[b][c])} + AllColdEvents(cfg, cold[b := cold[b] - {c}])
  {
    var last := |cold| - 1;
    var now := cold[b := cold[b] - {c}];
    var e := multiset{ColdFlush(cold[b][c])};
    if b == last {
      assert now[..last] == cold[..last];
      CellEvent(cold[b], cfg.ncells, c);
      Exchange(AllColdEvents(cfg, cold[..last]), e, EventsOf(InOrder(now[last], cfg.ncells)));
    } else {
      assert now[..last] == cold[..last][b := cold[b] - {c}];
      BucketEvent(cfg, cold[..last], b, c);
      Exchange(e, AllColdEvents(cfg, now[..last]), EventsOf(InOrder(cold[last], cfg.ncells)));
    }
  }

  lemma {:induction false} NoCellsInOrder(n: nat)
    ensures InOrder(map[], n) == []
  {
    if n > 0 { NoCellsInOrder(n - 1); }
  }

  /** No events exactly when there are no cells. */
  lemma {:induction false} NoEventsIff(cfg: Config, cold: seq<map<nat, Block>>)
    requires forall b, c | 0 <= b < |cold| && c in cold[b] :: c < cfg.ncells
    ensures AllColdEvents(cfg, cold) == multiset{} <==> forall b | 0 <= b < |cold| :: cold[b] == map[]
  {
    if b :| 0 <= b < |cold| && cold[b] != map[] {
      var c :| c in cold[b];
      BucketEvent(cfg, cold, b, c);
      assert ColdFlush(cold[b][c]) in AllColdEvents(cfg, cold);
    } else if cold != [] {
      NoEventsIff(cfg, cold[..|cold| - 1]);
      NoCellsInOrder(cfg.ncells);
    }
  }

  // ---------------------------------------------------------------- cells of keys, and the others

  /** Every cold key has an occupied cell of its own. */
  ghost predicate OwnCells(cfg: Config, s: State) {
    && (forall k | k in s.places :: Occupied(s, s.places[k]))
    && (forall k, l | k in s.places && l in s.places && k != l && s.places[k].InCold? :: s.places[k] != s.places[l])
    && (forall b, c | 0 <= b < |s.cold| && c in s.cold[b] :: c < cfg.ncells)
  }

  /** The cells of rest are the strays of s. */
  ghost predicate Strays(s: State, rest: seq<map<nat, Block>>) {
    |rest| == |s.cold| && forall b: nat, c: nat | b < |rest| :: c in rest[b] <==> Stray(s, b, c)
  }

  ghost function Without(s: State, k: Key, b: nat, c: nat): State
    requires b < |s.cold|
  {
    s.(places := s.places - {k}, cold := s.cold[b := s.cold[b] - {c}])
  }

  lemma WithoutStrays(cfg: Config, s: State, k: Key, b: nat, c: nat, rest: seq<map<nat, Block>>)
    requires OwnCells(cfg, s) && k in s.places && s.places[k] == InCold(b, c)
    requires Strays(Without(s, k, b, c), rest)
    ensures Strays(s, rest)
  {
    var t := Without(s, k, b, c);
    forall d: nat, e: nat | d < |rest| ensures Stray(t, d, e) <==> Stray(s, d, e) {
      if l :| l in s.places && s.places[l] == InCold(d, e) && l != k {
        assert l in t.places && t.places[l] == InCold(d, e);
      }
      if d == b && e == c { assert Referenced(s, d, e); }
    }
  }

  lemma WithoutOwn(cfg: Config, s: State, k: Key, b: nat, c: nat)
    requires OwnCells(cfg, s) && k in s.places && s.places[k] == InCold(b, c)
    ensures OwnCells(cfg, Without(s, k, b, c)) && ColdBags(Without(s, k, b, c)) == ColdBags(s) - {k}
  {
    var t := Without(s, k, b, c);
    forall l | l in t.places ensures Occupied(t, t.places[l]) && KeyEvent(t, l) == KeyEvent(s, l) {
      assert Occupied(s, s.places[l]);
    }
  }

  lemma BackIn(cfg: Config, s: State, k: Key, b: nat, c: nat, extra: multiset<Event>)
    requires OwnCells(cfg, s) && k in s.places && s.places[k] == InCold(b, c)
    requires AllColdEvents(cfg, Without(s, k, b, c).cold) == Total(ColdBags(s) - {k}) + extra
    ensures AllColdEvents(cfg, s.cold) == Total(ColdBags(s)) + extra
  {
    assert Occupied(s, s.places[k]);
    var e := ColdBags(s)[k];
    assert e == multiset{ColdFlush(s.cold[b][c])};
    BucketEvent(cfg, s.cold, b, c);
    TotalPick(ColdBags(s), k);
    Exchange(e, Total(ColdBags(s) - {k}), extra);
  }

  /** The cold events are one for each cold key and one for each stray. */
  lemma {:induction false} ColdEventsSplit(cfg: Config, s: State) returns (rest: seq<map<nat, Block>>)
    requires OwnCells(cfg, s)
    ensures Strays(s, rest) && AllColdEvents(cfg, s.cold) == Total(ColdBags(s)) + AllColdEvents(cfg, rest)
    decreases |s.places|
  {
    if k :| k in s.places && s.places[k].InCold? {
      var b, c := s.places[k].bucket, s.places[k].cell;
      assert Occupied(s, s.places[k]);
      WithoutOwn(cfg, s, k, b, c);
      rest := ColdEventsSplit(cfg, Without(s, k, b, c));
      WithoutStrays(cfg, s, k, b, c, rest);
      BackIn(cfg, s, k, b, c, AllColdEvents(cfg, rest));
    } else {
      rest := s.cold;
      assert ColdBags(s) == map[];
    }
  }

  /**
   * A flush of the whole cache calls back once for each key, with everything held for it, exactly when
   * no cell is a stray.
   */
  lemma FlushOnceAKeyIff(cfg: Config, s: State)
    requires cfg.Valid() && Inv(cfg, s)
    ensures Flush(cfg, s).emitted == s.emitted + KeyEvents(s) <==> NoStrays(s)
  {
    var rest := ColdEventsSplit(cfg, s);
    FlushEvents(cfg, s);
    var extra := AllColdEvents(cfg, rest);
    OnlyIfEmpty(s.emitted, Total(ColdBags(s)), extra, HotEvents(s.hot));
    NoEventsIff(cfg, rest);
    StraysEmptyIff(s, rest);
  }

  lemma FlushEvents(cfg: Config, s: State)
    requires cfg.Valid() && Inv(cfg, s)
    ensures KeyEvents(s) == Total(ColdBags(s)) + HotEvents(s.hot)
  {
    BagsSplit(s);
    TotalSplit(KeyBags(s), ColdBags(s), HotBags(s.hot));
  }

  lemma BagsSplit(s: State)
    requires forall k :: k in s.hot <==> k in s.places && s.places[k] == InHot
    ensures KeyBags(s).Keys == ColdBags(s).Keys + HotBags(s.hot).Keys && ColdBags(s).Keys !! HotBags(s.hot).Keys
    ensures forall k | k in ColdBags(s) :: KeyBags(s)[k] == ColdBags(s)[k]
    ensures forall k | k in HotBags(s.hot) :: KeyBags(s)[k] == HotBags(s.hot)[k]
  {
    forall k | k in s.hot ensures KeyEvent(s, k) == HotFlush(s.hot[k]) {
      assert s.places[k] == InHot;
    }
  }

  lemma OnlyIfEmpty<T>(a: multiset<T>, b: multiset<T>, extra: multiset<T>, c: multiset<T>)
    ensures a + (b + extra) + c == a + (b + c) <==> extra == multiset{}
  {
    if x :| x in extra {
      assert (a + (b + extra) + c)[x] > (a + (b + c))[x];
    } else {
      assert extra == multiset{};
    }
  }

  lemma StraysEmptyIff(s: State, rest: seq<map<nat, Block>>)
    requires Strays(s, rest)
    ensures (forall b | 0 <= b < |rest| :: rest[b] == map[]) <==> NoStrays(s)
  {
    if NoStrays(s) {
      forall b | 0 <= b < |rest| ensures rest[b] == map[] {
        NoStraysHere(s, rest, b);
      }
    } else {
      var b: nat, c: nat :| b < |s.cold| && c in s.cold[b] && !Referenced(s, b, c);
      assert Stray(s, b, c) && c in rest[b];
    }
  }

  lemma NoStraysHere(s: State, rest: seq<map<nat, Block>>, b: nat)
    requires Strays(s, rest) && NoStrays(s) && b < |rest|
    ensures rest[b] == map[]
  {
    forall c: nat ensures c !in rest[b] {
      assert c in rest[b] <==> Stray(s, b, c);
    }
  }

  /** What a key holds, the blocks of its call, are the latest that were put under it. */
  lemma RunOnceAKeyIff(codec: Codec, on: bool, cfg: Config, ops: seq<Op>)
    requires cfg.Valid() && Run(codec, on, cfg, ops).Some?
    ensures var s := Run(codec, on, cfg, ops).value;
            && (forall k | k in s.places :: LatestOf(s, k, PutUnder(codec, on, ops, k)))
            && (Flush(cfg, s).emitted == s.emitted + KeyEvents(s) <==> NoStrays(s))
  {
    var s := Run(codec, on, cfg, ops).value;
    FlushOnceAKeyIff(cfg, s);
    forall k | k in s.places ensures LatestOf(s, k, PutUnder(codec, on, ops, k)) {
      RunRecent(codec, on, cfg, ops, k);
      assert Occupied(s, s.places[k]);
    }
  }

  /** The call of a key hands over the last blocks put under it, at least one. */
  ghost predicate LatestOf(s: State, k: Key, put: seq<Block>)
    requires k in s.places
  {
    match KeyEvent(s, k)
    case ColdFlush(b) => put != [] && b == put[|put| - 1]
    case HotFlush(bs) => bs != [] && Suffix(bs, put)
  }

  /** No Put of the run promotes a block that no longer fits in the hot part. */
  ghost predicate NeverOvertaken(codec: Codec, on: bool, cfg: Config, ops: seq<Op>)
    requires cfg.Valid() && Run(codec, on, cfg, ops).Some?
  {
    ops != [] ==>
      var before, last := ops[..|ops| - 1], ops[|ops| - 1];
      && NeverOvertaken(codec, on, cfg, before)
      && (last.OpPut? ==> !Overtaken(cfg, Run(codec, on, cfg, before).value, last.key))
  }

  /** Such a run leaves no strays, so that a flush after it calls back once for each key. */
  lemma {:induction false} NeverOvertakenOnceAKey(codec: Codec, on: bool, cfg: Config, ops: seq<Op>)
    requires cfg.Valid() && Run(codec, on, cfg, ops).Some? && NeverOvertaken(codec, on, cfg, ops)
    ensures var s := Run(codec, on, cfg, ops).value;
            NoStrays(s) && Flush(cfg, s).emitted == s.emitted + KeyEvents(s)
  {
    var s := Run(codec, on, cfg, ops).value;
    if ops != [] {
      var before, last := ops[..|ops| - 1], ops[|ops| - 1];
      var was := Run(codec, on, cfg, before).value;
      NeverOvertakenOnceAKey(codec, on, cfg, before);
      if last.OpPut? {
        var blk := codec.Stored(on, last.buf);
        PutKeepsInvariant(cfg, was, last.key, blk);
        PutStrays(cfg, was, last.key, blk);
      }
    }
    assert NoStrays(s);
    FlushOnceAKeyIff(cfg, s);
  }

  /** Two keys put twice each and a flush: two calls hand over the two blocks of the second key. */
  lemma OnceAKeyFails(codec: Codec) returns (t: State)
    ensures Run(codec, false, TIGHT, TwiceEach() + [OpFlush]) == Some(t)
    ensures PutUnder(codec, false, TwiceEach() + [OpFlush], "b") == [OCTET, OCTET]
    ensures HotFlush([OCTET]) in t.emitted && ColdFlush(OCTET) in t.emitted
  {
    var ops := TwiceEach();
    var s, d, e := TwoBlocksApart(codec);
    t := Flush(TIGHT, s);
    assert (ops + [OpFlush])[..|ops|] == ops;
    TotalPick(HotBags(s.hot), "b");
    BucketEvent(TIGHT, s.cold, d, e);
    PutUnderB(codec);
  }

  lemma PutUnderB(codec: Codec)
    ensures PutUnder(codec, false, TwiceEach() + [OpFlush], "b") == [OCTET, OCTET]
  {
    var a, b := OpPut("a", EIGHT), OpPut("b", EIGHT);
    PutUnderSnoc(codec, [], a);
    PutUnderSnoc(codec, [a], a);
    PutUnderSnoc(codec, [a] + [a], b);
    PutUnderSnoc(codec, [a] + [a] + [b], b);
    PutUnderSnoc(codec, [a] + [a] + [b] + [b], OpFlush);
    assert [] + [a] == [a];
  }

  lemma PutUnderSnoc(codec: Codec, ops: seq<Op>, op: Op)
    ensures PutUnder(codec, false, ops + [op], "b")
            == PutUnder(codec, false, ops, "b")
               + if op.OpPut? && op.key == "b" then [codec.Stored(false, op.buf)] else []
  {
    assert (ops + [op])[..|ops|] == ops;
  }
}
