/** The order in which records arrive, when one goroutine filters and no two outputs share a channel. */
module TopologyOrder {
  import opened Bytes
  import opened Topology
  import opened TopologySafety
  import opened TopologyRuns

  /** One filter, and one output for every channel. */
  predicate OneByOne(c: Config) {
    c.Valid() && c.filterProcs == 1 && (c.sharded || c.outputProcs == 1)
  }

  /** The records meant for output k, in order: those with its residue, or all of them without sharding. */
  function SentTo(c: Config, rs: seq<OutRecord>, k: nat): seq<OutRecord>
    requires c.Valid()
  {
    if rs == [] then [] else
      (if !c.sharded || rs[0].shard % c.outputProcs == k then [rs[0]] else []) + SentTo(c, rs[1..], k)
  }

  /** The records that are not sent yet, in the order in which they will be. */
  function Ahead(c: Config, f: Filter, waiting: seq<Blob>): seq<OutRecord> {
    (if f.Busy? then f.emit + RecordsOfLines(c, f.lines) else []) + RecordsOf(c, waiting)
  }

  /** What an output received, what is in its channel, and what will be sent to it. */
  ghost predicate InOrder(c: Config, s: State, k: nat)
    requires OneByOne(c) && Shaped(c, s) && k < c.outputProcs
  {
    s.got[k] + s.outch[k].buf + SentTo(c, Ahead(c, s.filters[0], s.inch.buf), k) == SentTo(c, RecordsOf(c, s.sent), k)
  }

  ghost predicate AllInOrder(c: Config, s: State)
    requires OneByOne(c) && Shaped(c, s)
  {
    forall k | 0 <= k < c.outputProcs :: InOrder(c, s, k)
  }

  lemma {:induction false} SentToConcat(c: Config, xs: seq<OutRecord>, ys: seq<OutRecord>, k: nat)
    requires c.Valid()
    ensures SentTo(c, xs + ys, k) == SentTo(c, xs, k) + SentTo(c, ys, k)
  {
    if xs == [] {
      assert xs + ys == ys;
    } else {
      assert (xs + ys)[1..] == xs[1..] + ys;
      SentToConcat(c, xs[1..], ys, k);
    }
  }

  lemma {:induction false} RecordsOfSnoc(c: Config, bs: seq<Blob>, b: Blob)
    ensures RecordsOf(c, bs + [b]) == RecordsOf(c, bs) + RecordsOfLines(c, b)
  {
    if bs == [] {
      assert [b][1..] == [];
    } else {
      assert (bs + [b])[1..] == bs[1..] + [b];
      RecordsOfSnoc(c, bs[1..], b);
    }
  }

  // ---------------------------------------------------------------- one step

  /** Parsing the first line turns it into its records. */
  lemma ParsedAhead(c: Config, f: Filter, left: Record, waiting: seq<Blob>)
    requires f.Busy? && f.emit == [] && f.lines != []
    ensures Ahead(c, Parsed(f, c.Judge(f.lines[0]), left), waiting) == Ahead(c, f, waiting)
  {
  }

  lemma SentAhead(c: Config, f: Filter, waiting: seq<Blob>)
    requires f.Busy? && f.emit != []
    ensures Ahead(c, f, waiting) == [f.emit[0]] + Ahead(c, f.(emit := f.emit[1..]), waiting)
  {
  }

  lemma TakenAhead(c: Config, waiting: seq<Blob>)
    requires waiting != []
    ensures Ahead(c, Busy(None, [], waiting[0]), waiting[1..]) == Ahead(c, Idle, waiting)
  {
  }

  lemma FilterInOrder(c: Config, s: State, a: Action, k: nat)
    requires OneByOne(c) && Inv(c, s) && FilterEnabled(c, s, a) && k < c.outputProcs && InOrder(c, s, k)
    ensures InOrder(c, FilterNext(c, s, a), k)
  {
    var f := s.filters[0];
    assert FilterFine(s, f);
    match a
    case FilterTake(_) => TakenAhead(c, s.inch.buf);
    case FilterParse(_, slot, left) => ParseInOrder(c, s, slot, left, k);
    case FilterSend(_) => SendInOrder(c, s, k);
    case _ =>
  }

  lemma ParseInOrder(c: Config, s: State, slot: Option<nat>, left: Record, k: nat)
    requires OneByOne(c) && Inv(c, s) && FilterEnabled(c, s, FilterParse(0, slot, left))
    requires k < c.outputProcs && InOrder(c, s, k)
    ensures InOrder(c, ParseNext(c, s, 0, slot, left), k)
  {
    assert FilterFine(s, s.filters[0]);
    PoolKeeps(s.pool, slot);
    ParsedAhead(c, s.filters[0], left, s.inch.buf);
  }

  lemma SendInOrder(c: Config, s: State, k: nat)
    requires OneByOne(c) && Inv(c, s) && FilterEnabled(c, s, FilterSend(0)) && k < c.outputProcs && InOrder(c, s, k)
    ensures InOrder(c, FilterNext(c, s, FilterSend(0)), k)
  {
    var f := s.filters[0];
    SentAhead(c, f, s.inch.buf);
    MoveHead(c, s.got[k], s.outch[k].buf, f.emit[0], Ahead(c, f.(emit := f.emit[1..]), s.inch.buf), k);
  }

  /** Putting the next record into its channel moves it from the front of what is ahead to what is behind. */
  lemma MoveHead(c: Config, got: seq<OutRecord>, buf: seq<OutRecord>, r: OutRecord, rest: seq<OutRecord>, k: nat)
    requires OneByOne(c) && k < c.outputProcs
    ensures got + buf + SentTo(c, [r] + rest, k)
            == got + (if c.Target(r) == k then buf + [r] else buf) + SentTo(c, rest, k)
  {
    assert ([r] + rest)[1..] == rest;
  }

  lemma InputInOrder(c: Config, s: State, a: Action, k: nat)
    requires OneByOne(c) && Inv(c, s) && InputEnabled(c, s, a) && k < c.outputProcs && InOrder(c, s, k)
    ensures InOrder(c, InputNext(s, a), k)
  {
    if a.InputSend? {
      var b := s.pending[0];
      var ahead := Ahead(c, s.filters[0], s.inch.buf);
      RecordsOfSnoc(c, s.sent, b);
      MoreAhead(c, s.filters[0], s.inch.buf, b);
      AddLast(c, s.got[k] + s.outch[k].buf, ahead, RecordsOf(c, s.sent), RecordsOfLines(c, b), k);
    }
  }

  /** What is sent by the input comes after all the rest. */
  lemma AddLast(c: Config, behind: seq<OutRecord>, ahead: seq<OutRecord>, all: seq<OutRecord>,
                rs: seq<OutRecord>, k: nat)
    requires c.Valid() && behind + SentTo(c, ahead, k) == SentTo(c, all, k)
    ensures behind + SentTo(c, ahead + rs, k) == SentTo(c, all + rs, k)
  {
    SentToConcat(c, ahead, rs, k);
    SentToConcat(c, all, rs, k);
    Joined(behind, SentTo(c, ahead, k), SentTo(c, all, k), SentTo(c, rs, k));
  }

  lemma Joined<T>(a: seq<T>, b: seq<T>, ab: seq<T>, c: seq<T>)
    requires a + b == ab
    ensures a + (b + c) == ab + c
  {
  }

  lemma MoreAhead(c: Config, f: Filter, waiting: seq<Blob>, b: Blob)
    ensures Ahead(c, f, waiting + [b]) == Ahead(c, f, waiting) + RecordsOfLines(c, b)
  {
    RecordsOfSnoc(c, waiting, b);
  }

  lemma OutputInOrder(c: Config, s: State, a: Action, k: nat)
    requires OneByOne(c) && Inv(c, s) && OutputEnabled(c, s, a) && k < c.outputProcs && InOrder(c, s, k)
    ensures InOrder(c, OutputNext(c, s, a), k)
  {
    if a.OutputTake? && a.j == k {
      var buf := s.outch[k].buf;
      assert s.got[k] + [buf[0]] + buf[1..] == s.got[k] + buf;
    }
  }

  lemma StepInOrder(c: Config, s: State, a: Action)
    requires OneByOne(c) && Inv(c, s) && Enabled(c, s, a) && AllInOrder(c, s)
    ensures AllInOrder(c, Next(c, s, a))
  {
    forall k | 0 <= k < c.outputProcs ensures InOrder(c, Next(c, s, a), k) {
      assert InOrder(c, s, k);
      if a.UploaderExit? || a.WaiterStep? {
      } else if InputEnabled(c, s, a) {
        InputInOrder(c, s, a, k);
      } else if FilterEnabled(c, s, a) {
        FilterInOrder(c, s, a, k);
      } else {
        OutputInOrder(c, s, a, k);
      }
    }
  }

  // ---------------------------------------------------------------- whole runs

  lemma {:induction false} RunKeepsOrder(c: Config, blobs: seq<Blob>, steps: seq<Action>)
    requires OneByOne(c) && After(c, Init(c, blobs), steps).Some?
    ensures var s := After(c, Init(c, blobs), steps).value;
            Inv(c, s) && AllInOrder(c, s)
  {
    RunSafe(c, blobs, steps);
    if steps != [] {
      var init, a := steps[..|steps| - 1], steps[|steps| - 1];
      RunSafe(c, blobs, init);
      RunKeepsOrder(c, blobs, init);
      StepInOrder(c, After(c, Init(c, blobs), init).value, a);
    }
  }

  /**
   * Every output receives the records routed to it in the order of the input's lines, at any time a
   * first part of them, and all of them when Wait returns.
   */
  lemma RunInOrder(c: Config, blobs: seq<Blob>, steps: seq<Action>)
    requires OneByOne(c) && After(c, Init(c, blobs), steps).Some?
    ensures var s := After(c, Init(c, blobs), steps).value;
            && Shaped(c, s)
            && forall j | 0 <= j < c.outputProcs ::
                 && s.got[j] <= SentTo(c, RecordsOf(c, s.sent), j)
                 && (s.phase.Done? ==> s.got[j] == SentTo(c, RecordsOf(c, s.sent), j))
  {
    var s := After(c, Init(c, blobs), steps).value;
    RunKeepsOrder(c, blobs, steps);
    forall j | 0 <= j < c.outputProcs
      ensures s.got[j] <= SentTo(c, RecordsOf(c, s.sent), j)
      ensures s.phase.Done? ==> s.got[j] == SentTo(c, RecordsOf(c, s.sent), j)
    {
      assert InOrder(c, s, j);
      if s.phase.Done? {
        AllDrained(c, s);
        assert s.filters[0].Gone?;
      }
    }
  }

  /** A single output receives everything. */
  lemma {:induction false} AllSentTo(c: Config, rs: seq<OutRecord>)
    requires c.Valid() && c.outputProcs == 1
    ensures SentTo(c, rs, 0) == rs
  {
    if rs != [] {
      assert rs == [rs[0]] + rs[1..];
      AllSentTo(c, rs[1..]);
    }
  }

  // ---------------------------------------------------------------- two filters

  lemma AfterLast(c: Config, s: State, steps: seq<Action>, t: State, a: Action)
    requires c.Valid() && After(c, s, steps) == Some(t) && Shaped(c, t) && Enabled(c, t, a)
    ensures After(c, s, steps + [a]) == Some(Next(c, t, a))
  {
    assert (steps + [a])[..|steps|] == steps;
  }

  /** Two filters take a block each. */
  lemma BothTake(c: Config, a: Blob, b: Blob) returns (steps: seq<Action>, t: State)
    requires c.Valid() && c.filterProcs >= 2
    ensures After(c, Init(c, [a, b]), steps) == Some(t) && Shaped(c, t)
    ensures t.filters[1] == Busy(None, [], b) && t.sent == [a, b]
    ensures t.outputs == Init(c, [a, b]).outputs && t.outch == Init(c, [a, b]).outch && t.got == Init(c, [a, b]).got
  {
    var s0 := Init(c, [a, b]);
    AfterLast(c, s0, [], s0, InputSend);
    var s1 := Next(c, s0, InputSend);
    AfterLast(c, s0, [] + [InputSend], s1, FilterTake(0));
    var s2 := Next(c, s1, FilterTake(0));
    steps := [] + [InputSend] + [FilterTake(0)];
    AfterLast(c, s0, steps, s2, InputSend);
    var s3 := Next(c, s2, InputSend);
    AfterLast(c, s0, steps + [InputSend], s3, FilterTake(1));
    t, steps := Next(c, s3, FilterTake(1)), steps + [InputSend] + [FilterTake(1)];
  }

  /** The record of a line goes through its filter and its channel. */
  lemma PassesThrough(c: Config, s: State, i: nat, j: nat, y: OutRecord) returns (t: State)
    requires Shaped(c, s) && i < |s.filters| && s.filters[i].Busy? && s.filters[i].held.None?
    requires |s.filters[i].lines| == 1 && c.Judge(s.filters[i].lines[0]) == Chained([y])
    requires j < c.outputProcs && c.Target(y) == c.Source(j)
    requires OutputReady(s, j) && s.outch[c.Source(j)] == Chan([], false)
    ensures After(c, s, [FilterParse(i, None, NEW_RECORD)] + [FilterSend(i)] + [OutputTake(j, [])]) == Some(t)
    ensures Shaped(c, t) && t.sent == s.sent && t.got[j] == s.got[j] + [y]
  {
    var parse := FilterParse(i, None, NEW_RECORD);
    AfterLast(c, s, [], s, parse);
    var s1 := Next(c, s, parse);
    assert [] + [parse] == [parse];
    AfterLast(c, s, [parse], s1, FilterSend(i));
    var s2 := Next(c, s1, FilterSend(i));
    AfterLast(c, s, [parse] + [FilterSend(i)], s2, OutputTake(j, []));
    t := Next(c, s2, OutputTake(j, []));
  }

  lemma {:induction false} AfterBoth(c: Config, s: State, steps: seq<Action>, t: State, more: seq<Action>)
    requires c.Valid() && After(c, s, steps) == Some(t)
    ensures After(c, s, steps + more) == After(c, t, more)
  {
    if more == [] {
      assert steps + more == steps;
    } else {
      AfterBoth(c, s, steps, t, more[..|more| - 1]);
      assert (steps + more)[..|steps + more| - 1] == steps + more[..|more| - 1];
    }
  }

  /** With more filters than one the record of a later line may arrive first. */
  lemma OrderNeedsOneFilter(c: Config, l: Line, m: Line, x: OutRecord, y: OutRecord, j: nat)
      returns (steps: seq<Action>, t: State)
    requires c.Valid() && c.filterProcs >= 2 && j < c.outputProcs
    requires c.Judge(l) == Chained([x]) && c.Judge(m) == Chained([y])
    requires x != y && c.Target(x) == c.Target(y) == c.Source(j)
    ensures After(c, Init(c, [[l], [m]]), steps) == Some(t) && Shaped(c, t)
    ensures SentTo(c, RecordsOf(c, t.sent), c.Source(j)) == [x, y] && t.got[j] == [y]
  {
    var s;
    steps, s := BothTake(c, [l], [m]);
    t := PassesThrough(c, s, 1, j, y);
    var more := [FilterParse(1, None, NEW_RECORD)] + [FilterSend(1)] + [OutputTake(j, [])];
    AfterBoth(c, Init(c, [[l], [m]]), steps, s, more);
    steps := steps + more;
    TwoRecords(c, l, m, x, y, c.Source(j));
  }

  lemma TwoRecords(c: Config, l: Line, m: Line, x: OutRecord, y: OutRecord, k: nat)
    requires c.Valid() && c.Judge(l) == Chained([x]) && c.Judge(m) == Chained([y])
    requires c.Target(x) == c.Target(y) == k
    ensures SentTo(c, RecordsOf(c, [[l], [m]]), k) == [x, y]
  {
    assert RecordsOfLines(c, [l]) == [x] && RecordsOfLines(c, [m]) == [y];
    assert [[l], [m]][1..] == [[m]];
    assert RecordsOf(c, [[m]]) == [y] + RecordsOf(c, []);
    assert RecordsOf(c, [[l], [m]]) == [x, y];
    assert [x, y][1..] == [y];
    assert SentTo(c, [y], k) == [y] + SentTo(c, [], k);
  }
}
