/** What every run of the pipeline keeps, and why it ends. */
module TopologyLedger {
  import opened Bytes
  import opened Topology
  import opened TopologySafety

  /** What is counted: copies of one record, lines, blocks, or the work that is left. */
  datatype Tally = Copies(r: OutRecord) | Lines(kind: Kind) | Blobs | Work

  /** The three ways a line can end. */
  datatype Kind = Refused | Rejected | Handled

  function KindOf(c: Config, l: Line): Kind {
    match c.Judge(l)
    case Malformed => Refused
    case Invalid => Rejected
    case Chained(_) => Handled
  }

  function RecCost(m: Tally, stage: nat, x: OutRecord): nat {
    match m
    case Copies(r) => if x == r then 1 else 0
    case Work => stage
    case _ => 0
  }

  function RecsCost(m: Tally, stage: nat, rs: seq<OutRecord>): nat {
    if rs == [] then 0 else RecCost(m, stage, rs[0]) + RecsCost(m, stage, rs[1..])
  }

  function LineExtra(m: Tally, kind: Kind): nat {
    match m
    case Lines(k) => if k == kind then 1 else 0
    case Work => 2
    case _ => 0
  }

  function LineCost(c: Config, m: Tally, l: Line): nat {
    match c.Judge(l)
    case Chained(rs) => LineExtra(m, Handled) + RecsCost(m, 2, rs)
    case _ => LineExtra(m, KindOf(c, l))
  }

  function LinesCost(c: Config, m: Tally, ls: seq<Line>): nat {
    if ls == [] then 0 else LineCost(c, m, ls[0]) + LinesCost(c, m, ls[1..])
  }

  function BlobExtra(m: Tally, stage: nat): nat {
    match m
    case Blobs => 1
    case Work => stage
    case _ => 0
  }

  function BlobsCost(c: Config, m: Tally, stage: nat, bs: seq<Blob>): nat {
    if bs == [] then 0 else BlobExtra(m, stage) + LinesCost(c, m, bs[0]) + BlobsCost(c, m, stage, bs[1..])
  }

  function FilterCost(c: Config, m: Tally, f: Filter): nat {
    match f
    case Idle => if m == Work then 1 else 0
    case Busy(held, emit, ls) =>
      RecsCost(m, 2, emit) + LinesCost(c, m, ls) + BlobExtra(m, 2) + if m == Work && held.Some? then 1 else 0
    case Gone => 0
  }

  function FiltersCost(c: Config, m: Tally, fs: seq<Filter>): nat {
    if fs == [] then 0 else FilterCost(c, m, fs[0]) + FiltersCost(c, m, fs[1..])
  }

  function QueuesCost(m: Tally, chs: seq<Chan<OutRecord>>): nat {
    if chs == [] then 0 else RecsCost(m, 1, chs[0].buf) + QueuesCost(m, chs[1..])
  }

  function GotCost(m: Tally, got: seq<seq<OutRecord>>): nat {
    if got == [] then 0 else RecsCost(m, 0, got[0]) + GotCost(m, got[1..])
  }

  function Counted(m: Tally, n: Counters): nat {
    match m
    case Lines(Refused) => n.malformed
    case Lines(Rejected) => n.invalid
    case Lines(Handled) => n.chained
    case Blobs => n.freed
    case _ => 0
  }

  /** What is under way, delivered or accounted for. */
  function Ledger(c: Config, m: Tally, s: State): nat {
    BlobsCost(c, m, 2, s.inch.buf) + FiltersCost(c, m, s.filters) + QueuesCost(m, s.outch)
    + GotCost(m, s.got) + Counted(m, s.counters)
  }

  // ---------------------------------------------------------------- sums

  lemma {:induction false} RecsSnoc(m: Tally, stage: nat, rs: seq<OutRecord>, x: OutRecord)
    ensures RecsCost(m, stage, rs + [x]) == RecsCost(m, stage, rs) + RecCost(m, stage, x)
  {
    if rs != [] {
      assert (rs + [x])[1..] == rs[1..] + [x];
      RecsSnoc(m, stage, rs[1..], x);
    } else {
      assert [x][1..] == [];
    }
  }

  lemma {:induction false} BlobsSnoc(c: Config, m: Tally, stage: nat, bs: seq<Blob>, b: Blob)
    ensures BlobsCost(c, m, stage, bs + [b]) == BlobsCost(c, m, stage, bs) + BlobExtra(m, stage) + LinesCost(c, m, b)
  {
    if bs != [] {
      assert (bs + [b])[1..] == bs[1..] + [b];
      BlobsSnoc(c, m, stage, bs[1..], b);
    } else {
      assert [b][1..] == [];
    }
  }

  lemma {:induction false} FiltersUpdate(c: Config, m: Tally, fs: seq<Filter>, i: nat, f: Filter)
    requires i < |fs|
    ensures FiltersCost(c, m, fs[i := f]) + FilterCost(c, m, fs[i]) == FiltersCost(c, m, fs) + FilterCost(c, m, f)
  {
    if i > 0 {
      assert fs[i := f][1..] == fs[1..][i - 1 := f];
      FiltersUpdate(c, m, fs[1..], i - 1, f);
    }
  }

  lemma {:induction false} QueuesUpdate(m: Tally, chs: seq<Chan<OutRecord>>, k: nat, ch: Chan<OutRecord>)
    requires k < |chs|
    ensures QueuesCost(m, chs[k := ch]) + RecsCost(m, 1, chs[k].buf) == QueuesCost(m, chs) + RecsCost(m, 1, ch.buf)
  {
    if k > 0 {
      assert chs[k := ch][1..] == chs[1..][k - 1 := ch];
      QueuesUpdate(m, chs[1..], k - 1, ch);
    }
  }

  lemma {:induction false} GotUpdate(m: Tally, got: seq<seq<OutRecord>>, j: nat, rs: seq<OutRecord>)
    requires j < |got|
    ensures GotCost(m, got[j := rs]) + RecsCost(m, 0, got[j]) == GotCost(m, got) + RecsCost(m, 0, rs)
  {
    if j > 0 {
      assert got[j := rs][1..] == got[1..][j - 1 := rs];
      GotUpdate(m, got[1..], j - 1, rs);
    }
  }

  // ---------------------------------------------------------------- one step

  /** The ledger balances, and the work left gets less. */
  predicate Moves(m: Tally, was: nat, now: nat) {
    if m == Work then now < was else now == was
  }

  lemma TakeMoves(c: Config, m: Tally, s: State, i: nat)
    requires Inv(c, s) && FilterEnabled(c, s, FilterTake(i))
    ensures Moves(m, Ledger(c, m, s), Ledger(c, m, FilterNext(c, s, FilterTake(i))))
  {
    FiltersUpdate(c, m, s.filters, i, Busy(None, [], s.inch.buf[0]));
  }

  lemma LineMoves(c: Config, m: Tally, f: Filter, n: Counters, left: Record)
    requires f.Busy? && f.held.None? && f.emit == [] && f.lines != []
    ensures var v := c.Judge(f.lines[0]);
            Moves(m, FilterCost(c, m, f) + Counted(m, n),
                  FilterCost(c, m, Parsed(f, v, left)) + Counted(m, Tallied(n, v)))
  {
  }

  /** A line is judged as it should be because the record it is parsed into is as new. */
  lemma ParseMoves(c: Config, m: Tally, s: State, i: nat, slot: Option<nat>, left: Record)
    requires Inv(c, s) && FilterEnabled(c, s, FilterParse(i, slot, left))
    ensures Moves(m, Ledger(c, m, s), Ledger(c, m, ParseNext(c, s, i, slot, left)))
  {
    var f := s.filters[i];
    PoolKeeps(s.pool, slot);
    FiltersUpdate(c, m, s.filters, i, Parsed(f, c.Judge(f.lines[0]), left));
    LineMoves(c, m, f, s.counters, left);
  }

  lemma SendMoves(c: Config, m: Tally, s: State, i: nat)
    requires Inv(c, s) && FilterEnabled(c, s, FilterSend(i))
    ensures Moves(m, Ledger(c, m, s), Ledger(c, m, FilterNext(c, s, FilterSend(i))))
  {
    var f := s.filters[i];
    var r := f.emit[0];
    var k := c.Target(r);
    FiltersUpdate(c, m, s.filters, i, f.(emit := f.emit[1..]));
    QueuesUpdate(m, s.outch, k, Send(s.outch[k], r));
    RecsSnoc(m, 1, s.outch[k].buf, r);
  }

  lemma FilterMoves(c: Config, m: Tally, s: State, a: Action)
    requires Inv(c, s) && FilterEnabled(c, s, a)
    ensures Moves(m, Ledger(c, m, s), Ledger(c, m, FilterNext(c, s, a)))
  {
    match a
    case FilterTake(i) => TakeMoves(c, m, s, i);
    case FilterParse(i, slot, left) => ParseMoves(c, m, s, i, slot, left);
    case FilterSend(i) => SendMoves(c, m, s, i);
    case FilterExit(i) => FiltersUpdate(c, m, s.filters, i, Gone);
    case FilterRecycle(i) => FiltersUpdate(c, m, s.filters, i, s.filters[i].(held := None));
    case FilterFree(i) => FiltersUpdate(c, m, s.filters, i, Idle);
  }

  lemma ReceiveMoves(c: Config, m: Tally, s: State, j: nat, ups: seq<Path>)
    requires Inv(c, s) && OutputEnabled(c, s, OutputTake(j, ups))
    ensures Moves(m, Ledger(c, m, s), Ledger(c, m, OutputNext(c, s, OutputTake(j, ups))))
  {
    var k := c.Source(j);
    var ch := s.outch[k];
    QueuesUpdate(m, s.outch, k, ch.(buf := ch.buf[1..]));
    GotUpdate(m, s.got, j, s.got[j] + [ch.buf[0]]);
    RecsSnoc(m, 0, s.got[j], ch.buf[0]);
  }

  /** Everything sent is still under way, delivered or accounted for. */
  ghost predicate Balanced(c: Config, m: Tally, s: State) {
    Ledger(c, m, s) == BlobsCost(c, m, 2, s.sent)
  }

  lemma InputBalanced(c: Config, m: Tally, s: State, a: Action)
    requires Inv(c, s) && InputEnabled(c, s, a) && m != Work && Balanced(c, m, s)
    ensures Balanced(c, m, InputNext(s, a))
  {
    if a.InputSend? {
      BlobsSnoc(c, m, 2, s.inch.buf, s.pending[0]);
      BlobsSnoc(c, m, 2, s.sent, s.pending[0]);
    }
  }

  lemma WaiterMoves(c: Config, m: Tally, s: State)
    requires Inv(c, s)
    ensures Ledger(c, m, WaiterNext(c, s)) == Ledger(c, m, s)
  {
    if s.phase.CloseOut? && s.phase.k < |s.outch| {
      QueuesUpdate(m, s.outch, s.phase.k, s.outch[s.phase.k].(closed := true));
    }
  }

  lemma StepBalanced(c: Config, m: Tally, s: State, a: Action)
    requires Inv(c, s) && Enabled(c, s, a) && m != Work && Balanced(c, m, s)
    ensures Balanced(c, m, Next(c, s, a))
  {
    if a.UploaderExit? {
    } else if a.WaiterStep? {
      WaiterMoves(c, m, s);
    } else if InputEnabled(c, s, a) {
      InputBalanced(c, m, s, a);
    } else if FilterEnabled(c, s, a) {
      FilterMoves(c, m, s, a);
    } else if a.OutputTake? {
      ReceiveMoves(c, m, s, a.j, a.uploads);
    }
  }

  // ---------------------------------------------------------------- the end comes

  function OutputCost(o: Output): nat {
    if o.gone then 0 else if o.draining then 1 else 2
  }

  function OutputsCost(os: seq<Output>): nat {
    if os == [] then 0 else OutputCost(os[0]) + OutputsCost(os[1..])
  }

  function UploadsLeft(os: seq<Output>): nat {
    if os == [] then 0 else |os[0].uploads| + UploadsLeft(os[1..])
  }

  lemma {:induction false} OutputsUpdate(os: seq<Output>, j: nat, o: Output)
    requires j < |os|
    ensures OutputsCost(os[j := o]) + OutputCost(os[j]) == OutputsCost(os) + OutputCost(o)
    ensures UploadsLeft(os[j := o]) + |os[j].uploads| == UploadsLeft(os) + |o.uploads|
  {
    if j > 0 {
      assert os[j := o][1..] == os[1..][j - 1 := o];
      OutputsUpdate(os[1..], j - 1, o);
    }
  }

  function PhasesLeft(s: State): int {
    10 - Rank(s.phase) + |s.outch| - if s.phase.CloseOut? then s.phase.k else if Rank(s.phase) > 3 then |s.outch| else 0
  }

  function Flag(done: bool): nat { if done then 0 else 1 }

  function WorkLeft(c: Config, s: State): int {
    Ledger(c, Work, s) + BlobsCost(c, Work, 3, s.pending) + OutputsCost(s.outputs)
    + Flag(s.stopping) + Flag(s.inputDone) + Flag(s.uploaderDone) + PhasesLeft(s)
  }

  lemma InputWorks(c: Config, s: State, a: Action)
    requires Inv(c, s) && InputEnabled(c, s, a)
    ensures WorkLeft(c, InputNext(s, a)) < WorkLeft(c, s)
  {
    if a.InputSend? {
      BlobsSnoc(c, Work, 2, s.inch.buf, s.pending[0]);
    }
  }

  lemma WaiterWorks(c: Config, s: State)
    requires Inv(c, s) && WaiterEnabled(s)
    ensures WorkLeft(c, WaiterNext(c, s)) < WorkLeft(c, s)
  {
    WaiterMoves(c, Work, s);
  }

  lemma FilterWorks(c: Config, s: State, a: Action)
    requires Inv(c, s) && FilterEnabled(c, s, a)
    ensures WorkLeft(c, FilterNext(c, s, a)) < WorkLeft(c, s)
  {
    FilterMoves(c, Work, s, a);
  }

  lemma OutputWorks(c: Config, s: State, a: Action)
    requires Inv(c, s) && OutputEnabled(c, s, a)
    ensures var t := OutputNext(c, s, a);
            WorkLeft(c, t) < WorkLeft(c, s)
            || (WorkLeft(c, t) == WorkLeft(c, s) && UploadsLeft(t.outputs) < UploadsLeft(s.outputs))
  {
    var t := OutputNext(c, s, a);
    OutputsUpdate(s.outputs, a.j, t.outputs[a.j]);
    if a.OutputTake? {
      ReceiveMoves(c, Work, s, a.j, a.uploads);
    }
  }

  /** Every step leaves less work, or as much of it and fewer uploads. */
  lemma StepWorks(c: Config, s: State, a: Action)
    requires Inv(c, s) && Enabled(c, s, a)
    ensures var t := Next(c, s, a);
            WorkLeft(c, t) < WorkLeft(c, s)
            || (WorkLeft(c, t) == WorkLeft(c, s) && UploadsLeft(t.outputs) < UploadsLeft(s.outputs))
  {
    if a.UploaderExit? {
    } else if a.WaiterStep? {
      WaiterWorks(c, s);
    } else if InputEnabled(c, s, a) {
      InputWorks(c, s, a);
    } else if FilterEnabled(c, s, a) {
      FilterWorks(c, s, a);
    } else {
      OutputWorks(c, s, a);
    }
  }

  lemma WorkBounded(c: Config, s: State)
    requires Inv(c, s)
    ensures WorkLeft(c, s) >= 0
  {
  }
}
