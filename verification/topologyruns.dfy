/** Runs of the pipeline, whatever the order of its steps. */
module TopologyRuns {
  import opened Bytes
  import opened Topology
  import opened TopologySafety
  import opened TopologyLedger

  /** The state after some steps, if each of them could be taken. */
  function After(c: Config, s: State, steps: seq<Action>): Option<State>
    requires c.Valid()
  {
    if steps == [] then Some(s)
    else match After(c, s, steps[..|steps| - 1])
      case None => None
      case Some(t) =>
        var a := steps[|steps| - 1];
        if Shaped(c, t) && Enabled(c, t, a) then Some(Next(c, t, a)) else None
  }

  /** The input sends its blocks in order, all of them unless it is stopped. */
  ghost predicate Fed(blobs: seq<Blob>, s: State) {
    s.sent <= blobs && (s.sent + s.pending == blobs || (s.stopping && s.inputDone))
  }

  ghost predicate AllBalanced(c: Config, s: State) {
    forall m: Tally | m != Work :: Balanced(c, m, s)
  }

  lemma {:induction false} EmptyCosts(c: Config, m: Tally, n: nat)
    requires m != Work
    ensures FiltersCost(c, m, Repeat(Idle, n)) == 0
    ensures QueuesCost(m, Repeat(Chan([], false), n)) == 0 && GotCost(m, Repeat([], n)) == 0
  {
    if n > 0 {
      EmptyCosts(c, m, n - 1);
      assert Repeat<Filter>(Idle, n)[1..] == Repeat(Idle, n - 1);
      assert Repeat<Chan<OutRecord>>(Chan([], false), n)[1..] == Repeat(Chan([], false), n - 1);
      assert Repeat<seq<OutRecord>>([], n)[1..] == Repeat([], n - 1);
    }
  }

  lemma InitBalanced(c: Config, blobs: seq<Blob>)
    requires c.Valid()
    ensures AllBalanced(c, Init(c, blobs))
  {
    forall m: Tally | m != Work ensures Balanced(c, m, Init(c, blobs)) {
      EmptyCosts(c, m, c.filterProcs);
      EmptyCosts(c, m, c.outputProcs);
    }
  }

  lemma StepFed(c: Config, blobs: seq<Blob>, s: State, a: Action)
    requires Inv(c, s) && Enabled(c, s, a) && Fed(blobs, s)
    ensures Fed(blobs, Next(c, s, a))
  {
    if a.InputSend? && InputEnabled(c, s, a) {
      assert s.pending == [s.pending[0]] + s.pending[1..];
    }
  }

  /** A sharded record is in, or came through, the channel its shard value modulo the outputs selects. */
  ghost predicate ByShard(c: Config, s: State)
    requires Shaped(c, s)
  {
    && (forall j, r | 0 <= j < |s.outch| && (r in s.outch[j].buf || r in s.got[j]) ::
          c.sharded ==> r.shard % c.outputProcs == j)
    && (!c.sharded ==> forall k | 0 < k < |s.outch| :: s.outch[k].buf == [])
  }

  /** Two records were received by the same output exactly when their shard values are congruent. */
  ghost predicate ShardsTogether(c: Config, s: State)
    requires c.Valid()
  {
    c.sharded ==>
      forall i, j, q, r | 0 <= i < |s.got| && 0 <= j < |s.got| && q in s.got[i] && r in s.got[j] ::
        i == j <==> q.shard % c.outputProcs == r.shard % c.outputProcs
  }

  lemma ShardsAre(c: Config, s: State)
    requires Inv(c, s)
    ensures ByShard(c, s) && ShardsTogether(c, s)
  {
    forall j, r | 0 <= j < |s.outch| && (r in s.outch[j].buf || r in s.got[j])
      ensures c.sharded ==> r.shard % c.outputProcs == j
    {
      assert r in s.outch[j].buf ==> c.Target(r) == j;
      assert r in s.got[j] ==> c.Target(r) == c.Source(j);
    }
    forall k | !c.sharded && 0 < k < |s.outch| ensures s.outch[k].buf == [] {
      assert s.outch[k].buf != [] ==> c.Target(s.outch[k].buf[0]) == k;
    }
  }

  lemma {:induction false} RunKeeps(c: Config, blobs: seq<Blob>, steps: seq<Action>)
    requires c.Valid() && After(c, Init(c, blobs), steps).Some?
    ensures var s := After(c, Init(c, blobs), steps).value;
            Inv(c, s) && AllBalanced(c, s) && Fed(blobs, s)
  {
    if steps == [] {
      InitInv(c, blobs);
      InitBalanced(c, blobs);
    } else {
      var init, a := steps[..|steps| - 1], steps[|steps| - 1];
      RunKeeps(c, blobs, init);
      var s := After(c, Init(c, blobs), init).value;
      StepKeeps(c, s, a);
      StepFed(c, blobs, s, a);
      forall m: Tally | m != Work ensures Balanced(c, m, Next(c, s, a)) {
        StepBalanced(c, m, s, a);
      }
    }
  }

  /** In every state of every run the invariant holds and nothing was lost or made up. */
  lemma RunSafe(c: Config, blobs: seq<Blob>, steps: seq<Action>)
    requires c.Valid() && After(c, Init(c, blobs), steps).Some?
    ensures var s := After(c, Init(c, blobs), steps).value;
            Inv(c, s) && AllBalanced(c, s) && Fed(blobs, s) && ByShard(c, s)
  {
    RunKeeps(c, blobs, steps);
    ShardsAre(c, After(c, Init(c, blobs), steps).value);
  }

  // ---------------------------------------------------------------- at the end

  /** The records of the lines, as they leave the filter chain. */
  function RecordsOfLines(c: Config, ls: seq<Line>): seq<OutRecord> {
    if ls == [] then [] else
      (match c.Judge(ls[0]) case Chained(rs) => rs case _ => []) + RecordsOfLines(c, ls[1..])
  }

  function RecordsOf(c: Config, bs: seq<Blob>): seq<OutRecord> {
    if bs == [] then [] else RecordsOfLines(c, bs[0]) + RecordsOf(c, bs[1..])
  }

  function Received(got: seq<seq<OutRecord>>): seq<OutRecord> {
    if got == [] then [] else got[0] + Received(got[1..])
  }

  function LineCount(bs: seq<Blob>): nat {
    if bs == [] then 0 else |bs[0]| + LineCount(bs[1..])
  }

  /** The lines of one kind. */
  function OfKind(c: Config, kind: Kind, ls: seq<Line>): nat {
    if ls == [] then 0 else (if KindOf(c, ls[0]) == kind then 1 else 0) + OfKind(c, kind, ls[1..])
  }

  function KindCount(c: Config, kind: Kind, bs: seq<Blob>): nat {
    if bs == [] then 0 else OfKind(c, kind, bs[0]) + KindCount(c, kind, bs[1..])
  }

  lemma {:induction false} KindsOfLines(c: Config, ls: seq<Line>)
    ensures OfKind(c, Refused, ls) + OfKind(c, Rejected, ls) + OfKind(c, Handled, ls) == |ls|
  {
    if ls != [] { KindsOfLines(c, ls[1..]); }
  }

  /** Every line is of one kind. */
  lemma {:induction false} KindsAddUp(c: Config, bs: seq<Blob>)
    ensures KindCount(c, Refused, bs) + KindCount(c, Rejected, bs) + KindCount(c, Handled, bs) == LineCount(bs)
  {
    if bs != [] {
      KindsAddUp(c, bs[1..]);
      KindsOfLines(c, bs[0]);
    }
  }

  lemma {:induction false} CopiesAre(r: OutRecord, stage: nat, rs: seq<OutRecord>)
    ensures RecsCost(Copies(r), stage, rs) == multiset(rs)[r]
  {
    if rs != [] {
      CopiesAre(r, stage, rs[1..]);
      assert rs == [rs[0]] + rs[1..];
    }
  }

  lemma {:induction false} LinesCopies(c: Config, r: OutRecord, ls: seq<Line>)
    ensures LinesCost(c, Copies(r), ls) == multiset(RecordsOfLines(c, ls))[r]
  {
    if ls != [] {
      LinesCopies(c, r, ls[1..]);
      match c.Judge(ls[0])
      case Chained(rs) => CopiesAre(r, 2, rs);
      case _ =>
    }
  }

  lemma {:induction false} BlobsCopies(c: Config, r: OutRecord, bs: seq<Blob>)
    ensures BlobsCost(c, Copies(r), 2, bs) == multiset(RecordsOf(c, bs))[r]
  {
    if bs != [] {
      BlobsCopies(c, r, bs[1..]);
      LinesCopies(c, r, bs[0]);
    }
  }

  lemma {:induction false} GotCopies(r: OutRecord, got: seq<seq<OutRecord>>)
    ensures GotCost(Copies(r), got) == multiset(Received(got))[r]
  {
    if got != [] {
      GotCopies(r, got[1..]);
      CopiesAre(r, 0, got[0]);
    }
  }

  lemma {:induction false} RecsFree(m: Tally, stage: nat, rs: seq<OutRecord>)
    requires m.Lines? || m.Blobs?
    ensures RecsCost(m, stage, rs) == 0
  {
    if rs != [] { RecsFree(m, stage, rs[1..]); }
  }

  lemma {:induction false} GotFree(m: Tally, got: seq<seq<OutRecord>>)
    requires m.Lines? || m.Blobs?
    ensures GotCost(m, got) == 0
  {
    if got != [] {
      GotFree(m, got[1..]);
      RecsFree(m, 0, got[0]);
    }
  }

  lemma {:induction false} LinesAre(c: Config, m: Tally, ls: seq<Line>)
    requires m.Lines? || m.Blobs?
    ensures LinesCost(c, m, ls) == if m.Lines? then OfKind(c, m.kind, ls) else 0
  {
    if ls != [] {
      LinesAre(c, m, ls[1..]);
      match c.Judge(ls[0])
      case Chained(rs) => RecsFree(m, 2, rs);
      case _ =>
    }
  }

  lemma {:induction false} BlobsAre(c: Config, m: Tally, bs: seq<Blob>)
    requires m.Lines? || m.Blobs?
    ensures BlobsCost(c, m, 2, bs) == if m.Lines? then KindCount(c, m.kind, bs) else |bs|
  {
    if bs != [] {
      BlobsAre(c, m, bs[1..]);
      LinesAre(c, m, bs[0]);
    }
  }

  lemma {:induction false} NothingFiltered(c: Config, m: Tally, fs: seq<Filter>)
    requires forall i | 0 <= i < |fs| :: fs[i].Gone?
    ensures FiltersCost(c, m, fs) == 0
  {
    if fs != [] { NothingFiltered(c, m, fs[1..]); }
  }

  lemma {:induction false} NothingQueued(m: Tally, chs: seq<Chan<OutRecord>>)
    requires forall k | 0 <= k < |chs| :: chs[k].buf == []
    ensures QueuesCost(m, chs) == 0
  {
    if chs != [] { NothingQueued(m, chs[1..]); }
  }

  /** No record is left in a channel when all outputs are gone. */
  lemma AllDrained(c: Config, s: State)
    requires Inv(c, s) && s.phase.Done?
    ensures s.inch.buf == [] && forall k | 0 <= k < |s.outch| :: s.outch[k].buf == []
  {
    assert s.filters[0].Gone?;
    forall k | 0 <= k < |s.outch| ensures s.outch[k].buf == [] {
      assert s.outputs[k].gone;
      assert s.outch[k].buf != [] ==> c.Target(s.outch[k].buf[0]) == k;
    }
  }

  lemma AtTheEnd(c: Config, m: Tally, s: State)
    requires Inv(c, s) && s.phase.Done? && Balanced(c, m, s)
    ensures GotCost(m, s.got) + Counted(m, s.counters) == BlobsCost(c, m, 2, s.sent)
  {
    AllDrained(c, s);
    NothingFiltered(c, m, s.filters);
    NothingQueued(m, s.outch);
  }

  /** Every channel there is was closed. */
  ghost predicate AllClosed(c: Config, s: State)
    requires Shaped(c, s)
  {
    s.inch.closed && s.upClosed && forall k | 0 <= k < |s.outch| && (k == 0 || c.sharded) :: s.outch[k].closed
  }

  /**
   * When Wait returns, every record that left the filter chain was received once by one output, every
   * line sent by the input was counted once, every block was given back, and all channels are closed.
   */
  lemma RunDelivers(c: Config, blobs: seq<Blob>, steps: seq<Action>)
    requires c.Valid() && After(c, Init(c, blobs), steps).Some?
    ensures var s := After(c, Init(c, blobs), steps).value;
            && Shaped(c, s) && !s.panicked && AllNew(s.pool) && ByShard(c, s) && ShardsTogether(c, s)
            && (s.phase.Done? ==>
                  && AllClosed(c, s)
                  && s.sent <= blobs && (s.stopping || s.sent == blobs)
                  && multiset(Received(s.got)) == multiset(RecordsOf(c, s.sent))
                  && s.counters.malformed == KindCount(c, Refused, s.sent)
                  && s.counters.invalid == KindCount(c, Rejected, s.sent)
                  && s.counters.chained == KindCount(c, Handled, s.sent)
                  && s.counters.malformed + s.counters.invalid + s.counters.chained == LineCount(s.sent)
                  && s.counters.freed == |s.sent|)
  {
    var s := After(c, Init(c, blobs), steps).value;
    RunSafe(c, blobs, steps);
    ShardsAre(c, s);
    if s.phase.Done? {
      Delivered(c, s);
      KindsAddUp(c, s.sent);
      ClosedAll(c, s);
    }
  }

  lemma ClosedAll(c: Config, s: State)
    requires Inv(c, s) && s.phase.Done?
    ensures AllClosed(c, s)
  {
  }

  lemma CountedAtEnd(c: Config, m: Tally, s: State)
    requires Inv(c, s) && AllBalanced(c, s) && s.phase.Done? && (m.Lines? || m.Blobs?)
    ensures Counted(m, s.counters) == if m.Lines? then KindCount(c, m.kind, s.sent) else |s.sent|
  {
    assert Balanced(c, m, s);
    AtTheEnd(c, m, s);
    BlobsAre(c, m, s.sent);
    GotFree(m, s.got);
  }

  lemma Delivered(c: Config, s: State)
    requires Inv(c, s) && AllBalanced(c, s) && s.phase.Done?
    ensures multiset(Received(s.got)) == multiset(RecordsOf(c, s.sent))
    ensures s.counters.malformed == KindCount(c, Refused, s.sent)
    ensures s.counters.invalid == KindCount(c, Rejected, s.sent)
    ensures s.counters.chained == KindCount(c, Handled, s.sent)
    ensures s.counters.freed == |s.sent|
  {
    CountedAtEnd(c, Lines(Refused), s);
    CountedAtEnd(c, Lines(Rejected), s);
    CountedAtEnd(c, Lines(Handled), s);
    CountedAtEnd(c, Blobs, s);
    forall r ensures multiset(Received(s.got))[r] == multiset(RecordsOf(c, s.sent))[r] {
      assert Balanced(c, Copies(r), s);
      AtTheEnd(c, Copies(r), s);
      GotCopies(r, s.got);
      BlobsCopies(c, r, s.sent);
    }
  }

  /** No run goes on for ever: an endless sequence of steps would contradict this. */
  lemma {:induction false} NoEndlessRun(c: Config, states: nat -> State, steps: nat -> Action, k: nat)
    requires Inv(c, states(k))
    requires forall n: nat :: Shaped(c, states(n)) && Enabled(c, states(n), steps(n))
                             && states(n + 1) == Next(c, states(n), steps(n))
    ensures false
    decreases WorkLeft(c, states(k)), UploadsLeft(states(k).outputs)
  {
    StepKeeps(c, states(k), steps(k));
    StepWorks(c, states(k), steps(k));
    WorkBounded(c, states(k + 1));
    NoEndlessRun(c, states, steps, k + 1);
  }

  /**
   * From any state of a run, steps can be taken that bring it to the end; once it was stopped, without
   * any more input.
   */
  lemma {:induction false} CanFinish(c: Config, s: State) returns (steps: seq<Action>)
    requires Inv(c, s)
    ensures After(c, s, steps).Some? && After(c, s, steps).value.phase.Done?
    ensures s.stopping ==> After(c, s, steps).value.sent == s.sent
    decreases WorkLeft(c, s), UploadsLeft(s.outputs)
  {
    steps := [];
    if !s.phase.Done? {
      var a := Progress(c, s);
      StepKeeps(c, s, a);
      StepWorks(c, s, a);
      WorkBounded(c, Next(c, s, a));
      InputStopped(c, s, a);
      var rest := CanFinish(c, Next(c, s, a));
      AfterFirst(c, s, a, rest);
      steps := [a] + rest;
    }
  }

  lemma InputStopped(c: Config, s: State, a: Action)
    requires c.Valid() && Shaped(c, s) && Enabled(c, s, a)
    ensures s.stopping ==> Next(c, s, a).stopping && (!a.InputSend? ==> Next(c, s, a).sent == s.sent)
  {
    if FilterEnabled(c, s, a) {
      FilterSendsNothing(c, s, a);
    } else if OutputEnabled(c, s, a) {
      OutputSendsNothing(c, s, a);
    }
  }

  lemma FilterSendsNothing(c: Config, s: State, a: Action)
    requires Shaped(c, s) && FilterEnabled(c, s, a)
    ensures FilterNext(c, s, a).sent == s.sent && FilterNext(c, s, a).stopping == s.stopping
  {
  }

  lemma OutputSendsNothing(c: Config, s: State, a: Action)
    requires Shaped(c, s) && OutputEnabled(c, s, a)
    ensures OutputNext(c, s, a).sent == s.sent && OutputNext(c, s, a).stopping == s.stopping
  {
  }

  lemma {:induction false} AfterFirst(c: Config, s: State, a: Action, rest: seq<Action>)
    requires c.Valid() && Shaped(c, s) && Enabled(c, s, a)
    ensures After(c, s, [a] + rest) == After(c, Next(c, s, a), rest)
  {
    if rest == [] {
      assert ([a] + rest)[..0] == [];
    } else {
      AfterFirst(c, s, a, rest[..|rest| - 1]);
      assert ([a] + rest)[..|[a] + rest| - 1] == [a] + rest[..|rest| - 1];
    }
  }
}
