/** No step panics, every channel is closed once, and the pipeline never gets stuck. */
module TopologySafety {
  import opened Bytes
  import opened Topology

  function Rank(p: Phase): nat {
    match p
    case AwaitInput => 0
    case CloseIn => 1
    case AwaitFilters => 2
    case CloseOut(_) => 3
    case AwaitOutputs => 4
    case CloseUp => 5
    case AwaitUploader => 6
    case Done => 7
  }

  /** The output channels there are, and of those the ones closed so far. */
  predicate OutClosed(c: Config, p: Phase, k: nat) {
    (k == 0 || c.sharded) && (Rank(p) > 3 || (p.CloseOut? && k < p.k))
  }

  ghost predicate InputInv(s: State) {
    && (s.inch.closed <==> Rank(s.phase) >= 2)
    && (Rank(s.phase) >= 1 ==> s.inputDone)
    && (s.inputDone ==> s.pending == [])
  }

  ghost predicate FilterInv(s: State) {
    && (forall i | 0 <= i < |s.filters| :: FilterFine(s, s.filters[i]))
    && (Rank(s.phase) >= 3 ==> forall i | 0 <= i < |s.filters| :: s.filters[i].Gone?)
    && AllNew(s.pool)
  }

  ghost predicate AllNew(pool: seq<Record>) {
    forall k | 0 <= k < |pool| :: pool[k] == NEW_RECORD
  }

  ghost predicate FilterFine(s: State, f: Filter) {
    match f
    case Idle => true
    case Busy(held, emit, _) => emit != [] ==> held.Some?
    case Gone => s.inch.closed && s.inch.buf == []
  }

  ghost predicate OutputInv(c: Config, s: State)
    requires Shaped(c, s)
  {
    && (forall k | 0 <= k < |s.outch| :: s.outch[k].closed <==> OutClosed(c, s.phase, k))
    && (s.phase.CloseOut? ==> s.phase.k <= |s.outch|)
    && (forall j | 0 <= j < |s.outputs| :: OutputFine(s.outch[c.Source(j)], s.outputs[j]))
    && (Rank(s.phase) >= 5 ==> forall j | 0 <= j < |s.outputs| :: s.outputs[j].gone)
  }

  ghost predicate OutputFine(ch: Chan<OutRecord>, o: Output) {
    (o.draining ==> ch.closed && ch.buf == []) && (o.gone ==> o.draining && o.uploads == [])
  }

  ghost predicate UploadInv(s: State) {
    && (s.upClosed <==> Rank(s.phase) >= 6)
    && (s.uploaderDone ==> s.upClosed)
    && (s.phase.Done? ==> s.uploaderDone)
  }

  /** A record is in, or came through, the channel its shard value selects. */
  ghost predicate Routed(c: Config, s: State)
    requires Shaped(c, s)
  {
    && (forall k, r | 0 <= k < |s.outch| && r in s.outch[k].buf :: c.Target(r) == k)
    && (forall j, r | 0 <= j < |s.got| && r in s.got[j] :: c.Target(r) == c.Source(j))
  }

  /** No channel holds more than its capacity. */
  ghost predicate Bounded(c: Config, s: State)
    requires Shaped(c, s)
  {
    |s.inch.buf| <= c.inSize && forall k | 0 <= k < |s.outch| :: |s.outch[k].buf| <= c.outSize
  }

  ghost predicate Inv(c: Config, s: State) {
    && Shaped(c, s) && !s.panicked && Bounded(c, s)
    && InputInv(s) && FilterInv(s) && OutputInv(c, s) && UploadInv(s) && Routed(c, s)
  }

  lemma InitInv(c: Config, blobs: seq<Blob>)
    requires c.Valid()
    ensures Inv(c, Init(c, blobs))
  {
  }

  lemma InputKeeps(c: Config, s: State, a: Action)
    requires Inv(c, s) && InputEnabled(c, s, a)
    ensures Inv(c, InputNext(s, a))
  {
  }

  lemma PoolKeeps(pool: seq<Record>, slot: Option<nat>)
    requires AllNew(pool) && (slot.Some? ==> slot.value < |pool|)
    ensures SlotTaken(pool, slot) == NEW_RECORD && AllNew(PoolLeft(pool, slot))
  {
  }

  lemma FilterChanges(c: Config, s: State, i: nat, f: Filter, pool: seq<Record>, n: Counters)
    requires Inv(c, s) && i < |s.filters| && s.filters[i].Busy? && f.Busy? && FilterFine(s, f) && AllNew(pool)
    ensures Inv(c, s.(filters := s.filters[i := f], pool := pool, counters := n))
  {
  }

  lemma ParseKeeps(c: Config, s: State, i: nat, slot: Option<nat>, left: Record)
    requires Inv(c, s) && FilterEnabled(c, s, FilterParse(i, slot, left))
    ensures Inv(c, ParseNext(c, s, i, slot, left))
  {
    PoolKeeps(s.pool, slot);
    var t := ParseNext(c, s, i, slot, left);
    FilterChanges(c, s, i, t.filters[i], t.pool, t.counters);
  }

  lemma SendKeeps(c: Config, s: State, i: nat)
    requires Inv(c, s) && FilterEnabled(c, s, FilterSend(i))
    ensures Inv(c, FilterNext(c, s, FilterSend(i)))
  {
    var k := c.Target(s.filters[i].emit[0]);
    assert k == 0 || c.sharded;
  }

  lemma FilterKeeps(c: Config, s: State, a: Action)
    requires Inv(c, s) && FilterEnabled(c, s, a)
    ensures Inv(c, FilterNext(c, s, a))
  {
    match a
    case FilterParse(i, slot, left) => ParseKeeps(c, s, i, slot, left);
    case FilterSend(i) => SendKeeps(c, s, i);
    case _ =>
  }

  lemma OutputKeeps(c: Config, s: State, a: Action)
    requires Inv(c, s) && OutputEnabled(c, s, a)
    ensures Inv(c, OutputNext(c, s, a))
  {
  }

  lemma WaiterKeeps(c: Config, s: State)
    requires Inv(c, s) && WaiterEnabled(s)
    ensures Inv(c, WaiterNext(c, s))
  {
    if s.phase.CloseOut? {
      CloseOutKeeps(c, s);
    }
  }

  lemma CloseOutKeeps(c: Config, s: State)
    requires Inv(c, s) && s.phase.CloseOut?
    ensures Inv(c, WaiterNext(c, s))
  {
  }

  lemma StepKeeps(c: Config, s: State, a: Action)
    requires Inv(c, s) && Enabled(c, s, a)
    ensures Inv(c, Next(c, s, a))
  {
    if a.UploaderExit? {
    } else if a.WaiterStep? {
      WaiterKeeps(c, s);
    } else if InputEnabled(c, s, a) {
      InputKeeps(c, s, a);
    } else if FilterEnabled(c, s, a) {
      FilterKeeps(c, s, a);
    } else {
      OutputKeeps(c, s, a);
    }
  }

  // ---------------------------------------------------------------- who waits for what

  /** The input waits exactly for room in a full channel. */
  lemma InputWaitsIff(c: Config, s: State)
    requires Inv(c, s) && !s.inputDone && s.pending != []
    ensures !Enabled(c, s, InputSend) <==> |s.inch.buf| == c.inSize
  {
  }

  /** A filter that has a record to send waits exactly for room in the channel the record goes to. */
  lemma SenderWaitsIff(c: Config, s: State, i: nat)
    requires Inv(c, s) && i < |s.filters| && s.filters[i].Busy? && s.filters[i].emit != []
    ensures !Enabled(c, s, FilterSend(i)) <==>
            |s.outch[if c.sharded then s.filters[i].emit[0].shard % c.outputProcs else 0].buf| == c.outSize
  {
  }

  /** A filter between two blocks waits exactly while its channel is empty and open. */
  lemma IdleWaitsIff(c: Config, s: State, i: nat)
    requires Inv(c, s) && i < |s.filters| && s.filters[i].Idle?
    ensures !Enabled(c, s, FilterTake(i)) && !Enabled(c, s, FilterExit(i)) <==> s.inch.buf == [] && !s.inch.closed
  {
  }

  /** An output that has nothing to upload waits exactly while the channel it reads is empty and open. */
  lemma OutputWaitsIff(c: Config, s: State, j: nat)
    requires Inv(c, s) && j < |s.outputs| && !s.outputs[j].draining && s.outputs[j].uploads == []
    ensures !Enabled(c, s, OutputTake(j, [])) && !Enabled(c, s, OutputDrain(j, [])) <==>
            var ch := s.outch[if c.sharded then j else 0]; ch.buf == [] && !ch.closed
  {
  }

  // ---------------------------------------------------------------- nothing gets stuck

  /** A filter that is at work can go on, or an output has to go first, and can. */
  lemma FilterProgress(c: Config, s: State, i: nat) returns (a: Action)
    requires Inv(c, s) && i < |s.filters| && !s.filters[i].Gone?
    requires s.inch.buf != [] || s.inch.closed || s.filters[i].Busy?
    ensures Enabled(c, s, a) && !a.Stop? && !a.InputSend?
  {
    match s.filters[i]
    case Idle =>
      a := if s.inch.buf != [] then FilterTake(i) else FilterExit(i);
    case Busy(held, emit, lines) =>
      if emit != [] {
        var k := c.Target(emit[0]);
        if |s.outch[k].buf| < c.outSize {
          a := FilterSend(i);
        } else {
          a := OutputProgress(c, s, k);
        }
      } else if held.Some? {
        a := FilterRecycle(i);
      } else if lines == [] {
        a := FilterFree(i);
      } else {
        a := FilterParse(i, None, NEW_RECORD);
      }
  }

  /** An output whose channel is not empty, or is closed, can go on. */
  lemma OutputProgress(c: Config, s: State, j: nat) returns (a: Action)
    requires Inv(c, s) && j < |s.outputs| && !s.outputs[j].gone
    requires s.outch[c.Source(j)].buf != [] || s.outch[c.Source(j)].closed
    ensures Enabled(c, s, a) && !a.Stop? && !a.InputSend?
  {
    if s.outputs[j].uploads != [] {
      a := OutputUpload(j);
    } else if s.outputs[j].draining {
      a := OutputExit(j);
    } else if s.outch[c.Source(j)].buf != [] {
      a := OutputTake(j, []);
    } else {
      a := OutputDrain(j, []);
    }
  }

  /**
   * In every state before the end some goroutine can take a step, without waiting for a stop; after a
   * stop, one that does not take more input.
   */
  lemma Progress(c: Config, s: State) returns (a: Action)
    requires Inv(c, s) && !s.phase.Done?
    ensures Enabled(c, s, a) && !a.Stop? && (s.stopping ==> !a.InputSend?)
  {
    a := WaiterStep;
    if !WaiterEnabled(s) {
      match s.phase
      case AwaitInput =>
        if s.pending == [] || s.stopping {
          a := InputFinish;
        } else if |s.inch.buf| < c.inSize {
          a := InputSend;
        } else {
          a := FilterProgress(c, s, 0);
        }
      case AwaitFilters =>
        var i :| 0 <= i < |s.filters| && !s.filters[i].Gone?;
        a := FilterProgress(c, s, i);
      case AwaitOutputs =>
        var j :| 0 <= j < |s.outputs| && !s.outputs[j].gone;
        a := OutputProgress(c, s, j);
      case AwaitUploader =>
        a := UploaderExit;
    }
  }
}
