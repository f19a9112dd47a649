/**
 * The pipeline of input, filters, outputs and uploader, as the steps its goroutines take in any
 * order, and the goroutine that shuts it down stage by stage.
 */
module Topology {
  import opened Bytes

  type Line = seq<byte>
  type Blob = seq<Line>
  type Path = string

  /** What the end of the filter chain sends to the outputs. */
  datatype OutRecord = OutRecord(content: seq<byte>, shard: nat)

  /** A line is refused by parsing, by validation, or leaves the filter chain as any number of records. */
  datatype Verdict = Malformed | Invalid | Chained(records: seq<OutRecord>)

  /** A record: the line it was parsed from and the fields that were written. */
  datatype Record = Record(text: Option<Line>, written: map<nat, seq<byte>>)

  const NEW_RECORD := Record(None, map[])

  /** Parsing leaves written fields alone. */
  function ParseInto(r: Record, l: Line): Record {
    r.(text := Some(l))
  }

  function Cleared(r: Record): Record {
    r.(text := None, written := map[])
  }

  /** accepts is parsing without an error; handle is validation and what the filter chain sends. */
  datatype Config = Config(
    filterProcs: nat, outputProcs: nat, inSize: nat, outSize: nat, sharded: bool,
    accepts: Line -> bool, handle: Record -> Option<seq<OutRecord>>)
  {
    /** Zero stands for a default in all four. */
    predicate Valid() {
      filterProcs > 0 && outputProcs > 0 && inSize > 0 && outSize > 0
    }

    /** What becomes of a line that is parsed into a record; an empty one counts as malformed. */
    function Outcome(r: Record, l: Line): Verdict {
      if !accepts(l) || l == [] then Malformed
      else match handle(ParseInto(r, l))
        case None => Invalid
        case Some(rs) => Chained(rs)
    }

    /** What should become of a line, whatever was parsed before. */
    function Judge(l: Line): Verdict {
      Outcome(NEW_RECORD, l)
    }

    /** The output channel a record is sent to. */
    function Target(r: OutRecord): (k: nat)
      requires Valid()
      ensures k < outputProcs
    {
      if sharded then r.shard % outputProcs else 0
    }

    /** The channel an output reads: its own, or the only one there is. */
    function Source(j: nat): nat {
      if sharded then j else 0
    }
  }

  datatype Chan<T> = Chan(buf: seq<T>, closed: bool)

  datatype Filter =
    | Idle
    | Busy(held: Option<Record>, emit: seq<OutRecord>, lines: seq<Line>)
    | Gone

  datatype Output = Output(uploads: seq<Path>, draining: bool, gone: bool)

  datatype Phase =
    | AwaitInput | CloseIn | AwaitFilters | CloseOut(k: nat) | AwaitOutputs | CloseUp | AwaitUploader | Done

  datatype Counters = Counters(malformed: nat, invalid: nat, chained: nat, freed: nat)

  datatype State = State(
    stopping: bool, pending: seq<Blob>, inputDone: bool, sent: seq<Blob>,
    inch: Chan<Blob>, filters: seq<Filter>, pool: seq<Record>, counters: Counters,
    outch: seq<Chan<OutRecord>>, outputs: seq<Output>, got: seq<seq<OutRecord>>,
    upClosed: bool, uploaderDone: bool, uploaded: seq<Path>,
    phase: Phase, panicked: bool)

  /** One step of one goroutine; the parameters are what the goroutine is free to choose. */
  datatype Action =
    | Stop | InputSend | InputFinish
    | FilterTake(i: nat) | FilterParse(i: nat, slot: Option<nat>, left: Record) | FilterSend(i: nat)
    | FilterRecycle(i: nat) | FilterFree(i: nat) | FilterExit(i: nat)
    | OutputTake(j: nat, uploads: seq<Path>) | OutputUpload(j: nat)
    | OutputDrain(j: nat, uploads: seq<Path>) | OutputExit(j: nat)
    | UploaderExit | WaiterStep

  predicate Shaped(c: Config, s: State) {
    && c.Valid()
    && |s.filters| == c.filterProcs
    && |s.outch| == |s.outputs| == |s.got| == c.outputProcs
  }

  function Init(c: Config, blobs: seq<Blob>): (s: State)
    requires c.Valid()
    ensures Shaped(c, s)
  {
    State(false, blobs, false, [],
          Chan([], false), Repeat(Idle, c.filterProcs), [], Counters(0, 0, 0, 0),
          Repeat(Chan([], false), c.outputProcs), Repeat(Output([], false, false), c.outputProcs),
          Repeat([], c.outputProcs),
          false, false, [],
          AwaitInput, false)
  }

  function Repeat<T>(x: T, n: nat): (r: seq<T>)
    ensures |r| == n && forall i | 0 <= i < n :: r[i] == x
  {
    if n == 0 then [] else Repeat(x, n - 1) + [x]
  }

  // ---------------------------------------------------------------- when a step can be taken

  predicate InputEnabled(c: Config, s: State, a: Action) {
    match a
    case Stop => !s.stopping
    case InputSend => !s.inputDone && s.pending != [] && (s.inch.closed || |s.inch.buf| < c.inSize)
    case InputFinish => !s.inputDone && (s.stopping || s.pending == [])
    case _ => false
  }

  predicate FilterEnabled(c: Config, s: State, a: Action)
    requires Shaped(c, s)
  {
    match a
    case FilterTake(i) => i < |s.filters| && s.filters[i].Idle? && s.inch.buf != []
    case FilterExit(i) => i < |s.filters| && s.filters[i].Idle? && s.inch.buf == [] && s.inch.closed
    case FilterParse(i, slot, _) =>
      && i < |s.filters| && s.filters[i].Busy? && s.filters[i].held.None? && s.filters[i].lines != []
      && (slot.Some? ==> slot.value < |s.pool|)
    case FilterSend(i) =>
      && i < |s.filters| && s.filters[i].Busy? && s.filters[i].emit != []
      && var ch := s.outch[c.Target(s.filters[i].emit[0])];
         ch.closed || |ch.buf| < c.outSize
    case FilterRecycle(i) =>
      i < |s.filters| && s.filters[i].Busy? && s.filters[i].held.Some? && s.filters[i].emit == []
    case FilterFree(i) =>
      i < |s.filters| && s.filters[i].Busy? && s.filters[i].held.None? && s.filters[i].lines == []
    case _ => false
  }

  predicate OutputEnabled(c: Config, s: State, a: Action)
    requires Shaped(c, s)
  {
    match a
    case OutputTake(j, _) => OutputReady(s, j) && s.outch[c.Source(j)].buf != []
    case OutputDrain(j, _) => OutputReady(s, j) && s.outch[c.Source(j)].buf == [] && s.outch[c.Source(j)].closed
    case OutputUpload(j) => j < |s.outputs| && s.outputs[j].uploads != [] && (s.upClosed || !s.uploaderDone)
    case OutputExit(j) =>
      j < |s.outputs| && !s.outputs[j].gone && s.outputs[j].draining && s.outputs[j].uploads == []
    case _ => false
  }

  predicate OutputReady(s: State, j: nat) {
    j < |s.outputs| && !s.outputs[j].gone && !s.outputs[j].draining && s.outputs[j].uploads == []
  }

  predicate WaiterEnabled(s: State) {
    match s.phase
    case AwaitInput => s.inputDone
    case AwaitFilters => forall i | 0 <= i < |s.filters| :: s.filters[i].Gone?
    case AwaitOutputs => forall j | 0 <= j < |s.outputs| :: s.outputs[j].gone
    case AwaitUploader => s.uploaderDone
    case Done => false
    case _ => true
  }

  predicate Enabled(c: Config, s: State, a: Action)
    requires Shaped(c, s)
  {
    match a
    case UploaderExit => s.upClosed && !s.uploaderDone
    case WaiterStep => WaiterEnabled(s)
    case _ => InputEnabled(c, s, a) || FilterEnabled(c, s, a) || OutputEnabled(c, s, a)
  }

  // ---------------------------------------------------------------- what a step does

  /** Sending on a closed channel panics. */
  function Send<T>(ch: Chan<T>, x: T): Chan<T> {
    if ch.closed then ch else ch.(buf := ch.buf + [x])
  }

  function InputNext(s: State, a: Action): State
    requires a.InputSend? ==> s.pending != []
  {
    match a
    case Stop => s.(stopping := true)
    case InputSend =>
      s.(pending := s.pending[1..], sent := s.sent + [s.pending[0]], inch := Send(s.inch, s.pending[0]),
         panicked := s.panicked || s.inch.closed)
    case InputFinish => s.(pending := [], inputDone := true)
    case _ => s
  }

  /** The record a filter takes from the pool, or a new one. */
  function SlotTaken(pool: seq<Record>, slot: Option<nat>): Record
    requires slot.Some? ==> slot.value < |pool|
  {
    match slot
    case None => NEW_RECORD
    case Some(k) => pool[k]
  }

  function PoolLeft(pool: seq<Record>, slot: Option<nat>): seq<Record>
    requires slot.Some? ==> slot.value < |pool|
  {
    match slot
    case None => pool
    case Some(k) => pool[..k] + pool[k + 1..]
  }

  /** The first line was parsed; a record that is chained is kept, as the chain leaves it. */
  function Parsed(f: Filter, v: Verdict, left: Record): Filter
    requires f.Busy? && f.lines != []
  {
    match v
    case Chained(rs) => Busy(Some(left), rs, f.lines[1..])
    case _ => Busy(None, [], f.lines[1..])
  }

  function Tallied(n: Counters, v: Verdict): Counters {
    match v
    case Malformed => n.(malformed := n.malformed + 1)
    case Invalid => n.(invalid := n.invalid + 1)
    case Chained(_) => n.(chained := n.chained + 1)
  }

  /** Parsing reuses a record of the pool, with whatever is in it. */
  function ParseNext(c: Config, s: State, i: nat, slot: Option<nat>, left: Record): (t: State)
    requires Shaped(c, s) && FilterEnabled(c, s, FilterParse(i, slot, left))
    ensures Shaped(c, t)
  {
    var v := c.Outcome(SlotTaken(s.pool, slot), s.filters[i].lines[0]);
    s.(filters := s.filters[i := Parsed(s.filters[i], v, left)],
       counters := Tallied(s.counters, v), pool := PoolLeft(s.pool, slot))
  }

  function FilterNext(c: Config, s: State, a: Action): (t: State)
    requires Shaped(c, s) && FilterEnabled(c, s, a)
    ensures Shaped(c, t)
  {
    match a
    case FilterTake(i) =>
      s.(filters := s.filters[i := Busy(None, [], s.inch.buf[0])], inch := s.inch.(buf := s.inch.buf[1..]))
    case FilterExit(i) => s.(filters := s.filters[i := Gone])
    case FilterParse(i, slot, left) => ParseNext(c, s, i, slot, left)
    case FilterSend(i) =>
      var r := s.filters[i].emit[0];
      var k := c.Target(r);
      s.(filters := s.filters[i := s.filters[i].(emit := s.filters[i].emit[1..])],
         outch := s.outch[k := Send(s.outch[k], r)], panicked := s.panicked || s.outch[k].closed)
    case FilterRecycle(i) =>
      s.(filters := s.filters[i := s.filters[i].(held := None)], pool := s.pool + [Cleared(s.filters[i].held.value)])
    case FilterFree(i) =>
      s.(filters := s.filters[i := Idle], counters := s.counters.(freed := s.counters.freed + 1))
  }

  function OutputNext(c: Config, s: State, a: Action): (t: State)
    requires Shaped(c, s) && OutputEnabled(c, s, a)
    ensures Shaped(c, t)
  {
    match a
    case OutputTake(j, ups) =>
      var k := c.Source(j);
      s.(outch := s.outch[k := s.outch[k].(buf := s.outch[k].buf[1..])],
         got := s.got[j := s.got[j] + [s.outch[k].buf[0]]],
         outputs := s.outputs[j := s.outputs[j].(uploads := ups)])
    case OutputDrain(j, ups) =>
      s.(outputs := s.outputs[j := s.outputs[j].(uploads := ups, draining := true)])
    case OutputUpload(j) =>
      s.(outputs := s.outputs[j := s.outputs[j].(uploads := s.outputs[j].uploads[1..])],
         uploaded := s.uploaded + [s.outputs[j].uploads[0]], panicked := s.panicked || s.upClosed)
    case OutputExit(j) => s.(outputs := s.outputs[j := s.outputs[j].(gone := true)])
  }

  /** Closing a channel twice panics. */
  function WaiterNext(c: Config, s: State): (t: State)
    requires Shaped(c, s)
    ensures Shaped(c, t)
  {
    match s.phase
    case AwaitInput => s.(phase := CloseIn)
    case CloseIn =>
      s.(phase := AwaitFilters, inch := s.inch.(closed := true), panicked := s.panicked || s.inch.closed)
    case AwaitFilters => s.(phase := CloseOut(0))
    case CloseOut(k) =>
      if k >= |s.outch| then s.(phase := AwaitOutputs)
      else if k == 0 || c.sharded then
        s.(phase := CloseOut(k + 1), outch := s.outch[k := s.outch[k].(closed := true)],
           panicked := s.panicked || s.outch[k].closed)
      else s.(phase := CloseOut(k + 1))
    case AwaitOutputs => s.(phase := CloseUp)
    case CloseUp => s.(phase := AwaitUploader, upClosed := true, panicked := s.panicked || s.upClosed)
    case AwaitUploader => s.(phase := Done)
    case Done => s
  }

  function Next(c: Config, s: State, a: Action): (t: State)
    requires Shaped(c, s) && Enabled(c, s, a)
    ensures Shaped(c, t)
  {
    if a.UploaderExit? then s.(uploaderDone := true)
    else if a.WaiterStep? then WaiterNext(c, s)
    else if InputEnabled(c, s, a) then InputNext(s, a)
    else if FilterEnabled(c, s, a) then FilterNext(c, s, a)
    else OutputNext(c, s, a)
  }
}
