/** The loop of one filter goroutine over the bytes of a block, with a pool of records. */
module FilterLoop {
  import opened Bytes
  import LineText
  import FieldText
  import L = LogLines
  import opened Topology
  import opened TopologyRuns

  type LogLine = L.LogLine
  type Slice = L.Slice

  function TalliedAll(c: Config, n: Counters, lines: seq<Line>): Counters
    decreases |lines|
  {
    if lines == [] then n else TalliedAll(c, Tallied(n, c.Judge(lines[0])), lines[1..])
  }

  /** Every line is counted in one of the three totals. */
  lemma {:induction false} EachCountedOnce(c: Config, n: Counters, lines: seq<Line>)
    ensures var t := TalliedAll(c, n, lines);
            && t.malformed + t.invalid + t.chained == n.malformed + n.invalid + n.chained + |lines|
            && t.freed == n.freed
    decreases |lines|
  {
    if lines != [] { EachCountedOnce(c, Tallied(n, c.Judge(lines[0])), lines[1..]); }
  }

  // ---------------------------------------------------------------- what a record shows

  /** A field of a record: what was written, else the piece of the line it was parsed from. */
  function Shown(r: Record, sep: byte, f: nat): Slice {
    if f in r.written then L.Bytes(r.written[f])
    else if f < L.NUM_FIELDS && r.text.Some? && FieldText.Accepted(r.text.value, sep, L.NUM_FIELDS) then
      var p := FieldText.Piece(FieldText.Split(FieldText.Trimmed(r.text.value, sep, L.NUM_FIELDS), sep), f);
      if p == [] then L.Nil else L.Bytes(p)
    else L.Nil
  }

  function AllShown(r: Record, sep: byte, n: nat): (fields: seq<Slice>)
    ensures |fields| == n
  {
    if n == 0 then [] else AllShown(r, sep, n - 1) + [Shown(r, sep, n - 1)]
  }

  /** The pipeline whose records are log lines, with validation and filters that look at their fields. */
  function WithLogLines(base: Config, sep: byte, look: seq<Slice> -> Option<seq<OutRecord>>): Config {
    base.(accepts := (l: Line) => FieldText.Accepted(l, sep, L.NUM_FIELDS),
          handle := (r: Record) => look(AllShown(r, sep, L.NUM_FIELDS + L.NUM_CUSTOM)))
  }

  /** The fields a line alone shows. */
  function FieldsShown(line: Line, sep: byte): seq<Slice> {
    AllShown(ParseInto(NEW_RECORD, line), sep, L.NUM_FIELDS + L.NUM_CUSTOM)
  }

  predicate WellFormed(line: Line, sep: byte) {
    line != [] && FieldText.Accepted(line, sep, L.NUM_FIELDS)
  }

  lemma Judged(base: Config, sep: byte, look: seq<Slice> -> Option<seq<OutRecord>>, line: Line)
    ensures var v := WithLogLines(base, sep, look).Judge(line);
            && (v.Malformed? <==> !WellFormed(line, sep))
            && (v.Invalid? <==> WellFormed(line, sep) && look(FieldsShown(line, sep)).None?)
            && (v.Chained? <==> WellFormed(line, sep) && look(FieldsShown(line, sep)).Some?)
            && (v.Chained? ==> v.records == look(FieldsShown(line, sep)).value)
  {
  }

  class FilterChain {
    const base: Config
    const sep: byte
    const look: seq<Slice> -> Option<seq<OutRecord>>
    var counters: Counters
    var pool: seq<LogLine>
    var out: seq<OutRecord>
    ghost var Repr: set<object>

    ghost function Conf(): Config {
      WithLogLines(base, sep, look)
    }

    /** The pooled records are as new and share no memory. */
    ghost predicate Valid()
      reads this, Repr
    {
      && this !in Repr
      && (forall k | 0 <= k < |pool| :: Pooled(pool[k]))
      && forall i, j | 0 <= i < j < |pool| :: pool[i].Apart(pool[j])
    }

    ghost predicate Pooled(l: LogLine)
      reads this, Repr
    {
      Inside(l) && l.Fresh() && l.Valid() && l.sep == sep
    }

    ghost predicate Inside(l: LogLine)
      reads this
    {
      l in Repr && l.idx in Repr && l.wmask in Repr && l.wdata in Repr
    }

    /** In use by the filter alone. */
    ghost predicate Taken(l: LogLine)
      reads this
    {
      Inside(l) && forall k | 0 <= k < |pool| :: pool[k].Apart(l)
    }

    constructor (base: Config, sep: byte, look: seq<Slice> -> Option<seq<OutRecord>>)
      ensures Valid() && this.base == base && this.sep == sep && this.look == look
      ensures counters == Counters(0, 0, 0, 0) && out == [] && fresh(Repr)
    {
      this.base, this.sep, this.look := base, sep, look;
      counters, pool, out, Repr := Counters(0, 0, 0, 0), [], [], {};
    }

    /** A record from the pool, or a new one. */
    method TakeRecord() returns (l: LogLine)
      requires Valid()
      modifies this`pool, this`Repr
      ensures Valid() && Taken(l) && fresh(Repr - old(Repr))
      ensures l.Fresh() && l.Valid() && l.sep == sep
      ensures (pool == old(pool) && fresh(l)) || (old(pool) == pool + [l])
    {
      if {
        case pool != [] =>
          l, pool := pool[|pool| - 1], pool[..|pool| - 1];
        case true =>
          l := new L.LogLine(sep);
          Repr := Repr + {l, l.idx, l.wmask, l.wdata};
      }
    }

    /** Validation and filters may read any field. */
    method ReadAll(l: LogLine) returns (fields: seq<Slice>)
      requires l.Valid()
      ensures |fields| == L.NUM_FIELDS + L.NUM_CUSTOM
      ensures forall f | 0 <= f < |fields| :: fields[f] == l.Field(f)
    {
      fields := [];
      for f := 0 to L.NUM_FIELDS + L.NUM_CUSTOM
        invariant |fields| == f && forall g | 0 <= g < f :: fields[g] == l.Field(g)
      {
        var v := l.Get(f);
        fields := fields + [v];
      }
    }

    /** The filters write any fields. */
    method WriteSome(l: LogLine)
      requires l.Shaped() && l.Overlaid()
      modifies l`wcnt, l.wmask, l.wdata
      ensures l.Shaped()
    {
      var k: nat :| 0 <= k;
      for i := 0 to k
        invariant l.Shaped() && l.Overlaid()
      {
        var f: nat :| f < L.NUM_FIELDS + L.NUM_CUSTOM;
        var value: Slice := *;
        if l.wmask[f] != 0 || l.wcnt < L.MAX_WRITES {
          var ok := l.Set(f, value);
        }
      }
    }

    /** Clears the record and puts it into the pool. */
    method Recycle(l: LogLine)
      requires Valid() && Taken(l) && l.Shaped() && l.sep == sep
      modifies this`pool, l, l.idx, l.wmask, l.wdata
      ensures Valid() && pool == old(pool) + [l]
    {
      l.Clear();
      pool := pool + [l];
    }

    /** The filters are done with the record, which is reused. */
    method Finish(l: LogLine)
      requires Valid() && Taken(l) && l.Shaped() && l.Overlaid() && l.sep == sep
      modifies this`pool, l, l.idx, l.wmask, l.wdata
      ensures Valid() && pool == old(pool) + [l]
    {
      WriteSome(l);
      Recycle(l);
    }

    /** What a record shows after parsing is what a new one would. */
    lemma ParsedShows(l: LogLine, line: Line, fields: seq<Slice>)
      requires l.Valid() && l.sep == sep && forall f | 0 <= f < L.NUM_FIELDS + L.NUM_CUSTOM :: l.wmask[f] == 0
      requires FieldText.Accepted(line, sep, L.NUM_FIELDS)
      requires l.data == L.Bytes(FieldText.Trimmed(line, sep, L.NUM_FIELDS))
      requires |fields| == L.NUM_FIELDS + L.NUM_CUSTOM && forall f | 0 <= f < |fields| :: fields[f] == l.Field(f)
      ensures fields == AllShown(ParseInto(NEW_RECORD, line), sep, L.NUM_FIELDS + L.NUM_CUSTOM)
    {
      var r := ParseInto(NEW_RECORD, line);
      forall f | 0 <= f < |fields| ensures fields[f] == AllShown(r, sep, |fields|)[f] {
        AllShownAt(r, sep, |fields|, f);
      }
    }

    /** What parsing, validation and the filters make of a line. */
    method Examine(l: LogLine, line: Line) returns (v: Verdict)
      requires l.Fresh() && l.sep == sep && |line| < 0x8000_0000
      modifies l`data, l.idx
      ensures v == Conf().Judge(line) && l.Shaped() && l.Overlaid()
    {
      var ok := l.Parse(line);
      if !ok || |line| == 0 {
        return Malformed;
      }
      var fields := ReadAll(l);
      ParsedShows(l, line, fields);
      v := match look(fields) case None => Invalid case Some(rs) => Chained(rs);
    }

    method ExamineTaken(l: LogLine, line: Line) returns (v: Verdict)
      requires Valid() && Taken(l) && l.Fresh() && l.sep == sep && |line| < 0x8000_0000
      modifies l`data, l.idx
      ensures Valid() && v == Conf().Judge(line) && l.Shaped() && l.Overlaid()
    {
      v := Examine(l, line);
    }

    /** One line: parsed into a record, counted, and sent through the filters if it is valid. */
    method Process(line: Line)
      requires Valid() && |line| < 0x8000_0000
      modifies this`counters, this`pool, this`out, this`Repr, Repr
      ensures Valid() && fresh(Repr - old(Repr))
      ensures counters == Tallied(old(counters), Conf().Judge(line))
      ensures counters.malformed == old(counters.malformed) + 1 <==> !WellFormed(line, sep)
      ensures counters.invalid == old(counters.invalid) + 1
              <==> WellFormed(line, sep) && look(FieldsShown(line, sep)).None?
      ensures counters.chained == old(counters.chained) + 1
              <==> WellFormed(line, sep) && look(FieldsShown(line, sep)).Some?
      ensures out == old(out) + RecordsOfLines(Conf(), [line])
    {
      Judged(base, sep, look, line);
      OneRecords(Conf(), line);
      var l := TakeRecord();
      var v := ExamineTaken(l, line);
      Account(v);
      if v.Chained? {
        Finish(l);
      }
    }

    /** Counts the line and sends its records. */
    method Account(v: Verdict)
      requires Valid()
      modifies this`counters, this`out
      ensures Valid() && counters == Tallied(old(counters), v)
      ensures out == old(out) + if v.Chained? then v.records else []
    {
      match v
      case Malformed => counters := counters.(malformed := counters.malformed + 1);
      case Invalid => counters := counters.(invalid := counters.invalid + 1);
      case Chained(rs) =>
        counters := counters.(chained := counters.chained + 1);
        out := out + rs;
    }

    /** The counters and the records there will be after these lines. */
    ghost function Remaining(n: Counters, out: seq<OutRecord>, lines: seq<Line>): (Counters, seq<OutRecord>) {
      (TalliedAll(Conf(), n, lines), out + RecordsOfLines(Conf(), lines))
    }

    lemma RemainingStep(n: Counters, out: seq<OutRecord>, line: Line, lines: seq<Line>)
      ensures Remaining(n, out, [line] + lines)
              == Remaining(Tallied(n, Conf().Judge(line)), out + RecordsOfLines(Conf(), [line]), lines)
    {
      RecordsCons(Conf(), out, line, lines);
      assert ([line] + lines)[1..] == lines;
    }

    static method CutLine(data: seq<byte>) returns (line: Line, rest: seq<byte>)
      requires data != []
      ensures LineText.SplitLines(data) == [line] + LineText.SplitLines(rest)
      ensures |rest| < |data| && |line| <= |data|
    {
      var nl := LineText.IndexByte(data);
      LineText.SplitFirst(data, nl);
      if nl >= 0 {
        line, rest := data[..nl], data[nl + 1..];
      } else {
        line, rest := data, [];
        assert [data] + LineText.SplitLines([]) == [data];
      }
    }

    /** All lines of a block, and then the block is given back. */
    method RunBlob(bytes: seq<byte>)
      requires Valid() && |bytes| < 0x8000_0000
      modifies this`counters, this`pool, this`out, this`Repr, Repr
      ensures Valid() && fresh(Repr - old(Repr))
      ensures var n := TalliedAll(Conf(), old(counters), LineText.SplitLines(bytes));
              counters == n.(freed := n.freed + 1)
      ensures out == old(out) + RecordsOfLines(Conf(), LineText.SplitLines(bytes))
    {
      var data := bytes;
      ghost var want := Remaining(counters, out, LineText.SplitLines(bytes));
      while |data| > 0
        invariant Valid() && |data| <= |bytes|
        invariant Remaining(counters, out, LineText.SplitLines(data)) == want
        invariant fresh(Repr - old(Repr))
        decreases |data|
      {
        var line;
        line, data := CutLine(data);
        RemainingStep(counters, out, line, LineText.SplitLines(data));
        Process(line);
      }
      assert want == (counters, out + []) && out + [] == out;
      counters := counters.(freed := counters.freed + 1);
    }
  }

  lemma {:induction false} AllShownAt(r: Record, sep: byte, n: nat, f: nat)
    requires f < n
    ensures AllShown(r, sep, n)[f] == Shown(r, sep, f)
  {
    if f < n - 1 { AllShownAt(r, sep, n - 1, f); }
  }

  lemma OneRecords(c: Config, line: Line)
    ensures RecordsOfLines(c, [line]) == if c.Judge(line).Chained? then c.Judge(line).records else []
  {
    assert [line][1..] == [];
  }

  lemma RecordsCons(c: Config, out: seq<OutRecord>, line: Line, lines: seq<Line>)
    ensures out + RecordsOfLines(c, [line] + lines) == out + RecordsOfLines(c, [line]) + RecordsOfLines(c, lines)
  {
    assert [line][1..] == [] && ([line] + lines)[1..] == lines;
    assert RecordsOfLines(c, [line]) + RecordsOfLines(c, []) == RecordsOfLines(c, [line]);
  }

  /** A block of whole lines has as many lines as the input counted newlines in it. */
  lemma InputCountsLines(c: Config, n: Counters, bytes: seq<byte>)
    requires LineText.WholeLines(bytes)
    ensures var t := TalliedAll(c, n, LineText.SplitLines(bytes));
            t.malformed + t.invalid + t.chained == n.malformed + n.invalid + n.chained + LineText.Newlines(bytes)
  {
    LineText.SplitCount(bytes);
    EachCountedOnce(c, n, LineText.SplitLines(bytes));
  }
}
