/** What the outputs hand over is uploaded. */
module TopologyUploads {
  import opened Bytes
  import opened Topology
  import opened TopologySafety
  import opened TopologyRuns

  /** The paths the outputs produced in these steps. */
  function Produced(steps: seq<Action>): seq<Path> {
    if steps == [] then []
    else Produced(steps[..|steps| - 1]) + ProducedBy(steps[|steps| - 1])
  }

  function ProducedBy(a: Action): seq<Path> {
    match a
    case OutputTake(_, uploads) => uploads
    case OutputDrain(_, uploads) => uploads
    case _ => []
  }

  /** How often a path waits to be sent to the uploader. */
  function Waiting(outputs: seq<Output>, p: Path): nat {
    if outputs == [] then 0 else multiset(outputs[0].uploads)[p] + Waiting(outputs[1..], p)
  }

  lemma {:induction false} WaitingUpdate(outputs: seq<Output>, j: nat, o: Output, p: Path)
    requires j < |outputs|
    ensures Waiting(outputs[j := o], p) + multiset(outputs[j].uploads)[p]
            == Waiting(outputs, p) + multiset(o.uploads)[p]
  {
    if j > 0 {
      assert outputs[j := o][1..] == outputs[1..][j - 1 := o];
      WaitingUpdate(outputs[1..], j - 1, o, p);
    }
  }

  lemma {:induction false} NothingWaits(outputs: seq<Output>, p: Path)
    requires forall j | 0 <= j < |outputs| :: outputs[j].uploads == []
    ensures Waiting(outputs, p) == 0
  {
    if outputs != [] { NothingWaits(outputs[1..], p); }
  }

  /** How often a path was uploaded or waits to be. */
  ghost function Known(s: State, p: Path): nat {
    multiset(s.uploaded)[p] + Waiting(s.outputs, p)
  }

  lemma OutputUploads(c: Config, s: State, a: Action, p: Path)
    requires Inv(c, s) && OutputEnabled(c, s, a)
    ensures Known(OutputNext(c, s, a), p) == Known(s, p) + multiset(ProducedBy(a))[p]
  {
    var t := OutputNext(c, s, a);
    WaitingUpdate(s.outputs, a.j, t.outputs[a.j], p);
    assert t.outputs == s.outputs[a.j := t.outputs[a.j]];
    if a.OutputUpload? {
      FirstOf(s.uploaded, s.outputs[a.j].uploads, p);
    }
  }

  lemma FirstOf(uploaded: seq<Path>, ups: seq<Path>, p: Path)
    requires ups != []
    ensures multiset(uploaded + [ups[0]])[p] + multiset(ups[1..])[p] == multiset(uploaded)[p] + multiset(ups)[p]
  {
    assert ups == [ups[0]] + ups[1..];
  }

  lemma OthersUpload(c: Config, s: State, a: Action)
    requires Inv(c, s) && Enabled(c, s, a) && !OutputEnabled(c, s, a)
    ensures ProducedBy(a) == [] && Next(c, s, a).uploaded == s.uploaded && Next(c, s, a).outputs == s.outputs
  {
  }

  /** A step adds what the output it belongs to produces, and loses nothing. */
  lemma StepUploads(c: Config, s: State, a: Action, p: Path)
    requires Inv(c, s) && Enabled(c, s, a)
    ensures Known(Next(c, s, a), p) == Known(s, p) + multiset(ProducedBy(a))[p]
  {
    if OutputEnabled(c, s, a) {
      OutputUploads(c, s, a, p);
    } else {
      OthersUpload(c, s, a);
    }
  }

  lemma {:induction false} RunKnown(c: Config, blobs: seq<Blob>, steps: seq<Action>, p: Path)
    requires c.Valid() && After(c, Init(c, blobs), steps).Some?
    ensures Known(After(c, Init(c, blobs), steps).value, p) == multiset(Produced(steps))[p]
  {
    if steps == [] {
      NothingWaits(Init(c, blobs).outputs, p);
    } else {
      var init, a := steps[..|steps| - 1], steps[|steps| - 1];
      RunSafe(c, blobs, init);
      RunKnown(c, blobs, init, p);
      StepUploads(c, After(c, Init(c, blobs), init).value, a, p);
    }
  }

  /** At any time every path an output produced was uploaded or waits to be; at the end all were uploaded. */
  lemma RunUploads(c: Config, blobs: seq<Blob>, steps: seq<Action>)
    requires c.Valid() && After(c, Init(c, blobs), steps).Some?
    ensures var s := After(c, Init(c, blobs), steps).value;
            && (forall p :: Known(s, p) == multiset(Produced(steps))[p])
            && (s.phase.Done? ==> multiset(s.uploaded) == multiset(Produced(steps)))
  {
    var s := After(c, Init(c, blobs), steps).value;
    RunSafe(c, blobs, steps);
    forall p ensures Known(s, p) == multiset(Produced(steps))[p] {
      RunKnown(c, blobs, steps, p);
    }
    if s.phase.Done? {
      forall p ensures multiset(s.uploaded)[p] == multiset(Produced(steps))[p] {
        NothingWaits(s.outputs, p);
        assert Known(s, p) == multiset(Produced(steps))[p];
      }
    }
  }

  /** A single output's paths are uploaded in the order in which it produced them. */
  lemma {:induction false} OneOutputInOrder(c: Config, blobs: seq<Blob>, steps: seq<Action>)
    requires c.Valid() && c.outputProcs == 1 && After(c, Init(c, blobs), steps).Some?
    ensures var s := After(c, Init(c, blobs), steps).value;
            |s.outputs| == 1 && s.uploaded + s.outputs[0].uploads == Produced(steps)
  {
    if steps != [] {
      var init, a := steps[..|steps| - 1], steps[|steps| - 1];
      var s := After(c, Init(c, blobs), init).value;
      RunSafe(c, blobs, init);
      OneOutputInOrder(c, blobs, init);
      if OutputEnabled(c, s, a) {
        OneOutputStep(c, s, a);
      } else {
        OthersUpload(c, s, a);
      }
    }
  }

  lemma OneOutputStep(c: Config, s: State, a: Action)
    requires Inv(c, s) && c.outputProcs == 1 && OutputEnabled(c, s, a)
    ensures var t := OutputNext(c, s, a);
            t.uploaded + t.outputs[0].uploads == s.uploaded + s.outputs[0].uploads + ProducedBy(a)
  {
    if a.OutputUpload? {
      var ups := s.outputs[0].uploads;
      assert s.uploaded + [ups[0]] + ups[1..] == s.uploaded + ups;
    }
  }
}
