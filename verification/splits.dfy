/** What splitting a text at newlines into parts of bounded size means. */
module Splits {
  import opened Bytes
  import opened LineText

  type Text = seq<byte>

  function Concat(parts: seq<Text>): Text {
    if parts == [] then [] else parts[0] + Concat(parts[1..])
  }

  /** Where to cut: after the last newline of the first max bytes; 0 when there is nothing to cut. */
  function CutPoint(t: Text, max: nat): (r: nat)
    ensures r <= max && r <= |t|
  {
    if |t| <= max then 0 else PastLast(t[..max])
  }

  lemma {:induction false} ConcatSnoc(parts: seq<Text>, p: Text)
    ensures Concat(parts + [p]) == Concat(parts) + p
  {
    if parts == [] {
      assert [p][1..] == [] && p + [] == p;
    } else {
      ConcatSnoc(parts[1..], p);
      assert (parts + [p])[1..] == parts[1..] + [p];
    }
  }

  function Greedy(t: Text, max: nat): (r: seq<Text>)
    ensures r != []
    decreases |t|
  {
    var off := CutPoint(t, max);
    if off == 0 then [t] else [t[..off]] + Greedy(t[off..], max)
  }

  /** A non-final part is too long with what follows it, and the longest prefix of lines that fits. */
  ghost predicate LongestFit(part: Text, rest: Text, max: nat) {
    && 0 < |part| <= max < |part + rest| && part[|part| - 1] == LF
    && LF !in (part + rest)[|part|..max]
  }

  /** A final part fits, or cannot be cut. */
  ghost predicate Final(part: Text, max: nat) {
    |part| <= max || LF !in part[..max]
  }

  ghost predicate WellSplit(parts: seq<Text>, max: nat) {
    parts != [] &&
    if |parts| == 1 then Final(parts[0], max)
    else LongestFit(parts[0], Concat(parts[1..]), max) && WellSplit(parts[1..], max)
  }

  lemma PastLastIs(t: Text, r: nat)
    requires r <= |t| && WholeLines(t[..r]) && LF !in t[r..]
    ensures r == PastLast(t)
  {
  }

  lemma CutIsLongestFit(part: Text, rest: Text, max: nat)
    requires part != []
    ensures CutPoint(part + rest, max) == |part| <==> LongestFit(part, rest, max)
  {
    var t := part + rest;
    if |part| <= max < |t| {
      var p := t[..max];
      assert p[..|part|] == part && p[|part|..] == t[|part|..max];
      if LongestFit(part, rest, max) { PastLastIs(p, |part|); }
    }
  }

  lemma CutIsFinal(t: Text, max: nat)
    ensures CutPoint(t, max) == 0 <==> Final(t, max)
  {
    if |t| > max {
      assert t[..max][0..] == t[..max];
      if Final(t, max) { PastLastIs(t[..max], 0); }
    }
  }

  lemma {:induction false} GreedyIsWellSplit(t: Text, max: nat)
    ensures Concat(Greedy(t, max)) == t && WellSplit(Greedy(t, max), max)
    decreases |t|
  {
    var off := CutPoint(t, max);
    CutIsFinal(t, max);
    if off == 0 {
      assert Concat([t]) == t + [] == t;
    } else {
      var rest := t[off..];
      GreedyIsWellSplit(rest, max);
      assert t == t[..off] + rest;
      CutIsLongestFit(t[..off], rest, max);
      assert ([t[..off]] + Greedy(rest, max))[1..] == Greedy(rest, max);
    }
  }

  lemma {:induction false} WellSplitIsGreedy(parts: seq<Text>, max: nat)
    requires WellSplit(parts, max)
    ensures Greedy(Concat(parts), max) == parts
  {
    var t := Concat(parts);
    CutIsFinal(t, max);
    if |parts| == 1 {
      assert t == parts[0] + [] == parts[0];
    } else {
      var rest := Concat(parts[1..]);
      WellSplitIsGreedy(parts[1..], max);
      CutIsLongestFit(parts[0], rest, max);
      assert t[..|parts[0]|] == parts[0] && t[|parts[0]|..] == rest;
    }
  }

  /** The greedy split is the only one there is. */
  lemma GreedyIff(parts: seq<Text>, t: Text, max: nat)
    ensures parts == Greedy(t, max) <==> Concat(parts) == t && WellSplit(parts, max)
  {
    GreedyIsWellSplit(t, max);
    if Concat(parts) == t && WellSplit(parts, max) {
      WellSplitIsGreedy(parts, max);
    }
  }

  /** Cutting does not depend on what comes later. */
  lemma CutAppend(t: Text, more: Text, max: nat)
    requires CutPoint(t, max) > 0
    ensures CutPoint(t + more, max) == CutPoint(t, max)
  {
    assert (t + more)[..max] == t[..max];
  }

  lemma ConsSnoc(p: Text, qs: seq<Text>, rs: seq<Text>)
    requires qs != []
    ensures var ps := [p] + qs;
            [p] + (qs[..|qs| - 1] + rs) == ps[..|ps| - 1] + rs && ps[|ps| - 1] == qs[|qs| - 1]
  {
  }

  /** Appending to the last part and splitting that again is splitting the longer text. */
  lemma {:induction false} GreedyAppend(t: Text, more: Text, max: nat)
    ensures var ps := Greedy(t, max);
            Greedy(t + more, max) == ps[..|ps| - 1] + Greedy(ps[|ps| - 1] + more, max)
    decreases |t|
  {
    var off := CutPoint(t, max);
    if off > 0 {
      var part, rest := t[..off], t[off..];
      var qs := Greedy(rest, max);
      CutAppend(t, more, max);
      assert (t + more)[..off] == part && (t + more)[off..] == rest + more;
      assert Greedy(t + more, max) == [part] + Greedy(rest + more, max);
      GreedyAppend(rest, more, max);
      ConsSnoc(part, qs, Greedy(qs[|qs| - 1] + more, max));
    }
  }

  // ---------------------------------------------------------------- the size of the parts

  /** No element is longer than max. */
  ghost predicate NoneLonger(parts: seq<Text>, max: nat) {
    forall i | 0 <= i < |parts| :: |parts[i]| <= max
  }

  lemma NoneLongerConcat(ps: seq<Text>, qs: seq<Text>, max: nat)
    ensures NoneLonger(ps + qs, max) <==> NoneLonger(ps, max) && NoneLonger(qs, max)
  {
    if NoneLonger(ps + qs, max) {
      forall i | 0 <= i < |ps| ensures |ps[i]| <= max { assert (ps + qs)[i] == ps[i]; }
      forall i | 0 <= i < |qs| ensures |qs[i]| <= max { assert (ps + qs)[|ps| + i] == qs[i]; }
    }
  }

  /** A line is no longer than its text. */
  lemma {:induction false} LinesWithin(t: Text)
    ensures NoneLonger(Lines(t), |t|)
  {
    if t != [] {
      LinesWithin(t[..|t| - 1]);
    }
  }

  lemma {:induction false} OneUnfinishedLine(t: Text)
    requires t != [] && LF !in t
    ensures Lines(t) == [t]
  {
    var init := t[..|t| - 1];
    assert t == init + [t[|t| - 1]];
    if init != [] { OneUnfinishedLine(init); }
  }

  /** Without a newline in its first n bytes a longer text has a first line longer than n. */
  lemma {:induction false} LongFirstLine(t: Text, n: nat)
    requires 0 < n < |t| && LF !in t[..n]
    ensures Lines(t) != [] && |Lines(t)[0]| > n
  {
    var init := t[..|t| - 1];
    if |init| == n {
      OneUnfinishedLine(init);
    } else {
      assert init[..n] == t[..n];
      LongFirstLine(init, n);
    }
  }

  /** All parts fit exactly when every line does, its newline included. */
  lemma {:induction false} PartsFitIff(t: Text, max: nat)
    requires max > 0
    ensures NoneLonger(Greedy(t, max), max) <==> NoneLonger(Lines(t), max)
    decreases |t|
  {
    var off := CutPoint(t, max);
    CutIsFinal(t, max);
    if off == 0 {
      LinesWithin(t);
      assert Greedy(t, max)[0] == t;
      if |t| > max { LongFirstLine(t, max); }
    } else {
      var part, rest := t[..off], t[off..];
      assert t == part + rest;
      PartsFitIff(rest, max);
      CutIsLongestFit(part, rest, max);
      LinesConcat(part, rest);
      LinesWithin(part);
      NoneLongerConcat(Lines(part), Lines(rest), max);
      NoneLongerConcat([part], Greedy(rest, max), max);
    }
  }

  /** Three bytes without a newline stay in one part, although two is the limit. */
  lemma OversizedPart()
    ensures Greedy([1, 1, 1], 2) == [[1, 1, 1]] && !NoneLonger(Greedy([1, 1, 1], 2), 2)
  {
    CutIsFinal([1, 1, 1], 2);
    assert |Greedy([1, 1, 1], 2)[0]| == 3;
  }
}
