/** Texts seen as sequences of lines. */
module LineText {
  import opened Bytes

  /** Empty, or ending with a newline. */
  predicate WholeLines(t: seq<byte>) { t == [] || t[|t| - 1] == LF }

  predicate OneLine(t: seq<byte>) {
    t != [] && t[|t| - 1] == LF && LF !in t[..|t| - 1]
  }

  function Newlines(t: seq<byte>): nat {
    if t == [] then 0 else Newlines(t[..|t| - 1]) + if t[|t| - 1] == LF then 1 else 0
  }

  lemma {:induction false} NewlinesConcat(s: seq<byte>, t: seq<byte>)
    ensures Newlines(s + t) == Newlines(s) + Newlines(t)
  {
    if t == [] {
      assert s + t == s;
    } else {
      assert (s + t)[..|s + t| - 1] == s + t[..|t| - 1];
      NewlinesConcat(s, t[..|t| - 1]);
    }
  }

  /** Adds a byte to the last line, or begins a line. */
  function AddByte(ls: seq<seq<byte>>, c: byte, begin: bool): seq<seq<byte>> {
    if begin || ls == [] then ls + [[c]] else ls[..|ls| - 1] + [ls[|ls| - 1] + [c]]
  }

  /** The lines, each with its newline; a last one may lack it. */
  function Lines(t: seq<byte>): seq<seq<byte>> {
    if t == [] then [] else AddByte(Lines(t[..|t| - 1]), t[|t| - 1], WholeLines(t[..|t| - 1]))
  }

  lemma AddByteConcat(ls: seq<seq<byte>>, ks: seq<seq<byte>>, c: byte, begin: bool)
    requires begin || ks != []
    ensures AddByte(ls + ks, c, begin) == ls + AddByte(ks, c, begin)
  {
    if !begin {
      assert (ls + ks)[..|ls + ks| - 1] == ls + ks[..|ks| - 1];
    }
  }

  lemma {:induction false} LinesConcat(s: seq<byte>, t: seq<byte>)
    requires WholeLines(s)
    ensures Lines(s + t) == Lines(s) + Lines(t)
  {
    if t == [] {
      assert s + t == s;
    } else {
      var init, c := t[..|t| - 1], t[|t| - 1];
      assert t == init + [c] && s + t == s + init + [c];
      LinesConcat(s, init);
      LinesSnoc(s + init, c);
      LinesSnoc(init, c);
      NewlinesAreLines(init);
      AddByteConcat(Lines(s), Lines(init), c, WholeLines(init));
    }
  }

  lemma LinesSnoc(t: seq<byte>, c: byte)
    ensures Lines(t + [c]) == AddByte(Lines(t), c, WholeLines(t))
  {
    assert (t + [c])[..|t|] == t;
  }

  lemma {:induction false} NewlinesAreLines(t: seq<byte>)
    ensures |Lines(t)| == Newlines(t) + if WholeLines(t) then 0 else 1
  {
    if t != [] { NewlinesAreLines(t[..|t| - 1]); }
  }

  /** The line under way is a line. */
  lemma {:induction false} LineUnderWay(t: seq<byte>)
    requires t != [] && LF !in t
    ensures Lines(t) == [t]
  {
    var init := t[..|t| - 1];
    assert t == init + [t[|t| - 1]];
    if init != [] { LineUnderWay(init); }
  }

  lemma OneLineIs(t: seq<byte>)
    requires OneLine(t)
    ensures Lines(t) == [t]
  {
    var init := t[..|t| - 1];
    assert t == init + [t[|t| - 1]];
    if init != [] { LineUnderWay(init); }
  }

  // ---------------------------------------------------------------- searching for newlines

  /** One past the last newline, 0 if there is none. */
  function PastLast(t: seq<byte>): (r: nat)
    ensures r <= |t| && WholeLines(t[..r]) && LF !in t[r..]
  {
    if t == [] then 0
    else if t[|t| - 1] == LF then
      assert t[..|t|] == t;
      |t|
    else
      var r := PastLast(t[..|t| - 1]);
      assert t[..r] == t[..|t| - 1][..r];
      assert t[r..] == t[..|t| - 1][r..] + [t[|t| - 1]];
      r
  }

  /** The bytes up to the first newline and with it, if there is one. */
  function NextLine(t: seq<byte>): (r: Option<seq<byte>>)
    ensures r.None? <==> LF !in t
    ensures r.Some? ==> OneLine(r.value) && r.value <= t
  {
    if t == [] then None
    else if t[0] == LF then Some([LF])
    else match NextLine(t[1..])
      case None => None
      case Some(e) =>
        assert ([t[0]] + e)[..|e|] == [t[0]] + e[..|e| - 1];
        assert t == [t[0]] + t[1..];
        Some([t[0]] + e)
  }

  // ---------------------------------------------------------------- lines without their newline

  /** Every line followed by a newline. */
  function Render(lines: seq<seq<byte>>): seq<byte> {
    if lines == [] then [] else Render(lines[..|lines| - 1]) + lines[|lines| - 1] + [LF]
  }

  lemma RenderSnoc(lines: seq<seq<byte>>, line: seq<byte>)
    ensures Render(lines + [line]) == Render(lines) + line + [LF]
  {
    assert (lines + [line])[..|lines|] == lines;
  }

  lemma {:induction false} RenderConcat(ls: seq<seq<byte>>, ms: seq<seq<byte>>)
    ensures Render(ls + ms) == Render(ls) + Render(ms)
  {
    if ms == [] {
      assert ls + ms == ls;
    } else {
      var init, m := ms[..|ms| - 1], ms[|ms| - 1];
      assert ls + ms == ls + init + [m] && ms == init + [m];
      RenderConcat(ls, init);
      RenderSnoc(ls + init, m);
      assert Render(ls) + (Render(init) + m + [LF]) == Render(ls) + Render(init) + m + [LF];
    }
  }

  /** Position of the first newline, -1 if there is none. */
  function IndexByte(t: seq<byte>): (r: int)
    ensures -1 <= r < |t|
  {
    if t == [] then -1
    else if t[0] == LF then 0
    else
      var r := IndexByte(t[1..]);
      if r == -1 then -1 else r + 1
  }

  lemma {:induction false} IndexByteIs(t: seq<byte>)
    ensures var r := IndexByte(t);
            && (r == -1 <==> LF !in t)
            && (r != -1 ==> t[r] == LF && LF !in t[..r])
  {
    if t != [] && t[0] != LF {
      IndexByteIs(t[1..]);
      var r := IndexByte(t[1..]);
      assert t == [t[0]] + t[1..];
      if r != -1 { assert t[..r + 1] == [t[0]] + t[1..][..r]; }
    }
  }

  /** What lies between newlines; nothing follows a final one. */
  function SplitLines(t: seq<byte>): seq<seq<byte>> {
    if t == [] then []
    else
      var nl := IndexByte(t);
      if nl == -1 then [t] else [t[..nl]] + SplitLines(t[nl + 1..])
  }

  lemma SplitFirst(t: seq<byte>, nl: int)
    requires t != [] && nl == IndexByte(t)
    ensures nl == -1 ==> SplitLines(t) == [t]
    ensures nl != -1 ==> SplitLines(t) == [t[..nl]] + SplitLines(t[nl + 1..])
  {
  }

  predicate NoneBroken(lines: seq<seq<byte>>) {
    forall i | 0 <= i < |lines| :: LF !in lines[i]
  }

  lemma RenderCons(line: seq<byte>, lines: seq<seq<byte>>)
    ensures Render([line] + lines) == line + [LF] + Render(lines)
  {
    RenderConcat([line], lines);
    assert [line][..0] == [] && Render([line]) == [] + line + [LF] == line + [LF];
  }

  lemma {:induction false} SplitUnbroken(t: seq<byte>)
    ensures NoneBroken(SplitLines(t))
  {
    IndexByteIs(t);
    var nl := IndexByte(t);
    if t != [] && nl != -1 {
      SplitUnbroken(t[nl + 1..]);
    }
  }

  lemma WholeTail(t: seq<byte>, n: nat)
    requires WholeLines(t) && n <= |t|
    ensures WholeLines(t[n..]) && (n > 0 && t[n - 1] == LF ==> t == t[..n - 1] + [LF] + t[n..])
  {
  }

  /** Whole lines are split and put together again without a change. */
  lemma {:induction false} RenderOfSplit(t: seq<byte>)
    requires WholeLines(t)
    ensures Render(SplitLines(t)) == t
  {
    if t != [] {
      var nl := IndexByte(t);
      IndexByteIs(t);
      var line, rest := t[..nl], t[nl + 1..];
      WholeTail(t, nl + 1);
      RenderOfSplit(rest);
      RenderCons(line, SplitLines(rest));
    }
  }

  lemma IndexOfFirst(line: seq<byte>, rest: seq<byte>)
    requires LF !in line
    ensures IndexByte(line + [LF] + rest) == |line|
  {
    var t := line + [LF] + rest;
    IndexByteIs(t);
    assert t[|line|] == LF;
    assert forall k | 0 <= k < |line| :: t[k] == line[k];
  }

  /** Lines written with a newline after each are read back the same. */
  lemma {:induction false} SplitOfRender(lines: seq<seq<byte>>)
    requires NoneBroken(lines)
    ensures SplitLines(Render(lines)) == lines
  {
    if lines != [] {
      var line, rest := lines[0], lines[1..];
      assert lines == [line] + rest;
      SplitOfRender(rest);
      RenderCons(line, rest);
      IndexOfFirst(line, Render(rest));
      var t := line + [LF] + Render(rest);
      assert t[..|line|] == line && t[|line| + 1..] == Render(rest);
    }
  }

  /** As many lines as newlines, and one more when the last line lacks it. */
  lemma {:induction false} SplitCount(t: seq<byte>)
    ensures |SplitLines(t)| == Newlines(t) + if WholeLines(t) then 0 else 1
  {
    IndexByteIs(t);
    var nl := IndexByte(t);
    if t == [] {
    } else if nl == -1 {
      NoNewlines(t);
    } else {
      var line, rest := t[..nl], t[nl + 1..];
      assert t == line + [LF] + rest;
      SplitCount(rest);
      FirstLineCounts(line, rest);
    }
  }

  lemma FirstLineCounts(line: seq<byte>, rest: seq<byte>)
    requires LF !in line
    ensures Newlines(line + [LF] + rest) == 1 + Newlines(rest)
    ensures WholeLines(line + [LF] + rest) <==> WholeLines(rest)
  {
    NoNewlines(line);
    NewlinesConcat(line, [LF]);
    NewlinesConcat(line + [LF], rest);
    assert [LF][..0] == [];
  }

  lemma {:induction false} NoNewlines(t: seq<byte>)
    requires LF !in t
    ensures Newlines(t) == 0
  {
    if t != [] { NoNewlines(t[..|t| - 1]); }
  }
}
