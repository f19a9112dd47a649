/** Wrapping a text at white space. */
module Wrapping {
  import opened WordText

  /** Where the loop is: the output, the width of its last line, and what is not written yet. */
  datatype State = State(buf: string, current: nat, space: string, word: string)

  function Pending(st: State): nat { Width(st.space) + Width(st.word) }

  /** Writes out the spaces and the word. */
  function Flushed(st: State): State {
    State(st.buf + st.space + st.word, st.current + Pending(st), [], [])
  }

  function Broken(st: State): State {
    st.(buf := st.buf + ['\n'], current := 0, space := [])
  }

  /** Spaces that do not fit before a newline are dropped. */
  function Newline(st: State, lim: nat): State {
    if st.word == [] && st.current + Width(st.space) > lim then Broken(st) else Broken(Flushed(st))
  }

  function Space(st: State, c: char): State {
    var t := if st.space == [] || st.word != [] then Flushed(st) else st;
    t.(space := t.space + [c])
  }

  /** A word that no longer fits goes to a new line, unless it would not fit there either. */
  function Letter(st: State, c: char, lim: nat): State {
    var t := st.(word := st.word + [c]);
    if t.current + Pending(t) > lim && Width(t.word) < lim then Broken(t) else t
  }

  lemma FlushWithoutWord(st: State)
    ensures st.word == [] ==> Flushed(st) == State(st.buf + st.space, st.current + Width(st.space), [], [])
  {
    assert st.buf + st.space + [] == st.buf + st.space;
  }

  function Step(st: State, c: char, lim: nat): State {
    if c == '\n' then Newline(st, lim) else if IsSpace(c) then Space(st, c) else Letter(st, c, lim)
  }

  function Run(s: string, lim: nat): State {
    if s == [] then State([], 0, [], []) else Step(Run(s[..|s| - 1], lim), s[|s| - 1], lim)
  }

  /** Spaces that do not fit at the end are dropped. */
  function Finished(st: State, lim: nat): string {
    if st.word == [] && st.current + Width(st.space) > lim then st.buf else st.buf + st.space + st.word
  }

  function Wrap(s: string, lim: nat): string {
    Finished(Run(s, lim), lim)
  }

  /** The loop over the characters, with its three buffers. */
  method WrapString(s: string, lim: nat) returns (r: string)
    ensures r == Wrap(s, lim)
  {
    var current: nat := 0;
    var buf, spaceBuf, wordBuf := "", "", "";
    for i := 0 to |s|
      invariant State(buf, current, spaceBuf, wordBuf) == Run(s[..i], lim)
    {
      var c := s[i];
      ghost var st := State(buf, current, spaceBuf, wordBuf);
      assert s[..i + 1] == s[..i] + [c];
      RunSnoc(s[..i], c, lim);
      FlushWithoutWord(st);
      if c == '\n' {
        if wordBuf == "" {
          if current + Width(spaceBuf) > lim {
            current := 0;
          } else {
            current := current + Width(spaceBuf);
            buf := buf + spaceBuf;
          }
          spaceBuf := "";
        } else {
          current := current + (Width(spaceBuf) + Width(wordBuf));
          buf, spaceBuf := buf + spaceBuf, "";
          buf, wordBuf := buf + wordBuf, "";
        }
        buf := buf + [c];
        current := 0;
        assert State(buf, current, spaceBuf, wordBuf) == Newline(st, lim);
      } else if IsSpace(c) {
        if spaceBuf == "" || wordBuf != "" {
          current := current + (Width(spaceBuf) + Width(wordBuf));
          buf, spaceBuf := buf + spaceBuf, "";
          buf, wordBuf := buf + wordBuf, "";
        }
        spaceBuf := spaceBuf + [c];
        assert State(buf, current, spaceBuf, wordBuf) == Space(st, c);
      } else {
        wordBuf := wordBuf + [c];
        if current + (Width(spaceBuf) + Width(wordBuf)) > lim && Width(wordBuf) < lim {
          buf := buf + ['\n'];
          current := 0;
          spaceBuf := "";
        }
        assert State(buf, current, spaceBuf, wordBuf) == Letter(st, c, lim);
      }
    }
    assert s[..|s|] == s;
    r := buf;
    if wordBuf == "" {
      if current + Width(spaceBuf) <= lim {
        r := r + spaceBuf;
      }
    } else {
      r := r + spaceBuf;
      r := r + wordBuf;
    }
  }

  // ---------------------------------------------------------------- words and width

  ghost predicate HasBigWord(ws: seq<string>, lim: nat) {
    exists i :: 0 <= i < |ws| && Width(ws[i]) >= lim
  }

  /** Not too wide, unless because of a word that fills a line by itself. */
  ghost predicate Fits(line: string, lim: nat) {
    Width(line) <= lim || HasBigWord(Words(line), lim)
  }

  ghost predicate AllFit(lines: seq<string>, lim: nat) {
    forall i | 0 <= i < |lines| :: Fits(lines[i], lim)
  }

  /** What was written of a word when it was this long fits the line, or it fills a line by itself. */
  ghost predicate Stays(before: nat, u: string, lim: nat) {
    before + Width(u) <= lim || Width(u) >= lim
  }

  ghost predicate AllStay(before: nat, word: string, lim: nat) {
    forall j | 0 < j <= |word| :: Stays(before, word[..j], lim)
  }

  /** At no letter was there a reason to break this line, and white space ends it only if it fits. */
  ghost predicate Snug(line: string, lim: nat) {
    && (Closed(line) ==> Width(line) <= lim)
    && forall i, j | 0 <= i < j <= |line| && Closed(line[..i]) && Solid(line[i..j]) ::
         Stays(Width(line[..i]), line[i..j], lim)
  }

  ghost predicate AllSnug(lines: seq<string>, lim: nat) {
    forall i | 0 <= i < |lines| :: Snug(lines[i], lim)
  }

  lemma NotSolid(t: string, i: nat, j: nat, k: nat)
    requires i <= k < j <= |t| && IsSpace(t[k])
    ensures !Solid(t[i..j])
  {
    assert t[i..j][k - i] == t[k];
  }

  /** Where a stretch of letters that begins a word can be, when a word is written behind a line. */
  lemma WordBegins(l: string, space: string, word: string, i: nat, j: nat)
    requires Blank(space) && Solid(word) && (space == [] ==> Closed(l))
    requires i < j <= |l + space + word|
    ensures var t := l + space + word;
            Closed(t[..i]) && Solid(t[i..j]) ==> j <= |l| || i == |l + space|
  {
    var t, n, m := l + space + word, |l|, |l + space|;
    if j > n && i < m {
      var k := if space == [] then n - 1 else if i < n then n else i;
      assert t[k] == if k < n then l[k] else space[k - n];
      NotSolid(t, i, j, k);
    } else if i > m {
      assert t[..i][i - 1] == word[i - 1 - m];
    }
  }

  /** Writing out white space and a word that stays leaves no reason for a break. */
  lemma FlushSnug(l: string, space: string, word: string, lim: nat)
    requires Snug(l, lim) && Blank(space) && Solid(word) && (space == [] ==> Closed(l))
    requires AllStay(Width(l) + Width(space), word, lim) && (word == [] ==> Width(l) + Width(space) <= lim)
    ensures Snug(l + space + word, lim)
  {
    var t := l + space + word;
    WidthConcat(l, space);
    forall i, j | 0 <= i < j <= |t| && Closed(t[..i]) && Solid(t[i..j])
      ensures Stays(Width(t[..i]), t[i..j], lim)
    {
      WordBegins(l, space, word, i, j);
      if j <= |l| {
        assert t[..i] == l[..i] && t[i..j] == l[i..j];
      } else {
        assert t[..i] == l + space && t[i..j] == word[..j - i];
      }
    }
    if word == [] {
      assert t == l + space;
    } else {
      assert t[|t| - 1] == word[|word| - 1];
    }
  }

  lemma {:induction false} LastWordBegins(t: string) returns (i: nat)
    requires !Closed(t)
    ensures i < |t| && Closed(t[..i]) && Solid(t[i..])
  {
    var init := t[..|t| - 1];
    if Closed(init) {
      i := |t| - 1;
    } else {
      i := LastWordBegins(init);
      assert t[..i] == init[..i] && t[i..] == init[i..] + [t[|t| - 1]];
    }
  }

  /** Such a line is too wide only because of a word that fills a line. */
  lemma SnugFits(line: string, lim: nat)
    requires Snug(line, lim)
    ensures Fits(line, lim)
  {
    if !Closed(line) {
      var i := LastWordBegins(line);
      var n := |line|;
      assert line[i..n] == line[i..] && line == line[..i] + line[i..];
      assert Stays(Width(line[..i]), line[i..n], lim);
      WidthConcat(line[..i], line[i..]);
      WordsSolid(line[..i], line[i..]);
      assert Words(line)[|Words(line)| - 1] == line[i..];
    }
  }

  function Unwritten(st: State): seq<string> {
    if st.word == [] then [] else [st.word]
  }

  /** The buffers hold the words of what was read, in lines that fit. */
  ghost predicate Inv(st: State, p: string, lim: nat) {
    && Blank(st.space) && '\n' !in st.space && Solid(st.word)
    && (st.space == [] ==> Closed(st.buf))
    && (st.word == [] <==> Closed(p))
    && Words(p) == Words(st.buf) + Unwritten(st)
    && Written(st, lim)
    && AllStay(st.current + Width(st.space), st.word, lim)
  }

  ghost predicate Written(st: State, lim: nat) {
    st.current == Width(LastLine(st.buf)) && AllSnug(Lines(st.buf), lim)
  }

  ghost predicate EndsWith(ws: seq<string>, w: string) {
    ws != [] && ws[|ws| - 1] == w
  }

  lemma FlushWords(st: State)
    requires Blank(st.space) && Solid(st.word) && (st.space == [] ==> Closed(st.buf))
    ensures Words(Flushed(st).buf) == Words(st.buf) + Unwritten(st)
    ensures st.word != [] ==> EndsWith(Words(LastLine(st.buf) + st.space + st.word), st.word)
  {
    var l := LastLine(st.buf);
    WordsBlank(st.buf, st.space);
    if st.word == [] {
      assert st.buf + st.space + [] == st.buf + st.space;
    } else {
      WordsSolid(st.buf + st.space, st.word);
      LastLineEnds(st.buf);
      WordsSolid(l + st.space, st.word);
    }
  }

  lemma FlushFits(st: State, lim: nat)
    requires Blank(st.space) && Solid(st.word) && (st.space == [] ==> Closed(st.buf))
    requires '\n' !in st.space && Written(st, lim)
    requires AllStay(st.current + Width(st.space), st.word, lim)
    requires st.word == [] ==> st.current + Width(st.space) <= lim
    ensures Written(Flushed(st), lim)
  {
    var l, u := LastLine(st.buf), st.space + st.word;
    assert st.buf + st.space + st.word == st.buf + u && l + st.space + st.word == l + u;
    WidthConcat(st.space, st.word);
    LastLineEnds(st.buf);
    FlushSnug(l, st.space, st.word, lim);
    WrittenMore(st.buf, u, lim);
  }

  lemma WrittenMore(t: string, u: string, lim: nat)
    requires '\n' !in u && AllSnug(Lines(t), lim) && Snug(LastLine(t) + u, lim)
    ensures AllSnug(Lines(t + u), lim) && Width(LastLine(t + u)) == Width(LastLine(t)) + Width(u)
  {
    LinesAppend(t, u);
    WidthConcat(LastLine(t), u);
    LastFits(Lines(t), LastLine(t) + u, lim);
  }

  lemma LastFits(lines: seq<string>, l: string, lim: nat)
    requires lines != [] && AllSnug(lines, lim) && Snug(l, lim)
    ensures AllSnug(lines[..|lines| - 1] + [l], lim)
  {
  }

  lemma NewlineWritten(t: string, lim: nat)
    requires AllSnug(Lines(t), lim)
    ensures Written(State(t + ['\n'], 0, [], []), lim) && Words(t + ['\n']) == Words(t)
  {
    LinesNewline(t);
    WordsBlank(t, ['\n']);
  }

  lemma NewlineInv(t: string, p: string, lim: nat)
    requires AllSnug(Lines(t), lim) && Words(p) == Words(t)
    ensures Inv(State(t + ['\n'], 0, [], []), p + ['\n'], lim)
  {
    Snoc(p, '\n');
    NewlineWritten(t, lim);
  }

  lemma StepNewline(st: State, p: string, lim: nat)
    requires Inv(st, p, lim)
    ensures Inv(Step(st, '\n', lim), p + ['\n'], lim)
  {
    FlushWords(st);
    if st.word == [] && st.current + Width(st.space) > lim {
      NewlineInv(st.buf, p, lim);
    } else {
      FlushFits(st, lim);
      NewlineInv(Flushed(st).buf, p, lim);
    }
  }

  lemma StepSpace(st: State, p: string, c: char, lim: nat)
    requires Inv(st, p, lim) && IsSpace(c) && c != '\n'
    ensures Inv(Step(st, c, lim), p + [c], lim)
  {
    Snoc(p, c);
    FlushWords(st);
    if st.word != [] {
      FlushFits(st, lim);
    } else if st.space == [] {
      assert Flushed(st) == st by {
        assert st.buf + [] + [] == st.buf;
      }
    }
  }

  lemma StepLetter(st: State, p: string, c: char, lim: nat)
    requires Inv(st, p, lim) && !IsSpace(c)
    ensures Inv(Step(st, c, lim), p + [c], lim)
  {
    AddLetter(st, p, c, lim);
    if st.current + Pending(st.(word := st.word + [c])) > lim && Width(st.word + [c]) < lim {
      NewlineWritten(st.buf, lim);
      StaysAlone(st.word + [c], lim);
    } else {
      StaysOn(st.current + Width(st.space), st.word, c, lim);
    }
  }

  lemma StaysAlone(word: string, lim: nat)
    ensures AllStay(0, word, lim)
  {
  }

  lemma StaysOn(before: nat, word: string, c: char, lim: nat)
    requires AllStay(before, word, lim) && Stays(before, word + [c], lim)
    ensures AllStay(before, word + [c], lim)
  {
    forall j | 0 < j <= |word + [c]| ensures Stays(before, (word + [c])[..j], lim) {
      assert (word + [c])[..j] == if j <= |word| then word[..j] else word + [c];
    }
  }

  lemma AddLetter(st: State, p: string, c: char, lim: nat)
    requires Inv(st, p, lim) && !IsSpace(c)
    ensures Words(p + [c]) == Words(st.buf) + [st.word + [c]] && !Closed(p + [c]) && Solid(st.word + [c])
  {
    Snoc(p, c);
    if st.word == [] {
      assert [] + [c] == [c];
    } else {
      assert ExtendLast(Words(st.buf) + [st.word], c) == Words(st.buf) + [st.word + [c]];
    }
  }

  lemma {:induction false} RunKeeps(s: string, lim: nat)
    ensures Inv(Run(s, lim), s, lim)
  {
    if s != [] {
      var p, c := s[..|s| - 1], s[|s| - 1];
      assert s == p + [c];
      RunKeeps(p, lim);
      if c == '\n' {
        StepNewline(Run(p, lim), p, lim);
      } else if IsSpace(c) {
        StepSpace(Run(p, lim), p, c, lim);
      } else {
        StepLetter(Run(p, lim), p, c, lim);
      }
    }
  }

  /**
   * Wrapping keeps the words, and makes lines that are not too wide unless a word is: a word stays on a
   * line only while it fits there or when it fills a line by itself.
   */
  lemma WrapCorrect(s: string, lim: nat)
    ensures Words(Wrap(s, lim)) == Words(s)
    ensures AllSnug(Lines(Wrap(s, lim)), lim) && AllFit(Lines(Wrap(s, lim)), lim)
  {
    var st := Run(s, lim);
    RunKeeps(s, lim);
    FlushWords(st);
    if st.word != [] || st.current + Width(st.space) <= lim {
      FlushFits(st, lim);
    }
    forall l | l in Lines(Wrap(s, lim)) ensures Fits(l, lim) {
      SnugFits(l, lim);
    }
  }

  // ---------------------------------------------------------------- what is left alone

  ghost predicate Narrow(t: string, lim: nat) {
    forall l | l in Lines(t) :: Width(l) <= lim
  }

  lemma NarrowPrefix(p: string, c: char, lim: nat)
    requires Narrow(p + [c], lim)
    ensures Narrow(p, lim) && Width(LastLine(p + [c])) <= lim
  {
    Snoc(p, c);
    var ls := Lines(p);
    if c != '\n' {
      assert LastLine(p + [c]) == LastLine(p) + [c];
      WidthConcat(LastLine(p), [c]);
      forall i | 0 <= i < |ls| ensures Width(ls[i]) <= lim {
        if i < |ls| - 1 { assert ls[i] == Lines(p + [c])[i]; }
      }
    } else {
      forall i | 0 <= i < |ls| ensures Width(ls[i]) <= lim { assert ls[i] == Lines(p + [c])[i]; }
    }
  }

  /** Nothing was changed so far. */
  lemma {:induction false} RunNarrow(s: string, lim: nat)
    requires Narrow(s, lim)
    ensures Unchanged(Run(s, lim), s, lim)
  {
    if s != [] {
      var p, c := s[..|s| - 1], s[|s| - 1];
      assert s == p + [c];
      NarrowPrefix(p, c, lim);
      RunNarrow(p, lim);
      StepNarrow(Run(p, lim), p, c, lim);
    }
  }

  /** So far only widths up to the limit occurred, and nothing was changed. */
  ghost predicate Unchanged(st: State, p: string, lim: nat) {
    Flushed(st).buf == p && Flushed(st).current == Width(LastLine(p)) <= lim
  }

  lemma LastLineSnoc(p: string, c: char)
    ensures c != '\n' ==> Width(LastLine(p + [c])) == Width(LastLine(p)) + CharWidth(c)
    ensures c == '\n' ==> LastLine(p + [c]) == []
  {
    Snoc(p, c);
    if c != '\n' {
      assert LastLine(p + [c]) == LastLine(p) + [c];
      Snoc(LastLine(p), c);
    }
  }

  lemma StepNarrow(st: State, p: string, c: char, lim: nat)
    requires Unchanged(st, p, lim) && Width(LastLine(p + [c])) <= lim
    ensures Unchanged(Step(st, c, lim), p + [c], lim)
  {
    LastLineSnoc(p, c);
    if c == '\n' {
      FlushNothing(Newline(st, lim));
    } else if IsSpace(c) {
      NarrowSpace(st, p, c);
    } else {
      NarrowLetter(st, p, c);
    }
  }

  lemma FlushNothing(st: State)
    requires st.space == [] && st.word == []
    ensures Flushed(st) == st
  {
    assert st.buf + [] + [] == st.buf;
  }

  lemma NarrowSpace(st: State, p: string, c: char)
    requires Flushed(st).buf == p
    ensures Flushed(Space(st, c)).buf == p + [c]
    ensures Flushed(Space(st, c)).current == Flushed(st).current + CharWidth(c)
  {
    if st.space == [] || st.word != [] {
      Snoc([], c);
      assert [] + [c] == [c] && p + [c] + [] == p + [c];
    } else {
      Snoc(st.space, c);
      assert st.buf + st.space + [] == st.buf + st.space;
      assert st.buf + (st.space + [c]) + [] == st.buf + st.space + [c];
    }
  }

  lemma NarrowLetter(st: State, p: string, c: char)
    requires Flushed(st).buf == p
    ensures Flushed(st.(word := st.word + [c])).buf == p + [c]
    ensures Flushed(st.(word := st.word + [c])).current == Flushed(st).current + CharWidth(c)
  {
    Snoc(st.word, c);
    assert st.buf + st.space + (st.word + [c]) == st.buf + st.space + st.word + [c];
  }

  lemma FinishedNarrow(st: State, s: string, lim: nat)
    requires Unchanged(st, s, lim)
    ensures Finished(st, lim) == s
  {
    assert st.word == [] ==> Width(st.word) == 0;
  }

  /** A text whose lines are narrow enough is not changed, trailing spaces included. */
  lemma NarrowUnchanged(s: string, lim: nat)
    requires Narrow(s, lim)
    ensures Wrap(s, lim) == s
  {
    RunNarrow(s, lim);
    FinishedNarrow(Run(s, lim), s, lim);
  }

  /** Wrapping again changes nothing, if no word fills a line. */
  lemma WrapTwice(s: string, lim: nat)
    requires !HasBigWord(Words(s), lim)
    ensures Wrap(Wrap(s, lim), lim) == Wrap(s, lim)
  {
    var r := Wrap(s, lim);
    WrapCorrect(s, lim);
    forall l | l in Lines(r) ensures Width(l) <= lim {
      var i :| 0 <= i < |Lines(r)| && Lines(r)[i] == l;
      assert Fits(Lines(r)[i], lim);
      if HasBigWord(Words(l), lim) {
        var k :| 0 <= k < |Words(l)| && Width(Words(l)[k]) >= lim;
        WordsByLine(r);
        WordOfLine(Lines(r), i, k);
      }
    }
    NarrowUnchanged(r, lim);
  }

  function AllWords(lines: seq<string>): seq<string> {
    if lines == [] then [] else AllWords(lines[..|lines| - 1]) + Words(lines[|lines| - 1])
  }

  lemma AllWordsSnoc(lines: seq<string>, l: string)
    ensures AllWords(lines + [l]) == AllWords(lines) + Words(l)
  {
    assert (lines + [l])[..|lines|] == lines;
  }

  /** The words of a text are those of its lines. */
  lemma {:induction false} WordsByLine(t: string)
    ensures Words(t) == AllWords(Lines(t))
  {
    if t == [] {
      assert AllWords([[]]) == [];
    } else {
      var init, c := t[..|t| - 1], t[|t| - 1];
      var ls, last := Lines(init)[..|Lines(init)| - 1], LastLine(init);
      WordsByLine(init);
      assert Words(init) == AllWords(ls) + Words(last);
      if c == '\n' {
        AllWordsSnoc(Lines(init), []);
      } else {
        AllWordsSnoc(ls, last + [c]);
        LastLineEnds(init);
        WordsExtend(init, last, AllWords(ls), c);
        assert t == init + [c];
      }
    }
  }

  lemma WordsExtend(t: string, l: string, ws: seq<string>, c: char)
    requires Words(t) == ws + Words(l) && (Closed(t) <==> Closed(l))
    ensures Words(t + [c]) == ws + Words(l + [c])
  {
    Snoc(t, c);
    Snoc(l, c);
    if !IsSpace(c) && !Closed(t) {
      ExtendLastConcat(ws, Words(l), c);
    }
  }

  lemma ExtendLastConcat(ws: seq<string>, vs: seq<string>, c: char)
    requires vs != []
    ensures ExtendLast(ws + vs, c) == ws + ExtendLast(vs, c)
  {
    assert (ws + vs)[..|ws + vs| - 1] == ws + vs[..|vs| - 1];
  }

  lemma {:induction false} WordOfLine(lines: seq<string>, i: nat, k: nat)
    requires i < |lines| && k < |Words(lines[i])|
    ensures Words(lines[i])[k] in AllWords(lines)
  {
    var init := lines[..|lines| - 1];
    var ws := Words(lines[|lines| - 1]);
    if i < |init| {
      WordOfLine(init, i, k);
    } else {
      assert (AllWords(init) + ws)[|AllWords(init)| + k] == ws[k];
    }
  }

  // ---------------------------------------------------------------- paragraphs

  function Shifted(x: string, st: State): State {
    st.(buf := x + st.buf)
  }

  lemma FlushShifted(x: string, st: State)
    ensures Flushed(Shifted(x, st)) == Shifted(x, Flushed(st))
  {
    assert x + st.buf + st.space + st.word == x + (st.buf + st.space + st.word);
  }

  lemma StepShifted(x: string, st: State, c: char, lim: nat)
    ensures Step(Shifted(x, st), c, lim) == Shifted(x, Step(st, c, lim))
  {
    FlushShifted(x, st);
    BrokenShifted(x, st);
    BrokenShifted(x, Flushed(st));
    BrokenShifted(x, st.(word := st.word + [c]));
  }

  lemma BrokenShifted(x: string, st: State)
    ensures Broken(Shifted(x, st)) == Shifted(x, Broken(st))
  {
    assert x + st.buf + ['\n'] == x + (st.buf + ['\n']);
  }

  lemma RunSnoc(t: string, c: char, lim: nat)
    ensures Run(t + [c], lim) == Step(Run(t, lim), c, lim)
  {
    Snoc(t, c);
  }

  lemma RunNewline(a: string, lim: nat)
    ensures Run(a + ['\n'], lim) == State(Wrap(a, lim) + ['\n'], 0, [], [])
  {
    Snoc(a, '\n');
    var st := Run(a, lim);
    assert st.word == [] ==> st.buf + st.space + [] == st.buf + st.space;
  }

  /** From where the buffers are empty, what is written does not depend on what was written before. */
  lemma {:induction false} RunShifted(a: string, x: string, b: string, lim: nat)
    requires Run(a, lim) == State(x, 0, [], [])
    ensures Run(a + b, lim) == Shifted(x, Run(b, lim))
  {
    if b == [] {
      assert a + b == a && x + [] == x;
    } else {
      var init, c := b[..|b| - 1], b[|b| - 1];
      RunShifted(a, x, init, lim);
      RunSnoc(init, c, lim);
      RunSnoc(a + init, c, lim);
      StepShifted(x, Run(init, lim), c, lim);
      assert b == init + [c] && a + b == a + init + [c];
    }
  }

  /** Paragraphs are wrapped one by one, and the newlines between them stay. */
  lemma ParagraphsApart(a: string, b: string, lim: nat)
    ensures Wrap(a + ['\n'] + b, lim) == Wrap(a, lim) + ['\n'] + Wrap(b, lim)
  {
    var x, st := Wrap(a, lim) + ['\n'], Run(b, lim);
    RunNewline(a, lim);
    RunShifted(a + ['\n'], x, b, lim);
    FlushShifted(x, st);
  }

  // ---------------------------------------------------------------- no break is needless

  /** The white space dropped at each break so far. */
  function Drops(s: string, lim: nat): seq<string> {
    if s == [] then []
    else
      var p, c := s[..|s| - 1], s[|s| - 1];
      var st := Run(p, lim);
      if c != '\n' && !IsSpace(c) && Letter(st, c, lim).buf != st.buf then Drops(p, lim) + [st.space]
      else Drops(p, lim)
  }

  /** Lines with the dropped white space between them. */
  function Woven(lines: seq<string>, drops: seq<string>): string
    requires |lines| == |drops| + 1
  {
    if drops == [] then lines[0]
    else Woven(lines[..|drops|], drops[..|drops| - 1]) + drops[|drops| - 1] + lines[|drops|]
  }

  function FirstWord(t: string): string {
    if Words(t) == [] then [] else Words(t)[0]
  }

  /** The word that begins a line, which may not be written yet. */
  function Begins(line: string, word: string): string {
    if line == [] then word else FirstWord(line)
  }

  /**
   * The line before the break, what was dropped there and the next word do not fit together, and were
   * found not to when the word could still have fitted on a line.
   */
  ghost predicate TooWide(line: string, drop: string, word: string, lim: nat) {
    && Blank(drop) && Width(line) + Width(drop) + Width(word) > lim
    && exists j :: 0 < j <= |word| && DoesNotFit(Width(line) + Width(drop), word[..j], lim)
  }

  ghost predicate DoesNotFit(before: nat, u: string, lim: nat) {
    before + Width(u) > lim > Width(u)
  }

  lemma TooWideLonger(line: string, drop: string, word: string, longer: string, lim: nat)
    requires TooWide(line, drop, word, lim) && word <= longer
    ensures TooWide(line, drop, longer, lim)
  {
    var j :| 0 < j <= |word| && DoesNotFit(Width(line) + Width(drop), word[..j], lim);
    assert longer[..j] == word[..j];
    WidthConcat(word, longer[|word|..]);
    assert longer == word + longer[|word|..];
  }

  /** Every break so far was needed; only the last line may still be empty. */
  ghost predicate Needed(lines: seq<string>, drops: seq<string>, word: string, lim: nat)
    requires |lines| == |drops| + 1
  {
    && (forall i | 0 <= i < |drops| :: TooWide(lines[i], drops[i], Begins(lines[i + 1], word), lim))
    && forall i | 0 < i < |drops| :: lines[i] != []
  }

  /** What was read is the lines with what was dropped between them, and then what is not written. */
  ghost predicate Tidy(lines: seq<string>, drops: seq<string>, space: string, word: string, p: string, lim: nat) {
    && |lines| == |drops| + 1
    && p == Woven(lines, drops) + (space + word)
    && Needed(lines, drops, word, lim)
    && (drops != [] ==> Underway(lines[|drops|], space, word))
  }

  /** After a break a line begins with a word, if need be the one that is not written yet. */
  ghost predicate Underway(line: string, space: string, word: string) {
    if line == [] then space == [] && word != [] else Words(line) != []
  }

  ghost predicate TidyState(st: State, p: string, drops: seq<string>, lim: nat) {
    Tidy(Lines(st.buf), drops, st.space, st.word, p, lim)
  }

  lemma WovenBreak(lines: seq<string>, drops: seq<string>, d: string)
    requires |lines| == |drops| + 1
    ensures Woven(lines + [[]], drops + [d]) == Woven(lines, drops) + d
  {
    assert (lines + [[]])[..|drops| + 1] == lines && (drops + [d])[..|drops|] == drops;
    assert Woven(lines, drops) + d + [] == Woven(lines, drops) + d;
  }

  lemma WovenExtend(lines: seq<string>, drops: seq<string>, u: string)
    requires |lines| == |drops| + 1
    ensures Woven(lines[..|drops|] + [lines[|drops|] + u], drops) == Woven(lines, drops) + u
  {
    if drops != [] {
      var w := Woven(lines[..|drops|], drops[..|drops| - 1]) + drops[|drops| - 1];
      assert (lines[..|drops|] + [lines[|drops|] + u])[..|drops|] == lines[..|drops|];
      assert w + (lines[|drops|] + u) == w + lines[|drops|] + u;
    }
  }

  /** Writing out a word keeps the first word of the last line. */
  lemma FlushBegins(l: string, space: string, word: string)
    requires Blank(space) && Solid(word) && word != []
    requires if l == [] then space == [] else Words(l) != [] && (space == [] ==> Closed(l))
    ensures FirstWord(l + space + word) == Begins(l, word) && Words(l + space + word) != []
  {
    WordsBlank(l, space);
    WordsSolid(l + space, word);
    assert l == [] ==> l + space + word == word;
  }

  lemma NeededExtend(lines: seq<string>, drops: seq<string>, word: string, l: string, lim: nat)
    requires |lines| == |drops| + 1 && Needed(lines, drops, word, lim)
    requires drops != [] ==> l != [] && FirstWord(l) == Begins(lines[|drops|], word)
    ensures Needed(lines[..|drops|] + [l], drops, [], lim)
  {
    var ls := lines[..|drops|] + [l];
    forall i | 0 <= i < |drops| ensures TooWide(ls[i], drops[i], Begins(ls[i + 1], []), lim) {
      assert TooWide(lines[i], drops[i], Begins(lines[i + 1], word), lim);
      assert ls[i] == lines[i] && ls[i + 1] == if i + 1 == |drops| then l else lines[i + 1];
    }
  }

  lemma FlushTidy(st: State, p: string, drops: seq<string>, lim: nat)
    requires Inv(st, p, lim) && TidyState(st, p, drops, lim) && st.word != []
    ensures TidyState(Flushed(st), p, drops, lim)
  {
    var lines, u, l := Lines(st.buf), st.space + st.word, LastLine(st.buf);
    assert st.buf + st.space + st.word == st.buf + u && l + st.space + st.word == l + u;
    LinesAppend(st.buf, u);
    WovenExtend(lines, drops, u);
    assert Woven(Lines(Flushed(st).buf), drops) + ([] + []) == Woven(Lines(Flushed(st).buf), drops);
    if drops != [] {
      LastLineEnds(st.buf);
      FlushBegins(l, st.space, st.word);
    }
    NeededExtend(lines, drops, st.word, l + u, lim);
  }

  lemma SpaceTidy(st: State, p: string, drops: seq<string>, c: char, lim: nat)
    requires Inv(st, p, lim) && TidyState(st, p, drops, lim) && IsSpace(c)
    ensures TidyState(Space(st, c), p + [c], drops, lim)
  {
    if st.word != [] {
      FlushTidy(st, p, drops, lim);
      MoreSpace(Lines(Flushed(st).buf), drops, [], p, c, lim);
    } else {
      FlushNothing(State(st.buf, st.current, [], []));
      MoreSpace(Lines(st.buf), drops, st.space, p, c, lim);
    }
  }

  lemma MoreSpace(lines: seq<string>, drops: seq<string>, space: string, p: string, c: char, lim: nat)
    requires Tidy(lines, drops, space, [], p, lim)
    ensures Tidy(lines, drops, space + [c], [], p + [c], lim)
  {
    assert space + [] == space && space + [c] + [] == space + [c];
    assert Woven(lines, drops) + space + [c] == Woven(lines, drops) + (space + [c]);
  }

  lemma MoreWord(lines: seq<string>, drops: seq<string>, space: string, word: string, p: string, c: char, lim: nat)
    requires Tidy(lines, drops, space, word, p, lim)
    ensures Tidy(lines, drops, space, word + [c], p + [c], lim)
  {
    Snoc(word, c);
    NeededLonger(lines, drops, word, word + [c], lim);
    assert Woven(lines, drops) + (space + word) + [c] == Woven(lines, drops) + (space + (word + [c]));
  }

  lemma BreakTidy(lines: seq<string>, drops: seq<string>, st: State, p: string, c: char, lim: nat)
    requires Tidy(lines, drops, st.space, st.word, p, lim) && Blank(st.space)
    requires st.current == Width(lines[|drops|]) && st.current + Pending(st.(word := st.word + [c])) > lim
    requires Width(st.word + [c]) < lim
    ensures Tidy(lines + [[]], drops + [st.space], [], st.word + [c], p + [c], lim)
  {
    var word := st.word + [c];
    MoreWord(lines, drops, st.space, st.word, p, c, lim);
    BreakNeeded(lines, drops, st, c, lim);
    BreakText(lines, drops, st.space, word);
    assert (lines + [[]])[|drops| + 1] == [];
  }

  lemma BreakText(lines: seq<string>, drops: seq<string>, space: string, word: string)
    requires |lines| == |drops| + 1
    ensures Woven(lines, drops) + (space + word) == Woven(lines + [[]], drops + [space]) + ([] + word)
  {
    var w := Woven(lines, drops);
    WovenBreak(lines, drops, space);
    assert w + (space + word) == w + space + word;
    assert [] + word == word;
  }

  lemma LetterTidy(st: State, p: string, drops: seq<string>, c: char, lim: nat)
    requires Inv(st, p, lim) && TidyState(st, p, drops, lim) && !IsSpace(c)
    ensures var t := Letter(st, c, lim);
            TidyState(t, p + [c], if t.buf != st.buf then drops + [st.space] else drops, lim)
  {
    if Letter(st, c, lim).buf != st.buf {
      LinesNewline(st.buf);
      BreakTidy(Lines(st.buf), drops, st, p, c, lim);
    } else {
      MoreWord(Lines(st.buf), drops, st.space, st.word, p, c, lim);
    }
  }

  lemma NeededLonger(lines: seq<string>, drops: seq<string>, word: string, longer: string, lim: nat)
    requires |lines| == |drops| + 1 && Needed(lines, drops, word, lim) && word <= longer
    ensures Needed(lines, drops, longer, lim)
  {
    forall i | 0 <= i < |drops| ensures TooWide(lines[i], drops[i], Begins(lines[i + 1], longer), lim) {
      assert TooWide(lines[i], drops[i], Begins(lines[i + 1], word), lim);
      if lines[i + 1] == [] { TooWideLonger(lines[i], drops[i], word, longer, lim); }
    }
  }

  lemma BreakNeeded(lines: seq<string>, drops: seq<string>, st: State, c: char, lim: nat)
    requires |lines| == |drops| + 1 && Needed(lines, drops, st.word, lim) && Blank(st.space)
    requires st.current == Width(lines[|drops|]) && st.current + Pending(st.(word := st.word + [c])) > lim
    requires Width(st.word + [c]) < lim
    requires drops != [] && lines[|drops|] == [] ==> st.space == []
    ensures Needed(lines + [[]], drops + [st.space], st.word + [c], lim)
  {
    var ls, ds, word := lines + [[]], drops + [st.space], st.word + [c];
    NeededLonger(lines, drops, st.word, word, lim);
    forall i | 0 <= i < |ds| ensures TooWide(ls[i], ds[i], Begins(ls[i + 1], word), lim) {
      if i < |drops| {
        assert TooWide(lines[i], drops[i], Begins(lines[i + 1], word), lim);
        assert ls[i] == lines[i] && ls[i + 1] == lines[i + 1] && ds[i] == drops[i];
      } else {
        assert word[..|word|] == word;
        assert DoesNotFit(Width(ls[i]) + Width(ds[i]), word[..|word|], lim);
      }
    }
  }

  lemma {:induction false} RunTidy(s: string, lim: nat)
    requires '\n' !in s
    ensures TidyState(Run(s, lim), s, Drops(s, lim), lim)
  {
    if s != [] {
      var p, c := s[..|s| - 1], s[|s| - 1];
      assert s == p + [c] && c in s;
      RunTidy(p, lim);
      RunKeeps(p, lim);
      if IsSpace(c) {
        SpaceTidy(Run(p, lim), p, Drops(p, lim), c, lim);
      } else {
        LetterTidy(Run(p, lim), p, Drops(p, lim), c, lim);
      }
    }
  }

  /**
   * A paragraph is its lines with some white space dropped between them. At each break the line, the
   * white space and the next word together are wider than lim, and the tail is dropped only if it
   * does not fit.
   */
  ghost predicate Explained(lines: seq<string>, drops: seq<string>, tail: string, s: string, lim: nat) {
    && |lines| == |drops| + 1 && s == Woven(lines, drops) + tail
    && (forall i | 0 <= i < |drops| :: TooWide(lines[i], drops[i], FirstWord(lines[i + 1]), lim))
    && Blank(tail) && (tail != [] ==> Width(lines[|drops|]) + Width(tail) > lim)
  }

  lemma TailDropped(lines: seq<string>, drops: seq<string>, space: string, s: string, lim: nat)
    requires Tidy(lines, drops, space, [], s, lim) && Blank(space) && Width(lines[|drops|]) + Width(space) > lim
    ensures Explained(lines, drops, space, s, lim)
  {
    assert space + [] == space;
  }

  lemma AllWritten(lines: seq<string>, drops: seq<string>, s: string, lim: nat)
    requires Tidy(lines, drops, [], [], s, lim)
    ensures Explained(lines, drops, [], s, lim)
  {
  }

  lemma TailWritten(buf: string, drops: seq<string>, space: string, s: string, lim: nat)
    requires Tidy(Lines(buf), drops, space, [], s, lim) && Blank(space) && '\n' !in space
    ensures Explained(Lines(buf + space), drops, [], s, lim)
  {
    LinesAppend(buf, space);
    WovenExtend(Lines(buf), drops, space);
    WordsBlank(LastLine(buf), space);
    assert space + [] == space;
  }

  /** No break is needless, and nothing but white space at breaks and at the end is dropped. */
  lemma BreaksNeeded(s: string, lim: nat) returns (drops: seq<string>, tail: string)
    requires '\n' !in s
    ensures Explained(Lines(Wrap(s, lim)), drops, tail, s, lim)
  {
    var st := Run(s, lim);
    RunTidy(s, lim);
    RunKeeps(s, lim);
    drops, tail := Drops(s, lim), [];
    if st.word != [] {
      FlushTidy(st, s, drops, lim);
      AllWritten(Lines(Flushed(st).buf), drops, s, lim);
    } else if st.current + Width(st.space) > lim {
      tail := st.space;
      TailDropped(Lines(st.buf), drops, tail, s, lim);
    } else {
      assert st.buf + st.space + [] == st.buf + st.space;
      TailWritten(st.buf, drops, st.space, s, lim);
    }
  }
}
