/** Words, lines and their width in bytes. */
module WordText {
  /** White space as the Unicode tables have it. */
  predicate IsSpace(c: char) {
    || '\t' <= c <= '\r' || c == ' ' || c == '\U{85}' || c == '\U{A0}'
    || c == '\U{1680}' || '\U{2000}' <= c <= '\U{200A}' || c == '\U{2028}' || c == '\U{2029}'
    || c == '\U{202F}' || c == '\U{205F}' || c == '\U{3000}'
  }

  /** Bytes of a character in UTF-8. */
  function CharWidth(c: char): nat {
    if c < '\U{80}' then 1 else if c < '\U{800}' then 2 else if c < '\U{10000}' then 3 else 4
  }

  function Width(t: string): nat {
    if t == [] then 0 else Width(t[..|t| - 1]) + CharWidth(t[|t| - 1])
  }

  lemma {:induction false} WidthConcat(t: string, u: string)
    ensures Width(t + u) == Width(t) + Width(u)
  {
    if u == [] {
      assert t + u == t;
    } else {
      assert (t + u)[..|t + u| - 1] == t + u[..|u| - 1];
      WidthConcat(t, u[..|u| - 1]);
    }
  }

  predicate Blank(t: string) { forall i | 0 <= i < |t| :: IsSpace(t[i]) }

  predicate Solid(t: string) { forall i | 0 <= i < |t| :: !IsSpace(t[i]) }

  /** No word can continue after this text. */
  predicate Closed(t: string) { t == [] || IsSpace(t[|t| - 1]) }

  function ExtendLast(ls: seq<string>, c: char): seq<string>
    requires ls != []
  {
    ls[..|ls| - 1] + [ls[|ls| - 1] + [c]]
  }

  /** The maximal stretches without white space. */
  function Words(t: string): (r: seq<string>)
    ensures !Closed(t) ==> r != []
  {
    if t == [] then []
    else
      var init, c := t[..|t| - 1], t[|t| - 1];
      if IsSpace(c) then Words(init)
      else if Closed(init) then Words(init) + [[c]]
      else ExtendLast(Words(init), c)
  }

  /** What lies between newlines. */
  function Lines(t: string): (r: seq<string>)
    ensures r != []
  {
    if t == [] then [[]]
    else if t[|t| - 1] == '\n' then Lines(t[..|t| - 1]) + [[]]
    else ExtendLast(Lines(t[..|t| - 1]), t[|t| - 1])
  }

  lemma Snoc(t: string, c: char)
    ensures (t + [c])[..|t + [c]| - 1] == t
  {
  }

  lemma {:induction false} WordsBlank(t: string, u: string)
    requires Blank(u)
    ensures Words(t + u) == Words(t)
  {
    if u == [] {
      assert t + u == t;
    } else {
      assert (t + u)[..|t + u| - 1] == t + u[..|u| - 1];
      WordsBlank(t, u[..|u| - 1]);
    }
  }

  lemma {:induction false} WordsSolid(t: string, u: string)
    requires Closed(t) && Solid(u) && u != []
    ensures Words(t + u) == Words(t) + [u]
  {
    var init, c := u[..|u| - 1], u[|u| - 1];
    assert (t + u)[..|t + u| - 1] == t + init;
    if init == [] {
      assert t + init == t && u == [c];
    } else {
      WordsSolid(t, init);
      assert (t + init)[|t + init| - 1] == init[|init| - 1] == u[|init| - 1];
      assert Words(t + u) == ExtendLast(Words(t + init), c);
      assert u == init + [c];
      assert ExtendLast(Words(t) + [init], c) == Words(t) + [init + [c]];
    }
  }

  lemma LinesNewline(t: string)
    ensures Lines(t + ['\n']) == Lines(t) + [[]]
  {
    Snoc(t, '\n');
  }

  function LastLine(t: string): string { Lines(t)[|Lines(t)| - 1] }

  lemma {:induction false} LinesAppend(t: string, u: string)
    requires '\n' !in u
    ensures Lines(t + u) == Lines(t)[..|Lines(t)| - 1] + [LastLine(t) + u]
  {
    if u == [] {
      assert t + u == t && LastLine(t) + u == LastLine(t);
    } else {
      var init, c := u[..|u| - 1], u[|u| - 1];
      assert (t + u)[..|t + u| - 1] == t + init;
      LinesAppend(t, init);
      var ls := Lines(t)[..|Lines(t)| - 1];
      assert ExtendLast(ls + [LastLine(t) + init], c) == ls + [LastLine(t) + init + [c]];
      assert LastLine(t) + init + [c] == LastLine(t) + u;
    }
  }

  /** A text ends the way its last line does. */
  lemma {:induction false} LastLineEnds(t: string)
    ensures t == [] ==> LastLine(t) == []
    ensures t != [] && t[|t| - 1] == '\n' ==> LastLine(t) == []
    ensures t != [] && t[|t| - 1] != '\n' ==> LastLine(t) != [] && LastLine(t)[|LastLine(t)| - 1] == t[|t| - 1]
  {
  }
}
