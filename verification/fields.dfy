/** Splitting a text at a separator, joining pieces, and the laws between the two. */
module FieldText {
  import opened Bytes

  type Text = seq<byte>

  /** Adds one byte to the last piece, or starts a new piece. */
  function Extend(ps: seq<Text>, c: byte, sep: byte): (r: seq<Text>)
    requires ps != []
    ensures r != []
  {
    if c == sep then ps + [[]] else ps[..|ps| - 1] + [ps[|ps| - 1] + [c]]
  }

  function Split(t: Text, sep: byte): (r: seq<Text>)
    ensures r != []
  {
    if t == [] then [[]] else Extend(Split(t[..|t| - 1], sep), t[|t| - 1], sep)
  }

  function Join(ps: seq<Text>, sep: byte): Text
    requires ps != []
  {
    if |ps| == 1 then ps[0] else Join(ps[..|ps| - 1], sep) + [sep] + ps[|ps| - 1]
  }

  predicate Free(t: Text, sep: byte) { sep !in t }

  predicate AllFree(ps: seq<Text>, sep: byte) {
    forall i | 0 <= i < |ps| :: Free(ps[i], sep)
  }

  lemma SplitSnoc(t: Text, c: byte, sep: byte)
    ensures Split(t + [c], sep) == Extend(Split(t, sep), c, sep)
  {
    assert (t + [c])[..|t|] == t;
  }

  lemma JoinSnoc(ps: seq<Text>, p: Text, sep: byte)
    requires ps != []
    ensures Join(ps + [p], sep) == Join(ps, sep) + [sep] + p
  {
    assert (ps + [p])[..|ps|] == ps;
  }

  lemma JoinExtend(ps: seq<Text>, c: byte, sep: byte)
    requires ps != []
    ensures Join(Extend(ps, c, sep), sep) == Join(ps, sep) + [c]
  {
    var init, last := ps[..|ps| - 1], ps[|ps| - 1];
    if c == sep {
      JoinSnoc(ps, [], sep);
    } else if init != [] {
      JoinSnoc(init, last, sep);
      JoinSnoc(init, last + [c], sep);
      assert ps == init + [last];
      assert Join(init, sep) + [sep] + (last + [c]) == Join(init, sep) + [sep] + last + [c];
    }
  }

  lemma {:induction false} JoinOfSplit(t: Text, sep: byte)
    ensures Join(Split(t, sep), sep) == t
    ensures AllFree(Split(t, sep), sep)
  {
    if t != [] {
      var init, c := t[..|t| - 1], t[|t| - 1];
      JoinOfSplit(init, sep);
      JoinExtend(Split(init, sep), c, sep);
      assert init + [c] == t;
    }
  }

  /** A piece without separators extends the last piece q of what precedes it. */
  lemma {:induction false} SplitOfConcat(ps: seq<Text>, q: Text, t: Text, p: Text, sep: byte)
    requires Free(p, sep) && Split(t, sep) == ps + [q]
    ensures Split(t + p, sep) == ps + [q + p]
  {
    if p == [] {
      assert t + p == t && q + p == q;
    } else {
      var init, c := p[..|p| - 1], p[|p| - 1];
      assert p == init + [c];
      SplitOfConcat(ps, q, t, init, sep);
      SplitSnoc(t + init, c, sep);
      ExtendLast(ps, q + init, c, sep);
      assert t + p == t + init + [c] && q + p == q + init + [c];
    }
  }

  lemma ExtendLast(ps: seq<Text>, q: Text, c: byte, sep: byte)
    requires c != sep
    ensures Extend(ps + [q], c, sep) == ps + [q + [c]]
  {
    assert (ps + [q])[..|ps|] == ps;
  }

  lemma {:induction false} SplitOfJoin(ps: seq<Text>, sep: byte)
    requires ps != [] && AllFree(ps, sep)
    ensures Split(Join(ps, sep), sep) == ps
  {
    var init, last := ps[..|ps| - 1], ps[|ps| - 1];
    assert ps == init + [last] && [] + last == last;
    if init == [] {
      assert Split([], sep) == [] + [[]];
      SplitOfConcat([], [], [], last, sep);
    } else {
      assert AllFree(init, sep);
      SplitOfJoin(init, sep);
      SplitSnoc(Join(init, sep), sep, sep);
      SplitOfConcat(init, [], Join(init, sep) + [sep], last, sep);
    }
  }

  lemma {:induction false} JoinCons(p: Text, ps: seq<Text>, sep: byte)
    requires ps != []
    ensures Join([p] + ps, sep) == p + [sep] + Join(ps, sep)
  {
    var init, last := ps[..|ps| - 1], ps[|ps| - 1];
    assert ps == init + [last];
    if init == [] {
      JoinSnoc([p], last, sep);
      assert [p] + ps == [p] + [last];
    } else {
      JoinCons(p, init, sep);
      JoinSnoc([p] + init, last, sep);
      JoinSnoc(init, last, sep);
      assert [p] + ps == [p] + init + [last];
      assert p + [sep] + (Join(init, sep) + [sep] + last) == p + [sep] + Join(init, sep) + [sep] + last;
    }
  }

  /** A byte that is not the separator is in the joined text exactly when it is in some piece. */
  lemma {:induction false} InJoin(ps: seq<Text>, sep: byte, c: byte)
    requires ps != [] && c != sep
    ensures c in Join(ps, sep) <==> exists i :: 0 <= i < |ps| && c in ps[i]
  {
    var init, last := ps[..|ps| - 1], ps[|ps| - 1];
    if init != [] {
      InJoin(init, sep, c);
      if c in Join(init, sep) {
        var i :| 0 <= i < |init| && c in init[i];
        assert c in ps[i];
      }
      if i :| 0 <= i < |ps| && c in ps[i] {
        assert i < |init| ==> c in init[i];
      }
    }
  }

  // ---------------------------------------------------------------- texts a record accepts

  /** Up to n pieces, or n pieces and one final separator. */
  predicate Accepted(t: Text, sep: byte, n: nat) {
    |Split(t, sep)| <= n || (|Split(t, sep)| == n + 1 && t != [] && t[|t| - 1] == sep)
  }

  /** The text without the final separator that is tolerated after n pieces. */
  function Trimmed(t: Text, sep: byte, n: nat): Text
    requires Accepted(t, sep, n)
  {
    if |Split(t, sep)| <= n then t else t[..|t| - 1]
  }

  /** How often the separator occurs. */
  function Separators(t: Text, sep: byte): nat {
    if t == [] then 0 else Separators(t[..|t| - 1], sep) + if t[|t| - 1] == sep then 1 else 0
  }

  lemma {:induction false} SplitCounts(t: Text, sep: byte)
    ensures |Split(t, sep)| == Separators(t, sep) + 1
  {
    if t != [] { SplitCounts(t[..|t| - 1], sep); }
  }

  /** A text is accepted when it has fewer than n separators, or n with the last one at its end. */
  lemma AcceptedIff(t: Text, sep: byte, n: nat)
    ensures Accepted(t, sep, n) <==>
            Separators(t, sep) < n || (Separators(t, sep) == n && t != [] && t[|t| - 1] == sep)
  {
    SplitCounts(t, sep);
  }

  lemma TrimmedPieces(t: Text, sep: byte, n: nat)
    requires Accepted(t, sep, n) && n > 0
    ensures |Split(Trimmed(t, sep, n), sep)| <= n
    ensures t == Trimmed(t, sep, n) || t == Trimmed(t, sep, n) + [sep]
  {
    if |Split(t, sep)| > n {
      var init := t[..|t| - 1];
      assert t == init + [sep];
      SplitSnoc(init, sep, sep);
    }
  }

  /** Where scanning may stop: at the end, or before the one separator that is trimmed. */
  lemma AcceptedPrefix(t: Text, n: nat, sep: byte, max: nat)
    requires n <= |t| && |Split(t[..n], sep)| <= max
    requires n == |t| || (n == |t| - 1 && t[n] == sep && |Split(t[..n], sep)| == max)
    ensures Accepted(t, sep, max) && Trimmed(t, sep, max) == t[..n]
  {
    if n < |t| {
      SplitSnoc(t[..n], sep, sep);
      assert t == t[..n] + [sep];
    } else {
      assert t[..n] == t;
    }
  }

  lemma {:induction false} PrefixPieces(t: Text, i: nat, sep: byte)
    requires i <= |t|
    ensures |Split(t[..i], sep)| <= |Split(t, sep)|
  {
    if i < |t| {
      var init := t[..|t| - 1];
      PrefixPieces(init, i, sep);
      assert init[..i] == t[..i];
      SplitSnoc(init, t[|t| - 1], sep);
      assert t == init + [t[|t| - 1]];
    } else {
      assert t[..i] == t;
    }
  }

  /** Separator number n, when it is not the last byte, makes a text unacceptable. */
  lemma TooManyPieces(t: Text, i: nat, sep: byte, n: nat)
    requires i + 1 < |t| && t[i] == sep && |Split(t[..i], sep)| == n
    ensures !Accepted(t, sep, n)
  {
    var init := t[..|t| - 1];
    PiecesUpTo(init, i, sep);
    assert init[..i] == t[..i];
    SplitSnoc(init, t[|t| - 1], sep);
    assert t == init + [t[|t| - 1]];
  }

  lemma PiecesUpTo(t: Text, i: nat, sep: byte)
    requires i < |t| && t[i] == sep
    ensures |Split(t, sep)| > |Split(t[..i], sep)|
  {
    assert t[..i + 1] == t[..i] + [sep];
    SplitSnoc(t[..i], sep, sep);
    PrefixPieces(t, i + 1, sep);
  }

  /** Piece f, empty past the last one. */
  function Piece(ps: seq<Text>, f: nat): Text {
    if f < |ps| then ps[f] else []
  }

  /**
   * Parsing the serialization of up to n fields gives the same fields back exactly when no field
   * contains the separator.
   */
  lemma ReparseIff(ps: seq<Text>, sep: byte, n: nat)
    requires 0 < |ps| <= n
    ensures (Accepted(Join(ps, sep), sep, n)
             && forall f: nat | f < n :: Piece(Split(Trimmed(Join(ps, sep), sep, n), sep), f) == Piece(ps, f))
            <==> AllFree(ps, sep)
  {
    var t := Join(ps, sep);
    if AllFree(ps, sep) {
      SplitOfJoin(ps, sep);
    } else if Accepted(t, sep, n) {
      var qs := Split(Trimmed(t, sep, n), sep);
      JoinOfSplit(Trimmed(t, sep, n), sep);
      var i :| 0 <= i < |ps| && !Free(ps[i], sep);
      assert Free(Piece(qs, i), sep);
    }
  }
}
