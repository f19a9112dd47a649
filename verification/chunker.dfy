/**
 * Cutting a stream into blocks of whole lines, with pooled buffers. The same loop reads
 * compressed files and sockets.
 */
module Chunkers {
  import opened Bytes
  import opened LineText

  const CHUNK_BUFFER: nat := 128 * 1024
  const MAX_LINE_LENGTH: nat := 4 * 1024

  /** A buffer and how much of it is in use. */
  class Data {
    var buf: array<byte>
    var len: nat

    ghost predicate Valid()
      reads this
    {
      len <= buf.Length && CHUNK_BUFFER <= buf.Length
    }

    ghost function Text(): seq<byte>
      requires Valid()
      reads this, buf
    {
      buf[..len]
    }

    constructor ()
      ensures Valid() && len == CHUNK_BUFFER && fresh(buf)
    {
      buf, len := new byte[CHUNK_BUFFER], CHUNK_BUFFER;
    }

    /** Overwrites part of the buffer. */
    method Copy(at: nat, t: seq<byte>)
      requires at + |t| <= buf.Length
      modifies buf
      ensures buf[at..at + |t|] == t && buf[..at] == old(buf[..at])
    {
      forall i | 0 <= i < |t| { buf[at + i] := t[i]; }
    }

    /** Appends, moving to a larger buffer when this one is full. */
    method Append(t: seq<byte>)
      requires Valid()
      modifies this, buf
      ensures Valid() && Text() == old(Text()) + t
      ensures buf == old(buf) || fresh(buf)
    {
      if len + |t| > buf.Length {
        var larger := new byte[len + |t|];
        forall i | 0 <= i < len { larger[i] := buf[i]; }
        assert larger[..len] == buf[..len];
        buf := larger;
      }
      Copy(len, t);
      assert buf[..len + |t|] == buf[..len] + buf[len..len + |t|];
      len := len + |t|;
    }
  }

  /** What one turn of the loop sends: some lines, or a huge line before the lines that preceded it. */
  datatype Group = Whole(lines: seq<byte>) | Swapped(head: seq<byte>, huge: seq<byte>)

  function SendOrder(g: Group): seq<seq<byte>> {
    match g
    case Whole(t) => [t]
    case Swapped(h, u) => [u, h]
  }

  function Original(g: Group): seq<byte> {
    match g
    case Whole(t) => t
    case Swapped(h, u) => h + u
  }

  /** Whole lines that fit the buffer, or fewer of them and one line that does not fit it behind them. */
  predicate Proper(g: Group) {
    match g
    case Whole(t) => WholeLines(t) && |t| <= CHUNK_BUFFER && EndsInTime(t)
    case Swapped(h, u) =>
      && WholeLines(h) && |h| < CHUNK_BUFFER - MAX_LINE_LENGTH
      && OneLine(u) && |h| + |u| > CHUNK_BUFFER
  }

  /** The last line begins within what one read returns: no line was read that had not begun there. */
  predicate EndsInTime(t: seq<byte>) {
    t != [] ==> PastLast(t[..|t| - 1]) < CHUNK_BUFFER - MAX_LINE_LENGTH
  }

  lemma CompletedInTime(t: seq<byte>, endl: seq<byte>)
    requires t != [] && t[|t| - 1] != LF && |t| <= CHUNK_BUFFER - MAX_LINE_LENGTH && OneLine(endl)
    ensures EndsInTime(t + endl)
  {
    var s := (t + endl)[..|t + endl| - 1];
    var r := PastLast(s);
    assert s == t + endl[..|endl| - 1];
    assert forall i | |t| - 1 <= i < |s| :: s[i] != LF;
  }

  function SentBy(gs: seq<Group>): seq<seq<byte>> {
    if gs == [] then [] else SentBy(gs[..|gs| - 1]) + SendOrder(gs[|gs| - 1])
  }

  /** What was sent with every huge line put back after the lines that preceded it. */
  function Unswapped(gs: seq<Group>): seq<byte> {
    if gs == [] then [] else Unswapped(gs[..|gs| - 1]) + Original(gs[|gs| - 1])
  }

  predicate AllProper(gs: seq<Group>) {
    forall i | 0 <= i < |gs| :: Proper(gs[i])
  }

  function LinesOf(blocks: seq<seq<byte>>): seq<seq<byte>> {
    if blocks == [] then [] else LinesOf(blocks[..|blocks| - 1]) + Lines(blocks[|blocks| - 1])
  }

  lemma LinesOfSnoc(blocks: seq<seq<byte>>, b: seq<byte>)
    ensures LinesOf(blocks + [b]) == LinesOf(blocks) + Lines(b)
  {
    assert (blocks + [b])[..|blocks|] == blocks;
  }

  lemma SameLinesStep(blocks: seq<seq<byte>>, g: Group)
    requires Proper(g)
    ensures multiset(LinesOf(blocks + SendOrder(g))) == multiset(LinesOf(blocks)) + multiset(Lines(Original(g)))
  {
    match g
    case Whole(u) =>
      LinesOfSnoc(blocks, u);
    case Swapped(h, u) =>
      LinesConcat(h, u);
      LinesOfSnoc(blocks, u);
      LinesOfSnoc(blocks + [u], h);
      assert blocks + [u, h] == blocks + [u] + [h];
  }

  lemma SameLinesMore(blocks: seq<seq<byte>>, text: seq<byte>, g: Group)
    requires Proper(g) && WholeLines(text) && multiset(LinesOf(blocks)) == multiset(Lines(text))
    ensures WholeLines(text + Original(g))
    ensures multiset(LinesOf(blocks + SendOrder(g))) == multiset(Lines(text + Original(g)))
  {
    WholeLinesConcat(text, Original(g));
    LinesConcat(text, Original(g));
    SameLinesStep(blocks, g);
  }

  /**
   * The lines of the blocks are those of the text, give or take their order: none is lost, repeated,
   * cut or altered.
   */
  lemma {:induction false} SameLines(gs: seq<Group>)
    requires AllProper(gs)
    ensures WholeLines(Unswapped(gs))
    ensures multiset(LinesOf(SentBy(gs))) == multiset(Lines(Unswapped(gs)))
  {
    if gs != [] {
      var init, g := gs[..|gs| - 1], gs[|gs| - 1];
      SameLines(init);
      SameLinesMore(SentBy(init), Unswapped(init), g);
    }
  }

  lemma WholeLinesConcat(s: seq<byte>, t: seq<byte>)
    requires WholeLines(s) && WholeLines(t)
    ensures WholeLines(s + t)
  {
  }

  function Concat(blocks: seq<seq<byte>>): seq<byte> {
    if blocks == [] then [] else Concat(blocks[..|blocks| - 1]) + blocks[|blocks| - 1]
  }

  predicate ShortLines(t: seq<byte>) {
    forall l | l in Lines(t) :: |l| <= MAX_LINE_LENGTH
  }

  /** A block goes ahead exactly when it would not fit with the lines before it, and is then a long line. */
  lemma SwappedIff(g: Group)
    requires Proper(g)
    ensures g.Swapped? <==> |Original(g)| > CHUNK_BUFFER
    ensures g.Whole? <==> SendOrder(g) == [Original(g)]
    ensures ShortLines(Original(g)) ==> g.Whole?
  {
    if g.Swapped? {
      OneLineIs(g.huge);
      LinesConcat(g.head, g.huge);
      assert g.huge in Lines(Original(g));
    }
  }

  /** If no line is longer than expected, everything is sent in the order of the text. */
  lemma {:induction false} ShortInOrder(gs: seq<Group>)
    requires AllProper(gs) && ShortLines(Unswapped(gs))
    ensures Concat(SentBy(gs)) == Unswapped(gs)
  {
    if gs != [] {
      var init, g := gs[..|gs| - 1], gs[|gs| - 1];
      SameLines(init);
      LinesConcat(Unswapped(init), Original(g));
      LinesOfBoth(Lines(Unswapped(init)), Lines(Original(g)));
      ShortInOrder(init);
      SwappedIff(g);
      assert (SentBy(init) + [Original(g)])[..|SentBy(init)|] == SentBy(init);
    }
  }

  lemma LinesOfBoth(ls: seq<seq<byte>>, ks: seq<seq<byte>>)
    requires forall l | l in ls + ks :: |l| <= MAX_LINE_LENGTH
    ensures (forall l | l in ls :: |l| <= MAX_LINE_LENGTH) && forall l | l in ks :: |l| <= MAX_LINE_LENGTH
  {
    forall l | l in ls ensures |l| <= MAX_LINE_LENGTH { assert l in ls + ks; }
    forall l | l in ks ensures |l| <= MAX_LINE_LENGTH { assert l in ls + ks; }
  }

  lemma {:induction false} SentWhole(gs: seq<Group>)
    requires AllProper(gs)
    ensures forall b | b in SentBy(gs) :: WholeLines(b)
  {
    if gs != [] { SentWhole(gs[..|gs| - 1]); }
  }

  /** The line under way, without room for its end. */
  lemma HugeIsProper(t: seq<byte>, m: nat, endl: seq<byte>)
    requires m == PastLast(t) && |t| <= CHUNK_BUFFER - MAX_LINE_LENGTH && t != [] && t[|t| - 1] != LF
    requires OneLine(endl) && |t| + |endl| > CHUNK_BUFFER
    ensures Proper(Swapped(t[..m], t[m..] + endl))
  {
    OneLineConcat(t[m..], endl);
  }

  lemma Rejoin(t: seq<byte>, m: nat, e: seq<byte>)
    requires m <= |t|
    ensures t[..m] + (t[m..] + e) == t + e
  {
    assert t == t[..m] + t[m..];
  }

  lemma OneLineConcat(s: seq<byte>, endl: seq<byte>)
    requires LF !in s && OneLine(endl)
    ensures OneLine(s + endl)
  {
    assert (s + endl)[..|s + endl| - 1] == s + endl[..|endl| - 1];
  }

  datatype Status = More | Ended | ReadError | Unterminated

  /** From position n, reading went on to the end of the line there, and no further. */
  predicate LineEnds(rest: seq<byte>, n: nat, used: nat) {
    && 1 <= n <= used <= |rest| && rest[used - 1] == LF
    && LF !in rest[n - 1..used - 1]
  }

  /** The rest of the line that is under way at position n. */
  method RestOfLine(rest: seq<byte>, n: nat) returns (endl: Option<seq<byte>>)
    requires 1 <= n <= |rest| && rest[n - 1] != LF
    ensures endl.None? ==> rest[|rest| - 1] != LF
    ensures endl.Some? ==> OneLine(endl.value) && LineEnds(rest, n, n + |endl.value|)
    ensures endl.Some? ==> rest[..n] + endl.value == rest[..n + |endl.value|]
  {
    endl := NextLine(rest[n..]);
    if endl.None? {
      assert n < |rest| ==> rest[|rest| - 1] in rest[n..];
    } else {
      var used := n + |endl.value|;
      assert rest[n..used] == endl.value;
      assert rest[n - 1..used - 1] == [rest[n - 1]] + endl.value[..|endl.value| - 1];
    }
  }

  class Chunker {
    var pool: set<Data>
    var channel: seq<Data>
    // received and not given back yet
    var held: set<Data>
    var numLines: nat
    // what was sent so far, and how much of it was received
    ghost var sent: seq<seq<byte>>
    ghost var received: nat
    // as which of them a block was sent last
    ghost var place: map<Data, nat>
    ghost var all: set<Data>
    // those that are not in use by the reader
    ghost var shared: set<Data>
    ghost var Repr: set<object>

    /**
     * The channel holds the blocks sent and not received yet, in order, and those not given back are
     * different ones of the blocks received. All of them hold what was sent.
     */
    ghost predicate Valid()
      reads this, Repr
    {
      && Separate() && received + |channel| == |sent|
      && (forall i | 0 <= i < |channel| :: Intact(channel[i]) && place[channel[i]] == received + i)
      && (forall d | d in held :: Intact(d) && place[d] < received)
      && forall d, e | d in held && e in held && d != e :: place[d] != place[e]
    }

    /** The block still holds what was sent in it. */
    ghost predicate Intact(d: Data)
      requires Separate() && d in all
      reads this, Repr
    {
      d in place && place[d] < |sent| && d.Text() == sent[place[d]]
    }

    /** No two buffers share memory, and each has one place. */
    ghost predicate Separate()
      reads this, Repr
    {
      && this !in Repr
      && (forall d | d in all :: d in Repr && d.buf in Repr && d.Valid())
      && (forall d, e | d in all && e in all && d != e :: d.buf != e.buf)
      && pool <= shared <= all && held <= shared && held !! pool
      && (forall i | 0 <= i < |channel| :: channel[i] in shared && channel[i] !in pool)
      && (forall d | d in pool :: d.len == CHUNK_BUFFER)
    }

    /** In use by the reader alone. */
    ghost predicate Owned(d: Data)
      reads this
    {
      d in all && d !in shared
    }

    constructor ()
      ensures Valid() && sent == [] && numLines == 0 && fresh(Repr)
    {
      pool, channel, numLines := {}, [], 0;
      sent, received, held, place, all, shared, Repr := [], 0, {}, map[], {}, {}, {};
    }

    // -------------------------------------------------------------- the other side

    /** The next block is what was sent next. */
    method Take() returns (d: Data)
      requires Valid() && channel != []
      modifies this`channel, this`received, this`held
      ensures Valid() && received == old(received) + 1
      ensures d == old(channel[0]) && d.Text() == sent[old(received)]
      ensures held == old(held) + {d} && place[d] == old(received)
    {
      d := channel[0];
      received, held, channel := received + 1, held + {d}, channel[1..];
      assert Separate();
    }

    /** Gives a block back for use as a buffer. */
    method FreeMem(d: Data)
      requires Valid() && d in held
      modifies this`pool, this`held, d`len
      ensures Valid() && held == old(held) - {d} && pool == old(pool) + {d} && d.len == CHUNK_BUFFER
    {
      d.len := CHUNK_BUFFER;
      pool := pool + {d};
      held := held - {d};
    }

    /** The filters take and give back any blocks, in any order, while the reader is at work. */
    method Interfere()
      requires Valid()
      modifies this`pool, this`channel, this`received, this`held, shared`len
      ensures Valid()
    {
      var k: nat :| 0 <= k;
      for i := 0 to k
        invariant Valid()
      {
        if {
          case held != {} =>
            var d :| d in held;
            FreeMem(d);
          case channel != [] =>
            var d := Take();
          case true =>
        }
      }
    }

    // -------------------------------------------------------------- the reader

    method Get() returns (d: Data)
      requires Valid()
      modifies this`pool, this`channel, this`received, this`held, this`all, this`shared, this`Repr, shared`len
      ensures Valid() && Owned(d) && d.len == CHUNK_BUFFER
      ensures shared <= old(shared) && old(all) <= all && (d in old(shared) || d !in old(all))
      ensures fresh(Repr - old(Repr))
    {
      Interfere();
      d := Draw();
    }

    method Draw() returns (d: Data)
      requires Valid()
      modifies this`pool, this`all, this`shared, this`Repr
      ensures Valid() && Owned(d) && d.len == CHUNK_BUFFER
      ensures shared <= old(shared) && old(all) <= all && (d in old(shared) || d !in old(all))
      ensures fresh(Repr - old(Repr))
    {
      if {
        case pool != {} =>
          d := Reuse();
        case true =>
          d := new Data();
          all, Repr := all + {d}, Repr + {d, d.buf};
      }
    }

    method Reuse() returns (d: Data)
      requires Valid() && pool != {}
      modifies this`pool, this`shared
      ensures Valid() && Owned(d) && d.len == CHUNK_BUFFER && d in old(pool)
      ensures shared <= old(shared)
    {
      d :| d in pool;
      pool, shared := pool - {d}, shared - {d};
    }

    method Send(d: Data)
      requires Valid() && Owned(d)
      modifies this`pool, this`channel, this`received, this`held, shared`len
      modifies this`numLines, this`sent, this`place, this`shared
      ensures Valid() && shared == old(shared) + {d}
      ensures sent == old(sent) + [old(d.Text())] && numLines == old(numLines) + Newlines(old(d.Text()))
    {
      Interfere();
      Queue(d);
    }

    /** Counts the lines of a block and puts it into the channel. */
    method Queue(d: Data)
      requires Valid() && Owned(d)
      modifies this`channel, this`numLines, this`sent, this`place, this`shared
      ensures Valid() && shared == old(shared) + {d}
      ensures sent == old(sent) + [d.Text()] && numLines == old(numLines) + Newlines(d.Text())
    {
      numLines := numLines + Newlines(d.buf[..d.len]);
      Push(d);
    }

    method Push(d: Data)
      requires Valid() && Owned(d)
      modifies this`channel, this`sent, this`place, this`shared
      ensures Valid() && shared == old(shared) + {d} && sent == old(sent) + [d.Text()]
    {
      channel := channel + [d];
      sent, place, shared := sent + [d.Text()], place[d := |sent|], shared + {d};
    }

    /** Writes into a block the reader owns. */
    method Write(d: Data, at: nat, t: seq<byte>)
      requires Valid() && Owned(d) && at + |t| <= d.buf.Length
      modifies d.buf
      ensures Valid() && d.buf[..at + |t|] == old(d.buf[..at]) + t
    {
      d.Copy(at, t);
      assert d.buf[..at + |t|] == d.buf[..at] + d.buf[at..at + |t|];
    }

    /** Sends the first n bytes of a block. */
    method SendFirst(d: Data, n: nat)
      requires Valid() && Owned(d) && n <= d.buf.Length
      modifies this`pool, this`channel, this`received, this`held, shared`len
      modifies this`numLines, this`sent, this`place, this`shared, d`len
      ensures Valid() && shared == old(shared) + {d}
      ensures sent == old(sent) + [old(d.buf[..n])] && numLines == old(numLines) + Newlines(old(d.buf[..n]))
    {
      d.len := n;
      Send(d);
    }

    /** Makes an owned block hold one text followed by another, whatever their length. */
    method Fill(d: Data, s: seq<byte>, t: seq<byte>)
      requires Valid() && Owned(d)
      modifies d, d.buf, this`Repr
      ensures Valid() && d.Text() == s + t
      ensures fresh(Repr - old(Repr))
    {
      d.len := 0;
      AppendTo(d, s);
      AppendTo(d, t);
      assert [] + s + t == s + t;
    }

    method AppendTo(d: Data, t: seq<byte>)
      requires Valid() && Owned(d)
      modifies d, d.buf, this`Repr
      ensures Valid() && Owned(d) && d.Text() == old(d.Text()) + t
      ensures d.buf == old(d.buf) || fresh(d.buf)
      ensures fresh(Repr - old(Repr))
    {
      d.Append(t);
      Repr := Repr + {d.buf};
    }

    /** Sends a line that does not fit the buffer in a block of its own. */
    method SendHuge(d: Data, s: seq<byte>, t: seq<byte>)
      requires Valid() && Owned(d)
      modifies this, Repr - {d, d.buf}
      ensures Valid() && Owned(d) && fresh(Repr - old(Repr))
      ensures sent == old(sent) + [s + t] && numLines == old(numLines) + Newlines(s + t)
    {
      var d2 := Get();
      Fill(d2, s, t);
      Send(d2);
    }

    /**
     * One turn of the loop: reads some bytes, completes the last line, sends. A read may fail at any
     * time, at the end of the stream too; then, and when the last line lacks its newline, the bytes
     * read in this turn are not sent.
     */
    method NextBlock(stream: seq<byte>, pos: nat) returns (status: Status, end: nat, ghost g: Group)
      requires Valid() && pos <= |stream|
      modifies this, Repr
      ensures Valid() && fresh(Repr - old(Repr))
      ensures status == More ==> pos < end <= |stream| && Original(g) == stream[pos..end] && Proper(g)
      ensures status == Ended ==> pos == end == |stream| && g == Whole([])
      ensures status in {More, Ended} ==> Delivered(old(sent), old(numLines), g)
      ensures status in {ReadError, Unterminated} ==> end == pos && sent == old(sent) && numLines == old(numLines)
      ensures status == Unterminated ==> pos < |stream| && stream[|stream| - 1] != LF
    {
      status, end, g := ReadError, pos, Whole([]);
      var d := Begin();
      var failed: bool := *;
      if failed {
        return;
      }
      if pos == |stream| {
        SendEmpty(d);
        status := Ended;
      } else {
        var used;
        status, used, g := SendLines(d, stream[pos..]);
        if status == More {
          end := pos + used;
          assert stream[pos..][..used] == stream[pos..end];
        }
      }
    }

    /** A buffer for this turn. */
    method Begin() returns (d: Data)
      requires Valid()
      modifies this, Repr
      ensures Valid() && Owned(d) && fresh(Repr - old(Repr))
      ensures sent == old(sent) && numLines == old(numLines)
    {
      d := Get();
    }

    /** The stream is at its end. */
    method SendEmpty(d: Data)
      requires Valid() && Owned(d)
      modifies this, Repr
      ensures Valid() && Repr == old(Repr) && Delivered(old(sent), old(numLines), Whole([]))
    {
      assert d.buf[..0] == [];
      SendFirst(d, 0);
    }

    method SendLines(d: Data, rest: seq<byte>) returns (status: Status, used: nat, ghost g: Group)
      requires Valid() && Owned(d) && rest != []
      modifies this, Repr
      ensures Valid() && fresh(Repr - old(Repr)) && status != Ended
      ensures status == More ==> 0 < used <= |rest| && Original(g) == rest[..used] && Proper(g)
      ensures status == More ==> Delivered(old(sent), old(numLines), g)
      ensures status != More ==> sent == old(sent) && numLines == old(numLines)
      ensures status == Unterminated ==> rest[|rest| - 1] != LF
    {
      var n := Read(d, rest);
      status, used, n, g := EndLine(d, n, rest);
      if status == More {
        SendRest(d, n, g, old(sent), old(numLines));
      }
    }

    /** Reads up to the end of the line if that is not where reading stopped. */
    method EndLine(d: Data, n: nat, rest: seq<byte>) returns (status: Status, used: nat, m: nat, ghost g: Group)
      requires Valid() && Owned(d) && 1 <= n <= CHUNK_BUFFER - MAX_LINE_LENGTH && n <= |rest| && d.buf[..n] == rest[..n]
      modifies this, Repr
      ensures Valid() && Owned(d) && fresh(Repr - old(Repr)) && status != Ended
      ensures status == More ==> 0 < used <= |rest| && Original(g) == rest[..used] && Proper(g)
      ensures status == More ==> m <= d.buf.Length && Remaining(g, d.buf[..m], old(sent), old(numLines))
      ensures status == More ==> LineEnds(rest, n, used)
      ensures status != More ==> sent == old(sent) && numLines == old(numLines)
      ensures status == Unterminated ==> rest[|rest| - 1] != LF
    {
      status, used, m, g := More, n, n, Whole(rest[..n]);
      if d.buf[n - 1] != LF {
        var failed: bool := *;
        if failed {
          status := ReadError;
          return;
        }
        var endl := RestOfLine(rest, n);
        if endl.None? {
          status := Unterminated;
          return;
        }
        used := n + |endl.value|;
        m, g := Complete(d, n, endl.value, rest[..n]);
      }
    }

    /** Reads at least one byte, leaving room for completing the last line. */
    method Read(d: Data, rest: seq<byte>) returns (n: nat)
      requires Valid() && Owned(d) && rest != []
      modifies d.buf
      ensures Valid() && 1 <= n <= CHUNK_BUFFER - MAX_LINE_LENGTH && n <= |rest| && d.buf[..n] == rest[..n]
    {
      n :| 1 <= n <= CHUNK_BUFFER - MAX_LINE_LENGTH && n <= |rest|;
      Write(d, 0, rest[..n]);
    }

    /** Completes the last line in place, or sends it ahead when there is no room. */
    method Complete(d: Data, n: nat, endl: seq<byte>, ghost t: seq<byte>) returns (m: nat, ghost g: Group)
      requires Valid() && Owned(d) && n <= CHUNK_BUFFER - MAX_LINE_LENGTH && d.buf[..n] == t && OneLine(endl)
      requires t != [] && t[|t| - 1] != LF
      modifies this, Repr
      ensures Valid() && Owned(d) && fresh(Repr - old(Repr))
      ensures Original(g) == t + endl && Proper(g)
      ensures m <= d.buf.Length && Remaining(g, d.buf[..m], old(sent), old(numLines))
    {
      if n + |endl| > CHUNK_BUFFER {
        m := PastLast(d.buf[..n]);
        HugeIsProper(t, m, endl);
        Rejoin(t, m, endl);
        g := Swapped(t[..m], t[m..] + endl);
        SendHuge(d, d.buf[m..n], endl);
      } else {
        Write(d, n, endl);
        m := n + |endl|;
        CompletedInTime(t, endl);
        g := Whole(t + endl);
      }
    }

    /** All of the group but the block with these bytes was sent. */
    ghost predicate Remaining(g: Group, rest: seq<byte>, before: seq<seq<byte>>, lines: nat)
      reads this
    {
      match g
      case Whole(t) => rest == t && sent == before && numLines == lines
      case Swapped(h, u) => rest == h && sent == before + [u] && numLines == lines + Newlines(u)
    }

    method SendRest(d: Data, n: nat, ghost g: Group, ghost before: seq<seq<byte>>, ghost lines: nat)
      requires Valid() && Owned(d) && n <= d.buf.Length && Remaining(g, d.buf[..n], before, lines)
      modifies this`pool, this`channel, this`received, this`held, shared`len
      modifies this`numLines, this`sent, this`place, this`shared, d`len
      ensures Valid() && Delivered(before, lines, g)
    {
      SendFirst(d, n);
      if g.Swapped? {
        NewlinesConcat(g.head, g.huge);
      }
    }

    /** The blocks of the group were sent, and their lines counted. */
    ghost predicate Delivered(before: seq<seq<byte>>, lines: nat, g: Group)
      reads this
    {
      sent == before + SendOrder(g) && numLines == lines + Newlines(Original(g))
    }

    /**
     * The loop over a whole stream, stopped at any time. What was sent is a prefix of the stream that
     * ends with a line, give or take the swaps. If neither a stop nor a read error
     * cuts it short, the prefix is the whole stream exactly when the stream ends with a newline.
     */
    method Run(stream: seq<byte>) returns (status: Status, end: nat, ghost gs: seq<Group>)
      requires Valid()
      modifies this, Repr
      ensures Valid() && fresh(Repr - old(Repr))
      ensures end <= |stream| && AllProper(gs) && Unswapped(gs) == stream[..end]
      ensures sent == old(sent) + SentBy(gs)
      ensures numLines == old(numLines) + Newlines(stream[..end])
      ensures forall b | b in SentBy(gs) :: WholeLines(b)
      ensures multiset(LinesOf(SentBy(gs))) == multiset(Lines(stream[..end]))
      ensures ShortLines(stream[..end]) ==> Concat(SentBy(gs)) == stream[..end]
      ensures status == Ended ==> end == |stream|
      ensures status in {Ended, Unterminated} ==> (status == Ended <==> WholeLines(stream))
    {
      status, end, gs := Loop(stream);
      if ShortLines(stream[..end]) { ShortInOrder(gs); }
      SameLines(gs);
      SentWhole(gs);
    }

    method Loop(stream: seq<byte>) returns (status: Status, end: nat, ghost gs: seq<Group>)
      requires Valid()
      modifies this, Repr
      ensures Valid() && fresh(Repr - old(Repr))
      ensures Covers(stream, end, gs) && Reported(old(sent), old(numLines), gs)
      ensures status == Ended ==> end == |stream|
      ensures status == Unterminated ==> !WholeLines(stream)
    {
      status, end, gs := More, 0, [];
      var stopping: bool := *;
      while !stopping
        invariant Valid() && status == More
        invariant Covers(stream, end, gs) && Reported(old(sent), old(numLines), gs)
        invariant fresh(Repr - old(Repr))
        decreases |stream| - end
      {
        status, end, gs := Turn(stream, end, gs, old(sent), old(numLines));
        if status != More {
          break;
        }
        stopping := *;
      }
    }

    ghost predicate Reported(before: seq<seq<byte>>, lines: nat, gs: seq<Group>)
      reads this
    {
      sent == before + SentBy(gs) && numLines == lines + Newlines(Unswapped(gs))
    }

    method Turn(stream: seq<byte>, pos: nat, ghost gs: seq<Group>, ghost before: seq<seq<byte>>, ghost lines: nat)
        returns (status: Status, end: nat, ghost hs: seq<Group>)
      requires Valid() && Covers(stream, pos, gs) && Reported(before, lines, gs)
      modifies this, Repr
      ensures Valid() && fresh(Repr - old(Repr))
      ensures Covers(stream, end, hs) && Reported(before, lines, hs)
      ensures status == More ==> pos < end
      ensures status == Ended ==> end == |stream|
      ensures status == Unterminated ==> !WholeLines(stream)
    {
      ghost var g;
      status, end, g := NextBlock(stream, pos);
      hs := gs;
      if status in {More, Ended} {
        Extended(stream, pos, end, gs, g, before);
        hs := gs + [g];
      }
    }
  }

  ghost predicate Covers(stream: seq<byte>, end: nat, gs: seq<Group>) {
    end <= |stream| && AllProper(gs) && Unswapped(gs) == stream[..end]
  }

  lemma Extended(stream: seq<byte>, pos: nat, end: nat, gs: seq<Group>, g: Group, before: seq<seq<byte>>)
    requires Covers(stream, pos, gs) && pos <= end <= |stream| && Original(g) == stream[pos..end] && Proper(g)
    ensures Covers(stream, end, gs + [g])
    ensures before + SentBy(gs + [g]) == before + SentBy(gs) + SendOrder(g)
    ensures Newlines(Unswapped(gs + [g])) == Newlines(Unswapped(gs)) + Newlines(Original(g))
  {
    assert (gs + [g])[..|gs|] == gs;
    assert stream[..end] == stream[..pos] + stream[pos..end];
    NewlinesConcat(stream[..pos], stream[pos..end]);
  }
}
