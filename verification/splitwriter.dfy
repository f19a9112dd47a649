/** A writer that splits its file into parts, at newlines, when it is closed. */
module SplitWriters {
  import opened Bytes
  import opened LineText
  import opened Splits

  /** The parts, numbered from 1. */
  ghost function Numbered(parts: seq<Text>): (r: map<nat, Text>)
    ensures forall k :: k in r <==> 1 <= k <= |parts|
  {
    if parts == [] then map[] else Numbered(parts[..|parts| - 1])[|parts| := parts[|parts| - 1]]
  }

  lemma {:induction false} NumberedAre(parts: seq<Text>)
    ensures forall k | k in Numbered(parts) :: Numbered(parts)[k] == parts[k - 1]
  {
    if parts != [] { NumberedAre(parts[..|parts| - 1]); }
  }

  lemma NumberedSnoc(parts: seq<Text>, p: Text)
    ensures Numbered(parts + [p]) == Numbered(parts)[|parts| + 1 := p]
  {
    assert (parts + [p])[..|parts|] == parts;
  }

  /** The file a new part comes after: the last part, or the unsplit file. */
  function LastFile(done: seq<Text>): nat {
    if done == [] then 0 else |done| + 1
  }

  /** The files by number: 0 is the unsplit file, 1, 2, ... are its parts. */
  class Disk {
    var files: map<nat, Text>

    /** The finished parts and then the last one, which is the unsplit file when it is the only one. */
    ghost predicate Stores(done: seq<Text>, last: Text)
      reads this
    {
      files == Numbered(done)[LastFile(done) := last]
    }

    ghost predicate Holds(parts: seq<Text>)
      requires parts != []
      reads this
    {
      Stores(parts[..|parts| - 1], parts[|parts| - 1])
    }

    /** A single part is the file itself, more of them are the files numbered from 1. */
    ghost predicate Contains(parts: seq<Text>)
      reads this
    {
      if |parts| == 1 then files == map[0 := parts[0]]
      else forall k: nat :: (k in files <==> 1 <= k <= |parts|) && (k in files ==> files[k] == parts[k - 1])
    }

    lemma HoldsContains(parts: seq<Text>)
      requires parts != [] && Holds(parts)
      ensures Contains(parts)
    {
      NumberedAre(parts[..|parts| - 1]);
      assert |parts| == 1 ==> Numbered(parts[..|parts| - 1]) == map[];
    }

    ghost predicate NoFileLonger(max: nat)
      reads this
    {
      forall k | k in files :: |files[k]| <= max
    }

    lemma FileSizes(parts: seq<Text>, max: nat)
      requires parts != [] && Holds(parts)
      ensures NoFileLonger(max) <==> NoneLonger(parts, max)
    {
      var done, last := parts[..|parts| - 1], parts[|parts| - 1];
      NumberedAre(done);
      if NoneLonger(parts, max) {
        forall k | k in files ensures |files[k]| <= max {
          assert k != LastFile(done) ==> files[k] == parts[k - 1];
        }
      } else {
        var i :| 0 <= i < |parts| && |parts[i]| > max;
        var k := if i < |done| then i + 1 else LastFile(done);
        assert k in files && files[k] == parts[i];
      }
    }

    constructor ()
      ensures files == map[]
    {
      files := map[];
    }

    /** Appends to a file, creating it when it does not exist. */
    method Append(k: nat, t: Text)
      modifies this
      ensures files == old(files)[k := (if k in old(files) then old(files[k]) else []) + t]
    {
      files := files[k := (if k in files then files[k] else []) + t];
    }

    method Truncate(k: nat, size: nat)
      requires k in files && size <= |files[k]|
      modifies this
      ensures files == old(files)[k := old(files[k][..size])]
    {
      files := files[k := files[k][..size]];
    }

    method Remove(k: nat)
      modifies this
      ensures files == old(files) - {k}
    {
      files := files - {k};
    }
  }

  function NextFile(k: nat): nat { k + 1 }

  /** Position of the last newline, -1 if there is none, found by searching from the start. */
  method LastNewline(buf: Text) returns (lastlf: int)
    ensures lastlf + 1 == PastLast(buf)
  {
    var lf := 0;
    lastlf := -1;
    while lf != -1
      invariant -1 <= lastlf < |buf| && WholeLines(buf[..lastlf + 1])
      invariant lf == -1 ==> LF !in buf[lastlf + 1..]
      decreases lf != -1, |buf| - lastlf
    {
      IndexByteIs(buf[lastlf + 1..]);
      lf := IndexByte(buf[lastlf + 1..]);
      if lf != -1 {
        lastlf := lastlf + lf + 1;
      }
    }
    PastLastIs(buf, lastlf + 1);
  }

  /** No newline is past the last one of a block that reaches the part already scanned. */
  lemma BlockScanned(f: Text, cur: nat, end: nat, scanned: nat, max: nat)
    requires cur < scanned <= end <= max < |f| && LF !in f[scanned..max]
    ensures var r := PastLast(f[cur..end]);
            if r == 0 then LF !in f[cur..max] && (cur == 0 ==> CutPoint(f, max) == 0)
            else CutPoint(f, max) == cur + r
  {
    var block := f[cur..end];
    var r := PastLast(block);
    forall k | cur + r <= k < max ensures f[k] != LF {
      if k < end {
        assert f[k] == block[r..][k - cur - r];
      } else {
        assert f[k] == f[scanned..max][k - scanned];
      }
    }
    if r > 0 {
      assert f[cur + r - 1] == block[..r][r - 1];
      assert f[..max][..cur + r][cur + r - 1] == f[cur + r - 1];
    }
    if r > 0 || cur == 0 {
      PastLastIs(f[..max], cur + r);
    }
  }

  lemma GreedyCut(done: seq<Text>, rest: Text, max: nat)
    requires CutPoint(rest, max) > 0
    ensures var off := CutPoint(rest, max);
            done + Greedy(rest, max) == done + [rest[..off]] + Greedy(rest[off..], max)
  {
  }

  class SplitWriter {
    const disk: Disk
    const maxsize: nat
    const bufsize: nat
    var file: nat

    /** Opens the last part, creating the file if there is none. */
    constructor (disk: Disk, maxsize: nat, bufsize: nat, ghost done: seq<Text>, ghost last: Text)
      requires 0 < bufsize <= maxsize
      requires (disk.files == map[] && done == [] && last == []) || disk.Stores(done, last)
      modifies disk
      ensures this.disk == disk && this.maxsize == maxsize && this.bufsize == bufsize
      ensures disk.Stores(done, last) && file == LastFile(done)
    {
      this.disk, this.maxsize, this.bufsize := disk, maxsize, bufsize;
      var k := 0;
      while NextFile(k) in disk.files
        invariant k <= LastFile(done)
        decreases LastFile(done) - k
      {
        k := NextFile(k);
      }
      file := k;
      new;
      assert last + [] == last;
      disk.Append(k, []);
    }

    method Write(p: Text, ghost done: seq<Text>, ghost last: Text)
      requires disk.Stores(done, last) && file == LastFile(done)
      modifies disk
      ensures disk.Stores(done, last + p)
    {
      disk.Append(file, p);
    }

    /** Splits the last part as far as needed and possible. */
    method Close(ghost done: seq<Text>, ghost last: Text)
      requires 0 < bufsize <= maxsize && disk.Stores(done, last) && file == LastFile(done)
      modifies disk
      ensures disk.Holds(done + Greedy(last, maxsize))
    {
      var k := file;
      var cursize := |disk.files[k]|;
      ghost var cut, rest := done, last;
      while true
        invariant disk.Stores(cut, rest) && k == LastFile(cut) && cursize == |rest|
        invariant cut + Greedy(rest, maxsize) == done + Greedy(last, maxsize)
        decreases |rest|
      {
        if cursize <= maxsize {
          break;
        }
        var off := FindSplitPoint(disk.files[k]);
        if off == 0 {
          break;
        }
        GreedyCut(cut, rest, maxsize);
        k := DoSplit(k, off, cut, rest);
        cursize := cursize - off;
        cut, rest := cut + [rest[..off]], rest[off..];
      }
      assert Greedy(rest, maxsize) == [rest];
      assert (cut + [rest])[..|cut|] == cut;
    }

    /** Moves what is past the split point to a new part, and tells which. */
    method DoSplit(k: nat, off: nat, ghost done: seq<Text>, ghost last: Text) returns (next: nat)
      requires disk.Stores(done, last) && k == LastFile(done) && off <= |last|
      modifies disk
      ensures disk.Stores(done + [last[..off]], last[off..]) && next == LastFile(done + [last[..off]])
    {
      NumberedSnoc(done, last[..off]);
      var f := disk.files[k];
      if k == 0 {
        var first := NextFile(k);
        next := NextFile(first);
        disk.Append(first, f[..off]);
        disk.Append(next, f[off..]);
        disk.Remove(k);
        assert [] + f[..off] == f[..off] && [] + f[off..] == f[off..];
      } else {
        next := NextFile(k);
        disk.Append(next, f[off..]);
        disk.Truncate(k, off);
        assert [] + f[off..] == f[off..];
      }
    }

    /** One past the last newline of the first maxsize bytes, read one block at a time from the end. */
    method FindSplitPoint(f: Text) returns (off: nat)
      requires 0 < bufsize <= maxsize < |f|
      ensures off == CutPoint(f, maxsize)
    {
      var cur: int := maxsize - bufsize;
      off := 0;
      ghost var scanned := maxsize;
      while true
        invariant 0 <= cur && cur + bufsize <= maxsize
        invariant cur < scanned <= cur + bufsize
        invariant scanned <= maxsize && LF !in f[scanned..maxsize]
        decreases cur
      {
        var buf := f[cur..cur + bufsize];
        var lastlf := LastNewline(buf);
        BlockScanned(f, cur, cur + bufsize, scanned, maxsize);
        if lastlf != -1 {
          off := cur + lastlf + 1;
          break;
        }
        if cur == 0 {
          break;
        }
        scanned := cur;
        cur := cur - bufsize;
        if cur <= 0 {
          cur := 0;
        }
      }
    }
  }

  /** Refuses a block larger than the parts. */
  method New(disk: Disk, maxsize: nat, bufsize: nat, ghost done: seq<Text>, ghost last: Text)
      returns (w: Option<SplitWriter>)
    requires 0 < bufsize
    requires (disk.files == map[] && done == [] && last == []) || disk.Stores(done, last)
    modifies disk
    ensures w.None? <==> maxsize < bufsize
    ensures w.None? ==> disk.files == old(disk.files)
    ensures w.Some? ==> w.value.disk == disk && w.value.maxsize == maxsize && w.value.bufsize == bufsize
    ensures w.Some? ==> disk.Stores(done, last) && w.value.file == LastFile(done)
  {
    if maxsize < bufsize {
      return None;
    }
    var writer := new SplitWriter(disk, maxsize, bufsize, done, last);
    w := Some(writer);
  }

  /** Opens, writes any number of times, closes. */
  method Session(disk: Disk, maxsize: nat, bufsize: nat, writes: seq<Text>, ghost t: Text)
    requires 0 < bufsize <= maxsize
    requires (disk.files == map[] && t == []) || disk.Holds(Greedy(t, maxsize))
    modifies disk
    ensures disk.Holds(Greedy(t + Concat(writes), maxsize)) && disk.Contains(Greedy(t + Concat(writes), maxsize))
    ensures disk.NoFileLonger(maxsize) <==> NoneLonger(Lines(t + Concat(writes)), maxsize)
  {
    ghost var parts := Greedy(t, maxsize);
    ghost var done, last := parts[..|parts| - 1], parts[|parts| - 1];
    var w := new SplitWriter(disk, maxsize, bufsize, done, last);
    WriteAll(w, writes, done, last);
    w.Close(done, last + Concat(writes));
    GreedyAppend(t, Concat(writes), maxsize);
    PartsFitIff(t + Concat(writes), maxsize);
    disk.FileSizes(Greedy(t + Concat(writes), maxsize), maxsize);
    disk.HoldsContains(Greedy(t + Concat(writes), maxsize));
  }

  method WriteAll(w: SplitWriter, writes: seq<Text>, ghost done: seq<Text>, ghost last: Text)
    requires w.disk.Stores(done, last) && w.file == LastFile(done)
    modifies w.disk
    ensures w.disk.Stores(done, last + Concat(writes))
  {
    ghost var text := last;
    assert last + [] == last;
    for i := 0 to |writes|
      invariant text == last + Concat(writes[..i])
      invariant w.disk.Stores(done, text)
    {
      w.Write(writes[i], done, text);
      ConcatNext(last, writes, i);
      text := text + writes[i];
    }
    assert writes[..|writes|] == writes;
  }

  lemma ConcatNext(last: Text, writes: seq<Text>, i: nat)
    requires i < |writes|
    ensures last + Concat(writes[..i]) + writes[i] == last + Concat(writes[..i + 1])
  {
    ConcatSnoc(writes[..i], writes[i]);
    assert writes[..i + 1] == writes[..i] + [writes[i]];
    assert last + Concat(writes[..i]) + writes[i] == last + (Concat(writes[..i]) + writes[i]);
  }
}
