/** Writing lines to files that are rotated by time and size, and uploaded when complete. */
module FileWriters {
  import opened Bytes
  import opened LineText
  import opened Splits

  /** The lines of all files, in order. */
  function Flat(chunks: seq<seq<Text>>): seq<Text> {
    if chunks == [] then [] else Flat(chunks[..|chunks| - 1]) + chunks[|chunks| - 1]
  }

  lemma FlatSnoc(chunks: seq<seq<Text>>, c: seq<Text>)
    ensures Flat(chunks + [c]) == Flat(chunks) + c
  {
    assert (chunks + [c])[..|chunks|] == chunks;
  }

  type Path = string

  /** What was written to a file, which is all there only when it was closed. */
  datatype File = File(content: Text, closed: bool)

  /** The uploaded files are there, complete, and each holds its lines. */
  ghost predicate Stored(files: map<Path, File>, uploads: seq<Path>, done: seq<seq<Text>>) {
    && |uploads| == |done|
    && (forall i | 0 <= i < |uploads| :: uploads[i] in files && files[uploads[i]] == File(Render(done[i]), true))
    && forall i, j | 0 <= i < j < |uploads| :: uploads[i] != uploads[j]
  }

  ghost predicate NoneEmpty(done: seq<seq<Text>>) {
    forall i | 0 <= i < |done| :: done[i] != []
  }

  lemma StoredPut(files: map<Path, File>, uploads: seq<Path>, done: seq<seq<Text>>, p: Path, f: File)
    requires Stored(files, uploads, done) && p !in uploads
    ensures Stored(files[p := f], uploads, done)
  {
  }

  lemma StoredMore(files: map<Path, File>, uploads: seq<Path>, done: seq<seq<Text>>, p: Path, lines: seq<Text>)
    requires Stored(files, uploads, done) && p !in uploads
    requires p in files && files[p] == File(Render(lines), true)
    ensures Stored(files, uploads + [p], done + [lines])
  {
  }

  ghost function ContentsOf(files: map<Path, File>, uploads: seq<Path>): Text
    requires forall i | 0 <= i < |uploads| :: uploads[i] in files
  {
    if uploads == [] then [] else
      ContentsOf(files, uploads[..|uploads| - 1]) + files[uploads[|uploads| - 1]].content
  }

  /** The uploaded files, one after the other, are the bytes of the lines. */
  lemma {:induction false} UploadedText(files: map<Path, File>, uploads: seq<Path>, done: seq<seq<Text>>)
    requires Stored(files, uploads, done)
    ensures ContentsOf(files, uploads) == Render(Flat(done))
  {
    if uploads != [] {
      var init, d := uploads[..|uploads| - 1], done[..|done| - 1];
      UploadedText(files, init, d);
      RenderConcat(Flat(d), done[|done| - 1]);
    }
  }

  class Worker {
    const rotateSize: nat
    const discardEmpty: bool
    var files: map<Path, File>
    var curPath: Path
    var bytesWritten: nat
    var writtenOnce: bool
    var rotateIdx: nat
    var uploads: seq<Path>
    // the lines of each complete file, and those of the current one
    ghost var done: seq<seq<Text>>
    ghost var lines: seq<Text>

    /** Between two events. */
    ghost predicate Valid()
      reads this
    {
      Running() && (rotateSize != 0 ==> bytesWritten <= rotateSize)
    }

    ghost predicate Running()
      reads this
    {
      && Stored(files, uploads, done) && (discardEmpty ==> NoneEmpty(done))
      && files.Keys == (set p | p in uploads) + {curPath} && curPath !in uploads
      && files[curPath] == File(Render(lines), false)
      && (writtenOnce <==> lines != []) && |uploads| == rotateIdx
    }

    ghost function Received(): seq<Text>
      reads this
    {
      Flat(done) + lines
    }

    constructor (rotateSize: nat, discardEmpty: bool, path: Path)
      ensures this.rotateSize == rotateSize && this.discardEmpty == discardEmpty
      ensures Valid() && Received() == []
    {
      this.rotateSize, this.discardEmpty := rotateSize, discardEmpty;
      rotateIdx, curPath, uploads, done, lines := 0, path, [], [], [];
      files, writtenOnce, bytesWritten := map[path := File([], false)], false, 0;
    }

    method NewFile(p: Path)
      modifies this`files, this`writtenOnce, this`bytesWritten
      ensures files == old(files)[p := File([], false)] && !writtenOnce && bytesWritten == 0
    {
      files := files[p := File([], false)];
      writtenOnce, bytesWritten := false, 0;
    }

    method CloseFile()
      requires curPath in files
      modifies this`files
      ensures files == old(files)[curPath := old(files[curPath]).(closed := true)]
    {
      files := files[curPath := files[curPath].(closed := true)];
    }

    /** The current file was uploaded, and a new one is open. */
    twostate predicate Replaced(newPath: Path, text: seq<Text>)
      reads this
    {
      && uploads == old(uploads) + [old(curPath)] && done == old(done) + [text]
      && curPath == newPath && lines == [] && bytesWritten == 0
    }

    /** Everything is as it was. */
    twostate predicate Untouched()
      reads this
    {
      && files == old(files) && curPath == old(curPath) && bytesWritten == old(bytesWritten)
      && uploads == old(uploads) && done == old(done) && lines == old(lines)
    }

    /** Closes, uploads and replaces the current file, unless it is empty and empty files are discarded. */
    method Rotate(newPath: Path)
      requires Running() && newPath !in files
      modifies this
      ensures Running() && Received() == old(Received())
      ensures if discardEmpty && old(lines) == [] then Untouched() else Replaced(newPath, old(lines))
    {
      if discardEmpty && !writtenOnce {
        return;
      }
      CloseFile();
      Closed(old(files));
      Upload();
      Next(newPath, old(Received()));
    }

    method Next(newPath: Path, ghost received: seq<Text>)
      requires Complete(received) && |uploads| == rotateIdx + 1 && newPath !in files
      modifies this`files, this`writtenOnce, this`bytesWritten, this`rotateIdx, this`curPath, this`lines
      ensures Running() && Received() == received && bytesWritten == 0 && curPath == newPath && lines == []
    {
      StoredPut(files, uploads, done, newPath, File([], false));
      rotateIdx := rotateIdx + 1;
      NewFile(newPath);
      curPath, lines := newPath, [];
      assert Flat(done) + [] == Flat(done);
    }

    method Upload()
      requires Stored(files, uploads, done) && curPath !in uploads
      requires files.Keys == (set p | p in uploads) + {curPath} && files[curPath] == File(Render(lines), true)
      requires discardEmpty ==> NoneEmpty(done) && lines != []
      modifies this`uploads, this`done
      ensures Complete(old(Received()))
      ensures uploads == old(uploads) + [curPath] && done == old(done) + [lines]
    {
      StoredMore(files, uploads, done, curPath, lines);
      FlatSnoc(done, lines);
      uploads, done := uploads + [curPath], done + [lines];
    }

    lemma Closed(was: map<Path, File>)
      requires Stored(was, uploads, done) && curPath in was && curPath !in uploads
      requires files == was[curPath := was[curPath].(closed := true)]
      ensures Stored(files, uploads, done)
    {
    }

    method OnTick(newPath: Path)
      requires Valid() && newPath !in files
      modifies this
      ensures Valid() && Received() == old(Received())
      ensures if discardEmpty && old(lines) == [] then Untouched() else Replaced(newPath, old(lines))
    {
      Rotate(newPath);
    }

    /** Some of what was written leaves the compressor. */
    method WriteBytes(t: Text)
      requires curPath in files
      modifies this`files, this`bytesWritten
      ensures bytesWritten >= old(bytesWritten)
      ensures files == old(files)[curPath := old(files[curPath]).(content := old(files[curPath]).content + t)]
    {
      files := files[curPath := files[curPath].(content := files[curPath].content + t)];
      var n: nat :| bytesWritten <= n;
      bytesWritten := n;
    }

    /** Writes a line; the file is replaced exactly when its counter is then past a size that is set. */
    method OnLine(line: Text, newPath: Path) returns (ghost count: nat)
      requires Valid() && newPath !in files
      modifies this
      ensures Valid() && Received() == old(Received()) + [line] && count >= old(bytesWritten)
      ensures if rotateSize != 0 && count > rotateSize then Replaced(newPath, old(lines) + [line])
              else uploads == old(uploads) && done == old(done) && curPath == old(curPath)
                   && lines == old(lines) + [line] && bytesWritten == count
    {
      WriteLine(line);
      count := bytesWritten;
      if rotateSize != 0 && bytesWritten > rotateSize {
        Rotate(newPath);
      }
    }

    method WriteLine(line: Text)
      requires Running()
      modifies this`files, this`bytesWritten, this`writtenOnce, this`lines
      ensures Running() && files.Keys == old(files).Keys && Received() == old(Received()) + [line]
      ensures lines == old(lines) + [line] && bytesWritten >= old(bytesWritten)
    {
      WriteBytes(line);
      writtenOnce := true;
      WriteBytes([LF]);
      RenderSnoc(lines, line);
      var f := File(old(files[curPath]).content + line + [LF], false);
      assert files == old(files)[curPath := f];
      StoredPut(old(files), uploads, done, curPath, f);
      assert Flat(done) + (lines + [line]) == Flat(done) + lines + [line];
      lines := lines + [line];
    }

    /** Uploads the last file, or removes it when it is empty and empty files are discarded. */
    method Close()
      requires Valid()
      modifies this
      ensures Complete(old(Received()))
      ensures if discardEmpty && old(lines) == [] then uploads == old(uploads) && files == old(files) - {curPath}
              else uploads == old(uploads) + [old(curPath)] && done == old(done) + [old(lines)]
    {
      CloseFile();
      Closed(old(files));
      if !writtenOnce && discardEmpty {
        files := files - {curPath};
        assert Flat(done) + lines == Flat(done);
      } else {
        Upload();
      }
    }

    /** Every file there is was uploaded once, complete, and together they hold the lines in order. */
    ghost predicate Complete(received: seq<Text>)
      reads this
    {
      && Stored(files, uploads, done) && (discardEmpty ==> NoneEmpty(done))
      && files.Keys == (set p | p in uploads) && Flat(done) == received
    }
  }

  // ---------------------------------------------------------------- one worker per name

  lemma {:induction false} NewPathExists(used: set<Path>) returns (p: Path)
    ensures forall q | q in used :: |q| < |p|
    decreases |used|
  {
    p := "x";
    if used != {} {
      var q :| q in used;
      p := NewPathExists(used - {q});
      if |p| <= |q| { p := q + "x"; }
      assert used == (used - {q}) + {q};
    }
  }

  /** The template gives a path that was not used before. */
  method MakePath(used: set<Path>) returns (p: Path)
    ensures p !in used
  {
    ghost var q := NewPathExists(used);
    assert q !in used;
    p :| p !in used;
  }

  /** A record and the fields the output was given with it. */
  datatype OutputRecord = OutputRecord(fields: seq<Text>, line: Text)

  function NameOf(r: OutputRecord, useField: bool): Text
    requires useField ==> r.fields != []
  {
    if useField then r.fields[0] else []
  }

  predicate Named(input: seq<OutputRecord>, useField: bool) {
    useField ==> forall i | 0 <= i < |input| :: input[i].fields != []
  }

  /** The lines that belong to one name, in order: those with it in their first field, or all under no name. */
  function LinesFor(input: seq<OutputRecord>, useField: bool, name: Text): seq<Text>
    requires Named(input, useField)
  {
    if input == [] then [] else
      var init, r := input[..|input| - 1], input[|input| - 1];
      LinesFor(init, useField, name) + if name == (if useField then r.fields[0] else []) then [r.line] else []
  }

  lemma LinesForSnoc(input: seq<OutputRecord>, i: nat, useField: bool, name: Text)
    requires i < |input| && Named(input, useField)
    ensures LinesFor(input[..i + 1], useField, name)
            == LinesFor(input[..i], useField, name) + if NameOf(input[i], useField) == name then [input[i].line] else []
  {
    assert input[..i + 1][..i] == input[..i];
  }

  class FileWriter {
    const rotateSize: nat
    const discardEmpty: bool
    const useField: bool
    var workers: map<Text, Worker>
    var totaln: nat

    ghost predicate Separate()
      reads this
    {
      forall a, b | a in workers && b in workers && a != b :: workers[a] != workers[b]
    }

    /** Every worker received the lines of its name. */
    ghost predicate Demultiplexed(input: seq<OutputRecord>)
      requires Named(input, useField)
      reads this, workers.Values
    {
      && Separate()
      && (forall a | a in workers :: Holds(workers[a], LinesFor(input, useField, a)))
      && forall a | a !in workers :: LinesFor(input, useField, a) == []
    }

    ghost predicate Holds(w: Worker, lines: seq<Text>)
      reads w
    {
      w.Valid() && w.Received() == lines && Configured(w)
    }

    ghost predicate Configured(w: Worker) {
      w.rotateSize == rotateSize && w.discardEmpty == discardEmpty
    }

    constructor (rotateSize: nat, discardEmpty: bool, useField: bool)
      ensures this.rotateSize == rotateSize && this.discardEmpty == discardEmpty && this.useField == useField
      ensures workers == map[] && totaln == 0
    {
      this.rotateSize, this.discardEmpty, this.useField := rotateSize, discardEmpty, useField;
      workers, totaln := map[], 0;
    }

    /** Some ticks, and then a line. */
    method Serve(w: Worker, line: Text)
      requires w.Valid()
      modifies w
      ensures w.Valid() && w.Received() == old(w.Received()) + [line]
    {
      Ticks(w);
      var path := MakePath(w.files.Keys);
      ghost var count := w.OnLine(line, path);
    }

    method Ticks(w: Worker)
      requires w.Valid()
      modifies w
      ensures w.Valid() && w.Received() == old(w.Received())
    {
      var k: nat :| 0 <= k;
      for i := 0 to k
        invariant w.Valid() && w.Received() == old(w.Received())
      {
        var path := MakePath(w.files.Keys);
        w.OnTick(path);
      }
    }

    /** Some ticks after the last line, and then the end. */
    method Finish(w: Worker)
      requires w.Valid()
      modifies w
      ensures w.Complete(old(w.Received()))
    {
      Ticks(w);
      w.Close();
    }

    /** The worker of a name, which may have to be created; that may fail. */
    method Obtain(wname: Text, ghost input: seq<OutputRecord>) returns (ok: bool)
      requires Named(input, useField) && Demultiplexed(input)
      modifies this`workers
      ensures fresh(workers.Values - old(workers.Values))
      ensures Demultiplexed(input) && (ok ==> wname in workers)
    {
      ok := true;
      if wname !in workers {
        ok := *;
        if ok {
          var path := MakePath({});
          var w := new Worker(rotateSize, discardEmpty, path);
          workers := workers[wname := w];
        }
      }
    }

    method Deliver(input: seq<OutputRecord>, i: nat)
      requires i < |input| && Named(input, useField) && Demultiplexed(input[..i])
      requires NameOf(input[i], useField) in workers
      modifies workers.Values
      ensures Demultiplexed(input[..i + 1])
    {
      var wname := NameOf(input[i], useField);
      Serve(workers[wname], input[i].line);
      forall a ensures LinesFor(input[..i + 1], useField, a)
                       == LinesFor(input[..i], useField, a) + if wname == a then [input[i].line] else [] {
        LinesForSnoc(input, i, useField, a);
      }
    }

    method Handle(input: seq<OutputRecord>, i: nat) returns (ok: bool)
      requires i < |input| && Named(input, useField) && Demultiplexed(input[..i])
      modifies this`workers, this`totaln, workers.Values
      ensures fresh(workers.Values - old(workers.Values))
      ensures Demultiplexed(if ok then input[..i + 1] else input[..i])
      ensures totaln == old(totaln) + if ok then 1 else 0
    {
      ok := Obtain(NameOf(input[i], useField), input[..i]);
      if ok {
        DeliverAndCount(input, i);
      }
    }

    method DeliverAndCount(input: seq<OutputRecord>, i: nat)
      requires i < |input| && Named(input, useField) && Demultiplexed(input[..i])
      requires NameOf(input[i], useField) in workers
      modifies this`totaln, workers.Values
      ensures Demultiplexed(input[..i + 1]) && totaln == old(totaln) + 1
    {
      Deliver(input, i);
      Count(input[..i + 1]);
    }

    method Count(ghost input: seq<OutputRecord>)
      requires Named(input, useField) && Demultiplexed(input)
      modifies this`totaln
      ensures Demultiplexed(input) && totaln == old(totaln) + 1
    {
      totaln := totaln + 1;
    }

    method CloseAll(ghost want: map<Text, seq<Text>>)
      requires Separate() && want.Keys == workers.Keys
      requires forall a | a in workers :: Holds(workers[a], want[a])
      modifies workers.Values
      ensures forall a | a in workers :: workers[a].Complete(want[a])
    {
      var left := workers.Keys;
      while left != {}
        invariant Closing(left, want)
        decreases left
      {
        var a :| a in left;
        CloseOne(a, left, want);
        left := left - {a};
      }
    }

    /** The workers of some names are still open. */
    ghost predicate Closing(left: set<Text>, want: map<Text, seq<Text>>)
      reads this, workers.Values
    {
      && left <= workers.Keys == want.Keys
      && (forall a | a in left :: Holds(workers[a], want[a]))
      && forall a | a in workers && a !in left :: workers[a].Complete(want[a])
    }

    method CloseOne(a: Text, ghost left: set<Text>, ghost want: map<Text, seq<Text>>)
      requires Separate() && Closing(left, want) && a in left
      modifies workers[a]
      ensures Closing(left - {a}, want)
    {
      var w := workers[a];
      Finish(w);
      forall b | b in workers && b != a
        ensures if b in left then Holds(workers[b], want[b]) else workers[b].Complete(want[b])
      {
        assert workers[b] != w;
      }
    }

    /**
     * All records, or those before the first one whose worker could not be created: each name's
     * files, which were all uploaded, hold the lines of the records of that name.
     */
    method Run(input: seq<OutputRecord>) returns (ok: bool, n: nat)
      requires Named(input, useField) && workers == map[] && totaln == 0
      modifies this
      ensures n <= |input| && totaln == n && (ok <==> n == |input|)
      ensures forall a | a in workers ::
                Configured(workers[a]) && workers[a].Complete(LinesFor(input[..n], useField, a))
      ensures forall a | a !in workers :: LinesFor(input[..n], useField, a) == []
    {
      ok, n := Serving(input);
      CloseAll(map a | a in workers :: LinesFor(input[..n], useField, a));
    }

    method Serving(input: seq<OutputRecord>) returns (ok: bool, n: nat)
      requires Named(input, useField) && workers == map[] && totaln == 0
      modifies this
      ensures n <= |input| && totaln == n && (ok <==> n == |input|)
      ensures Demultiplexed(input[..n])
      ensures fresh(workers.Values)
    {
      n, ok := 0, true;
      while ok && n < |input|
        invariant n <= |input| && totaln == n && (!ok ==> n < |input|)
        invariant Demultiplexed(input[..n])
        invariant fresh(workers.Values)
        decreases ok, |input| - n
      {
        ok := Handle(input, n);
        if ok {
          n := n + 1;
        }
      }
    }
  }
}
