/** A cold bucket: equally sized cells in one byte array, and the bitmap of the busy ones. */
module ColdBucket {
  import opened Bytes
  import opened Bits
  import opened Bitmap
  import opened Frames
  import opened CacheModel

  const MAX_BYTES: nat := 0x1_0000_0000

  /** The block a cell starting at pos holds. */
  ghost function BlockAt(data: seq<byte>, pos: nat): Block
    requires pos + PREFIX_LEN <= |data|
    requires pos + PREFIX_LEN + PrefixLength(Uint32(data[pos..pos + PREFIX_LEN])) <= |data|
  {
    var p := Uint32(data[pos..pos + PREFIX_LEN]);
    Block(data[pos + PREFIX_LEN..pos + PREFIX_LEN + PrefixLength(p)], PrefixCompressed(p))
  }

  /** The cell starting at pos holds a whole block of at most n bytes. */
  ghost predicate Fits(data: seq<byte>, pos: nat, n: nat)
    requires pos + n <= |data|
  {
    && PREFIX_LEN <= n
    && PREFIX_LEN + PrefixLength(Uint32(data[pos..pos + PREFIX_LEN])) <= n
  }

  lemma BlockWithin(data: seq<byte>, other: seq<byte>, pos: nat, n: nat)
    requires pos + n <= |data| == |other|
    requires data[pos..pos + n] == other[pos..pos + n]
    requires Fits(data, pos, n)
    ensures Fits(other, pos, n) && BlockAt(other, pos) == BlockAt(data, pos)
  {
    assert data[pos..pos + PREFIX_LEN] == data[pos..pos + n][..PREFIX_LEN];
    assert other[pos..pos + PREFIX_LEN] == other[pos..pos + n][..PREFIX_LEN];
    var l := PREFIX_LEN + PrefixLength(Uint32(data[pos..pos + PREFIX_LEN]));
    assert data[pos + PREFIX_LEN..pos + l] == data[pos..pos + n][PREFIX_LEN..l];
    assert other[pos + PREFIX_LEN..pos + l] == other[pos..pos + n][PREFIX_LEN..l];
  }

  lemma FrameIsBlock(data: seq<byte>, pos: nat, b: Block)
    requires pos + b.Length() <= |data| && |b.payload| < TOP_BIT
    requires data[pos..pos + b.Length()] == Frame(b)
    ensures Fits(data, pos, b.Length()) && BlockAt(data, pos) == b
  {
    var p := Prefix(|b.payload|, b.compressed);
    Uint32Inverse(p);
    PrefixRoundTrip(|b.payload|, b.compressed);
    assert data[pos..pos + PREFIX_LEN] == Frame(b)[..PREFIX_LEN] == PutUint32(p);
    assert data[pos + PREFIX_LEN..pos + b.Length()] == Frame(b)[PREFIX_LEN..] == b.payload;
  }

  /** The offset of cell c, of w bytes. */
  function At(c: nat, w: nat): nat { c * w }

  lemma CellsApart(i: nat, j: nat, n: nat, w: nat)
    requires i < j < n
    ensures At(i, w) + w <= At(j, w) && At(j, w) + w <= n * w
  {
    assert (i + 1) * w <= j * w;
    assert (j + 1) * w <= n * w;
  }

  /** Cell c, of n cells of w bytes each, holds a block. */
  ghost predicate CellOk(data: seq<byte>, c: nat, n: nat, w: nat) {
    c < n && At(c, w) + w <= |data| && Fits(data, At(c, w), w)
  }

  ghost function BlockOf(data: seq<byte>, c: nat, n: nat, w: nat): Block
    requires CellOk(data, c, n, w)
  {
    BlockAt(data, At(c, w))
  }

  ghost predicate DataValid(data: seq<byte>, busy: set<nat>, n: nat, w: nat) {
    && |data| == n * w < MAX_BYTES
    && forall c | c in busy :: CellOk(data, c, n, w)
  }

  ghost function CellsOf(data: seq<byte>, busy: set<nat>, n: nat, w: nat): map<nat, Block>
    requires DataValid(data, busy, n, w)
  {
    map c | c in busy :: BlockOf(data, c, n, w)
  }

  lemma CellInside(data: seq<byte>, c: nat, n: nat, w: nat)
    requires |data| == n * w && c < n
    ensures At(c, w) + w <= |data|
  {
    assert (c + 1) * w <= n * w;
  }

  /** now is was with the bytes from pos on overwritten by part. */
  ghost predicate Overwritten(was: seq<byte>, now: seq<byte>, pos: nat, part: seq<byte>) {
    && |now| == |was| && pos + |part| <= |was|
    && now[pos..pos + |part|] == part
    && forall i | 0 <= i < |was| && !(pos <= i < pos + |part|) :: now[i] == was[i]
  }

  lemma OtherBytes(was: seq<byte>, now: seq<byte>, pos: nat, part: seq<byte>, at: nat, w: nat)
    requires |part| <= w && Overwritten(was, now, pos, part)
    requires at + w <= pos || pos + w <= at
    requires at + w <= |was| && Fits(was, at, w)
    ensures Fits(now, at, w) && BlockAt(now, at) == BlockAt(was, at)
  {
    assert was[at..at + w] == now[at..at + w];
    BlockWithin(was, now, at, w);
  }

  lemma OtherCell(was: seq<byte>, now: seq<byte>, i: nat, part: seq<byte>, c: nat, n: nat, w: nat)
    requires |part| <= w && |was| == n * w && i < n && Overwritten(was, now, At(i, w), part)
    requires c != i && CellOk(was, c, n, w)
    ensures CellOk(now, c, n, w) && BlockOf(now, c, n, w) == BlockOf(was, c, n, w)
  {
    if c < i { CellsApart(c, i, n, w); } else { CellsApart(i, c, n, w); }
    OtherBytes(was, now, At(i, w), part, At(c, w), w);
  }

  lemma ThisCell(now: seq<byte>, i: nat, b: Block, n: nat, w: nat)
    requires |now| == n * w && i < n && |b.payload| < TOP_BIT && b.Length() <= w
    requires At(i, w) + b.Length() <= |now| && now[At(i, w)..At(i, w) + b.Length()] == Frame(b)
    ensures CellOk(now, i, n, w) && BlockOf(now, i, n, w) == b
  {
    CellInside(now, i, n, w);
    FrameIsBlock(now, At(i, w), b);
  }

  lemma StoreCell(was: seq<byte>, now: seq<byte>, busy: set<nat>, n: nat, w: nat, i: nat, b: Block)
    requires DataValid(was, busy, n, w) && i < n && i !in busy
    requires |b.payload| < TOP_BIT && b.Length() <= w
    requires Overwritten(was, now, At(i, w), Frame(b))
    ensures DataValid(now, busy + {i}, n, w)
    ensures CellsOf(now, busy + {i}, n, w) == CellsOf(was, busy, n, w)[i := b]
  {
    ThisCell(now, i, b, n, w);
    forall c | c in busy ensures CellOk(now, c, n, w) && BlockOf(now, c, n, w) == BlockOf(was, c, n, w) {
      OtherCell(was, now, i, Frame(b), c, n, w);
    }
  }

  lemma BusyAt(words: seq<Word>, i: nat, bit: nat, c: nat)
    requires i < |words| && bit < NUM_BITS && c == i * 64 + bit
    ensures c in Busy(words) <==> Bit(words[i], bit)
  {
    assert c / NUM_BITS == i && c % NUM_BITS == bit;
  }

  lemma DropCell(data: seq<byte>, busy: set<nat>, n: nat, w: nat, c: nat)
    requires DataValid(data, busy, n, w)
    ensures DataValid(data, busy - {c}, n, w)
    ensures CellsOf(data, busy - {c}, n, w) == CellsOf(data, busy, n, w) - {c}
  {
  }

  method WriteFrame(data: array<byte>, pos: nat, buf: seq<byte>, compressed: bool)
    requires pos + PREFIX_LEN + |buf| <= data.Length
    modifies data
    ensures Overwritten(old(data[..]), data[..], pos, Frame(Block(buf, compressed)))
  {
    var prefix := PutUint32(Prefix(|buf|, compressed));
    forall i | 0 <= i < PREFIX_LEN { data[pos + i] := prefix[i]; }
    forall i | 0 <= i < |buf| { data[pos + PREFIX_LEN + i] := buf[i]; }
    assert data[pos..pos + PREFIX_LEN] == prefix;
    assert data[pos + PREFIX_LEN..pos + PREFIX_LEN + |buf|] == buf;
    assert data[..][pos..pos + PREFIX_LEN + |buf|] == prefix + buf;
  }

  /** All index arithmetic is on 32 bits. */
  method ReadFrame(data: array<byte>, at: nat, ghost w: nat) returns (buf: seq<byte>, compressed: bool)
    requires at + w <= data.Length < MAX_BYTES && Fits(data[..], at, w)
    ensures Block(buf, compressed) == BlockAt(data[..], at)
  {
    var pos := at % MAX_BYTES;
    assert pos == at;
    assert data[..][at..at + PREFIX_LEN] == data[at..at + PREFIX_LEN];
    var prefix := Uint32(data[pos..pos + PREFIX_LEN]);
    var buflen := PrefixLength(prefix);
    compressed := PrefixCompressed(prefix);
    pos := (pos + PREFIX_LEN) % MAX_BYTES;
    assert pos == at + PREFIX_LEN && pos + buflen <= at + w;
    buf := data[pos..(pos + buflen) % MAX_BYTES];
    assert data[..][pos..pos + buflen] == data[pos..pos + buflen];
  }

  lemma CellRead(data: seq<byte>, busy: set<nat>, n: nat, w: nat, c: nat)
    requires DataValid(data, busy, n, w) && c in busy
    ensures At(c, w) + w <= |data| < MAX_BYTES && Fits(data, At(c, w), w)
    ensures CellsOf(data, busy, n, w)[c] == BlockAt(data, At(c, w))
  {
    assert CellOk(data, c, n, w);
  }

  lemma NothingBusy(words: seq<Word>)
    requires forall i | 0 <= i < |words| :: words[i] == 0
    ensures Busy(words) == {}
  {
    forall i | i in Busy(words) ensures false {
      ZeroHasNoBits(i % NUM_BITS);
    }
  }

  class Bucket {
    const data: array<byte>
    const cellbytes: nat
    var freecells: array<Word>

    ghost function Repr(): set<object>
      reads this
    {
      {this, data, freecells}
    }

    ghost function NumCells(): nat
      reads this
    {
      64 * freecells.Length
    }

    ghost predicate Valid()
      reads this, data, freecells
    {
      DataValid(data[..], Busy(freecells[..]), NumCells(), cellbytes)
    }

    /** The finite map the bucket stands for. */
    ghost function Cells(): (m: map<nat, Block>)
      requires Valid()
      reads this, data, freecells
      ensures m.Keys == Busy(freecells[..])
    {
      CellsOf(data[..], Busy(freecells[..]), NumCells(), cellbytes)
    }

    constructor (cellbytes: nat, ncells: nat)
      requires ncells % NUM_BITS == 0 && cellbytes * ncells < MAX_BYTES
      ensures Valid() && Cells() == map[] && NumCells() == ncells && this.cellbytes == cellbytes
      ensures fresh(this) && fresh(data) && fresh(freecells)
    {
      this.cellbytes := cellbytes;
      data := new byte[cellbytes * ncells](_ => 0);
      freecells := new Word[ncells / NUM_BITS](_ => 0);
      new;
      NothingBusy(freecells[..]);
      assert NumCells() == ncells;
    }

    /** Stores a block in the first free cell, if any. */
    method Put(buf: seq<byte>, compressed: bool) returns (r: Option<nat>)
      requires Valid() && |buf| + PREFIX_LEN <= cellbytes
      requires |buf| < TOP_BIT
      modifies data, freecells
      ensures Valid() && freecells == old(freecells)
      ensures r == FirstFree(old(Cells()).Keys, NumCells())
      ensures r.Some? ==> Cells() == old(Cells())[r.value := Block(buf, compressed)]
      ensures r.None? ==> Cells() == old(Cells())
    {
      r := FindFreeCell(freecells);
      if r.None? {
        return;
      }
      var idx := r.value;
      ghost var was, busy := data[..], Busy(freecells[..]);
      assert IsFirstFree(busy, NumCells(), idx);
      CellInside(was, idx, NumCells(), cellbytes);
      WriteFrame(data, At(idx, cellbytes), buf, compressed);
      StoreCell(was, data[..], busy, NumCells(), cellbytes, idx, Block(buf, compressed));
      SetBit(freecells, idx);
    }

    /** Reads a busy cell. */
    method Get(cellidx: nat) returns (buf: seq<byte>, compressed: bool)
      requires Valid() && cellidx in Cells()
      ensures Block(buf, compressed) == Cells()[cellidx]
    {
      CellRead(data[..], Busy(freecells[..]), NumCells(), cellbytes, cellidx);
      buf, compressed := ReadFrame(data, At(cellidx, cellbytes), cellbytes);
    }

    /** Forgets a cell. */
    method ClearCell(cellidx: nat)
      requires Valid() && cellidx in Cells()
      modifies freecells
      ensures Valid() && freecells == old(freecells)
      ensures Cells() == old(Cells()) - {cellidx}
    {
      DropCell(data[..], Busy(freecells[..]), NumCells(), cellbytes, cellidx);
      ClearBit(freecells, cellidx);
    }

    method CollectCell(i: nat, bit: nat, c: nat, bufs: seq<Block>, ghost cells: map<nat, Block>)
      returns (more: seq<Block>)
      requires Valid() && i < freecells.Length && bit < NUM_BITS && c == i * 64 + bit
      requires cells == Cells() && bufs == InOrder(cells, c)
      ensures more == InOrder(cells, c + 1)
    {
      assert cells.Keys == Busy(freecells[..]);
      InOrderNext(cells, c);
      BusyAt(freecells[..], i, bit, c);
      if Bit(freecells[i], bit) {
        var buf, compressed := Get(c);
        more := bufs + [Block(buf, compressed)];
      } else {
        more := bufs;
      }
    }

    /** The blocks of all busy cells, in cell order. */
    method Collect() returns (bufs: seq<Block>)
      requires Valid()
      ensures bufs == InOrder(Cells(), NumCells())
    {
      bufs := [];
      var seen := 0;
      ghost var cells := Cells();
      for i := 0 to freecells.Length
        invariant Valid() && cells == Cells()
        invariant seen == i * 64
        invariant bufs == InOrder(cells, seen)
      {
        for bit := 0 to NUM_BITS
          invariant Valid() && cells == Cells()
          invariant seen == i * 64 + bit
          invariant bufs == InOrder(cells, seen)
        {
          bufs := CollectCell(i, bit, seen, bufs, cells);
          seen := seen + 1;
        }
      }
    }

    /** Hands out all blocks; the bucket is empty afterwards. */
    method Flush() returns (bufs: seq<Block>)
      requires Valid()
      modifies this`freecells
      ensures Valid() && fresh(freecells) && NumCells() == old(NumCells())
      ensures Cells() == map[]
      ensures bufs == InOrder(old(Cells()), NumCells())
    {
      bufs := Collect();
      freecells := new Word[freecells.Length](_ => 0);
      NothingBusy(freecells[..]);
    }

    method NumBuffers() returns (n: nat)
      requires Valid()
      ensures n == |Cells()|
    {
      n := CountBusy(freecells);
      assert Cells().Keys == Busy(freecells[..]);
    }
  }
}
