/** The cold cache: one bucket for each configured cell size. */
module ColdCaching {
  import opened Bytes
  import opened Frames
  import opened Bitmap
  import opened ColdBucket
  import opened CacheModel

  ghost predicate BucketHolds(b: Bucket, size: nat, ncells: nat, cells: map<nat, Block>)
    reads b, b.data, b.freecells
  {
    && b.Valid()
    && b.cellbytes == size
    && b.NumCells() == ncells
    && b.Cells() == cells
  }

  ghost predicate Owned(bs: seq<Bucket>, repr: set<object>)
    reads bs
  {
    && (forall i | 0 <= i < |bs| :: bs[i] in repr && bs[i].data in repr && bs[i].freecells in repr)
    && (forall i, j | 0 <= i < j < |bs| ::
          bs[i] != bs[j] && bs[i].data != bs[j].data && bs[i].freecells != bs[j].freecells)
  }

  class ColdCache {
    const buckets: seq<Bucket>
    const sizes: seq<nat>
    const ncells: nat

    /** What the cells hold, bucket by bucket. */
    ghost var cells: seq<map<nat, Block>>
    ghost var Repr: set<object>

    ghost predicate Valid()
      reads this, Repr, buckets
      ensures Valid() ==> this in Repr
    {
      && this in Repr
      && Owned(buckets, Repr)
      && |buckets| == |sizes| == |cells|
      && forall i | 0 <= i < |buckets| :: BucketHolds(buckets[i], sizes[i], ncells, cells[i])
    }

    constructor (ncells: nat, sizes: seq<nat>)
      requires ncells % NUM_BITS == 0
      requires forall i | 0 <= i < |sizes| :: sizes[i] * ncells < MAX_BYTES
      ensures Valid() && fresh(Repr)
      ensures this.sizes == sizes && this.ncells == ncells
      ensures cells == EmptyBuckets(|sizes|)
    {
      var bs: seq<Bucket> := [];
      ghost var repr: set<object> := {};
      for k := 0 to |sizes|
        invariant |bs| == k && Owned(bs, repr) && fresh(repr)
        invariant forall i | 0 <= i < |bs| :: BucketHolds(bs[i], sizes[i], ncells, map[])
      {
        var b := new Bucket(sizes[k], ncells);
        bs := bs + [b];
        repr := repr + b.Repr();
      }
      buckets, this.sizes, this.ncells := bs, sizes, ncells;
      cells := EmptyBuckets(|sizes|);
      Repr := {this} + repr;
    }

    /** The smallest bucket that can hold l bytes and their prefix. */
    method SmallestFitBucket(l: nat) returns (r: Option<nat>)
      requires Valid()
      ensures r == SmallestFit(sizes, l)
    {
      for i := 0 to |buckets|
        invariant forall j | 0 <= j < i :: sizes[j] < l + PREFIX_LEN
      {
        assert BucketHolds(buckets[i], sizes[i], ncells, cells[i]);
        if buckets[i].cellbytes >= l + PREFIX_LEN {
          return Some(i);
        }
      }
      r := None;
    }

    /** Stores a block in the first free cell of bucket b, if any. */
    method Put(b: nat, buf: seq<byte>, compressed: bool) returns (r: Option<nat>)
      requires Valid() && b < |sizes|
      requires |buf| + PREFIX_LEN <= sizes[b] && |buf| < TOP_BIT
      modifies Repr
      ensures Valid() && Repr == old(Repr)
      ensures r == FirstFree(old(cells)[b].Keys, ncells)
      ensures cells == if r.None? then old(cells) else
                         WithCell(old(cells), b, r.value, Block(buf, compressed))
    {
      assert BucketHolds(buckets[b], sizes[b], ncells, cells[b]);
      r := buckets[b].Put(buf, compressed);
      if r.Some? {
        cells := WithCell(cells, b, r.value, Block(buf, compressed));
      }
    }

    method Get(b: nat, c: nat) returns (buf: seq<byte>, compressed: bool)
      requires Valid() && b < |sizes| && c in cells[b]
      ensures Block(buf, compressed) == cells[b][c]
    {
      assert BucketHolds(buckets[b], sizes[b], ncells, cells[b]);
      buf, compressed := buckets[b].Get(c);
    }

    method ClearCell(b: nat, c: nat)
      requires Valid() && b < |sizes| && c in cells[b]
      modifies Repr
      ensures Valid() && Repr == old(Repr)
      ensures cells == old(cells)[b := old(cells)[b] - {c}]
    {
      assert BucketHolds(buckets[b], sizes[b], ncells, cells[b]);
      ClearBit(b, c);
      Note(b, cells[b] - {c});
    }

    /** The cells of one bucket have become these. */
    ghost method Note(b: nat, now: map<nat, Block>)
      requires this in Repr && Owned(buckets, Repr) && |buckets| == |sizes| == |cells| && b < |buckets|
      requires BucketHolds(buckets[b], sizes[b], ncells, now)
      requires forall i | 0 <= i < |buckets| && i != b :: BucketHolds(buckets[i], sizes[i], ncells, cells[i])
      modifies this`cells
      ensures Valid() && cells == old(cells)[b := now]
    {
      cells := cells[b := now];
    }

    method ClearBit(b: nat, c: nat)
      requires Valid() && b < |sizes| && c in cells[b]
      requires BucketHolds(buckets[b], sizes[b], ncells, cells[b])
      modifies buckets[b].freecells
      ensures BucketHolds(buckets[b], sizes[b], ncells, cells[b] - {c})
      ensures forall i | 0 <= i < |buckets| && i != b :: BucketHolds(buckets[i], sizes[i], ncells, cells[i])
    {
      buckets[b].ClearCell(c);
    }

    /** Hands out the blocks of bucket b in cell order and empties it. */
    method Flush(b: nat) returns (bufs: seq<Block>)
      requires Valid() && b < |sizes|
      modifies Repr
      ensures Valid() && fresh(Repr - old(Repr))
      ensures bufs == InOrder(old(cells)[b], ncells)
      ensures cells == old(cells)[b := map[]]
    {
      assert BucketHolds(buckets[b], sizes[b], ncells, cells[b]);
      bufs := buckets[b].Flush();
      cells := cells[b := map[]];
      Repr := Repr + {buckets[b].freecells};
    }
  }
}
