/** Places packed in 32 bits: a hot flag, 7 bits of bucket index, 24 bits of cell index. */
module Locations {
  import opened Bits
  import opened Frames
  import opened CacheModel

  type Location = l: nat | l < 0x1_0000_0000

  const HOT_CACHE_LOCATION: Location := TOP_BIT
  const CELL_SPAN: nat := 0x100_0000
  const MAX_BUCKETS: nat := 128

  predicate IsCold(l: Location) { l < TOP_BIT }

  function ColdBucketIdx(l: Location): nat { l / CELL_SPAN }

  function ColdCellIdx(l: Location): nat { l % CELL_SPAN }

  function ColdLocation(bidx: nat, cidx: nat): Location {
    var high, low := bidx * CELL_SPAN % 0x1_0000_0000, cidx % 0x1_0000_0000;
    Powers();
    OrInRange(high, low, 32);
    Or(high, low)
  }

  function Unpack(l: Location): Place {
    if IsCold(l) then InCold(ColdBucketIdx(l), ColdCellIdx(l)) else InHot
  }

  /** A place survives packing exactly when both indices fit their fields. */
  lemma PackRoundTrip(bidx: nat, cidx: nat)
    ensures Unpack(ColdLocation(bidx, cidx)) == InCold(bidx, cidx) <==> bidx < MAX_BUCKETS && cidx < CELL_SPAN
  {
    UnpackedFits(ColdLocation(bidx, cidx));
    if bidx < MAX_BUCKETS && cidx < CELL_SPAN {
      Packed(bidx, cidx);
      Split(bidx, cidx);
    }
  }

  lemma Packed(bidx: nat, cidx: nat)
    requires bidx < MAX_BUCKETS && cidx < CELL_SPAN
    ensures ColdLocation(bidx, cidx) == bidx * CELL_SPAN + cidx
  {
    Split(bidx, cidx);
    ShiftedOr(bidx, cidx);
    NoWrap(bidx * CELL_SPAN);
    NoWrap(cidx);
  }

  lemma NoWrap(n: nat)
    requires n < 0x1_0000_0000
    ensures n % 0x1_0000_0000 == n
  {
  }

  lemma ShiftedOr(bidx: nat, cidx: nat)
    requires cidx < CELL_SPAN
    ensures Or(bidx * CELL_SPAN, cidx) == bidx * CELL_SPAN + cidx
  {
    assert Pow2(24) == CELL_SPAN by { Powers(); }
    OrOfShifted(bidx, 24, cidx);
  }

  lemma Split(high: nat, low: nat)
    requires high < MAX_BUCKETS && low < CELL_SPAN
    ensures high * CELL_SPAN + low < TOP_BIT
    ensures (high * CELL_SPAN + low) / CELL_SPAN == high && (high * CELL_SPAN + low) % CELL_SPAN == low
  {
  }

  lemma UnpackedFits(l: Location)
    ensures Unpack(l).InCold? ==> Unpack(l).bucket < MAX_BUCKETS && Unpack(l).cell < CELL_SPAN
  {
  }

  ghost function Places(m: map<Key, Location>): map<Key, Place> {
    map k | k in m :: Unpack(m[k])
  }

  /** Drops every location that points into bucket bidx. */
  method RemoveCold(m: map<Key, Location>, bidx: nat) returns (r: map<Key, Location>)
    ensures Places(r)
            == map k | k in Places(m) && !(Places(m)[k].InCold? && Places(m)[k].bucket == bidx) :: Places(m)[k]
    ensures r.Keys <= m.Keys
  {
    r := m;
    var todo := m.Keys;
    while todo != {}
      invariant todo <= m.Keys
      invariant r.Keys <= m.Keys
      invariant forall k | k in m ::
        (k in r <==> k in todo || !(IsCold(m[k]) && bidx == ColdBucketIdx(m[k]))) && (k in r ==> r[k] == m[k])
    {
      var key :| key in todo;
      todo := todo - {key};
      var loc := m[key];
      if IsCold(loc) && bidx == ColdBucketIdx(loc) {
        r := r - {key};
      }
    }
  }

  /** Drops every hot location. */
  method RemoveHot(m: map<Key, Location>) returns (r: map<Key, Location>)
    ensures Places(r) == map k | k in Places(m) && Places(m)[k] != InHot :: Places(m)[k]
    ensures r.Keys <= m.Keys
  {
    r := m;
    var todo := m.Keys;
    while todo != {}
      invariant todo <= m.Keys
      invariant r.Keys <= m.Keys
      invariant forall k | k in m ::
        (k in r <==> k in todo || IsCold(m[k])) && (k in r ==> r[k] == m[k])
    {
      var key :| key in todo;
      todo := todo - {key};
      if !IsCold(m[key]) {
        r := r - {key};
      }
    }
  }
}
