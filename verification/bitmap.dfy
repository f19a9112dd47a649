/** The bitmap of busy cells, in 64-bit words. */
module Bitmap {
  import opened Bytes
  import opened Bits
  import opened CacheModel

  const NUM_BITS: nat := 64

  type Word = x: nat | x < Pow2(NUM_BITS) witness 0

  /** Zero bits above the highest one, among the n lowest bits. */
  function LeadingZeros(x: nat, n: nat := NUM_BITS): (l: nat)
    requires n <= NUM_BITS
    ensures l <= n
    ensures forall i: nat | n - l <= i < n :: !Bit(x, i)
    ensures l < n ==> Bit(x, n - 1 - l)
  {
    if n == 0 || Bit(x, n - 1) then 0 else 1 + LeadingZeros(x, n - 1)
  }

  /** The most significant zero bit. */
  function FindFirstZero64(x: Word): (r: Option<nat>)
    ensures r.None? ==> forall j: nat | j < NUM_BITS :: Bit(x, j)
    ensures r.Some? ==> r.value < NUM_BITS && !Bit(x, r.value)
    ensures r.Some? ==> forall j: nat | r.value < j < NUM_BITS :: Bit(x, j)
  {
    var l := LeadingZeros(x);
    if l != 0 then
      assert !Bit(x, 63);
      Some(63)
    else
      var h := LeadingZeros(Complement(x, NUM_BITS));
      assert forall j: nat {:trigger Bit(x, j)} | j < NUM_BITS ::
          Bit(Complement(x, NUM_BITS), j) <==> !Bit(x, j) by {
        forall j: nat | j < NUM_BITS ensures Bit(Complement(x, NUM_BITS), j) <==> !Bit(x, j) {
          ComplementBits(x, NUM_BITS, j);
        }
      }
      if h == NUM_BITS then None else
        assert Bit(Complement(x, NUM_BITS), 63 - h);
        Some(63 - h)
  }

  /** The first zero bit counting from the least significant bit, from bit n on. */
  function LeastZero(x: Word, n: nat := 0): (r: Option<nat>)
    requires n <= NUM_BITS
    ensures r.None? ==> forall j: nat | n <= j < NUM_BITS :: Bit(x, j)
    ensures r.Some? ==> n <= r.value < NUM_BITS && !Bit(x, r.value)
    ensures r.Some? ==> forall j: nat | n <= j < r.value :: Bit(x, j)
    decreases NUM_BITS - n
  {
    if n == NUM_BITS then None else if !Bit(x, n) then Some(n) else LeastZero(x, n + 1)
  }

  ghost predicate Zero(x: Word, i: nat) {
    i < NUM_BITS && !Bit(x, i)
  }

  /** The search finds the least significant zero exactly in words with no two zeros. */
  lemma FirstZeroIsLeastIffOnly(x: Word)
    ensures FindFirstZero64(x) == LeastZero(x) <==> (forall i: nat, j: nat | Zero(x, i) && Zero(x, j) :: i == j)
  {
    var most, least := FindFirstZero64(x), LeastZero(x);
    if most.Some? {
      assert Zero(x, most.value);
      assert least.Some? && Zero(x, least.value) && least.value <= most.value;
      forall i: nat | Zero(x, i) ensures least.value <= i <= most.value { }
    }
  }

  /** In an empty word the search finds bit 63, the least significant zero being bit 0. */
  lemma EmptyWordFirstZero()
    ensures FindFirstZero64(0) == Some(63) && LeastZero(0) == Some(0)
  {
    ZeroHasNoBits(63);
    ZeroHasNoBits(0);
  }

  ghost function Busy(words: seq<Word>): (b: set<nat>)
    ensures forall i :: i in b ==> i < NUM_BITS * |words|
  {
    set i: nat | i < NUM_BITS * |words| && Bit(words[i / NUM_BITS], i % NUM_BITS)
  }

  method FindFreeCell(bm: array<Word>) returns (r: Option<nat>)
    ensures r == FirstFree(Busy(bm[..]), NUM_BITS * bm.Length)
    ensures r.None? ==> forall i: nat | i < NUM_BITS * bm.Length :: i in Busy(bm[..])
  {
    ghost var busy, n := Busy(bm[..]), NUM_BITS * bm.Length;
    for i := 0 to bm.Length
      invariant forall c: nat | c < NUM_BITS * i :: c in busy
    {
      var index := FindFirstZero64(bm[i]);
      if index.Some? {
        r := Some(i * NUM_BITS + index.value);
        assert r.value / NUM_BITS == i && r.value % NUM_BITS == index.value;
        assert IsFirstFree(busy, n, r.value) by {
          forall j: nat | j < n && j !in busy
            ensures j / 64 > i || (j / 64 == i && j <= r.value)
          {
            if j / 64 == i { assert !Bit(bm[i], j % 64); }
          }
        }
        FirstFreeIs(busy, n, r.value);
        return;
      }
      forall c: nat | NUM_BITS * i <= c < NUM_BITS * (i + 1) ensures c in busy {
        assert c / NUM_BITS == i;
      }
    }
    r := None;
    FirstFreeExists(busy, n);
  }

  /** `word | 1 << bit` */
  function WithBit(word: Word, bit: nat): Word
    requires bit < NUM_BITS
  {
    PowerGrows(bit, NUM_BITS);
    OrInRange(word, Pow2(bit), NUM_BITS);
    Or(word, Pow2(bit))
  }

  /** `word & ^(1 << bit)` */
  function WithoutBit(word: Word, bit: nat): Word
    requires bit < NUM_BITS
  {
    AndNotInRange(word, Pow2(bit));
    AndNot(word, Pow2(bit))
  }

  lemma SetBusy(words: seq<Word>, i: nat)
    requires i < NUM_BITS * |words|
    ensures Busy(words[i / 64 := WithBit(words[i / 64], i % 64)]) == Busy(words) + {i}
  {
    var w, bit := i / 64, i % 64;
    var now := words[w := WithBit(words[w], bit)];
    forall j: nat | j < NUM_BITS * |words| ensures j in Busy(now) <==> j == i || j in Busy(words) {
      if j / 64 == w {
        OrBits(words[w], Pow2(bit), j % 64);
        PowerBits(bit, j % 64);
      }
    }
  }

  lemma ClearBusy(words: seq<Word>, i: nat)
    requires i < NUM_BITS * |words|
    ensures Busy(words[i / 64 := WithoutBit(words[i / 64], i % 64)]) == Busy(words) - {i}
  {
    var w, bit := i / 64, i % 64;
    var now := words[w := WithoutBit(words[w], bit)];
    forall j: nat | j < NUM_BITS * |words| ensures j in Busy(now) <==> j != i && j in Busy(words) {
      if j / 64 == w {
        AndNotBits(words[w], Pow2(bit), j % 64);
        PowerBits(bit, j % 64);
      }
    }
  }

  method SetBit(bm: array<Word>, i: nat)
    requires i < NUM_BITS * bm.Length
    modifies bm
    ensures Busy(bm[..]) == old(Busy(bm[..])) + {i}
  {
    ghost var was := bm[..];
    var index, bit := i / 64, i % 64;
    bm[index] := WithBit(bm[index], bit);
    assert bm[..] == was[index := WithBit(was[index], bit)];
    SetBusy(was, i);
  }

  method ClearBit(bm: array<Word>, i: nat)
    requires i < NUM_BITS * bm.Length
    modifies bm
    ensures Busy(bm[..]) == old(Busy(bm[..])) - {i}
  {
    ghost var was := bm[..];
    var index, bit := i / 64, i % 64;
    bm[index] := WithoutBit(bm[index], bit);
    assert bm[..] == was[index := WithoutBit(was[index], bit)];
    ClearBusy(was, i);
  }

  // ---------------------------------------------------------------- counting

  /** Number of ones among the n lowest bits. */
  function OnesCount(x: nat, n: nat := NUM_BITS): nat
    requires n <= NUM_BITS
  {
    if n == 0 then 0 else OnesCount(x, n - 1) + (if Bit(x, n - 1) then 1 else 0)
  }

  ghost function BusyBelow(words: seq<Word>, n: nat): set<nat> {
    set i: nat | i < n && i in Busy(words)
  }

  lemma {:induction false} OnesAreBusy(words: seq<Word>, w: nat, n: nat)
    requires w < |words| && n <= NUM_BITS
    ensures |BusyBelow(words, NUM_BITS * w + n)| == |BusyBelow(words, NUM_BITS * w)| + OnesCount(words[w], n)
  {
    if n > 0 {
      OnesAreBusy(words, w, n - 1);
      var c := NUM_BITS * w + n - 1;
      assert c / NUM_BITS == w && c % NUM_BITS == n - 1;
      BusyNext(words, c);
    }
  }

  lemma BusyNext(words: seq<Word>, c: nat)
    requires c / NUM_BITS < |words|
    ensures |BusyBelow(words, c + 1)|
            == |BusyBelow(words, c)| + if Bit(words[c / NUM_BITS], c % NUM_BITS) then 1 else 0
  {
    if Bit(words[c / NUM_BITS], c % NUM_BITS) {
      assert BusyBelow(words, c + 1) == BusyBelow(words, c) + {c};
    } else {
      assert BusyBelow(words, c + 1) == BusyBelow(words, c);
    }
  }

  method CountBusy(bm: array<Word>) returns (n: nat)
    ensures n == |Busy(bm[..])|
  {
    n := 0;
    assert BusyBelow(bm[..], 0) == {};
    for j := 0 to bm.Length
      invariant n == |BusyBelow(bm[..], NUM_BITS * j)|
    {
      OnesAreBusy(bm[..], j, NUM_BITS);
      n := n + OnesCount(bm[j]);
    }
    assert BusyBelow(bm[..], NUM_BITS * bm.Length) == Busy(bm[..]);
  }
}
