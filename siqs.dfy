/** The self-contained parts of the quadratic sieve header (siqs.h): the
    sparse matrix column `la_col_t` with its four inline helpers, and the
    constant tuning table `qsieve_tune`. */
module Siqs {

  // ---------------------------------------------------------------------
  // Capacity accounting of a column buffer
  // ---------------------------------------------------------------------

  /** The growth test of `insert_col_entry`: clearing the low four bits of
      the weight leaves it unchanged, that is, the weight is a multiple of
      16 and every allocated slot is in use. */
  predicate NeedsSpace(weight: nat)
    ensures NeedsSpace(weight) <==> weight % 16 == 0
  {
    (weight / 16) * 16 == weight
  }

  /** w rounded up to a multiple of 16. */
  function RoundUp16(w: nat): (r: nat)
    ensures r % 16 == 0 && w <= r < w + 16
  {
    ((w + 15) / 16) * 16
  }

  /** Number of slots after one insertion into a column of the given
      weight and capacity: 16 more than the weight when the buffer is
      full (a fresh 16-slot buffer when the weight is zero), else as before. */
  function GrowCapacity(weight: nat, capacity: nat): nat {
    if NeedsSpace(weight) then weight + 16 else capacity
  }

  /** Capacity of a column after k insertions into a column with no buffer. */
  function CapacityAfterInserts(k: nat): nat {
    if k == 0 then 0 else GrowCapacity(k - 1, CapacityAfterInserts(k - 1))
  }

  /** The buffer invariant of a column built by insertions: it holds every
      entry, and a nonempty column has exactly its weight rounded up to a
      multiple of 16 slots. */
  predicate CapacityFits(weight: nat, capacity: nat) {
    weight <= capacity && (weight > 0 ==> capacity == RoundUp16(weight))
  }

  /** One insertion keeps the buffer invariant: the new capacity is the
      new weight rounded up to a multiple of 16. */
  lemma GrowKeepsFit(weight: nat, capacity: nat)
    requires CapacityFits(weight, capacity)
    ensures GrowCapacity(weight, capacity) == RoundUp16(weight + 1)
    ensures CapacityFits(weight + 1, GrowCapacity(weight, capacity))
  {
    if weight % 16 != 0 {
      assert RoundUp16(weight) == RoundUp16(weight + 1);
    }
  }

  /** After any number k of insertions from an empty column the capacity
      is k rounded up to a multiple of 16, so it is never below k. */
  lemma {:induction false} CapacityAfterInsertsIsRounded(k: nat)
    ensures CapacityAfterInserts(k) == RoundUp16(k)
    ensures k <= CapacityAfterInserts(k) < k + 16
  {
    if k > 0 {
      CapacityAfterInsertsIsRounded(k - 1);
      GrowKeepsFit(k - 1, CapacityAfterInserts(k - 1));
    }
  }

  /** Growth happens exactly at multiples of 16: an insertion into a
      nonempty fitting column adds 16 slots if the weight is a multiple of
      16 and keeps the capacity otherwise. */
  lemma GrowsExactlyWhenFull(weight: nat, capacity: nat)
    requires CapacityFits(weight, capacity) && weight > 0
    ensures GrowCapacity(weight, capacity) == capacity + 16 <==> weight % 16 == 0
    ensures GrowCapacity(weight, capacity) == capacity <==> weight % 16 != 0
  {
  }

  // ---------------------------------------------------------------------
  // The column
  // ---------------------------------------------------------------------

  /** `la_col_t`: the rows occupied in one column of the sparse matrix,
      stored in the first `weight` slots of `data`, and the number of the
      relation the column came from. A column whose buffer was never
      allocated has an empty `data`. The ghost flag `live` records that
      `data` is an allocation the column still owns and has not released. */
  class Column {
    var data: array<int>
    var weight: nat
    var orig: int
    ghost var live: bool

    /** The column's buffer holds its entries, is sized as the insertions
        leave it, and is still allocated whenever the column has entries. */
    ghost predicate Valid()
      reads this
    {
      CapacityFits(weight, data.Length) && (weight > 0 ==> live)
    }

    /** The occupied rows, in insertion order. */
    function Entries(): seq<int>
      reads this, data
      requires weight <= data.Length
    {
      data[..weight]
    }

    /** A column with no buffer and no entries. */
    constructor (orig: int)
      ensures Valid() && weight == 0 && this.orig == orig && data.Length == 0 && !live
    {
      data := new int[0];
      weight := 0;
      this.orig := orig;
      live := false;
    }

    /** `insert_col_entry`: when the buffer is full it is reallocated to
        16 more slots (or freshly allocated with 16 slots when the column
        is empty), then the entry is stored after the others. */
    method InsertEntry(entry: int)
      requires Valid()
      modifies this, data
      ensures Valid()
      ensures weight == old(weight) + 1
      ensures Entries() == old(Entries()) + [entry]
      ensures orig == old(orig)
      ensures data.Length == GrowCapacity(old(weight), old(data.Length))
      ensures NeedsSpace(old(weight)) ==> fresh(data)
      ensures !NeedsSpace(old(weight)) ==> data == old(data)
      ensures live
    {
      GrowKeepsFit(weight, data.Length);
      if NeedsSpace(weight) {
        if weight != 0 {
          data := Realloc(data, weight, weight + 16);
        } else {
          data := new int[16];
        }
        live := true;
      }
      data[weight] := entry;
      weight := weight + 1;
    }

    /** `clear_col`: the column forgets its entries; the buffer and the
        relation number stay. Any column may be cleared, a freed one too. */
    method ClearCol()
      modifies this
      ensures Valid() && weight == 0 && Entries() == []
      ensures data == old(data) && orig == old(orig) && live == old(live)
    {
      weight := 0;
    }

    /** `free_col`: the buffer is released exactly when the weight is
        nonzero. A cleared column still owns its buffer, and it stays
        allocated. Weight, pointer and relation number are left as they
        were, so a nonzero weight must still own its buffer: freeing the
        same buffer twice is undefined in C. */
    method FreeCol() returns (released: bool)
      requires weight != 0 ==> live
      modifies this
      ensures released <==> old(weight) != 0
      ensures live == (old(live) && old(weight) == 0)
      ensures weight == old(weight) && data == old(data) && orig == old(orig)
    {
      released := weight != 0;
      if released {
        live := false;
      }
    }
  }

  /** `flint_realloc` of a buffer holding `count` live entries to `size`
      slots: a new buffer whose first `count` slots are the old ones. */
  method Realloc(buf: array<int>, count: nat, size: nat) returns (grown: array<int>)
    requires count <= buf.Length && count <= size
    ensures fresh(grown) && grown.Length == size
    ensures grown[..count] == buf[..count]
  {
    grown := new int[size];
    var i := 0;
    while i < count
      invariant 0 <= i <= count
      invariant grown[..i] == buf[..i]
    {
      grown[i] := buf[i];
      i := i + 1;
    }
  }

  /** `swap_cols(col2, col1)`: the two columns exchange weight, buffer and
      relation number. Swapping a column with itself changes nothing. */
  method SwapCols(col2: Column, col1: Column)
    modifies col2, col1
    ensures col1.weight == old(col2.weight) && col1.data == old(col2.data) && col1.orig == old(col2.orig)
    ensures col2.weight == old(col1.weight) && col2.data == old(col1.data) && col2.orig == old(col1.orig)
    ensures col1.live == old(col2.live) && col2.live == old(col1.live)
  {
    var weight, data, orig := col1.weight, col1.data, col1.orig;
    ghost var live := col1.live;
    col1.weight, col1.data, col1.orig := col2.weight, col2.data, col2.orig;
    col1.live := col2.live;
    col2.weight, col2.data, col2.orig := weight, data, orig;
    col2.live := live;
  }

  /** Swapping preserves validity and exchanges the entries. */
  method SwapColsValid(col2: Column, col1: Column)
    requires col1.Valid() && col2.Valid()
    modifies col2, col1
    ensures col1.Valid() && col2.Valid()
    ensures col1.Entries() == old(col2.Entries()) && col2.Entries() == old(col1.Entries())
  {
    SwapCols(col2, col1);
  }

  /** Swapping twice restores both columns. */
  method SwapTwice(col2: Column, col1: Column)
    modifies col2, col1
    ensures col1.weight == old(col1.weight) && col1.data == old(col1.data) && col1.orig == old(col1.orig)
    ensures col2.weight == old(col2.weight) && col2.data == old(col2.data) && col2.orig == old(col2.orig)
    ensures col1.live == old(col1.live) && col2.live == old(col2.live)
  {
    SwapCols(col2, col1);
    SwapCols(col2, col1);
  }

  /** A cleared column starts over: the next insertion allocates a fresh
      16-slot buffer and leaves a column holding just that entry. */
  method ClearThenInsert(col: Column, entry: int)
    requires col.Valid()
    modifies col, col.data
    ensures col.Valid() && col.Entries() == [entry] && col.weight == 1
    ensures fresh(col.data) && col.data.Length == 16 && col.orig == old(col.orig)
  {
    col.ClearCol();
    col.InsertEntry(entry);
  }

  /** Freeing a cleared column leaks its buffer: `free_col` sees weight 0
      and releases nothing, although the buffer is still allocated. */
  method ClearThenFree(col: Column) returns (released: bool)
    requires col.Valid() && col.weight > 0
    modifies col
    ensures !released && col.live && col.weight == 0 && col.data == old(col.data)
  {
    col.ClearCol();
    released := col.FreeCol();
  }

  /** Clearing is what makes a freed column safe again: freeing a nonempty
      column releases its buffer, and after `clear_col` the column is
      valid, empty and owns nothing, so a second `free_col` releases
      nothing. */
  method FreeThenClear(col: Column) returns (first: bool, second: bool)
    requires col.Valid() && col.weight > 0
    modifies col
    ensures first && !second
    ensures col.Valid() && col.weight == 0 && !col.live && col.orig == old(col.orig)
  {
    first := col.FreeCol();
    col.ClearCol();
    second := col.FreeCol();
  }

  // ---------------------------------------------------------------------
  // The tuning table
  // ---------------------------------------------------------------------

  /** One row of `qsieve_tune`: the bit size of n the row is for, the
      number of primes to try in the Knuth-Schroeppel multiplier search,
      the number of factor base primes, the number of small primes not
      sieved with, and the sieve size. */
  datatype TuneRow = TuneRow(bits: nat, ksPrimes: nat, fbPrimes: nat, smallPrimes: nat, sieveSize: nat)

  /** `qsieve_tune`. */
  const QsieveTune: seq<TuneRow> := [
    TuneRow(10, 50, 100, 5, 2 * 2000),
    TuneRow(40, 50, 120, 6, 2 * 2500),
    TuneRow(40, 50, 150, 7, 2 * 2000),
    TuneRow(40, 50, 200, 8, 2 * 3000),
    TuneRow(50, 80, 200, 8, 2 * 3500),
    TuneRow(60, 100, 200, 8, 2 * 4000),
    TuneRow(70, 100, 200, 9, 2 * 7000),
    TuneRow(80, 100, 400, 9, 2 * 8000),
    TuneRow(90, 100, 600, 10, 2 * 12000),
    TuneRow(100, 100, 900, 10, 2 * 25000),
    TuneRow(110, 100, 1200, 10, 2 * 32000),
    TuneRow(120, 100, 1500, 10, 2 * 32000),
    TuneRow(130, 100, 2000, 11, 2 * 40000),
    TuneRow(140, 100, 2000, 11, 2 * 50000),
    TuneRow(150, 100, 3000, 11, 2 * 65536),
    TuneRow(160, 150, 4000, 11, 2 * 65536),
    TuneRow(170, 150, 5000, 12, 2 * 65536),
    TuneRow(180, 150, 7000, 12, 2 * 65536),
    TuneRow(190, 150, 9000, 13, 2 * 65536),
    TuneRow(200, 150, 9000, 13, 2 * 65536),
    TuneRow(210, 150, 10000, 13, 2 * 65536),
    TuneRow(220, 300, 12000, 15, 2 * 65536),
    TuneRow(230, 350, 40000, 17, 3 * 65536),
    TuneRow(240, 400, 60000, 19, 4 * 65536),
    TuneRow(250, 500, 90000, 19, 4 * 65536),
    TuneRow(260, 600, 100000, 25, 5 * 65536),
    TuneRow(270, 800, 150000, 27, 6 * 65536)
  ]

  /** `QS_TUNE_SIZE`: the size of the table divided by the size of a row. */
  function QsTuneSize(): (size: nat)
    ensures size == 27
  {
    |QsieveTune|
  }

  /** A row is consistent: fewer small primes than factor base primes and
      an even sieve size. */
  predicate RowWellFormed(row: TuneRow) {
    row.smallPrimes < row.fbPrimes && row.sieveSize % 2 == 0
  }

  /** Each row's bit size is at most the next one's. */
  predicate AdjacentBitsOrdered(t: seq<TuneRow>) {
    forall i :: 0 <= i < |t| - 1 ==> t[i].bits <= t[i + 1].bits
  }

  /** The bit sizes never decrease down the table. */
  predicate BitsOrdered(t: seq<TuneRow>) {
    forall i, j :: 0 <= i <= j < |t| ==> t[i].bits <= t[j].bits
  }

  /** Checking neighbours suffices for the whole table to be ordered. */
  lemma {:induction false} AdjacentOrderedImpliesOrdered(t: seq<TuneRow>)
    requires AdjacentBitsOrdered(t)
    ensures BitsOrdered(t)
    decreases |t|
  {
    if |t| > 1 {
      AdjacentOrderedImpliesOrdered(t[1..]);
      forall i, j | 0 <= i <= j < |t|
        ensures t[i].bits <= t[j].bits
      {
        if i < j {
          assert t[i].bits <= t[i + 1].bits;
          if i + 1 < j {
            assert t[1..][i].bits <= t[1..][j - 1].bits;
          }
        }
      }
    }
  }

  /** Every entry of a row fits the table's element type `mp_limb_t`, an
      unsigned 64-bit limb. */
  predicate RowFitsLimb(row: TuneRow) {
    && row.bits < 0x1_0000_0000_0000_0000
    && row.ksPrimes < 0x1_0000_0000_0000_0000
    && row.fbPrimes < 0x1_0000_0000_0000_0000
    && row.smallPrimes < 0x1_0000_0000_0000_0000
    && row.sieveSize < 0x1_0000_0000_0000_0000
  }

  /** Every row of the table is consistent. */
  lemma TuneRowsWellFormed()
    ensures forall i :: 0 <= i < |QsieveTune| ==> RowWellFormed(QsieveTune[i])
  {
  }

  /** Every entry of the table fits a 64-bit limb. */
  lemma TuneRowsFitLimb()
    ensures forall i :: 0 <= i < |QsieveTune| ==> RowFitsLimb(QsieveTune[i])
  {
  }

  /** The table's stated structure: 27 rows, each consistent, with bit
      sizes in non-decreasing order, and every entry of every row fits a
      64-bit limb. */
  lemma TuneTableShape()
    ensures QsTuneSize() == 27
    ensures forall i :: 0 <= i < |QsieveTune| ==> RowWellFormed(QsieveTune[i])
    ensures BitsOrdered(QsieveTune)
    ensures forall i :: 0 <= i < |QsieveTune| ==> RowFitsLimb(QsieveTune[i])
  {
    TuneRowsWellFormed();
    TuneRowsFitLimb();
    assert AdjacentBitsOrdered(QsieveTune);
    AdjacentOrderedImpliesOrdered(QsieveTune);
  }
}
