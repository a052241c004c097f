/** Cell-index arithmetic of the 9x9 grid: a row-major index 0..80, a
    (row, column) pair, and the top-left corner of a cell's 3x3 box. The
    functions take any integer, as the Python helpers do. */
module Cells {
  import opened Py

  /** `index2tuple`: (int(index / 9), index % 9). Python's `%` with a positive
      divisor is never negative, like Dafny's; `int(index / 9)` truncates. */
  function Index2Tuple(index: int): (t: (int, int))
    ensures 0 <= t.1 < 9
    ensures 0 <= index ==> 0 <= t.0 && t.0 * 9 + t.1 == index
    ensures index < 0 ==> t.0 <= 0
    ensures 0 <= index < 81 ==> t.0 < 9
  {
    (TruncDiv(index, 9), index % 9)
  }

  /** `tuple2index`: the row-major index of a (row, column) pair. */
  function Tuple2Index(t: (int, int)): (index: int)
    ensures 0 <= t.0 < 9 && 0 <= t.1 < 9 ==> 0 <= index < 81
  {
    t.0 * 9 + t.1
  }

  /** `topleft_tuple`: each coordinate truncated to a multiple of 3. */
  function TopLeftTuple(t: (int, int)): (tl: (int, int))
    ensures tl.0 % 3 == 0 && tl.1 % 3 == 0
    ensures 0 <= t.0 ==> tl.0 <= t.0 < tl.0 + 3
    ensures t.0 < 0 ==> tl.0 - 3 < t.0 <= tl.0
    ensures 0 <= t.1 ==> tl.1 <= t.1 < tl.1 + 3
    ensures t.1 < 0 ==> tl.1 - 3 < t.1 <= tl.1
  {
    (TruncDiv(t.0, 3) * 3, TruncDiv(t.1, 3) * 3)
  }

  /** Two indices of the grid share a row, a column or a 3x3 box (every cell
      shares all three with itself). Row = i div 9, column = i mod 9,
      box = (row div 3, column div 3). */
  predicate SameUnit(i: int, j: int) {
    || i / 9 == j / 9
    || i % 9 == j % 9
    || (i / 9 / 3 == j / 9 / 3 && i % 9 / 3 == j % 9 / 3)
  }

  /** Index -> tuple -> index gives the index back exactly for the
      non-negative indices and the negative multiples of 9: for any other
      negative index, truncation and Python's `%` round in opposite directions. */
  lemma {:induction false} IndexRoundTrip(index: int)
    ensures Tuple2Index(Index2Tuple(index)) == index <==> (0 <= index || index % 9 == 0)
  {
    if index < 0 {
      var a := -index;
      var m, s := a / 9, a % 9;
      assert a == 9 * m + s;
      assert Index2Tuple(index).0 == -m;
      if s == 0 {
        assert index == 9 * (-m);
        assert index % 9 == 0;
      } else {
        assert index == 9 * (-m - 1) + (9 - s);
        assert index % 9 == 9 - s;
        assert Tuple2Index(Index2Tuple(index)) == -9 * m + 9 - s != index;
      }
    }
  }

  /** Tuple -> index -> tuple gives the pair back exactly when the column is
      in 0..8 and the row is non-negative or the column is 0. */
  lemma {:induction false} TupleRoundTrip(r: int, c: int)
    ensures Index2Tuple(Tuple2Index((r, c))) == (r, c) <==> (0 <= c < 9 && (0 <= r || c == 0))
  {
    var i := r * 9 + c;
    if 0 <= c < 9 {
      if 0 <= r {
        assert i / 9 == r && i % 9 == c;
      } else if c == 0 {
        assert (-i) / 9 == -r;
      } else {
        assert (-i) == 9 * (-r - 1) + (9 - c);
        assert (-i) / 9 == -r - 1;
        assert Index2Tuple(i).0 == r + 1;
      }
    }
  }

  /** On the grid, the two conversions are mutually inverse bijections
      between 0..80 and 0..8 x 0..8. */
  lemma GridRoundTrip(index: int, r: int, c: int)
    ensures 0 <= index < 81 ==>
              var t := Index2Tuple(index);
              0 <= t.0 < 9 && 0 <= t.1 < 9 && Tuple2Index(t) == index
    ensures 0 <= r < 9 && 0 <= c < 9 ==>
              0 <= Tuple2Index((r, c)) < 81 && Index2Tuple(Tuple2Index((r, c))) == (r, c)
  {
    IndexRoundTrip(index);
    TupleRoundTrip(r, c);
  }

  /** Dividing a * 9 + b by 9, for a column b in 0..8, gives back a and b. */
  lemma DivMod9(a: int, b: int)
    requires 0 <= b < 9
    ensures (a * 9 + b) / 9 == a && (a * 9 + b) % 9 == b
  {
  }

  /** On the grid, the corner of a cell's box is (row div 3 * 3, column div 3 * 3),
      one of 0, 3, 6 in each coordinate. */
  lemma BoxCorner(r: int, c: int)
    requires 0 <= r < 9 && 0 <= c < 9
    ensures TopLeftTuple((r, c)) == (r / 3 * 3, c / 3 * 3)
    ensures TopLeftTuple((r, c)).0 in {0, 3, 6} && TopLeftTuple((r, c)).1 in {0, 3, 6}
  {
  }
}
