/** Candidate values of one cell. A board here is the puzzle as a string
    (one character per cell, '0' for an empty cell); a cell's candidates are
    the characters of `all_set` that no cell of its row, column or 3x3 box
    holds. */
module Domains {
  import opened Py
  import opened Cells

  /** One entry of the domain table: a cell index and its candidate characters. */
  type Entry = (int, set<char>)

  /** `all_set`: the strings str(x) for x in range(9), that is '0'..'8'.
      '9' is not among them, so '9' is never a candidate. */
  const AllSet: set<char> := {'0', '1', '2', '3', '4', '5', '6', '7', '8'}

  /** `all_set` is exactly the set of str(x) for x in range(9). */
  lemma AllSetIsRange9()
    ensures forall ch :: ch in AllSet <==> exists x :: 0 <= x < 9 && Str(x) == [ch]
  {
    forall ch | ch in AllSet
      ensures exists x :: 0 <= x < 9 && Str(x) == [ch]
    {
      var x := ch as int - '0' as int;
      assert Str(x) == [DigitChar(x)];
    }
  }

  /** The position `remaining_values` reads at step j (0..26) of its scan of
      cell `index`: steps 2i and 2i + 1 of the first loop read the row cell
      (row, i) and the column cell (i, column); step 18 + 3a + b of the box
      loops reads the cell at offset (a, b) from the box's top-left corner. */
  function ScanPos(index: int, j: int): int {
    var t := Index2Tuple(index);
    if j < 18 then
      if j % 2 == 0 then Tuple2Index((t.0, j / 2)) else Tuple2Index((j / 2, t.1))
    else
      var tl := TopLeftTuple(t);
      Tuple2Index((tl.0 + (j - 18) / 3, tl.1 + (j - 18) % 3))
  }

  /** The 27 positions `remaining_values` reads for an empty cell, in order. */
  function ScanOrder(index: int): (ps: seq<int>)
    ensures |ps| == 27
  {
    seq(27, j => ScanPos(index, j))
  }

  /** Where the scan reads in the first loop, step i. The step number n ==
      2 * i is passed in only so that callers can name the step as a plain
      variable, which keeps the solver from unfolding the arithmetic; it adds
      nothing to the statement. */
  lemma ScanOrderRowCol(index: int, i: int, n: int)
    requires 0 <= i < 9 && n == 2 * i
    ensures 0 <= n && n + 1 < 18
    ensures ScanOrder(index)[n] == Tuple2Index((Index2Tuple(index).0, i))
    ensures ScanOrder(index)[n + 1] == Tuple2Index((i, Index2Tuple(index).1))
  {
    assert ScanOrder(index)[n] == ScanPos(index, n);
    assert ScanOrder(index)[n + 1] == ScanPos(index, n + 1);
  }

  /** Where the scan reads in the box loops, at offset (a, b) from the corner. */
  lemma ScanOrderBox(index: int, a: int, b: int)
    requires 0 <= a < 3 && 0 <= b < 3
    ensures var tl := TopLeftTuple(Index2Tuple(index));
            ScanOrder(index)[18 + 3 * a + b] == Tuple2Index((tl.0 + a, tl.1 + b))
  {
    DivMod3(a, b);
    assert ScanOrder(index)[18 + 3 * a + b] == ScanPos(index, 18 + 3 * a + b);
  }

  /** Dividing 3 * a + b by 3, for b in 0..2, gives back a and b. */
  lemma DivMod3(a: int, b: int)
    requires 0 <= b < 3
    ensures (3 * a + b) / 3 == a && (3 * a + b) % 3 == b
  {
  }

  /** ScanOrderBox in the box loops' own coordinates: cell (i, j) of the box
      is read at step 18 + 3 * (i - corner row) + (j - corner column). */
  lemma ScanOrderBoxCell(index: int, i: int, j: int, n: int)
    requires var tl := TopLeftTuple(Index2Tuple(index));
             tl.0 <= i < tl.0 + 3 && tl.1 <= j < tl.1 + 3 && n == 18 + 3 * (i - tl.0) + (j - tl.1)
    ensures 0 <= n < 27 && ScanOrder(index)[n] == Tuple2Index((i, j))
  {
    var tl := TopLeftTuple(Index2Tuple(index));
    ScanOrderBox(index, i - tl.0, j - tl.1);
    assert (tl.0 + (i - tl.0), tl.1 + (j - tl.1)) == (i, j);
  }

  /** The characters `data_set` holds after the first n reads of positions
      ps, or IndexError as soon as one of those reads falls outside the board. */
  function ReadCells(board: seq<char>, ps: seq<int>, n: int): (r: Result<set<char>>)
    requires 0 <= n <= |ps|
    ensures r.Err? ==> r.error == IndexError
    decreases n
  {
    if n == 0 then Ok({})
    else match ReadCells(board, ps, n - 1)
      case Err(e) => Err(e)
      case Ok(data) =>
        if InRange(board, ps[n - 1]) then Ok(data + {At(board, ps[n - 1])}) else Err(IndexError)
  }

  /** One more read: the character at the next position joins `data_set`, or
      IndexError ends the scan. */
  lemma ReadCellsStep(board: seq<char>, ps: seq<int>, n: int, data: set<char>)
    requires 0 <= n < |ps| && ReadCells(board, ps, n) == Ok(data)
    ensures InRange(board, ps[n]) ==> ReadCells(board, ps, n + 1) == Ok(data + {At(board, ps[n])})
    ensures !InRange(board, ps[n]) ==> ReadCells(board, ps, n + 1) == Err(IndexError)
  {
  }

  /** After n reads, `data_set` is defined exactly when every read position is
      on the board, and then holds exactly the characters found there. */
  lemma {:induction false} ReadCellsMeaning(board: seq<char>, ps: seq<int>, n: int)
    requires 0 <= n <= |ps|
    ensures ReadCells(board, ps, n).Ok? <==> forall k :: 0 <= k < n ==> InRange(board, ps[k])
    ensures ReadCells(board, ps, n).Ok? ==>
              forall ch :: ch in ReadCells(board, ps, n).value <==>
                exists k :: 0 <= k < n && InRange(board, ps[k]) && At(board, ps[k]) == ch
    decreases n
  {
    if n > 0 {
      ReadCellsMeaning(board, ps, n - 1);
    }
  }

  /** A successful run of n reads holds the character found at each read position. */
  lemma {:induction false} ReadCellsHas(board: seq<char>, ps: seq<int>, n: int, k: int)
    requires 0 <= k < n <= |ps|
    requires ReadCells(board, ps, n).Ok?
    ensures InRange(board, ps[k]) && At(board, ps[k]) in ReadCells(board, ps, n).value
    decreases n
  {
    if k < n - 1 {
      ReadCellsHas(board, ps, n - 1, k);
    }
  }

  /** Once a read fails, every longer run of reads fails too. */
  lemma {:induction false} ReadCellsFailsOnward(board: seq<char>, ps: seq<int>, n: int, m: int)
    requires 0 <= n <= m <= |ps|
    requires ReadCells(board, ps, n).Err?
    ensures ReadCells(board, ps, m).Err?
    decreases m - n
  {
    if n < m {
      ReadCellsFailsOnward(board, ps, n + 1, m);
    }
  }

  /** `remaining_values(index, board)`: (index, set()) for an assigned cell,
      otherwise (index, all_set minus every character read in the cell's row,
      column and box). A read outside the board raises IndexError. */
  function RemainingValues(index: int, board: seq<char>): (r: Result<Entry>)
    ensures r.Err? ==> r.error == IndexError
    ensures r.Ok? ==> r.value.0 == index && r.value.1 <= AllSet
    ensures InRange(board, index) && At(board, index) != '0' ==> r == Ok((index, {}))
  {
    if !InRange(board, index) then Err(IndexError)
    else if At(board, index) != '0' then Ok((index, {}))
    else match ReadCells(board, ScanOrder(index), 27)
      case Err(e) => Err(e)
      case Ok(data) => Ok((index, AllSet - data))
  }

  /** `remaining_values` as the source runs it: the early return for an
      assigned cell, one loop over the row and column, then two nested loops
      over the box, collecting `data_set` and raising IndexError at the first
      read outside the board. */
  method ScanRemainingValues(index: int, board: seq<char>) returns (r: Result<Entry>)
    ensures r == RemainingValues(index, board)
  {
    if !InRange(board, index) {
      return Err(IndexError);
    }
    if At(board, index) != '0' {
      return Ok((index, {}));
    }
    var rowCol := CollectRowCol(index, board);
    if rowCol.Err? {
      ReadCellsFailsOnward(board, ScanOrder(index), 18, 27);
      return Err(IndexError);
    }
    var all := CollectBox(index, board, rowCol.value);
    if all.Err? {
      return Err(IndexError);
    }
    return Ok((index, AllSet - all.value));
  }

  /** The first loop of `remaining_values`: for i in 0..8, read the row cell
      (row, i) and then the column cell (i, column). */
  method CollectRowCol(index: int, board: seq<char>) returns (r: Result<set<char>>)
    ensures r == ReadCells(board, ScanOrder(index), 18)
  {
    ghost var scan := ScanOrder(index);
    ghost var n := 0;
    var pos := Index2Tuple(index);
    var data: set<char> := {};
    for i := 0 to 9
      invariant n == 2 * i
      invariant ReadCells(board, scan, n) == Ok(data)
    {
      ScanOrderRowCol(index, i, n);
      var p := Tuple2Index((pos.0, i));
      ReadCellsStep(board, scan, n, data);
      if !InRange(board, p) {
        ReadCellsFailsOnward(board, scan, n + 1, 18);
        return Err(IndexError);
      }
      data := data + {At(board, p)};
      n := n + 1;
      var q := Tuple2Index((i, pos.1));
      ReadCellsStep(board, scan, n, data);
      if !InRange(board, q) {
        ReadCellsFailsOnward(board, scan, n + 1, 18);
        return Err(IndexError);
      }
      data := data + {At(board, q)};
      n := n + 1;
    }
    return Ok(data);
  }

  /** The nested box loops of `remaining_values`, continuing from the
      characters the first loop collected: rows then columns of the box,
      starting at its top-left corner. */
  method CollectBox(index: int, board: seq<char>, rowCol: set<char>) returns (r: Result<set<char>>)
    requires ReadCells(board, ScanOrder(index), 18) == Ok(rowCol)
    ensures r == ReadCells(board, ScanOrder(index), 27)
  {
    ghost var scan := ScanOrder(index);
    ghost var n := 18;
    var data := rowCol;
    var tl := TopLeftTuple(Index2Tuple(index));
    for i := tl.0 to tl.0 + 3
      invariant n == 18 + 3 * (i - tl.0)
      invariant ReadCells(board, scan, n) == Ok(data)
    {
      for j := tl.1 to tl.1 + 3
        invariant n == 18 + 3 * (i - tl.0) + (j - tl.1)
        invariant ReadCells(board, scan, n) == Ok(data)
      {
        ScanOrderBoxCell(index, i, j, n);
        var p := Tuple2Index((i, j));
        ReadCellsStep(board, scan, n, data);
        if !InRange(board, p) {
          ReadCellsFailsOnward(board, scan, n + 1, 27);
          return Err(IndexError);
        }
        data := data + {At(board, p)};
        n := n + 1;
      }
    }
    return Ok(data);
  }

  /** No cell sharing a row, column or box with `index` holds v. */
  predicate Fits(board: seq<char>, index: int, v: char)
    requires 81 <= |board|
  {
    forall k :: 0 <= k < 81 && SameUnit(index, k) ==> board[k] != v
  }

  /** v may still be written in cell `index`: it belongs to `all_set` and fits there. */
  predicate Candidate(board: seq<char>, index: int, v: char)
    requires 81 <= |board|
  {
    v in AllSet && Fits(board, index, v)
  }

  /** For a cell of the grid, each scanned position is a cell sharing its
      row, column or box. */
  lemma ScanReadsUnit(index: int, j: int)
    requires 0 <= index < 81 && 0 <= j < 27
    ensures 0 <= ScanOrder(index)[j] < 81 && SameUnit(index, ScanOrder(index)[j])
  {
    if j < 18 {
      var i := j / 2;
      ScanOrderRowCol(index, i, 2 * i);
      RowColCellsInUnit(index, i);
      assert j == 2 * i || j == 2 * i + 1;
    } else {
      var a, b := (j - 18) / 3, (j - 18) % 3;
      assert j == 18 + 3 * a + b;
      ScanOrderBox(index, a, b);
      BoxCellInUnit(index, a, b);
    }
  }

  /** The row cell and the column cell read at step i of the first loop share
      the row, resp. the column, of the cell. */
  lemma RowColCellsInUnit(index: int, i: int)
    requires 0 <= index < 81 && 0 <= i < 9
    ensures var t := Index2Tuple(index);
            var p, q := Tuple2Index((t.0, i)), Tuple2Index((i, t.1));
            0 <= p < 81 && SameUnit(index, p) && 0 <= q < 81 && SameUnit(index, q)
  {
    var r, c := index / 9, index % 9;
    assert Index2Tuple(index) == (r, c);
    DivMod9(r, i);
    DivMod9(i, c);
  }

  /** The cell at offset (a, b) from the box corner shares the cell's box. */
  lemma BoxCellInUnit(index: int, a: int, b: int)
    requires 0 <= index < 81 && 0 <= a < 3 && 0 <= b < 3
    ensures var tl := TopLeftTuple(Index2Tuple(index));
            var p := Tuple2Index((tl.0 + a, tl.1 + b));
            0 <= p < 81 && SameUnit(index, p)
  {
    var r, c := index / 9, index % 9;
    assert Index2Tuple(index) == (r, c);
    BoxCorner(r, c);
    var x, y := r / 3 * 3 + a, c / 3 * 3 + b;
    DivMod9(x, y);
    SameThird(r, a);
    SameThird(c, b);
  }

  /** Moving at most 2 from a multiple of 3 below a stays in a's third. */
  lemma SameThird(r: int, a: int)
    requires 0 <= r && 0 <= a < 3
    ensures (r / 3 * 3 + a) / 3 == r / 3
  {
  }

  /** For a cell of the grid, each cell sharing its row, column or box is
      scanned: a row cell at step 2 * column, a column cell at step 2 * row + 1,
      a box cell at 18 + 3 * (row offset) + (column offset). */
  lemma UnitIsScanned(index: int, k: int)
    requires 0 <= index < 81 && 0 <= k < 81 && SameUnit(index, k)
    ensures exists j :: 0 <= j < 27 && ScanOrder(index)[j] == k
  {
    if k / 9 == index / 9 {
      RowColCellsAre(index, k);
      ScanOrderRowCol(index, k % 9, 2 * (k % 9));
      assert ScanOrder(index)[2 * (k % 9)] == k;
    } else if k % 9 == index % 9 {
      RowColCellsAre(index, k);
      ScanOrderRowCol(index, k / 9, 2 * (k / 9));
      assert ScanOrder(index)[2 * (k / 9) + 1] == k;
    } else {
      var a, b := BoxOffset(index, k);
      ScanOrderBox(index, a, b);
      assert ScanOrder(index)[18 + 3 * a + b] == k;
    }
  }

  /** A cell in the row of `index` is read at the step of its column, a cell
      in its column at the step of its row. */
  lemma RowColCellsAre(index: int, k: int)
    requires 0 <= index < 81 && 0 <= k < 81
    ensures k / 9 == index / 9 ==> Tuple2Index((Index2Tuple(index).0, k % 9)) == k
    ensures k % 9 == index % 9 ==> Tuple2Index((k / 9, Index2Tuple(index).1)) == k
  {
    assert Index2Tuple(index) == (index / 9, index % 9);
  }

  /** A cell in the box of `index` sits at an offset (a, b) in 0..2 x 0..2
      from the box's top-left corner. */
  lemma BoxOffset(index: int, k: int) returns (a: int, b: int)
    requires 0 <= index < 81 && 0 <= k < 81
    requires index / 9 / 3 == k / 9 / 3 && index % 9 / 3 == k % 9 / 3
    ensures 0 <= a < 3 && 0 <= b < 3
    ensures var tl := TopLeftTuple(Index2Tuple(index));
            Tuple2Index((tl.0 + a, tl.1 + b)) == k
  {
    var r, c := index / 9, index % 9;
    assert Index2Tuple(index) == (r, c);
    BoxCorner(r, c);
    a, b := k / 9 - r / 3 * 3, k % 9 - c / 3 * 3;
  }

  /** For a cell of the grid, the scanned positions are exactly the 21 cells
      sharing its row, column or box (itself included), some read twice. */
  lemma ScanCoversUnit(index: int)
    requires 0 <= index < 81
    ensures forall j :: 0 <= j < 27 ==> 0 <= ScanOrder(index)[j] < 81 && SameUnit(index, ScanOrder(index)[j])
    ensures forall k :: 0 <= k < 81 && SameUnit(index, k) ==> exists j :: 0 <= j < 27 && ScanOrder(index)[j] == k
  {
    forall j | 0 <= j < 27
      ensures 0 <= ScanOrder(index)[j] < 81 && SameUnit(index, ScanOrder(index)[j])
    {
      ScanReadsUnit(index, j);
    }
    forall k | 0 <= k < 81 && SameUnit(index, k)
      ensures exists j :: 0 <= j < 27 && ScanOrder(index)[j] == k
    {
      UnitIsScanned(index, k);
    }
  }

  /** On a board of at least 81 characters, every cell of the grid yields a
      result; an assigned cell has no candidates, and an empty cell's
      candidates are exactly the `all_set` characters that no cell of its row,
      column or box holds. */
  lemma RemainingValuesOnBoard(index: int, board: seq<char>)
    requires 81 <= |board| && 0 <= index < 81
    ensures RemainingValues(index, board).Ok?
    ensures RemainingValues(index, board).value.0 == index
    ensures board[index] != '0' ==> RemainingValues(index, board).value.1 == {}
    ensures board[index] == '0' ==>
              forall v :: v in RemainingValues(index, board).value.1 <==> Candidate(board, index, v)
  {
    var scan := ScanOrder(index);
    ScanCoversUnit(index);
    ReadCellsMeaning(board, scan, 27);
    if board[index] == '0' {
      CandidatesFromScan(board, index, scan, ReadCells(board, scan, 27).value);
    }
  }

  /** If 27 reads cover exactly the cells sharing a unit with `index` and
      collect `data`, then `all_set - data` are exactly the candidates. */
  lemma CandidatesFromScan(board: seq<char>, index: int, scan: seq<int>, data: set<char>)
    requires 81 <= |board| && |scan| == 27
    requires forall j :: 0 <= j < 27 ==> 0 <= scan[j] < 81 && SameUnit(index, scan[j])
    requires forall k :: 0 <= k < 81 && SameUnit(index, k) ==> exists j :: 0 <= j < 27 && scan[j] == k
    requires forall ch :: ch in data <==> exists j :: 0 <= j < 27 && InRange(board, scan[j]) && At(board, scan[j]) == ch
    ensures forall v :: v in AllSet - data <==> Candidate(board, index, v)
  {
    forall v
      ensures v in AllSet - data <==> Candidate(board, index, v)
    {
      if v in AllSet && v in data {
        var j :| 0 <= j < 27 && InRange(board, scan[j]) && At(board, scan[j]) == v;
        assert board[scan[j]] == v;
      }
      if v in AllSet && !Candidate(board, index, v) {
        var k :| 0 <= k < 81 && SameUnit(index, k) && board[k] == v;
        var j :| 0 <= j < 27 && scan[j] == k;
        assert At(board, scan[j]) == v;
      }
    }
  }

  /** '9' is never a candidate, for any index: it is not in `all_set`. */
  lemma NoNine(index: int, board: seq<char>)
    requires RemainingValues(index, board).Ok?
    ensures '9' !in RemainingValues(index, board).value.1
  {
    var e := RemainingValues(index, board).value;
    assert '9' !in AllSet;
    assert e.1 <= AllSet;
  }

  /** '0' is never a candidate of a non-negative index: an empty cell reads
      its own '0' as part of its row. A negative index counts from the end of
      the board, where its own position need not be among the cells scanned
      (index -1 on a 100-character board reads board[99] but scans row 0). */
  lemma NoZero(index: int, board: seq<char>)
    requires 0 <= index
    requires RemainingValues(index, board).Ok?
    ensures '0' !in RemainingValues(index, board).value.1
  {
    if At(board, index) == '0' {
      var scan := ScanOrder(index);
      var t := Index2Tuple(index);
      ScanOrderRowCol(index, t.1, 2 * t.1);
      assert scan[2 * t.1] == index;
      ReadCellsHas(board, scan, 27, 2 * t.1);
    }
  }

  /** Because `all_set` stops at '8', an empty cell at the start of a row
      that already holds '1'..'8' gets no candidate at all, even when no cell
      of its row, column or box holds '9', so that '9' fits there. */
  lemma NineNeverOffered(board: seq<char>, r: int)
    requires 81 <= |board| && 0 <= r < 9
    requires forall i :: 0 <= i < 9 ==> board[9 * r + i] == DigitChar(i)
    requires Fits(board, 9 * r, '9')
    ensures RemainingValues(9 * r, board) == Ok((9 * r, {}))
  {
    RowOfDigitsGetsNothing(board, r);
  }

  /** An empty cell at the start of a row reading 0, 1, .., 8 gets no candidate. */
  lemma RowOfDigitsGetsNothing(board: seq<char>, r: int)
    requires 81 <= |board| && 0 <= r < 9
    requires forall i :: 0 <= i < 9 ==> board[9 * r + i] == DigitChar(i)
    ensures RemainingValues(9 * r, board) == Ok((9 * r, {}))
  {
    RemainingValuesOnBoard(9 * r, board);
    RowLeavesNoCandidate(board, r);
    var cands := RemainingValues(9 * r, board).value.1;
    assert forall v :: v !in cands;
  }

  /** No character of `all_set` is a candidate for the first cell of a row
      holding '0'..'8' in its first nine cells. */
  lemma RowLeavesNoCandidate(board: seq<char>, r: int)
    requires 81 <= |board| && 0 <= r < 9
    requires forall i :: 0 <= i < 9 ==> board[9 * r + i] == DigitChar(i)
    ensures forall v :: !Candidate(board, 9 * r, v)
  {
    forall v | v in AllSet
      ensures !Candidate(board, 9 * r, v)
    {
      var x := v as int - '0' as int;
      assert 0 <= x < 9 && DigitChar(x) == v;
      DivMod9(r, 0);
      DivMod9(r, x);
      assert board[9 * r + x] == v && SameUnit(9 * r, 9 * r + x);
    }
  }
}
