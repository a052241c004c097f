/** The domain table `backtracking` builds: `remaining_values(i, board)` for
    every index of the board, in index order, with the entries that have no
    candidate filtered out; and `list_copy`, the copy `solve_board` makes of it. */
module Table {
  import opened Py
  import opened Domains

  /** The indices of a table's entries strictly increase. */
  predicate Ascending(l: seq<Entry>) {
    forall i, j :: 0 <= i < j < |l| ==> l[i].0 < l[j].0
  }

  /** `filter(lambda x: len(x[1]) != 0, l)`: the entries with at least one
      candidate, in their original order. */
  function DropEmpty(l: seq<Entry>): (r: seq<Entry>)
    ensures forall e :: e in r <==> e in l && |e.1| != 0
    ensures |r| <= |l|
    ensures Ascending(l) ==> Ascending(r)
  {
    if |l| == 0 then []
    else if |l[0].1| != 0 then [l[0]] + DropEmpty(l[1..])
    else DropEmpty(l[1..])
  }

  /** A list whose every entry has no candidate filters down to nothing. */
  lemma {:induction false} DropEmptyOfEmptySets(l: seq<Entry>)
    requires forall k :: 0 <= k < |l| ==> |l[k].1| == 0
    ensures DropEmpty(l) == []
  {
    if |l| > 0 {
      DropEmptyOfEmptySets(l[1..]);
    }
  }

  /** The filter keeps its input's order for any list: the entries of
      `DropEmpty(l)` are those of `l` at strictly increasing positions, and
      those positions are exactly the ones whose set is non-empty. */
  lemma {:induction false} DropEmptyPositions(l: seq<Entry>) returns (idx: seq<int>)
    ensures |idx| == |DropEmpty(l)|
    ensures forall i :: 0 <= i < |idx| ==> 0 <= idx[i] < |l| && DropEmpty(l)[i] == l[idx[i]]
    ensures forall i, j :: 0 <= i < j < |idx| ==> idx[i] < idx[j]
    ensures forall k :: 0 <= k < |l| ==> (k in idx <==> |l[k].1| != 0)
    decreases |l|
  {
    if |l| == 0 {
      idx := [];
    } else {
      var rest := DropEmptyPositions(l[1..]);
      idx := ConsPositions(l, DropEmpty(l[1..]), DropEmpty(l), rest);
    }
  }

  /** One step of DropEmptyPositions: from the positions kept in l[1..],
      shifted by one, and position 0 when l[0] is kept, the positions kept
      in l. */
  lemma ConsPositions(l: seq<Entry>, t: seq<Entry>, r: seq<Entry>, rest: seq<int>) returns (idx: seq<int>)
    requires 0 < |l|
    requires r == if |l[0].1| != 0 then [l[0]] + t else t
    requires |rest| == |t|
    requires forall i :: 0 <= i < |rest| ==> 0 <= rest[i] < |l[1..]| && t[i] == l[1..][rest[i]]
    requires forall i, j :: 0 <= i < j < |rest| ==> rest[i] < rest[j]
    requires forall k :: 0 <= k < |l[1..]| ==> (k in rest <==> |l[1..][k].1| != 0)
    ensures |idx| == |r|
    ensures forall i :: 0 <= i < |idx| ==> 0 <= idx[i] < |l| && r[i] == l[idx[i]]
    ensures forall i, j :: 0 <= i < j < |idx| ==> idx[i] < idx[j]
    ensures forall k :: 0 <= k < |l| ==> (k in idx <==> |l[k].1| != 0)
  {
    var shifted := ShiftPositions(l, t, rest);
    if |l[0].1| != 0 {
      idx := [0] + shifted;
      forall i | 1 <= i < |idx|
        ensures idx[i] == shifted[i - 1] && r[i] == t[i - 1]
      {
        ConsIndex(l[0], t, i);
        ConsIndex(0, shifted, i);
      }
      forall k | 0 <= k < |l|
        ensures k in idx <==> |l[k].1| != 0
      {
        assert k in idx <==> k == 0 || k in shifted;
      }
    } else {
      idx := shifted;
    }
  }

  /** The positions kept in l[1..], as positions of l: shifted by one,
      still strictly increasing, never 0, and exactly the positions 1.. of l
      whose set is non-empty. */
  lemma ShiftPositions(l: seq<Entry>, t: seq<Entry>, rest: seq<int>) returns (shifted: seq<int>)
    requires 0 < |l|
    requires |rest| == |t|
    requires forall i :: 0 <= i < |rest| ==> 0 <= rest[i] < |l[1..]| && t[i] == l[1..][rest[i]]
    requires forall i, j :: 0 <= i < j < |rest| ==> rest[i] < rest[j]
    requires forall k :: 0 <= k < |l[1..]| ==> (k in rest <==> |l[1..][k].1| != 0)
    ensures |shifted| == |rest| && 0 !in shifted
    ensures forall i :: 0 <= i < |shifted| ==> 1 <= shifted[i] < |l| && t[i] == l[shifted[i]]
    ensures forall i, j :: 0 <= i < j < |shifted| ==> shifted[i] < shifted[j]
    ensures forall k :: 1 <= k < |l| ==> (k in shifted <==> |l[k].1| != 0)
  {
    shifted := seq(|rest|, i requires 0 <= i < |rest| => rest[i] + 1);
    ShiftedMembership(l, rest, shifted);
    assert 0 !in shifted;
    forall i | 0 <= i < |shifted|
      ensures 1 <= shifted[i] < |l| && t[i] == l[shifted[i]]
    {
      assert l[1..][rest[i]] == l[shifted[i]];
    }
  }

  /** A position k >= 1 of l is among the shifted positions exactly when
      k - 1 is among the positions kept in l[1..]. */
  lemma ShiftedMembership(l: seq<Entry>, rest: seq<int>, shifted: seq<int>)
    requires 0 < |l|
    requires |shifted| == |rest| && forall i :: 0 <= i < |rest| ==> shifted[i] == rest[i] + 1
    requires forall k :: 0 <= k < |l[1..]| ==> (k in rest <==> |l[1..][k].1| != 0)
    ensures forall k :: 1 <= k < |l| ==> (k in shifted <==> |l[k].1| != 0)
  {
    forall k | 1 <= k < |l|
      ensures k in shifted <==> |l[k].1| != 0
    {
      assert l[1..][k - 1] == l[k];
      if k in shifted {
        var i :| 0 <= i < |shifted| && shifted[i] == k;
        assert rest[i] == k - 1;
      }
      if k - 1 in rest {
        var i :| 0 <= i < |rest| && rest[i] == k - 1;
        assert shifted[i] == k;
      }
    }
  }

  /** Past its head, a list built as [x] + s is s shifted by one. */
  lemma ConsIndex<T>(x: T, s: seq<T>, i: int)
    requires 1 <= i <= |s|
    ensures ([x] + s)[i] == s[i - 1]
  {
  }

  /** The table at the start of `backtracking`: one entry per index of the
      board, in order, keeping the entries that still have a candidate. */
  function InitialTable(board: seq<char>): (r: Result<seq<Entry>>)
    ensures r.Ok? <==> forall i :: 0 <= i < |board| ==> RemainingValues(i, board).Ok?
    ensures r.Err? ==> r.error == IndexError
    ensures r.Ok? ==> Ascending(r.value)
    ensures r.Ok? ==> forall e :: e in r.value <==>
                        0 <= e.0 < |board| && RemainingValues(e.0, board) == Ok(e) && |e.1| != 0
  {
    match RemainingList(board)
    case Err(e) => Err(e)
    case Ok(l) =>
      RemainingListEntries(board);
      Ok(DropEmpty(l))
  }

  /** `[remaining_values(i, board) for i in range(len(board))]`. */
  function RemainingList(board: seq<char>): (r: Result<seq<Entry>>)
    ensures r.Ok? <==> forall i :: 0 <= i < |board| ==> RemainingValues(i, board).Ok?
    ensures r.Err? ==> r.error == IndexError
    ensures r.Ok? ==> |r.value| == |board| && forall k :: 0 <= k < |board| ==> RemainingValues(k, board) == Ok(r.value[k])
  {
    var f := i => RemainingValues(i, board);
    assert forall i :: f(i) == RemainingValues(i, board);
    MapRange(f, 0, |board|)
  }

  /** The list holds, in index order, exactly the entries `remaining_values`
      gives for the indices of the board. */
  lemma RemainingListEntries(board: seq<char>)
    ensures RemainingList(board).Ok? ==> Ascending(RemainingList(board).value)
    ensures RemainingList(board).Ok? ==> forall e :: e in RemainingList(board).value <==>
              0 <= e.0 < |board| && RemainingValues(e.0, board) == Ok(e)
  {
    if RemainingList(board).Ok? {
      var l := RemainingList(board).value;
      forall e: Entry | 0 <= e.0 < |board| && RemainingValues(e.0, board) == Ok(e)
        ensures e in l
      {
        assert l[e.0] == e;
      }
    }
  }

  /** On an 81-character board the table always exists. Its entries are the
      empty cells that have at least one candidate, each with exactly its
      candidates; an assigned cell, and an empty cell left without any
      candidate, get no entry. */
  lemma InitialTableOnBoard(board: seq<char>)
    requires |board| == 81
    ensures InitialTable(board).Ok?
    ensures forall e :: e in InitialTable(board).value ==>
              0 <= e.0 < 81 && board[e.0] == '0' && forall v :: v in e.1 <==> Candidate(board, e.0, v)
    ensures forall i :: 0 <= i < 81 ==>
              ((exists e :: e in InitialTable(board).value && e.0 == i) <==>
               board[i] == '0' && exists v :: Candidate(board, i, v))
  {
    TableExistsOnBoard(board);
    forall e | e in InitialTable(board).value
      ensures 0 <= e.0 < 81 && board[e.0] == '0' && forall v :: v in e.1 <==> Candidate(board, e.0, v)
    {
      TableEntryOnBoard(board, e);
    }
    forall i | 0 <= i < 81
      ensures (exists e :: e in InitialTable(board).value && e.0 == i) <==>
              board[i] == '0' && exists v :: Candidate(board, i, v)
    {
      TableIndexOnBoard(board, i);
    }
  }

  /** Every index of an 81-character board is inside the grid, so no
      `remaining_values` call raises. */
  lemma TableExistsOnBoard(board: seq<char>)
    requires |board| == 81
    ensures InitialTable(board).Ok?
  {
    forall i | 0 <= i < 81
      ensures RemainingValues(i, board).Ok?
    {
      RemainingValuesOnBoard(i, board);
    }
  }

  /** An entry of the table is an empty cell listed with exactly its candidates. */
  lemma TableEntryOnBoard(board: seq<char>, e: Entry)
    requires |board| == 81
    ensures InitialTable(board).Ok?
    ensures e in InitialTable(board).value ==>
              0 <= e.0 < 81 && board[e.0] == '0' && forall v :: v in e.1 <==> Candidate(board, e.0, v)
  {
    TableExistsOnBoard(board);
    if e in InitialTable(board).value {
      RemainingValuesOnBoard(e.0, board);
    }
  }

  /** A cell of an 81-character board gets an entry exactly when it is empty
      and has a candidate. */
  lemma TableIndexOnBoard(board: seq<char>, i: int)
    requires |board| == 81 && 0 <= i < 81
    ensures InitialTable(board).Ok?
    ensures (exists e :: e in InitialTable(board).value && e.0 == i) <==>
            board[i] == '0' && exists v :: Candidate(board, i, v)
  {
    TableExistsOnBoard(board);
    RemainingValuesOnBoard(i, board);
    var e := RemainingValues(i, board).value;
    if board[i] == '0' && exists v :: Candidate(board, i, v) {
      var v :| Candidate(board, i, v);
      assert v in e.1;
      assert e in InitialTable(board).value;
    }
  }

  /** `list_copy`: a new list holding, for each entry, its index and a copy of
      its candidate set, in the same order. */
  method ListCopy(l: seq<Entry>) returns (r: seq<Entry>)
    ensures |r| == |l|
    ensures forall i :: 0 <= i < |l| ==> r[i].0 == l[i].0 && r[i].1 == l[i].1
  {
    r := [];
    for k := 0 to |l|
      invariant |r| == k
      invariant forall i :: 0 <= i < k ==> r[i] == l[i]
    {
      r := r + [(l[k].0, l[k].1)];
    }
  }
}
