/** The cell `solve_board` branches on: `min(remaining_list, key=lambda x:
    len(x[1]))`, the entry with the fewest candidates (minimum remaining
    values), the first such entry on a tie. */
module Selection {
  import opened Py
  import opened Domains
  import opened Table

  /** The position Python's `min` settles on: it walks the list and replaces
      its current best only by a strictly smaller key, so it keeps the first
      entry of minimal size. */
  function FirstMinPos(l: seq<Entry>): (k: int)
    requires 0 < |l|
    ensures 0 <= k < |l|
    ensures forall j :: 0 <= j < |l| ==> |l[k].1| <= |l[j].1|
    ensures forall j :: 0 <= j < k ==> |l[k].1| < |l[j].1|
    decreases |l|
  {
    if |l| == 1 then 0
    else
      var k := FirstMinPos(l[..|l| - 1]);
      if |l[|l| - 1].1| < |l[k].1| then |l| - 1 else k
  }

  /** `min(l, key=lambda x: len(x[1]))`: ValueError on an empty list,
      otherwise the first entry with the fewest candidates. */
  function MinBySize(l: seq<Entry>): (r: Result<Entry>)
    ensures r.Err? <==> |l| == 0
    ensures r.Err? ==> r.error == ValueError
    ensures r.Ok? ==> r.value in l && forall e :: e in l ==> |r.value.1| <= |e.1|
    ensures r.Ok? ==> exists k :: 0 <= k < |l| && l[k] == r.value && forall j :: 0 <= j < k ==> |r.value.1| < |l[j].1|
  {
    if |l| == 0 then Err(ValueError) else Ok(l[FirstMinPos(l)])
  }

  /** On a table in index order, a tie between entries of minimal size goes
      to the lowest cell index. */
  lemma MrvTieBreak(l: seq<Entry>)
    requires Ascending(l) && 0 < |l|
    ensures forall e :: e in l && |e.1| == |MinBySize(l).value.1| ==> MinBySize(l).value.0 <= e.0
  {
    var k := FirstMinPos(l);
    forall e | e in l && |e.1| == |MinBySize(l).value.1|
      ensures MinBySize(l).value.0 <= e.0
    {
      var j :| 0 <= j < |l| && l[j] == e;
      assert !(j < k);
    }
  }

  /** On an 81-character board, the branching choice exists exactly when
      some empty cell still has a candidate, and it is an empty cell listed
      with exactly its candidates. */
  lemma MrvChoiceOnBoard(board: seq<char>)
    requires |board| == 81
    ensures InitialTable(board).Ok?
    ensures MinBySize(InitialTable(board).value).Ok? <==>
              exists i :: 0 <= i < 81 && board[i] == '0' && exists v :: Candidate(board, i, v)
    ensures MinBySize(InitialTable(board).value).Ok? ==>
              var c := MinBySize(InitialTable(board).value).value;
              0 <= c.0 < 81 && board[c.0] == '0' && forall v :: v in c.1 <==> Candidate(board, c.0, v)
  {
    MrvChoiceExists(board);
    var t := InitialTable(board).value;
    if MinBySize(t).Ok? {
      TableEntryOnBoard(board, MinBySize(t).value);
    }
  }

  /** The table of an 81-character board is non-empty exactly when some
      empty cell still has a candidate. */
  lemma MrvChoiceExists(board: seq<char>)
    requires |board| == 81
    ensures InitialTable(board).Ok?
    ensures 0 < |InitialTable(board).value| <==>
              exists i :: 0 <= i < 81 && board[i] == '0' && exists v :: Candidate(board, i, v)
  {
    TableExistsOnBoard(board);
    var t := InitialTable(board).value;
    if exists i :: 0 <= i < 81 && board[i] == '0' && exists v :: Candidate(board, i, v) {
      var i :| 0 <= i < 81 && board[i] == '0' && exists v :: Candidate(board, i, v);
      TableIndexOnBoard(board, i);
      var e :| e in t && e.0 == i;
    }
    if 0 < |t| {
      TableEntryOnBoard(board, t[0]);
      var v :| v in t[0].1;
      assert Candidate(board, t[0].0, v);
    }
  }

  /** On an 81-character board, every empty cell with a candidate has at least
      as many candidates as the chosen cell, and on a tie it does not come
      before it. */
  lemma MrvChoiceIsMinimal(board: seq<char>, i: int)
    requires |board| == 81 && 0 <= i < 81 && board[i] == '0'
    requires exists v :: Candidate(board, i, v)
    ensures InitialTable(board).Ok? && RemainingValues(i, board).Ok?
    ensures MinBySize(InitialTable(board).value).Ok?
    ensures var c := MinBySize(InitialTable(board).value).value;
            var cands := RemainingValues(i, board).value.1;
            |c.1| <= |cands| && (|c.1| == |cands| ==> c.0 <= i)
  {
    InitialTableOnBoard(board);
    RemainingValuesOnBoard(i, board);
    var t := InitialTable(board).value;
    var e := RemainingValues(i, board).value;
    var v :| Candidate(board, i, v);
    assert v in e.1;
    assert e in t;
    MrvTieBreak(t);
  }

  /** A board with no empty cell gives an empty table, on which `min`
      raises ValueError. */
  lemma FullBoardRaises(board: seq<char>)
    requires |board| == 81
    requires forall i :: 0 <= i < 81 ==> board[i] != '0'
    ensures InitialTable(board) == Ok([])
    ensures MinBySize(InitialTable(board).value) == Err(ValueError)
  {
    InitialTableOnBoard(board);
    var l := RemainingList(board).value;
    DropEmptyOfEmptySets(l);
  }
}
