/** The two text conversions of a board: an 81-character row-major digit
    string, and a dictionary keyed "A1".."I9" (row letter, column digit)
    holding the integer value of each cell. */
module BoardText {
  import opened Py

  const Rows: string := "ABCDEFGHI"
  const Cols: string := "123456789"

  /** The dictionary key of the cell at row-major position p == 9 * r + c:
      the row label 'A' + r followed by the column label '1' + c, that is
      Rows[r] + Cols[c] (see KeyLabels). Distinct cells have distinct keys. */
  function Key(p: int): (k: string)
    requires 0 <= p < 81
    ensures KeyPosition(k) == p
  {
    [('A' as int + p / 9) as char, ('1' as int + p % 9) as char]
  }

  /** The position a two-character key names, read back from its labels. */
  function KeyPosition(k: string): int {
    if |k| == 2 then (k[0] as int - 'A' as int) * 9 + (k[1] as int - '1' as int) else -1
  }

  /** The key of the cell in row r, column c is Rows[r] + Cols[c]. */
  lemma KeyLabels(r: int, c: int)
    requires 0 <= r < 9 && 0 <= c < 9
    ensures Key(9 * r + c) == [Rows[r], Cols[c]]
  {
    assert Rows == ['A', 'B', 'C', 'D', 'E', 'F', 'G', 'H', 'I'];
    assert Cols == ['1', '2', '3', '4', '5', '6', '7', '8', '9'];
    assert (9 * r + c) / 9 == r && (9 * r + c) % 9 == c;
  }

  /** k is the key of one of the 81 cells. */
  predicate IsKey(k: string) {
    0 <= KeyPosition(k) < 81 && Key(KeyPosition(k)) == k
  }

  /** The first 81 characters of s are digits. */
  predicate DigitBoard(s: string) {
    81 <= |s| && forall p :: 0 <= p < 81 ==> IsDigit(s[p])
  }

  /** A dictionary holding exactly the 81 cell keys, each with a value 0..9. */
  ghost predicate DigitDict(m: map<string, int>) {
    && (forall k :: k in m <==> IsKey(k))
    && (forall p :: 0 <= p < 81 ==> Key(p) in m && 0 <= m[Key(p)] <= 9)
  }

  /** The dictionary comprehension of `string_to_board` from position lo on,
      evaluated in order: the first failing position decides the exception. */
  function FillFrom(s: string, lo: int): (r: Result<map<string, int>>)
    requires 0 <= lo <= 81
    ensures r.Ok? <==> (lo == 81 || 81 <= |s|) && forall p :: lo <= p < 81 ==> IsDigit(s[p])
    ensures r.Err? ==>
              r.error == (if exists p :: lo <= p < 81 && p < |s| && !IsDigit(s[p]) then ValueError else IndexError)
    ensures r.Ok? ==> forall k :: k in r.value <==> IsKey(k) && lo <= KeyPosition(k)
    ensures r.Ok? ==> forall p :: lo <= p < 81 && p < |s| ==>
                        Key(p) in r.value && 0 <= r.value[Key(p)] <= 9 && DigitChar(r.value[Key(p)]) == s[p]
    decreases 81 - lo
  {
    if lo == 81 then Ok(map[])
    else if |s| <= lo then Err(IndexError)
    else match IntOfChar(s[lo])
      case Err(e) => Err(e)
      case Ok(v) =>
        match FillFrom(s, lo + 1)
        case Err(e) => Err(e)
        case Ok(m) => Ok(m[Key(lo) := v])
  }

  /** `string_to_board`: the dictionary {Rows[r] + Cols[c]: int(s[9r + c])}.
      Characters after the first 81 are ignored; a short string raises
      IndexError and a non-digit raises ValueError, whichever comes first. */
  function StringToBoard(s: string): (r: Result<map<string, int>>)
    ensures r.Ok? <==> DigitBoard(s)
    ensures r.Err? ==>
              r.error == (if exists p :: 0 <= p < 81 && p < |s| && !IsDigit(s[p]) then ValueError else IndexError)
    ensures r.Ok? ==> DigitDict(r.value)
    ensures r.Ok? ==> forall p :: 0 <= p < 81 ==> DigitChar(r.value[Key(p)]) == s[p]
  {
    FillFrom(s, 0)
  }

  /** The string `board_to_string` builds from position lo on: `str` of each
      value in row-major order, KeyError at the first missing key. */
  function EmitFrom(board: map<string, int>, lo: int): (r: Result<string>)
    requires 0 <= lo <= 81
    ensures r.Ok? <==> forall p :: lo <= p < 81 ==> Key(p) in board
    ensures r.Err? ==> r.error == KeyError
    ensures r.Ok? && (forall p :: lo <= p < 81 ==> 0 <= board[Key(p)] <= 9) ==>
              |r.value| == 81 - lo &&
              forall p :: lo <= p < 81 ==> r.value[p - lo] == DigitChar(board[Key(p)])
    decreases 81 - lo
  {
    if lo == 81 then Ok("")
    else if Key(lo) !in board then Err(KeyError)
    else match EmitFrom(board, lo + 1)
      case Err(e) => Err(e)
      case Ok(rest) =>
        var out := Str(board[Key(lo)]) + rest;
        assert 0 <= board[Key(lo)] <= 9 ==> out == [DigitChar(board[Key(lo)])] + rest;
        Ok(out)
  }

  /** `board_to_string`: the 81 values, each written with `str`, in row-major
      order. Extra keys are ignored; a missing key raises KeyError. When every
      cell holds a single digit, the string is those 81 digits. */
  function BoardToString(board: map<string, int>): (r: Result<string>)
    ensures r.Ok? <==> forall p :: 0 <= p < 81 ==> Key(p) in board
    ensures r.Err? ==> r.error == KeyError
    ensures r.Ok? && (forall p :: 0 <= p < 81 ==> 0 <= board[Key(p)] <= 9) ==>
              |r.value| == 81 && forall p :: 0 <= p < 81 ==> r.value[p] == DigitChar(board[Key(p)])
  {
    EmitFrom(board, 0)
  }

  /** Two strings agreeing at each of 81 positions are equal. */
  lemma Agree81(t: string, u: string)
    requires |t| == |u| == 81
    requires forall p :: 0 <= p < 81 ==> t[p] == u[p]
    ensures t == u
  {
  }

  /** Writing out the dictionary read from s reproduces each of s's first 81 characters. */
  lemma RenderedCells(s: string)
    requires DigitBoard(s)
    ensures StringToBoard(s).Ok? && BoardToString(StringToBoard(s).value).Ok?
    ensures |BoardToString(StringToBoard(s).value).value| == 81
    ensures forall p :: 0 <= p < 81 ==> BoardToString(StringToBoard(s).value).value[p] == s[p]
  {
  }

  /** String -> dictionary -> string gives back the first 81 characters. */
  lemma StringBoardRoundTrip(s: string)
    requires DigitBoard(s)
    ensures StringToBoard(s).Ok?
    ensures BoardToString(StringToBoard(s).value) == Ok(s[..81])
  {
    RenderedCells(s);
    Agree81(BoardToString(StringToBoard(s).value).value, s[..81]);
  }

  /** Two digit dictionaries agreeing on each cell's key are equal. */
  lemma AgreeOnKeys(m: map<string, int>, m': map<string, int>)
    requires DigitDict(m) && DigitDict(m')
    requires forall p :: 0 <= p < 81 ==> m[Key(p)] == m'[Key(p)]
    ensures m == m'
  {
    forall k | k in m
      ensures m[k] == m'[k]
    {
      assert k == Key(KeyPosition(k));
    }
  }

  /** Reading back the string written from m finds m's value under each cell's key. */
  lemma ReadBackCells(m: map<string, int>)
    requires DigitDict(m)
    ensures BoardToString(m).Ok? && StringToBoard(BoardToString(m).value).Ok?
    ensures forall p :: 0 <= p < 81 ==> StringToBoard(BoardToString(m).value).value[Key(p)] == m[Key(p)]
  {
    assert forall p :: 0 <= p < 81 ==> 0 <= m[Key(p)] <= 9;
    var t := BoardToString(m).value;
    assert forall p :: 0 <= p < 81 ==> IsDigit(t[p]);
    var m' := StringToBoard(t).value;
    assert DigitDict(m');
    CellsAgree(m, m', t);
  }

  /** Two dictionaries whose digits both spell out the same 81 characters
      agree on every cell's key. */
  lemma CellsAgree(m: map<string, int>, m': map<string, int>, t: string)
    requires |t| == 81
    requires forall p :: 0 <= p < 81 ==> Key(p) in m && 0 <= m[Key(p)] <= 9 && t[p] == DigitChar(m[Key(p)])
    requires forall p :: 0 <= p < 81 ==> Key(p) in m' && 0 <= m'[Key(p)] <= 9 && DigitChar(m'[Key(p)]) == t[p]
    ensures forall p :: 0 <= p < 81 ==> m'[Key(p)] == m[Key(p)]
  {
    forall p | 0 <= p < 81
      ensures m'[Key(p)] == m[Key(p)]
    {
      DigitCharInjective(m'[Key(p)], m[Key(p)]);
    }
  }

  /** Dictionary -> string -> dictionary gives back the dictionary. */
  lemma BoardStringRoundTrip(m: map<string, int>)
    requires DigitDict(m)
    ensures BoardToString(m).Ok?
    ensures StringToBoard(BoardToString(m).value) == Ok(m)
  {
    ReadBackCells(m);
    AgreeOnKeys(StringToBoard(BoardToString(m).value).value, m);
  }
}
