# Sudoku domain helpers of `driver_3.py`, modelled in Dafny

`driver_3.py` reads a Sudoku puzzle as an 81-character string. The string
is row-major, with '0' for an empty cell. The file holds the building
blocks of a minimum-remaining-values backtracking solver:

- cell-index arithmetic: `index2tuple`, `tuple2index`, `topleft_tuple`
- the conversions between the string and a dictionary keyed "A1".."I9":
  `string_to_board`, `board_to_string`
- `remaining_values`: the candidate characters of one cell
- the domain table `backtracking` builds
- `list_copy`
- the `min` that `solve_board` uses to pick the cell to branch on

This project models those pieces as pure functions, plus methods where the
source loops. It proves what they compute.

Modules, one per concern:

- `Py`: the Python semantics the helpers rely on.
  - `int(a / b)` truncates toward zero.
  - Negative indices count from the end of a string.
  - `int(ch)` for one character, `str(n)` for any integer.
  - IndexError, KeyError and ValueError become `Result.Err`, so every
    error path of the source is an error value rather than a precondition.
  - A list comprehension stops at the first exception (`MapRange`).
- `Cells`: the index/tuple arithmetic and its round trips, for all
  integers, negative ones included.
- `BoardText`: `string_to_board` and `board_to_string`.
  - They report the same exception the source raises first.
  - The two round trips hold on digit boards.
- `Domains`: `remaining_values`.
  - It is stated as a function over the 27 reads the loops make, in order.
  - `ScanRemainingValues` runs the loops as written and is proved equal to
    that function.
  - The candidates are then characterised independently: the characters of
    `all_set` that no cell sharing a row, column or box holds (`Candidate`).
- `Table`: the table `backtracking` builds, its filter, and `list_copy`.
- `Selection`: `min(remaining_list, key=lambda x: len(x[1]))`.
  - `MinBySize` returns the first entry of minimal size.
  - On an empty list it returns ValueError.

Where the code departs from the usual Sudoku conventions (values 1..9, a
table that keeps dead-end cells), the model follows the code:

- The code's `all_set` is `{str(x) for x in range(9)}`, that is '0'..'8', not
  the digits 1..9.
  - '9' is therefore never a candidate (`Domains.NoNine`). Nor is '0' for a
    non-negative index, because an empty cell reads its own '0'
    (`Domains.NoZero`).
  - `Domains.NineNeverOffered` shows an empty cell that gets no candidate at
    all, on a board where no cell of its row, column or box holds '9'.
- The filter in `backtracking` (driver_3.py:130) drops every entry with an
  empty set. That includes empty cells left without any candidate, so the
  table never records a dead end (`Table.InitialTableOnBoard`).
- Domains are sets of characters read from the board string, not integers.
- `min` on an empty table raises ValueError (`Selection.FullBoardRaises`).
- There is no propagation step: `change_remaining_list` is an empty stub,
  and `solve_board` calls `exit()` on its first branch.

## Model

| member | source | states |
|---|---|---|
| `Cells.Index2Tuple` | driver_3.py:66-67 | the column is in 0..8; for a non-negative index, row * 9 + column gives the index back; a negative index gives a non-positive row; on the grid the row is in 0..8 |
| `Cells.Tuple2Index` | driver_3.py:69-70 | a pair inside the 9x9 grid gets an index in 0..80 |
| `Cells.TopLeftTuple` | driver_3.py:72-76 | each coordinate of the corner is a multiple of 3 within 3 of the cell's coordinate: below it for a non-negative coordinate, above it (truncation) for a negative one |
| `Cells.IndexRoundTrip` | driver_3.py:66-70 | index -> tuple -> index is the identity exactly for non-negative indices and negative multiples of 9 |
| `Cells.TupleRoundTrip` | driver_3.py:66-70 | tuple -> index -> tuple is the identity exactly when the column is in 0..8 and the row is non-negative or the column is 0 |
| `Cells.GridRoundTrip` | driver_3.py:66-70 | on the grid the two conversions are inverse bijections between 0..80 and 0..8 x 0..8 |
| `Cells.BoxCorner` | driver_3.py:72-76 | on the grid the corner is (row div 3 * 3, column div 3 * 3), each coordinate one of 0, 3, 6 |
| `Py.TruncDiv` | driver_3.py:66-76 | `int(a / b)` for a positive divisor: the quotient times b lies between 0 and a, within b of a, on the side of zero (truncation, not the floor, for negative a) |
| `Py.At` | driver_3.py:80-94 | `board[k]` for an index in range is the element at k mod the length, so a negative index counts from the end |
| `Py.Str` | driver_3.py:45 | `str(n)` is non-empty, all digits for a non-negative n, and a '-' followed only by digits for a negative n |
| `Py.StrValue` | driver_3.py:45 | `str(n)` writes exactly the decimal digits of abs(n), with no leading zero, after a '-' for a negative n |
| `Py.NatStr` | driver_3.py:45 | the decimal text of a natural number is non-empty and made only of digits |
| `Py.NatStrValue` | driver_3.py:45 | the digits written for a natural number denote that number, with no leading zero |
| `Py.IntOfChar` | driver_3.py:36 | `int(ch)` succeeds exactly on '0'..'9' with a value in 0..9 whose character is ch; otherwise ValueError |
| `Py.DigitRoundTrip` | driver_3.py:45 | `int(str(d)) == d` for a digit, and `str(int(ch))` gives ch back |
| `Py.MapRange` | driver_3.py:129 | a list comprehension succeeds exactly when every call does, holding each call's value at its position; otherwise it raises the exception of the first call that fails |
| `BoardText.Key` | driver_3.py:36-37 | the key of a cell names its position back, so distinct cells have distinct keys |
| `BoardText.KeyLabels` | driver_3.py:36-37 | the key of the cell in row r, column c is ROW[r] followed by COL[c] |
| `BoardText.FillFrom` | driver_3.py:36-37 | the comprehension over positions lo..80 succeeds exactly on digits; it reports IndexError or ValueError by the first failing position; its keys are exactly the cell keys from lo on, each holding the digit's value |
| `BoardText.StringToBoard` | driver_3.py:31-37 | the dictionary exists exactly for strings whose first 81 characters are digits; it has exactly the 81 keys with values 0..9, and each value's digit is the string's character at that cell; otherwise it reports the first exception |
| `BoardText.EmitFrom` | driver_3.py:42-46 | the loop from position lo succeeds exactly when every key from lo on is present (else KeyError), writing each single-digit value's character at its position |
| `BoardText.BoardToString` | driver_3.py:40-46 | the string exists exactly when all 81 keys are present (else KeyError); when each of the 81 values is in 0..9 it has length 81 and holds each cell's digit in row-major order, whatever other keys the dictionary has |
| `BoardText.StringBoardRoundTrip` | driver_3.py:31-46 | string -> dictionary -> string gives back the first 81 characters of a digit string |
| `BoardText.ReadBackCells` | driver_3.py:31-46 | reading back the string written from a digit dictionary finds the same value under every cell key |
| `BoardText.BoardStringRoundTrip` | driver_3.py:31-46 | dictionary -> string -> dictionary gives back any dictionary holding exactly the 81 keys with values 0..9 |
| `Domains.AllSetIsRange9` | driver_3.py:78 | `all_set` is exactly the strings `str(x)` for x in range(9) |
| `Domains.ScanOrder` | driver_3.py:86-94 | the loops make 27 reads |
| `Domains.ReadCells` | driver_3.py:84-94 | accumulating `data_set` over the first n reads can only fail with IndexError |
| `Domains.ScanOrderRowCol` | driver_3.py:86-88 | step i of the first loop reads the row cell (row, i) and then the column cell (i, column) |
| `Domains.ScanOrderBox` | driver_3.py:90-94 | the box loops read the cell at offset (a, b) from the corner at step 18 + 3a + b |
| `Domains.ReadCellsMeaning` | driver_3.py:84-94 | after n reads, `data_set` exists exactly when every position read is on the board, and holds exactly the characters found there |
| `Domains.ReadCellsHas` | driver_3.py:84-94 | a successful scan holds the character of each position it read |
| `Domains.ReadCellsFailsOnward` | driver_3.py:84-94 | once one read raises IndexError, the rest of the scan does too |
| `Domains.RemainingValues` | driver_3.py:79-96 | only IndexError can be raised; a result is paired with its own index and is a subset of `all_set`; an assigned cell gets the empty set |
| `Domains.ScanRemainingValues` | driver_3.py:79-96 | the early return and the three loops as written compute exactly `RemainingValues`, including where IndexError arises |
| `Domains.CollectRowCol` | driver_3.py:86-88 | the first loop collects exactly the characters of the first 18 reads, or raises IndexError when one of them does |
| `Domains.CollectBox` | driver_3.py:90-94 | the box loops extend the first loop's set to exactly the characters of all 27 reads, or raise IndexError |
| `Domains.ScanCoversUnit` | driver_3.py:83-94 | for a cell of the grid, the 27 positions read are exactly the cells sharing its row, column or box |
| `Domains.RemainingValuesOnBoard` | driver_3.py:79-96 | on an 81-character board every cell gets a result with its own index: an assigned cell gets the empty set, and an empty cell gets exactly the `all_set` characters no cell of its row, column or box holds |
| `Domains.CandidatesFromScan` | driver_3.py:84-96 | `all_set` minus the characters read over a cell's units is exactly the set of its candidates |
| `Domains.NoNine` | driver_3.py:78-96 | no successful result, for any index, contains '9' |
| `Domains.NoZero` | driver_3.py:79-96 | no successful result on a non-negative index contains '0' |
| `Domains.NineNeverOffered` | driver_3.py:78-96 | the empty first cell of a row that reads 0,1,..,8 gets no candidate, even on a board where no cell of its row, column or box holds '9' |
| `Domains.RowOfDigitsGetsNothing` | driver_3.py:78-96 | the empty first cell of a row that reads 0,1,..,8 gets no candidate on any board of at least 81 characters |
| `Domains.RowLeavesNoCandidate` | driver_3.py:78-96 | no character of `all_set` fits the first cell of such a row |
| `Table.DropEmpty` | driver_3.py:130 | the filter keeps exactly the entries with a non-empty set, never lengthens the list, and preserves ascending index order |
| `Table.DropEmptyPositions` | driver_3.py:130 | for any list, the filter's output is the input at strictly increasing positions, and those positions are exactly the ones whose set is non-empty |
| `Table.DropEmptyOfEmptySets` | driver_3.py:130 | a list of empty entries filters down to nothing |
| `Table.RemainingList` | driver_3.py:129 | the comprehension succeeds exactly when every call does (else IndexError); it then holds one entry per index, the entry at k being the result for k |
| `Table.RemainingListEntries` | driver_3.py:129 | when the comprehension succeeds, its list is in ascending index order and holds exactly the results of the board's indices |
| `Table.InitialTable` | driver_3.py:129-130 | the filtered table exists exactly when no call raises; it is in ascending index order and holds exactly the non-empty results of the board's indices |
| `Table.InitialTableOnBoard` | driver_3.py:129-130 | on an 81-character board the table exists; its entries are empty cells with exactly their candidates, and a cell gets an entry exactly when it is empty and has a candidate |
| `Table.TableEntryOnBoard` | driver_3.py:129-130 | on an 81-character board the table exists, and each of its entries is an empty cell listed with exactly its candidates |
| `Table.TableIndexOnBoard` | driver_3.py:129-130 | on an 81-character board the table exists, and a cell has an entry exactly when it is empty and has a candidate |
| `Table.ListCopy` | driver_3.py:98-104 | the copy has the same length and, at every position, the same index and the same candidate set |
| `Selection.FirstMinPos` | driver_3.py:113 | `min` settles on a position whose size is minimal and strictly smaller than that of every earlier entry |
| `Selection.MinBySize` | driver_3.py:113 | ValueError exactly on an empty list; otherwise an entry of the list with minimal size, the first such entry |
| `Selection.MrvTieBreak` | driver_3.py:113 | on a table in index order, a tie on size goes to the lowest index |
| `Selection.MrvChoiceExists` | driver_3.py:112-130 | on an 81-character board the table is non-empty exactly when some empty cell has a candidate |
| `Selection.MrvChoiceOnBoard` | driver_3.py:112-130 | on an 81-character board a choice exists exactly when some empty cell has a candidate, and it is an empty cell with exactly its candidates |
| `Selection.MrvChoiceIsMinimal` | driver_3.py:112-130 | every empty cell with a candidate has at least as many candidates as the chosen cell, and on a tie it does not precede it |
| `Selection.FullBoardRaises` | driver_3.py:112-130 | a board without an empty cell gives an empty table, on which the selection raises ValueError |

## Left out

- `print_board`, `write_solved` and the `__main__` block: console and file
  I/O only.
- `TIME_LIMIT`, `out_filename`, `src_filename`: never consulted by the
  modelled code, or used by the I/O only.
- The branch loop of `solve_board` (driver_3.py:115-124):
  - `change_order` lists a set in Python's unspecified iteration order.
  - `change_remaining_list` is an empty stub.
  - The first iteration calls `exit()`, which ends the process.
  - So there is no search to model beyond the `min` selection.
  - `backtracking`'s `list(board)` and its return value are left out for the
    same reason.
- Python's `int(index / 9)` goes through a float. Indices beyond 2^53 can
  round before truncation; the model uses exact truncating division.
- Py.IntOfChar: `int(ch)` also accepts non-ASCII Unicode digits. The model
  accepts '0'..'9' only and raises ValueError on anything else.
- `list_copy` copies each set so that the copies do not alias. Dafny sets are
  values, so the copy is modelled only as elementwise equality.
- The board is a string of characters. `remaining_values` called on the
  dictionary form, or on a list holding non-characters, is not modelled.
- BoardText.EmitFrom: the characters are stated only for values 0..9. For
  other integers, `str` writes several characters or a sign, and only
  success or KeyError is stated.
- BoardText.BoardToString: the contents are stated only when the 81 values
  are in 0..9, as above.
- BoardText.BoardStringRoundTrip: holds only for dictionaries with exactly
  the 81 keys and values 0..9. Extra keys are dropped, and other values
  change length on the way through the string.
- Domains.RemainingValuesOnBoard: the candidate characterisation is stated
  for boards of at least 81 characters and cells 0..80. On other boards only
  `Domains.RemainingValues`'s own contract and the equality with the loops
  apply.
- Domains.ScanOrder: its contract states only that there are 27 reads. The
  position read at each step is stated by `Domains.ScanOrderRowCol` and
  `Domains.ScanOrderBox`. They are kept separate so that proofs using the
  read order do not carry quantified position facts.
- Domains.ReadCells: its contract states only the exception. What the reads
  collect is stated by `Domains.ReadCellsMeaning` and `Domains.ReadCellsHas`.
- Py.Str: Python 3.11 and later raise ValueError in `str()` for an integer
  of more than 4300 digits. The model's `Str` always succeeds, so for such
  a value `board_to_string` is modelled as succeeding where Python raises.
