# Sudoku by dancing links, in Dafny

This project models the `grid` class of a Sudoku solver that treats the puzzle as an exact
cover problem and solves it with Knuth's dancing links. The matrix has 729 rows, one for each
candidate "digit n in cell (r, c)". It has 324 constraint columns in four families of 81:

- cell filled;
- grid row holds digit;
- grid column holds digit;
- box holds digit.

Every row has exactly one node in each family. The nodes are threaded into circular doubly
linked lists: one ring of columns closed by a `header`, one horizontal ring per matrix row, and
one vertical ring per column through its column node. Each column node keeps a `size`.

The model has these parts:

- `Encoding`: the index arithmetic.
  - `MAX_ROWS` and `MAX_COLS`.
  - The four column offsets `initMatrix` computes for a row.
  - The clue encoding of `parseInput`.
  - The decoding and board filling of `print`.
- `Layout`: where every node lives in one node store.
  - The header is node 0.
  - Column `j` (the column named `j`) is node `j + 1`.
  - The family-k node of matrix row `i` is node `325 + 4i + k`.
  - A pointer becomes an index, and the null of the matrix becomes `Null = -1`.
- `Rings`: rings over index links.
  - The splice `x->pred->succ = x->succ; x->succ->pred = x->pred` and its undo.
  - Lemmas about them.
- `Dlx`: the node store as a value (one sequence per field) and its well-formedness `Wf`.
  - `Wf` relates the store to a ghost abstraction: every column's vertical list, and the live columns in ring order.
  - The specification functions of `coverCol` and `uncoverCol`.
  - The round trip "uncover after cover restores every link and every size".
  - Covering a live column keeps the store well formed.
- `Plans`: the intermediate states that the nested loops of `coverCol` and `uncoverCol` step through.
- `Selection`: covering all the columns of one row (`coverClue`, and the row loop of `search`), and the choice `findSmallest` makes.
- `Build`: what the constructor and `initMatrix` produce.
  - Every column's vertical ring holds its matrix entries top to bottom, and its size counts them.
  - The columns are in order in the header ring.
  - The resulting store is well formed with every column live.
- `Sudoku.Grid`: the class.
  - The node fields are arrays: `left`, `right`, `up`, `down`, `col`, `row`, and `size` per column node.
  - It also holds `matrix`, `output` and `count` (the class's own `size` member).
  - Its methods follow the source statement by statement.
  - Each method is proved against the specification functions above.

Each column holds nine entries: 729 rows of four entries spread over 324 columns (`MAX_ROWS`
and `MAX_COLS` in grid.h). `Build.ColumnCensus` names the nine rows of every column, and the
constructor leaves every column's `size` at 9.

## Model

| member | source | states |
|---|---|---|
| Encoding.ColumnMeaning | grid.cpp:338-345 | The four offsets of row i are the cell (R, C), row-digit (R, n), column-digit (C, n) and box-digit (Box(R, C), n) constraints of the candidate i encodes |
| Encoding.OffsetBands | grid.cpp:338-345 | The family-k offset of every row lies in the band [81k, 81k + 81) |
| Encoding.DecodeEncode | grid.cpp:182 | For 1 <= n, r, c <= 9 the clue row is in [0, 729), and print's decoding of it gives back (r - 1, c - 1, n) |
| Encoding.EncodeDecode | grid.cpp:362-364 | Every matrix row decodes to a cell and digit in range whose clue encoding is that row again |
| Encoding.CellEmpty | grid.cpp:356-365 | A cell of the printed board is 0 exactly when no picked row lands on it |
| Encoding.CellShows | grid.cpp:360-365 | A picked row that no later row overwrites shows its digit in its cell |
| Encoding.CellOfClue | grid.cpp:182 | The clue (n, r, c) shows n at cell (r - 1, c - 1) unless a later row lands there |
| Layout.RowStepFacts | grid.cpp:73-104 | Stepping right along a row stays in the row, moves one family on, and comes back after four steps |
| Layout.ColumnsOfRowDistinct | grid.cpp:338-345 | Two nodes of one row share a column only if they are the same node |
| Layout.ClueNode | grid.cpp:182-183 | The node parseInput takes, matrix[row][row / 9], is the first node of the clue row, and that row decodes to the clue |
| Rings.SpliceRing | grid.cpp:273-274 | Splicing a member out of a ring leaves a ring of the other members in order, and writes only its neighbours' links |
| Rings.RestoreSplice | grid.cpp:296-297 | Restoring a node just spliced out gives back exactly the links before |
| Rings.LinkedRing | grid.cpp:85-101 | Linking a buffer of distinct nodes each to its neighbours, wrapping around, makes a ring headed by its first node |
| Dlx.UnlinkStep | grid.cpp:273-275 | Unlinking a listed node removes it from its column's list, keeps every list a ring whose size is its length, leaves the row links alone, and relinking undoes it |
| Dlx.CoverSeqAt | grid.cpp:267-279 | coverCol unlinks, in order, the three other nodes of each row of the column, rows top to bottom and each row left to right |
| Dlx.UncoverSeqReverse | grid.cpp:290-302 | uncoverCol relinks exactly the nodes coverCol unlinked, in the reverse order |
| Dlx.RelinkUndoesUnlink | grid.cpp:290-302 | Relinking the nodes in uncover order after unlinking them in cover order gives back the store |
| Dlx.RoundTrip | grid.cpp:288-305 | uncoverCol(c) right after coverCol(c) on a well-formed store restores every link and every size |
| Dlx.CoverWf | grid.cpp:263-280 | Covering a live column gives a well-formed store for the lists without the column's rows and the ring without the column |
| Dlx.UnlinkLeaves | grid.cpp:273-274 | An unlink step writes the vertical links of nothing but the removed node's two neighbours, so the removed node and every node outside its list keep theirs |
| Dlx.CoverKeepsUnlinked | grid.cpp:267-279 | During coverCol, no later unlink step writes to a node already taken out, so each keeps the vertical links it had when taken out |
| Dlx.HSpliceKeepsOwn | grid.cpp:263-264 | Taking a live column out of the column ring rewrites only its neighbours' horizontal links, never the column's own |
| Dlx.CoverKeepsDetached | grid.cpp:255-280 | After coverCol the column keeps its own left and right links and its whole vertical ring, and every node taken out still points at the neighbours it had when taken out, ready to be put back |
| Dlx.ClosedAfterCover | grid.cpp:267-279 | After a cover, every row met in a live column still has all four nodes in live columns |
| Plans.CoverPlanFor | grid.cpp:267-279 | The store after each step of coverCol's nested loops is the cover specification applied to a prefix of its node sequence |
| Plans.UncoverPlanFor | grid.cpp:290-302 | The store after each step of uncoverCol's nested loops, ending at the store before the cover |
| Plans.CoverReady | grid.cpp:263-280 | A live column of a well-formed store can be covered by the source's loops, ending in the cover specification's store, which is well formed |
| Plans.UncoverReady | grid.cpp:288-305 | The uncover loops run from the covered store back to the store before the cover |
| Selection.RowColumnsLive | grid.cpp:246-252 | The four columns of a live row are live and distinct |
| Selection.CoverRowAt | grid.cpp:246-252 | Covering the first m columns of a live row keeps the store well formed and takes exactly those m columns out of the ring |
| Selection.CoverWholeRow | grid.cpp:246-252 | Covering a live row takes exactly its four columns out of the ring and keeps the store well formed |
| Selection.ColumnRow | grid.cpp:206-217 | A row met in the covered column is live, its first column is that column, and covering its row shortens the ring by four |
| Selection.RingWalk | grid.cpp:313-322 | Walking right from the header visits the live columns in ring order, and each one's size is the length of its list |
| Build.EntryFacts | grid.cpp:336-346 | A non-null matrix entry is the node of that row in that column, and each node of a row is the entry in its column |
| Build.FoundStep | grid.cpp:77-84 | Scanning a row left to right meets its four nodes in family order |
| Build.MembersOrdered | grid.cpp:112-123 | The entries of a column's buffer are data nodes of that column in increasing row order |
| Build.MembersComplete | grid.cpp:112-123 | Every data node of the column is in its buffer |
| Build.MembersDistinct | grid.cpp:112-123 | A column's entries are distinct data nodes and never the column node |
| Build.OffsetsOf | grid.cpp:338-345 | Matrix row 81 R + 9 C + d has its cell, row-digit, column-digit and box-digit constraints at 9 R + C, 81 + 9 R + d, 162 + 9 C + d and 243 + 9 Box(R, C) + d |
| Build.HitIn | grid.cpp:338-345 | Each of the nine rows Hit(k, b, d, 0..8) has its family-k constraint in column 81 k + 9 b + d |
| Build.HitOnly | grid.cpp:338-345 | Every row whose family-k constraint is column 81 k + 9 b + d is one of those nine rows |
| Build.HitsOrdered | grid.cpp:338-345 | The nine rows of a column are listed top to bottom |
| Build.ColumnCensus | grid.cpp:108-123 | The list the constructor builds for column j is exactly the nodes of its nine rows, top to bottom, so every column holds nine entries |
| Build.BuiltSizes | grid.cpp:115-121 | After construction every column's size is 9 |
| Build.MembersApart | grid.cpp:108-123 | Two different columns share no entry |
| Build.KeepColumn | grid.cpp:108-141 | Linking column j leaves the ring of every other column as it was |
| Build.BuiltRing | grid.cpp:40-66 | After construction the header ring is header, column 0, ..., column 323, header, in both directions |
| Build.BuiltLists | grid.cpp:108-142 | After construction every column's vertical ring runs through its entries top to bottom, and its size counts them |
| Build.InitialClosed | grid.cpp:73-142 | With every column live and full, every row has all four nodes live |
| Build.BuiltWf | grid.cpp:21-142 | The constructed store is well formed with every column live and holding all its entries |
| Sudoku.Grid.constructor | grid.cpp:21-142 | The constructor leaves a well-formed grid with every column live and full, every column size 9, and no row picked |
| Sudoku.Grid.LinkAll | grid.cpp:40-142 | The linking phases build the header ring, the matrix, the row rings and the column rings, and leave every column size 9 |
| Sudoku.Grid.LinkColumns | grid.cpp:40-66 | Columns are linked in name order through the header, each with an empty vertical ring, size 0 and `col` itself |
| Sudoku.Grid.InitMatrix | grid.cpp:334-347 | Every matrix row holds its four nodes at its four offsets and null elsewhere, and every data node's `row` is its row |
| Sudoku.Grid.InitRow | grid.cpp:338-345 | One row gets its four nodes; no other row changes |
| Sudoku.Grid.LinkRows | grid.cpp:73-104 | Every data node's right link is the next node of its row, wrapping around, and its left link the previous one |
| Sudoku.Grid.LinkRow | grid.cpp:75-103 | One row's four nodes are linked in a ring; no other node's row links change |
| Sudoku.Grid.RowBuffer | grid.cpp:76-84 | The row buffer receives the row's four nodes in family order |
| Sudoku.Grid.LinkColumnLists | grid.cpp:108-142 | Every column's vertical ring runs through its entries top to bottom, its size counts them, and every data node's `col` is its column |
| Sudoku.Grid.LinkColumn | grid.cpp:110-141 | Column j gets its ring, and the columns linked before keep theirs |
| Sudoku.Grid.ColumnRing | grid.cpp:110-141 | Column j's ring runs through its entries; no other node's vertical links change |
| Sudoku.Grid.ColumnBuffer | grid.cpp:110-123 | The column buffer holds the column node and then its entries top to bottom; their `col` is the column and its size counts them |
| Sudoku.Grid.TakeEntry | grid.cpp:115-121 | A non-null entry joins the buffer, gets its `col`, and adds one to the column's size |
| Sudoku.Grid.LinkBuffer | grid.cpp:124-140 | The buffer's nodes are linked in a vertical ring headed by its first node; no other node changes |
| Sudoku.Grid.UnlinkNode | grid.cpp:273-275 | One unlink step gives the store Unlink specifies |
| Sudoku.Grid.RelinkNode | grid.cpp:296-298 | One relink step gives the store Relink specifies |
| Sudoku.Grid.UnlinkRows | grid.cpp:267-279 | The nested loops of coverCol end in the store the cover plan ends in |
| Sudoku.Grid.RelinkRows | grid.cpp:290-302 | The nested loops of uncoverCol end in the store the uncover plan ends in |
| Sudoku.Grid.SpliceColumn | grid.cpp:265-266 | The column is spliced out of the header ring |
| Sudoku.Grid.RestoreColumn | grid.cpp:303-304 | The column is put back into the header ring |
| Sudoku.Grid.CoverCol | grid.cpp:263-280 | coverCol leaves the store the cover specification gives; the grid stays well formed for the shortened ring and lists |
| Sudoku.Grid.UncoverCol | grid.cpp:288-305 | uncoverCol after the matching coverCol restores the state before the cover exactly |
| Sudoku.Grid.FindSmallest | grid.cpp:310-325 | Null exactly when the ring is empty; otherwise a live column of least size, the first such in ring order |
| Sudoku.Grid.Pick | grid.cpp:244-245 | One row is appended to the output buffer and the count grows by one; nothing else changes |
| Sudoku.Grid.CoverClue | grid.cpp:242-253 | coverClue appends d to the output and covers the four columns of d's row, d's own first and then left to right |
| Sudoku.Grid.CoverRowRest | grid.cpp:247-252 | The walk right from d covers the other three columns of d's row |
| Sudoku.Grid.UncoverRowRest | grid.cpp:223-228 | The walk left from d uncovers the other three columns of d's row, undoing the covering walk |
| Sudoku.Grid.CoverStep | grid.cpp:250-251 | One pass covers the column of the current node and moves to the next node of the row |
| Sudoku.Grid.UncoverStep | grid.cpp:226-227 | One pass uncovers the column of the current node and moves to the previous node of the row |
| Sudoku.Grid.Search | grid.cpp:185-235 | With an empty ring it returns true at once and changes nothing; true only when the ring ends empty, the rows picked since the call then number a quarter of the live columns at the call, and the state is the one reached by covering those rows one after another; on false the links, sizes, lists, ring and count equal their values at the call; the picked rows below the count at the call are never changed |
| Sudoku.Grid.SearchColumn | grid.cpp:204-234 | Covering the chosen column and trying its rows in turn restores the state when no row succeeds; on success the new rows cover every live column, four per row, and the state is the one reached by covering them in order |
| Sudoku.Grid.TryRow | grid.cpp:209-230 | Trying one row either returns to the state before the row was picked, or succeeds with an empty ring, that row first among the new picks and the state reached by covering the new picks in order from the state before the column was covered |
| Sudoku.Grid.Descend | grid.cpp:220-230 | With d's row picked, searching on either succeeds with an empty ring or, failing, uncovers the row's other columns and drops it, giving back the state before the row was picked |
| Sudoku.Grid.PickRow | grid.cpp:210-218 | The row is appended to the output and its other columns are covered |
| Sudoku.Grid.DropRow | grid.cpp:223-230 | The row's other columns are uncovered and the row leaves the output |
| Sudoku.Grid.Print | grid.cpp:354-365 | The board print fills holds at each cell the digit of the last picked row on that cell, or 0 |
| Sudoku.Grid.ParseInput | grid.cpp:178-184 | The clue (n, r, c) commits the node of matrix row (r-1)*81 + (c-1)*9 + (n-1), which decodes to that clue, and covers its row |

## Left out

- The console dialogue of `askUser` (grid.cpp:391-444) is left out. So are the text output of `print` and the success message of `search`. The model keeps the decoding into the 9x9 board.
- The destructor and the `new`/`delete` of nodes and buffers are left out. The nodes live in fixed arrays, and the row and column buffers are local arrays.
- The header's `up`, `down`, `col`, `row`, `size` and `name` are never set by the source. The model leaves them unconstrained and never reads them.
- The column `name` field is implicit: column node `j + 1` is the column named `j`.
- Where the source writes a loop body or a statement group inline, the model has a helper method for it. Examples are `LinkRow`, `RowBuffer`, `TakeEntry`, `CoverStep` and `PickRow`. Each helper holds the same statements in the same order, with one exception. At the end of an unsuccessful pass of search's row loop, the source steps to the next row (`d = d->down`) and then decrements `size` (grid.cpp:229-230). The model decrements `count` first, in `DropRow`, and steps afterwards, in `SearchColumn`. Neither statement reads what the other writes, so the resulting state is the same.
- Sudoku.Grid.CoverClue requires every column of the clue's row to be live. Sudoku.Grid.ParseInput requires that and 1 <= n, r, c <= 9. The source does not check either. A repeated or contradictory clue makes `coverCol` corrupt the rings, and an out-of-range clue indexes out of bounds.
- Sudoku.Grid.Search requires `count + |ring| <= 729`, because the source never checks the bound of the `output` buffer. Starting from the constructor with valid clues this always holds: each clue adds one row and removes four columns.
- Sudoku.Grid.Search does not state that the picked rows form a Sudoku solution when it returns true (it states only that covering them in order empties the ring), nor that it finds one whenever one exists. Its termination is proved from the shrinking column ring.
