/** The board layer of the solver: a 9x9 grid of integer cells in which
    Empty (0) marks a cell without a digit, the predicates that read it and
    the copy-on-write update that the search uses. */
module Grid {
  import opened Wrappers
  import opened Groups

  /** Number of rows and of columns. */
  const GridSize: int := 9
  /** Height and width of one box. */
  const SubgridSize: int := 3
  /** The digits the solver tries, in the order it tries them. */
  const Variables: seq<int> := [1, 2, 3, 4, 5, 6, 7, 8, 9]

  /** A board is a list of rows; IsGrid states its 9x9 shape. */
  type Board = seq<seq<int>>

  /** A position on the board, the `(row, col)` pair of the program. */
  datatype Cell = Cell(row: int, col: int)

  predicate IsGrid(b: Board) {
    |b| == GridSize && forall i :: 0 <= i < |b| ==> |b[i]| == GridSize
  }

  predicate InGrid(row: int, col: int) {
    0 <= row < GridSize && 0 <= col < GridSize
  }

  predicate IsDigit(v: int) {
    1 <= v <= GridSize
  }

  /** (r1, c1) comes strictly before (r2, c2) in row-major order. */
  predicate Precedes(r1: int, c1: int, r2: int, c2: int) {
    r1 < r2 || (r1 == r2 && c1 < c2)
  }

  /** Both cells lie in the same 3x3 box. */
  predicate SameBox(r1: int, c1: int, r2: int, c2: int) {
    r1 / SubgridSize == r2 / SubgridSize && c1 / SubgridSize == c2 / SubgridSize
  }

  /** Cell (r2, c2) shares the row, the column or the box of cell (r1, c1);
      every cell sees itself. */
  predicate Sees(r1: int, c1: int, r2: int, c2: int) {
    r1 == r2 || c1 == c2 || SameBox(r1, c1, r2, c2)
  }

  /** The candidates are the digits 1..9 in ascending order. */
  lemma VariablesAreDigits()
    ensures |Variables| == GridSize
    ensures forall k :: 0 <= k < |Variables| ==> Variables[k] == k + 1
    ensures forall k, m :: 0 <= k < m < |Variables| ==> Variables[k] < Variables[m]
    ensures forall v :: v in Variables <==> IsDigit(v)
  {
    forall v | IsDigit(v) ensures v in Variables {
      assert Variables[v - 1] == v;
    }
  }

  // ---------------------------------------------------------------------
  // Groups of a board
  // ---------------------------------------------------------------------

  /** Column `col`, read top to bottom. */
  function Column(b: Board, col: int): seq<int>
    requires IsGrid(b) && 0 <= col < GridSize
  {
    seq(GridSize, k requires 0 <= k < GridSize => b[k][col])
  }

  /** The position of cell (r, c) inside its box, read row by row: (r % 3) * 3 + c % 3. */
  function BoxOffset(r: int, c: int): int {
    (r % SubgridSize) * SubgridSize + c % SubgridSize
  }

  /** `x` is what some cell of box (br, bc) holds, the cell at offset `k`
      inside that box. */
  ghost predicate BoxCellHolds(b: Board, br: int, bc: int, k: int, x: int)
    requires IsGrid(b)
  {
    exists r, c :: InGrid(r, c) && r / SubgridSize == br && c / SubgridSize == bc && BoxOffset(r, c) == k && b[r][c] == x
  }

  /** The box in box-row `br` and box-column `bc`, whose top-left cell is
      (br * 3, bc * 3), read row by row: its nine positions hold exactly the
      cells (r, c) with r / 3 == br and c / 3 == bc, each cell at its offset
      inside the box. */
  function Box(b: Board, br: int, bc: int): (g: seq<int>)
    requires IsGrid(b) && 0 <= br < SubgridSize && 0 <= bc < SubgridSize
    ensures |g| == GridSize
    ensures forall r, c :: InGrid(r, c) && r / SubgridSize == br && c / SubgridSize == bc ==>
      g[BoxOffset(r, c)] == b[r][c]
    ensures forall k :: 0 <= k < GridSize ==> BoxCellHolds(b, br, bc, k, g[k])
  {
    var g := seq(GridSize, k requires 0 <= k < GridSize =>
      b[br * SubgridSize + k / SubgridSize][bc * SubgridSize + k % SubgridSize]);
    forall r, c | InGrid(r, c) && r / SubgridSize == br && c / SubgridSize == bc
      ensures g[BoxOffset(r, c)] == b[r][c]
    {
      OffsetOfCell(r, c);
    }
    forall k | 0 <= k < GridSize ensures BoxCellHolds(b, br, bc, k, g[k]) {
      CellOfOffset(br, bc, k);
      var r, c := br * SubgridSize + k / SubgridSize, bc * SubgridSize + k % SubgridSize;
      assert InGrid(r, c) && r / SubgridSize == br && c / SubgridSize == bc && BoxOffset(r, c) == k && g[k] == b[r][c];
    }
    g
  }

  /** A cell's offset inside its box gives back its position in the box. */
  lemma OffsetOfCell(r: int, c: int)
    requires InGrid(r, c)
    ensures 0 <= BoxOffset(r, c) < GridSize
    ensures (r / SubgridSize) * SubgridSize + BoxOffset(r, c) / SubgridSize == r
    ensures (c / SubgridSize) * SubgridSize + BoxOffset(r, c) % SubgridSize == c
  {
  }

  /** Every offset 0..8 of box (br, bc) belongs to a cell of that box. */
  lemma CellOfOffset(br: int, bc: int, k: int)
    requires 0 <= br < SubgridSize && 0 <= bc < SubgridSize && 0 <= k < GridSize
    ensures var r, c := br * SubgridSize + k / SubgridSize, bc * SubgridSize + k % SubgridSize;
      InGrid(r, c) && r / SubgridSize == br && c / SubgridSize == bc && BoxOffset(r, c) == k
  {
  }

  // ---------------------------------------------------------------------
  // Declarative reading of the Sudoku rules
  // ---------------------------------------------------------------------

  /** No two different cells that see each other hold the same non-empty value. */
  ghost predicate NoConflicts(b: Board)
    requires IsGrid(b)
  {
    forall r1, c1, r2, c2 ::
      InGrid(r1, c1) && InGrid(r2, c2) && (r1 != r2 || c1 != c2) && Sees(r1, c1, r2, c2) && b[r1][c1] != Empty
      ==> b[r1][c1] != b[r2][c2]
  }

  ghost predicate RowsOk(b: Board)
    requires IsGrid(b)
  {
    forall r, c1, c2 :: InGrid(r, c1) && InGrid(r, c2) && c1 != c2 && b[r][c1] != Empty ==> b[r][c1] != b[r][c2]
  }

  ghost predicate ColumnsOk(b: Board)
    requires IsGrid(b)
  {
    forall r1, r2, c :: InGrid(r1, c) && InGrid(r2, c) && r1 != r2 && b[r1][c] != Empty ==> b[r1][c] != b[r2][c]
  }

  ghost predicate BoxesOk(b: Board)
    requires IsGrid(b)
  {
    forall r1, c1, r2, c2 ::
      InGrid(r1, c1) && InGrid(r2, c2) && (r1 != r2 || c1 != c2) && SameBox(r1, c1, r2, c2) && b[r1][c1] != Empty
      ==> b[r1][c1] != b[r2][c2]
  }

  lemma NoConflictsSplit(b: Board)
    requires IsGrid(b)
    ensures NoConflicts(b) <==> RowsOk(b) && ColumnsOk(b) && BoxesOk(b)
  {
  }

  lemma RowsValid(b: Board)
    requires IsGrid(b)
    ensures (forall i :: 0 <= i < GridSize ==> IsValidGroup(b[i])) <==> RowsOk(b)
  {
    forall i | 0 <= i < GridSize ensures IsValidGroup(b[i]) <==> NoRepeats(b[i]) {
      IsValidGroupMeaning(b[i]);
    }
  }

  lemma ColumnNoRepeats(b: Board, c: int)
    requires IsGrid(b) && 0 <= c < GridSize
    ensures NoRepeats(Column(b, c)) <==>
      forall r1, r2 :: InGrid(r1, c) && InGrid(r2, c) && r1 != r2 && b[r1][c] != Empty ==> b[r1][c] != b[r2][c]
  {
    var g := Column(b, c);
    if NoRepeats(g) {
      forall r1, r2 | InGrid(r1, c) && InGrid(r2, c) && r1 != r2 && b[r1][c] != Empty ensures b[r1][c] != b[r2][c] {
        assert g[r1] == b[r1][c] && g[r2] == b[r2][c];
      }
    }
  }

  lemma ColumnsValid(b: Board)
    requires IsGrid(b)
    ensures (forall i :: 0 <= i < GridSize ==> IsValidGroup(Column(b, i))) <==> ColumnsOk(b)
  {
    forall i | 0 <= i < GridSize ensures IsValidGroup(Column(b, i)) <==> NoRepeats(Column(b, i)) {
      IsValidGroupMeaning(Column(b, i));
    }
    if forall i :: 0 <= i < GridSize ==> NoRepeats(Column(b, i)) {
      forall r1, r2, c | InGrid(r1, c) && InGrid(r2, c) && r1 != r2 && b[r1][c] != Empty
        ensures b[r1][c] != b[r2][c]
      {
        ColumnNoRepeats(b, c);
      }
    }
    if ColumnsOk(b) {
      forall c | 0 <= c < GridSize ensures NoRepeats(Column(b, c)) {
        ColumnNoRepeats(b, c);
      }
    }
  }

  /** A box without repeats has no conflict between two of its cells. */
  lemma BoxPairDistinct(b: Board, r1: int, c1: int, r2: int, c2: int)
    requires IsGrid(b) && InGrid(r1, c1) && InGrid(r2, c2)
    requires (r1 != r2 || c1 != c2) && SameBox(r1, c1, r2, c2) && b[r1][c1] != Empty
    requires NoRepeats(Box(b, r1 / SubgridSize, c1 / SubgridSize))
    ensures b[r1][c1] != b[r2][c2]
  {
    var g := Box(b, r1 / SubgridSize, c1 / SubgridSize);
    var k1, k2 := BoxOffset(r1, c1), BoxOffset(r2, c2);
    assert g[k1] == b[r1][c1] && g[k2] == b[r2][c2];
    assert r1 == (r1 / SubgridSize) * SubgridSize + r1 % SubgridSize;
    assert r2 == (r2 / SubgridSize) * SubgridSize + r2 % SubgridSize;
    assert c1 == (c1 / SubgridSize) * SubgridSize + c1 % SubgridSize;
    assert c2 == (c2 / SubgridSize) * SubgridSize + c2 % SubgridSize;
    assert k1 != k2;
  }

  /** Two different positions of a box hold two different cells of it. */
  lemma BoxPositionsDiffer(b: Board, br: int, bc: int, r1: int, c1: int, r2: int, c2: int)
    requires IsGrid(b) && BoxesOk(b) && InGrid(r1, c1) && InGrid(r2, c2)
    requires r1 / SubgridSize == br && c1 / SubgridSize == bc && r2 / SubgridSize == br && c2 / SubgridSize == bc
    requires BoxOffset(r1, c1) != BoxOffset(r2, c2) && b[r1][c1] != Empty
    ensures b[r1][c1] != b[r2][c2]
  {
    assert SameBox(r1, c1, r2, c2);
  }

  /** When no two cells of a box conflict, the box repeats no value. */
  lemma BoxHasNoRepeats(b: Board, br: int, bc: int)
    requires IsGrid(b) && 0 <= br < SubgridSize && 0 <= bc < SubgridSize && BoxesOk(b)
    ensures NoRepeats(Box(b, br, bc))
  {
    var g := Box(b, br, bc);
    forall i, j | 0 <= i < |g| && 0 <= j < |g| && i != j && g[i] != Empty ensures g[i] != g[j] {
      assert BoxCellHolds(b, br, bc, i, g[i]) && BoxCellHolds(b, br, bc, j, g[j]);
      var r1, c1 :| InGrid(r1, c1) && r1 / SubgridSize == br && c1 / SubgridSize == bc
        && BoxOffset(r1, c1) == i && b[r1][c1] == g[i];
      var r2, c2 :| InGrid(r2, c2) && r2 / SubgridSize == br && c2 / SubgridSize == bc
        && BoxOffset(r2, c2) == j && b[r2][c2] == g[j];
      BoxPositionsDiffer(b, br, bc, r1, c1, r2, c2);
    }
  }

  /** A value occurs in box (br, bc) exactly when some cell of that box holds it. */
  lemma InBox(b: Board, br: int, bc: int, x: int)
    requires IsGrid(b) && 0 <= br < SubgridSize && 0 <= bc < SubgridSize
    ensures x in Box(b, br, bc) <==>
      exists r, c :: InGrid(r, c) && r / SubgridSize == br && c / SubgridSize == bc && b[r][c] == x
  {
    var g := Box(b, br, bc);
    if x in g {
      var k :| 0 <= k < |g| && g[k] == x;
      assert BoxCellHolds(b, br, bc, k, g[k]);
      var r, c :| InGrid(r, c) && r / SubgridSize == br && c / SubgridSize == bc && BoxOffset(r, c) == k && b[r][c] == x;
    }
    if exists r, c :: InGrid(r, c) && r / SubgridSize == br && c / SubgridSize == bc && b[r][c] == x {
      var r, c :| InGrid(r, c) && r / SubgridSize == br && c / SubgridSize == bc && b[r][c] == x;
      assert g[BoxOffset(r, c)] == x;
    }
  }

  lemma BoxesValid(b: Board)
    requires IsGrid(b)
    ensures (forall br, bc :: 0 <= br < SubgridSize && 0 <= bc < SubgridSize ==> IsValidGroup(Box(b, br, bc)))
            <==> BoxesOk(b)
  {
    forall br, bc | 0 <= br < SubgridSize && 0 <= bc < SubgridSize
      ensures IsValidGroup(Box(b, br, bc)) <==> NoRepeats(Box(b, br, bc))
    {
      IsValidGroupMeaning(Box(b, br, bc));
    }
    if forall br, bc :: 0 <= br < SubgridSize && 0 <= bc < SubgridSize ==> NoRepeats(Box(b, br, bc)) {
      forall r1, c1, r2, c2 |
        InGrid(r1, c1) && InGrid(r2, c2) && (r1 != r2 || c1 != c2) && SameBox(r1, c1, r2, c2) && b[r1][c1] != Empty
        ensures b[r1][c1] != b[r2][c2]
      {
        BoxPairDistinct(b, r1, c1, r2, c2);
      }
    }
    if BoxesOk(b) {
      forall br, bc | 0 <= br < SubgridSize && 0 <= bc < SubgridSize ensures NoRepeats(Box(b, br, bc)) {
        BoxHasNoRepeats(b, br, bc);
      }
    }
  }

  // ---------------------------------------------------------------------
  // Operations of the board layer
  // ---------------------------------------------------------------------

  /** A value occurs in column `col` exactly when some cell of that column holds it. */
  lemma InColumn(b: Board, col: int, x: int)
    requires IsGrid(b) && 0 <= col < GridSize
    ensures x in Column(b, col) <==> exists r :: 0 <= r < GridSize && b[r][col] == x
  {
    var column := Column(b, col);
    if x in column {
      var k :| 0 <= k < |column| && column[k] == x;
      assert b[k][col] == x;
    }
    if exists r :: 0 <= r < GridSize && b[r][col] == x {
      var r :| 0 <= r < GridSize && b[r][col] == x;
      assert column[r] == x;
    }
  }

  /** The three scans of is_valid together cover exactly the cells that
      (row, col) sees. */
  lemma ScansCoverSeen(b: Board, row: int, col: int, num: int)
    requires IsGrid(b) && InGrid(row, col)
    ensures (num !in b[row] && num !in Column(b, col) && num !in Box(b, row / SubgridSize, col / SubgridSize))
      <==> forall r2, c2 :: InGrid(r2, c2) && Sees(row, col, r2, c2) ==> b[r2][c2] != num
  {
    var br, bc := row / SubgridSize, col / SubgridSize;
    var column, box := Column(b, col), Box(b, br, bc);
    if num !in b[row] && num !in column && num !in box {
      forall r2, c2 | InGrid(r2, c2) && Sees(row, col, r2, c2) ensures b[r2][c2] != num {
        if r2 == row {
          assert b[row][c2] in b[row];
        } else if c2 == col {
          assert column[r2] == b[r2][c2];
        } else {
          OffsetOfCell(r2, c2);
          assert box[BoxOffset(r2, c2)] == b[r2][c2];
        }
      }
    } else if num in b[row] {
      var c2 :| 0 <= c2 < |b[row]| && b[row][c2] == num;
      assert InGrid(row, c2) && Sees(row, col, row, c2);
    } else if num in column {
      InColumn(b, col, num);
      var r2 :| 0 <= r2 < GridSize && b[r2][col] == num;
      assert InGrid(r2, col) && Sees(row, col, r2, col);
    } else {
      InBox(b, br, bc, num);
      var r2, c2 :| InGrid(r2, c2) && r2 / SubgridSize == br && c2 / SubgridSize == bc && b[r2][c2] == num;
      assert Sees(row, col, r2, c2);
    }
  }

  /** Whether `num` can be placed at (row, col): it must not occur in the
      row, in the column or in the box of the cell, the cell itself included. */
  function IsValid(b: Board, row: int, col: int, num: int): (r: bool)
    requires IsGrid(b) && InGrid(row, col)
    ensures r <==> forall r2, c2 :: InGrid(r2, c2) && Sees(row, col, r2, c2) ==> b[r2][c2] != num
  {
    ScansCoverSeen(b, row, col, num);
    num !in b[row] && num !in Column(b, col) && num !in Box(b, row / SubgridSize, col / SubgridSize)
  }

  /** The board's rules hold: every row, every column and every box is a
      valid group. */
  predicate Consistent(b: Board)
    requires IsGrid(b)
  {
    && (forall i :: 0 <= i < GridSize ==> IsValidGroup(b[i]) && IsValidGroup(Column(b, i)))
    && (forall br, bc :: 0 <= br < SubgridSize && 0 <= bc < SubgridSize ==> IsValidGroup(Box(b, br, bc)))
  }

  /** The meaning of consistent: no two different cells that share a row,
      a column or a box hold the same non-empty value. */
  lemma ConsistentMeaning(b: Board)
    requires IsGrid(b)
    ensures Consistent(b) <==> NoConflicts(b)
  {
    RowsValid(b);
    ColumnsValid(b);
    BoxesValid(b);
    NoConflictsSplit(b);
  }

  /** No cell is Empty. */
  function Solved(b: Board): (r: bool)
    requires IsGrid(b)
    ensures r <==> forall i, j :: InGrid(i, j) ==> b[i][j] != Empty
  {
    forall i :: 0 <= i < GridSize ==> Empty !in b[i]
  }

  /** The board after writing `v` into `cell`; `b` itself is a value and
      stays as it was. */
  function Result(b: Board, cell: Cell, v: int): (r: Board)
    requires IsGrid(b) && InGrid(cell.row, cell.col)
    ensures IsGrid(r)
    ensures r[cell.row][cell.col] == v
    ensures forall i, j :: InGrid(i, j) && (i != cell.row || j != cell.col) ==> r[i][j] == b[i][j]
  {
    b[cell.row := b[cell.row][cell.col := v]]
  }

  /** The first Empty cell at or after (i, j) in row-major order. */
  function FirstEmptyFrom(b: Board, i: int, j: int): (r: Option<Cell>)
    requires IsGrid(b) && 0 <= i <= GridSize && 0 <= j < GridSize
    ensures r.Some? ==> InGrid(r.value.row, r.value.col) && b[r.value.row][r.value.col] == Empty
    ensures r.Some? ==> !Precedes(r.value.row, r.value.col, i, j)
    ensures r.Some? ==> forall i2, j2 ::
      InGrid(i2, j2) && !Precedes(i2, j2, i, j) && Precedes(i2, j2, r.value.row, r.value.col) ==> b[i2][j2] != Empty
    ensures r.None? ==> forall i2, j2 :: InGrid(i2, j2) && !Precedes(i2, j2, i, j) ==> b[i2][j2] != Empty
    decreases GridSize - i, GridSize - j
  {
    if i == GridSize then None
    else if b[i][j] == Empty then Some(Cell(i, j))
    else if j + 1 < GridSize then FirstEmptyFrom(b, i, j + 1)
    else FirstEmptyFrom(b, i + 1, 0)
  }

  /** The first Empty cell in row-major order, or None when there is none. */
  function SelectUnassignedVar(b: Board): (r: Option<Cell>)
    requires IsGrid(b)
    ensures r.None? <==> Solved(b)
    ensures r.Some? ==> InGrid(r.value.row, r.value.col) && b[r.value.row][r.value.col] == Empty
    ensures r.Some? ==> forall i, j :: InGrid(i, j) && Precedes(i, j, r.value.row, r.value.col) ==> b[i][j] != Empty
  {
    FirstEmptyFrom(b, 0, 0)
  }

  /** All Empty cells, in ascending row-major order. */
  method Actions(b: Board) returns (acts: seq<Cell>)
    requires IsGrid(b)
    ensures forall k :: 0 <= k < |acts| ==>
      InGrid(acts[k].row, acts[k].col) && b[acts[k].row][acts[k].col] == Empty
    ensures forall i, j :: InGrid(i, j) && b[i][j] == Empty ==> Cell(i, j) in acts
    ensures forall k, m :: 0 <= k < m < |acts| ==> Precedes(acts[k].row, acts[k].col, acts[m].row, acts[m].col)
    ensures |acts| == 0 <==> Solved(b)
    ensures |acts| > 0 ==> SelectUnassignedVar(b) == Some(acts[0])
  {
    acts := [];
    var row := 0;
    while row < GridSize
      invariant 0 <= row <= GridSize
      invariant forall k :: 0 <= k < |acts| ==>
        InGrid(acts[k].row, acts[k].col) && b[acts[k].row][acts[k].col] == Empty && acts[k].row < row
      invariant forall i, j :: InGrid(i, j) && i < row && b[i][j] == Empty ==> Cell(i, j) in acts
      invariant forall k, m :: 0 <= k < m < |acts| ==> Precedes(acts[k].row, acts[k].col, acts[m].row, acts[m].col)
    {
      var col := 0;
      while col < GridSize
        invariant 0 <= col <= GridSize
        invariant forall k :: 0 <= k < |acts| ==>
          InGrid(acts[k].row, acts[k].col) && b[acts[k].row][acts[k].col] == Empty
          && Precedes(acts[k].row, acts[k].col, row, col)
        invariant forall i, j :: InGrid(i, j) && Precedes(i, j, row, col) && b[i][j] == Empty ==> Cell(i, j) in acts
        invariant forall k, m :: 0 <= k < m < |acts| ==> Precedes(acts[k].row, acts[k].col, acts[m].row, acts[m].col)
      {
        if b[row][col] == Empty {
          acts := acts + [Cell(row, col)];
        }
        col := col + 1;
      }
      row := row + 1;
    }
    if |acts| > 0 {
      assert b[acts[0].row][acts[0].col] == Empty;
      var first := SelectUnassignedVar(b).value;
      assert Cell(first.row, first.col) in acts;
    }
    if !Solved(b) {
      var i, j :| InGrid(i, j) && b[i][j] == Empty;
      assert Cell(i, j) in acts;
    }
  }

  // ---------------------------------------------------------------------
  // Counting Empty cells: the solver's termination measure
  // ---------------------------------------------------------------------

  /** Number of Empty values in one row. */
  function CountEmpty(s: seq<int>): (n: nat)
    ensures n <= |s|
    ensures n == 0 <==> Empty !in s
  {
    if s == [] then 0 else (if s[0] == Empty then 1 else 0) + CountEmpty(s[1..])
  }

  /** Number of Empty cells on the board. */
  function EmptyCount(b: Board): (n: nat)
    ensures n == 0 <==> forall i :: 0 <= i < |b| ==> Empty !in b[i]
    ensures (forall i :: 0 <= i < |b| ==> |b[i]| == GridSize) ==> n <= GridSize * |b|
  {
    if b == [] then 0 else CountEmpty(b[0]) + EmptyCount(b[1..])
  }

  lemma {:induction false} CountEmptyUpdate(s: seq<int>, k: int, v: int)
    requires 0 <= k < |s| && s[k] == Empty && v != Empty
    ensures CountEmpty(s[k := v]) + 1 == CountEmpty(s)
  {
    if k > 0 {
      assert s[k := v][1..] == s[1..][k - 1 := v];
      CountEmptyUpdate(s[1..], k - 1, v);
    } else {
      assert s[k := v][1..] == s[1..];
    }
  }

  lemma {:induction false} EmptyCountUpdate(b: Board, k: int, row: seq<int>)
    requires 0 <= k < |b| && CountEmpty(row) + 1 == CountEmpty(b[k])
    ensures EmptyCount(b[k := row]) + 1 == EmptyCount(b)
  {
    if k > 0 {
      assert b[k := row][1..] == b[1..][k - 1 := row];
      EmptyCountUpdate(b[1..], k - 1, row);
    } else {
      assert b[k := row][1..] == b[1..];
    }
  }

  /** Writing a non-empty value into an Empty cell removes exactly one Empty
      cell; a board has at most 81 of them, and none exactly when it is solved. */
  lemma ResultFillsOneCell(b: Board, cell: Cell, v: int)
    requires IsGrid(b) && InGrid(cell.row, cell.col) && b[cell.row][cell.col] == Empty && v != Empty
    ensures EmptyCount(Result(b, cell, v)) + 1 == EmptyCount(b)
    ensures EmptyCount(b) <= GridSize * GridSize
    ensures EmptyCount(Result(b, cell, v)) == 0 <==> Solved(Result(b, cell, v))
  {
    CountEmptyUpdate(b[cell.row], cell.col, v);
    EmptyCountUpdate(b, cell.row, b[cell.row][cell.col := v]);
  }

  /** On a consistent board, placing a digit into an Empty cell keeps the
      board consistent exactly when the placement is valid. */
  lemma ValidPlacement(b: Board, cell: Cell, num: int)
    requires IsGrid(b) && InGrid(cell.row, cell.col)
    requires b[cell.row][cell.col] == Empty && num != Empty
    ensures Consistent(b) ==> (IsValid(b, cell.row, cell.col, num) <==> Consistent(Result(b, cell, num)))
  {
    if Consistent(b) {
      var r, c := cell.row, cell.col;
      var nb := Result(b, cell, num);
      ConsistentMeaning(b);
      ConsistentMeaning(nb);
      if IsValid(b, r, c, num) {
        forall r1, c1, r2, c2 |
          InGrid(r1, c1) && InGrid(r2, c2) && (r1 != r2 || c1 != c2) && Sees(r1, c1, r2, c2) && nb[r1][c1] != Empty
          ensures nb[r1][c1] != nb[r2][c2]
        {
          if r1 == r && c1 == c {
            assert nb[r2][c2] == b[r2][c2];
            assert Sees(r, c, r2, c2);
          } else if r2 == r && c2 == c {
            assert nb[r1][c1] == b[r1][c1];
            assert Sees(r, c, r1, c1);
          } else {
            assert nb[r1][c1] == b[r1][c1] && nb[r2][c2] == b[r2][c2];
          }
        }
      }
      if Consistent(nb) {
        forall r2, c2 | InGrid(r2, c2) && Sees(r, c, r2, c2) ensures b[r2][c2] != num {
          if r2 != r || c2 != c {
            assert nb[r2][c2] == b[r2][c2];
            assert nb[r][c] == num;
          }
        }
      }
    }
  }

  /** initial_state: a board of `rows` rows of `cols` cells, all empty. The
      sizes default to 9 and, as with Python's `range`, a negative size
      counts as zero. */
  function InitialState(rows: int := GridSize, cols: int := GridSize): (b: Board)
    ensures |b| == if rows < 0 then 0 else rows
    ensures forall i :: 0 <= i < |b| ==> |b[i]| == if cols < 0 then 0 else cols
    ensures forall i, j :: 0 <= i < |b| && 0 <= j < |b[i]| ==> b[i][j] == Empty
  {
    var n: nat := if rows < 0 then 0 else rows;
    var m: nat := if cols < 0 then 0 else cols;
    seq(n, i => seq(m, j => Empty))
  }

  /** The default empty board is a 9x9 grid that breaks no rule, is not
      solved, and whose first empty cell is the top-left one. */
  lemma InitialStateBlank()
    ensures IsGrid(InitialState())
    ensures Consistent(InitialState())
    ensures !Solved(InitialState())
    ensures SelectUnassignedVar(InitialState()) == Some(Cell(0, 0))
  {
    var b := InitialState();
    ConsistentMeaning(b);
    assert b[0][0] == Empty;
  }

  /** The puzzle the program ships with, a fixed literal grid. */
  const Example: Board := [
    [0, 3, 0, 0, 7, 0, 0, 0, 0],
    [6, 0, 0, 1, 9, 5, 0, 0, 0],
    [0, 9, 8, 0, 0, 0, 0, 6, 0],
    [8, 0, 0, 0, 6, 0, 0, 0, 3],
    [4, 0, 0, 8, 0, 3, 0, 0, 1],
    [7, 0, 0, 0, 2, 0, 0, 0, 6],
    [0, 6, 0, 0, 0, 0, 2, 8, 0],
    [0, 0, 0, 4, 1, 9, 0, 0, 5],
    [0, 0, 0, 0, 8, 0, 0, 7, 9]
  ]
}
