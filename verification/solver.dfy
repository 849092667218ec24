/** The depth-first backtracking search: fill the first Empty cell with each
    digit 1..9 in turn, keep only consistent boards, recurse, and return the
    first full board found. */
module Solver {
  import opened Wrappers
  import opened Groups
  import opened Grid

  /** `s` keeps every given (non-empty) cell of `b` and holds a digit in
      every cell that `b` leaves Empty. */
  ghost predicate Completes(b: Board, s: Board)
    requires IsGrid(b) && IsGrid(s)
  {
    forall i, j :: InGrid(i, j) ==>
      if b[i][j] != Empty then s[i][j] == b[i][j] else IsDigit(s[i][j])
  }

  /** `s` is a solution of the puzzle `b`: full, consistent, and reached from
      `b` only by filling its Empty cells with digits. */
  ghost predicate IsSolutionOf(b: Board, s: Board)
    requires IsGrid(b)
  {
    IsGrid(s) && Solved(s) && Consistent(s) && Completes(b, s)
  }

  ghost predicate HasSolution(b: Board)
    requires IsGrid(b)
  {
    exists s :: IsSolutionOf(b, s)
  }

  /** A solution of the board after one more digit is a solution of the board
      before it. */
  lemma CompletesStep(b: Board, cell: Cell, v: int, s: Board)
    requires IsGrid(b) && IsGrid(s) && InGrid(cell.row, cell.col) && b[cell.row][cell.col] == Empty && IsDigit(v)
    requires Completes(Result(b, cell, v), s)
    ensures Completes(b, s)
  {
    var nb := Result(b, cell, v);
    forall i, j | InGrid(i, j)
      ensures if b[i][j] != Empty then s[i][j] == b[i][j] else IsDigit(s[i][j])
    {
      if i != cell.row || j != cell.col {
        assert nb[i][j] == b[i][j];
      } else {
        assert nb[i][j] == v;
      }
    }
  }

  /** The first result of `f` over `vals`, taken in order, that is not
      None; None when every result is None. Later values are not tried once
      one succeeds. */
  function FirstSome<T>(f: int --> Option<T>, vals: seq<int>): (r: Option<T>)
    requires forall k :: 0 <= k < |vals| ==> f.requires(vals[k])
    ensures r.None? <==> forall k :: 0 <= k < |vals| ==> f(vals[k]).None?
    ensures r.Some? ==>
      exists k :: 0 <= k < |vals| && r == f(vals[k]) && forall m :: 0 <= m < k ==> f(vals[m]).None?
  {
    if vals == [] then None
    else
      var attempt := f(vals[0]);
      if attempt.Some? then attempt
      else
        var r := FirstSome(f, vals[1..]);
        assert forall k :: 1 <= k < |vals| ==> vals[k] == vals[1..][k - 1];
        r
  }

  /** The search. A full board is returned as it is, without a consistency
      check; otherwise the first Empty cell is filled in turn with each digit
      of Variables, and the first board found wins. Every recursive call
      removes one Empty cell, so the recursion is at most 81 calls deep. */
  function Backtrack(b: Board): Option<Board>
    requires IsGrid(b)
    decreases EmptyCount(b), 2
  {
    if Solved(b) then Some(b)
    else
      var pos := SelectUnassignedVar(b);
      if pos.None? then None
      else
        VariablesAreDigits();
        FirstSome(Attempts(b, pos.value), Variables)
  }

  /** The body of the loop over the digits for the Empty `cell`, as a
      function of the digit. */
  function Attempts(b: Board, cell: Cell): (int --> Option<Board>)
    requires IsGrid(b) && InGrid(cell.row, cell.col) && b[cell.row][cell.col] == Empty
    decreases EmptyCount(b), 1
  {
    v requires IsDigit(v) => Attempt(b, cell, v)
  }

  /** One iteration of that loop: write `v` into `cell`, and search on only
      when the new board is consistent. */
  function Attempt(b: Board, cell: Cell, v: int): Option<Board>
    requires IsGrid(b) && InGrid(cell.row, cell.col) && b[cell.row][cell.col] == Empty && IsDigit(v)
    decreases EmptyCount(b), 0
  {
    var next := Result(b, cell, v);
    ResultFillsOneCell(b, cell, v);
    if Consistent(next) then Backtrack(next) else None
  }

  // ---------------------------------------------------------------------
  // Properties of the search
  // ---------------------------------------------------------------------

  /** On a board that is not full, the search is the loop over Variables on
      the first Empty cell. */
  lemma BacktrackStep(b: Board)
    requires IsGrid(b) && !Solved(b)
    ensures SelectUnassignedVar(b).Some?
    ensures Backtrack(b) == FirstSome(Attempts(b, SelectUnassignedVar(b).value), Variables)
  {
  }

  lemma AttemptsApply(b: Board, cell: Cell)
    requires IsGrid(b) && InGrid(cell.row, cell.col) && b[cell.row][cell.col] == Empty
    ensures forall k :: 0 <= k < |Variables| ==>
      Attempts(b, cell).requires(Variables[k]) && Attempts(b, cell)(Variables[k]) == Attempt(b, cell, Variables[k])
  {
    VariablesAreDigits();
  }

  /** On a board that is not full, the search returns None exactly when
      every digit of Variables fails on the first Empty cell. */
  lemma BacktrackNoneIff(b: Board)
    requires IsGrid(b) && !Solved(b)
    ensures SelectUnassignedVar(b).Some?
    ensures Backtrack(b).None? <==>
      forall k :: 0 <= k < |Variables| ==> Attempt(b, SelectUnassignedVar(b).value, Variables[k]).None?
  {
    BacktrackStep(b);
    AttemptsApply(b, SelectUnassignedVar(b).value);
  }

  /** On a board that is not full, a board returned by the search is the
      result of the digit Variables[k] on the first Empty cell, and every
      digit tried before it failed. */
  lemma BacktrackFirstSuccess(b: Board) returns (k: int)
    requires IsGrid(b) && !Solved(b)
    ensures SelectUnassignedVar(b).Some?
    ensures (VariablesAreDigits(); Backtrack(b).Some? ==>
      && 0 <= k < |Variables|
      && Backtrack(b) == Attempt(b, SelectUnassignedVar(b).value, Variables[k])
      && forall m :: 0 <= m < k ==> Attempt(b, SelectUnassignedVar(b).value, Variables[m]).None?)
  {
    BacktrackStep(b);
    var cell := SelectUnassignedVar(b).value;
    AttemptsApply(b, cell);
    k := 0;
    if Backtrack(b).Some? {
      k :| 0 <= k < |Variables| && Backtrack(b) == Attempts(b, cell)(Variables[k])
        && forall m :: 0 <= m < k ==> Attempts(b, cell)(Variables[m]).None?;
    }
  }

  /** A board returned by the search is full, keeps every given of `b`, has
      a digit wherever `b` was Empty, and is consistent unless `b` was
      already full (a full board is returned unchecked). */
  lemma {:induction false} BacktrackSound(b: Board)
    requires IsGrid(b)
    ensures Solved(b) ==> Backtrack(b) == Some(b)
    ensures Backtrack(b).Some? ==>
      var s := Backtrack(b).value;
      IsGrid(s) && Solved(s) && Completes(b, s) && (Solved(b) || Consistent(s))
    decreases EmptyCount(b), 1
  {
    if !Solved(b) && Backtrack(b).Some? {
      var k := BacktrackFirstSuccess(b);
      VariablesAreDigits();
      AttemptSound(b, SelectUnassignedVar(b).value, Variables[k]);
    }
  }

  lemma {:induction false} AttemptSound(b: Board, cell: Cell, v: int)
    requires IsGrid(b) && InGrid(cell.row, cell.col) && b[cell.row][cell.col] == Empty && IsDigit(v)
    ensures Attempt(b, cell, v).Some? ==>
      var s := Attempt(b, cell, v).value;
      IsGrid(s) && Solved(s) && Consistent(s) && Completes(b, s)
    decreases EmptyCount(b), 0
  {
    var next := Result(b, cell, v);
    ResultFillsOneCell(b, cell, v);
    if Consistent(next) {
      BacktrackSound(next);
      if Backtrack(next).Some? {
        CompletesStep(b, cell, v, Backtrack(next).value);
      }
    }
  }

  /** Clearing cells of a consistent board leaves it consistent. */
  lemma SubBoardConsistent(x: Board, s: Board)
    requires IsGrid(x) && IsGrid(s) && Consistent(s)
    requires forall i, j :: InGrid(i, j) && x[i][j] != Empty ==> s[i][j] == x[i][j]
    ensures Consistent(x)
  {
    ConsistentMeaning(x);
    ConsistentMeaning(s);
    forall r1, c1, r2, c2 |
      InGrid(r1, c1) && InGrid(r2, c2) && (r1 != r2 || c1 != c2) && Sees(r1, c1, r2, c2) && x[r1][c1] != Empty
      ensures x[r1][c1] != x[r2][c2]
    {
      if x[r2][c2] != Empty {
        assert s[r1][c1] != s[r2][c2];
      }
    }
  }

  /** A puzzle with a solution keeps one after its Empty `cell` is filled
      with the digit `v` that the solution holds there. */
  lemma SolutionStep(b: Board, cell: Cell) returns (v: int)
    requires IsGrid(b) && InGrid(cell.row, cell.col) && b[cell.row][cell.col] == Empty
    ensures HasSolution(b) ==>
      IsDigit(v) && Consistent(Result(b, cell, v)) && HasSolution(Result(b, cell, v))
  {
    v := 1;
    if HasSolution(b) {
      var s :| IsSolutionOf(b, s);
      v := s[cell.row][cell.col];
      var next := Result(b, cell, v);
      forall i, j | InGrid(i, j)
        ensures if next[i][j] != Empty then s[i][j] == next[i][j] else IsDigit(s[i][j])
      {
        if i != cell.row || j != cell.col {
          assert next[i][j] == b[i][j];
        }
      }
      SubBoardConsistent(next, s);
      assert IsSolutionOf(next, s);
    }
  }

  /** On a board that is not full, one successful attempt on its first Empty
      cell is enough for the search to return a board. */
  lemma BacktrackFromAttempt(b: Board, v: int)
    requires IsGrid(b) && !Solved(b) && IsDigit(v)
    ensures Attempt(b, SelectUnassignedVar(b).value, v).Some? ==> Backtrack(b).Some?
  {
    BacktrackNoneIff(b);
    VariablesAreDigits();
    assert Variables[v - 1] == v;
  }

  /** Completeness: whenever the puzzle has a solution, the search returns a
      board rather than None. */
  lemma {:induction false} BacktrackComplete(b: Board)
    requires IsGrid(b)
    ensures HasSolution(b) ==> Backtrack(b).Some?
    decreases EmptyCount(b)
  {
    if HasSolution(b) && !Solved(b) {
      var cell := SelectUnassignedVar(b).value;
      var v := SolutionStep(b, cell);
      ResultFillsOneCell(b, cell, v);
      BacktrackComplete(Result(b, cell, v));
      BacktrackFromAttempt(b, v);
    }
  }

  /** Soundness and completeness on a consistent puzzle: the search returns
      a board exactly when the puzzle has a solution, and the board it
      returns is one. */
  lemma BacktrackSolves(b: Board)
    requires IsGrid(b) && Consistent(b)
    ensures Backtrack(b).Some? ==> IsSolutionOf(b, Backtrack(b).value)
    ensures Backtrack(b).Some? <==> HasSolution(b)
  {
    BacktrackSound(b);
    if Backtrack(b).Some? {
      assert IsSolutionOf(b, Backtrack(b).value);
    }
    BacktrackComplete(b);
  }

  /** Solving a solution again returns it unchanged. */
  lemma BacktrackIdempotent(b: Board)
    requires IsGrid(b)
    ensures Backtrack(b).Some? ==> IsGrid(Backtrack(b).value) && Backtrack(Backtrack(b).value) == Backtrack(b)
  {
    BacktrackSound(b);
    if Backtrack(b).Some? {
      BacktrackSound(Backtrack(b).value);
    }
  }

  /** Two equal non-empty values side by side in the first row break the
      rules. */
  lemma FirstRowConflict(b: Board)
    requires IsGrid(b) && b[0][0] != Empty && b[0][0] == b[0][1]
    ensures !Consistent(b)
  {
    assert Sees(0, 0, 0, 1);
    ConsistentMeaning(b);
  }

  /** Without the consistency precondition the search is not sound: a full
      board that breaks every rule, such as one with 1 in every cell, comes
      back unchanged as if it were a solution. */
  lemma FullInconsistentBoardReturned(b: Board)
    requires IsGrid(b) && forall i, j :: InGrid(i, j) ==> b[i][j] == 1
    ensures Backtrack(b) == Some(b)
    ensures !Consistent(b)
    ensures !HasSolution(b)
  {
    BacktrackSound(b);
    FirstRowConflict(b);
    forall s | IsGrid(s) && Completes(b, s) ensures !Consistent(s) {
      FirstRowConflict(s);
    }
  }
}
