/**
 * The backtracking solver of `frontend/src/components/NQueensVisualizer.jsx`.
 * `board[r]` is the column of the queen in row `r`, or -1 for an empty row;
 * `solve` fills the rows from `row` on, in place, trying the columns in
 * increasing order and clearing a row again when the search below it fails.
 */
module NQueens {
  import opened Wrappers

  /** The queen at (`i`, `ci`) shares a column or a diagonal with (`row`, `col`). */
  predicate Attacks(ci: int, i: int, col: int, row: int) {
    ci == col || ci - i == col - row || ci + i == col + row
  }

  /** No queen of `placed` (row `i` in column `placed[i]`) attacks row `|placed|`, column `col`. */
  predicate Safe(placed: seq<int>, col: int) {
    forall i :: 0 <= i < |placed| ==> !Attacks(placed[i], i, col, |placed|)
  }

  /** `isSafe(board, row, col)`: checks the queens of rows 0 to `row - 1`. */
  method IsSafe(board: array<int>, row: int, col: int) returns (safe: bool)
    requires 0 <= row <= board.Length
    ensures safe <==> forall i :: 0 <= i < row ==> !Attacks(board[i], i, col, row)
    ensures safe == Safe(board[..row], col)
  {
    for i := 0 to row
      invariant forall k :: 0 <= k < i ==> !Attacks(board[k], k, col, row)
    {
      if board[i] == col || board[i] - i == col - row || board[i] + i == col + row {
        return false;
      }
    }
    return true;
  }

  /**
   * `rest` fills the rows after `placed` up to row `n - 1` with columns in
   * `[0, n)`, each queen safe from all those above it.
   */
  ghost predicate Completes(placed: seq<int>, rest: seq<int>, n: int) {
    && |placed| + |rest| == n
    && forall k :: 0 <= k < |rest| ==> 0 <= rest[k] < n && Safe(placed + rest[..k], rest[k])
  }

  /** A completion is a safe first queen followed by a completion of the longer placement. */
  lemma CompletesCons(placed: seq<int>, col: int, rest: seq<int>, n: int)
    ensures Completes(placed, [col] + rest, n)
      <==> 0 <= col < n && Safe(placed, col) && Completes(placed + [col], rest, n)
  {
    var full := [col] + rest;
    assert full[0] == col && full[..0] == [] && placed + [] == placed;
    forall k | 0 <= k < |rest|
      ensures full[k + 1] == rest[k] && placed + full[..k + 1] == placed + [col] + rest[..k]
    {
      assert full[..k + 1] == [col] + rest[..k];
    }
    if Completes(placed, full, n) {
      forall k | 0 <= k < |rest|
        ensures 0 <= rest[k] < n && Safe(placed + [col] + rest[..k], rest[k])
      {
        assert 0 <= full[k + 1] < n && Safe(placed + full[..k + 1], full[k + 1]);
      }
    }
    if 0 <= col < n && Safe(placed, col) && Completes(placed + [col], rest, n) {
      forall k | 0 <= k < |full|
        ensures 0 <= full[k] < n && Safe(placed + full[..k], full[k])
      {
        if k > 0 {
          assert 0 <= rest[k - 1] < n && Safe(placed + [col] + rest[..k - 1], rest[k - 1]);
        }
      }
    }
  }

  /**
   * The placement `solve` finds after `placed` when it tries the columns of
   * row `|placed|` from `col` on: the first column, in increasing order, that
   * is safe and below which the search succeeds.
   */
  function Search(placed: seq<int>, n: int, col: int): Option<seq<int>>
    requires |placed| <= n && 0 <= col <= n
    decreases n - |placed|, n - col
  {
    if |placed| == n then Some([])
    else if col == n then None
    else if Safe(placed, col) && Search(placed + [col], n, 0).Some? then
      Some([col] + Search(placed + [col], n, 0).value)
    else Search(placed, n, col + 1)
  }

  /** Soundness: what the search finds completes the placement. */
  lemma {:induction false} SearchIsSound(placed: seq<int>, n: int, col: int)
    requires |placed| <= n && 0 <= col <= n
    ensures Search(placed, n, col).Some? ==> Completes(placed, Search(placed, n, col).value, n)
    decreases n - |placed|, n - col
  {
    if |placed| < n && col < n {
      if Safe(placed, col) && Search(placed + [col], n, 0).Some? {
        SearchIsSound(placed + [col], n, 0);
        CompletesCons(placed, col, Search(placed + [col], n, 0).value, n);
      } else {
        SearchIsSound(placed, n, col + 1);
      }
    }
  }

  /** `a` comes no later than `b` in lexicographic order. */
  ghost predicate LexLeq(a: seq<int>, b: seq<int>) {
    a == [] || (b != [] && (a[0] < b[0] || (a[0] == b[0] && LexLeq(a[1..], b[1..]))))
  }

  /**
   * Completeness and order: when some completion starts at column `col` or
   * later, the search succeeds, and what it finds comes first in
   * lexicographic order.
   */
  lemma {:induction false} SearchFindsFirst(placed: seq<int>, n: int, col: int, rest: seq<int>)
    requires |placed| <= n && 0 <= col <= n
    requires Completes(placed, rest, n) && (rest != [] ==> col <= rest[0])
    ensures Search(placed, n, col).Some?
    ensures LexLeq(Search(placed, n, col).value, rest)
    decreases n - |placed|, n - col
  {
    if |placed| < n {
      assert rest == [rest[0]] + rest[1..];
      CompletesCons(placed, rest[0], rest[1..], n);
      if col < rest[0] {
        if !(Safe(placed, col) && Search(placed + [col], n, 0).Some?) {
          SearchFindsFirst(placed, n, col + 1, rest);
        }
      } else {
        SearchFindsFirst(placed + [col], n, 0, rest[1..]);
      }
    }
  }

  /** No completion starting at `col` or later exists when the search fails. */
  lemma SearchFailsOnlyWithoutCompletion(placed: seq<int>, n: int, col: int)
    requires |placed| <= n && 0 <= col <= n
    ensures Search(placed, n, col).None? ==>
      forall rest :: Completes(placed, rest, n) ==> rest != [] && rest[0] < col
  {
    forall rest | Completes(placed, rest, n) && (rest != [] ==> col <= rest[0])
      ensures Search(placed, n, col).Some?
    {
      SearchFindsFirst(placed, n, col, rest);
    }
  }

  /** `solve(board, row, n)`, without the drawing and the pauses. */
  method Solve(board: array<int>, row: int, n: int) returns (found: bool)
    requires board.Length == n && 0 <= row <= n
    modifies board
    ensures board[..row] == old(board[..row])
    ensures found == Search(old(board[..row]), n, 0).Some?
    ensures found ==> board[row..] == Search(old(board[..row]), n, 0).value
    ensures !found ==> forall k :: row <= k < n ==> board[k] == old(board[k]) || board[k] == -1
    decreases n - row
  {
    ghost var placed := board[..row];
    if row == n {
      return true;
    }
    for col := 0 to n
      invariant board[..row] == placed
      invariant Search(placed, n, 0) == Search(placed, n, col)
      invariant forall k :: row <= k < n ==> board[k] == old(board[k]) || board[k] == -1
    {
      var safe := IsSafe(board, row, col);
      if safe {
        ghost var before := board[..];
        board[row] := col;
        assert board[..row + 1] == placed + [col];
        found := Solve(board, row + 1, n);
        if found {
          assert board[..row] == board[..row + 1][..row];
          assert board[row..] == [col] + board[row + 1..];
          return true;
        }
        assert board[..row] == board[..row + 1][..row];
        forall k | row + 1 <= k < n
          ensures board[k] == old(board[k]) || board[k] == -1
        {
          assert board[k] == before[k] || board[k] == -1;
        }
        board[row] := -1;
      }
    }
    return false;
  }

  /** An `n` by `n` board with one queen per row, no two sharing a column or a diagonal. */
  ghost predicate IsSolution(b: seq<int>, n: int) {
    && |b| == n
    && (forall k :: 0 <= k < n ==> 0 <= b[k] < n)
    && forall i, j :: 0 <= i < j < n ==> !Attacks(b[i], i, b[j], j)
  }

  /** Completing the empty placement is exactly solving the puzzle. */
  lemma SolutionsAreCompletions(b: seq<int>, n: int)
    ensures Completes([], b, n) <==> IsSolution(b, n)
  {
    forall j | 0 <= j < |b|
      ensures [] + b[..j] == b[..j]
    {
    }
    if Completes([], b, n) {
      forall i, j | 0 <= i < j < n
        ensures !Attacks(b[i], i, b[j], j)
      {
        assert Safe(b[..j], b[j]);
        assert b[..j][i] == b[i];
      }
    }
    if IsSolution(b, n) {
      forall k | 0 <= k < |b|
        ensures Safe(b[..k], b[k])
      {
        forall i | 0 <= i < k
          ensures !Attacks(b[..k][i], i, b[k], k)
        {
          assert b[..k][i] == b[i];
        }
      }
    }
  }

  /**
   * `createBoard(size)`: no board below size 4, otherwise `size` empty rows.
   * The board is returned instead of being stored in the component's state.
   */
  method CreateBoard(size: int) returns (board: array?<int>)
    ensures board == null <==> size < 4
    ensures board != null ==> fresh(board) && board.Length == size
    ensures board != null ==> forall k :: 0 <= k < size ==> board[k] == -1
  {
    if size < 4 {
      return null;
    }
    board := new int[size](_ => -1);
  }

  datatype Outcome = TooSmall | Solved(board: seq<int>) | NoSolution

  /** `startVisualizer()`: refuse `n < 4`, else solve an empty `n` by `n` board. */
  method StartVisualizer(n: int) returns (outcome: Outcome)
    ensures outcome.TooSmall? <==> n < 4
    ensures outcome.Solved? ==> IsSolution(outcome.board, n)
    ensures outcome.Solved? ==> forall b :: IsSolution(b, n) ==> LexLeq(outcome.board, b)
    ensures outcome.NoSolution? ==> forall b :: !IsSolution(b, n)
  {
    if n < 4 {
      return TooSmall;
    }
    var boardArr := new int[n](_ => -1);
    var solved := Solve(boardArr, 0, n);
    assert boardArr[..0] == [];
    if solved {
      assert boardArr[0..] == boardArr[..];
      outcome := Solved(boardArr[..]);
      SearchIsSound([], n, 0);
      SolutionsAreCompletions(boardArr[..], n);
      forall b | IsSolution(b, n)
        ensures LexLeq(outcome.board, b)
      {
        SolutionsAreCompletions(b, n);
        SearchFindsFirst([], n, 0, b);
      }
    } else {
      outcome := NoSolution;
      forall b | IsSolution(b, n)
        ensures false
      {
        SolutionsAreCompletions(b, n);
        SearchFindsFirst([], n, 0, b);
      }
    }
  }
}
