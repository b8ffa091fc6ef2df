/** The rules engine of the console game (Puissance4.go): a board of strings
    where "." is an empty cell and "X" / "O" are the two players' pieces,
    changed in place by each drop, and the turn / game-over bookkeeping of
    the prompt loop. */
module Console {

  import opened Board

  const Empty := "."

  /** The board has the game's fixed shape. */
  ghost predicate IsBoard(board: array2<string>) {
    board.Length0 == Rows && board.Length1 == Cols
  }

  /** The piece of the player to move: "X" on even turns, "O" on odd ones. */
  function PieceFor(turn: nat): (piece: string)
    ensures piece == "X" || piece == "O"
  {
    if turn % 2 == 1 then "O" else "X"
  }

  /** The two players' pieces alternate from one turn to the next, and
      neither is the empty cell. */
  lemma PiecesAlternate(turn: nat)
    ensures PieceFor(turn) != Empty
    ensures PieceFor(turn + 1) != PieceFor(turn)
    ensures PieceFor(turn + 2) == PieceFor(turn)
    ensures PieceFor(0) == "X"
  {
  }

  /** A position from which play goes on: pieces rest on each other, nobody
      has four in a row and an empty cell is left. */
  ghost predicate Live(g: seq<seq<string>>) {
    NoFloating(g, Empty) && !HasAnyRun(g, Empty) && !Full(g, Empty)
  }

  method CreateBoard() returns (board: array2<string>)
    ensures fresh(board) && IsBoard(board)
    ensures Snapshot(board) == EmptyGrid(Empty)
  {
    board := new string[Rows, Cols];
    for i := 0 to Rows
      invariant forall r, c :: 0 <= r < i && 0 <= c < Cols ==> board[r, c] == Empty
    {
      for j := 0 to Cols
        invariant forall r, c :: 0 <= r < i && 0 <= c < Cols ==> board[r, c] == Empty
        invariant forall c :: 0 <= c < j ==> board[i, c] == Empty
      {
        board[i, j] := Empty;
      }
    }
    GridsEqual(Snapshot(board), EmptyGrid(Empty));
  }

  /** Drops piece into column col; the caller has checked that col is a
      column of the board. */
  method DropPiece(board: array2<string>, col: int, piece: string) returns (ok: bool)
    requires IsBoard(board) && 0 <= col < Cols
    modifies board
    ensures (ok, Snapshot(board)) == Drop(old(Snapshot(board)), col, piece, Empty)
    ensures NoFloating(old(Snapshot(board)), Empty) ==> NoFloating(Snapshot(board), Empty)
  {
    ghost var g := Snapshot(board);
    if NoFloating(g, Empty) {
      DropKeepsNoFloating(g, col, piece, Empty);
    }
    var i := Rows - 1;
    while i >= 0
      invariant -1 <= i < Rows
      invariant Snapshot(board) == g
      invariant LowestEmpty(g, col, Empty) == LowestEmptyFrom(g, col, Empty, i)
    {
      if board[i, col] == Empty {
        board[i, col] := piece;
        GridsEqual(Snapshot(board), Place(g, i, col, piece));
        return true;
      }
      i := i - 1;
    }
    return false;
  }

  /** Whether some run of four in orientation d, among the start cells the
      loops of checkVictory visit for it, consists of piece only. */
  method ScanFor(board: array2<string>, d: Dir, piece: string) returns (found: bool)
    requires IsBoard(board)
    ensures found <==> HasRunIn(Snapshot(board), d, piece)
  {
    ghost var g := Snapshot(board);
    var r := d.FirstRow();
    while r < d.RowLimit()
      invariant d.FirstRow() <= r <= d.RowLimit()
      invariant forall i, j :: d.FirstRow() <= i < r && 0 <= j < d.ColLimit() ==> !RunAt(g, i, j, d, piece)
    {
      found := ScanRow(board, d, r, piece);
      if found {
        assert Snapshot(board) == g;
        assert exists j :: RunAt(g, r, j, d, piece);
        return;
      }
      assert Snapshot(board) == g;
      r := r + 1;
    }
    forall i, j | RunAt(g, i, j, d, piece)
      ensures d.FirstRow() <= i < d.RowLimit() && 0 <= j < d.ColLimit()
    {
      ScanRangeIsExact(i, j, d);
    }
    return false;
  }

  /** The inner loop of ScanFor: the start cells of row r. */
  method ScanRow(board: array2<string>, d: Dir, r: int, piece: string) returns (found: bool)
    requires IsBoard(board) && d.FirstRow() <= r < d.RowLimit()
    ensures found ==> exists j :: 0 <= j < d.ColLimit() && RunAt(Snapshot(board), r, j, d, piece)
    ensures !found ==> forall j :: 0 <= j < d.ColLimit() ==> !RunAt(Snapshot(board), r, j, d, piece)
  {
    ghost var g := Snapshot(board);
    var c := 0;
    while c < d.ColLimit()
      invariant 0 <= c <= d.ColLimit()
      invariant forall j :: 0 <= j < c ==> !RunAt(g, r, j, d, piece)
    {
      ScanRangeIsExact(r, c, d);
      var dr, dc := d.DRow(), d.DCol();
      var c0, c1, c2, c3 := board[r, c], board[r + dr, c + dc], board[r + 2 * dr, c + 2 * dc], board[r + 3 * dr, c + 3 * dc];
      assert RunAt(g, r, c, d, piece) <==> c0 == piece && c1 == piece && c2 == piece && c3 == piece;
      if c0 == piece && c1 == piece && c2 == piece && c3 == piece
      {
        assert Snapshot(board) == g && RunAt(g, r, c, d, piece);
        return true;
      }
      c := c + 1;
    }
    return false;
  }

  /** Whether piece has four in a row horizontally, vertically, down-right
      or up-right. */
  method CheckVictory(board: array2<string>, piece: string) returns (won: bool)
    requires IsBoard(board)
    ensures won <==> HasRun(Snapshot(board), piece)
  {
    HasRunCases(Snapshot(board), piece);
    won := ScanFor(board, Horizontal, piece);
    if won {
      return;
    }
    won := ScanFor(board, Vertical, piece);
    if won {
      return;
    }
    won := ScanFor(board, DownRight, piece);
    if won {
      return;
    }
    won := ScanFor(board, UpRight, piece);
  }

  method IsFull(board: array2<string>) returns (full: bool)
    requires IsBoard(board)
    ensures full <==> Full(Snapshot(board), Empty)
  {
    ghost var g := Snapshot(board);
    for r := 0 to Rows
      invariant forall i, j :: 0 <= i < r && 0 <= j < Cols ==> g[i][j] != Empty
    {
      for c := 0 to Cols
        invariant forall i, j :: 0 <= i < r && 0 <= j < Cols ==> g[i][j] != Empty
        invariant forall j :: 0 <= j < c ==> g[r][j] != Empty
      {
        if board[r, c] == Empty {
          assert g[r][c] == Empty;
          return false;
        }
      }
    }
    return true;
  }

  /** One pass of the prompt loop with the column the player typed: an
      accepted move either ends the game, by a win of the mover or a full
      board, or passes the turn; a refused one leaves everything as it was. */
  method Step(board: array2<string>, turn: nat, col: int) returns (turn': nat, gameOver: bool)
    requires IsBoard(board)
    modifies board
    ensures var (ok, after) := Drop(old(Snapshot(board)), col, PieceFor(turn), Empty);
            Snapshot(board) == after &&
            (ok ==> gameOver == (HasRun(after, PieceFor(turn)) || Full(after, Empty))) &&
            (!ok ==> !gameOver) &&
            turn' == (if ok && !gameOver then turn + 1 else turn)
    ensures Live(old(Snapshot(board))) && !gameOver ==> Live(Snapshot(board))
  {
    ghost var g := Snapshot(board);
    var piece := PieceFor(turn);
    var dropped := false;
    if col >= 0 && col < Cols {
      dropped := DropPiece(board, col, piece);
    }
    turn', gameOver := turn, false;
    if dropped {
      var won := CheckVictory(board, piece);
      if won {
        gameOver := true;
      } else {
        var full := IsFull(board);
        if full {
          gameOver := true;
        } else {
          turn' := turn + 1;
          if Live(g) {
            DropKeepsNoFloating(g, col, piece, Empty);
            if HasAnyRun(Snapshot(board), Empty) {
              var v :| v != Empty && HasRun(Snapshot(board), v);
              DropWinnerIsMover(g, col, piece, Empty, v);
            }
          }
        }
      }
    }
  }

  /** One pass of the prompt loop on the board picture g: the board, turn
      and game-over flag afterwards. */
  ghost function StepResult(g: seq<seq<string>>, turn: nat, col: int): (res: (seq<seq<string>>, nat, bool))
    requires IsGrid(g)
    ensures IsGrid(res.0)
    ensures res.2 ==> HasRun(res.0, PieceFor(turn)) || Full(res.0, Empty)
    ensures !res.2 ==> res.1 == turn || res.1 == turn + 1
  {
    var (ok, after) := Drop(g, col, PieceFor(turn), Empty);
    var over := ok && (HasRun(after, PieceFor(turn)) || Full(after, Empty));
    (after, if ok && !over then turn + 1 else turn, over)
  }

  /** The board, turn and game-over flag after the typed columns cols, played
      in order from a fresh board; columns typed once the game is over are
      not read. */
  ghost function Replay(cols: seq<int>): (res: (seq<seq<string>>, nat, bool))
    ensures IsGrid(res.0)
    ensures res.1 <= |cols|
  {
    if |cols| == 0 then (EmptyGrid(Empty), 0, false)
    else
      var prev := Replay(cols[..|cols| - 1]);
      if prev.2 then prev else StepResult(prev.0, prev.1, cols[|cols| - 1])
  }

  /** The first typed column, when it is a column of the board, receives an
      "X" on the bottom row. */
  lemma FirstMoveLandsBottom(col: int)
    requires 0 <= col < Cols
    ensures Replay([col]).0[Rows - 1][col] == "X"
  {
  }

  /** The prompt loop fed with the columns typed, in order, until the game
      ends or the input runs out. */
  method Play(inputs: seq<int>) returns (board: array2<string>, turn: nat, gameOver: bool, used: nat)
    ensures fresh(board) && IsBoard(board)
    ensures used <= |inputs|
    ensures (Snapshot(board), turn, gameOver) == Replay(inputs[..used])
    ensures !gameOver ==> used == |inputs| && Live(Snapshot(board))
    ensures gameOver ==> HasRun(Snapshot(board), PieceFor(turn)) || Full(Snapshot(board), Empty)
  {
    board := CreateBoard();
    AllEmptyIsFresh(Snapshot(board), Empty);
    turn, gameOver, used := 0, false, 0;
    while !gameOver && used < |inputs|
      invariant used <= |inputs|
      invariant fresh(board) && IsBoard(board)
      invariant !gameOver ==> Live(Snapshot(board))
      invariant gameOver ==> HasRun(Snapshot(board), PieceFor(turn)) || Full(Snapshot(board), Empty)
      invariant (Snapshot(board), turn, gameOver) == Replay(inputs[..used])
      decreases |inputs| - used
    {
      turn, gameOver := Step(board, turn, inputs[used]);
      used := used + 1;
      assert inputs[..used][..used - 1] == inputs[..used - 1];
    }
  }
}
