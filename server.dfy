/** The rules engine of the web server (main.go): one shared Game record
    whose int grid holds 0 for an empty cell and 1 or 2 for a player's piece,
    updated in place by each move and by reset. */
module Server {

  import opened Board

  /** The player who moves after p: 2 after 1, and 1 after anything else. */
  function Other(p: int): (q: int)
    ensures q == 1 || q == 2
    ensures q == 2 <==> p == 1
  {
    if p == 1 then 2 else 1
  }

  /** Switching twice gives the turn back, and always to the other player. */
  lemma OtherTwice(p: int)
    requires p == 1 || p == 2
    ensures Other(p) != p && Other(Other(p)) == p
  {
  }

  class Game {
    var Grid: array2<int>
    var Player: int
    var Winner: int
    /** Where the most recent piece landed; presentation only. */
    var LastRow: int
    var LastCol: int
    /** The picture of Grid, row by row. */
    ghost var Cells: seq<seq<int>>

    ghost predicate Valid()
      reads this, Grid
    {
      Grid.Length0 == Rows && Grid.Length1 == Cols && IsGrid(Cells) &&
      forall r, c :: InBounds(r, c) ==> Cells[r][c] == Grid[r, c]
    }

    /** The state every sequence of resets and moves keeps: a player is to
        move, pieces rest on each other, and Winner is set exactly when some
        player has four in a row, to a player who has. */
    ghost predicate Consistent()
      reads this, Grid
    {
      Valid() && (Player == 1 || Player == 2) && NoFloating(Cells, 0) &&
      (Winner == 0 <==> !HasAnyRun(Cells, 0)) &&
      (Winner != 0 ==> HasRun(Cells, Winner))
    }

    /** The zero value of Game, which the server holds before its first reset. */
    constructor ()
      ensures Valid() && fresh(Grid)
      ensures AllEmpty(Cells, 0)
      ensures Player == 0 && Winner == 0 && LastRow == 0 && LastCol == 0
    {
      Grid := new int[Rows, Cols]((_, _) => 0);
      Player, Winner, LastRow, LastCol := 0, 0, 0, 0;
      Cells := EmptyGrid(0);
    }

    /** Drops a piece of the current player into column col. */
    method PlayMove(col: int) returns (ok: bool)
      requires Valid()
      modifies Grid, this`Cells, this`LastRow, this`LastCol
      ensures Valid()
      ensures (ok, Cells) == Drop(old(Cells), col, Player, 0)
      ensures ok ==> LastRow == LowestEmpty(old(Cells), col, 0) && LastCol == col
      ensures !ok ==> LastRow == old(LastRow) && LastCol == old(LastCol)
      ensures NoFloating(old(Cells), 0) ==> NoFloating(Cells, 0)
    {
      if NoFloating(Cells, 0) {
        DropKeepsNoFloating(Cells, col, Player, 0);
      }
      if col < 0 || col >= Cols {
        return false;
      }
      var r := Rows - 1;
      while r >= 0
        invariant -1 <= r < Rows
        invariant LowestEmpty(Cells, col, 0) == LowestEmptyFrom(Cells, col, 0, r)
      {
        if Grid[r, col] == 0 {
          Grid[r, col] := Player;
          Cells := Place(Cells, r, col, Player);
          LastRow := r;
          LastCol := col;
          return true;
        }
        r := r - 1;
      }
      return false;
    }

    method SwitchPlayer()
      modifies this`Player
      ensures Player == Other(old(Player))
    {
      if Player == 1 {
        Player := 2;
      } else {
        Player := 1;
      }
    }

    /** Scans the start cells of orientation d row by row and returns the
        piece of the first run of four non-empty cells found, or 0. */
    method ScanRuns(d: Dir) returns (w: int)
      requires Valid()
      ensures w != 0 ==> exists r, c :: FirstRunAt(Cells, r, c, d, w, 0)
      ensures w == 0 <==> forall v :: v != 0 ==> !HasRunIn(Cells, d, v)
    {
      var r := d.FirstRow();
      while r < d.RowLimit()
        invariant d.FirstRow() <= r <= d.RowLimit()
        invariant forall v, i, j :: v != 0 && d.FirstRow() <= i < r && 0 <= j < d.ColLimit() ==> !RunAt(Cells, i, j, d, v)
      {
        w := ScanRow(d, r);
        if w != 0 {
          ghost var c :| 0 <= c < d.ColLimit() && RunAt(Cells, r, c, d, w) &&
            forall k, v :: v != 0 && 0 <= k < c ==> !RunAt(Cells, r, k, d, v);
          forall i, j, u | u != 0 && RunAt(Cells, i, j, d, u)
            ensures r < i || (r == i && c <= j)
          {
            ScanRangeIsExact(i, j, d);
          }
          assert FirstRunAt(Cells, r, c, d, w, 0) && HasRunIn(Cells, d, w);
          return;
        }
        r := r + 1;
      }
      forall v, i, j | RunAt(Cells, i, j, d, v)
        ensures d.FirstRow() <= i < d.RowLimit() && 0 <= j < d.ColLimit()
      {
        ScanRangeIsExact(i, j, d);
      }
      return 0;
    }

    /** The inner loop of ScanRuns: the start cells of row r. */
    method ScanRow(d: Dir, r: int) returns (w: int)
      requires Valid() && d.FirstRow() <= r < d.RowLimit()
      ensures w != 0 ==> exists j :: 0 <= j < d.ColLimit() && RunAt(Cells, r, j, d, w) &&
                                    (forall k, v :: v != 0 && 0 <= k < j ==> !RunAt(Cells, r, k, d, v))
      ensures w == 0 ==> forall v, j :: v != 0 && 0 <= j < d.ColLimit() ==> !RunAt(Cells, r, j, d, v)
    {
      var c := 0;
      while c < d.ColLimit()
        invariant 0 <= c <= d.ColLimit()
        invariant forall v, j :: v != 0 && 0 <= j < c ==> !RunAt(Cells, r, j, d, v)
      {
        ScanRangeIsExact(r, c, d);
        var dr, dc := d.DRow(), d.DCol();
        var v := Grid[r, c];
        if v != 0 &&
           Grid[r + dr, c + dc] == v &&
           Grid[r + 2 * dr, c + 2 * dc] == v &&
           Grid[r + 3 * dr, c + 3 * dc] == v
        {
          assert RunAt(Cells, r, c, d, v);
          return v;
        }
        c := c + 1;
      }
      return 0;
    }

    /** Looks for four in a row horizontally, vertically, down-right and
        up-right, in that order; returns the piece of a run found, or 0 when
        no player has one. */
    method CheckWin() returns (w: int)
      requires Valid()
      ensures w != 0 ==> FirstWinner(Cells, w, 0) && HasRun(Cells, w)
      ensures w == 0 <==> !HasAnyRun(Cells, 0)
    {
      var d := Horizontal;
      w := ScanRuns(Horizontal);
      if w == 0 {
        d := Vertical;
        w := ScanRuns(Vertical);
      }
      if w == 0 {
        d := DownRight;
        w := ScanRuns(DownRight);
      }
      if w == 0 {
        d := UpRight;
        w := ScanRuns(UpRight);
      }
      if w != 0 {
        ghost var r, c :| FirstRunAt(Cells, r, c, d, w, 0);
        assert NoRunBefore(Cells, d, 0);
        assert HasRunIn(Cells, d, w);
        HasRunCases(Cells, w);
      } else {
        forall v | v != 0
          ensures !HasRun(Cells, v)
        {
          HasRunCases(Cells, v);
        }
      }
    }

    /** Clears the grid and starts a new game with player 1 to move. */
    method Reset()
      requires Valid()
      modifies this, Grid
      ensures Grid == old(Grid) && Valid()
      ensures Cells == EmptyGrid(0)
      ensures Player == 1 && Winner == 0 && LastRow == -1 && LastCol == -1
      ensures !HasAnyRun(Cells, 0) && Consistent()
    {
      var r := 0;
      while r < Rows
        modifies Grid
        invariant 0 <= r <= Rows
        invariant forall i, j :: 0 <= i < r && 0 <= j < Cols ==> Grid[i, j] == 0
      {
        var c := 0;
        while c < Cols
          modifies Grid
          invariant 0 <= c <= Cols
          invariant forall i, j :: 0 <= i < r && 0 <= j < Cols ==> Grid[i, j] == 0
          invariant forall j :: 0 <= j < c ==> Grid[r, j] == 0
        {
          Grid[r, c] := 0;
          c := c + 1;
        }
        r := r + 1;
      }
      Player := 1;
      Winner := 0;
      LastRow := -1;
      LastCol := -1;
      Cells := EmptyGrid(0);
      AllEmptyIsFresh(Cells, 0);
    }

    /** One move request: ignored once there is a winner; otherwise an
        accepted move either records the winner or passes the turn. */
    method Step(col: int)
      requires Valid()
      modifies this, Grid
      ensures Grid == old(Grid) && Valid()
      // a decided game is frozen
      ensures old(Winner) != 0 ==>
        Cells == old(Cells) && Player == old(Player) && Winner == old(Winner) &&
        LastRow == old(LastRow) && LastCol == old(LastCol)
      ensures old(Winner) == 0 ==> Cells == Drop(old(Cells), col, old(Player), 0).1
      // a rejected move changes nothing
      ensures old(Winner) == 0 && !Drop(old(Cells), col, old(Player), 0).0 ==>
        Player == old(Player) && Winner == 0 &&
        LastRow == old(LastRow) && LastCol == old(LastCol)
      // an accepted move records a winner, or else switches the player once
      ensures old(Winner) == 0 && Drop(old(Cells), col, old(Player), 0).0 ==>
        LastRow == LowestEmpty(old(Cells), col, 0) && LastCol == col &&
        if HasAnyRun(Cells, 0) then
          Winner != 0 && FirstWinner(Cells, Winner, 0) && HasRun(Cells, Winner) && Player == old(Player)
        else
          Winner == 0 && Player == Other(old(Player))
      ensures old(Consistent()) ==> Consistent()
      // from a consistent state, the winner recorded is the player who moved
      ensures old(Consistent()) && old(Winner) == 0 && Winner != 0 ==> Winner == old(Player)
    {
      ghost var g, p := Cells, Player;
      ghost var consistent := Consistent();
      if Winner == 0 {
        var ok := PlayMove(col);
        assert (ok, Cells) == Drop(g, col, p, 0);
        if ok {
          var w := CheckWin();
          if w != 0 {
            Winner := w;
            if consistent {
              DropWinnerIsMover(g, col, p, 0, w);
            }
          } else {
            SwitchPlayer();
          }
        }
        if consistent {
          DropKeepsNoFloating(g, col, p, 0);
        }
      }
    }
  }
}
