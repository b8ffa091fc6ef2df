/** The 6 x 7 Connect Four grid shared by both engines, and the rules stated
    over an immutable picture of it: a sequence of rows, row 0 at the top,
    row Rows - 1 at the bottom. The cell type is generic because the server
    engine stores ints (0 = empty) and the console engine stores strings
    ("." = empty); each engine says which value is its empty cell. */
module Board {

  const Rows := 6
  const Cols := 7

  ghost predicate InBounds(r: int, c: int) {
    0 <= r < Rows && 0 <= c < Cols
  }

  ghost predicate IsGrid<T>(g: seq<seq<T>>) {
    |g| == Rows && forall r :: 0 <= r < Rows ==> |g[r]| == Cols
  }

  /** The picture of a two-dimensional array, row by row. */
  ghost function Snapshot<T>(a: array2<T>): (g: seq<seq<T>>)
    reads a
    ensures |g| == a.Length0
    ensures forall r :: 0 <= r < a.Length0 ==> |g[r]| == a.Length1
    ensures forall r, c :: 0 <= r < a.Length0 && 0 <= c < a.Length1 ==> g[r][c] == a[r, c]
    ensures a.Length0 == Rows && a.Length1 == Cols ==> IsGrid(g)
  {
    seq(a.Length0, r requires 0 <= r < a.Length0 reads a =>
      seq(a.Length1, c requires 0 <= c < a.Length1 reads a => a[r, c]))
  }

  /** Two grids that agree on every cell are the same grid. */
  lemma GridsEqual<T>(g: seq<seq<T>>, h: seq<seq<T>>)
    requires IsGrid(g) && IsGrid(h)
    requires forall r, c :: InBounds(r, c) ==> g[r][c] == h[r][c]
    ensures g == h
  {
    forall r | 0 <= r < Rows
      ensures g[r] == h[r]
    {
      assert forall c :: 0 <= c < Cols ==> g[r][c] == h[r][c];
    }
  }

  ghost function EmptyGrid<T>(empty: T): (g: seq<seq<T>>)
    ensures AllEmpty(g, empty)
  {
    seq(Rows, _ => seq(Cols, _ => empty))
  }

  ghost predicate AllEmpty<T>(g: seq<seq<T>>, empty: T) {
    IsGrid(g) && forall r, c :: InBounds(r, c) ==> g[r][c] == empty
  }

  /** No cell is empty. */
  ghost predicate Full<T>(g: seq<seq<T>>, empty: T) {
    IsGrid(g) && forall r, c :: InBounds(r, c) ==> g[r][c] != empty
  }

  /** Gravity: in every column, each cell below an occupied cell (a larger
      row index) is occupied too. */
  ghost predicate NoFloating<T>(g: seq<seq<T>>, empty: T) {
    IsGrid(g) &&
    forall r1, r2, c :: 0 <= r1 <= r2 < Rows && 0 <= c < Cols && g[r1][c] != empty ==> g[r2][c] != empty
  }

  /** The four orientations of a line of four, as a step (row, column) from
      one cell of the line to the next, together with the start cells the
      loops of checkWin (main.go) and checkVictory (Puissance4.go) visit for
      that orientation. */
  datatype Dir = Horizontal | Vertical | DownRight | UpRight {

    function DRow(): (dr: int)
      ensures -1 <= dr <= 1
    {
      match this
      case Horizontal => 0
      case Vertical => 1
      case DownRight => 1
      case UpRight => -1
    }

    function DCol(): (dc: int)
      ensures 0 <= dc <= 1
    {
      if this == Vertical then 0 else 1
    }

    /** The scanned start rows are FirstRow() <= r < RowLimit(), the scanned
        start columns 0 <= c < ColLimit(). */
    function FirstRow(): (r0: int)
      ensures 0 <= r0 < Rows
    {
      if this == UpRight then 3 else 0
    }

    function RowLimit(): (r1: int)
      ensures FirstRow() < r1 <= Rows
    {
      if this == Horizontal || this == UpRight then Rows else Rows - 3
    }

    function ColLimit(): (c1: int)
      ensures 0 < c1 <= Cols
    {
      if this == Vertical then Cols else Cols - 3
    }

    /** The position of the orientation in the order both programs scan
        them: horizontal, vertical, down-right, up-right. */
    function Order(): (k: nat)
      ensures k < 4
    {
      match this
      case Horizontal => 0
      case Vertical => 1
      case DownRight => 2
      case UpRight => 3
    }
  }

  /** A line of four cells starting at (r, c) in orientation d fits the grid. */
  ghost predicate RunSpan(r: int, c: int, d: Dir) {
    InBounds(r, c) && InBounds(r + 3 * d.DRow(), c + 3 * d.DCol())
  }

  /** The four cells from (r, c) in orientation d all hold v. */
  ghost predicate RunAt<T>(g: seq<seq<T>>, r: int, c: int, d: Dir, v: T) {
    IsGrid(g) && RunSpan(r, c, d) &&
    g[r][c] == v &&
    g[r + d.DRow()][c + d.DCol()] == v &&
    g[r + 2 * d.DRow()][c + 2 * d.DCol()] == v &&
    g[r + 3 * d.DRow()][c + 3 * d.DCol()] == v
  }

  ghost predicate HasRunIn<T>(g: seq<seq<T>>, d: Dir, v: T) {
    exists r, c :: RunAt(g, r, c, d, v)
  }

  /** A run of four cells holding v exists in some orientation. */
  ghost predicate HasRun<T>(g: seq<seq<T>>, v: T) {
    exists d :: HasRunIn(g, d, v)
  }

  /** A run exists exactly when one exists in one of the four orientations. */
  lemma HasRunCases<T>(g: seq<seq<T>>, v: T)
    ensures HasRun(g, v) <==>
            HasRunIn(g, Horizontal, v) || HasRunIn(g, Vertical, v) ||
            HasRunIn(g, DownRight, v) || HasRunIn(g, UpRight, v)
  {
  }

  /** Some non-empty piece owns a run of four. */
  ghost predicate HasAnyRun<T(!new)>(g: seq<seq<T>>, empty: T) {
    exists v :: v != empty && HasRun(g, v)
  }

  /** The start cells the loops of checkWin and checkVictory visit for an
      orientation are exactly the cells from which a line of four in that
      orientation fits the grid. */
  lemma ScanRangeIsExact(r: int, c: int, d: Dir)
    ensures RunSpan(r, c, d) <==>
            d.FirstRow() <= r < d.RowLimit() && 0 <= c < d.ColLimit()
  {
  }

  /** The run of v from (r, c) in orientation d is the first run of a
      non-empty value met by a row-by-row, left-to-right scan of the start
      cells: every other such run starts on a later row, or later on row r. */
  ghost predicate FirstRunAt<T(!new)>(g: seq<seq<T>>, r: int, c: int, d: Dir, v: T, empty: T) {
    v != empty && RunAt(g, r, c, d, v) &&
    forall i, j, u :: u != empty && RunAt(g, i, j, d, u) ==> r < i || (r == i && c <= j)
  }

  /** w is what checkWin reports: the owner of the first run met in the
      first orientation, in scan order, that has a run of a non-empty value. */
  ghost predicate FirstWinner<T(!new)>(g: seq<seq<T>>, w: T, empty: T) {
    exists d, r, c :: FirstRunAt(g, r, c, d, w, empty) && NoRunBefore(g, d, empty)
  }

  /** No non-empty value has a run in an orientation scanned before d. */
  ghost predicate NoRunBefore<T(!new)>(g: seq<seq<T>>, d: Dir, empty: T) {
    forall e: Dir, u: T :: e.Order() < d.Order() && u != empty ==> !HasRunIn(g, e, u)
  }

  /** The first winner is determined by the grid: two values that both
      satisfy FirstWinner are equal. */
  lemma FirstWinnerUnique<T(!new)>(g: seq<seq<T>>, a: T, b: T, empty: T)
    requires FirstWinner(g, a, empty) && FirstWinner(g, b, empty)
    ensures a == b
  {
    var d1, r1, c1 :| FirstRunAt(g, r1, c1, d1, a, empty) && NoRunBefore(g, d1, empty);
    var d2, r2, c2 :| FirstRunAt(g, r2, c2, d2, b, empty) && NoRunBefore(g, d2, empty);
    assert HasRunIn(g, d1, a) && HasRunIn(g, d2, b);
    assert d1 == d2;
    assert r1 == r2 && c1 == c2;
  }

  /** The largest row k <= r whose cell in column col is empty, or -1 when
      rows 0..r of the column are all occupied. */
  ghost function LowestEmptyFrom<T>(g: seq<seq<T>>, col: int, empty: T, r: int): (row: int)
    requires IsGrid(g) && 0 <= col < Cols && -1 <= r < Rows
    ensures -1 <= row <= r
    ensures row >= 0 ==> g[row][col] == empty
    ensures forall k :: row < k <= r ==> g[k][col] != empty
    decreases r + 1
  {
    if r < 0 then -1
    else if g[r][col] == empty then r
    else LowestEmptyFrom(g, col, empty, r - 1)
  }

  /** The row a piece dropped into column col comes to rest on: the lowest
      empty cell of the column, or -1 when the column is full. */
  ghost function LowestEmpty<T>(g: seq<seq<T>>, col: int, empty: T): (row: int)
    requires IsGrid(g) && 0 <= col < Cols
    ensures -1 <= row < Rows
    ensures row == -1 <==> forall k :: 0 <= k < Rows ==> g[k][col] != empty
    ensures row >= 0 ==> g[row][col] == empty && forall k :: row < k < Rows ==> g[k][col] != empty
  {
    LowestEmptyFrom(g, col, empty, Rows - 1)
  }

  /** The grid with exactly cell (r, c) replaced by v. */
  ghost function Place<T>(g: seq<seq<T>>, r: int, c: int, v: T): (h: seq<seq<T>>)
    requires IsGrid(g) && InBounds(r, c)
    ensures IsGrid(h)
    ensures h[r][c] == v
    ensures forall i, j :: InBounds(i, j) && (i != r || j != c) ==> h[i][j] == g[i][j]
  {
    g[r := g[r][c := v]]
  }

  /** A gravity drop of piece into column col: whether it was accepted, and
      the grid afterwards. */
  ghost function Drop<T>(g: seq<seq<T>>, col: int, piece: T, empty: T): (res: (bool, seq<seq<T>>))
    requires IsGrid(g)
    ensures IsGrid(res.1)
    // accepted exactly when the column exists and has an empty cell
    ensures res.0 <==> 0 <= col < Cols && exists k :: 0 <= k < Rows && g[k][col] == empty
    // a rejected drop changes nothing
    ensures !res.0 ==> res.1 == g
    // occupied cells are never overwritten
    ensures forall i, j :: InBounds(i, j) && g[i][j] != empty ==> res.1[i][j] == g[i][j]
  {
    if col < 0 || col >= Cols then (false, g)
    else
      var row := LowestEmpty(g, col, empty);
      if row < 0 then (false, g) else (true, Place(g, row, col, piece))
  }

  /** An accepted drop puts the piece on the lowest empty cell of the column
      and leaves every other cell as it was. */
  lemma DropLandsLowest<T>(g: seq<seq<T>>, col: int, piece: T, empty: T)
    requires IsGrid(g) && Drop(g, col, piece, empty).0
    ensures 0 <= col < Cols
    ensures var row, h := LowestEmpty(g, col, empty), Drop(g, col, piece, empty).1;
            0 <= row < Rows && g[row][col] == empty && h[row][col] == piece &&
            (forall k :: row < k < Rows ==> g[k][col] != empty) &&
            (forall i, j :: InBounds(i, j) && (i != row || j != col) ==> h[i][j] == g[i][j])
  {
  }

  /** Dropping a piece never leaves a gap under an occupied cell. */
  lemma DropKeepsNoFloating<T>(g: seq<seq<T>>, col: int, piece: T, empty: T)
    requires NoFloating(g, empty)
    ensures NoFloating(Drop(g, col, piece, empty).1, empty)
  {
  }

  /** Writing p into one cell creates no run for any other value q. */
  lemma PlaceCreatesOnlyOwnRuns<T>(g: seq<seq<T>>, r: int, c: int, p: T, q: T)
    requires IsGrid(g) && InBounds(r, c) && q != p
    requires HasRun(Place(g, r, c, p), q)
    ensures HasRun(g, q)
  {
    var h := Place(g, r, c, p);
    var d :| HasRunIn(h, d, q);
    var i, j :| RunAt(h, i, j, d, q);
    assert RunAt(g, i, j, d, q);
    assert HasRunIn(g, d, q);
  }

  /** On a grid where nobody has four in a row, a drop can only produce a
      run for the piece that was dropped. */
  lemma DropWinnerIsMover<T(!new)>(g: seq<seq<T>>, col: int, piece: T, empty: T, w: T)
    requires IsGrid(g) && !HasAnyRun(g, empty)
    requires w != empty && HasRun(Drop(g, col, piece, empty).1, w)
    ensures w == piece
  {
    var (ok, h) := Drop(g, col, piece, empty);
    if w != piece {
      if ok {
        PlaceCreatesOnlyOwnRuns(g, LowestEmpty(g, col, empty), col, piece, w);
      }
      assert false;
    }
  }

  /** The empty grid is not full, has no floating piece and no run of four. */
  lemma AllEmptyIsFresh<T(!new)>(g: seq<seq<T>>, empty: T)
    requires AllEmpty(g, empty)
    ensures !Full(g, empty)
    ensures NoFloating(g, empty)
    ensures !HasAnyRun(g, empty)
  {
    assert g[0][0] == empty;
  }

  /** n successive drops of the same piece into the same column. */
  ghost function DropRepeated<T>(g: seq<seq<T>>, col: int, piece: T, empty: T, n: nat): (h: seq<seq<T>>)
    requires IsGrid(g)
    ensures IsGrid(h)
  {
    if n == 0 then g else Drop(DropRepeated(g, col, piece, empty, n - 1), col, piece, empty).1
  }

  /** Column col holds piece in its bottom n cells and every other cell of
      the grid is empty. */
  ghost predicate BottomFilled<T>(h: seq<seq<T>>, col: int, piece: T, empty: T, n: nat) {
    IsGrid(h) &&
    forall r, c :: InBounds(r, c) ==> h[r][c] == (if c == col && r >= Rows - n then piece else empty)
  }

  /** On an empty grid, n <= Rows drops into one column fill its bottom n
      cells and nothing else. */
  lemma {:induction false} FillColumnBottomUp<T>(col: int, piece: T, empty: T, n: nat)
    requires 0 <= col < Cols && piece != empty && n <= Rows
    ensures BottomFilled(DropRepeated(EmptyGrid(empty), col, piece, empty, n), col, piece, empty, n)
  {
    if n > 0 {
      FillColumnBottomUp(col, piece, empty, n - 1);
      var prev := DropRepeated(EmptyGrid(empty), col, piece, empty, n - 1);
      NextDropRow(prev, col, piece, empty, n - 1);
      DropLandsLowest(prev, col, piece, empty);
    }
  }

  /** When exactly the bottom n cells of column col are occupied, whatever
      the other columns hold, the next drop lands on row Rows - 1 - n; with
      all Rows cells occupied the column is full (-1) and a drop is
      rejected. */
  lemma NextDropRow<T>(h: seq<seq<T>>, col: int, piece: T, empty: T, n: nat)
    requires IsGrid(h) && 0 <= col < Cols && n <= Rows
    requires forall r :: 0 <= r < Rows ==> (h[r][col] != empty <==> r >= Rows - n)
    ensures LowestEmpty(h, col, empty) == Rows - 1 - n
    ensures Drop(h, col, piece, empty).0 == (n < Rows)
  {
    var row := LowestEmpty(h, col, empty);
    if n < Rows {
      assert h[Rows - 1 - n][col] == empty;
    }
  }

  /** On an empty grid, successive drops into one column land on rows 5, 4,
      3, 2, 1 and 0; the seventh drop is rejected. */
  lemma ColumnFillOrder<T>(col: int, piece: T, empty: T, n: nat)
    requires 0 <= col < Cols && piece != empty && n <= Rows
    ensures var h := DropRepeated(EmptyGrid(empty), col, piece, empty, n);
            LowestEmpty(h, col, empty) == Rows - 1 - n &&
            Drop(h, col, piece, empty).0 == (n < Rows)
  {
    FillColumnBottomUp(col, piece, empty, n);
    NextDropRow(DropRepeated(EmptyGrid(empty), col, piece, empty, n), col, piece, empty, n);
  }

  /** On an empty grid, one piece dropped into columns 0, 1, 2 and 3 lands
      on the bottom row each time and makes four in a row. */
  lemma BottomRowWin<T>(piece: T, empty: T)
    requires piece != empty
    ensures var g0 := EmptyGrid(empty);
            var g1 := Drop(g0, 0, piece, empty).1;
            var g2 := Drop(g1, 1, piece, empty).1;
            var g3 := Drop(g2, 2, piece, empty).1;
            HasRun(Drop(g3, 3, piece, empty).1, piece)
  {
    var g0 := EmptyGrid(empty);
    var g1 := Drop(g0, 0, piece, empty).1;
    var g2 := Drop(g1, 1, piece, empty).1;
    var g3 := Drop(g2, 2, piece, empty).1;
    var g4 := Drop(g3, 3, piece, empty).1;
    assert LowestEmpty(g0, 0, empty) == Rows - 1;
    assert LowestEmpty(g1, 1, empty) == Rows - 1;
    assert LowestEmpty(g2, 2, empty) == Rows - 1;
    assert LowestEmpty(g3, 3, empty) == Rows - 1;
    assert RunAt(g4, Rows - 1, 0, Horizontal, piece);
    assert HasRunIn(g4, Horizontal, piece);
  }
}
