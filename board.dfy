/**
 * The Connect-Four token grid as a value: its cells, the gravity scan that
 * picks the landing row of a dropped token, the commit of a token, and the
 * facts about occupancy and gravity that every drop keeps.
 *
 * A grid is indexed as g[x][y]: x is the board column, y the row, and the
 * row with the HIGHEST index (|g[x]| - 1) is the floor of the column.
 */
module Board {

  /** One cell of the board, `{ player }`; player 0 means the cell is empty. */
  datatype Token = Token(player: int)

  /** The player number the scene writes on every committed token. */
  const CommittedPlayer := 1

  /** A board as a sequence of columns of cells. */
  type Grid = seq<seq<Token>>

  predicate Occupied(t: Token) {
    t.player != 0
  }

  /** Every column of `g` holds `height` cells and there are `width` columns. */
  ghost predicate Shaped(g: Grid, width: nat, height: nat) {
    |g| == width && forall x :: 0 <= x < |g| ==> |g[x]| == height
  }

  /** The freshly initialised board: `width` columns of `height` empty cells. */
  function EmptyGrid(width: nat, height: nat): Grid {
    seq(width, _ => seq(height, _ => Token(0)))
  }

  /**
   * Gravity within one column: an occupied cell has only occupied cells
   * between it and the floor, so the occupied cells form one block that ends
   * at the floor row.
   */
  ghost predicate SettledColumn(c: seq<Token>) {
    forall i, j :: 0 <= i < j < |c| && Occupied(c[i]) ==> Occupied(c[j])
  }

  /** Gravity on the whole board. */
  ghost predicate Settled(g: Grid) {
    forall x :: 0 <= x < |g| ==> SettledColumn(g[x])
  }

  /**
   * The scan of the drop loop from row `i` towards row 0: the first row met
   * that is empty, or -1 once the scan has run past row 0.
   */
  function LandingRowFrom(c: seq<Token>, i: int): (r: int)
    requires -1 <= i < |c|
    ensures -1 <= r <= i
    ensures r >= 0 ==> !Occupied(c[r])
    ensures forall k :: r < k <= i ==> Occupied(c[k])
    decreases i + 1
  {
    if i < 0 then -1
    else if c[i].player == 0 then i
    else LandingRowFrom(c, i - 1)
  }

  /**
   * The row a token dropped into column `c` lands on: the largest index
   * holding an empty cell, every cell below it (larger index) being occupied;
   * -1 exactly when the column has no empty cell.
   */
  function LandingRow(c: seq<Token>): (r: int)
    ensures -1 <= r < |c|
    ensures r >= 0 ==> !Occupied(c[r])
    ensures forall k :: r < k < |c| ==> Occupied(c[k])
    ensures r < 0 <==> forall y :: 0 <= y < |c| ==> Occupied(c[y])
  {
    LandingRowFrom(c, |c| - 1)
  }

  /** The landing row is the only row with the two properties above. */
  lemma LandingRowUnique(c: seq<Token>, r: int)
    requires -1 <= r < |c|
    requires r >= 0 ==> !Occupied(c[r])
    requires forall k :: r < k < |c| ==> Occupied(c[k])
    ensures LandingRow(c) == r
  {
  }

  /** Under gravity, every cell from the top of a column down to its landing row is empty. */
  lemma SettledAboveLanding(c: seq<Token>, y: int)
    requires SettledColumn(c)
    requires 0 <= y <= LandingRow(c)
    ensures !Occupied(c[y])
  {
  }

  /** Writes player `p` into cell (x, y) and leaves every other cell as it was. */
  function Place(g: Grid, x: int, y: int, p: int): (r: Grid)
    requires 0 <= x < |g| && 0 <= y < |g[x]|
    ensures |r| == |g| && forall i :: 0 <= i < |g| ==> |r[i]| == |g[i]|
  {
    g[x := g[x][y := Token(p)]]
  }

  /**
   * One whole accepted-or-rejected drop into column `x`, as the scene does it
   * from the request to the end of the fall: the token lands on the landing
   * row and is committed as player 1; a full column is left alone.
   */
  function Drop(g: Grid, x: int): (r: Grid)
    requires 0 <= x < |g|
    ensures |r| == |g| && forall i :: 0 <= i < |g| ==> |r[i]| == |g[i]|
    ensures forall i :: 0 <= i < |g| && i != x ==> r[i] == g[i]
  {
    var row := LandingRow(g[x]);
    if row < 0 then g else Place(g, x, row, CommittedPlayer)
  }

  /** Number of occupied cells in a column. */
  function ColumnCount(c: seq<Token>): nat {
    if c == [] then 0 else (if Occupied(c[0]) then 1 else 0) + ColumnCount(c[1..])
  }

  /** Number of occupied cells on the board. */
  function OccupiedCount(g: Grid): nat {
    if g == [] then 0 else ColumnCount(g[0]) + OccupiedCount(g[1..])
  }

  /** A column never counts more occupied cells than it has, and counts all of them exactly when it is full. */
  lemma {:induction false} ColumnCountBound(c: seq<Token>)
    ensures ColumnCount(c) <= |c|
    ensures ColumnCount(c) == |c| <==> forall y :: 0 <= y < |c| ==> Occupied(c[y])
  {
    if c != [] {
      ColumnCountBound(c[1..]);
      assert forall y :: 0 <= y < |c[1..]| ==> c[1..][y] == c[y + 1];
    }
  }

  /** Filling one empty cell of a column with a player adds exactly one to its count. */
  lemma {:induction false} PlaceColumnCount(c: seq<Token>, y: int, p: int)
    requires 0 <= y < |c| && !Occupied(c[y]) && p != 0
    ensures ColumnCount(c[y := Token(p)]) == ColumnCount(c) + 1
  {
    if y == 0 {
      assert c[y := Token(p)][1..] == c[1..];
    } else {
      assert c[y := Token(p)][1..] == c[1..][y - 1 := Token(p)];
      PlaceColumnCount(c[1..], y - 1, p);
    }
  }

  /** Changing one column of the board changes the board's count by that column's change. */
  lemma {:induction false} ReplaceColumnCount(g: Grid, x: int, c: seq<Token>)
    requires 0 <= x < |g|
    ensures OccupiedCount(g[x := c]) + ColumnCount(g[x]) == OccupiedCount(g) + ColumnCount(c)
  {
    if x == 0 {
      assert g[x := c][1..] == g[1..];
    } else {
      assert g[x := c][1..] == g[1..][x - 1 := c];
      ReplaceColumnCount(g[1..], x - 1, c);
    }
  }

  /** Committing a token on an empty cell grows the occupied-cell count by exactly one. */
  lemma PlaceCount(g: Grid, x: int, y: int, p: int)
    requires 0 <= x < |g| && 0 <= y < |g[x]| && !Occupied(g[x][y]) && p != 0
    ensures OccupiedCount(Place(g, x, y, p)) == OccupiedCount(g) + 1
  {
    PlaceColumnCount(g[x], y, p);
    ReplaceColumnCount(g, x, g[x][y := Token(p)]);
  }

  /** A board on which no cell is occupied counts zero. */
  lemma {:induction false} NothingOccupiedCount(g: Grid)
    requires forall x, y :: 0 <= x < |g| && 0 <= y < |g[x]| ==> !Occupied(g[x][y])
    ensures OccupiedCount(g) == 0
  {
    if g != [] {
      ColumnEmptyCount(g[0]);
      NothingOccupiedCount(g[1..]);
    }
  }

  lemma {:induction false} ColumnEmptyCount(c: seq<Token>)
    requires forall y :: 0 <= y < |c| ==> !Occupied(c[y])
    ensures ColumnCount(c) == 0
  {
    if c != [] {
      assert !Occupied(c[0]);
      ColumnEmptyCount(c[1..]);
    }
  }

  /** The initial board has the requested shape, no occupied cell, and satisfies gravity. */
  lemma EmptyGridFacts(width: nat, height: nat)
    ensures Shaped(EmptyGrid(width, height), width, height)
    ensures Settled(EmptyGrid(width, height))
    ensures OccupiedCount(EmptyGrid(width, height)) == 0
  {
    NothingOccupiedCount(EmptyGrid(width, height));
  }

  /** Gravity is kept by a drop: the token fills the empty cell just above the column's occupied block. */
  lemma DropPreservesSettled(g: Grid, x: int)
    requires Settled(g) && 0 <= x < |g|
    ensures Settled(Drop(g, x))
  {
    var c := g[x];
    var r := LandingRow(c);
    if r >= 0 {
      var c' := c[r := Token(CommittedPlayer)];
      assert Drop(g, x)[x] == c';
      forall i, j | 0 <= i < j < |c'| && Occupied(c'[i]) ensures Occupied(c'[j]) {
        assert r <= i;
      }
    }
  }

  /** A drop into a column that still has an empty cell adds one token; a drop into a full column adds none. */
  lemma DropCount(g: Grid, x: int)
    requires 0 <= x < |g|
    ensures LandingRow(g[x]) >= 0 ==> OccupiedCount(Drop(g, x)) == OccupiedCount(g) + 1
    ensures LandingRow(g[x]) < 0 ==> Drop(g, x) == g
  {
    var r := LandingRow(g[x]);
    if r >= 0 {
      PlaceCount(g, x, r, CommittedPlayer);
    }
  }

  /** A column with fewer occupied cells than rows accepts a drop. */
  lemma RoomMeansLanding(c: seq<Token>)
    requires ColumnCount(c) < |c|
    ensures LandingRow(c) >= 0
  {
    ColumnCountBound(c);
  }

  /** `k` drops in a row into the same column `x`. */
  function DropRepeat(g: Grid, x: int, k: nat): (r: Grid)
    requires 0 <= x < |g|
    ensures |r| == |g| && forall i :: 0 <= i < |g| ==> |r[i]| == |g[i]|
  {
    if k == 0 then g else Drop(DropRepeat(g, x, k - 1), x)
  }

  /**
   * Dropping `k` tokens into a column with room for them stacks exactly `k`
   * more tokens in it and keeps gravity.
   */
  lemma {:induction false} DropRepeatFills(g: Grid, x: int, k: nat)
    requires Settled(g) && 0 <= x < |g|
    requires ColumnCount(g[x]) + k <= |g[x]|
    ensures Settled(DropRepeat(g, x, k))
    ensures ColumnCount(DropRepeat(g, x, k)[x]) == ColumnCount(g[x]) + k
  {
    if k > 0 {
      DropRepeatFills(g, x, k - 1);
      var prev := DropRepeat(g, x, k - 1);
      var r := LandingRow(prev[x]);
      RoomMeansLanding(prev[x]);
      PlaceColumnCount(prev[x], r, CommittedPlayer);
      assert DropRepeat(g, x, k)[x] == prev[x][r := Token(CommittedPlayer)];
      DropPreservesSettled(prev, x);
    }
  }

  /**
   * A column of height h that receives h drops from empty is full, and the
   * next drop into it is rejected and leaves the board as it was.
   */
  lemma FullColumnRejects(g: Grid, x: int)
    requires Settled(g) && 0 <= x < |g| && ColumnCount(g[x]) == 0
    ensures var full := DropRepeat(g, x, |g[x]|);
      LandingRow(full[x]) < 0 && Drop(full, x) == full
  {
    var full := DropRepeat(g, x, |g[x]|);
    DropRepeatFills(g, x, |g[x]|);
    ColumnCountBound(full[x]);
  }

  /** The drops of a whole sequence of column choices, one after the other. */
  function DropAll(g: Grid, cols: seq<int>): (r: Grid)
    requires forall i :: 0 <= i < |cols| ==> 0 <= cols[i] < |g|
    decreases |cols|
    ensures |r| == |g|
  {
    if cols == [] then g else DropAll(Drop(g, cols[0]), cols[1..])
  }

  /** How many of the drops in `cols` land, that is, are not into a full column. */
  function Accepted(g: Grid, cols: seq<int>): nat
    requires forall i :: 0 <= i < |cols| ==> 0 <= cols[i] < |g|
    decreases |cols|
  {
    if cols == [] then 0
    else (if LandingRow(g[cols[0]]) >= 0 then 1 else 0) + Accepted(Drop(g, cols[0]), cols[1..])
  }

  /** After any sequence of drops, the board holds one more token per accepted drop. */
  lemma {:induction false} DropAllCount(g: Grid, cols: seq<int>)
    requires forall i :: 0 <= i < |cols| ==> 0 <= cols[i] < |g|
    decreases |cols|
    ensures OccupiedCount(DropAll(g, cols)) == OccupiedCount(g) + Accepted(g, cols)
  {
    if cols != [] {
      DropCount(g, cols[0]);
      DropAllCount(Drop(g, cols[0]), cols[1..]);
    }
  }
}
