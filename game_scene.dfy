/**
 * The in-memory state of the Connect-Four scene: the token grid, the cursor
 * above the board and the falling-token record, with the two "busy" flags
 * that let only one cursor move and one token drop be animated at a time.
 *
 * Each animated action is split in two: a request method does what the scene
 * does synchronously (set the busy flag, compute the target and hand a
 * completion closure to the tween), and a completion method runs that
 * closure's body. The closure a tween holds is kept in `cursorTween` or
 * `tokenTween` together with the values it captured.
 */
module Scene {
  import opened Board

  datatype Option<T> = None | Some(value: T)

  /** The board's place on the tile map, in tile units. */
  datatype Rect = Rect(x: int, y: int, width: nat, height: nat)

  /** The cursor record: where it is, the columns it may visit, and its busy flag. */
  datatype BoardCursor = BoardCursor(x: int, y: int, minX: int, maxX: int, isMoving: bool, tileIndex: int)

  /** The falling-token record: its animation length and its busy flag. */
  datatype TokenData = TokenData(fallDuration: int, isMoving: bool)

  /** The completion closure of a cursor tween: it moves the cursor `dirX` columns. */
  datatype CursorMove = CursorMove(dirX: int)

  /** The completion closure of a token tween: it commits the token at (tokenX, dirY). */
  datatype TokenFall = TokenFall(tokenX: int, dirY: int)

  /** The board rectangle the scene's init sets up. */
  const InitialBoardRect := Rect(3, 5, 7, 7)
  const CursorTileIndex := 31
  const FallDuration := 400

  /** Column x of a token array, from row 0 (top) to the floor. */
  ghost function ColumnOf(a: array2<Token>, x: int): (c: seq<Token>)
    reads a
    requires 0 <= x < a.Length0
    ensures |c| == a.Length1
    ensures forall y :: 0 <= y < a.Length1 ==> c[y] == a[x, y]
  {
    seq(a.Length1, y requires 0 <= y < a.Length1 reads a => a[x, y])
  }

  /** A token array as a grid value, column by column. */
  ghost function GridOf(a: array2<Token>): (g: Grid)
    reads a
    ensures |g| == a.Length0
    ensures forall x :: 0 <= x < a.Length0 ==> g[x] == ColumnOf(a, x)
  {
    seq(a.Length0, x requires 0 <= x < a.Length0 reads a => ColumnOf(a, x))
  }

  class GameScene {
    const boardRect: Rect
    var cursor: BoardCursor
    /** tokens[x, y] is the cell in board column x and row y; row height - 1 is the floor. */
    var tokens: array2<Token>
    var tokenData: TokenData
    /** The cursor animation in flight, if any. */
    var cursorTween: Option<CursorMove>
    /** The token animation in flight, if any. */
    var tokenTween: Option<TokenFall>

    /** The grid as a value. */
    ghost function Tokens(): (g: Grid)
      reads this`tokens, tokens
      ensures |g| == tokens.Length0
      ensures forall x :: 0 <= x < tokens.Length0 ==> g[x] == ColumnOf(tokens, x)
    {
      GridOf(tokens)
    }

    /** The falling token lands on the landing row of a column of the board. */
    ghost predicate PendingFall(f: TokenFall)
      reads this`tokens, tokens
    {
      0 <= f.tokenX < tokens.Length0 && f.dirY >= 0 && f.dirY == LandingRow(ColumnOf(tokens, f.tokenX))
    }

    ghost predicate Valid()
      reads this, tokens
    {
      && tokens.Length0 == boardRect.width && tokens.Length1 == boardRect.height
      && cursor.minX == boardRect.x && cursor.maxX == boardRect.x + boardRect.width - 1
      && cursor.y == boardRect.y - 1
      && cursor.minX <= cursor.x <= cursor.maxX
      && (cursor.isMoving <==> cursorTween.Some?)
      && (cursorTween.Some? ==> cursor.minX <= cursor.x + cursorTween.value.dirX <= cursor.maxX)
      && Settled(Tokens())
      && (tokenData.isMoving <==> tokenTween.Some?)
      && (tokenTween.Some? ==> PendingFall(tokenTween.value))
    }

    /** The scene as its create step leaves it: cursor over the first column, an empty board, nothing moving. */
    constructor ()
      ensures Valid() && fresh(tokens)
      ensures boardRect == InitialBoardRect
      ensures cursor.x == boardRect.x && !cursor.isMoving && !tokenData.isMoving
      ensures Tokens() == EmptyGrid(boardRect.width, boardRect.height)
      ensures OccupiedCount(Tokens()) == 0
    {
      boardRect := InitialBoardRect;
      tokens := new Token[0, 0];
      new;
      InitializeCursor();
      InitializeTokens();
      EmptyGridFacts(boardRect.width, boardRect.height);
    }

    /** Puts the cursor above the leftmost column and sets the columns it may visit. */
    method InitializeCursor()
      modifies this`cursor, this`cursorTween
      ensures cursor == BoardCursor(boardRect.x, boardRect.y - 1, boardRect.x,
                                    boardRect.x + boardRect.width - 1, false, CursorTileIndex)
      ensures cursorTween == None
    {
      cursor := BoardCursor(boardRect.x, boardRect.y - 1, boardRect.x,
                            boardRect.x + boardRect.width - 1, false, CursorTileIndex);
      cursorTween := None;
    }

    /** Builds a width x height grid of empty cells and a token record that is not moving. */
    method InitializeTokens()
      modifies this`tokens, this`tokenData, this`tokenTween
      ensures fresh(tokens)
      ensures tokens.Length0 == boardRect.width && tokens.Length1 == boardRect.height
      ensures forall x, y :: 0 <= x < tokens.Length0 && 0 <= y < tokens.Length1 ==> tokens[x, y].player == 0
      ensures Tokens() == EmptyGrid(boardRect.width, boardRect.height)
      ensures tokenData == TokenData(FallDuration, false) && tokenTween == None
    {
      var grid := new Token[boardRect.width, boardRect.height];
      for x := 0 to boardRect.width
        invariant forall i, j :: 0 <= i < x && 0 <= j < boardRect.height ==> grid[i, j] == Token(0)
      {
        for y := 0 to boardRect.height
          invariant forall i, j :: 0 <= i < x && 0 <= j < boardRect.height ==> grid[i, j] == Token(0)
          invariant forall j :: 0 <= j < y ==> grid[x, j] == Token(0)
        {
          grid[x, y] := Token(0);
        }
      }
      tokens := grid;
      tokenData := TokenData(FallDuration, false);
      tokenTween := None;
      assert forall x | 0 <= x < tokens.Length0 :: Tokens()[x] == EmptyGrid(boardRect.width, boardRect.height)[x];
    }

    /** A screen column is on the board exactly when it lies between the board's left and right edge. */
    function IsValidCursorPosition(x: int): (b: bool)
      reads this, tokens
      requires Valid()
      ensures b <==> boardRect.x <= x <= boardRect.x + boardRect.width - 1
      ensures b ==> 0 <= x - boardRect.x < tokens.Length0
    {
      x >= cursor.minX && x <= cursor.maxX
    }

    /**
     * Requests a cursor move to column `newX`. A request while the cursor is
     * moving is ignored; otherwise the cursor becomes busy and its tween will
     * move it by the distance to `newX`.
     */
    method MoveCursorTo(newX: int)
      requires Valid() && IsValidCursorPosition(newX)
      modifies this`cursor, this`cursorTween
      ensures Valid()
      ensures old(cursor.isMoving) ==> cursor == old(cursor) && cursorTween == old(cursorTween)
      ensures !old(cursor.isMoving) ==>
        && cursor == old(cursor).(isMoving := true)
        && cursorTween == Some(CursorMove(newX - old(cursor.x)))
        && cursor.x + cursorTween.value.dirX == newX
    {
      var dirX := newX - cursor.x;
      if !cursor.isMoving {
        cursor := cursor.(isMoving := true);
        cursorTween := Some(CursorMove(dirX));
      }
    }

    /** Runs the cursor tween's completion: the cursor moves by the captured distance and is free again. */
    method CompleteCursorMove()
      requires Valid() && cursorTween.Some?
      modifies this`cursor, this`cursorTween
      ensures Valid()
      ensures cursor == old(cursor).(x := old(cursor.x + cursorTween.value.dirX), isMoving := false)
      ensures cursorTween == None
      ensures cursor.minX <= cursor.x <= cursor.maxX
    {
      var move := cursorTween.value;
      cursor := cursor.(x := cursor.x + move.dirX);
      cursor := cursor.(isMoving := false);
      cursorTween := None;
    }

    /**
     * Requests a token drop into screen column `x`. A request while a token
     * is moving is ignored. Otherwise the column is scanned from the floor up
     * for its first empty cell: if there is one, the token becomes busy and
     * its tween will commit it there; if the column is full, nothing happens.
     */
    method DropToken(x: int)
      requires Valid() && IsValidCursorPosition(x)
      modifies this`tokenData, this`tokenTween
      ensures Valid()
      ensures Tokens() == old(Tokens())
      ensures tokenData.fallDuration == old(tokenData.fallDuration)
      ensures old(tokenData.isMoving) ==> tokenData == old(tokenData) && tokenTween == old(tokenTween)
      ensures !old(tokenData.isMoving) ==>
        var col := x - boardRect.x;
        var row := LandingRow(Tokens()[col]);
        if row >= 0 then tokenData.isMoving && tokenTween == Some(TokenFall(col, row))
        else !tokenData.isMoving && tokenTween == None
    {
      if !tokenData.isMoving {
        tokenData := tokenData.(isMoving := true);
        var tokenX := x - boardRect.x;
        var dirY := boardRect.height - 1;
        while dirY >= 0
          invariant -1 <= dirY < boardRect.height
          invariant forall k :: dirY < k < boardRect.height ==> tokens[tokenX, k].player != 0
        {
          if tokens[tokenX, dirY].player == 0 {
            break;
          }
          dirY := dirY - 1;
        }
        LandingRowUnique(ColumnOf(tokens, tokenX), dirY);
        if dirY >= 0 {
          tokenTween := Some(TokenFall(tokenX, dirY));
        } else {
          tokenData := tokenData.(isMoving := false);
        }
      }
    }

    /**
     * Runs the token tween's completion: the landing cell is committed as
     * player 1 and the token record is free again. No other cell changes.
     */
    method CompleteTokenFall()
      requires Valid() && tokenTween.Some?
      modifies tokens, this`tokenData, this`tokenTween
      ensures Valid()
      ensures tokenTween == None && tokenData == old(tokenData).(isMoving := false)
      ensures var f := old(tokenTween.value);
        && tokens[f.tokenX, f.dirY].player == CommittedPlayer
        && forall i, j :: 0 <= i < tokens.Length0 && 0 <= j < tokens.Length1 && (i != f.tokenX || j != f.dirY) ==>
             tokens[i, j] == old(tokens[i, j])
      ensures Tokens() == Place(old(Tokens()), old(tokenTween.value.tokenX), old(tokenTween.value.dirY), CommittedPlayer)
      ensures Tokens() == Drop(old(Tokens()), old(tokenTween.value.tokenX))
      ensures OccupiedCount(Tokens()) == old(OccupiedCount(Tokens())) + 1
    {
      var fall := tokenTween.value;
      ghost var before := Tokens();
      tokens[fall.tokenX, fall.dirY] := Token(CommittedPlayer);
      tokenData := tokenData.(isMoving := false);
      tokenTween := None;
      ghost var after := Place(before, fall.tokenX, fall.dirY, CommittedPlayer);
      assert forall i | 0 <= i < tokens.Length0 :: Tokens()[i] == after[i];
      DropPreservesSettled(before, fall.tokenX);
      PlaceCount(before, fall.tokenX, fall.dirY, CommittedPlayer);
    }

    /** The pointer-move handler, given the tile column under the pointer. */
    method OnPointerMove(column: int)
      requires Valid()
      modifies this`cursor, this`cursorTween
      ensures Valid()
      ensures !IsValidCursorPosition(column) || old(cursor.isMoving) ==>
        cursor == old(cursor) && cursorTween == old(cursorTween)
      ensures IsValidCursorPosition(column) && !old(cursor.isMoving) ==>
        && cursor == old(cursor).(isMoving := true)
        && cursorTween == Some(CursorMove(column - old(cursor.x)))
        && cursor.x + cursorTween.value.dirX == column
    {
      if IsValidCursorPosition(column) {
        MoveCursorTo(column);
      }
    }

    /** The pointer-up handler, given the tile column under the pointer. */
    method OnPointerUp(column: int)
      requires Valid()
      modifies this`tokenData, this`tokenTween
      ensures Valid()
      ensures Tokens() == old(Tokens())
      ensures tokenData.fallDuration == old(tokenData.fallDuration)
      ensures !IsValidCursorPosition(column) || old(tokenData.isMoving) ==>
        tokenData == old(tokenData) && tokenTween == old(tokenTween)
      ensures IsValidCursorPosition(column) && !old(tokenData.isMoving) ==>
        var col := column - boardRect.x;
        var row := LandingRow(Tokens()[col]);
        if row >= 0 then tokenData.isMoving && tokenTween == Some(TokenFall(col, row))
        else !tokenData.isMoving && tokenTween == None
    {
      if IsValidCursorPosition(column) {
        DropToken(column);
      }
    }
  }
}
