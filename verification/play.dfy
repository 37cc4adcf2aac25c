/** performMove: the move a player (or the engine) actually plays on the
    game state, with en-passant capture, promotion, the moved-pawn list,
    the repetition history and the end-of-game test. Sounds, rendering and
    the delayed result message are not part of the model. */
module Play {
  import opened Values
  import opened Pieces
  import opened Grids
  import opened Rules
  import opened Legality
  import opened State
  import Board
  import Status

  /** The fields of the game state that performMove reads or writes. */
  datatype Turn = Turn(grid: Grid, ep: Option<Square>, moved: seq<Square>, history: seq<string>,
                       currentPlayer: Color, gameOver: bool)

  function TurnOf(st: GameState): Turn
    reads st, st.boardState
  {
    Turn(Cells(st.boardState), st.enPassantTarget, st.movedPawnPositions, st.moveHistory,
         st.currentPlayer, st.gameOver)
  }

  /** A pawn moving sideways onto an empty square takes the pawn beside it. */
  predicate EnPassantCapture(g: Grid, fromX: int, fromY: int, toX: int, toY: int) {
    ToLower(At(g, fromX, fromY)) == 'p' && toX != fromX && At(g, toX, toY) == Empty
  }

  /** The board after performMove: the en-passant victim removed, the
      piece moved, and a pawn on its last row replaced by a queen. */
  function PlayedGrid(g: Grid, fromX: int, fromY: int, toX: int, toY: int): Grid {
    var piece := At(g, fromX, fromY);
    var g1 := if EnPassantCapture(g, fromX, fromY, toX, toY) then Set(g, toX, fromY, Empty) else g;
    var g2 := Set(Set(g1, toX, toY, piece), fromX, fromY, Empty);
    if piece == 'P' && toY == 0 then Set(g2, toX, toY, 'Q')
    else if piece == 'p' && toY == |g| - 1 then Set(g2, toX, toY, 'q')
    else g2
  }

  /** The en-passant target after performMove; the column is the origin's. */
  function PlayedEnPassant(g: Grid, fromX: int, fromY: int, toX: int, toY: int): Option<Square> {
    if ToLower(At(g, fromX, fromY)) == 'p' && Abs(toY - fromY) == 2
    then Some(Square(fromX, (fromY + toY) / 2))
    else None
  }

  /** `s` without every occurrence of `x`, in order (`Array.prototype.filter`). */
  function Without(s: seq<Square>, x: Square): (r: seq<Square>)
    ensures forall y :: y in r <==> y in s && y != x
    ensures |r| <= |s|
  {
    if |s| == 0 then []
    else
      var rest := Without(s[..|s| - 1], x);
      assert forall y :: y in s <==> y in s[..|s| - 1] || y == s[|s| - 1];
      if s[|s| - 1] == x then rest else rest + [s[|s| - 1]]
  }

  /** The moved-pawn list after performMove: a pawn's destination is added
      if missing, then its origin is filtered out. */
  function PlayedMoved(g: Grid, moved: seq<Square>, fromX: int, fromY: int, toX: int, toY: int)
    : seq<Square>
  {
    if ToLower(At(g, fromX, fromY)) == 'p' then
      var added := if Square(toX, toY) in moved then moved else moved + [Square(toX, toY)];
      Without(added, Square(fromX, fromY))
    else moved
  }

  /** performMove as a function of the turn: nothing once the game is over;
      otherwise the move is played, the mover's signature recorded, and the
      next player's outcome ends the game or hands over the turn (unless
      `skipSwitch`). */
  function Perform(t: Turn, fromX: int, fromY: int, toX: int, toY: int, skipSwitch: bool): Turn {
    if t.gameOver then t
    else
      var grid := PlayedGrid(t.grid, fromX, fromY, toX, toY);
      var ep := PlayedEnPassant(t.grid, fromX, fromY, toX, toY);
      var moved := PlayedMoved(t.grid, t.moved, fromX, fromY, toX, toY);
      var history := t.history + [Signature(grid, t.currentPlayer)];
      var next := Opponent(t.currentPlayer);
      var result := GameStatus(Pos(grid, ep, moved), next, false, history);
      if result != Ongoing then Turn(grid, ep, moved, history, t.currentPlayer, true)
      else Turn(grid, ep, moved, history, if skipSwitch then t.currentPlayer else next, false)
  }

  /** The squares performMove writes: the origin is emptied, the target
      holds the piece or its queen, a pawn taken en passant disappears, and
      every other square keeps its piece. */
  lemma PlayedCells(g: Grid, fromX: int, fromY: int, toX: int, toY: int)
    requires InBounds(g, fromX, fromY) && InBounds(g, toX, toY) && (fromX, fromY) != (toX, toY)
    ensures var g' := PlayedGrid(g, fromX, fromY, toX, toY);
      var piece := At(g, fromX, fromY);
      |g'| == |g| && (forall y | 0 <= y < |g| :: |g'[y]| == |g[y]|) &&
      At(g', fromX, fromY) == Empty &&
      At(g', toX, toY) == (if piece == 'P' && toY == 0 then 'Q'
                           else if piece == 'p' && toY == |g| - 1 then 'q' else piece) &&
      (EnPassantCapture(g, fromX, fromY, toX, toY) && fromY != toY ==> At(g', toX, fromY) == Empty) &&
      (forall x, y | (x, y) != (fromX, fromY) && (x, y) != (toX, toY) &&
                     (!EnPassantCapture(g, fromX, fromY, toX, toY) || (x, y) != (toX, fromY)) ::
         At(g', x, y) == At(g, x, y))
  {
  }

  /** Away from en passant, performMove leaves the board makeMove leaves;
      the two en-passant targets differ only in their column, which agree
      for a pawn moving straight. */
  lemma PlayedLikeMakeMove(p: Pos, fromX: int, fromY: int, toX: int, toY: int)
    requires InBounds(p.grid, fromX, fromY) && InBounds(p.grid, toX, toY)
    requires (fromX, fromY) != (toX, toY) && !EnPassantCapture(p.grid, fromX, fromY, toX, toY)
    ensures var m := Move(fromX, fromY, toX, toY, At(p.grid, fromX, fromY));
      PlayedGrid(p.grid, fromX, fromY, toX, toY) == MakeMove(p, m).pos.grid &&
      (fromX == toX ==> PlayedEnPassant(p.grid, fromX, fromY, toX, toY) == MakeMove(p, m).pos.ep)
  {
    var m := Move(fromX, fromY, toX, toY, At(p.grid, fromX, fromY));
    var a := PlayedGrid(p.grid, fromX, fromY, toX, toY);
    var b := MakeMove(p, m).pos.grid;
    PlayedCells(p.grid, fromX, fromY, toX, toY);
    MakeMoveCells(p, m);
    GridExt(a, b);
  }

  /** A pawn move records the destination and forgets the origin; every
      other square keeps its membership, and other pieces leave the list
      alone. */
  lemma PlayedMovedKeys(g: Grid, moved: seq<Square>, fromX: int, fromY: int, toX: int, toY: int)
    ensures var r := PlayedMoved(g, moved, fromX, fromY, toX, toY);
      (ToLower(At(g, fromX, fromY)) == 'p' ==>
         Square(fromX, fromY) !in r &&
         ((toX, toY) != (fromX, fromY) ==> Square(toX, toY) in r) &&
         (forall s | s != Square(fromX, fromY) && s != Square(toX, toY) :: s in r <==> s in moved)) &&
      (ToLower(At(g, fromX, fromY)) != 'p' ==> r == moved)
  {
  }

  /** No square is listed twice. */
  predicate NoDuplicates(s: seq<Square>) {
    forall i, j | 0 <= i < j < |s| :: s[i] != s[j]
  }

  /** Filtering keeps a list free of duplicates. */
  lemma {:induction false} WithoutNoDuplicates(s: seq<Square>, x: Square)
    requires NoDuplicates(s)
    ensures NoDuplicates(Without(s, x))
  {
    if |s| > 0 {
      var init := s[..|s| - 1];
      assert NoDuplicates(init);
      WithoutNoDuplicates(init, x);
      var last := s[|s| - 1];
      assert last !in init;
      assert last !in Without(init, x);
    }
  }

  /** The moved-pawn list gains no duplicate: the destination is appended
      only when it is missing, and filtering keeps the rest distinct. */
  lemma PlayedMovedNoDuplicates(g: Grid, moved: seq<Square>, fromX: int, fromY: int, toX: int,
                                toY: int)
    requires NoDuplicates(moved)
    ensures NoDuplicates(PlayedMoved(g, moved, fromX, fromY, toX, toY))
  {
    if ToLower(At(g, fromX, fromY)) == 'p' {
      var added := if Square(toX, toY) in moved then moved else moved + [Square(toX, toY)];
      assert NoDuplicates(added);
      WithoutNoDuplicates(added, Square(fromX, fromY));
    }
  }

  /** Once the game is over nothing changes; otherwise the history grows
      by the mover's signature of the new board, the game ends exactly when
      the next player's outcome is not "ongoing", and the turn passes
      exactly when it goes on and the switch is not skipped. */
  lemma PerformMeaning(t: Turn, fromX: int, fromY: int, toX: int, toY: int, skipSwitch: bool)
    ensures var t' := Perform(t, fromX, fromY, toX, toY, skipSwitch);
      (t.gameOver ==> t' == t) &&
      (!t.gameOver ==>
         var grid := PlayedGrid(t.grid, fromX, fromY, toX, toY);
         var pos := Pos(grid, PlayedEnPassant(t.grid, fromX, fromY, toX, toY),
                        PlayedMoved(t.grid, t.moved, fromX, fromY, toX, toY));
         var result := GameStatus(pos, Opponent(t.currentPlayer), false, t'.history);
         t'.grid == grid && t'.history == t.history + [Signature(grid, t.currentPlayer)] &&
         (t'.gameOver <==> result in {Checkmate, Draw, Repetition}) &&
         (t'.currentPlayer != t.currentPlayer <==> !t'.gameOver && !skipSwitch))
  {
  }

  /** The board writes of performMove. */
  method MovePiece(board: array2<char>, fromX: int, fromY: int, toX: int, toY: int)
    requires Board.OnArray(board, fromX, fromY) && Board.OnArray(board, toX, toY)
    modifies board
    ensures Cells(board) == PlayedGrid(old(Cells(board)), fromX, fromY, toX, toY)
  {
    ghost var g := Cells(board);
    var piece := board[fromY, fromX];
    if ToLower(piece) == 'p' && toX != fromX && board[toY, toX] == Empty {
      Board.Write(board, toX, fromY, Empty);
    }
    assert Cells(board) ==
      if EnPassantCapture(g, fromX, fromY, toX, toY) then Set(g, toX, fromY, Empty) else g;
    Board.Write(board, toX, toY, piece);
    Board.Write(board, fromX, fromY, Empty);
    var rows := board.Length0;
    if piece == 'P' && toY == 0 {
      Board.Write(board, toX, toY, 'Q');
    } else if piece == 'p' && toY == rows - 1 {
      Board.Write(board, toX, toY, 'q');
    }
  }

  /** performMove up to the recorded signature: the board, the en-passant
      target, the moved-pawn list and the history. */
  method Advance(fromX: int, fromY: int, toX: int, toY: int, st: GameState)
    requires Board.OnArray(st.boardState, fromX, fromY) && Board.OnArray(st.boardState, toX, toY)
    modifies st.boardState, st`enPassantTarget, st`movedPawnPositions, st`moveHistory
    ensures var g := old(Cells(st.boardState));
      Cells(st.boardState) == PlayedGrid(g, fromX, fromY, toX, toY) &&
      st.enPassantTarget == PlayedEnPassant(g, fromX, fromY, toX, toY) &&
      st.movedPawnPositions == PlayedMoved(g, old(st.movedPawnPositions), fromX, fromY, toX, toY) &&
      st.moveHistory == old(st.moveHistory) + [Signature(Cells(st.boardState), st.currentPlayer)]
  {
    hide PlayedGrid, Signature;
    var board := st.boardState;
    var piece := board[fromY, fromX];
    MovePiece(board, fromX, fromY, toX, toY);
    st.enPassantTarget :=
      if ToLower(piece) == 'p' && Abs(toY - fromY) == 2 then Some(Square(fromX, (fromY + toY) / 2))
      else None;
    if ToLower(piece) == 'p' {
      var fromKey := Square(fromX, fromY);
      var toKey := Square(toX, toY);
      if toKey !in st.movedPawnPositions {
        st.movedPawnPositions := st.movedPawnPositions + [toKey];
      }
      st.movedPawnPositions := Without(st.movedPawnPositions, fromKey);
    }
    var signature := Signature(Cells(board), st.currentPlayer);
    st.moveHistory := st.moveHistory + [signature];
  }

  /** performMove on the game state. */
  method PerformMove(fromX: int, fromY: int, toX: int, toY: int, skipSwitch: bool, st: GameState)
    requires Board.OnArray(st.boardState, fromX, fromY) && Board.OnArray(st.boardState, toX, toY)
    modifies st.boardState, st`enPassantTarget, st`movedPawnPositions, st`moveHistory,
      st`gameOver, st`currentPlayer
    ensures TurnOf(st) == Perform(old(TurnOf(st)), fromX, fromY, toX, toY, skipSwitch)
  {
    hide GameStatus, PlayedGrid, PlayedEnPassant, PlayedMoved, Signature;
    if st.gameOver {
      return;
    }
    Advance(fromX, fromY, toX, toY, st);
    ghost var t := TurnOf(st);
    var nextPlayer := Opponent(st.currentPlayer);
    var result := Status.GetGameState(nextPlayer, st.boardState, st, false, st.moveHistory);
    assert TurnOf(st) == t;
    if result == Checkmate {
      st.gameOver := true;
      return;
    }
    if result == Draw || result == Repetition {
      st.gameOver := true;
      return;
    }
    if !skipSwitch && !st.gameOver {
      st.currentPlayer := nextPlayer;
    }
  }
}
