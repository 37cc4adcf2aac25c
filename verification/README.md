# TinyChess core in Dafny

TinyChess is a browser chess-variant engine for boards of any size. It has
randomly generated starting positions: a random, a spin, a mirror and a
puzzle mode. This project models its rules engine and its search:

- the move rules and move lists (`moveValidation.js`);
- check, legal-move, draw and repetition detection, the position signature
  and the Zobrist fingerprint (`gameState.js`);
- playing and taking back moves (`moveHandler.js`);
- the search (`ai.js`): the material evaluation, the move-ordering
  heuristic, the capture-only quiescence search, alpha-beta minimax with
  its transposition table, iterative deepening, the mate search and the
  move notation;
- the board generator (`boardGenerator.js`).

The model has two layers.

- **Values.** A position is a `Pos`: the board as rows of one-character
  cells, the en-passant target and the list of squares pawns have moved
  to. Every operation is a function of it, in the modules `Rules`, `Grids`,
  `Legality`, `Play`, `Search`, `Layouts` and `Notation`. Lemmas state what
  each operation means.
- **The in-place engine.** The source's code mutates a shared board and a
  shared `state` object. Here the board is an `array2<char>` and the state
  is the class `State.GameState`. The methods in `Board`, `Validation`,
  `CheckScan`, `MoveGen`, `Status`, `Play`, `Ai` and `Generator` keep the
  source's loops and its make / test / unmake sequences. Each is proved to
  compute the matching function. Every search method also proves that it
  leaves the board and the state as it found them.

Conventions:

- An empty square (the empty string in the source) is the character `' '`.
- Scores are integers extended with the two infinities the search uses as
  bounds.
- Random draws, the clock and the Zobrist table's random numbers are
  parameters.

## Model

| member | source | states |
|---|---|---|
| Pieces.SameSideSymmetric | modules/moveValidation.js:7-12 | isSameSide is symmetric, and a piece on the same side as another is on its own side |
| Pieces.CurrentPlayerPieceSplit | modules/moveValidation.js:16-19 | a letter belongs to exactly one of the two players; a non-letter counts as both players' piece |
| Pieces.ValueIgnoresCase | modules/ai.js:42-66 | both colours of a piece type have the same value |
| Pieces.ValueOf | modules/ai.js:42-66 | `pieceValues[c] \|\| 0` is never negative, and it is zero exactly for characters without a value |
| Rules.ClearFromMeaning | modules/moveValidation.js:23-35 | the stepping walk is clear exactly when every square it visits is empty |
| Rules.PathClearMeaning | modules/moveValidation.js:23-35 | isPathClear holds exactly when every square strictly between the two ends of the line is empty |
| Rules.LineEnds | modules/moveValidation.js:23-35 | stepping by the signs of dx and dy for the line's length reaches the target, so the walk stops |
| Validation.WalkEnds | modules/moveValidation.js:23-35 | the walk meets the target exactly after the line's length in steps |
| Validation.IsPathClear | modules/moveValidation.js:23-35 | the loop on the array answers the path-clear test of the board's cells |
| Rules.ValidMoveBasics | modules/moveValidation.js:39-46 | nothing moves from an empty square or onto its own side, so no piece stays where it is |
| Rules.LeaperMoves | modules/moveValidation.js:83-102 | a knight moves exactly by (1,2) or (2,1); a king moves exactly to an adjacent square |
| Rules.SliderMoves | modules/moveValidation.js:79-99 | rooks, bishops and queens move exactly along their lines through empty squares |
| Rules.PawnMoves | modules/moveValidation.js:49-76 | a pawn's valid moves, both directions: the single step, the double step from an unrecorded square over an empty one, and the diagonal capture or en-passant target |
| Validation.IsValidMove | modules/moveValidation.js:39-107 | the in-place isValidMove answers the rule function on the board and state it reads |
| Rules.PromotedTo | modules/moveHandler.js:210-215 | a white pawn reaching row 0 becomes 'Q' and a black pawn reaching the last row becomes 'q', and nothing else promotes |
| Rules.MakeMoveCells | modules/moveHandler.js:205-243 | makeMove empties the source and puts the piece or its queen on the target. No other cell changes, including the square of a pawn taken en passant. The moved-pawn list is untouched |
| Rules.MakeMoveEnPassant | modules/moveHandler.js:232-240 | the en-passant target is set exactly after a two-row pawn move, and it is the square passed over |
| Rules.UnmakeRestores | modules/moveHandler.js:247-262 | unmakeMove with makeMove's record restores the board, the en-passant target and the moved-pawn list |
| Board.Write | modules/moveHandler.js:217-218 | one array write changes exactly that cell of the board's value |
| Board.MakeMove | modules/moveHandler.js:205-243 | the in-place makeMove produces makeMove's position and undo record |
| Board.UnmakeMove | modules/moveHandler.js:247-262 | the in-place unmakeMove produces unmakeMove's position |
| Legality.FirstInRowMeaning | modules/gameState.js:14-20 | the row scan finds the first column holding the king, or reports that there is none |
| Legality.KingFromMeaning | modules/gameState.js:10-21 | the king scan whose break leaves only the row loop ends on a square holding the king whenever one exists |
| Legality.KingSquareMeaning | modules/gameState.js:10-21 | the king is found exactly when one is on the board, and on a square holding it |
| Legality.AttackFromMeaning | modules/gameState.js:27-39 | the attack scan from a square on finds an attacker exactly when one stands at or after that square |
| Legality.InCheckMeaning | modules/gameState.js:8-42 | a side without a king is not in check; otherwise it is in check exactly when an opposing piece may move onto its king |
| Legality.ValidMoveOntoPiece | modules/moveValidation.js:49-76 | a move onto an occupied square depends neither on the en-passant target nor on the moved-pawn list |
| Legality.InCheckBoardOnly | modules/gameState.js:8-42 | check depends on the board alone |
| CheckScan.IsInCheck | modules/gameState.js:8-42 | the in-place isInCheck answers the check predicate |
| Legality.DestScanNext | modules/moveValidation.js:119-132 | one more destination column appends exactly what the loop body pushes |
| Legality.ValidMovesMember | modules/moveValidation.js:111-136 | getValidMoves lists a destination exactly when it is on the board and valid, and, unless the check test is skipped, leaves the mover's king safe |
| MoveGen.LeavesInCheck | modules/moveValidation.js:125-130 | make, isInCheck, unmake answers check after the move and restores the board and state |
| MoveGen.DestStep | modules/moveValidation.js:120-131 | the loop body pushes what the destination function says |
| MoveGen.DestRow | modules/moveValidation.js:119-132 | the inner loop yields the row's destinations in order |
| MoveGen.DestRows | modules/moveValidation.js:118-133 | the outer loop yields all destinations in row-major order |
| MoveGen.GetValidMoves | modules/moveValidation.js:111-136 | the in-place getValidMoves returns the destination list and leaves the position as it was |
| Legality.PieceScanNext | modules/moveValidation.js:145-166 | one more square of the piece scan appends exactly what that square pushes |
| Legality.MovesFromMember | modules/moveValidation.js:153-165 | a piece's pushed moves are exactly its valid destinations that pass the check test |
| Legality.AllMovesMember | modules/moveValidation.js:140-170 | getAllMoves lists a move exactly when it moves a piece of the colour, tagged with that piece, to a valid square of the board and, unless skipped, keeps the king safe |
| Legality.AllMovesOnBoard | modules/moveValidation.js:140-170 | every listed move of a rectangular board stays on the board |
| MoveGen.PieceMoves | modules/moveValidation.js:153-165 | the loop over one piece's destinations pushes its moves |
| MoveGen.RowMoves | modules/moveValidation.js:145-166 | the loop over a row pushes that row's moves |
| MoveGen.GetAllMoves | modules/moveValidation.js:140-170 | the in-place getAllMoves returns the move list and leaves the position as it was |
| Legality.HasLegalMeaning | modules/gameState.js:46-84 | a legal move exists exactly when getAllMoves with the check test lists one, and its members are exactly the safe valid moves of the colour |
| Legality.HasLegalByPieces | modules/gameState.js:71-83 | trying the pieces in hasLegalMoves' order decides the same question |
| Legality.OwnSquaresNext | modules/gameState.js:52-62 | one more square of the collection loop appends that square if it holds a piece of the colour |
| Legality.PieceOrderMembers | modules/gameState.js:51-69 | the sorted piece list holds exactly the squares of the colour's pieces |
| Legality.PieceOrderKingsFirst | modules/gameState.js:65-69 | in the sorted piece list every king comes before every other piece |
| Status.RowPieces | modules/gameState.js:53-61 | one row of the collection loop collects that row's pieces of the colour |
| Status.CollectPieces | modules/gameState.js:51-62 | the collection loop yields the colour's squares in row-major order |
| Status.KingsFirst | modules/gameState.js:64-69 | the collected and sorted list is the kings-first piece order |
| Status.PieceHasSafeMove | modules/gameState.js:72-80 | the inner loop finds a destination that keeps the king safe exactly when one exists, and restores the position |
| Status.HasLegalMoves | modules/gameState.js:46-84 | the in-place hasLegalMoves answers whether a legal move exists and leaves the position as it was |
| Legality.Count | modules/gameState.js:93 | the repetition count is at most the history's length, and positive exactly when the signature occurs |
| Legality.GameStatusMeaning | modules/gameState.js:88-102 | checkmate means no legal move and in check. Repetition means three or more earlier signatures, outside the search. In the search the outcome is ongoing, checkmate or draw exactly as legal moves and check say |
| Status.GetGameState | modules/gameState.js:88-102 | the in-place getGameState answers the outcome function and leaves the position as it was |
| Grids.OnlyKingsLeftMeaning | modules/gameState.js:106-120 | when the draw test holds, at most one piece besides the kings is on the board, and it is a knight or a bishop |
| Grids.SeenAll | modules/gameState.js:106-135 | after every square has been scanned, the scan's flag says whether the piece is on the board |
| Status.OnlyKingsLeft | modules/gameState.js:106-120 | the one-pass scan answers the bare-kings test |
| Grids.KingMissing | modules/gameState.js:124-135 | the result is "Black" exactly when the white king is gone, "White" exactly when only the black king is gone, and nothing when both are present |
| Status.IsKingMissing | modules/gameState.js:124-135 | the scan over the state's board answers the missing-king test |
| Grids.RowTextInjective | modules/gameState.js:139-141 | the '.' rendering of empty squares loses nothing on boards without '.' pieces |
| Grids.JoinRowsInjective | modules/gameState.js:139-141 | joining the rendered rows with '/' is one-to-one on boards without separator pieces |
| Grids.SignatureInjective | modules/gameState.js:139-141 | two boards with as many rows share a signature only when the side to move and the board are the same, so repetition counts positions |
| Grids.XorCancel | modules/gameState.js:197-199 | XOR-ing the same key twice gives the value back |
| Grids.XorChanges | modules/gameState.js:197-199 | XOR with a non-zero key never gives the value back |
| Grids.HashFromStep | modules/gameState.js:187-194 | one square of the fold XORs in that square's entry, and an empty square changes nothing |
| Grids.HashSideToMove | modules/gameState.js:183-202 | toggling the side-to-move key turns white's fingerprint of a board into black's, and with a non-zero key the two never coincide |
| Grids.HashEmptyBoard | modules/gameState.js:183-202 | an empty board hashes to the side-to-move key for white and to zero for black |
| Status.RowHash | modules/gameState.js:187-194 | the row loop folds that row's entries into the accumulator |
| Status.BoardHashOf | modules/gameState.js:186-195 | the two loops compute the board part of the fingerprint |
| Status.GetZobristHash | modules/gameState.js:183-202 | the in-place getZobristHash returns the fingerprint of the board and the side |
| Grids.MaterialFlip | modules/ai.js:42-66 | swapping every piece's colour negates the material score |
| Grids.MaterialEmpty | modules/ai.js:42-66 | an empty board scores 0 |
| Ai.MaterialScore | modules/ai.js:42-66 | the loop computes white's total minus black's total |
| Search.MoveScoreRange | modules/ai.js:7-40 | the heuristic lies between -100 and 1189, and a quiet move that neither checks nor promotes scores 0 |
| Search.MvvLva | modules/ai.js:31-37 | when no king captures, taking the more valuable piece always has the higher capture gain |
| Search.PromotionScoredAsBlack | modules/ai.js:161-164 | minimax scores a white promotion as if for black: the move gets no promotion bonus, and its ordering key for either side is only its check bonus and capture gain |
| Ai.ScoreMove | modules/ai.js:7-40 | the in-place scoreMove (make, isInCheck, unmake) returns the heuristic and restores the position |
| Ai.ScoreMoves | modules/ai.js:161-164 | the scores the sort comparators compute are the heuristic of every move |
| Sorting.Insert | modules/ai.js:161-164 | inserting adds exactly the one element |
| Sorting.InsertSorted | modules/ai.js:161-164 | inserting into a sorted list keeps it sorted |
| Sorting.SortByPermutation | modules/ai.js:161-164 | the comparator sort is a permutation of its input |
| Sorting.SortBySorted | modules/ai.js:161-164 | the comparator sort orders by key |
| Sorting.SortByMembers | modules/ai.js:161-164 | the sort keeps exactly the input's elements |
| Sorting.InsertAgree | modules/ai.js:161-164 | insertion depends only on the keys' values on the elements |
| Sorting.SortByAgree | modules/ai.js:161-164 | keys that agree on the elements sort them alike, so precomputed scores give the comparator's order |
| Sorting.WithKeyAppend | modules/ai.js:161-164 | the elements of one key in a concatenation are those of each part, in order |
| Sorting.InsertWithKey | modules/ai.js:161-164 | inserting into a sorted list places the element after every element of the same key |
| Sorting.SortByStable | modules/ai.js:161-164 | the comparator sort is stable: the elements of each key keep their input order |
| Search.Captures | modules/ai.js:85 | the capture filter keeps exactly the moves onto occupied squares |
| Search.QuiescenceMovesLegal | modules/ai.js:85-86 | quiescence searches exactly the side's legal captures |
| Search.QuiescenceLoopWindow | modules/ai.js:88-104 | with a proper window, the capture loop answers inside [alpha, beta] |
| Search.QuiescenceWindow | modules/ai.js:68-105 | with depth left, quiescence answers inside the window; at depth 0 it is the material score |
| Search.QuiescenceQuiet | modules/ai.js:68-105 | a position with no capture and its material inside the window is worth its material |
| Ai.CaptureMoves | modules/ai.js:85-86 | the in-place loop returns the captures in search order |
| Ai.CaptureReply | modules/ai.js:89-91 | one capture (make, search, unmake) returns the child's value and restores the position |
| Ai.CaptureLoop | modules/ai.js:88-104 | the capture loop returns the loop function's value and restores the position |
| Ai.Quiescence | modules/ai.js:68-105 | the in-place quiescenceSearch returns the search function's value and restores the position |
| Values.Scale10 | modules/ai.js:122 | `Math.floor(10 * v)` is exact on integers and keeps the infinities |
| Values.Max | modules/ai.js:199-201 | the window update returns the larger bound |
| Values.Min | modules/ai.js:199-201 | the window update returns the smaller bound |
| Search.ExtendsTrans | modules/ai.js:127-131 | table growth is transitive |
| Search.MinimaxTable | modules/ai.js:108-214 | minimax only adds table entries. A cached key answers its entry and changes nothing. After the call, a stored key holds the node's result |
| Search.MinimaxLoopTable | modules/ai.js:169-208 | the move loop only adds table entries |
| Search.MinimaxLoopBest | modules/ai.js:169-208 | the loop's result is no worse for the side than the starting best, and it is either that best or a line opening with one of the moves |
| Search.StepsWindow | modules/ai.js:169-208 | the loop examines the moves in order; each child is searched in the window and table the earlier children left; every child but the last leaves the window open, and the loop stops before the last move only on a child that closes it (`beta <= alpha`) |
| Search.KeepsFirstCons | modules/ai.js:187-191 | a score put in front is kept exactly when it beats the start, and otherwise the later kept score stays kept |
| Search.LoopChoiceCons | modules/ai.js:187-191 | one more child in front: its move and line become the best when its score beats the best so far |
| Search.MinimaxLoopChoice | modules/ai.js:169-208 | over the children examined, no child beats the result; the result is the starting best when no child beats it, and otherwise the first child to reach its score, with that child's move in front of the child's line |
| Search.MinimaxResult | modules/ai.js:138-214 | uncached: a mated side gets its mate score and a stalemate 0. At depth 0 the quiescence value comes back. Deeper, the result is the first strictly best child over the worst score, among the children examined in move order, with its move in front of its line; the line starts with a legal move unless no child beat the worst score |
| Search.MatedScoreOrder | modules/ai.js:141-145 | a mate found with more depth left has a larger mate score |
| Ai.MinimaxMoves | modules/ai.js:158-164 | the in-place move list is minimax's ordered list of legal moves |
| Ai.MinimaxReply | modules/ai.js:170-181 | one child (make, minimax, unmake) returns the child's result and table and restores the position |
| Ai.MinimaxLoop | modules/ai.js:166-208 | the move loop returns the loop function's result and table |
| Ai.Minimax | modules/ai.js:108-214 | the in-place minimax returns the search function's result and table and restores the position |
| Search.RootLoopBest | modules/ai.js:246-283 | the root loop's best score is no worse than the start. Its best move is the start's or one of the moves, and every move gets a score |
| Search.RootChoiceCons | modules/ai.js:271-276 | one more root move in front: it becomes the best move when its score beats the best so far |
| Search.RootLoopChoice | modules/ai.js:246-283 | the root loop keeps the first move with a strictly better score: no move scores better than the best score, which is the start's when no move beats it and otherwise the score of the first move to reach it, which is the best move |
| Search.RootLoopScores | modules/ai.js:269 | every root move gets a recorded score, the one its search gave when the move does not come again later |
| Search.RootLoopKeeps | modules/ai.js:269 | a recorded score of a move that does not come again stays as it was |
| Search.DeepenOutcome | modules/ai.js:229-294 | the deepening reports a depth within range, a score, and a best move from the root list or none; the move and score are the first strictly best over some order of the root moves at the reported depth, searched on an emptied table |
| Search.DeepenStops | modules/ai.js:290 | the deepening ends before the last depth only on a mate-size score or when the time is up |
| Search.IterativeOutcome | modules/ai.js:216-303 | null exactly when the side has no legal move. Otherwise the reported depth lies between 1 and maxDepth, with a score, and the best move is legal or absent; the move and score are the first strictly best over the root moves searched at the reported depth |
| Ai.RootMoves | modules/ai.js:217-221 | the root list is the ordered legal moves, all of them and no others |
| Ai.RootReply | modules/ai.js:247-267 | one root move returns minimax's result for it and restores the position |
| Ai.SearchRoot | modules/ai.js:246-283 | the root loop returns the root function's best move, score and score map |
| Ai.SearchOneDepth | modules/ai.js:229-283 | one depth reorders by the previous scores after depth 1, records the depth and searches the root |
| Ai.Deepen | modules/ai.js:229-294 | the deepening loop returns the deepening function's outcome and records the last depth |
| Ai.IterativeMinimax | modules/ai.js:216-303 | the in-place iterativeMinimax returns the iterative function's outcome and leaves the position as it was |
| Search.MovesUntilMateForBlack | modules/ai.js:383 | as written, a black mate one ply deep is reported as 2000001 moves away, while the corrected count gives 1 |
| Search.MovesUntilMateCounts | modules/ai.js:383 | the corrected count of a mate found k plies below the root is k, for either side |
| Search.MovesUntilMateWhite | modules/ai.js:383 | for white's scores the corrected count equals the written one |
| Search.ReportMeaning | modules/ai.js:364-391 | a mate is reported exactly when the score is at least 100000 in the side's favour, with the distance to the mate score; otherwise the count is 100. The count as written equals it for white and exceeds it by twice the score's size for black |
| Ai.CheckmateSearch | modules/ai.js:364-391 | the in-place checkmateSearch returns the mate report and leaves the position as it was |
| Notation.NatRoundTrip | modules/ai.js:409-420 | reading back a printed natural number gives the number |
| Notation.IntRoundTrip | modules/ai.js:409-420 | a printed rank reads back to the rank |
| Notation.IntToStringInjective | modules/ai.js:409-420 | two ranks print alike only when they are equal |
| Notation.SquareTextInjective | modules/ai.js:402-420 | a square's text determines its file letter and rank |
| Notation.FormatMove | modules/ai.js:394-421 | the result is "Invalid move" exactly when the move or one of its coordinates is missing |
| Notation.NotationMeaning | modules/ai.js:406-418 | the notation ends with the target square, or with "=Q" on a promotion. A pawn capture starts with the origin file and 'x'. Other pieces start with their upper-case letter, then 'x' or the target file |
| Notation.SquaresRecovered | modules/ai.js:420 | the "(from → to)" part identifies both squares' files and rows |
| Play.PlayedCells | modules/moveHandler.js:66-94 | performMove empties the origin, puts the piece or its queen on the target and removes a pawn taken en passant. No other cell changes |
| Play.PlayedLikeMakeMove | modules/moveHandler.js:66-94 | away from en passant, performMove's board is makeMove's, and for a straight pawn move so is the en-passant target |
| Play.Without | modules/moveHandler.js:107-109 | the filter keeps exactly the other keys |
| Play.PlayedMovedKeys | modules/moveHandler.js:96-110 | a pawn move records the destination and forgets the origin, every other key keeps its membership, and other pieces leave the list alone |
| Play.WithoutNoDuplicates | modules/moveHandler.js:107-109 | filtering a list without duplicates leaves one without duplicates |
| Play.PlayedMovedNoDuplicates | modules/moveHandler.js:96-110 | the moved-pawn list gains no duplicate: the destination is added only when missing |
| Play.PerformMeaning | modules/moveHandler.js:61-143 | over: nothing changes. Otherwise the history grows by the new signature, the game ends exactly when the next player's outcome is not ongoing, and the turn passes exactly when play goes on and the switch is not skipped |
| Play.MovePiece | modules/moveHandler.js:66-94 | the board writes produce the played board |
| Play.Advance | modules/moveHandler.js:64-114 | the board, en-passant target, moved-pawn list and history become the played ones |
| Play.PerformMove | modules/moveHandler.js:61-143 | the in-place performMove gives the turn function's new state |
| State.GameState.constructor | modules/state.js:43-67 | the initial state: white to move, not over, no en-passant target, no moved pawns, an empty history and an empty table |
| Layouts.SliceBounds | modules/boardGenerator.js:16-18 | every slice lies within the array |
| Layouts.SlicesFlatten | modules/boardGenerator.js:16-23 | the slices from slice i on, flattened, are the array from that slice's start |
| Layouts.RotateSlicesRotates | modules/boardGenerator.js:10-24 | rotateSlices moves the first ⌊n/numSlices⌋ elements to the back |
| Layouts.RotateSlicesPermutes | modules/boardGenerator.js:10-24 | rotateSlices keeps the elements, and one slice gives the array back |
| Layouts.Available | modules/boardGenerator.js:29 | the available pieces are exactly the selected non-kings |
| Layouts.PiecesPerSide | modules/boardGenerator.js:31-40 | the pieces per side is ⌊density · M / 2 − 1⌋ for the mode's square count M |
| Layouts.MirrorHalf | modules/boardGenerator.js:86-88 | the white half is the list padded with blanks or cut to exactly the half's size |
| Layouts.FixPawns | modules/boardGenerator.js:133-145 | the pawn normalisation keeps the length |
| LayoutFacts.WhiteListKings | modules/boardGenerator.js:42-46 | the white list holds exactly one white king and no black one |
| LayoutFacts.WhiteListFits | modules/boardGenerator.js:31-46 | with a density of at most 1, the white list fills at most half the counted squares |
| LayoutFacts.ShufflePermutes | modules/boardGenerator.js:55-58 | Fisher-Yates only permutes the cells |
| LayoutFacts.RandomLayoutBalanced | modules/boardGenerator.js:49-58 | random mode holds the white list, its lower-cased copy and blanks to the board size |
| LayoutFacts.RandomKings | modules/boardGenerator.js:42-58 | random mode places exactly one king of each colour |
| LayoutFacts.SpinShufflePermutes | modules/boardGenerator.js:69-80 | spin mode's shuffle only permutes the cells |
| LayoutFacts.SpinShuffleSymmetric | modules/boardGenerator.js:69-80 | spin mode's shuffle keeps the colour-swapped half-turn symmetry |
| LayoutFacts.SpinMirrorSymmetric | modules/boardGenerator.js:62-67 | before the shuffle the spin layout is symmetric |
| LayoutFacts.SpinLayoutSymmetric | modules/boardGenerator.js:60-80 | the spin layout fills the board exactly and is symmetric |
| LayoutFacts.SpinBoardSymmetric | modules/boardGenerator.js:27-153 | spin mode on a board with whole cell pairs gives a board that looks the same after a half turn with the colours swapped |
| LayoutFacts.MirrorShape | modules/boardGenerator.js:82-101 | mirror mode: a shuffled white half, a blank middle row on an odd board, and black as that half lower-cased with its first row moved to the back |
| LayoutFacts.PuzzleKings | modules/boardGenerator.js:102-123 | puzzle mode places exactly one king of each colour |
| LayoutFacts.OrientedKings | modules/boardGenerator.js:125-131 | after orientation the black king comes before the white king, and the cells are the same |
| LayoutFacts.FixPawnsMeaning | modules/boardGenerator.js:133-145 | no white pawn is left in the first row and no black pawn in the last. Only pawns change, and only their colour |
| LayoutFacts.NormalisedSymmetric | modules/boardGenerator.js:125-152 | orientation, pawn normalisation and the split into rows keep a symmetric layout symmetric |
| LayoutFacts.SplitRowsCells | modules/boardGenerator.js:148-152 | row y of the board holds cells y·cols to y·cols + cols − 1 |
| Generator.WhitePieces | modules/boardGenerator.js:42-46 | the push loop builds the white list |
| Generator.PadCells | modules/boardGenerator.js:52 | the padding loop pads with blanks up to n |
| Generator.FisherYates | modules/boardGenerator.js:55-58 | the in-place shuffle produces the shuffle function's layout |
| Generator.ShuffleCells | modules/boardGenerator.js:55-58 | a shuffled copy is the shuffle function's layout |
| Generator.SwapCells | modules/boardGenerator.js:57 | the destructuring swap exchanges the two cells |
| Generator.RandomPieces | modules/boardGenerator.js:49-58 | random mode builds the random layout |
| Generator.SpinShuffleCells | modules/boardGenerator.js:69-80 | spin mode's in-place shuffle, including the counter reset on the centre, produces the spin shuffle |
| Generator.SpinPieces | modules/boardGenerator.js:60-80 | spin mode builds the spin layout |
| Generator.MirrorPieces | modules/boardGenerator.js:82-101 | mirror mode builds the mirror layout |
| Generator.PuzzlePieces | modules/boardGenerator.js:102-123 | puzzle mode builds the puzzle layout |
| Generator.SplitIntoRows | modules/boardGenerator.js:148-152 | the slicing loop builds the rows |
| Generator.GenerateRandomBoard | modules/boardGenerator.js:27-153 | the generator with its draws given produces the board function's board |
| Generator.GenerateRandomValidBoard | modules/boardGenerator.js:157-197 | returns the first acceptable candidate among the max(1, maxSimulations) tries, or nothing when none is. White must have a move, neither king may be in check, and in puzzle mode a mate at least five moves away is needed |

## Left out

- The node counters, timers and `performance.now()` measurements are not
  modelled. Neither are the search tree (`buildTree`, `treeNode`,
  `printTree`, `printTimes`) nor the `bestTree` and `bestScore` fields that
  checkmateSearch adds to its report.
- The `history` argument of minimax is not modelled: the search only calls
  getGameState with `sim = true`, so it is never read.
- Sounds, rendering, the DOM, the delayed result message of performMove,
  and the click and UI handlers are not modelled.
- `console.warn` and the `innerHTML` messages of generateRandomValidBoard
  are not modelled.
- Math.random is a parameter: generateRandomBoard takes the draws as
  functions. generateRandomValidBoard takes the stream of candidate boards
  it would generate.
- The clock is a parameter: the time budget is the function `timeUp`,
  asked after each depth.
- initZobrist and random64Bit: the random table is a parameter of the
  state, and `Fits` states its shape.
- GetZobristHash returns the number, not its decimal string. The string
  form is a one-to-one renaming of the same key.
- Ai.CheckmateSearch requires `depth >= 1`. With a smaller depth,
  iterativeMinimax searches no depth and returns an undefined `bestScore`
  (modules/ai.js:224, 229, 297-302). Both comparisons at modules/ai.js:377 are
  then false, so the source reports a mate with a NaN count, which the
  integer scores cannot express. Without any move the source fails on the
  null result, and the model returns `None`.
- Ai.CheckmateSearch reports the corrected mate count (Search.MovesUntilMate),
  not the one modules/ai.js:383 computes. The two agree for white
  (Search.MovesUntilMateWhite). For black the source's count is larger by
  twice the score's size (see "## Findings").
- Search.CheckmateSearch: the same corrected count for black as
  Ai.CheckmateSearch.
- Search.Report: the same corrected count for black as Ai.CheckmateSearch.
- Search.ReportMeaning: for a black mate it states the corrected count. It
  states the source's count only through its relation to that count,
  larger by twice the score's size.
- Generator.GenerateRandomValidBoard: the rough evaluation by
  iterativeMinimax in the non-puzzle branch, and the state fields it and
  checkmateSearch write, are not modelled. The `validPositions` counter
  and the `undefined` result are not modelled either. Its tests use the
  check, legal-move and mate-search functions, which the in-place methods
  are proved to compute.
- Validation.IsValidMove requires the source row to exist, because the
  source indexes `board[fromY]` directly.
- The in-place methods use a rectangular `array2`, so ragged boards are
  not modelled. The value layer accepts any rows and reads a missing
  square as empty.
- Generator.MirrorPieces requires at least two rows. With fewer, the
  source rotates by zero slices, which the model does not cover.
- The density is a fraction num/den rather than a floating-point number.
- Puzzle mode's `1.5` pieces per side is modelled as three extras.
- Pieces.ToUpper: case mapping is modelled for ASCII letters only. Every
  piece letter is ASCII.
- Notation.FormatMove: the JSON dump in the "Invalid move" text is not
  modelled. File codes that would form half of a surrogate pair are
  excluded by a precondition.
- State.GameState.constructor: `iterativeDepth` starts at 0, where the
  source leaves it undefined until the first search.
- Pieces.IsCurrentPlayerPiece takes the player as a parameter instead of
  reading `state.currentPlayer`.

## Findings

| source | as written | input that shows it | evidently intended | confidence | as-written member | corrected member |
|---|---|---|---|---|---|---|
| modules/ai.js:383 | `movesUntilMate = resultDepth - (bestScore - 1000000)`, which is only right for white's positive mate scores | checkmateSearch for black, where white is mated one ply deep in a depth-1 search: bestScore = -1000000, reported as 2000001 moves | the number of plies to the mate for either side, `resultDepth - (abs(bestScore) - 1000000)` | not executed | Search.MovesUntilMateForBlack | Search.MovesUntilMateCounts |
