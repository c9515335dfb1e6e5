# Othello engine: a Dafny model

This project models the core of a console Othello (Reversi) player written in
C++ (`othello.cpp`). The user plays against the computer. The computer expands
every position three plies deep, has the leaves scored in one batch, picks the
first best leaf and walks back to the root move that leads to it.

Five modules, one per layer of the program:

- `Bitboard` (bitboard.dfy) — the `Board` struct: two occupancy planes
  (bit x*8+y of plane 0 holds an 'O' disc, of plane 1 an 'X' disc), the bit
  operations, `get_token`/`set_token`, the eight-direction legality scan
  (`move_is_possible`), row-major move generation, `apply` and
  `player_mobility`, and facts about the opening position.
- `Capture` (capture.dfy) — what `apply` does, stated without its loops: the
  set of captured cells, `apply` as a single recolouring, and its effect on
  the disc counts.
- `Position` (position.dfy) — the `State` struct (board plus the player to
  move): its moves, the position after a move, and the two disc-count scores.
- `Search` (search.dfy) — `minmax_gpu`, `minmax_cpu`, `retrace` and
  `play(State)`. The search only needs the moves of a position and the
  position a move leads to. It is stated over any such pair of `Rules`;
  `Search.Othello()` is the pair the program uses.
- `Controller` (controller.dfy) — the `Game` class without its I/O: the two
  players, turn switching, the user's move, the computer's move, the end of
  the game and the final result message.

A plane is modelled as the set of indices of its set bits. The board is valid
when every index is in 0..63 and no cell is in both planes. Every operation
is a pure function: `apply` returns a new board, as the C++ does with its
copy `ret`.

## Model

| member | source | states |
|---|---|---|
| `Bitboard.Opponent` | othello.cpp:115 | The opponent token differs from the player's and is always 'O' or 'X'. Every token that is not 'X' is answered with 'X'. |
| `Bitboard.Cell` | othello.cpp:40-42 | An on-board cell's bit index is in 0..63, and dividing it by 8 gives back x while the remainder gives back y. |
| `Bitboard.IsOnBoard` | othello.cpp:99-102 | A coordinate pair is on the board when both coordinates lie in 0..7 (definition, no contract). |
| `Bitboard.OnBoard` | othello.cpp:104-107 | A move is on the board when its coordinates are (definition, no contract). |
| `Bitboard.CellMove` | othello.cpp:133-135 | Every bit index 0..63 names an on-board cell whose index is that bit: the row-major walk covers each cell exactly once. |
| `Bitboard.CellInjective` | othello.cpp:40-42 | Two on-board cells with the same bit index are the same cell. |
| `Bitboard.FireBit` | othello.cpp:40-42 | Afterwards the cell's bit is set in plane idx. The other plane is untouched, and no other bit of plane idx changes. |
| `Bitboard.Fired` | othello.cpp:44-46 | The cell's bit is set in plane idx: its index is a member of the plane (definition, no contract). |
| `Bitboard.DissipateBit` | othello.cpp:48-50 | Afterwards the cell's bit is clear in plane idx, whether or not it was set. The other plane and every other bit are untouched. |
| `Bitboard.GetToken` | othello.cpp:52-56 | The result is 'O', 'X' or '-'. On a valid board it is 'O' exactly when the bit is in plane 0 and 'X' exactly when it is in plane 1. |
| `Bitboard.SetToken` | othello.cpp:58-66 | The written cell reads back as the written disc. Any token other than 'O' is written, and read back, as 'X'. |
| `Bitboard.SetTokenWrites` | othello.cpp:58-66 | `set_token` changes no other cell and no other bit, and keeps a valid board valid: the cell is cleared from the other plane. |
| `Bitboard.Equals` | othello.cpp:68-70 | Equal planes hold exactly when the two boards are the same value. |
| `Bitboard.EqualsIffSameTokens` | othello.cpp:68-70 | For valid boards, equal planes means exactly that every cell shows the same token, in both directions. |
| `Bitboard.Initial` | othello.cpp:72-78 | The starting board is valid. 'O' is on (3,3) and (4,4), 'X' is on (3,4) and (4,3), and every other cell is empty. |
| `Bitboard.StepBound` | othello.cpp:119 | Each direction moves one cell per step, so a scan that starts on the board leaves it before step 8. This is why the scan loop ends. |
| `Bitboard.RunEnd` | othello.cpp:119 | The scan stops at the first step that is off the board or not an opposing disc. Every step before it holds an opposing disc, and it stops within 8 steps. |
| `Bitboard.RunEndOfBrackets` | othello.cpp:119-120 | When direction i holds a bracket, the scan stops exactly on the bracket's closing disc. |
| `Bitboard.Flanks` | othello.cpp:118-120 | One direction of the scan: the run of opposing discs is at least one long and ends on an own disc on the board. `Bitboard.FlanksIffBrackets` states what it decides. |
| `Bitboard.FlanksFrom` | othello.cpp:116-122 | The direction loop: some direction from i on flanks. `Bitboard.FlanksFromIff` states what it decides. |
| `Bitboard.MoveIsPossible` | othello.cpp:109-123 | An on-board, empty cell where some direction flanks. `Bitboard.MoveIsPossibleIff` shows it decides the rule of the game. |
| `Bitboard.FlanksIffBrackets` | othello.cpp:118-120 | One direction of the scan succeeds exactly when that direction holds a bracket: at least one opposing disc followed by an own disc. |
| `Bitboard.FlanksFromIff` | othello.cpp:116-122 | The direction loop from direction i on succeeds exactly when some direction from i on holds a bracket. |
| `Bitboard.MoveIsPossibleIff` | othello.cpp:109-123 | `move_is_possible` decides the rule of the game in both directions: an on-board empty cell with a bracket in some direction. |
| `Bitboard.OneColourHasNoMoves` | othello.cpp:109-123 | On a valid board that shows discs of one colour only, neither 'O' nor 'X' has a legal move: a bracket needs a disc of each colour. |
| `Bitboard.GenerateFrom` | othello.cpp:133-140 | The moves found from cell c on are all legal, all at cells c or later, and in strictly increasing row-major order. There are at most 64 - c of them. |
| `Bitboard.GenerateFromComplete` | othello.cpp:133-140 | Every legal move at cell c or later is found. |
| `Bitboard.GenerateMoves` | othello.cpp:125-142 | A move is generated exactly when it is legal, each move at most once, in row-major order, and all of them on the board. |
| `Bitboard.GenerateFromCountsLegalCells` | othello.cpp:133-140 | The number of moves found from cell c on equals the number of legal cells among c..63. |
| `Bitboard.PlayerMobility` | othello.cpp:164-167 | Mobility is the number of cells where the player may move. It is zero exactly when no move is legal. |
| `Bitboard.FlipRun` | othello.cpp:153-157 | The inner flip loop writes the mover's token at steps k, k-1, ..., 1 of direction i. `Capture.FlipRunRecolors` states its effect. |
| `Bitboard.FlipDirection` | othello.cpp:148-158 | One direction of `apply`: scan the original board; if the run ends on an own disc, flip the run in the copy. `Capture.FlipDirectionRecolors` states its effect. |
| `Bitboard.FlipFrom` | othello.cpp:148-159 | Directions i..7 of `apply`, each scanning the original board and flipping in the copy. `Capture.FlipFromRecolors` states its effect. |
| `Bitboard.Apply` | othello.cpp:144-162 | Flip every closed run, then write the move cell. The argument board is a value and is not changed. `Capture.ApplyChangesOnlyCaptured` states its effect. |
| `Bitboard.InitialIsStartLayout` | othello.cpp:72-78 | The constructor's board holds exactly the four starting discs. |
| `Bitboard.StartBracketIsShort` | othello.cpp:116-120 | On the starting layout, every bracket for 'X' is a single 'O' disc closed by an 'X' disc. |
| `Bitboard.StartLegalOnlyFour` | othello.cpp:109-123 | On the starting layout, a legal 'X' move can only be at (2,3), (3,2), (4,5) or (5,4). |
| `Bitboard.StartFourAreLegal` | othello.cpp:109-123 | On the starting layout, each of (2,3), (3,2), (4,5) and (5,4) is a legal 'X' move. |
| `Bitboard.StartLegalAmongFour` | othello.cpp:125-142 | On the starting layout, every legal 'X' cell found by the row-major walk is one of the four. |
| `Bitboard.StartLegalCells` | othello.cpp:125-142 | On the starting layout, the legal cells for 'X' are exactly those four. |
| `Bitboard.InitialMobility` | othello.cpp:164-167 | The opening player 'X' has four moves on the constructor's board. |
| `Capture.RunCellsIff` | othello.cpp:153-157 | The inner flip loop, counting j down to 1, recolours exactly the cells at steps 1..j of the direction. |
| `Capture.SetTokenRecolors` | othello.cpp:58-66 | Writing one disc moves that cell into the written disc's plane and out of the other plane. |
| `Capture.FlipRunRecolors` | othello.cpp:153-157 | The inner flip loop moves steps 1..j into the mover's plane, in a single recolouring. |
| `Capture.FlipDirectionRecolors` | othello.cpp:149-158 | One direction of `apply` recolours that direction's captured cells and nothing else. |
| `Capture.FlipFromRecolors` | othello.cpp:148-159 | The direction loop recolours the union of the captured cells of all directions. Every direction scans the original board, not `ret`. |
| `Capture.ApplyRecolors` | othello.cpp:144-162 | `apply` is one recolouring: the captured cells plus the move's own cell go to the mover. |
| `Capture.DirCapturedIff` | othello.cpp:151-157 | A cell is recoloured in direction i exactly when it lies strictly inside a bracket in that direction. |
| `Capture.CapturedFromIff` | othello.cpp:148-159 | A cell is recoloured by directions i..7 exactly when some direction among them recolours it. |
| `Capture.CapturedIff` | othello.cpp:144-162 | The recoloured cells are exactly the bracketed ones, in both directions. |
| `Capture.DirCapturedAreOpponents` | othello.cpp:151-157 | A cell recoloured in one direction is on the board and held an opposing disc. |
| `Capture.CapturedAreOpponents` | othello.cpp:144-162 | Every recoloured cell is on the board and held an opposing disc before the move. |
| `Capture.ApplyChangesOnlyCaptured` | othello.cpp:144-162 | `apply` keeps the board valid and puts the mover's disc on the move's cell. Bracketed cells held opposing discs and now show the mover's disc. Every other cell is as before. |
| `Capture.LegalMoveCaptures` | othello.cpp:144-162 | A legal move captures at least one disc. |
| `Capture.ApplyLegalMoveCounts` | othello.cpp:144-162 | A legal move by 'O' or 'X' adds exactly one disc to the board. The mover gains at least two discs, and the opponent loses what the mover gained beyond the placed disc. |
| `Position.LegalMoves` | othello.cpp:192-194 | A position's moves are exactly the legal moves of the player to move, and all of them are on the board. |
| `Position.Child` | othello.cpp:376-379 | The position after an on-board move: the move applied by the mover, and the opponent token to move (definition, no contract). |
| `Position.Successor` | othello.cpp:376-379 | `Child` for an on-board move; any other move leaves the position as it is (definition, no contract). |
| `Position.EvaluateResultAsWritten` | othello.cpp:182-185 | The number of cells below 32 in the mover's plane, which is what the 32-bit popcount sees (definition, no contract). |
| `Position.EvaluateOpponentResultAsWritten` | othello.cpp:187-190 | The number of cells below 32 in the other plane (definition, no contract). |
| `Position.EvaluateResult` | othello.cpp:182-185 | The corrected score: the size of the mover's whole plane (definition, no contract). |
| `Position.EvaluateOpponentResult` | othello.cpp:187-190 | The corrected opponent score: the size of the other plane (definition, no contract). |
| `Position.PlaneIsDiscs` | othello.cpp:52-56 | On a valid board a plane is exactly the set of cells that show its token. |
| `Position.EvaluateResultCountsDiscs` | othello.cpp:182-190 | Counting the whole plane, the mover's score is the mover's disc count and the opponent's score is the opponent's. Together they cover every disc. |
| `Position.TruncatedCount` | othello.cpp:182-190 | Keeping only the cells below 32 never adds a cell, and loses none exactly when every cell of the plane is below 32. |
| `Position.TruncatedScoreBound` | othello.cpp:182-190 | For every position, each score as written is at most the full count, and equals it exactly when that side has no disc at cell 32 or above. |
| `Position.TruncatedScoreExample` | othello.cpp:182-190 | The scores as written count 1 disc per side on the starting board, where each side has 2. |
| `Search.Othello` | othello.cpp:374-379 | The search's moves are `State::generate_moves`. Its successor for an on-board move applies the move and hands the turn to the opponent token. |
| `Search.OthelloAlternates` | othello.cpp:376-379 | Every generated Othello move hands the turn to the other token. |
| `Search.ReachablePlayer` | othello.cpp:369-381 | Under alternating rules, the player to move n plies down is the starting player flipped n times. |
| `Search.Expand` | othello.cpp:369-381 | At the bottom depth the position itself is the single leaf. Above it, a position without moves contributes no leaf. |
| `Search.ExpandMoves` | othello.cpp:374-380 | The move loop of `minmax_gpu`: the leaves below each listed move's position, concatenated in list order (definition, no contract). |
| `Search.ExpandMovesContains` | othello.cpp:374-380 | Every leaf below any move of the list is collected by the move loop. |
| `Search.ExpandSound` | othello.cpp:369-381 | Every collected leaf is reached from the root by exactly MAX_DEPTH - depth generated moves. |
| `Search.ExpandMovesSound` | othello.cpp:374-380 | A leaf collected by the move loop lies below one of the generated moves, at the remaining depth. |
| `Search.ExpandComplete` | othello.cpp:369-381 | Every position reached by exactly MAX_DEPTH - depth generated moves is collected. |
| `Search.ExpandIsReachable` | othello.cpp:369-381 | The leaves are exactly the positions MAX_DEPTH - depth generated plies below, in both directions. |
| `Search.LeafPlayer` | othello.cpp:369-381 | Under alternating rules, every leaf of a search from depth 0 has the player to move after three plies. |
| `Search.MinmaxCpu` | othello.cpp:383-395 | There is no result exactly when every score is negative. Otherwise the result is the leaf with the first maximal, non-negative score. |
| `Search.Retrace` | othello.cpp:397-409 | False at MAX_DEPTH; otherwise true on an equal board, else the move loop (definition, no contract). `Search.RetraceIff` states what it decides. |
| `Search.RetraceMoves` | othello.cpp:401-408 | The move loop of `retrace`: true when some listed move's position retraces, tried in list order (definition, no contract). |
| `Search.RetraceSound` | othello.cpp:397-409 | When `retrace` succeeds, a board equal to the target lies fewer than MAX_DEPTH - depth plies down. |
| `Search.RetraceMovesSound` | othello.cpp:401-408 | When the move loop of `retrace` succeeds, some generated move leads to a position from which the target's board is reached in fewer remaining plies. |
| `Search.RetraceMovesComplete` | othello.cpp:401-408 | If any move of the list retraces, the move loop succeeds. |
| `Search.RetraceComplete` | othello.cpp:397-409 | If the target's board lies fewer than MAX_DEPTH - depth plies down, `retrace` succeeds. |
| `Search.RetraceIff` | othello.cpp:397-409 | `retrace` succeeds exactly when the target's board lies fewer than MAX_DEPTH - depth generated plies down. |
| `Search.RetraceIgnoresPlayer` | othello.cpp:397-409 | `retrace` compares boards only, so two targets with the same board give the same answer. |
| `Search.FirstRetracingMove` | othello.cpp:417-425 | There is no result exactly when no root move's child retraces to the leaf. Otherwise the result is the first root move whose child does. |
| `Search.PlayRecoversLeaf` | othello.cpp:411-426 | Every leaf of the search is recovered by some root move, so the final loop of `play(State)` never runs off its end for a leaf. |
| `Search.Play` | othello.cpp:411-426 | There is no move exactly when every leaf scores negative. Otherwise the move is generated at the root, and it is the first root move leading to the first best leaf. |
| `Controller.NewGame` | othello.cpp:345-348 | A new game has the constructor's board, the user's token at index 0 and the computer's at index 1. |
| `Controller.SwitchPlayer` | othello.cpp:355-357 | The index stays in 0..1 and swaps between 0 and 1. Board and players are untouched. |
| `Controller.SwitchPlayerTwice` | othello.cpp:355-357 | Switching twice gives the turn back. |
| `Controller.MoveIsPossible` | othello.cpp:359-361 | A move is possible exactly when the rule of the game allows it for the player to move. |
| `Controller.ApplyMove` | othello.cpp:363-365 | The player to move has a disc on the move's cell and the board stays valid. The turn is not passed here. |
| `Controller.ApplyMoveCounts` | othello.cpp:363-365 | A legal move adds exactly one disc to the board, and the mover gains at least two. |
| `Controller.IsFinished` | othello.cpp:433-436 | The game is finished exactly when neither player has a legal move. |
| `Controller.HasMove` | othello.cpp:438-440 | A player has a move exactly when some move is legal for them. |
| `Controller.NoMobilityIffNoLegalMove` | othello.cpp:164-167 | Zero mobility means exactly that no move is legal. |
| `Controller.FinishedIffNoPlayerHasMove` | othello.cpp:433-440 | The game is finished exactly when neither the user nor the computer has a move. |
| `Controller.Play` | othello.cpp:428-431 | There is no move exactly when every leaf of the search scores negative. Otherwise the computer plays the move the search chose: the first root move leading to the first best leaf, which is legal for the player to move. Players and turn are unchanged. |
| `Controller.Compare` | othello.cpp:450-452 | The message is "winner" exactly when the user's score is higher and "loser" exactly when it is lower. |
| `Controller.ReportedOutcomeAsWritten` | othello.cpp:447-453 | `display_result` as written: the truncated scores of `players[idx]` and of the other plane (definition, no contract). |
| `Controller.ReportedOutcome` | othello.cpp:447-453 | `display_result` as intended: the full disc count of the user's plane against the other plane (definition, no contract). |
| `Controller.ReportedOutcomeCountsUserDiscs` | othello.cpp:447-456 | The corrected report compares the user's disc count with the computer's. It does not depend on whose turn it is at the end. |
| `Controller.ReportedOutcomeExample` | othello.cpp:447-456 | A finished game with the computer to move and the user holding the only disc is reported as a loss. The user has in fact won. |

## Left out

- The `Cuda` struct and its kernel are not part of this model. The batch evaluator (`generate_parallel_results`) is a parameter `seq<State> -> seq<int>`; all the model assumes is one score per leaf.
- Display (`display`, `display_board`) and the `printf`/`scanf` loop of `main` are terminal I/O. The loop's turn logic is covered by `Controller.HasMove`, `Controller.MoveIsPossible`, `Controller.ApplyMove`, `Controller.Play` and `Controller.SwitchPlayer`.
- `Game::states_gpu`, the leaf buffer that `minmax_gpu` appends to and `play(State)` clears, is the returned sequence of `Search.Expand` here.
- `Game(const Board &)` and `current_player()` only copy or return a field. The default move `Move()`, which is (-1, -1), is never used by the core and has no counterpart.
- The 64-bit width of `layout[]`: a plane is a set of indices, and shifts are only ever made for on-board cells. Because of that, the cell operations and `Apply` require on-board coordinates, which the source checks with `is_on_board` before every call.
- Search.MinmaxCpu: returns None where the source has no result. With every score negative, `minmax_cpu` reads `states_gpu[-1]`. With no leaf at all, the source fails earlier: `generate_parallel_results` already reads `states[0]` of the empty batch (othello.cpp:282) before `minmax_cpu` runs its loop. Both reads are undefined behaviour, not results.
- Search.Play: returns None where the source's `play(State)` falls off its end without a return value. `Search.PlayRecoversLeaf` shows this cannot happen once a leaf was chosen.
- Controller.Play: applies the chosen move only when the search chose one. Where the source would apply an undefined move, the model returns None.
- Controller.SwitchPlayer: `(idx + 1) & 1` is written `(idx + 1) % 2`. For the indices 0 and 1 that `Game` uses the two agree, and Dafny's `%` is never negative, like `& 1`.
- Position.Successor: the off-board branch keeps the position unchanged. The search never takes it, because generated moves are on the board (`Search.OthelloAlternates`).
- The exact move sequence for the opening is not stated; its cells and its count (`Bitboard.StartLegalCells`, `Bitboard.InitialMobility`) are.

## Findings

| source | as written | input that shows it | evidently intended | confidence | as-written member | corrected member |
|---|---|---|---|---|---|---|
| othello.cpp:182-190 | `__builtin_popcount` takes an `unsigned int`, so only bits 0..31 of the 64-bit plane (rows 0..3) are counted | the starting board: each side has two discs, but one of them (bit 36 for 'O', bit 35 for 'X') is in rows 4..7, so each score is 1 | count the whole plane (`__builtin_popcountll`) | not executed | `Position.TruncatedScoreExample` | `Position.EvaluateResultCountsDiscs` |
| othello.cpp:447-456 | the result message scores `players[idx]`, the player who would move after the last switch, as "You" | a finished game where the computer is to move and the user ('X') holds the only disc: reported as a loss | score `players[USER]` against the computer | not executed | `Controller.ReportedOutcomeExample` | `Controller.ReportedOutcomeCountsUserDiscs` |
