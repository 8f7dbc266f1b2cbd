# A verified model of the peg-jumping game engine

This project models the engine of a two-to-four player peg-jumping game on a 12x12
board (a square-board variant of Chinese checkers), written in Dafny:

- the board (`board.py`): its grid, the starting layout, moving a piece, step and jump
  destinations, the bonus-point score and the win test;
- the move generator (`ai/move_utils.py`): steps to the four orthogonal neighbours,
  single jumps over an occupied neighbour in eight directions, chains of up to five
  jumps, the union of these over a player's pieces, and the corner rule
  `free_up_target_entry` that pushes a piece on the border of a target corner one cell
  deeper;
- the three agents:
  - the greedy agent (`ai/greedy_ai.py`);
  - the A* agent (`ai/astar_ai.py`);
  - the alpha-beta minimax agent (`ai/minimax_ai.py`).

The board is a sequence of 144 integers, read row by row. 0 is an empty cell; k is a
piece of player k. The `Board` class keeps it in a 2-D array, as the program keeps a
numpy array, and its methods update that array in place. The agents' own work is pure:
each agent function takes a grid and returns a move. Where the program builds a list or
a score with a loop, the model is a method with that loop. The method is proved equal to
a function, and lemmas characterise that function independently: its members, its order,
and its bounds.

Modules, one per source file, plus two shared ones:

- `Topology` (topology.dfy): positions, moves, the grid, the row-major piece list and
  simulate_move.
- `Regions` (regions.dfy): target and stable areas, deep corners and the winning
  triangles.
  - Every area is written as a corner square together with a diagonal clause.
  - The diagonal clause follows from the square's two bounds, so each area is the whole
    4x4 (target) or 3x3 (stable) square. The lemmas state this outright.
- `MoveUtils` (move_utils.dfy): the move generator and the corner rule.
- `GameBoard` (board.dfy): the board and its class.
  - The class's `is_game_over` and `in_target_area` are the grid functions `GameOver`
    and `CellInTarget` applied to `Snapshot()`, the board's current grid.
- `Congestion` (congestion.dfy): `improved_free_up_target_entry`.
  - The greedy and the A* agents each hold a copy. The two copies differ only in the A*
    guard: the A* copy needs 9 of the 10 triangle cells held before a piece may leave
    the target.
  - One function models both copies, with a flag for the guard.
- `GreedyAgent` (greedy.dfy), `AStarAgent` (astar.dfy) and `MinimaxAgent` (minimax.dfy):
  the agents.

What the proofs establish about the agents:

- The minimax search is stated over a small `Game` record: moves, play, terminal test and
  leaf score. `Pegs(player)` instantiates it with the board functions.
- `max_value` and `min_value` are proved to return fail-soft alpha-beta values of plain
  minimax functions. The root call uses the full window, so `choose_move` plays the first
  move of largest minimax value.
- The A* search is proved sound: a returned path is a walk of generator moves ending on an
  empty target cell. It is also proved complete: `None` only when no such walk exists. Its
  termination measure is the number of unknown cells together with the sum of the
  recorded distances.
- The corner rule of the move generator uses corners that match the agents' targets only
  for players 1 and 3: player 2's corner is bottom-left and player 4's is top-left. The
  minimax agent uses that rule, and `MoveUtils.CornerVersusTarget` records the mismatch.

## Model

| member | source | states |
|---|---|---|
| Topology.Pieces | ai/move_utils.py:56 | np.argwhere: lists every cell holding v, each once, and nothing else, in strictly increasing row-major order |
| Topology.PiecesCount | board.py:107 | the number of listed cells equals the number of cells holding v |
| Topology.PiecesBelowComplete | ai/move_utils.py:56 | every cell below the bound that holds v is listed |
| Topology.NearestIndex | ai/move_utils.py:101 | Python's min with a key: a nearest element to the target, strictly nearer than every element before it (the first of equals) |
| Topology.Moved | ai/minimax_ai.py:61-66 | simulate_move: the source is emptied, the destination gets the source's content, and every other cell is unchanged |
| Topology.MovedKeepsCounts | ai/minimax_ai.py:61-66 | moving a piece onto an empty cell keeps every player's piece count |
| Regions.InTargetArea | ai/minimax_ai.py:95-112 | a player's target area, diagonal clause included, is exactly its 4x4 corner square (players 1 to 4; false for any other id) |
| Regions.InStableArea | ai/minimax_ai.py:114-131 | a player's stable area, diagonal clause included, is exactly its 3x3 corner square |
| Regions.StableInTarget | ai/greedy_ai.py:18-38 | the stable area lies inside the target area, in the minimax version and in the two-player version |
| Regions.InTargetArea2 | ai/greedy_ai.py:18-26 | in_target_area of the greedy and A* agents: the diagonal test of players 1 and 2, false for any other id; TwoPlayerAreas shows it is the 4x4 corner square |
| Regions.InStableArea2 | ai/greedy_ai.py:28-38 | in_stable_area of the greedy agent: the diagonal test of players 1 and 2, false for any other id; TwoPlayerAreas shows it is the 3x3 corner square |
| Regions.TwoPlayerAreas | ai/greedy_ai.py:17-37 | the greedy and A* agents' target and stable areas are the 4x4 and 3x3 corner squares for players 1 and 2, diagonal clauses included, and empty for any other id |
| Regions.DeepTarget | ai/minimax_ai.py:69-76 | the corner the distances are measured to is on the board and in the player's stable area |
| Regions.TargetSquareCells | ai/minimax_ai.py:95-131 | on the board, the target area is the set of cells at most 3 rows and 3 columns from the deep corner; the stable area, at most 2 |
| Regions.TargetTriangle | board.py:101-117 | the cells to fill to win: 10 for players 1 and 2, none for any other id |
| Regions.TriangleShape | board.py:101-117 | a triangle is the set of board cells within Manhattan distance 3 of the deep corner; it lies in the target area and lists each cell once |
| MoveUtils.StepsAlongSound | ai/move_utils.py:7-11 | every listed step destination is the empty, on-board neighbour in one of the scanned directions |
| MoveUtils.StepsAlongComplete | ai/move_utils.py:7-11 | every open direction contributes its neighbour |
| MoveUtils.StepsAlongDistinct | ai/move_utils.py:7-11 | distinct directions give distinct destinations |
| MoveUtils.ValidMoves | ai/move_utils.py:4-12 | get_valid_moves as a value: the empty on-board neighbours in the program's four directions, in order; ValidMovesSpec states which cells these are |
| MoveUtils.ValidMovesSpec | ai/move_utils.py:4-12 | get_valid_moves lists exactly the empty cells at Manhattan distance 1, at most 4 of them, without repetition |
| MoveUtils.GetValidMoves | ai/move_utils.py:4-12 | the loop builds that list in the program's direction order |
| MoveUtils.CanJumpIsJump | ai/move_utils.py:20-25 | an open jump direction gives a jump |
| MoveUtils.IsJumpDirection | ai/move_utils.py:20-25 | every jump goes along one of the eight directions, over an occupied cell, onto an empty on-board cell |
| MoveUtils.JumpsAlongSound | ai/move_utils.py:20-25 | every listed landing comes from an open jump direction |
| MoveUtils.JumpsAlongComplete | ai/move_utils.py:20-25 | every open jump direction contributes its landing |
| MoveUtils.JumpsAlongDistinct | ai/move_utils.py:20-25 | distinct directions give distinct landings |
| MoveUtils.JumpMoves | ai/move_utils.py:14-26 | get_jump_moves as a value: the landings of the open jump directions, in the program's order; JumpMovesSpec states which cells these are |
| MoveUtils.JumpMovesSpec | ai/move_utils.py:14-26 | get_jump_moves lists exactly the cells one jump away, at most 8, without repetition |
| MoveUtils.GetJumpMoves | ai/move_utils.py:14-26 | the loop builds that list in the program's direction order |
| MoveUtils.PrependChain | ai/move_utils.py:42-47 | a jump to an unvisited cell, followed by a chain from there that avoids it, is a chain from the origin |
| MoveUtils.ChainTail | ai/move_utils.py:42-47 | conversely, a chain of two or more jumps is its first jump followed by a chain from the landing |
| MoveUtils.JumpChains | ai/move_utils.py:28-52 | the corrected enumeration, which keeps every hop (line 51 fixed); every path it lists is non-empty |
| MoveUtils.JumpChainsSound | ai/move_utils.py:28-52 | every enumerated path is a chain of legal jumps from pos that never revisits a cell or enters the visited set, with at most max_depth jumps |
| MoveUtils.JumpChainsComplete | ai/move_utils.py:28-52 | every such chain is enumerated |
| MoveUtils.ContinuousJumpMoves | ai/move_utils.py:28-52 | the enumeration as written, line 51's splice included; every returned path is non-empty |
| MoveUtils.SplicedEnds | ai/move_utils.py:48-51 | splicing the further paths keeps exactly their first and last cells |
| MoveUtils.ContinuousJumpMovesEnds | ai/move_utils.py:28-52 | as written, the enumeration returns, in the same order, the first and last cells of every chain the corrected enumeration lists |
| MoveUtils.ContinuousPathsHaveTwoCells | ai/move_utils.py:51 | every path returned as written has exactly two cells: pos and an empty, unvisited cell |
| MoveUtils.SplicedPathIsNotAChain | ai/move_utils.py:51 | a concrete board on which a returned path's single "hop" is not a jump |
| MoveUtils.EndPointsMember | ai/move_utils.py:67-70 | a destination is taken from a path iff that path has more than one cell and the destination is its last cell |
| MoveUtils.EndPointsOfEnds | ai/move_utils.py:67-70 | keeping only the two ends of each path leaves the destinations unchanged |
| MoveUtils.ContinuousJumpTargets | ai/move_utils.py:67-70 | the destinations get_all_moves reads off the paths as written are exactly, in order, those of the corrected enumeration |
| MoveUtils.JumpTargets | ai/move_utils.py:67-70 | the last cells of the chains of at most five jumps, in enumeration order, repetitions kept; JumpTargetsSpec characterises them |
| MoveUtils.JumpTargetsSpec | ai/move_utils.py:67-70 | q is a chain destination iff a chain of 1 to 5 legal jumps without revisits leads from pos to q; such a q is an empty cell other than pos |
| MoveUtils.LastOfChain | ai/move_utils.py:40-44 | the last cell of a chain is empty, on the board and not visited |
| MoveUtils.SingleJumpIsChain | ai/move_utils.py:64-70 | every single jump is also a chain destination, so get_all_moves lists it twice |
| MoveUtils.TaggedMember | ai/move_utils.py:61-62 | the moves from pos to a list are exactly those with source pos and a listed destination |
| MoveUtils.MovesFromSpec | ai/move_utils.py:59-70 | the moves listed for one source are exactly those to its step, jump and chain destinations |
| MoveUtils.MovesOfSpec | ai/move_utils.py:59-70 | the moves of a list of sources are exactly the reachable destinations of those sources |
| MoveUtils.ReachableLegal | ai/move_utils.py:59-70 | every destination the generator offers is an empty board cell other than the source |
| MoveUtils.AllMoves | ai/move_utils.py:54-71 | get_all_moves as a value: per source, its steps, its single jumps and its chain destinations; AllMovesSpec states exactly which moves are listed |
| MoveUtils.AllMovesSpec | ai/move_utils.py:54-71 | get_all_moves lists exactly the reachable moves of the player's pieces; with only_from, exactly those from that cell; every destination is an empty board cell other than the source |
| MoveUtils.AppendTagged | ai/move_utils.py:61-65 | the appending loops add one move from pos per destination, in order |
| MoveUtils.AppendEndPoints | ai/move_utils.py:67-70 | the loop over the paths adds a move to the last cell of each path longer than one cell, in order |
| MoveUtils.MovesFromParts | ai/move_utils.py:59-70 | the three appends for one source add up to its moves |
| MoveUtils.CollectMoves | ai/move_utils.py:59-70 | the loop over the sources builds the moves of all of them, source by source |
| MoveUtils.GetAllMoves | ai/move_utils.py:54-71 | get_all_moves returns the moves of the sources: the player's pieces in row-major order, or only_from alone |
| MoveUtils.DeeperSpec | ai/move_utils.py:93-99 | the candidates are exactly the three deeper cells that are on the board and empty |
| MoveUtils.EntryCandidates | ai/move_utils.py:93-99 | the candidate tests build that list in the program's order |
| MoveUtils.FreeUpTargetEntry | ai/move_utils.py:73-151 | free_up_target_entry returns None iff no piece of the player on its corner's edge row or column has a free deeper cell; otherwise it moves the first such piece in row-major order to its free deeper cell nearest the corner (the first of equals) |
| MoveUtils.FreeUpPlayerOneShape | ai/move_utils.py:88-103 | for player 1 the move starts on row 9 or column 9 of the bottom-right 3x3 square and goes down, right or diagonally onto an empty cell, no farther from (11, 11) than any other candidate |
| MoveUtils.CornerVersusTarget | ai/move_utils.py:78-86 | the corners of players 1 and 3 are their stable squares; those of players 2 and 4 lie outside their targets |
| GameBoard.InitialGrid | board.py:24-60 | the starting grid holds, cell by cell, the starting layout |
| GameBoard.InitialCellShape | board.py:30-60 | player 1 fills the cells with r + c <= 3, player 2 those with r + c >= 19, and every other cell is empty |
| GameBoard.InitialCounts | board.py:24-60 | the starting layout has exactly 10 pieces of each player |
| GameBoard.InitialPieces | board.py:30-60 | each player's 10 starting pieces are the cells of its home triangle |
| GameBoard.CellInTarget | board.py:124-133 | the board's in_target_area over a grid (the Board class reaches it through Snapshot()); CellInTargetSpec relates it to the agents' target squares |
| GameBoard.CellInTargetSpec | board.py:124-133 | the board's target test holds iff the cell holds player 1 in the bottom-right 4x4 square or player 2 in the top-left one |
| GameBoard.Won | board.py:100-120 | the per-player win test of is_game_over: every piece in the target and every triangle cell held; WonSpec restates it as the target square |
| GameBoard.WonSpec | board.py:100-120 | a player has won iff every one of its pieces is in its target square and every cell of its triangle holds it |
| GameBoard.GameOver | board.py:96-122 | is_game_over over a grid (the Board class reaches it through Snapshot()): player 1 or player 2 has won; GameOverSpec states the consequences |
| GameBoard.GameOverSpec | board.py:96-122 | is_game_over holds iff player 1 or player 2 has won; the winner then has at least 10 pieces |
| GameBoard.TriangleOwned | board.py:109 | a player holding its whole triangle has at least 10 pieces |
| GameBoard.PointsScore | board.py:13-21 | get_points_score over a grid: 3 per diamond cell and 1 per gold cell held; PointsScoreRange bounds it |
| GameBoard.PointsScoreRange | board.py:13-21 | the bonus score is between 0 and 8, and it is 0 iff the player holds none of the four bonus cells |
| GameBoard.Board.constructor | board.py:5-11 | a new board holds exactly the starting layout |
| GameBoard.Board.InitPieces | board.py:24-60 | init_pieces writes the 20 starting pieces and leaves every other cell as it was |
| GameBoard.Board.MovePiece | board.py:62-68 | move_piece succeeds iff the destination is empty; then the grid is the moved grid, and otherwise it is unchanged |
| GameBoard.Board.GetValidMoves | board.py:70-79 | the step destinations of the board's current grid, as the move generator defines them |
| GameBoard.Board.GetJumpMoves | board.py:81-94 | the jump landings of the board's current grid, as the move generator defines them |
| GameBoard.Board.JumpOpen | board.py:91-92 | the jump test in one direction is the generator's jump condition on the current grid |
| GameBoard.Board.GetPointsScore | board.py:13-21 | the loops add 3 per diamond cell and 1 per gold cell the player holds |
| Congestion.EntryCells | ai/greedy_ai.py:102 | the four entry cells are on the board and inside the player's target |
| Congestion.OutsideSpec | ai/greedy_ai.py:103 | a cell is kept iff it is listed and outside the target |
| Congestion.WaitingSpec | ai/greedy_ai.py:103 | the waiting list is exactly the player's pieces outside its target |
| Congestion.OutsideDistinct | ai/greedy_ai.py:103 | filtering the row-major piece list keeps each piece once |
| Congestion.OpeningsSpec | ai/greedy_ai.py:108-111 | a neighbour is a candidate iff it lies in one of the given directions, is on the board and empty, and is inside the target (entry) or outside it (exit) |
| Congestion.FirstEntrySpec | ai/greedy_ai.py:104-114 | no entry move iff no entry cell can advance; otherwise the first entry cell that can advance moves to its nearest free deeper cell, and no earlier entry cell can advance |
| Congestion.FirstExitSpec | ai/greedy_ai.py:116-123 | no exit move iff no listed cell can step out; otherwise the first cell that can step out moves to its first free outer cell |
| Congestion.EntryMoveShape | ai/greedy_ai.py:104-114 | an entry move starts on an entry cell holding the player and goes one cell inward onto an empty target cell, no farther from the deep corner than any other candidate |
| Congestion.ExitMoveShape | ai/greedy_ai.py:116-123 | an exit move starts inside the target and goes one cell outward onto an empty cell outside it |
| Congestion.ImprovedFreeUp | ai/astar_ai.py:89-145 | improved_free_up_target_entry as a value, the greedy copy unguarded and the A* copy guarded; ImprovedFreeUpSpec states when it moves and which move |
| Congestion.ImprovedFreeUpSpec | ai/astar_ai.py:89-145 | the rule moves only while a piece waits outside the target; an entry move comes first; a piece leaves the target only when no entry cell can advance, and in the A* copy only with 9 triangle cells held, and under exactly those conditions the first exit move is taken; the mover is the player's piece and lands on an empty cell |
| Congestion.EntryCandidates | ai/greedy_ai.py:107-111 | the candidate loop builds the inward openings of an entry cell |
| Congestion.ExitCell | ai/greedy_ai.py:120-123 | the inner loop returns the first outward opening, or nothing if there is none |
| Congestion.EntryMove | ai/greedy_ai.py:104-114 | the loop over the entry cells yields the first entry move, and only while the waiting list is non-empty |
| Congestion.ExitMove | ai/greedy_ai.py:116-123 | the loop over the player's pieces yields the first exit move |
| Congestion.ImprovedFreeUpTargetEntry | ai/greedy_ai.py:98-147 | improved_free_up_target_entry returns the rule's move (greedy copy unguarded, A* copy guarded) |
| GreedyAgent.CalculateScore | ai/greedy_ai.py:40-43 | calculate_score: the Manhattan distance to the deep corner; CalculateScoreSpec gives its bounds inside and outside the target |
| GreedyAgent.CalculateScoreSpec | ai/greedy_ai.py:40-43 | the score is 0 only on the deep corner and at most 22 on the board; it is at most 6 in the target, at least 4 outside it and at most 4 in the stable area |
| GreedyAgent.BonusLone | ai/greedy_ai.py:65-67 | a bonus of 200 means exactly one piece of the player is outside its target |
| GreedyAgent.LoneBonus | ai/greedy_ai.py:65-67 | exactly one piece of the player outside its target makes the bonus 200 |
| GreedyAgent.Bonus | ai/greedy_ai.py:65-67 | the entry bonus chosen from the number of waiting pieces; BonusSpec states it as exactly one piece outside the target |
| GreedyAgent.BonusSpec | ai/greedy_ai.py:65-67 | the bonus is 200 iff exactly one piece of the player is outside its target, and 50 otherwise |
| GreedyAgent.Improvement | ai/greedy_ai.py:84-89 | the improvement of one candidate move: score gained plus the bonuses; ImprovementSpec states its value case by case |
| GreedyAgent.ImprovementSpec | ai/greedy_ai.py:84-89 | a move ending outside the target gains exactly its score difference; from outside into the stable area it gains three bonuses more, from outside into the rest of the target one bonus more |
| GreedyAgent.ReachesSpec | ai/greedy_ai.py:51-52 | a piece reaches a cell iff that cell is an empty orthogonal neighbour or one jump away |
| GreedyAgent.FirstReachingSpec | ai/greedy_ai.py:50-53 | the first listed cell that reaches the target, and none if no listed cell does |
| GreedyAgent.DeepMove | ai/greedy_ai.py:45-53 | the first stage as a value: the first piece in row-major order that reaches the empty deep corner; DeepMoveSpec states when and which |
| GreedyAgent.DeepMoveSpec | ai/greedy_ai.py:45-53 | the first stage moves nothing iff the deep corner is occupied or no piece reaches it; otherwise it moves onto the corner the first piece, in row-major order, that reaches it |
| GreedyAgent.DeepFound | ai/greedy_ai.py:47-52 | the piece the first stage finds is the player's, reaches the deep corner, and no piece before it in row-major order does |
| GreedyAgent.DeepAbsent | ai/greedy_ai.py:47-53 | when the first stage finds no piece, no piece of the player reaches the deep corner |
| GreedyAgent.DeepTargetMove | ai/greedy_ai.py:46-53 | the first stage's loop returns that move |
| GreedyAgent.UnsettledSpec | ai/greedy_ai.py:63 | a piece is considered in the fallback list iff it is outside the stable area |
| GreedyAgent.InsideOnlySpec | ai/greedy_ai.py:80 | the filtered candidates are exactly those inside the target, a sub-multiset of the input |
| GreedyAgent.InsertByScoreSpec | ai/greedy_ai.py:81 | insertion keeps the list sorted by score and adds exactly the one element |
| GreedyAgent.InsertByScorePerm | ai/greedy_ai.py:81 | inserting keeps every element and adds the new one exactly once |
| GreedyAgent.InsertByScoreSorted | ai/greedy_ai.py:81 | inserting into a list sorted by score keeps it sorted; the new element goes first exactly when it scores strictly lower than the old head |
| GreedyAgent.SortByScore | ai/greedy_ai.py:81 | list.sort(key=calculate_score) as a stable insertion sort; SortByScoreSpec proves it sorted and a permutation |
| GreedyAgent.SortByScoreSpec | ai/greedy_ai.py:81 | the sort is a permutation of its input in non-decreasing score order |
| GreedyAgent.SortByScorePerm | ai/greedy_ai.py:81 | the sort returns a permutation of its input |
| GreedyAgent.SortByScoreSorted | ai/greedy_ai.py:81 | the sort returns its input in non-decreasing score order |
| GreedyAgent.Candidates | ai/greedy_ai.py:78-81 | candidate_moves of one position, filtered and sorted inside the target; CandidatesSpec states which cells they are |
| GreedyAgent.CandidatesSpec | ai/greedy_ai.py:78-81 | a cell is a candidate iff it is reached by a step or a single jump and, for a piece in the target, lies inside the target |
| GreedyAgent.BestSpec | ai/greedy_ai.py:90-92 | best_move is None iff nothing was scored; otherwise it has the greatest improvement, and every earlier move has a strictly smaller one |
| GreedyAgent.FallbackSpec | ai/greedy_ai.py:93-95 | fallback_move is None iff nothing was scored; otherwise it is the move at a returned index whose destination has the smallest score, and every earlier move's destination a strictly larger one |
| GreedyAgent.OptionsSpec | ai/greedy_ai.py:75-83 | the loop scores exactly the moves from non-skipped positions of the order to their candidates |
| GreedyAgent.NeverSkipped | ai/greedy_ai.py:76-77 | the skip test never fires for a considered position |
| GreedyAgent.NormalChoice | ai/greedy_ai.py:61-96 | the third stage as a value: best_move over the scanned options, else fallback_move; NormalChoiceSpec states what it picks |
| GreedyAgent.NormalChoiceSpec | ai/greedy_ai.py:61-96 | for any permutation of the considered pieces: no move iff no considered piece has a candidate; otherwise a considered piece outside the stable area moves to a candidate (staying in the target if it started there) with the greatest improvement, the first such in loop order; the fallback is never used |
| GreedyAgent.NormalChoiceBest | ai/greedy_ai.py:96 | the fallback is never the answer: best_move is None only when no move was scored, and then fallback_move is None too |
| GreedyAgent.NormalChoiceNone | ai/greedy_ai.py:61-96 | for any permutation of the considered pieces, the third stage answers None iff none of them has a candidate |
| GreedyAgent.NormalChoiceSome | ai/greedy_ai.py:61-96 | a move of the third stage goes from a considered piece outside the stable area to one of its candidates, stays in the target if it started there, and has the greatest improvement of all scored moves |
| GreedyAgent.GreedyChoice | ai/greedy_ai.py:45-96 | choose_move as a value with the shuffle given as order; GreedyChoiceSpec states the stage order and the move's legality |
| GreedyAgent.GreedyChoiceSpec | ai/greedy_ai.py:45-96 | the deep-corner move wins, then the congestion rule, then the normal strategy; any move is of a piece of the player onto an empty cell |
| GreedyAgent.BestSnoc | ai/greedy_ai.py:90-92 | one more scored move replaces best_move iff its improvement is strictly larger |
| GreedyAgent.FallbackSnoc | ai/greedy_ai.py:93-95 | one more scored move replaces fallback_move iff its score is strictly smaller |
| GreedyAgent.TracksSnoc | ai/greedy_ai.py:84-95 | the loop's four variables keep tracking best and fallback over the moves scored so far |
| GreedyAgent.ConsiderPosition | ai/greedy_ai.py:75-95 | one pass of the loop over the positions: a position in the stable area adds nothing, any other adds its candidate moves, in order, to the moves the loop variables track |
| GreedyAgent.ScoreCandidates | ai/greedy_ai.py:83-95 | the inner loop leaves the variables tracking the moves seen plus this piece's candidate moves |
| GreedyAgent.NormalStrategy | ai/greedy_ai.py:61-96 | the third stage's loops return the normal choice for the given order |
| GreedyAgent.ChooseMove | ai/greedy_ai.py:45-96 | choose_move returns the greedy choice for the given order |
| AStarAgent.Heuristic | ai/astar_ai.py:78-83 | heuristic: the Manhattan distance to (11, 11) for player 1 and to (0, 0) for any other id; HeuristicSpec states its zero and its bound |
| AStarAgent.HeuristicSpec | ai/astar_ai.py:78-83 | the heuristic is 0 only on its corner, equals the distance to the deep corner for players 1 and 2, and is at most 22 on the board |
| AStarAgent.Neighbors | ai/astar_ai.py:75-87 | get_neighbors: steps, single jumps and get_all_jump_targets, concatenated in that order; NeighborsSpec states which cells they are |
| AStarAgent.NeighborsSpec | ai/astar_ai.py:75-87 | the neighbours are exactly the generator's destinations from the cell, and each is an empty board cell other than it |
| AStarAgent.MinIndex | ai/astar_ai.py:55 | heappop hands out an entry that no other entry precedes in (f, row, column) order |
| AStarAgent.PushQueued | ai/astar_ai.py:64 | after a push, a cell is queued iff it was queued before or is the pushed one |
| AStarAgent.RemoveQueued | ai/astar_ai.py:55 | a pop keeps every other queued cell queued |
| AStarAgent.AddKey | ai/astar_ai.py:60-62 | recording a new cell lowers the count of unknown cells by one |
| AStarAgent.LowerKey | ai/astar_ai.py:60-62 | lowering a known distance keeps the unknown count and lowers the sum of the distances |
| AStarAgent.RelaxTree | ai/astar_ai.py:60-62 | updating came_from and g_score keeps a tree of shorter-first edges rooted at start |
| AStarAgent.RelaxLinked | ai/astar_ai.py:60-62 | every predecessor link still joins two known cells by an edge, the nearer first |
| AStarAgent.RelaxCovered | ai/astar_ai.py:60-64 | every newly known cell is queued |
| AStarAgent.RelaxProgress | ai/astar_ai.py:60-64 | each update makes progress in the termination measure |
| AStarAgent.RelaxEdge | ai/astar_ai.py:59-64 | one neighbour's update keeps the search invariants, makes the neighbour known and makes progress |
| AStarAgent.Expand | ai/astar_ai.py:58-64 | expanding a non-goal cell makes all its neighbours known and keeps the invariants |
| AStarAgent.NoGoalReachable | ai/astar_ai.py:54-65 | once every known cell is expanded without a goal, no walk from start reaches a goal |
| AStarAgent.NeighborsLegal | ai/astar_ai.py:75-76 | the neighbour function the search runs on yields only board cells |
| AStarAgent.AStar | ai/astar_ai.py:49-65 | a_star returns a walk of generator moves from start to an empty target cell, and None only if no such walk exists |
| AStarAgent.Reversed | ai/astar_ai.py:72 | path.reverse() puts the i-th cell from the end at position i |
| AStarAgent.ReversedWalk | ai/astar_ai.py:67-73 | reversing a backward walk of predecessors gives a walk |
| AStarAgent.ReconstructPath | ai/astar_ai.py:67-73 | reconstruct_path returns a walk from start to the current cell |
| AStarAgent.LongPath | ai/astar_ai.py:32 | a path found from a piece has at least two cells, so its second cell is a legal move |
| AStarAgent.AnswerReach | ai/astar_ai.py:31-32 | an answer of a_star for a piece is a path exactly when some walk from the piece reaches an empty target cell |
| AStarAgent.SearchStage | ai/astar_ai.py:28-35 | a stage returns a_star's answer for every searched piece; it keeps a move iff some searched piece can reach a goal, and then the move goes from the first searched piece whose path's second cell has the lowest heuristic to that cell, with that heuristic |
| AStarAgent.ChooseMove | ai/astar_ai.py:18-46 | the guarded congestion rule first; else the stage over the shuffled outside pieces, and only if none of them has a path the stage over all pieces: the move goes to the second cell of a found path, from the first searched piece whose second cell has the lowest heuristic, from an outside piece whenever one has a path; None iff no piece of the player has one |
| MinimaxAgent.Max | ai/minimax_ai.py:38 | Python's max over integers and the two infinities: the larger argument |
| MinimaxAgent.Min | ai/minimax_ai.py:55 | Python's min: the smaller argument |
| MinimaxAgent.Opponent | ai/minimax_ai.py:46 | the fixed opponent is 2 for player 1 and 1 for every other id |
| MinimaxAgent.PieceValue | ai/minimax_ai.py:82-91 | the score of one piece in evaluate: area bonuses minus twice the distance to the deep corner; PieceValueSpec bounds and orders it |
| MinimaxAgent.PieceValueSpec | ai/minimax_ai.py:82-91 | a piece is worth between -44 and 150, 150 only on the deep corner; a piece in the stable (target) area is worth more than one outside it |
| MinimaxAgent.Evaluation | ai/minimax_ai.py:68-93 | evaluate as a value: the sum of the piece values of the player's pieces; EvaluationRange bounds it and MovedEvaluation relates it across a move |
| MinimaxAgent.Evaluate | ai/minimax_ai.py:68-93 | evaluate returns the sum of the player's piece values |
| MinimaxAgent.ScorePieces | ai/minimax_ai.py:82-91 | the loop's running score is the sum of the piece values so far |
| MinimaxAgent.SumValuesSnoc | ai/minimax_ai.py:82-91 | one more piece adds its own value |
| MinimaxAgent.SumValuesRange | ai/minimax_ai.py:82-91 | the sum lies between -44 and 150 times the number of pieces |
| MinimaxAgent.EvaluationRange | ai/minimax_ai.py:68-93 | the evaluation lies between -44 and 150 times the player's piece count |
| MinimaxAgent.MovedEvaluation | ai/minimax_ai.py:61-93 | moving one of the player's pieces changes the evaluation by exactly the change of that piece's value; moving another piece leaves it unchanged |
| MinimaxAgent.SquareCells | ai/minimax_ai.py:135-142 | the 16 cells terminal scans for a player |
| MinimaxAgent.SquareCellsSpec | ai/minimax_ai.py:135-142 | the scanned cells are exactly the board cells of the player's target area, each once, and all pass the diagonal clause |
| MinimaxAgent.HoldingSpec | ai/minimax_ai.py:135-142 | a cell is counted iff it is scanned, passes the diagonal clause and holds the player |
| MinimaxAgent.Terminal | ai/minimax_ai.py:133-143 | terminal: some player 1 to 4 holds 10 cells of its square; TerminalNeedsTen and WonIsTerminal state what that means |
| MinimaxAgent.SquareHeld | ai/minimax_ai.py:133-143 | the cells terminal counts are exactly the player's pieces in its target area |
| MinimaxAgent.TerminalNeedsTen | ai/minimax_ai.py:133-143 | a terminal board has a player with exactly 10 pieces counted in its square and at least 10 pieces |
| MinimaxAgent.WonIsTerminal | ai/minimax_ai.py:133-143 | a board on which player 1 or 2 has won, with its 10 pieces, is terminal for the search |
| MinimaxAgent.AllMovesOnBoard | ai/minimax_ai.py:33 | every generated move joins two board cells |
| MinimaxAgent.PegsPlays | ai/minimax_ai.py:29-59 | the search's game is the board game: get_all_moves, simulate_move, terminal and evaluate |
| MinimaxAgent.LargestSpec | ai/minimax_ai.py:32-38 | the running max from -inf is one of the values and no value exceeds it |
| MinimaxAgent.SmallestSpec | ai/minimax_ai.py:49-55 | the running min from +inf is one of the values and no value is below it |
| MinimaxAgent.ChildMinsAt | ai/minimax_ai.py:37-38 | the i-th child value is the minimax value after the i-th move |
| MinimaxAgent.ChildMaxesAt | ai/minimax_ai.py:54-55 | the same for the opponent's moves |
| MinimaxAgent.MaxSpecNode | ai/minimax_ai.py:29-42 | an inner node's value is the value of one of its children |
| MinimaxAgent.MinSpecNode | ai/minimax_ai.py:44-59 | the same for the opponent's nodes |
| MinimaxAgent.MaxSpecBounds | ai/minimax_ai.py:29-42 | minimax values stay within the bounds of the leaf scores |
| MinimaxAgent.MinSpecBounds | ai/minimax_ai.py:44-59 | the same for the opponent's nodes |
| MinimaxAgent.FullWindow | ai/minimax_ai.py:23 | with the window (-inf, +inf), a fail-soft value is the exact value |
| MinimaxAgent.MaxStep | ai/minimax_ai.py:36-41 | one more child keeps the max loop's invariant, or causes a beta cutoff whose value is a lower bound |
| MinimaxAgent.MinStep | ai/minimax_ai.py:53-58 | one more child keeps the min loop's invariant, or causes an alpha cutoff whose value is an upper bound |
| MinimaxAgent.MaxSpecLeaf | ai/minimax_ai.py:30-35 | at a leaf, evaluate is the exact value for any window |
| MinimaxAgent.MinSpecLeaf | ai/minimax_ai.py:47-52 | the same for the opponent's leaves |
| MinimaxAgent.MaxSpecInner | ai/minimax_ai.py:36-42 | a fail-soft value of the best child is one of the node |
| MinimaxAgent.MinSpecInner | ai/minimax_ai.py:53-59 | the same for the opponent's nodes |
| MinimaxAgent.MaxSpec | ai/minimax_ai.py:29-42 | the plain minimax value with the player to move, the reference MaxValue is proved against; MaxSpecBounds bounds it |
| MinimaxAgent.MaxValue | ai/minimax_ai.py:29-42 | max_value returns a fail-soft alpha-beta value of the minimax value: exact inside the window, an upper bound at or below alpha, a lower bound at or above beta |
| MinimaxAgent.MaxBranch | ai/minimax_ai.py:32-42 | at an inner node with moves, the search value is a fail-soft value of the node |
| MinimaxAgent.MaxOverMoves | ai/minimax_ai.py:36-42 | the loop over the moves, with its cutoff, returns a fail-soft value of the largest child value |
| MinimaxAgent.MinSpec | ai/minimax_ai.py:44-59 | the plain minimax value with the opponent to move, the reference MinValue is proved against; MinSpecBounds bounds it |
| MinimaxAgent.MinValue | ai/minimax_ai.py:44-59 | min_value returns a fail-soft alpha-beta value of the opponent-to-move minimax value |
| MinimaxAgent.MinBranch | ai/minimax_ai.py:49-59 | the same at the opponent's inner nodes |
| MinimaxAgent.MinOverMoves | ai/minimax_ai.py:53-59 | the loop over the opponent's moves returns a fail-soft value of the smallest child value |
| MinimaxAgent.FirstArgMax | ai/minimax_ai.py:19-26 | the index choose_move settles on is a valid index |
| MinimaxAgent.FirstArgMaxSpec | ai/minimax_ai.py:21-26 | the chosen value is the largest, and every earlier value is strictly smaller |
| MinimaxAgent.ChoiceIsMinimax | ai/minimax_ai.py:19-27 | the chosen move's value is the minimax value of the position |
| MinimaxAgent.RootValue | ai/minimax_ai.py:21-23 | min_value with the whole window open, on the board after one root move, returns exactly that move's minimax value |
| MinimaxAgent.FirstArgMaxStep | ai/minimax_ai.py:24-26 | one step of the loop: the kept index moves to the new move only on a strictly larger value |
| MinimaxAgent.FirstBest | ai/minimax_ai.py:19-27 | the loop of choose_move returns the first move of largest value |
| MinimaxAgent.MovesNeedPieces | ai/minimax_ai.py:16-18 | a player with a move has a piece |
| MinimaxAgent.BestMove | ai/minimax_ai.py:19-27 | the first move of largest minimax value on the board game, searched to depth - 1 plies |
| MinimaxAgent.ChooseMove | ai/minimax_ai.py:11-27 | the corner rule's move when it applies; otherwise None iff the player has no move, and else the first move of largest minimax value |

## Left out

- The terminal user interface, the entry point, the statistics runner, the board's
  `render` and the agent wrappers are not part of this model: they only do I/O.
- `random.shuffle` (greedy and A* agents): the shuffled list is a parameter `order`. The
  greedy properties hold for every permutation of the considered pieces, and the A*
  properties for every permutation of the waiting pieces.
- Python's `float('inf')` and `-float('inf')` are the values `PosInf` and `NegInf` of the
  `Ext` datatype. Integers are unbounded, as Python's are.
- numpy negative indices: every board access in the model is on a board cell, as every
  access the program makes is. `Board.MovePiece` requires both cells on the board.
- The binary-heap layout of `heapq`: the open set is a sequence, and a pop takes its least
  `(f, row, column)` entry. That is the entry heapq hands out, without its array layout.
- GreedyAgent.ChooseMove: for players other than 1 and 2 the program has no deep target
  and fails, so the model requires player 1 or 2.
- AStarAgent.AStar: does not state that the path is shortest. The heuristic does not
  bound the cost of jumps, so the program does not promise it.
- AStarAgent.SearchStage: the lowest heuristic is taken over the paths this model's
  AStar returns. AStar is specified by what its path satisfies (a walk to a goal), so
  when several paths qualify, the one the program's heap tie-breaking returns is not
  pinned down beyond that.
- MinimaxAgent.ChooseMove: requires a depth of at least 1 (the program's default is 2).
  With depth 0 the program searches with negative depths until the game ends, so no
  depth bound holds. It also requires an id from 1 to 4 when the player has pieces; for
  any other id, evaluate has no target and fails.
- MinimaxAgent: the search is stated over the `Game` record, which `Pegs(player)`
  instantiates with get_all_moves, simulate_move, terminal and evaluate. Boards are
  values, so simulate_move's copy is implicit.
- GreedyAgent.SortByScore: Python's sort is stable; the model's insertion sort keeps
  equal-score elements in input order as well. Stability is not stated as a lemma.
- MoveUtils.GetAllMoves: with only_from given, the program lists that cell's moves even
  when it holds no piece of the player; the model does the same and does not require it.

## Findings

| source | as written | input that shows it | evidently intended | confidence | as-written member | corrected member |
|---|---|---|---|---|---|---|
| ai/move_utils.py:51 | `paths.append([pos] + fp[1:])` drops the landing cell of the first jump, so every returned path keeps only its two ends and a path of two or more jumps is no longer a chain of jumps | pieces at (0, 0), (0, 1) and (0, 3) on an otherwise empty board: from (0, 0) the program returns the path [(0, 0), (0, 4)], whose one step is not a jump | `paths.append([pos] + fp)`, keeping every hop; the destinations get_all_moves takes from the paths are the same either way | not executed | MoveUtils.ContinuousJumpMoves, MoveUtils.SplicedPathIsNotAChain | MoveUtils.JumpChains, MoveUtils.JumpChainsSound, MoveUtils.JumpChainsComplete |
