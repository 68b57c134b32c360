# Siguo Junqi engine — a verified Dafny model

This project models the rules and state engine of a four-player Siguo Junqi (四国军棋) game on a
17×17 cross-shaped board, together with the pieces of the front end that change state: the fixed
deployment the piece layer performs, the board-layout service and the dirty-rectangle list of the
canvas. The model covers the following parts of the system:

- **Piece catalog** (`pieces.dfy`): the twelve kinds, their ranks, the movement table, the 25-piece
  roster and the piece factory.
- **Rules evaluator** (`rules.dfy`): alliances (Red with Blue, Yellow with Green), battle
  resolution, move legality and path clearance, defeat and alliance victory, and possible moves.
- **Move validator** (`moves.dfy`): move classification, the straight path, the A* search with its
  open list and closed set, all valid moves of a piece and the threat test.
- **Game engine**:
  - `game_data.dfy`, `engine_model.dfy` and `setup.dfy` hold the state and, as functions, what each
    engine step does to it.
  - `engine.dfy` holds the `GameEngine` class, which changes its `state` field in place. Each of its
    methods is proved to leave the state the matching step function describes.
- **Persistence** (`persistence.dfy`): serialization, in which the board holds piece ids,
  deserialization through an id map with its round trip, and the bounded undo/redo stack of
  `GameStateManager`.
- **Integrity check** (`validation.dfy`): the error lists of `GameStateValidator`. A game is proved
  to pass the check exactly when it is consistent.
- **Fixed deployment** (`deployment.dfy`, `piece_layer.dfy`): camps, headquarters, deployment
  positions, the stable sort by distance to the centre, and the passes that place flags, mines,
  normal pieces and bombs.
- **Board data** (`board_layout.dfy`): the grid of cell types, filled in place, and the cache.
- **Dirty rectangles** (`dirty_rects.dfy`): marking, merging and the bounding box.

The engine's board holds references to roster entries (owner and index), not piece copies. The
board and a player's roster therefore always see the same piece, as they do in the source, where
both hold the same object.

In three places the code departs from the game's rules as its own comments and names present them. The model follows the code:

- **Defeat.** A player counts as defeated when no active piece can move at all by its kind
  (`src/game/core/GameRules.ts:276-278`). It is not judged by whether any piece has a legal move.
- **Flag capture.** A captured flag is never eliminated (`src/game/core/GameRules.ts:112-117`,
  `src/game/core/GameEngine.ts:241-263`). Its entry stays Active, with its old position, while the
  attacker takes the cell. `EngineModel.CapturedFlagStaysActive` states this.
- **Wing colours.** The board-layout service colours the left wing red and the right wing blue.
  The deployment puts red pieces on the right and blue pieces on the left. Each file is modelled as
  written.

## Model

| member | source | states |
|---|---|---|
| Common.NatToString | src/game/core/GameEngine.ts:151 | the decimal text of a loop counter is non-empty, made of digits, and one digit long exactly below ten |
| Common.DecimalRoundTrip | src/game/core/GameEngine.ts:151 | reading the decimal text of `i` back gives `i`, so the counter in a piece id is recoverable |
| Common.NatToStringInjective | src/game/core/GameEngine.ts:151 | distinct counters print as distinct texts |
| Common.UnderscoreSplit | src/game/core/GameEngine.ts:151 | a text `head_tail` whose head has no underscore determines head and tail, which is what keeps `color_type_i` ids apart |
| Pieces.TagsHaveNoUnderscore | src/game/pieces/PieceTypes.ts:25-47 | no kind or color value contains `_`, the separator of generated ids |
| Pieces.RankOf | src/game/pieces/PieceTypes.ts:7-23 | bomb, mine and flag get negative ranks, the other kinds ranks 32 to 40, and 32 is the engineer's |
| Pieces.KindOfRank | src/game/pieces/PieceTypes.ts:145-158 | the rank-to-type table is defined exactly on the twelve rank values |
| Pieces.RankTablesInverse | src/game/pieces/PieceTypes.ts:129-158 | the type-to-rank and rank-to-type tables are inverse to each other |
| Pieces.RanksDistinct | src/game/pieces/PieceTypes.ts:7-23 | distinct kinds have distinct ranks, and every fighting rank exceeds every special rank |
| Pieces.RosterSizes | src/game/pieces/PieceTypes.ts:97-110 | the standard roster has 25 pieces, 16 of them from the eight ranked officer kinds listed first |
| Pieces.RosterComposition | src/game/pieces/PieceTypes.ts:97-110 | the roster has one flag, two bombs and three mines |
| Pieces.RosterEngineers | src/game/pieces/PieceTypes.ts:97-110 | the roster has three engineers |
| Pieces.CountOfAbsentKind | src/game/pieces/PieceTypes.ts:97-110 | a kind not among the first `n` table keys contributes no pieces to that prefix |
| Pieces.KindOrderComplete | src/game/pieces/PieceTypes.ts:97-110 | the roster table lists every kind exactly once |
| Pieces.MovementAbility | src/game/pieces/PieceTypes.ts:113-126 | only mine and flag are immovable, and only the engineer has the railway bonus |
| Pieces.CanPieceMove | src/game/pieces/PieceTypes.ts:177-181 | a movable piece is Active and neither a mine nor a flag |
| Pieces.HasRailwayBonus | src/game/pieces/PieceTypes.ts:184-186 | the railway bonus belongs exactly to engineers |
| Pieces.CreatePiece | src/game/pieces/PieceTypes.ts:189-204 | the factory piece has the given kind, owner and position, its table rank, Active and Visible status, mobility exactly for non-mine non-flag kinds, the given id when non-empty and the clock-based default id otherwise |
| Rules.AllianceOf | src/game/core/GameRules.ts:56-68 | two colors are allies exactly when they sit in the same pair |
| Rules.AllianceIsPairing | src/game/core/GameRules.ts:56-68 | the alliance relation is symmetric and reflexive, and its allied pairs are exactly Red/Blue and Yellow/Green |
| Rules.ResolveBattle | src/game/core/GameRules.ts:74-137 | allies cannot fight; otherwise the ordered rules apply (engineer defuses a mine, a bomb takes both, a mine takes every non-engineer, the flag is captured), then the higher rank wins and equal ranks trade; the winner is never eliminated and only the two fighters can be |
| Rules.AttackerSurvival | src/game/core/GameRules.ts:74-137 | between enemy factory pieces the attacker survives exactly when it captures the flag, is an engineer meeting a mine, or outranks an ordinary defender |
| Rules.Distance | src/game/core/GameRules.ts:222-224 | the Manhattan distance is zero exactly between equal cells |
| Rules.IsOrthogonal | src/game/core/GameRules.ts:229-235 | a move is orthogonal exactly when the cells differ and share a row or a column |
| Rules.At | src/game/core/GameRules.ts:166 | an occupied reading comes from an existing cell of the board |
| Rules.BetweenIsStep | src/game/core/GameRules.ts:240-261 | on a line, the cells strictly between the ends are exactly the intermediate unit steps |
| Rules.PathClearIffBetweenFree | src/game/core/GameRules.ts:240-261 | a path is clear exactly when every cell strictly between the ends exists and is empty |
| Rules.IsPathClear | src/game/core/GameRules.ts:240-261 | the walk answers true exactly when every cell strictly between the ends is free |
| Rules.StepAdvance | src/game/core/GameRules.ts:252-258 | a step short of the target lies strictly inside the path, and the next step adds one unit in each moving coordinate |
| Rules.StepArrive | src/game/core/GameRules.ts:252 | the walk reaches the target after exactly the distance |
| Rules.CanMovePiece | src/game/core/GameRules.ts:143-210 | the move is accepted exactly when all tests pass, and each refusal reason (cannot move, out of bounds, allied target, too far, not orthogonal, blocked) is reported exactly when the earlier tests pass and its own fails |
| Rules.LegalMoveShape | src/game/core/GameRules.ts:143-210 | an accepted move is one step for a non-engineer, stays on one line, has a clear path, and moves an Active piece that is neither mine nor flag |
| Rules.CommanderMoveExamples | src/game/core/GameRules.ts:143-210 | on a 17 by 17 board a commander may step one cell but not two, not diagonally and not off the board |
| Rules.FirstActiveFlag | src/game/core/GameRules.ts:271 | the index found is that of the first Active flag of the roster, or the length when there is none |
| Rules.IsPlayerDefeated | src/game/core/GameRules.ts:267-279 | a player that is not defeated has a movable Active piece and an Active flag standing on the board |
| Rules.DefeatWithOneFlag | src/game/core/GameRules.ts:267-279 | with at most one flag, a player is defeated exactly when no Active flag stands on the board or no piece can move |
| Rules.EmptyRosterDefeated | src/game/core/GameRules.ts:267-279 | an empty roster is defeated |
| Rules.CheckAllianceVictory | src/game/core/GameRules.ts:285-310 | Yellow/Green win exactly when Red and Blue are both defeated; Red/Blue win exactly when that is not so and Yellow and Green are both defeated |
| Rules.VictoryIsAllianceOverDefeatedEnemies | src/game/core/GameRules.ts:285-310 | a declared winner is an allied pair, and every enemy of it is defeated |
| Rules.GetPossibleMoves | src/game/core/GameRules.ts:315-382 | the scan returns exactly the possible-move sequence of the piece, which PossibleMovesComplete characterises for every kind |
| Rules.PossibleMoves | src/game/core/GameRules.ts:315-382 | every move listed is accepted by CanMovePiece from the piece's own position and is kept by the attack filter |
| Rules.AllMovesInDirectionsSound | src/game/core/GameRules.ts:332-378 | every move found in the first `n` directions is legal and kept |
| Rules.ScanRailway | src/game/core/GameRules.ts:351-377 | the engineer's scan in one direction appends exactly the railway moves of that direction |
| Rules.RayMovesSound | src/game/core/GameRules.ts:351-377 | every railway move found is accepted by CanMovePiece and is kept by the attack filter |
| Rules.MovesInDirectionsSound | src/game/core/GameRules.ts:332-378 | every move found in the first `n` directions is accepted and kept |
| Rules.PossibleMovesSound | src/game/core/GameRules.ts:315-382 | every possible move is legal from the piece's own position and lands on an empty cell or, with attacks included, on an enemy |
| Rules.StepMovesComplete | src/game/core/GameRules.ts:334-346 | for a non-engineer the possible moves are exactly the legal one-step moves that the attack filter keeps |
| Rules.DirectionMovesIncluded | src/game/core/GameRules.ts:332-378 | a move found in one direction appears in the result of every longer prefix of the directions |
| Rules.DirectionIndex | src/game/core/GameRules.ts:332-333 | a cell on the same row or column lies along one of the four scanned directions, at its distance |
| Rules.LegalWithinRayLimit | src/game/core/GameRules.ts:351-353 | on a rectangular board no legal move is longer than the larger board dimension, the scan's limit |
| Rules.InnerStepLegal | src/game/core/GameRules.ts:351-377 | every cell short of a legal engineer target on its line is empty, in bounds and itself a legal move |
| Rules.RayMovesComplete | src/game/core/GameRules.ts:351-377 | a legal, kept engineer target within the limit is found by the scan of its direction |
| Rules.PossibleMovesComplete | src/game/core/GameRules.ts:315-382 | on a rectangular board the possible moves are exactly the legal moves the attack filter keeps, for the engineer as for every other piece |
| Moves.LineStepsReachTarget | src/game/core/MoveValidator.ts:113-119 | the straight walk meets the target at exactly its step count |
| Moves.StraightPath | src/game/core/MoveValidator.ts:104-122 | the path starts at the origin, ends at the target, has one cell per step plus one, and its cells are the successive steps |
| Moves.StraightPathShape | src/game/core/MoveValidator.ts:104-122 | along a row or column the path has distance plus one cells, each one orthogonal step from the last |
| Moves.StraightPathInner | src/game/core/MoveValidator.ts:104-122 | along a row or column the inner cells of the path are the cells strictly between the ends |
| Moves.CalculateStraightPath | src/game/core/MoveValidator.ts:104-122 | the loop returns exactly the straight path |
| Moves.ValidateMove | src/game/core/MoveValidator.ts:42-81 | the verdict carries CanMovePiece's answer; an accepted move has its distance, its target occupant, Attack type exactly on an occupied target, Railway type exactly for an engineer's long move to an empty cell, and a unit-step path from origin to target over free cells |
| Moves.CalculateHeuristic | src/game/core/MoveValidator.ts:215-217 | the heuristic is the Manhattan distance |
| Moves.PositionsEqual | src/game/core/MoveValidator.ts:267-269 | two positions compare equal exactly when they are the same cell |
| Moves.Neighbors | src/game/core/MoveValidator.ts:222-240 | the neighbours are exactly the in-bounds cells at distance one, without repetition |
| Moves.PrependLegalStep | src/game/core/MoveValidator.ts:245-255 | a legal step in front of a legal walk gives a legal walk |
| Moves.PickLowest | src/game/core/MoveValidator.ts:150-157 | the open node picked has the lowest f cost, and is the first such |
| Moves.FindOpen | src/game/core/MoveValidator.ts:187-189 | the index found names an open node on the cell, and -1 is returned exactly when there is none |
| Moves.ExpandNode | src/game/core/MoveValidator.ts:169-207 | expanding a closed node keeps the search invariant: a tree of legal steps rooted at the start, with distinct unclosed open cells |
| Moves.OfferNeighbor | src/game/core/MoveValidator.ts:171-205 | offering one neighbour keeps the search invariant and leaves the closed node untouched |
| Moves.AddNodeKeepsSearching | src/game/core/MoveValidator.ts:191-199 | adding a new open node one legal step from a closed node keeps the search invariant |
| Moves.ReparentKeepsSearching | src/game/core/MoveValidator.ts:200-204 | lowering an open node's cost and re-parenting it to the closed node keeps the search invariant |
| Moves.ReconstructPath | src/game/core/MoveValidator.ts:245-255 | following parent links gives a walk from the start to the node in which each step is legal |
| Moves.FindPathAStar | src/game/core/MoveValidator.ts:127-210 | a returned path goes from the origin to the target and is either a walk of legal steps or the straight fallback; no path is returned only when the fallback would not terminate |
| Moves.CalculatePath | src/game/core/MoveValidator.ts:86-99 | an orthogonal move gets the straight path; any path returned runs from origin to target |
| Moves.ValidMovesTakeStraightPaths | src/game/core/MoveValidator.ts:72-98 | an accepted move is orthogonal, so its verdict carries the straight path and the search is never reached from validation |
| Moves.GetAllValidMoves | src/game/core/MoveValidator.ts:274-293 | the loop returns the verdicts on the validated possible moves, in order |
| Moves.AllValidMoves | src/game/core/MoveValidator.ts:274-293 | no more verdicts than possible moves, and every verdict kept is an acceptance |
| Moves.ValidatedMovesAccepted | src/game/core/MoveValidator.ts:285-290 | validation keeps at most one verdict per target, and only accepting ones |
| Moves.ValidatedMovesKeepAll | src/game/core/MoveValidator.ts:285-290 | when every target is accepted, validation keeps one verdict per target, in order |
| Moves.AllValidMovesArePossibleMoves | src/game/core/MoveValidator.ts:274-293 | the valid moves of a piece are exactly its possible moves, each accepted, one verdict each and in order |
| Moves.IsPositionThreatened | src/game/core/MoveValidator.ts:298-318 | the scan answers true exactly when some piece of the given player lists the position among its possible moves |
| Moves.RowThreatened | src/game/core/MoveValidator.ts:305-315 | one row's scan answers whether a piece of the player in that row can reach the position |
| Moves.RowThreatGrows | src/game/core/MoveValidator.ts:305-315 | a threat found in a prefix of a row stays found in a longer prefix |
| Moves.RowThreatIff | src/game/core/MoveValidator.ts:305-315 | a row prefix holds a threat exactly when one of its cells does |
| Moves.BoardThreatIff | src/game/core/MoveValidator.ts:304-315 | the first `n` rows hold a threat exactly when one of their cells does |
| Moves.CellThreatens | src/game/core/MoveValidator.ts:306-313 | one cell threatens exactly when it holds a piece of the player whose possible moves include the position |
| Moves.ThreatMeansLegalMove | src/game/core/MoveValidator.ts:298-318 | a threatening piece may legally move onto the position; conversely a legal move onto it is a threat, for a non-engineer on any board and for the engineer on a rectangular one |
| GameData.PlayerOrderComplete | src/game/core/GameEngine.ts:316 | the turn order names every color exactly once |
| GameData.Resolve | src/game/core/GameEngine.ts:199 | a cell reads as a piece exactly when its reference names an existing roster entry |
| GameData.View | src/game/core/GameEngine.ts:210 | the board handed to the rules has the engine board's shape |
| GameData.ViewAt | src/game/core/GameEngine.ts:210 | a cell of the rules' board is the roster entry the engine cell refers to |
| GameData.KindTagInjective | src/game/pieces/PieceTypes.ts:25-38 | distinct kinds have distinct string values |
| GameData.ColorTagInjective | src/game/pieces/PieceTypes.ts:41-46 | distinct colors have distinct string values |
| GameData.PieceIdInjective | src/game/core/GameEngine.ts:147-152 | an id `color_type_i` determines its color, its kind and its counter |
| GameData.RosterUpToLength | src/game/core/GameEngine.ts:145-155 | the pieces built for the first `n` kinds number as many as the table assigns them |
| GameData.RosterSlot | src/game/core/GameEngine.ts:145-155 | each slot holds the piece of its kind block, with the counter of its place in the block |
| GameData.RosterBlockSlot | src/game/core/GameEngine.ts:146-154 | the slots of the last block built hold that block's pieces |
| GameData.RosterPrefix | src/game/core/GameEngine.ts:145-155 | building more kinds leaves the slots already built unchanged |
| GameData.RosterSizeMonotone | src/game/pieces/PieceTypes.ts:97-110 | more kinds of the table never give fewer pieces, and strictly more when the table keeps going |
| GameData.SlotBlock | src/game/core/GameEngine.ts:145-155 | every slot lies in the block of some kind |
| GameData.BlockUnique | src/game/core/GameEngine.ts:145-155 | every slot lies in one block only |
| GameData.PlayerPiecesShape | src/game/core/GameEngine.ts:141-158 | a created roster has 25 pieces of its color, all Active at (0, 0) with their table rank, and ends with the flag |
| GameData.SlotShape | src/game/core/GameEngine.ts:141-158 | each slot of a created roster holds a piece of its color, Active at (0, 0), with its table rank |
| GameData.SlotId | src/game/core/GameEngine.ts:147-152 | the id of a slot spells its color, its kind and its counter within the kind |
| GameData.RosterIdsDistinct | src/game/core/GameEngine.ts:141-158 | no two pieces of the created rosters share an id, within a roster or across colors |
| GameData.BlockIdsDistinct | src/game/core/GameEngine.ts:147-152 | distinct (color, kind, counter) triples give distinct ids |
| EngineModel.SetCell | src/game/core/GameEngine.ts:248 | writing one cell changes that cell only, and no field but the board |
| EngineModel.SetPiece | src/game/core/GameEngine.ts:242-243 | writing one roster entry changes that entry only, and no player field but the roster |
| EngineModel.Remove | src/game/core/GameEngine.ts:241-255 | taking a casualty off keeps the board square and the rosters' shape, and touches no field but board and players |
| EngineModel.RemoveEffect | src/game/core/GameEngine.ts:241-255 | a casualty is marked Eliminated with no position and its cell cleared; no other cell or entry changes |
| EngineModel.Fight | src/game/core/GameEngine.ts:237-256 | the battle step keeps the board square and the rosters' shape, and touches no field but board and players |
| EngineModel.Eliminations | src/game/core/GameEngine.ts:241-255 | taking the listed casualties off keeps the board square and the rosters' shape |
| EngineModel.EliminationsEffect | src/game/core/GameEngine.ts:241-255 | each fighter is either marked Eliminated, unplaced and off its cell, or untouched, as the battle lists it; nothing else changes |
| EngineModel.Advance | src/game/core/GameEngine.ts:259-263 | moving the survivor keeps the board square and the rosters' shape |
| EngineModel.AdvanceFrame | src/game/core/GameEngine.ts:259-263 | an Active mover leaves `from`, takes `to` and learns it; a fallen one changes nothing; no other cell or entry changes |
| EngineModel.AfterBattle | src/game/core/GameEngine.ts:233-256 | the state after any battle keeps the board square, the rosters' shape and the mover's entry |
| EngineModel.AfterBattleCell | src/game/core/GameEngine.ts:233-256 | after the battle the mover is Active or its cell is empty, and no other cell has changed |
| EngineModel.AfterBattleMover | src/game/core/GameEngine.ts:237-256 | the battle does not change the mover's owner |
| EngineModel.AfterBattlePiece | src/game/core/GameEngine.ts:237-256 | the battle changes no roster entry but the two fighters' |
| EngineModel.ExecuteMove | src/game/core/GameEngine.ts:232-281 | executing a move keeps the board square and the rosters' shape; the record's battle details show the fighters as the move left them (see EngineModel.RecordedBattle) |
| EngineModel.ExecuteMoveFrame | src/game/core/GameEngine.ts:232-281 | the record is appended with the mover's owner, both cells, the turn number and a battle exactly when the target was occupied; the source ends empty; only the two cells and the two fighters' entries change; nothing but board, rosters and history changes |
| EngineModel.ExecuteMoveRecord | src/game/core/GameEngine.ts:265-277 | the appended record names the mover's owner, both cells, the turn and a copy of the mover after the move, and carries a battle exactly when the target was occupied |
| EngineModel.ExecuteMoveCells | src/game/core/GameEngine.ts:247-263 | the source ends empty and no cell but source and target is written |
| EngineModel.ExecuteMoveCell | src/game/core/GameEngine.ts:247-263 | for one cell: the source ends empty and a third cell keeps its reference |
| EngineModel.AdvanceCell | src/game/core/GameEngine.ts:259-263 | advancing leaves `from` empty and writes no cell but `from` and `to` |
| EngineModel.ExecuteMovePieces | src/game/core/GameEngine.ts:232-281 | a move changes no roster entry but the mover's and the defender's |
| EngineModel.ExecuteMoveKeepsPiece | src/game/core/GameEngine.ts:232-281 | an entry that neither moves nor defends is unchanged |
| EngineModel.QuietMove | src/game/core/GameEngine.ts:259-263 | a move onto an empty cell puts the mover there, updates its position and empties its old cell |
| EngineModel.FightersApart | src/game/core/GameEngine.ts:237-238 | the mover and a defender it may fight are distinct pieces on distinct cells |
| EngineModel.FightOutcome | src/game/core/GameEngine.ts:237-256 | the battle is resolved by ResolveBattle on the fighters as they stand before it; each fighter is eliminated and off its cell exactly when listed, untouched otherwise; nothing else changes |
| EngineModel.BattleOutcome | src/game/core/GameEngine.ts:237-263 | after a battle the record holds the battle's details settled on the fighters' final entries; each listed fighter is Eliminated with no position; a surviving mover holds `to`; a surviving defender is untouched and keeps `to` when the mover fell; the target is empty when both fell |
| EngineModel.BattleMover | src/game/core/GameEngine.ts:247-263 | in a battle the mover is eliminated exactly when listed, and otherwise takes `to` and learns it |
| EngineModel.RecordedBattle | src/game/core/GameEngine.ts:237-272 | the recorded battle details show the fighters as the move left them: every fighter the battle eliminated is listed as Eliminated with no position and nothing else is listed, the winner is listed by its final entry, and a surviving attacker is listed on `to` |
| EngineModel.SettleShowsFinal | src/game/core/GameEngine.ts:237-244 | details that hold the fighters themselves list exactly the eliminated fighters, each as it ends, and name the winner as it ends |
| EngineModel.BattleDefender | src/game/core/GameEngine.ts:241-256 | in a battle the defender is eliminated exactly when listed and untouched otherwise; the target is empty when both fall and keeps the defender when only the mover falls |
| EngineModel.CapturedFlagStaysActive | src/game/core/GameEngine.ts:237-263 | a captured flag's entry is left Active with its old position while the attacker takes its cell |
| EngineModel.ExecuteMoveKeepsPlaced | src/game/core/GameEngine.ts:232-281 | a move keeps every board reference naming an Active entry that records that cell as its position |
| EngineModel.ActivePieces | src/game/core/GameEngine.ts:290 | the filtered roster holds exactly the Active pieces of the roster |
| EngineModel.ActiveFlagOfActivePieces | src/game/core/GameRules.ts:268-271 | the first Active flag of the filtered roster is the first Active flag of the roster |
| EngineModel.DefeatIgnoresInactive | src/game/core/GameEngine.ts:287-303 | filtering a roster to its Active pieces does not change whether the player is defeated |
| EngineModel.ColorIndex | src/game/core/GameEngine.ts:317 | the index of a color in the turn order names that color |
| EngineModel.OrderIndex | src/game/core/GameEngine.ts:317 | the index of the `i`-th color of the turn order is `i` |
| EngineModel.DefeatPassEffect | src/game/core/GameEngine.ts:294-300 | the defeat loop over the first `n` colors changes only the players, and only those `n` of them, each marked as the defeat test says |
| EngineModel.CheckGameEndEffect | src/game/core/GameEngine.ts:286-310 | the check keeps board, turn, history and rosters; a player becomes not alive exactly when it was alive with a defeated roster, stamped with the turn number; the game finishes exactly when an alliance wins |
| EngineModel.CheckGameEnd | src/game/core/GameEngine.ts:286-310 | the check keeps board, turn, history and rosters, and the game is finished afterwards exactly when it was or an alliance has won |
| EngineModel.VictoryMeansEnemiesDefeated | src/game/core/GameEngine.ts:294-306 | when an alliance wins, every enemy player has been marked not alive |
| EngineModel.FirstAliveAfter | src/game/core/GameEngine.ts:320-329 | the offset found holds an alive player and every smaller offset does not; none is found only when no offset up to four holds one |
| EngineModel.Gap | src/game/core/GameEngine.ts:320-329 | the gap from one color to another is between 1 and 4 and counting it on from the first reaches the second |
| EngineModel.AliveFoundAfter | src/game/core/GameEngine.ts:320-329 | when anyone is alive, the do-while finds an alive player within four places |
| EngineModel.NextTurn | src/game/core/GameEngine.ts:315-338 | only the turn changes, the clock is reset to 30, and whenever anyone is alive the new current player is alive |
| EngineModel.GapOfOffset | src/game/core/GameEngine.ts:320-329 | counting `g` places on and measuring back gives `g` |
| EngineModel.NextTurnResetsClock | src/game/core/GameEngine.ts:315-338 | only the turn changes: the clock is back at 30, the turn number grows exactly when the turn comes to Red, and with nobody alive the current player stays |
| EngineModel.NextTurnChoosesNextAlive | src/game/core/GameEngine.ts:320-329 | when anyone is alive, the new current player is alive and every player skipped over is not |
| EngineModel.TickKeepsClockInRange | src/game/core/GameEngine.ts:346-353 | the clock stays between 1 and 30, a tick only counts down unless one second was left, and the turn passes only then |
| EngineModel.Tick | src/game/core/GameEngine.ts:346-353 | a tick touches only the turn and the clock, and the current player stays while more than one second is left |
| EngineModel.AcceptedMoveReady | src/game/core/GameEngine.ts:198-216 | a move that passes the three checks satisfies what executing it needs |
| EngineModel.MakeMoveAccepted | src/game/core/GameEngine.ts:198-227 | an accepted move is executed and then concluded |
| EngineModel.MakeMoveRefusals | src/game/core/GameEngine.ts:198-213 | a move is refused exactly when it is not accepted, with the error of the first failing check: no piece, not the current player's, or the validator's reason |
| EngineModel.MakeMove | src/game/core/GameEngine.ts:198-227 | a move succeeds exactly when it is accepted, and its record names the current player, `from` and `to` |
| EngineModel.MakeMoveRecordsOnce | src/game/core/GameEngine.ts:198-227 | an accepted move appends exactly one record, by the current player in the current turn, and keeps the game id |
| EngineModel.ExecutedRecord | src/game/core/GameEngine.ts:216 | the execution step appends its record and keeps the game id, the phase and the turn |
| EngineModel.ConcludeRecord | src/game/core/GameEngine.ts:218-224 | concluding keeps the history and the game id |
| EngineModel.ConcludeOutcome | src/game/core/GameEngine.ts:218-224 | a winning alliance finishes the game without passing the turn; otherwise a game in play passes the turn and another phase stays |
| EngineModel.MakeMoveAfterExecute | src/game/core/GameEngine.ts:218-224 | after execution, a move changes the board no further and the players only by the end-of-game check |
| EngineModel.ConcludeKeepsBoard | src/game/core/GameEngine.ts:218-224 | concluding keeps the board, and the players are those of the end-of-game check |
| EngineModel.MakeMoveAliveMonotone | src/game/core/GameEngine.ts:198-227 | players only die: a player alive after a move was alive before, and one who dies is defeated and stamped with the move's turn |
| EngineModel.PlayerFlagsKept | src/game/core/GameEngine.ts:232-281 | executing a move changes no player field but the roster |
| EngineModel.EliminationsTouchPiecesOnly | src/game/core/GameEngine.ts:241-255 | taking casualties off changes no player field but the roster |
| EngineModel.AdvanceTouchesPiecesOnly | src/game/core/GameEngine.ts:259-263 | advancing changes no player field but the roster |
| EngineModel.MakeMoveEndsOrPasses | src/game/core/GameEngine.ts:216-224 | a move that wins finishes the game with the winning alliance and keeps the turn; otherwise a game in play passes the turn |
| EngineModel.MakeMoveKeepsPlaced | src/game/core/GameEngine.ts:198-227 | accepted moves keep the board and the rosters in agreement |
| EngineModel.ConcludeKeepsPlaced | src/game/core/GameEngine.ts:218-224 | concluding keeps the board and the rosters in agreement |
| Setup.EmptyBoard | src/game/core/GameEngine.ts:84-86 | the new board is 17 by 17 |
| Setup.InitialState | src/game/core/GameEngine.ts:83-118 | a new game is in setup on an empty 17 by 17 board under the given id, Red to move in turn 1 with 30 seconds, with no history and no winner |
| Setup.InitialStateFacts | src/game/core/GameEngine.ts:83-118 | a new game is in setup with an empty 17 by 17 board and four alive players without pieces, only Red human, Red to move in turn 1 with 30 seconds, no history and no winner |
| Setup.RostersUpTo | src/game/core/GameEngine.ts:130-133 | handing out rosters changes no field but the players, and keeps the set of players |
| Setup.RostersUpToEffect | src/game/core/GameEngine.ts:130-133 | after the first `n` colors, exactly those players hold their standard roster and the others are unchanged |
| Setup.RostersUpToAt | src/game/core/GameEngine.ts:130-133 | the same, for one color |
| Setup.InitializePiecesEffect | src/game/core/GameEngine.ts:130-136 | every player then holds exactly the 25 standard pieces of its color, and nothing else changes |
| Setup.AreaCellsDistinct | src/game/core/GameEngine.ts:165-170 | the 25 cells of an area are on the board and distinct, and no two areas share a cell |
| Setup.PlaceUpTo | src/game/core/GameEngine.ts:179-188 | placing part of a shuffled roster keeps the board square, the rosters' shape, and every field but board and players |
| Setup.DeployUpTo | src/game/core/GameEngine.ts:172-189 | deploying the first `n` players keeps the board square, the rosters' shape, and every field but board and players |
| Setup.Place | src/game/core/GameEngine.ts:184-185 | one placement makes the cell refer to the piece and the piece know the cell, and changes nothing else |
| Setup.PlaceUpToStep | src/game/core/GameEngine.ts:179-188 | the `j`-th placement puts the `j`-th shuffled piece on the `j`-th area cell |
| Setup.PlaceUpToKeepsCell | src/game/core/GameEngine.ts:179-188 | placements write no cell but their own area cells |
| Setup.PlaceUpToKeepsPiece | src/game/core/GameEngine.ts:179-188 | placements change no roster entry but the pieces placed |
| Setup.PlaceUpToPuts | src/game/core/GameEngine.ts:179-188 | once placed, the `i`-th shuffled piece stays on the `i`-th area cell, which refers to it |
| Setup.InAreaIffCell | src/game/core/GameEngine.ts:165-170 | the area cells are exactly the cells of the 5 by 5 area, numbered row by row, and no cell is in two areas |
| Setup.AreaCellInArea | src/game/core/GameEngine.ts:180-182 | the `j`-th area cell lies in the area |
| Setup.AreaCellNumber | src/game/core/GameEngine.ts:180-182 | a cell of the area is the area cell with its row-major number |
| Setup.PlaceAllEffect | src/game/core/GameEngine.ts:179-188 | placing a whole 25-piece shuffle fills the area and changes nothing outside it or in other rosters |
| Setup.AreaFilledKept | src/game/core/GameEngine.ts:172-189 | a filled area stays filled while later steps leave its cells and roster alone |
| Setup.DeployStep | src/game/core/GameEngine.ts:172-189 | the `n`-th player's turn fills its area and changes no other cell or roster |
| Setup.DeployKeepsLaterRosters | src/game/core/GameEngine.ts:172-189 | deploying the first `n` players leaves the rosters of later players alone |
| Setup.DeployKeepsOtherCells | src/game/core/GameEngine.ts:172-189 | deploying the first `n` players leaves every cell outside their areas alone |
| Setup.DeployStepKeepsCell | src/game/core/GameEngine.ts:172-189 | one player's turn leaves a cell outside the areas alone |
| Setup.DeployFillsAreas | src/game/core/GameEngine.ts:172-189 | after the first `n` players, each of their areas is filled with its shuffle |
| Setup.AreaFilledAtTurn | src/game/core/GameEngine.ts:172-189 | the `n`-th player's turn fills its area from its untouched roster |
| Setup.AreaFilledRebased | src/game/core/GameEngine.ts:172-189 | a filled area stays filled relative to an earlier state with the same roster |
| Setup.AreaFilledLater | src/game/core/GameEngine.ts:172-189 | an area filled before a turn stays filled through it |
| Setup.TurnKeepsOtherArea | src/game/core/GameEngine.ts:172-189 | one player's turn leaves another player's area and roster alone |
| Setup.DeployLeavesRestEmpty | src/game/core/GameEngine.ts:163-193 | deployed onto an empty board, only the areas hold pieces |
| Setup.DeployPlaced | src/game/core/GameEngine.ts:163-193 | deployed onto an empty board, board and rosters agree |
| Setup.AutoDeployEffect | src/game/core/GameEngine.ts:163-193 | each shuffled roster fills its area in shuffle order, every other cell stays empty, board and rosters agree, and the game is in play |
| Setup.AutoDeploy | src/game/core/GameEngine.ts:163-193 | deployment changes only the board, the rosters and the phase, which becomes in play, and keeps the board 17 by 17 |
| Engine.MovableInMembers | src/game/core/GameEngine.ts:398-402 | a piece is reported exactly when it is in the roster, Active, placed and has a possible move |
| Engine.MovableInOrder | src/game/core/GameEngine.ts:398-402 | the report of a roster is the report of any prefix followed by that of the rest, so roster order is kept |
| Engine.KindBlockNext | src/game/core/GameEngine.ts:146-154 | the next piece of a kind block is the factory piece with the next `color_type_i` id |
| Engine.GameEngine.constructor | src/game/core/GameEngine.ts:76-78 | a new engine holds the state of a fresh game under the given non-empty id or else the generated one |
| Engine.GameEngine.CreatePlayerPieces | src/game/core/GameEngine.ts:141-158 | the loops build exactly the standard roster of the color, 25 pieces |
| Engine.GameEngine.PushKind | src/game/core/GameEngine.ts:146-154 | the inner loop appends exactly the kind block of the color |
| Engine.GameEngine.InitializePieces | src/game/core/GameEngine.ts:130-136 | the state becomes the one in which every player holds its standard roster |
| Engine.GameEngine.AutoDeployPieces | src/game/core/GameEngine.ts:163-193 | the state becomes the deployment of every shuffled roster onto its area, in play |
| Engine.GameEngine.MakeMove | src/game/core/GameEngine.ts:198-227 | a refused move changes nothing and returns the model's error; an accepted one leaves the model's state and returns its record |
| Engine.GameEngine.ExecuteMoveOnBoard | src/game/core/GameEngine.ts:232-281 | the in-place updates leave exactly the state and record of the execution step, the battle details showing the fighters as the move left them |
| Engine.GameEngine.CheckGameEnd | src/game/core/GameEngine.ts:286-310 | the in-place updates leave exactly the state of the end-of-game check |
| Engine.GameEngine.DefeatStep | src/game/core/GameEngine.ts:294-300 | one turn of the defeat loop extends the defeat pass by one player |
| Engine.GameEngine.NextTurn | src/game/core/GameEngine.ts:315-338 | the do-while loop leaves exactly the state of the turn change |
| Engine.GameEngine.Tick | src/game/core/GameEngine.ts:346-353 | one timer tick leaves exactly the state of the countdown step |
| Engine.GameEngine.GetPlayerPieces | src/game/core/GameEngine.ts:376-379 | a player's roster, or nothing for a color without a player |
| Engine.GameEngine.GetPieceAtPosition | src/game/core/GameEngine.ts:384-389 | nothing off the board; on the board, the piece the rules see there, which on an agreeing board is Active and knows the cell |
| Engine.GameEngine.GetCurrentPlayerMovablePieces | src/game/core/GameEngine.ts:394-403 | the loop returns the current player's pieces that are Active, placed and movable, in roster order |
| Engine.GameEngine.Destroy | src/game/core/GameEngine.ts:408-411 | the game is finished and nothing else changes |
| Persistence.Serialize | src/game/core/GameState.ts:50-88 | the serialized board has the board's shape, with the occupant's id on every occupied cell and nothing on every empty one |
| Persistence.CellOf | src/game/core/GameState.ts:104 | an id turns back into a piece exactly when it is present, non-empty and known to the id map |
| Persistence.Deserialize | src/game/core/GameState.ts:93-131 | the rebuilt board has the serialized board's shape, and every cell is the id map's answer for its id (serialized players of one colour each: see Left out) |
| Persistence.RosterIdsKeys | src/game/core/GameState.ts:96-100 | a roster's id map knows exactly the ids of its pieces |
| Persistence.RosterIdsAt | src/game/core/GameState.ts:96-100 | a piece whose id no later piece repeats is mapped to its own slot |
| Persistence.SerializedPlayersStep | src/game/core/GameState.ts:65-75 | the serialized list holds the players in the order Red, Green, Blue, Yellow, one entry per existing color (see Left out) |
| Persistence.SerializedMapsStep | src/game/core/GameState.ts:96-118 | adding a color's serialized player extends the id map by its roster and the player map by the player |
| Persistence.IdMapKeys | src/game/core/GameState.ts:96-100 | the id map of the first `n` colors knows only ids of their pieces |
| Persistence.IdMapKeysStep | src/game/core/GameState.ts:96-100 | adding a color's roster adds only the ids of its pieces |
| Persistence.SameIdSameSlot | src/game/core/GameState.ts:96-100 | with unique ids, two entries with the same id are the same entry |
| Persistence.IdMapAt | src/game/core/GameState.ts:96-105 | with unique ids, the id map sends the id of each piece of the first `n` colors back to that piece's slot |
| Persistence.IdMapAtOwn | src/game/core/GameState.ts:96-100 | the latest color's roster maps its own pieces' ids to their slots |
| Persistence.IdMapAtOther | src/game/core/GameState.ts:96-100 | another color's roster leaves a piece's id entry alone |
| Persistence.OwnRosterIds | src/game/core/GameState.ts:96-100 | with unique ids, a roster's own id map sends each id to its slot |
| Persistence.OtherRosterIds | src/game/core/GameState.ts:96-100 | with unique ids, another roster's id map does not know the piece's id |
| Persistence.PlayerMapOfSerialized | src/game/core/GameState.ts:108-118 | rebuilding the player map from the serialized players gives back exactly those players |
| Persistence.SerializeRoundTrip | src/game/core/GameState.ts:50-131 | with non-empty unique ids, players filed under their own colors and a board holding only roster pieces, deserializing the serialized game gives back the same game |
| Persistence.GameStateManager.constructor | src/game/core/GameState.ts:43-45 | a new manager has no snapshots and the cursor at -1 |
| Persistence.SnapshotLabel | src/game/core/GameState.ts:136-141 | a given description is the label; without one the label is `Turn ` followed by the turn number, never empty |
| Persistence.GameStateManager.CreateSnapshot | src/game/core/GameState.ts:136-157 | the snapshots after the cursor are dropped, the new one is appended and current, the oldest goes beyond ten, and nothing is left to redo |
| Persistence.GameStateManager.CanUndo | src/game/core/GameState.ts:162-164 | undo is possible exactly when a snapshot precedes the current one |
| Persistence.GameStateManager.CanRedo | src/game/core/GameState.ts:169-171 | redo is possible exactly when a snapshot follows the current one |
| Persistence.GameStateManager.Undo | src/game/core/GameState.ts:176-184 | without anything to undo, nothing is returned and nothing changes; otherwise the cursor steps back, the snapshot there is deserialized and returned, and a redo becomes possible (roster entries shared with the live game: see Left out) |
| Persistence.GameStateManager.Redo | src/game/core/GameState.ts:189-197 | without anything to redo, nothing is returned and nothing changes; otherwise the cursor steps forward, the snapshot there is deserialized and returned, and an undo becomes possible (roster entries shared with the live game: see Left out) |
| Persistence.GameStateManager.GetCurrentSnapshot | src/game/core/GameState.ts:202-207 | there is a current snapshot exactly when the history is non-empty, and it is the snapshot under the cursor |
| Persistence.GameStateManager.GetSnapshotInfo | src/game/core/GameState.ts:212-219 | one line per snapshot in order, with its index and label, marked current exactly at the cursor, and one line marked when the history is non-empty |
| Persistence.GameStateManager.ClearSnapshots | src/game/core/GameState.ts:224-227 | the history is empty and the cursor at -1 |
| Validation.IdSetMembers | src/game/core/GameState.ts:297-298 | the id set holds exactly the roster's ids |
| Validation.IdSetSize | src/game/core/GameState.ts:297-301 | the id set is never larger than the roster, and equally large exactly when no two pieces share an id |
| Validation.DuplicateIdsIff | src/game/core/GameState.ts:297-301 | the duplicate check fires exactly when two pieces share an id |
| Validation.OwnerErrorsEmpty | src/game/core/GameState.ts:304-308 | the owner check reports nothing exactly when every piece belongs to the player |
| Validation.PieceErrorsEmpty | src/game/core/GameState.ts:288-311 | a roster passes exactly when it has 25 pieces with distinct ids, all of the player's color |
| Validation.ValidatePlayerPieces | src/game/core/GameState.ts:288-311 | the checks report the size, duplicate and owner errors in order, and the roster is valid exactly when there are none |
| Validation.RowCells | src/game/core/GameState.ts:322 | the cells of a row are visited left to right |
| Validation.CellsFacts | src/game/core/GameState.ts:321-337 | the scan visits every cell of the board once and nothing else |
| Validation.ScanSeen | src/game/core/GameState.ts:318-335 | the ids the scan has seen are exactly those of the occupants of the visited cells |
| Validation.ScanErrors | src/game/core/GameState.ts:321-337 | the scan reports nothing exactly when every occupant knows its cell and no id repeats |
| Validation.KnownSnoc | src/game/core/GameState.ts:326-328 | one more cell keeps the cells known exactly when its occupant claims it |
| Validation.DistinctSnoc | src/game/core/GameState.ts:331-334 | one more cell keeps the ids distinct exactly when its occupant's id is unseen |
| Validation.ExpectedCellErrorsEmpty | src/game/core/GameState.ts:341-348 | a roster reports no misplaced piece exactly when every Active placed piece is found on its cell by id |
| Validation.RosterCellErrorsEmpty | src/game/core/GameState.ts:340-349 | the rosters of the first `n` colors report nothing exactly when each of their Active placed pieces is on its cell |
| Validation.ValidateBoardConsistency | src/game/core/GameState.ts:316-352 | the check reports the scan's errors, then the rosters', and the board is consistent exactly when there are none |
| Validation.ScanBoard | src/game/core/GameState.ts:321-337 | the nested loop leaves exactly the errors of the scan over all cells in order |
| Validation.ScanRow | src/game/core/GameState.ts:322-336 | one row extends the scan by that row's cells |
| Validation.ScanOne | src/game/core/GameState.ts:323-335 | one cell extends the scan by that cell |
| Validation.ScanStep | src/game/core/GameState.ts:321-337 | scanning one more cell is the cell step applied to the scan so far |
| Validation.CheckRosterCells | src/game/core/GameState.ts:340-349 | the loop reports exactly the roster errors of all players in the order Red, Green, Blue, Yellow (see Left out) |
| Validation.Tagged | src/game/core/GameState.ts:271 | tagging keeps one error per roster error |
| Validation.ValidateGameState | src/game/core/GameState.ts:238-283 | the errors are those of the id, board shape, player count, each required player and the board in that order, and the game is valid exactly when there are none |
| Validation.CheckRequiredPlayers | src/game/core/GameState.ts:263-274 | the loop reports exactly the missing-player and tagged roster errors of the four colors in order |
| Validation.RosterErrorsEmpty | src/game/core/GameState.ts:263-274 | the first `n` colors report nothing exactly when each is present with a passing roster |
| Validation.ScanEmptyIff | src/game/core/GameState.ts:321-337 | the scan reports nothing exactly when every occupant knows its cell and no id is on two cells |
| Validation.ScanEmptyPositions | src/game/core/GameState.ts:326-328 | a clean scan over every occupied cell means each occupant knows its cell |
| Validation.ScanEmptyIds | src/game/core/GameState.ts:331-334 | a clean scan over every occupied cell means no two cells hold the same id |
| Validation.RostersIff | src/game/core/GameState.ts:263-274 | the roster checks report nothing exactly when all four players are present with sound rosters |
| Validation.FourPlayers | src/game/core/GameState.ts:258-260 | with all four required players present, the player count check passes |
| Validation.ValidIffConsistent | src/game/core/GameState.ts:238-283 | the validator reports nothing exactly when the game has an id, a 17 by 17 board, four sound rosters, a sound board and every Active placed piece on its cell |
| Deployment.HeadquartersPositions | src/canvas/layers/PieceLayer.ts:192-209 | every player has exactly two headquarters cells, and they differ |
| Deployment.PlayerPositionsFacts | src/canvas/layers/PieceLayer.ts:92-159 | the deployment positions of a player are, in row-major order and on the board, exactly the cells of its wing that are not a camp, not central and not a headquarters cell |
| Deployment.DeployableCellIff | src/canvas/layers/PieceLayer.ts:98-135 | a cell is kept by the sweep over the player's region exactly when it lies in the player's wing and is not a camp, not central and not a headquarters cell |
| Deployment.LastTwoRowsFacts | src/canvas/layers/PieceLayer.ts:212-260 | the back-row cells are, in row-major order, exactly the cells of the two outermost rows (columns for red and blue) that are neither a camp nor a headquarters cell; all of them are deployment positions and on the board |
| Deployment.CampPositionsDistinct | src/canvas/layers/PieceLayer.ts:41-50 | the camp list holds twenty distinct cells |
| Deployment.IsCampPosition | src/canvas/layers/PieceLayer.ts:55-59 | a camp lies between rows and columns 2 and 14 and outside the central block |
| Deployment.CampPositionsInWings | src/canvas/layers/PieceLayer.ts:41-50 | the five camps of each player lie in that player's wing |
| Deployment.CampPositionsOffCentre | src/canvas/layers/PieceLayer.ts:41-89 | no camp is a central cell or a headquarters cell of any player |
| Deployment.InsertByDistance | src/canvas/layers/PieceLayer.ts:263-268 | inserting a cell into a sorted list adds exactly that cell (as a multiset) |
| Deployment.SortByDistance | src/canvas/layers/PieceLayer.ts:263-268 | the sort is a permutation of its input |
| Deployment.SortedMembers | src/canvas/layers/PieceLayer.ts:263-268 | the sort keeps exactly the cells it is given |
| Deployment.InsertAscending | src/canvas/layers/PieceLayer.ts:263-268 | inserting into a list ascending by distance to the centre keeps it ascending |
| Deployment.InsertMembers | src/canvas/layers/PieceLayer.ts:263-268 | insertion adds no cell other than the one inserted |
| Deployment.SortByDistanceFacts | src/canvas/layers/PieceLayer.ts:263-268 | the sort orders cells by ascending Manhattan distance to (8, 8) and keeps the input order among cells at equal distance (stable) |
| Deployment.StableSortUnique | src/canvas/layers/PieceLayer.ts:263-268 | two orderings that both ascend by distance and agree on every equal-distance band are equal, so any stable sort, the built-in one included, gives the same order |
| Deployment.GroupIndices | src/canvas/layers/PieceLayer.ts:271-276 | each filter yields roster indices |
| Deployment.GroupIndicesFacts | src/canvas/layers/PieceLayer.ts:271-276 | a filter keeps exactly the roster entries of its group, each once, in roster order |
| Deployment.GroupMembership | src/canvas/layers/PieceLayer.ts:271-276 | an index is in a filter's result exactly when it is a roster index whose type passes the filter |
| Deployment.GroupDistinct | src/canvas/layers/PieceLayer.ts:271-276 | a filter lists no entry twice |
| Deployment.GroupsDisjoint | src/canvas/layers/PieceLayer.ts:271-276 | with three different names, the flags, the mines and the normal pieces plus bombs are disjoint |
| Deployment.RestFacts | src/canvas/layers/PieceLayer.ts:271-276 | with three different names, the normal pieces followed by the bombs are distinct entries and are exactly the entries that are neither flag nor mine |
| Deployment.WrittenNamesMatchNothing | src/canvas/layers/PieceLayer.ts:271-276 | with the capitalised names compared as written, the flag, mine and bomb filters are empty and the normal filter holds the whole roster |
| Deployment.WrittenNamesMiss | src/canvas/layers/PieceLayer.ts:271-276 | no piece type equals 'Flag', 'Mine' or 'Bomb', so every type passes only the normal filter |
| Deployment.TypeValueGroups | src/canvas/layers/PieceLayer.ts:271-276 | with the type values the filters select exactly flags, mines, bombs and all other kinds |
| Deployment.GroupRun | src/canvas/layers/PieceLayer.ts:271-276 | a filter whose members form one contiguous run of the roster returns exactly that run |
| Deployment.RosterKinds | src/game/core/GameEngine.ts:141-158 | a created roster has 25 entries: nineteen officers and engineers, then two bombs, three mines and the flag |
| Deployment.RosterGroups | src/canvas/layers/PieceLayer.ts:271-276 | with the type values a created roster splits into normals 0..18, bombs 19..20, mines 21..23 and the flag 24 |
| Deployment.PlaceAll | src/canvas/layers/PieceLayer.ts:294-350 | a placement pass keeps the board 17 by 17 and every roster's length |
| Deployment.PlaceAllPieces | src/canvas/layers/PieceLayer.ts:294-350 | after a pass, each placed entry knows its cell and is otherwise unchanged, and every other roster entry is untouched |
| Deployment.PlaceAllCells | src/canvas/layers/PieceLayer.ts:294-350 | after a pass, a written cell refers to the last entry written there and every other cell is untouched |
| Deployment.PlaceAllKeepsCell | src/canvas/layers/PieceLayer.ts:294-350 | a cell outside the pass's cells is unchanged |
| Deployment.PlaceAllKeepsPiece | src/canvas/layers/PieceLayer.ts:294-350 | a roster entry outside the pass is unchanged |
| Deployment.PlaceAllSkips | src/canvas/layers/PieceLayer.ts:328-350 | entries beyond the last available cell are skipped and keep their old position |
| Deployment.PlaceAllEntry | src/canvas/layers/PieceLayer.ts:294-350 | after a whole pass, entry i knows cell i when there is one and is otherwise unchanged |
| Deployment.PlaceAllPuts | src/canvas/layers/PieceLayer.ts:294-350 | entry i learns cell i, and cell i refers to it unless a later entry of the pass is written there |
| Deployment.DeployWithRules | src/canvas/layers/PieceLayer.ts:185-366 | deploying one player keeps the board 17 by 17 and every roster's length |
| Deployment.PlaceFlags | src/canvas/layers/PieceLayer.ts:294-303 | the flag pass keeps the board shape and every roster's length |
| Deployment.PlaceMines | src/canvas/layers/PieceLayer.ts:305-319 | the mine pass keeps the board shape and every roster's length |
| Deployment.PlaceRest | src/canvas/layers/PieceLayer.ts:321-350 | the normal and bomb passes keep the board shape and every roster's length |
| Deployment.RestCells | src/canvas/layers/PieceLayer.ts:321-323 | the cells left for the normal pieces and bombs are exactly the available cells plus the back-row cells the mines did not take |
| Deployment.NormalsThenBombs | src/canvas/layers/PieceLayer.ts:327-350 | the normal pieces followed by the bombs are roster indices |
| Deployment.HeadquartersApart | src/canvas/layers/PieceLayer.ts:192-260 | no headquarters cell is a back-row cell or, when the available cells avoid the headquarters, a rest cell |
| Deployment.DeployFlagPiece | src/canvas/layers/PieceLayer.ts:294-303 | the first two flags learn the two headquarters cells; any further flag keeps its old position |
| Deployment.FlagKeptAfterFlagPass | src/canvas/layers/PieceLayer.ts:294-350 | later passes do not touch a flag, so the flag pass's effect on it is final |
| Deployment.DeployFlagCell | src/canvas/layers/PieceLayer.ts:294-303 | each of the first two flags ends up on its headquarters cell when no available cell is a headquarters cell |
| Deployment.FlagsKeep | src/canvas/layers/PieceLayer.ts:294-303 | the flag pass changes no roster entry other than the flags |
| Deployment.FlagsKeepCell | src/canvas/layers/PieceLayer.ts:294-303 | the flag pass changes no cell other than the headquarters cells |
| Deployment.MinesKeep | src/canvas/layers/PieceLayer.ts:305-319 | the mine pass changes no roster entry other than the mines |
| Deployment.MinesKeepCell | src/canvas/layers/PieceLayer.ts:305-319 | the mine pass changes no cell other than the back-row cells |
| Deployment.RestKeeps | src/canvas/layers/PieceLayer.ts:321-350 | the last passes change no roster entry other than the normal pieces and bombs |
| Deployment.RestKeepsCell | src/canvas/layers/PieceLayer.ts:321-350 | the last passes change no cell they do not write |
| Deployment.DeployMinePiece | src/canvas/layers/PieceLayer.ts:305-319 | mine j learns back-row cell j while there are back-row cells; further mines keep their old position |
| Deployment.DeployMineCell | src/canvas/layers/PieceLayer.ts:305-350 | back-row cell j refers to mine j at the end unless a normal piece or bomb is later placed there |
| Deployment.DeployRestPiece | src/canvas/layers/PieceLayer.ts:321-350 | entry k of the normal pieces followed by the bombs learns rest cell k while there are rest cells; the rest keep their old position |
| Deployment.DeployRestCell | src/canvas/layers/PieceLayer.ts:321-350 | rest cell k refers to entry k of the normal pieces followed by the bombs unless a later entry is written there |
| Deployment.DeployKeepsCell | src/canvas/layers/PieceLayer.ts:185-366 | deploying a player writes no cell outside its headquarters, its back rows and the available cells |
| Deployment.DeployKeepsOthers | src/canvas/layers/PieceLayer.ts:185-366 | deploying a player leaves every other player's roster as it was |
| Deployment.WrittenKeepsHeadquarters | src/canvas/layers/PieceLayer.ts:271-303 | with the names as written, deploying a player never writes its headquarters cells |
| Deployment.WingInArea | src/canvas/layers/PieceLayer.ts:118-135 | every cell a deployment may write lies in the player's wing |
| Deployment.WingsApart | src/canvas/layers/PieceLayer.ts:118-135 | the four wings do not overlap |
| Deployment.DeploymentPositionsOnBoard | src/canvas/layers/PieceLayer.ts:92-115 | a player's deployment positions are on the board and are not its headquarters cells |
| Deployment.DeployPlayers | src/canvas/layers/PieceLayer.ts:161-177 | deploying the players in turn keeps the board shape and every roster's length |
| Deployment.DeployFixed | src/canvas/layers/PieceLayer.ts:64-180 | the fixed deployment keeps the board shape and every roster's length |
| Deployment.DeployPlayersKeepsCell | src/canvas/layers/PieceLayer.ts:161-177 | deploying a run of players writes no cell outside their wings |
| Deployment.DeployPlayersKeepsPiece | src/canvas/layers/PieceLayer.ts:161-177 | deploying a run of players leaves the rosters of all other players as they were |
| Deployment.RosterAtTurn | src/canvas/layers/PieceLayer.ts:161-177 | when its turn comes a player still holds the roster it started with |
| Deployment.LaterWings | src/canvas/layers/PieceLayer.ts:118-135 | a cell of one player's wing is in no other player's wing, earlier or later in the order |
| Deployment.FixedFlagOnHeadquarters | src/canvas/layers/PieceLayer.ts:280-303 | with the type values, after the fixed deployment of a new game every player's flag (entry 24) sits on its first headquarters cell, and that cell refers to it |
| Deployment.WrittenHeadquartersLeftEmpty | src/canvas/layers/PieceLayer.ts:271-303 | with the names as written, after the fixed deployment of a new game both headquarters cells of every player are empty |
| Deployment.WrittenHeadquartersEmpty | src/canvas/layers/PieceLayer.ts:271-303 | with the names as written, a headquarters cell that was empty before the fixed deployment stays empty |
| PieceLayers.PieceLayer.constructor | src/canvas/layers/PieceLayer.ts:23-36 | a new layer holds a new engine whose state is a fresh game with rosters, deployed with the fixed scheme comparing types with 'Flag', 'Mine' and 'Bomb' as written, so that every headquarters cell stays empty |
| PieceLayers.PieceLayer.DeployPiecesFixed | src/canvas/layers/PieceLayer.ts:64-180 | the loop over the players leaves the engine in the state of the fixed deployment |
| PieceLayers.PieceLayer.PlacePiece | src/canvas/layers/PieceLayer.ts:296-298 | one placement writes the piece's position and then its board cell |
| PieceLayers.PieceLayer.DeployPiecesWithRules | src/canvas/layers/PieceLayer.ts:185-366 | the three steps leave the engine in the state of the per-player deployment |
| PieceLayers.PieceLayer.PlaceFlagPieces | src/canvas/layers/PieceLayer.ts:294-303 | the flag loop ends in the state of the flag pass |
| PieceLayers.PieceLayer.PlaceFlag | src/canvas/layers/PieceLayer.ts:294-303 | one turn of the flag loop places flag index on headquarters cell index when there is one |
| PieceLayers.PieceLayer.PlaceMinePieces | src/canvas/layers/PieceLayer.ts:305-319 | the mine loop ends in the state of the mine pass, with mineIndex the number of back-row cells used |
| PieceLayers.PieceLayer.PlaceRestPieces | src/canvas/layers/PieceLayer.ts:321-350 | the normal and bomb loops end in the state of the last passes |
| PieceLayers.PieceLayer.PlaceRestOn | src/canvas/layers/PieceLayer.ts:327-350 | the two loops sharing positionIndex place the normal pieces followed by the bombs as one pass |
| PieceLayers.PieceLayer.PlaceRun | src/canvas/layers/PieceLayer.ts:309-350 | a loop over a run of entries advances the pass over that run and ends with the index at the number of cells used |
| PieceLayers.PieceLayer.PlaceNext | src/canvas/layers/PieceLayer.ts:328-335 | one turn places the entry on the next cell when one is left and advances the index, otherwise changes nothing |
| DirtyRects.ContainsTransitive | src/canvas/core/DirtyRectManager.ts:81-93 | covering is transitive, which is what lets a grown rectangle keep covering what it absorbed |
| DirtyRects.OverlapSymmetric | src/canvas/core/DirtyRectManager.ts:62-69 | overlap (touching included) does not depend on the order of the two rectangles |
| DirtyRects.MergeRects | src/canvas/core/DirtyRectManager.ts:81-93 | the merged rectangle covers both inputs and is covered by every rectangle that covers both: it is the bounding box |
| DirtyRects.MergeCommutative | src/canvas/core/DirtyRectManager.ts:81-93 | the bounding box does not depend on the order of the two rectangles |
| DirtyRects.CanMergeItself | src/canvas/core/DirtyRectManager.ts:71-93 | a rectangle of non-negative size merged with itself is itself, and the area test accepts it |
| DirtyRects.FindOverlap | src/canvas/core/DirtyRectManager.ts:8-10 | the search returns -1 exactly when no stored rectangle overlaps, and otherwise the first index that does |
| DirtyRects.MarkedCovers | src/canvas/core/DirtyRectManager.ts:6-20 | marking keeps the count when the rectangle overlaps a stored one and adds one otherwise; afterwards the new rectangle and every old one are covered by a stored rectangle |
| DirtyRects.DirtyRectManager.constructor | src/canvas/core/DirtyRectManager.ts:4 | a new manager holds no rectangles |
| DirtyRects.DirtyRectManager.MarkDirty | src/canvas/core/DirtyRectManager.ts:6-20 | the stored list becomes the marked list: the first overlapping rectangle grows to the bounding box, or the rectangle is appended |
| DirtyRects.DirtyRectManager.GetDirtyRects | src/canvas/core/DirtyRectManager.ts:22-24 | returns the stored list and changes nothing |
| DirtyRects.DirtyRectManager.Clear | src/canvas/core/DirtyRectManager.ts:26-28 | the stored list becomes empty |
| DirtyRects.DirtyRectManager.Merge | src/canvas/core/DirtyRectManager.ts:30-60 | the result is MergePass of the stored list: each unprocessed rectangle in order starts a box that absorbs every later unprocessed rectangle CanMerge accepts against the running box; it is no longer than the list, covers every stored rectangle, and each of its rectangles covers a stored one |
| DirtyRects.GrowBox | src/canvas/core/DirtyRectManager.ts:39-56 | the inner loop ends with the box and processed set Absorb gives |
| DirtyRects.AbsorbFacts | src/canvas/core/DirtyRectManager.ts:43-54 | the final box covers its start and every rectangle it marked processed, all of them later in the list |
| DirtyRects.MergeFromFacts | src/canvas/core/DirtyRectManager.ts:39-57 | the boxes emitted from an index on are no more than the rectangles from there, cover each unprocessed one and each cover one of them |
| DirtyRects.MergePassFacts | src/canvas/core/DirtyRectManager.ts:30-60 | the merge of an empty list is empty, no longer than the list, covers every stored rectangle, and each box covers a stored one |
| DirtyRects.MergePassPair | src/canvas/core/DirtyRectManager.ts:30-60 | two stored rectangles become their bounding box exactly when CanMerge accepts them, and stay apart otherwise |
| BoardLayout.FinalDimensions | src/services/boardDataService.ts:15-22 | a given row or column count wins over the default 17, a missing one takes it |
| BoardLayout.OutsideCrossEmpty | src/services/boardDataService.ts:43-142 | on the built board every cell in the four corners outside the cross stays empty |
| BoardLayout.CampsInWings | src/services/boardDataService.ts:62-142 | every camp cell lies in the wing of its own colour, outside the central block, and is not an entrance |
| BoardLayout.CampsAgreeWithDeployment | src/services/boardDataService.ts:124-133 | the cells the board marks as camps are exactly the twenty camp cells the deployment keeps free |
| BoardLayout.CampOfGroups | src/services/boardDataService.ts:135-141 | the camp type a cell ends with is that of the last group listing it |
| BoardLayout.WingCells | src/services/boardDataService.ts:62-142 | a wing cell that is neither camp nor entrance has its wing's player type, and an entrance stays an entrance |
| BoardLayout.GenerateCells | src/services/boardDataService.ts:43-60 | a fresh rows by cols grid of empty cells, each knowing its coordinates, without railway and without connections |
| BoardLayout.FillRegion | src/services/boardDataService.ts:64-68 | one nested loop retypes exactly the cells of its rectangle and leaves every other cell as it was |
| BoardLayout.SetupPlayerAreas | src/services/boardDataService.ts:62-93 | the four wings get their player types and the central block its lane types; every other cell keeps its type, and coordinates and flags are kept |
| BoardLayout.SetupCentralArea | src/services/boardDataService.ts:95-106 | in the central block rows and columns 7 and 9 become empty and the other cells normal; cells outside it are unchanged |
| BoardLayout.SetupSpecialPositions | src/services/boardDataService.ts:108-142 | every entrance on the grid becomes an entrance and every camp its group's type, camps winning over entrances; all other cells are unchanged |
| BoardLayout.SetupEntrances | src/services/boardDataService.ts:117-121 | exactly the listed entrance cells that lie on the grid become entrances |
| BoardLayout.SetupCampGroup | src/services/boardDataService.ts:136-140 | exactly the listed cells of one group that lie on the grid take the group's type |
| BoardLayout.CampOrEntranceNext | src/services/boardDataService.ts:135-141 | writing one more camp group changes only the cells it lists |
| BoardLayout.BoardDataService.constructor | src/services/boardDataService.ts:5 | a new service has an empty cache |
| BoardLayout.BoardDataService.CreateBoardData | src/services/boardDataService.ts:14-41 | a cached board with equal dimensions is returned as is; otherwise a fresh grid laid out cell by cell as the layout says is built, cached and returned; a grid smaller than 17 by 17 fails and leaves the cache alone |
| BoardLayout.BoardDataService.ClearCache | src/services/boardDataService.ts:144-146 | the cache becomes empty |

## Left out

- Rendering, the UI, the connection geometry and the drawing half of the piece layer: they are not part of this model.
- `calculateMoveValue` (src/game/core/MoveValidator.ts:323-344) is not modelled: it is floating-point scoring that nothing in the engine reads.
- Turn timer: `setInterval` is replaced by `Engine.GameEngine.Tick`, one second of the countdown, which the caller drives. `stopTurnTimer` only cancels that interval, so it has no counterpart; `destroy` keeps only its phase change.
- Clock and randomness: the game id (`Date.now`, `Math.random`), the default id of `createPiece` and the shuffle of `autoDeployPieces` are parameters. Move-record ids, record and snapshot timestamps, `lastUpdated` and `createdAt` are not modelled.
- Logging: `console` output is left out. `bombsPlaced` in the deployment only feeds that logging and has no counterpart.
- `repairGameState` (src/game/core/GameState.ts:357-368) is not modelled: it returns an unchanged deep copy and reports no change.
- Persistence.GameStateManager.CreateSnapshot, Persistence.GameStateManager.Undo, Persistence.GameStateManager.Redo: `serializeGameState` and `deserializeGameState` copy each roster shallowly (src/game/core/GameState.ts:72, :115), so a snapshot's roster entries are the live piece objects. Later moves change their status and position, and what `undo` or `redo` returns shows those changes, while the snapshot's board still holds the old ids. The model keeps each snapshot as a frozen value and does not capture that sharing.
- Persistence.Deserialize: when two serialized players share a colour, the source's board keeps piece objects of the earlier player that no roster holds any more (src/game/core/GameState.ts:95-118). The model's board can only refer to roster entries, so such an id reads as the entry with the same slot in the surviving roster, or as no piece. `Persistence.SerializeRoundTrip` covers serialized games, whose players have distinct colours.
- Persistence.SerializedPlayersStep, Validation.CheckRosterCells, Persistence.Serialize, Validation.ValidateBoardConsistency: the model's players are an unordered map from colour to player, and these members walk it in the order Red, Green, Blue, Yellow. The source walks its `Map` in insertion order (src/game/core/GameState.ts:66, :340-349). Games the engine creates insert Red, Green, Blue, Yellow (src/game/core/GameEngine.ts:91-101), so for them the orders agree. `deserializeGameState` inserts the players in the order of the serialized list (src/game/core/GameState.ts:109-110), so a deserialized list in another order changes the order of the serialized players and of the roster errors in the source but not in the model.
- Deployment.PlayerPositions, Deployment.LastTwoRows: these carry no contract of their own. What they yield is stated by `Deployment.PlayerPositionsFacts` and `Deployment.LastTwoRowsFacts`.
- Rules.PossibleMovesComplete: completeness for the engineer is stated for rectangular boards, which the engine's 17 by 17 board is. On a ragged board the scan's limit and bounds test read the first row only and can miss moves.
- EngineModel.ExecuteMove, EngineModel.Settle, EngineModel.RecordedBattle, Engine.GameEngine.ExecuteMoveOnBoard: the battle details of a record hold the fighters as the move left them, and the record's `piece` is the copy the source takes. The source's details hold the live piece objects (src/game/core/GameEngine.ts:238, :272), so a later move or elimination of a surviving fighter shows through in every older record that names it. The model's records are values and keep the fighters as each move left them.
- `getGameState` returns the state value. The aliasing of its shallow copy, through which a caller could mutate the engine's board and rosters, is not modelled.
- Moves.FindPathAStar: when the search finds no path, the source falls back to the straight walk. Between cells that share no row, column or diagonal, that walk steps past the target and never stops. The model returns `None` in that case and the straight walk otherwise.
- `positionToString` is not modelled: the closed set of the A* search is a set of positions.
- `validateGameState`'s check for an unknown phase (src/game/core/GameState.ts:246-248) cannot fail: the phase is a datatype.
- Error messages are enumerated reasons instead of strings. A `throw` from a missing board row becomes an error result.
- `BoardDataService.getInstance` is not modelled: the singleton is an ordinary object here.
- `createBoardData` compares the cached dimensions with `JSON.stringify`. The model compares fields. A caller-supplied field that is present but `undefined` is treated as missing.
- BoardLayout.BoardDataService.CreateBoardData: for a grid smaller than 17×17 the source throws a TypeError part-way through writing a grid that nothing else holds yet. The model returns `CellMissing` instead of the exception. In both, the cache is left as it was.
- Numbers: the source's floating-point numbers are unbounded integers here. Turn numbers, counters and rectangle coordinates never reach a range where that matters.
- `canMerge`'s factor 1.5 is written over integers as `2 * merged <= 3 * sum`, which is exact.

## Findings

| source | as written | input that shows it | evidently intended | confidence | as-written member | corrected member |
|---|---|---|---|---|---|---|
| src/canvas/layers/PieceLayer.ts:271-276 | the roster is filtered by comparing each type with 'Flag', 'Mine' and 'Bomb', but the type values are 'flag', 'mine' and 'bomb', so no piece is a flag, mine or bomb; all 25 go to the ordinary cells, and the headquarters stay empty | the fixed deployment of any new game (every roster) | compare with the lower-case type values, so the flag goes to a headquarters cell and the mines to the back rows | not executed | Deployment.WrittenNamesMatchNothing, Deployment.WrittenHeadquartersLeftEmpty | Deployment.FixedFlagOnHeadquarters |

Even with the lower-case names, the normal pieces do not all land on free cells. Their cell list is the sorted deployment positions followed by the unused back-row cells, and the sorted positions already contain the back-row cells the mines took. Within the first 21 cells of that list lie two of red's three mine cells, one of green's, two of blue's and all three of yellow's. A normal piece or a bomb is written over each of them. `Deployment.DeployMineCell` states that a mine keeps its cell only unless the rest pass overwrites it.
