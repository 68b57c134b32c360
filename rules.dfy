/** The rules evaluator: alliances, battle resolution, move legality, path
    clearance, defeat and victory, and the generation of possible moves. Every
    operation reads a board of piece values; the engine passes it the view of
    its own board. */
module Rules {
  import opened Common
  import opened Pieces

  /** A grid of optional pieces, indexed `board[row][col]`. */
  type Board = seq<seq<Option<Piece>>>

  datatype Alliance = Ally | Enemy

  datatype Outcome = AttackerWins | DefenderWins | BothEliminated | EngineerDefuseMine

  /** The record a battle produces; `winner == None` stands for the absent field. */
  datatype Battle = Battle(
    attacker: Piece,
    defender: Piece,
    result: Outcome,
    winner: Option<Piece>,
    eliminated: seq<Piece>)

  /** The one reason `resolveBattle` throws. */
  datatype BattleError = AlliesCannotFight

  /** Why a move is refused, one constructor per refusal of `canMovePiece`, in the order they are tested. */
  datatype MoveError = CannotMove | OutOfBounds | AlliedTarget | TooFar | NotOrthogonal | PathBlocked

  datatype MoveCheck = Valid | Invalid(reason: MoveError)

  // ---------------------------------------------------------------- alliances

  /** Which pair of opposite seats a color plays in: Red with Blue, Yellow with Green. */
  function Team(c: Color): nat {
    if c == Red || c == Blue then 0 else 1
  }

  /** Allies are the colors of one seat pair. */
  function AllianceOf(c1: Color, c2: Color): (a: Alliance)
    ensures a == Ally <==> Team(c1) == Team(c2)
  {
    var redBlue := {Red, Blue};
    var yellowGreen := {Yellow, Green};
    if (c1 in redBlue && c2 in redBlue) || (c1 in yellowGreen && c2 in yellowGreen) then Ally else Enemy
  }

  /** The alliance relation is symmetric and reflexive, and every color has exactly one ally besides itself. */
  lemma AllianceIsPairing(c1: Color, c2: Color)
    ensures AllianceOf(c1, c2) == AllianceOf(c2, c1)
    ensures AllianceOf(c1, c1) == Ally
    ensures AllianceOf(c1, c2) == Ally <==> c1 == c2 || {c1, c2} == {Red, Blue} || {c1, c2} == {Yellow, Green}
  {
    if {c1, c2} == {Red, Blue} {
      assert c1 in {Red, Blue} && c2 in {Red, Blue};
    }
    if {c1, c2} == {Yellow, Green} {
      assert c1 in {Yellow, Green} && c2 in {Yellow, Green};
    }
    if c1 != c2 && AllianceOf(c1, c2) == Ally {
      if Team(c1) == 0 {
        assert {c1, c2} == {Red, Blue};
      } else {
        assert {c1, c2} == {Yellow, Green};
      }
    }
  }

  // ---------------------------------------------------------------- battles

  /** Resolves an attack of `attacker` on `defender` by the ordered special rules, then by rank. */
  function ResolveBattle(attacker: Piece, defender: Piece): (r: Result<Battle, BattleError>)
    ensures r.Err? <==> AllianceOf(attacker.owner, defender.owner) == Ally
    ensures r.Ok? ==> r.value.attacker == attacker && r.value.defender == defender
    // engineers defuse mines; this is tested before every other rule
    ensures r.Ok? && attacker.kind == Engineer && defender.kind == Mine ==>
      r.value.result == EngineerDefuseMine && r.value.winner == Some(attacker) && r.value.eliminated == [defender]
    // a bomb takes any attacker with it, a commander included
    ensures r.Ok? && defender.kind == Bomb ==>
      r.value.result == BothEliminated && r.value.winner == None && r.value.eliminated == [attacker, defender]
    // a mine takes every attacker but an engineer with it
    ensures r.Ok? && defender.kind == Mine && attacker.kind != Engineer ==>
      r.value.result == BothEliminated && r.value.winner == None && r.value.eliminated == [attacker, defender]
    // a flag is captured without being eliminated
    ensures r.Ok? && defender.kind == Flag ==>
      r.value.result == AttackerWins && r.value.winner == Some(attacker) && r.value.eliminated == []
    // otherwise the higher rank wins and equal ranks trade
    ensures r.Ok? && !IsSentinel(defender.kind) ==>
      (attacker.rank > defender.rank ==>
         r.value.result == AttackerWins && r.value.winner == Some(attacker) && r.value.eliminated == [defender]) &&
      (attacker.rank < defender.rank ==>
         r.value.result == DefenderWins && r.value.winner == Some(defender) && r.value.eliminated == [attacker]) &&
      (attacker.rank == defender.rank ==>
         r.value.result == BothEliminated && r.value.winner == None && r.value.eliminated == [attacker, defender])
    // the winner survives, and only the two fighters can be eliminated
    ensures r.Ok? ==> |r.value.eliminated| <= 2
    ensures r.Ok? ==> forall e :: e in r.value.eliminated ==> e == attacker || e == defender
    ensures r.Ok? && r.value.winner.Some? ==> r.value.winner.value !in r.value.eliminated
  {
    if AllianceOf(attacker.owner, defender.owner) == Ally then Err(AlliesCannotFight)
    else if attacker.kind == Engineer && defender.kind == Mine then
      Ok(Battle(attacker, defender, EngineerDefuseMine, Some(attacker), [defender]))
    else if defender.kind == Bomb then
      Ok(Battle(attacker, defender, BothEliminated, None, [attacker, defender]))
    else if defender.kind == Mine && attacker.kind != Engineer then
      Ok(Battle(attacker, defender, BothEliminated, None, [attacker, defender]))
    else if defender.kind == Flag then
      Ok(Battle(attacker, defender, AttackerWins, Some(attacker), []))
    else if attacker.rank > defender.rank then
      Ok(Battle(attacker, defender, AttackerWins, Some(attacker), [defender]))
    else if attacker.rank < defender.rank then
      Ok(Battle(attacker, defender, DefenderWins, Some(defender), [attacker]))
    else
      Ok(Battle(attacker, defender, BothEliminated, None, [attacker, defender]))
  }

  /** Between factory-made pieces of two enemy colors, the attacker survives exactly when it
      outranks an ordinary defender, captures the flag, or is an engineer meeting a mine. */
  lemma AttackerSurvival(attacker: Piece, defender: Piece)
    requires AllianceOf(attacker.owner, defender.owner) == Enemy
    requires attacker.rank == RankOf(attacker.kind) && defender.rank == RankOf(defender.kind)
    ensures attacker !in ResolveBattle(attacker, defender).value.eliminated <==>
      defender.kind == Flag ||
      (attacker.kind == Engineer && defender.kind == Mine) ||
      (!IsSentinel(defender.kind) && RankOf(attacker.kind) > RankOf(defender.kind))
  {
    var b := ResolveBattle(attacker, defender).value;
    if !IsSentinel(defender.kind) && attacker.rank <= defender.rank {
      assert attacker in b.eliminated;
    }
  }

  // ---------------------------------------------------------------- geometry

  function Abs(x: int): nat {
    if x < 0 then -x else x
  }

  /** Manhattan distance between two cells. */
  function Distance(a: Position, b: Position): (d: nat)
    ensures d == 0 <==> a == b
  {
    Abs(a.row - b.row) + Abs(a.col - b.col)
  }

  /** One of the two coordinates differs and the other does not; a cell is not orthogonal to itself. */
  predicate IsOrthogonal(a: Position, b: Position)
    ensures IsOrthogonal(a, b) <==> a != b && (a.row == b.row || a.col == b.col)
  {
    var rowDiff := Abs(a.row - b.row);
    var colDiff := Abs(a.col - b.col);
    (rowDiff == 0 && colDiff > 0) || (rowDiff > 0 && colDiff == 0)
  }

  /** Whether `p` lies within `rows` by `cols`. */
  predicate IsValidPosition(p: Position, rows: int, cols: int) {
    0 <= p.row < rows && 0 <= p.col < cols
  }

  /** The bounds test the rules apply: row count from the board, column count from its first row. */
  predicate InBounds(p: Position, board: Board)
    requires |board| > 0
  {
    IsValidPosition(p, |board|, |board[0]|)
  }

  /** The occupant of a cell; a cell outside its row reads as empty, as an undefined entry does. */
  function At(board: Board, p: Position): (o: Option<Piece>)
    ensures o.Some? ==> 0 <= p.row < |board| && 0 <= p.col < |board[p.row]| && board[p.row][p.col] == o
  {
    if 0 <= p.row < |board| && 0 <= p.col < |board[p.row]| then board[p.row][p.col] else None
  }

  /** A cell that a railway path may cross: it exists and holds nothing. */
  predicate CellFree(board: Board, p: Position) {
    0 <= p.row < |board| && 0 <= p.col < |board[p.row]| && board[p.row][p.col].None?
  }

  predicate StrictlyBetween(x: int, a: int, b: int) {
    (a < x < b) || (b < x < a)
  }

  /** The cells strictly between two cells of one row or one column. */
  predicate Between(p: Position, from: Position, to: Position) {
    (from.row == to.row && p.row == from.row && StrictlyBetween(p.col, from.col, to.col)) ||
    (from.col == to.col && p.col == from.col && StrictlyBetween(p.row, from.row, to.row))
  }


  function Sign(x: int): int {
    if x > 0 then 1 else if x < 0 then -1 else 0
  }

  /** The cell `k` unit steps from `from` towards `to`. */
  function StepToward(from: Position, to: Position, k: int): Position {
    Position(from.row + k * Sign(to.row - from.row), from.col + k * Sign(to.col - from.col))
  }

  /** On a line, the cells strictly between the ends are exactly the intermediate unit steps. */
  lemma BetweenIsStep(from: Position, to: Position, p: Position)
    requires from.row == to.row || from.col == to.col
    ensures Between(p, from, to) <==> 0 < Distance(from, p) < Distance(from, to) && p == StepToward(from, to, Distance(from, p))
  {
  }

  /** Every unit step strictly between `from` and `to` lands on a free cell. */
  predicate PathClear(board: Board, from: Position, to: Position) {
    forall k :: 0 < k < Distance(from, to) ==> CellFree(board, StepToward(from, to, k))
  }

  /** On a line, a clear path is one whose cells strictly between the ends are all free. */
  lemma PathClearIffBetweenFree(board: Board, from: Position, to: Position)
    requires from.row == to.row || from.col == to.col
    ensures PathClear(board, from, to) <==> forall p :: Between(p, from, to) ==> CellFree(board, p)
  {
    if PathClear(board, from, to) {
      forall p | Between(p, from, to) ensures CellFree(board, p) {
        BetweenIsStep(from, to, p);
      }
    } else {
      var k :| 0 < k < Distance(from, to) && !CellFree(board, StepToward(from, to, k));
      BetweenIsStep(from, to, StepToward(from, to, k));
    }
  }

  /** Walks the cells strictly between two aligned cells and stops at the first occupied or missing one. */
  method IsPathClear(from: Position, to: Position, board: Board) returns (clear: bool)
    requires from.row == to.row || from.col == to.col
    ensures clear <==> forall p :: Between(p, from, to) ==> CellFree(board, p)
    ensures clear == PathClear(board, from, to)
  {
    var rowStep := Sign(to.row - from.row);
    var colStep := Sign(to.col - from.col);
    var row := from.row + rowStep;
    var col := from.col + colStep;
    ghost var k := 1;
    while row != to.row || col != to.col
      invariant Position(row, col) == StepToward(from, to, k)
      invariant 1 <= k && (from != to ==> k <= Distance(from, to))
      invariant forall j :: 1 <= j < k ==> CellFree(board, StepToward(from, to, j))
      decreases Distance(from, to) - k
    {
      StepAdvance(from, to, k);
      if !(0 <= row < |board| && 0 <= col < |board[row]|) || board[row][col].Some? {
        assert !CellFree(board, StepToward(from, to, k));
        PathClearIffBetweenFree(board, from, to);
        return false;
      }
      row := row + rowStep;
      col := col + colStep;
      k := k + 1;
    }
    StepArrive(from, to, k);
    PathClearIffBetweenFree(board, from, to);
    return true;
  }

  /** A step short of `to` is strictly inside the path, and the next step moves one unit further. */
  lemma StepAdvance(from: Position, to: Position, k: int)
    requires from.row == to.row || from.col == to.col
    requires 1 <= k && (from != to ==> k <= Distance(from, to))
    requires StepToward(from, to, k) != to
    ensures from != to && k < Distance(from, to)
    ensures StepToward(from, to, k + 1) ==
      Position(StepToward(from, to, k).row + Sign(to.row - from.row), StepToward(from, to, k).col + Sign(to.col - from.col))
  {
  }

  /** The steps reach `to` after exactly the distance, when the ends differ. */
  lemma StepArrive(from: Position, to: Position, k: int)
    requires from.row == to.row || from.col == to.col
    requires 1 <= k && (from != to ==> k <= Distance(from, to))
    requires StepToward(from, to, k) == to
    ensures from == to || k == Distance(from, to)
  {
  }

  // ---------------------------------------------------------------- move legality

  /** The conditions under which `canMovePiece` accepts a move, all at once. */
  predicate Legal(piece: Piece, from: Position, to: Position, board: Board)
    requires |board| > 0
  {
    CanPieceMove(piece) &&
    InBounds(to, board) &&
    (At(board, to).Some? ==> AllianceOf(piece.owner, At(board, to).value.owner) == Enemy) &&
    (HasRailwayBonus(piece) || Distance(from, to) <= 1) &&
    IsOrthogonal(from, to) &&
    (HasRailwayBonus(piece) && Distance(from, to) > 1 ==> PathClear(board, from, to))
  }

  /** Checks a move of `piece` from `from` to `to`, reporting the first test that fails. */
  function CanMovePiece(piece: Piece, from: Position, to: Position, board: Board): (r: MoveCheck)
    requires |board| > 0
    ensures r == Valid <==> Legal(piece, from, to, board)
    ensures r == Invalid(CannotMove) <==> !CanPieceMove(piece)
    ensures r == Invalid(OutOfBounds) <==> CanPieceMove(piece) && !InBounds(to, board)
    ensures r == Invalid(AlliedTarget) <==>
      CanPieceMove(piece) && InBounds(to, board) &&
      At(board, to).Some? && AllianceOf(piece.owner, At(board, to).value.owner) == Ally
    ensures r == Invalid(TooFar) ==> !HasRailwayBonus(piece) && Distance(from, to) > 1
    ensures r == Invalid(NotOrthogonal) ==> !IsOrthogonal(from, to) && (HasRailwayBonus(piece) || Distance(from, to) <= 1)
    ensures r == Invalid(PathBlocked) ==> HasRailwayBonus(piece) && IsOrthogonal(from, to) && !PathClear(board, from, to)
  {
    var distance := Distance(from, to);
    if !CanPieceMove(piece) then Invalid(CannotMove)
    else if !IsValidPosition(to, |board|, |board[0]|) then Invalid(OutOfBounds)
    else if At(board, to).Some? && AllianceOf(piece.owner, At(board, to).value.owner) == Ally then Invalid(AlliedTarget)
    else if !HasRailwayBonus(piece) && distance > 1 then Invalid(TooFar)
    else if !IsOrthogonal(from, to) then Invalid(NotOrthogonal)
    else if HasRailwayBonus(piece) && distance > 1 && !PathClear(board, from, to) then Invalid(PathBlocked)
    else Valid
  }

  /** A legal move goes exactly one step, or, for the engineer, any distance along a clear line. */
  lemma LegalMoveShape(piece: Piece, from: Position, to: Position, board: Board)
    requires |board| > 0
    requires CanMovePiece(piece, from, to, board) == Valid
    ensures !HasRailwayBonus(piece) ==> Distance(from, to) == 1
    ensures from.row == to.row || from.col == to.col
    ensures PathClear(board, from, to)
    ensures piece.kind != Mine && piece.kind != Flag && piece.status == Active
  {
    if !HasRailwayBonus(piece) {
      assert Distance(from, to) == 1;

    }
  }

  /** On an otherwise empty board, a commander on the centre cell may step one cell right or up, but
      cannot go two cells, move diagonally, or leave the board. */
  lemma CommanderMoveExamples(commander: Piece, board: Board)
    requires |board| == 17 && |board[0]| == 17
    requires commander.kind == Commander && commander.status == Active && commander.canMove
    requires forall p :: p in [Position(8, 9), Position(8, 10), Position(9, 9), Position(7, 8)] ==> At(board, p).None?
    ensures CanMovePiece(commander, Position(8, 8), Position(8, 9), board) == Valid
    ensures CanMovePiece(commander, Position(8, 8), Position(8, 10), board) == Invalid(TooFar)
    ensures CanMovePiece(commander, Position(8, 8), Position(9, 9), board) == Invalid(TooFar)
    ensures CanMovePiece(commander, Position(8, 8), Position(7, 8), board) == Valid
    ensures CanMovePiece(commander, Position(8, 8), Position(-1, 8), board) == Invalid(OutOfBounds)
  {
    assert At(board, Position(8, 9)).None? && At(board, Position(8, 10)).None?;
    assert At(board, Position(9, 9)).None? && At(board, Position(7, 8)).None?;
    assert Distance(Position(8, 8), Position(8, 9)) == 1 && Distance(Position(8, 8), Position(7, 8)) == 1;
    assert Distance(Position(8, 8), Position(8, 10)) == 2 && Distance(Position(8, 8), Position(9, 9)) == 2;
  }

  // ---------------------------------------------------------------- defeat and victory

  predicate IsActiveFlag(p: Piece) {
    p.status == Active && p.kind == Flag
  }

  /** The index of the first Active flag of a roster, or the roster's length when there is none. */
  function FirstActiveFlag(pieces: seq<Piece>): (i: nat)
    ensures i <= |pieces|
    ensures i < |pieces| ==> IsActiveFlag(pieces[i])
    ensures forall j :: 0 <= j < i ==> !IsActiveFlag(pieces[j])
  {
    if pieces == [] then 0
    else if IsActiveFlag(pieces[0]) then 0
    else 1 + FirstActiveFlag(pieces[1..])
  }

  /** Whether some Active piece of the roster may move. */
  predicate HasMovablePiece(pieces: seq<Piece>) {
    exists i :: 0 <= i < |pieces| && pieces[i].status == Active && CanPieceMove(pieces[i])
  }

  /** A player is defeated when its first Active flag is missing or off the board, or nothing of it can move. */
  predicate IsPlayerDefeated(pieces: seq<Piece>)
    ensures !IsPlayerDefeated(pieces) ==>
      HasMovablePiece(pieces) && exists i :: 0 <= i < |pieces| && IsActiveFlag(pieces[i]) && pieces[i].position.Some?
  {
    var i := FirstActiveFlag(pieces);
    i == |pieces| || pieces[i].position.None? || !HasMovablePiece(pieces)
  }

  /** With at most one flag in the roster (the standard roster has one), defeat means the flag is gone
      or off the board, or no active piece can move. */
  lemma DefeatWithOneFlag(pieces: seq<Piece>)
    requires forall i, j :: 0 <= i < j < |pieces| ==> !(pieces[i].kind == Flag && pieces[j].kind == Flag)
    ensures IsPlayerDefeated(pieces) <==>
      !(exists i :: 0 <= i < |pieces| && IsActiveFlag(pieces[i]) && pieces[i].position.Some?) ||
      !(exists i :: 0 <= i < |pieces| && CanPieceMove(pieces[i]))
  {
    var f := FirstActiveFlag(pieces);
    if exists j :: 0 <= j < |pieces| && IsActiveFlag(pieces[j]) && pieces[j].position.Some? {
      var j :| 0 <= j < |pieces| && IsActiveFlag(pieces[j]) && pieces[j].position.Some?;
      assert f == j;
    }
  }

  /** A player with no pieces at all is defeated. */
  lemma EmptyRosterDefeated()
    ensures IsPlayerDefeated([])
  {
  }

  /** A player's roster; a color missing from the map has an empty one. */
  function RosterOf(rosters: map<Color, seq<Piece>>, c: Color): seq<Piece> {
    if c in rosters then rosters[c] else []
  }

  /** The winning alliance, if one side has both players defeated; Red and Blue are examined first. */
  function CheckAllianceVictory(rosters: map<Color, seq<Piece>>): (w: Option<seq<Color>>)
    ensures w.Some? ==> w.value == [Yellow, Green] || w.value == [Red, Blue]
    ensures w == Some([Yellow, Green]) <==> IsPlayerDefeated(RosterOf(rosters, Red)) && IsPlayerDefeated(RosterOf(rosters, Blue))
    ensures w == Some([Red, Blue]) <==>
      !(IsPlayerDefeated(RosterOf(rosters, Red)) && IsPlayerDefeated(RosterOf(rosters, Blue))) &&
      IsPlayerDefeated(RosterOf(rosters, Yellow)) && IsPlayerDefeated(RosterOf(rosters, Green))
  {
    if IsPlayerDefeated(RosterOf(rosters, Red)) && IsPlayerDefeated(RosterOf(rosters, Blue)) then Some([Yellow, Green])
    else if IsPlayerDefeated(RosterOf(rosters, Yellow)) && IsPlayerDefeated(RosterOf(rosters, Green)) then Some([Red, Blue])
    else None
  }

  /** A declared winning alliance is a pair of allies whose two enemies are both defeated. */
  lemma VictoryIsAllianceOverDefeatedEnemies(rosters: map<Color, seq<Piece>>, c: Color)
    requires CheckAllianceVictory(rosters).Some?
    ensures var w := CheckAllianceVictory(rosters).value;
      |w| == 2 && AllianceOf(w[0], w[1]) == Ally &&
      (AllianceOf(c, w[0]) == Enemy ==> IsPlayerDefeated(RosterOf(rosters, c)))
  {
  }

  // ---------------------------------------------------------------- possible moves

  /** The four unit directions in the order the source tries them: up, down, left, right. */
  const Directions: seq<(int, int)> := [(-1, 0), (1, 0), (0, -1), (0, 1)]

  function Offset(from: Position, d: (int, int), distance: int): Position {
    Position(from.row + d.0 * distance, from.col + d.1 * distance)
  }

  /** Whether a reachable cell is kept: empty cells always, enemy cells only when attacks are included. */
  predicate Keeps(piece: Piece, board: Board, p: Position, includeAttacks: bool) {
    At(board, p).None? || (includeAttacks && AllianceOf(piece.owner, At(board, p).value.owner) == Enemy)
  }

  /** The one-step move of an ordinary piece in direction `d`, if it is kept. */
  function StepMoves(piece: Piece, from: Position, d: (int, int), board: Board, includeAttacks: bool): seq<Position>
    requires |board| > 0
  {
    var p := Offset(from, d, 1);
    if CanMovePiece(piece, from, p, board) == Valid && Keeps(piece, board, p, includeAttacks) then [p] else []
  }

  /** The railway moves in direction `d` from step `distance` on: empty cells until the edge, a refused
      move or the first occupied cell, which is kept only when it may be attacked. */
  function RayMoves(piece: Piece, from: Position, d: (int, int), distance: nat, limit: nat, board: Board, includeAttacks: bool): seq<Position>
    requires |board| > 0
    decreases limit - distance
  {
    if distance > limit then []
    else
      var p := Offset(from, d, distance);
      if !InBounds(p, board) || CanMovePiece(piece, from, p, board) != Valid then []
      else if At(board, p).Some? then (if includeAttacks && AllianceOf(piece.owner, At(board, p).value.owner) == Enemy then [p] else [])
      else [p] + RayMoves(piece, from, d, distance + 1, limit, board, includeAttacks)
  }

  function Max(a: int, b: int): int {
    if a >= b then a else b
  }

  /** How far a railway scan may look: the larger board dimension. */
  function RayLimit(board: Board): nat
    requires |board| > 0
  {
    Max(|board|, |board[0]|)
  }

  function DirectionMoves(piece: Piece, from: Position, d: (int, int), board: Board, includeAttacks: bool): seq<Position>
    requires |board| > 0
  {
    if HasRailwayBonus(piece) then RayMoves(piece, from, d, 1, RayLimit(board), board, includeAttacks)
    else StepMoves(piece, from, d, board, includeAttacks)
  }

  /** The moves found in the first `n` directions, in order. */
  function MovesInDirections(piece: Piece, from: Position, n: nat, board: Board, includeAttacks: bool): seq<Position>
    requires n <= |Directions| && |board| > 0
  {
    if n == 0 then [] else MovesInDirections(piece, from, n - 1, board, includeAttacks) + DirectionMoves(piece, from, Directions[n - 1], board, includeAttacks)
  }

  /** The moves of a piece from its own position, or none when it has no position or cannot move. */
  function PossibleMoves(piece: Piece, board: Board, includeAttacks: bool): (moves: seq<Position>)
    requires |board| > 0
    ensures forall p :: p in moves ==>
      piece.position.Some? && CanMovePiece(piece, piece.position.value, p, board) == Valid && Keeps(piece, board, p, includeAttacks)
  {
    if piece.position.None? || !CanPieceMove(piece) then []
    else
      AllMovesInDirectionsSound(piece, piece.position.value, |Directions|, board, includeAttacks);
      MovesInDirections(piece, piece.position.value, |Directions|, board, includeAttacks)
  }

  /** Every move found in the first `n` directions is legal and kept. */
  lemma AllMovesInDirectionsSound(piece: Piece, from: Position, n: nat, board: Board, includeAttacks: bool)
    requires n <= |Directions| && |board| > 0
    ensures forall p :: p in MovesInDirections(piece, from, n, board, includeAttacks) ==>
      CanMovePiece(piece, from, p, board) == Valid && Keeps(piece, board, p, includeAttacks)
  {
    forall p | p in MovesInDirections(piece, from, n, board, includeAttacks)
      ensures CanMovePiece(piece, from, p, board) == Valid && Keeps(piece, board, p, includeAttacks)
    {
      MovesInDirectionsSound(piece, from, n, board, includeAttacks, p);
    }
  }

  /** Scans the four directions, one step for ordinary pieces and along the line for the engineer. */
  method GetPossibleMoves(piece: Piece, board: Board, includeAttacks: bool) returns (moves: seq<Position>)
    requires |board| > 0
    ensures moves == PossibleMoves(piece, board, includeAttacks)
  {
    if piece.position.None? || !CanPieceMove(piece) {
      return [];
    }
    var from := piece.position.value;
    moves := [];
    for i := 0 to |Directions|
      invariant moves == MovesInDirections(piece, from, i, board, includeAttacks)
    {
      var d := Directions[i];
      if !HasRailwayBonus(piece) {
        var p := Position(from.row + d.0, from.col + d.1);
        assert p == Offset(from, d, 1);
        if CanMovePiece(piece, from, p, board) == Valid {
          var target := At(board, p);
          if target.None? || (includeAttacks && AllianceOf(piece.owner, target.value.owner) == Enemy) {
            moves := moves + [p];
          }
        }
      } else {
        moves := ScanRailway(piece, from, d, board, includeAttacks, moves);
      }
      assert MovesInDirections(piece, from, i + 1, board, includeAttacks)
        == MovesInDirections(piece, from, i, board, includeAttacks) + DirectionMoves(piece, from, d, board, includeAttacks);
    }
  }

  /** The engineer's scan in direction `d`: pushes empty cells until the edge, a refused move or the
      first occupied cell, which it pushes only when it may be attacked. */
  method ScanRailway(piece: Piece, from: Position, d: (int, int), board: Board, includeAttacks: bool, moves0: seq<Position>)
      returns (moves: seq<Position>)
    requires |board| > 0
    ensures moves == moves0 + RayMoves(piece, from, d, 1, RayLimit(board), board, includeAttacks)
  {
    moves := moves0;
    var limit := Max(|board|, |board[0]|);
    var distance := 1;
    while distance <= limit
      invariant 1 <= distance
      invariant moves0 + RayMoves(piece, from, d, 1, limit, board, includeAttacks)
             == moves + RayMoves(piece, from, d, distance, limit, board, includeAttacks)
      decreases limit - distance
    {
      var p := Position(from.row + d.0 * distance, from.col + d.1 * distance);
      assert p == Offset(from, d, distance);
      if !IsValidPosition(p, |board|, |board[0]|) {
        break;
      }
      if CanMovePiece(piece, from, p, board) != Valid {
        break;
      }
      var target := At(board, p);
      if target.Some? {
        if includeAttacks && AllianceOf(piece.owner, target.value.owner) == Enemy {
          moves := moves + [p];
        }
        break;
      } else {
        moves := moves + [p];
      }
      distance := distance + 1;
    }
  }

  /** Every railway move found is legal and kept. */
  lemma {:induction false} RayMovesSound(piece: Piece, from: Position, d: (int, int), distance: nat, limit: nat, board: Board, includeAttacks: bool, p: Position)
    requires |board| > 0
    requires p in RayMoves(piece, from, d, distance, limit, board, includeAttacks)
    ensures CanMovePiece(piece, from, p, board) == Valid && Keeps(piece, board, p, includeAttacks)
    decreases limit - distance
  {
    var q := Offset(from, d, distance);
    if p != q {
      RayMovesSound(piece, from, d, distance + 1, limit, board, includeAttacks, p);
    }
  }

  lemma {:induction false} MovesInDirectionsSound(piece: Piece, from: Position, n: nat, board: Board, includeAttacks: bool, p: Position)
    requires n <= |Directions| && |board| > 0
    requires p in MovesInDirections(piece, from, n, board, includeAttacks)
    ensures CanMovePiece(piece, from, p, board) == Valid && Keeps(piece, board, p, includeAttacks)
  {
    if p in MovesInDirections(piece, from, n - 1, board, includeAttacks) {
      MovesInDirectionsSound(piece, from, n - 1, board, includeAttacks, p);
    } else if HasRailwayBonus(piece) {
      RayMovesSound(piece, from, Directions[n - 1], 1, RayLimit(board), board, includeAttacks, p);
    }
  }

  /** Every possible move is accepted by CanMovePiece from the piece's position, and lands on an empty
      cell or, when attacks are included, on an enemy. */
  lemma PossibleMovesSound(piece: Piece, board: Board, includeAttacks: bool, p: Position)
    requires |board| > 0
    requires p in PossibleMoves(piece, board, includeAttacks)
    ensures piece.position.Some? && CanMovePiece(piece, piece.position.value, p, board) == Valid
    ensures At(board, p).None? || (includeAttacks && AllianceOf(piece.owner, At(board, p).value.owner) == Enemy)
  {
    MovesInDirectionsSound(piece, piece.position.value, |Directions|, board, includeAttacks, p);
  }

  /** For an ordinary piece the moves found are exactly the legal one-step moves that are kept. */
  lemma StepMovesComplete(piece: Piece, board: Board, includeAttacks: bool, p: Position)
    requires |board| > 0
    requires piece.position.Some? && !HasRailwayBonus(piece)
    ensures p in PossibleMoves(piece, board, includeAttacks) <==>
      CanMovePiece(piece, piece.position.value, p, board) == Valid && Keeps(piece, board, p, includeAttacks)
  {
    var from := piece.position.value;
    if p in PossibleMoves(piece, board, includeAttacks) {
      PossibleMovesSound(piece, board, includeAttacks, p);
    }
    if CanMovePiece(piece, from, p, board) == Valid && Keeps(piece, board, p, includeAttacks) {
      LegalMoveShape(piece, from, p, board);
      var i := if p.row == from.row - 1 then 0 else if p.row == from.row + 1 then 1 else if p.col == from.col - 1 then 2 else 3;
      assert p == Offset(from, Directions[i], 1);
      assert p in DirectionMoves(piece, from, Directions[i], board, includeAttacks);
      DirectionMovesIncluded(piece, from, i, |Directions|, board, includeAttacks, p);
    }
  }

  /** The moves of each direction appear in the moves of every longer prefix of the directions. */
  lemma {:induction false} DirectionMovesIncluded(piece: Piece, from: Position, i: nat, n: nat, board: Board, includeAttacks: bool, p: Position)
    requires i < n <= |Directions| && |board| > 0
    requires p in DirectionMoves(piece, from, Directions[i], board, includeAttacks)
    ensures p in MovesInDirections(piece, from, n, board, includeAttacks)
  {
    if i < n - 1 {
      DirectionMovesIncluded(piece, from, i, n - 1, board, includeAttacks, p);
    }
  }
  /** Every row of the board as long as the first, as on the game's 17 by 17 board. */
  predicate Rectangular(board: Board) {
    forall r :: 0 <= r < |board| ==> |board[r]| == |board[0]|
  }

  /** The index in Directions of the direction from `from` to a different cell of its row or column. */
  function DirectionIndex(from: Position, p: Position): (i: nat)
    requires IsOrthogonal(from, p)
    ensures i < |Directions| && p == Offset(from, Directions[i], Distance(from, p))
  {
    if p.row < from.row then 0 else if p.row > from.row then 1 else if p.col < from.col then 2 else 3
  }

  /** On a rectangular board a legal move never goes further than the larger board dimension, so the
      engineer's scan looks far enough. */
  lemma LegalWithinRayLimit(piece: Piece, from: Position, p: Position, board: Board)
    requires |board| > 0 && Rectangular(board)
    requires CanMovePiece(piece, from, p, board) == Valid
    ensures Distance(from, p) <= RayLimit(board)
  {
    var k := Distance(from, p);
    if k > 1 {
      LegalMoveShape(piece, from, p, board);
      var first := StepToward(from, p, 1);
      assert CellFree(board, first);
      assert |board[first.row]| == |board[0]|;
    }
  }

  /** The cell `j` steps along a legal engineer's line towards `p`, short of `p`, is itself a legal
      move onto an empty cell. */
  lemma InnerStepLegal(piece: Piece, from: Position, p: Position, j: nat, board: Board)
    requires |board| > 0 && Rectangular(board) && HasRailwayBonus(piece)
    requires CanMovePiece(piece, from, p, board) == Valid
    requires 1 <= j < Distance(from, p)
    ensures var q := StepToward(from, p, j);
      InBounds(q, board) && At(board, q).None? && CanMovePiece(piece, from, q, board) == Valid
  {
    LegalMoveShape(piece, from, p, board);
    var q := StepToward(from, p, j);
    assert CellFree(board, q);
    assert |board[q.row]| == |board[0]|;
    assert Distance(from, q) == j;
    forall i | 0 < i < j
      ensures CellFree(board, StepToward(from, q, i))
    {
      assert StepToward(from, q, i) == StepToward(from, p, i);
    }
  }

  /** A legal, kept engineer move `k` steps along direction `d` is found by the scan started at any
      step `j` up to `k`, when `k` is within the limit. */
  lemma {:induction false} RayMovesComplete(piece: Piece, from: Position, p: Position, j: nat, limit: nat, board: Board, includeAttacks: bool)
    requires |board| > 0 && Rectangular(board) && HasRailwayBonus(piece)
    requires CanMovePiece(piece, from, p, board) == Valid && Keeps(piece, board, p, includeAttacks)
    requires 1 <= j <= Distance(from, p) <= limit
    ensures IsOrthogonal(from, p)
    ensures p in RayMoves(piece, from, Directions[DirectionIndex(from, p)], j, limit, board, includeAttacks)
    decreases Distance(from, p) - j
  {
    var d := Directions[DirectionIndex(from, p)];
    var q := Offset(from, d, j);
    if j < Distance(from, p) {
      assert q == StepToward(from, p, j);
      InnerStepLegal(piece, from, p, j, board);
      RayMovesComplete(piece, from, p, j + 1, limit, board, includeAttacks);
    } else {
      assert q == p;
    }
  }

  /** On a rectangular board the moves found are exactly the legal moves from the piece's position that
      are kept: one step for an ordinary piece, every cell up to the first occupied one along each line
      for the engineer. */
  lemma PossibleMovesComplete(piece: Piece, board: Board, includeAttacks: bool, p: Position)
    requires |board| > 0 && Rectangular(board)
    requires piece.position.Some?
    ensures p in PossibleMoves(piece, board, includeAttacks) <==>
      CanMovePiece(piece, piece.position.value, p, board) == Valid && Keeps(piece, board, p, includeAttacks)
  {
    var from := piece.position.value;
    if !HasRailwayBonus(piece) {
      StepMovesComplete(piece, board, includeAttacks, p);
    } else {
      if p in PossibleMoves(piece, board, includeAttacks) {
        PossibleMovesSound(piece, board, includeAttacks, p);
      }
      if CanMovePiece(piece, from, p, board) == Valid && Keeps(piece, board, p, includeAttacks) {
        LegalWithinRayLimit(piece, from, p, board);
        RayMovesComplete(piece, from, p, 1, RayLimit(board), board, includeAttacks);
        var i := DirectionIndex(from, p);
        assert p in DirectionMoves(piece, from, Directions[i], board, includeAttacks);
        DirectionMovesIncluded(piece, from, i, |Directions|, board, includeAttacks, p);
      }
    }
  }
}
