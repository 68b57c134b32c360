/** Setting a game up: the fresh state `initializeGame` builds, the rosters `initializePieces` hands
    out, and the placement `autoDeployPieces` makes, with the random shuffle of each roster taken as a
    parameter. */
module Setup {
  import opened Common
  import opened Pieces
  import opened GameData
  import opened EngineModel

  /** The player `initializeGame` creates for color `c`: named after the color, computer-controlled
      unless Red, alive, and without pieces yet. */
  function InitialPlayer(c: Color): Player {
    Player(c, ColorTag(c) + "玩家", c != Red, true, [], None)
  }

  /** The game id: the one given, unless it is missing or empty, else the generated one (the clock and
      random digits of the generated id are outside the model). */
  function ChooseGameId(gameId: Option<string>, generated: string): string {
    if gameId.Some? && gameId.value != "" then gameId.value else generated
  }

  function EmptyBoard(): (b: seq<seq<Option<PieceRef>>>)
    ensures SquareBoard(b)
  {
    seq(BoardSize, _ => seq(BoardSize, _ => None))
  }

  /** The state `initializeGame` returns. */
  function InitialState(gameId: string): (s: GameState)
    ensures SquareBoard(s.board) && AllEmpty(s) && s.phase == Setup && s.gameId == gameId
    ensures s.turnInfo == TurnInfo(Red, 1, TurnTimeLimit) && s.moveHistory == [] && s.winningAlliance == None
  {
    GameState(gameId, Setup, EmptyBoard(), map c | c in PlayerOrder :: InitialPlayer(c),
      TurnInfo(Red, 1, TurnTimeLimit), [], None)
  }

  predicate AllEmpty(s: GameState) {
    forall r, c :: 0 <= r < |s.board| && 0 <= c < |s.board[r]| ==> s.board[r][c].None?
  }

  /** A new game is in setup with an empty 17×17 board, four alive players without pieces (only Red
      human), Red to move in turn 1 with a full clock, no history and no winner. */
  lemma InitialStateFacts(gameId: string, c: Color)
    ensures var s := InitialState(gameId);
      SquareBoard(s.board) && AllEmpty(s) && Placed(s) &&
      s.phase == Setup && s.gameId == gameId &&
      c in s.players && s.players[c].color == c && s.players[c].isAlive && s.players[c].pieces == [] &&
      (s.players[c].isAI <==> c != Red) && s.players[c].defeatedAt == None &&
      s.turnInfo == TurnInfo(Red, 1, 30) && s.moveHistory == [] && s.winningAlliance == None
  {
    PlayerOrderComplete(c);
  }

  // ---------------------------------------------------------------- rosters

  /** Rosters handed out to the first `n` players in creation order. */
  function RostersUpTo(s: GameState, n: nat): (s': GameState)
    requires n <= |PlayerOrder|
    ensures s' == s.(players := s'.players) && s'.players.Keys == s.players.Keys
  {
    if n == 0 then s
    else
      var s1 := RostersUpTo(s, n - 1);
      var c := PlayerOrder[n - 1];
      if c in s1.players then s1.(players := s1.players[c := s1.players[c].(pieces := PlayerPieces(c))]) else s1
  }

  /** `initializePieces`: every player gets the standard roster of its color. */
  function InitializePieces(s: GameState): GameState {
    RostersUpTo(s, |PlayerOrder|)
  }

  lemma RostersUpToEffect(s: GameState, n: nat)
    requires n <= |PlayerOrder|
    ensures var s' := RostersUpTo(s, n);
      forall c :: c in s.players ==>
        s'.players[c] == if ColorIndex(c) < n then s.players[c].(pieces := PlayerPieces(c)) else s.players[c]
  {
    forall c | c in s.players
      ensures RostersUpTo(s, n).players[c] ==
        if ColorIndex(c) < n then s.players[c].(pieces := PlayerPieces(c)) else s.players[c]
    {
      RostersUpToAt(s, n, c);
    }
  }

  /** The player of color `c` after the first `n` rosters have been handed out. */
  lemma {:induction false} RostersUpToAt(s: GameState, n: nat, c: Color)
    requires n <= |PlayerOrder| && c in s.players
    ensures RostersUpTo(s, n).players[c] ==
      if ColorIndex(c) < n then s.players[c].(pieces := PlayerPieces(c)) else s.players[c]
  {
    if n > 0 {
      RostersUpToAt(s, n - 1, c);
      OrderIndex(n - 1);
      if c != PlayerOrder[n - 1] {
        assert ColorIndex(c) != n - 1;
      }
    }
  }

  /** After `initializePieces` every player holds exactly the 25 standard pieces of its color, and
      nothing else about the players or the game has changed. */
  lemma InitializePiecesEffect(s: GameState, c: Color)
    requires c in s.players
    ensures var s' := InitializePieces(s);
      s' == s.(players := s'.players) && s'.players.Keys == s.players.Keys &&
      s'.players[c] == s.players[c].(pieces := PlayerPieces(c)) && |s'.players[c].pieces| == 25
  {
    RostersUpToEffect(s, |PlayerOrder|);
    PlayerPiecesShape(c);
  }

  // ---------------------------------------------------------------- deployment

  /** The rows of each player's deployment area. */
  function AreaRows(c: Color): seq<int> {
    match c
    case Red => [12, 13, 14, 15, 16]
    case Green => [0, 1, 2, 3, 4]
    case Blue => [6, 7, 8, 9, 10]
    case Yellow => [6, 7, 8, 9, 10]
  }

  /** The columns of each player's deployment area. */
  function AreaCols(c: Color): seq<int> {
    match c
    case Red => [6, 7, 8, 9, 10]
    case Green => [6, 7, 8, 9, 10]
    case Blue => [0, 1, 2, 3, 4]
    case Yellow => [12, 13, 14, 15, 16]
  }

  /** The `j`-th cell of `c`'s area, filled row by row. */
  function AreaCell(c: Color, j: nat): Position
    requires j < 25
  {
    Position(AreaRows(c)[j / 5], AreaCols(c)[j % 5])
  }

  /** The 25 cells of an area are on the board and distinct, and the four areas do not overlap. */
  lemma AreaCellsDistinct(c1: Color, j1: nat, c2: Color, j2: nat)
    requires j1 < 25 && j2 < 25
    ensures OnBoard(AreaCell(c1, j1))
    ensures AreaCell(c1, j1) == AreaCell(c2, j2) ==> c1 == c2 && j1 == j2
  {
    assert AreaRows(c1)[j1 / 5] == AreaRows(c1)[0] + j1 / 5;
    assert AreaCols(c1)[j1 % 5] == AreaCols(c1)[0] + j1 % 5;
    assert AreaRows(c2)[j2 / 5] == AreaRows(c2)[0] + j2 / 5;
    assert AreaCols(c2)[j2 % 5] == AreaCols(c2)[0] + j2 % 5;
  }

  /** A shuffle of a roster of `n` pieces: every index once, in some order. */
  predicate IsShuffle(order: seq<nat>, n: nat) {
    |order| == n &&
    (forall i :: 0 <= i < n ==> order[i] < n) &&
    (forall i, j :: 0 <= i < j < n ==> order[i] != order[j])
  }

  /** A shuffle for every player. */
  predicate Shuffles(s: GameState, shuffles: map<Color, seq<nat>>) {
    forall c :: c in s.players ==> c in shuffles && IsShuffle(shuffles[c], |s.players[c].pieces|)
  }

  function Min(a: nat, b: nat): nat {
    if a <= b then a else b
  }

  /** The first `j` pieces of a shuffle of `c`'s roster placed on the first `j` cells of its area: each
      one learns its cell and the cell refers to it. */
  function PlaceUpTo(s: GameState, c: Color, order: seq<nat>, j: nat): (s': GameState)
    requires SquareBoard(s.board) && c in s.players
    requires j <= |order| && j <= 25
    requires forall i :: 0 <= i < |order| ==> order[i] < |s.players[c].pieces|
    ensures SquareBoard(s'.board) && SameRosters(s, s') && s' == s.(board := s'.board, players := s'.players)
  {
    if j == 0 then s
    else
      var s1 := PlaceUpTo(s, c, order, j - 1);
      AreaCellsDistinct(c, j - 1, c, j - 1);
      Place(s1, PieceRef(c, order[j - 1]), AreaCell(c, j - 1))
  }

  /** The placement of the first `n` players in creation order. */
  function DeployUpTo(s: GameState, shuffles: map<Color, seq<nat>>, n: nat): (s': GameState)
    requires SquareBoard(s.board) && Shuffles(s, shuffles) && n <= |PlayerOrder|
    ensures SquareBoard(s'.board) && SameRosters(s, s') && s' == s.(board := s'.board, players := s'.players)
  {
    if n == 0 then s
    else
      var s1 := DeployUpTo(s, shuffles, n - 1);
      var c := PlayerOrder[n - 1];
      if c in s1.players then PlaceUpTo(s1, c, shuffles[c], Min(|shuffles[c]|, 25)) else s1
  }

  /** `autoDeployPieces`: every player's shuffled roster goes onto its area, 25 pieces at most, and the
      game starts. */
  function AutoDeploy(s: GameState, shuffles: map<Color, seq<nat>>): (s': GameState)
    requires SquareBoard(s.board) && Shuffles(s, shuffles)
    ensures SquareBoard(s'.board) && s' == s.(board := s'.board, players := s'.players, phase := Playing)
  {
    DeployUpTo(s, shuffles, |PlayerOrder|).(phase := Playing)
  }

  /** One placement: the cell refers to the piece and the piece learns the cell; nothing else changes. */
  function Place(s: GameState, ref: PieceRef, cell: Position): (s': GameState)
    requires SquareBoard(s.board) && Names(s, ref) && OnBoard(cell)
    ensures SquareBoard(s'.board) && SameRosters(s, s') && s' == s.(board := s'.board, players := s'.players)
    ensures RefAt(s', cell) == Some(ref) && PieceOf(s', ref) == PieceOf(s, ref).(position := Some(cell))
    ensures forall q :: q != cell ==> RefAt(s', q) == RefAt(s, q)
    ensures forall r :: Names(s, r) && r != ref ==> PieceOf(s', r) == PieceOf(s, r)
  {
    SetCell(SetPiece(s, ref, PieceOf(s, ref).(position := Some(cell))), cell, Some(ref))
  }

  /** The `j`-th placement of a shuffle. */
  lemma PlaceUpToStep(s: GameState, c: Color, order: seq<nat>, j: nat)
    requires SquareBoard(s.board) && c in s.players && 0 < j <= |order| && j <= 25
    requires forall i :: 0 <= i < |order| ==> order[i] < |s.players[c].pieces|
    ensures OnBoard(AreaCell(c, j - 1)) && Names(PlaceUpTo(s, c, order, j - 1), PieceRef(c, order[j - 1]))
    ensures PlaceUpTo(s, c, order, j) == Place(PlaceUpTo(s, c, order, j - 1), PieceRef(c, order[j - 1]), AreaCell(c, j - 1))
  {
    AreaCellsDistinct(c, j - 1, c, j - 1);
  }

  /** Placing the pieces `k` to `j` of a shuffle writes no cell but their area cells. */
  lemma {:induction false} PlaceUpToKeepsCell(s: GameState, c: Color, order: seq<nat>, k: nat, j: nat, q: Position)
    requires SquareBoard(s.board) && c in s.players && k <= j <= |order| && j <= 25
    requires forall i :: 0 <= i < |order| ==> order[i] < |s.players[c].pieces|
    requires forall i :: k <= i < j ==> q != AreaCell(c, i)
    ensures RefAt(PlaceUpTo(s, c, order, j), q) == RefAt(PlaceUpTo(s, c, order, k), q)
  {
    if k < j {
      PlaceUpToKeepsCell(s, c, order, k, j - 1, q);
      PlaceUpToStep(s, c, order, j);
      assert q != AreaCell(c, j - 1);
    } else {
      assert k == j;
    }
  }

  /** Placing the pieces `k` to `j` of a shuffle changes no roster entry but theirs. */
  lemma {:induction false} PlaceUpToKeepsPiece(s: GameState, c: Color, order: seq<nat>, k: nat, j: nat, r: PieceRef)
    requires SquareBoard(s.board) && c in s.players && k <= j <= |order| && j <= 25
    requires forall i :: 0 <= i < |order| ==> order[i] < |s.players[c].pieces|
    requires Names(s, r) && (r.owner != c || forall i :: k <= i < j ==> order[i] != r.index)
    ensures PieceOf(PlaceUpTo(s, c, order, j), r) == PieceOf(PlaceUpTo(s, c, order, k), r)
  {
    if k < j {
      PlaceUpToKeepsPiece(s, c, order, k, j - 1, r);
      PlaceUpToStep(s, c, order, j);
      assert Names(PlaceUpTo(s, c, order, j - 1), r);
      assert r.owner != c || order[j - 1] != r.index;
    } else {
      assert k == j;
    }
  }

  /** Once placed, piece `i` of a shuffle stays on area cell `i`, and that cell refers to it. */
  lemma PlaceUpToPuts(s: GameState, c: Color, order: seq<nat>, j: nat, i: nat)
    requires SquareBoard(s.board) && c in s.players && i < j <= |order| && j <= 25
    requires forall i :: 0 <= i < |order| ==> order[i] < |s.players[c].pieces|
    requires forall i, k :: 0 <= i < k < |order| ==> order[i] != order[k]
    ensures RefAt(PlaceUpTo(s, c, order, j), AreaCell(c, i)) == Some(PieceRef(c, order[i]))
    ensures PieceOf(PlaceUpTo(s, c, order, j), PieceRef(c, order[i])) ==
      PieceOf(s, PieceRef(c, order[i])).(position := Some(AreaCell(c, i)))
  {
    var ref := PieceRef(c, order[i]);
    forall k | i + 1 <= k < j
      ensures AreaCell(c, i) != AreaCell(c, k)
    {
      AreaCellsDistinct(c, i, c, k);
    }
    PlaceUpToKeepsCell(s, c, order, i + 1, j, AreaCell(c, i));
    PlaceUpToKeepsPiece(s, c, order, i + 1, j, ref);
    PlaceUpToKeepsPiece(s, c, order, 0, i, ref);
  }

  /** Whether `q` lies in the 5×5 deployment area of `c`. */
  predicate InArea(c: Color, q: Position) {
    AreaRows(c)[0] <= q.row < AreaRows(c)[0] + 5 && AreaCols(c)[0] <= q.col < AreaCols(c)[0] + 5
  }

  /** The area cells are exactly the cells of the area, and no cell is in two areas. */
  lemma InAreaIffCell(c: Color, q: Position)
    ensures InArea(c, q) ==>
      0 <= (q.row - AreaRows(c)[0]) * 5 + (q.col - AreaCols(c)[0]) < 25 &&
      q == AreaCell(c, (q.row - AreaRows(c)[0]) * 5 + (q.col - AreaCols(c)[0]))
    ensures forall j :: 0 <= j < 25 ==> InArea(c, AreaCell(c, j))
    ensures forall d :: InArea(c, q) && InArea(d, q) ==> c == d
  {
    forall j | 0 <= j < 25
      ensures InArea(c, AreaCell(c, j))
    {
      AreaCellInArea(c, j);
    }
    if InArea(c, q) {
      AreaCellNumber(c, q);
    }
  }

  /** Area cell `j` lies in the area. */
  lemma AreaCellInArea(c: Color, j: nat)
    requires j < 25
    ensures InArea(c, AreaCell(c, j))
  {
    AreaCellsDistinct(c, j, c, j);
    assert AreaRows(c)[j / 5] == AreaRows(c)[0] + j / 5;
    assert AreaCols(c)[j % 5] == AreaCols(c)[0] + j % 5;
  }

  /** A cell of the area is the area cell with its row-major number. */
  lemma AreaCellNumber(c: Color, q: Position)
    requires InArea(c, q)
    ensures 0 <= (q.row - AreaRows(c)[0]) * 5 + (q.col - AreaCols(c)[0]) < 25
    ensures q == AreaCell(c, (q.row - AreaRows(c)[0]) * 5 + (q.col - AreaCols(c)[0]))
  {
    var j := (q.row - AreaRows(c)[0]) * 5 + (q.col - AreaCols(c)[0]);
    assert j / 5 == q.row - AreaRows(c)[0] && j % 5 == q.col - AreaCols(c)[0];
  }

  /** Each cell of `c`'s area refers to the piece of the shuffle with the cell's number, and that piece,
      otherwise as in `s0`, knows its cell. */
  ghost predicate AreaFilled(s0: GameState, s: GameState, c: Color, order: seq<nat>) {
    |order| >= 25 &&
    forall i :: 0 <= i < 25 ==>
      RefAt(s, AreaCell(c, i)) == Some(PieceRef(c, order[i])) &&
      Names(s0, PieceRef(c, order[i])) && Names(s, PieceRef(c, order[i])) &&
      PieceOf(s, PieceRef(c, order[i])) == PieceOf(s0, PieceRef(c, order[i])).(position := Some(AreaCell(c, i)))
  }

  /** Placing a whole 25-piece shuffle fills the area and changes nothing outside it or in other rosters. */
  lemma PlaceAllEffect(s: GameState, c: Color, order: seq<nat>)
    requires SquareBoard(s.board) && c in s.players && |order| == 25
    requires forall i :: 0 <= i < |order| ==> order[i] < |s.players[c].pieces|
    requires forall i, k :: 0 <= i < k < |order| ==> order[i] != order[k]
    ensures var s' := PlaceUpTo(s, c, order, 25);
      AreaFilled(s, s', c, order) &&
      (forall q :: !InArea(c, q) ==> RefAt(s', q) == RefAt(s, q)) &&
      (forall r :: Names(s, r) && r.owner != c ==> PieceOf(s', r) == PieceOf(s, r))
  {
    forall i | 0 <= i < 25 {
      PlaceUpToPuts(s, c, order, 25, i);
    }
    forall q | !InArea(c, q)
      ensures RefAt(PlaceUpTo(s, c, order, 25), q) == RefAt(s, q)
    {
      InAreaIffCell(c, q);
      PlaceUpToKeepsCell(s, c, order, 0, 25, q);
    }
    forall r | Names(s, r) && r.owner != c
      ensures PieceOf(PlaceUpTo(s, c, order, 25), r) == PieceOf(s, r)
    {
      PlaceUpToKeepsPiece(s, c, order, 0, 25, r);
    }
  }

  /** An area filled earlier stays filled while later steps leave its cells and its roster alone. */
  lemma AreaFilledKept(s0: GameState, s1: GameState, s2: GameState, c: Color, order: seq<nat>)
    requires AreaFilled(s0, s1, c, order) && SameRosters(s1, s2)
    requires forall q :: InArea(c, q) ==> RefAt(s2, q) == RefAt(s1, q)
    requires forall r :: Names(s1, r) && r.owner == c ==> PieceOf(s2, r) == PieceOf(s1, r)
    ensures AreaFilled(s0, s2, c, order)
  {
    InAreaIffCell(c, Position(0, 0));
  }

  /** The placement step for the `n`-th player, when that player exists. */
  lemma DeployStep(s: GameState, shuffles: map<Color, seq<nat>>, n: nat)
    requires SquareBoard(s.board) && Shuffles(s, shuffles) && 0 < n <= |PlayerOrder|
    requires forall c :: c in s.players ==> |s.players[c].pieces| == 25
    requires PlayerOrder[n - 1] in s.players
    ensures var s1 := DeployUpTo(s, shuffles, n - 1);
      var c := PlayerOrder[n - 1];
      var s' := DeployUpTo(s, shuffles, n);
      AreaFilled(s1, s', c, shuffles[c]) &&
      (forall q :: !InArea(c, q) ==> RefAt(s', q) == RefAt(s1, q)) &&
      (forall r :: Names(s1, r) && r.owner != c ==> PieceOf(s', r) == PieceOf(s1, r))
  {
    var s1 := DeployUpTo(s, shuffles, n - 1);
    var c := PlayerOrder[n - 1];
    var order := shuffles[c];
    assert IsShuffle(order, 25);
    assert |s1.players[c].pieces| == 25;
    PlaceAllEffect(s1, c, order);
  }

  /** Placing the first `n` players leaves the rosters of the players still to come alone. */
  lemma {:induction false} DeployKeepsLaterRosters(s: GameState, shuffles: map<Color, seq<nat>>, n: nat)
    requires SquareBoard(s.board) && Shuffles(s, shuffles) && n <= |PlayerOrder|
    requires forall c :: c in s.players ==> |s.players[c].pieces| == 25
    ensures forall r :: Names(s, r) && ColorIndex(r.owner) >= n ==> PieceOf(DeployUpTo(s, shuffles, n), r) == PieceOf(s, r)
  {
    if n > 0 {
      DeployKeepsLaterRosters(s, shuffles, n - 1);
      OrderIndex(n - 1);
      var s1 := DeployUpTo(s, shuffles, n - 1);
      var s' := DeployUpTo(s, shuffles, n);
      if PlayerOrder[n - 1] in s.players {
        DeployStep(s, shuffles, n);
        forall r | Names(s, r) && ColorIndex(r.owner) >= n
          ensures PieceOf(s', r) == PieceOf(s, r)
        {
          assert Names(s1, r) && r.owner != PlayerOrder[n - 1];
        }
      } else {
        assert s' == s1;
      }
    }
  }

  /** Cell `q` lies in none of the areas of the first `n` players. */
  predicate OutsideAreas(s: GameState, q: Position, n: nat) {
    forall d :: d in s.players && ColorIndex(d) < n ==> !InArea(d, q)
  }

  /** Placing the first `n` players leaves every cell outside their areas alone. */
  lemma {:induction false} DeployKeepsOtherCells(s: GameState, shuffles: map<Color, seq<nat>>, n: nat)
    requires SquareBoard(s.board) && Shuffles(s, shuffles) && n <= |PlayerOrder|
    requires forall c :: c in s.players ==> |s.players[c].pieces| == 25
    ensures forall q :: OutsideAreas(s, q, n) ==> RefAt(DeployUpTo(s, shuffles, n), q) == RefAt(s, q)
  {
    if n > 0 {
      DeployKeepsOtherCells(s, shuffles, n - 1);
      forall q | OutsideAreas(s, q, n)
        ensures RefAt(DeployUpTo(s, shuffles, n), q) == RefAt(s, q)
      {
        assert OutsideAreas(s, q, n - 1);
        DeployStepKeepsCell(s, shuffles, n, q);
      }
    }
  }

  /** The `n`-th player's turn leaves a cell outside its area alone. */
  lemma DeployStepKeepsCell(s: GameState, shuffles: map<Color, seq<nat>>, n: nat, q: Position)
    requires SquareBoard(s.board) && Shuffles(s, shuffles) && 0 < n <= |PlayerOrder|
    requires forall c :: c in s.players ==> |s.players[c].pieces| == 25
    requires OutsideAreas(s, q, n)
    ensures RefAt(DeployUpTo(s, shuffles, n), q) == RefAt(DeployUpTo(s, shuffles, n - 1), q)
  {
    OrderIndex(n - 1);
    if PlayerOrder[n - 1] in s.players {
      DeployStep(s, shuffles, n);
      assert !InArea(PlayerOrder[n - 1], q);
    } else {
      assert DeployUpTo(s, shuffles, n) == DeployUpTo(s, shuffles, n - 1);
    }
  }

  /** Placing the first `n` players fills each of their areas with its shuffle. */
  lemma {:induction false} DeployFillsAreas(s: GameState, shuffles: map<Color, seq<nat>>, n: nat)
    requires SquareBoard(s.board) && Shuffles(s, shuffles) && n <= |PlayerOrder|
    requires forall c :: c in s.players ==> |s.players[c].pieces| == 25
    ensures forall d :: d in s.players && ColorIndex(d) < n ==> AreaFilled(s, DeployUpTo(s, shuffles, n), d, shuffles[d])
  {
    if n > 0 {
      DeployFillsAreas(s, shuffles, n - 1);
      var c := PlayerOrder[n - 1];
      OrderIndex(n - 1);
      var s1 := DeployUpTo(s, shuffles, n - 1);
      var s' := DeployUpTo(s, shuffles, n);
      if c !in s.players {
        assert s' == s1;
      } else {
        forall d | d in s.players && ColorIndex(d) < n
          ensures AreaFilled(s, s', d, shuffles[d])
        {
          if d == c {
            AreaFilledAtTurn(s, shuffles, n);
          } else {
            assert ColorIndex(d) < n - 1;
            AreaFilledLater(s, shuffles, n, d);
          }
        }
      }
    }
  }

  /** The `n`-th player's turn fills its area with its shuffle of its untouched roster. */
  lemma AreaFilledAtTurn(s: GameState, shuffles: map<Color, seq<nat>>, n: nat)
    requires SquareBoard(s.board) && Shuffles(s, shuffles) && 0 < n <= |PlayerOrder|
    requires forall c :: c in s.players ==> |s.players[c].pieces| == 25
    requires PlayerOrder[n - 1] in s.players
    ensures AreaFilled(s, DeployUpTo(s, shuffles, n), PlayerOrder[n - 1], shuffles[PlayerOrder[n - 1]])
  {
    var c := PlayerOrder[n - 1];
    var s1 := DeployUpTo(s, shuffles, n - 1);
    DeployStep(s, shuffles, n);
    DeployKeepsLaterRosters(s, shuffles, n - 1);
    OrderIndex(n - 1);
    AreaFilledRebased(s, s1, DeployUpTo(s, shuffles, n), c, shuffles[c]);
  }

  /** An area filled from a state whose roster of `c` is still the one of `s0` is filled from `s0`. */
  lemma AreaFilledRebased(s0: GameState, s1: GameState, s: GameState, c: Color, order: seq<nat>)
    requires AreaFilled(s1, s, c, order) && SameRosters(s0, s1)
    requires forall r :: Names(s0, r) && r.owner == c ==> PieceOf(s1, r) == PieceOf(s0, r)
    ensures AreaFilled(s0, s, c, order)
  {
  }

  /** An area filled before the `n`-th player's turn stays filled through it. */
  lemma AreaFilledLater(s: GameState, shuffles: map<Color, seq<nat>>, n: nat, d: Color)
    requires SquareBoard(s.board) && Shuffles(s, shuffles) && 0 < n <= |PlayerOrder|
    requires forall c :: c in s.players ==> |s.players[c].pieces| == 25
    requires PlayerOrder[n - 1] in s.players && d in s.players && d != PlayerOrder[n - 1]
    requires AreaFilled(s, DeployUpTo(s, shuffles, n - 1), d, shuffles[d])
    ensures AreaFilled(s, DeployUpTo(s, shuffles, n), d, shuffles[d])
  {
    var s1 := DeployUpTo(s, shuffles, n - 1);
    var s' := DeployUpTo(s, shuffles, n);
    TurnKeepsOtherArea(s, shuffles, n, d);
    AreaFilledKept(s, s1, s', d, shuffles[d]);
  }

  /** The `n`-th player's turn leaves the cells of another player's area and that player's roster alone. */
  lemma TurnKeepsOtherArea(s: GameState, shuffles: map<Color, seq<nat>>, n: nat, d: Color)
    requires SquareBoard(s.board) && Shuffles(s, shuffles) && 0 < n <= |PlayerOrder|
    requires forall c :: c in s.players ==> |s.players[c].pieces| == 25
    requires PlayerOrder[n - 1] in s.players && d != PlayerOrder[n - 1]
    ensures var s1 := DeployUpTo(s, shuffles, n - 1);
      var s' := DeployUpTo(s, shuffles, n);
      (forall q :: InArea(d, q) ==> RefAt(s', q) == RefAt(s1, q)) &&
      (forall r :: Names(s1, r) && r.owner == d ==> PieceOf(s', r) == PieceOf(s1, r))
  {
    var s1 := DeployUpTo(s, shuffles, n - 1);
    var s' := DeployUpTo(s, shuffles, n);
    DeployStep(s, shuffles, n);
    forall q | InArea(d, q)
      ensures RefAt(s', q) == RefAt(s1, q)
    {
      InAreaIffCell(d, q);
    }
  }

  /** After deploying onto an empty board, only the players' areas hold pieces. */
  lemma DeployLeavesRestEmpty(s: GameState, shuffles: map<Color, seq<nat>>)
    requires SquareBoard(s.board) && AllEmpty(s) && Shuffles(s, shuffles)
    requires forall c :: c in s.players ==> |s.players[c].pieces| == 25
    ensures forall q :: (forall c :: c in s.players ==> !InArea(c, q)) ==>
      RefAt(DeployUpTo(s, shuffles, |PlayerOrder|), q) == None
  {
    DeployKeepsOtherCells(s, shuffles, |PlayerOrder|);
    forall q | (forall c :: c in s.players ==> !InArea(c, q))
      ensures RefAt(DeployUpTo(s, shuffles, |PlayerOrder|), q) == None
    {
      assert OutsideAreas(s, q, |PlayerOrder|);
      assert RefAt(s, q) == None;
    }
  }

  /** After deploying Active pieces onto an empty board, board and rosters agree. */
  lemma DeployPlaced(s: GameState, shuffles: map<Color, seq<nat>>)
    requires SquareBoard(s.board) && AllEmpty(s) && Shuffles(s, shuffles)
    requires forall c :: c in s.players ==> |s.players[c].pieces| == 25
    requires forall r :: Names(s, r) ==> PieceOf(s, r).status == Active
    ensures Placed(DeployUpTo(s, shuffles, |PlayerOrder|))
  {
    var d := DeployUpTo(s, shuffles, |PlayerOrder|);
    DeployFillsAreas(s, shuffles, |PlayerOrder|);
    DeployLeavesRestEmpty(s, shuffles);
    forall q | RefAt(d, q).Some?
      ensures Names(d, RefAt(d, q).value) && PieceOf(d, RefAt(d, q).value).status == Active &&
        PieceOf(d, RefAt(d, q).value).position == Some(q)
    {
      var c :| c in s.players && InArea(c, q);
      InAreaIffCell(c, q);
      var i := (q.row - AreaRows(c)[0]) * 5 + (q.col - AreaCols(c)[0]);
      assert AreaFilled(s, d, c, shuffles[c]);
      assert RefAt(d, AreaCell(c, i)) == Some(PieceRef(c, shuffles[c][i]));
    }
  }

  /** Deploying standard-sized rosters of Active pieces onto an empty board: each player's shuffled
      pieces fill its area in shuffle order, every other cell stays empty, board and rosters agree,
      and the game is in play. */
  lemma AutoDeployEffect(s: GameState, shuffles: map<Color, seq<nat>>)
    requires SquareBoard(s.board) && AllEmpty(s) && Shuffles(s, shuffles)
    requires forall c :: c in s.players ==> |s.players[c].pieces| == 25
    requires forall r :: Names(s, r) ==> PieceOf(s, r).status == Active
    ensures var s' := AutoDeploy(s, shuffles);
      s' == s.(board := s'.board, players := s'.players, phase := Playing) &&
      (forall c :: c in s.players ==> AreaFilled(s, s', c, shuffles[c])) &&
      (forall q :: (forall c :: c in s.players ==> !InArea(c, q)) ==> RefAt(s', q) == None) &&
      Placed(s')
  {
    var d := DeployUpTo(s, shuffles, |PlayerOrder|);
    var s' := AutoDeploy(s, shuffles);
    DeployFillsAreas(s, shuffles, |PlayerOrder|);
    DeployLeavesRestEmpty(s, shuffles);
    DeployPlaced(s, shuffles);
    assert forall q :: RefAt(s', q) == RefAt(d, q);
    assert forall r :: Names(d, r) ==> Names(s', r) && PieceOf(s', r) == PieceOf(d, r);
    forall c | c in s.players
      ensures AreaFilled(s, s', c, shuffles[c])
    {
      assert AreaFilled(s, d, c, shuffles[c]);
    }
  }
}
