/** The `GameEngine` class: it owns the game state and changes it in place, step by step, as the
    engine's methods do. Each method is proved to leave the state that the corresponding step of
    EngineModel or Setup describes, so everything proved about those steps holds of the engine. */
module Engine {
  import opened Common
  import opened Pieces
  import opened Rules
  import opened Moves
  import opened GameData
  import opened EngineModel
  import opened Setup

  /** The pieces of a roster `getCurrentPlayerMovablePieces` reports: Active, on the board, and with
      at least one possible move (attacks included) on `board`. */
  function MovableIn(pieces: seq<Piece>, board: Board): seq<Piece>
    requires |board| > 0
  {
    if pieces == [] then []
    else
      (if Movable(pieces[0], board) then [pieces[0]] else []) + MovableIn(pieces[1..], board)
  }

  predicate Movable(p: Piece, board: Board)
    requires |board| > 0
  {
    p.status == Active && p.position.Some? && |PossibleMoves(p, board, true)| > 0
  }

  /** A piece is reported exactly when it is in the roster, Active, placed, and able to move. */
  lemma {:induction false} MovableInMembers(pieces: seq<Piece>, board: Board, p: Piece)
    requires |board| > 0
    ensures p in MovableIn(pieces, board) <==>
      p in pieces && p.status == Active && p.position.Some? && |PossibleMoves(p, board, true)| > 0
  {
    if pieces != [] {
      MovableInMembers(pieces[1..], board, p);
      assert pieces == [pieces[0]] + pieces[1..];
    }
  }

  /** The report keeps roster order: it is the roster with the other pieces dropped. */
  lemma {:induction false} MovableInOrder(pieces: seq<Piece>, board: Board, k: nat)
    requires |board| > 0 && k <= |pieces|
    ensures MovableIn(pieces, board) == MovableIn(pieces[..k], board) + MovableIn(pieces[k..], board)
  {
    if k > 0 {
      var rest, prefix := pieces[1..], pieces[..k];
      MovableInOrder(rest, board, k - 1);
      assert prefix[0] == pieces[0] && prefix[1..] == rest[..k - 1];
      assert pieces[k..] == rest[k - 1..];
    }
  }

  /** One more piece of a kind block: the piece created with the next ordinal's id. */
  lemma KindBlockNext(color: Color, kind: Kind, i: nat)
    requires i < RosterCount(kind)
    ensures KindBlock(color, kind)[..i + 1] == KindBlock(color, kind)[..i] +
      [CreatePiece(kind, color, Position(0, 0), Some(ColorTag(color) + "_" + (KindTag(kind) + "_" + NatToString(i))), 0)]
  {
    assert KindBlock(color, kind)[i] == RosterPiece(color, kind, i);
  }

  /** The pieces `getCurrentPlayerMovablePieces` returns for the state. */
  function MovablePieces(s: GameState): seq<Piece>
    requires SquareBoard(s.board)
  {
    var c := s.turnInfo.currentPlayer;
    if c in s.players then MovableIn(s.players[c].pieces, View(s)) else []
  }

  class GameEngine {
    var state: GameState

    /** The board keeps its 17×17 shape. */
    predicate Valid()
      reads this
    {
      SquareBoard(state.board)
    }

    /** A new engine holds the state `initializeGame` builds, under the given id or, when none is
        given, under the generated one. */
    constructor (gameId: Option<string>, generated: string)
      ensures state == InitialState(ChooseGameId(gameId, generated))
      ensures Valid()
    {
      state := InitialState(ChooseGameId(gameId, generated));
    }

    /** `createPlayerPieces`: for each kind of the roster table in turn, as many pieces as the table
        says, each with the id `<color>_<kind>_<ordinal>`. */
    method CreatePlayerPieces(color: Color) returns (pieces: seq<Piece>)
      ensures pieces == PlayerPieces(color)
      ensures |pieces| == 25
    {
      pieces := [];
      for t := 0 to |KindOrder|
        invariant pieces == RosterUpTo(color, t)
      {
        pieces := PushKind(color, KindOrder[t], pieces);
      }
      RosterUpToLength(color, |KindOrder|);
      RosterSizes();
    }

    /** The inner loop of `createPlayerPieces`: the pieces of one kind pushed in ordinal order. */
    static method PushKind(color: Color, kind: Kind, pieces0: seq<Piece>) returns (pieces: seq<Piece>)
      ensures pieces == pieces0 + KindBlock(color, kind)
    {
      pieces := pieces0;
      for i := 0 to RosterCount(kind)
        invariant pieces == pieces0 + KindBlock(color, kind)[..i]
      {
        var id := ColorTag(color) + "_" + (KindTag(kind) + "_" + NatToString(i));
        var piece := CreatePiece(kind, color, Position(0, 0), Some(id), 0);
        KindBlockNext(color, kind, i);
        pieces := pieces + [piece];
      }
      assert KindBlock(color, kind)[..RosterCount(kind)] == KindBlock(color, kind);
    }

    /** `initializePieces`: every player gets the standard roster of its color, in creation order. */
    method InitializePieces()
      modifies this
      ensures state == Setup.InitializePieces(old(state))
    {
      ghost var s0 := state;
      for n := 0 to |PlayerOrder|
        invariant state == RostersUpTo(s0, n)
      {
        var color := PlayerOrder[n];
        if color in state.players {
          var pieces := CreatePlayerPieces(color);
          state := state.(players := state.players[color := state.players[color].(pieces := pieces)]);
        }
      }
    }

    /** `autoDeployPieces`: each player's shuffled roster goes onto its 5×5 area row by row, 25
        pieces at most, and the game starts. The shuffle of each roster is given. */
    method AutoDeployPieces(shuffles: map<Color, seq<nat>>)
      requires Valid() && Shuffles(state, shuffles)
      modifies this
      ensures state == AutoDeploy(old(state), shuffles)
      ensures Valid()
    {
      ghost var s0 := state;
      for n := 0 to |PlayerOrder|
        invariant state == DeployUpTo(s0, shuffles, n)
      {
        var color := PlayerOrder[n];
        if color in state.players {
          var order := shuffles[color];
          ghost var s1 := state;
          var positionIndex := 0;
          for j := 0 to |order|
            invariant positionIndex == Min(j, 25)
            invariant state == PlaceUpTo(s1, color, order, positionIndex)
          {
            if positionIndex < 25 {
              var cell := AreaCell(color, positionIndex);
              AreaCellsDistinct(color, positionIndex, color, positionIndex);
              var ref := PieceRef(color, order[j]);
              state := SetPiece(state, ref, PieceOf(state, ref).(position := Some(cell)));
              state := SetCell(state, cell, Some(ref));
              positionIndex := positionIndex + 1;
            }
          }
        }
      }
      state := state.(phase := Playing);
    }

    /** `makeMove`: a refused move returns its error and changes nothing; an accepted one leaves
        the state `MakeMove` describes and returns its record. */
    method MakeMove(from: Position, to: Position) returns (r: Result<MoveRecord, EngineError>)
      requires Valid()
      modifies this
      ensures Valid()
      ensures EngineModel.MakeMove(old(state), from, to).Err? ==>
        state == old(state) && r == Err(EngineModel.MakeMove(old(state), from, to).error)
      ensures EngineModel.MakeMove(old(state), from, to).Ok? ==>
        state == EngineModel.MakeMove(old(state), from, to).value.0 &&
        r == Ok(EngineModel.MakeMove(old(state), from, to).value.1)
    {
      var ref := RefAt(state, from);
      var piece := Resolve(state, ref);
      if piece.None? {
        return Err(NoPieceAtSource);
      }
      if piece.value.owner != state.turnInfo.currentPlayer {
        return Err(NotYourTurn);
      }
      var moveResult := ValidateMove(piece.value, from, to, View(state));
      if moveResult.check.Invalid? {
        return Err(IllegalMove(moveResult.check.reason));
      }
      ghost var s0 := state;
      AcceptedMoveReady(state, from, to);
      var record := ExecuteMoveOnBoard(ref.value, from, to);
      CheckGameEnd();
      if state.phase == Playing {
        NextTurn();
      }
      ConcludeKeepsBoard(Executed(s0, from, to).0);
      r := Ok(record);
    }

    /** `executeMoveOnBoard`: fight any piece on `to`, marking each eliminated fighter and clearing
        its cell, move the mover if it is still Active, and append the record, whose battle details
        show the fighters as the move left them. */
    method ExecuteMoveOnBoard(m: PieceRef, from: Position, to: Position) returns (record: MoveRecord)
      requires MoveReady(state, m, from, to)
      modifies this
      ensures (state, record) == ExecuteMove(old(state), m, from, to)
    {
      ghost var s0 := state;
      var target := RefAt(state, to);
      var details: Option<Battle> := None;
      if Resolve(state, target).Some? {
        var t := target.value;
        var attacker := PieceOf(state, m);
        var defender := PieceOf(state, t);
        var resolved := ResolveBattle(attacker, defender).value;
        if attacker in resolved.eliminated {
          state := Eliminate(state, m);
          state := SetCell(state, from, None);
        }
        if defender in resolved.eliminated {
          state := Eliminate(state, t);
          state := SetCell(state, to, None);
        }
        details := Some(resolved);
        assert (state, resolved) == Fight(s0, m, t, from, to);
      }
      var piece := PieceOf(state, m);
      if piece.status == Active {
        state := SetCell(state, from, None);
        state := SetCell(state, to, Some(m));
        state := SetPiece(state, m, piece.(position := Some(to)));
      }
      var moved := PieceOf(state, m);
      // the details hold the fighters themselves, so they show them as the move left them
      var battle := if details.Some? then Some(Settle(details.value, moved, PieceOf(state, target.value))) else None;
      record := MoveRecord(moved.owner, moved, from, to, battle, state.turnInfo.turnNumber);
      state := state.(moveHistory := state.moveHistory + [record]);
    }

    /** `checkGameEnd`: mark every alive player whose roster is defeated, then finish the game if an
        alliance has won on the Active rosters. */
    method CheckGameEnd()
      modifies this
      ensures state == EngineModel.CheckGameEnd(old(state))
    {
      ghost var s0 := state;
      var allPlayerPieces := ActiveRosters(state);
      for n := 0 to |PlayerOrder|
        invariant state == DefeatPass(s0, n)
      {
        DefeatStep(s0, n);
      }
      var winningAlliance := CheckAllianceVictory(allPlayerPieces);
      if winningAlliance.Some? {
        state := state.(winningAlliance := winningAlliance, phase := Finished);
      }
    }

    /** One turn of the defeat loop in `checkGameEnd`: the player at position `n` of the order is
        marked defeated, with the current turn number, when alive and without a movable piece. */
    method DefeatStep(ghost s0: GameState, n: nat)
      requires n < |PlayerOrder| && state == DefeatPass(s0, n)
      modifies this
      ensures state == DefeatPass(s0, n + 1)
    {
      DefeatPassEffect(s0, n);
      var color := PlayerOrder[n];
      if color in state.players {
        var player := state.players[color];
        if player.isAlive && IsPlayerDefeated(player.pieces) {
          var defeated := player.(isAlive := false, defeatedAt := Some(state.turnInfo.turnNumber));
          state := state.(players := state.players[color := defeated]);
        }
      }
    }

    /** `nextTurn`: step through the turn order from the current player until an alive player is
        found or the order comes back round, then count the turn and reset the clock. */
    method NextTurn()
      modifies this
      ensures state == EngineModel.NextTurn(old(state))
    {
      ghost var s0 := state;
      var start := ColorIndex(state.turnInfo.currentPlayer);
      var currentIndex := start;
      ghost var k: nat := 0;
      while true
        invariant 0 <= k < 4 && currentIndex == (start + k) % 4
        invariant state == s0
        invariant forall j :: 1 <= j <= k ==> !AliveIn(s0, ColorAt(start, j))
        decreases 4 - k
      {
        currentIndex := (currentIndex + 1) % 4;
        k := k + 1;
        var nextPlayer := PlayerOrder[currentIndex];
        if nextPlayer in state.players && state.players[nextPlayer].isAlive {
          assert AliveIn(s0, ColorAt(start, k));
          state := state.(turnInfo := state.turnInfo.(currentPlayer := nextPlayer));
          break;
        }
        if currentIndex == start {
          break;
        }
      }
      if state.turnInfo.currentPlayer == Red {
        state := state.(turnInfo := state.turnInfo.(turnNumber := state.turnInfo.turnNumber + 1));
      }
      state := state.(turnInfo := state.turnInfo.(timeRemaining := TurnTimeLimit));
    }

    /** One second of the turn timer: the clock goes down and the turn passes at zero. */
    method Tick()
      modifies this
      ensures state == EngineModel.Tick(old(state))
    {
      state := state.(turnInfo := state.turnInfo.(timeRemaining := state.turnInfo.timeRemaining - 1));
      if state.turnInfo.timeRemaining <= 0 {
        NextTurn();
      }
    }

    /** `getGameState`: the state itself (the source hands out a shallow copy that still shares the
        players, the board and the pieces). */
    function GetGameState(): GameState
      reads this
    {
      state
    }

    /** `getPlayerPieces`: a copy of a player's roster, empty for a color without a player. */
    function GetPlayerPieces(player: Color): (pieces: seq<Piece>)
      reads this
      ensures player in state.players ==> pieces == state.players[player].pieces
      ensures player !in state.players ==> pieces == []
    {
      if player in state.players then state.players[player].pieces else []
    }

    /** `getPieceAtPosition`: the piece on a board cell, nothing off the board. On a board whose
        references agree with the rosters, the piece found there knows it stands on that cell. */
    function GetPieceAtPosition(position: Position): (o: Option<Piece>)
      requires Valid()
      reads this
      ensures o.Some? ==> OnBoard(position)
      ensures OnBoard(position) ==> o == At(View(state), position)
      ensures Placed(state) && o.Some? ==> o.value.status == Active && o.value.position == Some(position)
    {
      if OnBoard(position) then
        ViewAt(state, position);
        Resolve(state, state.board[position.row][position.col])
      else None
    }

    /** `getCurrentPlayerMovablePieces`: the current player's roster filtered to the pieces that
        are Active, placed and have a possible move. */
    method GetCurrentPlayerMovablePieces() returns (pieces: seq<Piece>)
      requires Valid()
      ensures pieces == MovablePieces(state)
    {
      var color := state.turnInfo.currentPlayer;
      if color !in state.players {
        return [];
      }
      var roster := state.players[color].pieces;
      var board := View(state);
      pieces := [];
      for i := 0 to |roster|
        invariant pieces == MovableIn(roster[..i], board)
      {
        var piece := roster[i];
        if piece.status == Active && piece.position.Some? {
          var moves := GetPossibleMoves(piece, board, true);
          if |moves| > 0 {
            pieces := pieces + [piece];
          }
        }
        MovableInOrder(roster[..i + 1], board, i);
        assert roster[..i + 1][..i] == roster[..i];
        assert roster[..i + 1][i..] == [piece];
      }
      assert roster[..|roster|] == roster;
    }

    /** `destroy`: the game is over; the timer it also stops is not modelled. */
    method Destroy()
      modifies this
      ensures state == old(state).(phase := Finished)
    {
      state := state.(phase := Finished);
    }
  }
}
