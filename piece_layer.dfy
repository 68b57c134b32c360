/** The deployment half of the piece layer: when the layer is created it makes a new game, gives
    every player its roster and deploys the rosters with the fixed scheme, writing each placed piece's
    position and its board cell in the engine's state, one piece at a time. */
module PieceLayers {
  import opened Common
  import opened Pieces
  import opened GameData
  import opened EngineModel
  import Setup
  import Engine
  import opened Deployment

  class PieceLayer {
    var gameEngine: Engine.GameEngine

    predicate Valid()
      reads this, gameEngine
    {
      gameEngine.Valid()
    }

    /** The layer's `initializeGame`: a new engine whose rosters are deployed with the fixed scheme.
        The groups of the roster are taken by comparing each piece's type with the names as the layer
        writes them, 'Flag', 'Mine' and 'Bomb', which no type value equals: every piece is placed as a
        normal piece and both headquarters cells of every player stay empty. */
    constructor (gameId: Option<string>, generated: string)
      ensures Valid() && fresh(gameEngine)
      ensures gameEngine.state ==
        DeployFixed(Setup.InitializePieces(Setup.InitialState(Setup.ChooseGameId(gameId, generated))), WrittenNames)
      ensures forall c: Color ::
        RefAt(gameEngine.state, HeadquartersPositions(c)[0]) == None && RefAt(gameEngine.state, HeadquartersPositions(c)[1]) == None
    {
      gameEngine := new Engine.GameEngine(gameId, generated);
      new;
      gameEngine.InitializePieces();
      DeployPiecesFixed(WrittenNames);
      forall c: Color
        ensures RefAt(gameEngine.state, HeadquartersPositions(c)[0]) == None &&
          RefAt(gameEngine.state, HeadquartersPositions(c)[1]) == None
      {
        WrittenHeadquartersLeftEmpty(Setup.ChooseGameId(gameId, generated), c);
      }
    }

    /** `deployPiecesFixed`: every player in turn deployed on the cells of its wing. */
    method DeployPiecesFixed(names: TypeNames)
      requires Valid()
      modifies gameEngine
      ensures Valid() && gameEngine.state == DeployFixed(old(gameEngine.state), names)
    {
      ghost var s0 := gameEngine.state;
      for n := 0 to |PlayerOrder|
        invariant gameEngine.Valid() && gameEngine.state == DeployPlayers(s0, names, n)
      {
        var color := PlayerOrder[n];
        if color in gameEngine.state.players {
          DeploymentPositionsOnBoard(color);
          DeployPiecesWithRules(color, PlayerPositions(color), names);
        }
      }
    }

    /** The two writes of one placement: the piece's position, then the board cell. */
    method PlacePiece(ref: PieceRef, cell: Position)
      requires Valid() && Names(gameEngine.state, ref) && OnBoard(cell)
      modifies gameEngine
      ensures Valid() && gameEngine.state == Setup.Place(old(gameEngine.state), ref, cell)
    {
      var piece := PieceOf(gameEngine.state, ref);
      gameEngine.state := SetPiece(gameEngine.state, ref, piece.(position := Some(cell)));
      gameEngine.state := SetCell(gameEngine.state, cell, Some(ref));
    }

    /** `deployPiecesWithRules`: flags on the headquarters cells, mines on the back rows, then normal
        pieces and bombs on consecutive cells of the sorted available positions followed by the
        unused back-row cells. */
    method DeployPiecesWithRules(c: Color, available: seq<Position>, names: TypeNames)
      requires Valid() && c in gameEngine.state.players
      requires forall p :: p in available ==> OnBoard(p)
      modifies gameEngine
      ensures Valid() && gameEngine.state == DeployWithRules(old(gameEngine.state), c, available, names)
    {
      var pieces := gameEngine.state.players[c].pieces;
      PlaceFlagPieces(c, pieces, names);
      var mineIndex := PlaceMinePieces(c, pieces, names);
      PlaceRestPieces(c, pieces, available, names, mineIndex);
    }

    /** Step 1: the flags of `pieces`, in roster order, on the headquarters cells while there are any. */
    method PlaceFlagPieces(c: Color, pieces: seq<Piece>, names: TypeNames)
      requires Valid() && c in gameEngine.state.players && |pieces| <= |gameEngine.state.players[c].pieces|
      modifies gameEngine
      ensures Valid() && gameEngine.state == PlaceFlags(old(gameEngine.state), c, pieces, names)
    {
      ghost var s0 := gameEngine.state;
      var flagPieces := GroupIndices(pieces, names, Flags);
      var headquartersPositions := HeadquartersPositions(c);
      HeadquartersOnBoard(c);
      for index := 0 to |flagPieces|
        invariant gameEngine.Valid()
        invariant gameEngine.state == PlaceAll(s0, c, flagPieces, headquartersPositions, index)
      {
        PlaceFlag(s0, c, flagPieces, headquartersPositions, index);
        assert gameEngine.state == PlaceAll(s0, c, flagPieces, headquartersPositions, index + 1);
      }
    }

    /** One turn of the flag loop: flag `index` on headquarters cell `index` when there is one. */
    method PlaceFlag(ghost s0: GameState, c: Color, flagPieces: seq<nat>, headquartersPositions: seq<Position>, index: nat)
      requires Valid() && SquareBoard(s0.board) && c in s0.players && index < |flagPieces|
      requires forall i :: 0 <= i < |flagPieces| ==> flagPieces[i] < |s0.players[c].pieces|
      requires forall p :: p in headquartersPositions ==> OnBoard(p)
      requires gameEngine.state == PlaceAll(s0, c, flagPieces, headquartersPositions, index)
      modifies gameEngine
      ensures Valid() && gameEngine.state == PlaceAll(s0, c, flagPieces, headquartersPositions, index + 1)
    {
      PlaceAllNext(s0, c, flagPieces, headquartersPositions, index);
      if index < |headquartersPositions| {
        PlacePiece(PieceRef(c, flagPieces[index]), headquartersPositions[index]);
      }
    }

    /** Step 2: the mines of `pieces`, in roster order, on the back-row cells while there are any;
        `mineIndex` ends at the number of back-row cells used. */
    method PlaceMinePieces(c: Color, pieces: seq<Piece>, names: TypeNames) returns (mineIndex: nat)
      requires Valid() && c in gameEngine.state.players && |pieces| <= |gameEngine.state.players[c].pieces|
      modifies gameEngine
      ensures Valid() && gameEngine.state == PlaceMines(old(gameEngine.state), c, pieces, names)
      ensures mineIndex == Setup.Min(|GroupIndices(pieces, names, Mines)|, |LastTwoRows(c)|)
    {
      var minePieces := GroupIndices(pieces, names, Mines);
      LastTwoRowsOnBoard(c);
      mineIndex := PlaceRun(gameEngine.state, c, minePieces, LastTwoRows(c), 0, |minePieces|, 0);
    }

    /** Steps 3 to 5: the normal pieces, then the bombs, on consecutive cells of the sorted available
        positions followed by the back-row cells from `mineIndex` on; `positionIndex` counts the cells
        used and pieces beyond the last cell stay where they are. */
    method PlaceRestPieces(c: Color, pieces: seq<Piece>, available: seq<Position>, names: TypeNames, mineIndex: nat)
      requires Valid() && c in gameEngine.state.players && |pieces| <= |gameEngine.state.players[c].pieces|
      requires forall p :: p in available ==> OnBoard(p)
      requires mineIndex == Setup.Min(|GroupIndices(pieces, names, Mines)|, |LastTwoRows(c)|)
      modifies gameEngine
      ensures Valid() && gameEngine.state == PlaceRest(old(gameEngine.state), c, pieces, available, names)
    {
      var sortedPositions := SortByDistance(available);
      var remainingLastTwoRows := LastTwoRows(c)[mineIndex..];
      var allAvailablePositions := sortedPositions + remainingLastTwoRows;
      assert allAvailablePositions == RestCells(pieces, c, available, names);
      RestCellsOnBoard(pieces, c, available, names);
      NormalsThenBombs(pieces, names);
      var normalPieces := GroupIndices(pieces, names, Normals);
      var bombPieces := GroupIndices(pieces, names, Bombs);
      PlaceRestOn(c, normalPieces, bombPieces, allAvailablePositions);
    }

    /** The loops of steps 4 and 5 over the cells `allAvailablePositions`, sharing `positionIndex`. */
    method PlaceRestOn(c: Color, normalPieces: seq<nat>, bombPieces: seq<nat>, allAvailablePositions: seq<Position>)
      requires Valid() && c in gameEngine.state.players
      requires forall i :: 0 <= i < |normalPieces + bombPieces| ==> (normalPieces + bombPieces)[i] < |gameEngine.state.players[c].pieces|
      requires forall p :: p in allAvailablePositions ==> OnBoard(p)
      modifies gameEngine
      ensures Valid()
      ensures gameEngine.state ==
        PlaceAll(old(gameEngine.state), c, normalPieces + bombPieces, allAvailablePositions, |normalPieces + bombPieces|)
    {
      ghost var s0 := gameEngine.state;
      var positionIndex := PlaceRun(s0, c, normalPieces + bombPieces, allAvailablePositions, 0, |normalPieces|, 0);
      positionIndex := PlaceRun(s0, c, normalPieces + bombPieces, allAvailablePositions,
                                |normalPieces|, |normalPieces + bombPieces|, positionIndex);
    }

    /** The loop of step 2 and each of the loops of steps 4 and 5: the entries `rest[lo]` to `rest[hi - 1]` on consecutive
        cells from `positionIndex` on, while there are cells left. */
    method PlaceRun(ghost s0: GameState, c: Color, rest: seq<nat>, cells: seq<Position>, lo: nat, hi: nat, positionIndex: nat)
      returns (next: nat)
      requires Valid() && SquareBoard(s0.board) && c in s0.players && lo <= hi <= |rest|
      requires forall i :: 0 <= i < |rest| ==> rest[i] < |s0.players[c].pieces|
      requires forall p :: p in cells ==> OnBoard(p)
      requires gameEngine.state == PlaceAll(s0, c, rest, cells, lo)
      requires positionIndex == Setup.Min(lo, |cells|)
      modifies gameEngine
      ensures Valid() && gameEngine.state == PlaceAll(s0, c, rest, cells, hi)
      ensures next == Setup.Min(hi, |cells|)
    {
      next := positionIndex;
      for k := lo to hi
        invariant next == Setup.Min(k, |cells|)
        invariant gameEngine.state == PlaceAll(s0, c, rest, cells, k)
      {
        next := PlaceNext(s0, c, rest, cells, k, next);
        assert gameEngine.state == PlaceAll(s0, c, rest, cells, k + 1);
      }
    }

    /** One turn of those loops: entry `rest[k]` on cell `positionIndex` when there is one. */
    method PlaceNext(ghost s0: GameState, c: Color, rest: seq<nat>, cells: seq<Position>, k: nat, positionIndex: nat)
      returns (next: nat)
      requires Valid() && SquareBoard(s0.board) && c in s0.players && k < |rest|
      requires forall i :: 0 <= i < |rest| ==> rest[i] < |s0.players[c].pieces|
      requires forall p :: p in cells ==> OnBoard(p)
      requires gameEngine.state == PlaceAll(s0, c, rest, cells, k)
      requires positionIndex == Setup.Min(k, |cells|)
      modifies gameEngine
      ensures Valid() && gameEngine.state == PlaceAll(s0, c, rest, cells, k + 1)
      ensures next == Setup.Min(k + 1, |cells|)
    {
      PlaceAllNext(s0, c, rest, cells, k);
      next := positionIndex;
      if next < |cells| {
        PlacePiece(PieceRef(c, rest[k]), cells[next]);
        next := next + 1;
      }
    }
  }

  /** One more placement of `PlaceAll`: entry `idx[n]` on `cells[n]` when that cell exists. */
  lemma PlaceAllNext(s: GameState, c: Color, idx: seq<nat>, cells: seq<Position>, n: nat)
    requires SquareBoard(s.board) && c in s.players && n < |idx|
    requires forall i :: 0 <= i < |idx| ==> idx[i] < |s.players[c].pieces|
    requires forall p :: p in cells ==> OnBoard(p)
    ensures Names(PlaceAll(s, c, idx, cells, n), PieceRef(c, idx[n]))
    ensures n < |cells| ==> (OnBoard(cells[n]) &&
      PlaceAll(s, c, idx, cells, n + 1) == Setup.Place(PlaceAll(s, c, idx, cells, n), PieceRef(c, idx[n]), cells[n]))
    ensures |cells| <= n ==> PlaceAll(s, c, idx, cells, n + 1) == PlaceAll(s, c, idx, cells, n)
  {
  }
}
