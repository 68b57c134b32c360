/** The integrity check `GameStateValidator` runs over a game: basic fields, board shape, players
    and their rosters, and agreement between the board and the rosters. Every check appends its
    errors in a fixed order; the game is valid exactly when no error was reported, which is proved
    to mean that the game is `Consistent`. */
module Validation {
  import opened Common
  import opened Pieces
  import opened GameData
  import opened EngineModel

  /** What the roster check reports. */
  datatype PieceError = WrongPieceCount(count: nat) | DuplicatePieceIds | WrongOwner(index: nat)

  /** What the game check reports, in the order the checks run. */
  datatype StateError =
    | MissingGameId
    | WrongRowCount
    | WrongColumnCount
    | WrongPlayerCount(count: nat)
    | MissingPlayer(color: Color)
    | PlayerError(color: Color, error: PieceError)
    | PositionMismatch(id: string)
    | DuplicateOnBoard(id: string)
    | NotAtExpectedPosition(id: string)

  // ---------------------------------------------------------------- one roster

  /** The set of ids of a roster, as the duplicate check collects it. */
  function IdSet(pieces: seq<Piece>): set<string> {
    if pieces == [] then {} else IdSet(pieces[..|pieces| - 1]) + {pieces[|pieces| - 1].id}
  }

  predicate DistinctIds(pieces: seq<Piece>) {
    forall i, j :: 0 <= i < j < |pieces| ==> pieces[i].id != pieces[j].id
  }

  /** The duplicate check compares the size of the id set with the size of the roster. */
  function HasDuplicateIds(pieces: seq<Piece>): bool {
    |IdSet(pieces)| != |pieces|
  }

  /** The id set holds the ids of the roster and nothing else. */
  lemma {:induction false} IdSetMembers(pieces: seq<Piece>)
    ensures forall x :: x in IdSet(pieces) <==> exists i :: 0 <= i < |pieces| && pieces[i].id == x
  {
    if pieces != [] {
      var prefix := pieces[..|pieces| - 1];
      IdSetMembers(prefix);
      assert forall i :: 0 <= i < |prefix| ==> prefix[i] == pieces[i];
    }
  }

  /** The id set has as many elements as the roster exactly when no two pieces share an id, and
      never more. */
  lemma {:induction false} IdSetSize(pieces: seq<Piece>)
    ensures |IdSet(pieces)| <= |pieces|
    ensures |IdSet(pieces)| == |pieces| <==> DistinctIds(pieces)
  {
    if pieces != [] {
      var prefix := pieces[..|pieces| - 1];
      var last := pieces[|pieces| - 1];
      IdSetSize(prefix);
      IdSetMembers(prefix);
      assert forall i :: 0 <= i < |prefix| ==> prefix[i] == pieces[i];
      if last.id in IdSet(prefix) {
        var i :| 0 <= i < |prefix| && prefix[i].id == last.id;
        assert pieces[i].id == pieces[|pieces| - 1].id;
        assert IdSet(pieces) == IdSet(prefix);
      } else {
        assert |IdSet(pieces)| == |IdSet(prefix)| + 1;
        if DistinctIds(prefix) {
          forall i, j | 0 <= i < j < |pieces|
            ensures pieces[i].id != pieces[j].id
          {
            if j == |pieces| - 1 {
              assert prefix[i].id in IdSet(prefix);
            }
          }
        }
      }
    }
  }

  /** The duplicate check fires exactly when two pieces of the roster share an id. */
  lemma DuplicateIdsIff(pieces: seq<Piece>)
    ensures HasDuplicateIds(pieces) <==> !DistinctIds(pieces)
  {
    IdSetSize(pieces);
  }

  /** One error per piece of the first `k` whose owner is not `color`, in roster order. */
  function OwnerErrors(pieces: seq<Piece>, color: Color, k: nat): seq<PieceError>
    requires k <= |pieces|
  {
    if k == 0 then []
    else OwnerErrors(pieces, color, k - 1) + if pieces[k - 1].owner != color then [WrongOwner(k - 1)] else []
  }

  lemma {:induction false} OwnerErrorsEmpty(pieces: seq<Piece>, color: Color, k: nat)
    requires k <= |pieces|
    ensures OwnerErrors(pieces, color, k) == [] <==> forall i :: 0 <= i < k ==> pieces[i].owner == color
  {
    if k > 0 {
      OwnerErrorsEmpty(pieces, color, k - 1);
    }
  }

  /** `validatePlayerPieces`: the size check, the duplicate check, then the owner of every piece. */
  function PieceErrors(player: Player): seq<PieceError> {
    var pieces := player.pieces;
    (if |pieces| != 25 then [WrongPieceCount(|pieces|)] else []) +
    (if HasDuplicateIds(pieces) then [DuplicatePieceIds] else []) +
    OwnerErrors(pieces, player.color, |pieces|)
  }

  /** A roster passes exactly when it has 25 pieces with distinct ids, all owned by the player. */
  lemma PieceErrorsEmpty(player: Player)
    ensures PieceErrors(player) == [] <==>
      |player.pieces| == 25 && DistinctIds(player.pieces) &&
      forall i :: 0 <= i < |player.pieces| ==> player.pieces[i].owner == player.color
  {
    DuplicateIdsIff(player.pieces);
    OwnerErrorsEmpty(player.pieces, player.color, |player.pieces|);
  }

  method ValidatePlayerPieces(player: Player) returns (isValid: bool, errors: seq<PieceError>)
    ensures errors == PieceErrors(player)
    ensures isValid <==> errors == []
  {
    errors := [];
    if |player.pieces| != 25 {
      errors := errors + [WrongPieceCount(|player.pieces|)];
    }
    if HasDuplicateIds(player.pieces) {
      errors := errors + [DuplicatePieceIds];
    }
    ghost var checked := errors;
    for i := 0 to |player.pieces|
      invariant errors == checked + OwnerErrors(player.pieces, player.color, i)
    {
      if player.pieces[i].owner != player.color {
        errors := errors + [WrongOwner(i)];
      }
    }
    isValid := |errors| == 0;
  }

  // ---------------------------------------------------------------- board against rosters

  /** The piece a board cell holds, if any. */
  function Occupant(s: GameState, p: Position): Option<Piece> {
    Resolve(s, RefAt(s, p))
  }

  /** The cells of row `r`, left to right. */
  function RowCells(r: int, n: nat): (cells: seq<Position>)
    ensures |cells| == n && forall i :: 0 <= i < n ==> cells[i] == Position(r, i)
  {
    seq(n, c requires 0 <= c < n => Position(r, c))
  }

  /** The cells of the first `r` rows in the order the board scan visits them. */
  function Cells(board: seq<seq<Option<PieceRef>>>, r: nat): seq<Position>
    requires r <= |board|
  {
    if r == 0 then [] else Cells(board, r - 1) + RowCells(r - 1, |board[r - 1]|)
  }

  /** The scan visits every cell of the first `r` rows once and nothing else. */
  lemma {:induction false} CellsFacts(board: seq<seq<Option<PieceRef>>>, r: nat)
    requires r <= |board|
    ensures forall i :: 0 <= i < |Cells(board, r)| ==>
      0 <= Cells(board, r)[i].row < r && 0 <= Cells(board, r)[i].col < |board[Cells(board, r)[i].row]|
    ensures forall p: Position :: 0 <= p.row < r && 0 <= p.col < |board[p.row]| ==> p in Cells(board, r)
    ensures forall i, j :: 0 <= i < j < |Cells(board, r)| ==> Cells(board, r)[i] != Cells(board, r)[j]
  {
    if r > 0 {
      CellsFacts(board, r - 1);
      var prev := Cells(board, r - 1);
      var row := RowCells(r - 1, |board[r - 1]|);
      var all := Cells(board, r);
      assert all == prev + row;
      forall p: Position | 0 <= p.row < r && 0 <= p.col < |board[p.row]|
        ensures p in all
      {
        if p.row == r - 1 {
          assert all[|prev| + p.col] == p;
        } else {
          assert p in prev;
        }
      }
    }
  }

  /** What the board scan has found so far: its errors and the ids it has seen. */
  datatype Scan = Scan(errors: seq<StateError>, seen: set<string>)

  /** One cell of the scan: an occupant must know its cell and must not have been seen before. */
  function ScanCell(s: GameState, acc: Scan, p: Position): Scan {
    var o := Occupant(s, p);
    if o.None? then acc
    else
      var q := o.value;
      Scan(acc.errors + (if q.position != Some(p) then [PositionMismatch(q.id)] else []) +
             (if q.id in acc.seen then [DuplicateOnBoard(q.id)] else []),
           acc.seen + {q.id})
  }

  /** The scan over a list of cells, in order. */
  function ScanCells(s: GameState, cells: seq<Position>): Scan {
    if cells == [] then Scan([], {}) else ScanCell(s, ScanCells(s, cells[..|cells| - 1]), cells[|cells| - 1])
  }

  /** The ids the scan has seen are those of the occupants of the visited cells. */
  lemma {:induction false} ScanSeen(s: GameState, cells: seq<Position>)
    ensures forall x :: x in ScanCells(s, cells).seen <==>
      exists i :: 0 <= i < |cells| && Occupant(s, cells[i]).Some? && Occupant(s, cells[i]).value.id == x
  {
    if cells != [] {
      var prefix := cells[..|cells| - 1];
      ScanSeen(s, prefix);
      assert forall i :: 0 <= i < |prefix| ==> prefix[i] == cells[i];
    }
  }

  /** Every occupant of the listed cells claims the cell it is on. */
  predicate CellsKnown(s: GameState, cells: seq<Position>) {
    forall i :: 0 <= i < |cells| && Occupant(s, cells[i]).Some? ==> Occupant(s, cells[i]).value.position == Some(cells[i])
  }

  /** No two of the listed cells hold pieces with the same id. */
  predicate CellIdsDistinct(s: GameState, cells: seq<Position>) {
    forall i, j :: 0 <= i < j < |cells| && Occupant(s, cells[i]).Some? && Occupant(s, cells[j]).Some? ==>
      Occupant(s, cells[i]).value.id != Occupant(s, cells[j]).value.id
  }

  /** The scan reports nothing exactly when each occupant knows its cell and no id repeats. */
  lemma {:induction false} ScanErrors(s: GameState, cells: seq<Position>)
    ensures ScanCells(s, cells).errors == [] <==> CellsKnown(s, cells) && CellIdsDistinct(s, cells)
  {
    if cells != [] {
      ScanErrors(s, cells[..|cells| - 1]);
      KnownSnoc(s, cells);
      DistinctSnoc(s, cells);
    }
  }

  /** Extending the cells by one keeps them known exactly when the new cell's occupant knows it. */
  lemma KnownSnoc(s: GameState, cells: seq<Position>)
    requires cells != []
    ensures CellsKnown(s, cells) <==>
      (CellsKnown(s, cells[..|cells| - 1]) &&
       (Occupant(s, cells[|cells| - 1]).Some? ==> Occupant(s, cells[|cells| - 1]).value.position == Some(cells[|cells| - 1])))
  {
    var prefix := cells[..|cells| - 1];
    assert forall i :: 0 <= i < |prefix| ==> prefix[i] == cells[i];
  }

  /** Extending the cells by one keeps the ids distinct exactly when the new occupant's id is unseen. */
  lemma DistinctSnoc(s: GameState, cells: seq<Position>)
    requires cells != []
    ensures CellIdsDistinct(s, cells) <==>
      (CellIdsDistinct(s, cells[..|cells| - 1]) &&
       (Occupant(s, cells[|cells| - 1]).Some? ==> Occupant(s, cells[|cells| - 1]).value.id !in ScanCells(s, cells[..|cells| - 1]).seen))
  {
    var prefix := cells[..|cells| - 1];
    var last := |cells| - 1;
    ScanSeen(s, prefix);
    assert forall i :: 0 <= i < |prefix| ==> prefix[i] == cells[i];
    var o := Occupant(s, cells[last]);
    if o.Some? && o.value.id in ScanCells(s, prefix).seen {
      var i :| 0 <= i < |prefix| && Occupant(s, prefix[i]).Some? && Occupant(s, prefix[i]).value.id == o.value.id;
      assert Occupant(s, cells[i]).value.id == Occupant(s, cells[last]).value.id;
    }
  }

  /** An Active roster piece that claims a cell must be what that cell holds, compared by id. */
  predicate AtExpectedCell(s: GameState, piece: Piece) {
    piece.status == Active && piece.position.Some? ==>
      Occupant(s, piece.position.value).Some? && Occupant(s, piece.position.value).value.id == piece.id
  }

  /** One error for each of the first `k` pieces of a roster that is not where it claims to be. */
  function ExpectedCellErrors(s: GameState, pieces: seq<Piece>, k: nat): seq<StateError>
    requires k <= |pieces|
  {
    if k == 0 then []
    else ExpectedCellErrors(s, pieces, k - 1) + if AtExpectedCell(s, pieces[k - 1]) then [] else [NotAtExpectedPosition(pieces[k - 1].id)]
  }

  /** The roster half of the board check for the players of the first `n` colors. */
  function RosterCellErrors(s: GameState, n: nat): seq<StateError>
    requires n <= |PlayerOrder|
  {
    if n == 0 then []
    else
      var c := PlayerOrder[n - 1];
      RosterCellErrors(s, n - 1) +
        if c in s.players then ExpectedCellErrors(s, s.players[c].pieces, |s.players[c].pieces|) else []
  }

  lemma {:induction false} ExpectedCellErrorsEmpty(s: GameState, pieces: seq<Piece>, k: nat)
    requires k <= |pieces|
    ensures ExpectedCellErrors(s, pieces, k) == [] <==> forall i :: 0 <= i < k ==> AtExpectedCell(s, pieces[i])
  {
    if k > 0 {
      ExpectedCellErrorsEmpty(s, pieces, k - 1);
    }
  }

  lemma {:induction false} RosterCellErrorsEmpty(s: GameState, n: nat)
    requires n <= |PlayerOrder|
    ensures RosterCellErrors(s, n) == [] <==>
      forall r :: Names(s, r) && ColorIndex(r.owner) < n ==> AtExpectedCell(s, PieceOf(s, r))
  {
    if n > 0 {
      RosterCellErrorsEmpty(s, n - 1);
      var c := PlayerOrder[n - 1];
      if c in s.players {
        var pieces := s.players[c].pieces;
        ExpectedCellErrorsEmpty(s, pieces, |pieces|);
        if ExpectedCellErrors(s, pieces, |pieces|) != [] {
          var i :| 0 <= i < |pieces| && !AtExpectedCell(s, pieces[i]);
          assert !AtExpectedCell(s, PieceOf(s, PieceRef(c, i)));
        }
      }
    }
  }

  /** `validateBoardConsistency`: the scan of the board, then the roster pieces against the board. */
  function BoardErrors(s: GameState): seq<StateError> {
    ScanCells(s, Cells(s.board, |s.board|)).errors + RosterCellErrors(s, |PlayerOrder|)
  }

  method ValidateBoardConsistency(s: GameState) returns (isValid: bool, errors: seq<StateError>)
    ensures errors == BoardErrors(s)
    ensures isValid <==> errors == []
  {
    var scanErrors := ScanBoard(s);
    var rosterErrors := CheckRosterCells(s);
    errors := scanErrors + rosterErrors;
    isValid := |errors| == 0;
  }

  /** The first loop of `validateBoardConsistency`: every occupied cell, row by row. */
  method ScanBoard(s: GameState) returns (errors: seq<StateError>)
    ensures errors == ScanCells(s, Cells(s.board, |s.board|)).errors
  {
    errors := [];
    var boardPieces: set<string> := {};
    for row := 0 to |s.board|
      invariant Scan(errors, boardPieces) == ScanCells(s, Cells(s.board, row))
    {
      errors, boardPieces := ScanRow(s, row, errors, boardPieces);
    }
  }

  /** One row of that loop, carrying the errors and the ids seen so far. */
  method ScanRow(s: GameState, row: nat, errors0: seq<StateError>, seen0: set<string>)
    returns (errors: seq<StateError>, boardPieces: set<string>)
    requires row < |s.board|
    requires Scan(errors0, seen0) == ScanCells(s, Cells(s.board, row))
    ensures Scan(errors, boardPieces) == ScanCells(s, Cells(s.board, row + 1))
  {
    errors, boardPieces := errors0, seen0;
    ghost var done := Cells(s.board, row);
    ghost var cells := RowCells(row, |s.board[row]|);
    assert done + cells[..0] == done;
    for col := 0 to |s.board[row]|
      invariant Scan(errors, boardPieces) == ScanCells(s, done + cells[..col])
    {
      ghost var visited := done + cells[..col];
      errors, boardPieces := ScanOne(s, row, col, errors, boardPieces);
      assert done + cells[..col + 1] == visited + [Position(row, col)];
      ScanStep(s, visited, Position(row, col));
    }
    assert cells[..|s.board[row]|] == cells;
  }

  /** The body of that loop for the cell `(row, col)`. */
  method ScanOne(s: GameState, row: nat, col: nat, errors0: seq<StateError>, seen0: set<string>)
    returns (errors: seq<StateError>, boardPieces: set<string>)
    requires row < |s.board| && col < |s.board[row]|
    ensures Scan(errors, boardPieces) == ScanCell(s, Scan(errors0, seen0), Position(row, col))
  {
    errors, boardPieces := errors0, seen0;
    var piece := Resolve(s, s.board[row][col]);
    if piece.Some? {
      if piece.value.position != Some(Position(row, col)) {
        errors := errors + [PositionMismatch(piece.value.id)];
      }
      if piece.value.id in boardPieces {
        errors := errors + [DuplicateOnBoard(piece.value.id)];
      }
      boardPieces := boardPieces + {piece.value.id};
    }
    assert Occupant(s, Position(row, col)) == piece;
  }

  lemma ScanStep(s: GameState, visited: seq<Position>, p: Position)
    ensures ScanCells(s, visited + [p]) == ScanCell(s, ScanCells(s, visited), p)
  {
    assert (visited + [p])[..|visited|] == visited;
  }

  /** The second loop of `validateBoardConsistency`: every roster piece against the board. */
  method CheckRosterCells(s: GameState) returns (errors: seq<StateError>)
    ensures errors == RosterCellErrors(s, |PlayerOrder|)
  {
    errors := [];
    for n := 0 to |PlayerOrder|
      invariant errors == RosterCellErrors(s, n)
    {
      var color := PlayerOrder[n];
      if color in s.players {
        var pieces := s.players[color].pieces;
        ghost var before := errors;
        for i := 0 to |pieces|
          invariant errors == before + ExpectedCellErrors(s, pieces, i)
        {
          var piece := pieces[i];
          if piece.status == Active && piece.position.Some? {
            var boardPiece := Occupant(s, piece.position.value);
            if boardPiece.None? || boardPiece.value.id != piece.id {
              errors := errors + [NotAtExpectedPosition(piece.id)];
            }
          }
        }
      }
    }
  }

  // ---------------------------------------------------------------- the whole game

  /** The roster errors of the first `n` required colors, each tagged with its color. */
  function RosterErrors(s: GameState, n: nat): seq<StateError>
    requires n <= |PlayerOrder|
  {
    if n == 0 then []
    else
      var c := PlayerOrder[n - 1];
      RosterErrors(s, n - 1) +
        if c !in s.players then [MissingPlayer(c)] else Tagged(c, PieceErrors(s.players[c]))
  }

  function Tagged(c: Color, errors: seq<PieceError>): (tagged: seq<StateError>)
    ensures |tagged| == |errors|
  {
    seq(|errors|, i requires 0 <= i < |errors| => PlayerError(c, errors[i]))
  }

  /** Whether some row of the board is not 17 cells long. */
  predicate RaggedRow(board: seq<seq<Option<PieceRef>>>) {
    exists r :: 0 <= r < |board| && |board[r]| != BoardSize
  }

  /** `validateGameState`: id, board rows, board columns, player count, each required player's
      roster, then the board against the rosters. */
  function StateErrors(s: GameState): seq<StateError> {
    ShapeErrors(s) + RosterErrors(s, |PlayerOrder|) + BoardErrors(s)
  }

  /** The checks of `validateGameState` before the rosters: id, board shape, player count. */
  function ShapeErrors(s: GameState): seq<StateError> {
    (if s.gameId == "" then [MissingGameId] else []) +
    (if |s.board| != BoardSize then [WrongRowCount] else if RaggedRow(s.board) then [WrongColumnCount] else []) +
    (if |s.players| != 4 then [WrongPlayerCount(|s.players|)] else [])
  }

  method ValidateGameState(s: GameState) returns (isValid: bool, errors: seq<StateError>)
    ensures errors == StateErrors(s)
    ensures isValid <==> errors == []
  {
    errors := [];
    if s.gameId == "" {
      errors := errors + [MissingGameId];
    }
    if |s.board| != 17 {
      errors := errors + [WrongRowCount];
    } else if RaggedRow(s.board) {
      errors := errors + [WrongColumnCount];
    }
    if |s.players| != 4 {
      errors := errors + [WrongPlayerCount(|s.players|)];
    }
    assert errors == ShapeErrors(s);
    var playerErrors := CheckRequiredPlayers(s);
    errors := errors + playerErrors;
    var boardValid, boardErrors := ValidateBoardConsistency(s);
    if !boardValid {
      errors := errors + boardErrors;
    }
    assert errors == ShapeErrors(s) + playerErrors + BoardErrors(s);
    isValid := |errors| == 0;
  }

  /** The loop of `validateGameState` over the four required colors. */
  method CheckRequiredPlayers(s: GameState) returns (errors: seq<StateError>)
    ensures errors == RosterErrors(s, |PlayerOrder|)
  {
    errors := [];
    var requiredColors := [Red, Green, Blue, Yellow];
    for n := 0 to |requiredColors|
      invariant errors == RosterErrors(s, n)
    {
      var color := requiredColors[n];
      if color !in s.players {
        errors := errors + [MissingPlayer(color)];
      } else {
        var pieceValid, pieceErrors := ValidatePlayerPieces(s.players[color]);
        if !pieceValid {
          errors := errors + Tagged(color, pieceErrors);
        } else {
          assert Tagged(color, pieceErrors) == [];
        }
      }
    }
  }

  /** All four players are present, each with 25 pieces of its own color with distinct ids. */
  ghost predicate RostersSound(s: GameState) {
    forall c: Color :: c in s.players &&
      |s.players[c].pieces| == 25 && DistinctIds(s.players[c].pieces) &&
      forall i :: 0 <= i < |s.players[c].pieces| ==> s.players[c].pieces[i].owner == s.players[c].color
  }

  /** Every piece on the board is at the cell it claims, and no piece id is on two cells. */
  ghost predicate BoardSound(s: GameState) {
    (forall p: Position :: Occupant(s, p).Some? ==> Occupant(s, p).value.position == Some(p)) &&
    (forall p: Position, q: Position :: p != q && Occupant(s, p).Some? && Occupant(s, q).Some? ==>
      Occupant(s, p).value.id != Occupant(s, q).value.id)
  }

  /** Every Active roster piece that claims a cell is found there, by id. */
  ghost predicate RostersOnBoard(s: GameState) {
    forall r :: Names(s, r) ==> AtExpectedCell(s, PieceOf(s, r))
  }

  /** A game in which every part agrees: an id, a 17×17 board, sound rosters for all four players,
      a sound board, and every Active placed roster piece on the board. */
  ghost predicate Consistent(s: GameState) {
    s.gameId != "" && SquareBoard(s.board) && RostersSound(s) && BoardSound(s) && RostersOnBoard(s)
  }

  lemma {:induction false} RosterErrorsEmpty(s: GameState, n: nat)
    requires n <= |PlayerOrder|
    ensures RosterErrors(s, n) == [] <==>
      forall c :: ColorIndex(c) < n ==> c in s.players && PieceErrors(s.players[c]) == []
  {
    if n > 0 {
      RosterErrorsEmpty(s, n - 1);
      var c := PlayerOrder[n - 1];
      if c in s.players {
        assert |Tagged(c, PieceErrors(s.players[c]))| == |PieceErrors(s.players[c])|;
      }
    }
  }

  /** The board scan reports nothing exactly when the board is sound. */
  lemma ScanEmptyIff(s: GameState)
    ensures ScanCells(s, Cells(s.board, |s.board|)).errors == [] <==> BoardSound(s)
  {
    var cells := Cells(s.board, |s.board|);
    CellsFacts(s.board, |s.board|);
    ScanErrors(s, cells);
    if ScanCells(s, cells).errors == [] {
      ScanEmptyPositions(s, cells);
      ScanEmptyIds(s, cells);
    }
  }

  /** Every occupied cell of a clean scan is one its occupant claims. */
  lemma ScanEmptyPositions(s: GameState, cells: seq<Position>)
    requires forall p: Position :: Occupant(s, p).Some? ==> p in cells
    requires CellsKnown(s, cells)
    ensures forall p: Position :: Occupant(s, p).Some? ==> Occupant(s, p).value.position == Some(p)
  {
    forall p: Position | Occupant(s, p).Some?
      ensures Occupant(s, p).value.position == Some(p)
    {
      assert p in cells;
    }
  }

  /** No two distinct occupied cells of a clean scan hold the same id. */
  lemma ScanEmptyIds(s: GameState, cells: seq<Position>)
    requires forall p: Position :: Occupant(s, p).Some? ==> p in cells
    requires CellIdsDistinct(s, cells)
    ensures forall p: Position, q: Position :: p != q && Occupant(s, p).Some? && Occupant(s, q).Some? ==>
      Occupant(s, p).value.id != Occupant(s, q).value.id
  {
    forall p: Position, q: Position | p != q && Occupant(s, p).Some? && Occupant(s, q).Some?
      ensures Occupant(s, p).value.id != Occupant(s, q).value.id
    {
      assert p in cells && q in cells;
      var i :| 0 <= i < |cells| && cells[i] == p;
      var j :| 0 <= j < |cells| && cells[j] == q;
      if i > j {
        assert Occupant(s, cells[j]).value.id != Occupant(s, cells[i]).value.id;
      }
    }
  }

  /** The roster checks report nothing exactly when the rosters are sound. */
  lemma RostersIff(s: GameState)
    ensures RosterErrors(s, |PlayerOrder|) == [] <==> RostersSound(s)
  {
    RosterErrorsEmpty(s, |PlayerOrder|);
    forall c: Color | c in s.players
      ensures PieceErrors(s.players[c]) == [] <==>
        |s.players[c].pieces| == 25 && DistinctIds(s.players[c].pieces) &&
        forall i :: 0 <= i < |s.players[c].pieces| ==> s.players[c].pieces[i].owner == s.players[c].color
    {
      PieceErrorsEmpty(s.players[c]);
    }
    forall c: Color ensures ColorIndex(c) < |PlayerOrder| { }
  }

  /** With sound rosters there are exactly four players. */
  lemma FourPlayers(s: GameState)
    requires RostersSound(s)
    ensures |s.players| == 4
  {
    assert Red in s.players && Green in s.players && Blue in s.players && Yellow in s.players;
    forall c | c in s.players.Keys
      ensures c in {Red, Green, Blue, Yellow}
    {
      match c
      case Red =>
      case Green =>
      case Blue =>
      case Yellow =>
    }
    assert s.players.Keys == {Red, Green, Blue, Yellow};
  }

  /** The validator reports no error exactly when the game is consistent. */
  lemma ValidIffConsistent(s: GameState)
    ensures StateErrors(s) == [] <==> Consistent(s)
  {
    RostersIff(s);
    RosterCellErrorsEmpty(s, |PlayerOrder|);
    forall r | Names(s, r) ensures ColorIndex(r.owner) < |PlayerOrder| { }
    ScanEmptyIff(s);
    if RostersSound(s) {
      FourPlayers(s);
    }
    assert SquareBoard(s.board) <==> |s.board| == BoardSize && !RaggedRow(s.board);
  }
}
