/** What each step of the game engine does to the game state: executing a move with its battle, the
    end-of-game check, the turn order, setup of rosters and deployment, and a whole `makeMove`. The
    engine class performs these steps in place; its methods are proved to agree with them. */
module EngineModel {
  import opened Common
  import opened Pieces
  import opened Rules
  import opened Moves
  import opened GameData

  /** Why `makeMove` refuses a move; the source throws with these reasons. */
  datatype EngineError = NoPieceAtSource | NotYourTurn | IllegalMove(reason: MoveError)

  predicate OnBoard(p: Position) {
    0 <= p.row < BoardSize && 0 <= p.col < BoardSize
  }

  // ---------------------------------------------------------------- elementary updates

  /** The state with one board cell replaced. */
  function SetCell(s: GameState, p: Position, v: Option<PieceRef>): (s': GameState)
    requires SquareBoard(s.board) && OnBoard(p)
    ensures SquareBoard(s'.board) && s' == s.(board := s'.board)
    ensures RefAt(s', p) == v
    ensures forall q :: q != p ==> RefAt(s', q) == RefAt(s, q)
  {
    s.(board := s.board[p.row := s.board[p.row][p.col := v]])
  }

  /** The same players with rosters of the same lengths: every reference names an entry in both or in neither. */
  predicate SameRosters(s: GameState, s': GameState) {
    s'.players.Keys == s.players.Keys &&
    forall c :: c in s.players ==> |s'.players[c].pieces| == |s.players[c].pieces|
  }

  /** The state with one roster entry replaced. */
  function SetPiece(s: GameState, ref: PieceRef, piece: Piece): (s': GameState)
    requires Names(s, ref)
    ensures s' == s.(players := s'.players) && SameRosters(s, s')
    ensures forall c :: c in s.players ==> s'.players[c] == s.players[c].(pieces := s'.players[c].pieces)
    ensures PieceOf(s', ref) == piece
    ensures forall r :: Names(s, r) && r != ref ==> PieceOf(s', r) == PieceOf(s, r)
  {
    var player := s.players[ref.owner];
    s.(players := s.players[ref.owner := player.(pieces := player.pieces[ref.index := piece])])
  }

  /** The state with a roster entry marked Eliminated and taken off the board in the roster's view. */
  function Eliminate(s: GameState, ref: PieceRef): GameState
    requires Names(s, ref)
  {
    SetPiece(s, ref, PieceOf(s, ref).(status := Eliminated, position := None))
  }

  // ---------------------------------------------------------------- executing a move

  /** The situation `executeMoveOnBoard` is called in: the Active mover stands on `from`, both cells
      are on the board, and a piece on `to` is an enemy of the mover. */
  predicate MoveReady(s: GameState, m: PieceRef, from: Position, to: Position) {
    SquareBoard(s.board) && OnBoard(from) && OnBoard(to) && Names(s, m) && RefAt(s, from) == Some(m) &&
    PieceOf(s, m).status == Active &&
    (Resolve(s, RefAt(s, to)).Some? ==>
       AllianceOf(PieceOf(s, m).owner, Resolve(s, RefAt(s, to)).value.owner) == Enemy)
  }

  /** The battle against the piece on `to`: every eliminated fighter is marked and its cell cleared. */
  function Fight(s: GameState, m: PieceRef, t: PieceRef, from: Position, to: Position): (r: (GameState, Battle))
    requires MoveReady(s, m, from, to) && RefAt(s, to) == Some(t) && Names(s, t)
    ensures SquareBoard(r.0.board) && SameRosters(s, r.0)
    ensures r.0 == s.(board := r.0.board, players := r.0.players)
  {
    var b := ResolveBattle(PieceOf(s, m), PieceOf(s, t)).value;
    (Eliminations(s, m, t, from, to, b), b)
  }

  /** The battle's casualties taken off: the mover and then the defender, each when it is listed as
      eliminated, is marked and its cell cleared. */
  function Eliminations(s: GameState, m: PieceRef, t: PieceRef, from: Position, to: Position, b: Battle): (s2: GameState)
    requires SquareBoard(s.board) && OnBoard(from) && OnBoard(to) && Names(s, m) && Names(s, t)
    ensures SquareBoard(s2.board) && SameRosters(s, s2)
    ensures s2 == s.(board := s2.board, players := s2.players)
  {
    var s1 := if PieceOf(s, m) in b.eliminated then Remove(s, m, from) else s;
    if PieceOf(s, t) in b.eliminated then Remove(s1, t, to) else s1
  }

  /** One casualty: the entry is marked Eliminated and its cell cleared. */
  function Remove(s: GameState, ref: PieceRef, cell: Position): (s': GameState)
    requires SquareBoard(s.board) && OnBoard(cell) && Names(s, ref)
    ensures SquareBoard(s'.board) && SameRosters(s, s')
    ensures s' == s.(board := s'.board, players := s'.players)
  {
    SetCell(Eliminate(s, ref), cell, None)
  }

  /** Removing a casualty changes its entry and its cell only, and no player field but the roster. */
  lemma RemoveEffect(s: GameState, ref: PieceRef, cell: Position)
    requires SquareBoard(s.board) && OnBoard(cell) && Names(s, ref)
    ensures var s' := Remove(s, ref, cell);
      PieceOf(s', ref) == PieceOf(s, ref).(status := Eliminated, position := None) && RefAt(s', cell) == None &&
      (forall q :: q != cell ==> RefAt(s', q) == RefAt(s, q)) &&
      (forall r :: Names(s, r) && r != ref ==> PieceOf(s', r) == PieceOf(s, r)) &&
      (forall c :: c in s.players ==> s'.players[c] == s.players[c].(pieces := s'.players[c].pieces))
  {
  }

  /** The casualties of any battle between two distinct fighters on two distinct cells: each is either
      marked Eliminated and off its cell, or untouched, and nothing else changes. */
  lemma EliminationsEffect(s: GameState, m: PieceRef, t: PieceRef, from: Position, to: Position, b: Battle)
    requires SquareBoard(s.board) && OnBoard(from) && OnBoard(to) && Names(s, m) && Names(s, t)
    requires from != to && t != m && RefAt(s, from) == Some(m) && RefAt(s, to) == Some(t)
    ensures var s1 := Eliminations(s, m, t, from, to, b);
      var P := PieceOf(s, m);
      var D := PieceOf(s, t);
      (P in b.eliminated ==> PieceOf(s1, m) == P.(status := Eliminated, position := None) && RefAt(s1, from) == None) &&
      (P !in b.eliminated ==> PieceOf(s1, m) == P && RefAt(s1, from) == Some(m)) &&
      (D in b.eliminated ==> PieceOf(s1, t) == D.(status := Eliminated, position := None) && RefAt(s1, to) == None) &&
      (D !in b.eliminated ==> PieceOf(s1, t) == D && RefAt(s1, to) == Some(t)) &&
      (forall q :: q != from && q != to ==> RefAt(s1, q) == RefAt(s, q)) &&
      (forall r :: Names(s, r) && r != m && r != t ==> PieceOf(s1, r) == PieceOf(s, r))
  {
    var s1 := if PieceOf(s, m) in b.eliminated then Remove(s, m, from) else s;
    if PieceOf(s, m) in b.eliminated {
      RemoveEffect(s, m, from);
    }
    if PieceOf(s, t) in b.eliminated {
      RemoveEffect(s1, t, to);
    }
  }

  /** After the battle: a mover still Active leaves `from`, takes `to` and learns it as its position. */
  function Advance(s1: GameState, m: PieceRef, from: Position, to: Position): (s2: GameState)
    requires SquareBoard(s1.board) && OnBoard(from) && OnBoard(to) && Names(s1, m)
    ensures SquareBoard(s2.board) && SameRosters(s1, s2)
    ensures s2 == s1.(board := s2.board, players := s2.players)
  {
    var mover := PieceOf(s1, m);
    if mover.status == Active then SetPiece(SetCell(SetCell(s1, from, None), to, Some(m)), m, mover.(position := Some(to))) else s1
  }

  /** Advancing writes only `from` and `to` and only the mover's entry; an Active mover ends on `to`. */
  lemma AdvanceFrame(s1: GameState, m: PieceRef, from: Position, to: Position)
    requires SquareBoard(s1.board) && OnBoard(from) && OnBoard(to) && Names(s1, m) && from != to
    ensures var s2 := Advance(s1, m, from, to);
      (PieceOf(s1, m).status == Active ==>
         RefAt(s2, from) == None && RefAt(s2, to) == Some(m) && PieceOf(s2, m) == PieceOf(s1, m).(position := Some(to))) &&
      (PieceOf(s1, m).status != Active ==> s2 == s1) &&
      (forall q :: q != from && q != to ==> RefAt(s2, q) == RefAt(s1, q)) &&
      (forall r :: Names(s1, r) && r != m ==> PieceOf(s2, r) == PieceOf(s1, r))
  {
  }

  /** The state after the battle against any piece on `to`, or `s` itself when `to` is empty. */
  function AfterBattle(s: GameState, m: PieceRef, from: Position, to: Position): (s1: GameState)
    requires MoveReady(s, m, from, to)
    ensures SquareBoard(s1.board) && SameRosters(s, s1) && Names(s1, m)
    ensures s1 == s.(board := s1.board, players := s1.players)
  {
    var target := RefAt(s, to);
    if Resolve(s, target).Some? then Fight(s, m, target.value, from, to).0 else s
  }

  /** After the battle the source and the target are distinct, the mover is Active or its cell is
      empty, and no cell but the two has changed. */
  lemma AfterBattleCell(s: GameState, m: PieceRef, from: Position, to: Position, q: Position)
    requires MoveReady(s, m, from, to)
    ensures from != to
    ensures var s1 := AfterBattle(s, m, from, to);
      (PieceOf(s1, m).status == Active || RefAt(s1, from) == None) &&
      (q != from && q != to ==> RefAt(s1, q) == RefAt(s, q))
  {
    var target := RefAt(s, to);
    if Resolve(s, target).Some? {
      FightersApart(s, m, target.value, from, to);
      EliminationsEffect(s, m, target.value, from, to, Fight(s, m, target.value, from, to).1);
    } else {
      assert from != to;
    }
  }

  /** The battle leaves the mover's owner as it was. */
  lemma AfterBattleMover(s: GameState, m: PieceRef, from: Position, to: Position)
    requires MoveReady(s, m, from, to)
    ensures PieceOf(AfterBattle(s, m, from, to), m).owner == PieceOf(s, m).owner
  {
    var target := RefAt(s, to);
    if Resolve(s, target).Some? {
      FightersApart(s, m, target.value, from, to);
      EliminationsEffect(s, m, target.value, from, to, Fight(s, m, target.value, from, to).1);
    }
  }

  /** The battle leaves every roster entry but the two fighters' as it was. */
  lemma AfterBattlePiece(s: GameState, m: PieceRef, from: Position, to: Position, r: PieceRef)
    requires MoveReady(s, m, from, to)
    requires Names(s, r) && r != m && Some(r) != RefAt(s, to)
    ensures Names(AfterBattle(s, m, from, to), r) && PieceOf(AfterBattle(s, m, from, to), r) == PieceOf(s, r)
  {
    var target := RefAt(s, to);
    if Resolve(s, target).Some? {
      FightersApart(s, m, target.value, from, to);
      EliminationsEffect(s, m, target.value, from, to, Fight(s, m, target.value, from, to).1);
      assert r != target.value;
    }
  }

  /** The battle details as the record holds them once the move is over: the source keeps the fighter
      objects themselves in the details, so every mention of the attacker or the defender shows that
      fighter's final entry. */
  function Settle(b: Battle, attacker: Piece, defender: Piece): (r: Battle)
    ensures r.attacker == attacker && r.defender == defender && r.result == b.result
    ensures |r.eliminated| == |b.eliminated|
  {
    Battle(attacker, defender, b.result,
      if b.winner == Some(b.attacker) then Some(attacker) else if b.winner.Some? then Some(defender) else None,
      seq(|b.eliminated|, i requires 0 <= i < |b.eliminated| => if b.eliminated[i] == b.attacker then attacker else defender))
  }

  /** `executeMoveOnBoard`: fight any piece on `to`, move the mover there if it is still Active, and
      append the move record, which carries the turn number the move was made in and the battle
      details showing the fighters as the move left them. */
  function ExecuteMove(s: GameState, m: PieceRef, from: Position, to: Position): (r: (GameState, MoveRecord))
    requires MoveReady(s, m, from, to)
    ensures SquareBoard(r.0.board) && SameRosters(s, r.0)
  {
    var target := RefAt(s, to);
    var s1 := AfterBattle(s, m, from, to);
    var s2 := Advance(s1, m, from, to);
    var battle := if Resolve(s, target).Some? then
      Some(Settle(Fight(s, m, target.value, from, to).1, PieceOf(s2, m), PieceOf(s2, target.value))) else None;
    var record := MoveRecord(PieceOf(s2, m).owner, PieceOf(s2, m), from, to, battle, s.turnInfo.turnNumber);
    (s2.(moveHistory := s2.moveHistory + [record]), record)
  }

  /** Whatever the battle, the move record is appended with the turn number the move was made in, only
      the two cells and the two fighters' roster entries can change, and nothing but the board, the
      rosters and the history changes. */
  lemma ExecuteMoveFrame(s: GameState, m: PieceRef, from: Position, to: Position)
    requires MoveReady(s, m, from, to)
    ensures from != to
    ensures var (s', rec) := ExecuteMove(s, m, from, to);
      s'.moveHistory == s.moveHistory + [rec] &&
      rec.from == from && rec.to == to && rec.turnNumber == s.turnInfo.turnNumber &&
      rec.player == PieceOf(s, m).owner && rec.piece == PieceOf(s', m) &&
      (rec.battle.Some? <==> Resolve(s, RefAt(s, to)).Some?) &&
      s' == s.(board := s'.board, players := s'.players, moveHistory := s'.moveHistory) &&
      RefAt(s', from) == None &&
      (forall q :: q != from && q != to ==> RefAt(s', q) == RefAt(s, q)) &&
      (forall r :: Names(s, r) && r != m && Some(r) != RefAt(s, to) ==> PieceOf(s', r) == PieceOf(s, r))
  {
    ExecuteMoveRecord(s, m, from, to);
    ExecuteMoveCells(s, m, from, to);
    ExecuteMovePieces(s, m, from, to);
  }

  /** The record a move appends names the mover, both cells and the turn, and carries a battle exactly
      when the target cell held a piece. */
  lemma ExecuteMoveRecord(s: GameState, m: PieceRef, from: Position, to: Position)
    requires MoveReady(s, m, from, to)
    ensures var (s', rec) := ExecuteMove(s, m, from, to);
      s'.moveHistory == s.moveHistory + [rec] &&
      rec.from == from && rec.to == to && rec.turnNumber == s.turnInfo.turnNumber &&
      rec.player == PieceOf(s, m).owner && rec.piece == PieceOf(s', m) &&
      (rec.battle.Some? <==> Resolve(s, RefAt(s, to)).Some?) &&
      s' == s.(board := s'.board, players := s'.players, moveHistory := s'.moveHistory)
  {
    AfterBattleCell(s, m, from, to, from);
    AfterBattleMover(s, m, from, to);
    AdvanceFrame(AfterBattle(s, m, from, to), m, from, to);
  }


  /** A move empties its source cell and writes no cell but the source and the target. */
  lemma ExecuteMoveCells(s: GameState, m: PieceRef, from: Position, to: Position)
    requires MoveReady(s, m, from, to)
    ensures from != to
    ensures var s' := ExecuteMove(s, m, from, to).0;
      RefAt(s', from) == None &&
      (forall q :: q != from && q != to ==> RefAt(s', q) == RefAt(s, q))
  {
    ExecuteMoveCell(s, m, from, to, from);
    forall q | q != from && q != to
      ensures RefAt(ExecuteMove(s, m, from, to).0, q) == RefAt(s, q)
    {
      ExecuteMoveCell(s, m, from, to, q);
    }
  }

  /** The source and the target of a move are distinct; the source ends empty, and every other cell
      but the target keeps its reference. */
  lemma ExecuteMoveCell(s: GameState, m: PieceRef, from: Position, to: Position, q: Position)
    requires MoveReady(s, m, from, to)
    ensures from != to
    ensures q == from ==> RefAt(ExecuteMove(s, m, from, to).0, q) == None
    ensures q != from && q != to ==> RefAt(ExecuteMove(s, m, from, to).0, q) == RefAt(s, q)
  {
    AfterBattleCell(s, m, from, to, q);
    AdvanceCell(AfterBattle(s, m, from, to), m, from, to, q);
  }

  /** Advancing leaves `from` empty when it was empty or the mover is Active, and writes no cell but
      `from` and `to`. */
  lemma AdvanceCell(s1: GameState, m: PieceRef, from: Position, to: Position, q: Position)
    requires SquareBoard(s1.board) && OnBoard(from) && OnBoard(to) && Names(s1, m) && from != to
    requires PieceOf(s1, m).status == Active || RefAt(s1, from) == None
    ensures RefAt(Advance(s1, m, from, to), from) == None
    ensures q != from && q != to ==> RefAt(Advance(s1, m, from, to), q) == RefAt(s1, q)
  {
  }

  /** A move changes no roster entry but the mover's and the defender's. */
  lemma ExecuteMovePieces(s: GameState, m: PieceRef, from: Position, to: Position)
    requires MoveReady(s, m, from, to)
    ensures var s' := ExecuteMove(s, m, from, to).0;
      forall r :: Names(s, r) && r != m && Some(r) != RefAt(s, to) ==> PieceOf(s', r) == PieceOf(s, r)
  {
    forall r | Names(s, r) && r != m && Some(r) != RefAt(s, to)
      ensures PieceOf(ExecuteMove(s, m, from, to).0, r) == PieceOf(s, r)
    {
      ExecuteMoveKeepsPiece(s, m, from, to, r);
    }
  }

  /** A roster entry that neither moves nor defends is left as it was. */
  lemma ExecuteMoveKeepsPiece(s: GameState, m: PieceRef, from: Position, to: Position, r: PieceRef)
    requires MoveReady(s, m, from, to)
    requires Names(s, r) && r != m && Some(r) != RefAt(s, to)
    ensures PieceOf(ExecuteMove(s, m, from, to).0, r) == PieceOf(s, r)
  {
    AfterBattlePiece(s, m, from, to, r);
    AfterBattleCell(s, m, from, to, from);
    AdvanceFrame(AfterBattle(s, m, from, to), m, from, to);
  }

  /** A move onto an empty cell takes the mover there and leaves its old cell empty. */
  lemma QuietMove(s: GameState, m: PieceRef, from: Position, to: Position)
    requires MoveReady(s, m, from, to)
    requires Resolve(s, RefAt(s, to)).None?
    ensures var s' := ExecuteMove(s, m, from, to).0;
      RefAt(s', from) == None && RefAt(s', to) == Some(m) &&
      PieceOf(s', m) == PieceOf(s, m).(position := Some(to))
  {
  }

  /** The mover and a piece it may fight are distinct and stand on distinct cells. */
  lemma FightersApart(s: GameState, m: PieceRef, t: PieceRef, from: Position, to: Position)
    requires MoveReady(s, m, from, to) && RefAt(s, to) == Some(t) && Names(s, t)
    ensures from != to && t != m
  {
    AllianceIsPairing(PieceOf(s, m).owner, PieceOf(s, t).owner);
  }

  /** The battle step alone: each fighter is either eliminated and off its cell, or untouched. */
  lemma FightOutcome(s: GameState, m: PieceRef, t: PieceRef, from: Position, to: Position)
    requires MoveReady(s, m, from, to) && RefAt(s, to) == Some(t) && Names(s, t)
    ensures from != to && t != m
    ensures var s1 := Fight(s, m, t, from, to).0;
      var P := PieceOf(s, m);
      var D := PieceOf(s, t);
      var b := Fight(s, m, t, from, to).1;
      ResolveBattle(P, D) == Ok(b) &&
      (P in b.eliminated ==> PieceOf(s1, m) == P.(status := Eliminated, position := None) && RefAt(s1, from) == None) &&
      (P !in b.eliminated ==> PieceOf(s1, m) == P && RefAt(s1, from) == Some(m)) &&
      (D in b.eliminated ==> PieceOf(s1, t) == D.(status := Eliminated, position := None) && RefAt(s1, to) == None) &&
      (D !in b.eliminated ==> PieceOf(s1, t) == D && RefAt(s1, to) == Some(t)) &&
      (forall q :: q != from && q != to ==> RefAt(s1, q) == RefAt(s, q)) &&
      (forall r :: Names(s, r) && r != m && r != t ==> PieceOf(s1, r) == PieceOf(s, r))
  {
    FightersApart(s, m, t, from, to);
    EliminationsEffect(s, m, t, from, to, Fight(s, m, t, from, to).1);
  }

  /** The effect of a battle: every eliminated fighter is marked Eliminated, loses its position and
      leaves the board; a surviving mover takes `to`; a surviving defender keeps its entry and, when the
      mover fell, its cell. */
  lemma BattleOutcome(s: GameState, m: PieceRef, from: Position, to: Position)
    requires MoveReady(s, m, from, to)
    requires Resolve(s, RefAt(s, to)).Some?
    ensures var (s', rec) := ExecuteMove(s, m, from, to);
      var t := RefAt(s, to).value;
      var P := PieceOf(s, m);
      var D := PieceOf(s, t);
      var b := ResolveBattle(P, D);
      b.Ok? && rec.battle == Some(Settle(b.value, PieceOf(s', m), PieceOf(s', t))) &&
      (P in b.value.eliminated ==> PieceOf(s', m) == P.(status := Eliminated, position := None)) &&
      (P !in b.value.eliminated ==> PieceOf(s', m) == P.(position := Some(to)) && RefAt(s', to) == Some(m)) &&
      (D in b.value.eliminated ==> PieceOf(s', t) == D.(status := Eliminated, position := None)) &&
      (D !in b.value.eliminated ==> PieceOf(s', t) == D) &&
      (P in b.value.eliminated && D in b.value.eliminated ==> RefAt(s', to) == None) &&
      (P in b.value.eliminated && D !in b.value.eliminated ==> RefAt(s', to) == Some(t))
  {
    BattleMover(s, m, from, to);
    BattleDefender(s, m, from, to);
  }

  /** In a battle the mover is either eliminated, or takes `to` and learns it. */
  lemma BattleMover(s: GameState, m: PieceRef, from: Position, to: Position)
    requires MoveReady(s, m, from, to)
    requires Resolve(s, RefAt(s, to)).Some?
    ensures var (s', rec) := ExecuteMove(s, m, from, to);
      var P := PieceOf(s, m);
      var t := RefAt(s, to).value;
      var b := ResolveBattle(P, PieceOf(s, t));
      b.Ok? && rec.battle == Some(Settle(b.value, PieceOf(s', m), PieceOf(s', t))) &&
      (P in b.value.eliminated ==> PieceOf(s', m) == P.(status := Eliminated, position := None)) &&
      (P !in b.value.eliminated ==> PieceOf(s', m) == P.(position := Some(to)) && RefAt(s', to) == Some(m))
  {
    var t := RefAt(s, to).value;
    FightOutcome(s, m, t, from, to);
    assert AfterBattle(s, m, from, to) == Fight(s, m, t, from, to).0;
    AdvanceFrame(AfterBattle(s, m, from, to), m, from, to);
  }

  /** The battle details a move records show the fighters as the move left them: each fighter the
      battle eliminated is listed as Eliminated with no position and nothing else is listed; the winner
      is listed as its final entry, and a surviving mover is listed as standing on `to`. */
  lemma RecordedBattle(s: GameState, m: PieceRef, from: Position, to: Position)
    requires MoveReady(s, m, from, to)
    requires Resolve(s, RefAt(s, to)).Some?
    ensures var (s', rec) := ExecuteMove(s, m, from, to);
      var t := RefAt(s, to).value;
      var b := ResolveBattle(PieceOf(s, m), PieceOf(s, t));
      b.Ok? && rec.battle.Some? &&
      rec.battle.value.attacker == PieceOf(s', m) && rec.battle.value.defender == PieceOf(s', t) &&
      rec.battle.value.result == b.value.result &&
      |rec.battle.value.eliminated| == |b.value.eliminated| &&
      (forall e :: e in rec.battle.value.eliminated ==> e.status == Eliminated && e.position == None) &&
      (PieceOf(s, m) in b.value.eliminated <==> PieceOf(s', m) in rec.battle.value.eliminated) &&
      (PieceOf(s, t) in b.value.eliminated <==> PieceOf(s', t) in rec.battle.value.eliminated) &&
      (b.value.winner == Some(PieceOf(s, m)) ==> rec.battle.value.winner == Some(PieceOf(s', m))) &&
      (b.value.winner == Some(PieceOf(s, t)) ==> rec.battle.value.winner == Some(PieceOf(s', t))) &&
      (b.value.winner == None ==> rec.battle.value.winner == None) &&
      (PieceOf(s, m) !in b.value.eliminated ==> rec.battle.value.attacker.position == Some(to))
  {
    var t := RefAt(s, to).value;
    var P := PieceOf(s, m);
    var D := PieceOf(s, t);
    var s' := ExecuteMove(s, m, from, to).0;
    AllianceIsPairing(P.owner, D.owner);
    BattleMover(s, m, from, to);
    BattleDefender(s, m, from, to);
    SettleShowsFinal(P, D, PieceOf(s', m), PieceOf(s', t));
  }

  /** Settling the details of a battle between two enemies lists exactly the fighters the battle
      eliminated, each by its final entry, and names the winner by its final entry. */
  lemma SettleShowsFinal(P: Piece, D: Piece, P2: Piece, D2: Piece)
    requires P.owner != D.owner && AllianceOf(P.owner, D.owner) == Enemy
    requires P2.owner == P.owner && D2.owner == D.owner
    requires P in ResolveBattle(P, D).value.eliminated ==> P2.status == Eliminated && P2.position == None
    requires D in ResolveBattle(P, D).value.eliminated ==> D2.status == Eliminated && D2.position == None
    ensures var b := ResolveBattle(P, D).value;
      var r := Settle(b, P2, D2);
      (forall e :: e in r.eliminated ==> e.status == Eliminated && e.position == None) &&
      (P in b.eliminated <==> P2 in r.eliminated) &&
      (D in b.eliminated <==> D2 in r.eliminated) &&
      (b.winner == Some(P) ==> r.winner == Some(P2)) &&
      (b.winner == Some(D) ==> r.winner == Some(D2)) &&
      (b.winner == None ==> r.winner == None)
  {
    var b := ResolveBattle(P, D).value;
    var r := Settle(b, P2, D2);
    if b.eliminated == [] {
      assert r.eliminated == [];
    } else if b.eliminated == [P] {
      assert r.eliminated == [P2];
    } else if b.eliminated == [D] {
      assert r.eliminated == [D2];
    } else {
      assert b.eliminated == [P, D];
      assert r.eliminated == [P2, D2];
    }
  }

  /** In a battle the defender is either eliminated or untouched; when the mover falls, the target
      cell is empty if the defender fell too and still refers to the defender otherwise. */
  lemma BattleDefender(s: GameState, m: PieceRef, from: Position, to: Position)
    requires MoveReady(s, m, from, to)
    requires Resolve(s, RefAt(s, to)).Some?
    ensures var s' := ExecuteMove(s, m, from, to).0;
      var t := RefAt(s, to).value;
      var P := PieceOf(s, m);
      var D := PieceOf(s, t);
      var b := ResolveBattle(P, D);
      b.Ok? &&
      (D in b.value.eliminated ==> PieceOf(s', t) == D.(status := Eliminated, position := None)) &&
      (D !in b.value.eliminated ==> PieceOf(s', t) == D) &&
      (P in b.value.eliminated && D in b.value.eliminated ==> RefAt(s', to) == None) &&
      (P in b.value.eliminated && D !in b.value.eliminated ==> RefAt(s', to) == Some(t))
  {
    var t := RefAt(s, to).value;
    FightOutcome(s, m, t, from, to);
    assert AfterBattle(s, m, from, to) == Fight(s, m, t, from, to).0;
    AdvanceFrame(AfterBattle(s, m, from, to), m, from, to);
  }

  /** A captured flag is not eliminated: its entry stays Active with its old position while the
      attacker takes its cell. */
  lemma CapturedFlagStaysActive(s: GameState, m: PieceRef, from: Position, to: Position)
    requires MoveReady(s, m, from, to)
    requires Resolve(s, RefAt(s, to)).Some? && Resolve(s, RefAt(s, to)).value.kind == Flag
    ensures var s' := ExecuteMove(s, m, from, to).0;
      PieceOf(s', RefAt(s, to).value) == PieceOf(s, RefAt(s, to).value) &&
      RefAt(s', to) == Some(m) && PieceOf(s', m).position == Some(to)
  {
    BattleOutcome(s, m, from, to);
  }

  // ---------------------------------------------------------------- board and rosters agree

  /** Every reference on the board names an Active roster entry whose position is that very cell. */
  ghost predicate Placed(s: GameState) {
    SquareBoard(s.board) &&
    forall p :: RefAt(s, p).Some? ==>
      Names(s, RefAt(s, p).value) && PieceOf(s, RefAt(s, p).value).status == Active &&
      PieceOf(s, RefAt(s, p).value).position == Some(p)
  }

  /** Executing a move keeps every board reference pointing at an Active piece that knows its cell. */
  lemma ExecuteMoveKeepsPlaced(s: GameState, m: PieceRef, from: Position, to: Position)
    requires MoveReady(s, m, from, to) && Placed(s)
    ensures Placed(ExecuteMove(s, m, from, to).0)
  {
    var s' := ExecuteMove(s, m, from, to).0;
    ExecuteMoveFrame(s, m, from, to);
    if Resolve(s, RefAt(s, to)).Some? {
      BattleOutcome(s, m, from, to);
    } else {
      QuietMove(s, m, from, to);
    }
    forall q | RefAt(s', q).Some?
      ensures Names(s', RefAt(s', q).value) && PieceOf(s', RefAt(s', q).value).status == Active &&
        PieceOf(s', RefAt(s', q).value).position == Some(q)
    {
      if q != from && q != to {
        var r := RefAt(s, q).value;
        assert PieceOf(s, r).position == Some(q);
        assert r != m && Some(r) != RefAt(s, to);
      }
    }
  }

  // ---------------------------------------------------------------- end of game

  /** The Active pieces of a roster, in roster order. */
  function ActivePieces(pieces: seq<Piece>): (r: seq<Piece>)
    ensures |r| <= |pieces|
    ensures forall p :: p in r <==> p in pieces && p.status == Active
  {
    if pieces == [] then []
    else (if pieces[0].status == Active then [pieces[0]] else []) + ActivePieces(pieces[1..])
  }

  /** The rosters filtered to their Active pieces, as `checkGameEnd` hands them to the victory test. */
  function ActiveRosters(s: GameState): map<Color, seq<Piece>> {
    map c | c in s.players :: ActivePieces(s.players[c].pieces)
  }

  /** The first Active flag of a roster, if there is one. */
  function ActiveFlag(pieces: seq<Piece>): Option<Piece> {
    var i := FirstActiveFlag(pieces);
    if i < |pieces| then Some(pieces[i]) else None
  }

  lemma {:induction false} ActiveFlagOfActivePieces(pieces: seq<Piece>)
    ensures ActiveFlag(ActivePieces(pieces)) == ActiveFlag(pieces)
  {
    if pieces != [] {
      ActiveFlagOfActivePieces(pieces[1..]);
      var rest := ActivePieces(pieces[1..]);
      if pieces[0].status == Active {
        assert ActivePieces(pieces) == [pieces[0]] + rest;
        assert ([pieces[0]] + rest)[1..] == rest;
      } else {
        assert ActivePieces(pieces) == rest;
      }
    }
  }

  /** Filtering out pieces that are not Active does not change whether a player is defeated: the
      defeat test looks at Active pieces only. */
  lemma DefeatIgnoresInactive(pieces: seq<Piece>)
    ensures IsPlayerDefeated(ActivePieces(pieces)) == IsPlayerDefeated(pieces)
  {
    var a := ActivePieces(pieces);
    ActiveFlagOfActivePieces(pieces);
    if HasMovablePiece(pieces) {
      var i :| 0 <= i < |pieces| && pieces[i].status == Active && CanPieceMove(pieces[i]);
      assert pieces[i] in a;
      var j :| 0 <= j < |a| && a[j] == pieces[i];
      assert HasMovablePiece(a);
    }
    if HasMovablePiece(a) {
      var i :| 0 <= i < |a| && a[i].status == Active && CanPieceMove(a[i]);
      assert a[i] in pieces;
      var j :| 0 <= j < |pieces| && pieces[j] == a[i];
      assert HasMovablePiece(pieces);
    }
  }

  /** A player after the defeat test: an alive player whose roster is defeated is marked with the turn
      number; anyone else is left as is. */
  function MarkDefeated(player: Player, turnNumber: int): Player {
    if player.isAlive && IsPlayerDefeated(player.pieces)
    then player.(isAlive := false, defeatedAt := Some(turnNumber))
    else player
  }

  /** The defeat test applied to the first `n` players in creation order. */
  function DefeatPass(s: GameState, n: nat): GameState
    requires n <= |PlayerOrder|
  {
    if n == 0 then s
    else
      var s1 := DefeatPass(s, n - 1);
      var c := PlayerOrder[n - 1];
      if c in s1.players then s1.(players := s1.players[c := MarkDefeated(s1.players[c], s.turnInfo.turnNumber)]) else s1
  }

  /** `checkGameEnd`: the defeat test on every player, then the alliance test on the Active rosters. */
  function CheckGameEnd(s: GameState): (r: GameState)
    ensures r.board == s.board && r.turnInfo == s.turnInfo && r.moveHistory == s.moveHistory
    ensures r.players.Keys == s.players.Keys
    ensures forall c :: c in s.players ==> r.players[c].pieces == s.players[c].pieces
    ensures r.phase == Finished <==> s.phase == Finished || CheckAllianceVictory(ActiveRosters(s)).Some?
  {
    DefeatPassEffect(s, |PlayerOrder|);
    var s1 := DefeatPass(s, |PlayerOrder|);
    var w := CheckAllianceVictory(ActiveRosters(s));
    if w.Some? then s1.(winningAlliance := w, phase := Finished) else s1
  }

  function ColorIndex(c: Color): (i: nat)
    ensures i < |PlayerOrder| && PlayerOrder[i] == c
  {
    match c
    case Red => 0
    case Green => 1
    case Blue => 2
    case Yellow => 3
  }

  /** ColorIndex numbers the colors in PlayerOrder. */
  lemma OrderIndex(i: nat)
    requires i < |PlayerOrder|
    ensures ColorIndex(PlayerOrder[i]) == i
  {
  }

  lemma {:induction false} DefeatPassEffect(s: GameState, n: nat)
    requires n <= |PlayerOrder|
    ensures var s' := DefeatPass(s, n);
      s' == s.(players := s'.players) && s'.players.Keys == s.players.Keys &&
      forall c :: c in s.players ==>
        s'.players[c] == if ColorIndex(c) < n then MarkDefeated(s.players[c], s.turnInfo.turnNumber) else s.players[c]
  {
    if n > 0 {
      DefeatPassEffect(s, n - 1);
    }
  }

  /** The end-of-game check leaves the board, the rosters, the turn and the history alone; it marks
      exactly the alive players whose rosters are defeated, with the current turn number; and it
      finishes the game exactly when an alliance has won. */
  lemma CheckGameEndEffect(s: GameState)
    ensures var s' := CheckGameEnd(s);
      var w := CheckAllianceVictory(ActiveRosters(s));
      s'.board == s.board && s'.turnInfo == s.turnInfo && s'.moveHistory == s.moveHistory &&
      s'.gameId == s.gameId && s'.players.Keys == s.players.Keys &&
      (forall c :: c in s.players ==>
        s'.players[c].pieces == s.players[c].pieces &&
        s'.players[c].isAlive == (s.players[c].isAlive && !IsPlayerDefeated(s.players[c].pieces)) &&
        s'.players[c].defeatedAt ==
          (if s.players[c].isAlive && IsPlayerDefeated(s.players[c].pieces) then Some(s.turnInfo.turnNumber)
           else s.players[c].defeatedAt)) &&
      (w.Some? ==> s'.phase == Finished && s'.winningAlliance == w) &&
      (w.None? ==> s'.phase == s.phase && s'.winningAlliance == s.winningAlliance)
  {
    DefeatPassEffect(s, |PlayerOrder|);
  }

  /** When an alliance wins, every player of the other alliance has been marked defeated. */
  lemma VictoryMeansEnemiesDefeated(s: GameState, c: Color)
    requires CheckAllianceVictory(ActiveRosters(s)).Some?
    requires c in s.players
    requires AllianceOf(c, CheckAllianceVictory(ActiveRosters(s)).value[0]) == Enemy
    ensures c in CheckGameEnd(s).players && !CheckGameEnd(s).players[c].isAlive
  {
    CheckGameEndEffect(s);
    DefeatIgnoresInactive(s.players[c].pieces);
    assert RosterOf(ActiveRosters(s), c) == ActivePieces(s.players[c].pieces);
  }

  // ---------------------------------------------------------------- turn order

  predicate AliveIn(s: GameState, c: Color) {
    c in s.players && s.players[c].isAlive
  }

  /** The player `j` places after index `from` in the cyclic turn order. */
  function ColorAt(from: nat, j: nat): Color {
    PlayerOrder[(from + j) % 4]
  }

  /** The first offset from `k` to 4 at which the turn order, counted from index `from`, holds an alive
      player: the do-while loop of `nextTurn` looks at offsets 1, 2, 3 and 4 in turn. */
  function FirstAliveAfter(s: GameState, from: nat, k: nat): (r: Option<nat>)
    requires 1 <= k
    decreases 5 - k
    ensures r.Some? ==> k <= r.value <= 4 && AliveIn(s, ColorAt(from, r.value))
    ensures r.Some? ==> forall j :: k <= j < r.value ==> !AliveIn(s, ColorAt(from, j))
    ensures r.None? ==> forall j :: k <= j <= 4 ==> !AliveIn(s, ColorAt(from, j))
  {
    if k > 4 then None
    else if AliveIn(s, ColorAt(from, k)) then Some(k)
    else FirstAliveAfter(s, from, k + 1)
  }

  /** `nextTurn`: the turn passes to the first alive player after the current one (the current one
      itself if nobody else is alive; nobody changes if nobody is alive), the turn number grows
      whenever the turn comes to Red, and the clock is reset. */
  function NextTurn(s: GameState): (r: GameState)
    ensures r == s.(turnInfo := r.turnInfo) && r.turnInfo.timeRemaining == TurnTimeLimit
    ensures (exists c :: AliveIn(s, c)) ==> AliveIn(s, r.turnInfo.currentPlayer)
  {
    var ci := ColorIndex(s.turnInfo.currentPlayer);
    AliveFoundAfter(s, s.turnInfo.currentPlayer);
    var k := FirstAliveAfter(s, ci, 1);
    var next := if k.Some? then ColorAt(ci, k.value) else s.turnInfo.currentPlayer;
    s.(turnInfo := TurnInfo(next, if next == Red then s.turnInfo.turnNumber + 1 else s.turnInfo.turnNumber, TurnTimeLimit))
  }

  /** When anyone is alive, the turn order counted on from `cur` meets an alive player within four
      places. */
  lemma AliveFoundAfter(s: GameState, cur: Color)
    ensures (exists c :: AliveIn(s, c)) ==> FirstAliveAfter(s, ColorIndex(cur), 1).Some?
  {
    if exists c :: AliveIn(s, c) {
      var c :| AliveIn(s, c);
      assert ColorAt(ColorIndex(cur), Gap(cur, c)) == c;
    }
  }

  /** How many places after `a` the color `b` comes in the cyclic turn order: 1 to 4, 4 being `a` itself. */
  function Gap(a: Color, b: Color): (g: nat)
    ensures 1 <= g <= 4
    ensures ColorAt(ColorIndex(a), g) == b
  {
    (ColorIndex(b) - ColorIndex(a) + 3) % 4 + 1
  }

  /** Counting `g` places on from `a` and measuring the gap back gives `g` again. */
  lemma GapOfOffset(a: Color, g: nat)
    requires 1 <= g <= 4
    ensures Gap(a, ColorAt(ColorIndex(a), g)) == g
  {
  }

  /** `nextTurn` changes only the turn: the clock is back at 30, the turn number advances exactly when
      the turn comes to Red, and with nobody alive the current player stays. */
  lemma NextTurnResetsClock(s: GameState)
    ensures var s' := NextTurn(s);
      var next := s'.turnInfo.currentPlayer;
      s' == s.(turnInfo := s'.turnInfo) &&
      s'.turnInfo.timeRemaining == TurnTimeLimit &&
      s'.turnInfo.turnNumber == (if next == Red then s.turnInfo.turnNumber + 1 else s.turnInfo.turnNumber) &&
      ((forall c :: !AliveIn(s, c)) ==> next == s.turnInfo.currentPlayer)
  {
  }

  /** The new current player is alive whenever anyone is, and every player the turn skipped over is not. */
  lemma NextTurnChoosesNextAlive(s: GameState, c: Color)
    requires AliveIn(s, c)
    ensures var cur := s.turnInfo.currentPlayer;
      var next := NextTurn(s).turnInfo.currentPlayer;
      AliveIn(s, next) && forall j :: 1 <= j < Gap(cur, next) ==> !AliveIn(s, ColorAt(ColorIndex(cur), j))
  {
    var cur := s.turnInfo.currentPlayer;
    var ci := ColorIndex(cur);
    var k := FirstAliveAfter(s, ci, 1);
    assert ColorAt(ci, Gap(cur, c)) == c;
    assert k.Some?;
    GapOfOffset(cur, k.value);
  }

  /** The countdown `startTurnTimer` runs once a second: the clock goes down by one and the turn passes
      when it reaches zero. */
  function Tick(s: GameState): (r: GameState)
    ensures r.board == s.board && r.players == s.players && r.moveHistory == s.moveHistory && r.phase == s.phase
    ensures s.turnInfo.timeRemaining > 1 ==> r.turnInfo.currentPlayer == s.turnInfo.currentPlayer
  {
    var t := s.turnInfo.timeRemaining - 1;
    var s1 := s.(turnInfo := s.turnInfo.(timeRemaining := t));
    if t <= 0 then NextTurn(s1) else s1
  }

  /** The clock stays between 1 and 30, and the turn passes exactly when a tick finds one second left. */
  lemma TickKeepsClockInRange(s: GameState)
    requires 1 <= s.turnInfo.timeRemaining <= TurnTimeLimit
    ensures 1 <= Tick(s).turnInfo.timeRemaining <= TurnTimeLimit
    ensures Tick(s).turnInfo.currentPlayer != s.turnInfo.currentPlayer ==> s.turnInfo.timeRemaining == 1
    ensures s.turnInfo.timeRemaining > 1 ==> Tick(s) == s.(turnInfo := s.turnInfo.(timeRemaining := s.turnInfo.timeRemaining - 1))
  {
  }

  // ---------------------------------------------------------------- a whole move

  /** The mover on `from`, if the cell holds a piece. */
  function MoverAt(s: GameState, from: Position): Option<Piece> {
    Resolve(s, RefAt(s, from))
  }

  /** Whether `makeMove` accepts the move: a piece on `from`, owned by the current player, and a move
      the validator accepts. */
  predicate Accepted(s: GameState, from: Position, to: Position)
    requires SquareBoard(s.board)
  {
    MoverAt(s, from).Some? && MoverAt(s, from).value.owner == s.turnInfo.currentPlayer &&
    CanMovePiece(MoverAt(s, from).value, from, to, View(s)) == Valid
  }

  /** An accepted move is one `executeMoveOnBoard` can be called on. */
  lemma AcceptedMoveReady(s: GameState, from: Position, to: Position)
    requires SquareBoard(s.board) && Accepted(s, from, to)
    ensures MoveReady(s, RefAt(s, from).value, from, to)
  {
    ViewAt(s, to);
    assert |View(s)[0]| == BoardSize;
  }

  /** The state and record right after `executeMoveOnBoard`, before the end-of-game check. */
  function Executed(s: GameState, from: Position, to: Position): (GameState, MoveRecord)
    requires SquareBoard(s.board) && Accepted(s, from, to)
  {
    AcceptedMoveReady(s, from, to);
    ExecuteMove(s, RefAt(s, from).value, from, to)
  }

  /** `makeMove`: refuse the move with the first failing check, or execute it, run the end-of-game
      check, and pass the turn unless the game has finished. */
  function MakeMove(s: GameState, from: Position, to: Position): (r: Result<(GameState, MoveRecord), EngineError>)
    requires SquareBoard(s.board)
    ensures r.Ok? <==> Accepted(s, from, to)
    ensures r.Ok? ==> r.value.1.player == s.turnInfo.currentPlayer && r.value.1.from == from && r.value.1.to == to
  {
    var mover := MoverAt(s, from);
    if mover.None? then Err(NoPieceAtSource)
    else if mover.value.owner != s.turnInfo.currentPlayer then Err(NotYourTurn)
    else
      var check := ValidateMove(mover.value, from, to, View(s)).check;
      if check.Invalid? then Err(IllegalMove(check.reason))
      else
        ExecutedRecord(s, from, to);
        var executed := Executed(s, from, to);
        Ok((Conclude(executed.0), executed.1))
  }

  /** What follows the execution step: the end-of-game check, then the turn passes if the game is
      still in play. */
  function Conclude(s1: GameState): GameState {
    var s2 := CheckGameEnd(s1);
    if s2.phase == Playing then NextTurn(s2) else s2
  }

  /** An accepted move is executed and concluded. */
  lemma MakeMoveAccepted(s: GameState, from: Position, to: Position)
    requires SquareBoard(s.board) && Accepted(s, from, to)
    ensures MakeMove(s, from, to) == Ok((Conclude(Executed(s, from, to).0), Executed(s, from, to).1))
  {
  }

  /** A move is refused exactly when there is no piece on `from`, it is not the current player's, or
      the validator rejects it, and the error names the first of these that fails. */
  lemma MakeMoveRefusals(s: GameState, from: Position, to: Position)
    requires SquareBoard(s.board)
    ensures MakeMove(s, from, to).Err? <==> !Accepted(s, from, to)
    ensures MakeMove(s, from, to) == Err(NoPieceAtSource) <==> MoverAt(s, from).None?
    ensures MakeMove(s, from, to) == Err(NotYourTurn) <==>
      MoverAt(s, from).Some? && MoverAt(s, from).value.owner != s.turnInfo.currentPlayer
    ensures forall e :: MakeMove(s, from, to) == Err(IllegalMove(e)) <==>
      MoverAt(s, from).Some? && MoverAt(s, from).value.owner == s.turnInfo.currentPlayer &&
      CanMovePiece(MoverAt(s, from).value, from, to, View(s)) == Invalid(e)
  {
  }

  /** An accepted move appends exactly one record, made by the current player in the current turn,
      and leaves the game id alone. */
  lemma MakeMoveRecordsOnce(s: GameState, from: Position, to: Position)
    requires SquareBoard(s.board) && Accepted(s, from, to)
    ensures MakeMove(s, from, to).Ok?
    ensures var (s', rec) := MakeMove(s, from, to).value;
      s'.moveHistory == s.moveHistory + [rec] && s'.gameId == s.gameId &&
      rec.player == s.turnInfo.currentPlayer && rec.turnNumber == s.turnInfo.turnNumber &&
      rec.from == from && rec.to == to
  {
    MakeMoveAccepted(s, from, to);
    ExecutedRecord(s, from, to);
    ConcludeRecord(Executed(s, from, to).0);
  }

  /** The execution step of an accepted move appends its record, made by the current player, and
      leaves the game id, the phase and the turn alone. */
  lemma ExecutedRecord(s: GameState, from: Position, to: Position)
    requires SquareBoard(s.board) && Accepted(s, from, to)
    ensures var (s1, rec) := Executed(s, from, to);
      s1.moveHistory == s.moveHistory + [rec] && s1.gameId == s.gameId &&
      s1.phase == s.phase && s1.turnInfo == s.turnInfo &&
      rec.player == s.turnInfo.currentPlayer && rec.turnNumber == s.turnInfo.turnNumber &&
      rec.from == from && rec.to == to
  {
    AcceptedMoveReady(s, from, to);
    ExecuteMoveRecord(s, RefAt(s, from).value, from, to);
  }

  /** Concluding a move keeps the history and the game id. */
  lemma ConcludeRecord(s1: GameState)
    ensures Conclude(s1).moveHistory == s1.moveHistory && Conclude(s1).gameId == s1.gameId
  {
    CheckGameEndEffect(s1);
    NextTurnResetsClock(CheckGameEnd(s1));
  }

  /** Concluding a move: a winning alliance finishes the game without passing the turn; otherwise a
      game in play passes the turn and any other phase stays as it was. */
  lemma ConcludeOutcome(s1: GameState)
    ensures var w := CheckAllianceVictory(ActiveRosters(s1));
      var s' := Conclude(s1);
      (w.Some? ==> s'.phase == Finished && s'.winningAlliance == w && s'.turnInfo == s1.turnInfo) &&
      (w.None? && s1.phase == Playing ==> s'.phase == Playing && s'.turnInfo == NextTurn(CheckGameEnd(s1)).turnInfo) &&
      (w.None? && s1.phase != Playing ==> s'.phase == s1.phase && s'.turnInfo == s1.turnInfo)
  {
    CheckGameEndEffect(s1);
    NextTurnResetsClock(CheckGameEnd(s1));
  }

  /** After the execution step, `makeMove` changes only the players' life flags, the turn, the phase
      and the winning alliance. */
  lemma MakeMoveAfterExecute(s: GameState, from: Position, to: Position)
    requires SquareBoard(s.board) && Accepted(s, from, to)
    ensures MakeMove(s, from, to).Ok?
    ensures var s1 := Executed(s, from, to).0;
      var s' := MakeMove(s, from, to).value.0;
      s'.board == s1.board && s'.players == CheckGameEnd(s1).players
  {
    MakeMoveAccepted(s, from, to);
    ConcludeKeepsBoard(Executed(s, from, to).0);
  }

  lemma ConcludeKeepsBoard(s1: GameState)
    ensures Conclude(s1).board == s1.board && Conclude(s1).players == CheckGameEnd(s1).players
  {
    CheckGameEndEffect(s1);
    NextTurnResetsClock(CheckGameEnd(s1));
  }

  /** Players only ever die: a player alive after the move was alive before it, and a player who dies
      in the move is one whose roster is defeated, stamped with the turn number of the move. */
  lemma MakeMoveAliveMonotone(s: GameState, from: Position, to: Position, c: Color)
    requires SquareBoard(s.board) && Accepted(s, from, to)
    requires c in s.players
    ensures MakeMove(s, from, to).Ok?
    ensures var s' := MakeMove(s, from, to).value.0;
      c in s'.players &&
      (s'.players[c].isAlive ==> s.players[c].isAlive) &&
      (s.players[c].isAlive && !s'.players[c].isAlive ==>
         s'.players[c].defeatedAt == Some(s.turnInfo.turnNumber) && IsPlayerDefeated(s'.players[c].pieces)) &&
      (!s.players[c].isAlive ==> s'.players[c].defeatedAt == s.players[c].defeatedAt)
  {
    AcceptedMoveReady(s, from, to);
    var m := RefAt(s, from).value;
    var s1 := Executed(s, from, to).0;
    PlayerFlagsKept(s, m, from, to, c);
    ExecuteMoveFrame(s, m, from, to);
    CheckGameEndEffect(s1);
    MakeMoveAfterExecute(s, from, to);
  }

  /** Executing a move touches pieces only: no player's life or defeat turn changes. */
  lemma PlayerFlagsKept(s: GameState, m: PieceRef, from: Position, to: Position, c: Color)
    requires MoveReady(s, m, from, to) && c in s.players
    ensures var s1 := ExecuteMove(s, m, from, to).0;
      c in s1.players && s1.players[c] == s.players[c].(pieces := s1.players[c].pieces)
  {
    var target := RefAt(s, to);
    if Resolve(s, target).Some? {
      var s1 := Fight(s, m, target.value, from, to).0;
      EliminationsTouchPiecesOnly(s, m, target.value, from, to, Fight(s, m, target.value, from, to).1, c);
      AdvanceTouchesPiecesOnly(s1, m, from, to, c);
    } else {
      AdvanceTouchesPiecesOnly(s, m, from, to, c);
    }
  }

  /** Taking casualties off changes roster entries only, never a player's other fields. */
  lemma EliminationsTouchPiecesOnly(s: GameState, m: PieceRef, t: PieceRef, from: Position, to: Position, b: Battle, c: Color)
    requires SquareBoard(s.board) && OnBoard(from) && OnBoard(to) && Names(s, m) && Names(s, t) && c in s.players
    ensures var s1 := Eliminations(s, m, t, from, to, b);
      c in s1.players && s1.players[c] == s.players[c].(pieces := s1.players[c].pieces)
  {
    var s1 := if PieceOf(s, m) in b.eliminated then Remove(s, m, from) else s;
    if PieceOf(s, m) in b.eliminated {
      RemoveEffect(s, m, from);
    }
    if PieceOf(s, t) in b.eliminated {
      RemoveEffect(s1, t, to);
    }
  }

  /** Advancing changes roster entries only, never a player's other fields. */
  lemma AdvanceTouchesPiecesOnly(s1: GameState, m: PieceRef, from: Position, to: Position, c: Color)
    requires SquareBoard(s1.board) && OnBoard(from) && OnBoard(to) && Names(s1, m) && c in s1.players
    ensures var s2 := Advance(s1, m, from, to);
      c in s2.players && s2.players[c] == s1.players[c].(pieces := s2.players[c].pieces)
  {
  }

  /** When the move wins the game for an alliance, the game is finished with that alliance and the
      turn does not pass; otherwise a game in play passes the turn. */
  lemma MakeMoveEndsOrPasses(s: GameState, from: Position, to: Position)
    requires SquareBoard(s.board) && Accepted(s, from, to)
    ensures MakeMove(s, from, to).Ok?
    ensures var s1 := Executed(s, from, to).0;
      var w := CheckAllianceVictory(ActiveRosters(s1));
      var s' := MakeMove(s, from, to).value.0;
      (w.Some? ==> s'.phase == Finished && s'.winningAlliance == w && s'.turnInfo == s.turnInfo) &&
      (w.None? && s.phase == Playing ==> s'.phase == Playing && s'.turnInfo == NextTurn(CheckGameEnd(s1)).turnInfo) &&
      (w.None? && s.phase != Playing ==> s'.phase == s.phase && s'.turnInfo == s.turnInfo)
  {
    MakeMoveAccepted(s, from, to);
    ExecutedRecord(s, from, to);
    ConcludeOutcome(Executed(s, from, to).0);
  }

  /** Accepted moves keep the board and the rosters in agreement. */
  lemma MakeMoveKeepsPlaced(s: GameState, from: Position, to: Position)
    requires Placed(s) && Accepted(s, from, to)
    ensures MakeMove(s, from, to).Ok? && Placed(MakeMove(s, from, to).value.0)
  {
    AcceptedMoveReady(s, from, to);
    ExecuteMoveKeepsPlaced(s, RefAt(s, from).value, from, to);
    MakeMoveAccepted(s, from, to);
    ConcludeKeepsPlaced(Executed(s, from, to).0);
  }

  /** Concluding a move changes neither the board nor any roster entry. */
  lemma ConcludeKeepsPlaced(s1: GameState)
    requires Placed(s1)
    ensures Placed(Conclude(s1))
  {
    ConcludeKeepsBoard(s1);
    CheckGameEndEffect(s1);
    var s' := Conclude(s1);
    assert forall p :: RefAt(s', p) == RefAt(s1, p);
    assert forall r :: Names(s1, r) ==> Names(s', r) && PieceOf(s', r) == PieceOf(s1, r);
  }
}
