/** Saving and restoring games: the serialized form, in which board cells hold piece ids instead of
    pieces, and the bounded undo/redo stack of serialized snapshots `GameStateManager` keeps. */
module Persistence {
  import opened Common
  import opened Pieces
  import opened GameData
  import opened EngineModel

  // ---------------------------------------------------------------- serialized form

  datatype SerializedPlayer = SerializedPlayer(
    color: Color,
    name: string,
    isAI: bool,
    isAlive: bool,
    pieces: seq<Piece>,
    defeatedAt: Option<int>)

  datatype SerializedGameState = SerializedGameState(
    gameId: string,
    phase: Phase,
    boardState: seq<seq<Option<string>>>,
    players: seq<SerializedPlayer>,
    turnInfo: TurnInfo,
    moveHistory: seq<MoveRecord>,
    winningAlliance: Option<seq<Color>>)

  /** The id of the piece a board cell refers to, or none for an empty cell. */
  function CellId(s: GameState, cell: Option<PieceRef>): Option<string> {
    var o := Resolve(s, cell);
    if o.Some? then Some(o.value.id) else None
  }

  function SerializePlayer(p: Player): SerializedPlayer {
    SerializedPlayer(p.color, p.name, p.isAI, p.isAlive, p.pieces, p.defeatedAt)
  }

  /** The players of the first `n` colors of the creation order, in that order. */
  function SerializedPlayers(s: GameState, n: nat): seq<SerializedPlayer>
    requires n <= |PlayerOrder|
  {
    if n == 0 then []
    else
      var c := PlayerOrder[n - 1];
      SerializedPlayers(s, n - 1) + if c in s.players then [SerializePlayer(s.players[c])] else []
  }

  /** `serializeGameState`: the same game with every board cell replaced by its occupant's id. */
  function Serialize(s: GameState): (ser: SerializedGameState)
    ensures |ser.boardState| == |s.board|
    ensures forall r :: 0 <= r < |s.board| ==> |ser.boardState[r]| == |s.board[r]|
    ensures forall p :: RefAt(s, p).Some? && Names(s, RefAt(s, p).value) ==>
      ser.boardState[p.row][p.col] == Some(PieceOf(s, RefAt(s, p).value).id)
    ensures forall p :: RefAt(s, p).None? && 0 <= p.row < |s.board| && 0 <= p.col < |s.board[p.row]| ==>
      ser.boardState[p.row][p.col] == None
  {
    SerializedGameState(
      s.gameId, s.phase,
      seq(|s.board|, r requires 0 <= r < |s.board| =>
        seq(|s.board[r]|, c requires 0 <= c < |s.board[r]| => CellId(s, s.board[r][c]))),
      SerializedPlayers(s, |PlayerOrder|),
      s.turnInfo, s.moveHistory, s.winningAlliance)
  }

  /** The id map of one roster: each of the first `k` pieces' ids to its roster slot, a later piece
      with the same id replacing an earlier one. */
  function RosterIds(c: Color, pieces: seq<Piece>, k: nat): map<string, PieceRef>
    requires k <= |pieces|
  {
    if k == 0 then map[] else RosterIds(c, pieces, k - 1)[pieces[k - 1].id := PieceRef(c, k - 1)]
  }

  /** The id map `deserializeGameState` builds from all rosters, later rosters replacing earlier ones. */
  function IdMap(players: seq<SerializedPlayer>): map<string, PieceRef> {
    if players == [] then map[]
    else
      var last := players[|players| - 1];
      IdMap(players[..|players| - 1]) + RosterIds(last.color, last.pieces, |last.pieces|)
  }

  /** The cell a serialized id turns back into: the roster slot the id map gives, and an empty cell
      for a missing, empty or unknown id. */
  function CellOf(ids: map<string, PieceRef>, cellId: Option<string>): (cell: Option<PieceRef>)
    ensures cell.Some? <==> cellId.Some? && cellId.value != "" && cellId.value in ids
  {
    if cellId.Some? && cellId.value != "" && cellId.value in ids then Some(ids[cellId.value]) else None
  }

  function DeserializePlayer(p: SerializedPlayer): Player {
    Player(p.color, p.name, p.isAI, p.isAlive, p.pieces, p.defeatedAt)
  }

  /** The player map rebuilt from the serialized list, a later entry for a color replacing an earlier one. */
  function PlayerMap(players: seq<SerializedPlayer>): map<Color, Player> {
    if players == [] then map[]
    else
      var last := players[|players| - 1];
      PlayerMap(players[..|players| - 1])[last.color := DeserializePlayer(last)]
  }

  /** `deserializeGameState`: the rosters rebuilt from the list, and every board id resolved through
      the id map of all rosters. */
  function Deserialize(ser: SerializedGameState): (s: GameState)
    ensures |s.board| == |ser.boardState|
    ensures forall r :: 0 <= r < |s.board| ==> |s.board[r]| == |ser.boardState[r]|
    ensures forall r, c :: 0 <= r < |s.board| && 0 <= c < |s.board[r]| ==>
      s.board[r][c] == CellOf(IdMap(ser.players), ser.boardState[r][c])
  {
    var ids := IdMap(ser.players);
    GameState(
      ser.gameId, ser.phase,
      seq(|ser.boardState|, r requires 0 <= r < |ser.boardState| =>
        seq(|ser.boardState[r]|, c requires 0 <= c < |ser.boardState[r]| => CellOf(ids, ser.boardState[r][c]))),
      PlayerMap(ser.players),
      ser.turnInfo, ser.moveHistory, ser.winningAlliance)
  }

  // ---------------------------------------------------------------- round trip

  /** No two roster entries of the game share an id. */
  ghost predicate UniqueIds(s: GameState) {
    forall r1, r2 :: Names(s, r1) && Names(s, r2) && PieceOf(s, r1).id == PieceOf(s, r2).id ==> r1 == r2
  }

  /** Every roster entry has a non-empty id, as every piece `createPiece` makes does. */
  ghost predicate NonEmptyIds(s: GameState) {
    forall r :: Names(s, r) ==> PieceOf(s, r).id != ""
  }

  /** Every player is filed under its own color. */
  predicate ColorsMatch(s: GameState) {
    forall c :: c in s.players ==> s.players[c].color == c
  }

  /** Every board reference names a roster entry: the board holds only pieces of the rosters. */
  ghost predicate BoardInRosters(s: GameState) {
    forall p :: RefAt(s, p).Some? ==> Names(s, RefAt(s, p).value)
  }

  /** A roster's id map holds exactly the ids of its first `k` pieces. */
  lemma {:induction false} RosterIdsKeys(c: Color, pieces: seq<Piece>, k: nat)
    requires k <= |pieces|
    ensures forall id :: id in RosterIds(c, pieces, k) <==> exists i :: 0 <= i < k && pieces[i].id == id
  {
    if k > 0 {
      RosterIdsKeys(c, pieces, k - 1);
    }
  }

  /** A piece whose id no later piece repeats is found at its own slot. */
  lemma {:induction false} RosterIdsAt(c: Color, pieces: seq<Piece>, k: nat, i: nat)
    requires i < k <= |pieces|
    requires forall j :: i < j < k ==> pieces[j].id != pieces[i].id
    ensures pieces[i].id in RosterIds(c, pieces, k) && RosterIds(c, pieces, k)[pieces[i].id] == PieceRef(c, i)
  {
    if i < k - 1 {
      RosterIdsAt(c, pieces, k - 1, i);
    }
  }

  /** Serializing lists the players of the first `n` colors; adding a color appends at most one. */
  lemma SerializedPlayersStep(s: GameState, n: nat)
    requires 0 < n <= |PlayerOrder|
    ensures var sp := SerializedPlayers(s, n);
      var c := PlayerOrder[n - 1];
      (c in s.players ==> |sp| > 0 && sp[..|sp| - 1] == SerializedPlayers(s, n - 1) && sp[|sp| - 1] == SerializePlayer(s.players[c])) &&
      (c !in s.players ==> sp == SerializedPlayers(s, n - 1))
  {
    var c := PlayerOrder[n - 1];
    if c in s.players {
      var prev := SerializedPlayers(s, n - 1);
      assert SerializedPlayers(s, n) == prev + [SerializePlayer(s.players[c])];
      assert (prev + [SerializePlayer(s.players[c])])[..|prev|] == prev;
    }
  }

  /** Adding a color's serialized roster extends the id map by that roster's ids, and the player
      map by that player. */
  lemma SerializedMapsStep(s: GameState, n: nat)
    requires 0 < n <= |PlayerOrder|
    ensures var c := PlayerOrder[n - 1];
      var sp := SerializedPlayers(s, n);
      var prev := SerializedPlayers(s, n - 1);
      (c in s.players ==>
        IdMap(sp) == IdMap(prev) + RosterIds(s.players[c].color, s.players[c].pieces, |s.players[c].pieces|) &&
        PlayerMap(sp) == PlayerMap(prev)[s.players[c].color := s.players[c]]) &&
      (c !in s.players ==> IdMap(sp) == IdMap(prev) && PlayerMap(sp) == PlayerMap(prev))
  {
    SerializedPlayersStep(s, n);
    var sp := SerializedPlayers(s, n);
    if sp != [] {
      var last := sp[|sp| - 1];
      assert IdMap(sp) == IdMap(sp[..|sp| - 1]) + RosterIds(last.color, last.pieces, |last.pieces|);
      assert PlayerMap(sp) == PlayerMap(sp[..|sp| - 1])[last.color := DeserializePlayer(last)];
    }
  }

  /** The id map of the serialized rosters of the first `n` colors knows the ids of their pieces
      and no others. */
  lemma {:induction false} IdMapKeys(s: GameState, n: nat)
    requires n <= |PlayerOrder|
    ensures forall id :: id in IdMap(SerializedPlayers(s, n)) ==>
      exists r :: Names(s, r) && ColorIndex(r.owner) < n && PieceOf(s, r).id == id
  {
    if n > 0 {
      IdMapKeys(s, n - 1);
      IdMapKeysStep(s, n);
    }
  }

  /** Every id in the id map of the first `n` colors is the id of one of their roster pieces. */
  ghost predicate IdsKnown(s: GameState, n: nat)
    requires n <= |PlayerOrder|
  {
    forall id :: id in IdMap(SerializedPlayers(s, n)) ==>
      exists r :: Names(s, r) && ColorIndex(r.owner) < n && PieceOf(s, r).id == id
  }

  /** Adding the `n`-th color's roster adds only the ids of its pieces. */
  lemma IdMapKeysStep(s: GameState, n: nat)
    requires 0 < n <= |PlayerOrder|
    requires IdsKnown(s, n - 1)
    ensures IdsKnown(s, n)
  {
    SerializedMapsStep(s, n);
    var c := PlayerOrder[n - 1];
    if c in s.players {
      var pieces := s.players[c].pieces;
      var ri := RosterIds(s.players[c].color, pieces, |pieces|);
      RosterIdsKeys(s.players[c].color, pieces, |pieces|);
      OrderIndex(n - 1);
      forall id | id in IdMap(SerializedPlayers(s, n))
        ensures exists r :: Names(s, r) && ColorIndex(r.owner) < n && PieceOf(s, r).id == id
      {
        if id in ri {
          var j :| 0 <= j < |pieces| && pieces[j].id == id;
          assert Names(s, PieceRef(c, j)) && PieceOf(s, PieceRef(c, j)).id == id;
        } else {
          assert id in IdMap(SerializedPlayers(s, n - 1));
        }
      }
    }
  }

  lemma SameIdSameSlot(s: GameState, r1: PieceRef, r2: PieceRef)
    requires UniqueIds(s) && Names(s, r1) && Names(s, r2)
    ensures PieceOf(s, r1).id == PieceOf(s, r2).id ==> r1 == r2
  {
  }

  /** With unique ids, the id map of the serialized rosters of the first `n` colors sends the id of
      each of their pieces back to that piece's roster slot. */
  lemma {:induction false} IdMapAt(s: GameState, n: nat, r: PieceRef)
    requires n <= |PlayerOrder| && UniqueIds(s) && ColorsMatch(s)
    requires Names(s, r) && ColorIndex(r.owner) < n
    ensures PieceOf(s, r).id in IdMap(SerializedPlayers(s, n)) && IdMap(SerializedPlayers(s, n))[PieceOf(s, r).id] == r
  {
    if r.owner == PlayerOrder[n - 1] {
      IdMapAtOwn(s, n, r);
    } else {
      IdMapAt(s, n - 1, r);
      IdMapAtOther(s, n, r);
    }
  }

  /** The roster of the `n`-th color sends its own pieces' ids to their slots in the id map. */
  lemma IdMapAtOwn(s: GameState, n: nat, r: PieceRef)
    requires 0 < n <= |PlayerOrder| && UniqueIds(s) && ColorsMatch(s)
    requires Names(s, r) && r.owner == PlayerOrder[n - 1]
    ensures PieceOf(s, r).id in IdMap(SerializedPlayers(s, n)) && IdMap(SerializedPlayers(s, n))[PieceOf(s, r).id] == r
  {
    SerializedMapsStep(s, n);
    var c := r.owner;
    var id := PieceOf(s, r).id;
    var pieces := s.players[c].pieces;
    var ri := RosterIds(c, pieces, |pieces|);
    assert s.players[c].color == c;
    assert IdMap(SerializedPlayers(s, n)) == IdMap(SerializedPlayers(s, n - 1)) + ri;
    OwnRosterIds(s, r);
    assert id in ri && ri[id] == r;
  }

  /** Adding the roster of a color other than a piece's own keeps that piece's id entry. */
  lemma IdMapAtOther(s: GameState, n: nat, r: PieceRef)
    requires 0 < n <= |PlayerOrder| && UniqueIds(s) && ColorsMatch(s)
    requires Names(s, r) && r.owner != PlayerOrder[n - 1]
    requires PieceOf(s, r).id in IdMap(SerializedPlayers(s, n - 1)) && IdMap(SerializedPlayers(s, n - 1))[PieceOf(s, r).id] == r
    ensures PieceOf(s, r).id in IdMap(SerializedPlayers(s, n)) && IdMap(SerializedPlayers(s, n))[PieceOf(s, r).id] == r
  {
    SerializedMapsStep(s, n);
    var c := PlayerOrder[n - 1];
    if c in s.players {
      var pieces := s.players[c].pieces;
      var ri := RosterIds(c, pieces, |pieces|);
      assert s.players[c].color == c;
      assert IdMap(SerializedPlayers(s, n)) == IdMap(SerializedPlayers(s, n - 1)) + ri;
      OtherRosterIds(s, c, r);
    }
  }

  /** With unique ids, a roster's own id map sends each of its piece ids to that piece's slot. */
  lemma OwnRosterIds(s: GameState, r: PieceRef)
    requires UniqueIds(s) && Names(s, r)
    ensures var pieces := s.players[r.owner].pieces;
      PieceOf(s, r).id in RosterIds(r.owner, pieces, |pieces|) &&
      RosterIds(r.owner, pieces, |pieces|)[PieceOf(s, r).id] == r
  {
    var pieces := s.players[r.owner].pieces;
    forall j | r.index < j < |pieces|
      ensures pieces[j].id != pieces[r.index].id
    {
      SameIdSameSlot(s, PieceRef(r.owner, j), r);
    }
    RosterIdsAt(r.owner, pieces, |pieces|, r.index);
  }

  /** With unique ids, another color's roster id map does not know a piece's id. */
  lemma OtherRosterIds(s: GameState, c: Color, r: PieceRef)
    requires UniqueIds(s) && Names(s, r) && c in s.players && c != r.owner
    ensures PieceOf(s, r).id !in RosterIds(c, s.players[c].pieces, |s.players[c].pieces|)
  {
    var pieces := s.players[c].pieces;
    RosterIdsKeys(c, pieces, |pieces|);
    forall j | 0 <= j < |pieces|
      ensures pieces[j].id != PieceOf(s, r).id
    {
      SameIdSameSlot(s, PieceRef(c, j), r);
    }
  }

  /** Rebuilding the player map from the serialized players of the first `n` colors gives back those players. */
  lemma {:induction false} PlayerMapOfSerialized(s: GameState, n: nat)
    requires n <= |PlayerOrder| && ColorsMatch(s)
    ensures forall c :: c in PlayerMap(SerializedPlayers(s, n)) <==> c in s.players && ColorIndex(c) < n
    ensures forall c :: c in PlayerMap(SerializedPlayers(s, n)) ==> PlayerMap(SerializedPlayers(s, n))[c] == s.players[c]
  {
    if n > 0 {
      PlayerMapOfSerialized(s, n - 1);
      SerializedMapsStep(s, n);
      OrderIndex(n - 1);
      var c := PlayerOrder[n - 1];
      var m := PlayerMap(SerializedPlayers(s, n));
      var prev := PlayerMap(SerializedPlayers(s, n - 1));
      if c in s.players {
        assert m == prev[c := s.players[c]];
      } else {
        assert m == prev;
      }
      forall d ensures d in m <==> d in s.players && ColorIndex(d) < n {
        if d != c {
          assert ColorIndex(d) != n - 1;
        }
      }
    }
  }

  /** The round trip: when piece ids are non-empty and unique and the board holds only roster pieces,
      deserializing the serialized game gives back the very same game, every board cell naming the
      same roster entry as before. */
  lemma SerializeRoundTrip(s: GameState)
    requires ColorsMatch(s) && UniqueIds(s) && NonEmptyIds(s) && BoardInRosters(s)
    ensures Deserialize(Serialize(s)) == s
  {
    var ser := Serialize(s);
    var d := Deserialize(ser);
    PlayerMapOfSerialized(s, |PlayerOrder|);
    assert d.players.Keys == s.players.Keys;
    assert d.players == s.players;
    forall r, c | 0 <= r < |s.board| && 0 <= c < |s.board[r]|
      ensures d.board[r][c] == s.board[r][c]
    {
      var p := Position(r, c);
      assert RefAt(s, p) == s.board[r][c];
      if RefAt(s, p).Some? {
        IdMapAt(s, |PlayerOrder|, RefAt(s, p).value);
      }
    }
    forall r | 0 <= r < |s.board|
      ensures d.board[r] == s.board[r]
    {
    }
  }

  // ---------------------------------------------------------------- snapshots

  /** A saved game with its label; its timestamp is not modelled. */
  datatype GameSnapshot = GameSnapshot(state: SerializedGameState, description: string)

  const MaxSnapshots: nat := 10

  /** The label of a snapshot: the one given, or `Turn <n>` when it is empty. */
  function SnapshotLabel(s: GameState, description: string): (text: string)
    ensures text != ""
    ensures description != "" ==> text == description
    ensures description == "" ==> |text| > 5 && text[..5] == "Turn " && (text[5] == '-' <==> s.turnInfo.turnNumber < 0)
  {
    if description != "" then description else "Turn " + IntToString(s.turnInfo.turnNumber)
  }

  /** One line of the snapshot list shown to the user. */
  datatype SnapshotInfo = SnapshotInfo(index: nat, description: string, isCurrent: bool)

  /** The bounded undo/redo history: at most ten snapshots and a cursor on the current one, -1 when
      there is none. */
  class GameStateManager {
    var snapshots: seq<GameSnapshot>
    var currentSnapshotIndex: int

    predicate Valid()
      reads this
    {
      -1 <= currentSnapshotIndex < |snapshots| <= MaxSnapshots &&
      (currentSnapshotIndex == -1 <==> snapshots == [])
    }

    constructor ()
      ensures Valid() && snapshots == [] && currentSnapshotIndex == -1
    {
      snapshots := [];
      currentSnapshotIndex := -1;
    }

    /** `createSnapshot`: everything after the cursor is dropped, the serialized game is appended
        and becomes current, and the oldest snapshot goes when there are more than ten. */
    method CreateSnapshot(gameState: GameState, description: string)
      requires Valid()
      modifies this
      ensures Valid()
      ensures var kept := old(snapshots)[..old(currentSnapshotIndex) + 1] +
          [GameSnapshot(Serialize(gameState), SnapshotLabel(gameState, description))];
        snapshots == (if |kept| > MaxSnapshots then kept[1..] else kept)
      ensures currentSnapshotIndex == |snapshots| - 1
      ensures snapshots[currentSnapshotIndex] == GameSnapshot(Serialize(gameState), SnapshotLabel(gameState, description))
      ensures !CanRedo()
    {
      var snapshot := GameSnapshot(Serialize(gameState), SnapshotLabel(gameState, description));
      if currentSnapshotIndex < |snapshots| - 1 {
        snapshots := snapshots[..currentSnapshotIndex + 1];
      }
      snapshots := snapshots + [snapshot];
      currentSnapshotIndex := |snapshots| - 1;
      if |snapshots| > MaxSnapshots {
        snapshots := snapshots[1..];
        currentSnapshotIndex := currentSnapshotIndex - 1;
      }
    }

    /** `canUndo`: there is a snapshot before the current one. */
    function CanUndo(): (b: bool)
      requires Valid()
      reads this
      ensures b <==> 0 <= currentSnapshotIndex - 1 < |snapshots|
    {
      currentSnapshotIndex > 0
    }

    /** `canRedo`: there is a snapshot after the current one. */
    function CanRedo(): (b: bool)
      requires Valid()
      reads this
      ensures b <==> 0 <= currentSnapshotIndex + 1 < |snapshots|
    {
      currentSnapshotIndex < |snapshots| - 1
    }

    /** `undo`: nothing when there is nothing to undo; otherwise the cursor steps back and the
        snapshot there is restored, after which a redo is possible. */
    method Undo() returns (r: Option<GameState>)
      requires Valid()
      modifies this
      ensures Valid() && snapshots == old(snapshots)
      ensures !old(CanUndo()) ==> r == None && currentSnapshotIndex == old(currentSnapshotIndex)
      ensures old(CanUndo()) ==>
        currentSnapshotIndex == old(currentSnapshotIndex) - 1 &&
        r == Some(Deserialize(snapshots[currentSnapshotIndex].state)) && CanRedo()
    {
      if !CanUndo() {
        return None;
      }
      currentSnapshotIndex := currentSnapshotIndex - 1;
      r := Some(Deserialize(snapshots[currentSnapshotIndex].state));
    }

    /** `redo`: nothing when there is nothing to redo; otherwise the cursor steps forward and the
        snapshot there is restored, after which an undo is possible. */
    method Redo() returns (r: Option<GameState>)
      requires Valid()
      modifies this
      ensures Valid() && snapshots == old(snapshots)
      ensures !old(CanRedo()) ==> r == None && currentSnapshotIndex == old(currentSnapshotIndex)
      ensures old(CanRedo()) ==>
        currentSnapshotIndex == old(currentSnapshotIndex) + 1 &&
        r == Some(Deserialize(snapshots[currentSnapshotIndex].state)) && CanUndo()
    {
      if !CanRedo() {
        return None;
      }
      currentSnapshotIndex := currentSnapshotIndex + 1;
      r := Some(Deserialize(snapshots[currentSnapshotIndex].state));
    }

    /** `getCurrentSnapshot`: the snapshot under the cursor; there is none only when the history is empty. */
    function GetCurrentSnapshot(): (o: Option<GameSnapshot>)
      requires Valid()
      reads this
      ensures o.None? <==> snapshots == []
      ensures o.Some? ==> o.value in snapshots
      ensures o.Some? ==> 0 <= currentSnapshotIndex < |snapshots| && o.value == snapshots[currentSnapshotIndex]
    {
      if 0 <= currentSnapshotIndex < |snapshots| then Some(snapshots[currentSnapshotIndex]) else None
    }

    /** `getSnapshotInfo`: one line per snapshot, in order, exactly one of them marked current
        unless the history is empty. */
    function GetSnapshotInfo(): (info: seq<SnapshotInfo>)
      requires Valid()
      reads this
      ensures |info| == |snapshots|
      ensures forall i :: 0 <= i < |info| ==> info[i].index == i && info[i].description == snapshots[i].description
      ensures forall i :: 0 <= i < |info| ==> (info[i].isCurrent <==> i == currentSnapshotIndex)
      ensures snapshots != [] ==> exists i :: 0 <= i < |info| && info[i].isCurrent
    {
      var snaps := snapshots;
      var current := currentSnapshotIndex;
      var info := seq(|snaps|, i requires 0 <= i < |snaps| => SnapshotInfo(i, snaps[i].description, i == current));
      assert snapshots != [] ==> info[currentSnapshotIndex].isCurrent;
      info
    }

    /** `clearSnapshots`: the history is emptied. */
    method ClearSnapshots()
      modifies this
      ensures Valid() && snapshots == [] && currentSnapshotIndex == -1
    {
      snapshots := [];
      currentSnapshotIndex := -1;
    }
  }
}
