/** The game state the engine owns: players with rosters, a 17×17 board whose cells refer to roster
    entries, turn information and move history; plus the rosters `createPlayerPieces` builds. */
module GameData {
  import opened Common
  import opened Pieces
  import opened Rules

  datatype Phase = Setup | Playing | Finished

  datatype TurnInfo = TurnInfo(currentPlayer: Color, turnNumber: int, timeRemaining: int)

  /** A board cell's reference to a roster entry: the piece at `index` of `owner`'s roster. Board and
      rosters share piece objects in the source; the reference makes that sharing explicit. */
  datatype PieceRef = PieceRef(owner: Color, index: nat)

  datatype Player = Player(
    color: Color,
    name: string,
    isAI: bool,
    isAlive: bool,
    pieces: seq<Piece>,
    defeatedAt: Option<int>)

  /** One entry of the move history; `piece` is a copy of the mover taken after the move. */
  datatype MoveRecord = MoveRecord(
    player: Color,
    piece: Piece,
    from: Position,
    to: Position,
    battle: Option<Battle>,
    turnNumber: int)

  datatype GameState = GameState(
    gameId: string,
    phase: Phase,
    board: seq<seq<Option<PieceRef>>>,
    players: map<Color, Player>,
    turnInfo: TurnInfo,
    moveHistory: seq<MoveRecord>,
    winningAlliance: Option<seq<Color>>)

  const BoardSize: nat := 17
  const TurnTimeLimit: int := 30

  /** The order players are created in, which is also the turn order. */
  const PlayerOrder: seq<Color> := [Red, Green, Blue, Yellow]

  lemma PlayerOrderComplete(c: Color)
    ensures c in PlayerOrder
    ensures forall i, j :: 0 <= i < j < 4 ==> PlayerOrder[i] != PlayerOrder[j]
  {
  }

  /** The 17×17 shape of the engine's board. */
  predicate SquareBoard(board: seq<seq<Option<PieceRef>>>) {
    |board| == BoardSize && forall r :: 0 <= r < |board| ==> |board[r]| == BoardSize
  }

  // ---------------------------------------------------------------- reading the board

  /** The roster entry a reference names; a reference to no entry reads as an empty cell. */
  function Resolve(s: GameState, cell: Option<PieceRef>): (o: Option<Piece>)
    ensures o.Some? <==> cell.Some? && cell.value.owner in s.players && cell.value.index < |s.players[cell.value.owner].pieces|
  {
    if cell.Some? && cell.value.owner in s.players && cell.value.index < |s.players[cell.value.owner].pieces|
    then Some(s.players[cell.value.owner].pieces[cell.value.index])
    else None
  }

  /** Whether `ref` names an existing roster entry. */
  predicate Names(s: GameState, ref: PieceRef) {
    ref.owner in s.players && ref.index < |s.players[ref.owner].pieces|
  }

  /** The roster entry `ref` names. */
  function PieceOf(s: GameState, ref: PieceRef): Piece
    requires Names(s, ref)
  {
    s.players[ref.owner].pieces[ref.index]
  }

  /** The reference in a cell, or none outside the board. */
  function RefAt(s: GameState, p: Position): Option<PieceRef> {
    if 0 <= p.row < |s.board| && 0 <= p.col < |s.board[p.row]| then s.board[p.row][p.col] else None
  }

  /** The board as the rules see it: every cell holds the piece its reference names. */
  function View(s: GameState): (b: Board)
    ensures |b| == |s.board|
    ensures forall r :: 0 <= r < |b| ==> |b[r]| == |s.board[r]|
  {
    seq(|s.board|, r requires 0 <= r < |s.board| =>
      seq(|s.board[r]|, c requires 0 <= c < |s.board[r]| => Resolve(s, s.board[r][c])))
  }

  /** Reading a cell of the view is resolving the cell's reference. */
  lemma ViewAt(s: GameState, p: Position)
    ensures At(View(s), p) == Resolve(s, RefAt(s, p))
  {
  }

  // ---------------------------------------------------------------- rosters

  /** The id `createPlayerPieces` gives the `i`-th piece of kind `k` of color `c`: `<color>_<type>_<i>`. */
  function PieceId(c: Color, k: Kind, i: nat): string {
    ColorTag(c) + "_" + (KindTag(k) + "_" + NatToString(i))
  }

  lemma KindTagInjective(k1: Kind, k2: Kind)
    requires KindTag(k1) == KindTag(k2)
    ensures k1 == k2
  {
    assert KindTag(k1)[..2] == KindTag(k2)[..2];
    assert |KindTag(k1)| == |KindTag(k2)|;
  }

  lemma ColorTagInjective(c1: Color, c2: Color)
    requires ColorTag(c1) == ColorTag(c2)
    ensures c1 == c2
  {
    assert ColorTag(c1)[0] == ColorTag(c2)[0];
  }

  /** An id names its color, kind and ordinal: distinct triples give distinct ids. */
  lemma PieceIdInjective(c1: Color, k1: Kind, i1: nat, c2: Color, k2: Kind, i2: nat)
    requires PieceId(c1, k1, i1) == PieceId(c2, k2, i2)
    ensures c1 == c2 && k1 == k2 && i1 == i2
  {
    TagsHaveNoUnderscore(k1, c1);
    TagsHaveNoUnderscore(k2, c2);
    UnderscoreSplit(ColorTag(c1), KindTag(k1) + "_" + NatToString(i1), ColorTag(c2), KindTag(k2) + "_" + NatToString(i2));
    UnderscoreSplit(KindTag(k1), NatToString(i1), KindTag(k2), NatToString(i2));
    ColorTagInjective(c1, c2);
    KindTagInjective(k1, k2);
    if i1 != i2 {
      NatToStringInjective(i1, i2);
    }
  }

  /** The `i`-th piece of kind `k` in the roster of `c`, created at (0, 0) with its roster id. */
  function RosterPiece(c: Color, k: Kind, i: nat): Piece {
    CreatePiece(k, c, Position(0, 0), Some(PieceId(c, k, i)), 0)
  }

  /** All pieces of kind `k` for color `c`, in creation order. */
  function KindBlock(c: Color, k: Kind): seq<Piece> {
    seq(RosterCount(k), i requires 0 <= i < RosterCount(k) => RosterPiece(c, k, i))
  }

  /** The pieces created for the first `n` kinds of the roster table. */
  function RosterUpTo(c: Color, n: nat): seq<Piece>
    requires n <= |KindOrder|
  {
    if n == 0 then [] else RosterUpTo(c, n - 1) + KindBlock(c, KindOrder[n - 1])
  }

  /** The roster `createPlayerPieces` builds for color `c`. */
  function PlayerPieces(c: Color): seq<Piece> {
    RosterUpTo(c, |KindOrder|)
  }

  lemma {:induction false} RosterUpToLength(c: Color, n: nat)
    requires n <= |KindOrder|
    ensures |RosterUpTo(c, n)| == RosterSize(n)
  {
    if n > 0 {
      RosterUpToLength(c, n - 1);
    }
  }

  /** Each roster slot holds the piece of its kind block, with the ordinal inside the block. */
  lemma RosterSlot(c: Color, n: nat, t: nat, j: nat)
    requires t < n <= |KindOrder|
    requires RosterSize(t) <= j < RosterSize(t + 1)
    ensures j < |RosterUpTo(c, n)|
    ensures RosterUpTo(c, n)[j] == RosterPiece(c, KindOrder[t], j - RosterSize(t))
  {
    RosterBlockSlot(c, t, j);
    RosterPrefix(c, t + 1, n, j);
  }

  /** The slots of the last block built hold that block's pieces. */
  lemma RosterBlockSlot(c: Color, t: nat, j: nat)
    requires t < |KindOrder|
    requires RosterSize(t) <= j < RosterSize(t + 1)
    ensures j < |RosterUpTo(c, t + 1)|
    ensures RosterUpTo(c, t + 1)[j] == RosterPiece(c, KindOrder[t], j - RosterSize(t))
  {
    var prev := RosterUpTo(c, t);
    var block := KindBlock(c, KindOrder[t]);
    RosterUpToLength(c, t);
    var i := j - RosterSize(t);
    assert RosterUpTo(c, t + 1) == prev + block;
    assert i == j - |prev| && 0 <= i < |block|;
    assert (prev + block)[j] == block[i];
  }

  /** Building more blocks leaves the slots already built as they are. */
  lemma {:induction false} RosterPrefix(c: Color, m: nat, n: nat, j: nat)
    requires m <= n <= |KindOrder|
    requires j < RosterSize(m)
    ensures j < |RosterUpTo(c, m)| && j < |RosterUpTo(c, n)|
    ensures RosterUpTo(c, n)[j] == RosterUpTo(c, m)[j]
  {
    RosterUpToLength(c, m);
    RosterUpToLength(c, n);
    RosterSizeMonotone(m, n);
    if m < n {
      RosterPrefix(c, m, n - 1, j);
      RosterUpToLength(c, n - 1);
      var prev := RosterUpTo(c, n - 1);
      assert RosterUpTo(c, n) == prev + KindBlock(c, KindOrder[n - 1]);
      assert (prev + KindBlock(c, KindOrder[n - 1]))[j] == prev[j];
    }
  }

  lemma {:induction false} RosterSizeMonotone(m: nat, n: nat)
    requires m <= n <= |KindOrder|
    ensures RosterSize(m) <= RosterSize(n)
    ensures m < n ==> RosterSize(m) < RosterSize(n)
  {
    if m < n {
      RosterSizeMonotone(m, n - 1);
    }
  }

  /** Every roster slot lies in the block of exactly one kind. */
  lemma {:induction false} SlotBlock(n: nat, j: nat) returns (t: nat)
    requires n <= |KindOrder| && j < RosterSize(n)
    ensures t < n && RosterSize(t) <= j < RosterSize(t + 1)
  {
    if j >= RosterSize(n - 1) {
      t := n - 1;
    } else {
      t := SlotBlock(n - 1, j);
    }
  }

  /** A roster slot belongs to one block only. */
  lemma BlockUnique(t1: nat, t2: nat, j: nat)
    requires t1 < |KindOrder| && t2 < |KindOrder|
    requires RosterSize(t1) <= j < RosterSize(t1 + 1) && RosterSize(t2) <= j < RosterSize(t2 + 1)
    ensures t1 == t2
  {
    if t1 < t2 {
      RosterSizeMonotone(t1 + 1, t2);
    } else if t2 < t1 {
      RosterSizeMonotone(t2 + 1, t1);
    }
  }

  /** A created roster holds 25 pieces of its color, all Active at (0, 0) with the rank of their kind,
      and its last piece is the flag. */
  lemma PlayerPiecesShape(c: Color)
    ensures |PlayerPieces(c)| == 25
    ensures forall j :: 0 <= j < 25 ==>
      PlayerPieces(c)[j].owner == c && PlayerPieces(c)[j].status == Active &&
      PlayerPieces(c)[j].position == Some(Position(0, 0)) &&
      PlayerPieces(c)[j].rank == RankOf(PlayerPieces(c)[j].kind)
    ensures PlayerPieces(c)[24].kind == Flag
  {
    RosterUpToLength(c, |KindOrder|);
    RosterSizes();
    forall j | 0 <= j < 25
      ensures PlayerPieces(c)[j].owner == c && PlayerPieces(c)[j].status == Active &&
        PlayerPieces(c)[j].position == Some(Position(0, 0)) &&
        PlayerPieces(c)[j].rank == RankOf(PlayerPieces(c)[j].kind)
    {
      SlotShape(c, j);
    }
    RosterSlot(c, |KindOrder|, 11, 24);
  }

  /** One slot of a created roster: a piece of its color, Active at (0, 0), ranked by its kind. */
  lemma SlotShape(c: Color, j: nat)
    requires j < RosterSize(|KindOrder|)
    ensures j < |PlayerPieces(c)|
    ensures PlayerPieces(c)[j].owner == c && PlayerPieces(c)[j].status == Active &&
      PlayerPieces(c)[j].position == Some(Position(0, 0)) &&
      PlayerPieces(c)[j].rank == RankOf(PlayerPieces(c)[j].kind)
  {
    var t := SlotBlock(|KindOrder|, j);
    RosterSlot(c, |KindOrder|, t, j);
    var p := RosterPiece(c, KindOrder[t], j - RosterSize(t));
    assert p.owner == c && p.status == Active && p.position == Some(Position(0, 0)) && p.rank == RankOf(p.kind);
  }

  /** The id of a roster slot spells the slot's color, kind block and ordinal within the block. */
  lemma SlotId(c: Color, j: nat) returns (t: nat)
    requires j < RosterSize(|KindOrder|)
    ensures t < |KindOrder| && RosterSize(t) <= j < RosterSize(t + 1)
    ensures j < |PlayerPieces(c)|
    ensures PlayerPieces(c)[j].id == PieceId(c, KindOrder[t], j - RosterSize(t))
  {
    t := SlotBlock(|KindOrder|, j);
    RosterSlot(c, |KindOrder|, t, j);
    assert |ColorTag(c)| > 0;
  }

  /** Every piece of every created roster has an id of its own: no two slots of one roster, and no
      two rosters of different colors, share an id. */
  lemma RosterIdsDistinct(c1: Color, c2: Color, j1: nat, j2: nat)
    requires j1 < 25 && j2 < 25
    requires c1 != c2 || j1 != j2
    ensures |PlayerPieces(c1)| == 25 && |PlayerPieces(c2)| == 25
    ensures PlayerPieces(c1)[j1].id != PlayerPieces(c2)[j2].id
  {
    RosterSizes();
    RosterUpToLength(c1, |KindOrder|);
    RosterUpToLength(c2, |KindOrder|);
    var t1 := SlotId(c1, j1);
    var t2 := SlotId(c2, j2);
    var id1, id2 := PlayerPieces(c1)[j1].id, PlayerPieces(c2)[j2].id;
    assert id1 == PieceId(c1, KindOrder[t1], j1 - RosterSize(t1));
    assert id2 == PieceId(c2, KindOrder[t2], j2 - RosterSize(t2));
    BlockIdsDistinct(c1, t1, j1 - RosterSize(t1), c2, t2, j2 - RosterSize(t2));
  }

  /** Distinct (color, kind block, ordinal) triples name distinct ids. */
  lemma BlockIdsDistinct(c1: Color, t1: nat, i1: nat, c2: Color, t2: nat, i2: nat)
    requires t1 < |KindOrder| && t2 < |KindOrder|
    requires c1 != c2 || t1 != t2 || i1 != i2
    ensures PieceId(c1, KindOrder[t1], i1) != PieceId(c2, KindOrder[t2], i2)
  {
    if PieceId(c1, KindOrder[t1], i1) == PieceId(c2, KindOrder[t2], i2) {
      PieceIdInjective(c1, KindOrder[t1], i1, c2, KindOrder[t2], i2);
      KindOrderComplete(KindOrder[t1]);
    }
  }
}
