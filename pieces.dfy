/** The piece catalog: the twelve kinds, their ranks, the movement table, the
    25-piece roster of every player and the piece factory. */
module Pieces {
  import opened Common

  datatype Kind =
    | Commander | General | Division | Brigade | Regiment | Battalion
    | Company | Platoon | Engineer | Bomb | Mine | Flag

  datatype Color = Red | Green | Blue | Yellow

  datatype Visibility = Hidden | Visible | Revealed

  datatype Status = Active | Captured | Eliminated

  datatype Position = Position(row: int, col: int)

  /** A game piece; `position == None` stands for the source's `position: null`. */
  datatype Piece = Piece(
    id: string,
    kind: Kind,
    rank: int,
    owner: Color,
    position: Option<Position>,
    visibility: Visibility,
    status: Status,
    canMove: bool)

  /** The string value each kind carries in the source's enumeration. */
  function KindTag(k: Kind): string {
    match k
    case Commander => "commander"
    case General => "general"
    case Division => "division"
    case Brigade => "brigade"
    case Regiment => "regiment"
    case Battalion => "battalion"
    case Company => "company"
    case Platoon => "platoon"
    case Engineer => "engineer"
    case Bomb => "bomb"
    case Mine => "mine"
    case Flag => "flag"
  }

  /** The string value each color carries in the source's enumeration. */
  function ColorTag(c: Color): string {
    match c
    case Red => "red"
    case Green => "green"
    case Blue => "blue"
    case Yellow => "yellow"
  }

  lemma TagsHaveNoUnderscore(k: Kind, c: Color)
    ensures '_' !in KindTag(k) && '_' !in ColorTag(c)
  {
  }

  /** Bomb, mine and flag carry reserved negative ranks that are not compared as combat strength. */
  predicate IsSentinel(k: Kind) {
    k == Bomb || k == Mine || k == Flag
  }

  /** The type-to-rank table. */
  function RankOf(k: Kind): (r: int)
    ensures IsSentinel(k) <==> r < 0
    ensures !IsSentinel(k) ==> 32 <= r <= 40
    ensures k == Engineer <==> r == 32
  {
    match k
    case Commander => 40
    case General => 39
    case Division => 38
    case Brigade => 37
    case Regiment => 36
    case Battalion => 35
    case Company => 34
    case Platoon => 33
    case Engineer => 32
    case Bomb => -1
    case Mine => -2
    case Flag => -3
  }

  /** The rank-to-type table; it is keyed by the twelve rank values only. */
  function KindOfRank(r: int): (k: Option<Kind>)
    ensures k.Some? <==> (32 <= r <= 40 || -3 <= r <= -1)
  {
    if r == 40 then Some(Commander)
    else if r == 39 then Some(General)
    else if r == 38 then Some(Division)
    else if r == 37 then Some(Brigade)
    else if r == 36 then Some(Regiment)
    else if r == 35 then Some(Battalion)
    else if r == 34 then Some(Company)
    else if r == 33 then Some(Platoon)
    else if r == 32 then Some(Engineer)
    else if r == -1 then Some(Bomb)
    else if r == -2 then Some(Mine)
    else if r == -3 then Some(Flag)
    else None
  }

  /** The two tables are mutually inverse over the twelve kinds. */
  lemma RankTablesInverse(k: Kind, r: int)
    ensures KindOfRank(RankOf(k)) == Some(k)
    ensures KindOfRank(r) == Some(k) ==> RankOf(k) == r
  {
  }

  /** Distinct kinds have distinct ranks, and every combat rank beats every sentinel rank. */
  lemma RanksDistinct(k1: Kind, k2: Kind)
    ensures k1 != k2 ==> RankOf(k1) != RankOf(k2)
    ensures !IsSentinel(k1) && IsSentinel(k2) ==> RankOf(k1) > RankOf(k2)
  {
    RankTablesInverse(k1, RankOf(k2));
  }

  /** Per-kind counts of the standard roster. */
  function RosterCount(k: Kind): nat {
    match k
    case Commander => 1
    case General => 1
    case Division => 2
    case Brigade => 2
    case Regiment => 2
    case Battalion => 2
    case Company => 3
    case Platoon => 3
    case Engineer => 3
    case Bomb => 2
    case Mine => 3
    case Flag => 1
  }

  /** The key order of the roster table, which is the order in which rosters are built. */
  const KindOrder: seq<Kind> :=
    [Commander, General, Division, Brigade, Regiment, Battalion,
     Company, Platoon, Engineer, Bomb, Mine, Flag]

  /** Number of pieces the roster table assigns to the first `n` kinds of KindOrder. */
  function RosterSize(n: nat): nat
    requires n <= |KindOrder|
  {
    if n == 0 then 0 else RosterSize(n - 1) + RosterCount(KindOrder[n - 1])
  }

  /** Number of pieces of kind `k` among those the first `n` kinds of KindOrder contribute. */
  function CountOfKind(n: nat, k: Kind): nat
    requires n <= |KindOrder|
  {
    if n == 0 then 0 else CountOfKind(n - 1, k) + (if KindOrder[n - 1] == k then RosterCount(k) else 0)
  }

  /** Every player's roster holds 25 pieces, 16 of them the eight ranked officer kinds that come first. */
  lemma RosterSizes()
    ensures RosterSize(|KindOrder|) == 25
    ensures RosterSize(8) == 16
    ensures RosterSize(9) == 19 && RosterSize(10) == 21 && RosterSize(11) == 24
    ensures forall i :: 0 <= i < 8 ==> !IsSentinel(KindOrder[i]) && KindOrder[i] != Engineer
  {
    assert RosterSize(1) == 1; assert RosterSize(2) == 2; assert RosterSize(3) == 4;
    assert RosterSize(4) == 6; assert RosterSize(5) == 8; assert RosterSize(6) == 10;
    assert RosterSize(7) == 13; assert RosterSize(8) == 16; assert RosterSize(9) == 19;
    assert RosterSize(10) == 21; assert RosterSize(11) == 24;
  }

  /** A kind that does not occur among the first `n` kinds of KindOrder has no pieces there. */
  lemma {:induction false} CountOfAbsentKind(n: nat, k: Kind)
    requires n <= |KindOrder|
    requires forall i :: 0 <= i < n ==> KindOrder[i] != k
    ensures CountOfKind(n, k) == 0
  {
    if n > 0 {
      CountOfAbsentKind(n - 1, k);
    }
  }

  /** The roster holds one flag, two bombs and three mines. */
  lemma RosterComposition()
    ensures CountOfKind(|KindOrder|, Flag) == 1
    ensures CountOfKind(|KindOrder|, Bomb) == 2
    ensures CountOfKind(|KindOrder|, Mine) == 3
  {
    CountOfAbsentKind(11, Flag);
    CountOfAbsentKind(10, Mine);
    assert CountOfKind(12, Mine) == CountOfKind(11, Mine) == CountOfKind(10, Mine) + 3;
    CountOfAbsentKind(9, Bomb);
    assert CountOfKind(12, Bomb) == CountOfKind(11, Bomb) == CountOfKind(10, Bomb) == CountOfKind(9, Bomb) + 2;
  }

  /** The roster holds three engineers. */
  lemma RosterEngineers()
    ensures CountOfKind(|KindOrder|, Engineer) == 3
  {
    CountOfAbsentKind(8, Engineer);
    assert CountOfKind(12, Engineer) == CountOfKind(11, Engineer) == CountOfKind(10, Engineer)
      == CountOfKind(9, Engineer) == CountOfKind(8, Engineer) + 3;
  }

  /** Every kind appears in KindOrder exactly once, at its own index. */
  lemma KindOrderComplete(k: Kind)
    ensures k in KindOrder
    ensures forall i, j :: 0 <= i < j < |KindOrder| ==> KindOrder[i] != KindOrder[j]
  {
  }

  /** One row of the movement table. */
  datatype Ability = Ability(canMove: bool, railwayBonus: bool)

  function MovementAbility(k: Kind): (a: Ability)
    ensures a.canMove <==> k != Mine && k != Flag
    ensures a.railwayBonus <==> k == Engineer
  {
    match k
    case Engineer => Ability(true, true)
    case Mine => Ability(false, false)
    case Flag => Ability(false, false)
    case _ => Ability(true, false)
  }

  /** A piece may move only while its own flag, its status and its kind's table row all allow it. */
  predicate CanPieceMove(p: Piece)
    ensures CanPieceMove(p) ==> p.status == Active && p.kind != Mine && p.kind != Flag
  {
    p.canMove && p.status == Active && MovementAbility(p.kind).canMove
  }

  /** Only the engineer has the railway bonus. */
  predicate HasRailwayBonus(p: Piece)
    ensures HasRailwayBonus(p) <==> p.kind == Engineer
  {
    MovementAbility(p.kind).railwayBonus
  }

  /** The id `createPiece` makes up when it is given none: `<color>_<type>_<clock>`. */
  function DefaultPieceId(k: Kind, c: Color, clock: nat): string {
    ColorTag(c) + "_" + KindTag(k) + "_" + NatToString(clock)
  }

  /** The piece factory. `clock` stands for the wall-clock reading used only when `id` is missing or empty. */
  function CreatePiece(k: Kind, owner: Color, pos: Position, id: Option<string>, clock: nat): (p: Piece)
    ensures p.kind == k && p.owner == owner && p.position == Some(pos)
    ensures p.rank == RankOf(k)
    ensures p.status == Active && p.visibility == Visible
    ensures CanPieceMove(p) <==> k != Mine && k != Flag
    ensures HasRailwayBonus(p) <==> k == Engineer
    ensures id.Some? && id.value != "" ==> p.id == id.value
    ensures id.None? || id.value == "" ==> p.id == DefaultPieceId(k, owner, clock)
  {
    Piece(
      if id.Some? && id.value != "" then id.value else DefaultPieceId(k, owner, clock),
      k, RankOf(k), owner, Some(pos), Visible, Active, MovementAbility(k).canMove)
  }
}
