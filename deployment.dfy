/** The fixed deployment the piece layer performs when it starts a game: every player's flag goes to a
    headquarters cell, mines to the back two rows, and the other pieces, nearest to the centre first,
    to the remaining cells of the player's wing. The pieces and board cells are written in place in
    the engine's state. */
module Deployment {
  import opened Common
  import opened Pieces
  import opened Rules
  import opened GameData
  import opened EngineModel
  import Setup

  // ---------------------------------------------------------------- cells of a wing

  /** The twenty camp cells, five per player, in the order red, green, blue, yellow. */
  const CampPositions: seq<Position> := [
    Position(7, 12), Position(9, 12), Position(8, 13), Position(7, 14), Position(9, 14),
    Position(2, 7), Position(2, 9), Position(3, 8), Position(4, 7), Position(4, 9),
    Position(7, 2), Position(9, 2), Position(8, 3), Position(7, 4), Position(9, 4),
    Position(12, 7), Position(12, 9), Position(13, 8), Position(14, 7), Position(14, 9)]

  predicate IsCampPosition(row: int, col: int)
    ensures IsCampPosition(row, col) ==> 2 <= row <= 14 && 2 <= col <= 14 && !(6 <= row <= 10 && 6 <= col <= 10)
  {
    Position(row, col) in CampPositions
  }

  predicate IsCentralArea(row: int, col: int) {
    6 <= row <= 10 && 6 <= col <= 10
  }

  /** The two headquarters cells of each player; the flag belongs on the first. */
  function HeadquartersPositions(c: Color): (hq: seq<Position>)
    ensures |hq| == 2 && hq[0] != hq[1]
  {
    match c
    case Red => [Position(7, 16), Position(9, 16)]
    case Green => [Position(0, 7), Position(0, 9)]
    case Blue => [Position(7, 0), Position(9, 0)]
    case Yellow => [Position(16, 7), Position(16, 9)]
  }

  /** The wing a player may deploy in. */
  predicate IsValidPlayerPosition(row: int, col: int, c: Color) {
    match c
    case Red => 6 <= row <= 10 && 11 <= col <= 16
    case Green => 0 <= row <= 5 && 6 <= col <= 10
    case Blue => 6 <= row <= 10 && 0 <= col <= 5
    case Yellow => 11 <= row <= 16 && 6 <= col <= 10
  }

  /** An inclusive rectangle of rows and columns. */
  datatype Region = Region(startRow: int, endRow: int, startCol: int, endCol: int)

  predicate InRegion(reg: Region, p: Position) {
    reg.startRow <= p.row <= reg.endRow && reg.startCol <= p.col <= reg.endCol
  }

  /** The region each player's deployment positions are collected from. */
  function DeploymentArea(c: Color): Region {
    match c
    case Red => Region(6, 10, 11, 16)
    case Green => Region(0, 5, 6, 10)
    case Blue => Region(6, 10, 0, 5)
    case Yellow => Region(11, 16, 6, 10)
  }

  /** The two rows (for red and blue: columns) farthest from the centre, reserved for mines. */
  function BackRegion(c: Color): Region {
    match c
    case Red => Region(6, 10, 15, 16)
    case Green => Region(0, 1, 6, 10)
    case Blue => Region(6, 10, 0, 1)
    case Yellow => Region(15, 16, 6, 10)
  }

  /** Whether `getAllPlayerPositions` keeps a cell of the region it visits for player `c`. */
  predicate DeployableCell(c: Color, row: int, col: int) {
    !IsCampPosition(row, col) && !IsCentralArea(row, col) && Position(row, col) !in HeadquartersPositions(c) &&
    0 <= row <= 16 && 0 <= col <= 16 && IsValidPlayerPosition(row, col, c)
  }

  /** Whether `getLastTwoRowsPositions` keeps a cell of the back rows it visits for player `c`. */
  predicate BackRowCell(c: Color, row: int, col: int) {
    Position(row, col) !in HeadquartersPositions(c) && !IsCampPosition(row, col)
  }

  /** The cells of `row` that `keep` accepts in the columns from `startCol` up to, not including,
      `endCol`, left to right. */
  function RowCells(keep: (int, int) -> bool, row: int, startCol: int, endCol: int): seq<Position>
    decreases endCol - startCol
  {
    if endCol <= startCol then []
    else RowCells(keep, row, startCol, endCol - 1) + (if keep(row, endCol - 1) then [Position(row, endCol - 1)] else [])
  }

  /** The cells `keep` accepts in the rows of `reg` up to, not including, `endRow`, row by row. */
  function SweepCells(keep: (int, int) -> bool, reg: Region, endRow: int): seq<Position>
    decreases endRow - reg.startRow
  {
    if endRow <= reg.startRow then []
    else SweepCells(keep, reg, endRow - 1) + RowCells(keep, endRow - 1, reg.startCol, reg.endCol + 1)
  }

  /** The test `getAllPlayerPositions` applies to each cell of the sweep. */
  function DeployableKeep(c: Color): (int, int) -> bool {
    (row, col) => DeployableCell(c, row, col)
  }

  /** The test `getLastTwoRowsPositions` applies to each cell of the sweep. */
  function BackRowKeep(c: Color): (int, int) -> bool {
    (row, col) => BackRowCell(c, row, col)
  }

  /** `getAllPlayerPositions` for one player. */
  function PlayerPositions(c: Color): seq<Position> {
    SweepCells(DeployableKeep(c), DeploymentArea(c), DeploymentArea(c).endRow + 1)
  }

  /** `getLastTwoRowsPositions` for one player. */
  function LastTwoRows(c: Color): seq<Position> {
    SweepCells(BackRowKeep(c), BackRegion(c), BackRegion(c).endRow + 1)
  }

  /** Row-major order: `p` comes strictly before `q`. */
  predicate Before(p: Position, q: Position) {
    p.row < q.row || (p.row == q.row && p.col < q.col)
  }

  predicate RowMajor(cells: seq<Position>) {
    forall i, j :: 0 <= i < j < |cells| ==> Before(cells[i], cells[j])
  }

  lemma {:induction false} RowCellsFacts(keep: (int, int) -> bool, row: int, startCol: int, endCol: int)
    ensures forall p :: p in RowCells(keep, row, startCol, endCol) <==>
      p.row == row && startCol <= p.col < endCol && keep(p.row, p.col)
    ensures RowMajor(RowCells(keep, row, startCol, endCol))
    decreases endCol - startCol
  {
    if startCol < endCol {
      RowCellsFacts(keep, row, startCol, endCol - 1);
    }
  }

  /** A sweep yields, in row-major order, exactly the accepted cells of its region's first rows. */
  lemma {:induction false} SweepCellsFacts(keep: (int, int) -> bool, reg: Region, endRow: int)
    requires endRow <= reg.endRow + 1
    ensures forall p :: p in SweepCells(keep, reg, endRow) <==>
      InRegion(reg, p) && p.row < endRow && keep(p.row, p.col)
    ensures RowMajor(SweepCells(keep, reg, endRow))
    decreases endRow - reg.startRow
  {
    if reg.startRow < endRow {
      SweepCellsFacts(keep, reg, endRow - 1);
      RowCellsFacts(keep, endRow - 1, reg.startCol, reg.endCol + 1);
      var a := SweepCells(keep, reg, endRow - 1);
      var b := RowCells(keep, endRow - 1, reg.startCol, reg.endCol + 1);
      assert SweepCells(keep, reg, endRow) == a + b;
      forall p
        ensures p in a + b <==> InRegion(reg, p) && p.row < endRow && keep(p.row, p.col)
      {
        assert p in a + b <==> p in a || p in b;
      }
      forall i, j | 0 <= i < j < |a + b|
        ensures Before((a + b)[i], (a + b)[j])
      {
        if j < |a| {
        } else if i < |a| {
          assert a[i] in a && b[j - |a|] in b;
        } else {
          assert (a + b)[i] == b[i - |a|] && (a + b)[j] == b[j - |a|];
        }
      }
    }
  }

  /** `getAllPlayerPositions` yields, in row-major order, exactly the cells of the player's wing that are
      not a camp, not in the central block and not a headquarters cell. */
  lemma PlayerPositionsFacts(c: Color)
    ensures forall p :: p in PlayerPositions(c) <==>
      IsValidPlayerPosition(p.row, p.col, c) && !IsCampPosition(p.row, p.col) &&
      !IsCentralArea(p.row, p.col) && p !in HeadquartersPositions(c)
    ensures RowMajor(PlayerPositions(c))
    ensures forall i :: 0 <= i < |PlayerPositions(c)| ==> OnBoard(PlayerPositions(c)[i])
  {
    PlayerPositionsMembers(c);
    var keep := DeployableKeep(c);
    SweepCellsFacts(keep, DeploymentArea(c), DeploymentArea(c).endRow + 1);
    PlayerPositionsOnBoard(c);
  }

  lemma PlayerPositionsOnBoard(c: Color)
    ensures forall i :: 0 <= i < |PlayerPositions(c)| ==> OnBoard(PlayerPositions(c)[i])
  {
    var keep := DeployableKeep(c);
    SweepCellsFacts(keep, DeploymentArea(c), DeploymentArea(c).endRow + 1);
    forall i | 0 <= i < |PlayerPositions(c)|
      ensures OnBoard(PlayerPositions(c)[i])
    {
      var p := PlayerPositions(c)[i];
      assert p in PlayerPositions(c);
      assert keep(p.row, p.col);
    }
  }

  lemma PlayerPositionsMembers(c: Color)
    ensures forall p :: p in PlayerPositions(c) <==>
      IsValidPlayerPosition(p.row, p.col, c) && !IsCampPosition(p.row, p.col) &&
      !IsCentralArea(p.row, p.col) && p !in HeadquartersPositions(c)
  {
    var keep := DeployableKeep(c);
    SweepCellsFacts(keep, DeploymentArea(c), DeploymentArea(c).endRow + 1);
    forall p
      ensures p in PlayerPositions(c) <==>
        IsValidPlayerPosition(p.row, p.col, c) && !IsCampPosition(p.row, p.col) &&
        !IsCentralArea(p.row, p.col) && p !in HeadquartersPositions(c)
    {
      DeployableCellIff(c, p);
      assert keep(p.row, p.col) == DeployableCell(c, p.row, p.col);
    }
  }

  lemma DeployableCellIff(c: Color, p: Position)
    ensures InRegion(DeploymentArea(c), p) && p.row < DeploymentArea(c).endRow + 1 && DeployableCell(c, p.row, p.col) <==>
      IsValidPlayerPosition(p.row, p.col, c) && !IsCampPosition(p.row, p.col) &&
      !IsCentralArea(p.row, p.col) && p !in HeadquartersPositions(c)
  {
    assert Position(p.row, p.col) == p;
  }

  /** The back-row cells are, in row-major order, the cells of the back rows that are neither a camp
      nor a headquarters cell; every one of them is also a deployment position. */
  lemma LastTwoRowsFacts(c: Color)
    ensures forall p :: p in LastTwoRows(c) <==>
      InRegion(BackRegion(c), p) && !IsCampPosition(p.row, p.col) && p !in HeadquartersPositions(c)
    ensures RowMajor(LastTwoRows(c))
    ensures forall p :: p in LastTwoRows(c) ==> p in PlayerPositions(c)
    ensures forall i :: 0 <= i < |LastTwoRows(c)| ==> OnBoard(LastTwoRows(c)[i])
  {
    SweepCellsFacts(BackRowKeep(c), BackRegion(c), BackRegion(c).endRow + 1);
    LastTwoRowsMembers(c);
    PlayerPositionsFacts(c);
    forall i | 0 <= i < |LastTwoRows(c)|
      ensures OnBoard(LastTwoRows(c)[i])
    {
      var p := LastTwoRows(c)[i];
      assert p in LastTwoRows(c);
      assert p in PlayerPositions(c);
    }
  }

  /** The back-row cells are the back-region cells that are neither a camp nor a headquarters cell,
      and each is a deployment position. */
  lemma LastTwoRowsMembers(c: Color)
    ensures forall p :: p in LastTwoRows(c) <==>
      InRegion(BackRegion(c), p) && !IsCampPosition(p.row, p.col) && p !in HeadquartersPositions(c)
    ensures forall p :: p in LastTwoRows(c) ==> p in PlayerPositions(c)
  {
    var keep := BackRowKeep(c);
    SweepCellsFacts(keep, BackRegion(c), BackRegion(c).endRow + 1);
    PlayerPositionsMembers(c);
    forall p
      ensures p in LastTwoRows(c) <==>
        InRegion(BackRegion(c), p) && !IsCampPosition(p.row, p.col) && p !in HeadquartersPositions(c)
      ensures p in LastTwoRows(c) ==> p in PlayerPositions(c)
    {
      assert keep(p.row, p.col) == BackRowCell(c, p.row, p.col);
      assert InRegion(BackRegion(c), p) ==> IsValidPlayerPosition(p.row, p.col, c) && !IsCentralArea(p.row, p.col);
    }
  }

  /** The twenty camps are distinct cells. */
  lemma CampPositionsDistinct()
    ensures |CampPositions| == 20
    ensures forall i, j :: 0 <= i < j < 20 ==> CampPositions[i] != CampPositions[j]
  {
  }

  /** Each group of five camps lies in the wing of its player. */
  lemma CampPositionsInWings()
    ensures forall i :: 0 <= i < 5 ==> IsValidPlayerPosition(CampPositions[i].row, CampPositions[i].col, Red)
    ensures forall i :: 5 <= i < 10 ==> IsValidPlayerPosition(CampPositions[i].row, CampPositions[i].col, Green)
    ensures forall i :: 10 <= i < 15 ==> IsValidPlayerPosition(CampPositions[i].row, CampPositions[i].col, Blue)
    ensures forall i :: 15 <= i < 20 ==> IsValidPlayerPosition(CampPositions[i].row, CampPositions[i].col, Yellow)
  {
  }

  /** No camp is a central cell or a headquarters cell of any player. */
  lemma CampPositionsOffCentre()
    ensures forall i :: 0 <= i < 20 ==> !IsCentralArea(CampPositions[i].row, CampPositions[i].col)
    ensures forall i, c :: 0 <= i < 20 ==> CampPositions[i] !in HeadquartersPositions(c)
  {
    assert forall i :: 0 <= i < 20 ==> 2 <= CampPositions[i].row <= 14 && 2 <= CampPositions[i].col <= 14;
  }

  // ---------------------------------------------------------------- ordering by distance to the centre

  /** Manhattan distance to the centre cell (8, 8). */
  function Distance(p: Position): nat {
    Abs(p.row - 8) + Abs(p.col - 8)
  }

  predicate Ascending(cells: seq<Position>) {
    forall i, j :: 0 <= i < j < |cells| ==> Distance(cells[i]) <= Distance(cells[j])
  }

  /** The cells at distance `d`, in their order. */
  function Band(cells: seq<Position>, d: nat): seq<Position> {
    if |cells| == 0 then []
    else (if Distance(cells[0]) == d then [cells[0]] else []) + Band(cells[1..], d)
  }

  /** `sorted` with `p` put before the first cell farther than `p`. */
  function InsertByDistance(sorted: seq<Position>, p: Position): (r: seq<Position>)
    ensures multiset(r) == multiset(sorted) + multiset{p}
  {
    if |sorted| == 0 then [p]
    else if Distance(sorted[0]) > Distance(p) then [p] + sorted
    else assert sorted == [sorted[0]] + sorted[1..]; [sorted[0]] + InsertByDistance(sorted[1..], p)
  }

  /** The stable sort by distance to the centre; the source uses the built-in stable array sort. */
  function SortByDistance(cells: seq<Position>): (r: seq<Position>)
    ensures multiset(r) == multiset(cells)
  {
    if |cells| == 0 then []
    else
      assert cells == cells[..|cells| - 1] + [cells[|cells| - 1]];
      InsertByDistance(SortByDistance(cells[..|cells| - 1]), cells[|cells| - 1])
  }

  /** The sort keeps exactly the cells it is given. */
  lemma SortedMembers(cells: seq<Position>)
    ensures forall p :: p in SortByDistance(cells) <==> p in cells
  {
    forall p
      ensures p in SortByDistance(cells) <==> p in cells
    {
      assert p in SortByDistance(cells) <==> p in multiset(SortByDistance(cells));
      assert p in cells <==> p in multiset(cells);
    }
  }

  lemma {:induction false} BandAppend(a: seq<Position>, b: seq<Position>, d: nat)
    ensures Band(a + b, d) == Band(a, d) + Band(b, d)
  {
    if |a| > 0 {
      assert (a + b)[0] == a[0] && (a + b)[1..] == a[1..] + b;
      BandAppend(a[1..], b, d);
    } else {
      assert a + b == b;
    }
  }

  lemma {:induction false} BandMembers(cells: seq<Position>, d: nat)
    ensures forall p :: p in Band(cells, d) <==> p in cells && Distance(p) == d
  {
    if |cells| > 0 {
      BandMembers(cells[1..], d);
      assert cells == [cells[0]] + cells[1..];
    }
  }

  /** Insertion adds `p` and nothing else. */
  lemma {:induction false} InsertMembers(sorted: seq<Position>, p: Position)
    ensures forall x :: x in InsertByDistance(sorted, p) ==> x in sorted || x == p
  {
    if |sorted| > 0 && Distance(sorted[0]) <= Distance(p) {
      InsertMembers(sorted[1..], p);
      forall x | x in sorted[1..]
        ensures x in sorted
      {
      }
    }
  }

  lemma {:induction false} InsertAscending(sorted: seq<Position>, p: Position)
    requires Ascending(sorted)
    ensures Ascending(InsertByDistance(sorted, p))
  {
    var r := InsertByDistance(sorted, p);
    if |sorted| > 0 && Distance(sorted[0]) <= Distance(p) {
      var rest := InsertByDistance(sorted[1..], p);
      InsertAscending(sorted[1..], p);
      InsertMembers(sorted[1..], p);
      assert r == [sorted[0]] + rest;
      forall i, j | 0 <= i < j < |r|
        ensures Distance(r[i]) <= Distance(r[j])
      {
        if i == 0 {
          assert r[j] == rest[j - 1];
          assert r[j] in rest;
          if r[j] != p {
            var k :| 0 <= k < |sorted[1..]| && sorted[1..][k] == r[j];
            assert sorted[k + 1] == r[j];
          }
        } else {
          assert r[i] == rest[i - 1] && r[j] == rest[j - 1];
        }
      }
    }
  }

  /** In an ascending sequence no cell is nearer than the first. */
  lemma NoneNearer(sorted: seq<Position>, p: Position)
    requires Ascending(sorted) && |sorted| > 0 && Distance(sorted[0]) > Distance(p)
    ensures Band(sorted, Distance(p)) == []
  {
    BandMembers(sorted, Distance(p));
  }

  lemma InsertBands(sorted: seq<Position>, p: Position)
    requires Ascending(sorted)
    ensures forall d :: Band(InsertByDistance(sorted, p), d) == Band(sorted, d) + (if Distance(p) == d then [p] else [])
  {
    forall d
      ensures Band(InsertByDistance(sorted, p), d) == Band(sorted, d) + (if Distance(p) == d then [p] else [])
    {
      InsertBand(sorted, p, d);
    }
  }

  /** Insertion adds `p` to the end of its own band and leaves every other band alone. */
  lemma {:induction false} InsertBand(sorted: seq<Position>, p: Position, d: nat)
    requires Ascending(sorted)
    ensures Band(InsertByDistance(sorted, p), d) == Band(sorted, d) + (if Distance(p) == d then [p] else [])
  {
    var r := InsertByDistance(sorted, p);
    if |sorted| == 0 {
    } else if Distance(sorted[0]) > Distance(p) {
      NoneNearer(sorted, p);
      assert r[0] == p && r[1..] == sorted;
    } else {
      var rest := InsertByDistance(sorted[1..], p);
      InsertBand(sorted[1..], p, d);
      assert r[0] == sorted[0] && r[1..] == rest;
    }
  }

  /** The sort puts nearer cells first and keeps, among cells at the same distance, their order: each
      distance band is the input's band. */
  lemma SortByDistanceFacts(cells: seq<Position>)
    ensures Ascending(SortByDistance(cells))
    ensures forall d :: Band(SortByDistance(cells), d) == Band(cells, d)
  {
    SortAscending(cells);
    SortBands(cells);
  }

  lemma {:induction false} SortAscending(cells: seq<Position>)
    ensures Ascending(SortByDistance(cells))
  {
    if |cells| > 0 {
      var init := cells[..|cells| - 1];
      SortAscending(init);
      InsertAscending(SortByDistance(init), cells[|cells| - 1]);
    }
  }

  lemma SortBands(cells: seq<Position>)
    ensures forall d :: Band(SortByDistance(cells), d) == Band(cells, d)
  {
    forall d
      ensures Band(SortByDistance(cells), d) == Band(cells, d)
    {
      SortBand(cells, d);
    }
  }

  /** The sort keeps each band of its input. */
  lemma {:induction false} SortBand(cells: seq<Position>, d: nat)
    ensures Band(SortByDistance(cells), d) == Band(cells, d)
  {
    if |cells| > 0 {
      var init := cells[..|cells| - 1];
      var last := cells[|cells| - 1];
      assert cells == init + [last];
      SortAscending(init);
      SortBand(init, d);
      InsertBand(SortByDistance(init), last, d);
      BandAppend(init, [last], d);
    }
  }

  /** Two orders of the same cells that both ascend and agree on every band are equal: any stable sort
      by distance gives the sequence SortByDistance gives. */
  lemma {:induction false} StableSortUnique(xs: seq<Position>, ys: seq<Position>)
    requires Ascending(xs) && Ascending(ys)
    requires forall d :: Band(xs, d) == Band(ys, d)
    ensures xs == ys
  {
    if |xs| == 0 || |ys| == 0 {
      if |xs| > 0 {
        BandMembers(xs, Distance(xs[0]));
      } else if |ys| > 0 {
        BandMembers(ys, Distance(ys[0]));
      }
    } else {
      var a := Distance(xs[0]);
      var b := Distance(ys[0]);
      BandMembers(xs, a);
      BandMembers(ys, a);
      BandMembers(xs, b);
      BandMembers(ys, b);
      assert xs[0] in Band(xs, a) && ys[0] in Band(ys, b);
      assert a == b;
      assert xs[0] == ys[0] by {
        assert Band(xs, a)[0] == xs[0];
        assert Band(ys, a)[0] == ys[0];
      }
      forall d: nat
        ensures Band(xs[1..], d) == Band(ys[1..], d)
      {
        assert Band(xs, d) == Band(ys, d);
        if d == a {
          assert Band(xs, d) == [xs[0]] + Band(xs[1..], d);
          assert Band(ys, d) == [ys[0]] + Band(ys[1..], d);
          assert Band(xs[1..], d) == Band(xs, d)[1..];
          assert Band(ys[1..], d) == Band(ys, d)[1..];
        } else {
          assert Distance(xs[0]) != d && Distance(ys[0]) != d;
          assert Band(xs, d) == Band(xs[1..], d);
          assert Band(ys, d) == Band(ys[1..], d);
        }
      }
      StableSortUnique(xs[1..], ys[1..]);
      assert xs == [xs[0]] + xs[1..] && ys == [ys[0]] + ys[1..];
    }
  }

  // ---------------------------------------------------------------- sorting the roster into groups

  /** The type names the deployment compares each piece's type with. */
  datatype TypeNames = TypeNames(flag: string, mine: string, bomb: string)

  /** The names `deployPiecesWithRules` compares with; the type values are lower case, so these match
      no piece. */
  const WrittenNames := TypeNames("Flag", "Mine", "Bomb")

  /** The type values of flag, mine and bomb, which the comparisons evidently mean. */
  const TypeValues := TypeNames(KindTag(Flag), KindTag(Mine), KindTag(Bomb))

  datatype Group = Flags | Mines | Bombs | Normals

  /** The four filters over the roster: a piece is normal when it matches none of the three names. */
  predicate InGroup(names: TypeNames, g: Group, k: Kind) {
    match g
    case Flags => KindTag(k) == names.flag
    case Mines => KindTag(k) == names.mine
    case Bombs => KindTag(k) == names.bomb
    case Normals => KindTag(k) != names.mine && KindTag(k) != names.flag && KindTag(k) != names.bomb
  }

  /** The roster indices of a group, in roster order. */
  function GroupIndices(pieces: seq<Piece>, names: TypeNames, g: Group): (idx: seq<nat>)
    ensures forall i :: 0 <= i < |idx| ==> idx[i] < |pieces|
  {
    if |pieces| == 0 then []
    else
      var init := GroupIndices(pieces[..|pieces| - 1], names, g);
      init + (if InGroup(names, g, pieces[|pieces| - 1].kind) then [|pieces| - 1] else [])
  }

  /** A group holds exactly the roster indices whose piece belongs to it, in increasing order. */
  lemma GroupIndicesFacts(pieces: seq<Piece>, names: TypeNames, g: Group)
    ensures (forall i :: 0 <= i < |GroupIndices(pieces, names, g)| ==> InGroup(names, g, pieces[GroupIndices(pieces, names, g)[i]].kind)) &&
      (forall i, j :: 0 <= i < j < |GroupIndices(pieces, names, g)| ==> GroupIndices(pieces, names, g)[i] < GroupIndices(pieces, names, g)[j]) &&
      (forall k :: 0 <= k < |pieces| && InGroup(names, g, pieces[k].kind) ==> k in GroupIndices(pieces, names, g))
  {
    GroupMembers(pieces, names, g);
    GroupIncreasing(pieces, names, g);
    GroupComplete(pieces, names, g);
  }

  /** The last roster entry joins its group at the end. */
  lemma GroupSplit(pieces: seq<Piece>, names: TypeNames, g: Group)
    requires |pieces| > 0
    ensures GroupIndices(pieces, names, g) ==
      GroupIndices(pieces[..|pieces| - 1], names, g) +
      (if InGroup(names, g, pieces[|pieces| - 1].kind) then [|pieces| - 1] else [])
  {
  }

  lemma {:induction false} GroupMembers(pieces: seq<Piece>, names: TypeNames, g: Group)
    ensures forall i :: 0 <= i < |GroupIndices(pieces, names, g)| ==> InGroup(names, g, pieces[GroupIndices(pieces, names, g)[i]].kind)
  {
    if |pieces| > 0 {
      var init := pieces[..|pieces| - 1];
      GroupMembers(init, names, g);
      GroupSplit(pieces, names, g);
      var prev := GroupIndices(init, names, g);
      var idx := GroupIndices(pieces, names, g);
      assert forall j :: 0 <= j < |prev| ==> InGroup(names, g, init[prev[j]].kind);
      forall i | 0 <= i < |idx|
        ensures InGroup(names, g, pieces[idx[i]].kind)
      {
        if i < |prev| {
          assert idx[i] == prev[i] && pieces[prev[i]] == init[prev[i]];
        } else {
          assert idx[i] == |pieces| - 1;
        }
      }
    }
  }

  lemma {:induction false} GroupIncreasing(pieces: seq<Piece>, names: TypeNames, g: Group)
    ensures forall i, j :: 0 <= i < j < |GroupIndices(pieces, names, g)| ==> GroupIndices(pieces, names, g)[i] < GroupIndices(pieces, names, g)[j]
  {
    if |pieces| > 0 {
      var init := pieces[..|pieces| - 1];
      GroupIncreasing(init, names, g);
      GroupSplit(pieces, names, g);
    }
  }

  lemma {:induction false} GroupComplete(pieces: seq<Piece>, names: TypeNames, g: Group)
    ensures forall k :: 0 <= k < |pieces| && InGroup(names, g, pieces[k].kind) ==> k in GroupIndices(pieces, names, g)
  {
    if |pieces| > 0 {
      var init := pieces[..|pieces| - 1];
      GroupComplete(init, names, g);
      GroupSplit(pieces, names, g);
      forall k | 0 <= k < |pieces| - 1 && InGroup(names, g, pieces[k].kind)
        ensures k in GroupIndices(init, names, g)
      {
        assert init[k] == pieces[k];
      }
    }
  }

  /** The indices `lo`, `lo + 1`, ..., `hi - 1`. */
  function Span(lo: nat, hi: nat): (r: seq<nat>)
    ensures |r| == (if lo <= hi then hi - lo else 0)
    ensures forall i :: 0 <= i < |r| ==> r[i] == lo + i
    decreases hi
  {
    if hi <= lo then [] else Span(lo, hi - 1) + [hi - 1]
  }

  /** With the names as written, no piece is a flag, a mine or a bomb: every piece is normal. */
  lemma {:induction false} WrittenNamesMatchNothing(pieces: seq<Piece>)
    ensures GroupIndices(pieces, WrittenNames, Flags) == []
    ensures GroupIndices(pieces, WrittenNames, Mines) == []
    ensures GroupIndices(pieces, WrittenNames, Bombs) == []
    ensures GroupIndices(pieces, WrittenNames, Normals) == Span(0, |pieces|)
  {
    var n := |pieces|;
    if n > 0 {
      var init := pieces[..n - 1];
      WrittenNamesMatchNothing(init);
      WrittenNamesMiss(pieces[n - 1].kind);
      assert GroupIndices(pieces, WrittenNames, Normals) == GroupIndices(init, WrittenNames, Normals) + [n - 1];
      assert Span(0, n) == Span(0, n - 1) + [n - 1];
    }
  }

  /** No kind tag is spelled with a capital initial, so none equals a name as written. */
  lemma WrittenNamesMiss(k: Kind)
    ensures !InGroup(WrittenNames, Flags, k) && !InGroup(WrittenNames, Mines, k) && !InGroup(WrittenNames, Bombs, k)
    ensures InGroup(WrittenNames, Normals, k)
  {
    assert KindTag(k)[0] != 'F' && KindTag(k)[0] != 'M' && KindTag(k)[0] != 'B';
  }

  /** With the type values, the groups are exactly the flags, the mines, the bombs and the rest. */
  lemma TypeValueGroups(k: Kind)
    ensures InGroup(TypeValues, Flags, k) <==> k == Flag
    ensures InGroup(TypeValues, Mines, k) <==> k == Mine
    ensures InGroup(TypeValues, Bombs, k) <==> k == Bomb
    ensures InGroup(TypeValues, Normals, k) <==> k != Flag && k != Mine && k != Bomb
  {
    if KindTag(k) == KindTag(Flag) { KindTagInjective(k, Flag); }
    if KindTag(k) == KindTag(Mine) { KindTagInjective(k, Mine); }
    if KindTag(k) == KindTag(Bomb) { KindTagInjective(k, Bomb); }
  }

  /** A group whose members form the run `lo .. hi - 1` of the roster lists exactly that run. */
  lemma {:induction false} GroupRun(pieces: seq<Piece>, names: TypeNames, g: Group, lo: nat, hi: nat)
    requires lo <= hi <= |pieces|
    requires forall k :: 0 <= k < |pieces| ==> (InGroup(names, g, pieces[k].kind) <==> lo <= k < hi)
    ensures GroupIndices(pieces, names, g) == Span(lo, hi)
    decreases |pieces|, 1
  {
    var n := |pieces|;
    if n > 0 {
      if hi == n && lo < n {
        GroupRunEndsHere(pieces, names, g, lo);
      } else {
        GroupRunEndsBefore(pieces, names, g, lo, hi);
      }
    }
  }

  /** The run reaches the last piece: the last index closes it. */
  lemma {:induction false} GroupRunEndsHere(pieces: seq<Piece>, names: TypeNames, g: Group, lo: nat)
    requires lo < |pieces|
    requires forall k :: 0 <= k < |pieces| ==> (InGroup(names, g, pieces[k].kind) <==> lo <= k)
    ensures GroupIndices(pieces, names, g) == Span(lo, |pieces|)
    decreases |pieces|, 0
  {
    var n := |pieces|;
    var init := pieces[..n - 1];
    assert forall k :: 0 <= k < n - 1 ==> init[k] == pieces[k];
    GroupRun(init, names, g, lo, n - 1);
    GroupIndicesLast(pieces, names, g);
    assert Span(lo, n) == Span(lo, n - 1) + [n - 1];
  }

  /** The last piece is outside the run: the group is the one of the other pieces. */
  lemma {:induction false} GroupRunEndsBefore(pieces: seq<Piece>, names: TypeNames, g: Group, lo: nat, hi: nat)
    requires lo <= hi <= |pieces| && |pieces| > 0 && (hi < |pieces| || lo == hi)
    requires forall k :: 0 <= k < |pieces| ==> (InGroup(names, g, pieces[k].kind) <==> lo <= k < hi)
    ensures GroupIndices(pieces, names, g) == Span(lo, hi)
    decreases |pieces|, 0
  {
    var n := |pieces|;
    var init := pieces[..n - 1];
    assert forall k :: 0 <= k < n - 1 ==> init[k] == pieces[k];
    var top := if hi == n then n - 1 else hi;
    var bottom := if hi == n then n - 1 else lo;
    GroupRun(init, names, g, bottom, top);
    GroupIndicesLast(pieces, names, g);
  }

  /** The group of a roster is the group of all but its last piece, followed by the last index when
      the last piece belongs to it. */
  lemma GroupIndicesLast(pieces: seq<Piece>, names: TypeNames, g: Group)
    requires |pieces| > 0
    ensures var n := |pieces|;
      InGroup(names, g, pieces[n - 1].kind) ==>
        GroupIndices(pieces, names, g) == GroupIndices(pieces[..n - 1], names, g) + [n - 1]
    ensures var n := |pieces|;
      !InGroup(names, g, pieces[n - 1].kind) ==>
        GroupIndices(pieces, names, g) == GroupIndices(pieces[..n - 1], names, g)
  {
    var n := |pieces|;
    if !InGroup(names, g, pieces[n - 1].kind) {
      var rest := GroupIndices(pieces[..n - 1], names, g);
      assert rest + [] == rest;
    }
  }

  /** The kinds along a created roster: sixteen officers and three engineers, then two bombs, three
      mines and the flag. */
  lemma RosterKinds(c: Color, j: nat)
    requires j < 25
    ensures |PlayerPieces(c)| == 25
    ensures j < 19 ==> !IsSentinel(PlayerPieces(c)[j].kind)
    ensures 19 <= j < 21 ==> PlayerPieces(c)[j].kind == Bomb
    ensures 21 <= j < 24 ==> PlayerPieces(c)[j].kind == Mine
    ensures j == 24 ==> PlayerPieces(c)[j].kind == Flag
  {
    PlayerPiecesShape(c);
    RosterSizes();
    var t := SlotBlock(|KindOrder|, j);
    RosterSlot(c, |KindOrder|, t, j);
    if t >= 9 { RosterSizeMonotone(9, t); }
    if t >= 10 { RosterSizeMonotone(10, t); }
    if t >= 11 { RosterSizeMonotone(11, t); }
    if t < 9 { RosterSizeMonotone(t + 1, 9); }
    if t < 10 { RosterSizeMonotone(t + 1, 10); }
    if t < 11 { RosterSizeMonotone(t + 1, 11); }
  }

  /** With the type values, a created roster splits into the officers and engineers at indices 0..18,
      the bombs at 19 and 20, the mines at 21..23 and the flag at 24. */
  lemma RosterGroups(c: Color)
    ensures GroupIndices(PlayerPieces(c), TypeValues, Normals) == Span(0, 19)
    ensures GroupIndices(PlayerPieces(c), TypeValues, Bombs) == Span(19, 21)
    ensures GroupIndices(PlayerPieces(c), TypeValues, Mines) == Span(21, 24)
    ensures GroupIndices(PlayerPieces(c), TypeValues, Flags) == [24]
  {
    var pieces := PlayerPieces(c);
    PlayerPiecesShape(c);
    forall k | 0 <= k < 25
      ensures (InGroup(TypeValues, Normals, pieces[k].kind) <==> 0 <= k < 19) &&
        (InGroup(TypeValues, Bombs, pieces[k].kind) <==> 19 <= k < 21) &&
        (InGroup(TypeValues, Mines, pieces[k].kind) <==> 21 <= k < 24) &&
        (InGroup(TypeValues, Flags, pieces[k].kind) <==> 24 <= k < 25)
    {
      RosterKinds(c, k);
      TypeValueGroups(pieces[k].kind);
    }
    GroupRun(pieces, TypeValues, Normals, 0, 19);
    GroupRun(pieces, TypeValues, Bombs, 19, 21);
    GroupRun(pieces, TypeValues, Mines, 21, 24);
    GroupRun(pieces, TypeValues, Flags, 24, 25);
  }

  // ---------------------------------------------------------------- placing pieces

  /** Placing, in order, the roster entry `idx[i]` of `c` on `cells[i]` for every `i` below `n` that has
      a cell; entries past the last cell are left where they are. No cell is checked before it is
      written. */
  function PlaceAll(s: GameState, c: Color, idx: seq<nat>, cells: seq<Position>, n: nat): (s': GameState)
    requires SquareBoard(s.board) && c in s.players && n <= |idx|
    requires forall i :: 0 <= i < |idx| ==> idx[i] < |s.players[c].pieces|
    requires forall p :: p in cells ==> OnBoard(p)
    ensures SquareBoard(s'.board) && SameRosters(s, s')
  {
    if n == 0 then s
    else
      var s1 := PlaceAll(s, c, idx, cells, n - 1);
      if n - 1 < |cells| then Setup.Place(s1, PieceRef(c, idx[n - 1]), cells[n - 1]) else s1
  }

  /** After the first `n` placements, going from `s` to `s'`: each placed entry knows its cell and is
      otherwise as it was, and every other roster entry is untouched. */
  ghost predicate PiecesEffect(s: GameState, s': GameState, c: Color, idx: seq<nat>, cells: seq<Position>, n: nat)
    requires n <= |idx|
  {
    SameRosters(s, s') &&
    (forall i :: 0 <= i < n && i < |cells| ==>
      Names(s, PieceRef(c, idx[i])) &&
      PieceOf(s', PieceRef(c, idx[i])) == PieceOf(s, PieceRef(c, idx[i])).(position := Some(cells[i]))) &&
    (forall r :: Names(s, r) && (r.owner != c || forall i :: 0 <= i < n && i < |cells| ==> idx[i] != r.index) ==>
      PieceOf(s', r) == PieceOf(s, r))
  }

  /** Each placed entry knows its cell and is otherwise unchanged; every other roster entry is untouched. */
  lemma PlaceAllPieces(s: GameState, c: Color, idx: seq<nat>, cells: seq<Position>, n: nat)
    requires SquareBoard(s.board) && c in s.players && n <= |idx|
    requires forall i :: 0 <= i < |idx| ==> idx[i] < |s.players[c].pieces|
    requires forall p :: p in cells ==> OnBoard(p)
    requires forall i, j :: 0 <= i < j < |idx| ==> idx[i] != idx[j]
    ensures PiecesEffect(s, PlaceAll(s, c, idx, cells, n), c, idx, cells, n)
  {
    PiecesChain(PlaceTrace(s, c, idx, cells, n), c, idx, cells, n);
  }

  /** The `n`-th placement, going from `s1` to `s'`, as the roster sees it. */
  ghost predicate StepPieces(s1: GameState, s': GameState, c: Color, idx: seq<nat>, cells: seq<Position>, n: nat)
    requires 0 < n <= |idx|
  {
    SameRosters(s1, s') &&
    (n - 1 < |cells| ==>
      Names(s1, PieceRef(c, idx[n - 1])) &&
      PieceOf(s', PieceRef(c, idx[n - 1])) == PieceOf(s1, PieceRef(c, idx[n - 1])).(position := Some(cells[n - 1])) &&
      (forall r :: Names(s1, r) && r != PieceRef(c, idx[n - 1]) ==> PieceOf(s', r) == PieceOf(s1, r))) &&
    (|cells| <= n - 1 ==> s' == s1)
  }

  lemma {:induction false} PiecesChain(states: seq<GameState>, c: Color, idx: seq<nat>, cells: seq<Position>, n: nat)
    requires n <= |idx| && n < |states|
    requires forall i, j :: 0 <= i < j < |idx| ==> idx[i] != idx[j]
    requires forall k :: 0 < k <= n ==> TraceStep(states, c, idx, cells, k)
    ensures PiecesEffect(states[0], states[n], c, idx, cells, n)
  {
    if n > 0 {
      PiecesChain(states, c, idx, cells, n - 1);
      assert TraceStep(states, c, idx, cells, n);
      PiecesStep(states[0], states[n - 1], states[n], c, idx, cells, n);
    }
  }

  /** One more placement of a fresh entry keeps the effect of the earlier ones. */
  lemma PiecesStep(s: GameState, s1: GameState, s': GameState, c: Color, idx: seq<nat>, cells: seq<Position>, n: nat)
    requires 0 < n <= |idx|
    requires forall i, j :: 0 <= i < j < |idx| ==> idx[i] != idx[j]
    requires StepPieces(s1, s', c, idx, cells, n)
    requires PiecesEffect(s, s1, c, idx, cells, n - 1)
    ensures PiecesEffect(s, s', c, idx, cells, n)
  {
    if n - 1 < |cells| {
      var ref := PieceRef(c, idx[n - 1]);
      forall i | 0 <= i < n - 1 && i < |cells|
        ensures PieceOf(s', PieceRef(c, idx[i])) == PieceOf(s, PieceRef(c, idx[i])).(position := Some(cells[i]))
      {
        assert idx[i] != idx[n - 1];
      }
      assert Names(s, ref) && PieceOf(s1, ref) == PieceOf(s, ref) by {
        assert forall i :: 0 <= i < n - 1 && i < |cells| ==> idx[i] != ref.index;
      }
      forall r | Names(s, r) && (r.owner != c || forall i :: 0 <= i < n && i < |cells| ==> idx[i] != r.index)
        ensures PieceOf(s', r) == PieceOf(s, r)
      {
        assert r != ref by {
          if r.owner == c {
            assert idx[n - 1] != r.index;
          }
        }
      }
    }
  }

  /** The last placement of the first `n`, as the roster sees it. */
  lemma PlaceAllStepPieces(s: GameState, c: Color, idx: seq<nat>, cells: seq<Position>, n: nat)
    requires SquareBoard(s.board) && c in s.players && 0 < n <= |idx|
    requires forall i :: 0 <= i < |idx| ==> idx[i] < |s.players[c].pieces|
    requires forall p :: p in cells ==> OnBoard(p)
    ensures StepPieces(PlaceAll(s, c, idx, cells, n - 1), PlaceAll(s, c, idx, cells, n), c, idx, cells, n)
  {
  }

  /** No placement after the `i`-th of the first `n` writes the `i`-th cell again. */
  predicate LastWrite(cells: seq<Position>, i: nat, n: nat) {
    forall j :: i < j < n && j < |cells| ==> cells[j] != cells[i]
  }

  /** None of the first `n` placements writes `q`. */
  predicate Unwritten(cells: seq<Position>, q: Position, n: nat) {
    forall i :: 0 <= i < n && i < |cells| ==> cells[i] != q
  }

  /** After the first `n` placements, going from `s` to `s'`: a written cell refers to the last entry
      written there, and a cell nobody is placed on is as it was. */
  ghost predicate CellsEffect(s: GameState, s': GameState, c: Color, idx: seq<nat>, cells: seq<Position>, n: nat)
    requires n <= |idx|
  {
    (forall i :: 0 <= i < n && i < |cells| && LastWrite(cells, i, n) ==> RefAt(s', cells[i]) == Some(PieceRef(c, idx[i]))) &&
    (forall q :: Unwritten(cells, q, n) ==> RefAt(s', q) == RefAt(s, q))
  }

  /** A written cell refers to the last entry written there; a cell nobody is placed on is untouched. */
  lemma PlaceAllCells(s: GameState, c: Color, idx: seq<nat>, cells: seq<Position>, n: nat)
    requires SquareBoard(s.board) && c in s.players && n <= |idx|
    requires forall i :: 0 <= i < |idx| ==> idx[i] < |s.players[c].pieces|
    requires forall p :: p in cells ==> OnBoard(p)
    ensures CellsEffect(s, PlaceAll(s, c, idx, cells, n), c, idx, cells, n)
  {
    CellsChain(PlaceTrace(s, c, idx, cells, n), c, idx, cells, n);
  }

  /** The `k`-th placement of a trace, as the board and the roster see it. */
  ghost predicate TraceStep(t: seq<GameState>, c: Color, idx: seq<nat>, cells: seq<Position>, k: nat)
    requires 0 < k < |t| && k <= |idx|
  {
    StepCells(t[k - 1], t[k], c, idx, cells, k) && StepPieces(t[k - 1], t[k], c, idx, cells, k)
  }

  /** The states after each of the first `n` placements, starting from `s`. */
  ghost function PlaceTrace(s: GameState, c: Color, idx: seq<nat>, cells: seq<Position>, n: nat): (t: seq<GameState>)
    requires SquareBoard(s.board) && c in s.players && n <= |idx|
    requires forall i :: 0 <= i < |idx| ==> idx[i] < |s.players[c].pieces|
    requires forall p :: p in cells ==> OnBoard(p)
    ensures |t| == n + 1 && t[0] == s && t[n] == PlaceAll(s, c, idx, cells, n)
    ensures forall k :: 0 < k <= n ==> TraceStep(t, c, idx, cells, k)
  {
    if n == 0 then [s]
    else
      var t := PlaceTrace(s, c, idx, cells, n - 1);
      var x := PlaceAll(s, c, idx, cells, n);
      PlaceAllStepCells(s, c, idx, cells, n);
      PlaceAllStepPieces(s, c, idx, cells, n);
      TraceExtend(t, x, c, idx, cells, n);
      t + [x]
  }

  lemma TraceExtend(t: seq<GameState>, x: GameState, c: Color, idx: seq<nat>, cells: seq<Position>, n: nat)
    requires 0 < n <= |idx| && |t| == n
    requires forall k :: 0 < k < n ==> TraceStep(t, c, idx, cells, k)
    requires StepCells(t[n - 1], x, c, idx, cells, n) && StepPieces(t[n - 1], x, c, idx, cells, n)
    ensures forall k :: 0 < k <= n ==> TraceStep(t + [x], c, idx, cells, k)
  {
    forall k | 0 < k <= n
      ensures TraceStep(t + [x], c, idx, cells, k)
    {
      assert (t + [x])[k - 1] == t[k - 1];
      if k < n {
        assert (t + [x])[k] == t[k];
        assert TraceStep(t, c, idx, cells, k);
      } else {
        assert (t + [x])[k] == x;
      }
    }
  }

  /** Along a chain of states each of which makes the next placement, the effect of the first `n`
      placements builds up one write at a time. */
  lemma {:induction false} CellsChain(states: seq<GameState>, c: Color, idx: seq<nat>, cells: seq<Position>, n: nat)
    requires n <= |idx| && n < |states|
    requires forall k :: 0 < k <= n ==> TraceStep(states, c, idx, cells, k)
    ensures CellsEffect(states[0], states[n], c, idx, cells, n)
  {
    if n > 0 {
      CellsChain(states, c, idx, cells, n - 1);
      assert TraceStep(states, c, idx, cells, n);
      CellsStep(states[0], states[n - 1], states[n], c, idx, cells, n);
    }
  }

  /** The last placement of the first `n` writes its cell and no other; past the last cell nothing is
      written. */
  lemma PlaceAllStepCells(s: GameState, c: Color, idx: seq<nat>, cells: seq<Position>, n: nat)
    requires SquareBoard(s.board) && c in s.players && 0 < n <= |idx|
    requires forall i :: 0 <= i < |idx| ==> idx[i] < |s.players[c].pieces|
    requires forall p :: p in cells ==> OnBoard(p)
    ensures StepCells(PlaceAll(s, c, idx, cells, n - 1), PlaceAll(s, c, idx, cells, n), c, idx, cells, n)
  {
  }

  /** The `n`-th placement, going from `s1` to `s'`. */
  ghost predicate StepCells(s1: GameState, s': GameState, c: Color, idx: seq<nat>, cells: seq<Position>, n: nat)
    requires 0 < n <= |idx|
  {
    (n - 1 < |cells| ==>
      RefAt(s', cells[n - 1]) == Some(PieceRef(c, idx[n - 1])) &&
      (forall q :: q != cells[n - 1] ==> RefAt(s', q) == RefAt(s1, q))) &&
    (|cells| <= n - 1 ==> s' == s1)
  }

  /** One more write keeps the effect of the earlier ones on every cell it does not write. */
  lemma CellsStep(s: GameState, s1: GameState, s': GameState, c: Color, idx: seq<nat>, cells: seq<Position>, n: nat)
    requires 0 < n <= |idx|
    requires StepCells(s1, s', c, idx, cells, n)
    requires CellsEffect(s, s1, c, idx, cells, n - 1)
    ensures CellsEffect(s, s', c, idx, cells, n)
  {
    if n - 1 < |cells| {
      forall i | 0 <= i < n && i < |cells| && LastWrite(cells, i, n)
        ensures RefAt(s', cells[i]) == Some(PieceRef(c, idx[i]))
      {
        if i < n - 1 {
          assert cells[n - 1] != cells[i];
          assert LastWrite(cells, i, n - 1);
        }
      }
      forall q | Unwritten(cells, q, n)
        ensures RefAt(s', q) == RefAt(s, q)
      {
        assert cells[n - 1] != q;
        assert Unwritten(cells, q, n - 1);
      }
    } else {
      forall i | 0 <= i < n && i < |cells| && LastWrite(cells, i, n)
        ensures LastWrite(cells, i, n - 1)
      {
      }
      forall q | Unwritten(cells, q, n)
        ensures Unwritten(cells, q, n - 1)
      {
      }
    }
  }

  /** `deployPiecesWithRules` for player `c` on the positions `available`, sorting the roster by the
      type names `names`: flags on the headquarters cells, mines on the back-row cells, then the normal
      pieces and after them the bombs on the available cells nearest to the centre first, followed by
      the back-row cells the mines left. */
  function DeployWithRules(s: GameState, c: Color, available: seq<Position>, names: TypeNames): (s': GameState)
    requires SquareBoard(s.board) && c in s.players
    requires forall p :: p in available ==> OnBoard(p)
    ensures SquareBoard(s'.board) && SameRosters(s, s')
  {
    var pieces := s.players[c].pieces;
    var s1 := PlaceFlags(s, c, pieces, names);
    var s2 := PlaceMines(s1, c, pieces, names);
    PlaceRest(s2, c, pieces, available, names)
  }

  /** Step 1: the flags of `pieces`, in roster order, on the headquarters cells while there are any. */
  function PlaceFlags(s: GameState, c: Color, pieces: seq<Piece>, names: TypeNames): (s': GameState)
    requires SquareBoard(s.board) && c in s.players && |pieces| <= |s.players[c].pieces|
    ensures SquareBoard(s'.board) && SameRosters(s, s')
  {
    HeadquartersOnBoard(c);
    var flags := GroupIndices(pieces, names, Flags);
    PlaceAll(s, c, flags, HeadquartersPositions(c), |flags|)
  }

  /** Step 2: the mines of `pieces`, in roster order, on the back-row cells while there are any. */
  function PlaceMines(s: GameState, c: Color, pieces: seq<Piece>, names: TypeNames): (s': GameState)
    requires SquareBoard(s.board) && c in s.players && |pieces| <= |s.players[c].pieces|
    ensures SquareBoard(s'.board) && SameRosters(s, s')
  {
    LastTwoRowsOnBoard(c);
    var mines := GroupIndices(pieces, names, Mines);
    PlaceAll(s, c, mines, LastTwoRows(c), |mines|)
  }

  /** Steps 4 and 5: the normal pieces and then the bombs on consecutive rest cells while there are any. */
  function PlaceRest(s: GameState, c: Color, pieces: seq<Piece>, available: seq<Position>, names: TypeNames): (s': GameState)
    requires SquareBoard(s.board) && c in s.players && |pieces| <= |s.players[c].pieces|
    requires forall p :: p in available ==> OnBoard(p)
    ensures SquareBoard(s'.board) && SameRosters(s, s')
  {
    RestCellsOnBoard(pieces, c, available, names);
    NormalsThenBombs(pieces, names);
    var rest := RestIndices(pieces, names);
    PlaceAll(s, c, rest, RestCells(pieces, c, available, names), |rest|)
  }

  /** The roster indices of the normal pieces followed by those of the bombs. */
  function RestIndices(pieces: seq<Piece>, names: TypeNames): seq<nat> {
    GroupIndices(pieces, names, Normals) + GroupIndices(pieces, names, Bombs)
  }

  /** The positions the normal pieces and bombs take in turn: the available ones sorted by distance,
      then the back-row cells the mines did not take. */
  function RestCells(pieces: seq<Piece>, c: Color, available: seq<Position>, names: TypeNames): (all: seq<Position>)
    ensures forall p :: p in all <==>
      p in available || p in LastTwoRows(c)[Setup.Min(|GroupIndices(pieces, names, Mines)|, |LastTwoRows(c)|)..]
  {
    var last := LastTwoRows(c);
    SortedMembers(available);
    SortByDistance(available) + last[Setup.Min(|GroupIndices(pieces, names, Mines)|, |last|)..]
  }

  lemma HeadquartersOnBoard(c: Color)
    ensures forall p :: p in HeadquartersPositions(c) ==> OnBoard(p)
  {
  }

  lemma LastTwoRowsOnBoard(c: Color)
    ensures forall p :: p in LastTwoRows(c) ==> OnBoard(p)
  {
    LastTwoRowsFacts(c);
  }

  lemma RestCellsOnBoard(pieces: seq<Piece>, c: Color, available: seq<Position>, names: TypeNames)
    requires forall p :: p in available ==> OnBoard(p)
    ensures forall p :: p in RestCells(pieces, c, available, names) ==> OnBoard(p)
  {
    LastTwoRowsOnBoard(c);
    var last := LastTwoRows(c);
    var m := Setup.Min(|GroupIndices(pieces, names, Mines)|, |last|);
    forall p | p in last[m..]
      ensures p in last
    {
    }
  }

  /** The normal pieces followed by the bombs are roster indices. */
  lemma NormalsThenBombs(pieces: seq<Piece>, names: TypeNames)
    ensures forall i :: 0 <= i < |RestIndices(pieces, names)| ==> RestIndices(pieces, names)[i] < |pieces|
  {
    var normals := GroupIndices(pieces, names, Normals);
    var rest := RestIndices(pieces, names);
    forall i | 0 <= i < |rest|
      ensures rest[i] < |pieces|
    {
      if i >= |normals| {
        assert rest[i] == GroupIndices(pieces, names, Bombs)[i - |normals|];
      }
    }
  }

  // ---------------------------------------------------------------- what one pass leaves

  /** A cell that is not among the cells of a pass is as it was. */
  lemma PlaceAllKeepsCell(s: GameState, c: Color, idx: seq<nat>, cells: seq<Position>, n: nat, q: Position)
    requires SquareBoard(s.board) && c in s.players && n <= |idx|
    requires forall i :: 0 <= i < |idx| ==> idx[i] < |s.players[c].pieces|
    requires forall p :: p in cells ==> OnBoard(p)
    requires Unwritten(cells, q, n)
    ensures RefAt(PlaceAll(s, c, idx, cells, n), q) == RefAt(s, q)
  {
    PlaceAllCells(s, c, idx, cells, n);
  }

  /** A roster entry that is not among the entries of a pass is as it was. */
  lemma PlaceAllKeepsPiece(s: GameState, c: Color, idx: seq<nat>, cells: seq<Position>, n: nat, r: PieceRef)
    requires SquareBoard(s.board) && c in s.players && n <= |idx|
    requires forall i :: 0 <= i < |idx| ==> idx[i] < |s.players[c].pieces|
    requires forall p :: p in cells ==> OnBoard(p)
    requires forall i, j :: 0 <= i < j < |idx| ==> idx[i] != idx[j]
    requires Names(s, r) && (r.owner != c || r.index !in idx)
    ensures Names(PlaceAll(s, c, idx, cells, n), r)
    ensures PieceOf(PlaceAll(s, c, idx, cells, n), r) == PieceOf(s, r)
  {
    PlaceAllPieces(s, c, idx, cells, n);
    if r.owner == c {
      forall i | 0 <= i < n && i < |cells|
        ensures idx[i] != r.index
      {
        assert idx[i] in idx;
      }
    }
  }

  /** An entry of a pass that comes after the last cell is left as it was. */
  lemma PlaceAllSkips(s: GameState, c: Color, idx: seq<nat>, cells: seq<Position>, n: nat, i: nat)
    requires SquareBoard(s.board) && c in s.players && n <= |idx|
    requires forall i :: 0 <= i < |idx| ==> idx[i] < |s.players[c].pieces|
    requires forall p :: p in cells ==> OnBoard(p)
    requires forall i, j :: 0 <= i < j < |idx| ==> idx[i] != idx[j]
    requires |cells| <= i < |idx|
    ensures Names(PlaceAll(s, c, idx, cells, n), PieceRef(c, idx[i]))
    ensures PieceOf(PlaceAll(s, c, idx, cells, n), PieceRef(c, idx[i])) == PieceOf(s, PieceRef(c, idx[i]))
  {
    PlaceAllPieces(s, c, idx, cells, n);
    assert forall k :: 0 <= k < n && k < |cells| ==> idx[k] != idx[i];
  }

  /** After a whole pass, entry `i` of the pass learns cell `i` when there is one and is left as it
      was otherwise. */
  lemma PlaceAllEntry(s: GameState, c: Color, idx: seq<nat>, cells: seq<Position>, i: nat)
    requires SquareBoard(s.board) && c in s.players
    requires forall i :: 0 <= i < |idx| ==> idx[i] < |s.players[c].pieces|
    requires forall p :: p in cells ==> OnBoard(p)
    requires forall i, j :: 0 <= i < j < |idx| ==> idx[i] != idx[j]
    requires i < |idx|
    ensures Names(PlaceAll(s, c, idx, cells, |idx|), PieceRef(c, idx[i]))
    ensures PieceOf(PlaceAll(s, c, idx, cells, |idx|), PieceRef(c, idx[i])) ==
      if i < |cells| then PieceOf(s, PieceRef(c, idx[i])).(position := Some(cells[i])) else PieceOf(s, PieceRef(c, idx[i]))
  {
    if i < |cells| {
      PlaceAllPuts(s, c, idx, cells, |idx|, i);
    } else {
      PlaceAllSkips(s, c, idx, cells, |idx|, i);
    }
  }

  /** The `i`-th entry of a pass learns the `i`-th cell, and that cell refers to it unless a later
      placement of the pass writes the cell again. */
  lemma PlaceAllPuts(s: GameState, c: Color, idx: seq<nat>, cells: seq<Position>, n: nat, i: nat)
    requires SquareBoard(s.board) && c in s.players && n <= |idx|
    requires forall i :: 0 <= i < |idx| ==> idx[i] < |s.players[c].pieces|
    requires forall p :: p in cells ==> OnBoard(p)
    requires forall i, j :: 0 <= i < j < |idx| ==> idx[i] != idx[j]
    requires i < n && i < |cells|
    ensures Names(PlaceAll(s, c, idx, cells, n), PieceRef(c, idx[i]))
    ensures PieceOf(PlaceAll(s, c, idx, cells, n), PieceRef(c, idx[i])) ==
      PieceOf(s, PieceRef(c, idx[i])).(position := Some(cells[i]))
    ensures LastWrite(cells, i, n) ==> RefAt(PlaceAll(s, c, idx, cells, n), cells[i]) == Some(PieceRef(c, idx[i]))
  {
    PlaceAllPieces(s, c, idx, cells, n);
    PlaceAllCells(s, c, idx, cells, n);
  }

  // ---------------------------------------------------------------- the groups

  /** Three different type names, as the type values are. */
  predicate DistinctNames(names: TypeNames) {
    names.flag != names.mine && names.flag != names.bomb && names.mine != names.bomb
  }

  /** An index is in a group exactly when it is a roster index whose piece belongs to the group. */
  lemma GroupMembership(pieces: seq<Piece>, names: TypeNames, g: Group, k: nat)
    ensures k in GroupIndices(pieces, names, g) <==> k < |pieces| && InGroup(names, g, pieces[k].kind)
  {
    GroupIndicesFacts(pieces, names, g);
  }

  /** The entries of a group are distinct. */
  lemma GroupDistinct(pieces: seq<Piece>, names: TypeNames, g: Group)
    ensures forall i, j :: 0 <= i < j < |GroupIndices(pieces, names, g)| ==>
      GroupIndices(pieces, names, g)[i] != GroupIndices(pieces, names, g)[j]
  {
    GroupIncreasing(pieces, names, g);
  }

  /** The normal pieces and the bombs are distinct entries, and they are exactly the roster entries that
      are neither a flag nor a mine. */
  lemma RestFacts(pieces: seq<Piece>, names: TypeNames)
    requires DistinctNames(names)
    ensures (forall i, j :: 0 <= i < j < |RestIndices(pieces, names)| ==> RestIndices(pieces, names)[i] != RestIndices(pieces, names)[j]) &&
      (forall k: nat :: k in RestIndices(pieces, names) <==>
        k < |pieces| && !InGroup(names, Flags, pieces[k].kind) && !InGroup(names, Mines, pieces[k].kind))
  {
    RestDistinct(pieces, names);
    RestMembers(pieces, names);
  }

  lemma RestMembers(pieces: seq<Piece>, names: TypeNames)
    requires DistinctNames(names)
    ensures forall k: nat :: k in RestIndices(pieces, names) <==>
      k < |pieces| && !InGroup(names, Flags, pieces[k].kind) && !InGroup(names, Mines, pieces[k].kind)
  {
    var normals := GroupIndices(pieces, names, Normals);
    var bombs := GroupIndices(pieces, names, Bombs);
    assert forall k :: k in RestIndices(pieces, names) <==> k in normals || k in bombs;
    forall k: nat
      ensures k in RestIndices(pieces, names) <==>
        k < |pieces| && !InGroup(names, Flags, pieces[k].kind) && !InGroup(names, Mines, pieces[k].kind)
    {
      GroupMembership(pieces, names, Normals, k);
      GroupMembership(pieces, names, Bombs, k);
    }
  }

  lemma RestDistinct(pieces: seq<Piece>, names: TypeNames)
    ensures forall i, j :: 0 <= i < j < |RestIndices(pieces, names)| ==> RestIndices(pieces, names)[i] != RestIndices(pieces, names)[j]
  {
    var normals := GroupIndices(pieces, names, Normals);
    var bombs := GroupIndices(pieces, names, Bombs);
    var rest := RestIndices(pieces, names);
    GroupDistinct(pieces, names, Normals);
    GroupDistinct(pieces, names, Bombs);
    forall i, j | 0 <= i < j < |rest|
      ensures rest[i] != rest[j]
    {
      if i < |normals| <= j {
        assert rest[i] == normals[i] && rest[j] == bombs[j - |normals|];
        GroupMembership(pieces, names, Normals, rest[i]);
        GroupMembership(pieces, names, Bombs, rest[j]);
      } else if j < |normals| {
        assert rest[i] == normals[i] && rest[j] == normals[j];
      } else {
        assert rest[i] == bombs[i - |normals|] && rest[j] == bombs[j - |normals|];
      }
    }
  }

  /** Flags, mines and the rest are three disjoint sets of roster entries. */
  lemma GroupsDisjoint(pieces: seq<Piece>, names: TypeNames, k: nat)
    requires DistinctNames(names)
    ensures k in GroupIndices(pieces, names, Flags) ==> k !in GroupIndices(pieces, names, Mines) && k !in RestIndices(pieces, names)
    ensures k in GroupIndices(pieces, names, Mines) ==> k !in RestIndices(pieces, names)
  {
    GroupMembership(pieces, names, Flags, k);
    GroupMembership(pieces, names, Mines, k);
    RestFacts(pieces, names);
  }

  /** Cells in row-major order are distinct. */
  lemma RowMajorDistinct(cells: seq<Position>)
    requires RowMajor(cells)
    ensures forall i, j :: 0 <= i < j < |cells| ==> cells[i] != cells[j]
  {
    forall i, j | 0 <= i < j < |cells|
      ensures cells[i] != cells[j]
    {
      assert Before(cells[i], cells[j]);
    }
  }

  /** No headquarters cell is a back-row cell or, when the available cells avoid the headquarters, a
      rest cell. */
  lemma HeadquartersApart(pieces: seq<Piece>, c: Color, available: seq<Position>, names: TypeNames, q: Position)
    requires forall p :: p in available ==> p !in HeadquartersPositions(c)
    requires q in HeadquartersPositions(c)
    ensures q !in LastTwoRows(c) && q !in RestCells(pieces, c, available, names)
  {
    LastTwoRowsFacts(c);
    var last := LastTwoRows(c);
    var m := Setup.Min(|GroupIndices(pieces, names, Mines)|, |last|);
    forall p | p in last[m..]
      ensures p in last
    {
    }
  }

  /** The two headquarters cells differ, so each is written once by the flag pass. */
  lemma HeadquartersWrittenOnce(c: Color, j: nat, n: nat)
    requires j < 2
    ensures LastWrite(HeadquartersPositions(c), j, n)
  {
  }

  // ---------------------------------------------------------------- what deployPiecesWithRules leaves

  /** Flag `j` of the roster: the first two flags learn the two headquarters cells; further flags stay
      where they were. */
  lemma DeployFlagPiece(s: GameState, c: Color, available: seq<Position>, names: TypeNames, j: nat)
    requires SquareBoard(s.board) && c in s.players
    requires forall p :: p in available ==> OnBoard(p)
    requires DistinctNames(names)
    requires j < |GroupIndices(s.players[c].pieces, names, Flags)|
    ensures var ref := PieceRef(c, GroupIndices(s.players[c].pieces, names, Flags)[j]);
      var s' := DeployWithRules(s, c, available, names);
      Names(s, ref) && Names(s', ref) &&
      PieceOf(s', ref) == (if j < 2 then PieceOf(s, ref).(position := Some(HeadquartersPositions(c)[j])) else PieceOf(s, ref))
  {
    var pieces := s.players[c].pieces;
    var flags := GroupIndices(pieces, names, Flags);
    HeadquartersOnBoard(c);
    GroupDistinct(pieces, names, Flags);
    PlaceAllEntry(s, c, flags, HeadquartersPositions(c), j);
    assert PlaceFlags(s, c, pieces, names) == PlaceAll(s, c, flags, HeadquartersPositions(c), |flags|);
    FlagKeptAfterFlagPass(s, c, available, names, PieceRef(c, flags[j]));
  }

  /** What the flag pass does to a flag is all the deployment does to it. */
  lemma FlagKeptAfterFlagPass(s: GameState, c: Color, available: seq<Position>, names: TypeNames, ref: PieceRef)
    requires SquareBoard(s.board) && c in s.players
    requires forall p :: p in available ==> OnBoard(p)
    requires DistinctNames(names)
    requires Names(s, ref) && ref.owner == c && ref.index in GroupIndices(s.players[c].pieces, names, Flags)
    ensures var s1 := PlaceFlags(s, c, s.players[c].pieces, names);
      Names(DeployWithRules(s, c, available, names), ref) &&
      PieceOf(DeployWithRules(s, c, available, names), ref) == PieceOf(s1, ref)
  {
    var pieces := s.players[c].pieces;
    var s1 := PlaceFlags(s, c, pieces, names);
    var s2 := PlaceMines(s1, c, pieces, names);
    GroupsDisjoint(pieces, names, ref.index);
    MinesKeep(s1, c, pieces, names, ref);
    RestKeeps(s2, c, pieces, available, names, ref);
  }

  /** The first two flags of the roster end on the two headquarters cells, when no available cell is a
      headquarters cell. */
  lemma DeployFlagCell(s: GameState, c: Color, available: seq<Position>, names: TypeNames, j: nat)
    requires SquareBoard(s.board) && c in s.players
    requires forall p :: p in available ==> OnBoard(p) && p !in HeadquartersPositions(c)
    requires j < |GroupIndices(s.players[c].pieces, names, Flags)| && j < 2
    ensures RefAt(DeployWithRules(s, c, available, names), HeadquartersPositions(c)[j]) ==
      Some(PieceRef(c, GroupIndices(s.players[c].pieces, names, Flags)[j]))
  {
    var pieces := s.players[c].pieces;
    var flags := GroupIndices(pieces, names, Flags);
    var hq := HeadquartersPositions(c);
    var s1 := PlaceFlags(s, c, pieces, names);
    var s2 := PlaceMines(s1, c, pieces, names);
    HeadquartersOnBoard(c);
    GroupDistinct(pieces, names, Flags);
    HeadquartersWrittenOnce(c, j, |flags|);
    PlaceAllPuts(s, c, flags, hq, |flags|, j);
    HeadquartersApart(pieces, c, available, names, hq[j]);
    assert Unwritten(RestCells(pieces, c, available, names), hq[j], |RestIndices(pieces, names)|);
    MinesKeepCell(s1, c, pieces, names, hq[j]);
    RestKeepsCell(s2, c, pieces, available, names, hq[j]);
  }

  /** The mine pass leaves every roster entry that is not a mine as it was. */
  lemma MinesKeep(s: GameState, c: Color, pieces: seq<Piece>, names: TypeNames, r: PieceRef)
    requires SquareBoard(s.board) && c in s.players && |pieces| <= |s.players[c].pieces|
    requires Names(s, r) && (r.owner != c || r.index !in GroupIndices(pieces, names, Mines))
    ensures Names(PlaceMines(s, c, pieces, names), r) && PieceOf(PlaceMines(s, c, pieces, names), r) == PieceOf(s, r)
  {
    LastTwoRowsOnBoard(c);
    GroupDistinct(pieces, names, Mines);
    var mines := GroupIndices(pieces, names, Mines);
    PlaceAllKeepsPiece(s, c, mines, LastTwoRows(c), |mines|, r);
  }

  /** The mine pass leaves every cell that is not a back-row cell as it was. */
  lemma MinesKeepCell(s: GameState, c: Color, pieces: seq<Piece>, names: TypeNames, q: Position)
    requires SquareBoard(s.board) && c in s.players && |pieces| <= |s.players[c].pieces|
    requires q !in LastTwoRows(c)
    ensures RefAt(PlaceMines(s, c, pieces, names), q) == RefAt(s, q)
  {
    LastTwoRowsOnBoard(c);
    var mines := GroupIndices(pieces, names, Mines);
    PlaceAllKeepsCell(s, c, mines, LastTwoRows(c), |mines|, q);
  }

  /** The last pass leaves every roster entry that is neither a normal piece nor a bomb as it was. */
  lemma RestKeeps(s: GameState, c: Color, pieces: seq<Piece>, available: seq<Position>, names: TypeNames, r: PieceRef)
    requires SquareBoard(s.board) && c in s.players && |pieces| <= |s.players[c].pieces|
    requires forall p :: p in available ==> OnBoard(p)
    requires Names(s, r) && (r.owner != c || r.index !in RestIndices(pieces, names))
    ensures Names(PlaceRest(s, c, pieces, available, names), r)
    ensures PieceOf(PlaceRest(s, c, pieces, available, names), r) == PieceOf(s, r)
  {
    RestCellsOnBoard(pieces, c, available, names);
    NormalsThenBombs(pieces, names);
    RestDistinct(pieces, names);
    var rest := RestIndices(pieces, names);
    PlaceAllKeepsPiece(s, c, rest, RestCells(pieces, c, available, names), |rest|, r);
  }

  /** The last pass leaves every cell that is not a rest cell as it was. */
  lemma RestKeepsCell(s: GameState, c: Color, pieces: seq<Piece>, available: seq<Position>, names: TypeNames, q: Position)
    requires SquareBoard(s.board) && c in s.players && |pieces| <= |s.players[c].pieces|
    requires forall p :: p in available ==> OnBoard(p)
    requires Unwritten(RestCells(pieces, c, available, names), q, |RestIndices(pieces, names)|)
    ensures RefAt(PlaceRest(s, c, pieces, available, names), q) == RefAt(s, q)
  {
    RestCellsOnBoard(pieces, c, available, names);
    NormalsThenBombs(pieces, names);
    var rest := RestIndices(pieces, names);
    PlaceAllKeepsCell(s, c, rest, RestCells(pieces, c, available, names), |rest|, q);
  }

  /** The flag pass leaves every roster entry that is not a flag as it was. */
  lemma FlagsKeep(s: GameState, c: Color, pieces: seq<Piece>, names: TypeNames, r: PieceRef)
    requires SquareBoard(s.board) && c in s.players && |pieces| <= |s.players[c].pieces|
    requires Names(s, r) && (r.owner != c || r.index !in GroupIndices(pieces, names, Flags))
    ensures Names(PlaceFlags(s, c, pieces, names), r) && PieceOf(PlaceFlags(s, c, pieces, names), r) == PieceOf(s, r)
  {
    HeadquartersOnBoard(c);
    GroupDistinct(pieces, names, Flags);
    var flags := GroupIndices(pieces, names, Flags);
    PlaceAllKeepsPiece(s, c, flags, HeadquartersPositions(c), |flags|, r);
  }

  /** The flag pass leaves every cell that is not a headquarters cell as it was. */
  lemma FlagsKeepCell(s: GameState, c: Color, pieces: seq<Piece>, names: TypeNames, q: Position)
    requires SquareBoard(s.board) && c in s.players && |pieces| <= |s.players[c].pieces|
    requires q !in HeadquartersPositions(c)
    ensures RefAt(PlaceFlags(s, c, pieces, names), q) == RefAt(s, q)
  {
    HeadquartersOnBoard(c);
    var flags := GroupIndices(pieces, names, Flags);
    PlaceAllKeepsCell(s, c, flags, HeadquartersPositions(c), |flags|, q);
  }

  /** Mine `j` of the roster learns back-row cell `j` while there are back-row cells; further mines
      stay where they were. */
  lemma DeployMinePiece(s: GameState, c: Color, available: seq<Position>, names: TypeNames, j: nat)
    requires SquareBoard(s.board) && c in s.players
    requires forall p :: p in available ==> OnBoard(p)
    requires DistinctNames(names)
    requires j < |GroupIndices(s.players[c].pieces, names, Mines)|
    ensures var ref := PieceRef(c, GroupIndices(s.players[c].pieces, names, Mines)[j]);
      var s' := DeployWithRules(s, c, available, names);
      Names(s, ref) && Names(s', ref) &&
      PieceOf(s', ref) == (if j < |LastTwoRows(c)| then PieceOf(s, ref).(position := Some(LastTwoRows(c)[j])) else PieceOf(s, ref))
  {
    var pieces := s.players[c].pieces;
    var mines := GroupIndices(pieces, names, Mines);
    var ref := PieceRef(c, mines[j]);
    var s1 := PlaceFlags(s, c, pieces, names);
    var s2 := PlaceMines(s1, c, pieces, names);
    LastTwoRowsOnBoard(c);
    GroupDistinct(pieces, names, Mines);
    GroupsDisjoint(pieces, names, mines[j]);
    FlagsKeep(s, c, pieces, names, ref);
    PlaceAllEntry(s1, c, mines, LastTwoRows(c), j);
    assert s2 == PlaceAll(s1, c, mines, LastTwoRows(c), |mines|);
    RestKeeps(s2, c, pieces, available, names, ref);
  }

  /** Back-row cell `j` refers to mine `j` at the end, unless a normal piece or a bomb is later placed
      on it too. */
  lemma DeployMineCell(s: GameState, c: Color, available: seq<Position>, names: TypeNames, j: nat)
    requires SquareBoard(s.board) && c in s.players
    requires forall p :: p in available ==> OnBoard(p)
    requires j < |GroupIndices(s.players[c].pieces, names, Mines)| && j < |LastTwoRows(c)|
    requires Unwritten(RestCells(s.players[c].pieces, c, available, names), LastTwoRows(c)[j],
      |RestIndices(s.players[c].pieces, names)|)
    ensures RefAt(DeployWithRules(s, c, available, names), LastTwoRows(c)[j]) ==
      Some(PieceRef(c, GroupIndices(s.players[c].pieces, names, Mines)[j]))
  {
    var pieces := s.players[c].pieces;
    var mines := GroupIndices(pieces, names, Mines);
    var last := LastTwoRows(c);
    var s1 := PlaceFlags(s, c, pieces, names);
    var s2 := PlaceMines(s1, c, pieces, names);
    LastTwoRowsOnBoard(c);
    LastTwoRowsFacts(c);
    RowMajorDistinct(last);
    GroupDistinct(pieces, names, Mines);
    assert LastWrite(last, j, |mines|);
    PlaceAllPuts(s1, c, mines, last, |mines|, j);
    RestKeepsCell(s2, c, pieces, available, names, last[j]);
  }

  /** Entry `k` of the normal pieces followed by the bombs learns rest cell `k` while there are rest
      cells; further entries stay where they were. */
  lemma DeployRestPiece(s: GameState, c: Color, available: seq<Position>, names: TypeNames, k: nat)
    requires SquareBoard(s.board) && c in s.players
    requires forall p :: p in available ==> OnBoard(p)
    requires DistinctNames(names)
    requires k < |RestIndices(s.players[c].pieces, names)|
    ensures var ref := PieceRef(c, RestIndices(s.players[c].pieces, names)[k]);
      var all := RestCells(s.players[c].pieces, c, available, names);
      var s' := DeployWithRules(s, c, available, names);
      Names(s, ref) && Names(s', ref) &&
      PieceOf(s', ref) == (if k < |all| then PieceOf(s, ref).(position := Some(all[k])) else PieceOf(s, ref))
  {
    var pieces := s.players[c].pieces;
    var rest := RestIndices(pieces, names);
    var all := RestCells(pieces, c, available, names);
    var ref := PieceRef(c, rest[k]);
    var s1 := PlaceFlags(s, c, pieces, names);
    var s2 := PlaceMines(s1, c, pieces, names);
    RestCellsOnBoard(pieces, c, available, names);
    NormalsThenBombs(pieces, names);
    RestDistinct(pieces, names);
    RestMembers(pieces, names);
    GroupMembership(pieces, names, Flags, rest[k]);
    GroupMembership(pieces, names, Mines, rest[k]);
    FlagsKeep(s, c, pieces, names, ref);
    MinesKeep(s1, c, pieces, names, ref);
    PlaceAllEntry(s2, c, rest, all, k);
    assert DeployWithRules(s, c, available, names) == PlaceAll(s2, c, rest, all, |rest|);
  }

  /** Rest cell `k` refers to entry `k` of the normal pieces followed by the bombs, unless a later entry
      is placed on the same cell. */
  lemma DeployRestCell(s: GameState, c: Color, available: seq<Position>, names: TypeNames, k: nat)
    requires SquareBoard(s.board) && c in s.players
    requires forall p :: p in available ==> OnBoard(p)
    requires DistinctNames(names)
    requires k < |RestIndices(s.players[c].pieces, names)| && k < |RestCells(s.players[c].pieces, c, available, names)|
    requires LastWrite(RestCells(s.players[c].pieces, c, available, names), k, |RestIndices(s.players[c].pieces, names)|)
    ensures RefAt(DeployWithRules(s, c, available, names), RestCells(s.players[c].pieces, c, available, names)[k]) ==
      Some(PieceRef(c, RestIndices(s.players[c].pieces, names)[k]))
  {
    var pieces := s.players[c].pieces;
    var rest := RestIndices(pieces, names);
    var s1 := PlaceFlags(s, c, pieces, names);
    var s2 := PlaceMines(s1, c, pieces, names);
    RestCellsOnBoard(pieces, c, available, names);
    NormalsThenBombs(pieces, names);
    RestDistinct(pieces, names);
    PlaceAllPuts(s2, c, rest, RestCells(pieces, c, available, names), |rest|, k);
  }

  /** Deploying `c` writes no cell outside its headquarters, its back rows and the available cells. */
  lemma DeployKeepsCell(s: GameState, c: Color, available: seq<Position>, names: TypeNames, q: Position)
    requires SquareBoard(s.board) && c in s.players
    requires forall p :: p in available ==> OnBoard(p)
    requires q !in HeadquartersPositions(c) && q !in LastTwoRows(c) && q !in available
    ensures RefAt(DeployWithRules(s, c, available, names), q) == RefAt(s, q)
  {
    var pieces := s.players[c].pieces;
    var s1 := PlaceFlags(s, c, pieces, names);
    var s2 := PlaceMines(s1, c, pieces, names);
    FlagsKeepCell(s, c, pieces, names, q);
    MinesKeepCell(s1, c, pieces, names, q);
    var all := RestCells(pieces, c, available, names);
    assert q !in all by {
      var last := LastTwoRows(c);
      var m := Setup.Min(|GroupIndices(pieces, names, Mines)|, |last|);
      forall p | p in last[m..] ensures p in last { }
    }
    assert Unwritten(all, q, |RestIndices(pieces, names)|);
    RestKeepsCell(s2, c, pieces, available, names, q);
  }

  /** Deploying `c` leaves the roster entries of every other player as they were. */
  lemma DeployKeepsOthers(s: GameState, c: Color, available: seq<Position>, names: TypeNames, r: PieceRef)
    requires SquareBoard(s.board) && c in s.players
    requires forall p :: p in available ==> OnBoard(p)
    requires Names(s, r) && r.owner != c
    ensures Names(DeployWithRules(s, c, available, names), r)
    ensures PieceOf(DeployWithRules(s, c, available, names), r) == PieceOf(s, r)
  {
    var pieces := s.players[c].pieces;
    var s1 := PlaceFlags(s, c, pieces, names);
    var s2 := PlaceMines(s1, c, pieces, names);
    FlagsKeep(s, c, pieces, names, r);
    MinesKeep(s1, c, pieces, names, r);
    RestKeeps(s2, c, pieces, available, names, r);
  }

  /** With the names as written no piece is a flag, so deploying `c` leaves its headquarters cells as
      they were. */
  lemma WrittenKeepsHeadquarters(s: GameState, c: Color, available: seq<Position>, q: Position)
    requires SquareBoard(s.board) && c in s.players
    requires forall p :: p in available ==> OnBoard(p) && p !in HeadquartersPositions(c)
    requires q in HeadquartersPositions(c)
    ensures RefAt(DeployWithRules(s, c, available, WrittenNames), q) == RefAt(s, q)
  {
    var pieces := s.players[c].pieces;
    WrittenNamesMatchNothing(pieces);
    var s1 := PlaceFlags(s, c, pieces, WrittenNames);
    assert s1 == s;
    var s2 := PlaceMines(s1, c, pieces, WrittenNames);
    HeadquartersApart(pieces, c, available, WrittenNames, q);
    MinesKeepCell(s1, c, pieces, WrittenNames, q);
    assert Unwritten(RestCells(pieces, c, available, WrittenNames), q, |RestIndices(pieces, WrittenNames)|);
    RestKeepsCell(s2, c, pieces, available, WrittenNames, q);
  }

  // ---------------------------------------------------------------- all players

  /** The cells deploying `c` may write: its headquarters and its deployment positions, which include
      its back rows. */
  predicate InWing(c: Color, q: Position) {
    q in HeadquartersPositions(c) || q in PlayerPositions(c)
  }

  /** Every cell of a wing lies in the player's quarter of the board. */
  lemma WingInArea(c: Color, q: Position)
    requires InWing(c, q)
    ensures IsValidPlayerPosition(q.row, q.col, c)
  {
    if q !in HeadquartersPositions(c) {
      var keep := DeployableKeep(c);
      SweepCellsFacts(keep, DeploymentArea(c), DeploymentArea(c).endRow + 1);
      assert keep(q.row, q.col);
    }
  }

  /** The four wings do not overlap. */
  lemma WingsApart(c: Color, d: Color, q: Position)
    requires InWing(c, q) && InWing(d, q)
    ensures c == d
  {
    WingInArea(c, q);
    WingInArea(d, q);
  }

  /** A player's deployment positions are on the board and are not its headquarters cells. */
  lemma DeploymentPositionsOnBoard(c: Color)
    ensures forall p :: p in PlayerPositions(c) ==> OnBoard(p) && p !in HeadquartersPositions(c)
  {
    var keep := DeployableKeep(c);
    SweepCellsFacts(keep, DeploymentArea(c), DeploymentArea(c).endRow + 1);
    forall p | p in PlayerPositions(c)
      ensures OnBoard(p) && p !in HeadquartersPositions(c)
    {
      assert keep(p.row, p.col);
      assert Position(p.row, p.col) == p;
    }
  }

  /** The players of `s` among the first `n` colors of PlayerOrder deployed in turn, each on its own
      deployment positions. */
  function DeployPlayers(s: GameState, names: TypeNames, n: nat): (s': GameState)
    requires SquareBoard(s.board) && n <= |PlayerOrder|
    ensures SquareBoard(s'.board) && SameRosters(s, s')
  {
    if n == 0 then s
    else
      var s1 := DeployPlayers(s, names, n - 1);
      var c := PlayerOrder[n - 1];
      DeploymentPositionsOnBoard(c);
      if c in s1.players then DeployWithRules(s1, c, PlayerPositions(c), names) else s1
  }

  /** `deployPiecesFixed`: every player deployed with the rules, in player order. */
  function DeployFixed(s: GameState, names: TypeNames): (s': GameState)
    requires SquareBoard(s.board)
    ensures SquareBoard(s'.board) && SameRosters(s, s')
  {
    DeployPlayers(s, names, |PlayerOrder|)
  }

  /** Deploying the players from position `n` to `m` of the order writes no cell outside their wings. */
  lemma {:induction false} DeployPlayersKeepsCell(s: GameState, names: TypeNames, n: nat, m: nat, q: Position)
    requires SquareBoard(s.board) && n <= m <= |PlayerOrder|
    requires forall i :: n <= i < m ==> !InWing(PlayerOrder[i], q)
    ensures RefAt(DeployPlayers(s, names, m), q) == RefAt(DeployPlayers(s, names, n), q)
  {
    if n < m {
      DeployPlayersKeepsCell(s, names, n, m - 1, q);
      var s1 := DeployPlayers(s, names, m - 1);
      var c := PlayerOrder[m - 1];
      if c in s1.players {
        DeploymentPositionsOnBoard(c);
        LastTwoRowsFacts(c);
        assert !InWing(c, q);
        DeployKeepsCell(s1, c, PlayerPositions(c), names, q);
      }
    } else {
      assert n == m;
    }
  }

  /** Deploying the players from position `n` to `m` of the order leaves the rosters of all other
      players as they were. */
  lemma {:induction false} DeployPlayersKeepsPiece(s: GameState, names: TypeNames, n: nat, m: nat, r: PieceRef)
    requires SquareBoard(s.board) && n <= m <= |PlayerOrder|
    requires Names(s, r) && (ColorIndex(r.owner) < n || m <= ColorIndex(r.owner))
    ensures Names(DeployPlayers(s, names, m), r)
    ensures PieceOf(DeployPlayers(s, names, m), r) == PieceOf(DeployPlayers(s, names, n), r)
  {
    if n < m {
      DeployPlayersKeepsPiece(s, names, n, m - 1, r);
      var s1 := DeployPlayers(s, names, m - 1);
      var c := PlayerOrder[m - 1];
      OrderIndex(m - 1);
      if c in s1.players {
        DeploymentPositionsOnBoard(c);
        DeployKeepsOthers(s1, c, PlayerPositions(c), names, r);
      }
    } else {
      assert n == m;
    }
  }

  /** When its turn comes, a player still holds the roster it started with. */
  lemma RosterAtTurn(s: GameState, names: TypeNames, c: Color)
    requires SquareBoard(s.board) && c in s.players
    ensures c in DeployPlayers(s, names, ColorIndex(c)).players
    ensures DeployPlayers(s, names, ColorIndex(c)).players[c].pieces == s.players[c].pieces
  {
    var s1 := DeployPlayers(s, names, ColorIndex(c));
    forall k | 0 <= k < |s.players[c].pieces|
      ensures s1.players[c].pieces[k] == s.players[c].pieces[k]
    {
      DeployPlayersKeepsPiece(s, names, 0, ColorIndex(c), PieceRef(c, k));
    }
  }

  /** A player's turn in the order: the state before and after it. */
  lemma TurnStep(s: GameState, names: TypeNames, c: Color)
    requires SquareBoard(s.board) && c in s.players
    ensures forall p :: p in PlayerPositions(c) ==> OnBoard(p) && p !in HeadquartersPositions(c)
    ensures DeployPlayers(s, names, ColorIndex(c) + 1) ==
      DeployWithRules(DeployPlayers(s, names, ColorIndex(c)), c, PlayerPositions(c), names)
  {
    DeploymentPositionsOnBoard(c);
    OrderIndex(ColorIndex(c));
  }

  /** Cells of one wing are outside the wings of all the players after it. */
  lemma LaterWings(c: Color, q: Position)
    requires InWing(c, q)
    ensures forall i :: ColorIndex(c) < i < |PlayerOrder| ==> !InWing(PlayerOrder[i], q)
    ensures forall i :: 0 <= i < ColorIndex(c) ==> !InWing(PlayerOrder[i], q)
  {
    forall i | 0 <= i < |PlayerOrder| && i != ColorIndex(c)
      ensures !InWing(PlayerOrder[i], q)
    {
      OrderIndex(i);
      if InWing(PlayerOrder[i], q) {
        WingsApart(c, PlayerOrder[i], q);
      }
    }
  }

  // ---------------------------------------------------------------- the flag of a new game

  /** The state a new layer deploys: a fresh game whose players have received their rosters. */
  lemma StartFacts(id: string, c: Color)
    ensures var s0 := Setup.InitializePieces(Setup.InitialState(id));
      SquareBoard(s0.board) && c in s0.players && s0.players[c].pieces == PlayerPieces(c) &&
      forall q :: RefAt(s0, q) == None
  {
    Setup.InitialStateFacts(id, c);
    Setup.InitializePiecesEffect(Setup.InitialState(id), c);
  }

  /** The players before `c` in the order leave the cells of `c`'s wing as they were. */
  lemma EarlierKeepWing(s0: GameState, names: TypeNames, c: Color, q: Position)
    requires SquareBoard(s0.board) && InWing(c, q)
    ensures RefAt(DeployPlayers(s0, names, ColorIndex(c)), q) == RefAt(s0, q)
  {
    LaterWings(c, q);
    DeployPlayersKeepsCell(s0, names, 0, ColorIndex(c), q);
  }

  /** The players after `c` in the order leave the cells of `c`'s wing as they were. */
  lemma LaterKeepWing(s0: GameState, names: TypeNames, c: Color, q: Position)
    requires SquareBoard(s0.board) && InWing(c, q)
    ensures RefAt(DeployFixed(s0, names), q) == RefAt(DeployPlayers(s0, names, ColorIndex(c) + 1), q)
  {
    LaterWings(c, q);
    DeployPlayersKeepsCell(s0, names, ColorIndex(c) + 1, |PlayerOrder|, q);
  }

  /** The players after `c` in the order leave `c`'s roster as it was. */
  lemma LaterKeepRoster(s0: GameState, names: TypeNames, r: PieceRef)
    requires SquareBoard(s0.board) && Names(s0, r)
    ensures Names(DeployFixed(s0, names), r) && Names(DeployPlayers(s0, names, ColorIndex(r.owner) + 1), r)
    ensures PieceOf(DeployFixed(s0, names), r) == PieceOf(DeployPlayers(s0, names, ColorIndex(r.owner) + 1), r)
  {
    DeployPlayersKeepsPiece(s0, names, ColorIndex(r.owner) + 1, |PlayerOrder|, r);
  }

  /** With the type values, the fixed deployment of a new game puts every player's flag, its last roster
      entry, on the player's first headquarters cell, and that cell refers to it. */
  lemma FixedFlagOnHeadquarters(id: string, c: Color)
    ensures var s := DeployFixed(Setup.InitializePieces(Setup.InitialState(id)), TypeValues);
      Names(s, PieceRef(c, 24)) && PieceOf(s, PieceRef(c, 24)).kind == Flag &&
      PieceOf(s, PieceRef(c, 24)).position == Some(HeadquartersPositions(c)[0]) &&
      RefAt(s, HeadquartersPositions(c)[0]) == Some(PieceRef(c, 24))
  {
    var s0 := Setup.InitializePieces(Setup.InitialState(id));
    StartFacts(id, c);
    PlayerPiecesShape(c);
    RosterGroups(c);
    FlagCellAtEnd(s0, c);
    FlagPieceAtEnd(s0, c);
  }

  /** When entry 24 is the only flag of `c`'s roster, the first headquarters cell of `c` ends up
      referring to it. */
  lemma FlagCellAtEnd(s0: GameState, c: Color)
    requires SquareBoard(s0.board) && c in s0.players
    requires GroupIndices(s0.players[c].pieces, TypeValues, Flags) == [24]
    ensures RefAt(DeployFixed(s0, TypeValues), HeadquartersPositions(c)[0]) == Some(PieceRef(c, 24))
  {
    RosterAtTurn(s0, TypeValues, c);
    TurnStep(s0, TypeValues, c);
    DeployFlagCell(DeployPlayers(s0, TypeValues, ColorIndex(c)), c, PlayerPositions(c), TypeValues, 0);
    assert InWing(c, HeadquartersPositions(c)[0]);
    LaterKeepWing(s0, TypeValues, c, HeadquartersPositions(c)[0]);
  }

  /** When entry 24 is the only flag of `c`'s roster, it ends up knowing the first headquarters cell of
      `c` as its position, and is otherwise as it was. */
  lemma FlagPieceAtEnd(s0: GameState, c: Color)
    requires SquareBoard(s0.board) && c in s0.players
    requires GroupIndices(s0.players[c].pieces, TypeValues, Flags) == [24]
    ensures Names(s0, PieceRef(c, 24)) && Names(DeployFixed(s0, TypeValues), PieceRef(c, 24))
    ensures PieceOf(DeployFixed(s0, TypeValues), PieceRef(c, 24)) ==
      PieceOf(s0, PieceRef(c, 24)).(position := Some(HeadquartersPositions(c)[0]))
  {
    FlagPieceAtTurn(s0, c);
    LaterKeepRoster(s0, TypeValues, PieceRef(c, 24));
  }

  lemma FlagPieceAtTurn(s0: GameState, c: Color)
    requires SquareBoard(s0.board) && c in s0.players
    requires GroupIndices(s0.players[c].pieces, TypeValues, Flags) == [24]
    ensures Names(s0, PieceRef(c, 24)) && Names(DeployPlayers(s0, TypeValues, ColorIndex(c) + 1), PieceRef(c, 24))
    ensures PieceOf(DeployPlayers(s0, TypeValues, ColorIndex(c) + 1), PieceRef(c, 24)) ==
      PieceOf(s0, PieceRef(c, 24)).(position := Some(HeadquartersPositions(c)[0]))
  {
    RosterAtTurn(s0, TypeValues, c);
    TurnStep(s0, TypeValues, c);
    FlagDeployedPiece(DeployPlayers(s0, TypeValues, ColorIndex(c)), c, PlayerPositions(c));
  }

  /** Deploying `c` with the type values when entry 24 is the only flag of its roster. */
  lemma FlagDeployedPiece(s: GameState, c: Color, available: seq<Position>)
    requires SquareBoard(s.board) && c in s.players
    requires forall p :: p in available ==> OnBoard(p) && p !in HeadquartersPositions(c)
    requires GroupIndices(s.players[c].pieces, TypeValues, Flags) == [24]
    ensures Names(s, PieceRef(c, 24))
    ensures PieceOf(DeployWithRules(s, c, available, TypeValues), PieceRef(c, 24)) ==
      s.players[c].pieces[24].(position := Some(HeadquartersPositions(c)[0]))
  {
    DeployFlagPiece(s, c, available, TypeValues, 0);
  }

  /** With the names as written, the fixed deployment of a new game leaves both headquarters cells of
      every player empty: no flag is placed on them. */
  lemma WrittenHeadquartersLeftEmpty(id: string, c: Color)
    ensures var s := DeployFixed(Setup.InitializePieces(Setup.InitialState(id)), WrittenNames);
      RefAt(s, HeadquartersPositions(c)[0]) == None && RefAt(s, HeadquartersPositions(c)[1]) == None
  {
    var s0 := Setup.InitializePieces(Setup.InitialState(id));
    StartFacts(id, c);
    WrittenHeadquartersEmpty(s0, c, HeadquartersPositions(c)[0]);
    WrittenHeadquartersEmpty(s0, c, HeadquartersPositions(c)[1]);
  }

  /** With the names as written, a headquarters cell that was empty before the fixed deployment is
      empty after it. */
  lemma WrittenHeadquartersEmpty(s0: GameState, c: Color, q: Position)
    requires SquareBoard(s0.board) && c in s0.players && q in HeadquartersPositions(c)
    requires forall p :: RefAt(s0, p) == None
    ensures RefAt(DeployFixed(s0, WrittenNames), q) == None
  {
    assert InWing(c, q);
    EarlierKeepWing(s0, WrittenNames, c, q);
    TurnStep(s0, WrittenNames, c);
    WrittenKeepsHeadquarters(DeployPlayers(s0, WrittenNames, ColorIndex(c)), c, PlayerPositions(c), q);
    LaterKeepWing(s0, WrittenNames, c, q);
  }
}
