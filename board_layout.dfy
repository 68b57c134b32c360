/** The board data service: it lays out the cell types of the 17×17 cross-shaped board (the four
    player wings, the central block with its empty lanes, the headquarters entrances and the camps),
    writing the types into a grid of cells in place, and keeps the last board it built in a cache. */
module BoardLayout {
  import opened Common
  import Deployment

  datatype CellType =
    | Empty | Normal
    | PlayerRed | PlayerGreen | PlayerBlue | PlayerYellow
    | Camp | CampRed | CampGreen | CampBlue | CampYellow
    | Headquarters | Entrance

  /** A board cell: its type, its coordinates and its railway flag. */
  datatype Cell = Cell(kind: CellType, row: int, col: int, hasRailway: bool, connections: seq<string>)

  datatype Dimensions = Dimensions(rows: int, cols: int, cellSize: int, gap: int)

  /** The dimensions a caller may give; a missing one takes its default. */
  datatype DimensionsOverride = DimensionsOverride(rows: Option<int>, cols: Option<int>, cellSize: Option<int>, gap: Option<int>)

  const DefaultDimensions := Dimensions(17, 17, 40, 20)

  /** The given dimensions laid over the defaults. */
  function FinalDimensions(o: DimensionsOverride): (d: Dimensions)
    ensures o.rows.Some? ==> d.rows == o.rows.value
    ensures o.rows.None? ==> d.rows == DefaultDimensions.rows
    ensures o.cols.Some? ==> d.cols == o.cols.value
    ensures o.cols.None? ==> d.cols == DefaultDimensions.cols
  {
    Dimensions(
      if o.rows.Some? then o.rows.value else DefaultDimensions.rows,
      if o.cols.Some? then o.cols.value else DefaultDimensions.cols,
      if o.cellSize.Some? then o.cellSize.value else DefaultDimensions.cellSize,
      if o.gap.Some? then o.gap.value else DefaultDimensions.gap)
  }

  /** The board as built: its grid of cells and its dimensions. The connection list, always empty
      here, is filled by the connection service. */
  datatype BoardData = BoardData(cells: array2<Cell>, dimensions: Dimensions)

  datatype LayoutError = CellMissing

  // ---------------------------------------------------------------- the layout, cell by cell

  /** The wing a cell belongs to on the board: green above, yellow below, red to the left, blue to
      the right of the central block. */
  function WingType(row: int, col: int): Option<CellType> {
    if 0 <= row < 6 && 6 <= col < 11 then Some(PlayerGreen)
    else if 11 <= row < 17 && 6 <= col < 11 then Some(PlayerYellow)
    else if 6 <= row < 11 && 0 <= col < 6 then Some(PlayerRed)
    else if 6 <= row < 11 && 11 <= col < 17 then Some(PlayerBlue)
    else None
  }

  predicate InCentralBlock(row: int, col: int) {
    6 <= row < 11 && 6 <= col < 11
  }

  /** In the central block the rows and columns 7 and 9 are empty lanes; the other cells are normal. */
  function CentralType(row: int, col: int): CellType {
    if row == 7 || row == 9 || col == 7 || col == 9 then Empty else Normal
  }

  /** The eight headquarters entrances, two per player. */
  const EntrancePositions: seq<(int, int)> := [(0, 7), (0, 9), (16, 7), (16, 9), (7, 0), (9, 0), (7, 16), (9, 16)]

  /** A group of camp cells and the type they get. */
  datatype CampGroup = CampGroup(positions: seq<(int, int)>, kind: CellType)

  /** The camps, five per player, in the order they are written. */
  const CampGroups: seq<CampGroup> := [
    CampGroup([(4, 7), (4, 9), (3, 8), (2, 7), (2, 9)], CampGreen),
    CampGroup([(12, 7), (12, 9), (13, 8), (14, 7), (14, 9)], CampYellow),
    CampGroup([(7, 4), (9, 4), (8, 3), (7, 2), (9, 2)], CampRed),
    CampGroup([(7, 12), (9, 12), (8, 13), (7, 14), (9, 14)], CampBlue)]

  /** The type of the last group of `groups` that lists the cell, if any lists it. */
  function CampOf(groups: seq<CampGroup>, row: int, col: int): Option<CellType> {
    if groups == [] then None
    else if (row, col) in groups[|groups| - 1].positions then Some(groups[|groups| - 1].kind)
    else CampOf(groups[..|groups| - 1], row, col)
  }

  /** The type every cell of the built board has: a camp if a camp group lists it, else an entrance
      if it is one, else its type in the central block or its wing, and empty everywhere else. */
  function LayoutType(row: int, col: int): CellType {
    var camp := CampOf(CampGroups, row, col);
    if camp.Some? then camp.value
    else if (row, col) in EntrancePositions then Entrance
    else if InCentralBlock(row, col) then CentralType(row, col)
    else if WingType(row, col).Some? then WingType(row, col).value
    else Empty
  }

  /** The cell at `(row, col)` of a built board. */
  function LayoutCell(row: int, col: int): Cell {
    Cell(LayoutType(row, col), row, col, false, [])
  }

  // ---------------------------------------------------------------- what the layout is

  /** The corners outside the cross stay empty. */
  lemma OutsideCrossEmpty(row: int, col: int)
    requires (row < 6 || row > 10) && (col < 6 || col > 10)
    ensures LayoutType(row, col) == Empty
  {
    CampOfGroups(row, col);
    CampBoxes(row, col);
    EntrancesOnEdges(row, col);
  }

  /** Every camp lies in the wing of its own color, never in the central block, and is not an
      entrance. */
  lemma CampsInWings(row: int, col: int)
    ensures CampOf(CampGroups, row, col) == Some(CampGreen) ==> WingType(row, col) == Some(PlayerGreen)
    ensures CampOf(CampGroups, row, col) == Some(CampYellow) ==> WingType(row, col) == Some(PlayerYellow)
    ensures CampOf(CampGroups, row, col) == Some(CampRed) ==> WingType(row, col) == Some(PlayerRed)
    ensures CampOf(CampGroups, row, col) == Some(CampBlue) ==> WingType(row, col) == Some(PlayerBlue)
    ensures CampOf(CampGroups, row, col).Some? ==>
      !InCentralBlock(row, col) && (row, col) !in EntrancePositions
  {
    CampOfGroups(row, col);
    EntrancesOnEdges(row, col);
    CampBoxes(row, col);
  }

  /** The box of each camp group, inside its wing. */
  lemma CampBoxes(row: int, col: int)
    ensures (row, col) in CampGroups[0].positions ==> 2 <= row <= 4 && 7 <= col <= 9
    ensures (row, col) in CampGroups[1].positions ==> 12 <= row <= 14 && 7 <= col <= 9
    ensures (row, col) in CampGroups[2].positions ==> 7 <= row <= 9 && 2 <= col <= 4
    ensures (row, col) in CampGroups[3].positions ==> 7 <= row <= 9 && 12 <= col <= 14
  {
  }

  /** The entrances lie on the outer edge of the wings. */
  lemma EntrancesOnEdges(row: int, col: int)
    ensures (row, col) in EntrancePositions ==>
      ((row == 0 || row == 16) && 6 <= col <= 10) || ((col == 0 || col == 16) && 6 <= row <= 10)
  {
  }

  /** The camp cells of the board are exactly the twenty camp cells the deployment keeps free. */
  lemma CampsAgreeWithDeployment(row: int, col: int)
    ensures CampOf(CampGroups, row, col).Some? <==> Deployment.IsCampPosition(row, col)
  {
    CampOfGroups(row, col);
  }

  /** The four camp groups are looked at from the last to the first. */
  lemma CampOfGroups(row: int, col: int)
    ensures CampOf(CampGroups, row, col) ==
      if (row, col) in CampGroups[3].positions then Some(CampBlue)
      else if (row, col) in CampGroups[2].positions then Some(CampRed)
      else if (row, col) in CampGroups[1].positions then Some(CampYellow)
      else if (row, col) in CampGroups[0].positions then Some(CampGreen)
      else None
  {
    var g := CampGroups;
    var g3, g2, g1 := g[..3], g[..2], g[..1];
    assert g3[2] == g[2] && g3[..2] == g2;
    assert g2[1] == g[1] && g2[..1] == g1;
    assert g1[0] == g[0] && g1[..0] == [];
    assert CampOf(g1, row, col) == if (row, col) in g[0].positions then Some(g[0].kind) else None;
    assert CampOf(g2, row, col) == if (row, col) in g[1].positions then Some(g[1].kind) else CampOf(g1, row, col);
    assert CampOf(g3, row, col) == if (row, col) in g[2].positions then Some(g[2].kind) else CampOf(g2, row, col);
    assert CampOf(g, row, col) == if (row, col) in g[3].positions then Some(g[3].kind) else CampOf(g3, row, col);
  }

  /** The types on the wings: a wing cell that is neither a camp nor an entrance has its wing's
      player type, and an entrance stays an entrance. */
  lemma WingCells(row: int, col: int)
    ensures WingType(row, col).Some? && CampOf(CampGroups, row, col).None? && (row, col) !in EntrancePositions ==>
      LayoutType(row, col) == WingType(row, col).value
    ensures (row, col) in EntrancePositions ==> LayoutType(row, col) == Entrance
  {
    CampsInWings(row, col);
  }

  // ---------------------------------------------------------------- filling the grid in place

  /** The grid as the cells' types are written: `type` replaced, coordinates and flags kept. */
  function Retyped(c: Cell, kind: CellType): Cell {
    c.(kind := kind)
  }

  /** `generateCells`: a `rows` × `cols` grid of empty cells that know their coordinates. */
  method GenerateCells(rows: nat, cols: nat) returns (cells: array2<Cell>)
    ensures fresh(cells) && cells.Length0 == rows && cells.Length1 == cols
    ensures forall i, j :: 0 <= i < rows && 0 <= j < cols ==> cells[i, j] == Cell(Empty, i, j, false, [])
  {
    cells := new Cell[rows, cols];
    for row := 0 to rows
      invariant forall i, j :: 0 <= i < row && 0 <= j < cols ==> cells[i, j] == Cell(Empty, i, j, false, [])
    {
      for col := 0 to cols
        invariant forall i, j :: 0 <= i < row && 0 <= j < cols ==> cells[i, j] == Cell(Empty, i, j, false, [])
        invariant forall j :: 0 <= j < col ==> cells[row, j] == Cell(Empty, row, j, false, [])
      {
        cells[row, col] := Cell(Empty, row, col, false, []);
      }
    }
  }

  /** One of the nested loops of `setupPlayerAreas`: every cell of the rows `r0` up to `r1` and the
      columns `c0` up to `c1` gets `kind`. */
  method FillRegion(cells: array2<Cell>, r0: nat, r1: nat, c0: nat, c1: nat, kind: CellType)
    requires r0 <= r1 <= cells.Length0 && c0 <= c1 <= cells.Length1
    modifies cells
    ensures forall i, j :: 0 <= i < cells.Length0 && 0 <= j < cells.Length1 ==>
      cells[i, j] == if r0 <= i < r1 && c0 <= j < c1 then Retyped(old(cells[i, j]), kind) else old(cells[i, j])
  {
    for row := r0 to r1
      invariant forall i, j :: 0 <= i < cells.Length0 && 0 <= j < cells.Length1 ==>
        cells[i, j] == if r0 <= i < row && c0 <= j < c1 then Retyped(old(cells[i, j]), kind) else old(cells[i, j])
    {
      for col := c0 to c1
        invariant forall i, j :: 0 <= i < cells.Length0 && 0 <= j < cells.Length1 ==>
          cells[i, j] == if (r0 <= i < row && c0 <= j < c1) || (i == row && c0 <= j < col)
            then Retyped(old(cells[i, j]), kind) else old(cells[i, j])
      {
        cells[row, col] := Retyped(cells[row, col], kind);
      }
    }
  }

  /** The type a cell has after `setupPlayerAreas`, given the type it had before. */
  function AreaType(row: int, col: int, before: CellType): CellType {
    if InCentralBlock(row, col) then CentralType(row, col)
    else if WingType(row, col).Some? then WingType(row, col).value
    else before
  }

  /** `setupPlayerAreas`: the four wings, then the central block. */
  method SetupPlayerAreas(cells: array2<Cell>)
    requires cells.Length0 >= 17 && cells.Length1 >= 17
    modifies cells
    ensures forall i, j :: 0 <= i < cells.Length0 && 0 <= j < cells.Length1 ==>
      cells[i, j] == Retyped(old(cells[i, j]), AreaType(i, j, old(cells[i, j]).kind))
  {
    FillRegion(cells, 0, 6, 6, 11, PlayerGreen);
    FillRegion(cells, 11, 17, 6, 11, PlayerYellow);
    FillRegion(cells, 6, 11, 0, 6, PlayerRed);
    FillRegion(cells, 6, 11, 11, 17, PlayerBlue);
    SetupCentralArea(cells);
  }

  /** `setupCentralArea`: the lanes of the central block empty, its other cells normal. */
  method SetupCentralArea(cells: array2<Cell>)
    requires cells.Length0 >= 11 && cells.Length1 >= 11
    modifies cells
    ensures forall i, j :: 0 <= i < cells.Length0 && 0 <= j < cells.Length1 ==>
      cells[i, j] == if InCentralBlock(i, j) then Retyped(old(cells[i, j]), CentralType(i, j)) else old(cells[i, j])
  {
    for row := 6 to 11
      invariant forall i, j :: 0 <= i < cells.Length0 && 0 <= j < cells.Length1 ==>
        cells[i, j] == if 6 <= i < row && 6 <= j < 11 then Retyped(old(cells[i, j]), CentralType(i, j)) else old(cells[i, j])
    {
      for col := 6 to 11
        invariant forall i, j :: 0 <= i < cells.Length0 && 0 <= j < cells.Length1 ==>
          cells[i, j] == if (6 <= i < row && 6 <= j < 11) || (i == row && 6 <= j < col)
            then Retyped(old(cells[i, j]), CentralType(i, j)) else old(cells[i, j])
      {
        if (row == 7 || row == 9) || (col == 7 || col == 9) {
          cells[row, col] := Retyped(cells[row, col], Empty);
        } else {
          cells[row, col] := Retyped(cells[row, col], Normal);
        }
      }
    }
  }

  /** The type a cell has after `setupSpecialPositions`, given the type it had before. */
  function SpecialType(row: int, col: int, before: CellType): CellType {
    var camp := CampOf(CampGroups, row, col);
    if camp.Some? then camp.value
    else if (row, col) in EntrancePositions then Entrance
    else before
  }

  /** `setupSpecialPositions`: every entrance that lies on the grid becomes an entrance, then every
      camp that lies on the grid gets its group's type. */
  method SetupSpecialPositions(cells: array2<Cell>)
    modifies cells
    ensures forall i, j :: 0 <= i < cells.Length0 && 0 <= j < cells.Length1 ==>
      cells[i, j] == Retyped(old(cells[i, j]), SpecialType(i, j, old(cells[i, j]).kind))
  {
    SetupEntrances(cells);
    for g := 0 to |CampGroups|
      invariant forall i, j :: 0 <= i < cells.Length0 && 0 <= j < cells.Length1 ==>
        cells[i, j] == Retyped(old(cells[i, j]), CampOrEntrance(CampGroups[..g], i, j, old(cells[i, j]).kind))
    {
      SetupCampGroup(cells, CampGroups[g]);
      forall i, j | 0 <= i < cells.Length0 && 0 <= j < cells.Length1
        ensures cells[i, j] == Retyped(old(cells[i, j]), CampOrEntrance(CampGroups[..g + 1], i, j, old(cells[i, j]).kind))
      {
        CampOrEntranceNext(g, i, j, old(cells[i, j]).kind);
      }
    }
    assert CampGroups[..|CampGroups|] == CampGroups;
  }

  /** The entrance loop of `setupSpecialPositions`. */
  method SetupEntrances(cells: array2<Cell>)
    modifies cells
    ensures forall i, j :: 0 <= i < cells.Length0 && 0 <= j < cells.Length1 ==>
      cells[i, j] == if (i, j) in EntrancePositions then Retyped(old(cells[i, j]), Entrance) else old(cells[i, j])
  {
    for k := 0 to |EntrancePositions|
      invariant forall i, j :: 0 <= i < cells.Length0 && 0 <= j < cells.Length1 ==>
        cells[i, j] == if (i, j) in EntrancePositions[..k] then Retyped(old(cells[i, j]), Entrance) else old(cells[i, j])
    {
      var (row, col) := EntrancePositions[k];
      if 0 <= row < cells.Length0 && 0 <= col < cells.Length1 {
        cells[row, col] := Retyped(cells[row, col], Entrance);
      }
      assert EntrancePositions[..k + 1] == EntrancePositions[..k] + [(row, col)];
    }
    assert EntrancePositions[..|EntrancePositions|] == EntrancePositions;
  }

  /** The loop of `setupSpecialPositions` over the cells of one camp group. */
  method SetupCampGroup(cells: array2<Cell>, group: CampGroup)
    modifies cells
    ensures forall i, j :: 0 <= i < cells.Length0 && 0 <= j < cells.Length1 ==>
      cells[i, j] == if (i, j) in group.positions then Retyped(old(cells[i, j]), group.kind) else old(cells[i, j])
  {
    for p := 0 to |group.positions|
      invariant forall i, j :: 0 <= i < cells.Length0 && 0 <= j < cells.Length1 ==>
        cells[i, j] == if (i, j) in group.positions[..p] then Retyped(old(cells[i, j]), group.kind) else old(cells[i, j])
    {
      var (row, col) := group.positions[p];
      if 0 <= row < cells.Length0 && 0 <= col < cells.Length1 {
        cells[row, col] := Retyped(cells[row, col], group.kind);
      }
      assert group.positions[..p + 1] == group.positions[..p] + [(row, col)];
    }
    assert group.positions[..|group.positions|] == group.positions;
  }

  /** The type after the entrances and the camps of `groups` have been written over `before`. */
  function CampOrEntrance(groups: seq<CampGroup>, row: int, col: int, before: CellType): CellType {
    var camp := CampOf(groups, row, col);
    if camp.Some? then camp.value
    else if (row, col) in EntrancePositions then Entrance
    else before
  }

  /** One more camp group written: its cells take its type, the others keep theirs. */
  lemma CampOrEntranceNext(g: nat, row: int, col: int, before: CellType)
    requires g < |CampGroups|
    ensures CampOrEntrance(CampGroups[..g + 1], row, col, before) ==
      if (row, col) in CampGroups[g].positions then CampGroups[g].kind else CampOrEntrance(CampGroups[..g], row, col, before)
  {
    assert CampGroups[..g + 1][..g] == CampGroups[..g];
  }

  /** The three passes over an empty grid give the layout: wings and central block first, then the
      entrances and the camps over them. */
  lemma PassesGiveLayout(row: int, col: int)
    ensures SpecialType(row, col, AreaType(row, col, Empty)) == LayoutType(row, col)
  {
  }

  /** The grid of a built board holds the layout cell at each of its coordinates. */
  predicate IsLayout(d: BoardData)
    reads d.cells
  {
    d.cells.Length0 == d.dimensions.rows && d.cells.Length1 == d.dimensions.cols &&
    d.dimensions.rows >= 17 && d.dimensions.cols >= 17 &&
    forall i, j :: 0 <= i < d.cells.Length0 && 0 <= j < d.cells.Length1 ==> d.cells[i, j] == LayoutCell(i, j)
  }

  class BoardDataService {
    var cachedBoardData: Option<BoardData>

    /** The grid the cache holds, if any. */
    function CachedCells(): set<object>
      reads this
    {
      if cachedBoardData.Some? then {cachedBoardData.value.cells} else {}
    }

    /** A cached board is a built one. The cached grid is handed out by reference, so this holds only
        while callers do not write into the grid they receive; the model assumes they do not. */
    predicate Valid()
      reads this, CachedCells()
    {
      cachedBoardData.Some? ==> IsLayout(cachedBoardData.value)
    }

    /** The service starts with an empty cache. */
    constructor ()
      ensures cachedBoardData == None && Valid()
    {
      cachedBoardData := None;
    }

    /** `createBoardData`: the cached board when its dimensions equal the requested ones; otherwise
        a new grid laid out and cached. A grid smaller than 17×17 has no cell for some write of the
        layout, and the build fails without touching the cache. */
    method CreateBoardData(dims: DimensionsOverride) returns (r: Result<BoardData, LayoutError>)
      requires Valid()
      modifies this
      ensures Valid()
      ensures r.Ok? ==> IsLayout(r.value) && r.value.dimensions == FinalDimensions(dims)
      ensures old(cachedBoardData).Some? && old(cachedBoardData).value.dimensions == FinalDimensions(dims) ==>
        r == Ok(old(cachedBoardData).value) && cachedBoardData == old(cachedBoardData)
      ensures !(old(cachedBoardData).Some? && old(cachedBoardData).value.dimensions == FinalDimensions(dims)) ==>
        if FinalDimensions(dims).rows >= 17 && FinalDimensions(dims).cols >= 17
        then r.Ok? && fresh(r.value.cells) && cachedBoardData == Some(r.value)
        else r == Err(CellMissing) && cachedBoardData == old(cachedBoardData)
    {
      var finalDimensions := FinalDimensions(dims);
      if cachedBoardData.Some? && cachedBoardData.value.dimensions == finalDimensions {
        return Ok(cachedBoardData.value);
      }
      var cells := GenerateCells(if finalDimensions.rows < 0 then 0 else finalDimensions.rows,
                                 if finalDimensions.cols < 0 then 0 else finalDimensions.cols);
      if cells.Length0 < 17 || cells.Length1 < 17 {
        return Err(CellMissing);
      }
      SetupPlayerAreas(cells);
      SetupSpecialPositions(cells);
      var boardData := BoardData(cells, finalDimensions);
      forall i, j | 0 <= i < cells.Length0 && 0 <= j < cells.Length1
        ensures cells[i, j] == LayoutCell(i, j)
      {
        PassesGiveLayout(i, j);
      }
      cachedBoardData := Some(boardData);
      r := Ok(boardData);
    }

    /** `clearCache`: forget the cached board. */
    method ClearCache()
      modifies this
      ensures cachedBoardData == None && Valid()
    {
      cachedBoardData := None;
    }
  }
}
