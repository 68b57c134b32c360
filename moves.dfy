/** The move validator: classification of a move, its straight path, the A* search the path
    builder falls back to for non-straight moves, the list of all valid moves of a piece and the
    threat test. */
module Moves {
  import opened Common
  import opened Pieces
  import opened Rules

  datatype MoveType = Normal | Attack | Railway

  /** The detailed verdict on a move; `target == None` stands for the absent field. */
  datatype DetailedMove = DetailedMove(
    check: MoveCheck,
    moveType: MoveType,
    path: seq<Position>,
    distance: nat,
    target: Option<Piece>)

  // ---------------------------------------------------------------- straight paths

  /** Cells from which `to` is reached by repeating one king step: same row, same column or same diagonal. */
  predicate OnLine(from: Position, to: Position) {
    from.row == to.row || from.col == to.col || Abs(to.row - from.row) == Abs(to.col - from.col)
  }

  /** How many unit steps the straight walk from `from` to `to` takes. */
  function LineSteps(from: Position, to: Position): nat {
    Max(Abs(to.row - from.row), Abs(to.col - from.col))
  }

  lemma LineStepsReachTarget(from: Position, to: Position, k: nat)
    requires OnLine(from, to) && k <= LineSteps(from, to)
    ensures StepToward(from, to, k) == to <==> k == LineSteps(from, to)
  {
  }

  /** The cells the straight walk visits: every step short of `to`, then `to` itself. */
  function StraightPath(from: Position, to: Position): (path: seq<Position>)
    requires OnLine(from, to)
    ensures |path| == LineSteps(from, to) + 1
    ensures path[0] == from && path[|path| - 1] == to
    ensures forall k :: 0 <= k < |path| - 1 ==> path[k] == StepToward(from, to, k)
  {
    seq(LineSteps(from, to), k => StepToward(from, to, k)) + [to]
  }

  /** Consecutive cells of a walk are one orthogonal step apart. */
  predicate UnitSteps(path: seq<Position>) {
    forall k :: 0 <= k < |path| - 1 ==> Distance(path[k], path[k + 1]) == 1
  }

  /** Along a row or a column the straight path has one cell per unit of distance plus the start,
      and moves one orthogonal step at a time. */
  lemma StraightPathShape(from: Position, to: Position)
    requires from.row == to.row || from.col == to.col
    ensures |StraightPath(from, to)| == Distance(from, to) + 1
    ensures UnitSteps(StraightPath(from, to))
  {
    var path := StraightPath(from, to);
    forall k | 0 <= k < |path| - 1
      ensures Distance(path[k], path[k + 1]) == 1
    {
      if k + 1 < |path| - 1 {
        assert path[k + 1] == StepToward(from, to, k + 1);
      } else {
        LineStepsReachTarget(from, to, k + 1);
      }
    }
  }

  /** Along a row or a column the inner cells of the straight path are the cells between the ends. */
  lemma StraightPathInner(from: Position, to: Position)
    requires from.row == to.row || from.col == to.col
    ensures forall k :: 0 < k < |StraightPath(from, to)| - 1 ==> Between(StraightPath(from, to)[k], from, to)
  {
    var path := StraightPath(from, to);
    forall k | 0 < k < |path| - 1
      ensures Between(path[k], from, to)
    {
      BetweenIsStep(from, to, path[k]);
    }
  }

  /** Walks from `from` towards `to` one step at a time, collecting every cell before `to`, then `to`. */
  method CalculateStraightPath(from: Position, to: Position) returns (path: seq<Position>)
    requires OnLine(from, to)
    ensures path == StraightPath(from, to)
  {
    path := [];
    var rowStep := Sign(to.row - from.row);
    var colStep := Sign(to.col - from.col);
    var row := from.row;
    var col := from.col;
    ghost var k := 0;
    while row != to.row || col != to.col
      invariant 0 <= k <= LineSteps(from, to)
      invariant Position(row, col) == StepToward(from, to, k)
      invariant path == seq(k, j => StepToward(from, to, j))
      decreases LineSteps(from, to) - k
    {
      LineStepsReachTarget(from, to, k);
      path := path + [Position(row, col)];
      row := row + rowStep;
      col := col + colStep;
      k := k + 1;
    }
    LineStepsReachTarget(from, to, k);
    path := path + [to];
  }

  // ---------------------------------------------------------------- classification

  /** The verdict on a move: CanMovePiece's answer, and for an accepted move its type, its straight
      path, its distance and the piece on the target cell. */
  function ValidateMove(piece: Piece, from: Position, to: Position, board: Board): (m: DetailedMove)
    requires |board| > 0
    ensures m.check == CanMovePiece(piece, from, to, board)
    ensures m.check != Valid ==> m.moveType == Normal && m.path == [] && m.distance == 0 && m.target == None
    ensures m.check == Valid ==> m.distance == Distance(from, to) && m.distance >= 1 && m.target == At(board, to)
    ensures m.check == Valid ==> (m.moveType == Attack <==> At(board, to).Some?)
    ensures m.check == Valid ==> (m.moveType == Railway <==> At(board, to).None? && piece.kind == Engineer && m.distance > 1)
    ensures m.check == Valid ==>
      |m.path| == m.distance + 1 && m.path[0] == from && m.path[|m.path| - 1] == to && UnitSteps(m.path) &&
      forall k :: 0 < k < |m.path| - 1 ==> CellFree(board, m.path[k])
  {
    var check := CanMovePiece(piece, from, to, board);
    if check != Valid then DetailedMove(check, Normal, [], 0, None)
    else
      var distance := Distance(from, to);
      var target := At(board, to);
      var moveType :=
        if target.Some? && AllianceOf(piece.owner, target.value.owner) == Enemy then Attack
        else if piece.kind == Engineer && distance > 1 then Railway
        else Normal;
      StraightPathShape(from, to);
      StraightPathInner(from, to);
      var path := StraightPath(from, to);
      assert forall k :: 0 < k < |path| - 1 ==> CellFree(board, path[k]) by {
        PathClearIffBetweenFree(board, from, to);
      }
      DetailedMove(Valid, moveType, path, distance, target)
  }

  /** The A* heuristic: the Manhattan distance. */
  function CalculateHeuristic(from: Position, to: Position): (h: nat)
    ensures h == Distance(from, to)
  {
    var dr := from.row - to.row;
    var dc := from.col - to.col;
    (if dr < 0 then -dr else dr) + (if dc < 0 then -dc else dc)
  }

  predicate PositionsEqual(a: Position, b: Position)
    ensures PositionsEqual(a, b) <==> a == b
  {
    a.row == b.row && a.col == b.col
  }

  // ---------------------------------------------------------------- A* search

  /** A search node; `parent` indexes the node array, `None` standing for the source's `null`. */
  datatype PathNode = PathNode(position: Position, g: nat, h: nat, f: nat, parent: Option<nat>)

  /** The in-bounds cells around `p`, in the order up, down, left, right. */
  function Neighbors(p: Position, board: Board): (ns: seq<Position>)
    requires |board| > 0
    ensures forall q :: q in ns <==> InBounds(q, board) && Distance(p, q) == 1
    ensures forall a, b :: 0 <= a < b < |ns| ==> ns[a] != ns[b]
  {
    var up, down, left, right := Position(p.row - 1, p.col), Position(p.row + 1, p.col),
                                 Position(p.row, p.col - 1), Position(p.row, p.col + 1);
    (if InBounds(up, board) then [up] else []) +
    (if InBounds(down, board) then [down] else []) +
    (if InBounds(left, board) then [left] else []) +
    (if InBounds(right, board) then [right] else [])
  }

  /** One move of `piece` to an adjacent in-bounds cell that CanMovePiece accepts. */
  predicate LegalStep(a: Position, b: Position, piece: Piece, board: Board)
    requires |board| > 0
  {
    Distance(a, b) == 1 && InBounds(b, board) && CanMovePiece(piece, a, b, board) == Valid
  }

  /** Walks through which a piece moves, cell by cell, by moves CanMovePiece accepts. */
  predicate LegalWalk(path: seq<Position>, piece: Piece, board: Board)
    requires |board| > 0
  {
    forall k :: 0 <= k < |path| - 1 ==> LegalStep(path[k], path[k + 1], piece, board)
  }

  lemma PrependLegalStep(p: Position, path: seq<Position>, piece: Piece, board: Board)
    requires |board| > 0 && path != []
    requires LegalWalk(path, piece, board) && LegalStep(p, path[0], piece, board)
    ensures LegalWalk([p] + path, piece, board)
  {
    var q := [p] + path;
    forall k | 0 <= k < |q| - 1 ensures LegalStep(q[k], q[k + 1], piece, board) {
      if k > 0 {
        assert q[k] == path[k - 1] && q[k + 1] == path[k];
      }
    }
  }

  /** Node `i` is one legal step from its parent, which has a smaller cost. */
  predicate LinkedToParent(nodes: seq<PathNode>, i: nat, piece: Piece, board: Board)
    requires i < |nodes| && |board| > 0
  {
    var p := nodes[i].parent;
    p.Some? && p.value < |nodes| && nodes[p.value].g < nodes[i].g &&
    LegalStep(nodes[p.value].position, nodes[i].position, piece, board)
  }

  /** The node array is a tree rooted at the start node `nodes[0]`. */
  predicate Arena(nodes: seq<PathNode>, from: Position, piece: Piece, board: Board)
    requires |board| > 0
  {
    |nodes| > 0 && nodes[0].position == from && nodes[0].parent.None? &&
    forall i :: 0 < i < |nodes| ==> LinkedToParent(nodes, i, piece, board)
  }

  /** The cells a search from `from` can ever close: the start and the in-bounds cells. */
  ghost function SearchSpace(from: Position, board: Board): set<Position>
    requires |board| > 0
  {
    {from} + set r: int, c: int | 0 <= r < |board| && 0 <= c < |board[0]| :: Position(r, c)
  }

  /** What the search loop keeps: a valid arena; open nodes with pairwise distinct, unclosed cells;
      no open node is anyone's parent, so open costs may drop without breaking the tree. */
  ghost predicate Searching(nodes: seq<PathNode>, open: seq<nat>, closed: set<Position>, from: Position, piece: Piece, board: Board)
    requires |board| > 0
  {
    Arena(nodes, from, piece, board) &&
    (forall a :: 0 <= a < |open| ==> open[a] < |nodes| && nodes[open[a]].position !in closed) &&
    (forall a, b :: 0 <= a < b < |open| ==> nodes[open[a]].position != nodes[open[b]].position) &&
    (forall i :: 0 < i < |nodes| && nodes[i].parent.Some? ==> nodes[i].parent.value !in open) &&
    (0 in open ==> |nodes| == 1) &&
    closed <= SearchSpace(from, board)
  }

  /** Index into `open` of the first open node with the lowest f cost. */
  method PickLowest(nodes: seq<PathNode>, open: seq<nat>) returns (best: nat)
    requires |open| > 0 && forall a :: 0 <= a < |open| ==> open[a] < |nodes|
    ensures best < |open|
    ensures forall a :: 0 <= a < |open| ==> nodes[open[best]].f <= nodes[open[a]].f
    ensures forall a :: 0 <= a < best ==> nodes[open[best]].f < nodes[open[a]].f
  {
    best := 0;
    for i := 1 to |open|
      invariant best < i
      invariant forall a :: 0 <= a < i ==> nodes[open[best]].f <= nodes[open[a]].f
      invariant forall a :: 0 <= a < best ==> nodes[open[best]].f < nodes[open[a]].f
    {
      if nodes[open[i]].f < nodes[open[best]].f {
        best := i;
      }
    }
  }

  /** Index into `open` of the first open node standing on `p`, or -1. */
  function FindOpen(nodes: seq<PathNode>, open: seq<nat>, p: Position): (k: int)
    requires forall a :: 0 <= a < |open| ==> open[a] < |nodes|
    ensures -1 <= k < |open|
    ensures k == -1 <==> forall a :: 0 <= a < |open| ==> nodes[open[a]].position != p
    ensures k >= 0 ==> nodes[open[k]].position == p
  {
    if |open| == 0 then -1
    else if nodes[open[|open| - 1]].position == p && FindOpen(nodes, open[..|open| - 1], p) == -1 then |open| - 1
    else FindOpen(nodes, open[..|open| - 1], p)
  }

  /** Offers the neighbours of the node `current` (already closed) to the open set: a new cell gets a
      new node, an open cell with a higher cost is re-parented to `current`. */
  method ExpandNode(nodes0: seq<PathNode>, open0: seq<nat>, closed: set<Position>, current: nat,
                    from: Position, to: Position, piece: Piece, board: Board)
      returns (nodes: seq<PathNode>, open: seq<nat>)
    requires |board| > 0
    requires Searching(nodes0, open0, closed, from, piece, board)
    requires current < |nodes0| && current !in open0 && nodes0[current].position in closed
    ensures Searching(nodes, open, closed, from, piece, board)
  {
    nodes, open := nodes0, open0;
    var neighbors := Neighbors(nodes[current].position, board);
    for j := 0 to |neighbors|
      invariant Searching(nodes, open, closed, from, piece, board)
      invariant current < |nodes| && current !in open && nodes[current] == nodes0[current]
    {
      nodes, open := OfferNeighbor(nodes, open, closed, current, neighbors[j], from, to, piece, board);
    }
  }

  /** One neighbour of `current`: skipped when closed or not a legal step, otherwise added as a new
      open node or used to lower the cost of its open node. */
  method OfferNeighbor(nodes0: seq<PathNode>, open0: seq<nat>, closed: set<Position>, current: nat, neighbor: Position,
                       from: Position, to: Position, piece: Piece, board: Board)
      returns (nodes: seq<PathNode>, open: seq<nat>)
    requires |board| > 0
    requires Searching(nodes0, open0, closed, from, piece, board)
    requires current < |nodes0| && current !in open0
    requires InBounds(neighbor, board) && Distance(nodes0[current].position, neighbor) == 1
    ensures Searching(nodes, open, closed, from, piece, board)
    ensures current < |nodes| && current !in open && nodes[current] == nodes0[current]
  {
    nodes, open := nodes0, open0;
    var cur := nodes[current];
    if neighbor in closed {
      return;
    }
    if CanMovePiece(piece, cur.position, neighbor, board) != Valid {
      return;
    }
    assert LegalStep(cur.position, neighbor, piece, board);
    var g := cur.g + 1;
    var h := CalculateHeuristic(neighbor, to);
    var k := FindOpen(nodes, open, neighbor);
    if k == -1 {
      AddNodeKeepsSearching(nodes, open, closed, current, neighbor, g, h, from, piece, board);
      nodes := nodes + [PathNode(neighbor, g, h, g + h, Some(current))];
      open := open + [|nodes| - 1];
    } else if g < nodes[open[k]].g {
      var idx := open[k];
      ReparentKeepsSearching(nodes, open, closed, current, k, g, h, from, piece, board);
      nodes := nodes[idx := nodes[idx].(g := g, f := g + h, parent := Some(current))];
    }
  }

  /** A new open node for an unclosed cell with no open node, one legal step from the closed node
      `current`, keeps the search invariant. */
  lemma AddNodeKeepsSearching(nodes: seq<PathNode>, open: seq<nat>, closed: set<Position>, current: nat,
                              p: Position, g: nat, h: nat, from: Position, piece: Piece, board: Board)
    requires |board| > 0
    requires Searching(nodes, open, closed, from, piece, board)
    requires current < |nodes| && current !in open
    requires p !in closed && g == nodes[current].g + 1 && LegalStep(nodes[current].position, p, piece, board)
    requires forall a :: 0 <= a < |open| ==> nodes[open[a]].position != p
    ensures Searching(nodes + [PathNode(p, g, h, g + h, Some(current))], open + [|nodes|], closed, from, piece, board)
  {
    var nodes' := nodes + [PathNode(p, g, h, g + h, Some(current))];
    var open' := open + [|nodes|];
    assert 0 !in open;
    forall i | 0 < i < |nodes'| ensures LinkedToParent(nodes', i, piece, board) {
      if i < |nodes| {
        assert LinkedToParent(nodes, i, piece, board);
      }
    }
    forall i | 0 < i < |nodes'| && nodes'[i].parent.Some? ensures nodes'[i].parent.value !in open' {
      if i < |nodes| {
        assert LinkedToParent(nodes, i, piece, board);
      }
    }
  }

  /** Lowering the cost of the open node `open[k]` and re-parenting it to the closed node `current`,
      one legal step away, keeps the search invariant. */
  lemma ReparentKeepsSearching(nodes: seq<PathNode>, open: seq<nat>, closed: set<Position>, current: nat, k: nat,
                               g: nat, h: nat, from: Position, piece: Piece, board: Board)
    requires |board| > 0
    requires Searching(nodes, open, closed, from, piece, board)
    requires current < |nodes| && current !in open && k < |open|
    requires g == nodes[current].g + 1 && LegalStep(nodes[current].position, nodes[open[k]].position, piece, board)
    ensures var idx := open[k];
      Searching(nodes[idx := nodes[idx].(g := g, f := g + h, parent := Some(current))], open, closed, from, piece, board)
  {
    var idx := open[k];
    var nodes' := nodes[idx := nodes[idx].(g := g, f := g + h, parent := Some(current))];
    assert 0 !in open;
    forall i | 0 < i < |nodes'| ensures LinkedToParent(nodes', i, piece, board) {
      if i != idx {
        assert LinkedToParent(nodes, i, piece, board);
        assert nodes[i].parent.value != idx;
      }
    }
  }

  /** Follows parent links from node `end` back to the start node, prepending each cell. */
  method ReconstructPath(nodes: seq<PathNode>, end: nat, from: Position, piece: Piece, board: Board) returns (path: seq<Position>)
    requires |board| > 0
    requires Arena(nodes, from, piece, board) && end < |nodes|
    ensures |path| >= 1 && path[0] == from && path[|path| - 1] == nodes[end].position
    ensures LegalWalk(path, piece, board)
  {
    path := [];
    var current: Option<nat> := Some(end);
    while current.Some?
      invariant current.Some? ==> current.value < |nodes|
      invariant path == [] <==> current == Some(end)
      invariant path != [] ==> path[|path| - 1] == nodes[end].position
      invariant current.Some? && path != [] ==> LegalStep(nodes[current.value].position, path[0], piece, board)
      invariant current.None? ==> path[0] == from
      invariant LegalWalk(path, piece, board)
      decreases if current.Some? then nodes[current.value].g + 1 else 0
    {
      var index := current.value;
      var node := nodes[index];
      if index > 0 {
        assert LinkedToParent(nodes, index, piece, board);
      }
      if path != [] {
        PrependLegalStep(node.position, path, piece, board);
      }
      path := [node.position] + path;
      current := node.parent;
    }
  }

  /** The A* search of the source. It returns the walk it reconstructs on reaching `to`; when the open
      set runs dry it falls back to the straight path, and `None` stands for the case where that
      fallback walks forever because `to` is on no row, column or diagonal of `from`. */
  method FindPathAStar(from: Position, to: Position, board: Board, piece: Piece) returns (path: Option<seq<Position>>)
    requires |board| > 0
    ensures path.Some? ==> |path.value| >= 1 && path.value[0] == from && path.value[|path.value| - 1] == to
    ensures path.Some? ==> LegalWalk(path.value, piece, board) || (OnLine(from, to) && path.value == StraightPath(from, to))
    ensures path.None? ==> !OnLine(from, to)
  {
    var h := CalculateHeuristic(from, to);
    var nodes := [PathNode(from, 0, h, 0 + h, None)];
    var open: seq<nat> := [0];
    var closed: set<Position> := {};
    while |open| > 0
      invariant Searching(nodes, open, closed, from, piece, board)
      decreases SearchSpace(from, board) - closed
    {
      var best := PickLowest(nodes, open);
      var current := open[best];
      ghost var closedBefore := closed;
      open := open[..best] + open[best + 1..];
      closed := closed + {nodes[current].position};
      assert nodes[current].position in SearchSpace(from, board) by {
        if current > 0 {
          assert LinkedToParent(nodes, current, piece, board);
        }
      }
      assert forall a :: 0 <= a < |open| ==> nodes[open[a]].position != nodes[current].position;
      if PositionsEqual(nodes[current].position, to) {
        var walk := ReconstructPath(nodes, current, from, piece, board);
        return Some(walk);
      }
      nodes, open := ExpandNode(nodes, open, closed, current, from, to, piece, board);
    }
    if OnLine(from, to) {
      var straight := CalculateStraightPath(from, to);
      return Some(straight);
    }
    return None;
  }

  /** The path of a move: the straight walk for orthogonal moves, otherwise the A* search. */
  method CalculatePath(from: Position, to: Position, board: Board, piece: Piece) returns (path: Option<seq<Position>>)
    requires |board| > 0
    ensures IsOrthogonal(from, to) ==> path == Some(StraightPath(from, to))
    ensures path.Some? ==> |path.value| >= 1 && path.value[0] == from && path.value[|path.value| - 1] == to
  {
    if IsOrthogonal(from, to) {
      var straight := CalculateStraightPath(from, to);
      return Some(straight);
    }
    path := FindPathAStar(from, to, board, piece);
  }

  /** A move that CanMovePiece accepts is orthogonal, so its path is the straight one and the
      search is never reached from ValidateMove. */
  lemma ValidMovesTakeStraightPaths(piece: Piece, from: Position, to: Position, board: Board)
    requires |board| > 0 && CanMovePiece(piece, from, to, board) == Valid
    ensures IsOrthogonal(from, to) && ValidateMove(piece, from, to, board).path == StraightPath(from, to)
  {
  }

  // ---------------------------------------------------------------- valid moves and threats

  /** The verdicts on the accepted moves among `targets`, in order. */
  function ValidatedMoves(piece: Piece, from: Position, targets: seq<Position>, board: Board): seq<DetailedMove>
    requires |board| > 0
  {
    if targets == [] then []
    else
      var rest := ValidatedMoves(piece, from, targets[..|targets| - 1], board);
      var m := ValidateMove(piece, from, targets[|targets| - 1], board);
      if m.check == Valid then rest + [m] else rest
  }

  /** The verdicts on all possible moves of a piece that validation accepts. */
  function AllValidMoves(piece: Piece, board: Board): (moves: seq<DetailedMove>)
    requires |board| > 0
    ensures |moves| <= |PossibleMoves(piece, board, true)|
    ensures forall m :: m in moves ==> m.check == Valid
  {
    if piece.position.None? then []
    else
      ValidatedMovesAccepted(piece, piece.position.value, PossibleMoves(piece, board, true), board);
      ValidatedMoves(piece, piece.position.value, PossibleMoves(piece, board, true), board)
  }

  /** Validation keeps at most one verdict per target, and only accepting ones. */
  lemma {:induction false} ValidatedMovesAccepted(piece: Piece, from: Position, targets: seq<Position>, board: Board)
    requires |board| > 0
    ensures |ValidatedMoves(piece, from, targets, board)| <= |targets|
    ensures forall m :: m in ValidatedMoves(piece, from, targets, board) ==> m.check == Valid
  {
    if targets != [] {
      ValidatedMovesAccepted(piece, from, targets[..|targets| - 1], board);
    }
  }

  /** Validates every possible move (attacks included) and keeps the accepted ones. */
  method GetAllValidMoves(piece: Piece, board: Board) returns (moves: seq<DetailedMove>)
    requires |board| > 0
    ensures moves == AllValidMoves(piece, board)
  {
    if piece.position.None? {
      return [];
    }
    var from := piece.position.value;
    moves := [];
    var targets := GetPossibleMoves(piece, board, true);
    for i := 0 to |targets|
      invariant moves == ValidatedMoves(piece, from, targets[..i], board)
    {
      assert targets[..i + 1][..i] == targets[..i];
      var m := ValidateMove(piece, from, targets[i], board);
      if m.check == Valid {
        moves := moves + [m];
      }
    }
    assert targets[..|targets|] == targets;
  }

  /** When every target is accepted, validation keeps all of them, one verdict per target, in order. */
  lemma {:induction false} ValidatedMovesKeepAll(piece: Piece, from: Position, targets: seq<Position>, board: Board)
    requires |board| > 0
    requires forall t :: t in targets ==> CanMovePiece(piece, from, t, board) == Valid
    ensures |ValidatedMoves(piece, from, targets, board)| == |targets|
    ensures forall i :: 0 <= i < |targets| ==>
      ValidatedMoves(piece, from, targets, board)[i] == ValidateMove(piece, from, targets[i], board)
  {
    if targets != [] {
      var prefix := targets[..|targets| - 1];
      var last := targets[|targets| - 1];
      assert forall t :: t in prefix ==> t in targets;
      ValidatedMovesKeepAll(piece, from, prefix, board);
      var m := ValidateMove(piece, from, last, board);
      assert m.check == Valid;
      var rest := ValidatedMoves(piece, from, prefix, board);
      assert ValidatedMoves(piece, from, targets, board) == rest + [m];
      assert forall i :: 0 <= i < |prefix| ==> prefix[i] == targets[i];
    }
  }

  /** Every possible move of a piece passes validation, so the valid moves are exactly the possible
      moves, each accepted and ending on its target. */
  lemma AllValidMovesArePossibleMoves(piece: Piece, board: Board)
    requires |board| > 0
    ensures piece.position.Some? ==> |AllValidMoves(piece, board)| == |PossibleMoves(piece, board, true)|
    ensures forall i :: 0 <= i < |AllValidMoves(piece, board)| ==>
      AllValidMoves(piece, board)[i].check == Valid &&
      AllValidMoves(piece, board)[i] == ValidateMove(piece, piece.position.value, PossibleMoves(piece, board, true)[i], board)
  {
    if piece.position.Some? {
      var targets := PossibleMoves(piece, board, true);
      forall t | t in targets ensures CanMovePiece(piece, piece.position.value, t, board) == Valid {
        PossibleMovesSound(piece, board, true, t);
      }
      ValidatedMovesKeepAll(piece, piece.position.value, targets, board);
    }
  }

  /** A piece of `byPlayer` stands at (r, c) and lists `position` among its possible moves. */
  predicate ThreatFrom(position: Position, byPlayer: Color, board: Board, r: int, c: int)
    requires 0 <= r < |board| && 0 <= c < |board[r]|
  {
    board[r][c].Some? && board[r][c].value.owner == byPlayer &&
    position in PossibleMoves(board[r][c].value, board, true)
  }

  /** Some piece of `byPlayer` on the board can reach `position`. */
  predicate Threatened(position: Position, byPlayer: Color, board: Board) {
    exists r, c :: 0 <= r < |board| && 0 <= c < |board[r]| && ThreatFrom(position, byPlayer, board, r, c)
  }

  /** Some piece of `byPlayer` among the first `n` cells of row `row` can reach `position`. */
  predicate RowThreat(position: Position, byPlayer: Color, board: Board, row: nat, n: nat)
    requires row < |board| && n <= |board[row]|
  {
    n > 0 && (RowThreat(position, byPlayer, board, row, n - 1) || ThreatFrom(position, byPlayer, board, row, n - 1))
  }

  /** Some piece of `byPlayer` in the first `n` rows can reach `position`. */
  predicate BoardThreat(position: Position, byPlayer: Color, board: Board, n: nat)
    requires n <= |board|
  {
    n > 0 && (BoardThreat(position, byPlayer, board, n - 1) || RowThreat(position, byPlayer, board, n - 1, |board[n - 1]|))
  }

  /** Scans the board row by row for a piece of `byPlayer` that can reach `position`. */
  method IsPositionThreatened(position: Position, byPlayer: Color, board: Board) returns (threatened: bool)
    ensures threatened <==> Threatened(position, byPlayer, board)
  {
    for row := 0 to |board|
      invariant !BoardThreat(position, byPlayer, board, row)
    {
      var found := RowThreatened(position, byPlayer, board, row);
      if found {
        BoardThreatIff(position, byPlayer, board, row + 1);
        return true;
      }
    }
    BoardThreatIff(position, byPlayer, board, |board|);
    return false;
  }

  /** The inner loop of the threat scan: whether some piece of `byPlayer` in row `row` can reach `position`. */
  method RowThreatened(position: Position, byPlayer: Color, board: Board, row: nat) returns (found: bool)
    requires row < |board|
    ensures found == RowThreat(position, byPlayer, board, row, |board[row]|)
  {
    for col := 0 to |board[row]|
      invariant !RowThreat(position, byPlayer, board, row, col)
    {
      var threat := CellThreatens(position, byPlayer, board, row, col);
      if threat {
        RowThreatGrows(position, byPlayer, board, row, col + 1, |board[row]|);
        return true;
      }
    }
    return false;
  }

  /** A threat among the first `m` cells of a row is one among the first `n >= m`. */
  lemma {:induction false} RowThreatGrows(position: Position, byPlayer: Color, board: Board, row: nat, m: nat, n: nat)
    requires row < |board| && m <= n <= |board[row]|
    requires RowThreat(position, byPlayer, board, row, m)
    ensures RowThreat(position, byPlayer, board, row, n)
  {
    if m < n {
      RowThreatGrows(position, byPlayer, board, row, m, n - 1);
    }
  }

  /** A row's scan finds a threat exactly when some cell among its first `n` holds one. */
  lemma {:induction false} RowThreatIff(position: Position, byPlayer: Color, board: Board, row: nat, n: nat)
    requires row < |board| && n <= |board[row]|
    ensures RowThreat(position, byPlayer, board, row, n) <==>
      exists c :: 0 <= c < n && ThreatFrom(position, byPlayer, board, row, c)
  {
    if n > 0 {
      RowThreatIff(position, byPlayer, board, row, n - 1);
    }
  }

  /** The board scan finds a threat among the first `n` rows exactly when some cell there holds one. */
  lemma {:induction false} BoardThreatIff(position: Position, byPlayer: Color, board: Board, n: nat)
    requires n <= |board|
    ensures BoardThreat(position, byPlayer, board, n) <==>
      exists r, c :: 0 <= r < n && 0 <= c < |board[r]| && ThreatFrom(position, byPlayer, board, r, c)
  {
    if n > 0 {
      BoardThreatIff(position, byPlayer, board, n - 1);
      RowThreatIff(position, byPlayer, board, n - 1, |board[n - 1]|);
      if exists r, c :: 0 <= r < n && 0 <= c < |board[r]| && ThreatFrom(position, byPlayer, board, r, c) {
        var r, c :| 0 <= r < n && 0 <= c < |board[r]| && ThreatFrom(position, byPlayer, board, r, c);
        if r == n - 1 {
          assert RowThreat(position, byPlayer, board, n - 1, |board[n - 1]|);
        } else {
          assert BoardThreat(position, byPlayer, board, n - 1);
        }
      }
      if RowThreat(position, byPlayer, board, n - 1, |board[n - 1]|) {
        var c :| 0 <= c < |board[n - 1]| && ThreatFrom(position, byPlayer, board, n - 1, c);
      }
    }
  }

  /** The body of the threat scan for one cell: its piece is `byPlayer`'s and lists `position`. */
  method CellThreatens(position: Position, byPlayer: Color, board: Board, row: nat, col: nat) returns (threat: bool)
    requires row < |board| && col < |board[row]|
    ensures threat == ThreatFrom(position, byPlayer, board, row, col)
  {
    var cell := board[row][col];
    threat := false;
    if cell.Some? && cell.value.owner == byPlayer {
      var possible := GetPossibleMoves(cell.value, board, true);
      threat := position in possible;
    }
  }

  /** A threatened cell is one that a piece of `byPlayer` may legally move to from where it stands;
      the converse holds for a piece without the railway bonus, and for the engineer on a rectangular
      board. */
  lemma ThreatMeansLegalMove(position: Position, byPlayer: Color, board: Board, r: int, c: int)
    requires 0 <= r < |board| && 0 <= c < |board[r]|
    requires board[r][c].Some? && board[r][c].value.owner == byPlayer && board[r][c].value.position.Some?
    ensures ThreatFrom(position, byPlayer, board, r, c) ==>
      CanMovePiece(board[r][c].value, board[r][c].value.position.value, position, board) == Valid
    ensures (!HasRailwayBonus(board[r][c].value) &&
             CanMovePiece(board[r][c].value, board[r][c].value.position.value, position, board) == Valid) ==>
      Threatened(position, byPlayer, board)
    ensures (Rectangular(board) &&
             CanMovePiece(board[r][c].value, board[r][c].value.position.value, position, board) == Valid) ==>
      Threatened(position, byPlayer, board)
  {
    var piece := board[r][c].value;
    if ThreatFrom(position, byPlayer, board, r, c) {
      PossibleMovesSound(piece, board, true, position);
    }
    if !HasRailwayBonus(piece) {
      StepMovesComplete(piece, board, true, position);
    } else if Rectangular(board) {
      PossibleMovesComplete(piece, board, true, position);
    }
  }
}
