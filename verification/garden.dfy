/** The garden grid (src/models/garden.rs): a rows x cols matrix of cells, each
    holding at most one placed vegetable and a blocked flag. */
module Garden {
  import opened Wrappers
  import opened Matrices
  import opened Vegetables

  /** The wording the planner picks for a placement that has neighbours,
      by the sign of its companion score. */
  datatype Qualifier = GoodCompanion | ConstrainedNear | NeutralWith

  /** Why a vegetable sits in its cell. The model keeps every choice the
      planner makes when it writes the explanation, not the English text. */
  datatype Reason =
    | Existing
    | FirstPlaced(category: Category, beginnerFriendly: bool)
    | WithNeighbours(vegetableName: string, qualifier: Qualifier, neighbourNames: seq<string>, beginnerFriendly: bool)

  datatype PlacedVegetable = PlacedVegetable(id: string, name: string, reason: Reason)

  /** A blocked cell is a path or other zone where nothing may be planted. */
  datatype Cell = Cell(vegetable: Option<PlacedVegetable>, blocked: bool)

  datatype GardenGrid = GardenGrid(rows: nat, cols: nat, cells: Matrix<Cell>)

  /** A grid coordinate; it may lie outside the grid. */
  datatype Pos = Pos(row: int, col: int)

  const EmptyCell: Cell := Cell(None, false)

  /** The cell matrix has the dimensions the grid records. */
  predicate WellFormed(g: GardenGrid)
  {
    IsRectangular(g.cells, g.rows, g.cols)
  }

  predicate InBounds(g: GardenGrid, r: int, c: int)
  {
    0 <= r < g.rows && 0 <= c < g.cols
  }

  predicate IsOccupiedCell(c: Cell) { c.vegetable.Some? }

  predicate IsBlockedCell(c: Cell) { c.blocked }

  /** A cell that could still receive a vegetable. */
  predicate IsEmptyCell(c: Cell) { c.vegetable.None? && !c.blocked }

  predicate IsFree(g: GardenGrid, r: int, c: int)
    requires WellFormed(g) && InBounds(g, r, c)
  {
    IsEmptyCell(g.cells[r][c])
  }

  ghost predicate HasFreeCell(g: GardenGrid)
    requires WellFormed(g)
  {
    exists r, c :: InBounds(g, r, c) && IsFree(g, r, c)
  }

  /** The grid invariant: a blocked cell never holds a vegetable. */
  ghost predicate NoBlockedPlanted(g: GardenGrid)
    requires WellFormed(g)
  {
    forall r, c :: InBounds(g, r, c) && g.cells[r][c].blocked ==> g.cells[r][c].vegetable.None?
  }

  /** The identifiers of every vegetable on the grid. */
  function PlantedIds(g: GardenGrid): set<string>
    requires WellFormed(g)
  {
    set r, c | 0 <= r < g.rows && 0 <= c < g.cols && g.cells[r][c].vegetable.Some?
      :: g.cells[r][c].vegetable.value.id
  }

  /** A fresh grid: every cell empty and unblocked. */
  function New(rows: nat, cols: nat): (g: GardenGrid)
    ensures WellFormed(g) && g.rows == rows && g.cols == cols
    ensures forall r, c :: InBounds(g, r, c) ==> g.cells[r][c].vegetable.None? && !g.cells[r][c].blocked
  {
    GardenGrid(rows, cols, seq(rows, _ => seq(cols, _ => EmptyCell)))
  }

  /** Puts `pv` into cell (r, c), keeping its blocked flag; a position outside
      the matrix leaves the grid as it is. */
  function Plant(g: GardenGrid, r: nat, c: nat, pv: PlacedVegetable): (h: GardenGrid)
    ensures h.rows == g.rows && h.cols == g.cols && |h.cells| == |g.cells|
    ensures forall i :: 0 <= i < |g.cells| ==> |h.cells[i]| == |g.cells[i]|
    ensures WellFormed(g) ==> WellFormed(h)
    ensures WellFormed(g) && InBounds(g, r, c) ==> h.cells[r][c] == Cell(Some(pv), g.cells[r][c].blocked)
    ensures forall i, j :: 0 <= i < |g.cells| && 0 <= j < |g.cells[i]| && (i != r || j != c)
              ==> h.cells[i][j] == g.cells[i][j]
  {
    if r < |g.cells| && c < |g.cells[r]| then
      g.(cells := g.cells[r := g.cells[r][c := g.cells[r][c].(vegetable := Some(pv))]])
    else g
  }

  /** Marks cell (r, c) as blocked; a position outside the matrix leaves the grid as it is. */
  function Block(g: GardenGrid, r: nat, c: nat): (h: GardenGrid)
    ensures h.rows == g.rows && h.cols == g.cols && |h.cells| == |g.cells|
    ensures forall i :: 0 <= i < |g.cells| ==> |h.cells[i]| == |g.cells[i]|
    ensures WellFormed(g) ==> WellFormed(h)
    ensures WellFormed(g) && InBounds(g, r, c) ==> h.cells[r][c] == Cell(g.cells[r][c].vegetable, true)
    ensures forall i, j :: 0 <= i < |g.cells| && 0 <= j < |g.cells[i]| && (i != r || j != c)
              ==> h.cells[i][j] == g.cells[i][j]
  {
    if r < |g.cells| && c < |g.cells[r]| then
      g.(cells := g.cells[r := g.cells[r][c := g.cells[r][c].(blocked := true)]])
    else g
  }

  function Abs(x: int): nat { if x < 0 then -x else x }

  /** Orthogonal neighbours: Manhattan distance exactly 1. */
  predicate Adjacent(a: Pos, b: Pos)
  {
    Abs(a.row - b.row) + Abs(a.col - b.col) == 1
  }

  /** Where `to` lies as seen from `from`: up 0, down 1, left 2, right 3. */
  function DirectionRank(from: Pos, to: Pos): nat
  {
    if to.row < from.row then 0
    else if to.row > from.row then 1
    else if to.col < from.col then 2
    else 3
  }

  predicate IsOccupiedAt(g: GardenGrid, p: Pos)
    requires WellFormed(g)
  {
    InBounds(g, p.row, p.col) && g.cells[p.row][p.col].vegetable.Some?
  }

  /** One direction of the neighbour scan: the position if it is inside the
      grid and planted, nothing otherwise. */
  function Probe(g: GardenGrid, p: Pos): (ps: seq<Pos>)
    requires WellFormed(g)
  {
    if IsOccupiedAt(g, p) then [p] else []
  }

  /** The planted orthogonal neighbours of (row, col): each one exactly once,
      nothing else, ordered up, down, left, right. */
  function OccupiedNeighbourPositions(g: GardenGrid, row: nat, col: nat): (ps: seq<Pos>)
    requires WellFormed(g)
    ensures |ps| <= 4
    ensures forall k :: 0 <= k < |ps| ==> IsOccupiedAt(g, ps[k]) && Adjacent(Pos(row, col), ps[k])
    ensures forall p :: IsOccupiedAt(g, p) && Adjacent(Pos(row, col), p) ==> p in ps
    ensures forall k, l :: 0 <= k < l < |ps| ==>
              DirectionRank(Pos(row, col), ps[k]) < DirectionRank(Pos(row, col), ps[l])
  {
    var up, down := Probe(g, Pos(row - 1, col)), Probe(g, Pos(row + 1, col));
    var left, right := Probe(g, Pos(row, col - 1)), Probe(g, Pos(row, col + 1));
    ProbesRanked(g, row, col);
    ProbesCover(g, row, col);
    up + down + left + right
  }

  /** The four probes around (row, col) find exactly the planted positions
      next to it. */
  lemma ProbesCover(g: GardenGrid, row: nat, col: nat)
    requires WellFormed(g)
    ensures var ps := Probe(g, Pos(row - 1, col)) + Probe(g, Pos(row + 1, col))
                    + Probe(g, Pos(row, col - 1)) + Probe(g, Pos(row, col + 1));
      |ps| <= 4 && forall p :: p in ps <==> IsOccupiedAt(g, p) && Adjacent(Pos(row, col), p)
  {
    var up, down := Probe(g, Pos(row - 1, col)), Probe(g, Pos(row + 1, col));
    var left, right := Probe(g, Pos(row, col - 1)), Probe(g, Pos(row, col + 1));
    var ps := up + down + left + right;
    assert forall p :: p in ps <==> p in up || p in down || p in left || p in right;
    forall p | IsOccupiedAt(g, p) && Adjacent(Pos(row, col), p)
      ensures p in ps
    {
      assert p == Pos(row - 1, col) || p == Pos(row + 1, col) || p == Pos(row, col - 1) || p == Pos(row, col + 1);
    }
  }

  /** The four probes around (row, col), concatenated up, down, left, right,
      list their positions in strictly increasing direction. */
  lemma ProbesRanked(g: GardenGrid, row: nat, col: nat)
    requires WellFormed(g)
    ensures RankedFrom(Pos(row, col),
      Probe(g, Pos(row - 1, col)) + Probe(g, Pos(row + 1, col)) + Probe(g, Pos(row, col - 1)) + Probe(g, Pos(row, col + 1)))
  {
    var from := Pos(row, col);
    var up, down := Probe(g, Pos(row - 1, col)), Probe(g, Pos(row + 1, col));
    var left, right := Probe(g, Pos(row, col - 1)), Probe(g, Pos(row, col + 1));
    assert forall x :: x in up ==> DirectionRank(from, x) == 0;
    assert forall x :: x in down ==> DirectionRank(from, x) == 1;
    assert forall x :: x in left ==> DirectionRank(from, x) == 2;
    assert forall x :: x in right ==> DirectionRank(from, x) == 3;
    RankedAppend(from, up, down);
    assert forall x :: x in up + down ==> DirectionRank(from, x) <= 1;
    RankedAppend(from, up + down, left);
    assert forall x :: x in up + down + left ==> DirectionRank(from, x) <= 2;
    RankedAppend(from, up + down + left, right);
  }

  /** The positions are listed in strictly increasing direction from `from`. */
  predicate RankedFrom(from: Pos, ps: seq<Pos>)
  {
    forall k, l :: 0 <= k < l < |ps| ==> DirectionRank(from, ps[k]) < DirectionRank(from, ps[l])
  }

  lemma RankedAppend(from: Pos, a: seq<Pos>, b: seq<Pos>)
    requires RankedFrom(from, a) && RankedFrom(from, b)
    requires forall x, y :: x in a && y in b ==> DirectionRank(from, x) < DirectionRank(from, y)
    ensures RankedFrom(from, a + b)
  {
    var ab := a + b;
    forall k, l | 0 <= k < l < |ab|
      ensures DirectionRank(from, ab[k]) < DirectionRank(from, ab[l])
    {
      if l < |a| {
        assert ab[k] == a[k] && ab[l] == a[l];
      } else if k >= |a| {
        assert ab[k] == b[k - |a|] && ab[l] == b[l - |a|];
      } else {
        assert ab[k] in a && ab[l] in b;
      }
    }
  }

  /** The vegetables planted orthogonally next to (row, col), in the order
      up, down, left, right. The position itself need not be inside the grid. */
  function Neighbors(g: GardenGrid, row: nat, col: nat): (ns: seq<PlacedVegetable>)
    requires WellFormed(g)
    ensures var ps := OccupiedNeighbourPositions(g, row, col);
      |ns| == |ps| && forall k :: 0 <= k < |ns| ==> ns[k] == g.cells[ps[k].row][ps[k].col].vegetable.value
  {
    var ps := OccupiedNeighbourPositions(g, row, col);
    seq(|ps|, k requires 0 <= k < |ps| => g.cells[ps[k].row][ps[k].col].vegetable.value)
  }

  function Ids(ns: seq<PlacedVegetable>): (ids: seq<string>)
    ensures |ids| == |ns| && forall k :: 0 <= k < |ns| ==> ids[k] == ns[k].id
  {
    seq(|ns|, k requires 0 <= k < |ns| => ns[k].id)
  }

  function Names(ns: seq<PlacedVegetable>): (names: seq<string>)
    ensures |names| == |ns| && forall k :: 0 <= k < |ns| ==> names[k] == ns[k].name
  {
    seq(|ns|, k requires 0 <= k < |ns| => ns[k].name)
  }

  /** At most four neighbours are ever reported. */
  lemma NeighborsAtMostFour(g: GardenGrid, row: nat, col: nat)
    requires WellFormed(g)
    ensures |Neighbors(g, row, col)| <= 4
  {
  }

  /** A grid with nothing planted reports no neighbours anywhere. */
  lemma NoNeighborsOnEmptyGrid(g: GardenGrid, row: nat, col: nat)
    requires WellFormed(g)
    requires forall r, c :: InBounds(g, r, c) ==> g.cells[r][c].vegetable.None?
    ensures Neighbors(g, row, col) == []
  {
    var ps := OccupiedNeighbourPositions(g, row, col);
    assert forall k :: 0 <= k < |ps| ==> IsOccupiedAt(g, ps[k]);
  }
}
