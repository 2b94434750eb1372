/** The greedy planner (src/logic/planner.rs): validate the layout, copy its
    blocked and pre-planted cells into a fresh grid, then give each candidate,
    in order, the free cell with the strictly highest companion score, the
    first such cell in row-major order on ties. */
module Planner {
  import opened Wrappers
  import opened Matrices
  import opened Vegetables
  import opened Companions
  import opened Garden
  import opened Requests

  /** The smallest 32-bit integer, the scan's starting best score in the source. */
  const I32_MIN: int := -0x8000_0000

  // ---------------------------------------------------------------------------
  // Reasons
  // ---------------------------------------------------------------------------

  function Qualify(score: int): Qualifier
  {
    if score > 0 then GoodCompanion
    else if score < 0 then ConstrainedNear
    else NeutralWith
  }

  /** The explanation for a new placement: a first-placement note when the cell
      has no neighbours, otherwise a qualifier chosen by the sign of the score. */
  function BuildReason(v: Vegetable, neighbourNames: seq<string>, score: int): (r: Reason)
    ensures r.FirstPlaced? <==> |neighbourNames| == 0
    ensures r.FirstPlaced? ==> r.category == v.category && r.beginnerFriendly == v.beginnerFriendly
    ensures r.WithNeighbours? ==>
      && r.vegetableName == v.name
      && r.neighbourNames == neighbourNames
      && r.beginnerFriendly == v.beginnerFriendly
      && (r.qualifier == GoodCompanion <==> score > 0)
      && (r.qualifier == ConstrainedNear <==> score < 0)
      && (r.qualifier == NeutralWith <==> score == 0)
  {
    if |neighbourNames| == 0 then FirstPlaced(v.category, v.beginnerFriendly)
    else WithNeighbours(v.name, Qualify(score), neighbourNames, v.beginnerFriendly)
  }

  // ---------------------------------------------------------------------------
  // Building the response
  // ---------------------------------------------------------------------------

  /** A planted cell reports its vegetable and is never flagged blocked; an
      empty one reports its blocked flag. */
  function ToPlannedCell(c: Cell): PlannedCell
  {
    match c.vegetable
    case Some(v) => PlannedCell(Some(v.id), Some(v.name), Some(v.reason), false)
    case None => PlannedCell(None, None, None, c.blocked)
  }

  /** Reads a grid cell back from an answer cell. */
  function FromPlannedCell(p: PlannedCell): Cell
  {
    if p.id.Some? && p.name.Some? && p.reason.Some? then
      Cell(Some(PlacedVegetable(p.id.value, p.name.value, p.reason.value)), p.blocked)
    else Cell(None, p.blocked)
  }

  /** A cell of the answer that nothing occupies and nothing blocks. */
  predicate IsOpen(p: PlannedCell)
  {
    p.id.None? && !p.blocked
  }

  ghost predicate HasOpenCell(m: Matrix<PlannedCell>)
  {
    exists r, c :: 0 <= r < |m| && 0 <= c < |m[r]| && IsOpen(m[r][c])
  }

  function BuildResponse(g: GardenGrid, rows: nat, cols: nat, score: int, warnings: seq<Warning>): (resp: PlanResponse)
    ensures resp.rows == rows && resp.cols == cols && resp.score == score && resp.warnings == warnings
    ensures |resp.grid| == |g.cells|
    ensures forall r :: 0 <= r < |g.cells| ==> |resp.grid[r]| == |g.cells[r]|
    ensures forall r, c :: 0 <= r < |g.cells| && 0 <= c < |g.cells[r]| ==> resp.grid[r][c] == ToPlannedCell(g.cells[r][c])
  {
    var grid := seq(|g.cells|, r requires 0 <= r < |g.cells| =>
      seq(|g.cells[r]|, c requires 0 <= c < |g.cells[r]| => ToPlannedCell(g.cells[r][c])));
    PlanResponse(grid, rows, cols, score, warnings)
  }

  /** Every grid that keeps blocked cells unplanted can be read back, cell for
      cell, from its answer: the answer loses nothing. */
  lemma ResponseRoundTrip(g: GardenGrid, rows: nat, cols: nat, score: int, warnings: seq<Warning>)
    requires WellFormed(g) && NoBlockedPlanted(g)
    ensures var resp := BuildResponse(g, rows, cols, score, warnings);
      forall r, c :: InBounds(g, r, c) ==> FromPlannedCell(resp.grid[r][c]) == g.cells[r][c]
  {
  }

  /** An answer cell is open exactly when its grid cell is empty and unblocked;
      so the answer has an open cell exactly when the grid has a free one, and
      the two counts agree. */
  lemma OpenCellsMatchFreeCells(g: GardenGrid, rows: nat, cols: nat, score: int, warnings: seq<Warning>)
    requires WellFormed(g)
    ensures var resp := BuildResponse(g, rows, cols, score, warnings);
      && (HasOpenCell(resp.grid) <==> HasFreeCell(g))
      && Count(resp.grid, IsOpen) == Count(g.cells, IsEmptyCell)
  {
    var resp := BuildResponse(g, rows, cols, score, warnings);
    CountCongruent(g.cells, IsEmptyCell, resp.grid, IsOpen);
    if HasOpenCell(resp.grid) {
      var r, c :| 0 <= r < |resp.grid| && 0 <= c < |resp.grid[r]| && IsOpen(resp.grid[r][c]);
      assert InBounds(g, r, c) && IsFree(g, r, c);
    }
    if HasFreeCell(g) {
      var r, c :| InBounds(g, r, c) && IsFree(g, r, c);
      assert IsOpen(resp.grid[r][c]);
    }
  }

  // ---------------------------------------------------------------------------
  // Pre-filling the grid from the layout
  // ---------------------------------------------------------------------------

  /** The layout cell at (r, c); a row shorter than the first leaves the rest free. */
  function LayoutAt(layout: Matrix<LayoutCell>, r: nat, c: nat): LayoutCell
    requires r < |layout|
  {
    if c < |layout[r]| then layout[r][c] else Free
  }

  /** A layout cell that the pre-fill leaves alone. */
  predicate IsHarmless(lc: LayoutCell, lookup: string -> Option<Vegetable>)
  {
    match lc
    case Free => true
    case Blocked(b) => !b
    case Planted(id) => lookup(id).None?
  }

  /** A row longer than the first carries, beyond the grid's width, only cells
      the pre-fill leaves alone. The source indexes the grid with the layout's
      own coordinates, so it runs out of range on any other layout. */
  predicate PrefillInBounds(layout: Matrix<LayoutCell>, lookup: string -> Option<Vegetable>)
  {
    |layout| == 0 || |layout[0]| == 0 ||
    forall r, c :: 0 <= r < |layout| && |layout[0]| <= c < |layout[r]| ==> IsHarmless(layout[r][c], lookup)
  }

  /** What the pre-fill makes of one fresh cell. */
  function PrefilledCell(lc: LayoutCell, lookup: string -> Option<Vegetable>): Cell
  {
    match lc
    case Blocked(b) => if b then Cell(None, true) else EmptyCell
    case Planted(id) =>
      (match lookup(id)
       case Some(v) => Cell(Some(PlacedVegetable(v.id, v.name, Existing)), false)
       case None => EmptyCell)
    case Free => EmptyCell
  }

  /** The grid after the pre-fill, cell by cell: blocked exactly where the
      layout blocks, planted exactly where it names a known vegetable. */
  function PrefilledGrid(layout: Matrix<LayoutCell>, lookup: string -> Option<Vegetable>): (g: GardenGrid)
    requires |layout| > 0
    ensures WellFormed(g) && g.rows == |layout| && g.cols == |layout[0]|
    ensures forall r, c :: InBounds(g, r, c) ==> g.cells[r][c] == PrefilledCell(LayoutAt(layout, r, c), lookup)
  {
    GardenGrid(|layout|, |layout[0]|,
      seq(|layout|, r requires 0 <= r < |layout| =>
        seq(|layout[0]|, c requires 0 <= c < |layout[0]| => PrefilledCell(LayoutAt(layout, r, c), lookup))))
  }

  /** The pre-filled grid keeps blocked cells empty; a cell is blocked exactly
      when the layout blocks it, planted exactly when the layout names a known
      vegetable (which it then carries with an "existing" reason), and an
      unknown identifier leaves its cell free. */
  lemma PrefilledGridCells(layout: Matrix<LayoutCell>, lookup: string -> Option<Vegetable>)
    requires |layout| > 0
    ensures var g := PrefilledGrid(layout, lookup);
      && NoBlockedPlanted(g)
      && (forall r, c :: InBounds(g, r, c) ==> (g.cells[r][c].blocked <==> LayoutAt(layout, r, c) == Blocked(true)))
      && (forall r, c :: InBounds(g, r, c) ==>
            (g.cells[r][c].vegetable.Some? <==> LayoutAt(layout, r, c).Planted? && lookup(LayoutAt(layout, r, c).id).Some?))
      && (forall r, c :: InBounds(g, r, c) && LayoutAt(layout, r, c).Planted? && lookup(LayoutAt(layout, r, c).id).Some? ==>
            var v := lookup(LayoutAt(layout, r, c).id).value;
            g.cells[r][c].vegetable == Some(PlacedVegetable(v.id, v.name, Existing)))
      && (forall r, c :: InBounds(g, r, c) && LayoutAt(layout, r, c).Planted? && lookup(LayoutAt(layout, r, c).id).None? ==>
            IsFree(g, r, c))
  {
  }

  /** The pre-filled grid satisfies the grid invariant. This is one conjunct of
      `PrefilledGridCells`, kept on its own so that the planner's callers get
      the invariant without the per-cell quantifiers of the full description
      in scope. */
  lemma PrefilledNoBlockedPlanted(layout: Matrix<LayoutCell>, lookup: string -> Option<Vegetable>)
    requires |layout| > 0
    ensures NoBlockedPlanted(PrefilledGrid(layout, lookup))
  {
    PrefilledGridCells(layout, lookup);
  }

  /** The warnings for one layout row, in column order. */
  function UnknownInRow(row: seq<LayoutCell>, lookup: string -> Option<Vegetable>): seq<Warning>
  {
    if |row| == 0 then []
    else
      UnknownInRow(row[..|row| - 1], lookup) + CellWarnings(row[|row| - 1], lookup)
  }

  /** The warning one layout cell gives rise to: one for an unknown identifier. */
  function CellWarnings(lc: LayoutCell, lookup: string -> Option<Vegetable>): seq<Warning>
  {
    match lc
    case Planted(id) => if lookup(id).None? then [UnknownVegetable(id)] else []
    case _ => []
  }

  /** The warnings for the whole layout, in row-major order. */
  function UnknownIdWarnings(layout: Matrix<LayoutCell>, lookup: string -> Option<Vegetable>): seq<Warning>
  {
    if |layout| == 0 then []
    else UnknownIdWarnings(layout[..|layout| - 1], lookup) + UnknownInRow(layout[|layout| - 1], lookup)
  }

  /** A layout cell naming an identifier the catalogue does not know. */
  predicate IsUnknownAt(layout: Matrix<LayoutCell>, r: int, c: int, id: string, lookup: string -> Option<Vegetable>)
  {
    0 <= r < |layout| && 0 <= c < |layout[r]| && layout[r][c] == Planted(id) && lookup(id).None?
  }

  lemma {:induction false} UnknownInRowExact(row: seq<LayoutCell>, lookup: string -> Option<Vegetable>)
    ensures forall w :: w in UnknownInRow(row, lookup) <==>
      exists c, id :: 0 <= c < |row| && row[c] == Planted(id) && lookup(id).None? && w == UnknownVegetable(id)
  {
    if |row| > 0 {
      var init := row[..|row| - 1];
      UnknownInRowExact(init, lookup);
      assert forall c :: 0 <= c < |init| ==> init[c] == row[c];
    }
  }

  /** Exactly the unknown identifiers of the layout, wherever they sit, give
      rise to warnings. */
  lemma {:induction false} UnknownIdWarningsExact(layout: Matrix<LayoutCell>, lookup: string -> Option<Vegetable>)
    ensures forall w :: w in UnknownIdWarnings(layout, lookup) <==>
      exists r, c, id :: IsUnknownAt(layout, r, c, id, lookup) && w == UnknownVegetable(id)
  {
    if |layout| > 0 {
      var init := layout[..|layout| - 1];
      UnknownIdWarningsExact(init, lookup);
      UnknownInRowExact(layout[|layout| - 1], lookup);
      assert forall r :: 0 <= r < |init| ==> init[r] == layout[r];
      forall w | w in UnknownIdWarnings(layout, lookup)
        ensures exists r, c, id :: IsUnknownAt(layout, r, c, id, lookup) && w == UnknownVegetable(id)
      {
        if w in UnknownIdWarnings(init, lookup) {
          var r, c, id :| IsUnknownAt(init, r, c, id, lookup) && w == UnknownVegetable(id);
          assert IsUnknownAt(layout, r, c, id, lookup);
        } else {
          var c, id :| 0 <= c < |layout[|layout| - 1]| && layout[|layout| - 1][c] == Planted(id)
            && lookup(id).None? && w == UnknownVegetable(id);
          assert IsUnknownAt(layout, |layout| - 1, c, id, lookup);
        }
      }
      forall w | exists r, c, id :: IsUnknownAt(layout, r, c, id, lookup) && w == UnknownVegetable(id)
        ensures w in UnknownIdWarnings(layout, lookup)
      {
        var r, c, id :| IsUnknownAt(layout, r, c, id, lookup) && w == UnknownVegetable(id);
        if r < |layout| - 1 {
          assert IsUnknownAt(init, r, c, id, lookup);
        }
      }
    }
  }

  /** The grid once the pre-fill has handled every layout cell before (r, c)
      in row-major order: those cells are pre-filled, the rest still fresh. */
  ghost predicate Filled(layout: Matrix<LayoutCell>, lookup: string -> Option<Vegetable>, g: GardenGrid, r: int, c: int)
    requires |layout| > 0
  {
    && WellFormed(g) && g.rows == |layout| && g.cols == |layout[0]|
    && forall i, j :: InBounds(g, i, j) ==>
         g.cells[i][j] == (if RowMajorBefore(i, j, r, c) then PrefilledCell(LayoutAt(layout, i, j), lookup) else EmptyCell)
  }

  lemma FilledStart(layout: Matrix<LayoutCell>, lookup: string -> Option<Vegetable>)
    requires |layout| > 0
    ensures Filled(layout, lookup, New(|layout|, |layout[0]|), 0, 0)
  {
  }

  /** Past the end of a short row the layout is free, so the fresh cells there
      are already pre-filled. */
  lemma FilledNextRow(layout: Matrix<LayoutCell>, lookup: string -> Option<Vegetable>, g: GardenGrid, r: nat)
    requires |layout| > 0 && r < |layout| && Filled(layout, lookup, g, r, |layout[r]|)
    ensures Filled(layout, lookup, g, r + 1, 0)
  {
  }

  lemma FilledDone(layout: Matrix<LayoutCell>, lookup: string -> Option<Vegetable>, g: GardenGrid)
    requires |layout| > 0 && Filled(layout, lookup, g, |layout|, 0)
    ensures g == PrefilledGrid(layout, lookup)
  {
    var expected := PrefilledGrid(layout, lookup);
    assert forall i :: 0 <= i < |layout| ==> g.cells[i] == expected.cells[i];
  }

  /** One layout cell of the pre-fill: block a blocked cell, plant a known
      identifier with an "existing" reason, and warn about an unknown one.
      A position beyond the grid's width changes nothing on the grid. */
  method FillCell(layout: Matrix<LayoutCell>, lookup: string -> Option<Vegetable>, g: GardenGrid, r: nat, c: nat,
                  warnings: seq<Warning>)
    returns (g': GardenGrid, warnings': seq<Warning>)
    requires |layout| > 0 && r < |layout| && c < |layout[r]| && Filled(layout, lookup, g, r, c)
    ensures Filled(layout, lookup, g', r, c + 1)
    ensures warnings' == warnings + CellWarnings(layout[r][c], lookup)
  {
    RowMajorNext(r, c);
    g', warnings' := g, warnings;
    match layout[r][c] {
      case Blocked(b) =>
        if b {
          g' := Block(g, r, c);
        }
      case Planted(id) =>
        match lookup(id) {
          case Some(v) =>
            g' := Plant(g, r, c, PlacedVegetable(v.id, v.name, Existing));
          case None =>
            warnings' := warnings + [UnknownVegetable(id)];
        }
      case Free =>
    }
  }

  /** One row of the pre-fill, cell by cell in column order. */
  method FillRow(layout: Matrix<LayoutCell>, lookup: string -> Option<Vegetable>, g: GardenGrid, r: nat,
                 warnings: seq<Warning>)
    returns (g': GardenGrid, warnings': seq<Warning>)
    requires |layout| > 0 && r < |layout| && Filled(layout, lookup, g, r, 0)
    ensures Filled(layout, lookup, g', r + 1, 0)
    ensures warnings' == warnings + UnknownInRow(layout[r], lookup)
  {
    var row := layout[r];
    g', warnings' := g, warnings;
    var c := 0;
    while c < |row|
      invariant 0 <= c <= |row|
      invariant Filled(layout, lookup, g', r, c)
      invariant warnings' == warnings + UnknownInRow(row[..c], lookup)
    {
      assert row[..c + 1][..c] == row[..c];
      g', warnings' := FillCell(layout, lookup, g', r, c, warnings');
      c := c + 1;
    }
    FilledNextRow(layout, lookup, g', r);
    assert row[..c] == row;
  }

  /** The pre-fill loop: starting from a fresh grid, block the blocked cells,
      plant the known identifiers and collect a warning for each unknown one.
      Cells of a longer row beyond the first row's width fall outside the grid
      and are ignored, apart from the warnings; the source runs out of range
      there instead (see `PrefillAsWritten`). */
  method Prefill(layout: Matrix<LayoutCell>, lookup: string -> Option<Vegetable>)
    returns (g: GardenGrid, warnings: seq<Warning>)
    requires |layout| > 0 && |layout[0]| > 0
    ensures g == PrefilledGrid(layout, lookup)
    ensures warnings == UnknownIdWarnings(layout, lookup)
  {
    var rows := |layout|;
    g := New(rows, |layout[0]|);
    FilledStart(layout, lookup);
    warnings := [];
    var r := 0;
    while r < rows
      invariant 0 <= r <= rows
      invariant Filled(layout, lookup, g, r, 0)
      invariant warnings == UnknownIdWarnings(layout[..r], lookup)
    {
      assert layout[..r + 1][..r] == layout[..r];
      g, warnings := FillRow(layout, lookup, g, r, warnings);
      r := r + 1;
    }
    assert layout[..r] == layout;
    FilledDone(layout, lookup, g);
  }

  /** Row r keeps, beyond the grid's width, only cells the pre-fill leaves alone. */
  predicate RowInBounds(layout: Matrix<LayoutCell>, lookup: string -> Option<Vegetable>, r: nat)
    requires 0 < |layout| && r < |layout|
  {
    forall j :: |layout[0]| <= j < |layout[r]| ==> IsHarmless(layout[r][j], lookup)
  }

  /** The layout stays inside the grid exactly when each of its rows does. */
  lemma PrefillInBoundsByRows(layout: Matrix<LayoutCell>, lookup: string -> Option<Vegetable>)
    requires |layout| > 0 && |layout[0]| > 0
    ensures PrefillInBounds(layout, lookup) <==> forall i :: 0 <= i < |layout| ==> RowInBounds(layout, lookup, i)
  {
    if !PrefillInBounds(layout, lookup) {
      var r, c :| 0 <= r < |layout| && |layout[0]| <= c < |layout[r]| && !IsHarmless(layout[r][c], lookup);
      assert !RowInBounds(layout, lookup, r);
    }
  }

  /** One row of the source's pre-fill: it stops, out of range, at the first
      cell beyond the grid's width that it would block or plant. */
  method FillRowAsWritten(layout: Matrix<LayoutCell>, lookup: string -> Option<Vegetable>, g: GardenGrid, r: nat,
                          warnings: seq<Warning>)
    returns (ok: bool, g': GardenGrid, warnings': seq<Warning>)
    requires |layout| > 0 && r < |layout| && Filled(layout, lookup, g, r, 0)
    ensures ok <==> RowInBounds(layout, lookup, r)
    ensures ok ==> Filled(layout, lookup, g', r + 1, 0) && warnings' == warnings + UnknownInRow(layout[r], lookup)
  {
    var row, cols := layout[r], |layout[0]|;
    g', warnings' := g, warnings;
    var c := 0;
    while c < |row|
      invariant 0 <= c <= |row|
      invariant Filled(layout, lookup, g', r, c)
      invariant warnings' == warnings + UnknownInRow(row[..c], lookup)
      invariant forall j :: cols <= j < c ==> IsHarmless(row[j], lookup)
    {
      if c >= cols && !IsHarmless(row[c], lookup) {
        assert !RowInBounds(layout, lookup, r) by {
          assert cols <= c < |layout[r]| && !IsHarmless(layout[r][c], lookup);
        }
        return false, g', warnings';
      }
      assert row[..c + 1][..c] == row[..c];
      g', warnings' := FillCell(layout, lookup, g', r, c, warnings');
      c := c + 1;
    }
    FilledNextRow(layout, lookup, g', r);
    assert row[..c] == row;
    assert RowInBounds(layout, lookup, r);
    return true, g', warnings';
  }

  /** The pre-fill as the source writes it: it indexes the grid with the
      layout's coordinates, so a blocked cell or a known identifier beyond the
      first row's width is an out-of-range access, modelled as `None`. It
      answers exactly on the layouts `PrefillInBounds` admits, and then as
      `Prefill` does. */
  method PrefillAsWritten(layout: Matrix<LayoutCell>, lookup: string -> Option<Vegetable>)
    returns (res: Option<GardenGrid>, warnings: seq<Warning>)
    requires |layout| > 0 && |layout[0]| > 0
    ensures res.None? <==> !PrefillInBounds(layout, lookup)
    ensures res.Some? ==> res.value == PrefilledGrid(layout, lookup) && warnings == UnknownIdWarnings(layout, lookup)
  {
    var rows := |layout|;
    var g := New(rows, |layout[0]|);
    FilledStart(layout, lookup);
    warnings := [];
    var r := 0;
    while r < rows
      invariant 0 <= r <= rows
      invariant Filled(layout, lookup, g, r, 0)
      invariant warnings == UnknownIdWarnings(layout[..r], lookup)
      invariant forall i :: 0 <= i < r ==> RowInBounds(layout, lookup, i)
    {
      assert layout[..r + 1][..r] == layout[..r];
      var ok;
      ok, g, warnings := FillRowAsWritten(layout, lookup, g, r, warnings);
      if !ok {
        PrefillInBoundsByRows(layout, lookup);
        return None, warnings;
      }
      r := r + 1;
    }
    assert layout[..r] == layout;
    FilledDone(layout, lookup, g);
    PrefillInBoundsByRows(layout, lookup);
    return Some(g), warnings;
  }

  /** A layout that passes plan_garden's validation, whose second row is one
      cell longer than the first and blocks that extra cell: the source's
      pre-fill runs out of range on it. */
  lemma RaggedLayoutPanics(lookup: string -> Option<Vegetable>)
    ensures var layout := [[Free], [Free, Blocked(true)]];
      && |layout| > 0 && |layout[0]| > 0
      && !PrefillInBounds(layout, lookup)
  {
    var layout := [[Free], [Free, Blocked(true)]];
    assert !IsHarmless(layout[1][1], lookup);
  }

  // ---------------------------------------------------------------------------
  // Choosing the best cell
  // ---------------------------------------------------------------------------

  /** The companion score of `v` at (r, c) against the vegetables around it. */
  function CellScore(g: GardenGrid, v: Vegetable, r: nat, c: nat): int
    requires WellFormed(g)
  {
    Score(v, Ids(Neighbors(g, r, c)))
  }

  /** With at most four neighbours, a cell's score lies in [-12, 8], so every
      cell beats the scan's 32-bit starting value. */
  lemma CellScoreBounds(g: GardenGrid, v: Vegetable, r: nat, c: nat)
    requires WellFormed(g)
    ensures -12 <= CellScore(g, v, r, c) <= 8
    ensures CellScore(g, v, r, c) > I32_MIN
  {
    NeighborsAtMostFour(g, r, c);
  }

  predicate RowMajorBefore(i: int, j: int, r: int, c: int)
  {
    i < r || (i == r && j < c)
  }

  /** The cells before (r, c + 1) are those before (r, c) and (r, c) itself. */
  lemma RowMajorNext(r: int, c: int)
    ensures forall i, j :: RowMajorBefore(i, j, r, c + 1) <==> RowMajorBefore(i, j, r, c) || (i == r && j == c)
  {
  }

  /** (r, c) is free, scores at least as high as every free cell, and strictly
      higher than every free cell before it in row-major order. */
  ghost predicate IsBestCell(g: GardenGrid, v: Vegetable, r: int, c: int)
    requires WellFormed(g) && InBounds(g, r, c)
  {
    && IsFree(g, r, c)
    && (forall i, j :: InBounds(g, i, j) && IsFree(g, i, j) ==> CellScore(g, v, i, j) <= CellScore(g, v, r, c))
    && (forall i, j :: InBounds(g, i, j) && IsFree(g, i, j) && RowMajorBefore(i, j, r, c) ==>
          CellScore(g, v, i, j) < CellScore(g, v, r, c))
  }

  /** There is at most one best cell. */
  lemma BestCellUnique(g: GardenGrid, v: Vegetable, r1: int, c1: int, r2: int, c2: int)
    requires WellFormed(g) && InBounds(g, r1, c1) && InBounds(g, r2, c2)
    requires IsBestCell(g, v, r1, c1) && IsBestCell(g, v, r2, c2)
    ensures r1 == r2 && c1 == c2
  {
  }

  /** The score of `v` at every cell of `g`. The scan reasons about this table,
      so that its invariant never unfolds a cell's neighbours. */
  ghost function ScoreTable(g: GardenGrid, v: Vegetable): (t: Matrix<int>)
    requires WellFormed(g)
    ensures IsRectangular(t, g.rows, g.cols)
    ensures forall r, c {:trigger CellScore(g, v, r, c)} :: InBounds(g, r, c) ==> t[r][c] == CellScore(g, v, r, c)
  {
    seq(g.rows, r requires 0 <= r < g.rows => seq(g.cols, c requires 0 <= c < g.cols => CellScore(g, v, r, c)))
  }

  /** What the scan knows once it has looked at every cell before (r, c) in
      row-major order, with `sc` giving each cell's score: `best` is absent
      exactly when none of them was free, and otherwise it is the best cell
      among them. */
  ghost predicate Scanned(g: GardenGrid, sc: Matrix<int>, r: int, c: int, best: Option<Pos>, bestScore: int)
    requires WellFormed(g) && IsRectangular(sc, g.rows, g.cols)
  {
    && (best.None? <==> forall i, j :: InBounds(g, i, j) && RowMajorBefore(i, j, r, c) ==> !IsFree(g, i, j))
    && (best.Some? ==>
          && InBounds(g, best.value.row, best.value.col)
          && RowMajorBefore(best.value.row, best.value.col, r, c)
          && IsFree(g, best.value.row, best.value.col)
          && bestScore == sc[best.value.row][best.value.col]
          && (forall i, j :: InBounds(g, i, j) && RowMajorBefore(i, j, r, c) && IsFree(g, i, j) ==>
                sc[i][j] <= bestScore)
          && (forall i, j ::
                InBounds(g, i, j) && IsFree(g, i, j) && RowMajorBefore(i, j, best.value.row, best.value.col) ==>
                sc[i][j] < bestScore))
  }

  lemma ScanNextRow(g: GardenGrid, sc: Matrix<int>, r: int, best: Option<Pos>, bestScore: int)
    requires WellFormed(g) && IsRectangular(sc, g.rows, g.cols) && Scanned(g, sc, r, g.cols, best, bestScore)
    ensures Scanned(g, sc, r + 1, 0, best, bestScore)
  {
    assert forall i, j :: InBounds(g, i, j) ==> (RowMajorBefore(i, j, r, g.cols) <==> RowMajorBefore(i, j, r + 1, 0));
  }

  lemma ScanDone(g: GardenGrid, v: Vegetable, best: Option<Pos>, bestScore: int)
    requires WellFormed(g) && Scanned(g, ScoreTable(g, v), g.rows, 0, best, bestScore)
    ensures best.None? <==> !HasFreeCell(g)
    ensures best.Some? ==>
      && InBounds(g, best.value.row, best.value.col)
      && IsBestCell(g, v, best.value.row, best.value.col)
      && bestScore == CellScore(g, v, best.value.row, best.value.col)
  {
    assert forall i, j :: InBounds(g, i, j) ==> RowMajorBefore(i, j, g.rows, 0);
  }

  /** Looking at cell (r, c) when it is free and either nothing was found yet
      or it scores strictly higher: it becomes the best so far. */
  lemma ScanTake(g: GardenGrid, sc: Matrix<int>, r: nat, c: nat, best: Option<Pos>, bestScore: int)
    requires WellFormed(g) && IsRectangular(sc, g.rows, g.cols) && InBounds(g, r, c)
    requires Scanned(g, sc, r, c, best, bestScore)
    requires IsFree(g, r, c) && (best.None? || sc[r][c] > bestScore)
    ensures Scanned(g, sc, r, c + 1, Some(Pos(r, c)), sc[r][c])
  {
    RowMajorNext(r, c);
  }

  /** Looking at cell (r, c) when it is taken, blocked or no better than the
      best so far: the best so far stays. */
  lemma ScanKeep(g: GardenGrid, sc: Matrix<int>, r: nat, c: nat, best: Option<Pos>, bestScore: int)
    requires WellFormed(g) && IsRectangular(sc, g.rows, g.cols) && InBounds(g, r, c)
    requires Scanned(g, sc, r, c, best, bestScore)
    requires !IsFree(g, r, c) || (best.Some? && sc[r][c] <= bestScore)
    ensures Scanned(g, sc, r, c + 1, best, bestScore)
  {
    RowMajorNext(r, c);
  }

  /** The row-major scan: keep the first free cell whose score is strictly
      higher than every score seen so far. */
  method BestCell(g: GardenGrid, v: Vegetable) returns (best: Option<Pos>, bestScore: int)
    requires WellFormed(g)
    ensures best.None? <==> !HasFreeCell(g)
    ensures best.Some? ==>
      && InBounds(g, best.value.row, best.value.col)
      && IsBestCell(g, v, best.value.row, best.value.col)
      && bestScore == CellScore(g, v, best.value.row, best.value.col)
  {
    ghost var sc := ScoreTable(g, v);
    best, bestScore := None, 0;
    var r := 0;
    while r < g.rows
      invariant 0 <= r <= g.rows
      invariant Scanned(g, sc, r, 0, best, bestScore)
    {
      var c := 0;
      while c < g.cols
        invariant 0 <= c <= g.cols
        invariant Scanned(g, sc, r, c, best, bestScore)
      {
        if IsFree(g, r, c) {
          var s := CellScore(g, v, r, c);
          assert s == sc[r][c];
          if best.None? || s > bestScore {
            ScanTake(g, sc, r, c, best, bestScore);
            best, bestScore := Some(Pos(r, c)), s;
          } else {
            ScanKeep(g, sc, r, c, best, bestScore);
          }
        } else {
          ScanKeep(g, sc, r, c, best, bestScore);
        }
        c := c + 1;
      }
      ScanNextRow(g, sc, r, best, bestScore);
      r := r + 1;
    }
    ScanDone(g, v, best, bestScore);
  }

  // ---------------------------------------------------------------------------
  // The greedy loop
  // ---------------------------------------------------------------------------

  /** One committed placement: candidate `index` went to (row, col) with the
      given score, on the grid `before`. */
  datatype Commit = Commit(index: nat, row: nat, col: nat, score: int, placed: PlacedVegetable, before: GardenGrid)

  function After(t: Commit): GardenGrid
  {
    Plant(t.before, t.row, t.col, t.placed)
  }

  /** The grid once every commit of the trace is applied. */
  function Final(pre: GardenGrid, trace: seq<Commit>): GardenGrid
  {
    if |trace| == 0 then pre else After(trace[|trace| - 1])
  }

  function SumScores(trace: seq<Commit>): int
  {
    if |trace| == 0 then 0 else SumScores(trace[..|trace| - 1]) + trace[|trace| - 1].score
  }

  function TraceIds(trace: seq<Commit>): set<string>
  {
    set k | 0 <= k < |trace| :: trace[k].placed.id
  }

  /** The identifiers committed for candidates before candidate `j`. */
  function IdsCommittedBefore(trace: seq<Commit>, j: nat): set<string>
  {
    set k | 0 <= k < |trace| && trace[k].index < j :: trace[k].placed.id
  }

  predicate NotCommitted(trace: seq<Commit>, j: nat)
  {
    forall k :: 0 <= k < |trace| ==> trace[k].index != j
  }

  /** A commit of `v` is at its best cell, records that cell's score, and
      carries `v`'s identifier, name and the reason built from the score and
      the neighbours' names. */
  ghost predicate ValidCommit(t: Commit, v: Vegetable)
  {
    && WellFormed(t.before)
    && InBounds(t.before, t.row, t.col)
    && IsBestCell(t.before, v, t.row, t.col)
    && t.score == CellScore(t.before, v, t.row, t.col)
    && t.placed == PlacedVegetable(v.id, v.name,
         BuildReason(v, Names(Neighbors(t.before, t.row, t.col)), t.score))
  }

  /** The commits form a run of the greedy loop from `pre`: each starts from
      the grid the previous one left, candidates are taken in order, and each
      commit is valid for its candidate. */
  ghost predicate GreedyTrace(pre: GardenGrid, candidates: seq<Vegetable>, trace: seq<Commit>)
  {
    && (|trace| > 0 ==> trace[0].before == pre)
    && (forall k :: 0 <= k < |trace| ==>
          && trace[k].index < |candidates|
          && trace[k].before.rows == pre.rows && trace[k].before.cols == pre.cols
          && ValidCommit(trace[k], candidates[trace[k].index]))
    && (forall k :: 0 <= k < |trace| - 1 ==>
          trace[k].index < trace[k + 1].index && trace[k + 1].before == After(trace[k]))
  }

  /** No candidate identifier is committed twice, nor one already on the grid. */
  ghost predicate DistinctNewIds(pre: GardenGrid, trace: seq<Commit>)
    requires WellFormed(pre)
  {
    && (forall k :: 0 <= k < |trace| ==> trace[k].placed.id !in PlantedIds(pre))
    && (forall k, l :: 0 <= k < l < |trace| ==> trace[k].placed.id != trace[l].placed.id)
  }

  /** Same dimensions and blocked flags, and every planted cell kept. */
  ghost predicate Extends(pre: GardenGrid, g: GardenGrid)
    requires WellFormed(pre) && WellFormed(g)
  {
    && g.rows == pre.rows && g.cols == pre.cols
    && forall r, c :: InBounds(pre, r, c) ==>
         && g.cells[r][c].blocked == pre.cells[r][c].blocked
         && (pre.cells[r][c].vegetable.Some? ==> g.cells[r][c] == pre.cells[r][c])
  }

  lemma GreedyTraceExtend(pre: GardenGrid, candidates: seq<Vegetable>, trace: seq<Commit>, t: Commit)
    requires GreedyTrace(pre, candidates, trace)
    requires t.before == Final(pre, trace)
    requires t.index < |candidates| && t.before.rows == pre.rows && t.before.cols == pre.cols
    requires ValidCommit(t, candidates[t.index])
    requires forall k :: 0 <= k < |trace| ==> trace[k].index < t.index
    ensures GreedyTrace(pre, candidates, trace + [t])
  {
    AllAppend(trace, t, (c: Commit) =>
      && c.index < |candidates|
      && c.before.rows == pre.rows && c.before.cols == pre.cols
      && ValidCommit(c, candidates[c.index]));
    ChainAppend(trace, t);
  }

  /** A property of every element survives appending an element that has it. */
  lemma AllAppend<T>(s: seq<T>, x: T, p: T -> bool)
    requires forall k :: 0 <= k < |s| ==> p(s[k])
    requires p(x)
    ensures forall k :: 0 <= k < |s + [x]| ==> p((s + [x])[k])
  {
  }

  /** The chain of grids and the order of candidates survive appending a
      commit that starts where the last one ended, for a later candidate. */
  lemma ChainAppend(trace: seq<Commit>, t: Commit)
    requires forall k :: 0 <= k < |trace| - 1 ==>
      trace[k].index < trace[k + 1].index && trace[k + 1].before == After(trace[k])
    requires |trace| > 0 ==> t.before == After(trace[|trace| - 1])
    requires forall k :: 0 <= k < |trace| ==> trace[k].index < t.index
    ensures var tr := trace + [t];
      forall k :: 0 <= k < |tr| - 1 ==> tr[k].index < tr[k + 1].index && tr[k + 1].before == After(tr[k])
  {
    var tr := trace + [t];
    forall k | 0 <= k < |tr| - 1
      ensures tr[k].index < tr[k + 1].index && tr[k + 1].before == After(tr[k])
    {
      if k < |trace| - 1 {
        assert tr[k] == trace[k] && tr[k + 1] == trace[k + 1];
      } else {
        assert tr[k] == trace[|trace| - 1] && tr[k + 1] == t;
      }
    }
  }

  lemma TraceAppend(trace: seq<Commit>, t: Commit, pre: GardenGrid)
    ensures Final(pre, trace + [t]) == After(t)
    ensures SumScores(trace + [t]) == SumScores(trace) + t.score
    ensures TraceIds(trace + [t]) == TraceIds(trace) + {t.placed.id}
    ensures forall j ::
      IdsCommittedBefore(trace + [t], j) == IdsCommittedBefore(trace, j) + (if t.index < j then {t.placed.id} else {})
  {
    var tr := trace + [t];
    assert tr[..|tr| - 1] == trace;
    assert forall k :: 0 <= k < |trace| ==> tr[k] == trace[k];
    assert tr[|trace|] == t;
  }

  /** Planting a free cell keeps everything `Extends` and the grid invariant promise. */
  lemma PlantFreeCell(pre: GardenGrid, g: GardenGrid, r: nat, c: nat, pv: PlacedVegetable)
    requires WellFormed(pre) && WellFormed(g) && Extends(pre, g) && NoBlockedPlanted(g)
    requires InBounds(g, r, c) && IsFree(g, r, c)
    ensures WellFormed(Plant(g, r, c, pv))
    ensures Extends(pre, Plant(g, r, c, pv))
    ensures NoBlockedPlanted(Plant(g, r, c, pv))
  {
  }

  /** What holds after the loop has looked at the first `i` candidates. */
  ghost predicate Progress(pre: GardenGrid, candidates: seq<Vegetable>, i: nat, grid: GardenGrid, score: int,
                           placedIds: set<string>, trace: seq<Commit>)
    requires WellFormed(pre) && NoBlockedPlanted(pre)
  {
    && i <= |candidates|
    && WellFormed(grid) && Extends(pre, grid) && NoBlockedPlanted(grid)
    && GreedyTrace(pre, candidates, trace) && grid == Final(pre, trace)
    && (forall k :: 0 <= k < |trace| ==> trace[k].index < i)
    && score == SumScores(trace)
    && placedIds == PlantedIds(pre) + TraceIds(trace)
    && DistinctNewIds(pre, trace)
    && Recorded(grid, trace)
    && OnlyCommitted(pre, grid, trace)
    && (forall j :: 0 <= j < i && NotCommitted(trace, j) ==>
          candidates[j].id in PlantedIds(pre) + IdsCommittedBefore(trace, j))
  }

  /** Every commit's vegetable is still in its cell. */
  ghost predicate Recorded(grid: GardenGrid, trace: seq<Commit>)
    requires WellFormed(grid)
  {
    forall k :: 0 <= k < |trace| ==>
      InBounds(grid, trace[k].row, trace[k].col) && grid.cells[trace[k].row][trace[k].col].vegetable == Some(trace[k].placed)
  }

  /** Every planted cell was planted before the loop or by a commit. */
  ghost predicate OnlyCommitted(pre: GardenGrid, grid: GardenGrid, trace: seq<Commit>)
    requires WellFormed(pre) && WellFormed(grid) && grid.rows == pre.rows && grid.cols == pre.cols
  {
    forall r, c :: InBounds(grid, r, c) && grid.cells[r][c].vegetable.Some? ==>
      pre.cells[r][c].vegetable.Some? || exists k :: 0 <= k < |trace| && trace[k].row == r && trace[k].col == c
  }

  lemma ProgressStart(pre: GardenGrid, candidates: seq<Vegetable>)
    requires WellFormed(pre) && NoBlockedPlanted(pre)
    ensures Progress(pre, candidates, 0, pre, 0, PlantedIds(pre), [])
  {
    assert TraceIds([]) == {};
  }

  lemma ProgressSkip(pre: GardenGrid, candidates: seq<Vegetable>, i: nat, grid: GardenGrid, score: int,
                     placedIds: set<string>, trace: seq<Commit>)
    requires WellFormed(pre) && NoBlockedPlanted(pre)
    requires Progress(pre, candidates, i, grid, score, placedIds, trace)
    requires i < |candidates| && candidates[i].id in placedIds
    ensures Progress(pre, candidates, i + 1, grid, score, placedIds, trace)
  {
    assert TraceIds(trace) == IdsCommittedBefore(trace, i);
  }

  lemma RecordedAfterPlant(grid: GardenGrid, trace: seq<Commit>, t: Commit)
    requires WellFormed(grid) && Recorded(grid, trace)
    requires InBounds(grid, t.row, t.col) && IsFree(grid, t.row, t.col)
    ensures Recorded(Plant(grid, t.row, t.col, t.placed), trace + [t])
  {
    var tr := trace + [t];
    var h := Plant(grid, t.row, t.col, t.placed);
    forall k | 0 <= k < |tr|
      ensures InBounds(h, tr[k].row, tr[k].col) && h.cells[tr[k].row][tr[k].col].vegetable == Some(tr[k].placed)
    {
      if k < |trace| {
        assert tr[k] == trace[k];
        assert grid.cells[trace[k].row][trace[k].col].vegetable.Some?;
      }
    }
  }

  lemma OnlyCommittedAfterPlant(pre: GardenGrid, grid: GardenGrid, trace: seq<Commit>, t: Commit)
    requires WellFormed(pre) && WellFormed(grid) && grid.rows == pre.rows && grid.cols == pre.cols
    requires OnlyCommitted(pre, grid, trace) && InBounds(grid, t.row, t.col)
    ensures OnlyCommitted(pre, Plant(grid, t.row, t.col, t.placed), trace + [t])
  {
    var tr := trace + [t];
    var h := Plant(grid, t.row, t.col, t.placed);
    forall r, c | InBounds(h, r, c) && h.cells[r][c].vegetable.Some?
      ensures pre.cells[r][c].vegetable.Some? || exists k :: 0 <= k < |tr| && tr[k].row == r && tr[k].col == c
    {
      if r == t.row && c == t.col {
        assert tr[|trace|] == t;
      } else if !pre.cells[r][c].vegetable.Some? {
        var k :| 0 <= k < |trace| && trace[k].row == r && trace[k].col == c;
        assert tr[k] == trace[k];
      }
    }
  }

  lemma DistinctAfterCommit(pre: GardenGrid, trace: seq<Commit>, placedIds: set<string>, t: Commit)
    requires WellFormed(pre) && DistinctNewIds(pre, trace)
    requires placedIds == PlantedIds(pre) + TraceIds(trace) && t.placed.id !in placedIds
    ensures DistinctNewIds(pre, trace + [t])
  {
    var tr := trace + [t];
    assert forall k :: 0 <= k < |trace| ==> tr[k] == trace[k] && trace[k].placed.id in TraceIds(trace);
  }

  lemma ProgressCommit(pre: GardenGrid, candidates: seq<Vegetable>, i: nat, grid: GardenGrid, score: int,
                       placedIds: set<string>, trace: seq<Commit>, t: Commit)
    requires WellFormed(pre) && NoBlockedPlanted(pre)
    requires Progress(pre, candidates, i, grid, score, placedIds, trace)
    requires i < |candidates| && candidates[i].id !in placedIds
    requires t.index == i && t.before == grid && ValidCommit(t, candidates[i])
    ensures Progress(pre, candidates, i + 1, After(t), score + t.score, placedIds + {candidates[i].id}, trace + [t])
  {
    GreedyTraceExtend(pre, candidates, trace, t);
    TraceAppend(trace, t, pre);
    PlantFreeCell(pre, grid, t.row, t.col, t.placed);
    RecordedAfterPlant(grid, trace, t);
    OnlyCommittedAfterPlant(pre, grid, trace, t);
    DistinctAfterCommit(pre, trace, placedIds, t);
    SkippedAfterCommit(pre, candidates, i, trace, t);
    var g2 := After(t);
    var tr := trace + [t];
    assert i + 1 <= |candidates|;
    assert WellFormed(g2) && Extends(pre, g2) && NoBlockedPlanted(g2);
    assert GreedyTrace(pre, candidates, tr);
    assert g2 == Final(pre, tr);
    assert forall k :: 0 <= k < |tr| ==> tr[k].index < i + 1 by {
      forall k | 0 <= k < |tr| ensures tr[k].index < i + 1 {
        if k < |trace| { assert tr[k] == trace[k]; }
      }
    }
    assert score + t.score == SumScores(tr);
    assert t.placed.id == candidates[i].id;
    UnionStep(placedIds, PlantedIds(pre), TraceIds(trace), TraceIds(tr), t.placed.id);
    assert DistinctNewIds(pre, tr);
    assert Recorded(g2, tr);
    assert OnlyCommitted(pre, g2, tr);
  }

  lemma UnionStep<T>(all: set<T>, a: set<T>, b: set<T>, b2: set<T>, x: T)
    requires all == a + b && b2 == b + {x}
    ensures all + {x} == a + b2
  {
  }

  /** A candidate not committed was skipped because its identifier was already
      planted; committing candidate `i` keeps that true for candidates up to `i`. */
  lemma SkippedAfterCommit(pre: GardenGrid, candidates: seq<Vegetable>, i: nat, trace: seq<Commit>, t: Commit)
    requires WellFormed(pre) && i < |candidates| && t.index == i
    requires forall k :: 0 <= k < |trace| ==> trace[k].index < i
    requires forall j :: 0 <= j < i && NotCommitted(trace, j) ==>
      candidates[j].id in PlantedIds(pre) + IdsCommittedBefore(trace, j)
    ensures forall j :: 0 <= j < i + 1 && NotCommitted(trace + [t], j) ==>
      candidates[j].id in PlantedIds(pre) + IdsCommittedBefore(trace + [t], j)
  {
    var tr := trace + [t];
    forall j | 0 <= j < i + 1 && NotCommitted(tr, j)
      ensures candidates[j].id in PlantedIds(pre) + IdsCommittedBefore(tr, j)
    {
      assert tr[|trace|] == t;
      assert NotCommitted(trace, j) by {
        forall k | 0 <= k < |trace| ensures trace[k].index != j {
          assert tr[k] == trace[k];
        }
      }
      assert IdsCommittedBefore(trace, j) <= IdsCommittedBefore(tr, j) by {
        forall k | 0 <= k < |trace| && trace[k].index < j ensures trace[k].placed.id in IdsCommittedBefore(tr, j) {
          assert tr[k] == trace[k];
        }
      }
    }
  }

  /** Every candidate the loop did not commit was skipped as already planted,
      or came after the point where the grid had no free cell left. */
  ghost predicate SkipsExplained(pre: GardenGrid, candidates: seq<Vegetable>, grid: GardenGrid, trace: seq<Commit>)
    requires WellFormed(pre) && WellFormed(grid)
  {
    forall j :: 0 <= j < |candidates| && NotCommitted(trace, j) ==>
      || candidates[j].id in PlantedIds(pre) + IdsCommittedBefore(trace, j)
      || (!HasFreeCell(grid) && forall k :: 0 <= k < |trace| ==> trace[k].index < j)
  }

  /** The loop ends either after the last candidate or when the grid is full. */
  lemma ProgressEnd(pre: GardenGrid, candidates: seq<Vegetable>, i: nat, grid: GardenGrid, score: int,
                    placedIds: set<string>, trace: seq<Commit>)
    requires WellFormed(pre) && NoBlockedPlanted(pre)
    requires Progress(pre, candidates, i, grid, score, placedIds, trace)
    requires i == |candidates| || !HasFreeCell(grid)
    ensures SkipsExplained(pre, candidates, grid, trace)
  {
  }

  /** One step of plan_garden's candidate loop for a candidate not yet
      planted: find the best free cell and build what goes into it, or
      report that no free cell is left. */
  method TryPlace(grid: GardenGrid, v: Vegetable, index: nat) returns (res: Option<Commit>)
    requires WellFormed(grid)
    ensures res.None? <==> !HasFreeCell(grid)
    ensures res.Some? ==> res.value.index == index && res.value.before == grid && ValidCommit(res.value, v)
  {
    var best, bestScore := BestCell(grid, v);
    if best.None? {
      return None;
    }
    var r, c := best.value.row, best.value.col;
    var placed := PlacedVegetable(v.id, v.name, BuildReason(v, Names(Neighbors(grid, r, c)), bestScore));
    return Some(Commit(index, r, c, bestScore, placed, grid));
  }

  /** One turn of plan_garden's candidate loop for candidate `i`: skip it
      when its identifier is already planted, stop when no free cell is left,
      and otherwise plant it in its best cell. */
  method Step(pre: GardenGrid, candidates: seq<Vegetable>, i: nat, grid: GardenGrid, score: int,
              placedIds: set<string>, ghost trace: seq<Commit>)
    returns (stop: bool, grid': GardenGrid, score': int, placedIds': set<string>, ghost trace': seq<Commit>)
    requires WellFormed(pre) && NoBlockedPlanted(pre)
    requires Progress(pre, candidates, i, grid, score, placedIds, trace) && i < |candidates|
    ensures stop ==> Progress(pre, candidates, i, grid', score', placedIds', trace') && !HasFreeCell(grid')
    ensures !stop ==> Progress(pre, candidates, i + 1, grid', score', placedIds', trace')
    ensures stop ==> candidates[i].id !in placedIds && grid' == grid && score' == score && placedIds' == placedIds
    ensures candidates[i].id in placedIds ==> !stop && grid' == grid && score' == score && placedIds' == placedIds
    ensures !stop ==> placedIds <= placedIds' && candidates[i].id in placedIds'
  {
    var v := candidates[i];
    if v.id in placedIds {
      ProgressSkip(pre, candidates, i, grid, score, placedIds, trace);
      return false, grid, score, placedIds, trace;
    }
    var attempt := TryPlace(grid, v, i);
    if attempt.None? {
      return true, grid, score, placedIds, trace;
    }
    var t := attempt.value;
    ProgressCommit(pre, candidates, i, grid, score, placedIds, trace, t);
    return false, After(t), score + t.score, placedIds + {candidates[i].id}, trace + [t];
  }

  /** plan_garden's candidate loop, run on the pre-filled grid. */
  method PlaceCandidates(pre: GardenGrid, candidates: seq<Vegetable>)
    returns (grid: GardenGrid, score: int, ghost trace: seq<Commit>)
    requires WellFormed(pre) && NoBlockedPlanted(pre)
    ensures WellFormed(grid) && Extends(pre, grid) && NoBlockedPlanted(grid)
    ensures GreedyTrace(pre, candidates, trace) && grid == Final(pre, trace)
    ensures score == SumScores(trace)
    ensures DistinctNewIds(pre, trace)
    ensures Recorded(grid, trace)
    ensures OnlyCommitted(pre, grid, trace)
    ensures SkipsExplained(pre, candidates, grid, trace)
  {
    grid, score, trace := pre, 0, [];
    var placedIds := PlantedIds(pre);
    var i := 0;
    ProgressStart(pre, candidates);
    while i < |candidates|
      invariant Progress(pre, candidates, i, grid, score, placedIds, trace)
    {
      var stop;
      stop, grid, score, placedIds, trace := Step(pre, candidates, i, grid, score, placedIds, trace);
      if stop {
        break;
      }
      i := i + 1;
    }
    ProgressEnd(pre, candidates, i, grid, score, placedIds, trace);
  }

  // ---------------------------------------------------------------------------
  // The whole planner
  // ---------------------------------------------------------------------------

  /** The source's test for a grid with no room left: at least as many planted
      cells as unblocked ones, the subtraction saturating at zero. */
  function IsFullyOccupied(g: GardenGrid): bool
    requires WellFormed(g)
  {
    var total := g.rows * g.cols;
    var blocked := Count(g.cells, IsBlockedCell);
    var available := if total >= blocked then total - blocked else 0;
    Count(g.cells, IsOccupiedCell) >= available
  }

  /** On a grid whose blocked cells are unplanted, the count test says exactly
      that no cell is free. */
  lemma FullyOccupiedIffNoFreeCell(g: GardenGrid)
    requires WellFormed(g) && NoBlockedPlanted(g)
    ensures IsFullyOccupied(g) <==> !HasFreeCell(g)
  {
    assert forall r, c :: 0 <= r < |g.cells| && 0 <= c < |g.cells[r]| ==>
      OneOf(g.cells[r][c], IsOccupiedCell, IsBlockedCell, IsEmptyCell);
    CountPartition(g.cells, IsOccupiedCell, IsBlockedCell, IsEmptyCell);
    SizeRectangular(g.cells, g.rows, g.cols);
    FreeCellIffCount(g);
  }

  /** A grid has a free cell exactly when its count of free cells is positive. */
  lemma FreeCellIffCount(g: GardenGrid)
    requires WellFormed(g)
    ensures HasFreeCell(g) <==> Count(g.cells, IsEmptyCell) > 0
  {
    CountZero(g.cells, IsEmptyCell);
    if HasFreeCell(g) {
      var r, c :| InBounds(g, r, c) && IsFree(g, r, c);
      assert IsEmptyCell(g.cells[r][c]);
    }
    if Count(g.cells, IsEmptyCell) > 0 {
      var r, c :| 0 <= r < |g.cells| && 0 <= c < |g.cells[r]| && IsEmptyCell(g.cells[r][c]);
      assert InBounds(g, r, c) && IsFree(g, r, c);
    }
  }

  /** plan_garden: reject an empty layout or an empty first row, pre-fill the
      grid, stop with a warning when it is already full, otherwise run the
      candidate loop and warn about the cells left open. The ghost `trace`
      records the placements the loop committed. */
  method PlanGarden(candidates: seq<Vegetable>, request: PlanRequest, lookup: string -> Option<Vegetable>)
    returns (res: Result<PlanResponse, PlanError>, ghost trace: seq<Commit>)
    ensures |request.layout| == 0 ==> res == Err(EmptyLayout)
    ensures |request.layout| > 0 && |request.layout[0]| == 0 ==> res == Err(EmptyRow)
    ensures res.Ok? <==> |request.layout| > 0 && |request.layout[0]| > 0
    ensures res.Err? ==> trace == []
    ensures res.Ok? ==> IsPlan(request.layout, lookup, candidates, trace, res.value)
  {
    trace := [];
    if |request.layout| == 0 {
      return Err(EmptyLayout), trace;
    }
    var rows, cols := |request.layout|, |request.layout[0]|;
    if cols == 0 {
      return Err(EmptyRow), trace;
    }
    var pre, warnings := Prefill(request.layout, lookup);
    PrefilledNoBlockedPlanted(request.layout, lookup);
    FullyOccupiedIffNoFreeCell(pre);
    if IsFullyOccupied(pre) {
      var resp := BuildResponse(pre, rows, cols, 0, warnings + [FullyOccupied]);
      FullPlan(request.layout, lookup, candidates, resp);
      return Ok(resp), trace;
    }
    var resp;
    resp, trace := PlaceAndAnswer(request.layout, lookup, candidates, pre, warnings);
    return Ok(resp), trace;
  }

  /** The rest of plan_garden once the pre-filled grid has room: run the
      candidate loop, then warn about the cells left open. */
  method PlaceAndAnswer(layout: Matrix<LayoutCell>, lookup: string -> Option<Vegetable>, candidates: seq<Vegetable>,
                        pre: GardenGrid, warnings: seq<Warning>)
    returns (resp: PlanResponse, ghost trace: seq<Commit>)
    requires |layout| > 0 && |layout[0]| > 0
    requires pre == PrefilledGrid(layout, lookup) && HasFreeCell(pre)
    requires warnings == UnknownIdWarnings(layout, lookup)
    ensures IsPlan(layout, lookup, candidates, trace, resp)
    ensures resp.rows == |layout| && resp.cols == |layout[0]|
    ensures |warnings| <= |resp.warnings| <= |warnings| + 1 && resp.warnings[..|warnings|] == warnings
  {
    PrefilledNoBlockedPlanted(layout, lookup);
    var final, score;
    final, score, trace := PlaceCandidates(pre, candidates);
    var empty := Count(final.cells, IsEmptyCell);
    var extra := if empty > 0 then [EmptyCells(empty)] else [];
    resp := BuildResponse(final, |layout|, |layout[0]|, score, warnings + extra);
    GreedyPlan(layout, lookup, candidates, trace, score, resp);
  }

  /** A successful answer to the layout: it shows the layout and the grid the
      committed placements leave behind (`AnswerLayout`, `ShowsRun`), no
      identifier is committed twice, every uncommitted candidate is accounted
      for, the score is the sum of the commits' scores, and the warnings list
      the unknown identifiers first, then either that the grid was full from
      the start (when nothing is placed) or how many cells were left open. */
  ghost predicate IsPlan(layout: Matrix<LayoutCell>, lookup: string -> Option<Vegetable>, candidates: seq<Vegetable>,
                         trace: seq<Commit>, resp: PlanResponse)
    requires |layout| > 0
  {
    && AnswerLayout(layout, lookup, candidates, trace, resp)
    && ShowsRun(layout, lookup, candidates, trace, resp)
    && var pre := PrefilledGrid(layout, lookup);
       var final := Final(pre, trace);
       && DistinctNewIds(pre, trace)
       && SkipsExplained(pre, candidates, final, trace)
       && resp.score == SumScores(trace)
       && (!HasFreeCell(pre) ==> trace == [] && resp.warnings == UnknownIdWarnings(layout, lookup) + [FullyOccupied])
       && (HasFreeCell(pre) ==>
             resp.warnings == UnknownIdWarnings(layout, lookup)
               + (if HasOpenCell(resp.grid) then [EmptyCells(Count(resp.grid, IsOpen))] else []))
  }

  /** The answer when the pre-filled grid has no free cell. */
  lemma FullPlan(layout: Matrix<LayoutCell>, lookup: string -> Option<Vegetable>, candidates: seq<Vegetable>,
                 resp: PlanResponse)
    requires |layout| > 0 && |layout[0]| > 0
    requires var pre := PrefilledGrid(layout, lookup);
      && !HasFreeCell(pre)
      && resp == BuildResponse(pre, |layout|, |layout[0]|, 0, UnknownIdWarnings(layout, lookup) + [FullyOccupied])
    ensures IsPlan(layout, lookup, candidates, [], resp)
  {
    PrefilledGridCells(layout, lookup);
    GreedyShowsRun(layout, lookup, candidates, [], 0, resp.warnings, resp);
    AnswerParts(layout, lookup, candidates, [], resp);
  }

  /** The answer after the candidate loop ran on a pre-filled grid with room. */
  lemma GreedyPlan(layout: Matrix<LayoutCell>, lookup: string -> Option<Vegetable>, candidates: seq<Vegetable>,
                   trace: seq<Commit>, score: int, resp: PlanResponse)
    requires |layout| > 0 && |layout[0]| > 0
    requires var pre := PrefilledGrid(layout, lookup);
      var final := Final(pre, trace);
      && HasFreeCell(pre) && NoBlockedPlanted(pre)
      && WellFormed(final) && Extends(pre, final) && NoBlockedPlanted(final)
      && GreedyTrace(pre, candidates, trace)
      && score == SumScores(trace)
      && DistinctNewIds(pre, trace)
      && Recorded(final, trace)
      && OnlyCommitted(pre, final, trace)
      && SkipsExplained(pre, candidates, final, trace)
      && var empty := Count(final.cells, IsEmptyCell);
         resp == BuildResponse(final, |layout|, |layout[0]|, score,
           UnknownIdWarnings(layout, lookup) + (if empty > 0 then [EmptyCells(empty)] else []))
    ensures IsPlan(layout, lookup, candidates, trace, resp)
  {
    var pre := PrefilledGrid(layout, lookup);
    var final := Final(pre, trace);
    OpenCellsMatchFreeCells(final, |layout|, |layout[0]|, score, resp.warnings);
    FreeCellIffCount(final);
    GreedyShowsRun(layout, lookup, candidates, trace, score, resp.warnings, resp);
    AnswerParts(layout, lookup, candidates, trace, resp);
  }

  /** The answer built from the grid a run of the loop leaves behind shows that run. */
  lemma GreedyShowsRun(layout: Matrix<LayoutCell>, lookup: string -> Option<Vegetable>, candidates: seq<Vegetable>,
                       trace: seq<Commit>, score: int, warnings: seq<Warning>, resp: PlanResponse)
    requires |layout| > 0
    requires var pre := PrefilledGrid(layout, lookup);
      var final := Final(pre, trace);
      && WellFormed(final) && Extends(pre, final) && NoBlockedPlanted(final)
      && GreedyTrace(pre, candidates, trace)
      && Recorded(final, trace)
      && OnlyCommitted(pre, final, trace)
      && resp == BuildResponse(final, |layout|, |layout[0]|, score, warnings)
    ensures ShowsRun(layout, lookup, candidates, trace, resp)
  {
  }

  /** What the answer shows of the layout and of the commits: blocked cells
      come through blocked and empty, pre-planted vegetables unchanged with
      their "existing" reason, each committed candidate in its cell, and
      nothing else planted. */
  ghost predicate AnswerLayout(layout: Matrix<LayoutCell>, lookup: string -> Option<Vegetable>, candidates: seq<Vegetable>,
                               trace: seq<Commit>, resp: PlanResponse)
    requires |layout| > 0
  {
    && resp.rows == |layout| && resp.cols == |layout[0]|
    && IsRectangular(resp.grid, resp.rows, resp.cols)
    && (forall r, c :: 0 <= r < resp.rows && 0 <= c < resp.cols ==>
          && (resp.grid[r][c].blocked <==> LayoutAt(layout, r, c) == Blocked(true))
          && (resp.grid[r][c].blocked ==> resp.grid[r][c].id.None?))
    && (forall r, c ::
          (0 <= r < resp.rows && 0 <= c < resp.cols && LayoutAt(layout, r, c).Planted? && lookup(LayoutAt(layout, r, c).id).Some?) ==>
          && resp.grid[r][c].id == Some(lookup(LayoutAt(layout, r, c).id).value.id)
          && resp.grid[r][c].reason == Some(Existing))
    && (forall k :: 0 <= k < |trace| ==>
          && trace[k].index < |candidates|
          && 0 <= trace[k].row < |resp.grid| && 0 <= trace[k].col < |resp.grid[trace[k].row]|
          && resp.grid[trace[k].row][trace[k].col].id == Some(candidates[trace[k].index].id))
    && (forall r, c :: (0 <= r < resp.rows && 0 <= c < resp.cols && resp.grid[r][c].id.Some?) ==>
          || (LayoutAt(layout, r, c).Planted? && lookup(LayoutAt(layout, r, c).id).Some?)
          || exists k :: 0 <= k < |trace| && trace[k].row == r && trace[k].col == c)
  }

  lemma AnswerParts(layout: Matrix<LayoutCell>, lookup: string -> Option<Vegetable>, candidates: seq<Vegetable>,
                    trace: seq<Commit>, resp: PlanResponse)
    requires |layout| > 0 && ShowsRun(layout, lookup, candidates, trace, resp)
    ensures AnswerLayout(layout, lookup, candidates, trace, resp)
  {
    AnswerKeepsBlocked(layout, lookup, candidates, trace, resp);
    AnswerKeepsPrePlanted(layout, lookup, candidates, trace, resp);
    AnswerShowsCommits(layout, lookup, candidates, trace, resp);
  }

  /** An answer that shows, cell for cell, the grid a run of the loop from the
      pre-filled grid leaves behind. */
  ghost predicate ShowsRun(layout: Matrix<LayoutCell>, lookup: string -> Option<Vegetable>, candidates: seq<Vegetable>,
                           trace: seq<Commit>, resp: PlanResponse)
    requires |layout| > 0
  {
    var pre := PrefilledGrid(layout, lookup);
    var final := Final(pre, trace);
    && GreedyTrace(pre, candidates, trace)
    && WellFormed(final) && Extends(pre, final) && NoBlockedPlanted(final)
    && Recorded(final, trace) && OnlyCommitted(pre, final, trace)
    && resp.rows == pre.rows && resp.cols == pre.cols
    && |resp.grid| == |final.cells|
    && (forall r :: 0 <= r < |final.cells| ==> |resp.grid[r]| == |final.cells[r]|)
    && (forall r, c :: InBounds(final, r, c) ==> resp.grid[r][c] == ToPlannedCell(final.cells[r][c]))
  }

  /** The answer keeps the layout's blocked cells, blocked and empty. */
  lemma AnswerKeepsBlocked(layout: Matrix<LayoutCell>, lookup: string -> Option<Vegetable>, candidates: seq<Vegetable>,
                           trace: seq<Commit>, resp: PlanResponse)
    requires |layout| > 0 && ShowsRun(layout, lookup, candidates, trace, resp)
    ensures resp.rows == |layout| && resp.cols == |layout[0]|
    ensures IsRectangular(resp.grid, resp.rows, resp.cols)
    ensures forall r, c :: 0 <= r < resp.rows && 0 <= c < resp.cols ==>
      && (resp.grid[r][c].blocked <==> LayoutAt(layout, r, c) == Blocked(true))
      && (resp.grid[r][c].blocked ==> resp.grid[r][c].id.None?)
  {
    PrefilledGridCells(layout, lookup);
    var pre := PrefilledGrid(layout, lookup);
    var final := Final(pre, trace);
    forall r, c | 0 <= r < resp.rows && 0 <= c < resp.cols
      ensures && (resp.grid[r][c].blocked <==> LayoutAt(layout, r, c) == Blocked(true))
              && (resp.grid[r][c].blocked ==> resp.grid[r][c].id.None?)
    {
      assert InBounds(pre, r, c) && InBounds(final, r, c);
      assert final.cells[r][c].blocked == pre.cells[r][c].blocked;
    }
  }

  /** The answer keeps every pre-planted vegetable, with its "existing" reason. */
  lemma AnswerKeepsPrePlanted(layout: Matrix<LayoutCell>, lookup: string -> Option<Vegetable>, candidates: seq<Vegetable>,
                              trace: seq<Commit>, resp: PlanResponse)
    requires |layout| > 0 && ShowsRun(layout, lookup, candidates, trace, resp)
    ensures forall r, c ::
      (0 <= r < resp.rows && 0 <= c < resp.cols && LayoutAt(layout, r, c).Planted? && lookup(LayoutAt(layout, r, c).id).Some?) ==>
      && resp.grid[r][c].id == Some(lookup(LayoutAt(layout, r, c).id).value.id)
      && resp.grid[r][c].reason == Some(Existing)
  {
    PrefilledGridCells(layout, lookup);
    var pre := PrefilledGrid(layout, lookup);
    var final := Final(pre, trace);
    forall r, c | 0 <= r < resp.rows && 0 <= c < resp.cols && LayoutAt(layout, r, c).Planted? && lookup(LayoutAt(layout, r, c).id).Some?
      ensures && resp.grid[r][c].id == Some(lookup(LayoutAt(layout, r, c).id).value.id)
              && resp.grid[r][c].reason == Some(Existing)
    {
      assert InBounds(pre, r, c) && InBounds(final, r, c);
      assert final.cells[r][c] == pre.cells[r][c];
    }
  }

  /** Each committed candidate sits in its cell, and every planted cell of the
      answer was pre-planted or committed. */
  lemma AnswerShowsCommits(layout: Matrix<LayoutCell>, lookup: string -> Option<Vegetable>, candidates: seq<Vegetable>,
                           trace: seq<Commit>, resp: PlanResponse)
    requires |layout| > 0 && ShowsRun(layout, lookup, candidates, trace, resp)
    ensures forall k :: 0 <= k < |trace| ==>
      && trace[k].index < |candidates|
      && 0 <= trace[k].row < |resp.grid| && 0 <= trace[k].col < |resp.grid[trace[k].row]|
      && resp.grid[trace[k].row][trace[k].col].id == Some(candidates[trace[k].index].id)
    ensures forall r, c :: (0 <= r < resp.rows && 0 <= c < resp.cols && resp.grid[r][c].id.Some?) ==>
      || (LayoutAt(layout, r, c).Planted? && lookup(LayoutAt(layout, r, c).id).Some?)
      || exists k :: 0 <= k < |trace| && trace[k].row == r && trace[k].col == c
  {
    PrefilledGridCells(layout, lookup);
    var pre := PrefilledGrid(layout, lookup);
    var final := Final(pre, trace);
    forall k | 0 <= k < |trace|
      ensures && trace[k].index < |candidates|
              && 0 <= trace[k].row < |resp.grid| && 0 <= trace[k].col < |resp.grid[trace[k].row]|
              && resp.grid[trace[k].row][trace[k].col].id == Some(candidates[trace[k].index].id)
    {
      assert InBounds(final, trace[k].row, trace[k].col);
      assert ValidCommit(trace[k], candidates[trace[k].index]);
    }
    forall r, c | 0 <= r < resp.rows && 0 <= c < resp.cols && resp.grid[r][c].id.Some?
      ensures || (LayoutAt(layout, r, c).Planted? && lookup(LayoutAt(layout, r, c).id).Some?)
              || exists k :: 0 <= k < |trace| && trace[k].row == r && trace[k].col == c
    {
      assert InBounds(pre, r, c) && InBounds(final, r, c);
    }
  }

  // ---------------------------------------------------------------------------
  // Consequences for the answer
  // ---------------------------------------------------------------------------

  /** Every planted cell of an answer carries its name and a reason. */
  lemma PlacedCellsHaveReasons(layout: Matrix<LayoutCell>, lookup: string -> Option<Vegetable>, candidates: seq<Vegetable>,
                               trace: seq<Commit>, resp: PlanResponse)
    requires |layout| > 0 && IsPlan(layout, lookup, candidates, trace, resp)
    ensures forall r, c :: 0 <= r < |resp.grid| && 0 <= c < |resp.grid[r]| && resp.grid[r][c].id.Some? ==>
      resp.grid[r][c].name.Some? && resp.grid[r][c].reason.Some? && !resp.grid[r][c].blocked
  {
    var final := Final(PrefilledGrid(layout, lookup), trace);
    assert ShowsRun(layout, lookup, candidates, trace, resp);
    ShownCellsHaveReasons(final, resp.grid);
  }

  lemma ShownCellsHaveReasons(g: GardenGrid, m: Matrix<PlannedCell>)
    requires WellFormed(g) && |m| == |g.cells| && (forall r :: 0 <= r < |m| ==> |m[r]| == |g.cells[r]|)
    requires forall r, c :: InBounds(g, r, c) ==> m[r][c] == ToPlannedCell(g.cells[r][c])
    ensures forall r, c :: 0 <= r < |m| && 0 <= c < |m[r]| && m[r][c].id.Some? ==>
      m[r][c].name.Some? && m[r][c].reason.Some? && !m[r][c].blocked
  {
    forall r, c | 0 <= r < |m| && 0 <= c < |m[r]| && m[r][c].id.Some?
      ensures m[r][c].name.Some? && m[r][c].reason.Some? && !m[r][c].blocked
    {
      assert InBounds(g, r, c);
    }
  }

  /** Without candidates nothing is committed and only the layout's known
      vegetables are planted; on an all-free layout the answer is empty. */
  lemma NoCandidatesPlantNothing(layout: Matrix<LayoutCell>, lookup: string -> Option<Vegetable>,
                                 trace: seq<Commit>, resp: PlanResponse)
    requires |layout| > 0 && IsPlan(layout, lookup, [], trace, resp)
    ensures trace == []
    ensures forall r, c :: 0 <= r < resp.rows && 0 <= c < resp.cols && resp.grid[r][c].id.Some? ==>
      LayoutAt(layout, r, c).Planted? && lookup(LayoutAt(layout, r, c).id).Some?
    ensures (forall r, c :: 0 <= r < |layout| && 0 <= c < |layout[r]| ==> layout[r][c] == Free) ==>
      forall r, c :: 0 <= r < resp.rows && 0 <= c < resp.cols ==> resp.grid[r][c].id.None?
  {
  }

  /** A layout blocked everywhere leaves no free cell: nothing is placed, the
      score is 0 and the last warning says the grid is full. */
  lemma FullyBlockedPlacesNothing(layout: Matrix<LayoutCell>, lookup: string -> Option<Vegetable>, candidates: seq<Vegetable>,
                                  trace: seq<Commit>, resp: PlanResponse)
    requires |layout| > 0 && IsPlan(layout, lookup, candidates, trace, resp)
    requires forall r :: 0 <= r < |layout| ==> |layout[r]| >= |layout[0]|
    requires forall r, c :: 0 <= r < |layout| && 0 <= c < |layout[r]| ==> layout[r][c] == Blocked(true)
    ensures trace == [] && resp.score == 0
    ensures |resp.warnings| > 0 && resp.warnings[|resp.warnings| - 1] == FullyOccupied
    ensures forall r, c :: 0 <= r < resp.rows && 0 <= c < resp.cols ==> resp.grid[r][c].id.None?
  {
    AllBlockedNoFreeCell(layout, lookup);
    assert AnswerLayout(layout, lookup, candidates, trace, resp);
  }

  /** A layout blocked everywhere pre-fills to a grid without a free cell. */
  lemma AllBlockedNoFreeCell(layout: Matrix<LayoutCell>, lookup: string -> Option<Vegetable>)
    requires |layout| > 0
    requires forall r :: 0 <= r < |layout| ==> |layout[r]| >= |layout[0]|
    requires forall r, c :: 0 <= r < |layout| && 0 <= c < |layout[r]| ==> layout[r][c] == Blocked(true)
    ensures !HasFreeCell(PrefilledGrid(layout, lookup))
    ensures forall r, c :: 0 <= r < |layout| && 0 <= c < |layout[0]| ==> LayoutAt(layout, r, c) == Blocked(true)
  {
    var pre := PrefilledGrid(layout, lookup);
    forall r, c | InBounds(pre, r, c)
      ensures !IsFree(pre, r, c)
    {
      assert LayoutAt(layout, r, c) == Blocked(true);
    }
  }

  /** No cell receives two commits: the loop never overwrites a placement. */
  lemma CommitCellsDistinct(layout: Matrix<LayoutCell>, lookup: string -> Option<Vegetable>, candidates: seq<Vegetable>,
                            trace: seq<Commit>, resp: PlanResponse)
    requires |layout| > 0 && IsPlan(layout, lookup, candidates, trace, resp)
    ensures forall k, l :: 0 <= k < l < |trace| ==> trace[k].row != trace[l].row || trace[k].col != trace[l].col
  {
    var pre := PrefilledGrid(layout, lookup);
    var final := Final(pre, trace);
    assert ShowsRun(layout, lookup, candidates, trace, resp);
    assert WellFormed(final) && Recorded(final, trace);
    assert DistinctNewIds(pre, trace);
    RecordedCellsDistinct(final, trace);
  }

  /** Commits with distinct identifiers that all still sit in their cells
      sit in distinct cells. */
  lemma RecordedCellsDistinct(grid: GardenGrid, trace: seq<Commit>)
    requires WellFormed(grid) && Recorded(grid, trace)
    requires forall k, l :: 0 <= k < l < |trace| ==> trace[k].placed.id != trace[l].placed.id
    ensures forall k, l :: 0 <= k < l < |trace| ==> trace[k].row != trace[l].row || trace[k].col != trace[l].col
  {
    forall k, l | 0 <= k < l < |trace|
      ensures trace[k].row != trace[l].row || trace[k].col != trace[l].col
    {
      assert grid.cells[trace[k].row][trace[k].col].vegetable == Some(trace[k].placed);
      assert grid.cells[trace[l].row][trace[l].col].vegetable == Some(trace[l].placed);
    }
  }

  /** The k-th commit is for candidate k or a later one. */
  lemma {:induction false} TraceIndexAtLeast(pre: GardenGrid, candidates: seq<Vegetable>, trace: seq<Commit>)
    requires GreedyTrace(pre, candidates, trace)
    ensures forall k :: 0 <= k < |trace| ==> trace[k].index >= k
    ensures |trace| <= |candidates|
  {
    forall k | 0 <= k < |trace| ensures trace[k].index >= k {
      TraceIndexStep(pre, candidates, trace, k);
    }
    if |trace| > 0 {
      assert trace[|trace| - 1].index < |candidates|;
    }
  }

  lemma {:induction false} TraceIndexStep(pre: GardenGrid, candidates: seq<Vegetable>, trace: seq<Commit>, k: nat)
    requires GreedyTrace(pre, candidates, trace) && k < |trace|
    ensures trace[k].index >= k
    decreases k
  {
    if k > 0 {
      TraceIndexStep(pre, candidates, trace, k - 1);
    }
  }

  /** Each commit scores between -12 and 8, so a run of the loop scores
      between -12 and 8 times the number of commits, which is at most the
      number of candidates. */
  lemma SumScoresBounds(pre: GardenGrid, candidates: seq<Vegetable>, trace: seq<Commit>)
    requires GreedyTrace(pre, candidates, trace)
    ensures -12 * |trace| <= SumScores(trace) <= 8 * |trace|
    ensures -12 * |candidates| <= SumScores(trace) <= 8 * |candidates|
  {
    TraceIndexAtLeast(pre, candidates, trace);
    CommitScoresBounded(pre, candidates, trace);
    SumScoresPrefix(trace, |trace|);
    assert trace[..|trace|] == trace;
    var n, m := |trace|, |candidates|;
    assert -12 * m <= -12 * n && 8 * n <= 8 * m;
  }

  /** Every commit of a run records a score in [-12, 8]. */
  lemma CommitScoresBounded(pre: GardenGrid, candidates: seq<Vegetable>, trace: seq<Commit>)
    requires GreedyTrace(pre, candidates, trace)
    ensures forall k :: 0 <= k < |trace| ==> -12 <= trace[k].score <= 8
  {
    forall k | 0 <= k < |trace|
      ensures -12 <= trace[k].score <= 8
    {
      var t := trace[k];
      assert ValidCommit(t, candidates[t.index]);
      CellScoreBounds(t.before, candidates[t.index], t.row, t.col);
    }
  }

  lemma {:induction false} SumScoresPrefix(trace: seq<Commit>, n: nat)
    requires n <= |trace|
    requires forall k :: 0 <= k < |trace| ==> -12 <= trace[k].score <= 8
    ensures -12 * n <= SumScores(trace[..n]) <= 8 * n
    decreases n
  {
    if n > 0 {
      SumScoresPrefix(trace, n - 1);
      assert trace[..n][..n - 1] == trace[..n - 1];
      assert trace[..n][n - 1] == trace[n - 1];
    }
  }

  /** Planting a free cell adds exactly one planted cell and removes one free one. */
  lemma PlantCounts(g: GardenGrid, r: nat, c: nat, pv: PlacedVegetable)
    requires WellFormed(g) && InBounds(g, r, c) && IsFree(g, r, c)
    ensures Count(Plant(g, r, c, pv).cells, IsOccupiedCell) == Count(g.cells, IsOccupiedCell) + 1
    ensures Count(Plant(g, r, c, pv).cells, IsEmptyCell) + 1 == Count(g.cells, IsEmptyCell)
  {
    var x := g.cells[r][c].(vegetable := Some(pv));
    assert Plant(g, r, c, pv).cells == g.cells[r := g.cells[r][c := x]];
    CountUpdate(g.cells, r, c, x, IsOccupiedCell);
    CountUpdate(g.cells, r, c, x, IsEmptyCell);
  }

  /** After the first `n` commits the grid has `n` more planted cells and `n`
      fewer free ones than the pre-filled grid. */
  lemma {:induction false} CommitCounts(pre: GardenGrid, candidates: seq<Vegetable>, trace: seq<Commit>, n: nat)
    requires GreedyTrace(pre, candidates, trace) && 0 < n <= |trace|
    ensures WellFormed(trace[0].before)
    ensures Count(After(trace[n - 1]).cells, IsOccupiedCell) == Count(pre.cells, IsOccupiedCell) + n
    ensures Count(After(trace[n - 1]).cells, IsEmptyCell) + n == Count(pre.cells, IsEmptyCell)
    decreases n
  {
    var t := trace[n - 1];
    assert ValidCommit(t, candidates[t.index]);
    PlantCounts(t.before, t.row, t.col, t.placed);
    if n > 1 {
      CommitCounts(pre, candidates, trace, n - 1);
    }
  }

  /** The loop plants exactly one new cell per commit. */
  lemma FinalCounts(pre: GardenGrid, candidates: seq<Vegetable>, trace: seq<Commit>)
    requires GreedyTrace(pre, candidates, trace)
    ensures Count(Final(pre, trace).cells, IsOccupiedCell) == Count(pre.cells, IsOccupiedCell) + |trace|
    ensures Count(Final(pre, trace).cells, IsEmptyCell) + |trace| == Count(pre.cells, IsEmptyCell)
  {
    if |trace| > 0 {
      CommitCounts(pre, candidates, trace, |trace|);
    }
  }

  /** An answer cell that holds a vegetable. */
  predicate IsPlanted(p: PlannedCell)
  {
    p.id.Some?
  }

  /** The answer holds the layout's known vegetables plus one per commit, and
      its open cells are the pre-filled grid's free cells less one per commit. */
  lemma AnswerCounts(layout: Matrix<LayoutCell>, lookup: string -> Option<Vegetable>, candidates: seq<Vegetable>,
                     trace: seq<Commit>, resp: PlanResponse)
    requires |layout| > 0 && ShowsRun(layout, lookup, candidates, trace, resp)
    ensures var pre := PrefilledGrid(layout, lookup);
      && Count(resp.grid, IsPlanted) == Count(pre.cells, IsOccupiedCell) + |trace|
      && Count(resp.grid, IsOpen) + |trace| == Count(pre.cells, IsEmptyCell)
  {
    var pre := PrefilledGrid(layout, lookup);
    var final := Final(pre, trace);
    FinalCounts(pre, candidates, trace);
    ShownCounts(final, resp.grid);
  }

  /** An answer grid that shows `g` cell for cell has as many planted cells
      as `g` and as many open cells as `g` has free ones. */
  lemma ShownCounts(g: GardenGrid, m: Matrix<PlannedCell>)
    requires WellFormed(g) && |m| == |g.cells| && (forall r :: 0 <= r < |m| ==> |m[r]| == |g.cells[r]|)
    requires forall r, c :: InBounds(g, r, c) ==> m[r][c] == ToPlannedCell(g.cells[r][c])
    ensures Count(m, IsPlanted) == Count(g.cells, IsOccupiedCell)
    ensures Count(m, IsOpen) == Count(g.cells, IsEmptyCell)
  {
    assert forall r, c :: 0 <= r < |g.cells| && 0 <= c < |g.cells[r]| ==> InBounds(g, r, c);
    CountCongruent(g.cells, IsOccupiedCell, m, IsPlanted);
    CountCongruent(g.cells, IsEmptyCell, m, IsOpen);
  }

  /** A commit's reason follows its neighbours: a first placement exactly when
      the cell has none (and then the score is 0), a good-companion note when
      every neighbour is only on the good list, a constrained note when every
      neighbour is only on the bad list. */
  lemma CommitReason(t: Commit, v: Vegetable)
    requires ValidCommit(t, v)
    ensures var ns := Neighbors(t.before, t.row, t.col);
      && (t.placed.reason.FirstPlaced? <==> |ns| == 0)
      && (|ns| == 0 ==> t.score == 0)
      && (|ns| > 0 && (forall k :: 0 <= k < |ns| ==> ns[k].id in v.goodCompanions && ns[k].id !in v.badCompanions) ==>
            t.placed.reason == WithNeighbours(v.name, GoodCompanion, Names(ns), v.beginnerFriendly))
      && (|ns| > 0 && (forall k :: 0 <= k < |ns| ==> ns[k].id !in v.goodCompanions && ns[k].id in v.badCompanions) ==>
            t.placed.reason == WithNeighbours(v.name, ConstrainedNear, Names(ns), v.beginnerFriendly))
  {
    var ns := Neighbors(t.before, t.row, t.col);
    assert t.score == Score(v, Ids(ns));
    if forall k :: 0 <= k < |ns| ==> ns[k].id in v.goodCompanions && ns[k].id !in v.badCompanions {
      GoodOnlyNeighboursScore(v, ns);
    }
    if forall k :: 0 <= k < |ns| ==> ns[k].id !in v.goodCompanions && ns[k].id in v.badCompanions {
      BadOnlyNeighboursScore(v, ns);
    }
  }

  /** When some free cell scores at least 0, so does the best one; so a
      vegetable is never put where every neighbour is one it only dislikes,
      such as next to a single bad companion, while such a cell exists. */
  lemma BestCellAvoidsBadOnlyNeighbours(g: GardenGrid, v: Vegetable, br: int, bc: int)
    requires WellFormed(g) && InBounds(g, br, bc) && IsBestCell(g, v, br, bc)
    requires exists r, c :: InBounds(g, r, c) && IsFree(g, r, c) && CellScore(g, v, r, c) >= 0
    ensures CellScore(g, v, br, bc) >= 0
    ensures var ns := Neighbors(g, br, bc);
      (forall k :: 0 <= k < |ns| ==> ns[k].id !in v.goodCompanions && ns[k].id in v.badCompanions) ==> |ns| == 0
  {
    var r, c :| InBounds(g, r, c) && IsFree(g, r, c) && CellScore(g, v, r, c) >= 0;
    BestCellDominates(g, v, br, bc, r, c);
    var ns := Neighbors(g, br, bc);
    if forall k :: 0 <= k < |ns| ==> ns[k].id !in v.goodCompanions && ns[k].id in v.badCompanions {
      BadOnlyNeighboursScore(v, ns);
    }
  }

  /** Neighbours that are all only good companions score +2 each. */
  lemma GoodOnlyNeighboursScore(v: Vegetable, ns: seq<PlacedVegetable>)
    requires forall k :: 0 <= k < |ns| ==> ns[k].id in v.goodCompanions && ns[k].id !in v.badCompanions
    ensures Score(v, Ids(ns)) == GOOD_COMPANION_SCORE * |ns|
  {
    var ids := Ids(ns);
    assert forall i :: 0 <= i < |ids| ==> ids[i] in v.goodCompanions && ids[i] !in v.badCompanions;
    ScoreAllGood(v, ids);
  }

  /** Neighbours that are all only bad companions score -3 each. */
  lemma BadOnlyNeighboursScore(v: Vegetable, ns: seq<PlacedVegetable>)
    requires forall k :: 0 <= k < |ns| ==> ns[k].id !in v.goodCompanions && ns[k].id in v.badCompanions
    ensures Score(v, Ids(ns)) == BAD_COMPANION_SCORE * |ns|
  {
    var ids := Ids(ns);
    assert forall i :: 0 <= i < |ids| ==> ids[i] !in v.goodCompanions && ids[i] in v.badCompanions;
    ScoreAllBad(v, ids);
  }

  lemma BestCellDominates(g: GardenGrid, v: Vegetable, br: int, bc: int, r: int, c: int)
    requires WellFormed(g) && InBounds(g, br, bc) && InBounds(g, r, c)
    requires IsBestCell(g, v, br, bc) && IsFree(g, r, c)
    ensures CellScore(g, v, r, c) <= CellScore(g, v, br, bc)
  {
  }
}
