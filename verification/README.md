# Garden planner core, modelled in Dafny

This project models the planning engine of a vegetable-garden planner
written in Rust. A caller describes a garden as a layout matrix. Each cell of
the layout is free, blocked (a path or alley) or already planted with a
catalogue identifier. The caller also sends a season, optional sun, soil,
region and skill-level filters, and a list of preferred identifiers. The engine
answers with a grid of planted cells, a companion score and a list of warnings.

The engine has four parts, and each is one Dafny module:

- `Companions` (src/logic/companion.rs) scores a vegetable against its
  neighbours. Each neighbour on the good-companion list adds 2, and each one on
  the bad-companion list adds -3. A neighbour on both lists adds both amounts.
- `Filter` (src/logic/filter.rs) keeps the catalogue entries that suit the
  request. It then sorts them stably: preferred identifiers first, then by
  name.
- `Garden` (src/models/garden.rs) is the grid of cells. Each cell has an
  optional placed vegetable and a blocked flag. The module also finds the
  planted orthogonal neighbours of a cell, in the order up, down, left, right.
- `Planner` (src/logic/planner.rs) runs the planning call. It checks the
  layout's shape and copies the blocked and pre-planted cells into a fresh
  grid. It stops early when the grid is already full. Otherwise it gives each
  candidate not yet planted the free cell with the strictly highest companion
  score, and the first such cell in row-major order wins a tie. It stops at
  the first candidate that finds no free cell, and finally reports how many
  cells were left open.

Supporting modules:

- `Wrappers` holds `Option` and `Result`.
- `Matrices` holds the source's `Matrix<T>` alias (src/models/mod.rs:6) and
  cell counting over it.
- `Vegetables` holds the catalogue record (src/models/vegetable.rs:52-66).
- `Requests` holds the request and response shapes.

Everything is a pure function or a method over immutable values.

The greedy loop is `Planner.PlaceCandidates`. It returns a ghost trace of
`Commit`s, one per placement. Each commit records:

- the candidate's index;
- the chosen cell and its score;
- the placed vegetable;
- the grid just before the placement.

`GreedyTrace` states what makes such a trace a run of the loop:

- each commit takes the best free cell of the grid the previous commit left;
- candidates are taken in list order.

The loop invariant `Progress` and the ensures of `PlaceCandidates` add that
the final grid and the total score are the trace's last grid and the sum of
its scores.

Behaviour of the code worth knowing before reading the model:

- Every vegetable takes one cell and the planner makes one pass; there are no
  spans, quantities or second pass.
- Candidates are sorted with preferred identifiers first and then by name
  (src/logic/filter.rs:47-55).
- Neighbours are the planted cells in the four directions, so the same
  vegetable on two sides counts twice (src/models/garden.rs:43-56).
- The unknown-identifier warning names only the identifier
  (src/logic/planner.rs:49-51).
- Some ragged layouts panic (see Findings).

Some data shapes in src/models disagree with their use in planner.rs and
filter.rs. The model follows the use sites:

- the request carries `layout`;
- `Level` is an enumeration;
- `PlannedCell` has a `blocked` flag;
- `Category` has the variants that planner.rs's `category_label` names.

The enumeration variants use English names (`Summer`, `FullSun`, `Loamy`,
`Temperate`, ...) in place of vegetable.rs's French ones, in the same order.

Score arithmetic uses unbounded integers. `Planner.CellScoreBounds` shows that
every cell scores between -12 and 8, so the source's `i32::MIN` starting
value is never the answer. The model therefore uses an `Option` for "nothing
found yet".

## Model

| member | source | states |
|---|---|---|
| Companions.Score | src/logic/companion.rs:8-19 | the score against n neighbours lies between -3·n and 2·n |
| Companions.ScoreOfOneNeighbour | src/logic/companion.rs:3-18 | no neighbours score 0; one neighbour adds 2 if only good, -3 if only bad, 0 if in neither list, -1 if in both |
| Companions.ScoreAppend | src/logic/companion.rs:9-18 | the score of a concatenation is the sum of the scores of the parts |
| Companions.ScorePermutation | src/logic/companion.rs:9-18 | reordering the neighbours leaves the score unchanged |
| Companions.ScoreRepeated | src/logic/companion.rs:10-17 | a neighbour listed n times counts n times |
| Companions.ScoreAllGood | src/logic/companion.rs:10-17 | neighbours all only on the good list score 2 each |
| Companions.ScoreAllBad | src/logic/companion.rs:10-17 | neighbours all only on the bad list score -3 each |
| Companions.CompatibleSymmetric | src/logic/companion.rs:22-25 | compatibility, modelled by `Companions.IsCompatible`, is symmetric |
| Companions.CompatibleMeansNoPenalty | src/logic/companion.rs:22-25 | two vegetables are incompatible exactly when one lists the other as bad; the disliking side then scores the other negatively |
| Filter.Survivors | src/logic/filter.rs:12-44 | an entry survives exactly when it is in the catalogue and passes the season, sun, soil, region and beginner tests |
| Filter.SurvivorsAppend | src/logic/filter.rs:12-44 | filtering a concatenation gives the filtered parts in the same order, so the survivors keep catalogue order |
| Filter.SurvivorsSingle | src/logic/filter.rs:14-42 | a one-entry catalogue keeps its entry exactly when the entry passes the filter closure |
| Filter.SurvivorsCount | src/logic/filter.rs:12-44 | a suitable entry survives as many times as the catalogue holds it, and an unsuitable one never |
| Filter.NameLeTotal | src/logic/filter.rs:53 | any two names compare one way or the other |
| Filter.NameLeTransitive | src/logic/filter.rs:53 | the name order is transitive |
| Filter.PrecedesTotal | src/logic/filter.rs:47-55 | the sort comparator, modelled by `Filter.Precedes` (preferred first, then by name), relates every pair |
| Filter.PrecedesTransitive | src/logic/filter.rs:47-55 | the sort comparator is transitive |
| Filter.SortByPriority | src/logic/filter.rs:47-55 | the sorted list is a permutation of its input and every entry may precede every later one |
| Filter.SortIsStable | src/logic/filter.rs:47-55 | entries the comparator treats as equal keep their input order |
| Filter.FilterVegetables | src/logic/filter.rs:8-58 | the result passes the filter, is a permutation of the suitable entries, and is in comparator order |
| Filter.FilterMeetsRequest | src/logic/filter.rs:14-42 | every result passes the filter closure, modelled by `Filter.Keep`: it grows in the season and meets each requested sun, soil, region and beginner constraint |
| Filter.FilterKeepsExactlySurvivors | src/logic/filter.rs:12-44 | an entry is in the result exactly when it is a suitable catalogue entry, and nothing is added or dropped |
| Filter.FilterPreferredFirst | src/logic/filter.rs:47-52 | every preferred entry comes before every non-preferred one |
| Filter.FilterFirstIsPreferred | src/logic/filter.rs:47-52 | if some suitable entry is preferred, the first result is preferred |
| Filter.FilterNamesOrderedInGroup | src/logic/filter.rs:53 | within the preferred and the non-preferred group, names never decrease |
| Filter.FilterIsStable | src/logic/filter.rs:47-55 | entries with the same preference status and name keep catalogue order |
| Garden.New | src/models/garden.rs:29-41 | a new grid has the given dimensions and every cell is empty and unblocked |
| Garden.Plant | src/logic/planner.rs:123-127 | planting sets one cell's vegetable, keeps its blocked flag and changes no other cell |
| Garden.Block | src/logic/planner.rs:38-40 | blocking sets one cell's flag and changes no other cell |
| Garden.OccupiedNeighbourPositions | src/models/garden.rs:43-56 | at most four positions, each planted, in bounds and at Manhattan distance 1; every such position is listed, in the order up, down, left, right |
| Garden.ProbesCover | src/models/garden.rs:43-56 | the four probes yield at most four positions, and a position is among them exactly when it is planted, in bounds and adjacent |
| Garden.Neighbors | src/models/garden.rs:43-56 | the neighbours are the vegetables at those positions, in the same order |
| Garden.NeighborsAtMostFour | src/models/garden.rs:45-55 | a cell never has more than four neighbours |
| Garden.NoNeighborsOnEmptyGrid | src/models/garden.rs:49-53 | a grid with nothing planted reports no neighbours anywhere |
| Planner.BuildReason | src/logic/planner.rs:152-183 | a first-placement reason exactly when there are no neighbours; otherwise the qualifier is good, constrained or neutral exactly as the score is positive, negative or zero |
| Planner.BuildResponse | src/logic/planner.rs:185-222 | the answer keeps the grid's shape, rows, cols, score and warnings, and shows each cell as a planted cell or as an empty cell with its blocked flag |
| Planner.ResponseRoundTrip | src/logic/planner.rs:192-213 | on a grid whose blocked cells are unplanted, every cell converted by `Planner.ToPlannedCell` can be read back from the answer |
| Planner.OpenCellsMatchFreeCells | src/logic/planner.rs:137-143 | the answer has an open cell exactly when the grid has a free one, and the two counts agree |
| Planner.PrefilledGrid | src/logic/planner.rs:30-57 | the pre-filled grid has the layout's row count and first-row width |
| Planner.PrefilledGridCells | src/logic/planner.rs:34-57 | each pre-filled cell, as `Planner.PrefilledCell` computes it, is blocked exactly where the layout blocks it, planted exactly where the layout names a known vegetable (with an existing-layout reason), and free where the identifier is unknown |
| Planner.UnknownInRowExact | src/logic/planner.rs:41-52 | a row's warnings are exactly its unknown identifiers |
| Planner.UnknownIdWarningsExact | src/logic/planner.rs:35-57 | the layout's warnings are exactly its unknown identifiers, wherever they sit |
| Planner.Prefill | src/logic/planner.rs:30-57 | the pre-fill loop builds the pre-filled grid and the unknown-identifier warnings in row-major order |
| Planner.FillCell | src/logic/planner.rs:37-52 | one layout cell blocks its grid cell when blocked, plants a known identifier with the existing-layout reason, and adds one warning for an unknown identifier, leaving every other cell alone |
| Planner.FillRow | src/logic/planner.rs:35-54 | one layout row, done cell by cell, brings the grid to the pre-filled state up to the end of that row and appends that row's unknown-identifier warnings |
| Planner.FillRowAsWritten | src/logic/planner.rs:35-54 | the source's row loop completes exactly when the row blocks or plants nothing beyond the first row's width, and then agrees with the corrected row loop |
| Planner.PrefillInBoundsByRows | src/logic/planner.rs:34-36 | the whole layout stays inside the grid exactly when each of its rows does |
| Planner.PrefillAsWritten | src/logic/planner.rs:35-57 | the source's pre-fill goes out of range exactly on layouts with a blocked cell or known identifier beyond the first row's width, and otherwise agrees with the pre-fill |
| Planner.RaggedLayoutPanics | src/logic/planner.rs:20-43 | a layout that passes validation can still send the source's pre-fill out of range |
| Planner.CellScoreBounds | src/logic/planner.rs:94-111 | a cell's score, modelled by `Planner.CellScore` (the companion score of its neighbour list), lies in [-12, 8], above the 32-bit minimum the scan starts from |
| Planner.BestCellUnique | src/logic/planner.rs:96-113 | at most one cell is the best (highest score, first in row-major order among equals) |
| Planner.ScanTake | src/logic/planner.rs:98-111 | a free cell that beats the best so far, or comes when nothing was found yet, becomes the best so far, and the scanned prefix stays accounted for |
| Planner.ScanKeep | src/logic/planner.rs:98-111 | a taken or blocked cell, or one scoring no more than the best so far, leaves the best so far unchanged |
| Planner.BestCell | src/logic/planner.rs:91-113 | the scan finds nothing exactly when no cell is free, and otherwise returns the best cell and its score |
| Planner.BestCellAvoidsBadOnlyNeighbours | src/logic/planner.rs:96-113 | while some free cell scores at least 0, the best cell does too, so it never has only bad-companion neighbours |
| Planner.TryPlace | src/logic/planner.rs:91-133 | for a candidate not yet planted, it reports no placement exactly when no cell is free, and otherwise a valid commit at the best cell |
| Planner.ProgressSkip | src/logic/planner.rs:86-89 | skipping a candidate already planted keeps the loop invariant |
| Planner.ProgressCommit | src/logic/planner.rs:115-129 | committing a best-cell placement keeps the loop invariant, adding the score and the identifier |
| Planner.Step | src/logic/planner.rs:85-134 | one turn of the loop either stops on a full grid or moves to the next candidate, keeping the loop invariant; an already planted identifier is skipped with nothing changed, a stop changes nothing, and otherwise the identifier joins the placed set |
| Planner.PlaceCandidates | src/logic/planner.rs:78-134 | the loop's result is a greedy trace from the pre-filled grid: blocked and planted cells kept, score the sum of the commits, no identifier committed twice, and every skipped candidate either already planted or after the grid filled up |
| Planner.FullyOccupiedIffNoFreeCell | src/logic/planner.rs:59-75 | the count test, modelled by `Planner.IsFullyOccupied` (planted at least total minus blocked, saturating), holds exactly when no cell is free |
| Planner.FreeCellIffCount | src/logic/planner.rs:137-143 | a grid has a free cell exactly when its count of free cells is positive |
| Planner.PlanGarden | src/logic/planner.rs:16-150 | an empty layout and an empty first row are the only errors; otherwise the answer is a plan of the layout (see `IsPlan`) |
| Planner.PlaceAndAnswer | src/logic/planner.rs:77-149 | on a grid with room, running the loop and adding the open-cell warning gives a plan of the layout's size whose warnings are the pre-fill's followed by at most one more |
| Planner.FullPlan | src/logic/planner.rs:72-75 | a full pre-filled grid is answered as it is, with score 0 and the fully-occupied warning |
| Planner.GreedyPlan | src/logic/planner.rs:136-149 | after the loop, the answer warns about open cells exactly when some remain, with their count |
| Planner.AnswerKeepsBlocked | src/logic/planner.rs:197-209 | an answer cell is blocked exactly when the layout blocks it, and a blocked cell holds nothing |
| Planner.AnswerKeepsPrePlanted | src/logic/planner.rs:41-47 | a cell pre-planted with a known identifier keeps that vegetable and its existing-layout reason |
| Planner.AnswerShowsCommits | src/logic/planner.rs:115-129 | each committed candidate occupies its cell, and every planted cell is pre-planted or committed |
| Planner.PlacedCellsHaveReasons | src/logic/planner.rs:197-203 | every planted answer cell has a name and a reason and is not flagged blocked |
| Planner.NoCandidatesPlantNothing | src/logic/planner.rs:85-134 | without candidates nothing is committed, and an all-free layout gives an empty answer |
| Planner.FullyBlockedPlacesNothing | src/logic/planner.rs:59-75 | a layout blocked everywhere places nothing, scores 0 and ends with the fully-occupied warning |
| Planner.CommitCellsDistinct | src/logic/planner.rs:98-100 | no two commits choose the same cell, so the loop never overwrites a placement |
| Planner.TraceIndexAtLeast | src/logic/planner.rs:85-89 | the k-th commit is for candidate k or later, so there are at most as many commits as candidates |
| Planner.SumScoresBounds | src/logic/planner.rs:106-129 | the total lies between -12 and 8 times the number of commits, and so of candidates |
| Planner.PlantCounts | src/logic/planner.rs:123-127 | planting a free cell adds one planted cell and removes one free cell |
| Planner.FinalCounts | src/logic/planner.rs:85-134 | the loop adds exactly one planted cell, and removes one free cell, per commit |
| Planner.AnswerCounts | src/logic/planner.rs:136-147 | the answer holds the layout's known vegetables plus one per commit, and its open cells are the pre-filled grid's free cells less one per commit |
| Planner.CommitReason | src/logic/planner.rs:152-171 | a commit's reason is a first placement exactly when the cell has no neighbours; all-good neighbours give the good qualifier and all-bad neighbours the constrained one |

## Left out

- HTTP handlers, routing, OpenAPI generation and the server entry point are not modelled: they are I/O around the engine.
- The width and length checks on floating-point metres, and the conversion from metres to cells, are not modelled. They are floating-point arithmetic outside the engine, and the engine receives the layout matrix directly.
- `CELL_SIZE_CM` (src/logic/planner.rs:11) is declared but not used by the engine, so it has no counterpart.
- The catalogue behind `get_vegetable_by_id` is not part of this model. It is the parameter `lookup: string -> Option<Vegetable>`, and the candidate list is an input.
- Warning and reason texts are not modelled. Warnings are the datatype `Warning`, and reasons the datatype `Reason` (first placement with category and beginner flag, or the qualifier with the neighbour names).
- Planner.PlanGarden: the score is an unbounded integer, not the source's 32-bit running total. `Planner.SumScoresBounds` keeps it within 12 times the candidate count, far inside 32 bits for any realistic catalogue.
- The `usize`-to-`i32` casts in `get_neighbors` are not modelled. They wrap only for grids with more than 2^31 rows or columns.
- `placed_ids` is a set of identifiers. The source's vector is only searched and appended to, so order and duplicates make no difference.
- `latinName` and `spacingCm` are carried in `Vegetable` but not used, as in the engine's code.
- serde attributes and JSON serialisation are not modelled.
- The integration tests under tests/ are not modelled. They drive the actix server over HTTP (tests/planner_e2e.rs:53), which is outside the engine. The two suites also disagree on catalogue identifiers ("tomate" in tests/api_integration.rs:164, "tomato" in tests/planner_e2e.rs:64).

## Findings

| source | as written | input that shows it | evidently intended | confidence | as-written member | corrected member |
|---|---|---|---|---|---|---|
| src/logic/planner.rs:35-57 | The pre-fill indexes the grid with each layout cell's own coordinates. The grid's width is the first row's length, so a blocked cell or known identifier further right in a longer row is out of range, and the call panics. | layout `[[Free], [Free, Blocked(true)]]`, which passes the two shape checks | only an empty layout or an empty first row is refused, and nothing else panics; cells outside the grid are ignored | medium, not executed | Planner.PrefillAsWritten | Planner.Prefill |

`Planner.RaggedLayoutPanics` exhibits the input. `Planner.PrefillAsWritten` returns `None` exactly on such layouts and otherwise agrees with `Planner.Prefill`. `Planner.Prefill` needs no precondition on row lengths. `Planner.PlanGarden` uses it, so its contract gives an answer for every layout whose first row is non-empty.
