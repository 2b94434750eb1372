/** What a planning call receives and returns (src/models/request.rs), in the
    shape the planner and the filter use: the request carries the layout, the
    skill level is an enumeration and a planned cell carries a blocked flag. */
module Requests {
  import opened Wrappers
  import opened Matrices
  import opened Vegetables
  import opened Garden

  datatype Level = Beginner | Expert

  /** One cell of the caller's layout: free, blocked (when the flag is set) or
      already planted with the given catalogue identifier. */
  datatype LayoutCell = Free | Blocked(isBlocked: bool) | Planted(id: string)

  datatype PlanRequest = PlanRequest(
    season: Season,
    sun: Option<SunExposure>,
    soil: Option<SoilType>,
    region: Option<Region>,
    level: Option<Level>,
    preferences: Option<seq<string>>,
    layout: Matrix<LayoutCell>)

  /** One cell of the answer; an empty cell carries its blocked flag. */
  datatype PlannedCell = PlannedCell(
    id: Option<string>,
    name: Option<string>,
    reason: Option<Reason>,
    blocked: bool)

  /** The non-fatal remarks a plan can carry. */
  datatype Warning =
    | UnknownVegetable(id: string)
    | FullyOccupied
    | EmptyCells(count: nat)

  /** The two layouts the planner refuses. */
  datatype PlanError = EmptyLayout | EmptyRow

  datatype PlanResponse = PlanResponse(
    grid: Matrix<PlannedCell>,
    rows: nat,
    cols: nat,
    score: int,
    warnings: seq<Warning>)
}
