/** The cell store of the spreadsheet. */
module Cells {
  import opened Address

  /** `CellValue`: the source's `std::variant<int, CellState>` with
      `enum class CellState { Empty, Error }`. */
  datatype CellValue = Int(value: int) | Empty | Error {

    /** `is_empty`: holds the `CellState` alternative `Empty`, so it is neither an `int`
        nor the error state. */
    predicate IsEmpty(): (b: bool)
      ensures b <==> !Int? && !Error?
    {
      Empty?
    }

    /** `is_error`: holds the `CellState` alternative `Error`, so it is neither an `int`
        nor the empty state. */
    predicate IsError(): (b: bool)
      ensures b <==> !Int? && !Empty?
    {
      Error?
    }
  }

  /** `cells`, the map from column to a map from row to value, flattened to one map keyed by
      `(column, row)`; a coordinate without an entry is a cell that was never written. */
  type Grid = map<Coord, CellValue>

  /** No cell holds `Empty`: the source never stores that state. */
  ghost predicate NoEmptyCell(grid: Grid)
  {
    forall c :: c in grid ==> !grid[c].IsEmpty()
  }
}
