/** The fund table's data: cells as read from the page, and one fund row
    after its eight return columns have been converted to numbers. */
module Funds {

  /** A table cell: text as the page renders it, or a number (the `0` that
      `fillna` writes into an empty cell). */
  datatype Cell = Text(text: string) | Number(number: int)

  /** The eight return horizons, in the order the source converts them. */
  datatype Horizon =
    OneMonth | ThreeMonths | SixMonths | OneYear | TwoYears | ThreeYears | FiveYears | YearToDate

  /** The column heading the source uses for each horizon. */
  function HorizonName(h: Horizon): string {
    match h
    case OneMonth => "一個月"
    case ThreeMonths => "三個月"
    case SixMonths => "六個月"
    case OneYear => "一年"
    case TwoYears => "二年"
    case ThreeYears => "三年"
    case FiveYears => "五年"
    case YearToDate => "自今年以來"
  }

  /** The heading of the fund-name column. */
  const NameColumn: string := "基金名稱"

  /** One data row: all its cells, and the eight converted return columns.
      Returns are an abstract ordered value (`int`), not floating point. */
  datatype FundRow = FundRow(
    cells: seq<Cell>,
    oneMonth: int, threeMonths: int, sixMonths: int, oneYear: int,
    twoYears: int, threeYears: int, fiveYears: int, yearToDate: int)

  function Return(r: FundRow, h: Horizon): int {
    match h
    case OneMonth => r.oneMonth
    case ThreeMonths => r.threeMonths
    case SixMonths => r.sixMonths
    case OneYear => r.oneYear
    case TwoYears => r.twoYears
    case ThreeYears => r.threeYears
    case FiveYears => r.fiveYears
    case YearToDate => r.yearToDate
  }
}
