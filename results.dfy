/** The report the pipeline produces: one line per scope of the geography. */
module Results {
  import Portfolio

  const I32_MIN: int := -0x8000_0000
  const I32_MAX: int := 0x7fff_ffff

  /** Rust's `i32`. */
  type I32 = x: int | I32_MIN <= x <= I32_MAX

  /** Report granularity: the whole group, one region, or one city. */
  datatype Scope = Group | Region(region: Portfolio.Region) | City(city: Portfolio.City)

  /** Costs are 32-bit signed integers in the report. */
  datatype CostCalculationSummaryLine = CostCalculationSummaryLine(scope: Scope, existingCost: I32, selectedCost: I32)
}
