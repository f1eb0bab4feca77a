/** Optional values, as std::optional is used by the service. */
module Wrappers {
  datatype Option<+T> = None | Some(value: T)
}

/** Machine word limits. */
module Words {
  const TWO32: nat := 0x1_0000_0000
  const TWO63: nat := 0x8000_0000_0000_0000
  const TWO64: nat := 0x1_0000_0000_0000_0000
  const MAX64: nat := TWO64 - 1
}

/** The half-open time window of a query (src/RESTAPI/RESTAPI_mcp_helpers.h, Window). */
module Windows {
  datatype Window = Window(startTime: nat, endTime: nat, lookbackHours: nat)

  predicate InWindow(w: Window, t: nat) { w.startTime <= t < w.endTime }
}
