/** The read-side response records (utility/StatsResponse.java, utility/TopDefectLineResponse.java). */
module Responses {

  /** The wire values are the strings "Healthy" and "Warning". */
  datatype HealthStatus = Healthy | Warning

  /** Machine statistics; `avgDefectRate` is the exact, unrounded rate in defects per hour. */
  datatype StatsResponse = StatsResponse(
    machineId: string,
    eventsCount: int,
    defectsCount: int,
    avgDefectRate: real,
    status: HealthStatus)

  /** One ranked line; `defectsPercent` is the exact, unrounded defects per 100 events. */
  datatype TopDefectLineResponse = TopDefectLineResponse(
    lineId: string,
    totalDefects: int,
    eventCount: int,
    defectsPercent: real)
}
