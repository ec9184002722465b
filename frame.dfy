/** One row of the metrics DataFrame that flows from the usage API (or a
    CSV export) into the database: the columns `Date`, `Email`, `Is Active`,
    `Subscription Included Reqs` and `Usage Based Reqs`. */
module MetricsFrame {
  import opened Timestamps

  datatype UsageRecord = UsageRecord(
    date: Instant,
    email: string,
    isActive: bool,
    subscriptionIncludedReqs: int,
    usageBasedReqs: int)
}
