/** The vocabulary of updates shared by every service (`crates/abora-update/src/lib.rs`). */
module UpdateTypes {
  import opened Prelude
  import Version

  datatype Channel = Stable | Beta | Nightly | Custom(name: string)

  datatype RebootPolicy = Ask | Always | Never

  datatype Weekday = Monday | Tuesday | Wednesday | Thursday | Friday | Saturday | Sunday

  datatype MaintenanceWindow = MaintenanceWindow(days: seq<Weekday>, start: string, end: string,
                                                 maxDurationMinutes: Option<nat>)

  datatype AvailableUpdate = AvailableUpdate(channel: Channel, component: string)

  datatype RebootStatus = RebootStatus(required: bool, reason: Option<string>, pendingSince: Option<string>)

  datatype HistoryEntry = HistoryEntry(appliedAt: string, fromVersion: Version.Version, toVersion: Version.Version,
                                       channel: Channel, component: string, succeeded: bool, note: Option<string>)

  /** The parts of the configuration that update policy reads. */
  datatype Config = Config(automatic: bool, rebootPolicy: RebootPolicy, checkInterval: string, channel: Channel,
                           maintenanceEnabled: bool, windows: seq<MaintenanceWindow>)
}
