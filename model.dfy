/** The one entity of the civic-reports pages: a report record, as both
    pages read it from and write it to browser storage. */
module Model {

  datatype Option<+T> = None | Some(value: T)

  /** The triage state held in a report's `status` string; the pages only
      ever write these three values. */
  datatype Status = Open | Assigned | Closed

  /** A captured device position. The pages only store and display it, so the
      floating-point degrees are kept as opaque reals. */
  datatype Location = Location(lat: real, lon: real)

  /** One stored report. `photoDataUrl` is "" when no photo was attached;
      `location` is None when no position was captured; `createdAt` is in
      milliseconds since the epoch. */
  datatype Report = Report(
    id: string,
    category: string,
    title: string,
    description: string,
    photoDataUrl: string,
    location: Option<Location>,
    status: Status,
    createdAt: int)
}
