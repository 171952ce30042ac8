/**
 * The record moved by the concurrent pipeline (`etl.Record`).
 * Go's `time.Time` values are modelled as integer instants.
 */
module EtlTypes {

  /** An instant (seconds on one clock); only compared and copied by the pipeline. */
  type Instant = int

  datatype Record = Record(
    id: int,
    date: Instant,
    timestamp: Instant,
    deviceType: string,
    eventType: string,
    message: string)

  /** The smaller of two integers. */
  function Min(a: int, b: int): int {
    if a <= b then a else b
  }
}
