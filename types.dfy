/** The records the conflict detector reads: services, appointments and the
    blocked intervals derived from them. Times are instants in integer
    milliseconds since the epoch (what `Date.getTime()` yields); durations and
    buffers are whole minutes. */
module Types {

  datatype Option<+T> = None | Some(value: T)

  /** What the business offers. `bufferMinutes` is the idle time the service
      needs after its nominal end. */
  datatype Service = Service(
    id: string,
    name: string,
    durationMinutes: int,
    bufferMinutes: int,
    price: int)

  /** A booking of one service. `startTime` and `endTime` are the parsed
      instants of the stored timestamps. */
  datatype Appointment = Appointment(
    id: string,
    serviceId: string,
    customerName: string,
    startTime: int,
    endTime: int,
    notes: Option<string>)

  /** A span of time with its two ends, as handed to the overlap test. */
  datatype Interval = Interval(start: int, end: int)

  /** The instant `t` lies in the half-open span `[iv.start, iv.end)`. */
  predicate Within(t: int, iv: Interval)
  {
    iv.start <= t < iv.end
  }

  const MillisecondsPerMinute: int := 60000

  /** An instant moved forward by a number of minutes. */
  function AddMinutes(t: int, minutes: int): int
  {
    t + minutes * MillisecondsPerMinute
  }
}
