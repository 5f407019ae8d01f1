/** A sample at an instant (nanoseconds since the epoch), with an exact value. */
module Points {
  datatype Point = Point(at: int, value: real)
}
