/** Time as the IDateTimeProvider capability hands it out. */
module Clock {

  /** A UTC instant, counted in ticks; only the order of instants matters. */
  type Instant = int
}
