/** Constants of the thread module (threads/thread.h is not part of this model; the values are those of
    the Pintos thread interface that the scheduler and the priority code are written against). */
module ThreadLimits {
  /** Lowest, default and highest thread priority. */
  const PRI_MIN: int := 0
  const PRI_DEFAULT: int := 31
  const PRI_MAX: int := 63

  /** Range of the MLFQS `nice` value. */
  const NICE_MIN: int := -20
  const NICE_MAX: int := 20
}
